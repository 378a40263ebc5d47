/**
 The hot-key pool of redis-cli (redis-cli.c): two arrays of the highest access frequencies seen so far
 and their keys, updated in place for every sample.
 */
module HotKeys {
  import opened Basics

  const HOTKEYS_SAMPLE: nat := 16

  ghost predicate Sorted(s: seq<nat>) {
    forall i, j :: 0 <= i < j < |s| ==> s[i] <= s[j]
  }

  /** `top` are the largest elements of `all`, and `rest` the others. */
  ghost predicate Largest(top: multiset<nat>, rest: multiset<nat>, all: multiset<nat>) {
    top + rest == all && forall x, y :: x in rest && y in top ==> x <= y
  }

  /** The largest `n` elements of a multiset are determined by it. */
  lemma LargestUnique(a: multiset<nat>, ra: multiset<nat>, b: multiset<nat>, rb: multiset<nat>, all: multiset<nat>)
    requires Largest(a, ra, all) && Largest(b, rb, all) && |a| == |b|
    ensures a == b
  {
    if a != b {
      var x := MoreOften(a, b);
      var y := MoreOften(b, a);
      LargestOrder(a, ra, b, rb, all, x, y);
      LargestOrder(b, rb, a, ra, all, y, x);
    }
  }

  lemma LargestOrder(a: multiset<nat>, ra: multiset<nat>, b: multiset<nat>, rb: multiset<nat>, all: multiset<nat>, x: nat, y: nat)
    requires Largest(a, ra, all) && Largest(b, rb, all) && a[x] > b[x] && b[y] > a[y]
    ensures x <= y
  {
    assert (a + ra)[x] == (b + rb)[x];
    assert x in rb && y in b;
  }

  lemma MoreOften(a: multiset<nat>, b: multiset<nat>) returns (x: nat)
    requires a != b && |a| == |b|
    ensures a[x] > b[x]
  {
    if a <= b { WholeSubset(a, b); }
    x :| a[x] > b[x];
  }

  lemma WholeSubset(a: multiset<nat>, b: multiset<nat>)
    requires a <= b && |a| == |b|
    ensures a == b
  {
    assert b == a + (b - a);
  }

  /** The first `k` entries move one place down, and `x` comes after them. */
  function Shifted<T>(s: seq<T>, k: nat, x: T): seq<T>
    requires k < |s|
  {
    s[1..k + 1] + [x] + s[k + 1..]
  }

  lemma ShiftedIs<T>(s: seq<T>, k: nat, r: seq<T>)
    requires k < |s| == |r| && forall i :: 0 <= i < |s| ==> r[i] == s[if i < k then i + 1 else i]
    ensures r == Shifted(s, k, s[k])
  {
  }

  lemma ShiftedLast<T>(s: seq<T>, k: nat, x: T)
    requires k < |s|
    ensures |Shifted(s, k, s[k])| == |s| && Shifted(s, k, s[k])[k := x] == Shifted(s, k, x)
  {
  }

  lemma ShiftedMultiset(s: seq<nat>, k: nat, x: nat)
    requires k < |s|
    ensures multiset(Shifted(s, k, x)) == multiset(s) - multiset{s[0]} + multiset{x}
  {
    assert s == [s[0]] + s[1..k + 1] + s[k + 1..];
  }

  lemma PlacedMultiset(s: seq<nat>, k: nat, x: nat)
    requires k < |s|
    ensures multiset(s[k := x]) == multiset(s) - multiset{s[k]} + multiset{x}
  {
    assert s == s[..k] + [s[k]] + s[k + 1..];
    assert s[k := x] == s[..k] + [x] + s[k + 1..];
  }

  /** Replacing the least of the largest by something larger. */
  lemma LargestReplace(top: multiset<nat>, rest: multiset<nat>, all: multiset<nat>, least: nat, x: nat)
    requires Largest(top, rest, all) && least in top && least < x && forall y :: y in top ==> least <= y
    ensures Largest(top - multiset{least} + multiset{x}, rest + multiset{least}, all + multiset{x})
  {
  }

  lemma LargestSkip(top: multiset<nat>, rest: multiset<nat>, all: multiset<nat>, x: nat)
    requires Largest(top, rest, all) && forall y :: y in top ==> x <= y
    ensures Largest(top, rest + multiset{x}, all + multiset{x})
  {
  }

  class Pool {
    const counters: array<nat>
    const hotkeys: array<Option<bytes>>
    ghost var samples: multiset<(bytes, nat)>
    ghost var seen: multiset<nat>
    ghost var rest: multiset<nat>

    constructor ()
      ensures Valid() && fresh(counters) && fresh(hotkeys) && samples == multiset{}
      ensures seen == multiset(Zeros())
    {
      counters := new nat[HOTKEYS_SAMPLE](i => 0);
      hotkeys := new Option<bytes>[HOTKEYS_SAMPLE](i => None);
      samples, rest := multiset{}, multiset{};
      seen := multiset(Zeros());
      new;
      assert counters[..] == Zeros();
    }

    /**
     The counters are sorted and are the largest of all frequencies `seen`, which start as zeros; a
     nonzero one stands beside a key that was sampled with it, up to its first NUL, a zero one beside none.
     */
    ghost predicate Valid()
      reads this, counters, hotkeys
    {
      counters.Length == hotkeys.Length == HOTKEYS_SAMPLE && PoolOK(counters[..], hotkeys[..], samples, seen, rest)
    }

    /** Copies entries `1..k` one place down, in both arrays. */
    method MoveDown(k: nat)
      requires k < counters.Length && counters.Length == hotkeys.Length
      modifies counters, hotkeys
      ensures counters[..] == Shifted(old(counters[..]), k, old(counters[..])[k])
      ensures hotkeys[..] == Shifted(old(hotkeys[..]), k, old(hotkeys[..])[k])
    {
      hide Shifted;
      var j := 0;
      while j < k
        invariant j <= k
        invariant forall i :: 0 <= i < counters.Length ==> counters[i] == old(counters[..])[if i < j then i + 1 else i]
        invariant forall i :: 0 <= i < counters.Length ==> hotkeys[i] == old(hotkeys[..])[if i < j then i + 1 else i]
      {
        counters[j] := counters[j + 1];
        hotkeys[j] := hotkeys[j + 1];
        j := j + 1;
      }
      ShiftedIs(old(counters[..]), k, counters[..]);
      ShiftedIs(old(hotkeys[..]), k, hotkeys[..]);
    }

    /** How many counters, from the smallest, are below `freq`. */
    method CountBelow(freq: nat) returns (k: nat)
      requires counters.Length == HOTKEYS_SAMPLE
      ensures k <= HOTKEYS_SAMPLE && (forall i :: 0 <= i < k ==> counters[i] < freq)
      ensures k < HOTKEYS_SAMPLE ==> freq <= counters[k]
    {
      k := 0;
      while k < HOTKEYS_SAMPLE && freq > counters[k]
        invariant k <= HOTKEYS_SAMPLE && forall i :: 0 <= i < k ==> counters[i] < freq
      {
        k := k + 1;
      }
    }

    /** A zero counter, or the smallest, gives way; otherwise the smaller ones move down. */
    method Replace(k: nat, key: bytes, freq: nat)
      requires k < counters.Length && counters.Length == hotkeys.Length
      modifies counters, hotkeys
      ensures var place := k == 0 || old(counters[k]) == 0;
        && counters[..] == (if place then old(counters[..])[k := freq] else Shifted(old(counters[..]), k, freq))
        && hotkeys[..] == (if place then old(hotkeys[..])[k := Some(CString(key))] else Shifted(old(hotkeys[..]), k, Some(CString(key))))
      ensures hotkeys[k] == Some(key) <==> 0 !in key
    {
      CStringWhole(key);
      hide Shifted;
      if k != 0 && counters[k] != 0 {
        MoveDown(k);
        ShiftedLast(old(counters[..]), k, freq);
        ShiftedLast(old(hotkeys[..]), k, Some(CString(key)));
      }
      counters[k] := freq;
      hotkeys[k] := Some(CString(key));
    }

    /** One sample. */
    method Sample(key: bytes, freq: nat)
      requires Valid()
      modifies this, counters, hotkeys
      ensures Valid()
      ensures seen == old(seen) + multiset{freq} && samples == old(samples) + multiset{(key, freq)}
    {
      hide PoolOK, Shifted;
      var k := CountBelow(freq);
      if k == 0 {
        SkipOK(counters[..], hotkeys[..], samples, seen, rest, key, freq);
        rest := rest + multiset{freq};
      } else {
        assert counters[k - 1] < freq;
        ReplaceOK(counters[..], hotkeys[..], samples, seen, rest, k - 1, key, freq);
        rest := rest + multiset{counters[0]};
        Replace(k - 1, key, freq);
      }
      seen := seen + multiset{freq};
      samples := samples + multiset{(key, freq)};
    }
  }

  ghost predicate PoolOK(c: seq<nat>, h: seq<Option<bytes>>, samples: multiset<(bytes, nat)>, seen: multiset<nat>, rest: multiset<nat>) {
    Sorted(c) && Largest(multiset(c), rest, seen) && Paired(c, h, samples)
  }

  /** A sample not above the least counter changes nothing. */
  lemma SkipOK(c: seq<nat>, h: seq<Option<bytes>>, samples: multiset<(bytes, nat)>, seen: multiset<nat>, rest: multiset<nat>,
               key: bytes, freq: nat)
    requires PoolOK(c, h, samples, seen, rest) && c != [] && freq <= c[0]
    ensures PoolOK(c, h, samples + multiset{(key, freq)}, seen + multiset{freq}, rest + multiset{freq})
  {
    LeastFirst(c);
    SampledMore(samples, key, freq);
    LargestSkip(multiset(c), rest, seen, freq);
  }

  lemma ReplaceOK(c: seq<nat>, h: seq<Option<bytes>>, samples: multiset<(bytes, nat)>, seen: multiset<nat>, rest: multiset<nat>,
                  k: nat, key: bytes, freq: nat)
    requires PoolOK(c, h, samples, seen, rest) && k < |c| && c[k] < freq && (k + 1 < |c| ==> freq <= c[k + 1])
    ensures |c| == |h|
    ensures var place := k == 0 || c[k] == 0;
      var c2 := if place then c[k := freq] else Shifted(c, k, freq);
      var h2 := if place then h[k := Some(CString(key))] else Shifted(h, k, Some(CString(key)));
      PoolOK(c2, h2, samples + multiset{(key, freq)}, seen + multiset{freq}, rest + multiset{c[0]})
  {
    LeastFirst(c);
    assert c[0] <= c[k];
    ReplacedOK(c, h, k, freq, key, samples);
    hide Sorted, Paired, Shifted, Largest;
    LargestReplace(multiset(c), rest, seen, c[0], freq);
  }

  ghost predicate Paired(c: seq<nat>, h: seq<Option<bytes>>, samples: multiset<(bytes, nat)>) {
    |c| == |h| && forall i :: 0 <= i < |c| ==>
      if c[i] == 0 then h[i] == None else h[i].Some? && SampledAs(samples, h[i].value, c[i])
  }

  /** `name` is the C string of a key that was sampled with frequency `freq`. */
  ghost predicate SampledAs(samples: multiset<(bytes, nat)>, name: bytes, freq: nat) {
    exists key :: (key, freq) in samples && CString(key) == name
  }

  lemma SampledMore(samples: multiset<(bytes, nat)>, key: bytes, freq: nat)
    ensures SampledAs(samples + multiset{(key, freq)}, CString(key), freq)
    ensures forall name, f: nat :: SampledAs(samples, name, f) ==> SampledAs(samples + multiset{(key, freq)}, name, f)
  {
    var more := samples + multiset{(key, freq)};
    assert (key, freq) in more;
    forall name, f: nat | SampledAs(samples, name, f)
      ensures SampledAs(more, name, f)
    {
      var k :| (k, f) in samples && CString(k) == name;
      assert (k, f) in more;
    }
  }

  /** When no sampled key has a NUL, every name in the pool is a sampled key, with its frequency. */
  lemma NamesAreKeys(c: seq<nat>, h: seq<Option<bytes>>, samples: multiset<(bytes, nat)>, i: nat)
    requires Paired(c, h, samples) && i < |c| && c[i] > 0 && forall s :: s in samples ==> 0 !in s.0
    ensures (h[i].value, c[i]) in samples
  {
    var key :| (key, c[i]) in samples && CString(key) == h[i].value;
    CStringWhole(key);
  }

  /** Otherwise it may be none: after the single sample of "a\0b" the pool names "a". */
  lemma NamesNoKey(c: seq<nat>, h: seq<Option<bytes>>, i: nat)
    requires Paired(c, h, multiset{([97, 0, 98], 5)}) && i < |c| && c[i] > 0
    ensures h[i] == Some([97]) && forall f: nat :: ([97], f) !in multiset{([97, 0, 98], 5)}
  {
    var key: bytes := [97, 0, 98];
    assert key[1..] == [0, 98];
    assert CString(key[1..]) == [];
    assert CString(key) == [97];
    assert SampledAs(multiset{(key, 5)}, h[i].value, c[i]);
  }

  lemma LeastFirst(c: seq<nat>)
    requires Sorted(c) && c != []
    ensures c[0] in multiset(c) && forall y :: y in multiset(c) ==> c[0] <= y
  {
  }

  lemma PlacedOK(c: seq<nat>, h: seq<Option<bytes>>, k: nat, freq: nat, key: bytes, samples: multiset<(bytes, nat)>)
    requires Sorted(c) && Paired(c, h, samples) && k < |c| && c[k] < freq && (k + 1 < |c| ==> freq <= c[k + 1])
    ensures Sorted(c[k := freq]) && Paired(c[k := freq], h[k := Some(CString(key))], samples + multiset{(key, freq)})
  {
    hide SampledAs;
    SampledMore(samples, key, freq);
  }

  /** `r` is `s` with the first `k` entries moved down and `x` after them, entry by entry. */
  ghost predicate IsShift<T>(s: seq<T>, r: seq<T>, k: nat, x: T) {
    k < |s| == |r| && r[k] == x && (forall i :: 0 <= i < k ==> r[i] == s[i + 1]) && forall i :: k < i < |s| ==> r[i] == s[i]
  }

  lemma SortedShift(c: seq<nat>, c2: seq<nat>, k: nat, freq: nat)
    requires Sorted(c) && IsShift(c, c2, k, freq) && c[k] < freq && (k + 1 < |c| ==> freq <= c[k + 1])
    ensures Sorted(c2)
  {
    forall i, j | 0 <= i < j < |c2|
      ensures c2[i] <= c2[j]
    {
      assert i < k ==> c2[i] == c[i + 1] <= c[k];
      assert j > k ==> c2[j] == c[j] >= c[k + 1];
    }
  }

  lemma PairedShift(c: seq<nat>, c2: seq<nat>, h: seq<Option<bytes>>, h2: seq<Option<bytes>>, k: nat, freq: nat, key: bytes,
                    samples: multiset<(bytes, nat)>)
    requires Paired(c, h, samples) && IsShift(c, c2, k, freq) && IsShift(h, h2, k, Some(CString(key))) && freq > 0
    ensures Paired(c2, h2, samples + multiset{(key, freq)})
  {
    hide SampledAs;
    SampledMore(samples, key, freq);
    forall i | 0 <= i < |c2|
      ensures if c2[i] == 0 then h2[i] == None else h2[i].Some? && SampledAs(samples + multiset{(key, freq)}, h2[i].value, c2[i])
    {
      if i < k { assert c2[i] == c[i + 1] && h2[i] == h[i + 1]; } else if i > k { assert c2[i] == c[i] && h2[i] == h[i]; }
    }
  }

  lemma ShiftedOK(c: seq<nat>, h: seq<Option<bytes>>, k: nat, freq: nat, key: bytes, samples: multiset<(bytes, nat)>)
    requires Sorted(c) && Paired(c, h, samples) && k < |c| && c[k] < freq && (k + 1 < |c| ==> freq <= c[k + 1])
    ensures Sorted(Shifted(c, k, freq)) && Paired(Shifted(c, k, freq), Shifted(h, k, Some(CString(key))), samples + multiset{(key, freq)})
  {
    hide Sorted, SampledAs;
    var c2, h2 := Shifted(c, k, freq), Shifted(h, k, Some(CString(key)));
    SortedShift(c, c2, k, freq);
    PairedShift(c, c2, h, h2, k, freq, key, samples);
  }

  /** Either way the least counter goes and `freq` comes. */
  lemma ReplacedOK(c: seq<nat>, h: seq<Option<bytes>>, k: nat, freq: nat, key: bytes, samples: multiset<(bytes, nat)>)
    requires Sorted(c) && Paired(c, h, samples) && k < |c| && c[k] < freq && (k + 1 < |c| ==> freq <= c[k + 1])
    ensures var place := k == 0 || c[k] == 0;
      var c2 := if place then c[k := freq] else Shifted(c, k, freq);
      var h2 := if place then h[k := Some(CString(key))] else Shifted(h, k, Some(CString(key)));
      && Sorted(c2) && Paired(c2, h2, samples + multiset{(key, freq)})
      && multiset(c2) == multiset(c) - multiset{c[0]} + multiset{freq}
  {
    if k == 0 || c[k] == 0 {
      PlacedOK(c, h, k, freq, key, samples);
      PlacedMultiset(c, k, freq);
      ZerosFirst(c, k);
    } else {
      ShiftedOK(c, h, k, freq, key, samples);
      ShiftedMultiset(c, k, freq);
    }
  }

  lemma ZerosFirst(c: seq<nat>, k: nat)
    requires Sorted(c) && k < |c| && (k == 0 || c[k] == 0)
    ensures c[0] == c[k]
  {
  }

  function Frequencies(stream: seq<(bytes, nat)>): seq<nat> {
    seq(|stream|, i requires 0 <= i < |stream| => stream[i].1)
  }

  function Zeros(): seq<nat> {
    seq(HOTKEYS_SAMPLE, i => 0)
  }

  /**
   Any stream of samples: the counters are the largest frequencies in it, padded with zeros. If no key in it
   has a NUL, each nonzero one stands beside a key that was sampled with it.
   */
  method FindHotKeys(stream: seq<(bytes, nat)>) returns (pool: Pool)
    ensures fresh(pool) && pool.Valid() && pool.samples == multiset(stream)
    ensures pool.seen == multiset(Zeros() + Frequencies(stream))
    ensures (forall s :: s in stream ==> 0 !in s.0) ==> forall i :: 0 <= i < HOTKEYS_SAMPLE && pool.counters[i] > 0 ==>
      pool.hotkeys[i].Some? && (pool.hotkeys[i].value, pool.counters[i]) in stream
  {
    hide PoolOK, Frequencies, Zeros;
    pool := new Pool();
    NoFrequencies();
    for i := 0 to |stream|
      invariant fresh(pool) && fresh(pool.counters) && fresh(pool.hotkeys) && pool.Valid()
      invariant pool.samples == multiset(stream[..i]) && pool.seen == multiset(Zeros() + Frequencies(stream[..i]))
    {
      OneMore(stream, i);
      pool.Sample(stream[i].0, stream[i].1);
    }
    assert stream[..|stream|] == stream;
    AllNamesAreKeys(pool.counters[..], pool.hotkeys[..], pool.samples, pool.seen, pool.rest, stream);
  }

  lemma NoFrequencies()
    ensures Zeros() + Frequencies([]) == Zeros()
  {
  }

  lemma OneMore(stream: seq<(bytes, nat)>, i: nat)
    requires i < |stream|
    ensures multiset(stream[..i + 1]) == multiset(stream[..i]) + multiset{stream[i]}
    ensures multiset(Zeros() + Frequencies(stream[..i + 1])) == multiset(Zeros() + Frequencies(stream[..i])) + multiset{stream[i].1}
  {
    assert stream[..i + 1] == stream[..i] + [stream[i]];
    assert Frequencies(stream[..i + 1]) == Frequencies(stream[..i]) + [stream[i].1];
    assert Zeros() + Frequencies(stream[..i + 1]) == Zeros() + Frequencies(stream[..i]) + [stream[i].1];
  }

  lemma AllNamesAreKeys(c: seq<nat>, h: seq<Option<bytes>>, samples: multiset<(bytes, nat)>, seen: multiset<nat>, rest: multiset<nat>,
                        stream: seq<(bytes, nat)>)
    requires PoolOK(c, h, samples, seen, rest) && samples == multiset(stream)
    ensures |h| == |c| && ((forall s :: s in stream ==> 0 !in s.0) ==>
      forall i :: 0 <= i < |c| && c[i] > 0 ==> h[i].Some? && (h[i].value, c[i]) in stream)
  {
    hide SampledAs, Largest, Sorted;
    if forall s :: s in stream ==> 0 !in s.0 {
      forall i | 0 <= i < |c| && c[i] > 0
        ensures h[i].Some? && (h[i].value, c[i]) in stream
      {
        NamesAreKeys(c, h, samples, i);
      }
    }
  }
}
