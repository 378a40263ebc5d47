/**
 Cluster rebalancing (redis-cli.c): the balance of each involved master, the correction of rounding,
 and the two-index loop that moves slots from masters with too many to masters with too few.

 Weights are exact reals. qsort is a parameter: any function that sorts. Moving a slot succeeds.
 */
module ClusterRebalance {
  import opened Basics

  const SLOTS: nat := 16384

  /** A master: `slots` is its bitmap, `slotsCount` what the cluster reported, which moves do not update. */
  datatype Node = Node(weight: real, slots: set<nat>, slotsCount: nat, balance: int)

  // ------------------------------------------------------------------ sums

  function Sum(s: seq<int>): int {
    if s == [] then 0 else Sum(s[..|s| - 1]) + s[|s| - 1]
  }

  lemma {:induction false} SumUpdate(s: seq<int>, i: nat, x: int)
    requires i < |s|
    ensures Sum(s[i := x]) == Sum(s) - s[i] + x
  {
    var m := |s| - 1;
    if i < m {
      assert s[i := x][..m] == s[..m][i := x];
      SumUpdate(s[..m], i, x);
    } else {
      assert s[i := x][..m] == s[..m];
    }
  }

  lemma {:induction false} SumSplit(a: seq<int>, b: seq<int>)
    ensures Sum(a + b) == Sum(a) + Sum(b)
  {
    if b == [] {
      assert a + b == a;
    } else {
      var m := |b| - 1;
      assert (a + b)[..|a + b| - 1] == a + b[..m];
      SumSplit(a, b[..m]);
    }
  }

  /** The signs of a sum that is zero. */
  lemma {:induction false} SumSign(s: seq<int>)
    ensures (forall i :: 0 <= i < |s| ==> s[i] > 0) && s != [] ==> Sum(s) > 0
    ensures (forall i :: 0 <= i < |s| ==> s[i] >= 0) ==> Sum(s) >= 0
    ensures (forall i :: 0 <= i < |s| ==> s[i] < 0) && s != [] ==> Sum(s) < 0
  {
    if s != [] { SumSign(s[..|s| - 1]); }
  }

  function RealSum(s: seq<real>): real {
    if s == [] then 0.0 else RealSum(s[..|s| - 1]) + s[|s| - 1]
  }

  // ----------------------------------------------------- expected numbers

  function Weights(nodes: seq<Node>): seq<real> {
    seq(|nodes|, i requires 0 <= i < |nodes| => nodes[i].weight)
  }

  function Balances(nodes: seq<Node>): seq<int> {
    seq(|nodes|, i requires 0 <= i < |nodes| => nodes[i].balance)
  }

  function Counts(nodes: seq<Node>): seq<int> {
    seq(|nodes|, i requires 0 <= i < |nodes| => nodes[i].slotsCount)
  }

  function Share(weight: real, total: real): real
    requires total != 0.0
  {
    SLOTS as real / total * weight
  }

  /** The slots a master of this weight should have, rounded towards zero. */
  function Expected(weight: real, total: real): int
    requires total != 0.0
  {
    var share := Share(weight, total);
    if share >= 0.0 then share.Floor else -(-share).Floor
  }

  lemma ExpectedBounds(weight: real, total: real)
    requires total != 0.0
    ensures Share(weight, total) < (Expected(weight, total) + 1) as real
    ensures Share(weight, total) >= 0.0 ==> 0 <= Expected(weight, total) && Expected(weight, total) as real <= Share(weight, total)
  {
    hide Share;
  }

  /** The share is the part of the slots that the weight is of the total, and `Expected` is the integer next to it towards zero. */
  lemma ExpectedIff(weight: real, total: real, x: int)
    requires total != 0.0
    ensures Share(weight, total) * total == SLOTS as real * weight
    ensures var share := Share(weight, total);
      x == Expected(weight, total) <==>
        if share >= 0.0 then x as real <= share < x as real + 1.0 else x as real - 1.0 < share <= x as real
  {
    assert Share(weight, total) * total == SLOTS as real / total * total * weight;
    hide Share;
  }

  lemma ShareFacts(a: real, b: real, total: real)
    requires total != 0.0
    ensures Share(a + b, total) == Share(a, total) + Share(b, total)
    ensures total > 0.0 && b >= 0.0 ==> Share(b, total) >= 0.0
    ensures Share(0.0, total) == 0.0 && Share(total, total) == SLOTS as real
  {
  }

  function Wanted(weights: seq<real>, total: real): seq<int>
    requires total != 0.0
  {
    seq(|weights|, i requires 0 <= i < |weights| => Expected(weights[i], total))
  }

  /** Rounding towards zero never takes a whole slot from a master. */
  lemma {:induction false} WantedSum(weights: seq<real>, total: real)
    requires total != 0.0
    ensures weights != [] ==> Share(RealSum(weights), total) < (Sum(Wanted(weights, total)) + |weights|) as real
    ensures total > 0.0 && (forall i :: 0 <= i < |weights| ==> weights[i] >= 0.0) ==>
      Sum(Wanted(weights, total)) as real <= Share(RealSum(weights), total)
  {
    hide Share, Expected;
    if weights == [] {
      ShareFacts(0.0, 0.0, total);
    } else {
      var m := |weights| - 1;
      WantedSum(weights[..m], total);
      assert Wanted(weights, total)[..m] == Wanted(weights[..m], total);
      ShareFacts(RealSum(weights[..m]), weights[m], total);
      ExpectedBounds(weights[m], total);
    }
  }

  /** The rounded shares of weights that are not negative fit, and are not negative. */
  lemma NoNegativeFits(weights: seq<real>, total: real)
    requires total > 0.0 && total == RealSum(weights) && forall i :: 0 <= i < |weights| ==> weights[i] >= 0.0
    ensures Sum(Wanted(weights, total)) <= SLOTS
    ensures forall i :: 0 <= i < |weights| ==> Wanted(weights, total)[i] >= 0
  {
    hide Share, Expected, RealSum, Sum;
    WantedSum(weights, total);
    ShareFacts(0.0, 0.0, total);
    forall i | 0 <= i < |weights|
      ensures Expected(weights[i], total) >= 0
    {
      ShareFacts(0.0, weights[i], total);
      ExpectedBounds(weights[i], total);
    }
  }

  /** With every slot owned, some master has no more slots than it should, whatever the weights. */
  lemma SomeoneMayReceive(nodes: seq<Node>, total: real)
    requires nodes != [] && total != 0.0 && total == RealSum(Weights(nodes)) && Sum(Counts(nodes)) == SLOTS
    ensures exists i :: 0 <= i < |nodes| && nodes[i].slotsCount <= Expected(nodes[i].weight, total)
  {
    hide Sum, RealSum, Share, Expected;
    var weights := Weights(nodes);
    WantedSum(weights, total);
    ShareFacts(0.0, 0.0, total);
    if forall i :: 0 <= i < |nodes| ==> nodes[i].slotsCount > Expected(nodes[i].weight, total) {
      SumAbove(Counts(nodes), Wanted(weights, total));
    }
  }

  /** Negative shares round up: then all of them can add up to more than there is, which nothing corrects. */
  lemma NegativeWeights()
    ensures exists weights: seq<real> :: RealSum(weights) > 0.0 && Sum(Wanted(weights, RealSum(weights))) > SLOTS
  {
    var weights := [16385.0, -0.5, -0.5];
    assert weights[..2] == [16385.0, -0.5] && weights[..2][..1] == [16385.0] && weights[..1][..0] == [];
    assert RealSum([16385.0]) == 16385.0;
    assert RealSum([16385.0, -0.5]) == 16384.5;
    var total := RealSum(weights);
    assert total == 16384.0;
    assert Expected(16385.0, total) == 16385 && Expected(-0.5, total) == 0;
    var w := Wanted(weights, total);
    assert w == [16385, 0, 0];
    assert w[..2] == [16385, 0] && w[..2][..1] == [16385] && w[..1][..0] == [];
    assert Sum([16385]) == 16385;
    assert Sum([16385, 0]) == 16385;
  }

  /** Shares can also fit although one of them is negative. */
  lemma NegativeShare()
    ensures exists weights: seq<real> ::
      && |weights| == 2 && RealSum(weights) > 0.0
      && Sum(Wanted(weights, RealSum(weights))) == SLOTS && Expected(weights[1], RealSum(weights)) < 0
  {
    var weights := [3.0, -1.0];
    assert weights[..1] == [3.0] && weights[..1][..0] == [];
    assert RealSum([3.0]) == 3.0;
    assert RealSum(weights) == 2.0;
    assert Expected(3.0, 2.0) == 24576 && Expected(-1.0, 2.0) == -8192;
    var w := Wanted(weights, RealSum(weights));
    assert w == [24576, -8192] && w[..1] == [24576] && w[..1][..0] == [];
    assert Sum([24576]) == 24576;
  }

  lemma {:induction false} SumAbove(a: seq<int>, b: seq<int>)
    requires |a| == |b| && forall i :: 0 <= i < |a| ==> a[i] > b[i]
    ensures Sum(a) >= Sum(b) + |a|
  {
    if a != [] { SumAbove(a[..|a| - 1], b[..|b| - 1]); }
  }

  lemma {:induction false} SumMinus(a: seq<int>, b: seq<int>, c: seq<int>)
    requires |a| == |b| == |c| && forall i :: 0 <= i < |a| ==> c[i] == a[i] - b[i]
    ensures Sum(c) == Sum(a) - Sum(b)
  {
    if a != [] { SumMinus(a[..|a| - 1], b[..|a| - 1], c[..|a| - 1]); }
  }

  /** The balance of every master, their sum, and whether some master is over the threshold. */
  method ComputeBalances(nodes: seq<Node>, total: real, threshold: real) returns (r: seq<Node>, totalBalance: int, reached: bool)
    requires total != 0.0
    ensures |r| == |nodes|
    ensures forall i :: 0 <= i < |nodes| ==> r[i] == nodes[i].(balance := nodes[i].slotsCount - Expected(nodes[i].weight, total))
    ensures totalBalance == Sum(Balances(r))
    ensures reached <==> exists i :: 0 <= i < |nodes| && OverThreshold(nodes[i], total, threshold)
  {
    r, totalBalance, reached := [], 0, false;
    for i := 0 to |nodes|
      invariant |r| == i && totalBalance == Sum(Balances(r))
      invariant forall k :: 0 <= k < i ==> r[k] == nodes[k].(balance := nodes[k].slotsCount - Expected(nodes[k].weight, total))
      invariant reached <==> exists k :: 0 <= k < i && OverThreshold(nodes[k], total, threshold)
    {
      var n := nodes[i];
      var expected := Expected(n.weight, total);
      ghost var before := r;
      r := r + [n.(balance := n.slotsCount - expected)];
      assert Balances(r)[..i] == Balances(before);
      totalBalance := totalBalance + (n.slotsCount - expected);
      if OverThreshold(n, total, threshold) { reached := true; }
    }
  }

  /** More than `threshold` per cent away from the expected number. */
  predicate OverThreshold(n: Node, total: real, threshold: real)
    requires total != 0.0
  {
    var expected := Expected(n.weight, total);
    threshold > 0.0
    && if n.slotsCount > 0 then
         var err := 100.0 - 100.0 * expected as real / n.slotsCount as real;
         (if err < 0.0 then -err else err) > threshold
       else expected > 1
  }

  /** A master is within the threshold when it is off by at most that percentage of the slots it has. */
  lemma WithinIff(n: Node, total: real, threshold: real)
    requires total != 0.0
    ensures var expected := Expected(n.weight, total);
      !OverThreshold(n, total, threshold) <==>
        threshold <= 0.0 || if n.slotsCount > 0 then 100.0 * Abs(n.slotsCount - expected) as real <= threshold * n.slotsCount as real else expected <= 1
  {
    hide Expected;
    var e, c := Expected(n.weight, total), n.slotsCount;
    if c > 0 { Percentage(e as real, c as real, threshold); }
  }

  /** No master is off by more than the threshold, a percentage of the slots it has, or wants more than one having none. */
  ghost predicate AllWithin(nodes: seq<Node>, total: real, threshold: real)
    requires total != 0.0
  {
    threshold <= 0.0 || forall i :: 0 <= i < |nodes| ==>
      var count, expected := nodes[i].slotsCount, Expected(nodes[i].weight, total);
      if count > 0 then 100.0 * Abs(count - expected) as real <= threshold * count as real else expected <= 1
  }

  lemma AllWithinIff(nodes: seq<Node>, total: real, threshold: real)
    requires total != 0.0
    ensures AllWithin(nodes, total, threshold) <==> forall i :: 0 <= i < |nodes| ==> !OverThreshold(nodes[i], total, threshold)
  {
    hide Expected, OverThreshold;
    forall i | 0 <= i < |nodes|
      ensures var count, expected := nodes[i].slotsCount, Expected(nodes[i].weight, total);
        !OverThreshold(nodes[i], total, threshold) <==>
          threshold <= 0.0 || if count > 0 then 100.0 * Abs(count - expected) as real <= threshold * count as real else expected <= 1
    {
      WithinIff(nodes[i], total, threshold);
    }
  }

  lemma Percentage(e: real, c: real, threshold: real)
    requires c > 0.0
    ensures var err := 100.0 - 100.0 * e / c;
      (err <= threshold <==> 100.0 * (c - e) <= threshold * c) && (-err <= threshold <==> 100.0 * (e - c) <= threshold * c)
  {
    var err := 100.0 - 100.0 * e / c;
    assert 100.0 * e / c * c == 100.0 * e;
    assert err * c == 100.0 * c - 100.0 * e;
    Scaled(err, threshold, c);
    Scaled(-err, threshold, c);
    assert (-err) * c == -(err * c);
  }

  lemma Scaled(a: real, b: real, c: real)
    requires c > 0.0
    ensures a <= b <==> a * c <= b * c
  {
  }

  /** Only masters that may receive are asked to take the slots lost in rounding. */
  ghost predicate Rounded(before: seq<Node>, after: seq<Node>) {
    && |after| == |before|
    && forall i :: 0 <= i < |before| ==>
         && after[i] == before[i].(balance := after[i].balance)
         && (before[i].balance > 0 ==> after[i].balance == before[i].balance)
         && after[i].balance <= before[i].balance
  }

  /** One pass over the masters. */
  method RoundPass(nodes: seq<Node>, total: nat, ghost i0: nat) returns (r: seq<Node>, left: nat)
    requires total > 0 && i0 < |nodes| && nodes[i0].balance <= 0 && total == Sum(Balances(nodes))
    ensures left < total && left == Sum(Balances(r)) && Rounded(nodes, r)
  {
    r, left := nodes, total;
    var i := 0;
    while i < |nodes|
      invariant i <= |nodes| && left <= total && left == Sum(Balances(r)) && Rounded(nodes, r)
      invariant forall k :: i <= k < |nodes| ==> r[k] == nodes[k]
      invariant i0 < i ==> left < total
    {
      if r[i].balance <= 0 && left > 0 {
        SumUpdate(Balances(r), i, r[i].balance - 1);
        ghost var b := Balances(r)[i := r[i].balance - 1];
        r := r[i := r[i].(balance := r[i].balance - 1)];
        assert Balances(r) == b;
        left := left - 1;
      }
      i := i + 1;
    }
  }

  /** The rounding loop ends, because somebody may receive; it takes a positive sum to zero and leaves any other. */
  method RoundBalances(nodes: seq<Node>, total: int) returns (r: seq<Node>)
    requires total == Sum(Balances(nodes)) && exists i :: 0 <= i < |nodes| && nodes[i].balance <= 0
    ensures Sum(Balances(r)) == Min(total, 0) && Rounded(nodes, r) && (total <= 0 ==> r == nodes)
  {
    ghost var i0 :| 0 <= i0 < |nodes| && nodes[i0].balance <= 0;
    r := nodes;
    var left := total;
    while left > 0
      invariant left == Sum(Balances(r)) && Rounded(nodes, r) && (if total > 0 then left >= 0 else r == nodes && left == total)
    {
      r, left := RoundPass(r, left, i0);
    }
  }

  // --------------------------------------------------------- reshard table

  function Min(a: int, b: int): int {
    if a < b then a else b
  }

  /** How many slots source `i`, with `count` of `tot` slots, is asked for: the first rounds up. */
  function Quota(i: nat, numslots: nat, count: nat, tot: nat): nat
    requires tot > 0
  {
    if i == 0 then (numslots * count + tot - 1) / tot else numslots * count / tot
  }

  /** The lowest `limit` slots of a bitmap. */
  method TakeSlots(slots: set<nat>, limit: nat) returns (r: seq<nat>)
    requires forall x :: x in slots ==> x < SLOTS
    ensures |r| == Min(limit, |slots|) && forall i :: 0 <= i < |r| ==> r[i] in slots
    ensures forall i, j :: 0 <= i < j < |r| ==> r[i] < r[j]
    ensures forall x, y :: x in slots && x !in r && y in r ==> y < x
  {
    hide Below;
    r := [];
    var j := 0;
    BelowNone(slots);
    while j < SLOTS
      invariant j <= SLOTS && |r| == |Below(slots, j)| <= limit
      invariant forall x :: x in r <==> x in Below(slots, j)
      invariant forall i :: 0 <= i < |r| ==> r[i] < j
      invariant forall i, k :: 0 <= i < k < |r| ==> r[i] < r[k]
    {
      BelowNext(slots, j);
      if j in slots {
        if |r| >= limit { break; }
        r := r + [j];
      }
      j := j + 1;
    }
    BelowFacts(slots, j);
  }

  /** The slots of a bitmap before `j`. */
  ghost function Below(slots: set<nat>, j: nat): set<nat> {
    set x | x in slots && x < j
  }

  lemma BelowNone(slots: set<nat>)
    ensures Below(slots, 0) == {}
  {
  }

  lemma BelowNext(slots: set<nat>, j: nat)
    ensures Below(slots, j + 1) == Below(slots, j) + (if j in slots then {j} else {}) && j !in Below(slots, j)
  {
  }

  lemma BelowFacts(slots: set<nat>, j: nat)
    ensures |Below(slots, j)| <= |slots| && Below(slots, j) <= slots
    ensures forall x :: x in slots && x !in Below(slots, j) ==> x >= j
    ensures (forall x :: x in slots ==> x < j) ==> Below(slots, j) == slots
  {
    SubsetSize(Below(slots, j), slots);
  }

  /** What each source can contribute: its quota, or all it has. */
  function Offers(sources: seq<Node>, numslots: nat, tot: nat): seq<int>
    requires tot > 0
  {
    seq(|sources|, i requires 0 <= i < |sources| => Min(Quota(i, numslots, sources[i].slotsCount, tot), |sources[i].slots|))
  }

  /**
   The slots to move, each with the source that owns it; `sources` come with the fullest first. When no
   slots are reported the quotas are not numbers; no source has a slot then, so none is taken.
   */
  method ComputeReshardTable(sources: seq<Node>, numslots: nat) returns (moved: seq<(nat, nat)>)
    requires Sum(Counts(sources)) > 0 || forall i :: 0 <= i < |sources| ==> sources[i].slots == {}
    requires forall i, x :: 0 <= i < |sources| && x in sources[i].slots ==> x < SLOTS
    ensures var tot := Sum(Counts(sources)); |moved| == if tot <= 0 then 0 else Min(numslots, Sum(Offers(sources, numslots, tot)))
    ensures forall m :: m in moved ==> m.0 < |sources| && m.1 in sources[m.0].slots
    ensures forall i, j :: 0 <= i < j < |moved| ==> moved[i] != moved[j]
  {
    var tot := 0;
    for i := 0 to |sources|
      invariant 0 <= tot == Sum(Counts(sources)[..i])
    {
      assert Counts(sources)[..i + 1][..i] == Counts(sources)[..i];
      tot := tot + sources[i].slotsCount;
    }
    assert Counts(sources)[..|sources|] == Counts(sources);
    moved := [];
    if tot == 0 { return; }
    ghost var offers := Offers(sources, numslots, tot);
    var i := 0;
    while i < |sources|
      invariant i <= |sources| && |moved| == Min(numslots, Sum(offers[..i]))
      invariant forall m :: m in moved ==> m.0 < i && m.1 in sources[m.0].slots
      invariant forall i, j :: 0 <= i < j < |moved| ==> moved[i] != moved[j]
    {
      assert offers[..i + 1][..i] == offers[..i];
      var max := Quota(i, numslots, sources[i].slotsCount, tot);
      var taken := TakeSlots(sources[i].slots, Min(max, numslots - |moved|));
      moved := moved + seq(|taken|, k requires 0 <= k < |taken| => (i, taken[k]));
      i := i + 1;
    }
    assert offers[..|sources|] == offers;
  }

  /** What the division for each quota leaves over. */
  function Remainders(sources: seq<Node>, numslots: nat, tot: nat): seq<int>
    requires tot > 0
  {
    seq(|sources|, i requires 0 <= i < |sources| => numslots * sources[i].slotsCount % tot)
  }

  function Quotas(sources: seq<Node>, numslots: nat, tot: nat): seq<int>
    requires tot > 0
  {
    seq(|sources|, i requires 0 <= i < |sources| => Quota(i, numslots, sources[i].slotsCount, tot))
  }

  /** The slots the first quota gains by rounding up, as a numerator. */
  function Gain(sources: seq<Node>, numslots: nat, tot: nat): nat
    requires tot > 0
  {
    if sources != [] && numslots * sources[0].slotsCount % tot > 0 then tot else 0
  }

  /** A quota is the exact share less the remainder, except that the first is rounded up. */
  lemma OneQuota(i: nat, numslots: nat, count: nat, tot: nat)
    requires tot > 0
    ensures var x := numslots * count;
      tot * Quota(i, numslots, count, tot) + x % tot == x + if i == 0 && x % tot > 0 then tot else 0
  {
    var x := numslots * count;
    DivRest(x, tot);
    DivRest(x + tot - 1, tot);
    var q, r := x / tot, x % tot;
    if r == 0 { DivIs(x + tot - 1, tot, q, tot - 1); } else { DivIs(x + tot - 1, tot, q + 1, r - 1); }
  }

  lemma DivRest(x: nat, b: nat)
    requires b > 0
    ensures x == b * (x / b) + x % b && 0 <= x % b < b
  {
  }

  lemma DivIs(x: nat, b: nat, q: nat, r: nat)
    requires b > 0 && x == b * q + r && r < b
    ensures x / b == q
  {
    DivRest(x, b);
    if x / b > q { Times(q + 1, x / b, b); } else if x / b < q { Times(x / b + 1, q, b); }
  }

  lemma Times(a: nat, b: nat, c: nat)
    requires a <= b
    ensures c * a <= c * b
  {
  }

  /** All quotas together are what was asked for, less the remainders, plus the first rounding. */
  lemma {:induction false} QuotaSum(sources: seq<Node>, numslots: nat, tot: nat)
    requires tot > 0
    ensures tot * Sum(Quotas(sources, numslots, tot)) + Sum(Remainders(sources, numslots, tot))
         == numslots * Sum(Counts(sources)) + Gain(sources, numslots, tot)
  {
    if sources != [] {
      var m := |sources| - 1;
      var init := sources[..m];
      QuotaSum(init, numslots, tot);
      assert Quotas(sources, numslots, tot)[..m] == Quotas(init, numslots, tot);
      assert Remainders(sources, numslots, tot)[..m] == Remainders(init, numslots, tot);
      OneQuota(m, numslots, sources[m].slotsCount, tot);
      Distribute(tot, Sum(Quotas(init, numslots, tot)), Quota(m, numslots, sources[m].slotsCount, tot));
      assert Counts(sources)[..m] == Counts(init);
      Distribute(numslots, Sum(Counts(init)), sources[m].slotsCount);
    }
  }

  lemma Distribute(a: int, b: int, c: int)
    ensures a * (b + c) == a * b + a * c
  {
  }

  /** Slots that are all there: no source has fewer than it is asked for. */
  lemma QuotasOffered(sources: seq<Node>, numslots: nat, tot: nat)
    requires numslots <= tot && tot > 0 && forall i :: 0 <= i < |sources| ==> sources[i].slotsCount == |sources[i].slots|
    ensures Offers(sources, numslots, tot) == Quotas(sources, numslots, tot)
  {
    forall i | 0 <= i < |sources|
      ensures Quota(i, numslots, sources[i].slotsCount, tot) <= |sources[i].slots|
    {
      QuotaBound(i, numslots, sources[i].slotsCount, tot);
    }
  }

  lemma QuotaBound(i: nat, numslots: nat, count: nat, tot: nat)
    requires numslots <= tot && tot > 0
    ensures Quota(i, numslots, count, tot) <= count
  {
    OneQuota(i, numslots, count, tot);
    DivRest(numslots * count, tot);
    Times(numslots, tot, count);
    if Quota(i, numslots, count, tot) > count { Times(count + 1, Quota(i, numslots, count, tot), tot); }
  }

  lemma {:induction false} OffersBound(sources: seq<Node>, numslots: nat, tot: nat)
    requires tot > 0 && forall i :: 0 <= i < |sources| ==> sources[i].slotsCount == |sources[i].slots|
    ensures Sum(Offers(sources, numslots, tot)) <= Sum(Counts(sources))
  {
    if sources != [] {
      var m := |sources| - 1;
      OffersBound(sources[..m], numslots, tot);
      assert Offers(sources, numslots, tot)[..m] == Offers(sources[..m], numslots, tot);
      assert Counts(sources)[..m] == Counts(sources[..m]);
    }
  }

  /**
   When the reported counts are right, the table has all the slots asked for exactly when there are that
   many and the rounding of the first quota makes up for what all the divisions leave over.
   */
  lemma FullTable(sources: seq<Node>, numslots: nat)
    requires Sum(Counts(sources)) > 0 && forall i :: 0 <= i < |sources| ==> sources[i].slotsCount == |sources[i].slots|
    ensures var tot := Sum(Counts(sources));
      Sum(Offers(sources, numslots, tot)) >= numslots
      <==> numslots <= tot && Sum(Remainders(sources, numslots, tot)) <= Gain(sources, numslots, tot)
  {
    hide Sum, Offers, Quotas, Remainders, Gain;
    var tot := Sum(Counts(sources));
    OffersBound(sources, numslots, tot);
    if numslots <= tot {
      QuotasOffered(sources, numslots, tot);
      QuotaSum(sources, numslots, tot);
      Compare(tot, Sum(Quotas(sources, numslots, tot)), numslots);
    }
  }

  lemma Compare(c: nat, a: int, b: int)
    requires c > 0
    ensures a >= b <==> c * a >= c * b
  {
  }

  /** From a single source the table has all the slots asked for, if the source has them. */
  lemma SingleSource(n: Node, numslots: nat)
    ensures Sum(Counts([n])) == n.slotsCount
    ensures n.slotsCount > 0 ==> Sum(Offers([n], numslots, n.slotsCount)) == Min(numslots, |n.slots|)
  {
    assert Counts([n])[..0] == [];
    if n.slotsCount > 0 {
      assert Offers([n], numslots, n.slotsCount)[..0] == [];
      DivIs(numslots * n.slotsCount + n.slotsCount - 1, n.slotsCount, numslots, n.slotsCount - 1);
    }
  }

  /** From several sources it may be short: three divisions leave over more than one rounding makes up for. */
  lemma ShortTable(sources: seq<Node>)
    requires |sources| == 3 && forall i :: 0 <= i < 3 ==> |sources[i].slots| == sources[i].slotsCount == 3
    ensures Sum(Counts(sources)) == 9 && Sum(Offers(sources, 5, 9)) == 4
  {
    var o, c := Offers(sources, 5, 9), Counts(sources);
    assert o == [2, 1, 1] && c == [3, 3, 3];
    SumThree(2, [1], 1);
    SumThree(3, [3], 3);
    assert [1][..0] == [] && [3][..0] == [];
    assert o == [2] + [1] + [1] && c == [3] + [3] + [3];
  }

  // --------------------------------------------------------- the move loop

  ghost predicate HasOwner(nodes: seq<Node>, x: nat) {
    exists i :: 0 <= i < |nodes| && x in nodes[i].slots
  }

  ghost predicate Disjoint(nodes: seq<Node>) {
    forall i, j :: 0 <= i < j < |nodes| ==> nodes[i].slots !! nodes[j].slots
  }

  /** Every slot has exactly one owner. */
  ghost predicate OwnedOnce(nodes: seq<Node>) {
    && Disjoint(nodes)
    && (forall x :: 0 <= x < SLOTS ==> HasOwner(nodes, x))
    && (forall i, x :: 0 <= i < |nodes| && x in nodes[i].slots ==> x < SLOTS)
  }

  /** A slot changes hands. */
  function Move(nodes: seq<Node>, src: nat, dst: nat, x: nat): seq<Node>
    requires src < |nodes| && dst < |nodes| && src != dst
  {
    nodes[src := nodes[src].(slots := nodes[src].slots - {x})][dst := nodes[dst].(slots := nodes[dst].slots + {x})]
  }

  lemma MoveOwner(nodes: seq<Node>, src: nat, dst: nat, x: nat, y: nat)
    requires src < |nodes| && dst < |nodes| && src != dst && HasOwner(nodes, y)
    ensures HasOwner(Move(nodes, src, dst, x), y)
  {
    var r := Move(nodes, src, dst, x);
    var i :| 0 <= i < |nodes| && y in nodes[i].slots;
    if y == x { assert y in r[dst].slots; } else { assert y in r[i].slots; }
  }

  lemma MoveDisjoint(nodes: seq<Node>, src: nat, dst: nat, x: nat)
    requires src < |nodes| && dst < |nodes| && src != dst && Disjoint(nodes) && x in nodes[src].slots
    ensures Disjoint(Move(nodes, src, dst, x)) && x !in nodes[dst].slots
  {
    var r := Move(nodes, src, dst, x);
    forall i, j | 0 <= i < j < |r|
      ensures r[i].slots !! r[j].slots
    {
      assert nodes[i].slots !! nodes[j].slots;
      assert i < src ==> nodes[i].slots !! nodes[src].slots;
      assert j < src ==> nodes[j].slots !! nodes[src].slots;
      assert src < i ==> nodes[src].slots !! nodes[i].slots;
      assert src < j ==> nodes[src].slots !! nodes[j].slots;
    }
  }

  lemma MoveKeeps(nodes: seq<Node>, src: nat, dst: nat, x: nat)
    requires src < |nodes| && dst < |nodes| && src != dst && OwnedOnce(nodes) && x in nodes[src].slots
    ensures var r := Move(nodes, src, dst, x);
      OwnedOnce(r) && |r[src].slots| == |nodes[src].slots| - 1 && |r[dst].slots| == |nodes[dst].slots| + 1
  {
    hide Disjoint, HasOwner;
    MoveDisjoint(nodes, src, dst, x);
    forall y | 0 <= y < SLOTS
      ensures HasOwner(Move(nodes, src, dst, x), y)
    {
      MoveOwner(nodes, src, dst, x, y);
    }
  }

  /** The first slots of the table leave `src` for `dst`; nothing else changes. */
  method MoveSlots(nodes: seq<Node>, src: nat, dst: nat, table: seq<(nat, nat)>) returns (r: seq<Node>)
    requires src < |nodes| && dst < |nodes| && src != dst && OwnedOnce(nodes)
    requires forall m :: m in table ==> m.1 in nodes[src].slots
    requires forall i, j :: 0 <= i < j < |table| ==> table[i].1 != table[j].1
    ensures OwnedOnce(r) && |r| == |nodes|
    ensures |r[src].slots| == |nodes[src].slots| - |table| && |r[dst].slots| == |nodes[dst].slots| + |table|
    ensures Moved(nodes, r, src, dst, nodes[src].balance, nodes[dst].balance)
  {
    hide OwnedOnce;
    r := nodes;
    for i := 0 to |table|
      invariant OwnedOnce(r) && |r| == |nodes|
      invariant |r[src].slots| == |nodes[src].slots| - i && |r[dst].slots| == |nodes[dst].slots| + i
      invariant Moved(nodes, r, src, dst, nodes[src].balance, nodes[dst].balance)
      invariant forall k :: i <= k < |table| ==> table[k].1 in r[src].slots
    {
      MoveKeeps(r, src, dst, table[i].1);
      r := Move(r, src, dst, table[i].1);
    }
  }

  /** Only the bitmaps and balances of the two masters differ. */
  ghost predicate Moved(nodes: seq<Node>, r: seq<Node>, src: nat, dst: nat, sb: int, db: int)
    requires src < |nodes| && dst < |nodes|
  {
    && |r| == |nodes|
    && r[src] == nodes[src].(slots := r[src].slots, balance := sb)
    && r[dst] == nodes[dst].(slots := r[dst].slots, balance := db)
    && forall k :: 0 <= k < |nodes| && k != src && k != dst ==> r[k] == nodes[k]
  }

  /** A sorting function: each index once, by increasing value. */
  ghost predicate Sorts(order: seq<nat>, b: seq<int>) {
    && IsPermutation(order, |b|)
    && forall i, j :: 0 <= i < j < |order| ==> b[order[i]] <= b[order[j]]
  }

  ghost predicate IsPermutation(order: seq<nat>, n: nat) {
    && (forall i :: 0 <= i < |order| ==> order[i] < n)
    && (forall i, j :: 0 <= i < j < |order| ==> order[i] != order[j])
    && (forall k :: 0 <= k < n ==> k in order)
  }

  function Picked(b: seq<int>, order: seq<nat>): seq<int>
    requires forall i :: 0 <= i < |order| ==> order[i] < |b|
  {
    seq(|order|, i requires 0 <= i < |order| => b[order[i]])
  }

  /** The sum does not depend on the order. */
  lemma {:induction false} SumPicked(b: seq<int>, order: seq<nat>)
    requires IsPermutation(order, |b|)
    ensures Sum(Picked(b, order)) == Sum(b)
    decreases |b|
  {
    if order == [] {
      assert b != [] ==> 0 in order;
    } else {
      assert order[0] < |b|;
      var m := |b| - 1;
      assert m in order;
      var p :| 0 <= p < |order| && order[p] == m;
      Without(order, p, m);
      SumPicked(b[..m], order[..p] + order[p + 1..]);
      SumOneOut(b, order, p);
    }
  }

  lemma Without(order: seq<nat>, p: nat, m: nat)
    requires IsPermutation(order, m + 1) && p < |order| && order[p] == m
    ensures IsPermutation(order[..p] + order[p + 1..], m)
  {
    var rest := order[..p] + order[p + 1..];
    assert forall i :: 0 <= i < |rest| ==> rest[i] == order[if i < p then i else i + 1];
    forall k | 0 <= k < m
      ensures k in rest
    {
      assert k in order;
      var i :| 0 <= i < |order| && order[i] == k;
      assert rest[if i < p then i else i - 1] == k;
    }
  }

  lemma SumOneOut(b: seq<int>, order: seq<nat>, p: nat)
    requires b != [] && p < |order| && order[p] == |b| - 1
    requires forall i :: 0 <= i < |order| ==> order[i] < |b|
    requires forall i :: 0 <= i < |order| && i != p ==> order[i] < |b| - 1
    ensures var rest := order[..p] + order[p + 1..];
      && (forall i :: 0 <= i < |rest| ==> rest[i] < |b| - 1)
      && Sum(Picked(b, order)) == Sum(Picked(b[..|b| - 1], rest)) + b[|b| - 1]
  {
    hide Sum;
    var u, v := Picked(b, order[..p]), Picked(b, order[p + 1..]);
    assert Picked(b, order) == u + [b[|b| - 1]] + v;
    assert Picked(b[..|b| - 1], order[..p] + order[p + 1..]) == u + v;
    SumSplit(u + [b[|b| - 1]], v);
    SumThree(0, u, b[|b| - 1]);
    SumSplit(u, v);
  }

  /**
   The masters still to be matched, by position in the order: receivers first. What they want in all,
   `-t`, does not change.
   */
  ghost predicate Window(b: seq<int>, d: int, s: int, t: int) {
    && 0 <= d <= s + 1 <= |b|
    && Sum(b[d..s + 1]) == t
    && (forall k :: 0 <= k < |b| && !(d <= k <= s) ==> b[k] == 0)
    && (forall i, j :: d <= i < j <= s ==> (b[i] >= 0 ==> b[j] >= 0) && (b[i] > 0 ==> b[j] > 0))
  }

  lemma WindowSigns(b: seq<int>, d: int, s: int, t: int)
    requires Window(b, d, s, t) && d < s && t <= 0
    ensures b[d] <= 0 && (t == 0 ==> b[s] >= 0)
  {
    var w := b[d..s + 1];
    assert forall k :: 0 <= k < |w| ==> w[k] == b[d + k];
    SumSign(w);
    assert w[0] == b[d] && w[s - d] == b[s];
  }

  function Abs(x: int): nat {
    if x < 0 then -x else x
  }

  function Matched(b: seq<int>, d: nat, s: nat): seq<int>
    requires d < s < |b|
  {
    var m := Min(Abs(b[d]), Abs(b[s]));
    b[d := b[d] + m][s := b[s] - m]
  }

  /** The sum of what is left does not change when the first gets what the last gives. */
  lemma StepSums(b: seq<int>, b2: seq<int>, d: nat, s: nat, m: int)
    requires d < s < |b| && b2 == b[d := b[d] + m][s := b[s] - m]
    ensures Sum(b2[d..s + 1]) == Sum(b[d..s + 1])
    ensures b2[d] == 0 ==> Sum(b2[d + 1..s + 1]) == Sum(b[d..s + 1])
    ensures b2[s] == 0 ==> Sum(b2[d..s]) == Sum(b[d..s + 1])
    ensures b2[d] == 0 == b2[s] ==> Sum(b2[d + 1..s]) == Sum(b[d..s + 1])
  {
    hide Sum;
    var mid := b[d + 1..s];
    assert b[d..s + 1] == [b[d]] + mid + [b[s]];
    assert b2[d + 1..s] == mid;
    SumThree(b[d], mid, b[s]);
    SumThree(b2[d], mid, b2[s]);
    assert b2[d..s + 1] == [b2[d]] + mid + [b2[s]];
    assert b2[d..s] == [b2[d]] + mid && b2[d + 1..s + 1] == mid + [b2[s]];
  }

  /** A step: what one gives the other gets; one of them is done, or the receiver is nearer to it. */
  lemma WindowStep(b: seq<int>, d: nat, s: nat, t: int)
    requires Window(b, d, s, t) && d < s && t <= 0
    ensures b[d] <= 0 && (t == 0 ==> b[s] >= 0)
    ensures var b2 := Matched(b, d, s);
      var d2, s2 := if b2[d] == 0 then d + 1 else d, if b2[s] == 0 then s - 1 else s;
      Window(b2, d2, s2, t) && (b2[d] == 0 || b2[s] == 0 || b[d] < b2[d] < 0)
  {
    hide Sum;
    WindowSigns(b, d, s, t);
    StepSums(b, Matched(b, d, s), d, s, Min(Abs(b[d]), Abs(b[s])));
  }

  lemma SumThree(x: int, mid: seq<int>, y: int)
    ensures Sum([x] + mid + [y]) == x + Sum(mid) + y
    ensures Sum([x] + mid) == x + Sum(mid) && Sum(mid + [y]) == Sum(mid) + y
  {
    SumSplit([x] + mid, [y]);
    SumSplit([x], mid);
    SumSplit(mid, [y]);
    assert [x][..0] == [] && [y][..0] == [];
  }

  /** The last receiver in the order, which stays one when there are not enough slots for all. */
  ghost predicate LastReceiver(b: seq<int>, p: nat) {
    p < |b| && b[p] < 0 && forall k :: p < k < |b| ==> b[k] >= 0
  }

  lemma {:induction false} LastExists(b: seq<int>)
    requires Sum(b) < 0
    ensures exists p :: LastReceiver(b, p)
  {
    var m := |b| - 1;
    if b[m] < 0 {
      assert LastReceiver(b, m);
    } else {
      LastExists(b[..m]);
      var p :| LastReceiver(b[..m], p);
      assert LastReceiver(b, p);
    }
  }

  lemma LastStays(b: seq<int>, d: nat, s: nat, t: int, p: nat)
    requires Window(b, d, s, t) && d < s && t < 0 && LastReceiver(b, p)
    ensures d <= p <= s && LastReceiver(Matched(b, d, s), p)
  {
    hide Sum;
    if p == d {
      var tail := b[d + 1..s + 1];
      assert b[d..s + 1] == [b[d]] + tail;
      SumThree(b[d], tail, 0);
      var front := tail[..|tail| - 1];
      SumSign(front);
      SumThree(0, front, b[s]);
      assert tail == front + [b[s]];
    }
  }

  lemma {:induction false} SumNotPositive(s: seq<int>)
    requires s != [] && forall i :: 0 <= i < |s| ==> s[i] <= 0
    ensures Sum(s) <= s[0]
  {
    if |s| > 1 { SumNotPositive(s[..|s| - 1]); }
  }

  /** When the last receiver has to give, what it has too little for the first it also has too little in the end. */
  lemma LastGives(b: seq<int>, d: nat, s: nat, t: int)
    requires Window(b, d, s, t) && d < s && b[s] < 0
    ensures t - b[s] <= b[d]
  {
    var rest := b[d..s];
    assert b[d..s + 1] == rest + [b[s]];
    SumThree(0, rest, b[s]);
    SumNotPositive(rest);
  }

  /** All have got or given what they should, except that the last receiver may be left short. */
  lemma WindowDone(b: seq<int>, d: int, s: int, t: int, p: nat)
    requires Window(b, d, s, t) && d >= s && (if t < 0 then LastReceiver(b, p) else t == 0)
    ensures forall k :: 0 <= k < |b| ==> b[k] == if k == p then t else 0
  {
    if d == s {
      SumThree(0, [], b[d]);
      assert b[d..s + 1] == [] + [b[d]];
    }
  }

  // ------------------------------------------------------ a pair of masters

  /** Masters after position `d`, which have got nothing yet, were reported empty only if they are. */
  ghost predicate Reported(nodes: seq<Node>, order: seq<nat>, d: int) {
    forall k :: 0 <= d < k < |order| && order[k] < |nodes| && nodes[order[k]].slotsCount == 0 ==> nodes[order[k]].slots == {}
  }

  lemma ReportedStep(nodes: seq<Node>, r: seq<Node>, order: seq<nat>, d: nat, s: nat, simulate: bool)
    requires IsPermutation(order, |nodes|) && d < s < |order| && Reported(nodes, order, d) && |r| == |nodes|
    requires Exchanged(nodes, r, order[s], order[d], simulate)
    ensures Reported(r, order, d) && Reported(r, order, d + 1)
  {
    forall k | d < k < |order| && r[order[k]].slotsCount == 0
      ensures r[order[k]].slots == {}
    {
      assert nodes[order[k]].slots == {};
    }
  }

  /** Masters after position `d` have at most given. */
  ghost predicate Unfed(start: seq<Node>, nodes: seq<Node>, order: seq<nat>, d: int) {
    |nodes| == |start| && forall k :: 0 <= d < k < |order| && order[k] < |nodes| ==> nodes[order[k]].balance <= start[order[k]].balance
  }

  lemma UnfedStep(start: seq<Node>, nodes: seq<Node>, r: seq<Node>, order: seq<nat>, d: nat, s: nat, simulate: bool)
    requires IsPermutation(order, |nodes|) && d < s < |order| && Unfed(start, nodes, order, d) && |r| == |nodes|
    requires Exchanged(nodes, r, order[s], order[d], simulate)
    ensures Unfed(start, r, order, d) && Unfed(start, r, order, d + 1)
  {
    forall k | d < k < |order|
      ensures r[order[k]].balance <= start[order[k]].balance
    {
      assert nodes[order[k]].balance <= start[order[k]].balance;
    }
  }

  function ToMove(nodes: seq<Node>, src: nat, dst: nat): nat
    requires src < |nodes| && dst < |nodes|
  {
    Min(Abs(nodes[dst].balance), Abs(nodes[src].balance))
  }

  /** `src` gives `dst` as many slots as it can give and `dst` can get. */
  ghost predicate Exchanged(nodes: seq<Node>, r: seq<Node>, src: nat, dst: nat, simulate: bool)
    requires src < |nodes| && dst < |nodes|
  {
    var m := ToMove(nodes, src, dst);
    && Moved(nodes, r, src, dst, nodes[src].balance - m, nodes[dst].balance + m)
    && if simulate then r[src].slots == nodes[src].slots && r[dst].slots == nodes[dst].slots
       else |r[src].slots| == |nodes[src].slots| - m && |r[dst].slots| == |nodes[dst].slots| + m
  }

  method MatchPair(nodes: seq<Node>, src: nat, dst: nat, simulate: bool) returns (ok: bool, r: seq<Node>)
    requires src < |nodes| && dst < |nodes| && src != dst && OwnedOnce(nodes)
    requires nodes[src].slotsCount == 0 ==> nodes[src].slots == {}
    ensures OwnedOnce(r) && (ok ==> Exchanged(nodes, r, src, dst, simulate))
    ensures ok <==> |nodes[src].slots| >= ToMove(nodes, src, dst)
    ensures !ok ==> r == nodes
  {
    hide Sum, Offers, Counts;
    var db, sb := Abs(nodes[dst].balance), Abs(nodes[src].balance);
    var numslots := if db < sb then db else sb;
    r := nodes;
    if numslots > 0 {
      SingleSource(nodes[src], numslots);
      var table := ComputeReshardTable([nodes[src]], numslots);
      if |table| != numslots { return false, nodes; }
      if !simulate { r := MoveSlots(nodes, src, dst, table); }
    }
    r := Rebalanced(r, src, dst, r[src].balance - numslots, r[dst].balance + numslots);
    ok := true;
  }

  /** The balances change, the owners do not. */
  function Rebalanced(nodes: seq<Node>, src: nat, dst: nat, sb: int, db: int): (r: seq<Node>)
    requires src < |nodes| && dst < |nodes| && src != dst
    ensures OwnedOnce(nodes) ==> OwnedOnce(r)
  {
    var r := nodes[src := nodes[src].(balance := sb)][dst := nodes[dst].(balance := db)];
    assert forall x :: HasOwner(nodes, x) ==> HasOwner(r, x) by {
      forall x | HasOwner(nodes, x)
        ensures HasOwner(r, x)
      {
        var i :| 0 <= i < |nodes| && x in nodes[i].slots;
        assert x in r[i].slots;
      }
    }
    r
  }

  /** What a master has got or given so far is what its balance has changed by. */
  ghost predicate Between(n0: Node, n: Node, simulate: bool) {
    && n == n0.(slots := n.slots, balance := n.balance)
    && (n0.balance <= 0 ==> n.balance <= 0) && (n0.balance >= 0 ==> 0 <= n.balance <= n0.balance)
    && if simulate then n.slots == n0.slots else |n.slots| == |n0.slots| - n0.balance + n.balance
  }

  ghost predicate OnTheWay(start: seq<Node>, nodes: seq<Node>, simulate: bool) {
    |nodes| == |start| && forall i :: 0 <= i < |nodes| ==> Between(start[i], nodes[i], simulate)
  }

  lemma OnTheWayStart(nodes: seq<Node>, simulate: bool)
    ensures OnTheWay(nodes, nodes, simulate)
  {
  }

  lemma OnTheWayStep(start: seq<Node>, nodes: seq<Node>, r: seq<Node>, src: nat, dst: nat, simulate: bool)
    requires OnTheWay(start, nodes, simulate) && src < |nodes| && dst < |nodes| && src != dst
    requires Exchanged(nodes, r, src, dst, simulate) && nodes[dst].balance <= 0
    ensures OnTheWay(start, r, simulate)
  {
    forall i | 0 <= i < |nodes|
      ensures Between(start[i], r[i], simulate)
    {
      assert Between(start[i], nodes[i], simulate);
    }
  }

  lemma PickedStep(nodes: seq<Node>, order: seq<nat>, d: nat, s: nat)
    requires IsPermutation(order, |nodes|) && d < s < |order|
    ensures order[d] < |nodes| && order[s] < |nodes| && order[d] != order[s]
    ensures Picked(Balances(nodes), order)[d] == nodes[order[d]].balance
    ensures Picked(Balances(nodes), order)[s] == nodes[order[s]].balance
  {
  }

  lemma PickedMatched(nodes: seq<Node>, r: seq<Node>, order: seq<nat>, d: nat, s: nat, simulate: bool)
    requires IsPermutation(order, |nodes|) && d < s < |order| && |r| == |nodes|
    requires Exchanged(nodes, r, order[s], order[d], simulate)
    ensures Picked(Balances(r), order) == Matched(Picked(Balances(nodes), order), d, s)
    ensures r[order[d]].balance == Matched(Picked(Balances(nodes), order), d, s)[d]
    ensures r[order[s]].balance == Matched(Picked(Balances(nodes), order), d, s)[s]
  {
  }

  /** Everyone is matched, except that the one at position `p` is left with `t`. */
  ghost predicate OneLeft(nodes: seq<Node>, order: seq<nat>, p: nat, t: int) {
    forall i :: 0 <= i < |nodes| ==> nodes[i].balance == if p < |order| && i == order[p] then t else 0
  }

  lemma AllButOne(nodes: seq<Node>, order: seq<nat>, d: int, s: int, t: int, p: nat)
    requires IsPermutation(order, |nodes|) && d >= s && Window(Picked(Balances(nodes), order), d, s, t)
    requires if t < 0 then LastReceiver(Picked(Balances(nodes), order), p) else t == 0
    ensures OneLeft(nodes, order, p, t)
  {
    var b := Picked(Balances(nodes), order);
    WindowDone(b, d, s, t, p);
    forall i | 0 <= i < |nodes|
      ensures nodes[i].balance == if p < |order| && i == order[p] then t else 0
    {
      assert i in order;
      var k :| 0 <= k < |order| && order[k] == i;
      assert b[k] == nodes[i].balance;
    }
  }

  /** A giver that lacks slots had too few from the start; or it is the last receiver, with too few for all. */
  ghost predicate Lacks(start: seq<Node>, order: seq<nat>, p: nat, t: int) {
    exists i :: 0 <= i < |start| &&
      |start[i].slots| < start[i].balance + if t < 0 && p < |order| && i == order[p] then -t else 0
  }

  lemma WhyShort(start: seq<Node>, nodes: seq<Node>, order: seq<nat>, d: nat, s: nat, t: int, p: nat, simulate: bool)
    requires OnTheWay(start, nodes, simulate) && IsPermutation(order, |nodes|) && d < s < |order| && t <= 0
    requires var b := Picked(Balances(nodes), order);
      && Window(b, d, s, t) && b[d] <= 0 && (if t < 0 then LastReceiver(b, p) && p <= s else b[s] >= 0)
    requires |nodes[order[s]].slots| < ToMove(nodes, order[s], order[d]) && Unfed(start, nodes, order, d)
    ensures Lacks(start, order, p, t)
  {
    hide Window;
    var src, b := order[s], Picked(Balances(nodes), order);
    PickedStep(nodes, order, d, s);
    assert Between(start[src], nodes[src], simulate);
    if b[s] < 0 {
      LastGives(b, d, s, t);
      assert p == s;
      assert |start[src].slots| < start[src].balance - t;
    } else {
      assert |start[src].slots| < start[src].balance;
    }
  }

  // ------------------------------------------------------------ everything

  function Union(nodes: seq<Node>): set<nat> {
    if nodes == [] then {} else Union(nodes[..|nodes| - 1]) + nodes[|nodes| - 1].slots
  }

  lemma {:induction false} UnionOwner(nodes: seq<Node>, x: nat)
    ensures x in Union(nodes) <==> HasOwner(nodes, x)
  {
    if nodes != [] {
      var m := |nodes| - 1;
      UnionOwner(nodes[..m], x);
      if HasOwner(nodes[..m], x) {
        var i :| 0 <= i < m && x in nodes[..m][i].slots;
        assert x in nodes[i].slots;
      }
      if HasOwner(nodes, x) && x !in nodes[m].slots {
        var i :| 0 <= i < |nodes| && x in nodes[i].slots;
        assert x in nodes[..m][i].slots;
      }
    }
  }

  lemma {:induction false} UnionSize(nodes: seq<Node>)
    requires Disjoint(nodes) && forall i :: 0 <= i < |nodes| ==> nodes[i].slotsCount == |nodes[i].slots|
    ensures |Union(nodes)| == Sum(Counts(nodes))
  {
    if nodes != [] {
      var m := |nodes| - 1;
      UnionSize(nodes[..m]);
      assert Counts(nodes)[..m] == Counts(nodes[..m]);
      forall x | x in Union(nodes[..m])
        ensures x !in nodes[m].slots
      {
        UnionOwner(nodes[..m], x);
        var i :| 0 <= i < m && x in nodes[..m][i].slots;
        assert nodes[i].slots !! nodes[m].slots;
      }
      assert Union(nodes[..m]) !! nodes[m].slots;
    }
  }

  function Upto(n: nat): (r: set<nat>)
    ensures |r| == n && forall x: nat :: x in r <==> x < n
  {
    if n == 0 then {} else Upto(n - 1) + {n - 1}
  }

  /** Slots owned once add up to all the slots there are. */
  lemma OwnedSum(nodes: seq<Node>)
    requires OwnedOnce(nodes) && forall i :: 0 <= i < |nodes| ==> nodes[i].slotsCount == |nodes[i].slots|
    ensures Sum(Counts(nodes)) == SLOTS
  {
    hide Union, Disjoint;
    UnionSize(nodes);
    forall x: nat
      ensures x in Union(nodes) <==> x < SLOTS
    {
      UnionOwner(nodes, x);
    }
    assert Union(nodes) == Upto(SLOTS);
  }

  datatype Outcome = NotNeeded | Done | Failed

  class Cluster {
    /** The involved masters. */
    var nodes: seq<Node>

    constructor (nodes: seq<Node>)
      ensures this.nodes == nodes
    {
      this.nodes := nodes;
    }

    /**
     The two-index loop, over the masters in `order`. Every slot keeps exactly one owner, and each master
     has got or given what its balance has changed by. A loop that is not stopped leaves no balance,
     or, from a negative sum, that sum with the last receiver, at position `p`. It is stopped only if a
     giver has fewer slots than it should give, or the last receiver fewer than the others then lack.
     */
    method MoveLoop(order: seq<nat>, simulate: bool, ghost p: nat) returns (ok: bool)
      requires OwnedOnce(nodes) && Sorts(order, Balances(nodes)) && Sum(Balances(nodes)) <= 0
      requires Sum(Balances(nodes)) < 0 ==> LastReceiver(Picked(Balances(nodes), order), p)
      requires forall i :: 0 <= i < |nodes| && nodes[i].slotsCount == 0 ==> nodes[i].slots == {}
      modifies this
      ensures OwnedOnce(nodes) && OnTheWay(old(nodes), nodes, simulate)
      ensures ok ==> OneLeft(nodes, order, p, old(Sum(Balances(nodes))))
      ensures !ok ==> Lacks(old(nodes), order, p, old(Sum(Balances(nodes))))
    {
      hide OwnedOnce, Window, Picked, OnTheWay, Reported, Unfed, Sum, Exchanged, LastReceiver, Lacks, OneLeft;
      ghost var start, t := nodes, Sum(Balances(nodes));
      OnTheWayStart(nodes, simulate);
      WindowStart(Balances(nodes), order);
      ReportedStart(nodes, order);
      UnfedStart(nodes, order);
      var d, s := 0, |order| - 1;
      while d < s
        invariant |nodes| == |start| && OwnedOnce(nodes) && Reported(nodes, order, d) && Unfed(start, nodes, order, d)
        invariant OnTheWay(start, nodes, simulate)
        invariant IsPermutation(order, |nodes|) && 0 <= d <= s + 1 <= |order|
        invariant Window(Picked(Balances(nodes), order), d, s, t)
        invariant t < 0 ==> LastReceiver(Picked(Balances(nodes), order), p)
        decreases s - d, if d < |order| then -nodes[order[d]].balance else 0
      {
        PickedStep(nodes, order, d, s);
        WindowStep(Picked(Balances(nodes), order), d, s, t);
        if t < 0 { LastStays(Picked(Balances(nodes), order), d, s, t, p); }
        ReportedAt(nodes, order, d, s);
        ghost var before := nodes;
        ok, nodes := MatchPair(nodes, order[s], order[d], simulate);
        if !ok {
          WhyShort(start, before, order, d, s, t, p, simulate);
          return;
        }
        OnTheWayStep(start, before, nodes, order[s], order[d], simulate);
        ReportedStep(before, nodes, order, d, s, simulate);
        UnfedStep(start, before, nodes, order, d, s, simulate);
        PickedMatched(before, nodes, order, d, s, simulate);
        if nodes[order[d]].balance == 0 { d := d + 1; }
        if nodes[order[s]].balance == 0 { s := s - 1; }
      }
      AllButOne(nodes, order, d, s, t, p);
      ok := true;
    }

    /**
     Rebalances a cluster in which every slot is owned once and the reported counts are right. When the
     rounded shares fit, every master that had too many slots ends with exactly its share and the others
     with at least theirs, unless some share is negative: then, and only then, a move fails. When the
     shares do not fit, the last receiver in the order ends short of its share by exactly the excess; a
     move fails exactly if its share is less than that or some share is negative. A simulated run moves
     nothing, and succeeds whenever a real one would.
     */
    method Rebalance(threshold: real, simulate: bool, qsort: seq<int> -> seq<nat>) returns (r: Outcome)
      requires OwnedOnce(nodes) && forall i :: 0 <= i < |nodes| ==> nodes[i].slotsCount == |nodes[i].slots|
      requires RealSum(Weights(nodes)) != 0.0 && forall b :: Sorts(qsort(b), b)
      modifies this
      ensures OwnedOnce(nodes) && |nodes| == |old(nodes)|
      ensures r == NotNeeded <==> AllWithin(old(nodes), RealSum(Weights(old(nodes))), threshold)
      ensures r == NotNeeded || simulate ==> forall i :: 0 <= i < |nodes| ==> nodes[i].slots == old(nodes[i].slots)
      ensures r != NotNeeded ==>
        var total := RealSum(Weights(old(nodes)));
        if Sum(Wanted(Weights(old(nodes)), total)) <= SLOTS then Fits(old(nodes), nodes, total, simulate, r == Done)
        else Exceeds(old(nodes), nodes, total, qsort(Demands(old(nodes), total)), simulate, r == Done)
    {
      hide Sum, RealSum, Expected, OverThreshold, AllWithin, OwnedOnce, Rounded, OnTheWay, Sorts, Fits, Exceeds, LastReceiver, Lacks, OneLeft, Wanted, Picked;
      ghost var start := nodes;
      OwnedSum(nodes);
      var total := TotalWeight();
      var balanced, totalBalance, reached := ComputeBalances(nodes, total, threshold);
      BalancedSum(start, balanced, total);
      AllWithinIff(start, total, threshold);
      SameOwners(start, balanced);
      nodes := balanced;
      if !reached { return NotNeeded; }
      nodes := RoundBalances(nodes, totalBalance);
      RoundedOwners(balanced, nodes, start, total);
      ghost var rounded, t := nodes, Sum(Balances(nodes));
      var order := qsort(Balances(nodes));
      ghost var p: nat := 0;
      if t < 0 {
        LastInOrder(Balances(nodes), order);
        p :| LastReceiver(Picked(Balances(nodes), order), p);
      }
      var ok := MoveLoop(order, simulate, p);
      SameSlots(rounded, nodes, simulate);
      if t == 0 {
        WhenFits(start, balanced, rounded, nodes, total, simulate, ok, order, p);
      } else {
        assert Balances(rounded) == Demands(start, total);
        WhenExceeds(start, rounded, nodes, total, simulate, ok, order, p);
      }
      r := if ok then Done else Failed;
    }

    method TotalWeight() returns (total: real)
      ensures total == RealSum(Weights(nodes))
    {
      total := 0.0;
      for i := 0 to |nodes|
        invariant total == RealSum(Weights(nodes)[..i])
      {
        assert Weights(nodes)[..i + 1][..i] == Weights(nodes)[..i];
        total := total + nodes[i].weight;
      }
      assert Weights(nodes)[..|nodes|] == Weights(nodes);
    }
  }

  lemma WindowStart(b: seq<int>, order: seq<nat>)
    requires Sorts(order, b)
    ensures Window(Picked(b, order), 0, |order| - 1, Sum(b))
  {
    SumPicked(b, order);
    assert Picked(b, order)[0..|order|] == Picked(b, order);
  }

  lemma LastInOrder(b: seq<int>, order: seq<nat>)
    requires Sorts(order, b) && Sum(b) < 0
    ensures forall i :: 0 <= i < |order| ==> order[i] < |b|
    ensures exists p :: LastReceiver(Picked(b, order), p)
  {
    SumPicked(b, order);
    LastExists(Picked(b, order));
  }

  lemma ReportedStart(nodes: seq<Node>, order: seq<nat>)
    requires forall i :: 0 <= i < |nodes| && nodes[i].slotsCount == 0 ==> nodes[i].slots == {}
    ensures Reported(nodes, order, 0)
  {
  }

  lemma UnfedStart(nodes: seq<Node>, order: seq<nat>)
    ensures Unfed(nodes, nodes, order, 0)
  {
  }

  lemma ReportedAt(nodes: seq<Node>, order: seq<nat>, d: nat, s: nat)
    requires Reported(nodes, order, d) && d < s < |order| && order[s] < |nodes|
    ensures nodes[order[s]].slotsCount == 0 ==> nodes[order[s]].slots == {}
  {
  }

  /** A master that had too many slots has its share, another at least its share. */
  ghost predicate Settled(n0: Node, n: Node, total: real)
    requires total != 0.0
  {
    var expected := Expected(n0.weight, total);
    if n0.slotsCount > expected then |n.slots| == expected else |n.slots| >= expected
  }

  ghost predicate SharesPositive(start: seq<Node>, total: real)
    requires total != 0.0
  {
    forall i :: 0 <= i < |start| ==> Expected(start[i].weight, total) >= 0
  }

  /** The shares fit: a run succeeds if none is negative, and a real run only then. */
  ghost predicate Fits(start: seq<Node>, nodes: seq<Node>, total: real, simulate: bool, ok: bool)
    requires total != 0.0 && |nodes| == |start|
  {
    && (SharesPositive(start, total) ==> ok)
    && (ok && !simulate ==> SharesPositive(start, total) && forall i :: 0 <= i < |start| ==> Settled(start[i], nodes[i], total))
  }

  /** What each master has too many. */
  function Demands(start: seq<Node>, total: real): seq<int>
    requires total != 0.0
  {
    seq(|start|, i requires 0 <= i < |start| => start[i].slotsCount - Expected(start[i].weight, total))
  }

  /** The share of a master, less the excess of all shares for the one at position `p` of the order. */
  ghost function Left(start: seq<Node>, total: real, order: seq<nat>, p: nat, i: nat): int
    requires total != 0.0 && i < |start|
  {
    Expected(start[i].weight, total) - if p < |order| && i == order[p] then Sum(Wanted(Weights(start), total)) - SLOTS else 0
  }

  /** The shares do not fit: a run succeeds if what is left for everyone is not negative, and a real run only then. */
  ghost predicate Exceeds(start: seq<Node>, nodes: seq<Node>, total: real, order: seq<nat>, simulate: bool, ok: bool)
    requires total != 0.0 && |nodes| == |start|
  {
    exists p :: InOrder(start, order) && LastReceiver(Picked(Demands(start, total), order), p)
      && ((forall i :: 0 <= i < |start| ==> Left(start, total, order, p, i) >= 0) ==> ok)
      && (ok && !simulate ==> forall i :: 0 <= i < |start| ==> |nodes[i].slots| == Left(start, total, order, p, i) >= 0)
  }

  ghost predicate InOrder(start: seq<Node>, order: seq<nat>) {
    forall i :: 0 <= i < |order| ==> order[i] < |start|
  }

  /** The balances that ComputeBalances sets. */
  ghost predicate Balanced(start: seq<Node>, balanced: seq<Node>, total: real)
    requires total != 0.0
  {
    && |balanced| == |start|
    && forall i :: 0 <= i < |start| ==>
         balanced[i] == start[i].(balance := start[i].slotsCount - Expected(start[i].weight, total))
  }

  /** The balances sum to what the shares leave: the rounding loop makes that zero exactly when they fit. */
  lemma BalancedSum(start: seq<Node>, balanced: seq<Node>, total: real)
    requires total != 0.0 && total == RealSum(Weights(start)) && Sum(Counts(start)) == SLOTS && Balanced(start, balanced, total)
    ensures Sum(Balances(balanced)) == SLOTS - Sum(Wanted(Weights(start), total))
    ensures Min(Sum(Balances(balanced)), 0) == 0 <==> Sum(Wanted(Weights(start), total)) <= SLOTS
    ensures exists i :: 0 <= i < |balanced| && balanced[i].balance <= 0
  {
    assert start != [];
    hide Expected, Sum;
    SomeoneMayReceive(start, total);
    SumMinus(Counts(start), Wanted(Weights(start), total), Balances(balanced));
    var i :| 0 <= i < |start| && start[i].slotsCount <= Expected(start[i].weight, total);
    assert balanced[i].balance <= 0;
  }

  lemma SameOwners(nodes: seq<Node>, r: seq<Node>)
    requires OwnedOnce(nodes) && |r| == |nodes| && forall i :: 0 <= i < |nodes| ==> r[i].slots == nodes[i].slots
    ensures OwnedOnce(r)
  {
    forall x | 0 <= x < SLOTS
      ensures HasOwner(r, x)
    {
      assert HasOwner(nodes, x);
      var i :| 0 <= i < |nodes| && x in nodes[i].slots;
      assert x in r[i].slots;
    }
  }

  /** A giver lacks the slots it should give exactly when its share is negative. */
  lemma RoundedOwners(balanced: seq<Node>, rounded: seq<Node>, start: seq<Node>, total: real)
    requires total != 0.0 && Rounded(balanced, rounded) && OwnedOnce(balanced) && Balanced(start, balanced, total)
    requires forall i :: 0 <= i < |start| ==> start[i].slotsCount == |start[i].slots|
    ensures OwnedOnce(rounded) && |rounded| == |start|
    ensures forall i :: 0 <= i < |start| ==> rounded[i].slots == start[i].slots && rounded[i].slotsCount == |start[i].slots|
    ensures forall i :: 0 <= i < |start| ==> (|rounded[i].slots| < rounded[i].balance <==> Expected(start[i].weight, total) < 0)
  {
    hide Expected;
    SameOwners(balanced, rounded);
  }

  lemma SameSlots(rounded: seq<Node>, nodes: seq<Node>, simulate: bool)
    requires OnTheWay(rounded, nodes, simulate)
    ensures |nodes| == |rounded| && (simulate ==> forall i :: 0 <= i < |nodes| ==> nodes[i].slots == rounded[i].slots)
  {
    assert forall i :: 0 <= i < |nodes| ==> Between(rounded[i], nodes[i], simulate);
  }

  /** One master, from its balance to what it has in the end. */
  lemma OneOutcome(n0: Node, b: Node, r: Node, n: Node, total: real)
    requires total != 0.0 && n0.slotsCount == |n0.slots| && b == n0.(balance := n0.slotsCount - Expected(n0.weight, total))
    requires r == b.(balance := r.balance) && (if b.balance > 0 then r == b else r.balance <= b.balance) && Between(r, n, false)
    ensures n.balance == 0 ==> Settled(n0, n, total) && Expected(n0.weight, total) >= 0
  {
    hide Expected;
  }

  lemma WhenFits(start: seq<Node>, balanced: seq<Node>, rounded: seq<Node>, nodes: seq<Node>, total: real,
                 simulate: bool, ok: bool, order: seq<nat>, p: nat)
    requires total != 0.0 && Rounded(balanced, rounded) && OnTheWay(rounded, nodes, simulate) && Balanced(start, balanced, total)
    requires forall i :: 0 <= i < |start| ==> start[i].slotsCount == |start[i].slots|
    requires forall i :: 0 <= i < |start| ==> (|rounded[i].slots| < rounded[i].balance <==> Expected(start[i].weight, total) < 0)
    requires if ok then OneLeft(nodes, order, p, 0) else Lacks(rounded, order, p, 0)
    ensures |nodes| == |start| && Fits(start, nodes, total, simulate, ok)
  {
    hide Expected, Settled;
    if ok && !simulate {
      forall i | 0 <= i < |start|
        ensures Settled(start[i], nodes[i], total) && Expected(start[i].weight, total) >= 0
      {
        assert Between(rounded[i], nodes[i], false);
        OneOutcome(start[i], balanced[i], rounded[i], nodes[i], total);
      }
    }
  }

  lemma WhenExceeds(start: seq<Node>, rounded: seq<Node>, nodes: seq<Node>, total: real,
                    simulate: bool, ok: bool, order: seq<nat>, p: nat)
    requires total != 0.0 && Balanced(start, rounded, total) && OnTheWay(rounded, nodes, simulate)
    requires forall i :: 0 <= i < |start| ==> start[i].slotsCount == |start[i].slots|
    requires InOrder(start, order) && LastReceiver(Picked(Demands(start, total), order), p)
    requires var t := SLOTS - Sum(Wanted(Weights(start), total));
      t < 0 && if ok then OneLeft(nodes, order, p, t) else Lacks(rounded, order, p, t)
    ensures |nodes| == |start| && Exceeds(start, nodes, total, order, simulate, ok)
  {
    hide Expected, Sum, Wanted, LastReceiver, Picked;
    if ok {
      forall i | 0 <= i < |start|
        ensures !simulate ==> |nodes[i].slots| == Left(start, total, order, p, i)
      {
        assert Between(rounded[i], nodes[i], simulate);
      }
    } else {
      var t := SLOTS - Sum(Wanted(Weights(start), total));
      var i :| 0 <= i < |rounded| &&
        |rounded[i].slots| < rounded[i].balance + if t < 0 && p < |order| && i == order[p] then -t else 0;
      assert Left(start, total, order, p, i) < 0;
    }
  }
}
