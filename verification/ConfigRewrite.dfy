/**
 CONFIG REWRITE (config.c): the old file is read into lines and a map from options to their lines;
 options are then rewritten one emission at a time, into their old lines while there are any and at
 the end of the file after that; old lines of processed options that were not reused are blanked.

 fgets is a parameter: the pieces of the file it delivers. Options are compared in lower case.
 */
module ConfigRewrite {
  import opened Basics
  import Sds = SdsQuoting
  import Grammar = SdsGrammar

  const HASH: byte := 35
  const LF: byte := 10

  function Ascii(s: string): bytes
    requires forall i :: 0 <= i < |s| ==> s[i] < 128 as char
  {
    seq(|s|, i requires 0 <= i < |s| => s[i] as int)
  }

  const SIGNATURE: bytes := Ascii("# Generated by CONFIG REWRITE")

  // --------------------------------------------------------- reading a line

  predicate Trimmable(b: byte) {
    b == 13 || b == 10 || b == 9 || b == 32
  }

  function Trim(s: bytes): bytes {
    if s == [] then []
    else if Trimmable(s[0]) then Trim(s[1..])
    else if Trimmable(s[|s| - 1]) then Trim(s[..|s| - 1])
    else s
  }

  function Lower(s: bytes): bytes {
    seq(|s|, i requires 0 <= i < |s| => if 65 <= s[i] <= 90 then s[i] + 32 else s[i])
  }

  /** "slave" in an option name becomes "replica". */
  function Alias(name: bytes): bytes {
    if name == [] || name[0] == 0 then name
    else if Ascii("slave") <= name then Ascii("replica") + CString(name[5..])
    else [name[0]] + Alias(name[1..])
  }

  /** What a line of the old file is: text to keep, or a directive for an option. */
  datatype Line = Kept(text: bytes) | Directive(text: bytes, option: bytes)

  /** The line has a first argument to look at, or none is looked for. */
  predicate Readable(raw: bytes) {
    var line := Trim(CString(raw));
    line == [] || line[0] == HASH || Sds.Split(line) != Some([])
  }

  lemma {:induction false} TrimKeeps(s: bytes)
    ensures forall b :: b in Trim(s) ==> b in s
    ensures forall b :: b in s ==> b in Trim(s) || Trimmable(b)
    ensures Trim(s) != [] ==> !Trimmable(Trim(s)[0])
    decreases |s|
  {
    if s != [] && Trimmable(s[0]) {
      TrimKeeps(s[1..]);
      assert s == [s[0]] + s[1..];
    } else if s != [] && Trimmable(s[|s| - 1]) {
      TrimKeeps(s[..|s| - 1]);
      assert s == s[..|s| - 1] + [s[|s| - 1]];
    }
  }

  /**
   A line is unreadable exactly when all of it, up to the first NUL, is blank and trimming leaves some:
   a blank other than the four that are trimmed.
   */
  lemma UnreadableIff(raw: bytes)
    ensures !Readable(raw) <==>
      (forall b :: b in CString(raw) ==> Sds.IsSpace(b)) && exists b :: b in CString(raw) && !Trimmable(b)
  {
    var line := Trim(CString(raw));
    hide Trim, CString, Sds.Split;
    CStringWhole(raw);
    TrimKeeps(CString(raw));
    Sds.NoArguments(line);
    if line != [] { assert line[0] in line; }
  }

  /** Such a line: a vertical tab, a space and a vertical tab. */
  lemma Unreadable()
    ensures !Readable([11, 32, 11])
  {
    var raw: bytes := [11, 32, 11];
    assert raw[1..] == [32, 11] && raw[1..][1..] == [11];
    CStringWhole(raw);
    assert 11 in raw;
    UnreadableIff(raw);
  }

  function Classify(raw: bytes): Line
    requires Readable(raw)
  {
    var line := Trim(CString(raw));
    if line == [] || line[0] == HASH then Kept(line)
    else
      var argv := Sds.Split(line);
      if argv.None? then Kept(Ascii("# ??? ") + line)
      else Directive(line, Alias(Lower(argv.value[0])))
  }

  /** Trimming takes off exactly the blanks at both ends. */
  lemma {:induction false} TrimIs(a: bytes, t: bytes, b: bytes)
    requires Grammar.Blank(a) && Grammar.Blank(b) && (t != [] ==> !Grammar.Stop(t[0]) && !Grammar.Stop(t[|t| - 1]))
    ensures Trim(a + t + b) == t
    decreases |a| + |b|
  {
    var s := a + t + b;
    if a != [] {
      assert s[1..] == a[1..] + t + b;
      TrimIs(a[1..], t, b);
    } else if b != [] {
      if t == [] {
        assert s == b && b[1..] == [] + [] + b[1..];
        TrimIs([], [], b[1..]);
      } else {
        assert s[0] == t[0] && s[..|s| - 1] == a + t + b[..|b| - 1];
        TrimIs(a, t, b[..|b| - 1]);
      }
    } else {
      assert s == t;
    }
  }

  predicate SameLetter(x: byte, y: byte) {
    x == y || (65 <= x <= 90 && y == x + 32) || (65 <= y <= 90 && x == y + 32)
  }

  /** Options are the same when they differ in the case of letters only. */
  lemma LowerSame(s: bytes, t: bytes)
    ensures Lower(s) == Lower(t) <==> |s| == |t| && forall i :: 0 <= i < |s| ==> SameLetter(s[i], t[i])
    ensures (forall i :: 0 <= i < |s| ==> !(65 <= s[i] <= 90)) ==> Lower(s) == s
  {
    if Lower(s) == Lower(t) {
      assert |s| == |Lower(s)| == |Lower(t)| == |t|;
      forall i | 0 <= i < |s|
        ensures SameLetter(s[i], t[i])
      {
        assert Lower(s)[i] == Lower(t)[i];
      }
    }
  }

  /** "slave" occurs at `i`. */
  predicate SlaveAt(name: bytes, i: nat) {
    i <= |name| && Ascii("slave") <= name[i..]
  }

  lemma AliasStarts(name: bytes)
    requires 0 !in name
    ensures Ascii("slave") <= name ==> |name| >= 5 && Alias(name) == Ascii("replica") + name[5..]
    ensures name != [] && !(Ascii("slave") <= name) ==> Alias(name) == [name[0]] + Alias(name[1..])
    ensures Alias([]) == []
  {
    if Ascii("slave") <= name { CStringWhole(name[5..]); }
  }

  lemma SlaveLater(name: bytes, k: nat)
    requires k < |name|
    ensures SlaveAt(name, k + 1) <==> SlaveAt(name[1..], k)
  {
    assert name[1..][k..] == name[k + 1..];
  }

  /** The first "slave" becomes "replica"; a name without it stays. */
  lemma {:induction false} AliasIs(name: bytes, i: nat)
    requires 0 !in name && i <= |name| && forall k :: 0 <= k < i ==> !SlaveAt(name, k)
    ensures SlaveAt(name, i) ==> |name| >= i + 5 && Alias(name) == name[..i] + Ascii("replica") + name[i + 5..]
    ensures i == |name| ==> Alias(name) == name
    decreases i
  {
    AliasStarts(name);
    assert name[0..] == name;
    if i == 0 {
      assert SlaveAt(name, 0) <==> Ascii("slave") <= name;
      assert name[..0] + Ascii("replica") == Ascii("replica");
    } else {
      assert !SlaveAt(name, 0);
      hide Alias, Ascii;
      var rest := name[1..];
      forall k | 0 <= k < i - 1
        ensures !SlaveAt(rest, k)
      {
        SlaveLater(name, k);
        assert !SlaveAt(name, k + 1);
      }
      SlaveLater(name, i - 1);
      hide SlaveAt;
      AliasIs(rest, i - 1);
      assert name == [name[0]] + rest;
      AliasStep(name, i);
    }
  }

  lemma AliasStep(name: bytes, i: nat)
    requires 0 < i <= |name|
    ensures |name| >= i + 5 ==> [name[0]] + (name[1..][..i - 1] + Ascii("replica") + name[1..][i - 1 + 5..]) == name[..i] + Ascii("replica") + name[i + 5..]
  {
    hide Ascii;
  }

  /** A line of plain words, with blanks around it, is a directive for its first word; a comment is kept. */
  lemma ClassifyWords(a: bytes, words: seq<bytes>, b: bytes)
    requires Grammar.Blank(a) && Grammar.Blank(b) && words != [] && words[0] != [] && forall i :: 0 <= i < |words| ==> Grammar.PlainWord(words[i])
    ensures var raw, line := a + Grammar.Spaced(words) + b, Grammar.Spaced(words);
      Readable(raw) && Classify(raw) == if words[0][0] == 35 then Kept(line) else Directive(line, Alias(Lower(words[0])))
  {
    hide Sds.Split, Trim, CString, Alias, Lower;
    var line := Grammar.Spaced(words);
    var raw := a + line + b;
    WordsEnds(words);
    BlanksNoNul(a, line, b);
    TrimIs(a, line, b);
    Grammar.SplitWords(words);
  }

  /** A line with unbalanced quotes is kept as a comment. */
  lemma ClassifyUnbalanced(a: bytes, line: bytes, b: bytes)
    requires Grammar.Blank(a) && Grammar.Blank(b) && 0 !in line && line != [] && !Grammar.Stop(line[0]) && !Grammar.Stop(line[|line| - 1])
    requires line[0] != 35 && Sds.Split(line) == None
    ensures Readable(a + line + b) && Classify(a + line + b) == Kept([35, 32, 63, 63, 63, 32] + line)
  {
    hide Sds.Split, Trim, CString;
    BlanksNoNul(a, line, b);
    TrimIs(a, line, b);
    assert Ascii("# ??? ") == [35, 32, 63, 63, 63, 32];
  }

  lemma BlanksNoNul(a: bytes, line: bytes, b: bytes)
    requires Grammar.Blank(a) && Grammar.Blank(b) && 0 !in line
    ensures CString(a + line + b) == a + line + b
  {
    CStringWhole(a + line + b);
  }

  lemma {:induction false} WordsEnds(words: seq<bytes>)
    requires words != [] && words[0] != [] && forall i :: 0 <= i < |words| ==> Grammar.PlainWord(words[i])
    ensures var line := Grammar.Spaced(words);
      line != [] && 0 !in line && line[0] == words[0][0] && !Grammar.Stop(line[0]) && !Grammar.Stop(line[|line| - 1])
  {
    assert Grammar.PlainWord(words[0]);
    if |words| > 1 {
      assert Grammar.PlainWord(words[1]);
      WordsEnds(words[1..]);
    }
  }

  // ------------------------------------------------------------- the state

  function ListOf(lists: map<bytes, seq<nat>>, option: bytes): seq<nat> {
    if option in lists then lists[option] else []
  }

  /** An emission that was kept: where, and its text. */
  datatype Emission = Emission(at: nat, text: bytes)

  function KeptOf(kept: map<bytes, seq<Emission>>, option: bytes): seq<Emission> {
    if option in kept then kept[option] else []
  }

  function Places(kept: seq<Emission>): (r: seq<nat>)
    ensures |r| == |kept|
  {
    seq(|kept|, i requires 0 <= i < |kept| => kept[i].at)
  }

  ghost predicate Increasing(s: seq<nat>) {
    forall i, j :: 0 <= i < j < |s| ==> s[i] < s[j]
  }

  /**
   The lines of an option: its kept emissions, in the order of emission, then its old lines that have
   not been reused. Those are all the lines it owns.
   */
  ghost predicate OptionOK(lines: seq<bytes>, owner: seq<Option<bytes>>, origin: seq<bytes>, option: bytes,
                           unused: seq<nat>, kept: seq<Emission>) {
    && |owner| == |lines|
    && Increasing(Places(kept) + unused)
    && (forall i :: 0 <= i < |lines| ==> (owner[i] == Some(option) <==> i in Places(kept) || i in unused))
    && (forall i :: 0 <= i < |kept| ==> kept[i].at < |lines| && lines[kept[i].at] == kept[i].text)
    && (forall i :: i in unused ==> i < |lines| && i < |origin| && lines[i] == origin[i])
  }

  /** Lines without an owner that were in the old file are as they were. */
  ghost predicate TextOK(lines: seq<bytes>, owner: seq<Option<bytes>>, origin: seq<bytes>) {
    |owner| == |lines| >= |origin| && forall i :: 0 <= i < |origin| && owner[i].None? ==> lines[i] == origin[i]
  }

  /**
   After the old lines come the signature, unless the old file has it, and lines that have owners. The
   flag says that there is a signature.
   */
  ghost predicate TailOK(lines: seq<bytes>, owner: seq<Option<bytes>>, origin: seq<bytes>, hasTail: bool) {
    && |owner| == |lines| && (hasTail <==> SIGNATURE in origin || |lines| > |origin|)
    && forall i :: |origin| <= i < |lines| ==>
         if i == |origin| && SIGNATURE !in origin then owner[i].None? && lines[i] == SIGNATURE else owner[i].Some?
  }

  /** A line that belongs to nobody is added: nothing changes for any option. */
  lemma TextAdded(lines: seq<bytes>, owner: seq<Option<bytes>>, origin: seq<bytes>, option: bytes, unused: seq<nat>,
                  kept: seq<Emission>, line: bytes, origin2: seq<bytes>)
    requires OptionOK(lines, owner, origin, option, unused, kept) && origin <= origin2
    ensures OptionOK(lines + [line], owner + [None], origin2, option, unused, kept)
  {
  }

  /** Somebody else's line is added. */
  lemma OtherAdded(lines: seq<bytes>, owner: seq<Option<bytes>>, origin: seq<bytes>, option: bytes, unused: seq<nat>,
                   kept: seq<Emission>, line: bytes, other: bytes, origin2: seq<bytes>)
    requires OptionOK(lines, owner, origin, option, unused, kept) && other != option && origin <= origin2
    ensures OptionOK(lines + [line], owner + [Some(other)], origin2, option, unused, kept)
  {
  }

  /** A directive of the old file. */
  lemma OldAdded(lines: seq<bytes>, owner: seq<Option<bytes>>, origin: seq<bytes>, option: bytes, unused: seq<nat>,
                 kept: seq<Emission>, line: bytes)
    requires OptionOK(lines, owner, origin, option, unused, kept) && |lines| == |origin|
    ensures OptionOK(lines + [line], owner + [Some(option)], origin + [line], option, unused + [|lines|], kept)
  {
    assert Places(kept) + (unused + [|lines|]) == (Places(kept) + unused) + [|lines|];
    var all := Places(kept) + unused;
    assert forall i :: 0 <= i < |all| ==> all[i] in Places(kept) || all[i] in unused;
    assert forall i :: i in Places(kept) ==> i < |lines|;
  }

  /** An emission takes the first unused line. */
  lemma Reused(lines: seq<bytes>, owner: seq<Option<bytes>>, origin: seq<bytes>, option: bytes, unused: seq<nat>,
               kept: seq<Emission>, line: bytes)
    requires OptionOK(lines, owner, origin, option, unused, kept) && unused != []
    ensures unused[0] < |lines|
    ensures OptionOK(lines[unused[0] := line], owner, origin, option, unused[1..], kept + [Emission(unused[0], line)])
  {
    var n := unused[0];
    var kept2 := kept + [Emission(n, line)];
    assert n in unused;
    assert Places(kept2) == Places(kept) + [n];
    assert Places(kept2) + unused[1..] == Places(kept) + unused;
    var all := Places(kept) + unused;
    assert all[|kept|] == n;
    assert forall i :: 0 <= i < |kept| ==> all[i] == kept[i].at;
    assert forall i :: 0 < i < |unused| ==> all[|kept| + i] == unused[i];
    assert forall i :: i in unused <==> i == n || i in unused[1..];
  }

  lemma OtherReused(lines: seq<bytes>, owner: seq<Option<bytes>>, origin: seq<bytes>, option: bytes, unused: seq<nat>,
                    kept: seq<Emission>, n: nat, line: bytes)
    requires OptionOK(lines, owner, origin, option, unused, kept) && n < |lines| && owner[n] != Some(option)
    ensures OptionOK(lines[n := line], owner, origin, option, unused, kept)
  {
    assert forall i :: 0 <= i < |kept| ==> kept[i].at == Places(kept)[i];
  }

  /** An emission without an old line to take goes to the end. */
  lemma Appended(lines: seq<bytes>, owner: seq<Option<bytes>>, origin: seq<bytes>, option: bytes,
                 kept: seq<Emission>, line: bytes)
    requires OptionOK(lines, owner, origin, option, [], kept)
    ensures OptionOK(lines + [line], owner + [Some(option)], origin, option, [], kept + [Emission(|lines|, line)])
  {
    var kept2 := kept + [Emission(|lines|, line)];
    assert Places(kept2) == Places(kept) + [|lines|];
    assert Places(kept2) + [] == Places(kept2);
    assert Places(kept) + [] == Places(kept);
  }

  class State {
    var lines: seq<bytes>
    var optionToLine: map<bytes, seq<nat>>
    var rewritten: set<bytes>
    var hasTail: bool
    /** The lines of the old file, the option each line belongs to, and the emissions kept for each option. */
    ghost var origin: seq<bytes>
    ghost var owner: seq<Option<bytes>>
    ghost var kept: map<bytes, seq<Emission>>

    ghost predicate Owned()
      reads this
    {
      forall option :: OptionOK(lines, owner, origin, option, ListOf(optionToLine, option), KeptOf(kept, option))
    }

    ghost predicate Valid()
      reads this
    {
      && TextOK(lines, owner, origin) && TailOK(lines, owner, origin, hasTail) && Owned()
      && (forall option :: option in optionToLine ==> optionToLine[option] != [])
      && (forall option :: option !in rewritten ==> KeptOf(kept, option) == [])
    }

    /** The state for an old file that does not exist. */
    constructor ()
      ensures Valid() && lines == [] && origin == [] && owner == [] && !hasTail && kept == map[] && rewritten == {} && optionToLine == map[]
    {
      lines, optionToLine, rewritten, hasTail := [], map[], {}, false;
      origin, owner, kept := [], [], map[];
    }

    /** A line of text of the old file, which may be the signature. */
    method AppendText(line: bytes)
      requires Valid() && |lines| == |origin|
      modifies this`lines, this`origin, this`owner, this`hasTail
      ensures Valid() && lines == old(lines) + [line] && origin == old(origin) + [line] && owner == old(owner) + [None]
    {
      if line == SIGNATURE { hasTail := true; }
      forall option {
        TextAdded(lines, owner, origin, option, ListOf(optionToLine, option), KeptOf(kept, option), line, origin + [line]);
      }
      lines, origin, owner := lines + [line], origin + [line], owner + [None];
    }

    /** A directive of the old file: its line is one of its option's. */
    method AppendDirective(line: bytes, option: bytes)
      requires Valid() && |lines| == |origin| && line != SIGNATURE
      modifies this`lines, this`origin, this`owner, this`optionToLine
      ensures Valid() && lines == old(lines) + [line] && origin == old(origin) + [line] && owner == old(owner) + [Some(option)]
      ensures forall o :: ListOf(optionToLine, o) == ListOf(old(optionToLine), o) + if o == option then [|old(lines)|] else []
    {
      hide OptionOK;
      ghost var l, w, g, m := lines, owner, origin, optionToLine;
      optionToLine := optionToLine[option := ListOf(optionToLine, option) + [|lines|]];
      lines, origin, owner := lines + [line], origin + [line], owner + [Some(option)];
      forall o
        ensures OptionOK(lines, owner, origin, o, ListOf(optionToLine, o), KeptOf(kept, o))
      {
        if o == option {
          OldAdded(l, w, g, o, ListOf(m, o), KeptOf(kept, o), line);
        } else {
          OtherAdded(l, w, g, o, ListOf(m, o), KeptOf(kept, o), line, option, origin);
        }
      }
    }

    /** One line of the old file. */
    method ReadLine(raw: bytes)
      requires Valid() && |lines| == |origin| && Readable(raw)
      modifies this`lines, this`origin, this`owner, this`optionToLine, this`hasTail
      ensures Valid() && lines == old(lines) + [Classify(raw).text] && origin == old(origin) + [Classify(raw).text]
      ensures owner == old(owner) + [OwnerOf(raw)]
      ensures forall o :: ListOf(optionToLine, o) == ListOf(old(optionToLine), o) + if OwnerOf(raw) == Some(o) then [|old(lines)|] else []
    {
      hide OptionOK, Classify, Readable, TextOK, TailOK;
      match Classify(raw) {
        case Kept(text) => AppendText(text);
        case Directive(text, option) =>
          if text == SIGNATURE { SignatureIsText(raw); }
          AppendDirective(text, option);
      }
    }

    method MarkAsProcessed(option: bytes)
      requires Valid()
      modifies this`rewritten
      ensures Valid() && rewritten == old(rewritten) + {Lower(option)}
    {
      rewritten := rewritten + {Lower(option)};
    }

    /** The first unused line of the option is replaced. */
    method ReuseLine(option: bytes, line: bytes)
      requires Valid() && option in optionToLine && option in rewritten
      modifies this`lines, this`optionToLine, this`kept
      ensures Valid() && |lines| == |old(lines)|
      ensures var n := ListOf(old(optionToLine), option)[0];
        kept == old(kept)[option := KeptOf(old(kept), option) + [Emission(n, line)]]
      ensures forall o :: ListOf(optionToLine, o) == var l := ListOf(old(optionToLine), o); if o == option then l[1..] else l
    {
      hide OptionOK;
      var l := optionToLine[option];
      var n := l[0];
      ghost var before, m, k := lines, optionToLine, kept;
      assert OptionOK(lines, owner, origin, option, ListOf(m, option), KeptOf(k, option));
      OwnsUnused(lines, owner, origin, option, l, KeptOf(k, option), n);
      optionToLine := if |l| == 1 then optionToLine - {option} else optionToLine[option := l[1..]];
      lines := lines[n := line];
      kept := kept[option := KeptOf(kept, option) + [Emission(n, line)]];
      forall o
        ensures OptionOK(lines, owner, origin, o, ListOf(optionToLine, o), KeptOf(kept, o))
      {
        assert OptionOK(before, owner, origin, o, ListOf(m, o), KeptOf(k, o));
        if o == option {
          Reused(before, owner, origin, o, l, KeptOf(k, o), line);
          assert |l| == 1 ==> l[1..] == [];
        } else {
          OtherReused(before, owner, origin, o, ListOf(m, o), KeptOf(k, o), n, line);
        }
      }
    }

    /** The signature, before the first line that is added. */
    method AppendSignature()
      requires Valid()
      modifies this`lines, this`hasTail, this`owner
      ensures Valid() && hasTail
      ensures lines == old(lines) + (if old(hasTail) then [] else [SIGNATURE])
      ensures owner == old(owner) + (if old(hasTail) then [] else [None])
    {
      hide OptionOK;
      if !hasTail {
        forall o { TextAdded(lines, owner, origin, o, ListOf(optionToLine, o), KeptOf(kept, o), SIGNATURE, origin); }
        lines, owner := lines + [SIGNATURE], owner + [None];
        hasTail := true;
      }
    }

    /** A line at the end of the file. */
    method AppendLine(option: bytes, line: bytes)
      requires Valid() && option !in optionToLine && option in rewritten && hasTail
      modifies this`lines, this`owner, this`kept
      ensures Valid()
      ensures lines == old(lines) + [line] && owner == old(owner) + [Some(option)]
      ensures kept == old(kept)[option := KeptOf(old(kept), option) + [Emission(|lines| - 1, line)]]
    {
      hide OptionOK;
      ghost var l, w, k := lines, owner, kept;
      kept := kept[option := KeptOf(kept, option) + [Emission(|lines|, line)]];
      lines, owner := lines + [line], owner + [Some(option)];
      forall o
        ensures OptionOK(lines, owner, origin, o, ListOf(optionToLine, o), KeptOf(kept, o))
      {
        assert OptionOK(l, w, origin, o, ListOf(optionToLine, o), KeptOf(k, o));
        if o == option {
          Appended(l, w, origin, o, KeptOf(k, o), line);
        } else {
          OtherAdded(l, w, origin, o, ListOf(optionToLine, o), KeptOf(k, o), line, option, origin);
        }
      }
    }

    /** One emission: kept while the option has old lines, and after that only when forced. */
    method RewriteLine(option: bytes, line: bytes, force: bool)
      requires Valid()
      modifies this
      ensures Valid() && origin == old(origin) && rewritten == old(rewritten) + {Lower(option)} && old(owner) <= owner
      ensures var o := Lower(option);
        var unused := ListOf(old(optionToLine), o);
        && Texts(KeptOf(kept, o)) == Texts(KeptOf(old(kept), o)) + (if unused != [] || force then [line] else [])
        && ListOf(optionToLine, o) == (if unused != [] then unused[1..] else [])
      ensures forall o :: o != Lower(option) ==>
        KeptOf(kept, o) == KeptOf(old(kept), o) && ListOf(optionToLine, o) == ListOf(old(optionToLine), o)
    {
      hide OptionOK, Lower;
      var o := Lower(option);
      MarkAsProcessed(option);
      if o in optionToLine {
        ReuseLine(o, line);
      } else if force {
        AppendSignature();
        AppendLine(o, line);
      }
    }

    /**
     Old lines of processed options that were not reused become blank. Nothing else changes: not the
     emissions, not the text, not the lines of options that were never processed.
     */
    method RemoveOrphaned()
      requires Valid()
      modifies this`lines, this`optionToLine
      ensures |lines| == |old(lines)|
      ensures forall i :: 0 <= i < |lines| ==>
        lines[i] == if Orphan(old(optionToLine), rewritten, i) then [] else old(lines[i])
    {
      hide OptionOK;
      ghost var m := optionToLine;
      var options := optionToLine.Keys;
      while options != {}
        invariant |lines| == |old(lines)| && options <= m.Keys == optionToLine.Keys
        invariant forall o :: o in options ==> optionToLine[o] == m[o]
        invariant forall i :: 0 <= i < |lines| ==>
          lines[i] == if Orphan(m, (m.Keys - options) * rewritten, i) then [] else old(lines[i])
      {
        var option :| option in options;
        if option in rewritten {
          assert OptionOK(old(lines), owner, origin, option, ListOf(m, option), KeptOf(kept, option));
          UnusedBound(old(lines), owner, origin, option, m[option], KeptOf(kept, option));
          var blanked := Blanked(lines, optionToLine[option]);
          lines := blanked;
          optionToLine := optionToLine[option := []];
        }
        options := options - {option};
        assert forall i :: Orphan(m, (m.Keys - options) * rewritten, i) <==>
          (option in rewritten && i in m[option]) || Orphan(m, (m.Keys - (options + {option})) * rewritten, i);
      }
    }
  }

  /** Line `i` is an unused old line of a processed option. */
  ghost predicate Orphan(lists: map<bytes, seq<nat>>, processed: set<bytes>, i: nat) {
    exists o :: o in processed && o in lists && i in lists[o]
  }

  method Blanked(lines: seq<bytes>, unused: seq<nat>) returns (r: seq<bytes>)
    requires forall i :: i in unused ==> i < |lines|
    ensures |r| == |lines| && forall i :: 0 <= i < |lines| ==> r[i] == if i in unused then [] else lines[i]
  {
    r := lines;
    for k := 0 to |unused|
      invariant |r| == |lines| && forall i :: 0 <= i < |lines| ==> r[i] == if i in unused[..k] then [] else lines[i]
    {
      assert unused[k] in unused;
      r := r[unused[k] := []];
    }
    assert unused[..|unused|] == unused;
  }

  lemma UnusedBound(lines: seq<bytes>, owner: seq<Option<bytes>>, origin: seq<bytes>, option: bytes, unused: seq<nat>,
                    kept: seq<Emission>)
    requires OptionOK(lines, owner, origin, option, unused, kept)
    ensures forall i :: i in unused ==> i < |lines|
  {
  }

  function Texts(kept: seq<Emission>): seq<bytes> {
    seq(|kept|, i requires 0 <= i < |kept| => kept[i].text)
  }

  lemma OwnsUnused(lines: seq<bytes>, owner: seq<Option<bytes>>, origin: seq<bytes>, option: bytes, unused: seq<nat>,
                   kept: seq<Emission>, n: nat)
    requires OptionOK(lines, owner, origin, option, unused, kept) && n in unused
    ensures n < |lines| == |owner| && owner[n] == Some(option)
  {
  }

  // ------------------------------------------------------- the whole rewrite

  /** The lines of the old file that are directives for `option`. */
  function OldLines(raw: seq<bytes>, option: bytes): seq<nat>
    requires forall i :: 0 <= i < |raw| ==> Readable(raw[i])
  {
    if raw == [] then []
    else
      var m := |raw| - 1;
      OldLines(raw[..m], option) + if IsFor(raw[m], option) then [m] else []
  }

  predicate IsFor(raw: bytes, option: bytes)
    requires Readable(raw)
  {
    var c := Classify(raw);
    c.Directive? && c.option == option
  }

  /** The signature starts like a comment, and no other kind of line is equal to it. */
  lemma SignatureIsText(raw: bytes)
    requires Readable(raw) && Classify(raw).text == SIGNATURE
    ensures Classify(raw).Kept?
  {
  }

  function OwnerOf(raw: bytes): Option<bytes>
    requires Readable(raw)
  {
    if Classify(raw).Directive? then Some(Classify(raw).option) else None
  }

  lemma OwnerFor(raw: bytes)
    requires Readable(raw)
    ensures OwnerOf(raw) == if Classify(raw).Kept? then None else Some(Classify(raw).option)
  {
  }

  method ReadOldFile(raw: seq<bytes>) returns (s: State)
    requires forall i :: 0 <= i < |raw| ==> Readable(raw[i])
    ensures fresh(s) && s.Valid() && |s.lines| == |s.owner| == |raw| && s.lines == s.origin && s.rewritten == {}
    ensures forall i :: 0 <= i < |raw| ==> s.lines[i] == Classify(raw[i]).text && s.owner[i] == OwnerOf(raw[i])
    ensures forall o :: ListOf(s.optionToLine, o) == OldLines(raw, o) && KeptOf(s.kept, o) == []
    ensures s.hasTail <==> SIGNATURE in s.lines
  {
    hide OptionOK, Classify, Readable, TextOK, TailOK, OldLines, OwnerOf, ReadAs;
    s := new State();
    NothingRead(raw);
    for i := 0 to |raw|
      invariant fresh(s) && s.Valid() && |s.lines| == |s.owner| == i && s.lines == s.origin && s.rewritten == {} && s.kept == map[]
      invariant ReadAs(s.lines, s.owner, s.optionToLine, raw, i)
    {
      ghost var lines, owner, lists := s.lines, s.owner, s.optionToLine;
      s.ReadLine(raw[i]);
      ReadMore(lines, owner, lists, s.optionToLine, raw, i);
    }
    AllRead(s.lines, s.owner, s.optionToLine, raw);
    TailFlag(s.lines, s.owner, s.origin, s.hasTail);
  }

  lemma TailFlag(lines: seq<bytes>, owner: seq<Option<bytes>>, origin: seq<bytes>, hasTail: bool)
    requires TailOK(lines, owner, origin, hasTail)
    ensures hasTail <==> SIGNATURE in origin || |lines| > |origin|
  {
  }

  /** After `n` lines: each is as classified, and each option has the places of its lines. */
  ghost predicate ReadAs(lines: seq<bytes>, owner: seq<Option<bytes>>, lists: map<bytes, seq<nat>>, raw: seq<bytes>, n: nat)
    requires n <= |raw| && forall i :: 0 <= i < |raw| ==> Readable(raw[i])
  {
    && |lines| == |owner| == n
    && (forall i :: 0 <= i < n ==> lines[i] == Classify(raw[i]).text && owner[i] == OwnerOf(raw[i]))
    && (forall o :: ListOf(lists, o) == OldLines(raw[..n], o))
  }

  lemma NothingRead(raw: seq<bytes>)
    requires forall i :: 0 <= i < |raw| ==> Readable(raw[i])
    ensures ReadAs([], [], map[], raw, 0)
  {
  }

  lemma ReadMore(lines: seq<bytes>, owner: seq<Option<bytes>>, lists: map<bytes, seq<nat>>, lists2: map<bytes, seq<nat>>, raw: seq<bytes>, n: nat)
    requires n < |raw| && (forall i :: 0 <= i < |raw| ==> Readable(raw[i])) && ReadAs(lines, owner, lists, raw, n)
    requires forall o :: ListOf(lists2, o) == ListOf(lists, o) + if OwnerOf(raw[n]) == Some(o) then [n] else []
    ensures ReadAs(lines + [Classify(raw[n]).text], owner + [OwnerOf(raw[n])], lists2, raw, n + 1)
  {
    hide Classify, Readable, OwnerOf, OldLines, ListOf;
    OldLinesSnoc(raw, n);
  }

  lemma AllRead(lines: seq<bytes>, owner: seq<Option<bytes>>, lists: map<bytes, seq<nat>>, raw: seq<bytes>)
    requires (forall i :: 0 <= i < |raw| ==> Readable(raw[i])) && ReadAs(lines, owner, lists, raw, |raw|)
    ensures |lines| == |owner| == |raw|
    ensures forall i :: 0 <= i < |raw| ==> lines[i] == Classify(raw[i]).text && owner[i] == OwnerOf(raw[i])
    ensures forall o :: ListOf(lists, o) == OldLines(raw, o)
  {
    hide Classify, Readable, OwnerOf, OldLines, ListOf;
    assert raw[..|raw|] == raw;
  }

  lemma OldLinesSnoc(raw: seq<bytes>, i: nat)
    requires i < |raw| && forall k :: 0 <= k < |raw| ==> Readable(raw[k])
    ensures forall o :: OldLines(raw[..i + 1], o) == OldLines(raw[..i], o) + if OwnerOf(raw[i]) == Some(o) then [i] else []
  {
    hide Classify, Readable;
    assert raw[..i + 1][..i] == raw[..i];
  }

  datatype Call = Emit(option: bytes, line: bytes, force: bool) | Mark(option: bytes)

  /** What is kept of the emissions for `option` when it starts with `unused` old lines. */
  function Emissions(calls: seq<Call>, option: bytes, unused: nat): seq<bytes> {
    if calls == [] then []
    else
      var c := calls[0];
      if c.Emit? && Lower(c.option) == option && (unused > 0 || c.force)
      then [c.line] + Emissions(calls[1..], option, if unused > 0 then unused - 1 else 0)
      else Emissions(calls[1..], option, unused)
  }

  /** The emissions for `option`, in order: the line, and whether it is forced. */
  function Emitted(calls: seq<Call>, option: bytes): seq<(bytes, bool)> {
    if calls == [] then []
    else
      (if calls[0].Emit? && Lower(calls[0].option) == option then [(calls[0].line, calls[0].force)] else [])
      + Emitted(calls[1..], option)
  }

  function Lines(es: seq<(bytes, bool)>): seq<bytes> {
    seq(|es|, i requires 0 <= i < |es| => es[i].0)
  }

  function Forced(es: seq<(bytes, bool)>): seq<bytes> {
    if es == [] then [] else (if es[0].1 then [es[0].0] else []) + Forced(es[1..])
  }

  /** As many emissions are kept as the option has old lines, and of the others those that are forced. */
  function Survivors(es: seq<(bytes, bool)>, unused: nat): seq<bytes> {
    if |es| <= unused then Lines(es) else Lines(es[..unused]) + Forced(es[unused..])
  }

  lemma OnlyForced(es: seq<(bytes, bool)>)
    ensures Survivors(es, 0) == Forced(es)
  {
    if es != [] { assert es[0..] == es && Lines(es[..0]) == []; }
  }

  lemma SurvivorsFirst(es: seq<(bytes, bool)>, unused: nat)
    requires es != []
    ensures Survivors(es, unused) ==
      if unused > 0 || es[0].1 then [es[0].0] + Survivors(es[1..], if unused > 0 then unused - 1 else 0) else Survivors(es[1..], unused)
  {
    if unused == 0 {
      hide Survivors;
      OnlyForced(es);
      OnlyForced(es[1..]);
    } else if |es| <= unused {
      assert Lines(es) == [es[0].0] + Lines(es[1..]);
    } else {
      var rest := es[1..];
      assert rest[..unused - 1] == es[..unused][1..] && rest[unused - 1..] == es[unused..];
      assert Lines(es[..unused]) == [es[0].0] + Lines(rest[..unused - 1]);
      hide Lines, Forced;
      assert Survivors(rest, unused - 1) == Lines(rest[..unused - 1]) + Forced(es[unused..]);
    }
  }

  lemma {:induction false} EmissionsAre(calls: seq<Call>, option: bytes, unused: nat)
    ensures Emissions(calls, option, unused) == Survivors(Emitted(calls, option), unused)
    decreases |calls|
  {
    hide Survivors, Lower;
    if calls == [] {
      NoSurvivors(unused);
    } else {
      var c := calls[0];
      var es := Emitted(calls, option);
      if c.Emit? && Lower(c.option) == option {
        assert es[1..] == Emitted(calls[1..], option);
        SurvivorsFirst(es, unused);
        EmissionsAre(calls[1..], option, if unused > 0 then unused - 1 else 0);
      } else {
        assert es == Emitted(calls[1..], option);
        EmissionsAre(calls[1..], option, unused);
      }
    }
  }

  lemma NoSurvivors(unused: nat)
    ensures Survivors([], unused) == []
  {
  }

  function Processed(calls: seq<Call>): set<bytes> {
    if calls == [] then {} else Processed(calls[..|calls| - 1]) + {Lower(calls[|calls| - 1].option)}
  }

  /** Every emission and every mark makes its option a processed one. */
  lemma {:induction false} ProcessedIff(calls: seq<Call>, o: bytes)
    ensures o in Processed(calls) <==> exists i :: 0 <= i < |calls| && Lower(calls[i].option) == o
  {
    hide Lower;
    if calls != [] {
      var m := |calls| - 1;
      ProcessedIff(calls[..m], o);
      assert forall i :: 0 <= i < m ==> calls[..m][i] == calls[i];
    }
  }

  /** What will have been kept for `o` after the calls still to come. */
  ghost function Due(kept: map<bytes, seq<Emission>>, lists: map<bytes, seq<nat>>, calls: seq<Call>, o: bytes): seq<bytes> {
    Texts(KeptOf(kept, o)) + Emissions(calls, o, |ListOf(lists, o)|)
  }

  /** The effect of an emission on the state of one option. */
  lemma DueEmit(kept: map<bytes, seq<Emission>>, lists: map<bytes, seq<nat>>, kept2: map<bytes, seq<Emission>>,
                lists2: map<bytes, seq<nat>>, calls: seq<Call>, o: bytes)
    requires calls != [] && calls[0].Emit?
    requires if o == Lower(calls[0].option) then
      var unused := ListOf(lists, o);
      && Texts(KeptOf(kept2, o)) == Texts(KeptOf(kept, o)) + (if unused != [] || calls[0].force then [calls[0].line] else [])
      && ListOf(lists2, o) == (if unused != [] then unused[1..] else [])
      else KeptOf(kept2, o) == KeptOf(kept, o) && ListOf(lists2, o) == ListOf(lists, o)
    ensures Due(kept2, lists2, calls[1..], o) == Due(kept, lists, calls, o)
  {
    hide Texts;
  }

  lemma DueMark(kept: map<bytes, seq<Emission>>, lists: map<bytes, seq<nat>>, calls: seq<Call>, o: bytes)
    requires calls != [] && calls[0].Mark?
    ensures Due(kept, lists, calls[1..], o) == Due(kept, lists, calls, o)
  {
  }

  /** The rewrite and mark calls, one after the other. */
  method ApplyCalls(s: State, calls: seq<Call>)
    requires s.Valid() && s.rewritten == {} && forall o :: KeptOf(s.kept, o) == []
    modifies s
    ensures s.Valid() && s.origin == old(s.origin) && old(s.owner) <= s.owner && s.rewritten == Processed(calls)
    ensures forall o :: Texts(KeptOf(s.kept, o)) == Emissions(calls, o, |ListOf(old(s.optionToLine), o)|)
  {
    hide OptionOK, Lower, Due, Emissions, Texts, TextOK, TailOK;
    ghost var k0, m := s.kept, s.optionToLine;
    assert calls[0..] == calls;
    for i := 0 to |calls|
      invariant s.Valid() && s.origin == old(s.origin) && old(s.owner) <= s.owner && s.rewritten == Processed(calls[..i])
      invariant forall o :: Due(s.kept, s.optionToLine, calls[i..], o) == Due(k0, m, calls, o)
    {
      assert calls[..i + 1][..i] == calls[..i] && calls[i..][1..] == calls[i + 1..];
      ghost var k, l := s.kept, s.optionToLine;
      match calls[i] {
        case Emit(option, line, force) =>
          s.RewriteLine(option, line, force);
          forall o ensures Due(s.kept, s.optionToLine, calls[i + 1..], o) == Due(k, l, calls[i..], o) {
            DueEmit(k, l, s.kept, s.optionToLine, calls[i..], o);
          }
        case Mark(option) =>
          s.MarkAsProcessed(option);
          forall o ensures Due(s.kept, s.optionToLine, calls[i + 1..], o) == Due(k, l, calls[i..], o) {
            DueMark(k, l, calls[i..], o);
          }
      }
    }
    assert calls[..|calls|] == calls;
    forall o ensures Texts(KeptOf(s.kept, o)) == Emissions(calls, o, |ListOf(m, o)|) {
      DueEnd(k0, m, s.kept, s.optionToLine, calls, o);
    }
  }

  lemma DueEnd(kept: map<bytes, seq<Emission>>, lists: map<bytes, seq<nat>>, kept2: map<bytes, seq<Emission>>,
               lists2: map<bytes, seq<nat>>, calls: seq<Call>, o: bytes)
    requires KeptOf(kept, o) == [] && Due(kept2, lists2, [], o) == Due(kept, lists, calls, o)
    ensures Texts(KeptOf(kept2, o)) == Emissions(calls, o, |ListOf(lists, o)|)
  {
    assert Texts(KeptOf(kept2, o)) + [] == Texts(KeptOf(kept2, o));
  }

  /** What the rewrite leaves of an option that was processed. */
  ghost predicate OptionDone(lines: seq<bytes>, raw: seq<bytes>, option: bytes, kept: seq<Emission>)
    requires forall i :: 0 <= i < |raw| ==> Readable(raw[i])
  {
    && |raw| <= |lines| && Increasing(Places(kept))
    && (forall i :: 0 <= i < |kept| ==> kept[i].at < |lines| && lines[kept[i].at] == kept[i].text)
    && (forall i :: 0 <= i < |kept| && kept[i].at < |raw| ==> IsFor(raw[kept[i].at], option))
    && (forall i :: 0 <= i < |kept| && i < |OldLines(raw, option)| ==> kept[i].at == OldLines(raw, option)[i])
    && (forall i :: 0 <= i < |raw| && IsFor(raw[i], option) && i !in Places(kept) ==> lines[i] == [])
  }

  /**
   A whole rewrite. Text, and directives of options nobody processed, stay where and as they were. For
   a processed option the kept emissions stand in the file in the order they were made, in its own old
   lines or after all old lines, and its other old lines are blank. No line serves two options. After
   the old lines comes the signature, unless the old file has it, and then nothing but kept emissions.
   */
  method Rewrite(raw: seq<bytes>, calls: seq<Call>) returns (s: State, content: bytes)
    requires forall i :: 0 <= i < |raw| ==> Readable(raw[i])
    ensures |s.lines| >= |raw| && content == Join(Collapse(s.lines, false))
    ensures forall i :: 0 <= i < |raw| && (Classify(raw[i]).Kept? || Classify(raw[i]).option !in Processed(calls)) ==>
      s.lines[i] == Classify(raw[i]).text
    ensures forall o :: o in Processed(calls) ==>
      && OptionDone(s.lines, raw, o, KeptOf(s.kept, o))
      && Texts(KeptOf(s.kept, o)) == Survivors(Emitted(calls, o), |OldLines(raw, o)|)
    ensures forall o, p, i :: i in Places(KeptOf(s.kept, o)) && i in Places(KeptOf(s.kept, p)) ==> o == p
    ensures forall i :: |raw| <= i < |s.lines| ==>
      if i == |raw| && NoSignature(raw) then s.lines[i] == SIGNATURE
      else IsKept(s.kept, Processed(calls), Emission(i, s.lines[i]))
  {
    hide OptionOK, TailOK, NoSignature, IsKept, Classify, Readable, Texts, Emissions, Emitted, Survivors, Collapse, Join, OptionDone, OldLines;
    s := ReadOldFile(raw);
    ApplyCalls(s, calls);
    ghost var l, m := s.lines, s.optionToLine;
    s.RemoveOrphaned();
    forall i | 0 <= i < |raw| && (Classify(raw[i]).Kept? || Classify(raw[i]).option !in s.rewritten)
      ensures s.lines[i] == Classify(raw[i]).text
    {
      OwnerFor(raw[i]);
      Untouched(l, s.owner, s.origin, m, s.kept, s.rewritten, i);
    }
    forall o | o in s.rewritten
      ensures OptionDone(s.lines, raw, o, KeptOf(s.kept, o))
      ensures Texts(KeptOf(s.kept, o)) == Survivors(Emitted(calls, o), |OldLines(raw, o)|)
    {
      EmissionsAre(calls, o, |OldLines(raw, o)|);
      OptionEnds(l, s.lines, s.owner, s.origin, m, s.kept, s.rewritten, o, raw);
    }
    forall o, p, i | i in Places(KeptOf(s.kept, o)) && i in Places(KeptOf(s.kept, p))
      ensures o == p
    {
      OneOwner(l, s.owner, s.origin, m, s.kept, o, p, i);
    }
    SignatureRead(raw, s.origin);
    forall i | |raw| <= i < |s.lines|
      ensures if i == |raw| && NoSignature(raw) then s.lines[i] == SIGNATURE
        else IsKept(s.kept, s.rewritten, Emission(i, s.lines[i]))
    {
      TailEnds(l, s.owner, s.origin, m, s.kept, s.rewritten, s.hasTail, i);
    }
    content := GetContent(s.lines);
  }

  /** An emission kept for one of the processed options. */
  ghost predicate IsKept(kept: map<bytes, seq<Emission>>, processed: set<bytes>, e: Emission) {
    exists o :: o in processed && e in KeptOf(kept, o)
  }

  ghost predicate NoSignature(raw: seq<bytes>)
    requires forall i :: 0 <= i < |raw| ==> Readable(raw[i])
  {
    forall i :: 0 <= i < |raw| ==> Classify(raw[i]).text != SIGNATURE
  }

  lemma SignatureRead(raw: seq<bytes>, origin: seq<bytes>)
    requires |origin| == |raw| && forall i :: 0 <= i < |raw| ==> Readable(raw[i]) && origin[i] == Classify(raw[i]).text
    ensures NoSignature(raw) <==> SIGNATURE !in origin
  {
    hide Readable, Classify;
  }

  lemma OneOwner(lines: seq<bytes>, owner: seq<Option<bytes>>, origin: seq<bytes>, lists: map<bytes, seq<nat>>,
                 kept: map<bytes, seq<Emission>>, o: bytes, p: bytes, i: nat)
    requires AllOK(lines, owner, origin, lists, kept) && i in Places(KeptOf(kept, o)) && i in Places(KeptOf(kept, p))
    ensures o == p
  {
    assert OptionOK(lines, owner, origin, o, ListOf(lists, o), KeptOf(kept, o));
    assert OptionOK(lines, owner, origin, p, ListOf(lists, p), KeptOf(kept, p));
  }

  /** A line after the old ones is the signature or a kept emission, and is not blanked. */
  lemma TailEnds(lines: seq<bytes>, owner: seq<Option<bytes>>, origin: seq<bytes>, lists: map<bytes, seq<nat>>,
                 kept: map<bytes, seq<Emission>>, processed: set<bytes>, hasTail: bool, i: nat)
    requires AllOK(lines, owner, origin, lists, kept) && TailOK(lines, owner, origin, hasTail) && |origin| <= i < |lines|
    requires forall o :: o !in processed ==> KeptOf(kept, o) == []
    ensures !Orphan(lists, processed, i)
    ensures if i == |origin| && SIGNATURE !in origin then lines[i] == SIGNATURE
      else IsKept(kept, processed, Emission(i, lines[i]))
  {
    OrphanOwner(lines, owner, origin, lists, kept, processed, i);
    if owner[i].Some? {
      var o := owner[i].value;
      var k := KeptOf(kept, o);
      assert OptionOK(lines, owner, origin, o, ListOf(lists, o), k);
      assert i in Places(k);
      var e :| 0 <= e < |k| && Places(k)[e] == i;
      assert k[e] == Emission(i, lines[i]) && o in processed;
    }
  }

  ghost predicate AllOK(lines: seq<bytes>, owner: seq<Option<bytes>>, origin: seq<bytes>, lists: map<bytes, seq<nat>>,
                        kept: map<bytes, seq<Emission>>) {
    forall o :: OptionOK(lines, owner, origin, o, ListOf(lists, o), KeptOf(kept, o))
  }

  lemma Untouched(lines: seq<bytes>, owner: seq<Option<bytes>>, origin: seq<bytes>, lists: map<bytes, seq<nat>>,
                  kept: map<bytes, seq<Emission>>, processed: set<bytes>, i: nat)
    requires TextOK(lines, owner, origin) && AllOK(lines, owner, origin, lists, kept) && i < |origin|
    requires owner[i].Some? ==> owner[i].value !in processed && KeptOf(kept, owner[i].value) == []
    ensures lines[i] == origin[i] && !Orphan(lists, processed, i)
  {
    if owner[i].Some? {
      assert OptionOK(lines, owner, origin, owner[i].value, ListOf(lists, owner[i].value), KeptOf(kept, owner[i].value));
    }
    OrphanOwner(lines, owner, origin, lists, kept, processed, i);
  }

  lemma OrphanOwner(lines: seq<bytes>, owner: seq<Option<bytes>>, origin: seq<bytes>, lists: map<bytes, seq<nat>>,
                    kept: map<bytes, seq<Emission>>, processed: set<bytes>, i: nat)
    requires AllOK(lines, owner, origin, lists, kept) && |owner| == |lines| && i < |lines|
    ensures Orphan(lists, processed, i) <==> owner[i].Some? && owner[i].value in processed && i in ListOf(lists, owner[i].value)
  {
    if Orphan(lists, processed, i) {
      var o :| o in processed && o in lists && i in lists[o];
      assert OptionOK(lines, owner, origin, o, ListOf(lists, o), KeptOf(kept, o));
    }
  }

  lemma OptionEnds(lines: seq<bytes>, lines2: seq<bytes>, owner: seq<Option<bytes>>, origin: seq<bytes>,
                   lists: map<bytes, seq<nat>>, kept: map<bytes, seq<Emission>>, processed: set<bytes>, o: bytes, raw: seq<bytes>)
    requires AllOK(lines, owner, origin, lists, kept) && o in processed && |owner| == |lines| == |lines2| >= |raw|
    requires forall i :: 0 <= i < |lines| ==> lines2[i] == if Orphan(lists, processed, i) then [] else lines[i]
    requires forall i :: 0 <= i < |raw| ==> Readable(raw[i]) && owner[i] == OwnerOf(raw[i])
    ensures OptionDone(lines2, raw, o, KeptOf(kept, o))
  {
    hide Readable, Classify;
    var k, u := KeptOf(kept, o), ListOf(lists, o);
    assert OptionOK(lines, owner, origin, o, u, k);
    var all := Places(k) + u;
    forall i | 0 <= i < |k|
      ensures k[i].at < |lines| && lines2[k[i].at] == k[i].text && (k[i].at < |raw| ==> IsFor(raw[k[i].at], o))
    {
      assert all[i] == k[i].at == Places(k)[i];
      assert forall j :: 0 <= j < |u| ==> all[|k| + j] == u[j];
      OrphanOwner(lines, owner, origin, lists, kept, processed, k[i].at);
    }
    forall i | 0 <= i < |raw| && IsFor(raw[i], o) && i !in Places(k)
      ensures lines2[i] == []
    {
      OrphanOwner(lines, owner, origin, lists, kept, processed, i);
    }
    assert forall i :: 0 <= i < |k| ==> all[i] == Places(k)[i];
    AllOwned(owner, lines, o, k, u, all);
    OldFirst(raw, owner, o, all);
  }

  lemma AllOwned(owner: seq<Option<bytes>>, lines: seq<bytes>, o: bytes, k: seq<Emission>, u: seq<nat>, all: seq<nat>)
    requires |owner| == |lines| && all == Places(k) + u
    requires forall i :: 0 <= i < |lines| ==> (owner[i] == Some(o) <==> i in Places(k) || i in u)
    requires (forall i :: 0 <= i < |k| ==> k[i].at < |lines|) && forall i :: i in u ==> i < |lines|
    ensures forall i: nat :: i in all <==> i < |owner| && owner[i] == Some(o)
  {
    assert forall i: nat :: i in all <==> i in Places(k) || i in u;
  }

  lemma {:induction false} OldLinesAre(raw: seq<bytes>, o: bytes)
    requires forall i :: 0 <= i < |raw| ==> Readable(raw[i])
    ensures Increasing(OldLines(raw, o)) && forall i: nat :: i in OldLines(raw, o) <==> i < |raw| && IsFor(raw[i], o)
  {
    hide Readable, IsFor;
    if raw != [] {
      var m := |raw| - 1;
      OldLinesAre(raw[..m], o);
      var before := OldLines(raw[..m], o);
      assert OldLines(raw, o) == before + if IsFor(raw[m], o) then [m] else [];
      hide OldLines;
      assert forall i :: 0 <= i < m ==> raw[..m][i] == raw[i];
      assert forall x :: 0 <= x < |before| ==> before[x] in before;
    }
  }

  /** An increasing sequence is where a larger one begins, if it has all that is below a bound. */
  lemma {:induction false} BeginsWith(a: seq<nat>, b: seq<nat>, n: nat, i: nat)
    requires Increasing(a) && Increasing(b) && (forall x :: x in a <==> x in b && x < n) && i <= |a|
    ensures i <= |b| && a[..i] == b[..i]
    decreases i
  {
    if i > 0 {
      var m := i - 1;
      BeginsWith(a, b, n, m);
      assert forall x :: 0 <= x < m ==> a[x] == a[..m][x] == b[..m][x] == b[x];
      assert a[m] in b;
      var j :| 0 <= j < |b| && b[j] == a[m];
      assert b[m] in a;
      var l :| 0 <= l < |a| && a[l] == b[m];
      assert a[..i] == a[..m] + [a[m]] && b[..i] == b[..m] + [b[m]];
    }
  }

  /** The lines of an option begin with its old lines. */
  lemma OldFirst(raw: seq<bytes>, owner: seq<Option<bytes>>, o: bytes, all: seq<nat>)
    requires |raw| <= |owner| && forall i :: 0 <= i < |raw| ==> Readable(raw[i]) && (owner[i] == Some(o) <==> IsFor(raw[i], o))
    requires Increasing(all) && forall i: nat :: i in all <==> i < |owner| && owner[i] == Some(o)
    ensures OldLines(raw, o) <= all
  {
    hide Readable, IsFor, OldLines, Increasing;
    OldLinesAre(raw, o);
    var a := OldLines(raw, o);
    BeginsWith(a, all, |raw|, |a|);
    assert a[..|a|] == a;
  }

  // ---------------------------------------------------------------- content

  /** Every run of blank lines becomes a single one. */
  function Collapse(lines: seq<bytes>, wasEmpty: bool): seq<bytes> {
    if lines == [] then []
    else if lines[0] == [] then (if wasEmpty then [] else [[]]) + Collapse(lines[1..], true)
    else [lines[0]] + Collapse(lines[1..], false)
  }

  function Join(lines: seq<bytes>): bytes {
    if lines == [] then [] else lines[0] + [LF] + Join(lines[1..])
  }

  method GetContent(lines: seq<bytes>) returns (content: bytes)
    ensures content == Join(Collapse(lines, false))
  {
    content := [];
    var wasEmpty, j := false, 0;
    assert lines[0..] == lines;
    while j < |lines|
      invariant j <= |lines| && content + Join(Collapse(lines[j..], wasEmpty)) == Join(Collapse(lines, false))
    {
      assert lines[j..][1..] == lines[j + 1..];
      ghost var rest := Join(Collapse(lines[j + 1..], lines[j] == []));
      if lines[j] != [] || !wasEmpty {
        JoinFirst(lines[j], Collapse(lines[j + 1..], lines[j] == []));
        assert content + (lines[j] + [LF] + rest) == content + lines[j] + [LF] + rest;
        content := content + lines[j] + [LF];
      } else {
        assert [] + Collapse(lines[j + 1..], true) == Collapse(lines[j + 1..], true);
      }
      wasEmpty := lines[j] == [];
      j := j + 1;
    }
  }

  lemma JoinFirst(line: bytes, rest: seq<bytes>)
    ensures Join([line] + rest) == line + [LF] + Join(rest)
  {
    assert ([line] + rest)[1..] == rest;
  }

  /** The lines of a file: up to and without each LF. */
  function SplitLines(content: bytes, line: bytes): seq<bytes> {
    if content == [] then []
    else if content[0] == LF then [line] + SplitLines(content[1..], [])
    else SplitLines(content[1..], line + [content[0]])
  }

  /** Reading the content back gives the collapsed lines, if none of them contains a line feed. */
  lemma {:induction false} ReadBack(lines: seq<bytes>)
    requires forall i :: 0 <= i < |lines| ==> LF !in lines[i]
    ensures SplitLines(Join(lines), []) == lines
  {
    if lines != [] {
      ReadBack(lines[1..]);
      SplitOne(lines[0], Join(lines[1..]), []);
      assert lines[0] + [LF] + Join(lines[1..]) == lines[0] + ([LF] + Join(lines[1..]));
      assert [] + lines[0] == lines[0];
    }
  }

  lemma {:induction false} SplitOne(line: bytes, rest: bytes, before: bytes)
    requires LF !in line
    ensures SplitLines(line + ([LF] + rest), before) == [before + line] + SplitLines(rest, [])
    decreases |line|
  {
    if line == [] {
      assert line + ([LF] + rest) == [LF] + rest && before + line == before;
    } else {
      assert (line + ([LF] + rest))[1..] == line[1..] + ([LF] + rest);
      SplitOne(line[1..], rest, before + [line[0]]);
      assert before + [line[0]] + line[1..] == before + line;
    }
  }

  function NonBlank(lines: seq<bytes>): seq<bytes> {
    if lines == [] then [] else (if lines[0] == [] then [] else [lines[0]]) + NonBlank(lines[1..])
  }

  ghost predicate NoRuns(lines: seq<bytes>, wasEmpty: bool) {
    lines != [] ==> !(wasEmpty && lines[0] == []) && NoRuns(lines[1..], lines[0] == [])
  }

  /** Collapsing loses no text, and leaves no two blank lines together. */
  lemma {:induction false} CollapseKeeps(lines: seq<bytes>, wasEmpty: bool)
    ensures NonBlank(Collapse(lines, wasEmpty)) == NonBlank(lines) && NoRuns(Collapse(lines, wasEmpty), wasEmpty)
  {
    if lines != [] {
      var blank := lines[0] == [];
      CollapseKeeps(lines[1..], blank);
      var rest := Collapse(lines[1..], blank);
      assert blank && wasEmpty ==> [] + rest == rest;
      assert ([lines[0]] + rest)[1..] == rest;
    }
  }

  lemma {:induction false} CollapseText(lines: seq<bytes>, rest: seq<bytes>, wasEmpty: bool)
    requires forall i :: 0 <= i < |lines| ==> lines[i] != []
    ensures Collapse(lines + rest, wasEmpty) == lines + Collapse(rest, wasEmpty && lines == [])
    decreases |lines|
  {
    if lines == [] {
      assert lines + rest == rest;
    } else {
      assert (lines + rest)[1..] == lines[1..] + rest;
      CollapseText(lines[1..], rest, false);
    }
  }

  lemma {:induction false} CollapseBlanks(k: nat, rest: seq<bytes>)
    ensures Collapse(Blanks(k) + rest, true) == Collapse(rest, true)
  {
    if k == 0 {
      assert Blanks(k) + rest == rest;
    } else {
      assert (Blanks(k) + rest)[1..] == Blanks(k - 1) + rest;
      CollapseBlanks(k - 1, rest);
      assert [] + Collapse(rest, true) == Collapse(rest, true);
    }
  }

  function Blanks(k: nat): seq<bytes> {
    seq(k, _ => [])
  }

  /** Text stays as it is, and a run of blank lines after it becomes exactly one. */
  lemma CollapseRun(lines: seq<bytes>, k: nat, rest: seq<bytes>)
    requires forall i :: 0 <= i < |lines| ==> lines[i] != []
    requires rest != [] ==> rest[0] != []
    ensures Collapse(lines + rest, false) == lines + Collapse(rest, false)
    ensures Collapse(lines + (Blanks(k + 1) + rest), false) == lines + ([[]] + Collapse(rest, false))
  {
    hide Collapse, Blanks;
    CollapseText(lines, rest, false);
    CollapseText(lines, Blanks(k + 1) + rest, false);
    CollapseBlanks(k, rest);
    FirstBlank(k, rest);
  }

  lemma FirstBlank(k: nat, rest: seq<bytes>)
    requires rest != [] ==> rest[0] != []
    ensures Collapse(Blanks(k + 1) + rest, false) == [[]] + Collapse(Blanks(k) + rest, true)
    ensures Collapse(rest, true) == Collapse(rest, false)
  {
    assert (Blanks(k + 1) + rest)[1..] == Blanks(k) + rest;
  }
}
