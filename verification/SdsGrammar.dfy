/**
 What sdssplitargs understands (sds.c), written down from the writer's side: how words may be spelled,
 and that splitting any such line gives the words back. Nothing here mentions how the splitter works.
 */
module SdsGrammar {
  import opened Basics
  import opened SdsQuoting

  /** How a byte may be written inside double quotes. */
  datatype Piece = Raw(b: byte) | Letter(c: byte) | Hex(value: byte, hiUpper: bool, loUpper: bool)

  datatype Tail = NoTail | InDouble(pieces: seq<Piece>) | InSingle(s: bytes)

  /** A word: unquoted bytes, and then possibly a quoted part. */
  datatype Word = Word(bare: bytes, tail: Tail)

  /** The blanks that end an unquoted word. */
  predicate Stop(b: byte) {
    b == 32 || b == 9 || b == 10 || b == 13
  }

  predicate Blank(s: bytes) {
    forall i :: 0 <= i < |s| ==> Stop(s[i])
  }

  function DigitCode(v: nat, upper: bool): byte
    requires v < 16
  {
    if v < 10 then 48 + v else if upper then 55 + v else 87 + v
  }

  function PieceText(p: Piece): bytes {
    match p
    case Raw(b) => [b]
    case Letter(c) => [92, c]
    case Hex(v, hi, lo) => [92, 120, DigitCode(v / 16, hi), DigitCode(v % 16, lo)]
  }

  /** What it stands for: \n, \r, \t, \b and \a are control characters, any other letter is itself. */
  function PieceValue(p: Piece): byte {
    match p
    case Raw(b) => b
    case Letter(c) => if c == 110 then 10 else if c == 114 then 13 else if c == 116 then 9 else if c == 98 then 8 else if c == 97 then 7 else c
    case Hex(v, _, _) => v
  }

  predicate PieceOK(p: Piece) {
    match p
    case Raw(b) => b != 0 && b != 34 && b != 92
    case Letter(c) => c != 0 && c != 120
    case Hex(_, _, _) => true
  }

  function PiecesText(ps: seq<Piece>): bytes {
    if ps == [] then [] else PieceText(ps[0]) + PiecesText(ps[1..])
  }

  function PiecesValue(ps: seq<Piece>): bytes {
    if ps == [] then [] else [PieceValue(ps[0])] + PiecesValue(ps[1..])
  }

  /** Inside single quotes only the quote is escaped. */
  function SingleBytes(s: bytes): bytes {
    if s == [] then [] else (if s[0] == 39 then [92, 39] else [s[0]]) + SingleBytes(s[1..])
  }

  predicate SingleOK(s: bytes) {
    0 !in s && (s != [] ==> s[|s| - 1] != 92)
  }

  predicate BareOK(s: bytes) {
    forall i :: 0 <= i < |s| ==> s[i] != 0 && s[i] != 34 && s[i] != 39 && !Stop(s[i])
  }

  function TailText(t: Tail): bytes {
    match t
    case NoTail => []
    case InDouble(ps) => [34] + PiecesText(ps) + [34]
    case InSingle(s) => [39] + SingleBytes(s) + [39]
  }

  function TailValue(t: Tail): bytes {
    match t
    case NoTail => []
    case InDouble(ps) => PiecesValue(ps)
    case InSingle(s) => s
  }

  predicate TailOK(t: Tail) {
    match t
    case NoTail => true
    case InDouble(ps) => forall i :: 0 <= i < |ps| ==> PieceOK(ps[i])
    case InSingle(s) => SingleOK(s)
  }

  predicate WordOK(w: Word) {
    && BareOK(w.bare) && TailOK(w.tail) && (w.bare == [] ==> w.tail != NoTail)
    && (w.bare != [] ==> !IsSpace(w.bare[0]))
  }

  function WordText(w: Word): bytes {
    w.bare + TailText(w.tail)
  }

  function WordValue(w: Word): bytes {
    w.bare + TailValue(w.tail)
  }

  /** A line: words with the blanks before each, and blanks at the end. */
  function LineText(ws: seq<(bytes, Word)>, end: bytes): bytes {
    if ws == [] then end else ws[0].0 + WordText(ws[0].1) + LineText(ws[1..], end)
  }

  function LineValues(ws: seq<(bytes, Word)>): seq<bytes> {
    seq(|ws|, i requires 0 <= i < |ws| => WordValue(ws[i].1))
  }

  predicate LineOK(ws: seq<(bytes, Word)>, end: bytes) {
    && Blank(end)
    && (forall i :: 0 <= i < |ws| ==> Blank(ws[i].0) && WordOK(ws[i].1))
    && (forall i :: 0 < i < |ws| ==> ws[i].0 != [])
  }

  // ------------------------------------------------------------------ pieces

  lemma NextPiece(p: Piece, rest: bytes, cur: bytes)
    requires PieceOK(p)
    ensures Token(PieceText(p) + rest, Quoted, cur) == Token(rest, Quoted, cur + [PieceValue(p)])
  {
    var t := PieceText(p);
    var s := t + rest;
    assert s[|t|..] == rest;
    assert forall k :: 0 <= k < |t| ==> s[k] == t[k];
    if p.Hex? { assert p.value == 16 * (p.value / 16) + p.value % 16; }
  }

  lemma {:induction false} AllPieces(ps: seq<Piece>, rest: bytes, cur: bytes)
    requires forall i :: 0 <= i < |ps| ==> PieceOK(ps[i])
    ensures Token(PiecesText(ps) + rest, Quoted, cur) == Token(rest, Quoted, cur + PiecesValue(ps))
    decreases |ps|
  {
    hide Token, PieceText, PieceValue;
    if ps == [] {
      assert PiecesText(ps) + rest == rest && cur + PiecesValue(ps) == cur;
    } else {
      var more := PiecesText(ps[1..]) + rest;
      assert PiecesText(ps) + rest == PieceText(ps[0]) + more;
      NextPiece(ps[0], more, cur);
      AllPieces(ps[1..], rest, cur + [PieceValue(ps[0])]);
      assert cur + [PieceValue(ps[0])] + PiecesValue(ps[1..]) == cur + PiecesValue(ps);
    }
  }

  lemma {:induction false} AllBare(a: bytes, rest: bytes, cur: bytes)
    requires BareOK(a)
    ensures Token(a + rest, Plain, cur) == Token(rest, Plain, cur + a)
    decreases |a|
  {
    if a == [] {
      assert a + rest == rest && cur + a == cur;
    } else {
      assert (a + rest)[1..] == a[1..] + rest && (a + rest)[0] == a[0];
      assert Token(a + rest, Plain, cur) == Token(a[1..] + rest, Plain, cur + [a[0]]);
      AllBare(a[1..], rest, cur + [a[0]]);
      assert cur + [a[0]] + a[1..] == cur + a;
    }
  }

  /** One byte of a single-quoted string; a backslash must not stand before the closing quote. */
  lemma NextSingle(s: bytes, rest: bytes, cur: bytes)
    requires s != [] && s[0] != 0 && s != [92]
    ensures Token(SingleBytes(s) + [39] + rest, SingleQuoted, cur) == Token(SingleBytes(s[1..]) + [39] + rest, SingleQuoted, cur + [s[0]])
  {
    var more := SingleBytes(s[1..]) + [39] + rest;
    var e := if s[0] == 39 then [92, 39] else [s[0]];
    var line := SingleBytes(s) + [39] + rest;
    assert line == e + more;
    assert line[|e|..] == more;
    if s[0] == 92 {
      assert SingleBytes(s[1..])[0] == if s[1] == 39 then 92 else s[1];
      assert line[1] == more[0] == SingleBytes(s[1..])[0];
    }
  }

  lemma {:induction false} AllSingle(s: bytes, rest: bytes, cur: bytes)
    requires SingleOK(s) && (rest == [] || IsSpace(rest[0]))
    ensures Token(SingleBytes(s) + [39] + rest, SingleQuoted, cur) == Some((cur + s, rest))
    decreases |s|
  {
    if s == [] {
      assert SingleBytes(s) + [39] + rest == [39] + rest && ([39] + rest)[1..] == rest && cur + s == cur;
    } else {
      NextSingle(s, rest, cur);
      AllSingle(s[1..], rest, cur + [s[0]]);
      assert cur + [s[0]] + s[1..] == cur + s;
    }
  }

  lemma DoubleEnd(rest: bytes, cur: bytes)
    requires rest == [] || IsSpace(rest[0])
    ensures Token([34] + rest, Quoted, cur) == Some((cur, rest))
  {
    assert ([34] + rest)[1..] == rest;
  }

  lemma Opens(q: byte, rest: bytes, cur: bytes)
    requires q == 34 || q == 39
    ensures Token([q] + rest, Plain, cur) == Token(rest, if q == 34 then Quoted else SingleQuoted, cur)
  {
    assert ([q] + rest)[1..] == rest;
  }

  lemma PlainEnd(rest: bytes, cur: bytes)
    requires rest == [] || Stop(rest[0])
    ensures Token(rest, Plain, cur) == Some((cur, if rest == [] then rest else rest[1..]))
  {
  }

  // ------------------------------------------------------------------- words

  /** After a word comes the end of the line, or a blank, which an unquoted word takes with it. */
  lemma OneWord(w: Word, rest: bytes)
    requires WordOK(w) && (rest == [] || Stop(rest[0]))
    ensures Token(WordText(w) + rest, Plain, []) == Some((WordValue(w), if w.tail == NoTail && rest != [] then rest[1..] else rest))
  {
    hide Token, BareOK, PieceOK, SingleOK, PiecesText, PiecesValue, SingleBytes;
    var tail := TailText(w.tail) + rest;
    assert WordText(w) + rest == w.bare + tail;
    AllBare(w.bare, tail, []);
    assert [] + w.bare == w.bare;
    match w.tail {
      case NoTail =>
        assert tail == rest && WordValue(w) == w.bare;
        PlainEnd(rest, w.bare);
      case InDouble(ps) =>
        assert tail == [34] + (PiecesText(ps) + ([34] + rest));
        Opens(34, PiecesText(ps) + ([34] + rest), w.bare);
        AllPieces(ps, [34] + rest, w.bare);
        DoubleEnd(rest, w.bare + PiecesValue(ps));
      case InSingle(s) =>
        assert tail == [39] + (SingleBytes(s) + [39] + rest);
        Opens(39, SingleBytes(s) + [39] + rest, w.bare);
        AllSingle(s, rest, w.bare);
    }
  }

  lemma {:induction false} SkipBlank(a: bytes, rest: bytes)
    requires Blank(a)
    ensures Split(a + rest) == Split(rest)
  {
    if a == [] {
      assert a + rest == rest;
    } else {
      assert (a + rest)[1..] == a[1..] + rest;
      BlankFirst(a + rest);
      SkipBlank(a[1..], rest);
    }
  }

  lemma FirstByte(w: Word)
    requires WordOK(w)
    ensures WordText(w) != [] && WordText(w)[0] != 0 && !IsSpace(WordText(w)[0])
  {
  }

  lemma StartsBlank(ws: seq<(bytes, Word)>, end: bytes)
    requires LineOK(ws, end) && (ws != [] ==> ws[0].0 != [])
    ensures LineText(ws, end) == [] || Stop(LineText(ws, end)[0])
  {
  }

  /** A line that starts with a word is that word and the rest of the line. */
  lemma SplitWord(w: Word, rest: bytes)
    requires WordOK(w) && (rest == [] || Stop(rest[0])) && Split(rest).Some?
    ensures Split(WordText(w) + rest) == Some([WordValue(w)] + Split(rest).value)
  {
    var line := WordText(w) + rest;
    FirstByte(w);
    OneWord(w, rest);
    if rest != [] { BlankFirst(rest); }
    hide Token, WordText, WordValue;
    assert SkipBlanks(line) == line;
  }

  lemma FirstWord(ws: seq<(bytes, Word)>, end: bytes)
    requires ws != []
    ensures LineText(ws, end) == ws[0].0 + (WordText(ws[0].1) + LineText(ws[1..], end))
    ensures LineValues(ws) == [WordValue(ws[0].1)] + LineValues(ws[1..])
  {
    hide WordText, WordValue;
  }

  lemma RestOK(ws: seq<(bytes, Word)>, end: bytes)
    requires LineOK(ws, end) && ws != []
    ensures Blank(ws[0].0) && WordOK(ws[0].1) && LineOK(ws[1..], end) && (|ws| > 1 ==> ws[1..][0].0 != [])
  {
    hide Blank, WordOK;
  }

  /** However its words are spelled and spaced, a line is split into the words. */
  lemma {:induction false} SplitLine(ws: seq<(bytes, Word)>, end: bytes)
    requires LineOK(ws, end)
    ensures Split(LineText(ws, end)) == Some(LineValues(ws))
    decreases |ws|
  {
    if ws == [] {
      SkipBlank(end, []);
      assert end + [] == end && LineValues(ws) == [];
      NothingSplit();
    } else {
      hide Split, WordText, WordValue, WordOK, LineText, LineValues, LineOK;
      var rest := LineText(ws[1..], end);
      FirstWord(ws, end);
      RestOK(ws, end);
      StartsBlank(ws[1..], end);
      SplitLine(ws[1..], end);
      SplitWord(ws[0].1, rest);
      SkipBlank(ws[0].0, WordText(ws[0].1) + rest);
    }
  }

  lemma NothingSplit()
    ensures Split([]) == Some([])
  {
  }

  /** Unquoted words separated by single spaces. */
  function Spaced(words: seq<bytes>): bytes {
    if words == [] then [] else if |words| == 1 then words[0] else words[0] + [32] + Spaced(words[1..])
  }

  function AsWords(words: seq<bytes>): seq<(bytes, Word)> {
    seq(|words|, i requires 0 <= i < |words| => (if i == 0 then [] else [32], Word(words[i], NoTail)))
  }

  lemma {:induction false} SpacedIs(words: seq<bytes>, ws: seq<(bytes, Word)>)
    requires |ws| == |words| && forall i :: 0 <= i < |ws| ==> ws[i].1 == Word(words[i], NoTail) && ws[i].0 == if i == 0 then [] else [32]
    ensures LineText(ws, []) == Spaced(words)
  {
    if |words| > 1 {
      var ws2 := ws[1..][0 := ([], ws[1].1)];
      SpacedIs(words[1..], ws2);
      assert ws2[1..] == ws[1..][1..];
      assert LineText(ws[1..], []) == [32] + LineText(ws2, []);
      assert WordText(ws[0].1) == words[0];
    } else if |words| == 1 {
      assert WordText(ws[0].1) == words[0];
      assert LineText(ws[1..], []) == [];
    }
  }

  /** No blanks, quotes or NUL. */
  predicate PlainWord(word: bytes) {
    word != [] && forall i :: 0 <= i < |word| ==> word[i] != 0 && word[i] != 34 && word[i] != 39 && !IsSpace(word[i])
  }

  lemma PlainWordOK(word: bytes)
    requires PlainWord(word)
    ensures WordOK(Word(word, NoTail)) && WordValue(Word(word, NoTail)) == word
  {
    assert word + [] == word;
  }

  /** Words without blanks, quotes or NUL, joined by spaces, are split into themselves. */
  lemma SplitWords(words: seq<bytes>)
    requires forall i :: 0 <= i < |words| ==> PlainWord(words[i])
    ensures Split(Spaced(words)) == Some(words)
  {
    hide PlainWord, WordOK, Split, Spaced, WordValue, LineText;
    var ws := AsWords(words);
    forall i | 0 <= i < |ws|
      ensures WordOK(ws[i].1) && WordValue(ws[i].1) == words[i]
    {
      PlainWordOK(words[i]);
    }
    SpacedIs(words, ws);
    SplitLine(ws, []);
    assert LineValues(ws) == words;
  }

  // ------------------------------------------------------------ exact cases

  lemma {:induction false} BadSingle(s: bytes, cur: bytes)
    requires !SingleOK(s)
    ensures Token(SingleBytes(s) + [39] + [], SingleQuoted, cur) == None
    decreases |s|
  {
    var line := SingleBytes(s) + [39] + [];
    if s[0] == 0 {
      assert line[0] == 0;
    } else if s == [92] {
      assert SingleBytes(s[1..]) == [];
      assert line == [92, 39];
      assert line[2..] == [];
      assert Token([], SingleQuoted, cur + [39]) == None;
    } else {
      assert s == [s[0]] + s[1..];
      NextSingle(s, [], cur);
      BadSingle(s[1..], cur + [s[0]]);
    }
  }

  /** A line whose first token is wrong. */
  lemma SplitFails(line: bytes)
    requires line != [] && line[0] != 0 && !IsSpace(line[0]) && Token(line, Plain, []) == None
    ensures Split(line) == None
  {
    hide Token;
    assert SkipBlanks(line) == line;
  }

  lemma GoodSingle(s: bytes)
    requires SingleOK(s)
    ensures Split([39] + SingleBytes(s) + [39]) == Some([s])
  {
    hide Split, SingleBytes;
    var w := Word([], InSingle(s));
    assert WordText(w) + [] == [39] + SingleBytes(s) + [39] && WordValue(w) == s;
    NothingSplit();
    SplitWord(w, []);
    assert [s] + [] == [s];
  }

  /** In single quotes, with its quotes escaped, a string reads back exactly when it has no NUL and no backslash at the end. */
  lemma SingleIff(s: bytes)
    ensures Split([39] + SingleBytes(s) + [39]) == Some([s]) <==> 0 !in s && (s != [] ==> s[|s| - 1] != 92)
  {
    hide Token, Split, SingleBytes;
    var line := [39] + SingleBytes(s) + [39];
    if SingleOK(s) {
      GoodSingle(s);
    } else {
      BadSingle(s, []);
      assert line == [39] + (SingleBytes(s) + [39] + []);
      Opens(39, SingleBytes(s) + [39] + [], []);
      SplitFails(line);
    }
  }

  lemma BadEnd(after: bytes, cur: bytes)
    requires after != [] ==> after[0] == 34 && |after| > 1 && after[1] != 0 && !IsSpace(after[1])
    ensures Token(after, Quoted, cur) == None
  {
  }

  /** A double quote that is not closed, or is followed by something other than a blank, is an error. */
  lemma Unbalanced(bare: bytes, ps: seq<Piece>, after: bytes)
    requires WordOK(Word(bare, InDouble(ps))) && (after != [] ==> after[0] == 34 && |after| > 1 && after[1] != 0 && !IsSpace(after[1]))
    ensures Split(bare + [34] + PiecesText(ps) + after) == None
  {
    hide Token, Split, PiecesText, PiecesValue;
    var line := bare + [34] + PiecesText(ps) + after;
    var more := PiecesText(ps) + after;
    assert line == bare + ([34] + more);
    AllBare(bare, [34] + more, []);
    assert [] + bare == bare;
    Opens(34, more, bare);
    AllPieces(ps, after, bare);
    BadEnd(after, bare + PiecesValue(ps));
    assert line[0] == if bare == [] then 34 else bare[0];
    SplitFails(line);
  }
}
