/**
 The wire format of commands (arrays of bulk strings, or inline lines) and the line reader of networking.c.

 string2ll comes from a file that is not part of the repository; it is modelled as the strict decimal
 reader its callers rely on (no sign but '-', no leading zeros, 64-bit range).
 */
module RespWire {
  import opened Basics

  const CR: byte := 13
  const LF: byte := 10
  const STAR: byte := 42
  const DOLLAR: byte := 36
  const CRLF: bytes := [CR, LF]

  const PROTO_INLINE_MAX_SIZE: nat := 64 * 1024
  const PROTO_MBULK_BIG_ARG: nat := 32 * 1024
  const MAX_MULTIBULK: nat := 1024 * 1024
  const LLONG_MAX: nat := 0x7FFF_FFFF_FFFF_FFFF
  const LLONG_MIN: int := -0x8000_0000_0000_0000

  // ------------------------------------------------------------------ decimal

  function Dec(n: nat): (r: bytes)
    ensures r != [] && (forall i :: 0 <= i < |r| ==> 48 <= r[i] <= 57)
    ensures n > 0 ==> r[0] != 48
  {
    if n < 10 then [48 + n] else Dec(n / 10) + [48 + n % 10]
  }

  predicate Digits(s: bytes) {
    forall i :: 0 <= i < |s| ==> 48 <= s[i] <= 57
  }

  function Val(s: bytes): nat
    requires Digits(s)
  {
    if s == [] then 0 else 10 * Val(s[..|s| - 1]) + (s[|s| - 1] - 48)
  }

  function ParseNat(s: bytes): Option<nat> {
    if s != [] && Digits(s) && (|s| == 1 || s[0] != 48) then Some(Val(s)) else None
  }

  function Negated(i: int): int {
    -i
  }

  /** string2ll */
  function ParseLL(s: bytes): Option<int> {
    if s != [] && s[0] == 45 then
      var v := ParseNat(s[1..]);
      if v.Some? && 0 < v.value <= LLONG_MAX + 1 then Some(Negated(v.value)) else None
    else
      var v := ParseNat(s);
      if v.Some? && v.value <= LLONG_MAX then Some(v.value) else None
  }

  lemma {:induction false} ValDec(n: nat)
    ensures Val(Dec(n)) == n
  {
    if n >= 10 {
      ValDec(n / 10);
      var d := Dec(n);
      assert d[..|d| - 1] == Dec(n / 10);
    } else {
      assert Val([48 + n]) == 10 * Val([]) + n by { assert [48 + n][..0] == []; }
    }
  }

  lemma ParseDec(n: nat)
    requires n <= LLONG_MAX
    ensures ParseLL(Dec(n)) == Some(n)
  {
    ValDec(n);
    if n == 0 { assert Dec(0) == [48]; }
  }

  lemma {:induction false} DecVal(s: bytes)
    requires s != [] && Digits(s) && (|s| == 1 || s[0] != 48)
    ensures Dec(Val(s)) == s && (s[0] != 48 ==> Val(s) > 0)
  {
    var m := |s| - 1;
    assert s == s[..m] + [s[m]];
    if m > 0 {
      DecVal(s[..m]);
      assert Val(s) == 10 * Val(s[..m]) + (s[m] - 48);
    } else {
      assert Val(s[..0]) == 0;
    }
  }

  /** A number as printf prints it. */
  function DecText(n: int): bytes {
    if n < 0 then [45] + Dec(-n) else Dec(n)
  }

  lemma ParseNatIff(s: bytes, n: nat)
    ensures ParseNat(s) == Some(n) <==> s == Dec(n)
  {
    ValDec(n);
    if ParseNat(s).Some? { DecVal(s); }
  }

  /** Exactly the printed form of a 64-bit number is read, as that number. */
  lemma ParseLLIff(s: bytes, n: int)
    ensures ParseLL(s) == Some(n) <==> LLONG_MIN <= n <= LLONG_MAX && s == DecText(n)
  {
    hide ParseNat, Dec;
    if s != [] && s[0] == 45 {
      if n < 0 {
        ParseNatIff(s[1..], -n);
        assert s == [45] + s[1..];
        assert s == DecText(n) <==> s[1..] == Dec(-n);
      } else {
        assert Dec(n)[0] != 45;
      }
    } else {
      if n >= 0 { ParseNatIff(s, n); }
    }
  }

  function Pow10(k: nat): nat {
    if k == 0 then 1 else 10 * Pow10(k - 1)
  }

  lemma {:induction false} DecLength(n: nat, k: nat)
    requires 0 < k && n < Pow10(k)
    ensures |Dec(n)| <= k
    decreases k
  {
    assert Pow10(1) == 10;
    if n >= 10 { DecLength(n / 10, k - 1); }
  }

  lemma DecShort(n: nat)
    requires n <= LLONG_MAX
    ensures |Dec(n)| <= 19
  {
    assert Pow10(4) == 10000;
    assert Pow10(8) == 10000 * Pow10(4);
    assert Pow10(12) == 10000 * Pow10(8);
    assert Pow10(16) == 10000 * Pow10(12);
    assert Pow10(19) == 1000 * Pow10(16);
    DecLength(n, 19);
  }

  // --------------------------------------------------------------- the format

  function Header(c: byte, n: nat): bytes {
    [c] + Dec(n) + CRLF
  }

  function EncArg(a: bytes): bytes {
    Header(DOLLAR, |a|) + a + CRLF
  }

  function EncArgs(args: seq<bytes>): bytes {
    if args == [] then [] else EncArg(args[0]) + EncArgs(args[1..])
  }

  /** A command as an array of bulk strings. */
  function EncArray(args: seq<bytes>): bytes {
    Header(STAR, |args|) + EncArgs(args)
  }

  /** A command as a client may send it: an array, or a line of text. */
  datatype Command = Array(args: seq<bytes>) | Text(line: bytes)

  function Enc(cmd: Command): (r: bytes)
    ensures r != []
  {
    match cmd
    case Array(args) => EncArray(args)
    case Text(line) => line + [LF]
  }

  function EncAll(cmds: seq<Command>): bytes {
    if cmds == [] then [] else Enc(cmds[0]) + EncAll(cmds[1..])
  }

  lemma {:induction false} EncAllAppend(a: seq<Command>, b: seq<Command>)
    ensures EncAll(a + b) == EncAll(a) + EncAll(b)
  {
    hide Enc;
    if a == [] {
      assert a + b == b;
    } else {
      EncAllAppend(a[1..], b);
      assert (a + b)[1..] == a[1..] + b;
      var x, y, z := Enc(a[0]), EncAll(a[1..]), EncAll(b);
      assert x + (y + z) == x + y + z;
    }
  }

  lemma EncAllSplit(cmds: seq<Command>, k: nat)
    requires k <= |cmds|
    ensures EncAll(cmds) == EncAll(cmds[..k]) + EncAll(cmds[k..])
  {
    hide EncAll;
    EncAllAppend(cmds[..k], cmds[k..]);
    assert cmds[..k] + cmds[k..] == cmds;
  }

  // -------------------------------------------------------------- line reading

  /** strchr: the first `b` before the NUL that ends the string. */
  function StrChr(s: bytes, b: byte): (r: Option<nat>)
    requires b != 0
    ensures r.Some? ==> r.value < |s| && s[r.value] == b && forall i :: 0 <= i < r.value ==> s[i] != b && s[i] != 0
  {
    if s == [] || s[0] == 0 then None
    else if s[0] == b then Some(0)
    else
      var r := StrChr(s[1..], b);
      if r.None? then None else Some(r.value + 1)
  }

  lemma {:induction false} StrChrFinds(s: bytes, b: byte, k: nat)
    requires b != 0 && k < |s| && s[k] == b && forall i :: 0 <= i < k ==> s[i] != b && s[i] != 0
    ensures StrChr(s, b) == Some(k)
  {
    if k > 0 {
      assert forall i :: 0 <= i < k - 1 ==> s[1..][i] == s[i + 1];
      StrChrFinds(s[1..], b, k - 1);
    }
  }

  lemma {:induction false} StrChrMisses(s: bytes, b: byte)
    requires b != 0 && b !in s
    ensures StrChr(s, b).None?
  {
    if s != [] && s[0] != 0 { StrChrMisses(s[1..], b); }
  }

  datatype LineResult = Incomplete | TooBig | Line(number: Option<int>, len: nat)

  /** A `*<n>` or `$<n>` line at the start of the unread bytes. */
  function ReadLine(u: bytes): (r: LineResult)
    ensures r.Line? ==> r.len <= |u| && r.len >= 2
  {
    var newline := StrChr(u, CR);
    if newline.None? then if |u| > PROTO_INLINE_MAX_SIZE then TooBig else Incomplete
    else if newline.value > |u| - 2 then Incomplete
    else Line(if newline.value == 0 then None else ParseLL(u[1..newline.value]), newline.value + 2)
  }

  /** A complete header is read back exactly. */
  lemma ReadLineFull(c: byte, n: nat, u: bytes)
    requires c != CR && c != 0 && n <= LLONG_MAX && Header(c, n) <= u
    ensures ReadLine(u) == Line(Some(n), |Header(c, n)|)
  {
    var h := Header(c, n);
    var k := 1 + |Dec(n)|;
    assert forall i :: 0 <= i < |h| ==> u[i] == h[i];
    assert forall i :: 1 <= i < k ==> h[i] == Dec(n)[i - 1];
    StrChrFinds(u, CR, k);
    assert u[1..k] == Dec(n);
    ParseDec(n);
  }

  /** Part of a header is not mistaken for anything else, however it was cut. */
  lemma ReadLinePart(c: byte, n: nat, u: bytes)
    requires c != CR && c != 0 && n <= LLONG_MAX && u <= Header(c, n) && |u| < |Header(c, n)|
    ensures ReadLine(u) == Incomplete
  {
    var h := Header(c, n);
    var k := 1 + |Dec(n)|;
    DecShort(n);
    assert forall i :: 0 <= i < |u| ==> u[i] == h[i];
    assert forall i :: 1 <= i < k ==> h[i] == Dec(n)[i - 1];
    if |u| <= k {
      StrChrMisses(u, CR);
    } else {
      StrChrFinds(u, CR, k);
    }
  }
}
