/**
 * Decimal text for the numeric fields of the catalog file: the `%d` and
 * `%.1f` conversions used when saving, and the `%d` and `%f` conversions
 * used when loading.
 */
module Decimal {
  import opened Options

  predicate IsDigit(c: char) {
    '0' <= c <= '9'
  }

  predicate AllDigits(s: string) {
    forall i :: 0 <= i < |s| ==> IsDigit(s[i])
  }

  function DigitChar(d: nat): (c: char)
    requires d < 10
    ensures IsDigit(c) && DigitValue(c) == d
  {
    (d + '0' as int) as char
  }

  function DigitValue(c: char): (d: nat)
    requires IsDigit(c)
    ensures d < 10
  {
    c as int - '0' as int
  }

  /** The digits of `n`, most significant first, with no leading zeros. */
  function NatToString(n: nat): (s: string)
    ensures |s| > 0 && AllDigits(s)
    ensures |s| > 1 ==> s[0] != '0'
  {
    if n < 10 then [DigitChar(n)] else NatToString(n / 10) + [DigitChar(n % 10)]
  }

  /** The number a run of digits denotes. */
  function DigitsValue(s: string): nat
    requires AllDigits(s)
  {
    if |s| == 0 then 0 else 10 * DigitsValue(s[..|s| - 1]) + DigitValue(s[|s| - 1])
  }

  /** Length of the longest prefix of `s` made of digits. */
  function DigitRun(s: string): (k: nat)
    ensures k <= |s| && forall i :: 0 <= i < k ==> IsDigit(s[i])
    ensures k < |s| ==> !IsDigit(s[k])
  {
    if |s| > 0 && IsDigit(s[0]) then 1 + DigitRun(s[1..]) else 0
  }

  /** `%d` without a sign: a non-empty digit run, its value and what follows it. */
  function ReadNat(s: string): Option<(nat, string)> {
    var k := DigitRun(s);
    if k == 0 then None else Some((DigitsValue(s[..k]), s[k..]))
  }

  /** The characters `isspace` accepts in the C locale. */
  predicate IsBlank(c: char) {
    c == ' ' || c == '\t' || c == '\n' || c == '\r' || c as int == 11 || c as int == 12
  }

  predicate AllBlank(s: string) {
    forall i :: 0 <= i < |s| ==> IsBlank(s[i])
  }

  /** The white space a numeric conversion skips before the number. */
  function SkipBlanks(s: string): (r: string)
    ensures |r| <= |s| && r == s[|s| - |r|..]
    ensures forall i :: 0 <= i < |s| - |r| ==> IsBlank(s[i])
    ensures |r| > 0 ==> !IsBlank(r[0])
  {
    if |s| > 0 && IsBlank(s[0]) then SkipBlanks(s[1..]) else s
  }

  /** `%d`: white space, an optional sign and a non-empty digit run. */
  function ReadInt(s: string): Option<(int, string)> {
    ReadSignedInt(SkipBlanks(s))
  }

  /** `%d` once the white space is skipped. */
  function ReadSignedInt(s: string): Option<(int, string)> {
    if |s| > 0 && (s[0] == '-' || s[0] == '+') then
      var p :- ReadNat(s[1..]);
      var v: int := if s[0] == '-' then -(p.0 as int) else p.0;
      Some((v, p.1))
    else
      var p :- ReadNat(s);
      Some((p.0, p.1))
  }

  /** `%d` when writing. */
  function FormatInt(i: int): (s: string)
    ensures |s| > 0
  {
    if i < 0 then "-" + NatToString(-i) else NatToString(i)
  }

  /** `%.1f` of a value held exactly in tenths. */
  function FormatTenths(t: int): (s: string)
    ensures |s| > 0
  {
    if t < 0 then "-" + UnsignedTenthsText(-t) else UnsignedTenthsText(t)
  }

  /**
   * `%f` read into tenths: white space, an optional sign, then the unsigned
   * part read by `ReadUnsignedTenths`; whatever follows the number is ignored.
   */
  function ReadTenths(s: string): Option<int> {
    ReadSignedTenths(SkipBlanks(s))
  }

  /** `%f` once the white space is skipped. */
  function ReadSignedTenths(s: string): Option<int> {
    var signed := |s| > 0 && (s[0] == '-' || s[0] == '+');
    var mag :- ReadUnsignedTenths(if signed then s[1..] else s);
    Some(if signed && s[0] == '-' then -(mag as int) else mag)
  }

  /**
   * A digit run, and optionally a point and a second digit run, with at
   * least one digit in all; only the first digit after the point is kept.
   */
  function ReadUnsignedTenths(s: string): Option<nat> {
    var w := DigitRun(s);
    var tail := s[w..];
    var f := if |tail| > 0 && tail[0] == '.' then DigitRun(tail[1..]) else 0;
    if w == 0 && f == 0 then None
    else Some(10 * DigitsValue(s[..w]) + (if f > 0 then DigitValue(tail[1]) else 0))
  }

  lemma {:induction false} DigitsValueOfNatToString(n: nat)
    ensures DigitsValue(NatToString(n)) == n
  {
    if n >= 10 {
      var s := NatToString(n);
      assert s[..|s| - 1] == NatToString(n / 10);
      DigitsValueOfNatToString(n / 10);
    }
  }

  /** The digit run of `a + b` stops exactly at the end of the digits `a`. */
  lemma {:induction false} DigitRunOfConcat(a: string, b: string)
    requires AllDigits(a)
    requires |b| == 0 || !IsDigit(b[0])
    ensures DigitRun(a + b) == |a|
  {
    if |a| > 0 {
      assert (a + b)[1..] == a[1..] + b;
      DigitRunOfConcat(a[1..], b);
    }
  }

  /** `%d` consumes at least one character and leaves a suffix of its input. */
  lemma ReadIntLeavesSuffix(s: string)
    requires ReadInt(s).Some?
    ensures var rest := ReadInt(s).value.1;
      |rest| < |s| && rest == s[|s| - |rest|..]
  {
  }

  /** A digit run followed by a non-digit reads as the run's value and what follows. */
  lemma ReadNatOfDigits(d: string, rest: string)
    requires |d| > 0 && AllDigits(d)
    requires |rest| == 0 || !IsDigit(rest[0])
    ensures ReadNat(d + rest) == Some((DigitsValue(d), rest))
  {
    DigitRunOfConcat(d, rest);
    assert (d + rest)[..|d|] == d;
    assert (d + rest)[|d|..] == rest;
  }

  /** Reading back a written natural number gives the number and the rest. */
  lemma ReadNatOfFormat(n: nat, rest: string)
    requires |rest| == 0 || !IsDigit(rest[0])
    ensures ReadNat(NatToString(n) + rest) == Some((n, rest))
  {
    ReadNatOfDigits(NatToString(n), rest);
    DigitsValueOfNatToString(n);
  }

  /** Text that starts with a non-blank has no white space to skip. */
  lemma SkipNothing(s: string)
    requires |s| > 0 && !IsBlank(s[0])
    ensures SkipBlanks(s) == s
  {
  }

  lemma ReadIntUnsigned(s: string, n: nat, rest: string)
    requires |s| > 0 && IsDigit(s[0])
    requires ReadNat(s) == Some((n, rest))
    ensures ReadInt(s) == Some((n as int, rest))
  {
    SkipNothing(s);
  }

  lemma ReadIntNegative(s: string, n: nat, rest: string)
    requires |s| > 0 && s[0] == '-'
    requires ReadNat(s[1..]) == Some((n, rest))
    ensures ReadInt(s) == Some((-(n as int), rest))
  {
    SkipNothing(s);
  }

  lemma ReadIntOfNatString(n: nat, rest: string)
    requires |rest| == 0 || !IsDigit(rest[0])
    ensures ReadInt(NatToString(n) + rest) == Some((n as int, rest))
  {
    var s := NatToString(n);
    ReadNatOfFormat(n, rest);
    assert (s + rest)[0] == s[0];
    ReadIntUnsigned(s + rest, n, rest);
  }

  lemma ReadIntOfFormatNegative(i: int, rest: string)
    requires i < 0
    requires |rest| == 0 || !IsDigit(rest[0])
    ensures ReadInt(FormatInt(i) + rest) == Some((i, rest))
  {
    FormatIntNegative(i, rest);
    ReadNatOfFormat(-i, rest);
    ReadIntNegative(FormatInt(i) + rest, -i, rest);
  }

  lemma FormatIntNegative(i: int, rest: string)
    requires i < 0
    ensures |FormatInt(i) + rest| > 0 && (FormatInt(i) + rest)[0] == '-'
    ensures (FormatInt(i) + rest)[1..] == NatToString(-i) + rest
  {
    var s := FormatInt(i) + rest;
    assert s == "-" + (NatToString(-i) + rest);
  }

  /** `%d` reads back what `%d` wrote, whatever non-digit text follows. */
  lemma ReadIntOfFormat(i: int, rest: string)
    requires |rest| == 0 || !IsDigit(rest[0])
    ensures ReadInt(FormatInt(i) + rest) == Some((i, rest))
  {
    if i < 0 {
      ReadIntOfFormatNegative(i, rest);
    } else {
      ReadIntOfNatString(i, rest);
    }
  }

  /** A digit run, a point and a digit: the run in tenths plus the digit. */
  lemma ReadUnsignedTenthsOfPoint(s: string, k: nat)
    requires DigitRun(s) == k
    requires k + 1 < |s| && s[k] == '.' && IsDigit(s[k + 1])
    ensures ReadUnsignedTenths(s) == Some(10 * DigitsValue(s[..k]) + DigitValue(s[k + 1]))
  {
    var tail := s[k..];
    assert tail[1..][0] == s[k + 1];
    DigitRunPositive(tail[1..]);
  }

  lemma DigitRunPositive(s: string)
    requires |s| > 0 && IsDigit(s[0])
    ensures DigitRun(s) > 0
  {
  }

  /** The unsigned part of `%.1f` reads back as the tenths it was written from. */
  lemma ReadUnsignedTenthsOfFormat(m: nat, rest: string)
    ensures ReadUnsignedTenths(UnsignedTenthsText(m) + rest) == Some(m)
  {
    var w := NatToString(m / 10);
    var after := "." + [DigitChar(m % 10)] + rest;
    var s := w + after;
    assert UnsignedTenthsText(m) + rest == s;
    DigitRunOfConcat(w, after);
    assert s[|w|] == '.' && s[|w| + 1] == DigitChar(m % 10);
    ReadUnsignedTenthsOfPoint(s, |w|);
    assert s[..|w|] == w;
    DigitsValueOfNatToString(m / 10);
  }

  /** The text `%.1f` writes for `-t` or `t`, without its sign. */
  function UnsignedTenthsText(m: nat): string {
    NatToString(m / 10) + "." + [DigitChar(m % 10)]
  }

  lemma FormatTenthsNegative(t: int, rest: string)
    requires t < 0
    ensures FormatTenths(t) + rest == "-" + (UnsignedTenthsText(-t) + rest)
  {
  }

  lemma ReadTenthsNegative(s: string, u: string, t: int)
    requires t <= 0
    requires |s| > 0 && s[0] == '-' && s[1..] == u
    requires ReadUnsignedTenths(u) == Some(-t)
    ensures ReadTenths(s) == Some(t)
  {
    SkipNothing(s);
  }

  lemma ReadTenthsUnsigned(s: string, m: nat)
    requires |s| > 0 && IsDigit(s[0])
    requires ReadUnsignedTenths(s) == Some(m)
    ensures ReadTenths(s) == Some(m as int)
  {
    SkipNothing(s);
  }

  lemma ReadTenthsOfNegatedText(t: int, rest: string)
    requires t <= 0
    ensures ReadTenths("-" + (UnsignedTenthsText(-t) + rest)) == Some(t)
  {
    var u := UnsignedTenthsText(-t) + rest;
    ReadUnsignedTenthsOfFormat(-t, rest);
    assert ("-" + u)[1..] == u;
    ReadTenthsNegative("-" + u, u, t);
  }

  lemma ReadTenthsOfFormatNegative(t: int, rest: string)
    requires t < 0
    ensures ReadTenths(FormatTenths(t) + rest) == Some(t)
  {
    FormatTenthsNegative(t, rest);
    ReadTenthsOfNegatedText(t, rest);
  }

  lemma ReadTenthsOfFormatNonNegative(t: int, rest: string)
    requires t >= 0
    ensures ReadTenths(FormatTenths(t) + rest) == Some(t)
  {
    var u := UnsignedTenthsText(t) + rest;
    ReadUnsignedTenthsOfFormat(t, rest);
    assert u[0] == NatToString(t / 10)[0];
    ReadTenthsUnsigned(u, t);
  }

  /** `%f` reads back the tenths that `%.1f` wrote, whatever follows. */
  lemma ReadTenthsOfFormat(t: int, rest: string)
    ensures ReadTenths(FormatTenths(t) + rest) == Some(t)
  {
    if t < 0 {
      ReadTenthsOfFormatNegative(t, rest);
    } else {
      ReadTenthsOfFormatNonNegative(t, rest);
    }
  }

  /** The white space before a non-blank character is skipped, and nothing more. */
  lemma {:induction false} SkipBlanksOfConcat(w: string, x: string)
    requires AllBlank(w)
    requires |x| > 0 && !IsBlank(x[0])
    ensures SkipBlanks(w + x) == x
  {
    if |w| > 0 {
      assert (w + x)[0] == w[0];
      assert (w + x)[1..] == w[1..] + x;
      SkipBlanksOfConcat(w[1..], x);
    } else {
      assert w + x == x;
    }
  }

  /** The sign text `%d` and `%f` accept before the digits. */
  predicate IsSign(sg: string) {
    sg == "" || sg == "-" || sg == "+"
  }

  /**
   * `s` splits as white space `w`, a sign `sg`, a non-empty digit run `d`
   * and text `rest` that does not continue the digits.
   */
  predicate IntParts(w: string, sg: string, d: string, rest: string) {
    AllBlank(w) && IsSign(sg) && |d| > 0 && AllDigits(d) && (|rest| == 0 || !IsDigit(rest[0]))
  }

  function SignedValue(sg: string, d: string): int
    requires AllDigits(d)
  {
    if sg == "-" then -(DigitsValue(d) as int) else DigitsValue(d)
  }

  lemma ReadSignedIntOfParts(sg: string, d: string, rest: string)
    requires IntParts("", sg, d, rest)
    ensures ReadSignedInt(sg + d + rest) == Some((SignedValue(sg, d), rest))
  {
    ReadNatOfDigits(d, rest);
    SignSplit(sg, d, rest);
  }

  /** A sign in front of `a + b` is the first character, and dropping it leaves `a + b`. */
  lemma SignSplit(sg: string, a: string, b: string)
    requires IsSign(sg)
    ensures sg == "" ==> sg + a + b == a + b
    ensures sg != "" ==> (sg + a + b)[0] == sg[0] && (sg + a + b)[1..] == a + b
  {
    assert sg + a + b == sg + (a + b);
  }

  /** `b` cut at `k`, and the rest cut again at `n`. */
  lemma SplitThree(b: string, k: nat, n: nat)
    requires k <= |b| && n <= |b| - k
    ensures b == b[..k] + b[k..][..n] + b[k..][n..]
  {
    assert b[k..] == b[k..][..n] + b[k..][n..];
  }

  /** Text made of white space, a sign, digits and a non-digit reads as the signed digits. */
  lemma ReadIntOfParts(w: string, sg: string, d: string, rest: string)
    requires IntParts(w, sg, d, rest)
    ensures ReadInt(w + sg + d + rest) == Some((SignedValue(sg, d), rest))
  {
    var x := sg + d + rest;
    assert x[0] == if sg == "" then d[0] else sg[0];
    assert w + sg + d + rest == w + x;
    SkipBlanksOfConcat(w, x);
    assert IntParts("", sg, d, rest);
    ReadSignedIntOfParts(sg, d, rest);
  }

  /** Whatever `%d` reads splits as white space, a sign, digits and the rest. */
  lemma ReadIntParts(s: string, v: int, rest: string)
    requires ReadInt(s) == Some((v, rest))
    ensures exists w, sg, d :: s == w + sg + d + rest && IntParts(w, sg, d, rest) && v == SignedValue(sg, d)
  {
    var w, sg, d := ReadIntSplit(s, v, rest);
  }

  lemma ReadIntSplit(s: string, v: int, rest: string) returns (w: string, sg: string, d: string)
    requires ReadInt(s) == Some((v, rest))
    ensures s == w + sg + d + rest && IntParts(w, sg, d, rest) && v == SignedValue(sg, d)
  {
    w := BlankPrefix(s);
    sg, d := ReadSignedIntParts(SkipBlanks(s), v, rest);
    Regroup(w, sg, d, rest);
    assert IntParts(w, sg, d, rest);
  }

  /**
   * The groupings of a four-part text that the proofs here move between;
   * stated apart so that the solver meets them without the conversions in scope.
   */
  lemma Regroup(a: string, b: string, c: string, d: string)
    ensures a + (b + c + d) == a + b + c + d
    ensures a + (b + (c + d)) == a + b + c + d
    ensures b + c + d == b + (c + d)
  {
  }

  /** The white space `SkipBlanks` removes. */
  lemma BlankPrefix(s: string) returns (w: string)
    ensures s == w + SkipBlanks(s) && AllBlank(w)
  {
    w := s[..|s| - |SkipBlanks(s)|];
  }

  /** The split of an unpadded `%d` read into sign and digits. */
  lemma ReadSignedIntParts(b: string, v: int, rest: string) returns (sg: string, d: string)
    requires ReadSignedInt(b) == Some((v, rest))
    ensures b == sg + d + rest && IsSign(sg) && |d| > 0 && AllDigits(d)
    ensures |rest| == 0 || !IsDigit(rest[0])
    ensures v == SignedValue(sg, d)
  {
    var k := if |b| > 0 && (b[0] == '-' || b[0] == '+') then 1 else 0;
    var t := b[k..];
    SignedDigitsNonEmpty(b, v, rest);
    var n := DigitRun(t);
    sg, d := b[..k], t[..n];
    var r := t[n..];
    SplitThree(b, k, n);
    assert IntParts("", sg, d, r);
    ReadSignedIntOfParts(sg, d, r);
  }

  lemma SignedDigitsNonEmpty(b: string, v: int, rest: string)
    requires ReadSignedInt(b) == Some((v, rest))
    ensures DigitRun(b[if |b| > 0 && (b[0] == '-' || b[0] == '+') then 1 else 0..]) > 0
  {
  }

  /**
   * `%d` reads `v` and leaves `rest` exactly when the text is white space,
   * an optional sign and a digit run denoting `v`, followed by `rest`,
   * which does not start with a digit.
   */
  lemma ReadIntIff(s: string, v: int, rest: string)
    ensures ReadInt(s) == Some((v, rest)) <==>
      exists w, sg, d :: s == w + sg + d + rest && IntParts(w, sg, d, rest) && v == SignedValue(sg, d)
  {
    if ReadInt(s) == Some((v, rest)) {
      ReadIntParts(s, v, rest);
    }
    if exists w, sg, d :: s == w + sg + d + rest && IntParts(w, sg, d, rest) && v == SignedValue(sg, d) {
      var w, sg, d :| s == w + sg + d + rest && IntParts(w, sg, d, rest) && v == SignedValue(sg, d);
      ReadIntOfParts(w, sg, d, rest);
    }
  }

  /** A point followed by a digit: the fraction `%f` takes the first digit of. */
  predicate PointDigit(rest: string) {
    |rest| > 1 && rest[0] == '.' && IsDigit(rest[1])
  }

  /**
   * White space `w`, a sign `sg`, an integer digit run `ip` and text
   * `rest` that does not continue the digits, with a digit in `ip` or
   * right after a point at the start of `rest`.
   */
  predicate TenthsParts(w: string, sg: string, ip: string, rest: string) {
    AllBlank(w) && IsSign(sg) && AllDigits(ip) && (|rest| == 0 || !IsDigit(rest[0]))
    && (|ip| > 0 || PointDigit(rest))
  }

  /** Tenths of the magnitude `ip` and the point digit at the start of `rest` denote. */
  function UnsignedTenthsValue(ip: string, rest: string): nat
    requires AllDigits(ip)
  {
    10 * DigitsValue(ip) + (if PointDigit(rest) then DigitValue(rest[1]) else 0)
  }

  function TenthsValue(sg: string, ip: string, rest: string): int
    requires AllDigits(ip)
  {
    if sg == "-" then -(UnsignedTenthsValue(ip, rest) as int) else UnsignedTenthsValue(ip, rest)
  }

  lemma ReadUnsignedTenthsOfParts(ip: string, rest: string)
    requires AllDigits(ip) && (|rest| == 0 || !IsDigit(rest[0]))
    ensures ReadUnsignedTenths(ip + rest) ==
      if |ip| > 0 || PointDigit(rest) then Some(UnsignedTenthsValue(ip, rest)) else None
  {
    DigitRunOfConcat(ip, rest);
    assert (ip + rest)[..|ip|] == ip;
    assert (ip + rest)[|ip|..] == rest;
    if |rest| > 0 && rest[0] == '.' {
      assert DigitRun(rest[1..]) > 0 <==> PointDigit(rest);
    }
  }

  lemma ReadSignedTenthsOfParts(sg: string, ip: string, rest: string)
    requires TenthsParts("", sg, ip, rest)
    ensures ReadSignedTenths(sg + (ip + rest)) == Some(TenthsValue(sg, ip, rest))
  {
    var y := ip + rest;
    var m := UnsignedTenthsValue(ip, rest);
    ReadUnsignedTenthsOfParts(ip, rest);
    assert y[0] == if |ip| > 0 then ip[0] else rest[0];
    ReadSignedTenthsOfSign(sg, y, m);
    assert TenthsValue(sg, ip, rest) == if sg == "-" then -(m as int) else m;
  }

  /** `%f` with the sign `sg` in front of unsigned text `y`. */
  lemma ReadSignedTenthsOfSign(sg: string, y: string, m: nat)
    requires IsSign(sg) && |y| > 0 && y[0] != '-' && y[0] != '+'
    requires ReadUnsignedTenths(y) == Some(m)
    ensures ReadSignedTenths(sg + y) == Some(if sg == "-" then -(m as int) else m)
  {
    if sg == "" {
      assert sg + y == y;
    } else {
      DropSign(sg, y);
    }
  }

  lemma DropSign(sg: string, y: string)
    requires |sg| == 1
    ensures (sg + y)[0] == sg[0] && (sg + y)[1..] == y
  {
  }

  /** Text made of white space, a sign, digits and an optional point digit reads as that decimal. */
  lemma ReadTenthsOfParts(w: string, sg: string, ip: string, rest: string)
    requires TenthsParts(w, sg, ip, rest)
    ensures ReadTenths(w + sg + ip + rest) == Some(TenthsValue(sg, ip, rest))
  {
    var x := sg + (ip + rest);
    assert x[0] == if sg != "" then sg[0] else if |ip| > 0 then ip[0] else rest[0];
    Regroup(w, sg, ip, rest);
    SkipBlanksOfConcat(w, x);
    assert TenthsParts("", sg, ip, rest);
    ReadSignedTenthsOfParts(sg, ip, rest);
  }

  /** The split of an unpadded `%f` read into sign, integer digits and what follows them. */
  lemma ReadSignedTenthsParts(b: string, v: int) returns (sg: string, ip: string, rest: string)
    requires ReadSignedTenths(b) == Some(v)
    ensures b == sg + ip + rest && TenthsParts("", sg, ip, rest)
    ensures v == TenthsValue(sg, ip, rest)
  {
    var u;
    sg, u := TenthsSignSplit(b, v);
    ip, rest := UnsignedTenthsSplit(u);
    ReadSignedTenthsOfParts(sg, ip, rest);
    Regroup("", sg, ip, rest);
  }

  lemma TenthsSignSplit(b: string, v: int) returns (sg: string, u: string)
    requires ReadSignedTenths(b) == Some(v)
    ensures b == sg + u && IsSign(sg) && ReadUnsignedTenths(u).Some?
  {
    var k := if |b| > 0 && (b[0] == '-' || b[0] == '+') then 1 else 0;
    sg, u := b[..k], b[k..];
    assert b == sg + u;
  }

  lemma UnsignedTenthsSplit(u: string) returns (ip: string, rest: string)
    requires ReadUnsignedTenths(u).Some?
    ensures u == ip + rest && AllDigits(ip) && (|rest| == 0 || !IsDigit(rest[0]))
    ensures |ip| > 0 || PointDigit(rest)
  {
    var n := DigitRun(u);
    ip, rest := u[..n], u[n..];
    assert u == ip + rest;
    ReadUnsignedTenthsOfParts(ip, rest);
  }

  /** Whatever `%f` reads splits as white space, a sign, digits and the rest. */
  lemma ReadTenthsParts(s: string, v: int)
    requires ReadTenths(s) == Some(v)
    ensures exists w, sg, ip, rest :: s == w + sg + ip + rest && TenthsParts(w, sg, ip, rest) && v == TenthsValue(sg, ip, rest)
  {
    var w := BlankPrefix(s);
    var sg, ip, rest := ReadSignedTenthsParts(SkipBlanks(s), v);
    Regroup(w, sg, ip, rest);
    assert TenthsParts(w, sg, ip, rest);
  }

  /**
   * `%f` reads `v` (in tenths) exactly when the text is white space, an
   * optional sign, a digit run and optionally a point and digits, with at
   * least one digit, and `v` is what they denote to one decimal place.
   */
  lemma ReadTenthsIff(s: string, v: int)
    ensures ReadTenths(s) == Some(v) <==>
      exists w, sg, ip, rest :: s == w + sg + ip + rest && TenthsParts(w, sg, ip, rest) && v == TenthsValue(sg, ip, rest)
  {
    if ReadTenths(s) == Some(v) {
      ReadTenthsParts(s, v);
    }
    if exists w, sg, ip, rest :: s == w + sg + ip + rest && TenthsParts(w, sg, ip, rest) && v == TenthsValue(sg, ip, rest) {
      var w, sg, ip, rest :| s == w + sg + ip + rest && TenthsParts(w, sg, ip, rest) && v == TenthsValue(sg, ip, rest);
      ReadTenthsOfParts(w, sg, ip, rest);
    }
  }

  /** The text `%d` consumed reads on its own as the same number, leaving nothing. */
  lemma ReadIntPrefix(s: string, v: int, rest: string)
    requires ReadInt(s) == Some((v, rest))
    ensures |rest| <= |s| && s == s[..|s| - |rest|] + rest
    ensures ReadInt(s[..|s| - |rest|]) == Some((v, ""))
  {
    var w, sg, d := ReadIntSplit(s, v, rest);
    assert s[..|s| - |rest|] == w + sg + d;
    assert w + sg + d + "" == w + sg + d;
    ReadIntOfParts(w, sg, d, "");
  }

  /** Text that `%d` reads completely still reads the same with a non-digit after it. */
  lemma ReadIntAppend(a: string, v: int, t: string)
    requires ReadInt(a) == Some((v, ""))
    requires |t| == 0 || !IsDigit(t[0])
    ensures ReadInt(a + t) == Some((v, t))
  {
    var w, sg, d := ReadIntSplit(a, v, "");
    assert a == w + sg + d;
    assert a + t == w + sg + d + t;
    ReadIntOfParts(w, sg, d, t);
  }
}
