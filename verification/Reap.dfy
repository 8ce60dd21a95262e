/** The user program that waits once and prints what it got. */
module Reap {
  import opened Words
  import opened ExitStatus

  const MINUS: byte := 0x2D
  const ZERO: byte := 0x30

  // ---------------------------------------------------------------- decimal numbers

  function Digits(x: nat): (d: bytes)
    ensures |d| >= 1
  {
    if x < 10 then [ZERO + x] else Digits(x / 10) + [ZERO + x % 10]
  }

  function Decimal(v: int): bytes {
    if v < 0 then [MINUS] + Digits(-v) else Digits(v)
  }

  predicate IsDigit(b: byte) {
    ZERO <= b <= ZERO + 9
  }

  /** A decimal numeral without sign: digits only, no leading zero but for zero itself. */
  predicate IsNumeral(s: bytes) {
    |s| >= 1 && (forall k :: 0 <= k < |s| ==> IsDigit(s[k])) && (s[0] == ZERO ==> |s| == 1)
  }

  predicate IsCanonical(s: bytes) {
    if |s| >= 1 && s[0] == MINUS then IsNumeral(s[1..]) && s[1] != ZERO else IsNumeral(s)
  }

  function DigitValue(b: byte): nat
    requires IsDigit(b)
  {
    var v: int := b;
    v - 0x30
  }

  function ParseNat(s: bytes): nat
    requires forall k :: 0 <= k < |s| ==> IsDigit(s[k])
  {
    if s == [] then 0 else ParseNat(s[..|s| - 1]) * 10 + DigitValue(s[|s| - 1])
  }

  function ParseInt(s: bytes): int
    requires IsCanonical(s)
  {
    if s[0] == MINUS then 0 - ParseNat(s[1..]) else ParseNat(s)
  }

  lemma {:induction false} DigitsParse(x: nat)
    ensures IsNumeral(Digits(x)) && ParseNat(Digits(x)) == x && (Digits(x)[0] == ZERO <==> x == 0)
  {
    if x < 10 {
      assert Digits(x)[..0] == [];
    } else {
      DigitsParse(x / 10);
      var d := Digits(x / 10);
      assert (d + [ZERO + x % 10])[..|d|] == d;
    }
  }

  /** Every numeral is the digits of its value. */
  lemma {:induction false} NumeralUnique(s: bytes)
    requires IsNumeral(s)
    ensures s == Digits(ParseNat(s))
    decreases |s|
  {
    var n := |s| - 1;
    assert s == s[..n] + [s[n]];
    if n == 0 {
      assert s[..0] == [];
    } else {
      NumeralUnique(s[..n]);
      DigitsParse(ParseNat(s[..n]));
      var h, r := ParseNat(s[..n]), s[n] - ZERO;
      assert s[..n][0] == s[0];
      assert (h * 10 + r) / 10 == h && (h * 10 + r) % 10 == r;
    }
  }

  /** The decimal form is canonical, parses back to its number, and is the only such form. */
  lemma {:induction false} DecimalRoundTrip(v: int)
    ensures IsCanonical(Decimal(v)) && ParseInt(Decimal(v)) == v
    ensures forall s :: IsCanonical(s) && ParseInt(s) == v ==> s == Decimal(v)
  {
    DigitsParse(if v < 0 then -v else v);
    if v < 0 {
      assert Decimal(v)[1..] == Digits(-v);
    }
    forall s | IsCanonical(s) && ParseInt(s) == v
      ensures s == Decimal(v)
    {
      if s[0] == MINUS {
        NumeralUnique(s[1..]);
        DigitsParse(ParseNat(s[1..]));
        assert s == [MINUS] + s[1..];
      } else {
        NumeralUnique(s);
      }
    }
  }

  function Pow10(n: nat): nat {
    if n == 0 then 1 else 10 * Pow10(n - 1)
  }

  lemma {:induction false} DigitsBound(x: nat, n: nat)
    requires n >= 1 && x < Pow10(n)
    ensures |Digits(x)| <= n
    decreases n
  {
    if x >= 10 {
      DigitsBound(x / 10, n - 1);
    }
  }

  /** At most 19 digits and a sign. */
  lemma {:induction false} DecimalBound(v: int)
    requires -TWO63 <= v < TWO63
    ensures |Decimal(v)| <= 20
  {
    assert Pow10(9) == 1000000000;
    assert Pow10(19) == 10 * 1000000000 * 1000000000 by {
      Pow10Add(9, 9);
    }
    DigitsBound(if v < 0 then -v else v, 19);
  }

  lemma {:induction false} Pow10Add(m: nat, n: nat)
    ensures Pow10(m + n) == Pow10(m) * Pow10(n)
  {
    if m > 0 {
      Pow10Add(m - 1, n);
    }
  }

  lemma {:induction false} Appended(s: bytes, pos: nat, done: bytes, b: byte)
    requires pos + |done| < |s|
    ensures Splice(s, pos, done)[pos + |done| := b] == Splice(s, pos, done + [b])
  {
  }

  /** Copies a NUL-terminated string (given without its NUL) to out[pos..]. */
  method AppendStr(out: array<byte>, pos0: nat, s: bytes) returns (pos: nat)
    requires pos0 + |s| <= out.Length
    modifies out
    ensures pos == pos0 + |s| && out[..] == Splice(old(out[..]), pos0, s)
  {
    var i := 0;
    pos := pos0;
    SpliceNothing(out[..], pos0);
    assert s[..0] == [];
    while i < |s|
      invariant 0 <= i <= |s| && pos == pos0 + i
      invariant out[..] == Splice(old(out[..]), pos0, s[..i])
    {
      Appended(old(out[..]), pos0, s[..i], s[i]);
      assert s[..i] + [s[i]] == s[..i + 1];
      out[pos] := s[i];
      pos, i := pos + 1, i + 1;
    }
    assert s[..|s|] == s;
  }

  /** The digit loop: least significant first into tmp. */
  method DigitLoop(tmp: array<byte>, x0: nat) returns (n: nat)
    requires tmp.Length == 32 && 0 < x0 <= TWO63
    modifies tmp
    ensures n <= 20 && Reversed(tmp[..n]) == Digits(x0)
  {
    n := 0;
    var x := x0;
    DigitsBound63(x0);
    while x > 0
      invariant n <= |Digits(x0)| <= 20
      invariant if x == 0 then Reversed(tmp[..n]) == Digits(x0)
                else Digits(x0) == Digits(x) + Reversed(tmp[..n])
      decreases x
    {
      ghost var before := tmp[..n];
      tmp[n] := ZERO + x % 10;
      n := n + 1;
      assert tmp[..n] == before + [ZERO + x % 10];
      assert (before + [ZERO + x % 10])[..|before|] == before;
      DigitsStep(x, Reversed<byte>(before));
      x := x / 10;
    }
  }

  lemma {:induction false} DigitsStep(x: nat, rest: bytes)
    requires x > 0
    ensures Digits(x) + rest == (if x < 10 then [] else Digits(x / 10)) + ([ZERO + x % 10] + rest)
  {
  }

  lemma {:induction false} DigitsBound63(x: nat)
    requires x <= TWO63
    ensures |Digits(x)| <= 20
  {
    if x == TWO63 {
      DecimalBound(0 - x);
    } else {
      DecimalBound(x);
    }
  }

  /** `append_i64`: the magnitude of the smallest value overflows in C, so it is excluded. */
  method AppendI64(out: array<byte>, pos0: nat, v: int) returns (pos: nat)
    requires -TWO63 < v < TWO63 && pos0 + |Decimal(v)| <= out.Length
    modifies out
    ensures pos == pos0 + |Decimal(v)| && out[..] == Splice(old(out[..]), pos0, Decimal(v))
  {
    ghost var buf := out[..];
    SpliceNothing(buf, pos0);
    DecimalSplit(v);
    hide Splice, Decimal, Digits;
    if v < 0 {
      AppendMinus(out, pos0);
      pos := AppendMagnitude(out, buf, pos0, [MINUS], 0 - v, pos0 + 1);
    } else {
      pos := AppendMagnitude(out, buf, pos0, [], v, pos0);
    }
  }

  method AppendMinus(out: array<byte>, pos: nat)
    requires pos < out.Length
    modifies out
    ensures out[..] == Splice(old(out[..]), pos, [MINUS])
  {
    out[pos] := MINUS;
  }

  /** The digits of x after what has been written. */
  method AppendMagnitude(out: array<byte>, ghost buf: bytes, ghost pos0: nat, ghost first: bytes, x: nat, at: nat)
    returns (pos: nat)
    requires x <= TWO63 && at == pos0 + |first| && at + |Digits(x)| <= out.Length == |buf|
    requires out[..] == Splice(buf, pos0, first)
    modifies out
    ensures pos == at + |Digits(x)| && out[..] == Splice(buf, pos0, first + Digits(x))
  {
    if x == 0 {
      Appended(buf, pos0, first, ZERO);
      out[at] := ZERO;
      return at + 1;
    }
    hide Splice, Digits;
    var tmp := new byte[32](_ => 0);
    var n := DigitLoop(tmp, x);
    pos := EmitReversed(out, buf, pos0, first, tmp, n, at);
  }

  lemma {:induction false} DecimalSplit(v: int)
    ensures Decimal(v) == if v < 0 then [MINUS] + Digits(-v) else Digits(v)
    ensures v >= 0 ==> [] + Digits(v) == Decimal(v)
  {
  }

  /** The second loop: the digits from tmp[n - 1] down to tmp[0], after the bytes done. */
  method EmitReversed(
    out: array<byte>, ghost buf: bytes, ghost pos0: nat, ghost first: bytes, tmp: array<byte>, n0: nat, at: nat)
    returns (pos: nat)
    requires out != tmp && n0 <= tmp.Length && at == pos0 + |first| && at + n0 <= out.Length == |buf|
    requires out[..] == Splice(buf, pos0, first)
    modifies out
    ensures pos == at + n0 && out[..] == Splice(buf, pos0, first + Reversed(tmp[..n0]))
  {
    hide Splice;
    ghost var done := first;
    var n := n0;
    pos := at;
    while n > 0
      invariant 0 <= n <= n0 && |done| + n == |first| + n0 && pos == pos0 + |done|
      invariant first + Reversed(tmp[..n0]) == done + Reversed(tmp[..n])
      invariant out[..] == Splice(buf, pos0, done)
    {
      n := n - 1;
      assert tmp[..n + 1][..n] == tmp[..n];
      assert done + ([tmp[n]] + Reversed(tmp[..n])) == (done + [tmp[n]]) + Reversed(tmp[..n]);
      Appended(buf, pos0, done, tmp[n]);
      out[pos] := tmp[n];
      done := done + [tmp[n]];
      pos := pos + 1;
    }
    assert done + [] == done;
  }

  // ---------------------------------------------------------------- the report

  const RET_TEXT: bytes := [0x77, 0x61, 0x69, 0x74, 0x34, 0x5F, 0x72, 0x65, 0x61, 0x70, 0x3A, 0x20, 0x72, 0x65,
    0x74, 0x3D]
  const STATUS_TEXT: bytes := [0x2C, 0x20, 0x72, 0x61, 0x77, 0x5F, 0x73, 0x74, 0x61, 0x74, 0x75, 0x73, 0x3D]
  const EXITED_TEXT: bytes := [0x2C, 0x20, 0x65, 0x78, 0x69, 0x74, 0x65, 0x64, 0x3D]
  const CODE_TEXT: bytes := [0x2C, 0x20, 0x63, 0x6F, 0x64, 0x65, 0x3D]
  const NEWLINE: bytes := [0x0A]
  const LINE_SIZE := 200

  /** The line for a return value and a status word. */
  function ReportLine(ret: int, status: nat): bytes {
    RET_TEXT + Decimal(ret) + STATUS_TEXT + Decimal(status) + EXITED_TEXT + Decimal(if Exited(status) then 1 else 0)
    + CODE_TEXT + Decimal(ExitCode(status)) + NEWLINE
  }

  /** The bytes of a text in ASCII. */
  function Ascii(s: string): (b: bytes)
    requires forall k :: 0 <= k < |s| ==> s[k] < 128 as char
    ensures |b| == |s|
  {
    seq<byte>(|s|, k requires 0 <= k < |s| => s[k] as int)
  }

  lemma {:induction false} Texts()
    ensures RET_TEXT == Ascii("wait4_reap: ret=") && STATUS_TEXT == Ascii(", raw_status=")
    ensures EXITED_TEXT == Ascii(", exited=") && CODE_TEXT == Ascii(", code=") && NEWLINE == Ascii("\n")
  {
  }

  /** The line in words: the return value, the raw status, whether it is a normal exit, and the exit code. */
  lemma {:induction false} ReportMeaning(ret: int, status: nat)
    ensures ReportLine(ret, status) ==
            Ascii("wait4_reap: ret=") + Decimal(ret) + Ascii(", raw_status=") + Decimal(status)
            + Ascii(", exited=") + Decimal(if status % 128 == 0 then 1 else 0)
            + Ascii(", code=") + Decimal(status / 256 % 256) + Ascii("\n")
  {
    Texts();
    hide Decimal, Ascii;
  }

  function ExitWith(ret: int, status: nat): nat {
    if ret >= 0 && Exited(status) && ExitCode(status) == 7 then 0 else if ret == -ECHILD then 2 else 1
  }

  /** All appends together stay well inside line[200]. */
  lemma {:induction false} ReportFits(ret: int, status: nat)
    requires -TWO63 < ret < TWO63 && status < TWO63
    ensures |ReportLine(ret, status)| <= 126
  {
    DecimalBound(ret);
    DecimalBound(status);
    DecimalBound(if Exited(status) then 1 else 0);
    DecimalBound(ExitCode(status));
    hide Decimal;
  }

  method Extend(line: array<byte>, ghost done: bytes, p: nat, s: bytes) returns (pos: nat)
    requires p == |done| && p + |s| <= line.Length && line[..p] == done
    modifies line
    ensures pos == |done + s| && line[..pos] == done + s
  {
    pos := AppendStr(line, p, s);
    assert line[..pos] == done + s;
  }

  method ExtendI64(line: array<byte>, ghost done: bytes, p: nat, v: int) returns (pos: nat)
    requires -TWO63 < v < TWO63 && p == |done| && p + |Decimal(v)| <= line.Length && line[..p] == done
    modifies line
    ensures pos == |done + Decimal(v)| && line[..pos] == done + Decimal(v)
  {
    pos := AppendI64(line, p, v);
    assert line[..pos] == done + Decimal(v);
  }

  /** `_start` after its wait4 call: the line it writes and the code it exits with. */
  method Report(ret: int, status: nat) returns (line: array<byte>, p: nat, code: nat)
    requires -TWO63 < ret < TWO63 && status < TWO63
    ensures fresh(line) && p <= line.Length == LINE_SIZE && line[..p] == ReportLine(ret, status)
    ensures code == ExitWith(ret, status)
  {
    var exited := if Exited(status) then 1 else 0;
    var exitCode := ExitCode(status);
    ReportFits(ret, status);
    line := new byte[LINE_SIZE](_ => 0);
    hide Decimal;
    ghost var d := RET_TEXT;
    p := Extend(line, [], 0, RET_TEXT);
    assert [] + RET_TEXT == RET_TEXT;
    p := ExtendI64(line, d, p, ret);
    d := d + Decimal(ret);
    p := Extend(line, d, p, STATUS_TEXT);
    d := d + STATUS_TEXT;
    p := ExtendI64(line, d, p, status);
    d := d + Decimal(status);
    p := Extend(line, d, p, EXITED_TEXT);
    d := d + EXITED_TEXT;
    p := ExtendI64(line, d, p, exited);
    d := d + Decimal(exited);
    p := Extend(line, d, p, CODE_TEXT);
    d := d + CODE_TEXT;
    p := ExtendI64(line, d, p, exitCode);
    d := d + Decimal(exitCode);
    p := Extend(line, d, p, NEWLINE);
    code := 1;
    if ret >= 0 && exited == 1 && exitCode == 7 {
      code := 0;
    } else if ret == -10 {
      code := 2;
    }
  }

  /** End to end: when the latest exit code is 7 modulo 256 and a wait can succeed, the program exits 0;
      with nothing to wait for it exits 2. */
  lemma {:induction false} ReapsSeven(s: ExitState, ops: seq<Op>)
    ensures var a := Apply(Run(s, ops), Wait(-1, true));
            ExitWith(a.ret, if a.status.Some? then a.status.value else 0) ==
            if !Run(s, ops).waitable then 2 else if Latest(s.last, ops) % TWO8 == 7 then 0 else 1
  {
    if Run(s, ops).waitable {
      WaitReportsLatest(s, ops, -1);
    }
  }
}
