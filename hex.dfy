/**
 * Hexadecimal CRC fields: Go's `strconv.ParseUint(s, 16, 32)` as the parser
 * calls it, and the `%08x` formatting the golden test prints entries with.
 */
module Hex {
  import opened Wrappers
  import opened Text

  const MaxUint32: nat := 0xFFFF_FFFF

  type Uint32 = x: int | 0 <= x <= 0xFFFF_FFFF

  /** '0'-'9', 'a'-'f' or 'A'-'F'. */
  predicate IsHexDigit(b: Byte) {
    (0x30 <= b <= 0x39) || (0x61 <= b <= 0x66) || (0x41 <= b <= 0x46)
  }

  predicate AllHex(s: seq<Byte>) {
    forall i :: 0 <= i < |s| ==> IsHexDigit(s[i])
  }

  function DigitValue(b: Byte): (d: nat)
    requires IsHexDigit(b)
    ensures d < 16
  {
    if b <= 0x39 then b - 0x30
    else if b >= 0x61 then b - 0x61 + 10
    else b - 0x41 + 10
  }

  function Pow16(n: nat): (p: nat)
    ensures p >= 1
  {
    if n == 0 then 1 else 16 * Pow16(n - 1)
  }

  /** The number a string of hex digits denotes, most significant digit first. */
  function HexValue(s: seq<Byte>): nat
    requires AllHex(s)
  {
    if s == [] then 0 else HexValue(s[..|s| - 1]) * 16 + DigitValue(s[|s| - 1])
  }

  /** n hex digits denote a number below 16^n. */
  lemma {:induction false} HexValueBound(s: seq<Byte>)
    requires AllHex(s)
    ensures HexValue(s) < Pow16(|s|)
    decreases |s|
  {
    if s != [] {
      HexValueBound(s[..|s| - 1]);
    }
  }

  lemma {:induction false} Pow16Monotone(a: nat, b: nat)
    requires a <= b
    ensures Pow16(a) <= Pow16(b)
    decreases b
  {
    if a < b {
      Pow16Monotone(a, b - 1);
    }
  }

  // ---------------------------------------------------------------------
  // strconv.ParseUint(s, 16, 32)
  // ---------------------------------------------------------------------

  /** strconv.ErrSyntax and strconv.ErrRange. */
  datatype NumError = Syntax | Range

  /**
   * strconv.ParseUint with base 16 and bit size 32: no sign, no "0x"
   * prefix and no underscores are accepted. The empty string is a syntax
   * error; digits whose value exceeds 2^32 - 1 are a range error; a byte
   * that is not a hex digit is a syntax error, unless the digits before
   * it already overflowed.
   */
  function ParseUint32Hex(s: seq<Byte>): (r: Result<Uint32, NumError>)
    ensures s == [] ==> r == Failure(Syntax)
    ensures s != [] && AllHex(s) ==>
              r == if HexValue(s) <= MaxUint32 then Success(HexValue(s)) else Failure(Range)
    ensures !AllHex(s) ==>
              r == if HexValue(s[..FirstNonHex(s)]) > MaxUint32 then Failure(Range) else Failure(Syntax)
  {
    if |s| == 0 then Failure(Syntax)
    else
      assert HexValue([]) == 0;
      assert [] + s == s && [] + s[..FirstNonHex(s)] == s[..FirstNonHex(s)];
      if AllHex(s) then
        ScanHexDigits([], s);
        ScanHex(s, 0)
      else
        ScanHexStops([], s);
        ScanHex(s, 0)
  }

  /** ParseUint's digit loop: left to right, each digit checked, then the running value range-checked. */
  function ScanHex(s: seq<Byte>, acc: Uint32): Result<Uint32, NumError>
    decreases |s|
  {
    if s == [] then Success(acc)
    else if !IsHexDigit(s[0]) then Failure(Syntax)
    else if acc * 16 + DigitValue(s[0]) > MaxUint32 then Failure(Range)
    else ScanHex(s[1..], acc * 16 + DigitValue(s[0]))
  }

  /** The index of the first byte that is not a hex digit, or |s|. */
  function FirstNonHex(s: seq<Byte>): (j: nat)
    ensures j <= |s| && AllHex(s[..j])
    ensures j < |s| <==> !AllHex(s)
    ensures j < |s| ==> !IsHexDigit(s[j])
    decreases |s|
  {
    if s == [] || !IsHexDigit(s[0]) then 0
    else
      var j := 1 + FirstNonHex(s[1..]);
      assert s[..j] == [s[0]] + s[1..][..j - 1];
      AllHexTail(s);
      j
  }

  /**
   * Continuing the digit loop after the hex digits `p` (its running value
   * is then their value) over more hex digits `s` yields the value of
   * p + s, or a range error when that exceeds 2^32 - 1.
   */
  lemma {:induction false} ScanHexDigits(p: seq<Byte>, s: seq<Byte>)
    requires AllHex(p) && AllHex(s) && HexValue(p) <= MaxUint32
    ensures AllHex(p + s)
    ensures ScanHex(s, HexValue(p)) ==
              if HexValue(p + s) <= MaxUint32 then Success(HexValue(p + s)) else Failure(Range)
    decreases |s|
  {
    HexValueGrows(p, s);
    if s == [] {
      assert p + s == p;
    } else {
      var p' := p + [s[0]];
      AppendDigit(p, s[0]);
      AllHexTail(s);
      assert p' + s[1..] == p + s;
      HexValueGrows(p', s[1..]);
      if HexValue(p') <= MaxUint32 {
        ScanHexDigits(p', s[1..]);
      }
    }
  }

  /**
   * Over a string with a non-hex byte the loop fails: with a range error
   * when the digits before that byte (after `p`) overflow, and with a
   * syntax error at that byte otherwise.
   */
  lemma {:induction false} ScanHexStops(p: seq<Byte>, s: seq<Byte>)
    requires AllHex(p) && !AllHex(s) && HexValue(p) <= MaxUint32
    ensures AllHex(p + s[..FirstNonHex(s)])
    ensures ScanHex(s, HexValue(p)) ==
              if HexValue(p + s[..FirstNonHex(s)]) > MaxUint32 then Failure(Range) else Failure(Syntax)
    decreases |s|
  {
    var u := s[..FirstNonHex(s)];
    HexValueGrows(p, u);
    if !IsHexDigit(s[0]) {
      assert p + u == p;
    } else {
      var p' := p + [s[0]];
      AppendDigit(p, s[0]);
      if HexValue(p') <= MaxUint32 {
        StopsLater(p, s);
        assert ScanHex(s, HexValue(p)) == ScanHex(s[1..], HexValue(p'));
        ScanHexStops(p', s[1..]);
      } else {
        StopsOverflow(p, s);
      }
    }
  }

  /** A digit that takes the running value past 2^32 - 1 stops the loop with a range error. */
  lemma StopsOverflow(p: seq<Byte>, s: seq<Byte>)
    requires AllHex(p) && !AllHex(s) && IsHexDigit(s[0])
    requires HexValue(p) <= MaxUint32 < HexValue(p + [s[0]])
    ensures AllHex(p + s[..FirstNonHex(s)])
    ensures ScanHex(s, HexValue(p)) == Failure(Range)
    ensures HexValue(p + s[..FirstNonHex(s)]) > MaxUint32
  {
    AppendDigit(p, s[0]);
    StopsLater(p, s);
    HexValueGrows(p + [s[0]], s[1..][..FirstNonHex(s[1..])]);
  }

  /** The first non-hex byte of `s` after a leading digit is the first of its tail, one place on. */
  lemma StopsLater(p: seq<Byte>, s: seq<Byte>)
    requires !AllHex(s) && IsHexDigit(s[0])
    ensures FirstNonHex(s[1..]) == FirstNonHex(s) - 1
    ensures p + s[..FirstNonHex(s)] == (p + [s[0]]) + s[1..][..FirstNonHex(s[1..])]
  {
    var j := FirstNonHex(s);
    assert j == 1 + FirstNonHex(s[1..]);
    ConsSlice(p, s, j);
  }

  lemma ConsSlice(p: seq<Byte>, s: seq<Byte>, j: nat)
    requires 1 <= j <= |s|
    ensures p + s[..j] == (p + [s[0]]) + s[1..][..j - 1]
  {
    assert s[..j] == [s[0]] + s[1..][..j - 1];
  }

  /** Appending a digit shifts the value one hex place up. */
  lemma AppendDigit(p: seq<Byte>, b: Byte)
    requires AllHex(p) && IsHexDigit(b)
    ensures AllHex(p + [b]) && HexValue(p + [b]) == HexValue(p) * 16 + DigitValue(b)
  {
    assert (p + [b])[..|p|] == p;
  }

  /** More digits never make a smaller value. */
  lemma {:induction false} HexValueGrows(x: seq<Byte>, y: seq<Byte>)
    requires AllHex(x) && AllHex(y)
    ensures AllHex(x + y) && HexValue(x + y) >= HexValue(x)
    decreases |y|
  {
    assert forall i :: 0 <= i < |x + y| ==> (x + y)[i] == if i < |x| then x[i] else y[i - |x|];
    if y == [] {
      assert x + y == x;
    } else {
      var y' := y[..|y| - 1];
      HexValueGrows(x, y');
      assert (x + y)[..|x + y| - 1] == x + y';
    }
  }

  lemma AllHexTail(s: seq<Byte>)
    requires s != [] && IsHexDigit(s[0])
    ensures AllHex(s) <==> AllHex(s[1..])
  {
    if AllHex(s[1..]) {
      forall i | 1 <= i < |s| ensures IsHexDigit(s[i]) {
        assert s[i] == s[1..][i - 1];
      }
    }
  }

  /**
   * On an 8-byte CRC field, ParseUint succeeds exactly when all 8 bytes
   * are hex digits (either case), with their base-16 value; it never
   * reports a range error there.
   */
  lemma ParseCrcField(s: seq<Byte>)
    requires |s| == 8
    ensures ParseUint32Hex(s).Success? <==> AllHex(s)
    ensures AllHex(s) ==> ParseUint32Hex(s) == Success(HexValue(s))
    ensures !AllHex(s) ==> ParseUint32Hex(s) == Failure(Syntax)
  {
    assert Pow16(8) == 0x1_0000_0000;
    var j := FirstNonHex(s);
    HexValueBound(s[..j]);
    Pow16Monotone(j, 8);
    if AllHex(s) {
      assert s[..j] == s;
    }
  }

  // ---------------------------------------------------------------------
  // fmt.Sprintf("%08x", v)
  // ---------------------------------------------------------------------

  function LowerHexDigit(d: nat): (b: Byte)
    requires d < 16
    ensures IsHexDigit(b) && DigitValue(b) == d
  {
    if d < 10 then 0x30 + d else 0x61 + d - 10
  }

  /** The lowest n hex digits of v, lower-case, most significant first. */
  function FormatHex(v: nat, n: nat): (s: seq<Byte>)
    ensures |s| == n
  {
    if n == 0 then [] else FormatHex(v / 16, n - 1) + [LowerHexDigit(v % 16)]
  }

  /** `%08x` of a 32-bit value: exactly 8 lower-case digits that parse back to it. */
  function Format08x(v: Uint32): (s: seq<Byte>)
    ensures |s| == 8 && AllHex(s)
    ensures ParseUint32Hex(s) == Success(v)
  {
    assert Pow16(8) == 0x1_0000_0000;
    FormatParseRoundTrip(v, 8);
    ParseCrcField(FormatHex(v, 8));
    FormatHex(v, 8)
  }

  /** Formatting then reading back the digits gives the value, when it fits in n digits. */
  lemma {:induction false} FormatParseRoundTrip(v: nat, n: nat)
    requires v < Pow16(n)
    ensures AllHex(FormatHex(v, n)) && HexValue(FormatHex(v, n)) == v
  {
    if n > 0 {
      FormatParseRoundTrip(v / 16, n - 1);
      var s := FormatHex(v, n);
      assert s[..n - 1] == FormatHex(v / 16, n - 1);
    }
  }

  /** ASCII lower-casing of one byte. */
  function ToLower(b: Byte): Byte {
    if 0x41 <= b <= 0x5A then b + 0x20 else b
  }

  function LowerAll(s: seq<Byte>): (t: seq<Byte>)
    ensures |t| == |s| && forall i :: 0 <= i < |s| ==> t[i] == ToLower(s[i])
  {
    seq(|s|, i requires 0 <= i < |s| => ToLower(s[i]))
  }

  /** Reading hex digits then formatting the value gives back the digits, lower-cased. */
  lemma {:induction false} ParseFormatRoundTrip(s: seq<Byte>)
    requires AllHex(s)
    ensures FormatHex(HexValue(s), |s|) == LowerAll(s)
    decreases |s|
  {
    if s != [] {
      var p := s[..|s| - 1];
      var last := s[|s| - 1];
      ParseFormatRoundTrip(p);
      var v := HexValue(s);
      assert v / 16 == HexValue(p) && v % 16 == DigitValue(last);
      assert LowerHexDigit(DigitValue(last)) == ToLower(last);
      assert LowerAll(s) == LowerAll(p) + [ToLower(last)];
    }
  }

  /** `%08x` of a parsed CRC field gives back that field, lower-cased. */
  lemma CrcFieldRoundTrip(s: seq<Byte>)
    requires |s| == 8 && AllHex(s)
    ensures ParseUint32Hex(s).Success? && Format08x(ParseUint32Hex(s).value) == LowerAll(s)
  {
    ParseCrcField(s);
    ParseFormatRoundTrip(s);
  }
}
