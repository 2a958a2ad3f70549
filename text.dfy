/**
 * The byte-string operations of Go's standard library that the SFV parser
 * relies on: `utf8.Valid`, `strings.Split(s, "\n")` and `strings.TrimSpace`.
 * A Go `string` is a sequence of bytes, so every operation here works on
 * `seq<Byte>`.
 */
module Text {
  import opened Wrappers

  type Byte = b: int | 0 <= b < 256

  const NL: Byte := 0x0A
  const CR: Byte := 0x0D

  // ---------------------------------------------------------------------
  // UTF-8 validity (Go's utf8.Valid): the language of the UTF8-octets rule
  // of section 4 of RFC 3629, recognised byte by byte.
  // ---------------------------------------------------------------------

  /** A trailing byte of a multi-byte character, %x80-BF (UTF8-tail). */
  predicate IsContinuation(b: Byte) {
    0x80 <= b <= 0xBF
  }

  /**
   * The byte ranges the grammar allows right after a lead byte:
   * %x80-BF in general, %xA0-BF after E0, %x80-9F after ED,
   * %x90-BF after F0 and %x80-8F after F4.
   */
  datatype TailRange = Any | FromA0 | To9F | From90 | To8F

  predicate InRange(r: TailRange, b: Byte)
    ensures InRange(r, b) ==> IsContinuation(b)
  {
    match r
    case Any => 0x80 <= b <= 0xBF
    case FromA0 => 0xA0 <= b <= 0xBF
    case To9F => 0x80 <= b <= 0x9F
    case From90 => 0x90 <= b <= 0xBF
    case To8F => 0x80 <= b <= 0x8F
  }

  /**
   * Where the recogniser stands: between characters, or inside one,
   * expecting a byte of `next` followed by `more` UTF8-tail bytes.
   */
  datatype Utf8State = Boundary | Inside(next: TailRange, more: nat)

  /** One byte of input: the next state, or None when the byte is not allowed here. */
  function Step(st: Utf8State, b: Byte): Option<Utf8State> {
    match st
    case Boundary =>
      if b <= 0x7F then Some(Boundary)                        // UTF8-1
      else if 0xC2 <= b <= 0xDF then Some(Inside(Any, 0))     // UTF8-2
      else if b == 0xE0 then Some(Inside(FromA0, 1))          // UTF8-3
      else if 0xE1 <= b <= 0xEC || 0xEE <= b <= 0xEF then Some(Inside(Any, 1))
      else if b == 0xED then Some(Inside(To9F, 1))
      else if b == 0xF0 then Some(Inside(From90, 2))          // UTF8-4
      else if 0xF1 <= b <= 0xF3 then Some(Inside(Any, 2))
      else if b == 0xF4 then Some(Inside(To8F, 2))
      else None
    case Inside(r, more) =>
      if !InRange(r, b) then None
      else if more == 0 then Some(Boundary)
      else Some(Inside(Any, more - 1))
  }

  /** The state after reading all of `s` from `st`, or None if some byte was refused. */
  function Run(s: seq<Byte>, st: Utf8State): Option<Utf8State>
    decreases |s|
  {
    if s == [] then Some(st)
    else match Step(st, s[0])
      case None => None
      case Some(st') => Run(s[1..], st')
  }

  /** `s` is a sequence of well-formed UTF-8 characters. */
  predicate ValidUtf8(s: seq<Byte>) {
    Run(s, Boundary) == Some(Boundary)
  }

  /** Reading a + b is reading a, then b from where a left off. */
  lemma {:induction false} RunConcat(a: seq<Byte>, b: seq<Byte>, st: Utf8State)
    ensures Run(a + b, st) == if Run(a, st).None? then None else Run(b, Run(a, st).value)
    decreases |a|
  {
    if a == [] {
      assert a + b == b;
    } else {
      assert (a + b)[0] == a[0];
      assert (a + b)[1..] == a[1..] + b;
      if Step(st, a[0]).Some? {
        RunConcat(a[1..], b, Step(st, a[0]).value);
      }
    }
  }

  /**
   * Cutting valid text in front of a byte that is not a continuation byte
   * (that is, between two characters) leaves two valid halves.
   */
  lemma Utf8Cut(s: seq<Byte>, k: nat)
    requires ValidUtf8(s)
    requires k <= |s|
    requires k == |s| || !IsContinuation(s[k])
    ensures ValidUtf8(s[..k]) && ValidUtf8(s[k..])
  {
    assert s == s[..k] + s[k..];
    RunConcat(s[..k], s[k..], Boundary);
    var mid := Run(s[..k], Boundary);
    if k == |s| {
      assert s[k..] == [];
    } else {
      assert s[k..][0] == s[k];
      assert mid.value == Boundary;
    }
  }

  /** Valid text followed by valid text is valid text. */
  lemma Utf8Concat(a: seq<Byte>, b: seq<Byte>)
    requires ValidUtf8(a) && ValidUtf8(b)
    ensures ValidUtf8(a + b)
  {
    RunConcat(a, b, Boundary);
  }

  /** Plain ASCII is valid UTF-8. */
  lemma {:induction false} AsciiIsUtf8(s: seq<Byte>)
    requires forall i :: 0 <= i < |s| ==> s[i] <= 0x7F
    ensures ValidUtf8(s)
    decreases |s|
  {
    if s != [] {
      AsciiIsUtf8(s[1..]);
    }
  }

  // ---------------------------------------------------------------------
  // The grammar itself, for reference: the recogniser accepts exactly the
  // strings UTF8-octets = *( UTF8-char ) derives.
  // ---------------------------------------------------------------------

  /** UTF8-char of section 4 of RFC 3629: one encoded character. */
  predicate Utf8Char(c: seq<Byte>) {
    || (|c| == 1 && c[0] <= 0x7F)
    || (|c| == 2 && 0xC2 <= c[0] <= 0xDF && IsContinuation(c[1]))
    || (|c| == 3 && c[0] == 0xE0 && 0xA0 <= c[1] <= 0xBF && IsContinuation(c[2]))
    || (|c| == 3 && (0xE1 <= c[0] <= 0xEC || 0xEE <= c[0] <= 0xEF)
                 && IsContinuation(c[1]) && IsContinuation(c[2]))
    || (|c| == 3 && c[0] == 0xED && 0x80 <= c[1] <= 0x9F && IsContinuation(c[2]))
    || (|c| == 4 && c[0] == 0xF0 && 0x90 <= c[1] <= 0xBF
                 && IsContinuation(c[2]) && IsContinuation(c[3]))
    || (|c| == 4 && 0xF1 <= c[0] <= 0xF3
                 && IsContinuation(c[1]) && IsContinuation(c[2]) && IsContinuation(c[3]))
    || (|c| == 4 && c[0] == 0xF4 && 0x80 <= c[1] <= 0x8F
                 && IsContinuation(c[2]) && IsContinuation(c[3]))
  }

  /** UTF8-octets: `s` is a sequence of UTF8-char, each of 1 to 4 bytes. */
  predicate Utf8Text(s: seq<Byte>)
    decreases |s|
  {
    || s == []
    || (1 <= |s| && Utf8Char(s[..1]) && Utf8Text(s[1..]))
    || (2 <= |s| && Utf8Char(s[..2]) && Utf8Text(s[2..]))
    || (3 <= |s| && Utf8Char(s[..3]) && Utf8Text(s[3..]))
    || (4 <= |s| && Utf8Char(s[..4]) && Utf8Text(s[4..]))
  }

  /** The recogniser accepts exactly the strings of the UTF-8 grammar. */
  lemma {:induction false} Utf8Grammar(s: seq<Byte>)
    ensures ValidUtf8(s) <==> Utf8Text(s)
    decreases |s|
  {
    if s != [] {
      RunChar(s);
      for n := 1 to 5
        invariant forall m :: 1 <= m < n && m <= |s| ==> (ValidUtf8(s[m..]) <==> Utf8Text(s[m..]))
      {
        if n <= |s| {
          Utf8Grammar(s[n..]);
        }
      }
    }
  }

  /** Valid text is one valid character followed by valid text. */
  lemma RunChar(s: seq<Byte>)
    requires s != []
    ensures ValidUtf8(s) <==>
      || (1 <= |s| && Utf8Char(s[..1]) && ValidUtf8(s[1..]))
      || (2 <= |s| && Utf8Char(s[..2]) && ValidUtf8(s[2..]))
      || (3 <= |s| && Utf8Char(s[..3]) && ValidUtf8(s[3..]))
      || (4 <= |s| && Utf8Char(s[..4]) && ValidUtf8(s[4..]))
  {
    var b := s[0];
    assert Run(s, Boundary) == if Step(Boundary, b).None? then None else Run(s[1..], Step(Boundary, b).value);
    if 1 <= |s| { assert s[..1][0] == b; }
    if 2 <= |s| { assert s[..2][0] == b && s[..2][1] == s[1]; }
    if 3 <= |s| { assert s[..3][0] == b && s[..3][1] == s[1] && s[..3][2] == s[2]; }
    if 4 <= |s| { assert s[..4][0] == b && s[..4][1] == s[1] && s[..4][2] == s[2] && s[..4][3] == s[3]; }
    match Step(Boundary, b)
    case None =>
    case Some(st) =>
      if st.Inside? {
        RunInside(s[1..], st.next, st.more);
        if st.more + 2 <= |s| {
          assert s[1..][st.more + 1..] == s[st.more + 2..];
        }
      }
  }

  /**
   * Inside a character, expecting a byte of `r` and `m` more tail bytes,
   * the recogniser returns to a boundary and accepts the rest exactly
   * when those bytes are there and the rest is valid.
   */
  lemma {:induction false} RunInside(s: seq<Byte>, r: TailRange, m: nat)
    requires m <= 2
    ensures Run(s, Inside(r, m)) == Some(Boundary) <==>
      && m + 1 <= |s|
      && InRange(r, s[0])
      && (m >= 1 ==> IsContinuation(s[1]))
      && (m >= 2 ==> IsContinuation(s[2]))
      && ValidUtf8(s[m + 1..])
    decreases m
  {
    if s != [] && InRange(r, s[0]) && m > 0 {
      RunInside(s[1..], Any, m - 1);
      if m + 1 <= |s| {
        assert s[1..][m..] == s[m + 1..];
      }
    }
  }

  // ---------------------------------------------------------------------
  // strings.Split(s, "\n")
  // ---------------------------------------------------------------------

  /** The index of the first newline in `s`, or |s| when there is none. */
  function IndexOfNewline(s: seq<Byte>): (k: nat)
    ensures k <= |s|
    ensures k < |s| ==> s[k] == NL
    ensures forall j :: 0 <= j < k ==> s[j] != NL
  {
    if s == [] then 0
    else if s[0] == NL then 0
    else 1 + IndexOfNewline(s[1..])
  }

  /**
   * The pieces of `s` between newlines: n newlines give n + 1 pieces, and
   * the empty input gives one empty piece, as Go's strings.Split does.
   */
  function Split(s: seq<Byte>): (lines: seq<seq<Byte>>)
    ensures |lines| >= 1
    decreases |s|
  {
    var k := IndexOfNewline(s);
    if k == |s| then [s] else [s[..k]] + Split(s[k + 1..])
  }

  /** Go's strings.Join(lines, "\n"), the inverse of Split. */
  function Join(lines: seq<seq<Byte>>): seq<Byte>
    requires |lines| >= 1
  {
    if |lines| == 1 then lines[0] else lines[0] + [NL] + Join(lines[1..])
  }

  /** No piece of Split contains a newline, and joining the pieces gives back the input. */
  lemma {:induction false} SplitJoin(s: seq<Byte>)
    ensures Join(Split(s)) == s
    ensures forall i, j :: 0 <= i < |Split(s)| && 0 <= j < |Split(s)[i]| ==> Split(s)[i][j] != NL
    decreases |s|
  {
    var k := IndexOfNewline(s);
    if k < |s| {
      SplitJoin(s[k + 1..]);
      assert Split(s)[1..] == Split(s[k + 1..]);
      assert s == s[..k] + [NL] + s[k + 1..];
    }
  }

  /** Every line of valid text is valid text. */
  lemma {:induction false} SplitKeepsUtf8(s: seq<Byte>)
    requires ValidUtf8(s)
    ensures forall i :: 0 <= i < |Split(s)| ==> ValidUtf8(Split(s)[i])
    decreases |s|
  {
    var k := IndexOfNewline(s);
    if k < |s| {
      Utf8Cut(s, k);
      var rest := s[k..];
      assert rest == [NL] + s[k + 1..];
      RunConcat([NL], s[k + 1..], Boundary);
      SplitKeepsUtf8(s[k + 1..]);
      assert Split(s) == [s[..k]] + Split(s[k + 1..]);
    }
  }

  // ---------------------------------------------------------------------
  // Windows line endings.
  // ---------------------------------------------------------------------

  /** `s` with every newline written as a carriage return and a newline. */
  function ToCrlf(s: seq<Byte>): (c: seq<Byte>)
    ensures |c| >= |s|
    decreases |s|
  {
    if s == [] then []
    else (if s[0] == NL then [CR, NL] else [s[0]]) + ToCrlf(s[1..])
  }

  lemma {:induction false} ToCrlfConcat(a: seq<Byte>, b: seq<Byte>)
    ensures ToCrlf(a + b) == ToCrlf(a) + ToCrlf(b)
    decreases |a|
  {
    if a != [] {
      ToCrlfConcat(a[1..], b);
      assert (a + b)[1..] == a[1..] + b;
    } else {
      assert a + b == b;
    }
  }

  lemma {:induction false} ToCrlfNoNewline(s: seq<Byte>)
    requires forall j :: 0 <= j < |s| ==> s[j] != NL
    ensures ToCrlf(s) == s
    decreases |s|
  {
    if s != [] {
      ToCrlfNoNewline(s[1..]);
    }
  }

  /**
   * A carriage return is allowed exactly where a newline is, and leaves
   * the recogniser in the same state, so writing newlines as CR LF changes
   * nothing about UTF-8 validity.
   */
  lemma {:induction false} RunToCrlf(s: seq<Byte>, st: Utf8State)
    ensures Run(ToCrlf(s), st) == Run(s, st)
    decreases |s|
  {
    if s != [] {
      var rest := ToCrlf(s[1..]);
      if s[0] == NL {
        var c := [CR, NL] + rest;
        assert c[1..] == [NL] + rest;
        assert ([NL] + rest)[1..] == rest;
        if st.Boundary? {
          RunToCrlf(s[1..], Boundary);
        }
      } else {
        assert ([s[0]] + rest)[1..] == rest;
        match Step(st, s[0])
        case None =>
        case Some(st') => RunToCrlf(s[1..], st');
      }
    }
  }

  /** The lines of a CR LF text: every line but the last ends in a carriage return. */
  function EndWithCr(lines: seq<seq<Byte>>): (out: seq<seq<Byte>>)
    ensures |out| == |lines|
    decreases |lines|
  {
    if |lines| <= 1 then lines else [lines[0] + [CR]] + EndWithCr(lines[1..])
  }

  /** Each line of the CR LF form is the line itself or the line with a carriage return. */
  lemma {:induction false} EndWithCrShape(lines: seq<seq<Byte>>)
    ensures forall j :: 0 <= j < |lines| ==>
              EndWithCr(lines)[j] == lines[j] || EndWithCr(lines)[j] == lines[j] + [CR]
    decreases |lines|
  {
    if |lines| > 1 {
      var rest := lines[1..];
      EndWithCrShape(rest);
      var out := EndWithCr(lines);
      forall j | 0 <= j < |lines|
        ensures out[j] == lines[j] || out[j] == lines[j] + [CR]
      {
        if j > 0 {
          assert out[j] == EndWithCr(rest)[j - 1];
          assert rest[j - 1] == lines[j];
        }
      }
    }
  }

  /** Splitting the CR LF form of a text gives its lines with the carriage returns added. */
  lemma {:induction false} SplitToCrlf(s: seq<Byte>)
    ensures Split(ToCrlf(s)) == EndWithCr(Split(s))
    decreases |s|
  {
    var k := IndexOfNewline(s);
    if k == |s| {
      ToCrlfNoNewline(s);
    } else {
      var rest := s[k + 1..];
      var c := ToCrlf(s);
      ToCrlfAtNewline(s, k);
      SplitAt(c, k + 1);
      SplitToCrlf(rest);
      var lines := Split(s);
      assert lines == [s[..k]] + Split(rest);
      assert lines[1..] == Split(rest);
      assert Split(c) == [s[..k] + [CR]] + EndWithCr(Split(rest));
    }
  }

  /** The CR LF form of `s` around its first newline, at `k`. */
  lemma ToCrlfAtNewline(s: seq<Byte>, k: nat)
    requires k == IndexOfNewline(s) < |s|
    ensures var c := ToCrlf(s);
      && c[..k + 1] == s[..k] + [CR]
      && k + 1 < |c| && c[k + 1] == NL
      && c[k + 2..] == ToCrlf(s[k + 1..])
      && forall j :: 0 <= j < k + 1 ==> c[j] != NL
  {
    var rest := s[k + 1..];
    assert s == s[..k] + ([NL] + rest);
    ToCrlfConcat(s[..k], [NL] + rest);
    ToCrlfConcat([NL], rest);
    ToCrlfNoNewline(s[..k]);
    assert ToCrlf([NL]) == [CR, NL];
    CrlfSlices(s[..k], ToCrlf(rest), ToCrlf(s));
  }

  lemma CrlfSlices(a: seq<Byte>, x: seq<Byte>, c: seq<Byte>)
    requires c == a + ([CR, NL] + x)
    requires forall j :: 0 <= j < |a| ==> a[j] != NL
    ensures c[..|a| + 1] == a + [CR]
    ensures |a| + 1 < |c| && c[|a| + 1] == NL
    ensures c[|a| + 2..] == x
    ensures forall j :: 0 <= j < |a| + 1 ==> c[j] != NL
  {
    assert forall j :: 0 <= j < |a| ==> c[j] == a[j];
  }

  /** Split of a text whose first newline is at `k`. */
  lemma SplitAt(c: seq<Byte>, k: nat)
    requires k < |c| && c[k] == NL
    requires forall j :: 0 <= j < k ==> c[j] != NL
    ensures Split(c) == [c[..k]] + Split(c[k + 1..])
  {
    assert IndexOfNewline(c) == k;
  }

  // ---------------------------------------------------------------------
  // strings.TrimSpace: strip leading and trailing characters for which
  // unicode.IsSpace holds, matched as their UTF-8 encodings.
  // ---------------------------------------------------------------------

  /** '\t', '\n', '\v', '\f', '\r' and ' '. */
  predicate IsAsciiSpace(b: Byte) {
    b == 0x09 || b == 0x0A || b == 0x0B || b == 0x0C || b == 0x0D || b == 0x20
  }

  /** U+0085 (NEL) and U+00A0 (no-break space). */
  predicate IsSpace2(a: Byte, b: Byte) {
    a == 0xC2 && (b == 0x85 || b == 0xA0)
  }

  /** U+1680, U+2000-U+200A, U+2028, U+2029, U+202F, U+205F and U+3000. */
  predicate IsSpace3(a: Byte, b: Byte, c: Byte) {
    || (a == 0xE1 && b == 0x9A && c == 0x80)
    || (a == 0xE2 && b == 0x80 && (0x80 <= c <= 0x8A || c == 0xA8 || c == 0xA9 || c == 0xAF))
    || (a == 0xE2 && b == 0x81 && c == 0x9F)
    || (a == 0xE3 && b == 0x80 && c == 0x80)
  }

  /** The byte length of the white-space character `s` starts with, or 0. */
  function LeadingSpaceLen(s: seq<Byte>): (n: nat)
    ensures n <= 3 && n <= |s|
  {
    if |s| >= 1 && IsAsciiSpace(s[0]) then 1
    else if |s| >= 2 && IsSpace2(s[0], s[1]) then 2
    else if |s| >= 3 && IsSpace3(s[0], s[1], s[2]) then 3
    else 0
  }

  /** The byte length of the white-space character `s` ends with, or 0. */
  function TrailingSpaceLen(s: seq<Byte>): (n: nat)
    ensures n <= 3 && n <= |s|
  {
    var m := |s|;
    if m >= 1 && IsAsciiSpace(s[m - 1]) then 1
    else if m >= 2 && IsSpace2(s[m - 2], s[m - 1]) then 2
    else if m >= 3 && IsSpace3(s[m - 3], s[m - 2], s[m - 1]) then 3
    else 0
  }

  /** `w` is made of whole white-space characters, read from the front. */
  predicate AllSpace(w: seq<Byte>)
    decreases |w|
  {
    w == [] || (LeadingSpaceLen(w) > 0 && AllSpace(w[LeadingSpaceLen(w)..]))
  }

  /** strings.TrimLeft with unicode.IsSpace: whole white-space characters cut off the front. */
  function TrimLeft(s: seq<Byte>): (t: seq<Byte>)
    ensures |t| <= |s|
    ensures LeadingSpaceLen(t) == 0
    decreases |s|
  {
    var n := LeadingSpaceLen(s);
    if n == 0 then s else TrimLeft(s[n..])
  }

  /** strings.TrimRight with unicode.IsSpace: whole white-space characters cut off the end. */
  function TrimRight(s: seq<Byte>): (t: seq<Byte>)
    ensures |t| <= |s|
    ensures TrailingSpaceLen(t) == 0
    decreases |s|
  {
    var n := TrailingSpaceLen(s);
    if n == 0 then s else TrimRight(s[..|s| - n])
  }

  /** Go's strings.TrimSpace. */
  function TrimSpace(s: seq<Byte>): (t: seq<Byte>)
    ensures LeadingSpaceLen(t) == 0 && TrailingSpaceLen(t) == 0
  {
    TrimLeftKeepsLeading(TrimLeft(s));
    TrimRight(TrimLeft(s))
  }

  /** The number of bytes TrimLeft cuts off. */
  function SpacePrefixLen(s: seq<Byte>): (n: nat)
    ensures n <= |s|
  {
    |s| - |TrimLeft(s)|
  }

  /** TrimLeft keeps a suffix of `s`, and what it cuts off is whole white-space characters. */
  lemma {:induction false} TrimLeftCutsSpace(s: seq<Byte>)
    ensures TrimLeft(s) == s[SpacePrefixLen(s)..]
    ensures AllSpace(s[..SpacePrefixLen(s)])
    decreases |s|
  {
    var n := LeadingSpaceLen(s);
    if n > 0 {
      var r := s[n..];
      TrimLeftCutsSpace(r);
      var m := SpacePrefixLen(s);
      assert m == n + SpacePrefixLen(r);
      assert r[SpacePrefixLen(r)..] == s[m..];
      LeadingSpacePrefix(s, m);
      assert s[..m][n..] == r[..SpacePrefixLen(r)];
    }
  }

  /** TrimRight keeps a prefix of `s`. */
  lemma {:induction false} TrimRightIsPrefix(s: seq<Byte>)
    ensures TrimRight(s) == s[..|TrimRight(s)|]
    decreases |s|
  {
    var n := TrailingSpaceLen(s);
    if n > 0 {
      var u := s[..|s| - n];
      TrimRightIsPrefix(u);
      assert u[..|TrimRight(u)|] == s[..|TrimRight(u)|];
    }
  }

  /** What TrimRight cuts off is whole white-space characters. */
  lemma {:induction false} TrimRightCutsSpace(s: seq<Byte>)
    ensures AllSpace(s[|TrimRight(s)|..])
    decreases |s|
  {
    var n := TrailingSpaceLen(s);
    if n > 0 {
      var u := s[..|s| - n];
      TrimRightCutsSpace(u);
      TrailingSpaceStep(s, |TrimRight(u)|);
    } else {
      assert s[|s|..] == [];
    }
  }

  /** White space before the trailing white-space character of `s` extends through the end. */
  lemma TrailingSpaceStep(s: seq<Byte>, k: nat)
    requires TrailingSpaceLen(s) > 0 && k <= |s| - TrailingSpaceLen(s)
    requires AllSpace(s[..|s| - TrailingSpaceLen(s)][k..])
    ensures AllSpace(s[k..])
  {
    var n := TrailingSpaceLen(s);
    var v := s[..|s| - n][k..];
    TrailingIsLeading(s);
    AllSpaceAppend(v, s[|s| - n..]);
    assert s[k..] == v + s[|s| - n..];
  }

  /**
   * TrimSpace keeps the slice of `s` between a run of whole white-space
   * characters at the start and a run at the end.
   */
  lemma TrimSpaceCutsSpace(s: seq<Byte>)
    ensures SpacePrefixLen(s) + |TrimSpace(s)| <= |s|
    ensures TrimSpace(s) == s[SpacePrefixLen(s)..SpacePrefixLen(s) + |TrimSpace(s)|]
    ensures AllSpace(s[..SpacePrefixLen(s)])
    ensures AllSpace(s[SpacePrefixLen(s) + |TrimSpace(s)|..])
  {
    var l := TrimLeft(s);
    var t := TrimSpace(s);
    var i := SpacePrefixLen(s);
    TrimLeftCutsSpace(s);
    TrimRightIsPrefix(l);
    TrimRightCutsSpace(l);
    var rest := l[|t|..];
    assert rest == s[i + |t|..];
  }

  /** A white-space character at the front stays at the front whatever follows. */
  lemma LeadingSpaceExtend(a: seq<Byte>, b: seq<Byte>)
    requires LeadingSpaceLen(a) > 0
    ensures LeadingSpaceLen(a + b) == LeadingSpaceLen(a)
  {
    assert (a + b)[0] == a[0];
    if |a| >= 2 { assert (a + b)[1] == a[1]; }
    if |a| >= 3 { assert (a + b)[2] == a[2]; }
  }

  /** Cutting `s` after its leading white-space character keeps that character. */
  lemma LeadingSpacePrefix(s: seq<Byte>, m: nat)
    requires LeadingSpaceLen(s) > 0 && LeadingSpaceLen(s) <= m <= |s|
    ensures LeadingSpaceLen(s[..m]) == LeadingSpaceLen(s)
  {
    assert s[..m][0] == s[0];
    if m >= 2 { assert s[..m][1] == s[1]; }
    if m >= 3 { assert s[..m][2] == s[2]; }
  }

  /** The white-space character `s` ends with, read on its own from the front. */
  lemma TrailingIsLeading(s: seq<Byte>)
    requires TrailingSpaceLen(s) > 0
    ensures var n := TrailingSpaceLen(s); LeadingSpaceLen(s[|s| - n..]) == n
  {
  }

  /** Whole white-space characters followed by one more are whole white-space characters. */
  lemma {:induction false} AllSpaceAppend(a: seq<Byte>, w: seq<Byte>)
    requires AllSpace(a)
    requires |w| > 0 && LeadingSpaceLen(w) == |w|
    ensures AllSpace(a + w)
    decreases |a|
  {
    if a == [] {
      assert a + w == w;
      assert w[|w|..] == [];
    } else {
      var n := LeadingSpaceLen(a);
      LeadingSpaceExtend(a, w);
      AllSpaceAppend(a[n..], w);
      assert (a + w)[n..] == a[n..] + w;
    }
  }

  /** Cutting white space off the end never exposes white space at the start. */
  lemma {:induction false} TrimLeftKeepsLeading(s: seq<Byte>)
    requires LeadingSpaceLen(s) == 0
    ensures LeadingSpaceLen(TrimRight(s)) == 0
    decreases |s|
  {
    var n := TrailingSpaceLen(s);
    if n > 0 {
      var u := s[..|s| - n];
      assert LeadingSpaceLen(u) == 0 by {
        if |u| >= 1 { assert u[0] == s[0]; }
        if |u| >= 2 { assert u[1] == s[1]; }
        if |u| >= 3 { assert u[2] == s[2]; }
      }
      TrimLeftKeepsLeading(u);
    }
  }

  /** Appending an ASCII space to `s` only appends it after the left trim. */
  lemma {:induction false} TrimLeftAppendSpace(s: seq<Byte>, c: Byte)
    requires IsAsciiSpace(c)
    ensures TrimLeft(s + [c]) == if TrimLeft(s) == [] then [] else TrimLeft(s) + [c]
    decreases |s|
  {
    var sc := s + [c];
    if s == [] {
      assert LeadingSpaceLen(sc) == 1;
      assert sc[1..] == [];
    } else {
      var n := LeadingSpaceLen(s);
      assert sc[0] == s[0];
      if |s| >= 2 { assert sc[1] == s[1]; }
      if |s| >= 3 { assert sc[2] == s[2]; }
      assert LeadingSpaceLen(sc) == n;
      if n > 0 {
        assert sc[n..] == s[n..] + [c];
        TrimLeftAppendSpace(s[n..], c);
      }
    }
  }

  /**
   * A trailing carriage return (or any other ASCII space) makes no
   * difference to TrimSpace: CRLF-terminated lines trim like LF ones.
   */
  lemma TrimSpaceDropsTrailingSpace(s: seq<Byte>, c: Byte)
    requires IsAsciiSpace(c)
    ensures TrimSpace(s + [c]) == TrimSpace(s)
  {
    TrimLeftAppendSpace(s, c);
    var t := TrimLeft(s);
    if t != [] {
      assert TrailingSpaceLen(t + [c]) == 1;
      assert (t + [c])[..|t + [c]| - 1] == t;
    }
  }

  /** TrimSpace keeps valid text valid: it only removes whole characters. */
  lemma TrimSpaceKeepsUtf8(s: seq<Byte>)
    requires ValidUtf8(s)
    ensures ValidUtf8(TrimSpace(s))
  {
    TrimLeftKeepsUtf8(s);
    TrimRightKeepsUtf8(TrimLeft(s));
  }

  lemma {:induction false} TrimLeftKeepsUtf8(s: seq<Byte>)
    requires ValidUtf8(s)
    ensures ValidUtf8(TrimLeft(s))
    decreases |s|
  {
    var n := LeadingSpaceLen(s);
    if n > 0 {
      SpaceIsOneCharacter(s);
      assert s == s[..n] + s[n..];
      RunConcat(s[..n], s[n..], Boundary);
      TrimLeftKeepsUtf8(s[n..]);
    }
  }

  /** A leading white-space character is one whole UTF-8 character. */
  lemma SpaceIsOneCharacter(s: seq<Byte>)
    requires LeadingSpaceLen(s) > 0
    ensures Run(s[..LeadingSpaceLen(s)], Boundary) == Some(Boundary)
  {
    var n := LeadingSpaceLen(s);
    var w := s[..n];
    var w1 := w[1..];
    if n == 1 {
      assert Step(Boundary, w[0]) == Some(Boundary);
      assert w1 == [];
      assert Run(w, Boundary) == Run(w1, Boundary);
    } else if n == 2 {
      var w2 := w1[1..];
      assert Step(Boundary, w[0]) == Some(Inside(Any, 0));
      assert Step(Inside(Any, 0), w1[0]) == Some(Boundary);
      assert w2 == [];
      assert Run(w1, Inside(Any, 0)) == Run(w2, Boundary);
      assert Run(w, Boundary) == Run(w1, Inside(Any, 0));
    } else {
      var w2 := w1[1..];
      var w3 := w2[1..];
      assert Step(Boundary, w[0]) == Some(Inside(Any, 1));
      assert Step(Inside(Any, 1), w1[0]) == Some(Inside(Any, 0));
      assert Step(Inside(Any, 0), w2[0]) == Some(Boundary);
      assert w3 == [];
      assert Run(w2, Inside(Any, 0)) == Run(w3, Boundary);
      assert Run(w1, Inside(Any, 1)) == Run(w2, Inside(Any, 0));
      assert Run(w, Boundary) == Run(w1, Inside(Any, 1));
    }
  }

  lemma {:induction false} TrimRightKeepsUtf8(s: seq<Byte>)
    requires ValidUtf8(s)
    ensures ValidUtf8(TrimRight(s))
    decreases |s|
  {
    var n := TrailingSpaceLen(s);
    if n > 0 {
      Utf8Cut(s, |s| - n);
      TrimRightKeepsUtf8(s[..|s| - n]);
    }
  }
}
