/**
 * The SFV manifest format, as both parse loops (CreateFromFile in
 * internal/sfv/file.go and ReadSFVFile in sfv.go) read it. Each line of the
 * text, trimmed of surrounding white space, is skipped when it is shorter
 * than 10 bytes or starts with ';'; otherwise its last 8 bytes are a hex
 * CRC-32, the byte before them is dropped unread, and the rest is the
 * filename. The first line that fails aborts the whole parse.
 */
module Manifest {
  import opened Wrappers
  import opened Text
  import opened Hex

  const Semicolon: Byte := 0x3B

  /** One manifest line: FileEntry in internal/sfv/file.go, SFVEntry in sfv.go. */
  datatype Entry = Entry(filename: seq<Byte>, crc: Uint32)

  /** Why one line stopped the parse; `line` is the 0-based index of the line. */
  datatype LineError =
    | FilenameNotUtf8(line: nat)
    | CrcNotUtf8(line: nat)
    | BadCrc(field: seq<Byte>, reason: NumError)   // ParseUint rejected the CRC field

  /** Why a manifest could not be parsed (the source reports these as error values). */
  datatype ParseError =
    | ReadFailed            // the manifest file could not be read
    | NotUtf8               // the whole text is not valid UTF-8
    | BadLine(error: LineError)

  /** What one line contributes. */
  datatype LineOutcome = Skipped | Accepted(entry: Entry) | Rejected(error: LineError)

  /** A trimmed line that is neither too short nor a comment. */
  predicate IsEntryLine(t: seq<Byte>) {
    |t| >= 10 && t[0] != Semicolon
  }

  /** Everything but the last 9 bytes (8 CRC digits and one separator). */
  function FilenameField(t: seq<Byte>): seq<Byte>
    requires |t| >= 9
  {
    t[..|t| - 9]
  }

  /** The last 8 bytes. */
  function CrcField(t: seq<Byte>): seq<Byte>
    requires |t| >= 8
  {
    t[|t| - 8..]
  }

  /** An entry line whose filename is valid text and whose CRC field is 8 hex digits. */
  predicate WellFormed(t: seq<Byte>) {
    IsEntryLine(t) && ValidUtf8(FilenameField(t)) && AllHex(CrcField(t))
  }

  /** The entry a well-formed line denotes. */
  function EntryOf(t: seq<Byte>): Entry
    requires WellFormed(t)
  {
    HexValueBound(CrcField(t));
    assert Pow16(8) == 0x1_0000_0000;
    Entry(FilenameField(t), HexValue(CrcField(t)))
  }

  /** `%08x` prints the CRC of a well-formed line as that line's CRC field, lower-cased. */
  lemma EntryCrcRoundTrip(t: seq<Byte>)
    requires WellFormed(t)
    ensures Format08x(EntryOf(t).crc) == LowerAll(CrcField(t))
  {
    ParseCrcField(CrcField(t));
    CrcFieldRoundTrip(CrcField(t));
  }

  /** The per-line step of both parse loops, applied to line `i` after trimming. */
  function ClassifyTrimmed(i: nat, t: seq<Byte>): (o: LineOutcome)
    ensures o.Skipped? <==> !IsEntryLine(t)
    ensures o.Accepted? <==> WellFormed(t)
    ensures o.Accepted? ==> o.entry == EntryOf(t)
  {
    if !IsEntryLine(t) then Skipped
    else
      var name := t[..|t| - 9];
      var field := t[|t| - 8..];
      ParseCrcField(field);
      if !ValidUtf8(name) then Rejected(FilenameNotUtf8(i))
      else if !ValidUtf8(field) then
        assert !AllHex(field) by {
          if AllHex(field) { AsciiIsUtf8(field); }
        }
        Rejected(CrcNotUtf8(i))
      else match ParseUint32Hex(field)
        case Failure(k) => Rejected(BadCrc(field, k))
        case Success(v) => Accepted(Entry(name, v))
  }

  /**
   * Why an entry line is rejected: an invalid filename slice is reported
   * first; otherwise the CRC field is not 8 hex digits, reported as invalid
   * text when it is not valid UTF-8 and as a ParseUint syntax error when it
   * is.
   */
  lemma RejectionReason(i: nat, t: seq<Byte>)
    requires ClassifyTrimmed(i, t).Rejected?
    ensures IsEntryLine(t)
    ensures !ValidUtf8(FilenameField(t)) ==> ClassifyTrimmed(i, t).error == FilenameNotUtf8(i)
    ensures ValidUtf8(FilenameField(t)) ==> !AllHex(CrcField(t))
    ensures ValidUtf8(FilenameField(t)) && !ValidUtf8(CrcField(t)) ==> ClassifyTrimmed(i, t).error == CrcNotUtf8(i)
    ensures ValidUtf8(FilenameField(t)) && ValidUtf8(CrcField(t)) ==>
              ClassifyTrimmed(i, t).error == BadCrc(CrcField(t), Syntax)
  {
    ParseCrcField(CrcField(t));
    if AllHex(CrcField(t)) {
      AsciiIsUtf8(CrcField(t));
    }
  }

  /** Line `i` of the split text, as the loops see it. */
  function ClassifyLine(i: nat, raw: seq<Byte>): LineOutcome {
    ClassifyTrimmed(i, TrimSpace(raw))
  }

  /** What each line of `lines` contributes, line by line. */
  function LineOutcomes(lines: seq<seq<Byte>>): (outs: seq<LineOutcome>)
    ensures |outs| == |lines|
    ensures forall j :: 0 <= j < |lines| ==> outs[j] == ClassifyLine(j, lines[j])
  {
    seq(|lines|, j requires 0 <= j < |lines| => ClassifyLine(j, lines[j]))
  }

  /**
   * The state of either parse loop after the lines whose outcomes are
   * `outs`: the entries so far, or the error that stopped it.
   */
  function Collect(outs: seq<LineOutcome>): Result<seq<Entry>, LineError>
  {
    if outs == [] then Success([])
    else match Collect(outs[..|outs| - 1])
      case Failure(e) => Failure(e)
      case Success(es) =>
        match outs[|outs| - 1]
        case Skipped => Success(es)
        case Accepted(e) => Success(es + [e])
        case Rejected(err) => Failure(err)
  }

  /** The manifest text parsed into its entries, or the first error. */
  function Parse(data: seq<Byte>): (r: Result<seq<Entry>, ParseError>)
    ensures !ValidUtf8(data) ==> r == Failure(NotUtf8)
  {
    if !ValidUtf8(data) then Failure(NotUtf8)
    else match Collect(LineOutcomes(Split(data)))
      case Success(es) => Success(es)
      case Failure(e) => Failure(BadLine(e))
  }

  /** One more line: Collect after line `i`, from Collect before it and the line's outcome. */
  lemma CollectStep(outs: seq<LineOutcome>, i: nat, es: seq<Entry>)
    requires i < |outs|
    requires Collect(outs[..i]) == Success(es)
    ensures outs[i].Skipped? ==> Collect(outs[..i + 1]) == Success(es)
    ensures outs[i].Accepted? ==> Collect(outs[..i + 1]) == Success(es + [outs[i].entry])
    ensures outs[i].Rejected? ==> Collect(outs[..i + 1]) == Failure(outs[i].error)
  {
    assert outs[..i + 1][..i] == outs[..i];
  }

  /** Once the loop has failed it stays failed with the same error. */
  lemma {:induction false} FailureSticks(outs: seq<LineOutcome>, i: nat)
    requires i <= |outs|
    requires Collect(outs[..i]).Failure?
    ensures Collect(outs) == Collect(outs[..i])
    decreases |outs|
  {
    if i < |outs| {
      assert outs[..|outs| - 1][..i] == outs[..i];
      FailureSticks(outs[..|outs| - 1], i);
    } else {
      assert outs[..i] == outs;
    }
  }

  /** The index of the first rejected line, or |outs| when no line is rejected. */
  function FirstRejected(outs: seq<LineOutcome>): (j: nat)
    ensures j <= |outs|
    ensures j < |outs| ==> outs[j].Rejected?
    ensures forall j' :: 0 <= j' < j ==> !outs[j'].Rejected?
    decreases |outs|
  {
    if outs == [] then 0
    else
      var init := outs[..|outs| - 1];
      var j := FirstRejected(init);
      assert forall j' :: 0 <= j' < |init| ==> outs[j'] == init[j'];
      if j < |init| then j
      else if outs[|outs| - 1].Rejected? then |init|
      else |outs|
  }

  /**
   * The loop fails exactly when some line is rejected, and then with the
   * error of the first rejected line.
   */
  lemma {:induction false} CollectStopsAtFirstRejection(outs: seq<LineOutcome>)
    ensures Collect(outs).Failure? <==> FirstRejected(outs) < |outs|
    ensures Collect(outs).Failure? ==> Collect(outs).error == outs[FirstRejected(outs)].error
    decreases |outs|
  {
    if outs != [] {
      var init := outs[..|outs| - 1];
      CollectStopsAtFirstRejection(init);
      assert forall j' :: 0 <= j' < |init| ==> outs[j'] == init[j'];
    }
  }

  // ---------------------------------------------------------------------
  // A reference description of the result: the trimmed entry lines.
  // ---------------------------------------------------------------------

  /** The trimmed lines that are long enough and not comments, in order. */
  function KeptLines(lines: seq<seq<Byte>>): seq<seq<Byte>>
  {
    if lines == [] then []
    else
      var t := TrimSpace(lines[|lines| - 1]);
      KeptLines(lines[..|lines| - 1]) + (if IsEntryLine(t) then [t] else [])
  }

  predicate AllWellFormed(kept: seq<seq<Byte>>) {
    forall k :: 0 <= k < |kept| ==> WellFormed(kept[k])
  }

  /** One entry per well-formed line, in order. */
  function EntriesOf(kept: seq<seq<Byte>>): (es: seq<Entry>)
    requires AllWellFormed(kept)
    ensures |es| == |kept|
    ensures forall k :: 0 <= k < |kept| ==> es[k] == EntryOf(kept[k])
    decreases |kept|
  {
    if kept == [] then []
    else EntriesOf(kept[..|kept| - 1]) + [EntryOf(kept[|kept| - 1])]
  }

  /**
   * Over any list of lines, the loop succeeds exactly when every kept line
   * is well formed, and then it holds one entry per kept line, in order.
   */
  lemma {:induction false} CollectShape(lines: seq<seq<Byte>>)
    ensures Collect(LineOutcomes(lines)).Success? <==> AllWellFormed(KeptLines(lines))
    ensures Collect(LineOutcomes(lines)).Success? ==>
              Collect(LineOutcomes(lines)).value == EntriesOf(KeptLines(lines))
    decreases |lines|
  {
    if lines != [] {
      var init := lines[..|lines| - 1];
      CollectShape(init);
      var outs := LineOutcomes(lines);
      assert outs[..|outs| - 1] == LineOutcomes(init);
      var before := KeptLines(init);
      var last := outs[|outs| - 1];
      var t := TrimSpace(lines[|lines| - 1]);
      assert last == ClassifyTrimmed(|lines| - 1, t);
      var added := if IsEntryLine(t) then [t] else [];
      var kept := KeptLines(lines);
      assert kept == before + added;
      AllWellFormedAppend(before, added);
      var r0 := Collect(LineOutcomes(init));
      var n := |outs| - 1;
      assert outs[..n + 1] == outs;
      if r0.Failure? {
        FailureSticks(outs, n);
      } else {
        CollectStep(outs, n, r0.value);
        if last.Skipped? {
          assert kept == before;
        } else if last.Accepted? {
          assert last.entry == EntryOf(t);
          assert kept == before + [t];
          assert kept[..|kept| - 1] == before;
        } else {
          assert added == [t] && !WellFormed(added[0]);
        }
      }
    }
  }

  lemma AllWellFormedAppend(a: seq<seq<Byte>>, b: seq<seq<Byte>>)
    ensures AllWellFormed(a + b) <==> AllWellFormed(a) && AllWellFormed(b)
  {
    if AllWellFormed(a + b) {
      forall k | 0 <= k < |a| ensures WellFormed(a[k]) {
        assert (a + b)[k] == a[k];
      }
      forall k | 0 <= k < |b| ensures WellFormed(b[k]) {
        assert (a + b)[|a| + k] == b[k];
      }
    }
  }

  // ---------------------------------------------------------------------
  // Properties of the whole parse.
  // ---------------------------------------------------------------------

  /**
   * Valid text parses exactly when every kept line is well formed, and then
   * into one entry per kept line, in line order: the filename is the line
   * minus its last 9 bytes and the CRC the value of its last 8, which
   * `%08x` prints back lower-cased.
   */
  lemma ParseEntries(data: seq<Byte>)
    requires ValidUtf8(data)
    ensures Parse(data).Success? <==> AllWellFormed(KeptLines(Split(data)))
    ensures Parse(data).Success? ==> Parse(data).value == EntriesOf(KeptLines(Split(data)))
  {
    CollectShape(Split(data));
  }

  /**
   * `%08x` prints each parsed CRC as the CRC field of its line, lower-cased
   * (what the golden test compares).
   */
  lemma ParsedCrcPrintsBack(data: seq<Byte>, k: nat)
    requires Parse(data).Success? && k < |Parse(data).value|
    ensures var kept := KeptLines(Split(data));
      k < |kept| && WellFormed(kept[k]) && Format08x(Parse(data).value[k].crc) == LowerAll(CrcField(kept[k]))
  {
    ParseEntries(data);
    EntryCrcRoundTrip(KeptLines(Split(data))[k]);
  }

  /** Valid text with no entry lines (only short, blank or comment lines) parses to no entries. */
  lemma ParseOnlySkipped(data: seq<Byte>)
    requires ValidUtf8(data)
    requires forall i :: 0 <= i < |Split(data)| ==> !IsEntryLine(TrimSpace(Split(data)[i]))
    ensures Parse(data) == Success([])
  {
    OnlySkippedKeepsNothing(Split(data));
    CollectShape(Split(data));
  }

  lemma {:induction false} OnlySkippedKeepsNothing(lines: seq<seq<Byte>>)
    requires forall i :: 0 <= i < |lines| ==> !IsEntryLine(TrimSpace(lines[i]))
    ensures KeptLines(lines) == []
    decreases |lines|
  {
    if lines != [] {
      OnlySkippedKeepsNothing(lines[..|lines| - 1]);
    }
  }

  /**
   * Every failure is either invalid text as a whole or the error of the
   * first rejected line.
   */
  lemma ParseFailure(data: seq<Byte>)
    requires Parse(data).Failure?
    ensures !ValidUtf8(data) <==> Parse(data).error == NotUtf8
    ensures ValidUtf8(data) ==>
      var lines := Split(data);
      var j := FirstRejected(LineOutcomes(lines));
      && j < |lines|
      && Parse(data) == Failure(BadLine(ClassifyLine(j, lines[j]).error))
      && forall j' :: 0 <= j' < j ==> !ClassifyLine(j', lines[j']).Rejected?
  {
    if ValidUtf8(data) {
      CollectStopsAtFirstRejection(LineOutcomes(Split(data)));
    }
  }

  /** On a valid line, a filename or CRC slice can only be invalid when its cut splits a character. */
  lemma CutErrorLine(j: nat, raw: seq<Byte>)
    requires ValidUtf8(raw)
    requires ClassifyLine(j, raw).Rejected?
    ensures var t := TrimSpace(raw);
      && |t| >= 10
      && (ClassifyLine(j, raw).error.FilenameNotUtf8? ==> IsContinuation(t[|t| - 9]))
      && (ClassifyLine(j, raw).error.CrcNotUtf8? ==> IsContinuation(t[|t| - 8]))
  {
    var t := TrimSpace(raw);
    RejectionReason(j, t);
    TrimSpaceKeepsUtf8(raw);
    if !IsContinuation(t[|t| - 9]) {
      Utf8Cut(t, |t| - 9);
    }
    if !IsContinuation(t[|t| - 8]) {
      Utf8Cut(t, |t| - 8);
    }
  }

  /**
   * In valid text the filename and CRC slices can only be invalid when the
   * cut splits a multi-byte character: the byte at the cut is a
   * continuation byte.
   */
  lemma CutErrorsSplitCharacters(data: seq<Byte>, i: nat)
    requires Parse(data) == Failure(BadLine(FilenameNotUtf8(i))) || Parse(data) == Failure(BadLine(CrcNotUtf8(i)))
    ensures i < |Split(data)|
    ensures var t := TrimSpace(Split(data)[i]);
      && |t| >= 10
      && (Parse(data) == Failure(BadLine(FilenameNotUtf8(i))) ==> IsContinuation(t[|t| - 9]))
      && (Parse(data) == Failure(BadLine(CrcNotUtf8(i))) ==> IsContinuation(t[|t| - 8]))
  {
    var lines := Split(data);
    var outs := LineOutcomes(lines);
    CollectStopsAtFirstRejection(outs);
    var j := FirstRejected(outs);
    assert outs[j] == ClassifyLine(j, lines[j]);
    RejectionReason(j, TrimSpace(lines[j]));
    assert j == i;
    SplitKeepsUtf8(data);
    CutErrorLine(j, lines[j]);
  }

  /** The byte between filename and CRC is never looked at. */
  lemma SeparatorIgnored(i: nat, t: seq<Byte>, b: Byte)
    requires |t| >= 10
    ensures ClassifyTrimmed(i, t[|t| - 9 := b]) == ClassifyTrimmed(i, t)
  {
    var u := t[|t| - 9 := b];
    assert u[0] == t[0];
    assert FilenameField(u) == FilenameField(t);
    assert CrcField(u) == CrcField(t);
  }

  /** A line ending in CR classifies as the same line without it. */
  lemma CrlfLine(i: nat, raw: seq<Byte>)
    ensures ClassifyLine(i, raw + [CR]) == ClassifyLine(i, raw)
  {
    TrimSpaceDropsTrailingSpace(raw, CR);
  }

  /** Line lists that differ only by trailing CRs give the same loop result. */
  lemma CrlfLines(lines: seq<seq<Byte>>, crlf: seq<seq<Byte>>)
    requires |crlf| == |lines|
    requires forall j :: 0 <= j < |lines| ==> crlf[j] == lines[j] || crlf[j] == lines[j] + [CR]
    ensures Collect(LineOutcomes(crlf)) == Collect(LineOutcomes(lines))
  {
    forall j | 0 <= j < |lines|
      ensures ClassifyLine(j, crlf[j]) == ClassifyLine(j, lines[j])
    {
      CrlfLine(j, lines[j]);
    }
    assert LineOutcomes(crlf) == LineOutcomes(lines);
  }

  /**
   * A manifest with CR LF line endings parses exactly as the same manifest
   * with LF endings: same validity, same entries, same error.
   */
  lemma CrlfText(data: seq<Byte>)
    ensures Parse(ToCrlf(data)) == Parse(data)
  {
    RunToCrlf(data, Boundary);
    assert ValidUtf8(ToCrlf(data)) == ValidUtf8(data);
    if ValidUtf8(data) {
      SplitToCrlf(data);
      var lines := Split(data);
      var crlf := EndWithCr(lines);
      EndWithCrShape(lines);
      CrlfLines(lines, crlf);
      var r := Collect(LineOutcomes(lines));
      assert Collect(LineOutcomes(Split(ToCrlf(data)))) == r;
    }
  }
}
