/**
 * The sfv package (internal/sfv/file.go): a parsed manifest and its
 * verification against the files it names. The file system and the CRC-32
 * of a file's contents are given as oracles; the progress callback is the
 * trace of calls it receives.
 */
module SfvFile {
  import opened Wrappers
  import opened Text
  import opened Hex
  import opened Manifest

  type Path = seq<Byte>

  /** A manifest: where it was read from and its entries, in line order. */
  datatype File = File(filename: Path, files: seq<Entry>)

  /**
   * What os.Stat reports about an existing path: a directory, or anything
   * else (a regular file, a device, a pipe, ...) with its size. Verify only
   * asks IsDir.
   */
  datatype FileInfo = Directory | NonDirectory(size: nat)

  /**
   * The parts of the outside world that Verify consults: filepath.Dir,
   * filepath.Join, os.Stat (None when it fails) and the CRC-32 of a file's
   * contents (None when the file cannot be opened or read).
   */
  datatype FileSystem = FileSystem(
    dir: Path -> Path,
    join: (Path, Path) -> Path,
    stat: Path -> Option<FileInfo>,
    hash: Path -> Option<Uint32>)

  /** The error recorded against one entry. */
  datatype VerifyError =
    | StatFailed     // os.Stat returned an error
    | NotAFile       // the name refers to a directory
    | HashFailed     // the file could not be opened or read
    | Mismatch       // the checksum differs from the manifest's

  datatype ResultEntry = ResultEntry(
    filename: Path,
    expectedCrc: Uint32,
    actualCrc: Uint32,
    actualSize: nat,
    err: Option<VerifyError>)

  datatype VerifyResults = VerifyResults(rootPath: Path, files: seq<ResultEntry>)

  /** The arguments of one call of the progress callback. */
  datatype Progress = Progress(curFile: Path, bytesRead: nat, bytesTotal: nat)

  /** The zero value of a results entry, as `make` creates it. */
  const Blank := ResultEntry([], 0, 0, 0, None)

  // ---------------------------------------------------------------------
  // Reading a manifest.
  // ---------------------------------------------------------------------

  /**
   * CreateFromFile: reads the manifest at `filename` (its bytes, or None
   * when reading fails) line by line. On any error the result is the empty
   * File.
   */
  method CreateFromFile(filename: Path, contents: Option<seq<Byte>>) returns (sf: File, err: Option<ParseError>)
    ensures contents.None? ==> sf == File([], []) && err == Some(ReadFailed)
    ensures contents.Some? && Parse(contents.value).Success? ==>
              sf == File(filename, Parse(contents.value).value) && err == None
    ensures contents.Some? && Parse(contents.value).Failure? ==>
              sf == File([], []) && err == Some(Parse(contents.value).error)
  {
    if contents.None? {
      return File([], []), Some(ReadFailed);
    }
    var b := contents.value;
    if !ValidUtf8(b) {
      return File([], []), Some(NotUtf8);
    }
    sf, err := File(filename, []), None;
    var lines := Split(b);
    ghost var outs := LineOutcomes(lines);
    for i := 0 to |lines|
      invariant sf.filename == filename
      invariant Collect(outs[..i]) == Success(sf.files)
    {
      var line := TrimSpace(lines[i]);
      ghost var o := ClassifyTrimmed(i, line);
      assert outs[i] == o;
      CollectStep(outs, i, sf.files);
      if |line| < 10 {
        continue;
      }
      if line[0] == Semicolon {
        continue;
      }
      var rawFilename := line[..|line| - 9];
      if !ValidUtf8(rawFilename) {
        assert o == Rejected(FilenameNotUtf8(i));
        FailureSticks(outs, i + 1);
        return File([], []), Some(BadLine(FilenameNotUtf8(i)));
      }
      var rawCrc := line[|line| - 8..];
      if !ValidUtf8(rawCrc) {
        assert o == Rejected(CrcNotUtf8(i));
        FailureSticks(outs, i + 1);
        return File([], []), Some(BadLine(CrcNotUtf8(i)));
      }
      var parsed := ParseUint32Hex(rawCrc);
      if parsed.Failure? {
        assert o == Rejected(BadCrc(rawCrc, parsed.error));
        FailureSticks(outs, i + 1);
        return File([], []), Some(BadLine(BadCrc(rawCrc, parsed.error)));
      }
      sf := sf.(files := sf.files + [Entry(rawFilename, parsed.value)]);
    }
    assert outs[..|lines|] == outs;
  }

  // ---------------------------------------------------------------------
  // Verifying a manifest: the specification.
  // ---------------------------------------------------------------------

  /** Where an entry's file is looked up: relative to the manifest's directory. */
  function EntryPath(sf: File, fs: FileSystem, name: Path): Path {
    fs.join(fs.dir(sf.filename), name)
  }

  /** First pass for one entry, given what os.Stat reports: record its size or the error. */
  function StatEntry(e: Entry, st: Option<FileInfo>): (re: ResultEntry)
    ensures re.filename == e.filename && re.expectedCrc == e.crc && re.actualCrc == 0
    ensures re.err.Some? ==> re.actualSize == 0
  {
    var re := Blank.(filename := e.filename, expectedCrc := e.crc);
    match st
    case None => re.(err := Some(StatFailed))
    case Some(Directory) => re.(err := Some(NotAFile))
    case Some(NonDirectory(s)) => re.(actualSize := s)
  }

  /** The results after the first pass. */
  function Pass1(sf: File, fs: FileSystem): (rs: seq<ResultEntry>)
    ensures |rs| == |sf.files|
    ensures forall i :: 0 <= i < |rs| ==>
              rs[i] == StatEntry(sf.files[i], fs.stat(EntryPath(sf, fs, sf.files[i].filename)))
  {
    seq(|sf.files|, i requires 0 <= i < |sf.files| =>
      StatEntry(sf.files[i], fs.stat(EntryPath(sf, fs, sf.files[i].filename))))
  }

  /**
   * Second pass for one entry, given the CRC of its file (None when it
   * cannot be read): entries the first pass rejected are left alone,
   * others get the CRC or the read error, and a mismatch is recorded.
   */
  function HashEntry(re: ResultEntry, h: Option<Uint32>): (out: ResultEntry)
    ensures out.filename == re.filename && out.expectedCrc == re.expectedCrc
    ensures out.actualSize == re.actualSize
    ensures re.err.Some? ==> out == re
    ensures out.err.None? ==> out.actualCrc == out.expectedCrc
  {
    if re.err.Some? then re
    else match h
      case None => re.(err := Some(HashFailed))
      case Some(v) =>
        if v != re.expectedCrc then re.(actualCrc := v, err := Some(Mismatch))
        else re.(actualCrc := v)
  }

  /** The second pass applied to results `rs`: each entry hashed at its path. */
  function HashAll(sf: File, fs: FileSystem, rs: seq<ResultEntry>): (out: seq<ResultEntry>)
    ensures |out| == |rs|
    ensures forall i :: 0 <= i < |rs| ==>
              out[i] == HashEntry(rs[i], fs.hash(EntryPath(sf, fs, rs[i].filename)))
  {
    seq(|rs|, i requires 0 <= i < |rs| => HashEntry(rs[i], fs.hash(EntryPath(sf, fs, rs[i].filename))))
  }

  /**
   * The verification result of every entry, in manifest order: what Verify
   * returns, the second pass over the first pass's results.
   */
  function Outcomes(sf: File, fs: FileSystem): (rs: seq<ResultEntry>)
    ensures |rs| == |sf.files|
    ensures forall i :: 0 <= i < |rs| ==>
              rs[i] == HashEntry(Pass1(sf, fs)[i], fs.hash(EntryPath(sf, fs, sf.files[i].filename)))
    ensures forall i :: 0 <= i < |rs| ==>
              rs[i].filename == sf.files[i].filename && rs[i].expectedCrc == sf.files[i].crc
  {
    HashAll(sf, fs, Pass1(sf, fs))
  }

  /** The sum of the sizes of the first `n` entries that carry no error. */
  function SizeSum(rs: seq<ResultEntry>, n: nat): nat
    requires n <= |rs|
  {
    if n == 0 then 0
    else SizeSum(rs, n - 1) + (if rs[n - 1].err.None? then rs[n - 1].actualSize else 0)
  }

  /** bytesTotal: the sizes of all entries os.Stat found and that are not directories. */
  function TotalSize(sf: File, fs: FileSystem): nat {
    SizeSum(Pass1(sf, fs), |sf.files|)
  }

  /**
   * The progress calls made while the second pass walks the first `n`
   * entries of `rs` (the first pass's results): one per entry without an
   * error, with the bytes hashed before it.
   */
  function Trace(rs: seq<ResultEntry>, n: nat, total: nat): (t: seq<Progress>)
    requires n <= |rs|
    ensures |t| == |Readable(rs, n)|
    ensures forall k :: 0 <= k < |t| ==> t[k].bytesTotal == total
  {
    if n == 0 then []
    else
      var re := rs[n - 1];
      Trace(rs, n - 1, total) + (if re.err.None? then [Progress(re.filename, SizeSum(rs, n - 1), total)] else [])
  }

  /** Every call of the progress callback during one verification. */
  function ProgressTrace(sf: File, fs: FileSystem): (t: seq<Progress>)
    ensures |t| == |Hashed(sf, fs)|
    ensures forall k :: 0 <= k < |t| ==> t[k].bytesTotal == TotalSize(sf, fs)
  {
    Trace(Pass1(sf, fs), |sf.files|, TotalSize(sf, fs))
  }

  /** The first `n` entries without an error, in order: the ones the second pass hashes. */
  function Readable(rs: seq<ResultEntry>, n: nat): (ok: seq<ResultEntry>)
    requires n <= |rs|
    ensures |ok| <= n
    ensures forall k :: 0 <= k < |ok| ==> ok[k].err.None?
  {
    if n == 0 then []
    else Readable(rs, n - 1) + (if rs[n - 1].err.None? then [rs[n - 1]] else [])
  }

  /** The entries the second pass hashes, in manifest order. */
  function Hashed(sf: File, fs: FileSystem): seq<ResultEntry> {
    Readable(Pass1(sf, fs), |sf.files|)
  }

  // ---------------------------------------------------------------------
  // Verifying a manifest: the two passes over a results array.
  // ---------------------------------------------------------------------

  /**
   * File.Verify: the first pass stats every entry and totals the sizes; the
   * second hashes every entry the first pass found, reporting progress
   * before each file when a callback is given (`withProgress`), and records
   * read errors and mismatches.
   */
  method Verify(sf: File, fs: FileSystem, withProgress: bool) returns (results: VerifyResults, trace: seq<Progress>)
    ensures results == VerifyResults(fs.dir(sf.filename), Outcomes(sf, fs))
    ensures trace == if withProgress then ProgressTrace(sf, fs) else []
  {
    var rootPath := fs.dir(sf.filename);
    var files := new ResultEntry[|sf.files|](_ => Blank);
    var bytesTotal := StatPass(sf, fs, rootPath, files);
    trace := HashPass(sf, fs, rootPath, files, bytesTotal, withProgress);
    results := VerifyResults(rootPath, files[..]);
  }

  /** The first loop of Verify: fill in each entry from os.Stat and total the sizes. */
  method StatPass(sf: File, fs: FileSystem, rootPath: Path, files: array<ResultEntry>) returns (bytesTotal: nat)
    requires rootPath == fs.dir(sf.filename)
    requires files.Length == |sf.files|
    modifies files
    ensures files[..] == Pass1(sf, fs)
    ensures bytesTotal == TotalSize(sf, fs)
  {
    ghost var p1 := Pass1(sf, fs);
    bytesTotal := 0;
    for i := 0 to files.Length
      invariant forall k :: 0 <= k < i ==> files[k] == p1[k]
      invariant bytesTotal == SizeSum(p1, i)
    {
      var entry := sf.files[i];
      var re := StatOne(fs, fs.join(rootPath, entry.filename), entry);
      if re.err.None? {
        bytesTotal := bytesTotal + re.actualSize;
      }
      files[i] := re;
    }
    assert files[..] == p1;
  }

  /**
   * The body of the first loop for one entry: start from the zero value,
   * copy the name and expected CRC, then record what os.Stat reports for
   * the entry's path.
   */
  method StatOne(fs: FileSystem, path: Path, entry: Entry) returns (re: ResultEntry)
    ensures re == StatEntry(entry, fs.stat(path))
  {
    re := Blank.(filename := entry.filename, expectedCrc := entry.crc);
    match fs.stat(path) {
      case None =>
        re := re.(err := Some(StatFailed));
      case Some(Directory) =>
        re := re.(err := Some(NotAFile));
      case Some(NonDirectory(s)) =>
        re := re.(actualSize := s);
    }
  }

  /**
   * The second loop of Verify: hash every entry the first pass found,
   * calling the progress callback before each, and record read errors and
   * mismatches.
   */
  method HashPass(sf: File, fs: FileSystem, rootPath: Path, files: array<ResultEntry>, bytesTotal: nat, withProgress: bool)
    returns (trace: seq<Progress>)
    requires rootPath == fs.dir(sf.filename)
    modifies files
    ensures files[..] == HashAll(sf, fs, old(files[..]))
    ensures trace == if withProgress then Trace(old(files[..]), files.Length, bytesTotal) else []
  {
    ghost var p1 := files[..];
    ghost var outs := HashAll(sf, fs, p1);
    var bytesRead := 0;
    trace := [];
    for i := 0 to files.Length
      invariant forall k :: 0 <= k < i ==> files[k] == outs[k]
      invariant forall k :: i <= k < files.Length ==> files[k] == p1[k]
      invariant bytesRead == SizeSum(p1, i)
      invariant trace == if withProgress then Trace(p1, i, bytesTotal) else []
    {
      var re := files[i];
      if re.err.None? {
        if withProgress {
          trace := trace + [Progress(re.filename, bytesRead, bytesTotal)];
        }
        bytesRead := bytesRead + re.actualSize;
        re := HashOne(fs, fs.join(rootPath, re.filename), re);
        files[i] := re;
      }
    }
    assert files[..] == outs;
  }

  /**
   * The body of the second loop for an entry the first pass found: hash
   * the file at `path` and record the CRC, the read error or the mismatch.
   */
  method HashOne(fs: FileSystem, path: Path, re: ResultEntry) returns (out: ResultEntry)
    requires re.err.None?
    ensures out == HashEntry(re, fs.hash(path))
  {
    var hash := fs.hash(path);
    if hash.None? {
      return re.(err := Some(HashFailed));
    }
    out := re.(actualCrc := hash.value);
    if out.actualCrc != out.expectedCrc {
      out := out.(err := Some(Mismatch));
    }
  }

  // ---------------------------------------------------------------------
  // What verification reports.
  // ---------------------------------------------------------------------

  /**
   * Each entry's result, by what the file system reports for its path: a
   * stat error, a directory, an unreadable file, a mismatch, or a match;
   * the size is known only for non-directories and the actual CRC only for
   * files that were read.
   */
  lemma VerifyClassification(sf: File, fs: FileSystem, i: nat)
    requires i < |sf.files|
    ensures var r := Outcomes(sf, fs)[i];
      var st := fs.stat(EntryPath(sf, fs, sf.files[i].filename));
      var h := fs.hash(EntryPath(sf, fs, sf.files[i].filename));
      && (r.err == Some(StatFailed) <==> st.None?)
      && (r.err == Some(NotAFile) <==> st == Some(Directory))
      && (r.err == Some(HashFailed) <==> st.Some? && st.value.NonDirectory? && h.None?)
      && (r.err == Some(Mismatch) <==> st.Some? && st.value.NonDirectory? && h.Some? && h.value != sf.files[i].crc)
      && (r.err.None? <==> st.Some? && st.value.NonDirectory? && h == Some(sf.files[i].crc))
      && r.actualSize == (if st.Some? && st.value.NonDirectory? then st.value.size else 0)
      && r.actualCrc == (if st.Some? && st.value.NonDirectory? && h.Some? then h.value else 0)
  {
    var p1 := Pass1(sf, fs);
    assert Outcomes(sf, fs)[i] == HashEntry(p1[i], fs.hash(EntryPath(sf, fs, p1[i].filename)));
  }

  /**
   * Only entries that the first pass found as non-directories are hashed:
   * changing the hash oracle anywhere else changes nothing.
   */
  lemma HashedOnlyIfFound(sf: File, fs: FileSystem, hash2: Path -> Option<Uint32>)
    requires forall i :: 0 <= i < |sf.files| && Pass1(sf, fs)[i].err.None? ==>
               hash2(EntryPath(sf, fs, sf.files[i].filename)) == fs.hash(EntryPath(sf, fs, sf.files[i].filename))
    ensures Outcomes(sf, fs.(hash := hash2)) == Outcomes(sf, fs)
  {
    var fs2 := fs.(hash := hash2);
    var a := Outcomes(sf, fs2);
    var b := Outcomes(sf, fs);
    assert fs2.stat == fs.stat && fs2.dir == fs.dir && fs2.join == fs.join;
    forall i | 0 <= i < |sf.files|
      ensures a[i] == b[i]
    {
      var p := EntryPath(sf, fs, sf.files[i].filename);
      assert EntryPath(sf, fs2, sf.files[i].filename) == p;
      assert Pass1(sf, fs2)[i] == Pass1(sf, fs)[i];
    }
  }

  /** Appending entries does not change the sum of a prefix. */
  lemma {:induction false} SizeSumPrefix(a: seq<ResultEntry>, b: seq<ResultEntry>, n: nat)
    requires n <= |a|
    ensures SizeSum(a + b, n) == SizeSum(a, n)
  {
    if n > 0 {
      SizeSumPrefix(a, b, n - 1);
      assert (a + b)[n - 1] == a[n - 1];
    }
  }

  /** Sums of longer prefixes are larger. */
  lemma {:induction false} SizeSumMonotone(rs: seq<ResultEntry>, j: nat, k: nat)
    requires j <= k <= |rs|
    ensures SizeSum(rs, j) <= SizeSum(rs, k)
  {
    if j < k {
      SizeSumMonotone(rs, j, k - 1);
    }
  }

  /**
   * The second pass reads exactly the sizes of the entries it hashes, so
   * bytesRead ends equal to bytesTotal.
   */
  lemma {:induction false} ReadableSum(rs: seq<ResultEntry>, n: nat)
    requires n <= |rs|
    ensures SizeSum(Readable(rs, n), |Readable(rs, n)|) == SizeSum(rs, n)
  {
    if n > 0 {
      ReadableSum(rs, n - 1);
      var ok := Readable(rs, n);
      var ok0 := Readable(rs, n - 1);
      if rs[n - 1].err.None? {
        assert ok == ok0 + [rs[n - 1]];
        SizeSumPrefix(ok0, [rs[n - 1]], |ok0|);
        assert SizeSum(ok, |ok|) == SizeSum(ok, |ok0|) + rs[n - 1].actualSize;
      } else {
        assert ok == ok0;
      }
    }
  }

  /**
   * One progress call per entry of `ok`, in order, each reporting the sizes
   * of the entries before it (see CallsAt).
   */
  function Calls(ok: seq<ResultEntry>, m: nat, total: nat): (c: seq<Progress>)
    requires m <= |ok|
    ensures |c| == m
  {
    if m == 0 then [] else Calls(ok, m - 1, total) + [Progress(ok[m - 1].filename, SizeSum(ok, m - 1), total)]
  }

  /** The `k`-th call names the `k`-th entry and the bytes of the entries before it. */
  lemma {:induction false} CallsAt(ok: seq<ResultEntry>, m: nat, total: nat, k: nat)
    requires k < m <= |ok|
    ensures Calls(ok, m, total)[k] == Progress(ok[k].filename, SizeSum(ok, k), total)
  {
    if k < m - 1 {
      CallsAt(ok, m - 1, total, k);
    }
  }

  lemma {:induction false} CallsPrefix(a: seq<ResultEntry>, b: seq<ResultEntry>, m: nat, total: nat)
    requires m <= |a|
    ensures Calls(a + b, m, total) == Calls(a, m, total)
  {
    if m > 0 {
      CallsPrefix(a, b, m - 1, total);
      SizeSumPrefix(a, b, m - 1);
      assert (a + b)[m - 1] == a[m - 1];
    }
  }

  /**
   * The progress calls are one per hashed entry, in order: each names the
   * entry, reports the bytes of the entries hashed before it, and the
   * constant total.
   */
  lemma {:induction false} TraceShape(rs: seq<ResultEntry>, n: nat, total: nat)
    requires n <= |rs|
    ensures Trace(rs, n, total) == Calls(Readable(rs, n), |Readable(rs, n)|, total)
  {
    if n > 0 {
      TraceShape(rs, n - 1, total);
      var re := rs[n - 1];
      var ok0 := Readable(rs, n - 1);
      var before := Calls(ok0, |ok0|, total);
      if re.err.None? {
        var ok := ok0 + [re];
        assert Readable(rs, n) == ok;
        ReadableSum(rs, n - 1);
        CallsPrefix(ok0, [re], |ok0|, total);
        SizeSumPrefix(ok0, [re], |ok0|);
        var call := Progress(re.filename, SizeSum(rs, n - 1), total);
        assert Trace(rs, n, total) == before + [call];
        assert Calls(ok, |ok|, total) == Calls(ok, |ok0|, total) + [call];
      } else {
        assert Readable(rs, n) == ok0;
        assert Trace(rs, n, total) == before + [];
      }
    }
  }

  /**
   * Progress never goes backwards, never claims more than the total, and
   * the total is the same in every call; the calls name the hashed files
   * in order.
   */
  lemma ProgressBounded(sf: File, fs: FileSystem)
    ensures var t := ProgressTrace(sf, fs);
      var ok := Hashed(sf, fs);
      && |t| == |ok|
      && (forall k :: 0 <= k < |t| ==> t[k].bytesTotal == TotalSize(sf, fs))
      && (forall k :: 0 <= k < |t| ==> t[k].curFile == ok[k].filename)
      && (forall k :: 0 <= k < |t| ==> t[k].bytesRead + ok[k].actualSize <= t[k].bytesTotal)
      && (forall j, k :: 0 <= j <= k < |t| ==> t[j].bytesRead <= t[k].bytesRead)
  {
    var p1 := Pass1(sf, fs);
    var total := TotalSize(sf, fs);
    var ok := Hashed(sf, fs);
    var t := ProgressTrace(sf, fs);
    TraceShape(p1, |p1|, total);
    ReadableSum(p1, |p1|);
    assert t == Calls(ok, |ok|, total);
    forall k | 0 <= k < |ok|
      ensures t[k] == Progress(ok[k].filename, SizeSum(ok, k), total)
      ensures SizeSum(ok, k) + ok[k].actualSize <= total
    {
      CallsAt(ok, |ok|, total, k);
      SizeSumMonotone(ok, k + 1, |ok|);
    }
    forall j, k | 0 <= j <= k < |ok|
      ensures t[j].bytesRead <= t[k].bytesRead
    {
      SizeSumMonotone(ok, j, k);
    }
  }

  /**
   * The progress calls cover the total exactly: the last call's bytes plus
   * the last file's size is the total, and with no call the total is 0.
   */
  lemma ProgressReachesTotal(sf: File, fs: FileSystem)
    ensures var t := ProgressTrace(sf, fs);
      var ok := Hashed(sf, fs);
      && (t == [] ==> TotalSize(sf, fs) == 0)
      && (t != [] ==> |ok| == |t| && t[|t| - 1].bytesRead + ok[|t| - 1].actualSize == TotalSize(sf, fs))
  {
    var p1 := Pass1(sf, fs);
    var total := TotalSize(sf, fs);
    var ok := Hashed(sf, fs);
    TraceShape(p1, |p1|, total);
    ReadableSum(p1, |p1|);
    if ok != [] {
      CallsAt(ok, |ok|, total, |ok| - 1);
    }
  }
}
