// The reader of the command-line package (sfv.go): the same line-by-line parse
// as SfvFile.CreateFromFile, returning bare entries instead of a File.

module SfvMain {
  import opened Wrappers
  import opened Text
  import opened Hex
  import opened Manifest

  /**
   * ReadSFVFile: the entries of the manifest whose bytes are `contents`
   * (None when reading fails). On any error the result is empty; on
   * success it is what Parse describes, so this reader and CreateFromFile
   * accept the same manifests with the same entries.
   */
  method ReadSfvFile(contents: Option<seq<Byte>>) returns (out: seq<Entry>, err: Option<ParseError>)
    ensures contents.None? ==> out == [] && err == Some(ReadFailed)
    ensures contents.Some? && Parse(contents.value).Success? ==>
              out == Parse(contents.value).value && err == None
    ensures contents.Some? && Parse(contents.value).Failure? ==>
              out == [] && err == Some(Parse(contents.value).error)
  {
    if contents.None? {
      return [], Some(ReadFailed);
    }
    var b := contents.value;
    if !ValidUtf8(b) {
      return [], Some(NotUtf8);
    }
    out, err := [], None;
    var lines := Split(b);
    ghost var outs := LineOutcomes(lines);
    for i := 0 to |lines|
      invariant Collect(outs[..i]) == Success(out)
    {
      var line := TrimSpace(lines[i]);
      ghost var o := ClassifyTrimmed(i, line);
      assert outs[i] == o;
      CollectStep(outs, i, out);
      if |line| < 10 {
        continue;
      }
      if line[0] == Semicolon {
        continue;
      }
      var rawFilename := line[..|line| - 9];
      if !ValidUtf8(rawFilename) {
        assert o == Rejected(FilenameNotUtf8(i));
        FailureSticks(outs, i + 1);
        return [], Some(BadLine(FilenameNotUtf8(i)));
      }
      var rawCrc := line[|line| - 8..];
      if !ValidUtf8(rawCrc) {
        assert o == Rejected(CrcNotUtf8(i));
        FailureSticks(outs, i + 1);
        return [], Some(BadLine(CrcNotUtf8(i)));
      }
      var parsed := ParseUint32Hex(rawCrc);
      if parsed.Failure? {
        assert o == Rejected(BadCrc(rawCrc, parsed.error));
        FailureSticks(outs, i + 1);
        return [], Some(BadLine(BadCrc(rawCrc, parsed.error)));
      }
      out := out + [Entry(rawFilename, parsed.value)];
    }
    assert outs[..|lines|] == outs;
  }
}
