/**
 * `xml_into_csv`: the extension gate, the name of the output file, and the
 * order in which one conversion parses, sniffs the encoding, logs and writes.
 */
module DocumentProcessor {
  import opened Wrappers
  import opened PyStr
  import opened EncodingSniffer
  import opened Diagnostics
  import opened RecordPipeline

  /** `file_path.lower().endswith(".xml")` */
  predicate IsXmlPath(path: string)
  {
    EndsWith(Lower(path), ".xml")
  }

  /** The gate accepts exactly the paths whose last four characters spell
      `.xml` in any mix of cases. */
  lemma IsXmlPathIff(path: string)
    ensures IsXmlPath(path) <==> (|path| >= 4 && path[|path| - 4] == '.'
      && path[|path| - 3] in "xX" && path[|path| - 2] in "mM" && path[|path| - 1] in "lL")
  {
    if |path| >= 4 {
      var n := |path|;
      assert Lower(path)[n - 4..] == [LowerChar(path[n - 4]), LowerChar(path[n - 3]),
                                       LowerChar(path[n - 2]), LowerChar(path[n - 1])];
    }
  }

  /** `file_path.replace('.xml' and '.XML', '.csv')`: the `and` evaluates to
      '.XML', so only upper-case occurrences are replaced. */
  function CsvPath(path: string): string
  {
    Replace(path, ".XML", ".csv")
  }

  /** The output path differs from the input path exactly when the input
      contains `.XML`; the length never changes. */
  lemma CsvPathUnchangedIff(path: string)
    ensures CsvPath(path) == path <==> !Contains(path, ".XML")
    ensures |CsvPath(path)| == |path|
  {
    ReplaceUnchangedIff(path, ".XML", ".csv");
  }

  /** An upper-case `.XML` input is written to a file ending in `.csv`. */
  lemma CsvPathOfUpperCase(path: string)
    requires EndsWith(path, ".XML")
    ensures EndsWith(CsvPath(path), ".csv")
  {
    ReplaceKeepsSuffix(path, ".XML", ".csv");
  }

  /** No `.XML` is left in the output path: every occurrence is replaced,
      and no `.csv` written in its place starts a new one. */
  lemma {:induction false} CsvPathHasNoUpperXml(path: string)
    ensures !Contains(CsvPath(path), ".XML")
    decreases |path|
  {
    if |path| >= 4 {
      if path[..4] == ".XML" {
        CsvPathHasNoUpperXml(path[4..]);
        NoMatchAfterPrefix(".csv", CsvPath(path[4..]), ".XML");
        assert CsvPath(path) == ".csv" + CsvPath(path[4..]);
        ReplacedBlockStartsNoMatch(CsvPath(path[4..]));
      } else {
        CsvPathHasNoUpperXml(path[1..]);
        NoMatchAfterPrefix([path[0]], CsvPath(path[1..]), ".XML");
        assert CsvPath(path) == [path[0]] + CsvPath(path[1..]);
        KeptHeadNoMatch(path);
      }
    }
  }

  /** `.XML` does not start at any of the first four places of `.csv` + rest. */
  lemma ReplacedBlockStartsNoMatch(rest: string)
    ensures forall i :: 0 <= i < 4 ==> !MatchAt(".csv" + rest, ".XML", i)
  {
    var out := ".csv" + rest;
    forall i | 0 <= i < 4 && i + 4 <= |out|
      ensures !MatchAt(out, ".XML", i)
    {
      assert out[i..i + 4][0] == out[i] && out[i..i + 4][1] == out[i + 1];
    }
  }

  /** When a path does not start with `.XML`, its kept first character does
      not start a `.XML` in the output. */
  lemma KeptHeadNoMatch(path: string)
    requires |path| >= 4 && path[..4] != ".XML"
    ensures !MatchAt([path[0]] + CsvPath(path[1..]), ".XML", 0)
  {
    var rest := CsvPath(path[1..]);
    ReplaceKeepsPrefix(path[1..], ".XML", ".csv", "XML");
    var out := [path[0]] + rest;
    assert path[..4] == [path[0]] + path[1..][..3];
    assert out[..4][0] == path[0] && out[..4][1..] == rest[..3];
    assert ".XML"[0] == '.' && ".XML"[1..] == "XML" && ['.'] + "XML" == ".XML";
  }

  /** A lower-case `.xml` input without `.XML` anywhere passes the gate and
      its rows are appended to the input file itself. */
  lemma LowerCaseInputIsOutput(path: string)
    requires EndsWith(path, ".xml") && !Contains(path, ".XML")
    ensures IsXmlPath(path) && CsvPath(path) == path
  {
    IsXmlPathIff(path);
    CsvPathUnchangedIff(path);
  }

  /** What ElementTree gives the conversion: the ДатаФайл element under
      `root[0]`, and the children of `root[1]` (None when the root has no
      second child). */
  datatype Document = Document(validityDate: Field, payerList: Option<seq<PayerNode>>)

  /** How one call of `xml_into_csv` ends. */
  datatype Outcome =
    | Quarantined(destination: string)
      // the input is moved to this path and nothing else happens
    | Raised(exception: Failure)
      // an exception escaped before the output file was opened
    | Appended(output: string, encoding: Option<string>, failure: Option<Failure>)
      // the output file was opened for appending with this encoding (None:
      // the platform default), and the loop ended with this exception, if any

  /**
   * One conversion. `baseName` is `os.path.basename(filePath)`, `parsed` is
   * the parse result (None when parsing raises), `firstLine` the first line
   * of the file in bytes, `decodeUtf8` the UTF-8 decoder, `knownEncoding`
   * tells which encoding names `open` accepts, and `writable(e)` which
   * characters the codec `e` (None: the platform default) can encode.
   */
  method XmlIntoCsv(filePath: string, baseName: string, parsed: Option<Document>,
                    firstLine: seq<byte>, decodeUtf8: seq<byte> -> Option<string>,
                    knownEncoding: string -> bool, writable: Option<string> -> char -> bool)
    returns (outcome: Outcome, rows: seq<Row>, log: seq<Event>)
    ensures outcome.Quarantined? <==> !IsXmlPath(filePath)
    ensures outcome.Quarantined? ==>
      outcome.destination == "bad/" + baseName && rows == [] && log == [NotAnXmlFile(filePath)]
    ensures IsXmlPath(filePath) && parsed.None? ==> outcome == Raised(MalformedXml) && rows == [] && log == []
    ensures IsXmlPath(filePath) && parsed.Some? && GetXmlEncoding(firstLine, decodeUtf8).Undecodable? ==>
      outcome == Raised(UndecodableEncoding) && rows == [] && log == []
    ensures && IsXmlPath(filePath) && parsed.Some? && GetXmlEncoding(firstLine, decodeUtf8).Encoding?
            && !knownEncoding(GetXmlEncoding(firstLine, decodeUtf8).name) ==>
      outcome == Raised(UnknownEncoding) && rows == [] && log == [FileProcessed(filePath)]
    ensures outcome.Appended? <==>
      && IsXmlPath(filePath) && parsed.Some?
      && !GetXmlEncoding(firstLine, decodeUtf8).Undecodable?
      && (GetXmlEncoding(firstLine, decodeUtf8).Encoding? ==>
            knownEncoding(GetXmlEncoding(firstLine, decodeUtf8).name))
    ensures outcome.Appended? ==>
      && outcome.output == CsvPath(filePath)
      && (outcome.encoding.Some? <==> GetXmlEncoding(firstLine, decodeUtf8).Encoding?)
      && (outcome.encoding.Some? ==> outcome.encoding.value == GetXmlEncoding(firstLine, decodeUtf8).name)
      && log != [] && log[0] == FileProcessed(filePath)
    ensures outcome.Appended? && parsed.value.payerList.None? ==>
      rows == [] && log == [FileProcessed(filePath)] && outcome.failure == Some(NoPayerList)
    ensures outcome.Appended? && parsed.value.payerList.Some? ==>
      var run := Run(Context(baseName, parsed.value.validityDate, writable(outcome.encoding)), parsed.value.payerList.value);
      rows == run.rows && log == [FileProcessed(filePath)] + run.log && outcome.failure == run.failure
    ensures outcome.Appended? && outcome.failure.None? ==>
      rows == RowsOf(Context(baseName, parsed.value.validityDate, writable(outcome.encoding)), parsed.value.payerList.value)
  {
    if !IsXmlPath(filePath) {
      return Quarantined("bad/" + baseName), [], [NotAnXmlFile(filePath)];
    }
    if parsed.None? {
      return Raised(MalformedXml), [], [];
    }
    var document := parsed.value;
    var encodingFile: Option<string>;
    match GetXmlEncoding(firstLine, decodeUtf8) {
      case Undecodable =>
        return Raised(UndecodableEncoding), [], [];
      case NoEncoding =>
        encodingFile := None;
      case Encoding(name) =>
        encodingFile := Some(name);
    }
    log := [FileProcessed(filePath)];
    if encodingFile.Some? && !knownEncoding(encodingFile.value) {
      return Raised(UnknownEncoding), [], log;
    }
    var output := CsvPath(filePath);
    if document.payerList.None? {
      return Appended(output, encodingFile, Some(NoPayerList)), [], log;
    }
    var payerLog, uniqueRecords, failure;
    rows, payerLog, uniqueRecords, failure :=
      ProcessPayers(Context(baseName, document.validityDate, writable(encodingFile)), document.payerList.value);
    log := log + payerLog;
    outcome := Appended(output, encodingFile, failure);
  }
}
