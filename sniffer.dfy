/**
 * The byte scan of `get_xml_encoding`: look for the declared encoding in the
 * first line of the file without decoding the line.
 */
module EncodingSniffer {
  import opened Wrappers
  import opened PyStr

  /** One byte of the file. */
  type byte = b: int | 0 <= b < 256

  /** b'<?xml' */
  const XmlDeclaration: seq<byte> := [0x3C, 0x3F, 0x78, 0x6D, 0x6C]

  /** b'encoding="' */
  const EncodingAttribute: seq<byte> := [0x65, 0x6E, 0x63, 0x6F, 0x64, 0x69, 0x6E, 0x67, 0x3D, 0x22]

  /** b'"' */
  const Quote: byte := 0x22

  /** No quote byte in the range [from, to) of the line. */
  predicate QuoteFree(line: seq<byte>, from: int, to: int)
  {
    forall j :: from <= j < to && 0 <= j < |line| ==> line[j] != Quote
  }

  /**
   * The scan on the first line: if b'<?xml' occurs, the value starts just
   * after the first b'encoding="' and runs to the next quote. When the
   * attribute is missing, find gives -1 and the start is -1 + 10 = 9, which
   * the guard `start != -1` does not catch.
   */
  function ScanEncoding(line: seq<byte>): (r: Option<seq<byte>>)
    ensures r.Some? ==> Contains(line, XmlDeclaration)
    ensures r.Some? ==> Quote !in r.value && |r.value| < |line|
  {
    if Contains(line, XmlDeclaration) then
      var start := Find(line, EncodingAttribute, 0) + |EncodingAttribute|;
      var end := Find(line, [Quote], start);
      if start != -1 && end != -1 then
        QuoteFreeBeforeFind(line, start);
        Some(line[start..end])
      else None
    else None
  }

  /** Every byte between start and the quote find returns is not a quote. */
  lemma QuoteFreeBeforeFind(line: seq<byte>, start: nat)
    ensures var end := Find(line, [Quote], start);
      end != -1 ==> (end < |line| && line[end] == Quote && QuoteFree(line, start, end)
                     && Quote !in line[start..end])
  {
    var end := Find(line, [Quote], start);
    if end != -1 {
      assert line[end..end + 1] == [Quote];
      forall j | start <= j < end
        ensures line[j] != Quote
      {
        assert !MatchAt(line, [Quote], j);
        assert line[j..j + 1] == [line[j]];
      }
      forall j | 0 <= j < end - start
        ensures line[start..end][j] != Quote
      {
        assert line[start..end][j] == line[start + j];
      }
    }
  }

  /** The first quote at or after `from` is the one at q. */
  lemma FindQuote(line: seq<byte>, from: nat, q: nat)
    requires from <= q < |line| && line[q] == Quote && QuoteFree(line, from, q)
    ensures Find(line, [Quote], from) == q
  {
    assert line[q..q + 1] == [Quote];
    assert MatchAt(line, [Quote], q);
    var r := Find(line, [Quote], from);
    if r != -1 {
      assert line[r..r + 1][0] == line[r];
    }
  }

  /** No quote at or after `from`: find gives -1. */
  lemma FindNoQuote(line: seq<byte>, from: nat)
    requires QuoteFree(line, from, |line|)
    ensures Find(line, [Quote], from) == -1
  {
    forall i | from <= i
      ensures !MatchAt(line, [Quote], i)
    {
      if i < |line| {
        assert line[i..i + 1][0] == line[i];
      }
    }
  }

  /** Without b'<?xml' in the line there is no declared encoding. */
  lemma ScanWithoutDeclaration(line: seq<byte>)
    requires !Contains(line, XmlDeclaration)
    ensures ScanEncoding(line).None?
  {
  }

  /** With b'<?xml' present and the first b'encoding="' at k, the result is the
      bytes after the attribute up to the next quote q. */
  lemma ScanDeclared(line: seq<byte>, k: nat, q: nat)
    requires Contains(line, XmlDeclaration)
    requires MatchAt(line, EncodingAttribute, k)
    requires forall j :: 0 <= j < k ==> !MatchAt(line, EncodingAttribute, j)
    requires k + |EncodingAttribute| <= q < |line| && line[q] == Quote
    requires QuoteFree(line, k + |EncodingAttribute|, q)
    ensures ScanEncoding(line) == Some(line[k + |EncodingAttribute|..q])
  {
    assert Find(line, EncodingAttribute, 0) == k;
    FindQuote(line, k + |EncodingAttribute|, q);
  }

  /** With the attribute present but no quote after it, there is no result. */
  lemma ScanUnterminated(line: seq<byte>, k: nat)
    requires Contains(line, XmlDeclaration)
    requires MatchAt(line, EncodingAttribute, k)
    requires forall j :: 0 <= j < k ==> !MatchAt(line, EncodingAttribute, j)
    requires QuoteFree(line, k + |EncodingAttribute|, |line|)
    ensures ScanEncoding(line).None?
  {
    assert Find(line, EncodingAttribute, 0) == k;
    FindNoQuote(line, k + |EncodingAttribute|);
  }

  /** With b'<?xml' present and no b'encoding="' anywhere, the scan starts at
      index 9 and returns the bytes from there to the next quote. */
  lemma ScanMissingAttribute(line: seq<byte>, q: nat)
    requires Contains(line, XmlDeclaration) && !Contains(line, EncodingAttribute)
    requires 9 <= q < |line| && line[q] == Quote && QuoteFree(line, 9, q)
    ensures ScanEncoding(line) == Some(line[9..q])
  {
    FindFromStartIffContains(line, EncodingAttribute);
    FindQuote(line, 9, q);
  }

  /** With b'<?xml' present, no b'encoding="' anywhere and no quote from
      index 9 on, there is no result. */
  lemma ScanMissingAttributeNoQuote(line: seq<byte>)
    requires Contains(line, XmlDeclaration) && !Contains(line, EncodingAttribute)
    requires QuoteFree(line, 9, |line|)
    ensures ScanEncoding(line).None?
  {
    FindFromStartIffContains(line, EncodingAttribute);
    FindNoQuote(line, 9);
  }

  /** The usual declaration `<?xml version="1.0"?>`, which has no encoding attribute. */
  const VersionOnlyLine: seq<byte> :=
    [0x3C, 0x3F, 0x78, 0x6D, 0x6C, 0x20, 0x76, 0x65, 0x72, 0x73, 0x69,
     0x6F, 0x6E, 0x3D, 0x22, 0x31, 0x2E, 0x30, 0x22, 0x3F, 0x3E]

  /** On `<?xml version="1.0"?>` the scan yields the bytes `sion=`, found between
      index 9 and the quote that opens the version value. */
  lemma VersionOnlyDeclaration()
    ensures ScanEncoding(VersionOnlyLine) == Some([0x73, 0x69, 0x6F, 0x6E, 0x3D])
  {
    VersionOnlyHasDeclaration();
    VersionOnlyLacksAttribute();
    VersionOnlyQuotes();
    ScanMissingAttribute(VersionOnlyLine, 14);
  }

  lemma VersionOnlyHasDeclaration()
    ensures Contains(VersionOnlyLine, XmlDeclaration)
  {
    assert VersionOnlyLine[..5] == XmlDeclaration;
    assert MatchAt(VersionOnlyLine, XmlDeclaration, 0);
  }

  lemma VersionOnlyLacksAttribute()
    ensures !Contains(VersionOnlyLine, EncodingAttribute)
  {
    assert 0x64 !in VersionOnlyLine;
    AbsentElementNoMatch(VersionOnlyLine, EncodingAttribute, 4);
  }

  lemma VersionOnlyQuotes()
    ensures VersionOnlyLine[14] == Quote && QuoteFree(VersionOnlyLine, 9, 14)
    ensures VersionOnlyLine[9..14] == [0x73, 0x69, 0x6F, 0x6E, 0x3D]
  {
  }

  /** What get_xml_encoding returns: no declared encoding (Python's None), the
      decoded name, or the failure of the UTF-8 decode, which escapes the call. */
  datatype Sniffed = NoEncoding | Encoding(name: string) | Undecodable

  /** `raw.decode('utf-8')`; `decodeUtf8` gives None where Python raises. */
  function Decoded(raw: seq<byte>, decodeUtf8: seq<byte> -> Option<string>): Sniffed
  {
    match decodeUtf8(raw)
    case None => Undecodable
    case Some(name) => Encoding(name)
  }

  /** `get_xml_encoding` on the first line of the file. */
  function GetXmlEncoding(line: seq<byte>, decodeUtf8: seq<byte> -> Option<string>): (r: Sniffed)
    ensures !Contains(line, XmlDeclaration) ==> r == NoEncoding
    ensures r.NoEncoding? <==> ScanEncoding(line).None?
  {
    match ScanEncoding(line)
    case None => NoEncoding
    case Some(raw) => Decoded(raw, decodeUtf8)
  }

  /** With the first b'encoding="' at k and the next quote at q, the function
      returns the decoding of line[k + 10..q]. */
  lemma SniffDeclared(line: seq<byte>, k: nat, q: nat, decodeUtf8: seq<byte> -> Option<string>)
    requires Contains(line, XmlDeclaration)
    requires MatchAt(line, EncodingAttribute, k)
    requires forall j :: 0 <= j < k ==> !MatchAt(line, EncodingAttribute, j)
    requires k + |EncodingAttribute| <= q < |line| && line[q] == Quote
    requires QuoteFree(line, k + |EncodingAttribute|, q)
    ensures GetXmlEncoding(line, decodeUtf8) == Decoded(line[k + |EncodingAttribute|..q], decodeUtf8)
  {
    ScanDeclared(line, k, q);
  }

  /** With b'<?xml' but no b'encoding="', the function returns the decoding of
      the bytes from index 9 to the next quote, and None without such a quote. */
  lemma SniffMissingAttribute(line: seq<byte>, decodeUtf8: seq<byte> -> Option<string>)
    requires Contains(line, XmlDeclaration) && !Contains(line, EncodingAttribute)
    ensures QuoteFree(line, 9, |line|) ==> GetXmlEncoding(line, decodeUtf8) == NoEncoding
    ensures forall q :: 9 <= q < |line| && line[q] == Quote && QuoteFree(line, 9, q) ==>
      GetXmlEncoding(line, decodeUtf8) == Decoded(line[9..q], decodeUtf8)
  {
    if QuoteFree(line, 9, |line|) {
      ScanMissingAttributeNoQuote(line);
    }
    forall q | 9 <= q < |line| && line[q] == Quote && QuoteFree(line, 9, q)
      ensures GetXmlEncoding(line, decodeUtf8) == Decoded(line[9..q], decodeUtf8)
    {
      ScanMissingAttribute(line, q);
    }
  }

  /** On `<?xml version="1.0"?>` the function decodes `sion=` as the encoding name. */
  lemma SniffVersionOnly(decodeUtf8: seq<byte> -> Option<string>)
    ensures GetXmlEncoding(VersionOnlyLine, decodeUtf8) == Decoded([0x73, 0x69, 0x6F, 0x6E, 0x3D], decodeUtf8)
  {
    VersionOnlyDeclaration();
  }
}
