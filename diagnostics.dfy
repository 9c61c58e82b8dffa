/**
 * What the converter reports: the messages it writes to `log/processing.log`
 * and the exceptions that escape `xml_into_csv`.
 */
module Diagnostics {
  import opened Wrappers

  /** One call to `logging`, with the values its message interpolates. */
  datatype Event =
    | NotAnXmlFile(path: string)                                // error before quarantine
    | FileProcessed(path: string)                               // info, logged before any row
    | MissingKeyAttributes                                      // warning, record skipped
    | InvalidPeriod(period: string)                             // warning, row still written
    | InvalidAmount(amount: string)                             // warning, row still written
    | DuplicateRecord(account: Option<string>, period: string)  // warning, row still written

  /** The exceptions that end a run of `xml_into_csv` early. */
  datatype Failure =
    | MalformedXml         // ElementTree.parse rejects the file
    | UndecodableEncoding  // the declared encoding bytes are not UTF-8
    | UnknownEncoding      // `open` raises LookupError: no codec has the declared name
    | NoPayerList          // the root has no second child, `root[1]` raises
    | PeriodWithoutText    // `len(None)` inside the period check
    | AmountWithoutText    // `float(None)` raises TypeError, which is not caught
    | NoValidityDate       // `.text` on the missing ДатаФайл element
    | UnencodableRow       // `writerow` raises UnicodeEncodeError: the file's codec cannot write a cell
}
