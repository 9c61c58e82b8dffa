# XML payer registry to CSV — a Dafny model

`main.py` converts an XML payer registry into rows of a semicolon-separated
CSV file. A path that does not end in `.xml` (in any case) is moved to `bad/`.
Otherwise the file is parsed, and the encoding named in its XML declaration is
sniffed from the raw first line. The output file is then opened for
appending with that encoding; `open` raises when no codec has the declared name. Each child of the root's second element (the payer list) becomes one
7-column row: file name, validity date (ДатаФайл under the root's first element),
account (ЛицСч), full name (ФИО), address (Адрес), period (Период) and amount
(Сумма).

A record is skipped only when its ЛицСч or Период element is absent. A period
that is not six digits, an amount that fails the amount check, and a repeated
(account, period) key each log a warning, but the row is still written. Some
records raise instead of being written:

- Период present without text;
- Сумма present without text;
- a document without ДатаФайл, which raises on the first record that has both
  key elements, whose Период has text and whose Сумма is absent or has text,
  before that record's row is written;
- a row with a character the output file's codec cannot encode, which raises
  when `writerow` encodes it, after the record's key has been added.

The model is split into six modules:

- `PyStr` (`pystr.dfy`): the Python string operations the script relies on:
  `find` with a start index, `in`, `endswith`, `replace`, ASCII `lower` and
  `isdigit`.
- `Validators` (`validators.dfy`): `is_valid_period` and `is_valid_csv_amount`,
  with `float()` restricted to decimal literals.
- `EncodingSniffer` (`sniffer.dfy`): the byte scan of `get_xml_encoding`.
- `Diagnostics` (`diagnostics.dfy`): the log messages and the exceptions that
  leave `xml_into_csv`.
- `RecordPipeline` (`pipeline.dfy`): the record loop. It is a method with a
  loop, proved against the function `Run`, which folds one `Step` per record.
  Separate lemmas prove what `Run` does.
- `DocumentProcessor` (`processor.dfy`): the extension gate, the output name,
  and the order of the steps of one conversion.

The model follows what the code does, also where its own docstrings and
messages promise something else:

- The amount check's docstring asks for a positive number with two decimal
  places, but the code rejects only amounts below zero, so `0.00` and `-0.00`
  pass.
- Only the fraction endings `.00`, `.01` and `.99` are accepted.
- The period, amount and duplicate warnings say the row or record is skipped,
  but the row is still written.
- An element that is present but empty does not count as missing.
- The archive move is commented out, so processed files stay in place.
- Because `'.xml' and '.XML'` evaluates to `'.XML'`, only upper-case `.XML` is
  replaced in the output name. A lower-case `name.xml` is therefore appended to
  itself (`LowerCaseInputIsOutput`).
- When the declaration has no `encoding="` attribute, `find` returns -1 and
  the scan starts at index -1 + 10 = 9. The guard `start != -1` never rejects
  that start, so the scan returns the bytes from index 9 up to the next quote
  (`ScanMissingAttribute`, `VersionOnlyDeclaration`).

## Model

| member | source | states |
|---|---|---|
| PyStr.Find | main.py:108-109 | `bytes.find` from a start index: -1 exactly when there is no match at or after the start; otherwise the first match at or after it |
| PyStr.FindFromStartIffContains | main.py:107-108 | `find` from 0 succeeds exactly when the needle occurs (`in`) |
| PyStr.ReplaceUnchangedIff | main.py:52 | with a pattern of the replacement's length, `str.replace` leaves the string unchanged exactly when the pattern does not occur |
| PyStr.ReplaceKeepsSuffix | main.py:52 | a string ending in the pattern ends in the replacement after `replace`, when the pattern's first character does not recur in it |
| Validators.ValidPeriodIsMonthYear | main.py:29-33 | every accepted period is a two-digit month number followed by a four-digit year number |
| Validators.AnyMonthYearIsValidPeriod | main.py:29-33 | every two-digit month and four-digit year is accepted; no month range is checked |
| Validators.PeriodExamples | main.py:29-33 | `012024`, `132024` and `002024` are accepted; a five-character, a non-digit and a seven-character period are rejected |
| Validators.ParseFloat | main.py:21 | a literal that `float()` accepts is well formed and spells the input |
| Validators.ParseSpell | main.py:21 | `float()` accepts the spelling of every well-formed decimal literal, with that literal as its parse |
| Validators.AmountIffShape | main.py:18-26 | the amount check accepts exactly: optional `+` with digits, or `-` with zeros only before `.00`, followed by `.00`, `.01` or `.99` |
| Validators.DigitsWithEndingAccepted | main.py:22-24 | any digit string followed by `.00`, `.01` or `.99` is accepted, zero included |
| Validators.NegativeZeroAccepted | main.py:22 | `-0...0.00` is accepted, because it is not below zero |
| Validators.NegativeRejected | main.py:22-23 | a minus sign before a non-zero magnitude is rejected |
| Validators.OtherFractionRejected | main.py:22-23 | two fraction digits other than 00, 01 and 99 are rejected |
| Validators.FiftyCentsRejected | main.py:22-23 | `12.50` is rejected although it has two decimal places |
| Validators.DigitsValueZeroIff | main.py:22 | a digit string has value zero exactly when all its digits are 0 |
| EncodingSniffer.ScanEncoding | main.py:107-111 | a declared encoding is found only when the line contains `<?xml`; it contains no quote and is shorter than the line |
| EncodingSniffer.ScanWithoutDeclaration | main.py:107 | without `<?xml` in the first line there is no encoding |
| EncodingSniffer.ScanDeclared | main.py:108-111 | with the first `encoding="` at k, the encoding is the bytes from k + 10 up to the next quote |
| EncodingSniffer.ScanUnterminated | main.py:109-110 | with no quote after `encoding="`, there is no encoding |
| EncodingSniffer.ScanMissingAttribute | main.py:108-111 | with `<?xml` but no `encoding="`, the scan starts at 9 and returns the bytes up to the next quote |
| EncodingSniffer.VersionOnlyDeclaration | main.py:107-111 | on `<?xml version="1.0"?>` the scan yields `sion=` |
| EncodingSniffer.ScanMissingAttributeNoQuote | main.py:108-110 | with `<?xml`, no `encoding="` and no quote from index 9 on, there is no encoding |
| EncodingSniffer.SniffDeclared | main.py:108-113 | with the first `encoding="` at k and the next quote after it at q, the result is the UTF-8 decoding of the bytes from k + 10 to q, or the decoding failure |
| EncodingSniffer.SniffMissingAttribute | main.py:108-113 | with `<?xml` but no `encoding="`: no encoding when no quote follows index 9; otherwise the UTF-8 decoding of the bytes from 9 to the first quote at or after 9 |
| EncodingSniffer.SniffVersionOnly | main.py:107-113 | on `<?xml version="1.0"?>` the result is the decoding of `sion=` |
| RecordPipeline.ProcessPayers | main.py:55-100 | the loop's rows, log, key set and exception are `Run` of the records; it ends without exception exactly when no record raises, and then the rows and keys are those of all records with both key elements |
| RecordPipeline.RunClean | main.py:57-100 | the loop ends without exception exactly when no record raises; then one row per record with both key elements, in order, and exactly their keys |
| RecordPipeline.RunAfterFailure | main.py:57 | once an exception leaves the loop, the later records change nothing |
| RecordPipeline.FirstRaiseEndsLoop | main.py:57-100 | the first raising record decides the exception: text-less period, then text-less amount, then missing ДатаФайл, then a cell the codec cannot encode; the rows are those of the earlier records; its key is in the set only for the last two |
| RecordPipeline.UnencodableRowRaises | main.py:87-100 | a record that reaches `writerow` with a character the codec cannot encode ends the loop, with its warnings logged and its key added but no row written |
| RecordPipeline.RecordSkipped | main.py:65-68 | a record without ЛицСч or Период only adds the missing-key warning |
| RecordPipeline.RecordWritten | main.py:70-100 | a record with both key elements that does not raise is written and its key added; the log grows by its warnings, judged against the keys of all earlier records |
| RecordPipeline.WarningsIff | main.py:76-85 | a record's warnings are at most three: invalid period exactly when the period check fails, invalid amount exactly when the amount check fails, duplicate exactly when the key was seen |
| RecordPipeline.RowsShape | main.py:89-100 | every row has 7 cells starting with the file name and the validity date text; without ДатаФайл no row is written |
| RecordPipeline.DuplicatesBothWritten | main.py:82-100 | two records with the same key are both written, and only the second is reported as a duplicate |
| DocumentProcessor.IsXmlPathIff | main.py:37 | the gate accepts exactly the paths whose last four characters are `.xml` in any case |
| DocumentProcessor.CsvPathUnchangedIff | main.py:52 | the output path equals the input path exactly when the input contains no `.XML`; the length never changes |
| DocumentProcessor.CsvPathOfUpperCase | main.py:52 | an input ending in `.XML` gets an output ending in `.csv` |
| DocumentProcessor.CsvPathHasNoUpperXml | main.py:52 | no `.XML` remains anywhere in the output path |
| DocumentProcessor.LowerCaseInputIsOutput | main.py:37-52 | a lower-case `.xml` path without `.XML` passes the gate and is its own output file |
| DocumentProcessor.XmlIntoCsv | main.py:36-100 | non-XML paths are quarantined to `bad/<basename>` with one error logged; a parse or decoding failure raises before anything is logged; a declared encoding that no codec has raises after the processed message and before any row; otherwise the output is the `.XML`→`.csv` name, opened with the declared encoding, the processed message comes first, and the rows, log and exception are those of the record loop, run with the characters that encoding can write |

## Left out

- Logging configuration, timestamps and message wording: the log is a sequence of `Event` values.
- File system effects: `os.makedirs`, `shutil.move` and the CSV append itself. Quarantine is an outcome carrying the destination, and the rows are returned instead of written. Encoding a row can fail, and that failure is modelled: the parameter `writable` of `XmlIntoCsv` says which characters a codec can encode.
- RecordPipeline.Encodable: only the cell texts are checked against the codec. The separators, quotes and line ending that `csv.writer` adds are ASCII and are assumed encodable.
- `os.path.join('bad', …)` is modelled with the POSIX separator `/`.
- `os.path.basename` is an input of `XmlIntoCsv`.
- XML parsing is not modelled: the method receives the parse result as a `Document`, or None when `ElementTree.parse` raises.
- Reading the first line of the file is not modelled: it is a parameter of `XmlIntoCsv`.
- UTF-8 decoding is not modelled: it is a function parameter of `GetXmlEncoding` and of the lemmas about it.
- Python's codec registry is not modelled: which encoding names `open` accepts is the function parameter `knownEncoding` of `XmlIntoCsv`, and which characters each codec (or the platform default) can encode is the function parameter `writable`.
- `root[0]` missing while `root[1]` exists cannot happen (child 1 implies child 0), so `Document` only records the ДатаФайл element: absent, which raises; present without text, which is written as ''; or present with text.
- `print` calls and the command-line entry point (argument count, existence check, the hard-coded test call) are not modelled.
- Validators.ParseFloat: accepts only an optional sign, digits and one optional point. It leaves out Python `float()`'s whitespace, underscores, exponents, `inf`/`nan` and non-ASCII digits; amounts with those forms are rejected here but may pass in Python.
- Validators.IsValidPeriod: `isdigit` is ASCII only. Other Unicode digits are not modelled.
- DocumentProcessor.IsXmlPath: `lower` is ASCII only (`PyStr.Lower`). Other Unicode letters are not modelled.
- Validators.IsValidCsvAmount: the comparison `amount < 0` is modelled on the exact decimal value, not on a binary float; the two agree on every literal the parser accepts except underflow to -0.0 of magnitudes below the smallest float, which this model treats as below zero.
