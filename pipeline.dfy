/**
 * The record loop of `xml_into_csv`: every child of the payer list becomes a
 * CSV row unless one of its two key elements is absent. The period and amount
 * checks and the duplicate check only log warnings.
 */
module RecordPipeline {
  import opened Wrappers
  import opened Validators
  import opened Diagnostics

  /** `record.find(tag)` followed by `.text`: None when the element is absent,
      Some(None) when it is present but has no text. */
  type Field = Option<Option<string>>

  /** One child of the payer list with the five elements the loop reads:
      ЛицСч, ФИО, Адрес, Период and Сумма. */
  datatype PayerNode = PayerNode(account: Field, fullName: Field, address: Field, period: Field, amount: Field)

  /** The key of `unique_records`; an account element without text gives
      None, which is a different key from the empty string. */
  type Key = (Option<string>, string)

  /** One CSV row: file name, validity date, account, name, address, period, amount. */
  type Row = seq<string>

  /** What every record of one document shares: `os.path.basename(file_path)`,
      the ДатаФайл element under `root[0]`, and the characters the output
      file's codec can encode. */
  datatype Context = Context(baseName: string, validityDate: Field, writable: char -> bool)

  /** The text csv.writer puts in a cell: the element's text, or '' for an
      absent element (the loop's default) or missing text (csv writes None as ''). */
  function Cell(f: Field): string
  {
    match f
    case Some(Some(t)) => t
    case _ => ""
  }

  /** `writerow` encodes the row with the file's codec; every character of
      every cell must be one the codec can write. */
  predicate Encodable(ctx: Context, row: Row)
  {
    forall i :: 0 <= i < |row| ==> Writable(ctx, row[i])
  }

  /** The codec can write every character of the cell. */
  predicate Writable(ctx: Context, cell: string)
  {
    forall j :: 0 <= j < |cell| ==> ctx.writable(cell[j])
  }

  /** The loop skips a record only when ЛицСч or Период is absent. */
  predicate HasKeyElements(p: PayerNode)
  {
    p.account.Some? && p.period.Some?
  }

  /** A record that passes the key test but makes the loop raise. */
  predicate Raises(ctx: Context, p: PayerNode)
  {
    && HasKeyElements(p)
    && (|| p.period == Some(None) || p.amount == Some(None) || ctx.validityDate.None?
        || !Encodable(ctx, RowOf(ctx, p)))
  }

  /** Which exception such a record raises, in the order the loop evaluates. */
  function RaisedBy(ctx: Context, p: PayerNode): Failure
    requires Raises(ctx, p)
  {
    if p.period == Some(None) then PeriodWithoutText
    else if p.amount == Some(None) then AmountWithoutText
    else if ctx.validityDate.None? then NoValidityDate
    else UnencodableRow
  }

  /** `unique_key = (account_number, period)` */
  function KeyOf(p: PayerNode): Key
    requires HasKeyElements(p)
  {
    (p.account.value, Cell(p.period))
  }

  /** The row written for a record. */
  function RowOf(ctx: Context, p: PayerNode): Row
  {
    [ctx.baseName, Cell(ctx.validityDate), Cell(p.account), Cell(p.fullName),
     Cell(p.address), Cell(p.period), Cell(p.amount)]
  }

  /** What the loop has produced so far: rows written, log, `unique_records`,
      and the exception that ended the loop, if any. */
  datatype State = State(rows: seq<Row>, log: seq<Event>, keys: set<Key>, failure: Option<Failure>)

  /** The warning the period check logs. */
  function PeriodWarning(period: string): seq<Event>
  {
    if IsValidPeriod(period) then [] else [InvalidPeriod(period)]
  }

  /** The warning the amount check logs. */
  function AmountWarning(amount: string): seq<Event>
  {
    if IsValidCsvAmount(amount) then [] else [InvalidAmount(amount)]
  }

  /** The warning the duplicate check logs. */
  function DuplicateWarning(seen: set<Key>, key: Key): seq<Event>
  {
    if key in seen then [DuplicateRecord(key.0, key.1)] else []
  }

  /** The warnings logged for a record that passes the key test and whose
      amount has text, given the keys of the earlier records. */
  function RecordWarnings(seen: set<Key>, p: PayerNode): seq<Event>
    requires HasKeyElements(p)
  {
    PeriodWarning(Cell(p.period)) + AmountWarning(Cell(p.amount)) + DuplicateWarning(seen, KeyOf(p))
  }

  /** One iteration of the loop; after an exception nothing changes. */
  function Step(ctx: Context, st: State, p: PayerNode): State
  {
    if st.failure.Some? then st
    else if !HasKeyElements(p) then st.(log := st.log + [MissingKeyAttributes])
    else if p.period == Some(None) then st.(failure := Some(PeriodWithoutText))
    else
      var periodLog := st.log + PeriodWarning(Cell(p.period));
      if p.amount == Some(None) then st.(log := periodLog, failure := Some(AmountWithoutText))
      else
        var log := periodLog + AmountWarning(Cell(p.amount)) + DuplicateWarning(st.keys, KeyOf(p));
        var keys := st.keys + {KeyOf(p)};
        if ctx.validityDate.None? then State(st.rows, log, keys, Some(NoValidityDate))
        else if !Encodable(ctx, RowOf(ctx, p)) then State(st.rows, log, keys, Some(UnencodableRow))
        else State(st.rows + [RowOf(ctx, p)], log, keys, None)
  }

  /** The loop over a sequence of records. */
  function Run(ctx: Context, ps: seq<PayerNode>): State
    decreases |ps|
  {
    if ps == [] then State([], [], {}, None)
    else Step(ctx, Run(ctx, ps[..|ps| - 1]), ps[|ps| - 1])
  }

  /** Reference: the rows of all records that have both key elements, in order. */
  function RowsOf(ctx: Context, ps: seq<PayerNode>): seq<Row>
    decreases |ps|
  {
    if ps == [] then []
    else
      var last := ps[|ps| - 1];
      RowsOf(ctx, ps[..|ps| - 1]) + (if HasKeyElements(last) then [RowOf(ctx, last)] else [])
  }

  /** Reference: the keys of all records that have both key elements. */
  function KeysOf(ps: seq<PayerNode>): set<Key>
  {
    set p | p in ps && HasKeyElements(p) :: KeyOf(p)
  }

  /**
   * `for record in payer_info`: the loop of main.py, record by record. It
   * returns the rows written, the log, `unique_records`, and the exception
   * that left the loop.
   */
  method ProcessPayers(ctx: Context, payers: seq<PayerNode>)
    returns (rows: seq<Row>, log: seq<Event>, uniqueRecords: set<Key>, failure: Option<Failure>)
    ensures State(rows, log, uniqueRecords, failure) == Run(ctx, payers)
    ensures failure.None? <==> forall p :: p in payers ==> !Raises(ctx, p)
    ensures failure.None? ==> rows == RowsOf(ctx, payers) && uniqueRecords == KeysOf(payers)
  {
    rows, log, uniqueRecords, failure := [], [], {}, None;
    for i := 0 to |payers|
      invariant State(rows, log, uniqueRecords, None) == Run(ctx, payers[..i])
    {
      var record := payers[i];
      ghost var before := State(rows, log, uniqueRecords, None);
      RunSnoc(ctx, payers, i);
      if record.account.None? || record.period.None? {
        log := log + [MissingKeyAttributes];
        continue;
      }
      var accountNumber := record.account.value;
      if record.period.value.None? {
        failure := Some(PeriodWithoutText);
        FailureEndsRun(ctx, payers, i, State(rows, log, uniqueRecords, failure));
        return;
      }
      var period := record.period.value.value;
      if !IsValidPeriod(period) {
        log := log + [InvalidPeriod(period)];
      }
      assert log == before.log + PeriodWarning(period);
      if record.amount == Some(None) {
        failure := Some(AmountWithoutText);
        FailureEndsRun(ctx, payers, i, State(rows, log, uniqueRecords, failure));
        return;
      }
      var amount := Cell(record.amount);
      if !IsValidCsvAmount(amount) {
        log := log + [InvalidAmount(amount)];
      }
      assert log == before.log + PeriodWarning(period) + AmountWarning(amount);
      var uniqueKey := (accountNumber, period);
      if uniqueKey in uniqueRecords {
        log := log + [DuplicateRecord(accountNumber, period)];
      }
      assert log == before.log + PeriodWarning(period) + AmountWarning(amount)
        + DuplicateWarning(before.keys, uniqueKey);
      uniqueRecords := uniqueRecords + {uniqueKey};
      if ctx.validityDate.None? {
        failure := Some(NoValidityDate);
        FailureEndsRun(ctx, payers, i, State(rows, log, uniqueRecords, failure));
        return;
      }
      var row := [ctx.baseName, Cell(ctx.validityDate), Cell(record.account),
                  Cell(record.fullName), Cell(record.address), period, amount];
      if !Encodable(ctx, row) {
        failure := Some(UnencodableRow);
        FailureEndsRun(ctx, payers, i, State(rows, log, uniqueRecords, failure));
        return;
      }
      rows := rows + [row];
    }
    assert payers[..|payers|] == payers;
    RunClean(ctx, payers);
  }

  /** A record that raises ends the loop with the state that record's step leaves. */
  lemma FailureEndsRun(ctx: Context, ps: seq<PayerNode>, i: nat, st: State)
    requires i < |ps| && st == Run(ctx, ps[..i + 1]) && st.failure.Some?
    ensures st == Run(ctx, ps)
    ensures st.failure.None? <==> forall p :: p in ps ==> !Raises(ctx, p)
    ensures st.failure.None? ==> st.rows == RowsOf(ctx, ps) && st.keys == KeysOf(ps)
  {
    RunAfterFailure(ctx, ps, i + 1);
    RunClean(ctx, ps);
  }

  /** The loop over the first i + 1 records is one more step of the loop over the first i. */
  lemma RunSnoc(ctx: Context, ps: seq<PayerNode>, i: nat)
    requires i < |ps|
    ensures Run(ctx, ps[..i + 1]) == Step(ctx, Run(ctx, ps[..i]), ps[i])
  {
    assert ps[..i + 1][..i] == ps[..i];
  }

  /** Once an exception has left the loop, the later records change nothing. */
  lemma {:induction false} RunAfterFailure(ctx: Context, ps: seq<PayerNode>, i: nat)
    requires i <= |ps| && Run(ctx, ps[..i]).failure.Some?
    ensures Run(ctx, ps) == Run(ctx, ps[..i])
    decreases |ps|
  {
    if i < |ps| {
      var init := ps[..|ps| - 1];
      assert init[..i] == ps[..i];
      RunAfterFailure(ctx, init, i);
    } else {
      assert ps[..i] == ps;
    }
  }

  /** Adding one record to the end adds its key, if it has one. */
  lemma KeysOfSnoc(init: seq<PayerNode>, p: PayerNode)
    ensures KeysOf(init + [p]) == KeysOf(init) + (if HasKeyElements(p) then {KeyOf(p)} else {})
  {
    var ps := init + [p];
    forall q | q in ps
      ensures q in init || q == p
    {
    }
  }

  /**
   * The loop ends without exception exactly when no record raises, and then
   * it has written one row for every record with both key elements and
   * collected exactly those records' keys.
   */
  lemma {:induction false} RunClean(ctx: Context, ps: seq<PayerNode>)
    ensures Run(ctx, ps).failure.None? <==> forall p :: p in ps ==> !Raises(ctx, p)
    ensures Run(ctx, ps).failure.None? ==>
      Run(ctx, ps).rows == RowsOf(ctx, ps) && Run(ctx, ps).keys == KeysOf(ps)
    decreases |ps|
  {
    if ps != [] {
      var init, last := ps[..|ps| - 1], ps[|ps| - 1];
      assert ps == init + [last];
      RunClean(ctx, init);
      KeysOfSnoc(init, last);
      if Run(ctx, init).failure.Some? {
        var q :| q in init && Raises(ctx, q);
        assert q in ps;
      } else if Run(ctx, ps).failure.None? {
        forall q | q in ps
          ensures !Raises(ctx, q)
        {
          if q != last {
            assert q in init;
          }
        }
      } else {
        assert Raises(ctx, last) && last in ps;
      }
    }
  }

  /** The warnings logged for one record: each of the three is logged
      exactly when its check fails, and nothing else is. */
  lemma WarningsIff(seen: set<Key>, p: PayerNode)
    requires HasKeyElements(p)
    ensures var w := RecordWarnings(seen, p);
      && |w| <= 3
      && (InvalidPeriod(Cell(p.period)) in w <==> !IsValidPeriod(Cell(p.period)))
      && (InvalidAmount(Cell(p.amount)) in w <==> !IsValidCsvAmount(Cell(p.amount)))
      && (DuplicateRecord(p.account.value, Cell(p.period)) in w <==> KeyOf(p) in seen)
      && (forall e :: e in w ==> e.InvalidPeriod? || e.InvalidAmount? || e.DuplicateRecord?)
  {
    var period, amount := Cell(p.period), Cell(p.amount);
    var w1, w2, w3 := PeriodWarning(period), AmountWarning(amount), DuplicateWarning(seen, KeyOf(p));
    var dup := DuplicateRecord(p.account.value, period);
    assert |w1| <= 1 && (forall e :: e in w1 ==> e == InvalidPeriod(period))
      && (InvalidPeriod(period) in w1 <==> !IsValidPeriod(period));
    assert |w2| <= 1 && (forall e :: e in w2 ==> e == InvalidAmount(amount))
      && (InvalidAmount(amount) in w2 <==> !IsValidCsvAmount(amount));
    assert |w3| <= 1 && (forall e :: e in w3 ==> e == dup) && (dup in w3 <==> KeyOf(p) in seen);
    assert RecordWarnings(seen, p) == w1 + w2 + w3;
  }

  /** Appending a record to the input is one more step of the loop. */
  lemma RunAppend(ctx: Context, ps: seq<PayerNode>, p: PayerNode)
    ensures Run(ctx, ps + [p]) == Step(ctx, Run(ctx, ps), p)
  {
    assert (ps + [p])[..|ps|] == ps;
  }

  /** One step over a record with both key elements that does not raise. */
  lemma StepWrites(ctx: Context, st: State, p: PayerNode)
    requires st.failure.None? && HasKeyElements(p) && !Raises(ctx, p)
    ensures Step(ctx, st, p)
      == State(st.rows + [RowOf(ctx, p)], st.log + RecordWarnings(st.keys, p), st.keys + {KeyOf(p)}, None)
  {
    var w1, w2, w3 := PeriodWarning(Cell(p.period)), AmountWarning(Cell(p.amount)), DuplicateWarning(st.keys, KeyOf(p));
    assert st.log + w1 + w2 + w3 == st.log + (w1 + w2 + w3);
  }

  /** A step writes at most the row of its record. */
  lemma StepRows(ctx: Context, st: State, p: PayerNode)
    ensures Step(ctx, st, p).rows == st.rows
      || (ctx.validityDate.Some? && Step(ctx, st, p).rows == st.rows + [RowOf(ctx, p)])
  {
  }

  /**
   * A record with both key elements that does not raise is always written,
   * its key is added to `unique_records`, and the log grows by its warnings,
   * with the keys of all earlier records deciding the duplicate warning.
   */
  lemma RecordWritten(ctx: Context, ps: seq<PayerNode>, p: PayerNode)
    requires Run(ctx, ps).failure.None? && HasKeyElements(p) && !Raises(ctx, p)
    ensures var before := Run(ctx, ps);
      Run(ctx, ps + [p]) == State(before.rows + [RowOf(ctx, p)], before.log + RecordWarnings(KeysOf(ps), p),
                                  before.keys + {KeyOf(p)}, None)
  {
    RunAppend(ctx, ps, p);
    RunClean(ctx, ps);
    StepWrites(ctx, Run(ctx, ps), p);
  }

  /**
   * A record that reaches `writerow` with a character the codec cannot encode
   * ends the loop: its warnings are logged and its key is added, but its row
   * is not written.
   */
  lemma UnencodableRowRaises(ctx: Context, ps: seq<PayerNode>, p: PayerNode)
    requires Run(ctx, ps).failure.None? && HasKeyElements(p)
    requires p.period != Some(None) && p.amount != Some(None) && ctx.validityDate.Some?
    requires !Encodable(ctx, RowOf(ctx, p))
    ensures var before := Run(ctx, ps);
      Run(ctx, ps + [p]) == State(before.rows, before.log + RecordWarnings(KeysOf(ps), p),
                                  before.keys + {KeyOf(p)}, Some(UnencodableRow))
  {
    RunAppend(ctx, ps, p);
    RunClean(ctx, ps);
    StepUnencodable(ctx, Run(ctx, ps), p);
  }

  /** One step over a record whose row the codec cannot encode. */
  lemma StepUnencodable(ctx: Context, st: State, p: PayerNode)
    requires st.failure.None? && HasKeyElements(p)
    requires p.period != Some(None) && p.amount != Some(None) && ctx.validityDate.Some?
    requires !Encodable(ctx, RowOf(ctx, p))
    ensures Step(ctx, st, p)
      == State(st.rows, st.log + RecordWarnings(st.keys, p), st.keys + {KeyOf(p)}, Some(UnencodableRow))
  {
    var w1, w2, w3 := PeriodWarning(Cell(p.period)), AmountWarning(Cell(p.amount)), DuplicateWarning(st.keys, KeyOf(p));
    assert st.log + w1 + w2 + w3 == st.log + (w1 + w2 + w3);
  }

  /** A record without ЛицСч or Период only adds the missing-key warning. */
  lemma RecordSkipped(ctx: Context, ps: seq<PayerNode>, p: PayerNode)
    requires Run(ctx, ps).failure.None? && !HasKeyElements(p)
    ensures Run(ctx, ps + [p]) == Run(ctx, ps).(log := Run(ctx, ps).log + [MissingKeyAttributes])
  {
    RunAppend(ctx, ps, p);
  }

  /**
   * The first record that raises ends the loop with its exception; the rows
   * written are those of the records before it, and its own key is already
   * in `unique_records` only when the exception is the missing validity date
   * or the row the codec cannot encode.
   */
  lemma FirstRaiseEndsLoop(ctx: Context, ps: seq<PayerNode>, j: nat)
    requires j < |ps| && Raises(ctx, ps[j])
    requires forall p :: p in ps[..j] ==> !Raises(ctx, p)
    ensures Run(ctx, ps).failure == Some(RaisedBy(ctx, ps[j]))
    ensures Run(ctx, ps).rows == RowsOf(ctx, ps[..j])
    ensures Run(ctx, ps).keys
      == KeysOf(ps[..j]) + (if RaisedBy(ctx, ps[j]) in {NoValidityDate, UnencodableRow} then {KeyOf(ps[j])} else {})
  {
    RunClean(ctx, ps[..j]);
    RunSnoc(ctx, ps, j);
    RunAfterFailure(ctx, ps, j + 1);
  }

  /** Every row has the seven cells, the first two shared by the whole
      document; without ДатаФайл no row is ever written. */
  lemma {:induction false} RowsShape(ctx: Context, ps: seq<PayerNode>)
    ensures forall r :: r in Run(ctx, ps).rows ==>
      |r| == 7 && r[0] == ctx.baseName && r[1] == Cell(ctx.validityDate)
    ensures ctx.validityDate.None? ==> Run(ctx, ps).rows == []
    decreases |ps|
  {
    if ps != [] {
      var init := ps[..|ps| - 1];
      RowsShape(ctx, init);
      StepRows(ctx, Run(ctx, init), ps[|ps| - 1]);
      var row := RowOf(ctx, ps[|ps| - 1]);
      assert |row| == 7 && row[0] == ctx.baseName && row[1] == Cell(ctx.validityDate);
    }
  }

  /** Two records with the same key are both written; the second one is
      reported as a duplicate and the first one is not. */
  lemma DuplicatesBothWritten(ctx: Context, p: PayerNode, q: PayerNode)
    requires HasKeyElements(p) && HasKeyElements(q) && KeyOf(p) == KeyOf(q)
    requires !Raises(ctx, p) && !Raises(ctx, q)
    ensures Run(ctx, [p, q]).rows == [RowOf(ctx, p), RowOf(ctx, q)]
    ensures DuplicateRecord(q.account.value, Cell(q.period)) !in Run(ctx, [p]).log
    ensures DuplicateRecord(q.account.value, Cell(q.period)) in Run(ctx, [p, q]).log
  {
    SingleRecordWritten(ctx, p);
    WarningsIff({}, p);
    assert KeyOf(q) in KeysOf([p]);
    RecordWritten(ctx, [p], q);
    assert [p] + [q] == [p, q];
    assert [RowOf(ctx, p)] + [RowOf(ctx, q)] == [RowOf(ctx, p), RowOf(ctx, q)];
    WarningsIff(KeysOf([p]), q);
  }

  /** A document of one record that does not raise writes exactly its row. */
  lemma SingleRecordWritten(ctx: Context, p: PayerNode)
    requires HasKeyElements(p) && !Raises(ctx, p)
    ensures Run(ctx, [p]) == State([RowOf(ctx, p)], RecordWarnings({}, p), {KeyOf(p)}, None)
  {
    assert [] + [p] == [p];
    assert KeysOf([]) == {};
    RecordWritten(ctx, [], p);
  }
}
