/**
 * The administrator's CSV import of vocabulary. Decoding the upload and
 * reading it with `csv.DictReader` is the parameter `parse`; the model
 * follows what the endpoint does with the rows it gets. The session does
 * not flush before queries, so the duplicate check sees only entries that
 * existed before the import, not those added earlier in the same file.
 */
module VocabularyImport {
  import opened Wrappers
  import opened Models
  import Seqs
  import Strings

  const MaxFileSize: nat := 5 * 1024 * 1024
  const MaxRows: nat := 10000
  /** At most this many error messages are reported. */
  const ReportedErrors: nat := 10

  const NotCsv := HttpError(400, "File must be a CSV")
  /** The size limit in the message is `MaxFileSize` in whole megabytes. */
  const TooLarge := HttpError(413, "File too large. Maximum size is 5 MB")
  const NotUtf8 := HttpError(400, "File must be UTF-8 encoded")
  /** Added after the last row read when the file has more than `MaxRows` rows. */
  const RowLimitError := "Row limit exceeded. Maximum 10000 rows allowed."

  /**
   * One cell of a `DictReader` row: the header has no such column
   * (`row.get` answers ''), the row is shorter than the header (the value
   * is None), or the text of the cell.
   */
  datatype Cell = NoColumn | ShortRow | Text(text: string)

  datatype CsvRow = CsvRow(expression: Cell, reading: Cell, meaning: Cell, tags: Cell)

  /** A row's four stripped values. */
  datatype Entry = Entry(expression: string, reading: string, meaning: string, tags: string)

  /** What reading a row gives: an exception, a row lacking a required value, or an entry. */
  datatype RowRead = Unreadable | Incomplete | Complete(entry: Entry)

  /**
   * What decoding and reading the upload gives: bytes that are not UTF-8;
   * text on which the reader raises `csv.Error` (a stray carriage return
   * inside an unquoted field, a field over the reader's size limit) after
   * the rows `before`; or the rows of a well-formed file.
   */
  datatype CsvRead = Undecodable | Malformed(before: seq<CsvRow>) | Rows(rows: seq<CsvRow>)

  /**
   * The rows the loop goes through before it stops. A reader error ends
   * the request unless the loop has already stopped at the row limit,
   * which it does on fetching the row after the `MaxRows`-th.
   */
  function LoopRows(r: CsvRead): (rows: Option<seq<CsvRow>>)
    ensures r.Rows? ==> rows == Some(r.rows)
    ensures r.Undecodable? ==> rows.None?
    ensures r.Malformed? ==> (rows.Some? <==> |r.before| > MaxRows) && (rows.Some? ==> rows.value == r.before)
  {
    match r
    case Undecodable => None
    case Malformed(before) => if |before| > MaxRows then Some(before) else None
    case Rows(rows) => Some(rows)
  }

  /** The body of the reply. */
  datatype ImportResult = ImportResult(imported: nat, skipped: nat, errors: seq<string>)

  /** What the duplicate check compares. */
  datatype Key = Key(expression: string, reading: string)

  function EntryKey(e: Entry): Key { Key(e.expression, e.reading) }
  function VocabKey(v: Vocab): Key { Key(v.expression, v.reading) }

  /** `row.get(name, '').strip()`; None stands for the AttributeError on a missing value. */
  function CellValue(c: Cell): (r: Option<string>)
    ensures c.Text? ==> r == Some(Strings.Strip(c.text))
  {
    match c
    case NoColumn => Some("")
    case ShortRow => None
    case Text(s) => Some(Strings.Strip(s))
  }

  /** The four values of a row, and whether the required three are present. */
  function ReadRow(row: CsvRow): RowRead {
    ReadValues(CellValue(row.expression), CellValue(row.reading), CellValue(row.meaning), CellValue(row.tags))
  }

  function ReadValues(e: Option<string>, rd: Option<string>, m: Option<string>, t: Option<string>): RowRead {
    if e.None? || rd.None? || m.None? || t.None? then Unreadable
    else if |e.value| == 0 || |rd.value| == 0 || |m.value| == 0 then Incomplete
    else Complete(Entry(e.value, rd.value, m.value, t.value))
  }

  /**
   * A row is an entry exactly when every value is readable and the three
   * required ones are not blank after stripping; it fails exactly when a
   * value is missing.
   */
  lemma ReadRowMeaning(row: CsvRow)
    ensures ReadRow(row).Complete? ==>
      var entry := ReadRow(row).entry;
      |entry.expression| > 0 && |entry.reading| > 0 && |entry.meaning| > 0
      && Some(entry.expression) == CellValue(row.expression) && Some(entry.reading) == CellValue(row.reading)
      && Some(entry.meaning) == CellValue(row.meaning) && Some(entry.tags) == CellValue(row.tags)
    ensures ReadRow(row) == Unreadable <==>
      CellValue(row.expression).None? || CellValue(row.reading).None?
      || CellValue(row.meaning).None? || CellValue(row.tags).None?
    ensures ReadRow(row).Complete? <==>
      CellValue(row.expression).Some? && CellValue(row.reading).Some?
      && CellValue(row.meaning).Some? && CellValue(row.tags).Some?
      && |CellValue(row.expression).GetOr("")| > 0 && |CellValue(row.reading).GetOr("")| > 0
      && |CellValue(row.meaning).GetOr("")| > 0
  {
  }

  /** The text of the AttributeError raised on a missing value. */
  const UnreadableMessage := "'NoneType' object has no attribute 'strip'"
  const IncompleteMessage := "Missing required fields (expression, reading, or meaning)"

  /** A problem the loop reports: one row's, or the row limit. Rows are numbered from 2, after the header. */
  datatype ImportError = RowProblem(rowNum: nat, message: string) | RowLimit

  /** The reported text of a problem. */
  function ErrorText(e: ImportError): (r: string)
    ensures e.RowLimit? ==> r == RowLimitError
    ensures e.RowProblem? ==> r == "Row " + Strings.NatToString(e.rowNum) + ": " + e.message
  {
    match e
    case RowProblem(n, message) => "Row " + Strings.NatToString(n) + ": " + message
    case RowLimit => RowLimitError
  }

  /** A row's message is never the row-limit message: the fifth character is a digit, not 'l'. */
  lemma ErrorTextDistinguishesLimit(e: ImportError)
    ensures ErrorText(e) == RowLimitError <==> e.RowLimit?
  {
    if e.RowProblem? {
      var digits := Strings.NatToString(e.rowNum);
      assert ErrorText(e)[4] == digits[0];
      assert RowLimitError[4] == 'l';
    }
  }

  /** The running totals of the loop. */
  datatype Tally = Tally(added: seq<Entry>, skipped: nat, errors: seq<ImportError>)

  /** How many rows the loop looks at before it stops. */
  function Processed(n: nat): nat {
    if n <= MaxRows then n else MaxRows
  }

  /**
   * The loop over the rows from index `k`. `existing` holds the keys the
   * duplicate check sees. With `seesPending` false, as in the endpoint, it
   * stays the keys stored before the import; with `seesPending` true each
   * added entry's key joins it.
   */
  function ImportRows(existing: seq<Key>, parsed: seq<RowRead>, k: nat, seesPending: bool): (r: Tally)
    requires k <= |parsed| && k <= MaxRows
    ensures |r.added| + r.skipped == Processed(|parsed|) - k
    decreases |parsed| - k
  {
    if k == |parsed| then Tally([], 0, [])
    else if k >= MaxRows then Tally([], 0, [RowLimit])
    else
      var read := parsed[k];
      if read.Complete? && EntryKey(read.entry) !in existing then
        var e := read.entry;
        var rest := ImportRows(if seesPending then existing + [EntryKey(e)] else existing, parsed, k + 1, seesPending);
        rest.(added := [e] + rest.added)
      else
        var rest := ImportRows(existing, parsed, k + 1, seesPending);
        if read.Complete? then rest.(skipped := rest.skipped + 1)
        else
          var error := RowProblem(k + 2, if read.Unreadable? then UnreadableMessage else IncompleteMessage);
          rest.(skipped := rest.skipped + 1, errors := [error] + rest.errors)
  }

  /** One step of the loop on a row it adds. */
  lemma StepAdd(existing: seq<Key>, parsed: seq<RowRead>, k: nat, seesPending: bool)
    requires k < |parsed| && k < MaxRows
    requires parsed[k].Complete? && EntryKey(parsed[k].entry) !in existing
    ensures var e := parsed[k].entry;
      var rest := ImportRows(if seesPending then existing + [EntryKey(e)] else existing, parsed, k + 1, seesPending);
      ImportRows(existing, parsed, k, seesPending) == rest.(added := [e] + rest.added)
  {
  }

  /** One step of the loop on a row it skips. */
  lemma StepSkip(existing: seq<Key>, parsed: seq<RowRead>, k: nat, seesPending: bool)
    requires k < |parsed| && k < MaxRows
    requires !(parsed[k].Complete? && EntryKey(parsed[k].entry) !in existing)
    ensures var read := parsed[k];
      var rest := ImportRows(existing, parsed, k + 1, seesPending);
      var here := ImportRows(existing, parsed, k, seesPending);
      here.added == rest.added
      && here.errors == if read.Complete? then rest.errors
        else [RowProblem(k + 2, if read.Unreadable? then UnreadableMessage else IncompleteMessage)] + rest.errors
  {
  }

  /** Every added entry comes from a complete row at or after `k` whose key was not stored. */
  predicate AddedSound(existing: seq<Key>, parsed: seq<RowRead>, k: nat, added: seq<Entry>) {
    forall e :: e in added ==>
      EntryKey(e) !in existing
      && exists j :: k <= j < Processed(|parsed|) && j < |parsed| && parsed[j] == Complete(e)
  }

  /** Every complete row at or after `k` with a key not stored has an added entry with that key. */
  predicate AddedComplete(existing: seq<Key>, parsed: seq<RowRead>, k: nat, added: seq<Entry>) {
    forall j :: (k <= j < Processed(|parsed|) && j < |parsed| && parsed[j].Complete?
      && EntryKey(parsed[j].entry) !in existing) ==>
        exists e :: e in added && EntryKey(e) == EntryKey(parsed[j].entry)
  }

  /**
   * What the loop adds: only complete rows whose key the check does not
   * see, and for every complete row with a key not stored before, an entry
   * with that key. With `seesPending` no key is added twice.
   */
  lemma AddedFacts(existing: seq<Key>, parsed: seq<RowRead>, k: nat, seesPending: bool)
    requires k <= |parsed| && k <= MaxRows
    ensures AddedSound(existing, parsed, k, ImportRows(existing, parsed, k, seesPending).added)
    ensures AddedComplete(existing, parsed, k, ImportRows(existing, parsed, k, seesPending).added)
    ensures seesPending ==> Seqs.NoDuplicates(Seqs.Map(EntryKey, ImportRows(existing, parsed, k, seesPending).added))
  {
    AddedFromRows(existing, parsed, k, seesPending);
    AddedCoversRows(existing, parsed, k, seesPending);
    if seesPending {
      AddedDistinct(existing, parsed, k);
    }
  }

  lemma AddedFromRows(existing: seq<Key>, parsed: seq<RowRead>, k: nat, seesPending: bool)
    requires k <= |parsed| && k <= MaxRows
    ensures AddedSound(existing, parsed, k, ImportRows(existing, parsed, k, seesPending).added)
  {
    forall e | e in ImportRows(existing, parsed, k, seesPending).added
      ensures EntryKey(e) !in existing
      ensures exists j :: k <= j < Processed(|parsed|) && j < |parsed| && parsed[j] == Complete(e)
    {
      var j := AddedFromRow(existing, parsed, k, seesPending, e);
    }
  }

  /** One added entry: its key was not stored, and the complete row `j`, read from `k` on, holds it. */
  lemma {:induction false} AddedFromRow(existing: seq<Key>, parsed: seq<RowRead>, k: nat, seesPending: bool, e: Entry)
    returns (j: nat)
    requires k <= |parsed| && k <= MaxRows
    requires e in ImportRows(existing, parsed, k, seesPending).added
    ensures EntryKey(e) !in existing
    ensures k <= j < Processed(|parsed|) && j < |parsed| && parsed[j] == Complete(e)
    decreases |parsed| - k
  {
    var read := parsed[k];
    if read.Complete? && EntryKey(read.entry) !in existing {
      var seen := if seesPending then existing + [EntryKey(read.entry)] else existing;
      StepAdd(existing, parsed, k, seesPending);
      if e == read.entry {
        j := k;
      } else {
        assert e in ImportRows(seen, parsed, k + 1, seesPending).added;
        j := AddedFromRow(seen, parsed, k + 1, seesPending, e);
      }
    } else {
      StepSkip(existing, parsed, k, seesPending);
      j := AddedFromRow(existing, parsed, k + 1, seesPending, e);
    }
  }

  lemma AddedCoversRows(existing: seq<Key>, parsed: seq<RowRead>, k: nat, seesPending: bool)
    requires k <= |parsed| && k <= MaxRows
    ensures AddedComplete(existing, parsed, k, ImportRows(existing, parsed, k, seesPending).added)
  {
    forall j | k <= j < Processed(|parsed|) && j < |parsed| && parsed[j].Complete?
        && EntryKey(parsed[j].entry) !in existing
      ensures exists e :: e in ImportRows(existing, parsed, k, seesPending).added && EntryKey(e) == EntryKey(parsed[j].entry)
    {
      AddedCoversRow(existing, parsed, k, seesPending, j);
    }
  }

  /** One complete row read from `k` on with a key not stored: some added entry has its key. */
  lemma {:induction false} AddedCoversRow(existing: seq<Key>, parsed: seq<RowRead>, k: nat, seesPending: bool, j: nat)
    requires k <= |parsed| && k <= MaxRows
    requires k <= j < Processed(|parsed|) && j < |parsed| && parsed[j].Complete?
    requires EntryKey(parsed[j].entry) !in existing
    ensures exists e :: e in ImportRows(existing, parsed, k, seesPending).added && EntryKey(e) == EntryKey(parsed[j].entry)
    decreases |parsed| - k
  {
    var read := parsed[k];
    var key := EntryKey(parsed[j].entry);
    if read.Complete? && EntryKey(read.entry) !in existing {
      var seen := if seesPending then existing + [EntryKey(read.entry)] else existing;
      StepAdd(existing, parsed, k, seesPending);
      var all := ImportRows(existing, parsed, k, seesPending).added;
      if j == k || key == EntryKey(read.entry) {
        assert read.entry in all && EntryKey(read.entry) == key;
      } else {
        assert key !in seen;
        AddedCoversRow(seen, parsed, k + 1, seesPending, j);
        var a :| a in ImportRows(seen, parsed, k + 1, seesPending).added && EntryKey(a) == key;
        assert a in all;
      }
    } else {
      assert j != k;
      StepSkip(existing, parsed, k, seesPending);
      AddedCoversRow(existing, parsed, k + 1, seesPending, j);
    }
  }

  lemma {:induction false} AddedDistinct(existing: seq<Key>, parsed: seq<RowRead>, k: nat)
    requires k <= |parsed| && k <= MaxRows
    ensures Seqs.NoDuplicates(Seqs.Map(EntryKey, ImportRows(existing, parsed, k, true).added))
    decreases |parsed| - k
  {
    if k < |parsed| && k < MaxRows {
      var read := parsed[k];
      if read.Complete? && EntryKey(read.entry) !in existing {
        AddedDistinct(existing + [EntryKey(read.entry)], parsed, k + 1);
        DistinctAfterAdd(existing, parsed, k);
      } else {
        AddedDistinct(existing, parsed, k + 1);
        DistinctAfterSkip(existing, parsed, k);
      }
    }
  }

  lemma DistinctAfterAdd(existing: seq<Key>, parsed: seq<RowRead>, k: nat)
    requires k < |parsed| && k < MaxRows
    requires parsed[k].Complete? && EntryKey(parsed[k].entry) !in existing
    requires Seqs.NoDuplicates(Seqs.Map(EntryKey, ImportRows(existing + [EntryKey(parsed[k].entry)], parsed, k + 1, true).added))
    ensures Seqs.NoDuplicates(Seqs.Map(EntryKey, ImportRows(existing, parsed, k, true).added))
  {
    StepAdd(existing, parsed, k, true);
    DistinctStepAdd(existing + [EntryKey(parsed[k].entry)], parsed, k, parsed[k].entry);
  }

  lemma DistinctAfterSkip(existing: seq<Key>, parsed: seq<RowRead>, k: nat)
    requires k < |parsed| && k < MaxRows
    requires !(parsed[k].Complete? && EntryKey(parsed[k].entry) !in existing)
    requires Seqs.NoDuplicates(Seqs.Map(EntryKey, ImportRows(existing, parsed, k + 1, true).added))
    ensures Seqs.NoDuplicates(Seqs.Map(EntryKey, ImportRows(existing, parsed, k, true).added))
  {
    StepSkip(existing, parsed, k, true);
  }

  /** The row limit is reported exactly when the file has too many rows, and then last. */
  lemma {:induction false} LimitMessage(existing: seq<Key>, parsed: seq<RowRead>, k: nat, seesPending: bool)
    requires k <= |parsed| && k <= MaxRows
    ensures RowLimit in ImportRows(existing, parsed, k, seesPending).errors <==> |parsed| > MaxRows
    ensures |parsed| > MaxRows ==>
      var errors := ImportRows(existing, parsed, k, seesPending).errors;
      |errors| > 0 && errors[|errors| - 1] == RowLimit
    decreases |parsed| - k
  {
    if k == |parsed| {
      assert ImportRows(existing, parsed, k, seesPending).errors == [];
    } else if k == MaxRows {
      assert ImportRows(existing, parsed, k, seesPending).errors == [RowLimit];
    } else {
      var read := parsed[k];
      if read.Complete? && EntryKey(read.entry) !in existing {
        var seen := if seesPending then existing + [EntryKey(read.entry)] else existing;
        LimitMessage(seen, parsed, k + 1, seesPending);
        AddKeepsErrors(existing, parsed, k, seesPending);
      } else {
        LimitMessage(existing, parsed, k + 1, seesPending);
        LimitAfterSkip(existing, parsed, k, seesPending);
      }
    }
  }

  /** An added row reports nothing. */
  lemma AddKeepsErrors(existing: seq<Key>, parsed: seq<RowRead>, k: nat, seesPending: bool)
    requires k < |parsed| && k < MaxRows
    requires parsed[k].Complete? && EntryKey(parsed[k].entry) !in existing
    ensures var seen := if seesPending then existing + [EntryKey(parsed[k].entry)] else existing;
      ImportRows(existing, parsed, k, seesPending).errors == ImportRows(seen, parsed, k + 1, seesPending).errors
  {
    StepAdd(existing, parsed, k, seesPending);
  }

  /** A skipped row puts its problem, if any, in front: the last message stays the last. */
  lemma LimitAfterSkip(existing: seq<Key>, parsed: seq<RowRead>, k: nat, seesPending: bool)
    requires k < |parsed| && k < MaxRows
    requires !(parsed[k].Complete? && EntryKey(parsed[k].entry) !in existing)
    ensures var here := ImportRows(existing, parsed, k, seesPending).errors;
      var rest := ImportRows(existing, parsed, k + 1, seesPending).errors;
      (RowLimit in here <==> RowLimit in rest)
      && (|rest| > 0 ==> |here| > 0 && here[|here| - 1] == rest[|rest| - 1])
  {
    StepSkip(existing, parsed, k, seesPending);
  }

  /** An added entry's key is new among the entries added after it, which were distinct already. */
  lemma DistinctStepAdd(seen: seq<Key>, parsed: seq<RowRead>, k: nat, e: Entry)
    requires k < |parsed| && k < MaxRows && EntryKey(e) in seen
    requires Seqs.NoDuplicates(Seqs.Map(EntryKey, ImportRows(seen, parsed, k + 1, true).added))
    ensures Seqs.NoDuplicates(Seqs.Map(EntryKey, [e] + ImportRows(seen, parsed, k + 1, true).added))
  {
    var rest := ImportRows(seen, parsed, k + 1, true).added;
    var restKeys := Seqs.Map(EntryKey, rest);
    forall i | 0 <= i < |restKeys| ensures restKeys[i] !in [EntryKey(e)] {
      assert rest[i] in rest;
      var _ := AddedFromRow(seen, parsed, k + 1, true, rest[i]);
    }
    Seqs.AppendDistinct([EntryKey(e)], restKeys);
    assert Seqs.Map(EntryKey, [e] + rest) == [EntryKey(e)] + restKeys;
  }

  /** The new table rows for the added entries, with fresh ids from `base` on. */
  function NewRows(base: nat, added: seq<Entry>): (r: seq<Vocab>)
    ensures |r| == |added|
    ensures forall i :: 0 <= i < |r| ==>
      r[i] == Vocab(base + i, added[i].expression, added[i].reading, added[i].meaning, added[i].tags)
    decreases |added|
  {
    if |added| == 0 then []
    else [Vocab(base, added[0].expression, added[0].reading, added[0].meaning, added[0].tags)] + NewRows(base + 1, added[1..])
  }

  /** The keys stored before the import. */
  function StoredKeys(db: Db): (r: seq<Key>)
    ensures forall key :: key in r <==> exists v :: v in db.vocabulary && VocabKey(v) == key
  {
    var r := Seqs.Map(VocabKey, db.vocabulary);
    assert forall i :: 0 <= i < |db.vocabulary| ==> r[i] == VocabKey(db.vocabulary[i]);
    r
  }

  /** The `VARCHAR` widths of the vocabulary table's required columns (models.py). */
  const ExpressionWidth: nat := 255
  const ReadingWidth: nat := 255
  const MeaningWidth: nat := 1000

  /** The entry's required fields fit their columns; a longer value makes PostgreSQL refuse the commit. */
  predicate FitsColumns(e: Entry) {
    |e.expression| <= ExpressionWidth && |e.reading| <= ReadingWidth && |e.meaning| <= MeaningWidth
  }

  predicate AllFit(added: seq<Entry>) {
    forall i :: 0 <= i < |added| ==> FitsColumns(added[i])
  }

  /**
   * The import with either duplicate check; the endpoint is `seesPending == false`.
   * The loop checks no lengths, so an added entry too long for its column
   * makes `db.commit()` raise: 500, and the transaction is rolled back.
   */
  function Import(db: Db, filename: string, content: seq<bv8>, parse: seq<bv8> -> CsvRead, seesPending: bool): (out: Outcome<ImportResult>)
    ensures !Strings.EndsWith(filename, ".csv") ==> out == Outcome(db, Fail(NotCsv))
    ensures Strings.EndsWith(filename, ".csv") && |content| > MaxFileSize ==> out == Outcome(db, Fail(TooLarge))
    ensures Strings.EndsWith(filename, ".csv") && |content| <= MaxFileSize && parse(content).Undecodable? ==>
      out == Outcome(db, Fail(NotUtf8))
    ensures Strings.EndsWith(filename, ".csv") && |content| <= MaxFileSize
      && parse(content).Malformed? && |parse(content).before| <= MaxRows
      ==> out == Outcome(db, Fail(ServerError))
    ensures Strings.EndsWith(filename, ".csv") && |content| <= MaxFileSize && LoopRows(parse(content)).Some?
      && !AllFit(ImportRows(StoredKeys(db), Seqs.Map(ReadRow, LoopRows(parse(content)).value), 0, seesPending).added)
      ==> out == Outcome(db, Fail(ServerError))
    ensures out.reply.IsOk() <==>
      Strings.EndsWith(filename, ".csv") && |content| <= MaxFileSize && LoopRows(parse(content)).Some?
      && AllFit(ImportRows(StoredKeys(db), Seqs.Map(ReadRow, LoopRows(parse(content)).value), 0, seesPending).added)
    ensures out.reply.IsOk() ==>
      var parsed := Seqs.Map(ReadRow, LoopRows(parse(content)).value);
      var result := out.reply.value;
      var tally := ImportRows(StoredKeys(db), parsed, 0, seesPending);
      result.imported + result.skipped == Processed(|parsed|)
      && |result.errors| == (if |tally.errors| <= ReportedErrors then |tally.errors| else ReportedErrors)
      && result.errors == Seqs.Map(ErrorText, tally.errors[..|result.errors|])
      && out.db == db.(vocabulary := db.vocabulary + NewRows(FreshId(Seqs.Map(VocabId, db.vocabulary)), tally.added))
      && result.imported == |tally.added|
  {
    if !Strings.EndsWith(filename, ".csv") then Outcome(db, Fail(NotCsv))
    else if |content| > MaxFileSize then Outcome(db, Fail(TooLarge))
    else if parse(content).Undecodable? then Outcome(db, Fail(NotUtf8))
    else match LoopRows(parse(content))
      case None => Outcome(db, Fail(ServerError))
      case Some(rows) =>
        var tally := ImportRows(StoredKeys(db), Seqs.Map(ReadRow, rows), 0, seesPending);
        if !AllFit(tally.added) then Outcome(db, Fail(ServerError))
        else
          var base := FreshId(Seqs.Map(VocabId, db.vocabulary));
          var errors := Seqs.Map(ErrorText, if |tally.errors| <= ReportedErrors then tally.errors else tally.errors[..ReportedErrors]);
          Outcome(db.(vocabulary := db.vocabulary + NewRows(base, tally.added)),
                  Ok(ImportResult(|tally.added|, tally.skipped, errors)))
  }

  /** `import_csv`. */
  function ImportCsv(db: Db, filename: string, content: seq<bv8>, parse: seq<bv8> -> CsvRead): (out: Outcome<ImportResult>)
    ensures out == Import(db, filename, content, parse, false)
    ensures out.reply.IsOk() ==>
      forall v :: v in out.db.vocabulary && v !in db.vocabulary ==>
        |v.expression| > 0 && |v.reading| > 0 && |v.meaning| > 0
        && |v.expression| <= ExpressionWidth && |v.reading| <= ReadingWidth && |v.meaning| <= MeaningWidth
        && forall w :: w in db.vocabulary ==> VocabKey(w) != VocabKey(v) && w.id != v.id
  {
    var out := Import(db, filename, content, parse, false);
    if out.reply.IsOk() then
      NewRowsAreNew(db, LoopRows(parse(content)).value, false);
      out
    else out
  }

  /**
   * The reply names the row limit only when the file has more than
   * `MaxRows` rows; such a file's reply ends with it unless ten earlier
   * messages fill the list first.
   */
  lemma RowLimitReported(db: Db, filename: string, content: seq<bv8>, parse: seq<bv8> -> CsvRead)
    requires ImportCsv(db, filename, content, parse).reply.IsOk()
    ensures var rows := LoopRows(parse(content)).value;
      var errors := ImportCsv(db, filename, content, parse).reply.value.errors;
      (RowLimitError in errors ==> |rows| > MaxRows)
      && (|rows| > MaxRows && |errors| < ReportedErrors ==> |errors| > 0 && errors[|errors| - 1] == RowLimitError)
  {
    var rows := LoopRows(parse(content)).value;
    var parsed := Seqs.Map(ReadRow, rows);
    var tally := ImportRows(StoredKeys(db), parsed, 0, false);
    var out := Import(db, filename, content, parse, false);
    assert out == ImportCsv(db, filename, content, parse);
    var errors := out.reply.value.errors;
    assert errors == Seqs.Map(ErrorText, tally.errors[..|errors|]);
    LimitMessage(StoredKeys(db), parsed, 0, false);
    if RowLimitError in errors {
      var i :| 0 <= i < |errors| && errors[i] == RowLimitError;
      ErrorTextDistinguishesLimit(tally.errors[i]);
      assert tally.errors[i] in tally.errors;
    }
  }

  /** The rows an import adds are complete, new by key, and have fresh ids. */
  lemma NewRowsAreNew(db: Db, rows: seq<CsvRow>, seesPending: bool)
    ensures var tally := ImportRows(StoredKeys(db), Seqs.Map(ReadRow, rows), 0, seesPending);
      var ids := Seqs.Map(VocabId, db.vocabulary);
      forall v :: v in NewRows(FreshId(ids), tally.added) ==>
        |v.expression| > 0 && |v.reading| > 0 && |v.meaning| > 0
        && forall w :: w in db.vocabulary ==> VocabKey(w) != VocabKey(v) && w.id != v.id
  {
    var parsed := Seqs.Map(ReadRow, rows);
    var tally := ImportRows(StoredKeys(db), parsed, 0, seesPending);
    AddedFacts(StoredKeys(db), parsed, 0, seesPending);
    var ids := Seqs.Map(VocabId, db.vocabulary);
    var newRows := NewRows(FreshId(ids), tally.added);
    assert forall i :: 0 <= i < |db.vocabulary| ==> ids[i] == db.vocabulary[i].id;
    forall v | v in newRows
      ensures |v.expression| > 0 && |v.reading| > 0 && |v.meaning| > 0
      ensures forall w :: w in db.vocabulary ==> VocabKey(w) != VocabKey(v) && w.id != v.id
    {
      var i :| 0 <= i < |newRows| && newRows[i] == v;
      var e := tally.added[i];
      assert e in tally.added;
      var j :| 0 <= j < Processed(|parsed|) && parsed[j] == Complete(e);
      ReadRowMeaning(rows[j]);
      assert VocabKey(v) == EntryKey(e);
    }
  }

  /** With the endpoint's duplicate check every new complete row the loop reads is added as it is. */
  lemma {:induction false} AsWrittenAddsEveryNewRow(existing: seq<Key>, parsed: seq<RowRead>, k: nat, j: nat)
    requires k <= |parsed| && k <= MaxRows
    requires k <= j < Processed(|parsed|) && j < |parsed| && parsed[j].Complete?
    requires EntryKey(parsed[j].entry) !in existing
    ensures parsed[j].entry in ImportRows(existing, parsed, k, false).added
    decreases |parsed| - k
  {
    if parsed[k].Complete? && EntryKey(parsed[k].entry) !in existing {
      StepAdd(existing, parsed, k, false);
      if j > k {
        AsWrittenAddsEveryNewRow(existing, parsed, k + 1, j);
      }
    } else {
      StepSkip(existing, parsed, k, false);
      AsWrittenAddsEveryNewRow(existing, parsed, k + 1, j);
    }
  }

  /**
   * One new complete row with a value too long for its column makes the
   * whole upload fail with 500 and store nothing, the rows before it included.
   */
  lemma OverlongRowFails(db: Db, filename: string, content: seq<bv8>, parse: seq<bv8> -> CsvRead, j: nat)
    requires Strings.EndsWith(filename, ".csv") && |content| <= MaxFileSize && LoopRows(parse(content)).Some?
    requires var rows := LoopRows(parse(content)).value;
      j < Processed(|rows|) && ReadRow(rows[j]).Complete?
      && EntryKey(ReadRow(rows[j]).entry) !in StoredKeys(db) && !FitsColumns(ReadRow(rows[j]).entry)
    ensures ImportCsv(db, filename, content, parse) == Outcome(db, Fail(ServerError))
  {
    var rows := LoopRows(parse(content)).value;
    var parsed := Seqs.Map(ReadRow, rows);
    assert parsed[j] == ReadRow(rows[j]);
    AsWrittenAddsEveryNewRow(StoredKeys(db), parsed, 0, j);
    var added := ImportRows(StoredKeys(db), parsed, 0, false).added;
    var i :| 0 <= i < |added| && added[i] == parsed[j].entry;
    assert !AllFit(added);
  }

  /** Every complete row the loop reads from index `k` on has a key in `keys`. */
  predicate AllKnown(keys: seq<Key>, parsed: seq<RowRead>, k: nat) {
    forall j :: k <= j < Processed(|parsed|) && parsed[j].Complete? ==> EntryKey(parsed[j].entry) in keys
  }

  /** Rows whose keys are all stored already add nothing. */
  lemma {:induction false} KnownRowsAddNothing(keys: seq<Key>, parsed: seq<RowRead>, k: nat)
    requires k <= |parsed| && k <= MaxRows && AllKnown(keys, parsed, k)
    ensures ImportRows(keys, parsed, k, false).added == []
    decreases |parsed| - k
  {
    if k < |parsed| && k < MaxRows {
      KnownRowsAddNothing(keys, parsed, k + 1);
    }
  }

  /**
   * Importing the same file again imports nothing: every entry the first
   * import took is now a stored duplicate.
   */
  lemma ReimportAddsNothing(db: Db, filename: string, content: seq<bv8>, parse: seq<bv8> -> CsvRead)
    requires ImportCsv(db, filename, content, parse).reply.IsOk()
    ensures var again := ImportCsv(ImportCsv(db, filename, content, parse).db, filename, content, parse);
      again.reply.IsOk() && again.reply.value.imported == 0
      && again.db == ImportCsv(db, filename, content, parse).db
  {
    var parsed := Seqs.Map(ReadRow, LoopRows(parse(content)).value);
    var first := ImportCsv(db, filename, content, parse);
    var tally := ImportRows(StoredKeys(db), parsed, 0, false);
    AddedFacts(StoredKeys(db), parsed, 0, false);
    var newRows := NewRows(FreshId(Seqs.Map(VocabId, db.vocabulary)), tally.added);
    assert first.db.vocabulary == db.vocabulary + newRows;
    forall e | e in tally.added
      ensures EntryKey(e) in StoredKeys(first.db)
    {
      var i :| 0 <= i < |tally.added| && tally.added[i] == e;
      assert newRows[i] in first.db.vocabulary && VocabKey(newRows[i]) == EntryKey(e);
    }
    forall j | 0 <= j < Processed(|parsed|) && parsed[j].Complete?
      ensures EntryKey(parsed[j].entry) in StoredKeys(first.db)
    {
      var key := EntryKey(parsed[j].entry);
      if key in StoredKeys(db) {
        var v :| v in db.vocabulary && VocabKey(v) == key;
        assert v in first.db.vocabulary;
      } else {
        var a :| a in tally.added && EntryKey(a) == key;
      }
    }
    KnownRowsAddNothing(StoredKeys(first.db), parsed, 0);
    assert first.db.vocabulary + NewRows(FreshId(Seqs.Map(VocabId, first.db.vocabulary)), []) == first.db.vocabulary;
  }

  /** A row read twice from one file, new to the table: the endpoint imports both copies. */
  lemma SameFileDuplicatesBothImported(existing: seq<Key>, read: RowRead)
    requires read.Complete? && EntryKey(read.entry) !in existing
    ensures ImportRows(existing, [read, read], 0, false).added == [read.entry, read.entry]
  {
    var parsed := [read, read];
    assert ImportRows(existing, parsed, 2, false) == Tally([], 0, []);
    assert ImportRows(existing, parsed, 1, false).added == [read.entry];
  }

  /** The corrected check imports such a row once and counts the copy as skipped. */
  lemma SameFileDuplicateImportedOnce(existing: seq<Key>, read: RowRead)
    requires read.Complete? && EntryKey(read.entry) !in existing
    ensures var tally := ImportRows(existing, [read, read], 0, true);
      tally.added == [read.entry] && tally.skipped == 1
  {
    var parsed := [read, read];
    var seen := existing + [EntryKey(read.entry)];
    assert ImportRows(seen, parsed, 2, true) == Tally([], 0, []);
    assert ImportRows(seen, parsed, 1, true) == Tally([], 1, []);
  }

  /**
   * The import with a duplicate check that also sees the entries added
   * earlier in the file: no two stored entries share a key afterwards,
   * provided none did before.
   */
  function ImportCsvSeeingPending(db: Db, filename: string, content: seq<bv8>, parse: seq<bv8> -> CsvRead): (out: Outcome<ImportResult>)
    ensures out == Import(db, filename, content, parse, true)
    ensures out.reply.IsOk() && Seqs.NoDuplicates(Seqs.Map(VocabKey, db.vocabulary)) ==>
      Seqs.NoDuplicates(Seqs.Map(VocabKey, out.db.vocabulary))
  {
    var out := Import(db, filename, content, parse, true);
    if out.reply.IsOk() then
      PendingKeepsKeysUnique(db, Seqs.Map(ReadRow, LoopRows(parse(content)).value));
      out
    else out
  }

  lemma PendingKeepsKeysUnique(db: Db, parsed: seq<RowRead>)
    ensures var tally := ImportRows(StoredKeys(db), parsed, 0, true);
      var all := db.vocabulary + NewRows(FreshId(Seqs.Map(VocabId, db.vocabulary)), tally.added);
      Seqs.NoDuplicates(Seqs.Map(VocabKey, db.vocabulary)) ==> Seqs.NoDuplicates(Seqs.Map(VocabKey, all))
  {
    var added := ImportRows(StoredKeys(db), parsed, 0, true).added;
    var newRows := NewRows(FreshId(Seqs.Map(VocabId, db.vocabulary)), added);
    NewRowKeys(FreshId(Seqs.Map(VocabId, db.vocabulary)), added);
    Seqs.MapAppend(VocabKey, db.vocabulary, newRows);
    AddedDistinct(StoredKeys(db), parsed, 0);
    AddedKeysNotStored(db, parsed);
    if Seqs.NoDuplicates(Seqs.Map(VocabKey, db.vocabulary)) {
      assert Seqs.NoDuplicates(Seqs.Map(EntryKey, added));
      assert forall i :: 0 <= i < |added| ==> Seqs.Map(EntryKey, added)[i] !in Seqs.Map(VocabKey, db.vocabulary);
      Seqs.AppendDistinct(Seqs.Map(VocabKey, db.vocabulary), Seqs.Map(EntryKey, added));
    }
  }

  /** The new rows carry the added entries' keys, in order. */
  lemma NewRowKeys(base: nat, added: seq<Entry>)
    ensures Seqs.Map(VocabKey, NewRows(base, added)) == Seqs.Map(EntryKey, added)
  {
    var rows := NewRows(base, added);
    assert forall i :: 0 <= i < |added| ==> Seqs.Map(VocabKey, rows)[i] == VocabKey(rows[i]) == EntryKey(added[i]);
  }

  /** No key the import adds is stored already. */
  lemma AddedKeysNotStored(db: Db, parsed: seq<RowRead>)
    ensures forall i :: 0 <= i < |ImportRows(StoredKeys(db), parsed, 0, true).added| ==>
      Seqs.Map(EntryKey, ImportRows(StoredKeys(db), parsed, 0, true).added)[i] !in Seqs.Map(VocabKey, db.vocabulary)
  {
    var added := ImportRows(StoredKeys(db), parsed, 0, true).added;
    forall i | 0 <= i < |added| ensures EntryKey(added[i]) !in StoredKeys(db) {
      assert added[i] in added;
      var _ := AddedFromRow(StoredKeys(db), parsed, 0, true, added[i]);
    }
  }
}
