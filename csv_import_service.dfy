/**
  The CSV importer: it parses the uploaded file into rows, checks the first row's width,
  then handles each data row in turn inside one transaction, counting created events,
  skipped duplicates and created tags, and turning each failing row into a "Ligne N: ..." entry.

  Each step is given twice: as a function on a snapshot of the store (the specification),
  and as the method that does the work step by step on the store, proved to agree with it.
*/
module CsvImportService {
  import opened Wrappers
  import opened Php
  import opened Dates
  import opened Uploads
  import opened Persistence

  /** The ceiling parseCsv puts on the physical line number of a kept row. */
  const MaxRows: nat := 1000

  const CannotReadMessage := "Impossible de lire le fichier CSV."
  const TooManyRowsMessage := "Le fichier CSV contient trop de lignes (maximum: 1000)."
  const NoValidDataMessage := "Le fichier CSV est vide ou ne contient pas de données valides."
  const NoDataMessage := "Le fichier CSV est vide ou ne contient pas de données."
  const ColumnsMessage := "Le fichier CSV doit contenir exactement 4 colonnes."
  const NameRequiredMessage := "Le nom de l'événement est requis."
  const BadDateMessage := "Format de date invalide. Utilisez le format YYYY-MM-DD."

  /** The message of the error PHP raises when a row has no field at position `key`. */
  const MissingKeyPrefix := "Undefined array key "

  function MissingKeyMessage(key: nat): string {
    MissingKeyPrefix + NatToString(key)
  }

  /** The colours a new tag can get. */
  const Palette: seq<string> := [
    "#EF4444", "#F97316", "#F59E0B", "#EAB308", "#84CC16", "#22C55E", "#10B981", "#14B8A6", "#06B6D4",
    "#0EA5E9", "#3B82F6", "#6366F1", "#8B5CF6", "#A855F7", "#D946EF", "#EC4899", "#F43F5E"]

  /** generateRandomColor: the palette entry a random draw picks. */
  function RandomColor(draw: nat): (c: string)
    ensures c in Palette
  {
    Palette[draw % |Palette|]
  }

  type Row = seq<string>

  // ---------------------------------------------------------------------------
  // parseCsv

  /** A line without its "\n" or "\r\n" ending, or a lone final "\r", as fgetcsv drops them. */
  function StripLineEnding(line: string): string {
    var l := if line != [] && line[|line| - 1] == '\n' then line[..|line| - 1] else line;
    if l != [] && l[|l| - 1] == '\r' then l[..|l| - 1] else l
  }

  /** The fields fgetcsv reads from one line with `;` as separator. */
  function CsvFields(line: string): (row: Row)
    ensures |row| >= 1
  {
    Split(StripLineEnding(line), ';')
  }

  /** A line parseCsv skips: array_filter leaves none of its fields. */
  predicate IsBlankLine(line: string) {
    AllFalsy(CsvFields(line))
  }

  /**
    The `fields` of the elements of `xs` that are not `blank`, in order: parseCsv's row filter,
    stated for any element type so that its proofs need not look inside a line.
  */
  function KeptBy<T, U>(xs: seq<T>, blank: T -> bool, fields: T -> U): (r: seq<U>)
    ensures |r| <= |xs|
  {
    if xs == [] then []
    else
      var n := |xs| - 1;
      KeptBy(xs[..n], blank, fields) + (if blank(xs[n]) then [] else [fields(xs[n])])
  }

  /** Reading one more element adds its fields, unless it is blank. */
  lemma KeptBySnoc<T, U>(xs: seq<T>, x: T, blank: T -> bool, fields: T -> U)
    ensures KeptBy(xs + [x], blank, fields) == KeptBy(xs, blank, fields) + (if blank(x) then [] else [fields(x)])
  {
    assert (xs + [x])[..|xs|] == xs;
  }

  /** Some element at index `ceiling` or later is not blank. */
  predicate BeyondBy<T>(xs: seq<T>, blank: T -> bool, ceiling: nat) {
    xs != [] &&
    (BeyondBy(xs[..|xs| - 1], blank, ceiling) || (ceiling <= |xs| - 1 && !blank(xs[|xs| - 1])))
  }

  /** A non-blank element at index `i`, at or past the ceiling, is found by BeyondBy. */
  lemma {:induction false} BeyondByFrom<T>(xs: seq<T>, blank: T -> bool, ceiling: nat, i: nat)
    requires ceiling <= i < |xs| && !blank(xs[i])
    ensures BeyondBy(xs, blank, ceiling)
    decreases |xs|
  {
    var n := |xs| - 1;
    if i < n {
      assert xs[..n][i] == xs[i];
      BeyondByFrom(xs[..n], blank, ceiling, i);
    }
  }

  /** BeyondBy names a real element: one at or past the ceiling that is not blank. */
  lemma {:induction false} BeyondByWitness<T>(xs: seq<T>, blank: T -> bool, ceiling: nat) returns (i: nat)
    requires BeyondBy(xs, blank, ceiling)
    ensures ceiling <= i < |xs| && !blank(xs[i])
    decreases |xs|
  {
    var n := |xs| - 1;
    if BeyondBy(xs[..n], blank, ceiling) {
      i := BeyondByWitness(xs[..n], blank, ceiling);
      assert xs[..n][i] == xs[i];
    } else {
      i := n;
    }
  }

  /** Reading one more element finds one beyond the ceiling when that element is one. */
  lemma BeyondBySnoc<T>(xs: seq<T>, x: T, blank: T -> bool, ceiling: nat)
    ensures BeyondBy(xs + [x], blank, ceiling) <==> BeyondBy(xs, blank, ceiling) || (ceiling <= |xs| && !blank(x))
  {
    assert (xs + [x])[..|xs|] == xs;
  }

  /** A non-blank element beyond the ceiling in a prefix is one in the whole sequence. */
  lemma BeyondByPrefix<T>(xs: seq<T>, prefix: seq<T>, blank: T -> bool, ceiling: nat)
    requires prefix <= xs && BeyondBy(prefix, blank, ceiling)
    ensures BeyondBy(xs, blank, ceiling)
  {
    var i := BeyondByWitness(prefix, blank, ceiling);
    assert xs[i] == prefix[i];
    BeyondByFrom(xs, blank, ceiling, i);
  }

  /** The rows parseCsv keeps from these lines: those of the non-blank lines, in file order. */
  function KeptRows(lines: seq<string>): seq<Row> {
    KeptBy(lines, IsBlankLine, CsvFields)
  }

  /** Some non-blank line sits at index `ceiling` or later: at a physical line number above `ceiling`. */
  predicate KeptBeyond(lines: seq<string>, ceiling: nat) {
    BeyondBy(lines, IsBlankLine, ceiling)
  }

  /**
    What parseCsv returns or throws once the file is open, for a ceiling on the physical line
    number of a kept row.
  */
  function ParseLines(handle: seq<string>, ceiling: nat): Result<seq<Row>> {
    if KeptBeyond(handle, ceiling) then Failure(TooManyRowsMessage)
    else if KeptRows(handle) == [] then Failure(NoValidDataMessage)
    else Success(KeptRows(handle))
  }

  /**
    What parseCsv returns or throws: its line counter starts at the header, so a kept row on
    physical line 1001 or later aborts the parse.
  */
  function Parse(u: Upload): Result<seq<Row>> {
    if !u.readable then Failure(CannotReadMessage) else ParseLines(Lines(u), MaxRows)
  }

  /** parseCsv: it opens the file, then reads its lines. */
  method ParseCsv(u: Upload) returns (r: Result<seq<Row>>)
    ensures r == Parse(u)
  {
    if !u.readable {
      return Failure(CannotReadMessage);
    }
    r := ReadRows(Lines(u), MaxRows);
  }

  /** parseCsv's loop: it reads the rows one by one, skipping blank ones and stopping at the ceiling. */
  method ReadRows(handle: seq<string>, ceiling: nat) returns (r: Result<seq<Row>>)
    ensures r == ParseLines(handle, ceiling)
  {
    var data: seq<Row> := [];
    var lineNumber := 0;
    ghost var read: seq<string> := [];
    while lineNumber < |handle|
      invariant 0 <= lineNumber <= |handle| && read == handle[..lineNumber]
      invariant data == KeptRows(read) && !KeptBeyond(read, ceiling)
    {
      var line := handle[lineNumber];
      var row := CsvFields(line);
      KeptBySnoc(read, line, IsBlankLine, CsvFields);
      BeyondBySnoc(read, line, IsBlankLine, ceiling);
      read := read + [line];
      lineNumber := lineNumber + 1;
      if AllFalsy(row) {
        continue;
      }
      data := data + [row];
      if lineNumber > ceiling {
        BeyondByPrefix(handle, read, IsBlankLine, ceiling);
        return Failure(TooManyRowsMessage);
      }
    }
    assert read == handle;
    if data == [] {
      return Failure(NoValidDataMessage);
    }
    return Success(data);
  }

  // ---------------------------------------------------------------------------
  // validateCsvStructure

  /** The exception validateCsvStructure throws, if any: the first row must have 4 fields. */
  function StructureError(csvData: seq<Row>): (r: Option<string>)
    ensures r.None? <==> csvData != [] && |csvData[0]| == 4
    ensures r.Some? ==> (r.value == NoDataMessage <==> csvData == [])
  {
    if csvData == [] then Some(NoDataMessage)
    else if |csvData[0]| != 4 then Some(ColumnsMessage)
    else None
  }

  // ---------------------------------------------------------------------------
  // getOrCreateTag

  datatype Resolved = Resolved(db: Db, id: nat, created: bool)

  /** getOrCreateTag: the first tag with this name ignoring case, or a new one with a palette colour. */
  function ResolveTag(db: Db, name: string, rng: nat -> nat): Resolved {
    match FindTag(db.tags, name)
    case Some(i) => Resolved(db, i, false)
    case None => Resolved(db.(tags := db.tags + [Tag(name, RandomColor(rng(|db.tags|)))]), |db.tags|, true)
  }

  /**
    getOrCreateTag on the store. The colour of a new tag is drawn by `rng` from the number of
    tags already stored: any sequence of random draws is such a function.
  */
  method GetOrCreateTag(store: Database, name: string, rng: nat -> nat) returns (id: nat, created: bool)
    modifies store
    ensures var r := ResolveTag(old(store.Snapshot()), name, rng);
      store.Snapshot() == r.db && id == r.id && created == r.created
  {
    var existing := FindTag(store.tags, name);
    if existing.Some? {
      return existing.value, false;
    }
    var color := RandomColor(rng(|store.tags|));
    id := |store.tags|;
    store.tags := store.tags + [Tag(name, color)];
    created := true;
  }

  // ---------------------------------------------------------------------------
  // processRow

  datatype RowOutcome = Created(tagsCreated: nat) | Skipped | Failed(message: string)

  /** The exception a row raises before the store is consulted, if any. */
  function RowError(row: Row): Option<string> {
    if |row| < 4 then Some(MissingKeyMessage(|row|))
    else if IsFalsy(Trim(row[0])) then Some(NameRequiredMessage)
    else if ParseYmd(Trim(row[2])).None? then Some(BadDateMessage)
    else None
  }

  /** The trimmed, non-falsy pieces, in order. */
  function NonEmptyTrimmed(pieces: seq<string>): (names: seq<string>)
    ensures forall k :: 0 <= k < |names| ==> !IsFalsy(names[k])
  {
    if pieces == [] then []
    else
      var t := Trim(pieces[0]);
      (if IsFalsy(t) then [] else [t]) + NonEmptyTrimmed(pieces[1..])
  }

  /** The tag names of a trimmed tags field: split on `,`, trimmed, falsy names dropped. */
  function TagNames(tagsString: string): seq<string> {
    if IsFalsy(tagsString) then [] else NonEmptyTrimmed(Split(tagsString, ','))
  }

  datatype Resolution = Resolution(db: Db, ids: seq<nat>, created: nat)

  /** Resolving the names one after another: the ids in order and the number of tags created. */
  function ResolveTags(db: Db, names: seq<string>, rng: nat -> nat): Resolution {
    if names == [] then Resolution(db, [], 0)
    else
      var prev := ResolveTags(db, names[..|names| - 1], rng);
      var r := ResolveTag(prev.db, names[|names| - 1], rng);
      Resolution(r.db, prev.ids + [r.id], prev.created + (if r.created then 1 else 0))
  }

  /** Resolving one more name resolves it against the tags the earlier names left. */
  lemma ResolveTagsSnoc(db: Db, names: seq<string>, name: string, rng: nat -> nat)
    ensures var prev := ResolveTags(db, names, rng);
      var r := ResolveTag(prev.db, name, rng);
      ResolveTags(db, names + [name], rng) == Resolution(r.db, prev.ids + [r.id], prev.created + (if r.created then 1 else 0))
  {
    assert (names + [name])[..|names|] == names;
  }

  function Elems(ids: seq<nat>): set<nat> {
    set i | i in ids
  }

  datatype Step = Step(db: Db, outcome: RowOutcome)

  /** What processRow does to the store and returns or throws. */
  function RowStep(db: Db, row: Row, rng: nat -> nat): Step {
    match RowError(row)
    case Some(message) => Step(db, Failed(message))
    case None => StoreRow(db, Trim(row[0]), Trim(row[1]), ParseYmd(Trim(row[2])).value, Trim(row[3]), rng)
  }

  /** The end of processRow for a valid row: a duplicate is skipped, anything else created. */
  function StoreRow(db: Db, name: string, description: string, date: Date, tagsString: string, rng: nat -> nat): Step {
    if HasEvent(db.events, name, date) then Step(db, Skipped)
    else CreateEvent(db, name, description, date, TagNames(tagsString), rng)
  }

  /** The tags resolved in order, then the event written with the set of their ids. */
  function CreateEvent(db: Db, name: string, description: string, date: Date, names: seq<string>, rng: nat -> nat): Step {
    var resolution := ResolveTags(db, names, rng);
    var event := Event(name, if IsFalsy(description) then None else Some(description), date, Elems(resolution.ids));
    Step(resolution.db.(events := resolution.db.events + [event]), Created(resolution.created))
  }

  /** processRow on the store. */
  method ProcessRow(store: Database, row: Row, rng: nat -> nat) returns (outcome: RowOutcome)
    modifies store
    ensures var s := RowStep(old(store.Snapshot()), row, rng);
      store.Snapshot() == s.db && outcome == s.outcome
  {
    if |row| < 4 {
      return Failed(MissingKeyMessage(|row|));
    }
    var name := Trim(row[0]);
    var description := Trim(row[1]);
    var dateString := Trim(row[2]);
    var tagsString := Trim(row[3]);
    if IsFalsy(name) {
      return Failed(NameRequiredMessage);
    }
    var parsed := ParseYmd(dateString);
    if parsed.None? {
      return Failed(BadDateMessage);
    }
    assert RowError(row) == None;
    outcome := StoreEvent(store, name, description, parsed.value, tagsString, rng);
  }

  /** The end of processRow for a valid row: the duplicate check, then the event is written. */
  method StoreEvent(store: Database, name: string, description: string, date: Date, tagsString: string, rng: nat -> nat)
    returns (outcome: RowOutcome)
    modifies store
    ensures var s := StoreRow(old(store.Snapshot()), name, description, date, tagsString, rng);
      store.Snapshot() == s.db && outcome == s.outcome
  {
    if HasEvent(store.events, name, date) {
      return Skipped;
    }
    outcome := WriteEvent(store, name, description, date, tagsString, rng);
  }

  /** The end of processRow for a new event: its tags are resolved, then the event is created with them. */
  method WriteEvent(store: Database, name: string, description: string, date: Date, tagsString: string, rng: nat -> nat)
    returns (outcome: RowOutcome)
    modifies store
    ensures var s := CreateEvent(old(store.Snapshot()), name, description, date, TagNames(tagsString), rng);
      store.Snapshot() == s.db && outcome == s.outcome
  {
    var tagIds, tagsCreated := ResolveTagNames(store, TagNames(tagsString), rng);
    var event := Event(name, if IsFalsy(description) then None else Some(description), date, Elems(tagIds));
    store.events := store.events + [event];
    outcome := Created(tagsCreated);
  }

  /** The tag loop of processRow: each name is looked up or created, its id collected. */
  method ResolveTagNames(store: Database, names: seq<string>, rng: nat -> nat) returns (tagIds: seq<nat>, tagsCreated: nat)
    modifies store
    ensures ResolveTags(old(store.Snapshot()), names, rng) == Resolution(store.Snapshot(), tagIds, tagsCreated)
  {
    tagIds, tagsCreated := [], 0;
    ghost var db0 := store.Snapshot();
    ghost var done: seq<string> := [];
    var k := 0;
    while k < |names|
      invariant 0 <= k <= |names| && done == names[..k]
      invariant ResolveTags(db0, done, rng) == Resolution(store.Snapshot(), tagIds, tagsCreated)
    {
      var name := names[k];
      ResolveTagsSnoc(db0, done, name, rng);
      var id, created := GetOrCreateTag(store, name, rng);
      tagsCreated := tagsCreated + if created then 1 else 0;
      tagIds := tagIds + [id];
      done := done + [name];
      k := k + 1;
    }
    assert done == names;
  }

  // ---------------------------------------------------------------------------
  // processImport

  /** The import report. */
  datatype Stats = Stats(eventsCreated: nat, eventsSkipped: nat, tagsCreated: nat, errors: seq<string>)

  const EmptyStats := Stats(0, 0, 0, [])

  /** The report entry of a row that failed at line `lineNumber`. */
  function LineError(lineNumber: nat, message: string): string {
    "Ligne " + NatToString(lineNumber) + ": " + message
  }

  /** Adding one row's outcome to the report. */
  function Record(stats: Stats, outcome: RowOutcome, lineNumber: nat): Stats {
    match outcome
    case Created(n) => stats.(eventsCreated := stats.eventsCreated + 1, tagsCreated := stats.tagsCreated + n)
    case Skipped => stats.(eventsSkipped := stats.eventsSkipped + 1)
    case Failed(message) => stats.(errors := stats.errors + [LineError(lineNumber, message)])
  }

  /** array_slice($csvData, 1): the rows after the header. */
  function DataRows(csvData: seq<Row>): seq<Row> {
    if csvData == [] then [] else csvData[1..]
  }

  datatype Report = Report(db: Db, stats: Stats)

  /** The data rows processed in order by `step`; the row at index k is reported as line k + 2. */
  function ImportWith(db: Db, dataRows: seq<Row>, step: (Db, Row) -> Step): Report {
    if dataRows == [] then Report(db, EmptyStats)
    else
      var n := |dataRows| - 1;
      var prev := ImportWith(db, dataRows[..n], step);
      var s := step(prev.db, dataRows[n]);
      Report(s.db, Record(prev.stats, s.outcome, n + 2))
  }

  /** processRow as a step function, for the colour draws `rng`. */
  function RowSteps(rng: nat -> nat): (Db, Row) -> Step {
    (d, r) => RowStep(d, r, rng)
  }

  /** processImport's result: every data row processed by processRow, in order. */
  function ImportRows(db: Db, dataRows: seq<Row>, rng: nat -> nat): Report {
    ImportWith(db, dataRows, RowSteps(rng))
  }

  /** processImport on the store. */
  method ProcessImport(store: Database, csvData: seq<Row>, rng: nat -> nat) returns (stats: Stats)
    modifies store
    ensures var rep := ImportRows(old(store.Snapshot()), DataRows(csvData), rng);
      store.Snapshot() == rep.db && stats == rep.stats
  {
    stats := EmptyStats;
    var dataRows := DataRows(csvData);
    ghost var db0 := store.Snapshot();
    ghost var done: seq<Row> := [];
    var index := 0;
    while index < |dataRows|
      invariant 0 <= index <= |dataRows| && done == dataRows[..index]
      invariant ImportRows(db0, done, rng) == Report(store.Snapshot(), stats)
    {
      var lineNumber := index + 2;
      stats := ImportRow(store, db0, done, dataRows[index], lineNumber, stats, rng);
      done := done + [dataRows[index]];
      index := index + 1;
    }
    assert done == dataRows;
  }

  /** One iteration of processImport's loop: the row after `done` is processed and recorded at its line. */
  method ImportRow(store: Database, ghost db0: Db, ghost done: seq<Row>, row: Row, lineNumber: nat, stats: Stats, rng: nat -> nat)
    returns (stats': Stats)
    modifies store
    requires lineNumber == |done| + 2
    requires ImportRows(db0, done, rng) == Report(store.Snapshot(), stats)
    ensures ImportRows(db0, done + [row], rng) == Report(store.Snapshot(), stats')
  {
    ghost var step := RowStep(store.Snapshot(), row, rng);
    ImportRowsSnoc(db0, done, row, rng);
    var outcome := ProcessRow(store, row, rng);
    stats' := Record(stats, outcome, lineNumber);
  }

  /** Processing one more row: it is processed on the store the earlier rows left, and reported at its line. */
  lemma ImportRowsSnoc(db: Db, rows: seq<Row>, row: Row, rng: nat -> nat)
    ensures var prev := ImportRows(db, rows, rng);
      var step := RowStep(prev.db, row, rng);
      ImportRows(db, rows + [row], rng) == Report(step.db, Record(prev.stats, step.outcome, |rows| + 2))
  {
    assert (rows + [row])[..|rows|] == rows;
  }

  // ---------------------------------------------------------------------------
  // importEvents

  datatype ImportOutcome = ImportOutcome(result: Result<Stats>, db: Db)

  /**
    What importEvents does once parseCsv has returned or thrown: the structure check, then every
    data row processed; nothing is written unless both passed.
  */
  function ImportParsed(db: Db, parsed: Result<seq<Row>>, rng: nat -> nat): (o: ImportOutcome)
    ensures o.result.Failure? ==> o.db == db
  {
    match parsed
    case Failure(e) => ImportOutcome(Failure(e), db)
    case Success(csvData) =>
      match StructureError(csvData)
      case Some(e) => ImportOutcome(Failure(e), db)
      case None =>
        var report := ImportRows(db, DataRows(csvData), rng);
        ImportOutcome(Success(report.stats), report.db)
  }

  /** importEvents: parsing and the structure check come first; only then are rows written. */
  function Import(db: Db, u: Upload, rng: nat -> nat): (o: ImportOutcome)
    ensures o.result.Failure? ==> o.db == db
  {
    ImportParsed(db, Parse(u), rng)
  }

  /** importEvents on the store. */
  method ImportEvents(store: Database, u: Upload, rng: nat -> nat) returns (r: Result<Stats>)
    modifies store
    ensures var o := Import(old(store.Snapshot()), u, rng);
      r == o.result && store.Snapshot() == o.db
    ensures r.Failure? ==> store.Snapshot() == old(store.Snapshot())
  {
    var parsed := ParseCsv(u);
    if parsed.Failure? {
      return Failure(parsed.error);
    }
    var csvData := parsed.value;
    var structureError := StructureError(csvData);
    if structureError.Some? {
      return Failure(structureError.value);
    }
    // The transaction: processImport turns every row's exception into a report entry, so it commits.
    var stats := ProcessImport(store, csvData, rng);
    return Success(stats);
  }
}
