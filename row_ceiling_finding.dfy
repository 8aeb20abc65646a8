/**
  The ceiling on data rows is checked twice. The request validator lets a file through with a
  header and up to 1000 data lines; parseCsv counts the header line against its own ceiling of
  1000, so the largest file the validator accepts is refused by the import, which answers 422.
  This module exhibits such a file, then gives the evident intent, a ceiling on the lines after
  the header, and proves that the import so corrected accepts every file the validator accepts.
*/
module RowCeilingFinding {
  import opened Wrappers
  import opened Php
  import opened Uploads
  import opened Persistence
  import opened CsvImportService
  import opened CsvImportProperties
  import opened AcceptedFiles
  import opened EventController
  import Req = ImportCsvRequest

  /** The header of the files below, and the one data line they repeat (a name and a date, no description, no tags). */
  const HeaderText := Join(["name", "description", "date", "tags"], ';')
  const DataText := Join(["Concert", "", "2024-05-01", ""], ';')
  const Header := HeaderText + "\n"
  const DataLine := DataText + "\n"

  /** `l` written `k` times in a row. */
  function Repeat(l: string, k: nat): string {
    if k == 0 then [] else l + Repeat(l, k - 1)
  }

  /** A successfully uploaded, readable file: a header line, then `k` copies of one data line. */
  function FileOf(header: string, line: string, k: nat): Upload {
    var content := header + Repeat(line, k);
    Upload(true, |content|, "csv", true, content)
  }

  /** A finished line of at most 1 KB that parseCsv keeps. */
  predicate LineOk(l: string) {
    IsLine(l) && l[|l| - 1] == '\n' && !IsBlankLine(l) && |l| <= 1024
  }

  /** Such a line that the after-hook also accepts as the header: truthy, with four columns. */
  predicate HeaderOk(h: string) {
    LineOk(h) && h != "0" && Req.HeaderColumns(h) == Req.ExpectedColumns
  }

  /** What the lemmas below need of the two lines a file is made of. */
  predicate Sample(header: string, line: string) {
    HeaderOk(header) && LineOk(line)
  }

  /** fgets reads a repeated finished line back as that many copies of it. */
  lemma {:induction false} RepeatLines(l: string, k: nat)
    requires IsLine(l) && l[|l| - 1] == '\n'
    ensures Chunks(Repeat(l, k)) == seq(k, _ => l)
  {
    if k > 0 {
      ChunksConsLine(l, Repeat(l, k - 1));
      RepeatLines(l, k - 1);
      assert [l] + seq(k - 1, _ => l) == seq(k, _ => l);
    }
  }

  lemma {:induction false} RepeatLength(l: string, k: nat)
    requires |l| <= 1024
    ensures |Repeat(l, k)| <= 1024 * k
  {
    if k > 0 {
      RepeatLength(l, k - 1);
    }
  }

  /** A text with no line feed, followed by one, is a finished line. */
  lemma FinishedLine(t: string)
    requires '\n' !in t
    ensures IsLine(t + "\n") && (t + "\n")[|t|] == '\n'
  {
    assert (t + "\n")[..|t|] == t;
  }

  /** The lines of such a file, and its size in bytes. */
  lemma FileLines(header: string, line: string, k: nat)
    requires Sample(header, line)
    ensures Lines(FileOf(header, line, k)) == [header] + seq(k, _ => line)
    ensures FileOf(header, line, k).sizeBytes <= 1024 + 1024 * k
  {
    RepeatLines(line, k);
    RepeatLength(line, k);
    ChunksConsLine(header, Repeat(line, k));
  }

  /** trim() of a finished line whose text starts and ends with a visible character: the text. */
  lemma TrimLine(t: string)
    requires t != [] && !IsTrimChar(t[0]) && !IsTrimChar(t[|t| - 1])
    ensures Trim(t + "\n") == t
  {
    assert (t + "\n")[0] == t[0];
    assert (t + "\n")[..|t|] == t;
  }

  /** The line ending is what StripLineEnding removes. */
  lemma StripLine(t: string)
    requires t == [] || t[|t| - 1] != '\r'
    ensures StripLineEnding(t + "\n") == t
  {
    assert (t + "\n")[..|t|] == t;
  }

  /** implode of four pieces, written out. */
  lemma Join4(a: string, b: string, c: string, e: string, d: char)
    ensures Join([a, b, c, e], d) == a + [d] + b + [d] + c + [d] + e
  {
    assert [a, b, c, e][1..] == [b, c, e] && [b, c, e][1..] == [c, e] && [c, e][1..] == [e];
    assert Join([c, e], d) == c + [d] + e;
    assert Join([b, c, e], d) == b + [d] + (c + [d] + e);
    assert Join([a, b, c, e], d) == a + [d] + (b + [d] + (c + [d] + e));
  }

  /**
    A line of four `;`-separated fields without line feeds, the first truthy: a finished line
    that parseCsv keeps.
  */
  lemma FourFieldLine(a: string, b: string, c: string, e: string)
    requires ';' !in a && ';' !in b && ';' !in c && ';' !in e
    requires '\n' !in a && '\n' !in b && '\n' !in c && '\n' !in e
    requires !IsFalsy(a) && (e == [] || e[|e| - 1] != '\r') && |a| + |b| + |c| + |e| <= 1000
    ensures LineOk(Join([a, b, c, e], ';') + "\n")
  {
    var t := Join([a, b, c, e], ';');
    Join4(a, b, c, e, ';');
    assert '\n' !in t;
    FinishedLine(t);
    assert t == [] || t[|t| - 1] != '\r' by {
      if e == [] {
        assert t[|t| - 1] == ';';
      } else {
        assert t[|t| - 1] == e[|e| - 1];
      }
    }
    var pieces := [a, b, c, e];
    assert forall p :: p in pieces ==> ';' !in p;
    SplitJoin(pieces, ';');
    KeptLine(t, pieces);
  }

  /** Such a line whose text starts and ends with a visible character is a header the after-hook accepts. */
  lemma FourColumnHeader(a: string, b: string, c: string, e: string)
    requires ';' !in a && ';' !in b && ';' !in c && ';' !in e
    requires '\n' !in a && '\n' !in b && '\n' !in c && '\n' !in e
    requires !IsFalsy(a) && |a| + |b| + |c| + |e| <= 1000
    requires !IsTrimChar(a[0]) && e != [] && !IsTrimChar(e[|e| - 1]) && e[|e| - 1] != '\r'
    ensures HeaderOk(Join([a, b, c, e], ';') + "\n")
  {
    var t := Join([a, b, c, e], ';');
    FourFieldLine(a, b, c, e);
    Join4(a, b, c, e, ';');
    assert t[0] == a[0] && t[|t| - 1] == e[|e| - 1];
    TrimLine(t);
    var pieces := [a, b, c, e];
    assert forall p :: p in pieces ==> ';' !in p;
    SplitJoin(pieces, ';');
  }

  /** A finished line whose text splits into `pieces`, the first of them truthy: parseCsv keeps it. */
  lemma KeptLine(t: string, pieces: seq<string>)
    requires |pieces| >= 1 && Split(t, ';') == pieces && !IsFalsy(pieces[0])
    requires t == [] || t[|t| - 1] != '\r'
    ensures !IsBlankLine(t + "\n")
  {
    StripLine(t);
  }

  lemma HeaderFacts()
    ensures HeaderOk(Header)
  {
    FourColumnHeader("name", "description", "date", "tags");
  }

  lemma DataLineFacts()
    ensures LineOk(DataLine)
  {
    FourFieldLine("Concert", "", "2024-05-01", "");
  }

  /** The lines the files below are made of meet Sample. */
  lemma SampleLines()
    ensures Sample(Header, DataLine)
  {
    HeaderFacts();
    DataLineFacts();
  }

  /** Every file of a header and at most 1000 data lines passes the declared rules. */
  lemma RulesAccept(header: string, line: string, k: nat)
    requires Sample(header, line) && k <= Req.MaxDataRows
    ensures Req.RuleErrors(Some(FileOf(header, line, k))) == []
  {
    FileLines(header, line, k);
  }

  /** Every file of a header and 1 to 1000 data lines passes the after-hook. */
  lemma HookAccepts(header: string, line: string, k: nat)
    requires Sample(header, line) && 1 <= k <= Req.MaxDataRows
    ensures Req.AfterHookError(Some(FileOf(header, line, k))).None?
  {
    var lines := Lines(FileOf(header, line, k));
    FileLines(header, line, k);
    assert lines[0] == header && |lines| == k + 1;
    assert Req.WellShapedLines(lines);
  }

  /** Every file of a header and 1 to 1000 data lines passes the declared rules and the after-hook. */
  lemma ValidatorAccepts(header: string, line: string, k: nat)
    requires Sample(header, line) && 1 <= k <= Req.MaxDataRows
    ensures Req.RuleErrors(Some(FileOf(header, line, k))) == []
    ensures Req.AfterHookError(Some(FileOf(header, line, k))).None?
  {
    RulesAccept(header, line, k);
    HookAccepts(header, line, k);
  }

  /**
    As written, parseCsv refuses a file of a header and `k` data lines exactly when `k` reaches
    1000: the 1000th data line is physical line 1001.
  */
  lemma AsWrittenCeiling(header: string, line: string, k: nat)
    requires Sample(header, line) && k >= 1
    ensures Parse(FileOf(header, line, k)) == Failure(TooManyRowsMessage) <==> k >= MaxRows
  {
    var lines := Lines(FileOf(header, line, k));
    FileLines(header, line, k);
    if k >= MaxRows {
      assert lines[MaxRows] == line;
      BeyondByFrom(lines, IsBlankLine, MaxRows, MaxRows);
    } else {
      ShortWithinCeiling(lines, IsBlankLine, MaxRows);
      var i := KeptByLine(lines, IsBlankLine, CsvFields, 0);
    }
  }

  /**
    The file of a header and 1000 copies of a data line: the validator accepts it and parseCsv
    refuses it.
  */
  lemma HeaderCountedAgainstCeiling()
    ensures Req.RuleErrors(Some(FileOf(Header, DataLine, 1000))) == []
    ensures Req.AfterHookError(Some(FileOf(Header, DataLine, 1000))).None?
    ensures Parse(FileOf(Header, DataLine, 1000)) == Failure(TooManyRowsMessage)
  {
    SampleLines();
    ValidatorAccepts(Header, DataLine, 1000);
    AsWrittenCeiling(Header, DataLine, 1000);
  }

  /** importCsv answers that file with 422 and the too-many-rows message, and writes nothing. */
  lemma HeaderCountedAnswer(db: Db, rng: nat -> nat)
    ensures var o := Import(db, FileOf(Header, DataLine, 1000), rng);
      ImportResponse(o.result) == Response(422, FailurePrefix + TooManyRowsMessage, None, None) && o.db == db
  {
    HeaderCountedAgainstCeiling();
  }

  // ---------------------------------------------------------------------------
  // The corrected ceiling

  /** parseCsv with its ceiling of 1000 on the lines after the header, as the validator counts them. */
  function CorrectedParse(u: Upload): Result<seq<Row>> {
    if !u.readable then Failure(CannotReadMessage) else ParseLines(Lines(u), MaxRows + 1)
  }

  /** importEvents over the corrected parse. */
  function CorrectedImport(db: Db, u: Upload, rng: nat -> nat): ImportOutcome {
    ImportParsed(db, CorrectedParse(u), rng)
  }

  /**
    With the ceiling on data lines, no file the validator accepts trips it: such a file parses to
    its kept rows, or is refused only for holding no row at all.
  */
  lemma ValidatedFileParses(u: Upload)
    requires PassesHook(u)
    ensures CorrectedParse(u) == if KeptRows(Lines(u)) == [] then Failure(NoValidDataMessage) else Success(KeptRows(Lines(u)))
  {
    ShortWithinCeiling(Lines(u), IsBlankLine, MaxRows + 1);
  }

  /** A corrected import fails on an accepted file only when no line is kept or the first kept row lacks 4 fields. */
  lemma CorrectedFailures(db: Db, u: Upload, rng: nat -> nat)
    requires PassesHook(u)
    ensures var r := CorrectedImport(db, u, rng).result;
      r.Failure? ==> (r.error == NoValidDataMessage || r.error == ColumnsMessage) && r.error != TooManyRowsMessage
  {
    ValidatedFileParses(u);
    StructureMessagesDiffer();
    ParseMessagesDiffer();
  }

  /** A corrected import of an accepted file whose header line is kept returns a report, and importCsv answers 200. */
  lemma CorrectedImportSucceeds(db: Db, u: Upload, rng: nat -> nat)
    requires PassesHook(u) && !IsBlankLine(Lines(u)[0])
    ensures CorrectedImport(db, u, rng).result.Success?
    ensures ImportResponse(CorrectedImport(db, u, rng).result).status == 200
  {
    ValidatedFileParses(u);
    AcceptedHeaderPassesStructure(u);
  }

  /** The corrected parse keeps every line of such a file: the header and all `k` data rows. */
  lemma CorrectedAcceptsFile(header: string, line: string, k: nat)
    requires Sample(header, line) && 1 <= k <= Req.MaxDataRows
    ensures CorrectedParse(FileOf(header, line, k)).Success?
    ensures |DataRows(CorrectedParse(FileOf(header, line, k)).value)| == k
  {
    var lines := Lines(FileOf(header, line, k));
    FileLines(header, line, k);
    ShortWithinCeiling(lines, IsBlankLine, MaxRows + 1);
    assert forall i :: 0 <= i < |lines| ==> !IsBlankLine(lines[i]);
    KeptByWithoutBlanks(lines, IsBlankLine, CsvFields);
  }

  /** The file the import refuses is accepted by the corrected parse, with its 1000 data rows. */
  lemma CorrectedAcceptsFullFile()
    ensures CorrectedParse(FileOf(Header, DataLine, 1000)).Success?
    ensures |DataRows(CorrectedParse(FileOf(Header, DataLine, 1000)).value)| == 1000
  {
    SampleLines();
    CorrectedAcceptsFile(Header, DataLine, 1000);
  }
}
