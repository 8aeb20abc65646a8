/**
  What the importer does with a file the request's after-hook has let through. The hook and
  parseCsv read the same lines: the hook counts the header's columns as parseCsv counts its
  fields, but its limit of 1000 is on the lines after the header, while parseCsv's is on
  physical line numbers. So an accepted file is refused by the import for too many rows
  exactly when its 1001st line is kept.
*/
module AcceptedFiles {
  import opened Wrappers
  import opened Php
  import opened Uploads
  import opened Persistence
  import opened CsvImportService
  import opened CsvImportProperties
  import Req = ImportCsvRequest

  /** The file is present, opens, and passes the after-hook's shape checks. */
  predicate PassesHook(u: Upload) {
    Req.HasFile(Some(u)) && Req.AfterHookError(Some(u)).None?
  }

  // ---------------------------------------------------------------------------
  // The hook's column count and parseCsv's field count agree

  /** Dropping a last character that is not `d` keeps the count of `d`. */
  lemma DropLastOccurrences(s: string, d: char)
    requires s != [] && s[|s| - 1] != d
    ensures Occurrences(s[..|s| - 1], d) == Occurrences(s, d)
  {
    var n := |s| - 1;
    assert s == s[..n] + [s[n]];
    OccurrencesAppend(s[..n], [s[n]], d);
    assert [s[n]][1..] == [];
  }

  /** trim() strips no `;` from the front... */
  lemma {:induction false} TrimStartKeepsSemicolons(s: string)
    ensures Occurrences(TrimStart(s), ';') == Occurrences(s, ';')
    decreases |s|
  {
    if s != [] && IsTrimChar(s[0]) {
      TrimStartKeepsSemicolons(s[1..]);
    }
  }

  /** ...nor from the back. */
  lemma {:induction false} TrimEndKeepsSemicolons(s: string)
    ensures Occurrences(TrimEnd(s), ';') == Occurrences(s, ';')
    decreases |s|
  {
    if s != [] && IsTrimChar(s[|s| - 1]) {
      TrimEndKeepsSemicolons(s[..|s| - 1]);
      DropLastOccurrences(s, ';');
    }
  }

  /** Removing the line ending removes no `;`. */
  lemma StripKeepsSemicolons(line: string)
    ensures Occurrences(StripLineEnding(line), ';') == Occurrences(line, ';')
  {
    var once := if line != [] && line[|line| - 1] == '\n' then line[..|line| - 1] else line;
    if line != [] && line[|line| - 1] == '\n' {
      DropLastOccurrences(line, ';');
    }
    if once != [] && once[|once| - 1] == '\r' {
      DropLastOccurrences(once, ';');
    }
  }

  /** The fields parseCsv reads from a line are as many as the columns the after-hook counts on it. */
  lemma HeaderFieldsMatchColumns(line: string)
    ensures |CsvFields(line)| == Req.HeaderColumns(line)
  {
    assert |CsvFields(line)| == Occurrences(line, ';') + 1 by {
      SplitCount(StripLineEnding(line), ';');
      StripKeepsSemicolons(line);
    }
    assert Req.HeaderColumns(line) == Occurrences(line, ';') + 1 by {
      SplitCount(Trim(line), ';');
      TrimStartKeepsSemicolons(line);
      TrimEndKeepsSemicolons(TrimStart(line));
    }
  }

  /** The first kept element is the first element's, when that one is not blank. */
  lemma KeptByFirst<T, U>(xs: seq<T>, blank: T -> bool, fields: T -> U)
    requires xs != [] && !blank(xs[0])
    ensures KeptBy(xs, blank, fields) != [] && KeptBy(xs, blank, fields)[0] == fields(xs[0])
  {
    assert xs == [xs[0]] + xs[1..];
    KeptByAppend([xs[0]], xs[1..], blank, fields);
    assert [xs[0]][..0] == [];
  }

  /**
    validateCsvStructure passes on the rows of an accepted file whose header line is kept: the
    first row is the header's four fields.
  */
  lemma AcceptedHeaderPassesStructure(u: Upload)
    requires PassesHook(u) && !IsBlankLine(Lines(u)[0])
    ensures KeptRows(Lines(u)) != [] && StructureError(KeptRows(Lines(u))).None?
  {
    KeptByFirst(Lines(u), IsBlankLine, CsvFields);
    HeaderFieldsMatchColumns(Lines(u)[0]);
  }

  // ---------------------------------------------------------------------------
  // The import of an accepted file, as written

  /** The structure check's messages are not the too-many-rows one. */
  lemma StructureMessagesDiffer()
    ensures |ColumnsMessage| != |TooManyRowsMessage| && |NoDataMessage| != |TooManyRowsMessage|
  {
    assert |TooManyRowsMessage| == 55;
    assert |ColumnsMessage| == 51 && |NoDataMessage| == 54;
  }

  /** In a file of at most 1001 lines, the only line past the ceiling is the 1001st. */
  lemma CeilingOnShortFile(lines: seq<string>)
    requires |lines| <= MaxRows + 1
    ensures KeptBeyond(lines, MaxRows) <==> |lines| == MaxRows + 1 && !IsBlankLine(lines[MaxRows])
  {
    if KeptBeyond(lines, MaxRows) {
      var i := BeyondByWitness(lines, IsBlankLine, MaxRows);
    }
    if |lines| == MaxRows + 1 && !IsBlankLine(lines[MaxRows]) {
      BeyondByFrom(lines, IsBlankLine, MaxRows, MaxRows);
    }
  }

  /** parseCsv refuses an accepted file for too many rows exactly when its 1001st line is kept. */
  lemma AcceptedFileCeiling(u: Upload)
    requires PassesHook(u)
    ensures Parse(u) == Failure(TooManyRowsMessage) <==> |Lines(u)| == MaxRows + 1 && !IsBlankLine(Lines(u)[MaxRows])
  {
    assert u.readable && |Lines(u)| <= MaxRows + 1 by {
      assert Req.WellShaped(u);
    }
    TooManyRowsExactly(u);
    CeilingOnShortFile(Lines(u));
  }

  /**
    importEvents fails on an accepted file only when no line is kept, when the first kept row
    lacks 4 fields, or for too many rows; the last exactly when its 1001st line is kept.
  */
  lemma AcceptedFileFailures(db: Db, u: Upload, rng: nat -> nat)
    requires PassesHook(u)
    ensures var r := Import(db, u, rng).result;
      r.Failure? ==> r.error == NoValidDataMessage || r.error == ColumnsMessage || r.error == TooManyRowsMessage
    ensures Import(db, u, rng).result == Failure(TooManyRowsMessage) <==>
      |Lines(u)| == MaxRows + 1 && !IsBlankLine(Lines(u)[MaxRows])
  {
    AcceptedFileCeiling(u);
    StructureMessagesDiffer();
    assert u.readable by {
      assert Req.WellShaped(u);
    }
    var parsed := Parse(u);
    assert Import(db, u, rng) == ImportParsed(db, parsed, rng);
    if parsed.Success? {
      assert parsed.value != [];
      assert StructureError(parsed.value) != Some(NoDataMessage);
    } else {
      assert parsed.error == NoValidDataMessage || parsed.error == TooManyRowsMessage;
    }
  }

  /**
    An accepted file whose header line is kept, and whose 1001st line, if it has one, is blank,
    is imported: importEvents returns a report.
  */
  lemma AcceptedFileImports(db: Db, u: Upload, rng: nat -> nat)
    requires PassesHook(u) && !IsBlankLine(Lines(u)[0])
    requires |Lines(u)| <= MaxRows || IsBlankLine(Lines(u)[MaxRows])
    ensures Import(db, u, rng).result.Success?
  {
    AcceptedHeaderPassesStructure(u);
    AcceptedFileCeiling(u);
  }
}
