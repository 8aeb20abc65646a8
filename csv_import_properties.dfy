/**
  What the importer promises, proved about the specification functions of CsvImportService:
  the rows parseCsv keeps, how tags are resolved, what one row does to the store, and the
  report processImport builds over a whole file.
*/
module CsvImportProperties {
  import opened Wrappers
  import opened Php
  import opened Dates
  import opened Uploads
  import opened Persistence
  import opened CsvImportService

  // ---------------------------------------------------------------------------
  // parseCsv: which rows are kept, and in what order

  /** Reading a file in two parts keeps the rows of the first part, then those of the second: file order is kept. */
  lemma {:induction false} KeptByAppend<T, U>(a: seq<T>, b: seq<T>, blank: T -> bool, fields: T -> U)
    ensures KeptBy(a + b, blank, fields) == KeptBy(a, blank, fields) + KeptBy(b, blank, fields)
    decreases |b|
  {
    if b == [] {
      assert a + b == a;
    } else {
      var n := |b| - 1;
      assert a + b == (a + b[..n]) + [b[n]];
      KeptBySnoc(a + b[..n], b[n], blank, fields);
      KeptByAppend(a, b[..n], blank, fields);
    }
  }

  /** Every kept row comes from a non-blank line of the file. */
  lemma {:induction false} KeptBySource<T, U>(xs: seq<T>, blank: T -> bool, fields: T -> U, k: nat) returns (i: nat)
    requires k < |KeptBy(xs, blank, fields)|
    ensures i < |xs| && !blank(xs[i]) && KeptBy(xs, blank, fields)[k] == fields(xs[i])
  {
    var n := |xs| - 1;
    if k < |KeptBy(xs[..n], blank, fields)| {
      i := KeptBySource(xs[..n], blank, fields, k);
      assert xs[..n][i] == xs[i];
    } else {
      i := n;
    }
  }

  /** Every non-blank line of the file is kept. */
  lemma {:induction false} KeptByLine<T, U>(xs: seq<T>, blank: T -> bool, fields: T -> U, i: nat) returns (k: nat)
    requires i < |xs| && !blank(xs[i])
    ensures k < |KeptBy(xs, blank, fields)| && KeptBy(xs, blank, fields)[k] == fields(xs[i])
  {
    var n := |xs| - 1;
    if i < n {
      assert xs[..n][i] == xs[i];
      k := KeptByLine(xs[..n], blank, fields, i);
    } else {
      k := |KeptBy(xs[..n], blank, fields)|;
    }
  }

  /** Without blank lines every line is kept, so the row at index i is the i-th line's. */
  lemma {:induction false} KeptByWithoutBlanks<T, U>(xs: seq<T>, blank: T -> bool, fields: T -> U)
    requires forall i :: 0 <= i < |xs| ==> !blank(xs[i])
    ensures |KeptBy(xs, blank, fields)| == |xs|
    ensures forall i :: 0 <= i < |xs| ==> KeptBy(xs, blank, fields)[i] == fields(xs[i])
  {
    if xs != [] {
      var n := |xs| - 1;
      assert forall i :: 0 <= i < n ==> xs[..n][i] == xs[i];
      KeptByWithoutBlanks(xs[..n], blank, fields);
    }
  }

  /** Without a non-blank line beyond the ceiling, at most `ceiling` rows are kept. */
  lemma {:induction false} KeptByWithinCeiling<T, U>(xs: seq<T>, blank: T -> bool, fields: T -> U, ceiling: nat)
    requires !BeyondBy(xs, blank, ceiling)
    ensures |KeptBy(xs, blank, fields)| <= ceiling
  {
    if |xs| > ceiling {
      KeptByWithinCeiling(xs[..|xs| - 1], blank, fields, ceiling);
    }
  }

  /** A file no longer than the ceiling never trips it. */
  lemma ShortWithinCeiling<T>(xs: seq<T>, blank: T -> bool, ceiling: nat)
    requires |xs| <= ceiling
    ensures !BeyondBy(xs, blank, ceiling)
  {
    if BeyondBy(xs, blank, ceiling) {
      var i := BeyondByWitness(xs, blank, ceiling);
    }
  }

  /** No kept row is blank: some field of each is neither "" nor "0". */
  lemma KeptRowNotBlank(lines: seq<string>, k: nat)
    requires k < |KeptRows(lines)|
    ensures !AllFalsy(KeptRows(lines)[k])
  {
    var i := KeptBySource(lines, IsBlankLine, CsvFields, k);
  }

  /**
    What a successful parse returns: the kept rows, at least one. The header counts against the
    ceiling, so at most 999 data rows follow it.
  */
  lemma ParsedRows(u: Upload)
    requires Parse(u).Success?
    ensures Parse(u).value == KeptRows(Lines(u))
    ensures 1 <= |Parse(u).value| && |DataRows(Parse(u).value)| <= MaxRows - 1
  {
    KeptByWithinCeiling(Lines(u), IsBlankLine, CsvFields, MaxRows);
  }

  /**
    The ceiling is on physical line numbers, header and blank lines included: a kept row on
    line 1001 or later aborts the parse, however many rows were kept before it.
  */
  lemma CeilingOnPhysicalLines(u: Upload, i: nat)
    requires u.readable && MaxRows <= i < |Lines(u)| && !IsBlankLine(Lines(u)[i])
    ensures Parse(u) == Failure(TooManyRowsMessage)
  {
    BeyondByFrom(Lines(u), IsBlankLine, MaxRows, i);
  }

  /** The messages parseCsv can throw are told apart by their lengths. */
  lemma ParseMessagesDiffer()
    ensures |CannotReadMessage| != |TooManyRowsMessage| && |NoValidDataMessage| != |TooManyRowsMessage|
  {
    assert |TooManyRowsMessage| == 55;
    assert |CannotReadMessage| == 34 && |NoValidDataMessage| == 62;
  }

  /** parseCsv throws the too-many-rows exception exactly when the file opens and has a kept row on line 1001 or later. */
  lemma TooManyRowsExactly(u: Upload)
    ensures Parse(u) == Failure(TooManyRowsMessage) <==> u.readable && KeptBeyond(Lines(u), MaxRows)
  {
    ParseMessagesDiffer();
  }

  /** Conversely, the too-many-rows failure names a kept row on line 1001 or later. */
  lemma TooManyRowsFromLine(u: Upload) returns (i: nat)
    requires Parse(u) == Failure(TooManyRowsMessage)
    ensures u.readable && MaxRows <= i < |Lines(u)| && !IsBlankLine(Lines(u)[i])
  {
    TooManyRowsExactly(u);
    i := BeyondByWitness(Lines(u), IsBlankLine, MaxRows);
  }

  // ---------------------------------------------------------------------------
  // The tags column: exploded on commas, each piece trimmed, falsy pieces dropped

  /** Every name is a trimmed piece of the column, and none is falsy. */
  lemma {:induction false} NonEmptyTrimmedSound(pieces: seq<string>)
    ensures forall name :: name in NonEmptyTrimmed(pieces) ==>
      !IsFalsy(name) && exists j :: 0 <= j < |pieces| && name == Trim(pieces[j])
  {
    if pieces != [] {
      var tail := NonEmptyTrimmed(pieces[1..]);
      NonEmptyTrimmedSound(pieces[1..]);
      forall name | name in NonEmptyTrimmed(pieces)
        ensures exists j :: 0 <= j < |pieces| && name == Trim(pieces[j])
      {
        if name in tail {
          var j :| 0 <= j < |pieces[1..]| && name == Trim(pieces[1..][j]);
          assert name == Trim(pieces[j + 1]);
        } else {
          assert name == Trim(pieces[0]);
        }
      }
    }
  }

  /** Every piece that is not falsy once trimmed is among the names. */
  lemma {:induction false} NonEmptyTrimmedComplete(pieces: seq<string>)
    ensures forall j :: 0 <= j < |pieces| && !IsFalsy(Trim(pieces[j])) ==>
      Trim(pieces[j]) in NonEmptyTrimmed(pieces)
  {
    if pieces != [] {
      var tail := NonEmptyTrimmed(pieces[1..]);
      NonEmptyTrimmedComplete(pieces[1..]);
      forall j | 1 <= j < |pieces| && !IsFalsy(Trim(pieces[j]))
        ensures Trim(pieces[j]) in NonEmptyTrimmed(pieces)
      {
        assert pieces[1..][j - 1] == pieces[j];
      }
    }
  }

  /** The names of a column keep the order of the column's pieces. */
  lemma {:induction false} NonEmptyTrimmedAppend(a: seq<string>, b: seq<string>)
    ensures NonEmptyTrimmed(a + b) == NonEmptyTrimmed(a) + NonEmptyTrimmed(b)
  {
    if a != [] {
      assert (a + b)[0] == a[0] && (a + b)[1..] == a[1..] + b;
      NonEmptyTrimmedAppend(a[1..], b);
      var t := Trim(a[0]);
      AppendAssociates(if IsFalsy(t) then [] else [t], NonEmptyTrimmed(a[1..]), NonEmptyTrimmed(b));
    } else {
      assert a + b == b;
    }
  }

  /** A falsy column explodes to itself, as one piece, and trims to itself. */
  lemma FalsyPiece(tagsString: string)
    requires IsFalsy(tagsString)
    ensures Split(tagsString, ',') == [tagsString] && Trim(tagsString) == tagsString
  {
    if tagsString != "" {
      assert tagsString[0] == '0' && tagsString[1..] == "";
      assert !IsTrimChar(tagsString[0]);
      assert Split(tagsString[1..], ',') == [""];
    }
  }

  /** The falsy column short-cut changes nothing: "" and "0" explode to one falsy piece. */
  lemma TagNamesSplit(tagsString: string)
    ensures TagNames(tagsString) == NonEmptyTrimmed(Split(tagsString, ','))
  {
    if IsFalsy(tagsString) {
      FalsyPiece(tagsString);
      var pieces := [tagsString];
      assert pieces[1..] == [];
    }
  }

  // ---------------------------------------------------------------------------
  // getOrCreateTag: lookups ignore case, and a tag once found stays the one found

  /** The first matching tag is the one the lookup returns. */
  lemma {:induction false} FindTagIs(tags: seq<Tag>, name: string, i: nat)
    requires i < |tags| && SameIgnoringCase(tags[i].name, name)
    requires forall j :: 0 <= j < i ==> !SameIgnoringCase(tags[j].name, name)
    ensures FindTag(tags, name) == Some(i)
  {
    var n := |tags| - 1;
    if i < n {
      assert tags[..n][i] == tags[i];
      assert forall j :: 0 <= j < i ==> tags[..n][j] == tags[j];
      FindTagIs(tags[..n], name, i);
    } else {
      FindTagFirstMatch(tags[..n], name);
      assert forall j :: 0 <= j < n ==> tags[..n][j] == tags[j];
    }
  }

  /** Storing more tags does not change which tag a successful lookup finds. */
  lemma FindTagExtend(tags: seq<Tag>, later: seq<Tag>, name: string)
    requires tags <= later && FindTag(tags, name).Some?
    ensures FindTag(later, name) == FindTag(tags, name)
  {
    var i := FindTag(tags, name).value;
    FindTagFirstMatch(tags, name);
    assert forall j :: 0 <= j <= i ==> later[j] == tags[j];
    FindTagIs(later, name, i);
  }

  /** Names that differ only in case find the same tag. */
  lemma {:induction false} FindTagSameKey(tags: seq<Tag>, a: string, b: string)
    requires SameIgnoringCase(a, b)
    ensures FindTag(tags, a) == FindTag(tags, b)
  {
    if tags != [] {
      FindTagSameKey(tags[..|tags| - 1], a, b);
    }
  }

  /** getOrCreateTag only appends to the tags, and a later lookup of the name finds the id it returned. */
  lemma ResolveTagFinds(db: Db, name: string, rng: nat -> nat)
    ensures var r := ResolveTag(db, name, rng);
      db.tags <= r.db.tags && FindTag(r.db.tags, name) == Some(r.id)
  {
    var r := ResolveTag(db, name, rng);
    if r.created {
      FindTagFirstMatch(db.tags, name);
      assert forall j :: 0 <= j < |db.tags| ==> r.db.tags[j] == db.tags[j];
      FindTagIs(r.db.tags, name, |db.tags|);
    }
  }

  /**
    getOrCreateTag returns a tag whose name matches, which later lookups of that name find; it
    creates one, with a palette colour, exactly when no stored tag matches, and changes nothing else.
  */
  lemma ResolveTagFacts(db: Db, name: string, rng: nat -> nat)
    ensures var r := ResolveTag(db, name, rng);
      && r.db.events == db.events
      && db.tags <= r.db.tags
      && r.id < |r.db.tags|
      && SameIgnoringCase(r.db.tags[r.id].name, name)
      && FindTag(r.db.tags, name) == Some(r.id)
      && (r.created <==> FindTag(db.tags, name).None?)
      && (r.created ==> r.id == |db.tags| && exists c :: c in Palette && r.db.tags == db.tags + [Tag(name, c)])
      && (!r.created ==> r.db == db)
  {
    var r := ResolveTag(db, name, rng);
    ResolveTagFinds(db, name, rng);
    FindTagFirstMatch(r.db.tags, name);
    if r.created {
      assert r.db.tags == db.tags + [Tag(name, RandomColor(rng(|db.tags|)))];
    }
  }

  /** A tag name's lookup result: the tag at `id` is the first whose name matches `name`. */
  predicate Finds(tags: seq<Tag>, name: string, id: nat) {
    FindTag(tags, name) == Some(id)
  }

  /**
    processRow's tag loop keeps the events, only appends tags, one per tag it reports created,
    each with a palette colour, and collects one id per name.
  */
  lemma {:induction false} ResolveTagsShape(db: Db, names: seq<string>, rng: nat -> nat)
    ensures var res := ResolveTags(db, names, rng);
      && res.db.events == db.events
      && db.tags <= res.db.tags
      && |res.db.tags| == |db.tags| + res.created
      && |res.ids| == |names|
      && (forall j :: |db.tags| <= j < |res.db.tags| ==> res.db.tags[j].color in Palette)
  {
    if names != [] {
      var n := |names| - 1;
      var prev := ResolveTags(db, names[..n], rng);
      ResolveTagsShape(db, names[..n], rng);
      ResolveTagFacts(prev.db, names[n], rng);
    }
  }

  /** Every name of `names` finds the id at the same position. */
  predicate FindsAll(tags: seq<Tag>, names: seq<string>, ids: seq<nat>) {
    |ids| == |names| && forall k :: 0 <= k < |names| ==> Finds(tags, names[k], ids[k])
  }

  /** Lookups that succeed keep succeeding, with the same ids, once more tags are stored. */
  lemma FindsAllExtend(tags: seq<Tag>, later: seq<Tag>, names: seq<string>, ids: seq<nat>)
    requires tags <= later && FindsAll(tags, names, ids)
    ensures FindsAll(later, names, ids)
  {
    forall k | 0 <= k < |names|
      ensures Finds(later, names[k], ids[k])
    {
      FindTagExtend(tags, later, names[k]);
    }
  }

  /** One more name that finds its id. */
  lemma FindsAllSnoc(tags: seq<Tag>, names: seq<string>, ids: seq<nat>, name: string, id: nat)
    requires FindsAll(tags, names, ids) && Finds(tags, name, id)
    ensures FindsAll(tags, names + [name], ids + [id])
  {
    assert forall k :: 0 <= k < |names| ==> (names + [name])[k] == names[k] && (ids + [id])[k] == ids[k];
  }

  /** After the tag loop, looking up any of the names finds exactly the id collected for it. */
  lemma {:induction false} ResolveTagsFindIds(db: Db, names: seq<string>, rng: nat -> nat)
    ensures var res := ResolveTags(db, names, rng);
      FindsAll(res.db.tags, names, res.ids)
  {
    if names != [] {
      var n := |names| - 1;
      var prev := ResolveTags(db, names[..n], rng);
      var r := ResolveTag(prev.db, names[n], rng);
      assert FindsAll(r.db.tags, names[..n] + [names[n]], prev.ids + [r.id]) by {
        ResolveTagsFindIds(db, names[..n], rng);
        ResolveTagFinds(prev.db, names[n], rng);
        FindsAllExtend(prev.db.tags, r.db.tags, names[..n], prev.ids);
        FindsAllSnoc(r.db.tags, names[..n], prev.ids, names[n], r.id);
      }
      assert names[..n] + [names[n]] == names;
    }
  }

  /** Names in one tags field that differ only in case get the same tag. */
  lemma CaseVariantsShareTag(db: Db, names: seq<string>, rng: nat -> nat, k: nat, l: nat)
    requires k < |names| && l < |names| && SameIgnoringCase(names[k], names[l])
    ensures var res := ResolveTags(db, names, rng);
      |res.ids| == |names| && res.ids[k] == res.ids[l]
  {
    var res := ResolveTags(db, names, rng);
    ResolveTagsFindIds(db, names, rng);
    assert Finds(res.db.tags, names[k], res.ids[k]) && Finds(res.db.tags, names[l], res.ids[l]);
    FindTagSameKey(res.db.tags, names[k], names[l]);
  }

  /** getOrCreateTag never creates a second tag with the same name ignoring case. */
  lemma ResolveTagKeepsDistinct(db: Db, name: string, rng: nat -> nat)
    requires DistinctTagNames(db.tags)
    ensures DistinctTagNames(ResolveTag(db, name, rng).db.tags)
  {
    var r := ResolveTag(db, name, rng);
    ResolveTagFacts(db, name, rng);
    if r.created {
      FindTagFirstMatch(db.tags, name);
      var t := r.db.tags;
      forall i, j | 0 <= i < j < |t|
        ensures !SameIgnoringCase(t[i].name, t[j].name)
      {
        assert t[i] == db.tags[i];
        if j < |db.tags| {
          assert t[j] == db.tags[j];
        } else {
          assert t[j].name == name;
        }
      }
    }
  }

  /** The tag loop keeps tag names distinct ignoring case. */
  lemma {:induction false} ResolveTagsKeepDistinct(db: Db, names: seq<string>, rng: nat -> nat)
    requires DistinctTagNames(db.tags)
    ensures DistinctTagNames(ResolveTags(db, names, rng).db.tags)
  {
    if names != [] {
      var n := |names| - 1;
      ResolveTagsKeepDistinct(db, names[..n], rng);
      ResolveTagKeepsDistinct(ResolveTags(db, names[..n], rng).db, names[n], rng);
    }
  }

  // ---------------------------------------------------------------------------
  // processRow: what one row does to the store

  /** What processRow makes of a row before it consults the store: its error, or its name and day. */
  datatype Verdict = Invalid(message: string) | Valid(name: string, date: Date)

  /** The verdict on a row: the exception it raises on its own, or the key it is stored under. */
  function Check(row: Row): (v: Verdict)
    ensures v.Valid? ==> |row| >= 4 && v.name == Trim(row[0]) && !IsFalsy(v.name)
    ensures v.Valid? ==> ParseYmd(Trim(row[2])) == Some(v.date)
  {
    match RowError(row)
    case Some(message) => Invalid(message)
    case None => Valid(Trim(row[0]), ParseYmd(Trim(row[2])).value)
  }

  /**
    A row is valid exactly when it has the four fields, a truthy trimmed name and a trimmed date
    that spells a calendar day, whose day it then is. Otherwise its message is that of the first
    check it fails: the missing field, then the name, then the date.
  */
  lemma RowVerdict(row: Row)
    ensures var v := Check(row);
      v.Valid? <==> |row| >= 4 && !IsFalsy(Trim(row[0])) && exists d :: ValidDate(d) && FormatYmd(d) == Trim(row[2])
    ensures var v := Check(row);
      v.Valid? ==> ValidDate(v.date) && FormatYmd(v.date) == Trim(row[2])
    ensures var v := Check(row);
      && (|row| < 4 ==> v == Invalid(MissingKeyMessage(|row|)))
      && (|row| >= 4 && IsFalsy(Trim(row[0])) ==> v == Invalid(NameRequiredMessage))
      && (|row| >= 4 && !IsFalsy(Trim(row[0])) && v.Invalid? ==> v == Invalid(BadDateMessage))
  {
    if |row| >= 4 {
      var s := Trim(row[2]);
      ParseYmdSound(s);
      if exists d :: ValidDate(d) && FormatYmd(d) == s {
        var d :| ValidDate(d) && FormatYmd(d) == s;
        ParseFormat(d);
      }
    }
  }

  /**
    What processRow promises for a row with verdict `v`: it fails exactly when the row is invalid,
    with the row's own message, whatever the store holds, and leaves the store untouched; a valid
    row is skipped exactly when an event with its name and day is stored, and the store is
    untouched too; otherwise one event with the row's key is appended, and as many tags as the row
    reports created.
  */
  predicate StepSpec(d: Db, v: Verdict, s: Step) {
    && (s.outcome.Failed? <==> v.Invalid?)
    && (v.Invalid? ==> s.outcome.message == v.message && s.db == d)
    && (v.Valid? ==> (s.outcome.Skipped? <==> HasEvent(d.events, v.name, v.date)))
    && (s.outcome.Skipped? ==> s.db == d)
    && (s.outcome.Created? ==>
          && v.Valid?
          && d.events <= s.db.events && |s.db.events| == |d.events| + 1
          && s.db.events[|d.events|].name == v.name && s.db.events[|d.events|].date == v.date
          && d.tags <= s.db.tags && |s.db.tags| == |d.tags| + s.outcome.tagsCreated)
  }

  /**
    The event processRow creates: the given name and day, the description or none when it is
    falsy, and exactly the tags its names resolve to; it is appended after the stored events,
    and the tags are those the names left.
  */
  lemma CreatedEvent(db: Db, name: string, description: string, date: Date, names: seq<string>, rng: nat -> nat)
    ensures var s := CreateEvent(db, name, description, date, names, rng);
      var e := s.db.events[|s.db.events| - 1];
      && |s.db.events| == |db.events| + 1 && db.events <= s.db.events
      && s.db.tags == ResolveTags(db, names, rng).db.tags
      && s.outcome == Created(ResolveTags(db, names, rng).created)
      && e.name == name && e.date == date
      && (e.description.None? <==> IsFalsy(description))
      && (e.description.Some? ==> e.description.value == description)
      && forall id :: id in e.tagIds <==> exists k :: 0 <= k < |names| && FindTag(s.db.tags, names[k]) == Some(id)
  {
    var res := ResolveTags(db, names, rng);
    ResolveTagsShape(db, names, rng);
    ResolveTagsFindIds(db, names, rng);
    var s := CreateEvent(db, name, description, date, names, rng);
    var e := s.db.events[|s.db.events| - 1];
    assert e.tagIds == Elems(res.ids) && s.db.tags == res.db.tags;
    forall id
      ensures id in e.tagIds <==> exists k :: 0 <= k < |names| && FindTag(s.db.tags, names[k]) == Some(id)
    {
      if id in e.tagIds {
        var k :| 0 <= k < |res.ids| && res.ids[k] == id;
        assert Finds(res.db.tags, names[k], res.ids[k]);
      }
      if exists k :: 0 <= k < |names| && FindTag(s.db.tags, names[k]) == Some(id) {
        var k :| 0 <= k < |names| && FindTag(s.db.tags, names[k]) == Some(id);
        assert Finds(res.db.tags, names[k], res.ids[k]);
      }
    }
  }

  /** processRow keeps its promise for every store and every row. */
  lemma RowStepOutcome(db: Db, row: Row, rng: nat -> nat)
    ensures StepSpec(db, Check(row), RowStep(db, row, rng))
  {
    var v := Check(row);
    if v.Valid? && !HasEvent(db.events, v.name, v.date) {
      var names := TagNames(Trim(row[3]));
      ResolveTagsShape(db, names, rng);
      CreatedEvent(db, v.name, Trim(row[1]), v.date, names, rng);
    }
  }

  /**
    The event a created row writes: the trimmed name, which is not falsy; the trimmed description
    or none when it is falsy; the day the date column spells; a key no stored event had; and the
    tags its tags column names.
  */
  lemma CreatedRowEvent(db: Db, row: Row, rng: nat -> nat)
    requires RowStep(db, row, rng).outcome.Created?
    ensures Check(row).Valid?
    ensures var s := RowStep(db, row, rng);
      |row| >= 4 && |s.db.events| == |db.events| + 1 &&
      var e := s.db.events[|s.db.events| - 1];
      var names := TagNames(Trim(row[3]));
      && e.name == Trim(row[0]) && !IsFalsy(e.name)
      && (e.description.None? <==> IsFalsy(Trim(row[1])))
      && (e.description.Some? ==> e.description.value == Trim(row[1]))
      && ValidDate(e.date) && FormatYmd(e.date) == Trim(row[2])
      && !HasEvent(db.events, e.name, e.date)
      && forall id :: id in e.tagIds <==> exists k :: 0 <= k < |names| && FindTag(s.db.tags, names[k]) == Some(id)
  {
    RowStepOutcome(db, row, rng);
    var v := Check(row);
    ParseYmdSound(Trim(row[2]));
    CreatedEvent(db, v.name, Trim(row[1]), v.date, TagNames(Trim(row[3])), rng);
  }

  /** A valid row whose name and day are already stored is skipped and changes nothing. */
  lemma KnownKeySkipped(db: Db, row: Row, rng: nat -> nat)
    requires Check(row).Valid? && HasEvent(db.events, Check(row).name, Check(row).date)
    ensures RowStep(db, row, rng) == Step(db, Skipped)
  {
    RowStepOutcome(db, row, rng);
  }

  /** A row imported a second time, whatever colours are drawn, is skipped and changes nothing. */
  lemma SameRowTwice(db: Db, row: Row, rng: nat -> nat, rng': nat -> nat)
    requires RowStep(db, row, rng).outcome.Created?
    ensures var s := RowStep(db, row, rng);
      RowStep(s.db, row, rng') == Step(s.db, Skipped)
  {
    RowStepOutcome(db, row, rng);
    var after := RowStep(db, row, rng).db;
    var n := |db.events|;
    assert after.events[n].name == Check(row).name && after.events[n].date == Check(row).date;
    KnownKeySkipped(after, row, rng');
  }

  /** processRow never creates a second tag with the same name ignoring case. */
  lemma RowStepKeepsDistinct(db: Db, row: Row, rng: nat -> nat)
    requires DistinctTagNames(db.tags)
    ensures DistinctTagNames(RowStep(db, row, rng).db.tags)
  {
    RowStepOutcome(db, row, rng);
    if RowStep(db, row, rng).outcome.Created? {
      var v := Check(row);
      var names := TagNames(Trim(row[3]));
      CreatedEvent(db, v.name, Trim(row[1]), v.date, names, rng);
      ResolveTagsKeepDistinct(db, names, rng);
    }
  }

  /** A step keeps the stored events' keys distinct: a created event's key was not stored. */
  lemma StepKeepsUnique(d: Db, v: Verdict, s: Step)
    requires StepSpec(d, v, s) && UniqueEventKeys(d.events)
    ensures UniqueEventKeys(s.db.events)
  {
    if s.outcome.Created? {
      var n := |d.events|;
      forall i, j | 0 <= i < j < |s.db.events|
        ensures !(s.db.events[i].name == s.db.events[j].name && s.db.events[i].date == s.db.events[j].date)
      {
        assert s.db.events[i] == d.events[i];
        if j < n {
          assert s.db.events[j] == d.events[j];
        }
      }
    }
  }

  // ---------------------------------------------------------------------------
  // processImport: the report accounts for every data row

  /** The report entries of the invalid rows, in file order, each at its line. */
  function ErrorsBy(rows: seq<Row>, check: Row -> Verdict): (errors: seq<string>)
    ensures |errors| <= |rows|
  {
    if rows == [] then []
    else
      var n := |rows| - 1;
      var v := check(rows[n]);
      ErrorsBy(rows[..n], check) + (if v.Invalid? then [LineError(n + 2, v.message)] else [])
  }

  /** The number of valid rows. */
  function ValidCountBy(rows: seq<Row>, check: Row -> Verdict): nat {
    if rows == [] then 0
    else
      var n := |rows| - 1;
      ValidCountBy(rows[..n], check) + (if check(rows[n]).Valid? then 1 else 0)
  }

  /** Every row is either valid or reported once. */
  lemma {:induction false} ErrorsAndValid(rows: seq<Row>, check: Row -> Verdict)
    ensures |ErrorsBy(rows, check)| + ValidCountBy(rows, check) == |rows|
  {
    if rows != [] {
      ErrorsAndValid(rows[..|rows| - 1], check);
    }
  }

  /** Every step function that keeps processRow's promise for the verdicts `check` gives. */
  ghost predicate Sound(step: (Db, Row) -> Step, check: Row -> Verdict) {
    forall d, r :: StepSpec(d, check(r), step(d, r))
  }

  /** processRow keeps its promise whatever colours are drawn. */
  lemma RowStepsSound(rng: nat -> nat)
    ensures Sound(RowSteps(rng), Check)
  {
    forall d, r
      ensures StepSpec(d, Check(r), RowSteps(rng)(d, r))
    {
      RowStepOutcome(d, r, rng);
    }
  }

  /**
    The report of the row loop: the invalid rows' entries, in file order; one created or skipped
    per valid row; as many events appended as created and as many tags appended as reported.
  */
  lemma {:induction false} ImportWithAccounting(db: Db, rows: seq<Row>, step: (Db, Row) -> Step, check: Row -> Verdict)
    requires Sound(step, check)
    ensures var rep := ImportWith(db, rows, step);
      && rep.stats.errors == ErrorsBy(rows, check)
      && rep.stats.eventsCreated + rep.stats.eventsSkipped == ValidCountBy(rows, check)
      && db.events <= rep.db.events && |rep.db.events| == |db.events| + rep.stats.eventsCreated
      && db.tags <= rep.db.tags && |rep.db.tags| == |db.tags| + rep.stats.tagsCreated
  {
    if rows != [] {
      var n := |rows| - 1;
      var prev := ImportWith(db, rows[..n], step);
      ImportWithAccounting(db, rows[..n], step, check);
      assert StepSpec(prev.db, check(rows[n]), step(prev.db, rows[n]));
    }
  }

  /** The row loop keeps event keys unique and tag names distinct. */
  lemma {:induction false} ImportWithKeepsInvariants(db: Db, rows: seq<Row>, step: (Db, Row) -> Step, check: Row -> Verdict)
    requires Sound(step, check)
    requires forall d: Db, r: Row :: DistinctTagNames(d.tags) ==> DistinctTagNames(step(d, r).db.tags)
    requires UniqueEventKeys(db.events) && DistinctTagNames(db.tags)
    ensures var rep := ImportWith(db, rows, step);
      UniqueEventKeys(rep.db.events) && DistinctTagNames(rep.db.tags)
  {
    if rows != [] {
      var n := |rows| - 1;
      var prev := ImportWith(db, rows[..n], step);
      ImportWithKeepsInvariants(db, rows[..n], step, check);
      StepKeepsUnique(prev.db, check(rows[n]), step(prev.db, rows[n]));
    }
  }

  /** A stored key stays stored once more events are appended. */
  lemma HasEventExtend(events: seq<Event>, later: seq<Event>, name: string, date: Date)
    requires events <= later && HasEvent(events, name, date)
    ensures HasEvent(later, name, date)
  {
    var i :| 0 <= i < |events| && events[i].name == name && events[i].date == date;
    assert later[i] == events[i];
  }

  /** The key of a row is stored, if the row is valid. */
  predicate Stored(events: seq<Event>, v: Verdict) {
    v.Valid? ==> HasEvent(events, v.name, v.date)
  }

  /** The key of every valid row is stored. */
  predicate KeysStored(events: seq<Event>, rows: seq<Row>, check: Row -> Verdict) {
    forall k :: 0 <= k < |rows| ==> Stored(events, check(rows[k]))
  }

  /** After the row loop, every valid row's name and day is stored: created now, or found stored. */
  lemma {:induction false} ImportWithStoresKeys(db: Db, rows: seq<Row>, step: (Db, Row) -> Step, check: Row -> Verdict)
    requires Sound(step, check)
    ensures KeysStored(ImportWith(db, rows, step).db.events, rows, check)
  {
    if rows != [] {
      var n := |rows| - 1;
      var prev := ImportWith(db, rows[..n], step);
      var s := step(prev.db, rows[n]);
      ImportWithStoresKeys(db, rows[..n], step, check);
      assert StepSpec(prev.db, check(rows[n]), s);
      assert prev.db.events <= s.db.events;
      forall k | 0 <= k < |rows|
        ensures Stored(s.db.events, check(rows[k]))
      {
        var v := check(rows[k]);
        if k < n {
          assert rows[..n][k] == rows[k];
          if v.Valid? {
            HasEventExtend(prev.db.events, s.db.events, v.name, v.date);
          }
        } else if s.outcome.Created? {
          assert s.db.events[|prev.db.events|].name == v.name;
        }
      }
    }
  }

  /** When every valid row's key is already stored, the row loop skips them all and writes nothing. */
  lemma {:induction false} ImportWithAllKnown(db: Db, rows: seq<Row>, step: (Db, Row) -> Step, check: Row -> Verdict)
    requires Sound(step, check) && KeysStored(db.events, rows, check)
    ensures ImportWith(db, rows, step) == Report(db, Stats(0, ValidCountBy(rows, check), 0, ErrorsBy(rows, check)))
  {
    if rows != [] {
      var n := |rows| - 1;
      assert forall k :: 0 <= k < n ==> rows[..n][k] == rows[k];
      ImportWithAllKnown(db, rows[..n], step, check);
      assert Stored(db.events, check(rows[n]));
      assert StepSpec(db, check(rows[n]), step(db, rows[n]));
    }
  }

  /** A row whose name and day no stored event has, if the row is valid. */
  predicate Fresh(events: seq<Event>, v: Verdict) {
    v.Valid? ==> !HasEvent(events, v.name, v.date)
  }

  /** Two valid rows with the same name and day. */
  predicate SameKey(v: Verdict, w: Verdict) {
    v.Valid? && w.Valid? && v.name == w.name && v.date == w.date
  }

  /** No two valid rows share a name and day. */
  predicate DistinctKeys(rows: seq<Row>, check: Row -> Verdict) {
    forall i, j :: 0 <= i < j < |rows| ==> !SameKey(check(rows[i]), check(rows[j]))
  }

  /** Every event the row loop appends has the name and day of one of the valid rows. */
  lemma {:induction false} ImportWithNewKeys(db: Db, rows: seq<Row>, step: (Db, Row) -> Step, check: Row -> Verdict)
    requires Sound(step, check)
    ensures var events := ImportWith(db, rows, step).db.events;
      && db.events <= events
      && forall e :: |db.events| <= e < |events| ==>
           exists k :: 0 <= k < |rows| && SameKey(check(rows[k]), Valid(events[e].name, events[e].date))
  {
    if rows != [] {
      var n := |rows| - 1;
      var prev := ImportWith(db, rows[..n], step);
      var s := step(prev.db, rows[n]);
      ImportWithNewKeys(db, rows[..n], step, check);
      assert StepSpec(prev.db, check(rows[n]), s);
      forall e | |db.events| <= e < |s.db.events|
        ensures exists k :: 0 <= k < |rows| && SameKey(check(rows[k]), Valid(s.db.events[e].name, s.db.events[e].date))
      {
        if e < |prev.db.events| {
          assert s.db.events[e] == prev.db.events[e];
          var k :| 0 <= k < n && SameKey(check(rows[..n][k]), Valid(prev.db.events[e].name, prev.db.events[e].date));
          assert rows[..n][k] == rows[k];
        } else {
          assert SameKey(check(rows[n]), Valid(s.db.events[e].name, s.db.events[e].date));
        }
      }
    }
  }

  /**
    When no valid row's name and day is stored and no two valid rows share one, the row loop
    skips nothing and creates one event per valid row.
  */
  lemma {:induction false} ImportWithAllFresh(db: Db, rows: seq<Row>, step: (Db, Row) -> Step, check: Row -> Verdict)
    requires Sound(step, check) && DistinctKeys(rows, check)
    requires forall k :: 0 <= k < |rows| ==> Fresh(db.events, check(rows[k]))
    ensures var stats := ImportWith(db, rows, step).stats;
      stats.eventsSkipped == 0 && stats.eventsCreated == ValidCountBy(rows, check)
  {
    if rows != [] {
      var n := |rows| - 1;
      var prev := ImportWith(db, rows[..n], step);
      var v := check(rows[n]);
      var s := step(prev.db, rows[n]);
      assert forall k :: 0 <= k < n ==> rows[..n][k] == rows[k];
      ImportWithAllFresh(db, rows[..n], step, check);
      ImportWithNewKeys(db, rows[..n], step, check);
      assert StepSpec(prev.db, v, s);
      if v.Valid? {
        forall i | 0 <= i < |prev.db.events|
          ensures !(prev.db.events[i].name == v.name && prev.db.events[i].date == v.date)
        {
          var w := Valid(prev.db.events[i].name, prev.db.events[i].date);
          if i < |db.events| {
            assert prev.db.events[i] == db.events[i];
            assert Fresh(db.events, check(rows[n]));
          } else {
            var k :| 0 <= k < n && SameKey(check(rows[..n][k]), w);
            assert !SameKey(check(rows[k]), check(rows[n]));
          }
        }
        assert s.outcome.Created?;
      }
    }
  }

  /** With every row valid, the report lists no errors. */
  lemma {:induction false} ErrorsByAllValid(rows: seq<Row>, check: Row -> Verdict)
    requires forall k :: 0 <= k < |rows| ==> check(rows[k]).Valid?
    ensures ErrorsBy(rows, check) == []
  {
    if rows != [] {
      var n := |rows| - 1;
      assert forall k :: 0 <= k < n ==> rows[..n][k] == rows[k];
      ErrorsByAllValid(rows[..n], check);
    }
  }

  /** The report entries of the data rows that fail on their own, in file order, each at its line. */
  function Errors(rows: seq<Row>): seq<string> {
    ErrorsBy(rows, Check)
  }

  /** The number of data rows without an error of their own. */
  function ValidCount(rows: seq<Row>): nat {
    ValidCountBy(rows, Check)
  }

  /**
    processImport's report: the failing rows' entries in file order at their lines, one created or
    skipped per valid row, and exactly the events and tags it reports appended to the store.
  */
  lemma ImportAccounting(db: Db, rows: seq<Row>, rng: nat -> nat)
    ensures var rep := ImportRows(db, rows, rng);
      && rep.stats.errors == Errors(rows)
      && rep.stats.eventsCreated + rep.stats.eventsSkipped == ValidCount(rows)
      && db.events <= rep.db.events && |rep.db.events| == |db.events| + rep.stats.eventsCreated
      && db.tags <= rep.db.tags && |rep.db.tags| == |db.tags| + rep.stats.tagsCreated
  {
    RowStepsSound(rng);
    ImportWithAccounting(db, rows, RowSteps(rng), Check);
  }

  /** Each data row contributes exactly one of: an event created, a duplicate skipped, an error. */
  lemma ImportTotals(db: Db, rows: seq<Row>, rng: nat -> nat)
    ensures var stats := ImportRows(db, rows, rng).stats;
      stats.eventsCreated + stats.eventsSkipped + |stats.errors| == |rows|
  {
    ImportAccounting(db, rows, rng);
    ErrorsAndValid(rows, Check);
  }

  /** processImport never stores two events with the same name and day, nor two tags with the same name ignoring case. */
  lemma ImportKeepsInvariants(db: Db, rows: seq<Row>, rng: nat -> nat)
    requires UniqueEventKeys(db.events) && DistinctTagNames(db.tags)
    ensures var rep := ImportRows(db, rows, rng);
      UniqueEventKeys(rep.db.events) && DistinctTagNames(rep.db.tags)
  {
    RowStepsSound(rng);
    forall d: Db, r: Row | DistinctTagNames(d.tags)
      ensures DistinctTagNames(RowSteps(rng)(d, r).db.tags)
    {
      RowStepKeepsDistinct(d, r, rng);
    }
    ImportWithKeepsInvariants(db, rows, RowSteps(rng), Check);
  }

  /**
    Importing the same rows again, whatever colours are drawn, creates nothing and changes
    nothing: every valid row is now a duplicate, and the failing rows fail again at the same lines.
  */
  lemma ReimportChangesNothing(db: Db, rows: seq<Row>, rng: nat -> nat, rng': nat -> nat)
    ensures var first := ImportRows(db, rows, rng);
      ImportRows(first.db, rows, rng') == Report(first.db, Stats(0, ValidCount(rows), 0, Errors(rows)))
  {
    RowStepsSound(rng);
    RowStepsSound(rng');
    ImportWithStoresKeys(db, rows, RowSteps(rng), Check);
    ImportWithAllKnown(ImportRows(db, rows, rng).db, rows, RowSteps(rng'), Check);
  }

  /**
    Importing rows whose names and days are new, and pairwise distinct, into a store: nothing is
    skipped, one event is created and appended per valid row, and a file whose rows are all valid
    reports no errors.
  */
  lemma FreshImportCreatesAll(db: Db, rows: seq<Row>, rng: nat -> nat)
    requires forall k :: 0 <= k < |rows| ==> Fresh(db.events, Check(rows[k]))
    requires DistinctKeys(rows, Check)
    ensures var rep := ImportRows(db, rows, rng);
      && rep.stats.eventsSkipped == 0 && rep.stats.eventsCreated == ValidCount(rows)
      && |rep.db.events| == |db.events| + ValidCount(rows)
      && ((forall k :: 0 <= k < |rows| ==> Check(rows[k]).Valid?) ==> rep.stats.errors == [])
  {
    RowStepsSound(rng);
    ImportWithAccounting(db, rows, RowSteps(rng), Check);
    ImportWithAllFresh(db, rows, RowSteps(rng), Check);
    if forall k :: 0 <= k < |rows| ==> Check(rows[k]).Valid? {
      ErrorsByAllValid(rows, Check);
    }
  }
}
