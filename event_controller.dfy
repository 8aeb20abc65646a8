/**
  The two import endpoints of the event controller: validateCsvImport, which reports the number
  of lines of a file the request accepted, and importCsv, which runs the import and turns its
  report, or the exception it raised, into the JSON response.
*/
module EventController {
  import opened Wrappers
  import opened Php
  import opened Uploads
  import opened Persistence
  import opened CsvImportService
  import Req = ImportCsvRequest

  // ---------------------------------------------------------------------------
  // countCsvLines and validateCsvImport

  /** countCsvLines: 0 when the file cannot be opened, else one per value fgets returns. */
  method CountCsvLines(u: Upload) returns (n: nat)
    ensures !u.readable ==> n == 0
    ensures u.readable ==> n == |Lines(u)|
    ensures u.readable && u.content != [] ==>
      n == Occurrences(u.content, '\n') + (if u.content[|u.content| - 1] != '\n' then 1 else 0)
  {
    if !u.readable {
      return 0;
    }
    var handle := Lines(u);
    n := 0;
    while n < |handle|
      invariant n <= |handle|
    {
      var line := handle[n];
      n := n + 1;
    }
    ChunksCount(u.content);
  }

  /** The part of validateCsvImport's file_info this model keeps: the size and the line count. */
  datatype FileInfo = FileInfo(sizeBytes: nat, lines: nat)

  /** What the endpoint answers: the request's messages when it refuses the file, else the file's info. */
  datatype Validation = Rejected(errors: seq<string>) | Accepted(info: FileInfo)

  /**
    validateCsvImport behind its form request: the request's checks run first, and the controller
    is reached only when they all pass. A file it accepts has the header and 1 to 1000 lines after it.
  */
  method ValidateCsvImport(request: Option<Upload>) returns (r: Validation)
    ensures r.Rejected? <==> Req.RuleErrors(request) + Req.AsList(Req.AfterHookError(request)) != []
    ensures r.Rejected? ==> r.errors == Req.RuleErrors(request) + Req.AsList(Req.AfterHookError(request))
    ensures r.Accepted? ==> request.Some? && r.info == FileInfo(request.value.sizeBytes, |Lines(request.value)|)
    ensures r.Accepted? ==> 2 <= r.info.lines <= Req.MaxDataRows + 1
  {
    var errors := Req.Validate(request);
    if errors != [] {
      return Rejected(errors);
    }
    var file := request.value;
    var lines := CountCsvLines(file);
    return Accepted(FileInfo(file.sizeBytes, lines));
  }

  // ---------------------------------------------------------------------------
  // importCsv

  /** The JSON response: its status, `message`, and the `stats` and `warnings` keys when present. */
  datatype Response = Response(status: nat, message: string, stats: Option<Stats>, warnings: Option<seq<string>>)

  const SuccessPrefix := "Import terminé avec succès !"
  const CreatedSuffix := " événement(s) créé(s)."
  const TagsSuffix := " étiquette(s) créée(s)."
  const SkippedSuffix := " événement(s) ignoré(s) (doublons)."
  const FailurePrefix := "Erreur lors de l'import : "

  /** The sentence reporting a count, or nothing when the count is 0. */
  function Note(count: nat, suffix: string): string {
    if count > 0 then " " + NatToString(count) + suffix else ""
  }

  /** The success message: the fixed sentence, then the non-zero counts of created events, created tags and duplicates. */
  function SuccessMessage(s: Stats): string {
    SuccessPrefix + Note(s.eventsCreated, CreatedSuffix) + Note(s.tagsCreated, TagsSuffix) + Note(s.eventsSkipped, SkippedSuffix)
  }

  /** The response importCsv builds from what importEvents returned or threw. */
  function ImportResponse(result: Result<Stats>): Response {
    match result
    case Failure(e) => Response(422, FailurePrefix + e, None, None)
    case Success(s) => Response(200, SuccessMessage(s), Some(s), if s.errors == [] then None else Some(s.errors))
  }

  /** What importCsv answers: the request's messages when it refuses the file, else the built response. */
  datatype ImportAnswer = Refused(errors: seq<string>) | Answered(response: Response)

  /**
    importCsv behind its form request: a request that fails the checks is refused with their
    messages and the store is untouched; otherwise the file is imported and the answer is the
    response built from the outcome.
  */
  method ImportCsv(store: Database, request: Option<Upload>, rng: nat -> nat) returns (answer: ImportAnswer)
    modifies store
    ensures answer.Refused? <==> Req.RuleErrors(request) + Req.AsList(Req.AfterHookError(request)) != []
    ensures answer.Refused? ==>
      answer.errors == Req.RuleErrors(request) + Req.AsList(Req.AfterHookError(request))
      && store.Snapshot() == old(store.Snapshot())
    ensures answer.Answered? ==> request.Some?
    ensures answer.Answered? && request.Some? ==>
      var o := Import(old(store.Snapshot()), request.value, rng);
      answer.response == ImportResponse(o.result) && store.Snapshot() == o.db
  {
    var errors := Req.Validate(request);
    if errors != [] {
      return Refused(errors);
    }
    var result := ImportEvents(store, request.value, rng);
    var response := BuildResponse(result);
    answer := Answered(response);
  }

  /** The response of importCsv, the message built sentence by sentence. */
  method BuildResponse(result: Result<Stats>) returns (response: Response)
    ensures response == ImportResponse(result)
  {
    if result.Failure? {
      return Response(422, FailurePrefix + result.error, None, None);
    }
    var stats := result.value;
    var message := SuccessPrefix;
    message := AppendNote(message, stats.eventsCreated, CreatedSuffix);
    message := AppendNote(message, stats.tagsCreated, TagsSuffix);
    message := AppendNote(message, stats.eventsSkipped, SkippedSuffix);
    var warnings: Option<seq<string>> := None;
    if stats.errors != [] {
      warnings := Some(stats.errors);
    }
    response := Response(200, message, Some(stats), warnings);
  }

  /** `$message .= " {$count}…"` when the count is not 0. */
  method AppendNote(message: string, count: nat, suffix: string) returns (m: string)
    ensures m == message + Note(count, suffix)
  {
    m := message;
    if count > 0 {
      m := m + (" " + NatToString(count) + suffix);
    } else {
      assert m + "" == m;
    }
  }

  // ---------------------------------------------------------------------------
  // Properties of the responses

  /**
    A successful import answers 200 with its report, and `warnings` holds the report's errors
    exactly when there are some; a thrown exception answers 422 with its message and nothing else.
  */
  lemma ResponseShape(result: Result<Stats>)
    ensures var r := ImportResponse(result);
      && (r.status == 200 <==> result.Success?)
      && (result.Success? ==>
            r.stats == Some(result.value)
            && (r.warnings.Some? <==> result.value.errors != [])
            && (r.warnings.Some? ==> r.warnings.value == result.value.errors))
      && (result.Failure? ==>
            r.status == 422 && r.message == FailurePrefix + result.error && r.stats.None? && r.warnings.None?)
  {
  }

  /** The success message is the bare sentence exactly when nothing was created and nothing skipped. */
  lemma QuietImport(s: Stats)
    ensures SuccessMessage(s) == SuccessPrefix <==> s.eventsCreated == 0 && s.tagsCreated == 0 && s.eventsSkipped == 0
  {
    var a, b, c := Note(s.eventsCreated, CreatedSuffix), Note(s.tagsCreated, TagsSuffix), Note(s.eventsSkipped, SkippedSuffix);
    assert |SuccessMessage(s)| == |SuccessPrefix| + |a| + |b| + |c|;
  }

  /** The message alone tells a successful import from a failed one. */
  lemma MessageTellsOutcome(result: Result<Stats>)
    ensures SuccessPrefix <= ImportResponse(result).message <==> result.Success?
  {
    var m := ImportResponse(result).message;
    if result.Failure? {
      assert m[0] == 'E' && SuccessPrefix[0] == 'I';
    }
  }
}
