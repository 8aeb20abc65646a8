/**
  The form request guarding the import endpoints: the declared rules on `csv_file`
  with their messages, and the after-hook that checks the file's shape
  (header column count, number of data lines) and records at most one message.
*/
module ImportCsvRequest {
  import opened Wrappers
  import opened Php
  import opened Uploads

  const MaxKilobytes: nat := 10240
  const MaxDataRows: nat := 1000
  const ExpectedColumns: nat := 4

  // ---------------------------------------------------------------------------
  // rules() and messages()

  datatype Rule = Required | File | Max(kilobytes: nat) | Mimes(extensions: seq<string>)

  /** The rules declared for `csv_file`, in their declared order. */
  const CsvFileRules: seq<Rule> := [Required, File, Max(MaxKilobytes), Mimes(["csv", "txt"])]

  /** The custom message of each rule. */
  function Message(rule: Rule): string {
    match rule
    case Required => "Un fichier CSV est requis."
    case File => "Le fichier téléchargé n'est pas valide."
    case Mimes(_) => "Le fichier doit être au format CSV."
    case Max(_) => "Le fichier ne peut pas dépasser 10 MB."
  }

  /** Whether the request's `csv_file` satisfies one rule; a size limit is in kilobytes of 1024 bytes. */
  predicate Satisfies(rule: Rule, request: Option<Upload>) {
    match rule
    case Required => request.Some?
    case File => request.Some? && request.value.uploadOk
    case Max(kb) => request.Some? ==> request.value.sizeBytes <= kb * 1024
    case Mimes(exts) => request.Some? ==> request.value.guessedExtension in exts
  }

  /** What one rule contributes: its message when the request fails it, nothing otherwise. */
  function Verdict(rule: Rule, request: Option<Upload>): seq<string> {
    if Satisfies(rule, request) then [] else [Message(rule)]
  }

  /** The messages of the failing rules among `rules`, in order. */
  function FailedRules(rules: seq<Rule>, request: Option<Upload>): (r: seq<string>)
    ensures |r| <= |rules|
    ensures r == [] <==> forall i :: 0 <= i < |rules| ==> Satisfies(rules[i], request)
  {
    if rules == [] then []
    else
      var rest := FailedRules(rules[1..], request);
      assert forall i :: 0 < i < |rules| ==> rules[i] == rules[1..][i - 1];
      Verdict(rules[0], request) + rest
  }

  /** The messages are exactly those of the failing rules. */
  lemma {:induction false} FailedRulesMessages(rules: seq<Rule>, request: Option<Upload>)
    ensures forall m :: m in FailedRules(rules, request) <==>
      exists i :: 0 <= i < |rules| && !Satisfies(rules[i], request) && Message(rules[i]) == m
  {
    if rules != [] {
      FailedRulesMessages(rules[1..], request);
      assert forall i :: 0 < i < |rules| ==> rules[i] == rules[1..][i - 1];
      assert forall i :: 0 <= i < |rules| - 1 ==> rules[1..][i] == rules[i + 1];
    }
  }

  /** The first rule of `a` is the first applied to `a + b`. */
  lemma FailedRulesConsAppend(a: seq<Rule>, b: seq<Rule>, request: Option<Upload>)
    requires a != []
    ensures FailedRules(a + b, request) == Verdict(a[0], request) + FailedRules(a[1..] + b, request)
  {
    assert (a + b)[0] == a[0] && (a + b)[1..] == a[1..] + b;
  }

  /** The rules are applied in their declared order: the messages of a list are those of its parts, in turn. */
  lemma {:induction false} FailedRulesAppend(a: seq<Rule>, b: seq<Rule>, request: Option<Upload>)
    ensures FailedRules(a + b, request) == FailedRules(a, request) + FailedRules(b, request)
  {
    if a == [] {
      assert a + b == b;
    } else {
      FailedRulesConsAppend(a, b, request);
      FailedRulesAppend(a[1..], b, request);
      AppendAssociates(Verdict(a[0], request), FailedRules(a[1..], request), FailedRules(b, request));
    }
  }

  /**
    The message of an upload that did not complete. The framework records this one failure for
    it and applies no other rule; the form request gives it no custom message.
  */
  const UploadFailedMessage := "The csv file failed to upload."

  /**
    The messages the declared rules produce. A missing file fails `required` alone: the other
    rules are not applied to an absent value. A failed upload gets the upload-failed message alone.
    Otherwise the size rule and the type rule are each checked, in that order.
  */
  function RuleErrors(request: Option<Upload>): (r: seq<string>)
    ensures request.None? ==> r == ["Un fichier CSV est requis."]
    ensures request.Some? && !request.value.uploadOk ==> r == [UploadFailedMessage]
    ensures request.Some? && request.value.uploadOk ==>
      r == (if request.value.sizeBytes <= 10240 * 1024 then [] else ["Le fichier ne peut pas dépasser 10 MB."])
           + (if request.value.guessedExtension in ["csv", "txt"] then [] else ["Le fichier doit être au format CSV."])
    ensures request.Some? ==>
      (r == [] <==> request.value.uploadOk && request.value.sizeBytes <= 10240 * 1024
                    && request.value.guessedExtension in ["csv", "txt"])
  {
    if request.None? then [Message(Required)]
    else if !request.value.uploadOk then [UploadFailedMessage]
    else
      var rules := CsvFileRules[1..];
      assert rules == [File] + [Max(MaxKilobytes)] + [Mimes(["csv", "txt"])];
      FailedRulesAppend([File] + [Max(MaxKilobytes)], [Mimes(["csv", "txt"])], request);
      FailedRulesAppend([File], [Max(MaxKilobytes)], request);
      FailedRules(rules, request)
  }

  // ---------------------------------------------------------------------------
  // withValidator(): the after-hook

  const CannotReadMessage := "Impossible de lire le fichier CSV."
  const EmptyFileMessage := "Le fichier CSV est vide."
  const TooFewRowsMessage := "Le fichier CSV doit contenir au moins une ligne de données en plus de l'en-tête."

  const ColumnsPrefix := "Le fichier CSV doit contenir exactement 4 colonnes séparées par des points-virgules. Trouvé: "
  const ColumnsSuffix := " colonnes."

  function ColumnsMessage(found: nat): string {
    ColumnsPrefix + NatToString(found) + ColumnsSuffix
  }

  const TooManyRowsPrefix := "Le fichier CSV ne peut pas contenir plus de 1000 lignes de données. Trouvé: "
  const TooManyRowsSuffix := " lignes de données."

  function TooManyRowsMessage(found: nat): string {
    TooManyRowsPrefix + NatToString(found) + TooManyRowsSuffix
  }

  /** The number of `;`-separated pieces of the trimmed first line. */
  function HeaderColumns(firstLine: string): nat {
    |Split(Trim(firstLine), ';')|
  }

  /** The shape of an opened file that the after-hook lets through. */
  predicate WellShapedLines(lines: seq<string>) {
    |lines| >= 1 && lines[0] != "0"
    && HeaderColumns(lines[0]) == ExpectedColumns
    && 1 <= |lines| - 1 <= MaxDataRows
  }

  predicate WellShaped(u: Upload) {
    u.readable && WellShapedLines(Lines(u))
  }

  /**
    The checks the after-hook makes on the lines of an opened file, in order, the first that
    fails deciding the message: a truthy first line, 4 columns, at most 1000 then at least 1 data line.
  */
  function ShapeError(lines: seq<string>): (r: Option<string>)
    ensures r.None? <==> WellShapedLines(lines)
  {
    if |lines| == 0 || lines[0] == "0" then Some(EmptyFileMessage)
    else if HeaderColumns(lines[0]) != ExpectedColumns then Some(ColumnsMessage(HeaderColumns(lines[0])))
    else RowCountError(|lines| - 1)
  }

  /** The checks on the number of lines after the header: at most 1000, then at least 1. */
  function RowCountError(dataRows: nat): (r: Option<string>)
    ensures r.None? <==> 1 <= dataRows <= MaxDataRows
  {
    if dataRows > MaxDataRows then Some(TooManyRowsMessage(dataRows))
    else if dataRows < 1 then Some(TooFewRowsMessage)
    else None
  }

  /** Whether the request holds a successfully uploaded file under `csv_file` (hasFile). */
  predicate HasFile(request: Option<Upload>) {
    request.Some? && request.value.uploadOk
  }

  /**
    The one message the after-hook adds, if any: it runs only when an uploaded file is present,
    and first needs to open it.
  */
  function AfterHookError(request: Option<Upload>): (r: Option<string>)
    ensures r.None? <==> !HasFile(request) || WellShaped(request.value)
  {
    if !HasFile(request) then None
    else if !request.value.readable then Some(CannotReadMessage)
    else ShapeError(Lines(request.value))
  }

  function AsList(e: Option<string>): seq<string> {
    if e.Some? then [e.value] else []
  }

  /** The validator's message bag for the `csv_file` field. */
  class ErrorBag {
    var messages: seq<string>

    constructor ()
      ensures messages == []
    {
      messages := [];
    }

    method Add(message: string)
      modifies this
      ensures messages == old(messages) + [message]
    {
      messages := messages + [message];
    }
  }

  /** The after-hook: it opens the uploaded file, if there is one, and checks its shape. */
  method AfterHook(request: Option<Upload>, bag: ErrorBag)
    modifies bag
    ensures bag.messages == old(bag.messages) + AsList(AfterHookError(request))
  {
    if HasFile(request) {
      var file := request.value;
      if !file.readable {
        bag.Add(CannotReadMessage);
        return;
      }
      CheckShape(Lines(file), bag);
    }
  }

  /** The after-hook's checks on an opened handle: it reads the first line, then counts the rest one by one. */
  method CheckShape(handle: seq<string>, bag: ErrorBag)
    modifies bag
    ensures bag.messages == old(bag.messages) + AsList(ShapeError(handle))
  {
    if |handle| == 0 || handle[0] == "0" {
      assert ShapeError(handle) == Some(EmptyFileMessage);
      bag.Add(EmptyFileMessage);
      return;
    }
    var columns := Split(Trim(handle[0]), ';');
    assert |columns| == HeaderColumns(handle[0]);
    if |columns| != ExpectedColumns {
      assert ShapeError(handle) == Some(ColumnsMessage(|columns|));
      bag.Add(ColumnsMessage(|columns|));
      return;
    }
    assert ShapeError(handle) == RowCountError(|handle| - 1);
    var lineCount := 1;
    while lineCount < |handle|
      invariant 1 <= lineCount <= |handle|
      invariant bag.messages == old(bag.messages)
    {
      var line := handle[lineCount];
      lineCount := lineCount + 1;
    }
    var dataRows := lineCount - 1;
    assert dataRows == |handle| - 1;
    if dataRows > MaxDataRows {
      assert RowCountError(dataRows) == Some(TooManyRowsMessage(dataRows));
      bag.Add(TooManyRowsMessage(dataRows));
      return;
    }
    if dataRows < 1 {
      assert RowCountError(dataRows) == Some(TooFewRowsMessage);
      bag.Add(TooFewRowsMessage);
      return;
    }
    assert RowCountError(dataRows) == None;
  }

  /** Every message the request's validation records for `csv_file`: the rules' first, then the after-hook's. */
  method Validate(request: Option<Upload>) returns (errors: seq<string>)
    ensures errors == RuleErrors(request) + AsList(AfterHookError(request))
    ensures errors == [] <==> request.Some? && RuleErrors(request) == [] && WellShaped(request.value)
  {
    var bag := new ErrorBag();
    var ruleMessages := RuleErrors(request);
    var i := 0;
    while i < |ruleMessages|
      invariant 0 <= i <= |ruleMessages|
      invariant bag.messages == ruleMessages[..i]
    {
      bag.Add(ruleMessages[i]);
      i := i + 1;
    }
    assert ruleMessages[..i] == ruleMessages;
    AfterHook(request, bag);
    errors := bag.messages;
    assert errors == [] <==> ruleMessages == [] && AfterHookError(request).None?;
  }

  // ---------------------------------------------------------------------------
  // Properties of the after-hook

  /** An uploaded file passes the after-hook exactly when it opens, has a 4-column header and 1 to 1000 data lines. */
  lemma PassingFileShape(u: Upload)
    requires u.uploadOk
    ensures AfterHookError(Some(u)).None? <==>
      u.readable && |Lines(u)| >= 1 && Lines(u)[0] != "0"
      && HeaderColumns(Lines(u)[0]) == 4 && 1 <= |Lines(u)| - 1 <= 1000
  {
  }

  /** An empty file, or one holding only the text "0", gets the empty-file message and nothing else is checked. */
  lemma FalsyFirstLine(u: Upload)
    requires u.uploadOk && u.readable && (u.content == "" || u.content == "0")
    ensures AfterHookError(Some(u)) == Some(EmptyFileMessage)
  {
    if u.content == "0" {
      assert LineLength(u.content) == 1;
      ChunksUnfold(u.content);
      assert u.content[..1] == "0" && u.content[1..] == "";
      assert Chunks(u.content[1..]) == [];
      assert Lines(u) == ["0"];
    }
  }

  /** The column check comes before any line counting: a bad header is reported whatever the length. */
  lemma ColumnsCheckedFirst(u: Upload)
    requires u.uploadOk && u.readable && |Lines(u)| >= 1 && Lines(u)[0] != "0"
    requires HeaderColumns(Lines(u)[0]) != 4
    ensures AfterHookError(Some(u)) == Some(ColumnsMessage(HeaderColumns(Lines(u)[0])))
  {
  }

  /**
    The data-line count the hook checks is every line after the first, blank ones included:
    one per line feed, plus one for an unterminated last line, less the header.
  */
  lemma {:induction false} DataLineCount(u: Upload)
    requires u.content != []
    ensures |Lines(u)| - 1 == Occurrences(u.content, '\n') + (if u.content[|u.content| - 1] != '\n' then 1 else 0) - 1
  {
    ChunksCount(u.content);
  }

  /** With a good header, too many lines are reported with their count, before the minimum is checked. */
  lemma TooManyLinesReported(u: Upload)
    requires u.uploadOk && u.readable && |Lines(u)| >= 1 && Lines(u)[0] != "0"
    requires HeaderColumns(Lines(u)[0]) == 4 && |Lines(u)| - 1 > 1000
    ensures AfterHookError(Some(u)) == Some(TooManyRowsMessage(|Lines(u)| - 1))
  {
  }

  /** With a good header and nothing after it, the missing data line is reported. */
  lemma TooFewLinesReported(u: Upload)
    requires u.uploadOk && u.readable && |Lines(u)| == 1 && Lines(u)[0] != "0"
    requires HeaderColumns(Lines(u)[0]) == 4
    ensures AfterHookError(Some(u)) == Some(TooFewRowsMessage)
  {
  }

  /** The column message names the count it found: different counts give different messages. */
  lemma {:induction false} ColumnsMessageNamesCount(m: nat, n: nat)
    requires ColumnsMessage(m) == ColumnsMessage(n)
    ensures m == n
  {
    var prefix, suffix := ColumnsPrefix, ColumnsSuffix;
    assert ColumnsMessage(m)[|prefix|..|ColumnsMessage(m)| - |suffix|] == NatToString(m);
    assert ColumnsMessage(n)[|prefix|..|ColumnsMessage(n)| - |suffix|] == NatToString(n);
    NatToStringInjective(m, n);
  }

  /** The row-limit message names the count it found: different counts give different messages. */
  lemma {:induction false} TooManyRowsMessageNamesCount(m: nat, n: nat)
    requires TooManyRowsMessage(m) == TooManyRowsMessage(n)
    ensures m == n
  {
    var prefix, suffix := TooManyRowsPrefix, TooManyRowsSuffix;
    assert TooManyRowsMessage(m)[|prefix|..|TooManyRowsMessage(m)| - |suffix|] == NatToString(m);
    assert TooManyRowsMessage(n)[|prefix|..|TooManyRowsMessage(n)| - |suffix|] == NatToString(n);
    NatToStringInjective(m, n);
  }

  /** A header line's column count is one more than the number of `;` left after trimming. */
  lemma HeaderColumnsCountsSemicolons(firstLine: string)
    ensures HeaderColumns(firstLine) == Occurrences(Trim(firstLine), ';') + 1
  {
    SplitCount(Trim(firstLine), ';');
  }
}
