/**
 * The novelty evaluator: a text, a PDF's metadata or a source file is put into an editor's
 * prompt and sent to Cerebras (two models in turn) and, failing that, to Gemini.
 *
 * The providers are parameters: `cerebras(model, prompt)` is what the chat-completions
 * request for `model` comes back with, and `gemini` is the text Gemini returns for the prompt
 * or the message of the error it throws. The keys are the values read from local storage, `""`
 * when absent.
 */
module NoveltyEvaluator {
  import opened Wrappers
  import opened Text
  import opened References

  /** The kind of input being evaluated. */
  datatype InputType = TextInput | PdfInput | CodeInput

  /** An error shown to the user: two translated messages, or a message of its own. */
  datatype ErrorText = ProvideContent | ConfigureApiKey | Message(text: string)

  /** What one Cerebras request comes back with. */
  datatype CerebrasReply =
    | Raised(message: string)    // the request, or reading the body, threw
    | Refused(status: int)       // a non-ok status
    | Completion(content: string)  // an ok status; `choices[0].message.content`, `""` when absent

  const CerebrasModels: seq<string> := ["llama-3.3-70b", "llama3.1-8b"]
  const GeminiModel := "gemini-1.5-flash"
  const Placeholder := "{CONTENT}"
  const NoEvaluation := "No evaluation returned from API. Please check your API keys."
  const FallbackError := "Failed to evaluate. Please try again."
  const UnauthorizedError := "Invalid Cerebras API key"
  const PdfReadError := "Failed to extract text from PDF. Please try pasting the text manually."

  // ---------------------------------------------------------------------------
  // Input
  // ---------------------------------------------------------------------------

  /** How `processFile` treats a file. */
  datatype FileKind = PdfFile | CodeFile | OtherFile

  /** A PDF by its type; otherwise code by a `text/` type or a `.py`, `.js` or `.java` name; otherwise nothing. */
  function Classify(file: FileInfo): (kind: FileKind)
    ensures kind == PdfFile <==> file.mimeType == PdfMimeType
    ensures kind == CodeFile <==> (file.mimeType != PdfMimeType &&
      (StartsWith(file.mimeType, "text/") || EndsWith(file.name, ".py") ||
       EndsWith(file.name, ".js") || EndsWith(file.name, ".java")))
  {
    if file.mimeType == PdfMimeType then PdfFile
    else if StartsWith(file.mimeType, "text/") || EndsWith(file.name, ".py") ||
            EndsWith(file.name, ".js") || EndsWith(file.name, ".java") then CodeFile
    else OtherFile
  }

  /** The text that stands for a PDF: its title, authors, year and abstract, each with a default. */
  function PdfSummary(m: PdfMetadata): (s: string)
    ensures StartsWith(s, "Title: ")
  {
    var authors := Join(m.authors, ", ");
    var rest := (if m.title != "" then m.title else "Unknown") +
      "\nAuthors: " + (if authors != "" then authors else "Unknown") +
      "\nYear: " + (if m.year != "" then m.year else "Unknown") +
      "\nAbstract: " + (if m.abstractText != "" then m.abstractText else "No abstract available");
    PrefixStarts("Title: ", rest);
    "Title: " + rest
  }

  /** A PDF's summary is never blank, so it always passes the emptiness check of the evaluation. */
  lemma PdfSummaryNotBlank(m: PdfMetadata)
    ensures !Blank(PdfSummary(m))
  {
    var s := PdfSummary(m);
    assert s[0] == 'T';
  }

  /** The prompt: the template with its first `{CONTENT}` replaced by the input. */
  function EvaluationPrompt(template: string, content: string): string
  {
    ReplaceFirst(template, Placeholder, content)
  }

  /** The input lands where the first placeholder was; later placeholders stay. */
  lemma PromptReplacesFirstPlaceholder(template: string, content: string, i: nat)
    requires OccursAt(template, Placeholder, i)
    requires forall j :: 0 <= j < i ==> !OccursAt(template, Placeholder, j)
    ensures EvaluationPrompt(template, content) == template[..i] + content + template[i + |Placeholder|..]
  {
    ReplaceFirstAt(template, Placeholder, content, i);
  }

  // ---------------------------------------------------------------------------
  // The provider chain
  // ---------------------------------------------------------------------------

  /** The result of one Cerebras model's turn. */
  datatype Turn = Got(text: string) | Skip | Stop(message: string)

  /**
   * An ok reply with content ends the loop (`break`); a 401 throws "Invalid Cerebras API key",
   * which is rethrown; any other caught error is rethrown when it mentions "Invalid"; all else
   * moves on to the next model.
   */
  function CerebrasTurn(reply: CerebrasReply): (t: Turn)
    ensures t.Got? <==> reply.Completion? && reply.content != ""
    ensures t.Got? ==> t.text == reply.content && t.text != ""
    ensures t.Stop? <==> (reply.Refused? && reply.status == 401) || (reply.Raised? && Contains(reply.message, "Invalid"))
    ensures t.Stop? && reply.Refused? ==> t.message == UnauthorizedError
    ensures t.Stop? && reply.Raised? ==> t.message == reply.message
  {
    match reply
    case Completion(content) => if content != "" then Got(content) else Skip
    case Refused(status) => if status == 401 then Stop(UnauthorizedError) else Skip
    case Raised(message) => if Contains(message, "Invalid") then Stop(message) else Skip
  }

  /** The Cerebras loop over `models`: the first turn that is not `Skip`, or `Skip` when every model moved on. */
  function CerebrasChain(models: seq<string>, prompt: string, cerebras: (string, string) -> CerebrasReply): (t: Turn)
    ensures t.Got? ==> t.text != ""
  {
    if models == [] then Skip
    else match CerebrasTurn(cerebras(models[0], prompt))
      case Skip => CerebrasChain(models[1..], prompt, cerebras)
      case other => other
  }

  /**
   * The error a 401 throws mentions "Invalid" itself, so the `catch` rethrows it: a 401 and an
   * error raised with that message end the loop alike.
   */
  lemma UnauthorizedIsRethrown()
    ensures Contains(UnauthorizedError, "Invalid")
    ensures CerebrasTurn(Refused(401)) == CerebrasTurn(Raised(UnauthorizedError))
  {
    assert OccursAt(UnauthorizedError, "Invalid", 0);
  }

  /** A model that moves on hands the loop to the next one, which is asked too. */
  lemma SkipMovesOn(models: seq<string>, prompt: string, cerebras: (string, string) -> CerebrasReply)
    requires models != [] && CerebrasTurn(cerebras(models[0], prompt)).Skip?
    ensures CerebrasChain(models, prompt, cerebras) == CerebrasChain(models[1..], prompt, cerebras)
    ensures CerebrasTried(models, prompt, cerebras) == [models[0]] + CerebrasTried(models[1..], prompt, cerebras)
  {
  }

  /**
   * The loop asks the models in order up to the first whose turn is not `Skip`, and its result
   * is that turn; it comes to `Skip`, having asked every model, exactly when every model moves on.
   */
  lemma {:induction false} ChainIsFirstDecidingTurn(models: seq<string>, prompt: string,
                                                    cerebras: (string, string) -> CerebrasReply)
    ensures var tried := CerebrasTried(models, prompt, cerebras);
      |tried| <= |models| && tried == models[..|tried|] &&
      (forall j :: 0 <= j < |tried| - 1 ==> CerebrasTurn(cerebras(models[j], prompt)).Skip?)
    ensures CerebrasChain(models, prompt, cerebras).Skip? <==>
      forall j :: 0 <= j < |models| ==> CerebrasTurn(cerebras(models[j], prompt)).Skip?
    ensures CerebrasChain(models, prompt, cerebras).Skip? ==> CerebrasTried(models, prompt, cerebras) == models
    ensures !CerebrasChain(models, prompt, cerebras).Skip? ==>
      var tried := CerebrasTried(models, prompt, cerebras);
      tried != [] && CerebrasChain(models, prompt, cerebras) == CerebrasTurn(cerebras(models[|tried| - 1], prompt))
    decreases |models|
  {
    if models != [] {
      var rest := models[1..];
      ChainIsFirstDecidingTurn(rest, prompt, cerebras);
      assert forall j :: 0 <= j < |rest| ==> rest[j] == models[j + 1];
      if CerebrasTurn(cerebras(models[0], prompt)).Skip? {
        var tried := CerebrasTried(models, prompt, cerebras);
        assert tried == [models[0]] + CerebrasTried(rest, prompt, cerebras);
        assert tried == models[..|tried|];
      } else {
        assert CerebrasTried(models, prompt, cerebras) == models[..1];
      }
    }
  }

  /** The models the Cerebras loop sends requests to: up to and including the first that does not move on. */
  function CerebrasTried(models: seq<string>, prompt: string, cerebras: (string, string) -> CerebrasReply): seq<string>
  {
    if models == [] then []
    else if CerebrasTurn(cerebras(models[0], prompt)).Skip? then [models[0]] + CerebrasTried(models[1..], prompt, cerebras)
    else [models[0]]
  }

  /** What an evaluation comes to. */
  datatype Evaluation =
    | Rejected(error: ErrorText)  // a check failed before anything was sent
    | Evaluated(text: string)     // the evaluation text
    | Errored(message: string)    // the message of the error thrown

  /** Whether Cerebras is asked: its key is not blank. */
  predicate UsesCerebras(cerebrasKey: string)
  {
    !Blank(cerebrasKey)
  }

  /** The Cerebras result, `Skip` when it is not asked. */
  function CerebrasResult(cerebrasKey: string, prompt: string, cerebras: (string, string) -> CerebrasReply): Turn
  {
    if UsesCerebras(cerebrasKey) then CerebrasChain(CerebrasModels, prompt, cerebras) else Skip
  }

  /** Whether Gemini is asked: Cerebras gave no text and did not abort, and the Gemini key is not blank. */
  predicate UsesGemini(cerebrasKey: string, geminiKey: string, prompt: string, cerebras: (string, string) -> CerebrasReply)
  {
    CerebrasResult(cerebrasKey, prompt, cerebras).Skip? && !Blank(geminiKey)
  }

  /** The decision of `handleEvaluate`, as a function of the input, the keys and the providers' replies. */
  function Evaluate(content: string, cerebrasKey: string, geminiKey: string, prompt: string,
                    cerebras: (string, string) -> CerebrasReply, gemini: Result<string, string>): Evaluation
  {
    if Blank(content) then Rejected(ProvideContent)
    else if cerebrasKey == "" && geminiKey == "" then Rejected(ConfigureApiKey)
    else match CerebrasResult(cerebrasKey, prompt, cerebras)
      case Got(text) => Evaluated(text)
      case Stop(message) => Errored(message)
      case Skip =>
        if Blank(geminiKey) then Errored(NoEvaluation)
        else match gemini
          case Err(message) => Errored("Gemini API error: " + message)
          case Ok(text) => if text != "" then Evaluated(text) else Errored(NoEvaluation)
  }

  /** The requests an evaluation sends, by model, in order. */
  function Requests(content: string, cerebrasKey: string, geminiKey: string, prompt: string,
                    cerebras: (string, string) -> CerebrasReply): seq<string>
  {
    if Blank(content) || (cerebrasKey == "" && geminiKey == "") then []
    else
      (if UsesCerebras(cerebrasKey) then CerebrasTried(CerebrasModels, prompt, cerebras) else []) +
      (if UsesGemini(cerebrasKey, geminiKey, prompt, cerebras) then [GeminiModel] else [])
  }

  // ---------------------------------------------------------------------------
  // Properties of the chain
  // ---------------------------------------------------------------------------

  /** An evaluation is refused exactly for blank content or when no key is set at all, and then nothing is sent. */
  lemma RejectedExactly(content: string, cerebrasKey: string, geminiKey: string, prompt: string,
                        cerebras: (string, string) -> CerebrasReply, gemini: Result<string, string>)
    ensures Evaluate(content, cerebrasKey, geminiKey, prompt, cerebras, gemini).Rejected? <==>
      Blank(content) || (cerebrasKey == "" && geminiKey == "")
    ensures Evaluate(content, cerebrasKey, geminiKey, prompt, cerebras, gemini).Rejected? ==>
      Requests(content, cerebrasKey, geminiKey, prompt, cerebras) == []
  {
    if !Blank(content) && !(cerebrasKey == "" && geminiKey == "") {
      var c := CerebrasResult(cerebrasKey, prompt, cerebras);
      assert c.Got? || c.Stop? || c.Skip?;
    }
  }

  /** A 401 from the first Cerebras model ends the evaluation: the second model and Gemini are not asked. */
  lemma UnauthorizedAborts(content: string, cerebrasKey: string, geminiKey: string, prompt: string,
                           cerebras: (string, string) -> CerebrasReply, gemini: Result<string, string>)
    requires !Blank(content) && UsesCerebras(cerebrasKey)
    requires cerebras(CerebrasModels[0], prompt) == Refused(401)
    ensures Evaluate(content, cerebrasKey, geminiKey, prompt, cerebras, gemini) == Errored(UnauthorizedError)
    ensures Requests(content, cerebrasKey, geminiKey, prompt, cerebras) == [CerebrasModels[0]]
  {
    assert cerebrasKey != "";
    var stop := Stop(UnauthorizedError);
    assert CerebrasTurn(cerebras(CerebrasModels[0], prompt)) == stop;
    assert CerebrasChain(CerebrasModels, prompt, cerebras) == stop;
    assert CerebrasResult(cerebrasKey, prompt, cerebras) == stop;
    assert CerebrasTried(CerebrasModels, prompt, cerebras) == [CerebrasModels[0]];
    assert !UsesGemini(cerebrasKey, geminiKey, prompt, cerebras);
  }

  /** The models the Cerebras loop asks are Cerebras models, so Gemini is never among them. */
  lemma CerebrasTriedExcludesGemini(prompt: string, cerebras: (string, string) -> CerebrasReply)
    ensures GeminiModel !in CerebrasTried(CerebrasModels, prompt, cerebras)
  {
    ChainIsFirstDecidingTurn(CerebrasModels, prompt, cerebras);
    var tried := CerebrasTried(CerebrasModels, prompt, cerebras);
    assert forall j :: 0 <= j < |tried| ==> tried[j] == CerebrasModels[j];
  }

  /**
   * When the Cerebras loop aborts, on a 401 or on an error mentioning "Invalid" from either
   * model, the evaluation fails with that error and Gemini is not asked.
   */
  lemma StopAborts(content: string, cerebrasKey: string, geminiKey: string, prompt: string,
                   cerebras: (string, string) -> CerebrasReply, gemini: Result<string, string>)
    requires !Blank(content) && CerebrasResult(cerebrasKey, prompt, cerebras).Stop?
    ensures Evaluate(content, cerebrasKey, geminiKey, prompt, cerebras, gemini) ==
            Errored(CerebrasResult(cerebrasKey, prompt, cerebras).message)
    ensures Requests(content, cerebrasKey, geminiKey, prompt, cerebras) == CerebrasTried(CerebrasModels, prompt, cerebras)
    ensures GeminiModel !in Requests(content, cerebrasKey, geminiKey, prompt, cerebras)
  {
    assert UsesCerebras(cerebrasKey) && cerebrasKey != "";
    assert !UsesGemini(cerebrasKey, geminiKey, prompt, cerebras);
    CerebrasTriedExcludesGemini(prompt, cerebras);
  }

  /** When a Cerebras model returns content, that content is the evaluation and Gemini is not asked. */
  lemma CerebrasTextIsFinal(content: string, cerebrasKey: string, geminiKey: string, prompt: string,
                            cerebras: (string, string) -> CerebrasReply, gemini: Result<string, string>)
    requires !Blank(content) && CerebrasResult(cerebrasKey, prompt, cerebras).Got?
    ensures Evaluate(content, cerebrasKey, geminiKey, prompt, cerebras, gemini) ==
            Evaluated(CerebrasResult(cerebrasKey, prompt, cerebras).text)
    ensures Requests(content, cerebrasKey, geminiKey, prompt, cerebras) == CerebrasTried(CerebrasModels, prompt, cerebras)
    ensures GeminiModel !in Requests(content, cerebrasKey, geminiKey, prompt, cerebras)
  {
    assert UsesCerebras(cerebrasKey) && cerebrasKey != "";
    assert !UsesGemini(cerebrasKey, geminiKey, prompt, cerebras);
    CerebrasTriedExcludesGemini(prompt, cerebras);
  }

  /**
   * When the first model moves on (a refusal other than 401, an error not mentioning "Invalid",
   * or empty content), the second model is asked and its turn decides: its content is the
   * evaluation, or its abort is the error, and Gemini is not asked.
   */
  lemma SecondModelDecides(content: string, cerebrasKey: string, geminiKey: string, prompt: string,
                           cerebras: (string, string) -> CerebrasReply, gemini: Result<string, string>)
    requires !Blank(content) && UsesCerebras(cerebrasKey)
    requires CerebrasTurn(cerebras(CerebrasModels[0], prompt)).Skip?
    requires !CerebrasTurn(cerebras(CerebrasModels[1], prompt)).Skip?
    ensures Requests(content, cerebrasKey, geminiKey, prompt, cerebras) == CerebrasModels
    ensures var t := CerebrasTurn(cerebras(CerebrasModels[1], prompt));
      Evaluate(content, cerebrasKey, geminiKey, prompt, cerebras, gemini) ==
        (if t.Got? then Evaluated(t.text) else Errored(t.message))
  {
    assert cerebrasKey != "";
    var t := CerebrasTurn(cerebras(CerebrasModels[1], prompt));
    SkipMovesOn(CerebrasModels, prompt, cerebras);
    var rest := CerebrasModels[1..];
    assert rest[0] == CerebrasModels[1];
    assert CerebrasChain(rest, prompt, cerebras) == t;
    assert CerebrasTried(rest, prompt, cerebras) == [CerebrasModels[1]];
    assert CerebrasResult(cerebrasKey, prompt, cerebras) == t;
    assert !UsesGemini(cerebrasKey, geminiKey, prompt, cerebras);
  }

  /**
   * When every Cerebras model moves on, both are asked, and then Gemini is asked exactly when
   * its key is not blank.
   */
  lemma EveryModelMovesOn(content: string, cerebrasKey: string, geminiKey: string, prompt: string,
                          cerebras: (string, string) -> CerebrasReply, gemini: Result<string, string>)
    requires !Blank(content) && UsesCerebras(cerebrasKey)
    requires forall j :: 0 <= j < |CerebrasModels| ==> CerebrasTurn(cerebras(CerebrasModels[j], prompt)).Skip?
    ensures UsesGemini(cerebrasKey, geminiKey, prompt, cerebras) <==> !Blank(geminiKey)
    ensures Requests(content, cerebrasKey, geminiKey, prompt, cerebras) ==
            CerebrasModels + (if Blank(geminiKey) then [] else [GeminiModel])
    ensures Blank(geminiKey) ==> Evaluate(content, cerebrasKey, geminiKey, prompt, cerebras, gemini) == Errored(NoEvaluation)
  {
    assert cerebrasKey != "";
    ChainIsFirstDecidingTurn(CerebrasModels, prompt, cerebras);
    assert CerebrasResult(cerebrasKey, prompt, cerebras) == Skip;
  }

  /** An ok reply with content from the first Cerebras model is the evaluation, and nothing else is asked. */
  lemma FirstCompletionWins(content: string, cerebrasKey: string, geminiKey: string, prompt: string,
                            cerebras: (string, string) -> CerebrasReply, gemini: Result<string, string>)
    requires !Blank(content) && UsesCerebras(cerebrasKey)
    requires cerebras(CerebrasModels[0], prompt).Completion? && cerebras(CerebrasModels[0], prompt).content != ""
    ensures Evaluate(content, cerebrasKey, geminiKey, prompt, cerebras, gemini) ==
            Evaluated(cerebras(CerebrasModels[0], prompt).content)
    ensures Requests(content, cerebrasKey, geminiKey, prompt, cerebras) == [CerebrasModels[0]]
  {
    assert cerebrasKey != "";
    var got := Got(cerebras(CerebrasModels[0], prompt).content);
    assert CerebrasTurn(cerebras(CerebrasModels[0], prompt)) == got;
    assert CerebrasChain(CerebrasModels, prompt, cerebras) == got;
    assert CerebrasResult(cerebrasKey, prompt, cerebras) == got;
    assert CerebrasTried(CerebrasModels, prompt, cerebras) == [CerebrasModels[0]];
    assert !UsesGemini(cerebrasKey, geminiKey, prompt, cerebras);
  }

  /** A Gemini failure is final: its message, prefixed, is the error. */
  lemma GeminiFailureIsFinal(content: string, cerebrasKey: string, geminiKey: string, prompt: string,
                             cerebras: (string, string) -> CerebrasReply, gemini: Result<string, string>)
    requires !Blank(content) && UsesGemini(cerebrasKey, geminiKey, prompt, cerebras) && gemini.Err?
    ensures Evaluate(content, cerebrasKey, geminiKey, prompt, cerebras, gemini) ==
            Errored("Gemini API error: " + gemini.error)
  {
    assert !Blank(geminiKey);
  }

  /** A key made only of spaces passes the key check but asks no provider, so the evaluation ends with no text. */
  lemma BlankKeysAskNobody(content: string, cerebrasKey: string, geminiKey: string, prompt: string,
                           cerebras: (string, string) -> CerebrasReply, gemini: Result<string, string>)
    requires !Blank(content) && (cerebrasKey != "" || geminiKey != "")
    requires Blank(cerebrasKey) && Blank(geminiKey)
    ensures Evaluate(content, cerebrasKey, geminiKey, prompt, cerebras, gemini) == Errored(NoEvaluation)
    ensures Requests(content, cerebrasKey, geminiKey, prompt, cerebras) == []
  {
    assert !UsesCerebras(cerebrasKey);
    assert CerebrasResult(cerebrasKey, prompt, cerebras) == Skip;
  }

  /** An evaluation that succeeds carries non-empty text. */
  lemma EvaluatedIsNotEmpty(content: string, cerebrasKey: string, geminiKey: string, prompt: string,
                            cerebras: (string, string) -> CerebrasReply, gemini: Result<string, string>)
    requires Evaluate(content, cerebrasKey, geminiKey, prompt, cerebras, gemini).Evaluated?
    ensures Evaluate(content, cerebrasKey, geminiKey, prompt, cerebras, gemini).text != ""
  {
  }

  // ---------------------------------------------------------------------------
  // The component's state
  // ---------------------------------------------------------------------------

  /** The state of the evaluator panel. */
  class Evaluator {
    var inputType: InputType
    var inputContent: string
    var pdfFile: Option<FileInfo>
    var isEvaluating: bool
    var evaluation: Option<string>
    var error: Option<ErrorText>

    constructor ()
      ensures inputType == TextInput && inputContent == "" && pdfFile == None
      ensures !isEvaluating && evaluation == None && error == None
    {
      inputType := TextInput;
      inputContent := "";
      pdfFile := None;
      isEvaluating := false;
      evaluation := None;
      error := None;
    }

    /**
     * `processFile`: a PDF is kept and its metadata summary becomes the input (`metadata` is
     * `None` when reading it threw); a text or source file becomes the input (`fileText`);
     * any other file changes nothing.
     */
    method ProcessFile(file: FileInfo, metadata: Option<PdfMetadata>, fileText: string)
      modifies this
      ensures Classify(file) == PdfFile ==>
        pdfFile == Some(file) && inputType == PdfInput && evaluation == old(evaluation) &&
        isEvaluating == old(isEvaluating) &&
        (metadata.Some? ==> inputContent == PdfSummary(metadata.value) && error == old(error)) &&
        (metadata.None? ==> inputContent == old(inputContent) && error == Some(Message(PdfReadError)))
      ensures Classify(file) == CodeFile ==>
        inputType == CodeInput && inputContent == fileText && pdfFile == old(pdfFile) &&
        evaluation == old(evaluation) && error == old(error) && isEvaluating == old(isEvaluating)
      ensures Classify(file) == OtherFile ==>
        inputType == old(inputType) && inputContent == old(inputContent) && pdfFile == old(pdfFile) &&
        evaluation == old(evaluation) && error == old(error) && isEvaluating == old(isEvaluating)
    {
      var kind := Classify(file);
      if kind == PdfFile {
        pdfFile := Some(file);
        inputType := PdfInput;
        match metadata {
          case Some(m) =>
            inputContent := PdfSummary(m);
          case None =>
            error := Some(Message(PdfReadError));
        }
      } else if kind == CodeFile {
        inputType := CodeInput;
        inputContent := fileText;
      }
    }

    /** `handleClear`: the input, the file, the evaluation and the error are cleared; the input type stays. */
    method HandleClear()
      modifies this
      ensures inputContent == "" && pdfFile == None && evaluation == None && error == None
      ensures inputType == old(inputType) && isEvaluating == old(isEvaluating)
    {
      inputContent := "";
      pdfFile := None;
      evaluation := None;
      error := None;
    }

    /**
     * `handleEvaluate`, once its awaits have completed. A refused evaluation only sets the
     * error. Otherwise the Cerebras models are tried in turn, then Gemini if needed; the
     * evaluation or the error is set and `isEvaluating` is back to false. `requests` are the
     * models asked, in order.
     */
    method HandleEvaluate(cerebrasKey: string, geminiKey: string, template: string,
                          cerebras: (string, string) -> CerebrasReply, gemini: Result<string, string>)
      returns (requests: seq<string>)
      modifies this
      ensures var prompt := EvaluationPrompt(template, old(inputContent));
        requests == Requests(old(inputContent), cerebrasKey, geminiKey, prompt, cerebras) &&
        match Evaluate(old(inputContent), cerebrasKey, geminiKey, prompt, cerebras, gemini)
        case Rejected(e) =>
          error == Some(e) && evaluation == old(evaluation) && isEvaluating == old(isEvaluating)
        case Evaluated(text) =>
          evaluation == Some(text) && error == None && !isEvaluating
        case Errored(message) =>
          evaluation == None && !isEvaluating &&
          error == Some(Message(if message != "" then message else FallbackError))
      ensures inputType == old(inputType) && inputContent == old(inputContent) && pdfFile == old(pdfFile)
    {
      requests := [];
      var content := inputContent;
      if Blank(content) {
        error := Some(ProvideContent);
        return;
      }
      if cerebrasKey == "" && geminiKey == "" {
        error := Some(ConfigureApiKey);
        return;
      }
      isEvaluating := true;
      error := None;
      evaluation := None;
      var prompt := EvaluationPrompt(template, content);
      var evaluationText, failure;
      evaluationText, failure, requests := AskProviders(content, cerebrasKey, geminiKey, prompt, cerebras, gemini);
      match failure {
        case None =>
          evaluation := Some(evaluationText);
        case Some(message) =>
          error := Some(Message(if message != "" then message else FallbackError));
      }
      isEvaluating := false;
    }
  }

  /**
   * The `try` block of `handleEvaluate`: the Cerebras loop when its key is not blank, then
   * Gemini when no text came back and its key is not blank; `failure` is the message of the
   * error thrown, and no text at all throws "No evaluation returned…".
   */
  method AskProviders(content: string, cerebrasKey: string, geminiKey: string, prompt: string,
                      cerebras: (string, string) -> CerebrasReply, gemini: Result<string, string>)
    returns (text: string, failure: Option<string>, requests: seq<string>)
    requires !Blank(content) && !(cerebrasKey == "" && geminiKey == "")
    ensures Evaluate(content, cerebrasKey, geminiKey, prompt, cerebras, gemini) ==
      (if failure.None? then Evaluated(text) else Errored(failure.value))
    ensures requests == Requests(content, cerebrasKey, geminiKey, prompt, cerebras)
  {
    text, failure, requests := "", None, [];
    ghost var turn := CerebrasResult(cerebrasKey, prompt, cerebras);
    if !Blank(cerebrasKey) {
      text, failure, requests := CerebrasLoop(prompt, cerebras);
    }
    assert turn.Got? ==> text == turn.text && failure.None?;
    assert turn.Stop? ==> failure == Some(turn.message);
    assert turn.Skip? ==> text == "" && failure.None?;
    if text == "" && failure.None? && !Blank(geminiKey) {
      requests := requests + [GeminiModel];
      match gemini {
        case Ok(t) => text := t;
        case Err(message) => failure := Some("Gemini API error: " + message);
      }
    }
    if failure.None? && text == "" {
      failure := Some(NoEvaluation);
    }
  }

  /**
   * The `for` loop over the Cerebras models: `text` is the first non-empty content, `failure`
   * the message of a rethrown error, and `tried` the models asked.
   */
  method CerebrasLoop(prompt: string, cerebras: (string, string) -> CerebrasReply)
    returns (text: string, failure: Option<string>, tried: seq<string>)
    ensures tried == CerebrasTried(CerebrasModels, prompt, cerebras)
    ensures match CerebrasChain(CerebrasModels, prompt, cerebras)
      case Got(t) => text == t && failure.None?
      case Stop(message) => failure == Some(message)
      case Skip => text == "" && failure.None?
  {
    text, failure, tried := "", None, [];
    var i := 0;
    while i < |CerebrasModels|
      invariant 0 <= i <= |CerebrasModels|
      invariant text == "" && failure.None?
      invariant CerebrasChain(CerebrasModels, prompt, cerebras) == CerebrasChain(CerebrasModels[i..], prompt, cerebras)
      invariant CerebrasTried(CerebrasModels, prompt, cerebras) == tried + CerebrasTried(CerebrasModels[i..], prompt, cerebras)
    {
      var model := CerebrasModels[i];
      tried := tried + [model];
      assert CerebrasModels[i..][1..] == CerebrasModels[i + 1..];
      match CerebrasTurn(cerebras(model, prompt)) {
        case Got(t) =>
          text := t;
          return;
        case Stop(message) =>
          failure := Some(message);
          return;
        case Skip =>
      }
      i := i + 1;
    }
  }
}
