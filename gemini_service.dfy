/**
 * `analyzePaperWithGemini`: the paper text, cut to its first 30000 characters, is sent to
 * a fixed list of Gemini models in turn until one answers with a JSON object.
 *
 * The HTTP exchange is a parameter: `respond(model, prompt)` is what the request to `model`
 * comes back with, already reduced to the parts the code looks at. `JSON.parse` is the
 * parameter `parse`, which either yields an object or fails with a message.
 */
module GeminiService {
  import opened Wrappers
  import opened Text

  /** What one request comes back with. */
  datatype Reply =
    | Thrown(message: string)
      // the request, or reading the body, threw
    | NotOk(status: int, errorMessage: string, statusText: string)
      // a non-ok status; `errorMessage` is the body's `error.message`, `""` when absent
    | Answer(text: string)
      // an ok status; `text` is `candidates[0].content.parts[0].text`, `""` when absent

  /** The models tried, in order. */
  const Models: seq<string> := ["gemini-2.0-flash-exp", "gemini-1.5-flash", "gemini-1.5-pro", "gemini-pro"]

  /** The longest prefix of the paper that is sent. */
  const MaxChars := 30000

  const AbortMarker := "API Key Invalid"
  const FailurePrefix := "Failed to analyze paper with any model. Last error: "

  // ---------------------------------------------------------------------------
  // The prompt
  // ---------------------------------------------------------------------------

  /** `text.substring(0, 30000)` */
  function Truncate(text: string): (t: string)
    ensures |t| == if |text| < MaxChars then |text| else MaxChars
    ensures StartsWith(text, t)
  {
    if |text| <= MaxChars then text else text[..MaxChars]
  }

  /** The prompt: the fixed instructions, then the truncated paper, then the template's closing indentation. */
  function Prompt(instructions: string, text: string): string
  {
    instructions + Truncate(text) + "\n    "
  }

  /** The prompt carries the paper's first characters, never more than 30000 of them, right after the instructions. */
  lemma PromptEmbedsPrefix(instructions: string, text: string)
    ensures var p := Prompt(instructions, text);
      |p| <= |instructions| + MaxChars + 5 &&
      p[..|instructions|] == instructions &&
      (|text| <= MaxChars ==> p[|instructions|..|instructions| + |text|] == text)
  {
    var p := Prompt(instructions, text);
    assert p == instructions + (Truncate(text) + "\n    ");
  }

  // ---------------------------------------------------------------------------
  // JSON extraction
  // ---------------------------------------------------------------------------

  /** The position of the first `c` in `s`. */
  function IndexOf(s: string, c: char): (r: Option<nat>)
    ensures r.None? <==> c !in s
    ensures r.Some? ==> r.value < |s| && s[r.value] == c && forall k :: 0 <= k < r.value ==> s[k] != c
  {
    if s == [] then None
    else if s[0] == c then Some(0)
    else match IndexOf(s[1..], c)
      case None => None
      case Some(i) => Some(i + 1)
  }

  /** The position of the last `c` in `s`. */
  function LastIndexOf(s: string, c: char): (r: Option<nat>)
    ensures r.None? <==> c !in s
    ensures r.Some? ==> r.value < |s| && s[r.value] == c && forall k :: r.value < k < |s| ==> s[k] != c
  {
    if s == [] then None
    else if s[|s| - 1] == c then Some(|s| - 1)
    else
      var r := LastIndexOf(s[..|s| - 1], c);
      assert forall k :: 0 <= k < |s| - 1 ==> s[..|s| - 1][k] == s[k];
      r
  }

  /**
   * `responseText.match(/\{[\s\S]*\}/)[0]`: the match starts at the first `{` that has a `}`
   * after it, and, the star being greedy, ends at the last `}` of the text.
   */
  function ExtractJson(s: string): Option<string>
  {
    match IndexOf(s, '{')
    case None => None
    case Some(i) =>
      match LastIndexOf(s, '}')
      case None => None
      case Some(j) => if j < i then None else Some(s[i..j + 1])
  }

  /** There is a match exactly when some `{` has a `}` after it. */
  lemma ExtractJsonFinds(s: string)
    ensures ExtractJson(s).Some? <==> exists i, j :: 0 <= i < j < |s| && s[i] == '{' && s[j] == '}'
  {
    if exists i, j :: 0 <= i < j < |s| && s[i] == '{' && s[j] == '}' {
      var i, j :| 0 <= i < j < |s| && s[i] == '{' && s[j] == '}';
      assert s[i] in s && s[j] in s;
    }
  }

  /**
   * The match is the longest leftmost one: from the first `{` to the last `}`, so it may
   * hold several objects, or text between them, rather than one balanced object.
   */
  lemma ExtractJsonSpan(s: string)
    requires ExtractJson(s).Some?
    ensures exists i, j :: (0 <= i < j < |s| && ExtractJson(s).value == s[i..j + 1] &&
      s[i] == '{' && s[j] == '}' &&
      (forall k :: 0 <= k < i ==> s[k] != '{') && (forall k :: j < k < |s| ==> s[k] != '}'))
  {
    var i := IndexOf(s, '{').value;
    var j := LastIndexOf(s, '}').value;
    assert i != j;
    assert ExtractJson(s).value == s[i..j + 1];
  }

  // ---------------------------------------------------------------------------
  // The model loop
  // ---------------------------------------------------------------------------

  /** The result of one model's turn in the loop. */
  datatype Attempt<T> =
    | Parsed(value: T)      // `return JSON.parse(cleanText)`
    | Next(error: string)   // `lastError` is set and the next model is tried
    | Abort(error: string)  // the error is rethrown and no later model is tried

  /** A caught error ends the loop when its message mentions an invalid key, and otherwise is remembered. */
  function Caught<T>(message: string): (a: Attempt<T>)
    ensures a.Abort? <==> Contains(message, AbortMarker)
    ensures a.Next? || a.Abort?
    ensures a.error == message
  {
    if Contains(message, AbortMarker) then Abort(message) else Next(message)
  }

  /** The message a 400 throws carries the marker, so the `catch` rethrows it. */
  lemma InvalidKeyMessage(detail: string)
    ensures StartsWith("API Key Invalid: " + detail, "API Key Invalid: ")
    ensures Contains("API Key Invalid: " + detail, AbortMarker)
  {
    var message := "API Key Invalid: " + detail;
    PrefixStarts("API Key Invalid: ", detail);
    assert message[..|AbortMarker|] == AbortMarker;
    assert OccursAt(message, AbortMarker, 0);
  }

  /** The turn of `model` given its reply, as the body of the `for` loop decides it. */
  function Try<T>(model: string, reply: Reply, parse: string -> Result<T, string>): Attempt<T>
  {
    match reply
    case Thrown(message) => Caught(message)
    case NotOk(status, errorMessage, statusText) =>
      if status == 404 then Next("Model " + model + " not found")
      else if status == 400 then
        Caught("API Key Invalid: " + (if errorMessage != "" then errorMessage else "Check your API key in Settings"))
      else
        Caught("API Error " + IntToString(status) + ": " + (if errorMessage != "" then errorMessage else statusText))
    case Answer(text) =>
      if text == "" then Caught("Empty response from Gemini")
      else match ExtractJson(text)
        case None => Caught("No JSON object found in Gemini response")
        case Some(json) =>
          match parse(json)
          case Ok(value) => Parsed(value)
          case Err(message) => Caught(message)
  }

  /**
   * How one turn ends: a parsed object only from an ok answer whose JSON text parses; a 404
   * moves on with "Model … not found"; every other failure goes through the `catch`, which
   * rethrows it exactly when its message carries the marker (always, for a 400).
   */
  lemma TryCases<T>(model: string, reply: Reply, parse: string -> Result<T, string>)
    ensures var a := Try(model, reply, parse);
      a.Parsed? <==> reply.Answer? && reply.text != "" && ExtractJson(reply.text).Some? &&
                     parse(ExtractJson(reply.text).value).Ok?
    ensures var a := Try(model, reply, parse);
      a.Parsed? ==> Ok(a.value) == parse(ExtractJson(reply.text).value)
    ensures reply.NotOk? && reply.status == 404 ==> Try(model, reply, parse) == Next("Model " + model + " not found")
    ensures var a := Try(model, reply, parse);
      !a.Parsed? && !(reply.NotOk? && reply.status == 404) ==> (a.Abort? <==> Contains(a.error, AbortMarker))
    ensures reply.Thrown? ==> Try(model, reply, parse).error == reply.message
    ensures var a := Try(model, reply, parse);
      reply.NotOk? && reply.status == 400 ==> a.Abort? && StartsWith(a.error, "API Key Invalid: ")
    ensures reply.NotOk? && reply.status != 404 && reply.status != 400 ==>
      StartsWith(Try(model, reply, parse).error, "API Error ")
    ensures reply.Answer? && reply.text == "" ==> Try(model, reply, parse).error == "Empty response from Gemini"
    ensures reply.Answer? && reply.text != "" && ExtractJson(reply.text).None? ==>
      Try(model, reply, parse).error == "No JSON object found in Gemini response"
    ensures reply.Answer? && reply.text != "" && ExtractJson(reply.text).Some? &&
            parse(ExtractJson(reply.text).value).Err? ==>
      Try(model, reply, parse).error == parse(ExtractJson(reply.text).value).error
  {
    if reply.NotOk? && reply.status == 400 {
      InvalidKeyMessage(if reply.errorMessage != "" then reply.errorMessage else "Check your API key in Settings");
    }
  }

  /** What the call comes to: the parsed object, or the message of the error it throws. */
  datatype Outcome<T> = Analysis(value: T) | Failure(message: string)

  /** The loop over `models` with `lastError` remembered, as a recursive definition. */
  function Chain<T>(models: seq<string>, prompt: string, respond: (string, string) -> Reply,
                    parse: string -> Result<T, string>, lastError: string): Outcome<T>
  {
    if models == [] then Failure(FailurePrefix + lastError)
    else
      match Try(models[0], respond(models[0], prompt), parse)
      case Parsed(value) => Analysis(value)
      case Abort(error) => Failure(error)
      case Next(error) => Chain(models[1..], prompt, respond, parse, error)
  }

  /** The turn of the `k`-th model. */
  function TryModel<T>(k: nat, prompt: string, respond: (string, string) -> Reply,
                       parse: string -> Result<T, string>): Attempt<T>
    requires k < |Models|
  {
    Try(Models[k], respond(Models[k], prompt), parse)
  }

  /**
   * `analyzePaperWithGemini`. Without a key nothing is sent. Otherwise the models are tried
   * in order, each at most once (`tried`), until the first whose turn is not `Next`; the
   * outcome is that of the recursive definition.
   */
  method AnalyzePaperWithGemini<T>(text: string, apiKey: string, instructions: string,
                                   respond: (string, string) -> Reply, parse: string -> Result<T, string>)
    returns (outcome: Outcome<T>, tried: seq<string>)
    ensures apiKey == "" ==> outcome == Failure("API Key is required") && tried == []
    ensures apiKey != "" ==> outcome == Chain(Models, Prompt(instructions, text), respond, parse, "undefined")
    ensures |tried| <= |Models| && tried == Models[..|tried|]
    ensures apiKey != "" ==> tried != []
    ensures forall k :: 0 <= k < |tried| - 1 ==> TryModel(k, Prompt(instructions, text), respond, parse).Next?
    ensures |tried| < |Models| ==>
      tried == [] || !TryModel(|tried| - 1, Prompt(instructions, text), respond, parse).Next?
  {
    tried := [];
    if apiKey == "" {
      return Failure("API Key is required"), tried;
    }
    var prompt := Prompt(instructions, text);
    var lastError := "undefined";
    var i := 0;
    while i < |Models|
      invariant 0 <= i <= |Models|
      invariant tried == Models[..i]
      invariant forall k :: 0 <= k < i ==> TryModel(k, prompt, respond, parse).Next?
      invariant Chain(Models, prompt, respond, parse, "undefined") == Chain(Models[i..], prompt, respond, parse, lastError)
    {
      var model := Models[i];
      tried := tried + [model];
      var attempt := Try(model, respond(model, prompt), parse);
      assert Models[i..][1..] == Models[i + 1..];
      match attempt {
        case Parsed(value) =>
          return Analysis(value), tried;
        case Abort(error) =>
          return Failure(error), tried;
        case Next(error) =>
          lastError := error;
      }
      i := i + 1;
    }
    return Failure(FailurePrefix + lastError), tried;
  }

  // ---------------------------------------------------------------------------
  // Properties of the loop
  // ---------------------------------------------------------------------------

  /** A 404 moves on to the next model, remembering that the model was not found. */
  lemma NotFoundMovesOn<T>(models: seq<string>, prompt: string, respond: (string, string) -> Reply,
                           parse: string -> Result<T, string>, lastError: string)
    requires models != [] && respond(models[0], prompt).NotOk? && respond(models[0], prompt).status == 404
    ensures Chain(models, prompt, respond, parse, lastError) ==
            Chain(models[1..], prompt, respond, parse, "Model " + models[0] + " not found")
  {
  }

  /** A 400 ends the loop at once with an "API Key Invalid" error. */
  lemma BadRequestAborts<T>(models: seq<string>, prompt: string, respond: (string, string) -> Reply,
                            parse: string -> Result<T, string>, lastError: string)
    requires models != [] && respond(models[0], prompt).NotOk? && respond(models[0], prompt).status == 400
    ensures var o := Chain(models, prompt, respond, parse, lastError);
      o.Failure? && StartsWith(o.message, "API Key Invalid: ")
  {
    var reply := respond(models[0], prompt);
    var message := "API Key Invalid: " + (if reply.errorMessage != "" then reply.errorMessage else "Check your API key in Settings");
    assert message[..|AbortMarker|] == AbortMarker;
    assert OccursAt(message, AbortMarker, 0);
    assert message[..|"API Key Invalid: "|] == "API Key Invalid: ";
  }

  /** When every model moves on, the error names the last model's error. */
  lemma {:induction false} AllFailed<T>(models: seq<string>, prompt: string, respond: (string, string) -> Reply,
                                        parse: string -> Result<T, string>, lastError: string)
    requires models != []
    requires forall k :: 0 <= k < |models| ==> Try(models[k], respond(models[k], prompt), parse).Next?
    ensures Chain(models, prompt, respond, parse, lastError) ==
      Failure(FailurePrefix + Try(models[|models| - 1], respond(models[|models| - 1], prompt), parse).error)
    decreases |models|
  {
    assert Try(models[0], respond(models[0], prompt), parse).Next?;
    if |models| > 1 {
      var rest := models[1..];
      assert forall k :: 0 <= k < |rest| ==> rest[k] == models[k + 1];
      AllFailed(rest, prompt, respond, parse, Try(models[0], respond(models[0], prompt), parse).error);
    }
  }

  /** A successful call returns what `parse` made of the JSON text found in some model's answer. */
  lemma {:induction false} AnalysisIsParsed<T>(models: seq<string>, prompt: string, respond: (string, string) -> Reply,
                                               parse: string -> Result<T, string>, lastError: string)
    requires Chain(models, prompt, respond, parse, lastError).Analysis?
    ensures exists k, json :: (0 <= k < |models| && respond(models[k], prompt).Answer? &&
      ExtractJson(respond(models[k], prompt).text) == Some(json) &&
      parse(json) == Ok(Chain(models, prompt, respond, parse, lastError).value))
    decreases |models|
  {
    var a := Try(models[0], respond(models[0], prompt), parse);
    if a.Next? {
      AnalysisIsParsed(models[1..], prompt, respond, parse, a.error);
      var k, json :| 0 <= k < |models[1..]| && respond(models[1..][k], prompt).Answer? &&
        ExtractJson(respond(models[1..][k], prompt).text) == Some(json) &&
        parse(json) == Ok(Chain(models[1..], prompt, respond, parse, a.error).value);
      assert models[1..][k] == models[k + 1];
    } else {
      assert a.Parsed?;
      var json := ExtractJson(respond(models[0], prompt).text).value;
      assert 0 < |models|;
    }
  }
}
