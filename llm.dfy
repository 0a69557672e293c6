/**
 * The metadata extractor (app/services/llm_service.py): a service that is
 * unconfigured until `configure_dspy` runs, input checks in a fixed order,
 * one language-model call, the parse and validation of its reply, and the
 * rule that turns a failure into an "LLM API error".
 */
module Llm {
  import opened Results
  import opened Text

  /** A value as `json.loads` returns it. */
  datatype Json =
    | JNull
    | JBool(b: bool)
    | JNumber(n: real)
    | JString(s: string)
    | JArray(items: seq<Json>)
    | JObject(fields: map<string, Json>)

  /** `ExtractedMetadata`: five typed fields and no other constraint. */
  datatype ExtractedMetadata = ExtractedMetadata(
    summary: string,
    title: Option<string>,
    topics: seq<string>,
    sentiment: string,
    confidence: real)

  /**
   * An exception, by the first handler of the `analyze` endpoint that would
   * catch it: `ValueError` (which `json.JSONDecodeError` and pydantic's
   * `ValidationError` subclass), `RuntimeError`, or any other `Exception`.
   */
  datatype Exception = ValueError(message: string) | RuntimeError(message: string) | OtherError(message: string)

  /** What the chain-of-thought call returns: a `metadata` string, or the exception it raised. */
  datatype LmReply = Reply(metadata: string) | Raised(error: Exception)

  /**
   * Library behaviour the model does not reimplement: `json.loads` (a value,
   * or the decoder's error text), the text of pydantic's validation error, and
   * the text of the `TypeError` that `**` raises on a value that is not a mapping.
   */
  datatype Collaborators = Collaborators(
    loads: string -> Result<Json, string>,
    validationMessage: map<string, Json> -> string,
    notMappingMessage: Json -> string)

  /** The language-model settings `configure_dspy` installs. */
  datatype LmSettings = LmSettings(model: string, apiKey: string, maxTokens: nat, temperature: real)

  /**
   * The analyzer `configure_dspy` installs. In the source `TextAnalyzer()` holds
   * no settings: `dspy.configure(lm=lm)` installs them globally just before it.
   * The model keeps the two together, since they are only ever set together.
   */
  datatype TextAnalyzer = TextAnalyzer(lm: LmSettings)

  const EmptyTextMessage := "Text cannot be empty"
  const NotConfiguredMessage := "DSPy not configured. Call configure_dspy() before analyzing text."
  const ParseFailurePrefix := "Failed to parse LLM response as JSON: "
  const ApiErrorPrefix := "LLM API error: "

  function AsString(v: Json): Option<string> {
    if v.JString? then Some(v.s) else None
  }

  function AsOptionalString(v: Json): Option<Option<string>> {
    match v
    case JNull => Some(None)
    case JString(s) => Some(Some(s))
    case _ => None
  }

  function AsStrings(items: seq<Json>): Option<seq<string>> {
    if items == [] then Some([])
    else if !items[0].JString? then None
    else match AsStrings(items[1..])
      case None => None
      case Some(rest) => Some([items[0].s] + rest)
  }

  function AsNumber(v: Json): Option<real> {
    if v.JNumber? then Some(v.n) else None
  }

  /**
   * `ExtractedMetadata(**fields)`: every field present with its declared type;
   * keys beyond the five are ignored; no count, enumeration or range check.
   */
  function Validate(fields: map<string, Json>): Option<ExtractedMetadata> {
    if "summary" !in fields || "title" !in fields || "topics" !in fields
       || "sentiment" !in fields || "confidence" !in fields then None
    else
      var summary := AsString(fields["summary"]);
      var title := AsOptionalString(fields["title"]);
      var topics := if fields["topics"].JArray? then AsStrings(fields["topics"].items) else None;
      var sentiment := AsString(fields["sentiment"]);
      var confidence := AsNumber(fields["confidence"]);
      if summary.None? || title.None? || topics.None? || sentiment.None? || confidence.None? then None
      else Some(ExtractedMetadata(summary.value, title.value, topics.value, sentiment.value, confidence.value))
  }

  function TitleJson(title: Option<string>): Json {
    match title
    case None => JNull
    case Some(t) => JString(t)
  }

  function StringsJson(xs: seq<string>): (r: seq<Json>)
    ensures |r| == |xs|
  {
    if xs == [] then [] else [JString(xs[0])] + StringsJson(xs[1..])
  }

  /** The five fields as the model would dump them. */
  function Fields(m: ExtractedMetadata): map<string, Json> {
    map[
      "summary" := JString(m.summary),
      "title" := TitleJson(m.title),
      "topics" := JArray(StringsJson(m.topics)),
      "sentiment" := JString(m.sentiment),
      "confidence" := JNumber(m.confidence)]
  }

  lemma {:induction false} AsStringsOfStrings(xs: seq<string>)
    ensures AsStrings(StringsJson(xs)) == Some(xs)
  {
    if xs != [] {
      AsStringsOfStrings(xs[1..]);
      assert StringsJson(xs)[1..] == StringsJson(xs[1..]);
      assert [xs[0]] + xs[1..] == xs;
    }
  }

  lemma {:induction false} StringsOfAsStrings(items: seq<Json>, xs: seq<string>)
    requires AsStrings(items) == Some(xs)
    ensures StringsJson(xs) == items
  {
    if items != [] {
      var rest := AsStrings(items[1..]).value;
      StringsOfAsStrings(items[1..], rest);
      assert xs == [items[0].s] + rest;
      assert xs[1..] == rest;
      assert items == [items[0]] + items[1..];
    }
  }

  /** Any metadata value survives being dumped to fields and validated again. */
  lemma ValidateFields(m: ExtractedMetadata)
    ensures Validate(Fields(m)) == Some(m)
  {
    AsStringsOfStrings(m.topics);
  }

  /**
   * Keys beyond the five are ignored: any mapping that holds the five fields
   * of a metadata value validates to that value, whatever else it holds.
   */
  lemma ValidateIgnoresExtra(fields: map<string, Json>, m: ExtractedMetadata)
    requires forall k :: k in Fields(m) ==> k in fields && fields[k] == Fields(m)[k]
    ensures Validate(fields) == Some(m)
  {
    AsStringsOfStrings(m.topics);
    assert fields["topics"] == JArray(StringsJson(m.topics));
  }

  /** Validation succeeds only on the five fields of the metadata it returns; other keys are free. */
  lemma ValidatedFields(fields: map<string, Json>, m: ExtractedMetadata)
    requires Validate(fields) == Some(m)
    ensures forall k :: k in Fields(m) ==> k in fields && fields[k] == Fields(m)[k]
  {
    StringsOfAsStrings(fields["topics"].items, m.topics);
  }

  /**
   * A reply that ignores the prompt's contract (five topics, an unknown
   * sentiment, a confidence of 7.5) still validates.
   */
  lemma ValidationChecksOnlyTypes()
    ensures var m := ExtractedMetadata("s", None, ["a", "b", "c", "d", "e"], "furious", 7.5);
      Validate(Fields(m)) == Some(m)
  {
    ValidateFields(ExtractedMetadata("s", None, ["a", "b", "c", "d", "e"], "furious", 7.5));
  }

  /** `TextAnalyzer.forward(text)`, given the reply of the chain-of-thought call. */
  function Forward(text: string, reply: LmReply, lib: Collaborators): (r: Result<ExtractedMetadata, Exception>)
    ensures IsBlank(text) ==> r == Failure(ValueError(EmptyTextMessage))
    ensures !IsBlank(text) && reply.Raised? ==> r == Failure(reply.error)
    ensures !IsBlank(text) && reply.Reply? && lib.loads(reply.metadata).Failure? ==>
      r == Failure(ValueError(ParseFailurePrefix + lib.loads(reply.metadata).error))
    ensures !IsBlank(text) && reply.Reply? && lib.loads(reply.metadata).Success? &&
            !lib.loads(reply.metadata).value.JObject? ==>
      r == Failure(OtherError(lib.notMappingMessage(lib.loads(reply.metadata).value)))
    ensures !IsBlank(text) && reply.Reply? && lib.loads(reply.metadata).Success? &&
            lib.loads(reply.metadata).value.JObject? && Validate(lib.loads(reply.metadata).value.fields).Some? ==>
      r == Success(Validate(lib.loads(reply.metadata).value.fields).value)
    ensures !IsBlank(text) && reply.Reply? && lib.loads(reply.metadata).Success? &&
            lib.loads(reply.metadata).value.JObject? && Validate(lib.loads(reply.metadata).value.fields).None? ==>
      r == Failure(ValueError(lib.validationMessage(lib.loads(reply.metadata).value.fields)))
    ensures r.Success? ==>
      (reply.Reply? && lib.loads(reply.metadata).Success? && lib.loads(reply.metadata).value.JObject? &&
       Validate(lib.loads(reply.metadata).value.fields) == Some(r.value))
  {
    if IsBlank(text) then Failure(ValueError(EmptyTextMessage))
    else match reply
      case Raised(e) => Failure(e)
      case Reply(payload) =>
        match lib.loads(payload)
        case Failure(decodeError) => Failure(ValueError(ParseFailurePrefix + decodeError))
        case Success(value) =>
          if !value.JObject? then Failure(OtherError(lib.notMappingMessage(value)))
          else match Validate(value.fields)
            case None => Failure(ValueError(lib.validationMessage(value.fields)))
            case Some(m) => Success(m)
  }

  /** `"API" in str(e) or "rate" in str(e).lower()`. */
  predicate IsServiceMessage(message: string) {
    Contains(message, "API") || Contains(Lower(message), "rate")
  }

  /** The `except Exception` clause of `analyze_text`: wrap service failures, re-raise the rest. */
  function Classify(r: Result<ExtractedMetadata, Exception>): (c: Result<ExtractedMetadata, Exception>)
    ensures r.Success? ==> c == r
    ensures r.Failure? ==> (c == Failure(RuntimeError(ApiErrorPrefix + r.error.message)) <==> IsServiceMessage(r.error.message))
    ensures r.Failure? && !IsServiceMessage(r.error.message) ==> c == r
  {
    match r
    case Success(_) => r
    case Failure(e) => if IsServiceMessage(e.message) then Failure(RuntimeError(ApiErrorPrefix + e.message)) else r
  }

  /** A wrapped message names the API itself, so wrapping it again would still classify it as a service failure. */
  lemma WrappedIsServiceMessage(message: string)
    ensures IsServiceMessage(ApiErrorPrefix + message)
  {
    assert ApiErrorPrefix + message == "LLM " + "API" + (" error: " + message);
    ContainsMiddle("LLM ", "API", " error: " + message);
  }

  /** The module-level `_analyzer`, set by `configure_dspy`, read by `analyze_text`. */
  class LlmService {
    var analyzer: Option<TextAnalyzer>

    constructor()
      ensures analyzer == None
    {
      analyzer := None;
    }

    /** `configure_dspy(api_key, model)`. */
    method Configure(apiKey: string, model: string)
      modifies this
      ensures analyzer == Some(TextAnalyzer(LmSettings("openai/" + model, apiKey, 2000, 0.7)))
    {
      analyzer := Some(TextAnalyzer(LmSettings("openai/" + model, apiKey, 2000, 0.7)));
    }

    /** `analyze_text(text)`: blank text, then configuration, then the classified analyzer call. */
    function AnalyzeText(text: string, reply: LmReply, lib: Collaborators): (r: Result<ExtractedMetadata, Exception>)
      reads this
      ensures IsBlank(text) ==> r == Failure(ValueError(EmptyTextMessage))
      ensures !IsBlank(text) && analyzer.None? ==> r == Failure(ValueError(NotConfiguredMessage))
      ensures !IsBlank(text) && analyzer.Some? ==> r == Classify(Forward(text, reply, lib))
    {
      if IsBlank(text) then Failure(ValueError(EmptyTextMessage))
      else if analyzer.None? then Failure(ValueError(NotConfiguredMessage))
      else Classify(Forward(text, reply, lib))
    }
  }
}
