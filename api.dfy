/**
 * The two endpoints of app/main.py over the `analyses` table of
 * app/database.py: `analyze` stores one record after keyword and metadata
 * extraction have both succeeded and maps exceptions to HTTP statuses;
 * `search` filters the stored records by a substring of their JSON text and
 * lists them newest first.
 */
module Api {
  import opened Results
  import opened Text
  import opened ListCodec
  import opened Keywords
  import opened Llm

  /** A row of `analyses`; `topics` and `keywords` hold JSON text. */
  datatype Record = Record(
    id: nat,
    rawText: string,
    summary: string,
    title: Option<string>,
    topics: string,
    sentiment: string,
    keywords: string,
    confidence: real,
    createdAt: int)

  /** `AnalysisResponse`: a row with its lists read back from JSON. */
  datatype AnalysisResponse = AnalysisResponse(
    id: nat,
    summary: string,
    title: Option<string>,
    topics: seq<string>,
    sentiment: string,
    keywords: seq<string>,
    confidence: real,
    createdAt: int)

  datatype SearchResponse = SearchResponse(results: seq<AnalysisResponse>, count: nat)

  /** An `HTTPException`, or the request-schema rejection. */
  datatype HttpError = HttpError(status: nat, detail: string)

  const KeywordCount := 3
  const MinLengthMessage := "String should have at least 1 character"
  const UnavailablePrefix := "Service temporarily unavailable: "
  const InternalPrefix := "Internal error: "

  /** The three `except` clauses of `analyze`. */
  function ToHttpError(e: Exception): (r: HttpError)
    ensures r.status == 400 <==> e.ValueError?
    ensures r.status == 503 <==> !e.ValueError?
    ensures e.ValueError? ==> r.detail == e.message
    ensures e.RuntimeError? ==> r.detail == UnavailablePrefix + e.message
    ensures e.OtherError? ==> r.detail == InternalPrefix + e.message
  {
    match e
    case ValueError(m) => HttpError(400, m)
    case RuntimeError(m) => HttpError(503, UnavailablePrefix + m)
    case OtherError(m) => HttpError(503, InternalPrefix + m)
  }

  // The status `analyze` answers with when metadata extraction fails, case by
  // case. Malformed model output (JSON that does not parse, or fields of the
  // wrong type) is a `ValueError` and so a client error, 400, unless its text
  // happens to look like a service failure; a reply that parses to something
  // other than an object, and every failure the model call reports as a
  // service failure, is 503. Text that is not empty reaches these checks.

  lemma BlankTextStatus(svc: LlmService, text: string, reply: LmReply, lib: Collaborators)
    requires |text| > 0 && IsBlank(text)
    ensures svc.AnalyzeText(text, reply, lib).Failure?
    ensures ToHttpError(svc.AnalyzeText(text, reply, lib).error) == HttpError(400, EmptyTextMessage)
  {
  }

  lemma UnconfiguredStatus(svc: LlmService, text: string, reply: LmReply, lib: Collaborators)
    requires !IsBlank(text) && svc.analyzer.None?
    ensures svc.AnalyzeText(text, reply, lib).Failure?
    ensures ToHttpError(svc.AnalyzeText(text, reply, lib).error) == HttpError(400, NotConfiguredMessage)
  {
  }

  lemma UnparsableReplyStatus(svc: LlmService, text: string, payload: string, lib: Collaborators)
    requires !IsBlank(text) && svc.analyzer.Some? && lib.loads(payload).Failure?
    requires !IsServiceMessage(ParseFailurePrefix + lib.loads(payload).error)
    ensures svc.AnalyzeText(text, Reply(payload), lib).Failure?
    ensures ToHttpError(svc.AnalyzeText(text, Reply(payload), lib).error) ==
      HttpError(400, ParseFailurePrefix + lib.loads(payload).error)
  {
  }

  lemma InvalidFieldsStatus(svc: LlmService, text: string, payload: string, lib: Collaborators,
                            fields: map<string, Json>)
    requires !IsBlank(text) && svc.analyzer.Some? && lib.loads(payload) == Success(JObject(fields))
    requires Validate(fields).None? && !IsServiceMessage(lib.validationMessage(fields))
    ensures svc.AnalyzeText(text, Reply(payload), lib).Failure?
    ensures ToHttpError(svc.AnalyzeText(text, Reply(payload), lib).error) == HttpError(400, lib.validationMessage(fields))
  {
  }

  lemma NonObjectReplyStatus(svc: LlmService, text: string, payload: string, lib: Collaborators, value: Json)
    requires !IsBlank(text) && svc.analyzer.Some? && lib.loads(payload) == Success(value) && !value.JObject?
    ensures svc.AnalyzeText(text, Reply(payload), lib).Failure?
    ensures ToHttpError(svc.AnalyzeText(text, Reply(payload), lib).error).status == 503
  {
  }

  lemma ServiceFailureStatus(svc: LlmService, text: string, e: Exception, lib: Collaborators)
    requires !IsBlank(text) && svc.analyzer.Some? && IsServiceMessage(e.message)
    ensures svc.AnalyzeText(text, Raised(e), lib).Failure?
    ensures ToHttpError(svc.AnalyzeText(text, Raised(e), lib).error) ==
      HttpError(503, UnavailablePrefix + ApiErrorPrefix + e.message)
  {
  }

  /** A reply whose object validates reaches `analyze` as that metadata, so a row is stored. */
  lemma ValidReplySucceeds(svc: LlmService, text: string, payload: string, lib: Collaborators,
                           fields: map<string, Json>, m: ExtractedMetadata)
    requires !IsBlank(text) && svc.analyzer.Some? && lib.loads(payload) == Success(JObject(fields))
    requires Validate(fields) == Some(m)
    ensures svc.AnalyzeText(text, Reply(payload), lib) == Success(m)
  {
  }

  /**
   * Any other exception the model call raises is re-raised unchanged, so its own
   * kind decides the status: 400 for a `ValueError`, 503 "Internal error: " for
   * an exception that is neither a `ValueError` nor a `RuntimeError`.
   */
  lemma OtherFailureStatus(svc: LlmService, text: string, e: Exception, lib: Collaborators)
    requires !IsBlank(text) && svc.analyzer.Some? && !IsServiceMessage(e.message)
    ensures svc.AnalyzeText(text, Raised(e), lib) == Failure(e)
    ensures e.ValueError? ==> ToHttpError(e) == HttpError(400, e.message)
    ensures e.OtherError? ==> ToHttpError(e) == HttpError(503, InternalPrefix + e.message)
  {
  }

  predicate WellFormed(rec: Record) {
    DecodeList(rec.topics).Some? && DecodeList(rec.keywords).Some?
  }

  /** The response built from a stored row, reading its lists back with `json.loads`. */
  function ToResponse(rec: Record): AnalysisResponse
    requires WellFormed(rec)
  {
    AnalysisResponse(rec.id, rec.summary, rec.title, DecodeList(rec.topics).value, rec.sentiment,
      DecodeList(rec.keywords).value, rec.confidence, rec.createdAt)
  }

  /** `column LIKE '%term%'` as SQLite runs it: ASCII case folded on both sides. */
  predicate LikeContains(column: string, term: string) {
    Contains(Lower(column), Lower(term))
  }

  /** The `search` filter for a non-empty topic: the lower-cased term in either JSON column. */
  predicate Selects(topic: Option<string>, rec: Record) {
    topic.None? || topic.value == "" ||
    LikeContains(rec.topics, Lower(topic.value)) || LikeContains(rec.keywords, Lower(topic.value))
  }

  /** The rows the query's filter keeps, each as often as it is stored. */
  function Matching(records: seq<Record>, topic: Option<string>): (r: seq<Record>)
    ensures forall x :: multiset(r)[x] == if Selects(topic, x) then multiset(records)[x] else 0
  {
    if records == [] then []
    else
      assert records == [records[0]] + records[1..];
      (if Selects(topic, records[0]) then [records[0]] else []) + Matching(records[1..], topic)
  }

  ghost predicate NewestFirstOrder(r: seq<Record>) {
    forall i, j :: 0 <= i < j < |r| ==> r[i].createdAt >= r[j].createdAt
  }

  function InsertNewest(x: Record, r: seq<Record>): seq<Record> {
    if r == [] || x.createdAt >= r[0].createdAt then [x] + r
    else [r[0]] + InsertNewest(x, r[1..])
  }

  lemma NewestCons(a: Record, t: seq<Record>)
    requires NewestFirstOrder(t)
    requires forall y :: y in t ==> a.createdAt >= y.createdAt
    ensures NewestFirstOrder([a] + t)
  {
    var s := [a] + t;
    forall i, j | 0 <= i < j < |s| ensures s[i].createdAt >= s[j].createdAt {
      assert s[j] == t[j - 1];
      if i > 0 {
        assert s[i] == t[i - 1];
      }
    }
  }

  lemma NewestTail(r: seq<Record>)
    requires NewestFirstOrder(r) && r != []
    ensures NewestFirstOrder(r[1..])
    ensures forall y :: y in r[1..] ==> r[0].createdAt >= y.createdAt
  {
    forall y | y in r[1..] ensures r[0].createdAt >= y.createdAt {
      var k :| 0 <= k < |r[1..]| && r[1..][k] == y;
      assert r[k + 1] == y;
    }
    forall i, j | 0 <= i < j < |r[1..]| ensures r[1..][i].createdAt >= r[1..][j].createdAt {
      assert r[1..][i] == r[i + 1] && r[1..][j] == r[j + 1];
    }
  }

  lemma {:induction false} InsertNewestFacts(x: Record, r: seq<Record>)
    requires NewestFirstOrder(r)
    ensures multiset(InsertNewest(x, r)) == multiset(r) + multiset{x}
    ensures NewestFirstOrder(InsertNewest(x, r))
  {
    if r == [] || x.createdAt >= r[0].createdAt {
      if r != [] {
        NewestTail(r);
        assert r == [r[0]] + r[1..];
      }
      NewestCons(x, r);
    } else {
      NewestTail(r);
      assert r == [r[0]] + r[1..];
      InsertNewestFacts(x, r[1..]);
      var t := InsertNewest(x, r[1..]);
      forall y | y in t ensures r[0].createdAt >= y.createdAt {
        assert y in multiset(t);
      }
      NewestCons(r[0], t);
    }
  }

  /** `ORDER BY created_at DESC`: the rows rearranged, latest first. */
  function NewestFirst(rs: seq<Record>): (r: seq<Record>)
    ensures multiset(r) == multiset(rs)
    ensures NewestFirstOrder(r)
  {
    if rs == [] then []
    else
      assert rs == [rs[0]] + rs[1..];
      var t := NewestFirst(rs[1..]);
      InsertNewestFacts(rs[0], t);
      InsertNewest(rs[0], t)
  }

  predicate IdsAreIndexes(records: seq<Record>) {
    forall k :: 0 <= k < |records| ==> records[k].id == k + 1
  }

  /** What every row written by `analyze` satisfies. */
  predicate Stored(rec: Record) {
    WellFormed(rec) && |DecodeList(rec.keywords).value| <= KeywordCount
  }

  lemma IdLocates(records: seq<Record>, x: Record)
    requires IdsAreIndexes(records) && x in records
    ensures 1 <= x.id <= |records| && records[x.id - 1] == x
  {
    var k :| 0 <= k < |records| && records[k] == x;
  }

  /** In a table whose ids are the row numbers, no row occurs twice. */
  lemma {:induction false} RowsOccurOnce(records: seq<Record>, x: Record)
    requires IdsAreIndexes(records)
    ensures multiset(records)[x] <= 1
  {
    if records != [] {
      var p := records[..|records| - 1];
      var last := records[|records| - 1];
      assert records == p + [last];
      assert IdsAreIndexes(p);
      RowsOccurOnce(p, x);
      if last in p {
        IdLocates(p, last);
      }
    }
  }

  lemma RepeatCountsTwice(s: seq<Record>, i: int, j: int)
    requires 0 <= i < j < |s| && s[i] == s[j]
    ensures multiset(s)[s[i]] >= 2
  {
    assert s == s[..i] + [s[i]] + s[i + 1..j] + [s[j]] + s[j + 1..];
  }

  /** What `search` lists before building responses: the selected rows, newest first. */
  function Selected(records: seq<Record>, topic: Option<string>): (r: seq<Record>)
    ensures NewestFirstOrder(r)
  {
    NewestFirst(Matching(records, topic))
  }

  lemma SelectedMembers(records: seq<Record>, topic: Option<string>)
    ensures forall x :: x in Selected(records, topic) <==> x in records && Selects(topic, x)
  {
    var ordered := Selected(records, topic);
    forall x ensures x in ordered <==> x in records && Selects(topic, x) {
      assert x in ordered <==> multiset(ordered)[x] > 0;
      assert x in records <==> multiset(records)[x] > 0;
    }
  }

  lemma SelectedPairDistinct(records: seq<Record>, ordered: seq<Record>, i: int, j: int)
    requires IdsAreIndexes(records) && 0 <= i < j < |ordered|
    requires forall x :: x in ordered ==> x in records
    requires multiset(ordered) <= multiset(records)
    ensures ordered[i].id != ordered[j].id
  {
    if ordered[i] == ordered[j] {
      RepeatCountsTwice(ordered, i, j);
      RowsOccurOnce(records, ordered[i]);
    } else {
      IdLocates(records, ordered[i]);
      IdLocates(records, ordered[j]);
    }
  }

  lemma SelectedOnce(records: seq<Record>, topic: Option<string>)
    requires IdsAreIndexes(records)
    ensures forall i, j :: 0 <= i < j < |Selected(records, topic)| ==>
      Selected(records, topic)[i].id != Selected(records, topic)[j].id
  {
    var ordered := Selected(records, topic);
    SelectedMembers(records, topic);
    assert multiset(ordered) <= multiset(records);
    forall i, j | 0 <= i < j < |ordered| ensures ordered[i].id != ordered[j].id {
      SelectedPairDistinct(records, ordered, i, j);
    }
  }

  lemma SelectedAll(records: seq<Record>, topic: Option<string>)
    requires topic.None? || topic == Some("")
    ensures |Selected(records, topic)| == |records|
  {
    assert multiset(Matching(records, topic)) == multiset(records);
    assert |multiset(Selected(records, topic))| == |multiset(records)|;
  }

  /** The table's invariant: ids are the row numbers, and every row is as `analyze` writes it. */
  ghost predicate ValidRows(records: seq<Record>) {
    forall k :: 0 <= k < |records| ==> records[k].id == k + 1 && Stored(records[k])
  }

  function Responses(rs: seq<Record>): (r: seq<AnalysisResponse>)
    requires forall x :: x in rs ==> WellFormed(x)
    ensures |r| == |rs|
    ensures forall i :: 0 <= i < |rs| ==> r[i] == ToResponse(rs[i])
  {
    seq(|rs|, i requires 0 <= i < |rs| => ToResponse(rs[i]))
  }

  lemma SelectedWellFormed(records: seq<Record>, topic: Option<string>)
    requires ValidRows(records)
    ensures forall x :: x in Selected(records, topic) ==> WellFormed(x)
  {
    SelectedMembers(records, topic);
    forall x | x in Selected(records, topic) ensures WellFormed(x) {
      var k :| 0 <= k < |records| && records[k] == x;
    }
  }

  lemma ResponseId(a: Record, b: Record)
    requires WellFormed(a) && WellFormed(b) && ToResponse(a) == ToResponse(b)
    ensures a.id == b.id
  {
    assert ToResponse(a).id == a.id;
  }

  lemma SelectedResponds(records: seq<Record>, topic: Option<string>, k: int)
    requires ValidRows(records) && 0 <= k < |records| && Selects(topic, records[k])
    requires forall x :: x in Selected(records, topic) ==> WellFormed(x)
    ensures ToResponse(records[k]) in Responses(Selected(records, topic))
  {
    var ordered := Selected(records, topic);
    SelectedMembers(records, topic);
    var i :| 0 <= i < |ordered| && ordered[i] == records[k];
    assert Responses(ordered)[i] == ToResponse(records[k]);
  }

  lemma RespondsSelected(records: seq<Record>, topic: Option<string>, k: int)
    requires ValidRows(records) && 0 <= k < |records|
    requires forall x :: x in Selected(records, topic) ==> WellFormed(x)
    requires ToResponse(records[k]) in Responses(Selected(records, topic))
    ensures Selects(topic, records[k])
  {
    var ordered := Selected(records, topic);
    var r := Responses(ordered);
    SelectedMembers(records, topic);
    assert IdsAreIndexes(records);
    var i :| 0 <= i < |r| && r[i] == ToResponse(records[k]);
    ResponseId(ordered[i], records[k]);
    IdLocates(records, ordered[i]);
  }

  lemma SearchMembership(records: seq<Record>, topic: Option<string>)
    requires ValidRows(records)
    ensures forall x :: x in Selected(records, topic) ==> WellFormed(x)
    ensures forall k :: 0 <= k < |records| ==>
      (ToResponse(records[k]) in Responses(Selected(records, topic)) <==> Selects(topic, records[k]))
  {
    SelectedWellFormed(records, topic);
    forall k | 0 <= k < |records|
      ensures ToResponse(records[k]) in Responses(Selected(records, topic)) <==> Selects(topic, records[k])
    {
      if Selects(topic, records[k]) {
        SelectedResponds(records, topic, k);
      }
      if ToResponse(records[k]) in Responses(Selected(records, topic)) {
        RespondsSelected(records, topic, k);
      }
    }
  }

  lemma SearchFromRecords(records: seq<Record>, topic: Option<string>)
    requires ValidRows(records)
    ensures forall x :: x in Selected(records, topic) ==> WellFormed(x)
    ensures forall x :: x in Responses(Selected(records, topic)) ==>
      exists k :: 0 <= k < |records| && x == ToResponse(records[k])
  {
    SelectedWellFormed(records, topic);
    var ordered := Selected(records, topic);
    var r := Responses(ordered);
    SelectedMembers(records, topic);
    assert IdsAreIndexes(records);
    forall x | x in r ensures exists k :: 0 <= k < |records| && x == ToResponse(records[k]) {
      var i :| 0 <= i < |r| && r[i] == x;
      IdLocates(records, ordered[i]);
    }
  }

  /** A term without capitals that stands in a row's topics, themselves without capitals, selects the row. */
  lemma TopicSelects(term: string, rec: Record)
    requires NoUpper(term) && NoUpper(rec.topics) && Contains(rec.topics, term)
    ensures Selects(Some(term), rec)
  {
    LowerUnchanged(term);
    LowerUnchanged(rec.topics);
  }

  /**
   * The filter runs on the stored JSON text, not item by item: a term that
   * spans the separator between two plain lower-case topics selects the row,
   * although it is longer than either topic and so lies inside neither.
   */
  lemma SearchSpansSeparator(a: string, b: string, rec: Record)
    requires NoUpper(a) && NoUpper(b) && Plain(a) && Plain(b)
    requires rec.topics == EncodeList([a, b])
    ensures Selects(Some(a + "\", \"" + b), rec)
    ensures !Contains(a, a + "\", \"" + b) && !Contains(b, a + "\", \"" + b)
  {
    var term := a + "\", \"" + b;
    EncodePair(a, b);
    NoUpperAppend(a, "\", \"");
    NoUpperAppend(a + "\", \"", b);
    NoUpperAppend("[\"", term);
    NoUpperAppend("[\"" + term, "\"]");
    ContainsMiddle("[\"", term, "\"]");
    TopicSelects(term, rec);
    NotContainsLonger(a, term);
    NotContainsLonger(b, term);
  }

  /** The `analyses` table. */
  class Store {
    var records: seq<Record>

    ghost predicate Valid()
      reads this
    {
      ValidRows(records)
    }

    constructor()
      ensures Valid() && records == []
    {
      records := [];
    }

    /**
     * `POST /analyze`: schema check, keyword extraction with `top_n = 3`,
     * metadata extraction, then one new row under the next id and the
     * response built from it; on any failure the table is unchanged.
     */
    method Analyze(text: string, llm: LlmService, tagger: Tagger, reply: LmReply, lib: Collaborators, now: int)
      returns (r: Result<AnalysisResponse, HttpError>)
      requires Valid()
      modifies this
      ensures Valid()
      ensures r.Failure? ==> records == old(records)
      ensures |text| == 0 ==> r == Failure(HttpError(422, MinLengthMessage))
      ensures |text| > 0 && llm.AnalyzeText(text, reply, lib).Failure? ==>
        r == Failure(ToHttpError(llm.AnalyzeText(text, reply, lib).error))
      ensures |text| > 0 && llm.AnalyzeText(text, reply, lib).Success? ==>
        var m := llm.AnalyzeText(text, reply, lib).value;
        var keywords := ExtractKeywords(tagger, text, KeywordCount);
        var id := |old(records)| + 1;
        && records == old(records) + [Record(id, text, m.summary, m.title, EncodeList(m.topics), m.sentiment,
                                             EncodeList(keywords), m.confidence, now)]
        && r == Success(AnalysisResponse(id, m.summary, m.title, m.topics, m.sentiment, keywords, m.confidence, now))
    {
      if |text| == 0 {
        return Failure(HttpError(422, MinLengthMessage));
      }
      var keywords := ExtractKeywords(tagger, text, KeywordCount);
      var metadata := llm.AnalyzeText(text, reply, lib);
      if metadata.Failure? {
        return Failure(ToHttpError(metadata.error));
      }
      var m := metadata.value;
      var row := Record(|records| + 1, text, m.summary, m.title, EncodeList(m.topics), m.sentiment,
                        EncodeList(keywords), m.confidence, now);
      RoundTrip(m.topics);
      RoundTrip(keywords);
      records := records + [row];
      r := Success(ToResponse(row));
    }

    /**
     * `GET /search`: the selected rows, newest first, each once, with their count.
     * The store is only read.
     */
    function Search(topic: Option<string>): (r: SearchResponse)
      reads this
      requires Valid()
      ensures r.count == |r.results|
      ensures forall i, j :: 0 <= i < j < |r.results| ==> r.results[i].createdAt >= r.results[j].createdAt
      ensures forall i, j :: 0 <= i < j < |r.results| ==> r.results[i].id != r.results[j].id
      ensures forall k :: 0 <= k < |records| ==> (ToResponse(records[k]) in r.results <==> Selects(topic, records[k]))
      ensures forall x :: x in r.results ==> exists k :: 0 <= k < |records| && x == ToResponse(records[k])
      ensures topic.None? || topic == Some("") ==> |r.results| == |records|
    {
      assert IdsAreIndexes(records);
      SelectedOnce(records, topic);
      SearchMembership(records, topic);
      SearchFromRecords(records, topic);
      var results := Responses(Selected(records, topic));
      if topic.None? || topic == Some("") then
        SelectedAll(records, topic);
        SearchResponse(results, |results|)
      else
        SearchResponse(results, |results|)
    }
  }
}
