/** `applyFiboOntology` (services/geminiService.ts): the text is cut into chunks, each chunk
    is sent to the model in turn, the four lists of every answer are appended to an
    aggregate, and the aggregate is de-duplicated at the end. The model call and the parse
    of its JSON answer are an oracle: `responses[i]` is the parsed answer to the request for
    chunk `i`, or `None` when the request or the parse failed. */
module Annotator {
  import opened Wrappers
  import opened FiboTypes
  import opened Chunker
  import opened Deduplication

  /** What the loop does that can be observed from outside: a progress report
      "chunk `index` of `total`", and a request to the model for one chunk. */
  datatype Event = Progress(index: nat, total: nat) | Request(chunk: string)

  /** The error thrown when chunk `chunk` (1-based) of `total` could not be processed. */
  datatype ChunkFailure = ChunkFailure(chunk: nat, total: nat)

  /** The parsed answer to the request for chunk `i`; a request with no recorded answer
      fails. */
  function Answer(responses: seq<Option<LooseFiboData>>, i: nat): Option<LooseFiboData> {
    if i < |responses| then responses[i] else None
  }

  /** The index of the first of the first `n` requests that fails, or `n` when none does. */
  function FirstFailure(responses: seq<Option<LooseFiboData>>, n: nat): (k: nat)
    ensures k <= n
    ensures forall i :: 0 <= i < k ==> Answer(responses, i).Some?
    ensures k < n ==> Answer(responses, k).None?
  {
    if n == 0 then 0
    else
      var k := FirstFailure(responses, n - 1);
      if k < n - 1 then k
      else if Answer(responses, n - 1).None? then n - 1
      else n
  }

  /** The events of processing the chunks `cs` out of `total`: a progress report, then the
      request, chunk after chunk. */
  function Log(cs: seq<string>, total: nat): (r: seq<Event>)
    ensures |r| == 2 * |cs|
    ensures forall j :: 0 <= j < |cs| ==> r[2 * j] == Progress(j + 1, total)
    ensures forall j :: 0 <= j < |cs| ==> r[2 * j + 1] == Request(cs[j])
  {
    if cs == [] then []
    else Log(cs[..|cs| - 1], total) + [Progress(|cs|, total), Request(cs[|cs| - 1])]
  }

  /** Every event of a log is either the progress report or the request of one of its chunks,
      so the requests are exactly those of the chunks logged. */
  lemma LogEvents(cs: seq<string>, total: nat, e: Event)
    requires e in Log(cs, total)
    ensures e.Progress? ==> 1 <= e.index <= |cs| && e.total == total
    ensures e.Request? ==> e.chunk in cs
  {
    var r := Log(cs, total);
    var m :| 0 <= m < |r| && r[m] == e;
    assert r[2 * (m / 2) + m % 2] == e;
    if m % 2 == 1 {
      assert cs[m / 2] in cs;
    }
  }

  /** Event `m` of a log: the progress report of chunk `m / 2 + 1` when `m` is even, the
      request of chunk `m / 2` otherwise. */
  lemma LogAt(cs: seq<string>, total: nat, m: nat)
    requires m < 2 * |cs|
    ensures Log(cs, total)[m] == if m % 2 == 0 then Progress(m / 2 + 1, total) else Request(cs[m / 2])
  {
    assert m == 2 * (m / 2) + m % 2;
  }

  /** Progress reports come in strictly increasing order of their chunk number. */
  lemma ProgressIncreasing(cs: seq<string>, total: nat, a: nat, b: nat)
    requires a < b < 2 * |cs|
    requires Log(cs, total)[a].Progress? && Log(cs, total)[b].Progress?
    ensures Log(cs, total)[a].index < Log(cs, total)[b].index
  {
    LogAt(cs, total, a);
    LogAt(cs, total, b);
  }

  /** The lists of one kind in the answers to the first `n` requests, one after the other;
      a failed request or a missing list contributes nothing (`result.concepts || []`). */
  function Gather<T>(responses: seq<Option<LooseFiboData>>, n: nat, field: LooseFiboData -> Option<seq<T>>)
    : seq<T>
  {
    if n == 0 then []
    else
      Gather(responses, n - 1, field)
      + match Answer(responses, n - 1)
        case None => []
        case Some(d) => OrEmpty(field(d))
  }

  /** An item is in the gathered list exactly when it is in the list of one of the answers. */
  lemma {:induction false} GatherMember<T>(responses: seq<Option<LooseFiboData>>, n: nat,
                                          field: LooseFiboData -> Option<seq<T>>, x: T)
    ensures x in Gather(responses, n, field)
            <==> exists i :: 0 <= i < n && Answer(responses, i).Some?
                                      && x in OrEmpty(field(Answer(responses, i).value))
  {
    if n > 0 {
      GatherMember(responses, n - 1, field, x);
      if x in Gather(responses, n, field) && x !in Gather(responses, n - 1, field) {
        assert Answer(responses, n - 1).Some?;
      }
    }
  }

  function Concepts(d: LooseFiboData): Option<seq<FiboItem>> { d.concepts }
  function Entities(d: LooseFiboData): Option<seq<FiboItem>> { d.entities }
  function Relationships(d: LooseFiboData): Option<seq<FiboItem>> { d.relationships }
  function FinancialData(d: LooseFiboData): Option<seq<FinancialDataItem>> { d.financialData }

  /** The aggregate after the first `n` answers. */
  function Aggregate(responses: seq<Option<LooseFiboData>>, n: nat): FiboData {
    FiboData(
      Gather(responses, n, Concepts),
      Gather(responses, n, Entities),
      Gather(responses, n, Relationships),
      Gather(responses, n, FinancialData))
  }

  /** Each list de-duplicated by its key. */
  function Deduplicated(d: FiboData): (r: FiboData)
    ensures DistinctKeys(r.concepts, FiboKey) && KeysOf(r.concepts, FiboKey) == KeysOf(d.concepts, FiboKey)
    ensures DistinctKeys(r.entities, FiboKey) && KeysOf(r.entities, FiboKey) == KeysOf(d.entities, FiboKey)
    ensures DistinctKeys(r.relationships, FiboKey)
            && KeysOf(r.relationships, FiboKey) == KeysOf(d.relationships, FiboKey)
    ensures DistinctKeys(r.financialData, FinancialKey)
            && KeysOf(r.financialData, FinancialKey) == KeysOf(d.financialData, FinancialKey)
  {
    FiboData(
      Dedup(d.concepts, FiboKey),
      Dedup(d.entities, FiboKey),
      Dedup(d.relationships, FiboKey),
      Dedup(d.financialData, FinancialKey))
  }

  /** What processing `chunks` against `responses` yields: with `k` the first chunk whose
      request fails, the failure of chunk `k + 1` (1-based) of `|chunks|` after the events of
      chunks `0..k`, or, when no request fails, the de-duplicated aggregate of all answers
      after the events of every chunk. */
  predicate Processed(chunks: seq<string>, responses: seq<Option<LooseFiboData>>,
                      outcome: Result<FiboData, ChunkFailure>, log: seq<Event>)
  {
    var k := FirstFailure(responses, |chunks|);
    && (k < |chunks| ==> outcome == Failure(ChunkFailure(k + 1, |chunks|))
                         && log == Log(chunks[..k + 1], |chunks|))
    && (k == |chunks| ==> outcome == Success(Deduplicated(Aggregate(responses, k)))
                          && log == Log(chunks, |chunks|))
  }

  /** The loop of `applyFiboOntology` over the chunks; the events stop with the request of
      the failing chunk. */
  method ProcessChunks(chunks: seq<string>, responses: seq<Option<LooseFiboData>>)
    returns (outcome: Result<FiboData, ChunkFailure>, log: seq<Event>)
    ensures Processed(chunks, responses, outcome, log)
  {
    var totalChunks := |chunks|;
    log := [];
    if totalChunks == 0 {
      outcome := Success(NoFiboData);
      return;
    }
    var concepts: seq<FiboItem> := [];
    var entities: seq<FiboItem> := [];
    var relationships: seq<FiboItem> := [];
    var financialData: seq<FinancialDataItem> := [];
    for i := 0 to totalChunks
      invariant FirstFailure(responses, i) == i
      invariant log == Log(chunks[..i], totalChunks)
      invariant FiboData(concepts, entities, relationships, financialData) == Aggregate(responses, i)
    {
      assert chunks[..i + 1][..i] == chunks[..i];
      log := log + [Progress(i + 1, totalChunks), Request(chunks[i])];
      match Answer(responses, i)
      case None =>
        outcome := Failure(ChunkFailure(i + 1, totalChunks));
        return;
      case Some(result) =>
        concepts := concepts + OrEmpty(result.concepts);
        entities := entities + OrEmpty(result.entities);
        relationships := relationships + OrEmpty(result.relationships);
        financialData := financialData + OrEmpty(result.financialData);
    }
    assert chunks[..totalChunks] == chunks;
    var result := DeduplicateAll(FiboData(concepts, entities, relationships, financialData));
    outcome := Success(result);
  }

  /** The returned object: each of the four aggregated lists de-duplicated by its key. */
  method DeduplicateAll(aggregated: FiboData) returns (r: FiboData)
    ensures r == Deduplicated(aggregated)
  {
    var concepts := DeduplicateBy(aggregated.concepts, FiboKey);
    var entities := DeduplicateBy(aggregated.entities, FiboKey);
    var relationships := DeduplicateBy(aggregated.relationships, FiboKey);
    var financialData := DeduplicateBy(aggregated.financialData, FinancialKey);
    r := FiboData(concepts, entities, relationships, financialData);
  }

  /** `applyFiboOntology(text, onProgress)` (services/geminiService.ts), with the progress
      callback and the model requests recorded in `log`. */
  method ApplyFiboOntology(text: string, responses: seq<Option<LooseFiboData>>)
    returns (outcome: Result<FiboData, ChunkFailure>, log: seq<Event>)
    ensures Processed(Chunks(text, ChunkSize), responses, outcome, log)
  {
    var chunks := ChunkText(text, ChunkSize);
    outcome, log := ProcessChunks(chunks, responses);
  }

  /** A text with no paragraph (no non-whitespace content between blank lines) gives four
      empty lists, and the model is never asked and no progress is reported. */
  lemma BlankTextGivesNothing(text: string, responses: seq<Option<LooseFiboData>>,
                              outcome: Result<FiboData, ChunkFailure>, log: seq<Event>)
    requires Paragraphs(text) == []
    requires Processed(Chunks(text, ChunkSize), responses, outcome, log)
    ensures outcome == Success(NoFiboData) && log == []
  {
    ChunksEmptyIff(text, ChunkSize);
  }

  /** A failure names the first chunk whose request failed, 1-based, and the number of
      chunks; the last event is that chunk's request, and no later chunk is requested. */
  lemma FailureNamesChunk(chunks: seq<string>, responses: seq<Option<LooseFiboData>>,
                          outcome: Result<FiboData, ChunkFailure>, log: seq<Event>)
    requires Processed(chunks, responses, outcome, log) && outcome.Failure?
    ensures var n := outcome.error.chunk;
            && 1 <= n <= |chunks| == outcome.error.total
            && Answer(responses, n - 1).None?
            && (forall i :: 0 <= i < n - 1 ==> Answer(responses, i).Some?)
            && |log| == 2 * n && log[2 * n - 1] == Request(chunks[n - 1])
            && (forall e :: e in log && e.Request? ==> e.chunk in chunks[..n])
  {
    var n := outcome.error.chunk;
    forall e | e in log && e.Request? ensures e.chunk in chunks[..n] {
      LogEvents(chunks[..n], |chunks|, e);
    }
  }

  /** On success every chunk was requested, and every item any answer reported is, up to its
      key, in the result. */
  lemma SuccessKeepsEveryKey(chunks: seq<string>, responses: seq<Option<LooseFiboData>>,
                             outcome: Result<FiboData, ChunkFailure>, log: seq<Event>,
                             i: nat, x: FiboItem)
    requires Processed(chunks, responses, outcome, log) && outcome.Success?
    requires i < |chunks| && Answer(responses, i).Some?
    requires x in OrEmpty(Answer(responses, i).value.concepts)
    ensures |log| == 2 * |chunks|
    ensures FiboKey(x) in KeysOf(outcome.value.concepts, FiboKey)
  {
    var gathered := Gather(responses, |chunks|, Concepts);
    GatherMember(responses, |chunks|, Concepts, x);
    var m :| 0 <= m < |gathered| && gathered[m] == x;
    assert FiboKey(gathered[m]) in KeysOf(gathered, FiboKey);
  }
}
