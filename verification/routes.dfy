/** The response shaping of the FastAPI handlers: citation, context and
    prompt assembly in `chat`, the size limit and the duplicate/force
    decision in `upload_pdf`, and the body of `get_status`. The embedding
    model, the vector store, the language model, hashing, the file system
    and the task queue are inputs. */
module Routes {
  import opened Common
  import opened Strings
  import opened Api

  // ---------------------------------------------------------------------------
  // Search

  /** The payload stored with each indexed chunk; any key may be missing. */
  datatype Payload = Payload(
    text: Option<string>,
    docId: Option<string>,
    page: Option<int>,
    filename: Option<string>)

  /** The points whose `doc_id` equals `docId` when it is truthy; all of
      them otherwise. Every matching point is kept and nothing else is. */
  function MatchDoc(points: seq<Payload>, docId: Option<string>): (r: seq<Payload>)
    ensures |r| <= |points|
    ensures forall h | h in r :: h in points
    ensures Truthy(docId) ==> forall h | h in r :: h.docId == docId
    ensures Truthy(docId) ==> forall h | h in points && h.docId == docId :: h in r
    ensures !Truthy(docId) ==> r == points
  {
    if !Truthy(docId) || |points| == 0 then points
    else
      var rest := MatchDoc(points[1..], docId);
      assert forall h | h in rest :: h in points;
      if points[0].docId == docId then [points[0]] + rest else rest
  }

  /** The filter keeps the ranking order: filtering two runs of points gives
      the matches of the first run followed by those of the second. */
  lemma {:induction false} MatchDocAppend(a: seq<Payload>, b: seq<Payload>, docId: Option<string>)
    ensures MatchDoc(a + b, docId) == MatchDoc(a, docId) + MatchDoc(b, docId)
  {
    if !Truthy(docId) {
    } else if |a| == 0 {
      assert a + b == b;
    } else {
      assert (a + b)[0] == a[0];
      assert (a + b)[1..] == a[1..] + b;
      MatchDocAppend(a[1..], b, docId);
    }
  }

  /** `search_vectors` as the handler sees it: from the points ranked by
      similarity, the first `topK` of those that match the document filter. */
  function Search(ranked: seq<Payload>, topK: nat, docId: Option<string>): (hits: seq<Payload>)
    ensures hits <= MatchDoc(ranked, docId)
    ensures |hits| == Min(|MatchDoc(ranked, docId)|, topK)
    ensures |hits| <= topK
    ensures forall h | h in hits :: h in ranked
    ensures Truthy(docId) ==> forall h | h in hits :: h.docId == docId
  {
    var matching := MatchDoc(ranked, docId);
    if |matching| <= topK then matching else matching[..topK]
  }

  // ---------------------------------------------------------------------------
  // chat

  const SnippetChars: nat := 100
  const SnippetSuffix: string := "..."

  /** `payload.get("text", "")`. */
  function HitText(p: Payload): string {
    p.text.GetOr("")
  }

  /** `text[:100] + "..."`: the first hundred characters, and always the
      suffix, so the snippet is `min(len, 100) + 3` long. */
  function Snippet(text: string): (s: string)
    ensures |s| == Min(|text|, SnippetChars) + |SnippetSuffix|
    ensures s[..|s| - |SnippetSuffix|] <= text
    ensures EndsWith(s, SnippetSuffix)
  {
    var s := text[..Min(|text|, SnippetChars)] + SnippetSuffix;
    assert s[..|s| - |SnippetSuffix|] == text[..Min(|text|, SnippetChars)];
    s
  }

  /** The citation built for one hit. */
  function CitationOf(p: Payload): Citation {
    Citation(p.filename, p.page, p.docId, Snippet(HitText(p)))
  }

  /** One citation per hit, in hit order, with `doc_id`, `page` and
      `filename` copied from the payload and a snippet of its text. */
  function Citations(hits: seq<Payload>): (cs: seq<Citation>)
    ensures |cs| == |hits|
    ensures forall k | 0 <= k < |hits| ::
      && cs[k].docId == hits[k].docId
      && cs[k].page == hits[k].page
      && cs[k].filename == hits[k].filename
      && cs[k].textSnippet == Snippet(HitText(hits[k]))
  {
    seq(|hits|, k requires 0 <= k < |hits| => CitationOf(hits[k]))
  }

  /** The context block of one hit: `f"---\n{text}\n"`. */
  function Block(p: Payload): string {
    "---\n" + HitText(p) + "\n"
  }

  /** The context text: the blocks of the hits, concatenated in order. It
      is empty exactly when there are no hits; otherwise it opens with a
      separator and closes with a newline. */
  function Context(hits: seq<Payload>): (r: string)
    ensures r == "" <==> |hits| == 0
    ensures |hits| > 0 ==> "---\n" <= r && EndsWith(r, "\n")
  {
    if |hits| == 0 then ""
    else
      var b := Block(hits[0]);
      var rest := Context(hits[1..]);
      assert (b + rest)[..4] == b[..4];
      assert (b + rest)[|b + rest| - 1] == (if |rest| == 0 then b[|b| - 1] else rest[|rest| - 1]);
      b + rest
  }

  /** The context of two runs of hits is the first context followed by the second. */
  lemma {:induction false} ContextAppend(a: seq<Payload>, b: seq<Payload>)
    ensures Context(a + b) == Context(a) + Context(b)
  {
    if |a| == 0 {
      assert a + b == b;
    } else {
      assert (a + b)[0] == a[0];
      assert (a + b)[1..] == a[1..] + b;
      ContextAppend(a[1..], b);
    }
  }

  /** Hit `k`'s block sits between the blocks of the hits before it and those
      after it, and a hit without text contributes the empty block. */
  lemma ContextInOrder(hits: seq<Payload>, k: nat)
    requires k < |hits|
    ensures Context(hits) == Context(hits[..k]) + Block(hits[k]) + Context(hits[k + 1..])
  {
    var pre, tail := hits[..k], hits[k..];
    assert hits == pre + tail;
    ContextAppend(pre, tail);
    assert tail[0] == hits[k] && tail[1..] == hits[k + 1..];
  }

  /** A hit without text contributes the block "---\n\n" and the snippet "...". */
  lemma MissingText(p: Payload)
    requires p.text.None?
    ensures Block(p) == "---\n\n"
    ensures CitationOf(p).textSnippet == "..."
  {
  }

  const SystemPrompt: string :=
    "You are a helpful assistant. Use the following context to answer the user's question. If the answer is not in the context, say you don't know."

  const ContextLabel: string := "Context:\n"
  const QuestionLabel: string := "\n\nQuestion: "

  /** The user prompt: the labelled context, then the labelled question, so
      both can be read back from it. */
  function Prompt(context: string, query: string): (p: string)
    ensures ContextLabel + context <= p
    ensures EndsWith(p, QuestionLabel + query)
    ensures |p| == |ContextLabel| + |context| + |QuestionLabel| + |query|
  {
    var p := ContextLabel + context + QuestionLabel + query;
    assert p == (ContextLabel + context) + (QuestionLabel + query);
    p
  }

  /** One turn of the handler's loop: hit `k` adds its block to the context
      and its citation to the list. */
  lemma ChatStep(hits: seq<Payload>, k: nat)
    requires k < |hits|
    ensures Context(hits[..k + 1]) == Context(hits[..k]) + Block(hits[k])
    ensures Citations(hits[..k + 1]) == Citations(hits[..k]) + [CitationOf(hits[k])]
  {
    ContextAppend(hits[..k], [hits[k]]);
    assert hits[..k + 1] == hits[..k] + [hits[k]];
    assert Context([hits[k]]) == Block(hits[k]) + Context([]);
    var a, b := Citations(hits[..k + 1]), Citations(hits[..k]) + [CitationOf(hits[k])];
    assert forall j | 0 <= j < |a| :: a[j] == b[j];
  }

  /** The `chat` handler after the search: the loop over the hits builds the
      context and the citations together, and the answer is what the
      language model `generate` returns for the prompt and the fixed system
      prompt. */
  method Chat(query: string, hits: seq<Payload>, generate: (string, string) -> string)
    returns (response: ChatResponse, prompt: string)
    ensures prompt == Prompt(Context(hits), query)
    ensures response.answer == generate(prompt, SystemPrompt)
    ensures response.citations == Some(Citations(hits))
  {
    var contextText := "";
    var citations: seq<Citation> := [];
    var k := 0;
    while k < |hits|
      invariant 0 <= k <= |hits|
      invariant contextText == Context(hits[..k])
      invariant citations == Citations(hits[..k])
    {
      var hit := hits[k];
      var text := HitText(hit);
      ChatStep(hits, k);
      contextText := contextText + ("---\n" + text + "\n");
      citations := citations + [Citation(hit.filename, hit.page, hit.docId, text[..Min(|text|, SnippetChars)] + SnippetSuffix)];
      k := k + 1;
    }
    assert hits[..|hits|] == hits;
    prompt := "Context:\n" + contextText + "\n\nQuestion: " + query;
    var answer := generate(prompt, SystemPrompt);
    response := ChatResponse(answer, Some(citations));
  }

  // ---------------------------------------------------------------------------
  // upload_pdf

  const PdfContentType: string := "application/pdf"
  const BytesPerMb: nat := 1024 * 1024

  /** The byte limit `MAX_UPLOAD_MB * 1024 * 1024`. */
  function MaxUploadBytes(maxMb: nat): nat {
    maxMb * BytesPerMb
  }

  /** The total size of the reads. */
  function Sum(sizes: seq<nat>): nat {
    if |sizes| == 0 then 0 else Sum(sizes[..|sizes| - 1]) + sizes[|sizes| - 1]
  }

  /** A prefix of the reads never adds up to more than all of them. */
  lemma {:induction false} SumPrefix(sizes: seq<nat>, k: nat)
    requires k <= |sizes|
    ensures Sum(sizes[..k]) <= Sum(sizes)
    decreases |sizes| - k
  {
    if k < |sizes| {
      SumPrefix(sizes, k + 1);
      assert sizes[..k + 1][..k] == sizes[..k];
    } else {
      assert sizes[..k] == sizes;
    }
  }

  /** How the streaming read ended: every read was written, or the running
      total passed the limit on read number `readCount`. */
  datatype ReadOutcome = Complete(total: nat) | Exceeded(readCount: nat)

  /** The streaming loop: add each read's size to the running total and stop
      at the first read that takes it past the limit. It stops exactly when
      the whole file is larger than the limit. */
  method ReadUpload(sizes: seq<nat>, limit: nat) returns (outcome: ReadOutcome)
    ensures outcome.Exceeded? <==> Sum(sizes) > limit
    ensures outcome.Complete? ==> outcome.total == Sum(sizes)
    ensures outcome.Exceeded? ==>
      && 1 <= outcome.readCount <= |sizes|
      && Sum(sizes[..outcome.readCount]) > limit
      && Sum(sizes[..outcome.readCount - 1]) <= limit
  {
    var total := 0;
    var k := 0;
    while k < |sizes|
      invariant 0 <= k <= |sizes|
      invariant total == Sum(sizes[..k])
      invariant total <= limit
    {
      assert sizes[..k + 1][..k] == sizes[..k];
      total := total + sizes[k];
      if total > limit {
        SumPrefix(sizes, k + 1);
        return Exceeded(k + 1);
      }
      k := k + 1;
    }
    assert sizes[..k] == sizes;
    return Complete(total);
  }

  /** Why an upload is refused. */
  datatype UploadError = NotPdf | FileTooLarge(maxMb: nat)

  /** The `HTTPException` a refusal raises: its status code and `detail`. */
  datatype Rejection = Rejection(statusCode: int, detail: string)

  const RejectStatusCode: int := 400
  const NotPdfDetail: string := "Only PDF files are accepted."
  const TooLargePrefix: string := "File exceeds maximum size of "
  const TooLargeSuffix: string := "MB"

  /** The `detail` of a refusal; between the fixed prefix and the "MB"
      suffix stands the plain decimal rendering of the size limit, which
      reads back as that limit. */
  function ErrorDetail(e: UploadError): (d: string)
    ensures e.NotPdf? ==> d == NotPdfDetail
    ensures e.FileTooLarge? ==>
      && TooLargePrefix <= d
      && EndsWith(d, TooLargeSuffix)
      && |d| > |TooLargePrefix| + |TooLargeSuffix|
      && d[|TooLargePrefix|..|d| - |TooLargeSuffix|] == Decimal(e.maxMb)
      && ParseDecimal(d[|TooLargePrefix|..|d| - |TooLargeSuffix|]) == e.maxMb
  {
    match e
    case NotPdf => NotPdfDetail
    case FileTooLarge(maxMb) =>
      var digits := Decimal(maxMb);
      var d := TooLargePrefix + digits + TooLargeSuffix;
      assert d[..|TooLargePrefix|] == TooLargePrefix;
      assert d[|d| - |TooLargeSuffix|..] == TooLargeSuffix;
      assert d[|TooLargePrefix|..|d| - |TooLargeSuffix|] == digits;
      d
  }

  /** Different refusals carry different details. */
  lemma ErrorDetailInjective(e1: UploadError, e2: UploadError)
    ensures ErrorDetail(e1) == ErrorDetail(e2) ==> e1 == e2
  {
  }

  /** The exception raised for a refusal: status 400 and its detail. */
  function Reject(e: UploadError): (x: Rejection)
    ensures x.statusCode == RejectStatusCode
    ensures x.detail == ErrorDetail(e)
  {
    Rejection(RejectStatusCode, ErrorDetail(e))
  }

  /** The body of an accepted upload: `status` appears only for a duplicate,
      `task_id` only when processing was queued. */
  datatype UploadReply = UploadReply(
    message: string,
    docId: string,
    status: Option<string>,
    taskId: Option<string>)

  const ExistingMessage: string := "File already exists. Use force=true to re-process."
  const QueuedMessage: string := "File uploaded and processing started."

  /** What the handler learns from outside: the SHA-256 hex digest of the
      content, whether `<digest>.pdf` is already stored, and the id the queue
      gives a new task. */
  datatype UploadFacts = UploadFacts(fileHash: string, finalExists: bool, newTaskId: string)

  /** The reply for an upload that passed the checks: the document id is the
      content hash; a file already stored is reported as "existing" with no
      task unless `force` is set, and any other upload queues a task. */
  function UploadDecision(force: bool, facts: UploadFacts): (r: UploadReply)
    ensures r.docId == facts.fileHash
    ensures r.taskId.None? <==> facts.finalExists && !force
    ensures r.status.Some? <==> facts.finalExists && !force
    ensures facts.finalExists && !force ==>
      r == UploadReply(ExistingMessage, facts.fileHash, Some("existing"), None)
    ensures !(facts.finalExists && !force) ==>
      r == UploadReply(QueuedMessage, facts.fileHash, None, Some(facts.newTaskId))
  {
    if facts.finalExists && !force then UploadReply(ExistingMessage, facts.fileHash, Some("existing"), None)
    else UploadReply(QueuedMessage, facts.fileHash, None, Some(facts.newTaskId))
  }

  /** `upload_pdf`: refuse anything but `application/pdf`; refuse a file whose
      total size passes the limit; otherwise the document id is the content
      hash, and an already stored file without `force` is reported as
      "existing" with no task, while any other upload queues a task. */
  method UploadPdf(contentType: string, sizes: seq<nat>, force: bool, maxMb: nat, facts: UploadFacts)
    returns (r: Result<UploadReply, Rejection>)
    ensures contentType != PdfContentType ==> r == Err(Reject(NotPdf))
    ensures contentType == PdfContentType && Sum(sizes) > MaxUploadBytes(maxMb) ==> r == Err(Reject(FileTooLarge(maxMb)))
    ensures r.Err? ==> r.error.statusCode == RejectStatusCode
    ensures r.Ok? <==> contentType == PdfContentType && Sum(sizes) <= MaxUploadBytes(maxMb)
    ensures r.Ok? ==> r.value == UploadDecision(force, facts)
    ensures r.Ok? ==> r.value.docId == facts.fileHash
    ensures r.Ok? ==> (r.value.taskId.None? <==> facts.finalExists && !force)
    ensures r.Ok? && facts.finalExists && !force ==>
      r.value == UploadReply(ExistingMessage, facts.fileHash, Some("existing"), None)
    ensures r.Ok? && !(facts.finalExists && !force) ==>
      r.value == UploadReply(QueuedMessage, facts.fileHash, None, Some(facts.newTaskId))
  {
    if contentType != PdfContentType {
      return Err(Rejection(RejectStatusCode, "Only PDF files are accepted."));
    }
    var read := ReadUpload(sizes, MaxUploadBytes(maxMb));
    if read.Exceeded? {
      return Err(Rejection(RejectStatusCode, "File exceeds maximum size of " + Decimal(maxMb) + "MB"));
    }
    var docId := facts.fileHash;
    if facts.finalExists && !force {
      return Ok(UploadReply(ExistingMessage, docId, Some("existing"), None));
    }
    return Ok(UploadReply(QueuedMessage, docId, None, Some(facts.newTaskId)));
  }

  // ---------------------------------------------------------------------------
  // get_status

  /** What the task queue reports for a task id. */
  datatype TaskState<V> = TaskState(status: string, ready: bool, info: V, result: V)

  /** The body of `GET /status/{task_id}`; `info` and `result` are keys that
      may be absent. */
  datatype StatusResponse<V> = StatusResponse(taskId: string, status: string, info: Option<V>, result: Option<V>)

  /** `get_status`: always the id and the status; the progress `info` exactly
      for "PROCESSING"; otherwise the `result` exactly when the task is ready.
      The two extra keys never appear together. */
  function GetStatus<V>(taskId: string, t: TaskState<V>): (r: StatusResponse<V>)
    ensures r.taskId == taskId && r.status == t.status
    ensures r.info.Some? <==> t.status == "PROCESSING"
    ensures r.result.Some? <==> t.status != "PROCESSING" && t.ready
    ensures r.info.Some? ==> r.info.value == t.info
    ensures r.result.Some? ==> r.result.value == t.result
    ensures !(r.info.Some? && r.result.Some?)
  {
    if t.status == "PROCESSING" then StatusResponse(taskId, t.status, Some(t.info), None)
    else if t.ready then StatusResponse(taskId, t.status, None, Some(t.result))
    else StatusResponse(taskId, t.status, None, None)
  }
}
