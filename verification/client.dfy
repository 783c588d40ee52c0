/** The request-building and reply-handling rules of the vanilla page: the
    base URL, upload validation, the status check and its write-through to
    the recent-tasks store, and the chat request. Every network reply is an
    input; the DOM updates become a `Notice` value. */
module Client {
  import opened Common
  import opened Strings
  import opened Api
  import opened TaskStore

  const UploadPath: string := "/api/v1/upload"
  const StatusPath: string := "/api/v1/status/"
  const ChatPath: string := "/api/v1/chat"
  const ForceFlag: string := "?force=true"

  /** The `type` argument of `showResult`. */
  datatype Style = Info | Success | Error

  /** What `showResult` puts on the page: a style and the message line. */
  datatype Notice = Notice(style: Style, message: string)

  /** How a request ended: the `fetch` or the JSON parse threw with
      `message`, or a reply arrived with its `ok` flag and parsed body. */
  datatype Fetched<B> = Threw(message: string) | Replied(ok: bool, body: B)

  /** `getApiUrl()` on the text of the URL box: one trailing '/' is removed,
      and only one. */
  function ApiUrl(field: string): (url: string)
    ensures EndsWith(field, "/") ==> url + "/" == field
    ensures !EndsWith(field, "/") ==> url == field
  {
    StripTrailingSlash(field)
  }

  /** The message of an error reply: the body's `detail` when truthy,
      otherwise the operation's own fallback text. */
  function FailureMessage(detail: Option<string>, fallback: string): (m: string)
    ensures Truthy(detail) ==> m == detail.value
    ensures !Truthy(detail) ==> m == fallback
  {
    if Truthy(detail) then detail.value else fallback
  }

  /** The notice for an error caught by a request's `catch`. */
  function ErrorNotice(message: string): Notice {
    Notice(Error, "Error: " + message)
  }

  // ---------------------------------------------------------------------------
  // uploadPDF

  datatype SelectedFile = SelectedFile(name: string)

  /** The multipart POST `uploadPDF` sends. */
  datatype UploadRequest = UploadRequest(url: string, file: SelectedFile)

  /** The upload check `file.name.toLowerCase().endsWith('.pdf')`: a
      case-insensitive match of the last four characters against ".pdf". */
  function IsPdfName(name: string): (b: bool)
    ensures b <==>
      && |name| >= 4
      && name[|name| - 4] == '.'
      && name[|name| - 3] in "pP"
      && name[|name| - 2] in "dD"
      && name[|name| - 1] in "fF"
  {
    EndsWith(ToLower(name), ".pdf")
  }

  /** The local checks of `uploadPDF` and the request it then sends: no file
      and a name without a ".pdf" suffix are refused with no request; the
      URL carries `?force=true` exactly when the box is ticked. */
  function PrepareUpload(files: seq<SelectedFile>, force: bool, apiUrlField: string): (r: Result<UploadRequest, Notice>)
    ensures r.Ok? <==> |files| > 0 && IsPdfName(files[0].name)
    ensures |files| == 0 ==> r == Err(Notice(Error, "Please select a PDF file"))
    ensures |files| > 0 && !IsPdfName(files[0].name) ==> r == Err(Notice(Error, "Please select a valid PDF file"))
    ensures r.Ok? ==> r.value.file == files[0]
    ensures r.Ok? ==> ApiUrl(apiUrlField) + UploadPath <= r.value.url
    ensures r.Ok? ==> (EndsWith(r.value.url, ForceFlag) <==> force)
    ensures r.Ok? ==> |r.value.url| == |ApiUrl(apiUrlField) + UploadPath| + (if force then |ForceFlag| else 0)
  {
    if |files| == 0 then Err(Notice(Error, "Please select a PDF file"))
    else
      var file := files[0];
      if !IsPdfName(file.name) then Err(Notice(Error, "Please select a valid PDF file"))
      else
        var base := ApiUrl(apiUrlField) + UploadPath;
        var url := base + (if force then ForceFlag else "");
        assert base[|base| - |UploadPath|..] == UploadPath;
        assert !force ==> url[|url| - |ForceFlag|] == 'i';
        Ok(UploadRequest(url, file))
  }

  /** The parsed body of an upload reply. */
  datatype UploadBody = UploadBody(
    message: string,
    taskId: Option<string>,
    docId: Option<string>,
    detail: Option<string>)

  /** The record `uploadPDF` saves for a reply that names a task. */
  function PendingTask(body: UploadBody, file: SelectedFile, now: string): Task
    requires body.taskId.Some?
  {
    Task(body.taskId.value, body.docId, file.name, now, "pending")
  }

  /** Whether an upload reply makes the page save a recent task: an OK reply
      whose `task_id` is truthy. */
  predicate SavesTask(reply: Fetched<UploadBody>) {
    reply.Replied? && reply.ok && Truthy(reply.body.taskId)
  }

  /** The task-id and document-id boxes of the page. */
  datatype Boxes = Boxes(taskId: string, docId: string)

  /** What a DOM input shows after `value` is set to a reply field: the text
      itself, or "undefined" when the reply has no such field. */
  function BoxText(field: Option<string>): string {
    match field
    case Some(v) => v
    case None => "undefined"
  }

  /** What `uploadPDF` does with the reply: a task is saved, as "pending",
      and the task-id and document-id boxes are filled from the reply, exactly
      when the reply is OK and carries a truthy `task_id`; an error reply
      shows its `detail` or "Upload failed". */
  function FinishUpload(stored: Stored, boxes: Boxes, file: SelectedFile, now: string, reply: Fetched<UploadBody>): (r: (Stored, Boxes, Notice))
    ensures SavesTask(reply) ==> r.0 == SaveTask(stored, PendingTask(reply.body, file, now))
    ensures SavesTask(reply) ==> r.1 == Boxes(reply.body.taskId.value, BoxText(reply.body.docId))
    ensures !SavesTask(reply) ==> r.0 == stored && r.1 == boxes
    ensures r.2.style == Success <==> reply.Replied? && reply.ok
    ensures reply.Replied? && reply.ok ==> r.2 == Notice(Success, reply.body.message)
    ensures reply.Replied? && !reply.ok ==> r.2 == ErrorNotice(FailureMessage(reply.body.detail, "Upload failed"))
    ensures reply.Threw? ==> r.2 == ErrorNotice(reply.message)
  {
    match reply
    case Threw(message) => (stored, boxes, ErrorNotice(message))
    case Replied(ok, body) =>
      if !ok then (stored, boxes, ErrorNotice(FailureMessage(body.detail, "Upload failed")))
      else if Truthy(body.taskId) then
        (SaveTask(stored, PendingTask(body, file, now)),
         Boxes(body.taskId.value, BoxText(body.docId)),
         Notice(Success, body.message))
      else (stored, boxes, Notice(Success, body.message))
  }

  /** After an upload that names a task not stored before, that task is the
      first recent task, its status is "pending", the store is still valid,
      and the task-id box holds the new id. */
  lemma UploadRecordsPendingTask(stored: Stored, boxes: Boxes, file: SelectedFile, now: string, reply: Fetched<UploadBody>)
    requires Valid(Load(stored))
    requires SavesTask(reply)
    requires !HasId(Load(stored), reply.body.taskId.value)
    ensures var r := FinishUpload(stored, boxes, file, now, reply);
      var tasks := Load(r.0);
      && Valid(tasks)
      && tasks[0] == PendingTask(reply.body, file, now)
      && tasks[0].status == "pending"
      && r.1.taskId == tasks[0].taskId
  {
  }

  // ---------------------------------------------------------------------------
  // checkStatus

  /** The local check of `checkStatus` and the URL it then fetches: the
      trimmed task id must be non-empty. */
  function PrepareStatusCheck(taskIdField: string, apiUrlField: string): (r: Result<(string, string), Notice>)
    ensures r.Ok? <==> |Trim(taskIdField)| > 0
    ensures r.Err? ==> r.error == Notice(Error, "Please enter a task ID")
    ensures r.Ok? ==> r.value.0 == Trim(taskIdField)
    ensures r.Ok? ==> r.value.1 == ApiUrl(apiUrlField) + StatusPath + r.value.0
  {
    var taskId := Trim(taskIdField);
    if |taskId| == 0 then Err(Notice(Error, "Please enter a task ID"))
    else Ok((taskId, ApiUrl(apiUrlField) + StatusPath + taskId))
  }

  /** The style of a status reply, decided on the status as the server sent it. */
  function StatusStyle(status: string): (s: Style)
    ensures s == Success <==> status == "SUCCESS"
    ensures s == Error <==> status == "FAILURE"
    ensures s == Info <==> status != "SUCCESS" && status != "FAILURE"
  {
    if status == "SUCCESS" then Success
    else if status == "FAILURE" then Error
    else Info
  }

  /** The parsed body of a status reply. */
  datatype StatusBody = StatusBody(status: string, detail: Option<string>)

  /** What `checkStatus` does with the reply: an OK reply writes the
      lower-cased status through to the record under the trimmed id; any
      other outcome leaves the store alone. */
  function FinishStatusCheck(stored: Stored, taskId: string, reply: Fetched<StatusBody>): (r: (Stored, Notice))
    ensures reply.Replied? && reply.ok ==>
      && r.0 == UpdateTaskStatus(stored, taskId, ToLower(reply.body.status))
      && r.1 == Notice(StatusStyle(reply.body.status), "Task Status: " + reply.body.status)
    ensures !(reply.Replied? && reply.ok) ==> r.0 == stored && r.1.style == Error
    ensures reply.Replied? && !reply.ok ==> r.1 == ErrorNotice(FailureMessage(reply.body.detail, "Status check failed"))
    ensures reply.Threw? ==> r.1 == ErrorNotice(reply.message)
  {
    match reply
    case Threw(message) => (stored, ErrorNotice(message))
    case Replied(ok, body) =>
      if !ok then (stored, ErrorNotice(FailureMessage(body.detail, "Status check failed")))
      else
        (UpdateTaskStatus(stored, taskId, ToLower(body.status)),
         Notice(StatusStyle(body.status), "Task Status: " + body.status))
  }

  /** After a status check the record under the checked id carries the
      lower-cased status and nothing else in the store changes; a check for
      an id that is not stored leaves the store as it was. */
  lemma StatusCheckWritesThrough(stored: Stored, taskId: string, body: StatusBody)
    requires Valid(Load(stored))
    ensures var after := FinishStatusCheck(stored, taskId, Replied(true, body)).0;
      && Valid(Load(after))
      && |Load(after)| == |Load(stored)|
      && (!HasId(Load(stored), taskId) ==> after == stored)
      && forall j | 0 <= j < |Load(stored)| ::
           if Load(stored)[j].taskId == taskId
           then Load(after)[j] == Load(stored)[j].(status := ToLower(body.status))
           else Load(after)[j] == Load(stored)[j]
  {
  }

  // ---------------------------------------------------------------------------
  // sendChat

  /** The local check of `sendChat`, the body it then posts and where it
      posts it: the query is trimmed and must be non-empty; `doc_id` is sent
      exactly when the trimmed document id is non-empty; the request goes to
      the chat endpoint under the configured API URL. */
  function PrepareChat(queryField: string, docIdField: string, apiUrlField: string): (r: Result<(ChatRequest, string), Notice>)
    ensures r.Ok? <==> |Trim(queryField)| > 0
    ensures r.Err? ==> r.error == Notice(Error, "Please enter a query")
    ensures r.Ok? ==> r.value.0.query == Trim(queryField)
    ensures r.Ok? ==> (r.value.0.docId.Some? <==> |Trim(docIdField)| > 0)
    ensures r.Ok? && r.value.0.docId.Some? ==> r.value.0.docId.value == Trim(docIdField)
    ensures r.Ok? ==> r.value.1 == ApiUrl(apiUrlField) + ChatPath
  {
    var query := Trim(queryField);
    if |query| == 0 then Err(Notice(Error, "Please enter a query"))
    else Ok((ChatRequest(query, NonEmpty(Trim(docIdField))), ApiUrl(apiUrlField) + ChatPath))
  }

  /** The parsed body of a chat reply. */
  datatype ChatBody = ChatBody(answer: string, citations: Option<seq<Citation>>, detail: Option<string>)

  /** What the page shows for a chat reply: the notice, the answer when the
      reply is OK, and the citation lines. */
  datatype ChatView = ChatView(notice: Notice, answer: Option<string>, citations: seq<CitationLine>)

  function FinishChat(reply: Fetched<ChatBody>): (v: ChatView)
    ensures v.answer.Some? <==> reply.Replied? && reply.ok
    ensures v.answer.Some? ==> v.answer.value == reply.body.answer && v.notice.style == Success
    ensures reply.Replied? && reply.ok ==> v.notice == Notice(Success, "Query completed successfully")
    ensures reply.Threw? ==> v.notice == ErrorNotice(reply.message)
    ensures reply.Replied? && !reply.ok ==> v.notice == ErrorNotice(FailureMessage(reply.body.detail, "Chat request failed"))
    ensures reply.Replied? && reply.ok ==>
      v.citations == CitationLines(ChatResponse(reply.body.answer, reply.body.citations))
    ensures !(reply.Replied? && reply.ok) ==> v.citations == []
  {
    match reply
    case Threw(message) => ChatView(ErrorNotice(message), None, [])
    case Replied(ok, body) =>
      if !ok then ChatView(ErrorNotice(FailureMessage(body.detail, "Chat request failed")), None, [])
      else
        ChatView(Notice(Success, "Query completed successfully"), Some(body.answer),
                 CitationLines(ChatResponse(body.answer, body.citations)))
  }

  // ---------------------------------------------------------------------------
  // Worked cases

  /** "report.PDF" passes the suffix check and "report.docx" does not. */
  lemma UploadNameExamples()
    ensures IsPdfName("report.PDF")
    ensures !IsPdfName("report.docx")
  {
  }

  /** An upload refused with `detail` "duplicate file" shows that text and
      leaves the store and the boxes as they were. */
  lemma DuplicateDetailShown(stored: Stored, boxes: Boxes, file: SelectedFile, now: string)
    ensures var r := FinishUpload(stored, boxes, file, now, Replied(false, UploadBody("", None, None, Some("duplicate file"))));
      && r.0 == stored
      && r.1 == boxes
      && r.2 == Notice(Error, "Error: duplicate file")
  {
  }
}
