/** How the server's replies meet the page's handling of them: which uploads
    end up in the recent-tasks store, and how the citations the server
    builds are displayed. */
module Workflow {
  import opened Common
  import opened TaskStore
  import Client
  import Routes

  /** The body the vanilla page reads from an accepted upload reply. */
  function UploadBodyOf(reply: Routes.UploadReply): Client.UploadBody {
    Client.UploadBody(reply.message, reply.taskId, Some(reply.docId), None)
  }

  /** A duplicate upload without `force` gets no `task_id`, so the page
      records nothing; a queued upload with a non-empty task id becomes the
      first recent task, "pending", under the content hash. */
  lemma UploadOutcomeInStore(stored: Stored, boxes: Client.Boxes, file: Client.SelectedFile, now: string,
                             force: bool, facts: Routes.UploadFacts)
    requires Valid(Load(stored))
    requires |facts.newTaskId| > 0 && !HasId(Load(stored), facts.newTaskId)
    ensures var reply := Routes.UploadDecision(force, facts);
      var r := Client.FinishUpload(stored, boxes, file, now, Client.Replied(true, UploadBodyOf(reply)));
      && (facts.finalExists && !force ==> r.0 == stored && r.1 == boxes)
      && (!(facts.finalExists && !force) ==>
            && Valid(Load(r.0))
            && Load(r.0)[0] == Task(facts.newTaskId, Some(facts.fileHash), file.name, now, "pending")
            && r.1 == Client.Boxes(facts.newTaskId, facts.fileHash))
  {
  }

  /** The page shows one citation line per search hit, in hit order, with the
      hit's snippet, its file name or "Unknown", and no citation section at
      all when the search found nothing. */
  lemma HitsDisplayedInOrder(hits: seq<Routes.Payload>, answer: string)
    ensures var view := Client.FinishChat(Client.Replied(true, Client.ChatBody(answer, Some(Routes.Citations(hits)), None)));
      && view.answer == Some(answer)
      && |view.citations| == |hits|
      && forall k | 0 <= k < |hits| ::
           && view.citations[k].source == k + 1
           && view.citations[k].snippet == Routes.Snippet(Routes.HitText(hits[k]))
           && (Truthy(hits[k].filename) ==> view.citations[k].name == hits[k].filename.value)
           && (!Truthy(hits[k].filename) ==> view.citations[k].name == "Unknown")
  {
  }
}
