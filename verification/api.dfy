/** The JSON shapes the chat endpoint and both front ends agree on, and the
    citation display rules the two front ends share: the vanilla page and the
    Angular template render a citation the same way. */
module Api {
  import opened Common

  /** One supporting source of an answer; every field but the snippet may be
      missing or null. */
  datatype Citation = Citation(
    filename: Option<string>,
    page: Option<int>,
    docId: Option<string>,
    textSnippet: string)

  /** The body of `POST /api/v1/chat`: `doc_id` is left out to search every document. */
  datatype ChatRequest = ChatRequest(query: string, docId: Option<string>)

  /** The reply of the chat endpoint. */
  datatype ChatResponse = ChatResponse(answer: string, citations: Option<seq<Citation>>)

  /** A citation as displayed: its 1-based source number, the name shown, the
      page and document id when they are displayed, and the snippet. */
  datatype CitationLine = CitationLine(
    source: nat,
    name: string,
    page: Option<int>,
    docId: Option<string>,
    snippet: string)

  /** The citation section is rendered only for a present, non-empty list. */
  predicate ShowsCitations(r: ChatResponse) {
    r.citations.Some? && |r.citations.value| > 0
  }

  /** How one citation is displayed: `filename || 'Unknown'`, the page only
      when truthy (so page 0 is hidden), the document id only when truthy. */
  function CitationLineOf(c: Citation, index: nat): CitationLine {
    CitationLine(
      index + 1,
      if Truthy(c.filename) then c.filename.value else "Unknown",
      if TruthyNumber(c.page) then c.page else None,
      if Truthy(c.docId) then c.docId else None,
      c.textSnippet)
  }

  /** The displayed citations of a chat reply: one line per citation, in
      order and numbered from 1, or none at all when the list is absent or
      empty. */
  function CitationLines(r: ChatResponse): (lines: seq<CitationLine>)
    ensures |lines| > 0 <==> ShowsCitations(r)
    ensures ShowsCitations(r) ==> |lines| == |r.citations.value|
    ensures forall k | 0 <= k < |lines| ::
      && lines[k].source == k + 1
      && lines[k].snippet == r.citations.value[k].textSnippet
      && (lines[k].name == "Unknown" <==> !Truthy(r.citations.value[k].filename) || r.citations.value[k].filename.value == "Unknown")
      && (Truthy(r.citations.value[k].filename) ==> lines[k].name == r.citations.value[k].filename.value)
      && (lines[k].page.Some? <==> TruthyNumber(r.citations.value[k].page))
      && (lines[k].page.Some? ==> lines[k].page == r.citations.value[k].page)
      && (lines[k].docId.Some? <==> Truthy(r.citations.value[k].docId))
      && (lines[k].docId.Some? ==> lines[k].docId == r.citations.value[k].docId)
  {
    if ShowsCitations(r) then
      var cs := r.citations.value;
      seq(|cs|, k requires 0 <= k < |cs| => CitationLineOf(cs[k], k))
    else []
  }
}
