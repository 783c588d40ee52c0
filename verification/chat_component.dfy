/** The Angular chat component: its state, the transitions of `sendQuery`
    (start, reply, error), the `initialDocId` effect, and the send-button
    rule of its template. The HTTP call is the environment: a started query
    is answered later by a `Respond` or `Fail` event. */
module ChatComponent {
  import opened Common
  import opened Api

  /** The component's fields and signals. */
  datatype State = State(
    query: string,
    docId: string,
    isLoading: bool,
    result: Option<ChatResponse>,
    error: Option<string>)

  /** The state right after construction. */
  function Initial(): State {
    State("", "", false, None, None)
  }

  /** The `initialDocId` effect: a non-empty input overwrites `docId`, an
      empty one leaves it alone. */
  function ApplyInitialDocId(s: State, id: string): (t: State)
    ensures |id| > 0 ==> t == s.(docId := id)
    ensures |id| == 0 ==> t == s
  {
    if |id| > 0 then s.(docId := id) else s
  }

  /** `setDocId(id)`. */
  function SetDocId(s: State, id: string): (t: State)
    ensures t.docId == id && t.(docId := s.docId) == s
  {
    s.(docId := id)
  }

  /** The template's `[disabled]="!query || isLoading()"`, negated. */
  predicate SendEnabled(s: State) {
    |s.query| > 0 && !s.isLoading
  }

  /** `sendQuery()` up to the HTTP call: an empty query changes nothing and
      sends nothing; otherwise loading starts, the previous result and error
      are cleared, and the request carries the query untouched (no trim)
      and `doc_id` exactly when `docId` is non-empty. It does not look at
      `isLoading` itself. */
  function SendQuery(s: State): (r: (State, Option<ChatRequest>))
    ensures |s.query| == 0 ==> r == (s, None)
    ensures |s.query| > 0 ==>
      && r.0 == s.(isLoading := true, result := None, error := None)
      && r.1.Some?
      && r.1.value.query == s.query
      && (r.1.value.docId.Some? <==> |s.docId| > 0)
      && (r.1.value.docId.Some? ==> r.1.value.docId.value == s.docId)
  {
    if |s.query| == 0 then (s, None)
    else
      (s.(isLoading := true, result := None, error := None),
       Some(ChatRequest(s.query, NonEmpty(s.docId))))
  }

  /** The `next` callback: loading ends and the reply becomes the result;
      the error signal is not touched. */
  function OnResponse(s: State, response: ChatResponse): (t: State)
    ensures !t.isLoading && t.result == Some(response) && t.error == s.error
    ensures t.query == s.query && t.docId == s.docId
  {
    s.(isLoading := false, result := Some(response))
  }

  /** The `error` callback: loading ends and the error reads
      "Error: " + message; the result signal is not touched. */
  function OnError(s: State, message: string): (t: State)
    ensures !t.isLoading && t.error == Some("Error: " + message) && t.result == s.result
    ensures t.query == s.query && t.docId == s.docId
  {
    s.(isLoading := false, error := Some("Error: " + message))
  }

  // ---------------------------------------------------------------------------
  // Sessions

  /** What can happen to the component: typing into the two boxes, the
      `initialDocId` input changing, a click on the send button, and the
      reply or the failure of the request in flight. */
  datatype Event =
    | TypeQuery(text: string)
    | TypeDocId(text: string)
    | InitialDocId(id: string)
    | Click
    | Respond(response: ChatResponse)
    | Fail(message: string)

  /** The component together with the number of requests still in flight. */
  datatype Session = Session(state: State, inFlight: nat)

  /** One event, with the button guarded as the template guards it: a click
      on a disabled button does nothing, and a reply or failure only arrives
      for a request that is in flight. */
  function Step(ss: Session, e: Event): (r: Session)
    ensures e.Click? && !SendEnabled(ss.state) ==> r == ss
    ensures e.Click? && SendEnabled(ss.state) ==>
      && r.inFlight == ss.inFlight + 1
      && r.state.isLoading && r.state.result.None? && r.state.error.None?
      && r.state.query == ss.state.query && r.state.docId == ss.state.docId
    ensures (e.Respond? || e.Fail?) && ss.inFlight == 0 ==> r == ss
    ensures e.Respond? && ss.inFlight > 0 ==>
      && r.inFlight == ss.inFlight - 1
      && !r.state.isLoading && r.state.result == Some(e.response) && r.state.error == ss.state.error
    ensures e.Fail? && ss.inFlight > 0 ==>
      && r.inFlight == ss.inFlight - 1
      && !r.state.isLoading && r.state.error == Some("Error: " + e.message) && r.state.result == ss.state.result
    ensures e.Respond? && ss.inFlight > 0 ==>
      r.state.query == ss.state.query && r.state.docId == ss.state.docId
    ensures e.Fail? && ss.inFlight > 0 ==>
      r.state.query == ss.state.query && r.state.docId == ss.state.docId
    ensures e.TypeQuery? ==> r == ss.(state := ss.state.(query := e.text))
    ensures e.TypeDocId? ==> r == ss.(state := SetDocId(ss.state, e.text))
    ensures e.InitialDocId? ==> r == ss.(state := ApplyInitialDocId(ss.state, e.id))
    ensures !e.Click? && !e.Respond? && !e.Fail? ==>
      && r.inFlight == ss.inFlight
      && r.state.(query := ss.state.query, docId := ss.state.docId) == ss.state
    ensures r.inFlight <= ss.inFlight + 1
  {
    match e
    case TypeQuery(text) => ss.(state := ss.state.(query := text))
    case TypeDocId(text) => ss.(state := SetDocId(ss.state, text))
    case InitialDocId(id) => ss.(state := ApplyInitialDocId(ss.state, id))
    case Click =>
      if SendEnabled(ss.state) then Session(SendQuery(ss.state).0, ss.inFlight + 1) else ss
    case Respond(response) =>
      if ss.inFlight > 0 then Session(OnResponse(ss.state, response), ss.inFlight - 1) else ss
    case Fail(message) =>
      if ss.inFlight > 0 then Session(OnError(ss.state, message), ss.inFlight - 1) else ss
  }

  function Run(ss: Session, events: seq<Event>): Session
    decreases |events|
  {
    if |events| == 0 then ss else Run(Step(ss, events[0]), events[1..])
  }

  /** What the guarded component keeps true: at most one request is in
      flight and exactly while loading; while loading neither a result nor
      an error is shown; and a result and an error are never both shown. */
  predicate Consistent(ss: Session) {
    && ss.inFlight == (if ss.state.isLoading then 1 else 0)
    && (ss.state.isLoading ==> ss.state.result.None? && ss.state.error.None?)
    && !(ss.state.result.Some? && ss.state.error.Some?)
  }

  lemma StepConsistent(ss: Session, e: Event)
    requires Consistent(ss)
    ensures Consistent(Step(ss, e))
  {
  }

  /** From the initial state, every sequence of guarded events keeps the
      component consistent: after a query completes the result and the
      error are never both set. */
  lemma {:induction false} RunConsistent(ss: Session, events: seq<Event>)
    requires Consistent(ss)
    ensures Consistent(Run(ss, events))
    decreases |events|
  {
    if |events| > 0 {
      StepConsistent(ss, events[0]);
      RunConsistent(Step(ss, events[0]), events[1..]);
    }
  }

  /** Every guarded session of a freshly constructed component is consistent. */
  lemma SessionsConsistent(events: seq<Event>)
    ensures Consistent(Run(Session(Initial(), 0), events))
  {
    RunConsistent(Session(Initial(), 0), events);
  }

  /** The guard is what keeps that true: `sendQuery` called twice without
      the button (it does not test `isLoading` itself), then a failure and a
      reply, leaves a result and an error displayed together. */
  lemma UnguardedSendShowsBoth(response: ChatResponse)
    ensures var s0 := Initial().(query := "q");
      var s1 := SendQuery(SendQuery(s0).0).0;
      var s2 := OnResponse(OnError(s1, "timeout"), response);
      s2.result.Some? && s2.error.Some?
  {
  }
}
