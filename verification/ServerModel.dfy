/** The connection state of the STOMP server as a machine over its events, and what all runs have in common. */
module ServerModel {
  import opened StompText
  import opened StompSyntax
  import opened StompFrames

  /** The identity of a WebSocket session object. */
  type SessionRef = nat

  datatype Status = Pending | Established

  datatype Connection = Connection(id: string, status: Status)

  /** The calls to user handlers, in the order they are posted. */
  datatype Callback =
    | OnClientConnect(id: string)
    | OnClientMessage(id: string, destination: string, requestId: string, content: string)
    | OnClientDisconnect(id: string, failed: bool)
    | OnDisconnect(failed: bool)

  /** The host name of the server, and which handlers the user has set. */
  datatype Config = Config(host: string, onConnect: bool, onMessage: bool, onClientDisconnect: bool, onDisconnect: bool)

  datatype ServerState = ServerState(
    connections: map<SessionRef, Connection>,
    sessions: map<string, SessionRef>,
    posted: seq<Callback>)

  /** A message as the frame constructor sees it: a valid frame, an error, or an exception. */
  datatype Incoming = Frame(content: Content) | Garbage | Crash

  datatype Event =
    | WsConnect(session: SessionRef, failed: bool, id: string)
    | WsMessage(session: SessionRef, failed: bool, incoming: Incoming)
    | WsDisconnect(session: SessionRef, failed: bool)
    | WsServerDown(failed: bool)
    | UserClose(id: string)
    | UserStop

  const PROTOCOL_VERSION: string := "1.2"

  function Post(s: ServerState, enabled: bool, c: Callback): ServerState {
    if enabled then s.(posted := s.posted + [c]) else s
  }

  /** The state after a connection is dropped by the server. */
  function Dropped(s: ServerState, session: SessionRef): ServerState
    requires session in s.connections
  {
    s.(sessions := s.sessions - {s.connections[session].id}, connections := s.connections - {session})
  }

  /** A new WebSocket connection is pending until a STOMP frame comes. */
  function Connected(s: ServerState, session: SessionRef, id: string): ServerState {
    s.(sessions := s.sessions[id := session], connections := s.connections[session := Connection(id, Pending)])
  }

  /** The frame asks for the right version and host. */
  predicate IsWelcome(cfg: Config, content: Content) {
    ValueOf(content, AcceptVersion) == PROTOCOL_VERSION && ValueOf(content, Host) == cfg.host
  }

  function AfterStomp(cfg: Config, s: ServerState, session: SessionRef, content: Content): ServerState
    requires session in s.connections
  {
    var c := s.connections[session];
    if !IsWelcome(cfg, content) || c.status != Pending then Dropped(s, session)
    else Post(s.(connections := s.connections[session := c.(status := Established)]),
              cfg.onConnect, OnClientConnect(c.id))
  }

  function AfterSend(cfg: Config, s: ServerState, session: SessionRef, content: Content): ServerState
    requires session in s.connections
  {
    var c := s.connections[session];
    if c.status != Established then Dropped(s, session)
    else Post(s, cfg.onMessage,
              OnClientMessage(c.id, ValueOf(content, Destination), ValueOf(content, Id), content.body))
  }

  function AfterMessage(cfg: Config, s: ServerState, session: SessionRef, failed: bool, incoming: Incoming)
    : ServerState
  {
    if session !in s.connections || failed then s
    else
      match incoming
      case Crash => s
      case Garbage => Dropped(s, session)
      case Frame(content) =>
        if content.command == Stomp then AfterStomp(cfg, s, session, content)
        else if content.command == Send then AfterSend(cfg, s, session, content)
        else Dropped(s, session)
  }

  function AfterDisconnect(cfg: Config, s: ServerState, session: SessionRef, failed: bool): ServerState {
    if session !in s.connections then s
    else
      var c := s.connections[session];
      Post(Dropped(s, session), c.status == Established && cfg.onClientDisconnect, OnClientDisconnect(c.id, failed))
  }

  function AfterClose(s: ServerState, id: string): ServerState {
    if id in s.sessions && s.sessions[id] in s.connections then Dropped(s, s.sessions[id]) else s
  }

  function Next(cfg: Config, s: ServerState, e: Event): ServerState {
    match e
    case WsConnect(session, failed, id) => if failed then s else Connected(s, session, id)
    case WsMessage(session, failed, incoming) => AfterMessage(cfg, s, session, failed, incoming)
    case WsDisconnect(session, failed) => AfterDisconnect(cfg, s, session, failed)
    case WsServerDown(failed) => Post(s, cfg.onDisconnect, OnDisconnect(failed))
    case UserClose(id) => AfterClose(s, id)
    case UserStop => s.(connections := map[], sessions := map[])
  }

  const EMPTY: ServerState := ServerState(map[], map[], [])

  /** The state after a run of events. */
  function After(cfg: Config, run: seq<Event>): ServerState {
    if run == [] then EMPTY else Next(cfg, After(cfg, run[..|run| - 1]), run[|run| - 1])
  }

  // Runs that can happen: sessions connect once, and identifiers are fresh and make valid header values.

  predicate Opens(e: Event) {
    e.WsConnect? && !e.failed
  }

  ghost predicate Uses(run: seq<Event>, id: string) {
    exists e :: e in run && Opens(e) && e.id == id
  }

  ghost predicate UsesSession(run: seq<Event>, session: SessionRef) {
    exists e :: e in run && Opens(e) && e.session == session
  }

  ghost predicate Possible(run: seq<Event>)
    decreases |run|
  {
    run == [] ||
    (var before, e := run[..|run| - 1], run[|run| - 1];
     && Possible(before)
     && (Opens(e) ==> !Uses(before, e.id) && !UsesSession(before, e.session) && ValidValue(e.id)))
  }

  // The two maps

  /** Connections and sessions are each other's inverse. */
  ghost predicate Inverse(s: ServerState) {
    && (forall id :: id in s.sessions ==> s.sessions[id] in s.connections && s.connections[s.sessions[id]].id == id)
    && (forall w :: w in s.connections ==>
          s.connections[w].id in s.sessions && s.sessions[s.connections[w].id] == w)
  }

  /** A new connection keeps the maps inverse exactly if neither its session nor its identifier is taken otherwise. */
  lemma ConnectKeepsInverse(s: ServerState, session: SessionRef, id: string)
    requires Inverse(s)
    ensures Inverse(Connected(s, session, id)) <==>
              (session in s.connections ==> s.connections[session].id == id) &&
              (id in s.sessions ==> s.sessions[id] == session)
  {
    var t := Connected(s, session, id);
    if session in s.connections && s.connections[session].id != id {
      assert s.connections[session].id in t.sessions;
    }
    if id in s.sessions && s.sessions[id] != session {
      assert s.sessions[id] in t.connections;
    }
  }

  lemma DropKeepsInverse(s: ServerState, session: SessionRef)
    requires Inverse(s) && session in s.connections
    ensures Inverse(Dropped(s, session))
  {
  }

  /** Every event keeps the maps inverse, if a new connection brings a new session and a new identifier. */
  lemma StepKeepsInverse(cfg: Config, s: ServerState, e: Event)
    requires Inverse(s)
    requires Opens(e) ==> e.session !in s.connections && e.id !in s.sessions
    ensures Inverse(Next(cfg, s, e))
  {
    match e
    case WsConnect(session, failed, id) =>
      if !failed {
        ConnectKeepsInverse(s, session, id);
      }
    case WsMessage(session, failed, incoming) =>
      if session in s.connections {
        DropKeepsInverse(s, session);
      }
    case WsDisconnect(session, failed) =>
      if session in s.connections {
        DropKeepsInverse(s, session);
      }
    case WsServerDown(failed) =>
    case UserClose(id) =>
      if id in s.sessions && s.sessions[id] in s.connections {
        DropKeepsInverse(s, s.sessions[id]);
      }
    case UserStop =>
  }

  // The calls posted for one connection

  /** The connection a callback is for; none for the server's own. */
  predicate IsFor(c: Callback, id: string) {
    !c.OnDisconnect? && c.id == id
  }

  /** Where a connection stands in the sequence of calls posted for it. */
  datatype Phase = Unheard | Open | Shut | Broken

  function NextPhase(p: Phase, c: Callback, id: string): Phase {
    if !IsFor(c, id) then p
    else
      match c
      case OnClientConnect(_) => if p == Unheard then Open else Broken
      case OnClientMessage(_, _, _, _) => if p == Open then Open else Broken
      case OnClientDisconnect(_, _) => if p == Open then Shut else Broken
      case OnDisconnect(_) => p
  }

  function PhaseOf(posted: seq<Callback>, id: string): Phase {
    if posted == [] then Unheard
    else NextPhase(PhaseOf(posted[..|posted| - 1], id), posted[|posted| - 1], id)
  }

  /** The calls for one connection, in order. */
  function CallsFor(posted: seq<Callback>, id: string): seq<Callback> {
    if posted == [] then []
    else
      CallsFor(posted[..|posted| - 1], id) +
      if IsFor(posted[|posted| - 1], id) then [posted[|posted| - 1]] else []
  }

  /** Nothing, or a connect, then messages only, then perhaps a disconnect. */
  ghost predicate IsConversation(calls: seq<Callback>) {
    calls == [] ||
    (&& calls[0].OnClientConnect?
     && (forall i :: 1 <= i < |calls| - 1 ==> calls[i].OnClientMessage?)
     && (|calls| > 1 ==> calls[|calls| - 1].OnClientMessage? || calls[|calls| - 1].OnClientDisconnect?))
  }

  /** Unless the phase is broken, the calls are a conversation. */
  lemma {:induction false} PhasesAreConversations(posted: seq<Callback>, id: string)
    ensures PhaseOf(posted, id) == Unheard <==> CallsFor(posted, id) == []
    ensures PhaseOf(posted, id) != Broken ==> IsConversation(CallsFor(posted, id))
    ensures PhaseOf(posted, id) == Open ==>
              forall i :: 1 <= i < |CallsFor(posted, id)| ==> CallsFor(posted, id)[i].OnClientMessage?
    decreases |posted|
  {
    if posted != [] {
      PhasesAreConversations(posted[..|posted| - 1], id);
    }
  }

  lemma PhaseAfterPost(posted: seq<Callback>, c: Callback, id: string)
    ensures PhaseOf(posted + [c], id) == NextPhase(PhaseOf(posted, id), c, id)
  {
    assert (posted + [c])[..|posted|] == posted;
  }

  /** All handlers are set. */
  predicate AllHandlers(cfg: Config) {
    cfg.onConnect && cfg.onMessage && cfg.onClientDisconnect && cfg.onDisconnect
  }

  /** The phase of an identifier matches what the maps say about it. */
  ghost predicate InStep(s: ServerState, used: bool, id: string) {
    if id in s.sessions then
      && used
      && s.sessions[id] in s.connections
      && PhaseOf(s.posted, id) == if s.connections[s.sessions[id]].status == Pending then Unheard else Open
    else PhaseOf(s.posted, id) != Broken && (!used ==> PhaseOf(s.posted, id) == Unheard)
  }

  lemma DropKeepsStep(s: ServerState, session: SessionRef, used: bool, id: string)
    requires Inverse(s) && InStep(s, used, id) && session in s.connections
    ensures InStep(Dropped(s, session), used, id)
    ensures id == s.connections[session].id <==> id in s.sessions && id !in Dropped(s, session).sessions
  {
  }

  lemma MessageKeepsStep(cfg: Config, s: ServerState, session: SessionRef, content: Content, used: bool, id: string)
    requires AllHandlers(cfg) && Inverse(s) && InStep(s, used, id) && session in s.connections
    ensures InStep(AfterStomp(cfg, s, session, content), used, id)
    ensures InStep(AfterSend(cfg, s, session, content), used, id)
  {
    DropKeepsStep(s, session, used, id);
    var c := s.connections[session];
    PhaseAfterPost(s.posted, OnClientConnect(c.id), id);
    var call := OnClientMessage(c.id, ValueOf(content, Destination), ValueOf(content, Id), content.body);
    PhaseAfterPost(s.posted, call, id);
  }

  lemma DisconnectKeepsStep(cfg: Config, s: ServerState, session: SessionRef, failed: bool, used: bool, id: string)
    requires AllHandlers(cfg) && Inverse(s) && InStep(s, used, id) && session in s.connections
    ensures InStep(AfterDisconnect(cfg, s, session, failed), used, id)
  {
    DropKeepsStep(s, session, used, id);
    PhaseAfterPost(s.posted, OnClientDisconnect(s.connections[session].id, failed), id);
  }

  lemma StepKeepsPhase(cfg: Config, s: ServerState, e: Event, used: bool, id: string)
    requires AllHandlers(cfg) && Inverse(s) && InStep(s, used, id)
    requires Opens(e) ==> e.session !in s.connections && e.id !in s.sessions && (e.id == id ==> !used)
    ensures InStep(Next(cfg, s, e), used || (Opens(e) && e.id == id), id)
  {
    match e
    case WsConnect(session, failed, _) =>
    case WsMessage(session, failed, incoming) =>
      if session in s.connections {
        DropKeepsStep(s, session, used, id);
        if incoming.Frame? {
          MessageKeepsStep(cfg, s, session, incoming.content, used, id);
        }
      }
    case WsDisconnect(session, failed) =>
      if session in s.connections {
        DisconnectKeepsStep(cfg, s, session, failed, used, id);
      }
    case WsServerDown(failed) =>
      PhaseAfterPost(s.posted, OnDisconnect(failed), id);
    case UserClose(other) =>
      if other in s.sessions && s.sessions[other] in s.connections {
        DropKeepsStep(s, s.sessions[other], used, id);
      }
    case UserStop =>
  }

  // All runs

  lemma OpeningIsFresh(run: seq<Event>, s: ServerState, e: Event)
    requires Possible(run + [e]) && Opens(e)
    requires forall w :: w in s.connections ==> UsesSession(run, w)
    requires forall id :: id in s.sessions ==> Uses(run, id)
    ensures e.session !in s.connections && e.id !in s.sessions
  {
    assert (run + [e])[..|run|] == run;
  }

  lemma UsesOneMore(run: seq<Event>, e: Event, id: string, session: SessionRef)
    ensures Uses(run + [e], id) <==> Uses(run, id) || (Opens(e) && e.id == id)
    ensures UsesSession(run + [e], session) <==> UsesSession(run, session) || (Opens(e) && e.session == session)
  {
    assert forall d :: d in run + [e] <==> d in run || d == e;
  }

  /** What holds after every run that can happen. */
  ghost predicate RunInvariant(cfg: Config, run: seq<Event>, s: ServerState) {
    && Inverse(s)
    && (forall w :: w in s.connections ==> UsesSession(run, w))
    && (forall id :: id in s.sessions ==> Uses(run, id) && ValidValue(id))
    && (AllHandlers(cfg) ==> forall id :: InStep(s, Uses(run, id), id))
  }

  lemma StepKeepsInvariant(cfg: Config, run: seq<Event>, s: ServerState, e: Event)
    requires Possible(run + [e]) && RunInvariant(cfg, run, s)
    ensures RunInvariant(cfg, run + [e], Next(cfg, s, e))
  {
    assert (run + [e])[..|run|] == run;
    if Opens(e) {
      OpeningIsFresh(run, s, e);
    }
    StepKeepsInverse(cfg, s, e);
    var t := Next(cfg, s, e);
    forall w, id
      ensures Uses(run + [e], id) <==> Uses(run, id) || (Opens(e) && e.id == id)
      ensures UsesSession(run + [e], w) <==> UsesSession(run, w) || (Opens(e) && e.session == w)
    {
      UsesOneMore(run, e, id, w);
    }
    StepAddsOnlyOpened(cfg, s, e);
    if AllHandlers(cfg) {
      forall id
        ensures InStep(t, Uses(run + [e], id), id)
      {
        UsesOneMore(run, e, id, 0);
        StepKeepsPhase(cfg, s, e, Uses(run, id), id);
      }
    }
  }

  lemma StepAddsOnlyOpened(cfg: Config, s: ServerState, e: Event)
    ensures forall w :: w in Next(cfg, s, e).connections ==> w in s.connections || (Opens(e) && w == e.session)
    ensures forall id :: id in Next(cfg, s, e).sessions ==> id in s.sessions || (Opens(e) && id == e.id)
  {
  }

  lemma {:induction false} InvariantHolds(cfg: Config, run: seq<Event>)
    requires Possible(run)
    ensures RunInvariant(cfg, run, After(cfg, run))
    decreases |run|
  {
    if run != [] {
      var before, e := run[..|run| - 1], run[|run| - 1];
      assert before + [e] == run;
      InvariantHolds(cfg, before);
      StepKeepsInvariant(cfg, before, After(cfg, before), e);
    }
  }

  /** Through every run the maps stay inverse, so no known identifier has an unknown session. */
  lemma MapsStayInverse(cfg: Config, run: seq<Event>)
    requires Possible(run)
    ensures Inverse(After(cfg, run))
  {
    InvariantHolds(cfg, run);
  }

  /**
   * With all handlers set, the calls posted for any one connection are nothing, or a connect followed by
   * messages and perhaps one disconnect.
   */
  lemma CallsAreConversations(cfg: Config, run: seq<Event>, id: string)
    requires Possible(run) && AllHandlers(cfg)
    ensures IsConversation(CallsFor(After(cfg, run).posted, id))
  {
    InvariantHolds(cfg, run);
    assert InStep(After(cfg, run), Uses(run, id), id);
    PhasesAreConversations(After(cfg, run).posted, id);
  }

  /** The headers ask for version 1.2 and for the host of the server; a header that is absent counts as empty. */
  predicate AskForHost(headers: Headers, host: string) {
    && AcceptVersion in headers && headers[AcceptVersion] == "1.2"
    && (if Host in headers then headers[Host] else "") == host
  }

  /** The event is the reason for the call, given the state it meets. */
  predicate Causes(cfg: Config, s: ServerState, e: Event, c: Callback) {
    match c
    case OnClientConnect(id) =>
      && e.WsMessage? && !e.failed && e.session in s.connections
      && s.connections[e.session] == Connection(id, Pending)
      && e.incoming.Frame? && e.incoming.content.command == Stomp
      && AskForHost(e.incoming.content.headers, cfg.host)
    case OnClientMessage(id, destination, requestId, content) =>
      && e.WsMessage? && !e.failed && e.session in s.connections
      && s.connections[e.session] == Connection(id, Established)
      && e.incoming.Frame? && e.incoming.content.command == Send
      && var headers := e.incoming.content.headers;
      && destination == (if Destination in headers then headers[Destination] else "")
      && requestId == (if Id in headers then headers[Id] else "")
      && content == e.incoming.content.body
    case OnClientDisconnect(id, failed) =>
      && e.WsDisconnect? && e.failed == failed && e.session in s.connections
      && s.connections[e.session] == Connection(id, Established)
    case OnDisconnect(failed) => e == WsServerDown(failed)
  }

  /** A step posts at most one call, and only one that the event is the reason for. */
  lemma StepPostsWithCause(cfg: Config, s: ServerState, e: Event)
    ensures var t := Next(cfg, s, e);
            t.posted == s.posted || exists c :: t.posted == s.posted + [c] && Causes(cfg, s, e, c)
  {
    var t := Next(cfg, s, e);
    if t.posted != s.posted {
      var c := t.posted[|t.posted| - 1];
      assert t.posted == s.posted + [c];
      assert Causes(cfg, s, e, c);
    }
  }

  /** Every call posted in a run has a cause in it: the user hears of a connection only after a STOMP frame
      with version 1.2 and the right host, and of messages only from established connections. */
  lemma {:induction false} CallsHaveCauses(cfg: Config, run: seq<Event>, k: nat) returns (i: nat)
    requires k < |After(cfg, run).posted|
    ensures i < |run| && Causes(cfg, After(cfg, run[..i]), run[i], After(cfg, run).posted[k])
    decreases |run|
  {
    var n := |run| - 1;
    var before := After(cfg, run[..n]);
    StepPostsWithCause(cfg, before, run[n]);
    if k < |before.posted| {
      i := CallsHaveCauses(cfg, run[..n], k);
      assert run[..n][..i] == run[..i];
    } else {
      i := n;
    }
  }

  /** Conversely, a cause always makes its call, if the handler is set. */
  lemma CausesMakeCalls(cfg: Config, s: ServerState, e: Event, c: Callback)
    requires AllHandlers(cfg) && Causes(cfg, s, e, c)
    ensures Next(cfg, s, e).posted == s.posted + [c]
  {
  }

  lemma HeadersDecide(cfg: Config, s: ServerState, session: SessionRef, content: Content)
    requires session in s.connections && content.command == Stomp
    requires AcceptVersion in content.headers && Host in content.headers
    ensures var t, id := Next(cfg, s, WsMessage(session, false, Frame(content))), s.connections[session].id;
            if && content.headers[AcceptVersion] == "1.2" && content.headers[Host] == cfg.host
               && s.connections[session].status == Pending
            then
              && t.connections == s.connections[session := Connection(id, Established)] && t.sessions == s.sessions
              && t.posted == s.posted + if cfg.onConnect then [OnClientConnect(id)] else []
            else
              && t.connections == s.connections - {session} && t.sessions == s.sessions - {id}
              && t.posted == s.posted
  {
  }

  // Which connections are known

  /** The server goes on with a connection of this status after this message. */
  predicate IsAccepted(cfg: Config, status: Status, incoming: Incoming) {
    incoming.Frame? &&
    if status == Pending then incoming.content.command == Stomp && AskForHost(incoming.content.headers, cfg.host)
    else incoming.content.command == Send
  }

  /** The event ends the connection of session `w`. */
  predicate Ends(cfg: Config, s: ServerState, e: Event, w: SessionRef) {
    w in s.connections &&
    match e
    case WsConnect(_, _, _) => false
    case WsMessage(session, failed, incoming) =>
      session == w && !failed && !incoming.Crash? && !IsAccepted(cfg, s.connections[w].status, incoming)
    case WsDisconnect(session, _) => session == w
    case WsServerDown(_) => false
    case UserClose(id) => s.connections[w].id == id
    case UserStop => true
  }

  /** The event is a message that establishes the connection of session `w`. */
  predicate Establishes(cfg: Config, s: ServerState, e: Event, w: SessionRef) {
    && w in s.connections && s.connections[w].status == Pending
    && e.WsMessage? && e.session == w && !e.failed && IsAccepted(cfg, Pending, e.incoming)
  }

  predicate OpensSession(e: Event, w: SessionRef) {
    Opens(e) && e.session == w
  }

  /** An event adds the connection it opens, and drops just those it ends; the others keep their identifier. */
  lemma WhoStays(cfg: Config, s: ServerState, e: Event, w: SessionRef)
    requires Inverse(s)
    ensures var after := Next(cfg, s, e).connections;
            && (w in after <==> OpensSession(e, w) || (w in s.connections && !Ends(cfg, s, e, w)))
            && (OpensSession(e, w) ==> after[w] == Connection(e.id, Pending))
            && (w in after && !OpensSession(e, w) ==>
                  after[w] == if Establishes(cfg, s, e, w) then Connection(s.connections[w].id, Established)
                              else s.connections[w])
  {
  }

  /** The connection was opened by the event at position `j`, and no event since has ended it. */
  ghost predicate OpenSince(cfg: Config, run: seq<Event>, j: nat, w: SessionRef) {
    && j < |run| && OpensSession(run[j], w)
    && forall k :: j < k < |run| ==> !Ends(cfg, After(cfg, run[..k]), run[k], w)
  }

  lemma OpenSinceBefore(cfg: Config, run: seq<Event>, e: Event, j: nat, w: SessionRef)
    requires j < |run|
    ensures OpenSince(cfg, run + [e], j, w) <==> OpenSince(cfg, run, j, w) && !Ends(cfg, After(cfg, run), e, w)
  {
    var longer := run + [e];
    assert longer[..|run|] == run;
    assert forall k :: 0 <= k < |run| ==> longer[..k] == run[..k] && longer[k] == run[k];
  }

  /** Through every run a connection is known exactly from the event that opens it to the first that ends it. */
  lemma {:induction false} KnownWhileOpen(cfg: Config, run: seq<Event>, w: SessionRef)
    requires Possible(run)
    ensures w in After(cfg, run).connections <==> exists j: nat :: OpenSince(cfg, run, j, w)
    decreases |run|
  {
    if run != [] {
      var n := |run| - 1;
      var before, e := run[..n], run[n];
      assert before + [e] == run;
      KnownWhileOpen(cfg, before, w);
      InvariantHolds(cfg, before);
      WhoStays(cfg, After(cfg, before), e, w);
      forall j: nat | j < n
        ensures OpenSince(cfg, run, j, w) <==>
                OpenSince(cfg, before, j, w) && !Ends(cfg, After(cfg, before), e, w)
      {
        OpenSinceBefore(cfg, before, e, j, w);
      }
      assert OpenSince(cfg, run, n, w) <==> OpensSession(e, w);
    }
  }

  // Connections that the server drops

  lemma PossibleStep(run: seq<Event>, e: Event)
    requires Possible(run + [e])
    ensures Possible(run) && (Opens(e) ==> !Uses(run, e.id) && !UsesSession(run, e.session))
  {
    assert (run + [e])[..|run|] == run;
  }

  /** A step posts no call for an identifier that is neither known nor opened by it. */
  lemma UnknownIsNotHeardOf(cfg: Config, s: ServerState, e: Event, id: string)
    requires Inverse(s) && id !in s.sessions && !(Opens(e) && e.id == id)
    ensures id !in Next(cfg, s, e).sessions
    ensures CallsFor(Next(cfg, s, e).posted, id) == CallsFor(s.posted, id)
  {
    StepAddsOnlyOpened(cfg, s, e);
    StepPostsWithCause(cfg, s, e);
    var t := Next(cfg, s, e);
    if t.posted != s.posted {
      var c :| t.posted == s.posted + [c] && Causes(cfg, s, e, c);
      assert t.posted[..|s.posted|] == s.posted;
      assert !IsFor(c, id);
    }
  }

  /** Once a connection is gone, no call for it is posted any more, in any continuation of the run. */
  lemma {:induction false} GoneIsNotHeardOf(cfg: Config, run: seq<Event>, more: seq<Event>, id: string)
    requires Possible(run + more) && Uses(run, id) && id !in After(cfg, run).sessions
    ensures id !in After(cfg, run + more).sessions
    ensures CallsFor(After(cfg, run + more).posted, id) == CallsFor(After(cfg, run).posted, id)
    decreases |more|
  {
    if more == [] {
      assert run + more == run;
    } else {
      var before, e := more[..|more| - 1], more[|more| - 1];
      assert run + more == (run + before) + [e];
      assert (run + more)[..|run + more| - 1] == run + before;
      PossibleStep(run + before, e);
      GoneIsNotHeardOf(cfg, run, before, id);
      InvariantHolds(cfg, run + before);
      var first :| first in run && Opens(first) && first.id == id;
      assert first in run + before;
      UnknownIsNotHeardOf(cfg, After(cfg, run + before), e, id);
    }
  }

  /**
   * If a message makes the server drop a connection, the user is never told of a disconnect: the calls for the
   * connection are those posted before.
   */
  lemma DroppedIsNotReported(cfg: Config, run: seq<Event>, session: SessionRef, incoming: Incoming, more: seq<Event>)
    requires Possible(run + [WsMessage(session, false, incoming)] + more)
    requires session in After(cfg, run).connections
    requires session !in After(cfg, run + [WsMessage(session, false, incoming)]).connections
    ensures var id := After(cfg, run).connections[session].id;
            CallsFor(After(cfg, run + [WsMessage(session, false, incoming)] + more).posted, id) ==
            CallsFor(After(cfg, run).posted, id)
  {
    var e := WsMessage(session, false, incoming);
    var s, id := After(cfg, run), After(cfg, run).connections[session].id;
    PossiblePrefix(run + [e], more);
    PossibleStep(run, e);
    InvariantHolds(cfg, run);
    assert (run + [e])[..|run|] == run;
    UsesOneMore(run, e, id, session);
    assert Next(cfg, s, e) == Dropped(s, session);
    GoneIsNotHeardOf(cfg, run + [e], more, id);
  }

  lemma {:induction false} PossiblePrefix(run: seq<Event>, more: seq<Event>)
    requires Possible(run + more)
    ensures Possible(run)
    decreases |more|
  {
    if more == [] {
      assert run + more == run;
    } else {
      var before := more[..|more| - 1];
      assert run + more == (run + before) + [more[|more| - 1]];
      PossibleStep(run + before, more[|more| - 1]);
      PossiblePrefix(run, before);
    }
  }

  /**
   * An established connection is dropped on a text that is no frame, on any command but STOMP and SEND, and on a
   * second STOMP frame; nothing is posted.
   */
  lemma ProtocolErrorsDrop(cfg: Config, s: ServerState, session: SessionRef, incoming: Incoming)
    requires session in s.connections
    requires incoming.Garbage? || (incoming.Frame? && incoming.content.command !in {Stomp, Send})
             || (incoming.Frame? && incoming.content.command == Stomp && s.connections[session].status == Established)
    ensures session !in Next(cfg, s, WsMessage(session, false, incoming)).connections
    ensures Next(cfg, s, WsMessage(session, false, incoming)).posted == s.posted
  {
  }

  function StompFrom(host: string): Incoming {
    Frame(Content(Stomp, map[AcceptVersion := PROTOCOL_VERSION, Host := host], ""))
  }

  /** A client connects, greets, sends something that is no frame, and goes away. */
  function RunWithError(cfg: Config): seq<Event> {
    [WsConnect(0, false, "id"), WsMessage(0, false, StompFrom(cfg.host)), WsMessage(0, false, Garbage),
     WsDisconnect(0, true)]
  }

  lemma AfterOneMore(cfg: Config, run: seq<Event>, e: Event)
    ensures After(cfg, run + [e]) == Next(cfg, After(cfg, run), e)
  {
    assert (run + [e])[..|run|] == run;
  }

  lemma PossibleOneMore(run: seq<Event>, e: Event)
    requires Possible(run) && !Opens(e)
    ensures Possible(run + [e])
  {
    assert (run + [e])[..|run|] == run;
  }

  lemma RunWithErrorIsPossible(cfg: Config)
    ensures Possible(RunWithError(cfg))
  {
    var run := RunWithError(cfg);
    assert run[..1][..|run[..1]| - 1] == [] && Possible([]) && ValidValue("id");
    assert run[..1] + [run[1]] == run[..2] && run[..2] + [run[2]] == run[..3] && run[..3] + [run[3]] == run;
    PossibleOneMore(run[..1], run[1]);
    PossibleOneMore(run[..2], run[2]);
    PossibleOneMore(run[..3], run[3]);
  }

  /** In this run the user hears of the connection, and never of its end. */
  lemma ErrorIsNotReported(cfg: Config)
    requires AllHandlers(cfg)
    ensures Possible(RunWithError(cfg))
    ensures After(cfg, RunWithError(cfg)).posted == [OnClientConnect("id")]
  {
    RunWithErrorIsPossible(cfg);
    var run := RunWithError(cfg);
    assert [] + [run[0]] == run[..1] && run[..1] + [run[1]] == run[..2];
    assert run[..2] + [run[2]] == run[..3] && run[..3] + [run[3]] == run;
    AfterOneMore(cfg, [], run[0]);
    AfterOneMore(cfg, run[..1], run[1]);
    AfterOneMore(cfg, run[..2], run[2]);
    AfterOneMore(cfg, run[..3], run[3]);
  }
}
