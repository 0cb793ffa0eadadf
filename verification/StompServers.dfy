/** The STOMP server: its handlers for WebSocket events and its calls from the user. */
module StompServers {
  import opened Wrappers
  import opened StompText
  import opened StompSyntax
  import opened StompFrames
  import opened ServerModel

  /** What the server asks of a WebSocket session. */
  datatype WireOp = SendText(session: SessionRef, text: string) | CloseSession(session: SessionRef)

  /** A text as the frame constructor sees it. */
  function Read(text: string, junk: nat): Incoming {
    if Check(text, junk) == Returned(Ok) then Frame(Parse(text).value)
    else if Check(text, junk) == Exception then Crash
    else Garbage
  }

  function ConnectedContent(id: string): Content {
    Content(StompCommand.Connected, map[Version := "1.2", Session := id], "")
  }

  /** What a SEND frame with the given parts says; both ends assemble their messages this way. */
  function SendContent(requestId: string, destination: string, message: string): Content {
    Content(Send,
            map[Id := requestId, Destination := destination, ContentType := "application/json",
                ContentLength := ToDecimal(|message|)],
            message)
  }

  /** A session identifier without newlines always makes a valid CONNECTED frame. */
  lemma ConnectedIsPrintable(id: string, junk: nat)
    requires ValidValue(id)
    ensures Printable(ConnectedContent(id), junk)
  {
    assert ValidValue("1.2");
  }

  lemma SendHeadersAreValid(requestId: string, destination: string, message: string)
    requires |message| < SIZE_LIMIT
    ensures ValidHeaders(SendContent(requestId, destination, message).headers) <==>
              ValidValue(requestId) && ValidValue(destination)
  {
    var headers := SendContent(requestId, destination, message).headers;
    SizeRoundTrip(|message|);
    assert ValidValue("application/json");
    assert headers[Id] == requestId && headers[Destination] == destination;
  }

  lemma SendIsDelimited(requestId: string, destination: string, message: string)
    requires |message| < SIZE_LIMIT
    ensures Delimited(SendContent(requestId, destination, message).headers, message)
    ensures !LengthOutOfRange(SendContent(requestId, destination, message).headers)
  {
    SizeRoundTrip(|message|);
  }

  /** A SEND frame is valid exactly if request and destination are; the message is arbitrary. */
  lemma SendIsPrintable(requestId: string, destination: string, message: string, junk: nat)
    requires |message| < SIZE_LIMIT
    ensures Printable(SendContent(requestId, destination, message), junk) <==>
              ValidValue(requestId) && ValidValue(destination)
  {
    SendHeadersAreValid(requestId, destination, message);
    SendIsDelimited(requestId, destination, message);
  }

  /** The ERROR frame always reports an unsupported frame. */
  function ErrorContent(): Content {
    Content(Error, map[ContentType := "text/plain", Version := "1.2"], "UnsupportedFrame")
  }

  lemma ErrorIsPrintable(junk: nat)
    ensures Printable(ErrorContent(), junk)
  {
    assert ValidValue("text/plain") && ValidValue("1.2");
  }

  /** What a text is read as, by the result of making a frame from it. */
  lemma ReadOf(text: string, junk: nat, ec: Result, says: Content)
    requires IsMade(Parse(text), junk, ec, says)
    ensures Read(text, junk) ==
            if ec == Returned(Ok) then Frame(says) else if ec == Exception then Crash else Garbage
  {
  }

  /** A message raises an exception exactly if it breaks off after the colon of a header. */
  lemma CrashMeansBrokenOff(text: string, junk: nat)
    ensures Read(text, junk) == Crash <==> EndsAtColon(text)
  {
    ParserThrowsAtColon(text);
  }

  /** Makes a frame from a message; an exception leaves the handler at this point. */
  method Receive(msg: string, junk: nat) returns (incoming: Incoming)
    ensures incoming == Read(msg, junk)
  {
    var frame := new StompFrame();
    var ec := frame.FromText(msg, junk);
    ReadOf(msg, junk, ec, frame.Says());
    if ec == Exception {
      return Crash;
    }
    return if ec == Returned(Ok) then Frame(frame.Says()) else Garbage;
  }

  lemma SendHeaderValues(requestId: string, destination: string, message: string)
    ensures Id in SendContent(requestId, destination, message).headers
    ensures SendContent(requestId, destination, message).headers[Id] == requestId
    ensures Destination in SendContent(requestId, destination, message).headers
    ensures SendContent(requestId, destination, message).headers[Destination] == destination
  {
  }

  lemma SendHeadersHaveNoNewlines(requestId: string, destination: string, message: string)
    requires |message| < SIZE_LIMIT && '\n' !in requestId && '\n' !in destination
    ensures HasNoNewlines(SendContent(requestId, destination, message).headers)
  {
    SizeRoundTrip(|message|);
    assert '\n' !in "application/json";
  }

  lemma CheckedIsParsed(text: string, junk: nat)
    requires Check(text, junk) == Returned(Ok)
    ensures Parse(text).Parsed?
  {
    var parsed := Parse(text);
    assert parsed != Failed(Ok);
  }

  /** A SEND frame without newlines in its headers that is valid has a destination and a request. */
  lemma SentHasDestination(requestId: string, destination: string, message: string, text: string, junk: nat)
    requires |message| < SIZE_LIMIT && '\n' !in requestId && '\n' !in destination
    requires IsPrinted(SendContent(requestId, destination, message), text) && Check(text, junk) == Returned(Ok)
    ensures ValidValue(requestId) && ValidValue(destination)
  {
    SendHeadersHaveNoNewlines(requestId, destination, message);
    CheckedIsParsed(text, junk);
    PrintedValuesAreNotEmpty(SendContent(requestId, destination, message), text);
    SendHeaderValues(requestId, destination, message);
  }

  ghost predicate IsConnected(s: ServerState, id: string) {
    id in s.sessions && s.sessions[id] in s.connections && s.connections[s.sessions[id]].status == Established
  }

  /** One text that says `content` was sent. */
  ghost predicate Sent(before: seq<WireOp>, session: SessionRef, content: Content, after: seq<WireOp>) {
    exists text :: after == before + [SendText(session, text)] && Parse(text) == Parsed(content)
  }

  /** One text that says `content` was sent, and the session was closed after it. */
  ghost predicate SentAndClosed(before: seq<WireOp>, session: SessionRef, content: Content, after: seq<WireOp>) {
    exists text ::
      after == before + [SendText(session, text)] + [CloseSession(session)] && Parse(text) == Parsed(content)
  }

  /** What goes over the wire in answer to a message. */
  ghost predicate Answers(cfg: Config, s: ServerState, session: SessionRef, failed: bool, incoming: Incoming,
                          before: seq<WireOp>, after: seq<WireOp>) {
    if session !in s.connections then after == before + [CloseSession(session)]
    else if failed || incoming.Crash? then after == before
    else if incoming.Frame? && incoming.content.command == Stomp && AskForHost(incoming.content.headers, cfg.host)
            && s.connections[session].status == Pending
    then Sent(before, session, ConnectedContent(s.connections[session].id), after)
    else if incoming.Frame? && incoming.content.command == Send then
      after == if s.connections[session].status == Established then before else before + [CloseSession(session)]
    else SentAndClosed(before, session, ErrorContent(), after)
  }

  /** One close request for each of the sessions, and nothing else. */
  ghost predicate AreCloses(ops: seq<WireOp>, sessions: set<SessionRef>) {
    && (forall op :: op in ops <==> op.CloseSession? && op.session in sessions)
    && (forall i, j :: 0 <= i < j < |ops| ==> ops[i] != ops[j])
  }

  lemma CloseOneMore(ops: seq<WireOp>, sessions: set<SessionRef>, session: SessionRef)
    requires AreCloses(ops, sessions) && session !in sessions
    ensures AreCloses(ops + [CloseSession(session)], sessions + {session})
  {
  }

  lemma EstablishingKeepsInverse(s: ServerState, session: SessionRef)
    requires Inverse(s) && session in s.connections
    ensures Inverse(s.(connections := s.connections[session := s.connections[session].(status := Established)]))
    ensures s.connections[session].id in s.sessions
  {
  }

  class StompServer {
    const cfg: Config
    var connections: map<SessionRef, Connection>
    var sessions: map<string, SessionRef>
    // The calls posted to the user's execution context, and the requests made of WebSocket sessions.
    var posted: seq<Callback>
    var wire: seq<WireOp>

    function State(): ServerState
      reads this
    {
      ServerState(connections, sessions, posted)
    }

    /** Connections have identifiers that make valid header values. */
    ghost predicate Valid()
      reads this
    {
      Inverse(State()) && forall id :: id in sessions ==> ValidValue(id)
    }

    constructor (cfg: Config)
      ensures Valid() && this.cfg == cfg && State() == EMPTY && wire == []
    {
      this.cfg := cfg;
      connections, sessions, posted, wire := map[], map[], [], [];
    }

    method OnWsSessionConnect(failed: bool, session: SessionRef, id: string)
      requires Valid()
      requires !failed ==> session !in connections && id !in sessions && ValidValue(id)
      modifies this
      ensures Valid() && State() == Next(cfg, old(State()), WsConnect(session, failed, id))
      ensures wire == old(wire) + if failed then [CloseSession(session)] else []
    {
      if failed {
        wire := wire + [CloseSession(session)];
        return;
      }
      ConnectKeepsInverse(State(), session, id);
      sessions := sessions[id := session];
      connections := connections[session := Connection(id, Pending)];
    }

    /** Drops a connection and closes its session, after an ERROR frame if there is an error to report. */
    method CloseConnection(session: SessionRef, errorFrame: Option<string>)
      requires Valid() && session in connections
      modifies this
      ensures Valid() && State() == Dropped(old(State()), session)
      ensures wire == old(wire) + (if errorFrame.Some? then [SendText(session, errorFrame.value)] else [])
                      + [CloseSession(session)]
    {
      DropKeepsInverse(State(), session);
      sessions := sessions - {connections[session].id};
      connections := connections - {session};
      if errorFrame.Some? {
        wire := wire + [SendText(session, errorFrame.value)];
      }
      wire := wire + [CloseSession(session)];
    }

    /** A session identifier never fails to make a frame. */
    method MakeConnectedFrame(id: string, junk: nat) returns (text: string)
      requires ValidValue(id)
      ensures Parse(text) == Parsed(Content(StompCommand.Connected, map[Version := "1.2", Session := id], ""))
    {
      ConnectedIsPrintable(id, junk);
      var ec;
      ec, text := Compose(ConnectedContent(id), junk);
      if ec != Returned(Ok) {
        assert false;
      }
    }

    method MakeErrorFrame(junk: nat) returns (text: string)
      ensures Parse(text) ==
              Parsed(Content(Error, map[ContentType := "text/plain", Version := "1.2"], "UnsupportedFrame"))
    {
      ErrorIsPrintable(junk);
      var ec;
      ec, text := Compose(ErrorContent(), junk);
    }

    method OnWsSessionMessage(failed: bool, session: SessionRef, msg: string, junk: nat)
      requires Valid()
      modifies this
      ensures Valid() && State() == Next(cfg, old(State()), WsMessage(session, failed, Read(msg, junk)))
      ensures Answers(cfg, old(State()), session, failed, Read(msg, junk), old(wire), wire)
    {
      if session !in connections {
        wire := wire + [CloseSession(session)];
        return;
      }
      if failed {
        return;
      }
      var incoming := Receive(msg, junk);
      match incoming
      case Crash =>
        // The exception leaves the handler before anything has changed.
      case Garbage =>
        Refuse(session, junk);
      case Frame(content) =>
        HandleFrame(session, content, junk);
    }

    method HandleFrame(session: SessionRef, content: Content, junk: nat)
      requires Valid() && session in connections
      modifies this
      ensures Valid() && State() == Next(cfg, old(State()), WsMessage(session, false, Frame(content)))
      ensures Answers(cfg, old(State()), session, false, Frame(content), old(wire), wire)
    {
      match content.command
      case Stomp =>
        HandleStomp(session, content, junk);
      case Send =>
        HandleSend(session, content);
      case _ =>
        Refuse(session, junk);
    }

    /** Reports an error to a client and closes its connection. */
    method Refuse(session: SessionRef, junk: nat)
      requires Valid() && session in connections
      modifies this
      ensures Valid() && State() == Dropped(old(State()), session)
      ensures SentAndClosed(old(wire), session, ErrorContent(), wire)
    {
      var text := MakeErrorFrame(junk);
      CloseConnection(session, Some(text));
    }

    method HandleStomp(session: SessionRef, content: Content, junk: nat)
      requires Valid() && session in connections && content.command == Stomp
      modifies this
      ensures Valid() && State() == AfterStomp(cfg, old(State()), session, content)
      ensures Answers(cfg, old(State()), session, false, Frame(content), old(wire), wire)
      ensures if && AcceptVersion in content.headers && content.headers[AcceptVersion] == "1.2"
                 && (if Host in content.headers then content.headers[Host] else "") == cfg.host
                 && old(connections)[session].status == Pending
              then
                && connections == old(connections)[session := Connection(old(connections)[session].id, Established)]
                && sessions == old(sessions)
                && posted == old(posted) +
                     (if cfg.onConnect then [OnClientConnect(old(connections)[session].id)] else [])
                && Sent(old(wire), session, ConnectedContent(old(connections)[session].id), wire)
              else
                && connections == old(connections) - {session}
                && sessions == old(sessions) - {old(connections)[session].id}
                && posted == old(posted)
                && SentAndClosed(old(wire), session, ErrorContent(), wire)
    {
      if ValueOf(content, AcceptVersion) != PROTOCOL_VERSION {
        Refuse(session, junk);
      } else if ValueOf(content, Host) != cfg.host {
        Refuse(session, junk);
      } else if connections[session].status != Pending {
        // A re-connection is not supported.
        Refuse(session, junk);
      } else {
        Establish(session, junk);
      }
    }

    /** Completes a pending connection, answers it and tells the user. */
    method Establish(session: SessionRef, junk: nat)
      requires Valid() && session in connections && connections[session].status == Pending
      modifies this
      ensures Valid()
      ensures sessions == old(sessions)
      ensures connections == old(connections)[session := Connection(old(connections)[session].id, Established)]
      ensures posted == old(posted) + if cfg.onConnect then [OnClientConnect(old(connections)[session].id)] else []
      ensures Sent(old(wire), session, ConnectedContent(old(connections)[session].id), wire)
    {
      var connection := connections[session];
      EstablishingKeepsInverse(State(), session);
      connections := connections[session := connection.(status := Established)];
      var response := MakeConnectedFrame(connection.id, junk);
      wire := wire + [SendText(session, response)];
      if cfg.onConnect {
        posted := posted + [OnClientConnect(connection.id)];
      }
    }

    method HandleSend(session: SessionRef, content: Content)
      requires Valid() && session in connections && content.command == Send
      modifies this
      ensures Valid() && State() == AfterSend(cfg, old(State()), session, content)
      ensures Answers(cfg, old(State()), session, false, Frame(content), old(wire), wire)
    {
      var connection := connections[session];
      if connection.status != Established {
        // The user never heard of this connection.
        CloseConnection(session, None);
        return;
      }
      if cfg.onMessage {
        posted := posted + [OnClientMessage(connection.id, ValueOf(content, Destination),
                                            ValueOf(content, Id), content.body)];
      }
    }

    method OnWsSessionDisconnect(failed: bool, session: SessionRef)
      requires Valid()
      modifies this
      ensures Valid() && wire == old(wire)
      ensures State() == Next(cfg, old(State()), WsDisconnect(session, failed))
    {
      if session !in connections {
        return;
      }
      DropKeepsInverse(State(), session);
      var connection := connections[session];
      sessions := sessions - {connection.id};
      connections := connections - {session};
      if connection.status == Established && cfg.onClientDisconnect {
        posted := posted + [OnClientDisconnect(connection.id, failed)];
      }
    }

    method OnWsDisconnect(failed: bool)
      requires Valid()
      modifies this
      ensures Valid() && wire == old(wire)
      ensures State() == Next(cfg, old(State()), WsServerDown(failed))
    {
      if cfg.onDisconnect {
        posted := posted + [OnDisconnect(failed)];
      }
    }

    /**
     * Sends a message to a connected client. The result is the request identifier, the user's own or a
     * new one, and empty if nothing was sent.
     */
    method SendMessage(connectionId: string, destination: string, message: string, userRequestId: string,
                       newId: string, junk: nat)
      returns (requestId: string)
      requires Valid() && |message| < SIZE_LIMIT && ValidValue(newId)
      modifies this`wire
      ensures Valid()
      ensures requestId == "" ==> wire == old(wire)
      ensures requestId != "" ==> connectionId in sessions && sessions[connectionId] in connections
      ensures requestId != "" ==> connections[sessions[connectionId]].status == Established
      ensures requestId != "" ==> requestId == if userRequestId == "" then newId else userRequestId
      ensures requestId != "" ==> exists text ::
                wire == old(wire) + [SendText(sessions[connectionId], text)] && Check(text, junk) == Returned(Ok) &&
                IsPrinted(Content(Send, map[Id := requestId, Destination := destination,
                                            ContentType := "application/json", ContentLength := ToDecimal(|message|)],
                                  message), text) &&
                ('\n' !in requestId && '\n' !in destination <==>
                   Parse(text) == Parsed(SendContent(requestId, destination, message)))
      ensures IsConnected(State(), connectionId) && '\n' !in userRequestId && '\n' !in destination ==>
                (requestId != "" <==> destination != "")
    {
      if connectionId !in sessions {
        return "";
      }
      var session := sessions[connectionId];
      if session !in connections {
        assert false;
      }
      if connections[session].status != Established {
        return "";
      }
      requestId := if userRequestId == "" then newId else userRequestId;
      var content := SendContent(requestId, destination, message);
      var ec, text := Compose(content, junk);
      SendIsPrintable(requestId, destination, message, junk);
      if ec == Returned(Ok) && '\n' !in requestId && '\n' !in destination {
        SentHasDestination(requestId, destination, message, text, junk);
      }
      if ec != Returned(Ok) {
        return "";
      }
      wire := wire + [SendText(session, text)];
    }

    /** Closes a connection on the user's behalf. */
    method Close(connectionId: string)
      requires Valid()
      modifies this
      ensures Valid() && State() == Next(cfg, old(State()), UserClose(connectionId))
      ensures wire == old(wire) + if connectionId in old(sessions)
                                  then [CloseSession(old(sessions)[connectionId])] else []
    {
      if connectionId !in sessions {
        return;
      }
      var session := sessions[connectionId];
      if session !in connections {
        assert false;
      }
      CloseConnection(session, None);
    }

    /** Stops the server: all sessions are closed and forgotten, and no handler is called. */
    method Stop()
      requires Valid()
      modifies this
      ensures Valid() && State() == Next(cfg, old(State()), UserStop)
      ensures |old(wire)| <= |wire| && wire[..|old(wire)|] == old(wire)
      ensures AreCloses(wire[|old(wire)|..], old(connections).Keys)
    {
      var rest := connections.Keys;
      while rest != {}
        invariant State() == old(State()) && Valid() && rest <= connections.Keys
        invariant |old(wire)| <= |wire| && wire[..|old(wire)|] == old(wire)
        invariant AreCloses(wire[|old(wire)|..], connections.Keys - rest)
        decreases rest
      {
        var session :| session in rest;
        CloseOneMore(wire[|old(wire)|..], connections.Keys - rest, session);
        rest := rest - {session};
        assert connections.Keys - rest == connections.Keys - (rest + {session}) + {session};
        assert (wire + [CloseSession(session)])[|old(wire)|..] == wire[|old(wire)|..] + [CloseSession(session)];
        wire := wire + [CloseSession(session)];
      }
      assert connections.Keys - {} == connections.Keys;
      connections := map[];
      sessions := map[];
    }
  }
}
