/** Messages between the two ends of the wire. */
module EndToEnd {
  import opened StompText
  import opened StompSyntax
  import opened StompFrames
  import opened ServerModel
  import opened StompServers
  import opened ClientModel
  import opened StompClients

  /** A text that says something printable is received as just that. */
  lemma PrintableIsReceived(text: string, content: Content, junk: nat)
    requires Parse(text) == Parsed(content) && Printable(content, junk)
    ensures Read(text, junk) == Frame(content)
  {
    ValidationAfterParsing(text, junk);
  }

  lemma SendValues(requestId: string, destination: string, message: string)
    ensures ValueOf(SendContent(requestId, destination, message), Id) == requestId
    ensures ValueOf(SendContent(requestId, destination, message), Destination) == destination
  {
    SendHeaderValues(requestId, destination, message);
  }

  /** A message the server sends reaches the client's handler with its destination and content, whatever its octets. */
  lemma ServerToClient(cfg: ClientConfig, s: ClientState, text: string, junk: nat,
                       requestId: string, destination: string, message: string)
    requires Parse(text) == Parsed(SendContent(requestId, destination, message))
    requires ValidValue(requestId) && ValidValue(destination) && |message| < SIZE_LIMIT
    requires cfg.onMessage
    ensures AfterServerMessage(cfg, s, Read(text, junk)) == s.(posted := s.posted + [OnMessage(destination, message)])
  {
    SendIsPrintable(requestId, destination, message, junk);
    PrintableIsReceived(text, SendContent(requestId, destination, message), junk);
    SendValues(requestId, destination, message);
  }

  /** A message a connected client sends reaches the server's handler, with the request identifier too. */
  lemma ClientToServer(cfg: Config, s: ServerState, session: SessionRef, text: string, junk: nat,
                       requestId: string, destination: string, message: string)
    requires Parse(text) == Parsed(SendContent(requestId, destination, message))
    requires ValidValue(requestId) && ValidValue(destination) && |message| < SIZE_LIMIT
    requires cfg.onMessage && session in s.connections && s.connections[session].status == Established
    ensures Next(cfg, s, WsMessage(session, false, Read(text, junk))) ==
            s.(posted := s.posted + [OnClientMessage(s.connections[session].id, destination, requestId, message)])
  {
    SendIsPrintable(requestId, destination, message, junk);
    PrintableIsReceived(text, SendContent(requestId, destination, message), junk);
    SendValues(requestId, destination, message);
  }

  /** Just the valid frames are received as frames, and only what could be sent again as it is. */
  lemma ReceivedIsFaithful(text: string, junk: nat, content: Content)
    ensures Read(text, junk) == Frame(content) <==>
              IsFrame(text, content) && HasNeeded(content) && (LengthOutOfRange(content.headers) ==> junk == 0)
    ensures Read(text, junk) == Frame(content) ==> Parse(text) == Parsed(content) && Faithful(content)
  {
    ParserDecidesFrames(text, content);
    RequiredAreNeeded(content);
    if Read(text, junk) == Frame(content) {
      CheckedIsParsed(text, junk);
    }
    if Parse(text) == Parsed(content) {
      ParsedIsFaithful(text);
      ValidationAfterParsing(text, junk);
    }
  }

  /** Every message is what some text is read as. */
  ghost predicate AreRead(run: seq<Event>) {
    forall e :: e in run && e.WsMessage? ==> exists text, junk :: e.incoming == Read(text, junk)
  }

  /** A valid STOMP frame asks for a host, so the greeting that is accepted names the server's. */
  lemma ConnectsNameTheHost(cfg: Config, run: seq<Event>, k: nat, id: string) returns (i: nat)
    requires AreRead(run) && k < |After(cfg, run).posted| && After(cfg, run).posted[k] == OnClientConnect(id)
    ensures i < |run| && run[i].WsMessage? && !run[i].failed && run[i].incoming.Frame?
    ensures run[i].session in After(cfg, run[..i]).connections
    ensures After(cfg, run[..i]).connections[run[i].session] == Connection(id, Pending)
    ensures run[i].incoming.content.command == Stomp
    ensures AcceptVersion in run[i].incoming.content.headers
    ensures run[i].incoming.content.headers[AcceptVersion] == "1.2"
    ensures Host in run[i].incoming.content.headers && run[i].incoming.content.headers[Host] == cfg.host
  {
    i := CallsHaveCauses(cfg, run, k);
    assert run[i] in run;
    var text, junk :| run[i].incoming == Read(text, junk);
    GreetingHasBoth(text, junk, run[i].incoming.content);
  }

  lemma GreetingHasBoth(text: string, junk: nat, content: Content)
    requires Read(text, junk) == Frame(content) && content.command == Stomp
    ensures AcceptVersion in content.headers && Host in content.headers
  {
    ReceivedIsFaithful(text, junk, content);
    assert Needs(Stomp, Host) && Needs(Stomp, AcceptVersion);
  }

  /**
   * A greeting has both headers. It establishes a pending connection if they name version 1.2 and the server's
   * host, and the user is told; any other greeting drops the connection, and nothing is posted.
   */
  lemma GreetingDecides(cfg: Config, s: ServerState, session: SessionRef, text: string, junk: nat, content: Content)
    requires session in s.connections && Read(text, junk) == Frame(content) && content.command == Stomp
    ensures AcceptVersion in content.headers && Host in content.headers
    ensures var t, id := Next(cfg, s, WsMessage(session, false, Read(text, junk))), s.connections[session].id;
            if && content.headers[AcceptVersion] == "1.2" && content.headers[Host] == cfg.host
               && s.connections[session].status == Pending
            then
              && t.connections == s.connections[session := Connection(id, Established)] && t.sessions == s.sessions
              && t.posted == s.posted + if cfg.onConnect then [OnClientConnect(id)] else []
            else
              && t.connections == s.connections - {session} && t.sessions == s.sessions - {id}
              && t.posted == s.posted
  {
    GreetingHasBoth(text, junk, content);
    HeadersDecide(cfg, s, session, content);
  }

  /**
   * The request identifier and the destination that the server's user is given can be used for an answer
   * without further checks: the answer is always a valid frame. A missing request identifier is empty,
   * and a new one is made for the answer.
   */
  lemma RequestsCanBeEchoed(cfg: Config, s: ServerState, session: SessionRef, text: string, junk: nat,
                            id: string, destination: string, requestId: string, content: string,
                            newId: string, answer: string)
    requires Next(cfg, s, WsMessage(session, false, Read(text, junk))).posted ==
             s.posted + [OnClientMessage(id, destination, requestId, content)]
    requires ValidValue(newId) && |answer| < SIZE_LIMIT
    ensures requestId == "" || ValidValue(requestId)
    ensures Printable(SendContent(if requestId == "" then newId else requestId, destination, answer), junk)
  {
    var e := WsMessage(session, false, Read(text, junk));
    StepPostsWithCause(cfg, s, e);
    var t := Next(cfg, s, e);
    assert t.posted[|s.posted|] == OnClientMessage(id, destination, requestId, content);
    var frame := e.incoming.content;
    ReceivedIsFaithful(text, junk, frame);
    SendIsPrintable(if requestId == "" then newId else requestId, destination, answer, junk);
  }

  /** A client that names the server's host is connected by its greeting. */
  lemma GreetingConnects(client: ClientConfig, cfg: Config, s: ServerState, session: SessionRef, id: string,
                         greeting: string, junk: nat)
    requires Parse(greeting) == Parsed(StompContent(client)) && CanGreet(client) && client.url == cfg.host
    requires session in s.connections && s.connections[session] == Connection(id, Pending)
    ensures Next(cfg, s, WsMessage(session, false, Read(greeting, junk))) ==
            Post(s.(connections := s.connections[session := Connection(id, Established)]),
                 cfg.onConnect, OnClientConnect(id))
  {
    GreetingIsWelcome(client, cfg, greeting, junk);
  }

  /** The server's answer to a greeting tells the client that it is connected. */
  lemma AnswerIsHeard(client: ClientConfig, s: ClientState, id: string, answer: string, junk: nat)
    requires Parse(answer) == Parsed(ConnectedContent(id)) && ValidValue(id)
    ensures AfterServerMessage(client, s, Read(answer, junk)) == PostClient(s, client.onConnect, OnConnect(ClientOk))
  {
    ConnectedIsPrintable(id, junk);
    PrintableIsReceived(answer, ConnectedContent(id), junk);
  }

  // The calls themselves, with the wire between them

  /**
   * The server sends a message and its text reaches the client: the client's user is given the same
   * destination and content.
   */
  method DeliverToClient(server: StompServer, client: StompClient, connectionId: string, destination: string,
                         message: string, userRequestId: string, newId: string, junk: nat, clientJunk: nat)
    returns (requestId: string)
    requires server.Valid() && client.cfg.onMessage && |message| < SIZE_LIMIT && ValidValue(newId)
    modifies server`wire, client`posted
    ensures server.Valid()
    ensures requestId != "" ==> requestId == if userRequestId == "" then newId else userRequestId
    ensures requestId == "" ==> client.posted == old(client.posted)
    ensures requestId != "" && '\n' !in requestId && '\n' !in destination ==>
              client.posted == old(client.posted) + [OnMessage(destination, message)]
    ensures IsConnected(server.State(), connectionId) && '\n' !in userRequestId && '\n' !in destination ==>
              (requestId != "" <==> destination != "")
  {
    requestId := server.SendMessage(connectionId, destination, message, userRequestId, newId, junk);
    if requestId != "" {
      var text := server.wire[|server.wire| - 1].text;
      if '\n' !in requestId && '\n' !in destination {
        HearMessage(client, text, requestId, destination, message, clientJunk);
      } else {
        client.OnWsMessage(text, clientJunk);
      }
    }
  }

  method HearMessage(client: StompClient, text: string, requestId: string, destination: string, message: string,
                     junk: nat)
    requires Parse(text) == Parsed(SendContent(requestId, destination, message))
    requires |message| < SIZE_LIMIT && client.cfg.onMessage
    modifies client`posted
    ensures client.posted == old(client.posted) + [OnMessage(destination, message)]
  {
    SentValuesAreValid(requestId, destination, message, text, junk);
    ServerToClient(client.cfg, client.State(), text, junk, requestId, destination, message);
    client.OnWsMessage(text, junk);
  }

  lemma SentValuesAreValid(requestId: string, destination: string, message: string, text: string, junk: nat)
    requires |message| < SIZE_LIMIT && Parse(text) == Parsed(SendContent(requestId, destination, message))
    ensures ValidValue(requestId) && ValidValue(destination)
  {
    ParsedIsFaithful(text);
    SendHeaderValues(requestId, destination, message);
  }

  /**
   * The client sends a message and its text reaches the server on an established connection: the server's
   * user is given the same destination, content and request identifier.
   */
  method DeliverToServer(client: StompClient, server: StompServer, session: SessionRef, destination: string,
                         message: string, newId: string, junk: nat, serverJunk: nat)
    returns (requestId: string)
    requires server.Valid() && server.cfg.onMessage && |message| < SIZE_LIMIT && ValidValue(newId)
    requires session in server.connections && server.connections[session].status == Established
    modifies server, client`wire
    ensures server.Valid()
    ensures requestId != "" ==> requestId == newId
    ensures requestId == "" ==> server.State() == old(server.State())
    ensures requestId != "" && '\n' !in destination ==>
              server.sessions == old(server.sessions) && server.connections == old(server.connections) &&
              server.posted == old(server.posted) +
                [OnClientMessage(old(server.connections)[session].id, destination, requestId, message)]
    ensures '\n' !in destination ==> (requestId != "" <==> destination != "")
  {
    requestId := client.SendMessage(destination, message, newId, junk);
    if requestId != "" {
      var text := client.wire[|client.wire| - 1];
      if '\n' !in destination {
        SentValuesAreValid(requestId, destination, message, text, junk);
        ClientToServer(server.cfg, server.State(), session, text, serverJunk, requestId, destination, message);
      }
      server.OnWsSessionMessage(false, session, text, serverJunk);
    }
  }

  /**
   * A request and its answer: the server's user echoes the destination and the request identifier it was
   * given, and the answer reaches the client under the identifier of the request.
   */
  method Exchange(client: StompClient, server: StompServer, session: SessionRef, destination: string,
                  request: string, answer: string, newId: string, otherId: string, junk: nat)
    returns (requestId: string, answerId: string)
    requires server.Valid() && server.cfg.onMessage && client.cfg.onMessage
    requires session in server.connections && server.connections[session].status == Established
    requires |request| < SIZE_LIMIT && |answer| < SIZE_LIMIT && ValidValue(newId) && ValidValue(otherId)
    requires ValidValue(destination)
    modifies server, client
    ensures server.Valid() && requestId == answerId == newId
    ensures server.posted == old(server.posted) +
              [OnClientMessage(old(server.connections)[session].id, destination, requestId, request)]
    ensures client.posted == old(client.posted) + [OnMessage(destination, answer)]
  {
    requestId := DeliverToServer(client, server, session, destination, request, newId, junk, junk);
    var call := server.posted[|server.posted| - 1];
    answerId := DeliverToClient(server, client, call.id, call.destination, answer, call.requestId, otherId, junk, junk);
  }

  /** The client sends its greeting when the WebSocket connection is there. */
  method SendGreeting(client: StompClient, junk: nat) returns (greeting: string)
    requires CanGreet(client.cfg)
    modifies client
    ensures client.State() == old(client.State()) && Parse(greeting) == Parsed(StompContent(client.cfg))
  {
    client.OnWsConnect(false, junk);
    greeting := client.wire[|client.wire| - 1];
  }

  /** A greeting reaches the server on a pending connection, which is then established and answered. */
  method DeliverGreeting(server: StompServer, client: ClientConfig, session: SessionRef, greeting: string, junk: nat)
    returns (answer: string)
    requires server.Valid() && session in server.connections && server.connections[session].status == Pending
    requires Parse(greeting) == Parsed(StompContent(client)) && CanGreet(client) && client.url == server.cfg.host
    requires server.cfg.onConnect
    modifies server
    ensures server.Valid() && server.sessions == old(server.sessions)
    ensures server.connections == old(server.connections)[session :=
              Connection(old(server.connections)[session].id, Established)]
    ensures server.posted == old(server.posted) + [OnClientConnect(old(server.connections)[session].id)]
    ensures Parse(answer) == Parsed(ConnectedContent(old(server.connections)[session].id))
  {
    GreetingConnects(client, server.cfg, server.State(), session, server.connections[session].id, greeting, junk);
    GreetingIsWelcome(client, server.cfg, greeting, junk);
    server.OnWsSessionMessage(false, session, greeting, junk);
    answer := server.wire[|server.wire| - 1].text;
  }

  method HearAnswer(client: StompClient, ghost id: string, answer: string, junk: nat)
    requires Parse(answer) == Parsed(ConnectedContent(id)) && ValidValue(id) && client.cfg.onConnect
    modifies client`posted
    ensures client.posted == old(client.posted) + [OnConnect(ClientOk)]
  {
    AnswerIsHeard(client.cfg, client.State(), id, answer, junk);
    client.OnWsMessage(answer, junk);
  }

  /**
   * The client greets the server on a pending connection, and the answer reaches the client: both users hear
   * that the connection is established, and it is.
   */
  method Handshake(client: StompClient, server: StompServer, session: SessionRef, junk: nat)
    requires server.Valid() && session in server.connections && server.connections[session].status == Pending
    requires CanGreet(client.cfg) && client.cfg.url == server.cfg.host
    requires client.cfg.onConnect && server.cfg.onConnect
    modifies server, client
    ensures server.Valid() && server.sessions == old(server.sessions)
    ensures server.connections == old(server.connections)[session :=
              Connection(old(server.connections)[session].id, Established)]
    ensures server.posted == old(server.posted) + [OnClientConnect(old(server.connections)[session].id)]
    ensures client.posted == old(client.posted) + [OnConnect(ClientOk)]
  {
    ghost var id := server.connections[session].id;
    var greeting := SendGreeting(client, junk);
    var answer := DeliverGreeting(server, client.cfg, session, greeting, junk);
    HearAnswer(client, id, answer, junk);
  }

  lemma GreetingIsWelcome(client: ClientConfig, cfg: Config, greeting: string, junk: nat)
    requires Parse(greeting) == Parsed(StompContent(client)) && CanGreet(client) && client.url == cfg.host
    ensures Read(greeting, junk) == Frame(StompContent(client)) && IsWelcome(cfg, StompContent(client))
  {
    StompIsPrintable(client, junk);
    PrintableIsReceived(greeting, StompContent(client), junk);
    var headers := StompContent(client).headers;
    assert headers[AcceptVersion] == PROTOCOL_VERSION && headers[Host] == cfg.host;
  }
}
