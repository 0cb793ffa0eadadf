/** The STOMP client: the messages it sends and what it makes of those it receives. */
module StompClients {
  import opened StompText
  import opened StompSyntax
  import opened StompFrames
  import opened ServerModel
  import opened ClientModel
  import opened StompServers

  function StompContent(cfg: ClientConfig): Content {
    Content(Stomp, map[AcceptVersion := "1.2", Host := cfg.url, Login := cfg.username, Passcode := cfg.password], "")
  }

  function SubscribeContent(id: string, destination: string): Content {
    Content(Subscribe, map[Id := id, Destination := destination, AckId := "auto", ReceiptRequest := id], "")
  }

  /** Server name and credentials make valid header values. */
  predicate CanGreet(cfg: ClientConfig) {
    ValidValue(cfg.url) && ValidValue(cfg.username) && ValidValue(cfg.password)
  }

  /** The greeting is a valid frame exactly if server name and credentials make valid header values. */
  lemma StompIsPrintable(cfg: ClientConfig, junk: nat)
    ensures Printable(StompContent(cfg), junk) <==> CanGreet(cfg)
  {
    var content := StompContent(cfg);
    assert ValidValue("1.2");
    if Printable(content, junk) {
      assert content.headers[Host] == cfg.url && content.headers[Login] == cfg.username;
      assert content.headers[Passcode] == cfg.password;
    }
  }

  lemma SubscribeIsPrintable(id: string, destination: string, junk: nat)
    requires ValidValue(id)
    ensures Printable(SubscribeContent(id, destination), junk) <==> ValidValue(destination)
  {
    var content := SubscribeContent(id, destination);
    assert ValidValue("auto");
    if Printable(content, junk) {
      assert content.headers[Destination] == destination;
    }
  }

  predicate HasNoNewlinesIn(cfg: ClientConfig) {
    '\n' !in cfg.url && '\n' !in cfg.username && '\n' !in cfg.password
  }

  lemma StompHeadersHaveNoNewlines(cfg: ClientConfig)
    requires HasNoNewlinesIn(cfg)
    ensures HasNoNewlines(StompContent(cfg).headers)
  {
    assert '\n' !in "1.2";
  }

  lemma StompHeaderValues(cfg: ClientConfig)
    requires ValidHeaders(StompContent(cfg).headers)
    ensures CanGreet(cfg)
  {
    var headers := StompContent(cfg).headers;
    assert headers[Host] == cfg.url && headers[Login] == cfg.username && headers[Passcode] == cfg.password;
  }

  /** Without newlines in its headers, a greeting that is valid has a server name and credentials. */
  lemma GreetingHasValues(cfg: ClientConfig, text: string, junk: nat)
    requires HasNoNewlinesIn(cfg)
    requires IsPrinted(StompContent(cfg), text) && Check(text, junk) == Returned(Ok)
    ensures CanGreet(cfg)
  {
    StompHeadersHaveNoNewlines(cfg);
    CheckedIsParsed(text, junk);
    PrintedValuesAreNotEmpty(StompContent(cfg), text);
    StompHeaderValues(cfg);
  }

  lemma SubscribeHeadersHaveNoNewlines(id: string, destination: string)
    requires ValidValue(id) && '\n' !in destination
    ensures HasNoNewlines(SubscribeContent(id, destination).headers)
  {
    assert '\n' !in "auto";
  }

  lemma SubscribeHeaderValues(id: string, destination: string)
    requires ValidHeaders(SubscribeContent(id, destination).headers)
    ensures ValidValue(destination)
  {
    assert SubscribeContent(id, destination).headers[Destination] == destination;
  }

  lemma SubscribedHasDestination(id: string, destination: string, text: string, junk: nat)
    requires ValidValue(id) && '\n' !in destination
    requires IsPrinted(SubscribeContent(id, destination), text) && Check(text, junk) == Returned(Ok)
    ensures ValidValue(destination)
  {
    SubscribeHeadersHaveNoNewlines(id, destination);
    CheckedIsParsed(text, junk);
    PrintedValuesAreNotEmpty(SubscribeContent(id, destination), text);
    SubscribeHeaderValues(id, destination);
  }

  /** One more text was sent: `content` as printed, and valid. It says `content` exactly if that is clean. */
  ghost predicate SentFrame(before: seq<string>, after: seq<string>, content: Content, clean: bool, junk: nat) {
    exists text :: after == before + [text] && Check(text, junk) == Returned(Ok) && IsPrinted(content, text) &&
                   (clean <==> Parse(text) == Parsed(content))
  }

  class StompClient {
    const cfg: ClientConfig
    var subscriptions: map<string, SubscriptionInfo>
    var posted: seq<ClientCallback>
    // The texts sent over the WebSocket connection.
    var wire: seq<string>

    function State(): ClientState
      reads this
    {
      ClientState(subscriptions, posted)
    }

    constructor (cfg: ClientConfig)
      ensures this.cfg == cfg && State() == ClientState(map[], []) && wire == []
    {
      this.cfg := cfg;
      subscriptions, posted, wire := map[], [], [];
    }

    /** Greets the server once the WebSocket connection is there. */
    method OnWsConnect(failed: bool, junk: nat)
      modifies this`posted, this`wire
      ensures State() == NextClient(cfg, old(State()), WsOpened(failed, wire != old(wire)))
      ensures failed ==> wire == old(wire)
      ensures wire != old(wire) ==>
                SentFrame(old(wire), wire,
                          Content(Stomp, map[AcceptVersion := "1.2", Host := cfg.url, Login := cfg.username,
                                             Passcode := cfg.password], ""),
                          CanGreet(cfg), junk)
      ensures !failed && HasNoNewlinesIn(cfg) ==>
                (wire != old(wire) <==> CanGreet(cfg))
      ensures !failed && CanGreet(cfg) ==> wire != old(wire)
    {
      if failed {
        if cfg.onConnect {
          posted := posted + [OnConnect(CouldNotConnectToWebSocketServer)];
        }
        return;
      }
      StompIsPrintable(cfg, junk);
      var ec, text := Compose(StompContent(cfg), junk);
      if ec != Returned(Ok) {
        if cfg.onConnect {
          posted := posted + [OnConnect(UnexpectedCouldNotCreateValidFrame)];
        }
        return;
      }
      if HasNoNewlinesIn(cfg) {
        GreetingHasValues(cfg, text, junk);
      }
      wire := wire + [text];
    }

    /** Sends a message; the result is the new request identifier, empty if nothing was sent. */
    method SendMessage(destination: string, message: string, newId: string, junk: nat) returns (requestId: string)
      requires |message| < SIZE_LIMIT && ValidValue(newId)
      modifies this`wire
      ensures requestId == "" ==> wire == old(wire)
      ensures requestId != "" ==> requestId == newId
      ensures requestId != "" ==>
                SentFrame(old(wire), wire,
                          Content(Send, map[Id := requestId, Destination := destination,
                                            ContentType := "application/json", ContentLength := ToDecimal(|message|)],
                                  message),
                          '\n' !in destination, junk)
      ensures '\n' !in destination ==> (requestId != "" <==> destination != "")
    {
      requestId := newId;
      var ec, text := Compose(SendContent(requestId, destination, message), junk);
      SendIsPrintable(requestId, destination, message, junk);
      if ec == Returned(Ok) && '\n' !in destination {
        SentHasDestination(requestId, destination, message, text, junk);
      }
      if ec != Returned(Ok) {
        return "";
      }
      wire := wire + [text];
    }

    /** Asks for a subscription; it is kept once the request was sent. */
    method SubscribeTo(destination: string, newId: string, junk: nat) returns (id: string)
      requires ValidValue(newId)
      modifies this`wire
      ensures id == "" ==> wire == old(wire)
      ensures id != "" ==> id == newId
      ensures id != "" ==>
                SentFrame(old(wire), wire,
                          Content(Subscribe, map[Id := id, Destination := destination, AckId := "auto",
                                                 ReceiptRequest := id], ""),
                          '\n' !in destination, junk)
      ensures '\n' !in destination ==> (id != "" <==> destination != "")
    {
      SubscribeIsPrintable(newId, destination, junk);
      var ec, text := Compose(SubscribeContent(newId, destination), junk);
      if ec == Returned(Ok) && '\n' !in destination {
        SubscribedHasDestination(newId, destination, text, junk);
      }
      if ec != Returned(Ok) {
        return "";
      }
      wire := wire + [text];
      return newId;
    }

    /** Hears of the greeting. */
    method OnWsSendStomp(failed: bool)
      modifies this`posted
      ensures State() == NextClient(cfg, old(State()), StompSent(failed))
    {
      if failed && cfg.onConnect {
        posted := posted + [OnConnect(CouldNotSendStompFrame)];
      }
    }

    /** Hears of a subscription request, and keeps the subscription. */
    method OnWsSendSubscribe(failed: bool, id: string, subscription: SubscriptionInfo)
      modifies this`subscriptions, this`posted
      ensures State() == NextClient(cfg, old(State()), SubscribeSent(failed, id, subscription))
    {
      if failed {
        if subscription.onSubscribe {
          posted := posted + [OnSubscribe(id, CouldNotSendSubscribeFrame, "")];
        }
      } else if id !in subscriptions {
        subscriptions := subscriptions[id := subscription];
      }
    }

    method OnWsDisconnect(failed: bool)
      modifies this`posted
      ensures State() == NextClient(cfg, old(State()), WsClosed(failed))
    {
      if cfg.onDisconnect {
        posted := posted + [OnDisconnected(if failed then WebSocketServerDisconnected else ClientOk)];
      }
    }

    /** Closes the client on the user's behalf: all subscriptions are forgotten. */
    method Close()
      modifies this`subscriptions
      ensures State() == NextClient(cfg, old(State()), ClientClose)
    {
      subscriptions := map[];
    }

    /** Dispatches a message from the server. */
    method OnWsMessage(msg: string, junk: nat)
      modifies this`posted
      ensures State() == NextClient(cfg, old(State()), ServerMessage(Read(msg, junk)))
    {
      var incoming := Receive(msg, junk);
      match incoming
      case Crash =>
      case Garbage =>
        if cfg.onConnect {
          posted := posted + [OnConnect(CouldNotParseMessageAsStompFrame)];
        }
      case Frame(content) =>
        HandleFrame(content);
    }

    method HandleFrame(content: Content)
      modifies this`posted
      ensures State() == NextClient(cfg, old(State()), ServerMessage(Frame(content)))
    {
      match content.command
      case Connected =>
        if cfg.onConnect {
          posted := posted + [OnConnect(ClientOk)];
        }
      case Message =>
        HandleSubscriptionMessage(content);
      case Receipt =>
        var id := ValueOf(content, ReceiptId);
        if id in subscriptions && subscriptions[id].onSubscribe {
          posted := posted + [OnSubscribe(id, ClientOk, id)];
        }
      case Send =>
        if cfg.onMessage {
          posted := posted + [OnMessage(ValueOf(content, Destination), content.body)];
        }
      case _ =>
    }

    /** Gives a message to its subscriber. */
    method HandleSubscriptionMessage(content: Content)
      requires content.command == Message
      modifies this`posted
      ensures State() == NextClient(cfg, old(State()), ServerMessage(Frame(content)))
    {
      var id := ValueOf(content, Subscription);
      if id !in subscriptions {
        return;
      }
      var subscription := subscriptions[id];
      if ValueOf(content, Destination) != subscription.destination {
        if subscription.onMessage {
          posted := posted + [OnSubscriptionMessage(id, UnexpectedSubscriptionMismatch, "")];
        }
        return;
      }
      if subscription.onMessage {
        posted := posted + [OnSubscriptionMessage(id, ClientOk, content.body)];
      }
    }
  }
}
