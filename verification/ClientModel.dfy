/** The STOMP client as a machine over its events, and what all runs have in common. */
module ClientModel {
  import opened StompText
  import opened StompSyntax
  import opened StompFrames
  import opened ServerModel

  datatype ClientError =
    | ClientOk | CouldNotConnectToWebSocketServer | CouldNotParseMessageAsStompFrame | CouldNotSendStompFrame
    | CouldNotSendSubscribeFrame | UnexpectedCouldNotCreateValidFrame | UnexpectedSubscriptionMismatch
    | WebSocketServerDisconnected

  /** The server's name, the user's credentials, and which handlers the user has set. */
  datatype ClientConfig = ClientConfig(
    url: string, username: string, password: string, onConnect: bool, onMessage: bool, onDisconnect: bool)

  /** The destination subscribed to, and which handlers the subscriber has set. */
  datatype SubscriptionInfo = SubscriptionInfo(destination: string, onSubscribe: bool, onMessage: bool)

  /** The calls to user handlers; a subscription's own handlers are told apart by its identifier. */
  datatype ClientCallback =
    | OnConnect(error: ClientError)
    | OnMessage(destination: string, message: string)
    | OnDisconnected(error: ClientError)
    | OnSubscribe(subscription: string, error: ClientError, id: string)
    | OnSubscriptionMessage(subscription: string, error: ClientError, message: string)

  datatype ClientState = ClientState(subscriptions: map<string, SubscriptionInfo>, posted: seq<ClientCallback>)

  /** `greeted` says whether a valid greeting could be made. */
  datatype ClientEvent =
    | WsOpened(failed: bool, greeted: bool)
    | StompSent(failed: bool)
    | SubscribeSent(failed: bool, id: string, subscription: SubscriptionInfo)
    | ServerMessage(incoming: Incoming)
    | WsClosed(failed: bool)
    | ClientClose

  function PostClient(s: ClientState, enabled: bool, c: ClientCallback): ClientState {
    if enabled then s.(posted := s.posted + [c]) else s
  }

  function AfterSubscriptionMessage(s: ClientState, content: Content): ClientState {
    var id := ValueOf(content, Subscription);
    if id !in s.subscriptions then s
    else if ValueOf(content, Destination) != s.subscriptions[id].destination then
      PostClient(s, s.subscriptions[id].onMessage, OnSubscriptionMessage(id, UnexpectedSubscriptionMismatch, ""))
    else PostClient(s, s.subscriptions[id].onMessage, OnSubscriptionMessage(id, ClientOk, content.body))
  }

  function AfterReceipt(s: ClientState, content: Content): ClientState {
    var id := ValueOf(content, ReceiptId);
    if id !in s.subscriptions then s
    else PostClient(s, s.subscriptions[id].onSubscribe, OnSubscribe(id, ClientOk, id))
  }

  /** The state after a message from the server. */
  function AfterServerMessage(cfg: ClientConfig, s: ClientState, incoming: Incoming): ClientState {
    match incoming
    case Crash => s
    case Garbage => PostClient(s, cfg.onConnect, OnConnect(CouldNotParseMessageAsStompFrame))
    case Frame(content) =>
      match content.command
      case Connected => PostClient(s, cfg.onConnect, OnConnect(ClientOk))
      case Message => AfterSubscriptionMessage(s, content)
      case Receipt => AfterReceipt(s, content)
      case Send => PostClient(s, cfg.onMessage, OnMessage(ValueOf(content, Destination), content.body))
      case _ => s
  }

  /** A subscription is kept under an identifier that is not in use. */
  function AfterSubscribeSent(s: ClientState, failed: bool, id: string, subscription: SubscriptionInfo): ClientState {
    if failed then PostClient(s, subscription.onSubscribe, OnSubscribe(id, CouldNotSendSubscribeFrame, ""))
    else if id in s.subscriptions then s
    else s.(subscriptions := s.subscriptions[id := subscription])
  }

  function NextClient(cfg: ClientConfig, s: ClientState, e: ClientEvent): ClientState {
    match e
    case WsOpened(failed, greeted) =>
      if failed then PostClient(s, cfg.onConnect, OnConnect(CouldNotConnectToWebSocketServer))
      else PostClient(s, !greeted && cfg.onConnect, OnConnect(UnexpectedCouldNotCreateValidFrame))
    case StompSent(failed) => PostClient(s, failed && cfg.onConnect, OnConnect(CouldNotSendStompFrame))
    case SubscribeSent(failed, id, subscription) => AfterSubscribeSent(s, failed, id, subscription)
    case ServerMessage(incoming) => AfterServerMessage(cfg, s, incoming)
    case WsClosed(failed) =>
      PostClient(s, cfg.onDisconnect, OnDisconnected(if failed then WebSocketServerDisconnected else ClientOk))
    case ClientClose => s.(subscriptions := map[])
  }

  /** The state after a run of events. */
  function AfterClient(cfg: ClientConfig, run: seq<ClientEvent>): ClientState {
    if run == [] then ClientState(map[], [])
    else NextClient(cfg, AfterClient(cfg, run[..|run| - 1]), run[|run| - 1])
  }

  // Subscriptions

  /** The client is not closed by any event from position `i` on. */
  ghost predicate OpenFrom(run: seq<ClientEvent>, i: nat) {
    forall k :: i <= k < |run| ==> !run[k].ClientClose?
  }

  /** The request for the subscription was sent at position `j`, when the identifier was not in use. */
  ghost predicate KeptAt(cfg: ClientConfig, run: seq<ClientEvent>, j: nat, id: string, subscription: SubscriptionInfo) {
    && j < |run| && run[j] == SubscribeSent(false, id, subscription)
    && id !in AfterClient(cfg, run[..j]).subscriptions
    && OpenFrom(run, j)
  }

  /** Until the client is closed, a subscription that is kept stays and never changes. */
  lemma {:induction false} SubscriptionStays(cfg: ClientConfig, run: seq<ClientEvent>, i: nat, id: string)
    requires i <= |run| && id in AfterClient(cfg, run[..i]).subscriptions && OpenFrom(run, i)
    ensures id in AfterClient(cfg, run).subscriptions
    ensures AfterClient(cfg, run).subscriptions[id] == AfterClient(cfg, run[..i]).subscriptions[id]
    decreases |run|
  {
    if i == |run| {
      assert run[..i] == run;
    } else {
      var before := run[..|run| - 1];
      assert before[..i] == run[..i];
      SubscriptionStays(cfg, before, i, id);
    }
  }

  /** A subscription is kept exactly if its request was sent and the client was not closed since. */
  lemma KeptMeansRequested(cfg: ClientConfig, run: seq<ClientEvent>, id: string, subscription: SubscriptionInfo)
    ensures id in AfterClient(cfg, run).subscriptions && AfterClient(cfg, run).subscriptions[id] == subscription
            <==> exists j: nat :: KeptAt(cfg, run, j, id, subscription)
  {
    if id in AfterClient(cfg, run).subscriptions && AfterClient(cfg, run).subscriptions[id] == subscription {
      var j := KeptWasRequested(cfg, run, id);
    }
    if j: nat :| KeptAt(cfg, run, j, id, subscription) {
      assert run[..j + 1][..|run[..j + 1]| - 1] == run[..j];
      SubscriptionStays(cfg, run, j + 1, id);
    }
  }

  /** A subscription that is known after an event was known before, or its request was sent by it. */
  lemma KeptByStep(cfg: ClientConfig, s: ClientState, e: ClientEvent, id: string)
    requires id in NextClient(cfg, s, e).subscriptions
    ensures !e.ClientClose?
    ensures if id in s.subscriptions then NextClient(cfg, s, e).subscriptions[id] == s.subscriptions[id]
            else e == SubscribeSent(false, id, NextClient(cfg, s, e).subscriptions[id])
  {
  }

  lemma {:induction false} KeptWasRequested(cfg: ClientConfig, run: seq<ClientEvent>, id: string) returns (j: nat)
    requires id in AfterClient(cfg, run).subscriptions
    ensures KeptAt(cfg, run, j, id, AfterClient(cfg, run).subscriptions[id])
    decreases |run|
  {
    var n := |run| - 1;
    var before := run[..n];
    KeptByStep(cfg, AfterClient(cfg, before), run[n], id);
    if id in AfterClient(cfg, before).subscriptions {
      j := KeptWasRequested(cfg, before, id);
      assert before[..j] == run[..j];
      assert forall k :: 0 <= k < n ==> before[k] == run[k];
    } else {
      j := n;
    }
  }

  // Calls and their causes

  /** The header has the value; a header that is absent counts as empty. */
  predicate IsValue(headers: Headers, h: StompHeader, value: string) {
    if h in headers then headers[h] == value else value == ""
  }

  /** The event is the reason for the call, given the state it meets. */
  predicate CausesCall(s: ClientState, e: ClientEvent, c: ClientCallback) {
    match c
    case OnConnect(error) =>
      (match error
       case ClientOk => e.ServerMessage? && e.incoming.Frame? && e.incoming.content.command == StompCommand.Connected
       case CouldNotConnectToWebSocketServer => e.WsOpened? && e.failed
       case CouldNotParseMessageAsStompFrame => e == ServerMessage(Garbage)
       case CouldNotSendStompFrame => e == StompSent(true)
       case UnexpectedCouldNotCreateValidFrame => e == WsOpened(false, false)
       case _ => false)
    case OnMessage(destination, message) =>
      && e.ServerMessage? && e.incoming.Frame? && e.incoming.content.command == Send
      && IsValue(e.incoming.content.headers, Destination, destination) && message == e.incoming.content.body
    case OnDisconnected(error) =>
      e.WsClosed? && error == if e.failed then WebSocketServerDisconnected else ClientOk
    case OnSubscribe(subscription, error, id) =>
      if error == ClientOk then
        && e.ServerMessage? && e.incoming.Frame? && e.incoming.content.command == Receipt
        && IsValue(e.incoming.content.headers, ReceiptId, subscription) && id == subscription
        && subscription in s.subscriptions && s.subscriptions[subscription].onSubscribe
      else
        && error == CouldNotSendSubscribeFrame && id == ""
        && e.SubscribeSent? && e.failed && e.id == subscription && e.subscription.onSubscribe
    case OnSubscriptionMessage(subscription, error, message) =>
      && IsMessageFor(e, subscription)
      && subscription in s.subscriptions && s.subscriptions[subscription].onMessage
      && if IsValue(e.incoming.content.headers, Destination, s.subscriptions[subscription].destination)
         then error == ClientOk && message == e.incoming.content.body
         else error == UnexpectedSubscriptionMismatch && message == ""
  }

  /** A MESSAGE frame came that names the subscription. */
  predicate IsMessageFor(e: ClientEvent, subscription: string) {
    && e.ServerMessage? && e.incoming.Frame? && e.incoming.content.command == Message
    && IsValue(e.incoming.content.headers, Subscription, subscription)
  }

  lemma AnswersHaveCauses(cfg: ClientConfig, s: ClientState, incoming: Incoming)
    ensures var t := AfterServerMessage(cfg, s, incoming);
            t.posted == s.posted || exists c :: t.posted == s.posted + [c] && CausesCall(s, ServerMessage(incoming), c)
  {
    var t := AfterServerMessage(cfg, s, incoming);
    if t.posted != s.posted {
      var c := t.posted[|t.posted| - 1];
      assert t.posted == s.posted + [c] && CausesCall(s, ServerMessage(incoming), c);
    }
  }

  /** A step posts at most one call, and only one that the event is the reason for. */
  lemma ClientPostsWithCause(cfg: ClientConfig, s: ClientState, e: ClientEvent)
    ensures var t := NextClient(cfg, s, e);
            t.posted == s.posted || exists c :: t.posted == s.posted + [c] && CausesCall(s, e, c)
  {
    var t := NextClient(cfg, s, e);
    if e.ServerMessage? {
      AnswersHaveCauses(cfg, s, e.incoming);
    } else if t.posted != s.posted {
      var c := t.posted[|t.posted| - 1];
      assert t.posted == s.posted + [c] && CausesCall(s, e, c);
    }
  }

  /** Conversely, a cause makes its call if the handlers of the client are set. */
  lemma ClientCausesMakeCalls(cfg: ClientConfig, s: ClientState, e: ClientEvent, c: ClientCallback)
    requires cfg.onConnect && cfg.onMessage && cfg.onDisconnect && CausesCall(s, e, c)
    ensures NextClient(cfg, s, e).posted == s.posted + [c]
  {
  }

  /** Every call posted in a run has a cause in it. */
  lemma {:induction false} ClientCallsHaveCauses(cfg: ClientConfig, run: seq<ClientEvent>, k: nat) returns (i: nat)
    requires k < |AfterClient(cfg, run).posted|
    ensures i < |run| && CausesCall(AfterClient(cfg, run[..i]), run[i], AfterClient(cfg, run).posted[k])
    decreases |run|
  {
    var n := |run| - 1;
    var before := AfterClient(cfg, run[..n]);
    ClientPostsWithCause(cfg, before, run[n]);
    if k < |before.posted| {
      i := ClientCallsHaveCauses(cfg, run[..n], k);
      assert run[..n][..i] == run[..i];
    } else {
      i := n;
    }
  }

  /**
   * A subscriber is given a message only if a MESSAGE frame came for the subscription, with the destination
   * subscribed to and this content, after its request was sent and before the client was closed.
   */
  lemma SubscribersGetTheirMessages(cfg: ClientConfig, run: seq<ClientEvent>, k: nat, id: string, message: string)
    returns (j: nat, i: nat, subscription: SubscriptionInfo)
    requires k < |AfterClient(cfg, run).posted|
    requires AfterClient(cfg, run).posted[k] == OnSubscriptionMessage(id, ClientOk, message)
    ensures i < |run| && KeptAt(cfg, run[..i], j, id, subscription) && subscription.onMessage
    ensures IsMessageFor(run[i], id) && run[i].incoming.content.body == message
    ensures IsValue(run[i].incoming.content.headers, Destination, subscription.destination)
  {
    i := ClientCallsHaveCauses(cfg, run, k);
    subscription := AfterClient(cfg, run[..i]).subscriptions[id];
    j := KeptWasRequested(cfg, run[..i], id);
  }

  /**
   * Conversely, while a subscription is kept, every MESSAGE frame for it with the right destination is given
   * to the subscriber, and one with another destination is reported as an error.
   */
  lemma SubscribersMissNothing(cfg: ClientConfig, run: seq<ClientEvent>, j: nat, id: string,
                               subscription: SubscriptionInfo, e: ClientEvent)
    requires KeptAt(cfg, run, j, id, subscription) && subscription.onMessage && IsMessageFor(e, id)
    ensures AfterClient(cfg, run + [e]).posted == AfterClient(cfg, run).posted + [
              if IsValue(e.incoming.content.headers, Destination, subscription.destination)
              then OnSubscriptionMessage(id, ClientOk, e.incoming.content.body)
              else OnSubscriptionMessage(id, UnexpectedSubscriptionMismatch, "")]
  {
    KeptMeansRequested(cfg, run, id, subscription);
    assert (run + [e])[..|run|] == run;
  }

  lemma AfterClientOneMore(cfg: ClientConfig, run: seq<ClientEvent>, e: ClientEvent)
    ensures AfterClient(cfg, run + [e]) == NextClient(cfg, AfterClient(cfg, run), e)
  {
    assert (run + [e])[..|run|] == run;
  }

  /** The handler for connecting is called with an error long after it was told of the connection. */
  lemma LateErrorIsReported(cfg: ClientConfig, content: Content)
    requires cfg.onConnect && content.command == StompCommand.Connected
    ensures AfterClient(cfg, [ServerMessage(Frame(content)), ServerMessage(Garbage)]).posted ==
            [OnConnect(ClientOk), OnConnect(CouldNotParseMessageAsStompFrame)]
  {
    AfterClientOneMore(cfg, [], ServerMessage(Frame(content)));
    AfterClientOneMore(cfg, [ServerMessage(Frame(content))], ServerMessage(Garbage));
    assert [] + [ServerMessage(Frame(content))] == [ServerMessage(Frame(content))];
    assert [ServerMessage(Frame(content))] + [ServerMessage(Garbage)] ==
           [ServerMessage(Frame(content)), ServerMessage(Garbage)];
  }
}
