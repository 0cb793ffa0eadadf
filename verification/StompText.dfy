/** The words of the protocol, searching in text, and decimal numbers. */
module StompText {

  datatype StompCommand =
    | InvalidCommand
    | Abort | Ack | Begin | Commit | Connect | Connected | Disconnect | Error
    | Message | Nack | Receipt | Send | Stomp | Subscribe | Unsubscribe

  datatype StompHeader =
    | InvalidHeader
    | AcceptVersion | AckId | ContentLength | ContentType | Destination | HeartBeat | Host | Id | Login
    | MessageText | MessageId | Passcode | ReceiptRequest | ReceiptId | Session | Subscription
    | Transaction | Server | Version

  datatype StompError =
    | Ok
    | UndefinedError
    | ParsingEmptyHeaderValue
    | ParsingContentLengthExceedsFrameLength
    | ParsingInvalidContentLength
    | ParsingJunkAfterBody
    | ParsingMissingBlankLineAfterHeaders
    | ParsingMissingColonInHeader
    | ParsingMissingEolAfterCommand
    | ParsingMissingEolAfterHeaderValue
    | ParsingMissingNullInBody
    | ParsingUnrecognizedCommand
    | ParsingUnrecognizedHeader
    | ValidationContentLengthMismatch
    | ValidationInvalidCommand
    | ValidationInvalidContentLength
    | ValidationMissingHeader

  function CommandName(c: StompCommand): string {
    match c
    case InvalidCommand => "StompCommand::kInvalid"
    case Abort => "ABORT"
    case Ack => "ACK"
    case Begin => "BEGIN"
    case Commit => "COMMIT"
    case Connect => "CONNECT"
    case Connected => "CONNECTED"
    case Disconnect => "DISCONNECT"
    case Error => "ERROR"
    case Message => "MESSAGE"
    case Nack => "NACK"
    case Receipt => "RECEIPT"
    case Send => "SEND"
    case Stomp => "STOMP"
    case Subscribe => "SUBSCRIBE"
    case Unsubscribe => "UNSUBSCRIBE"
  }

  /** The position of a command in the enumeration. */
  function CommandNumber(x: StompCommand): (i: nat)
    ensures i <= 15 && (i > 0 ==> CommandNumbered(i) == x) && (i == 0 <==> x == InvalidCommand)
  {
    match x
    case InvalidCommand => 0
    case Abort => 1
    case Ack => 2
    case Begin => 3
    case Commit => 4
    case Connect => 5
    case Connected => 6
    case Disconnect => 7
    case Error => 8
    case Message => 9
    case Nack => 10
    case Receipt => 11
    case Send => 12
    case Stomp => 13
    case Subscribe => 14
    case Unsubscribe => 15
  }

  function CommandNumbered(i: nat): StompCommand {
    match i
    case 1 => Abort
    case 2 => Ack
    case 3 => Begin
    case 4 => Commit
    case 5 => Connect
    case 6 => Connected
    case 7 => Disconnect
    case 8 => Error
    case 9 => Message
    case 10 => Nack
    case 11 => Receipt
    case 12 => Send
    case 13 => Stomp
    case 14 => Subscribe
    case 15 => Unsubscribe
    case _ => InvalidCommand
  }

  /** The first command from the `i`-th on with the given name. */
  function CommandFrom(s: string, i: nat): StompCommand
    decreases 16 - i, s
  {
    if i > 15 then InvalidCommand
    else if CommandName(CommandNumbered(i)) == s then CommandNumbered(i)
    else CommandFrom(s, i + 1)
  }

  /** Looks a name up in the table of commands. */
  function ToCommand(s: string): StompCommand {
    CommandFrom(s, 1)
  }

  function HeaderName(h: StompHeader): string {
    match h
    case InvalidHeader => "StompHeader::kInvalid"
    case AcceptVersion => "accept-version"
    case AckId => "ack"
    case ContentLength => "content-length"
    case ContentType => "content-type"
    case Destination => "destination"
    case HeartBeat => "heart-beat"
    case Host => "host"
    case Id => "id"
    case Login => "login"
    case MessageText => "message"
    case MessageId => "message-id"
    case Passcode => "passcode"
    case ReceiptRequest => "receipt"
    case ReceiptId => "receipt-id"
    case Session => "session"
    case Subscription => "subscription"
    case Transaction => "transaction"
    case Server => "server"
    case Version => "version"
  }

  /** The position of a header in the enumeration. */
  function HeaderNumber(x: StompHeader): (i: nat)
    ensures i <= 19 && (i > 0 ==> HeaderNumbered(i) == x) && (i == 0 <==> x == InvalidHeader)
  {
    match x
    case InvalidHeader => 0
    case AcceptVersion => 1
    case AckId => 2
    case ContentLength => 3
    case ContentType => 4
    case Destination => 5
    case HeartBeat => 6
    case Host => 7
    case Id => 8
    case Login => 9
    case MessageText => 10
    case MessageId => 11
    case Passcode => 12
    case ReceiptRequest => 13
    case ReceiptId => 14
    case Session => 15
    case Subscription => 16
    case Transaction => 17
    case Server => 18
    case Version => 19
  }

  function HeaderNumbered(i: nat): StompHeader {
    match i
    case 1 => AcceptVersion
    case 2 => AckId
    case 3 => ContentLength
    case 4 => ContentType
    case 5 => Destination
    case 6 => HeartBeat
    case 7 => Host
    case 8 => Id
    case 9 => Login
    case 10 => MessageText
    case 11 => MessageId
    case 12 => Passcode
    case 13 => ReceiptRequest
    case 14 => ReceiptId
    case 15 => Session
    case 16 => Subscription
    case 17 => Transaction
    case 18 => Server
    case 19 => Version
    case _ => InvalidHeader
  }

  /** The first header from the `i`-th on with the given name. */
  function HeaderFrom(s: string, i: nat): StompHeader
    decreases 20 - i, s
  {
    if i > 19 then InvalidHeader
    else if HeaderName(HeaderNumbered(i)) == s then HeaderNumbered(i)
    else HeaderFrom(s, i + 1)
  }

  /** Looks a name up in the table of headers. */
  function ToHeader(s: string): StompHeader {
    HeaderFrom(s, 1)
  }

  /** Length and first letter already tell the names apart. */
  lemma CommandNamesDiffer(c: StompCommand, d: StompCommand)
    requires CommandName(c) == CommandName(d)
    ensures c == d
  {
    assert CommandName(c)[0] == CommandName(d)[0];
  }

  lemma HeaderNamesDiffer(h: StompHeader, g: StompHeader)
    requires HeaderName(h) == HeaderName(g)
    ensures h == g
  {
    assert HeaderName(h)[0] == HeaderName(g)[0];
  }

  lemma {:induction false} CommandFoundHasName(s: string, i: nat)
    requires CommandFrom(s, i) != InvalidCommand
    ensures CommandName(CommandFrom(s, i)) == s
    decreases 16 - i
  {
    if CommandName(CommandNumbered(i)) != s {
      CommandFoundHasName(s, i + 1);
    }
  }

  lemma {:induction false} CommandIsFound(c: StompCommand, i: nat)
    requires 1 <= i <= CommandNumber(c)
    ensures CommandFrom(CommandName(c), i) == c
    decreases CommandNumber(c) - i
  {
    if CommandName(CommandNumbered(i)) == CommandName(c) {
      CommandNamesDiffer(CommandNumbered(i), c);
    } else {
      CommandIsFound(c, i + 1);
    }
  }

  lemma {:induction false} HeaderFoundHasName(s: string, i: nat)
    requires HeaderFrom(s, i) != InvalidHeader
    ensures HeaderName(HeaderFrom(s, i)) == s
    decreases 20 - i
  {
    if HeaderName(HeaderNumbered(i)) != s {
      HeaderFoundHasName(s, i + 1);
    }
  }

  lemma {:induction false} HeaderIsFound(h: StompHeader, i: nat)
    requires 1 <= i <= HeaderNumber(h)
    ensures HeaderFrom(HeaderName(h), i) == h
    decreases HeaderNumber(h) - i
  {
    if HeaderName(HeaderNumbered(i)) == HeaderName(h) {
      HeaderNamesDiffer(HeaderNumbered(i), h);
    } else {
      HeaderIsFound(h, i + 1);
    }
  }

  /** Names and commands determine each other; no name contains a newline. */
  lemma CommandNames(c: StompCommand, s: string)
    requires c != InvalidCommand
    ensures ToCommand(s) == c <==> s == CommandName(c)
    ensures '\n' !in CommandName(c)
  {
    CommandIsFound(c, 1);
    if ToCommand(s) == c {
      CommandFoundHasName(s, 1);
    }
  }

  lemma HeaderNamesHaveNoColon(h: StompHeader)
    requires h != InvalidHeader
    ensures HeaderName(h) != "" && ':' !in HeaderName(h)
  {
  }

  lemma HeaderNamesHaveNoNewline(h: StompHeader)
    requires h != InvalidHeader
    ensures '\n' !in HeaderName(h)
  {
  }

  /** Names and headers determine each other; no name is empty or contains a colon or a newline. */
  lemma HeaderNames(h: StompHeader, s: string)
    requires h != InvalidHeader
    ensures ToHeader(s) == h <==> s == HeaderName(h)
    ensures HeaderName(h) != "" && ':' !in HeaderName(h) && '\n' !in HeaderName(h)
  {
    HeaderIsFound(h, 1);
    if ToHeader(s) == h {
      HeaderFoundHasName(s, 1);
    }
    HeaderNamesHaveNoColon(h);
    HeaderNamesHaveNoNewline(h);
  }

  /** The words for the commands. */
  lemma CommandWords()
    ensures ToCommand("ABORT") == Abort
    ensures ToCommand("ACK") == Ack
    ensures ToCommand("BEGIN") == Begin
    ensures ToCommand("COMMIT") == Commit
    ensures ToCommand("CONNECT") == Connect
    ensures ToCommand("CONNECTED") == Connected
    ensures ToCommand("DISCONNECT") == Disconnect
    ensures ToCommand("ERROR") == Error
    ensures ToCommand("MESSAGE") == Message
    ensures ToCommand("NACK") == Nack
    ensures ToCommand("RECEIPT") == Receipt
    ensures ToCommand("SEND") == Send
    ensures ToCommand("STOMP") == Stomp
    ensures ToCommand("SUBSCRIBE") == Subscribe
    ensures ToCommand("UNSUBSCRIBE") == Unsubscribe
  {
    CommandNames(Abort, "ABORT");
    CommandNames(Ack, "ACK");
    CommandNames(Begin, "BEGIN");
    CommandNames(Commit, "COMMIT");
    CommandNames(Connect, "CONNECT");
    CommandNames(Connected, "CONNECTED");
    CommandNames(Disconnect, "DISCONNECT");
    CommandNames(Error, "ERROR");
    CommandNames(Message, "MESSAGE");
    CommandNames(Nack, "NACK");
    CommandNames(Receipt, "RECEIPT");
    CommandNames(Send, "SEND");
    CommandNames(Stomp, "STOMP");
    CommandNames(Subscribe, "SUBSCRIBE");
    CommandNames(Unsubscribe, "UNSUBSCRIBE");
  }

  /** The words for the headers. */
  lemma HeaderWordsToHost()
    ensures ToHeader("accept-version") == AcceptVersion
    ensures ToHeader("ack") == AckId
    ensures ToHeader("content-length") == ContentLength
    ensures ToHeader("content-type") == ContentType
    ensures ToHeader("destination") == Destination
    ensures ToHeader("heart-beat") == HeartBeat
    ensures ToHeader("host") == Host
  {
    HeaderNames(AcceptVersion, "accept-version");
    HeaderNames(AckId, "ack");
    HeaderNames(ContentLength, "content-length");
    HeaderNames(ContentType, "content-type");
    HeaderNames(Destination, "destination");
    HeaderNames(HeartBeat, "heart-beat");
    HeaderNames(Host, "host");
  }

  /** The words for the headers, continued. */
  lemma HeaderWordsToPasscode()
    ensures ToHeader("id") == Id
    ensures ToHeader("login") == Login
    ensures ToHeader("message") == MessageText
    ensures ToHeader("message-id") == MessageId
    ensures ToHeader("passcode") == Passcode
  {
    HeaderNames(Id, "id");
    HeaderNames(Login, "login");
    HeaderNames(MessageText, "message");
    HeaderNames(MessageId, "message-id");
    HeaderNames(Passcode, "passcode");
  }

  /** The words for the headers, continued. */
  lemma HeaderWordsToVersion()
    ensures ToHeader("receipt") == ReceiptRequest
    ensures ToHeader("receipt-id") == ReceiptId
    ensures ToHeader("session") == Session
    ensures ToHeader("subscription") == Subscription
    ensures ToHeader("transaction") == Transaction
    ensures ToHeader("server") == Server
    ensures ToHeader("version") == Version
  {
    HeaderNames(ReceiptRequest, "receipt");
    HeaderNames(ReceiptId, "receipt-id");
    HeaderNames(Session, "session");
    HeaderNames(Subscription, "subscription");
    HeaderNames(Transaction, "transaction");
    HeaderNames(Server, "server");
    HeaderNames(Version, "version");
  }

  /** The position of the first `c` in `s`, or the length of `s`. */
  function Find(s: string, c: char): (i: nat)
    ensures i <= |s|
    ensures forall j :: 0 <= j < i ==> s[j] != c
    ensures i < |s| ==> s[i] == c
  {
    if s == "" || s[0] == c then 0 else 1 + Find(s[1..], c)
  }

  /** The first `c` comes right after a text without it, and splits off what follows. */
  lemma FindAfter(s: string, c: char, t: string)
    requires c !in s
    ensures Find(s + [c] + t, c) == |s|
    ensures (s + [c] + t)[..|s|] == s && (s + [c] + t)[|s| + 1..] == t
  {
    var whole := s + [c] + t;
    assert whole[|s|] == c;
    assert forall j :: 0 <= j < |s| ==> whole[j] == s[j] && s[j] in s;
  }

  method FindFrom(s: string, c: char, from: nat) returns (i: nat)
    requires from <= |s|
    ensures i == from + Find(s[from..], c)
  {
    i := from;
    while i < |s| && s[i] != c
      invariant from <= i <= |s|
      invariant from + Find(s[from..], c) == i + Find(s[i..], c)
    {
      assert s[i..][1..] == s[i + 1..];
      i := i + 1;
    }
  }

  /** A text is what comes before one of its characters, that character, and what comes after. */
  lemma SplitAt(s: string, n: nat)
    requires n < |s|
    ensures s == s[..n] + [s[n]] + s[n + 1..]
  {
  }

  // Decimal numbers

  predicate IsDigit(c: char) {
    '0' <= c <= '9'
  }

  function DigitValue(c: char): nat
    requires IsDigit(c)
  {
    c as int - '0' as int
  }

  /** The length of the longest prefix of digits. */
  function DigitCount(s: string): (n: nat)
    ensures n <= |s|
    ensures forall i :: 0 <= i < n ==> IsDigit(s[i])
    ensures n < |s| ==> !IsDigit(s[n])
  {
    if s == "" || !IsDigit(s[0]) then 0 else 1 + DigitCount(s[1..])
  }

  function DecimalValue(s: string): nat
    requires forall i :: 0 <= i < |s| ==> IsDigit(s[i])
  {
    if s == "" then 0 else 10 * DecimalValue(s[..|s| - 1]) + DigitValue(s[|s| - 1])
  }

  /** One past the largest size. */
  const SIZE_LIMIT: nat := 0x1_0000_0000_0000_0000

  /** The result of reading a size off the front of a text. */
  datatype Number = NotANumber | OutOfRange | Number(value: nat)

  /** Reads the longest prefix of digits; what follows it does not matter. */
  function StoI(s: string): Number {
    var n := DigitCount(s);
    if n == 0 then NotANumber
    else if DecimalValue(s[..n]) >= SIZE_LIMIT then OutOfRange
    else Number(DecimalValue(s[..n]))
  }

  function DigitChar(d: nat): (c: char)
    requires d < 10
    ensures IsDigit(c) && DigitValue(c) == d
  {
    '0' + d as char
  }

  function ToDecimal(n: nat): (s: string)
    ensures |s| > 0 && forall i :: 0 <= i < |s| ==> IsDigit(s[i])
    ensures n > 0 ==> s[0] != '0'
  {
    if n < 10 then [DigitChar(n)] else ToDecimal(n / 10) + [DigitChar(n % 10)]
  }

  lemma {:induction false} DecimalValueOfDecimal(n: nat)
    ensures DecimalValue(ToDecimal(n)) == n
  {
    var s := ToDecimal(n);
    if n < 10 {
      assert s[..0] == "";
    } else {
      DecimalValueOfDecimal(n / 10);
      assert s[..|s| - 1] == ToDecimal(n / 10);
    }
  }

  /** A size written in decimal is read back; its text has no newline. */
  lemma SizeRoundTrip(n: nat)
    requires n < SIZE_LIMIT
    ensures StoI(ToDecimal(n)) == Number(n)
    ensures '\n' !in ToDecimal(n)
  {
    var s := ToDecimal(n);
    DecimalValueOfDecimal(n);
    assert DigitCount(s) == |s| && s[..|s|] == s;
    assert forall i :: 0 <= i < |s| ==> IsDigit(s[i]) && s[i] != '\n';
  }

  function PowerOfTen(n: nat): nat {
    if n == 0 then 1 else 10 * PowerOfTen(n - 1)
  }

  /** A leading digit counts as often as the power of ten for the digits after it. */
  lemma {:induction false} LeadingDigit(c: char, s: string)
    requires IsDigit(c) && forall i :: 0 <= i < |s| ==> IsDigit(s[i])
    ensures forall i :: 0 <= i < |[c] + s| ==> IsDigit(([c] + s)[i])
    ensures DecimalValue([c] + s) == (c as int - 48) * PowerOfTen(|s|) + DecimalValue(s)
    decreases |s|
  {
    var whole := [c] + s;
    if s == "" {
      assert whole[..0] == "" && DecimalValue("") == 0;
    } else {
      LeadingDigit(c, s[..|s| - 1]);
      assert whole[..|whole| - 1] == [c] + s[..|s| - 1];
      PowerStep((c as int - 48), PowerOfTen(|s| - 1));
    }
  }

  lemma PowerStep(d: nat, power: nat)
    ensures 10 * (d * power) == d * (10 * power)
  {
  }

  /** Digits are read up to the first other character; what is no 64-bit size is out of range. */
  lemma StoIReadsDigits(s: string, rest: string)
    requires s != "" && forall i :: 0 <= i < |s| ==> IsDigit(s[i])
    requires rest == "" || !IsDigit(rest[0])
    ensures StoI(s + rest) == if DecimalValue(s) <= 18446744073709551615 then Number(DecimalValue(s)) else OutOfRange
    ensures StoI(rest) == NotANumber
  {
    var n := DigitCount(s + rest);
    assert forall i :: 0 <= i < |s| ==> (s + rest)[i] == s[i];
    assert rest != "" ==> (s + rest)[|s|] == rest[0];
    assert n == |s| && (s + rest)[..|s|] == s;
  }
}
