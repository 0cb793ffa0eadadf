/** Frames as objects: parsing, validation, and printing from components. */
module StompFrames {
  import opened StompText
  import opened StompSyntax
  import opened StompFaults

  // Printing the headers of a map, in any order

  /** A listing of the keys of a map, each once. */
  ghost predicate IsOrderOf(order: seq<StompHeader>, headers: Headers) {
    && (forall h :: h in order <==> h in headers)
    && (forall i, j :: 0 <= i < j < |order| ==> order[i] != order[j])
  }

  function LinesOf(headers: Headers, order: seq<StompHeader>): (lines: seq<HeaderLine>)
    requires forall h :: h in order ==> h in headers
    ensures |lines| == |order|
    ensures forall i :: 0 <= i < |order| ==> lines[i] == HeaderLine(order[i], headers[order[i]])
  {
    seq(|order|, i requires 0 <= i < |order| => HeaderLine(order[i], headers[order[i]]))
  }

  function PrintText(command: StompCommand, headers: Headers, order: seq<StompHeader>, body: string): string
    requires forall h :: h in order ==> h in headers
  {
    FrameText(command, LinesOf(headers, order), body, 0)
  }

  /** Reading back all lines of a map, in any order, gives the map. */
  lemma OrderDoesNotMatter(headers: Headers, order: seq<StompHeader>)
    requires IsOrderOf(order, headers)
    ensures KeepsFirst(LinesOf(headers, order), headers)
  {
    var lines := LinesOf(headers, order);
    forall h
      ensures h in headers <==> exists i :: 0 <= i < |lines| && lines[i].header == h
    {
      if h in headers {
        var i :| 0 <= i < |order| && order[i] == h;
        assert lines[i].header == h;
      }
    }
  }

  ghost predicate ValidHeaders(headers: Headers) {
    forall h :: h in headers ==> h != InvalidHeader && ValidValue(headers[h])
  }

  lemma ValidLinesGiveValidHeaders(lines: seq<HeaderLine>, headers: Headers)
    requires ValidLines(lines) && KeepsFirst(lines, headers)
    ensures ValidHeaders(headers)
  {
    forall h | h in headers
      ensures h != InvalidHeader && ValidValue(headers[h])
    {
      var k :| 0 <= k < |lines| && lines[k].header == h;
      var i := FirstLine(lines, h, k);
      assert ValidLine(lines[i]);
    }
  }

  /** The components survive printing and parsing. */
  ghost predicate Faithful(content: Content) {
    && content.command != InvalidCommand
    && ValidHeaders(content.headers)
    && Delimited(content.headers, content.body)
  }

  /** Whatever parses is faithful: values are not empty and have no newline, and the body is delimited. */
  lemma ParsedIsFaithful(text: string)
    requires Parse(text).Parsed?
    ensures Faithful(Parse(text).value)
  {
    var content := Parse(text).value;
    ParsedIsFrame(text, content);
    var lines, eols :| IsFrameWith(text, content, lines, eols);
    ValidLinesGiveValidHeaders(lines, content.headers);
  }

  /** Components come back from printing and parsing, in any order of headers, exactly if they are faithful. */
  lemma PrintParse(content: Content, order: seq<StompHeader>)
    requires IsOrderOf(order, content.headers)
    ensures Parse(PrintText(content.command, content.headers, order, content.body)) == Parsed(content)
            <==> Faithful(content)
  {
    var text := PrintText(content.command, content.headers, order, content.body);
    if Parse(text) == Parsed(content) {
      ParsedIsFaithful(text);
    }
    if Faithful(content) {
      OrderDoesNotMatter(content.headers, order);
      ParseWritten(content.command, LinesOf(content.headers, order), content.headers, content.body, 0);
    }
  }

  /** Reprinting what was parsed, in any order, parses to the same. */
  lemma Reprint(text: string, order: seq<StompHeader>)
    requires Parse(text).Parsed? && IsOrderOf(order, Parse(text).value.headers)
    ensures var content := Parse(text).value;
            Parse(PrintText(content.command, content.headers, order, content.body)) == Parse(text)
  {
    ParsedIsFaithful(text);
    PrintParse(Parse(text).value, order);
  }

  // Validation

  function RequiredHeaders(command: StompCommand): set<StompHeader> {
    match command
    case Connect => {AcceptVersion, Host}
    case Stomp => {AcceptVersion, Host}
    case Connected => {Version}
    case Send => {Destination}
    case Subscribe => {Destination, Id}
    case Unsubscribe => {Id}
    case Ack => {Id}
    case Nack => {Id}
    case Begin => {Transaction}
    case Commit => {Transaction}
    case Abort => {Transaction}
    case Disconnect => {}
    case Message => {Destination, MessageId, Subscription}
    case Receipt => {ReceiptId}
    case Error => {}
    case InvalidCommand => {}
  }

  /**
   * The result of validating what a frame says. The length is compared with a variable that is left
   * uninitialised when the content length is out of range; `junk` is its value in that case.
   */
  function Validate(content: Content, junk: nat): StompError {
    if content.command == InvalidCommand then ValidationInvalidCommand
    else if !(RequiredHeaders(content.command) <= content.headers.Keys) then ValidationMissingHeader
    else if ContentLength in content.headers then
      match StoI(content.headers[ContentLength])
      case NotANumber => ValidationInvalidContentLength
      case OutOfRange => if junk != |content.body| then ValidationContentLengthMismatch else Ok
      case Number(n) => if n != |content.body| then ValidationContentLengthMismatch else Ok
    else Ok
  }

  /** The STOMP Protocol Specification, Version 1.2, demands this header in frames with this command. */
  predicate Needs(command: StompCommand, h: StompHeader) {
    match h
    case AcceptVersion => command in {Connect, Stomp}
    case Host => command in {Connect, Stomp}
    case Version => command == Connected
    case Destination => command in {Send, Subscribe, Message}
    case Id => command in {Subscribe, Unsubscribe, Ack, Nack}
    case Transaction => command in {Begin, Commit, Abort}
    case MessageId => command == Message
    case Subscription => command == Message
    case ReceiptId => command == Receipt
    case _ => false
  }

  ghost predicate HasNeeded(content: Content) {
    forall h :: Needs(content.command, h) ==> h in content.headers
  }

  lemma RequiredAreNeeded(content: Content)
    ensures RequiredHeaders(content.command) <= content.headers.Keys <==> HasNeeded(content)
  {
    var command := content.command;
    assert forall h :: Needs(command, h) <==> h in RequiredHeaders(command);
  }

  /** The length that a content length stands for in validation. */
  ghost predicate StatesLength(headers: Headers, n: nat, junk: nat) {
    ContentLength in headers &&
    (StoI(headers[ContentLength]) == Number(n) || (StoI(headers[ContentLength]) == OutOfRange && n == junk))
  }

  /** Which error validation reports; of several the first one named here. */
  lemma ValidationFindsFaults(content: Content, junk: nat)
    ensures var e := Validate(content, junk);
            && (e == ValidationInvalidCommand <==> content.command == InvalidCommand)
            && (e == ValidationMissingHeader <==> content.command != InvalidCommand && !HasNeeded(content))
            && (e == ValidationInvalidContentLength <==>
                  content.command != InvalidCommand && HasNeeded(content) &&
                  ContentLength in content.headers && StoI(content.headers[ContentLength]) == NotANumber)
            && (e == ValidationContentLengthMismatch <==>
                  content.command != InvalidCommand && HasNeeded(content) &&
                  exists n :: StatesLength(content.headers, n, junk) && n != |content.body|)
            && e in {Ok, ValidationInvalidCommand, ValidationMissingHeader, ValidationInvalidContentLength,
                     ValidationContentLengthMismatch}
  {
    RequiredAreNeeded(content);
    if ContentLength in content.headers {
      match StoI(content.headers[ContentLength])
      case NotANumber =>
      case OutOfRange =>
        assert StatesLength(content.headers, junk, junk);
      case Number(n) =>
        assert StatesLength(content.headers, n, junk);
    }
  }

  /** An accepted body is as long as the content length says; a length beyond 64 bits counts as 0. */
  lemma ContentLengthDecides(text: string, content: Content, digits: string, rest: string)
    requires Parse(text) == Parsed(content) && ContentLength in content.headers
    requires content.headers[ContentLength] == digits + rest
    requires forall i :: 0 <= i < |digits| ==> IsDigit(digits[i])
    requires rest == "" || !IsDigit(rest[0])
    ensures digits != ""
    ensures |content.body| == if DecimalValue(digits) <= 18446744073709551615 then DecimalValue(digits) else 0
  {
    ParsedIsFaithful(text);
    StoIReadsDigits("0", rest);
    assert digits == "" ==> digits + rest == rest;
    if digits != "" {
      StoIReadsDigits(digits, rest);
    }
  }

  /** The content length is a number that does not fit. */
  predicate LengthOutOfRange(headers: Headers) {
    ContentLength in headers && StoI(headers[ContentLength]).OutOfRange?
  }

  /**
   * After a successful parse only a missing header can be found wrong, unless the content length is out
   * of range: then the uninitialised variable decides.
   */
  lemma ValidationAfterParsing(text: string, junk: nat)
    requires Parse(text).Parsed?
    ensures var content := Parse(text).value;
            Validate(content, junk) ==
              if !(RequiredHeaders(content.command) <= content.headers.Keys) then ValidationMissingHeader
              else if LengthOutOfRange(content.headers) && junk != 0 then ValidationContentLengthMismatch
              else Ok
  {
    ParsedIsFaithful(text);
  }

  /** An error code, or an exception for reading past the end of the text. */
  datatype Result = Returned(ec: StompError) | Exception

  /** The result of making a frame from a text. */
  function Check(text: string, junk: nat): Result {
    CheckParsed(Parse(text), junk)
  }

  function CheckParsed(parsed: Outcome<Content>, junk: nat): Result {
    match parsed
    case Failed(e) => Returned(e)
    case Threw => Exception
    case Parsed(content) => Returned(Validate(content, junk))
  }

  /** The result is an exception on a text that breaks off, the fault of any other text, or what validation finds. */
  lemma CheckTells(text: string, junk: nat, content: Content, e: StompError)
    ensures Check(text, junk) == Exception <==> EndsAtColon(text)
    ensures IsFault(text, e) ==> Check(text, junk) == Returned(e)
    ensures IsFrame(text, content) ==> Check(text, junk) == Returned(Validate(content, junk))
  {
    ParserThrowsAtColon(text);
    ParserFindsFaults(text, e);
    ParserDecidesFrames(text, content);
  }

  /**
   * Components that make a valid frame. If the content length is out of range, that takes luck: the
   * uninitialised variable has to be 0, the length of the empty body.
   */
  ghost predicate Printable(content: Content, junk: nat) {
    && Faithful(content)
    && RequiredHeaders(content.command) <= content.headers.Keys
    && (LengthOutOfRange(content.headers) ==> junk == 0)
  }

  /** Printed components parse to themselves without an error exactly if they are printable. */
  lemma PrintCheck(content: Content, order: seq<StompHeader>, text: string, junk: nat)
    requires IsOrderOf(order, content.headers)
    requires text == PrintText(content.command, content.headers, order, content.body)
    ensures Parse(text) == Parsed(content) && Check(text, junk) == Returned(Ok) <==> Printable(content, junk)
  {
    PrintParse(content, order);
    if Parse(text) == Parsed(content) {
      ValidationAfterParsing(text, junk);
    }
  }

  /** The text is the components, printed with the headers in some order. */
  ghost predicate IsPrinted(content: Content, text: string) {
    exists order :: IsOrderOf(order, content.headers) &&
                    text == PrintText(content.command, content.headers, order, content.body)
  }

  /** If the printed lines read as other lines, printed components say what those lines say. */
  lemma PrintedLinesSay(content: Content, order: seq<StompHeader>, lines: seq<HeaderLine>, headers: Headers)
    requires content.command != InvalidCommand && IsOrderOf(order, content.headers)
    requires LinesText(LinesOf(content.headers, order)) == LinesText(lines) && ValidLines(lines)
    requires KeepsFirst(lines, headers) && Delimited(headers, content.body)
    ensures Parse(PrintText(content.command, content.headers, order, content.body)) ==
            Parsed(Content(content.command, headers, content.body))
  {
    ParseWritten(content.command, lines, headers, content.body, 0);
  }

  lemma SplitAlgebra(name: string, value: string, other: string, more: string)
    ensures name + ":" + (value + "\n" + other + ":" + more) + "\n" ==
            (name + ":" + value + "\n") + (other + ":" + more + "\n")
  {
  }

  lemma OneLineText(l: HeaderLine)
    ensures LinesText([l]) == LineText(l)
  {
    assert [l][1..] == [] && LineText(l) + "" == LineText(l);
  }

  /** A value with a newline reads as a shorter value and a further line. */
  lemma ValueSplits(h: StompHeader, value: string, g: StompHeader, more: string)
    ensures LinesText([HeaderLine(h, value + "\n" + HeaderName(g) + ":" + more)]) ==
            LinesText([HeaderLine(h, value), HeaderLine(g, more)])
  {
    OneLineText(HeaderLine(h, value + "\n" + HeaderName(g) + ":" + more));
    OneLineText(HeaderLine(g, more));
    assert [HeaderLine(h, value), HeaderLine(g, more)][1..] == [HeaderLine(g, more)];
    SplitAlgebra(HeaderName(h), value, HeaderName(g), more);
  }

  lemma KeysDiffer(order: seq<StompHeader>, headers: Headers)
    requires IsOrderOf(order, headers)
    ensures |order| < 2 || order[0] != order[1]
    ensures forall i :: 0 <= i < |order| ==> order[i] in headers
  {
    assert forall i :: 0 <= i < |order| ==> order[i] in order;
  }

  lemma OnlyOrder(order: seq<StompHeader>, h: StompHeader, value: string)
    requires IsOrderOf(order, map[h := value])
    ensures order == [h]
  {
    assert h in map[h := value] && h in order;
    KeysDiffer(order, map[h := value]);
  }

  /** A destination with a newline that is sent as a destination and a server. */
  lemma DestinationSplits(order: seq<StompHeader>)
    requires IsOrderOf(order, map[Destination := "a\nserver:x"])
    ensures Parse(PrintText(Send, map[Destination := "a\nserver:x"], order, "")) ==
            Parsed(Content(Send, map[Destination := "a", Server := "x"], ""))
  {
    var headers := map[Destination := "a\nserver:x"];
    var first, second := HeaderLine(Destination, "a"), HeaderLine(Server, "x");
    OnlyOrder(order, Destination, "a\nserver:x");
    assert "a\nserver:x" == "a" + "\n" + HeaderName(Server) + ":" + "x";
    assert LinesOf(headers, order) == [HeaderLine(Destination, "a\nserver:x")];
    ValueSplits(Destination, "a", Server, "x");
    var lines := [first, second];
    assert lines[0] == first && lines[1] == second;
    PrintedLinesSay(Content(Send, headers, ""), order, lines, map[Destination := "a", Server := "x"]);
  }

  predicate HasNoNewlines(headers: Headers) {
    forall h :: h in headers ==> h != InvalidHeader && '\n' !in headers[h]
  }

  /** If no value has a newline, printed components parse at all only if no value is empty. */
  lemma PrintedValuesAreNotEmpty(content: Content, text: string)
    requires content.command != InvalidCommand && HasNoNewlines(content.headers)
    requires IsPrinted(content, text) && Parse(text).Parsed?
    ensures ValidHeaders(content.headers)
  {
    var order :| IsOrderOf(order, content.headers) &&
                 text == PrintText(content.command, content.headers, order, content.body);
    OrderedValuesAreNotEmpty(content, order);
  }

  lemma OrderedValuesAreNotEmpty(content: Content, order: seq<StompHeader>)
    requires content.command != InvalidCommand && HasNoNewlines(content.headers)
    requires IsOrderOf(order, content.headers)
    requires Parse(PrintText(content.command, content.headers, order, content.body)).Parsed?
    ensures ValidHeaders(content.headers)
  {
    var lines := LinesOf(content.headers, order);
    var tail := content.body + "\0" + Newlines(0);
    FrameTextAlgebra(content.command, lines, content.body, 0);
    ReadWrittenCommand(content.command, LinesText(lines) + "\n" + tail);
    ReadLinesHaveValues(lines, tail, map[]);
    forall h | h in content.headers
      ensures ValidValue(content.headers[h])
    {
      var i :| 0 <= i < |order| && order[i] == h;
      assert ValidLine(lines[i]);
    }
  }

  /** The outcome of making a frame from a text is determined by the text. */
  ghost predicate IsMade(parsed: Outcome<Content>, junk: nat, ec: Result, says: Content) {
    ec == CheckParsed(parsed, junk) && (parsed.Parsed? ==> parsed == Parsed(says))
  }

  lemma MadeAs(parsed: Outcome<Content>, junk: nat, ec: Result, says: Content, content: Content)
    requires parsed != Failed(Ok) && IsMade(parsed, junk, ec, says)
    ensures ec == Returned(Ok) && says == content <==>
              parsed == Parsed(content) && CheckParsed(parsed, junk) == Returned(Ok)
  {
  }

  lemma MadeFromPrinted(content: Content, order: seq<StompHeader>, text: string, junk: nat, ec: Result, says: Content)
    requires IsOrderOf(order, content.headers)
    requires text == PrintText(content.command, content.headers, order, content.body)
    requires IsMade(Parse(text), junk, ec, says)
    ensures ec == Returned(Ok) && says == content <==> Printable(content, junk)
  {
    PrintCheck(content, order, text, junk);
    MadeAs(Parse(text), junk, ec, says, content);
  }

  lemma {:induction false} LinesTextOneMore(lines: seq<HeaderLine>, l: HeaderLine)
    ensures LinesText(lines + [l]) == LinesText(lines) + LineText(l)
    decreases |lines|
  {
    if lines == [] {
      assert lines + [l] == [l] && [l][1..] == [];
    } else {
      LinesTextOneMore(lines[1..], l);
      assert (lines + [l])[1..] == lines[1..] + [l];
      assert LinesText(lines + [l]) == LineText(lines[0]) + (LinesText(lines[1..]) + LineText(l));
    }
  }

  lemma LinesOfOneMore(headers: Headers, order: seq<StompHeader>, h: StompHeader)
    requires h in headers && forall g :: g in order ==> g in headers
    ensures LinesOf(headers, order + [h]) == LinesOf(headers, order) + [HeaderLine(h, headers[h])]
  {
  }

  // Cursors into a text, and the text from a cursor on

  lemma Slices(s: string, at: nat, k: nat)
    requires at + k <= |s|
    ensures s[at..][..k] == s[at..at + k] && s[at..][k..] == s[at + k..]
  {
  }

  lemma NameSplitsAt(text: string, n: nat, name: string, rest: string)
    requires n < |text| && name == text[..n] && rest == text[n + 1..]
    ensures NameBefore(text, n) == Named(ToHeader(name), rest)
  {
  }

  lemma NameUpTo(frame: string, at: nat, headerEnd: nat)
    requires at <= |frame| && headerEnd == at + Find(frame[at..], ':')
    ensures headerEnd == |frame| ==> ReadName(frame[at..]) == BadName(ParsingMissingColonInHeader)
    ensures headerEnd < |frame| ==>
              ReadName(frame[at..]) == Named(ToHeader(frame[at..headerEnd]), frame[headerEnd + 1..])
  {
    Slices(frame, at, headerEnd - at);
    if headerEnd < |frame| {
      Slices(frame, at, headerEnd + 1 - at);
      NameSplitsAt(frame[at..], headerEnd - at, frame[at..headerEnd], frame[headerEnd + 1..]);
    }
  }

  /** Reading failed with this error, or with this exception. */
  predicate Fails<T(==)>(o: Outcome<T>, ec: Result) {
    match ec
    case Exception => o.Threw?
    case Returned(e) => o == Failed(e) && e != Ok
  }

  /** At a newline the headers end; at the end of the text there are none. */
  lemma HeadersEnd(frame: string, at: nat, found: Headers)
    requires at <= |frame| && (at < |frame| ==> frame[at] == '\n')
    ensures at == |frame| ==> ParseHeaders(frame[at..], found) == Failed(ParsingMissingBlankLineAfterHeaders)
    ensures at < |frame| ==> ParseHeaders(frame[at..], found) == Parsed((found, frame[at + 1..]))
  {
    if at < |frame| {
      Slices(frame, at, 1);
    }
  }

  /** Elsewhere the headers go on with a line. */
  lemma HeadersGoOn(frame: string, at: nat, found: Headers)
    requires at < |frame| && frame[at] != '\n'
    ensures ReadLine(frame[at..]).LineThrew? ==> ParseHeaders(frame[at..], found) == Threw
    ensures ReadLine(frame[at..]).BadLine? ==>
              ParseHeaders(frame[at..], found) == Failed(ReadLine(frame[at..]).error)
    ensures ReadLine(frame[at..]).Line? ==>
              ParseHeaders(frame[at..], found) ==
              ParseHeaders(ReadLine(frame[at..]).rest, AddLine(found, ReadLine(frame[at..]).line))
  {
  }

  lemma HeadersFail(named: StompCommand, text: string, ec: Result)
    requires Fails(ParseHeaders(text, map[]), ec)
    ensures Fails(ParseRest(named, text), ec)
  {
  }

  lemma BodyDecides(named: StompCommand, text: string, found: Headers, rest: string, ec: Result, body: string)
    requires ParseHeaders(text, map[]) == Parsed((found, rest))
    requires if ec == Returned(Ok) then ParseBody(found, rest) == Parsed(body) else Fails(ParseBody(found, rest), ec)
    ensures if ec == Returned(Ok) then ParseRest(named, text) == Parsed(Content(named, found, body))
            else Fails(ParseRest(named, text), ec)
  {
  }

  /** What the result of parsing means for the text. */
  lemma OutcomeIsTold(text: string, ec: Result, content: Content)
    requires if ec == Returned(Ok) then Parse(text) == Parsed(content) else Fails(Parse(text), ec)
    ensures ec == Returned(Ok) ==> IsFrame(text, content)
    ensures forall e :: e != Ok ==> (ec == Returned(e) <==> IsFault(text, e))
    ensures ec == Exception <==> EndsAtColon(text)
  {
    ParserDecidesFrames(text, content);
    ParserThrowsAtColon(text);
    forall e | e != Ok
      ensures ec == Returned(e) <==> IsFault(text, e)
    {
      ParserFindsFaults(text, e);
    }
  }

  lemma PrintAlgebra(before: string, lines: string, l: HeaderLine)
    ensures before + lines + HeaderName(l.header) + ":" + l.value + "\n" == before + (lines + LineText(l))
  {
  }

  lemma TailAlgebra(before: string, body: string)
    ensures before + "\n" + body + "\0" == before + TailText(body, 0)
  {
  }

  /** The value of a header, empty if it is absent. */
  function ValueOf(content: Content, h: StompHeader): string {
    if h in content.headers then content.headers[h] else ""
  }

  class StompFrame {
    var plain: string
    var command: StompCommand
    var headers: Headers
    var body: string

    /** An empty, invalid frame. */
    constructor ()
      ensures plain == "" && command == InvalidCommand && headers == map[] && body == ""
    {
      plain, command, headers, body := "", InvalidCommand, map[], "";
    }

    function Says(): Content
      reads this
    {
      Content(command, headers, body)
    }

    /** Reads the header name at `at`; its value starts at `next`. */
    method ParseHeaderName(frame: string, at: nat) returns (ec: Result, header: StompHeader, next: nat)
      requires at < |frame|
      ensures match ReadName(frame[at..])
              case BadName(e) => ec == Returned(e)
              case Name(h, rest) => ec == Returned(Ok) && h == header && at < next <= |frame| && rest == frame[next..]
    {
      header, next := InvalidHeader, at;
      var headerEnd := FindFrom(frame, ':', at);
      NameUpTo(frame, at, headerEnd);
      if headerEnd == |frame| {
        ec := Returned(ParsingMissingColonInHeader);
        return;
      }
      header := ToHeader(frame[at..headerEnd]);
      if header == InvalidHeader {
        ec := Returned(ParsingUnrecognizedHeader);
        return;
      }
      next := headerEnd + 1;
      ec := Returned(Ok);
    }

    /** Reads the header value at `at`; the next line starts at `next`. */
    method ParseHeaderValue(frame: string, at: nat) returns (ec: Result, value: string, next: nat)
      requires at <= |frame|
      ensures match ReadValue(frame[at..])
              case ValueThrew => ec == Exception
              case BadValue(e) => ec == Returned(e)
              case Value(v, rest) => ec == Returned(Ok) && v == value && at < next <= |frame| && rest == frame[next..]
    {
      value, next := "", at;
      if at == |frame| {
        // Reading the octet after the colon.
        ec := Exception;
        return;
      }
      if frame[at] == '\n' {
        ec := Returned(ParsingEmptyHeaderValue);
        return;
      }
      var valueEnd := FindFrom(frame, '\n', at);
      if valueEnd == |frame| {
        ec := Returned(ParsingMissingEolAfterHeaderValue);
        return;
      }
      Slices(frame, at, valueEnd - at);
      Slices(frame, at, valueEnd + 1 - at);
      value := frame[at..valueEnd];
      next := valueEnd + 1;
      ec := Returned(Ok);
    }

    /** Reads the header line at `at`; the next one starts at `next`. */
    method ParseHeaderLine(frame: string, at: nat)
      returns (ec: Result, header: StompHeader, value: string, next: nat)
      requires at < |frame|
      ensures match ReadLine(frame[at..])
              case LineThrew => ec == Exception
              case BadLine(e) => ec == Returned(e)
              case Line(l, rest) =>
                ec == Returned(Ok) && l == HeaderLine(header, value) && at < next <= |frame| && rest == frame[next..]
    {
      value := "";
      ec, header, next := ParseHeaderName(frame, at);
      if ec == Returned(Ok) {
        ec, value, next := ParseHeaderValue(frame, next);
      }
    }

    /** Reads the header line at `at` and keeps its value, unless the header is already in the header map. */
    method AddHeaderLine(frame: string, at: nat, before: Headers) returns (ec: Result, found: Headers, next: nat)
      requires at < |frame| && frame[at] != '\n'
      ensures ec == Returned(Ok) ==>
                at < next <= |frame| && ParseHeaders(frame[at..], before) == ParseHeaders(frame[next..], found)
      ensures ec != Returned(Ok) ==> Fails(ParseHeaders(frame[at..], before), ec)
    {
      HeadersGoOn(frame, at, before);
      var header, value;
      found := before;
      ec, header, value, next := ParseHeaderLine(frame, at);
      if ec == Returned(Ok) && header !in found {
        found := found[header := value];
      }
    }

    /** Reads header lines from `start` on, up to a newline or the end of the text. */
    method ReadHeaderLines(frame: string, start: nat)
      returns (ec: Result, found: Headers, headerLineStart: nat)
      requires start <= |frame|
      ensures ec != Returned(Ok) ==> Fails(ParseHeaders(frame[start..], map[]), ec)
      ensures ec == Returned(Ok) ==> start <= headerLineStart <= |frame|
      ensures ec == Returned(Ok) ==>
                ParseHeaders(frame[start..], map[]) == ParseHeaders(frame[headerLineStart..], found)
      ensures ec == Returned(Ok) && headerLineStart < |frame| ==> frame[headerLineStart] == '\n'
    {
      headerLineStart, found, ec := start, map[], Returned(Ok);
      ghost var whole := ParseHeaders(frame[start..], map[]);
      while ec == Returned(Ok) && headerLineStart < |frame| && frame[headerLineStart] != '\n'
        invariant start <= headerLineStart <= |frame|
        invariant ec == Returned(Ok) ==> whole == ParseHeaders(frame[headerLineStart..], found)
        invariant ec != Returned(Ok) ==> Fails(whole, ec)
        decreases |frame| - headerLineStart
      {
        var next;
        ec, found, next := AddHeaderLine(frame, headerLineStart, found);
        if ec != Returned(Ok) {
          break;
        }
        headerLineStart := next;
      }
    }

    /** Reads the header lines from `start` on; they end at the blank line, or at the end of the text. */
    method ParseHeaderLines(frame: string, start: nat)
      returns (ec: Result, found: Headers, headerLineStart: nat)
      requires start <= |frame|
      ensures ec != Returned(Ok) ==> Fails(ParseHeaders(frame[start..], map[]), ec)
      ensures ec == Returned(Ok) ==> start <= headerLineStart <= |frame|
      ensures ec == Returned(Ok) && headerLineStart == |frame| ==>
                ParseHeaders(frame[start..], map[]) == Failed(ParsingMissingBlankLineAfterHeaders)
      ensures ec == Returned(Ok) && headerLineStart < |frame| ==>
                frame[headerLineStart] == '\n' &&
                ParseHeaders(frame[start..], map[]) == Parsed((found, frame[headerLineStart + 1..])) &&
                IsHeaderText(frame[start..], found, frame[headerLineStart + 1..])
    {
      ec, found, headerLineStart := ReadHeaderLines(frame, start);
      if ec == Returned(Ok) {
        HeadersEnd(frame, headerLineStart, found);
        if headerLineStart < |frame| {
          HeadersAreRead(frame[start..], found, frame[headerLineStart + 1..]);
        }
      }
    }

    /** Whether only newlines follow from `start` on. */
    method OnlyNewlines(frame: string, start: nat) returns (ok: bool)
      requires start <= |frame|
      ensures ok <==> AllNewlines(frame[start..])
    {
      for idx := start to |frame|
        invariant forall j :: start <= j < idx ==> frame[j] == '\n'
      {
        if frame[idx] != '\n' {
          assert frame[start..][idx - start] != '\n';
          return false;
        }
      }
      return true;
    }

    /** Finds the NULL octet that ends the body, by the content length or by looking for it. */
    method FindBodyEnd(frame: string, bodyStart: nat, found: Headers) returns (ec: Result, bodyEnd: nat)
      requires bodyStart <= |frame|
      ensures ec == Returned(Ok) ==> bodyStart <= bodyEnd < |frame| &&
                                     BodyEnd(found, frame[bodyStart..]) == Parsed(bodyEnd - bodyStart)
      ensures ec != Returned(Ok) ==> Fails(BodyEnd(found, frame[bodyStart..]), ec)
    {
      ec, bodyEnd := Returned(Ok), 0;
      if ContentLength in found {
        // The length stays 0 if the number does not fit.
        var bodyLength := 0;
        var length := StoI(found[ContentLength]);
        if length.NotANumber? {
          return Returned(ParsingInvalidContentLength), 0;
        }
        if length.Number? {
          bodyLength := length.value;
        }
        if bodyLength == |frame| - bodyStart {
          return Returned(ParsingMissingNullInBody), 0;
        }
        if bodyLength > |frame| - bodyStart {
          return Returned(ParsingContentLengthExceedsFrameLength), 0;
        }
        bodyEnd := bodyStart + bodyLength;
        if frame[bodyEnd] != '\0' {
          return Returned(ParsingMissingNullInBody), 0;
        }
      } else {
        bodyEnd := FindFrom(frame, '\0', bodyStart);
        if bodyEnd == |frame| {
          return Returned(ParsingMissingNullInBody), 0;
        }
      }
    }

    method ParseBodyFrom(frame: string, bodyStart: nat, found: Headers) returns (ec: Result, text: string)
      requires bodyStart <= |frame|
      ensures ec == Returned(Ok) ==> ParseBody(found, frame[bodyStart..]) == Parsed(text)
      ensures ec != Returned(Ok) ==> Fails(ParseBody(found, frame[bodyStart..]), ec)
    {
      text := "";
      var bodyEnd;
      ec, bodyEnd := FindBodyEnd(frame, bodyStart, found);
      if ec != Returned(Ok) {
        return;
      }
      Slices(frame, bodyStart, bodyEnd - bodyStart);
      Slices(frame, bodyStart, bodyEnd + 1 - bodyStart);
      var clean := OnlyNewlines(frame, bodyEnd + 1);
      if !clean {
        return Returned(ParsingJunkAfterBody), "";
      }
      text := frame[bodyStart..bodyEnd];
    }

    /** Reads everything after the command line. */
    method ParseAfterCommand(frame: string, start: nat, named: StompCommand) returns (ec: Result, content: Content)
      requires start <= |frame|
      ensures ec == Returned(Ok) ==> ParseRest(named, frame[start..]) == Parsed(content)
      ensures ec != Returned(Ok) ==> Fails(ParseRest(named, frame[start..]), ec)
    {
      content := Content(named, map[], "");
      var found, newLineBeforeBody, text;
      ec, found, newLineBeforeBody := ParseHeaderLines(frame, start);
      if ec != Returned(Ok) {
        HeadersFail(named, frame[start..], ec);
        return;
      }
      if newLineBeforeBody == |frame| {
        ec := Returned(ParsingMissingBlankLineAfterHeaders);
        HeadersFail(named, frame[start..], ec);
        return;
      }
      ec, text := ParseBodyFrom(frame, newLineBeforeBody + 1, found);
      content := Content(named, found, text);
      BodyDecides(named, frame[start..], found, frame[newLineBeforeBody + 1..], ec, text);
    }

    /** Splits a text into command, headers and body; on failure nothing is kept. */
    method ParseFrame(frame: string) returns (ec: Result)
      modifies this`command, this`headers, this`body
      ensures ec == Returned(Ok) ==> Parse(frame) == Parsed(Says()) && IsFrame(frame, Says())
      ensures ec != Returned(Ok) ==> Fails(Parse(frame), ec) && Says() == old(Says())
      ensures forall e :: e != Ok ==> (ec == Returned(e) <==> IsFault(frame, e))
      ensures ec == Exception <==> EndsAtColon(frame)
    {
      var commandEnd := FindFrom(frame, '\n', 0);
      assert frame[0..] == frame;
      if commandEnd == |frame| {
        ec := Returned(ParsingMissingEolAfterCommand);
        OutcomeIsTold(frame, ec, Says());
        return;
      }
      assert frame[0..commandEnd] == frame[..commandEnd];
      var named := ToCommand(frame[0..commandEnd]);
      if named == InvalidCommand {
        ec := Returned(ParsingUnrecognizedCommand);
        OutcomeIsTold(frame, ec, Says());
        return;
      }
      var content;
      ec, content := ParseAfterCommand(frame, commandEnd + 1, named);
      if ec == Returned(Ok) {
        command, headers, body := content.command, content.headers, content.body;
      }
      OutcomeIsTold(frame, ec, Says());
    }

    /** Checks the headers against the command, and the content length against the body. */
    method ValidateFrame(junk: nat) returns (ec: StompError)
      ensures ec == Validate(Says(), junk)
    {
      if command == InvalidCommand {
        return ValidationInvalidCommand;
      }
      if !(RequiredHeaders(command) <= headers.Keys) {
        return ValidationMissingHeader;
      }
      if ContentLength in headers {
        var length := StoI(headers[ContentLength]);
        if length.NotANumber? {
          return ValidationInvalidContentLength;
        }
        if (if length.Number? then length.value else junk) != |body| {
          return ValidationContentLengthMismatch;
        }
      }
      return Ok;
    }

    /** Makes the frame from a text. */
    method FromText(frame: string, junk: nat) returns (ec: Result)
      modifies this
      ensures plain == frame && IsMade(Parse(frame), junk, ec, Says())
      ensures !Parse(frame).Parsed? ==> Says() == old(Says())
    {
      plain := frame;
      ec := ParseFrame(plain);
      if ec == Returned(Ok) {
        var e := ValidateFrame(junk);
        ec := Returned(e);
      }
    }

    /**
     * Makes the frame from its components: prints them, the headers in some order, and parses the result
     * again. The components come back unchanged and valid exactly if they are printable.
     */
    method FromComponents(c: StompCommand, hs: Headers, b: string, junk: nat)
      returns (ec: Result, ghost order: seq<StompHeader>)
      modifies this
      ensures IsOrderOf(order, hs) && plain == PrintText(c, hs, order, b) && IsMade(Parse(plain), junk, ec, Says())
      ensures ec == Returned(Ok) && Says() == Content(c, hs, b) <==> Printable(Content(c, hs, b), junk)
      ensures ec != Exception
    {
      var text;
      text, order := Print(c, hs, b);
      WrittenNeverThrows(c, LinesOf(hs, order), b, 0);
      ec := FromText(text, junk);
      MadeFromPrinted(Content(c, hs, b), order, text, junk, ec, Says());
    }

    /** Writes the components one after the other; the headers come in no particular order. */
    method Print(c: StompCommand, hs: Headers, b: string) returns (text: string, ghost order: seq<StompHeader>)
      ensures IsOrderOf(order, hs) && text == PrintText(c, hs, order, b) && IsPrinted(Content(c, hs, b), text)
    {
      text := CommandName(c) + "\n";
      order := [];
      var rest := hs.Keys;
      while rest != {}
        invariant rest <= hs.Keys
        invariant forall h :: h in order <==> h in hs && h !in rest
        invariant forall i, j :: 0 <= i < j < |order| ==> order[i] != order[j]
        invariant text == CommandName(c) + "\n" + LinesText(LinesOf(hs, order))
        decreases rest
      {
        var h :| h in rest;
        rest := rest - {h};
        LinesOfOneMore(hs, order, h);
        LinesTextOneMore(LinesOf(hs, order), HeaderLine(h, hs[h]));
        PrintAlgebra(CommandName(c) + "\n", LinesText(LinesOf(hs, order)), HeaderLine(h, hs[h]));
        text := text + HeaderName(h);
        text := text + ":";
        text := text + hs[h];
        text := text + "\n";
        order := order + [h];
      }
      TailAlgebra(CommandName(c) + "\n" + LinesText(LinesOf(hs, order)), b);
      text := text + "\n";
      text := text + b;
      text := text + "\0";
    }
  }

  /** Makes a text from components; it is valid and says them exactly if they are printable, and never throws. */
  method Compose(content: Content, junk: nat) returns (ec: Result, text: string)
    ensures ec == Check(text, junk) && ec != Exception
    ensures ec == Returned(Ok) && Parse(text) == Parsed(content) <==> Printable(content, junk)
    ensures IsPrinted(content, text)
  {
    var frame := new StompFrame();
    ghost var order;
    ec, order := frame.FromComponents(content.command, content.headers, content.body, junk);
    text := frame.plain;
    PrintCheck(content, order, text, junk);
  }
}
