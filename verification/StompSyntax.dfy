/**
 * The syntax of a frame, the parser over it, and their agreement. A frame is a command line, header
 * lines, a blank line, a body, a NULL octet and any number of newlines (STOMP Protocol Specification,
 * Version 1.2, sections "STOMP Frames" and "Repeated Header Entries").
 */
module StompSyntax {
  import opened StompText

  type Headers = map<StompHeader, string>

  datatype HeaderLine = HeaderLine(header: StompHeader, value: string)

  /** What a frame says. */
  datatype Content = Content(command: StompCommand, headers: Headers, body: string)

  /** A value, an error code, or an exception for reading past the end of the text. */
  datatype Outcome<+T> = Parsed(value: T) | Failed(error: StompError) | Threw

  // Writing

  function LineText(l: HeaderLine): string {
    HeaderName(l.header) + ":" + l.value + "\n"
  }

  function LinesText(lines: seq<HeaderLine>): string {
    if lines == [] then "" else LineText(lines[0]) + LinesText(lines[1..])
  }

  function Newlines(n: nat): string {
    if n == 0 then "" else "\n" + Newlines(n - 1)
  }

  /** What follows the header lines of a frame. */
  function TailText(body: string, eols: nat): string {
    "\n" + body + "\0" + Newlines(eols)
  }

  function FrameText(command: StompCommand, lines: seq<HeaderLine>, body: string, eols: nat): string {
    CommandName(command) + "\n" + LinesText(lines) + TailText(body, eols)
  }

  // What makes a frame

  predicate ValidValue(v: string) {
    v != "" && '\n' !in v
  }

  predicate ValidLine(l: HeaderLine) {
    l.header != InvalidHeader && ValidValue(l.value)
  }

  predicate ValidLines(lines: seq<HeaderLine>) {
    forall l :: l in lines ==> ValidLine(l)
  }

  function AddLine(acc: Headers, l: HeaderLine): Headers {
    if l.header in acc then acc else acc[l.header := l.value]
  }

  /** Of repeated headers the first one counts. */
  function AddLines(acc: Headers, lines: seq<HeaderLine>): Headers
    decreases |lines|
  {
    if lines == [] then acc else AddLines(AddLine(acc, lines[0]), lines[1..])
  }

  function FirstWins(lines: seq<HeaderLine>): Headers {
    AddLines(map[], lines)
  }

  /** No line before the `i`-th has its header. */
  ghost predicate IsFirst(lines: seq<HeaderLine>, i: nat)
    requires i < |lines|
  {
    forall j :: 0 <= j < i ==> lines[j].header != lines[i].header
  }

  /** The headers are those of the lines, each with the value of its first line. */
  ghost predicate KeepsFirst(lines: seq<HeaderLine>, headers: Headers) {
    && (forall h :: h in headers <==> exists i :: 0 <= i < |lines| && lines[i].header == h)
    && (forall i :: 0 <= i < |lines| && IsFirst(lines, i) ==>
          lines[i].header in headers && headers[lines[i].header] == lines[i].value)
  }

  lemma {:induction false} AddLinesKeepsKeys(acc: Headers, lines: seq<HeaderLine>)
    ensures forall h :: h in AddLines(acc, lines) <==>
              h in acc || exists i :: 0 <= i < |lines| && lines[i].header == h
    ensures forall h :: h in acc ==> h in AddLines(acc, lines) && AddLines(acc, lines)[h] == acc[h]
    decreases |lines|
  {
    if lines != [] {
      var more := lines[1..];
      AddLinesKeepsKeys(AddLine(acc, lines[0]), more);
      assert forall i :: 1 <= i < |lines| ==> lines[i] == more[i - 1];
    }
  }

  lemma {:induction false} AddLinesKeepsFirst(acc: Headers, lines: seq<HeaderLine>, i: nat)
    requires i < |lines| && IsFirst(lines, i) && lines[i].header !in acc
    ensures lines[i].header in AddLines(acc, lines) && AddLines(acc, lines)[lines[i].header] == lines[i].value
    decreases |lines|
  {
    var next := AddLine(acc, lines[0]);
    if i == 0 {
      AddLinesKeepsKeys(next, lines[1..]);
    } else {
      assert forall j :: 0 <= j < i - 1 ==> lines[1..][j] == lines[j + 1];
      assert lines[0].header != lines[i].header;
      AddLinesKeepsFirst(next, lines[1..], i - 1);
    }
  }

  lemma {:induction false} FirstLine(lines: seq<HeaderLine>, h: StompHeader, k: nat) returns (i: nat)
    requires k < |lines| && lines[k].header == h
    ensures i < |lines| && lines[i].header == h && IsFirst(lines, i)
    decreases k
  {
    if j :| 0 <= j < k && lines[j].header == h {
      i := FirstLine(lines, h, j);
    } else {
      i := k;
    }
  }

  /** Adding the lines one by one to an empty map keeps the first value of each header, and nothing else does. */
  lemma FirstOfRepeatedCounts(lines: seq<HeaderLine>, headers: Headers)
    ensures headers == FirstWins(lines) <==> KeepsFirst(lines, headers)
  {
    AddLinesKeepsKeys(map[], lines);
    forall i | 0 <= i < |lines| && IsFirst(lines, i)
      ensures FirstWins(lines)[lines[i].header] == lines[i].value
    {
      AddLinesKeepsFirst(map[], lines, i);
    }
    if KeepsFirst(lines, headers) {
      assert headers.Keys == FirstWins(lines).Keys;
      forall h | h in headers
        ensures headers[h] == FirstWins(lines)[h]
      {
        var k :| 0 <= k < |lines| && lines[k].header == h;
        var i := FirstLine(lines, h, k);
      }
    }
  }

  /**
   * The end of the body can be told: by the content length if there is one, by the first NULL octet
   * otherwise. A content length that is out of range counts as 0.
   */
  predicate Delimited(headers: Headers, body: string) {
    if ContentLength in headers then
      match StoI(headers[ContentLength])
      case NotANumber => false
      case OutOfRange => body == ""
      case Number(n) => |body| == n
    else '\0' !in body
  }

  // Reading

  datatype NameOutcome = Name(header: StompHeader, rest: string) | BadName(error: StompError)

  function Named(header: StompHeader, rest: string): NameOutcome {
    if header == InvalidHeader then BadName(ParsingUnrecognizedHeader) else Name(header, rest)
  }

  /** The header name that ends at `headerEnd`. */
  function NameBefore(text: string, headerEnd: nat): NameOutcome
    requires headerEnd <= |text|
  {
    if headerEnd == |text| then BadName(ParsingMissingColonInHeader)
    else Named(ToHeader(text[..headerEnd]), text[headerEnd + 1..])
  }

  /** Reads a header name and the colon after it. */
  function ReadName(text: string): (r: NameOutcome)
    ensures r.Name? ==> |r.rest| < |text|
    ensures r.BadName? ==> r.error != Ok && r.error != ParsingMissingBlankLineAfterHeaders
  {
    NameBefore(text, Find(text, ':'))
  }

  datatype ValueOutcome = Value(value: string, rest: string) | BadValue(error: StompError) | ValueThrew

  /** Reads a header value and the newline after it. */
  function ReadValue(text: string): (r: ValueOutcome)
    ensures r.Value? ==> |r.rest| < |text|
    ensures r.BadValue? ==> r.error != Ok && r.error != ParsingMissingBlankLineAfterHeaders
  {
    if text == "" then ValueThrew
    else if text[0] == '\n' then BadValue(ParsingEmptyHeaderValue)
    else
      var valueEnd := Find(text, '\n');
      if valueEnd == |text| then BadValue(ParsingMissingEolAfterHeaderValue)
      else Value(text[..valueEnd], text[valueEnd + 1..])
  }

  /** The result of reading the header line at the front of a text. */
  datatype LineOutcome = Line(line: HeaderLine, rest: string) | BadLine(error: StompError) | LineThrew

  function ReadLine(text: string): (r: LineOutcome)
    ensures r.Line? ==> |r.rest| < |text|
    ensures r.BadLine? ==> r.error != Ok && r.error != ParsingMissingBlankLineAfterHeaders
  {
    match ReadName(text)
    case BadName(e) => BadLine(e)
    case Name(header, after) =>
      match ReadValue(after)
      case BadValue(e) => BadLine(e)
      case ValueThrew => LineThrew
      case Value(value, rest) => Line(HeaderLine(header, value), rest)
  }

  /** Reads header lines up to the blank line; the rest is what comes after it. */
  function ParseHeaders(text: string, acc: Headers): (r: Outcome<(Headers, string)>)
    ensures r != Failed(Ok)
    decreases |text|
  {
    if text == "" then Failed(ParsingMissingBlankLineAfterHeaders)
    else if text[0] == '\n' then Parsed((acc, text[1..]))
    else
      match ReadLine(text)
      case BadLine(e) => Failed(e)
      case LineThrew => Threw
      case Line(l, rest) => ParseHeaders(rest, AddLine(acc, l))
  }

  /** Where the body ends, and an error if that cannot be told. */
  function BodyEnd(headers: Headers, text: string): (r: Outcome<nat>)
    ensures r.Parsed? ==> r.value < |text| && text[r.value] == '\0'
    ensures r != Failed(Ok) && r != Threw
  {
    if ContentLength in headers then
      var length := StoI(headers[ContentLength]);
      if length.NotANumber? then Failed(ParsingInvalidContentLength)
      else
        var n := if length.Number? then length.value else 0;
        if n == |text| then Failed(ParsingMissingNullInBody)
        else if n > |text| then Failed(ParsingContentLengthExceedsFrameLength)
        else if text[n] != '\0' then Failed(ParsingMissingNullInBody)
        else Parsed(n)
    else
      var n := Find(text, '\0');
      if n == |text| then Failed(ParsingMissingNullInBody) else Parsed(n)
  }

  predicate AllNewlines(s: string) {
    forall i :: 0 <= i < |s| ==> s[i] == '\n'
  }

  function ParseBody(headers: Headers, text: string): (r: Outcome<string>)
    ensures r != Failed(Ok) && r != Threw
    ensures r.Parsed? ==> BodyEnd(headers, text) == Parsed(|r.value|)
    ensures r.Parsed? ==> |r.value| < |text| && r.value == text[..|r.value|] && AllNewlines(text[|r.value| + 1..])
  {
    match BodyEnd(headers, text)
    case Failed(e) => Failed(e)
    case Threw => Threw
    case Parsed(n) =>
      if AllNewlines(text[n + 1..]) then Parsed(text[..n]) else Failed(ParsingJunkAfterBody)
  }

  datatype CommandOutcome = CommandLine(command: StompCommand, rest: string) | BadCommand(error: StompError)

  /** Reads a command and the newline after it. */
  function ReadCommand(text: string): (r: CommandOutcome)
    ensures r.CommandLine? ==> r.command != InvalidCommand
    ensures r.BadCommand? ==> r.error != Ok
  {
    var commandEnd := Find(text, '\n');
    if commandEnd == |text| then BadCommand(ParsingMissingEolAfterCommand)
    else if ToCommand(text[..commandEnd]) == InvalidCommand then BadCommand(ParsingUnrecognizedCommand)
    else CommandLine(ToCommand(text[..commandEnd]), text[commandEnd + 1..])
  }

  /** Reads what follows the command line. */
  function ParseRest(command: StompCommand, text: string): (r: Outcome<Content>)
    ensures r != Failed(Ok)
  {
    match ParseHeaders(text, map[])
    case Failed(e) => Failed(e)
    case Threw => Threw
    case Parsed((headers, rest)) =>
      match ParseBody(headers, rest)
      case Failed(e) => Failed(e)
      case Threw => Threw
      case Parsed(body) => Parsed(Content(command, headers, body))
  }

  function Parse(text: string): (r: Outcome<Content>)
    ensures r != Failed(Ok)
  {
    match ReadCommand(text)
    case BadCommand(e) => Failed(e)
    case CommandLine(command, rest) => ParseRest(command, rest)
  }

  // The parser accepts what the writer writes

  lemma LineTextAlgebra(l: HeaderLine, rest: string)
    ensures LineText(l) + rest == HeaderName(l.header) + [':'] + (l.value + ['\n'] + rest)
  {
  }

  lemma LinesTextAlgebra(l: HeaderLine, more: seq<HeaderLine>, rest: string)
    ensures LinesText([l] + more) + rest == LineText(l) + (LinesText(more) + rest)
    ensures LinesText([l] + more) + "\n" + rest == LineText(l) + (LinesText(more) + "\n" + rest)
  {
    assert ([l] + more)[1..] == more;
  }

  lemma FrameTextAlgebra(command: StompCommand, lines: seq<HeaderLine>, body: string, eols: nat)
    ensures FrameText(command, lines, body, eols) ==
            CommandName(command) + "\n" + (LinesText(lines) + "\n" + (body + "\0" + Newlines(eols)))
  {
  }

  lemma NewlinesAreNewlines(n: nat)
    ensures |Newlines(n)| == n && AllNewlines(Newlines(n))
  {
  }

  lemma {:induction false} AllNewlinesAreWritten(s: string)
    requires AllNewlines(s)
    ensures s == Newlines(|s|)
  {
    if s != "" {
      AllNewlinesAreWritten(s[1..]);
    }
  }

  lemma ReadWrittenValue(v: string, rest: string)
    requires ValidValue(v)
    ensures ReadValue(v + ['\n'] + rest) == Value(v, rest)
  {
    FindAfter(v, '\n', rest);
    assert (v + ['\n'] + rest)[0] == v[0] && v[0] in v;
  }

  lemma ReadWrittenName(h: StompHeader, rest: string)
    requires h != InvalidHeader
    ensures ReadName(HeaderName(h) + [':'] + rest) == Name(h, rest)
  {
    HeaderNames(h, HeaderName(h));
    FindAfter(HeaderName(h), ':', rest);
  }

  lemma StartsWithWord(word: string, rest: string)
    requires word != "" && '\n' !in word
    ensures word + rest != "" && (word + rest)[0] != '\n'
  {
    assert (word + rest)[0] == word[0] && word[0] in word;
  }

  /** A written header line is not taken for the blank line. */
  lemma LineIsNotBlank(l: HeaderLine, rest: string)
    requires l.header != InvalidHeader
    ensures LineText(l) + rest != "" && (LineText(l) + rest)[0] != '\n'
  {
    HeaderNames(l.header, HeaderName(l.header));
    StartsWithWord(HeaderName(l.header), ":" + l.value + "\n" + rest);
    assert LineText(l) + rest == HeaderName(l.header) + (":" + l.value + "\n" + rest);
  }

  /** A written header line is read. */
  lemma ReadWrittenLine(l: HeaderLine, rest: string)
    requires ValidLine(l)
    ensures ReadLine(LineText(l) + rest) == Line(l, rest)
  {
    LineTextAlgebra(l, rest);
    ReadWrittenName(l.header, l.value + ['\n'] + rest);
    ReadWrittenValue(l.value, rest);
  }

  lemma ReadEmptyValue(h: StompHeader, rest: string)
    requires h != InvalidHeader
    ensures ReadLine(LineText(HeaderLine(h, "")) + rest) == BadLine(ParsingEmptyHeaderValue)
  {
    var after := "" + ['\n'] + rest;
    LineTextAlgebra(HeaderLine(h, ""), rest);
    ReadWrittenName(h, after);
    assert after != "" && after[0] == '\n';
  }

  lemma ParseWrittenLine(l: HeaderLine, rest: string, acc: Headers)
    requires ValidLine(l)
    ensures ParseHeaders(LineText(l) + rest, acc) == ParseHeaders(rest, AddLine(acc, l))
  {
    LineIsNotBlank(l, rest);
    ReadWrittenLine(l, rest);
  }

  lemma ParseBlankLine(rest: string, acc: Headers)
    ensures ParseHeaders("\n" + rest, acc) == Parsed((acc, rest))
  {
    assert ("\n" + rest)[1..] == rest;
  }

  /** Written header lines are read, whatever follows them. */
  lemma {:induction false} LinesComeFirst(lines: seq<HeaderLine>, rest: string, acc: Headers)
    requires ValidLines(lines)
    ensures ParseHeaders(LinesText(lines) + rest, acc) == ParseHeaders(rest, AddLines(acc, lines))
    decreases |lines|
  {
    if lines == [] {
      assert LinesText(lines) + rest == rest;
    } else {
      var l, more := lines[0], lines[1..];
      assert l in lines && [l] + more == lines;
      LinesComeFirst(more, rest, AddLine(acc, l));
      LinesTextAlgebra(l, more, rest);
      ParseWrittenLine(l, LinesText(more) + rest, acc);
    }
  }

  lemma BlankLineAlgebra(lines: string, rest: string)
    ensures lines + "\n" + rest == lines + ("\n" + rest)
  {
  }

  /** Written header lines are read, up to the blank line; of repeated headers the first one counts. */
  lemma ParseLines(lines: seq<HeaderLine>, headers: Headers, rest: string)
    requires ValidLines(lines) && KeepsFirst(lines, headers)
    ensures ParseHeaders(LinesText(lines) + "\n" + rest, map[]) == Parsed((headers, rest))
  {
    FirstOfRepeatedCounts(lines, headers);
    LinesComeFirst(lines, "\n" + rest, map[]);
    ParseBlankLine(rest, headers);
    BlankLineAlgebra(LinesText(lines), rest);
  }

  lemma EmptyValueIsRefused(h: StompHeader, rest: string, acc: Headers)
    requires h != InvalidHeader
    ensures ParseHeaders(LineText(HeaderLine(h, "")) + rest, acc) == Failed(ParsingEmptyHeaderValue)
  {
    LineIsNotBlank(HeaderLine(h, ""), rest);
    ReadEmptyValue(h, rest);
  }

  /** Lines without newlines in their values are read only if no value is empty. */
  lemma {:induction false} ReadLinesHaveValues(lines: seq<HeaderLine>, rest: string, acc: Headers)
    requires forall l :: l in lines ==> l.header != InvalidHeader && '\n' !in l.value
    requires ParseHeaders(LinesText(lines) + "\n" + rest, acc).Parsed?
    ensures ValidLines(lines)
    decreases |lines|
  {
    if lines != [] {
      var l, more := lines[0], lines[1..];
      assert l in lines && [l] + more == lines;
      var after := LinesText(more) + "\n" + rest;
      LinesTextAlgebra(l, more, rest);
      if l.value == "" {
        EmptyValueIsRefused(l.header, after, acc);
      } else {
        ParseWrittenLine(l, after, acc);
        ReadLinesHaveValues(more, rest, AddLine(acc, l));
      }
    }
  }

  /** A body whose end can be told ends there. */
  lemma DelimitedBodyEnds(headers: Headers, body: string, after: string)
    requires Delimited(headers, body)
    ensures BodyEnd(headers, body + "\0" + after) == Parsed(|body|)
  {
    var text := body + "\0" + after;
    assert text[|body|] == '\0';
    if ContentLength !in headers {
      FindAfter(body, '\0', after);
    }
  }

  lemma ParseWrittenBody(headers: Headers, body: string, eols: nat)
    requires Delimited(headers, body)
    ensures ParseBody(headers, body + "\0" + Newlines(eols)) == Parsed(body)
  {
    var text := body + "\0" + Newlines(eols);
    NewlinesAreNewlines(eols);
    DelimitedBodyEnds(headers, body, Newlines(eols));
    assert text[..|body|] == body && text[|body| + 1..] == Newlines(eols);
  }

  lemma ReadWrittenCommand(command: StompCommand, rest: string)
    requires command != InvalidCommand
    ensures ReadCommand(CommandName(command) + "\n" + rest) == CommandLine(command, rest)
  {
    CommandNames(command, CommandName(command));
    FindAfter(CommandName(command), '\n', rest);
  }

  lemma ParseWritten(command: StompCommand, lines: seq<HeaderLine>, headers: Headers, body: string, eols: nat)
    requires command != InvalidCommand && ValidLines(lines) && KeepsFirst(lines, headers) && Delimited(headers, body)
    ensures Parse(FrameText(command, lines, body, eols)) == Parsed(Content(command, headers, body))
  {
    var tail := body + "\0" + Newlines(eols);
    FrameTextAlgebra(command, lines, body, eols);
    ReadWrittenCommand(command, LinesText(lines) + "\n" + tail);
    ParseLines(lines, headers, tail);
    ParseWrittenBody(headers, body, eols);
  }

  // The parser accepts nothing else

  lemma ReadNameIsWritten(text: string)
    requires ReadName(text).Name?
    ensures ReadName(text).header != InvalidHeader
    ensures text == HeaderName(ReadName(text).header) + [':'] + ReadName(text).rest
  {
    var headerEnd := Find(text, ':');
    SplitAt(text, headerEnd);
    HeaderNames(ReadName(text).header, text[..headerEnd]);
  }

  lemma ReadValueIsWritten(text: string)
    requires ReadValue(text).Value?
    ensures ValidValue(ReadValue(text).value)
    ensures text == ReadValue(text).value + ['\n'] + ReadValue(text).rest
  {
    SplitAt(text, Find(text, '\n'));
  }

  /** A header line that is read was written. */
  lemma ReadLineIsWritten(text: string)
    requires ReadLine(text).Line?
    ensures ValidLine(ReadLine(text).line)
    ensures text == LineText(ReadLine(text).line) + ReadLine(text).rest
  {
    ReadNameIsWritten(text);
    ReadValueIsWritten(ReadName(text).rest);
    LineTextAlgebra(ReadLine(text).line, ReadLine(text).rest);
  }

  lemma {:induction false} HeadersAreLines(text: string, acc: Headers, headers: Headers, rest: string)
    returns (lines: seq<HeaderLine>)
    requires ParseHeaders(text, acc) == Parsed((headers, rest))
    ensures ValidLines(lines) && text == LinesText(lines) + "\n" + rest && headers == AddLines(acc, lines)
    decreases |text|
  {
    if text[0] == '\n' {
      lines := [];
      SplitAt(text, 0);
      assert text == LinesText(lines) + "\n" + rest;
    } else {
      var l, after := ReadLine(text).line, ReadLine(text).rest;
      ReadLineIsWritten(text);
      var more := HeadersAreLines(after, AddLine(acc, l), headers, rest);
      lines := [l] + more;
      LinesTextAlgebra(l, more, rest);
      assert lines[0] == l && lines[1..] == more;
    }
  }

  /** Header lines, each header with the value of its first line, and the blank line. */
  ghost predicate IsHeaderText(text: string, headers: Headers, rest: string) {
    exists lines :: ValidLines(lines) && text == LinesText(lines) + "\n" + rest && KeepsFirst(lines, headers)
  }

  lemma HeadersAreRead(text: string, headers: Headers, rest: string)
    ensures ParseHeaders(text, map[]) == Parsed((headers, rest)) <==> IsHeaderText(text, headers, rest)
  {
    if ParseHeaders(text, map[]) == Parsed((headers, rest)) {
      var lines := HeadersAreLines(text, map[], headers, rest);
      FirstOfRepeatedCounts(lines, headers);
    }
    if lines :| ValidLines(lines) && text == LinesText(lines) + "\n" + rest && KeepsFirst(lines, headers) {
      ParseLines(lines, headers, rest);
    }
  }

  lemma BodyIsDelimited(headers: Headers, text: string, body: string)
    requires BodyEnd(headers, text) == Parsed(|body|) && body == text[..|body|]
    ensures Delimited(headers, body)
  {
  }

  lemma BodyIsWritten(text: string, body: string)
    requires |body| < |text| && body == text[..|body|] && text[|body|] == '\0' && AllNewlines(text[|body| + 1..])
    ensures text == body + "\0" + Newlines(|text| - |body| - 1)
  {
    var n := |body|;
    var after := text[n + 1..];
    AllNewlinesAreWritten(after);
    assert |after| == |text| - n - 1 && [text[n]] == "\0";
    SplitAt(text, n);
  }

  /** The text is a frame that says `content`. */
  ghost predicate IsFrame(text: string, content: Content) {
    exists lines, eols :: IsFrameWith(text, content, lines, eols)
  }

  ghost predicate IsFrameWith(text: string, content: Content, lines: seq<HeaderLine>, eols: nat) {
    && text == FrameText(content.command, lines, content.body, eols)
    && content.command != InvalidCommand
    && ValidLines(lines)
    && KeepsFirst(lines, content.headers)
    && Delimited(content.headers, content.body)
  }

  lemma ReadCommandIsWritten(text: string)
    requires ReadCommand(text).CommandLine?
    ensures text == CommandName(ReadCommand(text).command) + "\n" + ReadCommand(text).rest
  {
    var commandEnd := Find(text, '\n');
    SplitAt(text, commandEnd);
    CommandNames(ReadCommand(text).command, text[..commandEnd]);
  }

  lemma RestIsRead(after: string, content: Content) returns (rest: string)
    requires ParseRest(content.command, after) == Parsed(content)
    ensures ParseHeaders(after, map[]) == Parsed((content.headers, rest))
    ensures ParseBody(content.headers, rest) == Parsed(content.body)
  {
    rest := ParseHeaders(after, map[]).value.1;
  }

  lemma PartsMakeFrame(text: string, content: Content, lines: seq<HeaderLine>, eols: nat, after: string, rest: string)
    requires text == CommandName(content.command) + "\n" + after && content.command != InvalidCommand
    requires ValidLines(lines) && after == LinesText(lines) + "\n" + rest && content.headers == AddLines(map[], lines)
    requires rest == content.body + "\0" + Newlines(eols)
    requires Delimited(content.headers, content.body)
    ensures IsFrame(text, content)
  {
    FrameTextAlgebra(content.command, lines, content.body, eols);
    FirstOfRepeatedCounts(lines, content.headers);
    assert IsFrameWith(text, content, lines, eols);
  }

  lemma ParsedPartsMakeFrame(text: string, content: Content, after: string, rest: string)
    requires text == CommandName(content.command) + "\n" + after && content.command != InvalidCommand
    requires ParseHeaders(after, map[]) == Parsed((content.headers, rest))
    requires |content.body| < |rest| && rest == content.body + "\0" + Newlines(|rest| - |content.body| - 1)
    requires Delimited(content.headers, content.body)
    ensures IsFrame(text, content)
  {
    var lines := HeadersAreLines(after, map[], content.headers, rest);
    PartsMakeFrame(text, content, lines, |rest| - |content.body| - 1, after, rest);
  }

  lemma ParsedBodyIsDelimited(headers: Headers, rest: string, body: string)
    requires ParseBody(headers, rest) == Parsed(body)
    ensures Delimited(headers, body)
  {
    BodyIsDelimited(headers, rest, body);
  }

  lemma ParsedBodyIsWritten(headers: Headers, rest: string, body: string)
    requires ParseBody(headers, rest) == Parsed(body)
    ensures |body| < |rest| && rest == body + "\0" + Newlines(|rest| - |body| - 1)
  {
    BodyIsWritten(rest, body);
  }

  lemma ParsedRestMakesFrame(text: string, content: Content, after: string, rest: string)
    requires text == CommandName(content.command) + "\n" + after && content.command != InvalidCommand
    requires ParseHeaders(after, map[]) == Parsed((content.headers, rest))
    requires ParseBody(content.headers, rest) == Parsed(content.body)
    ensures IsFrame(text, content)
  {
    ParsedBodyIsDelimited(content.headers, rest, content.body);
    ParsedBodyIsWritten(content.headers, rest, content.body);
    ParsedPartsMakeFrame(text, content, after, rest);
  }

  lemma RestMakesFrame(text: string, content: Content, after: string)
    requires text == CommandName(content.command) + "\n" + after && content.command != InvalidCommand
    requires ParseRest(content.command, after) == Parsed(content)
    ensures IsFrame(text, content)
  {
    var rest := RestIsRead(after, content);
    ParsedRestMakesFrame(text, content, after, rest);
  }

  lemma ParsedIsFrame(text: string, content: Content)
    requires Parse(text) == Parsed(content)
    ensures IsFrame(text, content)
  {
    ReadCommandIsWritten(text);
    RestMakesFrame(text, content, ReadCommand(text).rest);
  }

  /** The parser accepts exactly the frames, and tells what they say; no text says two things. */
  lemma ParserDecidesFrames(text: string, content: Content)
    ensures Parse(text) == Parsed(content) <==> IsFrame(text, content)
  {
    if Parse(text) == Parsed(content) {
      ParsedIsFrame(text, content);
    }
    if IsFrame(text, content) {
      var lines, eols :| IsFrameWith(text, content, lines, eols);
      ParseWritten(content.command, lines, content.headers, content.body, eols);
    }
  }

  // The texts on which the parser reads past the end

  /** A command line, header lines, and the name of a header with its colon, at which the text ends. */
  ghost predicate EndsAtColon(text: string) {
    exists command, lines, h :: EndsAtColonWith(text, command, lines, h)
  }

  ghost predicate EndsAtColonWith(text: string, command: StompCommand, lines: seq<HeaderLine>, h: StompHeader) {
    && command != InvalidCommand && ValidLines(lines) && h != InvalidHeader
    && text == CommandName(command) + "\n" + (LinesText(lines) + (HeaderName(h) + ":"))
  }

  lemma NameAloneThrows(h: StompHeader, acc: Headers)
    requires h != InvalidHeader
    ensures ParseHeaders(HeaderName(h) + ":", acc) == Threw
  {
    ReadWrittenName(h, "");
    assert HeaderName(h) + [':'] + "" == HeaderName(h) + ":";
    HeaderNames(h, HeaderName(h));
    StartsWithWord(HeaderName(h), ":");
  }

  lemma ThrownLineIsName(text: string) returns (h: StompHeader)
    requires ReadLine(text).LineThrew?
    ensures h != InvalidHeader && text == HeaderName(h) + ":"
  {
    ReadNameIsWritten(text);
    h := ReadName(text).header;
    assert HeaderName(h) + [':'] + "" == HeaderName(h) + ":";
  }

  lemma {:induction false} ThrownHeadersAreLines(text: string, acc: Headers)
    returns (lines: seq<HeaderLine>, h: StompHeader)
    requires ParseHeaders(text, acc) == Threw
    ensures ValidLines(lines) && h != InvalidHeader && text == LinesText(lines) + (HeaderName(h) + ":")
    decreases |text|
  {
    if ReadLine(text).LineThrew? {
      lines := [];
      h := ThrownLineIsName(text);
      assert text == LinesText(lines) + (HeaderName(h) + ":");
    } else {
      var l, after := ReadLine(text).line, ReadLine(text).rest;
      ReadLineIsWritten(text);
      var more;
      more, h := ThrownHeadersAreLines(after, AddLine(acc, l));
      lines := [l] + more;
      LinesTextAlgebra(l, more, HeaderName(h) + ":");
    }
  }

  lemma ThrownRestIsHeaders(command: StompCommand, text: string)
    ensures ParseRest(command, text) == Threw <==> ParseHeaders(text, map[]) == Threw
  {
  }

  lemma ThrownIsRead(text: string)
    requires Parse(text) == Threw
    ensures ReadCommand(text).CommandLine?
    ensures ParseRest(ReadCommand(text).command, ReadCommand(text).rest) == Threw
  {
  }

  lemma ThrownEndsAtColon(text: string)
    requires Parse(text) == Threw
    ensures EndsAtColon(text)
  {
    ThrownIsRead(text);
    var command, after := ReadCommand(text).command, ReadCommand(text).rest;
    ReadCommandIsWritten(text);
    ThrownRestIsHeaders(command, after);
    var lines, h := ThrownHeadersAreLines(after, map[]);
    assert EndsAtColonWith(text, command, lines, h);
  }

  /** The parser reads past the end exactly on the texts that break off after the colon of a header. */
  lemma ParserThrowsAtColon(text: string)
    ensures Parse(text) == Threw <==> EndsAtColon(text)
  {
    if Parse(text) == Threw {
      ThrownEndsAtColon(text);
    }
    if EndsAtColon(text) {
      var command, lines, h :| EndsAtColonWith(text, command, lines, h);
      ReadWrittenCommand(command, LinesText(lines) + (HeaderName(h) + ":"));
      LinesComeFirst(lines, HeaderName(h) + ":", map[]);
      NameAloneThrows(h, AddLines(map[], lines));
      ThrownRestIsHeaders(command, LinesText(lines) + (HeaderName(h) + ":"));
    }
  }

  /** Such a text. */
  lemma BrokenOffTextThrows()
    ensures Parse("SEND\nid:") == Threw
  {
    assert LinesText([]) + (HeaderName(Id) + ":") == "id:";
    assert EndsAtColonWith("SEND\nid:", Send, [], Id);
    ParserThrowsAtColon("SEND\nid:");
  }

  lemma ThrownEndsInColon(text: string)
    ensures Parse(text) == Threw ==> text != "" && text[|text| - 1] == ':'
  {
    if Parse(text) == Threw {
      ThrownEndsAtColon(text);
    }
  }

  /** A written frame ends in a NULL octet or a newline, so the parser never reads past its end. */
  lemma WrittenNeverThrows(command: StompCommand, lines: seq<HeaderLine>, body: string, eols: nat)
    ensures Parse(FrameText(command, lines, body, eols)) != Threw
  {
    var text := FrameText(command, lines, body, eols);
    NewlinesAreNewlines(eols);
    assert text[|text| - 1] == if eols == 0 then '\0' else Newlines(eols)[eols - 1];
    ThrownEndsInColon(text);
  }

  // Two texts and what they say

  lemma TwoLinesText(l: HeaderLine, m: HeaderLine)
    ensures LinesText([l, m]) == LineText(l) + LineText(m)
    ensures [l, m][0] == l && [l, m][1] == m
  {
    assert [l, m][1..] == [m] && [m][1..] == [];
    assert LinesText([m]) == LineText(m) + LinesText([]) == LineText(m);
  }

  lemma TwoLinesKeepBoth(l: HeaderLine, m: HeaderLine)
    requires ValidLine(l) && ValidLine(m)
    ensures ValidLines([l, m])
    ensures KeepsFirst([l, m], if l.header == m.header then map[l.header := l.value]
                               else map[l.header := l.value, m.header := m.value])
  {
    var lines := [l, m];
    assert lines[0] == l && lines[1] == m;
  }

  lemma RepeatedDestinationText()
    ensures FrameText(Send, [HeaderLine(Destination, "a"), HeaderLine(Destination, "b")], "hi", 0) ==
            "SEND\ndestination:a\ndestination:b\n\nhi\0"
  {
    var first, second := HeaderLine(Destination, "a"), HeaderLine(Destination, "b");
    TwoLinesText(first, second);
    assert LineText(first) == "destination:a\n" && LineText(second) == "destination:b\n";
    assert TailText("hi", 0) == "\nhi\0";
  }

  /** Of two destinations the first one counts. */
  lemma RepeatedDestination()
    ensures Parse("SEND\ndestination:a\ndestination:b\n\nhi\0") == Parsed(Content(Send, map[Destination := "a"], "hi"))
  {
    var first, second := HeaderLine(Destination, "a"), HeaderLine(Destination, "b");
    RepeatedDestinationText();
    TwoLinesKeepBoth(first, second);
    ParseWritten(Send, [first, second], map[Destination := "a"], "hi", 0);
  }

  lemma TwelveIsRead()
    ensures StoI("12") == Number(12)
  {
    assert "12"[..1] == "1" && "1"[..0] == "" && DecimalValue("") == 0;
    StoIReadsDigits("12", "");
    assert "12" + "" == "12";
  }

  lemma LengthLineText()
    ensures LinesText([HeaderLine(ContentLength, "12")]) == "content-length:12\n"
  {
    var l := HeaderLine(ContentLength, "12");
    assert [l][1..] == [] && LinesText([l]) == LineText(l) + LinesText([]) == LineText(l);
  }

  lemma NullTailText()
    ensures TailText("hello\0 world", 1) == "\nhello\0 world\0\n"
  {
    assert Newlines(1) == "\n" + Newlines(0) == "\n";
  }

  lemma NullInBodyText()
    ensures FrameText(Error, [HeaderLine(ContentLength, "12")], "hello\0 world", 1) ==
            "ERROR\ncontent-length:12\n\nhello\0 world\0\n"
  {
    LengthLineText();
    NullTailText();
  }

  /** With a content length the body may hold NULL octets; newlines may follow the frame. */
  lemma NullInBody()
    ensures Parse("ERROR\ncontent-length:12\n\nhello\0 world\0\n") ==
            Parsed(Content(Error, map[ContentLength := "12"], "hello\0 world"))
  {
    var l := HeaderLine(ContentLength, "12");
    TwelveIsRead();
    NullInBodyText();
    assert [l][0] == l && ValidLine(l) && KeepsFirst([l], map[ContentLength := "12"]);
    ParseWritten(Error, [l], map[ContentLength := "12"], "hello\0 world", 1);
  }
}
