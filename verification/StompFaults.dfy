/** Which error the parser reports for which text. */
module StompFaults {
  import opened StompText
  import opened StompSyntax

  /** The text does not start with a command line. */
  ghost predicate CommandFault(text: string, e: StompError) {
    match e
    case ParsingMissingEolAfterCommand => '\n' !in text
    case ParsingUnrecognizedCommand => exists word, rest :: IsUnknownCommand(text, word, rest)
    case _ => false
  }

  ghost predicate IsUnknownCommand(text: string, word: string, rest: string) {
    && text == word + "\n" + rest && '\n' !in word
    && forall c: StompCommand :: c != InvalidCommand ==> word != CommandName(c)
  }

  /** After header lines comes neither a header line nor the blank line. */
  ghost predicate LineFault(text: string, e: StompError) {
    match e
    case ParsingMissingBlankLineAfterHeaders => text == ""
    case ParsingMissingColonInHeader => text != "" && text[0] != '\n' && ':' !in text
    case ParsingUnrecognizedHeader => exists name, rest :: IsUnknownHeader(text, name, rest)
    case ParsingEmptyHeaderValue =>
      exists h, rest :: h != InvalidHeader && text == HeaderName(h) + [':'] + (['\n'] + rest)
    case ParsingMissingEolAfterHeaderValue =>
      exists h, value :: h != InvalidHeader && text == HeaderName(h) + [':'] + value && ValidValue(value)
    case _ => false
  }

  ghost predicate IsUnknownHeader(text: string, name: string, rest: string) {
    && text == name + ":" + rest && text[0] != '\n' && ':' !in name
    && forall h: StompHeader :: h != InvalidHeader ==> name != HeaderName(h)
  }

  /** What comes after the blank line is no body with a NULL octet and newlines. */
  ghost predicate BodyFault(headers: Headers, text: string, e: StompError) {
    match e
    case ParsingInvalidContentLength => ContentLength in headers && StoI(headers[ContentLength]) == NotANumber
    case ParsingContentLengthExceedsFrameLength =>
      exists n :: ContentLength in headers && StoI(headers[ContentLength]) == Number(n) && |text| < n
    case ParsingMissingNullInBody => LacksNull(headers, text)
    case ParsingJunkAfterBody => exists body, junk ::
      Delimited(headers, body) && text == body + "\0" + junk && !AllNewlines(junk)
    case _ => false
  }

  /** There is no NULL octet where the body ends; a content length out of range counts as 0. */
  ghost predicate LacksNull(headers: Headers, text: string) {
    if ContentLength in headers then
      match StoI(headers[ContentLength])
      case NotANumber => false
      case OutOfRange => text == "" || text[0] != '\0'
      case Number(n) => n == |text| || (n < |text| && text[n] != '\0')
    else '\0' !in text
  }

  ghost predicate HeadersFault(text: string, e: StompError) {
    exists lines, rest :: ValidLines(lines) && text == LinesText(lines) + rest && LineFault(rest, e)
  }

  ghost predicate RestFault(text: string, e: StompError) {
    || HeadersFault(text, e)
    || exists headers, rest :: IsHeaderText(text, headers, rest) && BodyFault(headers, rest, e)
  }

  /** The first place where the text is not the one of a frame is of the kind that `e` names. */
  ghost predicate IsFault(text: string, e: StompError) {
    || CommandFault(text, e)
    || exists command, rest ::
         command != InvalidCommand && text == CommandName(command) + "\n" + rest && RestFault(rest, e)
  }

  // The command line

  lemma UnknownCommandIsRefused(text: string, word: string, rest: string)
    requires IsUnknownCommand(text, word, rest)
    ensures ReadCommand(text) == BadCommand(ParsingUnrecognizedCommand)
  {
    FindAfter(word, '\n', rest);
    CommandNames(if ToCommand(word) == InvalidCommand then Send else ToCommand(word), word);
  }

  lemma CommandFaults(text: string, e: StompError)
    ensures ReadCommand(text) == BadCommand(e) <==> CommandFault(text, e)
  {
    var commandEnd := Find(text, '\n');
    if commandEnd < |text| {
      var word, rest := text[..commandEnd], text[commandEnd + 1..];
      SplitAt(text, commandEnd);
      if ToCommand(word) == InvalidCommand {
        forall c: StompCommand | c != InvalidCommand
          ensures word != CommandName(c)
        {
          CommandNames(c, word);
        }
        assert IsUnknownCommand(text, word, rest);
      }
    }
    if word, rest :| IsUnknownCommand(text, word, rest) {
      UnknownCommandIsRefused(text, word, rest);
    }
  }

  // The header lines

  lemma UnknownHeaderIsRefused(text: string, name: string, rest: string)
    requires IsUnknownHeader(text, name, rest)
    ensures ReadName(text) == BadName(ParsingUnrecognizedHeader)
  {
    FindAfter(name, ':', rest);
    HeaderNames(if ToHeader(name) == InvalidHeader then Id else ToHeader(name), name);
  }

  lemma BadNameIsFaulty(text: string)
    requires text != "" && text[0] != '\n' && ReadName(text).BadName?
    ensures LineFault(text, ReadName(text).error)
  {
    var headerEnd := Find(text, ':');
    if headerEnd < |text| {
      var name, rest := text[..headerEnd], text[headerEnd + 1..];
      SplitAt(text, headerEnd);
      forall h: StompHeader | h != InvalidHeader
        ensures name != HeaderName(h)
      {
        HeaderNames(h, name);
      }
      assert IsUnknownHeader(text, name, rest);
    }
  }

  lemma BadValueIsFaulty(text: string)
    requires ReadName(text).Name? && ReadValue(ReadName(text).rest).BadValue?
    ensures LineFault(text, ReadValue(ReadName(text).rest).error)
  {
    ReadNameIsWritten(text);
    BadValueAfterName(text, ReadName(text).header, ReadName(text).rest);
  }

  lemma BadValueAfterName(text: string, h: StompHeader, rest: string)
    requires h != InvalidHeader && text == HeaderName(h) + [':'] + rest && ReadValue(rest).BadValue?
    ensures LineFault(text, ReadValue(rest).error)
  {
    if rest[0] == '\n' {
      assert rest == ['\n'] + rest[1..];
    } else {
      assert ValidValue(rest);
    }
  }

  /** Where header text is refused, its lines come first, and then a place that is not as it should be. */
  lemma {:induction false} RefusedHeadersAreFaulty(text: string, acc: Headers, e: StompError)
    returns (lines: seq<HeaderLine>, rest: string)
    requires ParseHeaders(text, acc) == Failed(e)
    ensures ValidLines(lines) && text == LinesText(lines) + rest && LineFault(rest, e)
    decreases |text|
  {
    lines, rest := [], text;
    assert text == LinesText([]) + text;
    if text != "" && ReadLine(text).Line? {
      var l, after := ReadLine(text).line, ReadLine(text).rest;
      ReadLineIsWritten(text);
      var more;
      more, rest := RefusedHeadersAreFaulty(after, AddLine(acc, l), e);
      lines := [l] + more;
      LinesTextAlgebra(l, more, rest);
    } else if text != "" {
      if ReadName(text).BadName? {
        BadNameIsFaulty(text);
      } else {
        BadValueIsFaulty(text);
      }
    }
  }

  lemma FaultyLineIsRefused(text: string, acc: Headers, e: StompError)
    requires LineFault(text, e)
    ensures ParseHeaders(text, acc) == Failed(e)
  {
    match e
    case ParsingMissingBlankLineAfterHeaders =>
    case ParsingMissingColonInHeader =>
    case ParsingUnrecognizedHeader =>
      var name, rest :| IsUnknownHeader(text, name, rest);
      UnknownHeaderIsRefused(text, name, rest);
    case ParsingEmptyHeaderValue =>
      var h, rest :| h != InvalidHeader && text == HeaderName(h) + [':'] + (['\n'] + rest);
      EmptyValueIsRefused(h, rest, acc);
      LineTextAlgebra(HeaderLine(h, ""), rest);
      assert "" + ['\n'] + rest == ['\n'] + rest;
    case ParsingMissingEolAfterHeaderValue =>
      var h, value :| h != InvalidHeader && text == HeaderName(h) + [':'] + value && ValidValue(value);
      UnendedValueIsRefused(h, value, acc);
  }

  lemma UnendedValueIsUnread(h: StompHeader, value: string)
    requires h != InvalidHeader && ValidValue(value)
    ensures ReadLine(HeaderName(h) + [':'] + value) == BadLine(ParsingMissingEolAfterHeaderValue)
  {
    ReadWrittenName(h, value);
    assert value[0] in value;
  }

  lemma UnendedValueIsRefused(h: StompHeader, value: string, acc: Headers)
    requires h != InvalidHeader && ValidValue(value)
    ensures ParseHeaders(HeaderName(h) + [':'] + value, acc) == Failed(ParsingMissingEolAfterHeaderValue)
  {
    UnendedValueIsUnread(h, value);
    HeaderNames(h, HeaderName(h));
    StartsWithWord(HeaderName(h), [':'] + value);
    assert HeaderName(h) + [':'] + value == HeaderName(h) + ([':'] + value);
  }

  lemma HeadersFaults(text: string, e: StompError)
    ensures ParseHeaders(text, map[]) == Failed(e) <==> HeadersFault(text, e)
  {
    if ParseHeaders(text, map[]) == Failed(e) {
      var lines, rest := RefusedHeadersAreFaulty(text, map[], e);
    }
    if HeadersFault(text, e) {
      var lines, rest :| ValidLines(lines) && text == LinesText(lines) + rest && LineFault(rest, e);
      LinesComeFirst(lines, rest, map[]);
      FaultyLineIsRefused(rest, AddLines(map[], lines), e);
    }
  }

  // The body

  lemma JunkIsRefused(headers: Headers, body: string, junk: string)
    requires Delimited(headers, body) && !AllNewlines(junk)
    ensures ParseBody(headers, body + "\0" + junk) == Failed(ParsingJunkAfterBody)
  {
    DelimitedBodyEnds(headers, body, junk);
    assert (body + "\0" + junk)[|body| + 1..] == junk;
  }

  lemma RefusedBodyIsFaulty(headers: Headers, text: string, e: StompError)
    requires ParseBody(headers, text) == Failed(e)
    ensures BodyFault(headers, text, e)
  {
    if BodyEnd(headers, text).Parsed? {
      var n := BodyEnd(headers, text).value;
      SplitAt(text, n);
      BodyIsDelimited(headers, text, text[..n]);
      assert text == text[..n] + "\0" + text[n + 1..];
    }
  }

  lemma BodyFaults(headers: Headers, text: string, e: StompError)
    ensures ParseBody(headers, text) == Failed(e) <==> BodyFault(headers, text, e)
  {
    if ParseBody(headers, text) == Failed(e) {
      RefusedBodyIsFaulty(headers, text, e);
    }
    if e == ParsingJunkAfterBody && BodyFault(headers, text, e) {
      var body, junk :| Delimited(headers, body) && text == body + "\0" + junk && !AllNewlines(junk);
      JunkIsRefused(headers, body, junk);
    }
  }

  // All together

  lemma RefusedRestIsFaulty(command: StompCommand, text: string, e: StompError)
    requires ParseRest(command, text) == Failed(e)
    ensures RestFault(text, e)
  {
    HeadersFaults(text, e);
    var parsed := ParseHeaders(text, map[]);
    if parsed.Parsed? {
      HeadersAreRead(text, parsed.value.0, parsed.value.1);
      BodyFaults(parsed.value.0, parsed.value.1, e);
    }
  }

  lemma FaultyRestIsRefused(command: StompCommand, text: string, e: StompError)
    requires RestFault(text, e)
    ensures ParseRest(command, text) == Failed(e)
  {
    HeadersFaults(text, e);
    if headers, rest :| IsHeaderText(text, headers, rest) && BodyFault(headers, rest, e) {
      HeadersAreRead(text, headers, rest);
      BodyFaults(headers, rest, e);
    }
  }

  /** The parser reports an error exactly if the text has the fault that the error names. */
  lemma ParserFindsFaults(text: string, e: StompError)
    ensures Parse(text) == Failed(e) <==> IsFault(text, e)
  {
    CommandFaults(text, e);
    if Parse(text) == Failed(e) && ReadCommand(text).CommandLine? {
      ReadCommandIsWritten(text);
      RefusedRestIsFaulty(ReadCommand(text).command, ReadCommand(text).rest, e);
    }
    if command, rest :|
      command != InvalidCommand && text == CommandName(command) + "\n" + rest && RestFault(rest, e) {
      ReadWrittenCommand(command, rest);
      FaultyRestIsRefused(command, rest, e);
    }
  }
}
