// Reply lines, multi-line replies and the reader's view of the server's byte stream
// (sections 4.2 and 4.2.1 of RFC 5321).

module Replies {
  import opened Octets
  import opened Errors
  import Utf8

  const MAX_REPLY_LINE_LEN: nat := 998
  const MAX_REPLY_LINES: nat := 128
  const RX_BUF_HARD_LIMIT: nat := MAX_REPLY_LINE_LEN * 2

  const TOO_MANY_LINES: bytes := "reply exceeded 128 lines"

  datatype ReplyLine = ReplyLine(code: nat, isLast: bool, text: bytes)

  function ParseReplyLine(line: bytes): (r: Result<ReplyLine>)
    ensures r.Err? ==> r.error == Malformed(Utf8.Lossy(line))
  {
    if |line| < 3 || !IsDigit(line[0]) || !IsDigit(line[1]) || !IsDigit(line[2]) then Err(Malformed(Utf8.Lossy(line)))
    else
      var code := DigitValue(line[0]) * 100 + DigitValue(line[1]) * 10 + DigitValue(line[2]);
      if |line| == 3 then Ok(ReplyLine(code, true, []))
      else if line[3] == ' ' then Ok(ReplyLine(code, true, line[4..]))
      else if line[3] == '-' then Ok(ReplyLine(code, false, line[4..]))
      else Err(Malformed(Utf8.Lossy(line)))
  }

  // ---------------------------------------------------------------------------
  // What the unread stream holds next
  // ---------------------------------------------------------------------------

  // How the stream ends once every byte has been delivered.
  datatype Ending = Eof | Broken

  datatype NextLine = Line(line: bytes, rest: bytes) | NoLine(error: Error)

  // The next line of a stream, by plain splitting at CR LF.
  function TakeLine(stream: bytes, ending: Ending): NextLine {
    match FindCrlf(stream)
    case Some(p) =>
      if p > MAX_REPLY_LINE_LEN then NoLine(LineTooLong) else Line(stream[..p], stream[p + 2..])
    case None =>
      if |stream| > RX_BUF_HARD_LIMIT then NoLine(LineTooLong)
      else if ending.Eof? then NoLine(UnexpectedClose)
      else NoLine(Io)
  }

  datatype NextReply = GotReply(code: nat, lines: seq<bytes>, rest: bytes) | NoReply(error: Error)

  // The next reply, given the lines of it that were read before.
  function TakeReplyFrom(stream: bytes, ending: Ending, code: Option<nat>, lines: seq<bytes>): NextReply
    requires |lines| <= MAX_REPLY_LINES
    decreases MAX_REPLY_LINES - |lines|
  {
    if |lines| >= MAX_REPLY_LINES then NoReply(Malformed(TOO_MANY_LINES))
    else
      match TakeLine(stream, ending)
      case NoLine(e) => NoReply(e)
      case Line(line, rest) =>
        match ParseReplyLine(line)
        case Err(e) => NoReply(e)
        case Ok(p) =>
          if code.Some? && code.value != p.code then NoReply(InconsistentMultiline(code.value, p.code))
          else if p.isLast then GotReply(p.code, lines + [p.text], rest)
          else TakeReplyFrom(rest, ending, Some(p.code), lines + [p.text])
  }

  function TakeReply(stream: bytes, ending: Ending): NextReply {
    TakeReplyFrom(stream, ending, None, [])
  }

  // ---------------------------------------------------------------------------
  // The grammar of a reply
  // ---------------------------------------------------------------------------

  function CodeText(code: nat): (s: bytes)
    requires code <= 999
    ensures |s| == 3
  {
    [DigitChar(code / 100), DigitChar(code / 10 % 10), DigitChar(code % 10)]
  }

  // One reply line without its terminator. A bare line is a code with no separator.
  function LineText(code: nat, sep: byte, text: bytes): (s: bytes)
    requires code <= 999
    ensures |s| == 4 + |text|
  {
    CodeText(code) + [sep] + text
  }

  predicate Renderable(code: nat, lines: seq<bytes>, bare: bool) {
    && code <= 999
    && 1 <= |lines| <= MAX_REPLY_LINES
    && (forall i :: 0 <= i < |lines| ==> NoCrlf(lines[i]) && |lines[i]| <= MAX_REPLY_LINE_LEN - 4)
    && (bare ==> lines[|lines| - 1] == [])
  }

  function Render(code: nat, lines: seq<bytes>, bare: bool): bytes
    requires code <= 999 && lines != []
  {
    if |lines| == 1 then (if bare then CodeText(code) else LineText(code, ' ', lines[0])) + CRLF
    else LineText(code, '-', lines[0]) + CRLF + Render(code, lines[1..], bare)
  }

  lemma ParseLineText(code: nat, sep: byte, text: bytes)
    requires code <= 999 && (sep == ' ' || sep == '-')
    ensures ParseReplyLine(LineText(code, sep, text)) == Ok(ReplyLine(code, sep == ' ', text))
    ensures ParseReplyLine(CodeText(code)) == Ok(ReplyLine(code, true, []))
  {
    var line := LineText(code, sep, text);
    assert line[4..] == text;
    assert line[0] == CodeText(code)[0] && line[1] == CodeText(code)[1] && line[2] == CodeText(code)[2];
  }

  lemma CodeTextOfDigits(a: byte, b: byte, c: byte)
    requires IsDigit(a) && IsDigit(b) && IsDigit(c)
    ensures var code := DigitValue(a) * 100 + DigitValue(b) * 10 + DigitValue(c);
      code <= 999 && CodeText(code) == [a, b, c]
  {
    hide DigitChar, DigitValue, IsDigit;
    var code := DigitValue(a) * 100 + DigitValue(b) * 10 + DigitValue(c);
    DigitCharOfValue(a);
    DigitCharOfValue(b);
    DigitCharOfValue(c);
    assert code / 100 == DigitValue(a);
    assert code / 10 == DigitValue(a) * 10 + DigitValue(b);
    assert code / 10 % 10 == DigitValue(b) && code % 10 == DigitValue(c);
  }

  lemma ParsedLineText(line: bytes)
    requires ParseReplyLine(line).Ok?
    ensures var p := ParseReplyLine(line).value;
      && p.code <= 999
      && line == (if |line| == 3 then CodeText(p.code) else LineText(p.code, if p.isLast then ' ' else '-', p.text))
      && (|line| == 3 ==> p.isLast && p.text == [])
  {
    hide CodeText;
    CodeTextOfDigits(line[0], line[1], line[2]);
    if |line| == 3 {
      assert line == [line[0], line[1], line[2]];
    } else {
      assert line == [line[0], line[1], line[2]] + [line[3]] + line[4..];
    }
  }

  lemma LineTextNoCrlf(code: nat, sep: byte, text: bytes)
    requires code <= 999 && (sep == ' ' || sep == '-')
    ensures NoCrlf(LineText(code, sep, text)) == NoCrlf(text)
    ensures NoCrlf(CodeText(code))
  {
    var line := LineText(code, sep, text);
    assert forall i :: CrlfAt(text, i) ==> CrlfAt(line, i + 4);
    assert forall i :: CrlfAt(line, i) ==> CrlfAt(text, i - 4);
  }

  lemma TakeLineOf(line: bytes, rest: bytes, ending: Ending)
    requires NoCrlf(line) && |line| <= MAX_REPLY_LINE_LEN
    ensures TakeLine(line + CRLF + rest, ending) == Line(line, rest)
  {
    FirstLine(line, rest);
  }

  lemma TakenLine(stream: bytes, ending: Ending)
    requires TakeLine(stream, ending).Line?
    ensures var l := TakeLine(stream, ending);
      stream == l.line + CRLF + l.rest && NoCrlf(l.line) && |l.line| <= MAX_REPLY_LINE_LEN
  {
    var p := FindCrlf(stream).value;
    assert forall i :: 0 <= i < p && CrlfAt(stream[..p], i) ==> CrlfAt(stream, i);
    assert stream == stream[..p] + CRLF + stream[p + 2..];
  }

  lemma {:induction false} RenderedFrom(
      code: nat, lines: seq<bytes>, bare: bool, rest: bytes, ending: Ending, before: seq<bytes>, c: Option<nat>)
    requires Renderable(code, lines, bare) && |before| + |lines| <= MAX_REPLY_LINES
    requires c.Some? ==> c.value == code
    ensures TakeReplyFrom(Render(code, lines, bare) + rest, ending, c, before) == GotReply(code, before + lines, rest)
    decreases |lines|
  {
    hide ParseReplyLine, CodeText, LineText, TakeLine;
    var sep: byte := if |lines| == 1 then ' ' else '-';
    var line := if |lines| == 1 && bare then CodeText(code) else LineText(code, sep, lines[0]);
    ParseLineText(code, sep, lines[0]);
    LineTextNoCrlf(code, sep, lines[0]);
    if |lines| == 1 {
      TakeLineOf(line, rest, ending);
      assert before + [lines[0]] == before + lines;
    } else {
      var tail := Render(code, lines[1..], bare);
      Assoc(line + CRLF, tail, rest);
      TakeLineOf(line, tail + rest, ending);
      RenderedFrom(code, lines[1..], bare, rest, ending, before + [lines[0]], Some(code));
      assert before + [lines[0]] + lines[1..] == before + lines;
    }
  }

  // Every reply that is read is a rendering of what was read, and nothing else is consumed.
  lemma {:induction false} ReadIsRendered(stream: bytes, ending: Ending, c: Option<nat>, before: seq<bytes>)
      returns (lines: seq<bytes>, bare: bool)
    requires |before| <= MAX_REPLY_LINES
    requires TakeReplyFrom(stream, ending, c, before).GotReply?
    ensures var r := TakeReplyFrom(stream, ending, c, before);
      && r.lines == before + lines
      && |before| + |lines| <= MAX_REPLY_LINES
      && (c.Some? ==> c.value == r.code)
      && Renderable(r.code, lines, bare)
      && stream == Render(r.code, lines, bare) + r.rest
    decreases MAX_REPLY_LINES - |before|
  {
    hide ParseReplyLine, CodeText, LineText, TakeLine;
    var r := TakeReplyFrom(stream, ending, c, before);
    var l := TakeLine(stream, ending);
    TakenLine(stream, ending);
    ParsedLineText(l.line);
    var p := ParseReplyLine(l.line).value;
    LineTextNoCrlf(p.code, if p.isLast then ' ' else '-', p.text);
    if p.isLast {
      lines, bare := [p.text], |l.line| == 3;
    } else {
      var more;
      more, bare := ReadIsRendered(l.rest, ending, Some(p.code), before + [p.text]);
      lines := [p.text] + more;
      assert lines[1..] == more;
      assert before + [p.text] + more == before + lines;
      Assoc(l.line + CRLF, Render(p.code, more, bare), r.rest);
    }
  }

  // Reading is the exact inverse of rendering: a stream starts with a reply if and only if
  // reading it yields that reply and leaves what follows.
  lemma ReplyGrammar(stream: bytes, ending: Ending, code: nat, lines: seq<bytes>, rest: bytes)
    ensures TakeReply(stream, ending) == GotReply(code, lines, rest)
       <==> exists bare :: Renderable(code, lines, bare) && stream == Render(code, lines, bare) + rest
  {
    if TakeReply(stream, ending) == GotReply(code, lines, rest) {
      var ls, bare := ReadIsRendered(stream, ending, None, []);
      assert ls == lines;
      assert Renderable(code, lines, bare) && stream == Render(code, lines, bare) + rest;
    }
    if bare :| Renderable(code, lines, bare) && stream == Render(code, lines, bare) + rest {
      RenderedFrom(code, lines, bare, rest, ending, [], None);
    }
  }

  // A reply that has arrived is read the same way whatever arrives after it.
  lemma ReplyIsPrefixDetermined(stream: bytes, more: bytes, ending: Ending, ending': Ending)
    requires TakeReply(stream, ending).GotReply?
    ensures var r := TakeReply(stream, ending);
      TakeReply(stream + more, ending') == GotReply(r.code, r.lines, r.rest + more)
  {
    var r := TakeReply(stream, ending);
    var lines, bare := ReadIsRendered(stream, ending, None, []);
    assert lines == r.lines;
    Assoc(Render(r.code, lines, bare), r.rest, more);
    RenderedFrom(r.code, lines, bare, r.rest + more, ending', [], None);
  }

  // ---------------------------------------------------------------------------
  // Streams that hold no reply
  // ---------------------------------------------------------------------------

  // When there is no line: the first line end is too far, or there is none among more bytes than
  // may be waiting for one, or the stream is over.
  lemma NoLineWhen(stream: bytes, ending: Ending)
    ensures TakeLine(stream, ending) == NoLine(LineTooLong) <==>
      if NoCrlf(stream) then |stream| > 2 * 998
      else forall i :: 0 <= i <= 998 ==> !CrlfAt(stream, i)
    ensures TakeLine(stream, ending) == NoLine(UnexpectedClose) <==>
      NoCrlf(stream) && |stream| <= 2 * 998 && ending.Eof?
    ensures TakeLine(stream, ending) == NoLine(Io) <==> NoCrlf(stream) && |stream| <= 2 * 998 && ending.Broken?
    ensures TakeLine(stream, ending).NoLine? ==> TakeLine(stream, ending).error in {LineTooLong, UnexpectedClose, Io}
  {
    var p := FindCrlf(stream);
    if p.Some? {
      assert CrlfAt(stream, p.value);
      assert !NoCrlf(stream);
    }
  }

  // Lines of a reply that announce another.
  function Continued(code: nat, texts: seq<bytes>): bytes
    requires code <= 999
  {
    if texts == [] then [] else LineText(code, '-', texts[0]) + CRLF + Continued(code, texts[1..])
  }

  lemma {:induction false} ContinuedFrom(
      code: nat, texts: seq<bytes>, rest: bytes, ending: Ending, before: seq<bytes>, c: Option<nat>)
    requires code <= 999 && |before| + |texts| <= MAX_REPLY_LINES
    requires forall i :: 0 <= i < |texts| ==> NoCrlf(texts[i]) && |texts[i]| <= MAX_REPLY_LINE_LEN - 4
    requires c.Some? ==> c.value == code
    ensures TakeReplyFrom(Continued(code, texts) + rest, ending, c, before)
         == TakeReplyFrom(rest, ending, if texts == [] then c else Some(code), before + texts)
    decreases |texts|
  {
    hide ParseReplyLine, CodeText, LineText, TakeLine;
    if texts == [] {
      assert [] + rest == rest && before + [] == before;
    } else {
      var line, tail := LineText(code, '-', texts[0]), Continued(code, texts[1..]);
      ParseLineText(code, '-', texts[0]);
      LineTextNoCrlf(code, '-', texts[0]);
      Assoc(line + CRLF, tail, rest);
      TakeLineOf(line, tail + rest, ending);
      ContinuedFrom(code, texts[1..], rest, ending, before + [texts[0]], Some(code));
      assert before + [texts[0]] + texts[1..] == before + texts;
    }
  }

  // What makes reading fail after some lines that announce another: a 129th line, no line, a line
  // that is none of a reply, or another code than the first line's.
  lemma NoReplyWhen(code: nat, texts: seq<bytes>, rest: bytes, ending: Ending)
    requires code <= 999 && |texts| <= MAX_REPLY_LINES
    requires forall i :: 0 <= i < |texts| ==> NoCrlf(texts[i]) && |texts[i]| <= MAX_REPLY_LINE_LEN - 4
    ensures var r := TakeReply(Continued(code, texts) + rest, ending); var l := TakeLine(rest, ending);
      if |texts| == 128 then r == NoReply(Malformed(TOO_MANY_LINES))
      else if l.NoLine? then r == NoReply(l.error)
      else
        var p := ParseReplyLine(l.line);
        if p.Err? then r == NoReply(Malformed(Utf8.Lossy(l.line)))
        else (texts != [] && p.value.code != code ==> r == NoReply(InconsistentMultiline(code, p.value.code)))
  {
    hide ParseReplyLine, TakeLine, Continued;
    ContinuedFrom(code, texts, rest, ending, [], None);
    assert [] + texts == texts;
  }

  datatype ReplyText = ReplyText(code: nat, lines: seq<bytes>, bare: bool)

  predicate AllRenderable(replies: seq<ReplyText>) {
    forall r <- replies :: Renderable(r.code, r.lines, r.bare)
  }

  function RenderAll(replies: seq<ReplyText>): bytes
    requires AllRenderable(replies)
  {
    if replies == [] then []
    else
      var r := replies[0];
      Render(r.code, r.lines, r.bare) + RenderAll(replies[1..])
  }

  // Reading as many replies as n leaves the stream at `rest`.
  predicate ReadsAll(stream: bytes, ending: Ending, replies: seq<ReplyText>, rest: bytes)
    decreases |replies|
  {
    if replies == [] then stream == rest
    else
      var r := TakeReply(stream, ending);
      && r.GotReply? && r.code == replies[0].code && r.lines == replies[0].lines
      && ReadsAll(r.rest, ending, replies[1..], rest)
  }

  // A whole list of replies is read back one by one, and what follows is left alone.
  lemma {:induction false} ReplyFraming(replies: seq<ReplyText>, rest: bytes, ending: Ending)
    requires AllRenderable(replies)
    ensures ReadsAll(RenderAll(replies) + rest, ending, replies, rest)
  {
    if replies == [] {
      assert RenderAll(replies) + rest == rest;
    } else {
      var r := replies[0];
      var tail := RenderAll(replies[1..]);
      Assoc(Render(r.code, r.lines, r.bare), tail, rest);
      RenderedFrom(r.code, r.lines, r.bare, tail + rest, ending, [], None);
      ReplyFraming(replies[1..], rest, ending);
    }
  }
}
