// What the scripted responder's answers say to a client that reads them.

module Answers {
  import opened Octets
  import opened Replies
  import opened World
  import opened Responder
  import opened Utf8

  lemma DecodedAscii(lines: seq<bytes>)
    requires forall line <- lines :: Ascii(line)
    ensures Decoded(lines) == lines
  {
    hide Lossy, Ascii;
    forall i | 0 <= i < |lines| ensures Lossy(lines[i]) == lines[i] {
      LossyOfAscii(lines[i]);
    }
  }

  // ---------------------------------------------------------------------------
  // What the responder's answers say
  // ---------------------------------------------------------------------------

  // `reply`, whatever follows it, is read as this reply.
  ghost predicate Says(reply: bytes, code: nat, lines: seq<bytes>) {
    && (forall rest, ending :: TakeReply(reply + rest, ending) == GotReply(code, lines, rest))
    && (forall line <- lines :: Ascii(line))
  }

  // A text that may follow the code of a reply.
  predicate Sayable(text: bytes) {
    Ascii(text) && Free(text, '\r') && |text| <= MAX_REPLY_LINE_LEN - 4
  }

  lemma RenderedLine(a: byte, b: byte, c: byte, sep: byte, text: bytes)
    requires IsDigit(a) && IsDigit(b) && IsDigit(c)
    ensures var code := DigitValue(a) * 100 + DigitValue(b) * 10 + DigitValue(c);
      code <= 999 && AnswerLine(a, b, c, sep, text) == LineText(code, sep, text) + CRLF
  {
    hide CodeText, IsDigit, DigitValue;
    CodeTextOfDigits(a, b, c);
    assert [a, b, c] + [sep] == [a, b, c, sep];
  }

  lemma OneLineSays(a: byte, b: byte, c: byte, text: bytes)
    requires IsDigit(a) && IsDigit(b) && IsDigit(c) && Sayable(text)
    ensures Says(AnswerLine(a, b, c, ' ', text), DigitValue(a) * 100 + DigitValue(b) * 10 + DigitValue(c), [text])
  {
    hide LineText, TakeReplyFrom, IsDigit, DigitValue, AnswerLine;
    var code := DigitValue(a) * 100 + DigitValue(b) * 10 + DigitValue(c);
    var reply := AnswerLine(a, b, c, ' ', text);
    RenderedLine(a, b, c, ' ', text);
    assert reply == Render(code, [text], false);
    forall rest, ending
      ensures TakeReply(reply + rest, ending) == GotReply(code, [text], rest)
    {
      RenderedFrom(code, [text], false, rest, ending, [], None);
      assert [] + [text] == [text];
    }
  }

  lemma SayableJoin(a: bytes, b: bytes)
    requires Sayable(a) && Sayable(b) && |a| + |b| <= MAX_REPLY_LINE_LEN - 4
    ensures Sayable(a + b)
  {
  }

  lemma ReplyTexts()
    ensures Sayable(T_GREETING) && Sayable(T_MAIL_OK) && Sayable(T_RCPT_OK) && Sayable(T_BYE)
  {
  }

  lemma ReadyText()
    ensures Sayable(T_READY)
  {
  }

  lemma AuthOkText()
    ensures Sayable(T_AUTH_OK)
  {
    SayableJoin(T_AUTH_OK_1, T_AUTH_OK_2);
  }

  lemma GoAheadText()
    ensures Sayable(T_GO_AHEAD)
  {
    SayableJoin(T_GO_AHEAD_1, T_GO_AHEAD_2);
  }

  lemma QueuedText()
    ensures Sayable(T_QUEUED)
  {
    SayableJoin(T_QUEUED_1, T_QUEUED_2);
  }

  // Every answer of the responder to a well-behaved client.
  lemma Answers()
    ensures Says(GREETING, 220, [T_GREETING]) && Says(READY_FOR_TLS, 220, [T_READY])
    ensures Says(AUTH_OK, 235, [T_AUTH_OK]) && Says(MAIL_OK, 250, [T_MAIL_OK])
    ensures Says(RCPT_OK, 250, [T_RCPT_OK]) && Says(GO_AHEAD, 354, [T_GO_AHEAD])
    ensures Says(QUEUED, 250, [T_QUEUED]) && Says(BYE, 221, [T_BYE])
  {
    hide Says, Sayable, AnswerLine;
    ReplyTexts();
    ReadyText();
    AuthOkText();
    GoAheadText();
    QueuedText();
    OneLineSays('2', '2', '0', T_GREETING);
    OneLineSays('2', '2', '0', T_READY);
    OneLineSays('2', '3', '5', T_AUTH_OK);
    OneLineSays('2', '5', '0', T_MAIL_OK);
    OneLineSays('2', '5', '0', T_RCPT_OK);
    OneLineSays('3', '5', '4', T_GO_AHEAD);
    OneLineSays('2', '5', '0', T_QUEUED);
    OneLineSays('2', '2', '1', T_BYE);
  }

  lemma EhloTexts()
    ensures Sayable(T_NAME) && Sayable(T_PIPELINING) && Sayable(T_AUTH) && Sayable(T_STARTTLS)
    ensures Sayable(T_SMTPUTF8)
  {
  }

  function EhloLines(third: bytes): seq<bytes> {
    [T_NAME, T_PIPELINING, third, T_SMTPUTF8]
  }

  // The answer to EHLO, which names the server and three capabilities.
  lemma EhloSays(third: bytes)
    requires Sayable(third)
    ensures Says(EhloReply(third), 250, EhloLines(third))
  {
    hide LineText, TakeReplyFrom, AnswerLine, Sayable;
    EhloTexts();
    var lines := EhloLines(third);
    RenderedLine('2', '5', '0', '-', T_NAME);
    RenderedLine('2', '5', '0', '-', T_PIPELINING);
    RenderedLine('2', '5', '0', '-', third);
    RenderedLine('2', '5', '0', ' ', T_SMTPUTF8);
    EhloRendered(third);
    SayablePlain(T_NAME);
    SayablePlain(T_PIPELINING);
    SayablePlain(third);
    SayablePlain(T_SMTPUTF8);
    assert forall i :: 0 <= i < 4 ==> NoCrlf(lines[i]) && Ascii(lines[i]) && |lines[i]| <= MAX_REPLY_LINE_LEN - 4;
    forall rest, ending
      ensures TakeReply(EhloReply(third) + rest, ending) == GotReply(250, lines, rest)
    {
      RenderedFrom(250, lines, false, rest, ending, [], None);
      assert [] + lines == lines;
    }
  }

  lemma SayablePlain(text: bytes)
    requires Sayable(text)
    ensures NoCrlf(text) && Ascii(text) && |text| <= MAX_REPLY_LINE_LEN - 4
  {
  }

  lemma EhloRendered(third: bytes)
    ensures EhloReply(third) == Render(250, EhloLines(third), false)
  {
    hide LineText, AnswerLine, Render;
    RenderedLine('2', '5', '0', '-', T_NAME);
    RenderedLine('2', '5', '0', '-', T_PIPELINING);
    RenderedLine('2', '5', '0', '-', third);
    RenderedLine('2', '5', '0', ' ', T_SMTPUTF8);
    RenderedFour(T_NAME, T_PIPELINING, third, T_SMTPUTF8);
  }

  lemma RenderedFour(a: bytes, b: bytes, c: bytes, d: bytes)
    ensures Render(250, [a, b, c, d], false)
         == (LineText(250, '-', a) + CRLF) + (LineText(250, '-', b) + CRLF) + (LineText(250, '-', c) + CRLF)
          + (LineText(250, ' ', d) + CRLF)
  {
    hide LineText, Render;
    var lines := [a, b, c, d];
    var l1: seq<bytes> := [b, c, d];
    var l2: seq<bytes> := [c, d];
    var l3: seq<bytes> := [d];
    assert lines[1..] == l1 && l1[1..] == l2 && l2[1..] == l3;
    RenderCons(250, lines);
    RenderCons(250, l1);
    RenderCons(250, l2);
    RenderCons(250, l3);
    var r0, r1 := LineText(250, '-', a) + CRLF, LineText(250, '-', b) + CRLF;
    var r2, r3 := LineText(250, '-', c) + CRLF, LineText(250, ' ', d) + CRLF;
    Assoc(r0, r1, r2);
    Assoc(r0, r1 + r2, r3);
    Assoc(r1, r2, r3);
  }

  lemma RenderCons(code: nat, lines: seq<bytes>)
    requires code <= 999 && lines != []
    ensures Render(code, lines, false) ==
      if |lines| == 1 then LineText(code, ' ', lines[0]) + CRLF
      else LineText(code, '-', lines[0]) + CRLF + Render(code, lines[1..], false)
  {
  }
}
