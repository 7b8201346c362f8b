// Where the two ends of a DATA phase part ways: the stuffer takes CR LF for the end of a line,
// the responder any LF; the stuffer takes any bytes, the responder records text; and the
// responder gives up on a line it cannot hold. A message is recorded as it was sent exactly
// when it is UTF-8 without a bare LF and all its lines fit.

module BareLineFeeds {
  import opened Octets
  import opened Responder
  import opened Composition
  import opened Utf8
  import DotStuffing

  // ---------------------------------------------------------------------------
  // The responder never records a bare LF
  // ---------------------------------------------------------------------------

  predicate Clean(m: Machine) {
    Free(m.partial, '\n') && NoBareLf(m.data) && NoBareLf(m.body)
  }

  lemma CleanLine(data: bytes, line: bytes)
    requires NoBareLf(data) && Free(line, '\n')
    ensures NoBareLf(data + line + CRLF)
  {
    var s := data + line + CRLF;
    forall i | 0 <= i < |s| ensures !BareLfAt(s, i) {
      assert !BareLfAt(data, i);
      assert i > 0 && CrlfAt(data, i - 1) ==> CrlfAt(s, i - 1);
      assert i == |s| - 1 ==> CrlfAt(s, i - 1);
    }
  }

  lemma FeedByteClean(m: Machine, b: byte)
    requires Clean(m)
    ensures Clean(FeedByte(m, b).peer)
  {
    hide NoBareLf, StartsWith, AnswerLine, EhloReply, Lossy;
    NothingIsClean();
    LossyFree(DropCr(m.partial), '\n');
    if Free(m.partial, '\n') {
      CleanLine(m.data, Lossy(DropCr(m.partial)));
    }
  }

  lemma NothingIsClean()
    ensures NoBareLf([])
  {
  }

  lemma {:induction false} FeedClean(m: Machine, input: bytes)
    requires Clean(m)
    ensures Clean(Feed(m, input).peer)
    decreases |input|
  {
    hide FeedByte, Clean;
    if input != [] {
      FeedByteClean(m, input[0]);
      FeedClean(FeedByte(m, input[0]).peer, input[1..]);
    }
  }

  // ---------------------------------------------------------------------------
  // Stuffing keeps bare LFs
  // ---------------------------------------------------------------------------

  lemma FrontClean(a: bytes, b: bytes)
    requires NoBareLf(a + b)
    ensures NoBareLf(a)
  {
    forall i | 0 <= i < |a| ensures !BareLfAt(a, i) {
      assert !BareLfAt(a + b, i);
    }
  }

  lemma {:induction false} StuffedKeepsBareLf(body: bytes)
    requires NoBareLf(DotStuffing.Stuffed(body))
    ensures NoBareLf(body)
    ensures body != [] ==> DotStuffing.Stuffed(body) != [] && LastOf(DotStuffing.Stuffed(body)) == LastOf(body)
    decreases |body|
  {
    hide DotStuffing.Stuffed, NoBareLf, DotStuffing.LineStart;
    if body == [] {
      NothingIsClean();
    } else {
      var n := |body| - 1;
      var init, c := body[..n], body[n];
      var s := DotStuffing.Stuffed(init);
      var tail := DotStuffing.StuffedByte(DotStuffing.LineStart(init, n), c);
      assert body == init + [c];
      DotStuffing.StuffedSnoc(init, c);
      FrontClean(s, tail);
      StuffedKeepsBareLf(init);
      LastByte(init, s, tail, c);
    }
  }

  function LastOf(s: bytes): byte
    requires s != []
  {
    s[|s| - 1]
  }

  lemma LastByte(init: bytes, s: bytes, tail: bytes, c: byte)
    requires NoBareLf(init) && NoBareLf(s + tail)
    requires if init == [] then s == [] else s != [] && LastOf(s) == LastOf(init)
    requires tail == [c] || (c == '.' && tail == ['.', '.'])
    ensures NoBareLf(init + [c])
  {
    var body := init + [c];
    forall i | 0 <= i < |body| ensures !BareLfAt(body, i) {
      if i < |init| {
        assert !BareLfAt(init, i);
        assert CrlfAt(init, i - 1) ==> CrlfAt(body, i - 1);
      } else if c == '\n' {
        assert !BareLfAt(s + tail, |s|);
      }
    }
  }

  // ---------------------------------------------------------------------------
  // The exact condition
  // ---------------------------------------------------------------------------

  lemma CompleteClean(body: bytes)
    requires NoBareLf(DotStuffing.Complete(body))
    ensures NoBareLf(body)
  {
    hide NoBareLf;
    if !EndsWithCrlf(body) {
      FrontClean(body, CRLF);
    }
  }

  lemma {:induction false} StuffedUtf8(lines: bytes)
    requires lines == [] || EndsWithCrlf(lines)
    ensures IsUtf8(DotStuffing.Stuffed(lines)) <==> IsUtf8(lines)
    decreases |lines|
  {
    hide DotStuffing.Stuffed, DotStuffing.Dotted, Lossy, IsUtf8;
    if lines != [] {
      var line, rest := DotStuffing.CutLine(lines);
      StuffedUtf8(rest);
      DotStuffing.StuffedLines(line, rest);
      LossyAtCrlf(line, rest);
      LossyAtCrlf(DotStuffing.Dotted(line), DotStuffing.Stuffed(rest));
      DottedUtf8(line);
    }
  }

  lemma DottedUtf8(line: bytes)
    ensures IsUtf8(DotStuffing.Dotted(line)) <==> IsUtf8(line)
  {
    hide Lossy, IsUtf8;
    LossyAt([], '.', line);
    NothingIsText();
    var dot: bytes := ['.'];
    assert [] + dot + line == dot + line;
  }

  // More than a line buffer without an LF.
  lemma {:induction false} FeedTooLong(m: Machine, text: bytes)
    requires Reading(m) && Free(text, '\n') && |m.partial| <= MAX_LINE < |m.partial| + |text|
    ensures Feed(m, text).peer.mode.Failed?
    decreases |text|
  {
    hide OnLine, Lossy;
    var next := FeedByte(m, text[0]).peer;
    if next.mode.Failed? {
      EndedIgnores(next, text[1..]);
    } else {
      FeedTooLong(next, text[1..]);
    }
  }

  lemma FailedForGood(m: Machine, a: bytes, b: bytes)
    requires Feed(m, a).peer.mode.Failed?
    ensures Feed(m, a + b).peer.mode.Failed?
  {
    hide Feed;
    FeedConcat(m, a, b);
    EndedIgnores(Feed(m, a).peer, b);
  }

  lemma LineTooLong(m: Machine, line: bytes)
    requires Reading(m) && m.partial == [] && Free(line, '\n') && |line| + 1 > MAX_LINE
    ensures Feed(m, line + CRLF).peer.mode.Failed?
  {
    hide Feed;
    FeedTooLong(m, line + ['\r']);
    FailedForGood(m, line + ['\r'], ['\n']);
    assert line + ['\r'] + ['\n'] == line + CRLF;
  }

  // Lines of which one does not fit.
  lemma {:induction false} LinesTooLong(m: Machine, lines: bytes)
    requires m.mode.Mail? && m.partial == []
    requires EndsWithCrlf(lines) && NoBareLf(lines) && !LinesFit(lines)
    ensures Feed(m, DotStuffing.Stuffed(lines)).peer.mode.Failed?
    decreases |lines|
  {
    hide DotStuffing.Stuffed, DotStuffing.Dotted, NoBareLf, Lossy, Feed;
    var line, rest := DotStuffing.CutLine(lines);
    FirstLine(line, rest);
    LineOfBody(line, rest);
    DotStuffing.DottedNoCrlf(line);
    DotStuffing.StuffedLines(line, rest);
    var d := DotStuffing.Dotted(line);
    if |d| + 1 > MAX_LINE {
      LineTooLong(m, d);
      FailedForGood(m, d + CRLF, DotStuffing.Stuffed(rest));
    } else {
      assert rest != [] by { NothingFits(rest); }
      FeedLine(m, d);
      NotDot(d);
      var next := m.(data := m.data + Lossy(d) + CRLF);
      assert OnLine(m, Lossy(d)) == Fed(next, []);
      LinesTooLong(next, rest);
      FeedConcat(m, d + CRLF, DotStuffing.Stuffed(rest));
    }
  }

  lemma NothingFits(lines: bytes)
    ensures lines == [] ==> LinesFit(lines)
  {
  }

  lemma PayloadTooLong(m: Machine, body: bytes)
    requires m.mode.Mail? && m.partial == [] && NoBareLf(body) && !LinesFit(DotStuffing.Complete(body))
    ensures Feed(m, DotStuffing.Payload(body)).peer.mode.Failed?
  {
    hide Feed, NoBareLf, LinesFit, DotStuffing.Payload, DotStuffing.Stuffed;
    CompleteNoBareLf(body);
    DotStuffing.PayloadComplete(body);
    LinesTooLong(m, DotStuffing.Complete(body));
    FailedForGood(m, DotStuffing.Stuffed(DotStuffing.Complete(body)), DotStuffing.DOT_LINE);
  }

  // The responder takes the message, and records it as it was sent, if and only if the body is
  // UTF-8, has no bare LF, and has no line longer than the responder can hold. (What it
  // recorded before has no bare LF, as nothing it records has.)
  lemma RecordedExactly(m: Machine, body: bytes)
    requires m.mode.Mail? && m.partial == [] && m.data == [] && NoBareLf(m.body)
    ensures var p := Feed(m, DotStuffing.Payload(body)).peer;
      p.mode.Commands? && p.body == DotStuffing.Stuffed(DotStuffing.Complete(body))
      <==> NoBareLf(body) && IsUtf8(body) && LinesFit(DotStuffing.Complete(body))
  {
    hide Feed, NoBareLf, LinesFit, DotStuffing.Payload, DotStuffing.Stuffed, Lossy, IsUtf8;
    var complete := DotStuffing.Complete(body);
    if !NoBareLf(body) {
      NothingIsClean();
      FeedClean(m, DotStuffing.Payload(body));
      if NoBareLf(DotStuffing.Stuffed(complete)) {
        StuffedKeepsBareLf(complete);
        CompleteClean(body);
      }
    } else if !LinesFit(complete) {
      PayloadTooLong(m, body);
    } else {
      FeedPayload(m, body);
      CompleteNoBareLf(body);
      StuffedUtf8(complete);
      CompleteText(body);
      LossyFixed(DotStuffing.Stuffed(complete));
    }
  }

  // A responder that was only ever fed bytes has recorded no bare LF.
  lemma NeverBare(starttls: bool, input: bytes)
    ensures NoBareLf(Feed(Responder.Start(starttls), input).peer.body)
  {
    hide Feed, NoBareLf;
    NothingIsClean();
    FeedClean(Responder.Start(starttls), input);
  }

  // UTF-8 without a bare LF, but one byte longer than a line may be: the responder gives up.
  lemma OverlongLine(m: Machine, body: bytes)
    requires m.mode.Mail? && m.partial == []
    requires |body| == MAX_LINE && forall i :: 0 <= i < |body| ==> body[i] == 'a'
    ensures NoBareLf(body) && IsUtf8(body) && Feed(m, DotStuffing.Payload(body)).peer.mode.Failed?
  {
    hide Feed, Lossy, IsUtf8, DotStuffing.Payload, DotStuffing.Stuffed;
    AsciiIsUtf8(body);
    assert NoCrlf(body);
    FirstLine(body, []);
    assert body + CRLF + [] == body + CRLF;
    assert !EndsWithCrlf(body);
    PayloadTooLong(m, body);
  }

  // A byte that is no UTF-8, in a body without a bare LF: the responder records U+FFFD for it.
  lemma ByteReplaced(m: Machine)
    requires m.mode.Mail? && m.partial == [] && m.data == []
    ensures var body: bytes := ['\U{FF}', '\r', '\n'];
      NoBareLf(body) && Feed(m, DotStuffing.Payload(body)).peer.body == REPLACEMENT + CRLF
  {
    hide Feed, Lossy, NoBareLf, LinesFit, DotStuffing.Stuffed;
    var line: bytes := ['\U{FF}'];
    var body: bytes := ['\U{FF}', '\r', '\n'];
    assert body == line + CRLF + [];
    assert NoCrlf(line);
    SampleBody(body);
    FeedPayload(m, body);
    DotStuffing.StuffedLines(line, []);
    LossyAtCrlf(line, []);
    NothingIsText();
    LossyOfFF();
    assert REPLACEMENT + CRLF + [] == REPLACEMENT + CRLF;
    assert DotStuffing.Stuffed([]) == [];
  }

  lemma SampleBody(body: bytes)
    requires body == ['\U{FF}', '\r', '\n']
    ensures NoBareLf(body) && DotStuffing.Complete(body) == body && LinesFit(body)
  {
    assert CrlfAt(body, 1) && !CrlfAt(body, 0);
    assert FindCrlf(body) == Some(1);
    assert body[3..] == [];
    assert FindCrlf([]) == None;
    assert LinesFit([]);
  }

  // A line ended by a bare LF.
  lemma FeedBareLine(m: Machine, line: bytes)
    requires Reading(m) && m.partial == [] && Free(line, '\n') && |line| <= MAX_LINE
    ensures Feed(m, line + ['\n']) == OnLine(m, Lossy(DropCr(line)))
  {
    hide OnLine, FeedByte, DropCr, Feed, Lossy;
    FeedText(m, line);
    FeedConcat(m, line, ['\n']);
    assert [] + line == line;
    FeedLf(m.(partial := line));
    var f := OnLine(m, Lossy(DropCr(line)));
    assert [] + f.reply == f.reply;
    assert m.(partial := line).(partial := []) == m;
  }

  // A lone period between bare LFs: the stuffer leaves it alone, since it starts no line, and
  // the responder takes it for the end of the message. What follows is taken for a command.
  lemma PeriodBetweenBareLfs(m: Machine)
    requires m.mode.Mail? && m.partial == [] && m.data == []
    ensures var f := Feed(m, DotStuffing.Payload(['\n', '.', '\n']));
      f.peer.mode == Finished && f.peer.body == CRLF && f.peer.lines == m.lines + [(TlsLeg, [])]
  {
    hide Feed, AnswerLine, EhloReply, Lossy;
    NothingIsText();
    LossyOfAscii(DOT);
    var body: bytes := ['\n', '.', '\n'];
    var one, two, three: bytes := ['\n'], ['.', '\n'], ['\r', '\n'];
    SamplePayload(body);
    var rest := three + DotStuffing.DOT_LINE;
    FeedBareLine(m, []);
    assert [] + one == one;
    var m1 := m.(data := CRLF);
    assert Feed(m, one) == Fed(m1, []) by {
      assert [] + [] + CRLF == CRLF;
    }
    FeedBareLine(m1, DOT);
    assert DOT + ['\n'] == two;
    var m2 := m1.(mode := Commands, body := CRLF, data := []);
    FeedBareLine(m2, ['\r']);
    assert ['\r'] + ['\n'] == three;
    var m3 := OnLine(m2, []).peer;
    assert m3.mode.Finished?;
    EndedIgnores(m3, DotStuffing.DOT_LINE);
    FeedConcat(m2, three, DotStuffing.DOT_LINE);
    FeedConcat(m1, two, rest);
    FeedConcat(m, one, two + rest);
  }

  lemma SamplePayload(body: bytes)
    requires body == ['\n', '.', '\n']
    ensures DotStuffing.Payload(body) == ['\n'] + (['.', '\n'] + (['\r', '\n'] + DotStuffing.DOT_LINE))
  {
    hide DotStuffing.Stuffed;
    var empty: bytes := [];
    assert NoCrlf(body);
    DotStuffing.StuffedLine(body);
    assert DotStuffing.Dotted(body) == body;
  }
}
