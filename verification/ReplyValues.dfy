// What a reply that was read, and an error it causes, tell of the server's own lines.

module ReplyValues {
  import opened Octets
  import opened Errors
  import opened EnhancedStatusCodes
  import opened Session
  import opened Replies
  import opened World

  // A status and a message are those of a reply with these lines, in a session in which
  // enhanced status codes are on or off.
  ghost predicate Tells(enabled: bool, lines: seq<bytes>, status: Option<EnhancedStatus>, message: bytes) {
    && (if enabled then FirstStatus(Decoded(lines), status) else status == None)
    && message == JoinLines(Decoded(lines))
  }

  ghost predicate UnexpectedFor(
      e: Error, enabled: bool, during: SmtpOp, expectedClass: nat, code: nat, lines: seq<bytes>)
  {
    e.UnexpectedCode? && e.during == during && e.expectedClass == expectedClass && e.actual == code
    && Tells(enabled, lines, e.enhanced, e.message)
  }

  ghost predicate RejectedFor(e: Error, enabled: bool, code: nat, lines: seq<bytes>) {
    e.Rejected? && e.code == code && Tells(enabled, lines, e.enhanced, e.message)
  }

  // A refused login: a rejection when the reply is a 5xx.
  ghost predicate AuthErrorFor(
      e: Error, enabled: bool, during: SmtpOp, expectedClass: nat, code: nat, lines: seq<bytes>)
  {
    if code / 100 == 5 then RejectedFor(e, enabled, code, lines)
    else UnexpectedFor(e, enabled, during, expectedClass, code, lines)
  }

  lemma MadeReply(enabled: bool, code: nat, lines: seq<bytes>)
    ensures var r := MakeReply(enabled, code, lines);
      r.code == code && r.lines == Decoded(lines) && Tells(enabled, lines, r.enhanced, r.JoinedText())
  {
    hide FirstStatus, Reply.TryParseEnhanced;
    var plain := Reply(code, Decoded(lines), None);
    OneFirstStatus(Decoded(lines), plain.TryParseEnhanced());
    SameLines(plain, Reply(0, Decoded(lines), None));
  }

  lemma SameLines(a: Reply, b: Reply)
    requires a.lines == b.lines
    ensures a.TryParseEnhanced() == b.TryParseEnhanced()
  {
  }

  // Reading takes the next reply of the stream: its code, its lines decoded, the status of its
  // first line if enhanced codes are on, and nothing else. Without a next reply the session is
  // given up.
  lemma Read(w: World)
    requires w.state != Closed
    ensures var out := ReadReply(w);
      match TakeReply(w.net.input, w.net.ending)
      case NoReply(e) => out == Out(Abort(w), Err(e))
      case GotReply(code, lines, rest) =>
        && out.r.Ok? && out.w == w.(net := w.net.(input := rest))
        && out.r.value.code == code && out.r.value.lines == Decoded(lines)
        && Tells(w.enhanced, lines, out.r.value.enhanced, out.r.value.JoinedText())
  {
    hide TakeReplyFrom, MakeReply, Tells;
    var r := TakeReply(w.net.input, w.net.ending);
    if r.GotReply? {
      MadeReply(w.enhanced, r.code, r.lines);
    }
  }

  // What an expectation makes of the next reply.
  ghost predicate Expected<T>(w: World, out: Out<T>, wanted: nat -> bool, during: SmtpOp, expectedClass: nat) {
    match TakeReply(w.net.input, w.net.ending)
    case NoReply(e) => out == Out(Abort(w), Err(e))
    case GotReply(code, lines, rest) =>
      var w' := w.(net := w.net.(input := rest));
      if wanted(code) then out.r.Ok? && out.w == w'
      else
        && out.w == Abort(w') && out.r.Err?
        && UnexpectedFor(out.r.error, w.enhanced, during, expectedClass, code, lines)
  }

  lemma ExpectedCode(w: World, expected: nat, during: SmtpOp)
    requires w.state != Closed
    ensures var out := ExpectCode(w, expected, during);
      && Expected(w, out, code => code == expected, during, expected / 100)
      && (out.r.Ok? ==> out.r.value.code == expected)
  {
    hide TakeReplyFrom, ReadReply, Tells;
    Read(w);
  }

  lemma ExpectedClass(w: World, expected: nat, during: SmtpOp)
    requires w.state != Closed
    ensures var out := ExpectClass(w, expected, during); var r := TakeReply(w.net.input, w.net.ending);
      && Expected(w, out, code => code / 100 == expected, during, expected)
      && (out.r.Ok? ==> out.r.value.code == r.code && out.r.value.JoinedText() == JoinLines(Decoded(r.lines)))
  {
    hide TakeReplyFrom, ReadReply;
    Read(w);
  }
}
