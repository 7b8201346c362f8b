// What the server's replies and the network decide about connecting, upgrading and leaving.

module SessionVerdicts {
  import opened Octets
  import opened Errors
  import opened EnhancedStatusCodes
  import opened Session
  import opened Commands
  import opened Replies
  import opened World
  import opened ReplyValues
  import Responder

  predicate Good(r: NextReply) {
    r.GotReply? && r.code / 100 == 2
  }

  // The error a reply that was not wanted causes, or the lack of one.
  ghost predicate ErrorOf(e: Error, enabled: bool, during: SmtpOp, expectedClass: nat, r: NextReply) {
    match r
    case NoReply(e') => e == e'
    case GotReply(code, lines, _) => UnexpectedFor(e, enabled, during, expectedClass, code, lines)
  }

  // ---------------------------------------------------------------------------
  // EHLO
  // ---------------------------------------------------------------------------

  function EhloLine(domain: bytes): bytes {
    FormatCommandArg(EHLO, domain)
  }

  // The reply to an EHLO that is sent now.
  function EhloAnswer(net: Net, domain: bytes): NextReply {
    TakeReply(Sent(net, EhloLine(domain)).input, net.ending)
  }

  // Decided by the write and the reply: a 2xx makes its lines after the first the capabilities.
  ghost predicate EhloDecided(w: World, out: Out<()>, domain: bytes) {
    if !NextSucceeds(w.net) then
      && out.r == Err(Io) && out.w.state == Closed && out.w.audit == w.audit + [SessionAborted]
      && out.w.net.trace == w.net.trace + [WriteFailed(EhloLine(domain))]
    else
      && out.w.net.trace == w.net.trace + [Wrote(EhloLine(domain))]
      && var r := EhloAnswer(w.net, domain);
      if Good(r) then
        && out.r == Ok(()) && out.w.state == Authentication && out.w.audit == w.audit + [EhloCompleted]
        && r.lines != [] && out.w.capabilities == Decoded(r.lines)[1..]
        && (out.w.enhanced <==> Advertises(out.w.capabilities, KW_ENHANCED))
        && out.w.net.input == r.rest
      else
        && out.r.Err? && ErrorOf(out.r.error, w.enhanced, SmtpOp.Ehlo, 2, r)
        && out.w.state == Closed && out.w.audit == w.audit + [SessionAborted]
  }

  lemma HasLines(stream: bytes, ending: Ending)
    requires TakeReply(stream, ending).GotReply?
    ensures TakeReply(stream, ending).lines != []
  {
    hide TakeReplyFrom;
    var lines, bare := ReadIsRendered(stream, ending, None, []);
  }

  lemma EhloVerdict(w: World, domain: bytes)
    requires w.state == SessionState.Ehlo
    ensures EhloDecided(w, SendEhlo(w, domain), domain)
  {
    hide TakeReplyFrom, ReadReply, Advertises, Tells, FormatCommandArg, Responder.Feed;
    if NextSucceeds(w.net) {
      var s := WriteAll(w, EhloLine(domain));
      Read(s.w);
      if EhloAnswer(w.net, domain).GotReply? {
        HasLines(s.w.net.input, w.net.ending);
      }
    }
  }

  // ---------------------------------------------------------------------------
  // Connecting
  // ---------------------------------------------------------------------------

  // Decided by the first reply: unless it is a 2xx nothing is written and the session is over.
  ghost predicate ConnectDecided(net: Net, domain: bytes, out: Out<()>) {
    var greeting := TakeReply(net.input, net.ending);
    if !ValidEhloDomain(domain) then out == Out(Fresh(net, domain), Err(InvalidInput(BadArgument)))
    else if !Good(greeting) then
      && out.r.Err? && ErrorOf(out.r.error, false, SmtpOp.Greeting, 2, greeting)
      && out.w.state == Closed && out.w.audit == [Connected, SessionAborted]
      && out.w.net.trace == net.trace
    else
      var greeted := Fresh(net, domain).(
        state := SessionState.Ehlo, audit := [Connected, GreetingReceived(greeting.code)],
        net := net.(input := greeting.rest));
      EhloDecided(greeted, out, domain)
  }

  lemma ConnectVerdict(net: Net, domain: bytes)
    ensures ConnectDecided(net, domain, Connect(net, domain))
  {
    hide TakeReplyFrom, ReadReply, SendEhlo, Tells, ValidEhloDomain, EhloDecided;
    if ValidEhloDomain(domain) {
      var w := Audit(Fresh(net, domain), Connected);
      Read(w);
      var r := TakeReply(net.input, net.ending);
      assert [] + [Connected] == [Connected];
      if Good(r) {
        assert [Connected] + [GreetingReceived(r.code)] == [Connected, GreetingReceived(r.code)];
        EhloVerdict(Audit(ReadReply(w).w, GreetingReceived(r.code)).(state := SessionState.Ehlo), domain);
      } else {
        assert [Connected] + [SessionAborted] == [Connected, SessionAborted];
      }
    }
  }

  // Connecting succeeds if and only if the domain is accepted, the first reply is a 2xx, the
  // EHLO can be sent and its reply is a 2xx; and the log holds the code of the greeting.
  lemma ConnectSucceeds(net: Net, domain: bytes)
    ensures var out := Connect(net, domain); var greeting := TakeReply(net.input, net.ending);
      && (out.r.Ok? <==>
            && ValidEhloDomain(domain) && Good(greeting) && NextSucceeds(net)
            && Good(EhloAnswer(net.(input := greeting.rest), domain)))
      && (out.r.Ok? ==> out.w.audit == [Connected, GreetingReceived(greeting.code), EhloCompleted])
  {
    hide TakeReplyFrom, Connect, ValidEhloDomain, EhloAnswer, ErrorOf;
    ConnectVerdict(net, domain);
    var greeting := TakeReply(net.input, net.ending);
    if Good(greeting) {
      assert [Connected, GreetingReceived(greeting.code)] + [EhloCompleted]
          == [Connected, GreetingReceived(greeting.code), EhloCompleted];
    }
  }

  // ---------------------------------------------------------------------------
  // STARTTLS
  // ---------------------------------------------------------------------------

  // The request can be made and goes out.
  predicate Asks(w: World) {
    w.state == Authentication && Advertises(w.capabilities, STARTTLS) && NextSucceeds(w.net)
  }

  function TlsAnswer(net: Net): NextReply {
    TakeReply(Sent(net, STARTTLS_LINE).input, net.ending)
  }

  // The server is ready, with a 220 and nothing else, and nothing it said is left in the buffer.
  predicate ReadyForTls(w: World, residue: nat) {
    Asks(w) && residue == 0 && var r := TlsAnswer(w.net); r.GotReply? && r.code == 220
  }

  lemma RequestVerdict(w: World)
    ensures var out := RequestTls(w); var r := TlsAnswer(w.net);
      && (out.r.Ok? <==> Asks(w) && r.GotReply? && r.code == 220)
      && (out.r.Ok? ==>
            out.w == w.(state := SessionState.StartTls, net := Sent(w.net, STARTTLS_LINE).(input := r.rest)))
      && (Asks(w) && out.r.Err? ==>
            && ErrorOf(out.r.error, w.enhanced, SmtpOp.StartTls, 2, r)
            && out.w.state == Closed && out.w.audit == w.audit + [SessionAborted]
            && out.w.net.trace == w.net.trace + [Wrote(STARTTLS_LINE)])
      && (!Asks(w) ==> Upgraded !in out.w.net.trace[|w.net.trace|..] && w.net.trace <= out.w.net.trace)
  {
    hide TakeReplyFrom, ExpectCode, Advertises, Tells, FormatCommand, Responder.Feed;
    if w.state == Authentication && Advertises(w.capabilities, STARTTLS) {
      var w1 := w.(state := SessionState.StartTls);
      if NextSucceeds(w.net) {
        ExpectedCode(WriteAll(w1, STARTTLS_LINE).w, 220, SmtpOp.StartTls);
      }
    }
  }

  // The transport is upgraded if and only if the server was asked, answered with a 220, left
  // nothing in the buffer, and the upgrade itself succeeds. Any other answer ends the session
  // after the request, with that answer in the error.
  lemma UpgradedOnlyOn220(w: World, residue: nat)
    ensures var out := DoStartTls(w, residue); var r := TlsAnswer(w.net);
      && w.net.trace <= out.w.net.trace
      && (Upgraded in out.w.net.trace[|w.net.trace|..] <==> ReadyForTls(w, residue) && NextSucceeds(Tried(w.net)))
      && (!ReadyForTls(w, residue) ==> out.r.Err?)
      && (Asks(w) && !(r.GotReply? && r.code == 220) ==>
            && out.r.Err? && ErrorOf(out.r.error, w.enhanced, SmtpOp.StartTls, 2, r)
            && out.w.state == Closed && out.w.audit == w.audit + [SessionAborted]
            && out.w.net.trace == w.net.trace + [Wrote(STARTTLS_LINE)])
      && (Asks(w) && r.GotReply? && r.code == 220 && residue > 0 ==>
            && out.r == Err(StartTlsBufferResidue(residue))
            && out.w.state == Closed && out.w.audit == w.audit + [SessionAborted]
            && out.w.net.trace == w.net.trace + [Wrote(STARTTLS_LINE)])
  {
    hide RequestTls, FinishTls, ErrorOf, Advertises, TlsAnswer, FormatCommand, Responder.Feed;
    RequestVerdict(w);
    var s := RequestTls(w);
    if s.r.Ok? {
      FinishVerdict(s.w, residue);
      SentTrace(w.net, STARTTLS_LINE);
      var t, t' := w.net.trace, FinishTls(s.w, residue).w.net.trace;
      assert t + [Wrote(STARTTLS_LINE)] == s.w.net.trace;
      assert t'[|t|..] == [Wrote(STARTTLS_LINE)] + t'[|t| + 1..];
    } else if Asks(w) {
      assert (w.net.trace + [Wrote(STARTTLS_LINE)])[|w.net.trace|..] == [Wrote(STARTTLS_LINE)];
    }
  }

  lemma SentTrace(net: Net, data: bytes)
    ensures Sent(net, data).trace == net.trace + [Wrote(data)]
    ensures Sent(net, data).outcomes == Tried(net).outcomes
  {
    hide Responder.Feed;
  }

  // From the 220 on.
  lemma FinishVerdict(w: World, residue: nat)
    requires w.state == SessionState.StartTls
    ensures var out := FinishTls(w, residue); var t := w.net.trace;
      && t <= out.w.net.trace
      && (Upgraded in out.w.net.trace[|t|..] <==> residue == 0 && NextSucceeds(w.net))
      && (residue > 0 ==>
            && out.r == Err(StartTlsBufferResidue(residue)) && out.w.net.trace == t
            && out.w.state == Closed && out.w.audit == w.audit + [SessionAborted])
  {
    hide SendEhlo, Responder.Feed;
    if residue == 0 && NextSucceeds(w.net) {
      var e := Audit(UpgradeToTls(w.(capabilities := [])).w, TlsUpgraded).(state := SessionState.Ehlo);
      EhloVerdict(e, e.domain);
      EhloTrace(e, SendEhlo(e, e.domain), e.domain);
      var t, t' := w.net.trace, SendEhlo(e, e.domain).w.net.trace;
      assert e.net.trace == t + [Upgraded];
      assert t'[|t|..][0] == Upgraded;
    }
  }

  lemma EhloTrace(w: World, out: Out<()>, domain: bytes)
    requires EhloDecided(w, out, domain)
    ensures w.net.trace <= out.w.net.trace && |out.w.net.trace| == |w.net.trace| + 1
  {
  }

  // What a STARTTLS that got as far as the upgrade comes to is decided by the EHLO over TLS.
  lemma StartTlsSucceeds(w: World, residue: nat)
    ensures var out := DoStartTls(w, residue);
      var r := TlsAnswer(w.net);
      var asked := Sent(w.net, STARTTLS_LINE).(input := if r.GotReply? then r.rest else []);
      var upgraded := AfterUpgrade(asked);
      && (out.r.Ok? <==>
            && ReadyForTls(w, residue) && NextSucceeds(Tried(w.net))
            && NextSucceeds(upgraded) && Good(EhloAnswer(upgraded, w.domain)))
      && (out.r.Ok? ==> out.w.audit == w.audit + [TlsUpgraded, EhloCompleted])
  {
    hide RequestTls, SendEhlo, ErrorOf, Advertises, TlsAnswer, FormatCommand, Responder.Feed, Sent, AfterUpgrade,
      EhloAnswer;
    RequestVerdict(w);
    var s := RequestTls(w);
    if s.r.Ok? {
      SentTrace(w.net, STARTTLS_LINE);
      if residue == 0 && NextSucceeds(s.w.net) {
        var e := Audit(UpgradeToTls(s.w.(capabilities := [])).w, TlsUpgraded).(state := SessionState.Ehlo);
        EhloVerdict(e, e.domain);
        assert w.audit + [TlsUpgraded] + [EhloCompleted] == w.audit + [TlsUpgraded, EhloCompleted];
      }
    }
  }

  // ---------------------------------------------------------------------------
  // Leaving
  // ---------------------------------------------------------------------------

  // Whatever becomes of the QUIT, the transport is closed once, last.
  lemma QuitTrace(w: World)
    requires w.state in {Authentication, SessionState.MailFrom}
    ensures var quit := FormatCommand(QUIT);
      DoQuit(w).w.net.trace ==
        w.net.trace + [if NextSucceeds(w.net) then Wrote(quit) else WriteFailed(quit)] + [ShutDown]
  {
    hide TakeReplyFrom, FormatCommand, Responder.Feed;
  }
}
