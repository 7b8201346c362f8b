// The STARTTLS boundary (sections 4.2 and 5 of RFC 3207): what is known after the upgrade
// comes from after the upgrade, and nothing is written across it in the clear.

module TlsBoundary {
  import opened Octets
  import opened Session
  import opened Commands
  import opened Replies
  import opened World
  import opened AuditLog
  import opened Runs
  import Responder

  // The session knows exactly what the EHLO reply at the front of the stream of `net` says.
  predicate KnowsFrom(net: Net, w: World) {
    var reply := TakeReply(net.input, net.ending);
    && reply.GotReply? && reply.code / 100 == 2
    && w.capabilities == CapabilityLines(Decoded(reply.lines))
    && w.enhanced == Advertises(w.capabilities, KW_ENHANCED)
    && w.net.input == reply.rest
  }

  lemma SendEhloResult(w: World, domain: bytes)
    requires w.state == SessionState.Ehlo && w.net.peer.Script?
    requires SendEhlo(w, domain).r.Ok?
    ensures var out := SendEhlo(w, domain);
      && KnowsFrom(w.net, out.w)
      && out.w.net.trace == w.net.trace + [Wrote(FormatCommandArg(EHLO, domain))]
  {
    hide TakeReplyFrom, Advertises, FormatCommandArg;
  }

  // After a successful STARTTLS the capabilities and the enhanced-status flag are a function
  // of the stream that reads made after the upgrade deliver. Nothing that was delivered before
  // has a part in them, however much of it there was; and with a transport that drops what it
  // had not delivered, neither has anything else that was sent in the clear.
  lemma CapabilitiesFromAfterUpgrade(w: World, residue: nat)
    requires w.net.peer.Script? && DoStartTls(w, residue).r.Ok?
    ensures residue == 0 && KnowsFrom(AfterUpgrade(RequestTls(w).w.net), DoStartTls(w, residue).w)
    ensures !w.net.carries && w.net.segments != [] ==>
      KnowsFrom(RequestTls(w).w.net.(input := w.net.segments[0].input, ending := w.net.segments[0].ending),
                DoStartTls(w, residue).w)
    ensures DoStartTls(w, residue).w.net.trace
         == w.net.trace + [Wrote(STARTTLS_LINE), Upgraded, Wrote(FormatCommandArg(EHLO, w.domain))]
  {
    hide RequestTls, SendEhlo, FormatCommandArg, FormatCommand, KnowsFrom;
    RequestTlsNet(w);
    var s := RequestTls(w);
    var u := UpgradeToTls(s.w.(capabilities := []));
    var e := Audit(u.w, TlsUpgraded).(state := SessionState.Ehlo);
    SendEhloResult(e, e.domain);
    var out := DoStartTls(w, residue).w;
    if !w.net.carries && w.net.segments != [] {
      var s0 := w.net.segments[0];
      assert [] + s0.input == s0.input;
      KnowsFromStream(e.net, s.w.net.(input := s0.input, ending := s0.ending), out);
    }
    var ehlo := Wrote(FormatCommandArg(EHLO, w.domain));
    assert w.net.trace + [Wrote(STARTTLS_LINE)] + [Upgraded] + [ehlo]
        == w.net.trace + [Wrote(STARTTLS_LINE), Upgraded, ehlo];
  }

  lemma KnowsFromStream(net: Net, net': Net, w: World)
    requires KnowsFrom(net, w) && net.input == net'.input && net.ending == net'.ending
    ensures KnowsFrom(net', w)
  {
  }

  // What asking for TLS leaves of the network: one line written, if any, and nothing yet taken
  // from what later upgrades bring.
  lemma RequestTlsNet(w: World)
    ensures var out := RequestTls(w);
      && (out.r.Ok? ==> out.w.net.trace == w.net.trace + [Wrote(STARTTLS_LINE)])
      && (out.r.Ok? ==> out.w.domain == w.domain && out.w.state == SessionState.StartTls)
      && (out.r.Ok? && w.net.peer.Script? ==>
            out.w.net.segments == w.net.segments && out.w.net.carries == w.net.carries && out.w.net.peer == w.net.peer)
      && (out.r.Err? ==> out.w == w || out.w.state == Closed)
      && (out.r.Err? ==>
            out.w.net.trace == w.net.trace ||
            out.w.net.trace == w.net.trace + [Wrote(STARTTLS_LINE)] ||
            out.w.net.trace == w.net.trace + [WriteFailed(STARTTLS_LINE)])
  {
    hide TakeReplyFrom, Advertises, FormatCommand, Responder.Feed;
  }

  // Sending EHLO adds at most one line to the trace.
  lemma SendEhloTrace(w: World, domain: bytes)
    ensures var out := SendEhlo(w, domain); var line := FormatCommandArg(EHLO, domain);
      || out.w.net.trace == w.net.trace + [Wrote(line)]
      || out.w.net.trace == w.net.trace + [WriteFailed(line)]
  {
    hide TakeReplyFrom, Advertises, FormatCommandArg, Responder.Feed;
  }

  // Whatever happens, what a STARTTLS call writes is a front part of the request, the upgrade
  // and the EHLO, in this order; and when the request went out without the upgrade following
  // it, the session is closed.
  lemma NothingWrittenAcross(w: World, residue: nat)
    ensures var out := DoStartTls(w, residue); var t := out.w.net.trace; var line := FormatCommandArg(EHLO, w.domain);
      || t == w.net.trace
      || (t == w.net.trace + [WriteFailed(STARTTLS_LINE)] && out.w.state == Closed)
      || (t == w.net.trace + [Wrote(STARTTLS_LINE)] && out.w.state == Closed)
      || t == w.net.trace + [Wrote(STARTTLS_LINE), Upgraded, Wrote(line)]
      || t == w.net.trace + [Wrote(STARTTLS_LINE), Upgraded, WriteFailed(line)]
    ensures w.net.trace != DoStartTls(w, residue).w.net.trace || DoStartTls(w, residue).r.Err?
  {
    hide RequestTls, SendEhlo, FormatCommandArg, FormatCommand, Responder.Handshake;
    RequestTlsNet(w);
    var s := RequestTls(w);
    var t, line := w.net.trace, FormatCommandArg(EHLO, w.domain);
    assert |t + [Wrote(STARTTLS_LINE)]| == |t| + 1 && |t + [WriteFailed(STARTTLS_LINE)]| == |t| + 1;
    if s.r.Ok? && residue == 0 {
      var u := UpgradeToTls(s.w.(capabilities := []));
      if u.r.Ok? {
        var e := Audit(u.w, TlsUpgraded).(state := SessionState.Ehlo);
        SendEhloTrace(e, e.domain);
        assert t + [Wrote(STARTTLS_LINE)] + [Upgraded] + [Wrote(line)]
            == t + [Wrote(STARTTLS_LINE), Upgraded, Wrote(line)];
        assert t + [Wrote(STARTTLS_LINE)] + [Upgraded] + [WriteFailed(line)]
            == t + [Wrote(STARTTLS_LINE), Upgraded, WriteFailed(line)];
      }
    }
  }

  predicate AddsUpgrade(before: seq<Wire>, after: seq<Wire>) {
    before <= after && Upgraded in after[|before|..]
  }

  // In a run: once a STARTTLS call has written anything without an upgrade following, nothing
  // is ever written again.
  ghost predicate Guarded(env: Env, w: World, calls: seq<Call>)
    decreases |calls|
  {
    calls == [] ||
    var out := Step(env, w, calls[0]);
    && (calls[0].StartTlsCall? && out.w.net.trace != w.net.trace && !AddsUpgrade(w.net.trace, out.w.net.trace) ==>
          Run(env, out.w, calls[1..]).net.trace == out.w.net.trace)
    && Guarded(env, out.w, calls[1..])
  }

  lemma {:induction false} EveryRunGuarded(env: Env, w: World, calls: seq<Call>)
    requires Consistent(w)
    ensures Guarded(env, w, calls)
    decreases |calls|
  {
    hide DoStartTls, DoLogin, LoginWith, SendMail, SendMailUtf8, SendMailStream, PhaseOf;
    if calls != [] {
      var call, out := calls[0], Step(env, w, calls[0]);
      StepKept(env, w, call);
      RunKept(env, out.w, calls[1..]);
      EveryRunGuarded(env, out.w, calls[1..]);
      if call.StartTlsCall? {
        NothingWrittenAcross(w, call.residue);
        var t, line := w.net.trace, FormatCommandArg(EHLO, w.domain);
        var full := [Wrote(STARTTLS_LINE), Upgraded, Wrote(line)];
        var part := [Wrote(STARTTLS_LINE), Upgraded, WriteFailed(line)];
        assert (t + full)[|t|..] == full && (t + part)[|t|..] == part;
        assert full[1] == Upgraded && part[1] == Upgraded;
      }
    }
  }
}
