// Whole runs of a session: what every call keeps of the state and the audit log, and what an
// error leaves behind.

module Runs {
  import opened Octets
  import opened Errors
  import opened Session
  import opened Commands
  import opened World
  import opened QuietSteps
  import opened Replies
  import opened AuditLog
  import DotStuffing
  import Responder

  // ---------------------------------------------------------------------------
  // Runs
  // ---------------------------------------------------------------------------

  datatype Call =
    | StartTlsCall(residue: nat)
    | LoginCall(user: bytes, pass: bytes, entropy: Option<bytes>)
    | LoginWithCall(mechanism: AuthMechanism, user: bytes, credential: bytes, entropy: Option<bytes>)
    | SendCall(from: bytes, to: seq<bytes>, body: bytes)
    | SendUtf8Call(from: bytes, to: seq<bytes>, body: bytes)
    | SendStreamCall(from: bytes, to: seq<bytes>, chunks: seq<bytes>, whole: bool)

  function NoValue<T>(out: Out<T>): Out<()> {
    Out(out.w, match out.r case Ok(_) => Ok(()) case Err(e) => Err(e))
  }

  function Step(env: Env, w: World, call: Call): Out<()> {
    match call
    case StartTlsCall(residue) => DoStartTls(w, residue)
    case LoginCall(user, pass, entropy) => DoLogin(env, w, user, pass, entropy)
    case LoginWithCall(mechanism, user, credential, entropy) => LoginWith(env, w, mechanism, user, credential, entropy)
    case SendCall(from, to, body) => NoValue(SendMail(env, w, from, to, body))
    case SendUtf8Call(from, to, body) => NoValue(SendMailUtf8(env, w, from, to, body))
    case SendStreamCall(from, to, chunks, whole) => NoValue(SendMailStream(env, w, from, to, chunks, whole))
  }

  // What one call keeps. An error leaves the session untouched, so nothing was written or
  // logged, or closed; a refusal leaves it untouched; a closed session stays exactly as it is;
  // the state machine's own rejection is never what a caller sees. That nothing is read either
  // is in the contracts of the client's methods, since a `World` does not show the buffer.
  ghost predicate Kept(w: World, out: Out<()>) {
    && Consistent(out.w)
    && w.audit <= out.w.audit
    && (out.r.Ok? ==> out.w.state != Closed)
    && (out.r.Err? ==> out.w == w || out.w.state == Closed)
    && (out.r.Err? && out.r.error.IsRefusal() ==> out.w == w)
    && (w.state == Closed ==> out.w == w && out.r.Err?)
    && out.r != Err(InvalidInput(TransitionRejected))
  }

  lemma GivenUpKept(w: World, out: Out<()>)
    requires Consistent(w) && w.state != Closed && out.r.Err? && GivenUp(w, out.w, out.r.error)
    ensures Kept(w, out)
  {
    hide PhaseOf;
    PhaseSnoc(w.audit, SessionAborted);
  }

  lemma SendKept<T>(w: World, out: Out<T>, n: nat, d: seq<Event>)
    requires Consistent(w) && SendLog(w, out, n, d)
    requires out.w != w ==> n > 0 && w.state in {Authentication, SessionState.MailFrom}
    ensures Kept(w, NoValue(out))
  {
    hide PhaseOf;
    assert |w.audit + d| == |w.audit| + |d|;
    if out.w != w {
      if out.r.Ok? {
        FrontPhase(w.audit, d, n);
      } else {
        AbortedPhase(w.audit, d, n);
      }
    }
  }

  // A send that changes anything was asked to reach someone, from a state that allows it.
  lemma SendNeeds(env: Env, w: World, call: Call)
    requires call.SendCall? || call.SendUtf8Call? || call.SendStreamCall?
    ensures Step(env, w, call).w != w ==> call.to != [] && w.state in {Authentication, SessionState.MailFrom}
  {
    hide RunEnvelope, FinishMessage, StreamBody, WriteAll, Advertises, DotStuffing.Payload;
  }

  lemma SendStepKept(env: Env, w: World, call: Call) returns (d: seq<Event>)
    requires Consistent(w) && (call.SendCall? || call.SendUtf8Call? || call.SendStreamCall?)
    ensures Kept(w, Step(env, w, call))
    ensures Step(env, w, call).w.audit == w.audit + d
    ensures Step(env, w, call).r.Ok? ==> SendComplete(d, |call.to|)
    ensures Step(env, w, call).r.Err? ==> Step(env, w, call).w == w || SendAborted(d, |call.to|)
  {
    hide SendMail, SendMailUtf8, SendMailStream, Kept;
    SendNeeds(env, w, call);
    match call
    case SendCall(from, to, body) =>
      d := SendMailLog(env, w, from, to, body);
      SendKept(w, SendMail(env, w, from, to, body), |to|, d);
    case SendUtf8Call(from, to, body) =>
      d := SendMailUtf8Log(env, w, from, to, body);
      SendKept(w, SendMailUtf8(env, w, from, to, body), |to|, d);
    case SendStreamCall(from, to, chunks, whole) =>
      d := SendMailStreamLog(env, w, from, to, chunks, whole);
      SendKept(w, SendMailStream(env, w, from, to, chunks, whole), |to|, d);
  }

  lemma LoginWithKept(
      env: Env, w: World, mechanism: AuthMechanism, user: bytes, credential: bytes, entropy: Option<bytes>)
    requires Consistent(w)
    ensures Kept(w, LoginWith(env, w, mechanism, user, credential, entropy))
  {
    hide RunAuth, ValidCredentials, AdvertisesAuth, PhaseOf, AuthMechanism.Name;
    var out := LoginWith(env, w, mechanism, user, credential, entropy);
    if ValidCredentials(mechanism, user, credential) && w.state == Authentication {
      if AdvertisesAuth(w.capabilities, mechanism.Name()) {
        AuthQuiet(env, w, mechanism, user, credential, entropy);
        var auth := RunAuth(env, w, mechanism, user, credential, entropy);
        if auth.r.Ok? {
          PhaseSnoc(w.audit, AuthCompleted(mechanism.Name()));
        } else if auth.w != w {
          GivenUpKept(w, auth);
        }
      } else {
        GivenUpKept(w, out);
      }
    }
  }

  lemma LoginKept(env: Env, w: World, user: bytes, pass: bytes, entropy: Option<bytes>)
    requires Consistent(w)
    ensures Kept(w, DoLogin(env, w, user, pass, entropy))
  {
    hide LoginWith, SelectAuthMechanism, PhaseOf;
    var mechanism := SelectAuthMechanism(w.capabilities);
    if mechanism.Some? {
      LoginWithKept(env, w, mechanism.value, user, pass, entropy);
    } else if ValidPlainCredential(user) && ValidPlainCredential(pass) && w.state == Authentication {
      GivenUpKept(w, DoLogin(env, w, user, pass, entropy));
    }
  }

  // EHLO from the state after a greeting or an upgrade.
  lemma EhloKept(w: World, domain: bytes)
    requires w.state == SessionState.Ehlo && PhaseOf(w.audit) == Greeted
    ensures var out := SendEhlo(w, domain);
      && Consistent(out.w) && w.audit <= out.w.audit && (out.r.Err? ==> !out.r.error.IsRefusal())
      && out.w.state == (if out.r.Ok? then Authentication else Closed)
  {
    hide WriteAll, ReadReply, PhaseOf, Advertises;
    var line := FormatCommandArg(EHLO, domain);
    WriteThenRead(w, line);
    PhaseSnoc(w.audit, SessionAborted);
    PhaseSnoc(w.audit, EhloCompleted);
  }

  lemma RequestTlsQuiet(w: World)
    requires w.state == Authentication
    ensures var out := RequestTls(w);
      if out.r.Ok? then SameSession(w.(state := SessionState.StartTls), out.w) else GivenUp(w, out.w, out.r.error)
  {
    hide WriteAll, ExpectCode, Advertises;
    var w1 := w.(state := SessionState.StartTls);
    WriteAllQuiet(w1, FormatCommand(STARTTLS));
    var s := WriteAll(w1, FormatCommand(STARTTLS));
    if s.r.Ok? {
      ExpectQuiet(s.w, 220, SmtpOp.StartTls);
    }
  }

  lemma StartTlsKept(w: World, residue: nat)
    requires Consistent(w)
    ensures Kept(w, DoStartTls(w, residue))
  {
    hide RequestTls, UpgradeToTls, SendEhlo, PhaseOf;
    var out := DoStartTls(w, residue);
    if w.state == Authentication {
      RequestTlsQuiet(w);
      var s := RequestTls(w);
      if s.r.Err? || residue > 0 {
        GivenUpKept(w, out);
      } else {
        var w1 := s.w.(capabilities := []);
        UpgradeQuiet(w1);
        var u := UpgradeToTls(w1);
        if u.r.Err? {
          GivenUpKept(w, out);
        } else {
          PhaseSnoc(w.audit, TlsUpgraded);
          EhloKept(Audit(u.w, TlsUpgraded).(state := SessionState.Ehlo), u.w.domain);
        }
      }
    } else {
      NotReadyForTls(w);
    }
  }

  lemma NotReadyForTls(w: World)
    requires w.state != Authentication
    ensures RequestTls(w) == Out(w, Err(InvalidInput(NotAllowedInState)))
  {
  }

  lemma StepKept(env: Env, w: World, call: Call)
    requires Consistent(w)
    ensures Kept(w, Step(env, w, call))
  {
    hide DoStartTls, DoLogin, LoginWith, SendMail, SendMailUtf8, SendMailStream, Kept;
    match call
    case StartTlsCall(residue) => StartTlsKept(w, residue);
    case LoginCall(user, pass, entropy) => LoginKept(env, w, user, pass, entropy);
    case LoginWithCall(mechanism, user, credential, entropy) =>
      LoginWithKept(env, w, mechanism, user, credential, entropy);
    case _ => var d := SendStepKept(env, w, call);
  }

  function Run(env: Env, w: World, calls: seq<Call>): World
    decreases |calls|
  {
    if calls == [] then w else Run(env, Step(env, w, calls[0]).w, calls[1..])
  }

  // Every run keeps the log legal and in step with the state, and only ever extends the log.
  lemma {:induction false} RunKept(env: Env, w: World, calls: seq<Call>)
    requires Consistent(w)
    ensures var w' := Run(env, w, calls);
      && Consistent(w') && w.audit <= w'.audit
      && w'.state in {Authentication, SessionState.MailFrom, Closed}
      && (w.state == Closed ==> w' == w)
    decreases |calls|
  {
    hide Step, PhaseOf;
    if calls != [] {
      StepKept(env, w, calls[0]);
      RunKept(env, Step(env, w, calls[0]).w, calls[1..]);
    }
  }

  // Connecting ends ready to authenticate, or with the log of an abandoned session, or, when
  // the domain is refused, before anything was read, written or logged.
  lemma ConnectKept(net: Net, domain: bytes)
    ensures var out := Connect(net, domain);
      && (out.r.Ok? ==> out.w.state == Authentication && Consistent(out.w))
      && (out.r.Err? && ValidEhloDomain(domain) ==> out.w.state == Closed && Consistent(out.w))
      && (!ValidEhloDomain(domain) ==> out == Out(Fresh(net, domain), Err(InvalidInput(BadArgument))))
      && out.r != Err(InvalidInput(TransitionRejected))
  {
    hide ReadReply, SendEhlo, PhaseOf, ValidEhloDomain;
    if ValidEhloDomain(domain) {
      var w := Audit(Fresh(net, domain), Connected);
      PhaseSnoc([], Connected);
      assert PhaseOf([]) == Start by { EmptyPhase(); }
      assert w.audit == [] + [Connected];
      ReadReplyQuiet(w);
      var r := ReadReply(w);
      PhaseSnoc(w.audit, SessionAborted);
      if r.r.Ok? && r.r.value.Class() == 2 {
        PhaseSnoc(w.audit, GreetingReceived(r.r.value.code));
        EhloKept(Audit(r.w, GreetingReceived(r.r.value.code)).(state := SessionState.Ehlo), domain);
      }
    }
  }

  lemma EmptyPhase()
    ensures PhaseOf([]) == Start
  {
  }

  // ---------------------------------------------------------------------------
  // The log of a run, call by call
  // ---------------------------------------------------------------------------

  function Flatten<T>(parts: seq<seq<T>>): seq<T> {
    if parts == [] then [] else parts[0] + Flatten(parts[1..])
  }

  // What one call logs. A call that leaves the session as it was logs nothing.
  ghost predicate CallLog(call: Call, w: World, out: Out<()>, d: seq<Event>) {
    && out.w.audit == w.audit + d
    && (out.w == w ==> d == [])
    && match call
       case StartTlsCall(_) =>
         if out.r.Ok? then d == [TlsUpgraded, EhloCompleted]
         else d == [] || d == [SessionAborted] || d == [TlsUpgraded, SessionAborted]
       case LoginCall(_, _, _) =>
         if out.r.Ok? then exists m: AuthMechanism :: d == [AuthCompleted(m.Name())]
         else d == [] || d == [SessionAborted]
       case LoginWithCall(mechanism, _, _, _) =>
         if out.r.Ok? then d == [AuthCompleted(mechanism.Name())] else d == [] || d == [SessionAborted]
       case _ =>
         if out.r.Ok? then SendComplete(d, |call.to|) else d == [] || SendAborted(d, |call.to|)
  }

  lemma LoginWithLog(
      env: Env, w: World, mechanism: AuthMechanism, user: bytes, credential: bytes, entropy: Option<bytes>)
      returns (d: seq<Event>)
    ensures var out := LoginWith(env, w, mechanism, user, credential, entropy);
      && out.w.audit == w.audit + d && (out.w == w ==> d == [])
      && if out.r.Ok? then d == [AuthCompleted(mechanism.Name())] else d == [] || d == [SessionAborted]
  {
    hide RunAuth, ValidCredentials, AdvertisesAuth, AuthMechanism.Name;
    d := [];
    assert w.audit + [] == w.audit;
    assert |w.audit + [SessionAborted]| != |w.audit|;
    if ValidCredentials(mechanism, user, credential) && w.state == Authentication {
      if AdvertisesAuth(w.capabilities, mechanism.Name()) {
        AuthQuiet(env, w, mechanism, user, credential, entropy);
        var auth := RunAuth(env, w, mechanism, user, credential, entropy);
        if auth.r.Ok? {
          d := [AuthCompleted(mechanism.Name())];
        } else if auth.w != w {
          d := [SessionAborted];
        }
      } else {
        d := [SessionAborted];
      }
    }
  }

  lemma LoginLog(env: Env, w: World, user: bytes, pass: bytes, entropy: Option<bytes>) returns (d: seq<Event>)
    ensures var out := DoLogin(env, w, user, pass, entropy);
      && out.w.audit == w.audit + d && (out.w == w ==> d == [])
      && if out.r.Ok? then exists m: AuthMechanism :: d == [AuthCompleted(m.Name())]
         else d == [] || d == [SessionAborted]
  {
    hide LoginWith, SelectAuthMechanism, AuthMechanism.Name;
    var mechanism := SelectAuthMechanism(w.capabilities);
    assert w.audit + [] == w.audit;
    assert |w.audit + [SessionAborted]| != |w.audit|;
    if mechanism.Some? {
      d := LoginWithLog(env, w, mechanism.value, user, pass, entropy);
    } else if ValidPlainCredential(user) && ValidPlainCredential(pass) && w.state == Authentication {
      d := [SessionAborted];
    } else {
      d := [];
    }
  }

  lemma EhloLog(w: World, domain: bytes)
    requires w.state == SessionState.Ehlo
    ensures var out := SendEhlo(w, domain);
      out.w.audit == w.audit + (if out.r.Ok? then [EhloCompleted] else [SessionAborted])
  {
    hide WriteAll, ReadReply, Advertises;
    WriteThenRead(w, FormatCommandArg(EHLO, domain));
  }

  lemma StartTlsLog(w: World, residue: nat) returns (d: seq<Event>)
    ensures var out := DoStartTls(w, residue);
      && out.w.audit == w.audit + d && (out.w == w ==> d == [])
      && if out.r.Ok? then d == [TlsUpgraded, EhloCompleted]
         else d == [] || d == [SessionAborted] || d == [TlsUpgraded, SessionAborted]
  {
    hide RequestTls, UpgradeToTls, SendEhlo;
    assert w.audit + [] == w.audit;
    if w.state != Authentication {
      NotReadyForTls(w);
      return [];
    }
    RequestTlsQuiet(w);
    var s := RequestTls(w);
    if s.r.Err? || residue > 0 {
      return [SessionAborted];
    }
    var w1 := s.w.(capabilities := []);
    UpgradeQuiet(w1);
    var u := UpgradeToTls(w1);
    if u.r.Err? {
      return [SessionAborted];
    }
    var e := Audit(u.w, TlsUpgraded).(state := SessionState.Ehlo);
    EhloLog(e, e.domain);
    d := [TlsUpgraded, if SendEhlo(e, e.domain).r.Ok? then EhloCompleted else SessionAborted];
    assert w.audit + [TlsUpgraded] + [d[1]] == w.audit + d;
  }

  lemma StepLog(env: Env, w: World, call: Call) returns (d: seq<Event>)
    requires Consistent(w)
    ensures CallLog(call, w, Step(env, w, call), d)
  {
    hide DoStartTls, DoLogin, LoginWith, SendMail, SendMailUtf8, SendMailStream, PhaseOf, SendComplete, SendAborted;
    var out := Step(env, w, call);
    match call
    case StartTlsCall(residue) => d := StartTlsLog(w, residue);
    case LoginCall(user, pass, entropy) => d := LoginLog(env, w, user, pass, entropy);
    case LoginWithCall(mechanism, user, credential, entropy) =>
      d := LoginWithLog(env, w, mechanism, user, credential, entropy);
    case _ =>
      d := SendStepKept(env, w, call);
      if out.w == w {
        UnchangedLog(w.audit, d);
        if out.r.Ok? {
          assert |d| == 0;
          CompleteIsSome(d, |call.to|);
        }
      }
  }

  lemma UnchangedLog(log: seq<Event>, d: seq<Event>)
    requires log == log + d
    ensures d == []
  {
    assert |log + d| == |log| + |d|;
  }

  lemma CompleteIsSome(d: seq<Event>, n: nat)
    requires SendComplete(d, n)
    ensures d != []
  {
  }

  // One log per call, each what that call logs.
  ghost predicate CallLogs(env: Env, w: World, calls: seq<Call>, logs: seq<seq<Event>>)
    decreases |calls|
  {
    && |logs| == |calls|
    && (calls == [] ||
        var out := Step(env, w, calls[0]);
        CallLog(calls[0], w, out, logs[0]) && CallLogs(env, out.w, calls[1..], logs[1..]))
  }

  // The log of a run is the logs of its calls, one after the other: a send that succeeds adds
  // the events of exactly as many recipients as it was given.
  lemma {:induction false} RunLog(env: Env, w: World, calls: seq<Call>) returns (logs: seq<seq<Event>>)
    requires Consistent(w)
    ensures CallLogs(env, w, calls, logs) && Run(env, w, calls).audit == w.audit + Flatten(logs)
    decreases |calls|
  {
    hide Step, PhaseOf, CallLog;
    if calls == [] {
      logs := [];
      assert w.audit + [] == w.audit;
    } else {
      var out := Step(env, w, calls[0]);
      StepKept(env, w, calls[0]);
      var d := StepLog(env, w, calls[0]);
      var rest := RunLog(env, out.w, calls[1..]);
      logs := [d] + rest;
      assert logs[1..] == rest;
      LogExtends(calls[0], w, out, d);
      assert w.audit + d + Flatten(rest) == w.audit + (d + Flatten(rest));
    }
  }

  lemma LogExtends(call: Call, w: World, out: Out<()>, d: seq<Event>)
    requires CallLog(call, w, out, d)
    ensures out.w.audit == w.audit + d
  {
  }

  // A successful connect logs the three events of its three steps.
  lemma ConnectLog(net: Net, domain: bytes) returns (code: nat)
    requires Connect(net, domain).r.Ok?
    ensures Connect(net, domain).w.audit == [Connected, GreetingReceived(code), EhloCompleted]
  {
    hide ReadReply, SendEhlo;
    var w := Audit(Fresh(net, domain), Connected);
    ReadReplyQuiet(w);
    code := ReadReply(w).r.value.code;
    EhloLog(ReadGreeting(w).w, domain);
    assert [] + [Connected] + [GreetingReceived(code)] + [EhloCompleted]
        == [Connected, GreetingReceived(code), EhloCompleted];
  }

  // A whole session up to the call of quit: connect, then any calls with any outcomes. The log
  // is what connecting logs and then what each call logs; it is legal, and its phase is the one
  // the state stands for.
  lemma SessionLog(env: Env, net: Net, domain: bytes, calls: seq<Call>) returns (code: nat, logs: seq<seq<Event>>)
    requires Connect(net, domain).r.Ok?
    ensures var w := Connect(net, domain).w;
      && Consistent(Run(env, w, calls))
      && CallLogs(env, w, calls, logs)
      && Run(env, w, calls).audit == [Connected, GreetingReceived(code), EhloCompleted] + Flatten(logs)
  {
    hide Connect, Run, PhaseOf, CallLogs;
    var w := Connect(net, domain).w;
    ConnectKept(net, domain);
    RunKept(env, w, calls);
    code := ConnectLog(net, domain);
    logs := RunLog(env, w, calls);
  }

  lemma QuitExchangeQuiet(w: World)
    requires w.state in {Authentication, SessionState.MailFrom}
    ensures var out := QuitExchange(w);
      if out.r.Ok? then SameSession(w.(state := SessionState.Quit), out.w) else GivenUp(w, out.w, out.r.error)
  {
    hide WriteAll, ExpectCode;
    var w1 := w.(state := SessionState.Quit);
    WriteAllQuiet(w1, FormatCommand(QUIT));
    var s := WriteAll(w1, FormatCommand(QUIT));
    if s.r.Ok? {
      ExpectQuiet(s.w, 221, SmtpOp.Quit);
    }
  }

  lemma QuitPhases(log: seq<Event>)
    requires PhaseOf(log) in {Ready, Sending}
    ensures PhaseOf(log + [QuitCompleted]) == Completed
    ensures PhaseOf(log + [SessionAborted]) == Aborted
    ensures PhaseOf(log + [SessionAborted, SessionAborted]) == Illegal
  {
    hide PhaseOf;
    PhaseSnoc(log, QuitCompleted);
    PhaseSnoc(log, SessionAborted);
    PhaseSnoc(log + [SessionAborted], SessionAborted);
    assert log + [SessionAborted] + [SessionAborted] == log + [SessionAborted, SessionAborted];
  }

  // The QUIT goes out and the next reply of the server is a 221.
  predicate QuitConfirmed(net: Net) {
    NextSucceeds(net) &&
    var reply := TakeReply(Sent(net, FormatCommand(QUIT)).input, net.ending);
    reply.GotReply? && reply.code == 221
  }

  lemma QuitExchangeBy(w: World)
    requires w.state in {Authentication, SessionState.MailFrom}
    ensures QuitExchange(w).r.Ok? <==> QuitConfirmed(w.net)
    ensures QuitExchange(w).r.Ok? ==> QuitExchange(w).w.net.outcomes == Tried(w.net).outcomes
  {
    hide TakeReplyFrom, Responder.Feed;
  }

  // Quitting, by what the network does. A closed session logs nothing; a clean quit logs
  // QuitCompleted alone. A QUIT that cannot be sent, or is answered by anything but a 221, logs
  // SessionAborted twice, against the stated once per session; a failure to close the
  // transport after the 221 logs it once.
  lemma QuitLog(w: World)
    requires Consistent(w)
    ensures var out := DoQuit(w); var closes := NextSucceeds(Tried(w.net));
      && (w.state == Closed ==> out == Out(w, Ok(())))
      && out.w.state == Closed
      && (w.state != Closed ==>
            && (out.r.Ok? <==> QuitConfirmed(w.net) && closes)
            && out.w.audit == w.audit + (if !QuitConfirmed(w.net) then [SessionAborted, SessionAborted]
                                         else if closes then [QuitCompleted]
                                         else [SessionAborted])
            && (PhaseOf(out.w.audit) != Illegal <==> QuitConfirmed(w.net)))
      && out.r != Err(InvalidInput(TransitionRejected))
  {
    hide QuitExchange, PhaseOf, Logged, QuitConfirmed;
    if w.state != Closed {
      QuitExchangeQuiet(w);
      QuitExchangeBy(w);
      QuitPhases(w.audit);
      assert w.audit + [SessionAborted] + [SessionAborted] == w.audit + [SessionAborted, SessionAborted];
    }
  }

  // A server that greets with a bare 220 and answers EHLO with a bare 250, on a transport whose
  // second write fails.
  function ShortLived(): Net {
    Net(Render(220, [[]], true) + Render(250, [[]], true), Eof, [], false, [true, false], [], Script)
  }

  // The whole log of a session in which SessionAborted comes twice.
  lemma AbortedTwice(domain: bytes)
    requires ValidEhloDomain(domain)
    ensures var c := Connect(ShortLived(), domain);
      && c.r == Ok(())
      && DoQuit(c.w).w.audit == [Connected, GreetingReceived(220), EhloCompleted, SessionAborted, SessionAborted]
  {
    hide TakeReplyFrom, Render, FormatCommandArg, Advertises, ValidEhloDomain, QuitConfirmed, PhaseOf;
    var blank: seq<bytes> := [[]];
    BareReply(220, Render(250, blank, true));
    BareReply(250, []);
    assert Render(250, blank, true) + [] == Render(250, blank, true);
    var c := Connect(ShortLived(), domain);
    ConnectKept(ShortLived(), domain);
    QuitLog(c.w);
    assert !QuitConfirmed(c.w.net) by { CannotQuit(c.w.net); }
    assert c.w.audit == [Connected, GreetingReceived(220), EhloCompleted];
  }

  lemma CannotQuit(net: Net)
    requires !NextSucceeds(net)
    ensures !QuitConfirmed(net)
  {
  }

  lemma BareReply(code: nat, rest: bytes)
    requires code <= 999
    ensures TakeReply(Render(code, [[]], true) + rest, Eof) == GotReply(code, [[]], rest)
  {
    hide TakeReplyFrom, Render;
    var blank: seq<bytes> := [[]];
    assert Renderable(code, blank, true);
    RenderedFrom(code, blank, true, rest, Eof, [], None);
    assert [] + blank == blank;
  }
}
