// The smoke server as it is written, pulling one line at a time, proved to behave as the
// machine of module Responder does when it is pushed the same bytes.

module SmokeServer {
  import opened Octets
  import opened World
  import opened Responder
  import opened Pipelining
  import opened Utf8
  import Composition

  // ---------------------------------------------------------------------------
  // What serving a client amounts to
  // ---------------------------------------------------------------------------

  // What the machine does when the client closes: an unterminated line still counts as one,
  // and a message that was being read is kept and answered.
  function AtEof(m: Machine): Fed {
    var f := if Reading(m) && m.partial != [] then OnLine(m.(partial := []), Lossy(m.partial)) else Fed(m, []);
    match f.peer.mode
    case Mail => Fed(f.peer.(mode := Finished, body := f.peer.data, data := []), f.reply + QUEUED)
    case Commands => Fed(f.peer.(mode := Finished), f.reply)
    case PlainCommands | AwaitTls => Fed(f.peer.(mode := Failed), f.reply)
    case Finished | Failed => f
  }

  // What the driver finds in the end: whether the session went well, and what was recorded.
  datatype Served = Served(ok: bool, lines: seq<(Leg, bytes)>, body: bytes, sent: bytes)

  // The machine, pushed the rest of what the client sends before it closes.
  function Push(m: Machine, sent: bytes, inbox: bytes): Served {
    var f := Feed(m, inbox);
    var e := AtEof(f.peer);
    Served(!e.peer.mode.Failed?, e.peer.lines, e.peer.body, sent + f.reply + e.reply)
  }

  // ---------------------------------------------------------------------------
  // Lines
  // ---------------------------------------------------------------------------

  datatype Pulled = Got(line: bytes) | NoMore | TooLong

  datatype Pull = Pull(line: Pulled, rest: bytes)

  // The next line of the inbox, of which `partial` was read before.
  function PullLine(partial: bytes, inbox: bytes): Pull
    decreases |inbox|
  {
    if inbox == [] then Pull(if partial == [] then NoMore else Got(Lossy(partial)), [])
    else if inbox[0] == '\n' then Pull(Got(Lossy(DropCr(partial))), inbox[1..])
    else if |partial| + 1 > MAX_LINE then Pull(TooLong, inbox[1..])
    else PullLine(partial + [inbox[0]], inbox[1..])
  }

  lemma PushByte(m: Machine, sent: bytes, inbox: bytes)
    requires inbox != []
    ensures var f := FeedByte(m, inbox[0]); Push(m, sent, inbox) == Push(f.peer, sent + f.reply, inbox[1..])
  {
    hide FeedByte, AtEof;
    var f := FeedByte(m, inbox[0]);
    var g := Feed(f.peer, inbox[1..]);
    Assoc(sent, f.reply, g.reply);
  }

  // Handling the pulled line and going on is what the pushed machine does.
  lemma {:induction false} PushLine(m: Machine, sent: bytes, inbox: bytes)
    requires Reading(m)
    ensures var p := PullLine(m.partial, inbox);
      match p.line
      case Got(line) =>
        var f := OnLine(m.(partial := []), line); Push(m, sent, inbox) == Push(f.peer, sent + f.reply, p.rest)
      case NoMore => inbox == [] && m.partial == []
      case TooLong => Push(m, sent, inbox) == Served(false, m.lines, m.body, sent)
    decreases |inbox|
  {
    hide Push, OnLine, AtEof, Lossy;
    if inbox == [] {
      if m.partial != [] {
        PushLast(m, sent);
      }
    } else {
      PushByte(m, sent, inbox);
      if inbox[0] != '\n' {
        assert sent + [] == sent;
        if |m.partial| + 1 > MAX_LINE {
          PushFailed(m.(mode := Failed, partial := []), sent, inbox[1..]);
        } else {
          PushLine(m.(partial := m.partial + [inbox[0]]), sent, inbox[1..]);
        }
      }
    }
  }

  lemma PushFailed(m: Machine, sent: bytes, inbox: bytes)
    requires m.mode.Failed?
    ensures Push(m, sent, inbox) == Served(false, m.lines, m.body, sent)
  {
    EndedIgnores(m, inbox);
    assert sent + [] + [] == sent;
  }

  // The line a client leaves unterminated.
  lemma PushLast(m: Machine, sent: bytes)
    requires Reading(m) && m.partial != []
    ensures var f := OnLine(m.(partial := []), Lossy(m.partial)); Push(m, sent, []) == Push(f.peer, sent + f.reply, [])
  {
    hide OnLine, AnswerLine, Lossy;
    var text := Lossy(m.partial);
    var f := OnLine(m.(partial := []), text);
    assert f.peer.partial == [] by { LineTaken(m.(partial := []), text); }
    assert sent + [] == sent && sent + f.reply + [] == sent + f.reply;
    assert sent + (f.reply + QUEUED) == sent + f.reply + QUEUED;
  }

  lemma LineTaken(m: Machine, line: bytes)
    requires Reading(m) && m.partial == []
    ensures OnLine(m, line).peer.partial == []
  {
  }

  // ---------------------------------------------------------------------------
  // The plaintext leg, up to the handshake
  // ---------------------------------------------------------------------------

  // The machine and all that was sent, once it has been pushed everything in the inbox.
  function PushOn(m: Machine, sent: bytes, inbox: bytes): Fed {
    var f := Feed(m, inbox);
    Fed(f.peer, sent + f.reply)
  }

  lemma PushOnByte(m: Machine, sent: bytes, inbox: bytes)
    requires inbox != []
    ensures var f := FeedByte(m, inbox[0]); PushOn(m, sent, inbox) == PushOn(f.peer, sent + f.reply, inbox[1..])
  {
    hide FeedByte;
    var f := FeedByte(m, inbox[0]);
    Assoc(sent, f.reply, Feed(f.peer, inbox[1..]).reply);
  }

  // A pulled line is a pushed one, unless it is the unterminated last one, which the machine
  // is still reading.
  lemma {:induction false} PushOnLine(m: Machine, sent: bytes, inbox: bytes)
    requires Reading(m)
    ensures var p := PullLine(m.partial, inbox); var all := PushOn(m, sent, inbox);
      match p.line
      case Got(line) =>
        var f := OnLine(m.(partial := []), line);
        all == PushOn(f.peer, sent + f.reply, p.rest) || all.peer.mode == m.mode
      case NoMore => all.peer.mode == m.mode
      case TooLong => all.peer.mode.Failed?
    decreases |inbox|
  {
    hide PushOn, OnLine, Lossy;
    if inbox == [] {
      PushOnNothing(m, sent);
    } else {
      PushOnByte(m, sent, inbox);
      if inbox[0] != '\n' {
        assert sent + [] == sent;
        if |m.partial| + 1 > MAX_LINE {
          PushOnEnded(m.(mode := Failed, partial := []), sent, inbox[1..]);
        } else {
          PushOnLine(m.(partial := m.partial + [inbox[0]]), sent, inbox[1..]);
        }
      }
    }
  }

  lemma PushOnNothing(m: Machine, sent: bytes)
    ensures PushOn(m, sent, []) == Fed(m, sent)
  {
    assert sent + [] == sent;
  }

  lemma PushOnEnded(m: Machine, sent: bytes, inbox: bytes)
    requires m.mode.Failed?
    ensures PushOn(m, sent, inbox).peer == m
  {
    EndedIgnores(m, inbox);
  }

  // A machine that waits for TLS takes nothing in the clear.
  lemma AwaitsTls(m: Machine, sent: bytes, inbox: bytes)
    requires m.mode.AwaitTls? && PushOn(m, sent, inbox).peer.mode.AwaitTls?
    ensures inbox == []
  {
    hide PushOn;
    if inbox != [] {
      PushOnByte(m, sent, inbox);
      PushOnEnded(m.(mode := Failed), sent + FeedByte(m, inbox[0]).reply, inbox[1..]);
      assert false;
    }
  }

  // ---------------------------------------------------------------------------
  // The server
  // ---------------------------------------------------------------------------

  class Server {
    var inbox: bytes                // what the client has still to say
    var sent: bytes
    var lines: seq<(Leg, bytes)>
    var body: bytes

    constructor (inbox: bytes)
      ensures this.inbox == inbox && sent == [] && lines == [] && body == []
    {
      this.inbox := inbox;
      sent, lines, body := [], [], [];
    }

    // The machine this server is, between two lines.
    function AsMachine(mode: Mode, data: bytes): Machine
      reads this
    {
      Machine(mode, [], lines, data, body)
    }

    method ReadLine() returns (r: Pulled)
      modifies this`inbox
      ensures Pull(r, inbox) == PullLine([], old(inbox))
    {
      var line: bytes := [];
      while inbox != []
        invariant PullLine(line, inbox) == PullLine([], old(inbox))
        decreases |inbox|
      {
        var byte := inbox[0];
        inbox := inbox[1..];
        if byte == '\n' {
          return Got(Lossy(DropCr(line)));
        }
        if |line| + 1 > MAX_LINE {
          return TooLong;
        }
        line := line + [byte];
      }
      return if line == [] then NoMore else Got(Lossy(line));
    }

    method WriteAll(reply: bytes)
      modifies this`sent
      ensures sent == old(sent) + reply
    {
      sent := sent + reply;
    }

    method Greet()
      modifies this`sent
      ensures sent == old(sent) + GREETING
    {
      WriteAll(GREETING);
    }

    // The message, or None when a line is too long.
    method ReadData() returns (r: Option<bytes>)
      modifies this`inbox
      ensures |inbox| <= |old(inbox)|
      ensures r.None? ==> old(Push(AsMachine(Mail, []), sent, inbox)) == Served(false, lines, body, sent)
      ensures r.Some? ==>
        old(Push(AsMachine(Mail, []), sent, inbox))
        == Push(AsMachine(Commands, []).(body := r.value), sent + QUEUED, inbox)
    {
      hide Push, PullLine;
      var data: bytes := [];
      while true
        invariant |inbox| <= |old(inbox)|
        invariant Push(AsMachine(Mail, data), sent, inbox) == old(Push(AsMachine(Mail, []), sent, inbox))
        decreases |inbox|
      {
        PushLine(AsMachine(Mail, data), sent, inbox);
        PullShortens([], inbox);
        var line := ReadLine();
        match line {
          case NoMore =>
            MailAtEof(AsMachine(Mail, data), sent);
            return Some(data);
          case TooLong =>
            return None;
          case Got(text) =>
            if text == DOT {
              return Some(data);
            }
            data := data + text + CRLF;
            assert sent + [] == sent;
        }
      }
    }

    // The plaintext leg. True once the server has said it is ready for TLS.
    method PlainPhase() returns (ok: bool)
      modifies this
      ensures ok ==>
        old(Push(AsMachine(PlainCommands, []), sent, inbox)) == Push(AsMachine(AwaitTls, []), sent, inbox)
      ensures !ok ==> old(Push(AsMachine(PlainCommands, []), sent, inbox)) == Served(false, lines, body, sent)
      ensures old(PushOn(AsMachine(PlainCommands, []), sent, inbox)).peer.mode.AwaitTls? ==>
        && ok && inbox == []
        && old(PushOn(AsMachine(PlainCommands, []), sent, inbox)) == Fed(AsMachine(AwaitTls, []), sent)
    {
      hide Push, PushOn, PullLine, EhloReply, AnswerLine, StartsWith;
      while true
        invariant Push(AsMachine(PlainCommands, []), sent, inbox)
               == old(Push(AsMachine(PlainCommands, []), sent, inbox))
        invariant old(PushOn(AsMachine(PlainCommands, []), sent, inbox)).peer.mode.AwaitTls? ==>
          PushOn(AsMachine(PlainCommands, []), sent, inbox) == old(PushOn(AsMachine(PlainCommands, []), sent, inbox))
        decreases |inbox|
      {
        PushOnLine(AsMachine(PlainCommands, []), sent, inbox);
        PushLine(AsMachine(PlainCommands, []), sent, inbox);
        PullShortens([], inbox);
        var line := ReadLine();
        if line.TooLong? {
          return false;
        }
        if line.NoMore? {
          PlainAtEof(AsMachine(PlainCommands, []), sent);
          return false;
        }
        lines := lines + [(PlainLeg, line.line)];
        if StartsWith(line.line, V_EHLO) {
          WriteAll(EHLO_REPLY_PLAIN);
        } else if line.line == V_STARTTLS {
          WriteAll(READY_FOR_TLS);
          if PushOn(AsMachine(AwaitTls, []), sent, inbox).peer.mode.AwaitTls? {
            AwaitsTls(AsMachine(AwaitTls, []), sent, inbox);
            PushOnNothing(AsMachine(AwaitTls, []), sent);
          }
          return true;
        } else {
          PushFailed(AsMachine(Failed, []), sent, inbox);
          PushOnEnded(AsMachine(Failed, []), sent, inbox);
          assert sent + [] == sent;
          return false;
        }
      }
    }

    // The TLS leg, from EHLO to QUIT.
    method SmtpPhase() returns (ok: bool)
      modifies this
      ensures Served(ok, lines, body, sent) == old(Push(AsMachine(Commands, []), sent, inbox))
    {
      hide Push, PullLine, EhloReply, AnswerLine, StartsWith;
      while true
        invariant Push(AsMachine(Commands, []), sent, inbox) == old(Push(AsMachine(Commands, []), sent, inbox))
        decreases |inbox|
      {
        PushLine(AsMachine(Commands, []), sent, inbox);
        PullShortens([], inbox);
        var line := ReadLine();
        if line.TooLong? {
          return false;
        }
        if line.NoMore? {
          CommandsAtEof(AsMachine(Commands, []), sent);
          return true;
        }
        lines := lines + [(TlsLeg, line.line)];
        if StartsWith(line.line, V_EHLO) {
          WriteAll(EHLO_REPLY);
        } else if StartsWith(line.line, V_AUTH_PLAIN) {
          WriteAll(AUTH_OK);
        } else if StartsWith(line.line, V_MAIL) {
          WriteAll(MAIL_OK);
        } else if StartsWith(line.line, V_RCPT) {
          WriteAll(RCPT_OK);
        } else if line.line == V_DATA {
          WriteAll(GO_AHEAD);
          var data := ReadData();
          if data.None? {
            return false;
          }
          body := data.value;
          WriteAll(QUEUED);
        } else if line.line == V_QUIT {
          WriteAll(BYE);
          PushFinished(AsMachine(Finished, []), sent, inbox);
          return true;
        } else {
          WriteAll(UNRECOGNIZED);
          PushFinished(AsMachine(Finished, []), sent, inbox);
          return true;
        }
      }
    }
  }

  lemma {:induction false} PullShortens(partial: bytes, inbox: bytes)
    ensures var p := PullLine(partial, inbox);
      |p.rest| <= |inbox| && (p.line.Got? && partial == [] ==> |p.rest| < |inbox|)
    decreases |inbox|
  {
    if inbox != [] && inbox[0] != '\n' && |partial| + 1 <= MAX_LINE {
      PullShortens(partial + [inbox[0]], inbox[1..]);
    }
  }

  lemma MailAtEof(m: Machine, sent: bytes)
    requires m.mode.Mail? && m.partial == []
    ensures Push(m, sent, []) == Push(m.(mode := Commands, body := m.data, data := []), sent + QUEUED, [])
  {
    hide OnLine, AnswerLine;
    var empty: bytes := [];
    assert sent + empty + QUEUED == sent + QUEUED + empty + empty && empty + QUEUED == QUEUED;
  }

  lemma CommandsAtEof(m: Machine, sent: bytes)
    requires m.mode.Commands? && m.partial == []
    ensures Push(m, sent, []) == Served(true, m.lines, m.body, sent)
  {
    assert sent + [] + [] == sent;
  }

  lemma PlainAtEof(m: Machine, sent: bytes)
    requires m.mode.PlainCommands? && m.partial == []
    ensures Push(m, sent, []) == Served(false, m.lines, m.body, sent)
  {
    assert sent + [] + [] == sent;
  }

  // What a client says after QUIT is not read.
  lemma PushFinished(m: Machine, sent: bytes, inbox: bytes)
    requires m.mode.Finished?
    ensures Push(m, sent, inbox) == Served(true, m.lines, m.body, sent)
  {
    EndedIgnores(m, inbox);
    assert sent + [] + [] == sent;
  }

  // ---------------------------------------------------------------------------
  // An implicit-TLS session
  // ---------------------------------------------------------------------------

  method ServeImplicit(inbox: bytes) returns (r: Served)
    ensures r == Push(Responder.Start(false), GREETING, inbox)
  {
    hide Push, AnswerLine;
    var server := new Server(inbox);
    server.Greet();
    assert server.sent == GREETING by {
      assert [] + GREETING == GREETING;
    }
    var ok := server.SmtpPhase();
    return Served(ok, server.lines, server.body, server.sent);
  }

  lemma PushOnFinished(start: Machine, sent: bytes, inbox: bytes)
    requires Feed(start, inbox).peer.mode.Finished?
    ensures var r := Push(start, sent, inbox); var m := Feed(start, inbox).peer;
      r.ok && r.lines == m.lines && r.body == m.body
  {
    hide Feed;
  }

  // The server as it is written, given the bytes that the client as it is written sends in an
  // implicit-TLS session: the session goes well, the recorded lines are the intended ones in
  // order, and the recorded body un-stuffs to the message.
  lemma ServerRecords(
      env: Env, domain: bytes, user: bytes, pass: bytes, entropy: Option<bytes>,
      from: bytes, to: seq<bytes>, body: bytes)
    requires Composition.Acceptable(env, domain, user, pass, from, to, body)
    ensures var c := Connect(Composition.Dial(false), domain);
      var l := DoLogin(env, c.w, user, pass, entropy);
      var s := SendMail(env, l.w, from, to, body);
      var q := DoQuit(s.w);
      var r := Push(Responder.Start(false), GREETING, WireBytes(q.w.net.trace));
      && r.ok
      && r.lines == Composition.SessionLines(false, domain, user, pass, from, to)
      && Composition.HoldsMessage(r.body, body)
  {
    hide Connect, DoLogin, SendMail, DoQuit, WireBytes, Feed, Push, Composition.Acceptable, Composition.SessionLines,
      AnswerLine, Composition.LegsOf, Composition.HoldsMessage;
    Composition.ImplicitTlsSession(env, domain, user, pass, entropy, from, to, body);
    var c := Connect(Composition.Dial(false), domain);
    var l := DoLogin(env, c.w, user, pass, entropy);
    var s := SendMail(env, l.w, from, to, body);
    var q := DoQuit(s.w);
    var legs := Composition.LegsOf(q.w.net.trace);
    Composition.LegsAreBytes(q.w.net.trace);
    assert [] + legs.after == legs.after;
    PushOnFinished(Responder.Start(false), GREETING, WireBytes(q.w.net.trace));
  }

  // ---------------------------------------------------------------------------
  // A STARTTLS session
  // ---------------------------------------------------------------------------

  // `plain` is what the client says before it starts the handshake, `tls` what it says over TLS.
  // A handshake cannot succeed on top of plaintext that nobody has read.
  method ServeStartTls(plain: bytes, tls: bytes) returns (r: Served)
    ensures var waiting := Feed(Responder.Start(true), plain);
      waiting.peer.mode.AwaitTls? ==> r == Push(Handshake(waiting.peer), GREETING + waiting.reply, tls)
  {
    hide Push, AnswerLine, Feed;
    var server := new Server(plain);
    server.Greet();
    assert server.sent == GREETING by {
      assert [] + GREETING == GREETING;
    }
    var ready := server.PlainPhase();
    if !ready || server.inbox != [] {
      return Served(false, server.lines, server.body, server.sent);
    }
    server.inbox := tls;
    var ok := server.SmtpPhase();
    return Served(ok, server.lines, server.body, server.sent);
  }

  // Over STARTTLS: given what the client writes before the upgrade and what it writes after it,
  // the server as it is written gets to the handshake, and the session goes as it should.
  lemma ServerRecordsStartTls(
      env: Env, domain: bytes, residue: nat, user: bytes, pass: bytes, entropy: Option<bytes>,
      from: bytes, to: seq<bytes>, body: bytes)
    requires Composition.Acceptable(env, domain, user, pass, from, to, body)
    requires residue <= |RequestTls(Connect(Composition.Dial(true), domain).w).w.net.input|
    ensures var c := Connect(Composition.Dial(true), domain);
      var t := DoStartTls(c.w, residue);
      var l := DoLogin(env, t.w, user, pass, entropy);
      var s := SendMail(env, l.w, from, to, body);
      var q := DoQuit(s.w);
      var legs := Composition.LegsOf(q.w.net.trace);
      var waiting := Feed(Responder.Start(true), legs.before);
      var r := Push(Handshake(waiting.peer), GREETING + waiting.reply, legs.after);
      && legs.before + legs.after == WireBytes(q.w.net.trace)
      && waiting.peer.mode.AwaitTls?
      && r.ok
      && r.lines == Composition.SessionLines(true, domain, user, pass, from, to)
      && Composition.HoldsMessage(r.body, body)
  {
    hide Connect, DoStartTls, DoLogin, SendMail, DoQuit, WireBytes, Feed, Push, Composition.Acceptable,
      Composition.SessionLines, AnswerLine, Composition.LegsOf, Composition.HoldsMessage, RequestTls;
    Composition.StartTlsSession(env, domain, residue, user, pass, entropy, from, to, body);
    var c := Connect(Composition.Dial(true), domain);
    var t := DoStartTls(c.w, residue);
    var l := DoLogin(env, t.w, user, pass, entropy);
    var s := SendMail(env, l.w, from, to, body);
    var q := DoQuit(s.w);
    var legs := Composition.LegsOf(q.w.net.trace);
    Composition.LegsAreBytes(q.w.net.trace);
    var waiting := Feed(Responder.Start(true), legs.before);
    PushOnFinished(Handshake(waiting.peer), GREETING + waiting.reply, legs.after);
  }
}
