// The client: its buffered reader, and every operation of the session, each proved to do
// what the function of the same name in World says.

module Clients {
  import opened Octets
  import opened Errors
  import opened EnhancedStatusCodes
  import opened Session
  import opened Commands
  import opened Replies
  import opened Scram
  import opened Transports
  import W = World
  import DotStuffing
  import Utf8
  import Responder
  import Base64

  const READ_CHUNK: nat := 1024
  const RX_BUF_COMPACT_THRESHOLD: nat := 4096

  // What a buffer settles about the stream it is the front of: its first line end is the
  // stream's; one over the hard limit without a line end is a line too long wherever the end
  // may be; and at the end of the stream there is nothing more to wait for.
  lemma BufferedLine(buffered: bytes, undelivered: bytes, ending: Ending)
    ensures var p := FindCrlf(buffered); var next := TakeLine(buffered + undelivered, ending);
      && (p.Some? && p.value <= MAX_REPLY_LINE_LEN ==>
            next == Line(buffered[..p.value], buffered[p.value + 2..] + undelivered))
      && (p.Some? && p.value > MAX_REPLY_LINE_LEN ==> next == NoLine(LineTooLong))
      && (p.None? && |buffered| > RX_BUF_HARD_LIMIT ==> next == NoLine(LineTooLong))
      && (p.None? && |buffered| <= RX_BUF_HARD_LIMIT && undelivered == [] ==>
            next == NoLine(if ending.Eof? then UnexpectedClose else Io))
  {
    var stream := buffered + undelivered;
    var p, q := FindCrlf(buffered), FindCrlf(stream);
    assert forall i :: 0 <= i < |buffered| - 1 ==> (CrlfAt(buffered, i) <==> CrlfAt(stream, i));
    if p.Some? {
      assert CrlfAt(stream, p.value);
      assert q.Some? && q.value == p.value;
    } else if q.Some? {
      assert q.value >= |buffered| - 1;
      assert undelivered != [];
    } else if undelivered == [] {
      assert stream == buffered;
    }
  }

  lemma FoundInBuffer(buffered: bytes)
    requires FindCrlf(buffered).Some?
    ensures FindCrlf(buffered).value + 2 <= |buffered|
  {
  }

  lemma EncodedPlain(user: bytes, pass: bytes)
    ensures InitialResponse(Plain, user, pass) == Base64.Encode(PlainPayload(user, pass))
  {
  }

  lemma EncodedXOAuth2(user: bytes, token: bytes)
    ensures InitialResponse(XOAuth2, user, token) == Base64.Encode(XOAuth2Payload(user, token))
  {
  }

  lemma EncodedOAuthBearer(user: bytes, token: bytes)
    ensures InitialResponse(OAuthBearer, user, token) == Base64.Encode(OAuthBearerPayload(user, token))
  {
  }

  class Client {
    const env: W.Env
    const tr: Transport
    const ehloDomain: bytes
    var state: SessionState
    var rxBuf: bytes
    var rxPos: nat
    var capabilities: seq<bytes>
    var enhancedStatusEnabled: bool
    var audit: seq<Event>

    // The bound on the receive buffer between operations.
    ghost predicate Valid()
      reads this
    {
      && rxPos <= |rxBuf|
      && rxPos < RX_BUF_COMPACT_THRESHOLD
      && |rxBuf| <= RX_BUF_COMPACT_THRESHOLD - 1 + RX_BUF_HARD_LIMIT + READ_CHUNK
    }

    // Every byte of the server that has not been read yet, buffered or not.
    ghost function Stream(): bytes
      requires rxPos <= |rxBuf|
      reads this, tr
    {
      rxBuf[rxPos..] + tr.pending
    }

    ghost function Abs(): W.World
      requires rxPos <= |rxBuf|
      reads this, tr
    {
      W.World(state, capabilities, enhancedStatusEnabled, ehloDomain,
              tr.View().(input := if state == Closed then [] else Stream()), audit)
    }

    constructor (tr: Transport, domain: bytes, env: W.Env)
      ensures Valid() && this.tr == tr && this.env == env && state == SessionState.Greeting
      ensures Abs() == W.Fresh(tr.View(), domain)
    {
      this.tr, this.env, ehloDomain := tr, env, domain;
      state := SessionState.Greeting;
      rxBuf, rxPos, capabilities := [], 0, [];
      enhancedStatusEnabled, audit := false, [];
      new;
      assert rxBuf[rxPos..] == [] && [] + tr.pending == tr.pending;
    }

    // -------------------------------------------------------------------------
    // State
    // -------------------------------------------------------------------------

    method AssertStateIn(allowed: set<SessionState>) returns (r: Result<()>)
      requires Valid()
      ensures W.Out(Abs(), r) == W.AssertStateIn(Abs(), allowed)
    {
      return if state in allowed then Ok(()) else Err(InvalidInput(NotAllowedInState));
    }

    method Transition(next: SessionState) returns (r: Result<()>)
      requires Valid()
      modifies this`state
      ensures Valid()
      ensures W.Out(Abs(), r) == W.Transition(old(Abs()), next)
    {
      if state.CanTransitionTo(next) {
        state := next;
        return Ok(());
      }
      return Err(InvalidInput(TransitionRejected));
    }

    method MarkClosedOnLogicalFailure()
      requires Valid()
      modifies this`state, this`audit
      ensures Valid() && state == Closed
      ensures Abs() == W.Abort(old(Abs()))
    {
      if state != Closed {
        state := Closed;
        audit := audit + [SessionAborted];
      }
    }

    method OnEvent(event: Event)
      requires Valid()
      modifies this`audit
      ensures Valid() && Abs() == W.Audit(old(Abs()), event)
    {
      audit := audit + [event];
    }

    // -------------------------------------------------------------------------
    // The buffered reader
    // -------------------------------------------------------------------------

    method CompactRx()
      requires rxPos <= |rxBuf|
      modifies this`rxBuf, this`rxPos
      ensures rxPos <= |rxBuf| && rxPos < RX_BUF_COMPACT_THRESHOLD
      ensures rxBuf[rxPos..] == old(rxBuf[rxPos..]) && |rxBuf| <= old(|rxBuf|)
    {
      if rxPos >= RX_BUF_COMPACT_THRESHOLD {
        rxBuf := rxBuf[rxPos..];
        rxPos := 0;
      }
    }

    method FillBuf() returns (r: Result<nat>)
      requires Valid() && state != Closed
      requires |rxBuf| - rxPos <= RX_BUF_HARD_LIMIT
      modifies this, tr
      ensures Valid()
      ensures tr.undelivered == old(tr.undelivered)
      ensures r.Ok? ==> state == old(state) && Abs() == old(Abs())
      ensures r.Ok? && r.value > 0 ==> |tr.pending| < old(|tr.pending|)
      ensures r.Ok? && r.value == 0 ==> Stream() == rxBuf[rxPos..] == old(rxBuf[rxPos..]) && tr.ending.Eof?
      ensures r.Err? ==> r.error == Io && Abs() == W.Abort(old(Abs()))
      ensures r.Err? ==> old(tr.pending) == [] && old(tr.ending).Broken?
      ensures r.Err? ==> state == Closed && !r.error.IsRefusal()
    {
      var chunk := tr.Read(READ_CHUNK);
      if chunk.Err? {
        assert Abs() == old(Abs());
        MarkClosedOnLogicalFailure();
        return Err(Io);
      }
      rxBuf := rxBuf + chunk.value;
      assert rxBuf[rxPos..] == old(rxBuf[rxPos..]) + chunk.value;
      Assoc(old(rxBuf[rxPos..]), chunk.value, tr.pending);
      return Ok(|chunk.value|);
    }

    // Take the line that ends at `pos` in the unread part of the buffer.
    method TakeBuffered(pos: nat) returns (line: bytes)
      requires Valid() && pos + 2 <= |rxBuf| - rxPos
      modifies this`rxBuf, this`rxPos
      ensures Valid()
      ensures line == old(rxBuf[rxPos..])[..pos]
      ensures Stream() == old(rxBuf[rxPos..])[pos + 2..] + tr.pending
    {
      var absEnd := rxPos + pos;
      line := rxBuf[rxPos..absEnd];
      assert line == rxBuf[rxPos..][..pos] && rxBuf[absEnd + 2..] == rxBuf[rxPos..][pos + 2..];
      rxPos := absEnd + 2;
      CompactRx();
    }

    // The outcome is that of plain line splitting of the whole unread stream, whatever the
    // sizes of the pieces it is delivered in.
    method ReadLine() returns (r: Result<bytes>)
      requires Valid() && state != Closed
      modifies this, tr
      ensures Valid()
      ensures tr.undelivered == old(tr.undelivered)
      ensures W.Out(Abs(), r) == W.ReadLine(old(Abs()))
      ensures r.Ok? ==> state == old(state) && |r.value| <= MAX_REPLY_LINE_LEN
      ensures r.Err? ==> state == Closed && !r.error.IsRefusal()
    {
      hide FindCrlf, TakeLine, W.Abort;
      while true
        invariant Valid() && state == old(state) && Abs() == old(Abs()) && tr.undelivered == old(tr.undelivered)
        decreases |tr.pending|
      {
        var unread := rxBuf[rxPos..];
        BufferedLine(unread, tr.pending, tr.ending);
        assert Abs().net.input == unread + tr.pending && Abs().net.ending == tr.ending;
        var pos := FindCrlf(unread);
        if pos.Some? {
          FoundInBuffer(unread);
          var line := TakeBuffered(pos.value);
          if |line| > MAX_REPLY_LINE_LEN {
            W.AbortForgetsInput(old(Abs()), Abs());
            MarkClosedOnLogicalFailure();
            return Err(LineTooLong);
          }
          return Ok(line);
        }
        if |rxBuf| - rxPos > RX_BUF_HARD_LIMIT {
          MarkClosedOnLogicalFailure();
          return Err(LineTooLong);
        }
        var n :- FillBuf();
        if n == 0 {
          MarkClosedOnLogicalFailure();
          return Err(UnexpectedClose);
        }
      }
    }

    method ReadReply() returns (r: Result<Reply>)
      requires Valid() && state != Closed
      modifies this, tr
      ensures Valid()
      ensures tr.undelivered == old(tr.undelivered)
      ensures W.Out(Abs(), r) == W.ReadReply(old(Abs()))
      ensures r.Ok? ==> state == old(state) && 1 <= |r.value.lines| <= MAX_REPLY_LINES
      ensures r.Err? ==> state == Closed && !r.error.IsRefusal()
    {
      hide TakeLine, W.Abort, ParseReplyLine, Utf8.Lossy;
      var code: Option<nat> := None;
      var lines: seq<bytes> := [];
      ghost var raw: seq<bytes> := [];
      ghost var w := Abs();
      while true
        invariant Valid() && state == w.state && |raw| <= MAX_REPLY_LINES && tr.undelivered == old(tr.undelivered)
        invariant lines == W.Decoded(raw) && (code.None? <==> raw == [])
        invariant Abs() == w.(net := w.net.(input := Abs().net.input))
        invariant TakeReply(w.net.input, w.net.ending) == TakeReplyFrom(Abs().net.input, w.net.ending, code, raw)
        decreases MAX_REPLY_LINES - |raw|
      {
        if |lines| >= MAX_REPLY_LINES {
          W.AbortForgetsInput(w, Abs());
          MarkClosedOnLogicalFailure();
          return Err(Malformed(TOO_MANY_LINES));
        }
        W.AbortForgetsInput(w, Abs());
        var line :- ReadLine();
        W.AbortForgetsInput(w, Abs());
        var parsed := ParseReplyLine(line);
        if parsed.Err? {
          MarkClosedOnLogicalFailure();
          return Err(parsed.error);
        }
        if code.Some? && code.value != parsed.value.code {
          MarkClosedOnLogicalFailure();
          return Err(InconsistentMultiline(code.value, parsed.value.code));
        }
        code := Some(parsed.value.code);
        lines := lines + [Utf8.Lossy(parsed.value.text)];
        raw := raw + [parsed.value.text];
        assert lines == W.Decoded(raw);
        if parsed.value.isLast {
          var reply := Reply(code.value, lines, None);
          if enhancedStatusEnabled {
            reply := reply.(enhanced := reply.TryParseEnhanced());
          }
          return Ok(reply);
        }
      }
    }

    method ExpectCode(expected: nat, during: SmtpOp) returns (r: Result<Reply>)
      requires Valid() && state != Closed
      modifies this, tr
      ensures Valid()
      ensures W.Out(Abs(), r) == W.ExpectCode(old(Abs()), expected, during)
      ensures r.Ok? ==> state == old(state)
      ensures r.Err? ==> state == Closed && !r.error.IsRefusal()
    {
      hide W.ReadReply, W.Abort;
      var reply :- ReadReply();
      if reply.code == expected {
        return Ok(reply);
      }
      MarkClosedOnLogicalFailure();
      return Err(W.Unexpected(during, expected / 100, reply));
    }

    method ExpectClass(expected: nat, during: SmtpOp) returns (r: Result<Reply>)
      requires Valid() && state != Closed
      modifies this, tr
      ensures Valid()
      ensures W.Out(Abs(), r) == W.ExpectClass(old(Abs()), expected, during)
      ensures r.Ok? ==> state == old(state)
      ensures r.Err? ==> state == Closed && !r.error.IsRefusal()
    {
      hide W.ReadReply, W.Abort;
      var reply :- ReadReply();
      if reply.Class() == expected {
        return Ok(reply);
      }
      MarkClosedOnLogicalFailure();
      return Err(W.Unexpected(during, expected, reply));
    }

    // -------------------------------------------------------------------------
    // Output
    // -------------------------------------------------------------------------

    method WriteAll(data: bytes) returns (r: Result<()>)
      requires Valid() && state != Closed
      modifies this, tr
      ensures Valid()
      ensures tr.undelivered == old(tr.undelivered)
      ensures W.Out(Abs(), r) == W.WriteAll(old(Abs()), data)
      ensures r.Ok? ==> state == old(state)
      ensures r.Err? ==> state == Closed && !r.error.IsRefusal()
    {
      hide W.Abort, Responder.Feed;
      r := tr.WriteAll(data);
      if r.Err? {
        assert Abs() == old(Abs()).(net := W.Logged(old(Abs()).net, W.WriteFailed(data)));
        MarkClosedOnLogicalFailure();
        return;
      }
      var unread := rxBuf[rxPos..];
      assert tr.peer.Live? ==> tr.pending == old(tr.pending) + tr.pending[|old(tr.pending)|..];
      Assoc(unread, old(tr.pending), tr.pending[|old(tr.pending)|..]);
    }

    method Flush() returns (r: Result<()>)
      requires Valid() && state != Closed
      modifies this, tr
      ensures Valid()
      ensures W.Out(Abs(), r) == W.Flush(old(Abs()))
      ensures r.Ok? ==> state == old(state)
      ensures r.Err? ==> state == Closed && !r.error.IsRefusal()
    {
      hide W.Abort;
      r := tr.Flush();
      if r.Err? {
        assert Abs() == old(Abs()).(net := W.Logged(old(Abs()).net, W.Flushed));
        MarkClosedOnLogicalFailure();
      }
    }

    // -------------------------------------------------------------------------
    // Connecting
    // -------------------------------------------------------------------------

    method ReadGreeting() returns (r: Result<()>)
      requires Valid() && state == SessionState.Greeting
      modifies this, tr
      ensures Valid()
      ensures W.Out(Abs(), r) == W.ReadGreeting(old(Abs()))
      ensures r.Ok? ==> state == SessionState.Ehlo
      ensures r.Err? ==> state == Closed && !r.error.IsRefusal()
    {
      hide W.ReadReply, W.Abort;
      var reply :- ReadReply();
      if reply.Class() != 2 {
        MarkClosedOnLogicalFailure();
        return Err(W.Unexpected(SmtpOp.Greeting, 2, reply));
      }
      OnEvent(GreetingReceived(reply.code));
      r := Transition(SessionState.Ehlo);
    }

    method SendEhlo(domain: bytes) returns (r: Result<()>)
      requires Valid() && state == SessionState.Ehlo
      modifies this, tr
      ensures Valid()
      ensures tr.undelivered == old(tr.undelivered)
      ensures W.Out(Abs(), r) == W.SendEhlo(old(Abs()), domain)
      ensures r.Ok? ==> state == Authentication
      ensures r.Err? ==> state == Closed && !r.error.IsRefusal()
    {
      hide W.ReadReply, W.WriteAll, W.Abort, Advertises;
      var _ :- WriteAll(FormatCommandArg(EHLO, domain));
      var reply :- ReadReply();
      if reply.Class() != 2 {
        MarkClosedOnLogicalFailure();
        return Err(W.Unexpected(SmtpOp.Ehlo, 2, reply));
      }
      var lines := reply.lines;
      if lines != [] {
        lines := lines[1..];
      }
      enhancedStatusEnabled := Advertises(lines, KW_ENHANCED);
      capabilities := lines;
      OnEvent(EhloCompleted);
      r := Transition(Authentication);
    }

    // The client exists from the moment the arguments are accepted; a caller sees it only
    // when the result is Ok.
    static method Connect(tr: Transport, domain: bytes, env: W.Env) returns (client: Client, r: Result<()>)
      modifies tr
      ensures client.Valid() && client.tr == tr && client.env == env && fresh(client)
      ensures W.Out(client.Abs(), r) == W.Connect(old(tr.View()), domain)
      ensures r.Ok? ==> client.state == Authentication
      ensures r.Err? && r.error.IsRefusal() ==> unchanged(tr)
    {
      hide W.ReadGreeting, W.SendEhlo;
      client := new Client(tr, domain, env);
      if !ValidEhloDomain(domain) {
        return client, Err(InvalidInput(BadArgument));
      }
      client.OnEvent(Connected);
      r := client.ReadGreeting();
      if r.Err? {
        return;
      }
      r := client.SendEhlo(domain);
    }

    // -------------------------------------------------------------------------
    // STARTTLS
    // -------------------------------------------------------------------------

    method RequestTls() returns (r: Result<()>)
      requires Valid()
      modifies this, tr
      ensures Valid()
      ensures W.Out(Abs(), r) == W.RequestTls(old(Abs()))
      ensures r.Ok? ==> state == SessionState.StartTls
      ensures old(state) == Closed ==> r.Err? && unchanged(this) && unchanged(tr)
      ensures r.Err? && (r.error.IsRefusal() || state != Closed) ==> unchanged(this) && unchanged(tr)
    {
      hide W.ExpectCode, W.WriteAll, W.Abort, Advertises;
      var _ :- AssertStateIn({Authentication});
      if !Advertises(capabilities, STARTTLS) {
        MarkClosedOnLogicalFailure();
        return Err(ExtensionUnavailable(STARTTLS));
      }
      var moved := Transition(SessionState.StartTls);
      assert moved.Ok?;
      var _ :- WriteAll(FormatCommand(STARTTLS));
      var _ :- ExpectCode(220, SmtpOp.StartTls);
      return Ok(());
    }

    // `residue` is exactly what had been delivered but not read when the 220 was: what is
    // missing to the whole unread stream was still with the transport. So an upgrade that goes
    // ahead finds nothing in the buffer.
    method StartTls() returns (r: Result<()>, ghost residue: nat)
      requires Valid()
      modifies this, tr
      ensures Valid()
      ensures W.Out(Abs(), r) == W.DoStartTls(old(Abs()), residue)
      ensures var s := W.RequestTls(old(Abs()));
        var left := if residue == 0 && W.NextSucceeds(s.w.net) then tr.undelivered else |tr.pending|;
        s.r.Ok? ==> residue + left == |s.w.net.input|
      ensures old(state) == Closed ==> r.Err? && unchanged(this) && unchanged(tr)
      ensures r.Err? && (r.error.IsRefusal() || state != Closed) ==> unchanged(this) && unchanged(tr)
    {
      hide W.RequestTls, W.FinishTls;
      residue := 0;
      r := RequestTls();
      if r.Err? {
        return;
      }
      residue := |rxBuf| - rxPos;
      assert |Abs().net.input| == residue + |tr.pending|;
      r := FinishTls();
    }

    // From the server's 220 on.
    method FinishTls() returns (r: Result<()>)
      requires Valid() && state == SessionState.StartTls
      modifies this, tr
      ensures Valid()
      ensures W.Out(Abs(), r) == W.FinishTls(old(Abs()), old(|rxBuf| - rxPos))
      ensures if old(|rxBuf| == rxPos) && W.NextSucceeds(old(Abs()).net) then tr.undelivered == old(|tr.pending|)
              else tr.pending == old(tr.pending)
      ensures r.Err? ==> state == Closed && !r.error.IsRefusal()
    {
      hide W.UpgradeToTls, W.Abort, W.SendEhlo;
      var residue := |rxBuf| - rxPos;
      if residue > 0 {
        MarkClosedOnLogicalFailure();
        return Err(StartTlsBufferResidue(residue));
      }
      capabilities := [];
      r := UpgradeToTls();
      if r.Err? {
        return;
      }
      OnEvent(TlsUpgraded);
      r := Transition(SessionState.Ehlo);
      if r.Err? {
        return;
      }
      r := SendEhlo(ehloDomain);
    }

    method UpgradeToTls() returns (r: Result<()>)
      requires Valid() && state != Closed && rxPos == |rxBuf|
      modifies this, tr
      ensures Valid()
      ensures W.Out(Abs(), r) == W.UpgradeToTls(old(Abs()))
      ensures r.Ok? <==> W.NextSucceeds(old(Abs()).net)
      ensures r.Ok? ==> state == old(state) && tr.undelivered == |old(tr.pending)|
      ensures r.Err? ==> tr.pending == old(tr.pending)
      ensures r.Err? ==> state == Closed && !r.error.IsRefusal()
    {
      hide W.Abort, W.AfterUpgrade;
      assert Abs().net == tr.View() by { assert rxBuf[rxPos..] == [] && [] + tr.pending == tr.pending; }
      r := tr.UpgradeToTls();
      assert Abs().net == tr.View() by { assert rxBuf[rxPos..] == [] && [] + tr.pending == tr.pending; }
      if r.Err? {
        assert Abs() == old(Abs()).(net := W.Tried(old(Abs()).net));
        MarkClosedOnLogicalFailure();
      }
    }

    // -------------------------------------------------------------------------
    // Authentication
    // -------------------------------------------------------------------------

    method ExpectAuth(expected: nat, during: SmtpOp) returns (r: Result<()>)
      requires Valid() && state != Closed
      modifies this, tr
      ensures Valid()
      ensures W.Out(Abs(), r) == W.ExpectAuth(old(Abs()), expected, during)
      ensures r.Ok? ==> state == old(state)
      ensures r.Err? ==> state == Closed && !r.error.IsRefusal()
    {
      hide W.ExpectCode, W.ConvertAuth;
      var reply := ExpectCode(expected, during);
      return if reply.Ok? then Ok(()) else Err(W.ConvertAuth(reply.error));
    }

    method RunAuthPlain(user: bytes, pass: bytes) returns (r: Result<()>)
      requires Valid() && state != Closed
      modifies this, tr
      ensures Valid()
      ensures W.Out(Abs(), r) == W.RunAuthPlain(old(Abs()), user, pass)
      ensures r.Ok? ==> state == old(state)
      ensures r.Err? ==> state == Closed && !r.error.IsRefusal()
    {
      hide W.ExpectAuth, W.WriteAll, InitialResponse;
      var response := Base64.Base64Encode(PlainPayload(user, pass));
      assert response == InitialResponse(Plain, user, pass) by { EncodedPlain(user, pass); }
      var _ :- WriteAll(AUTH_PLAIN + response + CRLF);
      r := ExpectAuth(235, AuthPlain);
    }

    method RunAuthLogin(user: bytes, pass: bytes) returns (r: Result<()>)
      requires Valid() && state != Closed
      modifies this, tr
      ensures Valid()
      ensures W.Out(Abs(), r) == W.RunAuthLogin(old(Abs()), user, pass)
      ensures r.Ok? ==> state == old(state)
      ensures r.Err? ==> state == Closed && !r.error.IsRefusal()
    {
      hide Abs, W.ExpectAuth, W.WriteAll, Base64.Encode;
      var _ :- WriteAll(AUTH_LOGIN + CRLF);
      var _ :- ExpectAuth(334, AuthLogin);
      var userB64 := Base64.Base64Encode(user);
      var _ :- WriteAll(userB64 + CRLF);
      var _ :- ExpectAuth(334, AuthLogin);
      var passB64 := Base64.Base64Encode(pass);
      var _ :- WriteAll(passB64 + CRLF);
      r := ExpectAuth(235, AuthLogin);
    }

    method RunAuthBearer(line: bytes, abort: bytes, during: SmtpOp) returns (r: Result<()>)
      requires Valid() && state != Closed
      modifies this, tr
      ensures Valid()
      ensures W.Out(Abs(), r) == W.RunAuthBearer(old(Abs()), line, abort, during)
      ensures r.Ok? ==> state == old(state)
      ensures r.Err? ==> state == Closed && !r.error.IsRefusal()
    {
      hide Abs, W.ReadReply, W.WriteAll, W.Abort, W.AuthFailure, W.AbandonBearer;
      var _ :- WriteAll(line);
      var reply :- ReadReply();
      if reply.code == 235 {
        return Ok(());
      }
      if reply.code == 334 {
        r := AbandonBearer(abort);
        return;
      }
      MarkClosedOnLogicalFailure();
      return Err(W.AuthFailure(during, 2, reply));
    }

    method AbandonBearer(abort: bytes) returns (r: Result<()>)
      requires Valid() && state != Closed
      modifies this, tr
      ensures Valid()
      ensures W.Out(Abs(), r) == W.AbandonBearer(old(Abs()), abort)
      ensures r.Err? && state == Closed && !r.error.IsRefusal()
    {
      hide W.ReadReply, W.WriteAll, W.Abort;
      var _ :- WriteAll(abort);
      var final :- ReadReply();
      MarkClosedOnLogicalFailure();
      return Err(W.Rejection(final));
    }

    method RunAuthXOAuth2(user: bytes, token: bytes) returns (r: Result<()>)
      requires Valid() && state != Closed
      modifies this, tr
      ensures Valid()
      ensures W.Out(Abs(), r) == W.RunAuthXOAuth2(old(Abs()), user, token)
      ensures r.Ok? ==> state == old(state)
      ensures r.Err? ==> state == Closed && !r.error.IsRefusal()
    {
      hide W.RunAuthBearer, InitialResponse;
      var response := Base64.Base64Encode(XOAuth2Payload(user, token));
      assert response == InitialResponse(XOAuth2, user, token) by { EncodedXOAuth2(user, token); }
      r := RunAuthBearer(AUTH_XOAUTH2 + response + CRLF, CRLF, AuthXOAuth2);
    }

    method RunAuthOAuthBearer(user: bytes, token: bytes) returns (r: Result<()>)
      requires Valid() && state != Closed
      modifies this, tr
      ensures Valid()
      ensures W.Out(Abs(), r) == W.RunAuthOAuthBearer(old(Abs()), user, token)
      ensures r.Ok? ==> state == old(state)
      ensures r.Err? ==> state == Closed && !r.error.IsRefusal()
    {
      hide W.RunAuthBearer, InitialResponse;
      var response := Base64.Base64Encode(OAuthBearerPayload(user, token));
      assert response == InitialResponse(OAuthBearer, user, token) by { EncodedOAuthBearer(user, token); }
      r := RunAuthBearer(AUTH_OAUTHBEARER + response + CRLF, [SOH] + CRLF, AuthOAuthBearer);
    }

    static method DecodeChallenge(text: bytes) returns (r: Option<bytes>)
      ensures r == W.DecodeChallenge(text)
    {
      hide Base64.Decode;
      r := Base64.Base64Decode(text);
      if r.Some? && !Utf8.IsUtf8(r.value) {
        r := None;
      }
    }

    method ScramVerifyServerFinal(text: bytes, expected: digest) returns (r: Result<()>)
      requires Valid() && state != Closed
      modifies this, tr
      ensures Valid()
      ensures W.Out(Abs(), r) == W.ScramVerifyServerFinal(old(Abs()), text, expected)
      ensures r.Ok? ==> state == old(state)
      ensures r.Err? ==> state == Closed && !r.error.IsRefusal()
    {
      hide W.Abort, VerifyServerFinal, W.DecodeChallenge;
      var decoded := DecodeChallenge(text);
      if decoded.None? {
        MarkClosedOnLogicalFailure();
        return Err(MalformedChallenge);
      }
      var verified := VerifyServerFinal(decoded.value, expected);
      if verified.Err? {
        MarkClosedOnLogicalFailure();
        return Err(verified.error);
      }
      return Ok(());
    }

    // `entropy` is what the system's random source returned, if it returned anything.
    method RunAuthScram(user: bytes, password: bytes, entropy: Option<bytes>) returns (r: Result<()>)
      requires Valid() && state != Closed
      modifies this, tr
      ensures Valid()
      ensures W.Out(Abs(), r) == W.RunAuthScram(env, old(Abs()), user, password, entropy)
      ensures r.Ok? ==> state == old(state)
      ensures r.Err? ==> !r.error.IsRefusal() && (state == Closed || (unchanged(this) && unchanged(tr)))
    {
      hide Abs, W.ReadReply, W.WriteAll, W.Abort, W.AuthFailure, W.ScramFinish, ComputeClientFinal, ParseServerFirst,
        Base64.Encode, W.DecodeChallenge, BuildClientFirst;
      if entropy.None? {
        return Err(AuthOther);
      }
      var nonce := Base64.Base64Encode(entropy.value);
      var clientFirst := Base64.Base64Encode(BuildClientFirst(user, nonce));
      var _ :- WriteAll(AUTH_SCRAM + clientFirst + CRLF);
      var reply :- ReadReply();
      if reply.code != 334 {
        MarkClosedOnLogicalFailure();
        return Err(W.AuthFailure(AuthScramSha256, 3, reply));
      }
      var serverFirst := DecodeChallenge(reply.JoinedText());
      if serverFirst.None? {
        MarkClosedOnLogicalFailure();
        return Err(MalformedChallenge);
      }
      var first := ParseServerFirstLoop(serverFirst.value, nonce);
      if first.Err? {
        MarkClosedOnLogicalFailure();
        return Err(first.error);
      }
      r := ScramFinish(ComputeClientFinal(env.crypto, user, password, nonce, first.value, serverFirst.value));
    }

    method ScramFinish(final: ClientFinal) returns (r: Result<()>)
      requires Valid() && state != Closed
      modifies this, tr
      ensures Valid()
      ensures W.Out(Abs(), r) == W.ScramFinish(old(Abs()), final)
      ensures r.Ok? ==> state == old(state)
      ensures r.Err? ==> state == Closed && !r.error.IsRefusal()
    {
      hide W.ReadReply, W.WriteAll, W.Abort, W.AuthFailure, W.ScramVerifyServerFinal, W.ExpectAuth, Base64.Encode;
      var encoded := Base64.Base64Encode(final.message);
      var _ :- WriteAll(encoded + CRLF);
      var reply :- ReadReply();
      if reply.code == 334 {
        var _ :- ScramVerifyServerFinal(reply.JoinedText(), final.expectedServerSignature);
        var _ :- WriteAll(CRLF);
        r := ExpectAuth(235, AuthScramSha256);
      } else if reply.code == 235 {
        r := ScramVerifyServerFinal(reply.JoinedText(), final.expectedServerSignature);
      } else {
        MarkClosedOnLogicalFailure();
        return Err(W.AuthFailure(AuthScramSha256, 2, reply));
      }
    }

    method RunAuth(mechanism: AuthMechanism, user: bytes, credential: bytes, entropy: Option<bytes>)
        returns (r: Result<()>)
      requires Valid() && state != Closed
      modifies this, tr
      ensures Valid()
      ensures W.Out(Abs(), r) == W.RunAuth(env, old(Abs()), mechanism, user, credential, entropy)
      ensures r.Ok? ==> state == old(state)
      ensures r.Err? ==> !r.error.IsRefusal() && (state == Closed || (unchanged(this) && unchanged(tr)))
    {
      hide W.RunAuthPlain, W.RunAuthLogin, W.RunAuthXOAuth2, W.RunAuthOAuthBearer, W.RunAuthScram;
      match mechanism {
        case Plain => r := RunAuthPlain(user, credential);
        case Login => r := RunAuthLogin(user, credential);
        case XOAuth2 => r := RunAuthXOAuth2(user, credential);
        case OAuthBearer => r := RunAuthOAuthBearer(user, credential);
        case ScramSha256 => r := RunAuthScram(user, credential, entropy);
      }
    }

    method LoginWith(mechanism: AuthMechanism, user: bytes, credential: bytes, entropy: Option<bytes>)
        returns (r: Result<()>)
      requires Valid()
      modifies this, tr
      ensures Valid()
      ensures W.Out(Abs(), r) == W.LoginWith(env, old(Abs()), mechanism, user, credential, entropy)
      ensures old(state) == Closed ==> r.Err? && unchanged(this) && unchanged(tr)
      ensures r.Err? && (r.error.IsRefusal() || state != Closed) ==> unchanged(this) && unchanged(tr)
    {
      hide W.RunAuth, W.Abort, ValidCredentials, AdvertisesAuth;
      if !ValidCredentials(mechanism, user, credential) {
        return Err(InvalidInput(BadArgument));
      }
      var _ :- AssertStateIn({Authentication});
      if !AdvertisesAuth(capabilities, mechanism.Name()) {
        MarkClosedOnLogicalFailure();
        return Err(UnsupportedMechanism);
      }
      var _ :- RunAuth(mechanism, user, credential, entropy);
      var moved := Transition(SessionState.MailFrom);
      assert moved.Ok?;
      OnEvent(AuthCompleted(mechanism.Name()));
      return Ok(());
    }

    method DoLogin(user: bytes, pass: bytes, entropy: Option<bytes>) returns (r: Result<()>)
      requires Valid()
      modifies this, tr
      ensures Valid()
      ensures W.Out(Abs(), r) == W.DoLogin(env, old(Abs()), user, pass, entropy)
      ensures old(state) == Closed ==> r.Err? && unchanged(this) && unchanged(tr)
      ensures r.Err? && (r.error.IsRefusal() || state != Closed) ==> unchanged(this) && unchanged(tr)
    {
      hide W.LoginWith, W.Abort, SelectAuthMechanism;
      var mechanism := SelectAuthMechanism(capabilities);
      if mechanism.Some? {
        r := LoginWith(mechanism.value, user, pass, entropy);
      } else {
        if !ValidPlainCredential(user) || !ValidPlainCredential(pass) {
          return Err(InvalidInput(BadArgument));
        }
        var _ :- AssertStateIn({Authentication});
        MarkClosedOnLogicalFailure();
        return Err(UnsupportedMechanism);
      }
    }

    // -------------------------------------------------------------------------
    // Sending
    // -------------------------------------------------------------------------

    method ReadRcptReply() returns (r: Result<()>)
      requires Valid() && state != Closed
      modifies this, tr
      ensures Valid()
      ensures W.Out(Abs(), r) == W.ReadRcptReply(old(Abs()))
      ensures r.Ok? ==> state == old(state)
      ensures r.Err? ==> state == Closed && !r.error.IsRefusal()
    {
      hide W.ReadReply, W.Abort;
      var reply :- ReadReply();
      if reply.Class() == 2 {
        OnEvent(RecipientAccepted(reply.code));
        return Ok(());
      }
      OnEvent(RecipientRejected(reply.code));
      MarkClosedOnLogicalFailure();
      return Err(W.Unexpected(SmtpOp.RcptTo, 2, reply));
    }

    static method BuildPipeline(mailFromLine: bytes, to: seq<bytes>) returns (pipeline: bytes)
      ensures pipeline == W.PipelineText(mailFromLine, to)
    {
      hide FormatRcptTo;
      pipeline := mailFromLine;
      assert to[0..] == to;
      for i := 0 to |to|
        invariant pipeline + RcptLines(to[i..]) == mailFromLine + RcptLines(to)
      {
        assert to[i..][1..] == to[i + 1..];
        Assoc(pipeline, FormatRcptTo(to[i]), RcptLines(to[i + 1..]));
        pipeline := pipeline + FormatRcptTo(to[i]);
      }
      assert RcptLines(to[|to|..]) == [];
      pipeline := pipeline + FormatCommand(DATA);
    }

    method PipelinedEnvelope(mailFromLine: bytes, to: seq<bytes>) returns (r: Result<()>)
      requires Valid() && state == SessionState.MailFrom
      modifies this, tr
      ensures Valid()
      ensures W.Out(Abs(), r) == W.PipelinedEnvelope(old(Abs()), mailFromLine, to)
      ensures r.Ok? ==> state == SessionState.Data
      ensures r.Err? ==> state == Closed && !r.error.IsRefusal()
    {
      hide W.ReadRcptReplies, W.WriteAll, W.Flush, W.ExpectClass, W.ExpectCode, W.PipelineText;
      var moved := Transition(SessionState.RcptTo);
      assert moved.Ok?;
      moved := Transition(SessionState.Data);
      assert moved.Ok?;
      var pipeline := BuildPipeline(mailFromLine, to);
      var _ :- WriteAll(pipeline);
      var _ :- Flush();
      var reply :- ExpectClass(2, SmtpOp.MailFrom);
      OnEvent(MailFromAccepted(reply.code));
      var _ :- ReadRcptReplies(|to|);
      var _ :- ExpectCode(354, SmtpOp.Data);
      return Ok(());
    }

    method ReadRcptReplies(count: nat) returns (r: Result<()>)
      requires Valid() && state != Closed
      modifies this, tr
      ensures Valid()
      ensures W.Out(Abs(), r) == W.ReadRcptReplies(old(Abs()), count)
      ensures r.Ok? ==> state == old(state)
      ensures r.Err? ==> state == Closed && !r.error.IsRefusal()
    {
      hide W.ReadRcptReply;
      for i := 0 to count
        invariant Valid() && state == old(state)
        invariant W.ReadRcptReplies(Abs(), count - i) == W.ReadRcptReplies(old(Abs()), count)
      {
        var _ :- ReadRcptReply();
      }
      return Ok(());
    }

    method SendRcpts(to: seq<bytes>) returns (r: Result<()>)
      requires Valid() && state != Closed
      modifies this, tr
      ensures Valid()
      ensures W.Out(Abs(), r) == W.SendRcpts(old(Abs()), to)
      ensures r.Ok? ==> state == old(state)
      ensures r.Err? ==> state == Closed && !r.error.IsRefusal()
    {
      hide W.ReadRcptReply, W.WriteAll;
      assert to[0..] == to;
      for i := 0 to |to|
        invariant Valid() && state == old(state)
        invariant W.SendRcpts(Abs(), to[i..]) == W.SendRcpts(old(Abs()), to)
      {
        assert to[i..][0] == to[i] && to[i..][1..] == to[i + 1..];
        var _ :- WriteAll(FormatRcptTo(to[i]));
        var _ :- ReadRcptReply();
      }
      assert to[|to|..] == [];
      return Ok(());
    }

    method SequentialEnvelope(mailFromLine: bytes, to: seq<bytes>) returns (r: Result<()>)
      requires Valid() && state == SessionState.MailFrom
      modifies this, tr
      ensures Valid()
      ensures W.Out(Abs(), r) == W.SequentialEnvelope(old(Abs()), mailFromLine, to)
      ensures r.Ok? ==> state == SessionState.Data
      ensures r.Err? ==> state == Closed && !r.error.IsRefusal()
    {
      hide W.SendRcpts, W.WriteAll, W.ExpectClass, W.ExpectCode;
      var _ :- WriteAll(mailFromLine);
      var reply :- ExpectClass(2, SmtpOp.MailFrom);
      OnEvent(MailFromAccepted(reply.code));
      var moved := Transition(SessionState.RcptTo);
      assert moved.Ok?;
      var _ :- SendRcpts(to);
      moved := Transition(SessionState.Data);
      assert moved.Ok?;
      var _ :- WriteAll(FormatCommand(DATA));
      var _ :- ExpectCode(354, SmtpOp.Data);
      return Ok(());
    }

    method RunEnvelope(mailFromLine: bytes, to: seq<bytes>) returns (r: Result<()>)
      requires Valid() && state in {Authentication, SessionState.MailFrom}
      modifies this, tr
      ensures Valid()
      ensures W.Out(Abs(), r) == W.RunEnvelope(old(Abs()), mailFromLine, to)
      ensures r.Ok? ==> state == SessionState.Data
      ensures r.Err? ==> state == Closed && !r.error.IsRefusal()
    {
      hide W.PipelinedEnvelope, W.SequentialEnvelope, AdvertisesPipelining;
      var moved := Transition(SessionState.MailFrom);
      assert moved.Ok?;
      if AdvertisesPipelining(capabilities) {
        r := PipelinedEnvelope(mailFromLine, to);
      } else {
        r := SequentialEnvelope(mailFromLine, to);
      }
    }

    method FinishMessage() returns (r: Result<W.SendOutcome>)
      requires Valid() && state == SessionState.Data
      modifies this, tr
      ensures Valid()
      ensures W.Out(Abs(), r) == W.FinishMessage(old(Abs()))
      ensures r.Err? ==> state == Closed && !r.error.IsRefusal()
    {
      hide W.ExpectClass;
      var reply :- ExpectClass(2, SmtpOp.Data);
      OnEvent(MessageAccepted(reply.code));
      var moved := Transition(SessionState.MailFrom);
      assert moved.Ok?;
      return Ok(W.SendOutcome(reply.code, reply.JoinedText()));
    }

    method CheckPolicy(from: bytes, to: seq<bytes>, size: nat) returns (r: Result<()>)
      requires Valid()
      ensures W.Out(Abs(), r) == W.CheckPolicy(env, Abs(), from, to, size)
    {
      if !env.checkSender(from) {
        return Err(PolicyRejected);
      }
      if !env.checkRecipients(to) {
        return Err(PolicyRejected);
      }
      if !env.checkSize(size) {
        return Err(PolicyRejected);
      }
      return Ok(());
    }

    // send_mail and send_mail_bytes.
    method SendMail(from: bytes, to: seq<bytes>, body: bytes) returns (r: Result<W.SendOutcome>)
      requires Valid()
      modifies this, tr
      ensures Valid()
      ensures W.Out(Abs(), r) == W.SendMail(env, old(Abs()), from, to, body)
      ensures old(state) == Closed ==> r.Err? && unchanged(this) && unchanged(tr)
      ensures r.Err? && (r.error.IsRefusal() || state != Closed) ==> unchanged(this) && unchanged(tr)
    {
      hide W.RunEnvelope, W.WriteAll, W.FinishMessage, W.ValidEnvelope, DotStuffing.Payload;
      if !W.ValidEnvelope(from, to) {
        return Err(InvalidInput(BadArgument));
      }
      var _ :- AssertStateIn({Authentication, SessionState.MailFrom});
      var _ :- CheckPolicy(from, to, |body|);
      var _ :- RunEnvelope(FormatMailFrom(from), to);
      var payload := DotStuffing.DotStuffAndTerminate(body);
      var _ :- WriteAll(payload);
      r := FinishMessage();
    }

    method SendMailUtf8(from: bytes, to: seq<bytes>, body: bytes) returns (r: Result<W.SendOutcome>)
      requires Valid()
      modifies this, tr
      ensures Valid()
      ensures W.Out(Abs(), r) == W.SendMailUtf8(env, old(Abs()), from, to, body)
      ensures old(state) == Closed ==> r.Err? && unchanged(this) && unchanged(tr)
      ensures r.Err? && (r.error.IsRefusal() || state != Closed) ==> unchanged(this) && unchanged(tr)
    {
      hide W.RunEnvelope, W.WriteAll, W.FinishMessage, W.ValidEnvelopeUtf8, DotStuffing.Payload, Advertises, W.Abort;
      if !W.ValidEnvelopeUtf8(from, to) {
        return Err(InvalidInput(BadArgument));
      }
      var _ :- AssertStateIn({Authentication, SessionState.MailFrom});
      if !Advertises(capabilities, KW_SMTPUTF8) {
        MarkClosedOnLogicalFailure();
        return Err(ExtensionUnavailable(KW_SMTPUTF8));
      }
      var _ :- CheckPolicy(from, to, |body|);
      var _ :- RunEnvelope(FormatMailFromUtf8(from), to);
      var payload := DotStuffing.DotStuffAndTerminate(body);
      var _ :- WriteAll(payload);
      r := FinishMessage();
    }

    method StreamBody(body: BodySource) returns (r: Result<()>)
      requires Valid() && state != Closed && body.Valid()
      modifies this, tr, body
      ensures Valid() && body.Valid()
      ensures W.Out(Abs(), r) == W.StreamBody(old(Abs()), [], old(body.chunks), body.whole)
      ensures r.Ok? ==> state == old(state)
      ensures r.Err? ==> state == Closed && !r.error.IsRefusal()
    {
      hide Abs, W.WriteAll, W.Abort, DotStuffing.StuffedChunk, DotStuffing.Terminator;
      var stuffer := new DotStuffing.DotStuffer();
      while true
        invariant Valid() && state == old(state) && body.Valid() && stuffer.Valid() && fresh(stuffer)
        invariant W.StreamBody(Abs(), stuffer.fed, body.chunks, body.whole)
               == W.StreamBody(old(Abs()), [], old(body.chunks), body.whole)
        decreases |body.chunks|
      {
        var chunk := body.ReadChunk();
        if chunk.Err? {
          MarkClosedOnLogicalFailure();
          return Err(Io);
        }
        if chunk.value == [] {
          break;
        }
        var wireChunk := stuffer.ProcessChunk(chunk.value);
        var _ :- WriteAll(wireChunk);
      }
      r := WriteAll(stuffer.Finish());
    }

    method SendMailStream(from: bytes, to: seq<bytes>, body: BodySource) returns (r: Result<W.SendOutcome>)
      requires Valid() && body.Valid()
      modifies this, tr, body
      ensures Valid()
      ensures W.Out(Abs(), r) == W.SendMailStream(env, old(Abs()), from, to, old(body.chunks), body.whole)
      ensures old(state) == Closed ==> r.Err? && unchanged(this) && unchanged(tr) && unchanged(body)
      ensures r.Err? && (r.error.IsRefusal() || state != Closed) ==> unchanged(this) && unchanged(tr) && unchanged(body)
    {
      hide W.RunEnvelope, W.StreamBody, W.FinishMessage, W.ValidEnvelope;
      if !W.ValidEnvelope(from, to) {
        return Err(InvalidInput(BadArgument));
      }
      var _ :- AssertStateIn({Authentication, SessionState.MailFrom});
      var _ :- CheckPolicy(from, to, env.usizeMax);
      var _ :- RunEnvelope(FormatMailFrom(from), to);
      var _ :- StreamBody(body);
      r := FinishMessage();
    }

    // -------------------------------------------------------------------------
    // Leaving
    // -------------------------------------------------------------------------

    method QuitExchange() returns (r: Result<()>)
      requires Valid() && state != Closed
      modifies this, tr
      ensures Valid()
      ensures W.Out(Abs(), r) == W.QuitExchange(old(Abs()))
    {
      hide W.WriteAll, W.ExpectCode;
      var _ :- Transition(SessionState.Quit);
      var _ :- WriteAll(FormatCommand(QUIT));
      var _ :- ExpectCode(221, SmtpOp.Quit);
      return Ok(());
    }

    method DoQuit() returns (r: Result<()>)
      requires Valid()
      modifies this, tr
      ensures Valid() && state == Closed
      ensures W.Out(Abs(), r) == W.DoQuit(old(Abs()))
      ensures old(state) == Closed ==> r == Ok(()) && unchanged(this) && unchanged(tr)
    {
      hide W.QuitExchange;
      if state == Closed {
        return Ok(());
      }
      var sent := QuitExchange();
      var closed := tr.Close();
      state := Closed;
      OnEvent(if sent.Ok? && closed.Ok? then QuitCompleted else SessionAborted);
      return if sent.Err? then sent else closed;
    }
  }
}
