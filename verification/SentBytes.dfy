// What goes out on the wire in all, whatever the path taken to send it.

module SentBytes {
  import opened Octets
  import opened Errors
  import opened Session
  import opened Commands
  import opened Replies
  import opened World
  import opened Pipelining
  import opened Transports
  import DotStuffing
  import Responder
  import Base64

  // An operation that succeeds sends all of `full`; one that fails stops somewhere in it.
  predicate Sends<T>(w: World, out: Out<T>, full: bytes) {
    if out.r.Ok? then BytesOut(out.w) == BytesOut(w) + full else BytesOut(out.w) <= BytesOut(w) + full
  }

  lemma WriteSends(w: World, data: bytes)
    requires w.net.outcomes == []
    ensures BytesOut(WriteAll(w, data).w) == BytesOut(w) + data
  {
    hide WireBytes, Responder.Feed;
    WireBytesSnoc(w.net.trace, Wrote(data));
  }

  lemma EnvelopeSends(w: World, line: bytes, to: seq<bytes>)
    requires w.state in {Authentication, SessionState.MailFrom} && Reliable(w)
    ensures Sends(w, RunEnvelope(w, line, to), PipelineText(line, to))
  {
    hide PipelinedEnvelope, SequentialEnvelope, AdvertisesPipelining, PipelineText, WireBytes;
    EnvelopesAgree(w.(state := SessionState.MailFrom), line, to);
  }

  lemma FinishSends(w: World)
    requires w.state == SessionState.Data
    ensures FinishMessage(w).w.net.trace == w.net.trace
  {
    hide TakeReplyFrom;
  }

  lemma MessageSends(w: World, line: bytes, to: seq<bytes>, body: bytes)
    requires w.state in {Authentication, SessionState.MailFrom} && Reliable(w)
    ensures var e := RunEnvelope(w, line, to);
      var text := PipelineText(line, to) + DotStuffing.Payload(body);
      if e.r.Err? then Sends(w, e, text)
      else
        var s := WriteAll(e.w, DotStuffing.Payload(body));
        s.r.Ok? && Sends(w, FinishMessage(s.w), text)
  {
    hide RunEnvelope, WriteAll, FinishMessage, PipelineText, WireBytes, DotStuffing.Payload;
    EnvelopeSends(w, line, to);
    var e := RunEnvelope(w, line, to);
    Assoc(BytesOut(w), PipelineText(line, to), DotStuffing.Payload(body));
    if e.r.Ok? {
      EnvelopeReliable(w, line, to);
      WriteSteady(e.w, DotStuffing.Payload(body));
      WriteSends(e.w, DotStuffing.Payload(body));
      FinishSends(WriteAll(e.w, DotStuffing.Payload(body)).w);
    }
  }

  // A message is, on the wire, the envelope's commands in their order and then the payload:
  // pipelined or not, ASCII or not, whole or in chunks. A failed send has sent a front part.
  lemma MailIsCommandsThenPayload(env: Env, w: World, from: bytes, to: seq<bytes>, body: bytes)
    requires Reliable(w)
    ensures Sends(w, SendMail(env, w, from, to, body),
                  PipelineText(FormatMailFrom(from), to) + DotStuffing.Payload(body))
    ensures Sends(w, SendMailUtf8(env, w, from, to, body),
                  PipelineText(FormatMailFromUtf8(from), to) + DotStuffing.Payload(body))
  {
    hide RunEnvelope, WriteAll, FinishMessage, PipelineText, WireBytes, DotStuffing.Payload, ValidEnvelope,
      ValidEnvelopeUtf8, FormatMailFrom, FormatMailFromUtf8, Advertises;
    if w.state in {Authentication, SessionState.MailFrom} {
      MessageSends(w, FormatMailFrom(from), to, body);
      MessageSends(w, FormatMailFromUtf8(from), to, body);
    }
  }

  lemma StreamIsCommandsThenPayload(env: Env, w: World, from: bytes, to: seq<bytes>, chunks: seq<bytes>)
    requires Reliable(w) && env.checkSize(env.usizeMax) == env.checkSize(|Concat(chunks)|)
    ensures Sends(w, SendMailStream(env, w, from, to, chunks, true),
                  PipelineText(FormatMailFrom(from), to) + DotStuffing.Payload(Concat(chunks)))
  {
    hide SendMailStream, SendMail, PipelineText, WireBytes, DotStuffing.Payload, FormatMailFrom;
    StreamingSendsTheBody(env, w, from, to, chunks);
    MailIsCommandsThenPayload(env, w, from, to, Concat(chunks));
  }

  // Sending a slice through its body source, in the pieces that SliceBody cuts it into with the
  // client's buffer, is sending the slice.
  lemma SliceSendsItself(env: Env, w: World, from: bytes, to: seq<bytes>, data: bytes)
    requires w.net.outcomes == [] && env.checkSize(env.usizeMax) == env.checkSize(|data|)
    ensures var s := SendMailStream(env, w, from, to, Cut(data, CHUNK_SIZE), true);
      var b := SendMail(env, w, from, to, data);
      s.r == b.r && SameWire(s.w, b.w)
  {
    hide SendMailStream, SendMail, SameWire;
    CutConcat(data, CHUNK_SIZE);
    StreamingSendsTheBody(env, w, from, to, Cut(data, CHUNK_SIZE));
  }

  // ---------------------------------------------------------------------------
  // Authentication
  // ---------------------------------------------------------------------------

  function AsWrites(lines: seq<bytes>): (r: seq<Wire>)
    ensures |r| == |lines| && forall i :: 0 <= i < |lines| ==> r[i] == Wrote(lines[i] + CRLF)
  {
    seq(|lines|, i requires 0 <= i < |lines| => Wrote(lines[i] + CRLF))
  }

  // What a client that was let in has sent, without the line ends.
  function AuthLines(mechanism: AuthMechanism, user: bytes, credential: bytes): seq<bytes>
    requires !mechanism.ScramSha256?
  {
    match mechanism
    case Plain => [AUTH_PLAIN + InitialResponse(Plain, user, credential)]
    case Login => [AUTH_LOGIN, Base64.Encode(user), Base64.Encode(credential)]
    case XOAuth2 => [AUTH_XOAUTH2 + InitialResponse(XOAuth2, user, credential)]
    case OAuthBearer => [AUTH_OAUTHBEARER + InitialResponse(OAuthBearer, user, credential)]
  }

  // What is left of a stream once a server has sent this many 334 replies and then a 235.
  function LetIn(stream: bytes, ending: Ending, challenges: nat): Option<bytes>
    decreases challenges
  {
    match TakeReply(stream, ending)
    case NoReply(_) => None
    case GotReply(code, _, rest) =>
      if challenges == 0 then if code == 235 then Some(rest) else None
      else if code == 334 then LetIn(rest, ending, challenges - 1)
      else None
  }

  // The session after these lines went out and the stream was read up to `rest`.
  function After(w: World, lines: seq<bytes>, rest: bytes): World {
    w.(net := w.net.(input := rest, trace := w.net.trace + AsWrites(lines)))
  }

  lemma ReadsOne(w: World, expected: nat, during: SmtpOp)
    ensures var out := ExpectAuth(w, expected, during); var r := TakeReply(w.net.input, w.net.ending);
      && (out.r.Ok? <==> r.GotReply? && r.code == expected)
      && (out.r.Ok? ==> out.w == w.(net := w.net.(input := r.rest)))
    ensures var out := ReadReply(w); var r := TakeReply(w.net.input, w.net.ending);
      && (out.r.Ok? <==> r.GotReply?)
      && (out.r.Ok? ==> out.r.value.code == r.code && out.w == w.(net := w.net.(input := r.rest)))
  {
    hide TakeReplyFrom;
  }

  lemma Asks(w: World, lines: seq<bytes>, rest: bytes, line: bytes)
    requires Reliable(w)
    ensures var w' := After(w, lines, rest);
      WriteAll(w', line + CRLF) == Out(After(w, lines + [line], rest), Ok(()))
  {
    assert AsWrites(lines + [line]) == AsWrites(lines) + [Wrote(line + CRLF)];
    assert w.net.trace + AsWrites(lines) + [Wrote(line + CRLF)] == w.net.trace + AsWrites(lines + [line]);
  }

  lemma AfterNothing(w: World)
    ensures After(w, [], w.net.input) == w
  {
    assert w.net.trace + AsWrites([]) == w.net.trace;
  }

  // A response sent along with the command, and one reply.
  lemma OneLineAuth(w: World, line: bytes, abort: bytes, during: SmtpOp)
    requires Reliable(w)
    ensures var out := RunAuthBearer(w, line + CRLF, abort, during);
      var rest := LetIn(w.net.input, w.net.ending, 0);
      && (out.r.Ok? <==> rest.Some?)
      && (out.r.Ok? ==> out.w == After(w, [line], rest.value))
    ensures var s := WriteAll(w, line + CRLF); var out := ExpectAuth(s.w, 235, during);
      var rest := LetIn(w.net.input, w.net.ending, 0);
      && s.r.Ok?
      && (out.r.Ok? <==> rest.Some?)
      && (out.r.Ok? ==> out.w == After(w, [line], rest.value))
  {
    hide WriteAll, ReadReply, ExpectAuth, AuthFailure, TakeReplyFrom;
    AfterNothing(w);
    Asks(w, [], w.net.input, line);
    assert [] + [line] == [line];
    var w1 := After(w, [line], w.net.input);
    ReadsOne(w1, 235, during);
  }

  lemma LoginAuth(w: World, user: bytes, pass: bytes)
    requires Reliable(w)
    ensures var out := RunAuthLogin(w, user, pass);
      var rest := LetIn(w.net.input, w.net.ending, 2);
      && (out.r.Ok? <==> rest.Some?)
      && (out.r.Ok? ==> out.w == After(w, [AUTH_LOGIN, Base64.Encode(user), Base64.Encode(pass)], rest.value))
  {
    hide WriteAll, ExpectAuth, TakeReplyFrom, Base64.Encode;
    var u, p := Base64.Encode(user), Base64.Encode(pass);
    AfterNothing(w);
    Asks(w, [], w.net.input, AUTH_LOGIN);
    assert [] + [AUTH_LOGIN] == [AUTH_LOGIN];
    var l1 := [AUTH_LOGIN];
    ReadsOne(After(w, l1, w.net.input), 334, AuthLogin);
    var r1 := TakeReply(w.net.input, w.net.ending);
    if r1.GotReply? && r1.code == 334 {
      Asks(w, l1, r1.rest, u);
      var l2 := l1 + [u];
      ReadsOne(After(w, l2, r1.rest), 334, AuthLogin);
      var r2 := TakeReply(r1.rest, w.net.ending);
      if r2.GotReply? && r2.code == 334 {
        Asks(w, l2, r2.rest, p);
        assert l2 + [p] == [AUTH_LOGIN, u, p];
        ReadsOne(After(w, l2 + [p], r2.rest), 235, AuthLogin);
      }
    }
  }

  function Challenges(mechanism: AuthMechanism): nat {
    if mechanism.Login? then 2 else 0
  }

  // A client is let in exactly when the server accepts in the mechanism's number of steps, and
  // then it has sent exactly the mechanism's lines and read no further than the last reply.
  lemma AuthIsItsLines(
      env: Env, w: World, mechanism: AuthMechanism, user: bytes, credential: bytes, entropy: Option<bytes>)
    requires Reliable(w) && !mechanism.ScramSha256?
    ensures var out := RunAuth(env, w, mechanism, user, credential, entropy);
      var rest := LetIn(w.net.input, w.net.ending, Challenges(mechanism));
      && (out.r.Ok? <==> rest.Some?)
      && (out.r.Ok? ==> out.w == After(w, AuthLines(mechanism, user, credential), rest.value))
  {
    hide RunAuthBearer, RunAuthLogin, ExpectAuth, WriteAll, InitialResponse, LetIn, After, Base64.Encode;
    match mechanism
    case Plain => OneLineAuth(w, AUTH_PLAIN + InitialResponse(Plain, user, credential), CRLF, AuthPlain);
    case Login => LoginAuth(w, user, credential);
    case XOAuth2 => OneLineAuth(w, AUTH_XOAUTH2 + InitialResponse(XOAuth2, user, credential), CRLF, AuthXOAuth2);
    case OAuthBearer =>
      OneLineAuth(w, AUTH_OAUTHBEARER + InitialResponse(OAuthBearer, user, credential), [SOH] + CRLF, AuthOAuthBearer);
  }
}
