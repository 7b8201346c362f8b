// The state of one session as a value, and what each client operation does to it.
//
// The client class is proved to compute these functions; the theorems about whole runs are
// proved about them. A `World` holds the server's bytes that nobody has read yet, in one
// stream: how much of it the client has already buffered does not show.

module World {
  import opened Octets
  import opened Errors
  import opened EnhancedStatusCodes
  import opened Session
  import opened Commands
  import opened Replies
  import opened Scram
  import Responder
  import DotStuffing
  import Utf8
  import Base64

  // ---------------------------------------------------------------------------
  // The network
  // ---------------------------------------------------------------------------

  datatype Wire = Wrote(data: bytes) | WriteFailed(data: bytes) | Flushed | Upgraded | ShutDown

  // The bytes that reach the client between two TLS upgrades.
  datatype Segment = Segment(input: bytes, ending: Ending)

  // The far end: a fixed stream of bytes, or the scripted responder.
  datatype Peer = Script | Live(machine: Responder.Machine)

  datatype Net = Net(
    input: bytes,               // not yet read by the client
    ending: Ending,             // what a read finds after that
    segments: seq<Segment>,     // what later upgrades bring
    carries: bool,              // whether an upgrade keeps what was not delivered before it
    outcomes: seq<bool>,        // whether the next output operations succeed; then all do
    trace: seq<Wire>,           // the output operations, in order
    peer: Peer)

  predicate NextSucceeds(net: Net) {
    net.outcomes == [] || net.outcomes[0]
  }

  function Tried(net: Net): Net {
    net.(outcomes := if net.outcomes == [] then [] else net.outcomes[1..])
  }

  function Logged(net: Net, wire: Wire): Net {
    Tried(net).(trace := net.trace + [wire])
  }

  function Sent(net: Net, data: bytes): Net {
    match net.peer
    case Script => Logged(net, Wrote(data))
    case Live(machine) =>
      var fed := Responder.Feed(machine, data);
      Logged(net, Wrote(data)).(input := net.input + fed.reply, peer := Live(fed.peer))
  }

  function AfterUpgrade(net: Net): Net {
    match net.peer
    case Live(machine) => Logged(net, Upgraded).(input := [], peer := Live(Responder.Handshake(machine)))
    case Script =>
      var kept := if net.carries then net.input else [];
      if net.segments == [] then
        Logged(net, Upgraded).(input := kept, ending := if net.carries then net.ending else Eof)
      else
        var s := net.segments[0];
        Logged(net, Upgraded).(input := kept + s.input, ending := s.ending, segments := net.segments[1..])
  }

  // ---------------------------------------------------------------------------
  // The session
  // ---------------------------------------------------------------------------

  datatype World = World(
    state: SessionState,
    capabilities: seq<bytes>,
    enhanced: bool,
    domain: bytes,
    net: Net,
    audit: seq<Event>)

  // The application's policy, and the primitives of SCRAM.
  datatype Env = Env(
    checkSender: bytes -> bool,
    checkRecipients: seq<bytes> -> bool,
    checkSize: nat -> bool,
    usizeMax: nat,
    crypto: Crypto)

  // What an operation leaves behind and returns.
  datatype Out<+T> = Out(w: World, r: Result<T>) {
    predicate IsFailure() {
      r.Err?
    }

    function PropagateFailure<U>(): Out<U>
      requires r.Err?
    {
      Out(w, Err(r.error))
    }

    function Extract(): (World, T)
      requires r.Ok?
    {
      (w, r.value)
    }
  }

  function Fresh(net: Net, domain: bytes): World {
    World(SessionState.Greeting, [], false, domain, net, [])
  }

  function Audit(w: World, event: Event): World {
    w.(audit := w.audit + [event])
  }

  function Close(w: World): World {
    w.(state := Closed, net := w.net.(input := []))
  }

  // The one way an operation gives the session up. Nothing is read after it.
  function Abort(w: World): World {
    if w.state == Closed then w else Audit(Close(w), SessionAborted)
  }

  // What was left unread does not matter once the session is given up.
  lemma AbortForgetsInput(w: World, w': World)
    requires w' == w.(net := w.net.(input := w'.net.input)) && w.state != Closed
    ensures Abort(w') == Abort(w)
  {
  }

  function Fail<T>(w: World, error: Error): Out<T> {
    Out(Abort(w), Err(error))
  }

  function Transition(w: World, next: SessionState): Out<()> {
    if w.state.CanTransitionTo(next) then Out(if next == Closed then Close(w) else w.(state := next), Ok(()))
    else Out(w, Err(InvalidInput(TransitionRejected)))
  }

  function AssertStateIn(w: World, allowed: set<SessionState>): Out<()> {
    if w.state in allowed then Out(w, Ok(())) else Out(w, Err(InvalidInput(NotAllowedInState)))
  }

  // ---------------------------------------------------------------------------
  // Input and output
  // ---------------------------------------------------------------------------

  function WriteAll(w: World, data: bytes): Out<()> {
    if NextSucceeds(w.net) then Out(w.(net := Sent(w.net, data)), Ok(()))
    else Fail(w.(net := Logged(w.net, WriteFailed(data))), Io)
  }

  function Flush(w: World): Out<()> {
    var w' := w.(net := Logged(w.net, Flushed));
    if NextSucceeds(w.net) then Out(w', Ok(())) else Fail(w', Io)
  }

  function ReadLine(w: World): Out<bytes> {
    match TakeLine(w.net.input, w.net.ending)
    case NoLine(e) => Fail(w, e)
    case Line(line, rest) => Out(w.(net := w.net.(input := rest)), Ok(line))
  }

  function Decoded(lines: seq<bytes>): (r: seq<bytes>)
    ensures |r| == |lines| && forall i :: 0 <= i < |lines| ==> r[i] == Utf8.Lossy(lines[i])
  {
    seq(|lines|, i requires 0 <= i < |lines| => Utf8.Lossy(lines[i]))
  }

  function MakeReply(enhanced: bool, code: nat, lines: seq<bytes>): Reply {
    var reply := Reply(code, Decoded(lines), None);
    if enhanced then reply.(enhanced := reply.TryParseEnhanced()) else reply
  }

  function ReadReply(w: World): Out<Reply> {
    match TakeReply(w.net.input, w.net.ending)
    case NoReply(e) => Fail(w, e)
    case GotReply(code, lines, rest) =>
      Out(w.(net := w.net.(input := rest)), Ok(MakeReply(w.enhanced, code, lines)))
  }

  function Unexpected(during: SmtpOp, expectedClass: nat, reply: Reply): Error {
    UnexpectedCode(during, expectedClass, reply.code, reply.enhanced, reply.JoinedText())
  }

  function ExpectCode(w: World, expected: nat, during: SmtpOp): Out<Reply> {
    var (w, reply) :- ReadReply(w);
    if reply.code == expected then Out(w, Ok(reply)) else Fail(w, Unexpected(during, expected / 100, reply))
  }

  function ExpectClass(w: World, expected: nat, during: SmtpOp): Out<Reply> {
    var (w, reply) :- ReadReply(w);
    if reply.Class() == expected then Out(w, Ok(reply)) else Fail(w, Unexpected(during, expected, reply))
  }

  // ---------------------------------------------------------------------------
  // Connecting
  // ---------------------------------------------------------------------------

  function ReadGreeting(w: World): Out<()> {
    var (w, reply) :- ReadReply(w);
    if reply.Class() != 2 then Fail(w, Unexpected(SmtpOp.Greeting, 2, reply))
    else Transition(Audit(w, GreetingReceived(reply.code)), SessionState.Ehlo)
  }

  // An EHLO reply names the server first; the capabilities follow.
  function CapabilityLines(lines: seq<bytes>): seq<bytes> {
    if lines == [] then [] else lines[1..]
  }

  function SendEhlo(w: World, domain: bytes): Out<()> {
    var (w, _) :- WriteAll(w, FormatCommandArg(EHLO, domain));
    var (w, reply) :- ReadReply(w);
    if reply.Class() != 2 then Fail(w, Unexpected(SmtpOp.Ehlo, 2, reply))
    else
      var lines := CapabilityLines(reply.lines);
      var w := w.(enhanced := Advertises(lines, KW_ENHANCED), capabilities := lines);
      Transition(Audit(w, EhloCompleted), Authentication)
  }

  function Connect(net: Net, domain: bytes): Out<()> {
    var w := Fresh(net, domain);
    if !ValidEhloDomain(domain) then Out(w, Err(InvalidInput(BadArgument)))
    else
      var (w, _) :- ReadGreeting(Audit(w, Connected));
      SendEhlo(w, domain)
  }

  // ---------------------------------------------------------------------------
  // STARTTLS
  // ---------------------------------------------------------------------------

  function UpgradeToTls(w: World): Out<()> {
    if NextSucceeds(w.net) then Out(w.(net := AfterUpgrade(w.net)), Ok(()))
    else Fail(w.(net := Tried(w.net)), Io)
  }

  // Up to the server's 220.
  function RequestTls(w: World): Out<()> {
    var (w, _) :- AssertStateIn(w, {Authentication});
    if !Advertises(w.capabilities, STARTTLS) then Fail(w, ExtensionUnavailable(STARTTLS))
    else
      var (w, _) :- Transition(w, SessionState.StartTls);
      var (w, _) :- WriteAll(w, FormatCommand(STARTTLS));
      var (w, _) :- ExpectCode(w, 220, SmtpOp.StartTls);
      Out(w, Ok(()))
  }

  // From the 220 on. `residue` is how much of the unread stream the client's buffer holds then;
  // it depends on how the transport cut the stream up, so it is a parameter here.
  function FinishTls(w: World, residue: nat): Out<()> {
    if residue > 0 then Fail(w, StartTlsBufferResidue(residue))
    else
      var (w, _) :- UpgradeToTls(w.(capabilities := []));
      var (w, _) :- Transition(Audit(w, TlsUpgraded), SessionState.Ehlo);
      SendEhlo(w, w.domain)
  }

  function DoStartTls(w: World, residue: nat): Out<()> {
    var (w, _) :- RequestTls(w);
    FinishTls(w, residue)
  }

  // ---------------------------------------------------------------------------
  // Authentication
  // ---------------------------------------------------------------------------

  function ConvertAuth(e: Error): (r: Error)
    ensures r.IsRefusal() == e.IsRefusal()
  {
    match e
    case UnexpectedCode(_, _, actual, enhanced, message) =>
      if 500 <= actual < 600 then Rejected(actual, enhanced, message) else e
    case _ => e
  }

  function Rejection(reply: Reply): Error {
    Rejected(reply.code, reply.enhanced, reply.JoinedText())
  }

  // A reply outside the exchange: a rejection when it is a 5xx.
  function AuthFailure(during: SmtpOp, expectedClass: nat, reply: Reply): (e: Error)
    ensures !e.IsRefusal()
  {
    if 500 <= reply.code < 600 then Rejection(reply) else Unexpected(during, expectedClass, reply)
  }

  function ExpectAuth(w: World, expected: nat, during: SmtpOp): Out<()> {
    var out := ExpectCode(w, expected, during);
    Out(out.w, match out.r case Ok(_) => Ok(()) case Err(e) => Err(ConvertAuth(e)))
  }

  function RunAuthPlain(w: World, user: bytes, pass: bytes): Out<()> {
    var (w, _) :- WriteAll(w, AUTH_PLAIN + InitialResponse(Plain, user, pass) + CRLF);
    ExpectAuth(w, 235, AuthPlain)
  }

  function RunAuthLogin(w: World, user: bytes, pass: bytes): Out<()> {
    var (w, _) :- WriteAll(w, AUTH_LOGIN + CRLF);
    var (w, _) :- ExpectAuth(w, 334, AuthLogin);
    var (w, _) :- WriteAll(w, Base64.Encode(user) + CRLF);
    var (w, _) :- ExpectAuth(w, 334, AuthLogin);
    var (w, _) :- WriteAll(w, Base64.Encode(pass) + CRLF);
    ExpectAuth(w, 235, AuthLogin)
  }

  // XOAUTH2 and OAUTHBEARER: one response, and on a 334 an `abort` line and the final reply.
  function RunAuthBearer(w: World, line: bytes, abort: bytes, during: SmtpOp): Out<()> {
    var (w, _) :- WriteAll(w, line);
    var (w, reply) :- ReadReply(w);
    if reply.code == 235 then Out(w, Ok(()))
    else if reply.code == 334 then AbandonBearer(w, abort)
    else Fail(w, AuthFailure(during, 2, reply))
  }

  function AbandonBearer(w: World, abort: bytes): Out<()> {
    var (w, _) :- WriteAll(w, abort);
    var (w, final) :- ReadReply(w);
    Fail(w, Rejection(final))
  }

  function RunAuthXOAuth2(w: World, user: bytes, token: bytes): Out<()> {
    RunAuthBearer(w, AUTH_XOAUTH2 + InitialResponse(XOAuth2, user, token) + CRLF, CRLF, AuthXOAuth2)
  }

  function RunAuthOAuthBearer(w: World, user: bytes, token: bytes): Out<()> {
    RunAuthBearer(w, AUTH_OAUTHBEARER + InitialResponse(OAuthBearer, user, token) + CRLF, [SOH] + CRLF, AuthOAuthBearer)
  }

  // A challenge: base64 of UTF-8 text.
  function DecodeChallenge(text: bytes): Option<bytes> {
    match Base64.Decode(text)
    case None => None
    case Some(s) => if Utf8.IsUtf8(s) then Some(s) else None
  }

  function ScramVerifyServerFinal(w: World, text: bytes, expected: digest): Out<()> {
    match DecodeChallenge(text)
    case None => Fail(w, MalformedChallenge)
    case Some(s) =>
      match VerifyServerFinal(s, expected)
      case Err(e) => Fail(w, e)
      case Ok(_) => Out(w, Ok(()))
  }

  function RunAuthScram(env: Env, w: World, user: bytes, password: bytes, entropy: Option<bytes>): Out<()> {
    if entropy.None? then Out(w, Err(AuthOther))
    else
      var nonce := Base64.Encode(entropy.value);
      var (w, _) :- WriteAll(w, AUTH_SCRAM + Base64.Encode(BuildClientFirst(user, nonce)) + CRLF);
      var (w, reply) :- ReadReply(w);
      if reply.code != 334 then Fail(w, AuthFailure(AuthScramSha256, 3, reply))
      else
        match DecodeChallenge(reply.JoinedText())
        case None => Fail(w, MalformedChallenge)
        case Some(serverFirst) =>
          match ParseServerFirst(serverFirst, nonce)
          case Err(e) => Fail(w, e)
          case Ok(first) => ScramFinish(w, ComputeClientFinal(env.crypto, user, password, nonce, first, serverFirst))
  }

  function ScramFinish(w: World, final: ClientFinal): Out<()> {
    var (w, _) :- WriteAll(w, Base64.Encode(final.message) + CRLF);
    var (w, reply) :- ReadReply(w);
    if reply.code == 334 then
      var (w, _) :- ScramVerifyServerFinal(w, reply.JoinedText(), final.expectedServerSignature);
      var (w, _) :- WriteAll(w, CRLF);
      ExpectAuth(w, 235, AuthScramSha256)
    else if reply.code == 235 then
      ScramVerifyServerFinal(w, reply.JoinedText(), final.expectedServerSignature)
    else Fail(w, AuthFailure(AuthScramSha256, 2, reply))
  }

  function RunAuth(
      env: Env, w: World, mechanism: AuthMechanism, user: bytes, credential: bytes, entropy: Option<bytes>): Out<()>
  {
    match mechanism
    case Plain => RunAuthPlain(w, user, credential)
    case Login => RunAuthLogin(w, user, credential)
    case XOAuth2 => RunAuthXOAuth2(w, user, credential)
    case OAuthBearer => RunAuthOAuthBearer(w, user, credential)
    case ScramSha256 => RunAuthScram(env, w, user, credential, entropy)
  }

  function LoginWith(
      env: Env, w: World, mechanism: AuthMechanism, user: bytes, credential: bytes, entropy: Option<bytes>): Out<()>
  {
    if !ValidCredentials(mechanism, user, credential) then Out(w, Err(InvalidInput(BadArgument)))
    else
      var (w, _) :- AssertStateIn(w, {Authentication});
      if !AdvertisesAuth(w.capabilities, mechanism.Name()) then Fail(w, UnsupportedMechanism)
      else
        var (w, _) :- RunAuth(env, w, mechanism, user, credential, entropy);
        var (w, _) :- Transition(w, SessionState.MailFrom);
        Out(Audit(w, AuthCompleted(mechanism.Name())), Ok(()))
  }

  function DoLogin(env: Env, w: World, user: bytes, pass: bytes, entropy: Option<bytes>): Out<()> {
    match SelectAuthMechanism(w.capabilities)
    case Some(mechanism) => LoginWith(env, w, mechanism, user, pass, entropy)
    case None =>
      if !ValidPlainCredential(user) || !ValidPlainCredential(pass) then Out(w, Err(InvalidInput(BadArgument)))
      else
        var (w, _) :- AssertStateIn(w, {Authentication});
        Fail(w, UnsupportedMechanism)
  }

  // ---------------------------------------------------------------------------
  // Sending
  // ---------------------------------------------------------------------------

  function ReadRcptReply(w: World): Out<()> {
    var (w, reply) :- ReadReply(w);
    if reply.Class() == 2 then Out(Audit(w, RecipientAccepted(reply.code)), Ok(()))
    else Fail(Audit(w, RecipientRejected(reply.code)), Unexpected(SmtpOp.RcptTo, 2, reply))
  }

  function ReadRcptReplies(w: World, count: nat): Out<()>
    decreases count
  {
    if count == 0 then Out(w, Ok(()))
    else
      var (w, _) :- ReadRcptReply(w);
      ReadRcptReplies(w, count - 1)
  }

  function SendRcpts(w: World, to: seq<bytes>): Out<()>
    decreases |to|
  {
    if to == [] then Out(w, Ok(()))
    else
      var (w, _) :- WriteAll(w, FormatRcptTo(to[0]));
      var (w, _) :- ReadRcptReply(w);
      SendRcpts(w, to[1..])
  }

  function PipelineText(mailFromLine: bytes, to: seq<bytes>): bytes {
    mailFromLine + RcptLines(to) + FormatCommand(DATA)
  }

  // Everything in one write, then every reply.
  function PipelinedEnvelope(w: World, mailFromLine: bytes, to: seq<bytes>): Out<()> {
    var (w, _) :- Transition(w, SessionState.RcptTo);
    var (w, _) :- Transition(w, SessionState.Data);
    var (w, _) :- WriteAll(w, PipelineText(mailFromLine, to));
    var (w, _) :- Flush(w);
    var (w, reply) :- ExpectClass(w, 2, SmtpOp.MailFrom);
    var (w, _) :- ReadRcptReplies(Audit(w, MailFromAccepted(reply.code)), |to|);
    var (w, _) :- ExpectCode(w, 354, SmtpOp.Data);
    Out(w, Ok(()))
  }

  // One command, one reply.
  function SequentialEnvelope(w: World, mailFromLine: bytes, to: seq<bytes>): Out<()> {
    var (w, _) :- WriteAll(w, mailFromLine);
    var (w, reply) :- ExpectClass(w, 2, SmtpOp.MailFrom);
    var (w, _) :- Transition(Audit(w, MailFromAccepted(reply.code)), SessionState.RcptTo);
    var (w, _) :- SendRcpts(w, to);
    var (w, _) :- Transition(w, SessionState.Data);
    var (w, _) :- WriteAll(w, FormatCommand(DATA));
    var (w, _) :- ExpectCode(w, 354, SmtpOp.Data);
    Out(w, Ok(()))
  }

  function RunEnvelope(w: World, mailFromLine: bytes, to: seq<bytes>): Out<()> {
    var (w, _) :- Transition(w, SessionState.MailFrom);
    if AdvertisesPipelining(w.capabilities) then PipelinedEnvelope(w, mailFromLine, to)
    else SequentialEnvelope(w, mailFromLine, to)
  }

  datatype SendOutcome = SendOutcome(code: nat, serverMessage: bytes)

  function FinishMessage(w: World): Out<SendOutcome> {
    var (w, reply) :- ExpectClass(w, 2, SmtpOp.Data);
    var (w, _) :- Transition(Audit(w, MessageAccepted(reply.code)), SessionState.MailFrom);
    Out(w, Ok(SendOutcome(reply.code, reply.JoinedText())))
  }

  function CheckPolicy(env: Env, w: World, from: bytes, to: seq<bytes>, size: nat): Out<()> {
    if env.checkSender(from) && env.checkRecipients(to) && env.checkSize(size) then Out(w, Ok(()))
    else Out(w, Err(PolicyRejected))
  }

  predicate ValidEnvelope(from: bytes, to: seq<bytes>) {
    ValidAddress(from) && to != [] && forall addr <- to :: ValidAddress(addr)
  }

  predicate ValidEnvelopeUtf8(from: bytes, to: seq<bytes>) {
    ValidAddressUtf8(from) && to != [] && forall addr <- to :: ValidAddressUtf8(addr)
  }

  // send_mail and send_mail_bytes, which differ only in the type of the body.
  function SendMail(env: Env, w: World, from: bytes, to: seq<bytes>, body: bytes): Out<SendOutcome> {
    if !ValidEnvelope(from, to) then Out(w, Err(InvalidInput(BadArgument)))
    else
      var (w, _) :- AssertStateIn(w, {Authentication, SessionState.MailFrom});
      var (w, _) :- CheckPolicy(env, w, from, to, |body|);
      var (w, _) :- RunEnvelope(w, FormatMailFrom(from), to);
      var (w, _) :- WriteAll(w, DotStuffing.Payload(body));
      FinishMessage(w)
  }

  function SendMailUtf8(env: Env, w: World, from: bytes, to: seq<bytes>, body: bytes): Out<SendOutcome> {
    if !ValidEnvelopeUtf8(from, to) then Out(w, Err(InvalidInput(BadArgument)))
    else
      var (w, _) :- AssertStateIn(w, {Authentication, SessionState.MailFrom});
      if !Advertises(w.capabilities, KW_SMTPUTF8) then Fail(w, ExtensionUnavailable(KW_SMTPUTF8))
      else
        var (w, _) :- CheckPolicy(env, w, from, to, |body|);
        var (w, _) :- RunEnvelope(w, FormatMailFromUtf8(from), to);
        var (w, _) :- WriteAll(w, DotStuffing.Payload(body));
        FinishMessage(w)
  }

  // The chunks a body source yields; a source that is not `whole` fails after them.
  function StreamBody(w: World, fed: bytes, chunks: seq<bytes>, whole: bool): Out<()>
    decreases |chunks|
  {
    if chunks == [] then
      if whole then WriteAll(w, DotStuffing.Terminator(EndsWithCrlf(fed))) else Fail(w, Io)
    else
      var (w, _) :- WriteAll(w, DotStuffing.StuffedChunk(fed, chunks[0]));
      StreamBody(w, fed + chunks[0], chunks[1..], whole)
  }

  function SendMailStream(
      env: Env, w: World, from: bytes, to: seq<bytes>, chunks: seq<bytes>, whole: bool): Out<SendOutcome>
  {
    if !ValidEnvelope(from, to) then Out(w, Err(InvalidInput(BadArgument)))
    else
      var (w, _) :- AssertStateIn(w, {Authentication, SessionState.MailFrom});
      var (w, _) :- CheckPolicy(env, w, from, to, env.usizeMax);
      var (w, _) :- RunEnvelope(w, FormatMailFrom(from), to);
      var (w, _) :- StreamBody(w, [], chunks, whole);
      FinishMessage(w)
  }

  // ---------------------------------------------------------------------------
  // Leaving
  // ---------------------------------------------------------------------------

  function QuitExchange(w: World): Out<()> {
    var (w, _) :- Transition(w, SessionState.Quit);
    var (w, _) :- WriteAll(w, FormatCommand(QUIT));
    var (w, _) :- ExpectCode(w, 221, SmtpOp.Quit);
    Out(w, Ok(()))
  }

  function DoQuit(w: World): Out<()> {
    if w.state == Closed then Out(w, Ok(()))
    else
      var sent := QuitExchange(w);
      var closed := NextSucceeds(sent.w.net);
      var w := Close(sent.w.(net := Logged(sent.w.net, ShutDown)));
      if sent.r.Ok? && closed then Out(Audit(w, QuitCompleted), Ok(()))
      else Out(Audit(w, SessionAborted), if sent.r.Err? then sent.r else Err(Io))
  }
}
