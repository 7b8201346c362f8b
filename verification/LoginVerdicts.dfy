// Which mechanism a login uses, what it may put on the wire, and what a refused login reports.

module LoginVerdicts {
  import opened Octets
  import opened Errors
  import opened EnhancedStatusCodes
  import opened Session
  import opened Commands
  import opened Replies
  import opened Scram
  import opened World
  import opened Pipelining
  import opened ReplyValues
  import opened SentBytes
  import opened Runs
  import Base64
  import Responder

  const N_PLAIN: bytes := "PLAIN"
  const N_LOGIN: bytes := "LOGIN"
  const N_XOAUTH2: bytes := "XOAUTH2"
  const N_OAUTHBEARER: bytes := "OAUTHBEARER"
  const N_SCRAM: bytes := "SCRAM-SHA-256"
  const AUTH_SPACE: bytes := "AUTH "

  function NameOf(mechanism: AuthMechanism): bytes {
    match mechanism
    case Plain => N_PLAIN
    case Login => N_LOGIN
    case XOAuth2 => N_XOAUTH2
    case OAuthBearer => N_OAUTHBEARER
    case ScramSha256 => N_SCRAM
  }

  lemma NamesAre(mechanism: AuthMechanism)
    ensures mechanism.Name() == NameOf(mechanism)
  {
  }

  // ---------------------------------------------------------------------------
  // What a login may write
  // ---------------------------------------------------------------------------

  function Written(wire: Wire): bytes {
    match wire
    case Wrote(data) => data
    case WriteFailed(data) => data
    case _ => []
  }

  predicate IsWrite(wire: Wire) {
    wire.Wrote? || wire.WriteFailed?
  }

  // More writes, none of which holds a space, so none of which is a command with an argument.
  predicate NoCommands(t: seq<Wire>, t': seq<Wire>) {
    && t <= t'
    && forall i :: |t| <= i < |t'| ==> IsWrite(t'[i]) && Free(Written(t'[i]), ' ')
  }

  // Nothing, or a write that starts like this and then no commands.
  predicate OpensWith(t: seq<Wire>, t': seq<Wire>, opening: bytes) {
    t == t' ||
    (|t| < |t'| && t == t'[..|t|] && IsWrite(t'[|t|]) && StartsWith(Written(t'[|t|]), opening)
     && NoCommands(t'[..|t| + 1], t'))
  }

  function Attempt(w: World, data: bytes): Wire {
    if NextSucceeds(w.net) then Wrote(data) else WriteFailed(data)
  }

  lemma WriteTrace(w: World, data: bytes)
    ensures WriteAll(w, data).w.net.trace == w.net.trace + [Attempt(w, data)]
    ensures WriteAll(w, data).r.Ok? <==> NextSucceeds(w.net)
  {
    hide Responder.Feed;
  }

  lemma ReadTrace(w: World, expected: nat, during: SmtpOp)
    ensures ReadReply(w).w.net.trace == w.net.trace
    ensures ExpectAuth(w, expected, during).w.net.trace == w.net.trace
  {
    hide TakeReplyFrom;
  }

  lemma FreeData(x: bytes)
    ensures Free(Base64.Encode(x) + CRLF, ' ') && Free(CRLF, ' ') && Free([SOH] + CRLF, ' ')
  {
    hide Base64.Encode;
    EncodedFree(x, ' ');
    FreeSplit(Base64.Encode(x), CRLF, ' ');
  }

  lemma MoreData(t: seq<Wire>, t': seq<Wire>, wire: Wire)
    requires NoCommands(t, t') && IsWrite(wire) && Free(Written(wire), ' ')
    ensures NoCommands(t, t' + [wire])
  {
  }

  lemma Opens(t: seq<Wire>, first: Wire, t': seq<Wire>, opening: bytes)
    requires IsWrite(first) && StartsWith(Written(first), opening) && NoCommands(t + [first], t')
    ensures OpensWith(t, t', opening) && |t'| > |t|
  {
    assert t'[..|t| + 1] == t + [first];
    assert t'[..|t|] == t;
  }

  lemma Openings(x: bytes)
    ensures StartsWith(AUTH_PLAIN + x + CRLF, AUTH_SPACE + N_PLAIN)
    ensures StartsWith(AUTH_LOGIN + CRLF, AUTH_SPACE + N_LOGIN)
    ensures StartsWith(AUTH_XOAUTH2 + x + CRLF, AUTH_SPACE + N_XOAUTH2)
    ensures StartsWith(AUTH_OAUTHBEARER + x + CRLF, AUTH_SPACE + N_OAUTHBEARER)
    ensures StartsWith(AUTH_SCRAM + x + CRLF, AUTH_SPACE + N_SCRAM)
  {
    Opening(AUTH_PLAIN, x + CRLF, AUTH_SPACE + N_PLAIN);
    Opening(AUTH_LOGIN, CRLF, AUTH_SPACE + N_LOGIN);
    Opening(AUTH_XOAUTH2, x + CRLF, AUTH_SPACE + N_XOAUTH2);
    Opening(AUTH_OAUTHBEARER, x + CRLF, AUTH_SPACE + N_OAUTHBEARER);
    Opening(AUTH_SCRAM, x + CRLF, AUTH_SPACE + N_SCRAM);
    Assoc(AUTH_PLAIN, x, CRLF);
    Assoc(AUTH_XOAUTH2, x, CRLF);
    Assoc(AUTH_OAUTHBEARER, x, CRLF);
    Assoc(AUTH_SCRAM, x, CRLF);
  }

  lemma Opening(verb: bytes, rest: bytes, opening: bytes)
    requires |opening| <= |verb| && verb[..|opening|] == opening
    ensures StartsWith(verb + rest, opening)
  {
    assert (verb + rest)[..|opening|] == verb[..|opening|];
  }

  lemma PlainTrace(w: World, user: bytes, pass: bytes)
    ensures var out := RunAuthPlain(w, user, pass);
      OpensWith(w.net.trace, out.w.net.trace, AUTH_SPACE + N_PLAIN) && |out.w.net.trace| > |w.net.trace|
  {
    hide WriteAll, ExpectAuth, InitialResponse, StartsWith, OpensWith;
    var x := InitialResponse(Plain, user, pass);
    var line := AUTH_PLAIN + x + CRLF;
    Openings(x);
    WriteTrace(w, line);
    ReadTrace(WriteAll(w, line).w, 235, AuthPlain);
    Opens(w.net.trace, Attempt(w, line), w.net.trace + [Attempt(w, line)], AUTH_SPACE + N_PLAIN);
  }

  lemma LoginTrace(w: World, user: bytes, pass: bytes)
    ensures var out := RunAuthLogin(w, user, pass);
      OpensWith(w.net.trace, out.w.net.trace, AUTH_SPACE + N_LOGIN) && |out.w.net.trace| > |w.net.trace|
  {
    hide WriteAll, ExpectAuth, Base64.Encode, StartsWith, OpensWith, NoCommands;
    var out, t := RunAuthLogin(w, user, pass), w.net.trace;
    var line, u, p := AUTH_LOGIN + CRLF, Base64.Encode(user) + CRLF, Base64.Encode(pass) + CRLF;
    Openings([]);
    FreeData(user);
    FreeData(pass);
    WriteTrace(w, line);
    var w1 := WriteAll(w, line).w;
    ReadTrace(w1, 334, AuthLogin);
    var w2 := ExpectAuth(w1, 334, AuthLogin).w;
    WriteTrace(w2, u);
    var w3 := WriteAll(w2, u).w;
    ReadTrace(w3, 334, AuthLogin);
    var w4 := ExpectAuth(w3, 334, AuthLogin).w;
    WriteTrace(w4, p);
    ReadTrace(WriteAll(w4, p).w, 235, AuthLogin);
    var t1 := t + [Attempt(w, line)];
    SameTrace(t1);
    MoreData(t1, t1, Attempt(w2, u));
    MoreData(t1, t1 + [Attempt(w2, u)], Attempt(w4, p));
    Opens(t, Attempt(w, line), out.w.net.trace, AUTH_SPACE + N_LOGIN);
  }

  lemma SameTrace(t: seq<Wire>)
    ensures NoCommands(t, t)
  {
  }

  lemma BearerTrace(w: World, line: bytes, abort: bytes, during: SmtpOp, opening: bytes)
    requires StartsWith(line, opening) && Free(abort, ' ')
    ensures var out := RunAuthBearer(w, line, abort, during);
      OpensWith(w.net.trace, out.w.net.trace, opening) && |out.w.net.trace| > |w.net.trace|
  {
    hide WriteAll, ReadReply, StartsWith, OpensWith, NoCommands, Rejection, AuthFailure;
    var out, t := RunAuthBearer(w, line, abort, during), w.net.trace;
    WriteTrace(w, line);
    var w1 := WriteAll(w, line).w;
    ReadTrace(w1, 235, during);
    var w2 := ReadReply(w1).w;
    WriteTrace(w2, abort);
    ReadTrace(WriteAll(w2, abort).w, 235, during);
    var t1 := t + [Attempt(w, line)];
    SameTrace(t1);
    MoreData(t1, t1, Attempt(w2, abort));
    Opens(t, Attempt(w, line), out.w.net.trace, opening);
  }

  lemma FinishTrace(w: World, final: ClientFinal, t: seq<Wire>)
    requires NoCommands(t, w.net.trace)
    ensures NoCommands(t, ScramFinish(w, final).w.net.trace)
  {
    hide WriteAll, ReadReply, ExpectAuth, Base64.Encode, NoCommands, DecodeChallenge, VerifyServerFinal, AuthFailure;
    var line := Base64.Encode(final.message) + CRLF;
    FreeData(final.message);
    WriteTrace(w, line);
    MoreData(t, w.net.trace, Attempt(w, line));
    var w1 := WriteAll(w, line).w;
    ReadTrace(w1, 235, AuthScramSha256);
    var w2 := ReadReply(w1).w;
    WriteTrace(w2, CRLF);
    MoreData(t, w2.net.trace, Attempt(w2, CRLF));
    ReadTrace(WriteAll(w2, CRLF).w, 235, AuthScramSha256);
  }

  lemma ScramTrace(env: Env, w: World, user: bytes, password: bytes, entropy: Option<bytes>)
    ensures var out := RunAuthScram(env, w, user, password, entropy);
      && OpensWith(w.net.trace, out.w.net.trace, AUTH_SPACE + N_SCRAM)
      && (out.r.Ok? ==> |out.w.net.trace| > |w.net.trace|)
  {
    hide WriteAll, ReadReply, ScramFinish, ParseServerFirst, DecodeChallenge, Base64.Encode, BuildClientFirst,
      ComputeClientFinal, StartsWith, NoCommands, AuthFailure;
    if entropy.Some? {
      var nonce := Base64.Encode(entropy.value);
      var x := Base64.Encode(BuildClientFirst(user, nonce));
      var line := AUTH_SCRAM + x + CRLF;
      Openings(x);
      WriteTrace(w, line);
      var w1 := WriteAll(w, line).w;
      ReadTrace(w1, 334, AuthScramSha256);
      var r := ReadReply(w1);
      var t1 := w.net.trace + [Attempt(w, line)];
      SameTrace(t1);
      if r.r.Ok? && r.r.value.code == 334 {
        var challenge := DecodeChallenge(r.r.value.JoinedText());
        if challenge.Some? && ParseServerFirst(challenge.value, nonce).Ok? {
          var first := ParseServerFirst(challenge.value, nonce).value;
          FinishTrace(r.w, ComputeClientFinal(env.crypto, user, password, nonce, first, challenge.value), t1);
        }
      }
      Opens(w.net.trace, Attempt(w, line), RunAuthScram(env, w, user, password, entropy).w.net.trace,
            AUTH_SPACE + N_SCRAM);
    }
  }

  lemma AuthTrace(env: Env, w: World, mechanism: AuthMechanism, user: bytes, credential: bytes, entropy: Option<bytes>)
    ensures var out := RunAuth(env, w, mechanism, user, credential, entropy);
      && OpensWith(w.net.trace, out.w.net.trace, AUTH_SPACE + NameOf(mechanism))
      && (out.r.Ok? ==> |out.w.net.trace| > |w.net.trace|)
  {
    hide RunAuthPlain, RunAuthLogin, RunAuthBearer, RunAuthScram, InitialResponse, StartsWith, OpensWith;
    match mechanism
    case Plain => PlainTrace(w, user, credential);
    case Login => LoginTrace(w, user, credential);
    case XOAuth2 =>
      var x := InitialResponse(XOAuth2, user, credential);
      Openings(x);
      FreeData([]);
      BearerTrace(w, AUTH_XOAUTH2 + x + CRLF, CRLF, AuthXOAuth2, AUTH_SPACE + N_XOAUTH2);
    case OAuthBearer =>
      var x := InitialResponse(OAuthBearer, user, credential);
      Openings(x);
      FreeData([]);
      BearerTrace(w, AUTH_OAUTHBEARER + x + CRLF, [SOH] + CRLF, AuthOAuthBearer, AUTH_SPACE + N_OAUTHBEARER);
    case ScramSha256 => ScramTrace(env, w, user, credential, entropy);
  }

  // ---------------------------------------------------------------------------
  // Which mechanism
  // ---------------------------------------------------------------------------

  // What a login by this mechanism does: its command is the only one that is ever written, and
  // success is logged under its name.
  ghost predicate LogsInBy(w: World, out: Out<()>, name: bytes) {
    && OpensWith(w.net.trace, out.w.net.trace, AUTH_SPACE + name)
    && (out.r.Ok? ==>
          && |out.w.net.trace| > |w.net.trace|
          && out.w.state == SessionState.MailFrom && out.w.audit == w.audit + [AuthCompleted(name)])
  }

  // A login that is given up with nothing written.
  predicate NotTried(w: World, out: Out<()>) {
    out.r.Err? && out.w.net.trace == w.net.trace
  }

  // A mechanism of the caller's choice is used only if the server advertises it.
  lemma LoginWithUses(
      env: Env, w: World, mechanism: AuthMechanism, user: bytes, credential: bytes, entropy: Option<bytes>)
    ensures var out := LoginWith(env, w, mechanism, user, credential, entropy);
      && LogsInBy(w, out, NameOf(mechanism))
      && (!(ValidCredentials(mechanism, user, credential) && w.state == Authentication) ==>
            out.w == w && out.r.Err? && out.r.error.IsRefusal())
      && (ValidCredentials(mechanism, user, credential) && w.state == Authentication
            && !AdvertisesAuth(w.capabilities, NameOf(mechanism)) ==>
            out == Out(Abort(w), Err(UnsupportedMechanism)) && NotTried(w, out))
  {
    hide RunAuth, ValidCredentials, AdvertisesAuth, OpensWith, AuthMechanism.Name;
    NamesAre(mechanism);
    AuthTrace(env, w, mechanism, user, credential, entropy);
    assert OpensWith(w.net.trace, w.net.trace, AUTH_SPACE + NameOf(mechanism)) by {
      NothingOpens(w.net.trace, AUTH_SPACE + NameOf(mechanism));
    }
    if AdvertisesAuth(w.capabilities, mechanism.Name()) && w.state == Authentication {
      var d := LoginWithLog(env, w, mechanism, user, credential, entropy);
    }
  }

  lemma NothingOpens(t: seq<Wire>, opening: bytes)
    ensures OpensWith(t, t, opening)
  {
  }

  // The strongest mechanism the server offers, of those a password is good for.
  function Strongest(caps: seq<bytes>): Option<bytes> {
    if AdvertisesAuth(caps, N_SCRAM) then Some(N_SCRAM)
    else if AdvertisesAuth(caps, N_PLAIN) then Some(N_PLAIN)
    else if AdvertisesAuth(caps, N_LOGIN) then Some(N_LOGIN)
    else None
  }

  // A login uses the strongest mechanism, or none. To a server that offers SCRAM-SHA-256 no AUTH
  // PLAIN or AUTH LOGIN line is ever written, whatever becomes of the exchange.
  lemma LoginChoosesStrongest(env: Env, w: World, user: bytes, pass: bytes, entropy: Option<bytes>)
    ensures var out := DoLogin(env, w, user, pass, entropy); var best := Strongest(w.capabilities);
      if best.Some? then LogsInBy(w, out, best.value)
      else NotTried(w, out) && (out.r.error.IsRefusal() || out.r.error == UnsupportedMechanism)
    ensures AdvertisesAuth(w.capabilities, N_SCRAM) ==>
      NoPassword(w.net.trace, DoLogin(env, w, user, pass, entropy).w.net.trace)
  {
    hide LoginWith, AdvertisesAuth, AuthMechanism.Name, OpensWith, NoPassword;
    NamesAre(ScramSha256);
    NamesAre(Plain);
    NamesAre(Login);
    var chosen := SelectAuthMechanism(w.capabilities);
    if chosen.Some? {
      LoginWithUses(env, w, chosen.value, user, pass, entropy);
    }
    if AdvertisesAuth(w.capabilities, N_SCRAM) {
      OnlyScram(w.net.trace, DoLogin(env, w, user, pass, entropy).w.net.trace);
    }
  }

  predicate NoPassword(t: seq<Wire>, t': seq<Wire>) {
    && t <= t'
    && forall i :: |t| <= i < |t'| ==>
      !StartsWith(Written(t'[i]), AUTH_SPACE + N_PLAIN) && !StartsWith(Written(t'[i]), AUTH_SPACE + N_LOGIN)
  }

  lemma OnlyScram(t: seq<Wire>, t': seq<Wire>)
    requires OpensWith(t, t', AUTH_SPACE + N_SCRAM)
    ensures NoPassword(t, t')
  {
    forall i | |t| <= i < |t'|
      ensures !StartsWith(Written(t'[i]), AUTH_SPACE + N_PLAIN) && !StartsWith(Written(t'[i]), AUTH_SPACE + N_LOGIN)
    {
      var data := Written(t'[i]);
      if i == |t| {
        SixthByte(data);
      } else {
        Spaceless(data, AUTH_SPACE + N_PLAIN);
        Spaceless(data, AUTH_SPACE + N_LOGIN);
      }
    }
  }

  lemma SixthByte(data: bytes)
    requires StartsWith(data, AUTH_SPACE + N_SCRAM)
    ensures !StartsWith(data, AUTH_SPACE + N_PLAIN) && !StartsWith(data, AUTH_SPACE + N_LOGIN)
  {
    assert data[5] == (AUTH_SPACE + N_SCRAM)[5] == 'S';
  }

  lemma Spaceless(data: bytes, opening: bytes)
    requires Free(data, ' ') && |opening| > 4 && opening[4] == ' '
    ensures !StartsWith(data, opening)
  {
  }

  // ---------------------------------------------------------------------------
  // What a refused login has sent, and what it reports
  // ---------------------------------------------------------------------------

  // How many of the expected codes the server gave in turn, and the first reply that was another.
  datatype Told = Told(answered: nat, other: Option<NextReply>)

  function Answered(stream: bytes, ending: Ending, expected: seq<nat>): (t: Told)
    ensures t.answered <= |expected| && (t.other.Some? ==> t.answered < |expected|)
    decreases |expected|
  {
    if expected == [] then Told(0, None)
    else
      var r := TakeReply(stream, ending);
      if r.GotReply? && r.code == expected[0] then
        var t := Answered(r.rest, ending, expected[1..]);
        Told(t.answered + 1, t.other)
      else Told(0, Some(r))
  }

  ghost predicate RefusedBy(e: Error, enabled: bool, during: SmtpOp, expectedClass: nat, r: NextReply) {
    match r
    case NoReply(e') => e == e'
    case GotReply(code, lines, _) => AuthErrorFor(e, enabled, during, expectedClass, code, lines)
  }

  lemma FiveHundreds(code: nat)
    ensures 500 <= code < 600 <==> code / 100 == 5
  {
  }

  lemma AuthReads(w: World, expected: nat, during: SmtpOp)
    requires w.state != Closed
    ensures var out := ExpectAuth(w, expected, during); var r := TakeReply(w.net.input, w.net.ending);
      if r.GotReply? && r.code == expected then out == Out(w.(net := w.net.(input := r.rest)), Ok(()))
      else
        && out.r.Err? && RefusedBy(out.r.error, w.enhanced, during, expected / 100, r)
        && out.w == Abort(w.(net := w.net.(input := [])))
  {
    hide TakeReplyFrom, ExpectCode, Tells;
    ExpectedCode(w, expected, during);
    var r := TakeReply(w.net.input, w.net.ending);
    PlainErrors(w.net.input, w.net.ending);
    if r.GotReply? {
      FiveHundreds(r.code);
    }
  }

  // The reader's own errors are none that a login converts.
  lemma {:induction false} ReaderErrors(stream: bytes, ending: Ending, code: Option<nat>, lines: seq<bytes>)
    requires |lines| <= MAX_REPLY_LINES
    ensures var r := TakeReplyFrom(stream, ending, code, lines); r.NoReply? ==> !r.error.UnexpectedCode?
    decreases MAX_REPLY_LINES - |lines|
  {
    hide FindCrlf;
    if |lines| < MAX_REPLY_LINES {
      var l := TakeLine(stream, ending);
      if l.Line? {
        var p := ParseReplyLine(l.line);
        if p.Ok? && !p.value.isLast {
          ReaderErrors(l.rest, ending, Some(p.value.code), lines + [p.value.text]);
        }
      }
    }
  }

  lemma PlainErrors(stream: bytes, ending: Ending)
    ensures TakeReply(stream, ending).NoReply? ==> !TakeReply(stream, ending).error.UnexpectedCode?
  {
    hide TakeReplyFrom;
    ReaderErrors(stream, ending, None, []);
  }

  // The codes PLAIN and LOGIN wait for, line by line.
  function Expects(mechanism: AuthMechanism): seq<nat> {
    if mechanism.Login? then [334, 334, 235] else [235]
  }

  function During(mechanism: AuthMechanism): SmtpOp {
    match mechanism
    case Plain => AuthPlain
    case Login => AuthLogin
    case XOAuth2 => AuthXOAuth2
    case OAuthBearer => AuthOAuthBearer
    case ScramSha256 => AuthScramSha256
  }

  // The session given up after these lines.
  function GivenUpAfter(w: World, lines: seq<bytes>): World {
    Abort(After(w, lines, []))
  }

  // PLAIN and LOGIN: the line that got the wrong answer is the last one sent; a 5xx is reported as
  // a rejection with its code, status and text, another reply as unexpected.
  lemma PasswordRefused(env: Env, w: World, mechanism: AuthMechanism, user: bytes, pass: bytes, entropy: Option<bytes>)
    requires Reliable(w) && w.state != Closed && (mechanism.Plain? || mechanism.Login?)
    ensures var out := RunAuth(env, w, mechanism, user, pass, entropy);
      var t := Answered(w.net.input, w.net.ending, Expects(mechanism));
      && (out.r.Ok? <==> t.other.None?)
      && (out.r.Err? ==>
            && RefusedBy(out.r.error, w.enhanced, During(mechanism), Expects(mechanism)[t.answered] / 100,
                         t.other.value)
            && out.w == GivenUpAfter(w, AuthLines(mechanism, user, pass)[..t.answered + 1]))
  {
    hide RunAuthPlain, RunAuthLogin, InitialResponse, TakeReplyFrom, RefusedBy, Base64.Encode, GivenUpAfter;
    if mechanism.Plain? {
      PlainRefused(w, user, pass);
      var lines := AuthLines(mechanism, user, pass);
      assert lines[..1] == lines;
    } else {
      LoginRefused(w, user, pass);
    }
  }

  lemma FirstAnswer(stream: bytes, ending: Ending, code: nat, more: seq<nat>)
    ensures Answered(stream, ending, [code] + more) ==
      var r := TakeReply(stream, ending);
      if r.GotReply? && r.code == code then
        var t := Answered(r.rest, ending, more);
        Told(t.answered + 1, t.other)
      else Told(0, Some(r))
  {
    hide TakeReplyFrom;
    assert ([code] + more)[1..] == more;
  }

  lemma PlainRefused(w: World, user: bytes, pass: bytes)
    requires Reliable(w) && w.state != Closed
    ensures var out := RunAuthPlain(w, user, pass); var t := Answered(w.net.input, w.net.ending, [235]);
      && (out.r.Ok? <==> t.other.None?)
      && (out.r.Err? ==>
            && t.answered == 0 && RefusedBy(out.r.error, w.enhanced, AuthPlain, 2, t.other.value)
            && out.w == GivenUpAfter(w, [AUTH_PLAIN + InitialResponse(Plain, user, pass)]))
  {
    hide WriteAll, ExpectAuth, TakeReplyFrom, RefusedBy, InitialResponse;
    var line := AUTH_PLAIN + InitialResponse(Plain, user, pass);
    AfterNothing(w);
    Asks(w, [], w.net.input, line);
    assert [] + [line] == [line];
    FirstAnswer(w.net.input, w.net.ending, 235, []);
    AuthReads(After(w, [line], w.net.input), 235, AuthPlain);
  }

  lemma LoginRefused(w: World, user: bytes, pass: bytes)
    requires Reliable(w) && w.state != Closed
    ensures var out := RunAuthLogin(w, user, pass); var expected := [334, 334, 235];
      var t := Answered(w.net.input, w.net.ending, expected);
      && (out.r.Ok? <==> t.other.None?)
      && (out.r.Err? ==>
            && RefusedBy(out.r.error, w.enhanced, AuthLogin, expected[t.answered] / 100, t.other.value)
            && out.w == GivenUpAfter(w, [AUTH_LOGIN, Base64.Encode(user), Base64.Encode(pass)][..t.answered + 1]))
  {
    hide WriteAll, ExpectAuth, TakeReplyFrom, RefusedBy, Base64.Encode, Answered, GivenUpAfter, After;
    var u, p, ending := Base64.Encode(user), Base64.Encode(pass), w.net.ending;
    var all := [AUTH_LOGIN, u, p];
    AfterNothing(w);
    Asks(w, [], w.net.input, AUTH_LOGIN);
    assert [] + [AUTH_LOGIN] == all[..1] && all[..1] + [u] == all[..2] && all[..2] + [p] == all[..3] && all[..3] == all;
    assert [334] + [334, 235] == [334, 334, 235] && [334] + [235] == [334, 235] && [235] + [] == [235];
    FirstAnswer(w.net.input, ending, 334, [334, 235]);
    AuthReadsAfter(w, all[..1], w.net.input, 334, AuthLogin);
    var r1 := TakeReply(w.net.input, ending);
    if r1.GotReply? && r1.code == 334 {
      Asks(w, all[..1], r1.rest, u);
      FirstAnswer(r1.rest, ending, 334, [235]);
      AuthReadsAfter(w, all[..2], r1.rest, 334, AuthLogin);
      var r2 := TakeReply(r1.rest, ending);
      if r2.GotReply? && r2.code == 334 {
        Asks(w, all[..2], r2.rest, p);
        FirstAnswer(r2.rest, ending, 235, []);
        NothingExpected(TakeReply(r2.rest, ending), ending);
        AuthReadsAfter(w, all[..3], r2.rest, 235, AuthLogin);
      }
    }
  }

  lemma AuthReadsAfter(w: World, lines: seq<bytes>, rest: bytes, expected: nat, during: SmtpOp)
    requires w.state != Closed
    ensures var out := ExpectAuth(After(w, lines, rest), expected, during); var r := TakeReply(rest, w.net.ending);
      if r.GotReply? && r.code == expected then out == Out(After(w, lines, r.rest), Ok(()))
      else
        && out.r.Err? && RefusedBy(out.r.error, w.enhanced, during, expected / 100, r)
        && out.w == GivenUpAfter(w, lines)
  {
    hide ExpectAuth, TakeReplyFrom, RefusedBy, After, GivenUpAfter;
    AfterIs(w, lines, rest);
    AuthReads(After(w, lines, rest), expected, during);
    GivenUpFrom(w, lines, rest);
    var r := TakeReply(rest, w.net.ending);
    if r.GotReply? {
      AfterOn(w, lines, rest, r.rest);
    }
  }

  lemma NothingExpected(r: NextReply, ending: Ending)
    ensures r.GotReply? ==> Answered(r.rest, ending, []) == Told(0, None)
  {
  }

  lemma GivenUpFrom(w: World, lines: seq<bytes>, rest: bytes)
    requires w.state != Closed
    ensures var w' := After(w, lines, rest);
      Abort(w') == Abort(w'.(net := w'.net.(input := []))) == GivenUpAfter(w, lines)
  {
  }

  // XOAUTH2 and OAUTHBEARER: a 334 is answered by the line that gives the exchange up, whatever
  // comes next is reported as a rejection; any other refusal ends the exchange at once.
  function AbortLine(mechanism: AuthMechanism): bytes {
    if mechanism.OAuthBearer? then ['\U{1}'] else []
  }

  lemma TokenRefused(env: Env, w: World, mechanism: AuthMechanism, user: bytes, token: bytes, entropy: Option<bytes>)
    requires Reliable(w) && w.state != Closed && (mechanism.XOAuth2? || mechanism.OAuthBearer?)
    ensures var out := RunAuth(env, w, mechanism, user, token, entropy); var lines := AuthLines(mechanism, user, token);
      var r := TakeReply(w.net.input, w.net.ending);
      if r.GotReply? && r.code == 235 then out.r.Ok?
      else if r.GotReply? && r.code == 334 then
        var last := TakeReply(r.rest, w.net.ending);
        && out.r.Err? && out.w == GivenUpAfter(w, lines + [AbortLine(mechanism)])
        && match last
           case NoReply(e) => out.r.error == e
           case GotReply(code, text, _) => RejectedFor(out.r.error, w.enhanced, code, text)
      else out.r.Err? && RefusedBy(out.r.error, w.enhanced, During(mechanism), 2, r) && out.w == GivenUpAfter(w, lines)
  {
    hide RunAuthBearer, InitialResponse, TakeReplyFrom, RefusedBy, RejectedFor, GivenUpAfter;
    var verb := if mechanism.XOAuth2? then AUTH_XOAUTH2 else AUTH_OAUTHBEARER;
    var line := verb + InitialResponse(mechanism, user, token);
    assert [] + CRLF == CRLF;
    BearerRefused(w, line, AbortLine(mechanism), During(mechanism));
  }

  lemma BearerRefused(w: World, line: bytes, abort: bytes, during: SmtpOp)
    requires Reliable(w) && w.state != Closed
    ensures var out := RunAuthBearer(w, line + CRLF, abort + CRLF, during);
      var r := TakeReply(w.net.input, w.net.ending);
      if r.GotReply? && r.code == 235 then out.r.Ok?
      else if r.GotReply? && r.code == 334 then
        var last := TakeReply(r.rest, w.net.ending);
        && out.r.Err? && out.w == GivenUpAfter(w, [line] + [abort])
        && match last
           case NoReply(e) => out.r.error == e
           case GotReply(code, text, _) => RejectedFor(out.r.error, w.enhanced, code, text)
      else out.r.Err? && RefusedBy(out.r.error, w.enhanced, during, 2, r) && out.w == GivenUpAfter(w, [line])
  {
    hide WriteAll, ReadReply, TakeReplyFrom, Tells, AbandonBearer, AuthFailure, AuthErrorFor, RejectedFor, After;
    AfterNothing(w);
    Asks(w, [], w.net.input, line);
    assert [] + [line] == [line];
    var w1 := After(w, [line], w.net.input);
    AfterIs(w, [line], w.net.input);
    Read(w1);
    var r := TakeReply(w.net.input, w.net.ending);
    GivenUpFrom(w, [line], w.net.input);
    if r.GotReply? {
      AfterOn(w, [line], w.net.input, r.rest);
      GivenUpFrom(w, [line], r.rest);
      FailureTells(during, 2, ReadReply(w1).r.value, w.enhanced, r.lines);
      if r.code == 334 {
        Abandoned(w, line, abort, r.rest);
      }
    }
  }

  lemma AfterIs(w: World, lines: seq<bytes>, rest: bytes)
    ensures var w' := After(w, lines, rest);
      && w'.net.input == rest && w'.net.ending == w.net.ending && w'.enhanced == w.enhanced && w'.state == w.state
      && w'.net.outcomes == w.net.outcomes && w'.net.peer == w.net.peer
  {
  }

  lemma AfterOn(w: World, lines: seq<bytes>, rest: bytes, rest': bytes)
    ensures var w' := After(w, lines, rest); w'.(net := w'.net.(input := rest')) == After(w, lines, rest')
  {
  }

  // A reply outside the exchange is reported as what it is.
  lemma FailureTells(during: SmtpOp, expectedClass: nat, reply: Reply, enabled: bool, lines: seq<bytes>)
    requires Tells(enabled, lines, reply.enhanced, reply.JoinedText())
    ensures AuthErrorFor(AuthFailure(during, expectedClass, reply), enabled, during, expectedClass, reply.code, lines)
    ensures RejectedFor(Rejection(reply), enabled, reply.code, lines)
  {
    hide Tells;
    FiveHundreds(reply.code);
  }

  lemma Abandoned(w: World, line: bytes, abort: bytes, rest: bytes)
    requires Reliable(w) && w.state != Closed
    ensures var out := AbandonBearer(After(w, [line], rest), abort + CRLF); var last := TakeReply(rest, w.net.ending);
      && out.r.Err? && out.w == GivenUpAfter(w, [line] + [abort])
      && match last
         case NoReply(e) => out.r.error == e
         case GotReply(code, text, _) => RejectedFor(out.r.error, w.enhanced, code, text)
  {
    hide WriteAll, ReadReply, TakeReplyFrom, Tells, Rejection, RejectedFor, After;
    var lines := [line] + [abort];
    Asks(w, [line], rest, abort);
    var w2 := After(w, lines, rest);
    AfterIs(w, lines, rest);
    Read(w2);
    GivenUpFrom(w, lines, rest);
    var last := TakeReply(rest, w.net.ending);
    if last.GotReply? {
      AfterOn(w, lines, rest, last.rest);
      GivenUpFrom(w, lines, last.rest);
      FailureTells(SmtpOp.Quit, 2, ReadReply(w2).r.value, w.enhanced, last.lines);
    }
  }

  // SCRAM-SHA-256: a first reply that is not a 334 ends the exchange, with nothing more sent.
  lemma ScramRefused(env: Env, w: World, user: bytes, password: bytes, entropy: bytes)
    requires Reliable(w) && w.state != Closed
    ensures var out := RunAuthScram(env, w, user, password, Some(entropy));
      var r := TakeReply(w.net.input, w.net.ending);
      !(r.GotReply? && r.code == 334) ==>
        && out.r.Err? && RefusedBy(out.r.error, w.enhanced, AuthScramSha256, 3, r)
        && out.w == GivenUpAfter(w, [AUTH_SCRAM + Base64.Encode(BuildClientFirst(user, Base64.Encode(entropy)))])
  {
    hide WriteAll, ReadReply, TakeReplyFrom, Tells, Base64.Encode, BuildClientFirst, ScramFinish, DecodeChallenge,
      ParseServerFirst, ComputeClientFinal;
    var line := AUTH_SCRAM + Base64.Encode(BuildClientFirst(user, Base64.Encode(entropy)));
    AfterNothing(w);
    Asks(w, [], w.net.input, line);
    assert [] + [line] == [line];
    Read(After(w, [line], w.net.input));
    var r := TakeReply(w.net.input, w.net.ending);
    if r.GotReply? {
      FiveHundreds(r.code);
    }
  }
}
