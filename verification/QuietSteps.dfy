// The steps that log nothing unless they give the session up.

module QuietSteps {
  import opened Octets
  import opened Errors
  import opened Session
  import opened Commands
  import opened Replies
  import opened Scram
  import opened World
  import Responder
  import Base64

  // ---------------------------------------------------------------------------
  // Operations that log nothing unless they give the session up
  // ---------------------------------------------------------------------------

  predicate SameSession(w: World, w': World) {
    && w'.state == w.state && w'.audit == w.audit && w'.domain == w.domain
    && w'.capabilities == w.capabilities && w'.enhanced == w.enhanced
  }

  // On an error the session is closed, and one SessionAborted ends the log.
  predicate GivenUp(w: World, w': World, e: Error) {
    w'.state == Closed && w'.audit == w.audit + [SessionAborted] && !e.IsRefusal()
  }

  predicate Quiet<T>(w: World, out: Out<T>) {
    match out.r
    case Ok(_) => SameSession(w, out.w)
    case Err(e) => GivenUp(w, out.w, e)
  }

  lemma WriteAllQuiet(w: World, data: bytes)
    requires w.state != Closed
    ensures Quiet(w, WriteAll(w, data))
  {
    hide Responder.Feed;
  }

  lemma FlushQuiet(w: World)
    requires w.state != Closed
    ensures Quiet(w, Flush(w))
  {
  }

  lemma {:induction false} TakeReplyErrors(stream: bytes, ending: Ending, code: Option<nat>, lines: seq<bytes>)
    requires |lines| <= MAX_REPLY_LINES
    ensures var r := TakeReplyFrom(stream, ending, code, lines); r.NoReply? ==> !r.error.IsRefusal()
    decreases MAX_REPLY_LINES - |lines|
  {
    hide FindCrlf;
    if |lines| < MAX_REPLY_LINES {
      var l := TakeLine(stream, ending);
      if l.Line? {
        var p := ParseReplyLine(l.line);
        if p.Ok? && !p.value.isLast {
          TakeReplyErrors(l.rest, ending, Some(p.value.code), lines + [p.value.text]);
        }
      }
    }
  }

  lemma ReadReplyQuiet(w: World)
    requires w.state != Closed
    ensures Quiet(w, ReadReply(w))
  {
    hide TakeReplyFrom;
    TakeReplyErrors(w.net.input, w.net.ending, None, []);
  }

  lemma ExpectQuiet(w: World, expected: nat, during: SmtpOp)
    requires w.state != Closed
    ensures Quiet(w, ExpectCode(w, expected, during))
    ensures Quiet(w, ExpectClass(w, expected, during))
    ensures Quiet(w, ExpectAuth(w, expected, during))
  {
    hide ReadReply;
    ReadReplyQuiet(w);
  }

  lemma UpgradeQuiet(w: World)
    requires w.state != Closed
    ensures Quiet(w, UpgradeToTls(w))
  {
  }

  lemma AuthPlainQuiet(w: World, user: bytes, pass: bytes)
    requires w.state != Closed
    ensures Quiet(w, RunAuthPlain(w, user, pass))
  {
    hide WriteAll, ExpectAuth, InitialResponse;
    var line := AUTH_PLAIN + InitialResponse(Plain, user, pass) + CRLF;
    WriteAllQuiet(w, line);
    var w1 := WriteAll(w, line);
    if w1.r.Ok? {
      ExpectQuiet(w1.w, 235, AuthPlain);
    }
  }

  // A write and the reply to it.
  lemma WriteThenExpect(w: World, data: bytes, expected: nat, during: SmtpOp)
    requires w.state != Closed
    ensures Quiet(w, WriteAll(w, data))
    ensures WriteAll(w, data).r.Ok? ==> Quiet(w, ExpectAuth(WriteAll(w, data).w, expected, during))
  {
    hide WriteAll, ExpectAuth;
    WriteAllQuiet(w, data);
    if WriteAll(w, data).r.Ok? {
      ExpectQuiet(WriteAll(w, data).w, expected, during);
    }
  }

  lemma WriteThenRead(w: World, data: bytes)
    requires w.state != Closed
    ensures Quiet(w, WriteAll(w, data))
    ensures WriteAll(w, data).r.Ok? ==> Quiet(w, ReadReply(WriteAll(w, data).w))
  {
    hide WriteAll, ReadReply;
    WriteAllQuiet(w, data);
    if WriteAll(w, data).r.Ok? {
      ReadReplyQuiet(WriteAll(w, data).w);
    }
  }

  lemma AuthLoginQuiet(w: World, user: bytes, pass: bytes)
    requires w.state != Closed
    ensures Quiet(w, RunAuthLogin(w, user, pass))
  {
    hide WriteAll, ExpectAuth, Base64.Encode;
    WriteThenExpect(w, AUTH_LOGIN + CRLF, 334, AuthLogin);
    var s1 := WriteAll(w, AUTH_LOGIN + CRLF);
    if s1.r.Ok? {
      var r1 := ExpectAuth(s1.w, 334, AuthLogin);
      if r1.r.Ok? {
        WriteThenExpect(r1.w, Base64.Encode(user) + CRLF, 334, AuthLogin);
        var s2 := WriteAll(r1.w, Base64.Encode(user) + CRLF);
        if s2.r.Ok? {
          var r2 := ExpectAuth(s2.w, 334, AuthLogin);
          if r2.r.Ok? {
            WriteThenExpect(r2.w, Base64.Encode(pass) + CRLF, 235, AuthLogin);
          }
        }
      }
    }
  }

  lemma AuthBearerQuiet(w: World, line: bytes, abort: bytes, during: SmtpOp)
    requires w.state != Closed
    ensures Quiet(w, RunAuthBearer(w, line, abort, during))
  {
    hide WriteAll, ReadReply;
    WriteThenRead(w, line);
    var s1 := WriteAll(w, line);
    if s1.r.Ok? {
      var r1 := ReadReply(s1.w);
      if r1.r.Ok? {
        WriteThenRead(r1.w, abort);
      }
    }
  }

  lemma VerifyQuiet(w: World, text: bytes, expected: digest)
    requires w.state != Closed
    ensures Quiet(w, ScramVerifyServerFinal(w, text, expected))
  {
    hide DecodeChallenge, FindPrefixed, Split, Base64.Decode;
  }

  lemma ScramFinishQuiet(w: World, final: ClientFinal)
    requires w.state != Closed
    ensures Quiet(w, ScramFinish(w, final))
  {
    hide WriteAll, ReadReply, ExpectAuth, ScramVerifyServerFinal, Base64.Encode;
    var line := Base64.Encode(final.message) + CRLF;
    WriteThenRead(w, line);
    var s1 := WriteAll(w, line);
    if s1.r.Ok? {
      var r1 := ReadReply(s1.w);
      if r1.r.Ok? {
        var text := r1.r.value.JoinedText();
        VerifyQuiet(r1.w, text, final.expectedServerSignature);
        var v := ScramVerifyServerFinal(r1.w, text, final.expectedServerSignature);
        if v.r.Ok? {
          WriteThenExpect(v.w, CRLF, 235, AuthScramSha256);
        }
      }
    }
  }

  lemma ParseServerFirstErrors(message: bytes, nonce: bytes)
    ensures ParseServerFirst(message, nonce).Err? ==> ParseServerFirst(message, nonce).error == AuthOther
  {
    hide ScanAttributes, Split, Base64.Decode;
  }

  lemma AuthScramQuiet(env: Env, w: World, user: bytes, password: bytes, entropy: bytes)
    requires w.state != Closed
    ensures Quiet(w, RunAuthScram(env, w, user, password, Some(entropy)))
  {
    hide WriteAll, ReadReply, ScramFinish, Base64.Encode, ParseServerFirst, DecodeChallenge, ComputeClientFinal,
      BuildClientFirst;
    var nonce := Base64.Encode(entropy);
    var line := AUTH_SCRAM + Base64.Encode(BuildClientFirst(user, nonce)) + CRLF;
    WriteThenRead(w, line);
    var s1 := WriteAll(w, line);
    if s1.r.Ok? {
      var r1 := ReadReply(s1.w);
      if r1.r.Ok? {
        var challenge := DecodeChallenge(r1.r.value.JoinedText());
        if challenge.Some? {
          ParseServerFirstErrors(challenge.value, nonce);
          var first := ParseServerFirst(challenge.value, nonce);
          if first.Ok? {
            ScramFinishQuiet(r1.w,
              ComputeClientFinal(env.crypto, user, password, nonce, first.value, challenge.value));
          }
        }
      }
    }
  }

  // Every exchange is quiet, except that one which gets no random bytes does nothing at all.
  lemma AuthQuiet(
      env: Env, w: World, mechanism: AuthMechanism, user: bytes, credential: bytes, entropy: Option<bytes>)
    requires w.state != Closed
    ensures var out := RunAuth(env, w, mechanism, user, credential, entropy);
      Quiet(w, out) || out == Out(w, Err(AuthOther))
  {
    hide RunAuthPlain, RunAuthLogin, RunAuthBearer, RunAuthScram, InitialResponse;
    match mechanism
    case Plain => AuthPlainQuiet(w, user, credential);
    case Login => AuthLoginQuiet(w, user, credential);
    case XOAuth2 =>
      AuthBearerQuiet(w, AUTH_XOAUTH2 + InitialResponse(XOAuth2, user, credential) + CRLF, CRLF, AuthXOAuth2);
    case OAuthBearer =>
      AuthBearerQuiet(w, AUTH_OAUTHBEARER + InitialResponse(OAuthBearer, user, credential) + CRLF,
        [SOH] + CRLF, AuthOAuthBearer);
    case ScramSha256 =>
      if entropy.Some? {
        AuthScramQuiet(env, w, user, credential, entropy.value);
      } else {
        assert RunAuthScram(env, w, user, credential, entropy) == Out(w, Err(AuthOther)) by {
          NoEntropy(env, w, user, credential);
        }
      }
  }

  lemma NoEntropy(env: Env, w: World, user: bytes, password: bytes)
    ensures RunAuthScram(env, w, user, password, None) == Out(w, Err(AuthOther))
  {
  }
}
