// The SCRAM-SHA-256 exchange on the wire: what a successful login has established, and that
// an honest server's three replies make it succeed.

module ScramLogin {
  import opened Octets
  import opened Errors
  import opened Session
  import opened Commands
  import opened Replies
  import opened Scram
  import opened World
  import opened Pipelining
  import opened Answers
  import Base64
  import Utf8

  // ---------------------------------------------------------------------------
  // Soundness
  // ---------------------------------------------------------------------------

  // The message carries the signature, and no error.
  ghost predicate CarriesSignature(message: bytes, signature: digest) {
    var attrs := Split(message, ',');
    && (exists v :: VERIFIER_EQ + v in attrs && Base64.Decode(v) == Some(signature))
    && forall a <- attrs :: !StartsWith(a, ERROR_EQ)
  }

  lemma {:induction false} FoundPrefixed(attrs: seq<bytes>, prefix: bytes)
    ensures var r := FindPrefixed(attrs, prefix);
      if r.Some? then prefix + r.value in attrs else forall a <- attrs :: !StartsWith(a, prefix)
  {
    if attrs != [] {
      FoundPrefixed(attrs[1..], prefix);
      if StartsWith(attrs[0], prefix) {
        assert attrs[0] == prefix + attrs[0][|prefix|..];
      } else {
        assert forall a <- attrs :: a == attrs[0] || a in attrs[1..];
      }
    }
  }

  lemma VerifiedCarries(message: bytes, expected: digest)
    requires VerifyServerFinal(message, expected).Ok?
    ensures CarriesSignature(message, expected)
  {
    hide Split, FindPrefixed, Base64.Decode;
    var attrs := Split(message, ',');
    FoundPrefixed(attrs, ERROR_EQ);
    FoundPrefixed(attrs, VERIFIER_EQ);
  }

  // The signature only someone who knows the server key for this password can make.
  function ServerSignature(
      c: Crypto, user: bytes, password: bytes, nonce: bytes, first: ServerFirst, raw: bytes): digest
  {
    c.hmac(c.hmac(c.pbkdf2(password, first.salt, first.iterations), SERVER_KEY),
           AuthMessage(ClientFirstBare(user, nonce), raw, WithoutProof(first.nonce)))
  }

  // The end of an accepted exchange, from the point where the client-final message goes out:
  // the server's signature arrives, and a 235 either carries it or follows it.
  ghost predicate Concluded(w: World, final: ClientFinal, end: World) {
    var s := WriteAll(w, Base64.Encode(final.message) + CRLF);
    && s.r.Ok?
    && var r := ReadReply(s.w);
    && r.r.Ok?
    && var text := DecodeChallenge(r.r.value.JoinedText());
    && text.Some? && CarriesSignature(text.value, final.expectedServerSignature)
    && if r.r.value.code == 235 then end == r.w
       else
         && r.r.value.code == 334
         && var s' := WriteAll(r.w, CRLF);
         && s'.r.Ok?
         && var last := ReadReply(s'.w);
         last.r.Ok? && last.r.value.code == 235 && end == last.w
  }

  lemma FinishConcluded(w: World, final: ClientFinal)
    requires ScramFinish(w, final).r.Ok?
    ensures Concluded(w, final, ScramFinish(w, final).w)
  {
    hide WriteAll, ReadReply, VerifyServerFinal, DecodeChallenge, CarriesSignature, Base64.Encode;
    var r := ReadReply(WriteAll(w, Base64.Encode(final.message) + CRLF).w);
    var text := DecodeChallenge(r.r.value.JoinedText());
    VerifiedCarries(text.value, final.expectedServerSignature);
  }

  // The start of an accepted exchange: the client-first message goes out and the server answers
  // with a challenge that reads `raw`.
  ghost predicate Challenged(w: World, user: bytes, nonce: bytes, raw: bytes, challenged: World) {
    var s := WriteAll(w, AUTH_SCRAM + Base64.Encode(BuildClientFirst(user, nonce)) + CRLF);
    && s.r.Ok?
    && var r := ReadReply(s.w);
    && r.r.Ok? && r.r.value.code == 334
    && DecodeChallenge(r.r.value.JoinedText()) == Some(raw)
    && challenged == r.w
  }

  lemma ScramStarts(env: Env, w: World, user: bytes, password: bytes, entropy: bytes)
      returns (raw: bytes, challenged: World)
    requires RunAuthScram(env, w, user, password, Some(entropy)).r.Ok?
    ensures var nonce := Base64.Encode(entropy);
      && Challenged(w, user, nonce, raw, challenged)
      && var first := ParseServerFirst(raw, nonce);
      && first.Ok?
      && RunAuthScram(env, w, user, password, Some(entropy))
           == ScramFinish(challenged, ComputeClientFinal(env.crypto, user, password, nonce, first.value, raw))
  {
    hide WriteAll, ReadReply, ScramFinish, ParseServerFirst, DecodeChallenge, Base64.Encode, BuildClientFirst,
      ComputeClientFinal, AuthFailure;
    var nonce := Base64.Encode(entropy);
    var r := ReadReply(WriteAll(w, AUTH_SCRAM + Base64.Encode(BuildClientFirst(user, nonce)) + CRLF).w);
    raw, challenged := DecodeChallenge(r.r.value.JoinedText()).value, r.w;
  }

  // The exchange succeeds only with a server that answered a challenge of this session's nonce
  // with iterations in range, was sent the proof of this password for it, sent the signature made
  // with the server key of this password over this very exchange, and then said 235.
  lemma ScramSound(env: Env, w: World, user: bytes, password: bytes, entropy: Option<bytes>)
      returns (raw: bytes, challenged: World, first: ServerFirst, final: ClientFinal)
    requires RunAuthScram(env, w, user, password, entropy).r.Ok?
    ensures entropy.Some?
    ensures var nonce := Base64.Encode(entropy.value);
      && Challenged(w, user, nonce, raw, challenged)
      && ParseServerFirst(raw, nonce) == Ok(first) && StartsWith(first.nonce, nonce)
      && MIN_PBKDF2_ITERATIONS <= first.iterations <= MAX_PBKDF2_ITERATIONS
      && final == ComputeClientFinal(env.crypto, user, password, nonce, first, raw)
      && final.expectedServerSignature == ServerSignature(env.crypto, user, password, nonce, first, raw)
      && Concluded(challenged, final, RunAuthScram(env, w, user, password, entropy).w)
  {
    hide WriteAll, ReadReply, ScramFinish, ParseServerFirst, DecodeChallenge, Base64.Encode, BuildClientFirst,
      Concluded, AuthMessage, ClientFirstBare, WithoutProof, ClientProof, Challenged;
    assert entropy.Some? by { ScramNeedsEntropy(env, w, user, password); }
    var nonce := Base64.Encode(entropy.value);
    raw, challenged := ScramStarts(env, w, user, password, entropy.value);
    first := ParseServerFirst(raw, nonce).value;
    AcceptedServerFirst(raw, nonce);
    final := ComputeClientFinal(env.crypto, user, password, nonce, first, raw);
    FinishConcluded(challenged, final);
  }

  lemma ScramNeedsEntropy(env: Env, w: World, user: bytes, password: bytes)
    ensures RunAuthScram(env, w, user, password, None).r.Err?
  {
  }

  // ---------------------------------------------------------------------------
  // Completeness
  // ---------------------------------------------------------------------------

  lemma OneLineRead(w: World, code: nat, text: bytes, rest: bytes)
    requires code <= 999 && Sayable(text) && w.net.input == Render(code, [text], false) + rest
    ensures var r := ReadReply(w);
      && r.r.Ok? && r.r.value.code == code && r.r.value.JoinedText() == text
      && r.w == w.(net := w.net.(input := rest))
  {
    hide TakeReplyFrom, Render, Sayable;
    SayablePlain(text);
    var lines := [text];
    assert Renderable(code, lines, false);
    RenderedFrom(code, lines, false, rest, w.net.ending, [], None);
    assert [] + lines == lines;
    DecodedAscii(lines);
  }

  lemma EncodedSayable(x: bytes)
    requires |Base64.Encode(x)| <= MAX_REPLY_LINE_LEN - 4
    ensures Sayable(Base64.Encode(x))
  {
    hide Base64.Encode;
    Base64.EncodeSymbols(x);
  }

  // What an honest server with this password on file says, and what it is told.
  datatype Exchange = Exchange(
    clientFirst: bytes, serverFirst: bytes, clientFinal: bytes, serverFinal: bytes)

  function HonestExchange(
      c: Crypto, user: bytes, password: bytes, salt: bytes, iterations: nat, clientNonce: bytes,
      serverNonce: bytes): Exchange
  {
    var stored := Enroll(c, user, password, salt, iterations);
    var nonce := clientNonce + serverNonce;
    var serverFirst := ServerFirstMessage(stored, nonce);
    var final := ComputeClientFinal(c, user, password, clientNonce, ServerFirst(nonce, salt, iterations), serverFirst);
    var answer := ServerCheck(c, stored, nonce, BuildClientFirst(user, clientNonce), serverFirst, final.message);
    Exchange(BuildClientFirst(user, clientNonce), serverFirst, final.message, if answer.Some? then answer.value else [])
  }

  predicate Fits(message: bytes) {
    Utf8.IsUtf8(message) && |Base64.Encode(message)| <= MAX_REPLY_LINE_LEN - 4
  }

  // Against an honest server that has the password on file, the exchange succeeds: the server's
  // check accepts what the client writes, and its answer is accepted in turn.
  lemma ScramExchangeCompletes(
      env: Env, w: World, user: bytes, password: bytes, salt: bytes, iterations: nat, entropy: bytes,
      serverNonce: bytes, welcome: bytes, rest: bytes)
    requires w.net.outcomes == [] && w.net.peer.Script? && w.state != Closed
    requires MIN_PBKDF2_ITERATIONS <= iterations <= MAX_PBKDF2_ITERATIONS && Free(serverNonce, ',')
    requires Sayable(welcome)
    requires var x := HonestExchange(env.crypto, user, password, salt, iterations, Base64.Encode(entropy), serverNonce);
      && Fits(x.serverFirst) && Fits(x.serverFinal)
      && w.net.input == Render(334, [Base64.Encode(x.serverFirst)], false)
           + (Render(334, [Base64.Encode(x.serverFinal)], false) + (Render(235, [welcome], false) + rest))
    ensures var x := HonestExchange(env.crypto, user, password, salt, iterations, Base64.Encode(entropy), serverNonce);
      var out := RunAuthScram(env, w, user, password, Some(entropy));
      && out.r == Ok(())
      && out.w == w.(net := w.net.(input := rest, trace := w.net.trace
           + [Wrote(AUTH_SCRAM + Base64.Encode(x.clientFirst) + CRLF)]
           + [Wrote(Base64.Encode(x.clientFinal) + CRLF)]
           + [Wrote(CRLF)]))
  {
    hide WriteAll, ReadReply, Render, ParseServerFirst, BuildClientFirst, Base64.Encode, Base64.Decode, Sayable,
      VerifyServerFinal, ServerCheck, ServerFirstMessage, ScramFinish, ComputeClientFinal;
    var c := env.crypto;
    var nonce := Base64.Encode(entropy);
    var x := HonestExchange(c, user, password, salt, iterations, nonce, serverNonce);
    EncodedFree(entropy, ',');
    ScramCompletes(c, user, password, salt, iterations, nonce, serverNonce);
    var line1 := AUTH_SCRAM + Base64.Encode(x.clientFirst) + CRLF;
    WritesOn(w, line1);
    var w1 := WriteAll(w, line1).w;
    EncodedSayable(x.serverFirst);
    Base64.DecodeEncode(x.serverFirst);
    var tail2 := Render(235, [welcome], false) + rest;
    OneLineRead(w1, 334, Base64.Encode(x.serverFirst), Render(334, [Base64.Encode(x.serverFinal)], false) + tail2);
    var w2 := ReadReply(w1).w;
    var first := ServerFirst(nonce + serverNonce, salt, iterations);
    var final := ComputeClientFinal(c, user, password, nonce, first, x.serverFirst);
    FinishCompletes(w2, final, x.serverFinal, welcome, rest);
  }

  lemma FinishCompletes(w: World, final: ClientFinal, serverFinal: bytes, welcome: bytes, rest: bytes)
    requires w.net.outcomes == [] && w.net.peer.Script? && w.state != Closed
    requires Fits(serverFinal) && Sayable(welcome)
    requires VerifyServerFinal(serverFinal, final.expectedServerSignature) == Ok(())
    requires w.net.input == Render(334, [Base64.Encode(serverFinal)], false) + (Render(235, [welcome], false) + rest)
    ensures ScramFinish(w, final) == Out(w.(net := w.net.(input := rest,
      trace := w.net.trace + [Wrote(Base64.Encode(final.message) + CRLF)] + [Wrote(CRLF)])), Ok(()))
  {
    hide WriteAll, ReadReply, Render, Base64.Encode, Base64.Decode, Sayable, VerifyServerFinal;
    var line := Base64.Encode(final.message) + CRLF;
    WritesOn(w, line);
    var w1 := WriteAll(w, line).w;
    EncodedSayable(serverFinal);
    Base64.DecodeEncode(serverFinal);
    OneLineRead(w1, 334, Base64.Encode(serverFinal), Render(235, [welcome], false) + rest);
    var w2 := ReadReply(w1).w;
    WritesOn(w2, CRLF);
    var w3 := WriteAll(w2, CRLF).w;
    OneLineRead(w3, 235, welcome, rest);
  }

  // The same with a server that sends its signature along with the 235.
  lemma ScramExchangeCompletesAtOnce(
      env: Env, w: World, user: bytes, password: bytes, salt: bytes, iterations: nat, entropy: bytes,
      serverNonce: bytes, rest: bytes)
    requires w.net.outcomes == [] && w.net.peer.Script? && w.state != Closed
    requires MIN_PBKDF2_ITERATIONS <= iterations <= MAX_PBKDF2_ITERATIONS && Free(serverNonce, ',')
    requires var x := HonestExchange(env.crypto, user, password, salt, iterations, Base64.Encode(entropy), serverNonce);
      && Fits(x.serverFirst) && Fits(x.serverFinal)
      && w.net.input == Render(334, [Base64.Encode(x.serverFirst)], false)
           + (Render(235, [Base64.Encode(x.serverFinal)], false) + rest)
    ensures var x := HonestExchange(env.crypto, user, password, salt, iterations, Base64.Encode(entropy), serverNonce);
      var out := RunAuthScram(env, w, user, password, Some(entropy));
      && out.r == Ok(())
      && out.w == w.(net := w.net.(input := rest, trace := w.net.trace
           + [Wrote(AUTH_SCRAM + Base64.Encode(x.clientFirst) + CRLF)]
           + [Wrote(Base64.Encode(x.clientFinal) + CRLF)]))
  {
    hide WriteAll, ReadReply, Render, ParseServerFirst, BuildClientFirst, Base64.Encode, Base64.Decode, Sayable,
      VerifyServerFinal, ServerCheck, ServerFirstMessage, ScramFinish, ComputeClientFinal;
    var c := env.crypto;
    var nonce := Base64.Encode(entropy);
    var x := HonestExchange(c, user, password, salt, iterations, nonce, serverNonce);
    EncodedFree(entropy, ',');
    ScramCompletes(c, user, password, salt, iterations, nonce, serverNonce);
    var line := AUTH_SCRAM + Base64.Encode(x.clientFirst) + CRLF;
    WritesOn(w, line);
    var w1 := WriteAll(w, line).w;
    EncodedSayable(x.serverFirst);
    Base64.DecodeEncode(x.serverFirst);
    OneLineRead(w1, 334, Base64.Encode(x.serverFirst), Render(235, [Base64.Encode(x.serverFinal)], false) + rest);
    var first := ServerFirst(nonce + serverNonce, salt, iterations);
    var final := ComputeClientFinal(c, user, password, nonce, first, x.serverFirst);
    FinishCompletesAtOnce(ReadReply(w1).w, final, x.serverFinal, rest);
  }

  lemma FinishCompletesAtOnce(w: World, final: ClientFinal, serverFinal: bytes, rest: bytes)
    requires w.net.outcomes == [] && w.net.peer.Script? && w.state != Closed && Fits(serverFinal)
    requires VerifyServerFinal(serverFinal, final.expectedServerSignature) == Ok(())
    requires w.net.input == Render(235, [Base64.Encode(serverFinal)], false) + rest
    ensures ScramFinish(w, final) == Out(w.(net := w.net.(input := rest,
      trace := w.net.trace + [Wrote(Base64.Encode(final.message) + CRLF)])), Ok(()))
  {
    hide WriteAll, ReadReply, Render, Base64.Encode, Base64.Decode, Sayable, VerifyServerFinal;
    var line := Base64.Encode(final.message) + CRLF;
    WritesOn(w, line);
    EncodedSayable(serverFinal);
    Base64.DecodeEncode(serverFinal);
    OneLineRead(WriteAll(w, line).w, 235, Base64.Encode(serverFinal), rest);
  }
}
