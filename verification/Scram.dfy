// SCRAM-SHA-256 (sections 3 and 5.1 of RFC 5802): the client's messages, the honest server
// they are meant for, and the agreement of the two.

module Scram {
  import opened Octets
  import opened Errors
  import Base64
  import Bits

  const SHA256_LEN: nat := 32
  const MIN_PBKDF2_ITERATIONS: nat := 4096
  const MAX_PBKDF2_ITERATIONS: nat := 600000
  const MAX_U32: nat := 0xFFFF_FFFF

  type digest = s: bytes | |s| == SHA256_LEN witness seq(SHA256_LEN, _ => '\0')

  // The primitives. Nothing is known about them but the length of what they return.
  datatype Crypto = Crypto(
    hmac: (bytes, bytes) -> digest,
    hash: bytes -> digest,
    pbkdf2: (bytes, bytes, nat) -> digest)

  // ---------------------------------------------------------------------------
  // Exclusive or
  // ---------------------------------------------------------------------------

  function XorByte(a: byte, b: byte): (x: byte)
    ensures x as int == Bits.Xor(a as int, b as int, 8)
  {
    Bits.Pow2Of8();
    Bits.Xor(a as int, b as int, 8) as char
  }

  function Xor(a: digest, b: digest): (x: digest)
    ensures forall i :: 0 <= i < SHA256_LEN ==> x[i] == XorByte(a[i], b[i])
  {
    seq(SHA256_LEN, i requires 0 <= i < SHA256_LEN => XorByte(a[i], b[i]))
  }

  lemma XorCancels(a: digest, b: digest)
    ensures Xor(Xor(a, b), b) == a
  {
    var x := Xor(Xor(a, b), b);
    forall i | 0 <= i < SHA256_LEN
      ensures x[i] == a[i]
    {
      Bits.Pow2Of8();
      Bits.XorCancels(a[i] as int, b[i] as int, 8);
    }
  }

  method XorLoop(a: digest, b: digest) returns (x: bytes)
    ensures x == Xor(a, b)
  {
    x := [];
    for i := 0 to SHA256_LEN
      invariant x == Xor(a, b)[..i]
    {
      x := x + [XorByte(a[i], b[i])];
    }
  }

  // ---------------------------------------------------------------------------
  // Names
  // ---------------------------------------------------------------------------

  const ESCAPED_COMMA: bytes := "=2C"
  const ESCAPED_EQUALS: bytes := "=3D"

  function EscapeByte(c: byte): bytes {
    if c == ',' then ESCAPED_COMMA else if c == '=' then ESCAPED_EQUALS else [c]
  }

  function EscapeSaslName(name: bytes): bytes {
    if name == [] then [] else EscapeByte(name[0]) + EscapeSaslName(name[1..])
  }

  method EscapeLoop(name: bytes) returns (out: bytes)
    ensures out == EscapeSaslName(name)
  {
    out := [];
    assert name[0..] == name;
    for i := 0 to |name|
      invariant out + EscapeSaslName(name[i..]) == EscapeSaslName(name)
    {
      assert name[i..][1..] == name[i + 1..];
      Assoc(out, EscapeByte(name[i]), EscapeSaslName(name[i + 1..]));
      if name[i] == ',' {
        out := out + ESCAPED_COMMA;
      } else if name[i] == '=' {
        out := out + ESCAPED_EQUALS;
      } else {
        out := out + [name[i]];
      }
    }
    assert name[|name|..] == [];
  }

  // How a server reads a name back. An '=' that starts neither escape is an error.
  function UnescapeSaslName(s: bytes): Option<bytes> {
    if s == [] then Some([])
    else if s[0] == ',' then None
    else if s[0] != '=' then Preceded([s[0]], UnescapeSaslName(s[1..]))
    else if StartsWith(s, ESCAPED_COMMA) then Preceded([','], UnescapeSaslName(s[3..]))
    else if StartsWith(s, ESCAPED_EQUALS) then Preceded(['='], UnescapeSaslName(s[3..]))
    else None
  }

  // Reading the escaped name succeeds, so it has no comma and no stray '=', and gives the name.
  lemma {:induction false} EscapeRoundTrip(name: bytes)
    ensures UnescapeSaslName(EscapeSaslName(name)) == Some(name)
    ensures Free(EscapeSaslName(name), ',')
  {
    if name != [] {
      var c, tail := name[0], EscapeSaslName(name[1..]);
      var s := EscapeSaslName(name);
      EscapeRoundTrip(name[1..]);
      assert s[|EscapeByte(c)|..] == tail;
      assert s[..|EscapeByte(c)|] == EscapeByte(c);
      assert ESCAPED_COMMA != ESCAPED_EQUALS by {
        assert ESCAPED_COMMA[1] != ESCAPED_EQUALS[1];
      }
      assert [c] + name[1..] == name;
    }
  }

  // ---------------------------------------------------------------------------
  // The client
  // ---------------------------------------------------------------------------

  const GS2_HEADER: bytes := "n,,"
  const NAME_EQ: bytes := "n="
  const COMMA_NONCE_EQ: bytes := ",r="
  const CHANNEL_BINDING: bytes := "c=biws"
  const NONCE_EQ: bytes := "r="
  const SALT_EQ: bytes := "s="
  const ITERATIONS_EQ: bytes := "i="
  const PROOF_EQ: bytes := "p="
  const VERIFIER_EQ: bytes := "v="
  const ERROR_EQ: bytes := "e="
  const CLIENT_KEY: bytes := "Client Key"
  const SERVER_KEY: bytes := "Server Key"
  const COMMA: bytes := ","

  function ClientFirstBare(user: bytes, nonce: bytes): bytes {
    NAME_EQ + EscapeSaslName(user) + COMMA_NONCE_EQ + nonce
  }

  function BuildClientFirst(user: bytes, nonce: bytes): bytes {
    GS2_HEADER + ClientFirstBare(user, nonce)
  }

  datatype ServerFirst = ServerFirst(nonce: bytes, salt: bytes, iterations: nat)

  // A decimal of at most 32 bits, with an optional plus sign.
  function ParseU32(s: bytes): Option<nat> {
    var digits := if s != [] && s[0] == '+' then s[1..] else s;
    if digits == [] || !Digits(digits) || DigitsValue(digits) > MAX_U32 then None else Some(DigitsValue(digits))
  }

  // The attributes seen so far. A later attribute replaces an earlier one with the same key.
  datatype Attributes = Attributes(nonce: Option<bytes>, salt: Option<bytes>, iterations: Option<nat>)

  function TakeAttribute(acc: Attributes, attr: bytes): Option<Attributes> {
    match SplitOnce(attr, '=')
    case None => None
    case Some(kv) =>
      if kv.0 == ['r'] then Some(acc.(nonce := Some(kv.1)))
      else if kv.0 == ['s'] then Some(acc.(salt := Some(kv.1)))
      else if kv.0 == ['i'] then
        match ParseU32(kv.1)
        case None => None
        case Some(i) => Some(acc.(iterations := Some(i)))
      else if kv.0 == ['m'] then None
      else Some(acc)
  }

  function ScanAttributes(acc: Attributes, attrs: seq<bytes>): Option<Attributes>
    decreases |attrs|
  {
    if attrs == [] then Some(acc)
    else
      match TakeAttribute(acc, attrs[0])
      case None => None
      case Some(next) => ScanAttributes(next, attrs[1..])
  }

  const NO_ATTRIBUTES: Attributes := Attributes(None, None, None)

  function CheckAttributes(acc: Attributes, clientNonce: bytes): Result<ServerFirst> {
    if acc.nonce.None? || acc.salt.None? || acc.iterations.None? then Err(AuthOther)
    else if !StartsWith(acc.nonce.value, clientNonce) then Err(AuthOther)
    else if !(MIN_PBKDF2_ITERATIONS <= acc.iterations.value <= MAX_PBKDF2_ITERATIONS) then Err(AuthOther)
    else
      match Base64.Decode(acc.salt.value)
      case None => Err(AuthOther)
      case Some(salt) => Ok(ServerFirst(acc.nonce.value, salt, acc.iterations.value))
  }

  function ParseServerFirst(message: bytes, clientNonce: bytes): Result<ServerFirst> {
    match ScanAttributes(NO_ATTRIBUTES, Split(message, ','))
    case None => Err(AuthOther)
    case Some(acc) => CheckAttributes(acc, clientNonce)
  }

  method ParseServerFirstLoop(message: bytes, clientNonce: bytes) returns (r: Result<ServerFirst>)
    ensures r == ParseServerFirst(message, clientNonce)
    ensures r.Err? ==> r.error == AuthOther
  {
    var nonce: Option<bytes>, salt: Option<bytes>, iterations: Option<nat> := None, None, None;
    var attrs := Split(message, ',');
    assert attrs[0..] == attrs;
    for k := 0 to |attrs|
      invariant ScanAttributes(Attributes(nonce, salt, iterations), attrs[k..]) == ScanAttributes(NO_ATTRIBUTES, attrs)
    {
      assert attrs[k..][1..] == attrs[k + 1..];
      var kv := SplitOnce(attrs[k], '=');
      if kv.None? {
        return Err(AuthOther);
      }
      var key, value := kv.value.0, kv.value.1;
      if key == ['r'] {
        nonce := Some(value);
      } else if key == ['s'] {
        salt := Some(value);
      } else if key == ['i'] {
        iterations := ParseU32(value);
        if iterations.None? {
          return Err(AuthOther);
        }
      } else if key == ['m'] {
        return Err(AuthOther);
      }
    }
    r := CheckAttributes(Attributes(nonce, salt, iterations), clientNonce);
  }

  datatype ClientFinal = ClientFinal(message: bytes, expectedServerSignature: digest)

  function WithoutProof(nonce: bytes): bytes {
    CHANNEL_BINDING + COMMA_NONCE_EQ + nonce
  }

  function AuthMessage(clientFirstBare: bytes, serverFirst: bytes, withoutProof: bytes): bytes {
    clientFirstBare + COMMA + serverFirst + COMMA + withoutProof
  }

  function ClientProof(c: Crypto, clientKey: digest, authMessage: bytes): digest {
    Xor(clientKey, c.hmac(c.hash(clientKey), authMessage))
  }

  function ComputeClientFinal(
      c: Crypto, user: bytes, password: bytes, clientNonce: bytes, first: ServerFirst, raw: bytes): ClientFinal {
    var salted := c.pbkdf2(password, first.salt, first.iterations);
    var authMessage := AuthMessage(ClientFirstBare(user, clientNonce), raw, WithoutProof(first.nonce));
    var proof := ClientProof(c, c.hmac(salted, CLIENT_KEY), authMessage);
    ClientFinal(
      WithoutProof(first.nonce) + COMMA + PROOF_EQ + Base64.Encode(proof),
      c.hmac(c.hmac(salted, SERVER_KEY), authMessage))
  }

  // The value of the first attribute with this prefix.
  function FindPrefixed(attrs: seq<bytes>, prefix: bytes): Option<bytes> {
    if attrs == [] then None
    else if StartsWith(attrs[0], prefix) then Some(attrs[0][|prefix|..])
    else FindPrefixed(attrs[1..], prefix)
  }

  function VerifyServerFinal(message: bytes, expected: digest): (r: Result<()>)
    ensures r.Err? ==> r.error == AuthOther
  {
    var attrs := Split(message, ',');
    if FindPrefixed(attrs, ERROR_EQ).Some? then Err(AuthOther)
    else
      match FindPrefixed(attrs, VERIFIER_EQ)
      case None => Err(AuthOther)
      case Some(v) =>
        match Base64.Decode(v)
        case None => Err(AuthOther)
        case Some(signature) =>
          if |signature| != SHA256_LEN then Err(AuthOther)
          else if signature == expected then Ok(())
          else Err(AuthOther)
  }

  // ---------------------------------------------------------------------------
  // What parsing the server's first message establishes
  // ---------------------------------------------------------------------------

  lemma AttributeKey(attr: bytes, k: byte)
    requires SplitOnce(attr, '=').Some? && SplitOnce(attr, '=').value.0 == [k]
    ensures attr == [k, '='] + SplitOnce(attr, '=').value.1
  {
    assert [k] + ['='] == [k, '='];
  }

  lemma KeyValue(k: byte, value: bytes)
    requires k != '='
    ensures SplitOnce([k, '='] + value, '=') == Some(([k], value))
  {
    SplitOnceAt([k], '=', value);
    assert [k, '='] + value == [k] + ['='] + value;
  }

  predicate Carries(attrs: seq<bytes>, key: byte, value: bytes) {
    [key, '='] + value in attrs
  }

  lemma {:induction false} ScannedFrom(acc: Attributes, attrs: seq<bytes>)
    requires ScanAttributes(acc, attrs).Some?
    ensures var r := ScanAttributes(acc, attrs).value;
      && (r.nonce.Some? ==> r.nonce == acc.nonce || Carries(attrs, 'r', r.nonce.value))
      && (r.salt.Some? ==> r.salt == acc.salt || Carries(attrs, 's', r.salt.value))
      && (r.iterations.Some? ==>
            r.iterations == acc.iterations || exists d :: Carries(attrs, 'i', d) && ParseU32(d) == r.iterations)
    ensures forall value :: !Carries(attrs, 'm', value)
    decreases |attrs|
  {
    hide SplitOnce, ParseU32;
    if attrs != [] {
      var head, tail := attrs[0], attrs[1..];
      var next := TakeAttribute(acc, head).value;
      ScannedFrom(next, tail);
      var kv := SplitOnce(head, '=').value;
      if kv.0 == ['r'] {
        AttributeKey(head, 'r');
      } else if kv.0 == ['s'] {
        AttributeKey(head, 's');
      } else if kv.0 == ['i'] {
        AttributeKey(head, 'i');
        assert Carries(attrs, 'i', kv.1);
      }
      assert forall key, value :: Carries(tail, key, value) ==> Carries(attrs, key, value);
      forall value ensures !Carries(attrs, 'm', value) {
        KeyValue('m', value);
        assert !Carries(tail, 'm', value);
      }
    }
  }

  // Whatever is accepted extends the client's nonce, has an iteration count in range and a
  // decodable salt, takes all three from attributes of the message, and carries no extension.
  lemma AcceptedServerFirst(message: bytes, clientNonce: bytes)
    requires ParseServerFirst(message, clientNonce).Ok?
    ensures var first := ParseServerFirst(message, clientNonce).value;
      var attrs := Split(message, ',');
      && StartsWith(first.nonce, clientNonce) && Carries(attrs, 'r', first.nonce)
      && MIN_PBKDF2_ITERATIONS <= first.iterations <= MAX_PBKDF2_ITERATIONS
      && (exists d :: Carries(attrs, 'i', d) && ParseU32(d) == Some(first.iterations))
      && (exists s :: Carries(attrs, 's', s) && Base64.Decode(s) == Some(first.salt))
      && forall value :: !Carries(attrs, 'm', value)
  {
    hide SplitOnce, ParseU32, Split, TakeAttribute, Base64.Decode;
    ScannedFrom(NO_ATTRIBUTES, Split(message, ','));
  }

  // ---------------------------------------------------------------------------
  // The honest server
  // ---------------------------------------------------------------------------

  // What a server keeps about a user.
  datatype Stored = Stored(user: bytes, salt: bytes, iterations: nat, storedKey: digest, serverKey: digest)

  function Enroll(c: Crypto, user: bytes, password: bytes, salt: bytes, iterations: nat): Stored {
    var salted := c.pbkdf2(password, salt, iterations);
    Stored(user, salt, iterations, c.hash(c.hmac(salted, CLIENT_KEY)), c.hmac(salted, SERVER_KEY))
  }

  function ServerFirstMessage(stored: Stored, nonce: bytes): bytes {
    NONCE_EQ + nonce + COMMA + (SALT_EQ + Base64.Encode(stored.salt)) + COMMA
    + (ITERATIONS_EQ + Decimal(stored.iterations))
  }

  // How a server reads a client-first message: the user and the nonce.
  function ReadClientFirst(message: bytes): Option<(bytes, bytes)> {
    if !StartsWith(message, GS2_HEADER) then None
    else
      var attrs := Split(message[|GS2_HEADER|..], ',');
      if |attrs| != 2 || !StartsWith(attrs[0], NAME_EQ) || !StartsWith(attrs[1], NONCE_EQ) then None
      else
        match UnescapeSaslName(attrs[0][|NAME_EQ|..])
        case None => None
        case Some(user) => Some((user, attrs[1][|NONCE_EQ|..]))
  }

  // The user, whatever bytes it has, and the nonce are read back.
  lemma ClientFirstRead(user: bytes, nonce: bytes)
    requires Free(nonce, ',')
    ensures ReadClientFirst(BuildClientFirst(user, nonce)) == Some((user, nonce))
  {
    hide Split, EscapeSaslName, UnescapeSaslName;
    EscapeRoundTrip(user);
    var name, last := NAME_EQ + EscapeSaslName(user), NONCE_EQ + nonce;
    var message, bare := BuildClientFirst(user, nonce), ClientFirstBare(user, nonce);
    assert message[..|GS2_HEADER|] == GS2_HEADER && message[|GS2_HEADER|..] == bare;
    assert bare == name + [','] + last;
    SplitCons(name, ',', last);
    assert Free(last, ',');
    SplitFree(last, ',');
    assert name[..|NAME_EQ|] == NAME_EQ && name[|NAME_EQ|..] == EscapeSaslName(user);
    assert last[..|NONCE_EQ|] == NONCE_EQ && last[|NONCE_EQ|..] == nonce;
  }

  lemma ClientFirstInjective(user: bytes, nonce: bytes, user': bytes, nonce': bytes)
    requires Free(nonce, ',') && Free(nonce', ',')
    requires BuildClientFirst(user, nonce) == BuildClientFirst(user', nonce')
    ensures user == user' && nonce == nonce'
  {
    hide ReadClientFirst, BuildClientFirst;
    ClientFirstRead(user, nonce);
    ClientFirstRead(user', nonce');
  }

  // The server's answer to a client-final message, if it accepts the proof: the exchange is about
  // the user it keeps and the nonce it extended; it rebuilds the signed text from the messages it
  // has seen, undoes the exclusive or and checks the key.
  function ServerCheck(
      c: Crypto, stored: Stored, nonce: bytes, clientFirst: bytes, serverFirst: bytes,
      clientFinal: bytes): Option<bytes>
  {
    var attrs := Split(clientFinal, ',');
    var hello := ReadClientFirst(clientFirst);
    if hello.None? || hello.value.0 != stored.user || !StartsWith(nonce, hello.value.1) || |attrs| != 3 then None
    else if attrs[0] != CHANNEL_BINDING || attrs[1] != NONCE_EQ + nonce || !StartsWith(attrs[2], PROOF_EQ) then None
    else
      match Base64.Decode(attrs[2][|PROOF_EQ|..])
      case None => None
      case Some(proof) =>
        if |proof| != SHA256_LEN then None
        else
          var authMessage := AuthMessage(clientFirst[|GS2_HEADER|..], serverFirst, attrs[0] + COMMA + attrs[1]);
          var clientKey := Xor(proof, c.hmac(stored.storedKey, authMessage));
          if c.hash(clientKey) != stored.storedKey then None
          else Some(VERIFIER_EQ + Base64.Encode(c.hmac(stored.serverKey, authMessage)))
  }

  lemma EncodedFree(x: bytes, c: byte)
    requires !Base64.IsSymbol(c)
    ensures Free(Base64.Encode(x), c)
  {
    hide Base64.Encode, Base64.IsSymbol;
    Base64.EncodeSymbols(x);
  }

  lemma ThreeFields(a: bytes, b: bytes, c: bytes)
    requires Free(a, ',') && Free(b, ',') && Free(c, ',')
    ensures Split(a + COMMA + b + COMMA + c, ',') == [a, b, c]
  {
    assert a + COMMA + b + COMMA + c == a + [','] + (b + [','] + c);
    SplitCons(a, ',', b + [','] + c);
    SplitCons(b, ',', c);
    assert [a] + ([b] + [c]) == [a, b, c];
  }

  lemma DecimalIsU32(n: nat)
    requires n <= MAX_U32
    ensures ParseU32(Decimal(n)) == Some(n)
    ensures Free(Decimal(n), ',')
  {
    hide Decimal, DigitsValue;
    DecimalValue(n);
    var d := Decimal(n);
    assert IsDigit(d[0]);
  }

  lemma ScanThree(nonce: bytes, salt: bytes, iterations: bytes)
    requires ParseU32(iterations).Some?
    ensures ScanAttributes(NO_ATTRIBUTES, [NONCE_EQ + nonce, SALT_EQ + salt, ITERATIONS_EQ + iterations])
         == Some(Attributes(Some(nonce), Some(salt), ParseU32(iterations)))
  {
    hide SplitOnce, ParseU32;
    var attrs: seq<bytes> := [NONCE_EQ + nonce, SALT_EQ + salt, ITERATIONS_EQ + iterations];
    KeyValue('r', nonce);
    KeyValue('s', salt);
    KeyValue('i', iterations);
    var acc1 := Attributes(Some(nonce), None, None);
    var acc2 := Attributes(Some(nonce), Some(salt), None);
    var acc3 := Attributes(Some(nonce), Some(salt), ParseU32(iterations));
    assert TakeAttribute(NO_ATTRIBUTES, attrs[0]) == Some(acc1);
    assert TakeAttribute(acc1, attrs[1]) == Some(acc2);
    assert TakeAttribute(acc2, attrs[2]) == Some(acc3);
    var tail1: seq<bytes> := attrs[1..];
    var tail2: seq<bytes> := tail1[1..];
    var tail3: seq<bytes> := tail2[1..];
    assert tail1[0] == attrs[1] && tail2[0] == attrs[2] && |tail3| == 0;
    assert ScanAttributes(acc3, tail3) == Some(acc3);
    assert ScanAttributes(acc2, tail2) == Some(acc3);
    assert ScanAttributes(acc1, tail1) == Some(acc3);
  }

  // The three values of a rendered server-first message are read back.
  lemma ServerFirstRoundTrip(stored: Stored, nonce: bytes, clientNonce: bytes)
    requires Free(nonce, ',') && StartsWith(nonce, clientNonce)
    requires MIN_PBKDF2_ITERATIONS <= stored.iterations <= MAX_PBKDF2_ITERATIONS
    ensures ParseServerFirst(ServerFirstMessage(stored, nonce), clientNonce)
         == Ok(ServerFirst(nonce, stored.salt, stored.iterations))
  {
    hide Split, Decimal, Base64.Encode, Base64.Decode, ScanAttributes, ParseU32;
    var salt, iterations := Base64.Encode(stored.salt), Decimal(stored.iterations);
    EncodedFree(stored.salt, ',');
    DecimalIsU32(stored.iterations);
    ThreeFields(NONCE_EQ + nonce, SALT_EQ + salt, ITERATIONS_EQ + iterations);
    ScanThree(nonce, salt, iterations);
    Base64.DecodeEncode(stored.salt);
  }

  lemma VerifierVerifies(signature: digest)
    ensures VerifyServerFinal(VERIFIER_EQ + Base64.Encode(signature), signature) == Ok(())
  {
    hide Base64.Encode, Base64.Decode;
    var message := VERIFIER_EQ + Base64.Encode(signature);
    EncodedFree(signature, ',');
    assert Free(message, ',');
    assert Split(message, ',') == [message];
    assert message[0] != ERROR_EQ[0] && message[..2] == VERIFIER_EQ && message[2..] == Base64.Encode(signature);
    assert message[..2][0] == 'v' && !StartsWith(message, ERROR_EQ);
    assert FindPrefixed([message], ERROR_EQ) == None;
    Base64.DecodeEncode(signature);
  }

  // Undoing the exclusive or with the stored key gives back the client key.
  lemma ProofAccepted(c: Crypto, clientKey: digest, authMessage: bytes)
    ensures Xor(ClientProof(c, clientKey, authMessage), c.hmac(c.hash(clientKey), authMessage)) == clientKey
  {
    XorCancels(clientKey, c.hmac(c.hash(clientKey), authMessage));
  }

  // Completeness: whatever the primitives, a client and a server that hold the same password
  // accept each other. The client parses the challenge, the server accepts the proof, and the
  // client accepts the server's signature.
  lemma ScramCompletes(
      c: Crypto, user: bytes, password: bytes, salt: bytes, iterations: nat, clientNonce: bytes, serverNonce: bytes)
    requires MIN_PBKDF2_ITERATIONS <= iterations <= MAX_PBKDF2_ITERATIONS
    requires Free(clientNonce, ',') && Free(serverNonce, ',')
    ensures var stored := Enroll(c, user, password, salt, iterations);
      var nonce := clientNonce + serverNonce;
      var serverFirst := ServerFirstMessage(stored, nonce);
      var first := ParseServerFirst(serverFirst, clientNonce);
      && first == Ok(ServerFirst(nonce, salt, iterations))
      && var final := ComputeClientFinal(c, user, password, clientNonce, first.value, serverFirst);
      var answer := ServerCheck(c, stored, nonce, BuildClientFirst(user, clientNonce), serverFirst, final.message);
      && answer.Some?
      && VerifyServerFinal(answer.value, final.expectedServerSignature) == Ok(())
  {
    hide Split, Base64.Encode, Base64.Decode, ParseServerFirst, ServerFirstMessage, VerifyServerFinal, AuthMessage,
      ClientFirstBare, ClientProof, ReadClientFirst;
    var stored := Enroll(c, user, password, salt, iterations);
    var nonce := clientNonce + serverNonce;
    var serverFirst := ServerFirstMessage(stored, nonce);
    ClientFirstRead(user, clientNonce);
    ServerFirstRoundTrip(stored, nonce, clientNonce);
    var salted := c.pbkdf2(password, salt, iterations);
    var clientKey := c.hmac(salted, CLIENT_KEY);
    var clientFirst := BuildClientFirst(user, clientNonce);
    assert clientFirst[..|GS2_HEADER|] == GS2_HEADER;
    assert clientFirst[|GS2_HEADER|..] == ClientFirstBare(user, clientNonce);
    var authMessage := AuthMessage(ClientFirstBare(user, clientNonce), serverFirst, WithoutProof(nonce));
    var proof := ClientProof(c, clientKey, authMessage);
    SplitClientFinal(nonce, proof);
    Base64.DecodeEncode(proof);
    ProofAccepted(c, clientKey, authMessage);
    VerifierVerifies(c.hmac(stored.serverKey, authMessage));
  }

  // The fields of a client-final message.
  lemma SplitClientFinal(nonce: bytes, proof: bytes)
    requires Free(nonce, ',')
    ensures var message := WithoutProof(nonce) + COMMA + PROOF_EQ + Base64.Encode(proof);
      var last := PROOF_EQ + Base64.Encode(proof);
      && Split(message, ',') == [CHANNEL_BINDING, NONCE_EQ + nonce, last]
      && StartsWith(last, PROOF_EQ) && last[|PROOF_EQ|..] == Base64.Encode(proof)
    ensures CHANNEL_BINDING + COMMA + (NONCE_EQ + nonce) == WithoutProof(nonce)
  {
    hide Split, Base64.Encode;
    var last := PROOF_EQ + Base64.Encode(proof);
    EncodedFree(proof, ',');
    assert COMMA_NONCE_EQ == COMMA + NONCE_EQ;
    assert WithoutProof(nonce) + COMMA + PROOF_EQ + Base64.Encode(proof)
        == CHANNEL_BINDING + COMMA + (NONCE_EQ + nonce) + COMMA + last;
    ThreeFields(CHANNEL_BINDING, NONCE_EQ + nonce, last);
  }

  lemma HeaderSextets(n: nat)
    requires n == Base64.Group('n', ',', ',')
    ensures Base64.Sextet(n, 0) == 'b' && Base64.Sextet(n, 1) == 'i'
    ensures Base64.Sextet(n, 2) == 'w' && Base64.Sextet(n, 3) == 's'
  {
    assert n == 0x6E2C2C;
  }

  // The channel-binding attribute is the base64 form of the GS2 header.
  lemma ChannelBindingIsHeader()
    ensures ['c', '='] + Base64.Encode(GS2_HEADER) == CHANNEL_BINDING
  {
    hide Base64.Sextets, Base64.Sextet, Base64.Group;
    var n := Base64.Group('n', ',', ',');
    HeaderSextets(n);
    assert |GS2_HEADER[3..]| == 0;
    assert Base64.Encode(GS2_HEADER) == Base64.Sextets(n, 4);
  }
}
