// Command lines, argument validators, capability checks and SASL initial responses.

module Commands {
  import opened Octets
  import Base64
  import Scram

  // ---------------------------------------------------------------------------
  // Command lines
  // ---------------------------------------------------------------------------

  const EHLO: bytes := "EHLO"
  const STARTTLS: bytes := "STARTTLS"
  const DATA: bytes := "DATA"
  const QUIT: bytes := "QUIT"
  const MAIL_FROM: bytes := "MAIL FROM:<"
  const RCPT_TO: bytes := "RCPT TO:<"
  const CLOSE: bytes := ">"
  const CLOSE_UTF8: bytes := "> SMTPUTF8"
  const AUTH_PLAIN: bytes := "AUTH PLAIN "
  const AUTH_LOGIN: bytes := "AUTH LOGIN"
  const AUTH_XOAUTH2: bytes := "AUTH XOAUTH2 "
  const AUTH_OAUTHBEARER: bytes := "AUTH OAUTHBEARER "
  const AUTH_SCRAM: bytes := "AUTH SCRAM-SHA-256 "

  function FormatCommand(verb: bytes): bytes {
    verb + CRLF
  }

  const STARTTLS_LINE: bytes := FormatCommand(STARTTLS)

  function FormatCommandArg(verb: bytes, arg: bytes): bytes {
    verb + [' '] + arg + CRLF
  }

  function FormatMailFrom(addr: bytes): bytes {
    MAIL_FROM + addr + CLOSE + CRLF
  }

  function FormatMailFromUtf8(addr: bytes): bytes {
    MAIL_FROM + addr + CLOSE_UTF8 + CRLF
  }

  function FormatRcptTo(addr: bytes): bytes {
    RCPT_TO + addr + CLOSE + CRLF
  }

  function RcptLines(to: seq<bytes>): bytes {
    if to == [] then [] else FormatRcptTo(to[0]) + RcptLines(to[1..])
  }

  // ---------------------------------------------------------------------------
  // Validators
  // ---------------------------------------------------------------------------

  const MAX_ADDRESS_LEN: nat := 254
  const MAX_LOCAL_PART_LEN: nat := 64
  const MAX_DOMAIN_LEN: nat := 255

  // The index of the last occurrence of c, or -1.
  function LastIndex(s: bytes, c: byte): (i: int)
    ensures -1 <= i < |s|
    ensures i >= 0 ==> s[i] == c
    ensures forall k :: i < k < |s| ==> s[k] != c
  {
    if s == [] then -1
    else if s[|s| - 1] == c then |s| - 1
    else LastIndex(s[..|s| - 1], c)
  }

  predicate ValidLengths(addr: bytes) {
    && addr != []
    && |addr| <= MAX_ADDRESS_LEN
    && var at := LastIndex(addr, '@');
    (at >= 0 ==> at <= MAX_LOCAL_PART_LEN && |addr| - at - 1 <= MAX_DOMAIN_LEN)
  }

  predicate ValidAddressByte(c: byte) {
    c as int < 128 && c !in {'\r', '\n', '\0', '<', '>', ' ', '\t'}
  }

  predicate ValidAddress(addr: bytes) {
    ValidLengths(addr) && forall i :: 0 <= i < |addr| ==> ValidAddressByte(addr[i])
  }

  // The SMTPUTF8 form, on the address's UTF-8 bytes. A C1 control character is the lead
  // byte 0xC2 followed by a byte from 0x80 to 0x9F.
  predicate ValidAddressUtf8(addr: bytes) {
    && ValidLengths(addr)
    && (forall i :: 0 <= i < |addr| ==> addr[i] !in {'<', '>', ' '} && addr[i] as int >= 0x20 && addr[i] as int != 0x7F)
    && (forall i :: 0 <= i < |addr| - 1 ==> !(addr[i] as int == 0xC2 && 0x80 <= addr[i + 1] as int <= 0x9F))
  }

  predicate Printable(s: bytes) {
    s != [] && forall i :: 0 <= i < |s| ==> 0x21 <= s[i] as int <= 0x7E
  }

  predicate ValidEhloDomain(domain: bytes) {
    Printable(domain)
  }

  // Both the username and the password of PLAIN, LOGIN and SCRAM-SHA-256.
  predicate ValidPlainCredential(s: bytes) {
    s != [] && Free(s, '\0')
  }

  const SOH: byte := '\U{1}'

  predicate ValidXOAuth2User(user: bytes) {
    user != [] && forall i :: 0 <= i < |user| ==> user[i] !in {'\0', '\r', '\n', SOH}
  }

  predicate ValidOAuth2Token(token: bytes) {
    Printable(token)
  }

  // A single line: text without CR or LF, then CR LF.
  predicate IsOneLine(line: bytes) {
    |line| >= 2 && EndsWith(line, CRLF) && Free(line[..|line| - 2], '\r') && Free(line[..|line| - 2], '\n')
  }

  lemma TextIsOneLine(text: bytes)
    requires Free(text, '\r') && Free(text, '\n')
    ensures IsOneLine(text + CRLF)
  {
    assert (text + CRLF)[..|text|] == text && (text + CRLF)[|text|..] == CRLF;
  }

  // No accepted argument can smuggle a second command onto the wire.
  lemma NoInjection(domain: bytes, addr: bytes)
    ensures ValidEhloDomain(domain) ==> IsOneLine(FormatCommandArg(EHLO, domain))
    ensures ValidAddress(addr) || ValidAddressUtf8(addr) ==>
      IsOneLine(FormatMailFrom(addr)) && IsOneLine(FormatMailFromUtf8(addr)) && IsOneLine(FormatRcptTo(addr))
  {
    if ValidEhloDomain(domain) {
      TextIsOneLine(EHLO + [' '] + domain);
    }
    if ValidAddress(addr) || ValidAddressUtf8(addr) {
      assert Free(addr, '\r') && Free(addr, '\n');
      TextIsOneLine(MAIL_FROM + addr + CLOSE);
      TextIsOneLine(MAIL_FROM + addr + CLOSE_UTF8);
      TextIsOneLine(RCPT_TO + addr + CLOSE);
    }
  }

  // How a server reads a command with a path: the path, and the parameters that follow it.
  function ReadPath(line: bytes, verb: bytes): Option<(bytes, seq<bytes>)> {
    if !StartsWith(line, verb) then None
    else
      match SplitOnce(line[|verb|..], '>')
      case None => None
      case Some(p) =>
        if p.1 == [] then Some((p.0, []))
        else if p.1[0] == ' ' then Some((p.0, Split(p.1[1..], ' ')))
        else None
  }

  function Unterminated(line: bytes): bytes
    requires |line| >= 2
  {
    line[..|line| - 2]
  }

  lemma PathRead(verb: bytes, addr: bytes, tail: bytes)
    requires Free(addr, '>')
    ensures var line := verb + addr + CLOSE + tail + CRLF;
      && |line| >= 2
      && ReadPath(Unterminated(line), verb) ==
           if tail == [] then Some((addr, []))
           else if tail[0] == ' ' then Some((addr, Split(tail[1..], ' ')))
           else None
  {
    hide Split;
    var line := verb + addr + CLOSE + tail + CRLF;
    var text := Unterminated(line);
    assert text == verb + (addr + ['>'] + tail);
    assert text[..|verb|] == verb && text[|verb|..] == addr + ['>'] + tail;
    SplitOnceAt(addr, '>', tail);
  }

  const MAX_COMMAND_LINE: nat := 512

  lemma AddressFits(addr: bytes)
    requires ValidAddress(addr) || ValidAddressUtf8(addr)
    ensures Free(addr, '>')
    ensures |FormatMailFrom(addr)| <= MAX_COMMAND_LINE
    ensures |FormatMailFromUtf8(addr)| <= MAX_COMMAND_LINE
    ensures |FormatRcptTo(addr)| <= MAX_COMMAND_LINE
  {
  }

  // A server reads back from the envelope commands the address they were made with, and for an
  // SMTPUTF8 send the one parameter that announces it; and no such command is longer than
  // section 4.5.3.1.4 of RFC 5321 allows.
  lemma PathsRead(addr: bytes)
    requires ValidAddress(addr) || ValidAddressUtf8(addr)
    ensures var mail, utf8, rcpt := FormatMailFrom(addr), FormatMailFromUtf8(addr), FormatRcptTo(addr);
      && 2 <= |mail| <= MAX_COMMAND_LINE && 2 <= |utf8| <= MAX_COMMAND_LINE && 2 <= |rcpt| <= MAX_COMMAND_LINE
      && ReadPath(Unterminated(mail), MAIL_FROM) == Some((addr, []))
      && ReadPath(Unterminated(utf8), MAIL_FROM) == Some((addr, [KW_SMTPUTF8]))
      && ReadPath(Unterminated(rcpt), RCPT_TO) == Some((addr, []))
  {
    hide Split, ReadPath, Unterminated, ValidAddress, ValidAddressUtf8;
    AddressFits(addr);
    PathRead(MAIL_FROM, addr, []);
    PathRead(RCPT_TO, addr, []);
    var tail: bytes := [' '] + KW_SMTPUTF8;
    PathRead(MAIL_FROM, addr, tail);
    assert tail[1..] == KW_SMTPUTF8 && CLOSE_UTF8 == CLOSE + tail;
    assert Free(KW_SMTPUTF8, ' ');
    SplitFree(KW_SMTPUTF8, ' ');
    Assoc(MAIL_FROM + addr, CLOSE, tail);
    assert MAIL_FROM + addr + CLOSE + [] == MAIL_FROM + addr + CLOSE;
    assert RCPT_TO + addr + CLOSE + [] == RCPT_TO + addr + CLOSE;
  }

  // ---------------------------------------------------------------------------
  // Capabilities
  // ---------------------------------------------------------------------------

  predicate IsSpace(c: byte) {
    c in {' ', '\t', '\n', '\U{C}', '\r'}
  }

  // The whitespace-separated words of s, the one in progress being `word`.
  function WordsFrom(word: bytes, s: bytes): seq<bytes>
    decreases |s|
  {
    if s == [] then (if word == [] then [] else [word])
    else if IsSpace(s[0]) then (if word == [] then [] else [word]) + WordsFrom([], s[1..])
    else WordsFrom(word + [s[0]], s[1..])
  }

  function Words(s: bytes): seq<bytes> {
    WordsFrom([], s)
  }

  predicate NoSpace(s: bytes) {
    forall i :: 0 <= i < |s| ==> !IsSpace(s[i])
  }

  lemma {:induction false} WordsOf(before: bytes, word: bytes, rest: bytes)
    requires NoSpace(word) && before + word != [] && (rest == [] || IsSpace(rest[0]))
    ensures WordsFrom(before, word + rest)
         == [before + word] + (if rest == [] then [] else Words(rest[1..]))
    decreases |word|
  {
    if word == [] {
      assert word + rest == rest && before + word == before;
    } else {
      assert (word + rest)[1..] == word[1..] + rest;
      assert before + [word[0]] + word[1..] == before + word;
      WordsOf(before + [word[0]], word[1..], rest);
    }
  }

  const KW_AUTH: bytes := "AUTH"
  const KW_PIPELINING: bytes := "PIPELINING"
  const KW_ENHANCED: bytes := "ENHANCEDSTATUSCODES"
  const KW_SMTPUTF8: bytes := "SMTPUTF8"

  predicate HeadIs(line: bytes, keyword: bytes) {
    var words := Words(line);
    words != [] && EqIgnoreCase(words[0], keyword)
  }

  predicate Advertises(caps: seq<bytes>, keyword: bytes) {
    exists line <- caps :: HeadIs(line, keyword)
  }

  predicate OffersMechanism(line: bytes, mechanism: bytes) {
    HeadIs(line, KW_AUTH) && exists word <- Words(line)[1..] :: EqIgnoreCase(word, mechanism)
  }

  predicate AdvertisesAuth(caps: seq<bytes>, mechanism: bytes) {
    exists line <- caps :: OffersMechanism(line, mechanism)
  }

  predicate AreWords(words: seq<bytes>) {
    forall i :: 0 <= i < |words| ==> words[i] != [] && NoSpace(words[i])
  }

  function Spaced(words: seq<bytes>): bytes {
    if words == [] then []
    else if |words| == 1 then words[0]
    else words[0] + ([' '] + Spaced(words[1..]))
  }

  lemma {:induction false} WordsRead(words: seq<bytes>)
    requires AreWords(words)
    ensures Words(Spaced(words)) == words
  {
    hide WordsFrom, NoSpace;
    if words == [] {
      assert WordsFrom([], []) == [] by { NoWords(); }
    } else {
      var rest := if |words| == 1 then [] else [' '] + Spaced(words[1..]);
      WordsOf([], words[0], rest);
      assert [] + words[0] == words[0] && words[0] + [] == words[0];
      assert words == [words[0]] + words[1..];
      if |words| > 1 {
        assert rest[1..] == Spaced(words[1..]);
        WordsRead(words[1..]);
      }
    }
  }

  lemma NoWords()
    ensures WordsFrom([], []) == []
  {
  }

  // What a capability line that is made of these words announces: the first word is its keyword,
  // and an AUTH line offers exactly the mechanisms that follow.
  lemma CapabilityRead(words: seq<bytes>, keyword: bytes)
    requires AreWords(words) && words != []
    ensures HeadIs(Spaced(words), keyword) <==> EqIgnoreCase(words[0], keyword)
    ensures OffersMechanism(Spaced(words), keyword) <==>
      EqIgnoreCase(words[0], KW_AUTH) && exists i :: 1 <= i < |words| && EqIgnoreCase(words[i], keyword)
  {
    hide Words, EqIgnoreCase;
    WordsRead(words);
    var offered := words[1..];
    assert forall i :: 1 <= i < |words| ==> offered[i - 1] == words[i];
  }

  // Unlike the other checks, this one compares the whole line.
  predicate AdvertisesPipelining(caps: seq<bytes>) {
    exists line <- caps :: EqIgnoreCase(line, KW_PIPELINING)
  }

  datatype AuthMechanism = Plain | Login | XOAuth2 | OAuthBearer | ScramSha256 {
    function Name(): bytes {
      match this
      case Plain => "PLAIN"
      case Login => "LOGIN"
      case XOAuth2 => "XOAUTH2"
      case OAuthBearer => "OAUTHBEARER"
      case ScramSha256 => "SCRAM-SHA-256"
    }
  }

  function SelectAuthMechanism(caps: seq<bytes>): Option<AuthMechanism> {
    if AdvertisesAuth(caps, ScramSha256.Name()) then Some(ScramSha256)
    else if AdvertisesAuth(caps, Plain.Name()) then Some(Plain)
    else if AdvertisesAuth(caps, Login.Name()) then Some(Login)
    else None
  }

  predicate ValidCredentials(mechanism: AuthMechanism, user: bytes, credential: bytes) {
    match mechanism
    case Plain | Login | ScramSha256 => ValidPlainCredential(user) && ValidPlainCredential(credential)
    case XOAuth2 => ValidXOAuth2User(user) && ValidOAuth2Token(credential)
    case OAuthBearer => ValidOAuth2Token(credential)
  }

  // ---------------------------------------------------------------------------
  // SASL initial responses
  // ---------------------------------------------------------------------------

  const USER_EQ: bytes := "user="
  const AUTH_BEARER: bytes := "auth=Bearer "
  const GS2_AUTHZID: bytes := "n,a="

  function PlainPayload(user: bytes, pass: bytes): bytes {
    ['\0'] + user + ['\0'] + pass
  }

  function XOAuth2Payload(user: bytes, token: bytes): bytes {
    USER_EQ + user + [SOH] + AUTH_BEARER + token + [SOH, SOH]
  }

  function OAuthBearerPayload(user: bytes, token: bytes): bytes {
    GS2_AUTHZID + user + [','] + [SOH] + AUTH_BEARER + token + [SOH, SOH]
  }

  function InitialResponse(mechanism: AuthMechanism, user: bytes, credential: bytes): bytes
    requires mechanism.Plain? || mechanism.XOAuth2? || mechanism.OAuthBearer?
  {
    Base64.Encode(
      if mechanism.Plain? then PlainPayload(user, credential)
      else if mechanism.XOAuth2? then XOAuth2Payload(user, credential)
      else OAuthBearerPayload(user, credential))
  }

  // The fields a server sees after decoding the response and splitting it.
  function Fields(response: bytes, sep: byte): Option<seq<bytes>> {
    match Base64.Decode(response)
    case None => None
    case Some(payload) => Some(Split(payload, sep))
  }

  lemma PlainRecovered(user: bytes, pass: bytes)
    requires ValidCredentials(Plain, user, pass)
    ensures Fields(InitialResponse(Plain, user, pass), '\0') == Some([[], user, pass])
  {
    hide Base64.Decode, Base64.Encode, Split;
    Base64.DecodeEncode(PlainPayload(user, pass));
    assert PlainPayload(user, pass) == [] + ['\0'] + (user + ['\0'] + pass);
    SplitCons([], '\0', user + ['\0'] + pass);
    SplitCons(user, '\0', pass);
    SplitFree(pass, '\0');
    var authzid: bytes := [];
    assert [authzid] + ([user] + [pass]) == [authzid, user, pass];
  }

  lemma PrependField(head: bytes, field: bytes)
    ensures [head] + [field, [], []] == [head, field, [], []]
  {
  }

  lemma BearerFields(token: bytes)
    requires ValidOAuth2Token(token)
    ensures Split(AUTH_BEARER + token + [SOH, SOH], SOH) == [AUTH_BEARER + token, [], []]
  {
    hide Split;
    var field := AUTH_BEARER + token;
    assert Free(field, SOH);
    assert field + [SOH, SOH] == field + [SOH] + ([] + [SOH] + []);
    SplitCons(field, SOH, [] + [SOH] + []);
    SplitCons([], SOH, []);
    SplitFree([], SOH);
  }

  lemma XOAuth2Recovered(user: bytes, token: bytes)
    requires ValidCredentials(XOAuth2, user, token)
    ensures Fields(InitialResponse(XOAuth2, user, token), SOH)
         == Some([USER_EQ + user, AUTH_BEARER + token, [], []])
  {
    hide Base64.Decode, Base64.Encode, Split;
    var rest := AUTH_BEARER + token + [SOH, SOH];
    Base64.DecodeEncode(XOAuth2Payload(user, token));
    assert XOAuth2Payload(user, token) == (USER_EQ + user) + [SOH] + rest;
    PrependField(USER_EQ + user, AUTH_BEARER + token);
    assert Free(USER_EQ + user, SOH);
    SplitCons(USER_EQ + user, SOH, rest);
    BearerFields(token);
  }

  // Both validated payloads determine the credentials they were built from.
  lemma ResponsesInjective(mechanism: AuthMechanism, user: bytes, cred: bytes, user': bytes, cred': bytes)
    requires mechanism.Plain? || mechanism.XOAuth2?
    requires ValidCredentials(mechanism, user, cred) && ValidCredentials(mechanism, user', cred')
    requires InitialResponse(mechanism, user, cred) == InitialResponse(mechanism, user', cred')
    ensures user == user' && cred == cred'
  {
    hide InitialResponse, Fields;
    if mechanism.Plain? {
      PlainRecovered(user, cred);
      PlainRecovered(user', cred');
      assert [[], user, cred][1] == [[], user', cred'][1] && [[], user, cred][2] == [[], user', cred'][2];
    } else {
      XOAuth2Recovered(user, cred);
      XOAuth2Recovered(user', cred');
      var f, f' := [USER_EQ + user, AUTH_BEARER + cred, [], []], [USER_EQ + user', AUTH_BEARER + cred', [], []];
      assert f[0] == f'[0] && f[1] == f'[1];
      assert user == (USER_EQ + user)[|USER_EQ|..] && user' == (USER_EQ + user')[|USER_EQ|..];
      assert cred == (AUTH_BEARER + cred)[|AUTH_BEARER|..] && cred' == (AUTH_BEARER + cred')[|AUTH_BEARER|..];
    }
  }

  // OAUTHBEARER does not validate its user. The four fields come back exactly when the user
  // holds no separator of its own.
  lemma OAuthBearerRecovered(user: bytes, token: bytes)
    requires ValidCredentials(OAuthBearer, user, token)
    ensures Fields(InitialResponse(OAuthBearer, user, token), SOH)
         == Some([GS2_AUTHZID + user + [','], AUTH_BEARER + token, [], []])
       <==> Free(user, SOH)
  {
    hide Base64.Decode, Base64.Encode, Split;
    var first := GS2_AUTHZID + user + [','];
    var rest := AUTH_BEARER + token + [SOH, SOH];
    Base64.DecodeEncode(OAuthBearerPayload(user, token));
    assert OAuthBearerPayload(user, token) == first + [SOH] + rest;
    PrependField(first, AUTH_BEARER + token);
    if Free(user, SOH) {
      assert Free(first, SOH);
      SplitCons(first, SOH, rest);
      BearerFields(token);
    } else {
      FirstFieldFree(first + [SOH] + rest, SOH);
      var k :| 0 <= k < |user| && user[k] == SOH;
      assert first[|GS2_AUTHZID| + k] == SOH;
    }
  }

  lemma FirstFieldFree(s: bytes, sep: byte)
    ensures Free(Split(s, sep)[0], sep)
  {
  }

  // ---------------------------------------------------------------------------
  // The user of OAUTHBEARER
  // ---------------------------------------------------------------------------

  const GS2_FLAG: bytes := "n"
  const AUTHZID_EQ: bytes := "a="

  // The authorization identity of a GS2 header (section 4 of RFC 5801): no channel binding, then
  // a name in which commas and equals signs are escaped.
  function HeaderUser(header: bytes): Option<bytes> {
    var parts := Split(header, ',');
    if |parts| != 3 || parts[0] != GS2_FLAG || !StartsWith(parts[1], AUTHZID_EQ) || parts[2] != [] then None
    else Scram.UnescapeSaslName(parts[1][|AUTHZID_EQ|..])
  }

  // What a server reads in an OAUTHBEARER response (section 3.1 of RFC 7628).
  function ReadBearer(response: bytes): Option<(bytes, bytes)> {
    match Fields(response, SOH)
    case None => None
    case Some(fields) =>
      if |fields| != 4 || !StartsWith(fields[1], AUTH_BEARER) || fields[2] != [] || fields[3] != [] then None
      else
        match HeaderUser(fields[0])
        case None => None
        case Some(user) => Some((user, fields[1][|AUTH_BEARER|..]))
  }

  // Un-escaping makes a name no longer, shorter if it has an escape, and adds no control byte.
  lemma {:induction false} UnescapedLength(s: bytes)
    requires Scram.UnescapeSaslName(s).Some?
    ensures var r := Scram.UnescapeSaslName(s).value;
      && |r| <= |s| && (|r| == |s| ==> Free(s, '='))
      && (Free(s, SOH) ==> Free(r, SOH))
    decreases |s|
  {
    if s == [] {
    } else if s[0] != '=' {
      UnescapedLength(s[1..]);
    } else {
      assert |s| >= 3;
      UnescapedLength(s[3..]);
    }
  }

  lemma {:induction false} PlainName(s: bytes)
    requires Free(s, ',') && Free(s, '=')
    ensures Scram.UnescapeSaslName(s) == Some(s)
  {
    if s != [] {
      PlainName(s[1..]);
      assert [s[0]] + s[1..] == s;
    }
  }

  // Two fields are what stands on the sides of one separator.
  lemma SplitTwo(s: bytes, sep: byte)
    requires |Split(s, sep)| == 2
    ensures var f := Split(s, sep);
      s == f[0] + [sep] + f[1] && Free(f[0], sep)
  {
    var p := SplitOnce(s, sep).value;
    assert Split(s, sep)[1..] == Split(p.1, sep);
    assert Split(p.1, sep) == [p.1];
  }

  // The header the client builds gives its user back exactly when the user needs no escaping.
  lemma HeaderGivesUser(user: bytes)
    ensures HeaderUser(GS2_AUTHZID + user + [',']) == Some(user) <==> Free(user, ',') && Free(user, '=')
  {
    hide Split, Scram.UnescapeSaslName;
    var header, name := GS2_AUTHZID + user + [','], AUTHZID_EQ + user;
    var rest := name + [','];
    assert GS2_AUTHZID == GS2_FLAG + [','] + AUTHZID_EQ;
    assert header == GS2_FLAG + [','] + rest;
    SplitCons(GS2_FLAG, ',', rest);
    var parts, tail := Split(header, ','), Split(rest, ',');
    assert parts == [GS2_FLAG] + tail;
    assert name[|AUTHZID_EQ|..] == user && name[..|AUTHZID_EQ|] == AUTHZID_EQ;
    if Free(user, ',') {
      assert Free(name, ',');
      assert rest == name + [','] + [];
      SplitCons(name, ',', []);
      SplitFree([], ',');
      if Free(user, '=') {
        PlainName(user);
      } else if Scram.UnescapeSaslName(user) == Some(user) {
        UnescapedLength(user);
      }
    } else if |tail| == 2 && tail[1] == [] {
      SplitTwo(rest, ',');
      OneComma(user, tail[0]);
    }
  }

  lemma OneComma(user: bytes, field: bytes)
    requires AUTHZID_EQ + user + [','] == field + [','] + [] && Free(field, ',')
    ensures Free(user, ',')
  {
    assert field == (field + [','] + [])[..|field|];
    assert field == AUTHZID_EQ + user;
    assert user == field[|AUTHZID_EQ|..];
  }

  // OAUTHBEARER escapes nothing: a server reads back the user and the token exactly when the
  // user holds no separator, comma or equals sign.
  lemma OAuthBearerRead(user: bytes, token: bytes)
    requires ValidCredentials(OAuthBearer, user, token)
    ensures ReadBearer(InitialResponse(OAuthBearer, user, token)) == Some((user, token))
       <==> Free(user, SOH) && Free(user, ',') && Free(user, '=')
  {
    hide Base64.Decode, Base64.Encode, Split, HeaderUser, InitialResponse, OAuthBearerPayload;
    var response := InitialResponse(OAuthBearer, user, token);
    OAuthBearerRecovered(user, token);
    HeaderGivesUser(user);
    var bearer := AUTH_BEARER + token;
    assert bearer[..|AUTH_BEARER|] == AUTH_BEARER && bearer[|AUTH_BEARER|..] == token;
    if !Free(user, SOH) && ReadBearer(response).Some? {
      FieldsFree(response);
      HeaderFree(Fields(response, SOH).value[0]);
    }
  }

  lemma FieldsFree(response: bytes)
    requires Fields(response, SOH).Some?
    ensures Fields(response, SOH).value != [] && Free(Fields(response, SOH).value[0], SOH)
  {
    hide Base64.Decode;
    FirstFieldFree(Base64.Decode(response).value, SOH);
  }

  lemma HeaderFree(header: bytes)
    requires Free(header, SOH) && HeaderUser(header).Some?
    ensures Free(HeaderUser(header).value, SOH)
  {
    hide Split, Scram.UnescapeSaslName;
    var parts := Split(header, ',');
    SplitParts(header, ',', SOH);
    var name := parts[1];
    assert name in parts && Free(name, SOH);
    assert Free(name[|AUTHZID_EQ|..], SOH);
    UnescapedLength(parts[1][|AUTHZID_EQ|..]);
  }

  lemma {:induction false} SplitParts(s: bytes, sep: byte, c: byte)
    requires Free(s, c)
    ensures forall part <- Split(s, sep) :: Free(part, c)
    decreases |s|
  {
    var p := SplitOnce(s, sep);
    if p.Some? {
      FreeSplit(p.value.0 + [sep], p.value.1, c);
      FreeSplit(p.value.0, [sep], c);
      SplitParts(p.value.1, sep, c);
    }
  }
}
