// The client against the scripted responder: a whole session, end to end, in both TLS modes.
// Each write is answered at once, so this is the closed loop of the two programs.

module Composition {
  import opened Octets
  import opened Errors
  import opened Session
  import opened Commands
  import opened Replies
  import opened World
  import opened Responder
  import opened Utf8
  import opened Answers
  import opened Pipelining
  import DotStuffing
  import Scram
  import Base64

  // ---------------------------------------------------------------------------
  // One exchange
  // ---------------------------------------------------------------------------

  // What was written before the last upgrade, and since.
  datatype Legs = Legs(before: bytes, after: bytes)

  function LegsOf(trace: seq<Wire>): Legs {
    if trace == [] then Legs([], [])
    else
      var n := |trace| - 1;
      var l := LegsOf(trace[..n]);
      match trace[n]
      case Wrote(data) => l.(after := l.after + data)
      case Upgraded => Legs(l.before + l.after, [])
      case _ => l
  }

  lemma LegsSnoc(trace: seq<Wire>, wire: Wire)
    ensures var l := LegsOf(trace);
      LegsOf(trace + [wire]) ==
        if wire.Wrote? then l.(after := l.after + wire.data)
        else if wire.Upgraded? then Legs(l.before + l.after, [])
        else l
  {
    assert (trace + [wire])[..|trace|] == trace;
  }

  lemma {:induction false} LegsAreBytes(trace: seq<Wire>)
    ensures LegsOf(trace).before + LegsOf(trace).after == WireBytes(trace)
  {
    if trace != [] {
      var n := |trace| - 1;
      var l := LegsOf(trace[..n]);
      LegsAreBytes(trace[..n]);
      if trace[n].Wrote? {
        Assoc(l.before, l.after, trace[n].data);
      }
    }
  }

  // The far end is this machine, fed every byte sent since the last upgrade.
  ghost predicate InStep(start: Machine, before: bytes, peer: Peer, trace: seq<Wire>) {
    LegsOf(trace).before == before && peer == Live(Feed(start, LegsOf(trace).after).peer)
  }

  ghost predicate StaysInStep(w: World, w': World) {
    forall start, before {:trigger InStep(start, before, w.net.peer, w.net.trace)} ::
      InStep(start, before, w.net.peer, w.net.trace) ==> InStep(start, before, w'.net.peer, w'.net.trace)
  }

  lemma WriteInStep(w: World, m: Machine, text: bytes)
    requires w.net.outcomes == [] && w.net.peer == Live(m)
    ensures StaysInStep(w, WriteAll(w, text).w)
  {
    hide Feed, LegsOf;
    LegsSnoc(w.net.trace, Wrote(text));
    var w' := WriteAll(w, text).w;
    forall start, before | InStep(start, before, w.net.peer, w.net.trace)
      ensures InStep(start, before, w'.net.peer, w'.net.trace)
    {
      FeedConcat(start, LegsOf(w.net.trace).after, text);
    }
  }

  lemma OtherInStep(w: World, wire: Wire)
    requires wire.Flushed? || wire.ShutDown?
    ensures StaysInStep(w, w.(net := Logged(w.net, wire)))
  {
    hide Feed, LegsOf;
    LegsSnoc(w.net.trace, wire);
  }

  // An upgrade starts afresh with the machine after its handshake.
  lemma UpgradeInStep(start: Machine, w: World)
    requires w.net.outcomes == [] && w.net.peer.Live? && InStep(start, [], w.net.peer, w.net.trace)
    ensures var w' := UpgradeToTls(w).w; var plain := LegsOf(w'.net.trace).before;
      && Feed(start, plain).peer == w.net.peer.machine
      && InStep(Handshake(w.net.peer.machine), plain, w'.net.peer, w'.net.trace)
  {
    hide LegsOf;
    LegsSnoc(w.net.trace, Upgraded);
    assert [] + LegsOf(w.net.trace).after == LegsOf(w.net.trace).after;
  }

  // w' differs from w only in the network, where output will still not fail.
  ghost predicate Onward(w: World, w': World, machine: Machine, input: bytes) {
    && w.net.outcomes == [] && w'.net.outcomes == []
    && w' == w.(net := w'.net)
    && w'.net.peer == Live(machine) && w'.net.input == input
    && StaysInStep(w, w')
  }

  lemma Say(w: World, m: Machine, text: bytes)
    requires w.net.outcomes == [] && w.net.peer == Live(m)
    ensures WriteAll(w, text).r == Ok(())
    ensures Onward(w, WriteAll(w, text).w, Feed(m, text).peer, w.net.input + Feed(m, text).reply)
  {
    hide Feed, StaysInStep;
    WriteInStep(w, m, text);
  }

  // A command line and the machine's answer to it.
  lemma SayLine(w: World, m: Machine, line: bytes)
    requires w.net.outcomes == [] && w.net.peer == Live(m) && w.net.input == []
    requires Reading(m) && m.partial == [] && Free(line, '\n') && Ascii(line) && |line| + 1 <= MAX_LINE
    ensures WriteAll(w, line + CRLF).r == Ok(())
    ensures Onward(w, WriteAll(w, line + CRLF).w, OnLine(m, line).peer, OnLine(m, line).reply)
  {
    hide Feed, OnLine, WriteAll, Lossy, Ascii;
    LossyOfAscii(line);
    FeedLine(m, line);
    Say(w, m, line + CRLF);
    assert [] + OnLine(m, line).reply == OnLine(m, line).reply;
  }

  // The next answer, with `rest` behind it.
  lemma Hear(w: World, answer: bytes, rest: bytes, code: nat, lines: seq<bytes>)
    requires Says(answer, code, lines) && w.net.input == answer + rest
    ensures var r := ReadReply(w);
      && r.r.Ok? && r.r.value.code == code && r.r.value.lines == lines
      && r.w == w.(net := w.net.(input := rest))
  {
    hide TakeReplyFrom;
    assert TakeReply(answer + rest, w.net.ending) == GotReply(code, lines, rest);
    DecodedAscii(lines);
  }

  // The only answer there is.
  lemma HearAll(w: World, answer: bytes, code: nat, lines: seq<bytes>)
    requires Says(answer, code, lines) && w.net.input == answer
    ensures var r := ReadReply(w);
      && r.r.Ok? && r.r.value.code == code && r.r.value.lines == lines
      && r.w == w.(net := w.net.(input := []))
  {
    hide ReadReply, Says;
    assert answer + [] == answer;
    Hear(w, answer, [], code, lines);
  }

  // ---------------------------------------------------------------------------
  // EHLO
  // ---------------------------------------------------------------------------

  function EhloCommand(domain: bytes): bytes {
    EHLO + [' '] + domain
  }

  predicate EhloFits(domain: bytes) {
    ValidEhloDomain(domain) && |domain| + 6 <= MAX_LINE
  }

  lemma EhloStarts(domain: bytes)
    requires EhloFits(domain)
    ensures StartsWith(EhloCommand(domain), V_EHLO) && Free(EhloCommand(domain), '\n') && Ascii(EhloCommand(domain))
    ensures EhloCommand(domain) + CRLF == FormatCommandArg(EHLO, domain) && |EhloCommand(domain)| + 1 <= MAX_LINE
  {
    assert EhloCommand(domain)[..4] == EHLO;
  }

  // The capabilities offered on a leg.
  function Capabilities(leg: Leg): seq<bytes> {
    EhloLines(if leg == TlsLeg then T_AUTH else T_STARTTLS)[1..]
  }

  function Record(m: Machine, leg: Leg, line: bytes): Machine {
    m.(lines := m.lines + [(leg, line)])
  }

  lemma EhloExchange(w: World, m: Machine, domain: bytes)
    requires EhloFits(domain)
    requires w.state == SessionState.Ehlo && w.net.outcomes == [] && w.net.input == []
    requires w.net.peer == Live(m) && m.partial == [] && (m.mode.Commands? || m.mode.PlainCommands?)
    ensures var leg := if m.mode.Commands? then TlsLeg else PlainLeg;
      var out := SendEhlo(w, domain);
      && out.r == Ok(()) && out.w.state == Authentication && out.w.capabilities == Capabilities(leg)
      && out.w.domain == w.domain && out.w.net.outcomes == [] && out.w.net.input == []
      && out.w.net.peer == Live(Record(m, leg, EhloCommand(domain)))
      && StaysInStep(w, out.w)
  {
    hide InStep, WriteAll, ReadReply, Advertises, Says, EhloReply, EhloCommand, Sayable, FormatCommandArg;
    var third := if m.mode.Commands? then T_AUTH else T_STARTTLS;
    EhloTexts();
    EhloSays(third);
    EhloStarts(domain);
    SayLine(w, m, EhloCommand(domain));
    var s := WriteAll(w, FormatCommandArg(EHLO, domain));
    HearAll(s.w, EhloReply(third), 250, EhloLines(third));
  }

  // ---------------------------------------------------------------------------
  // What the capabilities allow
  // ---------------------------------------------------------------------------

  const W_AUTH: bytes := "AUTH"
  const W_PLAIN: bytes := "PLAIN"
  const W_LOGIN: bytes := "LOGIN"

  lemma OneWord(word: bytes)
    requires word != [] && NoSpace(word)
    ensures Words(word) == [word]
  {
    hide WordsFrom;
    WordsOf([], word, []);
    assert word + [] == word && [] + word == word;
    assert [word] + [] == [word];
  }

  lemma AuthWords()
    ensures Words(T_AUTH) == [W_AUTH, W_PLAIN, W_LOGIN]
  {
    hide WordsFrom;
    var rest2: bytes := [' '] + W_LOGIN;
    var rest1: bytes := [' '] + (W_PLAIN + rest2);
    assert T_AUTH == W_AUTH + rest1;
    assert NoSpace(W_AUTH) && NoSpace(W_PLAIN) && NoSpace(W_LOGIN);
    WordsOf([], W_AUTH, rest1);
    assert rest1[1..] == W_PLAIN + rest2;
    WordsOf([], W_PLAIN, rest2);
    assert rest2[1..] == W_LOGIN;
    OneWord(W_LOGIN);
    assert [] + W_AUTH == W_AUTH && [] + W_PLAIN == W_PLAIN;
    assert [W_AUTH] + ([W_PLAIN] + [W_LOGIN]) == [W_AUTH, W_PLAIN, W_LOGIN];
  }

  lemma Heads()
    ensures !HeadIs(T_PIPELINING, KW_AUTH) && !HeadIs(T_SMTPUTF8, KW_AUTH)
    ensures HeadIs(T_STARTTLS, STARTTLS)
  {
    hide Words;
    assert NoSpace(T_PIPELINING) && NoSpace(T_SMTPUTF8) && NoSpace(T_STARTTLS);
    OneWord(T_PIPELINING);
    OneWord(T_SMTPUTF8);
    OneWord(T_STARTTLS);
  }

  // Behind TLS the client picks PLAIN and pipelines.
  lemma TlsCapabilities()
    ensures SelectAuthMechanism(Capabilities(TlsLeg)) == Some(Plain)
    ensures AdvertisesAuth(Capabilities(TlsLeg), Plain.Name())
    ensures AdvertisesPipelining(Capabilities(TlsLeg))
  {
    hide Words, HeadIs;
    var caps := Capabilities(TlsLeg);
    assert caps == [T_PIPELINING, T_AUTH, T_SMTPUTF8];
    Heads();
    AuthWords();
    AuthHead();
    assert !OffersMechanism(T_AUTH, ScramSha256.Name()) by {
      assert |ScramSha256.Name()| == 13;
    }
    assert OffersMechanism(T_AUTH, Plain.Name()) by {
      var offered: seq<bytes> := Words(T_AUTH)[1..];
      assert offered[0] == W_PLAIN && Plain.Name() == W_PLAIN;
      assert W_PLAIN in offered && EqIgnoreCase(W_PLAIN, Plain.Name());
    }
    assert T_AUTH in caps && T_PIPELINING in caps;
    assert EqIgnoreCase(T_PIPELINING, KW_PIPELINING);
  }

  lemma AuthHead()
    ensures HeadIs(T_AUTH, KW_AUTH)
  {
    hide Words;
    AuthWords();
  }

  // In the clear the client is offered STARTTLS.
  lemma PlainCapabilities()
    ensures Advertises(Capabilities(PlainLeg), STARTTLS)
  {
    hide Words, HeadIs;
    Heads();
    assert Capabilities(PlainLeg)[1] == T_STARTTLS;
  }

  // ---------------------------------------------------------------------------
  // Login
  // ---------------------------------------------------------------------------

  function AuthCommand(user: bytes, pass: bytes): bytes {
    AUTH_PLAIN + InitialResponse(Plain, user, pass)
  }

  predicate CredentialsFit(user: bytes, pass: bytes) {
    && ValidPlainCredential(user) && ValidPlainCredential(pass)
    && |AuthCommand(user, pass)| + 1 <= MAX_LINE
  }

  // A session in its command phase: everything said so far is recorded, nothing is pending.
  predicate Talking(w: World, m: Machine) {
    && w.net.outcomes == [] && w.net.input == [] && w.net.peer == Live(m)
    && m.mode.Commands? && m.partial == [] && w.capabilities == Capabilities(TlsLeg)
  }

  lemma AuthStarts(user: bytes, pass: bytes)
    ensures var line := AuthCommand(user, pass);
      StartsWith(line, V_AUTH_PLAIN) && !StartsWith(line, V_EHLO) && Free(line, '\n') && Ascii(line)
  {
    hide Base64.Encode, Base64.IsSymbol, InitialResponse;
    var line := AuthCommand(user, pass);
    assert line[..10] == V_AUTH_PLAIN;
    assert line[..4][0] == 'A';
    ResponseFree(user, pass);
  }

  lemma ResponseFree(user: bytes, pass: bytes)
    ensures Free(InitialResponse(Plain, user, pass), '\n') && Ascii(InitialResponse(Plain, user, pass))
  {
    hide Base64.Encode;
    Scram.EncodedFree(PlainPayload(user, pass), '\n');
    Base64.EncodeSymbols(PlainPayload(user, pass));
  }

  lemma AnswerToAuth(m: Machine, line: bytes)
    requires m.mode.Commands? && StartsWith(line, V_AUTH_PLAIN) && !StartsWith(line, V_EHLO)
    ensures OnLine(m, line) == Fed(Record(m, TlsLeg, line), AUTH_OK)
  {
  }

  lemma LoginExchange(env: Env, w: World, m: Machine, user: bytes, pass: bytes, entropy: Option<bytes>)
    requires CredentialsFit(user, pass)
    requires Talking(w, m) && w.state == Authentication
    ensures var out := DoLogin(env, w, user, pass, entropy);
      && out.r == Ok(()) && out.w.state == SessionState.MailFrom
      && Talking(out.w, Record(m, TlsLeg, AuthCommand(user, pass)))
      && StaysInStep(w, out.w)
  {
    hide InStep, WriteAll, ReadReply, SelectAuthMechanism, AdvertisesAuth, Says, OnLine, InitialResponse,
      AuthMechanism.Name, Capabilities;
    TlsCapabilities();
    var line := AuthCommand(user, pass);
    AuthStarts(user, pass);
    AnswerToAuth(m, line);
    SayLine(w, m, line);
    var s := WriteAll(w, line + CRLF);
    Answers.Answers();
    HearAll(s.w, AUTH_OK, 235, [T_AUTH_OK]);
  }

  // ---------------------------------------------------------------------------
  // The envelope
  // ---------------------------------------------------------------------------

  function MailCommand(from: bytes): bytes {
    MAIL_FROM + from + CLOSE
  }

  function RcptCommand(addr: bytes): bytes {
    RCPT_TO + addr + CLOSE
  }

  lemma MailStarts(from: bytes)
    requires ValidAddress(from)
    ensures var line := MailCommand(from);
      && StartsWith(line, V_MAIL) && !StartsWith(line, V_EHLO) && !StartsWith(line, V_AUTH_PLAIN)
      && Free(line, '\n') && Ascii(line) && |line| + 1 <= MAX_LINE && line + CRLF == FormatMailFrom(from)
  {
    var line := MailCommand(from);
    assert line[..9] == V_MAIL;
    assert line[..4][0] == 'M' && line[..10][0] == 'M';
  }

  lemma RcptStarts(addr: bytes)
    requires ValidAddress(addr)
    ensures var line := RcptCommand(addr);
      && StartsWith(line, V_RCPT) && !StartsWith(line, V_EHLO) && !StartsWith(line, V_AUTH_PLAIN)
      && !StartsWith(line, V_MAIL)
      && Free(line, '\n') && Ascii(line) && |line| + 1 <= MAX_LINE && line + CRLF == FormatRcptTo(addr)
  {
    var line := RcptCommand(addr);
    assert line[..7] == V_RCPT;
    assert line[..4][0] == 'R' && line[..10][0] == 'R' && line[..9][0] == 'R';
  }

  lemma FeedMailFrom(m: Machine, from: bytes)
    requires m.mode.Commands? && m.partial == [] && ValidAddress(from)
    ensures Feed(m, FormatMailFrom(from)) == Fed(Record(m, TlsLeg, MailCommand(from)), MAIL_OK)
  {
    hide Feed, MailCommand, StartsWith, ValidAddress, FormatMailFrom, Lossy, Ascii;
    MailStarts(from);
    LossyOfAscii(MailCommand(from));
    FeedLine(m, MailCommand(from));
  }

  lemma FeedRcptTo(m: Machine, addr: bytes)
    requires m.mode.Commands? && m.partial == [] && ValidAddress(addr)
    ensures Feed(m, FormatRcptTo(addr)) == Fed(Record(m, TlsLeg, RcptCommand(addr)), RCPT_OK)
  {
    hide Feed, RcptCommand, StartsWith, ValidAddress, FormatRcptTo, Lossy, Ascii;
    RcptStarts(addr);
    LossyOfAscii(RcptCommand(addr));
    FeedLine(m, RcptCommand(addr));
  }

  lemma FeedData(m: Machine)
    requires m.mode.Commands? && m.partial == []
    ensures Feed(m, FormatCommand(DATA))
         == Fed(Record(m, TlsLeg, DATA).(mode := Mail, data := []), GO_AHEAD)
  {
    hide Feed, Lossy;
    assert DATA[0] == 'D';
    LossyOfAscii(DATA);
    assert !StartsWith(DATA, V_EHLO) by { assert V_EHLO[0] != DATA[0]; }
    FeedLine(m, DATA);
  }

  function RcptRecord(m: Machine, to: seq<bytes>): Machine
    decreases |to|
  {
    if to == [] then m else RcptRecord(Record(m, TlsLeg, RcptCommand(to[0])), to[1..])
  }

  function RcptAnswers(count: nat): bytes {
    if count == 0 then [] else RCPT_OK + RcptAnswers(count - 1)
  }

  lemma {:induction false} FeedRcpts(m: Machine, to: seq<bytes>)
    requires m.mode.Commands? && m.partial == [] && forall addr <- to :: ValidAddress(addr)
    ensures Feed(m, RcptLines(to)) == Fed(RcptRecord(m, to), RcptAnswers(|to|))
    ensures RcptRecord(m, to).mode.Commands? && RcptRecord(m, to).partial == []
    decreases |to|
  {
    hide FormatRcptTo, RcptCommand, ValidAddress;
    if to != [] {
      FeedRcptTo(m, to[0]);
      FeedConcat(m, FormatRcptTo(to[0]), RcptLines(to[1..]));
      FeedRcpts(Record(m, TlsLeg, RcptCommand(to[0])), to[1..]);
    }
  }

  // The machine after a whole pipelined envelope.
  function EnvelopeRecord(m: Machine, from: bytes, to: seq<bytes>): Machine {
    Record(RcptRecord(Record(m, TlsLeg, MailCommand(from)), to), TlsLeg, DATA)
  }

  lemma FeedEnvelope(m: Machine, from: bytes, to: seq<bytes>)
    requires m.mode.Commands? && m.partial == [] && ValidEnvelope(from, to)
    ensures Feed(m, PipelineText(FormatMailFrom(from), to))
         == Fed(EnvelopeRecord(m, from, to).(mode := Mail, data := []), MAIL_OK + (RcptAnswers(|to|) + GO_AHEAD))
  {
    hide Feed, FormatMailFrom, FormatCommand, RcptLines, RcptAnswers, MailCommand, ValidAddress, RcptRecord;
    var m1 := Record(m, TlsLeg, MailCommand(from));
    var m2 := RcptRecord(m1, to);
    FeedMailFrom(m, from);
    FeedRcpts(m1, to);
    FeedData(m2);
    FeedConcat(m, FormatMailFrom(from), RcptLines(to));
    FeedConcat(m, FormatMailFrom(from) + RcptLines(to), FormatCommand(DATA));
    Assoc(MAIL_OK, RcptAnswers(|to|), GO_AHEAD);
  }

  // The session goes on: nothing is different but the log and how much has been heard.
  predicate Heard(w: World, w': World, input: bytes) {
    w' == w.(audit := w'.audit, net := w.net.(input := input))
  }

  lemma HearRcpt(w: World, rest: bytes)
    requires w.net.input == RCPT_OK + rest
    ensures ReadRcptReply(w).r == Ok(()) && Heard(w, ReadRcptReply(w).w, rest)
  {
    hide ReadReply, Says;
    Answers.Answers();
    Hear(w, RCPT_OK, rest, 250, [T_RCPT_OK]);
  }

  lemma {:induction false} HearRcpts(w: World, count: nat, rest: bytes)
    requires w.net.input == RcptAnswers(count) + rest
    ensures var out := ReadRcptReplies(w, count); out.r == Ok(()) && Heard(w, out.w, rest)
    decreases count
  {
    hide ReadRcptReply;
    if count == 0 {
      assert RcptAnswers(count) + rest == rest;
    } else {
      Assoc(RCPT_OK, RcptAnswers(count - 1), rest);
      HearRcpt(w, RcptAnswers(count - 1) + rest);
      HearRcpts(ReadRcptReply(w).w, count - 1, rest);
    }
  }

  lemma HearClass(w: World, answer: bytes, rest: bytes, code: nat, lines: seq<bytes>, during: SmtpOp)
    requires Says(answer, code, lines) && w.net.input == answer + rest
    ensures var r := ExpectClass(w, code / 100, during);
      r.r.Ok? && r.r.value.code == code && r.w == w.(net := w.net.(input := rest))
    ensures var r := ExpectCode(w, code, during);
      r.r.Ok? && r.r.value.code == code && r.w == w.(net := w.net.(input := rest))
  {
    hide ReadReply, Says;
    Hear(w, answer, rest, code, lines);
  }

  lemma EnvelopeExchange(w: World, m: Machine, from: bytes, to: seq<bytes>)
    requires ValidEnvelope(from, to)
    requires Talking(w, m) && w.state in {Authentication, SessionState.MailFrom}
    ensures var out := RunEnvelope(w, FormatMailFrom(from), to);
      && out.r == Ok(()) && out.w.state == SessionState.Data && out.w.capabilities == w.capabilities
      && out.w.net.outcomes == [] && out.w.net.input == []
      && out.w.net.peer == Live(EnvelopeRecord(m, from, to).(mode := Mail, data := []))
      && StaysInStep(w, out.w)
  {
    hide InStep, WriteAll, ExpectClass, ExpectCode, ReadRcptReplies, AdvertisesPipelining, Says, PipelineText,
      FormatMailFrom, Feed, EnvelopeRecord, RcptAnswers, Capabilities, ValidEnvelope;
    TlsCapabilities();
    Answers.Answers();
    var w0 := w.(state := SessionState.Data);
    var text := PipelineText(FormatMailFrom(from), to);
    FeedEnvelope(m, from, to);
    Say(w0, m, text);
    var answers := RcptAnswers(|to|) + GO_AHEAD;
    assert [] + (MAIL_OK + answers) == MAIL_OK + answers;
    var w1 := Flush(WriteAll(w0, text).w).w;
    OtherInStep(WriteAll(w0, text).w, Flushed);
    HearClass(w1, MAIL_OK, answers, 250, [T_MAIL_OK], SmtpOp.MailFrom);
    var r := ExpectClass(w1, 2, SmtpOp.MailFrom);
    var w2 := Audit(r.w, MailFromAccepted(r.r.value.code));
    HearRcpts(w2, |to|, GO_AHEAD);
    var w3 := ReadRcptReplies(w2, |to|).w;
    assert GO_AHEAD + [] == GO_AHEAD;
    HearClass(w3, GO_AHEAD, [], 354, [T_GO_AHEAD], SmtpOp.Data);
  }

  // ---------------------------------------------------------------------------
  // The message
  // ---------------------------------------------------------------------------

  predicate BareLfAt(s: bytes, i: int) {
    0 <= i < |s| && s[i] == '\n' && !CrlfAt(s, i - 1)
  }

  // Every LF of the body is the end of a CRLF.
  predicate NoBareLf(body: bytes) {
    forall i :: 0 <= i < |body| ==> !BareLfAt(body, i)
  }

  // Every line, as it is sent, fits the responder's line buffer.
  predicate LinesFit(lines: bytes)
    decreases |lines|
  {
    match FindCrlf(lines)
    case None => true
    case Some(p) => |DotStuffing.Dotted(lines[..p])| + 1 <= MAX_LINE && LinesFit(lines[p + 2..])
  }

  lemma LineOfBody(line: bytes, rest: bytes)
    requires NoCrlf(line) && NoBareLf(line + CRLF + rest)
    ensures Free(line, '\n') && Free(DotStuffing.Dotted(line), '\n') && NoBareLf(rest)
  {
    var s := line + CRLF + rest;
    forall i | 0 <= i < |line| ensures line[i] != '\n' {
      assert !BareLfAt(s, i) && !CrlfAt(line, i - 1);
    }
    forall i | 0 <= i < |rest| ensures !BareLfAt(rest, i) {
      assert !BareLfAt(s, i + |line| + 2);
    }
  }

  lemma {:induction false} FeedLines(m: Machine, lines: bytes)
    requires m.mode.Mail? && m.partial == []
    requires lines == [] || EndsWithCrlf(lines)
    requires NoBareLf(lines) && LinesFit(lines)
    ensures Feed(m, DotStuffing.Stuffed(lines)) == Fed(m.(data := m.data + Lossy(DotStuffing.Stuffed(lines))), [])
    decreases |lines|
  {
    hide DotStuffing.Stuffed, DotStuffing.Dotted, NoBareLf, Lossy;
    if lines == [] {
      NothingIsText();
      assert m.data + [] == m.data;
    } else {
      var line, rest := DotStuffing.CutLine(lines);
      FirstLine(line, rest);
      LineOfBody(line, rest);
      DotStuffing.DottedNoCrlf(line);
      DotStuffing.StuffedLines(line, rest);
      var d := DotStuffing.Dotted(line);
      var text := Lossy(d);
      FeedLine(m, d);
      NotDot(d);
      assert OnLine(m, text) == Fed(m.(data := m.data + text + CRLF), []);
      FeedConcat(m, d + CRLF, DotStuffing.Stuffed(rest));
      FeedLines(m.(data := m.data + text + CRLF), rest);
      LossyAtCrlf(d, DotStuffing.Stuffed(rest));
      Assoc(m.data, text, CRLF);
      Assoc(m.data, text + CRLF, Lossy(DotStuffing.Stuffed(rest)));
    }
  }

  // Only the lone period decodes to it.
  lemma NotDot(line: bytes)
    requires line != DOT
    ensures Lossy(line) != DOT
  {
    hide Lossy;
    if Lossy(line) == DOT {
      LossyAscii(line);
    }
  }

  lemma CompleteNoBareLf(body: bytes)
    requires NoBareLf(body)
    ensures NoBareLf(DotStuffing.Complete(body)) && EndsWithCrlf(DotStuffing.Complete(body))
  {
    var lines := DotStuffing.Complete(body);
    forall i | 0 <= i < |lines| ensures !BareLfAt(lines, i) {
      assert !BareLfAt(body, i) && (CrlfAt(body, i - 1) ==> CrlfAt(lines, i - 1));
    }
  }

  // Feeding a payload stores the stuffed message, decoded, and queues it.
  lemma FeedPayload(m: Machine, body: bytes)
    requires m.mode.Mail? && m.partial == [] && m.data == []
    requires NoBareLf(body) && LinesFit(DotStuffing.Complete(body))
    ensures Feed(m, DotStuffing.Payload(body))
         == Fed(m.(mode := Commands, body := Recorded(body)), QUEUED)
  {
    hide Feed, DotStuffing.Stuffed, DotStuffing.Payload, LinesFit, Lossy;
    var lines := DotStuffing.Complete(body);
    var stuffed := DotStuffing.Stuffed(lines);
    CompleteNoBareLf(body);
    DotStuffing.PayloadComplete(body);
    FeedLines(m, lines);
    FeedConcat(m, stuffed, DotStuffing.DOT_LINE);
    assert [] + Lossy(stuffed) == Lossy(stuffed);
    var m1 := m.(data := Lossy(stuffed));
    assert DotStuffing.DOT_LINE == DOT + CRLF;
    FeedLine(m1, DOT);
    LossyOfAscii(DOT);
    assert [] + QUEUED == QUEUED;
  }

  // What the responder keeps of a message: the stuffed lines, decoded.
  function Recorded(body: bytes): bytes {
    Lossy(DotStuffing.Stuffed(DotStuffing.Complete(body)))
  }

  lemma SendExchange(env: Env, w: World, m: Machine, from: bytes, to: seq<bytes>, body: bytes)
    requires ValidEnvelope(from, to) && CheckPolicy(env, w, from, to, |body|).r.Ok?
    requires NoBareLf(body) && LinesFit(DotStuffing.Complete(body))
    requires Talking(w, m) && w.state in {Authentication, SessionState.MailFrom}
    ensures var out := SendMail(env, w, from, to, body);
      && out.r.Ok? && out.w.state == SessionState.MailFrom
      && Talking(out.w, EnvelopeRecord(m, from, to).(data := [], body := Recorded(body)))
      && StaysInStep(w, out.w)
  {
    hide InStep, WriteAll, RunEnvelope, ReadReply, Says, Feed, EnvelopeRecord, ValidEnvelope, FormatMailFrom,
      NoBareLf, LinesFit, DotStuffing.Payload, DotStuffing.Stuffed, Capabilities;
    EnvelopeExchange(w, m, from, to);
    EnvelopeRecordIdle(m, from, to);
    var w1 := RunEnvelope(w, FormatMailFrom(from), to).w;
    var m1 := EnvelopeRecord(m, from, to).(mode := Mail, data := []);
    FeedPayload(m1, body);
    Say(w1, m1, DotStuffing.Payload(body));
    var w2 := WriteAll(w1, DotStuffing.Payload(body)).w;
    assert [] + QUEUED == QUEUED;
    Answers.Answers();
    HearAll(w2, QUEUED, 250, [T_QUEUED]);
  }

  lemma EnvelopeRecordIdle(m: Machine, from: bytes, to: seq<bytes>)
    requires m.mode.Commands? && m.partial == [] && ValidEnvelope(from, to)
    ensures EnvelopeRecord(m, from, to).mode.Commands? && EnvelopeRecord(m, from, to).partial == []
  {
    hide ValidAddress, MailCommand;
    FeedRcpts(Record(m, TlsLeg, MailCommand(from)), to);
  }

  // ---------------------------------------------------------------------------
  // Quit
  // ---------------------------------------------------------------------------

  lemma AnswerToQuit(m: Machine)
    requires m.mode.Commands?
    ensures OnLine(m, QUIT) == Fed(Record(m, TlsLeg, QUIT).(mode := Finished), BYE)
  {
    assert QUIT[0] == 'Q';
    assert !StartsWith(QUIT, V_EHLO) by { assert V_EHLO[0] != QUIT[0]; }
  }

  lemma QuitExchanged(w: World, m: Machine)
    requires Talking(w, m) && w.state == SessionState.MailFrom
    ensures var out := DoQuit(w);
      && out.r == Ok(()) && out.w.net.peer == Live(Record(m, TlsLeg, QUIT).(mode := Finished))
      && StaysInStep(w, out.w)
  {
    hide InStep, WriteAll, ExpectCode, Says, OnLine;
    AnswerToQuit(m);
    var w1 := w.(state := SessionState.Quit);
    SayLine(w1, m, QUIT);
    var s := WriteAll(w1, QUIT + CRLF);
    Answers.Answers();
    assert BYE + [] == BYE;
    HearClass(s.w, BYE, [], 221, [T_BYE], SmtpOp.Quit);
    OtherInStep(QuitExchange(w).w, ShutDown);
  }

  // ---------------------------------------------------------------------------
  // The two-party theorem
  // ---------------------------------------------------------------------------

  // The lines of a session, in the order they are sent.
  function SessionLines(
      starttls: bool, domain: bytes, user: bytes, pass: bytes, from: bytes, to: seq<bytes>): seq<(Leg, bytes)>
  {
    (if starttls then [(PlainLeg, EhloCommand(domain)), (PlainLeg, STARTTLS)] else [])
    + [(TlsLeg, EhloCommand(domain)), (TlsLeg, AuthCommand(user, pass)), (TlsLeg, MailCommand(from))]
    + RcptCommands(to)
    + [(TlsLeg, DATA), (TlsLeg, QUIT)]
  }

  function RcptCommands(to: seq<bytes>): seq<(Leg, bytes)> {
    if to == [] then [] else [(TlsLeg, RcptCommand(to[0]))] + RcptCommands(to[1..])
  }

  lemma {:induction false} RcptRecordLines(m: Machine, to: seq<bytes>)
    ensures RcptRecord(m, to) == m.(lines := m.lines + RcptCommands(to))
    decreases |to|
  {
    hide RcptCommand;
    if to == [] {
      assert m.lines + [] == m.lines;
    } else {
      var m1 := Record(m, TlsLeg, RcptCommand(to[0]));
      RcptRecordLines(m1, to[1..]);
      assert m1.lines + RcptCommands(to[1..]) == m.lines + RcptCommands(to);
    }
  }

  // A connection to a fresh responder, its greeting on the way.
  function Dial(starttls: bool): Net {
    Net(GREETING, Eof, [], false, [], [], Live(Responder.Start(starttls)))
  }

  // What the caller has to supply: accepted arguments, lines the responder can hold, a body
  // without bare line feeds, and a policy that lets the message through.
  ghost predicate Acceptable(
      env: Env, domain: bytes, user: bytes, pass: bytes, from: bytes, to: seq<bytes>, body: bytes)
  {
    && EhloFits(domain) && CredentialsFit(user, pass) && ValidEnvelope(from, to)
    && NoBareLf(body) && LinesFit(DotStuffing.Complete(body))
    && env.checkSender(from) && env.checkRecipients(to) && env.checkSize(|body|)
  }

  lemma GreetingHeard(starttls: bool, domain: bytes)
    ensures var w := Audit(Fresh(Dial(starttls), domain), Connected); var out := ReadGreeting(w);
      && out.r == Ok(())
      && out.w == Audit(w, GreetingReceived(220)).(state := SessionState.Ehlo, net := w.net.(input := []))
  {
    hide ReadReply, Says;
    Answers.Answers();
    var w := Audit(Fresh(Dial(starttls), domain), Connected);
    HearAll(w, GREETING, 220, [T_GREETING]);
  }

  lemma NothingFed(start: Machine)
    ensures InStep(start, [], Live(start), [])
  {
  }

  // Connecting, in either mode.
  lemma ConnectExchange(starttls: bool, domain: bytes)
    requires EhloFits(domain)
    ensures var out := Connect(Dial(starttls), domain); var leg := if starttls then PlainLeg else TlsLeg;
      && out.r == Ok(()) && out.w.state == Authentication && out.w.domain == domain
      && out.w.net.outcomes == [] && out.w.net.input == [] && out.w.capabilities == Capabilities(leg)
      && out.w.net.peer == Live(Record(Responder.Start(starttls), leg, EhloCommand(domain)))
      && InStep(Responder.Start(starttls), [], out.w.net.peer, out.w.net.trace)
  {
    hide InStep, ReadGreeting, SendEhlo, Capabilities, EhloCommand;
    NothingFed(Responder.Start(starttls));
    GreetingHeard(starttls, domain);
    var w := Audit(Fresh(Dial(starttls), domain), Connected);
    EhloExchange(ReadGreeting(w).w, Responder.Start(starttls), domain);
  }

  lemma AnswerToStartTls(m: Machine)
    requires m.mode.PlainCommands?
    ensures OnLine(m, STARTTLS) == Fed(Record(m, PlainLeg, STARTTLS).(mode := AwaitTls), READY_FOR_TLS)
    ensures Free(STARTTLS, '\n') && Ascii(STARTTLS) && FormatCommand(STARTTLS) == STARTTLS + CRLF
  {
    assert STARTTLS[0] == 'S';
    assert !StartsWith(STARTTLS, V_EHLO) by { assert V_EHLO[0] != STARTTLS[0]; }
  }

  // The plaintext leg ended with the responder waiting for TLS, and the far end is that
  // responder after its handshake, fed every byte sent since.
  ghost predicate OverTls(net: Net) {
    var l := LegsOf(net.trace);
    var waiting := Feed(Responder.Start(true), l.before).peer;
    waiting.mode.AwaitTls? && InStep(Handshake(waiting), l.before, net.peer, net.trace)
  }

  lemma OverTlsStays(w: World, w': World)
    requires OverTls(w.net) && StaysInStep(w, w')
    ensures OverTls(w'.net)
  {
    hide LegsOf, Feed;
  }

  // Asking for TLS: the responder has nothing more to say before the handshake, so nothing can
  // be left in the client's buffer.
  lemma RequestExchange(w: World, m: Machine)
    requires w.state == Authentication && w.capabilities == Capabilities(PlainLeg)
    requires w.net.outcomes == [] && w.net.input == [] && w.net.peer == Live(m)
    requires m.mode.PlainCommands? && m.partial == []
    ensures var out := RequestTls(w);
      && out.r == Ok(()) && out.w.state == SessionState.StartTls && out.w.domain == w.domain
      && out.w.net.outcomes == [] && out.w.net.input == []
      && out.w.net.peer == Live(Record(m, PlainLeg, STARTTLS).(mode := AwaitTls))
      && StaysInStep(w, out.w)
  {
    hide InStep, WriteAll, ExpectCode, Advertises, Says, OnLine, Capabilities, Ascii, Free, FormatCommand;
    PlainCapabilities();
    AnswerToStartTls(m);
    var w1 := w.(state := SessionState.StartTls);
    SayLine(w1, m, STARTTLS);
    var s := WriteAll(w1, STARTTLS + CRLF);
    Answers.Answers();
    assert READY_FOR_TLS + [] == READY_FOR_TLS;
    HearClass(s.w, READY_FOR_TLS, [], 220, [T_READY], SmtpOp.StartTls);
  }

  lemma UpgradeExchange(w: World, m: Machine, residue: nat)
    requires EhloFits(w.domain) && w.state == Authentication && w.capabilities == Capabilities(PlainLeg)
    requires w.net.outcomes == [] && w.net.input == [] && w.net.peer == Live(m)
    requires m.mode.PlainCommands? && m.partial == [] && InStep(Responder.Start(true), [], w.net.peer, w.net.trace)
    requires residue <= |RequestTls(w).w.net.input|
    ensures var out := DoStartTls(w, residue);
      && out.r == Ok(()) && out.w.state == Authentication && out.w.domain == w.domain
      && Talking(out.w, Record(Record(m, PlainLeg, STARTTLS), TlsLeg, EhloCommand(w.domain)).(mode := Commands))
      && OverTls(out.w.net)
  {
    hide InStep, OverTls, SendEhlo, RequestTls, Capabilities, EhloCommand, LegsOf;
    RequestExchange(w, m);
    var r := RequestTls(w);
    var w1 := r.w.(capabilities := []);
    var m1 := Record(m, PlainLeg, STARTTLS);
    UpgradeInStep(Responder.Start(true), w1);
    var u := UpgradeToTls(w1);
    StartsOverTls(u.w.net, m1.(mode := AwaitTls));
    var w2 := Audit(u.w, TlsUpgraded).(state := SessionState.Ehlo);
    EhloExchange(w2, m1.(mode := Commands), w.domain);
    OverTlsStays(w2, SendEhlo(w2, w.domain).w);
  }

  lemma StartsOverTls(net: Net, waiting: Machine)
    requires waiting.mode.AwaitTls? && Feed(Responder.Start(true), LegsOf(net.trace).before).peer == waiting
    requires InStep(Handshake(waiting), LegsOf(net.trace).before, net.peer, net.trace)
    ensures OverTls(net)
  {
  }

  // From an authenticated-to-be session to its end.
  lemma RestOfSession(
      env: Env, w: World, m: Machine, user: bytes, pass: bytes, entropy: Option<bytes>,
      from: bytes, to: seq<bytes>, body: bytes)
    requires Acceptable(env, w.domain, user, pass, from, to, body)
    requires Talking(w, m) && w.state == Authentication
    ensures var l := DoLogin(env, w, user, pass, entropy);
      var s := SendMail(env, l.w, from, to, body);
      var q := DoQuit(s.w);
      && l.r == Ok(()) && s.r.Ok? && q.r == Ok(())
      && q.w.net.peer.Live?
      && q.w.net.peer.machine.mode == Finished
      && q.w.net.peer.machine.body == Recorded(body)
      && q.w.net.peer.machine.lines == m.lines + [(TlsLeg, AuthCommand(user, pass)), (TlsLeg, MailCommand(from))]
           + RcptCommands(to) + [(TlsLeg, DATA), (TlsLeg, QUIT)]
      && StaysInStep(w, q.w)
  {
    hide InStep, DoLogin, SendMail, DoQuit, CredentialsFit, AuthCommand, MailCommand, RcptCommands, ValidEnvelope,
      NoBareLf, LinesFit, DotStuffing.Stuffed, DotStuffing.Complete, Talking, EhloFits, RcptRecord;
    LoginExchange(env, w, m, user, pass, entropy);
    var l := DoLogin(env, w, user, pass, entropy);
    var m1 := Record(m, TlsLeg, AuthCommand(user, pass));
    SendExchange(env, l.w, m1, from, to, body);
    var s := SendMail(env, l.w, from, to, body);
    var m2 := EnvelopeRecord(m1, from, to).(data := [], body := Recorded(body));
    QuitExchanged(s.w, m2);
    RcptRecordLines(Record(m1, TlsLeg, MailCommand(from)), to);
    var auth, mail := (TlsLeg, AuthCommand(user, pass)), (TlsLeg, MailCommand(from));
    assert m.lines + [auth] + [mail] == m.lines + [auth, mail];
    assert m.lines + [auth, mail] + RcptCommands(to) + [(TlsLeg, DATA)] + [(TlsLeg, QUIT)]
        == m.lines + [auth, mail] + RcptCommands(to) + [(TlsLeg, DATA), (TlsLeg, QUIT)];
  }

  lemma DottedText(line: bytes)
    ensures DotStuffing.Dotted(Lossy(line)) == Lossy(DotStuffing.Dotted(line))
  {
    hide Lossy, IsUtf8;
    if line == [] {
      NothingIsText();
    } else {
      LossyHead(line, '.');
      LossyAt([], '.', line);
      NothingIsText();
      var dot: bytes := ['.'];
      assert [] + dot + line == dot + line;
      assert [] + dot + Lossy(line) == dot + Lossy(line);
    }
  }

  // Stuffing and decoding commute.
  lemma {:induction false} StuffedText(lines: bytes)
    requires lines == [] || EndsWithCrlf(lines)
    requires NoBareLf(lines)
    ensures Lossy(DotStuffing.Stuffed(lines)) == DotStuffing.Stuffed(Lossy(lines))
    ensures lines != [] ==> EndsWithCrlf(Lossy(lines))
    decreases |lines|
  {
    hide DotStuffing.Stuffed, DotStuffing.Dotted, NoBareLf, Lossy, IsUtf8;
    NothingIsText();
    if lines != [] {
      var line, rest := DotStuffing.CutLine(lines);
      LineOfBody(line, rest);
      StuffedText(rest);
      DotStuffing.StuffedLines(line, rest);
      LossyAtCrlf(line, rest);
      LossyAtCrlf(DotStuffing.Dotted(line), DotStuffing.Stuffed(rest));
      DottedText(line);
      LossyFree(line, '\n');
      DotStuffing.StuffedLines(Lossy(line), Lossy(rest));
      EndOfLines(Lossy(line), Lossy(rest));
    }
  }

  lemma EndOfLines(line: bytes, rest: bytes)
    requires rest == [] || EndsWithCrlf(rest)
    ensures EndsWithCrlf(line + CRLF + rest)
  {
  }

  lemma CompleteText(body: bytes)
    ensures IsUtf8(DotStuffing.Complete(body)) <==> IsUtf8(body)
  {
    hide Lossy, IsUtf8;
    LossyAtCrlf(body, []);
    NothingIsText();
    assert body + CRLF + [] == body + CRLF;
  }

  // The recorded text un-stuffs to the message as text, which is the message if it is UTF-8.
  predicate HoldsMessage(recorded: bytes, body: bytes) {
    && DotStuffing.Receive(recorded + DotStuffing.DOT_LINE) == Some((Lossy(DotStuffing.Complete(body)), []))
    && (IsUtf8(body) ==> Lossy(DotStuffing.Complete(body)) == DotStuffing.Complete(body))
  }

  // What the responder recorded holds the message.
  lemma RecordedBody(body: bytes)
    requires NoBareLf(body)
    ensures HoldsMessage(Recorded(body), body)
  {
    hide DotStuffing.Receive, DotStuffing.Stuffed, Lossy, IsUtf8, NoBareLf;
    var complete := DotStuffing.Complete(body);
    CompleteNoBareLf(body);
    StuffedText(complete);
    CompleteText(body);
    LossyFixed(complete);
    assert DotStuffing.DOT_LINE + [] == DotStuffing.DOT_LINE;
    DotStuffing.ReceiveLines(Lossy(complete), []);
    LossyOfSome(complete);
  }

  lemma LossyOfSome(s: bytes)
    requires s != []
    ensures Lossy(s) != []
  {
  }

  // Implicit TLS: connect, log in, send and quit all succeed against the responder; what it
  // recorded is exactly the intended command lines in order, and the message.
  lemma ImplicitTlsSession(
      env: Env, domain: bytes, user: bytes, pass: bytes, entropy: Option<bytes>,
      from: bytes, to: seq<bytes>, body: bytes)
    requires Acceptable(env, domain, user, pass, from, to, body)
    ensures var c := Connect(Dial(false), domain);
      var l := DoLogin(env, c.w, user, pass, entropy);
      var s := SendMail(env, l.w, from, to, body);
      var q := DoQuit(s.w);
      && c.r == Ok(()) && l.r == Ok(()) && s.r.Ok? && q.r == Ok(())
      && q.w.net.peer.Live?
      && InStep(Responder.Start(false), [], q.w.net.peer, q.w.net.trace)
      && q.w.net.peer.machine.mode == Finished
      && q.w.net.peer.machine.lines == SessionLines(false, domain, user, pass, from, to)
      && HoldsMessage(q.w.net.peer.machine.body, body)
  {
    hide Connect, DoLogin, SendMail, DoQuit, CredentialsFit, AuthCommand, MailCommand, RcptCommands, ValidEnvelope,
      NoBareLf, LinesFit, DotStuffing.Stuffed, DotStuffing.Complete, HoldsMessage, EhloCommand, Capabilities,
      EhloFits, InStep;
    ConnectExchange(false, domain);
    var c := Connect(Dial(false), domain);
    var m := Record(Responder.Start(false), TlsLeg, EhloCommand(domain));
    RestOfSession(env, c.w, m, user, pass, entropy, from, to, body);
    RecordedBody(body);
    var ehlo := (TlsLeg, EhloCommand(domain));
    var auth, mail := (TlsLeg, AuthCommand(user, pass)), (TlsLeg, MailCommand(from));
    assert [] + [ehlo] + [auth, mail] == [] + [ehlo, auth, mail];
  }

  // STARTTLS: the same, with the plaintext leg holding EHLO and STARTTLS and nothing else.
  lemma StartTlsSession(
      env: Env, domain: bytes, residue: nat, user: bytes, pass: bytes, entropy: Option<bytes>,
      from: bytes, to: seq<bytes>, body: bytes)
    requires Acceptable(env, domain, user, pass, from, to, body)
    requires residue <= |RequestTls(Connect(Dial(true), domain).w).w.net.input|
    ensures var c := Connect(Dial(true), domain);
      var t := DoStartTls(c.w, residue);
      var l := DoLogin(env, t.w, user, pass, entropy);
      var s := SendMail(env, l.w, from, to, body);
      var q := DoQuit(s.w);
      && c.r == Ok(()) && t.r == Ok(()) && l.r == Ok(()) && s.r.Ok? && q.r == Ok(())
      && q.w.net.peer.Live?
      && OverTls(q.w.net)
      && q.w.net.peer.machine.mode == Finished
      && q.w.net.peer.machine.lines == SessionLines(true, domain, user, pass, from, to)
      && HoldsMessage(q.w.net.peer.machine.body, body)
  {
    hide InStep, OverTls, Connect, DoStartTls, RequestTls, DoLogin, SendMail, DoQuit, CredentialsFit, AuthCommand,
      MailCommand, RcptCommands, ValidEnvelope, NoBareLf, LinesFit, DotStuffing.Stuffed, DotStuffing.Complete,
      HoldsMessage, EhloCommand, Capabilities, EhloFits;
    ConnectExchange(true, domain);
    var c := Connect(Dial(true), domain);
    var m := Record(Responder.Start(true), PlainLeg, EhloCommand(domain));
    UpgradeExchange(c.w, m, residue);
    var t := DoStartTls(c.w, residue);
    var m1 := Record(Record(m, PlainLeg, STARTTLS), TlsLeg, EhloCommand(domain)).(mode := Commands);
    RestOfSession(env, t.w, m1, user, pass, entropy, from, to, body);
    OverTlsStays(t.w, DoQuit(SendMail(env, DoLogin(env, t.w, user, pass, entropy).w, from, to, body).w).w);
    RecordedBody(body);
    var plain, tls := (PlainLeg, EhloCommand(domain)), (TlsLeg, EhloCommand(domain));
    var auth, mail := (TlsLeg, AuthCommand(user, pass)), (TlsLeg, MailCommand(from));
    assert [] + [plain] + [(PlainLeg, STARTTLS)] + [tls] + [auth, mail]
        == [plain, (PlainLeg, STARTTLS)] + [tls, auth, mail];
  }
}
