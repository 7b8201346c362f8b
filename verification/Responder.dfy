// The scripted SMTP responder of the smoke harness, as a machine that is fed bytes and
// answers with bytes.

module Responder {
  import opened Octets
  import opened Utf8

  const MAX_LINE: nat := 64 * 1024

  datatype Leg = PlainLeg | TlsLeg

  // PlainCommands and AwaitTls belong to the plaintext leg of a STARTTLS session.
  datatype Mode = PlainCommands | AwaitTls | Commands | Mail | Finished | Failed

  datatype Machine = Machine(
    mode: Mode,
    partial: bytes,                 // the line being read
    lines: seq<(Leg, bytes)>,       // command lines in arrival order, decoded
    data: bytes,                    // the DATA payload being read
    body: bytes)                    // the last DATA payload read, decoded and still dot-stuffed

  const T_AUTH_OK_1: bytes := "2.7.0 Authentication"
  const T_AUTH_OK_2: bytes := " successful"
  const T_GO_AHEAD_1: bytes := "End data with "
  const T_GO_AHEAD_2: bytes := "<CR><LF>.<CR><LF>"
  const T_QUEUED_1: bytes := "2.0.0 OK: queued"
  const T_QUEUED_2: bytes := " as SMOKE0001"
  const T_GREETING: bytes := "smoke.test ESMTP ready"
  const T_NAME: bytes := "smoke.test"
  const T_PIPELINING: bytes := "PIPELINING"
  const T_AUTH: bytes := "AUTH PLAIN LOGIN"
  const T_STARTTLS: bytes := "STARTTLS"
  const T_SMTPUTF8: bytes := "SMTPUTF8"
  const T_READY: bytes := "2.0.0 Ready to start TLS"
  const T_AUTH_OK: bytes := T_AUTH_OK_1 + T_AUTH_OK_2
  const T_MAIL_OK: bytes := "2.1.0 Ok"
  const T_RCPT_OK: bytes := "2.1.5 Ok"
  const T_GO_AHEAD: bytes := T_GO_AHEAD_1 + T_GO_AHEAD_2
  const T_QUEUED: bytes := T_QUEUED_1 + T_QUEUED_2
  const T_BYE: bytes := "2.0.0 Bye"
  const T_UNRECOGNIZED: bytes := "5.5.2 Command unrecognized"

  function AnswerLine(a: byte, b: byte, c: byte, sep: byte, text: bytes): bytes {
    [a, b, c, sep] + text + CRLF
  }

  function EhloReply(third: bytes): bytes {
    AnswerLine('2', '5', '0', '-', T_NAME) + AnswerLine('2', '5', '0', '-', T_PIPELINING)
    + AnswerLine('2', '5', '0', '-', third) + AnswerLine('2', '5', '0', ' ', T_SMTPUTF8)
  }

  const GREETING: bytes := AnswerLine('2', '2', '0', ' ', T_GREETING)
  const EHLO_REPLY: bytes := EhloReply(T_AUTH)
  const EHLO_REPLY_PLAIN: bytes := EhloReply(T_STARTTLS)
  const READY_FOR_TLS: bytes := AnswerLine('2', '2', '0', ' ', T_READY)
  const AUTH_OK: bytes := AnswerLine('2', '3', '5', ' ', T_AUTH_OK)
  const MAIL_OK: bytes := AnswerLine('2', '5', '0', ' ', T_MAIL_OK)
  const RCPT_OK: bytes := AnswerLine('2', '5', '0', ' ', T_RCPT_OK)
  const GO_AHEAD: bytes := AnswerLine('3', '5', '4', ' ', T_GO_AHEAD)
  const QUEUED: bytes := AnswerLine('2', '5', '0', ' ', T_QUEUED)
  const BYE: bytes := AnswerLine('2', '2', '1', ' ', T_BYE)
  const UNRECOGNIZED: bytes := AnswerLine('5', '0', '0', ' ', T_UNRECOGNIZED)

  const V_EHLO: bytes := "EHLO"
  const V_STARTTLS: bytes := "STARTTLS"
  const V_AUTH_PLAIN: bytes := "AUTH PLAIN"
  const V_MAIL: bytes := "MAIL FROM"
  const V_RCPT: bytes := "RCPT TO"
  const V_DATA: bytes := "DATA"
  const V_QUIT: bytes := "QUIT"

  datatype Fed = Fed(peer: Machine, reply: bytes)

  function Start(starttls: bool): Machine {
    Machine(if starttls then PlainCommands else Commands, [], [], [], [])
  }

  predicate Reading(r: Machine) {
    r.mode.PlainCommands? || r.mode.Commands? || r.mode.Mail?
  }

  // One whole line of the plaintext leg.
  function OnPlainLine(r: Machine, line: bytes): Fed {
    var s := r.(lines := r.lines + [(PlainLeg, line)]);
    if StartsWith(line, V_EHLO) then Fed(s, EHLO_REPLY_PLAIN)
    else if line == V_STARTTLS then Fed(s.(mode := AwaitTls), READY_FOR_TLS)
    else Fed(s.(mode := Failed), [])
  }

  // One whole command line.
  function OnCommand(r: Machine, line: bytes): Fed {
    var s := r.(lines := r.lines + [(TlsLeg, line)]);
    if StartsWith(line, V_EHLO) then Fed(s, EHLO_REPLY)
    else if StartsWith(line, V_AUTH_PLAIN) then Fed(s, AUTH_OK)
    else if StartsWith(line, V_MAIL) then Fed(s, MAIL_OK)
    else if StartsWith(line, V_RCPT) then Fed(s, RCPT_OK)
    else if line == V_DATA then Fed(s.(mode := Mail, data := []), GO_AHEAD)
    else if line == V_QUIT then Fed(s.(mode := Finished), BYE)
    else Fed(s.(mode := Finished), UNRECOGNIZED)
  }

  // One whole line of mail data.
  function OnDataLine(r: Machine, line: bytes): Fed {
    if line == DOT then Fed(r.(mode := Commands, body := r.data, data := []), QUEUED)
    else Fed(r.(data := r.data + line + CRLF), [])
  }

  function OnLine(r: Machine, line: bytes): Fed
    requires Reading(r)
  {
    match r.mode
    case PlainCommands => OnPlainLine(r, line)
    case Commands => OnCommand(r, line)
    case Mail => OnDataLine(r, line)
  }

  function DropCr(line: bytes): bytes {
    if line != [] && line[|line| - 1] == '\r' then line[..|line| - 1] else line
  }

  function FeedByte(r: Machine, b: byte): Fed {
    if r.mode.AwaitTls? then Fed(r.(mode := Failed), [])
    else if !Reading(r) then Fed(r, [])
    else if b == '\n' then OnLine(r.(partial := []), Lossy(DropCr(r.partial)))
    else if |r.partial| + 1 > MAX_LINE then Fed(r.(mode := Failed, partial := []), [])
    else Fed(r.(partial := r.partial + [b]), [])
  }

  function Feed(r: Machine, input: bytes): Fed
    decreases |input|
  {
    if input == [] then Fed(r, [])
    else
      var first := FeedByte(r, input[0]);
      var more := Feed(first.peer, input[1..]);
      Fed(more.peer, first.reply + more.reply)
  }

  // The handshake that follows the plaintext leg.
  function Handshake(r: Machine): Machine {
    r.(mode := if r.mode.AwaitTls? then Commands else Failed)
  }

  // Feeding is insensitive to how the bytes are cut up.
  lemma {:induction false} FeedConcat(r: Machine, a: bytes, b: bytes)
    ensures var f := Feed(r, a); var g := Feed(f.peer, b);
      Feed(r, a + b) == Fed(g.peer, f.reply + g.reply)
    decreases |a|
  {
    hide FeedByte;
    if a == [] {
      assert a + b == b;
      assert [] + Feed(r, b).reply == Feed(r, b).reply;
    } else {
      var first := FeedByte(r, a[0]);
      assert (a + b)[0] == a[0] && (a + b)[1..] == a[1..] + b;
      FeedConcat(first.peer, a[1..], b);
      Assoc(first.reply, Feed(first.peer, a[1..]).reply, Feed(Feed(first.peer, a[1..]).peer, b).reply);
    }
  }

  lemma {:induction false} FeedText(r: Machine, text: bytes)
    requires Reading(r) && Free(text, '\n') && |r.partial| + |text| <= MAX_LINE
    ensures Feed(r, text) == Fed(r.(partial := r.partial + text), [])
    decreases |text|
  {
    if text == [] {
      assert r.partial + text == r.partial;
    } else {
      var next := r.(partial := r.partial + [text[0]]);
      FeedText(next, text[1..]);
      assert r.partial + [text[0]] + text[1..] == r.partial + text;
    }
  }

  // A terminated line is handled once, as the text it decodes to.
  lemma FeedLine(r: Machine, line: bytes)
    requires Reading(r) && r.partial == [] && Free(line, '\n') && |line| + 1 <= MAX_LINE
    ensures Feed(r, line + CRLF) == OnLine(r, Lossy(line))
  {
    hide OnLine, FeedByte, Lossy;
    var text := line + ['\r'];
    assert line + CRLF == text + ['\n'];
    FeedText(r, text);
    FeedConcat(r, text, ['\n']);
    assert r.partial + text == text;
    FeedLf(r.(partial := text));
    assert DropCr(text) == line;
    assert r.(partial := text).(partial := []) == r;
  }

  lemma FeedLf(r: Machine)
    requires Reading(r)
    ensures Feed(r, ['\n']) == OnLine(r.(partial := []), Lossy(DropCr(r.partial)))
  {
    hide OnLine, Lossy;
    var first := FeedByte(r, '\n');
    var one: bytes := ['\n'];
    assert |one[1..]| == 0;
    assert Feed(first.peer, one[1..]) == Fed(first.peer, []);
    assert first.reply + [] == first.reply;
  }

  // Nothing is read after the end.
  lemma {:induction false} EndedIgnores(r: Machine, input: bytes)
    requires r.mode.Finished? || r.mode.Failed?
    ensures Feed(r, input) == Fed(r, [])
    decreases |input|
  {
    if input != [] {
      EndedIgnores(r, input[1..]);
    }
  }
}
