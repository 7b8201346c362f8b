# wasm-smtp, modelled and proved in Dafny

The project models the SMTP client of the `wasm-smtp` crate together with the scripted SMTP
server of the smoke harness and the component's trust-anchor scanner, and proves what they
promise: of one call, of every run, and of the two programs talking to each other.

## How the model is built

- `Octets`, `Bits`, `Utf8`, `Errors`: octet strings, the bitwise operators, UTF-8 with the standard
  library's lossy decoding, and the crate's errors and result type.
- `Replies`, `DotStuffing`, `Base64`, `EnhancedStatusCodes`, `Commands`, `Scram`: the codecs. Each loop
  of the crate is a method with a loop, proved equal to a specification function; the laws
  (round trips, grammars, transparency) are lemmas about those functions.
- `Session`, `World`: the session as a value, and one function per client operation that says
  what it does to the state, the capabilities, the audit log, the output log and the unread
  stream. A `World` does not show how much of the stream has been buffered.
- `Transports`, `Clients`: the client object with its receive buffer and cursor, on a transport that
  delivers the stream in pieces of any size. Every method is proved to do what its
  function in `World` says, so every theorem about `World` is one about the client.
- `ReplyValues`, `SendVerdicts`, `SessionVerdicts`, `LoginVerdicts`: what the server's replies decide about
  each operation, said with the replies of the stream alone: exactly when it succeeds, what it
  may write, and which code, status and text end up in the log, the result and the error.
- `QuietSteps`, `AuditLog`, `Runs`: the audit log as a language, and what every run keeps.
- `TlsBoundary`, `Pipelining`, `SentBytes`, `ScramLogin`: STARTTLS, the two envelopes, what goes out on
  the wire, and the SCRAM-SHA-256 login.
- `Responder`, `Answers`, `Composition`, `BareLineFeeds`, `SmokeServer`: the server as a machine that is
  pushed bytes, the closed loop of client and server in both TLS modes, and the server as it is
  written, pulling one line at a time.
- `Trust`: the PEM scanner against a line grammar.

HMAC, SHA-256, PBKDF2, the policy, PEM decoding and the root store are arbitrary functions in
every theorem. The output operations may fail at any
point, as a list of outcomes says; the stream may end or break anywhere.

## Where the code and its documentation part ways

- `SessionAborted` is documented as firing once per session (`crates/wasm-smtp/src/client/mod.rs:223-231`).
  A quit that cannot send QUIT, or gets anything but a 221 for it, logs it twice. `Runs.QuitLog`
  gives the exact condition, `Runs.AbortedTwice` a whole session.
- The base64 decoder takes a padding sign at any position of the last quantum, and any unused low
  bits. `Base64.DecodeAccepts` is the exact language it accepts, `Base64.EncodeDecode` says exactly
  which of its texts encoding gives back, and `Base64.PaddingAnywhereInLastQuantum` shows two texts
  with one decoding.
- OAUTHBEARER neither validates nor escapes its user. `Commands.OAuthBearerRead` says exactly when a
  server reads the user and the token back: when the user holds no 0x01, comma or equals sign.
  `Commands.OAuthBearerRecovered` says when the fields between the 0x01 bytes are the intended ones.
- The stuffer takes CR LF for the end of a line, and any bytes of any length for a line. The
  responder takes any LF, records what the line decodes to, and gives up on a line of more than
  65536 bytes, counting the CR. It takes a message and records it as it was sent exactly when the
  body is UTF-8, has no bare LF, and has only lines that fit, stuffed:
  `BareLineFeeds.RecordedExactly`, with a body that fails in each of the three ways.

## Model

| member | source | states |
|---|---|---|
| Clients.Client.ReadLine | crates/wasm-smtp/src/client/io.rs:186-211 | the line or error is that of splitting the whole unread stream at CR LF, and the rest of the stream is what follows, however the transport cuts it; at most 998 bytes; terminates because every read that is not the end delivers a byte |
| Clients.BufferedLine | crates/wasm-smtp/src/client/io.rs:187-210 | what a buffered front part decides about the stream: a line end found is the stream's first, more than the hard limit without one is a line too long wherever the end may be |
| Clients.Client.FillBuf | crates/wasm-smtp/src/client/io.rs:213-226 | a read moves bytes from the transport to the buffer and leaves the unread stream as it was, within the buffer bound 4095 + 1996 + 1024 |
| Clients.Client.CompactRx | crates/wasm-smtp/src/client/io.rs:228-233 | compaction brings the cursor below 4096 and drops no unread byte |
| Clients.Client.ReadReply | crates/wasm-smtp/src/client/io.rs:141-184 | the reply or error is the one the unread stream holds next, of 1 to 128 lines with one code |
| Octets.FindCrlf | crates/wasm-smtp/src/client/mod.rs:317-319 | the first CR LF pair, and none exactly when there is none |
| Replies.ReplyGrammar | crates/wasm-smtp/src/protocol.rs:67-95 | a stream yields a reply and a rest if and only if it is a rendering of that reply (one code, only the last line marked last) followed by the rest |
| Replies.ReadIsRendered | crates/wasm-smtp/src/client/io.rs:141-184 | every reply that is read is a rendering of what was read, and nothing else is consumed |
| Replies.ReplyFraming | crates/wasm-smtp/src/client/io.rs:141-184 | any list of rendered replies is read back one by one, and what follows is left alone |
| Replies.ReplyIsPrefixDetermined | crates/wasm-smtp/src/client/io.rs:141-184 | a reply that has arrived is read the same way whatever arrives after it |
| Replies.NoLineWhen | crates/wasm-smtp/src/client/io.rs:186-211 | exactly when there is no next line, and with which of the three errors |
| Replies.NoReplyWhen | crates/wasm-smtp/src/client/io.rs:141-184 | after any lines that announce another: a 129th is too many, a missing or malformed line and another code than the first are reported as what they are |
| ReplyValues.Read | crates/wasm-smtp/src/client/io.rs:141-184 | reading takes the next reply of the stream with its code, its decoded lines and, in a session with enhanced codes on, exactly the status its first line is written with (none otherwise); without a next reply the session is given up |
| ReplyValues.MadeReply | crates/wasm-smtp/src/client/io.rs:155-175 | a reply made of some lines has their text and their status |
| ReplyValues.ExpectedCode | crates/wasm-smtp/src/client/io.rs:95-115 | only a reply with this code is let through; any other closes the session with an error that carries its code, its status and its joined lines |
| ReplyValues.ExpectedClass | crates/wasm-smtp/src/client/io.rs:120-139 | only a reply of this class is let through; the error for any other carries its code, its status and its joined lines |
| Clients.Client.ExpectCode | crates/wasm-smtp/src/client/io.rs:95-115 | any other code closes the session with the reply in the error |
| Clients.Client.ExpectClass | crates/wasm-smtp/src/client/io.rs:120-139 | any other class closes the session with the reply in the error |
| Clients.Client.WriteAll | crates/wasm-smtp/src/client/io.rs:69-77 | the bytes are logged as sent and answered by the far end, or the session is closed |
| Clients.Client.Flush | crates/wasm-smtp/src/client/io.rs:81-89 | a failed flush closes the session |
| Clients.Client.ReadGreeting | crates/wasm-smtp/src/client/io.rs:18-35 | a class-2 greeting is logged and leads to EHLO; anything else closes |
| Clients.Client.SendEhlo | crates/wasm-smtp/src/client/io.rs:37-67 | the capabilities are the reply's lines after the first, and the enhanced-status flag is what they advertise |
| Clients.Client.Connect | crates/wasm-smtp/src/client/mod.rs:112-140 | a refused domain touches nothing; otherwise greeting and EHLO |
| SessionVerdicts.ConnectVerdict | crates/wasm-smtp/src/client/mod.rs:112-140 | whatever the network does: a first reply that is not a 2xx, or none, ends the session with nothing written, the log [Connected, SessionAborted] and this reply in the error; a 2xx is logged with its code and leads to the EHLO |
| SessionVerdicts.ConnectSucceeds | crates/wasm-smtp/src/client/mod.rs:112-140 | connecting succeeds if and only if the domain is accepted, the first reply is a 2xx, the EHLO can be written and its reply is a 2xx; then the log is Connected, the greeting with the code of the first reply, EhloCompleted |
| SessionVerdicts.EhloVerdict | crates/wasm-smtp/src/client/io.rs:37-67 | a failed write, a 2xx, another reply and no reply each lead to their outcome; the capabilities are the lines of that 2xx after the first |
| Clients.Client.Transition | crates/wasm-smtp/src/client/mod.rs:212-221 | the state moves exactly along the table, from any state to any state |
| Clients.Client.AssertStateIn | crates/wasm-smtp/src/client/mod.rs:198-210 | an error, with nothing changed, exactly outside the allowed states |
| Clients.Client.MarkClosedOnLogicalFailure | crates/wasm-smtp/src/client/mod.rs:232-244 | closes and logs one SessionAborted, and does nothing on a closed session |
| Clients.Client.RequestTls | crates/wasm-smtp/src/client/starttls.rs:67-92 | the STARTTLS request up to the 220 |
| Clients.Client.FinishTls | crates/wasm-smtp/src/client/starttls.rs:104-143 | any byte left in the buffer ends the session without an upgrade; otherwise the capabilities are forgotten, the transport upgraded and EHLO repeated |
| Clients.Client.StartTls | crates/wasm-smtp/src/client/starttls.rs:67-143 | the whole upgrade; the residue is exactly what had been delivered and not read when the 220 was, so an upgrade that goes ahead found nothing in the buffer; a refusal, and any call on a closed session, reads nothing |
| SessionVerdicts.UpgradedOnlyOn220 | crates/wasm-smtp/src/client/starttls.rs:67-143 | whatever the network does: the transport is upgraded if and only if the state is right, STARTTLS is advertised, the request goes out, the reply to it is a 220, nothing is left in the buffer and the upgrade itself succeeds; any other reply, and any residue, ends the session right after the request |
| SessionVerdicts.RequestVerdict | crates/wasm-smtp/src/client/starttls.rs:67-92 | the request is granted if and only if it can be made and the reply to it is a 220; any other reply is in the error |
| SessionVerdicts.StartTlsSucceeds | crates/wasm-smtp/src/client/starttls.rs:67-143 | the whole call succeeds if and only if, besides, the EHLO over TLS can be written and its reply is a 2xx |
| TlsBoundary.CapabilitiesFromAfterUpgrade | crates/wasm-smtp/src/client/starttls.rs:104-143 | after a successful upgrade the capabilities and the enhanced-status flag are a function of the stream that reads made after the upgrade deliver |
| TlsBoundary.NothingWrittenAcross | crates/wasm-smtp/src/client/starttls.rs:67-143 | whatever happens, a call's output is a front part of request, upgrade, EHLO; a request without an upgrade leaves the session closed |
| TlsBoundary.EveryRunGuarded | crates/wasm-smtp/src/client/starttls.rs:67-143 | in every run nothing is written after a STARTTLS request that no upgrade followed |
| Clients.Client.ExpectAuth | crates/wasm-smtp/src/client/mod.rs:323-337 | an unexpected 5xx becomes a rejection, anything else stays a protocol error |
| Clients.Client.RunAuthPlain | crates/wasm-smtp/src/client/auth.rs:246-257 | one line, one 235 |
| Clients.Client.RunAuthLogin | crates/wasm-smtp/src/client/auth.rs:263-283 | three lines, two 334 and a 235 |
| Clients.Client.RunAuthXOAuth2 | crates/wasm-smtp/src/client/auth.rs:297-342 | a 334 is answered by an empty line and always ends in a rejection |
| Clients.Client.RunAuthOAuthBearer | crates/wasm-smtp/src/client/auth.rs:355-398 | a 334 is answered by a lone 0x01 and always ends in a rejection |
| Clients.Client.RunAuthScram | crates/wasm-smtp/src/client/auth.rs:416-470 | the exchange up to the client-final message |
| Clients.Client.ScramFinish | crates/wasm-smtp/src/client/auth.rs:470-533 | the client-final message and both ways a server may finish |
| Clients.Client.ScramVerifyServerFinal | crates/wasm-smtp/src/client/auth.rs:540-562 | a server-final text that is not base64 of UTF-8, or does not verify, closes the session |
| Clients.Client.LoginWith | crates/wasm-smtp/src/client/auth.rs:105-177 | arguments, then state, then advertisement, then the exchange; only then MailFrom and AuthCompleted; a refusal, and any call on a closed session, touches neither buffer nor transport, so nothing is read |
| Clients.Client.DoLogin | crates/wasm-smtp/src/client/auth.rs:62-79 | the strongest advertised password mechanism |
| LoginVerdicts.LoginChoosesStrongest | crates/wasm-smtp/src/client/auth.rs:62-79 | for every capability list and whatever the network does: SCRAM-SHA-256 if it is advertised, else PLAIN, else LOGIN, else no mechanism and nothing written; what is written is nothing, or begins with that command; success is logged under that name; to a server that offers SCRAM-SHA-256 no AUTH PLAIN or AUTH LOGIN line is ever written |
| LoginVerdicts.LoginWithUses | crates/wasm-smtp/src/client/auth.rs:105-177 | a mechanism of the caller's choice writes its own command or nothing, nothing at all unless it is advertised, and is logged under its name |
| LoginVerdicts.AuthTrace | crates/wasm-smtp/src/client/auth.rs:246-533 | each exchange writes its command first, and after it only lines without a space, which are no commands with an argument |
| LoginVerdicts.PasswordRefused | crates/wasm-smtp/src/client/auth.rs:246-283 | PLAIN and LOGIN, over a fixed stream: refused exactly when some reply is not the expected one; nothing is sent after it; a 5xx is a rejection with its code, status and text, another reply is reported as unexpected |
| LoginVerdicts.TokenRefused | crates/wasm-smtp/src/client/auth.rs:297-398 | XOAUTH2 and OAUTHBEARER, over a fixed stream: after a 334 exactly the abort line is sent and the next reply is the rejection, whatever its code; any other refusal ends the exchange at once |
| LoginVerdicts.ScramRefused | crates/wasm-smtp/src/client/auth.rs:416-450 | SCRAM-SHA-256, over a fixed stream: a first reply that is not a 334 ends the exchange after one line |
| Commands.CapabilityRead | crates/wasm-smtp/src/protocol.rs:791-843 | a capability line made of some words announces its first word, and an AUTH line offers exactly the mechanisms after it, whatever their case |
| SentBytes.AuthIsItsLines | crates/wasm-smtp/src/client/auth.rs:246-398 | for PLAIN, LOGIN, XOAUTH2 and OAUTHBEARER, when no output operation fails: the client is let in if and only if the server accepts in the mechanism's number of steps, and then it has sent exactly the mechanism's lines and read no further than the last reply |
| ScramLogin.ScramSound | crates/wasm-smtp/src/client/auth.rs:416-562 | success only after a challenge extending this session's nonce with iterations in range, the client-final message computed for it, the signature made with the server key over this exchange, and a 235 |
| ScramLogin.ScramExchangeCompletes | crates/wasm-smtp/src/client/auth.rs:416-533 | the replies of an honest server with the password on file make the exchange succeed, and its check accepts what the client wrote |
| ScramLogin.ScramExchangeCompletesAtOnce | crates/wasm-smtp/src/client/auth.rs:416-533 | the same with a server that sends its signature along with the 235 |
| ScramLogin.VerifiedCarries | crates/wasm-smtp/src/scram.rs:295-330 | an accepted server-final message carries the expected signature and no error attribute |
| Scram.ScramCompletes | crates/wasm-smtp/src/scram.rs:231-330 | whatever the primitives, client and honest server accept each other: user and nonce read back, same signed text, proof accepted, signature verified |
| Scram.XorCancels | crates/wasm-smtp/src/scram.rs:231-284 | the exclusive or of the proof undoes itself, bit by bit |
| Bits.XorCancels | crates/wasm-smtp/src/scram.rs:231-284 | exclusive or undoes itself on any number of bits |
| Scram.XorLoop | crates/wasm-smtp/src/scram.rs:231-284 | the loop computes the bytewise exclusive or |
| Scram.AcceptedServerFirst | crates/wasm-smtp/src/scram.rs:133-201 | whatever is accepted extends the client nonce, has 4096 to 600000 iterations, takes all three values from attributes of the message and carries no extension |
| Scram.ServerFirstRoundTrip | crates/wasm-smtp/src/scram.rs:133-201 | the three values of a rendered challenge are read back |
| Scram.ParseServerFirstLoop | crates/wasm-smtp/src/scram.rs:133-201 | the attribute loop, later attributes replacing earlier ones |
| Scram.EscapeRoundTrip | crates/wasm-smtp/src/scram.rs:353-363 | un-escaping gives the name back; the escaped form has no comma and no stray equals sign |
| Scram.EscapeLoop | crates/wasm-smtp/src/scram.rs:353-363 | the loop computes the escaped name |
| Scram.ClientFirstRead | crates/wasm-smtp/src/scram.rs:110-113 | a server that splits the client-first message and un-escapes the name reads back the user and the nonce |
| Scram.ClientFirstInjective | crates/wasm-smtp/src/scram.rs:110-113 | the client-first message determines the user and the nonce |
| Scram.ChannelBindingIsHeader | crates/wasm-smtp/src/scram.rs:231-284 | the channel-binding attribute is the base64 of the GS2 header |
| Clients.Client.ReadRcptReply | crates/wasm-smtp/src/client/send.rs:103-126 | a rejection is logged before the session is given up |
| Clients.Client.PipelinedEnvelope | crates/wasm-smtp/src/client/send.rs:42-74 | everything in one write, then every reply |
| Clients.Client.SequentialEnvelope | crates/wasm-smtp/src/client/send.rs:75-94 | one command, one reply |
| Clients.Client.RunEnvelope | crates/wasm-smtp/src/client/send.rs:34-96 | the advertised capability picks the path |
| Clients.Client.BuildPipeline | crates/wasm-smtp/src/client/send.rs:46-57 | the buffer is MAIL FROM, the recipients in order, DATA |
| Clients.Client.SendMail | crates/wasm-smtp/src/client/send.rs:151-205 | validation, state, policy, envelope, payload, final reply, in this order and with these errors; a refusal, and any call on a closed session, touches neither buffer nor transport, so nothing is read |
| Clients.Client.SendMailUtf8 | crates/wasm-smtp/src/client/send.rs:481-526 | the same for SMTPUTF8, which must be advertised |
| Clients.Client.StreamBody | crates/wasm-smtp/src/client/send.rs:416-435 | every chunk of the source goes out stuffed; a failing source closes the session |
| Clients.Client.SendMailStream | crates/wasm-smtp/src/client/send.rs:377-447 | a send whose body comes from a source; a refusal takes no chunk from it and reads nothing |
| SendVerdicts.SendSucceeds | crates/wasm-smtp/src/client/send.rs:151-205 | a send, plain or SMTPUTF8, succeeds if and only if its arguments, the state, the policy (and the extension) allow it and the next replies are a 2xx, one 2xx for every recipient, a 354 and a 2xx; then the log names exactly the codes of these replies, each in its place |
| SendVerdicts.StreamSucceeds | crates/wasm-smtp/src/client/send.rs:377-447 | the same for a streamed send, whose source must not fail either |
| SendVerdicts.SendRejected | crates/wasm-smtp/src/client/send.rs:103-126 | the first recipient whose reply is not a 2xx fails the send, of any of the three kinds: the ones before it are logged as accepted, it as rejected, each with the code of its own reply, and the error has its code |
| SendVerdicts.SendMailVerdict | crates/wasm-smtp/src/client/send.rs:151-205 | an allowed send does with the stream exactly what the replies say, up to the first that is not the expected one, whose code, status and text are in the error; it returns the code and text of the last; one that is not allowed changes nothing |
| SendVerdicts.SendMailUtf8Verdict | crates/wasm-smtp/src/client/send.rs:481-526 | the same; without the extension the session is given up with nothing written |
| SendVerdicts.SendMailStreamVerdict | crates/wasm-smtp/src/client/send.rs:377-447 | the same for a source that does not fail |
| SendVerdicts.BrokenSourceVerdict | crates/wasm-smtp/src/client/send.rs:416-435 | a source that fails ends the session, at the latest once the envelope has been accepted |
| SendVerdicts.HeardOut | crates/wasm-smtp/src/client/send.rs:151-205 | which codes of the next replies are heard as a success, and the events they make |
| SendVerdicts.FirstRejection | crates/wasm-smtp/src/client/send.rs:103-126 | which reply is heard as a rejection, and the events before it |
| SendVerdicts.RcptFollows | crates/wasm-smtp/src/client/send.rs:103-126 | only a 2xx accepts a recipient; any other reply rejects it, is logged with its code before the abort, and is in the error |
| SendVerdicts.EnvelopeFollows | crates/wasm-smtp/src/client/send.rs:34-96 | the envelope, on either path, does with the stream what the replies say |
| SendVerdicts.OnlyAllowedSent | crates/wasm-smtp/src/client/send.rs:151-205 | whatever the network does, a send that writes anything has valid addresses, at least one recipient, a state that allows it and all three of the application's checks behind it, and an SMTPUTF8 send the extension |
| Clients.Client.DoQuit | crates/wasm-smtp/src/client/mod.rs:162-192 | always ends closed; on a closed session it touches neither buffer nor transport |
| SessionVerdicts.QuitTrace | crates/wasm-smtp/src/client/mod.rs:162-192 | whatever becomes of the QUIT, the transport is closed once, last |
| Pipelining.EnvelopesAgree | crates/wasm-smtp/src/client/send.rs:42-94 | over the same replies both paths give the same result or error, events and session; the same bytes on success, a front part on failure |
| Pipelining.StreamingSendsTheBody | crates/wasm-smtp/src/client/send.rs:416-446 | a body handed over in any chunks is sent as the whole body would be: same outcome, events, session and bytes |
| SentBytes.MailIsCommandsThenPayload | crates/wasm-smtp/src/client/send.rs:151-205 | a message is, on the wire, the envelope's commands in order and then the payload, on either path; a failed send has sent a front part |
| SentBytes.StreamIsCommandsThenPayload | crates/wasm-smtp/src/client/send.rs:377-447 | the same for a streamed body |
| SentBytes.SliceSendsItself | crates/wasm-smtp/src/message_body.rs:98-122 | a slice sent through its body source is sent as the slice |
| AuditLog.RcptReplyLog | crates/wasm-smtp/src/client/send.rs:103-126 | one acceptance, or nothing or one rejection and then the abort |
| AuditLog.SendMailLog | crates/wasm-smtp/src/client/send.rs:151-205 | a send logs MailFromAccepted, RecipientAccepted once per recipient, MessageAccepted; or a proper front part of it, a rejection only while recipients are named, and one SessionAborted; or nothing |
| AuditLog.SendMailUtf8Log | crates/wasm-smtp/src/client/send.rs:481-526 | the same for an SMTPUTF8 send |
| AuditLog.SendMailStreamLog | crates/wasm-smtp/src/client/send.rs:377-447 | the same for a streamed send, whatever the source does |
| AuditLog.FrontPhase | crates/wasm-smtp/src/client/send.rs:59-126 | a send's events lead from an open session back to one, counting the recipients |
| AuditLog.AbortedPhase | crates/wasm-smtp/src/client/mod.rs:232-244 | an aborted send's events lead to the aborted phase |
| Runs.SendStepKept | crates/wasm-smtp/src/client/send.rs:151-526 | every send keeps the run invariant, and its own events are complete or aborted |
| Runs.StepKept | crates/wasm-smtp/src/client/mod.rs:198-244 | every call keeps log and state in step; an error leaves everything untouched or the session closed, a refusal leaves everything untouched; the state machine's own rejection never shows (that nothing is read either is in the contracts of the client's methods) |
| Runs.RunKept | crates/wasm-smtp/src/session.rs:83-117 | after every run the state is Authentication, MailFrom or Closed, the log has only grown, and a closed session has not changed |
| Runs.RunLog | crates/wasm-smtp/src/client/mod.rs:198-244 | the log of a run is the logs of its calls one after the other: a successful send adds exactly the events of its recipients, a login one event, an upgrade two, and a failed call a proper front part and an abort, or nothing |
| Runs.ConnectKept | crates/wasm-smtp/src/client/mod.rs:112-140 | connecting ends ready, or closed with a legal log, or refused before anything happened |
| Runs.ConnectLog | crates/wasm-smtp/src/client/mod.rs:112-140 | a successful connect logs its three events |
| Runs.SessionLog | crates/wasm-smtp/src/client/mod.rs:112-244 | the log of any session up to quit is what connecting logs and then what each call logs, and it is in the language of legal logs |
| Runs.QuitLog | crates/wasm-smtp/src/client/mod.rs:162-192 | by what the network does: a clean quit logs QuitCompleted alone, a closed session nothing; the log stays legal if and only if QUIT goes out and the next reply is a 221, and otherwise SessionAborted comes twice |
| Runs.AbortedTwice | crates/wasm-smtp/src/client/mod.rs:162-192 | the whole log of a session in which SessionAborted comes twice |
| Transports.Transport.Read | crates/wasm-smtp-test/src/transport.rs:130-141 | between one byte and the limit, as the transport likes, or nothing at the end |
| Transports.Transport.UpgradeToTls | crates/wasm-smtp-test/src/transport.rs:157-169 | the next segment becomes readable, behind what was undelivered if the transport carries that over the upgrade, as the mock does, or in its place |
| Transports.SliceBody.ReadChunk | crates/wasm-smtp/src/message_body.rs:114-122 | fills the front of the buffer with the next piece of the slice and leaves the rest of the buffer alone |
| Transports.CutConcat | crates/wasm-smtp/src/message_body.rs:114-122 | the pieces of a slice are the slice |
| DotStuffing.DotStuffAndTerminate | crates/wasm-smtp/src/protocol.rs:402-419 | the loop computes the stuffed body and the terminator |
| DotStuffing.DotStuffer.ProcessChunk | crates/wasm-smtp/src/protocol.rs:493-511 | the streaming stuffer remembers what decides the next byte, across chunks of any size |
| DotStuffing.DotStuffer.Finish | crates/wasm-smtp/src/protocol.rs:522-530 | what is written at the end completes the payload of everything fed |
| DotStuffing.StreamingEqualsBatch | crates/wasm-smtp/src/protocol.rs:493-530 | however a body is cut, the streamed output is the batch payload |
| DotStuffing.RoundTrip | crates/wasm-smtp/src/protocol.rs:402-419 | a receiver following section 4.5.2 of RFC 5321 gets the body back, its last line completed, and stops exactly at the end |
| DotStuffing.Transparent | crates/wasm-smtp/src/protocol.rs:402-419 | CR LF . CR LF occurs only where the message ends |
| DotStuffing.PayloadLength | crates/wasm-smtp/src/protocol.rs:402-419 | the payload adds at least 3 and at most a third of the body, rounded up, plus 5 bytes |
| Base64.Base64Encode | crates/wasm-smtp/src/protocol.rs:550-572 | the loop over three-byte groups, by shifts and ors, computes the encoding |
| Base64.PushB64 | crates/wasm-smtp/src/protocol.rs:574-582 | shift and mask take the leading sextets out of a group |
| Base64.GroupBits | crates/wasm-smtp/src/protocol.rs:550-571 | shifts and ors join the bytes of a group |
| Base64.Base64Decode | crates/wasm-smtp/src/protocol.rs:599-644 | the loop over quanta, by shifts, ors and masks, computes the decoding or the rejection |
| Base64.JoinBits | crates/wasm-smtp/src/protocol.rs:631-634 | shifts and ors join four sextets |
| Base64.DecodeEncode | crates/wasm-smtp/src/protocol.rs:550-644 | decoding an encoding gives the bytes back, and it has 4 characters for every 3 bytes begun |
| Base64.EncodeSymbols | crates/wasm-smtp/src/protocol.rs:543-572 | only alphabet and padding characters come out |
| Base64.EncodeInjective | crates/wasm-smtp/src/protocol.rs:550-572 | different bytes have different encodings |
| Base64.DecodeAccepts | crates/wasm-smtp/src/protocol.rs:599-644 | exactly which texts are accepted |
| Base64.EncodeDecode | crates/wasm-smtp/src/protocol.rs:550-644 | encoding after decoding gives a text back if and only if it is canonical: padding only at the end, unused low bits zero |
| Base64.PaddingAnywhereInLastQuantum | crates/wasm-smtp/src/protocol.rs:610-630 | a padding sign ahead of data in the last quantum is accepted |
| EnhancedStatusCodes.ParseEnhancedStatusPrefix | crates/wasm-smtp/src/protocol.rs:169-219 | the index loops compute the parsed prefix |
| EnhancedStatusCodes.PrefixIsParsed | crates/wasm-smtp/src/protocol.rs:169-219 | every text of the grammar is parsed, with a prefix of the code and at most one blank |
| EnhancedStatusCodes.ParsedIsPrefix | crates/wasm-smtp/src/protocol.rs:169-219 | every text that is parsed is of the grammar |
| EnhancedStatusCodes.ParsedHasStatus | crates/wasm-smtp/src/protocol.rs:169-219 | a prefix is parsed exactly when the text starts with a status |
| EnhancedStatusCodes.PrintParse | crates/wasm-smtp/src/protocol.rs:141-219 | a printed status is parsed back, and covers the printed text and at most one blank |
| EnhancedStatusCodes.MessageTextStrips | crates/wasm-smtp/src/protocol.rs:286-299 | each line that starts with a status, whatever the others do, loses it and at most one blank; every other line stays as it is |
| EnhancedStatusCodes.AnyLine | crates/wasm-smtp/src/protocol.rs:286-299 | every line is of one of the two kinds |
| EnhancedStatusCodes.StatusOfReply | crates/wasm-smtp/src/protocol.rs:286-331 | a reply has exactly the status its first line is written with, number by number, and none without one there; a reply that carries none shows its lines untouched |
| EnhancedStatusCodes.OneFirstStatus | crates/wasm-smtp/src/protocol.rs:327-331 | there is one and only one status that the first of some lines is written with, and it is the one that is parsed |
| EnhancedStatusCodes.JoinSplits | crates/wasm-smtp/src/protocol.rs:278-280 | splitting a joined text at its line feeds gives the lines back, in order |
| Commands.NoInjection | crates/wasm-smtp/src/protocol.rs:341-380 | no accepted domain or address makes a command of more than one line |
| Commands.PathsRead | crates/wasm-smtp/src/protocol.rs:365-380 | a server reads back from MAIL FROM and RCPT TO the very address they were made with, and no line is longer than 512 bytes; the SMTPUTF8 form (lines 1290-1297) carries that one parameter and the plain one none |
| Commands.PlainRecovered | crates/wasm-smtp/src/protocol.rs:967-1009 | decoding and splitting the PLAIN response gives exactly no authzid, the user and the password |
| Commands.XOAuth2Recovered | crates/wasm-smtp/src/protocol.rs:1045-1112 | decoding and splitting the XOAUTH2 response gives back user and token |
| Commands.ResponsesInjective | crates/wasm-smtp/src/protocol.rs:967-1112 | accepted credentials are determined by their response |
| Commands.OAuthBearerRecovered | crates/wasm-smtp/src/protocol.rs:1134-1146 | the fields between the 0x01 bytes are the intended ones if and only if the user holds no 0x01 |
| Commands.OAuthBearerRead | crates/wasm-smtp/src/protocol.rs:1134-1146 | a server that reads the GS2 header as section 4 of RFC 5801 says gets the user and the token if and only if the user holds no 0x01, comma or equals sign |
| Commands.HeaderGivesUser | crates/wasm-smtp/src/protocol.rs:1134-1146 | the GS2 header gives its user back if and only if the user needs no escaping |
| Responder.FeedConcat | tools/smoke/src/lib.rs:179-207 | the machine is insensitive to how its input is cut |
| Responder.FeedLine | tools/smoke/src/lib.rs:179-207 | a terminated line is handled once, as the text it decodes to |
| Utf8.LossyFixed | tools/smoke/src/lib.rs:184-196 | the lossy decoding leaves a line alone exactly when it is UTF-8 |
| Utf8.LossyFree | tools/smoke/src/lib.rs:184-196 | it neither loses nor makes up an ASCII byte, so no CR or LF |
| Utf8.LossyIsUtf8 | crates/wasm-smtp/src/client/io.rs:155-175 | what it gives is UTF-8 |
| Answers.Answers | tools/smoke/src/lib.rs:123-161 | what each answer of the server says to a client that reads it |
| Answers.EhloSays | tools/smoke/src/lib.rs:135-139 | the EHLO answer is read as its four lines |
| Composition.TlsCapabilities | tools/smoke/src/lib.rs:135-139 | behind TLS the client picks PLAIN and pipelines |
| Composition.LoginExchange | tools/smoke/src/lib.rs:140-141 | logging in against the server succeeds and is recorded |
| Composition.EnvelopeExchange | tools/smoke/src/lib.rs:142-148 | one pipelined write is answered reply by reply |
| Composition.FeedPayload | tools/smoke/src/lib.rs:163-177 | a payload is recorded as the text of the stuffed message, and queued |
| Composition.StuffedText | tools/smoke/src/lib.rs:163-196 | stuffing and decoding commute |
| Composition.SendExchange | tools/smoke/src/lib.rs:142-150 | sending against the server succeeds and is recorded |
| Composition.ImplicitTlsSession | tools/smoke/src/lib.rs:128-161 | for accepted arguments, a body without a bare LF and lines that fit the server's buffer: connect, login, send and quit all succeed; the recorded lines are exactly the intended ones in order; the recorded body un-stuffs to the text of the sent one, its last line completed, which is the sent one if that is UTF-8 |
| Composition.StartTlsSession | tools/smoke/src/lib.rs:73-118 | the same over STARTTLS, with nothing but EHLO and STARTTLS in the clear |
| BareLineFeeds.RecordedExactly | tools/smoke/src/lib.rs:163-207 | the server takes the message and records it as it was sent if and only if the body is UTF-8, has no bare LF, and every line, stuffed, fits its line buffer |
| BareLineFeeds.PeriodBetweenBareLfs | tools/smoke/src/lib.rs:192-196 | a period between bare LFs ends the message early, and what follows is taken for a command |
| BareLineFeeds.ByteReplaced | tools/smoke/src/lib.rs:192-196 | a byte that is no UTF-8, in a body without a bare LF, is recorded as U+FFFD |
| BareLineFeeds.OverlongLine | tools/smoke/src/lib.rs:198-201 | 65536 times the letter a, which is UTF-8 without a bare LF: the server gives up |
| BareLineFeeds.NeverBare | tools/smoke/src/lib.rs:163-177 | whatever the server is fed, it records no bare LF |
| SmokeServer.Server.ReadLine | tools/smoke/src/lib.rs:179-207 | the byte loop pulls the next line, the unterminated last one, both lossily decoded, the end, or a line too long |
| SmokeServer.Server.ReadData | tools/smoke/src/lib.rs:163-177 | what is returned is what the pushed machine records |
| SmokeServer.Server.SmtpPhase | tools/smoke/src/lib.rs:128-161 | the loop records, answers and ends as the machine does when pushed everything the client says |
| SmokeServer.Server.PlainPhase | tools/smoke/src/lib.rs:82-107 | the plaintext leg, likewise; it reaches the handshake with nothing left unread exactly as the machine does |
| SmokeServer.ServeImplicit | tools/smoke/src/lib.rs:110-118 | greeting and command loop together |
| SmokeServer.ServeStartTls | tools/smoke/src/lib.rs:73-118 | plaintext leg, handshake and TLS leg together |
| SmokeServer.PushLine | tools/smoke/src/lib.rs:179-207 | pulling a line and handling it is what the pushed machine does |
| SmokeServer.ServerRecords | tools/smoke/src/lib.rs:128-207 | given the bytes the client sends, the server as written ends well, with the intended lines and the message |
| SmokeServer.ServerRecordsStartTls | tools/smoke/src/lib.rs:73-207 | the same over STARTTLS, given what the client writes before the upgrade and what it writes after it |
| Trust.ParseCustom | crates/wasm-smtp-component/src/trust.rs:151-217 | the scanner keeps the rules: all certificates of a well-formed bundle in order, or the first offence |
| Trust.OneVerdict | crates/wasm-smtp-component/src/trust.rs:1-43 | the rules leave no choice, so the scanner accepts exactly the inputs they accept, with exactly their certificates, and names exactly their first offence |
| Trust.LineKinds | crates/wasm-smtp-component/src/trust.rs:240-255 | a line is text exactly when it holds no mark anywhere, and a boundary exactly when it is that boundary but for white space at its end |
| Trust.InOrder | crates/wasm-smtp-component/src/trust.rs:163-208 | blocks are disjoint and in order |
| Trust.NothingSkipped | crates/wasm-smtp-component/src/trust.rs:163-208 | every line that is not text begins or ends a block of an accepted bundle |
| Trust.SliceIsLines | crates/wasm-smtp-component/src/trust.rs:164-203 | the byte offsets cut out exactly the block's lines |
| Trust.LinesOfText | crates/wasm-smtp-component/src/trust.rs:163-166 | splitting loses nothing, and a line feed ends every line but perhaps the last |
| Trust.Resolve | crates/wasm-smtp-component/src/trust.rs:142-147 | bundled roots exactly when they were asked for; refused input never falls back to them |

## Left out

- TLS, certificates, sockets, DNS and the runtime adapters: the transport is a stream of bytes with failures, an end and upgrades.
- Asynchrony: calls run to completion, and dropped futures are not modelled.
- HMAC, SHA-256 and PBKDF2 themselves, the source of random bytes, and comparing in constant time.
- White space beyond ASCII when a line is trimmed or split into words, and the Unicode categories of addresses, which are checked on their UTF-8 bytes.
- The texts of errors and their source chains: invalid arguments and SCRAM failures keep their kind only.
- Queue-id extraction from the final reply: the outcome is the code and the text.
- `send_message` and the mail builder, which call `send_mail_bytes`; `send_mail` and `send_mail_bytes`, which differ in the type of the body, are one operation.
- `connect_starttls`, which is `connect` followed by `starttls`.
- Optional features are all taken to be compiled in.
- Clients.Client.StartTls: how many bytes the buffer holds after the 220 depends on how the stream was cut, so `World` takes that number as a parameter, which the method's contract fixes as what the transport had delivered and nobody had read.
- Clients.Client.SendMailStream: a body source is the list of non-empty chunks of at most 8192 bytes it yields and whether it fails after them.
- Pipelining.EnvelopesAgree: compares the paths over the same fixed stream of replies with no output operation failing, since a failing write ends the two paths at different points.
- SendVerdicts.SendMailVerdict: over a fixed stream of replies with no output operation failing, as are `SendVerdicts.SendSucceeds`, `SendVerdicts.StreamSucceeds` and `SendVerdicts.SendRejected`; a failing write closes the session wherever it happens.
- LoginVerdicts.PasswordRefused: over a fixed stream of replies with no output operation failing, as are `LoginVerdicts.TokenRefused` and `LoginVerdicts.ScramRefused`.
- Pipelining.StreamingSendsTheBody: with no output operation failing, and the policy answering the same for the unknown size and the real one, since the streamed send asks it about the former.
- SentBytes.AuthIsItsLines: over a fixed stream of replies with no output operation failing; a failing write closes the session before the server could accept.
- SentBytes.MailIsCommandsThenPayload: over a fixed stream of replies with no output operation failing.
- Composition.ImplicitTlsSession: the responder answers each write at once; a client that would wait for it sees an answer or the end of the stream, never a pause.
- SmokeServer.ServeStartTls: promises nothing when the client does not get as far as the handshake, since what a server still reading plaintext would make of TLS records is not modelled.
- The alternative drivers of the smoke harness, its process handling and its assertions on a recording.
