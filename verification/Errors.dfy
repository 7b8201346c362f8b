// The error values of the crate and the result type every operation returns.

module Errors {
  import opened Octets

  datatype EnhancedStatus = EnhancedStatus(category: nat, subject: nat, detail: nat)

  datatype SmtpOp =
    | Greeting | Ehlo | StartTls
    | AuthPlain | AuthLogin | AuthXOAuth2 | AuthOAuthBearer | AuthScramSha256
    | MailFrom | RcptTo | Data | Quit

  datatype InvalidReason = BadArgument | NotAllowedInState | TransitionRejected

  datatype Error =
    | Io
    | UnexpectedCode(during: SmtpOp, expectedClass: nat, actual: nat,
                     enhanced: Option<EnhancedStatus>, message: bytes)
    | Malformed(line: bytes)
    | UnexpectedClose
    | LineTooLong
    | InconsistentMultiline(first: nat, later: nat)
    | ExtensionUnavailable(name: bytes)
    | StartTlsBufferResidue(byteCount: nat)
    | UnsupportedMechanism
    | Rejected(code: nat, enhanced: Option<EnhancedStatus>, message: bytes)
    | MalformedChallenge
    | AuthOther
    | InvalidInput(reason: InvalidReason)
    | PolicyRejected
  {
    // The caller's doing, found before anything was done.
    predicate IsRefusal() {
      InvalidInput? || PolicyRejected?
    }
  }

  datatype Result<+T> = Ok(value: T) | Err(error: Error) {
    predicate IsFailure() {
      Err?
    }

    function PropagateFailure<U>(): Result<U>
      requires Err?
    {
      Err(error)
    }

    function Extract(): T
      requires Ok?
    {
      value
    }
  }
}
