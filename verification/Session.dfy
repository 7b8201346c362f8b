// The session state machine and the audit events.

module Session {
  import opened Octets

  datatype SessionState =
    | Greeting | Ehlo | Authentication | StartTls | MailFrom | RcptTo | Data | Quit | Closed
  {
    predicate CanTransitionTo(next: SessionState) {
      match (this, next)
      case (_, Closed) => true
      case (Greeting, Quit) => true
      case (Ehlo, Quit) => true
      case (Authentication, Quit) => true
      case (MailFrom, Quit) => true
      case (RcptTo, Quit) => true
      case (Data, Quit) => true
      case (Greeting, Ehlo) => true
      case (Ehlo, Authentication) => true
      case (Authentication, StartTls) => true
      case (StartTls, Ehlo) => true
      case (Ehlo, MailFrom) => true
      case (Authentication, MailFrom) => true
      case (MailFrom, MailFrom) => true
      case (MailFrom, RcptTo) => true
      case (RcptTo, RcptTo) => true
      case (RcptTo, Data) => true
      case (Data, MailFrom) => true
      case _ => false
    }
  }

  datatype Event =
    | Connected
    | GreetingReceived(code: nat)
    | EhloCompleted
    | TlsUpgraded
    | AuthCompleted(mechanism: bytes)
    | MailFromAccepted(code: nat)
    | RecipientAccepted(code: nat)
    | RecipientRejected(code: nat)
    | MessageAccepted(code: nat)
    | QuitCompleted
    | SessionAborted
}
