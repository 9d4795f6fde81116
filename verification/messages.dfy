/** The localizable message keys the authentication flow returns to its callers. */
module Messages {

  datatype ErrorKey =
    | EmailInvalid
    | EmailRequired
    | CodeInvalid
    | CodeExpired
    | AccountLocked
    | TooManyAttempts
    | SendTooFrequent
    | EmailSendFailed
    | SendCodeFailed
    | LoginFailed
    | VerifyCodeFailed
    | LoginRequired
    | EmailAlreadyUsed
    | BindEmailFailed

  /** The message string the application carries for each key. */
  function Key(e: ErrorKey): string {
    match e
    case EmailInvalid => "errors.emailInvalid"
    case EmailRequired => "errors.emailRequired"
    case CodeInvalid => "errors.codeInvalid"
    case CodeExpired => "errors.codeExpired"
    case AccountLocked => "errors.accountLocked"
    case TooManyAttempts => "errors.tooManyAttempts"
    case SendTooFrequent => "errors.sendTooFrequent"
    case EmailSendFailed => "errors.emailSendFailed"
    case SendCodeFailed => "errors.sendCodeFailed"
    case LoginFailed => "errors.loginFailed"
    case VerifyCodeFailed => "errors.verifyCodeFailed"
    case LoginRequired => "errors.loginRequired"
    case EmailAlreadyUsed => "errors.emailAlreadyUsed"
    case BindEmailFailed => "errors.bindEmailFailed"
  }
}
