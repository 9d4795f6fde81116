/** The request schemas of the authentication forms (platform/lib/validations/auth.ts).
    A schema yields its issues in order; callers report the first one. Email syntax,
    which the schema library checks with its own rules, is the parameter `isEmail`. */
module Validations {
  import opened Base
  import opened Messages
  import opened Decimal

  /** The pattern `^\d{6}$`: without the multiline flag `$` anchors at the very end,
      and `\d` means an ASCII digit. */
  predicate SixDigits(s: string) {
    |s| == 6 && AllDigits(s)
  }

  /** Issues of the email field: the syntax check, then the minimum length of 1. */
  function EmailIssues(email: string, isEmail: string -> bool): seq<ErrorKey> {
    (if isEmail(email) then [] else [EmailInvalid]) + (if |email| >= 1 then [] else [EmailRequired])
  }

  /** Issues of the code field: the length check, then the pattern check. */
  function CodeIssues(code: string): (issues: seq<ErrorKey>)
    ensures issues == [] <==> SixDigits(code)
    ensures forall i | 0 <= i < |issues| :: issues[i] == CodeInvalid
    ensures |code| != 6 ==> |issues| == 2
  {
    (if |code| == 6 then [] else [CodeInvalid]) + (if SixDigits(code) then [] else [CodeInvalid])
  }

  /** The three request schemas. The verify and bind schemas have the same shape. */
  datatype Schema = SendCodeSchema | VerifyCodeSchema | BindEmailSchema

  /** A submitted form: the two fields the schemas look at. */
  datatype Form = Form(email: string, code: string)

  /** All issues of a form under a schema, object keys in declaration order. */
  function Issues(schema: Schema, form: Form, isEmail: string -> bool): seq<ErrorKey> {
    match schema
    case SendCodeSchema => EmailIssues(form.email, isEmail)
    case VerifyCodeSchema | BindEmailSchema => EmailIssues(form.email, isEmail) + CodeIssues(form.code)
  }

  /** `safeParse`: None when the form passes, otherwise the first issue's message. */
  function Validate(schema: Schema, form: Form, isEmail: string -> bool): (firstIssue: Option<ErrorKey>)
    ensures firstIssue.None? <==>
      isEmail(form.email) && |form.email| >= 1 && (schema != SendCodeSchema ==> SixDigits(form.code))
    ensures !isEmail(form.email) ==> firstIssue == Some(EmailInvalid)
    ensures isEmail(form.email) && |form.email| == 0 ==> firstIssue == Some(EmailRequired)
    ensures isEmail(form.email) && |form.email| >= 1 && schema != SendCodeSchema && !SixDigits(form.code) ==>
      firstIssue == Some(CodeInvalid)
  {
    var issues := Issues(schema, form, isEmail);
    if issues == [] then None else Some(issues[0])
  }

  /** The send schema reads only the email: the code field never changes its verdict. */
  lemma SendSchemaIgnoresCode(email: string, code1: string, code2: string, isEmail: string -> bool)
    ensures Validate(SendCodeSchema, Form(email, code1), isEmail) == Validate(SendCodeSchema, Form(email, code2), isEmail)
  {
  }

  /** The verify and bind schemas accept and reject the same forms with the same message. */
  lemma VerifyAndBindSchemasAgree(form: Form, isEmail: string -> bool)
    ensures Validate(VerifyCodeSchema, form, isEmail) == Validate(BindEmailSchema, form, isEmail)
  {
  }

  /** Every rejection of a code field, by either check, carries `errors.codeInvalid`. */
  lemma CodeRejectionMessage(email: string, code: string, isEmail: string -> bool, schema: Schema)
    requires schema != SendCodeSchema
    requires Validate(schema, Form(email, code), isEmail).Some?
    requires !(Validate(SendCodeSchema, Form(email, code), isEmail).Some?)
    ensures Validate(schema, Form(email, code), isEmail) == Some(CodeInvalid)
  {
  }

  /** Leading zeros pass the code schema: "000123" is accepted. */
  lemma LeadingZerosAccepted()
    ensures SixDigits("000123")
    ensures CodeIssues("000123") == []
  {
  }
}
