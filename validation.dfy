/** The form-field validation engine: the rule table and the decision
    `validateField` takes for one field, as a total function from the field
    identifier, the field's raw value and the live value of the password
    field to a verdict. Applying the verdict to the page is in FieldDisplay. */
module Validation {
  import opened Text
  import opened Patterns

  datatype Option<T> = None | Some(value: T)

  /** The regular expression a rule carries. */
  datatype Pattern = NamePattern | EmailPattern | PhonePattern | PasswordPattern

  /** RegExp.prototype.test of the pattern on a value. */
  predicate Test(p: Pattern, s: string) {
    match p
    case NamePattern => NameMatches(s)
    case EmailPattern => EmailMatches(s)
    case PhonePattern => PhoneMatches(s)
    case PasswordPattern => PasswordMatches(s)
  }

  /** One entry of the rule table; `message` is shown for every failure of
      the rule other than an empty required value. */
  datatype Rule = Rule(required: bool, minLength: Option<nat>, pattern: Option<Pattern>, message: string)

  const RequiredMessage := "This field is required"
  const MismatchMessage := "Passwords do not match"
  const ConfirmPasswordId := "confirmPassword"

  const FirstNameMessage := "First name must be at least 2 " + "characters and contain only letters"
  const LastNameMessage := "Last name must be at least 2 " + "characters and contain only letters"
  const EmailMessage := "Please enter a valid email address"
  const PhoneMessage := "Please enter a valid phone " + "number (e.g., 123-456-7890)"
  const PasswordMessage := "Password must be 8+ characters " + "with uppercase, lowercase, number, and special character"

  /** The rule table, keyed by field id. `confirmPassword` has no entry. */
  const ValidationRules: map<string, Rule> := map[
    "firstName" := Rule(true, Some(2), Some(NamePattern), FirstNameMessage),
    "lastName" := Rule(true, Some(2), Some(NamePattern), LastNameMessage),
    "email" := Rule(true, None, Some(EmailPattern), EmailMessage),
    "phone" := Rule(true, None, Some(PhonePattern), PhoneMessage),
    "password" := Rule(true, Some(8), Some(PasswordPattern), PasswordMessage)
  ]

  /** The rule of a field: the five form fields have one, required and with
      a pattern; `confirmPassword` and every other id have none. */
  function RuleFor(fieldId: string): (r: Option<Rule>)
    ensures r.Some? <==> fieldId in {"firstName", "lastName", "email", "phone", "password"}
    ensures fieldId == ConfirmPasswordId ==> r.None?
    ensures r.Some? ==> r.value.required && r.value.pattern.Some?
    ensures r.Some? ==> r.value.message != RequiredMessage && r.value.message != MismatchMessage
  {
    if fieldId in ValidationRules then Some(ValidationRules[fieldId]) else None
  }

  /** The facts about the table the lemmas below rely on: which ids it
      holds, and that no rule message reads like the two fixed messages. */
  lemma TableFacts()
    ensures ConfirmPasswordId !in ValidationRules
    ensures ValidationRules.Keys == {"firstName", "lastName", "email", "phone", "password"}
    ensures forall id :: id in ValidationRules ==>
      ValidationRules[id].required
      && ValidationRules[id].message != RequiredMessage
      && ValidationRules[id].message != MismatchMessage
  {
  }

  /** What `validateField` decides: `false` with the message it shows, or
      `true`, with the success indication requested exactly when the trimmed
      value is non-empty. */
  datatype Verdict = Fail(message: string) | Pass(showSuccess: bool)

  /** The four checks of `validateField`, each on its own. */
  datatype Check = RequiredCheck | MinLengthCheck | PatternCheck | ConfirmCheck

  /** Whether one check rejects the trimmed value `value`. */
  predicate CheckFails(c: Check, fieldId: string, value: string, livePassword: string) {
    var rules := RuleFor(fieldId);
    match c
    case RequiredCheck => rules.Some? && rules.value.required && value == []
    case MinLengthCheck =>
      rules.Some? && rules.value.minLength.Some? && |value| < rules.value.minLength.value
    case PatternCheck =>
      rules.Some? && rules.value.pattern.Some? && value != [] && !Test(rules.value.pattern.value, value)
    case ConfirmCheck => fieldId == ConfirmPasswordId && value != livePassword
  }

  /** The message a failing check shows. */
  function CheckMessage(c: Check, fieldId: string): (m: string) {
    match c
    case RequiredCheck => RequiredMessage
    case ConfirmCheck => MismatchMessage
    case _ => if fieldId in ValidationRules then ValidationRules[fieldId].message else ""
  }

  /** validateField: trim the value, then run the checks in their fixed
      order and stop at the first that fails. The password is the live,
      untrimmed value of the `password` field. */
  function ValidateValue(fieldId: string, rawValue: string, livePassword: string): (v: Verdict)
    ensures v.Pass? ==> (v.showSuccess <==> !AllSpace(rawValue))
    ensures v.Fail? && fieldId !in ValidationRules ==> v.message == MismatchMessage
  {
    var value := Trim(rawValue);
    if CheckFails(RequiredCheck, fieldId, value, livePassword) then Fail(RequiredMessage)
    else if CheckFails(MinLengthCheck, fieldId, value, livePassword) then Fail(ValidationRules[fieldId].message)
    else if CheckFails(PatternCheck, fieldId, value, livePassword) then Fail(ValidationRules[fieldId].message)
    else if CheckFails(ConfirmCheck, fieldId, value, livePassword) then Fail(MismatchMessage)
    else Pass(value != [])
  }

  // ---------------------------------------------------------------------
  // Check order

  const CheckOrder: seq<Check> := [RequiredCheck, MinLengthCheck, PatternCheck, ConfirmCheck]

  /** Reference semantics of a chain of checks: the first check of `cs` that
      fails decides the verdict; if none fails the value passes. */
  function RunChecks(cs: seq<Check>, fieldId: string, value: string, livePassword: string): (v: Verdict) {
    if cs == [] then Pass(value != [])
    else if CheckFails(cs[0], fieldId, value, livePassword) then Fail(CheckMessage(cs[0], fieldId))
    else RunChecks(cs[1..], fieldId, value, livePassword)
  }

  /** Only the first failure is reported: whatever fails after it is never looked at. */
  lemma {:induction false} FirstFailureWins(cs: seq<Check>, k: nat, fieldId: string, value: string, livePassword: string)
    requires k < |cs| && CheckFails(cs[k], fieldId, value, livePassword)
    requires forall j :: 0 <= j < k ==> !CheckFails(cs[j], fieldId, value, livePassword)
    ensures RunChecks(cs, fieldId, value, livePassword) == Fail(CheckMessage(cs[k], fieldId))
  {
    if k > 0 {
      assert !CheckFails(cs[0], fieldId, value, livePassword);
      forall j | 0 <= j < k - 1 ensures !CheckFails(cs[1..][j], fieldId, value, livePassword) {
        assert cs[1..][j] == cs[j + 1];
      }
      FirstFailureWins(cs[1..], k - 1, fieldId, value, livePassword);
    }
  }

  /** A value no check rejects passes. */
  lemma {:induction false} NoFailurePasses(cs: seq<Check>, fieldId: string, value: string, livePassword: string)
    requires forall j :: 0 <= j < |cs| ==> !CheckFails(cs[j], fieldId, value, livePassword)
    ensures RunChecks(cs, fieldId, value, livePassword) == Pass(value != [])
  {
    if cs != [] {
      assert !CheckFails(cs[0], fieldId, value, livePassword);
      forall j | 0 <= j < |cs| - 1 ensures !CheckFails(cs[1..][j], fieldId, value, livePassword) {
        assert cs[1..][j] == cs[j + 1];
      }
      NoFailurePasses(cs[1..], fieldId, value, livePassword);
    }
  }

  /** validateField runs required, then minLength, then pattern, then the
      password confirmation, and reports the first failure only. */
  lemma ValidateRunsChecksInOrder(fieldId: string, rawValue: string, livePassword: string)
    ensures ValidateValue(fieldId, rawValue, livePassword)
         == RunChecks(CheckOrder, fieldId, Trim(rawValue), livePassword)
  {
    var value := Trim(rawValue);
    var fails := k => 0 <= k < 4 && CheckFails(CheckOrder[k], fieldId, value, livePassword);
    if fails(0) {
      FirstFailureWins(CheckOrder, 0, fieldId, value, livePassword);
    } else if fails(1) {
      FirstFailureWins(CheckOrder, 1, fieldId, value, livePassword);
    } else if fails(2) {
      FirstFailureWins(CheckOrder, 2, fieldId, value, livePassword);
    } else if fails(3) {
      FirstFailureWins(CheckOrder, 3, fieldId, value, livePassword);
    } else {
      NoFailurePasses(CheckOrder, fieldId, value, livePassword);
    }
  }

  // ---------------------------------------------------------------------
  // Properties of the rule table

  /** A ruled field fails with "This field is required" exactly when its
      value is empty or whitespace only, whatever else is wrong with it. */
  lemma RequiredRule(fieldId: string, rawValue: string, livePassword: string)
    requires fieldId in ValidationRules
    ensures ValidateValue(fieldId, rawValue, livePassword) == Fail(RequiredMessage)
        <==> AllSpace(rawValue)
  {
    TableFacts();
  }

  /** A ruled field never passes silently: if it passes, success is shown. */
  lemma RuledPassShowsSuccess(fieldId: string, rawValue: string, livePassword: string)
    requires fieldId in ValidationRules
    ensures ValidateValue(fieldId, rawValue, livePassword).Pass?
        ==> ValidateValue(fieldId, rawValue, livePassword) == Pass(true)
  {
    TableFacts();
  }

  /** First and last names: accepted iff the trimmed value has two or more
      characters, all ASCII letters or whitespace; a failure on a non-empty
      trimmed value shows the field's own message. */
  lemma NameField(fieldId: string, rawValue: string, livePassword: string)
    requires fieldId == "firstName" || fieldId == "lastName"
    ensures var t := Trim(rawValue);
      var v := ValidateValue(fieldId, rawValue, livePassword);
      (v.Pass? <==> |t| >= 2 && forall k :: 0 <= k < |t| ==> IsAsciiLetter(t[k]) || IsSpace(t[k]))
      && (v.Fail? && t != [] ==> v.message == ValidationRules[fieldId].message)
  {
  }

  /** E-mail: accepted iff the trimmed value has no whitespace, exactly one
      "@" with something before it, and a "." inside the domain. */
  lemma EmailField(rawValue: string, livePassword: string)
    ensures var t := Trim(rawValue);
      var v := ValidateValue("email", rawValue, livePassword);
      (v.Pass? <==> EmailShape(t))
      && (v.Fail? && t != [] ==> v.message == EmailMessage)
  {
    RuledFieldVerdict("email", rawValue, livePassword);
    EmailMatchesIff(Trim(rawValue));
  }

  /** Phone: accepted iff the trimmed value is one of the writings the
      regular expression allows; an accepted value has ten digits and ten to
      fourteen characters. */
  lemma PhoneField(rawValue: string, livePassword: string)
    ensures var t := Trim(rawValue);
      var v := ValidateValue("phone", rawValue, livePassword);
      (v.Pass? <==> PhoneLanguage(t))
      && (v.Pass? ==> DigitCount(t) == 10 && 10 <= |t| <= 14)
      && (v.Fail? && t != [] ==> v.message == PhoneMessage)
  {
    var t := Trim(rawValue);
    RuledFieldVerdict("phone", rawValue, livePassword);
    PhoneMatchesIff(t);
    if PhoneMatches(t) {
      PhoneDigits(t);
    }
  }

  /** For a field with a rule, the verdict is decided by emptiness, then by
      the minimum length, then by the pattern alone. */
  lemma RuledFieldVerdict(fieldId: string, rawValue: string, livePassword: string)
    requires fieldId in ValidationRules && ValidationRules[fieldId].pattern.Some?
    ensures var t := Trim(rawValue);
      var r := ValidationRules[fieldId];
      var v := ValidateValue(fieldId, rawValue, livePassword);
      var short := r.minLength.Some? && |t| < r.minLength.value;
      (t == [] ==> v == Fail(RequiredMessage))
      && (t != [] && short ==> v == Fail(r.message))
      && (t != [] && !short ==> v == if Test(r.pattern.value, t) then Pass(true) else Fail(r.message))
  {
    TableFacts();
  }

  /** Password: a non-empty trimmed value shorter than eight characters
      fails with the field's message; one of eight or more characters passes
      iff its first character is allowed and its first line holds each of
      the four character classes. */
  lemma PasswordField(rawValue: string, livePassword: string)
    ensures var t := Trim(rawValue);
      var v := ValidateValue("password", rawValue, livePassword);
      (0 < |t| < 8 ==> v == Fail(PasswordMessage))
      && (|t| >= 8 ==> (v.Pass? <==> PasswordShape(t)))
      && (v.Fail? && t != [] ==> v.message == PasswordMessage)
  {
    RuledFieldVerdict("password", rawValue, livePassword);
    PasswordMatchesIff(Trim(rawValue));
  }

  /** Password confirmation has no rule: it fails, with "Passwords do not
      match", exactly when its trimmed value differs from the untrimmed live
      password; an empty match passes without a success indication. */
  lemma ConfirmPasswordField(rawValue: string, livePassword: string)
    ensures ConfirmPasswordId !in ValidationRules
    ensures var v := ValidateValue(ConfirmPasswordId, rawValue, livePassword);
      (v.Fail? <==> Trim(rawValue) != livePassword)
      && (v.Fail? ==> v.message == MismatchMessage)
      && (v.Pass? ==> (v.showSuccess <==> livePassword != []))
  {
    TableFacts();
  }

  /** A live password with whitespace at either end can never be confirmed,
      because the confirmation is trimmed and the password is not. */
  lemma PaddedPasswordNeverConfirmed(rawValue: string, livePassword: string)
    requires Trim(livePassword) != livePassword
    ensures ValidateValue(ConfirmPasswordId, rawValue, livePassword) == Fail(MismatchMessage)
  {
    if Trim(rawValue) == livePassword {
      TrimIdempotent(rawValue);
    }
  }

  /** A field with no rule and no special case accepts every value. */
  lemma UnruledFieldPasses(fieldId: string, rawValue: string, livePassword: string)
    requires fieldId !in ValidationRules && fieldId != ConfirmPasswordId
    ensures ValidateValue(fieldId, rawValue, livePassword) == Pass(!AllSpace(rawValue))
  {
    var value := Trim(rawValue);
    assert RuleFor(fieldId) == None;
    assert !CheckFails(ConfirmCheck, fieldId, value, livePassword);
  }

  /** Only the trimmed value matters: validating the trimmed value gives the
      same verdict as validating the raw one. */
  lemma TrimmingIsInvisible(fieldId: string, rawValue: string, livePassword: string)
    ensures ValidateValue(fieldId, Trim(rawValue), livePassword)
         == ValidateValue(fieldId, rawValue, livePassword)
  {
    TrimIdempotent(rawValue);
  }
}
