/**
 * The signup screen: the form, its per-field error map, the two validators,
 * the change handler that clears a field's error, and the two steps (enter
 * details, enter the code). Network replies are parameters.
 */
module Signup {
  import JsText

  datatype Field = Name | Email | Password | ConfirmPassword | Otp

  /** The keys of the `errors` object: one per input, and `general`. */
  datatype ErrorKey = On(field: Field) | General

  type Errors = map<ErrorKey, string>

  datatype FormData = FormData(name: string, email: string, password: string,
                               confirmPassword: string, otp: string)
  {
    function Get(f: Field): string {
      match f
      case Name => name
      case Email => email
      case Password => password
      case ConfirmPassword => confirmPassword
      case Otp => otp
    }

    /** `{...formData, [f]: v}`. */
    function Set(f: Field, v: string): (r: FormData)
      ensures r.Get(f) == v
      ensures forall g :: g != f ==> r.Get(g) == Get(g)
    {
      match f
      case Name => this.(name := v)
      case Email => this.(email := v)
      case Password => this.(password := v)
      case ConfirmPassword => this.(confirmPassword := v)
      case Otp => this.(otp := v)
    }
  }

  const EmptyForm := FormData("", "", "", "", "")

  // ------------------------------------------------------------- the e-mail rule

  /** Positions i < j exist and the characters in [i, j) are all non-space: `\S+` matches s[i..j]. */
  predicate NonSpaceRun(s: string, i: int, j: int) {
    0 <= i < j <= |s| && forall k :: i <= k < j ==> !JsText.IsSpace(s[k])
  }

  /** `\S+@\S+\.\S+` matches s[a..e], with the `@` at `at` and the `.` at `dot`. */
  predicate MatchAt(s: string, a: int, at: int, dot: int, e: int) {
    NonSpaceRun(s, a, at) && at < |s| && s[at] == '@' && NonSpaceRun(s, at + 1, dot)
    && dot < |s| && s[dot] == '.' && NonSpaceRun(s, dot + 1, e)
  }

  /** `/\S+@\S+\.\S+/.test(s)`: the pattern matches somewhere in `s` (it is not
      anchored); an address with no `@`, or with no `.`, never passes. */
  function EmailPattern(s: string): (r: bool)
    ensures r ==> '@' in s && '.' in s
  {
    exists a, at, dot, e | 0 <= a <= |s| && 0 <= at <= |s| && 0 <= dot <= |s| && 0 <= e <= |s| ::
      MatchAt(s, a, at, dot, e)
  }

  /** The pattern is unanchored: text around a matching string does not matter. */
  lemma EmailPatternUnanchored(s: string, before: string, after: string)
    requires EmailPattern(s)
    ensures EmailPattern(before + s + after)
  {
    var a, at, dot, e :| 0 <= a <= |s| && 0 <= at <= |s| && 0 <= dot <= |s| && 0 <= e <= |s|
      && MatchAt(s, a, at, dot, e);
    var t := before + s + after;
    var d := |before|;
    MatchShifts(s, t, d, a, at, dot, e);
    assert 0 <= d + a <= |t| && 0 <= d + at <= |t| && 0 <= d + dot <= |t| && 0 <= d + e <= |t|;
  }

  /** A match inside `s` is a match at the same offsets in any `t` that holds `s` at `d`. */
  lemma MatchShifts(s: string, t: string, d: nat, a: int, at: int, dot: int, e: int)
    requires d + |s| <= |t| && forall k :: 0 <= k < |s| ==> t[d + k] == s[k]
    requires MatchAt(s, a, at, dot, e)
    ensures MatchAt(t, d + a, d + at, d + dot, d + e)
  {
    forall k | d + a <= k < d + e ensures t[k] == s[k - d] {
      assert t[d + (k - d)] == s[k - d];
    }
  }

  lemma EmailPatternExample()
    ensures EmailPattern("a@x.com")
    ensures !EmailPattern("a@x")
  {
    var s := "a@x.com";
    assert MatchAt(s, 0, 1, 3, 7);
    assert '.' !in "a@x";
  }

  // --------------------------------------------------------------- validators

  /** The message the two-branch `if` for the name sets ("" when it sets none). */
  function NameMessage(name: string): (m: string)
    ensures m == "" <==> JsText.HasTwoNonSpace(name)
    ensures m == "Name is required" <==> forall i :: 0 <= i < |name| ==> JsText.IsSpace(name[i])
    ensures m == "" || m == "Name is required" || m == "Name must be at least 2 characters"
  {
    JsText.TrimEmptyIff(name);
    JsText.TrimAtLeastTwoIff(name);
    var trimmed := JsText.Trim(name);
    if trimmed == "" then "Name is required"
    else if |trimmed| < 2 then "Name must be at least 2 characters"
    else ""
  }

  /** The message for the e-mail: required when empty, invalid when the pattern fails. */
  function EmailMessage(email: string): (m: string)
    ensures m == "" <==> EmailPattern(email)
    ensures m == "Email is required" <==> email == ""
    ensures m == "" || m == "Email is required" || m == "Please enter a valid email"
  {
    if email == "" then "Email is required"
    else if !EmailPattern(email) then "Please enter a valid email"
    else ""
  }

  /** The message for the password: required when empty, too short below six characters. */
  function PasswordMessage(password: string): (m: string)
    ensures m == "" <==> |password| >= 6
    ensures m == "Password is required" <==> password == ""
    ensures m == "" || m == "Password is required" || m == "Password must be at least 6 characters"
  {
    if password == "" then "Password is required"
    else if |password| < 6 then "Password must be at least 6 characters"
    else ""
  }

  /** The message for the confirmation: missing first, then a mismatch. */
  function ConfirmMessage(password: string, confirm: string): (m: string)
    ensures m == "" <==> confirm != "" && confirm == password
    ensures m == "Please confirm your password" <==> confirm == ""
    ensures m == "" || m == "Please confirm your password" || m == "Passwords do not match"
  {
    if confirm == "" then "Please confirm your password"
    else if password != confirm then "Passwords do not match"
    else ""
  }

  /** `newErrors.field = message`, skipped when there is no message. */
  function Put(e: Errors, f: Field, message: string): (r: Errors)
    ensures r.Keys == if message == "" then e.Keys else e.Keys + {On(f)}
    ensures message != "" ==> r[On(f)] == message
    ensures forall k :: k in e && k != On(f) ==> r[k] == e[k]
  {
    if message == "" then e else e[On(f) := message]
  }

  /** The four assignments of `validateForm` in order: a key for each non-empty message. */
  function Collect(nameMsg: string, emailMsg: string, passwordMsg: string, confirmMsg: string): (e: Errors)
    ensures e.Keys <= {On(Name), On(Email), On(Password), On(ConfirmPassword)}
    ensures (On(Name) in e <==> nameMsg != "") && (On(Name) in e ==> e[On(Name)] == nameMsg)
    ensures (On(Email) in e <==> emailMsg != "") && (On(Email) in e ==> e[On(Email)] == emailMsg)
    ensures (On(Password) in e <==> passwordMsg != "") && (On(Password) in e ==> e[On(Password)] == passwordMsg)
    ensures (On(ConfirmPassword) in e <==> confirmMsg != "")
            && (On(ConfirmPassword) in e ==> e[On(ConfirmPassword)] == confirmMsg)
  {
    Put(Put(Put(Put(map[], Name, nameMsg), Email, emailMsg), Password, passwordMsg), ConfirmPassword, confirmMsg)
  }

  /** The `newErrors` object `validateForm` builds: a key exactly for the fields
      with a message, holding that one message. */
  function FormErrors(form: FormData): (e: Errors)
    ensures e.Keys <= {On(Name), On(Email), On(Password), On(ConfirmPassword)}
    ensures On(Name) in e <==> !JsText.HasTwoNonSpace(form.name)
    ensures On(Email) in e <==> !EmailPattern(form.email)
    ensures On(Password) in e <==> |form.password| < 6
    ensures On(ConfirmPassword) in e <==> form.confirmPassword == "" || form.confirmPassword != form.password
    ensures On(Name) in e ==> e[On(Name)] == NameMessage(form.name)
    ensures On(Email) in e ==> e[On(Email)] == EmailMessage(form.email)
    ensures On(Password) in e ==> e[On(Password)] == PasswordMessage(form.password)
    ensures On(ConfirmPassword) in e ==> e[On(ConfirmPassword)] == ConfirmMessage(form.password, form.confirmPassword)
  {
    Collect(NameMessage(form.name), EmailMessage(form.email), PasswordMessage(form.password),
            ConfirmMessage(form.password, form.confirmPassword))
  }

  /** `validateForm()`'s verdict: no key was set, which is exactly when every rule holds. */
  function ValidateForm(form: FormData): (ok: bool)
    ensures ok <==> JsText.HasTwoNonSpace(form.name) && EmailPattern(form.email)
                    && |form.password| >= 6 && form.confirmPassword == form.password
  {
    var e := FormErrors(form);
    assert e != map[] ==> exists k :: k in e;
    |e| == 0
  }

  /** The `newErrors` object `validateOTP` builds. */
  function OtpErrors(form: FormData): (e: Errors)
    ensures e.Keys <= {On(Otp)}
    ensures On(Otp) in e <==> |form.otp| != 6
    ensures On(Otp) in e ==> e[On(Otp)] == (if form.otp == "" then "OTP is required" else "OTP must be 6 digits")
  {
    if form.otp == "" then map[On(Otp) := "OTP is required"]
    else if |form.otp| != 6 then map[On(Otp) := "OTP must be 6 digits"]
    else map[]
  }

  /** `validateOTP()`'s verdict: any code of exactly six characters, digits or not. */
  function ValidateOtp(form: FormData): (ok: bool)
    ensures ok <==> |form.otp| == 6
  {
    var e := OtpErrors(form);
    assert |form.otp| != 6 ==> On(Otp) in e;
    |e| == 0
  }

  // ------------------------------------------------------------ the screen

  datatype Step = EnterDetails | EnterCode

  datatype Screen = Screen(step: Step, form: FormData, errors: Errors)

  const Initial := Screen(EnterDetails, EmptyForm, map[])

  /** How a request ended: the server answered (with `ok` and the body's `error`,
      "" when absent), or `fetch` failed. */
  datatype Reply = Answered(ok: bool, error: string) | NetworkFailure

  /** `data.error || fallback`. */
  function Reported(error: string, fallback: string): string {
    if error == "" then fallback else error
  }

  /** `handleChange`: sets the field; clears its error only if one is shown. */
  function HandleChange(s: Screen, f: Field, v: string): (r: Screen)
    ensures r.step == s.step
    ensures r.form.Get(f) == v
    ensures forall g :: g != f ==> r.form.Get(g) == s.form.Get(g)
    ensures r.errors.Keys == s.errors.Keys
    ensures On(f) in s.errors ==> r.errors[On(f)] == ""
    ensures forall k :: k in s.errors && k != On(f) ==> r.errors[k] == s.errors[k]
  {
    var errors := if On(f) in s.errors && s.errors[On(f)] != "" then s.errors[On(f) := ""] else s.errors;
    Screen(s.step, s.form.Set(f, v), errors)
  }

  /** `handleSendOTP`: the request is made only when `validateForm` passes; the
      screen moves to the code step only when the server answered ok. */
  function SubmitDetails(s: Screen, reply: Reply): (r: Screen)
    ensures r.form == s.form
    ensures r.step == EnterCode <==> s.step == EnterCode || (ValidateForm(s.form) && reply.Answered? && reply.ok)
    ensures !ValidateForm(s.form) ==> r == s.(errors := FormErrors(s.form))
    ensures ValidateForm(s.form) && reply.Answered? && reply.ok ==> r.errors == map[]
    ensures ValidateForm(s.form) && reply.Answered? && !reply.ok ==>
      r.errors == map[General := Reported(reply.error, "Failed")]
    ensures ValidateForm(s.form) && reply.NetworkFailure? ==>
      r.errors == map[General := "Network error. Please try again."]
  {
    var valid := ValidateForm(s.form);
    if !valid then s.(errors := FormErrors(s.form))
    else match reply
      case NetworkFailure => s.(errors := map[General := "Network error. Please try again."])
      case Answered(ok, error) =>
        if ok then s.(step := EnterCode, errors := map[])
        else s.(errors := map[General := Reported(error, "Failed")])
  }

  /** `handleVerifyOTP`: the request is made only when `validateOTP` passes; the
      second component says whether `onLogin` was called. */
  function SubmitCode(s: Screen, reply: Reply): (r: (Screen, bool))
    ensures r.0.step == s.step && r.0.form == s.form
    ensures r.1 <==> |s.form.otp| == 6 && reply.Answered? && reply.ok
    ensures !ValidateOtp(s.form) ==> r.0 == s.(errors := OtpErrors(s.form))
    ensures ValidateOtp(s.form) && reply.Answered? && reply.ok ==> r.0.errors == map[]
    ensures ValidateOtp(s.form) && reply.Answered? && !reply.ok ==>
      r.0.errors == map[General := Reported(reply.error, "OTP failed")]
    ensures ValidateOtp(s.form) && reply.NetworkFailure? ==>
      r.0.errors == map[General := "Network error. Please try again."]
  {
    if !ValidateOtp(s.form) then (s.(errors := OtpErrors(s.form)), false)
    else match reply
      case NetworkFailure => (s.(errors := map[General := "Network error. Please try again."]), false)
      case Answered(ok, error) =>
        if ok then (s.(errors := map[]), true)
        else (s.(errors := map[General := Reported(error, "OTP failed")]), false)
  }

  /** "Back to signup". */
  function Back(s: Screen): (r: Screen)
    ensures r.step == EnterDetails && r.form == s.form && r.errors == s.errors
  {
    s.(step := EnterDetails)
  }

  /** Going forward and back again returns to the details step with the form as typed. */
  lemma ForwardAndBack(s: Screen, reply: Reply, code: string)
    requires s.step == EnterDetails
    ensures var r := Back(HandleChange(SubmitDetails(s, reply), Otp, code));
      r.step == EnterDetails && r.form == s.form.(otp := code)
  {
  }

  /** From the details step, exactly a valid form that the server accepted reaches the code step. */
  lemma CodeStepNeedsValidForm(s: Screen, reply: Reply)
    requires s.step == EnterDetails
    ensures SubmitDetails(s, reply).step == EnterCode <==>
      JsText.HasTwoNonSpace(s.form.name) && EmailPattern(s.form.email) &&
      |s.form.password| >= 6 && s.form.password == s.form.confirmPassword &&
      reply.Answered? && reply.ok
  {
  }
}
