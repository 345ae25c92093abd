/**
 * The registration page: the form prefilled from an invitation link, the
 * five password requirements shown while typing, the submit handler's
 * guards, and the resend-verification button with its two-minute cooldown.
 */
module RegisterPage {
  import opened Wrappers
  import Schemas
  import Countdown

  datatype Form = Form(
    username: string,
    email: string,
    password: string,
    confirmPassword: string,
    honeypot: string,
    invitationToken: Option<string>,
    invited: bool,
    loading: bool,
    error: Option<string>,
    registered: bool,
    registeredEmail: string,
    resendSuccess: bool,
    cooldown: nat)

  /** An outcome of a request: the reply, or the message of the error it raised. */
  datatype Outcome<T> = Replied(value: T) | Raised(message: string)

  /** What a submission does besides changing the form. */
  datatype Effect = NoEffect | GoToNotFound | Register(username: string, email: string, password: string, token: Option<string>)

  datatype Step = Step(form: Form, effect: Effect)

  const Blank: Form := Form("", "", "", "", "", None, false, false, None, false, "", false, 0)

  /** JavaScript truthiness of an optional URL parameter: present and not empty. */
  predicate Given(param: Option<string>) {
    param.Some? && |param.value| > 0
  }

  /**
   * The effect reading the URL: an `email` parameter fills the (then
   * read-only) address and an `invitation_token` parameter is kept; either
   * one marks the visitor as invited. `decode` is `decodeURIComponent`.
   */
  function ReadParams(f: Form, emailParam: Option<string>, tokenParam: Option<string>, decode: string -> string): (r: Form)
    ensures r.invited <==> f.invited || Given(emailParam) || Given(tokenParam)
    ensures r.email == (if Given(emailParam) then decode(emailParam.value) else f.email)
    ensures r.invitationToken == (if Given(tokenParam) then tokenParam else f.invitationToken)
    ensures r.(email := f.email, invitationToken := f.invitationToken, invited := f.invited) == f
  {
    var withEmail := if Given(emailParam) then f.(email := decode(emailParam.value), invited := true) else f;
    if Given(tokenParam) then withEmail.(invitationToken := tokenParam, invited := true) else withEmail
  }

  /** Typing in the address field: ignored for an invited visitor. */
  function EditEmail(f: Form, value: string): (r: Form)
    ensures f.invited ==> r == f
    ensures !f.invited ==> r == f.(email := value)
  {
    if f.invited then f else f.(email := value)
  }

  /** `passwordRequirements`, in display order. */
  function Requirements(password: string, confirm: string): (r: seq<bool>)
    ensures |r| == 5
    ensures r[0] <==> |password| >= 8
    ensures r[1] <==> Schemas.HasUpper(password)
    ensures r[2] <==> Schemas.HasLower(password)
    ensures r[3] <==> Schemas.HasDigit(password)
    ensures r[4] <==> password == confirm && |password| > 0
  {
    [|password| >= 8, Schemas.HasUpper(password), Schemas.HasLower(password), Schemas.HasDigit(password),
     password == confirm && |password| > 0]
  }

  /** The submit button is enabled only when nothing is loading and every requirement is met. */
  predicate SubmitEnabled(f: Form) {
    !f.loading && forall i :: 0 <= i < 5 ==> Requirements(f.password, f.confirmPassword)[i]
  }

  /**
   * The page's requirements and the server's password rule agree except
   * for the server's 128-character limit: an enabled button means a
   * password the server accepts up to that limit, and a password the server
   * accepts, typed twice, enables the button.
   */
  lemma RequirementsMatchServer(f: Form)
    requires !f.loading
    ensures SubmitEnabled(f) && |f.password| <= 128 <==> Schemas.ValidPassword(f.password) && f.password == f.confirmPassword
  {
    var r := Requirements(f.password, f.confirmPassword);
    if Schemas.ValidPassword(f.password) && f.password == f.confirmPassword {
      assert forall i :: 0 <= i < 5 ==> r[i];
    }
    if SubmitEnabled(f) {
      assert r[0] && r[1] && r[2] && r[3] && r[4];
    }
  }

  /**
   * `handleSubmit` with the outcome of the registration request. A filled
   * honeypot navigates away and calls nothing; differing passwords set an
   * error and call nothing; otherwise the registration is sent, and a
   * success shows the confirmation view with the 120-second cooldown
   * running while a failure shows its message.
   */
  function Submit(f: Form, reply: Outcome<string>): (r: Step)
    ensures |f.honeypot| > 0 ==> r == Step(f, GoToNotFound)
    ensures |f.honeypot| == 0 && f.password != f.confirmPassword ==>
      r.effect == NoEffect && r.form == f.(error := Some("Passwords do not match"), loading := false)
    ensures |f.honeypot| == 0 && f.password == f.confirmPassword ==>
      r.effect == Register(f.username, f.email, f.password, f.invitationToken) && !r.form.loading
      && (reply.Replied? ==> r.form == f.(error := None, loading := false, registered := true,
                                          registeredEmail := reply.value, cooldown := Countdown.ResendCooldown))
      && (reply.Raised? ==> r.form == f.(error := Some(reply.message), loading := false))
  {
    if |f.honeypot| > 0 then Step(f, GoToNotFound)
    else
      var started := f.(loading := true, error := None);
      if f.password != f.confirmPassword then
        Step(started.(error := Some("Passwords do not match"), loading := false), NoEffect)
      else
        var request := Register(f.username, f.email, f.password, f.invitationToken);
        match reply
        case Replied(email) =>
          Step(started.(registeredEmail := email, registered := true, cooldown := Countdown.ResendCooldown, loading := false), request)
        case Raised(m) => Step(started.(error := Some(m), loading := false), request)
  }

  /**
   * `handleResendVerification` with the outcome of the request: nothing
   * while the cooldown runs; a success restarts the cooldown and shows the
   * notice, a failure shows its message.
   */
  function Resend(f: Form, reply: Outcome<()>): (r: Form)
    ensures f.cooldown > 0 ==> r == f
    ensures f.cooldown == 0 && reply.Replied? ==> r == f.(resendSuccess := true, error := None, cooldown := Countdown.ResendCooldown)
    ensures f.cooldown == 0 && reply.Raised? ==> r == f.(resendSuccess := false, error := Some(reply.message))
  {
    if f.cooldown > 0 then f
    else
      var started := f.(resendSuccess := false, error := None);
      match reply
      case Replied(_) => started.(resendSuccess := true, cooldown := Countdown.ResendCooldown)
      case Raised(m) => started.(error := Some(m))
  }

  /** The five-second timer hiding the resend notice. */
  function HideNotice(f: Form): (r: Form)
    ensures !r.resendSuccess && r.(resendSuccess := f.resendSuccess) == f
  {
    f.(resendSuccess := false)
  }

  /** One tick of the cooldown interval. */
  function Tick(f: Form): (r: Form)
    ensures r.cooldown == Countdown.Tick(f.cooldown) && r.(cooldown := f.cooldown) == f
  {
    f.(cooldown := Countdown.Tick(f.cooldown))
  }

  /**
   * After a successful registration the resend button stays inert for
   * exactly 120 ticks: a resend after fewer ticks changes nothing, and
   * after 120 ticks a successful one restarts the cooldown.
   */
  lemma {:induction false} CooldownHoldsResend(f: Form, n: nat, reply: Outcome<()>)
    requires f.cooldown == Countdown.ResendCooldown
    ensures n < Countdown.ResendCooldown ==> Ticked(f, n).cooldown > 0 && Resend(Ticked(f, n), reply) == Ticked(f, n)
    ensures n >= Countdown.ResendCooldown ==> Ticked(f, n).cooldown == 0
    ensures n >= Countdown.ResendCooldown && reply.Replied? ==>
      Resend(Ticked(f, n), reply).resendSuccess && Resend(Ticked(f, n), reply).cooldown == Countdown.ResendCooldown
  {
    TickedCounts(f, n);
  }

  /** `n` ticks. */
  function Ticked(f: Form, n: nat): Form
    decreases n
  {
    if n == 0 then f else Ticked(Tick(f), n - 1)
  }

  lemma {:induction false} TickedCounts(f: Form, n: nat)
    ensures Ticked(f, n).cooldown == Countdown.Ticks(f.cooldown, n)
    ensures Ticked(f, n) == f.(cooldown := Countdown.Ticks(f.cooldown, n))
    ensures Ticked(f, n).cooldown == if n <= f.cooldown then f.cooldown - n else 0
    decreases n
  {
    Countdown.TicksCountDown(f.cooldown, n);
    if n > 0 {
      TickedCounts(Tick(f), n - 1);
    }
  }
}
