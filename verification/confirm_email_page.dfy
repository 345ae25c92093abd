/**
 * The e-mail confirmation page reached from the link in a verification
 * e-mail: it confirms the link's token once, and on failure offers to send
 * a new link, at most once every two minutes.
 */
module ConfirmEmailPage {
  import opened Wrappers
  import Countdown

  datatype Status = Loading | Confirmed | Failed

  datatype Page = Page(
    status: Status,
    errorMessage: string,
    email: string,
    resendSuccess: bool,
    cooldown: nat)

  /** An outcome of a request: the reply, or the message of the error it raised. */
  datatype Outcome<T> = Replied(value: T) | Raised(message: string)

  const NoToken: string := "No verification token provided."

  const Initial: Page := Page(Loading, "", "", false, 0)

  /**
   * The page's effect on its `token` parameter, with the outcome of the
   * confirmation request: a missing or empty token fails without a request,
   * otherwise the request's outcome decides.
   */
  function Open(token: Option<string>, reply: Outcome<()>): (r: Page)
    ensures r.status != Loading
    ensures r.status == Confirmed <==> token.Some? && token.value != "" && reply.Replied?
    ensures (token.None? || token.value == "") ==> r.errorMessage == NoToken
    ensures token.Some? && token.value != "" && reply.Raised? ==> r.errorMessage == reply.message
    ensures r.(status := Loading, errorMessage := "") == Initial
  {
    if token.None? || token.value == "" then Initial.(status := Failed, errorMessage := NoToken)
    else match reply
      case Replied(_) => Initial.(status := Confirmed)
      case Raised(m) => Initial.(status := Failed, errorMessage := m)
  }

  /** Typing an address: the field is disabled while the cooldown runs. */
  function EditEmail(p: Page, value: string): (r: Page)
    ensures p.cooldown > 0 ==> r == p
    ensures p.cooldown == 0 ==> r == p.(email := value)
  {
    if p.cooldown > 0 then p else p.(email := value)
  }

  /**
   * `handleResendVerification` with the outcome of the request: nothing
   * without an address or while the cooldown runs. A success shows the
   * notice and starts the cooldown; a failure says nothing, so that it does
   * not reveal whether the address has an account, and only hides an
   * earlier notice.
   */
  function Resend(p: Page, reply: Outcome<()>): (r: Page)
    ensures p.email == "" || p.cooldown > 0 ==> r == p
    ensures p.email != "" && p.cooldown == 0 && reply.Replied? ==>
      r == p.(resendSuccess := true, cooldown := Countdown.ResendCooldown)
    ensures p.email != "" && p.cooldown == 0 && reply.Raised? ==> r == p.(resendSuccess := false)
  {
    if p.email == "" || p.cooldown > 0 then p
    else
      var started := p.(resendSuccess := false);
      match reply
      case Replied(_) => started.(resendSuccess := true, cooldown := Countdown.ResendCooldown)
      case Raised(_) => started
  }

  /** The five-second timer hiding the notice. */
  function HideNotice(p: Page): (r: Page)
    ensures !r.resendSuccess && r.(resendSuccess := p.resendSuccess) == p
  {
    p.(resendSuccess := false)
  }

  /** One tick of the cooldown interval. */
  function Tick(p: Page): (r: Page)
    ensures r.cooldown == Countdown.Tick(p.cooldown) && r.(cooldown := p.cooldown) == p
  {
    p.(cooldown := Countdown.Tick(p.cooldown))
  }

  /** The confirmation status is settled once: no event on the page changes it. */
  lemma StatusSettled(p: Page, value: string, reply: Outcome<()>)
    ensures EditEmail(p, value).status == p.status && Resend(p, reply).status == p.status
    ensures HideNotice(p).status == p.status && Tick(p).status == p.status
  {
  }

  /**
   * Two successful resends are at least 120 ticks apart: after a success,
   * fewer than 120 ticks leave the button inert, whatever the address.
   */
  lemma {:induction false} ResendsSpacedByCooldown(p: Page, n: nat, value: string, first: Outcome<()>, second: Outcome<()>)
    requires p.email != "" && p.cooldown == 0 && first.Replied?
    requires n < Countdown.ResendCooldown
    ensures var waited := Resend(p, first).(cooldown := Countdown.Ticks(Countdown.ResendCooldown, n));
      waited.cooldown > 0 && Resend(EditEmail(waited, value), second) == waited
  {
    Countdown.TicksCountDown(Countdown.ResendCooldown, n);
  }
}
