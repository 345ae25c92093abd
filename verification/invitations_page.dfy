/**
 * The administrator's invitation page: the list of invitations with each
 * one's status, the three summary counts, and the send, delete and resend
 * actions that keep the displayed list in step with the server.
 */
module InvitationsPage {
  import opened Wrappers
  import Seqs
  import Strings

  /** An invitation as the page receives it; `expiresAt` is a point on the same clock as `now`. */
  datatype Invitation = Invitation(id: string, email: string, accepted: bool, expiresAt: int)

  datatype Status = Accepted | Expired | Pending

  datatype Message = Message(success: bool, text: string)

  datatype Page = Page(
    loading: bool,
    invitations: seq<Invitation>,
    newEmail: string,
    message: Option<Message>)

  /** An outcome of a request: the reply, or the message of the error it raised. */
  datatype Outcome<T> = Replied(value: T) | Raised(message: string)

  /** `isExpired`: the expiry lies strictly before now. */
  predicate IsExpired(expiresAt: int, now: int) {
    expiresAt < now
  }

  /** `getStatus`: acceptance wins over expiry. */
  function GetStatus(inv: Invitation, now: int): (r: Status)
    ensures r == Accepted <==> inv.accepted
    ensures r == Expired <==> !inv.accepted && IsExpired(inv.expiresAt, now)
    ensures r == Pending <==> !inv.accepted && !IsExpired(inv.expiresAt, now)
  {
    if inv.accepted then Accepted
    else if IsExpired(inv.expiresAt, now) then Expired
    else Pending
  }

  function IsAccepted(inv: Invitation): bool { inv.accepted }

  /** The filter behind the "Pending" card. */
  function IsPending(now: int): Invitation -> bool {
    (inv: Invitation) => !inv.accepted && !IsExpired(inv.expiresAt, now)
  }

  function HasStatus(now: int, st: Status): Invitation -> bool {
    (inv: Invitation) => GetStatus(inv, now) == st
  }

  /**
   * The cards' counts agree with the per-row status: "Accepted" counts the
   * rows shown as accepted, "Pending" the rows shown as pending, and with
   * the expired rows they make up the total.
   */
  lemma {:induction false} CountsAddUp(invs: seq<Invitation>, now: int)
    ensures Seqs.Count(IsAccepted, invs) == Seqs.Count(HasStatus(now, Accepted), invs)
    ensures Seqs.Count(IsPending(now), invs) == Seqs.Count(HasStatus(now, Pending), invs)
    ensures Seqs.Count(HasStatus(now, Accepted), invs) + Seqs.Count(HasStatus(now, Pending), invs)
            + Seqs.Count(HasStatus(now, Expired), invs) == |invs|
  {
    if |invs| > 0 {
      CountsAddUp(invs[1..], now);
    }
  }

  /** The page's loading effect: without a token it goes to the login page; otherwise it shows the list or an error. */
  function Load(hasToken: bool, reply: Outcome<seq<Invitation>>): (r: (Page, Option<string>))
    ensures !hasToken ==> r.1 == Some("/login") && r.0.loading
    ensures hasToken ==> r.1.None? && !r.0.loading && r.0.newEmail == ""
    ensures hasToken && reply.Replied? ==> r.0.invitations == reply.value && r.0.message.None?
    ensures hasToken && reply.Raised? ==> r.0.invitations == [] && r.0.message == Some(Message(false, "Failed to load invitations"))
  {
    var initial := Page(true, [], "", None);
    if !hasToken then (initial, Some("/login"))
    else match reply
      case Replied(items) => (initial.(invitations := items, loading := false), None)
      case Raised(_) => (initial.(message := Some(Message(false, "Failed to load invitations")), loading := false), None)
  }

  /**
   * `handleSendInvitation` with the outcome of the request: nothing for a
   * blank address; otherwise the trimmed address is sent, and a success
   * puts the new invitation first and empties the field.
   */
  function Send(p: Page, reply: Outcome<Invitation>): (r: (Page, Option<string>))
    ensures |Strings.Strip(p.newEmail)| == 0 ==> r == (p, None)
    ensures |Strings.Strip(p.newEmail)| > 0 ==> r.1 == Some(Strings.Strip(p.newEmail))
    ensures |Strings.Strip(p.newEmail)| > 0 && reply.Replied? ==>
      r.0 == p.(invitations := [reply.value] + p.invitations, newEmail := "",
                message := Some(Message(true, "Invitation sent to " + reply.value.email)))
    ensures |Strings.Strip(p.newEmail)| > 0 && reply.Raised? ==> r.0 == p.(message := Some(Message(false, reply.message)))
  {
    var email := Strings.Strip(p.newEmail);
    if |email| == 0 then (p, None)
    else match reply
      case Replied(inv) =>
        (p.(invitations := [inv] + p.invitations, newEmail := "", message := Some(Message(true, "Invitation sent to " + inv.email))), Some(email))
      case Raised(m) => (p.(message := Some(Message(false, m))), Some(email))
  }

  function IdIsNot(id: string): Invitation -> bool {
    (inv: Invitation) => inv.id != id
  }

  /** `handleDeleteInvitation` with the outcome of the request: a success drops every row with that id. */
  function Delete(p: Page, id: string, reply: Outcome<()>): (r: Page)
    ensures reply.Replied? ==>
      r.message == Some(Message(true, "Invitation deleted"))
      && r.invitations == Seqs.Filter(IdIsNot(id), p.invitations)
    ensures reply.Raised? ==> r == p.(message := Some(Message(false, reply.message)))
    ensures r.(invitations := p.invitations, message := p.message) == p
  {
    match reply
    case Replied(_) => p.(invitations := Seqs.Filter(IdIsNot(id), p.invitations), message := Some(Message(true, "Invitation deleted")))
    case Raised(m) => p.(message := Some(Message(false, m)))
  }

  /** A deletion removes exactly the rows with that id and keeps every other row. */
  lemma DeleteRemovesExactly(p: Page, id: string, reply: Outcome<()>)
    requires reply.Replied?
    ensures forall inv :: inv in Delete(p, id, reply).invitations <==> inv in p.invitations && inv.id != id
    ensures |Delete(p, id, reply).invitations| == |p.invitations| - Seqs.Count((inv: Invitation) => inv.id == id, p.invitations)
  {
    FilterComplement(id, p.invitations);
  }

  lemma {:induction false} FilterComplement(id: string, invs: seq<Invitation>)
    ensures |Seqs.Filter(IdIsNot(id), invs)| + Seqs.Count((inv: Invitation) => inv.id == id, invs) == |invs|
  {
    if |invs| > 0 {
      FilterComplement(id, invs[1..]);
    }
  }

  function Replace(id: string, updated: Invitation): Invitation -> Invitation {
    (inv: Invitation) => if inv.id == id then updated else inv
  }

  /** `handleResendInvitation` with the outcome of the request: a success puts the reply in place of every row with that id. */
  function Resend(p: Page, id: string, reply: Outcome<Invitation>): (r: Page)
    ensures reply.Replied? ==>
      r.message == Some(Message(true, "Invitation resent to " + reply.value.email))
      && |r.invitations| == |p.invitations|
      && forall k :: 0 <= k < |p.invitations| ==>
           r.invitations[k] == if p.invitations[k].id == id then reply.value else p.invitations[k]
    ensures reply.Raised? ==> r == p.(message := Some(Message(false, reply.message)))
    ensures r.(invitations := p.invitations, message := p.message) == p
  {
    match reply
    case Replied(updated) =>
      p.(invitations := Seqs.Map(Replace(id, updated), p.invitations), message := Some(Message(true, "Invitation resent to " + updated.email)))
    case Raised(m) => p.(message := Some(Message(false, m)))
  }

  /**
   * Resending an invitation the server renews (same id and address, later
   * expiry) turns an expired row pending again and leaves every other row's
   * status alone.
   */
  lemma ResendRenews(p: Page, k: nat, updated: Invitation, now: int)
    requires k < |p.invitations| && !p.invitations[k].accepted
    requires updated == p.invitations[k].(expiresAt := updated.expiresAt) && updated.expiresAt >= now
    ensures var r := Resend(p, p.invitations[k].id, Replied(updated));
      GetStatus(r.invitations[k], now) == Pending
      && forall j :: 0 <= j < |p.invitations| && p.invitations[j].id != p.invitations[k].id ==>
           GetStatus(r.invitations[j], now) == GetStatus(p.invitations[j], now)
  {
  }
}
