/**
 * The two jobs the backend runs when it starts: granting administrator
 * rights to the configured addresses, and deleting expired codes, links
 * and invitations. `now` is the start-up instant.
 */
module Startup {
  import opened Models
  import Seqs
  import Strings
  import Auth

  /** A user as the sync leaves them: promoted when their address is listed. */
  function Promote(u: User, admins: seq<string>): (r: User)
    ensures r == u.(isAdmin := u.isAdmin || u.email in admins)
  {
    if u.email in admins && !u.isAdmin then u.(isAdmin := true) else u
  }

  /**
   * `sync_admin_emails`: every user whose address is in the configured list
   * becomes an administrator. Addresses are compared exactly against the
   * lower-cased list, and nobody is ever demoted.
   */
  function SyncAdminEmails(db: Db, setting: string): (r: Db)
    ensures |r.users| == |db.users|
    ensures forall i :: 0 <= i < |db.users| ==>
      r.users[i] == db.users[i].(isAdmin := db.users[i].isAdmin || db.users[i].email in Auth.AdminList(setting))
    ensures r == db.(users := r.users)
  {
    if |setting| == 0 then db
    else
      var admins := Auth.AdminList(setting);
      if |admins| == 0 then db
      else db.(users := Seqs.Map((u: User) => Promote(u, admins), db.users))
  }

  /** Sync never takes administrator rights away, and running it twice changes nothing more. */
  lemma SyncNeverRevokes(db: Db, setting: string)
    ensures forall i :: 0 <= i < |db.users| && db.users[i].isAdmin ==> SyncAdminEmails(db, setting).users[i].isAdmin
    ensures SyncAdminEmails(SyncAdminEmails(db, setting), setting) == SyncAdminEmails(db, setting)
  {
    var once := SyncAdminEmails(db, setting);
    var twice := SyncAdminEmails(once, setting);
    assert twice.users == once.users;
  }

  /**
   * The list is lower-cased but the stored address is not, so an address
   * with an upper-case letter is never promoted by the sync.
   */
  lemma MixedCaseAddressNotPromoted(db: Db, setting: string, i: nat)
    requires i < |db.users| && Strings.Lower(db.users[i].email) != db.users[i].email
    ensures SyncAdminEmails(db, setting).users[i].isAdmin == db.users[i].isAdmin
  {
    var admins := Auth.AdminList(setting);
    assert forall k :: 0 <= k < |admins| ==> admins[k] != db.users[i].email;
  }

  /** A code or link is expired for the clean-up strictly before `now`. */
  predicate CodeExpired(c: MfaCode, now: int) { c.expiresAt < now }
  predicate TokenExpired(t: VerificationToken, now: int) { t.expiresAt < now }
  /** An invitation is removed only when it is expired and was never accepted. */
  predicate InvitationStale(i: Invitation, now: int) { i.expiresAt < now && !i.accepted }

  /** `cleanup_expired_tokens`. */
  function CleanupExpiredTokens(db: Db, now: int): (r: Db)
    ensures forall c :: c in r.mfaCodes <==> c in db.mfaCodes && !CodeExpired(c, now)
    ensures forall t :: t in r.tokens <==> t in db.tokens && !TokenExpired(t, now)
    ensures forall i :: i in r.invitations <==> i in db.invitations && !InvitationStale(i, now)
    ensures r == db.(mfaCodes := r.mfaCodes, tokens := r.tokens, invitations := r.invitations)
  {
    db.(mfaCodes := Seqs.Filter((c: MfaCode) => !CodeExpired(c, now), db.mfaCodes),
        tokens := Seqs.Filter((t: VerificationToken) => !TokenExpired(t, now), db.tokens),
        invitations := Seqs.Filter((i: Invitation) => !InvitationStale(i, now), db.invitations))
  }

  /** Nothing the endpoints would still accept at `now` is removed, and accepted invitations always stay. */
  lemma CleanupKeepsWhatIsValid(db: Db, now: int)
    ensures var r := CleanupExpiredTokens(db, now);
      (forall c, u, code :: c in db.mfaCodes && Auth.ValidCodeFor(c, u, code, now) ==> c in r.mfaCodes)
      && (forall t :: t in db.tokens && t.expiresAt > now ==> t in r.tokens)
      && (forall i, token :: i in db.invitations && Auth.OpenInvitation(i, token, now) ==> i in r.invitations)
      && (forall i :: i in db.invitations && i.accepted ==> i in r.invitations)
  {
  }

  /**
   * The two comparisons do not meet: an item expiring exactly at `now` is
   * already refused by the endpoints and yet not removed.
   */
  lemma ExpiringNowIsNeitherValidNorRemoved(db: Db, now: int, c: MfaCode, t: VerificationToken, i: Invitation)
    requires c in db.mfaCodes && c.expiresAt == now
    requires t in db.tokens && t.expiresAt == now
    requires i in db.invitations && i.expiresAt == now
    ensures forall code :: !Auth.ValidCodeFor(c, c.userId, code, now)
    ensures !Auth.OpenInvitation(i, i.token, now)
    ensures (forall u :: u in db.tokens && u.token == t.token ==> u.expiresAt <= now) ==>
      Auth.ConfirmEmail(db, t.token, now).reply.Fail?
    ensures var r := CleanupExpiredTokens(db, now);
      c in r.mfaCodes && t in r.tokens && i in r.invitations
  {
  }

  /** A second clean-up at the same instant removes nothing more. */
  lemma CleanupIdempotent(db: Db, now: int)
    ensures CleanupExpiredTokens(CleanupExpiredTokens(db, now), now) == CleanupExpiredTokens(db, now)
  {
    Seqs.FilterTwice((c: MfaCode) => !CodeExpired(c, now), db.mfaCodes);
    Seqs.FilterTwice((t: VerificationToken) => !TokenExpired(t, now), db.tokens);
    Seqs.FilterTwice((i: Invitation) => !InvitationStale(i, now), db.invitations);
  }
}
