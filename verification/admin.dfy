/**
 * The administrator endpoints: invitations, user management and the AI
 * caches. The `require_admin` dependency is outside the model: every
 * endpoint takes the already authenticated administrator.
 */
module Admin {
  import opened Wrappers
  import opened Models
  import Seqs
  import Strings
  import Schemas
  import Auth

  /** Lifetime of an invitation link: 7 days. */
  const InvitationLifetime: int := 7 * 24 * 60 * 60

  /** An invitation as the admin pages see it: the row and the name shown as its sender. */
  datatype InvitationView = InvitationView(invitation: Invitation, invitedByUsername: string)

  /** A cached hint joined with its vocabulary entry. */
  datatype HintView = HintView(entry: HintEntry, expression: string, reading: string, meaning: string)

  /** The hint and speech cache sizes. */
  datatype CacheStats = CacheStats(hintCount: nat, ttsCount: nat)

  /** An invitation that blocks a second one for the same address. */
  predicate PendingFor(i: Invitation, email: string, now: int) {
    i.email == email && !i.accepted && i.expiresAt > now
  }

  /** The reason `POST /admin/invitations` refuses the (lower-cased) address, if any. */
  function InvitationError(db: Db, email: string, now: int): (e: Option<HttpError>)
    ensures e.None? <==>
      (forall u :: u in db.users ==> u.email != email) && (forall i :: i in db.invitations ==> !PendingFor(i, email, now))
    ensures (exists u :: u in db.users && u.email == email) ==>
      e == Some(HttpError(400, "This email address is already registered"))
  {
    if UserByEmail(db.users, email).Some? then Some(HttpError(400, "This email address is already registered"))
    else if exists i :: i in db.invitations && PendingFor(i, email, now) then
      Some(HttpError(400, "An active invitation already exists for this email"))
    else None
  }

  /** `POST /admin/invitations`: a new invitation for the lower-cased address, valid for 7 days. */
  function CreateInvitation(db: Db, admin: User, email: string, token: string, now: int): (out: Outcome<InvitationView>)
    ensures out.reply.Fail? <==> InvitationError(db, Strings.Lower(email), now).Some?
    ensures out.reply.Fail? ==> out.db == db && out.reply.error == InvitationError(db, Strings.Lower(email), now).value
    ensures out.reply.Ok? ==>
      var inv := out.reply.value.invitation;
      inv.email == Strings.Lower(email) && inv.token == token && !inv.accepted && inv.acceptedAt.None?
      && inv.invitedBy == admin.id && inv.expiresAt == now + InvitationLifetime
      && (forall o :: o in db.invitations ==> o.id != inv.id)
      && out.db == db.(invitations := db.invitations + [inv])
      && out.reply.value.invitedByUsername == admin.username
  {
    var address := Strings.Lower(email);
    match InvitationError(db, address, now)
    case Some(e) => Outcome(db, Fail(e))
    case None =>
      var id := FreshId(Seqs.Map(InvitationId, db.invitations));
      assert forall o :: o in db.invitations ==> o.id != id by {
        forall o | o in db.invitations ensures o.id != id {
          var k :| 0 <= k < |db.invitations| && db.invitations[k] == o;
          assert Seqs.Map(InvitationId, db.invitations)[k] == o.id;
        }
      }
      var inv := Invitation(id, address, token, admin.id, false, None, now + InvitationLifetime);
      Outcome(db.(invitations := db.invitations + [inv]), Ok(InvitationView(inv, admin.username)))
  }

  /**
   * While a fresh invitation is pending, a second one for the same address,
   * in any letter case, is refused.
   */
  lemma CreateInvitationBlocksDuplicate(db: Db, admin: User, email: string, token: string, now: int,
                                        email2: string, token2: string, later: int)
    requires CreateInvitation(db, admin, email, token, now).reply.Ok?
    requires Strings.Lower(email2) == Strings.Lower(email)
    requires later < now + InvitationLifetime
    ensures CreateInvitation(CreateInvitation(db, admin, email, token, now).db, admin, email2, token2, later).reply.Fail?
  {
    var db1 := CreateInvitation(db, admin, email, token, now).db;
    var inv := db1.invitations[|db.invitations|];
    assert PendingFor(inv, Strings.Lower(email2), later);
  }

  /** A fresh invitation can be redeemed by registration until it expires. */
  lemma CreatedInvitationIsRedeemable(db: Db, admin: User, email: string, token: string, now: int, later: int)
    requires CreateInvitation(db, admin, email, token, now).reply.Ok?
    requires later < now + InvitationLifetime
    ensures Auth.InvitationFor(CreateInvitation(db, admin, email, token, now).db, token, later).Some?
  {
    var db1 := CreateInvitation(db, admin, email, token, now).db;
    assert Auth.OpenInvitation(db1.invitations[|db.invitations|], token, later);
  }

  /** The name shown as an invitation's sender: the inviter's username, or "Unknown". */
  function InviterName(db: Db, inv: Invitation): (name: string)
    ensures UserById(db.users, inv.invitedBy).Some? ==> name == UserById(db.users, inv.invitedBy).value.username
    ensures UserById(db.users, inv.invitedBy).None? ==> name == "Unknown"
  {
    match UserById(db.users, inv.invitedBy)
    case Some(u) => u.username
    case None => "Unknown"
  }

  /**
   * `GET /admin/invitations`: every invitation with its sender's name,
   * newest first. Rows are stored in creation order, so the newest is last.
   */
  function ListInvitations(db: Db): (r: seq<InvitationView>)
    ensures |r| == |db.invitations|
    ensures forall k :: 0 <= k < |r| ==>
      var inv := db.invitations[|r| - 1 - k];
      r[k].invitation == inv && r[k].invitedByUsername == InviterName(db, inv)
  {
    var n := |db.invitations|;
    seq(n, k requires 0 <= k < n => InvitationView(db.invitations[n - 1 - k], InviterName(db, db.invitations[n - 1 - k])))
  }

  /**
   * A new invitation heads the list, shown with the sending administrator's
   * name, and the earlier ones follow unchanged.
   */
  lemma CreatedInvitationListedFirst(db: Db, admin: User, email: string, token: string, now: int)
    requires CreateInvitation(db, admin, email, token, now).reply.Ok?
    requires UserById(db.users, admin.id) == Some(admin)
    ensures var out := CreateInvitation(db, admin, email, token, now);
      ListInvitations(out.db) == [out.reply.value] + ListInvitations(db)
  {
    var out := CreateInvitation(db, admin, email, token, now);
    var inv := out.reply.value.invitation;
    ListAfterAppend(db, inv);
    assert InviterName(db, inv) == admin.username;
    assert out.reply.value == InvitationView(inv, admin.username);
  }

  /** Appending an invitation puts it at the head of the list; the rest is the old list. */
  lemma ListAfterAppend(db: Db, inv: Invitation)
    ensures ListInvitations(db.(invitations := db.invitations + [inv]))
      == [InvitationView(inv, InviterName(db, inv))] + ListInvitations(db)
  {
    var after := ListInvitations(db.(invitations := db.invitations + [inv]));
    var expected := [InvitationView(inv, InviterName(db, inv))] + ListInvitations(db);
    forall k | 0 <= k < |after| ensures after[k] == expected[k] {
      if k == 0 {
        ListedFirstAfterAppend(db, inv);
      } else {
        ListedLaterAfterAppend(db, inv, k);
      }
    }
  }

  /** The appended invitation is the listing's first row. */
  lemma ListedFirstAfterAppend(db: Db, inv: Invitation)
    ensures ListInvitations(db.(invitations := db.invitations + [inv]))[0] == InvitationView(inv, InviterName(db, inv))
  {
    var db1 := db.(invitations := db.invitations + [inv]);
    var after := ListInvitations(db1);
    assert after[0].invitation == inv && after[0].invitedByUsername == InviterName(db1, inv);
    assert InviterName(db1, inv) == InviterName(db, inv);
  }

  /** After an append, row k of the listing is row k - 1 of the listing before. */
  lemma ListedLaterAfterAppend(db: Db, inv: Invitation, k: nat)
    requires 0 < k <= |db.invitations|
    ensures ListInvitations(db.(invitations := db.invitations + [inv]))[k] == ListInvitations(db)[k - 1]
  {
    var db1 := db.(invitations := db.invitations + [inv]);
    var x := db.invitations[|db.invitations| - k];
    var view := InvitationView(x, InviterName(db, x));
    assert InviterName(db1, x) == InviterName(db, x);
    assert db1.invitations[|db.invitations| - k] == x;
    assert ListInvitations(db1)[k] == view;
    assert ListInvitations(db)[k - 1] == view;
  }

  /** The position of the invitation with key `id`. */
  function InvitationIndex(db: Db, id: nat): (r: Option<nat>)
    ensures r.Some? ==> r.value < |db.invitations| && db.invitations[r.value].id == id
    ensures r.None? <==> forall i :: i in db.invitations ==> i.id != id
  {
    Seqs.FindIndex((i: Invitation) => i.id == id, db.invitations)
  }

  const InvitationNotFound := HttpError(404, "Invitation not found")

  /** `s` without its element at `k`. */
  function RemoveAt<T>(s: seq<T>, k: nat): (r: seq<T>)
    requires k < |s|
    ensures |r| == |s| - 1
    ensures forall i :: 0 <= i < k ==> r[i] == s[i]
    ensures forall i :: k <= i < |r| ==> r[i] == s[i + 1]
  {
    s[..k] + s[k + 1..]
  }

  /** `DELETE /admin/invitations/{id}`. */
  function DeleteInvitation(db: Db, id: nat): (out: Outcome<()>)
    ensures out.reply.Fail? <==> forall i :: i in db.invitations ==> i.id != id
    ensures out.reply.Fail? ==> out == Outcome(db, Fail(InvitationNotFound))
    ensures out.reply.Ok? ==>
      var k := InvitationIndex(db, id).value;
      out.db == db.(invitations := RemoveAt(db.invitations, k))
  {
    match InvitationIndex(db, id)
    case None => Outcome(db, Fail(InvitationNotFound))
    case Some(k) => Outcome(db.(invitations := RemoveAt(db.invitations, k)), Ok(()))
  }

  /** With distinct keys, deletion removes exactly the invitation with that key. */
  lemma DeleteInvitationRemovesExactlyIt(db: Db, id: nat)
    requires Seqs.NoDuplicates(Seqs.Map(InvitationId, db.invitations))
    ensures var r := DeleteInvitation(db, id).db.invitations;
      (forall i :: i in r ==> i.id != id)
      && (forall i :: i in db.invitations && i.id != id ==> i in r)
      && (forall i :: i in r ==> i in db.invitations)
  {
    var out := DeleteInvitation(db, id);
    if out.reply.Ok? {
      var k := InvitationIndex(db, id).value;
      forall m | 0 <= m < |db.invitations| && m != k ensures InvitationId(db.invitations[m]) != InvitationId(db.invitations[k]) {
        DistinctIds(InvitationId, db.invitations, m, k);
      }
      RemoveAtDropsOnlyIt(InvitationId, db.invitations, k);
      RemoveAtKeepsOthers(InvitationId, db.invitations, k);
    }
  }

  /** When no other row shares row k's key, removing row k leaves rows of the table only, none with that key. */
  lemma RemoveAtDropsOnlyIt<T>(key: T -> nat, s: seq<T>, k: nat)
    requires k < |s|
    requires forall m :: 0 <= m < |s| && m != k ==> key(s[m]) != key(s[k])
    ensures forall i :: i in RemoveAt(s, k) ==> key(i) != key(s[k]) && i in s
  {
    var r := RemoveAt(s, k);
    forall i | i in r ensures key(i) != key(s[k]) && i in s {
      var j :| 0 <= j < |r| && r[j] == i;
      var m := if j < k then j else j + 1;
      assert r[j] == s[m];
    }
  }

  /** Two rows of a table with distinct keys have different keys. */
  lemma DistinctIds<T>(key: T -> nat, s: seq<T>, m: nat, k: nat)
    requires m < |s| && k < |s| && m != k && Seqs.NoDuplicates(Seqs.Map(key, s))
    ensures key(s[m]) != key(s[k])
  {
    var ids := Seqs.Map(key, s);
    assert ids[m] == key(s[m]) && ids[k] == key(s[k]);
    if m < k {
      assert ids[m] != ids[k];
    } else {
      assert ids[k] != ids[m];
    }
  }

  /** Removing the row at k keeps every row whose key differs from row k's. */
  lemma RemoveAtKeepsOthers<T>(key: T -> nat, s: seq<T>, k: nat)
    requires k < |s|
    ensures forall i :: i in s && key(i) != key(s[k]) ==> i in RemoveAt(s, k)
  {
    var r := RemoveAt(s, k);
    forall i | i in s && key(i) != key(s[k]) ensures i in r {
      var j :| 0 <= j < |s| && s[j] == i;
      if j < k { assert r[j] == i; } else { assert r[j - 1] == i; }
    }
  }

  /** `POST /admin/invitations/{id}/resend`: a new token and a new 7-day expiry. */
  function ResendInvitation(db: Db, admin: User, id: nat, token: string, now: int): (out: Outcome<InvitationView>)
    ensures InvitationIndex(db, id).None? ==> out == Outcome(db, Fail(InvitationNotFound))
    ensures InvitationIndex(db, id).Some? && db.invitations[InvitationIndex(db, id).value].accepted ==>
      out == Outcome(db, Fail(HttpError(400, "This invitation has already been accepted")))
    ensures out.reply.Ok? ==>
      var k := InvitationIndex(db, id).value;
      var old_ := db.invitations[k];
      var inv := out.reply.value.invitation;
      !old_.accepted
      && inv == old_.(token := token, expiresAt := now + InvitationLifetime)
      && out.db == db.(invitations := db.invitations[k := inv])
      && out.reply.value.invitedByUsername == admin.username
  {
    match InvitationIndex(db, id)
    case None => Outcome(db, Fail(InvitationNotFound))
    case Some(k) =>
      var inv := db.invitations[k];
      if inv.accepted then Outcome(db, Fail(HttpError(400, "This invitation has already been accepted")))
      else
        var renewed := inv.(token := token, expiresAt := now + InvitationLifetime);
        Outcome(db.(invitations := db.invitations[k := renewed]), Ok(InvitationView(renewed, admin.username)))
  }

  /** A resent invitation is redeemable with the new token until the new expiry. */
  lemma ResentInvitationIsRedeemable(db: Db, admin: User, id: nat, token: string, now: int, later: int)
    requires ResendInvitation(db, admin, id, token, now).reply.Ok?
    requires later < now + InvitationLifetime
    ensures Auth.InvitationFor(ResendInvitation(db, admin, id, token, now).db, token, later).Some?
  {
    var k := InvitationIndex(db, id).value;
    var db1 := ResendInvitation(db, admin, id, token, now).db;
    assert Auth.OpenInvitation(db1.invitations[k], token, later);
  }

  const UserNotFound := HttpError(404, "User not found")

  /** The database after deleting user `id`: the ORM cascades remove every row that belongs to the user. */
  function CascadeDelete(db: Db, id: nat): (r: Db)
    ensures forall u :: u in r.users <==> u in db.users && u.id != id
    ensures forall c :: c in r.mfaCodes <==> c in db.mfaCodes && c.userId != id
    ensures forall t :: t in r.tokens <==> t in db.tokens && t.userId != id
    ensures forall h :: h in r.scores <==> h in db.scores && h.userId != id
    ensures forall i :: i in r.invitations <==> i in db.invitations && i.invitedBy != id
    ensures forall p :: p in r.preferences <==> p in db.preferences && p.userId != id
    ensures r.vocabulary == db.vocabulary && r.hints == db.hints && r.tts == db.tts && r.settings == db.settings
  {
    db.(users := Seqs.Filter((u: User) => u.id != id, db.users),
        mfaCodes := Seqs.Filter((c: MfaCode) => c.userId != id, db.mfaCodes),
        tokens := Seqs.Filter((t: VerificationToken) => t.userId != id, db.tokens),
        scores := Seqs.Filter((h: Highscore) => h.userId != id, db.scores),
        invitations := Seqs.Filter((i: Invitation) => i.invitedBy != id, db.invitations),
        preferences := Seqs.Filter((p: Preferences) => p.userId != id, db.preferences))
  }

  /** `DELETE /admin/users/{id}`: unknown users are 404, and an administrator cannot delete themselves. */
  function DeleteUser(db: Db, admin: User, id: nat): (out: Outcome<()>)
    ensures UserById(db.users, id).None? ==> out == Outcome(db, Fail(UserNotFound))
    ensures UserById(db.users, id).Some? && id == admin.id ==>
      out == Outcome(db, Fail(HttpError(400, "You cannot delete your own account")))
    ensures out.reply.Ok? <==> UserById(db.users, id).Some? && id != admin.id
    ensures out.reply.Ok? ==> out.db == CascadeDelete(db, id)
  {
    match UserById(db.users, id)
    case None => Outcome(db, Fail(UserNotFound))
    case Some(u) =>
      if u.id == admin.id then Outcome(db, Fail(HttpError(400, "You cannot delete your own account")))
      else Outcome(CascadeDelete(db, id), Ok(()))
  }

  /**
   * Whatever the request, the acting administrator's account survives, and
   * every other user keeps their account.
   */
  lemma DeleteUserKeepsOthers(db: Db, admin: User, id: nat)
    ensures var r := DeleteUser(db, admin, id).db;
      (forall u :: u in db.users && u.id == admin.id ==> u in r.users)
      && (forall u :: u in db.users && u.id != id ==> u in r.users)
  {
  }

  /** After a deletion nothing refers to the deleted user any more. */
  lemma DeleteUserLeavesNoReferences(db: Db, admin: User, id: nat)
    requires DeleteUser(db, admin, id).reply.Ok?
    ensures var r := DeleteUser(db, admin, id).db;
      (forall u :: u in r.users ==> u.id != id)
      && (forall c :: c in r.mfaCodes ==> c.userId != id)
      && (forall t :: t in r.tokens ==> t.userId != id)
      && (forall h :: h in r.scores ==> h.userId != id)
      && (forall i :: i in r.invitations ==> i.invitedBy != id)
      && (forall p :: p in r.preferences ==> p.userId != id)
  {
  }

  /** `POST /admin/users/{id}/resend-verification`: all earlier links replaced by one new link. */
  function ResendUserVerification(db: Db, id: nat, token: string, now: int): (out: Outcome<User>)
    ensures UserById(db.users, id).None? ==> out == Outcome(db, Fail(UserNotFound))
    ensures UserById(db.users, id).Some? && UserById(db.users, id).value.emailVerified ==>
      out == Outcome(db, Fail(HttpError(400, "User is already verified")))
    ensures out.reply.Ok? ==>
      out.reply.value == UserById(db.users, id).value && !out.reply.value.emailVerified
      && out.db == Auth.ReplaceVerificationToken(db, id, token, now)
  {
    match UserById(db.users, id)
    case None => Outcome(db, Fail(UserNotFound))
    case Some(u) =>
      if u.emailVerified then Outcome(db, Fail(HttpError(400, "User is already verified")))
      else Outcome(Auth.ReplaceVerificationToken(db, u.id, token, now), Ok(u))
  }

  /** After a resend the user holds exactly one link, the new one; other users' links are untouched. */
  lemma ResendUserVerificationLeavesOneLink(db: Db, id: nat, token: string, now: int)
    requires ResendUserVerification(db, id, token, now).reply.Ok?
    ensures var r := ResendUserVerification(db, id, token, now).db;
      Seqs.Count((t: VerificationToken) => t.userId == id, r.tokens) == 1
      && (forall t :: t in r.tokens && t.userId == id ==> t.token == token)
      && (forall t :: t in db.tokens && t.userId != id ==> t in r.tokens)
  {
  }

  /** `GET /admin/cache/stats`. */
  function GetCacheStats(db: Db): (r: CacheStats)
    ensures r.hintCount == |db.hints| && r.ttsCount == |db.tts|
  {
    CacheStats(|db.hints|, |db.tts|)
  }

  /** The vocabulary entry with key `id`. */
  function VocabById(db: Db, id: nat): (r: Option<Vocab>)
    ensures r.Some? ==> r.value in db.vocabulary && r.value.id == id
    ensures r.None? <==> forall v :: v in db.vocabulary ==> v.id != id
  {
    Seqs.Find((v: Vocab) => v.id == id, db.vocabulary)
  }

  /** Whether a cached hint still has its vocabulary entry. */
  predicate HasVocabulary(db: Db, h: HintEntry) {
    VocabById(db, h.vocabularyId).Some?
  }

  /** A cached hint joined with its entry, or with blank columns when the entry is gone. */
  function ViewHint(db: Db, h: HintEntry): (r: HintView)
    ensures r.entry == h
    ensures HasVocabulary(db, h) ==>
      var v := VocabById(db, h.vocabularyId).value;
      r.expression == v.expression && r.reading == v.reading && r.meaning == v.meaning
    ensures !HasVocabulary(db, h) ==> r.expression == "" && r.reading == "" && r.meaning == ""
  {
    match VocabById(db, h.vocabularyId)
    case Some(v) => HintView(h, v.expression, v.reading, v.meaning)
    case None => HintView(h, "", "", "")
  }

  /** `GET /admin/cache/hints`: the cached hints whose entry still exists, joined with it, newest first. */
  function ListHintCache(db: Db): (r: seq<HintView>)
    ensures |r| <= |db.hints|
    ensures forall k :: 0 <= k < |r| ==> r[k].entry in db.hints && HasVocabulary(db, r[k].entry) && r[k] == ViewHint(db, r[k].entry)
    ensures forall h :: h in db.hints && HasVocabulary(db, h) ==> exists k :: 0 <= k < |r| && r[k].entry == h
  {
    var kept := Seqs.Filter(Listed(db), Seqs.Reverse(db.hints));
    Seqs.ReverseKeepsCount(Listed(db), db.hints);
    ViewsCoverKept(db, kept);
    Seqs.Map(ViewOf(db), kept)
  }

  function Listed(db: Db): HintEntry -> bool {
    (h: HintEntry) => HasVocabulary(db, h)
  }

  function ViewOf(db: Db): HintEntry -> HintView {
    (h: HintEntry) => ViewHint(db, h)
  }

  /** The views of a list of hints: one per hint, each for a hint of the list, and every hint viewed. */
  lemma ViewsCoverKept(db: Db, kept: seq<HintEntry>)
    ensures forall k :: 0 <= k < |kept| ==>
      Seqs.Map(ViewOf(db), kept)[k].entry in kept && Seqs.Map(ViewOf(db), kept)[k] == ViewHint(db, kept[k])
    ensures forall h :: h in kept ==> exists k :: 0 <= k < |kept| && Seqs.Map(ViewOf(db), kept)[k].entry == h
  {
    var r := Seqs.Map(ViewOf(db), kept);
    assert forall k :: 0 <= k < |r| ==> r[k] == ViewHint(db, kept[k]) && kept[k] in kept;
    forall h | h in kept ensures exists k :: 0 <= k < |r| && r[k].entry == h {
      var k :| 0 <= k < |kept| && kept[k] == h;
      assert r[k].entry == h;
    }
  }

  /** The listed total is the number of hints that still have an entry. */
  lemma {:induction false} ListHintCacheTotal(db: Db)
    ensures |ListHintCache(db)| == Seqs.Count((h: HintEntry) => HasVocabulary(db, h), db.hints)
  {
    Seqs.FilterLength(Listed(db), Seqs.Reverse(db.hints));
    Seqs.ReverseKeepsCount(Listed(db), db.hints);
  }

  /** The position of the cached hint with key `id`. */
  function HintIndex(db: Db, id: nat): (r: Option<nat>)
    ensures r.Some? ==> r.value < |db.hints| && db.hints[r.value].id == id
    ensures r.None? <==> forall h :: h in db.hints ==> h.id != id
  {
    Seqs.FindIndex((h: HintEntry) => h.id == id, db.hints)
  }

  const HintNotFound := HttpError(404, "Cached hint not found")

  /** `PUT /admin/cache/hints/{id}`: replace the text of one cached hint. */
  function UpdateHintCache(db: Db, id: nat, hint: string): (out: Outcome<HintView>)
    ensures !Schemas.ValidHintUpdate(hint) ==> out == Outcome(db, Fail(Auth.ValidationError))
    ensures Schemas.ValidHintUpdate(hint) && HintIndex(db, id).None? ==> out == Outcome(db, Fail(HintNotFound))
    ensures out.reply.Ok? ==>
      var k := HintIndex(db, id).value;
      out.db == db.(hints := db.hints[k := db.hints[k].(hint := hint)])
      && out.reply.value == ViewHint(db, db.hints[k].(hint := hint))
      && out.reply.value.entry.hint == hint
  {
    if !Schemas.ValidHintUpdate(hint) then Outcome(db, Fail(Auth.ValidationError))
    else match HintIndex(db, id)
      case None => Outcome(db, Fail(HintNotFound))
      case Some(k) =>
        var h := db.hints[k].(hint := hint);
        Outcome(db.(hints := db.hints[k := h]), Ok(ViewHint(db, h)))
  }

  /** `DELETE /admin/cache/hints/{id}`. */
  function DeleteHintCache(db: Db, id: nat): (out: Outcome<()>)
    ensures out.reply.Fail? <==> forall h :: h in db.hints ==> h.id != id
    ensures out.reply.Fail? ==> out == Outcome(db, Fail(HintNotFound))
    ensures out.reply.Ok? ==> out.db == db.(hints := RemoveAt(db.hints, HintIndex(db, id).value))
  {
    match HintIndex(db, id)
    case None => Outcome(db, Fail(HintNotFound))
    case Some(k) => Outcome(db.(hints := RemoveAt(db.hints, k)), Ok(()))
  }

  /**
   * With distinct keys, a replaced hint text is what the hint listing
   * shows for that key; the hint is listed exactly when its entry exists.
   */
  lemma UpdatedHintListed(db: Db, id: nat, hint: string)
    requires Schemas.ValidHintUpdate(hint) && HintIndex(db, id).Some?
    requires Seqs.NoDuplicates(Seqs.Map(HintId, db.hints))
    ensures var h := db.hints[HintIndex(db, id).value];
      var r := ListHintCache(UpdateHintCache(db, id, hint).db);
      (forall k :: 0 <= k < |r| && r[k].entry.id == id ==> r[k].entry == h.(hint := hint))
      && ((exists k :: 0 <= k < |r| && r[k].entry.id == id) <==> HasVocabulary(db, h))
  {
    var i := HintIndex(db, id).value;
    var h := db.hints[i];
    var after := UpdateHintCache(db, id, hint).db;
    var r := ListHintCache(after);
    assert after.hints == db.hints[i := h.(hint := hint)];
    assert after.vocabulary == db.vocabulary;
    assert HasVocabulary(after, h.(hint := hint)) == HasVocabulary(db, h);
    forall k | 0 <= k < |r| && r[k].entry.id == id ensures r[k].entry == h.(hint := hint) {
      var m :| 0 <= m < |after.hints| && after.hints[m] == r[k].entry;
    }
    if HasVocabulary(db, h) {
      assert after.hints[i] == h.(hint := hint);
    }
  }

  /**
   * With distinct keys, a deleted cached hint is gone and every other
   * hint stays; the statistics count one hint fewer.
   */
  lemma DeleteHintCacheRemovesExactlyIt(db: Db, id: nat)
    requires Seqs.NoDuplicates(Seqs.Map(HintId, db.hints))
    requires exists h :: h in db.hints && h.id == id
    ensures var after := DeleteHintCache(db, id).db;
      HintIndex(after, id).None?
      && (forall h :: h in db.hints && h.id != id ==> h in after.hints)
      && (forall h :: h in after.hints ==> h in db.hints)
      && GetCacheStats(after) == CacheStats(|db.hints| - 1, |db.tts|)
  {
    var k := HintIndex(db, id).value;
    forall m | 0 <= m < |db.hints| && m != k ensures HintId(db.hints[m]) != HintId(db.hints[k]) {
      DistinctIds(HintId, db.hints, m, k);
    }
    RemoveAtDropsOnlyIt(HintId, db.hints, k);
    RemoveAtKeepsOthers(HintId, db.hints, k);
  }

  /** `DELETE /admin/cache/hints`: every cached hint, and nothing else, is gone. */
  function ClearHintCache(db: Db): (r: Db)
    ensures |r.hints| == 0 && r == db.(hints := r.hints)
  {
    db.(hints := [])
  }

  /** A TTS entry as listed: the audio is left out of the listing. */
  datatype TtsView = TtsView(id: nat, text: string)

  /** `GET /admin/cache/tts`: id and text of every entry, newest first. */
  function ListTtsCache(db: Db): (r: seq<TtsView>)
    ensures |r| == |db.tts|
    ensures forall k :: 0 <= k < |r| ==> r[k].id == db.tts[|r| - 1 - k].id && r[k].text == db.tts[|r| - 1 - k].text
  {
    Seqs.Map((t: TtsEntry) => TtsView(t.id, t.text), Seqs.Reverse(db.tts))
  }

  /** The position of the TTS entry with key `id`. */
  function TtsIndex(db: Db, id: nat): (r: Option<nat>)
    ensures r.Some? ==> r.value < |db.tts| && db.tts[r.value].id == id
    ensures r.None? <==> forall t :: t in db.tts ==> t.id != id
  {
    Seqs.FindIndex((t: TtsEntry) => t.id == id, db.tts)
  }

  const TtsNotFound := HttpError(404, "Cached TTS not found")

  /** `GET /admin/cache/tts/{id}/audio`: the stored MP3 bytes. */
  function GetTtsAudio(db: Db, id: nat): (r: Reply<seq<bv8>>)
    ensures r.Fail? <==> forall t :: t in db.tts ==> t.id != id
    ensures r.Fail? ==> r.error == TtsNotFound
    ensures r.Ok? ==> exists t :: t in db.tts && t.id == id && t.audio == r.value
  {
    match TtsIndex(db, id)
    case None => Fail(TtsNotFound)
    case Some(k) => Ok(db.tts[k].audio)
  }

  /** `DELETE /admin/cache/tts/{id}`. */
  function DeleteTtsCache(db: Db, id: nat): (out: Outcome<()>)
    ensures out.reply.Fail? <==> forall t :: t in db.tts ==> t.id != id
    ensures out.reply.Fail? ==> out == Outcome(db, Fail(TtsNotFound))
    ensures out.reply.Ok? ==> out.db == db.(tts := RemoveAt(db.tts, TtsIndex(db, id).value))
  {
    match TtsIndex(db, id)
    case None => Outcome(db, Fail(TtsNotFound))
    case Some(k) => Outcome(db.(tts := RemoveAt(db.tts, k)), Ok(()))
  }

  /** With distinct keys, every row of the TTS listing has its audio: that of the entry it lists. */
  lemma ListedTtsHasAudio(db: Db)
    requires Seqs.NoDuplicates(Seqs.Map(TtsId, db.tts))
    ensures var r := ListTtsCache(db);
      forall k :: 0 <= k < |r| ==> GetTtsAudio(db, r[k].id) == Ok(db.tts[|r| - 1 - k].audio)
  {
    var r := ListTtsCache(db);
    forall k | 0 <= k < |r| ensures GetTtsAudio(db, r[k].id) == Ok(db.tts[|r| - 1 - k].audio) {
      TtsFound(db, |r| - 1 - k);
    }
  }

  /** With distinct keys, the audio fetched by an entry's key is that entry's. */
  lemma TtsFound(db: Db, j: nat)
    requires j < |db.tts| && Seqs.NoDuplicates(Seqs.Map(TtsId, db.tts))
    ensures GetTtsAudio(db, db.tts[j].id) == Ok(db.tts[j].audio)
  {
    var i := TtsIndex(db, db.tts[j].id).value;
    if i != j {
      DistinctIds(TtsId, db.tts, i, j);
    }
  }

  /**
   * With distinct keys, a deleted rendering's audio is no longer found,
   * every other rendering stays, and the statistics count one fewer.
   */
  lemma DeleteTtsCacheRemovesExactlyIt(db: Db, id: nat)
    requires Seqs.NoDuplicates(Seqs.Map(TtsId, db.tts))
    requires exists t :: t in db.tts && t.id == id
    ensures var after := DeleteTtsCache(db, id).db;
      GetTtsAudio(after, id) == Fail(TtsNotFound)
      && (forall t :: t in db.tts && t.id != id ==> t in after.tts)
      && (forall t :: t in after.tts ==> t in db.tts)
      && GetCacheStats(after) == CacheStats(|db.hints|, |db.tts| - 1)
  {
    var k := TtsIndex(db, id).value;
    forall m | 0 <= m < |db.tts| && m != k ensures TtsId(db.tts[m]) != TtsId(db.tts[k]) {
      DistinctIds(TtsId, db.tts, m, k);
    }
    RemoveAtDropsOnlyIt(TtsId, db.tts, k);
    RemoveAtKeepsOthers(TtsId, db.tts, k);
  }

  /** `DELETE /admin/cache/tts`: every cached rendering, and nothing else, is gone. */
  function ClearTtsCache(db: Db): (r: Db)
    ensures |r.tts| == 0 && r == db.(tts := r.tts)
  {
    db.(tts := [])
  }

  /** The two clears empty exactly their own cache, as the statistics then report. */
  lemma ClearsEmptyTheirCache(db: Db)
    ensures GetCacheStats(ClearHintCache(db)) == CacheStats(0, |db.tts|)
    ensures GetCacheStats(ClearTtsCache(db)) == CacheStats(|db.hints|, 0)
    ensures ListHintCache(ClearHintCache(db)) == []
  {
  }
}
