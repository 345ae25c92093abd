/**
 * The authentication endpoints: registration with optional invitation,
 * password login with brute-force lockout, the e-mailed one-time code
 * (MFA), and e-mail confirmation.
 */
module Auth {
  import opened Wrappers
  import opened Models
  import Seqs
  import Strings
  import Schemas

  /** Failed attempts (password or code) at which an account locks. */
  const MaxFailedAttempts: nat := 10
  /** How long a lock lasts: 15 minutes. */
  const LockoutSeconds: int := 15 * 60
  /** Lifetime of a one-time login code: the default 10 minutes of the configuration. */
  const MfaCodeLifetime: int := 10 * 60
  /** Lifetime of an e-mail verification link: 24 hours. */
  const VerificationLifetime: int := 24 * 60 * 60

  const CredentialsError := HttpError(401, "Incorrect email or password")
  const ValidationError := HttpError(422, "Validation error")
  const EmailConfirmedMessage := "Email successfully verified. You can now log in."
  const ResendVerificationMessage := "If an account with this email exists, a verification email has been sent."

  /** A successful login: either a code was mailed, or a JWT was issued for the username. */
  datatype LoginReply = MfaRequired(email: string) | Token(username: string)

  /** The non-blank entries of `parts`, stripped and lower-cased, in order. */
  function CleanEntries(parts: seq<string>): (r: seq<string>)
    ensures forall i :: 0 <= i < |r| ==> |r[i]| > 0 && Strings.Lower(r[i]) == r[i]
  {
    if |parts| == 0 then []
    else
      var e := Strings.Strip(parts[0]);
      Strings.LowerIdempotent(e);
      (if |e| > 0 then [Strings.Lower(e)] else []) + CleanEntries(parts[1..])
  }

  /**
   * The administrator list of the configuration (a comma separated string):
   * the non-blank entries, stripped and lower-cased.
   */
  function AdminList(setting: string): (r: seq<string>)
    ensures forall i :: 0 <= i < |r| ==> |r[i]| > 0 && Strings.Lower(r[i]) == r[i]
  {
    CleanEntries(Strings.Split(setting, ','))
  }

  /** Entries that are already clean pass through unchanged. */
  lemma {:induction false} CleanEntriesIdentity(emails: seq<string>)
    requires forall i :: 0 <= i < |emails| ==>
      |emails[i]| > 0 && Strings.Strip(emails[i]) == emails[i] && Strings.Lower(emails[i]) == emails[i]
    ensures CleanEntries(emails) == emails
  {
    if |emails| > 0 {
      CleanEntriesIdentity(emails[1..]);
      var e := Strings.Strip(emails[0]);
      assert e == emails[0] && |e| > 0 && Strings.Lower(e) == emails[0];
      assert CleanEntries(emails) == [emails[0]] + CleanEntries(emails[1..]);
      assert CleanEntries(emails[1..]) == emails[1..];
      assert [emails[0]] + emails[1..] == emails;
    }
  }

  /** An address list written as the configuration expects is read back entry for entry. */
  lemma AdminListOfJoin(emails: seq<string>)
    requires forall i :: 0 <= i < |emails| ==>
      |emails[i]| > 0 && ',' !in emails[i] && Strings.Strip(emails[i]) == emails[i] && Strings.Lower(emails[i]) == emails[i]
    ensures AdminList(Strings.Join(emails, ',')) == emails
  {
    if |emails| == 0 {
      assert Strings.Split("", ',') == [""];
      assert Strings.Strip("") == "";
    } else {
      Strings.SplitJoin(emails, ',');
      CleanEntriesIdentity(emails);
    }
  }

  /** The 423 detail: whole minutes left (`timedelta.seconds // 60`) plus one. */
  function LockedError(remaining: int): (e: HttpError)
    ensures e.status == 423
  {
    var minutes := (remaining % 86400) / 60 + 1;
    HttpError(423, "Account temporarily locked. Try again in " + Strings.NatToString(minutes) + " minutes.")
  }

  /** A failed password or code: one more failure, and a fresh lock from the tenth on. */
  function RecordFailure(u: User, now: int): (r: User)
    ensures r.failedAttempts == u.failedAttempts + 1
    ensures r.failedAttempts >= MaxFailedAttempts ==> r.lockedUntil == Some(now + LockoutSeconds)
    ensures r.failedAttempts < MaxFailedAttempts ==> r.lockedUntil == u.lockedUntil
    ensures r.(failedAttempts := u.failedAttempts, lockedUntil := u.lockedUntil) == u
  {
    var count := u.failedAttempts + 1;
    if count >= MaxFailedAttempts then u.(failedAttempts := count, lockedUntil := Some(now + LockoutSeconds))
    else u.(failedAttempts := count)
  }

  /** A verification link for `userId`, valid for 24 hours; earlier links of the user are kept. */
  function AddVerificationToken(db: Db, userId: nat, token: string, now: int): (r: Db)
    ensures |r.tokens| == |db.tokens| + 1 && r.tokens[..|db.tokens|] == db.tokens
    ensures var t := r.tokens[|db.tokens|];
      t.userId == userId && t.token == token && t.expiresAt == now + VerificationLifetime
      && forall o :: o in db.tokens ==> o.id != t.id
    ensures r == db.(tokens := r.tokens)
  {
    var id := FreshId(Seqs.Map(TokenId, db.tokens));
    assert forall o :: o in db.tokens ==> o.id != id by {
      forall o | o in db.tokens ensures o.id != id {
        var k :| 0 <= k < |db.tokens| && db.tokens[k] == o;
        assert Seqs.Map(TokenId, db.tokens)[k] == o.id;
      }
    }
    db.(tokens := db.tokens + [VerificationToken(id, userId, token, now + VerificationLifetime)])
  }

  /** The user's earlier links deleted and a new one added. */
  function ReplaceVerificationToken(db: Db, userId: nat, token: string, now: int): (r: Db)
    ensures forall t :: t in r.tokens && t.userId == userId ==> t.token == token && t.expiresAt == now + VerificationLifetime
    ensures Seqs.Count((t: VerificationToken) => t.userId == userId, r.tokens) == 1
    ensures forall t :: t in db.tokens && t.userId != userId ==> t in r.tokens
    ensures forall t :: t in r.tokens && t.userId != userId ==> t in db.tokens
    ensures r == db.(tokens := r.tokens)
  {
    var kept := Seqs.Filter((t: VerificationToken) => t.userId != userId, db.tokens);
    var r := AddVerificationToken(db.(tokens := kept), userId, token, now);
    assert r.tokens == kept + [r.tokens[|kept|]];
    forall i | 0 <= i < |kept| ensures kept[i].userId != userId {
      assert kept[i] in kept;
    }
    assert Seqs.Count((t: VerificationToken) => t.userId == userId, kept) == 0;
    assert Seqs.Count((t: VerificationToken) => t.userId == userId, [r.tokens[|kept|]]) == 1;
    Seqs.CountAppend((t: VerificationToken) => t.userId == userId, kept, [r.tokens[|kept|]]);
    r
  }

  /** The user's earlier codes deleted and a new one, valid for 10 minutes, added. */
  function IssueCode(db: Db, userId: nat, code: string, now: int): (r: Db)
    ensures forall c :: c in r.mfaCodes && c.userId == userId ==> c.code == code && c.expiresAt == now + MfaCodeLifetime
    ensures Seqs.Count((c: MfaCode) => c.userId == userId, r.mfaCodes) == 1
    ensures forall c :: c in db.mfaCodes && c.userId != userId ==> c in r.mfaCodes
    ensures forall c :: c in r.mfaCodes && c.userId != userId ==> c in db.mfaCodes
    ensures r == db.(mfaCodes := r.mfaCodes)
  {
    var kept := Seqs.Filter(OtherUser(userId), db.mfaCodes);
    var id := FreshId(Seqs.Map(CodeId, kept));
    var codes := kept + [MfaCode(id, userId, code, now + MfaCodeLifetime)];
    forall i | 0 <= i < |kept| ensures kept[i].userId != userId {
      assert kept[i] in kept;
    }
    assert Seqs.Count((c: MfaCode) => c.userId == userId, kept) == 0;
    assert Seqs.Count((c: MfaCode) => c.userId == userId, [MfaCode(id, userId, code, now + MfaCodeLifetime)]) == 1;
    Seqs.CountAppend((c: MfaCode) => c.userId == userId, kept, [MfaCode(id, userId, code, now + MfaCodeLifetime)]);
    db.(mfaCodes := codes)
  }

  /** A live invitation for `token`: not yet accepted and expiring strictly after `now`. */
  predicate OpenInvitation(i: Invitation, token: string, now: int) {
    i.token == token && !i.accepted && i.expiresAt > now
  }

  /** The invitation a registration redeems: the first open one for `token`. */
  function InvitationFor(db: Db, token: string, now: int): (r: Option<nat>)
    ensures r.Some? ==> r.value < |db.invitations| && OpenInvitation(db.invitations[r.value], token, now)
    ensures r.None? <==> forall i :: i in db.invitations ==> !OpenInvitation(i, token, now)
  {
    Seqs.FindIndex((i: Invitation) => OpenInvitation(i, token, now), db.invitations)
  }

  /** The reasons `POST /auth/register` refuses, checked in the endpoint's order. */
  function RegistrationError(db: Db, data: Schemas.UserCreate, now: int): (e: Option<HttpError>)
    ensures e.None? <==>
      Schemas.ValidUserCreate(data) && |data.website| == 0
      && (forall u :: u in db.users ==> u.username != data.username && u.email != data.email)
      && (|data.invitationToken| > 0 ==>
            InvitationFor(db, data.invitationToken, now).Some?
            && Strings.Lower(db.invitations[InvitationFor(db, data.invitationToken, now).value].email) == Strings.Lower(data.email))
    ensures Schemas.ValidUserCreate(data) && |data.website| > 0 ==> e == Some(HttpError(404, "Not found"))
  {
    if !Schemas.ValidUserCreate(data) then Some(ValidationError)
    else if |data.website| > 0 then Some(HttpError(404, "Not found"))
    else if exists u :: u in db.users && u.username == data.username then Some(HttpError(400, "Username already registered"))
    else if UserByEmail(db.users, data.email).Some? then Some(HttpError(400, "Email already registered"))
    else if |data.invitationToken| == 0 then None
    else match InvitationFor(db, data.invitationToken, now)
      case None => Some(HttpError(400, "Invalid or expired invitation"))
      case Some(k) =>
        if Strings.Lower(db.invitations[k].email) != Strings.Lower(data.email) then
          Some(HttpError(400, "Email does not match invitation"))
        else None
  }

  /** The writes of a successful registration: the account, the redeemed invitation, the link. */
  function CreateAccount(db: Db, data: Schemas.UserCreate, now: int, isAdmin: bool, hash: string -> string, token: string): (r: Db)
    requires RegistrationError(db, data, now).None?
    ensures |r.users| == |db.users| + 1 && r.users[..|db.users|] == db.users
    ensures var u := r.users[|db.users|];
      u.username == data.username && u.email == data.email && u.passwordHash == hash(data.password)
      && !u.emailVerified && u.mfaEnabled && u.isAdmin == isAdmin && u.failedAttempts == 0 && u.lockedUntil.None?
      && (forall o :: o in db.users ==> o.id != u.id)
      && (exists t :: t in r.tokens && t.userId == u.id && t.token == token && t.expiresAt == now + VerificationLifetime)
    ensures |r.tokens| == |db.tokens| + 1 && r.tokens[..|db.tokens|] == db.tokens
    ensures var t := r.tokens[|db.tokens|];
      t.userId == r.users[|db.users|].id && t.token == token && t.expiresAt == now + VerificationLifetime
    ensures |data.invitationToken| > 0 ==>
      var k := InvitationFor(db, data.invitationToken, now).value;
      r.invitations == db.invitations[k := db.invitations[k].(accepted := true, acceptedAt := Some(now))]
    ensures |data.invitationToken| == 0 ==> r.invitations == db.invitations
  {
    var user := NewUser(FreshUserId(db), data.username, data.email, hash(data.password), isAdmin);
    var invitations :=
      if |data.invitationToken| > 0 then
        var k := InvitationFor(db, data.invitationToken, now).value;
        db.invitations[k := db.invitations[k].(accepted := true, acceptedAt := Some(now))]
      else db.invitations;
    var db1 := db.(users := db.users + [user], invitations := invitations);
    var r := AddVerificationToken(db1, user.id, token, now);
    assert r.tokens[|db1.tokens|] in r.tokens;
    r
  }

  /** `POST /auth/register`. On success the answer is the registered e-mail address. */
  function Register(db: Db, data: Schemas.UserCreate, now: int, adminEmails: string, hash: string -> string, token: string): (out: Outcome<string>)
    ensures out.reply.Fail? <==> RegistrationError(db, data, now).Some?
    ensures out.reply.Fail? ==> out.db == db && out.reply.error == RegistrationError(db, data, now).value
    ensures out.reply.Ok? ==>
      out.db == CreateAccount(db, data, now, Strings.Lower(data.email) in AdminList(adminEmails), hash, token)
  {
    match RegistrationError(db, data, now)
    case Some(e) => Outcome(db, Fail(e))
    case None =>
      var isAdmin := Strings.Lower(data.email) in AdminList(adminEmails);
      Outcome(CreateAccount(db, data, now, isAdmin, hash, token), Ok(data.email))
  }

  /**
   * The endpoint applies the username validator as written: a name ending
   * in a dot behind a final line feed is registered, line feed included.
   */
  lemma NewlineUsernameRegisters(db: Db, data: Schemas.UserCreate, now: int, adminEmails: string, hash: string -> string, token: string)
    requires data.username == "abc.\n" && Schemas.ValidPassword(data.password)
    requires |data.website| == 0 && |data.invitationToken| == 0
    requires forall u :: u in db.users ==> u.username != data.username && u.email != data.email
    ensures var out := Register(db, data, now, adminEmails, hash, token);
      out.reply == Ok(data.email) && out.db.users[|db.users|].username == "abc.\n"
      && !Schemas.ValidUsername(out.db.users[|db.users|].username)
  {
    Schemas.UsernameNewlineSlipsThrough();
  }

  /** An invitation whose expiry is `now` itself can no longer be redeemed. */
  lemma InvitationExpiresAtItsInstant(db: Db, data: Schemas.UserCreate, now: int, adminEmails: string, hash: string -> string, token: string)
    requires |data.invitationToken| > 0
    requires forall i :: i in db.invitations && i.token == data.invitationToken ==> i.expiresAt <= now
    ensures Register(db, data, now, adminEmails, hash, token).reply.Fail?
  {
  }

  /** Registration keeps user keys, usernames and e-mail addresses unique. */
  lemma RegisterKeepsAccountsUnique(db: Db, data: Schemas.UserCreate, now: int, adminEmails: string, hash: string -> string, token: string)
    requires UniqueAccounts(db.users)
    ensures UniqueAccounts(Register(db, data, now, adminEmails, hash, token).db.users)
  {
    var out := Register(db, data, now, adminEmails, hash, token);
    if out.reply.Ok? {
      var n := |db.users|;
      var u := out.db.users[n];
      assert out.db.users == db.users + [u] by {
        assert out.db.users == out.db.users[..n] + [u];
      }
      AppendKeepsAccountsUnique(db.users, u);
    }
  }

  lemma AppendKeepsAccountsUnique(users: seq<User>, u: User)
    requires UniqueAccounts(users)
    requires forall o :: o in users ==> o.id != u.id && o.username != u.username && o.email != u.email
    ensures UniqueAccounts(users + [u])
  {
    var all := users + [u];
    forall i, j | 0 <= i < j < |all|
      ensures all[i].id != all[j].id && all[i].username != all[j].username && all[i].email != all[j].email
    {
      assert all[i] == users[i];
      if j == |users| {
        assert users[i] in users;
      } else {
        assert all[j] == users[j];
      }
    }
  }

  /** `POST /auth/login`. `matches` is bcrypt's check of a password against a stored hash. */
  function Login(db: Db, email: string, password: string, website: string, now: int,
                 matches: (string, string) -> bool, code: string): (out: Outcome<LoginReply>)
    ensures |website| > 0 ==> out == Outcome(db, Fail(HttpError(404, "Not found")))
    ensures UserByEmail(db.users, email).None? && |website| == 0 ==> out == Outcome(db, Fail(CredentialsError))
    ensures out.reply.Ok? ==>
      var u := UserByEmail(db.users, email).value;
      matches(password, u.passwordHash) && u.emailVerified && !IsLocked(u, now)
      && out.db.users == ReplaceUser(db.users, ResetFailedAttempts(u))
      && (out.reply.value == MfaRequired(u.email) <==> u.mfaEnabled)
    ensures |website| == 0 && UserByEmail(db.users, email).Some? ==>
      var u := UserByEmail(db.users, email).value;
      !IsLocked(u, now) && matches(password, u.passwordHash) && !u.emailVerified ==>
        out == Outcome(db, Fail(CredentialsError))
    ensures |website| == 0 && UserByEmail(db.users, email).Some? ==>
      var u := UserByEmail(db.users, email).value;
      var db1 := db.(users := ReplaceUser(db.users, ResetFailedAttempts(u)));
      !IsLocked(u, now) && matches(password, u.passwordHash) && u.emailVerified ==>
        out == if u.mfaEnabled then Outcome(IssueCode(db1, u.id, code, now), Ok(MfaRequired(u.email)))
               else Outcome(db1, Ok(Token(u.username)))
  {
    if |website| > 0 then Outcome(db, Fail(HttpError(404, "Not found")))
    else match UserByEmail(db.users, email)
      case None => Outcome(db, Fail(CredentialsError))
      case Some(u) =>
        if IsLocked(u, now) then Outcome(db, Fail(LockedError(u.lockedUntil.value - now)))
        else if !matches(password, u.passwordHash) then
          Outcome(db.(users := ReplaceUser(db.users, RecordFailure(u, now))), Fail(CredentialsError))
        else if !u.emailVerified then Outcome(db, Fail(CredentialsError))
        else
          var db1 := db.(users := ReplaceUser(db.users, ResetFailedAttempts(u)));
          if u.mfaEnabled then Outcome(IssueCode(db1, u.id, code, now), Ok(MfaRequired(u.email)))
          else Outcome(db1, Ok(Token(u.username)))
  }

  /** A locked account is refused with 423 and nothing is written, not even the failure count. */
  lemma LoginWhileLockedChangesNothing(db: Db, email: string, password: string, now: int,
                                       matches: (string, string) -> bool, code: string)
    requires UserByEmail(db.users, email).Some? && IsLocked(UserByEmail(db.users, email).value, now)
    ensures Login(db, email, password, "", now, matches, code).db == db
    ensures Login(db, email, password, "", now, matches, code).reply.Status() == 423
  {
  }

  /** A wrong password is refused with 401 and recorded against the account, locked or not. */
  lemma WrongPasswordIsRecorded(db: Db, email: string, password: string, now: int,
                                matches: (string, string) -> bool, code: string)
    requires UserByEmail(db.users, email).Some?
    requires var u := UserByEmail(db.users, email).value; !IsLocked(u, now) && !matches(password, u.passwordHash)
    ensures var u := UserByEmail(db.users, email).value;
      var out := Login(db, email, password, "", now, matches, code);
      out.reply == Fail(CredentialsError) && out.db == db.(users := ReplaceUser(db.users, RecordFailure(u, now)))
  {
  }

  /** Replacing a user by a version with the same key and e-mail leaves the lookup pointing at it. */
  lemma ReplaceUserKeepsLookup(users: seq<User>, u: User, v: User)
    requires UniqueAccounts(users)
    requires UserByEmail(users, u.email) == Some(u)
    requires v.id == u.id && v.email == u.email && v.username == u.username
    ensures UserByEmail(ReplaceUser(users, v), u.email) == Some(v)
    ensures UniqueAccounts(ReplaceUser(users, v))
  {
    var k :| 0 <= k < |users| && users[k] == u;
    var r := ReplaceUser(users, v);
    assert r[k] == v;
    forall j | 0 <= j < |r| && j != k ensures r[j].email != u.email {
      assert users[j].id != u.id && users[j].email != u.email;
    }
    Seqs.OnlyMatchFound((x: User) => x.email == u.email, r, k);
    ReplaceUserKeepsUnique(users, u, v, k);
  }

  lemma ReplaceUserKeepsUnique(users: seq<User>, u: User, v: User, k: nat)
    requires UniqueAccounts(users) && k < |users| && users[k] == u
    requires v.id == u.id && v.email == u.email && v.username == u.username
    ensures UniqueAccounts(ReplaceUser(users, v))
  {
    var r := ReplaceUser(users, v);
    assert forall j :: 0 <= j < |users| ==> r[j].id == users[j].id && r[j].email == users[j].email && r[j].username == users[j].username;
  }

  /** The account after one recorded failure per instant in `times` (each a wrong password or code). */
  function Failures(u: User, times: seq<int>): User
    decreases |times|
  {
    if |times| == 0 then u else Failures(RecordFailure(u, times[0]), times[1..])
  }

  /**
   * Brute-force protection: from an account without a lock, failures below
   * the tenth leave it open, and the tenth locks it for fifteen minutes from
   * that attempt. Each wrong password is one recorded failure
   * (`WrongPasswordIsRecorded`).
   */
  lemma {:induction false} FailuresCountUntilLock(u: User, times: seq<int>)
    requires u.lockedUntil.None? && u.failedAttempts + |times| <= MaxFailedAttempts
    ensures var v := Failures(u, times);
      v.failedAttempts == u.failedAttempts + |times|
      && (v.failedAttempts < MaxFailedAttempts ==> v.lockedUntil.None?)
      && (|times| > 0 && v.failedAttempts == MaxFailedAttempts ==>
            v.lockedUntil == Some(times[|times| - 1] + LockoutSeconds))
      && v.(failedAttempts := u.failedAttempts, lockedUntil := u.lockedUntil) == u
    decreases |times|
  {
    if |times| > 0 {
      var next := RecordFailure(u, times[0]);
      if |times| == 1 {
        assert Failures(next, times[1..]) == next;
      } else {
        FailuresCountUntilLock(next, times[1..]);
        assert times[1..][|times[1..]| - 1] == times[|times| - 1];
      }
    }
  }

  /** Ten wrong passwords in a row lock a clean account. */
  lemma TenthFailureLocks(u: User, times: seq<int>)
    requires u.lockedUntil.None? && u.failedAttempts == 0 && |times| == MaxFailedAttempts
    ensures IsLocked(Failures(u, times), times[9])
    ensures forall k :: 0 <= k < 9 ==> !IsLocked(Failures(u, times[..k + 1]), times[k])
  {
    FailuresCountUntilLock(u, times);
    forall k | 0 <= k < 9 ensures !IsLocked(Failures(u, times[..k + 1]), times[k]) {
      FailuresCountUntilLock(u, times[..k + 1]);
    }
  }

  /** The counter is not cleared when a lock runs out: the next wrong password locks again. */
  lemma LockRenewsAfterExpiry(u: User, now: int)
    requires u.failedAttempts >= MaxFailedAttempts && !IsLocked(u, now)
    ensures IsLocked(RecordFailure(u, now), now)
  {
  }

  /** The codes of `userId` that are still valid at `now`. */
  predicate ValidCodeFor(c: MfaCode, userId: nat, code: string, now: int) {
    c.userId == userId && c.code == code && c.expiresAt > now
  }

  /** `POST /auth/verify-mfa`. */
  function VerifyMfa(db: Db, email: string, code: string, now: int): (out: Outcome<LoginReply>)
    ensures !Schemas.ValidMfaCode(code) ==> out == Outcome(db, Fail(ValidationError))
    ensures out.reply.Ok? ==>
      UserByEmail(db.users, email).Some? &&
      var u := UserByEmail(db.users, email).value;
      !IsLocked(u, now)
      && (exists k :: 0 <= k < |db.mfaCodes| && ValidCodeFor(db.mfaCodes[k], u.id, code, now)
           && out.db.mfaCodes == db.mfaCodes[..k] + db.mfaCodes[k + 1..])
      && out.db.users == ReplaceUser(db.users, ResetFailedAttempts(u.(emailVerified := true)))
      && out.reply.value == Token(u.username)
    ensures out.reply.Fail? && out.reply.error.status == 400 && UserByEmail(db.users, email).Some? ==>
      var u := UserByEmail(db.users, email).value;
      out.db.users == ReplaceUser(db.users, RecordFailure(u, now)) && out.db.mfaCodes == db.mfaCodes
    ensures Schemas.ValidMfaCode(code) && UserByEmail(db.users, email).None? ==>
      out == Outcome(db, Fail(HttpError(400, "Invalid verification code")))
    ensures Schemas.ValidMfaCode(code) && UserByEmail(db.users, email).Some? ==>
      var u := UserByEmail(db.users, email).value;
      !IsLocked(u, now) && (exists c :: c in db.mfaCodes && ValidCodeFor(c, u.id, code, now)) ==>
        out.reply == Ok(Token(u.username))
  {
    if !Schemas.ValidMfaCode(code) then Outcome(db, Fail(ValidationError))
    else match UserByEmail(db.users, email)
      case None => Outcome(db, Fail(HttpError(400, "Invalid verification code")))
      case Some(u) =>
        if IsLocked(u, now) then Outcome(db, Fail(LockedError(u.lockedUntil.value - now)))
        else match Seqs.FindIndex((c: MfaCode) => ValidCodeFor(c, u.id, code, now), db.mfaCodes)
          case None =>
            Outcome(db.(users := ReplaceUser(db.users, RecordFailure(u, now))),
                    Fail(HttpError(400, "Invalid or expired verification code")))
          case Some(k) =>
            var codes := db.mfaCodes[..k] + db.mfaCodes[k + 1..];
            var v := ResetFailedAttempts(u.(emailVerified := true));
            Outcome(db.(mfaCodes := codes, users := ReplaceUser(db.users, v)), Ok(Token(u.username)))
  }

  /** A code whose expiry is `now` itself is no longer accepted. */
  lemma CodeExpiresAtItsInstant(db: Db, email: string, code: string, now: int)
    requires forall c :: c in db.mfaCodes ==> c.expiresAt <= now
    ensures VerifyMfa(db, email, code, now).reply.Fail?
  {
  }

  /** Each user holds at most one login code. */
  predicate OneCodePerUser(codes: seq<MfaCode>) {
    forall i, j :: 0 <= i < j < |codes| ==> codes[i].userId != codes[j].userId
  }

  /** Without a live matching code for the account, verification is refused. */
  lemma VerifyNeedsLiveCode(db: Db, email: string, code: string, now: int)
    requires UserByEmail(db.users, email).Some?
    requires forall c :: c in db.mfaCodes ==> !ValidCodeFor(c, UserByEmail(db.users, email).value.id, code, now)
    ensures VerifyMfa(db, email, code, now).reply.Fail?
  {
  }

  /** With one code per user, a successful verification leaves the account without codes. */
  lemma {:induction false} SuccessConsumesCode(db: Db, email: string, code: string, now: int)
    requires OneCodePerUser(db.mfaCodes)
    requires VerifyMfa(db, email, code, now).reply.Ok?
    ensures forall c :: c in VerifyMfa(db, email, code, now).db.mfaCodes ==> c.userId != UserByEmail(db.users, email).value.id
  {
    var out := VerifyMfa(db, email, code, now);
    var u := UserByEmail(db.users, email).value;
    var k :| 0 <= k < |db.mfaCodes| && ValidCodeFor(db.mfaCodes[k], u.id, code, now)
      && out.db.mfaCodes == db.mfaCodes[..k] + db.mfaCodes[k + 1..];
    RemoveLeavesNoCodeOf(db.mfaCodes, k);
  }

  lemma {:induction false} RemoveLeavesNoCodeOf(codes: seq<MfaCode>, k: nat)
    requires k < |codes| && OneCodePerUser(codes)
    ensures forall c :: c in codes[..k] + codes[k + 1..] ==> c.userId != codes[k].userId
  {
    var r := codes[..k] + codes[k + 1..];
    forall c | c in r ensures c.userId != codes[k].userId {
      var j :| 0 <= j < |r| && r[j] == c;
      if j < k {
        assert c == codes[j];
      } else {
        assert c == codes[j + 1];
      }
    }
  }

  /** A code works once: after a successful verification the same code is refused. */
  lemma CodeIsSingleUse(db: Db, email: string, code: string, now: int, later: int)
    requires UniqueAccounts(db.users) && OneCodePerUser(db.mfaCodes)
    requires VerifyMfa(db, email, code, now).reply.Ok?
    ensures VerifyMfa(VerifyMfa(db, email, code, now).db, email, code, later).reply.Fail?
  {
    var out := VerifyMfa(db, email, code, now);
    var u := UserByEmail(db.users, email).value;
    var v := ResetFailedAttempts(u.(emailVerified := true));
    ReplaceUserKeepsLookup(db.users, u, v);
    SuccessConsumesCode(db, email, code, now);
    assert UserByEmail(out.db.users, email) == Some(v);
    VerifyNeedsLiveCode(out.db, email, code, later);
  }

  /** `POST /auth/resend-mfa`: unknown addresses get the same success answer and nothing changes. */
  function ResendMfa(db: Db, email: string, now: int, code: string): (out: Outcome<string>)
    ensures out.reply.Ok?
    ensures UserByEmail(db.users, email).None? ==> out.db == db
    ensures UserByEmail(db.users, email).Some? ==>
      var u := UserByEmail(db.users, email).value;
      out.db == IssueCode(db, u.id, code, now)
  {
    match UserByEmail(db.users, email)
    case None => Outcome(db, Ok("If the email exists, a new code has been sent"))
    case Some(u) => Outcome(IssueCode(db, u.id, code, now), Ok("Verification code sent to your email"))
  }

  lemma IssueCodeKeepsOnePerUser(db: Db, userId: nat, code: string, now: int)
    requires OneCodePerUser(db.mfaCodes)
    ensures OneCodePerUser(IssueCode(db, userId, code, now).mfaCodes)
  {
    var kept := Seqs.Filter(OtherUser(userId), db.mfaCodes);
    OneCodeMeansDistinctUsers(db.mfaCodes);
    Seqs.FilterKeepsDistinctKeys(CodeUser, OtherUser(userId), db.mfaCodes);
    OneCodeMeansDistinctUsers(kept);
    var r := IssueCode(db, userId, code, now).mfaCodes;
    assert r == kept + [r[|r| - 1]] && r[|r| - 1].userId == userId;
    forall i, j | 0 <= i < j < |r| ensures r[i].userId != r[j].userId {
      if j == |r| - 1 {
        assert r[i] in kept;
      } else {
        assert r[i] == kept[i] && r[j] == kept[j];
      }
    }
  }

  function CodeUser(c: MfaCode): nat { c.userId }

  function OtherUser(userId: nat): MfaCode -> bool {
    (c: MfaCode) => c.userId != userId
  }

  lemma OneCodeMeansDistinctUsers(codes: seq<MfaCode>)
    ensures OneCodePerUser(codes) <==> Seqs.NoDuplicates(Seqs.Map(CodeUser, codes))
  {
    assert forall i :: 0 <= i < |codes| ==> Seqs.Map(CodeUser, codes)[i] == codes[i].userId;
  }

  /** Logging in keeps at most one code per user. */
  lemma LoginKeepsOneCodePerUser(db: Db, email: string, password: string, now: int,
                                 matches: (string, string) -> bool, code: string)
    requires OneCodePerUser(db.mfaCodes)
    ensures OneCodePerUser(Login(db, email, password, "", now, matches, code).db.mfaCodes)
  {
    var out := Login(db, email, password, "", now, matches, code);
    if out.db.mfaCodes != db.mfaCodes {
      var u := UserByEmail(db.users, email).value;
      var db1 := db.(users := ReplaceUser(db.users, ResetFailedAttempts(u)));
      assert out.db == IssueCode(db1, u.id, code, now);
      IssueCodeKeepsOnePerUser(db1, u.id, code, now);
    }
  }

  /** Resending keeps at most one code per user. */
  lemma ResendKeepsOneCodePerUser(db: Db, email: string, now: int, code: string)
    requires OneCodePerUser(db.mfaCodes)
    ensures OneCodePerUser(ResendMfa(db, email, now, code).db.mfaCodes)
  {
    if UserByEmail(db.users, email).Some? {
      IssueCodeKeepsOnePerUser(db, UserByEmail(db.users, email).value.id, code, now);
    }
  }

  /** Verifying keeps at most one code per user. */
  lemma VerifyKeepsOneCodePerUser(db: Db, email: string, code: string, now: int)
    requires OneCodePerUser(db.mfaCodes)
    ensures OneCodePerUser(VerifyMfa(db, email, code, now).db.mfaCodes)
  {
    var out := VerifyMfa(db, email, code, now);
    if out.reply.Ok? {
      var u := UserByEmail(db.users, email).value;
      var k :| 0 <= k < |db.mfaCodes| && ValidCodeFor(db.mfaCodes[k], u.id, code, now)
        && out.db.mfaCodes == db.mfaCodes[..k] + db.mfaCodes[k + 1..];
      RemoveKeepsOnePerUser(db.mfaCodes, k);
    }
  }

  lemma RemoveKeepsOnePerUser(codes: seq<MfaCode>, k: nat)
    requires k < |codes| && OneCodePerUser(codes)
    ensures OneCodePerUser(codes[..k] + codes[k + 1..])
  {
    var r := codes[..k] + codes[k + 1..];
    forall i, j | 0 <= i < j < |r| ensures r[i].userId != r[j].userId {
      var i' := if i < k then i else i + 1;
      var j' := if j < k then j else j + 1;
      assert r[i] == codes[i'] && r[j] == codes[j'];
    }
  }

  /** `POST /auth/confirm-email`: a live link verifies its user's address and is used up. */
  function ConfirmEmail(db: Db, token: string, now: int): (out: Outcome<string>)
    ensures out.reply.Fail? ==> out.db == db
    ensures out.reply.Ok? ==>
      exists k :: 0 <= k < |db.tokens| && db.tokens[k].token == token && db.tokens[k].expiresAt > now
        && out.db.tokens == db.tokens[..k] + db.tokens[k + 1..]
        && UserById(db.users, db.tokens[k].userId).Some?
        && out.db.users == ReplaceUser(db.users, UserById(db.users, db.tokens[k].userId).value.(emailVerified := true))
    ensures (forall t :: t in db.tokens && t.token == token ==> t.expiresAt <= now) ==>
      out.reply == Fail(HttpError(400, "Invalid or expired verification link"))
    ensures ((exists t :: t in db.tokens && t.token == token && t.expiresAt > now)
             && forall t :: t in db.tokens && t.token == token && t.expiresAt > now ==> UserById(db.users, t.userId).Some?)
      ==> out.reply == Ok(EmailConfirmedMessage)
  {
    match Seqs.FindIndex((t: VerificationToken) => t.token == token && t.expiresAt > now, db.tokens)
    case None => Outcome(db, Fail(HttpError(400, "Invalid or expired verification link")))
    case Some(k) =>
      match UserById(db.users, db.tokens[k].userId)
      case None => Outcome(db, Fail(HttpError(400, "User not found")))
      case Some(u) =>
        Outcome(db.(users := ReplaceUser(db.users, u.(emailVerified := true)),
                    tokens := db.tokens[..k] + db.tokens[k + 1..]),
                Ok(EmailConfirmedMessage))
  }

  /** `POST /auth/resend-verification`: the same answer whatever the account's state. */
  function ResendVerification(db: Db, email: string, now: int, token: string): (out: Outcome<string>)
    ensures out.reply == Ok(ResendVerificationMessage)
    ensures UserByEmail(db.users, email).None? || UserByEmail(db.users, email).value.emailVerified ==> out.db == db
    ensures UserByEmail(db.users, email).Some? && !UserByEmail(db.users, email).value.emailVerified ==>
      out.db == ReplaceVerificationToken(db, UserByEmail(db.users, email).value.id, token, now)
  {
    match UserByEmail(db.users, email)
    case None => Outcome(db, Ok(ResendVerificationMessage))
    case Some(u) =>
      if u.emailVerified then Outcome(db, Ok(ResendVerificationMessage))
      else Outcome(ReplaceVerificationToken(db, u.id, token, now), Ok(ResendVerificationMessage))
  }

  /** The only live link carrying `token` confirms its user and is used up. */
  lemma OnlyLinkConfirms(db: Db, k: nat, token: string, later: int, u: User)
    requires k < |db.tokens| && db.tokens[k].token == token && db.tokens[k].expiresAt > later
    requires forall i :: 0 <= i < |db.tokens| && i != k ==> db.tokens[i].token != token
    requires UserById(db.users, db.tokens[k].userId) == Some(u)
    ensures ConfirmEmail(db, token, later)
      == Outcome(db.(users := ReplaceUser(db.users, u.(emailVerified := true)), tokens := db.tokens[..k] + db.tokens[k + 1..]),
                 Ok(EmailConfirmedMessage))
  {
    Seqs.OnlyMatchFound((t: VerificationToken) => t.token == token && t.expiresAt > later, db.tokens, k);
  }

  /** A user whose key no other row shares is what the key lookup finds. */
  lemma OnlyIdFound(users: seq<User>, k: nat)
    requires k < |users|
    requires forall i :: 0 <= i < |users| && i != k ==> users[i].id != users[k].id
    ensures UserById(users, users[k].id) == Some(users[k])
  {
    Seqs.OnlyMatchFound((x: User) => x.id == users[k].id, users, k);
  }

  /**
   * The link mailed at registration confirms the new account until it
   * expires, provided no stored link already carries the same token.
   */
  lemma {:induction false} RegisteredLinkConfirms(db: Db, data: Schemas.UserCreate, now: int, adminEmails: string,
                                                  hash: string -> string, token: string, later: int)
    requires Register(db, data, now, adminEmails, hash, token).reply.Ok?
    requires forall t :: t in db.tokens ==> t.token != token
    requires later < now + VerificationLifetime
    ensures var db1 := Register(db, data, now, adminEmails, hash, token).db;
      var out := ConfirmEmail(db1, token, later);
      out.reply == Ok(EmailConfirmedMessage)
      && out.db.users == ReplaceUser(db1.users, db1.users[|db.users|].(emailVerified := true))
  {
    var db1 := Register(db, data, now, adminEmails, hash, token).db;
    var n := |db.tokens|;
    var u := db1.users[|db.users|];
    forall i | 0 <= i < |db1.tokens| && i != n ensures db1.tokens[i].token != token {
      assert db1.tokens[i] == db.tokens[i] && db.tokens[i] in db.tokens;
    }
    forall i | 0 <= i < |db1.users| && i != |db.users| ensures db1.users[i].id != u.id {
      assert db1.users[i] == db.users[i] && db.users[i] in db.users;
    }
    OnlyIdFound(db1.users, |db.users|);
    OnlyLinkConfirms(db1, n, token, later, u);
  }

  /**
   * Register, then confirm with the mailed link: the account now signs in
   * with the password it was registered with.
   */
  lemma {:induction false} ConfirmedAccountLogsIn(db: Db, data: Schemas.UserCreate, now: int, adminEmails: string,
                                                  hash: string -> string, token: string, later: int, at: int,
                                                  matches: (string, string) -> bool, code: string)
    requires UniqueAccounts(db.users)
    requires Register(db, data, now, adminEmails, hash, token).reply.Ok?
    requires forall t :: t in db.tokens ==> t.token != token
    requires later < now + VerificationLifetime
    requires matches(data.password, hash(data.password))
    ensures var db2 := ConfirmEmail(Register(db, data, now, adminEmails, hash, token).db, token, later).db;
      Login(db2, data.email, data.password, "", at, matches, code).reply.Ok?
  {
    var db1 := Register(db, data, now, adminEmails, hash, token).db;
    var u := db1.users[|db.users|];
    var v := u.(emailVerified := true);
    RegisteredLinkConfirms(db, data, now, adminEmails, hash, token, later);
    RegisterKeepsAccountsUnique(db, data, now, adminEmails, hash, token);
    var db2 := ConfirmEmail(db1, token, later).db;
    assert db2.users == ReplaceUser(db1.users, v);
    assert UserByEmail(db1.users, u.email) == Some(u) by {
      var w := UserByEmail(db1.users, u.email).value;
      var i :| 0 <= i < |db1.users| && db1.users[i] == w;
      assert i == |db.users|;
    }
    ReplaceUserKeepsLookup(db1.users, u, v);
    assert UserByEmail(db2.users, data.email) == Some(v);
    assert !IsLocked(v, at) && matches(data.password, v.passwordHash) && v.emailVerified;
  }

  /**
   * A link sent again on request confirms the still unverified account
   * until it expires, provided no stored link already carries the token.
   */
  lemma {:induction false} ResentLinkConfirms(db: Db, email: string, now: int, token: string, later: int)
    requires UniqueAccounts(db.users)
    requires UserByEmail(db.users, email).Some? && !UserByEmail(db.users, email).value.emailVerified
    requires forall t :: t in db.tokens ==> t.token != token
    requires later < now + VerificationLifetime
    ensures var u := UserByEmail(db.users, email).value;
      var out := ConfirmEmail(ResendVerification(db, email, now, token).db, token, later);
      out.reply == Ok(EmailConfirmedMessage) && out.db.users == ReplaceUser(db.users, u.(emailVerified := true))
  {
    var u := UserByEmail(db.users, email).value;
    var db1 := ResendVerification(db, email, now, token).db;
    assert db1 == ReplaceVerificationToken(db, u.id, token, now);
    var j :| 0 <= j < |db.users| && db.users[j] == u;
    OnlyIdFound(db.users, j);
    ReplacedLinkConfirms(db, u, token, now, later);
  }

  /** A user's replacement link, carrying a token no stored link has, confirms that user. */
  lemma ReplacedLinkConfirms(db: Db, u: User, token: string, now: int, later: int)
    requires UserById(db.users, u.id) == Some(u)
    requires forall t :: t in db.tokens ==> t.token != token
    requires later < now + VerificationLifetime
    ensures var out := ConfirmEmail(ReplaceVerificationToken(db, u.id, token, now), token, later);
      out.reply == Ok(EmailConfirmedMessage) && out.db.users == ReplaceUser(db.users, u.(emailVerified := true))
  {
    var db1 := ReplaceVerificationToken(db, u.id, token, now);
    var k := ReplacedLinkIsOnlyOne(db, u.id, token, now);
    OnlyLinkConfirms(db1, k, token, later, u);
  }

  /** After a replacement with a token no stored link has, exactly one link carries that token: the user's. */
  lemma ReplacedLinkIsOnlyOne(db: Db, userId: nat, token: string, now: int) returns (k: nat)
    requires forall t :: t in db.tokens ==> t.token != token
    ensures var ts := ReplaceVerificationToken(db, userId, token, now).tokens;
      k < |ts| && ts[k].userId == userId && ts[k].token == token
      && ts[k].expiresAt == now + VerificationLifetime
      && forall i :: 0 <= i < |ts| && i != k ==> ts[i].token != token
  {
    var ts := ReplaceVerificationToken(db, userId, token, now).tokens;
    var f := (t: VerificationToken) => t.userId == userId;
    assert Seqs.Count(f, ts) == 1;
    k :| 0 <= k < |ts| && ts[k].userId == userId;
    assert ts[k] in ts;
    Seqs.OnlyOneMatch(f, ts, k);
    forall i | 0 <= i < |ts| && i != k ensures ts[i].token != token {
      assert ts[i] in ts;
    }
  }
}
