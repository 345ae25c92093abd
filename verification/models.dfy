/**
 * The database tables of the backend (SQLAlchemy models) as immutable
 * records. Primary keys are natural numbers standing for UUIDs; a fresh key
 * is one larger than every key in its table. Instants are whole seconds and
 * calendar dates whole days, both supplied by the caller.
 */
module Models {
  import opened Wrappers
  import Seqs

  /** An account. `lockedUntil` is set by the brute-force lockout. */
  datatype User = User(
    id: nat,
    username: string,
    email: string,
    passwordHash: string,
    emailVerified: bool,
    mfaEnabled: bool,
    isAdmin: bool,
    failedAttempts: nat,
    lockedUntil: Option<int>)

  /** A one-time login code sent by e-mail. */
  datatype MfaCode = MfaCode(id: nat, userId: nat, code: string, expiresAt: int)

  /** A link token proving ownership of an e-mail address. */
  datatype VerificationToken = VerificationToken(id: nat, userId: nat, token: string, expiresAt: int)

  /** The best score of one user in one game on one day. */
  datatype Highscore = Highscore(id: nat, userId: nat, gameType: string, date: int, score: int)

  /** One vocabulary entry; `tags` is space separated and empty when the column is null. */
  datatype Vocab = Vocab(id: nat, expression: string, reading: string, meaning: string, tags: string)

  /** An invitation to register, sent by an administrator. */
  datatype Invitation = Invitation(
    id: nat,
    email: string,
    token: string,
    invitedBy: nat,
    accepted: bool,
    acceptedAt: Option<int>,
    expiresAt: int)

  /** A cached AI hint for a vocabulary entry in one quiz mode. */
  datatype HintEntry = HintEntry(id: nat, vocabularyId: nat, mode: string, hint: string)

  /** A cached speech rendering of a text. */
  datatype TtsEntry = TtsEntry(id: nat, text: string, audio: seq<bv8>)

  /** A user's saved tag selection, comma separated. */
  datatype Preferences = Preferences(id: nat, userId: nat, selectedTags: string)

  /** The whole database. Settings are keyed by their unique `key` column. */
  datatype Db = Db(
    users: seq<User>,
    mfaCodes: seq<MfaCode>,
    tokens: seq<VerificationToken>,
    scores: seq<Highscore>,
    vocabulary: seq<Vocab>,
    invitations: seq<Invitation>,
    hints: seq<HintEntry>,
    tts: seq<TtsEntry>,
    preferences: seq<Preferences>,
    settings: map<string, string>)

  /** What an endpoint leaves behind: the database after its commits, and its answer. */
  datatype Outcome<+T> = Outcome(db: Db, reply: Reply<T>)

  /** A user as inserted by registration: column defaults applied. */
  function NewUser(id: nat, username: string, email: string, passwordHash: string, isAdmin: bool): (u: User)
    ensures !u.emailVerified && u.mfaEnabled && u.failedAttempts == 0 && u.lockedUntil.None?
    ensures u.id == id && u.username == username && u.email == email && u.isAdmin == isAdmin
  {
    User(id, username, email, passwordHash, false, true, isAdmin, 0, None)
  }

  /** `User.is_locked`: a lock is in force strictly before its end. */
  predicate IsLocked(u: User, now: int) {
    match u.lockedUntil
    case None => false
    case Some(t) => now < t
  }

  /** `User.reset_failed_attempts`. */
  function ResetFailedAttempts(u: User): (r: User)
    ensures r.failedAttempts == 0 && r.lockedUntil.None?
    ensures r == u.(failedAttempts := r.failedAttempts, lockedUntil := r.lockedUntil)
  {
    u.(failedAttempts := 0, lockedUntil := None)
  }

  /** A reset account is unlocked at every instant. */
  lemma ResetUnlocks(u: User, now: int)
    ensures !IsLocked(ResetFailedAttempts(u), now)
  {
  }

  /** A lock ending at `t` holds exactly on the instants before `t`. */
  lemma LockWindow(u: User, t: int, now: int)
    requires u.lockedUntil == Some(t)
    ensures IsLocked(u, now) <==> now < t
  {
  }

  /** One more than the largest of `ids`: a key no row of the table uses. */
  function FreshId(ids: seq<nat>): (r: nat)
    ensures forall i :: 0 <= i < |ids| ==> ids[i] < r
  {
    if |ids| == 0 then 1
    else
      var rest := FreshId(ids[1..]);
      if ids[0] < rest then rest else ids[0] + 1
  }

  function UserId(u: User): nat { u.id }
  function CodeId(c: MfaCode): nat { c.id }
  function TokenId(t: VerificationToken): nat { t.id }
  function ScoreId(h: Highscore): nat { h.id }
  function VocabId(v: Vocab): nat { v.id }
  function InvitationId(i: Invitation): nat { i.id }
  function HintId(h: HintEntry): nat { h.id }
  function TtsId(t: TtsEntry): nat { t.id }
  function PreferencesId(p: Preferences): nat { p.id }

  /** A user id no user has. */
  function FreshUserId(db: Db): (r: nat)
    ensures forall u :: u in db.users ==> u.id != r
  {
    var ids := Seqs.Map(UserId, db.users);
    var r := FreshId(ids);
    assert forall i :: 0 <= i < |db.users| ==> ids[i] == db.users[i].id;
    r
  }

  /** The user whose e-mail equals `email` exactly (`.filter(User.email == email).first()`). */
  function UserByEmail(users: seq<User>, email: string): (r: Option<User>)
    ensures r.Some? ==> r.value in users && r.value.email == email
    ensures r.None? <==> forall u :: u in users ==> u.email != email
  {
    Seqs.Find((u: User) => u.email == email, users)
  }

  /** The user with key `id`. */
  function UserById(users: seq<User>, id: nat): (r: Option<User>)
    ensures r.Some? ==> r.value in users && r.value.id == id
    ensures r.None? <==> forall u :: u in users ==> u.id != id
  {
    Seqs.Find((u: User) => u.id == id, users)
  }

  /** `users` with every row whose key is `u.id` replaced by `u` (an ORM update and commit). */
  function ReplaceUser(users: seq<User>, u: User): (r: seq<User>)
    ensures |r| == |users|
    ensures forall i :: 0 <= i < |users| ==> r[i] == (if users[i].id == u.id then u else users[i])
  {
    Seqs.Map((x: User) => if x.id == u.id then u else x, users)
  }

  /** The `unique=True` columns of `users`: no two accounts share a username or an e-mail. */
  predicate UniqueAccounts(users: seq<User>) {
    forall i, j :: 0 <= i < j < |users| ==>
      users[i].id != users[j].id && users[i].username != users[j].username && users[i].email != users[j].email
  }
}
