/**
 * Request validation done by the Pydantic schemas before an endpoint runs.
 * A request that fails it is answered with 422 and never reaches the endpoint.
 */
module Schemas {
  import Strings

  predicate IsUpper(c: char) { 'A' <= c <= 'Z' }
  predicate IsLower(c: char) { 'a' <= c <= 'z' }

  predicate HasUpper(s: string) { exists i :: 0 <= i < |s| && IsUpper(s[i]) }
  predicate HasLower(s: string) { exists i :: 0 <= i < |s| && IsLower(s[i]) }
  predicate HasDigit(s: string) { exists i :: 0 <= i < |s| && Strings.IsDigit(s[i]) }

  /** `UserCreate.password`: 8 to 128 characters with an upper-case letter, a lower-case letter and a digit. */
  predicate ValidPassword(p: string) {
    8 <= |p| <= 128 && HasUpper(p) && HasLower(p) && HasDigit(p)
  }

  /** The character class `[a-zA-Z0-9_\-\.@]` of usernames. */
  predicate UsernameChar(c: char) {
    IsUpper(c) || IsLower(c) || Strings.IsDigit(c) || c == '_' || c == '-' || c == '.' || c == '@'
  }

  predicate AllUsernameChars(s: string) {
    |s| > 0 && forall i :: 0 <= i < |s| ==> UsernameChar(s[i])
  }

  /**
   * Python's `re.match(r'^[…]+$', v)`: `$` also matches just before a final
   * line feed, so one trailing `\n` after the allowed characters passes.
   */
  predicate UsernamePatternAsWritten(v: string) {
    AllUsernameChars(v) || (|v| >= 2 && v[|v| - 1] == '\n' && AllUsernameChars(v[..|v| - 1]))
  }

  /** The dot rules: no `..`, no leading or trailing `.`. */
  predicate DotRules(v: string) {
    !Strings.Contains(v, "..") && (|v| == 0 || (v[0] != '.' && v[|v| - 1] != '.'))
  }

  /** `UserCreate.username` as the validator is written. */
  predicate ValidUsernameAsWritten(v: string) {
    3 <= |v| <= 100 && UsernamePatternAsWritten(v) && DotRules(v)
  }

  /** `UserCreate.username` as evidently intended: the whole name matches the character class. */
  predicate ValidUsername(v: string) {
    3 <= |v| <= 100 && AllUsernameChars(v) && DotRules(v)
  }

  /** The validator as written accepts a name ending in a dot, smuggled behind a line feed. */
  lemma UsernameNewlineSlipsThrough()
    ensures ValidUsernameAsWritten("abc.\n")
    ensures !ValidUsername("abc.\n")
  {
    var v := "abc.\n";
    assert v[..|v| - 1] == "abc.";
    assert !UsernameChar(v[4]);
    forall i: nat | i <= |v| ensures !Strings.OccursAt("..", v, i) {
      if i + 2 <= |v| {
        assert v[i..i + 2][0] == v[i];
        assert v[i..i + 2][1] == v[i + 1];
      }
    }
  }

  /**
   * The two validators differ exactly on names ending in a line feed:
   * the corrected one accepts a subset, and all of it.
   */
  lemma UsernameValidatorsAgreeWithoutNewline(v: string)
    ensures ValidUsername(v) ==> ValidUsernameAsWritten(v)
    ensures |v| > 0 && v[|v| - 1] != '\n' ==> (ValidUsername(v) <==> ValidUsernameAsWritten(v))
  {
  }

  /** A validated username holds only the allowed characters and no line feed. */
  lemma ValidUsernameHasNoNewline(v: string)
    requires ValidUsername(v)
    ensures '\n' !in v
  {
  }

  /** The body of `POST /auth/register`; an absent optional field is the empty string. */
  datatype UserCreate = UserCreate(
    username: string,
    email: string,
    password: string,
    website: string,
    invitationToken: string)

  /**
   * Everything `UserCreate` checks except the `EmailStr` syntax of the
   * address, with the username validator as written.
   */
  predicate ValidUserCreate(u: UserCreate) {
    ValidUsernameAsWritten(u.username) && ValidPassword(u.password)
  }

  /** `UserCreate` with the username rule as evidently intended. */
  predicate ValidUserCreateIntended(u: UserCreate) {
    ValidUsername(u.username) && ValidPassword(u.password)
  }

  /**
   * The intended rule refuses a subset of what the endpoint accepts, and
   * the two differ only on usernames ending in a line feed.
   */
  lemma IntendedUserCreateStricter(u: UserCreate)
    ensures ValidUserCreateIntended(u) ==> ValidUserCreate(u)
    ensures ValidUserCreate(u) && !ValidUserCreateIntended(u) ==>
      |u.username| >= 1 && u.username[|u.username| - 1] == '\n'
  {
    UsernameValidatorsAgreeWithoutNewline(u.username);
  }

  /** `MFAVerify.code`: exactly six characters. */
  predicate ValidMfaCode(code: string) {
    |code| == 6
  }

  /** `ScoreUpdate.game_type`: the pattern `^(quiz|salad|lines)$` (Rust-regex semantics, no trailing newline). */
  predicate ValidGameType(g: string) {
    g == "quiz" || g == "salad" || g == "lines"
  }

  /** `ScoreUpdate`: a known game and a score of at least zero. */
  predicate ValidScoreUpdate(gameType: string, score: int) {
    ValidGameType(gameType) && score >= 0
  }

  /** The memory game submits its score under a game type the schema rejects. */
  lemma MemoryGameTypeRejected(score: int)
    ensures !ValidScoreUpdate("memory", score)
  {
  }

  /** `VocabularyBase`: expression and reading 1 to 255 characters, meaning 1 to 1000. */
  predicate ValidVocabularyFields(expression: string, reading: string, meaning: string) {
    1 <= |expression| <= 255 && 1 <= |reading| <= 255 && 1 <= |meaning| <= 1000
  }

  /** `TTSRequest.text`: 1 to 500 characters. */
  predicate ValidTtsText(text: string) {
    1 <= |text| <= 500
  }

  /** `HintCacheUpdate.hint`: not empty. */
  predicate ValidHintUpdate(hint: string) {
    |hint| >= 1
  }
}
