/**
 * The quiz page's session: the current question, the typed answer, the
 * last result, the running statistics and the one-shot hint. Every request
 * is folded into one transition that takes the request's outcome as an
 * argument (`Replied` with the reply, `Raised` with the error message).
 */
module QuizSession {
  import opened Wrappers
  import Seqs
  import Strings
  import Quiz

  datatype Phase = Loading | Asking | Answered | Failed

  datatype Session = Session(
    phase: Phase,
    question: Option<Quiz.Question>,
    answer: string,
    result: Option<Quiz.QuizResult>,
    error: Option<string>,
    correct: nat,
    total: nat,
    hint: Option<string>,
    loadingHint: bool,
    hintUsed: bool)

  /** A transition and the quiz score it submits, if any. */
  datatype Step = Step(state: Session, submit: Option<nat>)

  /** An outcome of a request: the reply, or the message of the error it raised. */
  datatype Outcome<T> = Replied(value: T) | Raised(message: string)

  const HintFailed: string := "Could not get hint. Please try again."

  /** The session before the first question. */
  const Initial: Session := Session(Loading, None, "", None, None, 0, 0, None, false, false)

  /**
   * `loadQuestion`: answer, result, error, hint and the hint flag are
   * cleared; then the new question is shown, or the error.
   */
  function LoadQuestion(s: Session, reply: Outcome<Quiz.Question>): (r: Session)
    ensures r.answer == "" && r.result.None? && r.hint.None? && !r.hintUsed
    ensures r.correct == s.correct && r.total == s.total && r.loadingHint == s.loadingHint
    ensures reply.Replied? ==> r.phase == Asking && r.question == Some(reply.value) && r.error.None?
    ensures reply.Raised? ==> r.phase == Failed && r.question == s.question && r.error == Some(reply.message)
  {
    var cleared := s.(phase := Loading, answer := "", result := None, error := None, hint := None, hintUsed := false);
    match reply
    case Replied(q) => cleared.(question := Some(q), phase := Asking)
    case Raised(m) => cleared.(error := Some(m), phase := Failed)
  }

  /** Whether `submitAnswer` sends a request: only with a question and an answer that is not blank. */
  predicate Sends(s: Session, answer: string) {
    s.question.Some? && |Strings.Strip(answer)| > 0
  }

  /** The request `submitAnswer` sends: the question's id, the trimmed answer and the question's mode. */
  function Request(s: Session, answer: string): (r: (nat, string, string))
    requires Sends(s, answer)
    ensures r.0 == s.question.value.vocabularyId && r.2 == s.question.value.mode
    ensures |r.1| > 0 && Strings.Strip(r.1) == r.1
  {
    Strings.StripIdempotent(answer);
    (s.question.value.vocabularyId, Strings.Strip(answer), s.question.value.mode)
  }

  /**
   * `submitAnswer` with the outcome of the check request. A checked answer
   * counts one more answer and, when right, one more correct one, shows the
   * result, and a right answer of a logged-in player submits the new
   * correct count; a failed check shows the error and counts nothing.
   */
  function SubmitAnswer(s: Session, answer: string, reply: Outcome<Quiz.QuizResult>, authenticated: bool): (r: Step)
    ensures !Sends(s, answer) ==> r == Step(s, None)
    ensures Sends(s, answer) && reply.Replied? ==>
      r.state == s.(result := Some(reply.value), phase := Answered,
                    correct := if reply.value.correct then s.correct + 1 else s.correct, total := s.total + 1)
      && (r.submit.Some? <==> reply.value.correct && authenticated)
      && (r.submit.Some? ==> r.submit.value == r.state.correct)
    ensures Sends(s, answer) && reply.Raised? ==>
      r == Step(s.(error := Some(reply.message), phase := Failed), None)
  {
    if !Sends(s, answer) then Step(s, None)
    else match reply
      case Replied(res) =>
        var correct := s.correct + (if res.correct then 1 else 0);
        var next := s.(result := Some(res), correct := correct, total := s.total + 1, phase := Answered);
        Step(next, if res.correct && authenticated then Some(correct) else None)
      case Raised(m) => Step(s.(error := Some(m), phase := Failed), None)
  }

  /**
   * `getHint` with the outcome of the hint request: nothing without a
   * question, after a hint was received, or while one is loading. A
   * received hint is shown and used up; a failure shows a retry message
   * and leaves the hint available.
   */
  function GetHint(s: Session, reply: Outcome<string>): (r: Session)
    ensures s.question.None? || s.hintUsed || s.loadingHint ==> r == s
    ensures !(s.question.None? || s.hintUsed || s.loadingHint) ==>
      !r.loadingHint
      && (reply.Replied? ==> r == s.(hint := Some(reply.value), hintUsed := true))
      && (reply.Raised? ==> r == s.(hint := Some(HintFailed)))
  {
    if s.question.None? || s.hintUsed || s.loadingHint then s
    else match reply
      case Replied(h) => s.(hint := Some(h), hintUsed := true, loadingHint := false)
      case Raised(_) => s.(hint := Some(HintFailed), loadingHint := false)
  }

  /** The window's keydown listener: Enter on a shown result loads the next question. */
  function KeyDown(s: Session, key: string, reply: Outcome<Quiz.Question>): (r: Session)
    ensures s.phase == Answered && key == "Enter" ==> r == LoadQuestion(s, reply)
    ensures !(s.phase == Answered && key == "Enter") ==> r == s
  {
    if s.phase == Answered && key == "Enter" then LoadQuestion(s, reply) else s
  }

  /** The statistics' invariant: never more correct answers than answers. */
  predicate StatsValid(s: Session) {
    s.correct <= s.total
  }

  /** Every transition keeps the statistics valid, and neither count ever goes down. */
  lemma TransitionsKeepStats(s: Session, answer: string, checked: Outcome<Quiz.QuizResult>, authenticated: bool,
                             loaded: Outcome<Quiz.Question>, hint: Outcome<string>, key: string)
    requires StatsValid(s)
    ensures var r := SubmitAnswer(s, answer, checked, authenticated).state;
      StatsValid(r) && s.correct <= r.correct && s.total <= r.total
    ensures StatsValid(LoadQuestion(s, loaded)) && StatsValid(GetHint(s, hint)) && StatsValid(KeyDown(s, key, loaded))
  {
  }

  /** One round of play: a question is loaded, an answer typed and the check's result received. */
  datatype Round = Round(question: Quiz.Question, answer: string, result: Quiz.QuizResult)

  /** Whether the round's answer is sent: one that is blank once trimmed is not. */
  predicate Sent(r: Round) {
    |Strings.Strip(r.answer)| > 0
  }

  /** Whether the round's answer is sent and checked right. */
  predicate SentRight(r: Round) {
    Sent(r) && r.result.correct
  }

  /** The session after the rounds, each a `loadQuestion` followed by a `submitAnswer`. */
  function Answers(s: Session, rounds: seq<Round>, authenticated: bool): (r: Session)
    decreases |rounds|
  {
    if |rounds| == 0 then s
    else
      var asked := LoadQuestion(s, Replied(rounds[0].question));
      Answers(SubmitAnswer(asked, rounds[0].answer, Replied(rounds[0].result), authenticated).state, rounds[1..], authenticated)
  }

  /**
   * Over any run of rounds the statistics count exactly the answers sent:
   * the total grows by their number and the correct count by the number of
   * right ones.
   */
  lemma {:induction false} AnswersCounted(s: Session, rounds: seq<Round>, authenticated: bool)
    ensures Answers(s, rounds, authenticated).total == s.total + Seqs.Count(Sent, rounds)
    ensures Answers(s, rounds, authenticated).correct == s.correct + Seqs.Count(SentRight, rounds)
    decreases |rounds|
  {
    if |rounds| > 0 {
      var next := RoundCounted(s, rounds[0], authenticated);
      AnswersCounted(next, rounds[1..], authenticated);
    }
  }

  /** One round counts its answer exactly when it is sent, as right exactly when checked right. */
  lemma RoundCounted(s: Session, round: Round, authenticated: bool) returns (next: Session)
    ensures next == SubmitAnswer(LoadQuestion(s, Replied(round.question)), round.answer, Replied(round.result), authenticated).state
    ensures next.total == s.total + (if Sent(round) then 1 else 0)
    ensures next.correct == s.correct + (if SentRight(round) then 1 else 0)
  {
    var asked := LoadQuestion(s, Replied(round.question));
    assert Sends(asked, round.answer) <==> Sent(round);
    next := SubmitAnswer(asked, round.answer, Replied(round.result), authenticated).state;
  }

  /** A hint is fetched at most once per question: once received, asking again changes nothing until the next question. */
  lemma HintOnce(s: Session, first: Outcome<string>, second: Outcome<string>, loaded: Outcome<Quiz.Question>)
    requires first.Replied? && s.question.Some? && !s.hintUsed && !s.loadingHint
    ensures GetHint(GetHint(s, first), second) == GetHint(s, first)
    ensures !LoadQuestion(GetHint(s, first), loaded).hintUsed
  {
  }
}
