/**
 * The quiz router: building a random question in one of three modes
 * (meaning to reading, reading to meaning, fill in the blanks of a reading)
 * and grading an answer. `ORDER BY random()`, `random.choice`,
 * `random.sample` and `random.shuffle` take their random numbers from a
 * `Dice` argument; Unicode NFC and the two regular expressions of the
 * English check are function arguments.
 */
module Quiz {
  import opened Wrappers
  import opened Models
  import Seqs
  import Strings
  import Shuffle
  import Vocabulary
  import SqlLike

  const ToJapanese := "to_japanese"
  const ToEnglish := "to_english"
  const FillInBlank := "fill_in_blank"
  const Text := "text"
  const MultipleChoice := "multiple_choice"

  /** `GAP_CHAR`, the full-width low line shown in place of a hidden character. */
  const GapChar: char := '\U{FF3F}'

  /** The ideographic (full-width) space. */
  const IdeographicSpace: char := '\U{3000}'

  // ---------------------------------------------------------------------
  // Answer normalisation
  // ---------------------------------------------------------------------

  /**
   * `normalize_japanese`: NFC, then `strip()` and `lower()`, then every
   * full-width space replaced by an ASCII space. Full-width spaces at the
   * ends are already gone by then, since `strip()` removes them.
   */
  function Normalize(nfc: string -> string, s: string): (r: string)
    ensures IdeographicSpace !in r
    ensures |r| == |Strings.Strip(nfc(s))|
    ensures |r| > 0 ==> r[0] != ' ' && r[|r| - 1] != ' '
  {
    var t := Strings.Strip(nfc(s));
    assert |t| > 0 ==> Strings.IsSpace(Strings.LowerChar(t[0])) == Strings.IsSpace(t[0]);
    Strings.ReplaceChar(Strings.Lower(t), IdeographicSpace, ' ')
  }

  // ---------------------------------------------------------------------
  // Fill in the blank
  // ---------------------------------------------------------------------

  /** `_get_gap_count`: 1 gap up to 4 characters, 2 up to 6, 3 from 7 on. */
  function GapCount(wordLength: int): (r: nat)
    ensures 1 <= r <= 3
    ensures wordLength >= 3 ==> r <= wordLength
    ensures wordLength >= 7 <==> r == 3
    ensures wordLength <= 4 <==> r == 1
  {
    if wordLength <= 4 then 1
    else if wordLength <= 6 then 2
    else 3
  }

  /** Longer words never get fewer gaps. */
  lemma GapCountMonotone(a: int, b: int)
    requires a <= b
    ensures GapCount(a) <= GapCount(b)
  {
  }

  /** `chars` with every position listed in `gaps` replaced by `GAP_CHAR`, one position at a time. */
  function FillGaps(chars: string, gaps: seq<int>): (r: string)
    requires forall k :: 0 <= k < |gaps| ==> 0 <= gaps[k] < |chars|
    ensures |r| == |chars|
    ensures forall i :: 0 <= i < |chars| ==> r[i] == if i in gaps then GapChar else chars[i]
    decreases |gaps|
  {
    if |gaps| == 0 then chars
    else FillGaps(chars[gaps[0] := GapChar], gaps[1..])
  }

  /** A fill-in-the-blank puzzle: the text shown and the hidden positions. */
  datatype Blanks = Blanks(display: string, gaps: seq<int>)

  /** What a puzzle for `reading` must be: sorted distinct gaps, as many as `_get_gap_count` asks, shown as `GAP_CHAR`. */
  predicate BlanksOf(reading: string, b: Blanks) {
    Seqs.StrictlyIncreasing(b.gaps)
    && |b.gaps| == GapCount(|reading|)
    && (forall k :: 0 <= k < |b.gaps| ==> 0 <= b.gaps[k] < |reading|)
    && |b.display| == |reading|
    && forall i :: 0 <= i < |reading| ==> b.display[i] == if i in b.gaps then GapChar else reading[i]
  }

  /**
   * `_create_fill_in_blank`: `sorted(random.sample(range(len), gap_count))`
   * and the reading with those positions blanked. An empty reading makes
   * `random.sample` raise; the endpoint only passes readings of 3 or more
   * characters.
   */
  function CreateFillInBlank(reading: string, picks: seq<nat>): (r: Blanks)
    requires |reading| > 0
    ensures BlanksOf(reading, r)
  {
    var gaps := GapPositions(|reading|, picks);
    Blanks(FillGaps(reading, gaps), gaps)
  }

  /** `sorted(random.sample(range(n), gap_count))`. */
  function GapPositions(n: nat, picks: seq<nat>): (r: seq<int>)
    requires n >= 1
    ensures Seqs.StrictlyIncreasing(r) && |r| == GapCount(n)
    ensures forall k :: 0 <= k < |r| ==> 0 <= r[k] < n
  {
    var positions := Seqs.Range(n);
    assert Seqs.NoDuplicates(positions);
    var drawn := Shuffle.Sample(positions, GapCount(n), picks);
    var gaps := Seqs.SortDistinct(drawn);
    forall k | 0 <= k < |gaps| ensures 0 <= gaps[k] < n {
      assert gaps[k] in drawn;
      var i :| 0 <= i < |positions| && positions[i] == gaps[k];
    }
    gaps
  }

  // ---------------------------------------------------------------------
  // Questions
  // ---------------------------------------------------------------------

  /** The random numbers one request consumes. */
  datatype Dice = Dice(
    mode: nat,          // random.choice of the mode
    row: nat,           // ORDER BY random() ... first()
    fallbackMode: nat,  // random.choice after an empty fill-in-the-blank query
    fallbackRow: nat,   // ORDER BY random() of the fallback query
    questionType: nat,  // random.choice of text or multiple choice
    gaps: seq<nat>,     // random.sample of the gap positions
    wrong: seq<nat>,    // ORDER BY random() of the wrong answers
    order: seq<nat>)    // random.shuffle of the options

  /** The response `QuizQuestion`. */
  datatype Question = Question(
    vocabularyId: nat,
    question: string,
    mode: string,
    questionType: string,
    options: Option<seq<string>>,
    displayText: Option<string>,
    gapIndices: Option<seq<int>>,
    gapCount: Option<nat>,
    ttsText: Option<string>)

  const NoVocabulary := HttpError(404, "No vocabulary found matching the criteria")

  /**
   * The quiz's tag filter: each stripped comma-separated term goes into
   * `ILIKE '%term%'` as it is, without the escaping the vocabulary listing
   * applies, so '%' and '_' in a term act as wildcards.
   */
  predicate QuizTagsMatch(v: Vocab, terms: seq<string>) {
    forall k :: 0 <= k < |terms| ==> SqlLike.ILike(v.tags, "%" + terms[k] + "%")
  }

  predicate InTagPool(v: Vocab, tags: Option<string>) {
    Vocabulary.Given(tags) ==> QuizTagsMatch(v, Vocabulary.ListTagTerms(tags.value))
  }

  /** The entries the question may be about. */
  function TagPool(db: Db, tags: Option<string>): (r: seq<Vocab>)
    ensures forall v :: v in r <==> v in db.vocabulary && InTagPool(v, tags)
  {
    Seqs.Filter((v: Vocab) => InTagPool(v, tags), db.vocabulary)
  }

  /**
   * For tag terms without '\\', '%' or '_', the quiz selects exactly the
   * entries the vocabulary listing shows for the same tags.
   */
  lemma TagPoolAgreesWithListing(db: Db, tags: Option<string>, v: Vocab)
    requires tags.Some? ==> forall c :: c in tags.value ==> !Vocabulary.LikeSpecial(c)
    ensures v in TagPool(db, tags) <==> v in db.vocabulary && Vocabulary.ListMatches(v, None, tags)
  {
    if Vocabulary.Given(tags) {
      var terms := Vocabulary.ListTagTerms(tags.value);
      forall k | 0 <= k < |terms|
        ensures Vocabulary.ContainsPattern(terms[k]) == "%" + terms[k] + "%"
      {
        SplitPartChars(tags.value, ',', k);
        Strings.StripKeepsChars(Strings.Split(tags.value, ',')[k]);
        Vocabulary.EscapeLikePatternIsCharwise(terms[k]);
      }
    }
  }

  /**
   * An unescaped `_` as the tag is a wildcard: the quiz then draws from
   * every entry with non-empty tags, where the listing would show only
   * entries whose tags contain an underscore.
   */
  lemma UnderscoreTagMatchesAnyTags(db: Db, v: Vocab)
    ensures v in TagPool(db, Some("_")) <==> v in db.vocabulary && |v.tags| > 0
  {
    UnderscoreTerms();
    assert "%" + "_" + "%" == "%_%";
    assert InTagPool(v, Some("_")) <==> SqlLike.ILike(v.tags, "%_%");
    LowerWildcards();
    UnderscorePattern(Strings.Lower(v.tags));
  }

  lemma UnderscoreTerms()
    ensures Vocabulary.ListTagTerms("_") == ["_"]
  {
    var s := "_";
    assert s[1..] == "" && Strings.Split("", ',') == [""];
    assert Strings.Split(s, ',') == [[s[0]] + ""] + [""][1..];
    assert [s[0]] + "" == "_";
    assert Strings.Strip("_") == "_";
  }

  lemma LowerWildcards()
    ensures Strings.Lower("%_%") == "%_%"
  {
  }

  /** `LIKE '%_%'` matches exactly the non-empty texts. */
  lemma UnderscorePattern(t: string)
    ensures SqlLike.Like(t, "%_%") <==> |t| > 0
  {
    assert "%_%" == "%" + "_%";
    SqlLike.PercentPrefix(t, "_%");
    if |t| > 0 {
      SqlLike.PercentMatchesAll(t[1..]);
      assert t[0..] == t;
    }
  }

  /** `func.length(Vocabulary.reading) >= 3`. */
  predicate LongReading(v: Vocab) { |v.reading| >= 3 }

  /** The entry and mode chosen for a question. */
  datatype Drawn = Drawn(vocab: Vocab, mode: string)

  /**
   * The mode and entry of `get_random_question`. A fill-in-the-blank draw
   * needs a reading of 3 or more characters; when the pool has none, the
   * mode is drawn again from the two other modes over the whole pool.
   */
  function Draw(db: Db, tags: Option<string>, dice: Dice): (r: Option<Drawn>)
    ensures r.Some? <==> |TagPool(db, tags)| > 0
    ensures r.Some? ==> r.value.vocab in TagPool(db, tags)
    ensures r.Some? ==> r.value.mode in [ToJapanese, ToEnglish, FillInBlank]
    ensures r.Some? && r.value.mode == FillInBlank ==> LongReading(r.value.vocab)
    ensures r.Some? ==> (r.value.mode == FillInBlank <==>
      Shuffle.Choice([ToJapanese, ToEnglish, FillInBlank], dice.mode) == FillInBlank
      && |Seqs.Filter(LongReading, TagPool(db, tags))| > 0)
  {
    var pool := TagPool(db, tags);
    var mode := Shuffle.Choice([ToJapanese, ToEnglish, FillInBlank], dice.mode);
    var long := Seqs.Filter(LongReading, pool);
    if mode == FillInBlank && |long| > 0 then
      Some(Drawn(Shuffle.Choice(long, dice.row), FillInBlank))
    else if mode == FillInBlank then
      if |pool| == 0 then None
      else Some(Drawn(Shuffle.Choice(pool, dice.fallbackRow), Shuffle.Choice([ToJapanese, ToEnglish], dice.fallbackMode)))
    else if |pool| == 0 then None
    else Some(Drawn(Shuffle.Choice(pool, dice.row), mode))
  }

  /** The answer an entry stands for in a mode: the reading, or the first comma-separated meaning, stripped. */
  function Answer(mode: string, v: Vocab): (r: string)
    ensures mode == ToJapanese ==> r == v.reading
    ensures mode != ToJapanese ==> ',' !in r && |r| <= |v.meaning|
  {
    if mode == ToJapanese then v.reading
    else
      var first := Strings.Split(v.meaning, ',')[0];
      Strings.SplitHead(v.meaning, ',');
      Strings.StripKeepsChars(first);
      Strings.Strip(first)
  }

  /**
   * Outside to_japanese the answer is the meaning's first phrase: a meaning
   * written as a stripped phrase, a comma and anything after answers with
   * that phrase, and a stripped meaning without a comma answers with itself.
   */
  lemma AnswerIsFirstPhrase(mode: string, v: Vocab, phrase: string, rest: string)
    requires mode != ToJapanese && ',' !in phrase && Strings.Strip(phrase) == phrase
    ensures v.meaning == phrase + "," + rest ==> Answer(mode, v) == phrase
    ensures v.meaning == phrase ==> Answer(mode, v) == phrase
  {
    if v.meaning == phrase + "," + rest {
      Strings.SplitAfterPart(phrase, ',', rest);
    } else if v.meaning == phrase {
      Strings.SplitWithoutSeparator(phrase, ',');
    }
  }

  /** Up to `limit` other entries in random order (`id != …`, `ORDER BY random() LIMIT limit`). */
  function WrongVocabs(db: Db, id: nat, limit: nat, picks: seq<nat>): (r: seq<Vocab>)
    ensures forall w :: w in r ==> w in db.vocabulary && w.id != id
    ensures |r| == (if limit <= |Seqs.Filter((w: Vocab) => w.id != id, db.vocabulary)| then limit
                    else |Seqs.Filter((w: Vocab) => w.id != id, db.vocabulary)|)
    ensures Seqs.NoDuplicates(Seqs.Filter((w: Vocab) => w.id != id, db.vocabulary)) ==> Seqs.NoDuplicates(r)
  {
    var others := Seqs.Filter((w: Vocab) => w.id != id, db.vocabulary);
    Shuffle.Sample(others, if limit <= |others| then limit else |others|, picks)
  }

  /** The answers of a list of entries in a mode. */
  function Answers(mode: string, vs: seq<Vocab>): (r: seq<string>)
    ensures |r| == |vs| && forall i :: 0 <= i < |vs| ==> r[i] == Answer(mode, vs[i])
  {
    Seqs.Map((w: Vocab) => Answer(mode, w), vs)
  }

  /**
   * `_get_multiple_choice_options`: the right answer and up to three answers
   * of other entries (drawn from the whole vocabulary, not the tag pool),
   * shuffled together.
   */
  function MultipleChoiceOptions(db: Db, v: Vocab, mode: string, dice: Dice): (r: seq<string>)
    ensures multiset(r) == multiset([Answer(mode, v)] + Answers(mode, WrongVocabs(db, v.id, 3, dice.wrong)))
    ensures Answer(mode, v) in r
    ensures 1 <= |r| <= 4
  {
    var options := [Answer(mode, v)] + Answers(mode, WrongVocabs(db, v.id, 3, dice.wrong));
    var r := Shuffle.Shuffle(options, dice.order);
    assert options[0] in r;
    r
  }

  /** The question text of the two translation modes. */
  function Prompt(mode: string, v: Vocab): string {
    if mode == ToJapanese then v.meaning else v.expression + " (" + v.reading + ")"
  }

  /** The response for a drawn entry and mode. */
  function BuildQuestion(db: Db, d: Drawn, dice: Dice): (r: Question)
    requires d.mode in [ToJapanese, ToEnglish, FillInBlank]
    requires d.mode == FillInBlank ==> LongReading(d.vocab)
    ensures r.vocabularyId == d.vocab.id && r.mode == d.mode
    ensures d.mode == FillInBlank ==>
      r.question == d.vocab.meaning && r.questionType == Text && r.options.None?
      && r.ttsText == Some(d.vocab.reading)
      && r.displayText.Some? && r.gapIndices.Some?
      && BlanksOf(d.vocab.reading, Blanks(r.displayText.value, r.gapIndices.value))
      && r.gapCount == Some(|r.gapIndices.value|)
    ensures d.mode != FillInBlank ==>
      r.question == Prompt(d.mode, d.vocab)
      && r.displayText.None? && r.gapIndices.None? && r.gapCount.None? && r.ttsText.None?
      && r.questionType in [Text, MultipleChoice]
      && (r.options.Some? <==> r.questionType == MultipleChoice)
      && (r.options.Some? ==>
            Answer(d.mode, d.vocab) in r.options.value
            && multiset(r.options.value)
               == multiset([Answer(d.mode, d.vocab)] + Answers(d.mode, WrongVocabs(db, d.vocab.id, 3, dice.wrong))))
  {
    var v := d.vocab;
    if d.mode == FillInBlank then
      var b := CreateFillInBlank(v.reading, dice.gaps);
      Question(v.id, v.meaning, d.mode, Text, None, Some(b.display), Some(b.gaps), Some(|b.gaps|), Some(v.reading))
    else
      var kind := Shuffle.Choice([Text, MultipleChoice], dice.questionType);
      var options := if kind == MultipleChoice then Some(MultipleChoiceOptions(db, v, d.mode, dice)) else None;
      Question(v.id, Prompt(d.mode, v), d.mode, kind, options, None, None, None, None)
  }

  /** `GET /api/quiz/random`: 404 exactly when no entry matches the tags. */
  function GetRandomQuestion(db: Db, tags: Option<string>, dice: Dice): (r: Reply<Question>)
    ensures r.IsOk() <==> |TagPool(db, tags)| > 0
    ensures !r.IsOk() ==> r.error == NoVocabulary
    ensures r.IsOk() ==> r.value.vocabularyId in Seqs.Map(VocabId, TagPool(db, tags))
    ensures r.IsOk() ==> r.value == BuildQuestion(db, Draw(db, tags, dice).value, dice)
  {
    match Draw(db, tags, dice)
    case None => Fail(NoVocabulary)
    case Some(d) =>
      var pool := TagPool(db, tags);
      var k :| 0 <= k < |pool| && pool[k] == d.vocab;
      assert Seqs.Map(VocabId, pool)[k] == d.vocab.id;
      Ok(BuildQuestion(db, d, dice))
  }

  /** A pool with an entry of 3 or more characters always yields a fill-in-the-blank question when that mode is drawn. */
  lemma FillInBlankWhenPossible(db: Db, tags: Option<string>, dice: Dice, v: Vocab)
    requires v in TagPool(db, tags) && LongReading(v)
    requires Shuffle.Choice([ToJapanese, ToEnglish, FillInBlank], dice.mode) == FillInBlank
    ensures GetRandomQuestion(db, tags, dice).IsOk()
    ensures GetRandomQuestion(db, tags, dice).value.mode == FillInBlank
  {
    assert v in Seqs.Filter(LongReading, TagPool(db, tags));
  }

  /** The `/options` endpoint: `mode` must be one of the two translation modes and `count` in 1..5. */
  function GetWrongOptions(db: Db, excludeId: nat, mode: string, count: int, picks: seq<nat>): (r: Reply<seq<string>>)
    ensures r.IsOk() <==> (mode == ToJapanese || mode == ToEnglish) && 1 <= count <= 5
    ensures !r.IsOk() ==> r.Status() == 422
    ensures r.IsOk() ==> |r.value| <= count
    ensures r.IsOk() ==> |r.value| == |WrongVocabs(db, excludeId, count, picks)|
    ensures r.IsOk() ==>
      forall i :: 0 <= i < |r.value| ==> r.value[i] == Answer(mode, WrongVocabs(db, excludeId, count, picks)[i])
  {
    if !((mode == ToJapanese || mode == ToEnglish) && 1 <= count <= 5) then Fail(HttpError(422, "Validation error"))
    else Ok(Answers(mode, WrongVocabs(db, excludeId, count, picks)))
  }

  // ---------------------------------------------------------------------
  // Grading
  // ---------------------------------------------------------------------

  /** The response `QuizResult`. */
  datatype QuizResult = QuizResult(correct: bool, correctAnswer: string, userAnswer: string)

  const VocabularyNotFound := HttpError(404, "Vocabulary not found")

  /**
   * `re.split(r'[,;]', text)`: splitting on either separator is splitting
   * on ',' once every ';' has become ','.
   */
  function MeaningParts(meaningLower: string): (r: seq<string>)
    ensures |r| >= 1
    ensures forall i :: 0 <= i < |r| ==> Strings.Strip(r[i]) == r[i]
  {
    var parts := Strings.Split(Strings.ReplaceChar(meaningLower, ';', ','), ',');
    forall i | 0 <= i < |parts| ensures Strings.Strip(Strings.Strip(parts[i])) == Strings.Strip(parts[i]) {
      Strings.StripIdempotent(parts[i]);
    }
    Seqs.Map(Strings.Strip, parts)
  }

  /** The loop over the parts: the answer is a part, or one of the part's words (`re.findall(r'\b\w+\b', part)`). */
  function AnyPartMatches(user: string, parts: seq<string>, words: string -> seq<string>): (r: bool)
    ensures r <==> exists i :: 0 <= i < |parts| && (user == parts[i] || user in words(parts[i]))
  {
    if |parts| == 0 then false
    else if user == parts[0] || user in words(parts[0]) then true
    else
      var rest := AnyPartMatches(user, parts[1..], words);
      assert forall i :: 1 <= i < |parts| ==> parts[i] == parts[1..][i - 1];
      rest
  }

  /**
   * The English check: a part or a word of a part of the lower-cased
   * meaning, or else a phrase found in it at word boundaries
   * (`re.search(r'\b' + re.escape(user) + r'\b', meaning)`, the argument
   * `boundary`).
   */
  predicate EnglishCorrect(user: string, meaning: string, words: string -> seq<string>, boundary: (string, string) -> bool) {
    var lower := Strings.Lower(meaning);
    AnyPartMatches(user, MeaningParts(lower), words)
    || (Strings.Contains(lower, user) && boundary(user, lower))
  }

  /** `POST /api/quiz/check`. */
  function CheckAnswer(db: Db, vocabularyId: nat, answer: string, mode: string,
                       nfc: string -> string, words: string -> seq<string>, boundary: (string, string) -> bool): (r: Reply<QuizResult>)
    ensures r.IsOk() <==> exists v :: v in db.vocabulary && v.id == vocabularyId
    ensures !r.IsOk() ==> r.error == VocabularyNotFound
    ensures r.IsOk() ==> r.value.userAnswer == answer
    ensures r.IsOk() ==>
      var v := Seqs.Find((v: Vocab) => v.id == vocabularyId, db.vocabulary).value;
      v in db.vocabulary && v.id == vocabularyId
      && (mode == FillInBlank || mode == ToJapanese ==>
            r.value.correctAnswer == v.reading
            && (r.value.correct <==> Normalize(nfc, answer) == Normalize(nfc, v.reading)))
      && (mode != FillInBlank && mode != ToJapanese ==>
            r.value.correctAnswer == v.meaning
            && (r.value.correct <==> EnglishCorrect(Normalize(nfc, answer), v.meaning, words, boundary)))
  {
    match Seqs.Find((v: Vocab) => v.id == vocabularyId, db.vocabulary)
    case None => Fail(VocabularyNotFound)
    case Some(v) =>
      var user := Normalize(nfc, answer);
      if mode == FillInBlank || mode == ToJapanese then
        Ok(QuizResult(user == Normalize(nfc, v.reading), v.reading, answer))
      else
        Ok(QuizResult(EnglishCorrect(user, v.meaning, words, boundary), v.meaning, answer))
  }

  /** In the Japanese modes the stored reading itself, however it is spaced or cased, is accepted. */
  lemma ReadingAccepted(db: Db, v: Vocab, mode: string, padding: string,
                        nfc: string -> string, words: string -> seq<string>, boundary: (string, string) -> bool)
    requires v in db.vocabulary && Seqs.NoDuplicates(Seqs.Map(VocabId, db.vocabulary))
    requires mode == FillInBlank || mode == ToJapanese
    requires Normalize(nfc, padding) == Normalize(nfc, v.reading)
    ensures CheckAnswer(db, v.id, padding, mode, nfc, words, boundary) == Ok(QuizResult(true, v.reading, padding))
  {
    FoundIsTheEntry(db, v);
  }

  /** With distinct ids, looking an entry's id up finds that entry. */
  lemma FoundIsTheEntry(db: Db, v: Vocab)
    requires v in db.vocabulary && Seqs.NoDuplicates(Seqs.Map(VocabId, db.vocabulary))
    ensures Seqs.Find((w: Vocab) => w.id == v.id, db.vocabulary) == Some(v)
  {
    var f := Seqs.Find((w: Vocab) => w.id == v.id, db.vocabulary);
    var i :| 0 <= i < |db.vocabulary| && db.vocabulary[i] == v;
    var j :| 0 <= j < |db.vocabulary| && db.vocabulary[j] == f.value;
    assert Seqs.Map(VocabId, db.vocabulary)[i] == Seqs.Map(VocabId, db.vocabulary)[j];
  }

  /** Every comma- or semicolon-separated part of the meaning is an accepted English answer. */
  lemma MeaningPartAccepted(db: Db, v: Vocab, k: nat,
                            nfc: string -> string, words: string -> seq<string>, boundary: (string, string) -> bool)
    requires v in db.vocabulary && Seqs.NoDuplicates(Seqs.Map(VocabId, db.vocabulary))
    requires k < |MeaningParts(Strings.Lower(v.meaning))|
    requires var part := MeaningParts(Strings.Lower(v.meaning))[k];
      nfc(part) == part && IdeographicSpace !in part
    ensures var part := MeaningParts(Strings.Lower(v.meaning))[k];
      CheckAnswer(db, v.id, part, ToEnglish, nfc, words, boundary).value.correct
  {
    var part := MeaningParts(Strings.Lower(v.meaning))[k];
    FoundIsTheEntry(db, v);
    PartNormal(v.meaning, k, nfc);
    PartIsEnglishCorrect(v.meaning, k, words, boundary);
    EnglishCheckOf(db, v, part, nfc, words, boundary);
  }

  /** The English grading of an answer about an entry found by its id. */
  lemma EnglishCheckOf(db: Db, v: Vocab, answer: string,
                       nfc: string -> string, words: string -> seq<string>, boundary: (string, string) -> bool)
    requires Seqs.Find((w: Vocab) => w.id == v.id, db.vocabulary) == Some(v)
    ensures CheckAnswer(db, v.id, answer, ToEnglish, nfc, words, boundary)
      == Ok(QuizResult(EnglishCorrect(Normalize(nfc, answer), v.meaning, words, boundary), v.meaning, answer))
  {
  }

  /** A part of the meaning, when NFC leaves it alone, is its own normal form. */
  lemma PartNormal(meaning: string, k: nat, nfc: string -> string)
    requires k < |MeaningParts(Strings.Lower(meaning))|
    requires var part := MeaningParts(Strings.Lower(meaning))[k];
      nfc(part) == part && IdeographicSpace !in part
    ensures var part := MeaningParts(Strings.Lower(meaning))[k];
      Normalize(nfc, part) == part
  {
    Strings.LowerIdempotent(meaning);
    PartIsLower(Strings.Lower(meaning), k);
    NormalizeFixed(nfc, MeaningParts(Strings.Lower(meaning))[k]);
  }

  /** Each part of the meaning passes the English check. */
  lemma PartIsEnglishCorrect(meaning: string, k: nat, words: string -> seq<string>, boundary: (string, string) -> bool)
    requires k < |MeaningParts(Strings.Lower(meaning))|
    ensures EnglishCorrect(MeaningParts(Strings.Lower(meaning))[k], meaning, words, boundary)
  {
    var parts := MeaningParts(Strings.Lower(meaning));
    assert AnyPartMatches(parts[k], parts, words);
  }

  /** Text that NFC, `strip`, `lower` and the space replacement all leave alone is its own normal form. */
  lemma NormalizeFixed(nfc: string -> string, s: string)
    requires nfc(s) == s && Strings.Strip(s) == s && IdeographicSpace !in s
    requires forall c :: c in s ==> Strings.LowerChar(c) == c
    ensures Normalize(nfc, s) == s
  {
    assert Strings.Lower(s) == s;
  }

  /** The parts of a lower-cased text are lower case. */
  lemma PartIsLower(lower: string, k: nat)
    requires Strings.Lower(lower) == lower && k < |MeaningParts(lower)|
    ensures forall c :: c in MeaningParts(lower)[k] ==> Strings.LowerChar(c) == c
  {
    var text := Strings.ReplaceChar(lower, ';', ',');
    assert forall c :: c in text ==> Strings.LowerChar(c) == c by {
      forall c | c in text ensures Strings.LowerChar(c) == c {
        var i :| 0 <= i < |text| && text[i] == c;
        assert Strings.Lower(lower)[i] == Strings.LowerChar(lower[i]);
      }
    }
    var raw := Strings.Split(text, ',')[k];
    assert MeaningParts(lower)[k] == Strings.Strip(raw);
    SplitPartChars(text, ',', k);
    Strings.StripKeepsChars(raw);
  }

  /** A part of a split holds only characters of the text. */
  lemma {:induction false} SplitPartChars(text: string, sep: char, k: nat)
    requires k < |Strings.Split(text, sep)|
    ensures forall c :: c in Strings.Split(text, sep)[k] ==> c in text
  {
    if |text| > 0 {
      var rest := Strings.Split(text[1..], sep);
      if text[0] == sep {
        if k > 0 {
          SplitPartChars(text[1..], sep, k - 1);
        }
      } else if k == 0 {
        SplitPartChars(text[1..], sep, 0);
      } else {
        SplitPartChars(text[1..], sep, k);
      }
    }
  }
}
