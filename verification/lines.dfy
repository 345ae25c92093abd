/**
 * The Lines game: ten words in a left column (in order) and their
 * translations in a shuffled right column; the player connects a left card
 * to a right card, and checking grades every connection. State changes are
 * pure functions on a `Lines` record; the reply of the vocabulary request,
 * `Math.random()` and whether the player is logged in are arguments.
 */
module LinesGame {
  import opened Wrappers
  import opened Models
  import Seqs
  import Shuffle

  datatype Phase = Loading | Ready | Playing | Checking | Result

  /** The card ids `left-${i}` and `right-${i}`. */
  datatype CardId = LeftCard(i: nat) | RightCard(i: nat)

  datatype WordCard = WordCard(id: CardId, vocabId: nat, text: string, index: nat)

  /** A line from a left card to a right card; `correct` is set by checking. */
  datatype Connection = Connection(leftId: CardId, rightId: CardId, correct: Option<bool>)

  datatype Lines = Lines(
    phase: Phase,
    left: seq<WordCard>,
    right: seq<WordCard>,
    connections: seq<Connection>,
    selectedLeft: Option<CardId>,
    japaneseLeft: bool,
    correctCount: nat)

  /** A transition and the score it submits, if any. */
  datatype Step = Step(state: Lines, submit: Option<nat>)

  function LeftOf(c: Connection): CardId { c.leftId }
  function RightOf(c: Connection): CardId { c.rightId }
  function CardVocab(c: WordCard): nat { c.vocabId }

  /** No card is at the end of two lines, on either side. */
  predicate OneToOne(connections: seq<Connection>) {
    Seqs.NoDuplicates(Seqs.Map(LeftOf, connections)) && Seqs.NoDuplicates(Seqs.Map(RightOf, connections))
  }

  /** The game's invariant: lines are one-to-one and a selected left card has no line yet. */
  predicate Valid(s: Lines) {
    OneToOne(s.connections)
    && (s.selectedLeft.Some? ==> forall c :: c in s.connections ==> c.leftId != s.selectedLeft.value)
  }

  /** The left cards: the words in order, showing the reading or the meaning. */
  function LeftCards(vs: seq<Vocab>, japaneseLeft: bool): (r: seq<WordCard>)
    ensures |r| == |vs|
    ensures forall i :: 0 <= i < |vs| ==>
      r[i] == WordCard(LeftCard(i), vs[i].id, if japaneseLeft then vs[i].reading else vs[i].meaning, i)
  {
    seq(|vs|, i requires 0 <= i < |vs| => WordCard(LeftCard(i), vs[i].id, if japaneseLeft then vs[i].reading else vs[i].meaning, i))
  }

  /** The right cards before shuffling: the other text of each word. */
  function RightCards(vs: seq<Vocab>, japaneseLeft: bool): (r: seq<WordCard>)
    ensures |r| == |vs|
    ensures forall i :: 0 <= i < |vs| ==>
      r[i] == WordCard(RightCard(i), vs[i].id, if japaneseLeft then vs[i].meaning else vs[i].reading, i)
  {
    seq(|vs|, i requires 0 <= i < |vs| => WordCard(RightCard(i), vs[i].id, if japaneseLeft then vs[i].meaning else vs[i].reading, i))
  }

  /**
   * `loadVocabulary` with the reply of `getRandom(10)` (`None` for a failed
   * request), the side coin and the shuffle's random numbers. Lines,
   * selection and count are reset first; an empty reply leaves the game
   * loading, a failed one shows the previous cards again.
   */
  function Load(s: Lines, reply: Option<seq<Vocab>>, japaneseLeft: bool, picks: seq<nat>): (r: Lines)
    ensures r.connections == [] && r.selectedLeft.None? && r.correctCount == 0
    ensures reply.Some? && |reply.value| == 0 ==> r.phase == Loading && r.left == s.left && r.right == s.right
    ensures reply.None? ==> r.phase == Ready && r.left == s.left && r.right == s.right
    ensures reply.Some? && |reply.value| > 0 ==>
      r.phase == Ready && r.japaneseLeft == japaneseLeft
      && r.left == LeftCards(reply.value, japaneseLeft)
      && multiset(r.right) == multiset(RightCards(reply.value, japaneseLeft))
  {
    var reset := s.(phase := Loading, connections := [], selectedLeft := None, correctCount := 0);
    match reply
    case None => reset.(phase := Ready)
    case Some(vs) =>
      if |vs| == 0 then reset
      else
        var unshuffled := RightCards(vs, japaneseLeft);
        var right := Shuffle.Shuffle(unshuffled, picks);
        reset.(phase := Ready, japaneseLeft := japaneseLeft, left := LeftCards(vs, japaneseLeft), right := right)
  }

  /** The shuffled right column holds each word's id once per occurrence in the reply. */
  lemma RightCardsKeepVocab(vs: seq<Vocab>, japaneseLeft: bool, picks: seq<nat>)
    ensures multiset(Seqs.Map(CardVocab, Shuffle.Shuffle(RightCards(vs, japaneseLeft), picks)))
         == multiset(Seqs.Map(VocabId, vs))
  {
    var unshuffled := RightCards(vs, japaneseLeft);
    Shuffle.ShuffleCommutesWithMap(CardVocab, unshuffled, picks);
    assert Seqs.Map(CardVocab, unshuffled) == Seqs.Map(VocabId, vs);
  }

  /** `startGame`. */
  function Start(s: Lines): (r: Lines)
    ensures r == s.(phase := Playing)
  {
    s.(phase := Playing)
  }

  /**
   * `handleLeftClick`: only while playing. A card with a line loses it and
   * the selection is cleared; a card without one becomes the selection.
   */
  function LeftClick(s: Lines, id: CardId): (r: Lines)
    ensures s.phase != Playing ==> r == s
    ensures s.phase == Playing && (exists c :: c in s.connections && c.leftId == id) ==>
      r.selectedLeft.None?
      && (forall c :: c in r.connections <==> c in s.connections && c.leftId != id)
      && |r.connections| < |s.connections|
    ensures s.phase == Playing && (forall c :: c in s.connections ==> c.leftId != id) ==>
      r == s.(selectedLeft := Some(id))
  {
    if s.phase != Playing then s
    else match Seqs.Find((c: Connection) => c.leftId == id, s.connections)
      case Some(found) =>
        var kept := Seqs.Filter((c: Connection) => c.leftId != id, s.connections);
        FilterDropsMatch(s.connections, found, (c: Connection) => c.leftId != id);
        s.(connections := kept, selectedLeft := None)
      case None => s.(selectedLeft := Some(id))
  }

  /** Filtering out an element that is present makes the sequence shorter. */
  lemma {:induction false} FilterDropsMatch<T(!new)>(s: seq<T>, x: T, f: T -> bool)
    requires x in s && !f(x)
    ensures |Seqs.Filter(f, s)| < |s|
  {
    if s[0] == x {
      assert |Seqs.Filter(f, s[1..])| <= |s[1..]|;
    } else {
      assert x in s[1..];
      FilterDropsMatch(s[1..], x, f);
    }
  }

  /**
   * `handleRightClick`: only while playing with a left card selected. The
   * new line replaces whatever line the right card had (and, when it had
   * none, whatever line the selected card had); the selection is cleared.
   */
  function RightClick(s: Lines, id: CardId): (r: Lines)
    ensures s.phase != Playing || s.selectedLeft.None? ==> r == s
    ensures s.phase == Playing && s.selectedLeft.Some? ==>
      var line := Connection(s.selectedLeft.value, id, None);
      r == s.(connections := r.connections, selectedLeft := None)
      && line in r.connections
      && (forall c :: c in r.connections ==> c == line || (c in s.connections && c.rightId != id))
      && (forall c :: c in s.connections && c.rightId != id && c.leftId != s.selectedLeft.value ==> c in r.connections)
  {
    if s.phase != Playing || s.selectedLeft.None? then s
    else
      var sel := s.selectedLeft.value;
      var line := Connection(sel, id, None);
      var kept := if Seqs.Find((c: Connection) => c.rightId == id, s.connections).Some?
        then Seqs.Filter((c: Connection) => c.rightId != id, s.connections)
        else Seqs.Filter((c: Connection) => c.leftId != sel, s.connections);
      s.(connections := kept + [line], selectedLeft := None)
  }

  /** Appending a value that is new keeps a sequence free of duplicates. */
  lemma NoDuplicatesSnoc<T>(s: seq<T>, x: T)
    requires Seqs.NoDuplicates(s) && x !in s
    ensures Seqs.NoDuplicates(s + [x])
  {
  }

  /** `key` of an appended element is appended to the keys. */
  lemma MapSnoc<T, K>(key: T -> K, s: seq<T>, x: T)
    ensures Seqs.Map(key, s + [x]) == Seqs.Map(key, s) + [key(x)]
  {
  }

  /** Lines that keep one-to-one stay so after a filter and a new line between two free cards. */
  lemma AddLineKeepsOneToOne(kept: seq<Connection>, line: Connection)
    requires OneToOne(kept)
    requires forall c :: c in kept ==> c.leftId != line.leftId && c.rightId != line.rightId
    ensures OneToOne(kept + [line])
  {
    MapSnoc(LeftOf, kept, line);
    MapSnoc(RightOf, kept, line);
    assert line.leftId !in Seqs.Map(LeftOf, kept);
    assert line.rightId !in Seqs.Map(RightOf, kept);
    NoDuplicatesSnoc(Seqs.Map(LeftOf, kept), line.leftId);
    NoDuplicatesSnoc(Seqs.Map(RightOf, kept), line.rightId);
  }

  /** A filter keeps lines one-to-one. */
  lemma FilterKeepsOneToOne(f: Connection -> bool, connections: seq<Connection>)
    requires OneToOne(connections)
    ensures OneToOne(Seqs.Filter(f, connections))
  {
    Seqs.FilterKeepsDistinctKeys(LeftOf, f, connections);
    Seqs.FilterKeepsDistinctKeys(RightOf, f, connections);
  }

  /** A left click keeps the invariant. */
  lemma LeftClickKeepsValid(s: Lines, id: CardId)
    requires Valid(s)
    ensures Valid(LeftClick(s, id))
  {
    if s.phase == Playing {
      FilterKeepsOneToOne((c: Connection) => c.leftId != id, s.connections);
    }
  }

  /**
   * A right click keeps the invariant: the right card is freed by the
   * filter, and the selected left card was free because the invariant says
   * so. Without the invariant's second half the first branch could give a
   * left card two lines.
   */
  lemma RightClickKeepsValid(s: Lines, id: CardId)
    requires Valid(s)
    ensures Valid(RightClick(s, id))
  {
    if s.phase == Playing && s.selectedLeft.Some? {
      var sel := s.selectedLeft.value;
      var line := Connection(sel, id, None);
      if Seqs.Find((c: Connection) => c.rightId == id, s.connections).Some? {
        var f := (c: Connection) => c.rightId != id;
        FilterKeepsOneToOne(f, s.connections);
        AddLineKeepsOneToOne(Seqs.Filter(f, s.connections), line);
      } else {
        var f := (c: Connection) => c.leftId != sel;
        FilterKeepsOneToOne(f, s.connections);
        AddLineKeepsOneToOne(Seqs.Filter(f, s.connections), line);
      }
    }
  }

  /** Loading and starting keep the invariant. */
  lemma LoadAndStartKeepValid(s: Lines, reply: Option<seq<Vocab>>, japaneseLeft: bool, picks: seq<nat>)
    requires Valid(s)
    ensures Valid(Load(s, reply, japaneseLeft, picks))
    ensures Valid(Start(s))
  {
  }

  /** The card with id `id` in a column. */
  function CardById(cards: seq<WordCard>, id: CardId): (r: Option<WordCard>)
    ensures r.Some? ==> r.value in cards && r.value.id == id
    ensures r.None? <==> forall c :: c in cards ==> c.id != id
  {
    Seqs.Find((c: WordCard) => c.id == id, cards)
  }

  /** The vocabulary id of a card, `undefined` when there is no such card. */
  function VocabOf(cards: seq<WordCard>, id: CardId): Option<nat> {
    match CardById(cards, id)
    case Some(c) => Some(c.vocabId)
    case None => None
  }

  /** `leftCard?.vocabId === rightCard?.vocabId`; two missing cards compare equal. */
  predicate Matches(s: Lines, c: Connection) {
    VocabOf(s.left, c.leftId) == VocabOf(s.right, c.rightId)
  }

  function IsCorrect(c: Connection): bool { c.correct == Some(true) }

  /**
   * `checkAnswers`: nothing happens until every left card has a line. Then
   * each line is marked by whether its two cards carry the same word, the
   * count of correct lines is kept and the result is shown; a logged-in
   * player with at least one correct line submits that count.
   */
  function Check(s: Lines, authenticated: bool): (r: Step)
    ensures |s.connections| != |s.left| ==> r == Step(s, None)
    ensures |s.connections| == |s.left| ==>
      r.state.phase == Result
      && r.state.left == s.left && r.state.right == s.right && r.state.selectedLeft == s.selectedLeft
      && |r.state.connections| == |s.connections|
      && (forall i :: 0 <= i < |s.connections| ==>
            r.state.connections[i] == s.connections[i].(correct := Some(Matches(s, s.connections[i]))))
      && r.state.correctCount == Seqs.Count(c => Matches(s, c), s.connections)
      && r.state.correctCount <= |s.left|
      && (r.submit.Some? <==> authenticated && r.state.correctCount > 0)
      && (r.submit.Some? ==> r.submit.value == r.state.correctCount)
  {
    if |s.connections| != |s.left| then Step(s, None)
    else
      var checked := Marked(s, s.connections);
      var count := Seqs.Count(IsCorrect, checked);
      CheckedCount(s, s.connections);
      var next := s.(connections := checked, correctCount := count, phase := Result);
      Step(next, if authenticated && count > 0 then Some(count) else None)
  }

  /** Counting the marked lines is counting the matching lines. */
  lemma {:induction false} CheckedCount(s: Lines, cs: seq<Connection>)
    ensures Seqs.Count(IsCorrect, Marked(s, cs)) == Seqs.Count(c => Matches(s, c), cs)
  {
    if |cs| > 0 {
      assert Marked(s, cs)[1..] == Marked(s, cs[1..]);
      CheckedCount(s, cs[1..]);
    }
  }

  /** The lines of `cs`, each marked by whether its cards match. */
  function Marked(s: Lines, cs: seq<Connection>): (r: seq<Connection>)
    ensures |r| == |cs| && forall i :: 0 <= i < |cs| ==> r[i] == cs[i].(correct := Some(Matches(s, cs[i])))
  {
    Seqs.Map((c: Connection) => c.(correct := Some(Matches(s, c))), cs)
  }

  /** Checking keeps the lines' ends, so the invariant survives it. */
  lemma CheckKeepsValid(s: Lines, authenticated: bool)
    requires Valid(s)
    ensures Valid(Check(s, authenticated).state)
  {
    if |s.connections| == |s.left| {
      SameEndsKeepValid(s, Check(s, authenticated).state);
    }
  }

  /** The invariant depends only on the lines' ends and the selection. */
  lemma SameEndsKeepValid(s: Lines, t: Lines)
    requires Valid(s) && |t.connections| == |s.connections| && t.selectedLeft == s.selectedLeft
    requires forall i :: 0 <= i < |t.connections| ==>
      t.connections[i].leftId == s.connections[i].leftId && t.connections[i].rightId == s.connections[i].rightId
    ensures Valid(t)
  {
    assert Seqs.Map(LeftOf, t.connections) == Seqs.Map(LeftOf, s.connections);
    assert Seqs.Map(RightOf, t.connections) == Seqs.Map(RightOf, s.connections);
    forall c | c in t.connections ensures t.selectedLeft.Some? ==> c.leftId != t.selectedLeft.value {
      var i :| 0 <= i < |t.connections| && t.connections[i] == c;
      assert s.connections[i] in s.connections;
    }
  }

  /** In a loaded left column, card `left-i` carries the i-th word. */
  lemma LeftCardCarries(vs: seq<Vocab>, japaneseLeft: bool, i: nat)
    requires i < |vs|
    ensures VocabOf(LeftCards(vs, japaneseLeft), LeftCard(i)) == Some(vs[i].id)
  {
    var cards := LeftCards(vs, japaneseLeft);
    assert cards[i].id == LeftCard(i);
    var found := CardById(cards, LeftCard(i));
    var j :| 0 <= j < |cards| && cards[j] == found.value;
  }

  /** In any arrangement of the right column, card `right-i` carries the i-th word. */
  lemma RightCardCarries(vs: seq<Vocab>, japaneseLeft: bool, right: seq<WordCard>, i: nat)
    requires i < |vs| && multiset(right) == multiset(RightCards(vs, japaneseLeft))
    ensures VocabOf(right, RightCard(i)) == Some(vs[i].id)
  {
    var unshuffled := RightCards(vs, japaneseLeft);
    assert unshuffled[i] in multiset(unshuffled);
    assert unshuffled[i] in right;
    var found := CardById(right, RightCard(i));
    assert found.value in multiset(unshuffled);
    var j :| 0 <= j < |unshuffled| && unshuffled[j] == found.value;
  }

  /** The lines `left-i` to `right-i` for every word. */
  function IndexLinks(n: nat): (r: seq<Connection>)
    ensures |r| == n && forall i :: 0 <= i < n ==> r[i] == Connection(LeftCard(i), RightCard(i), None)
  {
    seq(n, i requires 0 <= i < n => Connection(LeftCard(i), RightCard(i), None))
  }

  /** After a load, linking every left card to the right card of the same index grades every line correct. */
  lemma LinkingByIndexIsPerfect(s: Lines, reply: seq<Vocab>, japaneseLeft: bool, picks: seq<nat>, authenticated: bool)
    requires |reply| > 0
    ensures var linked := Load(s, Some(reply), japaneseLeft, picks).(connections := IndexLinks(|reply|));
      Check(linked, authenticated).state.correctCount == |reply|
  {
    var linked := Load(s, Some(reply), japaneseLeft, picks).(connections := IndexLinks(|reply|));
    forall i | 0 <= i < |reply| ensures Matches(linked, linked.connections[i]) {
      LeftCardCarries(reply, japaneseLeft, i);
      RightCardCarries(reply, japaneseLeft, linked.right, i);
    }
    CountAll(c => Matches(linked, c), linked.connections);
  }

  /** When every element satisfies `f`, all are counted. */
  lemma CountAll<T>(f: T -> bool, s: seq<T>)
    requires forall i :: 0 <= i < |s| ==> f(s[i])
    ensures Seqs.Count(f, s) == |s|
  {
  }
}
