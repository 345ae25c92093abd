/**
 * The Memory game: every word of a round gives two cards, one with its
 * Japanese text and one with its meaning, dealt face down in shuffled
 * order. The player turns over two cards; a pair (same word, different
 * sides) is marked matched after a delay, anything else is turned back.
 * The delayed callbacks become the `Resolve` event, and what they captured
 * when they were scheduled is kept in `pending`.
 */
module MemoryGame {
  import opened Wrappers
  import opened Models
  import Seqs
  import Shuffle

  datatype Phase = Loading | Ready | Playing | Finished

  datatype Side = Japanese | Meaning

  /** The card ids `jp-${index}` and `meaning-${index}`. */
  datatype CardId = JpCard(i: nat) | MeaningCard(i: nat)

  datatype Card = Card(id: CardId, vocabId: nat, side: Side, content: string, flipped: bool, matched: bool)

  /**
   * A scheduled resolution: a found pair remembers its word and the pair
   * count the callback read; a miss remembers the two ids to turn back.
   */
  datatype Resolution = PairFound(vocabId: nat, pairsBefore: nat) | Miss(ids: seq<CardId>)

  datatype Memory = Memory(
    phase: Phase,
    cards: seq<Card>,
    flipped: seq<CardId>,
    matchedPairs: nat,
    moves: nat,
    checking: bool,
    pending: Option<Resolution>)

  /** A transition and the score it submits, if any. */
  datatype Step = Step(state: Memory, submit: Option<nat>)

  /** The pair count that ends the game, fixed whatever the number of words drawn. */
  const PairsToWin: nat := 15

  function IdOf(c: Card): CardId { c.id }

  /** The text of a Japanese card: the reading, with the expression in parentheses when it differs. */
  function JapaneseText(v: Vocab): (r: string)
    ensures v.expression == v.reading ==> r == v.reading
    ensures v.expression != v.reading ==> r == v.reading + " (" + v.expression + ")"
  {
    if v.expression != v.reading then v.reading + " (" + v.expression + ")" else v.reading
  }

  /** Position k of the unshuffled deck: word k / 2, its Japanese card at even k and its meaning card at odd k. */
  function PairCard(vs: seq<Vocab>, k: nat): Card
    requires k < 2 * |vs|
  {
    var v := vs[k / 2];
    if k % 2 == 0 then Card(JpCard(k / 2), v.id, Japanese, JapaneseText(v), false, false)
    else Card(MeaningCard(k / 2), v.id, Meaning, v.meaning, false, false)
  }

  /** The cards before shuffling (the `forEach` that pushes two cards per word). */
  function Pairs(vs: seq<Vocab>): (r: seq<Card>)
    ensures |r| == 2 * |vs|
    ensures forall k :: 0 <= k < 2 * |vs| ==> r[k] == PairCard(vs, k)
  {
    seq(2 * |vs|, k requires 0 <= k < 2 * |vs| => PairCard(vs, k))
  }

  /** For the word at index i, its Japanese card and then its meaning card. */
  lemma PairsInOrder(vs: seq<Vocab>, i: nat)
    requires i < |vs|
    ensures Pairs(vs)[2 * i] == Card(JpCard(i), vs[i].id, Japanese, JapaneseText(vs[i]), false, false)
    ensures Pairs(vs)[2 * i + 1] == Card(MeaningCard(i), vs[i].id, Meaning, vs[i].meaning, false, false)
  {
    assert (2 * i) / 2 == i && (2 * i) % 2 == 0;
    assert (2 * i + 1) / 2 == i && (2 * i + 1) % 2 == 1;
  }

  /** Every card of `Pairs(vs)` is face down and unmatched, and its id names its word and side. */
  lemma PairsShape(vs: seq<Vocab>, c: Card)
    requires c in Pairs(vs)
    ensures !c.flipped && !c.matched
    ensures c.id.i < |vs| && c.vocabId == vs[c.id.i].id
    ensures c.id.JpCard? <==> c.side == Japanese
  {
    var r := Pairs(vs);
    var k :| 0 <= k < |r| && r[k] == c;
  }

  /** The ids of `Pairs(vs)` are distinct. */
  lemma PairsDistinctIds(vs: seq<Vocab>)
    ensures Seqs.NoDuplicates(Seqs.Map(IdOf, Pairs(vs)))
  {
    var ids := Seqs.Map(IdOf, Pairs(vs));
    forall a, b | 0 <= a < b < |ids| ensures ids[a] != ids[b] {
      assert a == 2 * (a / 2) + a % 2 && b == 2 * (b / 2) + b % 2;
    }
  }

  /**
   * `loadVocabulary` with the reply of `getRandom(15)` (`None` for a failed
   * request) and the shuffle's random numbers. Everything is reset and the
   * table is cleared first; an empty reply leaves the game loading.
   */
  function Load(reply: Option<seq<Vocab>>, picks: seq<nat>): (r: Memory)
    ensures r.flipped == [] && r.matchedPairs == 0 && r.moves == 0 && !r.checking && r.pending.None?
    ensures reply.None? ==> r.phase == Ready && r.cards == []
    ensures reply.Some? && |reply.value| == 0 ==> r.phase == Loading && r.cards == []
    ensures reply.Some? && |reply.value| > 0 ==>
      r.phase == Ready && multiset(r.cards) == multiset(Pairs(reply.value))
  {
    var reset := Memory(Loading, [], [], 0, 0, false, None);
    match reply
    case None => reset.(phase := Ready)
    case Some(vs) =>
      if |vs| == 0 then reset
      else reset.(phase := Ready, cards := Shuffle.Shuffle(Pairs(vs), picks))
  }

  /** A loaded deck holds exactly two cards per word, one of each side, all face down and unmatched. */
  lemma LoadedDeck(reply: seq<Vocab>, picks: seq<nat>, c: Card)
    requires |reply| > 0 && c in Load(Some(reply), picks).cards
    ensures !c.flipped && !c.matched
    ensures c.id.i < |reply| && c.vocabId == reply[c.id.i].id
    ensures Card(JpCard(c.id.i), c.vocabId, Japanese, JapaneseText(reply[c.id.i]), false, false) in Load(Some(reply), picks).cards
    ensures Card(MeaningCard(c.id.i), c.vocabId, Meaning, reply[c.id.i].meaning, false, false) in Load(Some(reply), picks).cards
  {
    var deck := Load(Some(reply), picks).cards;
    assert c in multiset(Pairs(reply));
    PairsShape(reply, c);
    var i := c.id.i;
    PairsInOrder(reply, i);
    assert Pairs(reply)[2 * i] in multiset(deck);
    assert Pairs(reply)[2 * i + 1] in multiset(deck);
  }

  /** `startGame`. */
  function Start(s: Memory): (r: Memory)
    ensures r == s.(phase := Playing)
  {
    s.(phase := Playing)
  }

  function HasId(id: CardId): Card -> bool { (c: Card) => c.id == id }

  /** The position of the card with id `id` (`cards.find(c => c.id === cardId)`). */
  function IdIndex(cards: seq<Card>, id: CardId): (r: Option<nat>)
    ensures r.Some? ==> r.value < |cards| && cards[r.value].id == id
    ensures r.None? <==> forall c :: c in cards ==> c.id != id
  {
    Seqs.FindIndex(HasId(id), cards)
  }

  /** The card with id `id`. */
  function CardWithId(cards: seq<Card>, id: CardId): (r: Option<Card>)
    ensures r.Some? <==> IdIndex(cards, id).Some?
    ensures r.Some? ==> r.value == cards[IdIndex(cards, id).value]
  {
    match IdIndex(cards, id)
    case None => None
    case Some(k) => Some(cards[k])
  }

  /** The cards with `id` turned face up. */
  function TurnUp(cards: seq<Card>, id: CardId): (r: seq<Card>)
    ensures |r| == |cards|
    ensures forall i :: 0 <= i < |cards| ==>
      r[i] == if cards[i].id == id then cards[i].(flipped := true) else cards[i]
  {
    Seqs.Map((c: Card) => if c.id == id then c.(flipped := true) else c, cards)
  }

  /** A click the game accepts: playing, no pair being checked, the card present, face down, unmatched, and fewer than two cards up. */
  predicate Accepts(s: Memory, id: CardId) {
    s.phase == Playing && !s.checking
    && CardWithId(s.cards, id).Some?
    && !CardWithId(s.cards, id).value.flipped && !CardWithId(s.cards, id).value.matched
    && |s.flipped| < 2
  }

  /** Two cards form a pair when they show the same word from different sides. */
  predicate IsPair(a: Card, b: Card) {
    a.vocabId == b.vocabId && a.side != b.side
  }

  /**
   * What the second card up schedules: a pair of its word when the two cards
   * form one, otherwise turning both back; nothing when the first card is gone.
   */
  function Schedule(cards: seq<Card>, firstId: CardId, second: Card, pairs: nat): (r: Option<Resolution>)
    ensures r.None? <==> CardWithId(cards, firstId).None?
    ensures r.Some? ==>
      (r.value.PairFound? <==> IsPair(CardWithId(cards, firstId).value, second))
      && (r.value.PairFound? ==> r.value == PairFound(second.vocabId, pairs))
      && (r.value.Miss? ==> r.value.ids == [firstId, second.id])
  {
    match CardWithId(cards, firstId)
    case None => None
    case Some(first) =>
      if IsPair(first, second) then Some(PairFound(first.vocabId, pairs)) else Some(Miss([firstId, second.id]))
  }

  /**
   * `handleCardClick`. An accepted click turns the card up and appends its
   * id; the second card up counts a move, blocks further clicks and
   * schedules the resolution, decided from the two cards as they were.
   */
  function Click(s: Memory, id: CardId): (r: Memory)
    ensures !Accepts(s, id) ==> r == s
    ensures Accepts(s, id) ==>
      r.cards == TurnUp(s.cards, id) && r.flipped == s.flipped + [id]
      && r.phase == s.phase && r.matchedPairs == s.matchedPairs
    ensures Accepts(s, id) && |s.flipped| == 0 ==>
      r.moves == s.moves && !r.checking && r.pending == s.pending
    ensures Accepts(s, id) && |s.flipped| == 1 ==>
      r.moves == s.moves + 1 && r.checking
      && r.pending == Schedule(s.cards, s.flipped[0], CardWithId(s.cards, id).value, s.matchedPairs)
  {
    if !Accepts(s, id) then s
    else
      var up := s.(cards := TurnUp(s.cards, id), flipped := s.flipped + [id]);
      if |s.flipped| == 0 then up
      else
        up.(moves := s.moves + 1, checking := true,
            pending := Schedule(s.cards, s.flipped[0], CardWithId(s.cards, id).value, s.matchedPairs))
  }

  /** Every card of word `v` marked matched. */
  function MarkMatched(cards: seq<Card>, v: nat): (r: seq<Card>)
    ensures |r| == |cards|
    ensures forall i :: 0 <= i < |cards| ==>
      r[i] == if cards[i].vocabId == v then cards[i].(matched := true) else cards[i]
  {
    Seqs.Map((c: Card) => if c.vocabId == v then c.(matched := true) else c, cards)
  }

  /** The cards whose id is in `ids` turned face down. */
  function TurnDown(cards: seq<Card>, ids: seq<CardId>): (r: seq<Card>)
    ensures |r| == |cards|
    ensures forall i :: 0 <= i < |cards| ==>
      r[i] == if cards[i].id in ids then cards[i].(flipped := false) else cards[i]
  {
    Seqs.Map((c: Card) => if c.id in ids then c.(flipped := false) else c, cards)
  }

  /**
   * The scheduled callback running. A pair marks every card of its word
   * matched and sets the pair count to one more than the count it captured;
   * reaching 15 ends the game and a logged-in player submits 15. A miss
   * turns the two cards back. Either way the turned cards are forgotten and
   * clicks are accepted again.
   */
  function Resolve(s: Memory, authenticated: bool): (r: Step)
    ensures s.pending.None? ==> r == Step(s, None)
    ensures s.pending.Some? ==>
      r.state.flipped == [] && !r.state.checking && r.state.pending.None? && r.state.moves == s.moves
    ensures s.pending.Some? && s.pending.value.PairFound? ==>
      var found := s.pending.value;
      r.state.cards == MarkMatched(s.cards, found.vocabId)
      && r.state.matchedPairs == found.pairsBefore + 1
      && (r.state.phase == Finished <==> found.pairsBefore + 1 == PairsToWin || s.phase == Finished)
      && (r.submit.Some? <==> authenticated && found.pairsBefore + 1 == PairsToWin)
      && (r.submit.Some? ==> r.submit.value == PairsToWin)
    ensures s.pending.Some? && s.pending.value.Miss? ==>
      r.state.cards == TurnDown(s.cards, s.pending.value.ids)
      && r.state.matchedPairs == s.matchedPairs && r.state.phase == s.phase && r.submit.None?
  {
    match s.pending
    case None => Step(s, None)
    case Some(PairFound(v, before)) =>
      var pairs := before + 1;
      var next := s.(cards := MarkMatched(s.cards, v), matchedPairs := pairs, flipped := [], checking := false, pending := None);
      if pairs == PairsToWin then Step(next.(phase := Finished), if authenticated then Some(pairs) else None)
      else Step(next, None)
    case Some(Miss(ids)) =>
      Step(s.(cards := TurnDown(s.cards, ids), flipped := [], checking := false, pending := None), None)
  }

  /** A card that is up and not matched. */
  predicate IsOpen(cards: seq<Card>, id: CardId) {
    CardWithId(cards, id).Some? && CardWithId(cards, id).value.flipped && !CardWithId(cards, id).value.matched
  }

  /**
   * The game's invariant: at most two cards are turned, distinct and open;
   * a pair is being checked exactly when two are turned, and then a
   * resolution is scheduled.
   */
  predicate Valid(s: Memory) {
    |s.flipped| <= 2
    && Seqs.NoDuplicates(s.flipped)
    && (forall i :: 0 <= i < |s.flipped| ==> IsOpen(s.cards, s.flipped[i]))
    && (s.checking <==> |s.flipped| == 2)
    && (s.pending.Some? <==> s.checking)
  }

  /** A card-wise change that keeps ids finds every id at the same position. */
  lemma SameIdsSameIndex(cards: seq<Card>, after: seq<Card>, id: CardId)
    requires |after| == |cards| && forall i :: 0 <= i < |cards| ==> after[i].id == cards[i].id
    ensures IdIndex(after, id) == IdIndex(cards, id)
  {
    Seqs.SameMatchesSameIndex(HasId(id), cards, after);
  }

  /** Turning a card up leaves every open card open. */
  lemma TurnUpKeepsOpen(cards: seq<Card>, id: CardId, x: CardId)
    requires IsOpen(cards, x)
    ensures IsOpen(TurnUp(cards, id), x)
  {
    SameIdsSameIndex(cards, TurnUp(cards, id), x);
  }

  /** The card turned up is open when it was not matched. */
  lemma TurnUpOpens(cards: seq<Card>, id: CardId)
    requires CardWithId(cards, id).Some? && !CardWithId(cards, id).value.matched
    ensures IsOpen(TurnUp(cards, id), id)
  {
    SameIdsSameIndex(cards, TurnUp(cards, id), id);
  }

  /** A click keeps the invariant, so no more than two cards are ever turned. */
  lemma ClickKeepsValid(s: Memory, id: CardId)
    requires Valid(s)
    ensures Valid(Click(s, id))
  {
    if Accepts(s, id) {
      var r := Click(s, id);
      assert r.cards == TurnUp(s.cards, id) && r.flipped == s.flipped + [id];
      forall i | 0 <= i < |r.flipped| ensures IsOpen(r.cards, r.flipped[i]) {
        if i < |s.flipped| {
          TurnUpKeepsOpen(s.cards, id, s.flipped[i]);
        } else {
          TurnUpOpens(s.cards, id);
        }
      }
      assert id !in s.flipped;
    }
  }

  /** A resolution keeps the invariant. */
  lemma ResolveKeepsValid(s: Memory, authenticated: bool)
    requires Valid(s)
    ensures Valid(Resolve(s, authenticated).state)
  {
  }

  /** Loading and starting keep the invariant, and a loaded deck has distinct card ids. */
  lemma LoadAndStartKeepValid(s: Memory, reply: Option<seq<Vocab>>, picks: seq<nat>)
    requires Valid(s)
    ensures Valid(Load(reply, picks))
    ensures Valid(Start(s))
    ensures Seqs.NoDuplicates(Seqs.Map(IdOf, Load(reply, picks).cards))
  {
    if reply.Some? && |reply.value| > 0 {
      PairsDistinctIds(reply.value);
      Shuffle.ShuffleKeepsDistinctKeys(IdOf, Pairs(reply.value), picks);
    }
  }

  /** The words of the deck, and those already matched. */
  ghost function Words(cards: seq<Card>): set<nat> {
    set c | c in cards :: c.vocabId
  }

  ghost function MatchedWords(cards: seq<Card>): set<nat> {
    set c | c in cards && c.matched :: c.vocabId
  }

  /** Matching is per word: the cards of one word are all matched or none is. */
  predicate Uniform(cards: seq<Card>) {
    forall i, j :: 0 <= i < |cards| && 0 <= j < |cards| && cards[i].vocabId == cards[j].vocabId ==>
      cards[i].matched == cards[j].matched
  }

  /**
   * The pair count counts matched words, and a scheduled pair is a word of
   * the deck not matched yet, scheduled with the current count.
   */
  ghost predicate Tally(s: Memory) {
    Uniform(s.cards)
    && s.matchedPairs == |MatchedWords(s.cards)|
    && (s.pending.Some? && s.pending.value.PairFound? ==>
          s.pending.value.pairsBefore == s.matchedPairs
          && s.pending.value.vocabId in Words(s.cards) - MatchedWords(s.cards))
  }

  /** A load starts the tally at zero: nothing is matched and nothing is scheduled. */
  lemma LoadTally(reply: Option<seq<Vocab>>, picks: seq<nat>)
    ensures Tally(Load(reply, picks))
  {
    var cards := Load(reply, picks).cards;
    forall c | c in cards ensures !c.matched {
      LoadedDeck(reply.value, picks, c);
    }
    assert MatchedWords(cards) == {};
  }

  /** The words of a loaded deck are exactly the words of the reply. */
  lemma LoadedWords(reply: seq<Vocab>, picks: seq<nat>)
    requires |reply| > 0
    ensures Words(Load(Some(reply), picks).cards) == set v | v in reply :: v.id
  {
    var cards := Load(Some(reply), picks).cards;
    forall x | x in Words(cards) ensures x in set v | v in reply :: v.id {
      var c :| c in cards && c.vocabId == x;
      LoadedDeck(reply, picks, c);
    }
    forall v | v in reply ensures v.id in Words(cards) {
      var i :| 0 <= i < |reply| && reply[i] == v;
      PairsInOrder(reply, i);
      assert Pairs(reply)[2 * i] in multiset(cards);
    }
  }

  /** A card-wise change that keeps words and matched flags keeps both word sets. */
  lemma SameWords(cards: seq<Card>, after: seq<Card>)
    requires |after| == |cards|
    requires forall i :: 0 <= i < |cards| ==> after[i].vocabId == cards[i].vocabId && after[i].matched == cards[i].matched
    ensures Words(after) == Words(cards) && MatchedWords(after) == MatchedWords(cards)
    ensures Uniform(cards) ==> Uniform(after)
  {
    forall x | x in Words(after) ensures x in Words(cards) {
      var c :| c in after && c.vocabId == x;
      var k :| 0 <= k < |after| && after[k] == c;
      assert cards[k] in cards;
    }
    forall x | x in Words(cards) ensures x in Words(after) {
      var c :| c in cards && c.vocabId == x;
      var k :| 0 <= k < |cards| && cards[k] == c;
      assert after[k] in after;
    }
    forall x | x in MatchedWords(after) ensures x in MatchedWords(cards) {
      var c :| c in after && c.matched && c.vocabId == x;
      var k :| 0 <= k < |after| && after[k] == c;
      assert cards[k] in cards;
    }
    forall x | x in MatchedWords(cards) ensures x in MatchedWords(after) {
      var c :| c in cards && c.matched && c.vocabId == x;
      var k :| 0 <= k < |cards| && cards[k] == c;
      assert after[k] in after;
    }
  }

  /** A click keeps the tally: the pair it schedules is of a card not matched yet. */
  lemma ClickKeepsTally(s: Memory, id: CardId)
    requires Valid(s) && Tally(s)
    ensures Tally(Click(s, id))
  {
    if Accepts(s, id) {
      var r := Click(s, id);
      SameWords(s.cards, r.cards);
      if |s.flipped| == 1 && r.pending.Some? && r.pending.value.PairFound? {
        var k := IdIndex(s.cards, id).value;
        var second := s.cards[k];
        assert r.pending.value.vocabId == second.vocabId;
        assert second in s.cards;
        forall c | c in s.cards && c.matched ensures c.vocabId != second.vocabId {
          var j :| 0 <= j < |s.cards| && s.cards[j] == c;
        }
      }
    }
  }

  /** Marking a word that was not matched adds exactly that word to the matched ones. */
  lemma MarkAddsWord(cards: seq<Card>, v: nat)
    requires Uniform(cards) && v in Words(cards) - MatchedWords(cards)
    ensures Uniform(MarkMatched(cards, v))
    ensures Words(MarkMatched(cards, v)) == Words(cards)
    ensures MatchedWords(MarkMatched(cards, v)) == MatchedWords(cards) + {v}
  {
    MarkKeepsUniform(cards, v);
    MarkKeepsWords(cards, v);
    MarkAddsMatched(cards, v);
  }

  lemma MarkKeepsUniform(cards: seq<Card>, v: nat)
    requires Uniform(cards)
    ensures Uniform(MarkMatched(cards, v))
  {
    var after := MarkMatched(cards, v);
    forall i, j | 0 <= i < |after| && 0 <= j < |after| && after[i].vocabId == after[j].vocabId
      ensures after[i].matched == after[j].matched
    {
      assert after[i].vocabId == cards[i].vocabId && after[j].vocabId == cards[j].vocabId;
    }
  }

  lemma MarkKeepsWords(cards: seq<Card>, v: nat)
    ensures Words(MarkMatched(cards, v)) == Words(cards)
  {
    var after := MarkMatched(cards, v);
    forall x | x in Words(after) ensures x in Words(cards) {
      var k :| 0 <= k < |after| && after[k].vocabId == x;
      assert cards[k] in cards;
    }
    forall x | x in Words(cards) ensures x in Words(after) {
      var k :| 0 <= k < |cards| && cards[k].vocabId == x;
      assert after[k] in after;
    }
  }

  lemma MarkAddsMatched(cards: seq<Card>, v: nat)
    requires v in Words(cards)
    ensures MatchedWords(MarkMatched(cards, v)) == MatchedWords(cards) + {v}
  {
    var after := MarkMatched(cards, v);
    forall x | x in MatchedWords(after) ensures x in MatchedWords(cards) + {v} {
      var k :| 0 <= k < |after| && after[k].matched && after[k].vocabId == x;
      assert cards[k] in cards;
    }
    forall x | x in MatchedWords(cards) + {v} ensures x in MatchedWords(after) {
      var k :| 0 <= k < |cards| && cards[k].vocabId == x && (x == v || cards[k].matched);
      assert after[k] in after;
    }
  }

  /** A resolution keeps the tally: a pair adds its word to the matched ones and one to the count. */
  lemma ResolveKeepsTally(s: Memory, authenticated: bool)
    requires Tally(s)
    ensures Tally(Resolve(s, authenticated).state)
  {
    var r := Resolve(s, authenticated).state;
    match s.pending
    case None =>
    case Some(PairFound(v, before)) =>
      MarkAddsWord(s.cards, v);
    case Some(Miss(ids)) =>
      SameWords(s.cards, r.cards);
  }

  /** The count never exceeds the number of words in the deck. */
  lemma PairsAtMostWords(s: Memory)
    requires Tally(s)
    ensures s.matchedPairs <= |Words(s.cards)|
  {
    SubsetSize(MatchedWords(s.cards), Words(s.cards));
  }

  lemma {:induction false} SubsetSize<T>(a: set<T>, b: set<T>)
    requires a <= b
    ensures |a| <= |b|
    decreases |a|
  {
    if a != {} {
      var x :| x in a;
      SubsetSize(a - {x}, b - {x});
    }
  }

  /**
   * With fewer than 15 distinct words on the table the game never
   * finishes: every pair adds a new word, and 15 is the only finishing count.
   */
  lemma FewWordsNeverFinish(s: Memory, authenticated: bool)
    requires Tally(s) && |Words(s.cards)| < PairsToWin && s.phase != Finished
    ensures Resolve(s, authenticated).state.phase != Finished
  {
    if s.pending.Some? && s.pending.value.PairFound? {
      MarkAddsWord(s.cards, s.pending.value.vocabId);
      PairsAtMostWords(Resolve(s, authenticated).state);
    }
  }
}
