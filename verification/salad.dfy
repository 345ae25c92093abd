/**
 * The Salad game: kana of a round are shown twice, as draggable romaji
 * cards and as kana cards, each column in its own random order. Dropping a
 * romaji card on a kana card with the same romaji matches them; the round
 * ends when every romaji card is matched or when the countdown runs out.
 * The drag-and-drop handlers, the one-second interval and the kana
 * request's reply are events and arguments; `Array.sort` with a random
 * comparator is modelled as a permutation chosen by `picks`.
 */
module SaladGame {
  import opened Wrappers
  import opened KanaTables
  import Seqs
  import Shuffle

  datatype Phase = Loading | Ready | Playing | Finished | TimedOut

  /** The card ids `romaji-${i}` and `kana-${i}`. */
  datatype CardId = RomajiCard(i: nat) | KanaCard(i: nat)

  datatype Card = Card(id: CardId, romaji: string, kana: string, matched: bool)

  datatype Salad = Salad(
    phase: Phase,
    romajiCards: seq<Card>,
    kanaCards: seq<Card>,
    timeLimit: nat,
    timeRemaining: nat,
    matchedCount: nat,
    errors: nat,
    dragged: Option<Card>)

  /** A transition and the score it submits, if any. */
  datatype Step = Step(state: Salad, submit: Option<nat>)

  function IdOf(c: Card): CardId { c.id }
  function RomajiOf(c: Card): string { c.romaji }
  function ItemRomaji(k: KanaItem): string { k.romaji }
  function IsMatched(c: Card): bool { c.matched }
  function IsUnmatched(c: Card): bool { !c.matched }

  /** The cards of one column: item i gets the id `make(i)`, unmatched. */
  function Cards(items: seq<KanaItem>, make: nat -> CardId): (r: seq<Card>)
    ensures |r| == |items|
    ensures forall i :: 0 <= i < |items| ==> r[i] == Card(make(i), items[i].romaji, items[i].kana, false)
  {
    seq(|items|, i requires 0 <= i < |items| => Card(make(i), items[i].romaji, items[i].kana, false))
  }

  function MakeRomaji(i: nat): CardId { RomajiCard(i) }
  function MakeKana(i: nat): CardId { KanaCard(i) }

  /**
   * `loadKana` with the reply of the kana request (`None` when it fails)
   * and the two sorts' random choices. Romaji cards are numbered in reply
   * order and then shuffled; kana cards are numbered after their shuffle.
   * A failed request only leaves the loading screen.
   */
  function Load(s: Salad, reply: Option<seq<KanaItem>>, kanaPicks: seq<nat>, romajiPicks: seq<nat>): (r: Salad)
    ensures reply.None? ==> r == s.(phase := Ready)
    ensures reply.Some? ==>
      r.phase == Ready && r.matchedCount == 0 && r.errors == 0 && r.timeRemaining == s.timeLimit
      && r.timeLimit == s.timeLimit && r.dragged == s.dragged
      && |r.romajiCards| == |r.kanaCards| == |reply.value|
      && multiset(r.romajiCards) == multiset(Cards(reply.value, MakeRomaji))
      && (forall c :: c in r.romajiCards + r.kanaCards ==> !c.matched)
  {
    match reply
    case None => s.(phase := Ready)
    case Some(items) =>
      var kana := Cards(Shuffle.Shuffle(items, kanaPicks), MakeKana);
      var romaji := Shuffle.Shuffle(Cards(items, MakeRomaji), romajiPicks);
      s.(phase := Ready, romajiCards := romaji, kanaCards := kana, matchedCount := 0, errors := 0,
         timeRemaining := s.timeLimit)
  }

  /** After a load both columns hold the same romaji, as many times each as the reply. */
  lemma LoadedColumnsAgree(s: Salad, items: seq<KanaItem>, kanaPicks: seq<nat>, romajiPicks: seq<nat>)
    ensures var r := Load(s, Some(items), kanaPicks, romajiPicks);
      multiset(Seqs.Map(RomajiOf, r.romajiCards)) == multiset(Seqs.Map(ItemRomaji, items))
      && multiset(Seqs.Map(RomajiOf, r.kanaCards)) == multiset(Seqs.Map(ItemRomaji, items))
  {
    RomajiColumn(items, romajiPicks);
    KanaColumn(items, kanaPicks);
  }

  lemma RomajiColumn(items: seq<KanaItem>, picks: seq<nat>)
    ensures multiset(Seqs.Map(RomajiOf, Shuffle.Shuffle(Cards(items, MakeRomaji), picks))) == multiset(Seqs.Map(ItemRomaji, items))
  {
    var romaji := Cards(items, MakeRomaji);
    Shuffle.ShuffleCommutesWithMap(RomajiOf, romaji, picks);
    assert Seqs.Map(RomajiOf, romaji) == Seqs.Map(ItemRomaji, items);
  }

  lemma KanaColumn(items: seq<KanaItem>, picks: seq<nat>)
    ensures multiset(Seqs.Map(RomajiOf, Cards(Shuffle.Shuffle(items, picks), MakeKana))) == multiset(Seqs.Map(ItemRomaji, items))
  {
    var shuffled := Shuffle.Shuffle(items, picks);
    assert Seqs.Map(RomajiOf, Cards(shuffled, MakeKana)) == Seqs.Map(ItemRomaji, shuffled);
    Shuffle.ShuffleCommutesWithMap(ItemRomaji, items, picks);
  }

  /** `startGame`. */
  function Start(s: Salad): (r: Salad)
    ensures r == s.(phase := Playing)
  {
    s.(phase := Playing)
  }

  /** `restartGame`: a new load, then straight to playing, even when the request failed. */
  function Restart(s: Salad, reply: Option<seq<KanaItem>>, kanaPicks: seq<nat>, romajiPicks: seq<nat>): (r: Salad)
    ensures r == Load(s, reply, kanaPicks, romajiPicks).(phase := Playing)
  {
    Start(Load(s, reply, kanaPicks, romajiPicks))
  }

  /** The romaji cards on the board: only the unmatched ones are rendered. */
  function OnBoard(s: Salad): (r: seq<Card>)
    ensures forall c :: c in r <==> c in s.romajiCards && !c.matched
  {
    Seqs.Filter(IsUnmatched, s.romajiCards)
  }

  /** `handleDragStart` on the k-th romaji card on the board; the board is rendered only while playing. */
  function DragStart(s: Salad, k: nat): (r: Salad)
    ensures s.phase == Playing && k < |OnBoard(s)| ==> r == s.(dragged := Some(OnBoard(s)[k]))
    ensures !(s.phase == Playing && k < |OnBoard(s)|) ==> r == s
  {
    if s.phase == Playing && k < |OnBoard(s)| then s.(dragged := Some(OnBoard(s)[k])) else s
  }

  /** The romaji cards with the card `id` matched. */
  function MarkCard(cards: seq<Card>, id: CardId): (r: seq<Card>)
    ensures |r| == |cards|
    ensures forall i :: 0 <= i < |cards| ==> r[i] == if cards[i].id == id then cards[i].(matched := true) else cards[i]
  {
    Seqs.Map((c: Card) => if c.id == id then c.(matched := true) else c, cards)
  }

  /** The kana cards with every card of `romaji` matched. */
  function MarkRomaji(cards: seq<Card>, romaji: string): (r: seq<Card>)
    ensures |r| == |cards|
    ensures forall i :: 0 <= i < |cards| ==> r[i] == if cards[i].romaji == romaji then cards[i].(matched := true) else cards[i]
  {
    Seqs.Map((c: Card) => if c.romaji == romaji then c.(matched := true) else c, cards)
  }

  /**
   * `handleDrop` on the t-th kana card (rendered only while playing). No
   * card dragged, or a matched target, only ends the drag. Otherwise equal
   * romaji match: the dragged card and every kana card with that romaji are
   * matched and the count goes up by one, and when it reaches the number
   * of romaji cards the round is finished and a logged-in player submits
   * the count; different romaji count an error. The drag ends either way.
   */
  function Drop(s: Salad, t: nat, authenticated: bool): (r: Step)
    ensures !(s.phase == Playing && t < |s.kanaCards|) ==> r == Step(s, None)
    ensures s.phase == Playing && t < |s.kanaCards| && (s.dragged.None? || s.kanaCards[t].matched) ==>
      r == Step(s.(dragged := None), None)
    ensures s.phase == Playing && t < |s.kanaCards| && s.dragged.Some? && !s.kanaCards[t].matched ==>
      var target := s.kanaCards[t];
      var card := s.dragged.value;
      r.state.dragged.None?
      && (card.romaji == target.romaji ==>
            r.state.romajiCards == MarkCard(s.romajiCards, card.id)
            && r.state.kanaCards == MarkRomaji(s.kanaCards, target.romaji)
            && r.state.matchedCount == s.matchedCount + 1 && r.state.errors == s.errors
            && (r.state.phase == Finished <==> s.matchedCount + 1 == |s.romajiCards|)
            && (r.submit.Some? <==> authenticated && s.matchedCount + 1 == |s.romajiCards|)
            && (r.submit.Some? ==> r.submit.value == s.matchedCount + 1))
      && (card.romaji != target.romaji ==>
            r == Step(s.(dragged := None, errors := s.errors + 1), None))
  {
    if !(s.phase == Playing && t < |s.kanaCards|) then Step(s, None)
    else
      var target := s.kanaCards[t];
      match s.dragged
      case None => Step(s.(dragged := None), None)
      case Some(card) =>
        if target.matched then Step(s.(dragged := None), None)
        else if card.romaji == target.romaji then
          var count := s.matchedCount + 1;
          var next := s.(romajiCards := MarkCard(s.romajiCards, card.id),
                         kanaCards := MarkRomaji(s.kanaCards, target.romaji),
                         matchedCount := count, dragged := None);
          if count == |s.romajiCards| then Step(next.(phase := Finished), if authenticated then Some(count) else None)
          else Step(next, None)
        else Step(s.(dragged := None, errors := s.errors + 1), None)
  }

  /**
   * One second of the interval, which runs only while playing with time
   * left: the remaining time goes down by one, and the last second sets it
   * to zero and times the round out; a logged-in player with at least one
   * match submits the count.
   */
  function Tick(s: Salad, authenticated: bool): (r: Step)
    ensures !(s.phase == Playing && s.timeRemaining > 0) ==> r == Step(s, None)
    ensures s.phase == Playing && s.timeRemaining > 1 ==> r == Step(s.(timeRemaining := s.timeRemaining - 1), None)
    ensures s.phase == Playing && s.timeRemaining == 1 ==>
      r.state == s.(timeRemaining := 0, phase := TimedOut)
      && (r.submit.Some? <==> authenticated && s.matchedCount > 0)
      && (r.submit.Some? ==> r.submit.value == s.matchedCount)
  {
    if !(s.phase == Playing && s.timeRemaining > 0) then Step(s, None)
    else if s.timeRemaining <= 1 then
      Step(s.(timeRemaining := 0, phase := TimedOut), if authenticated && s.matchedCount > 0 then Some(s.matchedCount) else None)
    else Step(s.(timeRemaining := s.timeRemaining - 1), None)
  }

  /**
   * The game's invariant: romaji card ids are distinct, the count is the
   * number of matched romaji cards, and a dragged card is an unmatched
   * romaji card of the round.
   */
  predicate Valid(s: Salad) {
    Seqs.NoDuplicates(Seqs.Map(IdOf, s.romajiCards))
    && s.matchedCount == Seqs.Count(IsMatched, s.romajiCards)
    && (s.dragged.Some? ==> s.dragged.value in s.romajiCards && !s.dragged.value.matched)
  }

  /** Matching the one unmatched card with a given id adds exactly one to the matched count. */
  lemma {:induction false} MarkCardCount(cards: seq<Card>, c: Card)
    requires Seqs.NoDuplicates(Seqs.Map(IdOf, cards)) && c in cards && !c.matched
    ensures Seqs.Count(IsMatched, MarkCard(cards, c.id)) == Seqs.Count(IsMatched, cards) + 1
  {
    var r := MarkCard(cards, c.id);
    var ids := Seqs.Map(IdOf, cards);
    assert r[1..] == MarkCard(cards[1..], c.id);
    if cards[0] == c {
      forall i | 0 <= i < |cards| - 1 ensures r[1..][i] == cards[1..][i] {
        assert ids[0] != ids[i + 1];
      }
      assert r[1..] == cards[1..];
    } else {
      assert ids[1..] == Seqs.Map(IdOf, cards[1..]);
      MarkCardCount(cards[1..], c);
    }
  }

  /** Marking a card keeps the ids. */
  lemma MarkCardKeepsIds(cards: seq<Card>, id: CardId)
    ensures Seqs.Map(IdOf, MarkCard(cards, id)) == Seqs.Map(IdOf, cards)
  {
  }

  /** A drop keeps the invariant, so the count always equals the matched romaji cards. */
  lemma DropKeepsValid(s: Salad, t: nat, authenticated: bool)
    requires Valid(s)
    ensures Valid(Drop(s, t, authenticated).state)
  {
    var r := Drop(s, t, authenticated).state;
    if s.phase == Playing && t < |s.kanaCards| && s.dragged.Some? && !s.kanaCards[t].matched
       && s.dragged.value.romaji == s.kanaCards[t].romaji {
      var card := s.dragged.value;
      assert r.romajiCards == MarkCard(s.romajiCards, card.id);
      assert r.matchedCount == s.matchedCount + 1 && r.dragged.None?;
      MarkCardCount(s.romajiCards, card);
      MarkCardKeepsIds(s.romajiCards, card.id);
    }
  }

  /** Starting a drag, ticking and starting keep the invariant. */
  lemma EventsKeepValid(s: Salad, k: nat, authenticated: bool)
    requires Valid(s)
    ensures Valid(DragStart(s, k))
    ensures Valid(Tick(s, authenticated).state)
    ensures Valid(Start(s))
  {
    if s.phase == Playing && k < |OnBoard(s)| {
      assert OnBoard(s)[k] in OnBoard(s);
    }
  }

  /** A load keeps the invariant when no drag is left over from the previous round. */
  lemma LoadKeepsValid(s: Salad, reply: Option<seq<KanaItem>>, kanaPicks: seq<nat>, romajiPicks: seq<nat>)
    requires Valid(s) && s.dragged.None?
    ensures Valid(Load(s, reply, kanaPicks, romajiPicks))
  {
    if reply.Some? {
      var r := Load(s, reply, kanaPicks, romajiPicks);
      var cards := Cards(reply.value, MakeRomaji);
      var ids := Seqs.Map(IdOf, cards);
      forall i, j | 0 <= i < j < |ids| ensures ids[i] != ids[j] {
        assert ids[i] == RomajiCard(i) && ids[j] == RomajiCard(j);
      }
      assert r.romajiCards == Shuffle.Shuffle(cards, romajiPicks);
      Shuffle.ShuffleKeepsDistinctKeys(IdOf, cards, romajiPicks);
      forall i | 0 <= i < |r.romajiCards| ensures !IsMatched(r.romajiCards[i]) {
        assert r.romajiCards[i] in r.romajiCards + r.kanaCards;
      }
    }
  }

  /** The count never exceeds the number of romaji cards, and a finished round has every romaji card matched. */
  lemma FinishedMeansAllMatched(s: Salad, t: nat, authenticated: bool)
    requires Valid(s)
    ensures s.matchedCount <= |s.romajiCards|
    ensures var r := Drop(s, t, authenticated).state;
      s.phase == Playing && r.phase == Finished ==> forall c :: c in r.romajiCards ==> c.matched
  {
    var r := Drop(s, t, authenticated).state;
    DropKeepsValid(s, t, authenticated);
  }

  /** The remaining time never goes up while playing, and the round times out exactly at zero. */
  lemma TickCountsDown(s: Salad, authenticated: bool)
    requires s.phase == Playing && s.timeRemaining > 0
    ensures var r := Tick(s, authenticated).state;
      r.timeRemaining == s.timeRemaining - 1 && (r.phase == TimedOut <==> r.timeRemaining == 0)
  {
  }
}
