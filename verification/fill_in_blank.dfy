/**
 * The fill-in-the-blank input of the quiz page: one text slot per gap,
 * romaji typed into a slot turned into hiragana, and the word put back
 * together from the display text and the slots. wanakana's `toHiragana`
 * and `isHiragana` are parameters.
 */
module FillInBlank {
  import Seqs
  import Strings
  import Quiz

  /** `reset(gapCount)`: that many empty slots. */
  function Reset(n: nat): (r: seq<string>)
    ensures |r| == n && forall i :: 0 <= i < n ==> r[i] == ""
  {
    seq(n, i => "")
  }

  /**
   * What a slot keeps of the typed `value`: its conversion cut to two
   * characters (a kana and a small kana) when the conversion is hiragana,
   * otherwise the raw text, so that half-typed romaji stays editable.
   */
  function SlotValue(value: string, toHiragana: string -> string, isHiragana: string -> bool): (r: string)
    ensures isHiragana(toHiragana(value)) ==>
      |r| == (if |toHiragana(value)| < 2 then |toHiragana(value)| else 2) && r == toHiragana(value)[..|r|]
    ensures !isHiragana(toHiragana(value)) ==> r == value
  {
    var converted := toHiragana(value);
    if isHiragana(converted) then (if |converted| < 2 then converted else converted[..2]) else value
  }

  /** `handleGapChange(index, value)`: slot `index` takes the slot value, and only that slot changes. */
  function GapChange(slots: seq<string>, index: nat, value: string,
                     toHiragana: string -> string, isHiragana: string -> bool): (r: seq<string>)
    requires index < |slots|
    ensures |r| == |slots| && r[index] == SlotValue(value, toHiragana, isHiragana)
    ensures forall j :: 0 <= j < |slots| && j != index ==> r[j] == slots[j]
  {
    slots[index := SlotValue(value, toHiragana, isHiragana)]
  }

  /** `isComplete`: at least one slot, and every slot non-empty and all hiragana. */
  predicate IsComplete(slots: seq<string>, isHiragana: string -> bool) {
    |slots| > 0 && forall i :: 0 <= i < |slots| ==> slots[i] != "" && isHiragana(slots[i])
  }

  /** Fresh slots are never complete; and filling every slot with hiragana completes them, whatever came before. */
  lemma CompleteAfterFilling(n: nat, slots: seq<string>, values: seq<string>,
                             toHiragana: string -> string, isHiragana: string -> bool)
    requires |values| == |slots| > 0
    requires forall i :: 0 <= i < |values| ==> isHiragana(toHiragana(values[i])) && |toHiragana(values[i])| > 0
    requires forall s :: |s| > 0 && isHiragana(s) ==> isHiragana(s[..(if |s| < 2 then |s| else 2)])
    ensures !IsComplete(Reset(n), isHiragana)
    ensures IsComplete(FillAll(slots, values, toHiragana, isHiragana, 0), isHiragana)
  {
    if n > 0 {
      assert Reset(n)[0] == "";
    }
    FillAllSlots(slots, values, toHiragana, isHiragana, 0);
    var r := FillAll(slots, values, toHiragana, isHiragana, 0);
    forall i | 0 <= i < |r| ensures r[i] != "" && isHiragana(r[i]) {
      var h := toHiragana(values[i]);
      assert r[i] == h[..(if |h| < 2 then |h| else 2)];
    }
  }

  /** Typing `values[k]` into slot k for every k from `from` on, in order. */
  function FillAll(slots: seq<string>, values: seq<string>, toHiragana: string -> string, isHiragana: string -> bool, from: nat): (r: seq<string>)
    requires |values| == |slots| && from <= |slots|
    ensures |r| == |slots|
    decreases |slots| - from
  {
    if from == |slots| then slots
    else FillAll(GapChange(slots, from, values[from], toHiragana, isHiragana), values, toHiragana, isHiragana, from + 1)
  }

  /** After filling from `from` on, slot i holds the value typed into it, and earlier slots are untouched. */
  lemma {:induction false} FillAllSlots(slots: seq<string>, values: seq<string>, toHiragana: string -> string, isHiragana: string -> bool, from: nat)
    requires |values| == |slots| && from <= |slots|
    ensures forall i :: from <= i < |slots| ==>
      FillAll(slots, values, toHiragana, isHiragana, from)[i] == SlotValue(values[i], toHiragana, isHiragana)
    ensures forall i :: 0 <= i < from ==> FillAll(slots, values, toHiragana, isHiragana, from)[i] == slots[i]
    decreases |slots| - from
  {
    if from < |slots| {
      FillAllSlots(GapChange(slots, from, values[from], toHiragana, isHiragana), values, toHiragana, isHiragana, from + 1);
    }
  }

  /**
   * JavaScript's `chars[i] = v` on an array of strings: in range it
   * replaces, past the end it leaves holes (joined as nothing), and a
   * negative index is not an array element at all.
   */
  function Assign(pieces: seq<string>, i: int, v: string): (r: seq<string>)
    ensures 0 <= i < |pieces| ==> r == pieces[i := v]
    ensures i < 0 ==> r == pieces
    ensures i >= |pieces| ==> |r| == i + 1 && r[..|pieces|] == pieces && r[i] == v
  {
    if 0 <= i < |pieces| then pieces[i := v]
    else if i < 0 then pieces
    else pieces + seq(i - |pieces|, _ => "") + [v]
  }

  /** The `forEach` of `reconstructWord`: gap k gets slot k when that slot exists and is non-empty. */
  function Place(pieces: seq<string>, gaps: seq<int>, slots: seq<string>): (r: seq<string>)
    decreases |gaps|
  {
    if |gaps| == 0 then pieces
    else
      var next := if |slots| > 0 && slots[0] != "" then Assign(pieces, gaps[0], slots[0]) else pieces;
      Place(next, gaps[1..], if |slots| > 0 then slots[1..] else [])
  }

  /** The display text's characters, one string each (`split('')`). */
  function Pieces(display: string): (r: seq<string>)
    ensures |r| == |display| && forall i :: 0 <= i < |display| ==> r[i] == [display[i]]
  {
    Seqs.Map((c: char) => [c], display)
  }

  /** `reconstructWord(displayText, gapIndices)`. */
  function ReconstructWord(display: string, gaps: seq<int>, slots: seq<string>): string {
    Strings.Concat(Place(Pieces(display), gaps, slots))
  }

  /** With the gaps inside the text, positions that are not gaps keep their piece. */
  lemma {:induction false} PlaceKeepsOthers(pieces: seq<string>, gaps: seq<int>, slots: seq<string>, i: nat)
    requires forall k :: 0 <= k < |gaps| ==> 0 <= gaps[k] < |pieces|
    requires i < |pieces| && i !in gaps
    ensures |Place(pieces, gaps, slots)| == |pieces| && Place(pieces, gaps, slots)[i] == pieces[i]
    decreases |gaps|
  {
    if |gaps| > 0 {
      var next := if |slots| > 0 && slots[0] != "" then Assign(pieces, gaps[0], slots[0]) else pieces;
      assert i !in gaps[1..];
      PlaceKeepsOthers(next, gaps[1..], if |slots| > 0 then slots[1..] else [], i);
    }
  }

  /** Writing into every gap a non-empty slot holding what `target` has there turns `pieces` into `target`. */
  lemma {:induction false} PlaceFillsGaps(pieces: seq<string>, target: seq<string>, gaps: seq<int>, slots: seq<string>)
    requires |pieces| == |target| && |slots| == |gaps|
    requires forall k :: 0 <= k < |gaps| ==> 0 <= gaps[k] < |pieces| && slots[k] != "" && slots[k] == target[gaps[k]]
    requires forall i :: 0 <= i < |pieces| && i !in gaps ==> pieces[i] == target[i]
    ensures Place(pieces, gaps, slots) == target
    decreases |gaps|
  {
    if |gaps| > 0 {
      var next := pieces[gaps[0] := slots[0]];
      forall i | 0 <= i < |next| && i !in gaps[1..] ensures next[i] == target[i] {
        if i != gaps[0] {
          assert i !in gaps;
        }
      }
      PlaceFillsGaps(next, target, gaps[1..], slots[1..]);
    }
  }

  /** Joining one-character pieces gives back the text. */
  lemma {:induction false} ConcatPieces(s: string)
    ensures Strings.Concat(Pieces(s)) == s
  {
    if |s| > 0 {
      assert Pieces(s)[1..] == Pieces(s[1..]);
      ConcatPieces(s[1..]);
    }
  }

  /** The slots a player fills in correctly: the reading's character at each gap. */
  function RightSlots(reading: string, gaps: seq<int>): (r: seq<string>)
    requires forall k :: 0 <= k < |gaps| ==> 0 <= gaps[k] < |reading|
    ensures |r| == |gaps| && forall k :: 0 <= k < |gaps| ==> r[k] == [reading[gaps[k]]]
  {
    Seqs.Map((i: int) => if 0 <= i < |reading| then [reading[i]] else "", gaps)
  }

  /**
   * Round trip with the back end's puzzle builder: filling every gap of a
   * puzzle with the reading's character there reconstructs the reading.
   */
  lemma FillInBlankRoundTrip(reading: string, picks: seq<nat>)
    requires |reading| > 0
    ensures var b := Quiz.CreateFillInBlank(reading, picks);
      ReconstructWord(b.display, b.gaps, RightSlots(reading, b.gaps)) == reading
  {
    var b := Quiz.CreateFillInBlank(reading, picks);
    PlaceFillsGaps(Pieces(b.display), Pieces(reading), b.gaps, RightSlots(reading, b.gaps));
    ConcatPieces(reading);
  }

  /** Empty slots reconstruct the display text unchanged, blanks included. */
  lemma {:induction false} EmptySlotsShowDisplay(display: string, gaps: seq<int>, n: nat)
    ensures ReconstructWord(display, gaps, Reset(n)) == display
  {
    EmptySlotsKeepPieces(Pieces(display), gaps, Reset(n));
    ConcatPieces(display);
  }

  lemma {:induction false} EmptySlotsKeepPieces(pieces: seq<string>, gaps: seq<int>, slots: seq<string>)
    requires forall k :: 0 <= k < |slots| ==> slots[k] == ""
    ensures Place(pieces, gaps, slots) == pieces
    decreases |gaps|
  {
    if |gaps| > 0 {
      EmptySlotsKeepPieces(pieces, gaps[1..], if |slots| > 0 then slots[1..] else []);
    }
  }
}
