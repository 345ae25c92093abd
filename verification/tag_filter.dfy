/**
 * The tag filter of the quiz and game pages: clicking a tag selects or
 * deselects it, and "clear" deselects everything.
 */
module TagFilter {
  import Seqs

  function IsNot(tag: string): string -> bool {
    (t: string) => t != tag
  }

  /**
   * `toggleTag`: a selected tag is removed wherever it occurs; any other
   * tag is appended at the end.
   */
  function Toggle(selected: seq<string>, tag: string): (r: seq<string>)
    ensures tag in selected ==> tag !in r && forall t :: t in r <==> t in selected && t != tag
    ensures tag !in selected ==> r == selected + [tag]
  {
    if tag in selected then Seqs.Filter(IsNot(tag), selected) else selected + [tag]
  }

  /** `clearAll`. */
  function ClearAll(selected: seq<string>): (r: seq<string>)
    ensures |r| == 0
  {
    []
  }

  /** Removing a tag that does not occur changes nothing. */
  lemma {:induction false} FilterAbsent(s: seq<string>, tag: string)
    requires tag !in s
    ensures Seqs.Filter(IsNot(tag), s) == s
  {
    if |s| > 0 {
      FilterAbsent(s[1..], tag);
      assert [s[0]] + s[1..] == s;
    }
  }

  lemma {:induction false} FilterDropsLast(s: seq<string>, tag: string)
    ensures Seqs.Filter(IsNot(tag), s + [tag]) == Seqs.Filter(IsNot(tag), s)
  {
    if |s| == 0 {
      assert s + [tag] == [tag];
    } else {
      assert (s + [tag])[1..] == s[1..] + [tag];
      FilterDropsLast(s[1..], tag);
    }
  }

  /** Selecting a tag and then deselecting it restores the selection, order included. */
  lemma ToggleTwiceRestores(selected: seq<string>, tag: string)
    requires tag !in selected
    ensures Toggle(Toggle(selected, tag), tag) == selected
  {
    assert tag in selected + [tag];
    FilterDropsLast(selected, tag);
    FilterAbsent(selected, tag);
  }

  /**
   * Deselecting a tag takes it out where it stands and keeps the tags
   * before and after it, in their order.
   */
  lemma ToggleRemovesInPlace(before: seq<string>, tag: string, after: seq<string>)
    requires tag !in before && tag !in after
    ensures Toggle(before + [tag] + after, tag) == before + after
  {
    var s := before + [tag] + after;
    assert s[|before|] == tag;
    var f := IsNot(tag);
    Seqs.FilterAppend(f, before + [tag], after);
    Seqs.FilterAppend(f, before, [tag]);
    assert Seqs.Filter(f, [tag]) == [];
    FilterAbsent(before, tag);
    FilterAbsent(after, tag);
    assert Seqs.Filter(f, before + [tag]) == before;
  }

  /** A selection made only by clicking never holds a tag twice. */
  lemma {:induction false} ToggleKeepsDistinct(selected: seq<string>, tag: string)
    requires Seqs.NoDuplicates(selected)
    ensures Seqs.NoDuplicates(Toggle(selected, tag))
  {
    if tag in selected {
      FilterKeepsDistinct(selected, tag);
    }
  }

  lemma {:induction false} FilterKeepsDistinct(s: seq<string>, tag: string)
    requires Seqs.NoDuplicates(s)
    ensures Seqs.NoDuplicates(Seqs.Filter(IsNot(tag), s))
  {
    if |s| > 0 {
      FilterKeepsDistinct(s[1..], tag);
      assert s[0] !in s[1..];
    }
  }
}
