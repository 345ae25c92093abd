/**
 * The administrator's vocabulary table: paging through the listing, the
 * search form, the add form's required fields, and the tag chips shown for
 * each entry.
 */
module VocabularyTable {
  import opened Wrappers
  import Seqs
  import Strings
  import Schemas

  /** The page size the table asks the listing endpoint for. */
  const PageSize: nat := 15

  datatype NewVocab = NewVocab(expression: string, reading: string, meaning: string, tags: string)

  datatype Table = Table(
    page: int,
    totalPages: int,
    search: string,
    error: Option<string>,
    adding: bool,
    newVocab: NewVocab)

  /** An outcome of a request: the reply, or the message of the error it raised. */
  datatype Outcome<T> = Replied(value: T) | Raised(message: string)

  /** A listing request: the page and the search text. */
  datatype Load = Load(page: int, search: string)

  const EmptyForm: NewVocab := NewVocab("", "", "", "")

  // ---------------------------------------------------------------------
  // Paging
  // ---------------------------------------------------------------------

  /** The pager is shown only when there is more than one page. */
  predicate PagerShown(t: Table) {
    t.totalPages > 1
  }

  /** "Previous" is disabled on page 1, "Next" on the last page. */
  predicate PreviousEnabled(t: Table) { PagerShown(t) && t.page != 1 }
  predicate NextEnabled(t: Table) { PagerShown(t) && t.page != t.totalPages }

  /** "Previous": one page back, never below 1. */
  function Previous(t: Table): (r: Table)
    ensures r.page == if t.page - 1 >= 1 then t.page - 1 else 1
    ensures r.(page := t.page) == t
  {
    t.(page := if t.page - 1 >= 1 then t.page - 1 else 1)
  }

  /** "Next": one page on, never beyond the last page. */
  function Next(t: Table): (r: Table)
    ensures r.page == if t.page + 1 <= t.totalPages then t.page + 1 else t.totalPages
    ensures r.(page := t.page) == t
  {
    t.(page := if t.page + 1 <= t.totalPages then t.page + 1 else t.totalPages)
  }

  predicate PageInRange(t: Table) {
    1 <= t.page <= t.totalPages
  }

  /**
   * Clicking an enabled pager button moves exactly one page and keeps the
   * page within 1 and the page count.
   */
  lemma PagerStepsByOne(t: Table)
    requires PageInRange(t)
    ensures PreviousEnabled(t) ==> Previous(t).page == t.page - 1 && PageInRange(Previous(t))
    ensures NextEnabled(t) ==> Next(t).page == t.page + 1 && PageInRange(Next(t))
  {
  }

  /**
   * When the page count shrinks below the current page (a search typed on a
   * later page, or entries deleted on the last page), "Next" stays enabled
   * and moves back to the last page.
   */
  lemma NextPastTheEndGoesBack(t: Table)
    requires t.totalPages > 1 && t.page > t.totalPages
    ensures NextEnabled(t) && Next(t).page == t.totalPages && Next(t).page < t.page
  {
  }

  /**
   * Submitting the search form: back to page 1. The handler reloads at
   * once with the page it saw, and the page change triggers one more load,
   * of page 1, unless the table already was on page 1.
   */
  function SubmitSearch(t: Table): (r: (Table, seq<Load>))
    ensures r.0 == t.(page := 1)
    ensures |r.1| >= 1 && r.1[|r.1| - 1] == Load(1, t.search)
    ensures r.1[0] == Load(t.page, t.search)
    ensures |r.1| == if t.page == 1 then 1 else 2
  {
    (t.(page := 1), if t.page == 1 then [Load(1, t.search)] else [Load(t.page, t.search), Load(1, t.search)])
  }

  /**
   * Typing in the search box: the text changes and, because the listing
   * depends on it, the current page is reloaded with the new text at every
   * keystroke. The page itself is not reset.
   */
  function EditSearch(t: Table, s: string): (r: (Table, seq<Load>))
    ensures r.0.page == t.page && r.0.search == s
    ensures r.0.(search := t.search) == t
    ensures r.1 == [Load(t.page, s)]
  {
    (t.(search := s), [Load(t.page, s)])
  }

  /**
   * The end of a listing request: a reply sets the page count and clears
   * the error; a failure keeps the old count and shows its message.
   */
  function Loaded(t: Table, reply: Outcome<int>): (r: Table)
    ensures r.page == t.page && r.search == t.search
    ensures reply.Replied? ==> r.totalPages == reply.value && r.error.None?
    ensures reply.Raised? ==> r.totalPages == t.totalPages && r.error == Some(reply.message)
  {
    match reply
    case Replied(n) => t.(totalPages := n, error := None)
    case Raised(m) => t.(error := Some(m))
  }

  /**
   * A search typed while on page p asks for page p of the filtered listing.
   * When that listing has fewer than p pages (but more than one), the table
   * still shows page p, and "Next" is what takes it back to the last page.
   */
  lemma TypedSearchOutrunsListing(t: Table, s: string, n: int)
    requires 1 < n < t.page
    ensures var (t1, loads) := EditSearch(t, s);
      var t2 := Loaded(t1, Replied(n));
      loads == [Load(t.page, s)] && t2.page == t.page && !PageInRange(t2)
      && NextEnabled(t2) && Next(t2).page == n
  {
    var t2 := Loaded(EditSearch(t, s).0, Replied(n));
    NextPastTheEndGoesBack(t2);
  }

  // ---------------------------------------------------------------------
  // Adding an entry
  // ---------------------------------------------------------------------

  /** The add form's check: expression, reading and meaning all filled in. */
  predicate Complete(v: NewVocab) {
    v.expression != "" && v.reading != "" && v.meaning != ""
  }

  /**
   * `handleAddNew` with the outcome of the request: nothing without a
   * login token; an incomplete form only shows an error; otherwise the
   * entry is sent, and a success empties and closes the form and reloads.
   */
  function AddNew(t: Table, hasToken: bool, reply: Outcome<()>): (r: (Table, Option<NewVocab>, bool))
    ensures !hasToken ==> r == (t, None, false)
    ensures hasToken && !Complete(t.newVocab) ==>
      r == (t.(error := Some("Expression, reading, and meaning are required")), None, false)
    ensures hasToken && Complete(t.newVocab) ==> r.1 == Some(t.newVocab)
    ensures hasToken && Complete(t.newVocab) && reply.Replied? ==> r == (t.(newVocab := EmptyForm, adding := false), Some(t.newVocab), true)
    ensures hasToken && Complete(t.newVocab) && reply.Raised? ==> r == (t.(error := Some(reply.message)), Some(t.newVocab), false)
  {
    if !hasToken then (t, None, false)
    else if !Complete(t.newVocab) then (t.(error := Some("Expression, reading, and meaning are required")), None, false)
    else match reply
      case Replied(_) => (t.(newVocab := EmptyForm, adding := false), Some(t.newVocab), true)
      case Raised(m) => (t.(error := Some(m)), Some(t.newVocab), false)
  }

  /**
   * The form's check is the lower half of the server's field bounds: what
   * it sends is rejected by the server only for being too long, and what
   * the server would accept is never stopped by the form.
   */
  lemma AddFormMatchesSchema(t: Table, reply: Outcome<()>)
    requires |t.newVocab.expression| <= 255 && |t.newVocab.reading| <= 255 && |t.newVocab.meaning| <= 1000
    ensures AddNew(t, true, reply).1.Some? <==>
      Schemas.ValidVocabularyFields(t.newVocab.expression, t.newVocab.reading, t.newVocab.meaning)
  {
  }

  // ---------------------------------------------------------------------
  // Tag chips
  // ---------------------------------------------------------------------

  predicate NonEmpty(s: string) { s != "" }

  /** `tags.split(' ').filter(Boolean)`: the tags between single spaces, empty ones dropped. */
  function DisplayTags(tags: string): (r: seq<string>)
    ensures forall t :: t in r ==> t != "" && ' ' !in t
  {
    Seqs.Filter(NonEmpty, Strings.Split(tags, ' '))
  }

  function IsNotSpace(c: char): bool { c != ' ' }

  /** The chips hold every character of the tag string except the spaces, in order. */
  lemma {:induction false} DisplayTagsKeepText(tags: string)
    ensures Strings.Concat(DisplayTags(tags)) == Seqs.Filter(IsNotSpace, tags)
  {
    if |tags| > 0 {
      DisplayTagsKeepText(tags[1..]);
      var rest := Strings.Split(tags[1..], ' ');
      ConcatDropsEmpty(rest);
      if tags[0] != ' ' {
        var parts := [[tags[0]] + rest[0]] + rest[1..];
        assert parts[1..] == rest[1..];
        assert Strings.Concat(Seqs.Filter(NonEmpty, parts)) == [tags[0]] + rest[0] + Strings.Concat(Seqs.Filter(NonEmpty, rest[1..]));
      }
    }
  }

  /** Dropping empty parts does not change their concatenation; stated for the first part. */
  lemma ConcatDropsEmpty(parts: seq<string>)
    requires |parts| >= 1
    ensures Strings.Concat(Seqs.Filter(NonEmpty, parts)) == parts[0] + Strings.Concat(Seqs.Filter(NonEmpty, parts[1..]))
  {
    if parts[0] == "" {
      assert parts[0] + Strings.Concat(Seqs.Filter(NonEmpty, parts[1..])) == Strings.Concat(Seqs.Filter(NonEmpty, parts[1..]));
    }
  }
}
