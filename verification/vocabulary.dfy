/**
 * The vocabulary endpoints: search and tag filters built from escaped
 * `ILIKE` patterns, pagination, the tag list, random selection for the
 * games, and the administrator's create, update and delete. Entries are
 * stored in creation order, so "newest first" is the stored order reversed.
 */
module Vocabulary {
  import opened Wrappers
  import opened Models
  import Seqs
  import Strings
  import Shuffle
  import Schemas
  import SqlLike
  import Auth

  // ---------------------------------------------------------------------
  // Escaping LIKE patterns
  // ---------------------------------------------------------------------

  /** Python `s.replace(c, rep)` for a one-character `c`. */
  function ReplaceAll(s: string, c: char, rep: string): (r: string)
    ensures c !in s ==> r == s
  {
    if |s| == 0 then "" else (if s[0] == c then rep else [s[0]]) + ReplaceAll(s[1..], c, rep)
  }

  lemma {:induction false} ReplaceAllAppend(a: string, b: string, c: char, rep: string)
    ensures ReplaceAll(a + b, c, rep) == ReplaceAll(a, c, rep) + ReplaceAll(b, c, rep)
  {
    if |a| == 0 {
      assert a + b == b;
    } else {
      assert (a + b)[1..] == a[1..] + b;
      ReplaceAllAppend(a[1..], b, c, rep);
    }
  }

  /** The characters `LIKE` treats specially. */
  predicate LikeSpecial(c: char) { c == '\\' || c == '%' || c == '_' }

  /** `escape_like_pattern`, as written: three replacements in a row. */
  function EscapeLikePattern(s: string): string {
    ReplaceAll(ReplaceAll(ReplaceAll(s, '\\', "\\\\"), '%', "\\%"), '_', "\\_")
  }

  /** One character as the escaping leaves it. */
  function EscapeHead(c: char): string {
    if LikeSpecial(c) then ['\\', c] else [c]
  }

  /** The same escaping, one character at a time: a backslash before each special character. */
  function Escaped(s: string): (r: string)
    ensures |r| == |s| + Seqs.Count(LikeSpecial, s)
    ensures (forall i :: 0 <= i < |s| ==> !LikeSpecial(s[i])) ==> r == s
  {
    if |s| == 0 then "" else EscapeHead(s[0]) + Escaped(s[1..])
  }

  /** The three replacements never touch each other's backslashes: they escape character by character. */
  lemma {:induction false} EscapeLikePatternIsCharwise(s: string)
    ensures EscapeLikePattern(s) == Escaped(s)
  {
    if |s| > 0 {
      var c, t := s[0], s[1..];
      assert s == [c] + t;
      ReplaceAllAppend([c], t, '\\', "\\\\");
      var a := ReplaceAll([c], '\\', "\\\\");
      ReplaceAllAppend(a, ReplaceAll(t, '\\', "\\\\"), '%', "\\%");
      var b := ReplaceAll(a, '%', "\\%");
      ReplaceAllAppend(b, ReplaceAll(ReplaceAll(t, '\\', "\\\\"), '%', "\\%"), '_', "\\_");
      EscapeLikePatternIsCharwise(t);
      assert [c][1..] == [];
      if c == '\\' {
        assert a == "\\\\";
        assert "\\\\"[1..] == "\\";
        assert b == "\\\\";
      } else if c == '%' {
        assert a == "%";
        assert b == "\\%";
        assert "\\%"[1..] == "%";
      } else if c == '_' {
        assert a == "_" && b == "_";
      } else {
        assert a == [c] && b == [c];
      }
      assert ReplaceAll(b, '_', "\\_") == (if LikeSpecial(c) then ['\\', c] else [c]);
    }
  }

  /** An escaped character at the head of a pattern matches only itself. */
  lemma LiteralHead(t: string, c: char, tail: string)
    ensures SqlLike.Like(t, EscapeHead(c) + tail) <==> |t| > 0 && t[0] == c && SqlLike.Like(t[1..], tail)
  {
    var p := EscapeHead(c) + tail;
    if LikeSpecial(c) {
      assert p[0] == '\\' && p[1] == c && p[2..] == tail;
    } else {
      assert p[0] == c && p[1..] == tail;
    }
  }

  /**
   * An escaped string at the head of a pattern matches exactly itself: no
   * character of the user's text acts as a wildcard.
   */
  lemma {:induction false} EscapedPrefix(t: string, s: string, rest: string)
    ensures SqlLike.Like(t, Escaped(s) + rest)
      <==> |s| <= |t| && t[..|s|] == s && SqlLike.Like(t[|s|..], rest)
  {
    if |s| == 0 {
      assert Escaped(s) + rest == rest;
      assert t[..0] == s && t[0..] == t;
    } else {
      if |t| > 0 {
        EscapedPrefix(t[1..], s[1..], rest);
      }
      EscapedPrefixStep(t, s, rest);
    }
  }

  /** The step of `EscapedPrefix`: the first character, then the rest as already known. */
  lemma EscapedPrefixStep(t: string, s: string, rest: string)
    requires |s| > 0
    requires |t| > 0 ==> (SqlLike.Like(t[1..], Escaped(s[1..]) + rest)
      <==> |s[1..]| <= |t[1..]| && t[1..][..|s[1..]|] == s[1..] && SqlLike.Like(t[1..][|s[1..]|..], rest))
    ensures SqlLike.Like(t, Escaped(s) + rest)
      <==> |s| <= |t| && t[..|s|] == s && SqlLike.Like(t[|s|..], rest)
  {
    var tail := Escaped(s[1..]) + rest;
    assert Escaped(s) + rest == EscapeHead(s[0]) + tail;
    LiteralHead(t, s[0], tail);
    if |t| > 0 {
      PrefixHead(t, s);
    }
  }

  /** A prefix test one character at a time. */
  lemma PrefixHead(t: string, s: string)
    requires |s| > 0 && |t| > 0
    ensures (|s| <= |t| && t[..|s|] == s) <==> (t[0] == s[0] && |s| - 1 <= |t| - 1 && t[1..][..|s| - 1] == s[1..])
    ensures |s| <= |t| ==> t[1..][|s| - 1..] == t[|s|..]
  {
    if |s| <= |t| {
      assert t[..|s|] == [t[0]] + t[1..][..|s| - 1];
      assert s == [s[0]] + s[1..];
    }
  }

  /** `%escaped%` matches exactly the texts that contain the search string. */
  lemma SearchPatternMeansContains(t: string, s: string)
    ensures SqlLike.Like(t, "%" + Escaped(s) + "%") <==> Strings.Contains(t, s)
  {
    var q := Escaped(s) + "%";
    assert "%" + Escaped(s) + "%" == "%" + q;
    SqlLike.PercentPrefix(t, q);
    forall i | 0 <= i <= |t|
      ensures SqlLike.Like(t[i..], q) <==> Strings.OccursAt(s, t, i)
    {
      MatchesAt(t, s, i);
    }
    if Strings.Contains(t, s) {
      var i: nat :| i <= |t| && Strings.OccursAt(s, t, i);
      assert SqlLike.Like(t[i..], q);
    }
  }

  /** `escaped%` matches from position `i` exactly when the search string occurs there. */
  lemma MatchesAt(t: string, s: string, i: nat)
    requires i <= |t|
    ensures SqlLike.Like(t[i..], Escaped(s) + "%") <==> Strings.OccursAt(s, t, i)
  {
    EscapedPrefix(t[i..], s, "%");
    if |s| <= |t[i..]| {
      SqlLike.PercentMatchesAll(t[i..][|s|..]);
      assert t[i..][..|s|] == t[i..i + |s|] by {
        assert forall j :: 0 <= j < |s| ==> t[i..][..|s|][j] == t[i + j];
      }
    }
  }

  lemma LowerAppend(a: string, b: string)
    ensures Strings.Lower(a + b) == Strings.Lower(a) + Strings.Lower(b)
  {
    assert forall i :: 0 <= i < |a + b| ==> Strings.Lower(a + b)[i] == (Strings.Lower(a) + Strings.Lower(b))[i];
  }

  /** Lower-casing and escaping commute, since no special character is a letter. */
  lemma {:induction false} LowerEscaped(s: string)
    ensures Strings.Lower(Escaped(s)) == Escaped(Strings.Lower(s))
  {
    if |s| > 0 {
      var head := if LikeSpecial(s[0]) then ['\\', s[0]] else [s[0]];
      LowerAppend(head, Escaped(s[1..]));
      LowerEscaped(s[1..]);
      assert Strings.Lower(s)[1..] == Strings.Lower(s[1..]);
      assert Strings.Lower(head) == (if LikeSpecial(Strings.LowerChar(s[0])) then ['\\', Strings.LowerChar(s[0])] else [Strings.LowerChar(s[0])]);
    }
  }

  /** The pattern the filters build from a search string or a tag. */
  function ContainsPattern(s: string): string {
    "%" + EscapeLikePattern(s) + "%"
  }

  /** `ILIKE '%escaped%'`: the text contains the search string, ignoring ASCII case. */
  lemma ContainsPatternMeaning(t: string, s: string)
    ensures SqlLike.ILike(t, ContainsPattern(s)) <==> Strings.Contains(Strings.Lower(t), Strings.Lower(s))
  {
    EscapeLikePatternIsCharwise(s);
    LowerAppend("%" + Escaped(s), "%");
    LowerAppend("%", Escaped(s));
    LowerEscaped(s);
    assert Strings.Lower("%") == "%";
    SearchPatternMeansContains(Strings.Lower(t), Strings.Lower(s));
  }

  // ---------------------------------------------------------------------
  // Filters
  // ---------------------------------------------------------------------

  /** The `search` filter: any of the three texts matches. */
  predicate SearchMatches(v: Vocab, search: string) {
    var p := ContainsPattern(search);
    SqlLike.ILike(v.expression, p) || SqlLike.ILike(v.reading, p) || SqlLike.ILike(v.meaning, p)
  }

  /** Every tag term's pattern matches the entry's tags. */
  predicate TagsMatch(v: Vocab, terms: seq<string>) {
    forall k :: 0 <= k < |terms| ==> SqlLike.ILike(v.tags, ContainsPattern(terms[k]))
  }

  /** The list endpoint's tag terms: the comma separated parts, stripped, empty ones kept. */
  function ListTagTerms(tags: string): (r: seq<string>)
    ensures |r| == |Strings.Split(tags, ',')|
    ensures forall k :: 0 <= k < |r| ==> r[k] == Strings.Strip(Strings.Split(tags, ',')[k])
  {
    Seqs.Map(Strings.Strip, Strings.Split(tags, ','))
  }

  predicate NonEmpty(s: string) { |s| > 0 }

  /** The random endpoint's tag terms: as for the list, but empty terms dropped. */
  function RandomTagTerms(tags: string): (r: seq<string>)
    ensures forall t :: t in r <==> t in ListTagTerms(tags) && |t| > 0
  {
    Seqs.Filter(NonEmpty, ListTagTerms(tags))
  }

  /** Python truthiness of an optional string. */
  predicate Given(s: Option<string>) { s.Some? && |s.value| > 0 }

  /** The filters of `get_vocabulary`. */
  predicate ListMatches(v: Vocab, search: Option<string>, tags: Option<string>) {
    (Given(search) ==> SearchMatches(v, search.value))
    && (Given(tags) ==> TagsMatch(v, ListTagTerms(tags.value)))
  }

  /**
   * What the list filters mean: the search text occurs in one of the three
   * texts and every tag term occurs in the tags, all ignoring ASCII case.
   */
  lemma ListMatchesMeaning(v: Vocab, search: Option<string>, tags: Option<string>)
    ensures ListMatches(v, search, tags) <==>
      (Given(search) ==>
        var s := Strings.Lower(search.value);
        Strings.Contains(Strings.Lower(v.expression), s)
        || Strings.Contains(Strings.Lower(v.reading), s)
        || Strings.Contains(Strings.Lower(v.meaning), s))
      && (Given(tags) ==>
        forall k :: 0 <= k < |ListTagTerms(tags.value)| ==>
          Strings.Contains(Strings.Lower(v.tags), Strings.Lower(ListTagTerms(tags.value)[k])))
  {
    if Given(search) {
      ContainsPatternMeaning(v.expression, search.value);
      ContainsPatternMeaning(v.reading, search.value);
      ContainsPatternMeaning(v.meaning, search.value);
    }
    if Given(tags) {
      var terms := ListTagTerms(tags.value);
      forall k | 0 <= k < |terms|
        ensures SqlLike.ILike(v.tags, ContainsPattern(terms[k]))
          <==> Strings.Contains(Strings.Lower(v.tags), Strings.Lower(terms[k]))
      {
        ContainsPatternMeaning(v.tags, terms[k]);
      }
    }
  }

  // ---------------------------------------------------------------------
  // Pagination
  // ---------------------------------------------------------------------

  const MaxPageSize: nat := 100

  /** `(total + page_size - 1) // page_size`: the number of pages, rounded up. */
  function PageCount(total: nat, size: nat): (r: nat)
    requires size >= 1
    ensures total <= r * size
    ensures r == 0 || (r - 1) * size < total
  {
    var r := (total + size - 1) / size;
    assert r * size <= total + size - 1 < (r + 1) * size;
    r
  }

  /** `.offset((page - 1) * size).limit(size)`. */
  function PageOf<T>(items: seq<T>, page: nat, size: nat): (r: seq<T>)
    requires page >= 1 && size >= 1
    ensures |r| <= size
    ensures forall i :: 0 <= i < |r| ==> (page - 1) * size + i < |items| && r[i] == items[(page - 1) * size + i]
    ensures (page - 1) * size + size <= |items| ==> |r| == size
    ensures (page - 1) * size < |items| < (page - 1) * size + size ==> |r| == |items| - (page - 1) * size
    ensures |items| <= (page - 1) * size ==> r == []
  {
    Window(items, (page - 1) * size, size)
  }

  /** The at most `size` items from `offset` on. */
  function Window<T>(items: seq<T>, offset: nat, size: nat): (r: seq<T>)
    ensures |r| <= size
    ensures forall i :: 0 <= i < |r| ==> offset + i < |items| && r[i] == items[offset + i]
    ensures offset + size <= |items| ==> |r| == size
    ensures offset < |items| < offset + size ==> |r| == |items| - offset
    ensures |items| <= offset ==> r == []
  {
    if offset >= |items| then []
    else if offset + size <= |items| then items[offset..offset + size]
    else items[offset..]
  }

  /** Pages 1 to `n` one after the other. */
  function FirstPages<T>(items: seq<T>, size: nat, n: nat): seq<T>
    requires size >= 1
  {
    if n == 0 then [] else FirstPages(items, size, n - 1) + PageOf(items, n, size)
  }

  /** The first `n` pages are the first `n * size` items, or all of them. */
  lemma {:induction false} FirstPagesArePrefix<T>(items: seq<T>, size: nat, n: nat)
    requires size >= 1
    ensures FirstPages(items, size, n) == items[..if n * size <= |items| then n * size else |items|]
  {
    if n > 0 {
      FirstPagesArePrefix(items, size, n - 1);
      var offset := (n - 1) * size;
      assert n * size == offset + size;
      PageExtendsPrefix(items, size, offset);
    }
  }

  /** The items before `offset`, then the page starting there, are the items before `offset + size`. */
  lemma PageExtendsPrefix<T>(items: seq<T>, size: nat, offset: nat)
    ensures items[..if offset <= |items| then offset else |items|] + Window(items, offset, size)
      == items[..if offset + size <= |items| then offset + size else |items|]
  {
    if offset < |items| {
      var upto := if offset + size <= |items| then offset + size else |items|;
      assert items[..offset] + items[offset..upto] == items[..upto];
    }
  }

  lemma MulMonotone(a: nat, b: nat, size: nat)
    requires a <= b
    ensures a * size <= b * size
  {
  }

  /** Reading pages 1 to `total_pages` in turn lists every item exactly once, in order. */
  lemma AllPagesCoverTheList<T>(items: seq<T>, size: nat)
    requires size >= 1
    ensures FirstPages(items, size, PageCount(|items|, size)) == items
    ensures forall page: nat :: page > PageCount(|items|, size) ==> PageOf(items, page, size) == []
  {
    var n := PageCount(|items|, size);
    FirstPagesArePrefix(items, size, n);
    assert items[..|items|] == items;
    forall page: nat | page > n
      ensures PageOf(items, page, size) == []
    {
      MulMonotone(n, page - 1, size);
    }
  }

  /** The body of a list response. */
  datatype VocabPage = VocabPage(items: seq<Vocab>, total: nat, page: nat, pageSize: nat, totalPages: nat)

  /** Whether the query parameters pass validation: `page >= 1`, `1 <= page_size <= 100`. */
  predicate ValidPaging(page: int, pageSize: int) {
    page >= 1 && 1 <= pageSize <= MaxPageSize
  }

  /** The matching entries, newest first. */
  function Listing(db: Db, search: Option<string>, tags: Option<string>): (r: seq<Vocab>)
    ensures forall v :: v in r <==> v in db.vocabulary && ListMatches(v, search, tags)
    ensures |r| == Seqs.Count((v: Vocab) => ListMatches(v, search, tags), db.vocabulary)
  {
    var kept := Seqs.Filter((v: Vocab) => ListMatches(v, search, tags), db.vocabulary);
    Seqs.FilterLength((v: Vocab) => ListMatches(v, search, tags), db.vocabulary);
    Seqs.ReverseKeepsCount((v: Vocab) => ListMatches(v, search, tags), kept);
    Seqs.Reverse(kept)
  }

  /** `get_vocabulary`. */
  function ListVocabulary(db: Db, page: int, pageSize: int, search: Option<string>, tags: Option<string>): (r: Reply<VocabPage>)
    ensures r.IsOk() <==> ValidPaging(page, pageSize)
    ensures !r.IsOk() ==> r.Status() == 422
    ensures r.IsOk() ==>
      var out := r.value;
      out.page == page && out.pageSize == pageSize
      && out.total == Seqs.Count((v: Vocab) => ListMatches(v, search, tags), db.vocabulary)
      && out.totalPages == PageCount(out.total, pageSize)
      && |out.items| <= pageSize
      && (forall v :: v in out.items ==> v in db.vocabulary && ListMatches(v, search, tags))
  {
    if !ValidPaging(page, pageSize) then Fail(Auth.ValidationError)
    else
      var all := Listing(db, search, tags);
      var items := PageOf(all, page, pageSize);
      assert forall v :: v in items ==> v in all;
      Ok(VocabPage(items, |all|, page, pageSize, PageCount(|all|, pageSize)))
  }

  /** Walking the pages of a listing from 1 to `total_pages` yields every matching entry, newest first. */
  lemma ListVocabularyPagesCover(db: Db, pageSize: int, search: Option<string>, tags: Option<string>)
    requires 1 <= pageSize <= MaxPageSize
    ensures var all := Listing(db, search, tags);
      var n := ListVocabulary(db, 1, pageSize, search, tags).value.totalPages;
      FirstPages(all, pageSize, n) == all
      && (forall page: nat :: 1 <= page <= n ==> ListVocabulary(db, page, pageSize, search, tags).value.items == PageOf(all, page, pageSize))
  {
    AllPagesCoverTheList(Listing(db, search, tags), pageSize);
  }

  // ---------------------------------------------------------------------
  // Tags
  // ---------------------------------------------------------------------

  /** Every white-space separated tag of every entry, with repeats. */
  function AllTags(vs: seq<Vocab>): (r: seq<string>)
    ensures forall t :: t in r <==> exists v :: v in vs && t in Strings.Words(v.tags)
  {
    if |vs| == 0 then []
    else
      var rest := AllTags(vs[1..]);
      assert forall v :: v in vs <==> v == vs[0] || v in vs[1..];
      Strings.Words(vs[0].tags) + rest
  }

  /** `get_all_tags`: the distinct tags in ascending order. */
  function GetAllTags(db: Db): (r: seq<string>)
    ensures Strings.StrictlySorted(r)
    ensures forall t :: t in r <==> exists v :: v in db.vocabulary && t in Strings.Words(v.tags)
    ensures forall t :: t in r ==> |t| > 0 && Strings.NoSpace(t)
  {
    var r := Strings.SortedDistinct(AllTags(db.vocabulary));
    assert forall t :: t in r ==> |t| > 0 && Strings.NoSpace(t) by {
      forall t | t in r ensures |t| > 0 && Strings.NoSpace(t) {
        var v :| v in db.vocabulary && t in Strings.Words(v.tags);
        var k :| 0 <= k < |Strings.Words(v.tags)| && Strings.Words(v.tags)[k] == t;
      }
    }
    r
  }

  /** The tag list names no tag twice. */
  lemma GetAllTagsDistinct(db: Db)
    ensures Seqs.NoDuplicates(GetAllTags(db))
  {
    Strings.StrictlySortedHasNoDuplicates(GetAllTags(db));
  }

  // ---------------------------------------------------------------------
  // Random selection
  // ---------------------------------------------------------------------

  const MaxRandomCount: nat := 50

  /** The entries the random endpoint draws from. */
  function RandomPool(db: Db, tags: Option<string>): (r: seq<Vocab>)
    ensures forall v :: v in r <==> v in db.vocabulary && (Given(tags) ==> TagsMatch(v, RandomTagTerms(tags.value)))
    ensures Seqs.NoDuplicates(Seqs.Map(VocabId, db.vocabulary)) ==> Seqs.NoDuplicates(r)
  {
    var f := (v: Vocab) => Given(tags) ==> TagsMatch(v, RandomTagTerms(tags.value));
    FilterKeepsDistinctEntries(f, db.vocabulary);
    Seqs.Filter(f, db.vocabulary)
  }

  /** Entries with distinct ids stay distinct entries after a filter. */
  lemma FilterKeepsDistinctEntries(f: Vocab -> bool, vs: seq<Vocab>)
    ensures Seqs.NoDuplicates(Seqs.Map(VocabId, vs)) ==> Seqs.NoDuplicates(Seqs.Filter(f, vs))
  {
    if Seqs.NoDuplicates(Seqs.Map(VocabId, vs)) {
      Seqs.FilterKeepsDistinctKeys(VocabId, f, vs);
      var r := Seqs.Filter(f, vs);
      assert forall i, j :: 0 <= i < j < |r| ==> Seqs.Map(VocabId, r)[i] != Seqs.Map(VocabId, r)[j];
    }
  }

  /** `get_random_vocabulary`: up to `count` entries drawn without repetition; `picks` stands for `ORDER BY random()`. */
  function GetRandomVocabulary(db: Db, count: int, tags: Option<string>, picks: seq<nat>): (r: Reply<seq<Vocab>>)
    ensures r.IsOk() <==> 1 <= count <= MaxRandomCount
    ensures !r.IsOk() ==> r.Status() == 422
    ensures r.IsOk() ==>
      var pool := RandomPool(db, tags);
      |r.value| == (if count <= |pool| then count else |pool|)
      && (forall v :: v in r.value ==> v in pool)
      && (Seqs.NoDuplicates(Seqs.Map(VocabId, db.vocabulary)) ==> Seqs.NoDuplicates(r.value))
  {
    if !(1 <= count <= MaxRandomCount) then Fail(Auth.ValidationError)
    else
      var pool := RandomPool(db, tags);
      if |pool| == 0 then Ok([])
      else Ok(Shuffle.Sample(pool, if count <= |pool| then count else |pool|, picks))
  }

  // ---------------------------------------------------------------------
  // Single entries
  // ---------------------------------------------------------------------

  const VocabularyNotFound := HttpError(404, "Vocabulary not found")

  /** `get_vocabulary_by_id`. */
  function GetVocabularyById(db: Db, id: nat): (r: Reply<Vocab>)
    ensures r.IsOk() <==> exists v :: v in db.vocabulary && v.id == id
    ensures r.IsOk() ==> r.value in db.vocabulary && r.value.id == id
    ensures !r.IsOk() ==> r.error == VocabularyNotFound
  {
    match Seqs.Find((v: Vocab) => v.id == id, db.vocabulary)
    case Some(v) => Ok(v)
    case None => Fail(VocabularyNotFound)
  }

  /** `create_vocabulary`: a missing `tags` is stored as the empty string. */
  function CreateVocabulary(db: Db, expression: string, reading: string, meaning: string, tags: Option<string>): (out: Outcome<Vocab>)
    ensures out.reply.IsOk() <==> Schemas.ValidVocabularyFields(expression, reading, meaning)
    ensures !out.reply.IsOk() ==> out.db == db && out.reply.Status() == 422
    ensures out.reply.IsOk() ==>
      var v := out.reply.value;
      out.db == db.(vocabulary := db.vocabulary + [v])
      && (forall w :: w in db.vocabulary ==> w.id != v.id)
      && v.expression == expression && v.reading == reading && v.meaning == meaning
      && v.tags == tags.GetOr("")
  {
    if !Schemas.ValidVocabularyFields(expression, reading, meaning) then Outcome(db, Fail(Auth.ValidationError))
    else
      var ids := Seqs.Map(VocabId, db.vocabulary);
      var id := FreshId(ids);
      assert forall i :: 0 <= i < |db.vocabulary| ==> ids[i] == db.vocabulary[i].id;
      var v := Vocab(id, expression, reading, meaning, tags.GetOr(""));
      Outcome(db.(vocabulary := db.vocabulary + [v]), Ok(v))
  }

  /** A created entry can be fetched by its id. */
  lemma CreatedIsFound(db: Db, expression: string, reading: string, meaning: string, tags: Option<string>)
    requires Schemas.ValidVocabularyFields(expression, reading, meaning)
    ensures var out := CreateVocabulary(db, expression, reading, meaning, tags);
      GetVocabularyById(out.db, out.reply.value.id) == Ok(out.reply.value)
  {
    var out := CreateVocabulary(db, expression, reading, meaning, tags);
    var v := out.reply.value;
    assert forall w :: w in out.db.vocabulary && w.id == v.id ==> w == v;
  }

  /**
   * The listing is newest first: a created entry that matches the search
   * and tags heads it, ahead of everything listed before; one that does
   * not match leaves it as it was.
   */
  lemma CreatedListedFirst(db: Db, expression: string, reading: string, meaning: string, tags: Option<string>,
                           search: Option<string>, tagTerms: Option<string>)
    requires Schemas.ValidVocabularyFields(expression, reading, meaning)
    ensures var out := CreateVocabulary(db, expression, reading, meaning, tags);
      var v := out.reply.value;
      Listing(out.db, search, tagTerms)
        == if ListMatches(v, search, tagTerms) then [v] + Listing(db, search, tagTerms) else Listing(db, search, tagTerms)
  {
    var out := CreateVocabulary(db, expression, reading, meaning, tags);
    var v := out.reply.value;
    var f := (v: Vocab) => ListMatches(v, search, tagTerms);
    assert out.db.vocabulary == db.vocabulary + [v];
    Seqs.FilterAppend(f, db.vocabulary, [v]);
    assert Seqs.Filter(f, [v]) == if f(v) then [v] else [] by {
      assert [v][1..] == [];
    }
    if f(v) {
      Seqs.ReverseSnoc(Seqs.Filter(f, db.vocabulary), v);
    } else {
      assert Seqs.Filter(f, db.vocabulary) + [] == Seqs.Filter(f, db.vocabulary);
    }
  }

  /**
   * A field of `VocabularyUpdate` as the request gives it: left out of the
   * body, sent as JSON `null`, or sent with a value. `model_dump(exclude_unset=True)`
   * keeps an explicit `null`, so the endpoint writes it.
   */
  datatype PatchField = Unset | Null | Set(value: string)

  /** `VocabularyUpdate`. */
  datatype VocabPatch = VocabPatch(expression: PatchField, reading: PatchField, meaning: PatchField, tags: PatchField)

  /** Each field sent with a value satisfies its length bounds; `null` passes the `Optional` fields. */
  predicate ValidPatch(p: VocabPatch) {
    (p.expression.Set? ==> 1 <= |p.expression.value| <= 255)
    && (p.reading.Set? ==> 1 <= |p.reading.value| <= 255)
    && (p.meaning.Set? ==> 1 <= |p.meaning.value| <= 1000)
  }

  /** A `null` for one of the `NOT NULL` columns: the commit is refused. */
  predicate NullsRequiredColumn(p: VocabPatch) {
    p.expression.Null? || p.reading.Null? || p.meaning.Null?
  }

  /** The column after the write; a stored `NULL` reads as the empty string. */
  function Written(f: PatchField, current: string): string {
    match f
    case Unset => current
    case Null => ""
    case Set(s) => s
  }

  /** The entry with the sent fields written; `null` tags clear them. */
  function Patched(v: Vocab, p: VocabPatch): (r: Vocab)
    ensures r.id == v.id
    ensures p.expression.Unset? ==> r.expression == v.expression
    ensures p.expression.Set? ==> r.expression == p.expression.value
    ensures p.reading.Unset? ==> r.reading == v.reading
    ensures p.reading.Set? ==> r.reading == p.reading.value
    ensures p.meaning.Unset? ==> r.meaning == v.meaning
    ensures p.meaning.Set? ==> r.meaning == p.meaning.value
    ensures p.tags.Unset? ==> r.tags == v.tags
    ensures p.tags.Set? ==> r.tags == p.tags.value
    ensures p.tags.Null? ==> r.tags == ""
  {
    Vocab(v.id, Written(p.expression, v.expression), Written(p.reading, v.reading),
          Written(p.meaning, v.meaning), Written(p.tags, v.tags))
  }

  /**
   * `update_vocabulary`: the body is validated before the entry is looked
   * up; a `null` for a `NOT NULL` column fails at the commit with 500, and
   * the rolled-back session leaves the table as it was.
   */
  function UpdateVocabulary(db: Db, id: nat, patch: VocabPatch): (out: Outcome<Vocab>)
    ensures !ValidPatch(patch) ==> out == Outcome(db, Fail(Auth.ValidationError))
    ensures ValidPatch(patch) && (forall v :: v in db.vocabulary ==> v.id != id) ==>
      out == Outcome(db, Fail(VocabularyNotFound))
    ensures ValidPatch(patch) && (exists v :: v in db.vocabulary && v.id == id) && NullsRequiredColumn(patch) ==>
      out == Outcome(db, Fail(ServerError))
    ensures out.reply.IsOk() ==>
      !NullsRequiredColumn(patch)
      && exists k :: 0 <= k < |db.vocabulary| && db.vocabulary[k].id == id
           && (forall j :: 0 <= j < k ==> db.vocabulary[j].id != id)
           && out.reply.value == Patched(db.vocabulary[k], patch)
           && out.db == db.(vocabulary := db.vocabulary[k := out.reply.value])
    ensures ValidPatch(patch) && !NullsRequiredColumn(patch) && (exists v :: v in db.vocabulary && v.id == id) ==>
      out.reply.IsOk()
  {
    if !ValidPatch(patch) then Outcome(db, Fail(Auth.ValidationError))
    else
      match Seqs.FindIndex((v: Vocab) => v.id == id, db.vocabulary)
      case None => Outcome(db, Fail(VocabularyNotFound))
      case Some(k) =>
        if NullsRequiredColumn(patch) then Outcome(db, Fail(ServerError))
        else
          var v := Patched(db.vocabulary[k], patch);
          Outcome(db.(vocabulary := db.vocabulary[k := v]), Ok(v))
  }

  /** An empty update leaves the entry as it was. */
  lemma EmptyPatchChangesNothing(db: Db, id: nat)
    requires exists v :: v in db.vocabulary && v.id == id
    ensures UpdateVocabulary(db, id, VocabPatch(Unset, Unset, Unset, Unset)).db == db
  {
    var out := UpdateVocabulary(db, id, VocabPatch(Unset, Unset, Unset, Unset));
    var k :| 0 <= k < |db.vocabulary| && db.vocabulary[k].id == id
      && out.reply.value == Patched(db.vocabulary[k], VocabPatch(Unset, Unset, Unset, Unset))
      && out.db == db.(vocabulary := db.vocabulary[k := out.reply.value]);
    assert db.vocabulary[k := db.vocabulary[k]] == db.vocabulary;
  }

  /** An update that succeeds is what a later fetch of the entry returns. */
  lemma UpdatedIsFound(db: Db, id: nat, patch: VocabPatch)
    requires ValidPatch(patch) && !NullsRequiredColumn(patch)
    requires exists v :: v in db.vocabulary && v.id == id
    ensures var out := UpdateVocabulary(db, id, patch);
      GetVocabularyById(out.db, id) == Ok(out.reply.value)
  {
    var out := UpdateVocabulary(db, id, patch);
    var k :| 0 <= k < |db.vocabulary| && db.vocabulary[k].id == id
      && (forall j :: 0 <= j < k ==> db.vocabulary[j].id != id)
      && out.reply.value == Patched(db.vocabulary[k], patch)
      && out.db == db.(vocabulary := db.vocabulary[k := out.reply.value]);
    var f := (v: Vocab) => v.id == id;
    var i := Seqs.FindIndex(f, out.db.vocabulary);
    assert f(out.db.vocabulary[k]);
    assert i.Some? && i.value <= k;
    assert i.value == k;
  }

  /** Sending `null` tags clears them, and nothing else of the entry changes. */
  lemma NullTagsClearTags(db: Db, id: nat)
    requires exists v :: v in db.vocabulary && v.id == id
    ensures var out := UpdateVocabulary(db, id, VocabPatch(Unset, Unset, Unset, Null));
      out.reply.IsOk() && out.reply.value.tags == ""
      && exists k :: 0 <= k < |db.vocabulary| && db.vocabulary[k].id == id
           && out.reply.value == db.vocabulary[k].(tags := "")
  {
  }

  /** Sending `null` for the expression fails with 500 and changes nothing. */
  lemma NullExpressionFails(db: Db, id: nat, reading: PatchField, meaning: PatchField, tags: PatchField)
    requires ValidPatch(VocabPatch(Null, reading, meaning, tags))
    requires exists v :: v in db.vocabulary && v.id == id
    ensures UpdateVocabulary(db, id, VocabPatch(Null, reading, meaning, tags)) == Outcome(db, Fail(ServerError))
  {
  }

  /** `delete_vocabulary`: the entry goes, and its cached hints with it. */
  function DeleteVocabulary(db: Db, id: nat): (out: Outcome<()>)
    ensures out.reply.IsOk() <==> exists v :: v in db.vocabulary && v.id == id
    ensures !out.reply.IsOk() ==> out == Outcome(db, Fail(VocabularyNotFound))
    ensures out.reply.IsOk() ==>
      (forall v :: v in out.db.vocabulary <==> v in db.vocabulary && v.id != id)
      && (forall h :: h in out.db.hints <==> h in db.hints && h.vocabularyId != id)
      && out.db == db.(vocabulary := out.db.vocabulary, hints := out.db.hints)
  {
    if forall v :: v in db.vocabulary ==> v.id != id then Outcome(db, Fail(VocabularyNotFound))
    else
      Outcome(db.(vocabulary := Seqs.Filter((v: Vocab) => v.id != id, db.vocabulary),
                  hints := Seqs.Filter((h: HintEntry) => h.vocabularyId != id, db.hints)), Ok(()))
  }

  /** After a delete the entry is not found, and no cached hint refers to it. */
  lemma DeletedIsGone(db: Db, id: nat)
    requires exists v :: v in db.vocabulary && v.id == id
    ensures var after := DeleteVocabulary(db, id).db;
      GetVocabularyById(after, id) == Fail(VocabularyNotFound)
      && (forall h :: h in after.hints ==> h.vocabularyId != id)
  {
  }
}
