/**
 * The user-preferences endpoints: a user's selected vocabulary tags, stored
 * as one comma-separated string per user (`user_id` is unique).
 */
module TagPreferences {
  import opened Wrappers
  import opened Models
  import Seqs
  import Strings

  /** The `unique=True` constraint on `user_id`. */
  predicate OnePerUser(prefs: seq<Preferences>) {
    forall i, j :: 0 <= i < j < |prefs| ==> prefs[i].userId != prefs[j].userId
  }

  /** The position of the preferences row of `userId` (`.filter(user_id == …).first()`). */
  function RowIndex(prefs: seq<Preferences>, userId: nat): (r: Option<nat>)
    ensures r.Some? ==> r.value < |prefs| && prefs[r.value].userId == userId
    ensures r.None? <==> forall p :: p in prefs ==> p.userId != userId
  {
    Seqs.FindIndex((p: Preferences) => p.userId == userId, prefs)
  }

  function Stripped(s: string): string { Strings.Strip(s) }

  predicate NotBlank(s: string) { |Strings.Strip(s)| > 0 }

  /** Tags a read can give back unchanged: non-empty, already stripped, free of ','. */
  predicate StorableTag(t: string) {
    |t| > 0 && ',' !in t && Strings.Strip(t) == t
  }

  /**
   * The tag list read back from the stored string: split on ',', each part
   * stripped, blank parts dropped; an empty string reads as no tags.
   */
  function ParseTags(stored: string): (tags: seq<string>)
    ensures forall i :: 0 <= i < |tags| ==> StorableTag(tags[i])
    ensures stored == "" ==> tags == []
  {
    if stored == "" then []
    else
      var parts := Strings.Split(stored, ',');
      var kept := Seqs.Filter(NotBlank, parts);
      StrippedPartsStorable(kept);
      Seqs.Map(Stripped, kept)
  }

  /** Stripping a non-blank, comma-free part gives a storable tag. */
  lemma StrippedPartsStorable(parts: seq<string>)
    requires forall p :: p in parts ==> NotBlank(p) && ',' !in p
    ensures forall i :: 0 <= i < |parts| ==> StorableTag(Stripped(parts[i]))
  {
    forall i | 0 <= i < |parts| ensures StorableTag(Stripped(parts[i])) {
      var p := parts[i];
      assert p in parts;
      Strings.StripIdempotent(p);
      Strings.StripKeepsChars(p);
    }
  }

  /** `GET /api/user/preferences`: the parsed tag list, `[]` for a user without a row; nothing is written. */
  function GetPreferences(db: Db, userId: nat): (out: Outcome<seq<string>>)
    ensures out.db == db && out.reply.Ok?
    ensures RowIndex(db.preferences, userId).None? ==> out.reply.value == []
    ensures RowIndex(db.preferences, userId).Some? ==>
      out.reply.value == ParseTags(db.preferences[RowIndex(db.preferences, userId).value].selectedTags)
  {
    match RowIndex(db.preferences, userId)
    case None => Outcome(db, Ok([]))
    case Some(k) => Outcome(db, Ok(ParseTags(db.preferences[k].selectedTags)))
  }

  /**
   * `PUT /api/user/preferences`: the list joined with ',' is stored in the
   * user's row, which is created when absent; the reply is the submitted
   * list itself, not what a read would give back.
   */
  function UpdatePreferences(db: Db, userId: nat, tags: seq<string>): (out: Outcome<seq<string>>)
    ensures out.reply == Ok(tags)
    ensures out.db == db.(preferences := out.db.preferences)
    ensures RowIndex(out.db.preferences, userId).Some?
    ensures out.db.preferences[RowIndex(out.db.preferences, userId).value].selectedTags == Strings.Join(tags, ',')
    ensures RowIndex(db.preferences, userId).Some? ==>
      var k := RowIndex(db.preferences, userId).value;
      out.db.preferences == db.preferences[k := db.preferences[k].(selectedTags := Strings.Join(tags, ','))]
    ensures RowIndex(db.preferences, userId).None? ==>
      |out.db.preferences| == |db.preferences| + 1 && out.db.preferences[..|db.preferences|] == db.preferences
      && (forall p :: p in db.preferences ==> p.id != out.db.preferences[|db.preferences|].id)
  {
    var stored := Strings.Join(tags, ',');
    match RowIndex(db.preferences, userId)
    case Some(k) =>
      var prefs := db.preferences[k := db.preferences[k].(selectedTags := stored)];
      UpdateFindsSameRow(db.preferences, k, userId, stored);
      Outcome(db.(preferences := prefs), Ok(tags))
    case None =>
      var ids := Seqs.Map(PreferencesId, db.preferences);
      var id := FreshId(ids);
      assert forall i :: 0 <= i < |db.preferences| ==> ids[i] == db.preferences[i].id;
      var row := Preferences(id, userId, stored);
      var prefs := db.preferences + [row];
      FirstRowOfUser(prefs, userId);
      assert prefs[..|db.preferences|] == db.preferences;
      Outcome(db.(preferences := prefs), Ok(tags))
  }

  /** Updating the found row in place leaves it the first row of its user. */
  lemma UpdateFindsSameRow(prefs: seq<Preferences>, k: nat, userId: nat, stored: string)
    requires RowIndex(prefs, userId) == Some(k)
    ensures RowIndex(prefs[k := prefs[k].(selectedTags := stored)], userId) == Some(k)
  {
    var after := prefs[k := prefs[k].(selectedTags := stored)];
    var f := (p: Preferences) => p.userId == userId;
    assert forall i :: 0 <= i < |prefs| ==> f(after[i]) == f(prefs[i]);
    Seqs.SameMatchesSameIndex(f, prefs, after);
  }

  /** A row appended for a user who had none is that user's row. */
  lemma FirstRowOfUser(prefs: seq<Preferences>, userId: nat)
    requires |prefs| > 0 && prefs[|prefs| - 1].userId == userId
    requires forall p :: p in prefs[..|prefs| - 1] ==> p.userId != userId
    ensures RowIndex(prefs, userId) == Some(|prefs| - 1)
  {
  }

  /** An update keeps `user_id` unique: it either rewrites the user's row or adds the first one. */
  lemma UpdateKeepsOnePerUser(db: Db, userId: nat, tags: seq<string>)
    requires OnePerUser(db.preferences)
    ensures OnePerUser(UpdatePreferences(db, userId, tags).db.preferences)
  {
    var after := UpdatePreferences(db, userId, tags).db.preferences;
    if RowIndex(db.preferences, userId).None? {
      forall i, j | 0 <= i < j < |after| ensures after[i].userId != after[j].userId {
        if j == |db.preferences| {
          assert after[i] in db.preferences;
        } else {
          assert after[i] == db.preferences[i] && after[j] == db.preferences[j];
        }
      }
    }
  }

  /** Other users' reads are not affected by an update. */
  lemma UpdateLeavesOthers(db: Db, userId: nat, other: nat, tags: seq<string>)
    requires other != userId
    ensures GetPreferences(UpdatePreferences(db, userId, tags).db, other).reply == GetPreferences(db, other).reply
  {
    var before := db.preferences;
    var after := UpdatePreferences(db, userId, tags).db.preferences;
    var f := (p: Preferences) => p.userId == other;
    match RowIndex(before, userId)
    case Some(k) =>
      assert forall i :: 0 <= i < |before| ==> f(after[i]) == f(before[i]);
      Seqs.SameMatchesSameIndex(f, before, after);
      assert RowIndex(after, other) == RowIndex(before, other);
    case None =>
      assert after == before + [after[|before|]];
      FindIndexSkipsAppended(f, before, after[|before|]);
  }

  /** Appending an element the predicate rejects does not change the first match. */
  lemma {:induction false} FindIndexSkipsAppended<T>(f: T -> bool, s: seq<T>, x: T)
    requires !f(x)
    ensures Seqs.FindIndex(f, s + [x]) == Seqs.FindIndex(f, s)
  {
    if |s| > 0 {
      assert (s + [x])[1..] == s[1..] + [x];
      FindIndexSkipsAppended(f, s[1..], x);
    }
  }

  /** Parsing a join of storable tags gives the tags back. */
  lemma {:induction false} ParseJoin(tags: seq<string>)
    requires forall i :: 0 <= i < |tags| ==> StorableTag(tags[i])
    ensures ParseTags(Strings.Join(tags, ',')) == tags
  {
    if |tags| > 0 {
      var stored := Strings.Join(tags, ',');
      JoinNonEmpty(tags);
      Strings.SplitJoin(tags, ',');
      assert Strings.Split(stored, ',') == tags;
      FilterAllKept(tags);
      StrippedKeepsStorable(tags);
      assert ParseTags(stored) == Seqs.Map(Stripped, Seqs.Filter(NotBlank, tags));
    }
  }

  /** Stripping storable tags changes none of them. */
  lemma StrippedKeepsStorable(tags: seq<string>)
    requires forall i :: 0 <= i < |tags| ==> StorableTag(tags[i])
    ensures Seqs.Map(Stripped, tags) == tags
  {
    var m := Seqs.Map(Stripped, tags);
    assert forall i :: 0 <= i < |tags| ==> m[i] == Stripped(tags[i]) == tags[i];
  }

  lemma {:induction false} JoinNonEmpty(tags: seq<string>)
    requires |tags| > 0 && |tags[0]| > 0
    ensures |Strings.Join(tags, ',')| > 0
  {
  }

  /** Filtering out blank parts keeps every storable tag. */
  lemma {:induction false} FilterAllKept(tags: seq<string>)
    requires forall i :: 0 <= i < |tags| ==> StorableTag(tags[i])
    ensures Seqs.Filter(NotBlank, tags) == tags
  {
    if |tags| > 0 {
      FilterAllKept(tags[1..]);
      assert NotBlank(tags[0]);
      assert [tags[0]] + tags[1..] == tags;
    }
  }

  /** A read after an update by the same user gives back the stored list when its tags are storable. */
  lemma GetAfterUpdate(db: Db, userId: nat, tags: seq<string>)
    requires forall i :: 0 <= i < |tags| ==> StorableTag(tags[i])
    ensures GetPreferences(UpdatePreferences(db, userId, tags).db, userId).reply == Ok(tags)
  {
    ParseJoin(tags);
  }

  /** A blank tag is dropped on the way back: the stored "a, " reads as `["a"]`. */
  lemma BlankTagDropped()
    ensures ParseTags(Strings.Join(["a", " "], ',')) == ["a"]
  {
    var stored := Strings.Join(["a", " "], ',');
    assert stored == "a, ";
    assert Strings.Split("a, ", ',') == ["a", " "] by {
      assert Strings.Split(" ", ',') == [" "] by {
        assert " "[1..] == "";
        assert Strings.Split("", ',') == [""];
        assert [' '] + "" == " ";
      }
      assert ", "[1..] == " ";
      assert Strings.Split(", ", ',') == ["", " "];
      assert "a, "[1..] == ", ";
      assert ['a'] + "" == "a";
    }
    assert NotBlank("a") && !NotBlank(" ") by {
      assert Strings.IsSpace(' ');
      Strings.StripEmpty(" ");
      assert Strings.Strip("a") == "a";
    }
    assert Seqs.Filter(NotBlank, ["a", " "]) == ["a"] by {
      assert ["a", " "][1..] == [" "];
      assert [" "][1..] == [];
    }
    assert Strings.Strip("a") == "a";
  }

  /** So the reply of an update is not always what a later read returns. */
  lemma BlankTagIsLost(db: Db, userId: nat)
    ensures UpdatePreferences(db, userId, ["a", " "]).reply == Ok(["a", " "])
    ensures GetPreferences(UpdatePreferences(db, userId, ["a", " "]).db, userId).reply == Ok(["a"])
  {
    BlankTagDropped();
  }
}
