/**
 * The kana router: the full tables, and a random selection of kana for a
 * salad round. The random draws are the arguments `picks` (for
 * `random.sample`) and `coins` (for `random.choice([True, False])`).
 */
module Kana {
  import opened Wrappers
  import opened KanaTables
  import Models
  import Seqs
  import Strings
  import Shuffle
  import Settings
  import Auth

  /** The reply of `get_all_kana`. */
  datatype KanaList = KanaList(hiragana: seq<KanaItem>, katakana: seq<KanaItem>)

  /** `get_all_kana`: both tables, position for position the same romaji. */
  function GetAllKana(): (r: KanaList)
    ensures |r.hiragana| == 104 && |r.katakana| == 104
    ensures SameRomaji(r.hiragana, r.katakana)
    ensures DistinctRomaji(r.hiragana) && DistinctRomaji(r.katakana)
  {
    TablesWellFormed();
    KanaList(Hiragana, Katakana)
  }

  /** The `type` query parameter of `get_random_kana`. */
  datatype KanaType = HiraganaOnly | KatakanaOnly | Mixed

  /** The spelling of each type in the query string. */
  function TypeName(t: KanaType): string {
    match t
    case HiraganaOnly => "hiragana"
    case KatakanaOnly => "katakana"
    case Mixed => "mixed"
  }

  /** The query parameter must match `^(hiragana|katakana|mixed)$`; it defaults to "hiragana". */
  function ParseKanaType(s: string): (r: Option<KanaType>)
    ensures r.Some? ==> TypeName(r.value) == s
  {
    if s == "hiragana" then Some(HiraganaOnly)
    else if s == "katakana" then Some(KatakanaOnly)
    else if s == "mixed" then Some(Mixed)
    else None
  }

  /** Exactly the three spellings are accepted, each meaning its own type. */
  lemma ParseKanaTypeExact(t: KanaType, s: string)
    ensures ParseKanaType(TypeName(t)) == Some(t)
    ensures ParseKanaType(s).Some? <==> s == "hiragana" || s == "katakana" || s == "mixed"
  {
  }

  /** The `count` query parameter is bounded to 1..109 (more than the 104 entries of a table). */
  const MaxCount := 109
  /** The round size when neither the query nor the settings give one. */
  const DefaultCount := 20

  /**
   * The number of kana asked for: the query's `count` when given, else the
   * `salad_kana_per_round` setting read with `int()`, else 20. A setting
   * that `int()` rejects makes the request fail with 500.
   */
  function RequestedCount(settings: map<string, string>, count: Option<int>): (r: Reply<int>)
    ensures count.Some? ==> r == Ok(count.value)
    ensures count.None? && Settings.SaladKanaPerRound !in settings ==> r == Ok(DefaultCount)
    ensures count.None? && Settings.SaladKanaPerRound in settings ==>
      (r.IsOk() <==> Strings.ParseInt(settings[Settings.SaladKanaPerRound]).Some?)
    ensures !r.IsOk() ==> r.error == ServerError
  {
    if count.Some? then Ok(count.value)
    else if Settings.SaladKanaPerRound in settings then
      match Strings.ParseInt(settings[Settings.SaladKanaPerRound])
      case Some(n) => Ok(n)
      case None => Fail(ServerError)
    else Ok(DefaultCount)
  }

  /** A stored round size written as a decimal number is the size used. */
  lemma RoundSizeFromSetting(settings: map<string, string>, n: nat)
    requires Settings.SaladKanaPerRound in settings
    requires settings[Settings.SaladKanaPerRound] == Strings.NatToString(n)
    ensures RequestedCount(settings, None) == Ok(n)
  {
    Strings.ParseIntOfNatToString(n);
  }

  /**
   * After an administrator sets the round size to `n`, rounds without a
   * query count have `n` kana.
   */
  lemma RoundSizeFollowsSettings(db: Models.Db, n: nat)
    ensures RequestedCount(Settings.UpdateSetting(db, Settings.SaladKanaPerRound, Strings.NatToString(n)).db.settings, None) == Ok(n)
  {
    RoundSizeFromSetting(Settings.UpdateSetting(db, Settings.SaladKanaPerRound, Strings.NatToString(n)).db.settings, n);
  }

  /** The stored default ("20") and the router's fallback agree: a fresh installation plays 20 kana a round. */
  lemma DefaultRoundSizeAgrees(settings: map<string, string>)
    ensures Settings.SaladKanaPerRound !in settings ==>
      RequestedCount(Settings.InitDefaultSettings(settings), None) == Ok(DefaultCount)
  {
    if Settings.SaladKanaPerRound !in settings {
      assert Strings.NatToString(DefaultCount) == "20" by {
        assert Strings.NatToString(2) == "2";
      }
      RoundSizeFromSetting(Settings.InitDefaultSettings(settings), DefaultCount);
    }
  }

  /** The reply of `get_random_kana`. */
  datatype RandomKana = RandomKana(kana: seq<KanaItem>, count: nat)

  /**
   * The entries for the drawn table positions: each keeps the romaji at its
   * position and, by `random.choice([True, False])`, its hiragana (true) or
   * its katakana (false). One coin is used per entry, in order.
   */
  function WithCoins(hiragana: seq<KanaItem>, katakana: seq<KanaItem>, positions: seq<nat>, coins: seq<nat>): (r: seq<KanaItem>)
    requires |hiragana| == |katakana|
    requires forall j :: 0 <= j < |positions| ==> positions[j] < |hiragana|
    ensures |r| == |positions|
    ensures forall j :: 0 <= j < |positions| ==>
      r[j].romaji == hiragana[positions[j]].romaji
      && (r[j].kana == hiragana[positions[j]].kana || r[j].kana == katakana[positions[j]].kana)
  {
    if |positions| == 0 then []
    else
      var i := positions[0];
      var takeHiragana := Shuffle.Choice([true, false], if |coins| > 0 then coins[0] else 0);
      var item := KanaItem(hiragana[i].romaji, if takeHiragana then hiragana[i].kana else katakana[i].kana);
      [item] + WithCoins(hiragana, katakana, positions[1..], if |coins| > 0 then coins[1..] else [])
  }

  /** `item` carries the romaji at position `i` with its hiragana or its katakana. */
  predicate FromPosition(item: KanaItem, hiragana: seq<KanaItem>, katakana: seq<KanaItem>, i: int) {
    0 <= i < |hiragana| && i < |katakana| && item.romaji == hiragana[i].romaji
    && (item.kana == hiragana[i].kana || item.kana == katakana[i].kana)
  }

  /** `item` comes from some position of the tables. */
  ghost predicate FromSomePosition(item: KanaItem, hiragana: seq<KanaItem>, katakana: seq<KanaItem>) {
    exists i :: FromPosition(item, hiragana, katakana, i)
  }

  /** Every item of a mixed reply comes from some position of the tables. */
  ghost predicate MixedFrom(items: seq<KanaItem>, hiragana: seq<KanaItem>, katakana: seq<KanaItem>) {
    forall j :: 0 <= j < |items| ==> FromSomePosition(items[j], hiragana, katakana)
  }

  /**
   * Mixed mode. The romaji are drawn without replacement from the keys of
   * the hiragana dict; each then gets the hiragana or the katakana of its
   * romaji by a coin. Because the tables' romaji are distinct and aligned
   * (`DictOfDistinctTable`), drawing positions of the table is the same as
   * drawing its romaji (`MixedDrawsRomaji`).
   */
  function MixedSelection(hiragana: seq<KanaItem>, katakana: seq<KanaItem>, n: nat, picks: seq<nat>, coins: seq<nat>): (r: seq<KanaItem>)
    requires SameRomaji(hiragana, katakana) && DistinctRomaji(hiragana) && n <= |hiragana|
    ensures |r| == n
    ensures MixedFrom(r, hiragana, katakana)
    ensures DistinctRomaji(r)
  {
    var positions := DrawPositions(|hiragana|, n, picks);
    WithCoinsFacts(hiragana, katakana, positions, coins);
    WithCoins(hiragana, katakana, positions, coins)
  }

  /** `n` distinct positions of a table of `size` entries, as `random.sample` draws them. */
  function DrawPositions(size: nat, n: nat, picks: seq<nat>): (r: seq<nat>)
    requires n <= size
    ensures |r| == n
    ensures forall j :: 0 <= j < n ==> r[j] < size
    ensures Seqs.NoDuplicates(r)
  {
    var r := Shuffle.Sample(Seqs.Range(size), n, picks);
    assert forall j :: 0 <= j < n ==> r[j] in Seqs.Range(size);
    r
  }

  /** Distinct positions of a table with distinct romaji give distinct romaji. */
  lemma WithCoinsFacts(hiragana: seq<KanaItem>, katakana: seq<KanaItem>, positions: seq<nat>, coins: seq<nat>)
    requires |hiragana| == |katakana| && DistinctRomaji(hiragana)
    requires forall j :: 0 <= j < |positions| ==> positions[j] < |hiragana|
    requires Seqs.NoDuplicates(positions)
    ensures MixedFrom(WithCoins(hiragana, katakana, positions, coins), hiragana, katakana)
    ensures DistinctRomaji(WithCoins(hiragana, katakana, positions, coins))
  {
    var r := WithCoins(hiragana, katakana, positions, coins);
    forall j | 0 <= j < |r| ensures FromSomePosition(r[j], hiragana, katakana) {
      assert FromPosition(r[j], hiragana, katakana, positions[j]);
    }
    forall j, k | 0 <= j < k < |r| ensures r[j].romaji != r[k].romaji {
      assert positions[j] != positions[k];
      if positions[j] < positions[k] {
        assert hiragana[positions[j]].romaji != hiragana[positions[k]].romaji;
      } else {
        assert hiragana[positions[k]].romaji != hiragana[positions[j]].romaji;
      }
    }
  }

  /** The romaji of the entries built for some positions are the romaji at those positions. */
  lemma WithCoinsRomaji(hiragana: seq<KanaItem>, katakana: seq<KanaItem>, positions: seq<nat>, coins: seq<nat>, at: nat -> string)
    requires |hiragana| == |katakana|
    requires forall j :: 0 <= j < |positions| ==> positions[j] < |hiragana|
    requires forall i :: 0 <= i < |hiragana| ==> at(i) == hiragana[i].romaji
    ensures Seqs.Map(Romaji, WithCoins(hiragana, katakana, positions, coins)) == Seqs.Map(at, positions)
  {
  }

  /** Projecting a prefix is taking the prefix of the projection. */
  lemma MapPrefix<T, U>(f: T -> U, s: seq<T>, n: nat)
    requires n <= |s|
    ensures Seqs.Map(f, s)[..n] == Seqs.Map(f, s[..n])
  {
  }

  /** Reading the romaji position by position reads the table's romaji column. */
  lemma PositionsReadRomaji(hiragana: seq<KanaItem>, at: nat -> string)
    requires forall i :: 0 <= i < |hiragana| ==> at(i) == hiragana[i].romaji
    ensures Seqs.Map(at, Seqs.Range(|hiragana|)) == Seqs.Map(Romaji, hiragana)
  {
  }

  /** The romaji of the mixed selection are exactly `random.sample(all_romaji, n)`. */
  lemma MixedDrawsRomaji(hiragana: seq<KanaItem>, katakana: seq<KanaItem>, n: nat, picks: seq<nat>, coins: seq<nat>)
    requires SameRomaji(hiragana, katakana) && DistinctRomaji(hiragana) && n <= |hiragana|
    ensures Seqs.Map(Romaji, MixedSelection(hiragana, katakana, n, picks, coins))
         == Shuffle.Sample(Seqs.Map(Romaji, hiragana), n, picks)
  {
    var all := Seqs.Range(|hiragana|);
    var at := (i: nat) => if i < |hiragana| then hiragana[i].romaji else "";
    var shuffled := Shuffle.Shuffle(all, picks);
    var positions := DrawPositions(|hiragana|, n, picks);
    PositionsReadRomaji(hiragana, at);
    Shuffle.ShuffleCommutesWithMap(at, all, picks);
    MapPrefix(at, shuffled, n);
    WithCoinsRomaji(hiragana, katakana, positions, coins, at);
    calc {
      Shuffle.Sample(Seqs.Map(Romaji, hiragana), n, picks);
      Shuffle.Shuffle(Seqs.Map(at, all), picks)[..n];
      Seqs.Map(at, shuffled)[..n];
      Seqs.Map(at, positions);
      Seqs.Map(Romaji, WithCoins(hiragana, katakana, positions, coins));
    }
  }

  /** The projection of an entry on its romaji. */
  function Romaji(k: KanaItem): string { k.romaji }

  /** The keys of the dict `{k["romaji"]: k["kana"] for k in t}`, in insertion order. */
  function DictKeys(t: seq<KanaItem>): (r: seq<string>)
    ensures Seqs.NoDuplicates(r)
    ensures forall x :: x in r <==> exists i :: 0 <= i < |t| && t[i].romaji == x
  {
    if |t| == 0 then []
    else
      var keys := DictKeys(t[..|t| - 1]);
      var last := t[|t| - 1];
      assert forall i :: 0 <= i < |t| - 1 ==> t[..|t| - 1][i] == t[i];
      if last.romaji in keys then keys else keys + [last.romaji]
  }

  /** Looking a romaji up in that dict: later entries overwrite earlier ones. */
  function DictLookup(t: seq<KanaItem>, r: string): (k: Option<string>)
    ensures k.Some? <==> exists i :: 0 <= i < |t| && t[i].romaji == r
  {
    if |t| == 0 then None
    else if t[|t| - 1].romaji == r then Some(t[|t| - 1].kana)
    else
      assert forall i :: 0 <= i < |t| - 1 ==> t[..|t| - 1][i] == t[i];
      DictLookup(t[..|t| - 1], r)
  }

  /**
   * For a table with distinct romaji the dict keeps the table's order and
   * maps every romaji to its own entry, so the mixed mode may work on
   * positions.
   */
  lemma DictOfDistinctTable(t: seq<KanaItem>)
    requires DistinctRomaji(t)
    ensures DictKeys(t) == Seqs.Map(Romaji, t)
    ensures forall i :: 0 <= i < |t| ==> DictLookup(t, t[i].romaji) == Some(t[i].kana)
  {
    DictKeysOfDistinct(t);
    forall i | 0 <= i < |t| ensures DictLookup(t, t[i].romaji) == Some(t[i].kana) {
      DictLookupOfDistinct(t, i);
    }
  }

  /** Dropping the last entry keeps the romaji distinct. */
  lemma DistinctInit(t: seq<KanaItem>)
    requires DistinctRomaji(t) && |t| > 0
    ensures DistinctRomaji(t[..|t| - 1])
  {
    assert forall i :: 0 <= i < |t| - 1 ==> t[..|t| - 1][i] == t[i];
  }

  lemma {:induction false} DictKeysOfDistinct(t: seq<KanaItem>)
    requires DistinctRomaji(t)
    ensures DictKeys(t) == Seqs.Map(Romaji, t)
  {
    if |t| > 0 {
      var init := t[..|t| - 1];
      DistinctInit(t);
      DictKeysOfDistinct(init);
      assert t[|t| - 1].romaji !in DictKeys(init) by {
        assert forall i :: 0 <= i < |init| ==> init[i].romaji == t[i].romaji != t[|t| - 1].romaji;
      }
      MapSnoc(t);
    }
  }

  lemma {:induction false} DictLookupOfDistinct(t: seq<KanaItem>, i: nat)
    requires DistinctRomaji(t) && i < |t|
    ensures DictLookup(t, t[i].romaji) == Some(t[i].kana)
    decreases |t|
  {
    if i < |t| - 1 {
      var init := t[..|t| - 1];
      DistinctInit(t);
      assert t[|t| - 1].romaji != t[i].romaji;
      DictLookupOfDistinct(init, i);
      assert init[i] == t[i];
    }
  }

  lemma MapSnoc(t: seq<KanaItem>)
    requires |t| > 0
    ensures Seqs.Map(Romaji, t) == Seqs.Map(Romaji, t[..|t| - 1]) + [t[|t| - 1].romaji]
  {
    var front := Seqs.Map(Romaji, t[..|t| - 1]);
    forall i | 0 <= i < |t| ensures Seqs.Map(Romaji, t)[i] == (front + [t[|t| - 1].romaji])[i] {
      if i < |t| - 1 {
        assert front[i] == t[i].romaji;
      }
    }
  }

  /**
   * Where the kana of a reply come from: the requested table for a single
   * script; for mixed, some table position's romaji with its hiragana or
   * its katakana.
   */
  ghost predicate DrawnFrom(t: KanaType, items: seq<KanaItem>, hiragana: seq<KanaItem>, katakana: seq<KanaItem>) {
    match t
    case HiraganaOnly => forall k :: k in items ==> k in hiragana
    case KatakanaOnly => forall k :: k in items ==> k in katakana
    case Mixed => MixedFrom(items, hiragana, katakana)
  }

  /** The `n` kana drawn for type `t` from the tables `hiragana` and `katakana`. */
  function Selection(t: KanaType, hiragana: seq<KanaItem>, katakana: seq<KanaItem>, n: nat, picks: seq<nat>, coins: seq<nat>): (r: seq<KanaItem>)
    requires SameRomaji(hiragana, katakana) && DistinctRomaji(hiragana) && n <= |hiragana|
    ensures |r| == n
    ensures DistinctRomaji(r)
    ensures DrawnFrom(t, r, hiragana, katakana)
  {
    match t
    case Mixed => MixedSelection(hiragana, katakana, n, picks, coins)
    case HiraganaOnly => SampleTable(hiragana, n, picks)
    case KatakanaOnly =>
      assert DistinctRomaji(katakana) by {
        assert forall i :: 0 <= i < |katakana| ==> katakana[i].romaji == hiragana[i].romaji;
      }
      SampleTable(katakana, n, picks)
  }

  /**
   * `get_random_kana`. Query validation comes first (422); then the round
   * size is resolved, and a negative one makes `random.sample` raise (500).
   * At most the whole table is drawn, and `count` reports how many were.
   */
  function GetRandomKana(db: Models.Db, kind: string, count: Option<int>, picks: seq<nat>, coins: seq<nat>): (r: Reply<RandomKana>)
    ensures ParseKanaType(kind).None? || (count.Some? && !(1 <= count.value <= MaxCount)) ==> r == Fail(Auth.ValidationError)
    ensures ParseKanaType(kind).Some? && (count.None? || 1 <= count.value <= MaxCount) ==>
      (r.IsOk() <==> RequestedCount(db.settings, count).IsOk() && RequestedCount(db.settings, count).value >= 0)
    ensures r.IsOk() ==>
      var n := RequestedCount(db.settings, count).value;
      r.value.count == |r.value.kana| == (if n < 104 then n else 104)
    ensures r.IsOk() ==> DistinctRomaji(r.value.kana) && DrawnFrom(ParseKanaType(kind).value, r.value.kana, Hiragana, Katakana)
  {
    var kindParsed := ParseKanaType(kind);
    if kindParsed.None? || (count.Some? && !(1 <= count.value <= MaxCount)) then Fail(Auth.ValidationError)
    else
      var requested := RequestedCount(db.settings, count);
      // `random.sample` raises `ValueError` for a negative size.
      if !requested.IsOk() || requested.value < 0 then Fail(ServerError)
      else
        TablesWellFormed();
        var n: nat := if requested.value < |Hiragana| then requested.value else |Hiragana|;
        var selected := Selection(kindParsed.value, Hiragana, Katakana, n, picks, coins);
        Ok(RandomKana(selected, |selected|))
  }

  /** `random.sample(kana_list, n)` on one table. */
  function SampleTable(table: seq<KanaItem>, n: nat, picks: seq<nat>): (r: seq<KanaItem>)
    requires n <= |table| && DistinctRomaji(table)
    ensures |r| == n
    ensures forall k :: k in r ==> k in table
    ensures DistinctRomaji(r)
  {
    DistinctRomajiIsDistinctKeys(table);
    Shuffle.ShuffleKeepsDistinctKeys(Romaji, table, picks);
    var r := Shuffle.Sample(table, n, picks);
    var s := Shuffle.Shuffle(table, picks);
    assert r == s[..n];
    DistinctRomajiIsDistinctKeys(s);
    DistinctRomajiIsDistinctKeys(r);
    r
  }

  /** Distinct romaji is distinct keys under the romaji projection. */
  lemma DistinctRomajiIsDistinctKeys(t: seq<KanaItem>)
    ensures DistinctRomaji(t) <==> Seqs.NoDuplicates(Seqs.Map(Romaji, t))
  {
  }
}
