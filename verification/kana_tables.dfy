/**
 * The two kana tables of the kana router, `HIRAGANA` and `KATAKANA`, and
 * the facts about them that the rest of the model relies on: both list the
 * same 104 romaji in the same order, and no romaji occurs twice.
 *
 * Each table is written row by row, as the source groups it, so that the
 * facts can be checked one row at a time: inside a row by looking at every
 * position, across rows because every romaji belongs to exactly one row
 * (`RowIndex`) and the rows follow one another in increasing order.
 */
module KanaTables {
  /** One entry of a table: the Latin transcription and the kana character(s). */
  datatype KanaItem = KanaItem(romaji: string, kana: string)

  /** Two tables list the same romaji at every position. */
  predicate SameRomaji(a: seq<KanaItem>, b: seq<KanaItem>) {
    |a| == |b| && forall i :: 0 <= i < |a| ==> a[i].romaji == b[i].romaji
  }

  /** No romaji occurs twice in the table. */
  predicate DistinctRomaji(t: seq<KanaItem>) {
    forall i, j :: 0 <= i < j < |t| ==> t[i].romaji != t[j].romaji
  }

  /**
   * The position, in the tables' order, of the row a romaji belongs to:
   * 0 for the vowels, 1 for the K-row, ... 25 for the PY-row; -1 for a
   * string that is no romaji of the tables. The row is read off the length,
   * the first letter and, where two rows share those, the last letter
   * ("shi" is in the S-row, "sha" among the contracted sounds).
   */
  function RowIndex(r: string): int {
    if |r| == 1 then (if r[0] == 'n' then 9 else 0)
    else if |r| == 2 then
      match r[0]
      case 'k' => 1 case 's' => 2 case 't' => 3 case 'n' => 4 case 'h' => 5 case 'f' => 5
      case 'm' => 6 case 'y' => 7 case 'r' => 8 case 'w' => 9 case 'g' => 10 case 'z' => 11
      case 'j' => if r[1] == 'i' then 11 else 23
      case 'd' => 12 case 'b' => 13 case 'p' => 14
      case _ => -1
    else if |r| == 3 then
      match r[0]
      case 's' => if r[2] == 'i' then 2 else 16
      case 'c' => if r[2] == 'i' then 3 else 17
      case 't' => 3 case 'k' => 15 case 'n' => 18 case 'h' => 19 case 'm' => 20
      case 'r' => 21 case 'g' => 22 case 'b' => 24 case 'p' => 25
      case _ => -1
    else -1
  }

  /** Every romaji of `t` belongs to a row numbered `lo` up to (excluding) `hi`. */
  predicate RowsWithin(t: seq<KanaItem>, lo: int, hi: int) {
    forall i :: 0 <= i < |t| ==> lo <= RowIndex(t[i].romaji) < hi
  }

  /** A piece of hiragana table `h` and its katakana counterpart `k`, checked. */
  predicate Checked(h: seq<KanaItem>, k: seq<KanaItem>, lo: int, hi: int) {
    SameRomaji(h, k) && DistinctRomaji(h) && RowsWithin(h, lo, hi)
  }

  /** Two checked pieces whose rows do not overlap make a checked piece. */
  lemma Join(a: seq<KanaItem>, b: seq<KanaItem>, c: seq<KanaItem>, d: seq<KanaItem>, lo: int, mid: int, hi: int)
    requires lo <= mid <= hi
    requires Checked(a, c, lo, mid) && Checked(b, d, mid, hi)
    ensures Checked(a + b, c + d, lo, hi)
  {
    forall i | 0 <= i < |a + b| ensures (a + b)[i].romaji == (c + d)[i].romaji && lo <= RowIndex((a + b)[i].romaji) < hi {
      if i >= |a| {
        assert (a + b)[i] == b[i - |a|];
        assert (c + d)[i] == d[i - |a|];
      }
    }
    forall i, j | 0 <= i < j < |a + b| ensures (a + b)[i].romaji != (a + b)[j].romaji {
      if j >= |a| {
        assert (a + b)[j] == b[j - |a|];
        if i >= |a| {
          assert (a + b)[i] == b[i - |a|];
        }
      }
    }
  }

  /** Hiragana, the vowels. */
  const HiraganaVowels: seq<KanaItem> := [KanaItem("a", "あ"), KanaItem("i", "い"), KanaItem("u", "う"), KanaItem("e", "え"), KanaItem("o", "お")]
  /** Hiragana, the K-row. */
  const HiraganaKRow: seq<KanaItem> := [KanaItem("ka", "か"), KanaItem("ki", "き"), KanaItem("ku", "く"), KanaItem("ke", "け"), KanaItem("ko", "こ")]
  /** Hiragana, the S-row. */
  const HiraganaSRow: seq<KanaItem> := [KanaItem("sa", "さ"), KanaItem("shi", "し"), KanaItem("su", "す"), KanaItem("se", "せ"), KanaItem("so", "そ")]
  /** Hiragana, the T-row. */
  const HiraganaTRow: seq<KanaItem> := [KanaItem("ta", "た"), KanaItem("chi", "ち"), KanaItem("tsu", "つ"), KanaItem("te", "て"), KanaItem("to", "と")]
  /** Hiragana, the N-row. */
  const HiraganaNRow: seq<KanaItem> := [KanaItem("na", "な"), KanaItem("ni", "に"), KanaItem("nu", "ぬ"), KanaItem("ne", "ね"), KanaItem("no", "の")]
  /** Hiragana, the H-row. */
  const HiraganaHRow: seq<KanaItem> := [KanaItem("ha", "は"), KanaItem("hi", "ひ"), KanaItem("fu", "ふ"), KanaItem("he", "へ"), KanaItem("ho", "ほ")]
  /** Hiragana, the M-row. */
  const HiraganaMRow: seq<KanaItem> := [KanaItem("ma", "ま"), KanaItem("mi", "み"), KanaItem("mu", "む"), KanaItem("me", "め"), KanaItem("mo", "も")]
  /** Hiragana, the Y-row. */
  const HiraganaYRow: seq<KanaItem> := [KanaItem("ya", "や"), KanaItem("yu", "ゆ"), KanaItem("yo", "よ")]
  /** Hiragana, the R-row. */
  const HiraganaRRow: seq<KanaItem> := [KanaItem("ra", "ら"), KanaItem("ri", "り"), KanaItem("ru", "る"), KanaItem("re", "れ"), KanaItem("ro", "ろ")]
  /** Hiragana, the W-row and the syllabic N. */
  const HiraganaWRowAndN: seq<KanaItem> := [KanaItem("wa", "わ"), KanaItem("wo", "を"), KanaItem("n", "ん")]
  /** Hiragana, the G-row. */
  const HiraganaGRow: seq<KanaItem> := [KanaItem("ga", "が"), KanaItem("gi", "ぎ"), KanaItem("gu", "ぐ"), KanaItem("ge", "げ"), KanaItem("go", "ご")]
  /** Hiragana, the Z-row. */
  const HiraganaZRow: seq<KanaItem> := [KanaItem("za", "ざ"), KanaItem("ji", "じ"), KanaItem("zu", "ず"), KanaItem("ze", "ぜ"), KanaItem("zo", "ぞ")]
  /** Hiragana, the D-row. */
  const HiraganaDRow: seq<KanaItem> := [KanaItem("da", "だ"), KanaItem("di", "ぢ"), KanaItem("du", "づ"), KanaItem("de", "で"), KanaItem("do", "ど")]
  /** Hiragana, the B-row. */
  const HiraganaBRow: seq<KanaItem> := [KanaItem("ba", "ば"), KanaItem("bi", "び"), KanaItem("bu", "ぶ"), KanaItem("be", "べ"), KanaItem("bo", "ぼ")]
  /** Hiragana, the P-row. */
  const HiraganaPRow: seq<KanaItem> := [KanaItem("pa", "ぱ"), KanaItem("pi", "ぴ"), KanaItem("pu", "ぷ"), KanaItem("pe", "ぺ"), KanaItem("po", "ぽ")]
  /** Hiragana, the KY-row. */
  const HiraganaKyRow: seq<KanaItem> := [KanaItem("kya", "きゃ"), KanaItem("kyu", "きゅ"), KanaItem("kyo", "きょ")]
  /** Hiragana, the SH-row of contracted sounds. */
  const HiraganaShRow: seq<KanaItem> := [KanaItem("sha", "しゃ"), KanaItem("shu", "しゅ"), KanaItem("sho", "しょ")]
  /** Hiragana, the CH-row of contracted sounds. */
  const HiraganaChRow: seq<KanaItem> := [KanaItem("cha", "ちゃ"), KanaItem("chu", "ちゅ"), KanaItem("cho", "ちょ")]
  /** Hiragana, the NY-row. */
  const HiraganaNyRow: seq<KanaItem> := [KanaItem("nya", "にゃ"), KanaItem("nyu", "にゅ"), KanaItem("nyo", "にょ")]
  /** Hiragana, the HY-row. */
  const HiraganaHyRow: seq<KanaItem> := [KanaItem("hya", "ひゃ"), KanaItem("hyu", "ひゅ"), KanaItem("hyo", "ひょ")]
  /** Hiragana, the MY-row. */
  const HiraganaMyRow: seq<KanaItem> := [KanaItem("mya", "みゃ"), KanaItem("myu", "みゅ"), KanaItem("myo", "みょ")]
  /** Hiragana, the RY-row. */
  const HiraganaRyRow: seq<KanaItem> := [KanaItem("rya", "りゃ"), KanaItem("ryu", "りゅ"), KanaItem("ryo", "りょ")]
  /** Hiragana, the GY-row. */
  const HiraganaGyRow: seq<KanaItem> := [KanaItem("gya", "ぎゃ"), KanaItem("gyu", "ぎゅ"), KanaItem("gyo", "ぎょ")]
  /** Hiragana, the J-row of contracted sounds. */
  const HiraganaJRow: seq<KanaItem> := [KanaItem("ja", "じゃ"), KanaItem("ju", "じゅ"), KanaItem("jo", "じょ")]
  /** Hiragana, the BY-row. */
  const HiraganaByRow: seq<KanaItem> := [KanaItem("bya", "びゃ"), KanaItem("byu", "びゅ"), KanaItem("byo", "びょ")]
  /** Hiragana, the PY-row. */
  const HiraganaPyRow: seq<KanaItem> := [KanaItem("pya", "ぴゃ"), KanaItem("pyu", "ぴゅ"), KanaItem("pyo", "ぴょ")]

  /** Hiragana, the plain syllables, vowels to the W-row and the final N. */
  const HiraganaBasic: seq<KanaItem> := HiraganaVowels + HiraganaKRow + HiraganaSRow + HiraganaTRow + HiraganaNRow + HiraganaHRow + HiraganaMRow + HiraganaYRow + HiraganaRRow + HiraganaWRowAndN
  /** Hiragana, the voiced rows G, Z, D and B. */
  const HiraganaDakuten: seq<KanaItem> := HiraganaGRow + HiraganaZRow + HiraganaDRow + HiraganaBRow
  /** Hiragana, the half-voiced P-row. */
  const HiraganaHandakuten: seq<KanaItem> := HiraganaPRow
  /** Hiragana, the contracted sounds (yōon), a consonant with a small ya, yu or yo. */
  const HiraganaYoon: seq<KanaItem> := HiraganaKyRow + HiraganaShRow + HiraganaChRow + HiraganaNyRow + HiraganaHyRow + HiraganaMyRow + HiraganaRyRow + HiraganaGyRow + HiraganaJRow + HiraganaByRow + HiraganaPyRow

  /** Katakana, the vowels. */
  const KatakanaVowels: seq<KanaItem> := [KanaItem("a", "ア"), KanaItem("i", "イ"), KanaItem("u", "ウ"), KanaItem("e", "エ"), KanaItem("o", "オ")]
  /** Katakana, the K-row. */
  const KatakanaKRow: seq<KanaItem> := [KanaItem("ka", "カ"), KanaItem("ki", "キ"), KanaItem("ku", "ク"), KanaItem("ke", "ケ"), KanaItem("ko", "コ")]
  /** Katakana, the S-row. */
  const KatakanaSRow: seq<KanaItem> := [KanaItem("sa", "サ"), KanaItem("shi", "シ"), KanaItem("su", "ス"), KanaItem("se", "セ"), KanaItem("so", "ソ")]
  /** Katakana, the T-row. */
  const KatakanaTRow: seq<KanaItem> := [KanaItem("ta", "タ"), KanaItem("chi", "チ"), KanaItem("tsu", "ツ"), KanaItem("te", "テ"), KanaItem("to", "ト")]
  /** Katakana, the N-row. */
  const KatakanaNRow: seq<KanaItem> := [KanaItem("na", "ナ"), KanaItem("ni", "ニ"), KanaItem("nu", "ヌ"), KanaItem("ne", "ネ"), KanaItem("no", "ノ")]
  /** Katakana, the H-row. */
  const KatakanaHRow: seq<KanaItem> := [KanaItem("ha", "ハ"), KanaItem("hi", "ヒ"), KanaItem("fu", "フ"), KanaItem("he", "ヘ"), KanaItem("ho", "ホ")]
  /** Katakana, the M-row. */
  const KatakanaMRow: seq<KanaItem> := [KanaItem("ma", "マ"), KanaItem("mi", "ミ"), KanaItem("mu", "ム"), KanaItem("me", "メ"), KanaItem("mo", "モ")]
  /** Katakana, the Y-row. */
  const KatakanaYRow: seq<KanaItem> := [KanaItem("ya", "ヤ"), KanaItem("yu", "ユ"), KanaItem("yo", "ヨ")]
  /** Katakana, the R-row. */
  const KatakanaRRow: seq<KanaItem> := [KanaItem("ra", "ラ"), KanaItem("ri", "リ"), KanaItem("ru", "ル"), KanaItem("re", "レ"), KanaItem("ro", "ロ")]
  /** Katakana, the W-row and the syllabic N. */
  const KatakanaWRowAndN: seq<KanaItem> := [KanaItem("wa", "ワ"), KanaItem("wo", "ヲ"), KanaItem("n", "ン")]
  /** Katakana, the G-row. */
  const KatakanaGRow: seq<KanaItem> := [KanaItem("ga", "ガ"), KanaItem("gi", "ギ"), KanaItem("gu", "グ"), KanaItem("ge", "ゲ"), KanaItem("go", "ゴ")]
  /** Katakana, the Z-row. */
  const KatakanaZRow: seq<KanaItem> := [KanaItem("za", "ザ"), KanaItem("ji", "ジ"), KanaItem("zu", "ズ"), KanaItem("ze", "ゼ"), KanaItem("zo", "ゾ")]
  /** Katakana, the D-row. */
  const KatakanaDRow: seq<KanaItem> := [KanaItem("da", "ダ"), KanaItem("di", "ヂ"), KanaItem("du", "ヅ"), KanaItem("de", "デ"), KanaItem("do", "ド")]
  /** Katakana, the B-row. */
  const KatakanaBRow: seq<KanaItem> := [KanaItem("ba", "バ"), KanaItem("bi", "ビ"), KanaItem("bu", "ブ"), KanaItem("be", "ベ"), KanaItem("bo", "ボ")]
  /** Katakana, the P-row. */
  const KatakanaPRow: seq<KanaItem> := [KanaItem("pa", "パ"), KanaItem("pi", "ピ"), KanaItem("pu", "プ"), KanaItem("pe", "ペ"), KanaItem("po", "ポ")]
  /** Katakana, the KY-row. */
  const KatakanaKyRow: seq<KanaItem> := [KanaItem("kya", "キャ"), KanaItem("kyu", "キュ"), KanaItem("kyo", "キョ")]
  /** Katakana, the SH-row of contracted sounds. */
  const KatakanaShRow: seq<KanaItem> := [KanaItem("sha", "シャ"), KanaItem("shu", "シュ"), KanaItem("sho", "ショ")]
  /** Katakana, the CH-row of contracted sounds. */
  const KatakanaChRow: seq<KanaItem> := [KanaItem("cha", "チャ"), KanaItem("chu", "チュ"), KanaItem("cho", "チョ")]
  /** Katakana, the NY-row. */
  const KatakanaNyRow: seq<KanaItem> := [KanaItem("nya", "ニャ"), KanaItem("nyu", "ニュ"), KanaItem("nyo", "ニョ")]
  /** Katakana, the HY-row. */
  const KatakanaHyRow: seq<KanaItem> := [KanaItem("hya", "ヒャ"), KanaItem("hyu", "ヒュ"), KanaItem("hyo", "ヒョ")]
  /** Katakana, the MY-row. */
  const KatakanaMyRow: seq<KanaItem> := [KanaItem("mya", "ミャ"), KanaItem("myu", "ミュ"), KanaItem("myo", "ミョ")]
  /** Katakana, the RY-row. */
  const KatakanaRyRow: seq<KanaItem> := [KanaItem("rya", "リャ"), KanaItem("ryu", "リュ"), KanaItem("ryo", "リョ")]
  /** Katakana, the GY-row. */
  const KatakanaGyRow: seq<KanaItem> := [KanaItem("gya", "ギャ"), KanaItem("gyu", "ギュ"), KanaItem("gyo", "ギョ")]
  /** Katakana, the J-row of contracted sounds. */
  const KatakanaJRow: seq<KanaItem> := [KanaItem("ja", "ジャ"), KanaItem("ju", "ジュ"), KanaItem("jo", "ジョ")]
  /** Katakana, the BY-row. */
  const KatakanaByRow: seq<KanaItem> := [KanaItem("bya", "ビャ"), KanaItem("byu", "ビュ"), KanaItem("byo", "ビョ")]
  /** Katakana, the PY-row. */
  const KatakanaPyRow: seq<KanaItem> := [KanaItem("pya", "ピャ"), KanaItem("pyu", "ピュ"), KanaItem("pyo", "ピョ")]

  /** Katakana, the plain syllables, vowels to the W-row and the final N. */
  const KatakanaBasic: seq<KanaItem> := KatakanaVowels + KatakanaKRow + KatakanaSRow + KatakanaTRow + KatakanaNRow + KatakanaHRow + KatakanaMRow + KatakanaYRow + KatakanaRRow + KatakanaWRowAndN
  /** Katakana, the voiced rows G, Z, D and B. */
  const KatakanaDakuten: seq<KanaItem> := KatakanaGRow + KatakanaZRow + KatakanaDRow + KatakanaBRow
  /** Katakana, the half-voiced P-row. */
  const KatakanaHandakuten: seq<KanaItem> := KatakanaPRow
  /** Katakana, the contracted sounds (yōon), a consonant with a small ya, yu or yo. */
  const KatakanaYoon: seq<KanaItem> := KatakanaKyRow + KatakanaShRow + KatakanaChRow + KatakanaNyRow + KatakanaHyRow + KatakanaMyRow + KatakanaRyRow + KatakanaGyRow + KatakanaJRow + KatakanaByRow + KatakanaPyRow

  /** `HIRAGANA`. */
  const Hiragana: seq<KanaItem> := HiraganaBasic + HiraganaDakuten + HiraganaHandakuten + HiraganaYoon
  /** `KATAKANA`. */
  const Katakana: seq<KanaItem> := KatakanaBasic + KatakanaDakuten + KatakanaHandakuten + KatakanaYoon

  lemma VowelsChecked()
    ensures Checked(HiraganaVowels, KatakanaVowels, 0, 1)
  {
    forall i | 0 <= i < |HiraganaVowels|
      ensures HiraganaVowels[i].romaji == KatakanaVowels[i].romaji && RowIndex(HiraganaVowels[i].romaji) == 0
    {
      if i == 0 {} else if i == 1 {} else if i == 2 {} else if i == 3 {} else if i == 4 {}
    }
    forall i, j | 0 <= i < j < |HiraganaVowels| ensures HiraganaVowels[i].romaji != HiraganaVowels[j].romaji {
      if i == 0 {} else if i == 1 {} else if i == 2 {} else if i == 3 {} else if i == 4 {}
    }
  }

  lemma KRowChecked()
    ensures Checked(HiraganaKRow, KatakanaKRow, 1, 2)
  {
    forall i | 0 <= i < |HiraganaKRow|
      ensures HiraganaKRow[i].romaji == KatakanaKRow[i].romaji && RowIndex(HiraganaKRow[i].romaji) == 1
    {
      if i == 0 {} else if i == 1 {} else if i == 2 {} else if i == 3 {} else if i == 4 {}
    }
    forall i, j | 0 <= i < j < |HiraganaKRow| ensures HiraganaKRow[i].romaji != HiraganaKRow[j].romaji {
      if i == 0 {} else if i == 1 {} else if i == 2 {} else if i == 3 {} else if i == 4 {}
    }
  }

  lemma SRowChecked()
    ensures Checked(HiraganaSRow, KatakanaSRow, 2, 3)
  {
    forall i | 0 <= i < |HiraganaSRow|
      ensures HiraganaSRow[i].romaji == KatakanaSRow[i].romaji && RowIndex(HiraganaSRow[i].romaji) == 2
    {
      if i == 0 {} else if i == 1 {} else if i == 2 {} else if i == 3 {} else if i == 4 {}
    }
    forall i, j | 0 <= i < j < |HiraganaSRow| ensures HiraganaSRow[i].romaji != HiraganaSRow[j].romaji {
      if i == 0 {} else if i == 1 {} else if i == 2 {} else if i == 3 {} else if i == 4 {}
    }
  }

  lemma TRowChecked()
    ensures Checked(HiraganaTRow, KatakanaTRow, 3, 4)
  {
    forall i | 0 <= i < |HiraganaTRow|
      ensures HiraganaTRow[i].romaji == KatakanaTRow[i].romaji && RowIndex(HiraganaTRow[i].romaji) == 3
    {
      if i == 0 {} else if i == 1 {} else if i == 2 {} else if i == 3 {} else if i == 4 {}
    }
    forall i, j | 0 <= i < j < |HiraganaTRow| ensures HiraganaTRow[i].romaji != HiraganaTRow[j].romaji {
      if i == 0 {} else if i == 1 {} else if i == 2 {} else if i == 3 {} else if i == 4 {}
    }
  }

  lemma NRowChecked()
    ensures Checked(HiraganaNRow, KatakanaNRow, 4, 5)
  {
    forall i | 0 <= i < |HiraganaNRow|
      ensures HiraganaNRow[i].romaji == KatakanaNRow[i].romaji && RowIndex(HiraganaNRow[i].romaji) == 4
    {
      if i == 0 {} else if i == 1 {} else if i == 2 {} else if i == 3 {} else if i == 4 {}
    }
    forall i, j | 0 <= i < j < |HiraganaNRow| ensures HiraganaNRow[i].romaji != HiraganaNRow[j].romaji {
      if i == 0 {} else if i == 1 {} else if i == 2 {} else if i == 3 {} else if i == 4 {}
    }
  }

  lemma HRowChecked()
    ensures Checked(HiraganaHRow, KatakanaHRow, 5, 6)
  {
    forall i | 0 <= i < |HiraganaHRow|
      ensures HiraganaHRow[i].romaji == KatakanaHRow[i].romaji && RowIndex(HiraganaHRow[i].romaji) == 5
    {
      if i == 0 {} else if i == 1 {} else if i == 2 {} else if i == 3 {} else if i == 4 {}
    }
    forall i, j | 0 <= i < j < |HiraganaHRow| ensures HiraganaHRow[i].romaji != HiraganaHRow[j].romaji {
      if i == 0 {} else if i == 1 {} else if i == 2 {} else if i == 3 {} else if i == 4 {}
    }
  }

  lemma MRowChecked()
    ensures Checked(HiraganaMRow, KatakanaMRow, 6, 7)
  {
    forall i | 0 <= i < |HiraganaMRow|
      ensures HiraganaMRow[i].romaji == KatakanaMRow[i].romaji && RowIndex(HiraganaMRow[i].romaji) == 6
    {
      if i == 0 {} else if i == 1 {} else if i == 2 {} else if i == 3 {} else if i == 4 {}
    }
    forall i, j | 0 <= i < j < |HiraganaMRow| ensures HiraganaMRow[i].romaji != HiraganaMRow[j].romaji {
      if i == 0 {} else if i == 1 {} else if i == 2 {} else if i == 3 {} else if i == 4 {}
    }
  }

  lemma YRowChecked()
    ensures Checked(HiraganaYRow, KatakanaYRow, 7, 8)
  {
    forall i | 0 <= i < |HiraganaYRow|
      ensures HiraganaYRow[i].romaji == KatakanaYRow[i].romaji && RowIndex(HiraganaYRow[i].romaji) == 7
    {
      if i == 0 {} else if i == 1 {} else if i == 2 {}
    }
    forall i, j | 0 <= i < j < |HiraganaYRow| ensures HiraganaYRow[i].romaji != HiraganaYRow[j].romaji {
      if i == 0 {} else if i == 1 {} else if i == 2 {}
    }
  }

  lemma RRowChecked()
    ensures Checked(HiraganaRRow, KatakanaRRow, 8, 9)
  {
    forall i | 0 <= i < |HiraganaRRow|
      ensures HiraganaRRow[i].romaji == KatakanaRRow[i].romaji && RowIndex(HiraganaRRow[i].romaji) == 8
    {
      if i == 0 {} else if i == 1 {} else if i == 2 {} else if i == 3 {} else if i == 4 {}
    }
    forall i, j | 0 <= i < j < |HiraganaRRow| ensures HiraganaRRow[i].romaji != HiraganaRRow[j].romaji {
      if i == 0 {} else if i == 1 {} else if i == 2 {} else if i == 3 {} else if i == 4 {}
    }
  }

  lemma WRowAndNChecked()
    ensures Checked(HiraganaWRowAndN, KatakanaWRowAndN, 9, 10)
  {
    forall i | 0 <= i < |HiraganaWRowAndN|
      ensures HiraganaWRowAndN[i].romaji == KatakanaWRowAndN[i].romaji && RowIndex(HiraganaWRowAndN[i].romaji) == 9
    {
      if i == 0 {} else if i == 1 {} else if i == 2 {}
    }
    forall i, j | 0 <= i < j < |HiraganaWRowAndN| ensures HiraganaWRowAndN[i].romaji != HiraganaWRowAndN[j].romaji {
      if i == 0 {} else if i == 1 {} else if i == 2 {}
    }
  }

  lemma GRowChecked()
    ensures Checked(HiraganaGRow, KatakanaGRow, 10, 11)
  {
    forall i | 0 <= i < |HiraganaGRow|
      ensures HiraganaGRow[i].romaji == KatakanaGRow[i].romaji && RowIndex(HiraganaGRow[i].romaji) == 10
    {
      if i == 0 {} else if i == 1 {} else if i == 2 {} else if i == 3 {} else if i == 4 {}
    }
    forall i, j | 0 <= i < j < |HiraganaGRow| ensures HiraganaGRow[i].romaji != HiraganaGRow[j].romaji {
      if i == 0 {} else if i == 1 {} else if i == 2 {} else if i == 3 {} else if i == 4 {}
    }
  }

  lemma ZRowChecked()
    ensures Checked(HiraganaZRow, KatakanaZRow, 11, 12)
  {
    forall i | 0 <= i < |HiraganaZRow|
      ensures HiraganaZRow[i].romaji == KatakanaZRow[i].romaji && RowIndex(HiraganaZRow[i].romaji) == 11
    {
      if i == 0 {} else if i == 1 {} else if i == 2 {} else if i == 3 {} else if i == 4 {}
    }
    forall i, j | 0 <= i < j < |HiraganaZRow| ensures HiraganaZRow[i].romaji != HiraganaZRow[j].romaji {
      if i == 0 {} else if i == 1 {} else if i == 2 {} else if i == 3 {} else if i == 4 {}
    }
  }

  lemma DRowChecked()
    ensures Checked(HiraganaDRow, KatakanaDRow, 12, 13)
  {
    forall i | 0 <= i < |HiraganaDRow|
      ensures HiraganaDRow[i].romaji == KatakanaDRow[i].romaji && RowIndex(HiraganaDRow[i].romaji) == 12
    {
      if i == 0 {} else if i == 1 {} else if i == 2 {} else if i == 3 {} else if i == 4 {}
    }
    forall i, j | 0 <= i < j < |HiraganaDRow| ensures HiraganaDRow[i].romaji != HiraganaDRow[j].romaji {
      if i == 0 {} else if i == 1 {} else if i == 2 {} else if i == 3 {} else if i == 4 {}
    }
  }

  lemma BRowChecked()
    ensures Checked(HiraganaBRow, KatakanaBRow, 13, 14)
  {
    forall i | 0 <= i < |HiraganaBRow|
      ensures HiraganaBRow[i].romaji == KatakanaBRow[i].romaji && RowIndex(HiraganaBRow[i].romaji) == 13
    {
      if i == 0 {} else if i == 1 {} else if i == 2 {} else if i == 3 {} else if i == 4 {}
    }
    forall i, j | 0 <= i < j < |HiraganaBRow| ensures HiraganaBRow[i].romaji != HiraganaBRow[j].romaji {
      if i == 0 {} else if i == 1 {} else if i == 2 {} else if i == 3 {} else if i == 4 {}
    }
  }

  lemma PRowChecked()
    ensures Checked(HiraganaPRow, KatakanaPRow, 14, 15)
  {
    forall i | 0 <= i < |HiraganaPRow|
      ensures HiraganaPRow[i].romaji == KatakanaPRow[i].romaji && RowIndex(HiraganaPRow[i].romaji) == 14
    {
      if i == 0 {} else if i == 1 {} else if i == 2 {} else if i == 3 {} else if i == 4 {}
    }
    forall i, j | 0 <= i < j < |HiraganaPRow| ensures HiraganaPRow[i].romaji != HiraganaPRow[j].romaji {
      if i == 0 {} else if i == 1 {} else if i == 2 {} else if i == 3 {} else if i == 4 {}
    }
  }

  lemma KyRowChecked()
    ensures Checked(HiraganaKyRow, KatakanaKyRow, 15, 16)
  {
    forall i | 0 <= i < |HiraganaKyRow|
      ensures HiraganaKyRow[i].romaji == KatakanaKyRow[i].romaji && RowIndex(HiraganaKyRow[i].romaji) == 15
    {
      if i == 0 {} else if i == 1 {} else if i == 2 {}
    }
    forall i, j | 0 <= i < j < |HiraganaKyRow| ensures HiraganaKyRow[i].romaji != HiraganaKyRow[j].romaji {
      if i == 0 {} else if i == 1 {} else if i == 2 {}
    }
  }

  lemma ShRowChecked()
    ensures Checked(HiraganaShRow, KatakanaShRow, 16, 17)
  {
    forall i | 0 <= i < |HiraganaShRow|
      ensures HiraganaShRow[i].romaji == KatakanaShRow[i].romaji && RowIndex(HiraganaShRow[i].romaji) == 16
    {
      if i == 0 {} else if i == 1 {} else if i == 2 {}
    }
    forall i, j | 0 <= i < j < |HiraganaShRow| ensures HiraganaShRow[i].romaji != HiraganaShRow[j].romaji {
      if i == 0 {} else if i == 1 {} else if i == 2 {}
    }
  }

  lemma ChRowChecked()
    ensures Checked(HiraganaChRow, KatakanaChRow, 17, 18)
  {
    forall i | 0 <= i < |HiraganaChRow|
      ensures HiraganaChRow[i].romaji == KatakanaChRow[i].romaji && RowIndex(HiraganaChRow[i].romaji) == 17
    {
      if i == 0 {} else if i == 1 {} else if i == 2 {}
    }
    forall i, j | 0 <= i < j < |HiraganaChRow| ensures HiraganaChRow[i].romaji != HiraganaChRow[j].romaji {
      if i == 0 {} else if i == 1 {} else if i == 2 {}
    }
  }

  lemma NyRowChecked()
    ensures Checked(HiraganaNyRow, KatakanaNyRow, 18, 19)
  {
    forall i | 0 <= i < |HiraganaNyRow|
      ensures HiraganaNyRow[i].romaji == KatakanaNyRow[i].romaji && RowIndex(HiraganaNyRow[i].romaji) == 18
    {
      if i == 0 {} else if i == 1 {} else if i == 2 {}
    }
    forall i, j | 0 <= i < j < |HiraganaNyRow| ensures HiraganaNyRow[i].romaji != HiraganaNyRow[j].romaji {
      if i == 0 {} else if i == 1 {} else if i == 2 {}
    }
  }

  lemma HyRowChecked()
    ensures Checked(HiraganaHyRow, KatakanaHyRow, 19, 20)
  {
    forall i | 0 <= i < |HiraganaHyRow|
      ensures HiraganaHyRow[i].romaji == KatakanaHyRow[i].romaji && RowIndex(HiraganaHyRow[i].romaji) == 19
    {
      if i == 0 {} else if i == 1 {} else if i == 2 {}
    }
    forall i, j | 0 <= i < j < |HiraganaHyRow| ensures HiraganaHyRow[i].romaji != HiraganaHyRow[j].romaji {
      if i == 0 {} else if i == 1 {} else if i == 2 {}
    }
  }

  lemma MyRowChecked()
    ensures Checked(HiraganaMyRow, KatakanaMyRow, 20, 21)
  {
    forall i | 0 <= i < |HiraganaMyRow|
      ensures HiraganaMyRow[i].romaji == KatakanaMyRow[i].romaji && RowIndex(HiraganaMyRow[i].romaji) == 20
    {
      if i == 0 {} else if i == 1 {} else if i == 2 {}
    }
    forall i, j | 0 <= i < j < |HiraganaMyRow| ensures HiraganaMyRow[i].romaji != HiraganaMyRow[j].romaji {
      if i == 0 {} else if i == 1 {} else if i == 2 {}
    }
  }

  lemma RyRowChecked()
    ensures Checked(HiraganaRyRow, KatakanaRyRow, 21, 22)
  {
    forall i | 0 <= i < |HiraganaRyRow|
      ensures HiraganaRyRow[i].romaji == KatakanaRyRow[i].romaji && RowIndex(HiraganaRyRow[i].romaji) == 21
    {
      if i == 0 {} else if i == 1 {} else if i == 2 {}
    }
    forall i, j | 0 <= i < j < |HiraganaRyRow| ensures HiraganaRyRow[i].romaji != HiraganaRyRow[j].romaji {
      if i == 0 {} else if i == 1 {} else if i == 2 {}
    }
  }

  lemma GyRowChecked()
    ensures Checked(HiraganaGyRow, KatakanaGyRow, 22, 23)
  {
    forall i | 0 <= i < |HiraganaGyRow|
      ensures HiraganaGyRow[i].romaji == KatakanaGyRow[i].romaji && RowIndex(HiraganaGyRow[i].romaji) == 22
    {
      if i == 0 {} else if i == 1 {} else if i == 2 {}
    }
    forall i, j | 0 <= i < j < |HiraganaGyRow| ensures HiraganaGyRow[i].romaji != HiraganaGyRow[j].romaji {
      if i == 0 {} else if i == 1 {} else if i == 2 {}
    }
  }

  lemma JRowChecked()
    ensures Checked(HiraganaJRow, KatakanaJRow, 23, 24)
  {
    forall i | 0 <= i < |HiraganaJRow|
      ensures HiraganaJRow[i].romaji == KatakanaJRow[i].romaji && RowIndex(HiraganaJRow[i].romaji) == 23
    {
      if i == 0 {} else if i == 1 {} else if i == 2 {}
    }
    forall i, j | 0 <= i < j < |HiraganaJRow| ensures HiraganaJRow[i].romaji != HiraganaJRow[j].romaji {
      if i == 0 {} else if i == 1 {} else if i == 2 {}
    }
  }

  lemma ByRowChecked()
    ensures Checked(HiraganaByRow, KatakanaByRow, 24, 25)
  {
    forall i | 0 <= i < |HiraganaByRow|
      ensures HiraganaByRow[i].romaji == KatakanaByRow[i].romaji && RowIndex(HiraganaByRow[i].romaji) == 24
    {
      if i == 0 {} else if i == 1 {} else if i == 2 {}
    }
    forall i, j | 0 <= i < j < |HiraganaByRow| ensures HiraganaByRow[i].romaji != HiraganaByRow[j].romaji {
      if i == 0 {} else if i == 1 {} else if i == 2 {}
    }
  }

  lemma PyRowChecked()
    ensures Checked(HiraganaPyRow, KatakanaPyRow, 25, 26)
  {
    forall i | 0 <= i < |HiraganaPyRow|
      ensures HiraganaPyRow[i].romaji == KatakanaPyRow[i].romaji && RowIndex(HiraganaPyRow[i].romaji) == 25
    {
      if i == 0 {} else if i == 1 {} else if i == 2 {}
    }
    forall i, j | 0 <= i < j < |HiraganaPyRow| ensures HiraganaPyRow[i].romaji != HiraganaPyRow[j].romaji {
      if i == 0 {} else if i == 1 {} else if i == 2 {}
    }
  }

  lemma BasicChecked()
    ensures Checked(HiraganaBasic, KatakanaBasic, 0, 10)
  {
    VowelsChecked();
    KRowChecked();
    Join(HiraganaVowels, HiraganaKRow,
         KatakanaVowels, KatakanaKRow, 0, 1, 2);
    SRowChecked();
    Join(HiraganaVowels + HiraganaKRow, HiraganaSRow,
         KatakanaVowels + KatakanaKRow, KatakanaSRow, 0, 2, 3);
    TRowChecked();
    Join(HiraganaVowels + HiraganaKRow + HiraganaSRow, HiraganaTRow,
         KatakanaVowels + KatakanaKRow + KatakanaSRow, KatakanaTRow, 0, 3, 4);
    NRowChecked();
    Join(HiraganaVowels + HiraganaKRow + HiraganaSRow + HiraganaTRow, HiraganaNRow,
         KatakanaVowels + KatakanaKRow + KatakanaSRow + KatakanaTRow, KatakanaNRow, 0, 4, 5);
    HRowChecked();
    Join(HiraganaVowels + HiraganaKRow + HiraganaSRow + HiraganaTRow + HiraganaNRow, HiraganaHRow,
         KatakanaVowels + KatakanaKRow + KatakanaSRow + KatakanaTRow + KatakanaNRow, KatakanaHRow, 0, 5, 6);
    MRowChecked();
    Join(HiraganaVowels + HiraganaKRow + HiraganaSRow + HiraganaTRow + HiraganaNRow + HiraganaHRow, HiraganaMRow,
         KatakanaVowels + KatakanaKRow + KatakanaSRow + KatakanaTRow + KatakanaNRow + KatakanaHRow, KatakanaMRow, 0, 6, 7);
    YRowChecked();
    Join(HiraganaVowels + HiraganaKRow + HiraganaSRow + HiraganaTRow + HiraganaNRow + HiraganaHRow + HiraganaMRow, HiraganaYRow,
         KatakanaVowels + KatakanaKRow + KatakanaSRow + KatakanaTRow + KatakanaNRow + KatakanaHRow + KatakanaMRow, KatakanaYRow, 0, 7, 8);
    RRowChecked();
    Join(HiraganaVowels + HiraganaKRow + HiraganaSRow + HiraganaTRow + HiraganaNRow + HiraganaHRow + HiraganaMRow + HiraganaYRow, HiraganaRRow,
         KatakanaVowels + KatakanaKRow + KatakanaSRow + KatakanaTRow + KatakanaNRow + KatakanaHRow + KatakanaMRow + KatakanaYRow, KatakanaRRow, 0, 8, 9);
    WRowAndNChecked();
    Join(HiraganaVowels + HiraganaKRow + HiraganaSRow + HiraganaTRow + HiraganaNRow + HiraganaHRow + HiraganaMRow + HiraganaYRow + HiraganaRRow, HiraganaWRowAndN,
         KatakanaVowels + KatakanaKRow + KatakanaSRow + KatakanaTRow + KatakanaNRow + KatakanaHRow + KatakanaMRow + KatakanaYRow + KatakanaRRow, KatakanaWRowAndN, 0, 9, 10);
  }

  lemma DakutenChecked()
    ensures Checked(HiraganaDakuten, KatakanaDakuten, 10, 14)
  {
    GRowChecked();
    ZRowChecked();
    Join(HiraganaGRow, HiraganaZRow,
         KatakanaGRow, KatakanaZRow, 10, 11, 12);
    DRowChecked();
    Join(HiraganaGRow + HiraganaZRow, HiraganaDRow,
         KatakanaGRow + KatakanaZRow, KatakanaDRow, 10, 12, 13);
    BRowChecked();
    Join(HiraganaGRow + HiraganaZRow + HiraganaDRow, HiraganaBRow,
         KatakanaGRow + KatakanaZRow + KatakanaDRow, KatakanaBRow, 10, 13, 14);
  }

  lemma HandakutenChecked()
    ensures Checked(HiraganaHandakuten, KatakanaHandakuten, 14, 15)
  {
    PRowChecked();
  }

  lemma YoonChecked()
    ensures Checked(HiraganaYoon, KatakanaYoon, 15, 26)
  {
    KyRowChecked();
    ShRowChecked();
    Join(HiraganaKyRow, HiraganaShRow,
         KatakanaKyRow, KatakanaShRow, 15, 16, 17);
    ChRowChecked();
    Join(HiraganaKyRow + HiraganaShRow, HiraganaChRow,
         KatakanaKyRow + KatakanaShRow, KatakanaChRow, 15, 17, 18);
    NyRowChecked();
    Join(HiraganaKyRow + HiraganaShRow + HiraganaChRow, HiraganaNyRow,
         KatakanaKyRow + KatakanaShRow + KatakanaChRow, KatakanaNyRow, 15, 18, 19);
    HyRowChecked();
    Join(HiraganaKyRow + HiraganaShRow + HiraganaChRow + HiraganaNyRow, HiraganaHyRow,
         KatakanaKyRow + KatakanaShRow + KatakanaChRow + KatakanaNyRow, KatakanaHyRow, 15, 19, 20);
    MyRowChecked();
    Join(HiraganaKyRow + HiraganaShRow + HiraganaChRow + HiraganaNyRow + HiraganaHyRow, HiraganaMyRow,
         KatakanaKyRow + KatakanaShRow + KatakanaChRow + KatakanaNyRow + KatakanaHyRow, KatakanaMyRow, 15, 20, 21);
    RyRowChecked();
    Join(HiraganaKyRow + HiraganaShRow + HiraganaChRow + HiraganaNyRow + HiraganaHyRow + HiraganaMyRow, HiraganaRyRow,
         KatakanaKyRow + KatakanaShRow + KatakanaChRow + KatakanaNyRow + KatakanaHyRow + KatakanaMyRow, KatakanaRyRow, 15, 21, 22);
    GyRowChecked();
    Join(HiraganaKyRow + HiraganaShRow + HiraganaChRow + HiraganaNyRow + HiraganaHyRow + HiraganaMyRow + HiraganaRyRow, HiraganaGyRow,
         KatakanaKyRow + KatakanaShRow + KatakanaChRow + KatakanaNyRow + KatakanaHyRow + KatakanaMyRow + KatakanaRyRow, KatakanaGyRow, 15, 22, 23);
    JRowChecked();
    Join(HiraganaKyRow + HiraganaShRow + HiraganaChRow + HiraganaNyRow + HiraganaHyRow + HiraganaMyRow + HiraganaRyRow + HiraganaGyRow, HiraganaJRow,
         KatakanaKyRow + KatakanaShRow + KatakanaChRow + KatakanaNyRow + KatakanaHyRow + KatakanaMyRow + KatakanaRyRow + KatakanaGyRow, KatakanaJRow, 15, 23, 24);
    ByRowChecked();
    Join(HiraganaKyRow + HiraganaShRow + HiraganaChRow + HiraganaNyRow + HiraganaHyRow + HiraganaMyRow + HiraganaRyRow + HiraganaGyRow + HiraganaJRow, HiraganaByRow,
         KatakanaKyRow + KatakanaShRow + KatakanaChRow + KatakanaNyRow + KatakanaHyRow + KatakanaMyRow + KatakanaRyRow + KatakanaGyRow + KatakanaJRow, KatakanaByRow, 15, 24, 25);
    PyRowChecked();
    Join(HiraganaKyRow + HiraganaShRow + HiraganaChRow + HiraganaNyRow + HiraganaHyRow + HiraganaMyRow + HiraganaRyRow + HiraganaGyRow + HiraganaJRow + HiraganaByRow, HiraganaPyRow,
         KatakanaKyRow + KatakanaShRow + KatakanaChRow + KatakanaNyRow + KatakanaHyRow + KatakanaMyRow + KatakanaRyRow + KatakanaGyRow + KatakanaJRow + KatakanaByRow, KatakanaPyRow, 15, 25, 26);
  }

  /**
   * `HIRAGANA` and `KATAKANA` list the same 104 romaji in the same order,
   * and within each table the romaji are pairwise distinct.
   */
  lemma TablesWellFormed()
    ensures |Hiragana| == 104 && |Katakana| == 104
    ensures SameRomaji(Hiragana, Katakana)
    ensures DistinctRomaji(Hiragana) && DistinctRomaji(Katakana)
  {
    BasicChecked();
    DakutenChecked();
    HandakutenChecked();
    YoonChecked();
    Join(HiraganaBasic, HiraganaDakuten, KatakanaBasic, KatakanaDakuten, 0, 10, 14);
    Join(HiraganaBasic + HiraganaDakuten, HiraganaHandakuten, KatakanaBasic + KatakanaDakuten, KatakanaHandakuten, 0, 14, 15);
    Join(HiraganaBasic + HiraganaDakuten + HiraganaHandakuten, HiraganaYoon,
         KatakanaBasic + KatakanaDakuten + KatakanaHandakuten, KatakanaYoon, 0, 15, 26);
  }
}
