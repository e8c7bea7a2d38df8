/**
 * The kana table: for each romanized syllable, its hiragana and katakana
 * glyphs, in the order the table lists them (the fifty-sounds order).
 */
module Pronounces {
  import opened Records

  /** A syllable's two written forms: hiragana `h` and katakana `k`. */
  datatype Kana = Kana(h: string, k: string)

  /** The `JAPANESE_PRONOUNCES` record, keyed by romanized syllable: the
      rows of the syllabary one after another. */
  const JapanesePronounces: Record<Kana> :=
    ARow + KaRow + SaRow + TaRow + NaRow + HaRow + MaRow + YaRow + RaRow + WaRow

  const ARow: Record<Kana> := [
    Entry("a", Kana("あ", "ア")),
    Entry("i", Kana("い", "イ")),
    Entry("u", Kana("う", "ウ")),
    Entry("e", Kana("え", "エ")),
    Entry("o", Kana("お", "オ"))
  ]
  const KaRow: Record<Kana> := [
    Entry("ka", Kana("か", "カ")),
    Entry("ki", Kana("き", "キ")),
    Entry("ku", Kana("く", "ク")),
    Entry("ke", Kana("け", "ケ")),
    Entry("ko", Kana("こ", "コ"))
  ]
  const SaRow: Record<Kana> := [
    Entry("sa", Kana("さ", "サ")),
    Entry("shi", Kana("し", "シ")),
    Entry("su", Kana("す", "ス")),
    Entry("se", Kana("せ", "セ")),
    Entry("so", Kana("そ", "ソ"))
  ]
  const TaRow: Record<Kana> := [
    Entry("ta", Kana("た", "タ")),
    Entry("chi", Kana("ち", "チ")),
    Entry("tsu", Kana("つ", "ツ")),
    Entry("te", Kana("て", "テ")),
    Entry("to", Kana("と", "ト"))
  ]
  const NaRow: Record<Kana> := [
    Entry("na", Kana("な", "ナ")),
    Entry("ni", Kana("に", "ニ")),
    Entry("nu", Kana("ぬ", "ヌ")),
    Entry("ne", Kana("ね", "ネ")),
    Entry("no", Kana("の", "ノ"))
  ]
  const HaRow: Record<Kana> := [
    Entry("ha", Kana("は", "ハ")),
    Entry("hi", Kana("ひ", "ヒ")),
    Entry("fu", Kana("ふ", "フ")),
    Entry("he", Kana("へ", "ヘ")),
    Entry("ho", Kana("ほ", "ホ"))
  ]
  const MaRow: Record<Kana> := [
    Entry("ma", Kana("ま", "マ")),
    Entry("mi", Kana("み", "ミ")),
    Entry("mu", Kana("む", "ム")),
    Entry("me", Kana("め", "メ")),
    Entry("mo", Kana("も", "モ"))
  ]
  const YaRow: Record<Kana> := [
    Entry("ya", Kana("や", "ヤ")),
    Entry("yu", Kana("ゆ", "ユ")),
    Entry("yo", Kana("よ", "ヨ"))
  ]
  const RaRow: Record<Kana> := [
    Entry("ra", Kana("ら", "ラ")),
    Entry("ri", Kana("り", "リ")),
    Entry("ru", Kana("る", "ル")),
    Entry("re", Kana("れ", "レ")),
    Entry("ro", Kana("ろ", "ロ"))
  ]
  const WaRow: Record<Kana> := [
    Entry("wa", Kana("わ", "ワ")),
    Entry("wo", Kana("を", "ヲ")),
    Entry("n", Kana("ん", "ン"))
  ]

  /** A code point of the Unicode hiragana block. */
  predicate IsHiragana(c: char) {
    '\U{3041}' <= c <= '\U{309F}'
  }

  /** A code point of the Unicode katakana block. */
  predicate IsKatakana(c: char) {
    '\U{30A0}' <= c <= '\U{30FF}'
  }

  /** One hiragana glyph and its katakana counterpart, which lies 0x60
      code points further on. */
  predicate IsKanaPair(kana: Kana) {
    && |kana.h| == 1 && |kana.k| == 1
    && IsHiragana(kana.h[0]) && IsKatakana(kana.k[0])
    && kana.k[0] as int == kana.h[0] as int + 0x60
  }

  /** The table has 46 entries, each one glyph of each script for the
      same syllable. */
  lemma EntriesAreKanaPairs()
    ensures |JapanesePronounces| == 46
    ensures forall i :: 0 <= i < |JapanesePronounces| ==> IsKanaPair(JapanesePronounces[i].value)
  {
    KanaPairsBelow();
    KanaPairsFrom();
  }

  /** The two halves of `EntriesAreKanaPairs`, row by row. */
  lemma KanaPairsBelow()
    ensures forall i :: 0 <= i < 23 ==> IsKanaPair(JapanesePronounces[i].value)
  {
    forall i | 0 <= i < 23
      ensures IsKanaPair(JapanesePronounces[i].value)
    {
      if i < 5 { assert i == 0 || i == 1 || i == 2 || i == 3 || i == 4; }
      else if i < 10 { assert i == 5 || i == 6 || i == 7 || i == 8 || i == 9; }
      else if i < 15 { assert i == 10 || i == 11 || i == 12 || i == 13 || i == 14; }
      else if i < 20 { assert i == 15 || i == 16 || i == 17 || i == 18 || i == 19; }
      else { assert i == 20 || i == 21 || i == 22; }
    }
  }

  lemma KanaPairsFrom()
    ensures forall i :: 23 <= i < |JapanesePronounces| ==> IsKanaPair(JapanesePronounces[i].value)
  {
    forall i | 23 <= i < |JapanesePronounces|
      ensures IsKanaPair(JapanesePronounces[i].value)
    {
      if i < 25 { assert i == 23 || i == 24; }
      else if i < 30 { assert i == 25 || i == 26 || i == 27 || i == 28 || i == 29; }
      else if i < 35 { assert i == 30 || i == 31 || i == 32 || i == 33 || i == 34; }
      else if i < 38 { assert i == 35 || i == 36 || i == 37; }
      else if i < 43 { assert i == 38 || i == 39 || i == 40 || i == 41 || i == 42; }
      else { assert i == 43 || i == 44 || i == 45; }
    }
  }

  /** The hiragana code points, in table order. */
  ghost function HiraganaCodes(): (codes: seq<int>)
    ensures |codes| == |JapanesePronounces|
  {
    EntriesAreKanaPairs();
    seq(|JapanesePronounces|, i requires 0 <= i < |JapanesePronounces| =>
      JapanesePronounces[i].value.h[0] as int)
  }

  /** Along the table the hiragana code points strictly increase. */
  lemma HiraganaIncreasing()
    ensures forall i :: 0 <= i < |HiraganaCodes()| - 1 ==> HiraganaCodes()[i] < HiraganaCodes()[i + 1]
  {
    IncreasingBelow();
    IncreasingFrom();
  }

  /** The two halves of `HiraganaIncreasing`, row by row. */
  lemma IncreasingBelow()
    ensures forall i :: 0 <= i < 22 ==> HiraganaCodes()[i] < HiraganaCodes()[i + 1]
  {
    var codes := HiraganaCodes();
    forall i | 0 <= i < 22
      ensures codes[i] < codes[i + 1]
    {
      if i < 5 { assert i == 0 || i == 1 || i == 2 || i == 3 || i == 4; }
      else if i < 10 { assert i == 5 || i == 6 || i == 7 || i == 8 || i == 9; }
      else if i < 15 { assert i == 10 || i == 11 || i == 12 || i == 13 || i == 14; }
      else if i < 20 { assert i == 15 || i == 16 || i == 17 || i == 18 || i == 19; }
      else { assert i == 20 || i == 21; }
    }
  }

  lemma IncreasingFrom()
    ensures forall i :: 22 <= i < |HiraganaCodes()| - 1 ==> HiraganaCodes()[i] < HiraganaCodes()[i + 1]
  {
    var codes := HiraganaCodes();
    forall i | 22 <= i < |codes| - 1
      ensures codes[i] < codes[i + 1]
    {
      if i < 25 { assert i == 22 || i == 23 || i == 24; }
      else if i < 30 { assert i == 25 || i == 26 || i == 27 || i == 28 || i == 29; }
      else if i < 35 { assert i == 30 || i == 31 || i == 32 || i == 33 || i == 34; }
      else if i < 38 { assert i == 35 || i == 36 || i == 37; }
      else if i < 43 { assert i == 38 || i == 39 || i == 40 || i == 41 || i == 42; }
      else { assert i == 43 || i == 44; }
    }
  }

  /** A sequence whose neighbours increase is increasing throughout. */
  lemma {:induction false} IncreasingThroughout(codes: seq<int>)
    requires forall i :: 0 <= i < |codes| - 1 ==> codes[i] < codes[i + 1]
    ensures forall i, j :: 0 <= i < j < |codes| ==> codes[i] < codes[j]
  {
    if |codes| > 1 {
      IncreasingThroughout(codes[1..]);
      forall j | 1 < j < |codes|
        ensures codes[0] < codes[j]
      {
        assert codes[1..][0] < codes[1..][j - 1];
      }
    }
  }

  /** Distinct entries have distinct hiragana and distinct katakana. */
  lemma GlyphsDistinct()
    ensures forall i, j :: 0 <= i < j < |JapanesePronounces| ==>
      JapanesePronounces[i].value.h != JapanesePronounces[j].value.h &&
      JapanesePronounces[i].value.k != JapanesePronounces[j].value.k
  {
    EntriesAreKanaPairs();
    var codes := HiraganaCodes();
    HiraganaIncreasing();
    IncreasingThroughout(codes);
    forall i, j | 0 <= i < j < |JapanesePronounces|
      ensures JapanesePronounces[i].value.h != JapanesePronounces[j].value.h
      ensures JapanesePronounces[i].value.k != JapanesePronounces[j].value.k
    {
      assert codes[i] < codes[j];
    }
  }
}
