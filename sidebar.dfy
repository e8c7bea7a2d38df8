/**
 * The settings panel: the settings shape, the registry of syllable groups
 * it lists as checkboxes, and the partial updates its two controls hand to
 * the settings store.
 */
module Sidebar {
  import opened Wrappers
  import opened Records
  import opened Strings

  /** `SettingsType`: the reveal delay in seconds and, per group id,
      whether the group is enabled. */
  datatype Settings = Settings(delay: nat, selectedSyllables: Record<bool>)

  /** `Partial<SettingsType>`: `Some` for each field the update replaces. */
  datatype PartialSettings = PartialSettings(delay: Option<nat>, selectedSyllables: Option<Record<bool>>)

  /** `syllableGroups`: group id to its syllables, separated by "/". */
  const SyllableGroups: Record<string> := [
    Entry("aiueo", "a/i/u/e/o"),
    Entry("kakikukeko", "ka/ki/ku/ke/ko"),
    Entry("sashisuseso", "sa/shi/su/se/so"),
    Entry("tachitsuteto", "ta/chi/tsu/te/to"),
    Entry("naninuneno", "na/ni/nu/ne/no"),
    Entry("hahifuheho", "ha/hi/fu/he/ho"),
    Entry("mamimumemo", "ma/mi/mu/me/mo"),
    Entry("yayuyo", "ya/yu/yo"),
    Entry("rarirurero", "ra/ri/ru/re/ro"),
    Entry("wawon", "wa/wo/n")
  ]

  predicate IsGroup(group: string) {
    group in Keys(SyllableGroups)
  }

  /** `syllableGroups[group].split("/")`. */
  function Syllables(group: string): (syllables: seq<string>)
    requires IsGroup(group)
    ensures |syllables| >= 1
  {
    Split(Get(SyllableGroups, group).value, '/')
  }

  /** `handleDelayChange`: an update of the delay alone. */
  function HandleDelayChange(value: nat): (update: PartialSettings) {
    PartialSettings(Some(value), None)
  }

  /** The map `toggleSyllable` builds: `key` set to the negation of its
      entry, where a missing entry (`undefined`) negates to true. */
  function Toggled(selected: Record<bool>, key: string): (next: Record<bool>) {
    Set(selected, key, Get(selected, key) != Some(true))
  }

  /** `toggleSyllable`: an update of `selectedSyllables` alone. */
  function ToggleSyllable(settings: Settings, key: string): (update: PartialSettings) {
    PartialSettings(None, Some(Toggled(settings.selectedSyllables, key)))
  }

  /** Toggling negates the entry for `key` and keeps every other entry. */
  lemma ToggleFlipsOnlyKey(selected: Record<bool>, key: string)
    ensures Get(Toggled(selected, key), key) == Some(Get(selected, key) != Some(true))
    ensures forall j :: j != key ==> Get(Toggled(selected, key), j) == Get(selected, j)
  {
    GetSetSame(selected, key, Get(selected, key) != Some(true));
    forall j | j != key
      ensures Get(Toggled(selected, key), j) == Get(selected, j)
    {
      GetSetOther(selected, key, Get(selected, key) != Some(true), j);
    }
  }

  /** Toggling a key the map lacks appends it as enabled. */
  lemma ToggleAbsentEnables(selected: Record<bool>, key: string)
    requires key !in Keys(selected)
    ensures Toggled(selected, key) == selected + [Entry(key, true)]
  {
  }

  /** Toggling twice restores the map exactly when the key was present;
      otherwise the key is left behind, disabled. */
  lemma ToggleTwice(selected: Record<bool>, key: string)
    ensures key in Keys(selected) ==> Toggled(Toggled(selected, key), key) == selected
    ensures key !in Keys(selected) ==>
      Toggled(Toggled(selected, key), key) == selected + [Entry(key, false)]
  {
    if key in Keys(selected) {
      var b := Get(selected, key).value;
      SetSet(selected, key, !b, b);
      GetSetSame(selected, key, !b);
      SetGet(selected, key, b);
    } else {
      var once := selected + [Entry(key, true)];
      assert Keys(once)[|selected|] == key;
      GetSetSame(selected, key, true);
      assert Toggled(once, key) == Set(once, key, false);
      SetAppended(selected, key);
    }
  }

  /** Overwriting the entry just appended. */
  lemma SetAppended(selected: Record<bool>, key: string)
    requires key !in Keys(selected)
    ensures Set(selected + [Entry(key, true)], key, false) == selected + [Entry(key, false)]
  {
    if selected != [] {
      assert selected[0].key != key by { assert Keys(selected)[0] == selected[0].key; }
      assert Keys(selected[1..]) == Keys(selected)[1..];
      SetAppended(selected[1..], key);
      assert (selected + [Entry(key, true)])[1..] == selected[1..] + [Entry(key, true)];
    }
  }

  /** A split of separator-free, non-empty pieces. */
  lemma SplitOf(pieces: seq<string>)
    requires |pieces| >= 1
    requires forall i :: 0 <= i < |pieces| ==> '/' !in pieces[i]
    ensures Split(Join(pieces, '/'), '/') == pieces
  {
    SplitJoin(pieces, '/');
  }

  /** The registry's ten ids, none listed twice. */
  lemma RegistryIds()
    ensures Keys(SyllableGroups) == ["aiueo", "kakikukeko", "sashisuseso", "tachitsuteto", "naninuneno", "hahifuheho", "mamimumemo", "yayuyo", "rarirurero", "wawon"]
    ensures WellFormed(SyllableGroups)
  {
  }

  /** The syllables of each group of the registry, in order. */
  ghost const GroupSyllables: seq<seq<string>> := [
    ["a", "i", "u", "e", "o"],
    ["ka", "ki", "ku", "ke", "ko"],
    ["sa", "shi", "su", "se", "so"],
    ["ta", "chi", "tsu", "te", "to"],
    ["na", "ni", "nu", "ne", "no"],
    ["ha", "hi", "fu", "he", "ho"],
    ["ma", "mi", "mu", "me", "mo"],
    ["ya", "yu", "yo"],
    ["ra", "ri", "ru", "re", "ro"],
    ["wa", "wo", "n"]
  ]

  /** Splitting each group's string on "/" gives its syllables. */
  lemma GroupSplits()
    ensures |GroupSyllables| == |SyllableGroups|
    ensures forall i :: 0 <= i < |SyllableGroups| ==> Split(SyllableGroups[i].value, '/') == GroupSyllables[i]
  {
    forall i | 0 <= i < |SyllableGroups|
      ensures Split(SyllableGroups[i].value, '/') == GroupSyllables[i]
    {
      if i == 0 { SplitAiueo(); }
      else if i == 1 { SplitKakikukeko(); }
      else if i == 2 { SplitSashisuseso(); }
      else if i == 3 { SplitTachitsuteto(); }
      else if i == 4 { SplitNaninuneno(); }
      else if i == 5 { SplitHahifuheho(); }
      else if i == 6 { SplitMamimumemo(); }
      else if i == 7 { SplitYayuyo(); }
      else if i == 8 { SplitRarirurero(); }
      else { SplitWawon(); }
    }
  }

  /** Each registry string, split: one lemma per group. */
  lemma SplitAiueo()
    ensures Split(SyllableGroups[0].value, '/') == ["a", "i", "u", "e", "o"]
  {
    assert Join(["a", "i", "u", "e", "o"], '/') == SyllableGroups[0].value;
    SplitOf(["a", "i", "u", "e", "o"]);
  }

  lemma SplitKakikukeko()
    ensures Split(SyllableGroups[1].value, '/') == ["ka", "ki", "ku", "ke", "ko"]
  {
    assert Join(["ka", "ki", "ku", "ke", "ko"], '/') == SyllableGroups[1].value;
    SplitOf(["ka", "ki", "ku", "ke", "ko"]);
  }

  lemma SplitSashisuseso()
    ensures Split(SyllableGroups[2].value, '/') == ["sa", "shi", "su", "se", "so"]
  {
    assert Join(["sa", "shi", "su", "se", "so"], '/') == SyllableGroups[2].value;
    SplitOf(["sa", "shi", "su", "se", "so"]);
  }

  lemma SplitTachitsuteto()
    ensures Split(SyllableGroups[3].value, '/') == ["ta", "chi", "tsu", "te", "to"]
  {
    assert Join(["ta", "chi", "tsu", "te", "to"], '/') == SyllableGroups[3].value;
    SplitOf(["ta", "chi", "tsu", "te", "to"]);
  }

  lemma SplitNaninuneno()
    ensures Split(SyllableGroups[4].value, '/') == ["na", "ni", "nu", "ne", "no"]
  {
    assert Join(["na", "ni", "nu", "ne", "no"], '/') == SyllableGroups[4].value;
    SplitOf(["na", "ni", "nu", "ne", "no"]);
  }

  lemma SplitHahifuheho()
    ensures Split(SyllableGroups[5].value, '/') == ["ha", "hi", "fu", "he", "ho"]
  {
    assert Join(["ha", "hi", "fu", "he", "ho"], '/') == SyllableGroups[5].value;
    SplitOf(["ha", "hi", "fu", "he", "ho"]);
  }

  lemma SplitMamimumemo()
    ensures Split(SyllableGroups[6].value, '/') == ["ma", "mi", "mu", "me", "mo"]
  {
    assert Join(["ma", "mi", "mu", "me", "mo"], '/') == SyllableGroups[6].value;
    SplitOf(["ma", "mi", "mu", "me", "mo"]);
  }

  lemma SplitYayuyo()
    ensures Split(SyllableGroups[7].value, '/') == ["ya", "yu", "yo"]
  {
    assert Join(["ya", "yu", "yo"], '/') == SyllableGroups[7].value;
    SplitOf(["ya", "yu", "yo"]);
  }

  lemma SplitRarirurero()
    ensures Split(SyllableGroups[8].value, '/') == ["ra", "ri", "ru", "re", "ro"]
  {
    assert Join(["ra", "ri", "ru", "re", "ro"], '/') == SyllableGroups[8].value;
    SplitOf(["ra", "ri", "ru", "re", "ro"]);
  }

  lemma SplitWawon()
    ensures Split(SyllableGroups[9].value, '/') == ["wa", "wo", "n"]
  {
    assert Join(["wa", "wo", "n"], '/') == SyllableGroups[9].value;
    SplitOf(["wa", "wo", "n"]);
  }

  /** The group at each position of the registry splits into the
      syllables listed for that position. */
  lemma SyllablesByIndex()
    ensures |GroupSyllables| == |SyllableGroups|
    ensures forall i :: 0 <= i < |SyllableGroups| ==>
      IsGroup(Keys(SyllableGroups)[i]) && Syllables(Keys(SyllableGroups)[i]) == GroupSyllables[i]
  {
    RegistryIds();
    GroupSplits();
    forall i | 0 <= i < |SyllableGroups|
      ensures IsGroup(Keys(SyllableGroups)[i]) && Syllables(Keys(SyllableGroups)[i]) == GroupSyllables[i]
    {
      GetAt(SyllableGroups, i);
    }
  }

  /** Ten groups; each splits (see `GroupSplits`) into five non-empty
      syllables, except `yayuyo` and `wawon` with three each. */
  lemma RegistryShape()
    ensures |GroupSyllables| == |SyllableGroups| == 10
    ensures forall i :: 0 <= i < |SyllableGroups| ==>
      |GroupSyllables[i]| == (if SyllableGroups[i].key in {"yayuyo", "wawon"} then 3 else 5)
    ensures forall i, j :: 0 <= i < |GroupSyllables| && 0 <= j < |GroupSyllables[i]| ==> GroupSyllables[i][j] != ""
  {
  }

  /** No two of `xs` and `ys` share a syllable. */
  predicate Disjoint(xs: seq<string>, ys: seq<string>) {
    forall x :: x in xs ==> x !in ys
  }

  /** No group lists a syllable twice, and no syllable is in two groups
      (the groups as `GroupSplits` splits them). */
  lemma GroupsDisjoint()
    ensures forall i :: 0 <= i < |GroupSyllables| ==> Distinct(GroupSyllables[i])
    ensures forall i, j :: 0 <= i < |GroupSyllables| && 0 <= j < |GroupSyllables| && i != j ==>
      Disjoint(GroupSyllables[i], GroupSyllables[j])
  {
    GroupsDistinct();
    DisjointFromLater();
    forall i, j | 0 <= i < |GroupSyllables| && 0 <= j < |GroupSyllables| && i != j
      ensures Disjoint(GroupSyllables[i], GroupSyllables[j])
    {
      if j < i {
        assert Disjoint(GroupSyllables[j], GroupSyllables[i]);
      }
    }
  }

  /** No group lists a syllable twice. */
  lemma GroupsDistinct()
    ensures forall i :: 0 <= i < |GroupSyllables| ==> Distinct(GroupSyllables[i])
  {
  }

  /** Each group shares no syllable with a later group. */
  lemma DisjointFromLater()
    ensures forall i, j :: 0 <= i < j < |GroupSyllables| ==> Disjoint(GroupSyllables[i], GroupSyllables[j])
  {
    AiueoDisjointFromLater();
    KakikukekoDisjointFromLater();
    SashisusesoDisjointFromLater();
    TachitsutetoDisjointFromLater();
    NaninunenoDisjointFromLater();
    HahifuhehoDisjointFromLater();
    MamimumemoDisjointFromLater();
    YayuyoDisjointFromLater();
    RarirureroDisjointFromLater();
    forall i, j | 0 <= i < j < |GroupSyllables|
      ensures Disjoint(GroupSyllables[i], GroupSyllables[j])
    {
      assert i in {0, 1, 2, 3, 4, 5, 6, 7, 8};
    }
  }

  /** Group 0 shares no syllable with a later group. */
  lemma AiueoDisjointFromLater()
    ensures forall j :: 0 < j < |GroupSyllables| ==> Disjoint(GroupSyllables[0], GroupSyllables[j])
  {
  }

  /** Group 1 shares no syllable with a later group. */
  lemma KakikukekoDisjointFromLater()
    ensures forall j :: 1 < j < |GroupSyllables| ==> Disjoint(GroupSyllables[1], GroupSyllables[j])
  {
  }

  /** Group 2 shares no syllable with a later group. */
  lemma SashisusesoDisjointFromLater()
    ensures forall j :: 2 < j < |GroupSyllables| ==> Disjoint(GroupSyllables[2], GroupSyllables[j])
  {
  }

  /** Group 3 shares no syllable with a later group. */
  lemma TachitsutetoDisjointFromLater()
    ensures forall j :: 3 < j < |GroupSyllables| ==> Disjoint(GroupSyllables[3], GroupSyllables[j])
  {
  }

  /** Group 4 shares no syllable with a later group. */
  lemma NaninunenoDisjointFromLater()
    ensures forall j :: 4 < j < |GroupSyllables| ==> Disjoint(GroupSyllables[4], GroupSyllables[j])
  {
  }

  /** Group 5 shares no syllable with a later group. */
  lemma HahifuhehoDisjointFromLater()
    ensures forall j :: 5 < j < |GroupSyllables| ==> Disjoint(GroupSyllables[5], GroupSyllables[j])
  {
  }

  /** Group 6 shares no syllable with a later group. */
  lemma MamimumemoDisjointFromLater()
    ensures forall j :: 6 < j < |GroupSyllables| ==> Disjoint(GroupSyllables[6], GroupSyllables[j])
  {
  }

  /** Group 7 shares no syllable with a later group. */
  lemma YayuyoDisjointFromLater()
    ensures forall j :: 7 < j < |GroupSyllables| ==> Disjoint(GroupSyllables[7], GroupSyllables[j])
  {
  }

  /** Group 8 shares no syllable with a later group. */
  lemma RarirureroDisjointFromLater()
    ensures forall j :: 8 < j < |GroupSyllables| ==> Disjoint(GroupSyllables[8], GroupSyllables[j])
  {
  }
}
