/**
 * The drill screen: the settings store (defaults, load on start, shallow
 * merge of updates, persistence once loaded), the draw of a random
 * syllable from the enabled groups, the delayed reveal of its kana, the
 * keyboard trigger and the rule for what the answer line shows.
 */
module App {
  import opened Wrappers
  import opened Records
  import opened Strings
  import opened Sidebar
  import opened Pronounces

  // ---------------------------------------------------------------------
  // Settings store

  /** The initial `settings` state: a two-second delay, every group on. */
  const DefaultSettings: Settings := Settings(2, [
    Entry("aiueo", true),
    Entry("kakikukeko", true),
    Entry("sashisuseso", true),
    Entry("tachitsuteto", true),
    Entry("naninuneno", true),
    Entry("hahifuheho", true),
    Entry("mamimumemo", true),
    Entry("yayuyo", true),
    Entry("rarirurero", true),
    Entry("wawon", true)
  ])

  /** A settings value as JSON can hold it: no group id twice. */
  predicate WellFormedSettings(settings: Settings) {
    WellFormed(settings.selectedSyllables)
  }

  predicate WellFormedUpdate(update: PartialSettings) {
    update.selectedSyllables.Some? ==> WellFormed(update.selectedSyllables.value)
  }

  /** `updateSettings`: `{ ...prev, ...newSettings }`. */
  function Merge(prev: Settings, update: PartialSettings): (next: Settings) {
    Settings(update.delay.GetOr(prev.delay), update.selectedSyllables.GetOr(prev.selectedSyllables))
  }

  /** The merge is shallow: each field the update carries replaces the old
      one wholesale, each field it lacks is kept. */
  lemma MergeIsShallow(prev: Settings, update: PartialSettings)
    ensures Merge(prev, update).delay == if update.delay.Some? then update.delay.value else prev.delay
    ensures Merge(prev, update).selectedSyllables ==
      if update.selectedSyllables.Some? then update.selectedSyllables.value else prev.selectedSyllables
    ensures WellFormedSettings(prev) && WellFormedUpdate(update) ==> WellFormedSettings(Merge(prev, update))
  {
  }

  /** Applying the same update twice is applying it once. */
  lemma MergeIdempotent(prev: Settings, update: PartialSettings)
    ensures Merge(Merge(prev, update), update) == Merge(prev, update)
  {
  }

  /** A delay change leaves the group selection alone. */
  lemma DelayChangeTouchesOnlyDelay(settings: Settings, value: nat)
    ensures Merge(settings, HandleDelayChange(value)) == Settings(value, settings.selectedSyllables)
  {
  }

  /** A toggle leaves the delay alone, and keeps the selection well formed. */
  lemma ToggleTouchesOnlySelection(settings: Settings, key: string)
    ensures Merge(settings, ToggleSyllable(settings, key)) ==
      Settings(settings.delay, Toggled(settings.selectedSyllables, key))
    ensures WellFormedSettings(settings) ==> WellFormedUpdate(ToggleSyllable(settings, key))
  {
    if WellFormedSettings(settings) {
      SetWellFormed(settings.selectedSyllables, key, Get(settings.selectedSyllables, key) != Some(true));
    }
  }

  // ---------------------------------------------------------------------
  // The pool of syllables a draw picks from

  /** The ids whose entry is `true`, in the record's order. */
  function EnabledGroups(selected: Record<bool>): (ids: seq<string>)
    ensures forall g :: g in ids ==> g in Keys(selected)
  {
    if selected == [] then []
    else
      assert Keys(selected[1..]) == Keys(selected)[1..];
      assert Keys(selected)[0] == selected[0].key;
      (if selected[0].value then [selected[0].key] else []) + EnabledGroups(selected[1..])
  }

  /** A group id is listed as enabled exactly when its entry is `true`. */
  lemma {:induction false} EnabledGroupsExact(selected: Record<bool>, g: string)
    requires WellFormed(selected)
    ensures g in EnabledGroups(selected) <==> Get(selected, g) == Some(true)
  {
    if selected != [] {
      assert Keys(selected[1..]) == Keys(selected)[1..];
      assert WellFormed(selected[1..]);
      EnabledGroupsExact(selected[1..], g);
      if selected[0].key == g {
        assert Keys(selected)[0] == g;
        assert g !in Keys(selected[1..]);
      }
    }
  }

  /** Every enabled id names a group of the registry; otherwise the
      lookup `syllableGroups[group]` is undefined and `.split` throws. */
  predicate AllEnabledKnown(selected: Record<bool>) {
    forall g :: g in EnabledGroups(selected) ==> IsGroup(g)
  }

  /** `ids.flatMap(group => syllableGroups[group].split("/"))`. */
  function Expand(ids: seq<string>): (syllables: seq<string>)
    requires forall g :: g in ids ==> IsGroup(g)
  {
    if ids == [] then [] else Syllables(ids[0]) + Expand(ids[1..])
  }

  /** The syllables a draw chooses among. */
  function Pool(selected: Record<bool>): (pool: seq<string>)
    requires AllEnabledKnown(selected)
  {
    Expand(EnabledGroups(selected))
  }

  /** Toggling a registry group keeps every enabled id known, so what the
      sidebar can do never makes a draw fail. */
  lemma ToggleKeepsKnown(selected: Record<bool>, key: string)
    requires WellFormed(selected) && AllEnabledKnown(selected) && IsGroup(key)
    ensures AllEnabledKnown(Toggled(selected, key))
  {
    var flag := Get(selected, key) != Some(true);
    var next := Toggled(selected, key);
    SetWellFormed(selected, key, flag);
    forall g | g in EnabledGroups(next)
      ensures IsGroup(g)
    {
      EnabledGroupsExact(next, g);
      if g != key {
        GetSetOther(selected, key, flag, g);
        EnabledGroupsExact(selected, g);
      }
    }
  }

  /** Every syllable of the registry, group after group. */
  function AllSyllables(): (syllables: seq<string>) {
    Expand(Keys(SyllableGroups))
  }

  /** A syllable is in an expansion exactly when one of the expanded
      groups lists it. */
  lemma {:induction false} ExpandMembership(ids: seq<string>, x: string)
    requires forall g :: g in ids ==> IsGroup(g)
    ensures x in Expand(ids) <==> exists k :: 0 <= k < |ids| && x in Syllables(ids[k])
  {
    if ids != [] {
      ExpandMembership(ids[1..], x);
      if x in Syllables(ids[0]) {
        assert 0 < |ids| && x in Syllables(ids[0]);
      }
      if exists k :: 0 <= k < |ids| && x in Syllables(ids[k]) {
        var k :| 0 <= k < |ids| && x in Syllables(ids[k]);
        if k > 0 {
          assert ids[1..][k - 1] == ids[k];
        }
      }
    }
  }

  /** Groups laid end to end. */
  function Flatten(groups: seq<seq<string>>): (flat: seq<string>) {
    if groups == [] then [] else groups[0] + Flatten(groups[1..])
  }

  /** A syllable is in the flattened groups exactly when one group lists it. */
  lemma {:induction false} FlattenMembership(groups: seq<seq<string>>, x: string)
    ensures x in Flatten(groups) <==> exists k :: 0 <= k < |groups| && x in groups[k]
  {
    if groups != [] {
      FlattenMembership(groups[1..], x);
      if exists k :: 0 <= k < |groups| && x in groups[k] {
        var k :| 0 <= k < |groups| && x in groups[k];
        if k > 0 {
          assert groups[1..][k - 1] == groups[k];
        }
      }
    }
  }

  /** Distinct groups that share nothing flatten to distinct syllables. */
  lemma {:induction false} FlattenDistinct(groups: seq<seq<string>>)
    requires forall i :: 0 <= i < |groups| ==> Distinct(groups[i])
    requires forall i, j :: 0 <= i < |groups| && 0 <= j < |groups| && i != j ==> Disjoint(groups[i], groups[j])
    ensures Distinct(Flatten(groups))
  {
    if groups != [] {
      var rest := groups[1..];
      assert forall i :: 0 <= i < |rest| ==> rest[i] == groups[i + 1];
      FlattenDistinct(rest);
      var head, tail := groups[0], Flatten(rest);
      forall x | x in head
        ensures x !in tail
      {
        FlattenMembership(rest, x);
        forall k | 0 <= k < |rest|
          ensures x !in rest[k]
        {
          assert Disjoint(groups[0], groups[k + 1]);
        }
      }
      forall i, j | 0 <= i < j < |head + tail|
        ensures (head + tail)[i] != (head + tail)[j]
      {
        if j < |head| {
        } else if i >= |head| {
          assert (head + tail)[i] == tail[i - |head|];
          assert (head + tail)[j] == tail[j - |head|];
        } else {
          assert (head + tail)[i] in head;
          assert (head + tail)[j] in tail;
        }
      }
    }
  }

  /** Groups whose syllables are listed position by position expand into
      those lists laid end to end. */
  lemma {:induction false} ExpandFlatten(ids: seq<string>, groups: seq<seq<string>>)
    requires |ids| == |groups|
    requires forall i :: 0 <= i < |ids| ==> IsGroup(ids[i]) && Syllables(ids[i]) == groups[i]
    ensures forall g :: g in ids ==> IsGroup(g)
    ensures Expand(ids) == Flatten(groups)
  {
    if ids != [] {
      assert forall i :: 0 <= i < |ids| - 1 ==> ids[1..][i] == ids[i + 1] && groups[1..][i] == groups[i + 1];
      ExpandFlatten(ids[1..], groups[1..]);
    }
  }

  /** The registry expands, group by group, into the split group strings. */
  lemma ExpandRegistry()
    ensures AllSyllables() == Flatten(GroupSyllables)
  {
    SyllablesByIndex();
    ExpandFlatten(Keys(SyllableGroups), GroupSyllables);
  }

  /** The registry's syllables, in order, are the keys of the kana table:
      46 of them, none twice, none empty. */
  lemma AllSyllablesAreTableKeys()
    ensures AllSyllables() == Keys(JapanesePronounces)
    ensures |AllSyllables()| == 46
    ensures Distinct(AllSyllables())
    ensures forall x :: x in AllSyllables() ==> x != ""
  {
    ExpandRegistry();
    FlattenRows();
    GroupsDisjoint();
    FlattenDistinct(GroupSyllables);
    RegistryShape();
    forall x | x in AllSyllables()
      ensures x != ""
    {
      FlattenMembership(GroupSyllables, x);
    }
  }

  /** `JAPANESE_PRONOUNCES[key]` is defined for every syllable of the
      registry and yields one hiragana and one katakana of the same sound. */
  lemma TableLookupTotal(x: string)
    requires x in AllSyllables()
    ensures Get(JapanesePronounces, x).Some?
    ensures IsKanaPair(Get(JapanesePronounces, x).value)
  {
    AllSyllablesAreTableKeys();
    EntriesAreKanaPairs();
    var i :| 0 <= i < |JapanesePronounces| && Keys(JapanesePronounces)[i] == x;
    GetAt(JapanesePronounces, i);
  }

  /** The table's keys are the group syllables laid end to end. */
  lemma FlattenRows()
    ensures Flatten(GroupSyllables) == Keys(JapanesePronounces)
  {
    FlattenTen();
    KeysOfRows();
    RowKeys();
  }

  /** The ten listed groups, flattened. */
  lemma FlattenTen()
    ensures |GroupSyllables| == 10
    ensures Flatten(GroupSyllables) == GroupSyllables[0] + GroupSyllables[1] + GroupSyllables[2] +
      GroupSyllables[3] + GroupSyllables[4] + GroupSyllables[5] + GroupSyllables[6] +
      GroupSyllables[7] + GroupSyllables[8] + GroupSyllables[9]
  {
    FlattenOfTen(GroupSyllables);
  }

  /** Ten groups flatten into their concatenation. */
  lemma FlattenOfTen(g: seq<seq<string>>)
    requires |g| == 10
    ensures Flatten(g) == g[0] + g[1] + g[2] + g[3] + g[4] + g[5] + g[6] + g[7] + g[8] + g[9]
  {
    assert g == g[..5] + g[5..];
    FlattenAppend(g[..5], g[5..]);
    FlattenOfFive(g[..5]);
    FlattenOfFive(g[5..]);
  }

  /** Five groups flatten into their concatenation. */
  lemma FlattenOfFive(g: seq<seq<string>>)
    requires |g| == 5
    ensures Flatten(g) == g[0] + g[1] + g[2] + g[3] + g[4]
  {
    assert Flatten(g[4..]) == g[4] by { assert g[4..][1..] == []; }
    assert Flatten(g[3..]) == g[3] + Flatten(g[4..]) by { assert g[3..][1..] == g[4..]; }
    assert Flatten(g[2..]) == g[2] + Flatten(g[3..]) by { assert g[2..][1..] == g[3..]; }
    assert Flatten(g[1..]) == g[1] + Flatten(g[2..]) by { assert g[1..][1..] == g[2..]; }
  }

  /** Flattening distributes over concatenation. */
  lemma {:induction false} FlattenAppend(a: seq<seq<string>>, b: seq<seq<string>>)
    ensures Flatten(a + b) == Flatten(a) + Flatten(b)
  {
    if a != [] {
      assert (a + b)[1..] == a[1..] + b;
      FlattenAppend(a[1..], b);
    } else {
      assert a + b == b;
    }
  }

  /** The table's keys, row by row. */
  lemma KeysOfRows()
    ensures Keys(JapanesePronounces) == Keys(ARow) + Keys(KaRow) + Keys(SaRow) + Keys(TaRow) +
      Keys(NaRow) + Keys(HaRow) + Keys(MaRow) + Keys(YaRow) + Keys(RaRow) + Keys(WaRow)
  {
    KeysAppend(ARow, KaRow);
    KeysAppend(ARow + KaRow, SaRow);
    KeysAppend(ARow + KaRow + SaRow, TaRow);
    KeysAppend(ARow + KaRow + SaRow + TaRow, NaRow);
    KeysAppend(ARow + KaRow + SaRow + TaRow + NaRow, HaRow);
    KeysAppend(ARow + KaRow + SaRow + TaRow + NaRow + HaRow, MaRow);
    KeysAppend(ARow + KaRow + SaRow + TaRow + NaRow + HaRow + MaRow, YaRow);
    KeysAppend(ARow + KaRow + SaRow + TaRow + NaRow + HaRow + MaRow + YaRow, RaRow);
    KeysAppend(ARow + KaRow + SaRow + TaRow + NaRow + HaRow + MaRow + YaRow + RaRow, WaRow);
  }

  /** Each row of the table is keyed by the syllables of its group. */
  lemma RowKeys()
    ensures |GroupSyllables| == 10
    ensures Keys(ARow) == GroupSyllables[0] && Keys(KaRow) == GroupSyllables[1]
    ensures Keys(SaRow) == GroupSyllables[2] && Keys(TaRow) == GroupSyllables[3]
    ensures Keys(NaRow) == GroupSyllables[4] && Keys(HaRow) == GroupSyllables[5]
    ensures Keys(MaRow) == GroupSyllables[6] && Keys(YaRow) == GroupSyllables[7]
    ensures Keys(RaRow) == GroupSyllables[8] && Keys(WaRow) == GroupSyllables[9]
  {
  }

  /** The syllables of a registry group, by its position. */
  lemma SyllablesOfGroup(g: string)
    requires IsGroup(g)
    ensures |Syllables(g)| >= 3
    ensures forall x :: x in Syllables(g) ==> x in AllSyllables()
  {
    SyllablesByIndex();
    RegistryShape();
    ExpandRegistry();
    var i :| 0 <= i < |SyllableGroups| && Keys(SyllableGroups)[i] == g;
    assert Syllables(g) == GroupSyllables[i];
    forall x | x in Syllables(g)
      ensures x in AllSyllables()
    {
      FlattenMembership(GroupSyllables, x);
    }
  }

  /** With at least one group enabled there are at least three syllables
      to draw from, and each of them has an entry in the kana table. */
  lemma PoolFacts(selected: Record<bool>)
    requires AllEnabledKnown(selected)
    ensures EnabledGroups(selected) != [] ==> |Pool(selected)| >= 3
    ensures forall x :: x in Pool(selected) ==> x in Keys(JapanesePronounces)
  {
    var ids := EnabledGroups(selected);
    if ids != [] {
      SyllablesOfGroup(ids[0]);
    }
    AllSyllablesAreTableKeys();
    forall x | x in Pool(selected)
      ensures x in Keys(JapanesePronounces)
    {
      ExpandMembership(ids, x);
      var k :| 0 <= k < |ids| && x in Syllables(ids[k]);
      SyllablesOfGroup(ids[k]);
    }
  }

  /** The default settings enable exactly the registry's groups, so every
      syllable of the table can be drawn. */
  lemma DefaultSelectsEveryGroup()
    ensures WellFormedSettings(DefaultSettings)
    ensures EnabledGroups(DefaultSettings.selectedSyllables) == Keys(SyllableGroups)
    ensures AllEnabledKnown(DefaultSettings.selectedSyllables)
    ensures Pool(DefaultSettings.selectedSyllables) == Keys(JapanesePronounces)
  {
    DefaultEnablesRegistry();
    AllSyllablesAreTableKeys();
  }

  /** The defaults set every registry id to `true`. */
  lemma DefaultEnablesRegistry()
    ensures WellFormedSettings(DefaultSettings)
    ensures EnabledGroups(DefaultSettings.selectedSyllables) == Keys(SyllableGroups)
  {
    DefaultWellFormed();
    EnabledAllTrue(DefaultSettings.selectedSyllables);
  }

  /** No group id appears twice in the defaults. */
  lemma DefaultWellFormed()
    ensures WellFormedSettings(DefaultSettings)
    ensures Keys(DefaultSettings.selectedSyllables) == Keys(SyllableGroups)
  {
    RegistryIds();
  }

  /** A record whose every entry is `true` enables each of its keys. */
  lemma {:induction false} EnabledAllTrue(selected: Record<bool>)
    requires forall i :: 0 <= i < |selected| ==> selected[i].value
    ensures EnabledGroups(selected) == Keys(selected)
  {
    if selected != [] {
      assert Keys(selected[1..]) == Keys(selected)[1..];
      EnabledAllTrue(selected[1..]);
    }
  }

  // ---------------------------------------------------------------------
  // Drawing and revealing

  /** A scheduled `setTimeout` callback: the syllable whose kana it sets,
      and the delay in milliseconds it was scheduled with. */
  datatype Timer = Timer(key: string, delayMs: nat)

  /**
   * The state a draw and its reveal work on: the `romaji` and `kana`
   * states, the handle `timeoutRef.current` holds, the callbacks the
   * browser still has scheduled (by handle), and the next handle the
   * browser hands out. Handles start at 1, so a held handle is truthy.
   */
  datatype Reveal = Reveal(
    romaji: Option<string>,
    kana: Option<Kana>,
    pending: Option<nat>,
    live: map<nat, Timer>,
    nextTimer: nat)

  /** Nothing drawn, nothing scheduled. */
  const Initial: Reveal := Reveal(None, None, None, map[], 1)

  /**
   * The reveal state the app can reach: the only callback still scheduled
   * is the one `timeoutRef` holds; that handle is older than the next one;
   * while it is scheduled, it belongs to the syllable on screen and the kana
   * is hidden; a syllable on screen is a table key; shown kana are its entry.
   */
  predicate Consistent(s: Reveal) {
    (forall id :: id in s.live ==> s.pending == Some(id))
    && (s.pending.Some? ==> s.pending.value < s.nextTimer)
    && (s.pending.Some? && s.pending.value in s.live ==>
      s.romaji == Some(s.live[s.pending.value].key) && s.kana.None?)
    && (s.romaji.Some? ==> s.romaji.value in Keys(JapanesePronounces))
    && (s.kana.Some? ==> s.romaji.Some? && s.kana == Get(JapanesePronounces, s.romaji.value))
  }

  /** What the answer line shows. */
  datatype AnswerView = Glyphs(h: string, k: string) | Placeholder | Blank

  /** `kana ? <h k> : romaji && "..."`: the glyphs once revealed, the
      placeholder while a (non-empty) syllable waits, otherwise nothing. */
  function Answer(s: Reveal): (view: AnswerView)
    ensures view.Glyphs? <==> s.kana.Some?
    ensures view.Glyphs? ==> view == Glyphs(s.kana.value.h, s.kana.value.k)
    ensures view.Placeholder? <==> s.kana.None? && s.romaji.Some? && s.romaji.value != ""
  {
    match s.kana
    case Some(kana) => Glyphs(kana.h, kana.k)
    case None => if s.romaji.Some? && s.romaji.value != "" then Placeholder else Blank
  }

  /** `if (timeoutRef.current) clearTimeout(timeoutRef.current)`: the held
      callback is unscheduled; the ref keeps its (now spent) handle. */
  function CancelStep(s: Reveal): (t: Reveal)
    ensures t.romaji == s.romaji && t.kana == s.kana && t.pending == s.pending && t.nextTimer == s.nextTimer
  {
    if s.pending.Some? then s.(live := s.live - {s.pending.value}) else s
  }

  /** `getRandomPronounce`, with `r` standing for
      `Math.floor(Math.random() * availableKeys.length)`: show the syllable,
      hide the kana, clear the held callback, schedule a new one. */
  function DrawStep(s: Reveal, selected: Record<bool>, delay: nat, r: nat): (t: Reveal)
    requires AllEnabledKnown(selected)
    requires EnabledGroups(selected) != [] ==> r < |Pool(selected)|
  {
    if EnabledGroups(selected) == [] then s
    else
      var key := Pool(selected)[r];
      var cleared := CancelStep(s);
      Reveal(Some(key), None, Some(s.nextTimer),
        cleared.live[s.nextTimer := Timer(key, delay * 1000)], s.nextTimer + 1)
  }

  /** The callback with handle `id` runs, if it is still scheduled: it sets
      `kana` to the entry of the syllable it was scheduled for, whatever is
      on screen now. */
  function FireStep(s: Reveal, id: nat): (t: Reveal)
    ensures t.romaji == s.romaji && t.pending == s.pending && t.nextTimer == s.nextTimer
    ensures id !in t.live
  {
    if id in s.live then
      s.(kana := Get(JapanesePronounces, s.live[id].key), live := s.live - {id})
    else s
  }

  /** Nothing is on screen at first. */
  lemma InitialIsBlank()
    ensures Consistent(Initial)
    ensures Answer(Initial) == Blank
  {
  }

  /** At most one reveal is ever scheduled: the one `timeoutRef` holds. */
  lemma AtMostOneLive(s: Reveal)
    requires Consistent(s)
    ensures |s.live| <= 1
    ensures s.live != map[] ==> s.pending.Some? && s.live.Keys == {s.pending.value}
  {
    if s.live != map[] {
      var id :| id in s.live;
      assert s.live.Keys == {id};
    }
  }

  /** With no group enabled a draw changes nothing. */
  lemma DrawWithNothingEnabled(s: Reveal, selected: Record<bool>, delay: nat, r: nat)
    requires WellFormed(selected)
    requires forall g :: g in Keys(selected) ==> Get(selected, g) != Some(true)
    ensures AllEnabledKnown(selected) && EnabledGroups(selected) == []
    ensures DrawStep(s, selected, delay, r) == s
  {
    if EnabledGroups(selected) != [] {
      var g := EnabledGroups(selected)[0];
      EnabledGroupsExact(selected, g);
      assert false;
    }
  }

  /**
   * A draw with some group enabled shows a syllable of an enabled group,
   * hides the kana, unschedules the callback held before, and schedules one
   * callback for the new syllable on a fresh handle, which the ref now holds.
   */
  lemma DrawPicksFromEnabledGroup(s: Reveal, selected: Record<bool>, delay: nat, r: nat)
    requires WellFormed(selected)
    requires AllEnabledKnown(selected)
    requires EnabledGroups(selected) != [] && r < |Pool(selected)|
    ensures var t := DrawStep(s, selected, delay, r);
      && t.romaji.Some? && t.kana.None?
      && t.pending == Some(s.nextTimer) && t.nextTimer == s.nextTimer + 1
      && s.nextTimer in t.live && t.live[s.nextTimer] == Timer(t.romaji.value, delay * 1000)
      && (s.pending.Some? && s.pending.value != s.nextTimer ==> s.pending.value !in t.live)
      && t.romaji.value in Keys(JapanesePronounces)
      && exists g :: Get(selected, g) == Some(true) && IsGroup(g) && t.romaji.value in Syllables(g)
  {
    var ids := EnabledGroups(selected);
    var key := Pool(selected)[r];
    PoolFacts(selected);
    ExpandMembership(ids, key);
    var k :| 0 <= k < |ids| && key in Syllables(ids[k]);
    EnabledGroupsExact(selected, ids[k]);
  }

  /** A draw keeps the reveal state consistent; this rests on the clear
      before the new callback is scheduled. */
  lemma DrawKeepsConsistent(s: Reveal, selected: Record<bool>, delay: nat, r: nat)
    requires Consistent(s)
    requires AllEnabledKnown(selected)
    requires EnabledGroups(selected) != [] ==> r < |Pool(selected)|
    ensures Consistent(DrawStep(s, selected, delay, r))
  {
    PoolFacts(selected);
    CancelEmptiesLive(s);
  }

  /** A callback running keeps the reveal state consistent. */
  lemma FireKeepsConsistent(s: Reveal, id: nat)
    requires Consistent(s)
    ensures Consistent(FireStep(s, id))
  {
  }

  /** A cancel keeps the reveal state consistent. */
  lemma CancelKeepsConsistent(s: Reveal)
    requires Consistent(s)
    ensures Consistent(CancelStep(s))
  {
  }

  /** The scheduled callback reveals the table's kana for the syllable
      shown, and afterwards nothing is scheduled. */
  lemma FireRevealsKana(s: Reveal)
    requires Consistent(s) && s.pending.Some? && s.pending.value in s.live
    ensures var t := FireStep(s, s.pending.value);
      && t.live == map[] && t.romaji == s.romaji
      && Get(JapanesePronounces, s.romaji.value).Some?
      && t.kana == Get(JapanesePronounces, s.romaji.value)
      && Answer(t) == Glyphs(t.kana.value.h, t.kana.value.k)
  {
    var key := s.romaji.value;
    assert key in Keys(JapanesePronounces);
    var t := FireStep(s, s.pending.value);
    assert t.live.Keys == {};
  }

  /** A handle other than the one `timeoutRef` holds has no callback left
      to run. */
  lemma StaleFireIsNoOp(s: Reveal, id: nat)
    requires Consistent(s)
    requires s.pending != Some(id)
    ensures id !in s.live
    ensures FireStep(s, id) == s
  {
  }

  /** A draw supersedes the reveal held before it: afterwards exactly the
      new callback is scheduled, so no older handle can fire. */
  lemma SupersededNeverFires(s: Reveal, selected: Record<bool>, delay: nat, r: nat, id: nat)
    requires Consistent(s)
    requires AllEnabledKnown(selected)
    requires EnabledGroups(selected) != [] && r < |Pool(selected)|
    requires id < s.nextTimer
    ensures DrawStep(s, selected, delay, r).live.Keys == {s.nextTimer}
    ensures FireStep(DrawStep(s, selected, delay, r), id) == DrawStep(s, selected, delay, r)
  {
    CancelEmptiesLive(s);
  }

  /** The clear leaves nothing scheduled. */
  lemma CancelEmptiesLive(s: Reveal)
    requires Consistent(s)
    ensures CancelStep(s).live == map[]
  {
    assert CancelStep(s).live.Keys == {};
  }

  /** After a cancel nothing is scheduled, so no callback runs: a syllable
      drawn but not yet revealed keeps its placeholder until the next draw. */
  lemma CancelledNeverFires(s: Reveal, id: nat)
    requires Consistent(s)
    ensures CancelStep(s).live == map[]
    ensures FireStep(CancelStep(s), id) == CancelStep(s)
    ensures s.pending.Some? && s.pending.value in s.live ==> Answer(CancelStep(s)) == Placeholder
    ensures CancelStep(CancelStep(s)) == CancelStep(s)
  {
    CancelEmptiesLive(s);
    if s.pending.Some? && s.pending.value in s.live {
      AllSyllablesAreTableKeys();
    }
  }

  /** In a consistent state the answer line shows the kana of the syllable
      on screen, or `...` while it waits, or nothing before the first draw. */
  lemma AnswerShowsKanaPlaceholderOrNothing(s: Reveal)
    requires Consistent(s)
    ensures s.romaji.None? ==> Answer(s) == Blank
    ensures s.romaji.Some? && s.kana.None? ==> Answer(s) == Placeholder
    ensures s.kana.Some? ==> (s.romaji.Some? &&
      Answer(s) == Glyphs(Get(JapanesePronounces, s.romaji.value).value.h, Get(JapanesePronounces, s.romaji.value).value.k))
  {
    AllSyllablesAreTableKeys();
  }

  // ---------------------------------------------------------------------
  // The component

  /** Whether a key press asks for a draw (`Enter` or the space bar). */
  predicate IsDrawKey(key: string) {
    key == "Enter" || key == " "
  }

  /**
   * The `App` component's state, `timeoutRef`, the callbacks the browser
   * has scheduled, and the value saved in `localStorage` (`None` when
   * nothing usable is saved). Each method is one event together with the
   * effects it triggers.
   */
  class AppState {
    var sidebarOpen: bool
    var settings: Settings
    var initialized: bool
    var romaji: Option<string>
    var kana: Option<Kana>
    var pending: Option<nat>
    var live: map<nat, Timer>
    var nextTimer: nat
    var stored: Option<Settings>

    /** The fields the reveal state machine works on. */
    function Current(): (s: Reveal)
      reads this
      ensures s.romaji == romaji && s.kana == kana && s.pending == pending
      ensures s.live == live && s.nextTimer == nextTimer
    {
      Reveal(romaji, kana, pending, live, nextTimer)
    }

    /** Well-formed settings, saved or not, and a consistent reveal. */
    ghost predicate Coherent()
      reads this
    {
      WellFormedSettings(settings)
      && (stored.Some? ==> WellFormedSettings(stored.value))
      && Consistent(Current())
    }

    /** Besides, once loaded, the saved value always equals the settings. */
    ghost predicate Valid()
      reads this
    {
      Coherent() && (initialized ==> stored == Some(settings))
    }

    /** The first render: defaults in place, `saved` not read yet. */
    constructor (saved: Option<Settings>)
      requires saved.Some? ==> WellFormedSettings(saved.value)
      ensures Valid()
      ensures !sidebarOpen && !initialized
      ensures settings == DefaultSettings
      ensures Current() == Initial
      ensures stored == saved
    {
      sidebarOpen := false;
      settings := DefaultSettings;
      initialized := false;
      romaji, kana, pending, live, nextTimer := None, None, None, map[], 1;
      stored := saved;
      new;
      DefaultWellFormed();
      InitialIsBlank();
    }

    /** Unschedules the held callback: the cleanup of the keydown effect. */
    method Cancel()
      requires Coherent()
      modifies this
      ensures Coherent()
      ensures Current() == CancelStep(old(Current()))
      ensures settings == old(settings) && stored == old(stored)
      ensures initialized == old(initialized) && sidebarOpen == old(sidebarOpen)
    {
      CancelKeepsConsistent(Current());
      if pending.Some? {
        live := live - {pending.value};
      }
    }

    /** The persist effect: writes the settings once loaded. */
    method Persist()
      requires Coherent()
      modifies this
      ensures Valid()
      ensures initialized ==> stored == Some(settings)
      ensures !initialized ==> stored == old(stored)
      ensures Current() == old(Current()) && settings == old(settings)
      ensures initialized == old(initialized) && sidebarOpen == old(sidebarOpen)
    {
      if initialized {
        stored := Some(settings);
      }
    }

    /**
     * The load effect after the first render: a saved value replaces the
     * settings wholesale (which also re-runs the keydown effect and so
     * cancels the pending reveal); then the saved value is rewritten.
     */
    method Load()
      requires Valid() && !initialized
      modifies this
      ensures Valid()
      ensures initialized
      ensures settings == (if old(stored).Some? then old(stored).value else old(settings))
      ensures stored == Some(settings)
      ensures Current() == (if old(stored).Some? then CancelStep(old(Current())) else old(Current()))
      ensures sidebarOpen == old(sidebarOpen)
    {
      if stored.Some? {
        settings := stored.value;
        Cancel();
      }
      initialized := true;
      Persist();
    }

    /** `updateSettings`: merge, cancel the pending reveal, persist. */
    method UpdateSettings(update: PartialSettings)
      requires Valid() && WellFormedUpdate(update)
      modifies this
      ensures Valid()
      ensures settings == Merge(old(settings), update)
      ensures stored == (if initialized then Some(settings) else old(stored))
      ensures Current() == CancelStep(old(Current()))
      ensures initialized == old(initialized) && sidebarOpen == old(sidebarOpen)
    {
      MergeIsShallow(settings, update);
      settings := Merge(settings, update);
      Cancel();
      Persist();
    }

    /** The sidebar's delay input. */
    method ChangeDelay(value: nat)
      requires Valid()
      modifies this
      ensures Valid()
      ensures settings == Settings(value, old(settings).selectedSyllables)
      ensures stored == (if initialized then Some(settings) else old(stored))
      ensures Current() == CancelStep(old(Current()))
      ensures initialized == old(initialized) && sidebarOpen == old(sidebarOpen)
    {
      DelayChangeTouchesOnlyDelay(settings, value);
      UpdateSettings(HandleDelayChange(value));
    }

    /** A group's checkbox in the sidebar. */
    method ToggleGroup(key: string)
      requires Valid()
      modifies this
      ensures Valid()
      ensures settings == Settings(old(settings).delay, Toggled(old(settings).selectedSyllables, key))
      ensures stored == (if initialized then Some(settings) else old(stored))
      ensures Current() == CancelStep(old(Current()))
      ensures initialized == old(initialized) && sidebarOpen == old(sidebarOpen)
    {
      ToggleTouchesOnlySelection(settings, key);
      UpdateSettings(ToggleSyllable(settings, key));
    }

    /** `getRandomPronounce`; `r` is the random index into the pool. */
    method Draw(r: nat)
      requires Valid()
      requires AllEnabledKnown(settings.selectedSyllables)
      requires EnabledGroups(settings.selectedSyllables) != [] ==> r < |Pool(settings.selectedSyllables)|
      modifies this
      ensures Valid()
      ensures settings == old(settings) && stored == old(stored)
      ensures Current() == DrawStep(old(Current()), settings.selectedSyllables, settings.delay, r)
      ensures initialized == old(initialized) && sidebarOpen == old(sidebarOpen)
    {
      var enabled := EnabledGroups(settings.selectedSyllables);
      if enabled == [] {
        return;
      }
      DrawKeepsConsistent(Current(), settings.selectedSyllables, settings.delay, r);
      var key := Pool(settings.selectedSyllables)[r];
      romaji := Some(key);
      kana := None;
      if pending.Some? {
        live := live - {pending.value};
      }
      live := live[nextTimer := Timer(key, settings.delay * 1000)];
      pending := Some(nextTimer);
      nextTimer := nextTimer + 1;
    }

    /** The timer with handle `id` goes off. */
    method FireTimer(id: nat)
      requires Valid()
      modifies this
      ensures Valid()
      ensures Current() == FireStep(old(Current()), id)
      ensures settings == old(settings) && stored == old(stored)
      ensures initialized == old(initialized) && sidebarOpen == old(sidebarOpen)
    {
      FireKeepsConsistent(Current(), id);
      if id in live {
        kana := Get(JapanesePronounces, live[id].key);
        live := live - {id};
      }
    }

    /** The window's keydown listener: Enter or Space draws while the
        sidebar is closed; any other key, or an open sidebar, does nothing. */
    method KeyDown(key: string, r: nat)
      requires Valid()
      requires IsDrawKey(key) && !sidebarOpen ==> AllEnabledKnown(settings.selectedSyllables)
      requires IsDrawKey(key) && !sidebarOpen && EnabledGroups(settings.selectedSyllables) != [] ==>
        r < |Pool(settings.selectedSyllables)|
      modifies this
      ensures Valid()
      ensures settings == old(settings) && stored == old(stored)
      ensures IsDrawKey(key) && !old(sidebarOpen) ==>
        Current() == DrawStep(old(Current()), settings.selectedSyllables, settings.delay, r)
      ensures !(IsDrawKey(key) && !old(sidebarOpen)) ==> Current() == old(Current())
      ensures initialized == old(initialized) && sidebarOpen == old(sidebarOpen)
    {
      if IsDrawKey(key) && !sidebarOpen {
        Draw(r);
      }
    }

    /** Opening or closing the sidebar. A real change re-runs the keydown
        effect, whose cleanup cancels the pending reveal; setting the same
        value again renders nothing and cancels nothing. */
    method SetSidebarOpen(open: bool)
      requires Valid()
      modifies this
      ensures Valid()
      ensures sidebarOpen == open
      ensures Current() == if open != old(sidebarOpen) then CancelStep(old(Current())) else old(Current())
      ensures settings == old(settings) && stored == old(stored) && initialized == old(initialized)
    {
      if open != sidebarOpen {
        sidebarOpen := open;
        Cancel();
      }
    }
  }
}
