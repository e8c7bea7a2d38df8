# Japanese pronounce randomizer — a Dafny model of its drill engine

The app is a flashcard drill. It shows a random romanized syllable ("ka"),
then, after a configurable delay, reveals its hiragana and katakana ("か カ").
The learner chooses which syllable groups ("a/i/u/e/o", "ka/ki/ku/ke/ko", …)
may be drawn in a sidebar. The settings (delay and enabled groups) are
kept in the browser's `localStorage`.

This project models the engine behind that screen and proves its
properties:

- `wrappers.dfy`: `Option`, which stands for JavaScript's `undefined` and
  `null`.
- `strings.dfy`: `String.prototype.split` on one separator (`Split`), its
  inverse `Join`, and the round trips between them.
- `records.dfy`: a JavaScript object as an ordered list of entries.
  - `Get` is `m[k]`.
  - `Set` is `{ ...m, [k]: v }`: an existing key keeps its place and a new
    key is appended.
  - `WellFormed` means no key appears twice.
- `sidebar.dfy`:
  - the settings shape and the shape of an update to it;
  - the `syllableGroups` registry;
  - the updates the sidebar hands to `updateSettings`: `handleDelayChange`
    and `toggleSyllable`;
  - the registry's shape: 10 groups, 46 syllables, none in two groups.
- `pronounces.dfy`:
  - the `Kana` type and the 46-entry `JAPANESE_PRONOUNCES` table;
  - every entry is one hiragana and the katakana of the same sound;
  - no two entries share a glyph.
- `app.dfy`:
  - the default settings and the shallow merge of `updateSettings`;
  - the draw pool of `getRandomPronounce` and how it relates to the
    registry and the table;
  - a pure state machine for the delayed reveal (`DrawStep`, `FireStep`,
    `CancelStep`);
  - the display rule of the answer line;
  - the class `AppState`, the component itself. It has the React state,
    `timeoutRef` and the saved value as fields. Each method is one event
    followed by the effects React runs after it: the initial render, the
    load effect, a settings update, a draw, a timer firing, a key press,
    and opening or closing the sidebar.

Outside influences are parameters:

- The value saved in `localStorage` is the `stored` field, an
  `Option<Settings>`. It is handed to the constructor and rewritten by
  `AppState.Persist`.
- `Math.floor(Math.random() * n)` is the index `r < n`, given to `Draw`
  and `KeyDown`.
- The browser's timers are a map from handle to `Timer` (the key the
  callback reveals and the delay it was scheduled with). `setTimeout` adds
  an entry under a fresh handle and `clearTimeout` removes one. A callback
  running is the event `AppState.FireTimer(id)`.

A saved value replaces the settings wholesale; it is not merged with the
defaults (`AppState.Load`, src/app.tsx:35).

## Model

| member | source | states |
|---|---|---|
| Strings.JoinSplit | src/app.tsx:59 | joining the pieces of a split restores the string |
| Strings.SplitJoin | src/components/sidebar.tsx:10-21 | splitting a join of separator-free pieces gives back those pieces |
| Strings.Split | src/app.tsx:59 | `split("/")` always yields at least one piece; `Join` undoes it (`JoinSplit`, `SplitJoin`) |
| Strings.SplitPiecesHaveNoSeparator | src/app.tsx:59 | no piece of a split contains the separator |
| Records.Get | src/components/sidebar.tsx:32 | a lookup is defined exactly when the key is present, and then it returns an entry of that key |
| Records.Set | src/components/sidebar.tsx:30-33 | spreading in a present key keeps the key order; spreading in a new key appends one entry |
| Records.GetSetSame | src/components/sidebar.tsx:30-33 | after `{...m,[k]:v}`, `k` reads `v` |
| Records.GetSetOther | src/components/sidebar.tsx:30-33 | after `{...m,[k]:v}`, every other key reads what it read before |
| Records.SetWellFormed | src/components/sidebar.tsx:30-33 | spreading in a key never duplicates a key |
| Sidebar.HandleDelayChange | src/components/sidebar.tsx:24-26 | the update carrying only the new delay; merged, it changes only the delay (`App.DelayChangeTouchesOnlyDelay`) |
| Sidebar.Toggled | src/components/sidebar.tsx:30-33 | the toggled map; `ToggleFlipsOnlyKey`, `ToggleAbsentEnables` and `ToggleTwice` state what it does |
| Sidebar.ToggleSyllable | src/components/sidebar.tsx:28-35 | the update carrying only the toggled map; merged, it keeps the delay (`App.ToggleTouchesOnlySelection`) |
| Sidebar.ToggleFlipsOnlyKey | src/components/sidebar.tsx:28-35 | `toggleSyllable` negates the entry for its key, with a missing entry negated to `true`, and leaves every other entry unchanged |
| Sidebar.ToggleAbsentEnables | src/components/sidebar.tsx:28-35 | toggling a key the map lacks appends it as `true` |
| Sidebar.ToggleTwice | src/components/sidebar.tsx:28-35 | toggling a present key twice restores the map exactly; toggling an absent key twice leaves it behind as `false` |
| Sidebar.SyllableGroups | src/components/sidebar.tsx:10-21 | the registry, entry by entry in source order; `RegistryIds`, `GroupSplits`, `RegistryShape` and `GroupsDisjoint` state its shape |
| Sidebar.Syllables | src/app.tsx:59 | `syllableGroups[group].split("/")` for a registry id, at least one piece; `SyllablesByIndex` gives each group's list |
| Sidebar.SyllablesByIndex | src/components/sidebar.tsx:10-21 | the id at each position of the registry is a group, and its lookup-and-split is the syllable list for that position |
| Sidebar.RegistryIds | src/components/sidebar.tsx:10-21 | the registry has exactly the ten group ids, in source order, none twice |
| Sidebar.GroupSplits | src/components/sidebar.tsx:10-21 | each registry string splits on "/" into its listed syllables |
| Sidebar.RegistryShape | src/components/sidebar.tsx:10-21 | 10 groups; split on "/", "yayuyo" and "wawon" hold 3 syllables and every other group holds 5; no syllable is empty |
| Sidebar.GroupsDisjoint | src/components/sidebar.tsx:10-21 | split on "/", no group lists a syllable twice, and no syllable is in two groups |
| Pronounces.JapanesePronounces | src/constant/japanese-pronounces.ts:8-55 | the table, entry by entry in source order; `EntriesAreKanaPairs`, `GlyphsDistinct` and `App.AllSyllablesAreTableKeys` state its shape |
| Pronounces.EntriesAreKanaPairs | src/constant/japanese-pronounces.ts:1-55 | the table has 46 entries. Each `h` is one hiragana and each `k` is one katakana, and `k` is the katakana of the same sound (code point 0x60 higher) |
| Pronounces.HiraganaIncreasing | src/constant/japanese-pronounces.ts:8-55 | in table order, the hiragana code points strictly increase |
| Pronounces.GlyphsDistinct | src/constant/japanese-pronounces.ts:8-55 | two different entries never share a hiragana or a katakana |
| App.DefaultSettings | src/app.tsx:16-29 | the initial settings; `DefaultWellFormed` and `DefaultSelectsEveryGroup` state what they enable |
| App.Merge | src/app.tsx:48-50 | `{ ...prev, ...newSettings }`; `MergeIsShallow` and `MergeIdempotent` state its behaviour |
| App.DefaultWellFormed | src/app.tsx:16-29 | the defaults list each of the registry's ids exactly once |
| App.DefaultSelectsEveryGroup | src/app.tsx:16-29 | the defaults enable exactly the registry's groups, so the pool is every key of the table |
| App.MergeIsShallow | src/app.tsx:48-50 | a field the update carries replaces the old one wholesale, a field it lacks is kept, and well-formed inputs give a well-formed result |
| App.MergeIdempotent | src/app.tsx:48-50 | applying the same update twice equals applying it once |
| App.DelayChangeTouchesOnlyDelay | src/components/sidebar.tsx:24-26 | a delay change sets the delay and keeps the group selection |
| App.ToggleTouchesOnlySelection | src/components/sidebar.tsx:28-35 | a toggle keeps the delay, replaces the selection by the toggled map, and keeps it well formed |
| App.ToggleKeepsKnown | src/components/sidebar.tsx:28-35 | toggling a registry group never enables an unknown id |
| App.EnabledGroups | src/app.tsx:53-56 | every enabled id is a key of the selection |
| App.EnabledGroupsExact | src/app.tsx:53-56 | an id is listed as enabled exactly when its entry is `true` |
| App.Expand | src/app.tsx:59 | the `flatMap` over the enabled ids; `ExpandMembership` states what it contains |
| App.Pool | src/app.tsx:53-59 | the keys a draw chooses among; `PoolFacts` states their number and that each is a table key |
| App.ExpandMembership | src/app.tsx:59 | a syllable is in the flat-mapped pool exactly when one of the expanded groups lists it |
| App.PoolFacts | src/app.tsx:57-60 | with one group enabled the pool holds at least 3 syllables, and every syllable of the pool is a table key |
| App.AllSyllablesAreTableKeys | src/components/sidebar.tsx:10-21 | the registry's syllables are, in order, exactly the 46 table keys; none is repeated and none is empty |
| App.TableLookupTotal | src/app.tsx:68 | every registry syllable has a table entry, and that entry is a kana pair |
| App.Answer | src/app.tsx:105-113 | the glyphs show exactly when kana is set; `...` shows exactly when kana is unset and a non-empty romaji is set; otherwise nothing |
| App.CancelStep | src/app.tsx:65 | `if (timeoutRef.current) clearTimeout(...)`, also run by the cleanup at line 82: only the scheduled timers change; `CancelEmptiesLive` and `CancelledNeverFires` state what is left |
| App.DrawStep | src/app.tsx:52-70 | `getRandomPronounce`; `DrawPicksFromEnabledGroup`, `DrawKeepsConsistent` and `SupersededNeverFires` state its behaviour |
| App.FireStep | src/app.tsx:67-69 | the callback runs only if still scheduled; it keeps romaji, the ref and the next handle, and its handle is no longer scheduled afterwards |
| App.InitialIsBlank | src/app.tsx:11-12 | before any draw the state is consistent and the answer line is empty |
| App.DrawWithNothingEnabled | src/app.tsx:53-57 | when no entry is `true`, a draw changes nothing |
| App.DrawPicksFromEnabledGroup | src/app.tsx:52-70 | a draw shows a syllable of a group whose entry is `true` and clears the kana. It clears the timer held before and schedules a timer for that syllable, carrying `delay * 1000` ms, on a fresh handle that the ref now holds. The syllable has a table entry |
| App.DrawKeepsConsistent | src/app.tsx:62-69 | a draw keeps the reveal state consistent (see `Consistent` below) |
| App.FireKeepsConsistent | src/app.tsx:67-69 | a timer firing keeps the reveal state consistent |
| App.CancelKeepsConsistent | src/app.tsx:80-83 | cancelling keeps the reveal state consistent |
| App.AtMostOneLive | src/app.tsx:65-69 | in a consistent state at most one timer is scheduled, and it is the one the ref holds |
| App.FireRevealsKana | src/app.tsx:67-69 | the scheduled timer sets kana to the table entry of the syllable shown, the answer line shows its glyphs, and nothing stays scheduled |
| App.StaleFireIsNoOp | src/app.tsx:65-69 | in a consistent state a handle other than the one the ref holds is not scheduled, so it changes nothing; this follows from the clears |
| App.SupersededNeverFires | src/app.tsx:65-69 | after a draw exactly the new timer is scheduled, so the timer held before, and every older one, fires as a no-op |
| App.CancelEmptiesLive | src/app.tsx:82 | in a consistent state the clear leaves no timer scheduled |
| App.CancelledNeverFires | src/app.tsx:82 | after a cancel no timer changes anything, a syllable still waiting keeps its `...`, and cancelling twice is cancelling once |
| App.AnswerShowsKanaPlaceholderOrNothing | src/app.tsx:105-113 | in a consistent state the answer line shows the table's glyphs for the syllable, or `...` while it waits, or nothing before the first draw |
| App.AppState.constructor | src/app.tsx:10-29 | the first render: sidebar closed, not loaded, default settings, nothing drawn, saved value untouched |
| App.AppState.Cancel | src/app.tsx:80-83 | clears the timer the ref holds and changes nothing else |
| App.AppState.Persist | src/app.tsx:40-43 | writes the settings to the saved value once loaded, and writes nothing before |
| App.AppState.Load | src/app.tsx:32-38 | a saved value replaces the settings wholesale and cancels the pending reveal. Then the state is loaded and the saved value equals the settings |
| App.AppState.UpdateSettings | src/app.tsx:48-50 | settings become the shallow merge, the pending reveal is cancelled, and the settings are persisted only once loaded |
| App.AppState.ChangeDelay | src/components/sidebar.tsx:24-26 | the delay changes, the selection is kept, and the reveal is cancelled |
| App.AppState.ToggleGroup | src/components/sidebar.tsx:28-35 | the selection becomes the toggled map, the delay is kept, and the reveal is cancelled |
| App.AppState.Draw | src/app.tsx:52-70 | the reveal state takes `DrawStep` and settings, saved value and sidebar are unchanged; calling it requires every enabled id to be a registry group |
| App.AppState.FireTimer | src/app.tsx:67-69 | the reveal state takes `FireStep` and nothing else changes |
| App.AppState.KeyDown | src/app.tsx:72-77 | Enter or Space draws while the sidebar is closed; any other key, or an open sidebar, leaves everything unchanged, whatever the settings |
| App.AppState.SetSidebarOpen | src/app.tsx:80-84 | opening or closing the sidebar cancels the pending reveal; setting the same value again changes nothing |

A reveal state is `Consistent` when these hold:

- Every scheduled timer is the one `timeoutRef` holds, and that handle is
  older than the next one.
- While that timer is scheduled, it belongs to the syllable on screen and
  the kana is hidden.
- A syllable on screen is a table key.
- Kana on screen are that key's entry.

A callback checks nothing when it runs (src/app.tsx:68). So the first
clause rests on the clears at src/app.tsx:65 and 82: `DrawKeepsConsistent`
needs the clear inside `DrawStep`. `AtMostOneLive` derives from it that at
most one reveal is ever scheduled. Every method of `AppState` keeps `Valid()`, which holds
three things:

- `Consistent` holds.
- The settings and the saved value are well formed.
- Once loaded, the saved value equals the settings.

## Left out

- Rendering, CSS and the settings icon. The sidebar overlay that catches
  clicks while the sidebar is open (src/components/sidebar.tsx:39) is also
  left out, so a click while the sidebar is open is not modelled.
- The click handler on the main area (src/app.tsx:100-102) calls the same
  `getRandomPronounce` and is `AppState.Draw`. The model does not check
  that the sidebar is closed for a click, because the code does not
  either; the overlay above does that.
- `localStorage` and JSON are left out. The saved value is an
  `Option<Settings>`:
  - `None` stands for a missing item and for an empty string (JavaScript
    treats an empty string as false).
  - Malformed JSON makes `JSON.parse` throw. That is not modelled.
  - Parsed values of the wrong shape are not modelled.
  - `JSON.stringify`/`JSON.parse` are taken to round-trip well-formed
    settings.
- An object with a duplicate key in saved JSON is excluded by the
  constructor's requirement that saved settings be well formed.
- Real time is left out. A timer fires when `FireTimer` is called with its
  handle; the model does not check that the delay has elapsed.
- The model uses its own timer handles, counting up from 1. A browser
  handle of 0, which `if (timeoutRef.current)` would treat as absent, is
  not modelled.
- A timer's delay is recorded as `delay * 1000` ms, unbounded. Browsers
  hold a `setTimeout` delay as a signed 32-bit integer, so a delay above
  2147483 s fires at once. That is not modelled, because the model has no
  clock.
- `Math.random` is left out. The draw index is a parameter. Nothing is
  claimed about uniformity.
- The delay comes from `Number(event.target.value)`. NaN, negative and
  fractional values are not modelled, because `Settings.delay` is a `nat`
  in seconds.
- JavaScript orders integer-like keys first in objects. All keys here are
  alphabetic, so a record keeps insertion order.
- The keydown cleanup when the component unmounts is not modelled, because
  the component never unmounts within a session.
- App.AppState.Draw: requires that every enabled id be a registry group,
  because `syllableGroups[group].split` throws otherwise. The same holds
  for App.AppState.KeyDown, but only for Enter or Space with the sidebar
  closed. A saved value
  with an enabled unknown id therefore makes draws fail in the source.
  The model excludes such a call instead of modelling the exception.
