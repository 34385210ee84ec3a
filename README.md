# Lesson platform core, modelled in Dafny

The modelled system is a small web application that teaches coding through ordered
modules of exercises. Here is what its core does:

- **Catalog loading.** It loads a catalog of modules. At run time the catalog comes from a
  JSON payload (`fetchModules`). At build time a Node script reshapes a phpMyAdmin JSON dump
  into that payload (`build-modules-json.mjs`), using the helpers in `db.ts`.
- **Progress and unlocking.** It keeps the ids of solved exercises in browser storage. From
  them it computes which exercises are unlocked (`progress.ts`).
- **Navigation.** It lets a learner move through the catalog with previous and next buttons,
  a side menu and progress counters (`ModulesPage.tsx`).
- **Puzzle exercises.** A learner reorders shuffled code tiles by drag and drop, buttons or
  the keyboard. The answer is checked with all white space removed (`PuzzleBoard.tsx`).
- **Lesson explanations.** An explanation is split into HTML parts and
  `<pre><code>` blocks (`LessonExplanation.tsx`).
- **Theme.** The application keeps a colour palette. It writes that palette into CSS custom
  properties (`theme.ts`).

There is one Dafny module per source file, plus three shared modules:

| Dafny file | module | models |
|---|---|---|
| `wrappers.dfy` | `Wrappers` | `Option` and `Result` |
| `js.dfy` | `Js` | JSON values, nullish coalescing, property access, `Number()` and `String()` coercions, `safeJsonArray` |
| `sorting.dfy` | `Sorting` | a stable insertion sort with lexicographic integer keys. `Array.prototype.sort` is stable, and its comparators `a.orderIndex - b.orderIndex` (and `|| a.id - b.id`) order by these keys |
| `catalog.dfy` | `Catalog` | the `Module` and `UiExercise` records and the catalog sort |
| `db.dfy` | `Db` | `pickTable` and `safeParse` |
| `modules_api.dfy` | `ModulesApi` | decoding the modules payload |
| `build_script.dfy` | `BuildScript` | the build script |
| `progress.dfy` | `Progress` | the solved-ids store |
| `unlock.dfy` | `Unlock` | the unlock rule and `buildUnlockModel` |
| `navigation.dfy` | `Navigation` | the modules page as a class |
| `puzzle.dfy` | `Puzzle` | the puzzle board as a class |
| `lesson.dfy` | `Lesson` | the explanation splitter |
| `theme.dfy` | `Theme` | the palette store and `applyTheme` |

Stateful parts are classes whose methods update fields:

- the storage entry of the progress store (`Progress.ProgressStore`)
- the React state of the modules page (`Navigation.ModulesPage`)
- the React state of the puzzle board (`Puzzle.PuzzleBoard`)
- the stored palette key (`Theme.ThemeStore`)
- the document root's style properties (`Theme.DocumentRoot`)

Each method is specified by a pure function of the old state, and the properties are proved
about those functions. Some things outside the model are passed in as parameters:

- `JSON.parse` becomes `parse: string -> Option<Json>`, where `None` stands for a throw.
- `decodeHtmlEntities` becomes `decode: string -> string`.
- `Math.random` becomes a sequence of draws in `[0, 1)`.
- The colour that `mix` computes for `--bg` becomes the parameter `background`.

## Model

| member | source | states |
|---|---|---|
| Js.Coalesce | src/api/modules.ts:62-64 | `a ?? b` is `a` unless `a` is `null` or `undefined`, and `b` otherwise |
| Js.Field | src/api/modules.ts:61 | a property read is `undefined` unless the value is an object that has that property, and is then the stored value |
| Js.TrimStart | src/components/PuzzleBoard.tsx:23 | the result is a suffix of the input and does not start with white space |
| Js.TrimEnd | src/components/PuzzleBoard.tsx:23 | the result is a prefix of the input and does not end with white space |
| Js.Trim | src/components/PuzzleBoard.tsx:23 | the trimmed text starts and ends with non-space characters, and a text that already does is unchanged |
| Js.StringToNumber | src/api/modules.ts:23 | `Number` of a blank string is 0, of a digit string its decimal value, of `+` and digits that value, of `-` and digits the negated value; any other text is NaN |
| Js.NatToString | src/api/modules.ts:62 | `String` of a natural number is a non-empty digit string whose decimal value is that number |
| Js.IntToString | src/api/modules.ts:62 | `String` of a non-negative integer is its decimal digits, of a negative one `-` and the digits of its absolute value |
| Js.StringToNumberOfIntToString | src/api/modules.ts:22-25 | `Number(String(n))` is `n` for every integer |
| Js.ToStr | src/api/modules.ts:62 | `String` leaves a string alone, and a number's text reads back as that number |
| Js.ToNumber | src/api/modules.ts:23 | `Number` maps a number to itself, `null` to 0 and `undefined` to NaN |
| Js.ToNumberOr | src/api/modules.ts:22-25 | `toNumber(v, fallback)` is `Number(v)` when that is finite, and the fallback otherwise |
| Js.SafeJsonArray | src/api/modules.ts:27-36 | an array maps element-wise through `String`; a string that parses to an array maps that array; anything else gives `[]` |
| Catalog.Map | src/api/modules.ts:60 | `map` keeps the length and applies the function at every index |
| Catalog.MapPermutation | src/api/modules.ts:81 | mapping two permutations of the same sequence gives permutations of each other |
| Catalog.RemoveMatching | src/api/modules.ts:81 | removing matching elements from two permutations of each other leaves permutations |
| Catalog.SortExercises | src/api/modules.ts:81 | sorting a module's exercises changes no other field and keeps the same exercises |
| Catalog.SortExercisesOrdered | src/api/modules.ts:81 | sorting a module's exercises changes only its exercise list, which ends up ordered by `orderIndex` and a permutation of the original |
| Catalog.SortCatalog | src/api/modules.ts:80-81 | sorting keeps the number of modules |
| Catalog.SortCatalogOrdered | src/api/modules.ts:80-81 | the sorted catalog is ordered by module `orderIndex`, every module's exercises are ordered, and the result is a permutation of the modules with their exercises sorted |
| Sorting.LexLeRefl | scripts/build-modules-json.mjs:66 | the lexicographic key order is reflexive |
| Sorting.LexLeTotal | scripts/build-modules-json.mjs:66 | the key order is total |
| Sorting.LexLeTrans | scripts/build-modules-json.mjs:66 | the key order is transitive |
| Sorting.LexLeAntisym | scripts/build-modules-json.mjs:66 | the key order is antisymmetric on keys of equal width |
| Sorting.WithKey | scripts/build-modules-json.mjs:66 | the elements with a given key are never more than the input |
| Sorting.SubseqPrefix | scripts/build-modules-json.mjs:66 | a subsequence stays one when the sequence is extended at the front |
| Sorting.SubseqAppend | scripts/build-modules-json.mjs:66 | subsequences of two sequences concatenate to a subsequence of their concatenation |
| Sorting.WithKeyIsFilter | scripts/build-modules-json.mjs:66 | the elements with a key form a subsequence of the input, all have that key, and each such element appears as often as in the input |
| Sorting.WithKeySubseq | scripts/build-modules-json.mjs:66 | the elements with a key form a subsequence of the input |
| Sorting.WithKeyKeys | scripts/build-modules-json.mjs:66 | every element kept has the key |
| Sorting.WithKeyCount | scripts/build-modules-json.mjs:66 | no element is added, and an element with the key is kept as often as the input has it |
| Sorting.Insert | src/api/modules.ts:80 | inserting adds exactly one element, and the multiset grows by that element |
| Sorting.StableSort | src/api/modules.ts:80 | the sort is a permutation of its input |
| Sorting.StableSortMember | src/api/modules.ts:80 | every element of the sorted output occurs in the input |
| Sorting.InsertSorted | src/api/modules.ts:80 | inserting into a sorted sequence keeps it sorted |
| Sorting.ConsSorted | src/api/modules.ts:80 | an element placed before a sorted tail with a greater or equal key gives a sorted sequence |
| Sorting.StableSortSorted | src/api/modules.ts:80 | the sort's output is ordered by the key |
| Sorting.WithKeyInsert | src/api/modules.ts:80 | inserting places the new element before every element of the sorted list with the same key, since insertion stops at the first element whose key is not smaller; the sort inserts each earlier input element into the sorted rest, which keeps equal keys in input order |
| Sorting.WithKeyCons | src/api/modules.ts:80 | the elements of a sequence with a given key are those of its head and of its tail, in order |
| Sorting.StableSortStable | src/api/modules.ts:80 | the sort is stable: elements with equal keys keep their relative order |
| Db.FirstTable | src/api/db.ts:21-23 | `find` returns the first index whose item is the table with that name, or -1 when no item is |
| Db.DataRows | src/api/db.ts:27 | a table's `data` is used when it is an array, and `[]` is used otherwise |
| Db.PickTable | src/api/db.ts:18-28 | a dump that is not an array gives `[]`; otherwise the rows of the first matching table are returned, or `[]` when none matches; a `null` item met before the table throws |
| Db.Find | src/api/db.ts:21-23 | searching the items throws exactly when a nullish item comes before the first match |
| Db.PickTableTotal | src/api/db.ts:18-28 | a dump without nullish items never throws |
| Db.SafeParse | src/api/db.ts:30-38 | nullish input gives the fallback; a string gives its parse, or the fallback when parsing throws; any other value is returned unchanged |
| ModulesApi.TextOr | src/api/modules.ts:62-63 | `String(x ?? "")` is empty for a nullish field and the string itself for a string field |
| ModulesApi.DecodeExercise | src/api/modules.ts:66-75 | decoding an exercise throws only on a nullish record. The id comes from `toNumber`, and the kind is blockly exactly for the string "blockly". Every other field takes the first non-nullish of its names in order: the module id `moduleId`, `module_id`, then the parent's id; the title, or ""; `instructionsHtml`, `instructions_html`, or ""; `codeParts`, `code_parts`, then `code_parts_json`; `orderedCode`, `ordered_code`, or ""; `orderIndex`, `order_index`, or 0 |
| ModulesApi.DecodeExercises | src/api/modules.ts:65-76 | the exercise list decodes element by element and throws exactly when some record is nullish |
| ModulesApi.DecodeModule | src/api/modules.ts:60-77 | a module throws exactly when it is nullish or holds a nullish exercise; its id comes from `toNumber`; title and description are their text, or "" when nullish; the order index is `orderIndex`, else `order_index`, else 0; a missing exercise array gives `[]`, and otherwise exercise i is the decoding of record i under this module |
| ModulesApi.DecodeModuleList | src/api/modules.ts:60 | the module list decodes element by element and fails exactly when some module fails |
| ModulesApi.ModulesRaw | src/api/modules.ts:57 | an array payload is used as is, and any other payload is replaced by its `modules` property |
| ModulesApi.DecodeModules | src/api/modules.ts:57-83 | a payload without a modules array is a bad payload; a nullish module or exercise is an error; otherwise the result is the decoded catalog sorted |
| ModulesApi.DecodedCatalogOrdered | src/api/modules.ts:79-83 | a decoded catalog is ordered by module and by exercise order index, and is a permutation of the decoded modules |
| ModulesApi.WrappedPayloadSame | src/api/modules.ts:54-57 | `{ modules: [...] }` and `[...]` decode to the same catalog |
| BuildScript.PickTable | scripts/build-modules-json.mjs:8-11 | the rows of the first item that is the named table, or `[]`; null items are skipped |
| BuildScript.GroupKey | scripts/build-modules-json.mjs:42 | a row is filed under `module_id` when that is present and under `moduleId` otherwise |
| BuildScript.RowsWithKey | scripts/build-modules-json.mjs:40-45 | a group holds only rows of the input with that key, and is never longer than the input |
| BuildScript.RowsWithKeyIsFilter | scripts/build-modules-json.mjs:40-45 | a group is a subsequence of the rows and holds each row with its key as often as the rows do |
| BuildScript.RowsWithKeySubseq | scripts/build-modules-json.mjs:40-45 | a group keeps the rows in input order |
| BuildScript.RowsWithKeyCount | scripts/build-modules-json.mjs:40-45 | a group adds no row and keeps every row with its key as often as the input has it |
| BuildScript.RowInOneGroup | scripts/build-modules-json.mjs:40-45 | a row is in the group of a key exactly when the row has that key |
| BuildScript.Keys | scripts/build-modules-json.mjs:40-45 | every row's key is among the group keys |
| BuildScript.KeysHaveRows | scripts/build-modules-json.mjs:43 | a key has a group exactly when some row has that key, so no group is empty |
| BuildScript.GroupsSnoc | scripts/build-modules-json.mjs:41-45 | one loop iteration appends the row to the group of its key |
| BuildScript.GroupsAre | scripts/build-modules-json.mjs:40-45 | the finished index has exactly the row keys, and each group holds the rows with that key in input order |
| BuildScript.GroupsKeyed | scripts/build-modules-json.mjs:40-45 | every row in a group has that group's key |
| BuildScript.GroupByModule | scripts/build-modules-json.mjs:40-45 | the grouping loop throws exactly when some row is nullish, and otherwise builds the index of rows by module id |
| BuildScript.GroupBy | scripts/build-modules-json.mjs:40-45 | the same loop for any key: it throws exactly on a nullish row, and otherwise its result is the grouping |
| BuildScript.AddRow | scripts/build-modules-json.mjs:43-44 | the loop body creates the group when it is missing, then appends the row |
| BuildScript.ExerciseKeyIsComparator | scripts/build-modules-json.mjs:66 | ordering exercises by `(orderIndex, id)` is the order of the comparator `a.orderIndex - b.orderIndex \|\| a.id - b.id` |
| BuildScript.ModuleKeyIsComparator | scripts/build-modules-json.mjs:70 | the same for modules |
| BuildScript.ScriptExercise | scripts/build-modules-json.mjs:56-65 | the id comes from `toNum`; the module id is `module_id`, else `moduleId`, else the parent id; the title is its text or ""; the instructions are `instructions_html`, else `instructionsHtml`, else ""; the fragments are parsed from `code_parts_json`, else `codeParts`, else `code_parts`; the expected code is `ordered_code`, else `orderedCode`, else ""; the order index is `order_index`, else `orderIndex`, and 0 when both are missing; the kind is blockly exactly for "blockly" |
| BuildScript.ScriptModule | scripts/build-modules-json.mjs:48-69 | a module row throws only when it is nullish; its id comes from `toNum`; title and description are their text, or "" when nullish; the order index is `order_index`, else `orderIndex`, and 0 when both are missing; it gets one exercise per row of its group |
| BuildScript.MapRows | scripts/build-modules-json.mjs:47-48 | mapping fails exactly when some row fails, and otherwise maps every row in place |
| BuildScript.ScriptModules | scripts/build-modules-json.mjs:47-69 | module rows map element by element; the map throws exactly when a row is nullish |
| BuildScript.BuildSpec | scripts/build-modules-json.mjs:36-70 | the script fails exactly when an exercise row or a module row is nullish, with the TypeError, and otherwise emits as many modules as there are module rows |
| BuildScript.BuildModulesJson | scripts/build-modules-json.mjs:29-72 | a dump that is not an array is rejected; otherwise the output is the one specified above |
| BuildScript.OutputModuleFromRow | scripts/build-modules-json.mjs:47-69 | every output module comes from some module row |
| BuildScript.BuildSpecPermutes | scripts/build-modules-json.mjs:47-70 | when no exercise or module row is nullish the script succeeds, and its output is a permutation of the module rows' modules, so no module is repeated in place of another |
| BuildScript.RowModuleEmitted | scripts/build-modules-json.mjs:47-70 | when no exercise or module row is nullish, every module row yields a module, and that module is in the output |
| BuildScript.SortedModuleFromRow | scripts/build-modules-json.mjs:70 | sorting the modules adds no module |
| BuildScript.ModuleGetsItsRows | scripts/build-modules-json.mjs:54-66 | a module's exercises are exactly the exercise rows filed under its id, mapped and ordered by `orderIndex` then `id` |
| BuildScript.ExercisesBelong | scripts/build-modules-json.mjs:58 | an exercise filed under a module carries that module's id |
| BuildScript.ModuleExercisesBelong | scripts/build-modules-json.mjs:54-66 | every exercise emitted inside a module carries that module's id |
| BuildScript.ModulesOrdered | scripts/build-modules-json.mjs:70 | the emitted modules are ordered by `orderIndex` then `id` |
| Progress.PositiveIds | src/progress/progress.ts:16-19 | keeps exactly the entries whose `Number` is finite and positive, so never more entries than stored |
| Progress.LoadSolved | src/progress/progress.ts:10-23 | a missing, empty, unparseable or non-array entry gives `[]`; otherwise the positive finite numbers in it |
| Progress.Dedup | src/progress/progress.ts:39 | a `Set` keeps the same members with no duplicates and is never longer than its input |
| Progress.DedupOfDistinct | src/progress/progress.ts:39-41 | a list without duplicates is its own `Set` order |
| Progress.Encode | src/progress/progress.ts:41 | stringifying writes one JSON number per id, in order |
| Progress.LoadEncoded | src/progress/progress.ts:14-19 | reading back what was written gives the same positive ids |
| Progress.Marked | src/progress/progress.ts:39-40 | the new solved set holds the stored ids plus the new one, without duplicates |
| Progress.MarkItems | src/progress/progress.ts:35-42 | an invalid id (NaN, infinite, 0 or negative) leaves storage unchanged; a valid one rewrites only the solved key |
| Progress.MarkedPositive | src/progress/progress.ts:36-41 | after marking, every solved id is positive |
| Progress.MarkedAgain | src/progress/progress.ts:39-40 | marking an id already solved writes the same list back |
| Progress.LoadAfterMark | src/progress/progress.ts:35-42 | after marking, the solved ids read back are the old ones with the new one added |
| Progress.MarkAdds | src/progress/progress.ts:35-42 | after marking, an id is solved exactly when it was solved before or is the marked id |
| Progress.MarkIdempotent | src/progress/progress.ts:35-42 | marking the same exercise twice is the same as marking it once |
| Progress.ProgressStore.constructor | src/progress/progress.ts:5 | a fresh store holds nothing |
| Progress.ProgressStore.SolvedIds | src/progress/progress.ts:10-23 | the solved ids are all positive, and none are stored before the first write |
| Progress.ProgressStore.IsExerciseSolved | src/progress/progress.ts:28-30 | only a positive id can be solved, and nothing is solved before the key is first written |
| Progress.ProgressStore.MarkExerciseSolved | src/progress/progress.ts:35-42 | the update is the one `MarkItems` specifies; for a valid id, exactly that id joins the solved exercises |
| Progress.ProgressStore.ResetProgress | src/progress/progress.ts:47-49 | removes only the solved key, after which nothing is solved |
| Unlock.InModuleMembership | src/progress/progress.ts:81-116 | the inner loop unlocks exactly the exercises granted by one of the three rules |
| Unlock.BeforeMembership | src/progress/progress.ts:77-117 | the outer loop unlocks exactly the exercises of earlier modules that a rule grants |
| Unlock.UnlockedIffGranted | src/progress/progress.ts:51-60 | an id is unlocked exactly when a rule grants it at some position of the sorted catalog |
| Unlock.UnlockedAreCatalogIds | src/progress/progress.ts:77-117 | only ids of catalog exercises are unlocked |
| Unlock.SolvedAreUnlocked | src/progress/progress.ts:85-88 | a solved exercise is unlocked |
| Unlock.FirstAlwaysUnlocked | src/progress/progress.ts:91-94 | the first exercise of the first module is always unlocked |
| Unlock.Monotone | src/progress/progress.ts:77-117 | solving more never locks anything |
| Unlock.InModuleRule | src/progress/progress.ts:97-103 | with unique ids, a later exercise in a module is unlocked exactly when it or its predecessor is solved |
| Unlock.CrossModuleRule | src/progress/progress.ts:107-115 | a module's first exercise is unlocked exactly when the last exercise of the previous module is solved (or when it is solved, or is the very first); an empty previous module unlocks nothing |
| Unlock.BuildUnlockModel | src/progress/progress.ts:61-123 | the solved set is the stored ids, and the unlocked set is the rule applied to the sorted catalog |
| Unlock.WalkCatalog | src/progress/progress.ts:75-117 | the nested loops compute the unlocked set exactly |
| Unlock.TwoModuleUnlocked | src/progress/progress.ts:51-60 | worked example: the unlocked set of a two-module catalog for any solved set |
| Unlock.TwoModuleWalkthrough | src/progress/progress.ts:51-60 | solving in order unlocks one more exercise at a time, across the module boundary |
| Navigation.Entries | src/pages/ModulesPage.tsx:78-96 | one flat entry per exercise of a module, carrying the module's fields |
| Navigation.FlattenMembers | src/pages/ModulesPage.tsx:78-96 | an entry is in the flat list exactly when its exercise is listed in its module |
| Navigation.FlatOrdered | src/pages/ModulesPage.tsx:78-96 | the flat list is ordered by module then exercise order, is a permutation of the catalog's entries and has the same members |
| Navigation.BuildFlat | src/pages/ModulesPage.tsx:78-96 | the loop builds the specified flat list |
| Navigation.FindIndex | src/pages/ModulesPage.tsx:101-104 | `findIndex` gives the first entry with the id, or -1 when there is none |
| Navigation.CurrentExercise | src/pages/ModulesPage.tsx:101-104 | the current exercise is absent exactly when no id is selected or the id is not in the list; otherwise it is the entry with that id |
| Navigation.PrevTarget | src/pages/ModulesPage.tsx:163-172 | "previous" exists exactly when the current exercise is listed after the first position, and it is the entry just before it |
| Navigation.NextTarget | src/pages/ModulesPage.tsx:174-186 | "next" exists exactly when the current exercise is listed before the last position and the following entry is reachable; the target is that entry |
| Navigation.PrevLocked | src/pages/ModulesPage.tsx:188-192 | the previous button is disabled exactly when "previous" has no target |
| Navigation.NextLocked | src/pages/ModulesPage.tsx:194-200 | the next button is disabled exactly when "next" has no target |
| Navigation.PrevIsPredecessor | src/pages/ModulesPage.tsx:163-172 | with distinct ids, "previous" from entry k goes to entry k-1 |
| Navigation.NextIsSuccessor | src/pages/ModulesPage.tsx:174-186 | with distinct ids, "next" from entry k goes to entry k+1 when that entry is reachable |
| Navigation.FindModule | src/pages/ModulesPage.tsx:112-130 | a module is found exactly when one has the id; the result has the id and is the first module that has it, as `modules.find` returns |
| Navigation.FirstExerciseId | src/pages/ModulesPage.tsx:112-130 | a module's first exercise id is absent exactly when it has no exercises |
| Navigation.Repair | src/pages/ModulesPage.tsx:112-130 | the repair keeps an empty catalog alone; otherwise it ends on an existing module, falls back to the first module when the selection is stale, resets the exercise to the module's first one when it is missing or not in the catalog, and keeps a valid selection |
| Navigation.FlatOrderCovers | src/pages/ModulesPage.tsx:78-96 | every exercise of the catalog has an entry in the flat list |
| Navigation.RepairSettles | src/pages/ModulesPage.tsx:112-130 | a repaired selection names an existing exercise or none, and a second repair leaves it unchanged, so the effect settles after one run |
| Navigation.CountSolved | src/pages/ModulesPage.tsx:270-271 | the solved count is at most the number of exercises; it equals that number exactly when all are solved, and is 0 exactly when none is; a single id counts 1 exactly when it is solved |
| Navigation.CountSolvedAppend | src/pages/ModulesPage.tsx:270-271 | the count of a concatenation is the sum of the counts of its parts, which with the single-id case fixes the count of every list |
| Navigation.ModuleSolvedCount | src/pages/ModulesPage.tsx:270-271 | a module is fully solved exactly when its count reaches its exercise count; a one-exercise module counts 1 exactly when that exercise is solved |
| Navigation.ModuleSolvedCountAppend | src/pages/ModulesPage.tsx:270-271 | a module whose exercises are two lists counts the solved exercises of each list |
| Navigation.ProgressNow | src/pages/ModulesPage.tsx:133-135 | the progress shown is the smaller of the total and the solved count |
| Navigation.Toggle | src/pages/ModulesPage.tsx:147-154 | toggling flips exactly the given module's membership in the open set |
| Navigation.ToggleTwice | src/pages/ModulesPage.tsx:147-154 | toggling twice restores the open set |
| Navigation.ModulesPage.constructor | src/pages/ModulesPage.tsx:34-62 | the page starts loading with no catalog and no selection |
| Navigation.ModulesPage.LoadModules | src/pages/ModulesPage.tsx:34-62 | a failed fetch sets the error state and changes nothing else; a successful one stores the sorted catalog and opens its first exercise when there is one |
| Navigation.ModulesPage.ShowCatalog | src/pages/ModulesPage.tsx:49-54 | the page becomes ready with the given catalog, and the first exercise is selected when there is one |
| Navigation.ModulesPage.OpenFirst | src/pages/ModulesPage.tsx:49-54 | selects and opens the first module's first exercise when it exists, and changes nothing otherwise |
| Navigation.ModulesPage.RepairSelection | src/pages/ModulesPage.tsx:112-130 | the selection becomes its repair |
| Navigation.ModulesPage.ToggleModuleOpen | src/pages/ModulesPage.tsx:147-154 | only the open set changes, and it changes by a toggle |
| Navigation.ModulesPage.GoPrev | src/pages/ModulesPage.tsx:163-172 | with no previous target nothing changes; otherwise the previous entry's module and exercise become current |
| Navigation.ModulesPage.GoNext | src/pages/ModulesPage.tsx:174-186 | with no next target nothing changes; otherwise the next entry's module and exercise become current |
| Navigation.ModulesPage.ClickExercise | src/pages/ModulesPage.tsx:310-322 | a click on a reachable exercise selects it with its module; a click on a locked exercise changes nothing |
| Navigation.ModulesPage.UnlockModelNow | src/pages/ModulesPage.tsx:99 | the page's unlock model is `buildUnlockModel` of the catalog with the stored progress |
| Navigation.ModulesPage.OnPuzzleSolved | src/pages/ModulesPage.tsx:444-447 | a solved puzzle marks the current exercise solved |
| Navigation.ModulesPage.ResetButton | src/pages/ModulesPage.tsx:341-350 | reset clears the progress and returns to the first exercise when there is one |
| Puzzle.PickIndex | src/components/PuzzleBoard.tsx:7 | a draw in `[0, 1)` picks an index in `0..i` |
| Puzzle.ScaledBelow | src/components/PuzzleBoard.tsx:7 | a draw in `[0, 1)` times `n` lies in `[0, n)` |
| Puzzle.Shuffle | src/components/PuzzleBoard.tsx:4-11 | the Fisher–Yates loop returns a permutation of the tiles |
| Puzzle.WidenSpaces | src/components/PuzzleBoard.tsx:21 | exactly the three narrow or no-break spaces become plain spaces |
| Puzzle.RemoveSpaces | src/components/PuzzleBoard.tsx:22 | the result has no white space and is no longer than the input; a single character is dropped exactly when it is white space |
| Puzzle.RemoveSpacesAppend | src/components/PuzzleBoard.tsx:22 | removing white space distributes over concatenation, so it works character by character |
| Puzzle.Normalize | src/components/PuzzleBoard.tsx:19-24 | the normalized answer has no white space and none of the three special spaces |
| Puzzle.RemoveSpacesWiden | src/components/PuzzleBoard.tsx:21-22 | widening the special spaces does not change what remains after removing white space |
| Puzzle.TrimNoSpaces | src/components/PuzzleBoard.tsx:23 | trimming a string without white space changes nothing |
| Puzzle.NormalizeIsRemoveSpaces | src/components/PuzzleBoard.tsx:19-24 | normalizing is decoding followed by removing all white space |
| Puzzle.RemoveSpacesOfClean | src/components/PuzzleBoard.tsx:22 | a string without white space is left unchanged |
| Puzzle.NormalizeIdempotent | src/components/PuzzleBoard.tsx:19-24 | normalizing twice is normalizing once, given a decode that leaves normalized text alone |
| Puzzle.Concat | src/components/PuzzleBoard.tsx:87 | joining no tiles gives the empty text, and one tile gives that tile |
| Puzzle.ConcatAppend | src/components/PuzzleBoard.tsx:87 | joining distributes over concatenation of tile lists |
| Puzzle.IsCorrect | src/components/PuzzleBoard.tsx:115-118 | the answer is right exactly when the decoded expected code and the decoded joined tiles agree once all white space is removed |
| Puzzle.RemoveAt | src/components/PuzzleBoard.tsx:100-105 | removing a tile shortens the board by one |
| Puzzle.InsertAt | src/components/PuzzleBoard.tsx:100-105 | inserting puts the tile at the index and lengthens the board by one |
| Puzzle.MoveBoard | src/components/PuzzleBoard.tsx:96-113 | an out-of-range target or a move onto itself changes nothing; otherwise the tile lands at the target, the tiles stay a permutation, the target becomes selected and the status goes back to idle |
| Puzzle.SelectBoard | src/components/PuzzleBoard.tsx:155-161 | selecting changes only the selected index |
| Puzzle.DeselectBoard | src/components/PuzzleBoard.tsx:163-165 | deselecting clears only the selection |
| Puzzle.Checked | src/components/PuzzleBoard.tsx:115-121 | checking sets the status from the verdict and changes nothing else |
| Puzzle.KeyDown | src/components/PuzzleBoard.tsx:167-214 | on an empty board nothing happens. Enter checks and Escape deselects. Up or down with no selection selects the first tile; other keys do nothing. The board stays valid and a permutation of its tiles |
| Puzzle.ArrowStep | src/components/PuzzleBoard.tsx:184-213 | arrow keys on a selection keep the tiles a permutation, and up and down do not move tiles |
| Puzzle.UpDownClamped | src/components/PuzzleBoard.tsx:192-200 | up and down move the selection by one, clamped to the board |
| Puzzle.LeftRightCarriesSelection | src/components/PuzzleBoard.tsx:202-213 | left and right swap the selected tile with its neighbour, and the selection follows the tile |
| Puzzle.LeftButtonBoard | src/components/PuzzleBoard.tsx:280-283 | the left button swaps the tile with its left neighbour, leaves every other tile in place, sets the status to idle and selects the tile's new place; at the first place it only selects |
| Puzzle.NeighbourSwap | src/components/PuzzleBoard.tsx:93-105 | moving a tile by one place is the swap with its neighbour |
| Puzzle.RightButtonBoard | src/components/PuzzleBoard.tsx:294-297 | the right button swaps the tile with its right neighbour, leaves every other tile in place, sets the status to idle and selects the tile's new place; at the last place it only selects |
| Puzzle.PuzzleBoard.constructor | src/components/PuzzleBoard.tsx:78-85 | a new board holds a shuffle of the lesson's tiles, idle, with nothing selected or dragged |
| Puzzle.PuzzleBoard.ResetForLesson | src/components/PuzzleBoard.tsx:78-85 | the new lesson is shown; when its title differs the tiles are a shuffle of its fragments with status, selection and drag reset, and when the title is the same the board is left exactly as it was |
| Puzzle.PuzzleBoard.ChangeLesson | src/components/PuzzleBoard.tsx:78-85 | any change of lesson resets the board, so the tiles are always an arrangement of the shown lesson's fragments |
| Puzzle.SameTitleKeepsStaleTiles | src/components/PuzzleBoard.tsx:78-85 | after a change between two lessons with the same title the tiles are not an arrangement of the shown lesson's fragments |
| Puzzle.PuzzleBoard.ShuffleButton | src/components/PuzzleBoard.tsx:318-324 | reshuffling keeps the lesson's tiles, resets the status and clears the selection; the drag index is left as it is, so the board stays valid when no drag is running or when the tiles already matched the lesson |
| Puzzle.PuzzleBoard.Move | src/components/PuzzleBoard.tsx:96-113 | the board becomes `MoveBoard` of the old board |
| Puzzle.PuzzleBoard.Check | src/components/PuzzleBoard.tsx:115-121 | the verdict is whether the normalized tiles equal the normalized expected code, and the status records it; a valid board stays valid |
| Puzzle.PuzzleBoard.SetVerdict | src/components/PuzzleBoard.tsx:117-120 | stores the verdict as the status; a valid board stays valid |
| Puzzle.PuzzleBoard.Select | src/components/PuzzleBoard.tsx:155-161 | only the selection changes |
| Puzzle.PuzzleBoard.Deselect | src/components/PuzzleBoard.tsx:163-165 | the selection is cleared |
| Puzzle.PuzzleBoard.OnDragStart | src/components/PuzzleBoard.tsx:124-131 | dragging remembers the source tile and selects it as an idle board |
| Puzzle.PuzzleBoard.OnDragEnd | src/components/PuzzleBoard.tsx:138-142 | ending a drag forgets the source and leaves the board as it was |
| Puzzle.PuzzleBoard.OnDrop | src/components/PuzzleBoard.tsx:144-152 | a drop with no drag does nothing; otherwise it moves the dragged tile to the drop place; the drag ends either way |
| Puzzle.PuzzleBoard.OnKeyDown | src/components/PuzzleBoard.tsx:167-214 | a key updates the board as `KeyDown` specifies, and the lesson counts as solved exactly when Enter checks a correct order |
| Puzzle.PuzzleBoard.ArrowOnSelection | src/components/PuzzleBoard.tsx:190-213 | an arrow key with a selection updates the board as `ArrowStep` specifies |
| Puzzle.PuzzleBoard.SelectNeighbour | src/components/PuzzleBoard.tsx:192-200 | up and down update the board as `ArrowStep` specifies |
| Puzzle.PuzzleBoard.MoveNeighbour | src/components/PuzzleBoard.tsx:202-213 | left and right update the board as `ArrowStep` specifies |
| Puzzle.PuzzleBoard.LeftButton | src/components/PuzzleBoard.tsx:280-283 | the left button updates the board as `LeftButtonBoard` specifies |
| Puzzle.PuzzleBoard.RightButton | src/components/PuzzleBoard.tsx:294-297 | the right button updates the board as `RightButtonBoard` specifies |
| Lesson.FirstAt | src/components/LessonExplanation.tsx:13 | the first occurrence of a tag at or after a position, or -1 when there is none |
| Lesson.NextMatch | src/components/LessonExplanation.tsx:13 | a match lies at or after the search position, with its opening tag before its closing tag inside the text |
| Lesson.NextMatchFacts | src/components/LessonExplanation.tsx:13 | the match is the first opening tag followed by the nearest closing tag; no match means no such pair from that point |
| Lesson.MatchTags | src/components/LessonExplanation.tsx:13 | a match begins with the opening tags and its closing tags sit at the reported place |
| Lesson.Decoded | src/components/LessonExplanation.tsx:26 | decoding keeps the number of parts |
| Lesson.DecodedAt | src/components/LessonExplanation.tsx:26 | only code parts are decoded, each in place |
| Lesson.DecodedAppend | src/components/LessonExplanation.tsx:26 | decoding distributes over concatenation |
| Lesson.SplitStep | src/components/LessonExplanation.tsx:19-29 | one match gives an optional html part before it, then the code part, then the parts after it |
| Lesson.SegmentStep | src/components/LessonExplanation.tsx:19-29 | one loop iteration emits the parts for one match and moves past it |
| Lesson.Segments | src/components/LessonExplanation.tsx:12-34 | the loop returns the split of the explanation with code parts decoded |
| Lesson.SegmentEnd | src/components/LessonExplanation.tsx:31 | after the last match the rest of the text is one html part when non-empty |
| Lesson.RenderAppend | src/components/LessonExplanation.tsx:36-46 | rendering distributes over concatenation |
| Lesson.SplitRenders | src/components/LessonExplanation.tsx:12-34 | before decoding, rendering the parts back (code inside its tags) gives the original text, so nothing is lost or duplicated |
| Lesson.RenderStep | src/components/LessonExplanation.tsx:19-29 | one match rendered back is the text from the search position on |
| Lesson.RenderThree | src/components/LessonExplanation.tsx:36-46 | rendering three lists is rendering each in turn |
| Lesson.RenderHead | src/components/LessonExplanation.tsx:23 | the optional html part renders back to the text before the match |
| Lesson.RenderCode | src/components/LessonExplanation.tsx:25-26 | a code part renders back with its tags |
| Lesson.Pieces | src/components/LessonExplanation.tsx:20-21 | the text splits at a match into what comes before, the match and what comes after |
| Lesson.SplitWellFormed | src/components/LessonExplanation.tsx:19-31 | the parts never hold an empty html part, never two html parts in a row, and no code part holds a closing tag |
| Lesson.WellFormedAfter | src/components/LessonExplanation.tsx:19-29 | one match keeps the parts well formed |
| Lesson.SplitEnd | src/components/LessonExplanation.tsx:31 | with no further match the rest is at most one html part, and never an empty one |
| Lesson.MatchInnerClean | src/components/LessonExplanation.tsx:13 | the lazy group stops at the first closing tag, so the captured code holds none |
| Lesson.InnerHasNoClose | src/components/LessonExplanation.tsx:13 | text before the nearest closing tag holds no closing tag |
| Lesson.WellFormedStep | src/components/LessonExplanation.tsx:23-26 | an optional non-empty html part, a clean code part and well-formed parts together stay well formed |
| Lesson.SegmentsWellFormed | src/components/LessonExplanation.tsx:12-34 | the shown parts are well formed after decoding too |
| Lesson.NoMatchIsOnePart | src/components/LessonExplanation.tsx:31 | an empty explanation has no parts; one without a complete span is a single html part |
| Theme.PaletteSizes | src/theme/palettes.ts:1-12 | the default palette exists and every palette has 3 to 7 colours |
| Theme.PaletteKeyAsWritten | src/theme/theme.ts:5-8 | the key read back is the default or a non-empty stored string accepted by the truthiness test; a stored palette name is returned |
| Theme.InheritedNameAccepted | src/theme/theme.ts:7 | the stored key "constructor" is returned although it names no palette |
| Theme.PaletteKey | src/theme/theme.ts:5-8 | the key read back is always a palette: the stored one when it names a palette, the default otherwise |
| Theme.PaletteKeyAgrees | src/theme/theme.ts:5-8 | the two readings agree on every stored value except inherited names |
| Theme.ThemeStore.constructor | src/theme/theme.ts:3 | a fresh store holds nothing |
| Theme.ThemeStore.CurrentKey | src/theme/theme.ts:5-8 | the current key always names a palette |
| Theme.ThemeStore.SetPaletteKey | src/theme/theme.ts:10-13 | a palette name is stored and read back; anything else changes nothing |
| Theme.ThemeStore.SetPaletteKeyAsWritten | src/theme/theme.ts:10-13 | the setter as written stores every key the truthiness test accepts, inherited names included, and ignores the rest |
| Theme.ConstructorGetsStored | src/theme/theme.ts:11 | the setter as written stores "constructor", which names no palette |
| Theme.RemoveFirstHash | src/theme/theme.ts:16 | removes exactly one character, the first `#`, keeping everything before and after it; a string without `#` is unchanged |
| Theme.FirstHashStep | src/theme/theme.ts:16 | removing the first `#` of a tail also removes the first `#` of the whole when the head is not `#` |
| Theme.Expand3 | src/theme/theme.ts:17 | three digits are doubled into six, and any other length is kept |
| Theme.HexDigit | src/theme/theme.ts:17 | a hex digit is worth less than 16 |
| Theme.HexRun | src/theme/theme.ts:17 | `parseInt` reads the longest leading run of hex digits |
| Theme.ParseHex | src/theme/theme.ts:17 | `parseInt` gives NaN exactly when no hex digit leads the text |
| Theme.HexToRgb | src/theme/theme.ts:15-19 | each channel is a byte, and together they are the parsed number modulo 2^24 |
| Theme.Bytes | src/theme/theme.ts:18 | the three byte extractions rebuild the number modulo 2^24 |
| Theme.BytesBack | src/theme/theme.ts:18 | the bytes of a number assembled from three bytes are those bytes |
| Theme.ParseHexDigits | src/theme/theme.ts:17 | a string made only of hex digits parses to its value |
| Theme.ColorOfValue | src/theme/theme.ts:15-19 | six hex digits give the colour whose channels are the three digit pairs |
| Theme.SixDigitColor | src/theme/theme.ts:15-19 | `#rrggbb` gives the channels `rr`, `gg`, `bb` |
| Theme.SixValue | src/theme/theme.ts:17 | six digits are worth the three pairs weighted by 65536, 256 and 1 |
| Theme.HexRunAll | src/theme/theme.ts:17 | in a string of hex digits the run is the whole string |
| Theme.ThreeDigitColor | src/theme/theme.ts:15-19 | `#rgb` gives the channels 17·r, 17·g and 17·b |
| Theme.ThreeDigitNumber | src/theme/theme.ts:17 | `#rgb` is parsed as `rrggbb` |
| Theme.NoDigitsIsBlack | src/theme/theme.ts:15-19 | text with no leading hex digit gives black, since NaN shifts to 0 |
| Theme.PaletteFor | src/theme/theme.ts:41 | a known key gives its palette, an unknown one the default, and a palette always has 3 to 7 colours |
| Theme.SlotIndex | src/theme/theme.ts:46-48 | slot i takes colour i, or the last colour when the palette is shorter |
| Theme.Accent2Index | src/theme/theme.ts:52 | the second accent is the colour at half the palette length, rounded down |
| Theme.StopPercent | src/theme/theme.ts:75 | the stop is `i / max(1, len - 1) · 100` rounded half up |
| Theme.StopsSpan | src/theme/theme.ts:73-78 | stops run from 0% at the first colour to 100% at the last, and stay within 0..100 |
| Theme.StopsClimb | src/theme/theme.ts:73-78 | stops never decrease along the palette |
| Theme.Stops | src/theme/theme.ts:73-78 | one stop per colour: the colour, a space, its percentage and `%` |
| Theme.GradientShape | src/theme/theme.ts:80-83 | the gradient is `linear-gradient(135deg, …)`, and one colour gives the single stop at 0% |
| Theme.SlotName | src/theme/theme.ts:47 | slot i is named `--p` followed by digit i+1 |
| Theme.SlotNamesDistinct | src/theme/theme.ts:46-48 | the seven slot names differ from each other and from the fixed property names |
| Theme.DocumentRoot.constructor | src/theme/theme.ts:43 | a fresh root has no properties and no palette attribute |
| Theme.DocumentRoot.ApplyTheme | src/theme/theme.ts:40-86 | applying a key sets the seven slots from its palette and the fixed properties, leaves every other property alone, and records the key |
| Theme.DocumentRoot.SetSlots | src/theme/theme.ts:46-48 | the loop sets all seven slots and no other property |
| Theme.DocumentRoot.SetFixed | src/theme/theme.ts:62-83 | the fixed properties are set, the slots already set are kept, and nothing else changes |
| Theme.FixedValues | src/theme/theme.ts:55-69 | exactly the nine fixed properties are written |
| Theme.FixedValuesAre | src/theme/theme.ts:51-83 | the accent is the first colour, the second accent the middle one, the background comes from the accent, and the gradient is built from all colours |
| Theme.UnknownKeyIsDefault | src/theme/theme.ts:41 | an unknown key is themed as the default palette |
| Theme.SlotsOfPalette | src/theme/theme.ts:47 | slot i shows colour i, or the last colour past the palette's end |

## Left out

- Numbers are integers. Fractions, exponents and hex forms of `Number()` are not modelled, and neither is `parseInt` precision beyond 2^53. `Js.StringToNumber` reads only optionally signed decimal digits after trimming. Any other text is NaN.
- Theme.DocumentRoot.ApplyTheme: `mix` works on floating point and `Math.round`, so the `--bg` colour is passed in as the parameter `background`. The contract says that `--bg` holds it but not how it is computed.
- Theme.StopPercent: `Math.round` on a float is modelled by exact rational rounding half up. It can differ from the float result only where floating-point error straddles a half.
- Theme.HexDigit: digits are only meaningful for hex characters. `HexRun` never passes it anything else.
- `applyTheme` for an inherited name such as "constructor" is not modelled: `PaletteFor` uses own-key lookup. `applyTheme` is reached only with keys from the corrected `PaletteKey`.
- Rendering, the DOM and browser effects:
  - JSX output and `dangerouslySetInnerHTML`
  - FLIP animations, drag-enter highlighting (`dropTarget`) and focus management
  - menu opening and closing on small screens, including `selectExercise` closing the menu
  - `ScratchCodeBlock`, `BlocklyWorkspace` and `SandboxedPreview`
- I/O: `fetch`, `fs.readFileSync` and `fs.writeFileSync`, `console.log` and the error message texts.
  - A failed fetch is an error value.
  - The script's output is the list of modules, not its JSON text.
  - Storage holds parsed JSON values (or "unparseable") instead of text.
- `decodeHtmlEntities` and `JSON.parse` are parameters, because they rely on the browser and a full JSON parser.
- Puzzle.Shuffle: the draws are a parameter. Only the permutation is proved; the uniformity of the shuffle is not.
- Puzzle.PuzzleBoard.Move: the callers only pass a `from` inside the board, and the model requires this. `splice` with an out-of-range `from` is not modelled.
- Lessons of kind "blockly" and the Blockly page are not part of this model.
- React effect scheduling and batching: every handler is one atomic state change.

## Findings

| source | as written | input that shows it | evidently intended | confidence | as-written member | corrected member |
|---|---|---|---|---|---|---|
| src/theme/theme.ts:7 | `FLAG_PALETTES[raw]` truthiness decides whether a key names a palette, so names inherited from `Object.prototype` pass | the stored key "constructor" is returned as the palette key, though no palette has that name | accept only keys that are own entries of the palette table, and fall back to "trans" otherwise | not executed | Theme.InheritedNameAccepted | Theme.PaletteKey |
| src/theme/theme.ts:11 | `setThemePaletteKey` uses the same truthiness test before writing | the key "constructor" is written to storage, though no palette has that name | write only keys that are own entries of the palette table | not executed | Theme.ConstructorGetsStored | Theme.ThemeStore.SetPaletteKey |
| src/components/PuzzleBoard.tsx:78-85 | the reset effect depends on `[lesson.title]` only, and the page renders the board without a `key` | moving between two exercises titled "Exercice" with fragments `["a"]` and `["b"]` keeps the tile "a" on the board of the second | reset the board whenever the lesson changes (for instance by keying it by exercise id) | not executed | Puzzle.SameTitleKeepsStaleTiles | Puzzle.PuzzleBoard.ChangeLesson |
