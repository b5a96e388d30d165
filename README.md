# Chosen data layer in Dafny

This project models the data layer of the Chosen jQuery plugin (`chosen.js`)
and proves properties of it. The plugin replaces a `<select>` element with a
searchable drop-down.

A `<select>` is modelled as a list of options. Each option has a label, a
value, `selected` and `disabled` flags, its optgroup and the `new` class.
The rendered search list is modelled as search items (each with an
`option-index` and a `collapsed` class) and group items (each with a
`children-indexes` list and the `group-collapsed` and `group-completed`
classes). Events the plugin triggers are appended to a log.

What is modelled:

- The methods of `Chosen.prototype`:
  - `init`, `reset` and `backup`;
  - `isSelectionLimitReached`, `isHiddenOptionRequired`, `getActiveOptions` and `isNewOption`;
  - `selectItem`, `deselectItem`, `addItem` and `removeItem`;
  - `resetNewItems`, `saveNewItems` and `search`.
- The constructor.
- `utils.moveListSelection`, `utils.textCompare` and `utils.format`.
- From the search list, the decision logic of:
  - `composeListItems` and group completeness;
  - the `toggle-group`, `reset-filter` and `filter` handlers.
- The browser's native select rules (HTML Living Standard, section 4.10.7
  "The select element"). Without `multiple`, selecting one option deselects
  the others. Whenever an option is inserted or removed, or loses its
  selectedness, the "selectedness setting algorithm" runs: when no option
  is selected, the first enabled one is selected, and when several are
  selected, only the last one stays. An option's `text` getter strips and
  collapses whitespace.

How the modules fit together:

- `Instance`, `Lifecycle` and `SearchList` describe each public operation
  as a pure function from an instance state to the new state and the result
  (`Step(out, after)`). The properties are lemmas about these functions.
- `ChosenModel.Chosen` is a class whose fields are that state. Its methods
  perform the operations step by step, with loops where the source loops.
  Each method is proved to leave exactly the state its function describes,
  so every lemma about the functions holds of the object.
- `OptionStore` holds the option list and the native selection rules.
- `Groups` holds the search list's bookkeeping.
- `Matching` holds the keyword matcher and the rules of the remote search.
- `ListNavigator` holds `moveListSelection`, which works in place on an
  array of highlight flags.
- `Text` holds case folding, splitting and prefix/substring facts.
- `Format` holds the template engine.
- `Wrappers` holds `Option`, `Result` and `Outcome`.

## Where the model follows the code rather than the documented behaviour

- The duplicate-label check of `addItem` ignores case, because it goes
  through `utils.textCompare` (chosen.js:359-361, 2069-2072). It is not
  case-sensitive.
- The label of an option `addItem` creates is what the option's `text`
  getter reads back (HTML Living Standard, section 4.10.10 "The option
  element"): ASCII whitespace is stripped from both ends and every inner
  run becomes one space. The duplicate check compares the configured text
  as given with those labels (chosen.js:359-361, 407), so " x" can be added
  twice, while "a b" is refused once "a  b" is an option. The value
  defaults to the configured text as given. The options a select starts
  with are taken with the labels the caller supplies.
- `deselectItem` triggers its events even when the option was not selected
  (chosen.js:377-383).
- `requestsCache` is created once, in the closure around `search`
  (chosen.js:516-518). It is therefore shared by every instance on the page,
  not kept per instance. The model passes it to `Search` as a separate
  `RequestCache` object.
- The hidden empty option is always prepended when `isHiddenOptionRequired`
  holds (chosen.js:175-182), even when the select already starts with an
  empty option.
- `removeItem` lowers every remaining entry of the group item's
  `children-indexes`, not only the entries after the removed one
  (chosen.js:471-474). The model keeps this. `DropChildLowersAll` and
  `RemoveInGroupThrowsLater` show what follows from it.
- A missing option makes `selectItem` and `deselectItem` throw a TypeError
  (they set a property on `undefined`).
- A new record that comes twice in one remote response makes `search`
  throw when its label reads back unchanged (it has no leading, trailing or
  doubled whitespace): the second copy is refused as a duplicate label. A
  record whose label the option's `text` getter shortens is accepted twice
  (`Instance.AddShortenedTwice`).

## Model

| member | source | states |
|---|---|---|
| Text.Lower | chosen.js:2071 | `toLowerCase` keeps the length and folds each character on its own |
| Text.TextCompareIff | chosen.js:2069-2079 | `textCompare` holds exactly when both labels have the same length and agree character by character after folding |
| Text.TextCompareFolded | chosen.js:2071 | folding is idempotent, and a label compares equal to its folded form |
| Text.OccursIff | chosen.js:557-563 | an unanchored regex test of a literal succeeds exactly when the literal occurs at some position |
| Text.Split | chosen.js:568 | `split(' ')` gives at least one piece, and no piece contains the separator |
| Text.SplitJoin | chosen.js:568 | joining the pieces of `split(' ')` with the separator gives back the label |
| Text.SplitPrefixIff | chosen.js:566-572 | some piece of `split(' ')` starts with `p` exactly when `p` has no space and the label continues with `p` at its start or right after some space |
| Text.LowerSplit | chosen.js:559-568 | splitting a folded label gives the folded pieces of the label |
| Text.StripCollapseShape | chosen.js:407 | the label an option reads back is collapsed and keeps every character of the configured text that is not ASCII whitespace, in order |
| Text.CollapsedShape | chosen.js:407 | a collapsed label has no whitespace other than spaces, never two spaces in a row, and no whitespace at either end |
| Text.StripCollapseFixes | chosen.js:407 | a collapsed text reads back unchanged, so reading a label back twice gives what reading it once does |
| Text.StripPadding | chosen.js:407 | " x" reads back as "x" |
| Text.StripDoubleSpace | chosen.js:407 | "a  b" reads back as "a b" |
| Format.ParsePath | chosen.js:1925-1940 | the `while` loop that shifts off path parts returns the value at the dotted path in the data, or else the value at that path in the defaults, or else the empty string |
| Format.Placeholder | chosen.js:1950 | a recognised placeholder has a key that the pattern `(\w+[:-]?\w*\.?)+` accepts and spans exactly `{key}` |
| Format.FormatLiteral | chosen.js:1950-1954 | text without `{` is copied unchanged in front of the rest |
| Format.FormatPlaceholder | chosen.js:1950-1952 | `{key}` with a valid key becomes the value at that path, and scanning resumes after the `}` |
| Format.FormatNotAKey | chosen.js:1950 | braces around an invalid key are copied, starting with the `{` |
| ListNavigator.ParsePolicy | chosen.js:1977-1980 | an absent or empty `onListEnd` means `stop`; `rerun` and `clear` select their policy; any other name, and only such a name, is the error `Unknown option` carrying that name |
| ListNavigator.FirstFrom | chosen.js:1991 | the first available index at or after `k`, or none when there is none |
| ListNavigator.LastBefore | chosen.js:1991 | the last available index before `k`, or none when there is none |
| ListNavigator.Target | chosen.js:1990-2012 | the item that gets the highlight is available |
| ListNavigator.MoveListSelection | chosen.js:1976-2026 | it fails exactly when the policy is unknown, and then changes no flag; otherwise it reports `Target` and `MovedFrom`, and afterwards exactly `movedTo` is highlighted |
| ListNavigator.ClearAll | chosen.js:2014 | every listed item loses its highlight, and the others keep theirs |
| ListNavigator.ForwardMove | chosen.js:1990-2004 | moving forward with an item highlighted goes to the nearest available item after the first highlighted one; past the end, `stop` goes to the last available item, `rerun` to the first and `clear` to none |
| ListNavigator.BackwardMove | chosen.js:1990-2004 | moving backward goes to the nearest available item before the last highlighted one; past the start, `stop` goes to the first available item, `rerun` to the last and `clear` to none |
| ListNavigator.MoveWithoutHighlight | chosen.js:1993-2004 | with nothing highlighted, forward picks the first available item; backward picks the first (`stop`), the last (`rerun`) or none (`clear`) |
| ListNavigator.WrapExample | chosen.js:1998-2008 | with the last of three items highlighted, moving forward wraps to the first (`rerun`), clears (`clear`) or stays (`stop`) |
| OptionStore.SelectedCount | chosen.js:343-344 | the count of selected options is zero exactly when none is selected, and never exceeds the length |
| OptionStore.Selection | chosen.js:351-357 | `getActiveOptions().filter(':selected')`: exactly the selected indexes from the first active one on, in increasing order |
| OptionStore.TrueIndexes | chosen.js:575 | `$.map` keeping the index when the test holds: exactly the positions holding true, in increasing order |
| OptionStore.FirstEnabled | chosen.js:2043-2045 | the first option, from the given index on, that is not disabled (by its own flag or its optgroup's) |
| OptionStore.LastSelected | chosen.js:378 | the last selected option; there is none exactly when the count is zero |
| OptionStore.Settle | chosen.js:378 | the selectedness setting algorithm changes selectedness only. With `multiple` it does nothing. Without it, at most one option stays selected and the last selected one is kept; when none was selected, exactly the first enabled one becomes selected |
| OptionStore.SetSelected | chosen.js:368-378 | `option.selected = v`: with `multiple` only that flag changes; without it, selecting leaves exactly that option selected, and at most one option is ever selected |
| OptionStore.DeselectSingle | chosen.js:377-383 | without `multiple`, deselecting the selected option leaves the first enabled option selected, or none when all are disabled; deselecting another option changes nothing, unless none was selected, when the first enabled one is |
| OptionStore.SelectDeselectMultiple | chosen.js:368-378 | with `multiple`, selecting an unselected option and then deselecting it restores the list |
| OptionStore.SetSelectedCountMultiple | chosen.js:343-378 | with `multiple`, the count rises or falls by one exactly when the flag changes |
| OptionStore.Append | chosen.js:421 | `$el.append`: one option more at the end; with `multiple` exactly appended; without it, a selected new option becomes the only one selected, and one selected option before a new unselected one stays so |
| OptionStore.Prepend | chosen.js:175-182 | `$el.prepend`: one option more at the front; with `multiple`, or with one option already selected and the new one unselected, exactly prepended |
| OptionStore.CountShift | chosen.js:175-182 | an unselected option in front does not change the count |
| OptionStore.Remove | chosen.js:451 | `option.remove()`: one option fewer; with `multiple` exactly the option at `i` is gone, and without it at most one option stays selected |
| OptionStore.KeepFirst | chosen.js:281-284 | an option stays selected exactly when it was and fewer than `m` selected options come before it; nothing else changes |
| OptionStore.KeepFirstCount | chosen.js:281-284 | the trim keeps `m` selected options, or all of them when there are fewer |
| OptionStore.AssignSelected | chosen.js:316-321 | `.prop('selected', fn)`: with `multiple`, option `k` takes `values[k]` and options past the end keep their flag; without it, at most one option stays selected |
| OptionStore.AssignDisabled | chosen.js:316-321 | `.prop('disabled', fn)`: option `k` takes `values[k]` as its own disabled flag, and nothing else changes |
| Groups.ComposeItems | chosen.js:1256-1265 | one uncollapsed item per listed option (active and, with `excludeDisabled`, enabled), for each such option and no other, in increasing order |
| Groups.Members | chosen.js:1485 | `children-indexes` of a new group item: exactly the indexes of the optgroup's options |
| Groups.ComposeGroups | chosen.js:1276-1285 | the group items are exactly one per optgroup of `GroupOrigins`, in that order, each listing that optgroup's options and starting uncollapsed and uncompleted; each has a search item among its options |
| Groups.GroupOrigins | chosen.js:1276-1285 | the optgroups that get a group item are still in the document and have a search item among their options, and they come in strictly increasing order, so each comes once |
| Groups.GroupOriginsComplete | chosen.js:1276-1285 | every optgroup still in the document with a search item among its options is one of them |
| Groups.ComposeGroupsComplete | chosen.js:1276-1285 | every such optgroup has its group item, at the position of its rank among them |
| Groups.Shifted | chosen.js:440-444 | every item's option index lowered by one |
| Groups.ReindexAbsent | chosen.js:440-444 | when no item stands for the removed option, nothing is re-indexed |
| Groups.ReindexAt | chosen.js:440-444 | the items before the removed option's item stay, that item goes, and every later item's index drops by one |
| Groups.ShiftedItems | chosen.js:440-444 | after re-indexing, the items stand for the options below the removed index as before, and for each option above it one position lower |
| Groups.RemoveKeepsItemsInSync | chosen.js:440-444 | for a listed option, re-indexing the composed items gives exactly the items composed from the shortened option list |
| Groups.RemoveUnlistedLeavesStaleIndex | chosen.js:440-444 | removing a disabled option that has no item (with `excludeDisabled`) re-indexes nothing, so the next item keeps an index one too high |
| Groups.IndexOf | chosen.js:472 | `$.inArray`: the first position of the value, or -1 exactly when it is absent |
| Groups.SpliceOne | chosen.js:447 | `splice(at, 1)` for positions inside, past the end and counted from the end |
| Groups.Decremented | chosen.js:473 | every entry lowered by one |
| Groups.DropChild | chosen.js:470-474 | the removed index is spliced out and every remaining entry is lowered by one, including those below it; without the index, `splice(-1, 1)` drops the last entry |
| Groups.DropChildLowersAll | chosen.js:471-474 | removing option 4 from a group of 3, 4 and 5 leaves 2 and 4 |
| Groups.GroupsWith | chosen.js:798-810 | exactly the group items whose `children-indexes` contain the index, in order |
| Groups.WithoutGroupsOf | chosen.js:465 | exactly the group items that do not claim the index are kept |
| Groups.SetChildrenOf | chosen.js:475 | the groups that claim the index get the new list, and the others are unchanged |
| Groups.GroupOptions | chosen.js:1304 | exactly the options of the group that have a search item |
| Groups.SelectedAmong | chosen.js:1305 | the count equals the number of options exactly when every one of them is selected |
| Groups.GroupCompletedIff | chosen.js:1303-1306 | a group is completed exactly when every one of its options that has a search item is selected |
| Groups.RefreshCompletion | chosen.js:1303-1306 | groups that do not claim the option are unchanged; those that do get `group-completed` exactly when every listed option of the first such group is selected |
| Groups.EqIndex | chosen.js:1365 | `groups.eq(i)`: a position inside the list, or counted from the end when negative, or none |
| Groups.CollapseItems | chosen.js:1370 | the items of the given options get `collapsed` = `v`, and the others are unchanged |
| Instance.Select | chosen.js:363-374 | at the limit: false with exactly `max-selected` and no flag changed. For a missing option: TypeError with nothing changed. Otherwise the option is selected, and changes only as the select's rule demands; then `option-selected` and `change` report the new active selection |
| Instance.SelectKeeps | chosen.js:363-374 | a selection changes only selectedness and extends the events |
| Instance.SelectSingleIgnoresLimit | chosen.js:343-345 | without `multiple` the limit plays no part |
| Instance.SelectKeepsLimit | chosen.js:343-374 | with `multiple` and a numeric limit, a selection never takes the count past the limit |
| Instance.Deselect | chosen.js:377-385 | a missing option throws TypeError with nothing changed. Otherwise: with `multiple` exactly that flag is cleared, then `option-deselected` and `change`; with the single drop-down's handler (chosen.js:1527, 1548), exactly option 0 ends up selected and the log is `option-deselected`, the handler's `option-selected` and `change` for option 0, then `change`; in autocomplete mode (no handler) the options are those of the `selected` setter and the log is `option-deselected`, `change` |
| Instance.DeselectAutocomplete | chosen.js:377-385 | in autocomplete mode, deselecting the selected option (or any, when none was selected) leaves the first enabled option selected, and deselecting another changes no flag |
| Instance.SelectThenDeselect | chosen.js:363-385 | with `multiple` below the limit, selecting an unselected option and then deselecting it restores the options |
| Instance.NewOption | chosen.js:405-416 | the created option: its label is the configured text as the option's `text` getter reads it back, its value defaults to the configured text as given, its flags are the configured ones, it is outside any optgroup, and it carries `new` exactly when not saved |
| Instance.Add | chosen.js:394-432 | `addItem` fails with the empty-label error exactly for an empty label, and with the duplicate error exactly for a label an active option has in any case; a failure changes nothing, and a success leaves `Created` |
| Instance.Created | chosen.js:405-431 | one option more, its search item at the end, its flags backed up exactly when saved, optgroups and groups unchanged, and `option-created` as the next event; the selection step that follows is stated by the three lemmas below |
| Instance.CreatedUnselected | chosen.js:427-429 | when the appended option is not selected and `selectCreated` is off, nothing happens after the append |
| Instance.CreatedAtLimit | chosen.js:427-429 | when the selection is asked for at the limit, the options stay as appended and `max-selected` is the next event |
| Instance.CreatedSelects | chosen.js:427-429 | when the option is selected once appended (configured so, or picked by the select's rule) or `selectCreated` is on, below the limit, the new option ends up selected (the only one without `multiple`, the others untouched with it), announced by `option-selected` and `change` |
| Instance.CreatedOption | chosen.js:405-431 | the options are the old ones plus the configured option (selectedness aside), and without `multiple` at most one stays selected |
| Instance.AppendedSelected | chosen.js:405-427 | a new option configured as selected is still selected once appended, so `CreatedSelects` applies to it |
| Instance.Appended | chosen.js:405-425 | before the selection step: exactly the new option appended, its item added, its backup entries added when saved and `option-created` logged; nothing else changes |
| Instance.Backup | chosen.js:498-508 | the backups take the given options' flags in order, appended with `update` and replacing the old ones otherwise; nothing else changes |
| Instance.AddTwiceRefused | chosen.js:399-404 | once a label is added, a text equal up to case to the label as read back is refused as a duplicate |
| Instance.AddShortenedTwice | chosen.js:359-361 | a text that reads back shorter than it is can be added again, because the check compares the text as given with the labels as read back |
| Instance.AddPaddedTwice | chosen.js:359-361 | " x", which reads back as "x", can be added twice |
| Instance.AddAfterDoubleSpaceRefused | chosen.js:359-361 | after "a  b" is added, "a b" is refused as a duplicate |
| Instance.Remove | chosen.js:434-479 | a missing index is a ReferenceError and changes nothing. Otherwise the option is removed, the items re-indexed, both backups spliced at the index and `option-removed` logged. It throws a TypeError exactly when the option was in an optgroup whose remaining options keep a group item and no group item claims the index. `RemoveUpdatesGroups` states the group items and optgroups after a success |
| Instance.RemoveUpdatesGroups | chosen.js:457-476 | on success: outside every optgroup, group items and optgroups stay; in an optgroup whose remaining options are all disabled with `excludeDisabled`, the group items claiming the index go and the optgroup leaves the document exactly when no option is left in it; otherwise the first claiming group item loses the entry with every other entry lowered by one, and the optgroups stay |
| Instance.RemoveKeepsSearchList | chosen.js:440-444 | with composed items and a listed option, the items after removal are those composed from the remaining options |
| Instance.DropMiddleOfGroup | chosen.js:469-475 | removing the middle of three options in a group leaves `children-indexes` -1 and 1 |
| Instance.RemoveMiddleOfGroup | chosen.js:434-479 | that removal succeeds and leaves the other two options and the group item [-1, 1] |
| Instance.RemoveInGroupThrowsLater | chosen.js:456-475 | after that, removing option 0 removes it and then throws a TypeError |
| Instance.ValidSelect | chosen.js:363-374 | `selectItem` keeps the instance invariant: backups of equal length, optgroups present, and at most one option selected without `multiple` |
| Instance.ValidDeselect | chosen.js:377-385 | `deselectItem` keeps the instance invariant |
| Instance.ValidAdd | chosen.js:394-432 | `addItem` keeps the instance invariant |
| Instance.ValidCreated | chosen.js:405-431 | the accepted branch of `addItem` keeps the instance invariant |
| Instance.ValidRemove | chosen.js:434-479 | `removeItem` keeps the instance invariant |
| Instance.RemoveGroups | chosen.js:461-466 | an optgroup leaves the document only once no option refers to it |
| Lifecycle.NewIndexes | chosen.js:483 | exactly the indexes of the select's own children with class `new`, in increasing order |
| Lifecycle.Reversed | chosen.js:483 | `.reverse()` |
| Lifecycle.RemoveAllTransient | chosen.js:481-488 | removing the transient options, highest index first, always succeeds and leaves the optgroups and group items alone |
| Lifecycle.RemoveUngrouped | chosen.js:434-479 | removing an option outside every optgroup succeeds and touches neither optgroups nor group items |
| Lifecycle.WithoutTransientIsKept | chosen.js:481-488 | removing the transient indexes highest first leaves exactly the other options |
| Lifecycle.ResetNewKeepsOthers | chosen.js:481-488 | `resetNewItems` succeeds and leaves exactly the options that are not transient (selectedness aside without `multiple`), so none remains |
| Lifecycle.ResetNewNothing | chosen.js:481-488 | without transient options nothing changes |
| Lifecycle.SaveThenResetNew | chosen.js:490-496 | after `saveNewItems`, `resetNewItems` removes nothing, and the saved options' flags sit at the end of the backup |
| Lifecycle.TrimKeepsFirst | chosen.js:278-285 | with `multiple` and a numeric limit, an option stays selected exactly when it was and fewer than the limit come before it; the count is clipped to the limit |
| Lifecycle.TrimKeepsDisabled | chosen.js:281-284 | the trim changes only selectedness, and nothing without a numeric limit |
| Lifecycle.Announced | chosen.js:289-292 | `option-selected` then `change` for each index, with the selection |
| Lifecycle.InitSelect | chosen.js:288-293 | the bulk pass changes only selectedness and events, and without `multiple` keeps at most one selected |
| Lifecycle.SelectSelected | chosen.js:288-293 | re-selecting a selected option with the limit lifted changes no flag and only triggers the two events |
| Lifecycle.InitSelectAnnounces | chosen.js:288-293 | the bulk pass leaves every flag and announces each pre-selected active option in document order with the whole pre-selection |
| Lifecycle.InitFinish | chosen.js:295-306 | the end of `init` changes only the search list and events, clears the highlight first, and with `collapseOnInit` collapses every group item |
| Lifecycle.Init | chosen.js:277-310 | `init` keeps the optgroups and the backup and changes only selectedness |
| Lifecycle.InitOptions | chosen.js:277-294 | the options after `init` are exactly the trimmed ones |
| Lifecycle.InitAnnounces | chosen.js:277-296 | `init`'s events start with each kept pre-selection announced, then `clear-highlight` |
| Lifecycle.Restored | chosen.js:316-329 | only the flags change: `disabled` comes from the backup (cleared with `hard`), and with `multiple` so does `selected` |
| Lifecycle.Assigned | chosen.js:316-321 | only the flags change, each copied from its list where the list reaches |
| Lifecycle.ResetDropsTransient | chosen.js:312-338 | `reset` leaves no transient option: exactly as many options as were kept, each equal to its kept option but for `selected` and `disabled`, with the optgroups unchanged |
| Lifecycle.ResetRestores | chosen.js:312-338 | with every option saved, `reset` leaves the restored flags trimmed by `init`, keeps optgroups and backup, and ends with `reseted` unless silent |
| Lifecycle.ResetRestoresFlags | chosen.js:312-329 | `reset` brings back every disabled flag from the backup (or clears it with `hard`), and with `multiple` and no limit every selected flag too |
| Lifecycle.Sentinel | chosen.js:176-181 | the hidden option is unselected, enabled, outside any optgroup, not `new`, and has an empty value; its label is collapsed and empty in autocomplete mode |
| Lifecycle.Prepared | chosen.js:175-182 | the constructor starts from one option more than it is given exactly when the hidden option is required |
| Lifecycle.CreatePrependsSentinel | chosen.js:175-182 | a single select with one selected option gets the hidden option in front of its own, unchanged otherwise |
| Lifecycle.CreateMultiple | chosen.js:175-206 | a multiple select without a limit is created with its options unchanged and their flags in the backup |
| Lifecycle.ResetAfterCreate | chosen.js:312-338 | a saved multiple select without a limit comes back from `reset` as it was created |
| Lifecycle.ResetFromOwnBackup | chosen.js:312-329 | when the backup holds the current flags, `reset` gives back the same options |
| Lifecycle.RestoredOwnFlags | chosen.js:316-321 | restoring a list's own flags changes nothing |
| Matching.MatchWords | chosen.js:567-572 | the word loop with `break`: true exactly when some word matches at its start |
| Matching.MatchText | chosen.js:564-573 | the test of one label equals the matching rule for the policy |
| Matching.MatchingIndexes | chosen.js:560-576 | exactly the active indexes whose label matches, in increasing order |
| Matching.MatchOptions | chosen.js:560-576 | the `$.map` loop returns exactly `MatchingIndexes` |
| Matching.SubstringMatch | chosen.js:555-565 | with `bySubstr`, a match means the folded keyword occurs in the folded label |
| Matching.WordMatch | chosen.js:566-572 | with `splitWords`, a match means the keyword has no space and the folded label continues with it at the start or after a space |
| Matching.PrefixIsWordMatch | chosen.js:555-572 | a whole-label prefix match of a keyword without spaces is a word match |
| Matching.WordMatchIsSubstring | chosen.js:555-572 | a word match is a substring match |
| Matching.MatchIgnoresCase | chosen.js:558 | keywords equal up to case match the same labels |
| Matching.RequestOnce | chosen.js:524 | with the cache on, a requested keyword is requested again only when forced |
| Matching.FreshRecords | chosen.js:543-545 | exactly the received records that are not options, with their multiplicities, in order |
| Matching.MappedOptions | chosen.js:544 | every option mapped through the same `mapping` |
| Matching.FreshSkipsExisting | chosen.js:543-545 | a record equal to an option is never kept |
| Matching.RequestCache.Push | chosen.js:547 | the keyword is appended to the cache |
| SearchList.ToggleWith | chosen.js:1364-1372 | the loop changes only the groups, items and events, and logs one event per index |
| SearchList.ToggledUi | chosen.js:1364-1372 | a group item gets `collapsed` = `v` exactly when an index picks it, and is otherwise unchanged |
| SearchList.ToggledItems | chosen.js:1364-1372 | a search item gets `collapsed` = `v` exactly when a picked group claims its option, and is otherwise unchanged |
| SearchList.ToggleOne | chosen.js:1365-1371 | one index: only groups and items change, and `group-toggled` is logged |
| SearchList.ToggleExplicit | chosen.js:1359-1373 | with a flag, exactly the picked groups and their items change, and each index is announced |
| SearchList.ToggleDecided | chosen.js:1359-1373 | without a flag, the toggle is the one with the inverse of the first picked group's flag (true when no group stands there), applied to every index |
| SearchList.ToggleTwice | chosen.js:1366-1369 | toggling one group twice without a flag restores every group item |
| SearchList.CollapseAll | chosen.js:298-304 | the `collapseOnInit` request collapses every group item |
| SearchList.AddRecords | chosen.js:548 | after the records added so far: the options plus those records (selectedness aside), optgroups and groups kept, and at most one selected without `multiple` |
| SearchList.AddRecordsStops | chosen.js:548 | after a failure no later record is added |
| SearchList.AddRecordsAdvance | chosen.js:548 | one more record is `addItem` on the state so far, and its failure is the batch's outcome |
| SearchList.Search | chosen.js:516-578 | without a request, only the matches and nothing else changes. With a response, the keyword is cached and the fresh records are appended. A success returns the matches over the options afterwards |
| SearchList.SearchUsesCache | chosen.js:518-547 | after a request with the cache on, the next unforced search of that keyword changes nothing |
| SearchList.SearchRefusesRepeatedRecord | chosen.js:543-548 | a new record whose label reads back unchanged, received twice, makes `search` throw the duplicate error |
| SearchList.AddTwice | chosen.js:548 | adding the same record twice is refused as a duplicate when its label reads back unchanged |
| SearchList.Unselected | chosen.js:1399-1401 | `ignoreSelected`: exactly the found indexes of unselected options |
| SearchList.MatchCount | chosen.js:1402 | the number of matching items; zero exactly when none stands for a found index |
| SearchList.Completion | chosen.js:1409-1419 | a group is completed exactly when it claims no matching item of an unselected option |
| SearchList.FilterFoundShows | chosen.js:1398-1435 | an item lacks `no-match` exactly when its option is shown; a group is completed exactly when all its shown items are selected; the no-results message shows exactly when nothing is shown, it is enabled, and the creator is not visible |
| SearchList.FilterFoundCreator | chosen.js:1421-1437 | with creation on, the creator is cleared when an active label equals the keyword up to case and rendered otherwise; `filtered` reports the count |
| SearchList.FilterShowsMatches | chosen.js:1386-1407 | for a non-empty keyword whose search succeeds, the view marks the options shown over the options after the search |
| SearchList.FilterEmptyResets | chosen.js:1393-1396 | the empty keyword clears every mark and completion, hides the message and runs no search |
| ChosenModel.SelectedByFlags | chosen.js:316-321 | the `.prop` loop over the options yields `AssignSelected` |
| ChosenModel.Chosen.constructor | chosen.js:160-206 | the new object's state is `Create` |
| ChosenModel.Chosen.SelectItem | chosen.js:363-374 | it leaves exactly the state and result of `Instance.Select` |
| ChosenModel.Chosen.DeselectItem | chosen.js:377-385 | it leaves exactly the state and result of `Instance.Deselect` |
| ChosenModel.Chosen.AddItem | chosen.js:394-432 | it leaves exactly the state and result of `Instance.Add` |
| ChosenModel.Chosen.RemoveItem | chosen.js:434-479 | it leaves exactly the state and result of `Instance.Remove` |
| ChosenModel.Chosen.ResetNewItems | chosen.js:481-488 | the loop leaves exactly `ResetNew` |
| ChosenModel.Chosen.SaveNewItems | chosen.js:490-496 | it leaves exactly `SaveNew` |
| ChosenModel.Chosen.Backup | chosen.js:498-508 | it leaves exactly `Instance.Backup` |
| ChosenModel.Chosen.ComposeList | chosen.js:1252-1286 | it leaves exactly `Compose` |
| ChosenModel.Chosen.Init | chosen.js:277-310 | it leaves exactly `Lifecycle.Init`, with the limit restored |
| ChosenModel.Chosen.SelectActive | chosen.js:288-293 | the bulk loop leaves exactly `InitSelect` |
| ChosenModel.Chosen.FinishInit | chosen.js:295-307 | it leaves exactly `InitFinish` |
| ChosenModel.Chosen.ToggleGroup | chosen.js:1359-1373 | the loop leaves exactly `ToggleGroups` |
| ChosenModel.Chosen.RestoreFlags | chosen.js:316-329 | the options take `Restored`, and nothing else changes |
| ChosenModel.Chosen.Reset | chosen.js:312-338 | it leaves exactly `Lifecycle.Reset` |
| ChosenModel.Chosen.AddReceived | chosen.js:548 | the loop leaves exactly `AddRecords` over all records |
| ChosenModel.Chosen.Search | chosen.js:516-578 | it leaves exactly `SearchList.Search`, with the shared cache |
| ChosenModel.Chosen.Filter | chosen.js:1386-1442 | it leaves exactly `SearchList.Filter` |

## Left out

- Rendering is not modelled: the DOM, templates, CSS classes other than the flags above, the choice list, the drop-down and the search field. The `reset` steps that clear the search field and the choice list are therefore not modelled.
- Timers and deferred callbacks (debounce, blur watchers, deferred close) are asynchronous scheduling and are not modelled.
- The ajax transport is not modelled. The server's answer is a parameter of `Search`, and a failed request is `None`. A custom `mapping` is not modelled: records carry the default `text` and `value`, and `$.param`-based deduplication becomes record equality.
- The `bind`/`trigger` dispatcher is not modelled; events are a log. Of the handlers bound to those events, four are applied to the state: the single drop-down's deselect handler, the toggle request of `init`, the compose-items handler that `reset` triggers (chosen.js:333, in `Lifecycle.Reset`) and the reset-filter handler that the filter triggers for an empty keyword (chosen.js:1375-1383 and 1394, in `SearchList.Filter`). The others are listed below.
- Instance.Select: the two `option-selected` handlers are not applied. `toggleItemSelection` (chosen.js:1290-1306) sets the item's `selected` class, refreshes `group-completed` and, with `multiple`, moves the highlight; the `.sys` handler (chosen.js:201) re-runs the filter, which rewrites the `no-match` marks and logs the filter events. `Groups.RefreshCompletion` states the completion rule on its own.
- Instance.Deselect: the same two handlers of `option-deselected` are not applied.
- Instance.Created: the selection it ends with does not apply those handlers either.
- Lifecycle.InitSelect: nor do the selections made by `init`.
- SearchList.Completion: search items carry no `selected` class here, so the filter's rule reads each option's own `selected` flag. In the source the class is set when the list is composed (chosen.js:1472) and changed only by `toggleItemSelection`, so it can differ from the flag; `init`'s trim (chosen.js:283) deselects options without events, after which the source still counts a trimmed option as selected.
- SearchList.FilterFoundShows: its `group-completed` clause has the same gap as `SearchList.Completion`.
- Format.ParsePath: values are strings and objects with own fields only. Not modelled: string properties and index access (`{0.length}`, `{0.0}`); numbers, booleans, `null` and `undefined` met along a path (a step on `null` throws a TypeError); arrays, which render joined with commas; and inherited properties.
- Matching.Matches: the keyword is a literal. The source's escaper leaves `{` and `}` unescaped, so a keyword with a quantifier-shaped brace group would be read as a regex; the model does not capture that.
- Text.Lower: case folding covers ASCII letters only, while JavaScript folds all of Unicode.
- `forceHighlight` and `resetAfterClose` are not modelled. They only move the highlight, which `ListNavigator` covers.
- `beforeInit`, `smartSerialize`, `generateRandomId`, `getTextWidth`, `htmlHelper`, `log` and browser sniffing are not modelled. They run user code, use library calls that cannot be seen, or depend on randomness or the console.
- The `format` return shape with one argument (a curried function) is not modelled.
- Lifecycle.ResetRestoresFlags: selected flags are proved to come back exactly only with `multiple` and no limit. Without `multiple` the browser's selection rule applies to each assignment, and with a limit `init` trims afterwards.
- Instance.Remove: the backup arrays are spliced at the option's index, while `backup` in `addItem` with `save` appends. An unsaved option therefore misaligns the backup after it. The model keeps that behaviour and does not prove alignment.
- `moveListSelection` takes the available items as a flag list computed by the caller. `:visible`, `:disabled` and the caller's filter are not modelled.
