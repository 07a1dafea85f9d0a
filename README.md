# bibrarian search core in Dafny

bibrarian is a terminal program that searches several bibliographies at once: local BibTeX
files matched by a glob, one of which may be the read-write output file, and the DBLP web
service. Every source is a *repo* with a loading thread and a searching thread. A search bar
hands each change of the query text to every repo under a fresh serial number. Each repo
filters its entries and passes the hits to a result panel, and the panel keeps only the
results of the newest serial. The user toggles entries into a selection, keyed by
`source::bibkey`. On exit the output repo merges its own entries with the selected ones and
writes them back. Meta keys enable and disable repos.

The model covers two snapshots of the program:

- `source/main.py`, the current one, is modelled in `bibrarian.dfy` (module `Bibrarian`).
- `Bibrarian.py`, the older one, is modelled in `legacy.dfy` (module `LegacyBibrarian`).

Both share these modules:

| module | file | what it holds |
|---|---|---|
| `Text` | `text.dfy` | the Python string operations the core uses, written out (see below) |
| `Dicts` | `dicts.dfy` | Python's insertion-ordered `dict` |
| `Records` | `records.dfy` | what an entry exposes, `unique_key`, `abbrev_authors`, and the names the status, access and mark setters accept |
| `Loading` | `loading.dfy` | the rows a local load produces |
| `Matching` | `matching.dfy` | `Match` and the local and DBLP search generators |
| `WriteBack` | `writeback.dfy` | the merge that `Write` performs |
| `KeyInput` | `keyinput.dfy` | the repo-masking key decisions |

The Python string operations in `Text` are: `str.isspace`, ASCII `upper`, substring `in`,
`split()`, `strip()`, `join`, and `split(',')`. `Match`, the local filter and the write-back
merge are the same code in both snapshots; `Bibrarian.py` lines 91-107, 562-570 and 586-601
hold the older copies.

How the program's parts are modelled:

- **Threads.** Each thread is a set of step methods on its repo, and a field records where the
  thread is. For the loader this is `Loader`; for the searcher it is `Searcher`, which in a pass
  holds the captured serial, the hits, and how many have been delivered. Calling the steps in
  any order stands in for any interleaving. The `loading_done` and `searching_done` events
  become the boolean fields `loadingDone` and `pending`. Locks are dropped.
- **Repos.** `BibRepo.Valid()` ties the status name to where the threads are. Each repo's
  fields fall into four groups, each with its own view function: `Protocol()` (status and thread
  positions), `Requests()` (serial, text, pending), `Found()` (matched files and loaded entries)
  and `Wiring()` (the enabled flag, access, the output fields, the panels or sinks). Every step
  states which groups it leaves unchanged, so steps can be chained in client methods.
- **Inputs.** What the glob matched, what pybtex parsed and what DBLP answered are parameters.

## Model

| member | source | states |
|---|---|---|
| Text.Upper | source/main.py:114-121 | `str.upper` on ASCII: same length, each letter a-z raised, every other character kept |
| Text.UpperIdempotent | source/main.py:114-121 | upper-casing twice is upper-casing once |
| Text.DropSpace | source/main.py:675-677 | `strip`'s left half: keeps a suffix that is empty or starts with a non-space |
| Text.DropsOnlySpace | source/main.py:675-677 | what `strip`'s left half drops is all whitespace |
| Text.DropSpaceRight | source/main.py:675-677 | `strip`'s right half: keeps a prefix that is empty or ends with a non-space |
| Text.DropsOnlyTrailingSpace | source/main.py:675-677 | what `strip`'s right half drops is all whitespace |
| Text.Word | source/main.py:680 | the first token of `split()`: the longest whitespace-free prefix |
| Text.SplitTokens | source/main.py:680 | `split()` yields only non-empty tokens free of whitespace |
| Text.BlankIffStripEmpty | source/main.py:675-677 | the character-by-character whitespace test is exactly `not text.strip()`, and exactly `split()` finding no keyword |
| Text.StripEmptyIffNoTokens | source/main.py:675-680 | text strips to empty exactly when it is all whitespace, exactly when `split()` yields no keyword |
| Text.SplitJoinSpace | source/main.py:680 | splitting space-joined tokens gives back the tokens |
| Text.SplitOn | source/main.py:831-832 | the reader's side of the comma join (`split(',')`): always at least one part |
| Text.IndexOf | source/main.py:973 | the first position of a character, with no earlier occurrence |
| Text.SplitOnJoin | source/main.py:831-832 | splitting a comma-joined non-empty list of comma-free parts gives the parts back |
| Text.JoinEmptyCollides | source/main.py:831-832 | an empty selection and a selection of one empty key write the same text |
| Dicts.Empty | source/main.py:801 | `{}`: no keys, no order |
| Dicts.Put | source/main.py:810-811 | `d[k] = v`: the map updated, a new key appended to the order, an old key kept in place |
| Dicts.Delete | source/main.py:807-808 | `del d[k]`: the key leaves the map and the order, the rest stays in order |
| Dicts.Values | source/main.py:821 | `values()`: the values in insertion order |
| Dicts.Remove | source/main.py:807-808 | removing a key from the order keeps exactly the other keys |
| Dicts.RemoveKeepsDistinct | source/main.py:807-808 | the order stays free of duplicates after a removal |
| Dicts.RemoveAbsent | source/main.py:807-808 | removing an absent key changes nothing |
| Dicts.RemoveLast | source/main.py:807-811 | removing the key just appended restores the order |
| Dicts.DeleteAfterInsert | source/main.py:805-811 | inserting a new key and deleting it again gives back the same dict, order included |
| Dicts.InsertAfterDelete | source/main.py:805-811 | deleting a key and inserting it again moves it to the end with its new value |
| Records.UniqueKeyCarriesSeparator | source/main.py:150-152 | every unique key has "::" right after the source |
| Records.BibKeyIsNoUniqueKey | source/main.py:601-605 | a bibkey without "::" never equals any unique key |
| Records.UniqueKeyInjective | source/main.py:150-152 | for sources without ':' the unique key determines source and bibkey |
| Records.UniqueKeyCollides | source/main.py:150-152 | without that condition two distinct entries can share a unique key |
| Records.AbbrevNamesFirstAuthor | source/main.py:93-98 | the abbreviation starts with the first author, is exactly it iff there is one author, and fails (IndexError) iff there is none |
| Records.StatusNamesRoundTrip | source/main.py:455-473 | the setter accepts exactly the five status names, each naming its own status |
| Records.LegacyStatusLacksNoFile | Bibrarian.py:368-383 | the older `UpdateStatus` accepts the same names except "no file" |
| Records.AccessNamesRoundTrip | source/main.py:528-537 | the access setter accepts exactly "ro" and "rw" |
| Loading.FileRows | source/main.py:664-665 | one row per parsed record of a file, in the file's order, tagged with the file |
| Loading.RowsComeFromFiles | source/main.py:659-668 | every loaded entry comes from a file the glob matched |
| Matching.Match | source/main.py:110-126 | true iff some keyword has 3 or more characters and every such keyword occurs, ignoring case, in the title or in some author; false for a trivial query |
| Matching.KeywordHitIgnoresCase | source/main.py:114-121 | a keyword hit does not depend on the case of keyword, title or authors |
| Matching.MatchesIgnoresCase | source/main.py:110-126 | the match does not depend on the case of title, authors or keywords |
| Matching.UpperAll | source/main.py:119-120 | every author upper-cased, in order |
| Matching.SelectAppend | source/main.py:680-682 | filtering distributes over concatenation |
| Matching.SelectMembers | source/main.py:680-682 | an element survives the filter iff it was there and is accepted |
| Matching.SelectKeepsOrder | source/main.py:680-682 | the filter keeps the survivors in their original order |
| Matching.FilterExactly | source/main.py:674-682 | text with no keyword yields nothing; otherwise exactly the entries that match the split text, in their order |
| Matching.SearchEntries | source/main.py:674-682 | the generator run to the end yields exactly that filter |
| Matching.RemoteResultsCases | source/main.py:719-732 | text with no keyword yields no hits whatever the response; otherwise the hits the response lists, in order, or none when it lists none |
| WriteBack.PutAll | source/main.py:701-702 | inserting pairs one by one yields the old map overridden by the pairs, later pairs winning |
| WriteBack.Merge | source/main.py:701-702 | the merge is the own entries' map overridden by the selected entries' map |
| WriteBack.AssocKeys | source/main.py:701-702 | a bibkey is in the map iff some entry carries it |
| WriteBack.AssocLastWins | source/main.py:701-702 | a bibkey maps to the record of the last entry carrying it |
| WriteBack.SelectedWins | source/main.py:701-702 | a selected entry overrides an own entry with the same bibkey; own-only bibkeys keep theirs |
| WriteBack.Unwrap | source/main.py:709 | with no missing record, the data written has the same keys and records |
| WriteBack.FirstNone | source/main.py:704-707 | finds a missing record iff there is one, and the first in dict order |
| KeyInput.SymbolNumber | source/main.py:973 | defined exactly on the ten shifted-digit symbols, giving the digit of each |
| KeyInput.MaskFlags | source/main.py:974-989 | the masking keeps the number of repos |
| KeyInput.Verdict | source/main.py:974-994 | true iff the key contains "meta ", nothing iff it is "enter", false otherwise |
| KeyInput.MetaPrefix | source/main.py:974-975 | "meta " followed by a symbol is a meta key whose symbol is read back |
| KeyInput.TildeEnablesAll | source/main.py:976-978 | "meta ~" enables every repo |
| KeyInput.ZeroDisablesAll | source/main.py:980-983 | "meta )" disables every repo |
| KeyInput.DigitFlipsOne | source/main.py:984-989 | the symbol of n in 1..9 flips repo n-1 when it exists, and no other repo |
| KeyInput.SecondPress | source/main.py:974-989 | a second identical press undoes a flip and changes nothing after enable-all or disable-all |
| KeyInput.OtherKeysKeepFlags | source/main.py:991-994 | a key without "meta " leaves every flag alone |
| Bibrarian.Entry.constructor | source/main.py:68-72 | a new entry has its source, record and repo, and no mark |
| Bibrarian.Entry.SetMark | source/main.py:137-148 | the mark setter stores the value and succeeds iff it is None or "selected" |
| Bibrarian.SearchResultsPanel.constructor | source/main.py:751-758 | a new panel is at serial 0 with no items |
| Bibrarian.SearchResultsPanel.SetSerial | source/main.py:764-768 | setting the serial empties the items |
| Bibrarian.SearchResultsPanel.Add | source/main.py:774-778 | appends the entry iff its serial is the current one; otherwise nothing changes |
| Bibrarian.SearchResultsPanel.View | source/main.py:780-782 | the display shows exactly the items of enabled repos, in arrival order; an item of an enabled repo appears as many times as in the input, an item of a disabled repo never |
| Bibrarian.Shown | source/main.py:782 | keeps exactly the items of enabled repos, in order |
| Bibrarian.ShownCounts | source/main.py:782 | every copy of an item from an enabled repo is kept, and no copy of one from a disabled repo |
| Bibrarian.StaleResultIgnored | source/main.py:764-778 | a result of an older search that arrives after the reset is dropped |
| Bibrarian.SelectedKeysPanel.constructor | source/main.py:799-803 | a new selection is empty and remembers the keys file |
| Bibrarian.SelectedKeysPanel.Toggle | source/main.py:805-814 | adds and marks "selected" an absent unique key, removes and unmarks a present one |
| Bibrarian.SelectedKeysPanel.Add | source/main.py:816-818 | puts the entry under its unique key |
| Bibrarian.SelectedKeysPanel.KeyList | source/main.py:827-834 | nothing without a keys file, else that file and the comma-joined bibkeys in selection order |
| Bibrarian.BibKeys | source/main.py:832 | the bibkeys of the entries, in order |
| Bibrarian.ToggleTouchesOneKey | source/main.py:805-814 | a toggle changes no other key and flips the entry's own |
| Bibrarian.ToggleTwice | source/main.py:805-814 | toggling twice restores the key set, and the whole dict when the entry was absent |
| Bibrarian.ToggleTwiceRestoresMark | source/main.py:805-814 | two toggles give back the key set, and the mark ends as the original selection says |
| Bibrarian.KeyListRoundTrip | source/main.py:831-832 | the written key list splits back into the selection's bibkeys |
| Bibrarian.SearchMarkMissesSelection | source/main.py:601-605 | the searcher's bibkey lookup in the unique-key map never finds a bibkey without "::" |
| Bibrarian.Pairs | source/main.py:701-702 | one `(bibkey, pyb_entry)` pair per entry, in order |
| Bibrarian.BibRepo.constructor | source/main.py:475-511 | a new repo keeps its glob text and its expansion, is read-only, "initialized", at serial 0, with both threads not yet started |
| Bibrarian.BibRepo.SetStatus | source/main.py:555-557 | stores the status and succeeds iff it is one of the five names; the threads, the request, the flag, the access type, the output fields and the panels are unchanged |
| Bibrarian.BibRepo.SetAccessType | source/main.py:528-537 | "ro" or "rw" is stored, anything else fails and leaves the access type as it was; every other field is unchanged |
| Bibrarian.BibRepo.Search | source/main.py:563-567 | records text and serial and leaves a request pending; status, threads, flag, access, output fields and panels unchanged |
| Bibrarian.BibRepo.StartLoading | source/main.py:569-571 | the loader moves to "loading"; the searcher, the request and the wiring are unchanged |
| Bibrarian.BibRepo.FinishRemoteLoading | source/main.py:716-717 | DBLP's load ends at "ready" with no files and no entries and latches loading_done; the searcher, the request and the wiring are unchanged |
| Bibrarian.BibRepo.FinishLocalLoading | source/main.py:646-672 | "no file" iff the glob matched nothing, else "ready" with the entries of every parsed file, in order; the searcher, the request and the wiring are unchanged |
| Bibrarian.BibRepo.BuildEntries | source/main.py:659-668 | one fresh unmarked entry per row, in file order; a file whose parse raised adds nothing |
| Bibrarian.BibRepo.FileEntries | source/main.py:667-668 | one fresh unmarked entry per parsed entry of one file, in the parser's order, tagged with that file |
| Bibrarian.BibRepo.StartSearcher | source/main.py:586-588 | after "no file" the searcher exits, otherwise it waits for requests; the loaded files and entries, the status, the request and the wiring are unchanged |
| Bibrarian.BibRepo.BeginLocalSearch | source/main.py:590-600 | captures the serial, turns "searching", and the pass holds exactly the local filter's result; entries, request and wiring unchanged |
| Bibrarian.BibRepo.BeginRemoteSearch | source/main.py:590-600 | captures the serial, turns "searching", and the pass holds one fresh DBLP entry per hit; entries, request and wiring unchanged |
| Bibrarian.BibRepo.RemoteEntries | source/main.py:731-732 | one fresh entry per hit, with source "dblp.org" |
| Bibrarian.BibRepo.Deliver | source/main.py:600-608 | the item is marked iff its bibkey is a key of the selection, and added under the captured serial; status, entries, request and wiring unchanged |
| Bibrarian.BibRepo.EndSearch | source/main.py:612-617 | back to "ready"; the request stays pending iff a newer serial arrived; serial, text, entries and wiring unchanged |
| Bibrarian.BibRepo.BecomeOutput | source/main.py:684-693 | clears the selection panel, then is refused iff the glob matched more than one file; otherwise read-write, writing to its one file or to the glob text as configured (`OutputFileOr`); nothing else changes |
| Bibrarian.OutputFileOr | source/main.py:693 | the output file is the one matched file or, when none matched, the given fallback path |
| Bibrarian.BibRepo.IntendedOutputFile | source/main.py:693 | corrected: the one matched file or, when none matched, the expanded path the loader looked for |
| Bibrarian.UnexpandedOutputFile | source/main.py:693 | an output repo whose glob matched nothing and differs from its expansion is set to write to the unexpanded glob text, not to the path it intends |
| Bibrarian.BibRepo.Write | source/main.py:695-710 | nothing without a panel; aborts iff a merged record is missing; otherwise writes the merge to the output file |
| Bibrarian.MidPassRequestStaysPending | source/main.py:563-617 | a request posted during a pass is still pending after it |
| Bibrarian.EmptyGlobNeverSearches | source/main.py:586-588 | a repo whose glob matches nothing ends at "no file" and its searcher leaves |
| Bibrarian.LoadedEntriesReachSearch | source/main.py:569-682 | after load, searcher start and a query, the pass holds exactly the loaded entries that match the query, which are the parsed files' records in order |
| Bibrarian.StaleDeliveryDropped | source/main.py:850-858 | a keystroke during a pass empties the result panel, the next hit of that pass is dropped, and the new text waits as a pending request |
| Bibrarian.NextPassServesNewerText | source/main.py:612-617 | a request posted during a local pass is served by the next pass, over the same entries and with the newer text |
| Bibrarian.SearchBar.constructor | source/main.py:837-848 | no panel, counter 0, no repos |
| Bibrarian.SearchBar.TextChangeHandler | source/main.py:850-858 | without a panel nothing happens; otherwise the panel and every repo get the current serial and the counter moves on by exactly one; every repo's status, threads and wiring are unchanged |
| Bibrarian.Flags | source/main.py:975-989 | the enabled flags of the repos, in order |
| Bibrarian.InputFilter.MaskDatabases | source/main.py:972-994 | the repos' flags become the masking of the key, the answer is the key's verdict, "enter" swaps the focus; every repo's status, threads, request and other wiring are unchanged |
| Bibrarian.InputFilter.SetAll | source/main.py:977-983 | every repo gets the same flag; its status, threads, request and other wiring are unchanged |
| LegacyBibrarian.Entry.constructor | Bibrarian.py:64-68 | a new entry has its source, record and repo, and shows the placeholder mark |
| LegacyBibrarian.Entry.Mark | Bibrarian.py:113-122 | draws an empty or ticked box for None or "selected"; anything else fails and draws nothing |
| LegacyBibrarian.Copies | Bibrarian.py:507-508 | n copies of one entry |
| LegacyBibrarian.SearchResultsPanel.constructor | Bibrarian.py:644-651 | a new panel is at serial 0 with no items |
| LegacyBibrarian.SearchResultsPanel.Clear | Bibrarian.py:653-655 | empties the items, keeps the serial |
| LegacyBibrarian.SearchResultsPanel.SetSerial | Bibrarian.py:657-660 | setting the serial empties the items |
| LegacyBibrarian.SearchResultsPanel.Add | Bibrarian.py:662-666 | appends the entry iff its serial is the current one; otherwise nothing changes |
| LegacyBibrarian.SearchResultsPanel.View | Bibrarian.py:668-670 | the display shows exactly the items of enabled repos, in arrival order; an item of an enabled repo appears as many times as in the input, an item of a disabled repo never |
| LegacyBibrarian.Shown | Bibrarian.py:670 | keeps exactly the items of enabled repos, in order |
| LegacyBibrarian.ShownCounts | Bibrarian.py:670 | every copy of an item from an enabled repo is kept, and no copy of one from a disabled repo |
| LegacyBibrarian.SelectedKeysPanel.constructor | Bibrarian.py:687-690 | a new selection is empty |
| LegacyBibrarian.SelectedKeysPanel.Toggle | Bibrarian.py:692-701 | adds and ticks an absent unique key, removes and clears a present one |
| LegacyBibrarian.SelectedKeysPanel.Add | Bibrarian.py:703-705 | puts the entry under its unique key |
| LegacyBibrarian.ToggleTwice | Bibrarian.py:692-701 | toggling twice restores the key set, and the whole dict when the entry was absent |
| LegacyBibrarian.Pairs | Bibrarian.py:592-593 | one `(bibkey, pyb_entry)` pair per entry, in order |
| LegacyBibrarian.NoTargetWarningAlwaysFires | Bibrarian.py:543-547 | with one matched file and the entry list just reset, the written test warns and the intended one does not |
| LegacyBibrarian.NoTargetWarningAsWritten | Bibrarian.py:543-546 | as written, the test warns iff the entry list is empty, whatever the glob matched |
| LegacyBibrarian.NoTargetWarning | Bibrarian.py:546-547 | warns iff the glob matched no file |
| LegacyBibrarian.BibRepo.constructor | Bibrarian.py:392-427 | a new repo is enabled, "initialized", at serial 0, with no sinks and both threads not yet started |
| LegacyBibrarian.BibRepo.SetStatus | Bibrarian.py:458-461 | stores the status and succeeds iff it is one of the four names; threads, request and wiring unchanged |
| LegacyBibrarian.BibRepo.SetEnabled | Bibrarian.py:439-444 | sets the flag; status, threads, request, sinks, panels and output file unchanged |
| LegacyBibrarian.BibRepo.ToggleEnabled | Bibrarian.py:446-447 | flips the flag; status, threads, request, sinks, panels and output file unchanged |
| LegacyBibrarian.BibRepo.Search | Bibrarian.py:449-453 | records text and serial and leaves a request pending; status, threads, flag, sinks, panels and output file unchanged |
| LegacyBibrarian.BibRepo.AttachSink | Bibrarian.py:455-456 | appends the sink to the list; nothing else changes |
| LegacyBibrarian.BibRepo.AttachPickedEntries | Bibrarian.py:528-529 | sets the panel the searcher looks marks up in; nothing else changes |
| LegacyBibrarian.BibRepo.AttachSelectedKeys | Bibrarian.py:583-584 | sets the output repo's own selection panel; nothing else changes |
| LegacyBibrarian.BibRepo.StartLoading | Bibrarian.py:471-474 | the loader moves to "loading"; the searcher, the request and the wiring are unchanged |
| LegacyBibrarian.BibRepo.FinishRemoteLoading | Bibrarian.py:607-608 | DBLP's load ends at "ready" with no entries; the searcher, the request and the wiring are unchanged |
| LegacyBibrarian.BibRepo.FinishLocalLoading | Bibrarian.py:539-560 | always "ready", with the entries of every parsed file in order; the "matches no target" warning is logged on every load, as written; the searcher, the request and the wiring are unchanged |
| LegacyBibrarian.BibRepo.BuildEntries | Bibrarian.py:549-558 | one fresh entry per row, in file order; a file whose parse raised adds nothing |
| LegacyBibrarian.BibRepo.FileEntries | Bibrarian.py:557-558 | one fresh entry per parsed entry of one file, in the parser's order, tagged with that file |
| LegacyBibrarian.BibRepo.StartSearcher | Bibrarian.py:488-491 | after the load the searcher waits for requests; the loaded files and entries, the status, the request and the wiring are unchanged |
| LegacyBibrarian.BibRepo.BeginLocalSearch | Bibrarian.py:491-500 | captures the serial, turns "searching", and the pass holds exactly the local filter's result; entries, request and wiring unchanged |
| LegacyBibrarian.BibRepo.BeginRemoteSearch | Bibrarian.py:491-500 | captures the serial, turns "searching", and the pass holds one fresh DBLP entry per hit; entries, request and wiring unchanged |
| LegacyBibrarian.BibRepo.RemoteEntries | Bibrarian.py:624-625 | one fresh entry per hit, with source "dblp.org" |
| LegacyBibrarian.BibRepo.Deliver | Bibrarian.py:500-510 | without a selection panel the pass ends; otherwise the item is ticked iff its bibkey is a key of the selection, and every sink receives it under the captured serial, once per attachment; status, entries, request and wiring unchanged |
| LegacyBibrarian.BibRepo.FanOut | Bibrarian.py:507-508 | each sink at the captured serial gains the item once per time it was attached; the others are untouched |
| LegacyBibrarian.BibRepo.EndSearch | Bibrarian.py:512-518 | back to "ready"; the request stays pending iff a newer serial arrived; serial, text, entries and wiring unchanged |
| LegacyBibrarian.BibRepo.Write | Bibrarian.py:586-601 | nothing without its own panel; otherwise merges with the module-level selection, aborts iff a record is missing, else writes |
| LegacyBibrarian.SearchBar.constructor | Bibrarian.py:773-782 | counter 0, no repos |
| LegacyBibrarian.SearchBar.SetActiveRepos | Bibrarian.py:791-792 | sets the repos |
| LegacyBibrarian.SearchBar.TextChangeHandler | Bibrarian.py:784-789 | the result panel and every repo get the current serial and the counter moves on by exactly one; every repo's status, threads and wiring are unchanged |
| LegacyBibrarian.Flags | Bibrarian.py:817-831 | the enabled flags of the repos, in order |
| LegacyBibrarian.InputFilter.MaskDatabases | Bibrarian.py:814-837 | the repos' flags become the masking of the key, the answer is the key's verdict, "enter" swaps the focus; every repo's status, threads, request and other wiring are unchanged |
| LegacyBibrarian.InputFilter.SetAll | Bibrarian.py:818-825 | every repo gets the same flag; its status, threads, request and other wiring are unchanged |
| LegacyBibrarian.OneSinkDeliversOnce | Bibrarian.py:883-885 | with the result panel attached once, each current result reaches it exactly once |
| LegacyBibrarian.LoadedEntriesReachSearch | Bibrarian.py:471-570 | after load, searcher start and a query, the pass holds exactly the loaded entries that match the query, which are the parsed files' records in order |
| LegacyBibrarian.StaleDeliveryDropped | Bibrarian.py:784-789 | a keystroke during a pass empties the result panel, the next hit of that pass does not reach it, and the new text waits as a pending request |

## Left out

- The user interface is left out: urwid widgets, palettes, the banner, the details panel,
  focus handling beyond the one focus flip, and redraws.
- Threads, events and locks are replaced by step methods and plain fields. Real
  interleavings inside one step are not modelled, for example between two lines of `Deliver`
  or between a serial being posted and being read.
- The redraw pipe and `os.write` are left out.
- These inputs are parameters: `glob.glob`, the result of `expandvars`/`expanduser` (a repo
  keeps both the configured glob text and its expansion), pybtex parsing,
  writing the bibliography file, and writing the keys file. `KeyList` and `Write` return what
  would be written.
- The DBLP request and its JSON are left out. A response is given as an optional list of hits,
  with `None` standing for a reply without a "hit" list.
- A network error ends a DBLP pass early. `EndSearch` therefore allows a remote pass to end at
  any point.
- The SHA-1 suffix of a DBLP bibkey is given as computed. The lazy per-entry BibTeX fetch is
  given as its result.
- `MessageBar`, `OpenInBrowser`, the configuration files, argument parsing, logging,
  `BibRepo.Create` and the `TopWidget`/module-level wiring are left out.
- The current wiring attaches the selection panel to `selected_keys_panel`, while the searcher
  reads `selected_entries_panel`. That field is then never set, so in the running program every
  search mark is None. The model keeps both fields and lets a caller set either.
- `BibtexRepo.__init__` in source/main.py:630-634 resets `_bib_files` and `_bib_entries` after
  the base constructor has already started the loading thread. If the loader runs first, its
  results are wiped; if it appends before the attribute exists, it raises `AttributeError`
  and `loading_done` is never set. The model takes the interleaving in which the constructor
  finishes first. Bibrarian.py:535-537 resets `bib_files` the same way, and the model takes the
  same interleaving there.
- Bibrarian.py's `OutputBibtexRepo.__init__` reads `bib_files` while the loading thread may
  still be filling it, so which file it picks depends on timing. `LegacyBibrarian.BibRepo` takes
  the glob as the output file, which is what happens when the constructor wins that race.
- The exception messages are left out. The status and mark setters of `source/main.py` format
  their message with a name that is not defined, so they raise `NameError` rather than the
  intended error. Either way the call fails, and the model reports that as `ok == false`.
- Text.Upper: covers ASCII only, because Unicode case mapping (including `ß` → `SS`, which
  changes the length) is not modelled.
- Text.IsSpace: covers the code points Python's `str.isspace` accepts, listed by hand.
- The order in which pybtex writes the merged bibliography is left out. `Write` hands over a
  map.
- Bibrarian.InputFilter.MaskDatabases: the flag list equals `MaskFlags` of the old one only
  for a list of distinct repos, because a repo listed twice shares one flag. A separate
  per-object postcondition also covers a list that holds one repo twice.

## Findings

The operations follow the code as written. Each corrected definition stands beside them
with its intended property proved.

| source | as written | input that shows it | evidently intended | confidence | as-written member | corrected member |
|---|---|---|---|---|---|---|
| source/main.py:693 | when the glob matched nothing, the output file is `glob_expr`, the text as configured, while the loader looked for its expansion (line 631) | an output repo configured as `~/refs/new.bib` that does not exist yet: the write goes to the relative path `~/refs/new.bib`, which normally names no existing directory, so it fails and is logged, and the merged bibliography is not saved | fall back to the expanded `self.source` | medium; not executed | Bibrarian.UnexpandedOutputFile | Bibrarian.BibRepo.IntendedOutputFile |
| Bibrarian.py:546 | warns "matches no target" when `bib_entries` is empty, and that list was reset to empty on line 543, so the warning is logged on every load | a glob matching `refs.bib` | warn only when `bib_files` is empty | high; not executed | LegacyBibrarian.NoTargetWarningAsWritten | LegacyBibrarian.NoTargetWarning |
