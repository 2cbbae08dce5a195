# jpass entry table, modelled in Dafny

jpass is a desktop password manager. Its main window shows the entries of the
open password file as a table. This project models the logic under that
table and proves what it does.

- **Column resolution.** The configured field names become columns. The table
  keeps the names that spell one of six detail kinds, drops repeats, and falls
  back to a fixed default list when no name is recognised.
- **Row projection and masked reads.** Each entry becomes one row of strings.
  A read of a password cell shows `******` unless the row's first cell is in
  the shared set of revealed titles.
- **The reveal toggle.** The password column's editor button adds the selected
  row's title to that set, or removes it.
- **The refresh.** The frame rebuilds the rows:
  - it copies the entries and stable-sorts them by case-insensitive title;
  - it keeps the entries whose lower-cased title contains the lower-cased
    search text;
  - it selects the first row whose first cell equals a given title;
  - it writes the status line.
- **Frame state.** This covers the window title, the processing gate that
  enables or disables every action, the exit decision and clearing the model.
- **Command line.** Arguments are read into a map of flag values.

Modules (one file each, all verified together):

| file | module | content |
|---|---|---|
| `wrappers.dfy` | `Wrappers` | `Option` |
| `entries.dfy` | `Entries` | the `Entry` record (title, URL, user, password, creation and modification stamps) |
| `text.dfy` | `Text` | ASCII lower-casing, `String.contains`, decimal rendering of counts and its inverse |
| `entry_details_table.dfy` | `EntryTable` | detail kinds, column resolution, row projection, masking; classes `RevealedTitles` and `EntryDetailsTable` |
| `hide_cell_editor.dfy` | `CellEditor` | the toggle and class `HideCellEditor` |
| `entry_list.dfy` | `EntryList`, `EntryListExamples` | the stable sort, the search filter, the status text, and worked examples |
| `jpass_frame.dfy` | `Frame` | class `JPassFrame`: title, refresh, processing gate, exit decision |
| `jpass_args.dfy` | `CommandLine` | `parseArgs` |

How the source's pieces are represented:

- **Tables and frames.** The table and the frame are classes whose methods
  update their fields in place.
- **The reveal set.** `isPasswordShowSet` is a static `HashSet`. It becomes
  one shared `RevealedTitles` object that the table holds and the editor's
  button mutates.
- **Sorting.** `Collections.sort` is a library call. The model specifies it by
  a pure stable insertion sort, `SortByTitle`. Lemmas show that this sort
  orders the entries, permutes them, and keeps entries with equal keys in
  their original order. `StableSortUnique` then shows that any result with
  those three properties equals `SortByTitle`. So the model agrees with any
  stable sort under the same comparator.
- **Re-enabling after processing.** `setProcessing(false)` enables every
  action (`JPassFrame.java:336-338`). It does not restore the set that was
  enabled before processing began, and the model does not either.
- **Exit while processing.** `exitFrame` clears the clipboard, when so
  configured, before it checks the processing flag (`JPassFrame.java:307-312`).
  So an exit request while processing is not a no-op, and the model keeps that
  order.

## Model

| member | source | states |
|---|---|---|
| EntryTable.DateColumnsCrossed | src/main/java/jpass/ui/EntryDetailsTable.java:51-84 | the MODIFIED kind is headed "Created" and shows the last-modification stamp, the CREATED kind is headed "Modified" and shows the creation stamp; every kind reads "" for a missing entry |
| EntryTable.Label | src/main/java/jpass/ui/EntryDetailsTable.java:51-80 | getDescription: the header of each kind; only the PASSWORD kind is headed "Password", so the header lookup of `getColumn(PWD)` finds exactly the password column (the crossed date headers are in DateColumnsCrossed) |
| EntryTable.DetailValue | src/main/java/jpass/ui/EntryDetailsTable.java:82-84 | getValue: every kind reads "" for a missing entry; the per-kind extractors are pinned by DateColumnsCrossed and ProjectRow |
| EntryTable.DetailByName | src/main/java/jpass/ui/EntryDetailsTable.java:87-88 | a name resolves exactly when it is, case-sensitively, the enum name of a kind, and then to that kind |
| EntryTable.NameRoundTrip | src/main/java/jpass/ui/EntryDetailsTable.java:87-88 | every kind's own enum name resolves back to it |
| EntryTable.DefaultNameResolves | src/main/java/jpass/ui/EntryDetailsTable.java:90-97 | each default name resolves to the corresponding kind of TITLE, URL, USER, PASSWORD, CREATED, MODIFIED |
| EntryTable.Recognized | src/main/java/jpass/ui/EntryDetailsTable.java:105-107 | a kind survives the lookup-and-drop-null step exactly when its name occurs among the configured names |
| EntryTable.Distinct | src/main/java/jpass/ui/EntryDetailsTable.java:108 | the distinct step has no repeats and has exactly the elements of its input |
| EntryTable.DistinctFirstOccurrenceOrder | src/main/java/jpass/ui/EntryDetailsTable.java:108 | the distinct step orders its elements by their first occurrence in the input |
| EntryTable.RecognizedFirstIndex | src/main/java/jpass/ui/EntryDetailsTable.java:105-107 | the first occurrence of a kind among the recognised ones precedes another's exactly as their names' first occurrences do in the configuration |
| EntryTable.ResolveColumnsDistinct | src/main/java/jpass/ui/EntryDetailsTable.java:105-115 | the resolved column list is never empty and never repeats a kind |
| EntryTable.ResolveColumns | src/main/java/jpass/ui/EntryDetailsTable.java:105-115 | the resolved columns are never empty and never repeat a kind; which kinds and in what order is stated by ResolveColumnsFallback, ResolveColumnsMembers and ResolveColumnsOrder |
| EntryTable.ResolveColumnsFallback | src/main/java/jpass/ui/EntryDetailsTable.java:111-115 | when no configured name is recognised, the columns are exactly the six defaults in default order |
| EntryTable.ResolveColumnsMembers | src/main/java/jpass/ui/EntryDetailsTable.java:105-109 | when some name is recognised, a kind is a column exactly when its enum name is configured |
| EntryTable.ResolveColumnsOrder | src/main/java/jpass/ui/EntryDetailsTable.java:105-109 | when some name is recognised, columns appear in the order their names are first configured |
| EntryTable.ProjectRow | src/main/java/jpass/ui/EntryDetailsTable.java:178-182 | the row for an entry has one cell per column, and cell i is the value of column i's kind for that entry |
| EntryTable.RowsOf | src/main/java/jpass/ui/EntryDetailsTable.java:178-182 | the rows after adding a list of entries are one projected row per entry, in the same order |
| EntryTable.PasswordIndex | src/main/java/jpass/ui/EntryDetailsTable.java:156 | the password column's index is a position of the PASSWORD kind among the columns |
| EntryTable.DisplayedCell | src/main/java/jpass/ui/EntryDetailsTable.java:155-164 | a read returns the stored text or the mask; with distinct columns it shows the mask exactly when the cell is a password cell whose row's first cell is not revealed, or when the stored text is itself the mask |
| EntryTable.RevealedTitles.constructor | src/main/java/jpass/ui/EntryDetailsTable.java:57 | the reveal set starts empty |
| EntryTable.EntryDetailsTable.constructor | src/main/java/jpass/ui/EntryDetailsTable.java:102-115 | the table's columns are the resolved columns (appending the defaults one by one when none was recognised), with no rows and no selection |
| EntryTable.EntryDetailsTable.ValueAt | src/main/java/jpass/ui/EntryDetailsTable.java:155-164 | a non-password cell reads as stored; a password cell reads as stored exactly when its row's first cell is revealed (or it already equals the mask), else as the mask |
| EntryTable.EntryDetailsTable.IsCellEditable | src/main/java/jpass/ui/EntryDetailsTable.java:166-172 | a cell is editable exactly when its column is the password column |
| EntryTable.EntryDetailsTable.Clear | src/main/java/jpass/ui/EntryDetailsTable.java:174-176 | no rows remain, no row is selected, and the reveal set is untouched |
| EntryTable.EntryDetailsTable.AddRow | src/main/java/jpass/ui/EntryDetailsTable.java:178-182 | exactly one row is appended, existing rows are unchanged, and cell i is column i's value for the entry |
| EntryTable.EntryDetailsTable.RowCount | src/main/java/jpass/ui/EntryDetailsTable.java:184-186 | the result is the number of rows |
| EntryTable.EntryDetailsTable.SelectRow | src/main/java/jpass/ui/JPassFrame.java:282 | the given row becomes the selected row |
| CellEditor.Toggled | src/main/java/jpass/ui/HideCellEditor.java:34-38 | the toggled title is in the result exactly when it was not in the set; every other title keeps its membership |
| CellEditor.ToggleTwiceRestores | src/main/java/jpass/ui/HideCellEditor.java:34-38 | toggling one title twice restores the set |
| CellEditor.ToggleLeavesOtherRows | src/main/java/jpass/ui/HideCellEditor.java:33-38 | a toggle changes no displayed cell of a row with a different title |
| CellEditor.ToggleFlipsPasswordCell | src/main/java/jpass/ui/HideCellEditor.java:33-38 | a toggle flips the password cell of every row with that title between masked and shown |
| CellEditor.SameTitleSharesMasking | src/main/java/jpass/ui/EntryDetailsTable.java:159-163 | two rows with the same title are always masked or shown together |
| CellEditor.HideCellEditor.constructor | src/main/java/jpass/ui/HideCellEditor.java:15-24 | the editor is bound to its table and its label is empty |
| CellEditor.HideCellEditor.ButtonPressed | src/main/java/jpass/ui/HideCellEditor.java:31-39 | the selected row's title is toggled in the reveal set; nothing is written to the table or the editor; with no row selected nothing changes |
| CellEditor.HideCellEditor.GetTableCellEditorComponent | src/main/java/jpass/ui/HideCellEditor.java:43-47 | the label shows the given cell text |
| CellEditor.HideCellEditor.GetCellEditorValue | src/main/java/jpass/ui/HideCellEditor.java:49-52 | the result is the text last passed to the editor component |
| Text.LowerChar | src/main/java/jpass/ui/JPassFrame.java:274 | a lower-cased character is never an upper-case letter; an upper-case letter becomes its own lower-case letter (32 code points up) and every other character is unchanged |
| Text.Lower | src/main/java/jpass/ui/JPassFrame.java:274 | lower-casing keeps the length and lower-cases each character |
| Text.SameUpToCaseLower | src/main/java/jpass/ui/JPassFrame.java:274 | two strings that differ only in the case of ASCII letters lower-case to the same string |
| Text.Contains | src/main/java/jpass/ui/JPassFrame.java:274 | the result is true exactly when the text occurs at some position |
| Text.NatToString | src/main/java/jpass/ui/JPassFrame.java:289 | a count prints as a non-empty string of digits without a leading zero |
| Text.DecimalRoundTrip | src/main/java/jpass/ui/JPassFrame.java:289-291 | reading the printed count back gives the count |
| Text.NatToStringInjective | src/main/java/jpass/ui/JPassFrame.java:289-291 | different counts print differently |
| EntryList.LexLeReflexive | src/main/java/jpass/ui/JPassFrame.java:271 | the order on lower-cased titles is reflexive |
| EntryList.LexLeTotal | src/main/java/jpass/ui/JPassFrame.java:271 | any two lower-cased titles are comparable |
| EntryList.LexLeTransitive | src/main/java/jpass/ui/JPassFrame.java:271 | the order on lower-cased titles is transitive |
| EntryList.LexLeAntisymmetric | src/main/java/jpass/ui/JPassFrame.java:271 | lower-cased titles that compare both ways are equal |
| EntryList.LexLe | src/main/java/jpass/ui/JPassFrame.java:271 | the order `CASE_INSENSITIVE_ORDER` imposes on case-folded titles: character by character, a proper prefix first; its total-preorder laws are the four LexLe lemmas |
| EntryList.TitleLe | src/main/java/jpass/ui/JPassFrame.java:271 | the comparator of the sort, on entries; SameUpToCaseAlike states that titles differing only in case compare as equal |
| EntryList.SameUpToCaseAlike | src/main/java/jpass/ui/JPassFrame.java:271-274 | titles differing only in ASCII case have the same key, compare as equal both ways, sort alike against every other title and match the same searches |
| EntryList.InsertByTitle | src/main/java/jpass/ui/JPassFrame.java:271 | inserting adds exactly the one entry to the multiset of entries |
| EntryList.SortByTitle | src/main/java/jpass/ui/JPassFrame.java:270-271 | the sorted copy is a permutation of the entries |
| EntryList.InsertKeepsSorted | src/main/java/jpass/ui/JPassFrame.java:271 | inserting into a sorted list keeps it sorted |
| EntryList.SortByTitleSorted | src/main/java/jpass/ui/JPassFrame.java:271 | the sorted copy is ordered by case-insensitive title |
| EntryList.InsertWithKey | src/main/java/jpass/ui/JPassFrame.java:271 | among the entries with its key, the inserted entry comes first and the others keep their order |
| EntryList.SortByTitleStable | src/main/java/jpass/ui/JPassFrame.java:271 | entries whose titles differ only in case keep their relative order |
| EntryList.StableSortUnique | src/main/java/jpass/ui/JPassFrame.java:270-271 | any sorted list with the same per-key subsequences as the input is the sorted copy, so every stable sort under this comparator gives the same rows |
| EntryList.SortedAgreeingKeywiseEqual | src/main/java/jpass/ui/JPassFrame.java:271 | two sorted lists with the same per-key subsequences are equal |
| EntryList.FilterBySearch | src/main/java/jpass/ui/JPassFrame.java:273-274 | an entry is kept exactly when it is in the list and the search is empty or its lower-cased title contains the lower-cased search |
| EntryList.MatchesSearch | src/main/java/jpass/ui/JPassFrame.java:274 | the filter's test: empty search, or the lower-cased title contains the lower-cased search; its effect on the rows is stated by FilterBySearch and FilterEmptySearchKeepsAll |
| EntryList.SameUpToCaseSearch | src/main/java/jpass/ui/JPassFrame.java:274 | the case of the search text does not change which entries match |
| EntryList.FilterEmptySearchKeepsAll | src/main/java/jpass/ui/JPassFrame.java:274 | an empty search keeps every entry, in order |
| EntryList.FilterConcat | src/main/java/jpass/ui/JPassFrame.java:273-275 | the filter keeps order: filtering a concatenation filters each part |
| EntryList.FilterKeepsSorted | src/main/java/jpass/ui/JPassFrame.java:270-275 | filtering the sorted copy leaves it sorted |
| EntryList.StatusTextCounts | src/main/java/jpass/ui/JPassFrame.java:288-292 | with an empty search the status reads "Entries count: " and the total; otherwise "Entries found: " and the shown count, " / " and the total; both numbers read back exactly |
| EntryList.StatusText | src/main/java/jpass/ui/JPassFrame.java:288-292 | the status line starts "Entries count: " without a search and "Entries found: " with one; the numbers it carries are read back by StatusTextCounts |
| EntryListExamples.ExampleSort | src/main/java/jpass/ui/JPassFrame.java:270-271 | "Bank", "apple", "Zeta" sort as "apple", "Bank", "Zeta" |
| EntryListExamples.ExampleSearch | src/main/java/jpass/ui/JPassFrame.java:273-275 | the search "an" keeps only "Bank" |
| EntryListExamples.ExampleStatus | src/main/java/jpass/ui/JPassFrame.java:288-292 | the two status lines for three entries, one of them shown |
| Frame.AllActionsListsEveryAction | src/main/java/jpass/ui/JPassFrame.java:336 | the action list the gate walks holds every action |
| Frame.FrameTitle | src/main/java/jpass/ui/JPassFrame.java:257-261 | the title ends with " - JPass Password Manager", starts with '*' when modified, and has the file name or "Untitled" in between |
| Frame.FrameTitleDeterminesState | src/main/java/jpass/ui/JPassFrame.java:257-261 | for names not starting with '*', the title determines the modified flag and the displayed name |
| Frame.FrameTitleAmbiguousName | src/main/java/jpass/ui/JPassFrame.java:258-259 | a name starting with '*' gives the same title as a modified model with the shorter name |
| Frame.JPassFrame.constructor | src/main/java/jpass/ui/JPassFrame.java:96 | a new frame is not processing, has every action enabled and an empty search |
| Frame.JPassFrame.ClearModel | src/main/java/jpass/ui/JPassFrame.java:249-252 | the model's entries and the table's rows are empty, and the reveal set is untouched |
| Frame.JPassFrame.RefreshFrameTitle | src/main/java/jpass/ui/JPassFrame.java:257-261 | the window title is the frame title of the model's state |
| Frame.JPassFrame.RefreshEntryTitleList | src/main/java/jpass/ui/JPassFrame.java:268-293 | the rows are the entries sorted and then filtered, with no more rows than entries; the model's entries are unchanged; the selection is the first row whose first cell is the given title, or none; the status text reports the shown rows and all entries |
| Frame.JPassFrame.AddMatchingRows | src/main/java/jpass/ui/JPassFrame.java:273-275 | one row per matching entry is appended, in order |
| Frame.JPassFrame.SelectFirstRowTitled | src/main/java/jpass/ui/JPassFrame.java:277-286 | the selected row is the lowest whose first cell equals the title; with no such row nothing is selected |
| Frame.JPassFrame.RefreshAll | src/main/java/jpass/ui/JPassFrame.java:298-301 | both the window title and the rows are refreshed, with no selection |
| Frame.JPassFrame.SearchPanelToggled | src/main/java/jpass/ui/JPassFrame.java:126-130 | enabling the search refreshes the rows without a selection and sets the status text from the shown rows and all entries; disabling it changes nothing |
| Frame.JPassFrame.ExitFrame | src/main/java/jpass/ui/JPassFrame.java:306-323 | the clipboard is cleared when configured, even while processing; a processing frame stays open; a modified model asks and then saves-then-exits on yes, exits on no, and stays open otherwise; an unmodified model exits |
| Frame.JPassFrame.SetProcessing | src/main/java/jpass/ui/JPassFrame.java:334-342 | the flag is set, and every action, the search panel and the table are enabled exactly when not processing, whatever they were before |
| Frame.JPassFrame.IsProcessing | src/main/java/jpass/ui/JPassFrame.java:349-351 | the result is the flag last set |
| CommandLine.ArgsMap | src/main/java/jpass/JPass.java:81-93 | the result's keys are only the configuration-location key and "jpassfile" |
| CommandLine.ParseArgs | src/main/java/jpass/JPass.java:79-95 | the loop fails exactly when a recognised flag is the last argument; otherwise the result is the map the flags before each position build up |
| CommandLine.ArgsMapHasKey | src/main/java/jpass/JPass.java:81-92 | a key is present exactly when it is one of the two and its flag occurs; unknown flags and non-flags add nothing, and so does a bare "-" as long as the configuration-location key is not empty |
| CommandLine.ArgsMapLastWins | src/main/java/jpass/JPass.java:85-91 | a repeated flag takes the value after its last occurrence |
| CommandLine.FlagValueIsAlsoParsed | src/main/java/jpass/JPass.java:81-93 | the argument after a flag is examined as a flag in its own turn, so `-jpassfile -jpassfile x` maps jpassfile to x |

## Left out

- Swing construction is not modelled: toolbar, menus, popup, icons, layout, sizes and listeners (`JPassFrame.java:98-215` apart from the search callback).
- `fitTableColumns` is left out: its widths come from renderer pixel sizes.
- `HideCellRender` is pure rendering and is left out.
- `JPass.main` is left out: look and feel, `UIManager` and `invokeLater`.
- The dialog, the file save, `System.exit` and the clipboard copy are outcomes in the model. The user's answer is a parameter of `ExitFrame`. Its result says whether the clipboard was cleared and whether the application exits or saves first.
- `DataModel`, `Configuration`, `DateUtils` and `MenuActionType` are not part of this model. The model keeps only the parts the frame reads: entries, the modified flag and the file name.
- The date formatter is an opaque `formatDate` parameter.
- The configured column names are a parameter, and so is `Configuration.CONF_LOC_KEY`.
- The model covers the twenty actions the frame itself names.
- Frame.JPassFrame.constructor: does not run the `refreshAll` call at the end of the source constructor; callers run `RefreshAll` after it.
- Frame.JPassFrame.ClearModel: models `DataModel.clear` only as emptying the entries; its other resets are not part of this model.
- EntryTable.EntryDetailsTable.constructor: requires a PASSWORD column. The source's `getColumn("Password")` (line 129) throws without one, and the model does not build that failing table.
- Text.Lower: folds ASCII letters only. Java's locale-dependent `toLowerCase` and `CASE_INSENSITIVE_ORDER` are not modelled for other characters.
- The model has no column reordering: a view column index is the model column index.
- `fireEditingCanceled` is modelled only through its effect: the button writes nothing back to the table.
- The `volatile` processing flag and background file operations are not modelled, because the model is single-threaded.
- CellEditor.HideCellEditor.ButtonPressed: with no row selected the source's read of row -1 throws an exception; the model has no exception and leaves the reveal set and the table unchanged instead.
- CommandLine.ParseArgs: the thrown `ArrayIndexOutOfBoundsException` is modelled as a `None` result, not as an exception.
