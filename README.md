# Synthia workspace core, modelled in Dafny

Synthia is a writing workspace. A book is a table of contents of parts. Each
part owns chapters. Chapters link to fragments (ideas, notes, quotes) held in
a library. Documents open as tabs in one or two editor panes ("tab groups").
The whole workspace and its snapshots are kept in browser storage.

This project models the state logic behind that interface:

- `WorkspaceContext`: the workspace context's actions, as a class `Workspace`
  whose methods update its fields in place.
  - The pane logic is specified by the pure functions of `TabGroups`.
  - The document edits are specified by the pure functions of `Documents`.
  - The loops over groups, parts and chapters are `while` loops proved
    against those functions.
- `FileSystemApi`: loading, migrating, seeding and saving the data. Storage
  is a map from keys to stored values, held in the class `LocalStorage`.
- `MainLayout`: what a finished drag does (link a fragment, reorder parts,
  move a chapter).
- `Commands`: the command list and its enabling rules, the export
  filenames, the HTML-to-Markdown conversion, and import validation.
- `CommandPalette`: filtering, grouping by category, and keyboard
  selection.
- `SlashCommands` and `SlashCommandMenu`: the catalogue of the "/" menu,
  its filter, and its cyclic highlight.
- `FragmentLibrary`: the tag list and the tag filter.
- `FragmentInspector`: tag and source editing, and backlinks.
- `ChapterInspector`: the split into linked and unlinked fragments.
- `TabbedEditorView`: resolving open tabs, and routing edits and clicks.
- `WelcomeScreen`: relative times, recent items, and "new chapter".

Shared modules:

- `Types`: the document datatypes and their lookups.
- `Lists`: sequence helpers (index, remove, insert, filter, subsequence).
- `Text`: string helpers (ASCII lower-casing, trimming, tag stripping).

Modelling choices that apply throughout:

- Fresh uuids, the current time and the answers to confirmation dialogs are
  parameters.
- Timestamps are integer milliseconds.
- A JavaScript `null` or a missing field is an `Option`.

Two behaviours of the code are worth knowing before reading the model:

- Only data read under the current key is remapped from the retired
  sidebar view `source-control` to `history`
  (services/fileSystemApi.ts:178-180). A migrated legacy workspace keeps
  it: `FileSystemApi.MigrateLegacyKeepsSourceControl`.
- Three actions can leave the focused group dangling:
  - `setActiveGroup` stores any id (`TabGroups.SetActiveGroupUnchecked`);
  - `setActiveTab` does not check the tab (`TabGroups.SetActiveTabUnchecked`);
  - `addPartAndChapter` keeps a stale focus (`TabGroups.OpenKeepingFocusStale`).

  The other pane actions keep every focus pointing at an existing group
  (`PanesValid`), and their methods prove it.

## Model

| member | source | states |
|---|---|---|
| `WorkspaceContext.Workspace.constructor` | contexts/WorkspaceContext.tsx:126-133 | the loaded data becomes the provider's state, field for field |
| `WorkspaceContext.Workspace.ReplaceWorkspace` | contexts/WorkspaceContext.tsx:163-169 | the current workspace becomes the given one; the snapshots stay |
| `WorkspaceContext.Workspace.ReplaceUi` | contexts/WorkspaceContext.tsx:163-169 | the interface state becomes the given one |
| `WorkspaceContext.Workspace.OpenDocumentInGroup` | contexts/WorkspaceContext.tsx:100-105 | only the chosen group changes, as `OpenInGroup` describes |
| `WorkspaceContext.Workspace.OpenDocument` | contexts/WorkspaceContext.tsx:171-194 | the panes become `Open(old panes)`; well-formed panes stay well formed |
| `WorkspaceContext.Workspace.SetActiveTab` | contexts/WorkspaceContext.tsx:196-204 | the panes become `SetActiveTab(old panes)`; they stay well formed when the tab belongs to the group |
| `WorkspaceContext.Workspace.SetActiveGroup` | contexts/WorkspaceContext.tsx:465 | the focused group id is stored unchecked; the groups are unchanged |
| `WorkspaceContext.Workspace.CloseTabInAllGroups` | contexts/WorkspaceContext.tsx:208-217 | the loop over groups equals `CloseEverywhere` |
| `WorkspaceContext.Workspace.CleanupTabGroupsAndFocus` | contexts/WorkspaceContext.tsx:74-98 | the panes become `Cleanup(old panes)`; afterwards they are well formed, or some surviving group was already malformed |
| `WorkspaceContext.Workspace.CloseTab` | contexts/WorkspaceContext.tsx:206-220 | close everywhere, then clean up; from well-formed panes the result is well formed and no group holds the tab |
| `WorkspaceContext.Workspace.SplitEditor` | contexts/WorkspaceContext.tsx:462 | the panes become `Split(old panes)`, keeping validity |
| `WorkspaceContext.Workspace.UnsplitEditor` | contexts/WorkspaceContext.tsx:463 | the merge loop yields `Unsplit(old panes)`, keeping validity |
| `WorkspaceContext.Workspace.SetSplitDirection` | contexts/WorkspaceContext.tsx:464 | the split direction is the given one |
| `WorkspaceContext.Workspace.ToggleBottomPanel` | contexts/WorkspaceContext.tsx:299 | the bottom-panel flag is negated |
| `WorkspaceContext.Workspace.ToggleInspector` | contexts/WorkspaceContext.tsx:300 | the inspector flag is negated |
| `WorkspaceContext.Workspace.ToggleCommandPalette` | contexts/WorkspaceContext.tsx:301 | the palette flag is negated |
| `WorkspaceContext.Workspace.ToggleSettings` | contexts/WorkspaceContext.tsx:467 | the settings flag is negated |
| `WorkspaceContext.Workspace.SetRenamingId` | contexts/WorkspaceContext.tsx:461 | the renaming id is the given id or none |
| `WorkspaceContext.Workspace.SetSidebarView` | contexts/WorkspaceContext.tsx:466 | the sidebar view is the given one |
| `WorkspaceContext.Workspace.UpdateSettings` | contexts/WorkspaceContext.tsx:468 | given editor settings replace the current ones; otherwise nothing changes |
| `WorkspaceContext.Workspace.ToggleFragmentTagFilter` | contexts/WorkspaceContext.tsx:472-482 | the active tags become `ToggleTag(old tags, tag)` |
| `WorkspaceContext.Workspace.ClearFragmentTagFilters` | contexts/WorkspaceContext.tsx:484-488 | no tag is active |
| `WorkspaceContext.Workspace.EditChapterInPlace` | contexts/WorkspaceContext.tsx:222-233 | the part-by-part search with `break` equals `EditFirstChapter` |
| `WorkspaceContext.Workspace.UpdateChapterContent` | contexts/WorkspaceContext.tsx:222-233 | the first chapter with the id gets the content and the time |
| `WorkspaceContext.Workspace.UpdateChapterStatus` | contexts/WorkspaceContext.tsx:469 | the first chapter with the id gets the status and the time |
| `WorkspaceContext.Workspace.LinkFragmentToChapter` | contexts/WorkspaceContext.tsx:303-310 | the table of contents becomes `EditFirstChapter(…, Link)` |
| `WorkspaceContext.Workspace.UnlinkFragmentFromChapter` | contexts/WorkspaceContext.tsx:312-319 | the table of contents becomes `EditFirstChapter(…, Unlink)` |
| `WorkspaceContext.Workspace.UpdateToc` | contexts/WorkspaceContext.tsx:321 | the table of contents is replaced |
| `WorkspaceContext.Workspace.AddPart` | contexts/WorkspaceContext.tsx:323-333 | an empty `part-<uuid>` part is appended and put into renaming |
| `WorkspaceContext.Workspace.AddPartAndChapter` | contexts/WorkspaceContext.tsx:335-370 | a part holding one new chapter is appended; the chapter is renamed and opened without repairing a stale focus |
| `WorkspaceContext.Workspace.AddChapter` | contexts/WorkspaceContext.tsx:372-390 | the chapter is appended to the part, renamed and opened; an unknown part changes nothing |
| `WorkspaceContext.Workspace.DeletePart` | contexts/WorkspaceContext.tsx:392-420 | once confirmed, the part is removed and its chapters' tabs are closed before clean-up; from well-formed panes none of those tabs remains |
| `WorkspaceContext.Workspace.DeletePartAt` | contexts/WorkspaceContext.tsx:395-418 | the part at the found index is removed and the panes become the clean-up of closing its chapters' tabs; valid state stays valid and none of those tabs remains |
| `WorkspaceContext.Workspace.CloseChapterTabs` | contexts/WorkspaceContext.tsx:400-411 | the loop over the doomed chapters equals `CloseAll` of their ids |
| `WorkspaceContext.ChapterTabsClosed` | contexts/WorkspaceContext.tsx:400-418 | closing the chapters' tabs and cleaning up keeps valid panes valid and leaves none of those tabs open |
| `WorkspaceContext.Workspace.RemoveChapterFromParts` | contexts/WorkspaceContext.tsx:437-439 | the loop filters the chapter out of every part (`RemoveChapterEverywhere`) |
| `WorkspaceContext.Workspace.DeleteChapter` | contexts/WorkspaceContext.tsx:422-443 | once confirmed, the chapter's tabs are closed, the chapter is removed everywhere and the panes are cleaned up; no group holds the chapter afterwards |
| `WorkspaceContext.Workspace.UpdateItemName` | contexts/WorkspaceContext.tsx:445-459 | the table of contents becomes `Rename(…)` |
| `WorkspaceContext.Workspace.UpdateFragmentContent` | contexts/WorkspaceContext.tsx:235-243 | the first fragment with the id gets the content and the time |
| `WorkspaceContext.Workspace.UpdateFragmentMetadata` | contexts/WorkspaceContext.tsx:289-297 | the first fragment with the id gets the metadata and the time |
| `WorkspaceContext.Workspace.AddFragment` | contexts/WorkspaceContext.tsx:245-259 | a new idea goes to the front of the library and the bottom panel opens |
| `WorkspaceContext.Workspace.UnlinkFromPart` | contexts/WorkspaceContext.tsx:280-282 | only part `i` changes, becoming `UnlinkInPart` |
| `WorkspaceContext.UnlinkChapters` | contexts/WorkspaceContext.tsx:280-282 | the loop over one part's chapters drops the fragment from each, as `UnlinkInPart` describes |
| `WorkspaceContext.Workspace.UnlinkFromAllChapters` | contexts/WorkspaceContext.tsx:279-283 | the nested loop equals `UnlinkEverywhere` |
| `WorkspaceContext.Workspace.DeleteFragment` | contexts/WorkspaceContext.tsx:261-287 | once confirmed, the fragment leaves the library, every chapter's links and every group |
| `WorkspaceContext.Workspace.CreateSnapshot` | contexts/WorkspaceContext.tsx:492-503 | the data becomes `Documents.CreateSnapshot(…)` |
| `WorkspaceContext.Workspace.RestoreSnapshot` | contexts/WorkspaceContext.tsx:505-516 | the data becomes `Documents.RestoreSnapshot(…)` |
| `WorkspaceContext.Workspace.DeleteSnapshot` | contexts/WorkspaceContext.tsx:518-528 | the data becomes `Documents.DeleteSnapshot(…)` |
| `TabGroups.NewGroup` | contexts/WorkspaceContext.tsx:85 | a fresh group is `group-…`, empty, with no focused tab |
| `TabGroups.GroupIndex` | contexts/WorkspaceContext.tsx:198 | the first group with the id, or -1 exactly when none has it |
| `TabGroups.OtherGroupIndex` | contexts/WorkspaceContext.tsx:463 | the first group whose id differs, or -1 when every group has the id |
| `TabGroups.OpenInGroup` | contexts/WorkspaceContext.tsx:100-105 | the document is appended unless already open and is focused; tabs stay duplicate-free |
| `TabGroups.OpenTarget` | contexts/WorkspaceContext.tsx:173-186 | the focused group when it exists, otherwise the first group |
| `TabGroups.Open` | contexts/WorkspaceContext.tsx:171-191 | the document is open and focused in the target group, which becomes the focused group; other groups are unchanged |
| `TabGroups.OpenFocuses` | contexts/WorkspaceContext.tsx:171-191 | after opening, the focused tab is the document |
| `TabGroups.OpenValid` | contexts/WorkspaceContext.tsx:171-191 | opening preserves the pane invariants and is idempotent |
| `TabGroups.OpenKeepingFocus` | contexts/WorkspaceContext.tsx:359-368 | the same groups as `Open`, but the stored focus is kept |
| `TabGroups.OpenKeepingFocusStale` | contexts/WorkspaceContext.tsx:359-368 | with a stale focus the new chapter opens but no group is focused |
| `TabGroups.SetActiveTab` | contexts/WorkspaceContext.tsx:196-204 | an unknown group changes nothing; otherwise only that group's focus changes and it becomes the focused group |
| `TabGroups.SetActiveTabValid` | contexts/WorkspaceContext.tsx:196-204 | focusing a tab the group holds preserves the invariants |
| `TabGroups.SetActiveTabUnchecked` | contexts/WorkspaceContext.tsx:196-204 | focusing a tab the group lacks breaks them |
| `TabGroups.SetActiveGroup` | contexts/WorkspaceContext.tsx:465 | any id is stored as the focus; the groups are unchanged |
| `TabGroups.SetActiveGroupUnchecked` | contexts/WorkspaceContext.tsx:465 | an unknown id leaves the focus dangling |
| `TabGroups.TabOrNull` | contexts/WorkspaceContext.tsx:214 | `tabs[i] \|\| null`: none past the end or for an empty id |
| `TabGroups.CloseInGroup` | contexts/WorkspaceContext.tsx:208-217 | a group without the tab is unchanged; a focus on another tab is kept |
| `TabGroups.CloseInGroupRemovesOne` | contexts/WorkspaceContext.tsx:209-211 | exactly one occurrence is removed and the order of the rest is kept |
| `TabGroups.CloseInGroupValid` | contexts/WorkspaceContext.tsx:208-217 | the focus stays on a tab of the group; a duplicate-free group no longer holds the tab |
| `TabGroups.CloseActiveRefocus` | contexts/WorkspaceContext.tsx:213-215 | focus moves to the left neighbour, to the next tab for the first tab, or to none |
| `TabGroups.CloseFirstActiveTab` | contexts/WorkspaceContext.tsx:213-215 | closing the focused first tab focuses the new first tab |
| `TabGroups.CloseEverywhere` | contexts/WorkspaceContext.tsx:208-217 | every group is closed independently |
| `TabGroups.CloseAll` | contexts/WorkspaceContext.tsx:400-411 | the ids are closed in turn; the number of groups is kept |
| `TabGroups.CloseEverywhereSpec` | contexts/WorkspaceContext.tsx:208-217 | each group keeps its id, its other tabs and its validity, and loses the tab |
| `TabGroups.CloseAllSpec` | contexts/WorkspaceContext.tsx:400-411 | none of the ids remains in a well-formed group; other tabs are kept |
| `TabGroups.CloseAllValid` | contexts/WorkspaceContext.tsx:400-411 | each group keeps its id and stays well formed while the ids are closed |
| `TabGroups.CloseAllKeeps` | contexts/WorkspaceContext.tsx:400-411 | a tab not among the closed ids stays exactly where it was |
| `TabGroups.CloseAllRemoves` | contexts/WorkspaceContext.tsx:400-411 | a well-formed group holds none of the closed ids afterwards |
| `TabGroups.Cleanup` | contexts/WorkspaceContext.tsx:74-98 | at least one group remains, the focus names one of them, and nothing new appears except a fresh group |
| `TabGroups.CleanupKeeps` | contexts/WorkspaceContext.tsx:78-97 | with several groups exactly the non-empty ones survive in order; a lone group survives; a valid focus is kept |
| `TabGroups.CleanupKeepsLoneEmptyGroup` | contexts/WorkspaceContext.tsx:77-80 | a single empty group is kept (the welcome screen) |
| `TabGroups.CleanupValid` | contexts/WorkspaceContext.tsx:74-98 | clean-up establishes the pane invariants |
| `TabGroups.CleanupIdempotent` | contexts/WorkspaceContext.tsx:74-98 | cleaning up twice is cleaning up once |
| `TabGroups.CloseThenCleanup` | contexts/WorkspaceContext.tsx:206-220 | `closeTab` leaves valid panes and no tab for the document |
| `TabGroups.CloseAllThenCleanup` | contexts/WorkspaceContext.tsx:392-420 | the `deletePart` cascade leaves valid panes and none of the ids |
| `TabGroups.Split` | contexts/WorkspaceContext.tsx:462 | with two or more groups nothing changes; otherwise a fresh empty group is added and focused |
| `TabGroups.MergeTabs` | contexts/WorkspaceContext.tsx:463 | the first list is kept as a prefix, exactly the union is present, no duplicates are created, and the added tabs keep their order |
| `TabGroups.Unsplit` | contexts/WorkspaceContext.tsx:463 | one group remains, the focused one, holding its tabs followed by the other group's missing ones; otherwise nothing changes |
| `TabGroups.UnsplitValid` | contexts/WorkspaceContext.tsx:463 | unsplitting preserves the pane invariants |
| `TabGroups.SplitThenUnsplit` | contexts/WorkspaceContext.tsx:462-463 | splitting then unsplitting keeps every tab in order, in the new group, with no focused tab |
| `TabGroups.MergeIntoEmpty` | contexts/WorkspaceContext.tsx:463 | merging into an empty group copies a duplicate-free list |
| `Documents.NewPart` | contexts/WorkspaceContext.tsx:325-329 | `part-<uuid>`, "Untitled Part", no chapters |
| `Documents.NewChapter` | contexts/WorkspaceContext.tsx:377-384 | `ch-<uuid>`, "Untitled Chapter", idea status, starter content, now, no links |
| `Documents.NewFragment` | contexts/WorkspaceContext.tsx:248-255 | `frag-<uuid>`, an untagged idea without a source, created and updated now |
| `Documents.ApplyEdit` | contexts/WorkspaceContext.tsx:222-319 | linking adds the fragment once, unlinking removes it, and the other edits stamp the time |
| `Documents.ApplyEditIdempotent` | contexts/WorkspaceContext.tsx:222-319 | applying an edit twice is applying it once |
| `Documents.EditFirstChapter` | contexts/WorkspaceContext.tsx:224-231 | the number of parts is kept; the two lemmas below say which part and chapter change |
| `Documents.EditFirstChapterSkip` | contexts/WorkspaceContext.tsx:224-226 | parts before the first one holding the id are passed over unchanged |
| `Documents.EditFirstChapterAt` | contexts/WorkspaceContext.tsx:224-231 | the edit lands in the first part holding the id, on its first chapter with the id, and nowhere else |
| `Documents.EditFirstChapterMissing` | contexts/WorkspaceContext.tsx:224-231 | an unknown chapter leaves the contents untouched |
| `Documents.EditFirstChapterOnly` | contexts/WorkspaceContext.tsx:224-231 | in reading order, only the first chapter with that id changes |
| `Documents.EditFirstChapterFind` | contexts/WorkspaceContext.tsx:224-231 | looking the chapter up again finds the edited chapter |
| `Documents.EditFirstChapterIdempotent` | contexts/WorkspaceContext.tsx:224-231 | repeating an edit changes nothing more |
| `Documents.LinkSpec` | contexts/WorkspaceContext.tsx:303-310 | afterwards the chapter lists the fragment exactly once; its other links are kept |
| `Documents.UnlinkSpec` | contexts/WorkspaceContext.tsx:312-319 | every occurrence of the fragment is removed from the chapter |
| `Documents.UnlinkInPart` | contexts/WorkspaceContext.tsx:280-282 | every chapter of the part loses the fragment |
| `Documents.UnlinkEverywhere` | contexts/WorkspaceContext.tsx:279-283 | every part is unlinked |
| `Documents.UnlinkEverywhereSpec` | contexts/WorkspaceContext.tsx:279-283 | no chapter refers to the fragment; every other link is kept |
| `Documents.RemoveChapterEverywhere` | contexts/WorkspaceContext.tsx:437-439 | each part's chapters are filtered |
| `Documents.RemoveChapterEverywhereSpec` | contexts/WorkspaceContext.tsx:437-439 | no chapter with the id remains; every other chapter stays, in order |
| `Documents.AddChapterToPart` | contexts/WorkspaceContext.tsx:374-388 | an unknown part changes nothing; otherwise the chapter is appended to the first part with the id |
| `Documents.Rename` | contexts/WorkspaceContext.tsx:445-459 | a blank title changes nothing; otherwise the part, or else the first chapter, with the id is renamed |
| `Documents.RenamePrecedence` | contexts/WorkspaceContext.tsx:448-456 | a part id takes precedence and then no chapter changes |
| `Documents.FragmentIndex` | contexts/WorkspaceContext.tsx:237 | the first fragment with the id, or -1 exactly when none has it |
| `Documents.ApplyFragmentEdit` | contexts/WorkspaceContext.tsx:235-297 | the id and creation time are kept, and the update time is stamped |
| `Documents.EditFragment` | contexts/WorkspaceContext.tsx:235-297 | only the first fragment with the id changes, if any |
| `Documents.RemoveFragment` | contexts/WorkspaceContext.tsx:276 | exactly the fragments with other ids remain, in order |
| `Documents.ToggleTag` | contexts/WorkspaceContext.tsx:472-482 | a present tag loses one occurrence; an absent tag is appended |
| `Documents.ToggleTagOff` | contexts/WorkspaceContext.tsx:474-476 | an active tag is removed; the list stays duplicate-free and every other tag keeps its membership |
| `Documents.ToggleTagOn` | contexts/WorkspaceContext.tsx:474-479 | an inactive tag is appended; every other tag keeps its membership and toggling again restores the list |
| `Documents.ToggleTagSpec` | contexts/WorkspaceContext.tsx:472-482 | on a duplicate-free list membership flips and toggling twice restores the list |
| `Documents.CreateSnapshot` | contexts/WorkspaceContext.tsx:492-503 | a copy of the current workspace is put in front, named by the given name or the fallback |
| `Documents.FindSnapshot` | contexts/WorkspaceContext.tsx:507 | a snapshot with the id, or none exactly when none has it |
| `Documents.RestoreSnapshot` | contexts/WorkspaceContext.tsx:505-516 | with a known id and confirmation the workspace becomes the snapshot's; otherwise nothing changes |
| `Documents.DeleteSnapshot` | contexts/WorkspaceContext.tsx:518-528 | with a known id and confirmation every snapshot with the id is removed; otherwise nothing changes |
| `Documents.CreateThenRestore` | contexts/WorkspaceContext.tsx:492-516 | restoring a snapshot just taken gives back the workspace it copied |
| `FileSystemApi.ToRaw` | services/fileSystemApi.ts:208-214 | saved data parses back complete |
| `FileSystemApi.StampToc` | services/fileSystemApi.ts:186-192 | the shape of the table of contents is kept |
| `FileSystemApi.StampTocSpec` | services/fileSystemApi.ts:186-192 | every chapter ends up timestamped; an existing stamp is kept and nothing else changes |
| `FileSystemApi.StampUpdatedAt` | services/fileSystemApi.ts:186-192 | the nested loop equals `StampToc` |
| `FileSystemApi.NormalizeCurrent` | services/fileSystemApi.ts:173-194 | the sidebar view and tag backfills and the stamping on the current-key path; complete exactly when settings were stored |
| `FileSystemApi.MigrateLegacy` | services/fileSystemApi.ts:138-165 | the legacy workspace is wrapped with no snapshots, backfilled with defaults and stamped |
| `FileSystemApi.MigrateLegacyKeepsSourceControl` | services/fileSystemApi.ts:145-181 | the legacy path keeps `source-control`; the current path maps it to `history` |
| `FileSystemApi.InitialWorkspaceState` | services/fileSystemApi.ts:13-120 | the seed opens chapter `ch-1-0` in `group-1`, with the explorer view, no tag filter and default settings |
| `FileSystemApi.InitialData` | services/fileSystemApi.ts:122-127 | the seeded workspace with no snapshots |
| `FileSystemApi.SeedIdsDistinct` | services/fileSystemApi.ts:13-98 | no id of the seeded workspace is used twice |
| `FileSystemApi.SeedPanesValid` | services/fileSystemApi.ts:100-108 | the seeded panes are well formed and their tab is a seeded chapter |
| `FileSystemApi.SeedLinksResolve` | services/fileSystemApi.ts:18-98 | every link of every seeded chapter names a seeded fragment |
| `FileSystemApi.SeedPart1Links` | services/fileSystemApi.ts:44-98 | only the first part's chapters carry links |
| `FileSystemApi.LoadResult` | services/fileSystemApi.ts:135-202 | with nothing usable stored, or unreadable current data, the seed is loaded |
| `FileSystemApi.LoadFromCurrent` | services/fileSystemApi.ts:172-196 | data under the current key is normalised and returned, and storage is not written |
| `FileSystemApi.LoadFromLegacy` | services/fileSystemApi.ts:138-165 | with only a legacy workspace, the migration is returned and saved, and the legacy key is removed |
| `FileSystemApi.LoadSeeded` | services/fileSystemApi.ts:167-201 | otherwise the seed is returned and saved |
| `FileSystemApi.AfterLoad` | services/fileSystemApi.ts:135-202 | loading readable current data writes nothing |
| `FileSystemApi.LoadComplete` | services/fileSystemApi.ts:135-202 | every path except the current-key path yields complete data |
| `FileSystemApi.SaveThenLoad` | services/fileSystemApi.ts:135-214 | loading after a successful save gives back what was saved |
| `FileSystemApi.SaveFailureContained` | services/fileSystemApi.ts:208-214 | a failed write leaves storage unchanged; a successful one stores the record |
| `FileSystemApi.LocalStorage.constructor` | services/fileSystemApi.ts:3 | storage starts with the given contents |
| `FileSystemApi.LocalStorage.SaveState` | services/fileSystemApi.ts:208-214 | storage becomes `AfterSave` |
| `FileSystemApi.LocalStorage.LoadState` | services/fileSystemApi.ts:135-202 | returns `LoadResult`, and storage becomes `AfterLoad` |
| `FileSystemApi.LocalStorage.SeedAndSave` | services/fileSystemApi.ts:167-170 | the seed is returned and saved |
| `FileSystemApi.NormalizeRecord` | services/fileSystemApi.ts:173-194 | the in-place backfills equal `NormalizeCurrent` |
| `FileSystemApi.MigrateRecord` | services/fileSystemApi.ts:138-165 | the in-place migration equals `MigrateLegacy` |
| `MainLayout.FragmentDragId` | components/fragments/FragmentLibraryExplorer.tsx:91-93 | the draggable id is the prefix followed by the fragment id |
| `MainLayout.ChapterDropId` | components/structure/ChapterItem.tsx:50 | the drop id is the prefix followed by the chapter id |
| `MainLayout.ReorderParts` | components/layout/MainLayout.tsx:75-81 | a permutation of the parts with the dragged part at the target's index; an unknown id leaves the result to the drag library |
| `MainLayout.MoveChapter` | components/layout/MainLayout.tsx:84-110 | unknown ids change nothing; a drop on another part's chapter or header is `MoveBetweenParts`; a drop on a chapter of its own part is `MoveInPart`; the result is left to the drag library exactly when the chapter is dropped on its own part's header; a move keeps the multiset of chapters |
| `MainLayout.MoveInPart` | components/layout/MainLayout.tsx:91-98 | only that part changes: its chapters are permuted, with the moved chapter at the target index |
| `MainLayout.MoveBetweenParts` | components/layout/MainLayout.tsx:99-110 | the chapter leaves the source part and is inserted at the target index, or appended; the other parts are unchanged |
| `MainLayout.HandleDragEnd` | components/layout/MainLayout.tsx:51-112 | no target, no workspace or a drop on itself changes nothing; it links exactly when a fragment is dropped on a chapter; a part drag is `ReorderParts`; any other drag is `MoveChapter` |
| `MainLayout.DragLinkRoundTrip` | components/layout/MainLayout.tsx:60-65 | dropping a fragment on a chapter links exactly those two ids |
| `MainLayout.DropOnSelf` | components/layout/MainLayout.tsx:68 | dropping an item on itself changes nothing |
| `MainLayout.ChapterBagPermute` | components/layout/MainLayout.tsx:91-98 | permuting one part keeps the multiset of chapters |
| `MainLayout.ChapterBagTransfer` | components/layout/MainLayout.tsx:99-110 | moving a chapter between parts keeps the multiset of chapters |
| `MainLayout.SwapTwoChapters` | components/layout/MainLayout.tsx:91-98 | dragging the second chapter onto the first swaps them |
| `Commands.ReplaceAll` | constants/commands.ts:44-47 | text without tags is unchanged |
| `Commands.ReplaceAllStep` | constants/commands.ts:44-47 | the first occurrence of the tag, after tag-free text, is replaced and the rest is rewritten on its own |
| `Commands.LazyEnd` | constants/commands.ts:37-48 | the first case-insensitive closing tag before any line terminator (`\n`, `\r`, U+2028, U+2029), as a lazy `.*?` finds it; none when a terminator or the end comes first |
| `Commands.ReplacePairs` | constants/commands.ts:37-48 | text without tags is unchanged |
| `Commands.ReplacePairsStep` | constants/commands.ts:37-48 | a tag pair is rewritten with its inner text kept |
| `Commands.CollapseNewlines` | constants/commands.ts:50 | no run of three newlines remains; text without one is unchanged |
| `Commands.HtmlToMarkdown` | constants/commands.ts:35-54 | the result has no triple newline and no surrounding white space |
| `Commands.MarkdownOfPlainText` | constants/commands.ts:35-54 | plain trimmed text converts to itself |
| `Commands.MarkdownParagraph` | constants/commands.ts:37 | a paragraph becomes its text and a blank line |
| `Commands.ParagraphAcrossLines` | constants/commands.ts:37 | a paragraph whose text crosses a line terminator is left as it is |
| `Commands.MarkdownOfRule` | constants/commands.ts:35-54 | `<hr>` converts to `---` |
| `Commands.MarkdownOfListItem` | constants/commands.ts:35-54 | a one-item bulleted list of plain one-line text converts to `- ` and the text |
| `Commands.ActiveOf` | constants/commands.ts:65-70 | the active chapter, fragment and part are found exactly when the focused id names them |
| `Commands.MarkdownFile` | constants/commands.ts:13-23 | Markdown downloads carry the filename and converted content |
| `Commands.FragmentPreview` | constants/commands.ts:7-11 | the preview is never empty |
| `Commands.ChapterCommands` | constants/commands.ts:72-82 | one navigation command per chapter, in order |
| `Commands.FragmentCommands` | constants/commands.ts:83-93 | one navigation command per fragment, in order |
| `Commands.Navigation` | constants/commands.ts:72-93 | one command for each chapter and each fragment |
| `Commands.NavigationCommands` | constants/commands.ts:72-93 | the push loops equal `Navigation` |
| `Commands.PushChapterCommands` | constants/commands.ts:74-82 | the loop over one part's chapters appends their navigation commands in order |
| `Commands.PushFragmentCommands` | constants/commands.ts:85-93 | the loop over the library appends the fragment navigation commands in order |
| `Commands.NavigationIdsDistinct` | constants/commands.ts:72-93 | navigation command ids are distinct |
| `Commands.NavigationIdsDiffer` | constants/commands.ts:72-93 | two navigation commands at different positions have different ids, given distinct chapter and fragment ids |
| `Commands.UiCommands` | constants/commands.ts:95-110 | two interface commands |
| `Commands.ExportFilename` | constants/commands.ts:223 | spaces become underscores and the extension is appended |
| `Commands.ExportFilenameRecoversTitle` | constants/commands.ts:223 | the title is recovered from the filename |
| `Commands.ExportActiveMarkdown` | constants/commands.ts:213-228 | disabled exactly without an active id; downloads the active document as Markdown when it exists |
| `Commands.ExportActiveText` | constants/commands.ts:229-244 | disabled exactly without an active id; downloads the active document as text when it exists |
| `Commands.ManuscriptMarkdown` | constants/commands.ts:250-257 | no parts give the empty text; one part gives that part's Markdown |
| `Commands.JoinAppend` | constants/commands.ts:250-269 | joining two non-empty lists is joining each, with the separator between |
| `Commands.ManuscriptMarkdownAppend` | constants/commands.ts:250-257 | the manuscript of two runs of parts is the two manuscripts with a rule between |
| `Commands.ManuscriptOfOneChapter` | constants/commands.ts:245-258 | a one-part, one-chapter manuscript is the part heading and the chapter |
| `Commands.ManuscriptText` | constants/commands.ts:259-271 | no parts give the empty text; one part gives that part's text |
| `Commands.ManuscriptTextAppend` | constants/commands.ts:259-271 | the text of two runs of parts is the two texts with two blank lines between |
| `Commands.ManuscriptTextOfOneChapter` | constants/commands.ts:259-271 | a one-part, one-chapter manuscript is the `PART:` line, the `CHAPTER:` line and the chapter's text |
| `Commands.ExportCommands` | constants/commands.ts:212-273 | four export commands |
| `Commands.FragmentLibraryCommands` | constants/commands.ts:112-120 | one fragment command |
| `Commands.CreateChapterCommand` | constants/commands.ts:130-139 | enabled exactly when a chapter is active; it adds a chapter to that chapter's part |
| `Commands.RenameCommand` | constants/commands.ts:140-149 | enabled exactly when the active id is in the table of contents; starts renaming it |
| `Commands.DeleteCommand` | constants/commands.ts:150-163 | deletes the active chapter, or else the active part; disabled outside the table of contents |
| `Commands.TocCommands` | constants/commands.ts:122-164 | four table-of-contents commands |
| `Commands.WorkspaceCommands` | constants/commands.ts:166-210 | two workspace commands |
| `Commands.AllCommands` | constants/commands.ts:58-275 | no workspace gives no commands; otherwise navigation plus thirteen |
| `Commands.GenerateCommands` | constants/commands.ts:58-275 | the method equals `AllCommands` |
| `Commands.CommandOrder` | constants/commands.ts:275 | the categories run Navigation, UI, Export, Fragments, TOC, Workspace |
| `Commands.TocCommandsPlaced` | constants/commands.ts:122-164 | the create, rename and delete commands sit at their places |
| `Commands.CreateChapterEnabled` | constants/commands.ts:130-139 | enabled exactly when some part holds the active chapter; it targets the first such part |
| `Commands.ImportResult` | constants/commands.ts:182-208 | replaced exactly for parsed, complete, confirmed data; rejected exactly for malformed or incomplete data |
| `CommandPalette.Matches` | components/command/CommandPalette.tsx:16-23 | the empty query matches every command; a match is never longer than both the label and the category |
| `CommandPalette.Filtered` | components/command/CommandPalette.tsx:16-23 | an empty query keeps all; otherwise exactly the matching commands, in order |
| `CommandPalette.RefineQuery` | components/command/CommandPalette.tsx:16-23 | extending the query only narrows the list |
| `CommandPalette.GroupCommands` | components/command/CommandPalette.tsx:25-30 | the reduce builds the category keys and groups |
| `CommandPalette.GroupsAreFilters` | components/command/CommandPalette.tsx:25-30 | each group is the category's filter of the list |
| `CommandPalette.GroupsListEveryCommandOnce` | components/command/CommandPalette.tsx:25-30 | the groups list every command exactly once, each under its category, in order |
| `CommandPalette.StepDown` | components/command/CommandPalette.tsx:49 | `min(i+1, n-1)` |
| `CommandPalette.StepUp` | components/command/CommandPalette.tsx:52 | `max(i-1, 0)` |
| `CommandPalette.StepsStayInRange` | components/command/CommandPalette.tsx:47-52 | on a non-empty list the steps stay in range and stop at the ends |
| `CommandPalette.StepDownOnEmpty` | components/command/CommandPalette.tsx:47-52 | on an empty list Down gives -1 and Up gives back 0 |
| `CommandPalette.EnterOutcome` | components/command/CommandPalette.tsx:53-58 | runs the highlighted command exactly when it exists and is enabled |
| `CommandPalette.ClickOutcome` | components/command/CommandPalette.tsx:104-106 | runs the clicked command exactly when it is enabled |
| `CommandPalette.EnterRunsShownCommand` | components/command/CommandPalette.tsx:53-58 | Enter only runs an enabled command that matches the query |
| `CommandPalette.Palette.constructor` | components/command/CommandPalette.tsx:9-10 | empty query, first entry highlighted |
| `CommandPalette.Palette.SetQuery` | components/command/CommandPalette.tsx:37-40 | a new query resets the highlight |
| `CommandPalette.Palette.Hover` | components/command/CommandPalette.tsx:103 | hovering highlights the entry |
| `CommandPalette.Palette.KeyDown` | components/command/CommandPalette.tsx:46-62 | the arrows step, Enter runs, Escape closes, and other keys do nothing |
| `SlashCommands.CatalogueTitlesDistinct` | components/editor/SlashCommands.ts:17-53 | the five catalogue titles are distinct |
| `SlashCommands.Offered` | components/editor/SlashCommands.ts:133 | the empty query offers every entry; a longer query than the title offers nothing |
| `SlashCommands.Select` | components/editor/SlashCommands.ts:133 | the filter never lengthens the list |
| `SlashCommands.SelectSpec` | components/editor/SlashCommands.ts:133 | the filter keeps exactly the offered items, in order |
| `SlashCommands.Take` | components/editor/SlashCommands.ts:134 | a prefix of at most `n` items |
| `SlashCommands.Items` | components/editor/SlashCommands.ts:131-135 | at most ten items, exactly the catalogue items whose title starts with the query, ignoring case, in order |
| `SlashCommands.ItemsUncut` | components/editor/SlashCommands.ts:131-135 | the cut never bites; the empty query offers the whole catalogue |
| `SlashCommands.OfferedByFirstLetter` | components/editor/SlashCommands.ts:133 | a one-letter query matches a title starting with that letter, case-insensitively |
| `SlashCommands.CatalogueInitials` | components/editor/SlashCommands.ts:17-53 | the initials of the catalogue titles are h, h, h, b, d |
| `SlashCommands.OneLetter` | components/editor/SlashCommands.ts:131-135 | a one-letter query keeps each entry by its initial |
| `SlashCommands.HeadingQuery` | components/editor/SlashCommands.ts:131-135 | "h" offers the three headings |
| `SlashCommands.DividerQuery` | components/editor/SlashCommands.ts:131-135 | "d" offers only the divider |
| `SlashCommandMenu.JsRem` | components/editor/SlashCommandMenu.tsx:25 | JavaScript `%`: NaN for a zero divisor; the result takes the sign of the dividend |
| `SlashCommandMenu.Prev` | components/editor/SlashCommandMenu.tsx:24-27 | Up moves to i-1, wrapping to the last entry; NaN on an empty menu |
| `SlashCommandMenu.Next` | components/editor/SlashCommandMenu.tsx:28-31 | Down moves to i+1, wrapping to 0; NaN on an empty menu |
| `SlashCommandMenu.StepsUndo` | components/editor/SlashCommandMenu.tsx:24-31 | Up and Down undo each other |
| `SlashCommandMenu.EmptyMenuStepIsNaN` | components/editor/SlashCommandMenu.tsx:24-31 | a step on an empty menu gives NaN, which every later step keeps |
| `SlashCommandMenu.SelectItem` | components/editor/SlashCommandMenu.tsx:13-18 | an item exactly when the index is in range |
| `SlashCommandMenu.Menu.constructor` | components/editor/SlashCommandMenu.tsx:11 | the first entry is highlighted |
| `SlashCommandMenu.Menu.SetItems` | components/editor/SlashCommandMenu.tsx:20 | new entries reset the highlight |
| `SlashCommandMenu.Menu.KeyDown` | components/editor/SlashCommandMenu.tsx:22-38 | the keys claimed are exactly the arrows and Enter; arrows step; Enter chooses the highlighted entry |
| `SlashCommandMenu.Menu.Click` | components/editor/SlashCommandMenu.tsx:52 | a click chooses the clicked entry |
| `SlashCommandMenu.EnterChoosesShown` | components/editor/SlashCommandMenu.tsx:32-35 | on a non-empty menu Enter chooses a shown entry, also after a step |
| `FragmentLibrary.BelowTotal` | components/fragments/FragmentLibraryExplorer.tsx:17 | the default sort order is total |
| `FragmentLibrary.InsertSorted` | components/fragments/FragmentLibraryExplorer.tsx:12-18 | adding to the set keeps it sorted and adds exactly the string |
| `FragmentLibrary.SortedUnique` | components/fragments/FragmentLibraryExplorer.tsx:12-18 | a sorted list with no repeats is determined by its elements |
| `FragmentLibrary.AllTags` | components/fragments/FragmentLibraryExplorer.tsx:12-18 | every tag in use, each once, sorted |
| `FragmentLibrary.FilteredFragments` | components/fragments/FragmentLibraryExplorer.tsx:20-25 | no active tag keeps all; otherwise exactly the fragments carrying every active tag, in order |
| `FragmentLibrary.FilterNarrows` | components/fragments/FragmentLibraryExplorer.tsx:20-25 | activating more tags only narrows the list |
| `FragmentLibrary.IsActive` | components/fragments/FragmentLibraryExplorer.tsx:89 | a fragment is highlighted only when the focused group exists and its active tab is that fragment |
| `FragmentLibrary.OpenedFragmentIsActive` | components/fragments/FragmentLibraryExplorer.tsx:89 | opening a fragment highlights it and no other |
| `FragmentInspector.AddTag` | components/inspector/FragmentInspector.tsx:51-60 | nothing for a blank or present tag; otherwise the trimmed tag is appended |
| `FragmentInspector.AddTagDistinct` | components/inspector/FragmentInspector.tsx:51-60 | adding never duplicates and adds exactly the trimmed input |
| `FragmentInspector.AddTagTwice` | components/inspector/FragmentInspector.tsx:51-60 | the same input twice adds once |
| `FragmentInspector.RemoveTag` | components/inspector/FragmentInspector.tsx:62-64 | every occurrence is dropped; the rest is kept in order |
| `FragmentInspector.RemoveUndoesAdd` | components/inspector/FragmentInspector.tsx:51-64 | removing a just-added tag restores the list |
| `FragmentInspector.TagUpdateOnlyTags` | components/inspector/FragmentInspector.tsx:32-34 | a tag update changes only the tags and the time |
| `FragmentInspector.Displayed` | components/inspector/FragmentInspector.tsx:18 | `source \|\| ''` |
| `FragmentInspector.SourceCommit` | components/inspector/FragmentInspector.tsx:36-41 | an update exactly when the value differs from the stored source; it sets only the trimmed source |
| `FragmentInspector.UntouchedSourceNoUpdate` | components/inspector/FragmentInspector.tsx:36-41 | an untouched field issues no update, nor does committing again |
| `FragmentInspector.BlurWithoutSource` | components/inspector/FragmentInspector.tsx:36-41 | with no source, leaving the field stores the empty source |
| `FragmentInspector.Fields.constructor` | components/inspector/FragmentInspector.tsx:17-19 | the inputs start closed, showing the source, with an empty tag |
| `FragmentInspector.Fields.SyncSource` | components/inspector/FragmentInspector.tsx:22-24 | the source input follows the stored source |
| `FragmentInspector.Fields.BeginSourceEdit` | components/inspector/FragmentInspector.tsx:102 | a click opens the input |
| `FragmentInspector.Fields.TypeSource` | components/inspector/FragmentInspector.tsx:96 | typing sets the source input |
| `FragmentInspector.Fields.TypeTag` | components/inspector/FragmentInspector.tsx:123 | typing sets the tag input |
| `FragmentInspector.Fields.SourceBlur` | components/inspector/FragmentInspector.tsx:36-41 | closes the input and returns `SourceCommit` |
| `FragmentInspector.Fields.SourceKey` | components/inspector/FragmentInspector.tsx:43-49 | Enter commits, Escape reverts and closes, other keys do nothing |
| `FragmentInspector.Fields.TagKey` | components/inspector/FragmentInspector.tsx:51-60 | Enter clears the input and issues `AddTag`'s update |
| `FragmentInspector.PartBacklinks` | components/inspector/FragmentInspector.tsx:66-70 | exactly the part's linking chapters, with the part title |
| `FragmentInspector.Backlinks` | components/inspector/FragmentInspector.tsx:66-70 | every backlink's chapter links the fragment |
| `FragmentInspector.BacklinksInReadingOrder` | components/inspector/FragmentInspector.tsx:66-70 | the backlinked chapters are the linking chapters, in reading order |
| `FragmentInspector.BacklinkMember` | components/inspector/FragmentInspector.tsx:66-70 | a backlink exactly when a part holds the linking chapter |
| `FragmentInspector.LinkedChapterListed` | components/inspector/FragmentInspector.tsx:66-70 | after linking, the chapter is a backlink |
| `FragmentInspector.UnlinkedHasNoBacklinks` | components/inspector/FragmentInspector.tsx:66-70 | after unlinking everywhere, no backlinks remain |
| `ChapterInspector.LinkedFragments` | components/inspector/ChapterInspector.tsx:14 | exactly the library fragments the chapter links, in library order |
| `ChapterInspector.UnlinkedFragments` | components/inspector/ChapterInspector.tsx:15 | exactly the others, in library order |
| `ChapterInspector.Partition` | components/inspector/ChapterInspector.tsx:14-15 | the two lists are disjoint and together are the library |
| `ChapterInspector.Toggle` | components/inspector/ChapterInspector.tsx:28-46 | unlinks in the linked list and links in the other |
| `ChapterInspector.Dispatch` | components/inspector/ChapterInspector.tsx:28-46 | the workspace action the toggle runs |
| `ChapterInspector.ToggleMovesItem` | components/inspector/ChapterInspector.tsx:14-46 | a toggle moves exactly that fragment to the other list |
| `TabbedEditorView.Resolve` | components/workbench/TabbedEditorView.tsx:24-32 | a chapter first, then a fragment, or none exactly when neither exists |
| `TabbedEditorView.OpenTabs` | components/workbench/TabbedEditorView.tsx:23-33 | no more tabs than ids, and each resolved tab is its id's resolution |
| `TabbedEditorView.OpenTabsIds` | components/workbench/TabbedEditorView.tsx:23-33 | the shown tabs are exactly the ids that resolve, in tab order |
| `TabbedEditorView.ActiveTab` | components/workbench/TabbedEditorView.tsx:35 | the open tab with the focused id, or none |
| `TabbedEditorView.ActiveTabResolved` | components/workbench/TabbedEditorView.tsx:23-35 | the active tab is the focused id's resolution |
| `TabbedEditorView.ContentChange` | components/workbench/TabbedEditorView.tsx:53-60 | an edit goes to the active tab, by kind |
| `TabbedEditorView.ContentChangeTargetsFocus` | components/workbench/TabbedEditorView.tsx:53-60 | an edit targets the focused, existing document of the right kind |
| `TabbedEditorView.TabClickFocuses` | components/workbench/TabbedEditorView.tsx:37-39 | clicking a shown tab focuses it and keeps the panes valid |
| `TabbedEditorView.PaneClick` | components/workbench/TabbedEditorView.tsx:62-66 | only an inactive pane asks for focus |
| `TabbedEditorView.PaneClickActivates` | components/workbench/TabbedEditorView.tsx:62-66 | after a pane click that pane is focused and nothing else changes |
| `WelcomeScreen.TimeSince` | components/workbench/WelcomeScreen.tsx:6-19 | the largest unit the elapsed seconds strictly exceed, with the floor count |
| `WelcomeScreen.BoundariesAreStrict` | components/workbench/WelcomeScreen.tsx:6-19 | exactly 60 s reads "60 seconds", 61 s reads "1 minutes", and so on up to months |
| `WelcomeScreen.CountInRange` | components/workbench/WelcomeScreen.tsx:6-19 | counts are at least 1 and at most 12 months, 30 days, 24 hours, 60 minutes or 60 seconds |
| `WelcomeScreen.SameUnitMonotone` | components/workbench/WelcomeScreen.tsx:6-19 | within a unit an older date never shows a smaller count |
| `WelcomeScreen.AllItems` | components/workbench/WelcomeScreen.tsx:29-33 | every chapter and every fragment, once |
| `WelcomeScreen.Insert` | components/workbench/WelcomeScreen.tsx:35-36 | one step of the sort adds the item |
| `WelcomeScreen.InsertNewestFirst` | components/workbench/WelcomeScreen.tsx:35-36 | insertion keeps the list newest first |
| `WelcomeScreen.SortNewest` | components/workbench/WelcomeScreen.tsx:35-36 | the sort is a permutation |
| `WelcomeScreen.SortNewestFirst` | components/workbench/WelcomeScreen.tsx:35-36 | the sorted list is newest first |
| `WelcomeScreen.RecentItems` | components/workbench/WelcomeScreen.tsx:24-39 | at most five items, each a chapter or fragment of the workspace, none twice more often than it occurs |
| `WelcomeScreen.RecentItemsSpec` | components/workbench/WelcomeScreen.tsx:24-39 | at most five items, newest first, and no left-out item is newer than a shown one |
| `WelcomeScreen.RecentClick` | components/workbench/WelcomeScreen.tsx:84 | a click opens the item by kind and id |
| `WelcomeScreen.RecentClickOpensExisting` | components/workbench/WelcomeScreen.tsx:84 | a recent item opens an existing document |
| `WelcomeScreen.RecentLabel` | components/workbench/WelcomeScreen.tsx:88 | a chapter's title, or a fragment excerpt of at most 40 characters followed by "..." |
| `WelcomeScreen.NewChapter` | components/workbench/WelcomeScreen.tsx:41-50 | add to the first part exactly when it exists with an id; otherwise add a part and a chapter |
| `WelcomeScreen.NewChapterAdds` | components/workbench/WelcomeScreen.tsx:41-50 | the chapter ends up in the book: in the first part, or in a new last part |

## Left out

- Timers: the debounced save and the saving status (contexts/WorkspaceContext.tsx:135-153) are left out. The model saves directly.
- The asynchronous load is modelled as one call: `Workspace.constructor` takes the loaded data.
- `JSON.stringify` and `JSON.parse` are abstracted. A stored value is empty text, unparsable text, a legacy workspace or a data record.
- `services/db.ts` is not part of this model.
- The DOM text of HTML is approximated by stripping tags. This affects `getTabTitle` (components/workbench/TabbedEditorView.tsx:46-51), fragment previews and the welcome-screen excerpt. The Markdown regexes are modelled exactly; `.` excludes the four JavaScript line terminators.
- `htmlToText` is a parameter `text` of `Commands.ManuscriptText`. The single-document text export (`DownloadText`) records the document's HTML, not its text.
- Lower-casing and trimming cover ASCII only.
- String comparison for the tag sort is by character code. UTF-16 surrogate details are not modelled.
- Icons, styling and other presentational components are not modelled.
- The Tiptap editor glue and `commandRenderer` (components/editor/SlashCommands.ts:62-128) are left out. So are the editor effects of each slash command; `BlockEdit` only names them.
- The palette's `scrollIntoView` and `data-index` plumbing are left out.
- Click bubbling from a tab to its pane is not modelled.
- `alert` messages are left out. Confirmation answers are parameters.
- Timestamps are integer milliseconds, not ISO strings. Locale-formatted fallback snapshot names are a parameter.
- The unit word of `timeSince` is modelled without the rendered number text.
- The cross-part chapter move builds a fresh table of contents. The in-place mutation of the current workspace's chapter arrays, outside any immer producer, is not modelled.
- `WorkspaceContext.Workspace.UpdateSettings`: takes a whole editor-settings object. The shallow merge of a partial object into existing settings, and the `draft.settings` null check, are not modelled.
- `WelcomeScreen.SortNewest`: stability of the sort (the order among equal timestamps) is not stated.
- `SlashCommandMenu.Menu.Click`: requires the index of an entry shown, since clicks come only from rendered entries.
- `CommandPalette.StepsStayInRange`: stated only for a highlight inside a non-empty list; the empty list is covered by `StepDownOnEmpty`.
- `MainLayout.ReorderParts`: `arrayMove` with index -1 is left to the drag-and-drop library, whose source is not part of this model.
- `MainLayout.MoveChapter`: a chapter dropped on its own part's header reaches `arrayMove` with index -1 (components/layout/MainLayout.tsx:91-95), whose result is left to the drag-and-drop library (`LibraryDefined`).
- `Commands.ImportResult`: the imported settings are taken as present; a backup file without `settings` (only toc, fragments and uiState are checked) is not modelled, since the workspace state always holds settings.
