# Verification model of the workspace layout engine

A Dafny 4.11 model of the application's layout engine and of three smaller pieces of front-end logic, with
proofs. `dafny verify dfyconfig.toml` checks all of it.

The layout engine decides which panels exist, where they sit and how a saved layout is restored. It has two
generations, and both are live:

- **The panel grid** (`Panels`, `SplitTree`, `PanelGrid`, `GridRuns`, `TabOps`, `DragReorder`, `Resize`): an
  N-ary split tree of panels, beside hidden panels, stashed linked groups and a history of closed panels. `GridMoves`,
  `TabMoves` and `SplitGeometry` say where each operation takes what, and what happens on screen.
- **The workspace** (`Workspace`, `WorkspaceRuns`, `WorkspaceMoves`): a registry of active surfaces, a binary tree of
  the visible ones, and a history.
- **Restoring** (`Json`, `GridNormalize`, `GridRestore`, `GridSave`, `RestoredRegions`, `RestoreReports`,
  `WorkspaceNormalize`, `RestoredSurfaces`): both generations turn an arbitrary JSON value into a valid state. The
  specification functions thread the set of ids seen so far; the `Normalizer` classes hold it, the results and the
  diagnostics as fields, as the program's loops do.
- **Translating** (`LegacyFold`, `Migration`, `MigrationRecords`, `Bridge`, `BridgeLaws`, `BridgeRecords`,
  `BridgedNames`, `ConvertersAgree`, `PrunedTrees`): two independent translations from the grid to the workspace, one for saved blobs
  and one for the live grid, also for grids in which some panels show no surface.
- **Geometry** (`Geometry`, `RestoredGeometry`): what a tree means in pixels, when the N-ary to binary fold keeps that
  meaning, and for which restored grids every panel gets exactly its size.
- **The sidebar** (`StableSort`, `Sidebar`, `SidebarLaws`, `SidebarOrder`): the partition of the active surfaces into
  units, and their order inside and among units.
- **Markdown** (`MarkdownInline`, `MarkdownBlocks`, `MarkdownLaws`, `MarkdownRoundTrips`): the streaming
  tokenizer. Every regular expression is written out as the match it makes on the characters; `MarkdownShapes`,
  `MarkdownLists` and `MarkdownTokens` say which lines and which characters those are. `MarkdownModes` reads
  the same lines one by one, with what is open in front of each, and says in these terms where the tokenizer ends;
  `MarkdownLines`, `MarkdownStreaming` and `MarkdownMidLine` say which blocks a line that goes on can still change;
  `MarkdownWords` and `MarkdownContinuations` say which lines the result does not show.
- **Two folds of events** (`SubagentRuns`, `PromptDelivery`).

Numbers are exact reals, so rounding is not modelled. Clock readings, generated ids, `String(n)` and the order in
which an object enumerates its keys are parameters. Reference equality of tree nodes is equality of values;
`SplitTree.EqualSubtreesSitAtOnePath` shows that this is the same thing where panel ids are unique.

## Findings

Where the code and what is said about it part ways, the model follows the code:

- `parseMarkdown` is described as a pass that always finishes. It loops forever on a fence or heading line whose rest
  contains a carriage return or a Unicode line end, such as any non-empty heading saved with one
  (`MarkdownRoundTrips.CarriageReturnJams`). It ends exactly when every such line is content of a fence, belongs to a
  table or starts one, as a reading line by line tells (`MarkdownModes.EndsExactly`).
- Streaming safety holds for chunks that end at line ends (`MarkdownLaws.StreamingStable`) and can fail in the middle
  of a line (`MarkdownLaws.MidLineUnstable`): the unfinished line can go back into the block in front of it. For
  every text that happens exactly when its last line is not blank, ends that block, and (`MarkdownStreaming.CanChange`)
  - after a table: always, for a bar makes it a row;
  - after a list: if it is an unfinished item marker of that kind (`-`, `12`, `12.`);
  - after a paragraph: if it is a rule (`---` goes on as `--- a`);
  - after a list or paragraph whose last line begins it and contains a bar: also if it holds only separator
    characters and not too many cells, for it can become the separator of a table;
  - after a quote, a heading, a rule or a closed fence: never.

  `MarkdownMidLine.SettledExactly` and `MarkdownMidLine.TextSettledExactly` prove both directions.
- The continuation lines of a list item are said to be collected; their text is dropped, in every list of every
  document. An indented line is lost exactly when a list is open in front of it, or when it separates a table's header
  from its rows; everywhere else some other text in its place gives another result
  (`MarkdownContinuations.LostExactly`).
- A fence is said to end at a line with its own mark. Any line of backticks and tildes that begins with it and is long
  enough ends it, whatever follows in the mixture (`MarkdownShapes.CloseExactly`).
- Prompt delivery is said to be exactly-once per action id. It is exactly when no action id is addressed to two
  sessions (`PromptDelivery.AtMostOnceExactly`). A repeated call with the same action id is said to be a no-op; it is
  exactly when the action is consumed or this very delivery waits already (`PromptDelivery.RepeatIsNoOpExactly`), and
  otherwise replaces what waits (`PromptDelivery.RepeatCanReplace`).
- The members of a sidebar unit are said to keep their on-screen order, and elsewhere to come most recently used first.
  The former is what happens (`SidebarOrder.MembersKeepTreeOrder`, `SidebarOrder.MembersNotByRecency`).
- The bridge clamps ratios to [0.1, 0.9] and so distorts layouts that the migration, which clamps to
  [0.01, 0.99], keeps: eleven equal panels in a row are enough (`RestoredGeometry.ElevenPanels`), or the sizes 0.1 and
  0.92, which restoring accepts (`RestoredGeometry.AcceptedButClamped`). A restored grid is rendered in its exact
  sizes if and only if in every split the first share of what is left stays in the band
  (`RestoredGeometry.RestoredSizesExactly`); shares of at least the minimum that sum to 1 always do.
- `insertPanel` does not look at stashed groups, and so can repeat the id of a stashed panel
  (`PanelGrid.InsertPanelInvariant`, `PanelGrid.InsertCanRepeatStashed`); closing one of two tabs can leave the focus
  dangling (`TabOps.RemoveTabInvariant`, `TabOps.RemoveTabCanStrandFocus`).
- Dropping a panel into the centre of another keeps one tab of it and loses the others
  (`TabOps.MoveConservesExactly`, `TabOps.MoveCanLoseTab`).
- Restoring a workspace drops the stashed groups that saving writes, so saving and restoring gives the same state
  exactly when there are none (`WorkspaceNormalize.SaveThenRestore`, `WorkspaceNormalize.StashedGroupsAreLost`).
- The bridge can give a history that repeats surfaces or overlaps the active ones (`BridgeLaws.BridgedInvCanFail`);
  `BridgeLaws.BridgedInvExactly` says when it does not.
- The two translations give one tab records with different times, and sometimes different titles and resources
  (`ConvertersAgree.RecordsAgreeExactly`, `ConvertersAgree.RecordsCanDiffer`). A panel that shows a file in front of a chat
  tab is dropped by one and shown by the other (`PrunedTrees.PrunedAgreeExactly`).
- Splitting a surface in and removing it again gives the layout back, with the focus on the first leaf wherever it was
  (`WorkspaceRuns.RemoveUndoesSplitFocused`).

## Model

| member | source | states |
|---|---|---|
| Panels.UniqueMeansPairwise | src/lib/panelGrid.ts:196-200 | counting occurrences says what uniqueness of panel ids should say: panels at different places have different ids |
| SplitTree.EqualSubtreesSitAtOnePath | src/lib/panelGrid.ts:334-343 | with unique ids no two places of a tree hold equal subtrees, so comparing nodes by reference and by value is the same |
| SplitTree.ReplaceFlatten | src/lib/panelGrid.ts:334-343 | replacing a subtree exchanges exactly its stretch of the on-screen order and keeps the tree well formed |
| SplitTree.FindPanelIsFind | src/lib/panelGrid.ts:203-212 | searching the tree finds the first panel with the id in on-screen order, and None exactly when it is not shown |
| SplitTree.FindParentMeaning | src/lib/panelGrid.ts:215-227 | in a split, a parent is found exactly when the panel is shown; it is a split of the tree with the panel's leaf among its children |
| SplitTree.SplitPanelAtLeafOrder | src/lib/panelGrid.ts:250-332 | whichever branch it takes, splitting puts the new panel immediately before or after its target in on-screen order (in the centre: into the target's tabs) and keeps the tree well formed |
| SplitTree.InsertBesidePermutes | src/lib/panelGrid.ts:250-332 | inserting beside a panel adds exactly one panel to the multiset |
| SplitGeometry.SplitAlong | src/lib/panelGrid.ts:250-332 | splitting a panel along the split that holds it gives everything in that split the same share of its box, the new panel included, and changes no other size on screen |
| SplitGeometry.SplitAcross | src/lib/panelGrid.ts:250-332 | any other panel shares its own box half and half with the new one, on the asked side, and no other size on screen changes |
| SplitTree.RemovePanelLeafOrder | src/lib/panelGrid.ts:347-365 | removing takes exactly the panel out of the on-screen order, whatever splits collapse, and keeps the tree well formed |
| SplitTree.RemoveFromRootLeafOrder | src/lib/panelGrid.ts:347-365 | the same for the whole layout, including the emptied one |
| SplitTree.RemoveAbsent | src/lib/panelGrid.ts:347-365 | removing a panel that is not shown only resets every split to equal shares |
| SplitTree.RemoveUndoesInsert | src/lib/panelGrid.ts:250-365 | removing a just inserted panel gives the old tree back with every split of it reset to equal shares |
| SplitTree.MovePanelLeafOrder | src/lib/panelGrid.ts:370-382 | moving takes the dragged panel out and puts it beside the target; the layout is untouched exactly when there is nothing to move |
| SplitTree.MovePanelPermutes | src/lib/panelGrid.ts:370-382 | a drop beside another panel permutes the panels |
| TabOps.MoveConservesExactly | src/lib/panelGrid.ts:370-382 | a move conserves the contents of all tabs exactly when it is beside the target, or the dragged panel's contents are its own identity and the target's tab list is not empty |
| TabOps.MoveCanLoseTab | src/lib/panelGrid.ts:98-110 | there is a grid of distinct panels on which a centre drop loses tab contents |
| SplitTree.ReplaceLeafFlatten | src/lib/panelGrid.ts:636-645 | swapping a leaf's panel exchanges one panel in place |
| TabMoves.ActiveTabExactly | src/lib/panelGrid.ts:1231-1247 | a panel shows the first of its tabs that its active id names, or else its first tab, or itself if it has none |
| TabMoves.CentreDrop | src/lib/panelGrid.ts:98-110 | a panel dropped into the centre of another becomes the last tab of it, and the one that is shown |
| TabMoves.TearOffTakesShown | src/lib/panelGrid.ts:115-156 | tearing off takes the tab that the panel shows, wherever it stands, and puts it beside as a panel of its own; the panel keeps its other tabs in order and shows the first of them |
| TabMoves.CloseTabMoves | src/lib/panelGrid.ts:1263-1292 | closing a tab takes exactly that tab out of its panel and changes nothing else; if it was shown the first one left is; closing the only tab closes the panel |
| Resize.ResizeSizes | src/lib/panelGrid.ts:392-426 | the in-place update of the sizes computes the specified neighbour pair and nothing else |
| Resize.ResizedPairLaws | src/lib/panelGrid.ts:413-424 | a splitter conserves the pair's sum and goes where it is dragged as far as both shares can keep the minimum; without room for both the right one has it |
| Resize.ResizedSplitConserves | src/lib/panelGrid.ts:392-426 | for any index and delta the sum of the sizes is kept, the pair at the index gets exactly the shares above, and all other sizes stay |
| Resize.ResizeIsReplace | src/lib/panelGrid.ts:392-426 | resizing replaces one split and keeps the panels, their order and well-formedness |
| PanelGrid.InvIdsUnique | src/lib/panelGrid.ts:72-83 | the invariant means that panel ids are unique over tree, hidden, stashed and closed together |
| PanelGrid.CloseConserves | src/lib/panelGrid.ts:446-470 | closing moves a panel to history: the invariant and the multiset of all panels are kept |
| PanelGrid.CloseHiddenConserves | src/lib/panelGrid.ts:612-623 | the same for closing a hidden panel |
| PanelGrid.RemoveFromGridTakesOne | src/lib/panelGrid.ts:461-470 | removing from the grid keeps the invariant, takes exactly that panel out of all panels and changes nothing outside the tree and the focus |
| PanelGrid.DeleteTakesOne | src/lib/panelGrid.ts:680-685 | deleting from history keeps the invariant, takes exactly that panel out of all panels and changes nothing else |
| PanelGrid.HideConserves | src/lib/panelGrid.ts:473-484 | the same for hiding |
| PanelGrid.ReopenHiddenConserves | src/lib/panelGrid.ts:626-634 | the same for reopening as hidden |
| PanelGrid.ReplaceFocusedConserves | src/lib/panelGrid.ts:488-513 | the same for swapping a hidden panel into the focused place |
| PanelGrid.LinkConserves | src/lib/panelGrid.ts:573-588 | the same for linking a hidden panel beside a visible one |
| PanelGrid.SplitHiddenConserves | src/lib/panelGrid.ts:591-609 | the same for splitting a hidden panel in, given a live or absent focus |
| PanelGrid.InsertPanelExactly | src/lib/panelGrid.ts:998-1039 | insertion succeeds exactly for an id new to tree, hidden and history and a drop beside a panel or into an empty grid; then that panel is all that is added |
| PanelGrid.InsertPanelInvariant | src/lib/panelGrid.ts:1009-1039 | a successful insertion keeps the invariant exactly when the id is not empty and not the id of a stashed panel |
| PanelGrid.InsertCanRepeatStashed | src/lib/panelGrid.ts:1009-1016 | there is a valid grid on which inserting a panel with the id of a stashed one succeeds and breaks the invariant |
| PanelGrid.ReopenExactly | src/lib/panelGrid.ts:652-676 | reopening succeeds exactly when the panel is in history, focuses it, and only moves it |
| GridMoves.HideMoves | src/lib/panelGrid.ts:473-484 | a visible panel leaves the tree and comes in front of the hidden ones, the first panel left gets the focus, and stashed groups and history stay; for any other id nothing happens |
| GridMoves.CloseMoves | src/lib/panelGrid.ts:446-458 | a visible panel leaves the tree and comes in front of the history, the first panel left gets the focus, and the other regions stay |
| GridMoves.CloseHiddenMoves | src/lib/panelGrid.ts:612-623 | a hidden panel comes in front of the history; the tree, the focus and the stashed groups stay |
| GridMoves.ReopenHiddenMoves | src/lib/panelGrid.ts:626-634 | a closed panel comes in front of the hidden ones; the tree, the focus and the stashed groups stay |
| GridMoves.RemoveMoves | src/lib/panelGrid.ts:461-470 | a visible panel leaves the tree, the first panel left gets the focus, and all other regions stay |
| GridMoves.DeleteMoves | src/lib/panelGrid.ts:680-685 | one panel is taken out of the history, the others keep their order, and nothing else changes |
| GridMoves.ReplaceFocusedMoves | src/lib/panelGrid.ts:488-513 | a hidden panel takes the place of the focused one in the same splits with the same sizes and gets the focus; the other comes in front of the hidden ones |
| GridMoves.LinkMoves | src/lib/panelGrid.ts:573-588 | a hidden panel leaves the hidden ones, stands beside the target on the asked side and gets the focus; stashed groups and history stay |
| GridMoves.SplitHiddenMoves | src/lib/panelGrid.ts:591-609 | splitting in is linking to the right of the focused panel or below it; in an empty grid the panel is shown alone |
| GridMoves.InsertMoves | src/lib/panelGrid.ts:998-1039 | an accepted panel stands beside the requested one, or beside the first one if that is not visible, and gets the focus; all other regions stay |
| GridMoves.ReopenMoves | src/lib/panelGrid.ts:652-676 | a closed panel leaves the history, stands to the right of the focused one and gets the focus; hidden panels and stashed groups stay |
| GridMoves.ActivateMoves | src/lib/panelGrid.ts:518-570 | activating a stashed or hidden panel shows its group or the panel alone, puts the tree in front of the stashed groups or a single panel in front of the hidden ones, and leaves the history and the order of the others |
| GridRuns.ActivateKeepsGroups | src/lib/panelGrid.ts:518-570 | activation keeps the multiset of multi-panel trees, the multiset of solo panels, and the invariant |
| GridRuns.ActivateShows | src/lib/panelGrid.ts:542-570 | a panel ends up visible exactly when it was visible, stashed or hidden, and is then focused |
| GridRuns.ActivateAndReturn | src/lib/panelGrid.ts:542-570 | activating anything and then any panel of the previous tree restores that tree exactly, splits and sizes included |
| GridRuns.StepIsSafe | src/lib/panelGrid.ts:446-676 | every region operation, with any arguments, keeps the invariant and the multiset of panels |
| GridRuns.RunIsSafe | src/lib/panelGrid.ts:446-676 | so does every sequence of them |
| TabOps.TearOffConserves | src/lib/panelGrid.ts:115-156 | tearing off conserves the multiset of tab contents and adds exactly one leaf under the new id (none in the centre), also when the source collapses to one tab |
| TabOps.RemoveTabInvariant | src/lib/panelGrid.ts:1263-1292 | closing a tab keeps the invariant exactly when the panel does not collapse under a new id, or is not the active one and that id is new |
| TabOps.RemoveTabCanStrandFocus | src/lib/panelGrid.ts:1274-1282 | there is a valid grid on which closing a tab breaks the invariant |
| DragReorder.ResolveDragIndex | src/lib/panelGrid.ts:1143-1171 | the loops compute the specified target index |
| DragReorder.DragIndexInBounds | src/lib/panelGrid.ts:1143-1171 | the index names a panel exactly when the initial one does, on the side of the drag |
| DragReorder.DragDistanceExactly | src/lib/panelGrid.ts:1129-1141 | the dragged panel follows the pointer as far as it stays between the outer edges of the split, and nothing is offset before it has moved |
| DragReorder.DragIndexMonotone | src/lib/panelGrid.ts:1129-1171 | dragging further never moves the target index back |
| DragReorder.DragIndexExactly | src/lib/panelGrid.ts:1143-1171 | with panels end to end, a panel is passed exactly when the dragged edge is past its middle |
| DragReorder.DragCoherence | src/lib/panelGrid.ts:1175-1201 | every other panel is drawn where the drop will put it: start plus offset is its start in the committed order |
| GridNormalize.Normalizer.ValidateNode | src/lib/panelGrid.ts:795-855 | one node visit returns the specified node and leaves the specified seen ids and diagnostics |
| GridNormalize.Normalizer.ValidateChildren | src/lib/panelGrid.ts:828-830 | the children loop, with the ids seen by earlier siblings |
| GridNormalize.Normalizer.AdmitPanels | src/lib/panelGrid.ts:871-930 | the loops over hidden and closed panels, with quarantine of malformed and repeated ones |
| GridNormalize.Normalizer.AdmitGroups | src/lib/panelGrid.ts:892-907 | the loop over stashed groups, which demotes a group of one to a hidden panel |
| GridNormalize.NormalizePanelGridState | src/lib/panelGrid.ts:860-953 | the whole normalizer is its specification function |
| GridRestore.NodeSpecKeeps | src/lib/panelGrid.ts:795-855 | a tree is restored with the first occurrence of each offered panel, in order, and every id it marks as seen is shown |
| GridRestore.NormalizeKeepsFirsts | src/lib/panelGrid.ts:860-953 | from any object, the state holds exactly the first occurrences of each id in the order root, hidden, stashed, closed |
| RestoredRegions.RestoredExactly | src/lib/panelGrid.ts:860-953 | every region of a restored grid: of the saved trees, the list or else the single one, those that still add several panels are the stashed groups, in order, and those that add one follow the hidden panels |
| RestoredRegions.StashedRootRestored | src/lib/panelGrid.ts:893-907 | without a list of stashed groups the single stashed tree is restored: as a group of its new panels, as a hidden panel if it adds one, or not at all |
| RestoredRegions.StashedRootIgnored | src/lib/panelGrid.ts:893-897 | where there is a list of stashed groups, a single stashed tree makes no difference |
| RestoredRegions.ActiveRestored | src/lib/panelGrid.ts:932-947 | the saved focus is kept where it is on screen; otherwise the first visible panel has it |
| RestoredRegions.TabRestored | src/lib/panelGrid.ts:776-790 | a value is usable as a tab exactly when it has a name, one of the five kinds and a title; every other field is taken where it has its type |
| RestoredRegions.TabsRestored | src/lib/panelGrid.ts:764-766 | of the values of a list exactly the unusable ones are left out |
| RestoredRegions.PanelRestored | src/lib/panelGrid.ts:747-772 | the same for panels, with the usable tabs where there are several, of which the named one or else the first is shown |
| RestoredRegions.SizesTakenExactly | src/lib/panelGrid.ts:836-846 | saved sizes are taken exactly when there is one for each child that is left, none is below 0.1 and they sum to 1 within 0.02 |
| RestoreReports.ReportedExactly | src/lib/panelGrid.ts:860-953 | every panel left out for its id is reported, in order, as is every unusable hidden or closed one and a focus that is not on screen; and a grid counts as repaired exactly when something is reported |
| GridRestore.NormalizeEstablishes | src/lib/panelGrid.ts:860-953 | any JSON value becomes a state in normal form: the grid invariant, usable sizes, canonical panels |
| GridRestore.SizesOkSums | src/lib/panelGrid.ts:833-851 | in normal form every split's sizes sum to 1 within the tolerance |
| GridSave.SaveThenRestore | src/lib/panelGrid.ts:690-718 | restoring a saved normal form gives the same state, and reports a repair exactly when the grid is empty or an equal share lies below the minimum |
| GridSave.RestoreIsIdempotent | src/lib/panelGrid.ts:860-953 | restoring is idempotent on states, whatever value it started from |
| Workspace.UniqueLeavesMeaning | src/lib/workspaceState.ts:169-190 | unique leaves are a list of leaves without repetition |
| Workspace.ResizeExactly | src/lib/workspaceState.ts:934-984 | a drag changes at most one ratio: that of the outermost split with the surface in its first subtree, by the clamped share of the drag |
| Workspace.WithRatioKeeps | src/lib/workspaceState.ts:964-984 | changing one ratio keeps all leaves |
| WorkspaceRuns.ReplaceKeepsExactly | src/lib/workspaceState.ts:782-799 | replacing the focused surface keeps the invariant exactly when the newcomer is not visible, or is the focused one, or nothing changes |
| WorkspaceRuns.SplitKeepsExactly | src/lib/workspaceState.ts:803-822 | splitting a surface in keeps the invariant exactly when it is not visible already, or nothing changes |
| WorkspaceRuns.RemoveUndoesSplit | src/lib/workspaceState.ts:897-930 | removing a surface that was just split in gives back exactly the old tree |
| WorkspaceRuns.RemoveUndoesSplitFocused | src/lib/workspaceState.ts:803-836 | for whole states: a hidden surface split in and removed again leaves everything as it was, except that it counts as focused now and that the focus is on the first leaf (a leaf with the empty id is no anchor, and then nothing changes at all) |
| WorkspaceMoves.FocusMoves | src/lib/workspaceState.ts:763-776 | a visible surface gets the focus and the time of it; nothing else about any surface changes |
| WorkspaceMoves.ReplaceMoves | src/lib/workspaceState.ts:782-799 | an active surface gets exactly the box of the focused one, which stays active, and the focus; all other boxes and the history stay |
| WorkspaceMoves.SplitMoves | src/lib/workspaceState.ts:803-821 | an active surface gets half of the focused one's box, behind it along the asked axis, and the focus; all other boxes and the history stay |
| WorkspaceMoves.RemoveMoves | src/lib/workspaceState.ts:825-834 | a visible surface leaves the screen and stays active; the focus stays if it was elsewhere and is the first surface otherwise |
| WorkspaceMoves.CloseMoves | src/lib/workspaceState.ts:839-855 | an active surface leaves the screen and the registry and comes in front of the history with the time, and the first surface left gets the focus |
| WorkspaceMoves.ReopenMoves | src/lib/workspaceState.ts:860-872 | a closed surface leaves the history and is active again as it was; screen and focus stay |
| WorkspaceMoves.DeleteMoves | src/lib/workspaceState.ts:876-879 | one entry is taken out of the history, the others keep their order, and nothing else changes |
| WorkspaceRuns.CreateKeeps | src/lib/workspaceState.ts:739-760 | creating keeps the invariant; the new surface has the stated fields and is not on screen, and nothing else changes |
| WorkspaceRuns.FocusKeeps | src/lib/workspaceState.ts:763-777 | focusing keeps the invariant, the tree, the history and which surfaces there are, and focuses a surface that is active and visible |
| WorkspaceRuns.RemoveKeeps | src/lib/workspaceState.ts:825-836 | removing from the layout keeps the invariant |
| WorkspaceRuns.CloseKeeps | src/lib/workspaceState.ts:839-857 | closing keeps the invariant |
| WorkspaceRuns.ReopenKeeps | src/lib/workspaceState.ts:860-873 | reopening keeps the invariant |
| WorkspaceRuns.DeleteKeeps | src/lib/workspaceState.ts:876-880 | deleting from history keeps the invariant |
| WorkspaceRuns.ResizeKeeps | src/lib/workspaceState.ts:934-946 | resizing by pixels keeps the invariant |
| WorkspaceRuns.StepKeeps | src/lib/workspaceState.ts:739-946 | every allowed operation keeps the invariant |
| WorkspaceRuns.RunKeeps | src/lib/workspaceState.ts:739-946 | so does every allowed run |
| WorkspaceRuns.StepKnows | src/lib/workspaceState.ts:739-880 | only creating and deleting change which surfaces exist, and nothing else changes a surface's identity |
| WorkspaceRuns.RunKnows | src/lib/workspaceState.ts:739-880 | over any run without them every surface is still there and the same |
| WorkspaceNormalize.Normalizer.AdmitActive | src/lib/workspaceState.ts:324-335 | the loop over the saved registry |
| WorkspaceNormalize.Normalizer.ValidateTreeNode | src/lib/workspaceState.ts:241-296 | one tree visit returns the specified tree and leaves the specified seen surfaces |
| WorkspaceNormalize.Normalizer.AdmitHistory | src/lib/workspaceState.ts:341-365 | the loop over the saved history |
| WorkspaceNormalize.NormalizeWorkspaceState | src/lib/workspaceState.ts:307-378 | the whole normalizer is its specification function |
| WorkspaceNormalize.TreeSpecKeeps | src/lib/workspaceState.ts:241-296 | the restored tree shows exactly the first mention of each active surface the value names, with ratios in [0.009, 0.991] |
| WorkspaceNormalize.NormalizeEstablishes | src/lib/workspaceState.ts:307-410 | any JSON value becomes a valid state that keeps every usable surface on its side |
| RestoredSurfaces.RecordRestored | src/lib/workspaceState.ts:205-239 | a value is usable as a surface exactly when it has one of the three kinds and a resource; every other field is taken where it has its type |
| RestoredSurfaces.ClosedRestored | src/lib/workspaceState.ts:336-359 | the same for entries of the history, with the time of closing |
| RestoredSurfaces.RatioRestored | src/lib/workspaceState.ts:285-291 | a ratio that is out of [0.01, 0.99] by more than 0.001 becomes the nearest bound, a missing one a half, and any other is kept |
| RestoredSurfaces.RestoredExactly | src/lib/workspaceState.ts:307-410 | of several active records under one id the last wins, of several closed ones the first; the order of the history is kept; and the saved focus is kept where it is on screen, otherwise the first surface has it |
| WorkspaceNormalize.SaveThenRestore | src/lib/workspaceState.ts:415-440 | restoring a saved state in normal form gives it back without its stashed groups, so the same state exactly when there are none, whatever order the registry is enumerated in |
| WorkspaceNormalize.StashedGroupsAreLost | src/lib/workspaceState.ts:366-378 | there is a state in normal form that saving and restoring does not give back |
| WorkspaceNormalize.RestoreIsIdempotent | src/lib/workspaceState.ts:307-378 | restoring is idempotent on states |
| Geometry.ComputeLeafSizes | src/lib/layoutCapacity.ts:59-82 | the recursive walk fills the map with the boxes of the tree |
| Geometry.LeafSizesAreBoxes | src/lib/layoutCapacity.ts:59-82 | the map holds every leaf's own box when no surface has two leaves |
| Geometry.AreaConserved | src/lib/layoutCapacity.ts:59-82 | the leaf areas sum to width times height, whatever the ratios |
| Geometry.GeometryPreservedExactly | src/lib/workspaceBridge.ts:112-145 | the right fold of an N-ary tree gives every leaf exactly its N-ary width and height if and only if no share falls outside the clamp's band |
| Geometry.ProportionedInBand | src/lib/panelGrid.ts:85 | sizes of at least the minimum share that sum to 1 never meet a clamp at that share |
| Geometry.EqualPanelsPreserved | src/lib/panelGrid.ts:236-245 | the geometry of k equal panels survives the clamp exactly while k times the lower bound is at most 1 |
| RestoredGeometry.NaryBoxesFollowPanels | src/lib/panelGrid.ts:196-200 | the boxes of a grid are its panels' boxes in on-screen order |
| RestoredGeometry.ProportionedSizesAreKept | src/lib/workspaceBridge.ts:112-145 | a grid whose shares are at least the minimum and sum to 1 in every split is bridged so that the map of leaf sizes holds every panel's exact width and height |
| RestoredGeometry.BridgedSizesExactly | src/lib/workspaceBridge.ts:112-145 | for any grid with positive sizes that map holds every panel's exact size if and only if no share falls out of [0.1, 0.9] |
| RestoredGeometry.RestoredIsPositive | src/lib/panelGrid.ts:833-851 | the sizes of a restored grid are positive |
| RestoredGeometry.FirstDecides | src/lib/workspaceBridge.ts:136 | of accepted sizes only the first can meet the bridge's clamp, and only when they sum to more than 1 |
| RestoredGeometry.RestoredInBandExactly | src/lib/panelGrid.ts:833-851 | a restored grid lies in the bridge's band exactly when in every split the sizes leave the first share in it; more than ten equal shares never do |
| RestoredGeometry.RestoredSizesExactly | src/lib/workspaceBridge.ts:112-145 | hence a restored grid is bridged with every panel in its exact size if and only if its saved sizes fit in that way |
| RestoredGeometry.AcceptedButClamped | src/lib/workspaceBridge.ts:136 | the sizes 0.1 and 0.92 are accepted on restore and clamped by the bridge |
| RestoredGeometry.ElevenPanels | src/lib/workspaceBridge.ts:112-145 | eleven equal panels: the bridge does not keep their sizes, the migration does, and the trees differ |
| Geometry.PixelMinimumsHold | src/lib/layoutCapacity.ts:158-172 | both children get their pixel minimum whenever some allowed ratio gives it, and no ratio that does is closer to the asked one |
| Geometry.PixelMinimumsMissed | src/lib/layoutCapacity.ts:158-172 | without room for both minimums the two children fall short by the same number of pixels, unless that takes one of them out of the band |
| LegacyFold.CombineLaws | src/lib/workspaceState.ts:656-683 | folding the kept children keeps their leaves in order, ratios in the band, and a visible focus |
| LegacyFold.CombineIsPlain | src/lib/workspaceBridge.ts:112-145 | when no child is dropped, the fold is the plain right fold of the split, up to node ids |
| LegacyFold.WiderBandAgrees | src/lib/workspaceState.ts:675 | inside the narrower band the two clamps are the same function |
| Migration.Migrator.ConvertNode | src/lib/workspaceState.ts:632-686 | one node conversion returns the specified part and leaves the specified registry and stamp |
| Migration.Migrator.ConvertChildren | src/lib/workspaceState.ts:656-658 | the children in order, each seeing what the earlier ones registered |
| Migration.Migrator.ConvertClosed | src/lib/workspaceState.ts:571-597 | the loop over closed panels |
| Migration.MigrateFromPanelGrid | src/lib/workspaceState.ts:549-618 | the whole migration is its specification function |
| Migration.NodeConverted | src/lib/workspaceState.ts:632-686 | converting a tree only adds to the registry, only what the tree offers, and gives new, distinct, registered leaves |
| Migration.ClosedLaws | src/lib/workspaceState.ts:571-597 | every surface tab of every closed panel ends on exactly one side, active or history |
| Migration.MigrateEstablishes | src/lib/workspaceState.ts:549-618 | any legacy grid migrates to a valid state with ratios in [0.01, 0.99], inventing no surface |
| Migration.MigrateKeepsEveryTab | src/lib/workspaceState.ts:549-618 | with distinct tab ids every chat, omp and terminal tab of tree and history lands in exactly one of active and history |
| MigrationRecords.EveryTabMigrated | src/lib/workspaceState.ts:522-618 | with distinct tab ids every surface tab of the tree is active with the stated record; the tabs by which closed panels are shown are the history, in the order of the panels; and their other tabs are active |
| MigrationRecords.ShownTab | src/lib/workspaceState.ts:487-517 | a restored panel is shown by the tab it shows, if that is a surface, and otherwise by the first of its tabs that is |
| MigrationRecords.MigrationFocus | src/lib/workspaceState.ts:632-686 | the migrated grid focuses the tab by which the active panel is shown, and the first surface if there is none |
| MigrationRecords.MigratedTimesDiffer | src/lib/workspaceState.ts:522-541 | no two migrated surfaces have the same times |
| Bridge.Converter.ConvertLeaf | src/lib/workspaceBridge.ts:78-110 | one leaf conversion, with the other tabs registered first |
| Bridge.Converter.ConvertNode | src/lib/workspaceBridge.ts:71-145 | one node conversion returns the specified part and leaves the specified registry |
| Bridge.Converter.ConvertHidden | src/lib/workspaceBridge.ts:160-165 | the loop over hidden panels |
| Bridge.Converter.ConvertStashed | src/lib/workspaceBridge.ts:170-174 | the loop over stashed groups |
| Bridge.PanelGridToWorkspaceState | src/lib/workspaceBridge.ts:149-191 | the whole bridge is its specification function |
| Bridge.SurfaceIdToPanelId | src/lib/workspaceBridge.ts:195-209 | the search loop finds the first panel that shows the surface |
| BridgeLaws.BridgeEstablishes | src/lib/workspaceBridge.ts:149-191 | whatever the grid: leaves of all trees together are distinct and registered, nothing is invented, keys are ids, the focus is visible, ratios lie in [0.1, 0.9]; the history holds exactly the surfaces of the closed panels, without repeats exactly when they are distinct |
| BridgeLaws.BridgedInvExactly | src/lib/workspaceBridge.ts:149-191 | a bridged state satisfies the workspace invariant exactly when the closed panels show distinct surfaces that are not active and something is focused if anything is visible |
| BridgeLaws.BridgedInvCanFail | src/lib/workspaceBridge.ts:176-181 | there is a valid grid whose bridged state breaks the workspace invariant |
| BridgeLaws.BridgedInvOfDistinct | src/lib/workspaceBridge.ts:149-191 | for a valid grid whose live panels show surfaces under distinct ids: exactly when live and closed ones are distinct together |
| BridgeLaws.BridgeExactly | src/lib/workspaceBridge.ts:149-191 | when every live panel shows a surface and tab ids are distinct: every tree shows its panels in on-screen order, the registry holds exactly the offered surfaces, and the focus follows the focused panel |
| BridgeLaws.BridgePreservesGeometryExactly | src/lib/workspaceBridge.ts:112-145 | then the bridged tree gives every panel its size in the grid if and only if no share falls out of [0.1, 0.9] |
| BridgeLaws.NodeFocus | src/lib/workspaceBridge.ts:106-145 | the focus of a converted tree is the surface of the focused panel |
| MigrationRecords.BridgeFocus | src/lib/workspaceBridge.ts:71-145 | whatever panels show no surface, the bridged grid focuses the tab that the active panel shows, and nothing if that is no surface |
| BridgeRecords.TreePanelsRecorded | src/lib/workspaceBridge.ts:45-110 | with distinct tab ids, every panel of every tree is registered with the record of the tab it shows, and each of its other surface tabs with its own id, kind, resource, title and creation time, focused now |
| BridgeRecords.HiddenPanelsRecorded | src/lib/workspaceBridge.ts:160-164 | every hidden panel that shows a surface is registered with the record of the tab it shows |
| BridgeRecords.HistoryRecorded | src/lib/workspaceBridge.ts:176-181 | the history is the records of the surfaces that the closed panels show, in their order, closed now |
| BridgedNames.BridgedLeafNames | src/lib/workspaceBridge.ts:71-110 | every leaf of a bridged tree is named after its panel, in on-screen order, so names last from call to call |
| BridgeLaws.SurfaceLeadsBack | src/lib/workspaceBridge.ts:195-209 | where the live panels show distinct tabs, every visible, hidden or stashed panel, of whatever kind, is found again from the tab it shows |
| ConvertersAgree.PanelsAgree | src/lib/workspaceState.ts:487-517 | on a restored panel both translations show the same tab and register the same ids |
| ConvertersAgree.RecordsAgreeExactly | src/lib/workspaceBridge.ts:45-69 | the bridged record of a shown tab: its id, kind, project, title, resource and times; the migrated one agrees on id, kind and project, on resource and title exactly under stated conditions on the tab, and takes its times from the migration's clock |
| ConvertersAgree.RecordsCanDiffer | src/lib/workspaceState.ts:522-541 | there is a restored panel for whose tab the two records differ in title and resource |
| ConvertersAgree.ConvertersAgreeExactly | src/lib/workspaceState.ts:656-683 | on grids of canonical panels with positive sizes both translations have the same leaves in order, and the same shape, directions and ratios if and only if no share falls out of the bridge's band |
| RestoredGeometry.RestoredConvertersAgree | src/lib/workspaceState.ts:656-683 | on restored grids with distinct tab ids both translations have the same leaves in order, and the same shape, directions and ratios if and only if the saved sizes fit the bridge |
| PrunedTrees.PruneFlatten | src/lib/workspaceBridge.ts:112-127 | the pruned tree shows exactly the panels that a translation shows, in on-screen order |
| PrunedTrees.PruneNothing | src/lib/workspaceBridge.ts:112-127 | where every panel is shown nothing is pruned |
| PrunedTrees.CombineIsPruned | src/lib/workspaceBridge.ts:112-145 | a conversion drops the empty children, is the only child that is left, or folds the ones that are left, with the saved shares if none was dropped and equal ones otherwise |
| PrunedTrees.NodePruned | src/lib/workspaceBridge.ts:71-145 | whatever panels show no surface: with distinct tab ids the bridged tree is, up to node ids, the fold of the pruned one in [0.1, 0.9] |
| PrunedTrees.NodeMigrated | src/lib/workspaceState.ts:632-686 | the same for the migration, which shows every panel with a surface among its tabs, in [0.01, 0.99] |
| PrunedTrees.PrunedSizesExactly | src/lib/workspaceBridge.ts:112-145 | the map of leaf sizes gives every panel that is left exactly its size in the pruned grid if and only if no share of that falls out of [0.1, 0.9] |
| PrunedTrees.PrunedAgreeExactly | src/lib/workspaceState.ts:632-686 | on grids of canonical panels with distinct surface tabs the two translations give the same tree up to node ids, or both none, if and only if every panel with a surface among its tabs shows one and no share of the pruned tree falls out of the bridge's band |
| Sidebar.BuildSidebarUnits | src/lib/sidebarLayout.ts:48-104 | the loops over trees, groups and registry compute the specified units |
| SidebarLaws.SidebarPartitions | src/lib/sidebarLayout.ts:48-80 | every active surface is in exactly one unit exactly once, even where groups overlap or dangle; a unit is a group exactly when it holds several |
| SidebarOrder.MembersKeepTreeOrder | src/lib/sidebarLayout.ts:52-74 | the groups are exactly the trees with several active leaves that no earlier tree has, and hold those in the order of the leaves; only the visible tree's unit is flagged as visible |
| SidebarOrder.MembersNotByRecency | src/lib/sidebarLayout.ts:26 | there is a unit whose first member was used before its second |
| SidebarLaws.SidebarSorted | src/lib/sidebarLayout.ts:99-102 | units come most recent first, equally recent ones earliest created first |
| SidebarLaws.UnitRecency | src/lib/sidebarLayout.ts:94 | what a unit is sorted by is the latest focus time of its own members, or 0 |
| SidebarLaws.RecencyIsMaximum | src/lib/sidebarLayout.ts:94 | recency is the latest focus time of the members, or 0 |
| SidebarLaws.EarliestIsMinimum | src/lib/sidebarLayout.ts:42-44 | the earliest creation is attained and below all others |
| SidebarLaws.SidebarColours | src/lib/sidebarLayout.ts:80-97 | with k groups each of the colours 0 to k - 1 belongs to exactly one group, solos have -1, and colours follow creation |
| SidebarLaws.ColoursIgnoreRecency | src/lib/sidebarLayout.ts:80-97 | when only focus times change, every unit keeps its members and its colour |
| StableSort.SortSorted | src/lib/sidebarLayout.ts:83-86 | the sort orders the list by any strict weak order |
| StableSort.SortStable | src/lib/sidebarLayout.ts:99-102 | and keeps the order of elements that tie |
| StableSort.SortTotal | src/lib/sidebarLayout.ts:99-102 | and changes no total over the list and no membership |
| MarkdownInline.TokenAt | src/lib/markdown.ts:230-301 | every token advances within the text, and the body of bold or italic is shorter than the text |
| MarkdownInline.ParseInline | src/lib/markdown.ts:217-309 | the loop with its buffer terminates, through bold and italic recursion, with the specified nodes |
| MarkdownInline.InlineSpellsSource | src/lib/markdown.ts:217-309 | with their marks put back the nodes are the source text, at every depth |
| MarkdownInline.VisibleTextIsSubsequence | src/lib/markdown.ts:217-309 | the visible text is the source with some characters left out, in order |
| MarkdownInline.ParsedLinksAllowed | src/lib/markdown.ts:266-284 | every link at any depth has an allowed url |
| MarkdownInline.AllowedExactly | src/lib/markdown.ts:311-316 | which urls are allowed, by the first of the characters `:`, `/`, `?` and `#`: all in which that is not a colon, and http and https ones in any case |
| MarkdownInline.EmphasisParses | src/lib/markdown.ts:209-212 | a text between two marks comes back as one bold or italic node |
| MarkdownInline.CodeParses | src/lib/markdown.ts:208 | a text between backticks comes back as code |
| MarkdownInline.LinkParses | src/lib/markdown.ts:213 | a label and a url come back as a link if the url is allowed, and start no link if not |
| MarkdownTokens.CodeSpanExactly | src/lib/markdown.ts:208 | code begins with as many of the ticks as some later run has exactly, ends at the first such run, and there is none exactly if no number of the ticks is closed |
| MarkdownTokens.EmphasisExactly | src/lib/markdown.ts:209-212 | bold and italic begin exactly where the marks enclose a text without their character and no such character follows |
| MarkdownTokens.LinkExactly | src/lib/markdown.ts:213 | a link begins exactly where there are a label in brackets and an address in parentheses without white space |
| MarkdownTokens.TagExactly | src/lib/markdown.ts:214 | a tag begins exactly at `<` before a letter, perhaps after `/`, and reaches to the next `>` |
| MarkdownTokens.TokenExactly | src/lib/markdown.ts:230-301 | no two tokens begin at the same place: whichever matches is the token, and the one character is if none does |
| MarkdownBlocks.ReadFence | src/lib/markdown.ts:41-62 | the fence loop reads to the closing line or the end |
| MarkdownBlocks.TryParseTable | src/lib/markdown.ts:172-203 | a table is taken exactly when header and separator have the same number of cells |
| MarkdownBlocks.ReadItems | src/lib/markdown.ts:101-143 | the list loops compute the specified items |
| MarkdownBlocks.Iterate | src/lib/markdown.ts:31-162 | one iteration of the outer loop adds the specified block and moves to the specified line |
| MarkdownBlocks.ParseMarkdown | src/lib/markdown.ts:26-166 | the whole loop returns the specified blocks whenever it ends |
| MarkdownLaws.StepAdvancesExactly | src/lib/markdown.ts:42-161 | an iteration advances unless it begins at a fence or heading line with a line end inside it that starts no table |
| MarkdownModes.StepBlock | src/lib/markdown.ts:31-162 | an iteration that advances goes over exactly the lines that the reading line by line takes for one block: what is open in front of each, what goes on with it, and that the next line does not |
| MarkdownModes.EndsExactly | src/lib/markdown.ts:31-162 | the parser ends exactly when every fence or heading line with a line end inside it is, in that reading, content of a fence, the separator or a row of a table, or starts a table |
| MarkdownModes.EndsExactlyWithoutFences | src/lib/markdown.ts:31-162 | where no line opens a fence and none starts a table: exactly when there is no such line |
| MarkdownLaws.PlainLinesParse | src/lib/markdown.ts:31-162 | it ends on all lines without carriage returns and Unicode line ends |
| MarkdownRoundTrips.CarriageReturnJams | src/lib/markdown.ts:72 | a heading line of any level saved with a carriage return is never done, unless its text is blank |
| MarkdownLaws.StreamingStable | src/lib/markdown.ts:26-166 | however lines go on, every block but the last stays as it is |
| MarkdownLaws.TextStreamingStable | src/lib/markdown.ts:26-28 | the same for texts that go on after a newline |
| MarkdownStreaming.StableFrom | src/lib/markdown.ts:3-4 | unless the unfinished line can go back into the block it ends, every block in front of the last one stays, however the line and the text go on |
| MarkdownMidLine.SettledExactly | src/lib/markdown.ts:3-4 | and exactly then: otherwise there is a way to go on that changes such a block |
| MarkdownMidLine.TextSettledExactly | src/lib/markdown.ts:3-4 | the same for every text and whatever is appended to it |
| MarkdownLaws.MidLineUnstable | src/lib/markdown.ts:64-69 | a text whose last line is a rule under a paragraph loses that paragraph when the line goes on |
| MarkdownLines.SeparatorGrows | src/lib/markdown.ts:92 | a line that can become the separator of a row holds only separator characters and not more cells than the row |
| MarkdownLaws.ResultShaped | src/lib/markdown.ts:172-203 | every table is rectangular, heading levels are 1 to 6, lists are not empty, and all links in all blocks are allowed |
| MarkdownLaws.FenceReachesItsClose | src/lib/markdown.ts:41-62 | a fence reaches to the first line that closes it, or to the end, and shows what is between as it is |
| MarkdownContinuations.ListShowsItemLines | src/lib/markdown.ts:101-143 | what a list shows is what its item lines say, in order, whatever stands between them |
| MarkdownContinuations.ContinuationTextIsLost | src/lib/markdown.ts:104-118 | in any document, a line that goes on with a list item can be replaced by any other such line without changing the result, as long as that makes no table of the line above |
| MarkdownContinuations.LostExactly | src/lib/markdown.ts:104-118 | an indented line is lost exactly when a list is open in front of it or it separates a table; elsewhere some other indented line in its place gives another result |
| MarkdownWords.WordStaysVisible | src/lib/markdown.ts:217-309 | a word without marks and white space that follows a space stands in the visible text, whatever marks there are around it |
| MarkdownRoundTrips.FenceRoundTrip | src/lib/markdown.ts:41-62 | lines inside a fence come back verbatim, with the language |
| MarkdownRoundTrips.HeadingRoundTrip | src/lib/markdown.ts:71-78 | a written heading is read with its level and text |
| MarkdownRoundTrips.QuoteRoundTrip | src/lib/markdown.ts:80-89 | quoted lines are read as one quote of their texts |
| MarkdownLists.ListRoundTrip | src/lib/markdown.ts:101-143 | items of either kind, each with its own marker and up to three white characters in front of it, are read as one list of their texts |
| MarkdownLists.ItemExactly | src/lib/markdown.ts:101-126 | which lines are items and with which text: at most three white characters, a number with a dot or bracket or one of the three bullets, white space, and the text |
| MarkdownRoundTrips.RowRoundTrip | src/lib/markdown.ts:180-183 | splitting a written row gives its cells back |
| MarkdownRoundTrips.RowSplits | src/lib/markdown.ts:180-183 | between outer bars the cells are the texts between the bars without the white space around them |
| MarkdownRoundTrips.BareRowRoundTrip | src/lib/markdown.ts:180-183 | the outer bars may be missing where the outer cells are not empty |
| MarkdownRoundTrips.TableRoundTrip | src/lib/markdown.ts:172-203 | a written table is read as one table with its headers and its rows, longer ones cut and shorter ones filled up behind |
| MarkdownShapes.FenceExactly | src/lib/markdown.ts:42-46 | which lines open a fence, with how many of which mark and which language |
| MarkdownShapes.CloseExactly | src/lib/markdown.ts:50-56 | which lines close it: at least as many backticks and tildes, in any mixture that begins with its own mark |
| MarkdownShapes.RuleExactly | src/lib/markdown.ts:64-69 | which lines are rules |
| MarkdownShapes.HeadingExactly | src/lib/markdown.ts:71-78 | which lines are headings, of which level and with which text |
| MarkdownShapes.QuoteExactly | src/lib/markdown.ts:80-89 | which lines are quoted, and with which text |
| MarkdownShapes.ContinuationExactly | src/lib/markdown.ts:107-114 | which lines go on with a list item |
| MarkdownShapes.SeparatorExactly | src/lib/markdown.ts:92 | which lines can separate a table's header from its rows |
| MarkdownShapes.TrimExactly | src/lib/markdown.ts:75 | a trimmed text is what stands between the white space at both ends |
| MarkdownShapes.KindExactly | src/lib/markdown.ts:31-162 | the first line decides the kind of the block: at most one test succeeds on it, and what could begin a table does unless it is a quote, a heading, a rule or a fence |
| SubagentRuns.MergeUpdatesOneRun | src/lib/native-chat.ts:96-127 | one event keeps the runs ordered without repeats and updates exactly the run at its index |
| SubagentRuns.FoldIsPerIndex | src/lib/native-chat.ts:96-127 | after any events each index holds the fold of its own events |
| SubagentRuns.RunExactly | src/lib/native-chat.ts:96-127 | after any events a run has the name, session and status of its own last event, the last result any of them sets, and the last activity and pending approval set since the last final event |
| SubagentRuns.InterleavingsAgree | src/lib/native-chat.ts:96-127 | interleavings with the same events per index, in order, give the same list |
| PromptDelivery.Outbox.DeliverPrompt | src/lib/promptDelivery.ts:51-58 | queues the delivery for its session, or nothing when the action is consumed |
| PromptDelivery.Outbox.ConsumeDelivery | src/lib/promptDelivery.ts:65-71 | hands out what waits for the session, removes it and records its action |
| PromptDelivery.HandedOutOnce | src/lib/promptDelivery.ts:39-71 | from any safe state each action is handed out at most once, and a consumed one never |
| PromptDelivery.AtMostOnceExactly | src/lib/promptDelivery.ts:39-71 | over all runs no action is handed out twice if and only if the permitted deliveries address each action to one session |
| PromptDelivery.RepeatIsNoOpExactly | src/lib/promptDelivery.ts:46-58 | delivering changes nothing exactly when the action is consumed or this very delivery waits already |
| PromptDelivery.RepeatCanReplace | src/lib/promptDelivery.ts:46-58 | a repeated call with the same action id and another text replaces the one that waits |
| PromptDelivery.DeliveryWaits | src/lib/promptDelivery.ts:51-71 | a delivery waits through calls for other sessions, replacing what waited before it |

## Left out

- Rounding and non-finite numbers: numbers are reals, so the branches for values that are not finite are not modelled.
- Diagnostic message texts, the diagnostics of the workspace normalizer and of the migration, and stale-resource reports: they do not influence the state.
- The text of JSON: the model starts from a JSON value; object keys that live on the prototype of JavaScript objects are not modelled.
- Legacy blobs of the wrong shape: the migration casts them without validation, and the model starts from a typed grid.
- `creating` flags, clocks and id generation: parameters or absent.
- UTF-16 code units: text is a sequence of Unicode characters.
- `equalizeSplit`, `reorderTabs`, `setActiveTab`, `addTabToPanel`, `detectOrphanedTabs`: simple updates or reports beside the modelled operations.
- `allLeavesFit`, `canSplit`, `applyCapacityHiding`: checks of minimum sizes and constant answers.
- Syntax highlighting, the rest of the chat client, listeners and React hooks: user interface.
- Back-end commands and services: not part of this model.
- MarkdownBlocks.ParseMarkdown: has a precondition that the loop ends, because the program does not return otherwise; `MarkdownModes.EndsExactly` says when that is.
- LegacyFold.CombineLaws: the fold is a recursion on the list of children, where the program's inner function takes a start and an end index.
