# A verified model of scratchbox2

scratchbox2 runs programs in a simulated environment: a preloaded library maps the paths they
use, simulates ownership and permissions, and rewrites what they execute. This project models
the parts of it that carry the most state and proves what they are for. Nothing here runs the
original program.

**The rule tree and the permission database.** `RuleTreeStore` and `InodeTree` are the
append-only file of objects that refer to each other by offset, and the unbalanced binary tree
of inode records in it. `LockFree` is the same file as a state machine: one writer that appends
and links in single steps, and any number of readers without locks, in any interleaving.
`Catalogs` are the linked lists of named entries. `VpermServer` is the server that executes
SET, RELEASE and CLEAR commands and counts active records; `VpermClient` builds the commands,
decides what a chown sends, and virtualizes stat results behind a guard on that counter;
`StatLaws` says what stat shows after each command.

**The path engine.** `Paths` and `PathStrings` split and print paths. `Rules` selects and
executes mapping rules, and `Translation` says in terms of names which rule is taken and where it
puts a path. `Resolution` is the mutual recursion of path resolution, link expansion
and the cleaning of "..", `PathLists` the doubly linked lists on which cleaning works in place,
`Engine` the resolution loop that carries a mapped host path along and calls itself behind links,
`Namespace` and `Skipping` the places where strings, rules and components meet, and `Shortcut` proves that what the loop
carries is the translation of the whole path so far. `Reference` is an independent definition of
what resolution does: one walk from left to right, as in section 4.13 of POSIX.1-2017 (Base
Definitions), with two switches for what the engine loses at absolute links. `ResolutionTheorem`
and `Soundness` prove that the engine is that walk, `NaturalWalk` compares it with the walk that
loses nothing, `RootNamespace` states the results for strings and host paths, `Iteration` and
`TrailingSlash` have what holds for arbitrary rules, `DotDots` what cleaning comes to, and
`Limits` inputs on which engine and natural walk part.

**Exec.** `ExecVectors` builds argument and environment vectors in storage measured before,
`Environment` follows LD_PRELOAD and LD_LIBRARY_PATH through an exec, and `SimulatedIds` prints
and reads the ids that a program hands on to the next.

## What turned out to be false, and when it holds

- The counter of active records also counts a SET without fields that arrives for an inode
  without a record (`VpermServer.BlankSetMiscounts`). It agrees with the number of active records
  if and only if no inode's first SET is without fields (`VpermServer.CounterIsExactIff`), and no
  SET that chown, chmod or mknod sends is (`VpermClient.ClientsAreCounted`). The guard in stat
  does not depend on that.
- A chmod shows the set-user-id and set-group-id bits that were asked for if and only if they differ
  from the real ones; or the permissions differ, too, and no bit is asked for; or they do not, and
  no other bits are simulated already (`StatLaws.ChmodThenStat`). Setting the bit and taking it away
  again leaves it on show (`StatLaws.SetIdBitSticks`).
- A replacement rule for the root directory joins the replacement and the first name; what it makes
  of the path is right if and only if the replacement ends in a slash
  (`Translation.RootReplacementIff`).
- A value set in a catalog is read back if and only if no proper prefix of its path holds an
  object that is not a catalog (`Catalogs.ReadBackIff`; `Catalogs.ObjectInTheWay`).
- A replacement rule reads behind the end of the prefix it is applied to if and only if its
  selector is the whole path and ends in a slash (`Skipping.ReplacementOverrunsIff`;
  `Skipping.ReplacementOverruns`).
- The bound of 16 link expansions does not cover links whose targets contain "..": a link to its
  own parent exhausts any stack (`Limits.SelfParentLinkDiverges`). Whenever the walk ends, after
  however many expansions, a stack with room for them is not exhausted; up to 16 the engine
  agrees with the walk, with or without ".." (`RootNamespace.ResolutionIsReferenceWalk`), and
  whatever answer it gives is right (`RootNamespace.AnswersAreRight`).
- An absolute link made of slashes only drops the rest of the path (`Limits.RestIsKeptIff`;
  `Limits.BareLinkLosesTheRest`). The answer is then the root directory, which is where a natural
  walk ends if and only if the dropped names lead back there
  (`RootNamespace.ResolutionIsNaturalIff`).
- An absolute link drops the slash at the end of the path, so that a call that leaves final links
  alone may stop at one (`Limits.AbsoluteLinkDropsTheSlash`). It ends where a natural walk ends if
  and only if the name it stops at is no link, not missing and, where that is required, a
  directory (`RootNamespace.ResolutionIsNaturalIff`); for arbitrary rules,
  `TrailingSlash.SlashIsHonouredIff`.
- The argument vector for the emulator is too small if and only if there is no list of emulator
  arguments but a single command, and every optional argument is present
  (`ExecVectors.QemuArgvFitsIff`; `ExecVectors.SingleCommandOverflows`).
- A program sees its parent's LD_PRELOAD if and only if the first and the last setting in the
  parent's environment agree (`Environment.LdRoundTrip`; `Environment.SecondSettingWins`).
- A chown to the real owner is not shown if and only if the override for unknown files is on and
  names another owner (`VpermClient.ChownThenStat`; `VpermClient.ChownToRealOwnerIsHidden`).

The comment at pathmapping/pathresolution.c:167-172 calls the cleaning of ".." usable for
virtual paths and host paths alike; the model covers virtual paths.

## Model

| member | source | states |
|---|---|---|
| RuleTreeStore.InoToKeyInvolution | rule_tree/rule_tree.c:635-649 | the bit mixing of inode numbers is its own inverse on all 64-bit values |
| RuleTreeStore.KeyForInjective | rule_tree/rule_tree.c:651-672 | distinct (device, inode) pairs have distinct tree keys |
| RuleTreeStore.WalkAfterLink | rule_tree/rule_tree.c:524-602 | writing one null link makes exactly the searches that ended at it find the new node, if they are for its key |
| RuleTreeStore.SearchIsLookup | rule_tree/rule_tree.c:461-522 | a search finds the node of a key if and only if a node with that key is in the tree |
| RuleTreeStore.IndexedAfterInsert | rule_tree/rule_tree.c:524-602 | insertion keeps every node findable by its own key |
| InodeTree.SearchRefinesMap | rule_tree/rule_tree.c:461-522 | a search in the tree answers like a lookup in the map from keys to records |
| InodeTree.RuleTree.FindBintreeEntry | rule_tree/rule_tree.c:461-522 | the search loop returns the node of the key, or the null link where it belongs |
| InodeTree.RuleTree.FindInodestat | rule_tree/rule_tree.c:651-694 | found exactly when the map has the key, with its record, and a handle that is good for a following set |
| InodeTree.RuleTree.LinkNode | rule_tree/rule_tree.c:524-602 | with a fresh handle the branches for an existing link and an invalid direction are dead |
| InodeTree.RuleTree.AddToBintree | rule_tree/rule_tree.c:524-602 | appends a node, links it at the place of the handle and keeps the tree indexed |
| InodeTree.RuleTree.SetInodestat | rule_tree/rule_tree.c:696-742 | find followed by set changes the map at one key only, whether the record existed or not |
| LockFree.ApplyKeeps | rule_tree/rule_tree.c:461-602 | every step of the writer or a reader keeps the invariant of the shared file |
| LockFree.LinkedKeyIsAlwaysFound | sb2d/ruletree_server.c:8-18 | in every interleaving a reader only looks at completely written nodes, and never misses a key that was linked before it started |
| LockFree.LinkedKeyIsFoundInTime | rule_tree/rule_tree.c:461-522 | whatever the writer and the other readers do meanwhile, it has found the key, at its own node, after a number of loads that is known when it starts |
| LockFree.InsertionIsCompleted | rule_tree/rule_tree.c:696-742 | from every state with a free writer, in every interleaving with readers, in-place updates and later insertions: six stores after it began an insertion has linked its key, with the record that was to be added |
| LockFree.WriterIsFreeAgain | rule_tree/rule_tree.c:524-602 | after the stores that an insertion needs the writer is free for the next one |
| LockFree.AddedKeyIsFound | sb2d/ruletree_server.c:8-18 | writer and reader together, over whole runs: a key that was added is found by every reader that starts after the six stores |
| LockFree.AnswersAreCurrent | rule_tree/rule_tree.c:461-522 | a reader reports "not found" if and only if the key was not linked at the load on which it gave up |
| VpermServer.MergeFields | sb2d/ruletree_server.c:73-150 | the fields of a SET overwrite those of the record, and mode and suid bits go together |
| VpermServer.ReleaseFields | sb2d/ruletree_server.c:152-209 | which field bits a RELEASE clears |
| VpermServer.Server.SetInfo | sb2d/ruletree_server.c:73-150 | a SET changes one record and counts it when it becomes active |
| VpermServer.Server.ReleaseInfo | sb2d/ruletree_server.c:152-209 | a RELEASE changes one record and counts it down when nothing of it is left |
| VpermServer.Server.ClearInfo | sb2d/ruletree_server.c:41-71 | a CLEAR deactivates one record and counts it down if it was active |
| StatLaws.ClearThenStat | sb2d/ruletree_server.c:41-71 | after a CLEAR, from every reachable state, the file is shown as it really is, so that a new file in its place inherits nothing |
| StatLaws.ReleaseThenStat | sb2d/ruletree_server.c:152-209 | a RELEASE brings back the real values of the fields it names and of no others, set-id bits excepted |
| StatLaws.CommandLeavesOthers | sb2d/ruletree_server.c:221-293 | whatever command is sent, every other inode is shown as before |
| StatLaws.ShownInactive | preload/vperm_statfuncts.c:150-286 | nothing simulated is shown as it is, and the count is zero exactly then |
| StatLaws.MknodThenStat | rule_tree/rule_tree_rpc_client.c:425-443 | a simulated device is shown with the type, permissions and number that were asked for |
| StatLaws.ChmodThenStat | preload/vperm_filestatgates.c:506-527 | after a chmod the permissions are shown as asked for, type, device and ids as before, and the set-id bits exactly under a stated condition |
| StatLaws.SetIdBitSticks | sb2d/ruletree_server.c:152-209 | setting the set-user-id bit and taking it away again leaves it on show |
| StatLaws.MinusOneAsksNothing | preload/vperm_filestatgates.c:300-333 | a chown to -1 and -1 sends nothing |
| VpermServer.Server.Handle | sb2d/ruletree_server.c:221-293 | the server's state follows the command semantics |
| VpermServer.CounterAfterRun | sb2d/ruletree_server.c:41-209 | after every run of commands the counter is the number of active records plus the SETs without fields that created a record, and never saturates |
| VpermServer.CounterIsExactIff | sb2d/ruletree_server.c:41-209 | judged by the messages alone: the counter is the number of active records if and only if no inode's first SET is without fields |
| VpermServer.BlankSetMiscounts | sb2d/ruletree_server.c:73-110 | one SET without fields makes the counter wrong |
| VpermClient.ChmodIsNeverBlank | rule_tree/rule_tree_rpc_client.c:385-409 | the mode command of a chmod always carries a field |
| VpermClient.ApplyRecord | preload/vperm_statfuncts.c:150-262 | the step by step rewriting of a stat buffer from one record |
| VpermClient.VirtualizeStat | preload/vperm_statfuncts.c:122-286 | stat as it is done, with the guard, leaves the database alone and yields the guarded view |
| VpermClient.GuardNeverChangesAnswer | preload/vperm_statfuncts.c:150-286 | in every reachable state the guard changes neither the buffer nor the count, with and without the override for unknown files |
| VpermClient.VpermChown | preload/vperm_filestatgates.c:300-333 | the commands that a chown sends |
| VpermClient.ChownThenStat | preload/vperm_filestatgates.c:300-333 | after a chown from any reachable state, stat shows the ids asked for, keeps the others, and nothing else changes; with the exact condition under the override |
| VpermClient.ChownToRealOwnerIsHidden | preload/vperm_statfuncts.c:150-286 | the input on which a chown is not shown |
| VpermClient.ChownLeavesOthers | preload/vperm_filestatgates.c:300-333 | the view of every other inode stays as it was |
| VpermClient.ClientsAreCounted | rule_tree/rule_tree_rpc_client.c:333-443 | whatever sequence of chown, chmod, mknod and unlink clients run on files that have a type, the server's counter is the number of inodes with a simulation |
| Catalogs.ValueHome | rule_tree/rule_tree.c:1034-1059 | a catalog is found at one path only |
| Catalogs.SetValue | rule_tree/rule_tree.c:1165-1195 | setting an entry's value changes nothing outside its path and below |
| Catalogs.LinkFind | rule_tree/rule_tree.c:812-833 | linking an entry at the end of a list changes only searches that found nothing |
| Catalogs.CatalogStore.FindEntry | rule_tree/rule_tree.c:885-937 | the scan finds the first entry of a name; all links point to larger offsets |
| Catalogs.CatalogStore.FindLast | rule_tree/rule_tree.c:769-810 | the scan to the end of a list |
| Catalogs.CatalogStore.VGet | rule_tree/rule_tree.c:1034-1059 | the loop over a path returns its value |
| Catalogs.CatalogStore.CreateEntry | rule_tree/rule_tree.c:746-767 | a new entry behind the end of the file that nothing refers to |
| Catalogs.CatalogStore.AddToCatalog | rule_tree/rule_tree.c:838-880 | adds to a list, or to the root catalog, behind an entry of the same name if there is one; to something that is no catalog it links nothing; no object changes |
| Catalogs.CatalogStore.AddOrFind | rule_tree/rule_tree.c:960-997 | finds or adds the entry of a catalog; no object at any path changes |
| Catalogs.CatalogStore.VSet | rule_tree/rule_tree.c:1165-1195 | for any value, a catalog that has another path included: it is found at the path, unless an object stands in the way, and whatever is not below the path keeps its value; for an object also: what was below is gone |
| Catalogs.ReadBackIff | rule_tree/rule_tree.c:1165-1195 | what was set is read back if and only if nothing stood in the way, and paths outside are untouched |
| Catalogs.ObjectInTheWay | rule_tree/rule_tree.c:1165-1195 | below an object a value can be set, with success, and is read back as nothing |
| Paths.SplitOfPrint | pathmapping/pathlistutils.c:76-131 | splitting a printed path returns its components and both flags |
| Paths.PrintOfSplitIdempotent | pathmapping/pathlistutils.c:173-230 | printing what was split is idempotent |
| Paths.PrintHasNoSlashRuns | pathmapping/pathlistutils.c:173-230 | no run of slashes survives |
| Paths.PrintFits | pathmapping/pathlistutils.c:91-101 | the measured buffer holds the printed path and its terminator |
| Translation.SpellingDoesNotMatter | pathmapping/pathresolution.c:104-131 | under every rule list, "." inside a path, "." at its end in place of a slash, and doubled slashes change neither resolution nor mapping |
| PathStrings.SplitPath | pathmapping/pathlistutils.c:173-230 | the splitting loop yields components and flags of the string |
| PathStrings.PrintPath | pathmapping/pathlistutils.c:76-131 | every character and the terminator is written inside the measured buffer, and the result is the printed path; an empty list prints as the root directory |
| Rules.PathMatch | pathmapping/paths_ruletree_mapping.c:50-115 | when a selector matches, and that the result is its length |
| Rules.FindRule | pathmapping/paths_ruletree_mapping.c:117-224 | the loop over nested rule lists computes the selection function |
| Rules.FindIsFirstEligible | pathmapping/paths_ruletree_mapping.c:117-224 | the selected rule is the first eligible leaf in depth-first order, with its own selector length; nothing selected means nothing eligible |
| Translation.SelectedIsMeant | pathmapping/paths_ruletree_mapping.c:117-224 | a rule that is selected, and every subtree on the way to it, has a matching selector, no foreign function classes and no other binary |
| Translation.FirstMeantIsSelected | pathmapping/paths_ruletree_mapping.c:117-224 | a rule that is meant for the query is selected when none before it is and nothing up to it has a condition |
| Translation.TranslationMeans | pathmapping/paths_ruletree_mapping.c:449-497 | where each plain action puts a path, as names: behind the names of map_to, behind those of replace_by without the selector's, at those of set_path, or where it was |
| Translation.DirectoryEndsAtName | pathmapping/paths_ruletree_mapping.c:50-115 | a directory selector that matches ends where a name ends, the root directory's excepted |
| Translation.RootReplacementIff | pathmapping/paths_ruletree_mapping.c:309-346 | what a replacement for the root directory makes of the first name is right if and only if it ends in a slash |
| Translation.BadTextYieldsNothing | pathmapping/paths_ruletree_mapping.c:780-835 | relative texts and replacements for other paths yield nothing, ".." is left to the host |
| Translation.MappingMeans | pathmapping/pathresolution.c:1362-1445 | under any rules, what a path is mapped to is where the rule for its real path puts it |
| Translation.ForcedPathStays | pathmapping/pathresolution.c:575-597 | under a rule that forces the original path nothing on the host is looked at and the path stays |
| Translation.ForcedPathIsItself | pathmapping/pathresolution.c:575-597 | and it is mapped to itself |
| Translation.LinkIsFollowed | pathmapping/pathresolution.c:622-706 | under any other rule a link at the first component behind the selector is followed to what its text says |
| Translation.UnmappedFails | pathmapping/pathresolution.c:622-688 | where a rule yields nothing, resolution fails |
| Translation.OnlyBehindSelector | pathmapping/pathresolution.c:515-537 | under any rules only what lies behind the selector is looked at |
| Translation.ConditionalIsAsked | pathmapping/pathresolution.c:707-770 | rules with conditions and those for /proc are asked anew about every path on the way |
| Rules.CleanAppend | pathmapping/pathlistutils.c:372-448 | appending a component to a cleaned host path is cleaning the longer one if and only if the cleaned path does not end in a slash |
| Shortcut.ProbedIsTranslated | pathmapping/pathresolution.c:707-770 | for every rule list and every rule that keeps, prefixes or replaces: the host path probed for a component, mapped once and then extended name by name, is the translation of the whole path up to that component |
| Skipping.SkipLoop | pathmapping/pathresolution.c:515-537 | the skip loop stays inside the list and stops at the first component behind the selector |
| Skipping.SelectorIsCovered | pathmapping/pathresolution.c:515-537 | the selector of a matching rule is never longer than what the components cover |
| Skipping.ReplacementOverrunsIff | pathmapping/paths_ruletree_mapping.c:309-346 | exactly when the copied suffix starts behind the end of the translated prefix |
| Skipping.ReplacementOverruns | pathmapping/paths_ruletree_mapping.c:309-346 | the rule for "/a/" on the path "/a/" is such a case |
| Engine.Examine | pathmapping/pathresolution.c:622-688 | what one component's readlink and stat results lead to |
| Engine.NextHost | pathmapping/pathresolution.c:707-770 | the host path carried to the next component is the translation of the path up to it |
| Engine.ResolveFrom | pathmapping/pathresolution.c:541-790 | the loop, which carries the host path along, computes the resolution function, which asks for the host path of every component anew |
| Engine.ExpandLink | pathmapping/pathresolution.c:792-971 | an expanded path is cleaned and resolved, by the engine itself one level down, to what the resolution function says |
| Engine.ResolveUnclean | pathmapping/pathresolution.c:173-410 | a path list with ".." is cleaned on a linked list before it is resolved, to the same effect |
| Engine.ResolveList | pathmapping/pathresolution.c:431-790 | rule selection, skipping, the loop, link expansion and in-place cleaning together are the resolution function, at every depth of the recursion |
| Namespace.PrintsSameIsSameString | pathmapping/pathresolution.c:341-344 | comparing path lists is comparing the strings they print as |
| Namespace.ParseOfPrint | pathmapping/pathresolution.c:357-358 | a printed path list reads back as itself |
| Translation.ParseOfRelative | pathmapping/pathresolution.c:792-871 | the text of a relative link reads as it was written |
| Iteration.ResolutionIsIteration | pathmapping/pathresolution.c:431-971 | for any rules and links without "..", the recursion is a loop of at most 16 expansions |
| Iteration.ResolutionSettles | pathmapping/pathresolution.c:453-464 | it always returns; too many links is reported exactly on the 17th expansion; a result is clean and has no link from the first examined component on, except a final one left alone |
| Iteration.ResolutionIsIdempotent | pathmapping/pathresolution.c:431-790 | resolving a resolved path changes nothing |
| ReferenceProofs.WalkUp | pathmapping/pathresolution.c:184-193 | walking past a ".." is walking to its parent, which must be a directory, and on from there |
| ResolutionTheorem.CleanAgrees | pathmapping/pathresolution.c:173-410 | cleaning hands over exactly where the walk stands, or fails as it does |
| ResolutionTheorem.FollowList | pathmapping/pathresolution.c:792-971 | an expanded path is resolved as the walk goes on |
| ResolutionTheorem.EngineIsWalk | pathmapping/pathresolution.c:431-971 | under any uniform rules, for any number of expansions and any calls: the engine gives the walk's answer, slash included, or reports too many links when it takes more than 16; a stack with room for the walk is never exhausted |
| RootNamespace.ResolutionIsReferenceWalk | pathmapping/pathresolution.c:431-971 | with one root map_to rule, every path resolves to the answer of the walk, slash included, links with ".." included, for calls that follow final links and calls that do not |
| RootNamespace.ResolutionIsNaturalIff | pathmapping/pathresolution.c:599-617 | exactly when resolution ends where a natural walk ends: it does not stop short of a final name because an absolute link has dropped the slash behind it; and where an absolute link of slashes only has dropped the rest, it answers the root directory, and a natural walk of the rest must end there too |
| RootNamespace.ResolutionIsNatural | pathmapping/pathresolution.c:599-617 | they do end at the same place when no rest is dropped and the call follows final links or the path has no slash at the end |
| NaturalWalk.RestIsKept | pathmapping/pathresolution.c:866-871 | as long as no absolute link of slashes only is met in front of a name, nothing of the path is lost |
| NaturalWalk.LossIsRest | pathmapping/pathresolution.c:866-871 | when one is met, and nothing is "..", the engine ends in the root directory and a natural walk goes on from there with the names behind the link |
| NaturalWalk.SlashMattersIff | pathmapping/pathresolution.c:822-872 | the walk that drops the slash at absolute links and the one that keeps it end at the same place exactly unless the former stops short |
| NaturalWalk.SlashMeansFollow | pathmapping/pathresolution.c:599-617 | a slash that stays in force makes a call that leaves final links alone behave like one that follows them |
| RootNamespace.MappingIsReferenceWalk | pathmapping/pathresolution.c:1362-1445 | the mapped host path is the host path of what the walk arrives at, slash included; nothing is mapped when it fails |
| RootNamespace.AnswersAreRight | pathmapping/pathresolution.c:431-971 | every path or error that is returned, with any stack and any links, is the answer of the walk for all large enough budgets |
| RootNamespace.PlainFileIsMapped | pathmapping/pathresolution.c:541-790 | a path without links, told from what the host says about each prefix, resolves to itself and is mapped below the rule's directory |
| RootNamespace.ErrorIsReported | pathmapping/pathresolution.c:622-688 | the first name that cannot be read is an error, unless it is missing and may be |
| RootNamespace.NotADirectory | pathmapping/pathresolution.c:622-688 | what has to be a directory and is none is an error |
| RootNamespace.FirstLinkIsExpanded | pathmapping/pathresolution.c:792-971 | the first link on the way is replaced by its text, behind its own directory or from the root |
| Soundness.AnswerIsRight | pathmapping/pathresolution.c:173-971 | the same for any uniform rules |
| TrailingSlash.SlashIsHonouredIff | pathmapping/pathresolution.c:599-617 | under any rules, for links without "..": a call that leaves final links alone and one that follows them agree if and only if no path list on the way has its final component left alone that is a link, missing, or not the directory it has to be |
| TrailingSlash.SlashStaysIsEnough | pathmapping/pathresolution.c:822-872 | they agree when every link met on the way is relative, or is the final component and ends in a slash itself |
| TrailingSlash.RulesAreIndifferent | pathmapping/pathresolution.c:431-540 | every rule list meets the assumption of these results |
| Limits.SelfParentLinkDiverges | pathmapping/pathresolution.c:324-328 | a link to "name/.." of itself exhausts every stack |
| Limits.SelfParentLinkLoops | pathmapping/pathresolution.c:453-464 | where the walk reports too many links for every budget |
| Limits.RestIsKeptIff | pathmapping/pathresolution.c:866-871 | exactly when an expansion keeps the rest of the path |
| Limits.BareLinkLosesTheRest | pathmapping/pathresolution.c:866-871 | a link to "/" makes the engine answer with the root directory |
| Limits.AbsoluteLinkDropsTheSlash | pathmapping/pathresolution.c:822-872 | an absolute link makes a path with a slash at the end stop at a link |
| DotDots.CleaningIsNormalization | pathmapping/pathresolution.c:173-410 | when parents resolve to themselves the three steps are stack normalization for any flags, and add the slash exactly when the last component was ".." |
| DotDots.EngineCleaningIsNormalization | pathmapping/pathresolution.c:173-410 | the same for the engine's lists |
| DotDots.CleanMark | pathmapping/pathresolution.c:173-410 | the engine's cleaning is the cleaning of flagged entries |
| PathLists.PathEntryList.Remove | pathmapping/pathlistutils.c:305-335 | unlinks one entry of a doubly linked list and keeps it well formed |
| PathLists.PathEntryList.RemoveWithPrev | pathmapping/pathresolution.c:140-159 | unlinks a ".." and its predecessor |
| PathLists.AppendEntries | pathmapping/pathlistutils.c:56-70 | joins two chains into one |
| PathLists.NewEntries | pathmapping/pathlistutils.c:173-230 | builds a well formed chain of the given components |
| PathLists.SetFlags | pathmapping/pathlistutils.c:48-54 | flags every entry of any chain and changes nothing else |
| PathLists.PathEntryList.DuplicateBefore | pathmapping/pathlistutils.c:246-302 | a new chain with the components before an entry and no flags; the list itself is untouched |
| PathLists.PathEntryList.DropUps | pathmapping/pathresolution.c:203-225 | step 1 in place |
| PathLists.PathEntryList.CancelUps | pathmapping/pathresolution.c:227-266 | step 2 in place, and whether any ".." is left |
| PathLists.PathEntryList.SettleUps | pathmapping/pathresolution.c:268-399 | step 3 in place: the list is clean, or fails, or starts over with the real path in front |
| PathLists.PathEntryList.CleanDotdots | pathmapping/pathresolution.c:173-410 | the whole cleaning in place; what is handed to resolution is always clean, and it starts over no more often than there are ".." |
| PathLists.CleanInPlace | pathmapping/pathresolution.c:173-410 | building the linked list, cleaning it in place and reading off names and flags is the engine's cleaning function |
| PathLists.RestartSpends | pathmapping/pathresolution.c:341-392 | starting over with the real path in front of a ".." removes it at once |
| PathLists.EngineParentIsGood | pathmapping/pathresolution.c:293-328 | resolution of a clean path yields a clean path, and of the root directory the root directory, as cleaning relies on |
| SimulatedIds.PrintedIdsAreRead | preload/vperm_uid_gid_gates.c:55-115 | all printed ids, unknown-owner part and permission mark are read back for all 32-bit ids |
| SimulatedIds.ExportedIdsAreRead | preload/vperm_uid_gid_gates.c:167-234 | the same round trip for the exported string as a function of the ids |
| SimulatedIds.MissingPartsAreOwn | preload/vperm_uid_gid_gates.c:55-115 | what the string does not have comes from the operating system, part by part |
| SimulatedIds.IdState.InitializeIds | preload/vperm_uid_gid_gates.c:55-115 | on first use each part comes from the string or from the operating system |
| SimulatedIds.IdState.ExportForExec | preload/vperm_uid_gid_gates.c:167-234 | initializes the ids if that has not been done; from the exported string a started program then reads its parent's ids, with effective and saved ids of the file or of the parent, whatever the operating system says |
| Environment.PrepareEnvp | execs/sb_exec.c:833-1142 | both passes over the environment; everything that is added fits into the 15 extra slots |
| Environment.ChildSeesLast | preload/libsb2.c:263-284 | a started native program finds the user's last LD_PRELOAD and LD_LIBRARY_PATH, whatever the policy injected |
| Environment.LdRoundTrip | execs/sb_exec.c:833-1142 | the round trip for variables set at most once, and the exact condition otherwise |
| Environment.SecondSettingWins | execs/sb_exec.c:833-1142 | with two settings the parent finds the first and the program the second |
| Environment.SessionDirIsKept | execs/sb_exec.c:1036-1042 | exactly one session directory, that of the session |
| Environment.OthersAreKept | execs/sb_exec.c:948-1034 | ordinary variables come through, names with the private prefix do not |
| Environment.VpermIdsAreOwn | execs/sb_exec.c:1063-1074 | the exported ids appear once, and no older or user-provided ones |
| Environment.ModeIsAllowed | execs/sb_exec.c:981-1012 | a program runs in the first requested mode for which rules can be read, or else in the session's |
| Environment.PolicyIsInForce | execs/exec_postprocess.c:630-659 | while the dynamic linker runs, libraries are the policy's, once and whatever the user has set |
| Environment.PolicyDecidesPaths | execs/exec_postprocess.c:630-659 | locale paths are the policy's or none; what the user says about the session is not handed on |
| Environment.BinaryNamesAreSet | execs/sb_exec.c:1090-1139 | a program is told its own name, the file as it was asked for, and the chroot path |
| Environment.SettingsAreMerged | execs/sb_exec.c:1044-1088 | the way of mapping is the session's or else the user's; the signal to raise is the user's or else the session's |
| Environment.NativeEnvFits | execs/exec_postprocess.c:630-659 | the environment of a native program fits into the measured vector |
| ExecVectors.NativeArgvFits | execs/exec_postprocess.c:370-697 | no policy makes the argument vector too small, and the program's arguments follow its path in order |
| ExecVectors.NativeArgvStarts | execs/exec_postprocess.c:370-697 | the linker comes first, its options next, and the program's own argv[0] right before the program |
| ExecVectors.BuildNativeArgv | execs/exec_postprocess.c:370-697 | builds that vector without tripping the capacity assertion |
| ExecVectors.QemuArgvFitsIff | execs/exec_postprocess.c:815-836 | exactly when the vector for the emulator is large enough |
| ExecVectors.QemuArgvMeans | execs/exec_postprocess.c:860-1117 | the emulator comes first, its options next, then the traced variables; the last elements are the program's file and its arguments from the second on |
| ExecVectors.QemuEnvMeans | execs/exec_postprocess.c:961-1015 | every variable goes, in order, to the emulator's environment or command line or nowhere; ordinary ones stay |
| ExecVectors.DestinationOf | execs/exec_postprocess.c:961-1015 | which kinds of variables go where |
| ExecVectors.PlainEnvIsKept | execs/exec_postprocess.c:961-1015 | an environment of ordinary variables comes through whole and in order |
| ExecVectors.SingleCommandOverflows | execs/exec_postprocess.c:815-883 | a single command with both flags needs one argument more than there is room for |
| ExecVectors.BuildQemu | execs/exec_postprocess.c:753-1144 | builds both vectors for the emulator, from a list of arguments or a single command, whenever the capacity assertion holds; fails without either |
| ExecVectors.BuildHostStatic | execs/exec_postprocess.c:1179-1228 | arguments unchanged, three variables in front of the environment |

## Left out

- Memory mapping, write failures, allocation and logging: appends are taken to succeed, and memory to be sequentially consistent with atomic 32-bit writes, as the source states.
- The contents of a record while it is updated in place: the concurrency results are about the structure of the tree.
- Sockets, the RPC transport, inotify and the Lua bindings: plumbing.
- The reply to a CLEAR for an inode without a record, which the server leaves unset, and the RELEASE of suid bits, which it does not implement.
- Catalogs.CatalogStore.VSet: once a catalog has been given a second path, lookups are still described, but further changes are not.
- Host-path cleaning of "..", procfs, union directories, conditional actions and chroot: they depend on the outside world and are a parameter of rule translation here.
- Engine.ResolveFrom: path lists are values in the loop and linked structures while they are cleaned; the real path of what stands before a ".." comes from the resolution function there, not from a nested method call.
- Resolution.Resolve: recursion depth is a parameter, and running out of it an outcome; when no rule applies to the parent of a ".." the original compares with a null string, here it fails.
- RootNamespace.ResolutionIsReferenceWalk: a file system is assumed on which nothing is found below an entry that is not a directory.
- RootNamespace.ResolutionIsNaturalIff: where an absolute link of slashes only drops names, the path and the links are taken to be free of ".."; `RootNamespace.ResolutionIsReferenceWalk` says what the engine does with them.
- VpermClient.ClientsAreCounted: removing a file always sends a CLEAR here; the original leaves it out when nothing is simulated, in which case the server ignores it.
- SimulatedIds.ExportedIdsAreRead: blanks and overflow in numbers, which the exported string does not have, and a user's own request are not modelled.
- Environment.LdRoundTrip: variables are classified by the prefixes the code compares; entries without "=" are not modelled, and a policy is taken to set the variable it names.
- The Lua mapping engine, network rules, exec preprocessing and policy selection, the path database of file descriptors, and the gates around libc calls: they would add only easier members.
