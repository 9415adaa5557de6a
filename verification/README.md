# Verified model of the usvfs-fuse virtual file tree and its overlay

usvfs-fuse shows several directories on top of each other through FUSE. Its core is a
tree that finds files without regard to case (`src/virtualfiletreeitem.cpp`). Linking a
mod scans its directory into such a tree and merges it, in place, onto the tree of the
destination (`src/usvfsmanager.cpp`). Each mount also has a table of open directory
descriptors (`src/fdmap.cpp`); the FUSE handlers (`src/usvfs.cpp`) look the real parent
directory of a found item, or the own directory of a parent, up in that table before they
touch the disk.

This project models that core and proves what it keeps: over every input, every run of
calls and every interleaving.

## How it is built

Three layers, each proved against the one below it:

1. **Text and flat maps.** `Paths` holds case folding, searching, splitting and the
   parent/file-name split. A *position* is the sequence of folded segments that a path
   names. `FlatMap` is the simplest possible tree: a map from positions to entries.
2. **Tree values.** `Nodes` holds the tree as a value with find, add, erase, clone and
   merge; `FlatMap` and `Merging` prove that they are flat-map operations. `Mounts`,
   `Listing` and `Linking` add descriptors, scanning, linking, mounting and the handlers
   as functions of a mount or of the manager; what the host answers is a parameter.
   `HandlerEffects` and `LinkReplies` say what a caller gets, in terms of what is stored and
   on disk. `Names`, `Roots`, `Deletion`, `Coverage`,
   `OwnDirectories`, `ExactDirectories`, `UpperDirectories`, `HandlerDeletion`,
   `DeletionRuns`, `LinkRuns` and `LinkAnswers` prove the invariants over all runs, each
   with the exact condition under which a step, and a run, keeps it; `Scenarios` has runs
   from the empty manager on which a condition fails, down to the call that then fails.
   `Handshake` is the interleaved mounting protocol.
3. **The mutable program.** `VirtualFileTree` is the class with children maps and parent
   pointers; `MountStates` has the descriptor table, the mount and its handlers;
   `UsvfsManagers` has the manager. Every method is proved equal to the value operation of
   layer 2, in place, with its footprint. `TreeRuns` puts calls together into whole runs.

`Valid()` of the mutable tree says that no item is shared or below itself and that every
child points back at the item that holds it. The methods also promise that whatever an
item owns afterwards it owned before or has allocated since, so trees never come to share
items.

## What the code does where its documentation says otherwise

- `isEmpty` is documented as "no live children" (`src/virtualfiletreeitem.h:149-152`), but
  it reads no deleted flag and is true of every tree. So `erase`, documented to need an
  empty directory (`src/virtualfiletreeitem.h:93-101`), and rmdir succeed on directories
  with live children. `erase` then flags the whole subtree, but rmdir flags the directory
  alone: `Scenarios.RmdirStrandsLiveChild`.
- `find` tests the deleted flag of the last item only. That is sound exactly while
  everything below a deleted item is deleted (`Deletion.FindIsSoundIffClosed`). Three
  handler paths can break that, and `HandlerDeletion.HandleKeepsClosedIffGuarded` gives
  the exact condition for each: mkdir revives a deleted item without asking for its
  parent, create with an upper directory does not ask for the parent either, and rmdir
  accepts a directory with live children.
- The real parent of an item is not all that is looked up: mkdir, create and getattr look
  up a directory's own real path. A merge that lays a file over a directory keeps the kind
  of the one and takes the real path of the other, and then nothing can be made below:
  `Scenarios.FileOverDirectoryBlocksMaking`; exact conditions in `OwnDirectories`.
- The table folds its keys, but on disk case matters. Of two linked directories that
  differ in case only the one filed last takes the entry, and handlers then work in the
  wrong one: `Scenarios.LookupHitsAnotherDirectory`; exact conditions in
  `ExactDirectories`.
- readlink looks for a file in the directory that its parent item stands for, which after
  a merge may be another than the one it lies in: `Scenarios.ReadlinkLooksElsewhere`,
  `OwnDirectories.MergeAlignedIff`.
- With an upper directory a missing parent is made, but not its missing parent:
  `UpperDirectories.MakingInUpper`, `Scenarios.TwoMissingLevelsBlockMaking`.
- A source or destination directory given with a trailing slash leaves the real parents
  of its top entries without a descriptor: `Listing.ScanCoversIff`, `Linking.StepSoundIff`,
  `Scenarios.TrailingSlashMissesLookup`.
- A file link into a pending mount adds the item before it opens the directory of the file,
  and keeps the item when that fails: `Linking.LinkFileIntoKeepsSoundIff`,
  `Scenarios.UnopenedFileMissesLookup`.
- Whether a file link replaces an existing file depends on whether its destination is
  pending already: `Scenarios.FileLinkDependsOnPending`.

## Model

| member | source | states |
|---|---|---|
| `Paths.LowerAscii` | src/utils.cpp:62-88 | On ASCII text the two loops give a text of the same length that has, for each of the 26 capitals, the small letter of the same place in the alphabet, and every other character as it is; other text is recognised and left to ICU |
| `Paths.FoldLowers` | src/utils.cpp:76-80 | The fold is that table and no other, character by character |
| `Paths.LowerIff` | src/utils.cpp:62-88 | Two texts fold to one if and only if they agree letter by letter but for case |
| `Paths.AlikePositions` | src/virtualfiletreeitem.cpp:206-220 | Texts that agree but for case name one position, and of rooted paths only such |
| `Paths.OptionalSlash` | src/virtualfiletreeitem.cpp:215-219 | A leading slash makes no difference to what find walks |
| `Paths.NoParent` | src/utils.cpp:168-184 | A text without slash is its own parent and its own file name |
| `Paths.AddSkipsSlash` | src/virtualfiletreeitem.cpp:391-395 | A doubled slash is one slash to add, and an empty segment to find |
| `Paths.FoldIsStable` | src/utils.cpp:62-88 | Folding twice is folding once, and a '/' stays where it is and appears nowhere else |
| `Paths.JoinOfSplit` | src/virtualfiletreeitem.cpp:338-363 | Cutting any text at its slashes and joining the pieces gives the text back |
| `Paths.SplitOfJoin` | src/virtualfiletreeitem.cpp:338-363 | Joining slash-free pieces and cutting them apart gives the pieces back |
| `Paths.SplitFold` | src/virtualfiletreeitem.cpp:218-219 | Walking the folded text visits the folded pieces of the original text |
| `Paths.SplitAtLast` | src/utils.cpp:168-184 | Cutting at the last slash first agrees with cutting at every slash from the front |
| `Paths.ParentOfJoin` | src/utils.cpp:168-184 | The parent/file-name split undoes appending "/name" to any directory text |
| `Paths.JoinOfParent` | src/utils.cpp:168-184 | Appending undoes the split on every text with a slash, and the file name has none |
| `Paths.ParentPathFold` | src/utils.cpp:168-184 | Parent and file name commute with case folding, so folded table keys of parents are parents of folded keys |
| `Paths.PositionOfParent` | src/utils.cpp:168-184 | On rooted paths the parent text names the position of the item minus its last segment, and the file name is that segment |
| `Paths.LastSegmentIsFileName` | src/utils.cpp:168-175 | On every text that names something below the root, the last segment that find walks is the file name |
| `Paths.SegmentsOfAbsolute` | src/virtualfiletreeitem.cpp:228-236 | The absolute text of non-empty segments is rooted and names exactly these segments |
| `Paths.AbsoluteOfSegments` | src/virtualfiletreeitem.cpp:206-220 | A rooted path is the absolute text of its segments |
| `Paths.AddSplitFold` | src/virtualfiletreeitem.cpp:381-409 | The walk of add over the folded text visits the folded segments of its walk over the text, whatever doubled slashes it skips |
| `Paths.AddSplitDown` | src/virtualfiletreeitem.cpp:391-409 | One step of that walk: the offset found in the text cuts both cursors alike, and they stay each other's fold |
| `Paths.AddSplitIsSplit` | src/virtualfiletreeitem.cpp:381-409 | On non-empty segments the walk of add is the walk of find |
| `Nodes.FlatIsPrefixClosed` | src/virtualfiletreeitem.h:176-181 | The flat map of a tree holds the root and, with every position, its parent |
| `Nodes.FlatDetermines` | src/virtualfiletreeitem.h:176-181 | Two trees with the same flat map are the same tree |
| `Nodes.GraftAt` | src/virtualfiletreeitem.cpp:411-433 | Replacing the subtree at one position changes the positions at or below it and no others |
| `Nodes.PruneAt` | src/virtualfiletreeitem.cpp:475-478 | Removing the subtree at one position removes the positions at or below it and no others |
| `Nodes.MarkChildrenAt` | src/virtualfiletreeitem.cpp:485-491 | Marking flags every descendant at any depth, not the item itself, and changes nothing else |
| `FlatMap.Refusals` | src/virtualfiletreeitem.cpp:113-136 | When add, erase and find refuse, and with which error: EINVAL for empty texts and "/", ENOENT for a missing parent or item, EEXIST for a live item not to be updated |
| `FlatMap.EraseEffect` | src/virtualfiletreeitem.cpp:443-491 | On text, position by position: what hard erase takes away, what soft erase flags, and that all else stays |
| `FlatMap.FindRefines` | src/virtualfiletreeitem.cpp:206-220 | find is lookup in the flat map, filtered by the flag of the entry it finds |
| `FlatMap.GraftOne` | src/virtualfiletreeitem.cpp:411-433 | Replacing an item but keeping its children, or putting a leaf, changes one entry |
| `FlatMap.AddRefines` | src/virtualfiletreeitem.cpp:381-434 | add succeeds exactly when the parent is present and the position is absent, deleted or to be updated; it changes that one entry; a revived item keeps name and kind |
| `FlatMap.EraseRefines` | src/virtualfiletreeitem.cpp:443-491 | erase succeeds exactly when the position is present, whatever is below it; hard erase removes and soft erase flags precisely the entries at or below it |
| `Merging.MergeRefines` | src/virtualfiletreeitem.cpp:88-111 | The merged positions are the union; name and real path come from the right tree where it has the position, kind and flag from the left one; of a subtree that only the right has the top is live and the rest keeps its flags |
| `Merging.CloneRefines` | src/virtualfiletreeitem.cpp:156-168 | A copy has the same entries but for the flag of its top |
| `Merging.MergeAssociative` | src/virtualfiletreeitem.cpp:88-111 | Merging is associative on whole trees, flags included |
| `Merging.MergeIdempotent` | src/virtualfiletreeitem.cpp:88-111 | Merging a tree onto itself changes nothing |
| `Merging.MergeAllAtOnce` | src/usvfsmanager.cpp:341-349 | Linking mods one after the other is linking their merge once |
| `Merging.LastLinkWins` | src/usvfsmanager.cpp:341-360 | After merging any number of sources, each position has the real path and name of the last source that has it, else of the destination |
| `Merging.DestinationKeepsKind` | src/virtualfiletreeitem.cpp:88-111 | What the destination has stays, with the destination's kind and flag, whatever is merged onto it |
| `Names.MergeKeepsNames` | src/virtualfiletreeitem.cpp:88-111 | Merging keeps every key the fold of a display name |
| `Names.EraseKeepsNames` | src/virtualfiletreeitem.cpp:443-483 | Erasing keeps every key the fold of a display name |
| `Names.SpellingAt` | src/virtualfiletreeitem.cpp:228-236 | The spelling of an item has, segment by segment, the names stored on the way down to it, case included |
| `Names.SpelledPathNamesItem` | src/virtualfiletreeitem.cpp:228-236 | The path that an item spells by climbing names the position of that very item, so no two items spell the same |
| `Names.SpelledPathUpToCase` | src/virtualfiletreeitem.cpp:228-236 | An item found by a rooted path in any spelling spells that path up to case |
| `Deletion.FindIsSoundIffClosed` | src/virtualfiletreeitem.cpp:338-379 | Testing the last flag agrees with testing all flags on the way, on every path, if and only if everything below a deleted entry is deleted |
| `Deletion.ReviveKeepsClosed` | src/virtualfiletreeitem.cpp:412-420 | Making an entry live keeps that closure if and only if its parent is the root or live |
| `Deletion.FlagKeepsClosed` | src/usvfs.cpp:266-269 | Flagging an entry alone keeps it if and only if nothing below is live |
| `Deletion.AddKeepsClosed` | src/virtualfiletreeitem.cpp:381-434 | A successful add keeps it if and only if its parent is the root or live |
| `Deletion.EraseKeepsClosed` | src/virtualfiletreeitem.cpp:443-491 | Both kinds of erase keep it always, and soft erase twice is soft erase once |
| `Deletion.MergeKeepsClosed` | src/virtualfiletreeitem.cpp:88-111 | Merging two closed trees keeps it if and only if the right one brings nothing new below a deleted entry of the left one |
| `Deletion.MergeAllStaysLive` | src/usvfsmanager.cpp:341-360 | Merging trees without deleted items gives a tree without deleted items |
| `Deletion.CloneKeepsClosed` | src/virtualfiletreeitem.cpp:156-168 | Clearing the top flag of a copy keeps it |
| `HandlerDeletion.HandleKeepsClosedIffGuarded` | src/usvfs.cpp:148-270 | A mkdir, create, unlink or rmdir keeps the closure if and only if: a revived directory has a live parent; a file added in the upper directory has one; a removed directory has no live child |
| `HandlerDeletion.NoLiveBelow` | src/virtualfiletreeitem.h:149-152 | In a closed tree the documented meaning of isEmpty, no live child, says that nothing at any depth is live |
| `HandlerDeletion.FindStaysSound` | src/virtualfiletreeitem.cpp:338-379 | From any closed mount, over every run of guarded calls, find succeeds exactly when the path is present and live all the way down |
| `DeletionRuns.StepClosedIff` | src/usvfsmanager.cpp:192-368 | Links of any kind leave pending trees without deleted items, and a step of the manager keeps every active tree closed if and only if, should it be a handler call, that call is guarded on the mount it reaches |
| `DeletionRuns.RunClosedIff` | src/usvfsmanager.cpp:192-368 | A run keeps every active tree closed, and pending trees live, all the way if and only if its handler calls are guarded |
| `DeletionRuns.FindSoundOverRuns` | src/virtualfiletreeitem.cpp:338-379 | Over every run from the empty manager, of any links, mounting and guarded handler calls, find on every pending or active mount succeeds exactly when the path is present and live all the way down |
| `DeletionRuns.PerformClosedIff` | src/virtualfiletreeitem.cpp:88-204 | On one tree: erase, soft or hard, always keeps it closed; an accepted add if and only if its parent is live; a merge if and only if it brings nothing new below a deleted item |
| `DeletionRuns.RequestsClosedIff` | src/virtualfiletreeitem.cpp:88-204 | A run on one tree keeps it closed all the way if and only if its requests are guarded |
| `DeletionRuns.FindSoundOnTreeAndCopy` | src/virtualfiletreeitem.cpp:156-168 | Over every such run on a tree and, interleaved with it, on its copy, find on either succeeds exactly when the position is present and live all the way down |
| `Scenarios.RmdirStrandsLiveChild` | src/usvfs.cpp:240-270 | Two mods linked and mounted: rmdir of /a, whose directory on disk is empty, succeeds; afterwards /a is gone while the live /a/b of the other mod resolves. The mount was sound and closed before |
| `Scenarios.MkdirRevivesUnderDeleted` | src/usvfs.cpp:155-168 | The same mods after unlink of /a/b and rmdir of /a: mkdir revives /a/b inside the deleted /a, whatever the host does |
| `Scenarios.CreateRevivesUnderDeleted` | src/usvfs.cpp:610-642 | The same with an upper directory: create revives /a/b inside the deleted /a |
| `Coverage.LookupNeverMisses` | src/usvfs.cpp:18-27 | In a sound mount, whatever path find resolves, the lookup of its real parent hits: a descriptor of that directory, or of one that differs in case only |
| `Coverage.LookupsHitIff` | src/usvfs.cpp:18-27 | With every item live, that lookup hits for all paths below the root if and only if the keys cover every item there: soundness asks for no more than the handlers need |
| `Coverage.AddTextEntry` | src/virtualfiletreeitem.cpp:113-136 | add on any text, doubled slashes included, changes one entry, sets its real path and keeps keys and names together |
| `Coverage.MkdirKeepsSound` | src/usvfs.cpp:148-216 | mkdir keeps names, descriptors and coverage, on every text, upper directory or not, whatever the host refuses |
| `Coverage.CreateKeepsSound` | src/usvfs.cpp:593-645 | create keeps names, descriptors and coverage in the same generality |
| `Coverage.WithParentKeepsSound` | src/usvfs.cpp:37-65 | Making a missing parent directory keeps a mount sound and drops no descriptor |
| `Coverage.EveryRunStaysSound` | src/usvfs.cpp:148-270 | Every run of mkdir, create, unlink and rmdir calls keeps a mount sound |
| `Coverage.UpperParentsAgree` | src/usvfs.cpp:176-184 | With an upper directory, the parent text that mkdir builds from stored names and the one that create builds from the given text are the same key, in any spelling |
| `UpperDirectories.UpperRegistrationIsShared` | src/usvfs.cpp:610-620 | After a successful create, or a mkdir of what was not there, the parent is on file for both handlers in any spelling, as one descriptor, and is never made again; after such a mkdir the new directory itself is, too |
| `UpperDirectories.MakingInUpper` | src/usvfs.cpp:176-191 | With an upper directory create and mkdir succeed exactly if the parent is there, the host agrees, and the place of the parent, or in case it can be made the place of its parent, is on file: one missing level is made, two are not |
| `UpperDirectories.RunStaysAnchored` | src/usvfsmanager.cpp:863-868 | Over every run, whatever was linked: names and keys agree, descriptors are filed under their own directory up to case, and the upper directory of every active mount is on file |
| `UpperDirectories.UpperMakingOverRuns` | src/usvfs.cpp:184-191 | Hence over every run create and mkdir in the upper directory itself, and in what lies directly below it, succeed whenever the host allows |
| `OwnDirectories.OwnLookup` | src/usvfs.cpp:103-106 | While directories are on file, the lookup of the own real path of any directory that find resolves hits, up to case |
| `OwnDirectories.MakingBelowDirectory` | src/usvfs.cpp:176-184 | Then, without an upper directory, below every directory that resolves create succeeds exactly if the host opens the file, and mkdir exactly if it revives, or the host makes and opens |
| `OwnDirectories.NothingMadeBelow` | src/usvfs.cpp:601-627 | Where the own directory of the parent is not on file, neither makes anything new for any host |
| `OwnDirectories.MergeOwnIff` | src/virtualfiletreeitem.cpp:88-111 | A merge keeps all directories on file if and only if wherever the left tree has a directory and the right tree has anything, the real path of the latter is on file |
| `OwnDirectories.HandleOwnIff` | src/usvfs.cpp:593-645 | mkdir, unlink and rmdir keep all directories on file; create does, with or without an upper directory, if and only if it does not revive a deleted directory whose new real path is not on file |
| `OwnDirectories.StepOwnIff` | src/usvfsmanager.cpp:198-368 | A step of the manager keeps all directories at a mountpoint on file if and only if no link to it lays a file over a directory, and no create there revives one, whose new real path is not on file |
| `OwnDirectories.MakingOverRuns` | src/usvfs.cpp:176-184 | Over every such run create and mkdir directly below the root, and below any directory that resolves, in an active mount without an upper directory fail only for what the host refuses or for what is there |
| `Scenarios.FileOverDirectoryBlocksMaking` | src/usvfs.cpp:176-184 | A mod file x over a destination directory x: the mount is sound and /x resolves as a live directory, yet mkdir and create of /x/y fail for every host |
| `OwnDirectories.RunOwnIff` | src/usvfsmanager.cpp:198-368 | A run keeps all directories at a mountpoint on file all the way if and only if none of its steps takes one off |
| `OwnDirectories.MergeAlignedIff` | src/usvfs.cpp:136-139 | Items lie in the directory their parent item stands for, as readlink supposes, after a merge if and only if it replaces no directory of which it leaves something, but by one with the same real path |
| `Scenarios.ReadlinkLooksElsewhere` | src/usvfs.cpp:136-139 | Two mods mounted: /a/b lies in /m1/a, while its parent item stands for /m2/a, where readlink looks |
| `Scenarios.TwoMissingLevelsBlockMaking` | src/usvfs.cpp:610-620 | A mod directory a/b over an empty upper directory: /a/b resolves, yet create and mkdir of /a/b/c fail for every host |
| `ExactDirectories.CreatedTable` | src/usvfsmanager.cpp:29-60 | What a scan files, on top of any table: the directory and its listed directories under their folded names, the last of a kind winning |
| `ExactDirectories.ExactLookup` | src/usvfs.cpp:18-27 | While lookups are exact, whatever find resolves, the lookup of its real parent yields the descriptor of that very directory, case included |
| `ExactDirectories.DescribedExact` | src/usvfsmanager.cpp:41-61 | A scanned tree, between what was filed before and after it, is looked up exactly if and only if what was filed after spells every key it needs alike, and no bare parent of a trailing slash is missing |
| `ExactDirectories.LinkDirectoryExactIff` | src/usvfsmanager.cpp:341-367 | For every mountpoint: a directory link keeps lookups exact if and only if it files nothing under a key that a surviving item needs spelled otherwise, trailing slashes aside |
| `ExactDirectories.LinkFileExactIff` | src/usvfsmanager.cpp:198-277 | The same for a file link of either kind |
| `ExactDirectories.HandleExactIff` | src/usvfs.cpp:148-270 | Without an upper directory: unlink and rmdir keep lookups exact; create and mkdir if and only if the own directory of the parent is filed as itself, and for mkdir the new one respells no needed key |
| `ExactDirectories.RunExactIff` | src/usvfsmanager.cpp:192-368 | A run keeps lookups at a mountpoint exact all the way if and only if each of its steps does |
| `ExactDirectories.ExactLookupsOverRuns` | src/usvfs.cpp:18-27 | Over every such run the lookup of the real parent of what find resolves in an active mount without an upper directory yields that very directory |
| `Scenarios.LookupHitsAnotherDirectory` | src/fdmap.cpp:6-19 | Mods in /M and /m, linked without slashes: the mount is sound, /a lies in /M, and the lookup of /M yields the descriptor of /m |
| `HandlerEffects.MkdirEffect` | src/usvfs.cpp:148-216 | The reply of mkdir in every case, with its error, and the whole new tree: a live item is EEXIST, a deleted one is revived under the name of the call, an unresolved parent is ENOENT; else a directory is added whose real path is that of the parent entry and the name, or, with an upper directory, that and the stored spelling of the parent and the name |
| `HandlerEffects.CreateEffect` | src/usvfs.cpp:593-645 | The reply of create in every case, with its error, and the whole new tree: a live item stays, a deleted one comes back with its name and kind, else a file is added; its real path is that of the parent entry and the name, or, with an upper directory, that and the parent as typed and the name |
| `HandlerEffects.MkdirFiles` | src/usvfs.cpp:183-207 | A mkdir of what is not there files the new directory as made in the directory of its parent under the name of the call, and the parent if it was made, spelled exactly so, and changes no other lookup |
| `HandlerEffects.CreateFiles` | src/usvfs.cpp:613-620 | A create files at most its parent, as made in the directory of its own parent, and changes no other lookup |
| `HandlerEffects.WithParentFiles` | src/usvfs.cpp:37-65 | A parent directory that is made is filed as made in the directory of the grandparent under its own name |
| `HandlerEffects.MadeAsSpelled` | src/usvfs.cpp:37-65 | Made in what is filed as itself, it is filed as itself |
| `HandlerEffects.MkdirAtRoot` | src/usvfs.cpp:155-168 | mkdir of "/" is EEXIST, or revives a deleted root as it was |
| `HandlerEffects.UnlinkEffect` | src/usvfs.cpp:218-238 | The reply of unlink in every case, with its error, and the whole new tree: precisely the entries at or below a resolved path are flagged, if its real parent is on file and the host agrees |
| `HandlerEffects.RmdirEffect` | src/usvfs.cpp:240-270 | The reply of rmdir in every case, with its error, ENOENT before ENOTDIR, and the whole new tree: the one entry is flagged, live children or not |
| `HandlerEffects.MkdirUndoesRmdir` | src/usvfs.cpp:155-168 | mkdir undoes a successful rmdir in any spelling: the mount is as before but for the spelling of the name |
| `Listing.ScanBuildsListing` | src/usvfsmanager.cpp:41-61 | A scan gets through exactly when no two listed paths differ in case only and every directory opens, and then the tree holds the listed entries and the root, all live, with their real paths and kinds, and nothing else |
| `Listing.ScanIsSound` | src/usvfsmanager.cpp:23-63 | A finished scan, from any table, has filed the listed directories and no others; any keys that include its table cover its items if and only if there is no trailing slash, or the bare directory is on file, or nothing lies at the top |
| `Listing.ScanCoversIff` | src/usvfsmanager.cpp:287-328 | A finished scan covers its items if and only if the directory has no trailing slash or lists nothing |
| `Listing.EntryPathIs` | src/usvfsmanager.cpp:41-61 | The real path of an entry at any depth is the listed directory, less a trailing slash, and then every segment behind a slash |
| `Roots.CreatedRoot` | src/usvfsmanager.cpp:23-27 | What a scan alone builds has as its root a live directory "/" that stands for the scanned one |
| `Roots.RootResolves` | src/virtualfiletreeitem.cpp:206-213 | Over every run from the empty manager find answers "/" and "" on every pending or active mount with a live directory of that name |
| `Scenarios.TrailingSlashMissesLookup` | src/usvfsmanager.cpp:287-328 | A mod linked as /m/: its top file resolves, and unlink of it fails for every answer of the host, for /m is not on file |
| `Linking.IndexOf` | src/usvfsmanager.cpp:341-343 | The first pending mount at a mountpoint, or -1 exactly when there is none |
| `Linking.LinkDirectorySoundIff` | src/usvfsmanager.cpp:279-368 | For every mountpoint: linking a directory keeps what is mounted there sound if and only if it goes elsewhere, fails, or its top entries, and those of a new destination that the source does not replace, lie in directories on file, which a trailing slash may spoil |
| `Linking.LinkFileIntoKeepsSoundIff` | src/usvfsmanager.cpp:219-236 | A file link into a pending mount keeps it sound if and only if name or source is empty, a live item is there, or the directory of the file opens or is on file |
| `Scenarios.UnopenedFileMissesLookup` | src/usvfsmanager.cpp:219-236 | A file link refused because its directory does not open: the file resolves all the same, and unlink of it fails for every answer of the host |
| `Linking.FileMountSoundIff` | src/usvfsmanager.cpp:238-276 | The mount that a file link makes, on any texts, is sound if and only if the top entries it does not replace lie in a directory on file |
| `Linking.LinkFileSoundIff` | src/usvfsmanager.cpp:198-277 | For every mountpoint: the exact condition on a file link of either kind |
| `Linking.MountPendingKeepsSound` | src/usvfsmanager.cpp:840-952 | Mounting, in full or up to the first failure, keeps what is at a mountpoint sound |
| `LinkReplies.MountPendingReplies` | src/usvfsmanager.cpp:840-952 | For all managers and hosts: with nothing pending mounting answers true and changes nothing; an upper directory that does not open makes it false and empties the pending list; else the pending states become active in order up to the first failure, with the upper directory filed as itself, and the answer is true exactly if that is all |
| `Linking.StepSoundIff` | src/usvfsmanager.cpp:192-368 | For every mountpoint and operation of the manager: the operation keeps what is there sound if and only if it is not a bad link to that mountpoint |
| `Linking.RunSoundIff` | src/usvfsmanager.cpp:192-368 | A run keeps a mountpoint sound all the way if and only if all its links to it are good, whatever it links elsewhere |
| `Linking.RunKeepsDistinct` | src/usvfsmanager.cpp:341-367 | Over every run, with no condition on links, hosts or listings, pending mountpoints are pairwise distinct |
| `Linking.EveryRunStaysOk` | src/usvfsmanager.cpp:192-368 | Over every run of good links, upper-directory changes, clearing, mounting and handler calls in any order, distinctness and soundness hold of the whole manager |
| `Linking.LookupsNeverMiss` | src/usvfs.cpp:18-27 | Over every run from the empty manager whose links to a mountpoint are good, the lookup of the real parent of whatever find resolves in an active mount there never yields -1, and yields the descriptor of that directory or of one that differs in case only |
| `Linking.RunsFromStart` | src/usvfsmanager.cpp:840-952 | Links without trailing slashes, of files whose directory opens, are good in any state |
| `LinkRuns.LinksFromScratch` | src/usvfsmanager.cpp:279-368 | After any run of directory links, to this mountpoint and to others, it is pending exactly when some link to it succeeded, and its tree is the destination with the linked sources merged onto it in order |
| `LinkRuns.LinksOntoExisting` | src/usvfsmanager.cpp:341-349 | The same for a mountpoint that was pending before the run, onto its pending tree |
| `LinkRuns.LastLinkWinsOverRuns` | src/usvfsmanager.cpp:341-368 | After any such run find answers with the real path of the last linked source that has the position, else of the destination, else with nothing |
| `LinkAnswers.FindAnswersOverRuns` | src/usvfsmanager.cpp:198-368 | Over every run of any operations, from the inputs alone: what is pending at a mountpoint, and for which paths find answers there, and with which real path; directory links override, file links fill in, or override as the first link; and the same on the active mount once it is mounted |
| `LinkAnswers.LastListedWins` | src/usvfsmanager.cpp:341-368 | find answers with the source directory and the segments of the entry that the last directory link listing the position has there, whatever was linked before, and whatever files are linked afterwards |
| `LinkRuns.FileLinkIntoNeverReplaces` | src/usvfsmanager.cpp:219-236 | A file link into a pending mount leaves every live item as it is |
| `LinkRuns.FileMountAlwaysReplaces` | src/usvfsmanager.cpp:259-276 | A file link that makes a mount always puts the file over whatever the destination has, and leaves it live |
| `LinkReplies.DirectoryOfText` | src/usvfsmanager.cpp:206-211 | The directory and the name of a destination, of which any number of slashes stands between: the directory in its own spelling, or "/" |
| `LinkReplies.FileLinkGoesTo` | src/usvfsmanager.cpp:218-274 | A file link to such a destination touches no pending mount but the one at that directory, spelled so, or else appends one there; nothing active changes |
| `LinkReplies.BareLinkGoesTo` | src/usvfsmanager.cpp:211-274 | The same of a bare name, for the mountpoint "" |
| `LinkReplies.FileLinkAdds` | src/usvfsmanager.cpp:223-235 | What it adds to a pending mount is the named item alone, live, with the path of the file, a file if it is new |
| `LinkReplies.LinkFileReplies` | src/usvfsmanager.cpp:198-277 | When a file link answers true, when false, and when it takes the process down; unless it succeeds as a new mount nothing is appended |
| `LinkReplies.LinkDirectoryReplies` | src/usvfsmanager.cpp:279-368 | The same of a directory link: false exactly if the source cannot be scanned; unless it succeeds nothing changes |
| `Scenarios.FileLinkDependsOnPending` | src/usvfsmanager.cpp:219-276 | One file link on which the two branches disagree: it replaces the file of the destination when it comes first, and is refused once an empty mod has been linked there |
| `Handshake.NextKeepsInv` | src/usvfsmanager.cpp:741-779 | Every step of the mounter or of any worker, and every spurious wakeup, keeps the protocol's invariant |
| `Handshake.RunInv` | src/usvfsmanager.cpp:862-950 | The invariant holds in every state of every interleaving |
| `Handshake.AppendsOnlyWhileAwaited` | src/usvfsmanager.cpp:771-775 | The active list changes only when one worker appends its own state, holding its mutex, while the mounter waits for that very worker; no other worker holds a mutex then |
| `Handshake.ReturnsWhatMounted` | src/usvfsmanager.cpp:862-951 | On return the active list is the old one and then the states before the first refused one, in order, once each; the result is true exactly when that is all of them; nothing changes the list later |
| `Handshake.HandshakeIsMountPending` | src/usvfsmanager.cpp:840-952 | So what every interleaving leaves is what mounting means for the manager, with nothing pending too |
| `Handshake.EveryStepIsProgress` | src/usvfsmanager.cpp:938-942 | Every step of anybody shrinks one number |
| `Handshake.RunsAreBounded` | src/usvfsmanager.cpp:862-951 | No interleaving goes on for ever: the number of states and of spurious wakeups bounds its length |
| `Handshake.SomebodyCanMove` | src/usvfsmanager.cpp:938-942 | Until the mounter has returned some step is possible without any spurious wakeup: no deadlock and no lost notification |
| `VirtualFileTree.VirtualFileTreeItem.FindInternal` | src/virtualfiletreeitem.cpp:338-379 | The recursive search is lookup at the split text; its second search always stops where the first did, so lines 353-361 are never reached |
| `VirtualFileTree.VirtualFileTreeItem.Find` | src/virtualfiletreeitem.cpp:206-220 | find hands out the very item at the position that the text names, exactly when the value lookup succeeds |
| `VirtualFileTree.VirtualFileTreeItem.FindIgnoresCase` | src/virtualfiletreeitem.cpp:206-220 | find hands out one item for texts that agree letter by letter but for case, and never one for rooted paths that do not |
| `VirtualFileTree.VirtualFileTreeItem.FoundInParent` | src/utils.cpp:168-184 | The item at a rooted path is the child, under the folded file name, of the item at the parent path, and points back at it |
| `VirtualFileTree.VirtualFileTreeItem.AddInternal` | src/virtualfiletreeitem.cpp:381-434 | The in-place walk with two cursors refines the value operation and hands out the item at the added position |
| `VirtualFileTree.VirtualFileTreeItem.Add` | src/virtualfiletreeitem.cpp:113-136 | add refines the value operation on every text but a lone trailing slash, errors included; a refused add changes nothing |
| `VirtualFileTree.VirtualFileTreeItem.IsEmpty` | src/virtualfiletreeitem.cpp:436-441 | Every tree is empty, whatever its children and their flags |
| `VirtualFileTree.VirtualFileTreeItem.Erase` | src/virtualfiletreeitem.cpp:188-204 | erase refines the value operation on every text; the exit with ENOTEMPTY is never taken |
| `VirtualFileTree.VirtualFileTreeItem.MarkAllChildrenAsDeleted` | src/virtualfiletreeitem.cpp:485-491 | The recursive loop over children, in any order, flags every descendant in place and nothing else |
| `VirtualFileTree.VirtualFileTreeItem.Clone` | src/virtualfiletreeitem.cpp:156-168 | A copy consists of fresh items only, has correct parent pointers inside, the same contents but for a live top, and the parent pointer of the original |
| `VirtualFileTree.VirtualFileTreeItem.CloneChildrenFrom` | src/virtualfiletreeitem.cpp:493-504 | The loop that copies children copies all of them, flags included |
| `VirtualFileTree.VirtualFileTreeItem.Merge` | src/virtualfiletreeitem.cpp:88-111 | The in-place merge of two trees that share nothing is the merge of their values; the result is a tree with correct parent pointers, what it owns anew is fresh, and no item of the right operand changes |
| `VirtualFileTree.VirtualFileTreeItem.FilePath` | src/virtualfiletreeitem.cpp:228-236 | Climbing parent pointers from any item of a tree spells the names from the root down to it |
| `VirtualFileTree.VirtualFileTreeItem.GetAllItemPaths` | src/virtualfiletreeitem.cpp:303-318 | The grown list has the path of every item at or below this one exactly once, deleted ones too, in any order of the children; the root only on demand |
| `VirtualFileTree.VirtualFileTreeItem.ListedPathsResolve` | src/virtualfiletreeitem.cpp:206-220 | Listed paths are distinct, find takes each back to the item that spelled it, and every item is reached so |
| `VirtualFileTree.VirtualFileTreeItem.ItemChanged` | src/usvfs.cpp:264-269 | After a change to one found item through its setters the rest of the tree is as before |
| `TreeRuns.RunRefines` | src/virtualfiletreeitem.cpp:113-220 | Over every run of add, find, erase and merge on well-formed paths the tree and the flat map give the same replies and stay the same map |
| `TreeRuns.AskAll` | src/virtualfiletreeitem.cpp:88-220 | Over every run of such calls, on any text in the domain of add, the mutable tree gives the replies of its value and ends as its value does, in place |
| `TreeRuns.CloneAndDiverge` | src/virtualfiletreeitem.cpp:156-168 | However calls on a copy and on its original interleave, each tree is what its own calls alone make of it |
| `Mounts.ReadOverWrite` | src/fdmap.cpp:6-19 | What operator[] writes under a path, `at` reads back under exactly the texts that agree with it but for case; every other lookup is as before, and in an empty table none hits |
| `Mounts.OpensItself` | src/usvfsmanager.cpp:29-35 | Opening a directory yields a descriptor of that directory in its own spelling, or none |
| `Mounts.WithParentReaches` | src/usvfs.cpp:37-65 | A handler gets at its real parent exactly when that is on file, or an upper directory is set, the grandparent is on file and the host makes and opens the parent |
| `MountStates.FdMap.Put` | src/fdmap.cpp:16-19 | Assignment in place changes what `at` answers for the spellings of the path and for nothing else |
| `MountStates.MountState.CreateParentDir` | src/usvfs.cpp:37-65 | Refines the value operation: a descriptor of the parent below its own parent, or the table as it was |
| `MountStates.MountState.Mkdir` | src/usvfs.cpp:148-216 | Refines the value handler on every text in the domain of add, for every answer of the host, tree and table in place |
| `MountStates.MountState.Create` | src/usvfs.cpp:593-645 | Refines the value handler on every text in the domain of add, for every answer of the host, with and without an upper directory |
| `MountStates.MountState.Unlink` | src/usvfs.cpp:218-238 | Refines the value handler on every text, for every answer of the host |
| `MountStates.MountState.Rmdir` | src/usvfs.cpp:240-270 | Refines the value handler on every text, for every answer of the host; its exit with ENOTEMPTY is never taken |
| `UsvfsManagers.ScanDirectory` | src/usvfsmanager.cpp:41-61 | The scanning loop refines the scan, tree and table in place |
| `UsvfsManagers.CreateTree` | src/usvfsmanager.cpp:23-63 | createFileTree makes a fresh tree without parent and adds to the given table, or fails exactly when the scan does |
| `UsvfsManagers.MergeTable` | src/usvfsmanager.cpp:346-348 | Copying a table entry by entry, in any order, is the union of the tables with the source winning |
| `UsvfsManagers.UsvfsManager.FindPending` | src/usvfsmanager.cpp:341-343 | The search loop finds the first pending mount at a mountpoint |
| `UsvfsManagers.UsvfsManager.LinkDirectory` | src/usvfsmanager.cpp:279-368 | Refines linking on the whole manager; pending and active mounts never share an object, and all others are untouched |
| `UsvfsManagers.UsvfsManager.LinkFile` | src/usvfsmanager.cpp:198-277 | Refines a file link on the whole manager, into a pending mount or as a new one, on success and on every failure |
| `UsvfsManagers.UsvfsManager.ClearVirtualMappings` | src/usvfsmanager.cpp:192-196 | Empties the pending list and nothing else |
| `UsvfsManagers.UsvfsManager.SetUpperDir` | src/usvfsmanager.cpp:717-721 | Sets the upper directory and nothing else |
| `UsvfsManagers.UsvfsManager.MountInternal` | src/usvfsmanager.cpp:840-952 | Refines mounting: pending is emptied, the states before the first failure become active in order with the upper directory on file |
| `UsvfsManagers.UsvfsManager.HandleActive` | src/usvfs.cpp:31-35 | A handler call changes the one active mount it reaches as the value handler says; no other mount, pending or active, changes, and all stay disjoint |
| `UsvfsManagers.UsvfsManager.Perform` | src/usvfsmanager.cpp:192-368 | Every operation, links, mounting and handler calls, takes the mutable manager from its value to the next value |
| `UsvfsManagers.UsvfsManager.PerformAll` | src/usvfsmanager.cpp:192-368 | So every run of the mutable manager is a run of values, and what is proved of all runs holds of it |

## Left out

- Non-ASCII case folding through ICU: lengths may change; text is folded letter by letter.
- System calls: opens, mkdirat, unlinkat and fuse_mount answer through parameters; a descriptor is the directory it was opened on, or Invalid for -1. Other errno values of the host become one.
- Order of children: loops over maps take the children in any order, so listings are proved up to that order.
- Per-item locking: operations on one tree do not overlap in this model; only the mounting handshake is interleaved.
- Namespace mode, unmount, process spawning, wine overrides and isMounted.
- usvfs_rename: it leaves real paths of descendants behind and inserts into the table on lookup, so no clean invariant rests on it.
- usvfs_getattr, usvfs_readlink, usvfs_readdir, read and write: they only look up, and of them only the lookups are stated; the `.directory` suffix and filtering are not modelled.
- Agreement of the tree with the disk: reviving a directory touches only the tree.
- Skip lists: a listing is what is left after skipping.
- Lifetime of a mount state after a failed mount, closing of descriptors, and allocation failures.
- Exceptions: an exception that leaves a function declared to throw none ends the process; the model replies Terminated and leaves the manager as it was.
- Type detection of the add overload without a type: the type is a parameter.
- The stored mount options and the process id of a mount state.
- VirtualFileTree.VirtualFileTreeItem.Add: does not cover a text of at least two characters that ends in one slash not preceded by another, because addInternal then reads the first character of an empty view.
- MountStates.MountState.Mkdir: leaves out the same texts, on which it would call add; FUSE hands out none of them.
- MountStates.MountState.Create: as for Mkdir.
- UsvfsManagers.UsvfsManager.LinkFile: parent_path keeps a path's leading slashes as the library at hand likes; the model takes "/" for any number of them.
- UsvfsManagers.UsvfsManager.MountInternal: appends in the loop where the detached thread does it; module Handshake proves that every interleaving amounts to that.
- ExactDirectories.HandleExactIff: says nothing of mounts with an upper directory, where the spelling on disk is that of whoever made the directory first.
- Linking.StepSoundIff: takes listings as a recursive iterator delivers them: sensible names, no path twice, a directory before what is in it.
- DeletionRuns.StepClosedIff: takes handler calls on rooted paths other than the root, as FUSE makes them.
- DeletionRuns.FindSoundOnTreeAndCopy: merges take one source tree over a run; it is not changed meanwhile.
- VirtualFileTree.VirtualFileTreeItem.ListedPathsResolve: takes a tree whose keys and names agree, which `UpperDirectories.RunStaysAnchored` proves of every reachable one.
