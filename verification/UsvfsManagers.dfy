/** The manager of src/usvfsmanager.cpp: it scans directories into trees, links them into
    its pending mounts in place, and mounts them.  A handler call reaches one active mount;
    here the manager passes it on, which in the program the FUSE loop of that mount does. */
module UsvfsManagers {
  import opened Paths
  import opened Nodes
  import opened VirtualFileTree
  import opened MountStates
  import opened Listing
  import opened Linking
  import Mounts

  // -------------------------------------------------------------------------- scanning

  /** Every key of the table is folded, so filing under a key again changes nothing. */
  ghost predicate FoldedKeys(fds: Mounts.Fds) {
    forall k | k in fds :: ToLower(k) == k
  }

  lemma PutKeepsFolded(fds: Mounts.Fds, path: string, fd: Fd)
    requires FoldedKeys(fds)
    ensures FoldedKeys(Mounts.FdPut(fds, path, fd))
  {
    FoldIsStable(path);
  }

  lemma EntryTextEndsWell(e: DirEntry)
    requires EntryOk(e)
    ensures !LoneTrailingSlash(Join(e.Relative()))
  {
    var p := e.Relative();
    SplitOfJoin(p);
    LastOfSplit(Join(p));
    assert SegmentOk(p[|p| - 1]);
  }

  lemma {:induction false} ScanFails(start: Scanned, directory: string, listing: seq<DirEntry>, i: nat,
                                       unopenable: set<string>)
    requires i <= |listing| && Scan(start, directory, listing[..i], unopenable).None?
    ensures Scan(start, directory, listing, unopenable).None?
    decreases |listing|
  {
    if i < |listing| {
      assert Front(listing)[..i] == listing[..i];
      ScanFails(start, directory, Front(listing), i, unopenable);
    } else {
      assert listing[..i] == listing;
    }
  }

  /** The loop over a recursive directory iterator. */
  method ScanDirectory(tree: VirtualFileTreeItem, fdMap: FdMap, directory: string, listing: seq<DirEntry>,
                       unopenable: set<string>)
    returns (ok: bool)
    requires tree.Valid() && FoldedKeys(fdMap.fds) && forall e | e in listing :: EntryOk(e)
    modifies tree.Repr, fdMap
    ensures tree.Valid() && fresh(tree.Repr - old(tree.Repr)) && tree.parent == old(tree.parent)
    ensures FoldedKeys(fdMap.fds)
    ensures match Scan(Scanned(old(tree.Tree()), old(fdMap.fds)), directory, listing, unopenable)
            case None => !ok
            case Some(s) => ok && s == Scanned(tree.Tree(), fdMap.fds)
  {
    ghost var start := Scanned(tree.Tree(), fdMap.fds);
    for i := 0 to |listing|
      invariant tree.Valid() && fresh(tree.Repr - old(tree.Repr)) && tree.parent == old(tree.parent)
      invariant FoldedKeys(fdMap.fds)
      invariant Scan(start, directory, listing[..i], unopenable) == Some(Scanned(tree.Tree(), fdMap.fds))
    {
      assert Front(listing[..i + 1]) == listing[..i];
      var added := ScanOne(tree, fdMap, directory, listing[i], unopenable);
      if !added {
        ScanFails(start, directory, listing, i + 1, unopenable);
        return false;
      }
    }
    assert listing[..|listing|] == listing;
    ok := true;
  }

  /** One turn of that loop. */
  method ScanOne(tree: VirtualFileTreeItem, fdMap: FdMap, directory: string, e: DirEntry, unopenable: set<string>)
    returns (ok: bool)
    requires tree.Valid() && FoldedKeys(fdMap.fds) && EntryOk(e)
    modifies tree.Repr, fdMap
    ensures tree.Valid() && fresh(tree.Repr - old(tree.Repr)) && tree.parent == old(tree.parent)
    ensures FoldedKeys(fdMap.fds)
    ensures match ScanEntry(Scanned(old(tree.Tree()), old(fdMap.fds)), directory, e, unopenable)
            case None => !ok
            case Some(s) => ok && s == Scanned(tree.Tree(), fdMap.fds)
  {
    EntryTextEndsWell(e);
    var path := EntryPath(directory, e.Relative());
    var newItem := tree.Add(Join(e.Relative()), path, if e.isDir then Dir else File, false);
    if newItem.Err? {
      return false;
    }
    if e.isDir {
      var fd := Mounts.OpenDir(path, unopenable);
      if fd.Invalid? {
        return false;
      }
      PutKeepsFolded(fdMap.fds, path, fd);
      fdMap.Put(path, fd);
    }
    ok := true;
  }

  /** createFileTree; null stands for the exception it throws. */
  method CreateTree(path: string, fdMap: FdMap, listing: seq<DirEntry>, unopenable: set<string>)
    returns (tree: VirtualFileTreeItem?)
    requires FoldedKeys(fdMap.fds) && forall e | e in listing :: EntryOk(e)
    modifies fdMap
    ensures FoldedKeys(fdMap.fds)
    ensures tree != null ==> tree.Valid() && fresh(tree.Repr) && tree.parent == null
    ensures match CreateFileTree(path, old(fdMap.fds), listing, unopenable)
            case None => tree == null
            case Some(s) => tree != null && s == Scanned(tree.Tree(), fdMap.fds)
  {
    var root := new VirtualFileTreeItem("/", path, Dir, null);
    var fd := Mounts.OpenDir(path, unopenable);
    if fd.Invalid? {
      return null;
    }
    PutKeepsFolded(fdMap.fds, path, fd);
    fdMap.Put(path, fd);
    var ok := ScanDirectory(root, fdMap, path, listing, unopenable);
    tree := if ok then root else null;
  }

  // ------------------------------------------------------------------- one mount state

  /** The objects that a mount state owns. */
  ghost function Footprint(s: MountState): set<object>
    reads s, s.fileTree
  {
    {s, s.fdMap} + s.fileTree.Repr
  }

  /** Merge a scanned source into a pending mount: the tree in place, then the table entry
      by entry. */
  method MergeInto(state: MountState, sourceTree: VirtualFileTreeItem, fdMap: FdMap)
    requires state.Valid() && sourceTree.Valid() && state.fileTree.Repr !! sourceTree.Repr
    requires state.fdMap != fdMap && FoldedKeys(fdMap.fds)
    modifies Footprint(state)
    ensures state.Valid() && fresh(Footprint(state) - old(Footprint(state)))
    ensures state.View() == old(state.View()).(tree := Nodes.Merge(old(state.fileTree.Tree()), old(sourceTree.Tree())),
                                               fds := old(state.fdMap.fds) + old(fdMap.fds))
  {
    state.fileTree.Merge(sourceTree);
    MergeTable(state.fdMap, fdMap);
  }

  /** A new state: the destination's own tree with the source merged onto it; null if the
      destination cannot be scanned. */
  method MergedState(r: DirLink, sourceTree: VirtualFileTreeItem, fdMap: FdMap) returns (state: MountState?)
    requires sourceTree.Valid() && FoldedKeys(fdMap.fds) && Listable(r.destinationListing)
    modifies fdMap
    ensures state != null ==> fresh(state) && state.Valid() && state.fdMap == fdMap && fresh(state.fileTree.Repr)
    ensures match CreateFileTree(r.destination, old(fdMap.fds), r.destinationListing, r.unopenable)
            case None => state == null
            case Some(d) =>
              state != null && state.View() ==
                Mounts.Mount(Nodes.Merge(d.tree, old(sourceTree.Tree())), d.fds, r.destination, "")
  {
    var destinationTree := CreateTree(r.destination, fdMap, r.destinationListing, r.unopenable);
    if destinationTree == null {
      return null;
    }
    destinationTree.Merge(sourceTree);
    state := new MountState(destinationTree, fdMap, r.destination);
  }

  /** Add a linked file to a pending mount, then file the directory it really lies in. */
  method AddFile(state: MountState, r: FileLink) returns (reply: LinkReply)
    requires state.Valid()
    modifies Footprint(state)
    ensures state.Valid() && fresh(Footprint(state) - old(Footprint(state)))
    ensures (state.View(), reply) == LinkFileInto(old(state.View()), r)
  {
    var newItem := state.fileTree.Add(FileName(r.destination), r.source, File, false);
    if newItem.Err? {
      return NotLinked;
    }
    var fd := Mounts.OpenDir(ParentPath(r.source), r.unopenable);
    if fd.Invalid? {
      return NotLinked;
    }
    state.fdMap.Put(ParentPath(r.source), fd);
    reply := Linked;
  }

  method FileTable(r: FileLink) returns (fdMap: FdMap?)
    ensures fdMap != null ==> fresh(fdMap) && FoldedKeys(fdMap.fds)
    ensures match FileFds(r)
            case None => fdMap == null
            case Some(fds) => fdMap != null && fdMap.fds == fds
  {
    var source, directory := ParentPath(r.source), ParentPath(r.destination);
    var sourceFd := Mounts.OpenDir(source, r.unopenable);
    if sourceFd.Invalid? {
      return null;
    }
    var table := new FdMap();
    PutKeepsFolded(table.fds, source, sourceFd);
    table.Put(source, sourceFd);
    var directoryFd := Mounts.OpenDir(directory, r.unopenable);
    if directoryFd.Invalid? {
      return null;
    }
    PutKeepsFolded(table.fds, directory, directoryFd);
    table.Put(directory, directoryFd);
    fdMap := table;
  }

  /** A new state for a linked file: the destination's own tree with the file put over
      whatever it holds. */
  method FileState(r: FileLink) returns (state: MountState?, reply: LinkReply)
    requires Listable(r.destinationListing)
    ensures state != null ==> state.Valid() && fresh(Footprint(state))
    ensures match FileMount(r)
            case (None, refusal) => state == null && reply == refusal
            case (Some(m), success) => state != null && state.View() == m && reply == success
  {
    var fdMap := FileTable(r);
    if fdMap == null {
      return null, NotLinked;
    }
    state, reply := ScannedState(fdMap, r);
    if state != null {
      FootprintIs(state);
    }
  }

  lemma FootprintIs(s: MountState)
    ensures forall o | o in Footprint(s) :: o == s || o == s.fdMap || o in s.fileTree.Repr
  {}

  /** The same, with the two directories on file already. */
  method ScannedState(fdMap: FdMap, r: FileLink) returns (state: MountState?, reply: LinkReply)
    requires Listable(r.destinationListing) && FoldedKeys(fdMap.fds) && FileFds(r) == Some(fdMap.fds)
    modifies fdMap
    ensures state != null ==>
              fresh(state) && state.Valid() && state.fdMap == fdMap && fresh(state.fileTree.Repr)
    ensures match FileMount(r)
            case (None, refusal) => state == null && reply == refusal
            case (Some(m), success) => state != null && state.View() == m && reply == success
  {
    var tree := CreateTree(ParentPath(r.destination), fdMap, r.destinationListing, r.unopenable);
    if tree == null {
      return null, Terminated;
    }
    state := OverwritingState(tree, fdMap, r);
    reply := if state == null then NotLinked else Linked;
  }

  method OverwritingState(tree: VirtualFileTreeItem, fdMap: FdMap, r: FileLink) returns (state: MountState?)
    requires tree.Valid() && tree.parent == null
    modifies tree.Repr
    ensures state != null ==>
              && fresh(state) && state.Valid() && state.fdMap == fdMap && state.fileTree == tree
              && fresh(tree.Repr - old(tree.Repr))
    ensures match AddText(old(tree.Tree()), FileName(r.destination), r.source, File, true)
            case Err(_) => state == null
            case Ok(t) => state != null && state.View() == Mounts.Mount(t, fdMap.fds, DirectoryOf(r.destination), "")
  {
    var newItem := tree.Add(FileName(r.destination), r.source, File, true);
    if newItem.Err? {
      return null;
    }
    state := new MountState(tree, fdMap, DirectoryOf(r.destination));
  }

  method MergeTable(target: FdMap, source: FdMap)
    requires target != source && FoldedKeys(source.fds)
    modifies target
    ensures target.fds == old(target.fds) + source.fds
  {
    var todo := source.fds.Keys;
    while todo != {}
      invariant todo <= source.fds.Keys
      invariant target.fds == old(target.fds) + (source.fds - todo)
    {
      var path :| path in todo;
      target.Put(path, source.fds[path]);
      todo := todo - {path};
    }
  }

  // ----------------------------------------------------------------------- the manager

  class UsvfsManager {
    var pendingMounts: seq<MountState>
    var mounts: seq<MountState>
    var upperDir: string
    ghost var pendingView: seq<Mounts.Mount>
    ghost var activeView: seq<Mounts.Mount>
    ghost var Repr: set<object>

    /** The state is owned, valid, and what the view says. */
    ghost predicate Owns(state: MountState, view: Mounts.Mount)
      reads this, Repr
    {
      && state in Repr && state.fdMap in Repr && state.fileTree in Repr
      && Footprint(state) <= Repr && state.Valid() && state.View() == view
    }

    ghost predicate Holds(states: seq<MountState>, views: seq<Mounts.Mount>)
      reads this, Repr
    {
      |states| == |views| && forall i | 0 <= i < |states| :: Owns(states[i], views[i])
    }

    ghost predicate Apart(states: seq<MountState>)
      reads set s | s in states, set s | s in states :: s.fileTree
    {
      forall i, j | 0 <= i < |states| && 0 <= j < |states| && i != j :: Footprint(states[i]) !! Footprint(states[j])
    }

    ghost predicate Valid()
      reads this, Repr
    {
      && this !in Repr
      && Holds(pendingMounts, pendingView) && Holds(mounts, activeView)
      && Apart(All())
    }

    ghost function View(): Manager
      reads this
    {
      Manager(pendingView, activeView, upperDir)
    }

    constructor ()
      ensures Valid() && fresh(Repr) && View() == Manager([], [], "")
    {
      pendingMounts, mounts, upperDir, pendingView, activeView, Repr := [], [], "", [], [], {};
    }

    method FindPending(mountpoint: string) returns (index: int)
      requires Valid()
      ensures index == IndexOf(pendingView, mountpoint)
    {
      for i := 0 to |pendingMounts|
        invariant forall j | 0 <= j < i :: pendingView[j].mountpoint != mountpoint
      {
        if pendingMounts[i].mountpoint == mountpoint {
          assert pendingMounts[i].View() == pendingView[i];
          return i;
        }
        assert pendingMounts[i].View() == pendingView[i];
      }
      index := -1;
    }

    method Enqueue(state: MountState)
      requires Valid() && state.Valid() && Footprint(state) !! Repr && this !in Footprint(state)
      modifies this
      ensures Valid() && Repr == old(Repr) + Footprint(state)
      ensures View() == old(View()).(pending := old(pendingView) + [state.View()])
    {
      pendingMounts, pendingView := pendingMounts + [state], pendingView + [state.View()];
      Repr := Repr + Footprint(state);
      Enqueued(state);
    }

    twostate lemma Enqueued(new state: MountState)
      requires old(Valid()) && unchanged(`mounts, `upperDir, `activeView) && unchanged(old(Repr))
      requires pendingMounts == old(pendingMounts) + [state] && pendingView == old(pendingView) + [state.View()]
      requires Repr == old(Repr) + Footprint(state) && state.Valid()
      requires Footprint(state) !! old(Repr) && this !in Footprint(state)
      ensures Valid()
    {
      var all := old(All());
      assert All() == all + [state];
      forall j | 0 <= j < |all|
        ensures Footprint(all[j]) == old(Footprint(all[j])) && Footprint(all[j]) <= old(Repr) && all[j].Valid()
        ensures all[j].View() == old(all[j].View())
      {
        assert unchanged(old(Footprint(all[j])));
      }
      assert forall j | 0 <= j < |mounts| :: mounts[j] == all[j];
      assert forall j | 0 <= j < |pendingMounts| - 1 :: pendingMounts[j] == all[|mounts| + j];
    }

    ghost function All(): seq<MountState>
      reads this
    {
      mounts + pendingMounts
    }

    /** States that share nothing with what has changed are as they were. */
    twostate lemma OthersKept(k: nat)
      requires old(Valid()) && k < |old(All())|
      requires unchanged(old(Repr) - old(Footprint(All()[k])))
      ensures forall j | 0 <= j < |old(All())| && j != k ::
                && old(All()[j]).Valid() && old(All()[j]).View() == old(All()[j].View())
                && Footprint(old(All()[j])) == old(Footprint(All()[j]))
    {
      forall j | 0 <= j < |old(All())| && j != k ensures unchanged(old(Footprint(All()[j]))) {
        assert old(Footprint(All()[j])) !! old(Footprint(All()[k]));
      }
    }

    /** A pending state has been changed within what it owned or has made since. */
    twostate lemma PendingChanged(i: nat)
      requires old(Valid()) && i < |pendingMounts|
      requires unchanged(`pendingMounts, `mounts, `upperDir, `activeView)
      requires pendingView == old(pendingView)[i := pendingMounts[i].View()]
      requires pendingMounts[i].Valid() && unchanged(old(Repr) - old(Footprint(pendingMounts[i])))
      requires fresh(Footprint(pendingMounts[i]) - old(Footprint(pendingMounts[i])))
      requires Repr == old(Repr) + Footprint(pendingMounts[i])
      ensures Valid()
    {
      var all, k := All(), |mounts| + i;
      assert all[k] == pendingMounts[i];
      OthersKept(k);
      assert forall j | 0 <= j < |mounts| :: mounts[j] == all[j];
      assert forall j | 0 <= j < |pendingMounts| :: pendingMounts[j] == all[|mounts| + j];
      forall j | 0 <= j < |all| && j != k ensures Footprint(all[j]) !! Footprint(all[k]) {
        assert old(Footprint(all[j])) !! old(Footprint(all[k]));
      }
    }

    // -------------------------------------------------------------- link a directory

    method LinkDirectory(r: DirLink) returns (reply: LinkReply)
      requires Valid() && Listable(r.listing) && Listable(r.destinationListing)
      modifies this, Repr
      ensures Valid() && fresh(Repr - old(Repr))
      ensures (View(), reply) == Linking.LinkDirectory(old(View()), r)
    {
      var fdMap := new FdMap();
      var sourceTree := CreateTree(r.source, fdMap, r.listing, r.unopenable);
      if sourceTree == null {
        return NotLinked;
      }
      reply := LinkScanned(r, sourceTree, fdMap);
    }

    method LinkScanned(r: DirLink, sourceTree: VirtualFileTreeItem, fdMap: FdMap) returns (reply: LinkReply)
      requires Valid() && sourceTree.Valid() && FoldedKeys(fdMap.fds) && Listable(r.destinationListing)
      requires fdMap !in Repr && forall o | o in sourceTree.Repr :: o !in Repr
      requires SourceScan(r) == Some(Scanned(sourceTree.Tree(), fdMap.fds))
      modifies this, Repr, fdMap
      ensures Valid() && fresh(Repr - old(Repr) - {fdMap})
      ensures (View(), reply) == Linking.LinkDirectory(old(View()), r)
    {
      var i := FindPending(r.destination);
      if i >= 0 {
        MergePending(i, sourceTree, fdMap);
        reply := Linked;
      } else {
        reply := MergeNew(r, sourceTree, fdMap);
      }
    }

    method MergeNew(r: DirLink, sourceTree: VirtualFileTreeItem, fdMap: FdMap) returns (reply: LinkReply)
      requires Valid() && sourceTree.Valid() && FoldedKeys(fdMap.fds) && Listable(r.destinationListing)
      requires fdMap !in Repr
      modifies this, fdMap
      ensures Valid() && fresh(Repr - old(Repr) - {fdMap})
      ensures match CreateFileTree(r.destination, old(fdMap.fds), r.destinationListing, r.unopenable)
              case None => reply == Terminated && View() == old(View())
              case Some(d) =>
                var m := Mounts.Mount(Nodes.Merge(d.tree, old(sourceTree.Tree())), d.fds, r.destination, "");
                reply == Linked && View() == old(View()).(pending := old(pendingView) + [m])
    {
      var state := MergedState(r, sourceTree, fdMap);
      if state == null {
        return Terminated;
      }
      ghost var made := Footprint(state);
      assert fresh(made - {fdMap}) && fdMap in made;
      Enqueue(state);
      reply := Linked;
    }

    method MergePending(i: nat, sourceTree: VirtualFileTreeItem, fdMap: FdMap)
      requires Valid() && i < |pendingMounts| && sourceTree.Valid() && FoldedKeys(fdMap.fds)
      requires fdMap !in Repr && forall o | o in sourceTree.Repr :: o !in Repr
      modifies this, Repr
      ensures Valid() && fresh(Repr - old(Repr))
      ensures View() == old(View()).(pending := old(pendingView)[i := old(pendingView)[i].(
                tree := Nodes.Merge(old(pendingView)[i].tree, old(sourceTree.Tree())),
                fds := old(pendingView)[i].fds + old(fdMap.fds))])
    {
      var state := pendingMounts[i];
      assert state.View() == pendingView[i];
      assert forall o | o in state.fileTree.Repr :: o in Footprint(state);
      MergeInto(state, sourceTree, fdMap);
      assert this !in Footprint(state);
      pendingView := pendingView[i := state.View()];
      Repr := Repr + Footprint(state);
      PendingChanged(i);
    }

    // ------------------------------------------------------------------ link a file

    method LinkFile(r: FileLink) returns (reply: LinkReply)
      requires Valid() && Listable(r.destinationListing)
      modifies this, Repr
      ensures Valid() && fresh(Repr - old(Repr))
      ensures (View(), reply) == Linking.LinkFile(old(View()), r)
    {
      if r.skipped {
        return Linked;
      }
      var i := FindPending(DirectoryOf(r.destination));
      if i >= 0 {
        reply := AddToPending(i, r);
      } else {
        reply := AddToNew(r);
      }
    }

    method AddToPending(i: nat, r: FileLink) returns (reply: LinkReply)
      requires Valid() && i < |pendingMounts|
      modifies this, Repr
      ensures Valid() && fresh(Repr - old(Repr))
      ensures View() == old(View()).(pending := old(pendingView)[i := LinkFileInto(old(pendingView)[i], r).0])
      ensures reply == LinkFileInto(old(pendingView)[i], r).1
    {
      var state := pendingMounts[i];
      assert state.View() == pendingView[i];
      reply := AddFile(state, r);
      pendingView := pendingView[i := state.View()];
      Repr := Repr + Footprint(state);
      PendingChanged(i);
    }

    method AddToNew(r: FileLink) returns (reply: LinkReply)
      requires Valid() && Listable(r.destinationListing)
      modifies this
      ensures Valid() && fresh(Repr - old(Repr))
      ensures (View(), reply) == LinkFileNew(old(View()), r)
    {
      var state;
      state, reply := FileState(r);
      if state != null {
        Enqueue(state);
      }
    }

    // ---------------------------------------------------------------------- mounting

    method ClearVirtualMappings()
      requires Valid()
      modifies this
      ensures Valid() && View() == old(View()).(pending := []) && Repr == old(Repr)
    {
      pendingMounts, pendingView := [], [];
      assert forall j | 0 <= j < |mounts| :: mounts[j] == old(All())[j];
    }

    method SetUpperDir(value: string)
      requires Valid()
      modifies this
      ensures Valid() && View() == old(View()).(upperDir := value) && Repr == old(Repr)
    {
      upperDir := value;
      assert All() == old(All());
    }

    /** In the middle of mounting: nothing is pending, and rest is still to mount. */
    ghost predicate Midway(rest: seq<MountState>, views: seq<Mounts.Mount>)
      reads this, Repr
    {
      && this !in Repr && pendingMounts == [] && pendingView == []
      && Holds(mounts, activeView) && Holds(rest, views) && Apart(mounts + rest)
    }

    lemma MidwayIsValid(rest: seq<MountState>, views: seq<Mounts.Mount>)
      requires Midway(rest, views)
      ensures Valid()
    {
      assert forall j | 0 <= j < |mounts| :: All()[j] == (mounts + rest)[j];
    }

    /** The loop of mountInternal.  The thread of a state appends it to the active list while
        this loop waits for that thread (module Handshake), so the append stands here. */
    method MountInternal(upperOpens: bool, mountable: nat) returns (result: bool)
      requires Valid()
      modifies this, Repr
      ensures Valid() && Repr == old(Repr)
      ensures (View(), result) == MountPending(old(View()), upperOpens, mountable)
    {
      if pendingMounts == [] {
        return true;
      }
      ghost var views := pendingView;
      var toMount := TakePending();
      if upperDir != "" && !upperOpens {
        MidwayIsValid(toMount, views);
        return false;
      }
      result := MountEach(toMount, views, mountable);
    }

    /** Move the pending states to a local list. */
    method TakePending() returns (toMount: seq<MountState>)
      requires Valid()
      modifies this
      ensures toMount == old(pendingMounts) && Midway(toMount, old(pendingView))
      ensures unchanged(`Repr, `mounts, `activeView, `upperDir)
    {
      toMount := pendingMounts;
      pendingMounts, pendingView := [], [];
      assert mounts + toMount == old(All());
    }

    method MountEach(toMount: seq<MountState>, ghost views: seq<Mounts.Mount>, mountable: nat) returns (result: bool)
      requires Midway(toMount, views)
      modifies this, Repr
      ensures Valid() && Repr == old(Repr) && upperDir == old(upperDir) && pendingView == []
      ensures var n := if mountable < |views| then mountable else |views|;
              result == (n == |views|) && activeView == old(activeView) + PrepareAll(views[..n], upperDir)
    {
      var rest, i := toMount, 0;
      ghost var left := views;
      while rest != []
        invariant i <= mountable && i <= |views| && left == views[i..] && Midway(rest, left)
        invariant Repr == old(Repr) && upperDir == old(upperDir)
        invariant activeView == old(activeView) + PrepareAll(views[..i], upperDir)
        decreases |rest|
      {
        PrepareMore(views, i, upperDir);
        var ok := MountOne(rest, left, i < mountable);
        rest, left := rest[1..], left[1..];
        if !ok {
          MidwayIsValid(rest, left);
          return false;
        }
        i := i + 1;
      }
      MidwayIsValid(rest, left);
      result := true;
    }

    lemma PrepareMore(views: seq<Mounts.Mount>, i: nat, upperDir: string)
      ensures i < |views| ==> views[i..][1..] == views[i + 1..]
      ensures i < |views| ==>
                PrepareAll(views[..i + 1], upperDir) ==
                PrepareAll(views[..i], upperDir) + [Prepared(views[i], upperDir)]
    {}

    /** One turn of that loop; granted says whether the host mounts the state. */
    method MountOne(rest: seq<MountState>, ghost views: seq<Mounts.Mount>, granted: bool) returns (ok: bool)
      requires rest != [] && Midway(rest, views)
      modifies this, rest[0], rest[0].fdMap
      ensures Midway(rest[1..], views[1..]) && Repr == old(Repr) && upperDir == old(upperDir)
      ensures ok == granted
      ensures activeView == if ok then old(activeView) + [Prepared(views[0], upperDir)] else old(activeView)
    {
      Prepare(rest, views);
      ghost var prepared := views[0 := Prepared(views[0], upperDir)];
      assert prepared[1..] == views[1..];
      if granted {
        Activate(rest, prepared);
      } else {
        DropFirst(rest, prepared);
      }
      ok := granted;
    }

    method Activate(rest: seq<MountState>, ghost views: seq<Mounts.Mount>)
      requires rest != [] && Midway(rest, views)
      modifies `mounts, `activeView
      ensures Midway(rest[1..], views[1..]) && activeView == old(activeView) + [views[0]]
    {
      ghost var all, allViews := mounts + rest, activeView + views;
      assert Holds(all, allViews);
      MoveFirst(mounts, rest);
      MoveFirst(activeView, views);
      mounts, activeView := mounts + [rest[0]], activeView + [views[0]];
      forall i | 0 <= i < |all| ensures Footprint(all[i]) == old(Footprint(all[i])) {
        assert unchanged(old(Footprint(all[i])));
      }
      assert Apart(all);
      forall i | 0 <= i < |all| ensures Owns(all[i], allViews[i]) {
        assert old(Owns(all[i], allViews[i])) && unchanged(old(Footprint(all[i])));
      }
      assert Holds(all, allViews);
      HoldsBoth(mounts, rest[1..], activeView, views[1..]);
    }

    lemma MoveFirst<T>(front: seq<T>, rest: seq<T>)
      requires rest != []
      ensures front + rest == front + [rest[0]] + rest[1..]
    {}

    lemma HoldsBoth(front: seq<MountState>, back: seq<MountState>,
                    frontViews: seq<Mounts.Mount>, backViews: seq<Mounts.Mount>)
      requires Holds(front + back, frontViews + backViews) && |front| == |frontViews|
      ensures Holds(front, frontViews) && Holds(back, backViews)
    {
      forall i | 0 <= i < |front| ensures Owns(front[i], frontViews[i]) {
        assert front[i] == (front + back)[i] && frontViews[i] == (frontViews + backViews)[i];
      }
      forall i | 0 <= i < |back| ensures Owns(back[i], backViews[i]) {
        assert back[i] == (front + back)[|front| + i] && backViews[i] == (frontViews + backViews)[|front| + i];
      }
    }

    lemma DropFirst(rest: seq<MountState>, views: seq<Mounts.Mount>)
      requires rest != [] && Midway(rest, views)
      ensures Midway(rest[1..], views[1..])
    {
      var all, fewer := mounts + rest, mounts + rest[1..];
      assert forall j | 0 <= j < |fewer| :: fewer[j] == all[if j < |mounts| then j else j + 1];
    }

    method Prepare(rest: seq<MountState>, ghost views: seq<Mounts.Mount>)
      requires rest != [] && Midway(rest, views)
      modifies rest[0], rest[0].fdMap
      ensures Midway(rest, views[0 := Prepared(views[0], upperDir)])
    {
      if upperDir == "" {
        assert views[0 := Prepared(views[0], upperDir)] == views;
      } else {
        SetUpper(rest, views);
      }
    }

    method SetUpper(rest: seq<MountState>, ghost views: seq<Mounts.Mount>)
      requires rest != [] && Midway(rest, views) && upperDir != ""
      modifies rest[0], rest[0].fdMap
      ensures Midway(rest, views[0 := Prepared(views[0], upperDir)])
    {
      var state := rest[0];
      ghost var all := mounts + rest;
      OnlyItsOwn(rest, views);
      assert Owns(state, views[0]);
      state.UseUpperDir(upperDir);
      assert forall j | 0 <= j < |all| :: Footprint(all[j]) == old(Footprint(all[j]));
      ghost var prepared := views[0 := Prepared(views[0], upperDir)];
      assert Owns(state, prepared[0]);
      forall j | 0 < j < |rest| ensures Owns(rest[j], prepared[j]) {
        assert old(Owns(rest[j], views[j]));
      }
      assert Holds(mounts, activeView);
    }

    lemma OnlyItsOwn(rest: seq<MountState>, views: seq<Mounts.Mount>)
      requires rest != [] && Midway(rest, views)
      ensures forall j | 0 <= j < |mounts| :: mounts[j] != rest[0] && mounts[j].fdMap != rest[0].fdMap
      ensures forall j | 0 < j < |rest| :: rest[j] != rest[0] && rest[j].fdMap != rest[0].fdMap
    {
      var all, k := mounts + rest, |mounts|;
      forall j | 0 <= j < |all| && j != k ensures all[j] != all[k] && all[j].fdMap != all[k].fdMap {
        assert Footprint(all[j]) !! Footprint(all[k]);
        assert all[j] in Footprint(all[j]) && all[j].fdMap in Footprint(all[j]);
      }
      assert forall j | 0 <= j < |mounts| :: mounts[j] == all[j];
      assert forall j | 0 <= j < |rest| :: rest[j] == all[k + j];
    }

    // ----------------------------------------------------------------- handler calls

    /** An active state has been changed within what it owned or has made since. */
    twostate lemma ActiveChanged(i: nat)
      requires old(Valid()) && i < |mounts|
      requires unchanged(`pendingMounts, `mounts, `upperDir, `pendingView)
      requires activeView == old(activeView)[i := mounts[i].View()]
      requires mounts[i].Valid() && unchanged(old(Repr) - old(Footprint(mounts[i])))
      requires fresh(Footprint(mounts[i]) - old(Footprint(mounts[i])))
      requires Repr == old(Repr) + Footprint(mounts[i])
      ensures Valid()
    {
      var all := All();
      assert all[i] == mounts[i];
      OthersKept(i);
      assert forall j | 0 <= j < |mounts| :: mounts[j] == all[j];
      assert forall j | 0 <= j < |pendingMounts| :: pendingMounts[j] == all[|mounts| + j];
      forall j | 0 <= j < |all| && j != i ensures Footprint(all[j]) !! Footprint(all[i]) {
        assert old(Footprint(all[j])) !! old(Footprint(all[i]));
      }
    }

    method HandleActive(i: nat, call: Mounts.Call) returns (reply: Mounts.Outcome)
      requires Valid() && i < |mounts| && !LoneTrailingSlash(call.path)
      modifies this, Repr
      ensures Valid() && fresh(Repr - old(Repr)) && i < |old(activeView)|
      ensures var (m, outcome) := Mounts.Handle(old(activeView)[i], call);
              View() == old(View()).(active := old(activeView)[i := m]) && reply == outcome
    {
      var state := mounts[i];
      assert Owns(state, activeView[i]);
      reply := state.Handle(call);
      assert this !in Footprint(state);
      activeView := activeView[i := state.View()];
      Repr := Repr + Footprint(state);
      ActiveChanged(i);
    }

    // ---------------------------------------------------------------------- all steps

    ghost predicate InDomain(op: Op) {
      OpListed(op) && (op.HandleOp? ==> !LoneTrailingSlash(op.call.path))
    }

    /** Any operation, on the manager with everything it owns. */
    method Perform(op: Op)
      requires Valid() && InDomain(op)
      modifies this, Repr
      ensures Valid() && fresh(Repr - old(Repr))
      ensures View() == Step(old(View()), op)
    {
      match op
      case LinkDirectoryOp(r) => var reply := LinkDirectory(r);
      case LinkFileOp(r) => var reply := LinkFile(r);
      case SetUpperDirOp(value) => SetUpperDir(value);
      case ClearOp => ClearVirtualMappings();
      case MountOp(upperOpens, mountable) => var ok := MountInternal(upperOpens, mountable);
      case HandleOp(i, call) =>
        if i < |mounts| {
          var reply := HandleActive(i, call);
        }
    }

    /** So every theorem about runs is one about the mutable manager. */
    method PerformAll(ops: seq<Op>)
      requires Valid() && forall op | op in ops :: InDomain(op)
      modifies this, Repr
      ensures Valid() && fresh(Repr - old(Repr))
      ensures View() == Run(old(View()), ops)
    {
      for i := 0 to |ops|
        invariant Valid() && fresh(Repr - old(Repr))
        invariant Run(View(), ops[i..]) == Run(old(View()), ops)
      {
        assert ops[i..][1..] == ops[i + 1..];
        Perform(ops[i]);
      }
    }
  }
}
