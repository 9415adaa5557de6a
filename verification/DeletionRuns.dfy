/** find stays sound over whole runs: of the manager with its links, mounts and handlers, and
    of one tree with every operation it has. */
module DeletionRuns {
  import opened Paths
  import opened Nodes
  import opened FlatMap
  import opened Deletion
  import opened Mounts
  import opened Listing
  import opened Linking
  import Merging
  import Coverage
  import HandlerDeletion
  import TreeRuns

  // ---------------------------------------------------------------- links build live trees

  lemma AddStaysLive(n: Node, path: string, realPath: string, kind: Kind, update: bool)
    requires AllLive(Flat(n)) && AddText(n, path, realPath, kind, update).Ok?
    ensures AllLive(Flat(AddText(n, path, realPath, kind, update).value))
  {
    var e := Coverage.AddTextEntry(n, path, realPath, kind, update);
  }

  lemma {:induction false} ScanStaysLive(start: Scanned, directory: string, listing: seq<DirEntry>,
                                           unopenable: set<string>)
    requires AllLive(Flat(start.tree))
    ensures var s := Scan(start, directory, listing, unopenable); s.Some? ==> AllLive(Flat(s.value.tree))
    decreases |listing|
  {
    if listing != [] && Scan(start, directory, Front(listing), unopenable).Some? {
      var s, e := Scan(start, directory, Front(listing), unopenable).value, Last(listing);
      ScanStaysLive(start, directory, Front(listing), unopenable);
      if ScanEntry(s, directory, e, unopenable).Some? {
        AddStaysLive(s.tree, Join(e.Relative()), EntryPath(directory, e.Relative()),
                     if e.isDir then Dir else File, false);
      }
    }
  }

  lemma CreatedIsLive(path: string, fds: Fds, listing: seq<DirEntry>, unopenable: set<string>)
    ensures var s := CreateFileTree(path, fds, listing, unopenable); s.Some? ==> AllLive(Flat(s.value.tree))
  {
    FlatOfLeaf(Root(path));
    ScanStaysLive(Scanned(Root(path), FdPut(fds, path, Open(path))), path, listing, unopenable);
  }

  lemma MergeStaysLive(a: Node, b: Node)
    requires AllLive(Flat(a)) && AllLive(Flat(b))
    ensures AllLive(Flat(Merge(a, b)))
  {
    Merging.MergeRefines(a, b);
  }

  // ------------------------------------------------------------------ runs of the manager

  ghost predicate PendingLive(g: Manager) {
    forall m | m in g.pending :: AllLive(Flat(m.tree))
  }

  ghost predicate ActiveClosed(g: Manager) {
    forall m | m in g.active :: Closed(Flat(m.tree))
  }

  lemma LinkDirectoryStaysLive(g: Manager, r: DirLink)
    requires PendingLive(g)
    ensures PendingLive(LinkDirectory(g, r).0)
  {
    CreatedIsLive(r.source, map[], r.listing, r.unopenable);
    if SourceScan(r).Some? {
      var s, i := SourceScan(r).value, IndexOf(g.pending, r.destination);
      if i >= 0 {
        MergeStaysLive(g.pending[i].tree, s.tree);
      } else {
        CreatedIsLive(r.destination, s.fds, r.destinationListing, r.unopenable);
        var d := CreateFileTree(r.destination, s.fds, r.destinationListing, r.unopenable);
        if d.Some? {
          MergeStaysLive(d.value.tree, s.tree);
        }
      }
    }
  }

  lemma LinkFileStaysLive(g: Manager, r: FileLink)
    requires PendingLive(g)
    ensures PendingLive(LinkFile(g, r).0)
  {
    var i, name := IndexOf(g.pending, DirectoryOf(r.destination)), FileName(r.destination);
    if i >= 0 {
      if AddText(g.pending[i].tree, name, r.source, File, false).Ok? {
        AddStaysLive(g.pending[i].tree, name, r.source, File, false);
      }
    } else if FileFds(r).Some? {
      var d := CreateFileTree(ParentPath(r.destination), FileFds(r).value, r.destinationListing, r.unopenable);
      CreatedIsLive(ParentPath(r.destination), FileFds(r).value, r.destinationListing, r.unopenable);
      if d.Some? && AddText(d.value.tree, name, r.source, File, true).Ok? {
        AddStaysLive(d.value.tree, name, r.source, File, true);
      }
    }
  }

  /** FUSE hands rooted paths to the handlers, and never the root to these four. */
  predicate OpRooted(op: Op) {
    op.HandleOp? ==> Rooted(op.call.path) && op.call.path != "/"
  }

  /** Only handler calls have anything to guard. */
  ghost predicate OpGuarded(g: Manager, op: Op) {
    op.HandleOp? && op.index < |g.active| ==> HandlerDeletion.Guarded(g.active[op.index], op.call)
  }

  lemma HandleOpClosedIff(g: Manager, i: nat, call: Call)
    requires ActiveClosed(g) && i < |g.active| && Rooted(call.path) && call.path != "/"
    ensures (forall m | m in g.active[i := Handle(g.active[i], call).0] :: Closed(Flat(m.tree))) <==>
            HandlerDeletion.Guarded(g.active[i], call)
  {
    var m := Handle(g.active[i], call).0;
    HandlerDeletion.HandleKeepsClosedIffGuarded(g.active[i], call);
    assert g.active[i := m][i] == m;
    forall x | x in g.active[i := m] ensures x == m || x in g.active {
    }
  }

  lemma StepStaysLive(g: Manager, op: Op)
    requires PendingLive(g)
    ensures PendingLive(Step(g, op))
  {
    match op
    case LinkDirectoryOp(r) => LinkDirectoryStaysLive(g, r);
    case LinkFileOp(r) => LinkFileStaysLive(g, r);
    case SetUpperDirOp(_) =>
    case ClearOp =>
    case MountOp(_, _) =>
    case HandleOp(_, _) =>
  }

  /** Every link keeps pending trees free of deleted items, and every step keeps the active
      trees closed if and only if it is guarded. */
  lemma StepClosedIff(g: Manager, op: Op)
    requires PendingLive(g) && ActiveClosed(g) && OpRooted(op)
    ensures PendingLive(Step(g, op))
    ensures ActiveClosed(Step(g, op)) <==> OpGuarded(g, op)
  {
    StepStaysLive(g, op);
    match op
    case LinkDirectoryOp(_) =>
    case LinkFileOp(_) =>
    case SetUpperDirOp(_) =>
    case ClearOp =>
    case MountOp(upperOpens, mountable) => MountClosed(g, upperOpens, mountable);
    case HandleOp(i, call) =>
      if i < |g.active| {
        HandleOpClosedIff(g, i, call);
      }
  }

  lemma MountClosed(g: Manager, upperOpens: bool, mountable: nat)
    requires PendingLive(g) && ActiveClosed(g)
    ensures ActiveClosed(MountPending(g, upperOpens, mountable).0)
  {
    forall m | m in MountPending(g, upperOpens, mountable).0.active
      ensures m in g.active || exists x :: x in g.pending && m.tree == x.tree
    {
      if m !in g.active {
        var n := if mountable < |g.pending| then mountable else |g.pending|;
        var j :| 0 <= j < n && m == PrepareAll(g.pending[..n], g.upperDir)[j];
        assert g.pending[j] in g.pending && m.tree == g.pending[j].tree;
      }
    }
  }

  ghost predicate FindSound(g: Manager) {
    PendingLive(g) && ActiveClosed(g)
  }

  ghost predicate GuardedOps(g: Manager, ops: seq<Op>) {
    (forall op | op in ops :: OpRooted(op)) && Follows(g, ops, OpGuarded)
  }

  /** A run keeps the active trees closed all the way exactly when its handler calls are
      guarded. */
  lemma RunClosedIff(g: Manager, ops: seq<Op>)
    requires FindSound(g) && forall op | op in ops :: OpRooted(op)
    ensures GuardedOps(g, ops) <==> forall k | 0 <= k <= |ops| :: FindSound(Run(g, ops[..k]))
    ensures GuardedOps(g, ops) ==> FindSound(Run(g, ops))
  {
    forall h, op | op in ops && FindSound(h) ensures FindSound(Step(h, op)) <==> OpGuarded(h, op) {
      StepClosedIff(h, op);
    }
    RunIff(g, ops, FindSound, OpGuarded);
  }

  /** Over every run of any links, upper directories, clearing, mounting and guarded handler
      calls, find on any pending or active mount succeeds exactly when the path is present and
      live all the way down. */
  lemma FindSoundOverRuns(upperDir: string, ops: seq<Op>, m: Mount, path: string)
    requires GuardedOps(Manager([], [], upperDir), ops) && Position(path) != []
    ensures var g := Run(Manager([], [], upperDir), ops);
            m in g.pending || m in g.active ==>
              (FindNode(m.tree, Position(path), false).Ok? <==> LiveAllTheWay(Flat(m.tree), Position(path)))
  {
    var g := Run(Manager([], [], upperDir), ops);
    RunClosedIff(Manager([], [], upperDir), ops);
    if m in g.pending || m in g.active {
      assert Closed(Flat(m.tree));
      FindIsSoundIffClosed(Flat(m.tree));
      FindRefines(m.tree, Position(path), false);
    }
  }

  // -------------------------------------------------------------------- runs of one tree

  /** An add that is accepted has a live parent; a merge brings nothing new below a deleted
      item; erasing, hard or soft, needs no guard. */
  ghost predicate RequestGuarded(n: Node, source: Node, r: TreeRuns.Request) {
    match r
    case Add(path, realPath, _, update) =>
      AddAccepts(n, path, realPath, update) ==> ParentLive(Flat(n), AddPosition(path))
    case Find(_, _) => true
    case Erase(_, _) => true
    case Merge => NothingNewBelowDeleted(Flat(n), Flat(source))
  }

  lemma PerformClosedIff(n: Node, source: Node, r: TreeRuns.Request)
    requires Closed(Flat(n)) && Closed(Flat(source))
    ensures Closed(Flat(TreeRuns.Perform(n, source, r).0)) <==> RequestGuarded(n, source, r)
  {
    FlatIsPrefixClosed(n);
    FlatIsPrefixClosed(source);
    match r
    case Add(path, realPath, kind, update) =>
      AddAcceptsIff(n, path, realPath, kind, update);
      if AddAccepts(n, path, realPath, update) {
        var p, name := AddPosition(path), Last(AddSplit(Strip(path)));
        AddRefines(n, p, name, realPath, kind, update);
        AddKeepsClosed(Flat(n), p, name, realPath, kind, update);
      }
    case Find(_, _) =>
    case Erase(path, reallyErase) =>
      if EraseText(n, path, reallyErase).Ok? {
        var p := FoldAll(Split(Strip(path)));
        EraseRefines(n, p, reallyErase);
        EraseKeepsClosed(Flat(n), p, reallyErase);
      }
    case Merge =>
      Merging.MergeRefines(n, source);
      MergeKeepsClosed(Flat(n), Flat(source));
  }

  ghost predicate GuardedRequests(n: Node, source: Node, requests: seq<TreeRuns.Request>)
    decreases |requests|
  {
    requests == [] ||
    (&& GuardedRequests(n, source, Front(requests))
     && RequestGuarded(TreeRuns.PerformAll(n, source, Front(requests)).0, source, Last(requests)))
  }

  lemma {:induction false} RequestsClosedIff(n: Node, source: Node, requests: seq<TreeRuns.Request>)
    requires Closed(Flat(n)) && Closed(Flat(source))
    ensures GuardedRequests(n, source, requests) <==>
            forall k | 0 <= k <= |requests| :: Closed(Flat(TreeRuns.PerformAll(n, source, requests[..k]).0))
    decreases |requests|
  {
    assert requests[..|requests|] == requests;
    if requests != [] {
      var earlier := Front(requests);
      forall k | 0 <= k <= |earlier| ensures requests[..k] == earlier[..k] {
      }
      assert earlier[..|earlier|] == earlier;
      RequestsClosedIff(n, source, earlier);
      if Closed(Flat(TreeRuns.PerformAll(n, source, earlier).0)) {
        PerformClosedIff(TreeRuns.PerformAll(n, source, earlier).0, source, Last(requests));
      }
    }
  }

  /** Over every guarded run of adds, finds, soft and hard erases and merges, on a tree and,
      interleaved with it, on its copy, find on either succeeds exactly when the position is
      present and live all the way down. */
  lemma FindSoundOnTreeAndCopy(n: Node, source: Node, turns: seq<TreeRuns.Turn>, onCopy: bool, path: string)
    requires Closed(Flat(n)) && Closed(Flat(source)) && Position(path) != []
    requires GuardedRequests(if onCopy then Clone(n) else n, source, TreeRuns.Turns(turns, onCopy))
    ensures var last := TreeRuns.Reached(if onCopy then Clone(n) else n, source, turns, onCopy);
            FindNode(last, Position(path), false).Ok? <==> LiveAllTheWay(Flat(last), Position(path))
  {
    var start := if onCopy then Clone(n) else n;
    var last := TreeRuns.Reached(start, source, turns, onCopy);
    CloneKeepsClosed(n);
    RequestsClosedIff(start, source, TreeRuns.Turns(turns, onCopy));
    assert TreeRuns.Turns(turns, onCopy)[..|TreeRuns.Turns(turns, onCopy)|] == TreeRuns.Turns(turns, onCopy);
    FindIsSoundIffClosed(Flat(last));
    FindRefines(last, Position(path), false);
  }
}
