/** The item that find answers for "/": a live directory, whatever has been linked, mounted and
    done. */
module Roots {
  import opened Paths
  import opened Nodes
  import opened Mounts
  import opened Listing
  import opened Linking
  import HandlerEffects
  import DeletionRuns
  import Coverage
  import Merging

  predicate RootOk(n: Node) {
    n.name == "/" && n.kind == Dir && !n.deleted
  }

  lemma RootEntry(n: Node)
    ensures [] in Flat(n) && Flat(n)[[]] == EntryOf(n)
  {}

  lemma AddKeepsRoot(n: Node, path: string, realPath: string, kind: Kind, update: bool)
    requires AddText(n, path, realPath, kind, update).Ok?
    ensures EntryOf(AddText(n, path, realPath, kind, update).value) == EntryOf(n)
  {
    var e := Coverage.AddTextEntry(n, path, realPath, kind, update);
    RootEntry(n);
    RootEntry(AddText(n, path, realPath, kind, update).value);
  }

  lemma {:induction false} ScanKeepsRoot(start: Scanned, directory: string, listing: seq<DirEntry>,
                                         unopenable: set<string>)
    ensures var s := Scan(start, directory, listing, unopenable);
            s.Some? ==> EntryOf(s.value.tree) == EntryOf(start.tree)
    decreases |listing|
  {
    if listing != [] && Scan(start, directory, Front(listing), unopenable).Some? {
      var s, e := Scan(start, directory, Front(listing), unopenable).value, Last(listing);
      ScanKeepsRoot(start, directory, Front(listing), unopenable);
      if ScanEntry(s, directory, e, unopenable).Some? {
        AddKeepsRoot(s.tree, Join(e.Relative()), EntryPath(directory, e.Relative()),
                     if e.isDir then Dir else File, false);
      }
    }
  }

  /** What a scan alone builds: a live directory "/" that stands for the scanned one. */
  lemma CreatedRoot(path: string, fds: Fds, listing: seq<DirEntry>, unopenable: set<string>)
    ensures var s := CreateFileTree(path, fds, listing, unopenable);
            s.Some? ==> EntryOf(s.value.tree) == Entry("/", path, Dir, false)
  {
    ScanKeepsRoot(Scanned(Root(path), FdPut(fds, path, Open(path))), path, listing, unopenable);
  }

  // --------------------------------------------------------------------------- all runs

  ghost predicate RootsOk(g: Manager) {
    (forall m | m in g.pending :: RootOk(m.tree)) && (forall m | m in g.active :: RootOk(m.tree))
  }

  lemma HandleKeepsRoot(m: Mount, call: Call)
    requires Rooted(call.path) && call.path != "/"
    ensures EntryOf(Handle(m, call).0.tree) == EntryOf(m.tree)
  {
    RootEntry(m.tree);
    RootEntry(Handle(m, call).0.tree);
    PositionOfParent(call.path);
    match call
    case MkdirCall(path, host) => HandlerEffects.MkdirEffect(m, path, host);
    case CreateCall(path, host) => HandlerEffects.CreateEffect(m, path, host);
    case UnlinkCall(path, granted) => HandlerEffects.UnlinkEffect(m, path, granted);
    case RmdirCall(path, granted) => HandlerEffects.RmdirEffect(m, path, granted);
  }

  lemma LinkDirectoryKeepsRoots(g: Manager, r: DirLink)
    requires RootsOk(g)
    ensures RootsOk(LinkDirectory(g, r).0)
  {
    CreatedRoot(r.source, map[], r.listing, r.unopenable);
    if SourceScan(r).Some? {
      CreatedRoot(r.destination, SourceScan(r).value.fds, r.destinationListing, r.unopenable);
    }
  }

  lemma LinkFileKeepsRoots(g: Manager, r: FileLink)
    requires RootsOk(g)
    ensures RootsOk(LinkFile(g, r).0)
  {
    var i, name := IndexOf(g.pending, DirectoryOf(r.destination)), FileName(r.destination);
    if i >= 0 {
      if AddText(g.pending[i].tree, name, r.source, File, false).Ok? {
        AddKeepsRoot(g.pending[i].tree, name, r.source, File, false);
      }
    } else if FileFds(r).Some? {
      var directory, fds := ParentPath(r.destination), FileFds(r).value;
      var d := CreateFileTree(directory, fds, r.destinationListing, r.unopenable);
      CreatedRoot(directory, fds, r.destinationListing, r.unopenable);
      if d.Some? && AddText(d.value.tree, name, r.source, File, true).Ok? {
        AddKeepsRoot(d.value.tree, name, r.source, File, true);
      }
    }
  }

  lemma StepKeepsRoots(g: Manager, op: Op)
    requires RootsOk(g) && DeletionRuns.OpRooted(op)
    ensures RootsOk(Step(g, op))
  {
    match op
    case LinkDirectoryOp(r) => LinkDirectoryKeepsRoots(g, r);
    case LinkFileOp(r) => LinkFileKeepsRoots(g, r);
    case SetUpperDirOp(_) =>
    case ClearOp =>
    case MountOp(upperOpens, mountable) =>
      forall m | m in g.pending ensures RootOk(Prepared(m, g.upperDir).tree) {
      }
    case HandleOp(i, call) =>
      if i < |g.active| {
        HandleKeepsRoot(g.active[i], call);
      }
  }

  lemma {:induction false} RunKeepsRoots(g: Manager, ops: seq<Op>)
    requires RootsOk(g) && forall op | op in ops :: DeletionRuns.OpRooted(op)
    ensures RootsOk(Run(g, ops))
    decreases |ops|
  {
    if ops != [] {
      StepKeepsRoots(g, ops[0]);
      RunKeepsRoots(Step(g, ops[0]), ops[1..]);
    }
  }

  /** Over every run from the empty manager find answers "/", and "", on every pending or active
      mount with a live directory of that name. */
  lemma RootResolves(upperDir: string, ops: seq<Op>, m: Mount, includeDeleted: bool)
    requires forall op | op in ops :: DeletionRuns.OpRooted(op)
    ensures var g := Run(Manager([], [], upperDir), ops);
            m in g.pending || m in g.active ==>
              && Position("/") == [] == Position("")
              && FindNode(m.tree, [], includeDeleted) == Ok(m.tree)
              && m.tree.name == "/" && m.tree.kind == Dir && !m.tree.deleted
  {
    RunKeepsRoots(Manager([], [], upperDir), ops);
  }
}
