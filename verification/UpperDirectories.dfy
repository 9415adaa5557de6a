/** What mkdir and create find, make and file below an upper directory. */
module UpperDirectories {
  import opened Paths
  import opened Nodes
  import opened FlatMap
  import opened Names
  import opened Mounts
  import opened Coverage
  import opened Listing
  import opened Linking
  import opened HandlerEffects
  import DeletionRuns
  import Merging

  /** Keys and names agree, descriptors are filed under their own directories up to case, and
      the upper directory itself is on file. */
  ghost predicate Anchored(m: Mount) {
    && NamesOk(Flat(m.tree)) && Filed(m.fds)
    && (m.upperDir != "" ==> ToLower(m.upperDir) in m.fds)
  }

  // ------------------------------------------------------------- what can be reached

  lemma ParentBehind(upperDir: string, path: string)
    requires FindLastSlash(path) >= 0
    ensures ParentPath(upperDir + path) == upperDir + ParentPath(path)
  {
    JoinOfParent(path);
    assert upperDir + path == (upperDir + ParentPath(path)) + "/" + FileName(path);
    ParentOfJoin(upperDir + ParentPath(path), FileName(path));
  }

  /** Spelling does not matter to what is reachable. */
  lemma ReachableFold(m: Mount, path: string, other: string, host: Host)
    requires ToLower(path) == ToLower(other)
    ensures Reachable(m, path, host) == Reachable(m, other, host)
  {
    ParentPathFold(path);
    ParentPathFold(other);
  }

  /** The parent below the upper directory or the parent of that is on file, and in the second
      case the host makes and opens the first: at most one level is made. */
  predicate UpperReach(m: Mount, parent: string, host: Host) {
    || parent == "" || ToLower(m.upperDir + parent) in m.fds
    || (host.parentMakes && host.parentOpens &&
        (ParentPath(parent) == "" || ToLower(m.upperDir + ParentPath(parent)) in m.fds))
  }

  lemma UpperReachIff(m: Mount, path: string, host: Host)
    requires Anchored(m) && m.upperDir != "" && Rooted(path) && path != "/"
    ensures Reachable(m, m.upperDir + ParentPath(path), host) <==> UpperReach(m, ParentPath(path), host)
  {
    var parent := ParentPath(path);
    if parent == "" {
      assert m.upperDir + parent == m.upperDir;
    } else {
      assert parent[0] == '/';
      ParentBehind(m.upperDir, parent);
      if ParentPath(parent) == "" {
        assert m.upperDir + ParentPath(parent) == m.upperDir;
      }
    }
  }

  /** With an upper directory create succeeds exactly if the parent is present, its place is
      in reach and the host opens the file; and mkdir of what is not there exactly if the
      parent resolves, its place is in reach and the host makes and opens the directory. */
  lemma MakingInUpper(m: Mount, path: string, host: Host)
    requires Anchored(m) && m.upperDir != "" && Rooted(path) && path != "/"
    ensures Create(m, path, host).1 == Success <==>
            Has(m.tree, Position(ParentPath(path))) && UpperReach(m, ParentPath(path), host) && host.opens
    ensures !Has(m.tree, Position(path)) ==>
              (Mkdir(m, path, host).1 == Success <==>
               && FindNode(m.tree, Position(ParentPath(path)), false).Ok? && UpperReach(m, ParentPath(path), host)
               && host.makes && host.opens)
  {
    UpperReachIff(m, path, host);
    CreateByParent(m, path, host);
    MkdirByParent(m, path, host);
    if MkdirParent(m, path).Ok? {
      UpperParentsAgree(m, path);
      ReachableFold(m, MkdirParent(m, path).value, m.upperDir + ParentPath(path), host);
    }
  }

  // ------------------------------------------------------------------------ all runs

  lemma EntryKeepsNames(f: Entries, f': Entries, path: string)
    requires NamesOk(f) && Rooted(path) && path != "/"
    requires var p := Position(path);
             p in f' && f' == f[p := f'[p]] && (f'[p].name == FileName(path) || (p in f && f'[p].name == f[p].name))
    ensures NamesOk(f')
  {
    PositionOfParent(path);
    assert SegmentOk(Last(Segments(path)));
    OneEntryKeepsNames(f, Position(path), f'[Position(path)]);
  }

  lemma HandleKeepsAnchored(m: Mount, call: Call)
    requires Anchored(m) && Rooted(call.path) && call.path != "/"
    ensures Anchored(Handle(m, call).0)
  {
    var (m', reply) := Handle(m, call);
    var f, f' := Flat(m.tree), Flat(m'.tree);
    HandleKeepsFiled(m, call);
    match call
    case MkdirCall(path, host) =>
      MkdirByParent(m, path, host);
      if reply.Success? {
        EntryKeepsNames(f, f', path);
      }
    case CreateCall(path, host) =>
      CreateByParent(m, path, host);
      if reply.Success? && f' != f {
        EntryKeepsNames(f, f', path);
      }
    case UnlinkCall(path, granted) =>
      UnlinkEffect(m, path, granted);
    case RmdirCall(path, granted) =>
      RmdirEffect(m, path, granted);
  }

  ghost predicate AllAnchored(g: Manager) {
    (forall m | m in g.pending :: Anchored(m)) && (forall m | m in g.active :: Anchored(m))
  }

  lemma MergeKeepsTreeNames(a: Node, b: Node)
    requires NamesOk(Flat(a)) && NamesOk(Flat(b))
    ensures NamesOk(Flat(Merge(a, b)))
  {
    Merging.MergeRefines(a, b);
    MergeKeepsNames(Flat(a), Flat(b));
  }

  lemma MergedAnchored(m: Mount, s: Scanned)
    requires Anchored(m) && NamesOk(Flat(s.tree)) && Filed(s.fds)
    ensures Anchored(m.(tree := Merge(m.tree, s.tree), fds := m.fds + s.fds))
  {
    MergeKeepsTreeNames(m.tree, s.tree);
    FiledTogether(m.fds, s.fds);
  }

  lemma UpdateAnchored(g: Manager, i: nat, m: Mount)
    requires AllAnchored(g) && i < |g.pending| && Anchored(m)
    ensures AllAnchored(g.(pending := g.pending[i := m]))
  {}

  lemma AppendAnchored(g: Manager, m: Mount)
    requires AllAnchored(g) && Anchored(m)
    ensures AllAnchored(g.(pending := g.pending + [m]))
  {}

  lemma FileIntoAnchored(m: Mount, r: FileLink)
    requires Anchored(m)
    ensures Anchored(LinkFileInto(m, r).0)
  {
    var name, directory := FileName(r.destination), ParentPath(r.source);
    if AddText(m.tree, name, r.source, File, false).Ok? {
      var e := AddTextEntry(m.tree, name, r.source, File, false);
      assert NamesOk(Flat(LinkFileInto(m, r).0.tree));
    }
    assert Filed(LinkFileInto(m, r).0.fds) && m.fds.Keys <= LinkFileInto(m, r).0.fds.Keys;
  }

  lemma LinkDirectoryAnchored(g: Manager, r: DirLink)
    requires AllAnchored(g) && Listable(r.listing) && Listable(r.destinationListing)
    ensures AllAnchored(LinkDirectory(g, r).0)
  {
    CreatedTree(r.source, map[], r.listing, r.unopenable);
    if SourceScan(r).Some? {
      var s, i := SourceScan(r).value, IndexOf(g.pending, r.destination);
      if i >= 0 {
        MergedAnchored(g.pending[i], s);
        UpdateAnchored(g, i, g.pending[i].(tree := Merge(g.pending[i].tree, s.tree), fds := g.pending[i].fds + s.fds));
      } else {
        CreatedTree(r.destination, s.fds, r.destinationListing, r.unopenable);
        var d := CreateFileTree(r.destination, s.fds, r.destinationListing, r.unopenable);
        if d.Some? {
          MergeKeepsTreeNames(d.value.tree, s.tree);
          AppendAnchored(g, Mount(Merge(d.value.tree, s.tree), d.value.fds, r.destination, ""));
        }
      }
    }
  }

  lemma LinkFileAnchored(g: Manager, r: FileLink)
    requires AllAnchored(g) && Listable(r.destinationListing)
    ensures AllAnchored(LinkFile(g, r).0)
  {
    var i := IndexOf(g.pending, DirectoryOf(r.destination));
    if i >= 0 {
      FileIntoAnchored(g.pending[i], r);
    } else {
      FileMountEntries(r);
    }
  }

  lemma StepKeepsAnchored(g: Manager, op: Op)
    requires AllAnchored(g) && OpListed(op) && DeletionRuns.OpRooted(op)
    ensures AllAnchored(Step(g, op))
  {
    match op
    case LinkDirectoryOp(r) => LinkDirectoryAnchored(g, r);
    case LinkFileOp(r) => LinkFileAnchored(g, r);
    case SetUpperDirOp(_) =>
    case ClearOp =>
    case MountOp(upperOpens, mountable) =>
      forall m | m in g.pending ensures Anchored(Prepared(m, g.upperDir)) {
      }
    case HandleOp(i, call) =>
      if i < |g.active| {
        HandleKeepsAnchored(g.active[i], call);
      }
  }

  lemma {:induction false} RunStaysAnchored(g: Manager, ops: seq<Op>)
    requires AllAnchored(g) && forall op | op in ops :: OpListed(op) && DeletionRuns.OpRooted(op)
    ensures AllAnchored(Run(g, ops))
    decreases |ops|
  {
    if ops != [] {
      StepKeepsAnchored(g, ops[0]);
      RunStaysAnchored(Step(g, ops[0]), ops[1..]);
    }
  }

  /** Over every run, whatever was linked: in the upper directory itself and in what lies
      directly below it every create and mkdir succeeds that the host allows. */
  lemma UpperMakingOverRuns(upperDir: string, ops: seq<Op>, i: nat, path: string)
    requires forall op | op in ops :: OpListed(op) && DeletionRuns.OpRooted(op)
    requires i < |Run(Manager([], [], upperDir), ops).active| && Rooted(path) && path != "/"
    requires var m := Run(Manager([], [], upperDir), ops).active[i];
             m.upperDir != "" && FindNode(m.tree, Position(ParentPath(path)), false).Ok?
    requires ParentPath(path) == "" || ParentPath(ParentPath(path)) == ""
    ensures var m, host := Run(Manager([], [], upperDir), ops).active[i], Host(true, true, true, true);
            Create(m, path, host).1 == Success && (!Has(m.tree, Position(path)) ==> Mkdir(m, path, host).1 == Success)
  {
    RunStaysAnchored(Manager([], [], upperDir), ops);
    MakingInUpper(Run(Manager([], [], upperDir), ops).active[i], path, Host(true, true, true, true));
  }

  // ---------------------------------------------------------------- what is registered

  /** Neither handler makes the parent of again, in its spelling, a second time, and both work
      in one directory. */
  ghost predicate OnFileForBoth(m: Mount, again: string) {
    var typed := m.upperDir + ParentPath(again);
    && FdAt(m.fds, typed).Open?
    && CreateParent(m, again) == Ok(typed) && (forall host :: WithParent(m, typed, host) == m)
    && (MkdirParent(m, again).Ok? ==>
          var stored := MkdirParent(m, again).value;
          FdAt(m.fds, stored) == FdAt(m.fds, typed) && forall host :: WithParent(m, stored, host) == m)
  }

  lemma OnFileIsShared(m: Mount, again: string, directory: string)
    requires m.upperDir != "" && NamesOk(Flat(m.tree)) && Rooted(again) && again != "/"
    requires FdAt(m.fds, directory).Open? && ToLower(directory) == ToLower(m.upperDir + ParentPath(again))
    ensures OnFileForBoth(m, again)
  {
    if MkdirParent(m, again).Ok? {
      UpperParentsAgree(m, again);
    }
  }

  lemma SameParentKey(upperDir: string, path: string, again: string)
    requires Rooted(path) && path != "/" && Rooted(again) && again != "/"
    requires Position(ParentPath(path)) == Position(ParentPath(again))
    ensures ToLower(upperDir + ParentPath(path)) == ToLower(upperDir + ParentPath(again))
  {
    RootedFold(path);
    RootedFold(again);
    ToLowerConcat(upperDir, ParentPath(path));
    ToLowerConcat(upperDir, ParentPath(again));
  }

  lemma RootedFold(path: string)
    requires Rooted(path) && path != "/"
    ensures ToLower(ParentPath(path)) == Absolute(Position(ParentPath(path)))
    ensures ToLower(path) == Absolute(Position(path))
  {
    AbsoluteOfSegments(path);
    AbsoluteFold(Segments(path));
    if ParentPath(path) != "" {
      ParentIsRooted(path);
      AbsoluteOfSegments(ParentPath(path));
      AbsoluteFold(Segments(ParentPath(path)));
    }
  }

  /** What one of the two handlers has registered, the other finds: after a successful create,
      or a mkdir of what was not there, the parent is on file for both handlers in any
      spelling; and after such a mkdir the new directory itself is. */
  lemma UpperRegistrationIsShared(m: Mount, path: string, host: Host, again: string, below: string)
    requires Anchored(m) && m.upperDir != "" && Rooted(path) && path != "/"
    requires Rooted(again) && again != "/" && Position(ParentPath(again)) == Position(ParentPath(path))
    requires Rooted(below) && below != "/" && Position(ParentPath(below)) == Position(path)
    ensures Create(m, path, host).1 == Success ==> OnFileForBoth(Create(m, path, host).0, again)
    ensures Mkdir(m, path, host).1 == Success && !Has(m.tree, Position(path)) ==>
              OnFileForBoth(Mkdir(m, path, host).0, again) && OnFileForBoth(Mkdir(m, path, host).0, below)
  {
    SameParentKey(m.upperDir, path, again);
    if Create(m, path, host).1 == Success {
      CreateRegisters(m, path, host);
      OnFileIsShared(Create(m, path, host).0, again, m.upperDir + ParentPath(path));
    }
    if Mkdir(m, path, host).1 == Success && !Has(m.tree, Position(path)) {
      MkdirRegisters(m, path, host);
      var m' := Mkdir(m, path, host).0;
      OnFileIsShared(m', again, m.upperDir + ParentPath(path));
      BelowKey(m.upperDir, path, below);
      OnFileIsShared(m', below, m.upperDir + path);
    }
  }

  lemma BelowKey(upperDir: string, path: string, below: string)
    requires Rooted(path) && path != "/" && Rooted(below) && below != "/"
    requires Position(ParentPath(below)) == Position(path)
    ensures ToLower(upperDir + path) == ToLower(upperDir + ParentPath(below))
  {
    RootedFold(path);
    RootedFold(below);
    ToLowerConcat(upperDir, path);
    ToLowerConcat(upperDir, ParentPath(below));
  }

  lemma CreateRegisters(m: Mount, path: string, host: Host)
    requires Anchored(m) && m.upperDir != "" && Rooted(path) && path != "/" && Create(m, path, host).1 == Success
    ensures var m' := Create(m, path, host).0;
            NamesOk(Flat(m'.tree)) && FdAt(m'.fds, m.upperDir + ParentPath(path)).Open?
  {
    HandleKeepsAnchored(m, CreateCall(path, host));
  }

  lemma MkdirRegisters(m: Mount, path: string, host: Host)
    requires Anchored(m) && m.upperDir != "" && Rooted(path) && path != "/"
    requires Mkdir(m, path, host).1 == Success && !Has(m.tree, Position(path))
    ensures var m' := Mkdir(m, path, host).0;
            && NamesOk(Flat(m'.tree)) && FdAt(m'.fds, m.upperDir + ParentPath(path)).Open?
            && FdAt(m'.fds, m.upperDir + path).Open?
  {
    var m' := Mkdir(m, path, host).0;
    assert NamesOk(Flat(m'.tree)) by { HandleKeepsAnchored(m, MkdirCall(path, host)); }
    MkdirFilesParent(m, path, host);
    var parent := MkdirParent(m, path).value;
    assert ToLower(parent) == ToLower(m.upperDir + ParentPath(path)) by { UpperParentsAgree(m, path); }
    assert ToLower(parent + "/" + FileName(path)) == ToLower(m.upperDir + path) by {
      UpperKey(m.upperDir, path, parent);
    }
  }

  lemma UpperKey(upperDir: string, path: string, parent: string)
    requires FindLastSlash(path) >= 0 && ToLower(parent) == ToLower(upperDir + ParentPath(path))
    ensures ToLower(parent + "/" + FileName(path)) == ToLower(upperDir + path)
  {
    assert upperDir + path == upperDir + ParentPath(path) + "/" + FileName(path) by { JoinOfParent(path); }
    SameJoin(parent, upperDir + ParentPath(path), FileName(path));
  }

  lemma SameJoin(path: string, other: string, name: string)
    requires ToLower(path) == ToLower(other)
    ensures ToLower(path + "/" + name) == ToLower(other + "/" + name)
  {
    assert path + "/" + name == path + ("/" + name) && other + "/" + name == other + ("/" + name);
    ToLowerConcat(path, "/" + name);
    ToLowerConcat(other, "/" + name);
  }

  lemma MkdirFilesParent(m: Mount, path: string, host: Host)
    requires Filed(m.fds) && Mkdir(m, path, host).1 == Success && !Has(m.tree, Position(path))
    ensures MkdirParent(m, path).Ok? && FdAt(Mkdir(m, path, host).0.fds, MkdirParent(m, path).value).Open?
    ensures FdAt(Mkdir(m, path, host).0.fds, MkdirParent(m, path).value + "/" + FileName(path)).Open?
  {
    var parent := MkdirParent(m, path).value;
    WithParentKeepsFiled(m, parent, host);
    var before := WithParent(m, parent, host);
    var fd := OpenAt(FdAt(before.fds, parent), FileName(path), host.makes && host.opens);
    ReadOverWrite(before.fds, parent + "/" + FileName(path), fd, parent);
  }
}
