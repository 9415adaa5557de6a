/** Whether a directory item's own directory has its descriptor on file.  Without an upper
    directory mkdir and create work there, and getattr looks there for every directory; the
    real parent of an item, which module Coverage keeps on file, is not enough for that. */
module OwnDirectories {
  import opened Paths
  import opened Nodes
  import opened FlatMap
  import opened Mounts
  import opened Coverage
  import opened Merging
  import opened Listing
  import opened Linking
  import opened HandlerEffects
  import DeletionRuns
  import Roots

  ghost predicate OwnDirs(f: Entries, keys: set<string>) {
    forall p | p in f && f[p].kind == Dir :: ToLower(f[p].realPath) in keys
  }

  ghost predicate OwnOk(m: Mount) {
    Filed(m.fds) && OwnDirs(Flat(m.tree), m.fds.Keys)
  }

  // --------------------------------------------------------------------- what it is for

  /** The lookup of getattr on a directory that find resolves: it hits, up to case. */
  lemma OwnLookup(m: Mount, path: string)
    requires OwnOk(m) && FindNode(m.tree, Position(path), false).Ok?
    ensures var item := FindNode(m.tree, Position(path), false).value;
            item.kind == Dir ==>
              && FdAt(m.fds, item.realPath).Open?
              && ToLower(FdAt(m.fds, item.realPath).directory) == ToLower(item.realPath)
  {
    assert Position(path) in Flat(m.tree);
    assert Flat(m.tree)[Position(path)] == EntryOf(Get(m.tree, Position(path)));
  }

  /** Below a directory that find resolves, mkdir and create without an upper directory fail
      only for what the host refuses or for what is there already. */
  lemma MakingBelowDirectory(m: Mount, path: string, host: Host)
    requires OwnOk(m) && m.upperDir == "" && Rooted(path) && path != "/"
    requires var parent := FindNode(m.tree, Position(ParentPath(path)), false); parent.Ok? && parent.value.kind == Dir
    ensures var f, p := Flat(m.tree), Position(path);
            && (Create(m, path, host).1 == Success <==> host.opens)
            && (Mkdir(m, path, host).1 == Success <==> if p in f then f[p].deleted else host.makes && host.opens)
  {
    OwnLookup(m, ParentPath(path));
    CreateByParent(m, path, host);
    MkdirByParent(m, path, host);
  }

  /** And where the own directory of the parent is not on file, neither makes anything new. */
  lemma NothingMadeBelow(m: Mount, path: string, host: Host)
    requires m.upperDir == "" && Rooted(path) && path != "/"
    requires var parent := FindNode(m.tree, Position(ParentPath(path)), false);
             parent.Ok? && FdAt(m.fds, parent.value.realPath).Invalid?
    ensures Create(m, path, host).1.Failure?
    ensures !Has(m.tree, Position(path)) ==> Mkdir(m, path, host).1.Failure?
  {
    CreateByParent(m, path, host);
    MkdirByParent(m, path, host);
  }

  // ------------------------------------------------------------------- one tree operation

  lemma EntryOwnIff(f: Entries, p: Path, e: Entry, keys: set<string>)
    requires OwnDirs(f, keys)
    ensures OwnDirs(f[p := e], keys) <==> e.kind == Dir ==> ToLower(e.realPath) in keys
  {
    assert f[p := e][p] == e;
  }

  /** A merge keeps directories on file if and only if, wherever the left tree has a directory
      and the right tree has anything, the real path of the latter is on file: kind comes from
      the left, real path from the right. */
  lemma MergeOwnIff(f: Entries, g: Entries, keys: set<string>)
    requires OwnDirs(f, keys) && OwnDirs(g, keys)
    ensures OwnDirs(FlatMerge(f, g), keys) <==>
            forall p | p in f && p in g && f[p].kind == Dir :: ToLower(g[p].realPath) in keys
  {
    forall p | p in f && p in g
      ensures p in FlatMerge(f, g)
      ensures FlatMerge(f, g)[p].kind == f[p].kind && FlatMerge(f, g)[p].realPath == g[p].realPath
    {
    }
  }

  /** No file of the listing lands on a directory, unless a directory on file happens to have
      the real path of the file, up to case. */
  ghost predicate NoFileOverDirectory(f: Entries, directory: string, listing: seq<DirEntry>, keys: set<string>) {
    forall e | e in listing && !e.isDir && e.Position() in f && f[e.Position()].kind == Dir ::
      ToLower(EntryPath(directory, e.Relative())) in keys
  }

  lemma DescribedOwn(directory: string, listing: seq<DirEntry>, keys: set<string>)
    requires DistinctFolded(listing) && TreeKeys(directory, listing) <= keys
    ensures OwnDirs(Described(directory, listing), keys)
  {
    var f := Described(directory, listing);
    DescribedRoot(directory, listing);
    forall p | p in f && p != [] && f[p].kind == Dir ensures ToLower(f[p].realPath) in keys {
      DescribedPositions(directory, listing, p);
      var i :| 0 <= i < |listing| && listing[i].Position() == p;
      DescribedEntry(directory, listing, i);
      assert listing[i] in listing;
      assert ToLower(EntryPath(directory, listing[i].Relative())) in ListedKeys(directory, listing);
    }
  }

  lemma MergeListingOwnIff(f: Entries, directory: string, listing: seq<DirEntry>, keys: set<string>)
    requires DistinctFolded(listing) && TreeKeys(directory, listing) <= keys && OwnDirs(f, keys)
    ensures OwnDirs(FlatMerge(f, Described(directory, listing)), keys) <==>
            NoFileOverDirectory(f, directory, listing, keys)
  {
    var g := Described(directory, listing);
    DescribedOwn(directory, listing, keys);
    DescribedRoot(directory, listing);
    MergeOwnIff(f, g, keys);
    forall i | 0 <= i < |listing|
      ensures var e, p := listing[i], listing[i].Position();
              && p in g && g[p].realPath == EntryPath(directory, e.Relative())
              && g[p].kind == (if e.isDir then Dir else File)
    {
      DescribedEntry(directory, listing, i);
    }
    if NoFileOverDirectory(f, directory, listing, keys) {
      forall p | p in f && p in g && f[p].kind == Dir && p != [] ensures ToLower(g[p].realPath) in keys {
        DescribedPositions(directory, listing, p);
        var i :| 0 <= i < |listing| && listing[i].Position() == p;
        assert listing[i] in listing;
      }
    } else {
      var e :| e in listing && !e.isDir && e.Position() in f && f[e.Position()].kind == Dir
               && ToLower(EntryPath(directory, e.Relative())) !in keys;
      var i :| 0 <= i < |listing| && listing[i] == e;
      assert g[e.Position()].realPath == EntryPath(directory, e.Relative());
    }
  }

  // ------------------------------------------------------------------------- readlink

  /** Every item lies in the directory that its parent item stands for; readlink looks for a
      file there, by the real path of the parent item. */
  ghost predicate Aligned(f: Entries) {
    forall p | p in f && p != [] && Front(p) in f :: f[Front(p)].realPath == ParentPath(f[p].realPath)
  }

  /** A merge keeps that if and only if it replaces no directory of which it leaves something,
      except by one with the same real path. */
  lemma MergeAlignedIff(f: Entries, g: Entries)
    requires PrefixClosed(f) && PrefixClosed(g) && Aligned(f) && Aligned(g)
    ensures Aligned(FlatMerge(f, g)) <==>
            forall p | p in f && p !in g && p != [] && Front(p) in g ::
              g[Front(p)].realPath == ParentPath(f[p].realPath)
  {
    var h := FlatMerge(f, g);
    forall p | p in h ensures h[p].realPath == (if p in g then g[p] else f[p]).realPath {
    }
    forall p | p in f && p !in g && p != [] && Front(p) in g
      ensures p in h && Front(p) in h && h[p].realPath == f[p].realPath && h[Front(p)].realPath == g[Front(p)].realPath
    {
    }
  }

  // ------------------------------------------------------------------------- handlers

  /** create is the one handler that can take a directory off: it revives a deleted one as a
      directory whose new real path is that of the file. */
  ghost predicate OwnGuarded(m: Mount, call: Call) {
    match call
    case MkdirCall(_, _) => true
    case CreateCall(path, host) =>
      var f, p, parent := Flat(m.tree), Position(path), CreateParent(m, path);
      (&& p in f && f[p].deleted && f[p].kind == Dir
       && parent.Ok? && Reachable(m, parent.value, host) && host.opens)
      ==> ToLower(parent.value + "/" + FileName(path)) in m.fds
    case UnlinkCall(_, _) => true
    case RmdirCall(_, _) => true
  }

  lemma MoreKeysOwn(f: Entries, keys: set<string>, more: set<string>)
    requires OwnDirs(f, keys) && keys <= more
    ensures OwnDirs(f, more)
  {}

  lemma HandleOwnIff(m: Mount, call: Call)
    requires OwnOk(m) && Rooted(call.path) && call.path != "/"
    ensures OwnOk(Handle(m, call).0) <==> OwnGuarded(m, call)
  {
    HandleKeepsFiled(m, call);
    match call
    case MkdirCall(path, host) => MkdirOwn(m, path, host);
    case CreateCall(path, host) => CreateOwnIff(m, path, host);
    case UnlinkCall(path, granted) => UnlinkEffect(m, path, granted);
    case RmdirCall(path, granted) => RmdirEffect(m, path, granted);
  }

  lemma MkdirOwn(m: Mount, path: string, host: Host)
    requires OwnOk(m) && Rooted(path) && path != "/"
    ensures OwnDirs(Flat(Mkdir(m, path, host).0.tree), Mkdir(m, path, host).0.fds.Keys)
  {
    var (m', reply) := Mkdir(m, path, host);
    var f, p := Flat(m.tree), Position(path);
    MkdirByParent(m, path, host);
    MoreKeysOwn(f, m.fds.Keys, m'.fds.Keys);
    if reply.Success? {
      EntryOwnIff(f, p, Flat(m'.tree)[p], m'.fds.Keys);
    }
  }

  lemma CreateOwnIff(m: Mount, path: string, host: Host)
    requires OwnOk(m) && Rooted(path) && path != "/"
    ensures OwnDirs(Flat(Create(m, path, host).0.tree), Create(m, path, host).0.fds.Keys) <==>
            OwnGuarded(m, CreateCall(path, host))
  {
    var (m', reply) := Create(m, path, host);
    var f, p := Flat(m.tree), Position(path);
    CreateByParent(m, path, host);
    PositionOfParent(path);
    HasFront(m.tree, p);
    assert Front(p) == Position(ParentPath(path));
    MoreKeysOwn(f, m.fds.Keys, m'.fds.Keys);
    if reply.Success? {
      var realParentPath := CreateParent(m, path).value;
      CreateFilesParentOnly(m, path, host);
      assert |ToLower(realParentPath + "/" + FileName(path))| > |ToLower(realParentPath)|;
      EntryOwnIff(f, p, Added(f, p, FileName(path), realParentPath + "/" + FileName(path), File), m'.fds.Keys);
    }
  }

  lemma CreateFilesParentOnly(m: Mount, path: string, host: Host)
    requires CreateParent(m, path).Ok?
    ensures Create(m, path, host).0.fds.Keys <= m.fds.Keys + {ToLower(CreateParent(m, path).value)}
  {}

  // --------------------------------------------------------------------------- links

  ghost predicate OwnAt(g: Manager, mountpoint: string) {
    AllAt(g.pending, mountpoint, OwnOk) && AllAt(g.active, mountpoint, OwnOk)
  }

  /** The exact condition on a directory link. */
  ghost predicate DirLinkOwn(g: Manager, r: DirLink) {
    ScanOpens(r.source, r.listing, r.unopenable) ==>
      var i, keys := IndexOf(g.pending, r.destination), TreeKeys(r.source, r.listing);
      if i >= 0 then NoFileOverDirectory(Flat(g.pending[i].tree), r.source, r.listing, g.pending[i].fds.Keys + keys)
      else
        ScanOpens(r.destination, r.destinationListing, r.unopenable) ==>
          NoFileOverDirectory(Described(r.destination, r.destinationListing), r.source, r.listing,
                              keys + TreeKeys(r.destination, r.destinationListing))
  }

  lemma LinkDirectoryOwnIff(g: Manager, r: DirLink, mountpoint: string)
    requires OwnAt(g, mountpoint) && Listable(r.listing) && Listable(r.destinationListing)
    ensures OwnAt(LinkDirectory(g, r).0, mountpoint) <==> (r.destination == mountpoint ==> DirLinkOwn(g, r))
  {
    CreatedTree(r.source, map[], r.listing, r.unopenable);
    if SourceScan(r).Some? {
      var s, i := SourceScan(r).value, IndexOf(g.pending, r.destination);
      if i >= 0 {
        LinkOntoPendingOwnIff(g, r, s, i, mountpoint);
      } else {
        CreatedTree(r.destination, s.fds, r.destinationListing, r.unopenable);
        var d := CreateFileTree(r.destination, s.fds, r.destinationListing, r.unopenable);
        if d.Some? {
          NewMountOwnIff(r, s, d.value);
          AppendIff(g.pending, Mount(Merge(d.value.tree, s.tree), d.value.fds, r.destination, ""), mountpoint, OwnOk);
        }
      }
    }
  }

  lemma NewMountOwnIff(r: DirLink, s: Scanned, d: Scanned)
    requires Listable(r.listing) && Listable(r.destinationListing)
    requires SourceScan(r) == Some(s)
    requires CreateFileTree(r.destination, s.fds, r.destinationListing, r.unopenable) == Some(d)
    ensures OwnOk(Mount(Merge(d.tree, s.tree), d.fds, r.destination, "")) <==>
            NoFileOverDirectory(Described(r.destination, r.destinationListing), r.source, r.listing,
                                TreeKeys(r.source, r.listing) + TreeKeys(r.destination, r.destinationListing))
  {
    CreatedTree(r.source, map[], r.listing, r.unopenable);
    CreatedTree(r.destination, s.fds, r.destinationListing, r.unopenable);
    MergeRefines(d.tree, s.tree);
    var f, keys := Described(r.destination, r.destinationListing), d.fds.Keys;
    DescribedOwn(r.destination, r.destinationListing, keys);
    MergeListingOwnIff(f, r.source, r.listing, keys);
    assert keys == TreeKeys(r.source, r.listing) + TreeKeys(r.destination, r.destinationListing);
  }

  lemma LinkOntoPendingOwnIff(g: Manager, r: DirLink, s: Scanned, i: nat, mountpoint: string)
    requires OwnAt(g, mountpoint) && Listable(r.listing) && SourceScan(r) == Some(s)
    requires IndexOf(g.pending, r.destination) == i
    ensures OwnAt(LinkDirectory(g, r).0, mountpoint) <==>
            (r.destination == mountpoint ==>
               NoFileOverDirectory(Flat(g.pending[i].tree), r.source, r.listing,
                                   g.pending[i].fds.Keys + TreeKeys(r.source, r.listing)))
  {
    var m := g.pending[i];
    var keys := m.fds.Keys + TreeKeys(r.source, r.listing);
    CreatedTree(r.source, map[], r.listing, r.unopenable);
    UpdateIff(g.pending, i, m.(tree := Merge(m.tree, s.tree), fds := m.fds + s.fds), mountpoint, OwnOk);
    if r.destination == mountpoint {
      assert OwnOk(m);
      MergeRefines(m.tree, s.tree);
      FiledTogether(m.fds, s.fds);
      assert m.fds.Keys + s.fds.Keys == keys;
      MoreKeysOwn(Flat(m.tree), m.fds.Keys, keys);
      MergeListingOwnIff(Flat(m.tree), r.source, r.listing, keys);
    }
  }

  /** The exact condition on a file link: a directory must not get the real path of the file,
      be it deleted and revived, or live and replaced in a new mount. */
  ghost predicate FileLinkOwn(g: Manager, r: FileLink) {
    r.skipped ||
    var i, p := IndexOf(g.pending, DirectoryOf(r.destination)), [ToLower(FileName(r.destination))];
    if i >= 0 then
      var m := g.pending[i];
      !FileRefused(m, r) && Has(m.tree, p) && Get(m.tree, p).kind == Dir ==>
        ToLower(r.source) in LinkFileInto(m, r).0.fds
    else
      var directory := ParentPath(r.destination);
      var f, keys := Described(directory, r.destinationListing), TreeKeys(directory, r.destinationListing);
      FileOpens(r) && p in f && f[p].kind == Dir ==> ToLower(r.source) in {ToLower(ParentPath(r.source))} + keys
  }

  lemma LinkFileOwnIff(g: Manager, r: FileLink, mountpoint: string)
    requires OwnAt(g, mountpoint) && Listable(r.destinationListing)
    ensures OwnAt(LinkFile(g, r).0, mountpoint) <==> (DirectoryOf(r.destination) == mountpoint ==> FileLinkOwn(g, r))
  {
    var i := IndexOf(g.pending, DirectoryOf(r.destination));
    if !r.skipped && i >= 0 {
      UpdateIff(g.pending, i, LinkFileInto(g.pending[i], r).0, mountpoint, OwnOk);
      if DirectoryOf(r.destination) == mountpoint {
        LinkFileIntoOwnIff(g.pending[i], r);
      }
    } else if !r.skipped {
      FileMountEntries(r);
      if FileMount(r).0.Some? {
        FileMountOwnIff(r);
        AppendIff(g.pending, FileMount(r).0.value, mountpoint, OwnOk);
      }
    }
  }

  lemma LinkFileIntoOwnIff(m: Mount, r: FileLink)
    requires OwnOk(m)
    ensures var m', p := LinkFileInto(m, r).0, [ToLower(FileName(r.destination))];
            OwnOk(m') <==>
            (!FileRefused(m, r) && Has(m.tree, p) && Get(m.tree, p).kind == Dir ==> ToLower(r.source) in m'.fds)
  {
    var m', name := LinkFileInto(m, r).0, FileName(r.destination);
    FileRefusedIff(m, r);
    MoreKeysOwn(Flat(m.tree), m.fds.Keys, m'.fds.Keys);
    if !FileRefused(m, r) {
      FileNamePosition(name);
      var e := AddTextEntry(m.tree, name, r.source, File, false);
      EntryOwnIff(Flat(m.tree), [ToLower(name)], e, m'.fds.Keys);
    }
  }

  lemma FileMountOwnIff(r: FileLink)
    requires Listable(r.destinationListing) && FileMount(r).0.Some?
    ensures var directory, p := ParentPath(r.destination), [ToLower(FileName(r.destination))];
            var f, keys := Described(directory, r.destinationListing), TreeKeys(directory, r.destinationListing);
            OwnOk(FileMount(r).0.value) <==>
            (p in f && f[p].kind == Dir ==> ToLower(r.source) in {ToLower(ParentPath(r.source))} + keys)
  {
    FileMountEntries(r);
    var directory, m, p := ParentPath(r.destination), FileMount(r).0.value, [ToLower(FileName(r.destination))];
    var f, f' := Described(directory, r.destinationListing), Flat(m.tree);
    DescribedOwn(directory, r.destinationListing, m.fds.Keys);
    EntryOwnIff(f, p, f'[p], m.fds.Keys);
  }

  // -------------------------------------------------------------------------- all runs

  ghost predicate OwnGoodAt(g: Manager, op: Op, mountpoint: string) {
    match op
    case LinkDirectoryOp(r) => r.destination == mountpoint ==> DirLinkOwn(g, r)
    case LinkFileOp(r) => DirectoryOf(r.destination) == mountpoint ==> FileLinkOwn(g, r)
    case HandleOp(i, call) => i < |g.active| && g.active[i].mountpoint == mountpoint ==> OwnGuarded(g.active[i], call)
    case _ => true
  }

  lemma MountPendingOwn(g: Manager, upperOpens: bool, mountable: nat, mountpoint: string)
    requires OwnAt(g, mountpoint)
    ensures OwnAt(MountPending(g, upperOpens, mountable).0, mountpoint)
  {
    forall m | m in g.pending && m.mountpoint == mountpoint ensures OwnOk(Prepared(m, g.upperDir)) {
      MoreKeysOwn(Flat(m.tree), m.fds.Keys, Prepared(m, g.upperDir).fds.Keys);
    }
  }

  /** The exact condition on every operation of the manager, for every mountpoint. */
  lemma StepOwnIff(g: Manager, op: Op, mountpoint: string)
    requires OwnAt(g, mountpoint) && OpListed(op) && DeletionRuns.OpRooted(op)
    ensures OwnAt(Step(g, op), mountpoint) <==> OwnGoodAt(g, op, mountpoint)
  {
    match op
    case LinkDirectoryOp(r) => LinkDirectoryOwnIff(g, r, mountpoint);
    case LinkFileOp(r) => LinkFileOwnIff(g, r, mountpoint);
    case SetUpperDirOp(_) =>
    case ClearOp =>
    case MountOp(upperOpens, mountable) => MountPendingOwn(g, upperOpens, mountable, mountpoint);
    case HandleOp(i, call) =>
      if i < |g.active| {
        UpdateIff(g.active, i, Handle(g.active[i], call).0, mountpoint, OwnOk);
        if g.active[i].mountpoint == mountpoint {
          HandleOwnIff(g.active[i], call);
        }
      }
  }

  ghost function OwnGuard(mountpoint: string): (Manager, Op) -> bool {
    (g, op) => OwnGoodAt(g, op, mountpoint)
  }

  ghost function OwnThere(mountpoint: string): Manager -> bool {
    g => OwnAt(g, mountpoint)
  }

  ghost predicate OwnRunAt(g: Manager, ops: seq<Op>, mountpoint: string) {
    (forall op | op in ops :: OpListed(op) && DeletionRuns.OpRooted(op)) && Follows(g, ops, OwnGuard(mountpoint))
  }

  /** A run keeps all directories at a mountpoint on file all the way exactly when no step of
      it takes one off. */
  lemma RunOwnIff(g: Manager, ops: seq<Op>, mountpoint: string)
    requires OwnAt(g, mountpoint) && forall op | op in ops :: OpListed(op) && DeletionRuns.OpRooted(op)
    ensures OwnRunAt(g, ops, mountpoint) <==> forall k | 0 <= k <= |ops| :: OwnAt(Run(g, ops[..k]), mountpoint)
    ensures OwnRunAt(g, ops, mountpoint) ==> OwnAt(Run(g, ops), mountpoint)
  {
    forall h, op | op in ops && OwnThere(mountpoint)(h)
      ensures OwnThere(mountpoint)(Step(h, op)) <==> OwnGuard(mountpoint)(h, op)
    {
      StepOwnIff(h, op, mountpoint);
    }
    RunIff(g, ops, OwnThere(mountpoint), OwnGuard(mountpoint));
  }

  /** Over every such run, directly below the root and below each directory that find resolves, in
      an active mount without an upper directory, create succeeds exactly if the host opens the file, and mkdir of
      what is not there exactly if the host makes and opens the directory. */
  lemma MakingOverRuns(upperDir: string, ops: seq<Op>, i: nat, path: string, host: Host)
    requires i < |Run(Manager([], [], upperDir), ops).active| && Rooted(path) && path != "/"
    requires OwnRunAt(Manager([], [], upperDir), ops, Run(Manager([], [], upperDir), ops).active[i].mountpoint)
    requires var m := Run(Manager([], [], upperDir), ops).active[i];
             var parent := FindNode(m.tree, Position(ParentPath(path)), false);
             m.upperDir == "" && (ParentPath(path) == "" || (parent.Ok? && parent.value.kind == Dir))
    ensures var m := Run(Manager([], [], upperDir), ops).active[i];
            && (Create(m, path, host).1 == Success <==> host.opens)
            && (!Has(m.tree, Position(path)) ==> (Mkdir(m, path, host).1 == Success <==> host.makes && host.opens))
  {
    var m := Run(Manager([], [], upperDir), ops).active[i];
    RunOwnIff(Manager([], [], upperDir), ops, m.mountpoint);
    assert OwnOk(m);
    if ParentPath(path) == "" {
      Roots.RootResolves(upperDir, ops, m, false);
    }
    MakingBelowDirectory(m, path, host);
  }
}
