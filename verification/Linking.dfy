/** Pending and active mounts as values, and the link operations of src/usvfsmanager.cpp
    on them. */
module Linking {
  import opened Paths
  import opened Nodes
  import opened FlatMap
  import opened Merging
  import opened Names
  import opened Mounts
  import opened Coverage
  import opened Listing

  datatype Manager = Manager(pending: seq<Mount>, active: seq<Mount>, upperDir: string)

  /** Terminated: an exception left a function that promises to throw none. */
  datatype LinkReply = Linked | NotLinked | Terminated

  /** The first mount at a mountpoint, or -1. */
  function IndexOf(mounts: seq<Mount>, mountpoint: string): (i: int)
    ensures -1 <= i < |mounts|
    ensures i >= 0 ==> mounts[i].mountpoint == mountpoint && forall j | 0 <= j < i :: mounts[j].mountpoint != mountpoint
    ensures i < 0 ==> forall j | 0 <= j < |mounts| :: mounts[j].mountpoint != mountpoint
  {
    if mounts == [] then -1
    else
      var i := IndexOf(Front(mounts), mountpoint);
      assert forall j | 0 <= j < |mounts| - 1 :: mounts[j] == Front(mounts)[j];
      if i >= 0 then i else if Last(mounts).mountpoint == mountpoint then |mounts| - 1 else -1
  }

  /** createFileTree adds to the descriptors it is given. */
  function CreateFileTree(path: string, fds: Fds, listing: seq<DirEntry>, unopenable: set<string>): Option<Scanned> {
    if OpenDir(path, unopenable).Invalid? then None
    else Scan(Scanned(Root(path), FdPut(fds, path, Open(path))), path, listing, unopenable)
  }

  // ------------------------------------------------------------------ link a directory

  /** One call: the listings are what the two directories hold, after skipping; a link
      that is not recursive has an empty listing of its source. */
  datatype DirLink = DirLink(source: string, destination: string, listing: seq<DirEntry>,
                             destinationListing: seq<DirEntry>, unopenable: set<string>)

  function SourceScan(r: DirLink): Option<Scanned> {
    CreateFileTree(r.source, map[], r.listing, r.unopenable)
  }

  function LinkDirectory(g: Manager, r: DirLink): (Manager, LinkReply) {
    match SourceScan(r)
    case None => (g, NotLinked)
    case Some(s) =>
      var i := IndexOf(g.pending, r.destination);
      if i >= 0 then
        var m := g.pending[i];
        (g.(pending := g.pending[i := m.(tree := Merge(m.tree, s.tree), fds := m.fds + s.fds)]), Linked)
      else
        match CreateFileTree(r.destination, s.fds, r.destinationListing, r.unopenable)
        case None => (g, Terminated)
        case Some(d) => (g.(pending := g.pending + [Mount(Merge(d.tree, s.tree), d.fds, r.destination, "")]), Linked)
  }

  // ----------------------------------------------------------------------- link a file

  datatype FileLink = FileLink(source: string, destination: string, destinationListing: seq<DirEntry>,
                               unopenable: set<string>, skipped: bool)

  function DropSlashes(path: string): string {
    if path != "" && Last(path) == '/' then DropSlashes(Front(path)) else path
  }

  /** The directory of a path as a path library sees it: without the slashes before the file
      name; "/" for what lies directly below the root; "" for a bare name. */
  function DirectoryOf(path: string): string {
    if FindLastSlash(path) < 0 then ""
    else if DropSlashes(ParentPath(path)) == "" then "/"
    else DropSlashes(ParentPath(path))
  }

  function LinkFile(g: Manager, r: FileLink): (Manager, LinkReply) {
    var i := IndexOf(g.pending, DirectoryOf(r.destination));
    if r.skipped then (g, Linked)
    else if i >= 0 then
      var (m, reply) := LinkFileInto(g.pending[i], r);
      (g.(pending := g.pending[i := m]), reply)
    else LinkFileNew(g, r)
  }

  /** Into a pending mount: never over an existing item; and the item stays even if its
      directory cannot be opened. */
  function LinkFileInto(m: Mount, r: FileLink): (Mount, LinkReply) {
    match AddText(m.tree, FileName(r.destination), r.source, File, false)
    case Err(_) => (m, NotLinked)
    case Ok(t) =>
      var fd := OpenDir(ParentPath(r.source), r.unopenable);
      if fd.Invalid? then (m.(tree := t), NotLinked)
      else (m.(tree := t, fds := FdPut(m.fds, ParentPath(r.source), fd)), Linked)
  }

  /** The directory the file lies in and the directory it is linked into. */
  function FileFds(r: FileLink): Option<Fds> {
    var source, directory := ParentPath(r.source), ParentPath(r.destination);
    if OpenDir(source, r.unopenable).Invalid? || OpenDir(directory, r.unopenable).Invalid? then None
    else Some(FdPut(FdPut(map[], source, Open(source)), directory, Open(directory)))
  }

  /** A new mount: the file over whatever the destination holds. */
  function FileMount(r: FileLink): (Option<Mount>, LinkReply) {
    match FileFds(r)
    case None => (None, NotLinked)
    case Some(fds) =>
      match CreateFileTree(ParentPath(r.destination), fds, r.destinationListing, r.unopenable)
      case None => (None, Terminated)
      case Some(d) =>
        match AddText(d.tree, FileName(r.destination), r.source, File, true)
        case Err(_) => (None, NotLinked)
        case Ok(t) => (Some(Mount(t, d.fds, DirectoryOf(r.destination), "")), Linked)
  }

  function LinkFileNew(g: Manager, r: FileLink): (Manager, LinkReply) {
    match FileMount(r)
    case (None, reply) => (g, reply)
    case (Some(m), reply) => (g.(pending := g.pending + [m]), reply)
  }

  // ---------------------------------------------------------------------------- mount

  function Prepared(m: Mount, upperDir: string): Mount {
    if upperDir == "" then m else m.(upperDir := upperDir, fds := FdPut(m.fds, upperDir, Open(upperDir)))
  }

  function PrepareAll(mounts: seq<Mount>, upperDir: string): seq<Mount> {
    seq(|mounts|, i requires 0 <= i < |mounts| => Prepared(mounts[i], upperDir))
  }

  /** mountInternal: pending is emptied first; then mounting goes on until one state fails.
      mountable is the number of leading states that the host would mount. */
  function MountPending(g: Manager, upperOpens: bool, mountable: nat): (Manager, bool) {
    if g.pending == [] then (g, true)
    else if g.upperDir != "" && !upperOpens then (g.(pending := []), false)
    else
      var n := if mountable < |g.pending| then mountable else |g.pending|;
      (g.(pending := [], active := g.active + PrepareAll(g.pending[..n], g.upperDir)), n == |g.pending|)
  }

  // ------------------------------------------------------------------------- all steps

  datatype Op =
    | LinkDirectoryOp(dirLink: DirLink)
    | LinkFileOp(fileLink: FileLink)
    | SetUpperDirOp(upperDir: string)
    | ClearOp
    | MountOp(upperOpens: bool, mountable: nat)
    | HandleOp(index: nat, call: Call)

  function Step(g: Manager, op: Op): Manager {
    match op
    case LinkDirectoryOp(r) => LinkDirectory(g, r).0
    case LinkFileOp(r) => LinkFile(g, r).0
    case SetUpperDirOp(upperDir) => g.(upperDir := upperDir)
    case ClearOp => g.(pending := [])
    case MountOp(upperOpens, mountable) => MountPending(g, upperOpens, mountable).0
    case HandleOp(i, call) =>
      if i < |g.active| then g.(active := g.active[i := Handle(g.active[i], call).0]) else g
  }

  function Run(g: Manager, ops: seq<Op>): Manager
    decreases |ops|
  {
    if ops == [] then g else Run(Step(g, ops[0]), ops[1..])
  }

  /** Every operation of the run passes the guard in the state it meets. */
  ghost predicate Follows(g: Manager, ops: seq<Op>, guard: (Manager, Op) -> bool)
    decreases |ops|
  {
    ops == [] || (guard(g, ops[0]) && Follows(Step(g, ops[0]), ops[1..], guard))
  }

  /** If single steps keep an invariant exactly when guarded, then a run has it all the way
      exactly when it is guarded all the way. */
  lemma {:induction false} RunIff(g: Manager, ops: seq<Op>, holds: Manager -> bool, guard: (Manager, Op) -> bool)
    requires holds(g)
    requires forall h, op | op in ops && holds(h) :: holds(Step(h, op)) <==> guard(h, op)
    ensures Follows(g, ops, guard) <==> forall k | 0 <= k <= |ops| :: holds(Run(g, ops[..k]))
    ensures Follows(g, ops, guard) ==> holds(Run(g, ops))
    decreases |ops|
  {
    if ops == [] {
      assert ops[..0] == [];
    } else {
      var g', rest := Step(g, ops[0]), ops[1..];
      forall k | 0 <= k <= |rest| ensures Run(g, ops[..k + 1]) == Run(g', rest[..k]) {
        assert ops[..k + 1][0] == ops[0] && ops[..k + 1][1..] == rest[..k];
      }
      assert Run(g', rest[..0]) == g';
      assert ops[0] in ops;
      if holds(g') {
        RunIff(g', rest, holds, guard);
        forall k | 0 < k <= |ops| ensures Run(g, ops[..k]) == Run(g', rest[..k - 1]) {
        }
      } else {
        assert !holds(Run(g, ops[..1]));
      }
    }
  }

  // ----------------------------------------------------------------- what links build

  /** When a tree can be created: the directory and all that it lists can be opened, and no
      two listed paths differ in case only. */
  ghost predicate ScanOpens(directory: string, listing: seq<DirEntry>, unopenable: set<string>) {
    OpenDir(directory, unopenable).Open? && DistinctFolded(listing) && Openable(directory, listing, unopenable)
  }

  function TreeKeys(directory: string, listing: seq<DirEntry>): set<string> {
    {ToLower(directory)} + ListedKeys(directory, listing)
  }

  lemma CreatedTree(path: string, fds: Fds, listing: seq<DirEntry>, unopenable: set<string>)
    requires Listable(listing) && Filed(fds)
    ensures var s := CreateFileTree(path, fds, listing, unopenable);
            && (s.Some? <==> ScanOpens(path, listing, unopenable))
            && (s.Some? ==>
                  && Flat(s.value.tree) == Described(path, listing) && NamesOk(Flat(s.value.tree))
                  && Filed(s.value.fds) && s.value.fds.Keys == fds.Keys + TreeKeys(path, listing))
  {
    if OpenDir(path, unopenable).Open? {
      var start := FdPut(fds, path, Open(path));
      var s := Scan(Scanned(Root(path), start), path, listing, unopenable);
      ScanBuildsListing(path, start, listing, unopenable);
      if s.Some? {
        ScanIsSound(path, start, listing, unopenable, s.value.fds.Keys);
        assert start.Keys + ListedKeys(path, listing) == fds.Keys + TreeKeys(path, listing);
      }
    }
  }

  /** A merge needs what the right tree needs, and what the left tree needs elsewhere. */
  lemma MergeNeeds(f: Entries, g: Entries, keys: set<string>)
    ensures Covers(FlatMerge(f, g), keys) <==>
            Covers(g, keys) && forall p | p in f && p !in g :: ToLower(Needs(p, f[p])) in keys
  {
    forall p | p in f || p in g
      ensures p in FlatMerge(f, g) && Needs(p, FlatMerge(f, g)[p]) == Needs(p, if p in g then g[p] else f[p])
    {
    }
  }

  // ---------------------------------------------------------------- one mount at a time

  ghost predicate DistinctMountpoints(mounts: seq<Mount>) {
    forall i, j | 0 <= i < j < |mounts| :: mounts[i].mountpoint != mounts[j].mountpoint
  }

  /** ok holds of every mount at the mountpoint. */
  ghost predicate AllAt(mounts: seq<Mount>, mountpoint: string, ok: Mount -> bool) {
    forall m | m in mounts && m.mountpoint == mountpoint :: ok(m)
  }

  /** Whatever is pending or active at the mountpoint is sound. */
  ghost predicate SoundAt(g: Manager, mountpoint: string) {
    AllAt(g.pending, mountpoint, Sound) && AllAt(g.active, mountpoint, Sound)
  }

  lemma UpdateIff(mounts: seq<Mount>, i: nat, m: Mount, mountpoint: string, ok: Mount -> bool)
    requires AllAt(mounts, mountpoint, ok) && i < |mounts| && m.mountpoint == mounts[i].mountpoint
    ensures AllAt(mounts[i := m], mountpoint, ok) <==> m.mountpoint == mountpoint ==> ok(m)
  {
    assert mounts[i := m][i] == m;
    forall x | x in mounts[i := m] ensures x == m || x in mounts {
    }
  }

  lemma AppendIff(mounts: seq<Mount>, m: Mount, mountpoint: string, ok: Mount -> bool)
    requires AllAt(mounts, mountpoint, ok)
    ensures AllAt(mounts + [m], mountpoint, ok) <==> m.mountpoint == mountpoint ==> ok(m)
  {
    assert m in mounts + [m];
  }

  // ------------------------------------------------------------- linking a directory

  /** The exact condition on a directory link: a trailing slash costs the parent of the top
      entries, unless that happens to be on file; and what the source replaces is not asked. */
  ghost predicate DirLinkGood(g: Manager, r: DirLink) {
    ScanOpens(r.source, r.listing, r.unopenable) ==>
      var i, keys := IndexOf(g.pending, r.destination), TreeKeys(r.source, r.listing);
      if i >= 0 then TopsOnFile(r.source, r.listing, g.pending[i].fds.Keys + keys, {})
      else
        ScanOpens(r.destination, r.destinationListing, r.unopenable) ==>
          var all := keys + TreeKeys(r.destination, r.destinationListing);
          && TopsOnFile(r.source, r.listing, all, {})
          && TopsOnFile(r.destination, r.destinationListing, all, ListedPositions(r.listing))
  }

  lemma FiledTogether(fds: Fds, more: Fds)
    requires Filed(fds) && Filed(more)
    ensures Filed(fds + more) && (fds + more).Keys == fds.Keys + more.Keys
  {}

  lemma MergePendingSoundIff(m: Mount, s: Scanned)
    requires Sound(m) && NamesOk(Flat(s.tree)) && Filed(s.fds)
    ensures Sound(m.(tree := Merge(m.tree, s.tree), fds := m.fds + s.fds)) <==>
            Covers(Flat(s.tree), m.fds.Keys + s.fds.Keys)
  {
    var f, g, keys := Flat(m.tree), Flat(s.tree), m.fds.Keys + s.fds.Keys;
    MergeRefines(m.tree, s.tree);
    MergeKeepsNames(f, g);
    FiledTogether(m.fds, s.fds);
    assert Covers(FlatMerge(f, g), keys) <==> Covers(g, keys) by { MergeNeeds(f, g, keys); }
  }

  lemma NewMountSoundIff(r: DirLink, s: Scanned, d: Scanned)
    requires Listable(r.listing) && Listable(r.destinationListing)
    requires SourceScan(r) == Some(s)
    requires CreateFileTree(r.destination, s.fds, r.destinationListing, r.unopenable) == Some(d)
    ensures var all := TreeKeys(r.source, r.listing) + TreeKeys(r.destination, r.destinationListing);
            Sound(Mount(Merge(d.tree, s.tree), d.fds, r.destination, "")) <==>
            && TopsOnFile(r.source, r.listing, all, {})
            && TopsOnFile(r.destination, r.destinationListing, all, ListedPositions(r.listing))
  {
    CreatedTree(r.source, map[], r.listing, r.unopenable);
    CreatedTree(r.destination, s.fds, r.destinationListing, r.unopenable);
    var f, g := Described(r.destination, r.destinationListing), Described(r.source, r.listing);
    var all := TreeKeys(r.source, r.listing) + TreeKeys(r.destination, r.destinationListing);
    assert Flat(Merge(d.tree, s.tree)) == FlatMerge(f, g) by { MergeRefines(d.tree, s.tree); }
    assert NamesOk(FlatMerge(f, g)) by { MergeKeepsNames(f, g); }
    assert d.fds.Keys == all && Filed(d.fds);
    MergedListingsNeed(r);
  }

  lemma MergedListingsNeed(r: DirLink)
    requires Listable(r.listing) && Listable(r.destinationListing)
    requires DistinctFolded(r.listing) && DistinctFolded(r.destinationListing)
    ensures var all := TreeKeys(r.source, r.listing) + TreeKeys(r.destination, r.destinationListing);
            Covers(FlatMerge(Described(r.destination, r.destinationListing), Described(r.source, r.listing)), all) <==>
            && TopsOnFile(r.source, r.listing, all, {})
            && TopsOnFile(r.destination, r.destinationListing, all, ListedPositions(r.listing))
  {
    var f, g := Described(r.destination, r.destinationListing), Described(r.source, r.listing);
    var all := TreeKeys(r.source, r.listing) + TreeKeys(r.destination, r.destinationListing);
    MergeNeeds(f, g, all);
    DescribedNeeds(r.source, r.listing, all, {});
    DescribedNeeds(r.destination, r.destinationListing, all, g.Keys);
    ReplacedTops(r, all);
  }

  lemma ReplacedTops(r: DirLink, keys: set<string>)
    ensures TopsOnFile(r.destination, r.destinationListing, keys, Described(r.source, r.listing).Keys) <==>
            TopsOnFile(r.destination, r.destinationListing, keys, ListedPositions(r.listing))
  {
    forall p | p != [] ensures p in Described(r.source, r.listing) <==> p in ListedPositions(r.listing) {
      DescribedPositions(r.source, r.listing, p);
      if p in ListedPositions(r.listing) {
        var e :| e in r.listing && e.Position() == p;
        var i :| 0 <= i < |r.listing| && r.listing[i] == e;
      }
    }
    assert forall e: DirEntry :: e.Position() != [];
  }

  lemma LinkDirectorySoundIff(g: Manager, r: DirLink, mountpoint: string)
    requires SoundAt(g, mountpoint) && Listable(r.listing) && Listable(r.destinationListing)
    ensures SoundAt(LinkDirectory(g, r).0, mountpoint) <==> (r.destination == mountpoint ==> DirLinkGood(g, r))
  {
    CreatedTree(r.source, map[], r.listing, r.unopenable);
    if SourceScan(r).Some? {
      var s, i := SourceScan(r).value, IndexOf(g.pending, r.destination);
      if i >= 0 {
        LinkOntoPendingSoundIff(g, r, s, i, mountpoint);
      } else {
        CreatedTree(r.destination, s.fds, r.destinationListing, r.unopenable);
        var d := CreateFileTree(r.destination, s.fds, r.destinationListing, r.unopenable);
        if d.Some? {
          NewMountSoundIff(r, s, d.value);
          AppendIff(g.pending, Mount(Merge(d.value.tree, s.tree), d.value.fds, r.destination, ""), mountpoint, Sound);
        }
      }
    }
  }

  lemma LinkOntoPendingSoundIff(g: Manager, r: DirLink, s: Scanned, i: nat, mountpoint: string)
    requires SoundAt(g, mountpoint) && Listable(r.listing) && SourceScan(r) == Some(s)
    requires IndexOf(g.pending, r.destination) == i
    ensures SoundAt(LinkDirectory(g, r).0, mountpoint) <==>
            (r.destination == mountpoint ==>
               TopsOnFile(r.source, r.listing, g.pending[i].fds.Keys + TreeKeys(r.source, r.listing), {}))
  {
    var m := g.pending[i];
    CreatedTree(r.source, map[], r.listing, r.unopenable);
    UpdateIff(g.pending, i, m.(tree := Merge(m.tree, s.tree), fds := m.fds + s.fds), mountpoint, Sound);
    if r.destination == mountpoint {
      MergePendingSoundIff(m, s);
      assert m.fds.Keys + s.fds.Keys == m.fds.Keys + TreeKeys(r.source, r.listing);
      DescribedNeeds(r.source, r.listing, m.fds.Keys + s.fds.Keys, {});
    }
  }

  // ------------------------------------------------------------------ linking a file

  /** add refuses a file link into a pending mount for an empty name or source, or because a
      live item is there. */
  predicate FileRefused(m: Mount, r: FileLink) {
    var name := FileName(r.destination);
    name == "" || r.source == "" || (Has(m.tree, [ToLower(name)]) && !Get(m.tree, [ToLower(name)]).deleted)
  }

  lemma FileNamePosition(name: string)
    requires name != "" && NoSlash(name)
    ensures name != "/" && AddPosition(name) == [ToLower(name)] && AddSplit(Strip(name)) == [name]
  {
    SplitOne(name);
    AddSplitIsSplit(name);
    assert FoldAll([name]) == [ToLower(name)];
  }

  lemma FileRefusedIff(m: Mount, r: FileLink)
    ensures AddText(m.tree, FileName(r.destination), r.source, File, false).Err? <==> FileRefused(m, r)
  {
    var name := FileName(r.destination);
    if name != "" {
      FileNamePosition(name);
      AddAcceptsIff(m.tree, name, r.source, File, false);
      assert Front([ToLower(name)]) == [];
    }
  }

  /** A file link into a pending mount keeps it sound exactly when the item was refused or
      its directory ends up on file. */
  lemma LinkFileIntoKeepsSoundIff(m: Mount, r: FileLink)
    requires Sound(m)
    ensures Sound(LinkFileInto(m, r).0) <==>
            || FileRefused(m, r)
            || OpenDir(ParentPath(r.source), r.unopenable).Open? || ToLower(ParentPath(r.source)) in m.fds
  {
    FileRefusedIff(m, r);
    if !FileRefused(m, r) {
      var m' := LinkFileInto(m, r).0;
      var e := AddTextEntry(m.tree, FileName(r.destination), r.source, File, false);
      var p := AddPosition(FileName(r.destination));
      assert Flat(m'.tree)[p] == e;
    }
  }

  /** When a file link makes a mount. */
  ghost predicate FileOpens(r: FileLink) {
    && OpenDir(ParentPath(r.source), r.unopenable).Open?
    && ScanOpens(ParentPath(r.destination), r.destinationListing, r.unopenable)
    && FileName(r.destination) != "" && r.source != ""
  }

  lemma FileOverEntries(n: Node, name: string, source: string)
    requires name != "" && NoSlash(name)
    ensures var t, p := AddText(n, name, source, File, true), [ToLower(name)];
            && (t.Ok? <==> source != "")
            && (t.Ok? ==>
                  && p in Flat(t.value) && Flat(t.value) == Flat(n)[p := Flat(t.value)[p]]
                  && Flat(t.value)[p].realPath == source && (NamesOk(Flat(n)) ==> NamesOk(Flat(t.value)))
                  && Flat(t.value)[p].kind == if p in Flat(n) then Flat(n)[p].kind else File)
  {
    FileNamePosition(name);
    AddAcceptsIff(n, name, source, File, true);
    assert Front([ToLower(name)]) == [];
    if source != "" {
      var e := AddTextEntry(n, name, source, File, true);
    }
  }

  lemma FileMountEntries(r: FileLink)
    requires Listable(r.destinationListing)
    ensures var m, p := FileMount(r).0, [ToLower(FileName(r.destination))];
            && (m.Some? <==> FileOpens(r))
            && (m.Some? ==>
                  var f, f' := Described(ParentPath(r.destination), r.destinationListing), Flat(m.value.tree);
                  && p in f' && f' == f[p := f'[p]] && f'[p].realPath == r.source
                  && f'[p].kind == (if p in f then f[p].kind else File)
                  && NamesOk(f') && Filed(m.value.fds) && m.value.mountpoint == DirectoryOf(r.destination)
                  && m.value.upperDir == ""
                  && m.value.fds.Keys ==
                     {ToLower(ParentPath(r.source))} + TreeKeys(ParentPath(r.destination), r.destinationListing))
  {
    var directory, name := ParentPath(r.destination), FileName(r.destination);
    if FileFds(r).Some? {
      var fds := FileFds(r).value;
      assert Filed(fds) && fds.Keys == {ToLower(ParentPath(r.source)), ToLower(directory)};
      CreatedTree(directory, fds, r.destinationListing, r.unopenable);
      var d := CreateFileTree(directory, fds, r.destinationListing, r.unopenable);
      if d.Some? && name != "" {
        FileOverEntries(d.value.tree, name, r.source);
        assert d.value.fds.Keys == {ToLower(ParentPath(r.source))} + TreeKeys(directory, r.destinationListing);
      }
    }
  }

  /** The exact condition on a file link that makes a mount. */
  ghost predicate FileMountGood(r: FileLink) {
    FileOpens(r) ==>
      var directory := ParentPath(r.destination);
      TopsOnFile(directory, r.destinationListing,
                 {ToLower(ParentPath(r.source))} + TreeKeys(directory, r.destinationListing),
                 {[ToLower(FileName(r.destination))]})
  }

  lemma EntryNeedsIff(f: Entries, p: Path, e: Entry, keys: set<string>)
    requires ToLower(Needs(p, e)) in keys
    ensures Covers(f[p := e], keys) <==> forall q | q in f && q !in {p} :: ToLower(Needs(q, f[q])) in keys
  {
    forall q | q in f && q != p ensures q in f[p := e] && f[p := e][q] == f[q] {
    }
  }

  lemma FileMountSoundIff(r: FileLink)
    requires Listable(r.destinationListing) && FileMount(r).0.Some?
    ensures Sound(FileMount(r).0.value) <==> FileMountGood(r)
  {
    FileMountEntries(r);
    var directory, m, p := ParentPath(r.destination), FileMount(r).0.value, [ToLower(FileName(r.destination))];
    var f, e, keys := Described(directory, r.destinationListing), Flat(m.tree)[p], m.fds.Keys;
    DescribedNeeds(directory, r.destinationListing, keys, {p});
    EntryNeedsIff(f, p, e, keys);
  }

  ghost predicate FileLinkGood(g: Manager, r: FileLink) {
    r.skipped ||
    var i := IndexOf(g.pending, DirectoryOf(r.destination));
    if i < 0 then FileMountGood(r)
    else
      || FileRefused(g.pending[i], r)
      || OpenDir(ParentPath(r.source), r.unopenable).Open? || ToLower(ParentPath(r.source)) in g.pending[i].fds
  }

  lemma LinkFileSoundIff(g: Manager, r: FileLink, mountpoint: string)
    requires SoundAt(g, mountpoint) && Listable(r.destinationListing)
    ensures SoundAt(LinkFile(g, r).0, mountpoint) <==> (DirectoryOf(r.destination) == mountpoint ==> FileLinkGood(g, r))
  {
    var i := IndexOf(g.pending, DirectoryOf(r.destination));
    if !r.skipped && i >= 0 {
      UpdateIff(g.pending, i, LinkFileInto(g.pending[i], r).0, mountpoint, Sound);
      if DirectoryOf(r.destination) == mountpoint {
        LinkFileIntoKeepsSoundIff(g.pending[i], r);
      }
    } else if !r.skipped {
      FileMountEntries(r);
      if FileMount(r).0.Some? {
        FileMountSoundIff(r);
        AppendIff(g.pending, FileMount(r).0.value, mountpoint, Sound);
      }
    }
  }

  // ------------------------------------------------------- mounting and handler calls

  lemma MountPendingKeepsSound(g: Manager, upperOpens: bool, mountable: nat, mountpoint: string)
    requires SoundAt(g, mountpoint)
    ensures SoundAt(MountPending(g, upperOpens, mountable).0, mountpoint)
  {
    forall m | m in g.pending && m.mountpoint == mountpoint ensures Sound(Prepared(m, g.upperDir)) {
      PreparedIsSound(m, g.upperDir);
    }
  }

  lemma PreparedIsSound(m: Mount, upperDir: string)
    requires Sound(m)
    ensures Sound(Prepared(m, upperDir))
  {}

  lemma HandleOpKeepsSound(g: Manager, i: nat, call: Call, mountpoint: string)
    requires SoundAt(g, mountpoint) && i < |g.active|
    ensures AllAt(g.active[i := Handle(g.active[i], call).0], mountpoint, Sound)
  {
    var m := Handle(g.active[i], call).0;
    if m.mountpoint == mountpoint {
      HandleKeepsSound(g.active[i], call);
    }
    UpdateIff(g.active, i, m, mountpoint, Sound);
  }

  // -------------------------------------------------------------------------- all runs

  /** Listings are what a recursive iterator promises. */
  ghost predicate OpListed(op: Op) {
    match op
    case LinkDirectoryOp(r) => Listable(r.listing) && Listable(r.destinationListing)
    case LinkFileOp(r) => Listable(r.destinationListing)
    case _ => true
  }

  /** Only links to the mountpoint itself matter to it. */
  ghost predicate GoodAt(g: Manager, op: Op, mountpoint: string) {
    match op
    case LinkDirectoryOp(r) => r.destination == mountpoint ==> DirLinkGood(g, r)
    case LinkFileOp(r) => DirectoryOf(r.destination) == mountpoint ==> FileLinkGood(g, r)
    case _ => true
  }

  /** The exact condition on every operation of the manager, for every mountpoint. */
  lemma StepSoundIff(g: Manager, op: Op, mountpoint: string)
    requires SoundAt(g, mountpoint) && OpListed(op)
    ensures SoundAt(Step(g, op), mountpoint) <==> GoodAt(g, op, mountpoint)
  {
    match op
    case LinkDirectoryOp(r) => LinkDirectorySoundIff(g, r, mountpoint);
    case LinkFileOp(r) => LinkFileSoundIff(g, r, mountpoint);
    case SetUpperDirOp(_) =>
    case ClearOp =>
    case MountOp(upperOpens, mountable) => MountPendingKeepsSound(g, upperOpens, mountable, mountpoint);
    case HandleOp(i, call) =>
      if i < |g.active| {
        HandleOpKeepsSound(g, i, call, mountpoint);
      }
  }

  ghost function GoodGuard(mountpoint: string): (Manager, Op) -> bool {
    (g, op) => GoodAt(g, op, mountpoint)
  }

  ghost function SoundThere(mountpoint: string): Manager -> bool {
    g => SoundAt(g, mountpoint)
  }

  ghost predicate GoodRunAt(g: Manager, ops: seq<Op>, mountpoint: string) {
    (forall op | op in ops :: OpListed(op)) && Follows(g, ops, GoodGuard(mountpoint))
  }

  /** A run keeps a mountpoint sound all the way exactly when all its links to it are good,
      whatever it links elsewhere. */
  lemma RunSoundIff(g: Manager, ops: seq<Op>, mountpoint: string)
    requires SoundAt(g, mountpoint) && forall op | op in ops :: OpListed(op)
    ensures GoodRunAt(g, ops, mountpoint) <==>
            forall k | 0 <= k <= |ops| :: SoundAt(Run(g, ops[..k]), mountpoint)
    ensures GoodRunAt(g, ops, mountpoint) ==> SoundAt(Run(g, ops), mountpoint)
  {
    forall h, op | op in ops && SoundThere(mountpoint)(h)
      ensures SoundThere(mountpoint)(Step(h, op)) <==> GoodGuard(mountpoint)(h, op)
    {
      StepSoundIff(h, op, mountpoint);
    }
    RunIff(g, ops, SoundThere(mountpoint), GoodGuard(mountpoint));
  }

  /** Hence the descriptor that a handler looks up for a path that find resolves is there, and
      is the one of that directory or of one that differs in case only. */
  lemma LookupsNeverMiss(upperDir: string, ops: seq<Op>, i: nat, path: string)
    requires i < |Run(Manager([], [], upperDir), ops).active| && Position(path) != []
    requires GoodRunAt(Manager([], [], upperDir), ops, Run(Manager([], [], upperDir), ops).active[i].mountpoint)
    ensures var m := Run(Manager([], [], upperDir), ops).active[i];
            match FindNode(m.tree, Position(path), false)
            case Ok(item) =>
              var fd := FdAt(m.fds, ParentPath(item.realPath));
              fd.Open? && ToLower(fd.directory) == ToLower(ParentPath(item.realPath))
            case Err(_) => true
  {
    var m := Run(Manager([], [], upperDir), ops).active[i];
    RunSoundIff(Manager([], [], upperDir), ops, m.mountpoint);
    if FindNode(m.tree, Position(path), false).Ok? {
      LookupNeverMisses(m, path);
    }
  }

  /** Good whatever the state: directories without a trailing slash, and linked files whose
      directory opens. */
  ghost predicate OpGood(op: Op) {
    match op
    case LinkDirectoryOp(r) =>
      Listable(r.listing) && Listable(r.destinationListing) && !EndsWithSlash(r.source) && !EndsWithSlash(r.destination)
    case LinkFileOp(r) =>
      && Listable(r.destinationListing) && !EndsWithSlash(ParentPath(r.destination))
      && OpenDir(ParentPath(r.source), r.unopenable).Open?
    case _ => true
  }

  lemma {:induction false} PlainRunIsGood(g: Manager, ops: seq<Op>, mountpoint: string)
    requires forall op | op in ops :: OpGood(op)
    ensures GoodRunAt(g, ops, mountpoint)
    decreases |ops|
  {
    if ops != [] {
      assert OpGood(ops[0]);
      PlainRunIsGood(Step(g, ops[0]), ops[1..], mountpoint);
    }
  }

  // ----------------------------------------------------------------- distinct mountpoints

  lemma UpdateDistinct(mounts: seq<Mount>, i: nat, m: Mount)
    requires DistinctMountpoints(mounts) && i < |mounts| && m.mountpoint == mounts[i].mountpoint
    ensures DistinctMountpoints(mounts[i := m])
  {}

  lemma AppendDistinct(mounts: seq<Mount>, m: Mount)
    requires DistinctMountpoints(mounts) && IndexOf(mounts, m.mountpoint) < 0
    ensures DistinctMountpoints(mounts + [m])
  {}

  lemma LinkDirectoryDistinct(g: Manager, r: DirLink)
    requires DistinctMountpoints(g.pending)
    ensures DistinctMountpoints(LinkDirectory(g, r).0.pending)
  {
    if SourceScan(r).Some? {
      var s, i := SourceScan(r).value, IndexOf(g.pending, r.destination);
      if i >= 0 {
        var m := g.pending[i];
        UpdateDistinct(g.pending, i, m.(tree := Merge(m.tree, s.tree), fds := m.fds + s.fds));
      } else {
        var d := CreateFileTree(r.destination, s.fds, r.destinationListing, r.unopenable);
        if d.Some? {
          AppendDistinct(g.pending, Mount(Merge(d.value.tree, s.tree), d.value.fds, r.destination, ""));
        }
      }
    }
  }

  lemma LinkFileDistinct(g: Manager, r: FileLink)
    requires DistinctMountpoints(g.pending)
    ensures DistinctMountpoints(LinkFile(g, r).0.pending)
  {
    var i := IndexOf(g.pending, DirectoryOf(r.destination));
    if i >= 0 {
      UpdateDistinct(g.pending, i, LinkFileInto(g.pending[i], r).0);
    } else if FileMount(r).0.Some? {
      AppendDistinct(g.pending, FileMount(r).0.value);
    }
  }

  lemma StepKeepsDistinct(g: Manager, op: Op)
    requires DistinctMountpoints(g.pending)
    ensures DistinctMountpoints(Step(g, op).pending)
  {
    match op
    case LinkDirectoryOp(r) => LinkDirectoryDistinct(g, r);
    case LinkFileOp(r) => LinkFileDistinct(g, r);
    case SetUpperDirOp(_) =>
    case ClearOp =>
    case MountOp(_, _) =>
    case HandleOp(_, _) =>
  }

  /** Over every run, with no condition on links or hosts, pending mountpoints are distinct. */
  lemma {:induction false} RunKeepsDistinct(g: Manager, ops: seq<Op>)
    requires DistinctMountpoints(g.pending)
    ensures DistinctMountpoints(Run(g, ops).pending)
    decreases |ops|
  {
    if ops != [] {
      StepKeepsDistinct(g, ops[0]);
      RunKeepsDistinct(Step(g, ops[0]), ops[1..]);
    }
  }

  ghost predicate ManagerOk(g: Manager) {
    DistinctMountpoints(g.pending) && forall mountpoint :: SoundAt(g, mountpoint)
  }

  /** Over every run whose links are good both invariants hold of the whole manager. */
  lemma EveryRunStaysOk(g: Manager, ops: seq<Op>)
    requires ManagerOk(g) && forall mountpoint :: GoodRunAt(g, ops, mountpoint)
    ensures ManagerOk(Run(g, ops))
  {
    RunKeepsDistinct(g, ops);
    forall mountpoint ensures SoundAt(Run(g, ops), mountpoint) {
      assert GoodRunAt(g, ops, mountpoint) && SoundAt(g, mountpoint);
      RunSoundIff(g, ops, mountpoint);
    }
  }

  /** In particular over every run from the empty manager whose links are plain. */
  lemma RunsFromStart(upperDir: string, ops: seq<Op>)
    requires forall op | op in ops :: OpGood(op)
    ensures ManagerOk(Run(Manager([], [], upperDir), ops))
  {
    forall mountpoint ensures GoodRunAt(Manager([], [], upperDir), ops, mountpoint) {
      PlainRunIsGood(Manager([], [], upperDir), ops, mountpoint);
    }
    EveryRunStaysOk(Manager([], [], upperDir), ops);
  }
}
