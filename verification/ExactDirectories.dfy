/** Whether a lookup yields the very directory that it asks for.  The table folds its keys,
    but on disk case matters: two directories that differ in case only share one entry, and
    the one filed last takes it. */
module ExactDirectories {
  import opened Paths
  import opened Nodes
  import opened FlatMap
  import opened Mounts
  import opened Coverage
  import opened Merging
  import opened Listing
  import opened Linking
  import opened HandlerEffects
  import DeletionRuns

  predicate Exactly(fds: Fds, directory: string) {
    FdAt(fds, directory) == Open(directory)
  }

  /** The table files nothing under the key of the directory but the directory itself. */
  predicate Agrees(fds: Fds, directory: string) {
    ToLower(directory) in fds ==> fds[ToLower(directory)] == Open(directory)
  }

  /** What every item needs, other than the spared ones, is looked up exactly. */
  ghost predicate ExactIn(f: Entries, fds: Fds, spared: set<Path>) {
    forall p | p in f && p !in spared :: Exactly(fds, Needs(p, f[p]))
  }

  ghost predicate Undisturbed(f: Entries, fds: Fds, spared: set<Path>) {
    forall p | p in f && p !in spared :: Agrees(fds, Needs(p, f[p]))
  }

  /** With an upper directory set, handlers look below that instead. */
  ghost predicate ExactOk(m: Mount) {
    m.upperDir == "" ==> ExactIn(Flat(m.tree), m.fds, {})
  }

  lemma ExactLookup(m: Mount, path: string)
    requires ExactOk(m) && m.upperDir == "" && Position(path) != []
    requires FindNode(m.tree, Position(path), false).Ok?
    ensures var parent := ParentPath(FindNode(m.tree, Position(path), false).value.realPath);
            FdAt(m.fds, parent) == Open(parent)
  {
    var p := Position(path);
    assert p in Flat(m.tree) && Flat(m.tree)[p] == EntryOf(Get(m.tree, p));
  }

  // --------------------------------------------------------------- what a scan files

  /** The descriptors of the listed directories; of two under one key the last stays. */
  function DirFds(directory: string, listing: seq<DirEntry>): Fds
    decreases |listing|
  {
    if listing == [] then map[]
    else
      var e, fds := Last(listing), DirFds(directory, Front(listing));
      if e.isDir then FdPut(fds, EntryPath(directory, e.Relative()), Open(EntryPath(directory, e.Relative()))) else fds
  }

  function TreeFds(directory: string, listing: seq<DirEntry>): Fds {
    map[ToLower(directory) := Open(directory)] + DirFds(directory, listing)
  }

  lemma {:induction false} ScanTable(start: Scanned, directory: string, listing: seq<DirEntry>, unopenable: set<string>)
    ensures var s := Scan(start, directory, listing, unopenable);
            s.Some? ==> s.value.fds == start.fds + DirFds(directory, listing)
    decreases |listing|
  {
    if listing == [] {
      assert start.fds + map[] == start.fds;
    } else {
      ScanTable(start, directory, Front(listing), unopenable);
    }
  }

  lemma CreatedTable(path: string, fds: Fds, listing: seq<DirEntry>, unopenable: set<string>)
    ensures var s := CreateFileTree(path, fds, listing, unopenable);
            s.Some? ==> s.value.fds == fds + TreeFds(path, listing)
  {
    ScanTable(Scanned(Root(path), FdPut(fds, path, Open(path))), path, listing, unopenable);
    PutThenMore(fds, ToLower(path), Open(path), DirFds(path, listing));
  }

  lemma PutThenMore(fds: Fds, key: string, fd: Fd, more: Fds)
    ensures fds[key := fd] + more == fds + (map[key := fd] + more)
  {}

  lemma EntryPathFold(directory: string, e: DirEntry, other: DirEntry)
    requires EntryOk(e) && EntryOk(other)
    requires ToLower(EntryPath(directory, e.Relative())) == ToLower(EntryPath(directory, other.Relative()))
    ensures e.Position() == other.Position()
  {
    var base := if EndsWithSlash(directory) then directory else directory + "/";
    SamePrefix(base, Join(e.Relative()), Join(other.Relative()));
    SplitFold(Join(e.Relative()));
    SplitFold(Join(other.Relative()));
    SplitOfJoin(e.Relative());
    SplitOfJoin(other.Relative());
  }

  lemma SamePrefix(base: string, s: string, t: string)
    requires ToLower(base + s) == ToLower(base + t)
    ensures ToLower(s) == ToLower(t)
  {
    ToLowerConcat(base, s);
    ToLowerConcat(base, t);
    assert (ToLower(base) + ToLower(s))[|base|..] == ToLower(s);
    assert (ToLower(base) + ToLower(t))[|base|..] == ToLower(t);
  }

  lemma OtherKey(directory: string, e: DirEntry, other: DirEntry)
    requires EntryOk(e) && EntryOk(other) && e.Position() != other.Position()
    ensures ToLower(EntryPath(directory, e.Relative())) != ToLower(EntryPath(directory, other.Relative()))
  {
    if ToLower(EntryPath(directory, e.Relative())) == ToLower(EntryPath(directory, other.Relative())) {
      EntryPathFold(directory, e, other);
    }
  }

  /** Every listed directory is filed as itself. */
  lemma {:induction false} DirFiled(directory: string, listing: seq<DirEntry>, i: nat)
    requires DistinctFolded(listing) && (forall e | e in listing :: EntryOk(e))
    requires i < |listing| && listing[i].isDir
    ensures var path := EntryPath(directory, listing[i].Relative());
            ToLower(path) in DirFds(directory, listing) && DirFds(directory, listing)[ToLower(path)] == Open(path)
    decreases |listing|
  {
    if i < |listing| - 1 {
      var e, last := listing[i], Last(listing);
      DistinctLast(listing);
      assert e == Front(listing)[i] && e in listing && last in listing;
      DirFiled(directory, Front(listing), i);
      assert e.Position() != listing[|listing| - 1].Position();
      OtherKey(directory, e, last);
    }
  }

  lemma {:induction false} DirFdsAreLong(directory: string, listing: seq<DirEntry>, k: string)
    requires (forall e | e in listing :: EntryOk(e)) && k in DirFds(directory, listing)
    ensures |k| > |directory|
    decreases |listing|
  {
    var e := Last(listing);
    assert e in listing;
    if k in DirFds(directory, Front(listing)) {
      DirFdsAreLong(directory, Front(listing), k);
    } else {
      SplitOfJoin(e.Relative());
      assert SegmentOk(e.Relative()[0]);
      assert Join(e.Relative()) != "";
    }
  }

  /** A top entry of a directory given with a trailing slash. */
  predicate Bare(directory: string, e: DirEntry) {
    EndsWithSlash(directory) && e.parent == []
  }

  /** What entry i needs is filed as itself by its own scan, or not filed there at all. */
  lemma EntryExact(directory: string, listing: seq<DirEntry>, i: nat)
    requires Listable(listing) && DistinctFolded(listing) && i < |listing|
    ensures var need := ParentPath(EntryPath(directory, listing[i].Relative()));
            if Bare(directory, listing[i])
            then need == Front(directory) && ToLower(need) !in TreeFds(directory, listing)
            else ToLower(need) in TreeFds(directory, listing) && Exactly(TreeFds(directory, listing), need)
  {
    var e := listing[i];
    assert e in listing;
    ParentOfEntry(directory, e);
    forall k | k in DirFds(directory, listing) ensures |k| > |directory| {
      DirFdsAreLong(directory, listing, k);
    }
    if e.parent != [] {
      assert HasParent(listing, i);
      var j :| 0 <= j < i && listing[j].isDir && listing[j].Relative() == e.parent;
      DirFiled(directory, listing, j);
    }
  }

  // ----------------------------------------------------------- entries and tables

  /** Replaced entries aside, the top entries lie in a directory filed as itself. */
  ghost predicate TopsExact(directory: string, listing: seq<DirEntry>, fds: Fds, replaced: set<Path>) {
    || !EndsWithSlash(directory) || Exactly(fds, Front(directory))
    || forall e | e in listing && e.parent == [] :: e.Position() in replaced
  }

  lemma NeedUnder(before: Fds, fds: Fds, after: Fds, need: string)
    ensures ToLower(need) !in fds ==> FdAt(before + fds + after, need) == FdAt(before + after, need)
    ensures Exactly(fds, need) && ToLower(need) in fds ==>
              (Exactly(before + fds + after, need) <==> Agrees(after, need))
    ensures Exactly(before + after, need) ==> Agrees(after, need)
  {}

  /** A listing between what was filed before it and what was filed after. */
  lemma DescribedExact(directory: string, listing: seq<DirEntry>, before: Fds, after: Fds, spared: set<Path>)
    requires Listable(listing) && DistinctFolded(listing)
    ensures var f := Described(directory, listing);
            ExactIn(f, before + TreeFds(directory, listing) + after, spared) <==>
            TopsExact(directory, listing, before + after, spared) && Undisturbed(f, after, spared)
  {
    var f, fds := Described(directory, listing), TreeFds(directory, listing);
    DescribedRoot(directory, listing);
    RootExact(directory, listing);
    NeedUnder(before, fds, after, directory);
    forall i | 0 <= i < |listing|
      ensures var p := listing[i].Position();
              && p in f
              && (Exactly(before + fds + after, Needs(p, f[p])) <==>
                  && (Bare(directory, listing[i]) ==> Exactly(before + after, Front(directory)))
                  && Agrees(after, Needs(p, f[p])))
    {
      DescribedEntry(directory, listing, i);
      EntryExact(directory, listing, i);
      NeedUnder(before, fds, after, ParentPath(EntryPath(directory, listing[i].Relative())));
    }
    forall p | p in f && p != [] ensures Mentions(listing, p) {
      DescribedPositions(directory, listing, p);
    }
    ExactByEntries(directory, listing, before, after, spared);
  }

  lemma RootExact(directory: string, listing: seq<DirEntry>)
    requires forall e | e in listing :: EntryOk(e)
    ensures ToLower(directory) in TreeFds(directory, listing) && Exactly(TreeFds(directory, listing), directory)
  {
    if ToLower(directory) in DirFds(directory, listing) {
      DirFdsAreLong(directory, listing, ToLower(directory));
    }
  }

  lemma ExactByEntries(directory: string, listing: seq<DirEntry>, before: Fds, after: Fds, spared: set<Path>)
    requires var f, all := Described(directory, listing), before + TreeFds(directory, listing) + after;
             && [] in f && f[[]].realPath == directory && (Exactly(all, directory) <==> Agrees(after, directory))
             && (forall p | p in f && p != [] :: Mentions(listing, p))
             && forall i | 0 <= i < |listing| ::
                  var p := listing[i].Position();
                  && p in f
                  && (Exactly(all, Needs(p, f[p])) <==>
                      && (Bare(directory, listing[i]) ==> Exactly(before + after, Front(directory)))
                      && Agrees(after, Needs(p, f[p])))
    ensures ExactIn(Described(directory, listing), before + TreeFds(directory, listing) + after, spared) <==>
            && TopsExact(directory, listing, before + after, spared)
            && Undisturbed(Described(directory, listing), after, spared)
  {
    var f, all := Described(directory, listing), before + TreeFds(directory, listing) + after;
    if ExactIn(f, all, spared) {
      forall e | e in listing && Bare(directory, e) && e.Position() !in spared
        ensures Exactly(before + after, Front(directory))
      {
        var i :| 0 <= i < |listing| && listing[i] == e;
        assert e.Position() in f;
      }
      forall p | p in f && p !in spared ensures Agrees(after, Needs(p, f[p])) {
        if p != [] {
          var i :| 0 <= i < |listing| && listing[i].Position() == p;
        }
      }
    }
    if TopsExact(directory, listing, before + after, spared) && Undisturbed(f, after, spared) {
      forall p | p in f && p !in spared ensures Exactly(all, Needs(p, f[p])) {
        if p != [] {
          var i :| 0 <= i < |listing| && listing[i].Position() == p;
          assert listing[i] in listing;
        }
      }
    }
  }

  /** Filing more keeps exactness if and only if no needed key gets another spelling. */
  lemma MoreFiledExact(f: Entries, fds: Fds, more: Fds, spared: set<Path>)
    requires ExactIn(f, fds, spared)
    ensures ExactIn(f, fds + more, spared) <==> Undisturbed(f, more, spared)
  {}

  lemma MergeExact(f: Entries, g: Entries, fds: Fds)
    ensures ExactIn(FlatMerge(f, g), fds, {}) <==> ExactIn(g, fds, {}) && ExactIn(f, fds, g.Keys)
  {
    forall p | p in f || p in g
      ensures p in FlatMerge(f, g) && Needs(p, FlatMerge(f, g)[p]) == Needs(p, if p in g then g[p] else f[p])
    {
    }
  }

  lemma EntryExactIff(f: Entries, p: Path, e: Entry, fds: Fds)
    ensures ExactIn(f[p := e], fds, {}) <==> Exactly(fds, Needs(p, e)) && ExactIn(f, fds, {p})
  {
    assert f[p := e][p] == e;
    forall q | q in f && q != p ensures q in f[p := e] && f[p := e][q] == f[q] {
    }
  }

  // ------------------------------------------------------------------------------ links

  ghost predicate ExactAt(g: Manager, mountpoint: string) {
    AllAt(g.pending, mountpoint, ExactOk) && AllAt(g.active, mountpoint, ExactOk)
  }

  /** The exact condition on a directory link: what it files last under a key that a surviving
      item needs is spelled as that item needs it; and a trailing slash costs what it costs. */
  ghost predicate DirLinkExact(g: Manager, r: DirLink) {
    ScanOpens(r.source, r.listing, r.unopenable) ==>
      var i, fds, f := IndexOf(g.pending, r.destination), TreeFds(r.source, r.listing), Described(r.source, r.listing);
      if i >= 0 then
        var m := g.pending[i];
        m.upperDir == "" ==>
          TopsExact(r.source, r.listing, m.fds, {}) && Undisturbed(Flat(m.tree), fds, f.Keys)
      else
        ScanOpens(r.destination, r.destinationListing, r.unopenable) ==>
          var last := TreeFds(r.destination, r.destinationListing);
          && TopsExact(r.source, r.listing, last, {}) && Undisturbed(f, last, {})
          && TopsExact(r.destination, r.destinationListing, fds, f.Keys)
  }

  lemma EmptyTables(fds: Fds)
    ensures map[] + fds == fds && fds + map[] == fds
  {}

  lemma MergePendingExactIff(m: Mount, r: DirLink, s: Scanned)
    requires ExactIn(Flat(m.tree), m.fds, {}) && Listable(r.listing) && SourceScan(r) == Some(s)
    ensures ExactIn(Flat(Merge(m.tree, s.tree)), m.fds + s.fds, {}) <==>
            && TopsExact(r.source, r.listing, m.fds, {})
            && Undisturbed(Flat(m.tree), TreeFds(r.source, r.listing), Described(r.source, r.listing).Keys)
  {
    var f, g, fds := Flat(m.tree), Described(r.source, r.listing), TreeFds(r.source, r.listing);
    CreatedTree(r.source, map[], r.listing, r.unopenable);
    assert s.fds == fds by {
      CreatedTable(r.source, map[], r.listing, r.unopenable);
      EmptyTables(fds);
    }
    assert Flat(Merge(m.tree, s.tree)) == FlatMerge(f, g) by { MergeRefines(m.tree, s.tree); }
    MergeExact(f, g, m.fds + fds);
    MoreFiledExact(f, m.fds, fds, g.Keys);
    EmptyTables(m.fds);
    EmptyTables(m.fds + fds);
    DescribedExact(r.source, r.listing, m.fds, map[], {});
  }

  lemma NewMountExactIff(r: DirLink, s: Scanned, d: Scanned)
    requires Listable(r.listing) && Listable(r.destinationListing)
    requires SourceScan(r) == Some(s)
    requires CreateFileTree(r.destination, s.fds, r.destinationListing, r.unopenable) == Some(d)
    ensures var fds, last := TreeFds(r.source, r.listing), TreeFds(r.destination, r.destinationListing);
            ExactIn(Flat(Merge(d.tree, s.tree)), d.fds, {}) <==>
            && TopsExact(r.source, r.listing, last, {}) && Undisturbed(Described(r.source, r.listing), last, {})
            && TopsExact(r.destination, r.destinationListing, fds, Described(r.source, r.listing).Keys)
  {
    var f, g := Described(r.destination, r.destinationListing), Described(r.source, r.listing);
    var fds, last := TreeFds(r.source, r.listing), TreeFds(r.destination, r.destinationListing);
    CreatedTree(r.source, map[], r.listing, r.unopenable);
    CreatedTree(r.destination, s.fds, r.destinationListing, r.unopenable);
    assert d.fds == fds + last by {
      CreatedTable(r.source, map[], r.listing, r.unopenable);
      EmptyTables(fds);
      CreatedTable(r.destination, s.fds, r.destinationListing, r.unopenable);
    }
    assert Flat(Merge(d.tree, s.tree)) == FlatMerge(f, g) by { MergeRefines(d.tree, s.tree); }
    MergeExact(f, g, fds + last);
    TwoListings(r, fds, last);
  }

  lemma TwoListings(r: DirLink, fds: Fds, last: Fds)
    requires Listable(r.listing) && DistinctFolded(r.listing) && fds == TreeFds(r.source, r.listing)
    requires Listable(r.destinationListing) && DistinctFolded(r.destinationListing)
    requires last == TreeFds(r.destination, r.destinationListing)
    ensures var f, g := Described(r.destination, r.destinationListing), Described(r.source, r.listing);
            && (ExactIn(g, fds + last, {}) <==> TopsExact(r.source, r.listing, last, {}) && Undisturbed(g, last, {}))
            && (ExactIn(f, fds + last, g.Keys) <==> TopsExact(r.destination, r.destinationListing, fds, g.Keys))
  {
    EmptyTables(fds);
    EmptyTables(last);
    EmptyTables(fds + last);
    DescribedExact(r.source, r.listing, map[], last, {});
    DescribedExact(r.destination, r.destinationListing, fds, map[], Described(r.source, r.listing).Keys);
  }

  lemma LinkDirectoryExactIff(g: Manager, r: DirLink, mountpoint: string)
    requires ExactAt(g, mountpoint) && Listable(r.listing) && Listable(r.destinationListing)
    ensures ExactAt(LinkDirectory(g, r).0, mountpoint) <==> (r.destination == mountpoint ==> DirLinkExact(g, r))
  {
    CreatedTree(r.source, map[], r.listing, r.unopenable);
    if SourceScan(r).Some? {
      var s, i := SourceScan(r).value, IndexOf(g.pending, r.destination);
      if i >= 0 {
        LinkOntoPendingExactIff(g, r, s, i, mountpoint);
      } else {
        CreatedTree(r.destination, s.fds, r.destinationListing, r.unopenable);
        var d := CreateFileTree(r.destination, s.fds, r.destinationListing, r.unopenable);
        if d.Some? {
          NewMountExactIff(r, s, d.value);
          AppendIff(g.pending, Mount(Merge(d.value.tree, s.tree), d.value.fds, r.destination, ""), mountpoint, ExactOk);
        }
      }
    }
  }

  lemma LinkOntoPendingExactIff(g: Manager, r: DirLink, s: Scanned, i: nat, mountpoint: string)
    requires ExactAt(g, mountpoint) && Listable(r.listing) && SourceScan(r) == Some(s)
    requires IndexOf(g.pending, r.destination) == i && ScanOpens(r.source, r.listing, r.unopenable)
    ensures ExactAt(LinkDirectory(g, r).0, mountpoint) <==> (r.destination == mountpoint ==> DirLinkExact(g, r))
  {
    var m := g.pending[i];
    UpdateIff(g.pending, i, m.(tree := Merge(m.tree, s.tree), fds := m.fds + s.fds), mountpoint, ExactOk);
    if r.destination == mountpoint && m.upperDir == "" {
      assert ExactOk(m);
      MergePendingExactIff(m, r, s);
    }
  }

  // ------------------------------------------------------------------------- file links

  function OneFd(directory: string): Fds {
    map[ToLower(directory) := Open(directory)]
  }

  /** The exact condition on a file link. */
  ghost predicate FileLinkExact(g: Manager, r: FileLink) {
    r.skipped ||
    var i, p := IndexOf(g.pending, DirectoryOf(r.destination)), [ToLower(FileName(r.destination))];
    var need := ParentPath(r.source);
    if i >= 0 then
      var m := g.pending[i];
      m.upperDir == "" && !FileRefused(m, r) ==>
        if OpenDir(need, r.unopenable).Open? then Undisturbed(Flat(m.tree), OneFd(need), {p}) else Exactly(m.fds, need)
    else
      FileOpens(r) ==>
        var directory := ParentPath(r.destination);
        && TopsExact(directory, r.destinationListing, OneFd(need), {p})
        && Agrees(TreeFds(directory, r.destinationListing), need)
  }

  lemma LinkFileIntoExactIff(m: Mount, r: FileLink)
    requires ExactIn(Flat(m.tree), m.fds, {})
    ensures var m', p, need := LinkFileInto(m, r).0, [ToLower(FileName(r.destination))], ParentPath(r.source);
            ExactIn(Flat(m'.tree), m'.fds, {}) <==>
            (!FileRefused(m, r) ==>
               if OpenDir(need, r.unopenable).Open? then Undisturbed(Flat(m.tree), OneFd(need), {p})
               else Exactly(m.fds, need))
  {
    FileRefusedIff(m, r);
    if !FileRefused(m, r) {
      var name, need := FileName(r.destination), ParentPath(r.source);
      FileNamePosition(name);
      var e := AddTextEntry(m.tree, name, r.source, File, false);
      FileTable(m, r);
      if OpenDir(need, r.unopenable).Open? {
        FiledWithExactIff(Flat(m.tree), [ToLower(name)], e, m.fds, need);
      } else {
        EntryExactIff(Flat(m.tree), [ToLower(name)], e, m.fds);
      }
    }
  }

  lemma FileTable(m: Mount, r: FileLink)
    requires AddText(m.tree, FileName(r.destination), r.source, File, false).Ok?
    ensures var need, m' := ParentPath(r.source), LinkFileInto(m, r).0;
            && m'.tree == AddText(m.tree, FileName(r.destination), r.source, File, false).value
            && m'.fds == if OpenDir(need, r.unopenable).Open? then m.fds + OneFd(need) else m.fds
  {}

  lemma FiledWithExactIff(f: Entries, p: Path, e: Entry, fds: Fds, need: string)
    requires ExactIn(f, fds, {}) && Needs(p, e) == need
    ensures ExactIn(f[p := e], fds + OneFd(need), {}) <==> Undisturbed(f, OneFd(need), {p})
  {
    EntryExactIff(f, p, e, fds + OneFd(need));
    MoreFiledExact(f, fds, OneFd(need), {p});
  }

  lemma FileMountExactIff(r: FileLink)
    requires Listable(r.destinationListing) && FileMount(r).0.Some?
    ensures var directory, need := ParentPath(r.destination), ParentPath(r.source);
            var p := [ToLower(FileName(r.destination))];
            ExactOk(FileMount(r).0.value) <==>
            && TopsExact(directory, r.destinationListing, OneFd(need), {p})
            && Agrees(TreeFds(directory, r.destinationListing), need)
  {
    var directory, p, need := ParentPath(r.destination), [ToLower(FileName(r.destination))], ParentPath(r.source);
    var f, m := Described(directory, r.destinationListing), FileMount(r).0.value;
    var last := TreeFds(directory, r.destinationListing);
    FileMountEntries(r);
    FileMountTable(r);
    EntryExactIff(f, p, Flat(m.tree)[p], m.fds);
    EmptyTables(OneFd(need));
    EmptyTables(OneFd(need) + last);
    DescribedExact(directory, r.destinationListing, OneFd(need), map[], {p});
    NeedUnder(map[], OneFd(need), last, need);
    EmptyTables(OneFd(need) + last);
  }

  lemma FileMountTable(r: FileLink)
    requires FileMount(r).0.Some?
    ensures FileMount(r).0.value.fds ==
            OneFd(ParentPath(r.source)) + TreeFds(ParentPath(r.destination), r.destinationListing)
  {
    var directory, fds := ParentPath(r.destination), OneFd(ParentPath(r.source));
    CreatedTable(directory, FileFds(r).value, r.destinationListing, r.unopenable);
    assert FileFds(r).value == fds[ToLower(directory) := Open(directory)];
    Overwritten(fds, ToLower(directory), Open(directory), TreeFds(directory, r.destinationListing));
  }

  lemma Overwritten(fds: Fds, key: string, fd: Fd, more: Fds)
    requires key in more
    ensures fds[key := fd] + more == fds + more
  {}

  lemma LinkFileExactIff(g: Manager, r: FileLink, mountpoint: string)
    requires ExactAt(g, mountpoint) && Listable(r.destinationListing)
    ensures ExactAt(LinkFile(g, r).0, mountpoint) <==>
            (DirectoryOf(r.destination) == mountpoint ==> FileLinkExact(g, r))
  {
    var i := IndexOf(g.pending, DirectoryOf(r.destination));
    if !r.skipped && i >= 0 {
      var m := g.pending[i];
      UpdateIff(g.pending, i, LinkFileInto(m, r).0, mountpoint, ExactOk);
      if DirectoryOf(r.destination) == mountpoint && m.upperDir == "" {
        assert ExactOk(m);
        LinkFileIntoExactIff(m, r);
      }
    } else if !r.skipped {
      FileMountEntries(r);
      if FileMount(r).0.Some? {
        FileMountExactIff(r);
        AppendIff(g.pending, FileMount(r).0.value, mountpoint, ExactOk);
      }
    }
  }

  // --------------------------------------------------------------------------- handlers

  /** mkdir and create put an item into the parent item's own directory, which must be filed
      as itself; and mkdir files one more. */
  ghost predicate ExactGuarded(m: Mount, call: Call) {
    m.upperDir != "" ||
    var f, p := Flat(m.tree), Position(call.path);
    match call
    case MkdirCall(path, host) =>
      var parent := MkdirParent(m, path);
      p !in f && parent.Ok? && FdAt(m.fds, parent.value).Open? && host.makes && host.opens ==>
        Exactly(m.fds, parent.value) && Undisturbed(f, OneFd(parent.value + "/" + FileName(path)), {})
    case CreateCall(path, host) =>
      var parent := CreateParent(m, path);
      (p in f ==> f[p].deleted) && parent.Ok? && FdAt(m.fds, parent.value).Open? && host.opens ==>
        Exactly(m.fds, parent.value)
    case UnlinkCall(_, _) => true
    case RmdirCall(_, _) => true
  }

  lemma MkdirExactIff(m: Mount, path: string, host: Host)
    requires ExactOk(m) && m.upperDir == "" && Rooted(path) && path != "/"
    ensures ExactOk(Mkdir(m, path, host).0) <==> ExactGuarded(m, MkdirCall(path, host))
  {
    var (m', reply) := Mkdir(m, path, host);
    var f, p, parent := Flat(m.tree), Position(path), MkdirParent(m, path);
    MkdirByParent(m, path, host);
    if p in f {
      if reply.Success? {
        EntryExactIff(f, p, f[p].(deleted := false, name := FileName(path)), m.fds);
      }
    } else if reply.Success? {
      MkdirTable(m, path, host);
      NewDirExactIff(f, p, m.fds, parent.value, FileName(path), m'.fds);
    } else {
      MkdirFails(m, path, host);
    }
  }

  lemma MkdirFails(m: Mount, path: string, host: Host)
    requires m.upperDir == "" && Mkdir(m, path, host).1.Failure? && Rooted(path) && path != "/"
    ensures Mkdir(m, path, host).0 == m
  {
    var parent := MkdirParent(m, path);
    if !Has(m.tree, Position(path)) && parent.Ok? {
      AddOnlyAt(m.tree, path, parent.value + "/" + FileName(path), Dir);
    }
  }

  lemma MkdirTable(m: Mount, path: string, host: Host)
    requires m.upperDir == "" && Mkdir(m, path, host).1.Success? && !Has(m.tree, Position(path))
    ensures var parent, m' := MkdirParent(m, path), Mkdir(m, path, host).0;
            && parent.Ok? && FdAt(m.fds, parent.value).Open?
            && m'.fds == FdPut(m.fds, parent.value + "/" + FileName(path),
                               Open(FdAt(m.fds, parent.value).directory + "/" + FileName(path)))
  {}

  lemma NewDirExactIff(f: Entries, p: Path, fds: Fds, parent: string, name: string, fds': Fds)
    requires ExactIn(f, fds, {}) && p != [] && p !in f && NoSlash(name) && FdAt(fds, parent).Open?
    requires fds' == FdPut(fds, parent + "/" + name, Open(FdAt(fds, parent).directory + "/" + name))
    ensures ExactIn(f[p := Entry(name, parent + "/" + name, Dir, false)], fds', {}) <==>
            Exactly(fds, parent) && Undisturbed(f, OneFd(parent + "/" + name), {})
  {
    var e := Entry(name, parent + "/" + name, Dir, false);
    ParentOfJoin(parent, name);
    EntryExactIff(f, p, e, fds');
    assert |ToLower(parent + "/" + name)| > |ToLower(parent)|;
    assert FdAt(fds', parent) == FdAt(fds, parent);
    if Exactly(fds, parent) {
      assert fds' == fds + OneFd(parent + "/" + name);
      MoreFiledExact(f, fds, OneFd(parent + "/" + name), {});
      assert ExactIn(f, fds', {p}) <==> ExactIn(f, fds', {});
    }
  }

  lemma CreateExactIff(m: Mount, path: string, host: Host)
    requires ExactOk(m) && m.upperDir == "" && Rooted(path) && path != "/"
    ensures ExactOk(Create(m, path, host).0) <==> ExactGuarded(m, CreateCall(path, host))
  {
    var (m', reply) := Create(m, path, host);
    var f, p, parent, name := Flat(m.tree), Position(path), CreateParent(m, path), FileName(path);
    NameHasNoSlash(path);
    CreateTable(m, path, host);
    CreateByParent(m, path, host);
    PositionOfParent(path);
    if reply.Success? && (p in f ==> f[p].deleted) {
      NewFileExactIff(f, p, m.fds, parent.value, name);
    }
  }

  lemma CreateTable(m: Mount, path: string, host: Host)
    requires m.upperDir == ""
    ensures Create(m, path, host).0.fds == m.fds
  {}

  lemma NewFileExactIff(f: Entries, p: Path, fds: Fds, parent: string, name: string)
    requires ExactIn(f, fds, {}) && p != [] && NoSlash(name)
    ensures ExactIn(f[p := Added(f, p, name, parent + "/" + name, File)], fds, {}) <==> Exactly(fds, parent)
  {
    ParentOfJoin(parent, name);
    EntryExactIff(f, p, Added(f, p, name, parent + "/" + name, File), fds);
  }

  lemma HandleExactIff(m: Mount, call: Call)
    requires ExactOk(m) && Rooted(call.path) && call.path != "/"
    ensures ExactOk(Handle(m, call).0) <==> ExactGuarded(m, call)
  {
    if m.upperDir == "" {
      match call
      case MkdirCall(path, host) => MkdirExactIff(m, path, host);
      case CreateCall(path, host) => CreateExactIff(m, path, host);
      case UnlinkCall(path, granted) => UnlinkEffect(m, path, granted);
      case RmdirCall(path, granted) => RmdirEffect(m, path, granted);
    }
  }

  // --------------------------------------------------------------------------- all runs

  ghost predicate ExactGoodAt(g: Manager, op: Op, mountpoint: string) {
    match op
    case LinkDirectoryOp(r) => r.destination == mountpoint ==> DirLinkExact(g, r)
    case LinkFileOp(r) => DirectoryOf(r.destination) == mountpoint ==> FileLinkExact(g, r)
    case HandleOp(i, call) => i < |g.active| && g.active[i].mountpoint == mountpoint ==> ExactGuarded(g.active[i], call)
    case _ => true
  }

  /** The exact condition on every operation of the manager, for every mountpoint. */
  lemma StepExactIff(g: Manager, op: Op, mountpoint: string)
    requires ExactAt(g, mountpoint) && OpListed(op) && DeletionRuns.OpRooted(op)
    ensures ExactAt(Step(g, op), mountpoint) <==> ExactGoodAt(g, op, mountpoint)
  {
    match op
    case LinkDirectoryOp(r) => LinkDirectoryExactIff(g, r, mountpoint);
    case LinkFileOp(r) => LinkFileExactIff(g, r, mountpoint);
    case SetUpperDirOp(_) =>
    case ClearOp =>
    case MountOp(upperOpens, mountable) =>
      forall m | m in g.pending && m.mountpoint == mountpoint ensures ExactOk(Prepared(m, g.upperDir)) {
        assert ExactOk(m);
      }
    case HandleOp(i, call) =>
      if i < |g.active| {
        UpdateIff(g.active, i, Handle(g.active[i], call).0, mountpoint, ExactOk);
        if g.active[i].mountpoint == mountpoint {
          HandleExactIff(g.active[i], call);
        }
      }
  }

  ghost function ExactGuard(mountpoint: string): (Manager, Op) -> bool {
    (g, op) => ExactGoodAt(g, op, mountpoint)
  }

  ghost function ExactThere(mountpoint: string): Manager -> bool {
    g => ExactAt(g, mountpoint)
  }

  ghost predicate ExactRunAt(g: Manager, ops: seq<Op>, mountpoint: string) {
    (forall op | op in ops :: OpListed(op) && DeletionRuns.OpRooted(op)) && Follows(g, ops, ExactGuard(mountpoint))
  }

  /** A run keeps all lookups at a mountpoint exact all the way exactly when every step of it
      does. */
  lemma RunExactIff(g: Manager, ops: seq<Op>, mountpoint: string)
    requires ExactAt(g, mountpoint) && forall op | op in ops :: OpListed(op) && DeletionRuns.OpRooted(op)
    ensures ExactRunAt(g, ops, mountpoint) <==> forall k | 0 <= k <= |ops| :: ExactAt(Run(g, ops[..k]), mountpoint)
    ensures ExactRunAt(g, ops, mountpoint) ==> ExactAt(Run(g, ops), mountpoint)
  {
    forall h, op | op in ops && ExactThere(mountpoint)(h)
      ensures ExactThere(mountpoint)(Step(h, op)) <==> ExactGuard(mountpoint)(h, op)
    {
      StepExactIff(h, op, mountpoint);
    }
    RunIff(g, ops, ExactThere(mountpoint), ExactGuard(mountpoint));
  }

  /** Over every such run the lookup of the real parent of what find resolves in an active mount
      without an upper directory yields the descriptor of that very directory. */
  lemma ExactLookupsOverRuns(upperDir: string, ops: seq<Op>, i: nat, path: string)
    requires i < |Run(Manager([], [], upperDir), ops).active| && Position(path) != []
    requires ExactRunAt(Manager([], [], upperDir), ops, Run(Manager([], [], upperDir), ops).active[i].mountpoint)
    requires Run(Manager([], [], upperDir), ops).active[i].upperDir == ""
    ensures var m := Run(Manager([], [], upperDir), ops).active[i];
            match FindNode(m.tree, Position(path), false)
            case Ok(item) => FdAt(m.fds, ParentPath(item.realPath)) == Open(ParentPath(item.realPath))
            case Err(_) => true
  {
    var m := Run(Manager([], [], upperDir), ops).active[i];
    RunExactIff(Manager([], [], upperDir), ops, m.mountpoint);
    assert ExactOk(m);
    if FindNode(m.tree, Position(path), false).Ok? {
      ExactLookup(m, path);
    }
  }
}
