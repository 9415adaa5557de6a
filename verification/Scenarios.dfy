/** Runs from the empty manager that end where a property fails: each is a few links, a mount
    and some calls, with every open granted. */
module Scenarios {
  import opened Paths
  import opened Nodes
  import opened FlatMap
  import opened Mounts
  import opened Coverage
  import opened Listing
  import opened Linking
  import opened HandlerEffects
  import Deletion
  import Merging
  import HandlerDeletion
  import LinkRuns
  import OwnDirectories
  import ExactDirectories
  import UpperDirectories

  function Start(): Manager {
    Manager([], [], "")
  }

  // --------------------------------------------------------------------------- texts

  lemma OneLevel()
    ensures Rooted("/a") && Position("/a") == ["a"] && Rooted("/x") && Position("/x") == ["x"]
  {
    Level("a");
    Level("x");
    assert ToLower("a") == "a" && ToLower("x") == "x";
  }

  lemma Level(name: string)
    requires SegmentOk(name)
    ensures Rooted("/" + name) && Position("/" + name) == [ToLower(name)] && ParentPath("/" + name) == ""
  {
    SplitOne(name);
    assert ("/" + name)[1..] == name;
    assert FoldAll([name]) == [ToLower(name)];
    assert "" + "/" + name == "/" + name;
    ParentOfJoin("", name);
  }

  lemma TwoLevels(outer: string, inner: string)
    requires SegmentOk(outer) && SegmentOk(inner)
    ensures var path := "/" + outer + "/" + inner;
            && Rooted(path) && path != "/" && Position(path) == [ToLower(outer), ToLower(inner)]
            && ParentPath(path) == "/" + outer && FileName(path) == inner
  {
    var path := "/" + outer + "/" + inner;
    assert Absolute([outer, inner]) == path by { AbsoluteOfTwo(outer, inner); }
    SegmentsOfAbsolute([outer, inner]);
    assert ParentPath(path) == "/" + outer && FileName(path) == inner by { ParentOfJoin("/" + outer, inner); }
    FoldTwo(outer, inner);
  }

  lemma FoldTwo(outer: string, inner: string)
    ensures FoldAll([outer, inner]) == [ToLower(outer), ToLower(inner)]
  {}

  lemma AbsoluteOfTwo(outer: string, inner: string)
    ensures Absolute([outer, inner]) == "/" + outer + "/" + inner
  {
    assert [outer, inner][1..] == [inner] && [inner][1..] == [];
    assert Absolute([inner]) == "/" + inner;
  }

  lemma ScenarioTexts()
    ensures Position("/a/b") == ["a", "b"] && Rooted("/a/b") && ParentPath("/a/b") == "/a"
    ensures Position("/x/y") == ["x", "y"] && Rooted("/x/y") && ParentPath("/x/y") == "/x"
  {
    TwoLevels("a", "b");
    TwoLevels("x", "y");
    assert "/" + "a" + "/" + "b" == "/a/b" && "/" + "x" + "/" + "y" == "/x/y";
    assert ToLower("a") == "a" && ToLower("b") == "b" && ToLower("x") == "x" && ToLower("y") == "y";
  }

  // ------------------------------------------------------------------------- listings

  /** One top entry and what the scan of it describes. */
  function Single(name: string, isDir: bool): seq<DirEntry> {
    [DirEntry([], name, isDir)]
  }

  lemma SingleScan(directory: string, name: string, isDir: bool)
    requires SegmentOk(name) && directory != ""
    ensures var listing, p, path := Single(name, isDir), [ToLower(name)], EntryPath(directory, [name]);
            && Listable(listing) && ScanOpens(directory, listing, {})
            && path == (if EndsWithSlash(directory) then directory + name else directory + "/" + name)
            && Described(directory, listing) ==
               map[[] := EntryOf(Root(directory)), p := Entry(name, path, if isDir then Dir else File, false)]
            && TreeKeys(directory, listing) == {ToLower(directory)} + if isDir then {ToLower(path)} else {}
  {
    var e := DirEntry([], name, isDir);
    assert e.Relative() == [name] && e.Position() == [ToLower(name)] && Join([name]) == name;
    assert Front([e]) == [];
    ListedKeysLast(directory, [e]);
    assert ListedKeys(directory, []) == {};
  }

  lemma EmptyScan(directory: string)
    requires directory != ""
    ensures Listable([]) && ScanOpens(directory, [], {})
    ensures Described(directory, []) == map[[] := EntryOf(Root(directory))]
  {}

  /** A top directory with one entry in it. */
  function Nested(outer: string, inner: string, isDir: bool): seq<DirEntry> {
    [DirEntry([], outer, true), DirEntry([outer], inner, isDir)]
  }

  lemma NestedScan(directory: string, outer: string, inner: string, isDir: bool)
    requires SegmentOk(outer) && SegmentOk(inner) && directory != "" && !EndsWithSlash(directory)
    ensures var listing, p, q := Nested(outer, inner, isDir), [ToLower(outer)], [ToLower(outer), ToLower(inner)];
            var path := directory + "/" + outer + "/" + inner;
            && Listable(listing) && ScanOpens(directory, listing, {})
            && Described(directory, listing) ==
               map[[] := EntryOf(Root(directory)), p := Entry(outer, directory + "/" + outer, Dir, false),
                   q := Entry(inner, path, if isDir then Dir else File, false)]
            && TreeKeys(directory, listing) ==
               {ToLower(directory), ToLower(directory + "/" + outer)} + if isDir then {ToLower(path)} else {}
  {
    var e, d := DirEntry([outer], inner, isDir), DirEntry([], outer, true);
    SingleScan(directory, outer, true);
    assert e.Relative() == [outer, inner] && d.Relative() == [outer];
    assert e.Position() == [ToLower(outer), ToLower(inner)];
    assert Front([d, e]) == [d];
    assert [outer, inner][1..] == [inner] && Join([inner]) == inner;
    assert EntryPath(directory, [outer, inner]) == directory + "/" + (outer + "/" + inner);
    assert directory + "/" + (outer + "/" + inner) == directory + "/" + outer + "/" + inner;
    assert HasParent([d, e], 1);
    ListedKeysLast(directory, [d, e]);
  }

  // ---------------------------------------------------------------------------- mounts

  /** One directory linked onto another, and mounted. */
  function LinkAndMount(r: DirLink): seq<Op> {
    [LinkDirectoryOp(r), MountOp(true, 1)]
  }

  ghost predicate Opens(r: DirLink) {
    && Listable(r.listing) && ScanOpens(r.source, r.listing, r.unopenable)
    && Listable(r.destinationListing) && ScanOpens(r.destination, r.destinationListing, r.unopenable)
  }

  ghost predicate Plain(r: DirLink) {
    Opens(r) && !EndsWithSlash(r.source) && !EndsWithSlash(r.destination)
  }

  lemma FirstLink(r: DirLink, upperDir: string)
    requires Opens(r)
    ensures var g := LinkDirectory(Manager([], [], upperDir), r).0;
            && |g.pending| == 1 && g.active == [] && g.upperDir == upperDir
            && g.pending[0].mountpoint == r.destination && g.pending[0].upperDir == ""
            && Flat(g.pending[0].tree) ==
               Merging.FlatMerge(Described(r.destination, r.destinationListing), Described(r.source, r.listing))
            && g.pending[0].fds.Keys ==
               TreeKeys(r.source, r.listing) + TreeKeys(r.destination, r.destinationListing)
  {
    CreatedTree(r.source, map[], r.listing, r.unopenable);
    var s := SourceScan(r).value;
    CreatedTree(r.destination, s.fds, r.destinationListing, r.unopenable);
    var d := CreateFileTree(r.destination, s.fds, r.destinationListing, r.unopenable).value;
    Merging.MergeRefines(d.tree, s.tree);
  }

  lemma NextLink(g: Manager, r: DirLink)
    requires |g.pending| == 1 && g.pending[0].mountpoint == r.destination && Opens(r)
    ensures var g', reply := LinkDirectory(g, r).0, LinkDirectory(g, r).1;
            && reply == Linked && |g'.pending| == 1 && g'.active == g.active && g'.upperDir == g.upperDir
            && g'.pending[0].upperDir == g.pending[0].upperDir
            && Flat(g'.pending[0].tree) == Merging.FlatMerge(Flat(g.pending[0].tree), Described(r.source, r.listing))
            && g'.pending[0].fds == g.pending[0].fds + ExactDirectories.TreeFds(r.source, r.listing)
  {
    CreatedTree(r.source, map[], r.listing, r.unopenable);
    ExactDirectories.CreatedTable(r.source, map[], r.listing, r.unopenable);
    ExactDirectories.EmptyTables(ExactDirectories.TreeFds(r.source, r.listing));
    Merging.MergeRefines(g.pending[0].tree, SourceScan(r).value.tree);
  }

  lemma MountOne(g: Manager)
    requires |g.pending| == 1 && g.active == []
    ensures MountPending(g, true, 1).0 == g.(pending := [], active := [Prepared(g.pending[0], g.upperDir)])
  {
    assert PrepareAll(g.pending[..1], g.upperDir) == [Prepared(g.pending[0], g.upperDir)];
    assert g.active + [Prepared(g.pending[0], g.upperDir)] == [Prepared(g.pending[0], g.upperDir)];
  }

  lemma RunOne(g: Manager, op: Op, ops: seq<Op>)
    ensures Run(g, [op] + ops) == Run(Step(g, op), ops)
  {
    assert ([op] + ops)[1..] == ops;
  }

  /** Onto an empty destination a live tree is merged as it is. */
  lemma MergeOntoEmpty(f: Entries, g: Entries)
    requires f.Keys == {[]} && [] in g && forall p | p in g :: !g[p].deleted
    ensures Merging.FlatMerge(f, g).Keys == g.Keys
    ensures forall p | p in g && p != [] :: Merging.FlatMerge(f, g)[p] == g[p]
  {}

  /** What only the left tree has stays. */
  lemma MergeKeepsLeft(f: Entries, g: Entries, p: Path)
    requires p in f && p !in g
    ensures p in Merging.FlatMerge(f, g) && Merging.FlatMerge(f, g)[p] == f[p]
  {}

  lemma LinkThen(g: Manager, r: DirLink, ops: seq<Op>)
    ensures Run(g, [LinkDirectoryOp(r)] + ops) == Run(LinkDirectory(g, r).0, ops)
  {
    RunOne(g, LinkDirectoryOp(r), ops);
  }

  lemma MountLast(g: Manager)
    ensures Run(g, [MountOp(true, 1)]) == MountPending(g, true, 1).0
  {
    RunOne(g, MountOp(true, 1), []);
  }

  lemma LinkedAndMounted(r: DirLink)
    requires Opens(r)
    ensures var g := Run(Start(), LinkAndMount(r));
            && |g.active| == 1
            && var m := g.active[0];
               && m.upperDir == ""
               && Flat(m.tree) ==
                  Merging.FlatMerge(Described(r.destination, r.destinationListing), Described(r.source, r.listing))
               && m.fds.Keys == TreeKeys(r.source, r.listing) + TreeKeys(r.destination, r.destinationListing)
  {
    FirstLink(r, "");
    var g := LinkDirectory(Start(), r).0;
    MountOne(g);
    LinkThen(Start(), r, [MountOp(true, 1)]);
    MountLast(g);
  }

  // ---------------------------------------------------------- a file over a directory

  function FileOverDirectory(): seq<Op> {
    LinkAndMount(DirLink("/m", "/d", Single("x", false), Single("x", true), {}))
  }

  /** A mod has a file "x" where the destination has a directory "x".  The mount is sound, and
      "/x" resolves as a live directory, but with the real path of the file: nothing can be
      made below it, whatever the host grants. */
  lemma FileOverDirectoryBlocksMaking(host: Host)
    ensures var g := Run(Start(), FileOverDirectory());
            && |g.active| == 1
            && var m := g.active[0];
               && Sound(m) && !OwnDirectories.OwnOk(m)
               && FindNode(m.tree, Position("/x"), false).Ok?
               && FindNode(m.tree, Position("/x"), false).value.kind == Dir
               && Mkdir(m, "/x/y", host).1.Failure? && Create(m, "/x/y", host).1.Failure?
  {
    var r := DirLink("/m", "/d", Single("x", false), Single("x", true), {});
    BlockedMount();
    var g := Run(Start(), FileOverDirectory());
    RunsFromStart("", FileOverDirectory());
    assert SoundAt(g, g.active[0].mountpoint);
    var m := g.active[0];
    OneLevel();
    ScenarioTexts();
    assert ["x"] in Flat(m.tree);
    OwnDirectories.NothingMadeBelow(m, "/x/y", host);
  }

  lemma BlockedTexts()
    ensures ToLower("x") == "x" && "/m" + "/" + "x" == "/m/x" && "/d" + "/" + "x" == "/d/x"
    ensures ToLower("/m/x") !in {ToLower("/m"), ToLower("/d"), ToLower("/d/x")}
  {
    assert |ToLower("/m/x")| == 4 && ToLower("/m/x")[1] == 'm' && ToLower("/d/x")[1] == 'd';
  }

  lemma BlockedListings()
    ensures var r := DirLink("/m", "/d", Single("x", false), Single("x", true), {});
            && Plain(r)
            && Described("/m", r.listing) == map[[] := EntryOf(Root("/m")), ["x"] := Entry("x", "/m/x", File, false)]
            && Described("/d", r.destinationListing) ==
               map[[] := EntryOf(Root("/d")), ["x"] := Entry("x", "/d/x", Dir, false)]
            && ToLower("/m/x") !in TreeKeys("/m", r.listing) + TreeKeys("/d", r.destinationListing)
  {
    SingleScan("/m", "x", false);
    SingleScan("/d", "x", true);
    BlockedTexts();
  }

  lemma BlockedMount()
    ensures forall op | op in FileOverDirectory() :: OpGood(op)
    ensures var g := Run(Start(), FileOverDirectory());
            && |g.active| == 1
            && var m := g.active[0]; var f := Flat(m.tree);
               && ["x"] in f && f[["x"]] == Entry("x", "/m/x", Dir, false) && m.upperDir == ""
               && ["x", "y"] !in f && FdAt(m.fds, "/m/x").Invalid?
  {
    BlockedListings();
    LinkedAndMounted(DirLink("/m", "/d", Single("x", false), Single("x", true), {}));
  }

  // --------------------------------------------------------- a directory over another

  /** Two mods over an empty destination: "/m1" has "a/b", and "/m2" an empty "a". */
  function FirstMod(): DirLink {
    DirLink("/m1", "/d", Nested("a", "b", false), [], {})
  }

  function SecondMod(): DirLink {
    DirLink("/m2", "/d", Single("a", true), [], {})
  }

  function Mods(upperDir: string): seq<Op> {
    [SetUpperDirOp(upperDir), LinkDirectoryOp(FirstMod()), LinkDirectoryOp(SecondMod()), MountOp(true, 1)]
  }

  lemma ModTexts()
    ensures ToLower("a") == "a" && ToLower("b") == "b" && ToLower("/m1") == "/m1"
    ensures "/m1" + "/" + "a" == "/m1/a" && "/m1" + "/" + "a" + "/" + "b" == "/m1/a/b" && "/m2" + "/" + "a" == "/m2/a"
  {}

  lemma ModListings()
    ensures Plain(FirstMod()) && Plain(SecondMod())
    ensures Described("/d", []) == map[[] := EntryOf(Root("/d"))]
    ensures Described("/m1", Nested("a", "b", false)) ==
            map[[] := EntryOf(Root("/m1")), ["a"] := Entry("a", "/m1/a", Dir, false),
                ["a", "b"] := Entry("b", "/m1/a/b", File, false)]
    ensures Described("/m2", Single("a", true)) ==
            map[[] := EntryOf(Root("/m2")), ["a"] := Entry("a", "/m2/a", Dir, false)]
  {
    ModTexts();
    EmptyScan("/d");
    NestedScan("/m1", "a", "b", false);
    SingleScan("/m2", "a", true);
  }

  /** The directory that "/a" stands for is the empty one; what is in "/a" lies elsewhere. */
  ghost predicate ModsIn(f: Entries, deleted: bool) {
    && f.Keys == {[], ["a"], ["a", "b"]}
    && f[["a"]] == Entry("a", "/m2/a", Dir, deleted) && f[["a", "b"]] == Entry("b", "/m1/a/b", File, deleted)
  }

  lemma ModsMerged()
    ensures ModsIn(Merging.FlatMerge(Merging.FlatMerge(Described("/d", []), Described("/m1", Nested("a", "b", false))),
                                     Described("/m2", Single("a", true))), false)
  {
    ModListings();
    FirstMerged();
    var f := Merging.FlatMerge(Described("/d", []), Described("/m1", Nested("a", "b", false)));
    assert Front(["a"]) == [] && Front(["a", "b"]) == ["a"];
  }

  lemma FirstMerged()
    ensures var f := Merging.FlatMerge(Described("/d", []), Described("/m1", Nested("a", "b", false)));
            && f.Keys == {[], ["a"], ["a", "b"]}
            && f[["a"]] == Entry("a", "/m1/a", Dir, false) && f[["a", "b"]] == Entry("b", "/m1/a/b", File, false)
  {
    ModListings();
    MergeOntoEmpty(Described("/d", []), Described("/m1", Nested("a", "b", false)));
  }

  lemma ModsPending(upperDir: string)
    ensures var g2 := LinkDirectory(LinkDirectory(Manager([], [], upperDir), FirstMod()).0, SecondMod()).0;
            && |g2.pending| == 1 && g2.active == [] && g2.upperDir == upperDir
            && g2.pending[0].upperDir == "" && ModsIn(Flat(g2.pending[0].tree), false)
  {
    ModListings();
    FirstLink(FirstMod(), upperDir);
    NextLink(LinkDirectory(Manager([], [], upperDir), FirstMod()).0, SecondMod());
    ModsMerged();
  }

  lemma ModsMounted(upperDir: string)
    ensures var g := Run(Start(), Mods(upperDir));
            && |g.active| == 1 && Sound(g.active[0]) && g.active[0].upperDir == upperDir
            && (upperDir != "" ==> FdAt(g.active[0].fds, upperDir).Open?)
            && ModsIn(Flat(g.active[0].tree), false)
  {
    ModsPending(upperDir);
    MountOne(LinkDirectory(LinkDirectory(Manager([], [], upperDir), FirstMod()).0, SecondMod()).0);
    ModsRun(upperDir);
    var g := Run(Start(), Mods(upperDir));
    assert SoundAt(g, g.active[0].mountpoint) by { RunsFromStart("", Mods(upperDir)); }
  }

  lemma ModsRun(upperDir: string)
    ensures var g2 := LinkDirectory(LinkDirectory(Manager([], [], upperDir), FirstMod()).0, SecondMod()).0;
            Run(Start(), Mods(upperDir)) == MountPending(g2, true, 1).0
    ensures forall op | op in Mods(upperDir) :: OpGood(op)
  {
    var g0 := Manager([], [], upperDir);
    var g1 := LinkDirectory(g0, FirstMod()).0;
    var g2 := LinkDirectory(g1, SecondMod()).0;
    ModListings();
    RunOne(Start(), SetUpperDirOp(upperDir), Mods(upperDir)[1..]);
    LinkThen(g0, FirstMod(), Mods(upperDir)[2..]);
    LinkThen(g1, SecondMod(), Mods(upperDir)[3..]);
    MountLast(g2);
  }

  lemma ModsAreClosed(f: Entries, deleted: bool)
    requires ModsIn(f, deleted)
    ensures Deletion.Closed(f)
  {}

  lemma ParentsOnFile(m: Mount)
    requires Sound(m) && ModsIn(Flat(m.tree), false)
    ensures FdAt(m.fds, ParentPath("/m2/a")).Open? && FdAt(m.fds, ParentPath("/m1/a/b")).Open?
  {
    OneLevel();
    ScenarioTexts();
    assert ["a"] in Flat(m.tree) && ["a", "b"] in Flat(m.tree);
    LookupNeverMisses(m, "/a");
    LookupNeverMisses(m, "/a/b");
  }

  /** In the same mount "/a/b" lies in "/m1/a" while its parent item stands for "/m2/a", which is
      where readlink looks for it. */
  lemma ReadlinkLooksElsewhere()
    ensures var g := Run(Start(), Mods(""));
            && |g.active| == 1
            && var m := g.active[0];
               && FindNode(m.tree, Position("/a/b"), false).Ok? && FindNode(m.tree, Position("/a"), false).Ok?
               && ParentPath(FindNode(m.tree, Position("/a/b"), false).value.realPath) == "/m1/a"
               && FindNode(m.tree, Position("/a"), false).value.realPath == "/m2/a"
               && !OwnDirectories.Aligned(Flat(m.tree))
  {
    ModsMounted("");
    OneLevel();
    ScenarioTexts();
    ModParents();
    var f := Flat(Run(Start(), Mods("")).active[0].tree);
    assert ["a", "b"] in f && ["a"] in f && Front(["a", "b"]) == ["a"];
  }

  lemma ModParents()
    ensures ParentPath("/m1/a/b") == "/m1/a" && "/m1/a" != "/m2/a"
  {
    assert "/m1/a" + "/" + "b" == "/m1/a/b";
    ParentOfJoin("/m1/a", "b");
    assert "/m1/a"[2] == '1' && "/m2/a"[2] == '2';
  }

  /** rmdir of "/a" is accepted although "b" is live in it, for the directory on disk that it
      removes is empty; afterwards "/a" is gone while "/a/b" still resolves. */
  lemma RmdirStrandsLiveChild()
    ensures var g := Run(Start(), Mods(""));
            && |g.active| == 1
            && var m := g.active[0]; var (after, reply) := Rmdir(m, "/a", true);
               && Sound(m) && HandlerDeletion.ClosedTree(m) && reply == Success
               && FindNode(after.tree, Position("/a"), false).Err?
               && FindNode(after.tree, Position("/a/b"), false).Ok?
  {
    ModsMounted("");
    var m := Run(Start(), Mods("")).active[0];
    ModsAreClosed(Flat(m.tree), false);
    OneLevel();
    ScenarioTexts();
    ParentsOnFile(m);
    RmdirEffect(m, "/a", true);
    var f' := Flat(Rmdir(m, "/a", true).0.tree);
    assert ["a"] in f' && f'[["a"]].deleted && ["a", "b"] in f' && !f'[["a", "b"]].deleted;
  }

  // ------------------------------------------------------- reviving below what is deleted

  function Removals(): seq<Op> {
    [HandleOp(0, UnlinkCall("/a/b", true)), HandleOp(0, RmdirCall("/a", true))]
  }

  lemma {:induction false} RunConcat(g: Manager, ops: seq<Op>, more: seq<Op>)
    ensures Run(g, ops + more) == Run(Run(g, ops), more)
    decreases |ops|
  {
    if ops == [] {
      assert ops + more == more;
    } else {
      assert (ops + more)[1..] == ops[1..] + more;
      RunConcat(Step(g, ops[0]), ops[1..], more);
    }
  }

  lemma UnlinkDeletes(m: Mount)
    requires Sound(m) && ModsIn(Flat(m.tree), false)
    ensures var m' := Handle(m, UnlinkCall("/a/b", true)).0; var f' := Flat(m'.tree);
            && Sound(m') && m'.upperDir == m.upperDir && m'.fds == m.fds
            && f'.Keys == {[], ["a"], ["a", "b"]}
            && f'[["a"]] == Entry("a", "/m2/a", Dir, false) && f'[["a", "b"]] == Entry("b", "/m1/a/b", File, true)
  {
    var m' := Handle(m, UnlinkCall("/a/b", true)).0;
    assert Sound(m') by { HandleKeepsSound(m, UnlinkCall("/a/b", true)); }
    UnlinkFlags(m);
    FlaggedBelow(Flat(m.tree), Flat(m'.tree));
  }

  lemma UnlinkFlags(m: Mount)
    requires Sound(m) && ModsIn(Flat(m.tree), false)
    ensures var f, m' := Flat(m.tree), Unlink(m, "/a/b", true).0;
            && m'.fds == m.fds
            && Flat(m'.tree) == map q | q in f :: if ["a", "b"] <= q then f[q].(deleted := true) else f[q]
  {
    ScenarioTexts();
    ParentsOnFile(m);
    UnlinkEffect(m, "/a/b", true);
  }

  lemma FlaggedBelow(f: Entries, f': Entries)
    requires ModsIn(f, false)
    requires f' == map q | q in f :: if ["a", "b"] <= q then f[q].(deleted := true) else f[q]
    ensures f'.Keys == {[], ["a"], ["a", "b"]}
    ensures f'[["a"]] == Entry("a", "/m2/a", Dir, false) && f'[["a", "b"]] == Entry("b", "/m1/a/b", File, true)
  {
    assert !(["a", "b"] <= ["a"]) && !(["a", "b"] <= []);
    assert f'.Keys == f.Keys;
  }

  lemma RmdirDeletes(m: Mount)
    requires Sound(m) && FdAt(m.fds, ParentPath("/m2/a")).Open?
    requires var f := Flat(m.tree);
             && f.Keys == {[], ["a"], ["a", "b"]}
             && f[["a"]] == Entry("a", "/m2/a", Dir, false) && f[["a", "b"]] == Entry("b", "/m1/a/b", File, true)
    ensures var m' := Handle(m, RmdirCall("/a", true)).0;
            Sound(m') && m'.upperDir == m.upperDir && m'.fds == m.fds && ModsIn(Flat(m'.tree), true)
  {
    OneLevel();
    RmdirEffect(m, "/a", true);
    HandleKeepsSound(m, RmdirCall("/a", true));
  }

  lemma ModsRemoved(upperDir: string)
    ensures var g := Run(Start(), Mods(upperDir) + Removals());
            && |g.active| == 1 && Sound(g.active[0]) && g.active[0].upperDir == upperDir
            && (upperDir != "" ==> FdAt(g.active[0].fds, upperDir).Open?)
            && ModsIn(Flat(g.active[0].tree), true)
  {
    ModsMounted(upperDir);
    var g := Run(Start(), Mods(upperDir));
    RunConcat(Start(), Mods(upperDir), Removals());
    RemovalsDelete(g);
  }

  /** unlink of "/a/b" and rmdir of "/a" delete both. */
  lemma RemovalsDelete(g: Manager)
    requires |g.active| == 1 && Sound(g.active[0]) && ModsIn(Flat(g.active[0].tree), false)
    ensures var g' := Run(g, Removals());
            && |g'.active| == 1 && Sound(g'.active[0]) && g'.active[0].upperDir == g.active[0].upperDir
            && g'.active[0].fds == g.active[0].fds && ModsIn(Flat(g'.active[0].tree), true)
  {
    var m1 := Handle(g.active[0], UnlinkCall("/a/b", true)).0;
    UnlinkDeletes(g.active[0]);
    ParentsOnFile(g.active[0]);
    RmdirDeletes(m1);
    OneCall(g, UnlinkCall("/a/b", true), [HandleOp(0, RmdirCall("/a", true))], m1);
    OneCall(g.(active := [m1]), RmdirCall("/a", true), [], Handle(m1, RmdirCall("/a", true)).0);
  }

  lemma OneCall(g: Manager, call: Call, ops: seq<Op>, m: Mount)
    requires |g.active| == 1 && m == Handle(g.active[0], call).0
    ensures Run(g, [HandleOp(0, call)] + ops) == Run(g.(active := [m]), ops)
  {
    RunOne(g, HandleOp(0, call), ops);
    assert g.active[0 := m] == [m];
    assert Step(g, HandleOp(0, call)) == g.(active := g.active[0 := m]);
  }

  /** "/a" is gone and "/a/b" is there. */
  ghost predicate Stranded(n: Node) {
    FindNode(n, Position("/a"), false).Err? && FindNode(n, Position("/a/b"), false).Ok?
  }

  lemma RevivedIsStranded(n: Node, f: Entries, e: Entry)
    requires ModsIn(f, true) && Flat(n) == f[["a", "b"] := e] && !e.deleted
    ensures Stranded(n)
  {
    OneLevel();
    ScenarioTexts();
    assert ["a"] in Flat(n) && Flat(n)[["a"]] == f[["a"]] && ["a", "b"] in Flat(n);
  }

  /** mkdir of the deleted "/a/b" revives it inside the deleted "/a". */
  lemma MkdirRevivesUnderDeleted(host: Host)
    ensures var g := Run(Start(), Mods("") + Removals());
            && |g.active| == 1
            && var m := g.active[0]; var (after, reply) := Mkdir(m, "/a/b", host);
               Sound(m) && HandlerDeletion.ClosedTree(m) && reply == Success && Stranded(after.tree)
  {
    ModsRemoved("");
    var m := Run(Start(), Mods("") + Removals()).active[0];
    ModsAreClosed(Flat(m.tree), true);
    ScenarioTexts();
    MkdirByParent(m, "/a/b", host);
    RevivedIsStranded(Mkdir(m, "/a/b", host).0.tree, Flat(m.tree), Flat(Mkdir(m, "/a/b", host).0.tree)[["a", "b"]]);
  }

  lemma UpperIsReachable(m: Mount, host: Host)
    requires m.upperDir == "/u" && FdAt(m.fds, "/u").Open? && host.parentMakes && host.parentOpens
    ensures Reachable(m, m.upperDir + "/a", host)
  {
    assert m.upperDir + "/a" == "/u" + "/" + "a";
    ParentOfJoin("/u", "a");
  }

  /** With an upper directory, create revives "/a/b" inside the deleted "/a". */
  lemma CreateRevivesUnderDeleted()
    ensures var g, host := Run(Start(), Mods("/u") + Removals()), Host(true, true, true, true);
            && |g.active| == 1
            && var m := g.active[0]; var (after, reply) := Create(m, "/a/b", host);
               Sound(m) && HandlerDeletion.ClosedTree(m) && reply == Success && Stranded(after.tree)
  {
    ModsRemoved("/u");
    var m, host := Run(Start(), Mods("/u") + Removals()).active[0], Host(true, true, true, true);
    ModsAreClosed(Flat(m.tree), true);
    ScenarioTexts();
    UpperIsReachable(m, host);
    CreateStrands(m, host);
  }

  lemma CreateStrands(m: Mount, host: Host)
    requires ModsIn(Flat(m.tree), true) && m.upperDir == "/u" && Reachable(m, "/u" + "/a", host) && host.opens
    ensures Create(m, "/a/b", host).1 == Success && Stranded(Create(m, "/a/b", host).0.tree)
  {
    ScenarioTexts();
    var f, p, path := Flat(m.tree), ["a", "b"], "/u" + "/a" + "/" + FileName("/a/b");
    CreateByParent(m, "/a/b", host);
    RevivedIsStranded(Create(m, "/a/b", host).0.tree, f, Added(f, p, FileName("/a/b"), path, File));
  }

  // ------------------------------------------------------------- two ways to link a file

  /** A file linked onto one that the destination has. */
  function LinkOverFile(): FileLink {
    FileLink("/m/f", "/d/f", Single("f", false), {}, false)
  }

  /** An empty mod linked to the same destination. */
  function EmptyMod(): DirLink {
    DirLink("/e", "/d", [], Single("f", false), {})
  }

  lemma FileTexts()
    ensures ToLower("f") == "f" && "/d" + "/" + "f" == "/d/f" && "/m" + "/" + "f" == "/m/f"
    ensures ParentPath("/d/f") == "/d" && FileName("/d/f") == "f" && ParentPath("/m/f") == "/m"
    ensures DirectoryOf("/d/f") == "/d"
  {
    ParentOfJoin("/d", "f");
    ParentOfJoin("/m", "f");
    assert "/d" + "/" + "f" == "/d/f" && "/m" + "/" + "f" == "/m/f";
    assert Last("/d") == 'd';
  }

  lemma FileListings()
    ensures Plain(EmptyMod())
    ensures Described("/e", []) == map[[] := EntryOf(Root("/e"))]
    ensures Described("/d", Single("f", false)) ==
            map[[] := EntryOf(Root("/d")), ["f"] := Entry("f", "/d/f", File, false)]
  {
    FileTexts();
    EmptyScan("/e");
    SingleScan("/d", "f", false);
  }

  /** The same file link replaces the file of the destination if it comes first, and is
      refused if a mod, even an empty one, was linked there before. */
  lemma FileLinkDependsOnPending()
    ensures var (g, reply) := LinkFile(Start(), LinkOverFile());
            && reply == Linked && |g.pending| == 1
            && var f := Flat(g.pending[0].tree); ["f"] in f && f[["f"]].realPath == "/m/f"
    ensures var (g, reply) := LinkFile(LinkDirectory(Start(), EmptyMod()).0, LinkOverFile());
            && reply == NotLinked && |g.pending| == 1
            && var f := Flat(g.pending[0].tree); ["f"] in f && f[["f"]].realPath == "/d/f"
  {
    FreshFileReplaces();
    PendingFileStays();
  }

  lemma FreshFileOpens()
    ensures FileOpens(LinkOverFile()) && FileMount(LinkOverFile()).0.Some?
  {
    FileTexts();
    FileListings();
    FileMountEntries(LinkOverFile());
  }

  lemma FreshFileReplaces()
    ensures var (g, reply) := LinkFile(Start(), LinkOverFile());
            && reply == Linked && |g.pending| == 1
            && var f := Flat(g.pending[0].tree); ["f"] in f && f[["f"]].realPath == "/m/f"
  {
    FreshFileOpens();
    FileTexts();
    FileNamePosition("f");
    LinkRuns.FileMountAlwaysReplaces(LinkOverFile());
  }

  lemma PendingFileStays()
    ensures var (g, reply) := LinkFile(LinkDirectory(Start(), EmptyMod()).0, LinkOverFile());
            && reply == NotLinked && |g.pending| == 1
            && var f := Flat(g.pending[0].tree); ["f"] in f && f[["f"]].realPath == "/d/f"
  {
    FileTexts();
    FileListings();
    FirstLink(EmptyMod(), "");
    var g := LinkDirectory(Start(), EmptyMod()).0;
    assert ["f"] in Flat(g.pending[0].tree);
    RefusedFileStays(g);
  }

  lemma RefusedFileStays(g: Manager)
    requires |g.pending| == 1 && g.pending[0].mountpoint == "/d"
    requires ["f"] in Flat(g.pending[0].tree) && !Flat(g.pending[0].tree)[["f"]].deleted
    ensures LinkFile(g, LinkOverFile()) == (g, NotLinked)
  {
    FileTexts();
    FileRefusedIff(g.pending[0], LinkOverFile());
    assert g.pending[0 := g.pending[0]] == g.pending;
  }

  // ----------------------------------------------------------------------- missed lookups

  /** A mod "/m/", given with a trailing slash, that has a file "x". */
  function SlashedMod(): DirLink {
    DirLink("/m/", "/d", Single("x", false), [], {})
  }

  lemma SlashedListings()
    ensures Opens(SlashedMod())
    ensures Described("/d", []) == map[[] := EntryOf(Root("/d"))]
    ensures Described("/m/", Single("x", false)) ==
            map[[] := EntryOf(Root("/m/")), ["x"] := Entry("x", "/m/x", File, false)]
    ensures ToLower("/m") !in TreeKeys("/m/", Single("x", false)) + TreeKeys("/d", [])
    ensures ParentPath("/m/x") == "/m"
  {
    EmptyScan("/d");
    SingleScan("/m/", "x", false);
    assert ToLower("x") == "x" && "/m/" + "x" == "/m/x" && "/m" + "/" + "x" == "/m/x";
    ParentOfJoin("/m", "x");
    assert |ToLower("/m")| == 2 && |ToLower("/m/")| == 3 && ToLower("/m")[1] == 'm' && ToLower("/d")[1] == 'd';
    assert ListedKeys("/d", []) == {};
  }

  /** "/x" resolves, but its real parent "/m" is filed as "/m/" only: unlink fails for every
      answer of the host. */
  lemma TrailingSlashMissesLookup(granted: bool)
    ensures var g := Run(Start(), LinkAndMount(SlashedMod()));
            && |g.active| == 1
            && var m := g.active[0];
               FindNode(m.tree, Position("/x"), false).Ok? && Unlink(m, "/x", granted).1 == Failure(EHOST)
  {
    OneLevel();
    SlashedListings();
    LinkedAndMounted(SlashedMod());
    var m := Run(Start(), LinkAndMount(SlashedMod())).active[0];
    MissedLookup(m, "/x", ["x"], Entry("x", "/m/x", File, false), granted);
  }

  lemma MissedLookup(m: Mount, path: string, p: Path, e: Entry, granted: bool)
    requires Position(path) == p != [] && p in Flat(m.tree) && Flat(m.tree)[p] == e && !e.deleted
    requires FdAt(m.fds, ParentPath(e.realPath)).Invalid?
    ensures FindNode(m.tree, Position(path), false).Ok? && Unlink(m, path, granted).1 == Failure(EHOST)
  {}

  /** A file of a directory that does not open, linked where something is pending. */
  function BareMod(): DirLink {
    DirLink("/e", "/d", [], [], {})
  }

  function ShutFile(): FileLink {
    FileLink("/n/g", "/d/g", [], {"/n"}, false)
  }

  function LinkShutFile(): seq<Op> {
    [LinkDirectoryOp(BareMod()), LinkFileOp(ShutFile()), MountOp(true, 1)]
  }

  lemma ShutTexts()
    ensures ToLower("g") == "g" && Rooted("/g") && Position("/g") == ["g"]
    ensures ParentPath("/d/g") == "/d" && FileName("/d/g") == "g" && ParentPath("/n/g") == "/n"
    ensures DirectoryOf("/d/g") == "/d" && ToLower("/n") !in {ToLower("/e"), ToLower("/d")}
  {
    Level("g");
    ParentOfJoin("/d", "g");
    ParentOfJoin("/n", "g");
    assert "/d" + "/" + "g" == "/d/g" && "/n" + "/" + "g" == "/n/g" && "/" + "g" == "/g";
    assert Last("/d") == 'd' && ToLower("g") == "g";
    assert ToLower("/n")[1] == 'n' && ToLower("/e")[1] == 'e' && ToLower("/d")[1] == 'd';
  }

  lemma BareListings()
    ensures Opens(BareMod())
    ensures Described("/d", []) == map[[] := EntryOf(Root("/d"))]
    ensures Described("/e", []) == map[[] := EntryOf(Root("/e"))]
    ensures TreeKeys("/e", []) + TreeKeys("/d", []) == {ToLower("/e"), ToLower("/d")}
  {
    EmptyScan("/d");
    EmptyScan("/e");
    assert ListedKeys("/d", []) == {} && ListedKeys("/e", []) == {};
  }

  /** The link is refused, and yet "/g" resolves, with a real parent that is not on file. */
  lemma UnopenedFileMissesLookup(granted: bool)
    ensures LinkFile(LinkDirectory(Start(), BareMod()).0, ShutFile()).1 == NotLinked
    ensures var g := Run(Start(), LinkShutFile());
            && |g.active| == 1
            && var m := g.active[0];
               FindNode(m.tree, Position("/g"), false).Ok? && Unlink(m, "/g", granted).1 == Failure(EHOST)
  {
    var g1 := LinkDirectory(Start(), BareMod()).0;
    ShutTexts();
    BareListings();
    FirstLink(BareMod(), "");
    ShutFileStays(g1);
    var g2 := LinkFile(g1, ShutFile()).0;
    ShutRun(g1, g2);
    MissedLookup(Run(Start(), LinkShutFile()).active[0], "/g", ["g"], Entry("g", "/n/g", File, false), granted);
  }

  lemma ShutFileStays(g: Manager)
    requires |g.pending| == 1 && g.pending[0].mountpoint == "/d" && g.pending[0].upperDir == "" && g.active == []
    requires ["g"] !in Flat(g.pending[0].tree)
    ensures var (g', reply) := LinkFile(g, ShutFile());
            && reply == NotLinked && |g'.pending| == 1 && g'.active == [] && g'.upperDir == g.upperDir
            && g'.pending[0].fds == g.pending[0].fds && g'.pending[0].upperDir == ""
            && Flat(g'.pending[0].tree) == Flat(g.pending[0].tree)[["g"] := Entry("g", "/n/g", File, false)]
  {
    var m := g.pending[0];
    ShutTexts();
    FileNamePosition("g");
    FileRefusedIff(m, ShutFile());
    var e := AddTextEntry(m.tree, "g", "/n/g", File, false);
    assert e == Entry("g", "/n/g", File, false);
  }

  lemma ShutRun(g1: Manager, g2: Manager)
    requires g1 == LinkDirectory(Start(), BareMod()).0 && g2 == LinkFile(g1, ShutFile()).0
    requires |g2.pending| == 1 && g2.active == [] && g2.upperDir == ""
    ensures Run(Start(), LinkShutFile()).active == [g2.pending[0]]
  {
    LinkThen(Start(), BareMod(), [LinkFileOp(ShutFile()), MountOp(true, 1)]);
    RunOne(g1, LinkFileOp(ShutFile()), [MountOp(true, 1)]);
    MountLast(g2);
    MountOne(g2);
  }

  // ---------------------------------------------------------------- two missing levels

  /** A mod with a directory "a/b", under an upper directory that is empty. */
  function DeepMod(): DirLink {
    DirLink("/m", "/d", Nested("a", "b", true), [], {})
  }

  function LinkDeep(): seq<Op> {
    [SetUpperDirOp("/u")] + LinkAndMount(DeepMod())
  }

  lemma DeepTexts()
    ensures ToLower("a") == "a" && ToLower("b") == "b" && ToLower("c") == "c" && Position("/a/b") == ["a", "b"]
    ensures ParentPath("/a/b/c") == "/a/b" && ParentPath("/a/b") == "/a"
    ensures "/m" + "/" + "a" == "/m/a" && "/m" + "/" + "a" + "/" + "b" == "/m/a/b"
  {
    ScenarioTexts();
    assert "/a/b" + "/" + "c" == "/a/b/c";
    ParentOfJoin("/a/b", "c");
  }

  lemma DeepPath()
    ensures Rooted("/a/b/c") && Position("/a/b/c") == ["a", "b", "c"]
  {
    var p := ["a", "b", "c"];
    assert Absolute(p) == "/a/b/c" by { AbsoluteOfThree(); }
    assert Segments("/a/b/c") == p && Rooted("/a/b/c") by { SegmentsOfAbsolute(p); }
    assert FoldAll(p) == p by {
      DeepTexts();
      assert |FoldAll(p)| == 3 && forall i | 0 <= i < 3 :: FoldAll(p)[i] == ToLower(p[i]);
    }
  }

  lemma AbsoluteOfThree()
    ensures Absolute(["a", "b", "c"]) == "/a/b/c"
  {
    AbsoluteOfTwo("a", "b");
    AbsoluteSnoc(["a", "b"], "c");
    assert ["a", "b", "c"] == ["a", "b"] + ["c"];
  }

  lemma DeepListings()
    ensures Plain(DeepMod())
    ensures Described("/d", []) == map[[] := EntryOf(Root("/d"))]
    ensures Described("/m", Nested("a", "b", true)) ==
            map[[] := EntryOf(Root("/m")), ["a"] := Entry("a", "/m/a", Dir, false),
                ["a", "b"] := Entry("b", "/m/a/b", Dir, false)]
    ensures TreeKeys("/m", Nested("a", "b", true)) == {ToLower("/m"), ToLower("/m/a"), ToLower("/m/a/b")}
    ensures TreeKeys("/d", []) == {ToLower("/d")}
  {
    DeepTexts();
    EmptyScan("/d");
    NestedScan("/m", "a", "b", true);
    assert ListedKeys("/d", []) == {};
  }

  lemma UpperKeysMissing()
    ensures var keys := {ToLower("/m"), ToLower("/m/a"), ToLower("/m/a/b"), ToLower("/d"), ToLower("/u")};
            ToLower("/u" + "/a/b") !in keys && ToLower("/u" + "/a") !in keys
  {
    assert ToLower("/u" + "/a/b")[1] == 'u' && ToLower("/u" + "/a")[1] == 'u';
    assert ToLower("/m")[1] == 'm' && ToLower("/m/a")[1] == 'm';
    assert ToLower("/m/a/b")[1] == 'm' && ToLower("/d")[1] == 'd';
    assert |ToLower("/u")| == 2 && |ToLower("/u" + "/a/b")| == 6 && |ToLower("/u" + "/a")| == 4;
  }

  lemma DeepRun()
    ensures Run(Start(), LinkDeep()) == MountPending(LinkDirectory(Manager([], [], "/u"), DeepMod()).0, true, 1).0
  {
    var g0 := Manager([], [], "/u");
    RunOne(Start(), SetUpperDirOp("/u"), LinkAndMount(DeepMod()));
    LinkThen(g0, DeepMod(), [MountOp(true, 1)]);
    MountLast(LinkDirectory(g0, DeepMod()).0);
  }

  lemma DeepMounted()
    ensures var g := Run(Start(), LinkDeep());
            && |g.active| == 1
            && var m := g.active[0]; var f := Flat(m.tree);
               && m.upperDir == "/u" && f.Keys == {[], ["a"], ["a", "b"]}
               && f[["a", "b"]] == Entry("b", "/m/a/b", Dir, false)
               && m.fds.Keys == {ToLower("/m"), ToLower("/m/a"), ToLower("/m/a/b"), ToLower("/d"), ToLower("/u")}
  {
    var g1 := LinkDirectory(Manager([], [], "/u"), DeepMod()).0;
    DeepPending();
    assert Run(Start(), LinkDeep()).active == [Prepared(g1.pending[0], "/u")] by {
      MountOne(g1);
      DeepRun();
    }
  }

  lemma DeepPending()
    ensures var g := LinkDirectory(Manager([], [], "/u"), DeepMod()).0;
            && |g.pending| == 1 && g.active == [] && g.upperDir == "/u"
            && var m := g.pending[0]; var f := Flat(m.tree);
               && f.Keys == {[], ["a"], ["a", "b"]} && f[["a", "b"]] == Entry("b", "/m/a/b", Dir, false)
               && m.fds.Keys == {ToLower("/m"), ToLower("/m/a"), ToLower("/m/a/b"), ToLower("/d")}
  {
    assert Plain(DeepMod()) by { DeepListings(); }
    FirstLink(DeepMod(), "/u");
    DeepMerged();
    DeepKeys();
  }

  lemma DeepMerged()
    ensures var f := Merging.FlatMerge(Described("/d", []), Described("/m", Nested("a", "b", true)));
            f.Keys == {[], ["a"], ["a", "b"]} && f[["a", "b"]] == Entry("b", "/m/a/b", Dir, false)
  {
    DeepListings();
    MergeOntoEmpty(Described("/d", []), Described("/m", Nested("a", "b", true)));
  }

  lemma DeepKeys()
    ensures TreeKeys("/m", Nested("a", "b", true)) + TreeKeys("/d", []) ==
            {ToLower("/m"), ToLower("/m/a"), ToLower("/m/a/b"), ToLower("/d")}
  {
    DeepListings();
  }

  /** "/a/b" resolves as a directory, but of its place below the upper directory two levels are
      missing: nothing can be made in it, whatever the host grants. */
  lemma TwoMissingLevelsBlockMaking(host: Host)
    ensures var g := Run(Start(), LinkDeep());
            && |g.active| == 1
            && var m := g.active[0];
               && FindNode(m.tree, Position("/a/b"), false).Ok?
               && FindNode(m.tree, Position("/a/b"), false).value.kind == Dir
               && Create(m, "/a/b/c", host).1.Failure? && Mkdir(m, "/a/b/c", host).1.Failure?
  {
    DeepMounted();
    var m := Run(Start(), LinkDeep()).active[0];
    assert UpperDirectories.Anchored(m) by {
      DeepListings();
      UpperDirectories.RunStaysAnchored(Start(), LinkDeep());
    }
    TwoLevelsMiss(m, host);
  }

  lemma TwoLevelsMiss(m: Mount, host: Host)
    requires UpperDirectories.Anchored(m) && m.upperDir == "/u"
    requires var f := Flat(m.tree);
             f.Keys == {[], ["a"], ["a", "b"]} && f[["a", "b"]] == Entry("b", "/m/a/b", Dir, false)
    requires m.fds.Keys == {ToLower("/m"), ToLower("/m/a"), ToLower("/m/a/b"), ToLower("/d"), ToLower("/u")}
    ensures FindNode(m.tree, Position("/a/b"), false).Ok? && FindNode(m.tree, Position("/a/b"), false).value.kind == Dir
    ensures Create(m, "/a/b/c", host).1.Failure? && Mkdir(m, "/a/b/c", host).1.Failure?
  {
    DeepTexts();
    DeepPath();
    assert ["a", "b"] in Flat(m.tree) && ["a", "b", "c"] !in Flat(m.tree);
    assert !UpperDirectories.UpperReach(m, "/a/b", host) by { UpperKeysMissing(); }
    UpperDirectories.MakingInUpper(m, "/a/b/c", host);
  }

  // --------------------------------------------------------- directories apart in case only

  /** "/M" has a file "a" and "/m" a file "b". */
  function UpperCaseMod(): DirLink {
    DirLink("/M", "/d", Single("a", false), [], {})
  }

  function LowerCaseMod(): DirLink {
    DirLink("/m", "/d", Single("b", false), [], {})
  }

  function BothCases(): seq<Op> {
    [LinkDirectoryOp(UpperCaseMod()), LinkDirectoryOp(LowerCaseMod()), MountOp(true, 1)]
  }

  lemma CaseTexts()
    ensures ToLower("a") == "a" && ToLower("b") == "b" && ToLower("/m") == "/m" && ToLower("/M") == "/m"
    ensures "/M" + "/" + "a" == "/M/a" && "/m" + "/" + "b" == "/m/b" && ParentPath("/M/a") == "/M"
  {
    assert "/M" + "/" + "a" == "/M/a";
    ParentOfJoin("/M", "a");
  }

  lemma CaseListings()
    ensures Plain(UpperCaseMod()) && Plain(LowerCaseMod())
    ensures Described("/d", []) == map[[] := EntryOf(Root("/d"))]
    ensures Described("/M", Single("a", false)) ==
            map[[] := EntryOf(Root("/M")), ["a"] := Entry("a", "/M/a", File, false)]
    ensures Described("/m", Single("b", false)) ==
            map[[] := EntryOf(Root("/m")), ["b"] := Entry("b", "/m/b", File, false)]
  {
    CaseTexts();
    EmptyScan("/d");
    SingleScan("/M", "a", false);
    SingleScan("/m", "b", false);
  }

  lemma CaseTable()
    ensures ExactDirectories.TreeFds("/m", Single("b", false)) == map["/m" := Open("/m")]
  {
    CaseTexts();
    assert Front(Single("b", false)) == [];
    ExactDirectories.EmptyTables(map["/m" := Open("/m")]);
  }

  lemma CaseRun(g1: Manager, g2: Manager)
    requires g1 == LinkDirectory(Start(), UpperCaseMod()).0 && g2 == LinkDirectory(g1, LowerCaseMod()).0
    requires |g2.pending| == 1 && g2.active == [] && g2.upperDir == ""
    ensures Run(Start(), BothCases()).active == [g2.pending[0]]
  {
    LinkThen(Start(), UpperCaseMod(), [LinkDirectoryOp(LowerCaseMod()), MountOp(true, 1)]);
    LinkThen(g1, LowerCaseMod(), [MountOp(true, 1)]);
    MountLast(g2);
    MountOne(g2);
  }

  /** Links without a slash, a sound mount, and yet: "/a" lies in "/M", and the lookup of its
      real parent yields the descriptor of "/m". */
  lemma LookupHitsAnotherDirectory()
    ensures var g := Run(Start(), BothCases());
            && |g.active| == 1
            && var m := g.active[0];
               && Sound(m) && FindNode(m.tree, Position("/a"), false).Ok?
               && FindNode(m.tree, Position("/a"), false).value.realPath == "/M/a"
               && FdAt(m.fds, ParentPath("/M/a")) == Open("/m") && !ExactDirectories.ExactOk(m)
  {
    var g1 := LinkDirectory(Start(), UpperCaseMod()).0;
    CasePending();
    CaseRun(g1, LinkDirectory(g1, LowerCaseMod()).0);
    var g := Run(Start(), BothCases());
    var m := g.active[0];
    CasePlain();
    assert SoundAt(g, m.mountpoint) by { RunsFromStart("", BothCases()); }
    OneLevel();
    CaseTexts();
    assert Flat(m.tree)[["a"]] == Entry("a", "/M/a", File, false);
    assert ExactDirectories.Exactly(m.fds, "/M") <==> FdAt(m.fds, "/M") == Open("/M");
  }

  lemma CasePlain()
    ensures forall op | op in BothCases() :: OpGood(op)
  {
    CaseListings();
  }

  lemma CasePending()
    ensures var g := LinkDirectory(LinkDirectory(Start(), UpperCaseMod()).0, LowerCaseMod()).0;
            && |g.pending| == 1 && g.active == [] && g.upperDir == "" && g.pending[0].upperDir == ""
            && var f := Flat(g.pending[0].tree);
               && ["a"] in f && f[["a"]] == Entry("a", "/M/a", File, false)
               && FdAt(g.pending[0].fds, "/M") == Open("/m")
  {
    var g1 := LinkDirectory(Start(), UpperCaseMod()).0;
    CasePlainLinks();
    FirstLink(UpperCaseMod(), "");
    NextLink(g1, LowerCaseMod());
    CaseMerged();
    assert FdAt(g1.pending[0].fds + ExactDirectories.TreeFds("/m", Single("b", false)), "/M") == Open("/m") by {
      CaseTable();
      CaseTexts();
    }
  }

  lemma CasePlainLinks()
    ensures Plain(UpperCaseMod()) && Plain(LowerCaseMod())
  {
    CaseListings();
  }

  lemma CaseMerged()
    ensures var f := Merging.FlatMerge(Merging.FlatMerge(Described("/d", []), Described("/M", Single("a", false))),
                                       Described("/m", Single("b", false)));
            ["a"] in f && f[["a"]] == Entry("a", "/M/a", File, false)
  {
    CaseListings();
    var d, g := Described("/d", []), Described("/M", Single("a", false));
    MergeOntoEmpty(d, g);
    MergeKeepsLeft(Merging.FlatMerge(d, g), Described("/m", Single("b", false)), ["a"]);
  }
}
