/** Building a tree and its descriptors from a recursive directory listing, as linking
    and createFileTree do (src/usvfsmanager.cpp). */
module Listing {
  import opened Paths
  import opened Nodes
  import opened FlatMap
  import opened Deletion
  import Names
  import opened Mounts
  import opened Coverage

  datatype Option<+T> = None | Some(value: T)

  /** One entry of a listing: where it lies below the listed directory, in display
      segments, and its name. */
  datatype DirEntry = DirEntry(parent: Path, name: string, isDir: bool) {
    function Relative(): Path {
      parent + [name]
    }

    function Position(): Path {
      FoldAll(Relative())
    }
  }

  /** A tree with its descriptors. */
  datatype Scanned = Scanned(tree: Node, fds: Fds)

  predicate EndsWithSlash(directory: string) {
    directory != "" && Last(directory) == '/'
  }

  /** The real path of an entry, as a path library joins it: no second slash. */
  function EntryPath(directory: string, relative: Path): string
    requires relative != []
  {
    if EndsWithSlash(directory) then directory + Join(relative)
    else directory + "/" + Join(relative)
  }

  predicate EntryOk(e: DirEntry) {
    SegmentsOk(e.Relative())
  }

  /** The directory of entry i comes before it. */
  ghost predicate HasParent(listing: seq<DirEntry>, i: nat)
    requires i < |listing|
  {
    exists j :: 0 <= j < i && listing[j].isDir && listing[j].Relative() == listing[i].parent
  }

  /** What a recursive iterator promises: names are non-empty and without '/', no path
      comes twice, and a directory comes before what is in it. */
  ghost predicate Listable(listing: seq<DirEntry>) {
    && (forall e | e in listing :: EntryOk(e))
    && (forall i, j | 0 <= i < j < |listing| :: listing[i].Relative() != listing[j].Relative())
    && (forall i | 0 <= i < |listing| && listing[i].parent != [] :: HasParent(listing, i))
  }

  /** One turn of the loop: add the entry, and open it if it is a directory. */
  function ScanEntry(s: Scanned, directory: string, e: DirEntry, unopenable: set<string>): Option<Scanned>
  {
    var path := EntryPath(directory, e.Relative());
    match AddText(s.tree, Join(e.Relative()), path, if e.isDir then Dir else File, false)
    case Err(_) => None
    case Ok(t) =>
      if !e.isDir then Some(Scanned(t, s.fds))
      else if OpenDir(path, unopenable).Invalid? then None
      else Some(Scanned(t, FdPut(s.fds, path, OpenDir(path, unopenable))))
  }

  function Scan(start: Scanned, directory: string, listing: seq<DirEntry>, unopenable: set<string>): Option<Scanned>
    decreases |listing|
  {
    if listing == [] then Some(start)
    else
      match Scan(start, directory, Front(listing), unopenable)
      case None => None
      case Some(s) => ScanEntry(s, directory, Last(listing), unopenable)
  }

  function Root(directory: string): Node {
    Node("/", directory, Dir, false, map[])
  }

  // --------------------------------------------------------------- what a scan builds

  /** The entries that a listing describes. */
  function Described(directory: string, listing: seq<DirEntry>): Entries
    decreases |listing|
  {
    if listing == [] then map[[] := EntryOf(Root(directory))]
    else
      var e := Last(listing);
      Described(directory, Front(listing))[e.Position() :=
        Entry(e.name, EntryPath(directory, e.Relative()), if e.isDir then Dir else File, false)]
  }

  ghost predicate DistinctFolded(listing: seq<DirEntry>) {
    forall i, j | 0 <= i < j < |listing| :: listing[i].Position() != listing[j].Position()
  }

  ghost predicate Mentions(listing: seq<DirEntry>, p: Path) {
    exists i :: 0 <= i < |listing| && listing[i].Position() == p
  }

  /** Every directory of the listing can be opened. */
  ghost predicate Openable(directory: string, listing: seq<DirEntry>, unopenable: set<string>)
  {
    forall e | e in listing && e.isDir :: EntryPath(directory, e.Relative()) !in unopenable
  }

  lemma {:induction false} DescribedPositions(directory: string, listing: seq<DirEntry>, p: Path)
    ensures p in Described(directory, listing) <==>
            p == [] || Mentions(listing, p)
    decreases |listing|
  {
    if listing != [] {
      var n := |listing| - 1;
      DescribedPositions(directory, Front(listing), p);
      if p != [] && p in Described(directory, Front(listing)) {
        var i :| 0 <= i < n && Front(listing)[i].Position() == p;
        assert listing[i].Position() == p;
      }
      if i :| 0 <= i < |listing| && listing[i].Position() == p {
        assert i < n ==> Front(listing)[i].Position() == p;
      }
    }
  }

  lemma AddEntryText(n: Node, e: DirEntry, realPath: string, kind: Kind)
    requires EntryOk(e) && realPath != ""
    ensures AddText(n, Join(e.Relative()), realPath, kind, false) ==
            AddNode(n, e.Position(), e.name, realPath, kind, false)
  {
    var text := Join(e.Relative());
    assert SegmentOk(e.Relative()[0]);
    SplitOfJoin(e.Relative());
    FirstSegment(text);
    assert text != "" && text[0] != '/';
    AddSplitIsSplit(text);
  }

  lemma ListablePrefix(listing: seq<DirEntry>)
    requires Listable(listing) && listing != []
    ensures Listable(Front(listing)) && EntryOk(Last(listing))
  {
    assert Last(listing) in listing;
    forall i | 0 <= i < |Front(listing)| && Front(listing)[i].parent != [] ensures HasParent(Front(listing), i) {
      assert HasParent(listing, i);
      var j :| 0 <= j < i && listing[j].isDir && listing[j].Relative() == listing[i].parent;
      assert Front(listing)[j] == listing[j];
    }
  }

  /** The parent of a new entry is there already. */
  lemma ParentIsDescribed(directory: string, listing: seq<DirEntry>)
    requires Listable(listing) && listing != []
    ensures Front(Last(listing).Position()) in Described(directory, Front(listing))
  {
    var e, earlier, i := Last(listing), Front(listing), |listing| - 1;
    PositionSplits(e);
    DescribedPositions(directory, earlier, FoldAll(e.parent));
    if e.parent != [] {
      assert HasParent(listing, i);
      var j :| 0 <= j < i && listing[j].isDir && listing[j].Relative() == e.parent;
      assert earlier[j].Position() == FoldAll(e.parent);
    }
  }

  lemma PositionSplits(e: DirEntry)
    ensures Front(e.Position()) == FoldAll(e.parent) && Last(e.Position()) == ToLower(e.name)
  {}

  /** The loop gets through exactly when no two entries differ in case only and every
      directory can be opened, and then the tree holds the listed entries and the root and
      nothing else. */
  lemma {:induction false} ScanBuildsListing(directory: string, fds: Fds, listing: seq<DirEntry>,
                                               unopenable: set<string>)
    requires Listable(listing)
    ensures var s := Scan(Scanned(Root(directory), fds), directory, listing, unopenable);
            && (s.Some? <==> DistinctFolded(listing) && Openable(directory, listing, unopenable))
            && (s.Some? ==> Flat(s.value.tree) == Described(directory, listing) && AllLive(Flat(s.value.tree)))
    decreases |listing|
  {
    if listing == [] {
      FlatOfLeaf(Root(directory));
    } else {
      var e, earlier := Last(listing), Front(listing);
      assert listing == earlier + [e];
      ListablePrefix(listing);
      ScanBuildsListing(directory, fds, earlier, unopenable);
      DistinctLast(listing);
      OpenableLast(directory, listing, unopenable);
      var s := Scan(Scanned(Root(directory), fds), directory, earlier, unopenable);
      if s.Some? {
        ParentIsDescribed(directory, listing);
        DescribedPositions(directory, earlier, e.Position());
        ScanAddsEntry(s.value, directory, listing, unopenable);
      }
    }
  }

  lemma OpenableLast(directory: string, listing: seq<DirEntry>, unopenable: set<string>)
    requires listing != []
    ensures Openable(directory, listing, unopenable) <==>
            Openable(directory, Front(listing), unopenable) && Openable(directory, [Last(listing)], unopenable)
  {
    assert listing == Front(listing) + [Last(listing)];
  }

  lemma ScanAddsEntry(s: Scanned, directory: string, listing: seq<DirEntry>, unopenable: set<string>)
    requires listing != [] && EntryOk(Last(listing))
    requires Flat(s.tree) == Described(directory, Front(listing)) && AllLive(Flat(s.tree))
    requires Front(Last(listing).Position()) in Flat(s.tree)
    ensures var r := ScanEntry(s, directory, Last(listing), unopenable);
            && (r.Some? <==>
                  Last(listing).Position() !in Flat(s.tree) && Openable(directory, [Last(listing)], unopenable))
            && (r.Some? ==> Flat(r.value.tree) == Described(directory, listing) && AllLive(Flat(r.value.tree)))
  {
    var e := Last(listing);
    var path, p, kind := EntryPath(directory, e.Relative()), e.Position(), if e.isDir then Dir else File;
    PositionSplits(e);
    AddEntryText(s.tree, e, path, kind);
    AddRefines(s.tree, p, e.name, path, kind, false);
    assert SegmentOk(e.Relative()[|e.parent|]);
  }

  lemma FlatOfLeaf(n: Node)
    requires n.children == map[]
    ensures Flat(n) == map[[] := EntryOf(n)]
  {
    forall p ensures Has(n, p) <==> p == [] {
    }
  }

  lemma DistinctLast(listing: seq<DirEntry>)
    requires listing != []
    ensures DistinctFolded(listing) <==>
            DistinctFolded(Front(listing)) && !Mentions(Front(listing), Last(listing).Position())
  {
    var n, earlier := |listing| - 1, Front(listing);
    assert forall i | 0 <= i < n :: earlier[i] == listing[i];
    if DistinctFolded(earlier) && !Mentions(earlier, Last(listing).Position()) {
      forall i, j | 0 <= i < j < |listing| ensures listing[i].Position() != listing[j].Position() {
        assert earlier[i].Position() == listing[i].Position();
      }
    }
  }

  // ------------------------------------------------------------------------- coverage

  lemma {:induction false} JoinSnoc(p: Path, name: string)
    requires p != []
    ensures Join(p + [name]) == Join(p) + "/" + name
    decreases |p|
  {
    if |p| > 1 {
      assert (p + [name])[1..] == p[1..] + [name];
      JoinSnoc(p[1..], name);
    } else {
      assert (p + [name])[1..] == [name];
    }
  }

  lemma ParentBehindSlash(directory: string, name: string)
    requires EndsWithSlash(directory) && NoSlash(name)
    ensures ParentPath(directory + name) == Front(directory)
  {
    var bare := Front(directory);
    assert directory == bare + [Last(directory)];
    assert directory + name == bare + "/" + name;
    ParentOfJoin(bare, name);
  }

  /** The listed directory without its trailing slash, and then, at any depth, a slash before
      every segment. */
  lemma EntryPathIs(directory: string, relative: Path)
    requires relative != []
    ensures EntryPath(directory, relative) ==
            (if EndsWithSlash(directory) then Front(directory) else directory) + Absolute(relative)
  {
    AbsoluteIsJoin(relative);
    if EndsWithSlash(directory) {
      assert directory == Front(directory) + "/";
      assert Front(directory) + "/" + Join(relative) == Front(directory) + ("/" + Join(relative));
    } else {
      assert directory + "/" + Join(relative) == directory + ("/" + Join(relative));
    }
  }

  /** The real parent of an entry: of a top entry it is the listed directory, less a trailing
      slash. */
  lemma ParentOfEntry(directory: string, e: DirEntry)
    requires EntryOk(e)
    ensures ParentPath(EntryPath(directory, e.Relative())) ==
            if e.parent != [] then EntryPath(directory, e.parent)
            else if EndsWithSlash(directory) then Front(directory)
            else directory
  {
    assert SegmentOk(e.Relative()[|e.parent|]);
    if e.parent == [] {
      assert Join([e.name]) == e.name && e.Relative() == [e.name];
      if EndsWithSlash(directory) {
        ParentBehindSlash(directory, e.name);
      } else {
        ParentOfJoin(directory, e.name);
      }
    } else {
      JoinSnoc(e.parent, e.name);
      assert EntryPath(directory, e.Relative()) == EntryPath(directory, e.parent) + "/" + e.name;
      ParentOfJoin(EntryPath(directory, e.parent), e.name);
    }
  }

  /** The keys of the listed directories. */
  function ListedKeys(directory: string, listing: seq<DirEntry>): set<string> {
    set e | e in listing && e.isDir :: ToLower(EntryPath(directory, e.Relative()))
  }

  function OwnKey(directory: string, e: DirEntry): set<string> {
    if e.isDir then {ToLower(EntryPath(directory, e.Relative()))} else {}
  }

  lemma ListedKeysLast(directory: string, listing: seq<DirEntry>)
    requires listing != []
    ensures ListedKeys(directory, listing) == ListedKeys(directory, Front(listing)) + OwnKey(directory, Last(listing))
  {
    assert listing == Front(listing) + [Last(listing)];
  }

  function ListedPositions(listing: seq<DirEntry>): set<Path> {
    set e | e in listing :: e.Position()
  }

  /** A finished scan has filed the listed directories and no others, each under its own
      folded name, and its names and keys agree. */
  lemma {:induction false} ScanFiles(start: Scanned, directory: string, listing: seq<DirEntry>, unopenable: set<string>)
    requires Filed(start.fds) && Names.NamesOk(Flat(start.tree))
    ensures var s := Scan(start, directory, listing, unopenable);
            s.Some? ==>
              && Filed(s.value.fds) && Names.NamesOk(Flat(s.value.tree))
              && s.value.fds.Keys == start.fds.Keys + ListedKeys(directory, listing)
    decreases |listing|
  {
    if listing != [] && Scan(start, directory, Front(listing), unopenable).Some? {
      var s, e := Scan(start, directory, Front(listing), unopenable).value, Last(listing);
      ScanFiles(start, directory, Front(listing), unopenable);
      if ScanEntry(s, directory, e, unopenable).Some? {
        EntryFiles(s, directory, e, unopenable);
        assert ListedKeys(directory, listing) == ListedKeys(directory, Front(listing)) + OwnKey(directory, e) by {
          ListedKeysLast(directory, listing);
        }
      }
    }
  }

  lemma EntryFiles(s: Scanned, directory: string, e: DirEntry, unopenable: set<string>)
    requires Filed(s.fds) && Names.NamesOk(Flat(s.tree)) && ScanEntry(s, directory, e, unopenable).Some?
    ensures var r := ScanEntry(s, directory, e, unopenable).value;
            && Filed(r.fds) && Names.NamesOk(Flat(r.tree))
            && r.fds.Keys == s.fds.Keys + OwnKey(directory, e)
  {
    var path := EntryPath(directory, e.Relative());
    var entry := AddTextEntry(s.tree, Join(e.Relative()), path, if e.isDir then Dir else File, false);
  }

  /** What a listing describes at the position of entry i. */
  lemma {:induction false} DescribedEntry(directory: string, listing: seq<DirEntry>, i: nat)
    requires DistinctFolded(listing) && i < |listing|
    ensures var e, f := listing[i], Described(directory, listing);
            && e.Position() in f
            && f[e.Position()] ==
               Entry(e.name, EntryPath(directory, e.Relative()), if e.isDir then Dir else File, false)
    decreases |listing|
  {
    if i < |listing| - 1 {
      DistinctLast(listing);
      assert listing[i] == Front(listing)[i];
      DescribedEntry(directory, Front(listing), i);
      assert listing[i].Position() != Last(listing).Position();
    }
  }

  lemma {:induction false} DescribedRoot(directory: string, listing: seq<DirEntry>)
    ensures [] in Described(directory, listing) && Described(directory, listing)[[]] == EntryOf(Root(directory))
    decreases |listing|
  {
    if listing != [] {
      DescribedRoot(directory, Front(listing));
      assert Last(listing).Position() != [];
    }
  }

  /** The top entries lie in a directory on file, except those that are replaced. */
  ghost predicate TopsOnFile(directory: string, listing: seq<DirEntry>, keys: set<string>, replaced: set<Path>) {
    || !EndsWithSlash(directory)
    || ToLower(Front(directory)) in keys
    || forall e | e in listing && e.parent == [] :: e.Position() in replaced
  }

  /** With the directory and all that it lists on file, what may be missing is the parent of
      the top entries, if the directory was given with a trailing slash. */
  lemma EntryNeeds(directory: string, listing: seq<DirEntry>, i: nat, keys: set<string>)
    requires Listable(listing) && i < |listing|
    requires ToLower(directory) in keys && ListedKeys(directory, listing) <= keys
    ensures ToLower(ParentPath(EntryPath(directory, listing[i].Relative()))) in keys <==>
            listing[i].parent != [] || !EndsWithSlash(directory) || ToLower(Front(directory)) in keys
  {
    var e := listing[i];
    assert e in listing;
    ParentOfEntry(directory, e);
    if e.parent != [] {
      assert HasParent(listing, i);
      var j :| 0 <= j < i && listing[j].isDir && listing[j].Relative() == e.parent;
      assert listing[j] in listing;
      assert ToLower(EntryPath(directory, listing[j].Relative())) in ListedKeys(directory, listing);
    }
  }

  lemma DescribedNeeds(directory: string, listing: seq<DirEntry>, keys: set<string>, replaced: set<Path>)
    requires Listable(listing) && DistinctFolded(listing)
    requires ToLower(directory) in keys && ListedKeys(directory, listing) <= keys
    ensures var f := Described(directory, listing);
            (forall p | p in f && p !in replaced :: ToLower(Needs(p, f[p])) in keys) <==>
            TopsOnFile(directory, listing, keys, replaced)
  {
    var f := Described(directory, listing);
    DescribedRoot(directory, listing);
    forall i | 0 <= i < |listing|
      ensures var p := listing[i].Position();
              && p in f
              && (ToLower(Needs(p, f[p])) in keys <==>
                  listing[i].parent != [] || !EndsWithSlash(directory) || ToLower(Front(directory)) in keys)
    {
      DescribedEntry(directory, listing, i);
      EntryNeeds(directory, listing, i, keys);
    }
    forall p | p in f && p != [] ensures Mentions(listing, p) {
      DescribedPositions(directory, listing, p);
    }
    if TopsOnFile(directory, listing, keys, replaced) {
      forall p | p in f && p !in replaced && p != [] ensures ToLower(Needs(p, f[p])) in keys {
        var i :| 0 <= i < |listing| && listing[i].Position() == p;
        assert listing[i] in listing;
      }
    } else {
      var e :| e in listing && e.parent == [] && e.Position() !in replaced;
      var i :| 0 <= i < |listing| && listing[i] == e;
      assert e.Position() in f;
    }
  }

  /** A finished scan from any table: names and descriptors are right; and any keys that
      include its table cover it if and only if the top entries lie in a directory on file. */
  lemma ScanIsSound(directory: string, fds: Fds, listing: seq<DirEntry>, unopenable: set<string>, keys: set<string>)
    requires Listable(listing) && Filed(fds) && ToLower(directory) in fds
    ensures var s := Scan(Scanned(Root(directory), fds), directory, listing, unopenable);
            s.Some? ==>
              && Names.NamesOk(Flat(s.value.tree)) && Filed(s.value.fds)
              && s.value.fds.Keys == fds.Keys + ListedKeys(directory, listing)
              && (s.value.fds.Keys <= keys ==>
                    (Covers(Flat(s.value.tree), keys) <==> TopsOnFile(directory, listing, keys, {})))
  {
    var s := Scan(Scanned(Root(directory), fds), directory, listing, unopenable);
    FlatOfLeaf(Root(directory));
    ScanFiles(Scanned(Root(directory), fds), directory, listing, unopenable);
    ScanBuildsListing(directory, fds, listing, unopenable);
    if s.Some? && s.value.fds.Keys <= keys {
      DescribedNeeds(directory, listing, keys, {});
    }
  }

  /** In a table of its own a directory given with a trailing slash loses the parent of its
      top entries: a finished scan covers exactly when there is no trailing slash or nothing
      listed. */
  lemma ScanCoversIff(directory: string, listing: seq<DirEntry>, unopenable: set<string>)
    requires Listable(listing) && directory != ""
    ensures var fds := FdPut(map[], directory, Open(directory));
            var s := Scan(Scanned(Root(directory), fds), directory, listing, unopenable);
            s.Some? ==>
              (Covers(Flat(s.value.tree), s.value.fds.Keys) <==> listing == [] || !EndsWithSlash(directory))
  {
    var fds := FdPut(map[], directory, Open(directory));
    var s := Scan(Scanned(Root(directory), fds), directory, listing, unopenable);
    if s.Some? {
      var keys := {ToLower(directory)} + ListedKeys(directory, listing);
      assert fds.Keys == {ToLower(directory)};
      ScanIsSound(directory, fds, listing, unopenable, keys);
      KeysAreLong(directory, listing);
      if listing != [] {
        FirstIsTop(listing);
      }
    }
  }

  lemma KeysAreLong(directory: string, listing: seq<DirEntry>)
    requires directory != ""
    ensures ToLower(Front(directory)) !in {ToLower(directory)} + ListedKeys(directory, listing)
  {
    forall e: DirEntry ensures |ToLower(EntryPath(directory, e.Relative()))| >= |directory| {
    }
    assert |ToLower(Front(directory))| < |directory|;
  }

  lemma FirstIsTop(listing: seq<DirEntry>)
    requires Listable(listing) && listing != []
    ensures listing[0] in listing && listing[0].parent == []
  {
    assert listing[0].parent != [] ==> HasParent(listing, 0);
  }
}
