/** The real parent directory of whatever find resolves has a descriptor on file, and each
    descriptor is the one of the directory it is filed under, up to case.  Kept by every
    handler, over every run.  An item's own directory is another matter (module
    OwnDirectories), and so is case (module ExactDirectories). */
module Coverage {
  import opened Paths
  import opened Nodes
  import opened FlatMap
  import opened Names
  import opened Deletion
  import opened Mounts

  // ---------------------------------------------------------------------- invariants

  /** Each descriptor was opened on the directory it is filed under, up to case. */
  ghost predicate Filed(fds: Fds) {
    forall k | k in fds :: fds[k].Open? && ToLower(fds[k].directory) == k
  }

  /** The directory that must be on file for the item at p: its real parent, and for the root
      its own. */
  function Needs(p: Path, e: Entry): string {
    if p == [] then e.realPath else ParentPath(e.realPath)
  }

  ghost predicate Covers(f: Entries, keys: set<string>) {
    forall p | p in f :: ToLower(Needs(p, f[p])) in keys
  }

  ghost predicate Sound(m: Mount) {
    NamesOk(Flat(m.tree)) && Filed(m.fds) && Covers(Flat(m.tree), m.fds.Keys)
  }

  /** What soundness is for: whatever find resolves, a descriptor is filed under its real
      parent, and it is the one of that directory or of one that differs in case only.  Module
      ExactDirectories says when it is the one. */
  lemma LookupNeverMisses(m: Mount, path: string)
    requires Sound(m) && FindNode(m.tree, Position(path), false).Ok? && Position(path) != []
    ensures var parent := ParentPath(FindNode(m.tree, Position(path), false).value.realPath);
            FdAt(m.fds, parent).Open? && ToLower(FdAt(m.fds, parent).directory) == ToLower(parent)
  {
    assert Flat(m.tree)[Position(path)] == EntryOf(Get(m.tree, Position(path)));
  }

  ghost predicate LookupHits(m: Mount, path: string) {
    match FindNode(m.tree, Position(path), false)
    case Ok(item) => FdAt(m.fds, ParentPath(item.realPath)).Open?
    case Err(_) => true
  }

  /** And no less will do: with every item live, lookups hit for all paths below the root if
      and only if the keys cover every item there. */
  lemma LookupsHitIff(m: Mount)
    requires NamesOk(Flat(m.tree)) && Filed(m.fds) && AllLive(Flat(m.tree))
    ensures (forall path | Position(path) != [] :: LookupHits(m, path)) <==>
            (forall p | p in Flat(m.tree) && p != [] :: ToLower(Needs(p, Flat(m.tree)[p])) in m.fds)
  {
    var f := Flat(m.tree);
    forall p | p in f && p != []
      ensures exists path :: Position(path) == p && (LookupHits(m, path) <==> ToLower(Needs(p, f[p])) in m.fds)
    {
      SpelledPathNamesItem(m.tree, p);
      assert Position(SpelledPath(m.tree, p)) == p;
    }
    forall path | Position(path) != [] && Position(path) in f
      ensures LookupHits(m, path) <==> ToLower(Needs(Position(path), f[Position(path)])) in m.fds
    {
      FindRefines(m.tree, Position(path), false);
    }
  }

  // ---------------------------------------------------------------- one tree operation

  /** add, on any text, changes one entry and keeps keys and names together. */
  lemma AddTextEntry(n: Node, path: string, realPath: string, kind: Kind, update: bool) returns (e: Entry)
    requires AddText(n, path, realPath, kind, update).Ok?
    ensures Flat(AddText(n, path, realPath, kind, update).value) == Flat(n)[AddPosition(path) := e]
    ensures AddPosition(path) != [] && Front(AddPosition(path)) in Flat(n)
    ensures e.realPath == realPath && !e.deleted
    ensures var f, p := Flat(n), AddPosition(path);
            if p in f then e.name == f[p].name && e.kind == f[p].kind && (f[p].deleted || update)
            else e.name == Last(AddSplit(Strip(path))) && e.kind == kind
    ensures NamesOk(Flat(n)) ==> NamesOk(Flat(n)[AddPosition(path) := e])
  {
    var segments, p := AddSplit(Strip(path)), AddPosition(path);
    AddRefines(n, p, Last(segments), realPath, kind, update);
    e := FlatAdd(Flat(n), p, Last(segments), realPath, kind, update).value[p];
    AddSplitHasNoSlash(Strip(path));
    assert Last(p) == ToLower(Last(segments));
    if NamesOk(Flat(n)) {
      OneEntryKeepsNames(Flat(n), p, e);
    }
  }

  lemma AddKeepsSound(m: Mount, fds: Fds, path: string, realPath: string, kind: Kind, update: bool)
    requires Sound(m) && Filed(fds) && m.fds.Keys <= fds.Keys
    requires AddText(m.tree, path, realPath, kind, update).Ok? && ToLower(ParentPath(realPath)) in fds
    ensures Sound(m.(tree := AddText(m.tree, path, realPath, kind, update).value, fds := fds))
  {
    var e := AddTextEntry(m.tree, path, realPath, kind, update);
  }

  /** Replacing the item at p by one with the same real path and children. */
  lemma ItemKeepsSound(m: Mount, p: Path, c: Node)
    requires Sound(m) && Has(m.tree, p) && c.children == Get(m.tree, p).children
    requires c.realPath == Get(m.tree, p).realPath
    requires p != [] ==> SegmentOk(c.name) && ToLower(c.name) == Last(p)
    ensures p == [] || Has(m.tree, Front(p))
    ensures Sound(m.(tree := Graft(m.tree, p, c)))
  {
    if p != [] {
      HasFront(m.tree, p);
    }
    GraftOne(m.tree, p, c);
    assert p in Flat(m.tree);
    OneEntryKeepsNames(Flat(m.tree), p, EntryOf(c));
  }

  lemma EraseKeepsSound(m: Mount, path: string)
    requires Sound(m) && EraseText(m.tree, path, false).Ok?
    ensures Sound(m.(tree := EraseText(m.tree, path, false).value))
  {
    var p := FoldAll(Split(Strip(path)));
    EraseRefines(m.tree, p, false);
    EraseKeepsNames(Flat(m.tree), p, false);
  }

  // ----------------------------------------------------------------------- descriptors

  lemma OpenAtIsFiled(fds: Fds, directory: string, name: string, granted: bool)
    requires Filed(fds)
    ensures var fd := OpenAt(FdAt(fds, directory), name, granted);
            && (fd.Open? ==> ToLower(directory) in fds && ToLower(fd.directory) == ToLower(directory + "/" + name))
            && (fd.Open? ==> Filed(FdPut(fds, directory + "/" + name, fd)))
  {
    if FdAt(fds, directory).Open? {
      var target := FdAt(fds, directory).directory;
      ToLowerConcat(target, "/" + name);
      ToLowerConcat(directory, "/" + name);
      assert target + "/" + name == target + ("/" + name);
      assert directory + "/" + name == directory + ("/" + name);
    }
  }

  lemma WithParentKeepsSound(m: Mount, realParentPath: string, host: Host)
    requires Sound(m)
    ensures var m' := WithParent(m, realParentPath, host);
            Sound(m') && m' == m.(fds := m'.fds) && m.fds.Keys <= m'.fds.Keys
  {
    WithParentKeepsFiled(m, realParentPath, host);
  }

  lemma WithParentKeepsFiled(m: Mount, realParentPath: string, host: Host)
    requires Filed(m.fds)
    ensures Filed(WithParent(m, realParentPath, host).fds)
  {
    if FindLastSlash(realParentPath) >= 0 {
      JoinOfParent(realParentPath);
      OpenAtIsFiled(m.fds, ParentPath(realParentPath), FileName(realParentPath), host.parentOpens);
    }
  }

  lemma MkdirInKeepsFiled(m: Mount, path: string, realParentPath: string, host: Host)
    requires Filed(m.fds)
    ensures Filed(MkdirIn(m, path, realParentPath, host).0.fds)
  {
    OpenAtIsFiled(m.fds, realParentPath, FileName(path), host.makes && host.opens);
  }

  /** The table of a mount stays right whatever else may be wrong with the mount. */
  lemma HandleKeepsFiled(m: Mount, call: Call)
    requires Filed(m.fds)
    ensures Filed(Handle(m, call).0.fds)
  {
    match call
    case MkdirCall(path, host) =>
      if MkdirParent(m, path).Ok? {
        var realParentPath := MkdirParent(m, path).value;
        WithParentKeepsFiled(m, realParentPath, host);
        MkdirInKeepsFiled(WithParent(m, realParentPath, host), path, realParentPath, host);
      }
    case CreateCall(path, host) =>
      if CreateParent(m, path).Ok? {
        WithParentKeepsFiled(m, CreateParent(m, path).value, host);
      }
    case UnlinkCall(_, _) =>
    case RmdirCall(_, _) =>
  }

  // -------------------------------------------------------------------------- handlers

  lemma MkdirKeepsSound(m: Mount, path: string, host: Host)
    requires Sound(m)
    ensures Sound(Mkdir(m, path, host).0)
  {
    var p := Position(path);
    if Has(m.tree, p) {
      if Get(m.tree, p).deleted {
        ReviveKeepsSound(m, path);
      }
    } else {
      if MkdirParent(m, path).Ok? {
        var realParentPath := MkdirParent(m, path).value;
        WithParentKeepsSound(m, realParentPath, host);
        MkdirInKeepsSound(WithParent(m, realParentPath, host), path, realParentPath, host);
      }
    }
  }

  lemma ReviveKeepsSound(m: Mount, path: string)
    requires Sound(m) && Has(m.tree, Position(path))
    ensures Sound(m.(tree := Revived(m.tree, Position(path), FileName(path))))
  {
    var p, item := Position(path), Get(m.tree, Position(path));
    var name := if FileName(path) == "" then item.name else FileName(path);
    if p != [] {
      LastSegmentIsFileName(path);
      assert p in Flat(m.tree);
    }
    ItemKeepsSound(m, p, item.(deleted := false, name := name));
  }

  lemma NameHasNoSlash(path: string)
    ensures NoSlash(FileName(path))
  {}

  lemma MkdirInKeepsSound(m: Mount, path: string, realParentPath: string, host: Host)
    requires Sound(m)
    ensures Sound(MkdirIn(m, path, realParentPath, host).0)
  {
    var name := FileName(path);
    var fd := OpenAt(FdAt(m.fds, realParentPath), name, host.makes && host.opens);
    OpenAtIsFiled(m.fds, realParentPath, name, host.makes && host.opens);
    NameHasNoSlash(path);
    ParentOfJoin(realParentPath, name);
    if fd.Open? && AddText(m.tree, path, realParentPath + "/" + name, Dir, false).Ok? {
      AddKeepsSound(m, FdPut(m.fds, realParentPath + "/" + name, fd), path, realParentPath + "/" + name, Dir, false);
    }
  }

  lemma CreateKeepsSound(m: Mount, path: string, host: Host)
    requires Sound(m)
    ensures Sound(Create(m, path, host).0)
  {
    if CreateParent(m, path).Ok? {
      var realParentPath := CreateParent(m, path).value;
      WithParentKeepsSound(m, realParentPath, host);
      CreateInKeepsSound(WithParent(m, realParentPath, host), path, realParentPath, host);
    }
  }

  lemma CreateInKeepsSound(m: Mount, path: string, realParentPath: string, host: Host)
    requires Sound(m)
    ensures Sound(CreateIn(m, path, realParentPath, host).0)
  {
    var name := FileName(path);
    OpenAtIsFiled(m.fds, realParentPath, name, host.opens);
    NameHasNoSlash(path);
    ParentOfJoin(realParentPath, name);
    if OpenAt(FdAt(m.fds, realParentPath), name, host.opens).Open?
       && AddText(m.tree, path, realParentPath + "/" + name, File, false).Ok? {
      AddKeepsSound(m, m.fds, path, realParentPath + "/" + name, File, false);
    }
  }

  lemma UnlinkKeepsSound(m: Mount, path: string, granted: bool)
    requires Sound(m)
    ensures Sound(Unlink(m, path, granted).0)
  {
    if EraseText(m.tree, path, false).Ok? {
      EraseKeepsSound(m, path);
    }
  }

  lemma RmdirKeepsSound(m: Mount, path: string, granted: bool)
    requires Sound(m)
    ensures Sound(Rmdir(m, path, granted).0)
  {
    var p := Position(path);
    if Has(m.tree, p) {
      assert p in Flat(m.tree);
      ItemKeepsSound(m, p, Get(m.tree, p).(deleted := true));
    }
  }

  // -------------------------------------------------------------------------- all runs

  lemma HandleKeepsSound(m: Mount, call: Call)
    requires Sound(m)
    ensures Sound(Handle(m, call).0)
  {
    match call
    case MkdirCall(path, host) => MkdirKeepsSound(m, path, host);
    case CreateCall(path, host) => CreateKeepsSound(m, path, host);
    case UnlinkCall(path, granted) => UnlinkKeepsSound(m, path, granted);
    case RmdirCall(path, granted) => RmdirKeepsSound(m, path, granted);
  }

  lemma {:induction false} EveryRunStaysSound(m: Mount, calls: seq<Call>)
    requires Sound(m)
    ensures Sound(HandleAll(m, calls))
    decreases |calls|
  {
    if calls != [] {
      HandleKeepsSound(m, calls[0]);
      EveryRunStaysSound(Handle(m, calls[0]).0, calls[1..]);
    }
  }

  // --------------------------------------------------------------- the upper directory

  /** mkdir asks for the parent by its spelled path and create by the text it was given:
      in any spelling both mean one descriptor. */
  lemma UpperParentsAgree(m: Mount, path: string)
    requires NamesOk(Flat(m.tree)) && Rooted(path) && path != "/" && Has(m.tree, Position(ParentPath(path)))
    ensures var parent := Position(ParentPath(path));
            ToLower(m.upperDir + SpelledPath(m.tree, parent)) == ToLower(m.upperDir + ParentPath(path))
  {
    var text := ParentPath(path);
    ToLowerConcat(m.upperDir, SpelledPath(m.tree, Position(text)));
    ToLowerConcat(m.upperDir, text);
    if text != "" {
      ParentIsRooted(path);
      SpelledPathUpToCase(m.tree, text);
    }
  }

  lemma ParentIsRooted(path: string)
    requires Rooted(path) && path != "/" && ParentPath(path) != ""
    ensures Rooted(ParentPath(path)) && ParentPath(path) != "/"
  {
    var q, last := path[1..], FindLastSlash(path);
    LastSlashOfTail(path, 1);
    assert path[..last][1..] == q[..last - 1];
    SplitAtLast(q);
    var front := Split(q[..last - 1]);
    forall i | 0 <= i < |front| ensures SegmentOk(front[i]) {
      assert Split(q)[i] == front[i];
    }
    FirstSegment(q);
    assert SegmentOk(Split(q)[0]);
  }
}
