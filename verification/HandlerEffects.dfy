/** What a caller of the handlers gets: which entries of the tree a call may change, what a
    success leaves behind, and what undoes what. */
module HandlerEffects {
  import opened Paths
  import opened Nodes
  import opened FlatMap
  import opened Mounts
  import opened Names

  /** The entry that add leaves at a rooted path, where it does not find one that is live. */
  function Added(f: Entries, p: Path, name: string, realPath: string, kind: Kind): Entry {
    if p in f then f[p].(deleted := false, realPath := realPath) else Entry(name, realPath, kind, false)
  }

  lemma AddTextRooted(n: Node, path: string, realPath: string, kind: Kind)
    requires Rooted(path) && path != "/" && realPath != ""
    ensures var p := Position(path);
            && p != [] && Front(p) == Position(ParentPath(path)) && Last(p) != ""
            && AddText(n, path, realPath, kind, false) == AddNode(n, p, FileName(path), realPath, kind, false)
  {
    PositionOfParent(path);
    AddWalksRootedPath(path);
    assert SegmentOk(Last(Segments(path)));
  }

  lemma AddOnlyAt(n: Node, path: string, realPath: string, kind: Kind)
    requires Rooted(path) && path != "/" && realPath != "" && FindNode(n, Position(path), false).Err?
    ensures var f, p, r := Flat(n), Position(path), AddText(n, path, realPath, kind, false);
            && (r.Ok? <==> Position(ParentPath(path)) in f)
            && (r.Ok? ==> Flat(r.value) == f[p := Added(f, p, FileName(path), realPath, kind)])
  {
    AddTextRooted(n, path, realPath, kind);
    AddRefines(n, Position(path), FileName(path), realPath, kind, false);
  }

  /** mkdir succeeds exactly on a deleted item, which it revives under the name of the call,
      and where nothing is, if the parent resolves, its real directory is reachable and the
      host makes and opens the new one; then that is a directory in it with its descriptor on
      file.  EEXIST is exactly for live items; a failure changes no tree. */
  lemma MkdirByParent(m: Mount, path: string, host: Host)
    requires Rooted(path) && path != "/"
    ensures var (m', reply) := Mkdir(m, path, host);
            var f, f', p, parent := Flat(m.tree), Flat(m'.tree), Position(path), MkdirParent(m, path);
            && (reply == Failure(EEXIST) <==> p in f && !f[p].deleted)
            && (reply.Failure? ==> m'.tree == m.tree)
            && (p in f ==>
                  && (reply.Success? <==> f[p].deleted) && m'.fds == m.fds
                  && (reply.Success? ==> f' == f[p := f[p].(deleted := false, name := FileName(path))]))
            && (p !in f ==>
                  && (reply.Success? <==> parent.Ok? && Reachable(m, parent.value, host) && host.makes && host.opens)
                  && (reply.Success? ==>
                        var realPath := parent.value + "/" + FileName(path);
                        && f' == f[p := Entry(FileName(path), realPath, Dir, false)]
                        && FdAt(m'.fds, realPath).Open?))
  {
    if Has(m.tree, Position(path)) {
      ReviveEffect(m.tree, path);
    } else if MkdirParent(m, path).Ok? {
      var realParentPath := MkdirParent(m, path).value;
      WithParentReaches(m, realParentPath, host);
      MkdirInEffect(WithParent(m, realParentPath, host), path, realParentPath, host);
    }
  }

  lemma ReviveEffect(n: Node, path: string)
    requires Rooted(path) && path != "/" && Has(n, Position(path))
    ensures var f, f', p := Flat(n), Flat(Revived(n, Position(path), FileName(path))), Position(path);
            p in f && f' == f[p := f[p].(deleted := false, name := FileName(path))]
  {
    var p := Position(path);
    PositionOfParent(path);
    assert SegmentOk(Last(Segments(path)));
    HasFront(n, p);
    GraftOne(n, p, Get(n, p).(deleted := false, name := FileName(path)));
  }

  lemma MkdirInEffect(m: Mount, path: string, realParentPath: string, host: Host)
    requires Rooted(path) && path != "/" && !Has(m.tree, Position(path)) && Has(m.tree, Position(ParentPath(path)))
    ensures var (m', reply) := MkdirIn(m, path, realParentPath, host);
            var f, f', p := Flat(m.tree), Flat(m'.tree), Position(path);
            && reply != Failure(EEXIST) && (reply.Failure? ==> m'.tree == m.tree)
            && (reply.Success? <==> FdAt(m.fds, realParentPath).Open? && host.makes && host.opens)
            && (reply.Success? ==>
                  var realPath := realParentPath + "/" + FileName(path);
                  f' == f[p := Entry(FileName(path), realPath, Dir, false)] && FdAt(m'.fds, realPath).Open?)
  {
    AddOnlyAt(m.tree, path, realParentPath + "/" + FileName(path), Dir);
  }

  /** create succeeds exactly if the real directory is reachable, the host opens the file,
      and the parent is present.  An item that was live is left alone; a deleted one is
      revived with its old name and kind at the new real path; else a file is added.  No
      other entry changes, and a failure changes no tree. */
  lemma CreateByParent(m: Mount, path: string, host: Host)
    requires Rooted(path) && path != "/"
    ensures var (m', reply) := Create(m, path, host);
            var f, f', p, parent := Flat(m.tree), Flat(m'.tree), Position(path), CreateParent(m, path);
            && (reply.Success? <==>
                  && parent.Ok? && Reachable(m, parent.value, host) && host.opens
                  && Position(ParentPath(path)) in f)
            && (reply.Failure? ==> m'.tree == m.tree)
            && (reply.Success? ==>
                  f' == if p in f && !f[p].deleted then f
                        else f[p := Added(f, p, FileName(path), parent.value + "/" + FileName(path), File)])
  {
    if CreateParent(m, path).Ok? {
      var realParentPath := CreateParent(m, path).value;
      WithParentReaches(m, realParentPath, host);
      CreateInEffect(WithParent(m, realParentPath, host), path, realParentPath, host);
    }
  }

  lemma CreateInEffect(m: Mount, path: string, realParentPath: string, host: Host)
    requires Rooted(path) && path != "/"
    ensures var (m', reply) := CreateIn(m, path, realParentPath, host);
            var f, f', p := Flat(m.tree), Flat(m'.tree), Position(path);
            && (reply.Success? <==>
                  FdAt(m.fds, realParentPath).Open? && host.opens && Position(ParentPath(path)) in f)
            && (reply.Failure? ==> m'.tree == m.tree)
            && (reply.Success? ==>
                  f' == if p in f && !f[p].deleted then f
                        else f[p := Added(f, p, FileName(path), realParentPath + "/" + FileName(path), File)])
  {
    var p := Position(path);
    PositionOfParent(path);
    assert Front(p) == Position(ParentPath(path));
    HasFront(m.tree, p);
    if FindNode(m.tree, p, false).Err? {
      AddOnlyAt(m.tree, path, realParentPath + "/" + FileName(path), File);
    }
  }

  /** unlink flags precisely the entries at or below the path, a directory's too, and
      succeeds exactly when the path resolves and the host unlinks it. */
  lemma UnlinkEffect(m: Mount, path: string, granted: bool)
    requires Rooted(path) && path != "/"
    ensures var (m', reply) := Unlink(m, path, granted);
            var f, f', p := Flat(m.tree), Flat(m'.tree), Position(path);
            && reply == (if p !in f || f[p].deleted then Failure(ENOENT)
                         else if FdAt(m.fds, ParentPath(f[p].realPath)).Invalid? || !granted then Failure(EHOST)
                         else Success)
            && (reply.Success? ==>
                 f' == map q | q in f :: if p <= q then f[q].(deleted := true) else f[q])
            && (reply.Failure? ==> m' == m) && m'.fds == m.fds
  {
    PositionOfParent(path);
    var p := Position(path);
    assert FoldAll(Split(Strip(path))) == p;
    EraseRefines(m.tree, p, false);
  }

  /** rmdir flags the one entry and succeeds exactly when the path resolves to a directory
      and the host removes it: whether it has live children is not asked. */
  lemma RmdirEffect(m: Mount, path: string, granted: bool)
    requires Rooted(path) && path != "/"
    ensures var (m', reply) := Rmdir(m, path, granted);
            var f, f', p := Flat(m.tree), Flat(m'.tree), Position(path);
            && reply == (if p !in f || f[p].deleted then Failure(ENOENT)
                         else if f[p].kind != Dir then Failure(ENOTDIR)
                         else if FdAt(m.fds, ParentPath(f[p].realPath)).Invalid? || !granted then Failure(EHOST)
                         else Success)
            && (reply.Success? ==> f' == f[p := f[p].(deleted := true)])
            && (reply.Failure? ==> m' == m) && m'.fds == m.fds
  {
    PositionOfParent(path);
    var p := Position(path);
    if Has(m.tree, p) {
      HasFront(m.tree, p);
      GraftOne(m.tree, p, Get(m.tree, p).(deleted := true));
    }
  }

  // --------------------------------------------------- in terms of the stored entries

  /** The position is the root or live. */
  predicate Resolves(f: Entries, p: Path) {
    p in f && (p == [] || !f[p].deleted)
  }

  lemma ParentResolves(m: Mount, path: string)
    ensures var f, q := Flat(m.tree), Position(ParentPath(path));
            && MkdirParent(m, path) ==
               (if !Resolves(f, q) then Err(ENOENT)
                else if m.upperDir == "" then Ok(f[q].realPath)
                else Ok(m.upperDir + Absolute(Spelling(m.tree, q))))
            && CreateParent(m, path) ==
               (if m.upperDir != "" then Ok(m.upperDir + ParentPath(path))
                else if !Resolves(f, q) then Err(ENOENT)
                else Ok(f[q].realPath))
  {
    var q := Position(ParentPath(path));
    if Has(m.tree, q) {
      SpelledPathIsAbsolute(m.tree, q);
    }
  }

  /** mkdir, by what is stored: EEXIST for a live item; a deleted one is revived under the name
      of the call; ENOENT if the parent does not resolve; else the directory is made in the real
      path of the parent or, with an upper directory, below that at the parent's stored
      spelling, and added with that real path. */
  lemma MkdirEffect(m: Mount, path: string, host: Host)
    requires Rooted(path) && path != "/"
    ensures var (m', reply) := Mkdir(m, path, host);
            var f, f', name := Flat(m.tree), Flat(m'.tree), FileName(path);
            var p, q := Position(path), Position(ParentPath(path));
            if p in f then
              && reply == (if f[p].deleted then Success else Failure(EEXIST)) && m'.fds == m.fds
              && f' == if f[p].deleted then f[p := f[p].(deleted := false, name := name)] else f
            else if !Resolves(f, q) then reply == Failure(ENOENT) && m' == m
            else
              var parent := if m.upperDir == "" then f[q].realPath else m.upperDir + Absolute(Spelling(m.tree, q));
              && reply == (if Reachable(m, parent, host) && host.makes && host.opens then Success else Failure(EHOST))
              && f' == if reply.Success? then f[p := Entry(name, parent + "/" + name, Dir, false)] else f
  {
    ParentResolves(m, path);
    MkdirByParent(m, path, host);
    if !Has(m.tree, Position(path)) && Mkdir(m, path, host).1.Failure? {
      MkdirErrors(m, path, host);
    }
  }

  lemma MkdirErrors(m: Mount, path: string, host: Host)
    requires Rooted(path) && path != "/" && !Has(m.tree, Position(path)) && Mkdir(m, path, host).1.Failure?
    ensures MkdirParent(m, path).Err? ==> Mkdir(m, path, host) == (m, Failure(ENOENT))
    ensures MkdirParent(m, path).Ok? ==> Mkdir(m, path, host).1 == Failure(EHOST)
  {
    var parent := MkdirParent(m, path);
    if parent.Ok? {
      AddOnlyAt(m.tree, path, parent.value + "/" + FileName(path), Dir);
    }
  }

  /** create, by what is stored: ENOENT if the parent does not resolve, or, with an upper
      directory, is not there once the file has been opened.  The file lies in the real path
      of the parent or, with an upper directory, below that as typed; a deleted item is revived
      with its name and kind at that real path. */
  lemma CreateEffect(m: Mount, path: string, host: Host)
    requires Rooted(path) && path != "/"
    ensures var (m', reply) := Create(m, path, host);
            var f, f', name := Flat(m.tree), Flat(m'.tree), FileName(path);
            var p, q := Position(path), Position(ParentPath(path));
            if m.upperDir == "" && !Resolves(f, q) then reply == Failure(ENOENT) && m' == m
            else
              var parent := if m.upperDir == "" then f[q].realPath else m.upperDir + ParentPath(path);
              var realPath := parent + "/" + name;
              && reply == (if !Reachable(m, parent, host) || !host.opens then Failure(EHOST)
                           else if q !in f then Failure(ENOENT)
                           else Success)
              && f' == if reply.Failure? || (p in f && !f[p].deleted) then f
                       else if p in f then f[p := f[p].(deleted := false, realPath := realPath)]
                       else f[p := Entry(name, realPath, File, false)]
  {
    ParentResolves(m, path);
    CreateByParent(m, path, host);
    if Create(m, path, host).1.Failure? {
      CreateErrors(m, path, host);
    }
  }

  lemma CreateErrors(m: Mount, path: string, host: Host)
    requires Rooted(path) && path != "/" && Create(m, path, host).1.Failure?
    ensures CreateParent(m, path).Err? ==> Create(m, path, host) == (m, Failure(ENOENT))
    ensures CreateParent(m, path).Ok? ==>
              Create(m, path, host).1 ==
              Failure(if Reachable(m, CreateParent(m, path).value, host) && host.opens then ENOENT else EHOST)
  {
    var parent := CreateParent(m, path);
    if parent.Ok? {
      WithParentReaches(m, parent.value, host);
      CreateInErrors(WithParent(m, parent.value, host), path, parent.value, host);
    }
  }

  lemma CreateInErrors(m: Mount, path: string, parent: string, host: Host)
    requires Rooted(path) && path != "/" && CreateIn(m, path, parent, host).1.Failure?
    ensures CreateIn(m, path, parent, host).1 ==
            Failure(if FdAt(m.fds, parent).Open? && host.opens then ENOENT else EHOST)
  {
    var p, realPath := Position(path), parent + "/" + FileName(path);
    AddTextRooted(m.tree, path, realPath, File);
    assert Has(m.tree, p) ==> Has(m.tree, Front(p)) by { HasFront(m.tree, p); }
  }

  /** At the root mkdir finds what is there: a deleted root it revives as it was. */
  lemma MkdirAtRoot(m: Mount, host: Host)
    ensures Mkdir(m, "/", host) ==
            if m.tree.deleted then (m.(tree := m.tree.(deleted := false)), Success) else (m, Failure(EEXIST))
  {
    assert "" + "/" + "" == "/";
    ParentOfJoin("", "");
  }

  // ------------------------------------------------------------- which descriptors are filed

  /** The directory that stands for the real parent afterwards: the one on file, or the one made
      in that of its own parent, under its own name. */
  function ParentDirectory(m: Mount, parent: string): string {
    if FdAt(m.fds, parent).Open? then FdAt(m.fds, parent).directory
    else if FdAt(m.fds, ParentPath(parent)).Open?
    then FdAt(m.fds, ParentPath(parent)).directory + "/" + FileName(parent)
    else ""
  }

  lemma WithParentFiles(m: Mount, parent: string, host: Host)
    requires Reachable(m, parent, host)
    ensures var fds := WithParent(m, parent, host).fds;
            && FdAt(fds, parent) == Open(ParentDirectory(m, parent))
            && forall other | !Alike(other, parent) :: FdAt(fds, other) == FdAt(m.fds, other)
  {
    forall other | !Alike(other, parent) ensures ToLower(other) != ToLower(parent) {
      LowerIff(other, parent);
    }
  }

  /** A successful mkdir of what is not there files the new directory in the directory of its
      parent under the name of the call, and the parent if it was made; and nothing else. */
  lemma MkdirFiles(m: Mount, path: string, host: Host)
    requires Rooted(path) && path != "/" && !Has(m.tree, Position(path)) && Mkdir(m, path, host).1 == Success
    ensures var f, q, name, m' := Flat(m.tree), Position(ParentPath(path)), FileName(path), Mkdir(m, path, host).0;
            && Resolves(f, q)
            && var parent := if m.upperDir == "" then f[q].realPath else m.upperDir + Absolute(Spelling(m.tree, q));
               && FdAt(m'.fds, parent) == Open(ParentDirectory(m, parent))
               && FdAt(m'.fds, parent + "/" + name) == Open(ParentDirectory(m, parent) + "/" + name)
               && forall other | !Alike(other, parent) && !Alike(other, parent + "/" + name) ::
                    FdAt(m'.fds, other) == FdAt(m.fds, other)
  {
    ParentResolves(m, path);
    MkdirByParent(m, path, host);
    var parent, name := MkdirParent(m, path).value, FileName(path);
    WithParentFiles(m, parent, host);
    var before := WithParent(m, parent, host);
    assert |ToLower(parent + "/" + name)| > |ToLower(parent)|;
    forall other ensures FdAt(Mkdir(m, path, host).0.fds, other) ==
                         if Alike(other, parent + "/" + name) then Open(ParentDirectory(m, parent) + "/" + name)
                         else FdAt(before.fds, other)
    {
      ReadOverWrite(before.fds, parent + "/" + name, Open(ParentDirectory(m, parent) + "/" + name), other);
    }
    LowerIff(parent + "/" + name, parent + "/" + name);
  }

  /** A create that got to its file has filed the parent if it was made, and nothing else. */
  lemma CreateFiles(m: Mount, path: string, host: Host)
    requires Create(m, path, host).1 == Success
    ensures var f, q, m' := Flat(m.tree), Position(ParentPath(path)), Create(m, path, host).0;
            && (m.upperDir != "" || Resolves(f, q))
            && var parent := if m.upperDir == "" then f[q].realPath else m.upperDir + ParentPath(path);
               && FdAt(m'.fds, parent) == Open(ParentDirectory(m, parent))
               && forall other | !Alike(other, parent) :: FdAt(m'.fds, other) == FdAt(m.fds, other)
  {
    ParentResolves(m, path);
    var parent := CreateParent(m, path).value;
    WithParentReaches(m, parent, host);
    WithParentFiles(m, parent, host);
  }

  /** Filed as itself, or made in what is filed as itself, a directory is filed as itself. */
  lemma MadeAsSpelled(m: Mount, parent: string)
    requires if FdAt(m.fds, parent).Open? then FdAt(m.fds, parent) == Open(parent)
             else FindLastSlash(parent) >= 0 && FdAt(m.fds, ParentPath(parent)) == Open(ParentPath(parent))
    ensures ParentDirectory(m, parent) == parent
  {
    if FdAt(m.fds, parent).Invalid? {
      JoinOfParent(parent);
    }
  }

  /** mkdir undoes rmdir: whatever the host does and however the path is spelled, the mount
      is as before but for the spelling of the name. */
  lemma MkdirUndoesRmdir(m: Mount, path: string, granted: bool, again: string, host: Host)
    requires Rooted(path) && path != "/" && Rooted(again) && again != "/" && Position(again) == Position(path)
    requires Rmdir(m, path, granted).1 == Success
    ensures var (m', reply) := Mkdir(Rmdir(m, path, granted).0, again, host);
            var f, p := Flat(m.tree), Position(path);
            && p in f && reply == Success && m'.fds == m.fds
            && Flat(m'.tree) == f[p := f[p].(name := FileName(again))]
            && (FileName(again) == f[p].name ==> m'.tree == m.tree)
  {
    var f, p, removed := Flat(m.tree), Position(path), Rmdir(m, path, granted).0;
    assert p in f && Flat(removed.tree) == f[p := f[p].(deleted := true)] && !f[p].deleted && removed.fds == m.fds by {
      RmdirEffect(m, path, granted);
    }
    MkdirRevives(removed, f, p, again, host);
    if FileName(again) == f[p].name {
      FlatDetermines(Mkdir(removed, again, host).0.tree, m.tree);
    }
  }

  lemma MkdirRevives(m: Mount, f: Entries, p: Path, path: string, host: Host)
    requires Rooted(path) && path != "/" && p == Position(path) && p in f && !f[p].deleted
    requires Flat(m.tree) == f[p := f[p].(deleted := true)]
    ensures var (m', reply) := Mkdir(m, path, host);
            reply == Success && m'.fds == m.fds && Flat(m'.tree) == f[p := f[p].(name := FileName(path))]
  {
    MkdirByParent(m, path, host);
  }
}
