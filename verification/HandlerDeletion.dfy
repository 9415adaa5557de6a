/** Which handler calls keep deletion closed downwards, and so keep find sound, and
    exactly when. */
module HandlerDeletion {
  import opened Paths
  import opened Nodes
  import opened FlatMap
  import opened Deletion
  import opened Mounts
  import opened HandlerEffects

  ghost predicate ClosedTree(m: Mount) {
    Closed(Flat(m.tree))
  }

  /** The parent directory of path resolves to a live item or the root. */
  ghost predicate ParentResolves(m: Mount, path: string) {
    FindNode(m.tree, Position(ParentPath(path)), false).Ok?
  }

  /** The documented meaning of isEmpty: no child that is not marked as deleted. */
  predicate NoLiveChildren(n: Node) {
    forall k | k in n.children :: n.children[k].deleted
  }

  /** mkdir revives without asking for the parent, create with an upper directory adds
      without asking, and rmdir flags the directory alone. */
  ghost predicate Guarded(m: Mount, call: Call) {
    var p := Position(call.path);
    match call
    case MkdirCall(path, host) =>
      Has(m.tree, p) && Get(m.tree, p).deleted ==> ParentResolves(m, path)
    case CreateCall(path, host) =>
      (&& m.upperDir != "" && Reachable(m, m.upperDir + ParentPath(path), host) && host.opens
       && FindNode(m.tree, p, false).Err? && Has(m.tree, Position(ParentPath(path))))
      ==> ParentResolves(m, path)
    case UnlinkCall(path, granted) => true
    case RmdirCall(path, granted) =>
      (&& FindNode(m.tree, p, false).Ok? && Get(m.tree, p).kind == Dir && granted
       && FdAt(m.fds, ParentPath(Get(m.tree, p).realPath)).Open?)
      ==> NoLiveChildren(Get(m.tree, p))
  }

  lemma ParentResolvesIsParentLive(m: Mount, path: string)
    requires Rooted(path) && path != "/"
    ensures Position(path) != []
    ensures ParentResolves(m, path) <==> ParentLive(Flat(m.tree), Position(path))
  {
    PositionOfParent(path);
    assert Front(Position(path)) == Position(ParentPath(path));
  }

  /** Every call keeps closure exactly when it is guarded. */
  lemma HandleKeepsClosedIffGuarded(m: Mount, call: Call)
    requires ClosedTree(m) && Rooted(call.path) && call.path != "/"
    ensures ClosedTree(Handle(m, call).0) <==> Guarded(m, call)
  {
    FlatIsPrefixClosed(m.tree);
    match call
    case MkdirCall(path, host) => MkdirClosed(m, path, host);
    case CreateCall(path, host) => CreateClosed(m, path, host);
    case UnlinkCall(path, granted) => UnlinkClosed(m, path, granted);
    case RmdirCall(path, granted) => RmdirClosed(m, path, granted);
  }

  lemma MkdirClosed(m: Mount, path: string, host: Host)
    requires ClosedTree(m) && Rooted(path) && path != "/"
    ensures ClosedTree(Mkdir(m, path, host).0) <==> Guarded(m, MkdirCall(path, host))
  {
    var (m', reply) := Mkdir(m, path, host);
    var p := Position(path);
    ParentResolvesIsParentLive(m, path);
    FlatIsPrefixClosed(m.tree);
    MkdirByParent(m, path, host);
    if reply.Success? {
      ReviveKeepsClosed(Flat(m.tree), p, Flat(m'.tree)[p]);
    }
  }

  lemma CreateClosed(m: Mount, path: string, host: Host)
    requires ClosedTree(m) && Rooted(path) && path != "/"
    ensures ClosedTree(Create(m, path, host).0) <==> Guarded(m, CreateCall(path, host))
  {
    var (m', reply) := Create(m, path, host);
    var f, p := Flat(m.tree), Position(path);
    ParentResolvesIsParentLive(m, path);
    PositionOfParent(path);
    assert Front(p) == Position(ParentPath(path));
    FlatIsPrefixClosed(m.tree);
    CreateByParent(m, path, host);
    if reply.Success? && !(p in f && !f[p].deleted) {
      ReviveKeepsClosed(f, p, Flat(m'.tree)[p]);
    }
  }

  lemma UnlinkClosed(m: Mount, path: string, granted: bool)
    requires ClosedTree(m)
    ensures ClosedTree(Unlink(m, path, granted).0)
  {
    if EraseText(m.tree, path, false).Ok? {
      var p := FoldAll(Split(Strip(path)));
      EraseRefines(m.tree, p, false);
      EraseKeepsClosed(Flat(m.tree), p, false);
    }
  }

  lemma RmdirClosed(m: Mount, path: string, granted: bool)
    requires ClosedTree(m) && Rooted(path) && path != "/"
    ensures ClosedTree(Rmdir(m, path, granted).0) <==> Guarded(m, RmdirCall(path, granted))
  {
    if Rmdir(m, path, granted).1 == Success {
      var p := Position(path);
      ParentResolvesIsParentLive(m, path);
      HasFront(m.tree, p);
      var item := Get(m.tree, p);
      GraftOne(m.tree, p, item.(deleted := true));
      FlagKeepsClosed(Flat(m.tree), p, EntryOf(item.(deleted := true)));
      NoLiveBelow(m.tree, p);
    }
  }

  /** In a closed tree, no live child means nothing live at any depth. */
  lemma NoLiveBelow(n: Node, p: Path)
    requires Closed(Flat(n)) && Has(n, p)
    ensures NoLiveChildren(Get(n, p)) <==>
            forall q | q in Flat(n) && p <= q && q != p :: Flat(n)[q].deleted
  {
    if NoLiveChildren(Get(n, p)) {
      forall q | q in Flat(n) && p <= q && q != p ensures Flat(n)[q].deleted {
        DeletedBelow(n, p, q);
      }
    } else {
      var k :| k in Get(n, p).children && !Get(n, p).children[k].deleted;
      ChildEntry(n, p, k);
      assert p <= p + [k] && p + [k] != p;
    }
  }

  lemma ChildEntry(n: Node, p: Path, k: string)
    requires Has(n, p) && k in Get(n, p).children
    ensures p + [k] in Flat(n) && Flat(n)[p + [k]] == EntryOf(Get(n, p).children[k])
  {
    HasChild(Get(n, p), k);
    HasConcat(n, p, [k]);
  }

  lemma DeletedBelow(n: Node, p: Path, q: Path)
    requires Closed(Flat(n)) && Has(n, p) && NoLiveChildren(Get(n, p))
    requires Has(n, q) && p <= q && q != p
    ensures Flat(n)[q].deleted
  {
    var k, rest := q[|p|], q[|p|..];
    assert k in Get(n, p).children by {
      assert q == p + rest;
      HasConcat(n, p, rest);
    }
    ChildEntry(n, p, k);
    assert p + [k] <= q;
  }

  // -------------------------------------------------------------------------- all runs

  ghost predicate GuardedRun(m: Mount, calls: seq<Call>)
    decreases |calls|
  {
    calls == [] ||
    (&& Rooted(calls[0].path) && calls[0].path != "/" && Guarded(m, calls[0])
     && GuardedRun(Handle(m, calls[0]).0, calls[1..]))
  }

  /** Over every guarded run, find succeeds exactly when the path is present and live all
      the way down. */
  lemma {:induction false} FindStaysSound(m: Mount, calls: seq<Call>, path: string)
    requires ClosedTree(m) && GuardedRun(m, calls)
    ensures var last := HandleAll(m, calls);
            && ClosedTree(last)
            && (Position(path) != [] ==>
                  (FindNode(last.tree, Position(path), false).Ok? <==> LiveAllTheWay(Flat(last.tree), Position(path))))
    decreases |calls|
  {
    if calls == [] {
      FindIsSoundIffClosed(Flat(m.tree));
      FindRefines(m.tree, Position(path), false);
    } else {
      HandleKeepsClosedIffGuarded(m, calls[0]);
      FindStaysSound(Handle(m, calls[0]).0, calls[1..], path);
    }
  }
}
