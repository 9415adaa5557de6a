/** The tree refines a flat map from positions to entries: add, find and erase act on
    the map one entry or one subtree at a time. */
module FlatMap {
  import opened Paths
  import opened Nodes

  type Entries = map<Path, Entry>

  function FlatFind(f: Entries, p: Path, includeDeleted: bool): Result<Entry> {
    if p in f && (p == [] || includeDeleted || !f[p].deleted) then Ok(f[p]) else Err(ENOENT)
  }

  function FlatAdd(f: Entries, p: Path, name: string, realPath: string, kind: Kind, update: bool): Result<Entries>
    requires p != []
  {
    if Front(p) !in f then Err(ENOENT)
    else if Last(p) == "" then Err(EEXIST)
    else if p !in f then Ok(f[p := Entry(name, realPath, kind, false)])
    else if f[p].deleted || update then Ok(f[p := f[p].(deleted := false, realPath := realPath)])
    else Err(EEXIST)
  }

  function FlatErase(f: Entries, p: Path, reallyErase: bool): Result<Entries>
    requires p != []
  {
    if p !in f then Err(ENOENT)
    else if reallyErase then Ok(map q | q in f && !(p <= q) :: f[q])
    else Ok(map q | q in f :: if p <= q then f[q].(deleted := true) else f[q])
  }

  // ------------------------------------------------------------- one call at a time

  /** What find, add and erase refuse, and why: add wants names and paths (EINVAL), a parent
      (ENOENT) and a free place (EEXIST); erase a path (EINVAL) and something there (ENOENT); and
      find never refuses the root. */
  lemma Refusals(n: Node, path: string, realPath: string, kind: Kind, flag: bool)
    ensures var p := AddPosition(path);
            match AddText(n, path, realPath, kind, flag)
            case Ok(_) => path != "" && path != "/" && realPath != "" && Has(n, Front(p)) && Last(p) != ""
                          && (!Has(n, p) || Get(n, p).deleted || flag)
            case Err(e) => e == (if path == "" || path == "/" || realPath == "" then EINVAL
                                 else if !Has(n, Front(p)) then ENOENT
                                 else EEXIST)
                           && (e == EEXIST ==> Last(p) == "" || (Has(n, p) && !Get(n, p).deleted && !flag))
    ensures match EraseText(n, path, flag)
            case Ok(_) => path != "" && Has(n, FoldAll(Split(Strip(path))))
            case Err(e) => e == (if path == "" then EINVAL else ENOENT)
                           && (path != "" ==> !Has(n, FoldAll(Split(Strip(path)))))
    ensures match FindNode(n, Position(path), flag)
            case Ok(item) => Has(n, Position(path)) && item == Get(n, Position(path))
            case Err(e) => e == ENOENT && Position(path) != []
                           && (Has(n, Position(path)) ==> !flag && Get(n, Position(path)).deleted)
  {}

  lemma FindRefines(n: Node, p: Path, includeDeleted: bool)
    ensures FlatFind(Flat(n), p, includeDeleted) ==
            match FindNode(n, p, includeDeleted) case Ok(item) => Ok(EntryOf(item)) case Err(e) => Err(e)
  {}

  /** Replacing a subtree by one with the same children, or by a fresh leaf, changes one
      entry and nothing else. */
  lemma GraftOne(n: Node, p: Path, c: Node)
    requires p == [] || Has(n, Front(p))
    requires if Has(n, p) then c.children == Get(n, p).children else c.children == map[]
    ensures Flat(Graft(n, p, c)) == Flat(n)[p := EntryOf(c)]
  {
    var r := Graft(n, p, c);
    forall q
      ensures q in Flat(r) <==> q in Flat(n) || q == p
      ensures q in Flat(r) ==> Flat(r)[q] == Flat(n)[p := EntryOf(c)][q]
    {
      GraftAt(n, p, c, q);
      if p <= q {
        HasConcat(n, p, q[|p|..]);
        assert q == p + q[|p|..];
        assert q[|p|..] == [] <==> q == p;
      }
    }
  }

  lemma AddRefines(n: Node, p: Path, name: string, realPath: string, kind: Kind, update: bool)
    requires p != []
    ensures var t, f := AddNode(n, p, name, realPath, kind, update), FlatAdd(Flat(n), p, name, realPath, kind, update);
            match t case Ok(r) => f == Ok(Flat(r)) case Err(e) => f == Err(e)
  {
    HasFront(n, p);
    if Has(n, Front(p)) && Last(p) != "" {
      if !Has(n, p) {
        GraftOne(n, p, Node(name, realPath, kind, false, map[]));
      } else {
        var item := Get(n, p);
        GraftOne(n, p, item.(deleted := false, realPath := realPath));
        GraftOne(n, p, item.(realPath := realPath));
      }
    }
  }

  lemma MarkedSubtreeAt(n: Node, p: Path, q: Path)
    requires p != [] && Has(n, p)
    ensures p == [] || Has(n, Front(p))
    ensures var r := Graft(n, p, MarkChildren(Get(n, p)).(deleted := true));
            && (Has(r, q) <==> Has(n, q))
            && (Has(n, q) ==>
                  EntryOf(Get(r, q)) == if p <= q then EntryOf(Get(n, q)).(deleted := true) else EntryOf(Get(n, q)))
  {
    HasFront(n, p);
    var c := MarkChildren(Get(n, p)).(deleted := true);
    GraftAt(n, p, c, q);
    if p <= q {
      var s := q[|p|..];
      assert q == p + s;
      HasConcat(n, p, s);
      MarkChildrenAt(Get(n, p), s);
      MarkedAt(MarkChildren(Get(n, p)), s);
    }
  }

  /** Erase is exact: it succeeds on every present position whatever lies below it; hard
      erase removes just the entries at or below, soft erase flags just those. */
  lemma EraseRefines(n: Node, p: Path, reallyErase: bool)
    requires p != []
    ensures var t, f := EraseNode(n, p, reallyErase), FlatErase(Flat(n), p, reallyErase);
            match t case Ok(r) => f == Ok(Flat(r)) case Err(e) => f == Err(e)
  {
    if Has(n, p) {
      if reallyErase {
        EraseHard(n, p);
      } else {
        EraseSoft(n, p);
      }
    }
  }

  /** On text, position by position: hard erase takes everything at or below the path away, soft
      erase flags it, and all else is as before. */
  lemma EraseEffect(n: Node, path: string, reallyErase: bool, q: Path)
    requires EraseText(n, path, reallyErase).Ok?
    ensures var f, f', p := Flat(n), Flat(EraseText(n, path, reallyErase).value), FoldAll(Split(Strip(path)));
            && (q in f' <==> q in f && !(reallyErase && p <= q))
            && (q in f' ==> f'[q] == if p <= q then f[q].(deleted := true) else f[q])
  {
    EraseRefines(n, FoldAll(Split(Strip(path))), reallyErase);
  }

  lemma EraseHard(n: Node, p: Path)
    requires p != [] && Has(n, p)
    ensures Flat(Prune(n, p)) == map q | q in Flat(n) && !(p <= q) :: Flat(n)[q]
  {
    forall q
      ensures Has(Prune(n, p), q) <==> Has(n, q) && !(p <= q)
      ensures Has(Prune(n, p), q) ==> EntryOf(Get(Prune(n, p), q)) == EntryOf(Get(n, q))
    {
      PruneAt(n, p, q);
    }
  }

  lemma EraseSoft(n: Node, p: Path)
    requires p != [] && Has(n, p)
    ensures EraseNode(n, p, false).Ok?
    ensures Flat(EraseNode(n, p, false).value) ==
            map q | q in Flat(n) :: if p <= q then Flat(n)[q].(deleted := true) else Flat(n)[q]
  {
    var r := EraseNode(n, p, false).value;
    forall q
      ensures Has(r, q) <==> Has(n, q)
      ensures Has(r, q) ==>
                EntryOf(Get(r, q)) == if p <= q then EntryOf(Get(n, q)).(deleted := true) else EntryOf(Get(n, q))
    {
      MarkedSubtreeAt(n, p, q);
    }
  }
}
