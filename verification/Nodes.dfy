/** The value of a virtual file tree, the operations of src/virtualfiletreeitem.cpp on
    that value, and its flattening to a map from positions to entries. */
module Nodes {
  import opened Paths

  datatype Kind = File | Dir | Unknown

  /** EHOST stands for whatever a system call of the host reports. */
  datatype Errno = EINVAL | EEXIST | ENOENT | ENOTDIR | EIO | EHOST

  datatype Result<+T> = Ok(value: T) | Err(error: Errno)

  /** One item with everything below it; a key of children is a folded name. */
  datatype Node = Node(name: string, realPath: string, kind: Kind, deleted: bool, children: map<string, Node>)

  /** What one item says about itself. */
  datatype Entry = Entry(name: string, realPath: string, kind: Kind, deleted: bool)

  function EntryOf(n: Node): Entry {
    Entry(n.name, n.realPath, n.kind, n.deleted)
  }

  // ------------------------------------------------------------------- positions

  predicate Has(n: Node, p: Path)
    decreases |p|
  {
    p == [] || (p[0] in n.children && Has(n.children[p[0]], p[1..]))
  }

  function Get(n: Node, p: Path): Node
    requires Has(n, p)
    decreases |p|
  {
    if p == [] then n else Get(n.children[p[0]], p[1..])
  }

  lemma {:induction false} HasConcat(n: Node, p: Path, q: Path)
    ensures Has(n, p + q) <==> Has(n, p) && Has(Get(n, p), q)
    ensures Has(n, p + q) ==> Get(n, p + q) == Get(Get(n, p), q)
    decreases |p|
  {
    if p == [] {
      assert p + q == q;
    } else {
      assert (p + q)[1..] == p[1..] + q;
      if p[0] in n.children {
        HasConcat(n.children[p[0]], p[1..], q);
      }
    }
  }

  lemma HasFront(n: Node, p: Path)
    requires p != []
    ensures Has(n, p) <==> Has(n, Front(p)) && Last(p) in Get(n, Front(p)).children
    ensures Has(n, p) ==> Get(n, p) == Get(n, Front(p)).children[Last(p)]
  {
    HasConcat(n, Front(p), [Last(p)]);
    assert p == Front(p) + [Last(p)];
  }

  lemma HasChild(n: Node, k: string)
    ensures Has(n, [k]) <==> k in n.children
    ensures k in n.children ==> Get(n, [k]) == n.children[k]
  {
    HasFront(n, [k]);
  }

  // ------------------------------------------------------------------ flattening

  function Positions(n: Node): (s: set<Path>)
    ensures forall p :: p in s <==> Has(n, p)
  {
    var s := {[]} + set k, p | k in n.children && p in Positions(n.children[k]) :: [k] + p;
    assert forall p | Has(n, p) && p != [] :: p == [p[0]] + p[1..] && p[1..] in Positions(n.children[p[0]]);
    s
  }

  function Flat(n: Node): map<Path, Entry> {
    map p | p in Positions(n) :: EntryOf(Get(n, p))
  }

  ghost predicate PrefixClosed(f: map<Path, Entry>) {
    [] in f && forall p | p in f && p != [] :: Front(p) in f
  }

  lemma FlatIsPrefixClosed(n: Node)
    ensures PrefixClosed(Flat(n))
  {
    forall p | p in Flat(n) && p != [] ensures Front(p) in Flat(n) {
      HasFront(n, p);
    }
  }

  /** The flat map forgets nothing: it determines the tree. */
  lemma {:induction false} FlatDetermines(a: Node, b: Node)
    requires Flat(a) == Flat(b)
    ensures a == b
  {
    assert Flat(a)[[]] == Flat(b)[[]];
    forall k | k in a.children || k in b.children
      ensures k in a.children && k in b.children && a.children[k] == b.children[k]
    {
      HasChild(a, k);
      HasChild(b, k);
      assert [k] in Flat(a) <==> [k] in Flat(b);
      SameBelow(a, b, k);
      FlatDetermines(a.children[k], b.children[k]);
    }
    assert a.children == b.children;
  }

  lemma SameBelow(a: Node, b: Node, k: string)
    requires Flat(a) == Flat(b) && k in a.children && k in b.children
    ensures Flat(a.children[k]) == Flat(b.children[k])
  {
    forall p
      ensures p in Flat(a.children[k]) <==> p in Flat(b.children[k])
      ensures p in Flat(a.children[k]) ==> Flat(a.children[k])[p] == Flat(b.children[k])[p]
    {
      assert [k] + p in Flat(a) <==> [k] + p in Flat(b);
      assert ([k] + p)[1..] == p;
      assert [k] + p in Flat(a) ==> Flat(a)[[k] + p] == Flat(b)[[k] + p];
    }
  }

  // ----------------------------------------------------- putting and cutting subtrees

  /** n with the subtree c at position p. */
  function Graft(n: Node, p: Path, c: Node): Node
    requires p == [] || Has(n, Front(p))
    decreases |p|
  {
    if p == [] then c
    else if |p| == 1 then n.(children := n.children[p[0] := c])
    else
      assert Front(p)[1..] == Front(p[1..]);
      n.(children := n.children[p[0] := Graft(n.children[p[0]], p[1..], c)])
  }

  /** n without the subtree at position p. */
  function Prune(n: Node, p: Path): Node
    requires p != [] && Has(n, p)
    decreases |p|
  {
    if |p| == 1 then n.(children := n.children - {p[0]})
    else n.(children := n.children[p[0] := Prune(n.children[p[0]], p[1..])])
  }

  lemma {:induction false} GraftAt(n: Node, p: Path, c: Node, q: Path)
    requires p == [] || Has(n, Front(p))
    ensures p <= q ==> (Has(Graft(n, p, c), q) <==> Has(c, q[|p|..]))
    ensures p <= q && Has(Graft(n, p, c), q) ==> Get(Graft(n, p, c), q) == Get(c, q[|p|..])
    ensures !(p <= q) ==> (Has(Graft(n, p, c), q) <==> Has(n, q))
    ensures !(p <= q) && Has(n, q) ==> EntryOf(Get(Graft(n, p, c), q)) == EntryOf(Get(n, q))
    decreases |p|
  {
    if p <= q {
      GraftInside(n, p, c, q);
    } else {
      GraftOutside(n, p, c, q);
    }
  }

  lemma {:induction false} GraftInside(n: Node, p: Path, c: Node, q: Path)
    requires (p == [] || Has(n, Front(p))) && p <= q
    ensures Has(Graft(n, p, c), q) <==> Has(c, q[|p|..])
    ensures Has(c, q[|p|..]) ==> Get(Graft(n, p, c), q) == Get(c, q[|p|..])
    decreases |p|
  {
    if p == [] {
      assert q[|p|..] == q;
    } else {
      assert q[1..][|p| - 1..] == q[|p|..];
      if |p| > 1 {
        assert Front(p)[1..] == Front(p[1..]);
        GraftInside(n.children[p[0]], p[1..], c, q[1..]);
      }
    }
  }

  lemma {:induction false} GraftOutside(n: Node, p: Path, c: Node, q: Path)
    requires (p == [] || Has(n, Front(p))) && !(p <= q)
    ensures Has(Graft(n, p, c), q) <==> Has(n, q)
    ensures Has(n, q) ==> EntryOf(Get(Graft(n, p, c), q)) == EntryOf(Get(n, q))
    decreases |p|
  {
    if |p| > 1 && q != [] && p[0] == q[0] {
      assert p == [p[0]] + p[1..] && q == [q[0]] + q[1..];
      assert Front(p)[1..] == Front(p[1..]);
      GraftOutside(n.children[p[0]], p[1..], c, q[1..]);
    } else {
      assert q == [] || p[0] != q[0];
    }
  }

  lemma {:induction false} PruneAt(n: Node, p: Path, q: Path)
    requires p != [] && Has(n, p)
    ensures Has(Prune(n, p), q) <==> Has(n, q) && !(p <= q)
    ensures Has(Prune(n, p), q) ==> EntryOf(Get(Prune(n, p), q)) == EntryOf(Get(n, q))
    decreases |p|
  {
    if q != [] && p[0] == q[0] {
      if |p| > 1 {
        PruneAt(n.children[p[0]], p[1..], q[1..]);
        assert p <= q <==> p[1..] <= q[1..];
      } else {
        assert p <= q;
      }
    } else if q != [] {
      assert !(p <= q);
    }
  }

  // ------------------------------------------------------------------- operations

  /** The item that find answers with; find looks at the last deleted flag only, and at
      none for the root. */
  function FindNode(n: Node, p: Path, includeDeleted: bool): Result<Node> {
    if Has(n, p) && (p == [] || includeDeleted || !Get(n, p).deleted) then Ok(Get(n, p)) else Err(ENOENT)
  }

  /** The tree after add at position p, or the reason for refusing. */
  function AddNode(n: Node, p: Path, name: string, realPath: string, kind: Kind, update: bool): Result<Node>
    requires p != []
  {
    if !Has(n, Front(p)) then Err(ENOENT)
    else if Last(p) == "" then Err(EEXIST)
    else if !Has(n, p) then Ok(Graft(n, p, Node(name, realPath, kind, false, map[])))
    else
      var item := Get(n, p);
      if item.deleted then Ok(Graft(n, p, item.(deleted := false, realPath := realPath)))
      else if update then Ok(Graft(n, p, item.(realPath := realPath)))
      else Err(EEXIST)
  }

  /** add, on text. */
  function AddText(n: Node, path: string, realPath: string, kind: Kind, update: bool): Result<Node> {
    if path == "" || realPath == "" || path == "/" then Err(EINVAL)
    else AddNode(n, AddPosition(path), Last(AddSplit(Strip(path))), realPath, kind, update)
  }

  /** What add asks for: names and paths, a parent, and a place that is free, deleted or to
      be updated. */
  predicate AddAccepts(n: Node, path: string, realPath: string, update: bool) {
    && path != "" && path != "/" && realPath != ""
    && var p := AddPosition(path);
       Has(n, Front(p)) && Last(p) != "" && (Has(n, p) ==> Get(n, p).deleted || update)
  }

  lemma AddAcceptsIff(n: Node, path: string, realPath: string, kind: Kind, update: bool)
    ensures AddText(n, path, realPath, kind, update).Ok? <==> AddAccepts(n, path, realPath, update)
  {}

  function AddPosition(path: string): Path {
    FoldAll(AddSplit(Strip(path)))
  }

  /** erase, on text. */
  function EraseText(n: Node, path: string, reallyErase: bool): Result<Node> {
    if path == "" then Err(EINVAL) else EraseNode(n, FoldAll(Split(Strip(path))), reallyErase)
  }

  function MarkChildren(n: Node): Node {
    n.(children := map k | k in n.children :: MarkChildren(n.children[k]).(deleted := true))
  }

  function EraseNode(n: Node, p: Path, reallyErase: bool): Result<Node>
    requires p != []
  {
    if !Has(n, p) then Err(ENOENT)
    else if reallyErase then Ok(Prune(n, p))
    else
      HasFront(n, p);
      Ok(Graft(n, p, MarkChildren(Get(n, p)).(deleted := true)))
  }

  /** A copy is live at its top and keeps the flags below. */
  function Clone(n: Node): Node {
    n.(deleted := false)
  }

  /** Name and real path from the right, kind and flag from the left. */
  function Merge(a: Node, b: Node): Node {
    Node(b.name, b.realPath, a.kind, a.deleted,
         map k | k in a.children.Keys + b.children.Keys ::
           if k !in b.children then a.children[k]
           else if k !in a.children then Clone(b.children[k])
           else Merge(a.children[k], b.children[k]))
  }

  lemma {:induction false} MarkChildrenAt(n: Node, p: Path)
    ensures Has(MarkChildren(n), p) <==> Has(n, p)
    ensures Has(n, p) ==>
      EntryOf(Get(MarkChildren(n), p)) == EntryOf(Get(n, p)).(deleted := p != [] || n.deleted)
    decreases |p|
  {
    if p != [] && p[0] in n.children {
      MarkChildrenAt(n.children[p[0]], p[1..]);
      MarkedAt(MarkChildren(n.children[p[0]]), p[1..]);
    }
  }

  lemma MarkedAt(n: Node, p: Path)
    ensures Has(n.(deleted := true), p) <==> Has(n, p)
    ensures Has(n, p) && p != [] ==> Get(n.(deleted := true), p) == Get(n, p)
  {}

  // ------------------------------------------- the same operations, one level at a time

  lemma AddBelow(n: Node, k: string, p: Path, name: string, realPath: string, kind: Kind, update: bool)
    requires p != []
    ensures AddNode(n, [k] + p, name, realPath, kind, update) ==
            if k !in n.children then Err(ENOENT)
            else match AddNode(n.children[k], p, name, realPath, kind, update)
                 case Ok(c) => Ok(n.(children := n.children[k := c]))
                 case Err(e) => Err(e)
  {
    assert ([k] + p)[1..] == p;
    assert Front([k] + p) == [k] + Front(p);
    assert ([k] + Front(p))[1..] == Front(p);
  }

  lemma AddHere(n: Node, k: string, name: string, realPath: string, kind: Kind, update: bool)
    requires k != ""
    ensures AddNode(n, [k], name, realPath, kind, update) ==
            if k !in n.children then Ok(n.(children := n.children[k := Node(name, realPath, kind, false, map[])]))
            else
              var c := n.children[k];
              if c.deleted || update
              then Ok(n.(children := n.children[k := c.(deleted := false, realPath := realPath)]))
              else Err(EEXIST)
  {
    HasChild(n, k);
    assert Front([k]) == [];
  }

  lemma GraftBelow(n: Node, k: string, p: Path, c: Node)
    requires Has(n, Front([k] + p))
    ensures p != [] ==> Front([k] + p) == [k] + Front(p) && k in n.children && Has(n.children[k], Front(p))
    ensures Graft(n, [k] + p, c) ==
            n.(children := n.children[k := if p == [] then c else Graft(n.children[k], p, c)])
  {
    assert ([k] + p)[1..] == p;
    if p != [] {
      assert Front([k] + p) == [k] + Front(p);
      assert ([k] + Front(p))[1..] == Front(p);
    }
  }

  lemma EraseBelow(n: Node, k: string, p: Path, reallyErase: bool)
    requires p != []
    ensures EraseNode(n, [k] + p, reallyErase) ==
            if k !in n.children then Err(ENOENT)
            else match EraseNode(n.children[k], p, reallyErase)
                 case Ok(c) => Ok(n.(children := n.children[k := c]))
                 case Err(e) => Err(e)
  {
    assert ([k] + p)[1..] == p;
    if Has(n, [k] + p) {
      HasFront(n, [k] + p);
      HasFront(n.children[k], p);
    }
  }

  lemma EraseHere(n: Node, k: string, reallyErase: bool)
    ensures EraseNode(n, [k], reallyErase) ==
            if k !in n.children then Err(ENOENT)
            else if reallyErase then Ok(n.(children := n.children - {k}))
            else Ok(n.(children := n.children[k := MarkChildren(n.children[k]).(deleted := true)]))
  {
    HasChild(n, k);
  }
}
