/** find looks at the deleted flag of the last item only.  That is sound exactly when the
    deleted positions are closed under going down, and here is which operations keep
    them closed, and when. */
module Deletion {
  import opened Paths
  import opened Nodes
  import opened FlatMap
  import opened Merging

  /** Everything below a deleted item is deleted; find never asks the root. */
  ghost predicate Closed(f: Entries) {
    forall p, q | p in f && q in f && p != [] && p <= q && f[p].deleted :: f[q].deleted
  }

  /** The path is present and live all the way down. */
  ghost predicate LiveAllTheWay(f: Entries, p: Path) {
    p in f && forall q | q in f && q != [] && q <= p :: !f[q].deleted
  }

  ghost predicate AllLive(f: Entries) {
    forall p | p in f && p != [] :: !f[p].deleted
  }

  /** Testing the last flag is testing all of them, on every path, exactly when the map
      is closed. */
  lemma FindIsSoundIffClosed(f: Entries)
    ensures Closed(f) <==> forall p :: FlatFind(f, p, false).Ok? && p != [] ==> LiveAllTheWay(f, p)
    ensures forall p :: LiveAllTheWay(f, p) ==> FlatFind(f, p, false).Ok?
  {
    forall p | LiveAllTheWay(f, p) ensures FlatFind(f, p, false).Ok? {
      assert p <= p;
    }
    if forall p :: FlatFind(f, p, false).Ok? && p != [] ==> LiveAllTheWay(f, p) {
      forall p, q | p in f && q in f && p != [] && p <= q && f[p].deleted ensures f[q].deleted {
        assert !LiveAllTheWay(f, q);
        assert !FlatFind(f, q, false).Ok?;
      }
    }
  }

  lemma ProperPrefix(p: Path, q: Path)
    requires p <= q && p != q
    ensures q != [] && p <= Front(q)
  {
    assert |p| == |q| ==> p == q;
  }

  lemma PrefixIsPresent(f: Entries, p: Path, q: Path)
    requires PrefixClosed(f) && q in f && p <= q
    ensures p in f
    decreases |q|
  {
    if p != q {
      assert p <= Front(q);
      PrefixIsPresent(f, p, Front(q));
    }
  }

  /** The parent of a position is the root or live. */
  ghost predicate ParentLive(f: Entries, p: Path)
    requires p != []
  {
    Front(p) in f && (Front(p) == [] || !f[Front(p)].deleted)
  }

  // ------------------------------------------------------------- one item changes

  /** Making an item live keeps closure exactly when its parent is live. */
  lemma ReviveKeepsClosed(f: Entries, p: Path, e: Entry)
    requires PrefixClosed(f) && Closed(f) && p != [] && Front(p) in f && !e.deleted
    ensures Closed(f[p := e]) <==> ParentLive(f, p)
  {
    var g := f[p := e];
    if ParentLive(f, p) {
      forall a, b | a in g && b in g && a != [] && a <= b && g[a].deleted ensures g[b].deleted {
        if b == p {
          ProperPrefix(a, p);
        }
      }
    } else {
      assert Front(p) <= p && Front(p) != p;
      assert Front(p) in g && p in g;
    }
  }

  /** Flagging one item and not what lies below keeps closure exactly when nothing below
      is live. */
  lemma FlagKeepsClosed(f: Entries, p: Path, e: Entry)
    requires Closed(f) && p in f && p != [] && e.deleted
    ensures Closed(f[p := e]) <==> forall q | q in f && p <= q && q != p :: f[q].deleted
  {
    var g := f[p := e];
    if Closed(g) {
      forall q | q in f && p <= q && q != p ensures f[q].deleted {
        assert p in g && q in g && g[p].deleted;
      }
    }
  }

  lemma AddKeepsClosed(f: Entries, p: Path, name: string, realPath: string, kind: Kind, update: bool)
    requires PrefixClosed(f) && Closed(f) && p != []
    requires FlatAdd(f, p, name, realPath, kind, update).Ok?
    ensures Closed(FlatAdd(f, p, name, realPath, kind, update).value) <==> ParentLive(f, p)
  {
    ReviveKeepsClosed(f, p, FlatAdd(f, p, name, realPath, kind, update).value[p]);
  }

  lemma EraseKeepsClosed(f: Entries, p: Path, reallyErase: bool)
    requires Closed(f) && p != [] && FlatErase(f, p, reallyErase).Ok?
    ensures Closed(FlatErase(f, p, reallyErase).value)
    ensures !reallyErase ==> FlatErase(FlatErase(f, p, false).value, p, false) == FlatErase(f, p, false)
  {
    var g := FlatErase(f, p, reallyErase).value;
    forall a, b | a in g && b in g && a != [] && a <= b && g[a].deleted ensures g[b].deleted {
      if p <= a {
        assert p <= b;
      }
    }
    if !reallyErase {
      assert FlatErase(g, p, false).value == g;
    }
  }

  // ------------------------------------------------------------------------ merging

  /** The right operand puts nothing new below a deleted item of the left. */
  ghost predicate NothingNewBelowDeleted(f: Entries, g: Entries) {
    forall p, q | p in f && p != [] && f[p].deleted && q in g && p <= q :: q in f
  }

  lemma MergeKeepsClosed(f: Entries, g: Entries)
    requires PrefixClosed(f) && PrefixClosed(g) && Closed(f) && Closed(g)
    ensures Closed(FlatMerge(f, g)) <==> NothingNewBelowDeleted(f, g)
  {
    if NothingNewBelowDeleted(f, g) {
      forall p, q | p in FlatMerge(f, g) && q in FlatMerge(f, g) && p != [] && p <= q && FlatMerge(f, g)[p].deleted
        ensures FlatMerge(f, g)[q].deleted
      {
        MergedFlag(f, g, p, q);
      }
    } else {
      var p, q :| p in f && p != [] && f[p].deleted && q in g && p <= q && q !in f;
      var top := CopiedTop(f, g, p, q);
      assert p in FlatMerge(f, g) && top in FlatMerge(f, g);
      assert !FlatMerge(f, g)[top].deleted;
    }
  }

  lemma MergedFlag(f: Entries, g: Entries, p: Path, q: Path)
    requires PrefixClosed(f) && PrefixClosed(g) && Closed(f) && Closed(g) && NothingNewBelowDeleted(f, g)
    requires p in FlatMerge(f, g) && q in FlatMerge(f, g) && p != [] && p <= q && MergedEntry(f, g, p).deleted
    ensures MergedEntry(f, g, q).deleted
  {
    if p !in f {
      if q in f {
        PrefixIsPresent(f, p, q);
        assert false;
      }
      if p != q {
        assert p <= Front(q);
        if Front(q) in f {
          PrefixIsPresent(f, p, Front(q));
          assert false;
        }
      }
    }
  }

  /** Between a position the left has and one it lacks lies the top of a copied subtree. */
  lemma CopiedTop(f: Entries, g: Entries, p: Path, q: Path) returns (top: Path)
    requires PrefixClosed(g) && p in f && q in g && q !in f && p <= q
    ensures p <= top && top in g && top !in f && top != [] && Front(top) in f
    decreases |q|
  {
    ProperPrefix(p, q);
    if Front(q) in f {
      top := q;
    } else {
      top := CopiedTop(f, g, p, Front(q));
    }
  }

  lemma {:induction false} MergeAllStaysLive(destination: Node, sources: seq<Node>)
    requires AllLive(Flat(destination)) && forall s | s in sources :: AllLive(Flat(s))
    ensures AllLive(Flat(MergeAll(destination, sources)))
    decreases |sources|
  {
    if sources != [] {
      MergeAllStaysLive(destination, Front(sources));
      MergeRefines(MergeAll(destination, Front(sources)), Last(sources));
      assert Last(sources) in sources;
    }
  }

  lemma CloneKeepsClosed(n: Node)
    requires Closed(Flat(n))
    ensures Closed(Flat(Clone(n)))
  {
    CloneRefines(n);
  }
}
