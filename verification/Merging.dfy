/** Merging trees: what a merge means at every position, its laws, and the last link
    winning over any sequence of merges. */
module Merging {
  import opened Paths
  import opened Nodes
  import opened FlatMap

  /** The merge of two flat maps, position by position. */
  function MergedEntry(f: Entries, g: Entries, p: Path): Entry
    requires p in f || p in g
  {
    var left := if p in f then f[p] else g[p];
    var right := if p in g then g[p] else f[p];
    var copiedTop := p !in f && p != [] && Front(p) in f;
    Entry(right.name, right.realPath, left.kind, left.deleted && !copiedTop)
  }

  function FlatMerge(f: Entries, g: Entries): Entries {
    map p | p in f.Keys + g.Keys :: MergedEntry(f, g, p)
  }

  lemma CloneAt(n: Node, p: Path)
    ensures Has(Clone(n), p) <==> Has(n, p)
    ensures p != [] && Has(n, p) ==> Get(Clone(n), p) == Get(n, p)
  {}

  lemma {:induction false} MergeAt(a: Node, b: Node, p: Path)
    ensures Has(Merge(a, b), p) <==> Has(a, p) || Has(b, p)
    ensures Has(Merge(a, b), p) ==> EntryOf(Get(Merge(a, b), p)) == MergedEntry(Flat(a), Flat(b), p)
    decreases |p|
  {
    if p != [] {
      var k := p[0];
      if k in a.children && k in b.children {
        MergeAt(a.children[k], b.children[k], p[1..]);
        if Has(a, p) || Has(b, p) {
          MergedBelow(a, b, p);
        }
      } else if k in b.children {
        CopiedAt(a, b, p);
      }
    }
  }

  lemma MergedBelow(a: Node, b: Node, p: Path)
    requires p != [] && p[0] in a.children && p[0] in b.children
    requires Has(a, p) || Has(b, p)
    ensures MergedEntry(Flat(a), Flat(b), p) == MergedEntry(Flat(a.children[p[0]]), Flat(b.children[p[0]]), p[1..])
  {
    FlatBelow(a, p);
    FlatBelow(b, p);
  }

  lemma FlatBelow(n: Node, p: Path)
    requires p != [] && p[0] in n.children
    ensures p in Flat(n) <==> p[1..] in Flat(n.children[p[0]])
    ensures p in Flat(n) ==> Flat(n)[p] == Flat(n.children[p[0]])[p[1..]]
    ensures Front(p) in Flat(n) <==> |p| == 1 || Front(p[1..]) in Flat(n.children[p[0]])
  {
    if |p| > 1 {
      assert Front(p)[0] == p[0] && Front(p)[1..] == Front(p[1..]);
    } else {
      assert Front(p) == [];
    }
  }

  lemma CopiedAt(a: Node, b: Node, p: Path)
    requires p != [] && p[0] !in a.children && p[0] in b.children
    ensures Has(Merge(a, b), p) <==> Has(b, p)
    ensures Has(b, p) ==> EntryOf(Get(Merge(a, b), p)) == MergedEntry(Flat(a), Flat(b), p)
  {
    var q := p[1..];
    var copy := Merge(a, b).children[p[0]];
    assert copy == Clone(b.children[p[0]]);
    assert Has(Merge(a, b), p) <==> Has(copy, q);
    CloneAt(b.children[p[0]], q);
    if Has(b, p) {
      assert p !in Flat(a) && p in Flat(b);
      assert Get(Merge(a, b), p) == Get(copy, q);
      assert Front(p) in Flat(a) <==> q == [] by {
        if q != [] {
          assert Front(p)[0] == p[0];
        }
      }
      assert Flat(b)[p] == EntryOf(Get(b.children[p[0]], q));
      assert q == [] ==> Get(copy, q) == copy;
      assert q != [] ==> Get(copy, q) == Get(b.children[p[0]], q);
      assert MergedEntry(Flat(a), Flat(b), p) == Flat(b)[p].(deleted := Flat(b)[p].deleted && q != []);
    }
  }

  /** A merge is the flat merge: the positions are the union, names and real paths come
      from the right, kinds and flags from the left, and of a subtree that only the right
      has, the top is live and the rest keeps its flags. */
  lemma MergeRefines(a: Node, b: Node)
    ensures Flat(Merge(a, b)) == FlatMerge(Flat(a), Flat(b))
  {
    forall p
      ensures p in Flat(Merge(a, b)) <==> p in FlatMerge(Flat(a), Flat(b))
      ensures p in Flat(Merge(a, b)) ==> Flat(Merge(a, b))[p] == MergedEntry(Flat(a), Flat(b), p)
    {
      MergeAt(a, b, p);
    }
  }

  lemma CloneRefines(n: Node)
    ensures Flat(Clone(n)) == Flat(n)[[] := EntryOf(n).(deleted := false)]
  {
    GraftOne(n, [], Clone(n));
  }

  // ------------------------------------------------------------------------ laws

  /** Grouping does not matter, flags included, though some fields lean left, some lean
      right, and copying clears a flag. */
  lemma {:induction false} MergeAssociative(a: Node, b: Node, c: Node)
    ensures Merge(Merge(a, b), c) == Merge(a, Merge(b, c))
  {
    var left, right := Merge(Merge(a, b), c), Merge(a, Merge(b, c));
    forall k | k in left.children ensures left.children[k] == right.children[k] {
      MergedChild(Merge(a, b), c, k);
      MergedChild(a, b, k);
      MergedChild(a, Merge(b, c), k);
      MergedChild(b, c, k);
      if k in a.children && k in b.children && k in c.children {
        MergeAssociative(a.children[k], b.children[k], c.children[k]);
      } else if k in b.children && k in c.children {
        CopyOfMerge(b.children[k], c.children[k]);
      } else if k in a.children && k in c.children {
        CopyOfMerge(a.children[k], c.children[k]);
      }
    }
    assert left.children.Keys == right.children.Keys;
    assert left.children == right.children;
  }

  lemma MergedChild(a: Node, b: Node, k: string)
    ensures k in Merge(a, b).children <==> k in a.children || k in b.children
    ensures k in Merge(a, b).children ==>
              Merge(a, b).children[k] ==
              if k !in b.children then a.children[k]
              else if k !in a.children then Clone(b.children[k])
              else Merge(a.children[k], b.children[k])
  {}

  lemma CopyOfMerge(a: Node, b: Node)
    ensures Merge(Clone(a), b) == Clone(Merge(a, b))
    ensures Merge(a, Clone(b)) == Merge(a, b)
  {
    assert Merge(Clone(a), b).children == Clone(Merge(a, b)).children;
    assert Merge(a, Clone(b)).children == Merge(a, b).children;
  }

  lemma {:induction false} MergeIdempotent(a: Node)
    ensures Merge(a, a) == a
  {
    forall k | k in a.children ensures Merge(a.children[k], a.children[k]) == a.children[k] {
      MergeIdempotent(a.children[k]);
    }
    assert Merge(a, a).children == a.children;
  }

  /** The destination with every source merged onto it in turn. */
  function MergeAll(destination: Node, sources: seq<Node>): Node
    decreases |sources|
  {
    if sources == [] then destination
    else Merge(MergeAll(destination, Front(sources)), Last(sources))
  }

  /** Linking mods one by one is linking the merge of all of them once. */
  lemma {:induction false} MergeAllAtOnce(destination: Node, first: Node, rest: seq<Node>)
    ensures MergeAll(destination, [first] + rest) == Merge(destination, MergeAll(first, rest))
    decreases |rest|
  {
    var all := [first] + rest;
    if rest == [] {
      assert Front(all) == [];
    } else {
      assert Front(all) == [first] + Front(rest);
      MergeAllAtOnce(destination, first, Front(rest));
      MergeAssociative(destination, MergeAll(first, Front(rest)), Last(rest));
    }
  }

  lemma {:induction false} MergeAllCons(destination: Node, first: Node, rest: seq<Node>)
    ensures MergeAll(destination, [first] + rest) == MergeAll(Merge(destination, first), rest)
    decreases |rest|
  {
    var all := [first] + rest;
    if rest == [] {
      assert Front(all) == [];
    } else {
      assert Front(all) == [first] + Front(rest);
      MergeAllCons(destination, first, Front(rest));
    }
  }

  // ---------------------------------------------------------------- last link wins

  /** i is the last source that has position p; -1 when none has. */
  ghost predicate LastWith(sources: seq<Node>, p: Path, i: int) {
    && -1 <= i < |sources|
    && (i >= 0 ==> Has(sources[i], p))
    && forall j | i < j < |sources| :: !Has(sources[j], p)
  }

  function LastSource(sources: seq<Node>, p: Path): (i: int)
    ensures LastWith(sources, p, i)
  {
    if sources == [] then -1
    else if Has(Last(sources), p) then |sources| - 1
    else
      assert forall j | 0 <= j < |sources| - 1 :: Front(sources)[j] == sources[j];
      LastSource(Front(sources), p)
  }

  lemma {:induction false} LastLinkWins(destination: Node, sources: seq<Node>, p: Path, i: int)
    requires LastWith(sources, p, i)
    ensures Has(MergeAll(destination, sources), p) <==> i >= 0 || Has(destination, p)
    ensures Has(MergeAll(destination, sources), p) ==>
      var winner := Get(if i >= 0 then sources[i] else destination, p);
      var item := Get(MergeAll(destination, sources), p);
      item.realPath == winner.realPath && item.name == winner.name
    decreases |sources|
  {
    if sources != [] {
      var earlier, last := Front(sources), Last(sources);
      MergeAt(MergeAll(destination, earlier), last, p);
      if i < |sources| - 1 {
        LastLinkWins(destination, earlier, p, i);
      }
    }
  }

  /** Kind and flag, on the other hand, stay with the first tree that has the position. */
  lemma {:induction false} DestinationKeepsKind(destination: Node, sources: seq<Node>, p: Path)
    requires Has(destination, p)
    ensures Has(MergeAll(destination, sources), p)
    ensures var item := Get(MergeAll(destination, sources), p);
            item.kind == Get(destination, p).kind && item.deleted == Get(destination, p).deleted
    decreases |sources|
  {
    if sources != [] {
      DestinationKeepsKind(destination, Front(sources), p);
      MergeAt(MergeAll(destination, Front(sources)), Last(sources), p);
    }
  }
}
