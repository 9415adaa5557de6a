/** Keys and display names agree up to case in every operation, so the path that an item
    spells by climbing to the root leads find back to that item. */
module Names {
  import opened Paths
  import opened Nodes
  import opened FlatMap
  import Merging

  ghost predicate NamesOk(f: Entries) {
    forall p | p in f && p != [] :: SegmentOk(f[p].name) && ToLower(f[p].name) == Last(p)
  }

  lemma OneEntryKeepsNames(f: Entries, p: Path, e: Entry)
    requires NamesOk(f)
    requires p != [] ==> SegmentOk(e.name) && ToLower(e.name) == Last(p)
    ensures NamesOk(f[p := e])
  {}

  lemma EraseKeepsNames(f: Entries, p: Path, reallyErase: bool)
    requires NamesOk(f) && p != [] && FlatErase(f, p, reallyErase).Ok?
    ensures NamesOk(FlatErase(f, p, reallyErase).value)
  {}

  lemma MergeKeepsNames(f: Entries, g: Entries)
    requires NamesOk(f) && NamesOk(g)
    ensures NamesOk(Merging.FlatMerge(f, g))
  {}

  // ------------------------------------------------------------ the spelled path

  /** The display names on the way down to a position. */
  function Spelling(n: Node, p: Path): Path
    requires Has(n, p)
    decreases |p|
  {
    if p == [] then []
    else
      HasFront(n, p);
      Spelling(n, Front(p)) + [Get(n, p).name]
  }

  /** What filePath answers: it climbs, so the last name comes last. */
  function SpelledPath(n: Node, p: Path): string
    requires Has(n, p)
    decreases |p|
  {
    if p == [] then ""
    else
      HasFront(n, p);
      SpelledPath(n, Front(p)) + "/" + Get(n, p).name
  }

  /** Segment by segment, the spelling has the stored names. */
  lemma {:induction false} SpellingAt(n: Node, p: Path, i: nat)
    requires Has(n, p) && i < |p|
    ensures |Spelling(n, p)| == |p| && Has(n, p[..i + 1]) && Spelling(n, p)[i] == Get(n, p[..i + 1]).name
    decreases |p|
  {
    HasFront(n, p);
    if i < |p| - 1 {
      assert Front(p)[..i + 1] == p[..i + 1];
      SpellingAt(n, Front(p), i);
    } else {
      assert p[..i + 1] == p;
      if |p| > 1 {
        SpellingAt(n, Front(p), 0);
      }
    }
  }

  lemma {:induction false} SpelledPathIsAbsolute(n: Node, p: Path)
    requires Has(n, p)
    ensures SpelledPath(n, p) == Absolute(Spelling(n, p))
    decreases |p|
  {
    if p != [] {
      HasFront(n, p);
      SpelledPathIsAbsolute(n, Front(p));
      AbsoluteSnoc(Spelling(n, Front(p)), Get(n, p).name);
    }
  }

  lemma {:induction false} SpellingFolds(n: Node, p: Path)
    requires NamesOk(Flat(n)) && Has(n, p)
    ensures SegmentsOk(Spelling(n, p)) && FoldAll(Spelling(n, p)) == p
    decreases |p|
  {
    if p != [] {
      HasFront(n, p);
      SpellingFolds(n, Front(p));
      assert p in Flat(n);
      FoldAllConcat(Spelling(n, Front(p)), [Get(n, p).name]);
      assert FoldAll([Get(n, p).name]) == [Last(p)];
      assert p == Front(p) + [Last(p)];
    }
  }

  /** The spelled path names the position it was spelled from, so distinct positions are
      spelled apart. */
  lemma SpelledPathNamesItem(n: Node, p: Path)
    requires NamesOk(Flat(n)) && Has(n, p)
    ensures Position(SpelledPath(n, p)) == p
  {
    SpelledPathIsAbsolute(n, p);
    SpellingFolds(n, p);
    SegmentsOfAbsolute(Spelling(n, p));
  }

  /** Found by any spelling of a rooted path, the item spells that path back up to case. */
  lemma SpelledPathUpToCase(n: Node, path: string)
    requires NamesOk(Flat(n)) && Rooted(path) && path != "/" && Has(n, Position(path))
    ensures ToLower(SpelledPath(n, Position(path))) == ToLower(path)
  {
    var p := Position(path);
    SpelledPathIsAbsolute(n, p);
    SpellingFolds(n, p);
    AbsoluteFold(Spelling(n, p));
    AbsoluteFold(Segments(path));
    AbsoluteOfSegments(path);
  }
}
