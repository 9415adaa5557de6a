/** What find answers below a mountpoint, computed from the listings and file links of a run
    alone: directory links override, file links fill in or, as the first link, override. */
module LinkAnswers {
  import opened Paths
  import opened Nodes
  import opened FlatMap
  import opened Merging
  import opened Deletion
  import opened Mounts
  import opened Listing
  import opened Linking
  import DeletionRuns
  import LinkRuns
  import LinkReplies

  type RealPaths = map<Path, string>

  function RealPathsOf(f: Entries): RealPaths {
    map p | p in f :: f[p].realPath
  }

  function ListedPaths(directory: string, listing: seq<DirEntry>): RealPaths {
    RealPathsOf(Described(directory, listing))
  }

  /** The real paths pending at a mountpoint after one operation. */
  ghost function Answers(before: Option<RealPaths>, op: Op, mountpoint: string): Option<RealPaths> {
    match op
    case LinkDirectoryOp(r) =>
      if r.destination != mountpoint || !ScanOpens(r.source, r.listing, r.unopenable) then before
      else if before.Some? then Some(before.value + ListedPaths(r.source, r.listing))
      else if !ScanOpens(r.destination, r.destinationListing, r.unopenable) then None
      else Some(ListedPaths(r.destination, r.destinationListing) + ListedPaths(r.source, r.listing))
    case LinkFileOp(r) =>
      var name := FileName(r.destination);
      if r.skipped || DirectoryOf(r.destination) != mountpoint then before
      else if before.None? then
        if FileOpens(r)
        then Some(ListedPaths(ParentPath(r.destination), r.destinationListing)[[ToLower(name)] := r.source])
        else None
      else if name == "" || r.source == "" || [ToLower(name)] in before.value then before
      else Some(before.value[[ToLower(name)] := r.source])
    case ClearOp => None
    case MountOp(_, _) => None
    case SetUpperDirOp(_) => before
    case HandleOp(_, _) => before
  }

  ghost function AnswersAll(before: Option<RealPaths>, ops: seq<Op>, mountpoint: string): Option<RealPaths>
    decreases |ops|
  {
    if ops == [] then before else AnswersAll(Answers(before, ops[0], mountpoint), ops[1..], mountpoint)
  }

  // ------------------------------------------------------------------------- one step

  /** The real paths pending at the mountpoint. */
  function Pending(g: Manager, mountpoint: string): Option<RealPaths> {
    var i := IndexOf(g.pending, mountpoint);
    if i < 0 then None else Some(RealPathsOf(Flat(g.pending[i].tree)))
  }

  lemma MergedPaths(f: Entries, g: Entries)
    ensures RealPathsOf(FlatMerge(f, g)) == RealPathsOf(f) + RealPathsOf(g)
  {}

  lemma UpdatedPaths(g: Manager, i: nat, m: Mount, mountpoint: string)
    requires i < |g.pending| && m.mountpoint == g.pending[i].mountpoint && IndexOf(g.pending, m.mountpoint) == i
    ensures Pending(g.(pending := g.pending[i := m]), mountpoint) ==
            if m.mountpoint == mountpoint then Some(RealPathsOf(Flat(m.tree))) else Pending(g, mountpoint)
  {
    LinkRuns.IndexAfterUpdate(g.pending, i, m, mountpoint);
  }

  lemma AppendedPaths(g: Manager, m: Mount, mountpoint: string)
    requires IndexOf(g.pending, m.mountpoint) < 0
    ensures Pending(g.(pending := g.pending + [m]), mountpoint) ==
            if m.mountpoint == mountpoint then Some(RealPathsOf(Flat(m.tree))) else Pending(g, mountpoint)
  {
    LinkRuns.IndexAfterAppend(g.pending, m, mountpoint);
  }

  lemma LinkDirectoryAnswers(g: Manager, r: DirLink, mountpoint: string)
    requires Listable(r.listing) && Listable(r.destinationListing)
    ensures Pending(LinkDirectory(g, r).0, mountpoint) ==
            Answers(Pending(g, mountpoint), LinkDirectoryOp(r), mountpoint)
  {
    CreatedTree(r.source, map[], r.listing, r.unopenable);
    if SourceScan(r).Some? {
      var s, i := SourceScan(r).value, IndexOf(g.pending, r.destination);
      if i >= 0 {
        var m := g.pending[i];
        MergeRefines(m.tree, s.tree);
        MergedPaths(Flat(m.tree), Flat(s.tree));
        UpdatedPaths(g, i, m.(tree := Merge(m.tree, s.tree), fds := m.fds + s.fds), mountpoint);
      } else {
        CreatedTree(r.destination, s.fds, r.destinationListing, r.unopenable);
        var d := CreateFileTree(r.destination, s.fds, r.destinationListing, r.unopenable);
        if d.Some? {
          MergeRefines(d.value.tree, s.tree);
          MergedPaths(Flat(d.value.tree), Flat(s.tree));
          AppendedPaths(g, Mount(Merge(d.value.tree, s.tree), d.value.fds, r.destination, ""), mountpoint);
        }
      }
    }
  }

  lemma LinkFileAnswers(g: Manager, r: FileLink, mountpoint: string)
    requires DeletionRuns.PendingLive(g) && Listable(r.destinationListing)
    ensures Pending(LinkFile(g, r).0, mountpoint) == Answers(Pending(g, mountpoint), LinkFileOp(r), mountpoint)
  {
    var i := IndexOf(g.pending, DirectoryOf(r.destination));
    if !r.skipped && i >= 0 {
      UpdatedPaths(g, i, LinkFileInto(g.pending[i], r).0, mountpoint);
      FileIntoAnswers(g.pending[i], r);
    } else if !r.skipped {
      FileMountEntries(r);
      if FileMount(r).0.Some? {
        AppendedPaths(g, FileMount(r).0.value, mountpoint);
        FileMountAnswers(r);
      }
    }
  }

  lemma FileIntoAnswers(m: Mount, r: FileLink)
    requires AllLive(Flat(m.tree))
    ensures var x, name := RealPathsOf(Flat(m.tree)), FileName(r.destination);
            RealPathsOf(Flat(LinkFileInto(m, r).0.tree)) ==
            if name == "" || r.source == "" || [ToLower(name)] in x then x else x[[ToLower(name)] := r.source]
  {
    var f, name := Flat(m.tree), FileName(r.destination);
    var p := [ToLower(name)];
    assert p in f ==> !f[p].deleted;
    LinkReplies.FileIntoAdds(m, r);
    if !FileRefused(m, r) {
      OnePath(f, p, Flat(LinkFileInto(m, r).0.tree)[p]);
    }
  }

  lemma OnePath(f: Entries, p: Path, e: Entry)
    ensures RealPathsOf(f[p := e]) == RealPathsOf(f)[p := e.realPath]
  {}

  lemma FileMountAnswers(r: FileLink)
    requires Listable(r.destinationListing) && FileMount(r).0.Some?
    ensures RealPathsOf(Flat(FileMount(r).0.value.tree)) ==
            ListedPaths(ParentPath(r.destination), r.destinationListing)[[ToLower(FileName(r.destination))] := r.source]
  {
    FileMountEntries(r);
  }

  lemma StepAnswers(g: Manager, op: Op, mountpoint: string)
    requires DeletionRuns.PendingLive(g) && OpListed(op)
    ensures Pending(Step(g, op), mountpoint) == Answers(Pending(g, mountpoint), op, mountpoint)
  {
    match op
    case LinkDirectoryOp(r) => LinkDirectoryAnswers(g, r, mountpoint);
    case LinkFileOp(r) => LinkFileAnswers(g, r, mountpoint);
    case SetUpperDirOp(_) =>
    case ClearOp =>
    case MountOp(_, _) =>
    case HandleOp(_, _) =>
  }

  // ------------------------------------------------------------------------- all runs

  lemma {:induction false} RunAnswers(g: Manager, ops: seq<Op>, mountpoint: string)
    requires DeletionRuns.PendingLive(g) && forall op | op in ops :: OpListed(op)
    ensures DeletionRuns.PendingLive(Run(g, ops))
    ensures Pending(Run(g, ops), mountpoint) == AnswersAll(Pending(g, mountpoint), ops, mountpoint)
    decreases |ops|
  {
    if ops != [] {
      assert OpListed(ops[0]);
      StepAnswers(g, ops[0], mountpoint);
      DeletionRuns.StepStaysLive(g, ops[0]);
      RunAnswers(Step(g, ops[0]), ops[1..], mountpoint);
    }
  }

  /** find on m answers what x says, and only that. */
  ghost predicate AnswersAre(m: Mount, x: RealPaths, path: string) {
    match FindNode(m.tree, Position(path), false)
    case Ok(item) => Position(path) in x && item.realPath == x[Position(path)]
    case Err(_) => Position(path) !in x
  }

  /** Over every run from the empty manager, of any operations: a mountpoint is pending exactly
      when the inputs say so; then find on it answers exactly the real paths that the inputs
      say; and if the pending list is mounted up to it, so does find on the active mount. */
  lemma FindAnswersOverRuns(upperDir: string, ops: seq<Op>, mountpoint: string, path: string, mountable: nat)
    requires Position(path) != [] && forall op | op in ops :: OpListed(op)
    ensures var g, x := Run(Manager([], [], upperDir), ops), AnswersAll(None, ops, mountpoint);
            var i, mounted := IndexOf(g.pending, mountpoint), MountPending(g, true, mountable).0;
            && (i >= 0 <==> x.Some?)
            && (i >= 0 ==> AnswersAre(g.pending[i], x.value, path))
            && (0 <= i < mountable ==>
                  && |mounted.active| > |g.active| + i && mounted.active[|g.active| + i].mountpoint == mountpoint
                  && AnswersAre(mounted.active[|g.active| + i], x.value, path))
  {
    var start := Manager([], [], upperDir);
    RunAnswers(start, ops, mountpoint);
    var g := Run(start, ops);
    var i := IndexOf(g.pending, mountpoint);
    if i >= 0 {
      PathsAnswer(g.pending[i], path);
      if i < mountable {
        MountedKeepsTree(g, i, mountable);
      }
    }
  }

  lemma PathsAnswer(m: Mount, path: string)
    requires AllLive(Flat(m.tree)) && Position(path) != []
    ensures AnswersAre(m, RealPathsOf(Flat(m.tree)), path)
  {
    FindRefines(m.tree, Position(path), false);
  }

  lemma MountedKeepsTree(g: Manager, i: nat, mountable: nat)
    requires i < |g.pending| && i < mountable
    ensures var mounted, k := MountPending(g, true, mountable).0, |g.active|;
            && |mounted.active| > k + i && mounted.active[k + i].mountpoint == g.pending[i].mountpoint
            && mounted.active[k + i].tree == g.pending[i].tree
  {
    LinkReplies.MountPendingReplies(g, true, mountable);
  }

  // --------------------------------------------------------------------- last link wins

  /** Neither ends the pending mount nor links a directory there that has the position. */
  ghost predicate LeavesAlone(op: Op, mountpoint: string, p: Path) {
    match op
    case LinkDirectoryOp(r) => r.destination == mountpoint ==> p !in ListedPositions(r.listing)
    case LinkFileOp(_) => true
    case SetUpperDirOp(_) => true
    case ClearOp => false
    case MountOp(_, _) => false
    case HandleOp(_, _) => true
  }

  lemma ListedPathsAt(directory: string, listing: seq<DirEntry>, p: Path)
    requires p != []
    ensures p in ListedPaths(directory, listing) <==> p in ListedPositions(listing)
  {
    DescribedPositions(directory, listing, p);
    if p in ListedPositions(listing) {
      var e :| e in listing && e.Position() == p;
      var i :| 0 <= i < |listing| && listing[i] == e;
    }
  }

  lemma {:induction false} AnswerStays(x: RealPaths, ops: seq<Op>, mountpoint: string, p: Path)
    requires p != [] && p in x && forall op | op in ops :: LeavesAlone(op, mountpoint, p)
    ensures var y := AnswersAll(Some(x), ops, mountpoint); y.Some? && p in y.value && y.value[p] == x[p]
    decreases |ops|
  {
    if ops != [] {
      var op := ops[0];
      assert LeavesAlone(op, mountpoint, p);
      if op.LinkDirectoryOp? {
        ListedPathsAt(op.dirLink.source, op.dirLink.listing, p);
      }
      AnswerStays(Answers(Some(x), op, mountpoint).value, ops[1..], mountpoint, p);
    }
  }

  lemma {:induction false} AnswersSplit(before: Option<RealPaths>, ops: seq<Op>, more: seq<Op>, mountpoint: string)
    ensures AnswersAll(before, ops + more, mountpoint) ==
            AnswersAll(AnswersAll(before, ops, mountpoint), more, mountpoint)
    decreases |ops|
  {
    if ops == [] {
      assert ops + more == more;
    } else {
      assert (ops + more)[1..] == ops[1..] + more;
      AnswersSplit(Answers(before, ops[0], mountpoint), ops[1..], more, mountpoint);
    }
  }

  /** The last directory link to the mountpoint that lists an entry at a position decides: find
      answers with that entry's own path on disk, whatever was linked before, and whatever
      files are linked afterwards. */
  lemma LastListedWins(upperDir: string, earlier: seq<Op>, r: DirLink, later: seq<Op>, e: DirEntry, path: string)
    requires var ops := earlier + [LinkDirectoryOp(r)] + later; forall op | op in ops :: OpListed(op)
    requires e in r.listing && Position(path) == e.Position() && ScanOpens(r.source, r.listing, r.unopenable)
    requires || IndexOf(Run(Manager([], [], upperDir), earlier).pending, r.destination) >= 0
             || ScanOpens(r.destination, r.destinationListing, r.unopenable)
    requires forall op | op in later :: LeavesAlone(op, r.destination, e.Position())
    ensures var g := Run(Manager([], [], upperDir), earlier + [LinkDirectoryOp(r)] + later);
            var i := IndexOf(g.pending, r.destination);
            && i >= 0 && FindNode(g.pending[i].tree, Position(path), false).Ok?
            && FindNode(g.pending[i].tree, Position(path), false).value.realPath ==
               (if EndsWithSlash(r.source) then Front(r.source) else r.source) + Absolute(e.Relative())
  {
    var ops := earlier + [LinkDirectoryOp(r)] + later;
    assert forall op | op in earlier :: op in ops;
    assert IndexOf(Run(Manager([], [], upperDir), earlier).pending, r.destination) >= 0 <==>
           AnswersAll(None, earlier, r.destination).Some? by {
      RunAnswers(Manager([], [], upperDir), earlier, r.destination);
    }
    LastListedAnswers(earlier, r, later, e);
    EntryPathIs(r.source, e.Relative());
    FindAnswersOverRuns(upperDir, ops, r.destination, path, 0);
  }

  lemma LastListedAnswers(earlier: seq<Op>, r: DirLink, later: seq<Op>, e: DirEntry)
    requires e in r.listing && ScanOpens(r.source, r.listing, r.unopenable)
    requires || AnswersAll(None, earlier, r.destination).Some?
             || ScanOpens(r.destination, r.destinationListing, r.unopenable)
    requires forall op | op in later :: LeavesAlone(op, r.destination, e.Position())
    ensures var x := AnswersAll(None, earlier + [LinkDirectoryOp(r)] + later, r.destination);
            x.Some? && e.Position() in x.value && x.value[e.Position()] == EntryPath(r.source, e.Relative())
  {
    var op, before := LinkDirectoryOp(r), AnswersAll(None, earlier, r.destination);
    LinkedPath(before, r, e);
    AnswerStays(Answers(before, op, r.destination).value, later, r.destination, e.Position());
    AnswersSplit(None, earlier, [op] + later, r.destination);
    assert earlier + ([op] + later) == earlier + [op] + later && ([op] + later)[1..] == later;
  }

  lemma LinkedPath(before: Option<RealPaths>, r: DirLink, e: DirEntry)
    requires e in r.listing && ScanOpens(r.source, r.listing, r.unopenable)
    requires before.Some? || ScanOpens(r.destination, r.destinationListing, r.unopenable)
    ensures var x := Answers(before, LinkDirectoryOp(r), r.destination);
            x.Some? && e.Position() in x.value && x.value[e.Position()] == EntryPath(r.source, e.Relative())
  {
    var i :| 0 <= i < |r.listing| && r.listing[i] == e;
    DescribedEntry(r.source, r.listing, i);
  }
}
