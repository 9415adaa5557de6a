/** The last link wins: after any run of directory links, a path below a mountpoint
    resolves to the last linked source that contains it, else to the destination's own
    entry. */
module LinkRuns {
  import opened Paths
  import opened Nodes
  import FlatMap
  import opened Merging
  import opened Deletion
  import opened Mounts
  import opened Listing
  import opened Linking
  import DeletionRuns

  function RunLinks(g: Manager, links: seq<DirLink>): Manager
    decreases |links|
  {
    if links == [] then g else RunLinks(LinkDirectory(g, links[0]).0, links[1..])
  }

  /** The source trees that the run has linked at a mountpoint, in order. */
  function Sources(g: Manager, links: seq<DirLink>, mountpoint: string): seq<Node>
    decreases |links|
  {
    if links == [] then []
    else
      var (g', reply) := LinkDirectory(g, links[0]);
      var rest := Sources(g', links[1..], mountpoint);
      if reply == Linked && links[0].destination == mountpoint then [SourceScan(links[0]).value.tree] + rest else rest
  }

  lemma IndexAfterAppend(mounts: seq<Mount>, m: Mount, mountpoint: string)
    ensures IndexOf(mounts + [m], mountpoint) ==
            if IndexOf(mounts, mountpoint) >= 0 then IndexOf(mounts, mountpoint)
            else if m.mountpoint == mountpoint then |mounts| else -1
  {
    assert Front(mounts + [m]) == mounts;
  }

  lemma IndexAfterUpdate(mounts: seq<Mount>, i: nat, m: Mount, mountpoint: string)
    requires i < |mounts| && m.mountpoint == mounts[i].mountpoint
    ensures IndexOf(mounts[i := m], mountpoint) == IndexOf(mounts, mountpoint)
  {
    var a, b := IndexOf(mounts[i := m], mountpoint), IndexOf(mounts, mountpoint);
    assert forall j | 0 <= j < |mounts| :: mounts[i := m][j].mountpoint == mounts[j].mountpoint;
    if 0 <= a {
      assert mounts[a].mountpoint == mountpoint;
    }
    if 0 <= b {
      assert mounts[i := m][b].mountpoint == mountpoint;
    }
  }

  /** The tree that one link leaves at a mountpoint that has one already. */
  lemma LinkOntoExisting(g: Manager, r: DirLink, mountpoint: string)
    requires IndexOf(g.pending, mountpoint) >= 0
    ensures var (g', reply) := LinkDirectory(g, r);
            && IndexOf(g'.pending, mountpoint) == IndexOf(g.pending, mountpoint)
            && g'.pending[IndexOf(g.pending, mountpoint)].tree ==
                 if reply == Linked && r.destination == mountpoint
                 then Merge(g.pending[IndexOf(g.pending, mountpoint)].tree, SourceScan(r).value.tree)
                 else g.pending[IndexOf(g.pending, mountpoint)].tree
  {
    if SourceScan(r).Some? {
      var s, i := SourceScan(r).value, IndexOf(g.pending, r.destination);
      if i >= 0 {
        IndexAfterUpdate(g.pending, i,
                         g.pending[i].(tree := Merge(g.pending[i].tree, s.tree), fds := g.pending[i].fds + s.fds),
                         mountpoint);
      } else if CreateFileTree(r.destination, s.fds, r.destinationListing, r.unopenable).Some? {
        var d := CreateFileTree(r.destination, s.fds, r.destinationListing, r.unopenable).value;
        IndexAfterAppend(g.pending, Mount(Merge(d.tree, s.tree), d.fds, r.destination, ""), mountpoint);
      }
    }
  }

  lemma {:induction false} LinksOntoExisting(g: Manager, links: seq<DirLink>, mountpoint: string)
    requires IndexOf(g.pending, mountpoint) >= 0
    ensures var i := IndexOf(g.pending, mountpoint);
            && IndexOf(RunLinks(g, links).pending, mountpoint) == i
            && RunLinks(g, links).pending[i].tree == MergeAll(g.pending[i].tree, Sources(g, links, mountpoint))
    decreases |links|
  {
    if links != [] {
      var (g', reply) := LinkDirectory(g, links[0]);
      LinkOntoExisting(g, links[0], mountpoint);
      LinksOntoExisting(g', links[1..], mountpoint);
      if reply == Linked && links[0].destination == mountpoint {
        MergeAllCons(g.pending[IndexOf(g.pending, mountpoint)].tree, SourceScan(links[0]).value.tree,
                     Sources(g', links[1..], mountpoint));
      }
    }
  }

  /** The destination tree that the first successful link to a mountpoint found on disk. */
  function DestinationTree(g: Manager, links: seq<DirLink>, mountpoint: string): Option<Node>
    decreases |links|
  {
    if links == [] then None
    else
      var (g', reply) := LinkDirectory(g, links[0]);
      if reply == Linked && links[0].destination == mountpoint then
        match CreateFileTree(mountpoint, SourceScan(links[0]).value.fds, links[0].destinationListing,
                             links[0].unopenable)
        case None => None
        case Some(d) => Some(d.tree)
      else DestinationTree(g', links[1..], mountpoint)
  }

  lemma FirstLink(g: Manager, r: DirLink, mountpoint: string)
    requires IndexOf(g.pending, mountpoint) < 0
    ensures var (g', reply) := LinkDirectory(g, r);
            if reply == Linked && r.destination == mountpoint then
              && IndexOf(g'.pending, mountpoint) >= 0
              && SourceScan(r).Some?
              && var d := CreateFileTree(mountpoint, SourceScan(r).value.fds, r.destinationListing, r.unopenable);
                 && d.Some?
                 && g'.pending[IndexOf(g'.pending, mountpoint)].tree == Merge(d.value.tree, SourceScan(r).value.tree)
            else IndexOf(g'.pending, mountpoint) < 0
  {
    if SourceScan(r).Some? {
      var s, i := SourceScan(r).value, IndexOf(g.pending, r.destination);
      if i >= 0 {
        IndexAfterUpdate(g.pending, i,
                         g.pending[i].(tree := Merge(g.pending[i].tree, s.tree), fds := g.pending[i].fds + s.fds),
                         mountpoint);
      } else if CreateFileTree(r.destination, s.fds, r.destinationListing, r.unopenable).Some? {
        var d := CreateFileTree(r.destination, s.fds, r.destinationListing, r.unopenable).value;
        IndexAfterAppend(g.pending, Mount(Merge(d.tree, s.tree), d.fds, r.destination, ""), mountpoint);
      }
    }
  }

  /** A mountpoint is pending after a run exactly when some link to it succeeded, and its
      tree is then the destination with all linked sources merged onto it in order. */
  lemma {:induction false} LinksFromScratch(g: Manager, links: seq<DirLink>, mountpoint: string)
    requires IndexOf(g.pending, mountpoint) < 0
    ensures var i := IndexOf(RunLinks(g, links).pending, mountpoint);
            && (i >= 0 <==> Sources(g, links, mountpoint) != [])
            && (i >= 0 ==>
                 && DestinationTree(g, links, mountpoint).Some?
                 && RunLinks(g, links).pending[i].tree ==
                    MergeAll(DestinationTree(g, links, mountpoint).value, Sources(g, links, mountpoint)))
    decreases |links|
  {
    if links != [] {
      var (g', reply) := LinkDirectory(g, links[0]);
      FirstLink(g, links[0], mountpoint);
      if reply == Linked && links[0].destination == mountpoint {
        var d := DestinationTree(g, links, mountpoint).value;
        LinksOntoExisting(g', links[1..], mountpoint);
        MergeAllCons(d, SourceScan(links[0]).value.tree, Sources(g', links[1..], mountpoint));
      } else {
        LinksFromScratch(g', links[1..], mountpoint);
      }
    }
  }

  // ------------------------------------------------------------------------ resolution

  lemma {:induction false} SourcesAreLive(g: Manager, links: seq<DirLink>, mountpoint: string)
    ensures forall s | s in Sources(g, links, mountpoint) :: AllLive(Flat(s))
    ensures DestinationTree(g, links, mountpoint).Some? ==> AllLive(Flat(DestinationTree(g, links, mountpoint).value))
    decreases |links|
  {
    if links != [] {
      var r := links[0];
      SourcesAreLive(LinkDirectory(g, r).0, links[1..], mountpoint);
      if SourceScan(r).Some? {
        var s := SourceScan(r).value;
        DeletionRuns.CreatedIsLive(r.source, map[], r.listing, r.unopenable);
        DeletionRuns.CreatedIsLive(mountpoint, s.fds, r.destinationListing, r.unopenable);
      }
    }
  }

  /** What find answers below a mountpoint after any run of directory links, to it and to
      others, successful or not: the item of the last linked source that has the position,
      else the destination's own, else nothing. */
  lemma LastLinkWinsOverRuns(links: seq<DirLink>, mountpoint: string, path: string)
    requires Position(path) != []
    ensures var start, p := Manager([], [], ""), Position(path);
            var sources, g := Sources(start, links, mountpoint), RunLinks(start, links);
            var i, last := IndexOf(g.pending, mountpoint), LastSource(sources, p);
            sources != [] ==>
              && i >= 0 && DestinationTree(start, links, mountpoint).Some?
              && var winner := if last >= 0 then sources[last] else DestinationTree(start, links, mountpoint).value;
                 match FindNode(g.pending[i].tree, p, false)
                 case Ok(item) =>
                   Has(winner, p) && item.realPath == Get(winner, p).realPath && item.name == Get(winner, p).name
                 case Err(_) => !Has(winner, p)
  {
    var start, p := Manager([], [], ""), Position(path);
    var sources := Sources(start, links, mountpoint);
    LinksFromScratch(start, links, mountpoint);
    SourcesAreLive(start, links, mountpoint);
    if sources != [] {
      var d := DestinationTree(start, links, mountpoint).value;
      MergeAllStaysLive(d, sources);
      LastLinkWins(d, sources, p, LastSource(sources, p));
      assert Has(MergeAll(d, sources), p) <==> p in Flat(MergeAll(d, sources));
    }
  }

  // ------------------------------------------------------------------------ file links

  /** A file link into a pending mount never replaces a live item. */
  lemma FileLinkIntoNeverReplaces(m: Mount, r: FileLink, p: Path)
    requires p in Flat(m.tree) && !Flat(m.tree)[p].deleted
    ensures p in Flat(LinkFileInto(m, r).0.tree) && Flat(LinkFileInto(m, r).0.tree)[p] == Flat(m.tree)[p]
  {
    if AddText(m.tree, FileName(r.destination), r.source, File, false).Ok? {
      var q := AddPosition(FileName(r.destination));
      FlatMap.AddRefines(m.tree, q, Last(AddSplit(Strip(FileName(r.destination)))), r.source, File, false);
    }
  }

  /** A file link that makes a mount always puts the file over whatever the destination has. */
  lemma FileMountAlwaysReplaces(r: FileLink)
    ensures FileMount(r).0.Some? ==>
              var f, p := Flat(FileMount(r).0.value.tree), AddPosition(FileName(r.destination));
              p in f && f[p].realPath == r.source && !f[p].deleted
  {
    if FileFds(r).Some? {
      var name, directory := FileName(r.destination), ParentPath(r.destination);
      var d := CreateFileTree(directory, FileFds(r).value, r.destinationListing, r.unopenable);
      if d.Some? && AddText(d.value.tree, name, r.source, File, true).Ok? {
        var e := Coverage.AddTextEntry(d.value.tree, name, r.source, File, true);
      }
    }
  }
}
