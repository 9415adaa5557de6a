/** What linking and mounting answer, and which mount a file link goes to. */
module LinkReplies {
  import opened Paths
  import opened Nodes
  import opened Mounts
  import opened Listing
  import opened Linking
  import Coverage

  // -------------------------------------------------------------- where a file link goes

  predicate Slashes(s: string) {
    s != "" && forall i | 0 <= i < |s| :: s[i] == '/'
  }

  lemma {:induction false} DropSlashesBehind(directory: string, slashes: string)
    requires (directory == "" || !EndsWithSlash(directory)) && (slashes == "" || Slashes(slashes))
    ensures DropSlashes(directory + slashes) == directory
    decreases |slashes|
  {
    if slashes == "" {
      assert directory + slashes == directory;
    } else {
      assert Front(directory + slashes) == directory + Front(slashes);
      DropSlashesBehind(directory, Front(slashes));
    }
  }

  /** Directory text, any number of slashes, and a name without one. */
  lemma DirectoryOfText(directory: string, slashes: string, name: string)
    requires (directory == "" || !EndsWithSlash(directory)) && Slashes(slashes) && NoSlash(name)
    ensures DirectoryOf(directory + slashes + name) == (if directory == "" then "/" else directory)
    ensures FileName(directory + slashes + name) == name
  {
    var path, before := directory + slashes + name, directory + Front(slashes);
    assert path == before + "/" + name by {
      assert slashes == Front(slashes) + "/";
    }
    ParentOfJoin(before, name);
    LastSlashIs(path, |before|) by {
      assert path[|before|] == '/' && path[|before| + 1..] == name;
    }
    DropSlashesBehind(directory, Front(slashes));
  }

  lemma DirectoryOfBareName(name: string)
    requires NoSlash(name)
    ensures DirectoryOf(name) == "" && FileName(name) == name
  {}

  /** No pending mount but the one at the mountpoint is touched, or else one is appended. */
  ghost predicate GoesTo(g: Manager, g': Manager, mountpoint: string) {
    && g'.active == g.active && g'.upperDir == g.upperDir
    && if forall m | m in g.pending :: m.mountpoint != mountpoint
       then g' == g || (|g'.pending| == |g.pending| + 1 && g'.pending[..|g.pending|] == g.pending
                        && g'.pending[|g.pending|].mountpoint == mountpoint)
       else |g'.pending| == |g.pending| && forall j | 0 <= j < |g.pending| ::
              && g'.pending[j].mountpoint == g.pending[j].mountpoint
              && (g.pending[j].mountpoint == mountpoint || g'.pending[j] == g.pending[j])
  }

  lemma LinkGoesTo(g: Manager, r: FileLink)
    ensures GoesTo(g, LinkFile(g, r).0, DirectoryOf(r.destination))
  {
    var mountpoint, g' := DirectoryOf(r.destination), LinkFile(g, r).0;
    var i := IndexOf(g.pending, mountpoint);
    if i >= 0 {
      assert g.pending[i] in g.pending;
    } else {
      assert forall m | m in g.pending :: m.mountpoint != mountpoint;
    }
  }

  /** A file linked to "directory/name", with any number of slashes between, joins the pending
      mount at the directory, spelled so, or else makes one there. */
  lemma FileLinkGoesTo(g: Manager, r: FileLink, directory: string, slashes: string, name: string)
    requires (directory == "" || !EndsWithSlash(directory)) && Slashes(slashes) && NoSlash(name)
    requires r.destination == directory + slashes + name
    ensures GoesTo(g, LinkFile(g, r).0, if directory == "" then "/" else directory)
  {
    DirectoryOfText(directory, slashes, name);
    LinkGoesTo(g, r);
  }

  /** What it adds to a pending mount: the named item, live, with the path of the file; a file if
      it is new. */
  lemma FileLinkAdds(g: Manager, r: FileLink)
    requires !r.skipped && IndexOf(g.pending, DirectoryOf(r.destination)) >= 0
    ensures var i, p := IndexOf(g.pending, DirectoryOf(r.destination)), [ToLower(FileName(r.destination))];
            var f, f' := Flat(g.pending[i].tree), Flat(LinkFile(g, r).0.pending[i].tree);
            if FileRefused(g.pending[i], r) then f' == f
            else
              && p in f' && f' == f[p := f'[p]] && f'[p].realPath == r.source && !f'[p].deleted
              && (p !in f ==> f'[p].name == FileName(r.destination) && f'[p].kind == File)
  {
    var i := IndexOf(g.pending, DirectoryOf(r.destination));
    assert LinkFile(g, r).0.pending[i] == LinkFileInto(g.pending[i], r).0;
    FileIntoAdds(g.pending[i], r);
  }

  lemma FileIntoAdds(m: Mount, r: FileLink)
    ensures var f, f', p := Flat(m.tree), Flat(LinkFileInto(m, r).0.tree), [ToLower(FileName(r.destination))];
            if FileRefused(m, r) then f' == f
            else
              && p in f' && f' == f[p := f'[p]] && f'[p].realPath == r.source && !f'[p].deleted
              && (p !in f ==> f'[p].name == FileName(r.destination) && f'[p].kind == File)
  {
    FileRefusedIff(m, r);
    if !FileRefused(m, r) {
      FileNamePosition(FileName(r.destination));
      var e := Coverage.AddTextEntry(m.tree, FileName(r.destination), r.source, File, false);
      assert Flat(LinkFileInto(m, r).0.tree)[[ToLower(FileName(r.destination))]] == e;
    }
  }

  lemma BareLinkGoesTo(g: Manager, r: FileLink)
    requires NoSlash(r.destination)
    ensures GoesTo(g, LinkFile(g, r).0, "")
  {
    DirectoryOfBareName(r.destination);
    LinkGoesTo(g, r);
  }

  // --------------------------------------------------------------------------- replies

  ghost predicate IsPending(g: Manager, mountpoint: string) {
    exists m :: m in g.pending && m.mountpoint == mountpoint
  }

  lemma IsPendingIff(g: Manager, mountpoint: string)
    ensures IsPending(g, mountpoint) <==> IndexOf(g.pending, mountpoint) >= 0
  {
    var i := IndexOf(g.pending, mountpoint);
    if i >= 0 {
      assert g.pending[i] in g.pending;
    }
  }

  predicate CanOpen(path: string, unopenable: set<string>) {
    path != "" && path !in unopenable
  }

  /** Every directory of the listing, and the listed one, can be opened, and no two listed
      paths differ in case only. */
  ghost predicate CanScan(directory: string, listing: seq<DirEntry>, unopenable: set<string>) {
    && CanOpen(directory, unopenable)
    && (forall e | e in listing && e.isDir :: EntryPath(directory, e.Relative()) !in unopenable)
    && forall i, j | 0 <= i < j < |listing| ::
         !Alike(Absolute(listing[i].Relative()), Absolute(listing[j].Relative()))
  }

  lemma CanScanIff(directory: string, listing: seq<DirEntry>, unopenable: set<string>)
    requires Listable(listing)
    ensures CanScan(directory, listing, unopenable) <==> ScanOpens(directory, listing, unopenable)
  {
    OpensItself(directory, unopenable);
    forall i, j | 0 <= i < j < |listing|
      ensures Alike(Absolute(listing[i].Relative()), Absolute(listing[j].Relative())) <==>
              listing[i].Position() == listing[j].Position()
    {
      AlikeEntries(listing[i], listing[j]) by {
        assert listing[i] in listing && listing[j] in listing;
      }
    }
  }

  lemma AlikeEntries(e: DirEntry, other: DirEntry)
    requires EntryOk(e) && EntryOk(other)
    ensures Alike(Absolute(e.Relative()), Absolute(other.Relative())) <==> e.Position() == other.Position()
  {
    SegmentsOfAbsolute(e.Relative());
    SegmentsOfAbsolute(other.Relative());
    AlikePositions(Absolute(e.Relative()), Absolute(other.Relative()));
  }

  /** Linking a directory fails if the source cannot be scanned, takes the process down if the
      destination is not pending and cannot be scanned, and succeeds otherwise; unless it
      succeeds it changes nothing. */
  lemma LinkDirectoryReplies(g: Manager, r: DirLink)
    requires Listable(r.listing) && Listable(r.destinationListing)
    ensures var (g', reply) := LinkDirectory(g, r);
            && reply == (if !CanScan(r.source, r.listing, r.unopenable) then NotLinked
                         else if IsPending(g, r.destination) then Linked
                         else if !CanScan(r.destination, r.destinationListing, r.unopenable) then Terminated
                         else Linked)
            && (reply != Linked ==> g' == g)
            && GoesTo(g, g', r.destination)
  {
    CanScanIff(r.source, r.listing, r.unopenable);
    CanScanIff(r.destination, r.destinationListing, r.unopenable);
    IsPendingIff(g, r.destination);
    CreatedTree(r.source, map[], r.listing, r.unopenable);
    if SourceScan(r).Some? {
      CreatedTree(r.destination, SourceScan(r).value.fds, r.destinationListing, r.unopenable);
    }
    DirLinkGoesTo(g, r);
  }

  lemma DirLinkGoesTo(g: Manager, r: DirLink)
    ensures GoesTo(g, LinkDirectory(g, r).0, r.destination)
  {
    var i := IndexOf(g.pending, r.destination);
    if i >= 0 {
      assert g.pending[i] in g.pending;
    } else {
      assert forall m | m in g.pending :: m.mountpoint != r.destination;
    }
  }

  /** Linking a file.  Skipped, it succeeds.  Where its directory is pending it succeeds if the
      item is added and the directory of the source opens.  Else it needs both directories open
      or fails, and the destination scanned or takes the process down, and then succeeds but for
      an empty name or source. */
  lemma LinkFileReplies(g: Manager, r: FileLink)
    requires Listable(r.destinationListing)
    ensures var (g', reply) := LinkFile(g, r);
            var source, directory := ParentPath(r.source), ParentPath(r.destination);
            var named := FileName(r.destination) != "" && r.source != "";
            if r.skipped then reply == Linked && g' == g
            else if IsPending(g, DirectoryOf(r.destination)) then
              var i := IndexOf(g.pending, DirectoryOf(r.destination));
              && i >= 0
              && reply == if !FileRefused(g.pending[i], r) && CanOpen(source, r.unopenable) then Linked else NotLinked
            else
              && reply == (if !CanOpen(source, r.unopenable) || !CanOpen(directory, r.unopenable) then NotLinked
                           else if !CanScan(directory, r.destinationListing, r.unopenable) then Terminated
                           else if named then Linked
                           else NotLinked)
              && (reply != Linked ==> g' == g)
              && (reply == Linked ==> |g'.pending| == |g.pending| + 1)
  {
    IsPendingIff(g, DirectoryOf(r.destination));
    var i := IndexOf(g.pending, DirectoryOf(r.destination));
    if i >= 0 {
      FileRefusedIff(g.pending[i], r);
      OpensItself(ParentPath(r.source), r.unopenable);
    } else {
      FileMountReplies(r);
    }
  }

  lemma FileMountReplies(r: FileLink)
    requires Listable(r.destinationListing)
    ensures var source, directory := ParentPath(r.source), ParentPath(r.destination);
            && FileMount(r).1 ==
               (if !CanOpen(source, r.unopenable) || !CanOpen(directory, r.unopenable) then NotLinked
                else if !CanScan(directory, r.destinationListing, r.unopenable) then Terminated
                else if FileName(r.destination) != "" && r.source != "" then Linked
                else NotLinked)
            && (FileMount(r).0.Some? <==> FileMount(r).1 == Linked)
  {
    var directory := ParentPath(r.destination);
    assert FileMount(r).0.Some? <==> FileOpens(r) by { FileMountEntries(r); }
    CanScanIff(directory, r.destinationListing, r.unopenable);
    if FileFds(r).Some? {
      FirstFiled(r);
      CreatedTree(directory, FileFds(r).value, r.destinationListing, r.unopenable);
    }
  }

  lemma FirstFiled(r: FileLink)
    requires FileFds(r).Some?
    ensures Coverage.Filed(FileFds(r).value)
  {}

  // --------------------------------------------------------------------------- mounting

  /** m is what becomes active of a pending mount. */
  ghost predicate Activated(m: Mount, pending: Mount, upperDir: string) {
    && m.tree == pending.tree && m.mountpoint == pending.mountpoint
    && if upperDir == "" then m == pending
       else
         && m.upperDir == upperDir && FdAt(m.fds, upperDir) == Open(upperDir)
         && forall path | !Alike(path, upperDir) :: FdAt(m.fds, path) == FdAt(pending.fds, path)
  }

  lemma PreparedActivates(m: Mount, upperDir: string)
    ensures Activated(Prepared(m, upperDir), m, upperDir)
  {
    ReadOverWrite(m.fds, upperDir, Open(upperDir), upperDir);
    LowerIff(upperDir, upperDir);
    forall path | !Alike(path, upperDir)
      ensures FdAt(FdPut(m.fds, upperDir, Open(upperDir)), path) == FdAt(m.fds, path)
    {
      ReadOverWrite(m.fds, upperDir, Open(upperDir), path);
    }
  }

  /** With nothing pending mounting succeeds and changes nothing.  An upper directory that does
      not open fails it, and the pending list is lost.  Else the pending states become active in
      order, each once, up to the first that the host does not mount, and it succeeds if that is
      all of them. */
  lemma MountPendingReplies(g: Manager, upperOpens: bool, mountable: nat)
    ensures var (g', ok) := MountPending(g, upperOpens, mountable);
            if g.pending == [] then ok && g' == g
            else if g.upperDir != "" && !upperOpens then !ok && g' == g.(pending := [])
            else
              var n, k := |g.pending|, |g.active|;
              var done := if mountable < n then mountable else n;
              && ok == (done == n) && g'.pending == [] && g'.upperDir == g.upperDir
              && |g'.active| == k + done && g'.active[..k] == g.active
              && forall j | 0 <= j < done :: Activated(g'.active[k + j], g.pending[j], g.upperDir)
  {
    var n := if mountable < |g.pending| then mountable else |g.pending|;
    var mounted := PrepareAll(g.pending[..n], g.upperDir);
    forall j | 0 <= j < n ensures Activated(mounted[j], g.pending[j], g.upperDir) {
      PreparedActivates(g.pending[j], g.upperDir);
    }
    assert (g.active + mounted)[..|g.active|] == g.active;
    assert forall j | 0 <= j < n :: (g.active + mounted)[|g.active| + j] == mounted[j];
  }
}
