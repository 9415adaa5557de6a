/** The mutable mount of src/mountstate.h, and the FUSE handlers of src/usvfs.cpp that
    change it, proved against the handlers on values. */
module MountStates {
  import opened Paths
  import opened Nodes
  import opened VirtualFileTree
  import Mounts

  type Fd = Mounts.Fd
  type Host = Mounts.Host
  type Outcome = Mounts.Outcome

  /** The table of src/fdmap.h: keys are folded, and a missing key reads as -1. */
  class FdMap {
    var fds: Mounts.Fds

    constructor ()
      ensures fds == map[]
    {
      fds := map[];
    }

    function At(path: string): Fd
      reads this
    {
      Mounts.FdAt(fds, path)
    }

    method Put(path: string, fd: Fd)
      modifies this
      ensures fds == Mounts.FdPut(old(fds), path, fd)
      ensures forall other :: At(other) == if ToLower(other) == ToLower(path) then fd else old(At(other))
    {
      fds := fds[ToLower(path) := fd];
    }
  }

  class MountState {
    var upperDir: string
    var mountpoint: string
    var fileTree: VirtualFileTreeItem
    var fdMap: FdMap

    ghost predicate Valid()
      reads this, fileTree, fileTree.Repr
    {
      fileTree.Valid() && fileTree.parent == null
    }

    /** The value of this mount. */
    ghost function View(): Mounts.Mount
      reads this, fdMap, fileTree
    {
      Mounts.Mount(fileTree.Tree(), fdMap.fds, mountpoint, upperDir)
    }

    constructor (fileTree: VirtualFileTreeItem, fdMap: FdMap, mountpoint: string)
      requires fileTree.Valid() && fileTree.parent == null
      ensures Valid() && this.fileTree == fileTree && this.fdMap == fdMap
      ensures View() == Mounts.Mount(fileTree.Tree(), fdMap.fds, mountpoint, "")
    {
      this.upperDir, this.mountpoint, this.fileTree, this.fdMap := "", mountpoint, fileTree, fdMap;
    }

    /** Redirect writes to an upper directory and file its descriptor. */
    method UseUpperDir(directory: string)
      requires Valid() && directory != ""
      modifies this, fdMap
      ensures Valid() && unchanged(`fileTree, `fdMap)
      ensures View() == old(View()).(upperDir := directory,
                                     fds := Mounts.FdPut(old(fdMap.fds), directory, Mounts.Open(directory)))
    {
      upperDir := directory;
      fdMap.Put(directory, Mounts.Open(directory));
    }

    // -------------------------------------------------------------------------- mkdir

    /** createParentDir: make and open the parent below its own parent, and file it. */
    method CreateParentDir(realParentPath: string, host: Host) returns (fd: Fd)
      requires Valid() && fdMap.At(realParentPath).Invalid? && upperDir != ""
      modifies fdMap
      ensures View() == Mounts.WithParent(old(View()), realParentPath, host)
      ensures fd == fdMap.At(realParentPath)
    {
      var parentName := FileName(realParentPath);
      var grandParentFd := fdMap.At(ParentPath(realParentPath));
      if grandParentFd.Invalid? || !host.parentMakes {
        return Mounts.Invalid;
      }
      fd := Mounts.OpenAt(grandParentFd, parentName, host.parentOpens);
      if fd.Open? {
        fdMap.Put(realParentPath, fd);
      }
    }

    /** The descriptor of the real parent, made on demand when an upper directory is set. */
    method ParentFd(realParentPath: string, host: Host) returns (fd: Fd)
      requires Valid()
      modifies fdMap
      ensures View() == Mounts.WithParent(old(View()), realParentPath, host)
      ensures fd == fdMap.At(realParentPath)
    {
      fd := fdMap.At(realParentPath);
      if fd.Invalid? && upperDir != "" {
        fd := CreateParentDir(realParentPath, host);
      }
    }

    method Mkdir(path: string, host: Host) returns (reply: Outcome)
      requires Valid() && !LoneTrailingSlash(path)
      modifies fdMap, fileTree.Repr
      ensures Valid() && fresh(fileTree.Repr - old(fileTree.Repr))
      ensures (View(), reply) == Mounts.Mkdir(old(View()), path, host)
    {
      var existing := fileTree.Find(path, true);
      if existing != null {
        if !existing.deleted {
          return Mounts.Failure(EEXIST);
        }
        Revive(path, existing);
        return Mounts.Success;
      }
      var parentItem := fileTree.Find(ParentPath(path), false);
      if parentItem == null {
        return Mounts.Failure(ENOENT);
      }
      var realParentPath := parentItem.realPath;
      if upperDir != "" {
        realParentPath := upperDir + parentItem.FilePath(fileTree, Position(ParentPath(path)));
      }
      var parentFd := ParentFd(realParentPath, host);
      reply := MkdirIn(path, realParentPath, parentFd, host);
    }

    /** The deleted item at path is taken back under the name of the call. */
    method Revive(path: string, existing: VirtualFileTreeItem)
      requires Valid() && fileTree.At(Position(path)) == existing
      modifies fileTree.Repr
      ensures Valid() && fileTree.Repr == old(fileTree.Repr)
      ensures View() == old(View()).(tree := Mounts.Revived(old(fileTree.Tree()), Position(path), FileName(path)))
    {
      existing.SetDeleted(false);
      existing.SetName(FileName(path));
      fileTree.ItemChanged(Position(path), existing);
      fileTree.Refresh(Position(path), existing);
    }

    method MkdirIn(path: string, realParentPath: string, parentFd: Fd, host: Host) returns (reply: Outcome)
      requires Valid() && !LoneTrailingSlash(path) && parentFd == fdMap.At(realParentPath)
      modifies fdMap, fileTree.Repr
      ensures Valid() && fresh(fileTree.Repr - old(fileTree.Repr))
      ensures (View(), reply) == Mounts.MkdirIn(old(View()), path, realParentPath, host)
    {
      var name := FileName(path);
      var fd := Mounts.OpenAt(parentFd, name, host.makes && host.opens);
      if fd.Invalid? {
        return Mounts.Failure(EHOST);
      }
      var realPath := realParentPath + "/" + name;
      fdMap.Put(realPath, fd);
      var newItem := fileTree.Add(path, realPath, Dir, false);
      reply := if newItem.Err? then Mounts.Failure(EIO) else Mounts.Success;
    }

    // ------------------------------------------------------------------------- create

    method Create(path: string, host: Host) returns (reply: Outcome)
      requires Valid() && !LoneTrailingSlash(path)
      modifies fdMap, fileTree.Repr
      ensures Valid() && fresh(fileTree.Repr - old(fileTree.Repr))
      ensures (View(), reply) == Mounts.Create(old(View()), path, host)
    {
      var realParentPath := upperDir + ParentPath(path);
      if upperDir == "" {
        var parentItem := fileTree.Find(ParentPath(path), false);
        if parentItem == null {
          return Mounts.Failure(ENOENT);
        }
        realParentPath := parentItem.realPath;
      }
      var parentFd := ParentFd(realParentPath, host);
      reply := CreateIn(path, realParentPath, parentFd, host);
    }

    method CreateIn(path: string, realParentPath: string, parentFd: Fd, host: Host) returns (reply: Outcome)
      requires Valid() && !LoneTrailingSlash(path) && parentFd == fdMap.At(realParentPath)
      modifies fileTree.Repr
      ensures Valid() && fresh(fileTree.Repr - old(fileTree.Repr))
      ensures (View(), reply) == Mounts.CreateIn(old(View()), path, realParentPath, host)
    {
      var name := FileName(path);
      if Mounts.OpenAt(parentFd, name, host.opens).Invalid? {
        return Mounts.Failure(EHOST);
      }
      if fileTree.Find(path, false) == null {
        var newItem := fileTree.Add(path, realParentPath + "/" + name, File, false);
        if newItem.Err? {
          return Mounts.Failure(newItem.error);
        }
      }
      reply := Mounts.Success;
    }

    // --------------------------------------------------------------- unlink and rmdir

    method Unlink(path: string, granted: bool) returns (reply: Outcome)
      requires Valid()
      modifies fileTree.Repr
      ensures Valid() && fresh(fileTree.Repr - old(fileTree.Repr))
      ensures (View(), reply) == Mounts.Unlink(old(View()), path, granted)
    {
      var item := fileTree.Find(path, false);
      if item == null {
        return Mounts.Failure(ENOENT);
      }
      if fdMap.At(ParentPath(item.realPath)).Invalid? || !granted {
        return Mounts.Failure(EHOST);
      }
      var erased := fileTree.Erase(path, false);
      reply := if erased.Err? then Mounts.Failure(erased.error) else Mounts.Success;
    }

    method Rmdir(path: string, granted: bool) returns (reply: Outcome)
      requires Valid()
      modifies fileTree.Repr
      ensures Valid() && fresh(fileTree.Repr - old(fileTree.Repr))
      ensures (View(), reply) == Mounts.Rmdir(old(View()), path, granted)
    {
      var item := fileTree.Find(path, false);
      if item == null {
        return Mounts.Failure(ENOENT);
      }
      if item.kind != Dir {
        return Mounts.Failure(ENOTDIR);
      }
      if !item.IsEmpty() {
        assert false;  // The exit with ENOTEMPTY is never taken.
      }
      if fdMap.At(ParentPath(item.realPath)).Invalid? || !granted {
        return Mounts.Failure(EHOST);
      }
      item.SetDeleted(true);
      fileTree.ItemChanged(Position(path), item);
      fileTree.Refresh(Position(path), item);
      reply := Mounts.Success;
    }

    /** Whatever call arrives; add reads past its view on a lone trailing slash. */
    method Handle(call: Mounts.Call) returns (reply: Outcome)
      requires Valid() && !LoneTrailingSlash(call.path)
      modifies fdMap, fileTree.Repr
      ensures Valid() && fresh(fileTree.Repr - old(fileTree.Repr))
      ensures (View(), reply) == Mounts.Handle(old(View()), call)
    {
      match call
      case MkdirCall(path, host) => reply := Mkdir(path, host);
      case CreateCall(path, host) => reply := Create(path, host);
      case UnlinkCall(path, granted) => reply := Unlink(path, granted);
      case RmdirCall(path, granted) => reply := Rmdir(path, granted);
    }
  }
}
