/** A mount as a value: its tree, its table of directory descriptors, and what the FUSE
    handlers of src/usvfs.cpp do to both.  System calls answer through parameters. */
module Mounts {
  import opened Paths
  import opened Nodes
  import Names

  // -------------------------------------------------------------- directory descriptors

  /** A descriptor remembers the directory it was opened on; Invalid stands for -1. */
  datatype Fd = Invalid | Open(directory: string)

  /** Descriptors by folded path. */
  type Fds = map<string, Fd>

  function FdAt(fds: Fds, path: string): Fd {
    if ToLower(path) in fds then fds[ToLower(path)] else Invalid
  }

  function FdPut(fds: Fds, path: string, fd: Fd): Fds {
    fds[ToLower(path) := fd]
  }

  /** open on a directory; the paths in unopenable are those the host refuses. */
  function OpenDir(path: string, unopenable: set<string>): Fd {
    if path == "" || path in unopenable then Invalid else Open(path)
  }

  /** openat and mkdirat fail on descriptor -1 whatever the host would say. */
  function OpenAt(fd: Fd, name: string, granted: bool): Fd {
    if fd.Open? && granted then Open(fd.directory + "/" + name) else Invalid
  }

  // -------------------------------------------------------------------------- a mount

  datatype Mount = Mount(tree: Node, fds: Fds, mountpoint: string, upperDir: string)

  datatype Outcome = Success | Failure(error: Errno)

  /** What the host grants to one handler call. */
  datatype Host = Host(parentMakes: bool, parentOpens: bool, makes: bool, opens: bool)

  /** No call moves a mount or takes a descriptor off its file. */
  predicate Extends(m: Mount, m': Mount) {
    m'.mountpoint == m.mountpoint && m'.upperDir == m.upperDir && m.fds.Keys <= m'.fds.Keys
  }

  /** createParentDir, when the descriptor of the parent is missing and an upper directory
      is set; the identity otherwise. */
  function WithParent(m: Mount, realParentPath: string, host: Host): (m': Mount)
    ensures Extends(m, m') && m'.tree == m.tree
  {
    if FdAt(m.fds, realParentPath).Open? || m.upperDir == "" || !host.parentMakes then m
    else
      var fd := OpenAt(FdAt(m.fds, ParentPath(realParentPath)), FileName(realParentPath), host.parentOpens);
      if fd.Invalid? then m else m.(fds := FdPut(m.fds, realParentPath, fd))
  }

  /** The tree after setName and setDeleted(false) on the item at p. */
  function Revived(n: Node, p: Path, name: string): Node
    requires Has(n, p)
  {
    var item := Get(n, p);
    if p != [] then HasFront(n, p);
      Graft(n, p, item.(deleted := false, name := if name == "" then item.name else name))
    else
      Graft(n, p, item.(deleted := false, name := if name == "" then item.name else name))
  }

  /** The real directory that mkdir works in: what the parent item stands for, or its place
      under the upper directory, by stored names. */
  function MkdirParent(m: Mount, path: string): Result<string> {
    var parent := Position(ParentPath(path));
    match FindNode(m.tree, parent, false)
    case Err(e) => Err(e)
    case Ok(item) => Ok(if m.upperDir == "" then item.realPath else m.upperDir + Names.SpelledPath(m.tree, parent))
  }

  /** The same for create, which takes the text as typed when there is an upper directory,
      and then does not ask for the parent item. */
  function CreateParent(m: Mount, path: string): Result<string> {
    if m.upperDir != "" then Ok(m.upperDir + ParentPath(path))
    else
      match FindNode(m.tree, Position(ParentPath(path)), false)
      case Err(e) => Err(e)
      case Ok(item) => Ok(item.realPath)
  }

  function Mkdir(m: Mount, path: string, host: Host): (r: (Mount, Outcome))
    ensures Extends(m, r.0)
  {
    var p := Position(path);
    if Has(m.tree, p) then
      if !Get(m.tree, p).deleted then (m, Failure(EEXIST))
      else (m.(tree := Revived(m.tree, p, FileName(path))), Success)
    else
      match MkdirParent(m, path)
      case Err(e) => (m, Failure(e))
      case Ok(realParentPath) => MkdirIn(WithParent(m, realParentPath, host), path, realParentPath, host)
  }

  function MkdirIn(m: Mount, path: string, realParentPath: string, host: Host): (r: (Mount, Outcome))
    ensures Extends(m, r.0)
  {
    var realPath := realParentPath + "/" + FileName(path);
    var fd := OpenAt(FdAt(m.fds, realParentPath), FileName(path), host.makes && host.opens);
    if fd.Invalid? then (m, Failure(EHOST))
    else
      var m' := m.(fds := FdPut(m.fds, realPath, fd));
      match AddText(m.tree, path, realPath, Dir, false)
      case Err(_) => (m', Failure(EIO))
      case Ok(t) => (m'.(tree := t), Success)
  }

  function Create(m: Mount, path: string, host: Host): (r: (Mount, Outcome))
    ensures Extends(m, r.0)
  {
    match CreateParent(m, path)
    case Err(e) => (m, Failure(e))
    case Ok(realParentPath) => CreateIn(WithParent(m, realParentPath, host), path, realParentPath, host)
  }

  function CreateIn(m: Mount, path: string, realParentPath: string, host: Host): (r: (Mount, Outcome))
    ensures Extends(m, r.0)
  {
    if OpenAt(FdAt(m.fds, realParentPath), FileName(path), host.opens).Invalid? then (m, Failure(EHOST))
    else if FindNode(m.tree, Position(path), false).Ok? then (m, Success)
    else
      match AddText(m.tree, path, realParentPath + "/" + FileName(path), File, false)
      case Err(e) => (m, Failure(e))
      case Ok(t) => (m.(tree := t), Success)
  }

  function Unlink(m: Mount, path: string, granted: bool): (r: (Mount, Outcome))
    ensures Extends(m, r.0)
  {
    match FindNode(m.tree, Position(path), false)
    case Err(e) => (m, Failure(e))
    case Ok(item) =>
      if FdAt(m.fds, ParentPath(item.realPath)).Invalid? || !granted then (m, Failure(EHOST))
      else
        match EraseText(m.tree, path, false)
        case Err(e) => (m, Failure(e))
        case Ok(t) => (m.(tree := t), Success)
  }

  /** The emptiness test of rmdir passes on every tree, so it does not appear here. */
  function Rmdir(m: Mount, path: string, granted: bool): (r: (Mount, Outcome))
    ensures Extends(m, r.0)
  {
    var p := Position(path);
    match FindNode(m.tree, p, false)
    case Err(e) => (m, Failure(e))
    case Ok(item) =>
      if item.kind != Dir then (m, Failure(ENOTDIR))
      else if FdAt(m.fds, ParentPath(item.realPath)).Invalid? || !granted then (m, Failure(EHOST))
      else
        assert p != [] ==> Has(m.tree, Front(p)) by { if p != [] { HasFront(m.tree, p); } }
        (m.(tree := Graft(m.tree, p, item.(deleted := true))), Success)
  }

  // ---------------------------------------------------------------------- all handlers

  datatype Call =
    | MkdirCall(path: string, host: Host)
    | CreateCall(path: string, host: Host)
    | UnlinkCall(path: string, granted: bool)
    | RmdirCall(path: string, granted: bool)

  function Handle(m: Mount, call: Call): (r: (Mount, Outcome))
    ensures Extends(m, r.0)
  {
    match call
    case MkdirCall(path, host) => Mkdir(m, path, host)
    case CreateCall(path, host) => Create(m, path, host)
    case UnlinkCall(path, granted) => Unlink(m, path, granted)
    case RmdirCall(path, granted) => Rmdir(m, path, granted)
  }

  function HandleAll(m: Mount, calls: seq<Call>): Mount
    decreases |calls|
  {
    if calls == [] then m else HandleAll(Handle(m, calls[0]).0, calls[1..])
  }

  // --------------------------------------------------------------------------- lookups

  /** What is written under a path is read back under exactly its other spellings. */
  lemma ReadOverWrite(fds: Fds, path: string, fd: Fd, other: string)
    ensures FdAt(FdPut(fds, path, fd), other) == if Alike(other, path) then fd else FdAt(fds, other)
    ensures FdAt(map[], other) == Invalid
  {
    LowerIff(other, path);
  }

  /** open yields a descriptor of the very directory, or none. */
  lemma OpensItself(path: string, unopenable: set<string>)
    ensures OpenDir(path, unopenable) == if path == "" || path in unopenable then Invalid else Open(path)
    ensures OpenDir(path, unopenable).Open? ==> OpenDir(path, unopenable).directory == path
  {}

  /** The directory is on file, or its parent is and the host makes and opens it there. */
  predicate Reachable(m: Mount, realParentPath: string, host: Host) {
    || FdAt(m.fds, realParentPath).Open?
    || (m.upperDir != "" && host.parentMakes && host.parentOpens && FdAt(m.fds, ParentPath(realParentPath)).Open?)
  }

  /** A handler gets at its real parent directory exactly when it is reachable: of several
      missing directories only the last is ever made. */
  lemma WithParentReaches(m: Mount, realParentPath: string, host: Host)
    ensures FdAt(WithParent(m, realParentPath, host).fds, realParentPath).Open? <==> Reachable(m, realParentPath, host)
  {}
}
