/** Whole runs of calls on one tree: the mutable tree does what the value does, the value
    does what a flat map does, and a copy and its original go separate ways. */
module TreeRuns {
  import opened Paths
  import opened Nodes
  import opened FlatMap
  import opened VirtualFileTree
  import Merging

  /** Merge merges one given source tree into this one. */
  datatype Request =
    | Add(path: string, realPath: string, kind: Kind, update: bool)
    | Find(path: string, includeDeleted: bool)
    | Erase(path: string, reallyErase: bool)
    | Merge

  /** What a caller sees of one call. */
  datatype Reply = Done | Found(entry: Entry) | Refused(error: Errno)

  function ReplyTo<T>(r: Result<T>): Reply {
    match r case Ok(_) => Done case Err(e) => Refused(e)
  }

  function ValueOr<T>(r: Result<T>, otherwise: T): T {
    match r case Ok(value) => value case Err(_) => otherwise
  }

  // ---------------------------------------------------------------- runs on the value

  function Perform(n: Node, source: Node, r: Request): (Node, Reply) {
    match r
    case Add(path, realPath, kind, update) =>
      var t := AddText(n, path, realPath, kind, update);
      (ValueOr(t, n), ReplyTo(t))
    case Find(path, includeDeleted) =>
      (match FindNode(n, Position(path), includeDeleted)
       case Ok(item) => (n, Found(EntryOf(item)))
       case Err(e) => (n, Refused(e)))
    case Erase(path, reallyErase) =>
      var t := EraseText(n, path, reallyErase);
      (ValueOr(t, n), ReplyTo(t))
    case Merge => (Nodes.Merge(n, source), Done)
  }

  function PerformAll(n: Node, source: Node, requests: seq<Request>): (Node, seq<Reply>)
    decreases |requests|
  {
    if requests == [] then (n, [])
    else
      var (before, replies) := PerformAll(n, source, Front(requests));
      var (after, reply) := Perform(before, source, Last(requests));
      (after, replies + [reply])
  }

  // ------------------------------------------------------------- runs on the flat map

  /** One optional leading '/', then non-empty segments. */
  predicate WellFormed(path: string) {
    SegmentsOk(Split(Strip(path)))
  }

  predicate RequestOk(r: Request) {
    match r
    case Add(path, _, _, _) => WellFormed(path)
    case Find(path, _) => WellFormed(path) || path == "/"
    case Erase(path, _) => WellFormed(path)
    case Merge => true
  }

  lemma WellFormedPosition(path: string)
    requires WellFormed(path)
    ensures path != "" && path != "/" && !LoneTrailingSlash(path)
    ensures Position(path) == AddPosition(path) == FoldAll(Split(Strip(path))) != []
    ensures Last(AddSplit(Strip(path))) == FileName(path)
  {
    assert SegmentOk(Split(Strip(path))[0]);
    AddSplitIsSplit(Strip(path));
    LastSegmentIsFileName(path);
    assert SegmentOk(Last(Split(Strip(path))));
  }

  function FlatPerform(f: Entries, source: Entries, r: Request): (Entries, Reply)
    requires RequestOk(r)
  {
    match r
    case Add(path, realPath, kind, update) =>
      WellFormedPosition(path);
      if realPath == "" then (f, Refused(EINVAL))
      else
        var t := FlatAdd(f, Position(path), FileName(path), realPath, kind, update);
        (ValueOr(t, f), ReplyTo(t))
    case Find(path, includeDeleted) =>
      (match FlatFind(f, Position(path), includeDeleted)
       case Ok(entry) => (f, Found(entry))
       case Err(e) => (f, Refused(e)))
    case Erase(path, reallyErase) =>
      WellFormedPosition(path);
      var t := FlatErase(f, Position(path), reallyErase);
      (ValueOr(t, f), ReplyTo(t))
    case Merge => (Merging.FlatMerge(f, source), Done)
  }

  function FlatPerformAll(f: Entries, source: Entries, requests: seq<Request>): (Entries, seq<Reply>)
    requires forall r | r in requests :: RequestOk(r)
    decreases |requests|
  {
    if requests == [] then (f, [])
    else
      var (before, replies) := FlatPerformAll(f, source, Front(requests));
      var (after, reply) := FlatPerform(before, source, Last(requests));
      (after, replies + [reply])
  }

  lemma PerformRefines(n: Node, source: Node, r: Request)
    requires RequestOk(r)
    ensures FlatPerform(Flat(n), Flat(source), r) == (Flat(Perform(n, source, r).0), Perform(n, source, r).1)
  {
    match r
    case Add(path, realPath, kind, update) =>
      WellFormedPosition(path);
      AddRefines(n, Position(path), FileName(path), realPath, kind, update);
    case Find(path, includeDeleted) =>
      FindRefines(n, Position(path), includeDeleted);
    case Erase(path, reallyErase) =>
      WellFormedPosition(path);
      EraseRefines(n, Position(path), reallyErase);
    case Merge =>
      Merging.MergeRefines(n, source);
  }

  /** Over every run on well-formed paths the tree and the flat map give the same replies
      and stay the same map, closed under prefixes. */
  lemma {:induction false} RunRefines(n: Node, source: Node, requests: seq<Request>)
    requires forall r | r in requests :: RequestOk(r)
    ensures FlatPerformAll(Flat(n), Flat(source), requests) ==
            (Flat(PerformAll(n, source, requests).0), PerformAll(n, source, requests).1)
    ensures PrefixClosed(FlatPerformAll(Flat(n), Flat(source), requests).0)
    decreases |requests|
  {
    FlatIsPrefixClosed(PerformAll(n, source, requests).0);
    if requests != [] {
      RunRefines(n, source, Front(requests));
      PerformRefines(PerformAll(n, source, Front(requests)).0, source, Last(requests));
    }
  }

  // ------------------------------------------------------------ runs on the mutable tree

  /** add reads past its view on a lone trailing slash. */
  predicate InDomain(r: Request) {
    r.Add? ==> !LoneTrailingSlash(r.path)
  }

  method Ask(tree: VirtualFileTreeItem, source: VirtualFileTreeItem, r: Request) returns (reply: Reply)
    requires tree.Valid() && source.Valid() && tree.Repr !! source.Repr && InDomain(r)
    modifies tree.Repr
    ensures tree.Valid() && fresh(tree.Repr - old(tree.Repr)) && tree.parent == old(tree.parent)
    ensures (tree.Tree(), reply) == Perform(old(tree.Tree()), old(source.Tree()), r)
  {
    match r
    case Add(path, realPath, kind, update) =>
      var item := tree.Add(path, realPath, kind, update);
      reply := ReplyTo(item);
    case Find(path, includeDeleted) =>
      var item := tree.Find(path, includeDeleted);
      reply := if item == null then Refused(ENOENT)
               else Found(Entry(item.fileName, item.realPath, item.kind, item.deleted));
    case Erase(path, reallyErase) =>
      var done := tree.Erase(path, reallyErase);
      reply := ReplyTo(done);
    case Merge =>
      tree.Merge(source);
      reply := Done;
  }

  method AskAll(tree: VirtualFileTreeItem, source: VirtualFileTreeItem, requests: seq<Request>)
    returns (replies: seq<Reply>)
    requires tree.Valid() && source.Valid() && tree.Repr !! source.Repr
    requires forall r | r in requests :: InDomain(r)
    modifies tree.Repr
    ensures tree.Valid() && fresh(tree.Repr - old(tree.Repr)) && tree.parent == old(tree.parent)
    ensures (tree.Tree(), replies) == PerformAll(old(tree.Tree()), old(source.Tree()), requests)
  {
    replies := [];
    ghost var n, s := tree.Tree(), source.Tree();
    for i := 0 to |requests|
      invariant tree.Valid() && fresh(tree.Repr - old(tree.Repr)) && tree.parent == old(tree.parent)
      invariant unchanged(old(source.Repr))
      invariant (tree.Tree(), replies) == PerformAll(n, s, requests[..i])
    {
      assert source.Valid() && source.Tree() == s;
      assert Front(requests[..i + 1]) == requests[..i];
      var reply := Ask(tree, source, requests[i]);
      replies := replies + [reply];
    }
    assert requests[..|requests|] == requests;
  }

  // ------------------------------------------------------------------- independence

  /** A request to the copy or to the original. */
  datatype Turn = Turn(onCopy: bool, request: Request)

  function Turns(turns: seq<Turn>, onCopy: bool): seq<Request>
    decreases |turns|
  {
    if turns == [] then []
    else Turns(Front(turns), onCopy) + if Last(turns).onCopy == onCopy then [Last(turns).request] else []
  }

  /** The tree that its own turns lead to. */
  function Reached(n: Node, source: Node, turns: seq<Turn>, onCopy: bool): Node {
    PerformAll(n, source, Turns(turns, onCopy)).0
  }

  lemma ReachedMore(n: Node, source: Node, turns: seq<Turn>, i: nat, onCopy: bool)
    requires i < |turns|
    ensures Reached(n, source, turns[..i + 1], onCopy) ==
            if turns[i].onCopy == onCopy
            then Perform(Reached(n, source, turns[..i], onCopy), source, turns[i].request).0
            else Reached(n, source, turns[..i], onCopy)
  {
    assert Front(turns[..i + 1]) == turns[..i];
    var before := Turns(turns[..i], onCopy);
    assert Front(before + [turns[i].request]) == before;
    assert before + [] == before;
  }

  method TakeTurn(original: VirtualFileTreeItem, copy: VirtualFileTreeItem, source: VirtualFileTreeItem, turn: Turn)
    requires original.Valid() && copy.Valid() && source.Valid() && InDomain(turn.request)
    requires copy.Repr !! original.Repr && source.Repr !! original.Repr && source.Repr !! copy.Repr
    modifies if turn.onCopy then copy.Repr else original.Repr
    ensures original.Valid() && copy.Valid() && copy.Repr !! original.Repr
    ensures fresh(original.Repr - old(original.Repr)) && fresh(copy.Repr - old(copy.Repr))
    ensures original.Tree() ==
            if turn.onCopy then old(original.Tree())
            else Perform(old(original.Tree()), old(source.Tree()), turn.request).0
    ensures copy.Tree() ==
            if turn.onCopy then Perform(old(copy.Tree()), old(source.Tree()), turn.request).0 else old(copy.Tree())
  {
    if turn.onCopy {
      var reply := Ask(copy, source, turn.request);
      assert unchanged(old(original.Repr));
    } else {
      var reply := Ask(original, source, turn.request);
      assert unchanged(old(copy.Repr));
    }
  }

  method TakeTurns(original: VirtualFileTreeItem, copy: VirtualFileTreeItem, source: VirtualFileTreeItem,
                   turns: seq<Turn>)
    requires original.Valid() && copy.Valid() && source.Valid() && forall t | t in turns :: InDomain(t.request)
    requires copy.Repr !! original.Repr && source.Repr !! original.Repr && source.Repr !! copy.Repr
    modifies original.Repr, copy.Repr
    ensures original.Valid() && copy.Valid() && copy.Repr !! original.Repr
    ensures original.Tree() == Reached(old(original.Tree()), old(source.Tree()), turns, false)
    ensures copy.Tree() == Reached(old(copy.Tree()), old(source.Tree()), turns, true)
  {
    ghost var n, c, s := original.Tree(), copy.Tree(), source.Tree();
    for i := 0 to |turns|
      invariant original.Valid() && copy.Valid() && copy.Repr !! original.Repr
      invariant fresh(original.Repr - old(original.Repr)) && fresh(copy.Repr - old(copy.Repr))
      invariant unchanged(old(source.Repr))
      invariant original.Tree() == Reached(n, s, turns[..i], false)
      invariant copy.Tree() == Reached(c, s, turns[..i], true)
    {
      assert source.Valid() && source.Tree() == s;
      ReachedMore(n, s, turns, i, false);
      ReachedMore(c, s, turns, i, true);
      TakeTurn(original, copy, source, turns[i]);
    }
    assert turns[..|turns|] == turns;
  }

  /** However calls on a copy and on its original interleave, each of the two trees is what
      its own calls make of it. */
  method CloneAndDiverge(original: VirtualFileTreeItem, source: VirtualFileTreeItem, turns: seq<Turn>)
    returns (copy: VirtualFileTreeItem)
    requires original.Valid() && source.Valid() && original.Repr !! source.Repr
    requires forall t | t in turns :: InDomain(t.request)
    modifies original.Repr
    ensures original.Valid() && copy.Valid() && copy.Repr !! original.Repr
    ensures original.Tree() == Reached(old(original.Tree()), old(source.Tree()), turns, false)
    ensures copy.Tree() == Reached(Nodes.Clone(old(original.Tree())), old(source.Tree()), turns, true)
  {
    copy := original.Clone();
    TakeTurns(original, copy, source, turns);
  }
}
