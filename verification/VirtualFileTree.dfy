/** The mutable tree of src/virtualfiletreeitem.cpp: items own their children and point
    back at their parent.  Every method is proved against the operation of module Nodes
    on the value that the item stands for. */
module VirtualFileTree {
  import opened Paths
  import opened Nodes
  import opened Names

  class VirtualFileTreeItem {
    var fileName: string
    var realPath: string
    var parent: VirtualFileTreeItem?
    var kind: Kind
    var deleted: bool
    var children: map<string, VirtualFileTreeItem>
    /** The values of the children. */
    ghost var Below: map<string, Node>
    ghost var Repr: set<VirtualFileTreeItem>

    /** A tree: no item is shared or below itself, every child points back, and Below tells
        the truth. */
    ghost predicate Valid()
      reads this, Repr
      decreases Repr
    {
      && this in Repr
      && "" !in children
      && Below.Keys == children.Keys
      && (forall k | k in children ::
            && children[k] in Repr && children[k].Repr <= Repr && this !in children[k].Repr
            && children[k].parent == this && children[k].Tree() == Below[k] && children[k].Valid())
      && (forall j, k | j in children && k in children && j != k :: children[j].Repr !! children[k].Repr)
    }

    /** The value of the tree below and including this item. */
    ghost function Tree(): Node
      reads this
    {
      Node(fileName, realPath, kind, deleted, Below)
    }

    /** The item at a position. */
    ghost function At(p: Path): (item: VirtualFileTreeItem?)
      requires Valid()
      reads this, Repr
      ensures item != null <==> Has(Tree(), p)
      ensures item != null ==> item in Repr && item.Repr <= Repr && item.Valid() && item.Tree() == Get(Tree(), p)
      decreases |p|
    {
      if p == [] then this else if p[0] in children then children[p[0]].At(p[1..]) else null
    }

    constructor (name: string, realPath: string, kind: Kind, parent: VirtualFileTreeItem?)
      ensures Valid() && fresh(Repr) && Repr == {this} && this.parent == parent
      ensures Tree() == Node(name, realPath, kind, false, map[]) && children == map[]
    {
      this.fileName, this.realPath, this.parent, this.kind := name, realPath, parent, kind;
      this.deleted, this.children, this.Repr, this.Below := false, map[], {this}, map[];
    }

    /** All of Valid() but for what Repr and Below say about the child stored under k. */
    ghost predicate Fits(k: string, child: VirtualFileTreeItem)
      reads this, Repr, child, child.Repr
    {
      && this in Repr && this !in child.Repr
      && "" !in children && k in children && children[k] == child
      && Below.Keys + {k} == children.Keys
      && child.parent == this && child.Valid()
      && OthersHold(k)
      && (forall i, j | i in children && j in children && i != j :: children[i].Repr !! children[j].Repr)
    }

    ghost predicate OthersHold(k: string)
      reads this, Repr
    {
      && children.Keys - {k} <= Below.Keys
      && (forall j | j in children && j != k ::
            && children[j] in Repr && children[j].Repr <= Repr && this !in children[j].Repr
            && children[j].parent == this && children[j].Tree() == Below[j] && children[j].Valid())
      && (forall i, j | i in children && j in children && i != k && j != k && i != j ::
            children[i].Repr !! children[j].Repr)
    }

    /** Storing a child leaves the others alone if it is the old one, changed, or a new one,
        and nothing else below this item has changed. */
    twostate lemma OthersKept(k: string, new child: VirtualFileTreeItem)
      requires old(Valid())
      requires var kept := if k in old(children) then old(children[k].Repr) else {};
               unchanged(old(Repr) - {this} - kept)
      requires children == old(children)[k := child] && unchanged(`Repr, `Below)
      ensures this in Repr && OthersHold(k)
    {
      forall j | j in old(children) && j != k
        ensures old(children[j]).Valid() && old(children[j]).Repr == old(children[j].Repr)
      {
        assert unchanged(old(children[j].Repr));
      }
    }

    /** A child fits if what it owns now, it owned before or has made since. */
    twostate lemma ChildFits(k: string, new child: VirtualFileTreeItem)
      requires old(Valid()) && this in Repr && OthersHold(k)
      requires var kept := if k in old(children) then old(children[k].Repr) else {};
               unchanged(old(Repr) - {this} - kept) && fresh(child.Repr - kept)
      requires children == old(children)[k := child] && unchanged(`Repr, `Below)
      requires k != "" && child.Valid() && child.parent == this && child != this
      ensures Fits(k, child)
    {
    }

    /** Record a child that fits. */
    ghost method Record(k: string, child: VirtualFileTreeItem)
      requires Fits(k, child)
      modifies `Repr, `Below
      ensures Valid()
      ensures Repr == old(Repr) + child.Repr && Below == old(Below)[k := child.Tree()]
    {
      Repr, Below := Repr + child.Repr, Below[k := child.Tree()];
      forall j | j in children ensures children[j].Valid() && unchanged(children[j]) {
        assert j != k ==> unchanged(old(children[j].Repr));
      }
    }

    ghost method RecordKept(k: string, child: VirtualFileTreeItem)
      requires Fits(k, child) && child.Repr <= Repr
      modifies `Repr, `Below
      ensures Valid() && Repr == old(Repr) && Below == old(Below)[k := child.Tree()]
    {
      assert Repr + child.Repr == Repr;
      Record(k, child);
    }

    twostate lemma AtKept(p: Path)
      requires old(Valid()) && unchanged(old(Repr))
      ensures Valid() && Tree() == old(Tree()) && At(p) == old(At(p))
    {
    }

    lemma AtBelow(k: string, p: Path)
      requires Valid()
      ensures At([k] + p) == if k in children then children[k].At(p) else null
      ensures At([k]) == if k in children then children[k] else null
    {
      assert ([k] + p)[1..] == p && [k][1..] == [];
    }

    // ------------------------------------------------- changes through a found item

    /** Valid but for what the items above the one at p say about it: the state after a
        caller has changed an item that find handed out. */
    ghost predicate ValidBut(p: Path, item: VirtualFileTreeItem)
      reads this, Repr
      decreases |p|
    {
      if p == [] then item == this && Valid()
      else
        && this in Repr && "" !in children && p[0] in children && Below.Keys == children.Keys
        && children[p[0]] in Repr && children[p[0]].Repr <= Repr && this !in children[p[0]].Repr
        && children[p[0]].parent == this && children[p[0]].ValidBut(p[1..], item)
        && (|p| > 1 ==> children[p[0]].Tree() == Below[p[0]])
        && OthersHold(p[0])
        && (forall i, j | i in children && j in children && i != j :: children[i].Repr !! children[j].Repr)
    }

    twostate lemma ItemChanged(p: Path, new item: VirtualFileTreeItem)
      requires old(Valid()) && old(At(p)) == item
      requires item.Valid() && unchanged(old(Repr) - {item}) && unchanged(item`parent, item`Repr)
      ensures ValidBut(p, item) && unchanged(`Repr, `parent)
      ensures p != [] ==> Has(Tree(), Front(p)) && Tree() == old(Tree())
      decreases |p|
    {
      if p != [] {
        assert Has(old(Tree()), Front(p)) by { HasFront(old(Tree()), p); }
        var child := children[p[0]];
        child.ItemChanged(p[1..], item);
        OthersKept(p[0], child);
        StillApart(p[0]);
      }
    }

    twostate lemma StillApart(k: string)
      requires old(Valid()) && children == old(children) && k in children && children[k].Repr == old(children[k].Repr)
      requires unchanged(old(Repr) - {this} - old(children[k].Repr))
      ensures forall i, j | i in children && j in children && i != j :: children[i].Repr !! children[j].Repr
    {
      forall j | j in children && j != k ensures children[j].Repr == old(children[j].Repr) {
        assert unchanged(old(children[j].Repr));
      }
    }

    /** Bring the items above back up to date. */
    ghost method Refresh(p: Path, item: VirtualFileTreeItem)
      requires ValidBut(p, item) && (p == [] || Has(Tree(), Front(p)))
      modifies Repr
      ensures Valid() && unchanged(`Repr, `parent)
      ensures Tree() == Graft(old(Tree()), p, old(item.Tree()))
      decreases |p|, 0
    {
      if p != [] {
        assert [p[0]] + p[1..] == p;
        GraftBelow(Tree(), p[0], p[1..], item.Tree());
        RefreshVia(p[0], p[1..], item);
      }
    }

    ghost method RefreshVia(k: string, p: Path, item: VirtualFileTreeItem)
      requires ValidBut([k] + p, item) && ([k] + p)[1..] == p && (p == [] || Has(children[k].Tree(), Front(p)))
      modifies Repr
      ensures Valid() && unchanged(`Repr, `parent)
      ensures Tree() == old(Tree()).(children :=
                old(Tree()).children[k := if p == [] then old(item.Tree())
                                          else Graft(old(Below[k]), p, old(item.Tree()))])
      decreases |p|, 2
    {
      RefreshChild(k, p, item);
      RecordKept(k, children[k]);
    }

    ghost method RefreshChild(k: string, p: Path, item: VirtualFileTreeItem)
      requires ValidBut([k] + p, item) && ([k] + p)[1..] == p && (p == [] || Has(children[k].Tree(), Front(p)))
      modifies children[k].Repr
      ensures unchanged(this) && Fits(k, children[k]) && children[k].Repr <= Repr
      ensures children[k].Tree() == if p == [] then old(item.Tree()) else Graft(old(Below[k]), p, old(item.Tree()))
      decreases |p|, 1
    {
      assert Below.Keys + {k} == children.Keys;
      children[k].Refresh(p, item);
      OthersUntouched(k);
    }

    twostate lemma OthersUntouched(k: string)
      requires old(this in Repr && k in children && OthersHold(k)) && unchanged(old(Repr) - old(children[k].Repr))
      requires this !in old(children[k].Repr)
      requires forall j | j in old(children) && j != k :: old(children[j].Repr) !! old(children[k].Repr)
      ensures OthersHold(k)
    {
      forall j | j in old(children) && j != k
        ensures old(children[j]).Valid() && old(children[j]).Repr == old(children[j].Repr)
      {
        assert unchanged(old(children[j].Repr));
      }
    }

    // --------------------------------------------------------------------- setters

    method SetDeleted(value: bool)
      requires Valid()
      modifies this
      ensures Valid() && Tree() == old(Tree()).(deleted := value)
      ensures unchanged(this`parent, this`children, this`Repr)
    {
      deleted := value;
    }

    method SetParent(value: VirtualFileTreeItem)
      requires Valid()
      modifies this
      ensures Valid() && Tree() == old(Tree()) && parent == value
      ensures unchanged(this`children, this`Repr)
    {
      parent := value;
    }

    method SetRealPath(value: string)
      requires Valid()
      modifies this
      ensures Valid() && Tree() == old(Tree()).(realPath := if value == "" then old(realPath) else value)
      ensures unchanged(this`parent, this`children, this`Repr)
    {
      if value == "" {
        return;
      }
      realPath := value;
    }

    method SetName(value: string)
      requires Valid()
      modifies this
      ensures Valid() && Tree() == old(Tree()).(name := if value == "" then old(fileName) else value)
      ensures unchanged(this`parent, this`children, this`Repr)
    {
      if value == "" {
        return;
      }
      fileName := value;
    }

    // ------------------------------------------------------------------------ find

    /** Find, after the leading '/' is gone and the text is folded. */
    function FindInternal(path: string, includeDeleted: bool): (item: VirtualFileTreeItem?)
      requires Valid()
      reads this, Repr
      ensures item == (match FindNode(Tree(), Split(path), includeDeleted)
                       case Ok(_) => At(Split(path))
                       case Err(_) => null)
      decreases |path|
    {
      var pos := FindSlash(path, 0);
      AtBelow(path[..pos], if pos == |path| then [] else Split(path[pos + 1..]));
      HasChild(Tree(), path);
      assert path[..|path|] == path;
      if pos != |path| then
        var subDirectory := path[..pos];
        if subDirectory !in children then null
        else
          // The second search starts on the slash that the first one found, so its
          // "no further subdirectories" exit is never taken.
          var nextPos := FindSlash(path, |subDirectory|);
          assert nextPos == pos != |path|;
          children[subDirectory].FindInternal(path[nextPos + 1..], includeDeleted)
      else if path !in children then null
      else if !children[path].deleted || includeDeleted then children[path]
      else null
    }

    function Find(path: string, includeDeleted: bool): (item: VirtualFileTreeItem?)
      requires Valid()
      reads this, Repr
      ensures item == (match FindNode(Tree(), Position(path), includeDeleted)
                       case Ok(_) => At(Position(path))
                       case Err(_) => null)
    {
      if path == "/" || path == "" then this
      else
        SplitFold(Strip(path));
        FindInternal(ToLower(Strip(path)), includeDeleted)
    }

    /** find gives one answer for texts that agree letter by letter but for case, and different
        items for rooted paths that do not. */
    lemma FindIgnoresCase(path: string, other: string, includeDeleted: bool)
      requires Valid()
      ensures Alike(path, other) ==> Find(path, includeDeleted) == Find(other, includeDeleted)
      ensures Rooted(path) && Rooted(other) && Find(path, includeDeleted) == Find(other, includeDeleted) != null ==>
                Alike(path, other)
    {
      AlikePositions(path, other);
      if Find(path, includeDeleted) == Find(other, includeDeleted) != null {
        OneItemOnePosition(Position(path), Position(other));
      }
    }

    lemma OneItemOnePosition(p: Path, q: Path)
      requires Valid() && At(p) == At(q) != null
      ensures p == q
      decreases |p|
    {
      AtIsBelow(p);
      AtIsBelow(q);
      if p != [] {
        var child, other := children[p[0]], children[q[0]];
        assert At(p) in child.Repr && At(q) in other.Repr;
        child.OneItemOnePosition(p[1..], q[1..]);
        assert p == [p[0]] + p[1..] && q == [q[0]] + q[1..];
      }
    }

    lemma AtIsBelow(p: Path)
      requires Valid() && At(p) != null
      ensures p != [] <==> At(p) != this
    {
    }

    /** The item at a rooted path is the child, under the folded file name, of the item at
        the parent path. */
    lemma FoundInParent(path: string)
      requires Valid() && Rooted(path) && path != "/"
      ensures var directory, key := Find(ParentPath(path), true), ToLower(FileName(path));
              if directory != null && key in directory.children
              then Find(path, true) == directory.children[key] && directory.children[key].parent == directory
              else Find(path, true) == null
    {
      PositionOfParent(path);
      var p, key := Position(ParentPath(path)), ToLower(FileName(path));
      assert Front(p + [key]) == p;
      HasFront(Tree(), p + [key]);
      if At(p) != null {
        AtConcat(p, [key]);
        At(p).AtBelow(key, []);
      }
    }

    // ------------------------------------------------------------------------- add

    method AddInternal(path: string, pathLc: string, realPath: string, kind: Kind, updateExisting: bool)
      returns (r: Result<VirtualFileTreeItem>)
      requires Valid() && path != "" && !LoneTrailingSlash(path) && pathLc == ToLower(path) && realPath != ""
      modifies Repr
      ensures Valid() && fresh(Repr - old(Repr)) && parent == old(parent)
      ensures var p := AddSplit(path);
              Tells(AddNode(old(Tree()), FoldAll(p), Last(p), realPath, kind, updateExisting),
                    old(Tree()), FoldAll(p), r)
      decreases |path|, 0
    {
      if path == "/" {
        return Err(EEXIST);
      }
      StripFold(path);
      var text, textLc := Strip(path), Strip(pathLc);
      var pos := FindSlash(text, 0);
      if pos != |text| {
        AddSplitDown(path, pos);
        RestIsInDomain(path, pos);
        r := AddInSubdirectory(textLc[..pos], text[pos + 1..], textLc[pos + 1..], realPath, kind, updateExisting);
      } else {
        AddSplitLast(path);
        r := AddLast(text, textLc, realPath, kind, updateExisting);
      }
    }

    /** The step of add into the child called subDirectory. */
    method AddInSubdirectory(subDirectory: string, path: string, pathLc: string, realPath: string, kind: Kind,
                             updateExisting: bool)
      returns (r: Result<VirtualFileTreeItem>)
      requires Valid() && (path == "" ==> subDirectory == "") && !LoneTrailingSlash(path)
      requires pathLc == ToLower(path) && realPath != ""
      modifies Repr
      ensures Valid() && fresh(Repr - old(Repr)) && parent == old(parent)
      ensures var p := AddSplit(path);
              Tells(AddNode(old(Tree()), [subDirectory] + FoldAll(p), Last(p), realPath, kind, updateExisting),
                    old(Tree()), [subDirectory] + FoldAll(p), r)
      decreases |path|, 2
    {
      ghost var before, p, name := Tree(), FoldAll(AddSplit(path)), Last(AddSplit(path));
      AddBelow(before, subDirectory, p, name, realPath, kind, updateExisting);
      if subDirectory !in children {
        return Err(ENOENT);
      }
      r := AddInChild(subDirectory, path, pathLc, realPath, kind, updateExisting);
      TellsBelow(before, subDirectory, p,
                 AddNode(before.children[subDirectory], p, name, realPath, kind, updateExisting), r);
    }

    method AddInChild(k: string, path: string, pathLc: string, realPath: string, kind: Kind, updateExisting: bool)
      returns (r: Result<VirtualFileTreeItem>)
      requires Valid() && k in children && path != "" && !LoneTrailingSlash(path)
      requires pathLc == ToLower(path) && realPath != ""
      modifies Repr
      ensures Valid() && fresh(Repr - old(Repr)) && parent == old(parent) && children == old(children)
      ensures Tree() == old(Tree()).(children := old(Tree()).children[k := children[k].Tree()])
      ensures var p := AddSplit(path);
              children[k].Tells(AddNode(old(Tree()).children[k], FoldAll(p), Last(p), realPath, kind, updateExisting),
                                old(Tree()).children[k], FoldAll(p), r)
      decreases |path|, 1
    {
      var child := children[k];
      r := child.AddInternal(path, pathLc, realPath, kind, updateExisting);
      OthersKept(k, child);
      ChildFits(k, child);
      label Told:
      Record(k, child);
      child.AtKept@Told(FoldAll(AddSplit(path)));
    }

    /** This tree, which was before, is what the outcome of add says, and r is the item at
        p or the error. */
    ghost predicate Tells(outcome: Result<Node>, before: Node, p: Path, r: Result<VirtualFileTreeItem>)
      requires Valid()
      reads this, Repr
    {
      match outcome
      case Ok(t) => Tree() == t && At(p) != null && r == Ok(At(p))
      case Err(e) => Tree() == before && r == Err(e)
    }

    lemma TellsBelow(before: Node, k: string, p: Path, outcome: Result<Node>, r: Result<VirtualFileTreeItem>)
      requires Valid() && k in children && k in before.children
      requires Tree() == before.(children := before.children[k := children[k].Tree()])
      requires children[k].Tells(outcome, before.children[k], p, r)
      ensures Tells(match outcome
                    case Ok(c) => Ok(before.(children := before.children[k := c]))
                    case Err(e) => Err(e), before, [k] + p, r)
    {
      AtBelow(k, p);
      if outcome.Err? {
        assert before.children[k := before.children[k]] == before.children;
      }
    }

    /** The last segment of add: insert, revive, update or refuse. */
    method AddLast(name: string, key: string, realPath: string, kind: Kind, updateExisting: bool)
      returns (r: Result<VirtualFileTreeItem>)
      requires Valid() && key != "" && realPath != ""
      modifies Repr
      ensures Valid() && fresh(Repr - old(Repr)) && parent == old(parent)
      ensures Tells(AddNode(old(Tree()), [key], name, realPath, kind, updateExisting), old(Tree()), [key], r)
    {
      AddHere(Tree(), key, name, realPath, kind, updateExisting);
      if key !in children {
        InsertChild(key, name, realPath, kind);
      } else if children[key].deleted || updateExisting {
        UpdateChild(key, realPath);
      } else {
        return Err(EEXIST);
      }
      AtBelow(key, []);
      r := Ok(children[key]);
    }

    method InsertChild(key: string, name: string, realPath: string, kind: Kind)
      requires Valid() && key != "" && key !in children
      modifies this
      ensures Valid() && fresh(Repr - old(Repr)) && parent == old(parent) && old(Repr) <= Repr
      ensures key in children && fresh(children[key])
      ensures Tree() == old(Tree()).(children := old(Tree()).children[key := Node(name, realPath, kind, false, map[])])
    {
      var item := new VirtualFileTreeItem(name, realPath, kind, this);
      children := children[key := item];
      OthersKept(key, item);
      ChildFits(key, item);
      Record(key, item);
    }

    /** An item that is there already gets the real path, and its life back. */
    method UpdateChild(key: string, realPath: string)
      requires Valid() && key in children && realPath != ""
      modifies Repr
      ensures Valid() && Repr == old(Repr) && parent == old(parent) && children == old(children)
      ensures Tree() == old(Tree()).(children := old(Tree()).children[key :=
                old(Tree()).children[key].(deleted := false, realPath := realPath)])
    {
      var item := children[key];
      if item.deleted {
        item.SetDeleted(false);
      }
      item.SetRealPath(realPath);
      OthersKept(key, item);
      ChildFits(key, item);
      RecordKept(key, item);
    }

    /** Add or update an item.  Empty texts and "/" are refused before the walk. */
    method Add(path: string, realPath: string, kind: Kind, updateExisting: bool)
      returns (r: Result<VirtualFileTreeItem>)
      requires Valid() && !LoneTrailingSlash(path)
      modifies Repr
      ensures Valid() && fresh(Repr - old(Repr)) && parent == old(parent)
      ensures Tells(AddText(old(Tree()), path, realPath, kind, updateExisting), old(Tree()), AddPosition(path), r)
    {
      if path == "" || realPath == "" {
        return Err(EINVAL);
      }
      if path == "/" {
        return Err(EINVAL);
      }
      StripFold(path);
      r := AddInternal(Strip(path), ToLower(Strip(path)), realPath, kind, updateExisting);
    }

    // ----------------------------------------------------------------------- erase

    /** Documented as "no live children", but no flag is read: every finite tree is empty. */
    predicate IsEmpty()
      requires Valid()
      reads this, Repr
      ensures IsEmpty()
      decreases Repr
    {
      forall k | k in children :: children[k].IsEmpty()
    }

    method EraseInternal(path: string, reallyErase: bool) returns (r: Result<()>)
      requires Valid()
      modifies Repr
      ensures Valid() && fresh(Repr - old(Repr)) && parent == old(parent)
      ensures Reports(EraseNode(old(Tree()), Split(path), reallyErase), old(Tree()), r)
      decreases |path|, 0
    {
      var pos := FindSlash(path, 0);
      if pos != |path| {
        r := EraseInSubdirectory(path[..pos], path[pos + 1..], reallyErase);
      } else {
        r := EraseLast(path, reallyErase);
      }
    }

    /** The step of erase into the child called subDirectory. */
    method EraseInSubdirectory(subDirectory: string, path: string, reallyErase: bool) returns (r: Result<()>)
      requires Valid()
      modifies Repr
      ensures Valid() && fresh(Repr - old(Repr)) && parent == old(parent)
      ensures Reports(EraseNode(old(Tree()), [subDirectory] + Split(path), reallyErase), old(Tree()), r)
      decreases |path|, 2
    {
      ghost var before := Tree();
      EraseBelow(before, subDirectory, Split(path), reallyErase);
      if subDirectory !in children {
        return Err(ENOENT);
      }
      r := EraseInChild(subDirectory, path, reallyErase);
      assert before.children[subDirectory := before.children[subDirectory]] == before.children;
    }

    method EraseInChild(k: string, path: string, reallyErase: bool) returns (r: Result<()>)
      requires Valid() && k in children
      modifies Repr
      ensures Valid() && fresh(Repr - old(Repr)) && parent == old(parent) && children == old(children)
      ensures Tree() == old(Tree()).(children := old(Tree()).children[k := children[k].Tree()])
      ensures children[k].Reports(EraseNode(old(Tree()).children[k], Split(path), reallyErase),
                                  old(Tree()).children[k], r)
      decreases |path|, 1
    {
      var child := children[k];
      r := child.EraseInternal(path, reallyErase);
      OthersKept(k, child);
      ChildFits(k, child);
      Record(k, child);
    }

    /** The last segment of erase. */
    method EraseLast(key: string, reallyErase: bool) returns (r: Result<()>)
      requires Valid()
      modifies Repr
      ensures Valid() && fresh(Repr - old(Repr)) && parent == old(parent)
      ensures Reports(EraseNode(old(Tree()), [key], reallyErase), old(Tree()), r)
    {
      EraseHere(Tree(), key, reallyErase);
      if key !in children {
        return Err(ENOENT);
      }
      if !children[key].IsEmpty() {
        assert false;  // The exit with ENOTEMPTY is never taken.
      }
      if reallyErase {
        DropChild(key);
      } else {
        MarkChild(key);
      }
      r := Ok(());
    }

    method DropChild(key: string)
      requires Valid() && key in children
      modifies this
      ensures Valid() && Repr == old(Repr) && parent == old(parent)
      ensures Tree() == old(Tree()).(children := old(Tree()).children - {key})
    {
      children := children - {key};
      Below := Below - {key};
    }

    ghost predicate Reports(outcome: Result<Node>, before: Node, r: Result<()>)
      requires Valid()
      reads this, Repr
    {
      match outcome
      case Ok(t) => Tree() == t && r == Ok(())
      case Err(e) => Tree() == before && r == Err(e)
    }

    method MarkAllChildrenAsDeleted()
      requires Valid()
      modifies Repr
      ensures Valid() && Tree() == MarkChildren(old(Tree())) && unchanged(`parent, `children, `Repr)
      decreases Repr, 1
    {
      ghost var before := Tree();
      MarkNone(before);
      var todo := children.Keys;
      while todo != {}
        invariant todo <= children.Keys && Valid() && unchanged(`parent, `children, `Repr)
        invariant Tree() == MarkSome(before, before.children.Keys - todo)
        decreases todo
      {
        var k :| k in todo;
        OneDone(before.children.Keys, todo, k);
        MarkChild(k);
        MarkSomeStep(before, before.children.Keys - todo, k);
        todo := todo - {k};
      }
      MarkAll(before, MarkSome(before, before.children.Keys));
      assert before.children.Keys - todo == before.children.Keys;
    }

    /** One turn of that loop. */
    method MarkChild(k: string)
      requires Valid() && k in children
      modifies Repr
      ensures Valid() && unchanged(`parent, `children, `Repr)
      ensures Tree() == old(Tree()).(children :=
                old(Tree()).children[k := MarkChildren(old(Tree()).children[k]).(deleted := true)])
      decreases Repr, 0
    {
      var child := children[k];
      child.SetDeleted(true);
      child.MarkAllChildrenAsDeleted();
      OthersKept(k, child);
      ChildFits(k, child);
      RecordKept(k, child);
    }

    method Erase(path: string, reallyErase: bool) returns (r: Result<()>)
      requires Valid()
      modifies Repr
      ensures Valid() && fresh(Repr - old(Repr)) && parent == old(parent)
      ensures Reports(EraseText(old(Tree()), path, reallyErase), old(Tree()), r)
    {
      if path == "" {
        return Err(EINVAL);
      }
      SplitFold(Strip(path));
      r := EraseInternal(ToLower(Strip(path)), reallyErase);
    }

    // ------------------------------------------------------------- clone and merge

    /** A deep copy.  It even copies the parent pointer of its top. */
    method Clone() returns (copy: VirtualFileTreeItem)
      requires Valid()
      ensures copy.Valid() && fresh(copy.Repr) && copy.parent == parent
      ensures copy.Tree() == Nodes.Clone(Tree())
      decreases Repr, 1
    {
      copy := new VirtualFileTreeItem(fileName, realPath, kind, parent);
      copy.CloneChildrenFrom(this);
    }

    method CloneChildrenFrom(other: VirtualFileTreeItem)
      requires Valid() && children == map[] && Repr == {this} && other.Valid() && this !in other.Repr
      modifies this
      ensures Valid() && fresh(Repr - {this}) && parent == old(parent)
      ensures Tree() == old(Tree()).(children := other.Tree().children)
      decreases other.Repr, 0
    {
      ghost var before, source := Tree(), other.Tree();
      var todo := other.children.Keys;
      while todo != {}
        invariant todo <= other.children.Keys
        invariant Valid() && fresh(Repr - {this}) && parent == old(parent)
        invariant Tree() == CopySome(before, source, source.children.Keys - todo)
        decreases todo
      {
        var k :| k in todo;
        OneDone(source.children.Keys, todo, k);
        CloneChild(k, other.children[k]);
        CopySomeStep(before, source, source.children.Keys - todo, k);
        todo := todo - {k};
      }
    }

    /** One turn of that loop. */
    method CloneChild(k: string, item: VirtualFileTreeItem)
      requires Valid() && k != "" && item.Valid() && this !in item.Repr
      modifies this
      ensures Valid() && fresh(Repr - old(Repr)) && parent == old(parent) && old(Repr) <= Repr
      ensures Tree() == old(Tree()).(children := old(Tree()).children[k := item.Tree()])
      decreases item.Repr, 1
    {
      var child := new VirtualFileTreeItem(item.fileName, item.realPath, item.kind, this);
      child.SetDeleted(item.deleted);
      child.CloneChildrenFrom(item);
      children := children[k := child];
      OthersKept(k, child);
      ChildFits(k, child);
      Record(k, child);
    }

    /** The in-place operator +=. */
    method Merge(other: VirtualFileTreeItem)
      requires Valid() && other.Valid() && Repr !! other.Repr
      modifies Repr
      ensures Valid() && fresh(Repr - old(Repr)) && parent == old(parent)
      ensures Tree() == Nodes.Merge(old(Tree()), old(other.Tree()))
      ensures unchanged(old(other.Repr))
      decreases other.Repr, 0
    {
      ghost var a, b := Tree(), other.Tree();
      TakeNames(other.realPath, other.fileName);
      MergeSomeEnds(a, b);
      var todo := other.children.Keys;
      while todo != {}
        invariant todo <= other.children.Keys
        invariant Valid() && fresh(Repr - old(Repr)) && parent == old(parent)
        invariant unchanged(old(other.Repr)) && Repr !! other.Repr
        invariant Tree() == MergeSome(a, b, b.children.Keys - todo)
        decreases todo
      {
        var k :| k in todo;
        OneDone(b.children.Keys, todo, k);
        MergeChild(k, other.children[k]);
        MergeSomeStep(a, b, b.children.Keys - todo, k);
        todo := todo - {k};
      }
      assert b.children.Keys - todo == b.children.Keys;
    }

    method TakeNames(realPath: string, name: string)
      requires Valid()
      modifies `realPath, `fileName
      ensures Valid() && Tree() == old(Tree()).(realPath := realPath, name := name)
    {
      this.realPath := realPath;
      this.fileName := name;
    }

    /** One turn of that loop. */
    method MergeChild(k: string, item: VirtualFileTreeItem)
      requires Valid() && item.Valid() && Repr !! item.Repr && k != ""
      modifies Repr
      ensures Valid() && fresh(Repr - old(Repr)) && parent == old(parent)
      ensures Tree() == MergedChild(old(Tree()), k, old(item.Tree()))
      decreases item.Repr, 3
    {
      if k !in children {
        AdoptCopy(k, item);
      } else {
        MergeIntoChild(k, item);
      }
    }

    method AdoptCopy(k: string, item: VirtualFileTreeItem)
      requires Valid() && item.Valid() && k !in children && k != ""
      modifies this
      ensures Valid() && fresh(Repr - old(Repr)) && parent == old(parent)
      ensures Tree() == old(Tree()).(children := old(Tree()).children[k := Nodes.Clone(old(item.Tree()))])
      decreases item.Repr, 2
    {
      var child := item.Clone();
      child.SetParent(this);
      children := children[k := child];
      OthersKept(k, child);
      ChildFits(k, child);
      Record(k, child);
    }

    method MergeIntoChild(k: string, item: VirtualFileTreeItem)
      requires Valid() && item.Valid() && Repr !! item.Repr && k in children
      modifies Repr
      ensures Valid() && fresh(Repr - old(Repr)) && parent == old(parent)
      ensures Tree() == old(Tree()).(children :=
                old(Tree()).children[k := Nodes.Merge(old(Tree()).children[k], old(item.Tree()))])
      decreases item.Repr, 1
    {
      var child := children[k];
      child.Merge(item);
      child.SetParent(this);
      OthersKept(k, child);
      ChildFits(k, child);
      Record(k, child);
    }

    // ------------------------------------------------------- climbing and listing

    lemma ParentIsAbove(p: Path)
      requires Valid() && At(p) != null
      ensures p != [] ==> At(Front(p)) != null && At(p).parent == At(Front(p))
      decreases |p|
    {
      if |p| > 1 {
        assert Front(p)[1..] == Front(p[1..]);
        children[p[0]].ParentIsAbove(p[1..]);
      }
    }

    lemma AtConcat(p: Path, q: Path)
      requires Valid() && At(p) != null
      ensures At(p + q) == At(p).At(q)
      decreases |p|
    {
      if p == [] {
        assert p + q == q;
      } else {
        assert (p + q)[1..] == p[1..] + q;
        children[p[0]].AtConcat(p[1..], q);
      }
    }

    /** The path that this item spells by climbing to the root through parent pointers. */
    function FilePath(ghost root: VirtualFileTreeItem, ghost p: Path): (path: string)
      requires root.Valid() && root.parent == null && root.At(p) == this
      reads root, root.Repr
      ensures path == SpelledPath(root.Tree(), p)
      decreases |p|
    {
      root.ParentIsAbove(p);
      if parent != null then parent.FilePath(root, Front(p)) + "/" + fileName else ""
    }

    /** The spelled paths of all items at or below this one, in any order of the children. */
    method GetAllItemPaths(includeRoot: bool, ghost root: VirtualFileTreeItem, ghost p: Path)
      returns (result: seq<string>)
      requires root.Valid() && root.parent == null && root.At(p) == this
      ensures ListsBelow(root.Tree(), p, p != [] || includeRoot, result)
      decreases Repr, 1
    {
      ghost var n := root.Tree();
      result := [];
      ghost var order: seq<Path> := [];
      root.ParentIsAbove(p);
      if parent != null || includeRoot {
        result, order := [FilePath(root, p)], [p];
      }
      ghost var self := order;
      var todo := children.Keys;
      while todo != {}
        invariant todo <= children.Keys
        invariant Lists(n, result, order)
        invariant forall q :: q in order <==> q in self || ListedUnder(n, p, children.Keys - todo, q)
        decreases todo
      {
        var k :| k in todo;
        var paths := GetChildItemPaths(k, root, p);
        ghost var positions :| Lists(n, paths, positions) && Exactly(n, p + [k], true, positions);
        OneDone(children.Keys, todo, k);
        ListMore(n, p, k, children.Keys - todo, result, order, paths, positions);
        result, order := result + paths, order + positions;
        todo := todo - {k};
      }
      assert children.Keys - todo == Get(n, p).children.Keys;
      ListedAll(n, p);
      assert Exactly(n, p, p != [] || includeRoot, order);
    }

    /** The listing of one child. */
    method GetChildItemPaths(k: string, ghost root: VirtualFileTreeItem, ghost p: Path)
      returns (result: seq<string>)
      requires root.Valid() && root.parent == null && root.At(p) == this && k in children
      ensures ListsBelow(root.Tree(), p + [k], true, result)
      decreases Repr, 0
    {
      root.AtConcat(p, [k]);
      AtBelow(k, []);
      result := children[k].GetAllItemPaths(true, root, p + [k]);
    }

    /** Listing and finding undo each other: listed paths are distinct, deleted items are
        listed too, find takes each listed path to the item that spells it, and every item is
        reached so. */
    lemma ListedPathsResolve(result: seq<string>, includeRoot: bool)
      requires Valid() && NamesOk(Flat(Tree())) && ListsBelow(Tree(), [], includeRoot, result)
      ensures forall i, j | 0 <= i < j < |result| :: result[i] != result[j]
      ensures forall i | 0 <= i < |result| ::
                Find(result[i], true) != null && SpelledPath(Tree(), Position(result[i])) == result[i]
      ensures forall path | At(Position(path)) != null && (Position(path) != [] || includeRoot) ::
                exists i :: 0 <= i < |result| && Find(result[i], true) == At(Position(path))
    {
      var order :| Lists(Tree(), result, order) && Exactly(Tree(), [], includeRoot, order);
      forall i | 0 <= i < |result| ensures Position(result[i]) == order[i] && Has(Tree(), order[i]) {
        SpelledPathNamesItem(Tree(), order[i]);
      }
      forall path | At(Position(path)) != null && (Position(path) != [] || includeRoot)
        ensures exists i :: 0 <= i < |result| && Find(result[i], true) == At(Position(path))
      {
        var i :| 0 <= i < |order| && order[i] == Position(path);
        assert Find(result[i], true) == At(order[i]);
      }
    }
  }

  // ------------------------------------------------------------------ listed positions

  /** result spells the positions in order, each of them once. */
  ghost predicate Lists(n: Node, result: seq<string>, order: seq<Path>) {
    && |order| == |result|
    && (forall i | 0 <= i < |order| :: Has(n, order[i]) && result[i] == SpelledPath(n, order[i]))
    && (forall i, j | 0 <= i < j < |order| :: order[i] != order[j])
  }

  /** order has just the positions at or below p; p itself only withSelf. */
  ghost predicate Exactly(n: Node, p: Path, withSelf: bool, order: seq<Path>) {
    forall q :: q in order <==> p <= q && Has(n, q) && (q != p || withSelf)
  }

  /** result spells every position at or below p, each of them once. */
  ghost predicate ListsBelow(n: Node, p: Path, withSelf: bool, result: seq<string>) {
    exists order :: Lists(n, result, order) && Exactly(n, p, withSelf, order)
  }

  /** q lies below p, under one of the children in done. */
  ghost predicate ListedUnder(n: Node, p: Path, done: set<string>, q: Path) {
    |p| < |q| && p <= q && q[|p|] in done && Has(n, q)
  }

  lemma ListMore(n: Node, p: Path, k: string, done: set<string>, result: seq<string>, order: seq<Path>,
                 paths: seq<string>, positions: seq<Path>)
    requires Lists(n, result, order) && Lists(n, paths, positions) && k !in done
    requires forall q | q in order :: q == p || ListedUnder(n, p, done, q)
    requires Exactly(n, p + [k], true, positions)
    ensures Lists(n, result + paths, order + positions)
    ensures forall q :: ListedUnder(n, p, done + {k}, q) <==> ListedUnder(n, p, done, q) || q in positions
  {
    forall q ensures ListedUnder(n, p, done + {k}, q) <==> ListedUnder(n, p, done, q) || q in positions {
      PrefixSnoc(p, k, q);
    }
    forall q | q in order ensures q !in positions {
      PrefixSnoc(p, k, q);
    }
    ListsConcat(n, result, order, paths, positions);
  }

  lemma ListsConcat(n: Node, result: seq<string>, order: seq<Path>, paths: seq<string>, positions: seq<Path>)
    requires Lists(n, result, order) && Lists(n, paths, positions)
    requires forall q | q in order :: q !in positions
    ensures Lists(n, result + paths, order + positions)
  {
    forall i, j | 0 <= i < j < |order + positions| ensures (order + positions)[i] != (order + positions)[j] {
      if i < |order| <= j {
        assert order[i] in order && positions[j - |order|] in positions;
      }
    }
  }

  lemma PrefixSnoc(p: Path, k: string, q: Path)
    ensures p + [k] <= q <==> p <= q && |p| < |q| && q[|p|] == k
  {
    if p <= q && |p| < |q| && q[|p|] == k {
      assert q[..|p| + 1] == p + [k];
    }
  }

  lemma ListedAll(n: Node, p: Path)
    requires Has(n, p)
    ensures forall q :: p <= q && Has(n, q) <==> q == p || ListedUnder(n, p, Get(n, p).children.Keys, q)
  {
    forall q | p <= q && Has(n, q) && q != p ensures q[|p|] in Get(n, p).children {
      HasConcat(n, p, q[|p|..]);
      assert q == p + q[|p|..];
    }
  }

  // ---------------------------------------------------------- loops half way through

  lemma OneDone(all: set<string>, todo: set<string>, k: string)
    requires k in todo && todo <= all
    ensures k !in all - todo && all - (todo - {k}) == all - todo + {k}
    ensures all - {} == all && all - all == {}
  {}

  /** A walk that has marked only the children in done. */
  ghost function MarkSome(n: Node, done: set<string>): Node {
    n.(children := map k | k in n.children ::
                     if k in done then MarkChildren(n.children[k]).(deleted := true) else n.children[k])
  }

  lemma MarkSomeStep(n: Node, done: set<string>, k: string)
    requires k in n.children && k !in done
    ensures var m := MarkSome(n, done);
            MarkSome(n, done + {k}) == m.(children := m.children[k := MarkChildren(m.children[k]).(deleted := true)])
  {
    var m := MarkSome(n, done);
    assert MarkSome(n, done + {k}).children == m.children[k := MarkChildren(m.children[k]).(deleted := true)];
  }

  lemma MarkNone(n: Node)
    ensures MarkSome(n, {}) == n
  {
    assert MarkSome(n, {}).children == n.children;
  }

  lemma MarkAll(n: Node, all: Node)
    requires all == MarkSome(n, n.children.Keys)
    ensures all == MarkChildren(n)
  {
    assert all.children == MarkChildren(n).children;
  }

  /** n with copies of only the children in done of source. */
  ghost function CopySome(n: Node, source: Node, done: set<string>): Node
    requires done <= source.children.Keys
  {
    n.(children := map k | k in done :: source.children[k])
  }

  lemma CopySomeStep(n: Node, source: Node, done: set<string>, k: string)
    requires done <= source.children.Keys && k in source.children
    ensures var m := CopySome(n, source, done);
            CopySome(n, source, done + {k}) == m.(children := m.children[k := source.children[k]])
  {
    var m := CopySome(n, source, done);
    assert CopySome(n, source, done + {k}).children == m.children[k := source.children[k]];
  }

  /** A merge in which only the children in done have been taken from the right. */
  ghost function MergeSome(a: Node, b: Node, done: set<string>): Node
    requires done <= b.children.Keys
  {
    Node(b.name, b.realPath, a.kind, a.deleted,
         map k | k in a.children.Keys + done ::
           if k !in done then a.children[k]
           else if k !in a.children then Nodes.Clone(b.children[k])
           else Nodes.Merge(a.children[k], b.children[k]))
  }

  /** n with c merged into its child k, or copied there. */
  ghost function MergedChild(n: Node, k: string, c: Node): Node {
    n.(children := n.children[k := if k in n.children then Nodes.Merge(n.children[k], c) else Nodes.Clone(c)])
  }

  lemma MergeSomeStep(a: Node, b: Node, done: set<string>, k: string)
    requires done <= b.children.Keys && k in b.children && k !in done
    ensures MergeSome(a, b, done + {k}) == MergedChild(MergeSome(a, b, done), k, b.children[k])
  {
    var m, m' := MergeSome(a, b, done), MergeSome(a, b, done + {k});
    assert m'.children == MergedChild(m, k, b.children[k]).children;
  }

  lemma MergeSomeEnds(a: Node, b: Node)
    ensures MergeSome(a, b, {}) == Node(b.name, b.realPath, a.kind, a.deleted, a.children)
    ensures MergeSome(a, b, b.children.Keys) == Nodes.Merge(a, b)
  {
    assert MergeSome(a, b, {}).children == a.children;
    assert MergeSome(a, b, b.children.Keys).children == Nodes.Merge(a, b).children;
  }
}
