/** Path text: case folding, searching for '/', splitting and joining, and the
    parent/file-name split of src/utils.cpp.  A path is text; a position in a tree is
    the sequence of its folded segments. */
module Paths {

  type Path = seq<string>

  // ---------------------------------------------------------------- case folding

  function Fold(c: char): char {
    if 'A' <= c <= 'Z' then (c as int + 32) as char else c
  }

  function ToLower(s: string): string {
    seq(|s|, i requires 0 <= i < |s| => Fold(s[i]))
  }

  function Front<T>(s: seq<T>): seq<T>
    requires s != []
  {
    s[..|s| - 1]
  }

  function Last<T>(s: seq<T>): T
    requires s != []
  {
    s[|s| - 1]
  }

  function FoldAll(p: Path): Path {
    seq(|p|, i requires 0 <= i < |p| => ToLower(p[i]))
  }

  lemma FoldIsStable(s: string)
    ensures ToLower(ToLower(s)) == ToLower(s)
    ensures forall i | 0 <= i < |s| :: ToLower(s)[i] == '/' <==> s[i] == '/'
  {}

  // The fold, letter by letter.

  function Capitals(): string {
    "ABCDEFGHIJKLMNOPQRSTUVWXYZ"
  }

  function Smalls(): string {
    "abcdefghijklmnopqrstuvwxyz"
  }

  /** d is c in small letters. */
  predicate LowersTo(c: char, d: char) {
    || (c !in Capitals() && d == c)
    || exists i :: 0 <= i < 26 && c == Capitals()[i] && d == Smalls()[i]
  }

  lemma AlphabetOrder(i: nat)
    requires i < 26
    ensures |Capitals()| == 26 == |Smalls()|
    ensures Capitals()[i] as int == 65 + i && Smalls()[i] as int == 97 + i
  {}

  lemma CapitalsAre(c: char)
    ensures c in Capitals() <==> 65 <= c as int <= 90
  {
    if 65 <= c as int <= 90 {
      AlphabetOrder(c as int - 65);
    }
  }

  /** Each capital is folded to the small letter of the same place, and nothing else is
      changed. */
  lemma FoldLowers(c: char)
    ensures LowersTo(c, Fold(c)) && forall d :: LowersTo(c, d) ==> d == Fold(c)
  {
    CapitalsAre(c);
    if c in Capitals() {
      AlphabetOrder(c as int - 65);
    }
    forall d | LowersTo(c, d) ensures d == Fold(c) {
      if c in Capitals() {
        var i :| 0 <= i < 26 && c == Capitals()[i] && d == Smalls()[i];
        AlphabetOrder(i);
      }
    }
  }

  /** The same letter, be it capital or small, or the same other character. */
  predicate SameLetter(c: char, d: char) {
    c == d || exists i :: 0 <= i < 26 && c in [Capitals()[i], Smalls()[i]] && d in [Capitals()[i], Smalls()[i]]
  }

  /** The texts agree letter by letter but for case. */
  predicate Alike(s: string, t: string) {
    |s| == |t| && forall i | 0 <= i < |s| :: SameLetter(s[i], t[i])
  }

  lemma SmallsStay(i: nat)
    requires i < 26
    ensures Fold(Capitals()[i]) == Smalls()[i] == Fold(Smalls()[i])
  {
    AlphabetOrder(i);
  }

  lemma FoldsAlike(c: char, d: char)
    ensures Fold(c) == Fold(d) <==> SameLetter(c, d)
  {
    if SameLetter(c, d) && c != d {
      var i :| 0 <= i < 26 && c in [Capitals()[i], Smalls()[i]] && d in [Capitals()[i], Smalls()[i]];
      SmallsStay(i);
    }
    if Fold(c) == Fold(d) && c != d {
      AlphabetOrder(Fold(c) as int - 97);
    }
  }

  lemma LowerIff(s: string, t: string)
    ensures ToLower(s) == ToLower(t) <==> Alike(s, t)
  {
    forall i | 0 <= i < |s| && i < |t| ensures ToLower(s)[i] == ToLower(t)[i] <==> SameLetter(s[i], t[i]) {
      FoldsAlike(s[i], t[i]);
    }
  }

  lemma ToLowerConcat(s: string, t: string)
    ensures ToLower(s + t) == ToLower(s) + ToLower(t)
  {}

  lemma ToLowerCut(s: string, pos: nat)
    requires pos < |s|
    ensures ToLower(s[..pos]) == ToLower(s)[..pos]
    ensures ToLower(s[pos + 1..]) == ToLower(s)[pos + 1..]
  {}

  /** The ASCII branch of toLower: one pass decides, a second pass folds.  Text with a
      character above 127 is handed to ICU, which is not part of this model. */
  method LowerAscii(s: string) returns (ascii: bool, result: string)
    ensures ascii <==> forall c | c in s :: c as int <= 127
    ensures ascii ==> |result| == |s| && forall i | 0 <= i < |s| :: LowersTo(s[i], result[i])
    ensures ascii ==> result == ToLower(s)
  {
    ascii, result := true, "";
    for i := 0 to |s|
      invariant forall j | 0 <= j < i :: s[j] as int <= 127
    {
      if s[i] as int > 127 {
        assert s[i] in s;
        return false, "";
      }
    }
    for i := 0 to |s|
      invariant result == ToLower(s[..i])
    {
      result := result + [Fold(s[i])];
      assert s[..i + 1] == s[..i] + [s[i]];
    }
    assert s[..|s|] == s;
    forall i | 0 <= i < |s| ensures LowersTo(s[i], result[i]) {
      FoldLowers(s[i]);
    }
  }

  // ------------------------------------------------------------------- searching

  /** The first '/' at or after start; |s| stands for npos. */
  function FindSlash(s: string, start: nat): (pos: nat)
    requires start <= |s|
    ensures start <= pos <= |s|
    ensures pos < |s| ==> s[pos] == '/'
    ensures forall i | start <= i < pos :: s[i] != '/'
    decreases |s| - start
  {
    if start == |s| || s[start] == '/' then start else FindSlash(s, start + 1)
  }

  /** The last '/'; -1 stands for npos. */
  function FindLastSlash(s: string): (pos: int)
    ensures -1 <= pos < |s|
    ensures pos >= 0 ==> s[pos] == '/'
    ensures forall i | pos < i < |s| :: s[i] != '/'
  {
    if s == "" then -1
    else if s[|s| - 1] == '/' then |s| - 1
    else FindLastSlash(s[..|s| - 1])
  }

  predicate NoSlash(s: string) {
    forall i | 0 <= i < |s| :: s[i] != '/'
  }

  predicate SegmentOk(s: string) {
    s != "" && NoSlash(s)
  }

  predicate SegmentsOk(p: Path) {
    forall i | 0 <= i < |p| :: SegmentOk(p[i])
  }

  // --------------------------------------------------------- splitting and joining

  function Split(s: string): (p: Path)
    ensures |p| > 0
    decreases |s|
  {
    var pos := FindSlash(s, 0);
    if pos == |s| then [s] else [s[..pos]] + Split(s[pos + 1..])
  }

  function Join(p: Path): string
    requires |p| > 0
  {
    if |p| == 1 then p[0] else p[0] + "/" + Join(p[1..])
  }

  lemma {:induction false} JoinOfSplit(s: string)
    ensures Join(Split(s)) == s
    decreases |s|
  {
    var pos := FindSlash(s, 0);
    if pos < |s| {
      JoinOfSplit(s[pos + 1..]);
      assert Split(s)[1..] == Split(s[pos + 1..]);
      assert s == s[..pos] + "/" + s[pos + 1..];
    }
  }

  lemma FirstSlash(s: string, t: string)
    requires NoSlash(s)
    ensures FindSlash(s, 0) == |s|
    ensures FindSlash(s + "/" + t, 0) == |s|
  {
    var u := s + "/" + t;
    assert u[|s|] == '/';
    assert forall i | 0 <= i < |s| :: u[i] == s[i];
  }

  lemma SplitCons(s: string, t: string)
    requires NoSlash(s)
    ensures Split(s) == [s]
    ensures Split(s + "/" + t) == [s] + Split(t)
  {
    FirstSlash(s, t);
    var u := s + "/" + t;
    assert u[..|s|] == s && u[|s| + 1..] == t;
  }

  lemma {:induction false} SplitOfJoin(p: Path)
    requires |p| > 0 && forall i | 0 <= i < |p| :: NoSlash(p[i])
    ensures Split(Join(p)) == p
    decreases |p|
  {
    if |p| == 1 {
      SplitCons(p[0], "");
    } else {
      SplitOfJoin(p[1..]);
      SplitCons(p[0], Join(p[1..]));
    }
  }

  lemma {:induction false} SplitHasNoSlash(s: string)
    ensures forall i | 0 <= i < |Split(s)| :: NoSlash(Split(s)[i])
    decreases |s|
  {
    var pos := FindSlash(s, 0);
    if pos < |s| {
      SplitHasNoSlash(s[pos + 1..]);
    }
  }

  /** Folding and splitting commute: cutting the folded text at a '/' found in the
      original text cuts it at one of its own. */
  lemma FindSlashFold(s: string)
    ensures FindSlash(ToLower(s), 0) == FindSlash(s, 0)
  {
    FoldIsStable(s);
    var pos, pos' := FindSlash(s, 0), FindSlash(ToLower(s), 0);
    assert pos < |s| ==> ToLower(s)[pos] == '/';
    assert pos' < |s| ==> s[pos'] == '/';
  }

  lemma FoldAllConcat(p: Path, q: Path)
    ensures FoldAll(p + q) == FoldAll(p) + FoldAll(q)
  {}

  lemma {:induction false} SplitFold(s: string)
    ensures Split(ToLower(s)) == FoldAll(Split(s))
    decreases |s|
  {
    FindSlashFold(s);
    var pos := FindSlash(s, 0);
    if pos < |s| {
      ToLowerCut(s, pos);
      SplitFold(s[pos + 1..]);
      FoldAllConcat([s[..pos]], Split(s[pos + 1..]));
      assert FoldAll([s[..pos]]) == [ToLower(s[..pos])];
    } else {
      assert FoldAll([s]) == [ToLower(s)];
    }
  }

  lemma SplitOne(s: string)
    requires NoSlash(s)
    ensures Split(s) == [s]
  {
    FirstSlash(s, "");
  }

  lemma {:induction false} SplitSnoc(text: string, name: string)
    requires NoSlash(name)
    ensures Split(text + "/" + name) == Split(text) + [name]
    decreases |text|
  {
    var pos := FindSlash(text, 0);
    if pos == |text| {
      SplitCons(text, name);
      SplitOne(name);
    } else {
      SplitSnoc(text[pos + 1..], name);
      assert text == text[..pos] + "/" + text[pos + 1..];
      SplitSnocCons(text[..pos], text[pos + 1..], name);
    }
  }

  lemma SplitSnocCons(head: string, tail: string, name: string)
    requires NoSlash(head) && Split(tail + "/" + name) == Split(tail) + [name]
    ensures Split((head + "/" + tail) + "/" + name) == Split(head + "/" + tail) + [name]
  {
    var all := tail + "/" + name;
    assert (head + "/" + tail) + "/" + name == head + "/" + all;
    assert Split(head + "/" + all) == [head] + Split(all) by { SplitCons(head, all); }
    assert Split(head + "/" + tail) == [head] + Split(tail) by { SplitCons(head, tail); }
  }

  lemma SplitAtLast(s: string)
    requires FindLastSlash(s) >= 0
    ensures var pos := FindLastSlash(s); Split(s) == Split(s[..pos]) + [s[pos + 1..]]
  {
    var pos := FindLastSlash(s);
    SplitSnoc(s[..pos], s[pos + 1..]);
    assert s == s[..pos] + "/" + s[pos + 1..];
  }

  lemma LastSlashIs(s: string, pos: nat)
    requires pos < |s| && s[pos] == '/' && NoSlash(s[pos + 1..])
    ensures FindLastSlash(s) == pos
  {
    assert forall i | pos < i < |s| :: s[i] == s[pos + 1..][i - pos - 1];
  }

  lemma LastSlashOfTail(s: string, lo: nat)
    requires lo <= FindLastSlash(s)
    ensures FindLastSlash(s[lo..]) == FindLastSlash(s) - lo
  {
    var last := FindLastSlash(s);
    assert s[lo..][last - lo + 1..] == s[last + 1..];
    LastSlashIs(s[lo..], last - lo);
  }

  // ------------------------------------------------------ parent and file name

  function ParentPath(path: string): string {
    var pos := FindLastSlash(path);
    if pos == -1 then path else path[..pos]
  }

  function FileName(path: string): string {
    var pos := FindLastSlash(path);
    if pos == -1 then path else path[pos + 1..]
  }

  /** Appending a name and splitting it off again are inverse on every directory text;
      and every text with a '/' is such a join. */
  lemma ParentOfJoin(directory: string, name: string)
    requires NoSlash(name)
    ensures ParentPath(directory + "/" + name) == directory
    ensures FileName(directory + "/" + name) == name
  {
    var s := directory + "/" + name;
    assert s[|directory| + 1..] == name;
    LastSlashIs(s, |directory|);
  }

  lemma JoinOfParent(path: string)
    requires FindLastSlash(path) >= 0
    ensures ParentPath(path) + "/" + FileName(path) == path
    ensures NoSlash(FileName(path))
  {
    var pos := FindLastSlash(path);
    assert path == path[..pos] + [path[pos]] + path[pos + 1..];
  }

  lemma ParentPathFold(path: string)
    ensures ToLower(ParentPath(path)) == ParentPath(ToLower(path))
    ensures ToLower(FileName(path)) == FileName(ToLower(path))
  {
    FoldIsStable(path);
    var pos := FindLastSlash(path);
    if pos >= 0 {
      assert ToLower(path)[pos] == '/';
      LastSlashIs(ToLower(path), pos);
    }
  }

  // ------------------------------------------------------- positions of a path

  function Strip(path: string): string {
    if path != "" && path[0] == '/' then path[1..] else path
  }

  /** The display segments that find and erase walk. */
  function Segments(path: string): Path {
    if path == "" || path == "/" then [] else Split(Strip(path))
  }

  /** The folded position that a path names. */
  function Position(path: string): Path {
    FoldAll(Segments(path))
  }

  /** "/" or an absolute path of non-empty segments: what FUSE hands to a handler. */
  predicate Rooted(path: string) {
    path == "/" || (path != "" && path[0] == '/' && SegmentsOk(Split(path[1..])))
  }

  /** Texts that agree letter by letter but for case name one position; and of two rooted
      paths only such. */
  lemma AlikePositions(path: string, other: string)
    ensures Alike(path, other) ==> Position(path) == Position(other)
    ensures Rooted(path) && Rooted(other) && Position(path) == Position(other) ==> Alike(path, other)
  {
    LowerIff(path, other);
    if Alike(path, other) {
      FoldIsStable(path);
      FoldIsStable(other);
      StripFold(path);
      StripFold(other);
      SplitFold(Strip(path));
      SplitFold(Strip(other));
      SlashAlone(path, other);
    }
    if Rooted(path) && Rooted(other) && Position(path) == Position(other) {
      RootedIsFolded(path);
      RootedIsFolded(other);
    }
  }

  lemma SlashAlone(path: string, other: string)
    requires Alike(path, other)
    ensures path == "" <==> other == ""
    ensures path == "/" <==> other == "/"
  {
    if |path| == 1 {
      FoldsAlike(path[0], other[0]);
      FoldIsStable(path);
      FoldIsStable(other);
    }
  }

  lemma RootedIsFolded(path: string)
    requires Rooted(path)
    ensures path != "/" ==> Position(path) != [] && ToLower(path) == Absolute(Position(path))
    ensures path == "/" ==> Position(path) == []
  {
    if path != "/" {
      AbsoluteOfSegments(path);
      AbsoluteFold(Segments(path));
    }
  }

  /** A leading '/' makes no difference to find. */
  lemma OptionalSlash(path: string)
    requires path != "" && path[0] != '/'
    ensures Segments("/" + path) == Segments(path) == Split(path) && Position("/" + path) == Position(path)
  {
    assert ("/" + path)[1..] == path;
  }

  /** A text without '/' is its own parent and its own file name. */
  lemma NoParent(path: string)
    requires NoSlash(path)
    ensures ParentPath(path) == path && FileName(path) == path
  {}

  lemma PositionOfParent(path: string)
    requires Rooted(path) && path != "/"
    ensures SegmentsOk(Segments(path)) && |Segments(path)| > 0
    ensures Segments(path) == Segments(ParentPath(path)) + [FileName(path)]
    ensures Position(path) == Position(ParentPath(path)) + [ToLower(FileName(path))]
  {
    SegmentsOfParent(path[1..]);
    assert path == "/" + path[1..];
    var parent := Segments(ParentPath(path));
    FoldAllConcat(parent, [FileName(path)]);
    assert FoldAll([FileName(path)]) == [ToLower(FileName(path))];
  }

  lemma SegmentsOfParent(q: string)
    requires SegmentsOk(Split(q))
    ensures Split(q) == Segments(ParentPath("/" + q)) + [FileName("/" + q)]
  {
    if FindLastSlash(q) < 0 {
      OneSegment(q);
    } else {
      var parent, name := ParentPath(q), FileName(q);
      JoinOfParent(q);
      assert Split(q) == Split(parent) + [name] by { SplitAtLast(q); }
      assert parent != "" by { assert SegmentOk(Split(q)[0]); FirstSegment(parent); }
      ManySegments(parent, name);
    }
  }

  lemma OneSegment(name: string)
    requires NoSlash(name)
    ensures Split(name) == [name] && ParentPath("/" + name) == "" && FileName("/" + name) == name
  {
    SplitCons(name, "");
    assert "/" + name == "" + "/" + name;
    ParentOfJoin("", name);
  }

  lemma ManySegments(parent: string, name: string)
    requires parent != "" && NoSlash(name)
    ensures Segments(ParentPath("/" + (parent + "/" + name))) == Split(parent)
    ensures FileName("/" + (parent + "/" + name)) == name
  {
    assert "/" + (parent + "/" + name) == "/" + parent + "/" + name;
    ParentOfJoin("/" + parent, name);
    assert ("/" + parent)[1..] == parent;
  }

  lemma FirstSegment(q: string)
    ensures q == "" || q[0] == '/' ==> Split(q)[0] == ""
  {}

  /** The absolute text of a position. */
  function Absolute(p: Path): string {
    if p == [] then "" else "/" + p[0] + Absolute(p[1..])
  }

  lemma {:induction false} AbsoluteIsJoin(p: Path)
    requires |p| > 0
    ensures Absolute(p) == "/" + Join(p)
    decreases |p|
  {
    if |p| > 1 {
      AbsoluteIsJoin(p[1..]);
      assert "/" + p[0] + ("/" + Join(p[1..])) == "/" + (p[0] + "/" + Join(p[1..]));
    } else {
      assert Absolute(p[1..]) == "";
    }
  }

  lemma {:induction false} AbsoluteSnoc(p: Path, s: string)
    ensures Absolute(p + [s]) == Absolute(p) + "/" + s
    decreases |p|
  {
    if p == [] {
      assert Absolute([s][1..]) == "";
    } else {
      assert (p + [s])[1..] == p[1..] + [s];
      AbsoluteSnoc(p[1..], s);
    }
  }

  /** Absolute text and segments determine each other. */
  lemma SegmentsOfAbsolute(p: Path)
    requires SegmentsOk(p)
    ensures Segments(Absolute(p)) == p
    ensures p != [] ==> Rooted(Absolute(p))
  {
    if p != [] {
      AbsoluteIsJoin(p);
      SplitOfJoin(p);
      assert Absolute(p)[1..] == Join(p);
      assert p[0] != "" && |Absolute(p)| > 1;
    }
  }

  lemma AbsoluteOfSegments(path: string)
    requires Rooted(path) && path != "/"
    ensures Absolute(Segments(path)) == path
  {
    JoinOfSplit(path[1..]);
    AbsoluteIsJoin(Segments(path));
  }

  lemma {:induction false} AbsoluteFold(p: Path)
    ensures ToLower(Absolute(p)) == Absolute(FoldAll(p))
    decreases |p|
  {
    if p != [] {
      AbsoluteFold(p[1..]);
      assert FoldAll(p)[1..] == FoldAll(p[1..]);
      ToLowerConcat("/" + p[0], Absolute(p[1..]));
      ToLowerConcat("/", p[0]);
    }
  }

  // --------------------------------------------------------------- the walk of add

  /** The only texts on which addInternal reads past the end of its view. */
  predicate LoneTrailingSlash(path: string) {
    |path| >= 2 && path[|path| - 1] == '/' && path[|path| - 2] != '/'
  }

  /** The display segments that addInternal walks: every level drops one more leading
      '/'.  A final "" stands for a remaining text "/". */
  function AddSplit(path: string): (p: Path)
    ensures |p| > 0
    decreases |path|
  {
    if path == "" || path == "/" then [""]
    else
      var rest := Strip(path);
      var pos := FindSlash(rest, 0);
      if pos == |rest| then [rest] else [rest[..pos]] + AddSplit(rest[pos + 1..])
  }

  lemma {:induction false} AddSplitFold(path: string)
    ensures AddSplit(ToLower(path)) == FoldAll(AddSplit(path))
    decreases |path|
  {
    FoldIsStable(path);
    assert ToLower(path) == "/" <==> path == "/";
    if path == "" || path == "/" {
      assert FoldAll([""]) == [""];
    } else {
      var rest := Strip(path);
      assert Strip(ToLower(path)) == ToLower(rest);
      FindSlashFold(rest);
      AddSplitFoldRest(path, rest, FindSlash(rest, 0));
    }
  }

  lemma {:induction false} AddSplitFoldRest(path: string, rest: string, pos: nat)
    requires path != "" && path != "/" && ToLower(path) != "/"
    requires rest == Strip(path) && Strip(ToLower(path)) == ToLower(rest)
    requires pos == FindSlash(rest, 0) == FindSlash(ToLower(rest), 0)
    ensures AddSplit(ToLower(path)) == FoldAll(AddSplit(path))
    decreases |path|, 0
  {
    if pos < |rest| {
      var head, tail := rest[..pos], rest[pos + 1..];
      assert AddSplit(ToLower(path)) == [ToLower(head)] + AddSplit(ToLower(tail)) by {
        AddSplitUnfold(ToLower(path), pos);
        ToLowerCut(rest, pos);
      }
      AddSplitFold(tail);
      assert AddSplit(path) == [head] + AddSplit(tail) by { AddSplitUnfold(path, pos); }
      FoldCons(head, AddSplit(tail));
    } else {
      assert FoldAll([rest]) == [ToLower(rest)];
    }
  }

  /** One level of the walk: the two cursors lose the same prefix and stay each other's
      fold. */
  lemma StripFold(path: string)
    ensures Strip(ToLower(path)) == ToLower(Strip(path))
  {
    FoldIsStable(path);
  }

  lemma AddSplitLast(path: string)
    requires path != "" && path != "/" && NoSlash(Strip(path))
    ensures AddSplit(path) == [Strip(path)] && FoldAll(AddSplit(path)) == [ToLower(Strip(path))]
    ensures ToLower(Strip(path)) != ""
  {
    assert FoldAll([Strip(path)]) == [ToLower(Strip(path))];
  }

  lemma AddSplitUnfold(path: string, pos: nat)
    requires path != "" && path != "/" && pos == FindSlash(Strip(path), 0) < |Strip(path)|
    ensures AddSplit(path) == [Strip(path)[..pos]] + AddSplit(Strip(path)[pos + 1..])
  {}

  lemma AddSplitDown(path: string, pos: nat)
    requires path != "" && path != "/" && pos == FindSlash(Strip(path), 0) < |Strip(path)|
    ensures var text := Strip(path); var rest := text[pos + 1..];
            && AddSplit(path) == [text[..pos]] + AddSplit(rest)
            && FoldAll(AddSplit(path)) == [ToLower(text)[..pos]] + FoldAll(AddSplit(rest))
            && ToLower(rest) == ToLower(text)[pos + 1..]
  {
    var text := Strip(path);
    var rest := text[pos + 1..];
    AddSplitUnfold(path, pos);
    assert ToLower(text[..pos]) == ToLower(text)[..pos] && ToLower(rest) == ToLower(text)[pos + 1..] by {
      ToLowerCut(text, pos);
    }
    assert FoldAll([text[..pos]] + AddSplit(rest)) == [ToLower(text[..pos])] + FoldAll(AddSplit(rest)) by {
      FoldCons(text[..pos], AddSplit(rest));
    }
  }

  lemma FoldCons(s: string, p: Path)
    ensures FoldAll([s] + p) == [ToLower(s)] + FoldAll(p)
  {}

  lemma RestIsInDomain(path: string, pos: nat)
    requires !LoneTrailingSlash(path) && pos == FindSlash(Strip(path), 0) < |Strip(path)|
    ensures !LoneTrailingSlash(Strip(path)[pos + 1..])
    ensures Strip(path)[pos + 1..] == "" ==> pos == 0
  {}

  /** On non-empty segments the walk of add is the walk of find. */
  lemma {:induction false} AddSplitIsSplit(path: string)
    requires SegmentsOk(Split(path))
    ensures AddSplit(path) == Split(path)
    decreases |path|
  {
    var pos, p := FindSlash(path, 0), Split(path);
    assert SegmentOk(p[0]);
    assert Strip(path) == path;
    if pos < |path| {
      var rest := path[pos + 1..];
      assert Split(rest) == p[1..];
      forall i | 0 <= i < |Split(rest)| ensures SegmentOk(Split(rest)[i]) {
        assert p[i + 1] == Split(rest)[i];
      }
      AddSplitIsSplit(rest);
    }
  }

  /** Behind the slash that ends a segment add skips one more, and find does not. */
  lemma AddSkipsSlash(head: string, tail: string)
    requires SegmentOk(head) && tail != "" && tail[0] != '/'
    ensures AddSplit(head + "/" + ("/" + tail)) == [head] + AddSplit(tail)
    ensures Split(head + "/" + ("/" + tail)) == [head] + ([""] + Split(tail))
  {
    AddSplitCons(head, "/" + tail);
    SlashBefore(tail);
    SplitCons(head, "/" + tail);
    SplitAfterSlash(tail);
  }

  lemma SplitAfterSlash(tail: string)
    ensures Split("/" + tail) == [""] + Split(tail)
  {
    assert "/" + tail == "" + "/" + tail;
    SplitCons("", tail);
  }

  lemma AddSplitCons(head: string, tail: string)
    requires SegmentOk(head)
    ensures AddSplit(head + "/" + tail) == [head] + AddSplit(tail)
  {
    var text := head + "/" + tail;
    FirstSlash(head, tail);
    assert text[0] == head[0] && Strip(text) == text;
    assert text[..|head|] == head && text[|head| + 1..] == tail;
  }

  lemma SlashBefore(tail: string)
    requires tail != "" && tail[0] != '/'
    ensures AddSplit("/" + tail) == AddSplit(tail)
  {
    assert ("/" + tail)[1..] == tail && Strip("/" + tail) == tail == Strip(tail);
    assert "/" + tail != "/";
  }

  lemma AddWalksRootedPath(path: string)
    requires Rooted(path) && path != "/"
    ensures FoldAll(AddSplit(Strip(path))) == Position(path) && AddSplit(Strip(path)) == Segments(path)
  {
    AddSplitIsSplit(path[1..]);
  }

  lemma {:induction false} AddSplitHasNoSlash(path: string)
    ensures forall i | 0 <= i < |AddSplit(path)| :: NoSlash(AddSplit(path)[i])
    decreases |path|
  {
    if path != "" && path != "/" {
      var rest := Strip(path);
      var pos := FindSlash(rest, 0);
      if pos < |rest| {
        AddSplitHasNoSlash(rest[pos + 1..]);
      }
    }
  }

  lemma LastOfSplit(text: string)
    ensures Last(Split(text)) == FileName(text)
  {
    if FindLastSlash(text) >= 0 {
      SplitEndsInName(text);
    } else {
      SplitOne(text);
    }
  }

  lemma SplitEndsInName(text: string)
    requires FindLastSlash(text) >= 0
    ensures Last(Split(text)) == FileName(text)
  {
    SplitSnoc(ParentPath(text), FileName(text)) by { JoinOfParent(text); }
    assert ParentPath(text) + "/" + FileName(text) == text by { JoinOfParent(text); }
  }

  lemma FileNameOfStripped(path: string)
    ensures FileName(Strip(path)) == FileName(path)
  {
    var text, last := Strip(path), FindLastSlash(path);
    if path != text {
      if last == 0 {
        assert NoSlash(text);
      } else {
        LastSlashOfTail(path, 1);
      }
    }
  }

  /** The last segment that find walks is the file name, on every text. */
  lemma LastSegmentIsFileName(path: string)
    requires Segments(path) != []
    ensures Last(Segments(path)) == FileName(path) && NoSlash(FileName(path))
    ensures Last(Position(path)) == ToLower(FileName(path))
  {
    LastOfSplit(Strip(path));
    FileNameOfStripped(path);
  }
}
