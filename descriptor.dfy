/// The descriptor parser of the Filesystem constructor: each non-blank line
/// names a directory chain (`a/b`) or a file with its contents
/// (`a/b.txt | text`); the chain is walked from the root, creating every
/// missing directory, and the resource is added at its end.
module Descriptor {
  import opened Nodes
  import opened Directory
  import opened Paths
  import opened Strings

  /** A directory name as the parser builds it: '/' appended when missing. */
  function Slashed(seg: string): (r: string)
    ensures |r| == |seg| + (if EndsWithSlash(seg) then 0 else 1)
    ensures EndsWithSlash(r) && r[..|seg|] == seg
  {
    if EndsWithSlash(seg) then seg else seg + "/"
  }

  /** The directory names a chain of components walks through. */
  function SlashedAll(segs: seq<string>): seq<string>
  {
    seq(|segs|, k requires 0 <= k < |segs| => Slashed(segs[k]))
  }

  /** `find(c)` on a string: the first position of `c`, or |s| for `npos`. */
  function CharIndex(s: string, c: char): (i: nat)
    ensures i <= |s| && c !in s[..i]
    ensures i < |s| ==> s[i] == c
  {
    if s == [] then 0
    else if s[0] == c then 0
    else
      assert s[..1 + CharIndex(s[1..], c)] == [s[0]] + s[1..][..CharIndex(s[1..], c)];
      1 + CharIndex(s[1..], c)
  }

  /** A descriptor line once cut: the path components and, for a file, its contents. */
  datatype Line =
    | FileLine(path: seq<string>, content: string)
    | DirLine(path: seq<string>)

  /** How a trimmed line is read: a file exactly when it holds a '|'; the
      text before the first '|' is the path and the trimmed rest is the
      contents; the path is split at '/'. */
  function Classify(line: string): (l: Line)
    ensures l.FileLine? <==> '|' in line
    ensures forall k :: 0 <= k < |l.path| ==> l.path[k] != "" && '/' !in l.path[k] && Trim(l.path[k]) == l.path[k]
    ensures l.FileLine? ==> IsTrimmed(l.content)
  {
    var sep := CharIndex(line, '|');
    if sep < |line| then
      TokensOfPath(Trim(line[..sep]));
      FileLine(Tokens(Trim(line[..sep]), '/'), Trim(line[sep + 1..]))
    else
      assert line[..sep] == line;
      TokensOfPath(line);
      DirLine(Tokens(line, '/'))
  }

  /** A line the parser can handle: blank, or with at least one path
      component (otherwise the source indexes an empty vector). */
  predicate HasSegment(line: string)
  {
    Trim(line) == "" || |Classify(Trim(line)).path| >= 1
  }

  /** The parser's walking pointer: the tree so far and the path of the
      directory the pointer is at. */
  datatype Walked = Walked(tree: Node, at: seq<string>)

  /** One step of the walk: reuse the first child with the directory's name
      when it is a directory; otherwise create the directory and add it, which
      fails when a file already has that name. */
  function Descend(w: Walked, seg: string): (r: Result<Walked>)
    requires Resolve(w.tree, w.at).Some?
    ensures r.Err? <==> var found := FindIn(Resolve(w.tree, w.at).value.children, Slashed(seg), false);
                        found.Some? && found.value.File?
    ensures r.Err? ==> r.error == Duplicate(Slashed(seg))
    ensures r.Ok? ==> r.value.at == w.at + [Slashed(seg)] && Resolve(r.value.tree, r.value.at).Some?
    ensures r.Ok? ==> r.value.tree.name == w.tree.name && r.value.tree.parentPath == w.tree.parentPath
  {
    var name := Slashed(seg);
    var here := Resolve(w.tree, w.at).value;
    FindDirect(here.children, name);
    ResolveAppend(w.tree, w.at, name);
    var found := FindIn(here.children, name, false);
    if found.Some? && found.value.Dir? then
      Ok(Walked(w.tree, w.at + [name]))
    else
      var dir := NewDir(name).value;
      match InsertAt(w.tree, w.at, dir)
      case Err(e) => Err(e)
      case Ok(t) =>
        ResolveAppend(t, w.at, name);
        EnterAppended(here, dir);
        Ok(Walked(t, w.at + [name]))
  }

  /** A directory just appended under a fresh name is what entering that name finds. */
  lemma EnterAppended(d: Node, res: Node)
    requires d.Dir? && res.Dir? && AddChild(d, res).Ok?
    ensures Enter(AddChild(d, res).value, res.name) == Some(Rebind(res, d.parentPath))
  {
    var cs := AddChild(d, res).value.children;
    RebindKeepsShape(res, d.parentPath);
    assert cs[|d.children|].name == res.name;
    assert forall j :: 0 <= j < |d.children| ==> cs[j].name != res.name by {
      forall j | 0 <= j < |d.children| ensures cs[j].name != res.name {
        assert cs[j] == d.children[j];
      }
    }
    assert FirstIndex(cs, res.name) == Some(|d.children|);
  }

  lemma SlashedAllCons(at: seq<string>, segs: seq<string>)
    requires segs != []
    ensures at + SlashedAll(segs) == (at + [Slashed(segs[0])]) + SlashedAll(segs[1..])
  {
    assert SlashedAll(segs) == [Slashed(segs[0])] + SlashedAll(segs[1..]);
  }

  /** The walk over the leading path components, left to right. */
  function Walk(w: Walked, segs: seq<string>): (r: Result<Walked>)
    requires Resolve(w.tree, w.at).Some?
    ensures r.Ok? ==> r.value.at == w.at + SlashedAll(segs) && Resolve(r.value.tree, r.value.at).Some?
    ensures r.Ok? ==> r.value.tree.name == w.tree.name && r.value.tree.parentPath == w.tree.parentPath
    ensures r.Err? ==> r.error.Duplicate?
    decreases |segs|
  {
    if segs == [] then Ok(w)
    else match Descend(w, segs[0])
      case Err(e) => Err(e)
      case Ok(next) =>
        SlashedAllCons(w.at, segs);
        Walk(next, segs[1..])
  }

  /** How many leading components a line walks: all but the file name for
      a file line, all of them for a directory line. */
  function Leading(l: Line): (n: nat)
    requires |l.path| >= 1
    ensures n <= |l.path|
  {
    if l.FileLine? then |l.path| - 1 else |l.path|
  }

  /** What a line adds where its walk ended. A file line adds the file named
      by the last component. A directory line, whose walk already entered
      the last component, adds a directory of that name once more inside it,
      unless a child of that name exists there. */
  function Place(w: Walked, l: Line): (r: Result<Node>)
    requires Resolve(w.tree, w.at).Some? && |l.path| >= 1
    ensures r.Ok? ==> r.value.Dir? && r.value.name == w.tree.name && r.value.parentPath == w.tree.parentPath
    ensures r.Err? ==> r.error.Duplicate?
  {
    var last := l.path[|l.path| - 1];
    match l
    case FileLine(_, content) => InsertAt(w.tree, w.at, NewFile(last, content))
    case DirLine(_) => PlaceDir(w, Slashed(last))
  }

  /** The placement of a directory line's last component, once slashed. */
  function PlaceDir(w: Walked, name: string): (r: Result<Node>)
    requires Resolve(w.tree, w.at).Some? && name != ""
    ensures r.Ok? ==> r.value.Dir? && r.value.name == w.tree.name && r.value.parentPath == w.tree.parentPath
    ensures r.Err? ==> r.error.Duplicate?
  {
    if FindIn(Resolve(w.tree, w.at).value.children, name, false).None? then
      InsertAt(w.tree, w.at, NewDir(name).value)
    else
      Ok(w.tree)
  }

  /** A parsed line applied to the tree: the walk from the root, then the placement. */
  function ApplyLine(tree: Node, l: Line): (r: Result<Node>)
    requires tree.Dir? && |l.path| >= 1
    ensures r.Ok? ==> r.value.Dir? && r.value.name == tree.name && r.value.parentPath == tree.parentPath
    ensures r.Err? ==> r.error.Duplicate?
  {
    match Walk(Walked(tree, []), l.path[..Leading(l)])
    case Err(e) => Err(e)
    case Ok(w) => Place(w, l)
  }

  /** One line of the descriptor: trimmed, skipped when blank, else applied. */
  function Step(tree: Node, line: string): (r: Result<Node>)
    requires tree.Dir? && HasSegment(line)
    ensures r.Ok? ==> r.value.Dir? && r.value.name == tree.name && r.value.parentPath == tree.parentPath
  {
    var t := Trim(line);
    if t == "" then Ok(tree) else ApplyLine(tree, Classify(t))
  }

  predicate WellFormed(lines: seq<string>)
  {
    forall k :: 0 <= k < |lines| ==> HasSegment(lines[k])
  }

  /** The lines applied in order; the first failure ends the parse. */
  function Build(tree: Node, lines: seq<string>): (r: Result<Node>)
    requires tree.Dir? && WellFormed(lines)
    ensures r.Ok? ==> r.value.Dir? && r.value.name == tree.name && r.value.parentPath == tree.parentPath
    decreases |lines|
  {
    if lines == [] then Ok(tree)
    else
      WellFormedTail(lines);
      match Step(tree, lines[0])
      case Err(e) => Err(e)
      case Ok(t) => Build(t, lines[1..])
  }

  lemma WellFormedTail(lines: seq<string>)
    requires WellFormed(lines) && lines != []
    ensures HasSegment(lines[0]) && WellFormed(lines[1..])
  {
    assert forall k :: 0 <= k < |lines[1..]| ==> lines[1..][k] == lines[k + 1];
  }

  /** The root name the constructor uses: "/" when none is given. */
  function RootName(rootName: string): (r: string)
    ensures r != ""
  {
    if rootName == "" then "/" else rootName
  }

  /** The tree the Filesystem constructor builds from the descriptor's lines. */
  function DescribedTree(lines: seq<string>, rootName: string): (r: Result<Node>)
    requires WellFormed(lines)
    ensures r.Ok? ==> r.value.Dir? && r.value.parentPath == "/"
    ensures r.Ok? ==> r.value.name == NewDir(RootName(rootName)).value.name
  {
    Build(NewDir(RootName(rootName)).value, lines)
  }

  /** The inner loop of the constructor, over the components to walk. */
  method WalkComponents(start: Walked, segs: seq<string>) returns (r: Result<Walked>)
    requires Resolve(start.tree, start.at).Some?
    ensures r == Walk(start, segs)
  {
    var w := start;
    var i := 0;
    while i < |segs|
      invariant 0 <= i <= |segs|
      invariant Resolve(w.tree, w.at).Some?
      invariant Walk(start, segs) == Walk(w, segs[i..])
    {
      assert segs[i..][1..] == segs[i + 1..];
      var next := Descend(w, segs[i]);
      if next.Err? {
        return Err(next.error);
      }
      w := next.value;
      i := i + 1;
    }
    assert segs[i..] == [];
    return Ok(w);
  }

  /** The body of the constructor's line loop, for one line. */
  method ParseLine(tree: Node, line: string) returns (r: Result<Node>)
    requires tree.Dir? && HasSegment(line)
    ensures r == Step(tree, line)
  {
    var t := Trim(line);
    if t == "" {
      return Ok(tree);
    }
    var sep := CharIndex(t, '|');
    var l: Line;
    if sep < |t| {
      var comps := Split(Trim(t[..sep]), '/');
      l := FileLine(comps, Trim(t[sep + 1..]));
    } else {
      var comps := Split(t, '/');
      l := DirLine(comps);
    }
    assert l == Classify(t);
    var walked := WalkComponents(Walked(tree, []), l.path[..Leading(l)]);
    if walked.Err? {
      return Err(walked.error);
    }
    r := Place(walked.value, l);
  }

  /** The constructor's loop over the lines of the descriptor. */
  method ParseDescriptor(lines: seq<string>, rootName: string) returns (r: Result<Node>)
    requires WellFormed(lines)
    ensures r == DescribedTree(lines, rootName)
  {
    var tree := NewDir(RootName(rootName)).value;
    var i := 0;
    while i < |lines|
      invariant 0 <= i <= |lines|
      invariant tree.Dir?
      invariant DescribedTree(lines, rootName) == Build(tree, lines[i..])
    {
      assert lines[i..][1..] == lines[i + 1..];
      var next := ParseLine(tree, lines[i]);
      if next.Err? {
        return Err(next.error);
      }
      tree := next.value;
      i := i + 1;
    }
    assert lines[i..] == [];
    return Ok(tree);
  }

  // Properties of the parse.

  /** The declared contents' total length: what the built tree's size must be. */
  function LineBytes(l: Line): nat
  {
    if l.FileLine? then |l.content| else 0
  }

  function DeclaredBytes(lines: seq<string>): nat
  {
    if lines == [] then 0
    else (if Trim(lines[0]) == "" then 0 else LineBytes(Classify(Trim(lines[0])))) + DeclaredBytes(lines[1..])
  }

  /** Creating intermediate directories adds no size. */
  lemma DescendSize(w: Walked, seg: string)
    requires Resolve(w.tree, w.at).Some? && Descend(w, seg).Ok?
    ensures Descend(w, seg).value.tree.Size() == w.tree.Size()
  {
    var name := Slashed(seg);
    var found := FindIn(Resolve(w.tree, w.at).value.children, name, false);
    if !(found.Some? && found.value.Dir?) {
      InsertAtSize(w.tree, w.at, NewDir(name).value);
    }
  }

  lemma {:induction false} WalkSize(w: Walked, segs: seq<string>)
    requires Resolve(w.tree, w.at).Some? && Walk(w, segs).Ok?
    ensures Walk(w, segs).value.tree.Size() == w.tree.Size()
    decreases |segs|
  {
    if segs != [] {
      DescendSize(w, segs[0]);
      WalkSize(Descend(w, segs[0]).value, segs[1..]);
    }
  }

  /** A file line adds exactly its contents' length; a directory line adds nothing. */
  lemma ApplyLineSize(tree: Node, l: Line)
    requires tree.Dir? && |l.path| >= 1 && ApplyLine(tree, l).Ok?
    ensures ApplyLine(tree, l).value.Size() == tree.Size() + LineBytes(l)
  {
    var start := Walked(tree, []);
    var segs := l.path[..Leading(l)];
    WalkSize(start, segs);
    var w := Walk(start, segs).value;
    var last := l.path[|l.path| - 1];
    if l.FileLine? {
      InsertAtSize(w.tree, w.at, NewFile(last, l.content));
    } else if FindIn(Resolve(w.tree, w.at).value.children, Slashed(last), false).None? {
      InsertAtSize(w.tree, w.at, NewDir(Slashed(last)).value);
    }
  }

  lemma {:induction false} BuildSize(tree: Node, lines: seq<string>)
    requires tree.Dir? && WellFormed(lines) && Build(tree, lines).Ok?
    ensures Build(tree, lines).value.Size() == tree.Size() + DeclaredBytes(lines)
    decreases |lines|
  {
    if lines != [] {
      WellFormedTail(lines);
      var t := Trim(lines[0]);
      if t != "" {
        ApplyLineSize(tree, Classify(t));
      }
      BuildSize(Step(tree, lines[0]).value, lines[1..]);
    }
  }

  /** The built tree's size is the total length of the contents the
      descriptor declares. */
  lemma DescriptorSize(lines: seq<string>, rootName: string)
    requires WellFormed(lines) && DescribedTree(lines, rootName).Ok?
    ensures DescribedTree(lines, rootName).value.Size() == DeclaredBytes(lines)
  {
    BuildSize(NewDir(RootName(rootName)).value, lines);
  }

  lemma DescendKeepsUnique(w: Walked, seg: string)
    requires Resolve(w.tree, w.at).Some? && Descend(w, seg).Ok? && UniqueNames(w.tree)
    ensures UniqueNames(Descend(w, seg).value.tree)
  {
    var name := Slashed(seg);
    var found := FindIn(Resolve(w.tree, w.at).value.children, name, false);
    if !(found.Some? && found.value.Dir?) {
      InsertAtKeepsUnique(w.tree, w.at, NewDir(name).value);
    }
  }

  lemma {:induction false} WalkKeepsUnique(w: Walked, segs: seq<string>)
    requires Resolve(w.tree, w.at).Some? && Walk(w, segs).Ok? && UniqueNames(w.tree)
    ensures UniqueNames(Walk(w, segs).value.tree)
    decreases |segs|
  {
    if segs != [] {
      DescendKeepsUnique(w, segs[0]);
      WalkKeepsUnique(Descend(w, segs[0]).value, segs[1..]);
    }
  }

  lemma ApplyLineKeepsUnique(tree: Node, l: Line)
    requires tree.Dir? && |l.path| >= 1 && ApplyLine(tree, l).Ok? && UniqueNames(tree)
    ensures UniqueNames(ApplyLine(tree, l).value)
  {
    var start := Walked(tree, []);
    var segs := l.path[..Leading(l)];
    WalkKeepsUnique(start, segs);
    var w := Walk(start, segs).value;
    var last := l.path[|l.path| - 1];
    if l.FileLine? {
      InsertAtKeepsUnique(w.tree, w.at, NewFile(last, l.content));
    } else if FindIn(Resolve(w.tree, w.at).value.children, Slashed(last), false).None? {
      InsertAtKeepsUnique(w.tree, w.at, NewDir(Slashed(last)).value);
    }
  }

  lemma {:induction false} BuildKeepsUnique(tree: Node, lines: seq<string>)
    requires tree.Dir? && WellFormed(lines) && Build(tree, lines).Ok? && UniqueNames(tree)
    ensures UniqueNames(Build(tree, lines).value)
    decreases |lines|
  {
    if lines != [] {
      WellFormedTail(lines);
      var t := Trim(lines[0]);
      if t != "" {
        ApplyLineKeepsUnique(tree, Classify(t));
      }
      BuildKeepsUnique(Step(tree, lines[0]).value, lines[1..]);
    }
  }

  /** No directory of a parsed tree has two children with the same name. */
  lemma DescriptorUnique(lines: seq<string>, rootName: string)
    requires WellFormed(lines) && DescribedTree(lines, rootName).Ok?
    ensures UniqueNames(DescribedTree(lines, rootName).value)
  {
    BuildKeepsUnique(NewDir(RootName(rootName)).value, lines);
  }

  /** Walking a chain that already exists creates nothing. */
  lemma {:induction false} WalkExisting(w: Walked, segs: seq<string>)
    requires Resolve(w.tree, w.at + SlashedAll(segs)).Some?
    ensures Resolve(w.tree, w.at).Some?
    ensures Walk(w, segs) == Ok(Walked(w.tree, w.at + SlashedAll(segs)))
    decreases |segs|
  {
    if segs == [] {
      assert w.at + SlashedAll(segs) == w.at;
    } else {
      var name := Slashed(segs[0]);
      SlashedAllCons(w.at, segs);
      ResolvePrefix(w.tree, w.at + [name], SlashedAll(segs[1..]));
      ResolveAppend(w.tree, w.at, name);
      WalkExisting(Walked(w.tree, w.at + [name]), segs[1..]);
    }
  }

  /** A line that applies cleanly walked its chain and then placed its resource. */
  lemma {:induction false} ApplyLineWalks(tree: Node, l: Line)
    requires tree.Dir? && |l.path| >= 1 && ApplyLine(tree, l).Ok?
    ensures Walk(Walked(tree, []), l.path[..Leading(l)]).Ok?
    ensures ApplyLine(tree, l) == Place(Walk(Walked(tree, []), l.path[..Leading(l)]).value, l)
    ensures Walk(Walked(tree, []), l.path[..Leading(l)]).value.at == SlashedAll(l.path[..Leading(l)])
  {
    assert [] + SlashedAll(l.path[..Leading(l)]) == SlashedAll(l.path[..Leading(l)]);
  }

  /** Placing a directory line leaves a child named after its last
      component in the directory the walk ended in. */
  lemma {:induction false} PlaceDirHasChild(w: Walked, l: Line)
    requires Resolve(w.tree, w.at).Some? && l.DirLine? && |l.path| >= 1 && Place(w, l).Ok?
    ensures Resolve(Place(w, l).value, w.at).Some?
    ensures HasChild(Resolve(Place(w, l).value, w.at).value.children, Slashed(l.path[|l.path| - 1]))
  {
    var name := Slashed(l.path[|l.path| - 1]);
    var here := Resolve(w.tree, w.at).value;
    var r := Place(w, l);
    if FindIn(here.children, name, false).None? {
      var dir := NewDir(name).value;
      assert r == InsertAt(w.tree, w.at, dir);
      assert Resolve(r.value, w.at) == Some(AddChild(here, dir).value);
      AddedIsChild(here, dir);
    } else {
      assert r == Ok(w.tree);
      FindDirect(here.children, name);
      assert HasChild(here.children, name);
    }
  }

  lemma AddedIsChild(d: Node, res: Node)
    requires d.Dir? && AddChild(d, res).Ok?
    ensures HasChild(AddChild(d, res).value.children, res.name)
  {
    RebindKeepsShape(res, d.parentPath);
    var cs := AddChild(d, res).value.children;
    assert cs[|cs| - 1].name == res.name;
  }

  /** After a directory line, the directory its chain names holds a child
      named after the last component: the line `a/b` ends up with `a/b/b/`. */
  lemma {:induction false} DirLineNests(tree: Node, l: Line)
    requires tree.Dir? && l.DirLine? && |l.path| >= 1 && ApplyLine(tree, l).Ok?
    ensures Resolve(ApplyLine(tree, l).value, SlashedAll(l.path)).Some?
    ensures HasChild(Resolve(ApplyLine(tree, l).value, SlashedAll(l.path)).value.children, Slashed(l.path[|l.path| - 1]))
  {
    ApplyLineWalks(tree, l);
    assert l.path[..Leading(l)] == l.path;
    PlaceDirHasChild(Walk(Walked(tree, []), l.path).value, l);
  }

  /** Placing a directory line where the name exists changes nothing. */
  lemma PlaceDirExisting(w: Walked, l: Line)
    requires Resolve(w.tree, w.at).Some? && l.DirLine? && |l.path| >= 1
    requires HasChild(Resolve(w.tree, w.at).value.children, Slashed(l.path[|l.path| - 1]))
    ensures Place(w, l) == Ok(w.tree)
  {
    var here := Resolve(w.tree, w.at).value;
    var name := Slashed(l.path[|l.path| - 1]);
    assert FindIn(here.children, name, false).Some? by {
      FindDirect(here.children, name);
    }
    PlaceDirFound(w, name);
    PlaceOfDirLine(w, l);
  }

  lemma PlaceDirFound(w: Walked, name: string)
    requires Resolve(w.tree, w.at).Some? && name != ""
    requires FindIn(Resolve(w.tree, w.at).value.children, name, false).Some?
    ensures PlaceDir(w, name) == Ok(w.tree)
  {
  }

  lemma PlaceOfDirLine(w: Walked, l: Line)
    requires Resolve(w.tree, w.at).Some? && l.DirLine? && |l.path| >= 1
    ensures Place(w, l) == PlaceDir(w, Slashed(l.path[|l.path| - 1]))
  {
  }

  /** Repeating a directory line changes nothing and does not fail. */
  lemma {:induction false} DirLineIdempotent(tree: Node, l: Line)
    requires tree.Dir? && l.DirLine? && |l.path| >= 1 && ApplyLine(tree, l).Ok?
    ensures ApplyLine(ApplyLine(tree, l).value, l) == ApplyLine(tree, l)
  {
    var t1 := ApplyLine(tree, l).value;
    DirLineNests(tree, l);
    assert l.path[..Leading(l)] == l.path;
    assert [] + SlashedAll(l.path) == SlashedAll(l.path);
    WalkExisting(Walked(t1, []), l.path);
    PlaceDirExisting(Walked(t1, SlashedAll(l.path)), l);
  }

  /** Declaring the same file twice fails on the second declaration, whatever its contents. */
  lemma {:induction false} FileLineTwiceFails(tree: Node, p: seq<string>, content: string, again: string)
    requires tree.Dir? && |p| >= 1 && ApplyLine(tree, FileLine(p, content)).Ok?
    ensures ApplyLine(ApplyLine(tree, FileLine(p, content)).value, FileLine(p, again))
         == Err(Duplicate(p[|p| - 1]))
  {
    var t1 := ApplyLine(tree, FileLine(p, content)).value;
    var segs := p[..|p| - 1];
    var w := Walk(Walked(tree, []), segs).value;
    var last := p[|p| - 1];
    var file := NewFile(last, content);
    RebindKeepsShape(file, Resolve(w.tree, w.at).value.parentPath);
    var added := AddChild(Resolve(w.tree, w.at).value, file).value;
    assert added.children[|added.children| - 1].name == last;
    assert [] + SlashedAll(segs) == w.at;
    WalkExisting(Walked(t1, []), segs);
  }

  /** A path component the descriptor format can carry unchanged. */
  predicate PlainSegment(seg: string)
  {
    seg != "" && IsTrimmed(seg) && '/' !in seg && '|' !in seg
  }

  /** The descriptor line that declares a parsed line. */
  function Format(l: Line): string
    requires |l.path| >= 1
  {
    match l
    case FileLine(p, content) => JoinWith(p, '/') + "|" + content
    case DirLine(p) => JoinWith(p, '/')
  }

  lemma {:induction false} JoinAvoids(ps: seq<string>, c: char, delim: char)
    requires |ps| >= 1 && c != delim
    requires forall k :: 0 <= k < |ps| ==> c !in ps[k]
    ensures c !in JoinWith(ps, delim)
  {
    if |ps| > 1 {
      JoinAvoids(ps[1..], c, delim);
    }
  }

  /** Joined non-empty components start with the first one's first
      character and end with the last one's last character. */
  lemma {:induction false} JoinEnds(ps: seq<string>, delim: char)
    requires |ps| >= 1 && forall k :: 0 <= k < |ps| ==> ps[k] != ""
    ensures JoinWith(ps, delim) != []
    ensures JoinWith(ps, delim)[0] == ps[0][0]
    ensures JoinWith(ps, delim)[|JoinWith(ps, delim)| - 1] == ps[|ps| - 1][|ps[|ps| - 1]| - 1]
  {
    if |ps| > 1 {
      JoinEnds(ps[1..], delim);
    }
  }

  lemma TrimmedIsKept(s: string)
    requires IsTrimmed(s)
    ensures Trim(s) == s
  {
    TrimFramed("", s, "");
    assert "" + s + "" == s;
  }

  /** Reading back a formatted line gives the line: the parser reads every
      declaration whose components are plain and whose contents are trimmed
      as it was written. */
  lemma ClassifyFormat(l: Line)
    requires |l.path| >= 1 && forall k :: 0 <= k < |l.path| ==> PlainSegment(l.path[k])
    requires l.FileLine? ==> IsTrimmed(l.content)
    ensures Classify(Format(l)) == l
  {
    var j := JoinWith(l.path, '/');
    JoinAvoids(l.path, '|', '/');
    JoinEnds(l.path, '/');
    TrimmedIsKept(j);
    TokensOfJoin(l.path, '/');
    var s := Format(l);
    assert forall k :: 0 <= k < |j| ==> s[k] == j[k] && j[k] != '|';
    if l.FileLine? {
      assert s[|j|] == '|';
      assert CharIndex(s, '|') == |j|;
      assert s[..|j|] == j;
      assert s[|j| + 1..] == l.content;
      TrimmedIsKept(l.content);
    } else {
      assert CharIndex(s, '|') == |s|;
    }
  }
}
