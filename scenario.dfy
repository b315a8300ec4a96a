/// A worked descriptor of three lines: a directory `d/`, a file `d/f | c`
/// inside it, and a file `e/g | k` in a second directory. The parse nests
/// the first line's component, so `d/` ends up holding a directory `d/`
/// beside the file `f`. With d = images, f = cat.png, c = binarydata123,
/// e = docs, g = readme.txt and k = hello world this is the tree of 24
/// bytes in two top-level directories that the lines
/// `images/`, `images/cat.png | binarydata123`, `docs/readme.txt | hello world`
/// describe.
module Scenario {
  import opened Nodes
  import opened Directory
  import opened Paths
  import opened Strings
  import opened Descriptor

  /** The line declaring the directory `d`. */
  function DirDecl(d: string): string
  {
    d + "/"
  }

  /** The line declaring the file `f` with contents `c` in the directory `d`. */
  function FileDecl(d: string, f: string, c: string): string
  {
    d + "/" + f + " | " + c
  }

  /** The names and contents the scenario can use: plain components, two
      different directories, non-empty trimmed contents. */
  predicate Fits(d: string, f: string, c: string, e: string, g: string, k: string)
  {
    PlainSegment(d) && PlainSegment(f) && PlainSegment(e) && PlainSegment(g) && d != e &&
    c != [] && IsTrimmed(c) && k != [] && IsTrimmed(k)
  }

  function AfterFirst(d: string): Node
  {
    Dir("/", "/", [Dir(d + "/", "/", [Dir(d + "/", "/", [])])])
  }

  function AfterSecond(d: string, f: string, c: string): Node
  {
    Dir("/", "/", [Dir(d + "/", "/", [Dir(d + "/", "/", []), File(f, "/", c)])])
  }

  /** The tree the three lines build. */
  function Expected(d: string, f: string, c: string, e: string, g: string, k: string): Node
  {
    Dir("/", "/", [
      Dir(d + "/", "/", [Dir(d + "/", "/", []), File(f, "/", c)]),
      Dir(e + "/", "/", [File(g, "/", k)])])
  }

  lemma EmptyDirRebinds(name: string, p: string)
    ensures Rebind(Dir(name, "/", []), p) == Dir(name, p, [])
  {
  }

  lemma SlashedPlain(d: string)
    requires PlainSegment(d)
    ensures Slashed(d) == d + "/"
  {
    assert d[|d| - 1] in d;
  }

  lemma {:induction false} CharIndexAfter(a: string, c: char, b: string)
    requires c !in a
    ensures CharIndex(a + [c] + b, c) == |a|
  {
    var s := a + [c] + b;
    assert s[|a|] == c;
    assert forall k :: 0 <= k < |a| ==> s[k] == a[k];
  }

  /** A directory line `d/` reads as the one-component directory line. */
  lemma {:induction false} DirDeclReads(d: string)
    requires PlainSegment(d)
    ensures Trim(DirDecl(d)) == DirDecl(d)
    ensures Classify(DirDecl(d)) == DirLine([d])
  {
    var s := DirDecl(d);
    assert s[0] == d[0] && s[|s| - 1] == '/';
    TrimmedIsKept(s);
    assert forall k :: 0 <= k < |s| ==> s[k] != '|';
    assert CharIndex(s, '|') == |s|;
    assert Classify(s) == DirLine(Tokens(s, '/'));
    DirTokens(d);
  }

  lemma DirTokens(d: string)
    requires PlainSegment(d)
    ensures Tokens(d + "/", '/') == [d]
  {
    assert d + "/" == d + ['/'] + "";
    PiecesCut(d, "", '/');
    assert Pieces("", '/') == [""];
    assert Pieces(d + "/", '/') == [d] + [""];
    KeepAllAppend([d], [""]);
    KeepAllSingle(d);
    KeepAllSingle("");
    TrimmedIsKept(d);
    assert Trim("") == "";
  }

  /** A line with a '|' is cut at the first one. */
  lemma ClassifyAtBar(a: string, b: string)
    requires '|' !in a
    ensures Classify(a + "|" + b) == FileLine(Tokens(Trim(a), '/'), Trim(b))
  {
    var s := a + "|" + b;
    CharIndexAfter(a, '|', b);
    assert s[..|a|] == a;
    assert s[|a| + 1..] == b;
  }

  lemma PathTrims(d: string, f: string)
    requires PlainSegment(d) && PlainSegment(f)
    ensures Trim(d + "/" + f + " ") == d + "/" + f
    ensures '|' !in d + "/" + f + " "
  {
    var path := d + "/" + f;
    assert path[0] == d[0] && path[|path| - 1] == f[|f| - 1];
    assert path + " " == "" + path + " ";
    TrimFramed("", path, " ");
  }

  lemma PathSplits(d: string, f: string)
    requires PlainSegment(d) && PlainSegment(f)
    ensures Tokens(d + "/" + f, '/') == [d, f]
  {
    assert [d, f][1..] == [f];
    assert JoinWith([d, f], '/') == d + "/" + f;
    TokensOfJoin([d, f], '/');
  }

  lemma ContentsRead(c: string)
    requires IsTrimmed(c)
    ensures Trim(" " + c) == c
  {
    assert " " + c == " " + c + "";
    TrimFramed(" ", c, "");
  }

  /** A file line `d/f | c` reads as the two-component file line with contents `c`. */
  lemma {:induction false} FileDeclReads(d: string, f: string, c: string)
    requires PlainSegment(d) && PlainSegment(f) && c != [] && IsTrimmed(c)
    ensures Trim(FileDecl(d, f, c)) == FileDecl(d, f, c)
    ensures Classify(FileDecl(d, f, c)) == FileLine([d, f], c)
  {
    var line := FileDecl(d, f, c);
    var path := d + "/" + f;
    assert line == (path + " ") + "|" + (" " + c);
    PathTrims(d, f);
    PathSplits(d, f);
    ContentsRead(c);
    ClassifyAtBar(path + " ", " " + c);
    assert line[0] == d[0] && line[|line| - 1] == c[|c| - 1];
    TrimmedIsKept(line);
  }

  /** The first line creates `d/` and, inside it, `d/` again. */
  lemma {:induction false} FirstApplies(d: string)
    requires PlainSegment(d)
    ensures ApplyLine(Dir("/", "/", []), DirLine([d])) == Ok(AfterFirst(d))
  {
    var root := Dir("/", "/", []);
    var l := DirLine([d]);
    var name := d + "/";
    SlashedPlain(d);
    var empty := Dir(name, "/", []);
    assert NewDir(name) == Ok(empty);
    EmptyDirRebinds(name, "/");
    var t1 := Dir("/", "/", [empty]);
    assert FirstIndex(root.children, name) == None;
    assert root.children + [Rebind(empty, "/")] == [empty];
    assert AddChild(root, empty) == Ok(t1);
    assert InsertAt(root, [], empty) == Ok(t1);
    assert FindIn(root.children, name, false) == None;
    assert Resolve(root, []) == Some(root);
    assert [] + [name] == [name];
    assert Descend(Walked(root, []), d) == Ok(Walked(t1, [name]));
    assert l.path[..Leading(l)] == [d];
    assert Walk(Walked(root, []), [d]) == Ok(Walked(t1, [name]));
    assert FirstIndex(t1.children, name) == Some(0);
    assert Resolve(t1, [name]) == Some(empty);
    var inner := Dir(name, "/", [empty]);
    assert FirstIndex(empty.children, name) == None;
    assert empty.children + [Rebind(empty, "/")] == [empty];
    assert AddChild(empty, empty) == Ok(inner);
    assert t1.children[0 := inner] == [inner];
    assert InsertAt(t1, [name], empty) == Ok(AfterFirst(d));
    assert Place(Walked(t1, [name]), l) == Ok(AfterFirst(d));
  }

  /** The second line finds `d/` and adds `f` to it. */
  lemma {:induction false} SecondApplies(d: string, f: string, c: string)
    requires PlainSegment(d) && PlainSegment(f)
    ensures ApplyLine(AfterFirst(d), FileLine([d, f], c)) == Ok(AfterSecond(d, f, c))
  {
    var name := d + "/";
    SlashedPlain(d);
    var empty := Dir(name, "/", []);
    var inner := Dir(name, "/", [empty]);
    var t2 := AfterFirst(d);
    var l := FileLine([d, f], c);
    assert FirstIndex(t2.children, name) == Some(0);
    FindDirect(t2.children, name);
    assert Resolve(t2, []) == Some(t2);
    assert [] + [name] == [name];
    assert Descend(Walked(t2, []), d) == Ok(Walked(t2, [name]));
    assert l.path[..Leading(l)] == [d];
    assert Walk(Walked(t2, []), [d]) == Ok(Walked(t2, [name]));
    var file := File(f, "/", c);
    assert NewFile(f, c) == file;
    assert Rebind(file, "/") == file;
    assert f != name by {
      assert name[|name| - 1] == '/';
    }
    assert FirstIndex(inner.children, f) == None;
    var grown := Dir(name, "/", [empty, file]);
    assert inner.children + [file] == [empty, file];
    assert AddChild(inner, file) == Ok(grown);
    assert InsertAt(inner, [], file) == Ok(grown);
    assert t2.children[0 := grown] == [grown];
    assert InsertAt(t2, [name], file) == Ok(AfterSecond(d, f, c));
    assert Place(Walked(t2, [name]), l) == Ok(AfterSecond(d, f, c));
  }

  /** Two different plain components name different directories. */
  lemma SlashedDiffer(d: string, e: string)
    requires PlainSegment(d) && PlainSegment(e) && d != e
    ensures d + "/" != e + "/"
  {
    var a, b := d + "/", e + "/";
    assert a[..|d|] == d && b[..|e|] == e;
    if |d| < |e| {
      assert a[|d|] == '/' && b[|d|] == e[|d|];
    } else if |e| < |d| {
      assert b[|e|] == '/' && a[|e|] == d[|e|];
    }
  }

  /** The walk of the third line creates `e/` beside `d/`. */
  lemma {:induction false} ThirdWalks(d: string, f: string, c: string, e: string)
    requires PlainSegment(d) && PlainSegment(e) && d != e
    ensures Walk(Walked(AfterSecond(d, f, c), []), [e])
      == Ok(Walked(Dir("/", "/", [AfterSecond(d, f, c).children[0], Dir(e + "/", "/", [])]), [e + "/"]))
  {
    var t3 := AfterSecond(d, f, c);
    var first := t3.children[0];
    var name := e + "/";
    SlashedPlain(e);
    SlashedDiffer(d, e);
    var empty := Dir(name, "/", []);
    assert NewDir(name) == Ok(empty);
    EmptyDirRebinds(name, "/");
    assert FirstIndex(t3.children, name) == None;
    FindDirect(t3.children, name);
    var t4 := Dir("/", "/", [first, empty]);
    assert t3.children + [empty] == [first, empty];
    assert AddChild(t3, empty) == Ok(t4);
    assert InsertAt(t3, [], empty) == Ok(t4);
    assert Resolve(t3, []) == Some(t3);
    assert [] + [name] == [name];
    assert Descend(Walked(t3, []), e) == Ok(Walked(t4, [name]));
    assert [e][1..] == [];
  }

  /** The third line creates `e/` beside `d/` and adds `g` to it. */
  lemma {:induction false} ThirdApplies(d: string, f: string, c: string, e: string, g: string, k: string)
    requires Fits(d, f, c, e, g, k)
    ensures ApplyLine(AfterSecond(d, f, c), FileLine([e, g], k)) == Ok(Expected(d, f, c, e, g, k))
  {
    var t3 := AfterSecond(d, f, c);
    var first := t3.children[0];
    var l := FileLine([e, g], k);
    var name := e + "/";
    var empty := Dir(name, "/", []);
    var t4 := Dir("/", "/", [first, empty]);
    ThirdWalks(d, f, c, e);
    assert l.path[..Leading(l)] == [e];
    var file := File(g, "/", k);
    assert NewFile(g, k) == file;
    assert Rebind(file, "/") == file;
    var second := Dir(name, "/", [file]);
    assert FirstIndex(empty.children, g) == None;
    assert empty.children + [file] == [file];
    assert AddChild(empty, file) == Ok(second);
    assert InsertAt(empty, [], file) == Ok(second);
    SlashedDiffer(d, e);
    assert FirstIndex(t4.children, name) == Some(1);
    assert t4.children[1 := second] == [first, second];
    assert InsertAt(t4, [name], file) == Ok(Expected(d, f, c, e, g, k));
    assert Place(Walked(t4, [name]), l) == Ok(Expected(d, f, c, e, g, k));
  }

  lemma LinesStep(d: string, f: string, c: string, e: string, g: string, k: string)
    requires Fits(d, f, c, e, g, k)
    ensures HasSegment(DirDecl(d)) && HasSegment(FileDecl(d, f, c)) && HasSegment(FileDecl(e, g, k))
    ensures Step(Dir("/", "/", []), DirDecl(d)) == Ok(AfterFirst(d))
    ensures Step(AfterFirst(d), FileDecl(d, f, c)) == Ok(AfterSecond(d, f, c))
    ensures Step(AfterSecond(d, f, c), FileDecl(e, g, k)) == Ok(Expected(d, f, c, e, g, k))
  {
    DirDeclReads(d);
    FileDeclReads(d, f, c);
    FileDeclReads(e, g, k);
    FirstApplies(d);
    SecondApplies(d, f, c);
    ThirdApplies(d, f, c, e, g, k);
  }

  /** Three lines that each step once build what the three steps build. */
  lemma BuildThree(t0: Node, a: string, b: string, c: string, t1: Node, t2: Node, t3: Node)
    requires t0.Dir? && t1.Dir? && t2.Dir?
    requires HasSegment(a) && HasSegment(b) && HasSegment(c)
    requires Step(t0, a) == Ok(t1) && Step(t1, b) == Ok(t2) && Step(t2, c) == Ok(t3)
    ensures WellFormed([a, b, c]) && Build(t0, [a, b, c]) == Ok(t3)
  {
    var lines := [a, b, c];
    forall i | 0 <= i < 3
      ensures HasSegment(lines[i])
    {
      assert lines[i] == if i == 0 then a else if i == 1 then b else c;
    }
    assert lines[1..] == [b, c] && [b, c][1..] == [c] && [c][1..] == [];
    assert Build(t3, []) == Ok(t3);
    assert Build(t2, [c]) == Ok(t3);
    assert Build(t1, [b, c]) == Ok(t3);
  }

  /** The three lines parse, under an unnamed root, to the expected tree:
      the root holds `d/` and `e/`, its size is the two contents' lengths
      summed, and `d/` holds two entries, the nested `d/` directory and `f`. */
  lemma ScenarioParses(d: string, f: string, c: string, e: string, g: string, k: string)
    requires Fits(d, f, c, e, g, k)
    ensures var lines := [DirDecl(d), FileDecl(d, f, c), FileDecl(e, g, k)];
      WellFormed(lines) && DescribedTree(lines, "") == Ok(Expected(d, f, c, e, g, k))
    ensures Expected(d, f, c, e, g, k).Size() == |c| + |k|
    ensures Expected(d, f, c, e, g, k).Count() == 2
    ensures Expected(d, f, c, e, g, k).children[0].Count() == 2
    ensures Expected(d, f, c, e, g, k).children[0].children[0] == Dir(d + "/", "/", [])
  {
    LinesStep(d, f, c, e, g, k);
    var root := Dir("/", "/", []);
    assert NewDir(RootName("")) == Ok(root);
    BuildThree(root, DirDecl(d), FileDecl(d, f, c), FileDecl(e, g, k),
      AfterFirst(d), AfterSecond(d, f, c), Expected(d, f, c, e, g, k));
    ExpectedSize(d, f, c, e, g, k);
  }

  lemma ExpectedSize(d: string, f: string, c: string, e: string, g: string, k: string)
    ensures Expected(d, f, c, e, g, k).Size() == |c| + |k|
  {
    var t := Expected(d, f, c, e, g, k);
    var first := t.children[0];
    var second := t.children[1];
    var file := File(f, "/", c);
    assert [file][1..] == [];
    assert SumSizes([file]) == |c|;
    assert first.children[1..] == [file];
    assert first.children[0].Size() == 0;
    assert SumSizes(first.children) == |c|;
    var other := File(g, "/", k);
    assert [other][1..] == [];
    assert second.children == [other];
    assert SumSizes(second.children) == |k|;
    assert [second][1..] == [];
    assert t.children[1..] == [second];
    assert SumSizes(t.children[1..]) == |k|;
    assert first.Size() == |c|;
    assert SumSizes(t.children) == first.Size() + SumSizes(t.children[1..]);
  }
}
