/// The container operations of a directory: duplicate-checked insertion
/// (`operator+=`), lookup by name with optional depth-first recursion
/// (`find`), removal of a direct child (`remove`) and the size loop.
module Directory {
  import opened Nodes

  /** Some node of `cs` carries exactly the name `target`. */
  predicate HasChild(cs: seq<Node>, target: string)
  {
    exists k :: 0 <= k < |cs| && cs[k].name == target
  }

  /** Names are pairwise different among siblings. */
  predicate DistinctNames(cs: seq<Node>)
  {
    forall i, j :: 0 <= i < j < |cs| ==> cs[i].name != cs[j].name
  }

  /** Sibling names are distinct in every directory of the subtree. */
  predicate UniqueNames(n: Node)
  {
    n.Dir? ==>
      DistinctNames(n.children) &&
      forall k :: 0 <= k < |n.children| ==> UniqueNames(n.children[k])
  }

  /** The position of the first node named `target`, if any. */
  function FirstIndex(cs: seq<Node>, target: string): (r: Option<nat>)
    ensures r.None? <==> !HasChild(cs, target)
    ensures r.Some? ==> r.value < |cs| && cs[r.value].name == target
    ensures r.Some? ==> forall j :: 0 <= j < r.value ==> cs[j].name != target
  {
    if cs == [] then None
    else if cs[0].name == target then Some(0)
    else match FirstIndex(cs[1..], target)
      case None => None
      case Some(i) => Some(i + 1)
  }

  /** The first node of `s` named `target`: the reference for every lookup. */
  function FirstNamed(s: seq<Node>, target: string): (r: Option<Node>)
    ensures r.Some? <==> HasChild(s, target)
    ensures r.Some? ==> r.value in s && r.value.name == target
  {
    if s == [] then None
    else if s[0].name == target then Some(s[0])
    else FirstNamed(s[1..], target)
  }

  /** `operator+=`: refused when a direct child already has the name;
      otherwise the node, rebound to this directory's own parent path (not
      to its `path()`), is appended after the existing children. */
  function AddChild(d: Node, res: Node): (r: Result<Node>)
    requires d.Dir?
    ensures r.Err? <==> HasChild(d.children, res.name)
    ensures r.Err? ==> r.error == Duplicate(res.name)
    ensures r.Ok? ==> r.value.Dir? && r.value.name == d.name && r.value.parentPath == d.parentPath
    ensures r.Ok? ==> r.value.children == d.children + [Rebind(res, d.parentPath)]
  {
    if FirstIndex(d.children, res.name).Some? then Err(Duplicate(res.name))
    else Ok(Dir(d.name, d.parentPath, d.children + [Rebind(res, d.parentPath)]))
  }

  /** The scan-then-push loop of `operator+=`. */
  method Insert(d: Node, res: Node) returns (r: Result<Node>)
    requires d.Dir?
    ensures r == AddChild(d, res)
  {
    var i := 0;
    while i < |d.children|
      invariant 0 <= i <= |d.children|
      invariant forall k :: 0 <= k < i ==> d.children[k].name != res.name
    {
      if d.children[i].name == res.name {
        return Err(Duplicate(res.name));
      }
      i := i + 1;
    }
    var placed := UpdateParentPath(res, d.parentPath);
    r := Ok(Dir(d.name, d.parentPath, d.children + [placed]));
  }

  /** A successful insertion adds exactly the inserted subtree's size and one child. */
  lemma AddChildSize(d: Node, res: Node)
    requires d.Dir? && AddChild(d, res).Ok?
    ensures AddChild(d, res).value.Size() == d.Size() + res.Size()
    ensures AddChild(d, res).value.Count() == d.Count() + 1
  {
    RebindKeepsShape(res, d.parentPath);
    SumSizesAppend(d.children, [Rebind(res, d.parentPath)]);
  }

  lemma {:induction false} SumSizesAppend(a: seq<Node>, b: seq<Node>)
    ensures SumSizes(a + b) == SumSizes(a) + SumSizes(b)
  {
    if a != [] {
      assert (a + b)[1..] == a[1..] + b;
      SumSizesAppend(a[1..], b);
    } else {
      assert a + b == b;
    }
  }

  /** Unique names only depend on names, which rebinding keeps. */
  lemma {:induction false} UniqueNamesIgnorePaths(a: Node, b: Node)
    requires Erase(a) == Erase(b)
    ensures UniqueNames(a) == UniqueNames(b)
  {
    match a
    case File(_, _, _) =>
    case Dir(_, _, cs) =>
      var ds := b.children;
      assert |Erase(a).children| == |Erase(b).children|;
      forall k | 0 <= k < |cs|
        ensures cs[k].name == ds[k].name && UniqueNames(cs[k]) == UniqueNames(ds[k])
      {
        assert Erase(a).children[k] == Erase(b).children[k];
        UniqueNamesIgnorePaths(cs[k], ds[k]);
      }
  }

  /** Insertion keeps sibling names unique in the whole subtree. */
  lemma AddChildKeepsUnique(d: Node, res: Node)
    requires d.Dir? && UniqueNames(d) && UniqueNames(res) && AddChild(d, res).Ok?
    ensures UniqueNames(AddChild(d, res).value)
  {
    var placed := Rebind(res, d.parentPath);
    RebindOnlyMovesPaths(res, d.parentPath);
    UniqueNamesIgnorePaths(placed, res);
    var cs := AddChild(d, res).value.children;
    assert cs == d.children + [placed];
    forall k | 0 <= k < |cs| ensures UniqueNames(cs[k]) {
      if k < |d.children| { assert cs[k] == d.children[k]; }
    }
  }

  /** `find` on one child: the child itself when its name matches, else,
      under RECURSIVE, the first match inside it when it is a directory. */
  function FindAt(n: Node, target: string, recursive: bool): (r: Option<Node>)
    ensures r.Some? ==> r.value.name == target
    ensures n.name == target ==> r == Some(n)
    ensures !recursive ==> (r.Some? <==> n.name == target)
  {
    if n.name == target then Some(n)
    else if recursive && n.Dir? then FindIn(n.children, target, recursive)
    else None
  }

  /** `find`: child i is checked, and searched when RECURSIVE, before child i + 1. */
  function FindIn(cs: seq<Node>, target: string, recursive: bool): (r: Option<Node>)
    ensures r.Some? ==> r.value.name == target
    ensures FirstIndex(cs, target).Some? ==> r.Some?
    ensures !recursive ==> (r.Some? <==> FirstIndex(cs, target).Some?)
  {
    if cs == [] then None
    else
      match FindAt(cs[0], target, recursive)
      case Some(found) => Some(found)
      case None => FindIn(cs[1..], target, recursive)
  }

  /** The loop of `find`, with its early returns. */
  method Find(d: Node, target: string, recursive: bool) returns (r: Option<Node>)
    requires d.Dir?
    ensures r == FindIn(d.children, target, recursive)
  {
    var i := 0;
    while i < |d.children|
      invariant 0 <= i <= |d.children|
      invariant FindIn(d.children, target, recursive) == FindIn(d.children[i..], target, recursive)
    {
      var c := d.children[i];
      assert d.children[i..][1..] == d.children[i + 1..];
      if c.name == target {
        return Some(c);
      }
      if recursive && c.Dir? {
        var found := Find(c, target, recursive);
        if found.Some? {
          return found;
        }
      }
      i := i + 1;
    }
    assert d.children[i..] == [];
    return None;
  }

  /** Every node below the given ones, each followed by its own descendants. */
  function PreOrder(cs: seq<Node>): seq<Node>
  {
    if cs == [] then [] else PreOrderAt(cs[0]) + PreOrder(cs[1..])
  }

  function PreOrderAt(n: Node): seq<Node>
  {
    [n] + if n.Dir? then PreOrder(n.children) else []
  }

  lemma {:induction false} FirstNamedAppend(a: seq<Node>, b: seq<Node>, target: string)
    ensures FirstNamed(a + b, target)
         == if FirstNamed(a, target).Some? then FirstNamed(a, target) else FirstNamed(b, target)
  {
    if a != [] {
      assert (a + b)[1..] == a[1..] + b;
      FirstNamedAppend(a[1..], b, target);
    } else {
      assert a + b == b;
    }
  }

  /** Without RECURSIVE, `find` returns the first direct child with the name. */
  lemma {:induction false} FindDirect(cs: seq<Node>, target: string)
    ensures FindIn(cs, target, false) == FirstNamed(cs, target)
    ensures FindIn(cs, target, false)
         == match FirstIndex(cs, target) case None => None case Some(i) => Some(cs[i])
  {
    if cs != [] {
      FindDirect(cs[1..], target);
    }
  }

  /** With RECURSIVE, `find` returns the first match of the pre-order walk. */
  lemma {:induction false} FindDepthFirst(cs: seq<Node>, target: string)
    ensures FindIn(cs, target, true) == FirstNamed(PreOrder(cs), target)
  {
    if cs != [] {
      FindAtDepthFirst(cs[0], target);
      FindDepthFirst(cs[1..], target);
      FirstNamedAppend(PreOrderAt(cs[0]), PreOrder(cs[1..]), target);
    }
  }

  lemma {:induction false} FindAtDepthFirst(n: Node, target: string)
    ensures FindAt(n, target, true) == FirstNamed(PreOrderAt(n), target)
  {
    var rest := if n.Dir? then PreOrder(n.children) else [];
    assert PreOrderAt(n)[1..] == rest;
    if n.Dir? {
      FindDepthFirst(n.children, target);
    }
  }

  /** A non-recursive match is also found by the recursive search. */
  lemma FindRecursiveExtends(cs: seq<Node>, target: string)
    requires FindIn(cs, target, false).Some?
    ensures FindIn(cs, target, true).Some?
  {
    FindDirect(cs, target);
    FindDepthFirst(cs, target);
    var k :| 0 <= k < |cs| && cs[k].name == target;
    PreOrderContains(cs, k);
  }

  lemma {:induction false} PreOrderContains(cs: seq<Node>, k: nat)
    requires k < |cs|
    ensures cs[k] in PreOrder(cs)
  {
    if k > 0 {
      PreOrderContains(cs[1..], k - 1);
    }
  }

  /** `remove`: only direct children are inspected; the first one with the
      name is erased unless it is a directory and RECURSIVE is not set. */
  function RemoveChild(d: Node, target: string, recursive: bool): (r: Result<Node>)
    requires d.Dir?
    ensures r == Err(NotFound(target)) <==> !HasChild(d.children, target)
    ensures r == Err(IsDirectory(target))
        <==> HasChild(d.children, target) && FirstNamed(d.children, target).value.Dir? && !recursive
    ensures r.Ok? <==> HasChild(d.children, target) && (recursive || !FirstNamed(d.children, target).value.Dir?)
    ensures r.Err? ==> r.error == NotFound(target) || r.error == IsDirectory(target)
    ensures r.Ok? ==> r.value.Dir? && r.value.name == d.name && r.value.parentPath == d.parentPath
    ensures r.Ok? ==> |r.value.children| + 1 == |d.children|
  {
    FindDirect(d.children, target);
    match FirstIndex(d.children, target)
    case None => Err(NotFound(target))
    case Some(i) =>
      if d.children[i].Dir? && !recursive then Err(IsDirectory(target))
      else Ok(Dir(d.name, d.parentPath, d.children[..i] + d.children[i + 1..]))
  }

  /** The iterator loop of `remove`. */
  method Remove(d: Node, target: string, recursive: bool) returns (r: Result<Node>)
    requires d.Dir?
    ensures r == RemoveChild(d, target, recursive)
  {
    var i := 0;
    while i < |d.children|
      invariant 0 <= i <= |d.children|
      invariant forall j :: 0 <= j < i ==> d.children[j].name != target
    {
      if d.children[i].name == target {
        if d.children[i].Dir? && !recursive {
          return Err(IsDirectory(target));
        }
        return Ok(Dir(d.name, d.parentPath, d.children[..i] + d.children[i + 1..]));
      }
      i := i + 1;
    }
    return Err(NotFound(target));
  }

  /** A removal keeps the other children in order and drops the parent's
      size by exactly the removed subtree's size. */
  lemma RemoveChildSize(d: Node, target: string, recursive: bool)
    requires d.Dir? && RemoveChild(d, target, recursive).Ok?
    ensures var i := FirstIndex(d.children, target).value;
      && RemoveChild(d, target, recursive).value.children == d.children[..i] + d.children[i + 1..]
      && RemoveChild(d, target, recursive).value.Size() + d.children[i].Size() == d.Size()
  {
    var cs := d.children;
    var i := FirstIndex(cs, target).value;
    assert cs == cs[..i] + [cs[i]] + cs[i + 1..];
    SumSizesAppend(cs[..i] + [cs[i]], cs[i + 1..]);
    SumSizesAppend(cs[..i], [cs[i]]);
    SumSizesAppend(cs[..i], cs[i + 1..]);
  }

  /** Removing, with RECURSIVE, the node just inserted gives back the directory. */
  lemma RemoveUndoesAdd(d: Node, res: Node)
    requires d.Dir? && AddChild(d, res).Ok?
    ensures RemoveChild(AddChild(d, res).value, res.name, true) == Ok(d)
  {
    var cs := AddChild(d, res).value.children;
    var n := |d.children|;
    RebindKeepsShape(res, d.parentPath);
    assert cs[n].name == res.name;
    assert forall j :: 0 <= j < n ==> cs[j] == d.children[j];
    assert FirstIndex(cs, res.name) == Some(n);
    assert cs[..n] == d.children && cs[n + 1..] == [];
    assert cs[..n] + cs[n + 1..] == d.children;
  }

  /** In a directory with unique names, a removed name is gone afterwards and
      names stay unique. */
  lemma RemoveChildKeepsUnique(d: Node, target: string, recursive: bool)
    requires d.Dir? && UniqueNames(d) && RemoveChild(d, target, recursive).Ok?
    ensures UniqueNames(RemoveChild(d, target, recursive).value)
    ensures !HasChild(RemoveChild(d, target, recursive).value.children, target)
  {
    var cs := d.children;
    var i := FirstIndex(cs, target).value;
    var rest := RemoveChild(d, target, recursive).value.children;
    assert rest == cs[..i] + cs[i + 1..];
    DistinctWithout(cs, i);
    forall k | 0 <= k < |rest| ensures UniqueNames(rest[k]) {
      assert rest[k] in cs;
    }
  }

  /** Dropping one node of a sibling list with distinct names keeps the
      names distinct and leaves no other node with the dropped one's name. */
  lemma DistinctWithout(cs: seq<Node>, i: nat)
    requires DistinctNames(cs) && i < |cs|
    ensures DistinctNames(cs[..i] + cs[i + 1..])
    ensures !HasChild(cs[..i] + cs[i + 1..], cs[i].name)
  {
    var rest := cs[..i] + cs[i + 1..];
    assert forall k :: 0 <= k < |rest| ==> rest[k] == cs[if k < i then k else k + 1];
  }

  /** The accumulation loop of `Directory::size` (a file's size is its length). */
  method ComputeSize(n: Node) returns (total: nat)
    ensures total == n.Size()
  {
    match n
    case File(_, _, contents) =>
      total := |contents|;
    case Dir(_, _, children) =>
      total := 0;
      var i := 0;
      while i < |children|
        invariant 0 <= i <= |children|
        invariant total + SumSizes(children[i..]) == n.Size()
      {
        assert children[i..][1..] == children[i + 1..];
        var s := ComputeSize(children[i]);
        total := total + s;
        i := i + 1;
      }
  }
}
