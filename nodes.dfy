/// The two kinds of node of the in-memory tree, File and Directory, as one
/// closed datatype: their accessors (`type`, `path`, `count`, `size`), their
/// constructors, and `update_parent_path`, which rebinds a subtree to a new
/// parent path.
module Nodes {

  datatype Option<+T> = None | Some(value: T)

  /** The failures of the tree operations, one kind per way the source throws. */
  datatype Error =
    | EmptyName                      // a Directory constructed with an empty name
    | Duplicate(name: string)        // an insertion collides with a sibling's name
    | IsDirectory(name: string)      // a non-recursive removal hits a directory
    | NotFound(name: string)         // no direct child has that name
    | NotADirectory(name: string)    // a change of directory to a file

  datatype Result<+T> = Ok(value: T) | Err(error: Error)

  datatype NodeType = FILE | DIR

  /** A node owns its name and the parent path it was last bound to; a
      directory owns its children in insertion order. */
  datatype Node =
    | File(name: string, parentPath: string, contents: string)
    | Dir(name: string, parentPath: string, children: seq<Node>)
  {
    /** `type()`: the tag that the source's dynamic casts test. */
    function Type(): (t: NodeType)
      ensures t == DIR <==> Dir?
    {
      if Dir? then DIR else FILE
    }

    /** `path()`: the stored parent path, one separator when it does not
        already end in one, then the name. */
    function Path(): (p: string)
      ensures |p| == |parentPath| + |name| + (if EndsWithSlash(parentPath) then 0 else 1)
      ensures p[|p| - |name|..] == name
      ensures EndsWithSlash(p[..|p| - |name|])
      ensures |parentPath| <= |p| && p[..|parentPath|] == parentPath
    {
      JoinPath(parentPath, name)
    }

    /** `count()`: the number of direct children, or -1 for a file. */
    function Count(): (c: int)
      ensures c == -1 <==> File?
      ensures Dir? ==> c == |children|
    {
      match this
      case File(_, _, _) => -1
      case Dir(_, _, children) => |children|
    }

    /** `size()`: a file's content length; a directory's children's sizes, summed. */
    function Size(): nat
    {
      match this
      case File(_, _, contents) => |contents|
      case Dir(_, _, children) => SumSizes(children)
    }
  }

  function SumSizes(cs: seq<Node>): nat
  {
    if cs == [] then 0 else cs[0].Size() + SumSizes(cs[1..])
  }

  predicate EndsWithSlash(s: string)
  {
    |s| > 0 && s[|s| - 1] == '/'
  }

  /** The join rule shared by `File::path` and `Directory::path`. */
  function JoinPath(parent: string, name: string): (p: string)
    ensures |p| == |parent| + |name| + (if EndsWithSlash(parent) then 0 else 1)
    ensures p[..|parent|] == parent
    ensures p[|p| - |name|..] == name
    ensures EndsWithSlash(p[..|p| - |name|])
  {
    if EndsWithSlash(parent) then parent + name else parent + "/" + name
  }

  /** The File constructor: name and contents are stored verbatim (no
      trailing '/' is added and an empty name is accepted); the parent path
      starts at the root. */
  function NewFile(name: string, contents: string := ""): (f: Node)
    ensures f.File? && f.name == name && f.contents == contents
    ensures f.parentPath == "/"
    ensures f.Size() == |contents| && f.Count() == -1 && f.Type() == FILE
  {
    File(name, "/", contents)
  }

  /** The Directory constructor: an empty name is refused; otherwise the
      stored name is the given one with a '/' appended only when missing,
      the parent path is "/" and there are no children. */
  function NewDir(name: string): (r: Result<Node>)
    ensures r.Err? <==> name == ""
    ensures r.Err? ==> r.error == EmptyName
    ensures r.Ok? ==> r.value.Dir? && r.value.children == [] && r.value.parentPath == "/"
    ensures r.Ok? ==> |r.value.name| == |name| + (if EndsWithSlash(name) then 0 else 1)
    ensures r.Ok? ==> EndsWithSlash(r.value.name) && r.value.name[..|name|] == name
  {
    if name == "" then Err(EmptyName)
    else if EndsWithSlash(name) then Ok(Dir(name, "/", []))
    else Ok(Dir(name + "/", "/", []))
  }

  /** Constructing a directory from a stored directory name gives the same directory. */
  lemma NewDirIdempotent(name: string)
    requires name != ""
    ensures NewDir(NewDir(name).value.name) == NewDir(name)
  {
  }

  /** `update_parent_path(p)`: a file only takes `p`; a directory takes `p`
      and then rebinds every child, recursively, to its own new path. */
  function Rebind(n: Node, p: string): (r: Node)
    ensures r.name == n.name && r.parentPath == p && r.Type() == n.Type()
    ensures r.File? ==> r.contents == n.contents
    ensures r.Dir? ==> |r.children| == |n.children|
  {
    match n
    case File(name, _, contents) => File(name, p, contents)
    case Dir(name, _, children) =>
      var full := JoinPath(p, name);
      Dir(name, p, seq(|children|, k requires 0 <= k < |children| => Rebind(children[k], full)))
  }

  /** The loops of `File::update_parent_path` and `Directory::update_parent_path`. */
  method UpdateParentPath(n: Node, p: string) returns (r: Node)
    ensures r == Rebind(n, p)
  {
    match n
    case File(name, _, contents) =>
      r := File(name, p, contents);
    case Dir(name, _, children) =>
      var full := JoinPath(p, name);
      var rebound: seq<Node> := [];
      var i := 0;
      while i < |children|
        invariant 0 <= i <= |children|
        invariant |rebound| == i
        invariant forall k :: 0 <= k < i ==> rebound[k] == Rebind(children[k], full)
      {
        var c := UpdateParentPath(children[i], full);
        rebound := rebound + [c];
        i := i + 1;
      }
      r := Dir(name, p, rebound);
  }

  /** The tree with every parent path blanked: what rebinding must not change. */
  function Erase(n: Node): Node
  {
    match n
    case File(name, _, contents) => File(name, "", contents)
    case Dir(name, _, children) =>
      Dir(name, "", seq(|children|, k requires 0 <= k < |children| => Erase(children[k])))
  }

  /** Every child's stored parent path is its directory's `path()`, all the way down. */
  predicate WellPlaced(n: Node)
  {
    n.Dir? ==>
      forall k :: 0 <= k < |n.children| ==>
        n.children[k].parentPath == n.Path() && WellPlaced(n.children[k])
  }

  /** Rebinding sets the parent path and changes nothing but parent paths. */
  lemma {:induction false} RebindOnlyMovesPaths(n: Node, p: string)
    ensures Rebind(n, p).parentPath == p
    ensures Erase(Rebind(n, p)) == Erase(n)
  {
    match n
    case File(_, _, _) =>
    case Dir(name, _, children) =>
      var full := JoinPath(p, name);
      var moved := Rebind(n, p);
      forall k | 0 <= k < |children|
        ensures Erase(moved.children[k]) == Erase(children[k])
      {
        RebindOnlyMovesPaths(children[k], full);
      }
      assert Erase(moved).children == Erase(n).children;
  }

  /** After rebinding, every descendant's parent path is its parent's path. */
  lemma {:induction false} RebindPlacesSubtree(n: Node, p: string)
    ensures WellPlaced(Rebind(n, p))
  {
    match n
    case File(_, _, _) =>
    case Dir(name, _, children) =>
      var full := JoinPath(p, name);
      forall k | 0 <= k < |children|
        ensures WellPlaced(Rebind(children[k], full))
      {
        RebindPlacesSubtree(children[k], full);
      }
  }

  /** Only the last rebinding of a subtree matters. */
  lemma {:induction false} RebindAbsorbs(n: Node, p: string, q: string)
    ensures Rebind(Rebind(n, p), q) == Rebind(n, q)
  {
    match n
    case File(_, _, _) =>
    case Dir(name, _, children) =>
      var mid := Rebind(n, p);
      var full := JoinPath(q, name);
      forall k | 0 <= k < |children|
        ensures Rebind(mid.children[k], full) == Rebind(children[k], full)
      {
        RebindAbsorbs(children[k], JoinPath(p, name), full);
      }
      assert Rebind(mid, q).children == Rebind(n, q).children;
  }

  /** A subtree is well placed exactly when rebinding it to its own parent
      path leaves it as it is. */
  lemma {:induction false} WellPlacedIsFixpoint(n: Node)
    ensures WellPlaced(n) <==> Rebind(n, n.parentPath) == n
  {
    if Rebind(n, n.parentPath) == n {
      RebindPlacesSubtree(n, n.parentPath);
    }
    if WellPlaced(n) {
      match n
      case File(_, _, _) =>
      case Dir(name, pp, children) =>
        forall k | 0 <= k < |children|
          ensures Rebind(children[k], JoinPath(pp, name)) == children[k]
        {
          WellPlacedIsFixpoint(children[k]);
        }
        assert Rebind(n, pp).children == children;
    }
  }

  lemma {:induction false} SumSizesPointwise(cs: seq<Node>, ds: seq<Node>)
    requires |cs| == |ds|
    requires forall k :: 0 <= k < |cs| ==> cs[k].Size() == ds[k].Size()
    ensures SumSizes(cs) == SumSizes(ds)
  {
    if cs != [] {
      SumSizesPointwise(cs[1..], ds[1..]);
    }
  }

  /** Size depends on names and contents only, not on parent paths. */
  lemma {:induction false} SizeIgnoresPaths(a: Node, b: Node)
    requires Erase(a) == Erase(b)
    ensures a.Size() == b.Size()
  {
    match a
    case File(_, _, _) =>
    case Dir(_, _, cs) =>
      var ds := b.children;
      assert |Erase(a).children| == |Erase(b).children|;
      forall k | 0 <= k < |cs|
        ensures cs[k].Size() == ds[k].Size()
      {
        assert Erase(a).children[k] == Erase(b).children[k];
        SizeIgnoresPaths(cs[k], ds[k]);
      }
      SumSizesPointwise(cs, ds);
  }

  /** Rebinding keeps the name, the kind, the child count and the size. */
  lemma RebindKeepsShape(n: Node, p: string)
    ensures Rebind(n, p).name == n.name && Rebind(n, p).Type() == n.Type()
    ensures Rebind(n, p).Count() == n.Count()
    ensures Rebind(n, p).Size() == n.Size()
  {
    RebindOnlyMovesPaths(n, p);
    SizeIgnoresPaths(Rebind(n, p), n);
  }

  /** Every file's contents below a node, in depth-first insertion order. */
  function Content(n: Node): string
  {
    match n
    case File(_, _, contents) => contents
    case Dir(_, _, children) => ContentAll(children)
  }

  function ContentAll(cs: seq<Node>): string
  {
    if cs == [] then "" else Content(cs[0]) + ContentAll(cs[1..])
  }

  /** `size()` is the total length of all file contents below the node. */
  lemma {:induction false} SizeIsContentLength(n: Node)
    ensures n.Size() == |Content(n)|
  {
    match n
    case File(_, _, _) =>
    case Dir(_, _, children) => SumIsContentLength(children);
  }

  lemma {:induction false} SumIsContentLength(cs: seq<Node>)
    ensures SumSizes(cs) == |ContentAll(cs)|
  {
    if cs != [] {
      SizeIsContentLength(cs[0]);
      SumIsContentLength(cs[1..]);
    }
  }
}
