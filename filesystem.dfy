/// The Filesystem object: the tree built from a descriptor, and a current
/// directory that `change_directory` moves and `operator+=` adds to. The
/// current directory is kept as the path of child names from the root,
/// resolved on each use.
module Filesystem {
  import opened Nodes
  import opened Directory
  import opened Paths
  import opened Descriptor

  class Filesystem {
    var root: Node
    var cursor: seq<string>

    /** The root is a directory and the current directory exists in it. */
    predicate Valid()
      reads this
    {
      root.Dir? && Resolve(root, cursor).Some?
    }

    /** A filesystem over a built tree, positioned at its root. */
    constructor Init(tree: Node)
      requires tree.Dir?
      ensures Valid() && root == tree && cursor == []
    {
      root := tree;
      cursor := [];
    }

    /** The constructor: the descriptor's lines are parsed into a tree under
        a root named `rootName` ("/" when empty), and the current directory
        is the root. A failing line makes the whole construction fail. */
    static method Open(lines: seq<string>, rootName: string) returns (r: Result<Filesystem>)
      requires WellFormed(lines)
      ensures r.Err? <==> DescribedTree(lines, rootName).Err?
      ensures r.Err? ==> r.error == DescribedTree(lines, rootName).error
      ensures r.Ok? ==> fresh(r.value) && r.value.Valid() && r.value.cursor == []
      ensures r.Ok? ==> r.value.root == DescribedTree(lines, rootName).value
      ensures r.Ok? ==> r.value.root.Size() == DeclaredBytes(lines) && UniqueNames(r.value.root)
    {
      var tree := ParseDescriptor(lines, rootName);
      if tree.Err? {
        return Err(tree.error);
      }
      DescriptorSize(lines, rootName);
      DescriptorUnique(lines, rootName);
      var fs := new Filesystem.Init(tree.value);
      return Ok(fs);
    }

    /** `get_current_directory`: always a directory of the tree. */
    function CurrentDirectory(): (d: Node)
      reads this
      requires Valid()
      ensures d.Dir? && Resolve(root, cursor) == Some(d)
    {
      Resolve(root, cursor).value
    }

    /** `change_directory`: the empty name goes back to the root; otherwise
        the current directory's direct child with exactly that name becomes
        current if it is a directory. A missing name or a file fails and
        leaves the current directory where it was. The tree never changes. */
    method ChangeDirectory(dirname: string) returns (r: Result<Node>)
      requires Valid()
      modifies this
      ensures Valid() && root == old(root)
      ensures dirname == "" ==> r == Ok(root) && cursor == []
      ensures dirname != "" ==>
        var found := FindIn(old(CurrentDirectory()).children, dirname, false);
        if found.Some? && found.value.Dir? then
          r == Ok(found.value) && cursor == old(cursor) + [dirname]
        else
          cursor == old(cursor) &&
          r == Err(if found.None? then NotFound(dirname) else NotADirectory(dirname))
      ensures r.Ok? ==> r.value == CurrentDirectory()
    {
      if dirname == "" {
        cursor := [];
        return Ok(root);
      }
      var here := Resolve(root, cursor).value;
      var found := Find(here, dirname, false);
      if found.None? {
        return Err(NotFound(dirname));
      }
      if !found.value.Dir? {
        return Err(NotADirectory(dirname));
      }
      ResolveAppend(root, cursor, dirname);
      cursor := cursor + [dirname];
      r := Ok(found.value);
    }

    /** `operator+=`: the resource is added to the current directory, which
        refuses a name already present among its children; the current
        directory stays the same. */
    method Add(res: Node) returns (err: Option<Error>)
      requires Valid()
      modifies this
      ensures Valid() && cursor == old(cursor)
      ensures err.Some? <==> HasChild(old(CurrentDirectory()).children, res.name)
      ensures err.Some? ==> err.value == Duplicate(res.name) && root == old(root)
      ensures err.None? ==> CurrentDirectory() == AddChild(old(CurrentDirectory()), res).value
      ensures err.None? ==> root == InsertAt(old(root), old(cursor), res).value
      ensures err.None? ==> root.Size() == old(root).Size() + res.Size()
      ensures err.None? && UniqueNames(old(root)) && UniqueNames(res) ==> UniqueNames(root)
      ensures err.None? ==> forall q :: Resolve(old(root), q).Some? && !OnChain(q, cursor) ==>
        Resolve(root, q) == Resolve(old(root), q)
    {
      var placed := InsertAt(root, cursor, res);
      if placed.Err? {
        return Some(placed.error);
      }
      InsertAtSize(root, cursor, res);
      if UniqueNames(root) && UniqueNames(res) {
        InsertAtKeepsUnique(root, cursor, res);
      }
      forall q | Resolve(root, q).Some? && !OnChain(q, cursor)
        ensures Resolve(placed.value, q) == Resolve(root, q)
      {
        InsertAtElsewhere(root, cursor, res, q);
      }
      root := placed.value;
      return None;
    }
  }
}
