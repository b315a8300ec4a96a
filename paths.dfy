/// A directory of the tree named by the sequence of child names that leads
/// to it from the root. The filesystem's current-directory pointer and the
/// descriptor parser's walking pointer are both modelled this way; an update
/// through such a pointer becomes an update of the tree at that path.
module Paths {
  import opened Nodes
  import opened Directory

  /** The directory reached from `d` by entering, name by name, the first
      child with that name; None when a name is missing or names a file. */
  function Resolve(d: Node, names: seq<string>): (r: Option<Node>)
    ensures r.Some? ==> r.value.Dir?
    ensures r.Some? ==> d.Dir?
  {
    if !d.Dir? then None
    else if names == [] then Some(d)
    else match FirstIndex(d.children, names[0])
      case None => None
      case Some(i) => Resolve(d.children[i], names[1..])
  }

  /** One step into the child directory named `name`. */
  function Enter(d: Node, name: string): (r: Option<Node>)
    requires d.Dir?
    ensures r.Some? <==> FindIn(d.children, name, false).Some? && FindIn(d.children, name, false).value.Dir?
    ensures r.Some? ==> r == FindIn(d.children, name, false) && r.value.name == name
  {
    FindDirect(d.children, name);
    match FirstIndex(d.children, name)
    case None => None
    case Some(i) => if d.children[i].Dir? then Some(d.children[i]) else None
  }

  /** Resolving a longer path is resolving its prefix, then one step. */
  lemma {:induction false} ResolveAppend(d: Node, p: seq<string>, name: string)
    ensures Resolve(d, p + [name])
         == if Resolve(d, p).Some? then Enter(Resolve(d, p).value, name) else None
  {
    if d.Dir? && p != [] {
      assert (p + [name])[0] == p[0];
      assert (p + [name])[1..] == p[1..] + [name];
      match FirstIndex(d.children, p[0])
      case None =>
      case Some(i) => ResolveAppend(d.children[i], p[1..], name);
    } else if d.Dir? {
      assert (p + [name])[1..] == [];
    }
  }

  /** Every prefix of a resolvable path is resolvable. */
  lemma {:induction false} ResolvePrefix(d: Node, p: seq<string>, q: seq<string>)
    requires Resolve(d, p + q).Some?
    ensures Resolve(d, p).Some?
  {
    if p != [] {
      assert (p + q)[0] == p[0];
      assert (p + q)[1..] == p[1..] + q;
      ResolvePrefix(d.children[FirstIndex(d.children, p[0]).value], p[1..], q);
    }
  }

  /** Siblings with the same names in the same order are searched alike. */
  lemma {:induction false} FirstIndexSameNames(cs: seq<Node>, ds: seq<Node>, target: string)
    requires |cs| == |ds|
    requires forall k :: 0 <= k < |cs| ==> cs[k].name == ds[k].name
    ensures FirstIndex(cs, target) == FirstIndex(ds, target)
  {
    if cs != [] {
      FirstIndexSameNames(cs[1..], ds[1..], target);
    }
  }

  /** `operator+=` applied to the directory at `names`: the result is the
      tree in which that directory, and only the chain of directories
      leading to it, is replaced. */
  function InsertAt(d: Node, names: seq<string>, res: Node): (r: Result<Node>)
    requires Resolve(d, names).Some?
    ensures r.Err? <==> HasChild(Resolve(d, names).value.children, res.name)
    ensures r.Err? ==> r.error == Duplicate(res.name)
    ensures r.Ok? ==> r.value.Dir? && r.value.name == d.name && r.value.parentPath == d.parentPath
    ensures r.Ok? ==> Resolve(r.value, names) == Some(AddChild(Resolve(d, names).value, res).value)
    decreases names
  {
    if names == [] then AddChild(d, res)
    else
      var i := FirstIndex(d.children, names[0]).value;
      match InsertAt(d.children[i], names[1..], res)
      case Err(e) => Err(e)
      case Ok(c) =>
        var cs := d.children[i := c];
        FirstIndexSameNames(d.children, cs, names[0]);
        Ok(Dir(d.name, d.parentPath, cs))
  }

  lemma {:induction false} SumSizesUpdate(cs: seq<Node>, i: nat, c: Node)
    requires i < |cs|
    ensures SumSizes(cs[i := c]) + cs[i].Size() == SumSizes(cs) + c.Size()
  {
    if i > 0 {
      assert cs[i := c][1..] == cs[1..][i - 1 := c];
      SumSizesUpdate(cs[1..], i - 1, c);
    } else {
      assert cs[i := c][1..] == cs[1..];
    }
  }

  /** An insertion anywhere in the tree adds exactly the inserted subtree's size. */
  lemma {:induction false} InsertAtSize(d: Node, names: seq<string>, res: Node)
    requires Resolve(d, names).Some? && InsertAt(d, names, res).Ok?
    ensures InsertAt(d, names, res).value.Size() == d.Size() + res.Size()
    decreases names
  {
    if names == [] {
      AddChildSize(d, res);
    } else {
      var i := FirstIndex(d.children, names[0]).value;
      InsertAtSize(d.children[i], names[1..], res);
      SumSizesUpdate(d.children, i, InsertAt(d.children[i], names[1..], res).value);
    }
  }

  /** An insertion anywhere keeps sibling names unique throughout the tree. */
  lemma {:induction false} InsertAtKeepsUnique(d: Node, names: seq<string>, res: Node)
    requires Resolve(d, names).Some? && InsertAt(d, names, res).Ok?
    requires UniqueNames(d) && UniqueNames(res)
    ensures UniqueNames(InsertAt(d, names, res).value)
    decreases names
  {
    if names == [] {
      AddChildKeepsUnique(d, res);
    } else {
      var i := FirstIndex(d.children, names[0]).value;
      InsertAtKeepsUnique(d.children[i], names[1..], res);
      var cs := InsertAt(d, names, res).value.children;
      assert cs == d.children[i := InsertAt(d.children[i], names[1..], res).value];
      assert forall k :: 0 <= k < |cs| ==> cs[k].name == d.children[k].name;
      forall k | 0 <= k < |cs| ensures UniqueNames(cs[k]) {
        if k != i { assert cs[k] == d.children[k]; }
      }
    }
  }

  /** The tree only grows: every directory reachable before an insertion is
      reachable, under the same name, after it. */
  lemma {:induction false} InsertAtKeepsPaths(d: Node, names: seq<string>, res: Node, q: seq<string>)
    requires Resolve(d, names).Some? && InsertAt(d, names, res).Ok?
    requires Resolve(d, q).Some?
    ensures Resolve(InsertAt(d, names, res).value, q).Some?
    ensures Resolve(InsertAt(d, names, res).value, q).value.name == Resolve(d, q).value.name
    decreases names
  {
    var e := InsertAt(d, names, res).value;
    if q != [] {
      var j := FirstIndex(d.children, q[0]).value;
      if names == [] {
        assert e.children == d.children + [Rebind(res, d.parentPath)];
        FirstIndexPrefix(d.children, [Rebind(res, d.parentPath)], q[0]);
        assert e.children[j] == d.children[j];
      } else {
        var i := FirstIndex(d.children, names[0]).value;
        var c := InsertAt(d.children[i], names[1..], res).value;
        assert e.children == d.children[i := c];
        FirstIndexSameNames(d.children, e.children, q[0]);
        if j == i {
          InsertAtKeepsPaths(d.children[i], names[1..], res, q[1..]);
        } else {
          assert e.children[j] == d.children[j];
        }
      }
    }
  }

  /** `q` names `names` itself or a directory on the way to it. */
  predicate OnChain(q: seq<string>, names: seq<string>)
  {
    |q| <= |names| && q == names[..|q|]
  }

  /** Nothing off the insertion chain changes: every directory whose path is
      not a prefix of the insertion path resolves, after the insertion, to the
      very same subtree (its contents, sizes and parent paths included). */
  lemma {:induction false} InsertAtElsewhere(d: Node, names: seq<string>, res: Node, q: seq<string>)
    requires Resolve(d, names).Some? && InsertAt(d, names, res).Ok?
    requires Resolve(d, q).Some? && !OnChain(q, names)
    ensures Resolve(InsertAt(d, names, res).value, q) == Resolve(d, q)
    decreases names
  {
    var e := InsertAt(d, names, res).value;
    assert q != [];
    var j := FirstIndex(d.children, q[0]).value;
    if names == [] {
      assert e.children == d.children + [Rebind(res, d.parentPath)];
      FirstIndexPrefix(d.children, [Rebind(res, d.parentPath)], q[0]);
      assert e.children[j] == d.children[j];
    } else {
      var i := FirstIndex(d.children, names[0]).value;
      var c := InsertAt(d.children[i], names[1..], res).value;
      assert e.children == d.children[i := c];
      FirstIndexSameNames(d.children, e.children, q[0]);
      if j == i {
        assert q[0] == names[0];
        OnChainCons(q, names);
        InsertAtElsewhere(d.children[i], names[1..], res, q[1..]);
      } else {
        assert e.children[j] == d.children[j];
      }
    }
  }

  lemma OnChainCons(q: seq<string>, names: seq<string>)
    requires q != [] && names != [] && q[0] == names[0]
    ensures OnChain(q, names) <==> OnChain(q[1..], names[1..])
  {
    if OnChain(q[1..], names[1..]) {
      assert q == [q[0]] + q[1..];
      assert names[..|q|] == [names[0]] + names[1..][..|q| - 1];
    }
  }

  lemma {:induction false} FirstIndexPrefix(a: seq<Node>, b: seq<Node>, target: string)
    requires FirstIndex(a, target).Some?
    ensures FirstIndex(a + b, target) == FirstIndex(a, target)
  {
    if a[0].name != target {
      assert (a + b)[1..] == a[1..] + b;
      FirstIndexPrefix(a[1..], b, target);
    }
  }
}
