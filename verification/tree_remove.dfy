/** Removing a deleted path from the size tree without rescanning. */
module TreeRemove {
  import opened SizeTree

  /** `children.retain(|child| &child.path != path)`. */
  function KeepOthers(s: seq<DirNode>, p: Path): (r: seq<DirNode>)
    ensures forall c :: c in r ==> c in s && c.path != p
    ensures forall c :: c in s && c.path != p ==> c in r
  {
    if s == [] then []
    else
      var x := s[|s| - 1];
      KeepOthers(s[..|s| - 1], p) + (if x.path != p then [x] else [])
  }

  /** The tree after `remove_recursive(t, p)`: at every level, the children
      whose path is `p` are dropped and the rest are pruned in turn. Sizes
      are not recomputed. */
  function Pruned(t: DirNode, p: Path): DirNode
    decreases t, 1
  {
    t.(children := PruneKept(t.children, p))
  }

  function PruneKept(s: seq<DirNode>, p: Path): seq<DirNode>
    decreases s, 0
  {
    if s == [] then []
    else
      var x := s[|s| - 1];
      PruneKept(s[..|s| - 1], p) + (if x.path != p then [Pruned(x, p)] else [])
  }

  /** No node strictly below `t` has path `p`. */
  ghost predicate NoneBelow(t: DirNode, p: Path)
  {
    forall c :: c in t.children ==> c.path != p && NoneBelow(c, p)
  }

  /** The paths of the tree in pre-order (a node, then its children's
      subtrees in order). */
  function Preorder(t: DirNode): seq<Path>
    decreases t, 1
  {
    [t.path] + PreorderAll(t.children)
  }

  function PreorderAll(s: seq<DirNode>): seq<Path>
    decreases s, 0
  {
    if s == [] then [] else PreorderAll(s[..|s| - 1]) + Preorder(s[|s| - 1])
  }

  /** The pre-order paths of `t` with every subtree rooted below `t` at
      path `p` skipped. */
  function Survivors(t: DirNode, p: Path): seq<Path>
    decreases t, 1
  {
    [t.path] + SurvivorsAll(t.children, p)
  }

  function SurvivorsAll(s: seq<DirNode>, p: Path): seq<Path>
    decreases s, 0
  {
    if s == [] then []
    else
      var x := s[|s| - 1];
      SurvivorsAll(s[..|s| - 1], p) + (if x.path == p then [] else Survivors(x, p))
  }

  /** `remove_recursive`: drops the children at path `p`, then recurses into
      every remaining child. It reports `false` on every input, so its
      early `return true` never fires and the whole tree is visited. */
  method RemoveRecursive(node: DirNode, p: Path) returns (r: DirNode, found: bool)
    ensures r == Pruned(node, p)
    ensures !found
    decreases node
  {
    var kept := KeepOthers(node.children, p);
    var kids: seq<DirNode> := [];
    var i := 0;
    while i < |kept|
      invariant 0 <= i <= |kept| && |kids| == i
      invariant forall j :: 0 <= j < i ==> kids[j] == Pruned(kept[j], p)
    {
      assert kept[i] in node.children;
      var c, f := RemoveRecursive(kept[i], p);
      if f {
        // The early `return true` of the source: dead, because every call
        // reports `false`.
        assert false;
      }
      kids := kids + [c];
      i := i + 1;
    }
    PruneKeptIsMap(node.children, p, kids);
    r := node.(children := kids);
    found := false;
  }

  lemma {:induction false} PruneKeptIsMap(s: seq<DirNode>, p: Path, u: seq<DirNode>)
    requires |u| == |KeepOthers(s, p)|
    requires forall j :: 0 <= j < |u| ==> u[j] == Pruned(KeepOthers(s, p)[j], p)
    ensures u == PruneKept(s, p)
    decreases |s|
  {
    if s != [] {
      var x := s[|s| - 1];
      var init := s[..|s| - 1];
      var k := KeepOthers(init, p);
      if x.path != p {
        PruneKeptIsMap(init, p, u[..|u| - 1]);
        assert u == u[..|u| - 1] + [u[|u| - 1]];
      } else {
        PruneKeptIsMap(init, p, u);
      }
    }
  }

  /** After removal no node below the root has path `p`. */
  lemma {:induction false} PrunedNoneBelow(t: DirNode, p: Path)
    ensures NoneBelow(Pruned(t, p), p)
    decreases t
  {
    PruneKeptNone(t.children, p);
  }

  lemma {:induction false} PruneKeptNone(s: seq<DirNode>, p: Path)
    ensures forall c :: c in PruneKept(s, p) ==> c.path != p && NoneBelow(c, p)
    decreases s
  {
    if s != [] {
      var x := s[|s| - 1];
      PruneKeptNone(s[..|s| - 1], p);
      if x.path != p {
        PrunedNoneBelow(x, p);
      }
    }
  }

  /** Every other node stays, in its original pre-order position relative
      to the rest. */
  lemma {:induction false} PrunedPreorder(t: DirNode, p: Path)
    ensures Preorder(Pruned(t, p)) == Survivors(t, p)
    decreases t, 1
  {
    PruneKeptPreorder(t.children, p);
  }

  lemma {:induction false} PruneKeptPreorder(s: seq<DirNode>, p: Path)
    ensures PreorderAll(PruneKept(s, p)) == SurvivorsAll(s, p)
    decreases s, 0
  {
    if s != [] {
      var x := s[|s| - 1];
      var init := s[..|s| - 1];
      PruneKeptPreorder(init, p);
      if x.path != p {
        var u := PruneKept(init, p) + [Pruned(x, p)];
        assert u[..|u| - 1] == PruneKept(init, p);
        assert PruneKept(s, p) == u;
        PrunedPreorder(x, p);
        assert PreorderAll(u) == PreorderAll(PruneKept(init, p)) + Preorder(Pruned(x, p));
      } else {
        assert PruneKept(s, p) == PruneKept(init, p);
        assert SurvivorsAll(s, p) == SurvivorsAll(init, p);
      }
    }
  }

  /** Removing a path that is nowhere below the root changes nothing. */
  lemma {:induction false} PruneAbsent(t: DirNode, p: Path)
    requires NoneBelow(t, p)
    ensures Pruned(t, p) == t
    decreases t, 1
  {
    PruneKeptAbsent(t.children, p);
  }

  lemma {:induction false} PruneKeptAbsent(s: seq<DirNode>, p: Path)
    requires forall c :: c in s ==> c.path != p && NoneBelow(c, p)
    ensures PruneKept(s, p) == s
    decreases s, 0
  {
    if s != [] {
      var init, x := s[..|s| - 1], s[|s| - 1];
      assert s == init + [x];
      forall c | c in init
        ensures c.path != p && NoneBelow(c, p)
      {
        assert c in s;
      }
      PruneKeptAbsent(init, p);
      assert x in s;
      PruneAbsent(x, p);
      assert PruneKept(s, p) == PruneKept(init, p) + [Pruned(x, p)];
    }
  }
}
