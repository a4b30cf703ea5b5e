/** The post-scan sort: every directory's children, largest first, at every
    depth. */
module TreeSort {
  import opened SizeTree
  import opened StableOrder

  /** `t` and `r` are the same tree up to the order of children at every
      level: `s` is a permutation of `t.children` whose elements are, one by
      one, reorderings of `r.children`. */
  ghost predicate Reordered(t: DirNode, r: DirNode)
    decreases t, 1
  {
    r.path == t.path && r.name == t.name && r.size == t.size &&
    r.isExpanded == t.isExpanded && r.isFile == t.isFile &&
    exists s :: ReorderWitness(t, r, s)
  }

  ghost predicate ReorderWitness(t: DirNode, r: DirNode, s: seq<DirNode>)
    decreases t, 0
  {
    multiset(s) == multiset(t.children) && |s| == |r.children| &&
    forall i :: 0 <= i < |s| ==> s[i] in t.children && Reordered(s[i], r.children[i])
  }

  /** Swaps two cells of the children array. */
  method Swap(a: array<DirNode>, i: int, j: int)
    requires 0 <= i < a.Length && 0 <= j < a.Length
    modifies a
    ensures a[i] == old(a[j]) && a[j] == old(a[i])
    ensures forall k :: 0 <= k < a.Length && k != i && k != j ==> a[k] == old(a[k])
    ensures multiset(a[..]) == old(multiset(a[..]))
  {
    a[i], a[j] := a[j], a[i];
  }

  /** The children array sorted largest first, in place, by insertion: the
      result is the stable order, hence largest first and a permutation of
      the input. It serves `children.sort_by` (stable) and
      `children.sort_unstable_by`, whose every promise the stable order
      keeps. */
  method SortChildren(a: array<DirNode>)
    modifies a
    ensures a[..] == StableSort(old(a[..]))
  {
    ghost var s0 := a[..];
    var i := 0;
    while i < a.Length
      invariant 0 <= i <= a.Length
      invariant a[..i] == StableSort(s0[..i])
      invariant a[i..] == s0[i..]
    {
      ghost var x, rest := a[i], a[i + 1..];
      assert x == s0[i] by { assert a[i..][0] == s0[i..][0]; }
      assert rest == s0[i + 1..] by { assert a[i..][1..] == rest && s0[i..][1..] == s0[i + 1..]; }
      StableSortSorted(s0[..i]);
      Insert(a, i);
      assert s0[..i + 1] == s0[..i] + [x];
      StableSortSnoc(s0[..i], x);
      i := i + 1;
    }
    assert a[..a.Length] == a[..] && s0[..a.Length] == s0;
  }

  /** One pass of the insertion sort: cell `i` moves left past every
      smaller child, so the first `i + 1` cells are the sorted prefix with
      that child inserted after every child at least as large. */
  method Insert(a: array<DirNode>, i: int)
    requires 0 <= i < a.Length && SizesNonIncreasing(a[..i])
    modifies a
    ensures a[..i + 1] == InsertBySize(old(a[..i]), old(a[i]))
    ensures a[i + 1..] == old(a[i + 1..])
  {
    ghost var s, x := a[..i], a[i];
    var j := i;
    while j > 0 && a[j - 1].size < a[j].size
      invariant 0 <= j <= i
      invariant a[j] == x
      invariant forall k :: 0 <= k < j ==> a[k] == s[k]
      invariant forall k :: j < k <= i ==> a[k] == s[k - 1]
      invariant forall k :: i < k < a.Length ==> a[k] == old(a[k])
      invariant forall k :: j <= k < i ==> s[k].size < x.size
    {
      Swap(a, j - 1, j);
      j := j - 1;
    }
    InsertPlaced(s, x, j, a[..i + 1]);
    assert a[i + 1..] == old(a[i + 1..]);
  }

  /** The cells the insertion loop leaves: the sorted prefix `s` with `x`
      at the first position `j` after every child at least as large. */
  lemma InsertPlaced(s: seq<DirNode>, x: DirNode, j: nat, b: seq<DirNode>)
    requires SizesNonIncreasing(s) && j <= |s| && |b| == |s| + 1
    requires j == 0 || s[j - 1].size >= x.size
    requires forall k :: j <= k < |s| ==> s[k].size < x.size
    requires forall k :: 0 <= k < j ==> b[k] == s[k]
    requires b[j] == x
    requires forall k :: j < k < |b| ==> b[k] == s[k - 1]
    ensures b == InsertBySize(s, x)
  {
    forall k | 0 <= k < j
      ensures s[k].size >= x.size
    {
      assert s[k].size >= s[j - 1].size;
    }
    InsertAt(s, x, j);
    ghost var placed := s[..j] + [x] + s[j..];
    forall k | 0 <= k < |b|
      ensures b[k] == placed[k]
    {
      if k < j {
        assert placed[k] == s[k];
      } else if k > j {
        assert placed[k] == s[k - 1];
      }
    }
  }

  /** A node's child list sorted through a fresh array. */
  method SortedCopy(cs: seq<DirNode>) returns (sorted: seq<DirNode>)
    ensures sorted == StableSort(cs)
  {
    var a := new DirNode[|cs|](i requires 0 <= i < |cs| => cs[i]);
    assert a[..] == cs;
    SortChildren(a);
    sorted := a[..];
  }

  /** `sort_tree`: sorts a node's children by decreasing size, then every
      child's subtree in turn. */
  method SortTree(t: DirNode) returns (r: DirNode)
    ensures SortedEverywhere(r)
    ensures Reordered(t, r)
    decreases t, 1
  {
    var sorted := SortedCopy(t.children);
    StableSortSorted(t.children);
    StableSortPermutes(t.children);
    var kids := SortTreeEach(t, sorted);
    SortedKids(t, sorted, kids);
    r := t.(children := kids);
  }

  /** `sort_tree` on each of the given children of `t`, in order. */
  method SortTreeEach(t: DirNode, cs: seq<DirNode>) returns (kids: seq<DirNode>)
    requires forall k :: 0 <= k < |cs| ==> cs[k] in multiset(t.children)
    ensures |kids| == |cs|
    ensures forall k :: 0 <= k < |cs| ==> SortedEverywhere(kids[k]) && Reordered(cs[k], kids[k])
    decreases t, 0
  {
    kids := [];
    for i := 0 to |cs|
      invariant |kids| == i
      invariant forall k :: 0 <= k < i ==> SortedEverywhere(kids[k]) && Reordered(cs[k], kids[k])
    {
      assert cs[i] in t.children;
      var c := SortTree(cs[i]);
      kids := kids + [c];
    }
  }

  /** A node whose children are, one by one, sorted reorderings of a largest
      first permutation of its children is a sorted reordering of it. */
  lemma SortedKids(t: DirNode, s: seq<DirNode>, kids: seq<DirNode>)
    requires multiset(s) == multiset(t.children) && SizesNonIncreasing(s) && |kids| == |s|
    requires forall k :: 0 <= k < |s| ==> SortedEverywhere(kids[k]) && Reordered(s[k], kids[k])
    ensures SortedEverywhere(t.(children := kids))
    ensures Reordered(t, t.(children := kids))
  {
    var r := t.(children := kids);
    forall k | 0 <= k < |s|
      ensures s[k] in t.children
    {
      assert s[k] in multiset(s);
    }
    assert ReorderWitness(t, r, s);
    forall c | c in r.children
      ensures SortedEverywhere(c)
    {
      var k :| 0 <= k < |kids| && kids[k] == c;
    }
    forall k | 0 <= k < |s|
      ensures kids[k].size == s[k].size
    {
      assert Reordered(s[k], kids[k]);
    }
  }

  /** The tree `sort_by_size` leaves behind: at every level the children
      in the stable largest-first order, each sorted the same way. */
  function SortedBySize(t: DirNode): (r: DirNode)
    ensures r.path == t.path && r.size == t.size && |r.children| == |t.children|
    decreases t, 1
  {
    StableSortMembers(t.children);
    t.(children := SortedEach(t, StableSort(t.children)))
  }

  /** `SortedBySize` of each child in `cs`, children of `t`, in order. */
  function SortedEach(t: DirNode, cs: seq<DirNode>): (r: seq<DirNode>)
    requires forall k :: 0 <= k < |cs| ==> cs[k] in multiset(t.children)
    ensures |r| == |cs|
    decreases t, 0, |cs|
  {
    if cs == [] then []
    else
      assert cs[0] in multiset(t.children) && cs[0] in t.children;
      [SortedBySize(cs[0])] + SortedEach(t, cs[1..])
  }

  lemma {:induction false} SortedEachAt(t: DirNode, cs: seq<DirNode>)
    requires forall k :: 0 <= k < |cs| ==> cs[k] in multiset(t.children)
    ensures forall k :: 0 <= k < |cs| ==> SortedEach(t, cs)[k] == SortedBySize(cs[k])
    decreases |cs|
  {
    if cs != [] {
      SortedEachAt(t, cs[1..]);
    }
  }

  lemma StableSortMembers(s: seq<DirNode>)
    ensures forall k :: 0 <= k < |s| ==> StableSort(s)[k] in multiset(s)
  {
    StableSortPermutes(s);
    forall k | 0 <= k < |s|
      ensures StableSort(s)[k] in multiset(s)
    {
      assert StableSort(s)[k] in multiset(StableSort(s));
    }
  }

  /** `DirNode::sort_by_size`: stably sorts the children by decreasing size,
      then every child's subtree in turn. */
  method SortBySize(t: DirNode) returns (r: DirNode)
    ensures r == SortedBySize(t)
    decreases t, 1
  {
    var sorted := SortedCopy(t.children);
    StableSortMembers(t.children);
    var kids := SortBySizeEach(t, sorted);
    SortedByChildren(t, kids);
    r := t.(children := kids);
  }

  /** `sort_by_size` on each of the given children of `t`, in order. */
  method SortBySizeEach(t: DirNode, cs: seq<DirNode>) returns (kids: seq<DirNode>)
    requires forall k :: 0 <= k < |cs| ==> cs[k] in multiset(t.children)
    ensures |kids| == |cs|
    ensures forall k :: 0 <= k < |cs| ==> kids[k] == SortedBySize(cs[k])
    decreases t, 0
  {
    kids := [];
    for i := 0 to |cs|
      invariant |kids| == i
      invariant forall k :: 0 <= k < i ==> kids[k] == SortedBySize(cs[k])
    {
      assert cs[i] in t.children;
      var c := SortBySize(cs[i]);
      kids := kids + [c];
    }
  }

  /** A node whose children are, one by one, the `SortedBySize` images of
      its stably sorted children is `SortedBySize` of the node. */
  lemma SortedByChildren(t: DirNode, kids: seq<DirNode>)
    requires |kids| == |t.children|
    requires forall k :: 0 <= k < |kids| ==> kids[k] == SortedBySize(StableSort(t.children)[k])
    ensures t.(children := kids) == SortedBySize(t)
  {
    StableSortMembers(t.children);
    SortedEachAt(t, StableSort(t.children));
    assert kids == SortedEach(t, StableSort(t.children));
  }

  /** `sort_by_size` orders every level largest first. */
  lemma {:induction false} SortedBySizeSorted(t: DirNode)
    ensures SortedEverywhere(SortedBySize(t))
    decreases t
  {
    var r := SortedBySize(t);
    var s := StableSort(t.children);
    StableSortMembers(t.children);
    SortedEachAt(t, s);
    StableSortSorted(t.children);
    forall c | c in r.children
      ensures SortedEverywhere(c)
    {
      var k :| 0 <= k < |r.children| && r.children[k] == c;
      assert s[k] in multiset(t.children);
      SortedBySizeSorted(s[k]);
    }
    assert SizesNonIncreasing(r.children) by {
      forall k | 0 <= k < |s|
        ensures r.children[k].size == s[k].size
      {
      }
    }
  }

  /** `sort_by_size` only reorders: every node keeps its path, name, size
      and flags, and every child list is a permutation of the original. */
  lemma {:induction false} SortedBySizeReordered(t: DirNode)
    ensures Reordered(t, SortedBySize(t))
    decreases t
  {
    var r := SortedBySize(t);
    var s := StableSort(t.children);
    StableSortMembers(t.children);
    SortedEachAt(t, s);
    StableSortPermutes(t.children);
    forall k | 0 <= k < |s|
      ensures s[k] in t.children && Reordered(s[k], r.children[k])
    {
      assert s[k] in multiset(t.children);
      SortedBySizeReordered(s[k]);
    }
    assert ReorderWitness(t, r, s);
  }

  /** The sum of sizes does not depend on the order of the list. */
  lemma {:induction false} SumSizesPermutation(s: seq<DirNode>, u: seq<DirNode>)
    requires multiset(s) == multiset(u)
    ensures SumSizes(s) == SumSizes(u)
    decreases |s|
  {
    if s != [] {
      var x := s[|s| - 1];
      var init := s[..|s| - 1];
      assert s == init + [x];
      assert x in multiset(u);
      var k :| 0 <= k < |u| && u[k] == x;
      var rest := u[..k] + u[k + 1..];
      assert u == u[..k] + [x] + u[k + 1..];
      assert multiset(s) == multiset(init) + multiset{x};
      assert multiset(u) == multiset(u[..k]) + multiset{x} + multiset(u[k + 1..]);
      assert multiset(rest) == multiset(u[..k]) + multiset(u[k + 1..]);
      assert multiset(init) == multiset(s) - multiset{x};
      assert multiset(rest) == multiset(u) - multiset{x};
      SumSizesPermutation(init, rest);
      SumSizesConcat(u[..k] + [x], u[k + 1..]);
      SumSizesConcat(u[..k], u[k + 1..]);
      SumSizesAppend(u[..k], x);
    }
  }

  lemma {:induction false} SumSizesPointwise(s: seq<DirNode>, u: seq<DirNode>)
    requires |s| == |u| && forall i :: 0 <= i < |s| ==> s[i].size == u[i].size
    ensures SumSizes(s) == SumSizes(u)
    decreases |s|
  {
    if s != [] {
      SumSizesPointwise(s[..|s| - 1], u[..|u| - 1]);
    }
  }

  /** Reordering children keeps every directory's size equal to the sum of
      its children's sizes: sorting never breaks the size invariant. */
  lemma {:induction false} ReorderedKeepsSizes(t: DirNode, r: DirNode)
    requires SizeConsistent(t) && Reordered(t, r)
    ensures SizeConsistent(r)
    decreases t
  {
    var s: seq<DirNode> :| ReorderWitness(t, r, s);
    if t.isFile {
      assert |s| == |multiset(t.children)| == 0;
    } else {
      SumSizesPermutation(s, t.children);
      forall i | 0 <= i < |s|
        ensures s[i].size == r.children[i].size
      {
        assert Reordered(s[i], r.children[i]);
      }
      SumSizesPointwise(s, r.children);
    }
    forall c | c in r.children
      ensures SizeConsistent(c)
    {
      var i :| 0 <= i < |r.children| && r.children[i] == c;
      ReorderedKeepsSizes(s[i], c);
    }
  }
}
