/** The order a stable largest-first sort gives a child list: each child is
    inserted in turn after every child at least as large, so children of
    equal size keep the order they had. */
module StableOrder {
  import opened SizeTree

  /** `x` inserted into a largest-first list after every child at least as
      large as it. */
  function InsertBySize(s: seq<DirNode>, x: DirNode): (r: seq<DirNode>)
    ensures |r| == |s| + 1
  {
    if s == [] then [x]
    else if s[0].size >= x.size then [s[0]] + InsertBySize(s[1..], x)
    else [x] + s
  }

  /** The child list ordered largest first, stably. */
  function StableSort(s: seq<DirNode>): (r: seq<DirNode>)
    ensures |r| == |s|
  {
    if s == [] then [] else InsertBySize(StableSort(s[..|s| - 1]), s[|s| - 1])
  }

  /** Sorting one more child is inserting it into the sorted rest. */
  lemma StableSortSnoc(s: seq<DirNode>, x: DirNode)
    ensures StableSort(s + [x]) == InsertBySize(StableSort(s), x)
  {
    assert (s + [x])[..|s|] == s;
  }

  /** The children of size `v`, in list order. */
  function SizeClass(s: seq<DirNode>, v: nat): (r: seq<DirNode>)
    ensures |r| <= |s|
  {
    if s == [] then []
    else (if s[0].size == v then [s[0]] else []) + SizeClass(s[1..], v)
  }

  lemma {:induction false} InsertPermutes(s: seq<DirNode>, x: DirNode)
    ensures multiset(InsertBySize(s, x)) == multiset(s) + multiset{x}
    decreases |s|
  {
    if s != [] {
      assert s == [s[0]] + s[1..];
      if s[0].size >= x.size {
        InsertPermutes(s[1..], x);
      }
    }
  }

  /** The stable sort is a permutation of its input. */
  lemma {:induction false} StableSortPermutes(s: seq<DirNode>)
    ensures multiset(StableSort(s)) == multiset(s)
    decreases |s|
  {
    if s != [] {
      var init, x := s[..|s| - 1], s[|s| - 1];
      assert s == init + [x];
      StableSortPermutes(init);
      InsertPermutes(StableSort(init), x);
    }
  }

  lemma {:induction false} InsertSorted(s: seq<DirNode>, x: DirNode)
    requires SizesNonIncreasing(s)
    ensures SizesNonIncreasing(InsertBySize(s, x))
    decreases |s|
  {
    if s == [] {
    } else if s[0].size >= x.size {
      var rest := InsertBySize(s[1..], x);
      InsertSorted(s[1..], x);
      InsertPermutes(s[1..], x);
      forall k | 0 <= k < |rest|
        ensures s[0].size >= rest[k].size
      {
        assert rest[k] in multiset(s[1..]) + multiset{x};
        if rest[k] != x {
          assert rest[k] in s[1..];
        }
      }
      ConsSorted(s[0], rest);
    } else {
      ConsSorted(x, s);
    }
  }

  lemma ConsSorted(y: DirNode, s: seq<DirNode>)
    requires SizesNonIncreasing(s)
    requires forall k :: 0 <= k < |s| ==> y.size >= s[k].size
    ensures SizesNonIncreasing([y] + s)
  {
    forall i, j | 0 <= i < j < |[y] + s|
      ensures ([y] + s)[i].size >= ([y] + s)[j].size
    {
      if i > 0 {
        assert ([y] + s)[i] == s[i - 1];
      }
      assert ([y] + s)[j] == s[j - 1];
    }
  }

  /** The stable sort puts the largest first. */
  lemma {:induction false} StableSortSorted(s: seq<DirNode>)
    ensures SizesNonIncreasing(StableSort(s))
    decreases |s|
  {
    if s != [] {
      StableSortSorted(s[..|s| - 1]);
      InsertSorted(StableSort(s[..|s| - 1]), s[|s| - 1]);
    }
  }

  lemma {:induction false} SizeClassAppend(s: seq<DirNode>, x: DirNode, v: nat)
    ensures SizeClass(s + [x], v) == SizeClass(s, v) + (if x.size == v then [x] else [])
    decreases |s|
  {
    var tail := if x.size == v then [x] else [];
    if s == [] {
      assert [x][1..] == [];
    } else {
      var t := s + [x];
      var head := if s[0].size == v then [s[0]] else [];
      assert t[0] == s[0] && t[1..] == s[1..] + [x];
      SizeClassAppend(s[1..], x, v);
      calc {
        SizeClass(t, v);
        head + SizeClass(s[1..] + [x], v);
        head + (SizeClass(s[1..], v) + tail);
        (head + SizeClass(s[1..], v)) + tail;
      }
    }
  }

  lemma {:induction false} SizeClassNone(s: seq<DirNode>, v: nat)
    requires forall k :: 0 <= k < |s| ==> s[k].size < v
    ensures SizeClass(s, v) == []
    decreases |s|
  {
    if s != [] {
      SizeClassNone(s[1..], v);
    }
  }

  lemma {:induction false} InsertClass(s: seq<DirNode>, x: DirNode, v: nat)
    requires SizesNonIncreasing(s)
    ensures SizeClass(InsertBySize(s, x), v) == SizeClass(s, v) + (if x.size == v then [x] else [])
    decreases |s|
  {
    var tail := if x.size == v then [x] else [];
    if s == [] {
      assert [x][1..] == [];
    } else if s[0].size >= x.size {
      var r := InsertBySize(s, x);
      var head := if s[0].size == v then [s[0]] else [];
      assert r[0] == s[0] && r[1..] == InsertBySize(s[1..], x);
      InsertClass(s[1..], x, v);
      calc {
        SizeClass(r, v);
        head + SizeClass(r[1..], v);
        head + (SizeClass(s[1..], v) + tail);
        (head + SizeClass(s[1..], v)) + tail;
        SizeClass(s, v) + tail;
      }
    } else {
      var r := [x] + s;
      assert r[1..] == s;
      if x.size == v {
        SizeClassNone(s, v);
      }
    }
  }

  /** Stability: the children of any one size come out in the order they
      went in. */
  lemma {:induction false} StableSortKeepsOrder(s: seq<DirNode>, v: nat)
    ensures SizeClass(StableSort(s), v) == SizeClass(s, v)
    decreases |s|
  {
    if s != [] {
      var init, x := s[..|s| - 1], s[|s| - 1];
      assert s == init + [x];
      StableSortKeepsOrder(init, v);
      StableSortSorted(init);
      InsertClass(StableSort(init), x, v);
      SizeClassAppend(init, x, v);
    }
  }

  /** Inserting after a prefix of children at least as large, ahead of the
      smaller ones that follow. */
  lemma {:induction false} InsertAt(s: seq<DirNode>, x: DirNode, j: nat)
    requires j <= |s|
    requires forall k :: 0 <= k < j ==> s[k].size >= x.size
    requires forall k :: j <= k < |s| ==> s[k].size < x.size
    ensures InsertBySize(s, x) == s[..j] + [x] + s[j..]
    decreases j
  {
    if j == 0 {
      assert s[..0] == [] && s[0..] == s;
    } else {
      InsertAt(s[1..], x, j - 1);
      assert s[1..][..j - 1] == s[1..j];
      assert s[1..][j - 1..] == s[j..];
      assert s[..j] == [s[0]] + s[1..j];
    }
  }
}
