/** The size tree built by a scan: directories with their recursive byte
    size, and file leaves. */
module SizeTree {

  /** A path as its components below the filesystem root "/". */
  type Path = seq<string>

  /** One node of the tree. `isExpanded` is display state only. */
  datatype DirNode = DirNode(
    path: Path,
    name: string,
    size: nat,
    children: seq<DirNode>,
    isExpanded: bool,
    isFile: bool)

  /** `DirNode::new`: a collapsed node without children. */
  function NewNode(path: Path, name: string, size: nat, isFile: bool): (n: DirNode)
    ensures n.path == path && n.name == name && n.size == size && n.isFile == isFile
    ensures n.children == [] && !n.isExpanded
    ensures !isFile ==> (SizeConsistent(n) <==> size == 0)
  {
    DirNode(path, name, size, [], false, isFile)
  }

  /** The last component of a path; the root "/" has none and is named by
      its own text. */
  function FileName(p: Path): string
  {
    if p == [] then "/" else p[|p| - 1]
  }

  /** The name of a path joined with one more component is that component;
      the root is named "/". */
  lemma FileNameJoin(parent: Path, c: string)
    ensures FileName(parent + [c]) == c && FileName([]) == "/"
  {
  }

  /** Sum of the sizes of a list of nodes. */
  function SumSizes(s: seq<DirNode>): nat
  {
    if s == [] then 0 else SumSizes(s[..|s| - 1]) + s[|s| - 1].size
  }

  /** Every directory's size is the sum of its children's sizes, and files
      are leaves. */
  ghost predicate SizeConsistent(t: DirNode)
  {
    (if t.isFile then t.children == [] else t.size == SumSizes(t.children)) &&
    forall c :: c in t.children ==> SizeConsistent(c)
  }

  /** Children listed largest first. */
  ghost predicate SizesNonIncreasing(s: seq<DirNode>)
  {
    forall i, j :: 0 <= i < j < |s| ==> s[i].size >= s[j].size
  }

  /** Children largest first at every depth. */
  ghost predicate SortedEverywhere(t: DirNode)
  {
    SizesNonIncreasing(t.children) && forall c :: c in t.children ==> SortedEverywhere(c)
  }

  /** The number of nodes of the tree with the given leaf flag. */
  function CountKind(t: DirNode, isFile: bool): nat
  {
    (if t.isFile == isFile then 1 else 0) + CountKindAll(t.children, isFile)
  }

  function CountKindAll(s: seq<DirNode>, isFile: bool): nat
  {
    if s == [] then 0 else CountKindAll(s[..|s| - 1], isFile) + CountKind(s[|s| - 1], isFile)
  }

  /** Sum of the sizes of the file leaves of the tree. */
  function FileBytes(t: DirNode): nat
  {
    (if t.isFile then t.size else 0) + FileBytesAll(t.children)
  }

  function FileBytesAll(s: seq<DirNode>): nat
  {
    if s == [] then 0 else FileBytesAll(s[..|s| - 1]) + FileBytes(s[|s| - 1])
  }

  lemma SumSizesAppend(s: seq<DirNode>, x: DirNode)
    ensures SumSizes(s + [x]) == SumSizes(s) + x.size
  {
    assert (s + [x])[..|s|] == s;
  }

  lemma {:induction false} SumSizesConcat(a: seq<DirNode>, b: seq<DirNode>)
    ensures SumSizes(a + b) == SumSizes(a) + SumSizes(b)
    decreases |b|
  {
    if b != [] {
      var init := b[..|b| - 1];
      assert a + b == (a + init) + [b[|b| - 1]];
      assert b == init + [b[|b| - 1]];
      SumSizesAppend(init, b[|b| - 1]);
      SumSizesAppend(a + init, b[|b| - 1]);
      SumSizesConcat(a, init);
    } else {
      assert a + b == a;
    }
  }

  lemma CountsAppend(s: seq<DirNode>, x: DirNode)
    ensures CountKindAll(s + [x], true) == CountKindAll(s, true) + CountKind(x, true)
    ensures CountKindAll(s + [x], false) == CountKindAll(s, false) + CountKind(x, false)
    ensures FileBytesAll(s + [x]) == FileBytesAll(s) + FileBytes(x)
  {
    assert (s + [x])[..|s|] == s;
  }

  lemma {:induction false} FileCountConcat(a: seq<DirNode>, b: seq<DirNode>)
    ensures CountKindAll(a + b, true) == CountKindAll(a, true) + CountKindAll(b, true)
    decreases |b|
  {
    if b != [] {
      var init := b[..|b| - 1];
      assert a + b == (a + init) + [b[|b| - 1]];
      assert b == init + [b[|b| - 1]];
      CountsAppend(init, b[|b| - 1]);
      CountsAppend(a + init, b[|b| - 1]);
      FileCountConcat(a, init);
    } else {
      assert a + b == a;
    }
  }

  /** In a size-consistent tree, a node's size is the total of the file
      bytes below it. */
  lemma {:induction false} SizeIsFileBytes(t: DirNode)
    requires SizeConsistent(t)
    ensures t.size == FileBytes(t)
    decreases t, 1
  {
    SizeIsFileBytesAll(t.children);
  }

  lemma {:induction false} SizeIsFileBytesAll(s: seq<DirNode>)
    requires forall c :: c in s ==> SizeConsistent(c)
    ensures SumSizes(s) == FileBytesAll(s)
    decreases s, 0
  {
    if s != [] {
      var init := s[..|s| - 1];
      assert forall c :: c in init ==> c in s;
      SizeIsFileBytesAll(init);
      SizeIsFileBytes(s[|s| - 1]);
    }
  }
}
