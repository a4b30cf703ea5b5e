/** What the two directory walkers compute, as functions of the filesystem
    and of the value the cancellation flag shows at each checkpoint.

    Checkpoints are numbered in the order the walk reaches them; `cancel(k)`
    is what the flag reads at checkpoint `k`. The sequential walker has a
    checkpoint on entry and one before each entry of its listing; the
    parallel walker has one on entry and one per entry (items the directory
    iterator yields as errors are dropped before that). */
module ScanSpec {
  import opened Wrappers
  import opened SizeTree
  import opened FileSystem

  /** The shared file, directory and byte counters. */
  datatype Counters = Counters(files: nat, dirs: nat, bytes: nat)

  /** The result of scanning one directory, the next checkpoint number and
      the counters afterwards. */
  datatype Walk = Walk(node: Option<DirNode>, next: nat, counters: Counters)

  /** The local state of the loop over a listing: children pushed so far,
      `dir_size`, next checkpoint number, counters. */
  datatype Acc = Acc(children: seq<DirNode>, size: nat, next: nat, counters: Counters)

  // ---------------------------------------------------------------------
  // scan_recursive_single

  /** `scan_recursive_single(path)`, where `e` is the entry at `path`. */
  function Single(cancel: nat -> bool, path: Path, e: Entry, k: nat, c: Counters): Walk
    decreases e, 1
  {
    if cancel(k) then Walk(None, k + 1, c)
    else
      var node := NewNode(path, FileName(path), 0, false);
      if Listable(e) then
        var a := Loop(cancel, path, e.entries, Acc([], 0, k + 1, c));
        Walk(Some(node.(size := a.size, children := a.children)), a.next, a.counters)
      else
        Walk(Some(node), k + 1, c)
  }

  /** The entry loop: a checkpoint before each entry, and a cancellation
      seen there ends the loop. */
  function Loop(cancel: nat -> bool, path: Path, es: seq<Entry>, a: Acc): Acc
    decreases es, 0
  {
    if es == [] then a
    else if cancel(a.next) then a.(next := a.next + 1)
    else Loop(cancel, path, es[1..], Step(cancel, path, es[0], a.(next := a.next + 1)))
  }

  /** One entry of the loop: a subdirectory is scanned and pushed when it
      yields a node; a file whose metadata is readable is pushed as a leaf;
      anything else is skipped. */
  function Step(cancel: nat -> bool, path: Path, e: Entry, a: Acc): Acc
    decreases e, 2
  {
    match e
    case Dir(name, _, _) =>
      var w := Single(cancel, path + [name], e, a.next, a.counters);
      if w.node.Some? then
        Acc(a.children + [w.node.value], a.size + w.node.value.size, w.next,
            w.counters.(dirs := w.counters.dirs + 1))
      else
        a.(next := w.next, counters := w.counters)
    case File(name, size, true) =>
      Acc(a.children + [NewNode(path + [name], name, size, true)], a.size + size, a.next,
          a.counters.(files := a.counters.files + 1, bytes := a.counters.bytes + size))
    case _ => a
  }

  // ---------------------------------------------------------------------
  // scan_recursive_parallel

  /** `scan_recursive_parallel(path, depth)`: the order-preserving map over
      the listing, taken in entry order. */
  function Par(cancel: nat -> bool, path: Path, e: Entry, depth: nat, k: nat, c: Counters): Walk
    decreases e, 1
  {
    if cancel(k) then Walk(None, k + 1, c)
    else
      var node := NewNode(path, FileName(path), 0, false);
      if Listable(e) then
        var a0 := Acc([], 0, k + 1, c);
        var a := if depth < 2 then Fan(cancel, path, e.entries, depth, a0)
                 else Deep(cancel, path, e.entries, a0);
        Walk(Some(node.(size := a.size, children := a.children)), a.next, a.counters)
      else
        Walk(Some(node), k + 1, c)
  }

  /** Depths 0 and 1: every entry is taken in turn; a cancellation seen at
      an entry skips that entry only. */
  function Fan(cancel: nat -> bool, path: Path, es: seq<Entry>, depth: nat, a: Acc): Acc
    decreases es, 0
  {
    if es == [] then a
    else if es[0].Broken? then Fan(cancel, path, es[1..], depth, a)
    else if cancel(a.next) then Fan(cancel, path, es[1..], depth, a.(next := a.next + 1))
    else Fan(cancel, path, es[1..], depth, FanItem(cancel, path, es[0], depth, a.(next := a.next + 1)))
  }

  /** One item of the fan-out: a subdirectory goes one level deeper; a file
      adds its bytes but no node. */
  function FanItem(cancel: nat -> bool, path: Path, e: Entry, depth: nat, a: Acc): Acc
    decreases e, 2
  {
    match e
    case Dir(name, _, _) =>
      var w := Par(cancel, path + [name], e, depth + 1, a.next, a.counters);
      if w.node.Some? then
        Acc(a.children + [w.node.value], a.size + w.node.value.size, w.next,
            w.counters.(dirs := w.counters.dirs + 1))
      else
        a.(next := w.next, counters := w.counters)
    case File(_, size, true) =>
      a.(size := a.size + size,
         counters := a.counters.(files := a.counters.files + 1, bytes := a.counters.bytes + size))
    case _ => a
  }

  /** Depth 2 and below: a sequential loop that stops at a cancellation
      and scans subdirectories with the sequential walker. */
  function Deep(cancel: nat -> bool, path: Path, es: seq<Entry>, a: Acc): Acc
    decreases es
  {
    if es == [] then a
    else if es[0].Broken? then Deep(cancel, path, es[1..], a)
    else if cancel(a.next) then a.(next := a.next + 1)
    else Deep(cancel, path, es[1..], DeepItem(cancel, path, es[0], a.(next := a.next + 1)))
  }

  /** One entry of the deep loop: a file adds its bytes but no node. */
  function DeepItem(cancel: nat -> bool, path: Path, e: Entry, a: Acc): Acc
  {
    match e
    case Dir(name, _, _) =>
      var w := Single(cancel, path + [name], e, a.next, a.counters);
      if w.node.Some? then
        Acc(a.children + [w.node.value], a.size + w.node.value.size, w.next,
            w.counters.(dirs := w.counters.dirs + 1))
      else
        a.(next := w.next, counters := w.counters)
    case File(_, size, true) =>
      a.(size := a.size + size,
         counters := a.counters.(files := a.counters.files + 1, bytes := a.counters.bytes + size))
    case _ => a
  }

  // ---------------------------------------------------------------------
  // Reference trees: what each walker builds when no cancellation is seen

  /** The size tree of `e` with every readable file as a leaf and every
      subdirectory as a node, in listing order. */
  function FullScan(path: Path, e: Entry): DirNode
    decreases e, 1
  {
    var kids := if Listable(e) then FullChildren(path, e.entries) else [];
    DirNode(path, FileName(path), SumSizes(kids), kids, false, false)
  }

  function FullChildren(path: Path, es: seq<Entry>): seq<DirNode>
    decreases es, 0
  {
    if es == [] then [] else FullItem(path, es[0]) + FullChildren(path, es[1..])
  }

  function FullItem(path: Path, e: Entry): seq<DirNode>
    decreases e, 2
  {
    match e
    case Dir(name, _, _) => [FullScan(path + [name], e)]
    case File(name, size, true) => [NewNode(path + [name], name, size, true)]
    case _ => []
  }

  /** Bytes of the readable files directly in a listing. */
  function DirectFileBytes(es: seq<Entry>): nat
  {
    if es == [] then 0
    else (match es[0] case File(_, size, true) => size case _ => 0) + DirectFileBytes(es[1..])
  }

  /** The tree the parallel walker builds at `depth`: subdirectories only,
      with the bytes of the directory's own files in its size. */
  function FullPar(path: Path, e: Entry, depth: nat): DirNode
    decreases e, 1
  {
    var kids := if Listable(e) then FullParChildren(path, e.entries, depth) else [];
    var files := if Listable(e) then DirectFileBytes(e.entries) else 0;
    DirNode(path, FileName(path), SumSizes(kids) + files, kids, false, false)
  }

  function FullParChildren(path: Path, es: seq<Entry>, depth: nat): seq<DirNode>
    decreases es, 0
  {
    if es == [] then [] else FullParItem(path, es[0], depth) + FullParChildren(path, es[1..], depth)
  }

  function FullParItem(path: Path, e: Entry, depth: nat): seq<DirNode>
    decreases e, 2
  {
    match e
    case Dir(name, _, _) =>
      [if depth < 2 then FullPar(path + [name], e, depth + 1) else FullScan(path + [name], e)]
    case _ => []
  }

  // ---------------------------------------------------------------------
  // The sequential walker

  /** The loop state is a list of well-formed children whose sizes make up
      `dir_size` and whose nodes account for the counters' growth. */
  ghost predicate AccOk(a: Acc, c0: Counters)
  {
    a.size == SumSizes(a.children) &&
    (forall ch :: ch in a.children ==> SizeConsistent(ch)) &&
    a.counters.files == c0.files + CountKindAll(a.children, true) &&
    a.counters.dirs == c0.dirs + CountKindAll(a.children, false) &&
    a.counters.bytes == c0.bytes + a.size
  }

  /** `scan_recursive_single` yields nothing exactly when the flag is set
      on entry; otherwise a directory node whose size is the sum of its
      children's at every depth (no children and size 0 when the listing
      cannot be read). The file counter grows by the file leaves of that
      tree, the directory counter by its directories other than itself,
      the byte counter by its size; with no node, nothing changes. */
  lemma {:induction false} SingleShape(cancel: nat -> bool, path: Path, e: Entry, k: nat, c: Counters)
    ensures var w := Single(cancel, path, e, k, c);
      w.next > k &&
      (w.node.None? <==> cancel(k)) &&
      (w.node.None? ==> w.counters == c) &&
      (w.node.Some? ==>
        var n := w.node.value;
        n.path == path && n.name == FileName(path) && !n.isFile && !n.isExpanded &&
        SizeConsistent(n) &&
        (!Listable(e) ==> n.size == 0 && n.children == []) &&
        w.counters.files == c.files + CountKind(n, true) &&
        w.counters.dirs + 1 == c.dirs + CountKind(n, false) &&
        w.counters.bytes == c.bytes + n.size)
    decreases e, 1
  {
    if !cancel(k) && Listable(e) {
      var a0 := Acc([], 0, k + 1, c);
      LoopShape(cancel, path, e.entries, a0, c);
      var a := Loop(cancel, path, e.entries, a0);
      var n := NewNode(path, FileName(path), 0, false).(size := a.size, children := a.children);
      assert n.children == a.children;
    }
  }

  lemma {:induction false} LoopShape(cancel: nat -> bool, path: Path, es: seq<Entry>, a: Acc, c0: Counters)
    requires AccOk(a, c0)
    ensures AccOk(Loop(cancel, path, es, a), c0)
    ensures Loop(cancel, path, es, a).next >= a.next
    decreases es, 0
  {
    if es != [] {
      var a1 := a.(next := a.next + 1);
      assert AccOk(a1, c0) by {
        assert a1.children == a.children && a1.size == a.size && a1.counters == a.counters;
      }
      if cancel(a.next) {
        assert Loop(cancel, path, es, a) == a1;
      } else {
        LoopUnfold(cancel, path, es, a);
        StepShape(cancel, path, es[0], a1, c0);
        LoopShape(cancel, path, es[1..], Step(cancel, path, es[0], a1), c0);
      }
    }
  }

  lemma {:induction false} StepShape(cancel: nat -> bool, path: Path, e: Entry, a: Acc, c0: Counters)
    requires AccOk(a, c0)
    ensures AccOk(Step(cancel, path, e, a), c0)
    ensures Step(cancel, path, e, a).next >= a.next
    decreases e, 2
  {
    match e
    case Dir(name, _, _) =>
      SingleShape(cancel, path + [name], e, a.next, a.counters);
      var w := Single(cancel, path + [name], e, a.next, a.counters);
      if w.node.Some? {
        AppendChild(a.children, w.node.value);
      }
    case File(name, size, true) =>
      AppendChild(a.children, NewNode(path + [name], name, size, true));
    case _ =>
  }

  lemma AppendChild(s: seq<DirNode>, x: DirNode)
    ensures SumSizes(s + [x]) == SumSizes(s) + x.size
    ensures CountKindAll(s + [x], true) == CountKindAll(s, true) + CountKind(x, true)
    ensures CountKindAll(s + [x], false) == CountKindAll(s, false) + CountKind(x, false)
    ensures forall ch :: ch in s + [x] <==> ch in s || ch == x
  {
    SumSizesAppend(s, x);
    CountsAppend(s, x);
  }

  /** With no cancellation, `scan_recursive_single` yields exactly the
      reference tree: every readable file and every subdirectory, in
      listing order. */
  lemma {:induction false} SingleFull(cancel: nat -> bool, path: Path, e: Entry, k: nat, c: Counters)
    requires forall j :: !cancel(j)
    ensures Single(cancel, path, e, k, c).node == Some(FullScan(path, e))
    decreases e, 1
  {
    if Listable(e) {
      LoopFull(cancel, path, e.entries, Acc([], 0, k + 1, c));
      assert [] + FullChildren(path, e.entries) == FullChildren(path, e.entries);
    }
  }

  lemma {:induction false} LoopFull(cancel: nat -> bool, path: Path, es: seq<Entry>, a: Acc)
    requires forall j :: !cancel(j)
    ensures Loop(cancel, path, es, a).children == a.children + FullChildren(path, es)
    ensures Loop(cancel, path, es, a).size == a.size + SumSizes(FullChildren(path, es))
    decreases es, 0
  {
    if es == [] {
      assert a.children + [] == a.children;
    } else {
      var a1 := a.(next := a.next + 1);
      var b := Step(cancel, path, es[0], a1);
      LoopUnfold(cancel, path, es, a);
      StepFull(cancel, path, es[0], a1);
      LoopFull(cancel, path, es[1..], b);
      Chain(a, b, Loop(cancel, path, es[1..], b), FullItem(path, es[0]), FullChildren(path, es[1..]));
    }
  }

  /** Two steps that each append children and add their sizes make one. */
  lemma Chain(a: Acc, b: Acc, c: Acc, xs: seq<DirNode>, ys: seq<DirNode>)
    requires b.children == a.children + xs
    requires c.children == b.children + ys
    ensures c.children == a.children + (xs + ys)
    ensures SumSizes(xs + ys) == SumSizes(xs) + SumSizes(ys)
  {
    SumSizesConcat(xs, ys);
  }

  /** One turn of the loop when the flag is clear. */
  lemma LoopUnfold(cancel: nat -> bool, path: Path, es: seq<Entry>, a: Acc)
    requires es != [] && !cancel(a.next)
    ensures Loop(cancel, path, es, a)
         == Loop(cancel, path, es[1..], Step(cancel, path, es[0], a.(next := a.next + 1)))
    ensures FullChildren(path, es) == FullItem(path, es[0]) + FullChildren(path, es[1..])
  {
  }

  lemma {:induction false} StepFull(cancel: nat -> bool, path: Path, e: Entry, a: Acc)
    requires forall j :: !cancel(j)
    ensures Step(cancel, path, e, a).children == a.children + FullItem(path, e)
    ensures Step(cancel, path, e, a).size == a.size + SumSizes(FullItem(path, e))
    decreases e, 2
  {
    match e
    case Dir(name, _, _) =>
      SingleFull(cancel, path + [name], e, a.next, a.counters);
      SumSizesAppend([], FullScan(path + [name], e));
    case File(name, size, true) =>
      SumSizesAppend([], NewNode(path + [name], name, size, true));
    case _ =>
      assert a.children + [] == a.children;
  }

  // ---------------------------------------------------------------------
  // The parallel walker

  /** A node built by the parallel walker at `depth`: only directories
      among its children, its size at least their sum (its own files add
      the rest), parallel-built children down to depth 2, and
      sequentially-built, size-consistent children below that. */
  ghost predicate ParShaped(n: DirNode, depth: nat)
  {
    !n.isFile && n.size >= SumSizes(n.children) &&
    forall ch :: ch in n.children ==>
      !ch.isFile && (if depth < 2 then ParShaped(ch, depth + 1) else SizeConsistent(ch))
  }

  ghost predicate ParAccOk(a: Acc, c0: Counters, depth: nat)
  {
    a.size >= SumSizes(a.children) &&
    (forall ch :: ch in a.children ==>
      !ch.isFile && (if depth < 2 then ParShaped(ch, depth + 1) else SizeConsistent(ch))) &&
    a.counters.files >= c0.files + CountKindAll(a.children, true) &&
    a.counters.dirs == c0.dirs + CountKindAll(a.children, false) &&
    a.counters.bytes == c0.bytes + a.size
  }

  /** `scan_recursive_parallel` yields nothing exactly when the flag is set
      on entry; otherwise a node whose shape is `ParShaped`: no file is
      ever pushed as a child at the parallel levels, yet every counted byte
      is in the root's size. */
  lemma {:induction false} ParShape(cancel: nat -> bool, path: Path, e: Entry, depth: nat, k: nat, c: Counters)
    ensures var w := Par(cancel, path, e, depth, k, c);
      w.next > k &&
      (w.node.None? <==> cancel(k)) &&
      (w.node.None? ==> w.counters == c) &&
      (w.node.Some? ==>
        var n := w.node.value;
        n.path == path && n.name == FileName(path) && !n.isExpanded &&
        ParShaped(n, depth) &&
        (!Listable(e) ==> n.size == 0 && n.children == []) &&
        w.counters.files >= c.files + CountKind(n, true) &&
        w.counters.dirs + 1 == c.dirs + CountKind(n, false) &&
        w.counters.bytes == c.bytes + n.size)
    decreases e, 1
  {
    if !cancel(k) && Listable(e) {
      var a0 := Acc([], 0, k + 1, c);
      if depth < 2 {
        FanShape(cancel, path, e.entries, depth, a0, c);
      } else {
        DeepShape(cancel, path, e.entries, a0, c, depth);
      }
    }
  }

  lemma {:induction false} FanShape(cancel: nat -> bool, path: Path, es: seq<Entry>, depth: nat, a: Acc, c0: Counters)
    requires depth < 2 && ParAccOk(a, c0, depth)
    ensures ParAccOk(Fan(cancel, path, es, depth, a), c0, depth)
    ensures Fan(cancel, path, es, depth, a).next >= a.next
    decreases es, 0
  {
    if es != [] {
      if es[0].Broken? {
        FanShape(cancel, path, es[1..], depth, a, c0);
      } else if cancel(a.next) {
        FanShape(cancel, path, es[1..], depth, a.(next := a.next + 1), c0);
      } else {
        var a1 := a.(next := a.next + 1);
        FanItemShape(cancel, path, es[0], depth, a1, c0);
        FanShape(cancel, path, es[1..], depth, FanItem(cancel, path, es[0], depth, a1), c0);
      }
    }
  }

  lemma {:induction false} FanItemShape(cancel: nat -> bool, path: Path, e: Entry, depth: nat, a: Acc, c0: Counters)
    requires depth < 2 && ParAccOk(a, c0, depth)
    ensures ParAccOk(FanItem(cancel, path, e, depth, a), c0, depth)
    ensures FanItem(cancel, path, e, depth, a).next >= a.next
    decreases e, 2
  {
    match e
    case Dir(name, _, _) =>
      ParShape(cancel, path + [name], e, depth + 1, a.next, a.counters);
      var w := Par(cancel, path + [name], e, depth + 1, a.next, a.counters);
      if w.node.Some? {
        AppendChild(a.children, w.node.value);
      }
    case _ =>
  }

  lemma {:induction false} DeepShape(cancel: nat -> bool, path: Path, es: seq<Entry>, a: Acc, c0: Counters, depth: nat)
    requires depth >= 2 && ParAccOk(a, c0, depth)
    ensures ParAccOk(Deep(cancel, path, es, a), c0, depth)
    ensures Deep(cancel, path, es, a).next >= a.next
    decreases es
  {
    if es != [] && !cancel(a.next) {
      if es[0].Broken? {
        DeepShape(cancel, path, es[1..], a, c0, depth);
      } else {
        var a1 := a.(next := a.next + 1);
        DeepItemShape(cancel, path, es[0], a1, c0, depth);
        DeepShape(cancel, path, es[1..], DeepItem(cancel, path, es[0], a1), c0, depth);
      }
    } else if es != [] && es[0].Broken? {
      DeepShape(cancel, path, es[1..], a, c0, depth);
    }
  }

  lemma DeepItemShape(cancel: nat -> bool, path: Path, e: Entry, a: Acc, c0: Counters, depth: nat)
    requires depth >= 2 && ParAccOk(a, c0, depth)
    ensures ParAccOk(DeepItem(cancel, path, e, a), c0, depth)
    ensures DeepItem(cancel, path, e, a).next >= a.next
  {
    match e
    case Dir(name, _, _) =>
      SingleShape(cancel, path + [name], e, a.next, a.counters);
      var w := Single(cancel, path + [name], e, a.next, a.counters);
      if w.node.Some? {
        AppendChild(a.children, w.node.value);
      }
    case _ =>
  }

  /** With no cancellation, `scan_recursive_parallel` yields exactly the
      parallel reference tree. */
  lemma {:induction false} ParFull(cancel: nat -> bool, path: Path, e: Entry, depth: nat, k: nat, c: Counters)
    requires forall j :: !cancel(j)
    ensures Par(cancel, path, e, depth, k, c).node == Some(FullPar(path, e, depth))
    decreases e, 1
  {
    assert !cancel(k);
    if Listable(e) {
      var a0 := Acc([], 0, k + 1, c);
      var kids := FullParChildren(path, e.entries, depth);
      var a := if depth < 2 then Fan(cancel, path, e.entries, depth, a0)
               else Deep(cancel, path, e.entries, a0);
      if depth < 2 {
        FanFull(cancel, path, e.entries, depth, a0);
      } else {
        DeepFull(cancel, path, e.entries, a0, depth);
      }
      assert [] + kids == kids;
      assert a.children == kids;
      assert a.size == SumSizes(kids) + DirectFileBytes(e.entries);
    }
  }

  lemma {:induction false} FanFull(cancel: nat -> bool, path: Path, es: seq<Entry>, depth: nat, a: Acc)
    requires forall j :: !cancel(j)
    requires depth < 2
    ensures Fan(cancel, path, es, depth, a).children == a.children + FullParChildren(path, es, depth)
    ensures Fan(cancel, path, es, depth, a).size
         == a.size + SumSizes(FullParChildren(path, es, depth)) + DirectFileBytes(es)
    decreases es, 0
  {
    if es == [] {
      assert a.children + [] == a.children;
    } else {
      var fi, fc := FullParItem(path, es[0], depth), FullParChildren(path, es[1..], depth);
      ParChildrenSplit(path, es, depth);
      if es[0].Broken? {
        assert Fan(cancel, path, es, depth, a) == Fan(cancel, path, es[1..], depth, a);
        FanFull(cancel, path, es[1..], depth, a);
        assert fi + fc == fc;
      } else {
        assert !cancel(a.next);
        var a1 := FanItem(cancel, path, es[0], depth, a.(next := a.next + 1));
        assert Fan(cancel, path, es, depth, a) == Fan(cancel, path, es[1..], depth, a1);
        FanItemFull(cancel, path, es[0], depth, a.(next := a.next + 1));
        FanFull(cancel, path, es[1..], depth, a1);
        Chain(a, a1, Fan(cancel, path, es[1..], depth, a1), fi, fc);
      }
    }
  }

  lemma {:induction false} FanItemFull(cancel: nat -> bool, path: Path, e: Entry, depth: nat, a: Acc)
    requires forall j :: !cancel(j)
    requires depth < 2
    ensures FanItem(cancel, path, e, depth, a).children == a.children + FullParItem(path, e, depth)
    ensures FanItem(cancel, path, e, depth, a).size
         == a.size + SumSizes(FullParItem(path, e, depth)) + DirectFileBytes([e])
    decreases e, 2
  {
    match e
    case Dir(name, _, _) =>
      ParFull(cancel, path + [name], e, depth + 1, a.next, a.counters);
      SumSizesAppend([], FullPar(path + [name], e, depth + 1));
    case _ =>
      assert a.children + [] == a.children;
  }

  lemma {:induction false} DeepFull(cancel: nat -> bool, path: Path, es: seq<Entry>, a: Acc, depth: nat)
    requires forall j :: !cancel(j)
    requires depth >= 2
    ensures Deep(cancel, path, es, a).children == a.children + FullParChildren(path, es, depth)
    ensures Deep(cancel, path, es, a).size
         == a.size + SumSizes(FullParChildren(path, es, depth)) + DirectFileBytes(es)
    decreases es
  {
    if es == [] {
      assert a.children + [] == a.children;
    } else {
      var fi, fc := FullParItem(path, es[0], depth), FullParChildren(path, es[1..], depth);
      DeepUnfold(cancel, path, es, a);
      ParChildrenSplit(path, es, depth);
      if es[0].Broken? {
        DeepFull(cancel, path, es[1..], a, depth);
        assert fi + fc == fc;
      } else {
        var a1 := DeepItem(cancel, path, es[0], a.(next := a.next + 1));
        DeepItemFull(cancel, path, es[0], a.(next := a.next + 1), depth);
        DeepFull(cancel, path, es[1..], a1, depth);
        Chain(a, a1, Deep(cancel, path, es[1..], a1), fi, fc);
      }
    }
  }

  /** One turn of the deep loop when the flag is clear. */
  lemma DeepUnfold(cancel: nat -> bool, path: Path, es: seq<Entry>, a: Acc)
    requires es != [] && !cancel(a.next)
    ensures es[0].Broken? ==> Deep(cancel, path, es, a) == Deep(cancel, path, es[1..], a)
    ensures !es[0].Broken? ==>
      Deep(cancel, path, es, a) == Deep(cancel, path, es[1..], DeepItem(cancel, path, es[0], a.(next := a.next + 1)))
  {
  }

  /** The parallel reference trees and the direct file bytes of a listing
      split at its first entry. */
  lemma ParChildrenSplit(path: Path, es: seq<Entry>, depth: nat)
    requires es != []
    ensures FullParChildren(path, es, depth)
         == FullParItem(path, es[0], depth) + FullParChildren(path, es[1..], depth)
    ensures DirectFileBytes(es) == DirectFileBytes([es[0]]) + DirectFileBytes(es[1..])
    ensures es[0].Broken? ==> FullParItem(path, es[0], depth) == [] && DirectFileBytes([es[0]]) == 0
  {
    assert [es[0]][1..] == [];
  }

  lemma DeepItemFull(cancel: nat -> bool, path: Path, e: Entry, a: Acc, depth: nat)
    requires forall j :: !cancel(j)
    requires depth >= 2
    ensures DeepItem(cancel, path, e, a).children == a.children + FullParItem(path, e, depth)
    ensures DeepItem(cancel, path, e, a).size
         == a.size + SumSizes(FullParItem(path, e, depth)) + DirectFileBytes([e])
  {
    assert [e][1..] == [];
    match e
    case Dir(name, _, _) =>
      var x := FullScan(path + [name], e);
      SingleFull(cancel, path + [name], e, a.next, a.counters);
      assert FullParItem(path, e, depth) == [x];
      assert DirectFileBytes([e]) == 0;
      SumSizesAppend([], x);
    case File(_, size, true) =>
      assert DirectFileBytes([e]) == size;
      assert FullParItem(path, e, depth) == [];
      assert a.children + [] == a.children;
    case _ =>
      assert DirectFileBytes([e]) == 0;
      assert FullParItem(path, e, depth) == [];
      assert a.children + [] == a.children;
  }

  /** With no cancellation, both walkers give every directory the same
      size: the parallel one keeps its files out of the tree but not out of
      the sizes. (A cancel can cut the two walks at different entries.) */
  lemma {:induction false} SameSizes(path: Path, e: Entry, depth: nat)
    ensures FullPar(path, e, depth).size == FullScan(path, e).size
    decreases e, 1
  {
    if Listable(e) {
      SameSizesAll(path, e.entries, depth);
    }
  }

  lemma {:induction false} SameSizesAll(path: Path, es: seq<Entry>, depth: nat)
    ensures SumSizes(FullChildren(path, es))
         == SumSizes(FullParChildren(path, es, depth)) + DirectFileBytes(es)
    decreases es, 0
  {
    if es != [] {
      var e := es[0];
      SameSizesAll(path, es[1..], depth);
      SumSizesConcat(FullItem(path, e), FullChildren(path, es[1..]));
      SumSizesConcat(FullParItem(path, e, depth), FullParChildren(path, es[1..], depth));
      match e
      case Dir(name, _, _) =>
        SameSizes(path + [name], e, depth + 1);
        SumSizesAppend([], FullScan(path + [name], e));
        SumSizesAppend([], FullParItem(path, e, depth)[0]);
      case File(name, size, true) =>
        SumSizesAppend([], NewNode(path + [name], name, size, true));
      case _ =>
    }
  }

  // ---------------------------------------------------------------------
  // The file counter of the parallel walker

  /** With no cancellation, the parallel walker counts exactly the readable
      files the sequential walker puts in its tree as leaves, although it
      builds no node for them. */
  lemma {:induction false} ParFiles(cancel: nat -> bool, path: Path, e: Entry, depth: nat, k: nat, c: Counters)
    requires forall j :: !cancel(j)
    ensures Par(cancel, path, e, depth, k, c).counters.files == c.files + CountKind(FullScan(path, e), true)
    decreases e, 1
  {
    assert !cancel(k);
    if Listable(e) {
      var a0 := Acc([], 0, k + 1, c);
      if depth < 2 {
        FanFiles(cancel, path, e.entries, depth, a0);
      } else {
        DeepFiles(cancel, path, e.entries, a0);
      }
    }
  }

  lemma {:induction false} FanFiles(cancel: nat -> bool, path: Path, es: seq<Entry>, depth: nat, a: Acc)
    requires forall j :: !cancel(j)
    requires depth < 2
    ensures Fan(cancel, path, es, depth, a).counters.files
         == a.counters.files + CountKindAll(FullChildren(path, es), true)
    decreases es, 0
  {
    if es != [] {
      var a1 := a.(next := a.next + 1);
      assert !cancel(a.next);
      LoopUnfold(cancel, path, es, a);
      FileCountConcat(FullItem(path, es[0]), FullChildren(path, es[1..]));
      if es[0].Broken? {
        assert FullItem(path, es[0]) == [];
        FanFiles(cancel, path, es[1..], depth, a);
      } else {
        var b := FanItem(cancel, path, es[0], depth, a1);
        assert Fan(cancel, path, es, depth, a) == Fan(cancel, path, es[1..], depth, b);
        FanItemFiles(cancel, path, es[0], depth, a1);
        FanFiles(cancel, path, es[1..], depth, b);
      }
    }
  }

  lemma {:induction false} FanItemFiles(cancel: nat -> bool, path: Path, e: Entry, depth: nat, a: Acc)
    requires forall j :: !cancel(j)
    requires depth < 2
    ensures FanItem(cancel, path, e, depth, a).counters.files
         == a.counters.files + CountKindAll(FullItem(path, e), true)
    decreases e, 2
  {
    match e
    case Dir(name, _, _) =>
      ParFiles(cancel, path + [name], e, depth + 1, a.next, a.counters);
      ParShape(cancel, path + [name], e, depth + 1, a.next, a.counters);
      CountsAppend([], FullScan(path + [name], e));
    case File(name, size, true) =>
      CountsAppend([], NewNode(path + [name], name, size, true));
    case _ =>
  }

  lemma {:induction false} DeepFiles(cancel: nat -> bool, path: Path, es: seq<Entry>, a: Acc)
    requires forall j :: !cancel(j)
    ensures Deep(cancel, path, es, a).counters.files
         == a.counters.files + CountKindAll(FullChildren(path, es), true)
    decreases es
  {
    if es != [] {
      assert !cancel(a.next);
      DeepUnfold(cancel, path, es, a);
      LoopUnfold(cancel, path, es, a);
      FileCountConcat(FullItem(path, es[0]), FullChildren(path, es[1..]));
      if es[0].Broken? {
        assert FullItem(path, es[0]) == [];
        DeepFiles(cancel, path, es[1..], a);
      } else {
        var a1 := a.(next := a.next + 1);
        DeepItemFiles(cancel, path, es[0], a1);
        DeepFiles(cancel, path, es[1..], DeepItem(cancel, path, es[0], a1));
      }
    }
  }

  lemma DeepItemFiles(cancel: nat -> bool, path: Path, e: Entry, a: Acc)
    requires forall j :: !cancel(j)
    ensures DeepItem(cancel, path, e, a).counters.files
         == a.counters.files + CountKindAll(FullItem(path, e), true)
  {
    match e
    case Dir(name, _, _) =>
      SingleShape(cancel, path + [name], e, a.next, a.counters);
      SingleFull(cancel, path + [name], e, a.next, a.counters);
      CountsAppend([], FullScan(path + [name], e));
    case File(name, size, true) =>
      CountsAppend([], NewNode(path + [name], name, size, true));
    case _ =>
  }
}
