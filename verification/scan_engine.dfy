/** The two directory walkers as they run: a scan object holding the shared
    counters and the cancellation checkpoints, and methods that walk the
    listing entry by entry. Each method is proved to compute the function
    of `ScanSpec` that describes it. */
module ScanEngine {
  import opened Wrappers
  import opened SizeTree
  import opened FileSystem
  import opened ScanSpec

  /** The state shared by one scan: `file_count`, `dir_count`,
      `total_size` and the cancellation flag. The flag is given by what it
      reads at each checkpoint; `checkpoints` counts the reads so far. */
  class Scan {
    const cancel: nat -> bool
    var checkpoints: nat
    var fileCount: nat
    var dirCount: nat
    var totalSize: nat

    function Counts(): Counters
      reads this
    {
      Counters(fileCount, dirCount, totalSize)
    }

    /** Fresh counters at zero, as `scan_directory` creates them. */
    constructor (cancel: nat -> bool)
      ensures this.cancel == cancel && checkpoints == 0
      ensures Counts() == Counters(0, 0, 0)
    {
      this.cancel := cancel;
      checkpoints := 0;
      fileCount, dirCount, totalSize := 0, 0, 0;
    }

    /** `cancel.load(Ordering::Relaxed)`: one checkpoint. */
    method CancelRequested() returns (b: bool)
      modifies this`checkpoints
      ensures b == cancel(old(checkpoints))
      ensures checkpoints == old(checkpoints) + 1
    {
      b := cancel(checkpoints);
      checkpoints := checkpoints + 1;
    }

    /** `scan_recursive_single(path)`, where `e` is the entry at `path`. */
    method ScanSingle(path: Path, e: Entry) returns (r: Option<DirNode>)
      modifies this
      ensures Walk(r, checkpoints, Counts()) == Single(cancel, path, e, old(checkpoints), old(Counts()))
      decreases e, 1
    {
      var stop := CancelRequested();
      if stop {
        return None;
      }
      var node := NewNode(path, FileName(path), 0, false);
      if !Listable(e) {
        return Some(node);
      }
      var es := e.entries;
      var dirSize: nat := 0;
      var children: seq<DirNode> := [];
      ghost var spec := Loop(cancel, path, es, Acc([], 0, checkpoints, Counts()));
      var i := 0;
      while i < |es|
        invariant 0 <= i <= |es|
        invariant Loop(cancel, path, es[i..], Acc(children, dirSize, checkpoints, Counts())) == spec
      {
        assert es[i..][1..] == es[i + 1..];
        stop := CancelRequested();
        if stop {
          break;
        }
        children, dirSize := ScanEntry(path, es[i], children, dirSize);
        i := i + 1;
      }
      r := Some(node.(size := dirSize, children := children));
    }

    /** One turn of `scan_recursive_single`'s loop once the flag is seen
        clear: a subdirectory is walked and pushed when it yields a node, a
        file with readable metadata is pushed as a leaf and counted, and
        anything else is skipped. */
    method ScanEntry(path: Path, x: Entry, children: seq<DirNode>, dirSize: nat)
      returns (children': seq<DirNode>, dirSize': nat)
      modifies this
      ensures Acc(children', dirSize', checkpoints, Counts())
           == Step(cancel, path, x, Acc(children, dirSize, old(checkpoints), old(Counts())))
      decreases x, 2
    {
      children', dirSize' := children, dirSize;
      match x {
        case Dir(name, _, _) =>
          var child := ScanSingle(path + [name], x);
          if child.Some? {
            dirSize' := dirSize + child.value.size;
            children' := children + [child.value];
            dirCount := dirCount + 1;
          }
        case File(name, size, metadataOk) =>
          if metadataOk {
            var file := NewNode(path + [name], name, size, true);
            dirSize' := dirSize + size;
            children' := children + [file];
            fileCount := fileCount + 1;
            totalSize := totalSize + size;
          }
        case _ =>
      }
    }

    /** `scan_recursive_parallel(path, depth)`, with the parallel map taken
      in entry order. */
    method ScanParallel(path: Path, e: Entry, depth: nat) returns (r: Option<DirNode>)
      modifies this
      ensures Walk(r, checkpoints, Counts()) == Par(cancel, path, e, depth, old(checkpoints), old(Counts()))
      decreases e, 2
    {
      var stop := CancelRequested();
      if stop {
        return None;
      }
      var node := NewNode(path, FileName(path), 0, false);
      if !Listable(e) {
        return Some(node);
      }
      var es := e.entries;
      var acc: Acc;
      if depth < 2 {
        acc := FanOut(path, es, depth);
      } else {
        acc := DeepLoop(path, es);
      }
      r := Some(node.(size := acc.size, children := acc.children));
    }

    /** Depths 0 and 1: `par_iter().filter_map(...).collect()` over the
      listing, then the fold of the collected `(size, child)` pairs into
      `dir_size` and `children`. */
    method FanOut(path: Path, es: seq<Entry>, depth: nat) returns (a: Acc)
      requires depth < 2
      modifies this
      ensures a.next == checkpoints && a.counters == Counts()
      ensures a == Fan(cancel, path, es, depth, Acc([], 0, old(checkpoints), old(Counts())))
      decreases es, 2
    {
      var results := Collect(path, es, depth);
      var children, dirSize := Fold(results);
      a := Acc(children, dirSize, checkpoints, Counts());
    }

    /** The parallel map of the fan-out, taken in entry order: each entry
      that is not an error reads the flag once and, unless it is set,
      contributes its `(size, child)` pair. */
    method Collect(path: Path, es: seq<Entry>, depth: nat) returns (results: seq<(nat, Option<DirNode>)>)
      requires depth < 2
      modifies this
      ensures Acc(Pushed(results), Added(results), checkpoints, Counts())
           == Fan(cancel, path, es, depth, Acc([], 0, old(checkpoints), old(Counts())))
      decreases es, 1
    {
      ghost var spec := Fan(cancel, path, es, depth, Acc([], 0, checkpoints, Counts()));
      results := [];
      var i := 0;
      while i < |es|
        invariant 0 <= i <= |es|
        invariant Fan(cancel, path, es[i..], depth,
                      Acc(Pushed(results), Added(results), checkpoints, Counts())) == spec
      {
        assert es[i..][1..] == es[i + 1..];
        if !es[i].Broken? {
          var stop := CancelRequested();
          if !stop {
            results := FanEntry(path, es[i], depth, results);
          }
        }
        i := i + 1;
      }
      assert es[i..] == [];
    }

    /** The closure of the parallel map for one entry past the flag check. */
    method FanEntry(path: Path, e: Entry, depth: nat, results: seq<(nat, Option<DirNode>)>)
      returns (out: seq<(nat, Option<DirNode>)>)
      requires depth < 2
      modifies this
      ensures Acc(Pushed(out), Added(out), checkpoints, Counts())
           == FanItem(cancel, path, e, depth,
                      Acc(Pushed(results), Added(results), old(checkpoints), old(Counts())))
      decreases e, 3
    {
      out := results;
      match e {
        case Dir(name, _, _) =>
          var child := ScanParallel(path + [name], e, depth + 1);
          if child.Some? {
            dirCount := dirCount + 1;
            out := results + [(child.value.size, child)];
            CollectPushed(results, (child.value.size, child));
          }
        case File(_, size, metadataOk) =>
          if metadataOk {
            fileCount := fileCount + 1;
            totalSize := totalSize + size;
            out := results + [(size, None)];
            CollectPushed(results, (size, None));
          }
        case _ =>
      }
    }

    /** Depth 2 and below: the sequential loop that stops at a cancellation
      and hands subdirectories to `scan_recursive_single`. */
    method DeepLoop(path: Path, es: seq<Entry>) returns (a: Acc)
      modifies this
      ensures a.next == checkpoints && a.counters == Counts()
      ensures a == Deep(cancel, path, es, Acc([], 0, old(checkpoints), old(Counts())))
    {
      ghost var spec := Deep(cancel, path, es, Acc([], 0, checkpoints, Counts()));
      var dirSize: nat := 0;
      var children: seq<DirNode> := [];
      var i := 0;
      while i < |es|
        invariant 0 <= i <= |es|
        invariant Deep(cancel, path, es[i..], Acc(children, dirSize, checkpoints, Counts())) == spec
      {
        assert es[i..][1..] == es[i + 1..];
        if !es[i].Broken? {
          ghost var before := Acc(children, dirSize, checkpoints, Counts());
          var stop := CancelRequested();
          if stop {
            assert Acc(children, dirSize, checkpoints, Counts()) == spec;
            break;
          }
          match es[i] {
            case Dir(name, _, _) =>
              var child := ScanSingle(path + [name], es[i]);
              if child.Some? {
                dirSize := dirSize + child.value.size;
                children := children + [child.value];
                dirCount := dirCount + 1;
              }
            case File(_, size, metadataOk) =>
              if metadataOk {
                dirSize := dirSize + size;
                fileCount := fileCount + 1;
                totalSize := totalSize + size;
              }
            case _ =>
          }
          assert Acc(children, dirSize, checkpoints, Counts())
              == DeepItem(cancel, path, es[i], before.(next := before.next + 1));
        }
        i := i + 1;
      }
      a := Acc(children, dirSize, checkpoints, Counts());
    }
  }

  /** The fold of the collected pairs: every size is added to `dir_size`
      and every child present is pushed, in order. */
  method Fold(results: seq<(nat, Option<DirNode>)>) returns (children: seq<DirNode>, dirSize: nat)
    ensures children == Pushed(results) && dirSize == Added(results)
  {
    dirSize, children := 0, [];
    var j := 0;
    while j < |results|
      invariant 0 <= j <= |results|
      invariant dirSize == Added(results[..j]) && children == Pushed(results[..j])
    {
      assert results[..j + 1] == results[..j] + [results[j]];
      CollectPushed(results[..j], results[j]);
      dirSize := dirSize + results[j].0;
      if results[j].1.Some? {
        children := children + [results[j].1.value];
      }
      j := j + 1;
    }
    assert results[..j] == results;
  }

  /** The children kept from a collected list of `(size, child)` pairs. */
  function Pushed(rs: seq<(nat, Option<DirNode>)>): seq<DirNode>
  {
    if rs == [] then []
    else
      var last := rs[|rs| - 1];
      Pushed(rs[..|rs| - 1]) + (if last.1.Some? then [last.1.value] else [])
  }

  /** The sizes summed from a collected list of `(size, child)` pairs. */
  function Added(rs: seq<(nat, Option<DirNode>)>): nat
  {
    if rs == [] then 0 else Added(rs[..|rs| - 1]) + rs[|rs| - 1].0
  }

  lemma CollectPushed(rs: seq<(nat, Option<DirNode>)>, x: (nat, Option<DirNode>))
    ensures Pushed(rs + [x]) == Pushed(rs) + (if x.1.Some? then [x.1.value] else [])
    ensures Added(rs + [x]) == Added(rs) + x.0
  {
    assert (rs + [x])[..|rs|] == rs;
  }
}
