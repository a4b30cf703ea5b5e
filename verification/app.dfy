/** The scan control of the analyzer window: starting and stopping a scan,
    the background worker's outcome, polling the result slot, and pruning
    a deleted path from the displayed tree. */
module App {
  import opened Wrappers
  import opened SizeTree
  import opened FileSystem
  import opened ScanSpec
  import opened ScanEngine
  import opened TreeSort
  import opened TreeRemove
  import opened DiskInfo

  /** `ScanProgress`, the status shared between the worker and the
      window. */
  datatype ScanProgress = ScanProgress(
    message: string,
    currentPath: string,
    filesScanned: nat,
    dirsScanned: nat,
    totalSize: nat,
    diskSize: nat,
    diskType: string,
    threadCount: nat)

  /** `ScanProgress::default`. */
  const DefaultProgress := ScanProgress("", "", 0, 0, 0, 0, "", 1)

  /** What the worker leaves in the result slot. */
  datatype ScanResult = InProgress | Complete(root: DirNode) | Cancelled | Error(reason: string)

  /** The walk the worker performs on an existing root: the parallel
      walker from depth 0 or the sequential walker, with fresh counters and
      the first checkpoint numbered 0. */
  ghost function Walked(fs: Entry, path: Path, useParallel: bool, cancel: nat -> bool): Walk
    requires Exists(fs, path)
  {
    var e := Lookup(fs, path).value;
    if useParallel then Par(cancel, path, e, 0, 0, Counters(0, 0, 0))
    else Single(cancel, path, e, 0, Counters(0, 0, 0))
  }

  /** `s` with `pre` removed from its front, if it starts with it. */
  function StripPrefix(s: string, pre: string): (r: Option<string>)
    ensures r.Some? <==> |pre| <= |s| && s[..|pre|] == pre
    ensures r.Some? ==> pre + r.value == s
  {
    if |pre| <= |s| && s[..|pre|] == pre then Some(s[|pre|..]) else None
  }

  /** `s` with `suf` removed from its end, if it ends with it. */
  function StripSuffix(s: string, suf: string): (r: Option<string>)
    ensures r.Some? <==> |suf| <= |s| && s[|s| - |suf|..] == suf
    ensures r.Some? ==> r.value + suf == s
  {
    if |suf| <= |s| && s[|s| - |suf|..] == suf then Some(s[..|s| - |suf|]) else None
  }

  /** The number of seconds in a "Complete in {secs}s" message, given how
      the number itself parses. */
  function CompletedSecs(message: string, parse: string -> Option<real>): (r: Option<real>)
    ensures r.Some? ==>
      |message| >= |CompletePrefix| + 1 && message[..|CompletePrefix|] == CompletePrefix &&
      message[|message| - 1] == 's' && r == parse(message[|CompletePrefix|..|message| - 1])
  {
    match StripPrefix(message, CompletePrefix)
    case None => None
    case Some(rest) =>
      match StripSuffix(rest, "s")
      case None => None
      case Some(secs) =>
        assert message == CompletePrefix + secs + "s";
        assert message[|CompletePrefix|..|message| - 1] == secs;
        parse(secs)
  }

  /** The start of the message a completed scan leaves. */
  const CompletePrefix := "Complete in "

  /** The seconds read back from the completion message are the seconds
      the scan wrote into it. */
  lemma CompletedSecsRoundTrip(secs: string, parse: string -> Option<real>)
    ensures CompletedSecs(CompletePrefix + secs + "s", parse) == parse(secs)
  {
    var m := CompletePrefix + secs + "s";
    assert m[..|CompletePrefix|] == CompletePrefix;
    assert m[|CompletePrefix|..] == secs + "s";
    assert (secs + "s")[|secs + "s"| - 1..] == "s";
    assert (secs + "s")[..|secs + "s"| - 1] == secs;
  }

  /** Reordering children does not care about the root's expansion flag. */
  lemma ExpandKeepsReordered(t: DirNode, r: DirNode)
    requires Reordered(t, r)
    ensures Reordered(t.(isExpanded := true), r.(isExpanded := true))
  {
    var s: seq<DirNode> :| ReorderWitness(t, r, s);
    assert ReorderWitness(t.(isExpanded := true), r.(isExpanded := true), s);
  }

  /** The finished tree as the scan publishes it: children sorted by size
      at every level, and the root expanded. */
  method SortedRoot(node: DirNode) returns (r: DirNode)
    ensures r.path == node.path && r.isExpanded && SortedEverywhere(r)
    ensures Reordered(node.(isExpanded := true), r)
    ensures SizeConsistent(node) ==> SizeConsistent(r)
  {
    r := SortTree(node);
    if SizeConsistent(node) {
      ReorderedKeepsSizes(node, r);
    }
    ExpandKeepsReordered(node, r);
    r := r.(isExpanded := true);
  }

  class BaobabApp {
    var rootNode: Option<DirNode>
    var selectedPath: Option<Path>
    var isScanning: bool
    var progress: ScanProgress
    var resultSlot: Option<ScanResult>
    var scanCancel: bool
    var lastScanDuration: Option<real>
    var lastScanSize: nat
    var scanSpeedMbps: real

    /** The scan state of `BaobabApp::new`. */
    constructor ()
      ensures rootNode == None && selectedPath == None && !isScanning
      ensures progress == DefaultProgress && resultSlot == None && !scanCancel
      ensures lastScanDuration == None && lastScanSize == 0 && scanSpeedMbps == 0.0
    {
      rootNode := None;
      selectedPath := None;
      isScanning := false;
      progress := DefaultProgress;
      resultSlot := None;
      scanCancel := false;
      lastScanDuration := None;
      lastScanSize := 0;
      scanSpeedMbps := 0.0;
    }

    /** `start_scan(path)`: marks a scan as running, forgets the previous
      tree and result, clears the flag and resets the progress counters
      with the volume's capacity and kind. One thread is reported unless
      the volume is an SSD, in which case the pool size is. The result is
      the mode handed to the spawned worker: parallel exactly on an SSD. */
    method StartScan(path: Path, disks: seq<Disk>, poolThreads: nat) returns (useParallel: bool)
      modifies this`isScanning, this`rootNode, this`scanCancel, this`resultSlot, this`progress
      ensures isScanning && rootNode == None && !scanCancel && resultSlot == None
      ensures progress.message == "Starting scan..." && progress.currentPath == ""
      ensures progress.filesScanned == 0 && progress.dirsScanned == 0 && progress.totalSize == 0
      ensures Resolves(disks, path, Info(progress.diskSize, progress.diskType, useParallel))
      ensures progress.threadCount == if useParallel then poolThreads else 1
      ensures useParallel <==> progress.diskType == "SSD"
    {
      isScanning := true;
      rootNode := None;
      scanCancel := false;
      resultSlot := None;
      var info := GetDiskInfo(disks, path);
      progress := progress.(
        message := "Starting scan...",
        currentPath := "",
        filesScanned := 0,
        dirsScanned := 0,
        totalSize := 0,
        diskSize := info.size,
        diskType := info.kind,
        threadCount := if info.isSsd then poolThreads else 1);
      useParallel := info.isSsd;
    }

    /** `stop_scan`: raises the flag and stops waiting for the result. */
    method StopScan()
      modifies this`scanCancel, this`isScanning, this`progress
      ensures scanCancel && !isScanning
      ensures progress == old(progress).(message := "Scan cancelled")
    {
      scanCancel := true;
      isScanning := false;
      progress := progress.(message := "Scan cancelled");
    }

    /** The result-slot check of `update`. `lockAcquired` is whether
      `try_lock` succeeds; `parse` is how a decimal number of seconds
      parses. Only while a scan is running is the slot taken: a finished
      tree becomes the displayed root, a cancellation or error clears the
      statistics, and a pending result is put back. */
    method PollResult(lockAcquired: bool, parse: string -> Option<real>)
      modifies this
      ensures !(old(isScanning) && lockAcquired && old(resultSlot).Some?) ==>
        isScanning == old(isScanning) && resultSlot == old(resultSlot) && rootNode == old(rootNode) &&
        lastScanSize == old(lastScanSize) && lastScanDuration == old(lastScanDuration) &&
        scanSpeedMbps == old(scanSpeedMbps)
      ensures old(isScanning) && lockAcquired && old(resultSlot) == Some(InProgress) ==>
        isScanning && resultSlot == Some(InProgress) && rootNode == old(rootNode) &&
        lastScanSize == old(lastScanSize) && lastScanDuration == old(lastScanDuration) &&
        scanSpeedMbps == old(scanSpeedMbps)
      ensures old(isScanning) && lockAcquired && old(resultSlot).Some? && old(resultSlot).value.Complete? ==>
        var n := old(resultSlot).value.root;
        !isScanning && resultSlot == None && rootNode == Some(n) && lastScanSize == n.size &&
        (match CompletedSecs(progress.message, parse)
         case None => lastScanDuration == old(lastScanDuration) && scanSpeedMbps == old(scanSpeedMbps)
         case Some(secs) =>
           lastScanDuration == Some(secs) &&
           scanSpeedMbps == if secs > 0.0 then n.size as real / (1024.0 * 1024.0) / secs else old(scanSpeedMbps))
      ensures old(isScanning) && lockAcquired && old(resultSlot).Some? &&
              (old(resultSlot).value.Cancelled? || old(resultSlot).value.Error?) ==>
        !isScanning && resultSlot == None && rootNode == old(rootNode) &&
        lastScanDuration == None && lastScanSize == 0 && scanSpeedMbps == 0.0
      ensures progress == old(progress) && selectedPath == old(selectedPath) && scanCancel == old(scanCancel)
    {
      if isScanning && lockAcquired && resultSlot.Some? {
        var taken := resultSlot.value;
        resultSlot := None;
        match taken {
          case Complete(node) =>
            isScanning := false;
            lastScanSize := node.size;
            rootNode := Some(node);
            var secs := CompletedSecs(progress.message, parse);
            match secs {
              case Some(d) =>
                lastScanDuration := Some(d);
                if d > 0.0 {
                  var sizeMb := lastScanSize as real / (1024.0 * 1024.0);
                  scanSpeedMbps := sizeMb / d;
                }
              case None =>
            }
          case Cancelled =>
            isScanning := false;
            lastScanDuration := None;
            lastScanSize := 0;
            scanSpeedMbps := 0.0;
          case Error(_) =>
            isScanning := false;
            lastScanDuration := None;
            lastScanSize := 0;
            scanSpeedMbps := 0.0;
          case InProgress =>
            resultSlot := Some(InProgress);
        }
      }
    }

    /** `scan_directory`, the worker: a missing root is an error; otherwise
      the chosen walker runs with fresh counters, and a root node, sorted
      and expanded, completes the scan while no node means it was
      cancelled. Only the checkpoint on entry to the root can cancel: a
      flag raised later still completes, with a partial tree.
      `elapsed` is the `{:.2}` rendering of the time taken. */
    method ScanDirectory(fs: Entry, path: Path, useParallel: bool, cancel: nat -> bool, elapsed: string)
      modifies this`progress, this`resultSlot, this`scanCancel
      ensures !Exists(fs, path) ==>
        resultSlot == Some(Error("Path does not exist")) &&
        progress == old(progress).(message := "Error: Path does not exist") &&
        scanCancel == old(scanCancel)
      ensures Exists(fs, path) ==>
        !scanCancel && resultSlot.Some? &&
        (resultSlot.value == Cancelled <==> cancel(0)) &&
        (resultSlot.value.Complete? <==> !cancel(0))
      ensures Exists(fs, path) && resultSlot.Some? && resultSlot.value.Complete? ==>
        var n := resultSlot.value.root;
        var w := Walked(fs, path, useParallel, cancel);
        w.node.Some? &&
        n.path == path && n.isExpanded && SortedEverywhere(n) &&
        Reordered(w.node.value.(isExpanded := true), n) &&
        (!useParallel ==> SizeConsistent(n)) &&
        progress == old(progress).(filesScanned := w.counters.files,
          dirsScanned := w.counters.dirs, totalSize := w.counters.bytes,
          message := CompletePrefix + elapsed + "s")
      ensures Exists(fs, path) && resultSlot == Some(Cancelled) ==>
        progress == old(progress).(message :=
          if useParallel then "Scanning (parallel mode)..." else "Scanning (single-threaded mode)...")
    {
      if !Exists(fs, path) {
        progress := progress.(message := "Error: Path does not exist");
        resultSlot := Some(Error("Path does not exist"));
        return;
      }
      progress := progress.(message :=
        if useParallel then "Scanning (parallel mode)..." else "Scanning (single-threaded mode)...");
      var e := Lookup(fs, path).value;
      var scan := new Scan(cancel);
      var root: Option<DirNode>;
      if useParallel {
        root := scan.ScanParallel(path, e, 0);
        ParShape(cancel, path, e, 0, 0, Counters(0, 0, 0));
      } else {
        root := scan.ScanSingle(path, e);
        SingleShape(cancel, path, e, 0, Counters(0, 0, 0));
      }
      scanCancel := true;
      scanCancel := false;
      match root {
        case Some(node) =>
          progress := progress.(
            filesScanned := scan.fileCount,
            dirsScanned := scan.dirCount,
            totalSize := scan.totalSize,
            message := "Sorting...");
          var sorted := SortedRoot(node);
          progress := progress.(message := CompletePrefix + elapsed + "s");
          resultSlot := Some(Complete(sorted));
        case None =>
          resultSlot := Some(Cancelled);
      }
    }

    /** `remove_from_tree(path)` after a deletion: removing the root drops
      the whole tree and the selection; otherwise the path is pruned from
      every level below the root, the rest keeps its order, and the
      selection is cleared only if it was the removed path. */
    method RemoveFromTree(p: Path)
      modifies this`rootNode, this`selectedPath
      ensures old(rootNode) == None ==> rootNode == None && selectedPath == old(selectedPath)
      ensures old(rootNode).Some? && old(rootNode).value.path == p ==>
        rootNode == None && selectedPath == None
      ensures old(rootNode).Some? && old(rootNode).value.path != p ==>
        rootNode == Some(Pruned(old(rootNode).value, p)) &&
        NoneBelow(rootNode.value, p) &&
        Preorder(rootNode.value) == Survivors(old(rootNode).value, p) &&
        selectedPath == (if old(selectedPath) == Some(p) then None else old(selectedPath))
    {
      if rootNode.Some? {
        var root := rootNode.value;
        if root.path == p {
          rootNode := None;
          selectedPath := None;
        } else {
          var pruned, _ := RemoveRecursive(root, p);
          PrunedNoneBelow(root, p);
          PrunedPreorder(root, p);
          rootNode := Some(pruned);
          if selectedPath == Some(p) {
            selectedPath := None;
          }
        }
      }
    }
  }
}
