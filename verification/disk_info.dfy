/** Resolving the volume a path lives on: the mounted disk whose mount
    point is the longest prefix of the path. */
module DiskInfo {
  import opened Wrappers
  import opened SizeTree
  import opened Text

  /** `sysinfo::DiskKind`. */
  datatype DiskKind = HDD | SSD | Unknown(code: int)

  /** One entry of the disk list: its mount point, capacity and kind. */
  datatype Disk = Disk(mountPoint: Path, totalSpace: nat, kind: DiskKind)

  /** The triple `(disk_size, disk_type, is_ssd)`. */
  datatype Info = Info(size: nat, kind: string, isSsd: bool)

  /** `Path::starts_with`: the mount point's components are a prefix of
      the path's. */
  predicate StartsWith(p: Path, m: Path)
  {
    |m| <= |p| && p[..|m|] == m
  }

  /** A path starts with a mount point exactly when it is the mount point
      followed by more components. */
  lemma StartsWithJoin(p: Path, m: Path, rest: Path)
    ensures StartsWith(m + rest, m)
    ensures StartsWith(p, m) ==> p == m + p[|m|..]
  {
    assert (m + rest)[..|m|] == m;
  }

  /** The mount point as text: "/" for the root, otherwise "/" before every
      component. */
  function Rendered(m: Path): string
  {
    if m == [] then "/" else Joined(m)
  }

  function Joined(m: Path): (s: string)
    ensures |s| >= |m|
  {
    if m == [] then "" else Joined(m[..|m| - 1]) + "/" + m[|m| - 1]
  }

  /** `mount_point.as_os_str().len()`. A mount point is never the empty
      string, so every match beats the initial `best_match_len` of 0. */
  function MountLen(m: Path): (n: nat)
    ensures n >= 1
    ensures n >= |m|
  {
    |Rendered(m)|
  }

  /** `format!("{:?}", kind)`. */
  function KindLabel(k: DiskKind): (s: string)
    ensures s == "SSD" <==> k == SSD
    ensures s == "HDD" <==> k == HDD
  {
    match k
    case HDD => "HDD"
    case SSD => "SSD"
    case Unknown(c) => "Unknown(" + IntToString(c) + ")"
  }

  /** What `get_disk_info` reports for the chosen disk. */
  function InfoOf(d: Disk): Info
  {
    Info(d.totalSpace, KindLabel(d.kind), d.kind == SSD)
  }

  /** The answer when no mount point is a prefix of the path. */
  const NoDisk := Info(0, "Unknown", false)

  /** Disk `i` matches the path and wins the scan: its mount point is
      strictly longer than that of every earlier match, and at least as
      long as that of every later one. */
  ghost predicate IsBest(disks: seq<Disk>, p: Path, i: nat)
  {
    i < |disks| && StartsWith(p, disks[i].mountPoint) &&
    (forall j :: 0 <= j < i && StartsWith(p, disks[j].mountPoint) ==>
       MountLen(disks[j].mountPoint) < MountLen(disks[i].mountPoint)) &&
    (forall j :: i < j < |disks| && StartsWith(p, disks[j].mountPoint) ==>
       MountLen(disks[j].mountPoint) <= MountLen(disks[i].mountPoint))
  }

  /** `info` is what `get_disk_info` reports for `p`: the winning disk's
      capacity, kind and SSD flag, or the "Unknown" triple when no mount
      point matches. */
  ghost predicate Resolves(disks: seq<Disk>, p: Path, info: Info)
  {
    ((forall j :: 0 <= j < |disks| ==> !StartsWith(p, disks[j].mountPoint)) ==> info == NoDisk) &&
    ((exists j :: 0 <= j < |disks| && StartsWith(p, disks[j].mountPoint)) ==>
       exists i: nat :: IsBest(disks, p, i) && info == InfoOf(disks[i]))
  }

  /** `get_disk_info(path)` over the given disk list: one pass keeping the
      first disk of strictly greatest mount-point length among those whose
      mount point is a prefix of the path. */
  method GetDiskInfo(disks: seq<Disk>, p: Path) returns (info: Info)
    ensures Resolves(disks, p, info)
    ensures info.isSsd <==> info.kind == "SSD"
  {
    var best: Option<Disk> := None;
    var bestLen := 0;
    ghost var bi := 0;
    for i := 0 to |disks|
      invariant best.None? ==> bestLen == 0 && forall j :: 0 <= j < i ==> !StartsWith(p, disks[j].mountPoint)
      invariant best.Some? ==> bi < i && best.value == disks[bi] && StartsWith(p, disks[bi].mountPoint)
      invariant best.Some? ==> bestLen == MountLen(disks[bi].mountPoint)
      invariant best.Some? ==> forall j :: 0 <= j < bi && StartsWith(p, disks[j].mountPoint) ==>
                                 MountLen(disks[j].mountPoint) < bestLen
      invariant best.Some? ==> forall j :: bi < j < i && StartsWith(p, disks[j].mountPoint) ==>
                                 MountLen(disks[j].mountPoint) <= bestLen
    {
      var m := disks[i].mountPoint;
      if StartsWith(p, m) {
        var len := MountLen(m);
        if len > bestLen {
          best := Some(disks[i]);
          bestLen := len;
          bi := i;
        }
      }
    }
    if best.Some? {
      info := InfoOf(best.value);
      assert IsBest(disks, p, bi);
    } else {
      info := NoDisk;
    }
  }
}
