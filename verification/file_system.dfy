/** The filesystem as the scanner sees it, in place of `read_dir`,
    `file_type`, `metadata` and `exists`. */
module FileSystem {
  import opened Wrappers
  import opened SizeTree

  /** One directory entry, as classified without following symbolic
      links. */
  datatype Entry =
      /** A regular file; `metadataOk` is false when `metadata()` fails. */
    | File(name: string, size: nat, metadataOk: bool)
      /** A directory; `readable` is false when `read_dir` fails on it. */
    | Dir(name: string, readable: bool, entries: seq<Entry>)
      /** A symbolic link or special file: neither a directory nor a file. */
    | Other(name: string)
      /** An entry whose `file_type()` fails. */
    | Unclassifiable(name: string)
      /** An item that the directory iterator itself yields as an error. */
    | Broken

  /** Whether `read_dir` on this entry yields a listing. */
  predicate Listable(e: Entry)
  {
    e.Dir? && e.readable
  }

  /** The first entry of a listing with the given name. */
  function Find(es: seq<Entry>, name: string): (r: Option<Entry>)
    ensures r.Some? ==> r.value in es && !r.value.Broken? && r.value.name == name
    ensures r.None? ==> forall e :: e in es && !e.Broken? ==> e.name != name
  {
    if es == [] then None
    else if !es[0].Broken? && es[0].name == name then Some(es[0])
    else Find(es[1..], name)
  }

  /** The entry at a path below the root directory `root`, if any. */
  function Lookup(root: Entry, p: Path): Option<Entry>
  {
    if p == [] then Some(root)
    else if !root.Dir? then None
    else
      match Find(root.entries, p[0])
      case None => None
      case Some(e) => Lookup(e, p[1..])
  }

  /** `Path::exists`: the root always exists, and a longer path exists
      only inside an existing directory. */
  predicate Exists(root: Entry, p: Path): (b: bool)
    ensures p == [] ==> b
    ensures b && p != [] ==>
      var parent := Lookup(root, p[..|p| - 1]);
      parent.Some? && parent.value.Dir? && Find(parent.value.entries, p[|p| - 1]).Some?
  {
    if p == [] then true
    else
      LookupChild(root, p[..|p| - 1], p[|p| - 1]);
      assert p[..|p| - 1] + [p[|p| - 1]] == p;
      Lookup(root, p).Some?
  }

  /** The entry at a path extended by one name is the entry of that name in
      the listing of the directory at the path; there is none when the path
      names no directory. */
  lemma {:induction false} LookupChild(root: Entry, p: Path, name: string)
    ensures Lookup(root, p + [name]) ==
      match Lookup(root, p)
      case Some(d) => if d.Dir? then Find(d.entries, name) else None
      case None => None
    decreases p
  {
    var q := p + [name];
    assert q[0] == (if p == [] then name else p[0]);
    if p == [] {
      assert q[1..] == [];
    } else {
      assert q[1..] == p[1..] + [name];
      if root.Dir? {
        match Find(root.entries, p[0])
        case None =>
        case Some(e) => LookupChild(e, p[1..], name);
      }
    }
  }
}
