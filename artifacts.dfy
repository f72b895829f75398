/** The artifact directory both handlers write into: the `.docx` uploads and `.pdf` results,
    each under a name derived from the job key. Only this one directory is modelled. */
module Artifacts {

  /** What the handlers ask of a file: `os.path.getmtime` (an opaque timestamp) and
      `os.path.getsize`. */
  datatype FileInfo = FileInfo(mtime: int, size: nat)

  predicate NoDup(names: seq<string>) {
    forall i, j :: 0 <= i < j < |names| ==> names[i] != names[j]
  }

  /** `names` without `n`, the others in their order. */
  function Without(names: seq<string>, n: string): (r: seq<string>)
    ensures forall x :: x in r <==> x in names && x != n
    ensures NoDup(names) ==> NoDup(r)
  {
    if names == [] then []
    else
      var rest := Without(names[1..], n);
      if names[0] == n then rest
      else
        assert NoDup(names) ==> names[0] !in names[1..];
        [names[0]] + rest
  }

  /** A snapshot of the directory: its entries in `os.listdir` order, and what each entry
      is. A well-formed snapshot lists every entry exactly once. */
  datatype Dir = Dir(names: seq<string>, info: map<string, FileInfo>) {

    ghost predicate Wf() {
      && NoDup(names)
      && forall n :: n in names <==> n in info
    }

    /** Creating or overwriting the file `n`. An existing entry keeps its place in the
        listing; a new one is listed last. */
    function Put(n: string, fi: FileInfo): (d: Dir)
      requires Wf()
      ensures d.Wf()
      ensures d.info == info[n := fi]
      ensures n in info ==> d.names == names
    {
      if n in info then Dir(names, info[n := fi])
      else
        assert forall i :: 0 <= i < |names| ==> names[i] != n;
        Dir(names + [n], info[n := fi])
    }

    /** `os.remove` of the entry `n`; every other entry stays as it was. */
    function Delete(n: string): (d: Dir)
      requires Wf()
      ensures d.Wf()
      ensures d.info == info - {n}
    {
      Dir(Without(names, n), info - {n})
    }
  }

  /** The directory as the handlers change it in place. */
  class Directory {
    var names: seq<string>
    var info: map<string, FileInfo>

    function State(): Dir
      reads this
    {
      Dir(names, info)
    }

    ghost predicate Valid()
      reads this
    {
      State().Wf()
    }

    constructor (d: Dir)
      requires d.Wf()
      ensures Valid() && State() == d
    {
      names := d.names;
      info := d.info;
    }

    /** `os.path.exists(path)` for an entry of this directory. */
    method Exists(n: string) returns (b: bool)
      ensures b <==> n in info
    {
      b := n in info;
    }

    /** `os.listdir(dir)`. */
    method List() returns (ns: seq<string>)
      requires Valid()
      ensures NoDup(ns)
      ensures forall n :: n in ns <==> n in info
      ensures ns == names
    {
      ns := names;
    }

    /** Writing the file `n` (`open(path, "wb")` and `write`). */
    method Write(n: string, fi: FileInfo)
      requires Valid()
      modifies this
      ensures Valid()
      ensures State() == old(State()).Put(n, fi)
    {
      var d := State().Put(n, fi);
      names, info := d.names, d.info;
    }

    /** `os.remove(path)` of an existing entry. */
    method Remove(n: string)
      requires Valid()
      requires n in info
      modifies this
      ensures Valid()
      ensures State() == old(State()).Delete(n)
    {
      names := Without(names, n);
      info := info - {n};
    }
  }
}
