/**
 * A file tree as a map from normalised path to content, with the operations of
 * the filesystem helpers the tool calls: write a file, remove a directory
 * recursively, and copy a file or directory. Directories are implied by the
 * paths under them and are not stored.
 */
module Files {
  import opened Markup

  datatype FileData =
    | Document(elements: seq<Element>)
    | Text(content: string)

  /** `p` is `dir` itself or lies below it. */
  predicate Under(p: string, dir: string) {
    p == dir || (|p| > |dir| && p[..|dir|] == dir && p[|dir|] == '/')
  }

  /** Something exists at `p`: a file, or a directory holding one. */
  predicate Exists(files: map<string, FileData>, p: string) {
    exists q :: q in files && Under(q, p)
  }

  /** The tree after removing `dir` and everything below it. */
  function RemoveTree(files: map<string, FileData>, dir: string): (r: map<string, FileData>)
    ensures forall p :: p in r <==> p in files && !Under(p, dir)
    ensures forall p :: p in r ==> r[p] == files[p]
  {
    map p | p in files && !Under(p, dir) :: files[p]
  }

  /**
   * Nothing is left at or below the removed directory, everything beside it
   * survives, and removing a directory that is not there, or removing it
   * twice, changes nothing.
   */
  lemma RemoveTreeSpec(files: map<string, FileData>, dir: string)
    ensures !Exists(RemoveTree(files, dir), dir)
    ensures !Exists(files, dir) ==> RemoveTree(files, dir) == files
    ensures RemoveTree(RemoveTree(files, dir), dir) == RemoveTree(files, dir)
    ensures forall p :: Exists(files, p) && !Under(p, dir) && !Under(dir, p) ==> Exists(RemoveTree(files, dir), p)
  {
    forall p | Exists(files, p) && !Under(p, dir) && !Under(dir, p) ensures Exists(RemoveTree(files, dir), p) {
      var q :| q in files && Under(q, p);
      if Under(q, dir) {
        UnderBoth(q, p, dir);
      }
    }
  }

  /** Two directories above the same path: one lies below the other. */
  lemma UnderBoth(q: string, p: string, d: string)
    requires Under(q, p) && Under(q, d)
    ensures Under(p, d) || Under(d, p)
  {
    if |p| < |d| {
      assert d[..|p|] == q[..|d|][..|p|] == p;
      assert d[|p|] == q[|p|];
    } else if |d| < |p| {
      assert p[..|d|] == q[..|p|][..|d|] == d;
      assert p[|d|] == q[|d|];
    } else {
      assert p == q[..|p|] == d;
    }
  }

  /** Where a path below `src` lands when `src` is copied to `dst`. */
  function Rebase(p: string, src: string, dst: string): string
    requires Under(p, src)
  {
    dst + p[|src|..]
  }

  lemma RebaseUnder(p: string, src: string, dst: string)
    requires Under(p, src)
    ensures Under(Rebase(p, src, dst), dst)
  {
    var r := Rebase(p, src, dst);
    if p != src {
      assert r[..|dst|] == dst && r[|dst|] == p[|src|];
    } else {
      assert r == dst;
    }
  }

  lemma RebaseInjective(p: string, q: string, src: string, dst: string)
    requires Under(p, src) && Under(q, src)
    requires Rebase(p, src, dst) == Rebase(q, src, dst)
    ensures p == q
  {
    assert p[|src|..] == Rebase(p, src, dst)[|dst|..];
    assert q[|src|..] == Rebase(q, src, dst)[|dst|..];
    assert p == p[..|src|] + p[|src|..];
    assert q == q[..|src|] + q[|src|..];
  }

  /** The copied entries: every path below `src`, moved below `dst`. */
  function Copies(files: map<string, FileData>, src: string, dst: string): (r: map<string, FileData>)
    ensures forall p :: p in files && Under(p, src) ==> Rebase(p, src, dst) in r && r[Rebase(p, src, dst)] == files[p]
    ensures forall q :: q in r ==> Under(q, dst) && exists p :: p in files && Under(p, src) && q == Rebase(p, src, dst)
  {
    forall p, q | p in files && Under(p, src) && q in files && Under(q, src) && Rebase(p, src, dst) == Rebase(q, src, dst)
      ensures p == q
    {
      RebaseInjective(p, q, src, dst);
    }
    forall p | p in files && Under(p, src) ensures Under(Rebase(p, src, dst), dst) {
      RebaseUnder(p, src, dst);
    }
    map p | p in files && Under(p, src) :: Rebase(p, src, dst) := files[p]
  }

  /** `fs.copy(src, dst)`: the copies overwrite what was at their paths, all else stays. */
  function CopyTree(files: map<string, FileData>, src: string, dst: string): (r: map<string, FileData>)
    ensures forall q :: q in r <==> q in files || q in Copies(files, src, dst)
    ensures forall q :: q in r && !Under(q, dst) ==> q in files && r[q] == files[q]
  {
    files + Copies(files, src, dst)
  }

  /** The mutable file tree that the filesystem helpers act on. */
  class FileSystem {
    var files: map<string, FileData>

    constructor (initial: map<string, FileData>)
      ensures files == initial
    {
      files := initial;
    }

    /** `writeToFile(path, data)`. */
    method Write(path: string, data: FileData)
      modifies this
      ensures files == old(files)[path := data]
    {
      files := files[path := data];
    }

    /** `removeDirectory(dir)`: tolerates a missing directory. */
    method RemoveDirectory(dir: string)
      modifies this
      ensures files == RemoveTree(old(files), dir)
    {
      files := RemoveTree(files, dir);
    }

    /**
     * `copy(src, dst)` from another tree into this one: fails, changing
     * nothing, when nothing exists at `src` there.
     */
    method Import(source: map<string, FileData>, src: string, dst: string) returns (ok: bool)
      modifies this
      ensures ok == Exists(source, src)
      ensures files == if ok then old(files) + Copies(source, src, dst) else old(files)
    {
      ok := exists q :: q in source && Under(q, src);
      if ok {
        files := files + Copies(source, src, dst);
      }
    }

    /** `copy` / `copyModule(src, dst)`: fails, changing nothing, when nothing exists at `src`. */
    method Copy(src: string, dst: string) returns (ok: bool)
      modifies this
      ensures ok == Exists(old(files), src)
      ensures files == if ok then CopyTree(old(files), src, dst) else old(files)
    {
      ok := exists q :: q in files && Under(q, src);
      if ok {
        files := CopyTree(files, src, dst);
      }
    }
  }
}
