/**
 * The dependency graph of the older TypeScript library: shorthands stored
 * under their exact name, a projection that looks each child up by its whole
 * pointer string, and the copy of every module into a cleared output tree.
 */
module LegacyGraph {
  import opened Wrappers
  import opened Strings
  import opened Files
  import Paths
  import Scanner

  /** `generateDependencyPointer(name, version)`: the name, an `@`, then the version. */
  function GenerateDependencyPointer(name: string, version: string): (r: string)
    ensures |r| == |name| + 1 + |version|
    ensures r[..|name|] == name && r[|name|] == '@' && r[|name| + 1..] == version
  {
    name + "@" + version
  }

  /** Splitting a pointer on `@` gives back its name and version when neither holds an `@`. */
  lemma PointerSplits(name: string, version: string)
    requires '@' !in name && '@' !in version
    ensures Split(GenerateDependencyPointer(name, version), '@') == [name, version]
  {
    assert GenerateDependencyPointer(name, version) == name + ['@'] + version;
    SplitAppend(name, '@', version);
    SplitNoSeparator(name, '@');
    SplitNoSeparator(version, '@');
  }

  /** Names and versions without `@` are recovered from their pointer: distinct pairs give distinct pointers. */
  lemma PointerInjective(n1: string, v1: string, n2: string, v2: string)
    requires '@' !in n1 && '@' !in v1 && '@' !in n2 && '@' !in v2
    requires GenerateDependencyPointer(n1, v1) == GenerateDependencyPointer(n2, v2)
    ensures n1 == n2 && v1 == v2
  {
    PointerSplits(n1, v1);
    PointerSplits(n2, v2);
  }

  datatype PackageKind = Bower | Npm

  /** `DependencyShorthand`: the properties it was built from, copied as given. */
  datatype Shorthand = Shorthand(name: string, path: string, kind: PackageKind, version: string, dependencies: seq<string>)
  {
    /** The shorthand's own pointer, from its name and version. */
    function OwnPointer(): (r: string)
      ensures |r| > |name| && r[..|name|] == name && r[|name|] == '@' && r[|name| + 1..] == version
    {
      GenerateDependencyPointer(name, version)
    }
  }

  /** A shorthand whose name and version hold no `@` is recovered from its own pointer. */
  lemma OwnPointerSplits(s: Shorthand)
    requires '@' !in s.name && '@' !in s.version
    ensures Split(s.OwnPointer(), '@') == [s.name, s.version]
  {
    PointerSplits(s.name, s.version);
  }

  /**
   * A table as `addDependency` builds it: each node under its exact name, and
   * the keys listed once each in insertion order.
   */
  ghost predicate ValidTable(m: map<string, Shorthand>, order: seq<string>) {
    && |order| == |m|
    && (forall i :: 0 <= i < |order| ==> order[i] in m)
    && (forall i, j :: 0 <= i < j < |order| ==> order[i] != order[j])
    && (forall k :: k in m ==> m[k].name == k)
  }

  /** The `TypeError` raised when a pointer is not a key and `.name` is read from `undefined`. */
  datatype ReadError = TypeError

  /** Every pointer of `n` is a key of the table. */
  predicate PointersFound(n: Shorthand, m: map<string, Shorthand>) {
    forall j :: 0 <= j < |n.dependencies| ==> n.dependencies[j] in m
  }

  /** `dependency.dependencies.map(d => this.dependencies[d].name)`. */
  function ChildNames(n: Shorthand, m: map<string, Shorthand>): (r: seq<string>)
    requires PointersFound(n, m)
    ensures |r| == |n.dependencies|
    ensures forall j :: 0 <= j < |r| ==> r[j] == m[n.dependencies[j]].name
  {
    seq(|n.dependencies|, j requires 0 <= j < |n.dependencies| => m[n.dependencies[j]].name)
  }

  /** Every node listed in `order` has all its pointers as keys. */
  predicate AllFound(m: map<string, Shorthand>, order: seq<string>)
    requires forall i :: 0 <= i < |order| ==> order[i] in m
  {
    forall i :: 0 <= i < |order| ==> PointersFound(m[order[i]], m)
  }

  /** The `graph` part of the projection: each node's children by name, in key order. */
  function GraphOf(m: map<string, Shorthand>, order: seq<string>): (r: seq<Scanner.Entry<seq<string>>>)
    requires forall i :: 0 <= i < |order| ==> order[i] in m
    requires AllFound(m, order)
    ensures |r| == |order|
    ensures forall i :: 0 <= i < |order| ==> r[i] == Scanner.Entry(m[order[i]].name, ChildNames(m[order[i]], m))
  {
    seq(|order|, i requires 0 <= i < |order| => Scanner.Entry(m[order[i]].name, ChildNames(m[order[i]], m)))
  }

  /** The `shrinkwrap` part of the projection: each node's version, in key order. */
  function ShrinkwrapOf(m: map<string, Shorthand>, order: seq<string>): (r: seq<Scanner.Entry<string>>)
    requires forall i :: 0 <= i < |order| ==> order[i] in m
    ensures |r| == |order|
    ensures forall i :: 0 <= i < |order| ==> r[i] == Scanner.Entry(m[order[i]].name, m[order[i]].version)
  {
    seq(|order|, i requires 0 <= i < |order| => Scanner.Entry(m[order[i]].name, m[order[i]].version))
  }

  /**
   * `toReadable`: in key order, each node's children by name and its version;
   * a pointer that is not a key raises the `TypeError`.
   */
  function ReadableOf(m: map<string, Shorthand>, order: seq<string>): Result<Scanner.Readable, ReadError>
    requires forall i :: 0 <= i < |order| ==> order[i] in m
  {
    if AllFound(m, order) then Ok(Scanner.Readable(GraphOf(m, order), ShrinkwrapOf(m, order)))
    else Err(TypeError)
  }

  class DependencyGraph {
    var dependencies: map<string, Shorthand>
    /** The order in which keys were first inserted, which the JavaScript object keeps. */
    var order: seq<string>

    ghost predicate Valid()
      reads this
    {
      ValidTable(dependencies, order)
    }

    constructor ()
      ensures Valid() && dependencies == map[] && order == []
    {
      dependencies := map[];
      order := [];
    }

    /** `addDependency(d)`: stores `d` under its exact name, replacing any node there. */
    method AddDependency(d: Shorthand)
      requires Valid()
      modifies this
      ensures Valid() && HasDependency(d.name)
      ensures dependencies == old(dependencies)[d.name := d]
      ensures order == if d.name in old(dependencies) then old(order) else old(order) + [d.name]
    {
      AddKeepsValid(dependencies, order, d);
      if d.name !in dependencies {
        order := order + [d.name];
      }
      dependencies := dependencies[d.name := d];
    }

    /**
     * `hasDependency(name)`: a case-sensitive lookup of the exact key; in a
     * well-formed table it finds a node of exactly that name, listed in the
     * key order.
     */
    predicate HasDependency(name: string)
      reads this
      ensures HasDependency(name) && ValidTable(dependencies, order) ==>
        name in order && name in dependencies && dependencies[name].name == name
    {
      FoundIsListed(dependencies, order, name);
      name in dependencies
    }

    /** `toReadable`, which changes nothing. */
    method ToReadable() returns (r: Result<Scanner.Readable, ReadError>)
      requires Valid()
      ensures r == ReadableOf(dependencies, order)
    {
      var graph: seq<Scanner.Entry<seq<string>>> := [];
      var shrinkwrap: seq<Scanner.Entry<string>> := [];
      for i := 0 to |order|
        invariant forall k :: 0 <= k < i ==> PointersFound(dependencies[order[k]], dependencies)
        invariant |graph| == |shrinkwrap| == i
        invariant forall k :: 0 <= k < i ==>
          && graph[k] == Scanner.Entry(dependencies[order[k]].name, ChildNames(dependencies[order[k]], dependencies))
          && shrinkwrap[k] == Scanner.Entry(dependencies[order[k]].name, dependencies[order[k]].version)
      {
        var n := dependencies[order[i]];
        var names: seq<string> := [];
        for j := 0 to |n.dependencies|
          invariant |names| == j
          invariant forall l :: 0 <= l < j ==> n.dependencies[l] in dependencies && names[l] == dependencies[n.dependencies[l]].name
        {
          var p := n.dependencies[j];
          if p !in dependencies {
            return Err(TypeError);
          }
          names := names + [dependencies[p].name];
        }
        assert names == ChildNames(n, dependencies);
        graph := graph + [Scanner.Entry(n.name, names)];
        shrinkwrap := shrinkwrap + [Scanner.Entry(n.name, n.version)];
      }
      assert graph == GraphOf(dependencies, order);
      assert shrinkwrap == ShrinkwrapOf(dependencies, order);
      return Ok(Scanner.Readable(graph, shrinkwrap));
    }

    /**
     * `copyModules(out)`: clears `out`, then copies each module's directory to
     * `out/name/version` in key order; the first copy that fails ends the run
     * and is reported.
     */
    method CopyModules(fs: FileSystem, out: string) returns (failed: Option<string>)
      requires Valid()
      modifies fs
      ensures var c := CopyEach(RemoveTree(old(fs.files), out), NodesOf(dependencies, order), out);
        fs.files == c.files && failed == c.failed
    {
      fs.RemoveDirectory(out);
      var nodes := NodesOf(dependencies, order);
      for i := 0 to |nodes|
        invariant CopyEach(fs.files, nodes[i..], out) == CopyEach(RemoveTree(old(fs.files), out), nodes, out)
      {
        assert nodes[i..][0] == nodes[i] && nodes[i..][1..] == nodes[i + 1..];
        var ok := fs.Copy(nodes[i].path, Target(out, nodes[i]));
        if !ok {
          return Some(nodes[i].path);
        }
      }
      return None;
    }
  }

  lemma AddKeepsValid(m: map<string, Shorthand>, order: seq<string>, d: Shorthand)
    requires ValidTable(m, order)
    ensures ValidTable(m[d.name := d], if d.name in m then order else order + [d.name])
  {
    var o := if d.name in m then order else order + [d.name];
    forall i, j | 0 <= i < j < |o| ensures o[i] != o[j] {
      if j == |order| {
        assert o[i] == order[i];
      }
    }
    if d.name !in m {
      assert forall i :: 0 <= i < |order| ==> order[i] != d.name;
    }
  }

  /**
   * In a valid table a pointer resolves only to the node of that very name, so
   * a successful projection lists each node's pointers unchanged as its children.
   */
  lemma ReadableChildrenArePointers(m: map<string, Shorthand>, order: seq<string>)
    requires ValidTable(m, order) && ReadableOf(m, order).Ok?
    ensures |ReadableOf(m, order).value.graph| == |ReadableOf(m, order).value.shrinkwrap| == |m|
    ensures forall i :: 0 <= i < |order| ==>
      && ReadableOf(m, order).value.graph[i] == Scanner.Entry(order[i], m[order[i]].dependencies)
      && ReadableOf(m, order).value.shrinkwrap[i] == Scanner.Entry(order[i], m[order[i]].version)
  {
    forall i | 0 <= i < |order| ensures ChildNames(m[order[i]], m) == m[order[i]].dependencies {
      var n := m[order[i]];
      assert forall j :: 0 <= j < |n.dependencies| ==> ChildNames(n, m)[j] == n.dependencies[j];
    }
  }

  /** The projection succeeds exactly when every pointer of every node is a key. */
  lemma ReadableOk(m: map<string, Shorthand>, order: seq<string>)
    requires ValidTable(m, order)
    ensures ReadableOf(m, order).Ok? <==> forall k, j :: k in m && 0 <= j < |m[k].dependencies| ==> m[k].dependencies[j] in m
  {
    if forall i :: 0 <= i < |order| ==> PointersFound(m[order[i]], m) {
      OrderCovers(m, order);
      forall k, j | k in m && 0 <= j < |m[k].dependencies| ensures m[k].dependencies[j] in m {
        var i :| 0 <= i < |order| && order[i] == k;
        assert PointersFound(m[order[i]], m);
      }
    }
  }

  /**
   * When no name holds an `@`, a node carrying a pointer made by
   * `generateDependencyPointer` makes the projection raise the `TypeError`:
   * the pointer holds an `@`, so it is no key.
   */
  lemma GeneratedPointerFails(m: map<string, Shorthand>, order: seq<string>, k: string, j: nat, name: string, version: string)
    requires ValidTable(m, order)
    requires forall key :: key in m ==> '@' !in key
    requires k in m && j < |m[k].dependencies| && m[k].dependencies[j] == GenerateDependencyPointer(name, version)
    ensures ReadableOf(m, order) == Err(TypeError)
  {
    var p := GenerateDependencyPointer(name, version);
    assert p[|name|] == '@';
    assert p !in m;
    ReadableOk(m, order);
  }

  /** A key of a well-formed table holds the node of that name and is listed in the key order. */
  lemma FoundIsListed(m: map<string, Shorthand>, order: seq<string>, name: string)
    ensures ValidTable(m, order) && name in m ==> name in order && m[name].name == name
  {
    if ValidTable(m, order) && name in m {
      OrderCovers(m, order);
    }
  }

  /** Every key appears in the insertion order. */
  lemma OrderCovers(m: map<string, Shorthand>, order: seq<string>)
    requires ValidTable(m, order)
    ensures forall k :: k in m ==> exists i :: 0 <= i < |order| && order[i] == k
  {
    var listed := set k | k in order;
    Scanner.DistinctCard(order);
    assert listed <= m.Keys;
    assert |m.Keys - listed| == 0 by {
      assert m.Keys == listed + (m.Keys - listed);
    }
    forall k | k in m ensures exists i :: 0 <= i < |order| && order[i] == k {
      assert k in listed;
    }
  }

  /** `Object.values(table)`: the nodes in key insertion order. */
  function NodesOf(m: map<string, Shorthand>, order: seq<string>): (r: seq<Shorthand>)
    requires forall i :: 0 <= i < |order| ==> order[i] in m
    ensures |r| == |order| && forall i :: 0 <= i < |order| ==> r[i] == m[order[i]]
  {
    seq(|order|, i requires 0 <= i < |order| => m[order[i]])
  }

  /** `path.join(out, name, version)`. */
  function Target(out: string, n: Shorthand): string {
    Paths.Join(Paths.Join(out, n.name), n.version)
  }

  /** The tree after copying the nodes in turn, and the source path of the first copy that failed. */
  datatype CopyOutcome = CopyOutcome(files: map<string, FileData>, failed: Option<string>)

  function CopyEach(files: map<string, FileData>, nodes: seq<Shorthand>, out: string): (c: CopyOutcome)
    ensures c.failed.None? ==> files.Keys <= c.files.Keys
    decreases |nodes|
  {
    if nodes == [] then CopyOutcome(files, None)
    else if !Exists(files, nodes[0].path) then CopyOutcome(files, Some(nodes[0].path))
    else CopyEach(CopyTree(files, nodes[0].path, Target(out, nodes[0])), nodes[1..], out)
  }

  // ---------------------------------------------------------------------
  // What `copyModules` leaves in the tree.

  /** Each module lands below `out`, and no module directory overlaps `out`. */
  predicate CopySetting(nodes: seq<Shorthand>, out: string) {
    forall i :: 0 <= i < |nodes| ==>
      Under(Target(out, nodes[i]), out) && !Under(nodes[i].path, out) && !Under(out, nodes[i].path)
  }

  /** `q` is where a file of some module directory is copied to. */
  ghost predicate CopiedFrom(q: string, files: map<string, FileData>, nodes: seq<Shorthand>, out: string) {
    exists i, p :: 0 <= i < |nodes| && p in files && Under(p, nodes[i].path) && q == Rebase(p, nodes[i].path, Target(out, nodes[i]))
  }

  /** Two trees agree on every path outside `out`. */
  ghost predicate SameOutside(a: map<string, FileData>, b: map<string, FileData>, out: string) {
    forall q :: !Under(q, out) ==> (q in a <==> q in b) && (q in a ==> a[q] == b[q])
  }

  lemma UnderTrans(q: string, a: string, b: string)
    requires Under(q, a) && Under(a, b)
    ensures Under(q, b)
  {
    if q != a && a != b {
      assert q[..|a|][..|b|] == q[..|b|];
      assert q[|b|] == q[..|a|][|b|];
    }
  }

  /** A copy to a target below `out` changes nothing outside `out`. */
  lemma CopyKeepsOutside(files: map<string, FileData>, src: string, dst: string, out: string)
    requires Under(dst, out)
    ensures SameOutside(files, CopyTree(files, src, dst), out)
  {
    var r := CopyTree(files, src, dst);
    forall q | !Under(q, out) ensures (q in files <==> q in r) && (q in files ==> files[q] == r[q]) {
      if Under(q, dst) {
        UnderTrans(q, dst, out);
      }
    }
  }

  /** Whether something exists in a directory apart from `out` is the same in trees that agree outside `out`. */
  lemma ExistsOutside(a: map<string, FileData>, b: map<string, FileData>, x: string, out: string)
    requires SameOutside(a, b, out) && !Under(x, out) && !Under(out, x)
    ensures Exists(a, x) <==> Exists(b, x)
  {
    forall q | Under(q, x) ensures !Under(q, out) {
      if Under(q, out) {
        UnderBoth(q, x, out);
      }
    }
  }

  /** The copies change nothing outside `out`. */
  lemma {:induction false} CopyEachOutside(files: map<string, FileData>, nodes: seq<Shorthand>, out: string)
    requires CopySetting(nodes, out)
    ensures SameOutside(files, CopyEach(files, nodes, out).files, out)
    decreases |nodes|
  {
    if nodes != [] && Exists(files, nodes[0].path) {
      var next := CopyStep(files, nodes, out);
      CopyEachOutside(next, nodes[1..], out);
    }
  }

  /** The copies all succeed exactly when every module directory exists. */
  lemma {:induction false} CopyEachOk(files: map<string, FileData>, nodes: seq<Shorthand>, out: string)
    requires CopySetting(nodes, out)
    ensures CopyEach(files, nodes, out).failed.None? <==> forall i :: 0 <= i < |nodes| ==> Exists(files, nodes[i].path)
    decreases |nodes|
  {
    if nodes != [] && Exists(files, nodes[0].path) {
      var next := CopyStep(files, nodes, out);
      CopyEachOk(next, nodes[1..], out);
      ExistsTail(files, next, nodes, out);
      assert (forall i :: 0 <= i < |nodes| ==> Exists(files, nodes[i].path))
        <==> (forall i :: 1 <= i < |nodes| ==> Exists(files, nodes[i].path));
    }
  }

  /** A failed run reports the first module, in key order, whose directory is missing. */
  lemma {:induction false} CopyEachFirstMissing(files: map<string, FileData>, nodes: seq<Shorthand>, out: string) returns (i: nat)
    requires CopySetting(nodes, out) && CopyEach(files, nodes, out).failed.Some?
    ensures i < |nodes| && CopyEach(files, nodes, out).failed.value == nodes[i].path
    ensures !Exists(files, nodes[i].path) && forall j :: 0 <= j < i ==> Exists(files, nodes[j].path)
    decreases |nodes|
  {
    if Exists(files, nodes[0].path) {
      var next := CopyStep(files, nodes, out);
      var k := CopyEachFirstMissing(next, nodes[1..], out);
      i := k + 1;
      ExistsShift(files, next, nodes, out, k);
    } else {
      i := 0;
    }
  }

  /** A copy only adds files, so what existed before still exists. */
  lemma CopyKeepsExisting(files: map<string, FileData>, src: string, dst: string, p: string)
    requires Exists(files, p)
    ensures Exists(CopyTree(files, src, dst), p)
  {
    var q :| q in files && Under(q, p);
    assert q in CopyTree(files, src, dst);
  }

  /** The first copy of a run in any setting: the run goes on from the tree after it. */
  lemma FirstCopy(files: map<string, FileData>, nodes: seq<Shorthand>, out: string) returns (next: map<string, FileData>)
    requires nodes != [] && Exists(files, nodes[0].path)
    ensures next == CopyTree(files, nodes[0].path, Target(out, nodes[0]))
    ensures CopyEach(files, nodes, out) == CopyEach(next, nodes[1..], out)
  {
    next := CopyTree(files, nodes[0].path, Target(out, nodes[0]));
  }

  /** In any setting, the copies all succeed when every module directory exists. */
  lemma {:induction false} CopyEachAllExist(files: map<string, FileData>, nodes: seq<Shorthand>, out: string)
    requires forall i :: 0 <= i < |nodes| ==> Exists(files, nodes[i].path)
    ensures CopyEach(files, nodes, out).failed.None?
    decreases |nodes|
  {
    if nodes != [] {
      var next := FirstCopy(files, nodes, out);
      forall i | 0 <= i < |nodes[1..]| ensures Exists(next, nodes[1..][i].path) {
        assert nodes[1..][i] == nodes[i + 1];
        CopyKeepsExisting(files, nodes[0].path, Target(out, nodes[0]), nodes[i + 1].path);
      }
      CopyEachAllExist(next, nodes[1..], out);
    }
  }

  /** In any setting, the path a failed run reports was missing before the run. */
  lemma {:induction false} CopyEachReportsMissing(files: map<string, FileData>, nodes: seq<Shorthand>, out: string, p: string)
    requires CopyEach(files, nodes, out).failed == Some(p)
    ensures !Exists(files, p)
    decreases |nodes|
  {
    if Exists(files, nodes[0].path) {
      var next := FirstCopy(files, nodes, out);
      CopyEachReportsMissing(next, nodes[1..], out, p);
      if Exists(files, p) {
        CopyKeepsExisting(files, nodes[0].path, Target(out, nodes[0]), p);
      }
    }
  }

  /** In any setting, the path a failed run reports is the directory of one of the modules. */
  lemma {:induction false} CopyEachReportsModule(files: map<string, FileData>, nodes: seq<Shorthand>, out: string, p: string)
    requires CopyEach(files, nodes, out).failed == Some(p)
    ensures exists i :: 0 <= i < |nodes| && nodes[i].path == p
    decreases |nodes|
  {
    if Exists(files, nodes[0].path) {
      var next := FirstCopy(files, nodes, out);
      CopyEachReportsModule(next, nodes[1..], out, p);
      var k :| 0 <= k < |nodes[1..]| && nodes[1..][k].path == p;
      assert nodes[k + 1].path == p;
    }
  }

  /**
   * The first copy of a run: the tree after it, which agrees with the one before
   * outside `out`, from which the rest of the run goes on in the same setting.
   */
  lemma CopyStep(files: map<string, FileData>, nodes: seq<Shorthand>, out: string) returns (next: map<string, FileData>)
    requires CopySetting(nodes, out) && nodes != [] && Exists(files, nodes[0].path)
    ensures next == CopyTree(files, nodes[0].path, Target(out, nodes[0]))
    ensures CopyEach(files, nodes, out) == CopyEach(next, nodes[1..], out)
    ensures SameOutside(files, next, out) && CopySetting(nodes[1..], out)
  {
    next := CopyTree(files, nodes[0].path, Target(out, nodes[0]));
    CopyKeepsOutside(files, nodes[0].path, Target(out, nodes[0]), out);
    forall i | 0 <= i < |nodes[1..]| ensures nodes[1..][i] == nodes[i + 1] {
    }
  }

  /** The first `k` later module directories exist, and the next does not, in both trees alike. */
  lemma ExistsShift(files: map<string, FileData>, next: map<string, FileData>, nodes: seq<Shorthand>, out: string, k: nat)
    requires CopySetting(nodes, out) && SameOutside(files, next, out) && k + 1 < |nodes|
    requires Exists(files, nodes[0].path) && !Exists(next, nodes[1..][k].path)
    requires forall j :: 0 <= j < k ==> Exists(next, nodes[1..][j].path)
    ensures !Exists(files, nodes[k + 1].path) && forall j :: 0 <= j < k + 1 ==> Exists(files, nodes[j].path)
  {
    assert nodes[1..][k] == nodes[k + 1];
    ExistsOutside(files, next, nodes[k + 1].path, out);
    forall j | 0 < j < k + 1 ensures Exists(files, nodes[j].path) {
      assert nodes[1..][j - 1] == nodes[j];
      ExistsOutside(files, next, nodes[j].path, out);
    }
  }

  /** Trees that agree outside `out` agree on which of the later module directories exist. */
  lemma ExistsTail(files: map<string, FileData>, next: map<string, FileData>, nodes: seq<Shorthand>, out: string)
    requires nodes != [] && CopySetting(nodes, out) && SameOutside(files, next, out)
    ensures forall i :: 0 <= i < |nodes| - 1 ==> (Exists(next, nodes[1..][i].path) <==> Exists(files, nodes[i + 1].path))
    ensures (forall i :: 0 <= i < |nodes| - 1 ==> Exists(next, nodes[1..][i].path))
      <==> (forall i :: 1 <= i < |nodes| ==> Exists(files, nodes[i].path))
  {
    forall i | 0 <= i < |nodes| - 1 ensures Exists(next, nodes[1..][i].path) <==> Exists(files, nodes[i + 1].path) {
      assert nodes[1..][i] == nodes[i + 1];
      ExistsOutside(files, next, nodes[i + 1].path, out);
    }
    if forall i :: 0 <= i < |nodes| - 1 ==> Exists(next, nodes[1..][i].path) {
      forall i | 1 <= i < |nodes| ensures Exists(files, nodes[i].path) {
        assert Exists(next, nodes[1..][i - 1].path);
      }
    }
  }

  /** After the copies succeed, every file of every module directory has a copy below that module's target. */
  lemma {:induction false} CopyEachCopies(files: map<string, FileData>, nodes: seq<Shorthand>, out: string, i: nat, p: string)
    requires i < |nodes| && p in files && Under(p, nodes[i].path)
    requires CopyEach(files, nodes, out).failed.None?
    ensures Rebase(p, nodes[i].path, Target(out, nodes[i])) in CopyEach(files, nodes, out).files
    decreases |nodes|
  {
    var next := CopyTree(files, nodes[0].path, Target(out, nodes[0]));
    assert CopyEach(files, nodes, out) == CopyEach(next, nodes[1..], out);
    if i == 0 {
      assert Rebase(p, nodes[0].path, Target(out, nodes[0])) in next;
    } else {
      assert nodes[i] == nodes[1..][i - 1];
      CopyEachCopies(next, nodes[1..], out, i - 1, p);
    }
  }

  /** Whatever lies below `out` after the copies was there before or is the copy of a file of some module directory. */
  lemma {:induction false} CopyEachOnly(files: map<string, FileData>, nodes: seq<Shorthand>, out: string)
    requires CopySetting(nodes, out)
    ensures var c := CopyEach(files, nodes, out);
      forall q :: q in c.files && Under(q, out) ==> q in files || CopiedFrom(q, files, nodes, out)
    decreases |nodes|
  {
    if nodes != [] && Exists(files, nodes[0].path) {
      var next := CopyStep(files, nodes, out);
      CopyEachOnly(next, nodes[1..], out);
      var c := CopyEach(next, nodes[1..], out);
      forall q | q in c.files && Under(q, out) ensures q in files || CopiedFrom(q, files, nodes, out) {
        if q in next {
          FirstCopied(files, nodes, out, q);
        } else {
          LaterCopied(files, next, nodes, out, q);
        }
      }
    }
  }

  /** A path the first copy adds is copied from the first module. */
  lemma FirstCopied(files: map<string, FileData>, nodes: seq<Shorthand>, out: string, q: string)
    requires nodes != [] && q in CopyTree(files, nodes[0].path, Target(out, nodes[0]))
    ensures q in files || CopiedFrom(q, files, nodes, out)
  {
    if q !in files {
      assert q in Copies(files, nodes[0].path, Target(out, nodes[0]));
    }
  }

  /** A copy from a later module reads a file that was already there before the first copy. */
  lemma LaterCopied(files: map<string, FileData>, next: map<string, FileData>, nodes: seq<Shorthand>, out: string, q: string)
    requires nodes != [] && CopySetting(nodes, out) && SameOutside(files, next, out)
    requires CopiedFrom(q, next, nodes[1..], out)
    ensures CopiedFrom(q, files, nodes, out)
  {
    var rest := nodes[1..];
    var i, p :| 0 <= i < |rest| && p in next && Under(p, rest[i].path) && q == Rebase(p, rest[i].path, Target(out, rest[i]));
    assert rest[i] == nodes[i + 1];
    if Under(p, out) {
      UnderBoth(p, rest[i].path, out);
    }
    assert p in files;
  }

  /**
   * `copyModules` in a setting where each target lies below `out` and no module
   * directory overlaps `out`: every path outside `out` is as before; below
   * `out` there are only copies of module files; and when no copy fails,
   * every file of every module has its copy.
   */
  lemma CopyModulesSpec(m: map<string, Shorthand>, order: seq<string>, files: map<string, FileData>, out: string)
    requires ValidTable(m, order) && CopySetting(NodesOf(m, order), out)
    ensures var nodes := NodesOf(m, order);
      var c := CopyEach(RemoveTree(files, out), nodes, out);
      && SameOutside(files, c.files, out)
      && (forall q :: q in c.files && Under(q, out) ==> CopiedFrom(q, files, nodes, out))
      && (c.failed.None? ==> forall i, p :: 0 <= i < |nodes| && p in files && Under(p, nodes[i].path) ==>
            Rebase(p, nodes[i].path, Target(out, nodes[i])) in c.files)
  {
    var nodes := NodesOf(m, order);
    var start := RemoveTree(files, out);
    var c := CopyEach(start, nodes, out);
    CopyEachOutside(start, nodes, out);
    CopyEachOnly(start, nodes, out);
    if c.failed.None? {
      forall i, p | 0 <= i < |nodes| && p in files && Under(p, nodes[i].path)
        ensures Rebase(p, nodes[i].path, Target(out, nodes[i])) in c.files
      {
        if Under(p, out) {
          UnderBoth(p, nodes[i].path, out);
        }
        CopyEachCopies(start, nodes, out, i, p);
      }
    }
    forall i, p | 0 <= i < |nodes| && p in files && Under(p, nodes[i].path) ensures p in start {
      if Under(p, out) {
        UnderBoth(p, nodes[i].path, out);
      }
    }
  }
}
