/**
 * The dependency graph of the compiled scanner: shorthands built from release
 * manifests, a table keyed by lower-cased name, reference counters, the sorted
 * and checked readable projection, and the pre-order traversal whose yielded
 * nodes the consumer inserts before the traversal resumes.
 */
module Scanner {
  import opened Wrappers
  import opened Strings
  import opened Sorting
  import Paths

  /** The fields of a release manifest (`.bower.json`) the scanner reads; `dependencies` in key order. */
  datatype Manifest = Manifest(name: string, release: string, dependencies: seq<(string, string)>)

  /** A graph node; `version` is the manifest's `_release`. */
  datatype Shorthand = Shorthand(name: string, path: string, version: string, dependencies: seq<string>, references: nat)

  /** The `name@spec` pointers of a manifest's declared dependencies, in key order. */
  function Pointers(deps: seq<(string, string)>): (r: seq<string>)
    ensures |r| == |deps|
    ensures forall i :: 0 <= i < |deps| ==> r[i] == deps[i].0 + "@" + deps[i].1
  {
    if deps == [] then [] else [deps[0].0 + "@" + deps[0].1] + Pointers(deps[1..])
  }

  /** `new DependencyShorthand(moduleJson, modulePath)`. */
  function NewShorthand(m: Manifest, modulePath: string): (s: Shorthand)
    ensures s.name == m.name && s.path == modulePath && s.version == m.release && s.references == 0
    ensures s.dependencies == Pointers(m.dependencies)
    ensures |s.dependencies| == |m.dependencies|
    ensures m.dependencies == [] ==> s.dependencies == []
  {
    Shorthand(m.name, modulePath, m.release, Pointers(m.dependencies), 0)
  }

  /** `pointer.split("@")[0]`. */
  function PointerName(p: string): string {
    Split(p, '@')[0]
  }

  /** `pointer.split("@")[1]`, printed as `undefined` when there is no `@`. */
  function PointerVersion(p: string): string {
    var parts := Split(p, '@');
    if |parts| > 1 then parts[1] else "undefined"
  }

  /** The pointer as the projection rebuilds it from its first two `@` pieces. */
  function Rebuilt(p: string): string {
    PointerName(p) + "@" + PointerVersion(p)
  }

  /** Splitting a pointer recovers its name and specifier when neither holds an `@`. */
  lemma PointerRoundTrip(name: string, spec: string)
    requires '@' !in name && '@' !in spec
    ensures PointerName(name + "@" + spec) == name
    ensures PointerVersion(name + "@" + spec) == spec
    ensures Rebuilt(name + "@" + spec) == name + "@" + spec
  {
    SplitAppend(name, '@', spec);
    SplitNoSeparator(name, '@');
    SplitNoSeparator(spec, '@');
    assert name + ['@'] + spec == name + "@" + spec;
  }

  function NodeKey(n: Shorthand): string {
    Lower(n.name)
  }

  /** Each pointer as the projection rebuilds it. */
  function RebuiltAll(ps: seq<string>): seq<string> {
    if ps == [] then [] else RebuiltAll(ps[..|ps| - 1]) + [Rebuilt(ps[|ps| - 1])]
  }

  lemma {:induction false} RebuiltAllSpec(ps: seq<string>)
    ensures |RebuiltAll(ps)| == |ps|
    ensures forall i :: 0 <= i < |ps| ==> RebuiltAll(ps)[i] == Rebuilt(ps[i])
  {
    if ps != [] {
      var init := ps[..|ps| - 1];
      RebuiltAllSpec(init);
      assert forall i :: 0 <= i < |init| ==> init[i] == ps[i];
    }
  }

  /** The children of a node in the projection: rebuilt pointers, sorted case-insensitively. */
  function ChildList(n: Shorthand): seq<string> {
    SortBy(RebuiltAll(n.dependencies), Lower)
  }

  /** The projected children are the node's rebuilt pointers, in case-insensitive order. */
  lemma ChildListSpec(n: Shorthand)
    ensures multiset(ChildList(n)) == multiset(RebuiltAll(n.dependencies))
    ensures SortedBy(ChildList(n), Lower)
  {
  }

  function MissingMessage(child: string, parent: string): string {
    "Missing dependency with the name " + child + " for " + parent
  }

  /** One name-to-value entry of a JavaScript object whose keys are kept in insertion order. */
  datatype Entry<V> = Entry(key: string, value: V)

  datatype Readable = Readable(graph: seq<Entry<seq<string>>>, shrinkwrap: seq<Entry<string>>)

  /** A table whose key order is its insertion order, with keys the lower-cased names of their nodes. */
  ghost predicate ValidTable(m: map<string, Shorthand>, order: seq<string>) {
    && |order| == |m|
    && (forall i :: 0 <= i < |order| ==> order[i] in m)
    && (forall i, j :: 0 <= i < j < |order| ==> order[i] != order[j])
    && (forall k :: k in m ==> Lower(m[k].name) == k)
  }

  /** `Object.values(table)`: the nodes in key insertion order. */
  function NodesOf(m: map<string, Shorthand>, order: seq<string>): (r: seq<Shorthand>)
    requires forall i :: 0 <= i < |order| ==> order[i] in m
    ensures |r| == |order|
    ensures forall i :: 0 <= i < |order| ==> r[i] == m[order[i]]
  {
    seq(|order|, i requires 0 <= i < |order| => m[order[i]])
  }

  /** A child pointer resolves when its lower-cased name is a key. */
  predicate Resolves(p: string, m: map<string, Shorthand>) {
    Lower(PointerName(p)) in m
  }

  predicate NodeResolved(n: Shorthand, m: map<string, Shorthand>) {
    forall i :: 0 <= i < |n.dependencies| ==> Resolves(n.dependencies[i], m)
  }

  predicate AllResolved(m: map<string, Shorthand>) {
    forall k :: k in m ==> NodeResolved(m[k], m)
  }

  class DependencyGraph {
    var dependencies: map<string, Shorthand>
    /** The order in which keys were first inserted, which the JavaScript object keeps. */
    var order: seq<string>

    ghost predicate Valid()
      reads this
    {
      ValidTable(dependencies, order)
    }

    constructor ()
      ensures Valid() && dependencies == map[] && order == []
    {
      dependencies := map[];
      order := [];
    }

    /** `addDependency`: stores under the lower-cased name, overwriting an earlier node there. */
    method AddDependency(d: Shorthand)
      requires Valid()
      modifies this
      ensures Valid()
      ensures dependencies == old(dependencies)[Lower(d.name) := d]
      ensures order == if Lower(d.name) in old(dependencies) then old(order) else old(order) + [Lower(d.name)]
    {
      var key := Lower(d.name);
      AddKeepsValid(dependencies, order, d);
      if key !in dependencies {
        order := order + [key];
      }
      dependencies := dependencies[key := d];
    }

    /**
     * `hasDependency`: a raw-key lookup; the argument is not lower-cased, so
     * in a well-formed table only a lower-case name listed in the key order
     * is found.
     */
    predicate HasDependency(name: string)
      reads this
      ensures HasDependency(name) && ValidTable(dependencies, order) ==> IsLower(name) && name in order
    {
      FoundIsListed(dependencies, order, name);
      name in dependencies
    }

    /** `markReference`: bumps the counter of the node stored under the raw key `name`; fails when there is none. */
    method MarkReference(name: string) returns (ok: bool)
      requires Valid()
      modifies this
      ensures ok == (name in old(dependencies))
      ensures dependencies == if ok then old(dependencies)[name := Bumped(old(dependencies)[name])] else old(dependencies)
      ensures order == old(order) && dependencies.Keys == old(dependencies).Keys
      ensures Valid()
    {
      ok := name in dependencies;
      if ok {
        BumpKeepsValid(dependencies, order, name);
        dependencies := dependencies[name := Bumped(dependencies[name])];
      }
    }

    /** The `map` over one node's pointers, which stops at the first pointer whose name is not a key. */
    method Children(n: Shorthand) returns (r: Result<seq<string>, string>)
      ensures r == ChildrenOf(n, dependencies)
    {
      for c := 0 to |n.dependencies|
        invariant FirstMissing(n.dependencies, dependencies) == FirstMissing(n.dependencies[c..], dependencies)
      {
        assert n.dependencies[c..][1..] == n.dependencies[c + 1..];
        var childName := PointerName(n.dependencies[c]);
        if Lower(childName) !in dependencies {
          return Err(MissingMessage(childName, n.name));
        }
      }
      r := Ok(ChildList(n));
    }

    /**
     * `toReadable`: visits the nodes sorted case-insensitively by name; each
     * node contributes its children and its shrinkwrap version.
     */
    method ToReadable() returns (r: Result<Readable, string>)
      requires Valid()
      ensures r == ReadableOf(dependencies, order)
    {
      r := Project(SortBy(NodesOf(dependencies, order), NodeKey));
    }

    /** The `forEach` over the sorted nodes. */
    method Project(nodes: seq<Shorthand>) returns (r: Result<Readable, string>)
      ensures r == ProjectOf(nodes, dependencies)
    {
      var graph: seq<Entry<seq<string>>> := [];
      var shrinkwrap: seq<Entry<string>> := [];
      for i := 0 to |nodes|
        invariant ProjectOf(nodes[..i], dependencies) == Ok(Readable(graph, shrinkwrap))
      {
        assert nodes[..i + 1][..i] == nodes[..i];
        var n := nodes[i];
        var children := Children(n);
        if children.Err? {
          ProjectOfAborts(nodes, dependencies, i + 1);
          return Err(children.error);
        }
        graph := graph + [Entry(n.name, children.value)];
        shrinkwrap := shrinkwrap + [Entry(n.name, n.version)];
      }
      assert nodes[..|nodes|] == nodes;
      return Ok(Readable(graph, shrinkwrap));
    }
  }

  /** The name of the first pointer, in order, that does not resolve. */
  function FirstMissing(ps: seq<string>, m: map<string, Shorthand>): Option<string> {
    if ps == [] then None
    else if !Resolves(ps[0], m) then Some(PointerName(ps[0]))
    else FirstMissing(ps[1..], m)
  }

  /** `FirstMissing` finds nothing exactly when every pointer resolves, and otherwise names the earliest one that does not. */
  lemma {:induction false} FirstMissingSpec(ps: seq<string>, m: map<string, Shorthand>)
    ensures FirstMissing(ps, m).None? <==> forall i :: 0 <= i < |ps| ==> Resolves(ps[i], m)
    ensures FirstMissing(ps, m).Some? ==> exists i :: (0 <= i < |ps| && !Resolves(ps[i], m)
      && FirstMissing(ps, m).value == PointerName(ps[i])
      && forall j :: 0 <= j < i ==> Resolves(ps[j], m))
  {
    if ps != [] && Resolves(ps[0], m) {
      FirstMissingSpec(ps[1..], m);
      assert forall i :: 0 < i < |ps| ==> ps[1..][i - 1] == ps[i];
      if FirstMissing(ps, m).Some? {
        var i :| 0 <= i < |ps[1..]| && !Resolves(ps[1..][i], m)
          && FirstMissing(ps, m).value == PointerName(ps[1..][i])
          && forall j :: 0 <= j < i ==> Resolves(ps[1..][j], m);
        assert forall j :: 0 <= j < i + 1 ==> Resolves(ps[j], m) by {
          forall j | 0 < j < i + 1 ensures Resolves(ps[j], m) {
            assert ps[j] == ps[1..][j - 1];
          }
        }
      }
    }
  }

  /** One node's entry of the projection, or the message that aborts it. */
  function ChildrenOf(n: Shorthand, m: map<string, Shorthand>): Result<seq<string>, string> {
    match FirstMissing(n.dependencies, m)
    case None => Ok(ChildList(n))
    case Some(child) => Err(MissingMessage(child, n.name))
  }

  /** The projection of the nodes in their order: the first node with a missing child aborts it. */
  function ProjectOf(nodes: seq<Shorthand>, m: map<string, Shorthand>): Result<Readable, string> {
    if nodes == [] then Ok(Readable([], []))
    else
      var last := nodes[|nodes| - 1];
      match ProjectOf(nodes[..|nodes| - 1], m)
      case Err(e) => Err(e)
      case Ok(rd) =>
        match ChildrenOf(last, m)
        case Err(e) => Err(e)
        case Ok(children) => Ok(Readable(rd.graph + [Entry(last.name, children)], rd.shrinkwrap + [Entry(last.name, last.version)]))
  }

  /** `toReadable` on a table: its nodes sorted by lower-cased name, then projected. */
  function ReadableOf(m: map<string, Shorthand>, order: seq<string>): Result<Readable, string>
    requires forall i :: 0 <= i < |order| ==> order[i] in m
  {
    ProjectOf(SortBy(NodesOf(m, order), NodeKey), m)
  }

  /** The projection succeeds exactly when every node resolves. */
  lemma {:induction false} ProjectOfOk(nodes: seq<Shorthand>, m: map<string, Shorthand>)
    ensures ProjectOf(nodes, m).Ok? <==> forall j :: 0 <= j < |nodes| ==> NodeResolved(nodes[j], m)
  {
    if nodes != [] {
      var init := nodes[..|nodes| - 1];
      var last := nodes[|nodes| - 1];
      ProjectOfOk(init, m);
      ChildrenOfOk(last, m);
      assert ProjectOf(nodes, m).Ok? <==> ProjectOf(init, m).Ok? && ChildrenOf(last, m).Ok?;
      AllResolvedSplit(nodes, init, m);
    }
  }

  /** One node's entry is produced exactly when the node resolves. */
  lemma ChildrenOfOk(n: Shorthand, m: map<string, Shorthand>)
    ensures ChildrenOf(n, m).Ok? <==> NodeResolved(n, m)
  {
    FirstMissingSpec(n.dependencies, m);
  }

  /** Every node of a non-empty sequence resolves when all but the last do and the last does too. */
  lemma AllResolvedSplit(nodes: seq<Shorthand>, init: seq<Shorthand>, m: map<string, Shorthand>)
    requires nodes != [] && init == nodes[..|nodes| - 1]
    ensures (forall j :: 0 <= j < |nodes| ==> NodeResolved(nodes[j], m))
      <==> (forall j :: 0 <= j < |init| ==> NodeResolved(init[j], m)) && NodeResolved(nodes[|nodes| - 1], m)
  {
    assert forall j :: 0 <= j < |init| ==> init[j] == nodes[j];
  }

  /** A successful projection lists each node's children and version in node order. */
  lemma {:induction false} ProjectOfValue(nodes: seq<Shorthand>, m: map<string, Shorthand>)
    requires ProjectOf(nodes, m).Ok?
    ensures EntriesOf(ProjectOf(nodes, m).value, nodes)
  {
    if nodes != [] {
      var init := nodes[..|nodes| - 1];
      var last := nodes[|nodes| - 1];
      ProjectOfValue(init, m);
      assert ChildrenOf(last, m) == Ok(ChildList(last));
      var rd := ProjectOf(init, m).value;
      assert ProjectOf(nodes, m).value == Readable(rd.graph + [Entry(last.name, ChildList(last))], rd.shrinkwrap + [Entry(last.name, last.version)]);
      EntriesAppend(rd, nodes);
    }
  }

  /** The projection lists, at each position, that node's children and version. */
  ghost predicate EntriesOf(rd: Readable, nodes: seq<Shorthand>) {
    && |rd.graph| == |rd.shrinkwrap| == |nodes|
    && forall j :: 0 <= j < |nodes| ==>
      && rd.graph[j] == Entry(nodes[j].name, ChildList(nodes[j]))
      && rd.shrinkwrap[j] == Entry(nodes[j].name, nodes[j].version)
  }

  /** Appending the last node's entries to those of the others gives the entries of all. */
  lemma EntriesAppend(rd: Readable, nodes: seq<Shorthand>)
    requires nodes != [] && EntriesOf(rd, nodes[..|nodes| - 1])
    ensures var last := nodes[|nodes| - 1];
      EntriesOf(Readable(rd.graph + [Entry(last.name, ChildList(last))], rd.shrinkwrap + [Entry(last.name, last.version)]), nodes)
  {
    assert forall j :: 0 <= j < |nodes| - 1 ==> nodes[..|nodes| - 1][j] == nodes[j];
  }

  /** Once a prefix of the nodes fails, the whole projection fails with the same message. */
  lemma {:induction false} ProjectOfAborts(nodes: seq<Shorthand>, m: map<string, Shorthand>, i: nat)
    requires i <= |nodes| && ProjectOf(nodes[..i], m).Err?
    ensures ProjectOf(nodes, m) == ProjectOf(nodes[..i], m)
  {
    if i < |nodes| {
      var init := nodes[..|nodes| - 1];
      assert init[..i] == nodes[..i];
      ProjectOfAborts(init, m, i);
    } else {
      assert nodes[..i] == nodes;
    }
  }

  /** A failed projection carries the message for a pointer of some node that does not resolve. */
  lemma {:induction false} ProjectOfErr(nodes: seq<Shorthand>, m: map<string, Shorthand>)
    ensures ProjectOf(nodes, m).Err? ==> exists j, i :: (0 <= j < |nodes| && 0 <= i < |nodes[j].dependencies|
      && !Resolves(nodes[j].dependencies[i], m)
      && ProjectOf(nodes, m).error == MissingMessage(PointerName(nodes[j].dependencies[i]), nodes[j].name))
  {
    if nodes != [] {
      var init := nodes[..|nodes| - 1];
      var last := nodes[|nodes| - 1];
      ProjectOfErr(init, m);
      FirstMissingSpec(last.dependencies, m);
      if ProjectOf(init, m).Err? {
        var j, i :| 0 <= j < |init| && 0 <= i < |init[j].dependencies|
          && !Resolves(init[j].dependencies[i], m)
          && ProjectOf(init, m).error == MissingMessage(PointerName(init[j].dependencies[i]), init[j].name);
        assert init[j] == nodes[j];
      } else if ProjectOf(nodes, m).Err? {
        var i :| 0 <= i < |last.dependencies| && !Resolves(last.dependencies[i], m)
          && FirstMissing(last.dependencies, m).value == PointerName(last.dependencies[i])
          && forall j :: 0 <= j < i ==> Resolves(last.dependencies[j], m);
        assert nodes[|nodes| - 1] == last;
      }
    }
  }

  /**
   * The readable projection of a table succeeds exactly when every child
   * pointer of every node resolves; it then lists, in case-insensitive name
   * order, every node once with its sorted children and its version, and
   * otherwise reports a missing child of some node.
   */
  lemma ReadableSpec(m: map<string, Shorthand>, order: seq<string>)
    requires ValidTable(m, order)
    ensures ReadableOf(m, order).Ok? <==> AllResolved(m)
    ensures ReadableOf(m, order).Err? ==> exists k, i :: (k in m && 0 <= i < |m[k].dependencies|
      && !Resolves(m[k].dependencies[i], m)
      && ReadableOf(m, order).error == MissingMessage(PointerName(m[k].dependencies[i]), m[k].name))
    ensures ReadableOf(m, order).Ok? ==> var nodes := SortBy(NodesOf(m, order), NodeKey);
      && |ReadableOf(m, order).value.graph| == |ReadableOf(m, order).value.shrinkwrap| == |nodes| == |m|
      && forall i :: 0 <= i < |nodes| ==>
        && ReadableOf(m, order).value.graph[i] == Entry(nodes[i].name, ChildList(nodes[i]))
        && ReadableOf(m, order).value.shrinkwrap[i] == Entry(nodes[i].name, nodes[i].version)
  {
    var nodes := SortBy(NodesOf(m, order), NodeKey);
    ProjectOfOk(nodes, m);
    ProjectOfErr(nodes, m);
    if ProjectOf(nodes, m).Ok? {
      ProjectOfValue(nodes, m);
      assert EntriesOf(ProjectOf(nodes, m).value, nodes);
    }
    if AllResolved(m) {
      forall j | 0 <= j < |nodes| ensures NodeResolved(nodes[j], m) {
        assert nodes[j] in multiset(nodes);
        var k := InTable(m, order, nodes[j]);
      }
    } else if ReadableOf(m, order).Ok? {
      SortedCovers(m, order, nodes);
    } else {
      var j, i :| 0 <= j < |nodes| && 0 <= i < |nodes[j].dependencies|
        && !Resolves(nodes[j].dependencies[i], m)
        && ReadableOf(m, order).error == MissingMessage(PointerName(nodes[j].dependencies[i]), nodes[j].name);
      assert nodes[j] in multiset(nodes);
      var k := InTable(m, order, nodes[j]);
    }
  }

  /**
   * The projection of a table does not depend on the order its keys were
   * first inserted in: the case-insensitive sort leaves one arrangement.
   */
  lemma ReadableOrderFree(m: map<string, Shorthand>, o1: seq<string>, o2: seq<string>)
    requires ValidTable(m, o1) && ValidTable(m, o2)
    ensures ReadableOf(m, o1) == ReadableOf(m, o2)
  {
    SortedNodesAlike(m, o1, o2);
    SortedUnique(SortBy(NodesOf(m, o1), NodeKey), SortBy(NodesOf(m, o2), NodeKey), NodeKey);
  }

  /** The sorted nodes of two valid orders of one table are sorted permutations of each other with distinct keys. */
  lemma SortedNodesAlike(m: map<string, Shorthand>, o1: seq<string>, o2: seq<string>)
    requires ValidTable(m, o1) && ValidTable(m, o2)
    ensures SortedAlike(SortBy(NodesOf(m, o1), NodeKey), SortBy(NodesOf(m, o2), NodeKey), NodeKey)
  {
    var n1 := NodesOf(m, o1);
    SameNodes(m, o1, o2);
    NodesKeyed(m, o1);
    var s1 := SortBy(n1, NodeKey);
    assert multiset(s1) == multiset(n1);
  }

  /** Two valid orders of one table list the same nodes. */
  lemma SameNodes(m: map<string, Shorthand>, o1: seq<string>, o2: seq<string>)
    requires ValidTable(m, o1) && ValidTable(m, o2)
    ensures multiset(NodesOf(m, o1)) == multiset(NodesOf(m, o2))
  {
    NodesCounts(m, o1);
    NodesCounts(m, o2);
    forall x ensures multiset(NodesOf(m, o1))[x] == multiset(NodesOf(m, o2))[x] {
    }
  }

  /** Each node listed is the one under its own key, and is listed once. */
  lemma NodesKeyed(m: map<string, Shorthand>, order: seq<string>)
    requires ValidTable(m, order)
    ensures forall x :: x in multiset(NodesOf(m, order)) ==>
      NodeKey(x) in m && m[NodeKey(x)] == x && multiset(NodesOf(m, order))[x] <= 1
  {
    NodesCounts(m, order);
  }

  /** The table's values listed in a valid order: each node under its own key once, nothing else. */
  lemma NodesCounts(m: map<string, Shorthand>, order: seq<string>)
    requires ValidTable(m, order)
    ensures forall x :: multiset(NodesOf(m, order))[x] == if NodeKey(x) in m && m[NodeKey(x)] == x then 1 else 0
  {
    var nodes := NodesOf(m, order);
    OrderCovers(m, order);
    forall i, j | 0 <= i < j < |nodes| ensures nodes[i] != nodes[j] {
      assert NodeKey(nodes[i]) == order[i] && NodeKey(nodes[j]) == order[j];
    }
    DistinctCounts(nodes);
    forall x ensures x in nodes <==> NodeKey(x) in m && m[NodeKey(x)] == x {
      if x in nodes {
        var i :| 0 <= i < |nodes| && nodes[i] == x;
        assert NodeKey(x) == order[i];
      }
      if NodeKey(x) in m && m[NodeKey(x)] == x {
        var i :| 0 <= i < |order| && order[i] == NodeKey(x);
        assert nodes[i] == x;
      }
    }
  }

  lemma AddKeepsValid(m: map<string, Shorthand>, order: seq<string>, d: Shorthand)
    requires ValidTable(m, order)
    ensures ValidTable(m[Lower(d.name) := d], if Lower(d.name) in m then order else order + [Lower(d.name)])
  {
    var key := Lower(d.name);
    var o := if key in m then order else order + [key];
    forall i, j | 0 <= i < j < |o| ensures o[i] != o[j] {
      if j == |order| {
        assert o[i] == order[i];
      }
    }
  }

  /** When every sorted node resolves, every node of the table does. */
  lemma SortedCovers(m: map<string, Shorthand>, order: seq<string>, nodes: seq<Shorthand>)
    requires ValidTable(m, order)
    requires multiset(nodes) == multiset(NodesOf(m, order))
    requires forall j :: 0 <= j < |nodes| ==> NodeResolved(nodes[j], m)
    ensures AllResolved(m)
  {
    OrderCovers(m, order);
    forall k | k in m ensures NodeResolved(m[k], m) {
      var i :| 0 <= i < |order| && order[i] == k;
      assert NodesOf(m, order)[i] == m[k];
      assert m[k] in multiset(nodes);
    }
  }

  /** The node with one more reference counted. */
  function Bumped(n: Shorthand): (r: Shorthand)
    ensures r.references == n.references + 1 && r.(references := n.references) == n
  {
    n.(references := n.references + 1)
  }

  lemma BumpKeepsValid(m: map<string, Shorthand>, order: seq<string>, name: string)
    requires ValidTable(m, order) && name in m
    ensures ValidTable(m[name := Bumped(m[name])], order)
  {
  }

  /** A node of the table's values sits under some key. */
  lemma InTable(m: map<string, Shorthand>, order: seq<string>, n: Shorthand) returns (k: string)
    requires forall i :: 0 <= i < |order| ==> order[i] in m
    requires n in multiset(NodesOf(m, order))
    ensures k in m && m[k] == n
  {
    var nodes := NodesOf(m, order);
    assert n in nodes;
    var i :| 0 <= i < |nodes| && nodes[i] == n;
    k := order[i];
  }

  /** A key of a well-formed table is lower case and listed in the key order. */
  lemma FoundIsListed(m: map<string, Shorthand>, order: seq<string>, name: string)
    ensures ValidTable(m, order) && name in m ==> IsLower(name) && name in order
  {
    if ValidTable(m, order) && name in m {
      LowerIdempotent(m[name].name);
      OrderCovers(m, order);
    }
  }

  /** Every key appears in the insertion order. */
  lemma OrderCovers(m: map<string, Shorthand>, order: seq<string>)
    requires ValidTable(m, order)
    ensures forall k :: k in m ==> exists i :: 0 <= i < |order| && order[i] == k
  {
    var listed := set k | k in order;
    DistinctCard(order);
    assert listed <= m.Keys;
    assert m.Keys == listed + (m.Keys - listed);
    assert |m.Keys - listed| == 0;
    forall k | k in m ensures exists i :: 0 <= i < |order| && order[i] == k {
      assert k in listed;
    }
  }

  lemma {:induction false} DistinctCard(s: seq<string>)
    requires forall i, j :: 0 <= i < j < |s| ==> s[i] != s[j]
    ensures |set k | k in s| == |s|
  {
    if s != [] {
      var rest := s[1..];
      DistinctCard(rest);
      assert (set k | k in s) == {s[0]} + (set k | k in rest);
      assert s[0] !in rest;
    }
  }
}

/**
 * The traversal of installed components. The file system is a map from a
 * component's directory name to the release manifest found in it; reading a
 * directory that is not in the map fails.
 */
module Traversal {
  import opened Wrappers
  import opened Strings
  import opened Scanner
  import Paths

  datatype ScanError =
    | ManifestNotFound(modulePath: string)  // `readBowerModuleJsonSync` on a missing file
    | UnknownReference(moduleName: string)   // `markReference` on a name that is not a key

  /** Every directory name, and every dependency name a manifest declares. */
  ghost function Universe(store: map<string, Manifest>): set<string> {
    store.Keys + set d, i | d in store && 0 <= i < |store[d].dependencies| :: store[d].dependencies[i].0
  }

  /** The manifest in each directory names that directory, up to case. */
  ghost predicate NamesMatch(store: map<string, Manifest>) {
    forall d :: d in store ==> Lower(store[d].name) == d
  }

  /** No declared dependency name holds an `@`. */
  ghost predicate NoAtInNames(store: map<string, Manifest>) {
    forall d, i :: d in store && 0 <= i < |store[d].dependencies| ==> '@' !in store[d].dependencies[i].0
  }

  /** Every declared dependency is installed, and every manifest's name is its lower-case directory name. */
  ghost predicate WellInstalled(store: map<string, Manifest>) {
    && (forall d, i :: d in store && 0 <= i < |store[d].dependencies| ==> store[d].dependencies[i].0 in store)
    && (forall d :: d in store ==> store[d].name == d)
  }

  ghost function KeysOf(ys: seq<Shorthand>): set<string> {
    set y | y in ys :: NodeKey(y)
  }

  /** Each yielded node is the one stored under its key, up to its counter. */
  ghost predicate Recorded(ys: seq<Shorthand>, m: map<string, Shorthand>) {
    forall j :: 0 <= j < |ys| ==> NodeKey(ys[j]) in m && m[NodeKey(ys[j])].(references := 0) == ys[j]
  }

  /** No key is yielded twice. */
  ghost predicate DistinctKeys(ys: seq<Shorthand>) {
    forall a, b :: 0 <= a < b < |ys| ==> NodeKey(ys[a]) != NodeKey(ys[b])
  }

  /** Every node yielded after the first has a key outside `excluded`. */
  ghost predicate FreshTail(ys: seq<Shorthand>, excluded: set<string>) {
    forall j :: 1 <= j < |ys| ==> NodeKey(ys[j]) !in excluded
  }

  /** Every yielded node has a key outside `excluded`. */
  ghost predicate FreshKeys(ys: seq<Shorthand>, excluded: set<string>) {
    forall j :: 0 <= j < |ys| ==> NodeKey(ys[j]) !in excluded
  }

  /** Every node whose key is outside `excluded` resolves all its pointers. */
  ghost predicate ResolvedOutside(m: map<string, Shorthand>, excluded: set<string>) {
    forall k :: k in m && k !in excluded ==> NodeResolved(m[k], m)
  }

  /** Every declared dependency of `dir` was already a key of `m`. */
  ghost predicate AllPresent(store: map<string, Manifest>, dir: string, m: map<string, Shorthand>)
    requires dir in store
  {
    forall i :: 0 <= i < |store[dir].dependencies| ==> store[dir].dependencies[i].0 in m
  }

  /** The graph's state: its table and the insertion order of its keys. */
  datatype Table = Table(deps: map<string, Shorthand>, order: seq<string>)

  /** What a traversal step ends with: its yields or its error, and the graph's state at that point. */
  datatype Outcome = Outcome(result: Result<seq<Shorthand>, ScanError>, table: Table)

  /** The state after `addDependency(d)`. */
  function Added(t: Table, d: Shorthand): Table {
    var key := Lower(d.name);
    Table(t.deps[key := d], if key in t.deps then t.order else t.order + [key])
  }

  /**
   * `traverseModule` at `dir` with its consumer: a missing manifest fails;
   * otherwise the module's node is inserted where it is yielded and the
   * declared dependencies are visited in key order.
   */
  ghost function TraverseOf(store: map<string, Manifest>, modulePath: string, dir: string, t: Table): (o: Outcome)
    requires NamesMatch(store)
    ensures t.deps.Keys <= o.table.deps.Keys
    ensures dir !in store ==> o == Outcome(Err(ManifestNotFound(modulePath)), t)
    decreases |Universe(store) - (t.deps.Keys + {dir})|, 2
  {
    if dir !in store then Outcome(Err(ManifestNotFound(modulePath)), t)
    else
      var node := NewShorthand(store[dir], modulePath);
      assert Added(t, node).deps.Keys == t.deps.Keys + {dir} by {
        assert Lower(node.name) == dir;
      }
      VisitFrom(store, modulePath, dir, 0, [node], Added(t, node))
  }

  /** The visits of the declared dependencies of `dir` from the `i`-th on, after the nodes `ys` were yielded. */
  ghost function VisitFrom(store: map<string, Manifest>, modulePath: string, dir: string, i: nat, ys: seq<Shorthand>, t: Table): (o: Outcome)
    requires NamesMatch(store) && dir in store && i <= |store[dir].dependencies|
    ensures t.deps.Keys <= o.table.deps.Keys
    decreases |Universe(store) - t.deps.Keys|, 1, |store[dir].dependencies| - i
  {
    if i == |store[dir].dependencies| then Outcome(Ok(ys), t)
    else
      var dep := store[dir].dependencies[i].0;
      assert dep in Universe(store) by {
        assert dep == store[dir].dependencies[i].0;
      }
      var step := VisitOf(store, modulePath, dir, dep, t);
      match step.result
      case Err(_) => step
      case Ok(sub) =>
        MeasureKeeps(Universe(store), t.deps.Keys, step.table.deps.Keys);
        VisitFrom(store, modulePath, dir, i + 1, ys + sub, step.table)
  }

  /**
   * One declared dependency `dep` of the module in `dir`: a name that is not
   * a raw key is traversed at `join(modulePath, "..", dep)`; a name that is
   * one bumps the counter stored under the module's own raw name, and fails
   * when there is none.
   */
  ghost function VisitOf(store: map<string, Manifest>, modulePath: string, dir: string, dep: string, t: Table): (o: Outcome)
    requires NamesMatch(store) && dir in store && dep in Universe(store)
    ensures t.deps.Keys <= o.table.deps.Keys
    decreases |Universe(store) - t.deps.Keys|, 0
  {
    var name := store[dir].name;
    if dep !in t.deps then
      MeasureDrops(Universe(store), t.deps.Keys, dep);
      TraverseOf(store, Paths.Join(modulePath, "../" + dep), dep, t)
    else if name in t.deps then
      Outcome(Ok([]), Table(t.deps[name := Bumped(t.deps[name])], t.order))
    else
      Outcome(Err(UnknownReference(name)), t)
  }

  /** `traverseModule` together with its consumer, which inserts each yielded node before the traversal resumes. */
  method TraverseModule(store: map<string, Manifest>, modulePath: string, dir: string, g: DependencyGraph)
    returns (r: Result<seq<Shorthand>, ScanError>)
    requires g.Valid() && NamesMatch(store)
    modifies g
    ensures g.Valid()
    ensures Outcome(r, Table(g.dependencies, g.order)) == TraverseOf(store, modulePath, dir, Table(old(g.dependencies), old(g.order)))
    decreases |Universe(store) - (g.dependencies.Keys + {dir})|, 2
  {
    ghost var entry := Table(g.dependencies, g.order);
    TraverseValid(store, modulePath, dir, entry);
    if dir !in store {
      return Err(ManifestNotFound(modulePath));
    }
    var m := store[dir];
    var node := NewShorthand(m, modulePath);
    g.AddDependency(node);
    assert NodeKey(node) == dir;
    var yielded := [node];
    for i := 0 to |m.dependencies|
      invariant g.Valid()
      invariant entry.deps.Keys + {dir} <= g.dependencies.Keys
      invariant VisitFrom(store, modulePath, dir, i, yielded, Table(g.dependencies, g.order)) == TraverseOf(store, modulePath, dir, entry)
    {
      var dep := m.dependencies[i].0;
      assert dep in Universe(store) by {
        assert dep == store[dir].dependencies[i].0;
      }
      MeasureKeeps(Universe(store), entry.deps.Keys + {dir}, g.dependencies.Keys);
      var sub := VisitDependency(store, modulePath, dir, dep, g);
      if sub.Err? {
        return Err(sub.error);
      }
      yielded := yielded + sub.value;
    }
    return Ok(yielded);
  }

  /** One declared dependency of the module in `dir`, as `VisitOf` describes it. */
  method VisitDependency(store: map<string, Manifest>, modulePath: string, dir: string, dep: string, g: DependencyGraph)
    returns (r: Result<seq<Shorthand>, ScanError>)
    requires g.Valid() && NamesMatch(store)
    requires dir in store && dep in Universe(store)
    modifies g
    ensures g.Valid()
    ensures Outcome(r, Table(g.dependencies, g.order)) == VisitOf(store, modulePath, dir, dep, Table(old(g.dependencies), old(g.order)))
    decreases |Universe(store) - g.dependencies.Keys|, 0
  {
    var m := store[dir];
    if !g.HasDependency(dep) {
      MeasureDrops(Universe(store), g.dependencies.Keys, dep);
      r := TraverseModule(store, Paths.Join(modulePath, "../" + dep), dep, g);
    } else {
      var ok := g.MarkReference(m.name);
      if !ok {
        return Err(UnknownReference(m.name));
      }
      r := Ok([]);
    }
  }

  /**
   * `resolveModuleDependencies`: a new graph filled by the traversal of the
   * module at `modulePath`, whose directory name is the path's last segment.
   */
  method ResolveModuleDependencies(store: map<string, Manifest>, modulePath: string) returns (r: Result<DependencyGraph, ScanError>)
    requires NamesMatch(store)
    ensures var o := TraverseOf(store, modulePath, Paths.Basename(modulePath), Table(map[], []));
      && r.Ok? == o.result.Ok?
      && (r.Err? ==> o.result == Err(r.error))
      && (r.Ok? ==> fresh(r.value) && r.value.Valid() && Table(r.value.dependencies, r.value.order) == o.table)
  {
    var g := new DependencyGraph();
    var yielded := TraverseModule(store, modulePath, Paths.Basename(modulePath), g);
    if yielded.Err? {
      return Err(yielded.error);
    }
    return Ok(g);
  }

  /**
   * The traversals `resolveProjectDependencies` runs, one per declared
   * dependency of the project in key order, all into the same graph; a
   * dependency already in the graph is traversed again.
   */
  ghost function ProjectTraversals(store: map<string, Manifest>, projectPath: string, deps: seq<(string, string)>, t: Table): (o: Outcome)
    requires NamesMatch(store)
    ensures t.deps.Keys <= o.table.deps.Keys
  {
    if deps == [] then Outcome(Ok([]), t)
    else
      var prior := ProjectTraversals(store, projectPath, deps[..|deps| - 1], t);
      var dep := deps[|deps| - 1].0;
      match prior.result
      case Err(_) => prior
      case Ok(ys) =>
        var last := TraverseOf(store, Paths.Join(projectPath, "bower_components/" + dep), dep, prior.table);
        match last.result
        case Err(_) => last
        case Ok(zs) => Outcome(Ok(ys + zs), last.table)
  }

  /** `resolveProjectDependencies` for the project at `projectPath`, whose `bower.json` is `project`. */
  method ResolveProjectDependencies(store: map<string, Manifest>, projectPath: string, project: Manifest) returns (r: Result<DependencyGraph, ScanError>)
    requires NamesMatch(store)
    ensures var o := ProjectTraversals(store, projectPath, project.dependencies, Table(map[], []));
      && r.Ok? == o.result.Ok?
      && (r.Err? ==> o.result == Err(r.error))
      && (r.Ok? ==> fresh(r.value) && r.value.Valid() && Table(r.value.dependencies, r.value.order) == o.table)
  {
    var g := new DependencyGraph();
    ghost var yielded: seq<Shorthand> := [];
    var deps := project.dependencies;
    for i := 0 to |deps|
      invariant g.Valid() && fresh(g)
      invariant ProjectTraversals(store, projectPath, deps[..i], Table(map[], [])) == Outcome(Ok(yielded), Table(g.dependencies, g.order))
    {
      assert deps[..i + 1][..i] == deps[..i];
      var dep := deps[i].0;
      var sub := TraverseModule(store, Paths.Join(projectPath, "bower_components/" + dep), dep, g);
      if sub.Err? {
        ProjectTraversalsAbort(store, projectPath, deps, i + 1, Table(map[], []));
        return Err(sub.error);
      }
      yielded := yielded + sub.value;
    }
    assert deps[..|deps|] == deps;
    return Ok(g);
  }

  /** Once one traversal fails, the later ones do not run and the failure is the result. */
  lemma {:induction false} ProjectTraversalsAbort(store: map<string, Manifest>, projectPath: string, deps: seq<(string, string)>, i: nat, t: Table)
    requires NamesMatch(store) && i <= |deps|
    requires ProjectTraversals(store, projectPath, deps[..i], t).result.Err?
    ensures ProjectTraversals(store, projectPath, deps, t) == ProjectTraversals(store, projectPath, deps[..i], t)
  {
    if i < |deps| {
      var init := deps[..|deps| - 1];
      assert init[..i] == deps[..i];
      ProjectTraversalsAbort(store, projectPath, init, i, t);
    } else {
      assert deps[..i] == deps;
    }
  }

  /**
   * A successful traversal into a graph whose nodes all resolve leaves a
   * valid graph whose nodes all resolve, as long as no declared name holds
   * an `@`.
   */
  lemma TraverseKeepsResolved(store: map<string, Manifest>, modulePath: string, dir: string, t: Table)
    requires NamesMatch(store) && NoAtInNames(store) && ValidTable(t.deps, t.order) && AllResolved(t.deps)
    ensures var o := TraverseOf(store, modulePath, dir, t);
      ValidTable(o.table.deps, o.table.order) && (o.result.Ok? ==> AllResolved(o.table.deps))
  {
    var o := TraverseOf(store, modulePath, dir, t);
    TraverseValid(store, modulePath, dir, t);
    TraverseResolved(store, modulePath, dir, t);
    TraverseFrame(store, modulePath, dir, t);
    if o.result.Ok? {
      forall k | k in o.table.deps ensures NodeResolved(o.table.deps[k], o.table.deps) {
        if k in t.deps && k != dir {
          ResolvedGrows(t.deps[k], t.deps, o.table.deps);
        }
      }
    }
  }

  /**
   * After a successful `resolveModuleDependencies`, `toReadable` cannot raise
   * the missing-dependency error, as long as no declared name holds an `@`.
   */
  lemma ModuleReadable(store: map<string, Manifest>, modulePath: string)
    requires NamesMatch(store) && NoAtInNames(store)
    ensures var o := TraverseOf(store, modulePath, Paths.Basename(modulePath), Table(map[], []));
      ValidTable(o.table.deps, o.table.order)
      && (o.result.Ok? ==> AllResolved(o.table.deps) && ReadableOf(o.table.deps, o.table.order).Ok?)
  {
    var o := TraverseOf(store, modulePath, Paths.Basename(modulePath), Table(map[], []));
    TraverseKeepsResolved(store, modulePath, Paths.Basename(modulePath), Table(map[], []));
    if o.result.Ok? {
      ReadableSpec(o.table.deps, o.table.order);
    }
  }

  /**
   * After a successful `resolveProjectDependencies`, every node resolves and
   * `toReadable` cannot raise, as long as no declared name holds an `@`.
   */
  lemma {:induction false} ProjectResolved(store: map<string, Manifest>, projectPath: string, deps: seq<(string, string)>, t: Table)
    requires NamesMatch(store) && NoAtInNames(store) && ValidTable(t.deps, t.order) && AllResolved(t.deps)
    ensures var o := ProjectTraversals(store, projectPath, deps, t);
      ValidTable(o.table.deps, o.table.order)
      && (o.result.Ok? ==> AllResolved(o.table.deps) && ReadableOf(o.table.deps, o.table.order).Ok?)
  {
    var o := ProjectTraversals(store, projectPath, deps, t);
    if deps != [] {
      var init := deps[..|deps| - 1];
      var dep := deps[|deps| - 1].0;
      ProjectResolved(store, projectPath, init, t);
      var prior := ProjectTraversals(store, projectPath, init, t);
      if prior.result.Ok? {
        TraverseKeepsResolved(store, Paths.Join(projectPath, "bower_components/" + dep), dep, prior.table);
      }
    }
    if o.result.Ok? {
      ReadableSpec(o.table.deps, o.table.order);
    }
  }

  /** When every declared dependency of the project is installed under its own name, the resolution succeeds. */
  lemma {:induction false} ProjectSucceeds(store: map<string, Manifest>, projectPath: string, deps: seq<(string, string)>, t: Table)
    requires NamesMatch(store) && WellInstalled(store)
    requires forall i :: 0 <= i < |deps| ==> deps[i].0 in store
    ensures ProjectTraversals(store, projectPath, deps, t).result.Ok?
  {
    if deps != [] {
      var init := deps[..|deps| - 1];
      var dep := deps[|deps| - 1].0;
      assert forall i :: 0 <= i < |init| ==> init[i] == deps[i];
      ProjectSucceeds(store, projectPath, init, t);
      var prior := ProjectTraversals(store, projectPath, init, t);
      TraverseSucceeds(store, Paths.Join(projectPath, "bower_components/" + dep), dep, prior.table);
    }
  }

  /** A traversal keeps the table valid. */
  lemma TraverseValid(store: map<string, Manifest>, modulePath: string, dir: string, t: Table)
    requires NamesMatch(store) && ValidTable(t.deps, t.order)
    ensures var o := TraverseOf(store, modulePath, dir, t); ValidTable(o.table.deps, o.table.order)
    decreases |Universe(store) - (t.deps.Keys + {dir})|, 2
  {
    if dir in store {
      var node := NewShorthand(store[dir], modulePath);
      AddKeepsValid(t.deps, t.order, node);
      AddedKeys(store, modulePath, dir, t);
      VisitFromValid(store, modulePath, dir, 0, [node], Added(t, node));
    }
  }

  lemma VisitFromValid(store: map<string, Manifest>, modulePath: string, dir: string, i: nat, ys: seq<Shorthand>, t: Table)
    requires NamesMatch(store) && dir in store && i <= |store[dir].dependencies|
    requires ValidTable(t.deps, t.order)
    ensures var o := VisitFrom(store, modulePath, dir, i, ys, t); ValidTable(o.table.deps, o.table.order)
    decreases |Universe(store) - t.deps.Keys|, 1, |store[dir].dependencies| - i
  {
    if i < |store[dir].dependencies| {
      var dep := DepIn(store, dir, i);
      var step := VisitOf(store, modulePath, dir, dep, t);
      VisitValid(store, modulePath, dir, dep, t);
      if step.result.Ok? {
        MeasureKeeps(Universe(store), t.deps.Keys, step.table.deps.Keys);
        VisitFromValid(store, modulePath, dir, i + 1, ys + step.result.value, step.table);
      }
    }
  }

  lemma VisitValid(store: map<string, Manifest>, modulePath: string, dir: string, dep: string, t: Table)
    requires NamesMatch(store) && dir in store && dep in Universe(store)
    requires ValidTable(t.deps, t.order)
    ensures var o := VisitOf(store, modulePath, dir, dep, t); ValidTable(o.table.deps, o.table.order)
    decreases |Universe(store) - t.deps.Keys|, 0
  {
    var name := store[dir].name;
    if dep !in t.deps {
      MeasureDrops(Universe(store), t.deps.Keys, dep);
      TraverseValid(store, Paths.Join(modulePath, "../" + dep), dep, t);
    } else if name in t.deps {
      BumpKeepsValid(t.deps, t.order, name);
    }
  }

  /**
   * A traversal leaves every node stored under another key than `dir` as it
   * was, and on success has stored a node under `dir`.
   */
  lemma TraverseFrame(store: map<string, Manifest>, modulePath: string, dir: string, t: Table)
    requires NamesMatch(store) && ValidTable(t.deps, t.order)
    ensures var o := TraverseOf(store, modulePath, dir, t);
      && (forall k :: k in t.deps && k != dir ==> o.table.deps[k] == t.deps[k])
      && (o.result.Ok? ==> dir in o.table.deps)
    decreases |Universe(store) - (t.deps.Keys + {dir})|, 2
  {
    if dir in store {
      var node := NewShorthand(store[dir], modulePath);
      AddKeepsValid(t.deps, t.order, node);
      AddedKeys(store, modulePath, dir, t);
      VisitFromFrame(store, modulePath, dir, 0, [node], Added(t, node));
    }
  }

  lemma VisitFromFrame(store: map<string, Manifest>, modulePath: string, dir: string, i: nat, ys: seq<Shorthand>, t: Table)
    requires NamesMatch(store) && dir in store && i <= |store[dir].dependencies|
    requires ValidTable(t.deps, t.order) && dir in t.deps
    ensures var o := VisitFrom(store, modulePath, dir, i, ys, t);
      forall k :: k in t.deps && k != dir ==> o.table.deps[k] == t.deps[k]
    decreases |Universe(store) - t.deps.Keys|, 1, |store[dir].dependencies| - i
  {
    if i < |store[dir].dependencies| {
      var dep := DepIn(store, dir, i);
      var step := VisitOf(store, modulePath, dir, dep, t);
      VisitFrame(store, modulePath, dir, dep, t);
      if step.result.Ok? {
        VisitValid(store, modulePath, dir, dep, t);
        MeasureKeeps(Universe(store), t.deps.Keys, step.table.deps.Keys);
        VisitFromFrame(store, modulePath, dir, i + 1, ys + step.result.value, step.table);
      }
    }
  }

  lemma VisitFrame(store: map<string, Manifest>, modulePath: string, dir: string, dep: string, t: Table)
    requires NamesMatch(store) && dir in store && dep in Universe(store)
    requires ValidTable(t.deps, t.order) && dir in t.deps
    ensures var o := VisitOf(store, modulePath, dir, dep, t);
      forall k :: k in t.deps && k != dir ==> o.table.deps[k] == t.deps[k]
    decreases |Universe(store) - t.deps.Keys|, 0
  {
    var name := store[dir].name;
    if dep !in t.deps {
      MeasureDrops(Universe(store), t.deps.Keys, dep);
      TraverseFrame(store, Paths.Join(modulePath, "../" + dep), dep, t);
    } else if name in t.deps {
      KeyIsLower(t.deps, t.order, name);
    }
  }

  /**
   * When no declared name holds an `@`, every node a successful traversal
   * stores (the one under `dir` included) has all its pointers resolved.
   */
  lemma TraverseResolved(store: map<string, Manifest>, modulePath: string, dir: string, t: Table)
    requires NamesMatch(store) && NoAtInNames(store) && ValidTable(t.deps, t.order)
    ensures var o := TraverseOf(store, modulePath, dir, t);
      o.result.Ok? ==> ResolvedOutside(o.table.deps, t.deps.Keys - {dir})
    decreases |Universe(store) - (t.deps.Keys + {dir})|, 2
  {
    if dir in store {
      var node := NewShorthand(store[dir], modulePath);
      var t1 := Added(t, node);
      AddedStart(store, modulePath, dir, t);
      assert ResolvedOutside(t1.deps, t1.deps.Keys);
      assert ResolvingAt(store, dir, 0, t1, t1.deps.Keys);
      VisitFromResolved(store, modulePath, dir, 0, [node], t1, t1.deps.Keys);
      assert t1.deps.Keys - {dir} == t.deps.Keys - {dir};
    }
  }

  /**
   * Part way through the visits of `dir`: the table is valid, the node under
   * `dir` has the declared pointers, the first `i` dependency names are keys,
   * and every node outside `excluded` resolves.
   */
  ghost predicate ResolvingAt(store: map<string, Manifest>, dir: string, i: nat, t: Table, excluded: set<string>)
    requires dir in store && i <= |store[dir].dependencies|
  {
    && ValidTable(t.deps, t.order) && dir in t.deps && dir in excluded
    && t.deps[dir].dependencies == Pointers(store[dir].dependencies)
    && (forall j :: 0 <= j < i ==> store[dir].dependencies[j].0 in t.deps)
    && ResolvedOutside(t.deps, excluded)
  }

  lemma VisitFromResolved(store: map<string, Manifest>, modulePath: string, dir: string, i: nat, ys: seq<Shorthand>, t: Table, excluded: set<string>)
    requires NamesMatch(store) && NoAtInNames(store) && dir in store && i <= |store[dir].dependencies|
    requires ResolvingAt(store, dir, i, t, excluded)
    ensures var o := VisitFrom(store, modulePath, dir, i, ys, t);
      o.result.Ok? ==> ResolvedOutside(o.table.deps, excluded - {dir})
    decreases |Universe(store) - t.deps.Keys|, 1, |store[dir].dependencies| - i, 1
  {
    if i == |store[dir].dependencies| {
      OwnNodeResolved(store, dir, t, excluded);
    } else {
      var dep := DepIn(store, dir, i);
      var step := VisitOf(store, modulePath, dir, dep, t);
      if step.result.Ok? {
        ResolvingStep(store, modulePath, dir, i, t, excluded);
        MeasureKeeps(Universe(store), t.deps.Keys, step.table.deps.Keys);
        VisitFromResolved(store, modulePath, dir, i + 1, ys + step.result.value, step.table, excluded);
      }
    }
  }

  /** One successful visit keeps `ResolvingAt`, one dependency further on. */
  lemma ResolvingStep(store: map<string, Manifest>, modulePath: string, dir: string, i: nat, t: Table, excluded: set<string>)
    requires NamesMatch(store) && NoAtInNames(store) && dir in store && i < |store[dir].dependencies|
    requires ResolvingAt(store, dir, i, t, excluded)
    ensures var dep := store[dir].dependencies[i].0;
      dep in Universe(store) &&
      var step := VisitOf(store, modulePath, dir, dep, t);
      step.result.Ok? ==> ResolvingAt(store, dir, i + 1, step.table, excluded)
    decreases |Universe(store) - t.deps.Keys|, 1, |store[dir].dependencies| - i, 0
  {
    var dep := DepIn(store, dir, i);
    var step := VisitOf(store, modulePath, dir, dep, t);
    VisitResolved(store, modulePath, dir, dep, t, excluded);
    VisitValid(store, modulePath, dir, dep, t);
  }

  /** Once every declared dependency of `dir` is a key, the node under `dir` resolves. */
  lemma OwnNodeResolved(store: map<string, Manifest>, dir: string, t: Table, excluded: set<string>)
    requires NoAtInNames(store) && dir in store && ValidTable(t.deps, t.order) && dir in t.deps
    requires t.deps[dir].dependencies == Pointers(store[dir].dependencies)
    requires forall j :: 0 <= j < |store[dir].dependencies| ==> store[dir].dependencies[j].0 in t.deps
    requires ResolvedOutside(t.deps, excluded)
    ensures ResolvedOutside(t.deps, excluded - {dir})
  {
    var decl := store[dir].dependencies;
    KeysAreLower(t.deps, t.order);
    forall j | 0 <= j < |decl| ensures Resolves(t.deps[dir].dependencies[j], t.deps) {
      assert '@' !in decl[j].0;
      PointerNameOf(decl[j].0, decl[j].1);
    }
  }

  lemma VisitResolved(store: map<string, Manifest>, modulePath: string, dir: string, dep: string, t: Table, excluded: set<string>)
    requires NamesMatch(store) && NoAtInNames(store) && dir in store && dep in Universe(store)
    requires ValidTable(t.deps, t.order) && dir in t.deps && dir in excluded
    requires ResolvedOutside(t.deps, excluded)
    ensures var o := VisitOf(store, modulePath, dir, dep, t);
      o.result.Ok? ==> && ResolvedOutside(o.table.deps, excluded) && dep in o.table.deps
                       && o.table.deps[dir].dependencies == t.deps[dir].dependencies
    decreases |Universe(store) - t.deps.Keys|, 0
  {
    var name := store[dir].name;
    if dep !in t.deps {
      MeasureDrops(Universe(store), t.deps.Keys, dep);
      var path := Paths.Join(modulePath, "../" + dep);
      TraverseResolved(store, path, dep, t);
      TraverseFrame(store, path, dep, t);
      var o := TraverseOf(store, path, dep, t);
      assert VisitOf(store, modulePath, dir, dep, t) == o;
      if o.result.Ok? {
        FreshResolved(t.deps, o.table.deps, excluded, dir, dep);
      }
    } else if name in t.deps {
      KeyIsLower(t.deps, t.order, name);
      BumpResolved(t.deps, excluded, name);
    }
  }

  /** Traversing a name that was not a key keeps the nodes outside `excluded` resolved. */
  lemma FreshResolved(before: map<string, Shorthand>, after: map<string, Shorthand>, excluded: set<string>, dir: string, dep: string)
    requires dep !in before && dir in before && dir in excluded
    requires ResolvedOutside(before, excluded) && ResolvedOutside(after, before.Keys - {dep})
    requires before.Keys <= after.Keys
    requires forall k :: k in before && k != dep ==> after[k] == before[k]
    ensures ResolvedOutside(after, excluded) && after[dir] == before[dir]
  {
    assert before.Keys - {dep} == before.Keys;
    ResolvedStep(before, after, excluded, dir);
  }

  /** Bumping a counter inside `excluded` keeps the nodes outside it resolved. */
  lemma BumpResolved(m: map<string, Shorthand>, excluded: set<string>, name: string)
    requires name in m && name in excluded && ResolvedOutside(m, excluded)
    ensures ResolvedOutside(m[name := Bumped(m[name])], excluded)
  {
    var after := m[name := Bumped(m[name])];
    forall k | k in after && k !in excluded ensures NodeResolved(after[k], after) {
      ResolvedGrows(m[k], m, after);
    }
  }

  /** The `i`-th declared dependency name of `dir`, which the measure counts. */
  lemma DepIn(store: map<string, Manifest>, dir: string, i: nat) returns (dep: string)
    requires dir in store && i < |store[dir].dependencies|
    ensures dep == store[dir].dependencies[i].0 && dep in Universe(store)
  {
    dep := store[dir].dependencies[i].0;
  }

  /** When every declared dependency is installed under its own name, a traversal of an installed module succeeds. */
  lemma TraverseSucceeds(store: map<string, Manifest>, modulePath: string, dir: string, t: Table)
    requires NamesMatch(store) && WellInstalled(store) && dir in store
    ensures TraverseOf(store, modulePath, dir, t).result.Ok?
    decreases |Universe(store) - (t.deps.Keys + {dir})|, 2
  {
    var node := NewShorthand(store[dir], modulePath);
    AddedKeys(store, modulePath, dir, t);
    VisitFromSucceeds(store, modulePath, dir, 0, [node], Added(t, node));
  }

  lemma VisitFromSucceeds(store: map<string, Manifest>, modulePath: string, dir: string, i: nat, ys: seq<Shorthand>, t: Table)
    requires NamesMatch(store) && WellInstalled(store) && dir in store && i <= |store[dir].dependencies|
    requires dir in t.deps
    ensures VisitFrom(store, modulePath, dir, i, ys, t).result.Ok?
    decreases |Universe(store) - t.deps.Keys|, 1, |store[dir].dependencies| - i
  {
    if i < |store[dir].dependencies| {
      var dep := DepIn(store, dir, i);
      var step := VisitOf(store, modulePath, dir, dep, t);
      if dep !in t.deps {
        MeasureDrops(Universe(store), t.deps.Keys, dep);
        TraverseSucceeds(store, Paths.Join(modulePath, "../" + dep), dep, t);
      } else {
        assert store[dir].name == dir;
      }
      MeasureKeeps(Universe(store), t.deps.Keys, step.table.deps.Keys);
      VisitFromSucceeds(store, modulePath, dir, i + 1, ys + step.result.value, step.table);
    }
  }

  /**
   * A module all of whose declared dependencies are already keys yields only
   * its own node, and `markReference` then counts every one of them on it.
   */
  lemma TraverseRevisits(store: map<string, Manifest>, modulePath: string, dir: string, t: Table)
    requires NamesMatch(store) && ValidTable(t.deps, t.order) && dir in store && AllPresent(store, dir, t.deps)
    ensures var node := NewShorthand(store[dir], modulePath);
      var o := TraverseOf(store, modulePath, dir, t);
      o.result.Ok? ==> o.result.value == [node] && dir in o.table.deps
                       && o.table.deps[dir].references == |store[dir].dependencies|
  {
    var node := NewShorthand(store[dir], modulePath);
    AddedStart(store, modulePath, dir, t);
    assert RevisitingAt(store, dir, 0, Added(t, node));
    VisitFromRevisits(store, modulePath, dir, 0, [node], Added(t, node));
  }

  /** Every dependency of `dir` from the `i`-th on is already a key of a valid table holding `dir`. */
  ghost predicate RevisitingAt(store: map<string, Manifest>, dir: string, i: nat, t: Table)
    requires dir in store
  {
    && ValidTable(t.deps, t.order) && dir in t.deps
    && forall j :: i <= j < |store[dir].dependencies| ==> store[dir].dependencies[j].0 in t.deps
  }

  lemma {:induction false} VisitFromRevisits(store: map<string, Manifest>, modulePath: string, dir: string, i: nat, ys: seq<Shorthand>, t: Table)
    requires NamesMatch(store) && dir in store && i <= |store[dir].dependencies|
    requires RevisitingAt(store, dir, i, t)
    ensures var o := VisitFrom(store, modulePath, dir, i, ys, t);
      o.result.Ok? ==> o.result.value == ys && dir in o.table.deps
                       && o.table.deps[dir].references == t.deps[dir].references + |store[dir].dependencies| - i
    decreases |store[dir].dependencies| - i
  {
    if i == |store[dir].dependencies| {
      assert VisitFrom(store, modulePath, dir, i, ys, t) == Outcome(Ok(ys), t);
    } else if store[dir].name in t.deps {
      var t2 := RevisitStep(store, modulePath, dir, i, ys, t);
      VisitFromRevisits(store, modulePath, dir, i + 1, ys, t2);
    }
  }

  /** One visit of a dependency that is already a key bumps the module's own counter and yields nothing. */
  lemma RevisitStep(store: map<string, Manifest>, modulePath: string, dir: string, i: nat, ys: seq<Shorthand>, t: Table) returns (t2: Table)
    requires NamesMatch(store) && dir in store && i < |store[dir].dependencies|
    requires RevisitingAt(store, dir, i, t)
    requires store[dir].name in t.deps
    ensures RevisitingAt(store, dir, i + 1, t2)
    ensures t2.deps[dir].references == t.deps[dir].references + 1
    ensures VisitFrom(store, modulePath, dir, i, ys, t) == VisitFrom(store, modulePath, dir, i + 1, ys, t2)
  {
    var dep := DepIn(store, dir, i);
    var name := store[dir].name;
    KeyIsLower(t.deps, t.order, name);
    BumpKeepsValid(t.deps, t.order, name);
    assert name == dir;
    t2 := Table(t.deps[dir := Bumped(t.deps[dir])], t.order);
    assert VisitOf(store, modulePath, dir, dep, t) == Outcome(Ok([]), t2);
    assert ys + [] == ys;
  }

  /**
   * The nodes a successful traversal yields: the module's own node first,
   * each one stored under its key (up to its counter), no key twice, none
   * after the first already a key before, and exactly the keys it added.
   */
  lemma TraverseYields(store: map<string, Manifest>, modulePath: string, dir: string, t: Table)
    requires NamesMatch(store) && ValidTable(t.deps, t.order)
    ensures var o := TraverseOf(store, modulePath, dir, t);
      o.result.Ok? ==> var ys := o.result.value;
        && dir in store && |ys| >= 1 && ys[0] == NewShorthand(store[dir], modulePath)
        && o.table.deps.Keys == t.deps.Keys + KeysOf(ys)
        && Recorded(ys, o.table.deps) && DistinctKeys(ys) && FreshTail(ys, t.deps.Keys + {dir})
    decreases |Universe(store) - (t.deps.Keys + {dir})|, 2
  {
    if dir in store {
      var node := NewShorthand(store[dir], modulePath);
      var t1 := Added(t, node);
      AddedStart(store, modulePath, dir, t);
      SingleYields(store, modulePath, dir, t);
      assert YieldingAt(dir, [node], t1, t.deps.Keys);
      VisitFromYields(store, modulePath, dir, 0, [node], t1, t.deps.Keys);
      var o := TraverseOf(store, modulePath, dir, t);
      if o.result.Ok? {
        PrefixHead(o.result.value, [node]);
      }
    }
  }

  /** The module's own node alone satisfies what `VisitFromYields` asks of the nodes yielded so far. */
  lemma SingleYields(store: map<string, Manifest>, modulePath: string, dir: string, t: Table)
    requires NamesMatch(store) && dir in store
    ensures var node := NewShorthand(store[dir], modulePath);
      var t1 := Added(t, node);
      && NodeKey(node) == dir && dir in t1.deps
      && t1.deps.Keys == t.deps.Keys + KeysOf([node])
      && Recorded([node], t1.deps) && DistinctKeys([node]) && FreshTail([node], t.deps.Keys + {dir})
  {
    var node := NewShorthand(store[dir], modulePath);
    assert NodeKey(node) == dir;
    assert KeysOf([node]) == {dir};
    AddedKeys(store, modulePath, dir, t);
  }

  /** A sequence that starts with a non-empty `a` has `a`'s head as its head. */
  lemma PrefixHead<T>(zs: seq<T>, a: seq<T>)
    requires |a| >= 1 && |zs| >= |a| && zs[..|a|] == a
    ensures zs[0] == a[0]
  {
    assert zs[0] == zs[..|a|][0];
  }

  /** What holds of the nodes yielded so far while visiting the dependencies of `dir`. */
  ghost predicate YieldingAt(dir: string, ys: seq<Shorthand>, t: Table, base: set<string>) {
    && ValidTable(t.deps, t.order) && dir in t.deps
    && |ys| >= 1 && NodeKey(ys[0]) == dir
    && t.deps.Keys == base + KeysOf(ys)
    && Recorded(ys, t.deps) && DistinctKeys(ys) && FreshTail(ys, base + {dir})
  }

  lemma VisitFromYields(store: map<string, Manifest>, modulePath: string, dir: string, i: nat, ys: seq<Shorthand>, t: Table, base: set<string>)
    requires NamesMatch(store) && dir in store && i <= |store[dir].dependencies|
    requires YieldingAt(dir, ys, t, base)
    ensures var o := VisitFrom(store, modulePath, dir, i, ys, t);
      o.result.Ok? ==> var zs := o.result.value;
        && |zs| >= |ys| && zs[..|ys|] == ys
        && o.table.deps.Keys == base + KeysOf(zs)
        && Recorded(zs, o.table.deps) && DistinctKeys(zs) && FreshTail(zs, base + {dir})
    decreases |Universe(store) - t.deps.Keys|, 1, |store[dir].dependencies| - i, 1
  {
    if i == |store[dir].dependencies| {
      assert ys[..|ys|] == ys;
    } else {
      var dep := DepIn(store, dir, i);
      var step := VisitOf(store, modulePath, dir, dep, t);
      if step.result.Ok? {
        var sub := step.result.value;
        YieldingStep(store, modulePath, dir, i, ys, t, base);
        MeasureKeeps(Universe(store), t.deps.Keys, step.table.deps.Keys);
        VisitFromYields(store, modulePath, dir, i + 1, ys + sub, step.table, base);
        var o := VisitFrom(store, modulePath, dir, i, ys, t);
        if o.result.Ok? {
          PrefixOfPrefix(o.result.value, ys, sub);
        }
      }
    }
  }

  /** One successful visit keeps `YieldingAt`, with its nodes appended. */
  lemma YieldingStep(store: map<string, Manifest>, modulePath: string, dir: string, i: nat, ys: seq<Shorthand>, t: Table, base: set<string>)
    requires NamesMatch(store) && dir in store && i < |store[dir].dependencies|
    requires YieldingAt(dir, ys, t, base)
    ensures var dep := store[dir].dependencies[i].0;
      dep in Universe(store) &&
      var step := VisitOf(store, modulePath, dir, dep, t);
      step.result.Ok? ==> YieldingAt(dir, ys + step.result.value, step.table, base)
    decreases |Universe(store) - t.deps.Keys|, 1, |store[dir].dependencies| - i, 0
  {
    var dep := DepIn(store, dir, i);
    var step := VisitOf(store, modulePath, dir, dep, t);
    VisitYields(store, modulePath, dir, dep, t);
    VisitValid(store, modulePath, dir, dep, t);
    if step.result.Ok? {
      var sub := step.result.value;
      YieldsAppend(ys, sub, t.deps, step.table.deps, base + {dir}, dir);
      KeysNext(base, ys, sub, t.deps.Keys, step.table.deps.Keys);
      assert (ys + sub)[0] == ys[0];
    }
  }

  lemma VisitYields(store: map<string, Manifest>, modulePath: string, dir: string, dep: string, t: Table)
    requires NamesMatch(store) && dir in store && dep in Universe(store)
    requires ValidTable(t.deps, t.order) && dir in t.deps
    ensures var o := VisitOf(store, modulePath, dir, dep, t);
      o.result.Ok? ==> var sub := o.result.value;
        && o.table.deps.Keys == t.deps.Keys + KeysOf(sub)
        && Recorded(sub, o.table.deps) && DistinctKeys(sub) && FreshKeys(sub, t.deps.Keys)
        && (forall k :: k in t.deps && k != dir ==> o.table.deps[k] == t.deps[k])
        && o.table.deps[dir].(references := t.deps[dir].references) == t.deps[dir]
    decreases |Universe(store) - t.deps.Keys|, 0
  {
    var name := store[dir].name;
    if dep !in t.deps {
      MeasureDrops(Universe(store), t.deps.Keys, dep);
      var path := Paths.Join(modulePath, "../" + dep);
      TraverseYields(store, path, dep, t);
      TraverseFrame(store, path, dep, t);
      var o := TraverseOf(store, path, dep, t);
      assert VisitOf(store, modulePath, dir, dep, t) == o;
      if o.result.Ok? {
        FreshYields(t.deps, o.table.deps, o.result.value, dep);
      }
    } else if name in t.deps {
      KeyIsLower(t.deps, t.order, name);
      BumpYields(t.deps, name);
    }
  }

  /** The nodes a traversal of a name that was not a key yields all have new keys. */
  lemma FreshYields(before: map<string, Shorthand>, after: map<string, Shorthand>, sub: seq<Shorthand>, dep: string)
    requires dep !in before && |sub| >= 1 && NodeKey(sub[0]) == dep
    requires FreshTail(sub, before.Keys + {dep})
    ensures FreshKeys(sub, before.Keys)
  {
  }

  /** A counter bump yields nothing and keeps the keys. */
  lemma BumpYields(m: map<string, Shorthand>, name: string)
    requires name in m
    ensures var after := m[name := Bumped(m[name])];
      && after.Keys == m.Keys + KeysOf([]) && Recorded([], after) && DistinctKeys([]) && FreshKeys([], m.Keys)
  {
    assert KeysOf([]) == {};
  }

  /** A sequence that starts with `a + b` starts with `a`. */
  lemma PrefixOfPrefix<T>(zs: seq<T>, a: seq<T>, b: seq<T>)
    requires |zs| >= |a + b| && zs[..|a + b|] == a + b
    ensures |zs| >= |a| && zs[..|a|] == a
  {
    assert zs[..|a|] == zs[..|a + b|][..|a|];
  }

  /** The keys stay the base keys plus those of the nodes yielded so far. */
  lemma KeysNext(base: set<string>, ys: seq<Shorthand>, sub: seq<Shorthand>, before: set<string>, after: set<string>)
    requires before == base + KeysOf(ys) && after == before + KeysOf(sub)
    ensures after == base + KeysOf(ys + sub)
  {
    KeysOfAppend(ys, sub);
  }

  /** The table a traversal of an installed module continues from. */
  lemma AddedStart(store: map<string, Manifest>, modulePath: string, dir: string, t: Table)
    requires NamesMatch(store) && dir in store && ValidTable(t.deps, t.order)
    ensures var node := NewShorthand(store[dir], modulePath);
      && ValidTable(Added(t, node).deps, Added(t, node).order)
      && Added(t, node).deps.Keys == t.deps.Keys + {dir} && Added(t, node).deps[dir] == node
      && TraverseOf(store, modulePath, dir, t) == VisitFrom(store, modulePath, dir, 0, [node], Added(t, node))
  {
    var node := NewShorthand(store[dir], modulePath);
    AddKeepsValid(t.deps, t.order, node);
    AddedKeys(store, modulePath, dir, t);
  }

  /** A traversal of an installed module starts by adding its node under `dir`. */
  lemma AddedKeys(store: map<string, Manifest>, modulePath: string, dir: string, t: Table)
    requires NamesMatch(store) && dir in store
    ensures var node := NewShorthand(store[dir], modulePath);
      && Added(t, node).deps.Keys == t.deps.Keys + {dir}
      && TraverseOf(store, modulePath, dir, t) == VisitFrom(store, modulePath, dir, 0, [node], Added(t, node))
  {
  }

  /** Appending the nodes one visit yielded keeps the yields recorded, distinct and fresh. */
  lemma YieldsAppend(ys: seq<Shorthand>, sub: seq<Shorthand>, before: map<string, Shorthand>,
                     after: map<string, Shorthand>, excluded: set<string>, dir: string)
    requires Recorded(ys, before) && DistinctKeys(ys) && FreshTail(ys, excluded)
    requires Recorded(sub, after) && DistinctKeys(sub) && FreshKeys(sub, before.Keys)
    requires excluded <= before.Keys && dir in before
    requires forall k :: k in before && k != dir ==> k in after && after[k] == before[k]
    requires dir in after && after[dir].(references := before[dir].references) == before[dir]
    ensures Recorded(ys + sub, after) && DistinctKeys(ys + sub) && FreshTail(ys + sub, excluded)
    ensures KeysOf(ys + sub) == KeysOf(ys) + KeysOf(sub)
  {
    var all := ys + sub;
    forall j | 0 <= j < |all| ensures NodeKey(all[j]) in after && after[NodeKey(all[j])].(references := 0) == all[j] {
      if j >= |ys| {
        assert all[j] == sub[j - |ys|];
      } else {
        assert all[j] == ys[j];
      }
    }
    forall a, b | 0 <= a < b < |all| ensures NodeKey(all[a]) != NodeKey(all[b]) {
      if b >= |ys| {
        assert all[b] == sub[b - |ys|];
        if a >= |ys| {
          assert all[a] == sub[a - |ys|];
        } else {
          assert all[a] == ys[a];
        }
      }
    }
    forall j | 1 <= j < |all| ensures NodeKey(all[j]) !in excluded {
      if j >= |ys| {
        assert all[j] == sub[j - |ys|];
      }
    }
    KeysOfAppend(ys, sub);
  }

  /** Nodes one visit left alone stay resolved, and the ones it added resolve. */
  lemma ResolvedStep(before: map<string, Shorthand>, after: map<string, Shorthand>, excluded: set<string>, dir: string)
    requires ResolvedOutside(before, excluded) && ResolvedOutside(after, before.Keys)
    requires before.Keys <= after.Keys && dir in excluded
    requires forall k :: k in before && k != dir ==> after[k] == before[k]
    ensures ResolvedOutside(after, excluded)
  {
    forall k | k in after && k !in excluded ensures NodeResolved(after[k], after) {
      if k in before {
        ResolvedGrows(after[k], before, after);
      }
    }
  }

  lemma KeyIsLower(m: map<string, Shorthand>, order: seq<string>, k: string)
    requires ValidTable(m, order) && k in m
    ensures Lower(k) == k
  {
    LowerIdempotent(m[k].name);
  }

  /** The nodes of the table are stored under lower-case keys. */
  lemma KeysAreLower(m: map<string, Shorthand>, order: seq<string>)
    requires ValidTable(m, order)
    ensures forall k :: k in m ==> Lower(k) == k
  {
    forall k | k in m ensures Lower(k) == k {
      LowerIdempotent(m[k].name);
    }
  }

  /** The name part of `name@spec` is `name` when `name` holds no `@`, whatever `spec` holds. */
  lemma PointerNameOf(name: string, spec: string)
    requires '@' !in name
    ensures PointerName(name + "@" + spec) == name
  {
    SplitAppend(name, '@', spec);
    SplitNoSeparator(name, '@');
    assert name + ['@'] + spec == name + "@" + spec;
  }

  /** Resolution only needs the keys to be present, so adding keys keeps it. */
  lemma ResolvedGrows(n: Shorthand, m1: map<string, Shorthand>, m2: map<string, Shorthand>)
    requires NodeResolved(n, m1) && m1.Keys <= m2.Keys
    ensures NodeResolved(n, m2)
  {
  }

  lemma KeysOfAppend(a: seq<Shorthand>, b: seq<Shorthand>)
    ensures KeysOf(a + b) == KeysOf(a) + KeysOf(b)
  {
    forall k | k in KeysOf(a + b) ensures k in KeysOf(a) + KeysOf(b) {
      var y :| y in a + b && NodeKey(y) == k;
    }
    forall k | k in KeysOf(a) + KeysOf(b) ensures k in KeysOf(a + b) {
      if k in KeysOf(a) {
        var y :| y in a && NodeKey(y) == k;
        assert y in a + b;
      } else {
        var y :| y in b && NodeKey(y) == k;
        assert y in a + b;
      }
    }
  }

  /** Visiting a name not yet in the graph shrinks the set of names left to visit. */
  lemma MeasureDrops(u: set<string>, now: set<string>, dep: string)
    requires dep in u && dep !in now
    ensures |u - (now + {dep})| < |u - now|
  {
    var small, big := u - (now + {dep}), u - now;
    assert big == small + {dep};
  }

  /** Adding names to the graph never grows the set of names left to visit. */
  lemma MeasureKeeps(u: set<string>, entry: set<string>, now: set<string>)
    requires entry <= now
    ensures |u - now| <= |u - entry|
  {
    var small, big := u - now, u - entry;
    assert big == small + (big - small);
  }
}
