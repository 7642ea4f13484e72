/**
 * The workflow validation engine: given the node list it reports
 * dependencies that name no node (errors), dependency cycles found by a
 * depth-first search (errors) and dependencies whose deadline falls after
 * their dependent's (warnings). The report is valid exactly when there are
 * no errors.
 */
module Validation {
  import opened Text
  import opened Wrappers
  import opened Dates

  /** A workflow node as stored; a key missing from the stored record reads
      as the empty string, the empty list or false. */
  datatype Node = Node(
    id: string,
    displayLabel: string,
    dependsOn: seq<string>,
    deadline: string,
    note: string,
    section: string,
    doc: string,
    action: string,
    qmsPath: string,
    knowledgeDir: string,
    decision: bool)

  datatype Report = Report(valid: bool, errors: seq<string>, warnings: seq<string>)

  function Ids(nodes: seq<Node>): set<string> {
    set n | n in nodes :: n.id
  }

  /** The id-to-node lookup table: every id of the list is a key, and a key
      shared by several nodes maps to the last of them. */
  function NodeById(nodes: seq<Node>): (byId: map<string, Node>)
    ensures byId.Keys == Ids(nodes)
    ensures forall id :: id in byId ==> byId[id].id == id && byId[id] in nodes
  {
    if |nodes| == 0 then map[]
    else
      var init := nodes[..|nodes| - 1];
      var last := nodes[|nodes| - 1];
      assert nodes == init + [last];
      assert Ids(nodes) == Ids(init) + {last.id};
      NodeById(init)[last.id := last]
  }

  /** A key shared by several nodes maps to the last of them. */
  lemma {:induction false} NodeByIdLastWins(nodes: seq<Node>, i: nat)
    requires i < |nodes|
    requires forall j :: i < j < |nodes| ==> nodes[j].id != nodes[i].id
    ensures NodeById(nodes)[nodes[i].id] == nodes[i]
  {
    if i < |nodes| - 1 {
      var init := nodes[..|nodes| - 1];
      NodeByIdLastWins(init, i);
    }
  }

  // ---------------------------------------------------------------------
  // Dependency references, in node-then-dependency order
  // ---------------------------------------------------------------------

  /** One entry of a node's dependency list. */
  datatype DepRef = DepRef(node: Node, dep: string)

  function RefsOf(n: Node): seq<DepRef> {
    seq(|n.dependsOn|, k requires 0 <= k < |n.dependsOn| => DepRef(n, n.dependsOn[k]))
  }

  /** Every (node, dependency) entry of the list, nodes in order and each
      node's dependencies in order, duplicates kept. */
  function DepRefs(nodes: seq<Node>): seq<DepRef> {
    if |nodes| == 0 then []
    else DepRefs(nodes[..|nodes| - 1]) + RefsOf(nodes[|nodes| - 1])
  }

  lemma {:induction false} DepRefsMembers(nodes: seq<Node>, r: DepRef)
    ensures r in DepRefs(nodes) <==> exists i :: 0 <= i < |nodes| && r.node == nodes[i] && r.dep in nodes[i].dependsOn
  {
    if |nodes| > 0 {
      var init := nodes[..|nodes| - 1];
      DepRefsMembers(init, r);
      if r in RefsOf(nodes[|nodes| - 1]) {
        var k :| 0 <= k < |RefsOf(nodes[|nodes| - 1])| && RefsOf(nodes[|nodes| - 1])[k] == r;
        assert r.dep == nodes[|nodes| - 1].dependsOn[k];
      }
      if exists i :: 0 <= i < |nodes| && r.node == nodes[i] && r.dep in nodes[i].dependsOn {
        var i :| 0 <= i < |nodes| && r.node == nodes[i] && r.dep in nodes[i].dependsOn;
        if i == |nodes| - 1 {
          var k :| 0 <= k < |nodes[i].dependsOn| && nodes[i].dependsOn[k] == r.dep;
          assert RefsOf(nodes[i])[k] == r;
        } else {
          assert init[i] == nodes[i];
        }
      }
    }
  }

  lemma DepRefsStep(nodes: seq<Node>, i: nat)
    requires i < |nodes|
    ensures DepRefs(nodes[..i + 1]) == DepRefs(nodes[..i]) + RefsOf(nodes[i])
  {
    assert nodes[..i + 1][..i] == nodes[..i];
  }

  lemma RefsOfStep(prefix: seq<DepRef>, node: Node, k: nat)
    requires k < |node.dependsOn|
    ensures prefix + RefsOf(node)[..k + 1] == (prefix + RefsOf(node)[..k]) + [DepRef(node, node.dependsOn[k])]
  {
  }

  lemma RefsOfDone(prefix: seq<DepRef>, node: Node)
    ensures prefix + RefsOf(node)[..|node.dependsOn|] == prefix + RefsOf(node)
    ensures prefix + RefsOf(node)[..0] == prefix
  {
    assert RefsOf(node)[..|node.dependsOn|] == RefsOf(node);
  }

  // ---------------------------------------------------------------------
  // Referential integrity
  // ---------------------------------------------------------------------

  function MissingMessage(nodeId: string, dep: string): string {
    "Node '" + nodeId + "': Dependency '" + dep + "' does not exist"
  }

  /** One message per reference whose dependency is not among ids, in
      reference order. */
  function MissingIn(refs: seq<DepRef>, ids: set<string>): seq<string> {
    if |refs| == 0 then []
    else
      var r := refs[|refs| - 1];
      MissingIn(refs[..|refs| - 1], ids) + (if r.dep in ids then [] else [MissingMessage(r.node.id, r.dep)])
  }

  lemma MissingInStep(refs: seq<DepRef>, r: DepRef, ids: set<string>)
    ensures MissingIn(refs + [r], ids) == MissingIn(refs, ids) + (if r.dep in ids then [] else [MissingMessage(r.node.id, r.dep)])
  {
    assert (refs + [r])[..|refs|] == refs;
  }

  /** The referential-integrity errors of a node list. */
  function MissingDependencyErrors(nodes: seq<Node>): seq<string> {
    MissingIn(DepRefs(nodes), Ids(nodes))
  }

  predicate AllDependenciesExist(nodes: seq<Node>) {
    forall i, d :: 0 <= i < |nodes| && d in nodes[i].dependsOn ==> d in Ids(nodes)
  }

  /** A reference list yields a missing-dependency message for a reference
      exactly when that reference's dependency is not among ids, and yields
      nothing else. */
  lemma {:induction false} MissingInExact(refs: seq<DepRef>, ids: set<string>)
    ensures forall r :: r in refs && r.dep !in ids ==> MissingMessage(r.node.id, r.dep) in MissingIn(refs, ids)
    ensures forall m :: m in MissingIn(refs, ids) ==> exists r :: r in refs && r.dep !in ids && m == MissingMessage(r.node.id, r.dep)
    ensures |MissingIn(refs, ids)| <= |refs|
  {
    if |refs| > 0 {
      var init := refs[..|refs| - 1];
      MissingInExact(init, ids);
      assert refs == init + [refs[|refs| - 1]];
      forall m | m in MissingIn(refs, ids)
        ensures exists r :: r in refs && r.dep !in ids && m == MissingMessage(r.node.id, r.dep)
      {
        if m in MissingIn(init, ids) {
          var r :| r in init && r.dep !in ids && m == MissingMessage(r.node.id, r.dep);
          assert r in refs;
        }
      }
    }
  }

  /** There are no referential-integrity errors exactly when every
      dependency names a node of the list. */
  lemma MissingErrorsEmptyIff(nodes: seq<Node>)
    ensures MissingDependencyErrors(nodes) == [] <==> AllDependenciesExist(nodes)
  {
    var refs := DepRefs(nodes);
    MissingInExact(refs, Ids(nodes));
    if !AllDependenciesExist(nodes) {
      var i, d :| 0 <= i < |nodes| && d in nodes[i].dependsOn && d !in Ids(nodes);
      DepRefsMembers(nodes, DepRef(nodes[i], d));
    }
    if MissingDependencyErrors(nodes) != [] {
      var m := MissingDependencyErrors(nodes)[0];
      assert m in MissingIn(refs, Ids(nodes));
      var r :| r in refs && r.dep !in Ids(nodes) && m == MissingMessage(r.node.id, r.dep);
      DepRefsMembers(nodes, r);
    }
  }

  // ---------------------------------------------------------------------
  // Deadline contradictions
  // ---------------------------------------------------------------------

  function DeadlineMessage(depId: string, depDeadline: string, nodeId: string, nodeDeadline: string): string {
    "Deadline contradiction: '" + depId + "' (親) has deadline " + depDeadline
    + " but '" + nodeId + "' (子) has earlier deadline " + nodeDeadline
  }

  /** The reference's node has a deadline that parses, its dependency names
      a node whose deadline parses too, and that deadline is strictly
      later. */
  predicate Contradicts(r: DepRef, byId: map<string, Node>) {
    && ParseDate(r.node.deadline).Some?
    && r.dep in byId
    && ParseDate(byId[r.dep].deadline).Some?
    && After(ParseDate(byId[r.dep].deadline).value, ParseDate(r.node.deadline).value)
  }

  function WarningFor(r: DepRef, byId: map<string, Node>): string
    requires r.dep in byId
  {
    DeadlineMessage(r.dep, byId[r.dep].deadline, r.node.id, r.node.deadline)
  }

  /** One warning per contradicting reference, in reference order. */
  function WarningsIn(refs: seq<DepRef>, byId: map<string, Node>): seq<string> {
    if |refs| == 0 then []
    else
      var r := refs[|refs| - 1];
      WarningsIn(refs[..|refs| - 1], byId) + (if Contradicts(r, byId) then [WarningFor(r, byId)] else [])
  }

  lemma WarningsInStep(refs: seq<DepRef>, r: DepRef, byId: map<string, Node>)
    ensures WarningsIn(refs + [r], byId) == WarningsIn(refs, byId) + (if Contradicts(r, byId) then [WarningFor(r, byId)] else [])
  {
    assert (refs + [r])[..|refs|] == refs;
  }

  /** The deadline warnings of a node list. */
  function DeadlineWarnings(nodes: seq<Node>): seq<string> {
    WarningsIn(DepRefs(nodes), NodeById(nodes))
  }

  /** A warning is issued exactly for the contradicting references, and
      there are never more warnings than references. */
  lemma {:induction false} WarningsInExact(refs: seq<DepRef>, byId: map<string, Node>)
    ensures forall r :: r in refs && Contradicts(r, byId) ==> WarningFor(r, byId) in WarningsIn(refs, byId)
    ensures forall w :: w in WarningsIn(refs, byId) ==> exists r :: r in refs && Contradicts(r, byId) && w == WarningFor(r, byId)
    ensures |WarningsIn(refs, byId)| <= |refs|
  {
    if |refs| > 0 {
      var init := refs[..|refs| - 1];
      WarningsInExact(init, byId);
      assert refs == init + [refs[|refs| - 1]];
      forall w | w in WarningsIn(refs, byId)
        ensures exists r :: r in refs && Contradicts(r, byId) && w == WarningFor(r, byId)
      {
        if w in WarningsIn(init, byId) {
          var r :| r in init && Contradicts(r, byId) && w == WarningFor(r, byId);
          assert r in refs;
        }
      }
    }
  }

  /** The warnings of a node list are exactly the messages for its
      (node, dependency) entries where both deadlines parse and the
      dependency's is strictly later; a missing or unreadable deadline on
      either side, or equal deadlines, yield nothing. */
  lemma DeadlineWarningsExact(nodes: seq<Node>, i: nat, d: string)
    requires i < |nodes| && d in nodes[i].dependsOn
    ensures var byId := NodeById(nodes);
            var r := DepRef(nodes[i], d);
            Contradicts(r, byId) ==> WarningFor(r, byId) in DeadlineWarnings(nodes)
    ensures var byId := NodeById(nodes);
            ParseDate(nodes[i].deadline).None? || d !in byId || ParseDate(byId[d].deadline).None?
            || ParseDate(byId[d].deadline) == ParseDate(nodes[i].deadline)
            ==> !Contradicts(DepRef(nodes[i], d), byId)
    ensures forall w :: w in DeadlineWarnings(nodes) ==>
              exists r :: r in DepRefs(nodes) && Contradicts(r, NodeById(nodes)) && w == WarningFor(r, NodeById(nodes))
  {
    var byId := NodeById(nodes);
    DepRefsMembers(nodes, DepRef(nodes[i], d));
    WarningsInExact(DepRefs(nodes), byId);
    var nd := ParseDate(nodes[i].deadline);
    if d in byId && nd.Some? && ParseDate(byId[d].deadline) == nd {
      AfterIsStrictTotalOrder(nd.value, nd.value, nd.value);
    }
  }

  /** The deadline check as the source runs it: a loop over the nodes that
      skips a node whose own deadline does not parse, and an inner loop over
      its dependencies. */
  method CheckDeadlineContradictions(nodes: seq<Node>, byId: map<string, Node>) returns (warnings: seq<string>)
    requires byId == NodeById(nodes)
    ensures warnings == DeadlineWarnings(nodes)
  {
    warnings := [];
    var i := 0;
    while i < |nodes|
      invariant 0 <= i <= |nodes|
      invariant warnings == WarningsIn(DepRefs(nodes[..i]), byId)
    {
      var node := nodes[i];
      ghost var before := DepRefs(nodes[..i]);
      DepRefsStep(nodes, i);
      var nodeDate := ParseDate(node.deadline);
      if nodeDate.None? {
        RefsOfDone(before, node);
        NoWarningsWithoutDeadline(before, node, byId, |node.dependsOn|);
        i := i + 1;
        continue;
      }
      warnings := CheckDependencies(node, nodeDate.value, byId, warnings, before);
      i := i + 1;
    }
    assert nodes[..i] == nodes;
  }

  /** The inner loop of the deadline check: one warning for each dependency
      of a node with a readable deadline whose own deadline is later. */
  method CheckDependencies(node: Node, nodeDate: Date, byId: map<string, Node>, warnings: seq<string>, ghost before: seq<DepRef>)
    returns (warnings': seq<string>)
    requires ParseDate(node.deadline) == Some(nodeDate)
    requires warnings == WarningsIn(before, byId)
    ensures warnings' == WarningsIn(before + RefsOf(node), byId)
  {
    RefsOfDone(before, node);
    warnings' := warnings;
    var k := 0;
    while k < |node.dependsOn|
      invariant 0 <= k <= |node.dependsOn|
      invariant warnings' == WarningsIn(before + RefsOf(node)[..k], byId)
    {
      var depId := node.dependsOn[k];
      RefsOfStep(before, node, k);
      WarningsInStep(before + RefsOf(node)[..k], DepRef(node, depId), byId);
      if depId in byId {
        var parentNode := byId[depId];
        var depDate := ParseDate(parentNode.deadline);
        if depDate.Some? && After(depDate.value, nodeDate) {
          warnings' := warnings' + [DeadlineMessage(depId, parentNode.deadline, node.id, node.deadline)];
        }
      }
      k := k + 1;
    }
  }

  /** A node whose own deadline does not parse contributes no warning. */
  lemma {:induction false} NoWarningsWithoutDeadline(prefix: seq<DepRef>, node: Node, byId: map<string, Node>, k: nat)
    requires ParseDate(node.deadline).None? && k <= |node.dependsOn|
    ensures WarningsIn(prefix + RefsOf(node)[..k], byId) == WarningsIn(prefix, byId)
  {
    if k > 0 {
      NoWarningsWithoutDeadline(prefix, node, byId, k - 1);
      var s := prefix + RefsOf(node)[..k];
      assert s[..|s| - 1] == prefix + RefsOf(node)[..k - 1];
    } else {
      assert prefix + RefsOf(node)[..0] == prefix;
    }
  }

  // ---------------------------------------------------------------------
  // The dependency graph: an edge from each dependency to its dependent
  // ---------------------------------------------------------------------

  /** The adjacency table built from references: for each dependency id the
      ids of the nodes that name it, in reference order. */
  function GraphOf(refs: seq<DepRef>): map<string, seq<string>> {
    if |refs| == 0 then map[]
    else
      var g := GraphOf(refs[..|refs| - 1]);
      var r := refs[|refs| - 1];
      g[r.dep := (if r.dep in g then g[r.dep] else []) + [r.node.id]]
  }

  lemma GraphOfStep(refs: seq<DepRef>, r: DepRef)
    ensures var g := GraphOf(refs);
            GraphOf(refs + [r]) == g[r.dep := (if r.dep in g then g[r.dep] else []) + [r.node.id]]
  {
    assert (refs + [r])[..|refs|] == refs;
  }

  function Graph(nodes: seq<Node>): map<string, seq<string>> {
    GraphOf(DepRefs(nodes))
  }

  predicate Edge(g: map<string, seq<string>>, u: string, v: string) {
    u in g && v in g[u]
  }

  /** The table holds an edge u -> v exactly when some reference has
      dependency u and belongs to node v. */
  lemma {:induction false} GraphOfEdges(refs: seq<DepRef>, u: string, v: string)
    ensures Edge(GraphOf(refs), u, v) <==> exists r :: r in refs && r.dep == u && r.node.id == v
  {
    if |refs| > 0 {
      var init := refs[..|refs| - 1];
      GraphOfEdges(init, u, v);
      assert refs == init + [refs[|refs| - 1]];
      if exists r :: r in refs && r.dep == u && r.node.id == v {
        var r :| r in refs && r.dep == u && r.node.id == v;
        if r != refs[|refs| - 1] {
          assert r in init;
        }
      }
    }
  }

  /** The graph of a node list has an edge u -> v exactly when a node with
      id v lists u among its dependencies; in particular every edge ends at
      an id of the list, so a dependency naming no node is a source that no
      edge reaches. */
  lemma GraphEdges(nodes: seq<Node>, u: string, v: string)
    ensures Edge(Graph(nodes), u, v) <==> exists i :: 0 <= i < |nodes| && nodes[i].id == v && u in nodes[i].dependsOn
    ensures Edge(Graph(nodes), u, v) ==> v in Ids(nodes)
  {
    GraphOfEdges(DepRefs(nodes), u, v);
    if Edge(Graph(nodes), u, v) {
      var r :| r in DepRefs(nodes) && r.dep == u && r.node.id == v;
      DepRefsMembers(nodes, r);
    }
    if exists i :: 0 <= i < |nodes| && nodes[i].id == v && u in nodes[i].dependsOn {
      var i :| 0 <= i < |nodes| && nodes[i].id == v && u in nodes[i].dependsOn;
      DepRefsMembers(nodes, DepRef(nodes[i], u));
    }
  }

  /** The loop that fills the adjacency table. */
  method BuildGraph(nodes: seq<Node>) returns (graph: map<string, seq<string>>)
    ensures graph == Graph(nodes)
  {
    graph := map[];
    var i := 0;
    while i < |nodes|
      invariant 0 <= i <= |nodes|
      invariant graph == GraphOf(DepRefs(nodes[..i]))
    {
      var node := nodes[i];
      ghost var before := DepRefs(nodes[..i]);
      RefsOfDone(before, node);
      DepRefsStep(nodes, i);
      var k := 0;
      while k < |node.dependsOn|
        invariant 0 <= k <= |node.dependsOn|
        invariant graph == GraphOf(before + RefsOf(node)[..k])
      {
        var depId := node.dependsOn[k];
        RefsOfStep(before, node, k);
        GraphOfStep(before + RefsOf(node)[..k], DepRef(node, depId));
        var dependents := if depId in graph then graph[depId] else [];
        graph := graph[depId := dependents + [node.id]];
        k := k + 1;
      }
      i := i + 1;
    }
    assert nodes[..i] == nodes;
  }

  // ---------------------------------------------------------------------
  // Paths and cycles
  // ---------------------------------------------------------------------

  /** A non-empty sequence of ids, each joined to the next by an edge. */
  ghost predicate IsPath(g: map<string, seq<string>>, p: seq<string>) {
    |p| >= 1 && forall i :: 0 <= i < |p| - 1 ==> Edge(g, p[i], p[i + 1])
  }

  /** No path of at least one edge returns to where it started. */
  ghost predicate Acyclic(g: map<string, seq<string>>) {
    forall p :: IsPath(g, p) && |p| >= 2 ==> p[0] != p[|p| - 1]
  }

  predicate NoDup(s: seq<string>) {
    forall i, j :: 0 <= i < j < |s| ==> s[i] != s[j]
  }

  /** Every edge out of an id of the sequence leads to an id that comes
      earlier in it: the order in which a search finishes its nodes. */
  ghost predicate Closed(g: map<string, seq<string>>, f: seq<string>) {
    forall i, v :: 0 <= i < |f| && Edge(g, f[i], v) ==> v in f[..i]
  }

  lemma {:induction false} ClosedDescends(g: map<string, seq<string>>, f: seq<string>, p: seq<string>, i: nat)
    requires Closed(g, f) && IsPath(g, p) && |p| >= 2
    requires i < |f| && p[0] == f[i]
    ensures p[|p| - 1] in f[..i]
    decreases |p|
  {
    assert Edge(g, p[0], p[1]);
    var j :| 0 <= j < i && f[j] == p[1];
    if |p| > 2 {
      ClosedDescends(g, f, p[1..], j);
      assert f[..j] <= f[..i];
    }
  }

  /** A graph whose edge targets are all listed in a finishing order without
      repetition has no cycle. */
  lemma ClosedAcyclic(g: map<string, seq<string>>, f: seq<string>)
    requires Closed(g, f) && NoDup(f)
    requires forall u, v :: Edge(g, u, v) ==> v in f
    ensures Acyclic(g)
  {
    forall p | IsPath(g, p) && |p| >= 2
      ensures p[0] != p[|p| - 1]
    {
      assert Edge(g, p[|p| - 2], p[|p| - 1]);
      if p[0] == p[|p| - 1] {
        var i :| 0 <= i < |f| && f[i] == p[0];
        ClosedDescends(g, f, p, i);
        assert false;
      }
    }
  }

  function CycleMessage(path: seq<string>): string {
    "Cycle detected: " + Join(path, " -> ")
  }

  /** A reported path: at least one edge long, every step an edge, every id
      a node of the list. */
  ghost predicate ReportPath(g: map<string, seq<string>>, ids: set<string>, p: seq<string>) {
    |p| >= 2 && IsPath(g, p) && forall x :: x in p ==> x in ids
  }

  /** The last id of the path also occurs before it, so the path ends on a
      cycle. */
  predicate EndsOnRepeat(p: seq<string>) {
    |p| >= 1 && p[|p| - 1] in p[..|p| - 1]
  }

  ghost predicate IsCycleReport(g: map<string, seq<string>>, ids: set<string>, e: string) {
    exists p :: ReportPath(g, ids, p) && e == CycleMessage(p)
  }

  ghost predicate IsGenuineCycleReport(g: map<string, seq<string>>, ids: set<string>, e: string) {
    exists p :: ReportPath(g, ids, p) && EndsOnRepeat(p) && e == CycleMessage(p)
  }

  predicate SuccessorsIn(g: map<string, seq<string>>, ids: set<string>) {
    forall u, v :: u in g && v in g[u] ==> v in ids
  }

  /**
   * The state of the depth-first search: the visited set, the recursion
   * stack, and the messages reported so far. A branch that reports a cycle
   * returns at once without taking its nodes off the stack, so after the
   * first report the stack may hold nodes of finished branches.
   */
  /** Report j of the search came from the root at position rootOf[j],
      below bound, and its path starts at that root; the positions increase
      from report to report. */
  ghost predicate RootsOf(reports: seq<seq<string>>, roots: seq<string>, rootOf: seq<nat>, bound: int) {
    && bound <= |roots|
    && |rootOf| == |reports|
    && (forall j :: 0 <= j < |rootOf| ==> rootOf[j] < bound && |reports[j]| > 0 && reports[j][0] == roots[rootOf[j]])
    && (forall j, k :: 0 <= j < k < |rootOf| ==> rootOf[j] < rootOf[k])
  }

  lemma RootsOfWiden(reports: seq<seq<string>>, roots: seq<string>, rootOf: seq<nat>, i: int)
    requires RootsOf(reports, roots, rootOf, i) && i < |roots|
    ensures RootsOf(reports, roots, rootOf, i + 1)
  {
  }

  lemma RootsOfExtend(before: seq<seq<string>>, after: seq<seq<string>>, roots: seq<string>, rootOf: seq<nat>, i: nat)
    requires RootsOf(before, roots, rootOf, i) && i < |roots|
    requires before <= after && |after| == |before| + 1 && [roots[i]] <= after[|before|]
    ensures RootsOf(after, roots, rootOf + [i], i + 1)
  {
    assert after[|before|][0] == roots[i];
  }

  class CycleSearch {
    const graph: map<string, seq<string>>
    ghost const ids: set<string>
    var visited: set<string>
    var onStack: set<string>
    var errors: seq<string>
    /** The path behind each message. */
    ghost var reports: seq<seq<string>>
    /** The nodes whose search ended without a report, in that order. */
    ghost var finished: seq<string>

    ghost predicate Valid()
      reads this
    {
      && SuccessorsIn(graph, ids)
      && visited <= ids
      && onStack <= visited
      && |errors| == |reports|
      && (forall j :: 0 <= j < |reports| ==> errors[j] == CycleMessage(reports[j]) && ReportPath(graph, ids, reports[j]))
      && (forall x :: x in finished ==> x in visited && x !in onStack)
      && NoDup(finished)
      && (errors == [] ==> Closed(graph, finished) && forall x :: x in visited && x !in onStack ==> x in finished)
      && (errors != [] ==> !Acyclic(graph) && EndsOnRepeat(reports[0]))
    }

    constructor (graph: map<string, seq<string>>, ghost ids: set<string>)
      requires SuccessorsIn(graph, ids)
      ensures Valid()
      ensures this.graph == graph && this.ids == ids
      ensures visited == {} && onStack == {} && errors == []
    {
      this.graph := graph;
      this.ids := ids;
      visited := {};
      onStack := {};
      errors := [];
      reports := [];
      finished := [];
    }

    /** The loop over the roots: a search from each root not yet visited,
        in order. Afterwards the messages are empty exactly when the graph
        has no cycle, and each root has added at most one message: message j
        comes from the root at position rootOf[j], its path starts there,
        and the positions increase from message to message. */
    method SearchFromEach(roots: seq<string>) returns (ghost rootOf: seq<nat>)
      requires Valid() && errors == [] && onStack == {}
      requires forall x :: x in roots <==> x in ids
      modifies this
      ensures Valid()
      ensures errors == [] <==> Acyclic(graph)
      ensures |errors| <= |roots|
      ensures RootsOf(reports, roots, rootOf, |roots|)
    {
      rootOf := [];
      var i := 0;
      while i < |roots|
        invariant 0 <= i <= |roots|
        invariant Valid()
        invariant forall j :: 0 <= j < i ==> roots[j] in visited
        invariant errors == [] ==> onStack == {}
        invariant |errors| <= i
        invariant RootsOf(reports, roots, rootOf, i)
      {
        rootOf := SearchRoot(roots, i, rootOf);
        i := i + 1;
      }
      if errors == [] {
        assert forall x :: x in ids ==> x in visited;
        ClosedAcyclic(graph, finished);
      }
    }

    /** One pass of the loop over the roots: a search from the root at
        position i unless it was visited already. */
    method SearchRoot(roots: seq<string>, i: nat, ghost rootOf: seq<nat>) returns (ghost rootOf': seq<nat>)
      requires Valid()
      requires i < |roots| && roots[i] in ids
      requires forall j :: 0 <= j < i ==> roots[j] in visited
      requires errors == [] ==> onStack == {}
      requires |errors| <= i
      requires RootsOf(reports, roots, rootOf, i)
      modifies this
      ensures Valid()
      ensures forall j :: 0 <= j < i + 1 ==> roots[j] in visited
      ensures errors == [] ==> onStack == {}
      ensures |errors| <= i + 1
      ensures RootsOf(reports, roots, rootOf', i + 1)
    {
      if roots[i] !in visited {
        rootOf' := SearchNewRoot(roots, i, rootOf);
      } else {
        rootOf' := rootOf;
        RootsOfWiden(reports, roots, rootOf, i);
      }
    }

    /** The search from an unvisited root; a report it makes is recorded as
        coming from position i. */
    method SearchNewRoot(roots: seq<string>, i: nat, ghost rootOf: seq<nat>) returns (ghost rootOf': seq<nat>)
      requires Valid()
      requires i < |roots| && roots[i] in ids && roots[i] !in visited
      requires errors == [] ==> onStack == {}
      requires RootsOf(reports, roots, rootOf, i)
      modifies this
      ensures Valid()
      ensures old(visited) + {roots[i]} <= visited
      ensures errors == [] ==> onStack == {}
      ensures |errors| <= |old(errors)| + 1
      ensures RootsOf(reports, roots, rootOf', i + 1)
    {
      assert IsPath(graph, [] + [roots[i]]);
      ghost var before := reports;
      var found := HasCycle(roots[i], []);
      if found {
        assert [] + [roots[i]] == [roots[i]];
        RootsOfExtend(before, reports, roots, rootOf, i);
        rootOf' := rootOf + [i];
      } else {
        RootsOfWiden(reports, roots, rootOf, i);
        rootOf' := rootOf;
      }
    }

    /**
     * Searches from n, reached along path. Returns true, having appended
     * exactly one message, at the first edge into a node on the recursion
     * stack found in n's subtree; otherwise returns false having taken n
     * off the stack again.
     */
    method HasCycle(n: string, path: seq<string>) returns (found: bool)
      requires Valid()
      requires n in ids && n !in visited
      requires forall x :: x in path ==> x in visited
      requires IsPath(graph, path + [n])
      requires errors == [] ==> forall x :: x in onStack <==> x in path
      modifies this
      ensures Valid()
      ensures old(visited) + {n} <= visited
      ensures old(finished) <= finished
      ensures !found ==> errors == old(errors) && reports == old(reports) && onStack == old(onStack)
      ensures found ==> |reports| == |old(reports)| + 1 && old(reports) <= reports && old(errors) <= errors
      ensures found ==> path + [n] <= reports[|reports| - 1]
      decreases ids - visited, 0
    {
      Enter(n);
      found := SearchSuccessors(path + [n]);
      if !found {
        Leave(n);
      }
    }

    /** The loop over the successors of q's last node, in table order; it
        stops at the first successor whose search reports a cycle. */
    method SearchSuccessors(q: seq<string>) returns (found: bool)
      requires Valid()
      requires |q| >= 1 && IsPath(graph, q)
      requires forall x :: x in q ==> x in visited
      requires q[|q| - 1] in onStack && q[|q| - 1] !in finished
      requires errors == [] ==> forall x :: x in onStack <==> x in q
      modifies this
      ensures Valid()
      ensures old(visited) <= visited
      ensures old(finished) <= finished
      ensures !found ==> errors == old(errors) && reports == old(reports) && onStack == old(onStack)
      ensures !found && errors == [] ==> forall v :: Edge(graph, q[|q| - 1], v) ==> v in finished
      ensures found ==> |reports| == |old(reports)| + 1 && old(reports) <= reports && old(errors) <= errors
      ensures found ==> q <= reports[|reports| - 1]
      decreases ids - visited, 2
    {
      var n := q[|q| - 1];
      var succ := if n in graph then graph[n] else [];
      var k := 0;
      while k < |succ|
        invariant 0 <= k <= |succ|
        invariant Valid()
        invariant old(visited) <= visited
        invariant old(finished) <= finished
        invariant errors == old(errors) && reports == old(reports) && onStack == old(onStack)
        invariant forall x :: x in q ==> x in visited
        invariant errors == [] ==> forall j :: 0 <= j < k ==> succ[j] in finished
      {
        found := Visit(q, succ[k]);
        if found {
          return;
        }
        k := k + 1;
      }
      if errors == [] {
        forall v | Edge(graph, n, v) ensures v in finished {
          var j :| 0 <= j < |succ| && succ[j] == v;
        }
      }
      found := false;
    }

    /** One step of the search: the edge from the end of q, the node being
        searched, to m. An unvisited m is searched in turn; an m on the
        recursion stack is reported; any other m is already done. */
    method Visit(q: seq<string>, m: string) returns (found: bool)
      requires Valid()
      requires |q| >= 1 && IsPath(graph, q) && Edge(graph, q[|q| - 1], m)
      requires forall x :: x in q ==> x in visited
      requires q[|q| - 1] in onStack
      requires errors == [] ==> forall x :: x in onStack <==> x in q
      modifies this
      ensures Valid()
      ensures old(visited) <= visited
      ensures old(finished) <= finished
      ensures !found ==> errors == old(errors) && reports == old(reports) && onStack == old(onStack)
      ensures !found && errors == [] ==> m in finished
      ensures found ==> |reports| == |old(reports)| + 1 && old(reports) <= reports && old(errors) <= errors
      ensures found ==> q <= reports[|reports| - 1]
      decreases ids - visited, 1
    {
      IsPathExtend(graph, q, m);
      if m !in visited {
        assert q[..|q| - 1] + [q[|q| - 1]] == q;
        found := HasCycle(m, q);
        if found {
          assert q <= q + [m];
        }
      } else if m in onStack {
        RecordCycle(q, m);
        found := true;
      } else {
        found := false;
      }
    }

    /** Marks n visited and pushes it on the recursion stack. */
    method Enter(n: string)
      requires Valid() && n in ids && n !in visited
      modifies this`visited, this`onStack
      ensures Valid()
      ensures visited == old(visited) + {n} && onStack == old(onStack) + {n}
    {
      visited := visited + {n};
      onStack := onStack + {n};
    }

    /** Appends the message for the path q followed by m, where the end of q
        has an edge into m and m is on the recursion stack. */
    method RecordCycle(q: seq<string>, m: string)
      requires Valid()
      requires |q| >= 1 && IsPath(graph, q + [m])
      requires forall x :: x in q + [m] ==> x in visited
      requires errors == [] ==> m in q
      modifies this`errors, this`reports
      ensures Valid()
      ensures reports == old(reports) + [q + [m]] && errors == old(errors) + [CycleMessage(q + [m])]
    {
      if errors == [] {
        FirstReportIsCycle(graph, q, m);
      }
      errors := errors + [CycleMessage(q + [m])];
      reports := reports + [q + [m]];
    }

    /** Pops n off the recursion stack once all its successors are done. */
    method Leave(n: string)
      requires Valid() && n in onStack
      requires errors == [] ==> forall v :: Edge(graph, n, v) ==> v in finished
      modifies this`onStack, this`finished
      ensures Valid()
      ensures onStack == old(onStack) - {n} && finished == old(finished) + [n]
    {
      if errors == [] {
        ClosedExtend(graph, finished, n);
      }
      onStack := onStack - {n};
      finished := finished + [n];
    }
  }

  lemma IsPathExtend(g: map<string, seq<string>>, p: seq<string>, m: string)
    requires IsPath(g, p) && Edge(g, p[|p| - 1], m)
    ensures IsPath(g, p + [m]) && (p + [m])[..|p|] == p
  {
  }

  /** When the recursion stack is exactly the path q, an edge from the end of
      q back into q closes a cycle. */
  lemma FirstReportIsCycle(g: map<string, seq<string>>, q: seq<string>, m: string)
    requires IsPath(g, q + [m]) && m in q
    ensures !Acyclic(g) && EndsOnRepeat(q + [m])
  {
    var j :| 0 <= j < |q| && q[j] == m;
    var c := (q + [m])[j..];
    assert IsPath(g, c) && |c| >= 2 && c[0] == c[|c| - 1];
    assert (q + [m])[..|q|] == q;
  }

  lemma ClosedExtend(g: map<string, seq<string>>, f: seq<string>, n: string)
    requires Closed(g, f)
    requires forall v :: Edge(g, n, v) ==> v in f
    ensures Closed(g, f + [n])
  {
    var f' := f + [n];
    forall i, v | 0 <= i < |f'| && Edge(g, f'[i], v) ensures v in f'[..i] {
      if i < |f| {
        assert f'[..i] == f[..i];
      } else {
        assert f'[..i] == f;
      }
    }
  }

  /** Message j reports a path that starts at the id of node rootOf[j], and
      the node positions strictly increase from message to message. */
  ghost predicate FromRoots(g: map<string, seq<string>>, nodes: seq<Node>, errors: seq<string>, rootOf: seq<nat>) {
    && |rootOf| == |errors|
    && (forall j :: 0 <= j < |errors| ==>
         && rootOf[j] < |nodes|
         && exists p :: ReportPath(g, Ids(nodes), p) && p[0] == nodes[rootOf[j]].id && errors[j] == CycleMessage(p))
    && (forall j, k :: 0 <= j < k < |errors| ==> rootOf[j] < rootOf[k])
  }

  /**
   * The cycle check: a search from every node not yet visited, in list
   * order. It reports nothing exactly when the graph has no cycle; it
   * reports at most one message per node used as a root, in list order;
   * every reported path runs along edges between ids of the list,
   * starting at its root; and the first report ends on a node repeated
   * earlier in its path.
   */
  method DetectCycles(nodes: seq<Node>) returns (errors: seq<string>)
    ensures errors == [] <==> Acyclic(Graph(nodes))
    ensures |errors| <= |nodes|
    ensures forall j :: 0 <= j < |errors| ==> IsCycleReport(Graph(nodes), Ids(nodes), errors[j])
    ensures exists rootOf :: FromRoots(Graph(nodes), nodes, errors, rootOf)
    ensures errors != [] ==> IsGenuineCycleReport(Graph(nodes), Ids(nodes), errors[0])
  {
    var graph := BuildGraph(nodes);
    forall u, v | u in graph && v in graph[u] ensures v in Ids(nodes) {
      GraphEdges(nodes, u, v);
    }
    var search := new CycleSearch(graph, Ids(nodes));
    var roots := seq(|nodes|, i requires 0 <= i < |nodes| => nodes[i].id);
    forall x ensures x in roots <==> x in Ids(nodes) {
      if x in Ids(nodes) {
        var i :| 0 <= i < |nodes| && nodes[i].id == x;
        assert roots[i] == x;
      }
    }
    ghost var rootOf := search.SearchFromEach(roots);
    errors := search.errors;
    forall j | 0 <= j < |errors|
      ensures rootOf[j] < |nodes| && exists p :: ReportPath(graph, Ids(nodes), p) && p[0] == nodes[rootOf[j]].id && errors[j] == CycleMessage(p)
    {
      assert ReportPath(graph, Ids(nodes), search.reports[j]);
    }
    assert FromRoots(graph, nodes, errors, rootOf);
    forall j | 0 <= j < |errors| ensures IsCycleReport(graph, Ids(nodes), errors[j]) {
      assert ReportPath(graph, Ids(nodes), search.reports[j]);
    }
    if errors != [] {
      assert ReportPath(graph, Ids(nodes), search.reports[0]) && EndsOnRepeat(search.reports[0]);
    }
  }

  // ---------------------------------------------------------------------
  // The whole validation
  // ---------------------------------------------------------------------

  /**
   * Runs the three checks in order. The errors are the referential-integrity
   * messages, in node-then-dependency order, followed by the cycle
   * messages; the warnings are the deadline messages; the report is valid
   * exactly when there are no errors, that is when every dependency names a
   * node and the graph has no cycle.
   */
  method ValidateWorkflow(nodes: seq<Node>) returns (report: Report)
    ensures report.valid <==> report.errors == []
    ensures report.valid <==> AllDependenciesExist(nodes) && Acyclic(Graph(nodes))
    ensures MissingDependencyErrors(nodes) <= report.errors
    ensures forall j :: |MissingDependencyErrors(nodes)| <= j < |report.errors| ==>
              IsCycleReport(Graph(nodes), Ids(nodes), report.errors[j])
    ensures report.warnings == DeadlineWarnings(nodes)
  {
    var errors := [];
    var warnings := [];
    var byId := NodeById(nodes);

    var i := 0;
    while i < |nodes|
      invariant 0 <= i <= |nodes|
      invariant errors == MissingIn(DepRefs(nodes[..i]), Ids(nodes))
    {
      var node := nodes[i];
      ghost var before := DepRefs(nodes[..i]);
      RefsOfDone(before, node);
      DepRefsStep(nodes, i);
      var k := 0;
      while k < |node.dependsOn|
        invariant 0 <= k <= |node.dependsOn|
        invariant errors == MissingIn(before + RefsOf(node)[..k], Ids(nodes))
      {
        var depId := node.dependsOn[k];
        RefsOfStep(before, node, k);
        MissingInStep(before + RefsOf(node)[..k], DepRef(node, depId), Ids(nodes));
        if depId !in byId {
          errors := errors + [MissingMessage(node.id, depId)];
        }
        k := k + 1;
      }
      i := i + 1;
    }
    assert nodes[..i] == nodes;
    ghost var missing := errors;

    var cycleErrors := DetectCycles(nodes);
    errors := errors + cycleErrors;

    var deadlineWarnings := CheckDeadlineContradictions(nodes, byId);
    warnings := warnings + deadlineWarnings;

    MissingErrorsEmptyIff(nodes);
    assert missing <= errors;
    report := Report(|errors| == 0, errors, warnings);
  }
}
