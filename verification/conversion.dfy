/**
 * The two record shapes of the workflow tool and the conversions between
 * them: a stored workflow node (with its dependency list and deadline) and
 * the task row the pages show (with a start, an end and one successor
 * field).  A node survives node -> task -> node except that only its first
 * dependency is kept; a task survives task -> node -> task except that its
 * start becomes its end.
 */
module Conversion {
  import opened Validation

  /** A task row; a key missing from the stored record reads as "" or false. */
  datatype Task = Task(
    id: string,
    section: string,
    name: string,
    start: string,
    end: string,
    nextTo: string,
    doc: string,
    action: string,
    lesson: string,
    qmsPath: string,
    knowledgeDir: string,
    decision: bool)

  /** The task row shown for a node: the deadline is both start and end, the
      first dependency (if any) is the successor field, the note is the
      lesson. */
  function TaskOfNode(n: Node): Task {
    Task(
      n.id, n.section, n.displayLabel, n.deadline, n.deadline,
      if |n.dependsOn| > 0 then n.dependsOn[0] else "",
      n.doc, n.action, n.note, n.qmsPath, n.knowledgeDir, n.decision)
  }

  /** The node saved for a task row: the end is the deadline, a non-empty
      successor field is the only dependency, the lesson is the note. */
  function NodeOfTask(t: Task): Node {
    Node(
      t.id, t.name,
      if t.nextTo != "" then [t.nextTo] else [],
      t.end, t.lesson, t.section, t.doc, t.action, t.qmsPath, t.knowledgeDir, t.decision)
  }

  /** The dependency list a node keeps through the task form: its first entry
      when that is non-empty, else nothing. */
  function KeptDependencies(d: seq<string>): seq<string> {
    if |d| > 0 && d[0] != "" then [d[0]] else []
  }

  /** node -> task -> node changes nothing but the dependency list, and that
      only when the node has more than one dependency or an empty one. */
  lemma NodeTaskNode(n: Node)
    ensures NodeOfTask(TaskOfNode(n)) == n.(dependsOn := KeptDependencies(n.dependsOn))
    ensures NodeOfTask(TaskOfNode(n)) == n <==> (n.dependsOn == [] || (|n.dependsOn| == 1 && n.dependsOn[0] != ""))
  {
    if |n.dependsOn| == 1 && n.dependsOn[0] != "" {
      assert [n.dependsOn[0]] == n.dependsOn;
    }
  }

  /** task -> node -> task changes nothing but the start, which becomes the
      end. */
  lemma TaskNodeTask(t: Task)
    ensures TaskOfNode(NodeOfTask(t)) == t.(start := t.end)
    ensures TaskOfNode(NodeOfTask(t)) == t <==> t.start == t.end
  {
  }

  /** The task rows for the stored nodes, one per node, in order. */
  method LoadTasksFromNodes(nodes: seq<Node>) returns (tasks: seq<Task>)
    ensures |tasks| == |nodes|
    ensures forall i :: 0 <= i < |nodes| ==> tasks[i] == TaskOfNode(nodes[i])
  {
    tasks := [];
    for i := 0 to |nodes|
      invariant |tasks| == i
      invariant forall k :: 0 <= k < i ==> tasks[k] == TaskOfNode(nodes[k])
    {
      tasks := tasks + [TaskOfNode(nodes[i])];
    }
  }

  /** The nodes saved for the task rows, one per row, in order. */
  method NodesFromTasks(tasks: seq<Task>) returns (nodes: seq<Node>)
    ensures |nodes| == |tasks|
    ensures forall i :: 0 <= i < |tasks| ==> nodes[i] == NodeOfTask(tasks[i])
  {
    nodes := [];
    for i := 0 to |tasks|
      invariant |nodes| == i
      invariant forall k :: 0 <= k < i ==> nodes[k] == NodeOfTask(tasks[k])
    {
      nodes := nodes + [NodeOfTask(tasks[i])];
    }
  }
}
