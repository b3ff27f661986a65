/** The part of a workflow definition (pkg/workflowspec/definition.go) that its graph checks look at. */
module WorkflowDefinition {
  import opened Digraph

  /** A node or loop id. */
  datatype ID = ID(name: string)

  const NO_ID := ID("")

  /** An incoming edge; an edge with a `when` is conditional. */
  datatype Dependency = Dependency(nodeID: ID, when: string, countsLoop: ID, resetsLoop: ID)

  datatype Node = Node(id: ID, depends: seq<Dependency>)

  datatype Loop = Loop(id: ID, nodes: seq<ID>, parent: ID, maxIterations: int, onExhausted: ID)

  datatype Definition = Definition(nodes: seq<Node>, loops: seq<Loop>)

  function IDs(nodes: seq<Node>): set<ID> {
    if nodes == [] then {} else IDs(nodes[..|nodes| - 1]) + {nodes[|nodes| - 1].id}
  }

  predicate DistinctIDs(nodes: seq<Node>) {
    forall i, j :: 0 <= i < j < |nodes| ==> nodes[i].id != nodes[j].id
  }

  /** The nodes that the first k edges to n come from, or the unconditional ones among them. */
  function EdgesUpTo(n: Node, all: bool, k: nat): set<ID>
    requires k <= |n.depends|
  {
    if k == 0 then {}
    else
      var dep := n.depends[k - 1];
      EdgesUpTo(n, all, k - 1) + if all || dep.when == "" then {dep.nodeID} else {}
  }

  /** The nodes that edges to n come from: those of all its edges, or of the unconditional ones. */
  function Edges(n: Node, all: bool): set<ID> {
    EdgesUpTo(n, all, |n.depends|)
  }

  lemma {:induction false} EdgeIn(n: Node, all: bool, k: nat, j: nat)
    requires j < k <= |n.depends| && (all || n.depends[j].when == "")
    ensures n.depends[j].nodeID in EdgesUpTo(n, all, k)
  {
    if j < k - 1 { EdgeIn(n, all, k - 1, j); }
  }

  lemma {:induction false} EdgeFrom(n: Node, all: bool, k: nat, u: ID) returns (j: nat)
    requires k <= |n.depends| && u in EdgesUpTo(n, all, k)
    ensures j < k && n.depends[j].nodeID == u && (all || n.depends[j].when == "")
  {
    var dep := n.depends[k - 1];
    if (all || dep.when == "") && dep.nodeID == u {
      j := k - 1;
    } else {
      j := EdgeFrom(n, all, k - 1, u);
    }
  }

  lemma {:induction false} UnconditionalAreEdges(n: Node, k: nat)
    requires k <= |n.depends|
    ensures EdgesUpTo(n, false, k) <= EdgesUpTo(n, true, k)
  {
    if k > 0 { UnconditionalAreEdges(n, k - 1); }
  }

  /** What Validate establishes before the graph checks run. */
  predicate ReferencesValid(d: Definition) {
    && DistinctIDs(d.nodes)
    && (forall i :: 0 <= i < |d.nodes| ==> d.nodes[i].id != NO_ID)
    && (forall i :: 0 <= i < |d.nodes| ==> Edges(d.nodes[i], true) <= IDs(d.nodes))
    && (forall i :: 0 <= i < |d.nodes| ==> d.nodes[i].id !in Edges(d.nodes[i], false))
  }

  ghost function GraphOf(nodes: seq<Node>, all: bool): (g: Graph<ID>)
    ensures g.Keys == IDs(nodes)
  {
    if nodes == [] then map[]
    else
      var n := nodes[|nodes| - 1];
      GraphOf(nodes[..|nodes| - 1], all)[n.id := Edges(n, all)]
  }

  /** The graph of unconditional edges. */
  ghost function Unconditional(d: Definition): Graph<ID> {
    GraphOf(d.nodes, false)
  }

  /** The graph of all edges, conditional ones included. */
  ghost function Declared(d: Definition): Graph<ID> {
    GraphOf(d.nodes, true)
  }

  lemma {:induction false} GraphAt(nodes: seq<Node>, all: bool, i: nat)
    requires DistinctIDs(nodes) && i < |nodes|
    ensures nodes[i].id in IDs(nodes) && GraphOf(nodes, all)[nodes[i].id] == Edges(nodes[i], all)
  {
    if i < |nodes| - 1 {
      GraphAt(nodes[..|nodes| - 1], all, i);
    }
  }

  lemma {:induction false} IDIn(nodes: seq<Node>, i: nat)
    requires i < |nodes|
    ensures nodes[i].id in IDs(nodes)
  {
    if i < |nodes| - 1 {
      IDIn(nodes[..|nodes| - 1], i);
    }
  }

  lemma {:induction false} IndexOfID(nodes: seq<Node>, id: ID) returns (i: nat)
    requires id in IDs(nodes)
    ensures i < |nodes| && nodes[i].id == id
  {
    var n := |nodes| - 1;
    if nodes[n].id == id {
      i := n;
    } else {
      i := IndexOfID(nodes[..n], id);
    }
  }

  /** Every node is a vertex, and its edges stay among the nodes. */
  lemma GraphClosed(d: Definition, v: ID)
    requires ReferencesValid(d) && v in IDs(d.nodes)
    ensures Unconditional(d)[v] <= Declared(d)[v] <= IDs(d.nodes)
  {
    var i := IndexOfID(d.nodes, v);
    GraphAt(d.nodes, false, i);
    GraphAt(d.nodes, true, i);
    UnconditionalAreEdges(d.nodes[i], |d.nodes[i].depends|);
  }

  lemma {:induction false} IDsSize(nodes: seq<Node>)
    requires DistinctIDs(nodes)
    ensures |IDs(nodes)| == |nodes|
  {
    if nodes != [] {
      var n := |nodes| - 1;
      IDsSize(nodes[..n]);
      if nodes[n].id in IDs(nodes[..n]) {
        var i := IndexOfID(nodes[..n], nodes[n].id);
      }
    }
  }

  /** Which nodes a node waits for: those of its dependencies without a condition; and which it depends on: all of them. */
  lemma WaitsFor(d: Definition, i: nat, u: ID)
    requires DistinctIDs(d.nodes) && i < |d.nodes|
    ensures d.nodes[i].id in Unconditional(d) && d.nodes[i].id in Declared(d)
    ensures u in Unconditional(d)[d.nodes[i].id] <==>
            exists k :: 0 <= k < |d.nodes[i].depends| && d.nodes[i].depends[k].nodeID == u
                        && d.nodes[i].depends[k].when == ""
    ensures u in Declared(d)[d.nodes[i].id] <==>
            exists k :: 0 <= k < |d.nodes[i].depends| && d.nodes[i].depends[k].nodeID == u
  {
    var n := d.nodes[i];
    GraphAt(d.nodes, false, i);
    GraphAt(d.nodes, true, i);
    EdgesMean(n, false, u);
    EdgesMean(n, true, u);
  }

  lemma EdgesMean(n: Node, all: bool, u: ID)
    ensures u in Edges(n, all) <==>
            exists k :: 0 <= k < |n.depends| && n.depends[k].nodeID == u && (all || n.depends[k].when == "")
  {
    hide EdgesUpTo;
    if u in Edges(n, all) { var k := EdgeFrom(n, all, |n.depends|, u); }
    forall k | 0 <= k < |n.depends| && n.depends[k].nodeID == u && (all || n.depends[k].when == "")
      ensures u in Edges(n, all) {
      EdgeIn(n, all, |n.depends|, k);
    }
  }
}
