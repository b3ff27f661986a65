/**
Validate (pkg/workflowspec/definition.go), as far as the graph checks and what they rely on: node ids,
dependency references, unconditional cycles and loops, in that order.
*/
module WorkflowValidation {
  import opened Wrappers
  import opened Digraph
  import opened WorkflowDefinition
  import opened CycleDetection
  import opened LoopValidation

  datatype DefinitionError =
    | EmptyNodeID
    | DuplicateNodeID(node: ID)
    | SelfDependency(node: ID)
    | UnknownDependency(node: ID, source: ID)
    | InvalidWhen(node: ID, when: string)
    | Circular(report: Report)
    | Loops(error: LoopError)

  predicate WhensValid(d: Definition, whenValid: string -> bool) {
    forall i, k :: 0 <= i < |d.nodes| && 0 <= k < |d.nodes[i].depends| ==>
      d.nodes[i].depends[k].when == "" || whenValid(d.nodes[i].depends[k].when)
  }

  predicate DependencyValid(d: Definition, n: Node, dep: Dependency, whenValid: string -> bool) {
    && !(dep.nodeID == n.id && dep.when == "")
    && dep.nodeID in IDs(d.nodes)
    && (dep.when == "" || whenValid(dep.when))
  }

  method CheckNodeIDs(d: Definition) returns (err: Option<DefinitionError>)
    ensures err.Some? ==> err.value.EmptyNodeID? || err.value.DuplicateNodeID?
    ensures err.None? <==> DistinctIDs(d.nodes) && forall i :: 0 <= i < |d.nodes| ==> d.nodes[i].id != NO_ID
  {
    var ids: set<ID> := {};
    for n := 0 to |d.nodes|
      invariant ids == IDs(d.nodes[..n])
      invariant forall i :: 0 <= i < n ==> d.nodes[i].id != NO_ID
      invariant forall i, j :: 0 <= i < j < n ==> d.nodes[i].id != d.nodes[j].id
    {
      var id := d.nodes[n].id;
      if id == NO_ID { return Some(EmptyNodeID); }
      if id in ids {
        var i := IndexOfID(d.nodes[..n], id);
        assert d.nodes[i].id == d.nodes[n].id;
        return Some(DuplicateNodeID(id));
      }
      forall i | 0 <= i < n ensures d.nodes[i].id != id { IDIn(d.nodes[..n], i); }
      assert d.nodes[..n + 1][..n] == d.nodes[..n];
      ids := ids + {id};
    }
    err := None;
  }

  method CheckDependencies(d: Definition, whenValid: string -> bool) returns (err: Option<DefinitionError>)
    ensures err.Some? ==> err.value.SelfDependency? || err.value.UnknownDependency? || err.value.InvalidWhen?
    ensures err.None? <==>
              forall i, k :: 0 <= i < |d.nodes| && 0 <= k < |d.nodes[i].depends| ==>
                DependencyValid(d, d.nodes[i], d.nodes[i].depends[k], whenValid)
  {
    var ids := IDs(d.nodes);
    for i := 0 to |d.nodes|
      invariant forall i', k :: 0 <= i' < i && 0 <= k < |d.nodes[i'].depends| ==>
                  DependencyValid(d, d.nodes[i'], d.nodes[i'].depends[k], whenValid)
    {
      var node := d.nodes[i];
      for k := 0 to |node.depends|
        invariant forall k' :: 0 <= k' < k ==> DependencyValid(d, node, node.depends[k'], whenValid)
      {
        var dep := node.depends[k];
        assert !DependencyValid(d, node, dep, whenValid) ==>
            !DependencyValid(d, d.nodes[i], d.nodes[i].depends[k], whenValid);
        if dep.nodeID == node.id && dep.when == "" { return Some(SelfDependency(node.id)); }
        if dep.nodeID !in ids { return Some(UnknownDependency(node.id, dep.nodeID)); }
        if dep.when != "" && !whenValid(dep.when) { return Some(InvalidWhen(node.id, dep.when)); }
      }
    }
    err := None;
  }

  lemma NodeReferencesValidIff(d: Definition, n: Node)
    ensures Edges(n, true) <= IDs(d.nodes) && n.id !in Edges(n, false) <==>
            forall k :: 0 <= k < |n.depends| ==>
              n.depends[k].nodeID in IDs(d.nodes) && !(n.depends[k].nodeID == n.id && n.depends[k].when == "")
  {
    hide EdgesUpTo, IDs;
    var e := |n.depends|;
    if Edges(n, true) <= IDs(d.nodes) && n.id !in Edges(n, false) {
      forall k | 0 <= k < e
        ensures n.depends[k].nodeID in IDs(d.nodes) && !(n.depends[k].nodeID == n.id && n.depends[k].when == "") {
        EdgeIn(n, true, e, k);
        if n.depends[k].when == "" { EdgeIn(n, false, e, k); }
      }
    } else if n.id in Edges(n, false) {
      var k := EdgeFrom(n, false, e, n.id);
    } else {
      var u :| u in Edges(n, true) && u !in IDs(d.nodes);
      var k := EdgeFrom(n, true, e, u);
    }
  }

  lemma ReferencesValidIff(d: Definition, whenValid: string -> bool)
    requires DistinctIDs(d.nodes) && forall i :: 0 <= i < |d.nodes| ==> d.nodes[i].id != NO_ID
    ensures ReferencesValid(d) && WhensValid(d, whenValid) <==>
            forall i, k :: 0 <= i < |d.nodes| && 0 <= k < |d.nodes[i].depends| ==>
              DependencyValid(d, d.nodes[i], d.nodes[i].depends[k], whenValid)
  {
    hide Edges, IDs;
    forall i | 0 <= i < |d.nodes|
      ensures (Edges(d.nodes[i], true) <= IDs(d.nodes) && d.nodes[i].id !in Edges(d.nodes[i], false)) <==>
              forall k :: 0 <= k < |d.nodes[i].depends| ==>
                && d.nodes[i].depends[k].nodeID in IDs(d.nodes)
                && !(d.nodes[i].depends[k].nodeID == d.nodes[i].id && d.nodes[i].depends[k].when == "") {
      NodeReferencesValidIff(d, d.nodes[i]);
    }
  }

  /** Validate accepts exactly the definitions with proper references, no unconditional cycle and valid
      loops; a cycle is always reported with an explicit path. */
  method Validate(d: Definition, whenValid: string -> bool) returns (err: Option<DefinitionError>)
    ensures err.None? <==>
              && ReferencesValid(d) && WhensValid(d, whenValid)
              && Acyclic(Unconditional(d))
              && LoopsValid(d)
    ensures err.Some? && err.value.Circular? ==>
              err.value.report.CyclePath? && SimpleCycle(Declared(d), err.value.report.path)
    ensures err.Some? && err.value.Loops? ==> Justified(d, err.value.error)
  {
    err := CheckNodeIDs(d);
    if err.Some? { return; }
    err := CheckDependencies(d, whenValid);
    ReferencesValidIff(d, whenValid);
    if err.Some? { return; }
    var report, _ := DetectCycle(d);
    if !report.NoCycle? { return Some(Circular(report)); }
    var e := ValidateLoops(d);
    if e.Some? { return Some(Loops(e.value)); }
    err := None;
  }

  /** An accepted definition can be run: its nodes have an order in which every unconditional dependency
      comes first. */
  lemma AcceptedDefinitionHasOrder(d: Definition) returns (order: seq<ID>)
    requires ReferencesValid(d) && Acyclic(Unconditional(d))
    ensures Distinct(order) && Elems(order) == IDs(d.nodes) && Ordered(Unconditional(d), order)
  {
    UnconditionalClosed(d);
    order := AcyclicHasOrder(Unconditional(d), []);
  }
}
