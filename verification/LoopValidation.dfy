/**
validateLoops (pkg/workflowspec/definition.go): accepts exactly the loop declarations that form a forest of
nested node sets with their counting edges inside and their fallbacks outside.
*/
module LoopValidation {
  import opened Wrappers
  import opened Digraph
  import opened WorkflowDefinition

  // ----- Parent chains -----

  type Loops = map<ID, Loop>

  /** The k-th ancestor of a loop, NO_ID beyond the outermost one. */
  function Ancestor(loops: Loops, id: ID, k: nat): ID {
    if k == 0 then id
    else
      var below := Ancestor(loops, id, k - 1);
      if below in loops then loops[below].parent else NO_ID
  }

  ghost predicate IsAncestor(loops: Loops, outer: ID, inner: ID) {
    exists k :: k >= 1 && Ancestor(loops, inner, k) == outer
  }

  ghost predicate Ends(loops: Loops, id: ID) {
    exists n: nat :: Ancestor(loops, id, n) == NO_ID
  }

  ghost predicate Related(loops: Loops, a: ID, b: ID) {
    IsAncestor(loops, a, b) || IsAncestor(loops, b, a)
  }

  ghost predicate NoParentCycle(loops: Loops) {
    forall id <- loops :: !IsAncestor(loops, id, id)
  }

  ghost predicate ParentsKnown(loops: Loops) {
    NO_ID !in loops && forall id <- loops :: loops[id].parent != NO_ID ==> loops[id].parent in loops
  }

  lemma {:induction false} AncestorAdd(loops: Loops, id: ID, i: nat, j: nat)
    ensures Ancestor(loops, id, i + j) == Ancestor(loops, Ancestor(loops, id, i), j)
  {
    if j > 0 { AncestorAdd(loops, id, i, j - 1); }
  }

  lemma {:induction false} AboveTheTop(loops: Loops, k: nat)
    requires NO_ID !in loops
    ensures Ancestor(loops, NO_ID, k) == NO_ID
  {
    if k > 0 { AboveTheTop(loops, k - 1); }
  }

  /** A chain that ends does not come back to where it started. */
  lemma {:induction false} EndingChainHasNoReturn(loops: Loops, id: ID, k: nat, n: nat)
    requires NO_ID !in loops && k >= 1
    requires Ancestor(loops, id, k) == id && Ancestor(loops, id, n) == NO_ID
    ensures id == NO_ID
    decreases n
  {
    if n >= k {
      AncestorAdd(loops, id, k, n - k);
      EndingChainHasNoReturn(loops, id, k, n - k);
    } else {
      AncestorAdd(loops, id, n, k - n);
      AboveTheTop(loops, k - n);
    }
  }

  /** A chain that meets an id twice goes round a cycle through it. */
  lemma RepeatIsCycle(loops: Loops, id: ID, i: nat, j: nat)
    requires i < j && Ancestor(loops, id, i) == Ancestor(loops, id, j)
    ensures IsAncestor(loops, Ancestor(loops, id, i), Ancestor(loops, id, i))
  {
    AncestorAdd(loops, id, i, j - i);
    assert Ancestor(loops, Ancestor(loops, id, i), j - i) == Ancestor(loops, id, i);
  }

  lemma {:induction false} ChainStaysInside(loops: Loops, id: ID, k: nat)
    requires ParentsKnown(loops) && id in loops
    ensures Ancestor(loops, id, k) == NO_ID || Ancestor(loops, id, k) in loops
  {
    if k > 0 { ChainStaysInside(loops, id, k - 1); }
  }

  lemma OnceEndedStaysEnded(loops: Loops, id: ID, i: nat, k: nat)
    requires NO_ID !in loops && i <= k && Ancestor(loops, id, i) == NO_ID
    ensures Ancestor(loops, id, k) == NO_ID
  {
    AncestorAdd(loops, id, i, k - i);
    AboveTheTop(loops, k - i);
  }

  lemma EndedFrom(loops: Loops, id: ID, i: nat, k: nat)
    requires NO_ID !in loops && Ancestor(loops, id, i) == NO_ID
    ensures k >= i ==> Ancestor(loops, id, k) == NO_ID
  {
    if k >= i { OnceEndedStaysEnded(loops, id, i, k); }
  }

  /** Without cycles a chain is no longer than the number of loops. */
  lemma ChainEnds(loops: Loops, id: ID)
    requires ParentsKnown(loops) && NoParentCycle(loops) && id in loops
    ensures Ancestor(loops, id, |loops|) == NO_ID
  {
    var n := |loops|;
    if Ancestor(loops, id, n) != NO_ID {
      var chain := seq(n + 1, k requires 0 <= k => Ancestor(loops, id, k));
      forall k | 0 <= k <= n ensures Ancestor(loops, id, k) in loops {
        ChainStaysInside(loops, id, k);
        if Ancestor(loops, id, k) == NO_ID { OnceEndedStaysEnded(loops, id, k, n); }
      }
      forall i, j | 0 <= i < j < |chain| ensures chain[i] != chain[j] {
        if chain[i] == chain[j] { RepeatIsCycle(loops, id, i, j); }
      }
      ElemsSize(chain);
      SubsetSize(Elems(chain), loops.Keys);
    }
  }

  lemma SubsetSize(a: set<ID>, b: set<ID>)
    requires a <= b
    ensures |a| <= |b|
  {
    assert |b - a| == |b| - |a|;
  }

  /** loopInChain: walks up without remembering where it has been, which ends because no chain is cyclic. */
  method LoopInChain(loop: Loop, target: ID, loops: Loops) returns (found: bool)
    requires ParentsKnown(loops) && NoParentCycle(loops)
    requires loop.id in loops && loops[loop.id] == loop && target != NO_ID
    ensures found <==> IsAncestor(loops, target, loop.id)
  {
    var cur := loop.parent;
    ghost var k := 1;
    ChainEnds(loops, loop.id);
    while cur != NO_ID
      invariant 1 <= k <= |loops| + 1 && cur == Ancestor(loops, loop.id, k)
      invariant forall i :: 1 <= i < k ==> Ancestor(loops, loop.id, i) != target
      decreases |loops| + 1 - k
    {
      if cur == target { return true; }
      if cur in loops {
        cur := loops[cur].parent;
      } else {
        cur := NO_ID;
      }
      EndedFrom(loops, loop.id, |loops|, k);
      k := k + 1;
    }
    forall i | i >= 1 ensures Ancestor(loops, loop.id, i) != target {
      if i >= k { OnceEndedStaysEnded(loops, loop.id, k, i); }
    }
    found := false;
  }

  method LoopsRelated(a: Loop, b: Loop, loops: Loops) returns (related: bool)
    requires ParentsKnown(loops) && NoParentCycle(loops)
    requires a.id in loops && loops[a.id] == a && b.id in loops && loops[b.id] == b
    ensures related <==> Related(loops, a.id, b.id)
  {
    related := LoopInChain(a, b.id, loops);
    if !related {
      related := LoopInChain(b, a.id, loops);
    }
  }

  method LoopContainsNode(loop: Loop, nodeID: ID) returns (found: bool)
    ensures found <==> nodeID in loop.nodes
  {
    for i := 0 to |loop.nodes|
      invariant nodeID !in loop.nodes[..i]
    {
      if loop.nodes[i] == nodeID { return true; }
    }
    found := false;
  }

  // ----- What an accepted definition looks like -----

  ghost predicate LoopShape(nodes: set<ID>, l: Loop) {
    && l.id != NO_ID
    && l.nodes != [] && Distinct(l.nodes) && Elems(l.nodes) <= nodes
    && l.maxIterations >= 0
    && (l.maxIterations == 0 ==> l.onExhausted == NO_ID)
    && (l.onExhausted != NO_ID ==> l.onExhausted in nodes)
  }

  ghost predicate LoopShapes(d: Definition) {
    && (forall i :: 0 <= i < |d.loops| ==> LoopShape(IDs(d.nodes), d.loops[i]))
    && (forall i, j :: 0 <= i < j < |d.loops| ==> d.loops[i].id != d.loops[j].id)
  }

  function LoopMap(loops: seq<Loop>): Loops {
    if loops == [] then map[]
    else
      var l := loops[|loops| - 1];
      LoopMap(loops[..|loops| - 1])[l.id := l]
  }

  ghost predicate InsideParent(loops: Loops, l: Loop) {
    l.parent != NO_ID ==> l.parent in loops && Elems(l.nodes) <= Elems(loops[l.parent].nodes)
  }

  /** The loops form a forest whose children lie inside their parents. */
  ghost predicate Forest(loops: Loops) {
    (forall id <- loops :: InsideParent(loops, loops[id])) && NoParentCycle(loops)
  }

  ghost predicate RelatedOrDisjoint(loops: Loops, a: Loop, b: Loop) {
    Related(loops, a.id, b.id) || Elems(a.nodes) !! Elems(b.nodes)
  }

  ghost predicate UnrelatedDisjoint(d: Definition) {
    forall i, j :: 0 <= i < j < |d.loops| ==> RelatedOrDisjoint(LoopMap(d.loops), d.loops[i], d.loops[j])
  }

  /** A counting edge lies inside its loop; a resetting edge leads into its loop; no edge does both. */
  ghost predicate EdgeInside(loops: Loops, n: Node, e: Dependency) {
    && (e.countsLoop == NO_ID || e.resetsLoop == NO_ID)
    && (e.countsLoop != NO_ID ==>
          e.countsLoop in loops && e.nodeID in loops[e.countsLoop].nodes && n.id in loops[e.countsLoop].nodes)
    && (e.resetsLoop != NO_ID ==> e.resetsLoop in loops && n.id in loops[e.resetsLoop].nodes)
  }

  ghost predicate EdgesInside(d: Definition) {
    forall i, k :: 0 <= i < |d.nodes| && 0 <= k < |d.nodes[i].depends| ==>
      EdgeInside(LoopMap(d.loops), d.nodes[i], d.nodes[i].depends[k])
  }

  ghost predicate Counted(d: Definition, loop: ID) {
    exists i, k :: 0 <= i < |d.nodes| && 0 <= k < |d.nodes[i].depends| && d.nodes[i].depends[k].countsLoop == loop
  }

  ghost predicate AllCounted(d: Definition) {
    forall i :: 0 <= i < |d.loops| ==> Counted(d, d.loops[i].id)
  }

  /** A fallback node belongs to no loop at all. */
  ghost predicate FallbacksOutside(d: Definition) {
    forall i, j :: 0 <= i < |d.loops| && 0 <= j < |d.loops| && d.loops[i].onExhausted != NO_ID ==>
      d.loops[i].onExhausted !in d.loops[j].nodes
  }

  ghost predicate LoopsValid(d: Definition) {
    && LoopShapes(d) && Forest(LoopMap(d.loops)) && UnrelatedDisjoint(d)
    && EdgesInside(d) && AllCounted(d) && FallbacksOutside(d)
  }

  // ----- What the errors say -----

  datatype LoopError =
    | EmptyID
    | DuplicateID(loop: ID)
    | EmptyNodes(loop: ID)
    | UnknownNode(loop: ID, node: ID)
    | DuplicateNode(loop: ID, node: ID)
    | NegativeIterations(loop: ID)
    | UnlimitedWithFallback(loop: ID)
    | UnknownFallback(loop: ID, node: ID)
    | UnknownParent(loop: ID, parent: ID)
    | ParentCycle(loop: ID, at: ID)
    | OutsideParent(loop: ID, node: ID)
    | SharedNode(loop: ID, other: ID, node: ID)
    | CountsAndResets(node: ID, source: ID)
    | UnknownEdgeLoop(node: ID, loop: ID)
    | EdgeOutsideLoop(node: ID, loop: ID)
    | NotCounted(loop: ID)
    | FallbackInLoop(loop: ID, node: ID, owner: ID)

  /** The error describes loop l of a definition whose nodes and loops are given. */
  ghost predicate Blames(nodes: set<ID>, loops: Loops, l: Loop, e: LoopError) {
    match e
    case EmptyNodes(x) => x == l.id && l.nodes == []
    case UnknownNode(x, v) => x == l.id && v in l.nodes && v !in nodes
    case DuplicateNode(x, v) => x == l.id && exists i, j :: 0 <= i < j < |l.nodes| && l.nodes[i] == l.nodes[j] == v
    case NegativeIterations(x) => x == l.id && l.maxIterations < 0
    case UnlimitedWithFallback(x) => x == l.id && l.maxIterations == 0 && l.onExhausted != NO_ID
    case UnknownFallback(x, v) => x == l.id && v == l.onExhausted && v !in nodes && v != NO_ID
    case UnknownParent(x, p) => x == l.id && p == l.parent && p !in loops && p != NO_ID
    case ParentCycle(x, at) => x == l.id && at in loops && IsAncestor(loops, at, x) && IsAncestor(loops, at, at)
    case OutsideParent(x, v) =>
      x == l.id && v in l.nodes && l.parent in loops && v !in loops[l.parent].nodes
    case SharedNode(x, y, v) =>
      x == l.id && y in loops && v in l.nodes && v in loops[y].nodes && x != y && !Related(loops, x, y)
    case FallbackInLoop(x, v, owner) =>
      x == l.id && v == l.onExhausted && v != NO_ID && owner in loops && v in loops[owner].nodes
    case _ => false
  }

  ghost predicate BlamesEdge(loops: Loops, n: Node, dep: Dependency, e: LoopError) {
    match e
    case CountsAndResets(v, u) => v == n.id && u == dep.nodeID && dep.countsLoop != NO_ID && dep.resetsLoop != NO_ID
    case UnknownEdgeLoop(v, x) => v == n.id && x != NO_ID && x in {dep.countsLoop, dep.resetsLoop} && x !in loops
    case EdgeOutsideLoop(v, x) =>
      && v == n.id && x != NO_ID && x in loops
      && ((x == dep.countsLoop && (n.id !in loops[x].nodes || dep.nodeID !in loops[x].nodes))
          || (x == dep.resetsLoop && n.id !in loops[x].nodes))
    case _ => false
  }

  /** The reported error is true of the definition. */
  ghost predicate Justified(d: Definition, e: LoopError) {
    match e
    case EmptyID => exists i :: 0 <= i < |d.loops| && d.loops[i].id == NO_ID
    case DuplicateID(x) => exists i, j :: 0 <= i < j < |d.loops| && d.loops[i].id == d.loops[j].id == x
    case NotCounted(x) => x in LoopMap(d.loops) && !Counted(d, x)
    case _ =>
      || (exists i :: 0 <= i < |d.loops| && Blames(IDs(d.nodes), LoopMap(d.loops), d.loops[i], e))
      || (exists i, k :: 0 <= i < |d.nodes| && 0 <= k < |d.nodes[i].depends| &&
                         BlamesEdge(LoopMap(d.loops), d.nodes[i], d.nodes[i].depends[k], e))
  }

  lemma {:induction false} LoopMapAt(loops: seq<Loop>, i: nat)
    requires i < |loops| && forall i, j :: 0 <= i < j < |loops| ==> loops[i].id != loops[j].id
    ensures loops[i].id in LoopMap(loops) && LoopMap(loops)[loops[i].id] == loops[i]
  {
    if i < |loops| - 1 { LoopMapAt(loops[..|loops| - 1], i); }
  }

  lemma {:induction false} LoopMapIndex(loops: seq<Loop>, id: ID) returns (i: nat)
    requires id in LoopMap(loops)
    ensures i < |loops| && loops[i].id == id && LoopMap(loops)[id] == loops[i]
  {
    var n := |loops| - 1;
    if loops[n].id == id {
      i := n;
    } else {
      i := LoopMapIndex(loops[..n], id);
    }
  }

  lemma BlamedIsJustified(d: Definition, i: nat, e: LoopError)
    requires i < |d.loops| && Blames(IDs(d.nodes), LoopMap(d.loops), d.loops[i], e)
    ensures Justified(d, e)
  {
  }

  // ----- First phase: each loop by itself -----

  /** What a loop contributes to allLoopNodes. */
  ghost predicate Owns(owners: map<ID, ID>, loops: seq<Loop>) {
    && (forall j :: 0 <= j < |loops| ==> Elems(loops[j].nodes) <= owners.Keys)
    && (forall v <- owners :: exists j :: 0 <= j < |loops| && loops[j].id == owners[v] && v in loops[j].nodes)
  }

  /** owners with the given nodes assigned to one loop. */
  ghost predicate Claimed(owners: map<ID, ID>, nodes: set<ID>, loop: ID, owners': map<ID, ID>) {
    && owners'.Keys == owners.Keys + nodes
    && forall v <- owners' :: owners'[v] == if v in nodes then loop else owners[v]
  }

  method CheckShape(l: Loop, nodes: set<ID>, ghost loops: Loops, owners: map<ID, ID>)
    returns (err: Option<LoopError>, owners': map<ID, ID>)
    requires l.id != NO_ID
    ensures err.None? <==> LoopShape(nodes, l)
    ensures err.Some? ==> Blames(nodes, loops, l, err.value)
    ensures err.None? ==> Claimed(owners, Elems(l.nodes), l.id, owners')
  {
    owners' := owners;
    if |l.nodes| == 0 { return Some(EmptyNodes(l.id)), owners'; }
    var seen: set<ID> := {};
    for k := 0 to |l.nodes|
      invariant seen == Elems(l.nodes[..k]) && seen <= nodes && Distinct(l.nodes[..k])
      invariant Claimed(owners, seen, l.id, owners')
    {
      var id := l.nodes[k];
      if id !in nodes { return Some(UnknownNode(l.id, id)), owners'; }
      if id in seen {
        var i :| 0 <= i < k && l.nodes[i] == id;
        return Some(DuplicateNode(l.id, id)), owners';
      }
      seen := seen + {id};
      owners' := owners'[id := l.id];
    }
    assert l.nodes[..|l.nodes|] == l.nodes;
    if l.maxIterations < 0 { return Some(NegativeIterations(l.id)), owners'; }
    if l.maxIterations == 0 && l.onExhausted != NO_ID { return Some(UnlimitedWithFallback(l.id)), owners'; }
    if l.onExhausted != NO_ID && l.onExhausted !in nodes {
      return Some(UnknownFallback(l.id, l.onExhausted)), owners';
    }
    err := None;
  }

  /** The first n loops have been read. */
  ghost predicate ShapesUpTo(d: Definition, n: nat, loops: Loops, owners: map<ID, ID>)
    requires n <= |d.loops|
  {
    && loops == LoopMap(d.loops[..n]) && Owns(owners, d.loops[..n])
    && (forall i :: 0 <= i < n ==> LoopShape(IDs(d.nodes), d.loops[i]))
    && (forall i, j :: 0 <= i < j < n ==> d.loops[i].id != d.loops[j].id)
  }

  lemma ShapesNext(d: Definition, n: nat, loops: Loops, owners: map<ID, ID>, owners': map<ID, ID>)
    requires n < |d.loops| && ShapesUpTo(d, n, loops, owners)
    requires LoopShape(IDs(d.nodes), d.loops[n]) && d.loops[n].id !in loops
    requires Claimed(owners, Elems(d.loops[n].nodes), d.loops[n].id, owners')
    ensures ShapesUpTo(d, n + 1, loops[d.loops[n].id := d.loops[n]], owners')
  {
    forall i | 0 <= i < n ensures d.loops[i].id != d.loops[n].id {
      LoopMapAt(d.loops[..n], i);
    }
    assert d.loops[..n + 1][..n] == d.loops[..n];
    OwnsNext(owners, d.loops, n, owners');
  }

  lemma EmptyIDIsJustified(d: Definition, n: nat)
    requires n < |d.loops| && d.loops[n].id == NO_ID
    ensures Justified(d, EmptyID) && !LoopShapes(d)
  {
    assert !LoopShape(IDs(d.nodes), d.loops[n]);
  }

  lemma DuplicateIsJustified(d: Definition, n: nat, id: ID)
    requires n < |d.loops| && d.loops[n].id == id && id in LoopMap(d.loops[..n])
    ensures Justified(d, DuplicateID(id)) && !LoopShapes(d)
  {
    var i := LoopMapIndex(d.loops[..n], id);
    assert d.loops[i].id == d.loops[n].id;
  }

  method CheckShapes(d: Definition) returns (err: Option<LoopError>, loops: Loops, owners: map<ID, ID>)
    ensures err.None? <==> LoopShapes(d)
    ensures err.Some? ==> Justified(d, err.value)
    ensures err.None? ==> loops == LoopMap(d.loops) && Owns(owners, d.loops)
  {
    loops, owners := map[], map[];
    for n := 0 to |d.loops|
      invariant ShapesUpTo(d, n, loops, owners)
    {
      var l := d.loops[n];
      if l.id == NO_ID {
        EmptyIDIsJustified(d, n);
        return Some(EmptyID), loops, owners;
      }
      if l.id in loops {
        DuplicateIsJustified(d, n, l.id);
        return Some(DuplicateID(l.id)), loops, owners;
      }
      ghost var before := owners;
      err, owners := CheckShape(l, IDs(d.nodes), LoopMap(d.loops), owners);
      if err.Some? {
        BlamedIsJustified(d, n, err.value);
        return;
      }
      ShapesNext(d, n, loops, before, owners);
      loops := loops[l.id := l];
    }
    assert d.loops[..|d.loops|] == d.loops;
    err := None;
  }

  lemma OwnsNext(owners: map<ID, ID>, loops: seq<Loop>, n: nat, owners': map<ID, ID>)
    requires n < |loops| && Owns(owners, loops[..n])
    requires Claimed(owners, Elems(loops[n].nodes), loops[n].id, owners')
    ensures Owns(owners', loops[..n + 1])
  {
    var ls, ls' := loops[..n], loops[..n + 1];
    forall v <- owners' ensures exists j :: 0 <= j < |ls'| && ls'[j].id == owners'[v] && v in ls'[j].nodes {
      if v in Elems(loops[n].nodes) {
        assert ls'[n] == loops[n];
      } else {
        var j :| 0 <= j < n && ls[j].id == owners[v] && v in ls[j].nodes;
        assert ls'[j] == ls[j];
      }
    }
    forall j | 0 <= j < |ls'| ensures Elems(ls'[j].nodes) <= owners'.Keys {
      if j < n { assert ls'[j] == ls[j]; }
    }
  }

  // ----- Second phase: the forest -----

  /** Follows the parents of one loop, remembering the ids met. */
  method WalkParents(l: Loop, loops: Loops) returns (err: Option<LoopError>)
    requires NO_ID !in loops && l.id in loops && loops[l.id] == l && l.parent in loops
    ensures err.Some? ==> err.value.ParentCycle? && Blames({}, loops, l, err.value) && !NoParentCycle(loops)
    ensures err.None? ==> Ends(loops, l.id)
  {
    var seen := {l.id};
    var cur := l.parent;
    ghost var chain := [l.id];
    while cur != NO_ID
      invariant |chain| >= 1 && cur == Ancestor(loops, l.id, |chain|)
      invariant forall i :: 0 <= i < |chain| ==> chain[i] == Ancestor(loops, l.id, i)
      invariant seen == Elems(chain) && seen <= loops.Keys
      decreases loops.Keys - seen
    {
      if cur in seen {
        ghost var i :| 0 <= i < |chain| && chain[i] == cur;
        RepeatIsCycle(loops, l.id, i, |chain|);
        assert IsAncestor(loops, cur, l.id);
        return Some(ParentCycle(l.id, cur));
      }
      if cur !in loops {
        assert Ancestor(loops, l.id, |chain| + 1) == NO_ID;
        break;
      }
      seen := seen + {cur};
      chain := chain + [cur];
      cur := loops[cur].parent;
    }
    err := None;
  }

  method CheckParent(l: Loop, loops: Loops, ghost nodes: set<ID>) returns (err: Option<LoopError>)
    requires NO_ID !in loops && l.id in loops && loops[l.id] == l
    ensures err.Some? ==> Blames(nodes, loops, l, err.value) && !Forest(loops)
    ensures err.None? ==> InsideParent(loops, l) && Ends(loops, l.id)
  {
    if l.parent == NO_ID {
      assert Ancestor(loops, l.id, 0) == l.id;
      assert Ancestor(loops, l.id, 1) == NO_ID;
      return None;
    }
    if l.parent !in loops {
      assert !InsideParent(loops, loops[l.id]);
      return Some(UnknownParent(l.id, l.parent));
    }
    err := WalkParents(l, loops);
    if err.Some? { return; }
    var parent := loops[l.parent];
    for k := 0 to |l.nodes|
      invariant Elems(l.nodes[..k]) <= Elems(parent.nodes)
    {
      if l.nodes[k] !in parent.nodes {
        assert l.nodes[k] in Elems(l.nodes);
        assert !InsideParent(loops, loops[l.id]);
        return Some(OutsideParent(l.id, l.nodes[k]));
      }
    }
    assert l.nodes[..|l.nodes|] == l.nodes;
  }

  method CheckParents(d: Definition, loops: Loops) returns (err: Option<LoopError>)
    requires LoopShapes(d) && loops == LoopMap(d.loops)
    ensures err.None? <==> Forest(loops)
    ensures err.Some? ==> Justified(d, err.value)
  {
    for n := 0 to |d.loops|
      invariant forall i :: 0 <= i < n ==> InsideParent(loops, d.loops[i])
      invariant forall i :: 0 <= i < n ==> Ends(loops, d.loops[i].id)
    {
      LoopMapAt(d.loops, n);
      NoEmptyLoopID(d);
      err := CheckParent(d.loops[n], loops, IDs(d.nodes));
      if err.Some? {
        BlamedIsJustified(d, n, err.value);
        return;
      }
    }
    err := None;
    forall id <- loops ensures InsideParent(loops, loops[id]) && !IsAncestor(loops, id, id) {
      var i := LoopMapIndex(d.loops, id);
      var k: nat :| Ancestor(loops, id, k) == NO_ID;
      NoEmptyLoopID(d);
      forall j | j >= 1 ensures Ancestor(loops, id, j) != id {
        if Ancestor(loops, id, j) == id { EndingChainHasNoReturn(loops, id, j, k); }
      }
    }
  }

  lemma NoEmptyLoopID(d: Definition)
    requires LoopShapes(d)
    ensures NO_ID !in LoopMap(d.loops)
  {
    forall id <- LoopMap(d.loops) ensures id != NO_ID {
      var i := LoopMapIndex(d.loops, id);
      assert LoopShape(IDs(d.nodes), d.loops[i]);
    }
  }

  // ----- Third phase: loops that are not related share nothing -----

  method CheckPair(d: Definition, i: nat, j: nat, loops: Loops) returns (err: Option<LoopError>)
    requires LoopShapes(d) && loops == LoopMap(d.loops) && ParentsKnown(loops) && NoParentCycle(loops)
    requires i < j < |d.loops|
    ensures err.None? <==> RelatedOrDisjoint(loops, d.loops[i], d.loops[j])
    ensures err.Some? ==> Blames(IDs(d.nodes), loops, d.loops[i], err.value)
  {
    var a, b := d.loops[i], d.loops[j];
    LoopMapAt(d.loops, i);
    LoopMapAt(d.loops, j);
    NoEmptyLoopID(d);
    var related := LoopsRelated(a, b, loops);
    if related { return None; }
    for k := 0 to |a.nodes|
      invariant Elems(a.nodes[..k]) !! Elems(b.nodes)
    {
      if a.nodes[k] in b.nodes {
        assert a.nodes[k] in Elems(a.nodes) && a.nodes[k] in Elems(b.nodes);
        return Some(SharedNode(a.id, b.id, a.nodes[k]));
      }
    }
    assert a.nodes[..|a.nodes|] == a.nodes;
    err := None;
  }

  method CheckDisjoint(d: Definition, loops: Loops) returns (err: Option<LoopError>)
    requires LoopShapes(d) && loops == LoopMap(d.loops) && Forest(loops)
    ensures err.None? <==> UnrelatedDisjoint(d)
    ensures err.Some? ==> Justified(d, err.value)
  {
    NoEmptyLoopID(d);
    assert forall id <- loops :: InsideParent(loops, loops[id]);
    for i := 0 to |d.loops|
      invariant forall i', j :: 0 <= i' < i && i' < j < |d.loops| ==> RelatedOrDisjoint(loops, d.loops[i'], d.loops[j])
    {
      for j := i + 1 to |d.loops|
        invariant forall j' :: i < j' < j ==> RelatedOrDisjoint(loops, d.loops[i], d.loops[j'])
      {
        err := CheckPair(d, i, j, loops);
        if err.Some? {
          BlamedIsJustified(d, i, err.value);
          return;
        }
      }
    }
    err := None;
  }

  // ----- Fourth phase: the edges -----

  /** The loops that some edge of the first i nodes, or of the first k edges of node i, counts. */
  ghost predicate CountedBefore(d: Definition, i: nat, k: nat, loop: ID) {
    exists i', k' :: 0 <= i' < |d.nodes| && 0 <= k' < |d.nodes[i'].depends| && (i' < i || (i' == i && k' < k)) &&
                     d.nodes[i'].depends[k'].countsLoop == loop
  }

  lemma CountedStep(d: Definition, i: nat, k: nat, loop: ID)
    requires i < |d.nodes| && k < |d.nodes[i].depends|
    ensures CountedBefore(d, i, k + 1, loop) <==>
            CountedBefore(d, i, k, loop) || d.nodes[i].depends[k].countsLoop == loop
  {
    if d.nodes[i].depends[k].countsLoop == loop {
      assert CountedBefore(d, i, k + 1, loop);
    }
  }

  method CheckEdge(n: Node, dep: Dependency, loops: Loops) returns (err: Option<LoopError>)
    ensures err.None? <==> EdgeInside(loops, n, dep)
    ensures err.Some? ==> BlamesEdge(loops, n, dep, err.value)
  {
    if dep.countsLoop != NO_ID && dep.resetsLoop != NO_ID {
      return Some(CountsAndResets(n.id, dep.nodeID));
    }
    if dep.countsLoop != NO_ID {
      if dep.countsLoop !in loops { return Some(UnknownEdgeLoop(n.id, dep.countsLoop)); }
      var source := LoopContainsNode(loops[dep.countsLoop], dep.nodeID);
      var target := LoopContainsNode(loops[dep.countsLoop], n.id);
      if !source || !target { return Some(EdgeOutsideLoop(n.id, dep.countsLoop)); }
    }
    if dep.resetsLoop != NO_ID {
      if dep.resetsLoop !in loops { return Some(UnknownEdgeLoop(n.id, dep.resetsLoop)); }
      var target := LoopContainsNode(loops[dep.resetsLoop], n.id);
      if !target { return Some(EdgeOutsideLoop(n.id, dep.resetsLoop)); }
    }
    err := None;
  }

  lemma BlamedEdgeIsJustified(d: Definition, i: nat, k: nat, e: LoopError)
    requires i < |d.nodes| && k < |d.nodes[i].depends|
    requires BlamesEdge(LoopMap(d.loops), d.nodes[i], d.nodes[i].depends[k], e)
    ensures Justified(d, e)
  {
  }

  method CheckEdges(d: Definition, loops: Loops) returns (err: Option<LoopError>, countingEdges: map<ID, nat>)
    requires loops == LoopMap(d.loops)
    ensures err.None? <==> EdgesInside(d)
    ensures err.Some? ==> Justified(d, err.value)
    ensures err.None? ==> forall x :: x != NO_ID ==> (EdgeCount(countingEdges, x) > 0 <==> Counted(d, x))
  {
    countingEdges := map[];
    for i := 0 to |d.nodes|
      invariant forall i', k :: 0 <= i' < i && 0 <= k < |d.nodes[i'].depends| ==>
                  EdgeInside(loops, d.nodes[i'], d.nodes[i'].depends[k])
      invariant forall x :: x != NO_ID ==> (EdgeCount(countingEdges, x) > 0 <==> CountedBefore(d, i, 0, x))
    {
      for k := 0 to |d.nodes[i].depends|
        invariant forall k' :: 0 <= k' < k ==> EdgeInside(loops, d.nodes[i], d.nodes[i].depends[k'])
        invariant forall x :: x != NO_ID ==> (EdgeCount(countingEdges, x) > 0 <==> CountedBefore(d, i, k, x))
      {
        var dep := d.nodes[i].depends[k];
        err := CheckEdge(d.nodes[i], dep, loops);
        if err.Some? {
          BlamedEdgeIsJustified(d, i, k, err.value);
          return;
        }
        forall x ensures CountedBefore(d, i, k + 1, x) <==> CountedBefore(d, i, k, x) || dep.countsLoop == x {
          CountedStep(d, i, k, x);
        }
        ghost var before := countingEdges;
        if dep.countsLoop != NO_ID {
          countingEdges := countingEdges[dep.countsLoop := EdgeCount(countingEdges, dep.countsLoop) + 1];
        }
        forall x | x != NO_ID ensures EdgeCount(countingEdges, x) > 0 <==> CountedBefore(d, i, k + 1, x) {
          assert EdgeCount(before, x) > 0 <==> CountedBefore(d, i, k, x);
        }
      }
      forall x ensures CountedBefore(d, i + 1, 0, x) <==> CountedBefore(d, i, |d.nodes[i].depends|, x) { }
    }
    err := None;
  }

  function EdgeCount(countingEdges: map<ID, nat>, id: ID): nat {
    if id in countingEdges then countingEdges[id] else 0
  }

  // ----- Last phases -----

  method CheckCounted(d: Definition, countingEdges: map<ID, nat>) returns (err: Option<LoopError>)
    requires LoopShapes(d)
    requires forall x :: x != NO_ID ==> (EdgeCount(countingEdges, x) > 0 <==> Counted(d, x))
    ensures err.None? <==> AllCounted(d)
    ensures err.Some? ==> Justified(d, err.value)
  {
    for i := 0 to |d.loops|
      invariant forall i' :: 0 <= i' < i ==> Counted(d, d.loops[i'].id)
    {
      assert LoopShape(IDs(d.nodes), d.loops[i]);
      if EdgeCount(countingEdges, d.loops[i].id) == 0 {
        LoopMapAt(d.loops, i);
        return Some(NotCounted(d.loops[i].id));
      }
    }
    err := None;
  }

  method CheckFallbacks(d: Definition, owners: map<ID, ID>) returns (err: Option<LoopError>)
    requires LoopShapes(d) && Owns(owners, d.loops)
    ensures err.None? <==> FallbacksOutside(d)
    ensures err.Some? ==> Justified(d, err.value)
  {
    for i := 0 to |d.loops|
      invariant forall i', j :: 0 <= i' < i && 0 <= j < |d.loops| && d.loops[i'].onExhausted != NO_ID ==>
                  d.loops[i'].onExhausted !in d.loops[j].nodes
    {
      var v := d.loops[i].onExhausted;
      if v != NO_ID && v in owners {
        var j :| 0 <= j < |d.loops| && d.loops[j].id == owners[v] && v in d.loops[j].nodes;
        LoopMapAt(d.loops, j);
        BlamedIsJustified(d, i, FallbackInLoop(d.loops[i].id, v, owners[v]));
        return Some(FallbackInLoop(d.loops[i].id, v, owners[v]));
      }
      if v != NO_ID {
        forall j | 0 <= j < |d.loops| ensures v !in d.loops[j].nodes {
          assert v !in Elems(d.loops[j].nodes);
        }
      }
    }
    err := None;
  }

  /** validateLoops accepts exactly the valid loop declarations, and every error it reports is true. */
  method ValidateLoops(d: Definition) returns (err: Option<LoopError>)
    ensures err.None? <==> LoopsValid(d)
    ensures err.Some? ==> Justified(d, err.value)
  {
    var loops, owners, countingEdges;
    err, loops, owners := CheckShapes(d);
    if err.Some? { return; }
    err := CheckParents(d, loops);
    if err.Some? { return; }
    err := CheckDisjoint(d, loops);
    if err.Some? { return; }
    err, countingEdges := CheckEdges(d, loops);
    if err.Some? { return; }
    err := CheckCounted(d, countingEdges);
    if err.Some? { return; }
    err := CheckFallbacks(d, owners);
  }

  // ----- What acceptance means for the engine -----

  lemma {:induction false} InsideAncestors(loops: Loops, id: ID, k: nat)
    requires Forest(loops) && id in loops && Ancestor(loops, id, k) in loops && NO_ID !in loops
    ensures Elems(loops[id].nodes) <= Elems(loops[Ancestor(loops, id, k)].nodes)
  {
    if k > 0 {
      var below := Ancestor(loops, id, k - 1);
      assert below in loops;
      InsideAncestors(loops, id, k - 1);
      assert InsideParent(loops, loops[below]);
    }
  }

  /** Two accepted loops that share a node lie on one chain, the inner one inside the outer one. */
  lemma SharedNodeMeansNested(d: Definition, a: nat, b: nat, v: ID)
    requires LoopsValid(d) && a < |d.loops| && b < |d.loops| && a != b
    requires v in d.loops[a].nodes && v in d.loops[b].nodes
    ensures var loops := LoopMap(d.loops);
            || (IsAncestor(loops, d.loops[b].id, d.loops[a].id) && Elems(d.loops[a].nodes) <= Elems(d.loops[b].nodes))
            || (IsAncestor(loops, d.loops[a].id, d.loops[b].id) && Elems(d.loops[b].nodes) <= Elems(d.loops[a].nodes))
  {
    var loops := LoopMap(d.loops);
    LoopMapAt(d.loops, a);
    LoopMapAt(d.loops, b);
    NoEmptyLoopID(d);
    assert v in Elems(d.loops[a].nodes) && v in Elems(d.loops[b].nodes);
    var i, j := if a < b then a else b, if a < b then b else a;
    assert RelatedOrDisjoint(loops, d.loops[i], d.loops[j]);
    if IsAncestor(loops, d.loops[b].id, d.loops[a].id) {
      var k :| k >= 1 && Ancestor(loops, d.loops[a].id, k) == d.loops[b].id;
      InsideAncestors(loops, d.loops[a].id, k);
    } else {
      var k :| k >= 1 && Ancestor(loops, d.loops[b].id, k) == d.loops[a].id;
      InsideAncestors(loops, d.loops[b].id, k);
    }
  }

  /** A counting edge of an accepted loop lies inside every loop around it. */
  lemma CountingEdgeInsideAncestors(d: Definition, i: nat, e: nat, outer: ID)
    requires LoopsValid(d) && i < |d.nodes| && e < |d.nodes[i].depends|
    requires var dep := d.nodes[i].depends[e];
             dep.countsLoop != NO_ID && IsAncestor(LoopMap(d.loops), outer, dep.countsLoop) && outer != NO_ID
    ensures var loops := LoopMap(d.loops);
            outer in loops && d.nodes[i].depends[e].nodeID in loops[outer].nodes && d.nodes[i].id in loops[outer].nodes
  {
    var loops, dep := LoopMap(d.loops), d.nodes[i].depends[e];
    assert EdgeInside(loops, d.nodes[i], dep);
    NoEmptyLoopID(d);
    var k :| k >= 1 && Ancestor(loops, dep.countsLoop, k) == outer;
    assert forall id <- loops :: InsideParent(loops, loops[id]);
    ChainStaysInside(loops, dep.countsLoop, k);
    InsideAncestors(loops, dep.countsLoop, k);
    var inner := loops[dep.countsLoop];
    assert dep.nodeID in Elems(inner.nodes) && d.nodes[i].id in Elems(inner.nodes);
  }
}
