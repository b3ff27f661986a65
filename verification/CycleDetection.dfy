/**
detectCycle and findCyclePath (pkg/workflowspec/definition.go): Kahn's topological sort over the
unconditional edges, and a three-colour depth-first search that turns what the sort leaves over into an
explicit cycle.
*/
module CycleDetection {
  import opened Digraph
  import opened WorkflowDefinition

  datatype Report =
    | NoCycle
    | CyclePath(path: seq<ID>)
    | CycleAmong(nodes: set<ID>)   // the fallback message without a path

  function Count(m: map<ID, int>, id: ID): int {
    if id in m then m[id] else 0
  }

  function Lookup(m: map<ID, seq<ID>>, id: ID): seq<ID> {
    if id in m then m[id] else []
  }

  // ----- Kahn's sort -----

  /** dependents lists, without repeats, exactly the vertices that wait for each vertex. */
  ghost predicate Inverse(g: Graph<ID>, dependents: map<ID, seq<ID>>) {
    forall u {:trigger Lookup(dependents, u)} ::
      Distinct(Lookup(dependents, u)) && forall v :: v in Lookup(dependents, u) <==> Step(g, v, u)
  }

  /** The maps describe the edges of g. */
  ghost predicate Counts(g: Graph<ID>, indegree: map<ID, int>, dependents: map<ID, seq<ID>>) {
    && indegree.Keys == g.Keys
    && (forall v <- g :: indegree[v] == |g[v]|)
    && Inverse(g, dependents)
  }

  lemma AddVertex(g: Graph<ID>, v: ID, indegree: map<ID, int>, dependents: map<ID, seq<ID>>)
    requires Counts(g, indegree, dependents) && v !in g
    ensures Counts(g[v := {}], indegree[v := 0], dependents)
  {
    forall u, w ensures Step(g[v := {}], w, u) <==> Step(g, w, u) { }
  }

  lemma AddEdge(g: Graph<ID>, v: ID, u: ID, indegree: map<ID, int>, dependents: map<ID, seq<ID>>)
    requires Counts(g, indegree, dependents) && v in g && u !in g[v]
    ensures Counts(g[v := g[v] + {u}], indegree[v := Count(indegree, v) + 1],
                   dependents[u := Lookup(dependents, u) + [v]])
  {
    var g', dependents' := g[v := g[v] + {u}], dependents[u := Lookup(dependents, u) + [v]];
    forall x ensures Distinct(Lookup(dependents', x)) &&
                     forall w :: w in Lookup(dependents', x) <==> Step(g', w, x) {
      assert Distinct(Lookup(dependents, x)) && forall w :: w in Lookup(dependents, x) <==> Step(g, w, x);
      if x == u {
        assert !Step(g, v, u);
      }
    }
  }

  /** The inner loop of the edge count: duplicate dependencies are counted once. */
  method CountNode(node: Node, ghost g: Graph<ID>, indegree: map<ID, int>, dependents: map<ID, seq<ID>>)
    returns (indegree': map<ID, int>, dependents': map<ID, seq<ID>>)
    requires Counts(g, indegree, dependents) && node.id in g && g[node.id] == {}
    ensures Counts(g[node.id := Edges(node, false)], indegree', dependents')
  {
    hide *;
    indegree', dependents' := indegree, dependents;
    var seen: set<ID> := {};
    assert g[node.id := seen] == g;
    NoEdges(node);
    for k := 0 to |node.depends|
      invariant seen == EdgesUpTo(node, false, k)
      invariant Counts(g[node.id := seen], indegree', dependents')
    {
      var dep := node.depends[k];
      EdgesStep(node, k);
      if dep.when == "" && dep.nodeID !in seen {
        CountOne(g, node.id, seen, dep.nodeID, indegree', dependents');
        seen := seen + {dep.nodeID};
        indegree' := indegree'[node.id := Count(indegree', node.id) + 1];
        dependents' := dependents'[dep.nodeID := Lookup(dependents', dep.nodeID) + [node.id]];
      }
    }
    EdgesEnd(node);
  }

  lemma NoEdges(n: Node)
    ensures EdgesUpTo(n, false, 0) == {}
  {
  }

  lemma EdgesStep(n: Node, k: nat)
    requires k < |n.depends|
    ensures n.depends[k].when == "" && n.depends[k].nodeID !in EdgesUpTo(n, false, k) ==>
              EdgesUpTo(n, false, k + 1) == EdgesUpTo(n, false, k) + {n.depends[k].nodeID}
    ensures n.depends[k].when != "" || n.depends[k].nodeID in EdgesUpTo(n, false, k) ==>
              EdgesUpTo(n, false, k + 1) == EdgesUpTo(n, false, k)
  {
  }

  lemma EdgesEnd(n: Node)
    ensures EdgesUpTo(n, false, |n.depends|) == Edges(n, false)
  {
  }

  lemma CountOne(g: Graph<ID>, v: ID, seen: set<ID>, u: ID, indegree: map<ID, int>, dependents: map<ID, seq<ID>>)
    requires Counts(g[v := seen], indegree, dependents) && u !in seen
    ensures Counts(g[v := seen + {u}], indegree[v := Count(indegree, v) + 1],
                   dependents[u := Lookup(dependents, u) + [v]])
  {
    AddEdge(g[v := seen], v, u, indegree, dependents);
    assert g[v := seen][v := seen + {u}] == g[v := seen + {u}];
  }

  method CountEdges(d: Definition) returns (indegree: map<ID, int>, dependents: map<ID, seq<ID>>)
    requires DistinctIDs(d.nodes)
    ensures Counts(Unconditional(d), indegree, dependents)
  {
    indegree, dependents := map[], map[];
    for n := 0 to |d.nodes|
      invariant Counts(GraphOf(d.nodes[..n], false), indegree, dependents)
    {
      ghost var g := GraphOf(d.nodes[..n], false);
      NextNode(d.nodes, n);
      AddVertex(g, d.nodes[n].id, indegree, dependents);
      indegree := indegree[d.nodes[n].id := 0];
      indegree, dependents := CountNode(d.nodes[n], g[d.nodes[n].id := {}], indegree, dependents);
    }
    assert d.nodes[..|d.nodes|] == d.nodes;
  }

  lemma NextNode(nodes: seq<Node>, n: nat)
    requires DistinctIDs(nodes) && n < |nodes|
    ensures nodes[n].id !in IDs(nodes[..n])
    ensures GraphOf(nodes[..n + 1], false)
         == GraphOf(nodes[..n], false)[nodes[n].id := {}][nodes[n].id := Edges(nodes[n], false)]
  {
    assert nodes[..n + 1][..n] == nodes[..n];
    if nodes[n].id in IDs(nodes[..n]) {
      var i := IndexOfID(nodes[..n], nodes[n].id);
    }
  }

  /** The vertices waiting in the queue are the unprocessed ones whose indegree has dropped to zero. */
  ghost predicate Queued(g: Graph<ID>, processed: set<ID>, indegree: map<ID, int>, waiting: set<ID>) {
    && indegree.Keys == g.Keys
    && waiting <= g.Keys && waiting !! processed
    && forall v <- g :: indegree[v] == 0 <==> v in processed || v in waiting
  }

  /** Kahn's invariant: every indegree is the number of distinct prerequisites still unprocessed. */
  ghost predicate KahnInvariant(g: Graph<ID>, processed: set<ID>, indegree: map<ID, int>, waiting: set<ID>) {
    && Queued(g, processed, indegree, waiting)
    && forall v <- g :: indegree[v] == |g[v] - processed|
  }

  /** While the dependents of id are visited, those in `told` already know that id is processed. */
  ghost predicate Releasing(g: Graph<ID>, processed: set<ID>, id: ID, told: set<ID>,
                            indegree: map<ID, int>, waiting: set<ID>) {
    && Queued(g, processed + {id}, indegree, waiting)
    && forall v <- g :: indegree[v] == Unmet(g, processed, id, told, v)
  }

  ghost function Unmet(g: Graph<ID>, processed: set<ID>, id: ID, told: set<ID>, v: ID): nat
    requires v in g
  {
    if v in told then |g[v] - (processed + {id})| else |g[v] - processed|
  }

  /** `for id, deg := range indegree`: Go visits a map in any order, so the queue starts in any order. */
  method InitialQueue(indegree: map<ID, int>) returns (queue: seq<ID>, ghost waiting: set<ID>)
    ensures Holds(queue, waiting) && waiting <= indegree.Keys
    ensures forall v <- indegree :: v in waiting <==> indegree[v] == 0
    ensures forall v <- indegree :: v in queue <==> indegree[v] == 0
  {
    queue, waiting := [], {};
    var left := indegree.Keys;
    while left != {}
      invariant left <= indegree.Keys && waiting <= indegree.Keys - left
      invariant Holds(queue, waiting)
      invariant forall v <- indegree :: v !in left ==> (v in waiting <==> indegree[v] == 0)
    {
      var id :| id in left;
      left := left - {id};
      if indegree[id] == 0 {
        HoldsAppend(queue, waiting, id);
        queue, waiting := queue + [id], waiting + {id};
      }
    }
  }

  lemma KahnStarts(g: Graph<ID>, indegree: map<ID, int>, waiting: set<ID>)
    requires indegree.Keys == g.Keys && forall v <- g :: indegree[v] == |g[v]|
    requires waiting <= g.Keys && forall v <- g :: v in waiting <==> indegree[v] == 0
    ensures KahnInvariant(g, {}, indegree, waiting)
  {
    forall v <- g ensures indegree[v] == |g[v] - {}| { MinusNothing(g[v]); }
  }

  lemma MinusNothing(s: set<ID>)
    ensures s - {} == s
  {
  }

  /** Telling one more vertex lowers its count of unmet prerequisites by one, and nobody else's. */
  lemma UnmetStep(g: Graph<ID>, processed: set<ID>, id: ID, told: set<ID>, next: ID, v: ID)
    requires Step(g, next, id) && id !in processed && next !in told && v in g
    ensures Unmet(g, processed, id, told + {next}, v)
         == Unmet(g, processed, id, told, v) - if v == next then 1 else 0
  {
    if v == next {
      assert g[next] - (processed + {id}) == (g[next] - processed) - {id};
    }
  }

  lemma TellOne(g: Graph<ID>, processed: set<ID>, id: ID, told: set<ID>, next: ID,
                indegree: map<ID, int>, waiting: set<ID>)
    requires Releasing(g, processed, id, told, indegree, waiting)
    requires Step(g, next, id) && id !in processed && next !in told
    ensures next in indegree && next !in waiting && indegree[next] > 0
    ensures var indegree' := indegree[next := indegree[next] - 1];
            Releasing(g, processed, id, told + {next}, indegree',
                      if indegree'[next] == 0 then waiting + {next} else waiting)
  {
    hide Unmet;
    UnmetStep(g, processed, id, told, next, next);
    forall v | v in g && v != next
      ensures Unmet(g, processed, id, told + {next}, v) == Unmet(g, processed, id, told, v) {
      UnmetStep(g, processed, id, told, next, v);
    }
  }

  method Release(ghost g: Graph<ID>, ghost processed: set<ID>, ghost id: ID, ghost told: set<ID>, next: ID,
                 indegree: map<ID, int>, queue: seq<ID>, ghost waiting: set<ID>)
    returns (indegree': map<ID, int>, queue': seq<ID>, ghost waiting': set<ID>)
    requires Holds(queue, waiting) && Releasing(g, processed, id, told, indegree, waiting)
    requires Step(g, next, id) && id !in processed && next !in told
    ensures Holds(queue', waiting') && Releasing(g, processed, id, told + {next}, indegree', waiting')
  {
    TellOne(g, processed, id, told, next, indegree, waiting);
    indegree' := indegree[next := indegree[next] - 1];
    queue', waiting' := queue, waiting;
    if indegree'[next] == 0 {
      HoldsAppend(queue, waiting, next);
      queue', waiting' := queue + [next], waiting + {next};
    }
  }

  /** The inner loop of the sort: tells every dependent of id that id is processed. */
  method ReleaseAll(ghost g: Graph<ID>, ghost processed: set<ID>, id: ID, dependents: map<ID, seq<ID>>,
                    indegree: map<ID, int>, queue: seq<ID>, ghost waiting: set<ID>)
    returns (indegree': map<ID, int>, queue': seq<ID>, ghost waiting': set<ID>)
    requires Inverse(g, dependents) && id !in processed
    requires Holds(queue, waiting) && Releasing(g, processed, id, {}, indegree, waiting)
    ensures Holds(queue', waiting') && KahnInvariant(g, processed + {id}, indegree', waiting')
  {
    var nexts := Lookup(dependents, id);
    indegree', queue', waiting' := indegree, queue, waiting;
    for k := 0 to |nexts|
      invariant Holds(queue', waiting') && Releasing(g, processed, id, Elems(nexts[..k]), indegree', waiting')
    {
      TellNext(nexts, k);
      assert nexts[k] in nexts;
      indegree', queue', waiting' :=
        Release(g, processed, id, Elems(nexts[..k]), nexts[k], indegree', queue', waiting');
    }
    AllTold(g, processed, id, dependents, indegree', waiting');
  }

  lemma TellNext(nexts: seq<ID>, k: nat)
    requires Distinct(nexts) && k < |nexts|
    ensures nexts[k] !in Elems(nexts[..k]) && Elems(nexts[..k + 1]) == Elems(nexts[..k]) + {nexts[k]}
  {
    assert nexts[..k + 1] == nexts[..k] + [nexts[k]];
  }

  lemma AllTold(g: Graph<ID>, processed: set<ID>, id: ID, dependents: map<ID, seq<ID>>,
                indegree: map<ID, int>, waiting: set<ID>)
    requires Inverse(g, dependents)
    requires var nexts := Lookup(dependents, id);
             Releasing(g, processed, id, Elems(nexts[..|nexts|]), indegree, waiting)
    ensures KahnInvariant(g, processed + {id}, indegree, waiting)
  {
    var nexts := Lookup(dependents, id);
    assert nexts[..|nexts|] == nexts;
    forall v | v in g && v !in nexts ensures g[v] - processed == g[v] - (processed + {id}) {
      assert !Step(g, v, id);
    }
  }

  /** Runs the sort to its end; `order` is the order of processing. */
  method Drain(ghost g: Graph<ID>, dependents: map<ID, seq<ID>>, indegree: map<ID, int>, queue: seq<ID>,
               ghost waiting: set<ID>)
    returns (processed: nat, indegree': map<ID, int>, ghost order: seq<ID>, ghost done: set<ID>)
    requires Inverse(g, dependents) && Holds(queue, waiting) && KahnInvariant(g, {}, indegree, waiting)
    ensures processed == |order| && OrderOf(g, order, done)
    ensures KahnInvariant(g, done, indegree', {})
  {
    hide *;
    processed, indegree', order, done := 0, indegree, [], {};
    var q := queue;
    ghost var w := waiting;
    DrainStart(g, indegree, queue, waiting);
    while |q| > 0
      invariant processed == |order| && Draining(g, indegree', q, w, order, done)
      decreases g.Keys - done
    {
      ghost var id := q[0];
      indegree', q, w := TakeNext(g, dependents, indegree', q, w, order, done);
      processed := processed + 1;
      order, done := order + [id], done + {id};
    }
    DrainEnd(g, indegree', q, w, order, done);
  }

  lemma DrainStart(g: Graph<ID>, indegree: map<ID, int>, queue: seq<ID>, waiting: set<ID>)
    requires Holds(queue, waiting) && KahnInvariant(g, {}, indegree, waiting)
    ensures Draining(g, indegree, queue, waiting, [], {})
  {
  }

  lemma DrainEnd(g: Graph<ID>, indegree: map<ID, int>, q: seq<ID>, waiting: set<ID>, order: seq<ID>, done: set<ID>)
    requires Draining(g, indegree, q, waiting, order, done) && |q| == 0
    ensures OrderOf(g, order, done) && KahnInvariant(g, done, indegree, {})
  {
    assert waiting == {};
  }

  ghost predicate Draining(g: Graph<ID>, indegree: map<ID, int>, queue: seq<ID>, waiting: set<ID>,
                           order: seq<ID>, done: set<ID>) {
    OrderOf(g, order, done) && Holds(queue, waiting) && KahnInvariant(g, done, indegree, waiting)
  }

  /** Takes the head of the queue and tells its dependents. */
  method TakeNext(ghost g: Graph<ID>, dependents: map<ID, seq<ID>>, indegree: map<ID, int>, queue: seq<ID>,
                  ghost waiting: set<ID>, ghost order: seq<ID>, ghost done: set<ID>)
    returns (indegree': map<ID, int>, queue': seq<ID>, ghost waiting': set<ID>)
    requires Inverse(g, dependents) && Draining(g, indegree, queue, waiting, order, done) && |queue| > 0
    ensures queue[0] in g && queue[0] !in done
    ensures Draining(g, indegree', queue', waiting', order + [queue[0]], done + {queue[0]})
  {
    var id := queue[0];
    HoldsPop(queue, waiting);
    StartRelease(g, done, indegree, waiting, id);
    OrderAppend(g, order, done, id);
    indegree', queue', waiting' := ReleaseAll(g, done, id, dependents, indegree, queue[1..], waiting - {id});
  }

  /** The members of `done`, each once, prerequisites first. */
  ghost predicate OrderOf(g: Graph<ID>, order: seq<ID>, done: set<ID>) {
    Holds(order, done) && Ordered(g, order) && done <= g.Keys
  }

  lemma OrderAppend(g: Graph<ID>, order: seq<ID>, done: set<ID>, id: ID)
    requires OrderOf(g, order, done) && id in g && id !in done && g[id] <= done
    ensures OrderOf(g, order + [id], done + {id})
  {
    AppendOrdered(g, order, id);
  }

  lemma StartRelease(g: Graph<ID>, processed: set<ID>, indegree: map<ID, int>, waiting: set<ID>, id: ID)
    requires KahnInvariant(g, processed, indegree, waiting) && id in waiting
    ensures id in g && id !in processed && g[id] <= processed
    ensures Releasing(g, processed, id, {}, indegree, waiting - {id})
  {
    NoneLeft(g[id], processed);
  }

  lemma NoneLeft(s: set<ID>, t: set<ID>)
    requires |s - t| == 0
    ensures s <= t
  {
    assert forall x :: x in s - t <==> x in s && x !in t;
  }

  // ----- The search for an explicit cycle -----

  datatype Color = White | Grey | Black

  /** The part of g inside a set of vertices. */
  ghost function Within(g: Graph<ID>, vertices: set<ID>): (r: Graph<ID>)
    requires vertices <= g.Keys
    ensures r.Keys == vertices
  {
    map v | v in vertices :: g[v] * vertices
  }

  /** No vertex is without a prerequisite inside g. */
  ghost predicate NoDeadEnd(g: Graph<ID>) {
    forall v <- g :: g[v] != {}
  }

  /** The first vertex to turn black has nothing left to depend on. */
  lemma BlackMeansDeadEnd(g: Graph<ID>, order: seq<ID>)
    requires OrderOf(g, order, Elems(order)) && order != []
    ensures !NoDeadEnd(g)
  {
    assert g[order[0]] <= Elems(order[..0]);
    assert order[0] in Elems(order);
  }

  lemma PathWithoutTop(g: Graph<ID>, path: seq<ID>)
    requires path != [] && Distinct(path) && Walk(g, path) && Elems(path) <= g.Keys
    ensures var most := path[..|path| - 1]; Distinct(most) && Walk(g, most) && Elems(most) <= g.Keys
    ensures var most, top := path[..|path| - 1], path[|path| - 1];
      top in g && top !in most && forall v :: v in path <==> v in most || v == top
  {
    var most, top := path[..|path| - 1], path[|path| - 1];
    assert path == most + [top];
    assert top in Elems(path);
    hide Step;
  }

  lemma OrderSnoc(g: Graph<ID>, order: seq<ID>, id: ID)
    requires OrderOf(g, order, Elems(order)) && id in g && id !in order && g[id] <= Elems(order)
    ensures OrderOf(g, order + [id], Elems(order + [id]))
  {
    assert Elems(order + [id]) == Elems(order) + {id};
    OrderAppend(g, order, Elems(order), id);
  }

  /** The variables that findCyclePath's recursive closure shares. */
  class CycleSearch {
    const deps: map<ID, seq<ID>>
    ghost const g: Graph<ID>
    var color: map<ID, Color>
    var stack: seq<ID>
    var cycle: seq<ID>
    ghost var finished: seq<ID>  // the black vertices, in the order in which they turned black

    function ColorOf(id: ID): Color
      reads this
    {
      if id in color then color[id] else White
    }

    ghost function Whites(): set<ID>
      reads this
    {
      set v | v in g && ColorOf(v) == White
    }

    /** The grey vertices are the current path; a vertex is black only after all it depends on is. */
    ghost predicate Valid()
      reads this
    {
      && Closed(g)
      && (forall v <- g :: Elems(Lookup(deps, v)) == g[v])
      && Distinct(stack) && Walk(g, stack) && Elems(stack) <= g.Keys
      && OrderOf(g, finished, Elems(finished))
      && (forall v <- g :: ColorOf(v) == Grey <==> v in stack)
      && (forall v <- g :: ColorOf(v) == Black <==> v in finished)
    }

    constructor (deps: map<ID, seq<ID>>, ghost g: Graph<ID>)
      requires Closed(g) && forall v <- g :: Elems(Lookup(deps, v)) == g[v]
      ensures Valid() && this.deps == deps && this.g == g
      ensures stack == [] && finished == []
    {
      this.deps, this.g := deps, g;
      color, stack, cycle, finished := map[], [], [], [];
    }

    /** The first position of a vertex on the stack. */
    method IndexOnStack(id: ID) returns (idx: nat)
      requires id in stack
      ensures idx < |stack| && stack[idx] == id
    {
      idx := 0;
      while stack[idx] != id
        invariant idx < |stack| && id in stack[idx..]
        decreases |stack| - idx
      {
        idx := idx + 1;
      }
    }

    method Push(id: ID)
      requires Valid() && id in g && ColorOf(id) == White
      requires stack != [] ==> Step(g, stack[|stack| - 1], id)
      modifies this`color, this`stack
      ensures Valid() && stack == old(stack) + [id]
      ensures Whites() == old(Whites()) - {id}
    {
      color := color[id := Grey];
      stack := stack + [id];
    }

    method Pop(ghost id: ID)
      requires Valid() && stack != [] && stack[|stack| - 1] == id && g[id] <= Elems(finished)
      modifies this`color, this`stack, this`finished
      ensures Valid() && stack == old(stack)[..|old(stack)| - 1] && finished == old(finished) + [id]
      ensures Whites() == old(Whites())
    {
      hide Closed, Walk, Distinct, OrderOf, Elems, Lookup, Step;
      var top := stack[|stack| - 1];
      PathWithoutTop(g, stack);
      OrderSnoc(g, finished, top);
      stack := stack[..|stack| - 1];
      color := color[top := Black];
      finished := finished + [top];
    }

    /** dfs: either closes a cycle, or leaves the path as it was and id black. */
    method Dfs(id: ID) returns (found: bool)
      requires Valid() && id in g && ColorOf(id) == White
      requires stack != [] ==> Step(g, stack[|stack| - 1], id)
      modifies this
      ensures found ==> SimpleCycle(g, cycle) && Elems(cycle) <= g.Keys
      ensures !found ==> Valid() && stack == old(stack) && id in finished
      ensures !found ==> Elems(old(finished)) <= Elems(finished) && Whites() <= old(Whites())
      decreases Whites(), 0
    {
      assert id in Whites();
      Push(id);
      var ds := Lookup(deps, id);
      for k := 0 to |ds|
        invariant Valid() && stack == old(stack) + [id]
        invariant Elems(old(finished)) <= Elems(finished) && Whites() <= old(Whites()) - {id}
        invariant Elems(ds[..k]) <= Elems(finished)
      {
        found := Explore(id, ds[k]);
        if found { return; }
        assert Elems(ds[..k + 1]) == Elems(ds[..k]) + {ds[k]};
      }
      assert ds[..|ds|] == ds;
      Pop(id);
      found := false;
    }

    /** Between two searches: the path is empty and everything visited is black. */
    ghost predicate Idle(visited: set<ID>)
      reads this
    {
      Valid() && stack == [] && visited <= Elems(finished)
    }

    method Start(id: ID, ghost visited: set<ID>) returns (found: bool)
      requires Idle(visited) && id in g && ColorOf(id) == White
      modifies this
      ensures found ==> SimpleCycle(g, cycle) && Elems(cycle) <= g.Keys
      ensures !found ==> Idle(visited + {id}) && !NoDeadEnd(g)
    {
      found := Dfs(id);
      if !found {
        BlackMeansDeadEnd(g, finished);
      }
    }

    lemma AlreadyBlack(id: ID, visited: set<ID>)
      requires Idle(visited) && id in g && ColorOf(id) != White
      ensures Idle(visited + {id}) && !NoDeadEnd(g)
    {
      assert id in finished;
      BlackMeansDeadEnd(g, finished);
    }

    lemma NothingFound()
      requires Idle(g.Keys)
      ensures Acyclic(g)
    {
      assert Elems(finished) == g.Keys;
      OrderedImpliesAcyclic(g, finished);
    }

    /** One dependency of the vertex on top of the path. */
    method Explore(ghost id: ID, dep: ID) returns (found: bool)
      requires Valid() && stack != [] && stack[|stack| - 1] == id && Step(g, id, dep)
      modifies this
      ensures found ==> SimpleCycle(g, cycle) && Elems(cycle) <= g.Keys
      ensures !found ==> Valid() && stack == old(stack) && dep in finished
      ensures !found ==> Elems(old(finished)) <= Elems(finished) && Whites() <= old(Whites())
      decreases Whites(), 1
    {
      assert dep in g;
      match ColorOf(dep) {
        case Grey =>
          var idx := IndexOnStack(dep);
          ghost var c := CloseCycle(g, stack, idx);
          cycle := stack[idx..] + [dep];
          found := true;
        case White =>
          found := Dfs(dep);
        case Black =>
          found := false;
      }
    }
  }

  method CollectDeps(node: Node, remaining: set<ID>) returns (ds: seq<ID>)
    ensures Elems(ds) == Edges(node, true) * remaining
  {
    ds := [];
    for k := 0 to |node.depends|
      invariant Elems(ds) == EdgesUpTo(node, true, k) * remaining
    {
      var dep := node.depends[k].nodeID;
      if dep in remaining {
        assert Elems(ds + [dep]) == Elems(ds) + {dep};
        ds := ds + [dep];
      }
    }
  }

  /** The dependencies of each remaining node on remaining nodes. */
  method BuildDeps(remaining: set<ID>, d: Definition) returns (deps: map<ID, seq<ID>>)
    requires DistinctIDs(d.nodes) && remaining <= IDs(d.nodes)
    ensures forall v <- remaining :: Elems(Lookup(deps, v)) == Within(Declared(d), remaining)[v]
  {
    deps := map[];
    for n := 0 to |d.nodes|
      invariant forall i :: 0 <= i < n && d.nodes[i].id in remaining ==>
                  Elems(Lookup(deps, d.nodes[i].id)) == Edges(d.nodes[i], true) * remaining
    {
      var node := d.nodes[n];
      if node.id in remaining {
        var ds := CollectDeps(node, remaining);
        deps := deps[node.id := ds];
      }
    }
    forall v <- remaining ensures Elems(Lookup(deps, v)) == Within(Declared(d), remaining)[v] {
      var i := IndexOfID(d.nodes, v);
      GraphAt(d.nodes, true, i);
    }
  }

  /** findCyclePath: finds a cycle among the given nodes exactly when there is one, whatever node the search
      starts from; where every node depends on another of them, the first start node is enough. */
  method FindCyclePath(remaining: set<ID>, d: Definition) returns (path: seq<ID>, ghost starts: nat)
    requires DistinctIDs(d.nodes) && remaining <= IDs(d.nodes)
    ensures path != [] ==> SimpleCycle(Within(Declared(d), remaining), path) && Elems(path) <= remaining
    ensures path == [] ==> Acyclic(Within(Declared(d), remaining))
    ensures NoDeadEnd(Within(Declared(d), remaining)) && remaining != {} ==> path != [] && starts == 1
  {
    var deps := BuildDeps(remaining, d);
    var search := new CycleSearch(deps, Within(Declared(d), remaining));
    var left := remaining;
    starts := 0;
    while left != {}
      invariant left <= remaining && search.g == Within(Declared(d), remaining)
      invariant search.Idle(remaining - left)
      invariant NoDeadEnd(search.g) ==> starts == 0 && left == remaining
    {
      var id :| id in left;
      if search.ColorOf(id) == White {
        starts := starts + 1;
        var found := search.Start(id, remaining - left);
        if found {
          return search.cycle, starts;
        }
      } else {
        search.AlreadyBlack(id, remaining - left);
      }
      assert remaining - left + {id} == remaining - (left - {id});
      left := left - {id};
    }
    path := [];
    search.NothingFound();
  }

  // ----- detectCycle -----

  /** Every vertex of s waits for another one of s. */
  ghost predicate Stuck(g: Graph<ID>, s: set<ID>) {
    s <= g.Keys && forall v <- s :: g[v] * s != {}
  }

  ghost predicate LargestStuck(g: Graph<ID>, s: set<ID>) {
    Stuck(g, s) && forall t: set<ID> :: Stuck(g, t) ==> t <= s
  }

  /** What the sort leaves over waits for itself ... */
  lemma LeftoverIsStuck(g: Graph<ID>, done: set<ID>, indegree: map<ID, int>)
    requires Closed(g) && KahnInvariant(g, done, indegree, {})
    ensures Stuck(g, g.Keys - done)
    ensures forall v <- g :: Count(indegree, v) > 0 <==> v in g.Keys - done
  {
    forall v | v in g && v !in done ensures g[v] * (g.Keys - done) != {} {
      assert indegree[v] != 0;
      assert g[v] - done != {};
      var u :| u in g[v] - done;
      assert u in g[v] * (g.Keys - done);
    }
  }

  /** ... and contains everything that does. */
  lemma LeftoverIsLargest(g: Graph<ID>, order: seq<ID>, done: set<ID>)
    requires OrderOf(g, order, done) && Stuck(g, g.Keys - done)
    ensures LargestStuck(g, g.Keys - done)
  {
    forall s: set<ID> | Stuck(g, s) ensures s <= g.Keys - done {
      StuckAvoidsOrder(g, order, s, |order|);
      assert order[..|order|] == order;
    }
  }

  lemma {:induction false} StuckAvoidsOrder(g: Graph<ID>, order: seq<ID>, s: set<ID>, n: nat)
    requires Ordered(g, order) && Stuck(g, s) && n <= |order|
    ensures s !! Elems(order[..n])
  {
    if n > 0 {
      StuckAvoidsOrder(g, order, s, n - 1);
      assert order[..n] == order[..n - 1] + [order[n - 1]];
      assert g[order[n - 1]] <= Elems(order[..n - 1]);
    }
  }

  lemma AcyclicIffNothingLeft(g: Graph<ID>, order: seq<ID>, done: set<ID>)
    requires OrderOf(g, order, done) && Stuck(g, g.Keys - done)
    ensures Acyclic(g) <==> g.Keys - done == {}
  {
    if g.Keys - done == {} {
      assert done == g.Keys - (g.Keys - done);
      OrderedImpliesAcyclic(g, order);
    } else {
      var p := StuckImpliesCycle(g, g.Keys - done);
    }
  }

  lemma UnconditionalClosed(d: Definition)
    requires ReferencesValid(d)
    ensures Closed(Unconditional(d))
  {
    forall v | v in IDs(d.nodes) ensures Unconditional(d)[v] <= IDs(d.nodes) {
      GraphClosed(d, v);
    }
  }

  /** A node that waits for another one also depends on it. */
  lemma StuckHasNoDeadEnd(d: Definition, s: set<ID>)
    requires ReferencesValid(d) && Stuck(Unconditional(d), s)
    ensures s <= IDs(d.nodes) && NoDeadEnd(Within(Declared(d), s))
  {
    forall v | v in s ensures Declared(d)[v] * s != {} {
      GraphClosed(d, v);
      var u :| u in Unconditional(d)[v] * s;
      assert u in Declared(d)[v] * s;
    }
  }

  lemma CycleOfPart(g: Graph<ID>, s: set<ID>, p: seq<ID>)
    requires s <= g.Keys && SimpleCycle(Within(g, s), p)
    ensures SimpleCycle(g, p)
  {
    forall i | 0 <= i < |p| - 1 ensures Step(g, p[i], p[i + 1]) {
      assert Step(Within(g, s), p[i], p[i + 1]);
    }
  }

  /** `remaining`: the nodes whose indegree never reached zero. */
  method Remaining(d: Definition, indegree: map<ID, int>, ghost leftover: set<ID>) returns (remaining: set<ID>)
    requires leftover <= IDs(d.nodes) && forall v <- IDs(d.nodes) :: Count(indegree, v) > 0 <==> v in leftover
    ensures remaining == leftover
  {
    remaining := {};
    for n := 0 to |d.nodes|
      invariant remaining == IDs(d.nodes[..n]) * leftover
    {
      assert d.nodes[..n + 1][..n] == d.nodes[..n];
      IDIn(d.nodes, n);
      if Count(indegree, d.nodes[n].id) > 0 {
        remaining := remaining + {d.nodes[n].id};
      }
    }
    assert d.nodes[..|d.nodes|] == d.nodes;
  }

  lemma ProcessedAll(g: Graph<ID>, order: seq<ID>, done: set<ID>)
    requires OrderOf(g, order, done)
    ensures |order| == |g.Keys| <==> g.Keys - done == {}
  {
    ElemsSize(order);
    assert |g.Keys - done| == |g.Keys| - |done|;
  }

  /** What the end of the sort means, in terms of the vertices it leaves over. */
  ghost predicate SortedOut(g: Graph<ID>, processed: nat, indegree: map<ID, int>, leftover: set<ID>) {
    && (forall v <- g :: Count(indegree, v) > 0 <==> v in leftover)
    && (processed == |g.Keys| <==> leftover == {})
    && (Acyclic(g) <==> leftover == {})
  }

  lemma SortCorrect(g: Graph<ID>, order: seq<ID>, done: set<ID>, indegree: map<ID, int>)
    requires Closed(g) && OrderOf(g, order, done) && KahnInvariant(g, done, indegree, {})
    ensures SortedOut(g, |order|, indegree, g.Keys - done) && LargestStuck(g, g.Keys - done)
  {
    LeftoverIsStuck(g, done, indegree);
    LeftoverIsLargest(g, order, done);
    AcyclicIffNothingLeft(g, order, done);
    ProcessedAll(g, order, done);
  }

  /** The sorting half of detectCycle. */
  method Sort(d: Definition) returns (processed: nat, indegree: map<ID, int>, ghost leftover: set<ID>)
    requires DistinctIDs(d.nodes) && Closed(Unconditional(d))
    ensures SortedOut(Unconditional(d), processed, indegree, leftover)
    ensures LargestStuck(Unconditional(d), leftover)
    ensures processed == |Unconditional(d).Keys| <==> Acyclic(Unconditional(d))
  {
    ghost var g := Unconditional(d);
    var dependents;
    indegree, dependents := CountEdges(d);
    var queue, waiting := InitialQueue(indegree);
    KahnStarts(g, indegree, waiting);
    ghost var order, done;
    processed, indegree, order, done := Drain(g, dependents, indegree, queue, waiting);
    SortCorrect(g, order, done, indegree);
    leftover := g.Keys - done;
  }

  /** detectCycle reports no cycle if and only if the unconditional edges form none; otherwise it always
      finds an explicit one, among the nodes that can never start. */
  method DetectCycle(d: Definition) returns (r: Report, ghost leftover: set<ID>)
    requires ReferencesValid(d)
    ensures r.NoCycle? <==> Acyclic(Unconditional(d))
    ensures !r.CycleAmong?
    ensures r.CyclePath? ==> SimpleCycle(Declared(d), r.path) && Elems(r.path) <= leftover
    ensures LargestStuck(Unconditional(d), leftover)
  {
    UnconditionalClosed(d);
    var processed, indegree;
    processed, indegree, leftover := Sort(d);
    IDsSize(d.nodes);
    if processed == |d.nodes| {
      r := NoCycle;
    } else {
      r := ExplainLeftover(d, indegree, leftover);
    }
  }

  lemma StartsDistinct(d: Definition)
    requires ReferencesValid(d)
    ensures DistinctIDs(d.nodes)
  {
  }

  method ExplainLeftover(d: Definition, indegree: map<ID, int>, ghost leftover: set<ID>) returns (r: Report)
    requires ReferencesValid(d) && leftover != {} && Stuck(Unconditional(d), leftover)
    requires forall v <- IDs(d.nodes) :: Count(indegree, v) > 0 <==> v in leftover
    ensures r.CyclePath? && SimpleCycle(Declared(d), r.path) && Elems(r.path) <= leftover
  {
    hide *;
    StuckHasNoDeadEnd(d, leftover);
    StartsDistinct(d);
    var remaining := Remaining(d, indegree, leftover);
    r := ReportCycle(d, remaining);
  }

  /** The reporting half: `circular dependency detected`, with a path whenever the nodes wait for each other. */
  method ReportCycle(d: Definition, remaining: set<ID>) returns (r: Report)
    requires DistinctIDs(d.nodes) && remaining != {} && remaining <= IDs(d.nodes)
    requires NoDeadEnd(Within(Declared(d), remaining))
    ensures r.CyclePath? && SimpleCycle(Declared(d), r.path) && Elems(r.path) <= remaining
  {
    var path, starts := FindCyclePath(remaining, d);
    if path != [] {
      CycleOfPart(Declared(d), remaining, path);
      return CyclePath(path);
    }
    r := CycleAmong(remaining);
  }
}
