/** Directed graphs given by each vertex's set of direct prerequisites. */
module Digraph {

  type Graph<T> = map<T, set<T>>

  ghost predicate Closed<T>(g: Graph<T>) {
    forall v <- g :: g[v] <= g.Keys
  }

  ghost predicate Step<T>(g: Graph<T>, v: T, u: T) {
    v in g && u in g[v]
  }

  /** Every vertex of p has the next one among its prerequisites. */
  ghost predicate Walk<T>(g: Graph<T>, p: seq<T>) {
    forall i :: 0 <= i < |p| - 1 ==> Step(g, p[i], p[i + 1])
  }

  ghost predicate Cycle<T>(g: Graph<T>, p: seq<T>) {
    |p| >= 2 && p[0] == p[|p| - 1] && Walk(g, p)
  }

  ghost predicate Distinct<T>(s: seq<T>) {
    forall i, j :: 0 <= i < j < |s| ==> s[i] != s[j]
  }

  /** A cycle that repeats nothing but its first vertex, at its end. */
  ghost predicate SimpleCycle<T>(g: Graph<T>, p: seq<T>) {
    Cycle(g, p) && Distinct(p[..|p| - 1])
  }

  ghost predicate Acyclic<T(!new)>(g: Graph<T>) {
    forall p: seq<T> :: !Cycle(g, p)
  }

  function Elems<T>(s: seq<T>): set<T> {
    set x | x in s
  }

  /** s lists each member once. */
  ghost predicate Holds<T>(s: seq<T>, members: set<T>) {
    Distinct(s) && Elems(s) == members
  }

  lemma HoldsAppend<T>(s: seq<T>, members: set<T>, x: T)
    requires Holds(s, members) && x !in members
    ensures Holds(s + [x], members + {x})
  {
    assert x !in s;
  }

  lemma HoldsPop<T>(s: seq<T>, members: set<T>)
    requires Holds(s, members) && s != []
    ensures s[0] in members && Holds(s[1..], members - {s[0]})
  {
    assert s[0] in Elems(s);
    forall x ensures x in Elems(s[1..]) <==> x in members - {s[0]} {
      assert s == [s[0]] + s[1..];
      assert x in Elems(s) <==> x in s;
    }
  }

  /** All prerequisites of a listed vertex are listed before it. */
  ghost predicate Ordered<T>(g: Graph<T>, order: seq<T>) {
    forall i :: 0 <= i < |order| ==> order[i] in g && g[order[i]] <= Elems(order[..i])
  }

  lemma {:induction false} WalkDescends<T>(g: Graph<T>, order: seq<T>, p: seq<T>, k: nat) returns (j: nat)
    requires Ordered(g, order) && Walk(g, p) && |p| > 0
    requires k < |order| && order[k] == p[0]
    ensures j <= k && order[j] == p[|p| - 1] && (|p| > 1 ==> j < k)
    decreases |p|
  {
    j := k;
    if |p| > 1 {
      assert Step(g, p[0], p[1]);
      var m :| 0 <= m < k && order[m] == p[1];
      assert Walk(g, p[1..]) by {
        forall i | 0 <= i < |p[1..]| - 1 ensures Step(g, p[1..][i], p[1..][i + 1]) {
          assert Step(g, p[i + 1], p[i + 2]);
        }
      }
      j := WalkDescends(g, order, p[1..], m);
    }
  }

  /** A complete order is proof of acyclicity. */
  lemma OrderedImpliesAcyclic<T(!new)>(g: Graph<T>, order: seq<T>)
    requires Ordered(g, order) && Distinct(order) && Elems(order) == g.Keys
    ensures Acyclic(g)
  {
    forall p: seq<T> ensures !Cycle(g, p) {
      if |p| >= 2 && Walk(g, p) {
        assert Step(g, p[0], p[1]);
        assert p[0] in Elems(order);
        var k :| 0 <= k < |order| && order[k] == p[0];
        var j := WalkDescends(g, order, p, k);
      }
    }
  }

  /** Pigeonhole: where every vertex of a non-empty set has a prerequisite in the set, following
      prerequisites must come back. */
  lemma StuckImpliesCycle<T(!new)>(g: Graph<T>, stuck: set<T>) returns (p: seq<T>)
    requires stuck != {} && stuck <= g.Keys
    requires forall v <- stuck :: g[v] * stuck != {}
    ensures SimpleCycle(g, p) && Elems(p) <= stuck
  {
    var v :| v in stuck;
    p := ExtendWalk(g, stuck, [v]);
  }

  lemma {:induction false} ExtendWalk<T(!new)>(g: Graph<T>, stuck: set<T>, p: seq<T>) returns (c: seq<T>)
    requires stuck <= g.Keys
    requires forall v <- stuck :: g[v] * stuck != {}
    requires p != [] && Distinct(p) && Walk(g, p) && Elems(p) <= stuck
    ensures SimpleCycle(g, c) && Elems(c) <= stuck
    decreases stuck - Elems(p)
  {
    var last := p[|p| - 1];
    assert last in Elems(p);
    var u :| u in g[last] * stuck;
    assert Step(g, last, u);
    if u in p {
      var k :| 0 <= k < |p| && p[k] == u;
      c := CloseCycle(g, p, k);
    } else {
      assert Walk(g, p + [u]);
      assert Elems(p + [u]) == Elems(p) + {u};
      c := ExtendWalk(g, stuck, p + [u]);
    }
  }

  /** In an acyclic graph some vertex of every non-empty set can go first. */
  lemma SomeVertexIsReady<T(!new)>(g: Graph<T>, left: set<T>) returns (v: T)
    requires Acyclic(g) && left != {} && left <= g.Keys
    ensures v in left && g[v] * left == {}
  {
    if forall u <- left :: g[u] * left != {} {
      var p := StuckImpliesCycle(g, left);
    }
    v :| v in left && g[v] * left == {};
  }

  lemma AppendOrdered<T>(g: Graph<T>, order: seq<T>, v: T)
    requires Ordered(g, order) && Distinct(order) && v in g && v !in order && g[v] <= Elems(order)
    ensures Ordered(g, order + [v]) && Distinct(order + [v]) && Elems(order + [v]) == Elems(order) + {v}
  {
    assert (order + [v])[..|order|] == order;
    assert forall i :: 0 <= i < |order| ==> (order + [v])[..i] == order[..i];
  }

  /** The other half: what is acyclic can be listed with prerequisites first. */
  lemma {:induction false} AcyclicHasOrder<T(!new)>(g: Graph<T>, sorted: seq<T>) returns (order: seq<T>)
    requires Closed(g) && Acyclic(g) && Ordered(g, sorted) && Distinct(sorted) && Elems(sorted) <= g.Keys
    ensures Ordered(g, order) && Distinct(order) && Elems(order) == g.Keys
    decreases g.Keys - Elems(sorted)
  {
    var left := g.Keys - Elems(sorted);
    if left == {} {
      order := sorted;
      assert Elems(sorted) == g.Keys - left;
    } else {
      var v := SomeVertexIsReady(g, left);
      assert v !in Elems(sorted);
      forall u <- g[v] ensures u in Elems(sorted) { assert u !in g[v] * left; }
      AppendOrdered(g, sorted, v);
      order := AcyclicHasOrder(g, sorted + [v]);
    }
  }

  /** The back edge from the end of a walk to its vertex k closes a simple cycle. */
  lemma CloseCycle<T>(g: Graph<T>, p: seq<T>, k: nat) returns (c: seq<T>)
    requires Distinct(p) && Walk(g, p) && k < |p| && Step(g, p[|p| - 1], p[k])
    ensures c == p[k..] + [p[k]] && SimpleCycle(g, c) && Elems(c) <= Elems(p)
  {
    c := p[k..] + [p[k]];
    forall i | 0 <= i < |c| - 1 ensures Step(g, c[i], c[i + 1]) {
      if k + i + 1 < |p| { assert Step(g, p[k + i], p[k + i + 1]); }
    }
    assert c[..|c| - 1] == p[k..];
    forall x | x in c ensures x in p { }
  }

  lemma {:induction false} ElemsSize<T>(s: seq<T>)
    requires Distinct(s)
    ensures |Elems(s)| == |s|
  {
    if s != [] {
      var n := |s| - 1;
      ElemsSize(s[..n]);
      assert Elems(s) == Elems(s[..n]) + {s[n]};
    }
  }
}
