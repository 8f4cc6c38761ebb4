/** Simple undirected graphs over the nodes 0 .. n-1, stored the way networkx
    stores them: one neighbour set per node, in node-insertion order. The
    rewiring models own one such graph and mutate it in place, so the graph is
    a class; everything that only reads a graph is a function of its adjacency. */
module Graphs {

  /** adj[v] is the set of neighbours of node v. A self-loop at v is v in adj[v]. */
  type Adjacency = seq<set<int>>

  predicate IsNode(adj: Adjacency, v: int) {
    0 <= v < |adj|
  }

  /** Every neighbour is a node, and every edge is recorded at both of its ends. */
  ghost predicate WellFormed(adj: Adjacency) {
    forall u, v {:trigger v in adj[u]} :: 0 <= u < |adj| && v in adj[u] ==> 0 <= v < |adj| && u in adj[v]
  }

  ghost predicate NoSelfLoops(adj: Adjacency) {
    forall u, v :: 0 <= u < |adj| && v in adj[u] ==> u != v
  }

  /** The node set {0, ..., n-1}. */
  function Nodes(n: nat): (r: set<int>)
    ensures forall v :: v in r <==> 0 <= v < n
  {
    if n == 0 then {} else Nodes(n - 1) + {n - 1}
  }

  /** The node list [0, ..., n-1], in the order networkx reports the nodes. */
  function NodeList(n: nat): (s: seq<int>)
    ensures |s| == n
    ensures forall i :: 0 <= i < n ==> s[i] == i
    ensures forall v :: v in s <==> 0 <= v < n
  {
    if n == 0 then [] else NodeList(n - 1) + [n - 1]
  }

  lemma {:induction false} NodesCardinality(n: nat)
    ensures |Nodes(n)| == n
  {
    if n > 0 {
      NodesCardinality(n - 1);
    }
  }

  /** Some member of a non-empty set. */
  lemma PickMember(t: set<int>) returns (y: int)
    requires t != {}
    ensures y in t
  {
    if forall z :: z !in t {
      assert false;
    }
    y :| y in t;
  }

  /** networkx's G.degree(v): a self-loop adds two to the degree of its node. */
  function Degree(adj: Adjacency, v: int): (d: nat)
    requires IsNode(adj, v)
    ensures d == 0 <==> adj[v] == {}
    ensures v !in adj[v] ==> d == |adj[v]|
  {
    |adj[v]| + (if v in adj[v] then 1 else 0)
  }

  /** The adjacency after networkx's add_edge(u, v): the edge set gains {u, v}
      (nothing changes if the edge is already there). */
  function WithEdge(adj: Adjacency, u: int, v: int): (r: Adjacency)
    requires IsNode(adj, u) && IsNode(adj, v)
    ensures |r| == |adj|
    ensures forall x, y :: 0 <= x < |adj| ==>
      (y in r[x] <==> y in adj[x] || (x == u && y == v) || (x == v && y == u))
    ensures WellFormed(adj) ==> WellFormed(r)
  {
    var a := adj[u := adj[u] + {v}];
    var r := a[v := a[v] + {u}];
    assert forall x :: 0 <= x < |adj| ==>
      r[x] == adj[x] + (if x == u then {v} else {}) + (if x == v then {u} else {});
    r
  }

  /** add_edge(u, v) of two distinct nodes extends exactly the rows of u and v. */
  lemma WithEdgeRows(adj: Adjacency, u: int, v: int)
    requires IsNode(adj, u) && IsNode(adj, v) && u != v
    ensures WithEdge(adj, u, v)[u] == adj[u] + {v}
    ensures WithEdge(adj, u, v)[v] == adj[v] + {u}
    ensures forall x :: 0 <= x < |adj| && x != u && x != v ==> WithEdge(adj, u, v)[x] == adj[x]
  {
  }

  /** The adjacency after networkx's remove_edge(u, v): the edge {u, v} is gone
      and every other edge stays. */
  function WithoutEdge(adj: Adjacency, u: int, v: int): (r: Adjacency)
    requires IsNode(adj, u) && IsNode(adj, v)
    ensures |r| == |adj|
    ensures forall x, y :: 0 <= x < |adj| ==>
      (y in r[x] <==> y in adj[x] && !(x == u && y == v) && !(x == v && y == u))
    ensures WellFormed(adj) ==> WellFormed(r)
  {
    var a := adj[u := adj[u] - {v}];
    var r := a[v := a[v] - {u}];
    assert forall x :: 0 <= x < |adj| ==>
      r[x] == adj[x] - (if x == u then {v} else {}) - (if x == v then {u} else {});
    r
  }

  /** Adding an edge that was absent and removing it again gives back the graph. */
  lemma AddRemoveRoundTrip(adj: Adjacency, u: int, v: int)
    requires WellFormed(adj) && IsNode(adj, u) && IsNode(adj, v) && v !in adj[u]
    ensures WithoutEdge(WithEdge(adj, u, v), u, v) == adj
  {
    var r := WithoutEdge(WithEdge(adj, u, v), u, v);
    forall x | 0 <= x < |adj| ensures r[x] == adj[x] {
      if x == v { assert u !in adj[v]; }
    }
  }

  /** Removing an edge that was present and adding it again gives back the graph. */
  lemma RemoveAddRoundTrip(adj: Adjacency, u: int, v: int)
    requires WellFormed(adj) && IsNode(adj, u) && IsNode(adj, v) && v in adj[u]
    ensures WithEdge(WithoutEdge(adj, u, v), u, v) == adj
  {
    var r := WithEdge(WithoutEdge(adj, u, v), u, v);
    forall x | 0 <= x < |adj| ensures r[x] == adj[x] {
      if x == v { assert u in adj[v]; }
    }
  }

  /** add_edge followed by remove_edge of the same pair deletes the pair whether
      or not it was an edge before: add_edge on an existing edge does nothing. */
  lemma AddThenRemove(adj: Adjacency, u: int, v: int)
    requires IsNode(adj, u) && IsNode(adj, v)
    ensures WithoutEdge(WithEdge(adj, u, v), u, v) == WithoutEdge(adj, u, v)
  {
    var r, s := WithoutEdge(WithEdge(adj, u, v), u, v), WithoutEdge(adj, u, v);
    forall x | 0 <= x < |adj| ensures r[x] == s[x] {
    }
  }

  /** The adjacency after remove_edge(u, m) for every m of ms, in order. */
  function Detach(adj: Adjacency, u: int, ms: seq<int>): (r: Adjacency)
    requires IsNode(adj, u) && forall m :: m in ms ==> IsNode(adj, m)
    ensures |r| == |adj|
    ensures forall x, y {:trigger y in r[x]} {:trigger y in adj[x]} :: 0 <= x < |adj| ==>
      (y in r[x] <==> y in adj[x] && !(x == u && y in ms) && !(y == u && x in ms))
    ensures WellFormed(adj) ==> WellFormed(r)
  {
    if ms == [] then adj
    else
      var last := ms[|ms| - 1];
      assert last in ms && IsNode(adj, last);
      assert forall m :: m in ms[..|ms| - 1] ==> m in ms;
      var rest := Detach(adj, u, ms[..|ms| - 1]);
      WithoutEdge(rest, u, last)
  }

  /** Removing edges that are not there changes nothing. */
  lemma {:induction false} DetachNonNeighbours(adj: Adjacency, u: int, ms: seq<int>)
    requires WellFormed(adj) && IsNode(adj, u) && forall m :: m in ms ==> IsNode(adj, m)
    requires forall m :: m in ms ==> m !in adj[u]
    ensures Detach(adj, u, ms) == adj
  {
    var r := Detach(adj, u, ms);
    forall x | 0 <= x < |adj| ensures r[x] == adj[x] {
      forall y ensures y in r[x] <==> y in adj[x] {
      }
    }
  }

  // ---------------------------------------------------------------------------
  // Connectivity: networkx's connected components and is_connected, defined by
  // closing a node set under the neighbour relation.

  /** Every node adjacent to some member of S. */
  function Neighbourhood(adj: Adjacency, S: set<int>): (r: set<int>)
    requires WellFormed(adj)
    ensures r <= Nodes(|adj|)
    ensures forall x, y {:trigger y in adj[x]} :: x in S && 0 <= x < |adj| && y in adj[x] ==> y in r
  {
    var r := set x, y | x in S && 0 <= x < |adj| && y in adj[x] :: y;
    assert forall y :: y in r ==> 0 <= y < |adj|;
    r
  }

  /** Conversely, every member of the neighbourhood of S is adjacent to a
      member of S. */
  lemma NeighbourhoodOnlyNeighbours(adj: Adjacency, S: set<int>, y: int)
    requires WellFormed(adj) && y in Neighbourhood(adj, S)
    ensures exists x :: x in S && 0 <= x < |adj| && y in adj[x]
  {
  }

  /** No edge leaves T. */
  ghost predicate Closed(adj: Adjacency, T: set<int>) {
    forall x, y {:trigger y in adj[x]} :: x in T && 0 <= x < |adj| && y in adj[x] ==> y in T
  }

  lemma GrowthBound(adj: Adjacency, S: set<int>, grown: set<int>)
    requires S <= grown <= Nodes(|adj|) && !(grown <= S)
    ensures |S| < |grown| <= |adj|
  {
    NodesCardinality(|adj|);
    assert grown == S + (grown - S);
    assert Nodes(|adj|) == grown + (Nodes(|adj|) - grown);
  }

  /** The nodes reachable from S: S grown by its neighbourhood until nothing
      new is added (networkx's breadth-first search from S). */
  function Closure(adj: Adjacency, S: set<int>): (c: set<int>)
    requires WellFormed(adj) && S <= Nodes(|adj|)
    ensures S <= c <= Nodes(|adj|)
    ensures Closed(adj, c)
    decreases |adj| - |S|
  {
    var grown := S + Neighbourhood(adj, S);
    if grown <= S then S
    else
      GrowthBound(adj, S, grown);
      Closure(adj, grown)
  }

  /** The closure is the least closed set containing S. */
  lemma {:induction false} ClosureLeast(adj: Adjacency, S: set<int>, T: set<int>)
    requires WellFormed(adj) && S <= Nodes(|adj|) && S <= T && Closed(adj, T)
    ensures Closure(adj, S) <= T
    decreases |adj| - |S|
  {
    var grown := S + Neighbourhood(adj, S);
    if !(grown <= S) {
      GrowthBound(adj, S, grown);
      ClosureLeast(adj, grown, T);
    }
  }

  /** The connected component of node v. */
  function Component(adj: Adjacency, v: int): (c: set<int>)
    requires WellFormed(adj) && IsNode(adj, v)
    ensures v in c && c <= Nodes(|adj|)
  {
    Closure(adj, {v})
  }

  /** Reachability in an undirected graph is symmetric. */
  lemma ReachSymmetric(adj: Adjacency, x: int, y: int)
    requires WellFormed(adj) && IsNode(adj, x) && IsNode(adj, y)
    requires y in Component(adj, x)
    ensures x in Component(adj, y)
  {
    var T := Reachers(adj, x);
    ReachersClosed(adj, x, T);
    ClosureLeast(adj, {x}, T);
  }

  /** The nodes whose component contains x. */
  ghost function Reachers(adj: Adjacency, x: int): (T: set<int>)
    requires WellFormed(adj)
    ensures forall z :: z in T <==> 0 <= z < |adj| && x in Component(adj, z)
  {
    set z | 0 <= z < |adj| && x in Component(adj, z)
  }

  lemma ReachersClosed(adj: Adjacency, x: int, T: set<int>)
    requires WellFormed(adj) && IsNode(adj, x) && T == Reachers(adj, x)
    ensures x in T && Closed(adj, T)
  {
    forall z, w | z in T && 0 <= z < |adj| && w in adj[z] ensures w in T {
      ReachersStep(adj, x, z, w);
    }
  }

  lemma ReachersStep(adj: Adjacency, x: int, z: int, w: int)
    requires WellFormed(adj) && IsNode(adj, z) && w in adj[z] && x in Component(adj, z)
    ensures IsNode(adj, w) && x in Component(adj, w)
  {
    NeighbourComponent(adj, z, w);
  }

  /** The component of a neighbour of w lies inside the component of w. */
  lemma NeighbourComponent(adj: Adjacency, z: int, w: int)
    requires WellFormed(adj) && IsNode(adj, z) && w in adj[z]
    ensures IsNode(adj, w) && Component(adj, z) <= Component(adj, w)
  {
    assert z in adj[w];
    ClosureLeast(adj, {z}, Component(adj, w));
  }

  /** networkx's is_connected on a graph with at least one node: every node is
      reachable from the first one. (networkx raises on the empty graph.) */
  predicate Connected(adj: Adjacency): (r: bool)
    requires WellFormed(adj) && |adj| > 0
    ensures r <==> forall v :: 0 <= v < |adj| ==> Component(adj, v) == Nodes(|adj|)
  {
    ReachedFromFirst(adj);
    Component(adj, 0) == Nodes(|adj|)
  }

  /** When node 0 reaches every node, every node reaches every node. */
  lemma ReachedFromFirst(adj: Adjacency)
    requires WellFormed(adj) && |adj| > 0
    ensures Component(adj, 0) == Nodes(|adj|) ==> forall v :: 0 <= v < |adj| ==> Component(adj, v) == Nodes(|adj|)
  {
    if Component(adj, 0) == Nodes(|adj|) {
      forall v | 0 <= v < |adj| ensures Component(adj, v) == Nodes(|adj|) {
        assert v in Component(adj, 0);
        ReachSymmetric(adj, 0, v);
        ClosureLeast(adj, {0}, Component(adj, v));
      }
    }
  }

  /** A node without neighbours is alone in its component. */
  lemma IsolatedComponent(adj: Adjacency, v: int)
    requires WellFormed(adj) && IsNode(adj, v) && adj[v] == {}
    ensures Component(adj, v) == {v}
  {
    assert Closed(adj, {v});
    ClosureLeast(adj, {v}, {v});
  }

  /** In a connected graph with two or more nodes every node has a neighbour. */
  lemma ConnectedHasNeighbours(adj: Adjacency, v: int)
    requires WellFormed(adj) && |adj| >= 2 && Connected(adj) && IsNode(adj, v)
    ensures adj[v] != {}
  {
    if v == 0 {
      FirstNodeHasNeighbours(adj);
    } else {
      assert v in Component(adj, 0);
      ReachableHasNeighbours(adj, v);
    }
  }

  /** A node other than 0 that node 0 reaches has a neighbour. */
  lemma ReachableHasNeighbours(adj: Adjacency, v: int)
    requires WellFormed(adj) && 0 < v < |adj| && v in Component(adj, 0)
    ensures adj[v] != {}
  {
    if adj[v] == {} {
      IsolatedComponent(adj, v);
      ReachSymmetric(adj, 0, v);
    }
  }

  lemma FirstNodeHasNeighbours(adj: Adjacency)
    requires WellFormed(adj) && |adj| >= 2 && Connected(adj)
    ensures adj[0] != {}
  {
    if adj[0] == {} {
      IsolatedComponent(adj, 0);
    }
  }

  /** Every edge of a is an edge of b. */
  ghost predicate SubGraph(a: Adjacency, b: Adjacency) {
    |a| == |b| && forall v :: 0 <= v < |a| ==> a[v] <= b[v]
  }

  /** Adding edges can only grow a component. */
  lemma ComponentGrows(a: Adjacency, b: Adjacency, v: int)
    requires WellFormed(a) && WellFormed(b) && SubGraph(a, b) && IsNode(a, v)
    ensures Component(a, v) <= Component(b, v)
  {
    ClosureLeast(a, {v}, Component(b, v));
  }

  /** A closed set (in b) that meets the component of root (in a) contains all
      of that component. */
  lemma MeetingComponentContainsIt(a: Adjacency, b: Adjacency, root: int, y: int, R: set<int>)
    requires WellFormed(a) && WellFormed(b) && SubGraph(a, b) && IsNode(a, root)
    requires y in Component(a, root) && y in R && Closed(b, R)
    ensures Component(a, root) <= R
  {
    ReachSymmetric(a, root, y);
    ComponentGrows(a, b, y);
    ClosureLeast(b, {y}, R);
    ComponentGrows(a, b, root);
    ClosureLeast(b, {root}, R);
  }

  /** After joining every node outside the component of root to some member of
      it, the graph is connected. */
  lemma JoinedToComponentIsConnected(a: Adjacency, b: Adjacency, root: int)
    requires WellFormed(a) && WellFormed(b) && SubGraph(a, b) && IsNode(a, root)
    requires forall x :: 0 <= x < |b| && x !in Component(a, root) ==> b[x] * Component(a, root) != {}
    ensures |b| > 0 && Connected(b)
  {
    var C := Component(a, root);
    var R := Component(b, 0);
    var y: int;
    if 0 in C {
      y := 0;
    } else {
      y :| y in b[0] * C;
    }
    MeetingComponentContainsIt(a, b, root, y, R);
    forall x | 0 <= x < |b| ensures x in R {
      if x !in C {
        var z :| z in b[x] * C;
        assert x in b[z];
      }
    }
    assert R == Nodes(|b|);
  }

  // ---------------------------------------------------------------------------
  // The mutable graph the rewiring models own.

  /** A networkx Graph over the nodes 0 .. |adj|-1. Nodes are fixed at
      construction; edges are added and removed in place. */
  class Graph {
    var adj: Adjacency

    ghost predicate Valid()
      reads this
    {
      WellFormed(adj)
    }

    /** nx.Graph() followed by add_nodes_from(range(n)): n isolated nodes. */
    constructor(n: nat)
      ensures Valid() && |adj| == n
      ensures forall v :: 0 <= v < n ==> adj[v] == {}
    {
      adj := seq(n, _ => {});
    }

    /** G.add_edge(u, v) between two existing nodes. */
    method AddEdge(u: int, v: int)
      requires Valid() && IsNode(adj, u) && IsNode(adj, v)
      modifies this
      ensures Valid() && adj == WithEdge(old(adj), u, v)
    {
      adj := WithEdge(adj, u, v);
    }

    /** G.remove_edge(u, v) of an existing edge (networkx raises otherwise). */
    method RemoveEdge(u: int, v: int)
      requires Valid() && IsNode(adj, u) && v in adj[u]
      modifies this
      ensures Valid() && IsNode(old(adj), v) && adj == WithoutEdge(old(adj), u, v)
    {
      adj := WithoutEdge(adj, u, v);
    }
  }
}
