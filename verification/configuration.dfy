/** The configuration-model generators of utilities.py. configuration_A
    matches degree stubs at random; configuration_B draws degree sequences from
    a weight list until one passes the Erdős–Gallai test (the test networkx's
    is_valid_degree_sequence_erdos_gallai performs) and hands it to
    configuration_A. Both loops may run forever in Python; here each runs on a
    draw budget and reports whether it stopped by itself. */
module Configuration {
  import opened Graphs
  import opened Selection

  // ---------------------------------------------------------------------------
  // Stubs.

  /** len(range(d)): a negative entry contributes no stub. */
  function StubCount(d: int): (c: nat)
    ensures d >= 0 ==> c == d
    ensures d < 0 ==> c == 0
  {
    if d > 0 then d else 0
  }

  /** c copies of x. */
  function Repeat(x: int, c: nat): (r: seq<int>)
    ensures |r| == c
    ensures forall y :: multiset(r)[y] == (if y == x then c else 0)
  {
    if c == 0 then [] else [x] + Repeat(x, c - 1)
  }

  /** [i for i, degree in enumerate(S) for _ in range(degree)]: node i listed
      once per stub, in node order. */
  function Stubs(S: seq<int>): (r: seq<int>)
    ensures forall x :: x in r ==> 0 <= x < |S|
    ensures forall i :: 0 <= i < |S| ==> multiset(r)[i] == StubCount(S[i])
  {
    if S == [] then []
    else
      var prefix := Stubs(S[..|S| - 1]);
      var last := Repeat(|S| - 1, StubCount(S[|S| - 1]));
      assert forall i :: 0 <= i < |S| - 1 ==> S[..|S| - 1][i] == S[i];
      StubsAppend(S, prefix, last);
      prefix + last
  }

  /** The stubs of the last node, appended to those of the others. */
  lemma StubsAppend(S: seq<int>, prefix: seq<int>, last: seq<int>)
    requires S != []
    requires forall x :: x in prefix ==> 0 <= x < |S| - 1
    requires forall i :: 0 <= i < |S| - 1 ==> multiset(prefix)[i] == StubCount(S[i])
    requires last == Repeat(|S| - 1, StubCount(S[|S| - 1]))
    ensures forall x :: x in prefix + last ==> 0 <= x < |S|
    ensures forall i :: 0 <= i < |S| ==> multiset(prefix + last)[i] == StubCount(S[i])
  {
    forall x | x in prefix + last ensures 0 <= x < |S| {
      if x in last {
        assert multiset(last)[x] > 0;
      }
    }
    assert |S| - 1 !in prefix;
    forall i | 0 <= i < |S| ensures multiset(prefix + last)[i] == StubCount(S[i]) {
      assert multiset(prefix + last)[i] == multiset(prefix)[i] + multiset(last)[i];
    }
  }

  /** list.remove(x): drop the first occurrence of x. */
  function RemoveFirst(s: seq<int>, x: int): (r: seq<int>)
    requires x in s
    ensures |r| == |s| - 1
    ensures multiset(r) == multiset(s) - multiset{x}
    ensures multiset(r) <= multiset(s)
  {
    assert s == [s[0]] + s[1..];
    if s[0] == x then s[1..] else [s[0]] + RemoveFirst(s[1..], x)
  }

  /** Every remaining stub names one and the same node. */
  ghost predicate OneNode(stubs: seq<int>) {
    forall i, j :: 0 <= i < |stubs| && 0 <= j < |stubs| ==> stubs[i] == stubs[j]
  }

  /** When every remaining stub names one node, random.sample(stubs, 2) can
      only draw that node twice, so the draw changes nothing and the loop of
      configuration_A never ends. */
  lemma OneNodeDrawsAreIdle(stubs: seq<int>, pair: seq<int>)
    requires OneNode(stubs) && |pair| == 2 && multiset(pair) <= multiset(stubs)
    ensures pair[0] == pair[1]
  {
    assert pair[0] in multiset(pair) && pair[1] in multiset(pair);
    assert pair[0] in stubs && pair[1] in stubs;
  }

  /** Two stubs naming different nodes form a possible draw that adds an edge:
      the loop can make progress exactly when two nodes remain. */
  lemma DistinctStubsCanPair(stubs: seq<int>, i: int, j: int)
    requires 0 <= i < |stubs| && 0 <= j < |stubs| && stubs[i] != stubs[j]
    ensures multiset([stubs[i], stubs[j]]) <= multiset(stubs)
  {
    assert stubs[i] in stubs && stubs[j] in stubs;
  }

  /** Draw p named node i. */
  predicate Names(p: (int, int), i: int) {
    p.0 == i || p.1 == i
  }

  /** How many of the idle draws dups named node i: the stubs i used up
      without gaining a neighbour. */
  function Shortfall(dups: seq<(int, int)>, i: int): (r: nat)
    ensures r <= |dups|
    ensures r > 0 <==> exists k :: 0 <= k < |dups| && Names(dups[k], i)
  {
    if dups == [] then 0
    else
      var prefix := dups[..|dups| - 1];
      assert forall k :: 0 <= k < |prefix| ==> prefix[k] == dups[k];
      Shortfall(prefix, i) + (if Names(dups[|dups| - 1], i) then 1 else 0)
  }

  /** The shortfall of node i counts the idle draws that named it. */
  lemma {:induction false} ShortfallCounts(dups: seq<(int, int)>, i: int)
    ensures Shortfall(dups, i) == |set k | 0 <= k < |dups| && Names(dups[k], i)|
  {
    if dups != [] {
      var n := |dups| - 1;
      var prefix := dups[..n];
      ShortfallCounts(prefix, i);
      var A := set k | 0 <= k < n && Names(prefix[k], i);
      var B := set k | 0 <= k < |dups| && Names(dups[k], i);
      if Names(dups[n], i) {
        assert B == A + {n};
      } else {
        assert B == A;
      }
    }
  }

  /** Draw p named two nodes that are linked in adj. */
  predicate Linked(adj: Adjacency, p: (int, int)) {
    0 <= p.0 < |adj| && p.1 in adj[p.0]
  }

  /** The stub accounting of configuration_A. dups lists the idle draws: those
      that named two nodes already linked, so that add_edge added nothing.
      For every node, its degree, its remaining stubs and the number of idle
      draws that named it add up to its entry of S, and every idle draw names
      an edge of the graph. */
  ghost predicate Budget(adj: Adjacency, stubs: seq<int>, dups: seq<(int, int)>, S: seq<int>)
    requires |adj| == |S|
  {
    && (forall i :: 0 <= i < |S| ==> |adj[i]| + multiset(stubs)[i] + Shortfall(dups, i) == StubCount(S[i]))
    && (forall k :: 0 <= k < |dups| ==> Linked(adj, dups[k]))
  }

  /** The idle draws after a draw of v and w: (v, w) joins them exactly when
      v and w were already adjacent, and then each of them is named once
      more. */
  function Logged(adj: Adjacency, dups: seq<(int, int)>, v: int, w: int): (r: seq<(int, int)>)
    requires IsNode(adj, v)
    ensures w in adj[v] ==> r == dups + [(v, w)]
    ensures w !in adj[v] ==> r == dups
    ensures forall i :: Shortfall(r, i) == Shortfall(dups, i) + (if w in adj[v] && (i == v || i == w) then 1 else 0)
  {
    if w in adj[v] then
      assert (dups + [(v, w)])[..|dups|] == dups;
      dups + [(v, w)]
    else dups
  }

  lemma AddToSetCardinality(a: set<int>, x: int)
    ensures x !in a ==> |a + {x}| == |a| + 1
    ensures x in a ==> a + {x} == a
  {
  }

  /** Removing v and then w (v != w) takes one stub from each and leaves the
      other counts alone. */
  lemma RemovePairCounts(stubs: seq<int>, v: int, w: int)
    requires v in stubs && w in RemoveFirst(stubs, v) && v != w
    ensures multiset(RemoveFirst(RemoveFirst(stubs, v), w))[v] == multiset(stubs)[v] - 1
    ensures multiset(RemoveFirst(RemoveFirst(stubs, v), w))[w] == multiset(stubs)[w] - 1
    ensures forall i :: i != v && i != w ==>
      multiset(RemoveFirst(RemoveFirst(stubs, v), w))[i] == multiset(stubs)[i]
  {
    RemovePair(stubs, v, w);
  }

  lemma RemovePair(stubs: seq<int>, v: int, w: int)
    requires v in stubs && w in RemoveFirst(stubs, v)
    ensures |RemoveFirst(RemoveFirst(stubs, v), w)| == |stubs| - 2
    ensures multiset(RemoveFirst(RemoveFirst(stubs, v), w)) == multiset(stubs) - multiset{v, w}
  {
    DoubleDifference(multiset(stubs), v, w);
  }

  lemma DoubleDifference(A: multiset<int>, v: int, w: int)
    ensures A - multiset{v} - multiset{w} == A - multiset{v, w}
  {
    var B, C := A - multiset{v} - multiset{w}, A - multiset{v, w};
    forall x ensures B[x] == C[x] {
      if v == w && x == v {
        assert multiset{v, w}[x] == 2;
      }
    }
  }

  /** One successful draw of v and w keeps the accounting: each of v and w
      loses one stub and gains one neighbour, or, when they were already
      adjacent, is named by one more idle draw instead. */
  lemma DrawKeepsBudget(adj: Adjacency, stubs: seq<int>, dups: seq<(int, int)>, S: seq<int>, v: int, w: int)
    requires WellFormed(adj) && |adj| == |S| && IsNode(adj, v) && IsNode(adj, w) && v != w
    requires v in stubs && w in RemoveFirst(stubs, v)
    requires Budget(adj, stubs, dups, S)
    ensures Budget(WithEdge(adj, v, w), RemoveFirst(RemoveFirst(stubs, v), w), Logged(adj, dups, v, w), S)
  {
    forall i | 0 <= i < |S|
      ensures |WithEdge(adj, v, w)[i]| + multiset(RemoveFirst(RemoveFirst(stubs, v), w))[i] + Shortfall(Logged(adj, dups, v, w), i)
              == StubCount(S[i])
    {
      DrawCount(adj, stubs, dups, S, v, w, i);
    }
    LoggedLinked(adj, dups, v, w);
  }

  /** The accounting of one node after a draw of v and w. */
  lemma DrawCount(adj: Adjacency, stubs: seq<int>, dups: seq<(int, int)>, S: seq<int>, v: int, w: int, i: int)
    requires WellFormed(adj) && |adj| == |S| && IsNode(adj, v) && IsNode(adj, w) && v != w
    requires v in stubs && w in RemoveFirst(stubs, v)
    requires Budget(adj, stubs, dups, S) && 0 <= i < |S|
    ensures |WithEdge(adj, v, w)[i]| + multiset(RemoveFirst(RemoveFirst(stubs, v), w))[i] + Shortfall(Logged(adj, dups, v, w), i)
            == StubCount(S[i])
  {
    WithEdgeRows(adj, v, w);
    RemovePairCounts(stubs, v, w);
    assert |adj[i]| + multiset(stubs)[i] + Shortfall(dups, i) == StubCount(S[i]);
    assert Shortfall(Logged(adj, dups, v, w), i)
      == Shortfall(dups, i) + (if w in adj[v] && (i == v || i == w) then 1 else 0);
    if i == v {
      AddToSetCardinality(adj[v], w);
    } else if i == w {
      assert w in adj[v] <==> v in adj[w];
      AddToSetCardinality(adj[w], v);
    }
  }

  /** After a draw of v and w, every idle draw still names an edge: edges are
      only added, and (v, w) is recorded only when it already was one. */
  lemma LoggedLinked(adj: Adjacency, dups: seq<(int, int)>, v: int, w: int)
    requires WellFormed(adj) && IsNode(adj, v) && IsNode(adj, w) && v != w
    requires forall k :: 0 <= k < |dups| ==> Linked(adj, dups[k])
    ensures forall k :: 0 <= k < |Logged(adj, dups, v, w)| ==> Linked(WithEdge(adj, v, w), Logged(adj, dups, v, w)[k])
  {
    var r, t := WithEdge(adj, v, w), Logged(adj, dups, v, w);
    forall k | 0 <= k < |t| ensures Linked(r, t[k]) {
      if k < |dups| {
        assert t[k] == dups[k] && Linked(adj, dups[k]);
      } else {
        assert t[k] == (v, w) && w in adj[v];
      }
    }
  }

  /** A node named by an idle draw has a neighbour. */
  lemma IdleDrawLinks(adj: Adjacency, dups: seq<(int, int)>, i: int)
    requires WellFormed(adj) && 0 <= i < |adj|
    requires forall k :: 0 <= k < |dups| ==> Linked(adj, dups[k])
    requires Shortfall(dups, i) > 0
    ensures adj[i] != {}
  {
    var k :| 0 <= k < |dups| && Names(dups[k], i);
    assert Linked(adj, dups[k]);
    if dups[k].0 != i {
      assert i in adj[dups[k].0];
      assert dups[k].0 in adj[i];
    }
  }

  /** What every round of configuration_A's loop keeps: a simple graph on the
      nodes of S within the degree budget, whose edges used up an even number
      of the stubs, the rest of them still waiting in stubs. */
  ghost predicate Matching(adj: Adjacency, stubs: seq<int>, dups: seq<(int, int)>, all: seq<int>, S: seq<int>) {
    && WellFormed(adj) && |adj| == |S| && NoSelfLoops(adj)
    && Budget(adj, stubs, dups, S)
    && multiset(stubs) <= multiset(all)
    && (|all| - |stubs|) % 2 == 0
    && (forall x :: x in stubs ==> 0 <= x < |S|)
  }

  lemma StubsMatchNothing(S: seq<int>)
    ensures Matching(seq(|S|, _ => {}), Stubs(S), [], Stubs(S), S)
  {
    var adj: Adjacency := seq(|S|, _ => {});
    var stubs := Stubs(S);
    assert Budget(adj, stubs, [], S) by {
      forall i | 0 <= i < |S| ensures |adj[i]| + multiset(stubs)[i] + Shortfall([], i) == StubCount(S[i]) {
        assert adj[i] == {} && Shortfall([], i) == 0;
      }
    }
    assert WellFormed(adj) && NoSelfLoops(adj);
  }

  /** A successful draw keeps the loop's invariant. */
  lemma DrawKeepsMatching(adj: Adjacency, stubs: seq<int>, dups: seq<(int, int)>, all: seq<int>, S: seq<int>, v: int, w: int)
    requires Matching(adj, stubs, dups, all, S) && v != w && v in stubs && w in RemoveFirst(stubs, v)
    requires IsNode(adj, v) && IsNode(adj, w)
    ensures Matching(WithEdge(adj, v, w), RemoveFirst(RemoveFirst(stubs, v), w), Logged(adj, dups, v, w), all, S)
  {
    var r := WithEdge(adj, v, w);
    WithEdgeRows(adj, v, w);
    DrawKeepsBudget(adj, stubs, dups, S, v, w);
    StubsAfterDraw(stubs, all, |S|, v, w);
    assert NoSelfLoops(r);
  }

  /** The stub list after a successful draw: two fewer stubs, all of them
      still among the original stubs all, naming nodes below n. */
  lemma StubsAfterDraw(stubs: seq<int>, all: seq<int>, n: int, v: int, w: int)
    requires v in stubs && w in RemoveFirst(stubs, v) && v != w
    requires multiset(stubs) <= multiset(all) && (|all| - |stubs|) % 2 == 0
    requires forall x :: x in stubs ==> 0 <= x < n
    ensures multiset(RemoveFirst(RemoveFirst(stubs, v), w)) <= multiset(all)
    ensures (|all| - |RemoveFirst(RemoveFirst(stubs, v), w)|) % 2 == 0
    ensures forall x :: x in RemoveFirst(RemoveFirst(stubs, v), w) ==> 0 <= x < n
  {
    var once := RemoveFirst(stubs, v);
    var rest := RemoveFirst(once, w);
    assert multiset(rest) <= multiset(once) <= multiset(stubs);
    ShrinkStubs(rest, stubs, all, n);
  }

  lemma ShrinkStubs(rest: seq<int>, stubs: seq<int>, all: seq<int>, n: int)
    requires multiset(rest) <= multiset(stubs) && |rest| == |stubs| - 2
    requires multiset(stubs) <= multiset(all) && (|all| - |stubs|) % 2 == 0
    requires forall x :: x in stubs ==> 0 <= x < n
    ensures multiset(rest) <= multiset(all)
    ensures (|all| - |rest|) % 2 == 0
    ensures forall x :: x in rest ==> 0 <= x < n
  {
    ParityStep(|all|, |stubs|);
    SubmultisetMembers(rest, stubs);
  }

  lemma ParityStep(total: int, left: int)
    requires (total - left) % 2 == 0
    ensures (total - (left - 2)) % 2 == 0
  {
  }

  lemma SubmultisetMembers(a: seq<int>, b: seq<int>)
    requires multiset(a) <= multiset(b)
    ensures forall x :: x in a ==> x in b
  {
    forall x | x in a ensures x in b {
      assert x in multiset(a);
    }
  }

  /** One pass of configuration_A's loop: random.sample(stubs, 2) draws v and
      w; when they name different nodes, add_edge(v, w) and one stubs.remove
      each, otherwise nothing changes. dups' records the draw when it named
      two nodes already linked. */
  method Draw(g: Graph, stubs: seq<int>, ghost dups: seq<(int, int)>, ghost all: seq<int>, ghost S: seq<int>)
    returns (rest: seq<int>, v: int, w: int, ghost dups': seq<(int, int)>)
    requires g.Valid() && Matching(g.adj, stubs, dups, all, S) && |stubs| > 1
    modifies g
    ensures g.Valid() && Matching(g.adj, rest, dups', all, S)
    ensures multiset([v, w]) <= multiset(stubs)
    ensures v != w ==> IsNode(old(g.adj), v) && IsNode(old(g.adj), w) && g.adj == WithEdge(old(g.adj), v, w)
    ensures v != w ==> |rest| == |stubs| - 2 && multiset(rest) == multiset(stubs) - multiset{v, w}
    ensures v != w ==> dups' == Logged(old(g.adj), dups, v, w)
    ensures v == w ==> rest == stubs && g.adj == old(g.adj) && dups' == dups
    ensures OneNode(stubs) ==> v == w
  {
    var pair := Sample(stubs, 2);
    v, w := pair[0], pair[1];
    assert pair == [v, w];
    assert v in multiset(pair) && w in multiset(pair);
    if OneNode(stubs) {
      OneNodeDrawsAreIdle(stubs, pair);
    }
    rest, dups' := stubs, dups;
    if v != w {
      assert v in stubs;
      assert w in RemoveFirst(stubs, v) by {
        assert multiset(RemoveFirst(stubs, v))[w] == multiset(stubs)[w];
      }
      assert w in stubs;
      DrawKeepsMatching(g.adj, stubs, dups, all, S, v, w);
      dups' := Logged(g.adj, dups, v, w);
      g.AddEdge(v, w);
      rest := RemoveFirst(RemoveFirst(stubs, v), w);
      RemovePair(stubs, v, w);
    }
  }

  /** configuration_A(S), with at most maxDraws calls to random.sample. The
      result has len(S) nodes and no self-loops; every node's degree, its
      stubs in remaining (those left when the loop stopped) and the number of
      idle draws in dups that named it add up to its entry of S, and every
      idle draw names an edge; finished says the loop ended by itself. */
  method ConfigurationA(S: seq<int>, maxDraws: nat) returns (g: Graph, remaining: seq<int>, finished: bool, ghost dups: seq<(int, int)>)
    ensures fresh(g) && g.Valid() && Matching(g.adj, remaining, dups, Stubs(S), S)
    ensures forall i :: 0 <= i < |S| ==> Degree(g.adj, i) + multiset(remaining)[i] + Shortfall(dups, i) == StubCount(S[i])
    ensures forall k :: 0 <= k < |dups| ==> Linked(g.adj, dups[k])
    ensures forall i :: 0 <= i < |S| && S[i] > 0 && i !in remaining ==> g.adj[i] != {}
    ensures finished <==> |remaining| <= 1
    ensures OneNode(Stubs(S)) ==> remaining == Stubs(S) && forall i :: 0 <= i < |S| ==> g.adj[i] == {}
  {
    remaining, dups := Stubs(S), [];
    g := new Graph(|S|);
    StubsMatchNothing(S);
    var draws := 0;
    while |remaining| > 1 && draws < maxDraws
      invariant g.Valid() && Matching(g.adj, remaining, dups, Stubs(S), S)
      invariant OneNode(Stubs(S)) ==> remaining == Stubs(S) && forall i :: 0 <= i < |S| ==> g.adj[i] == {}
      decreases maxDraws - draws
    {
      var v, w;
      remaining, v, w, dups := Draw(g, remaining, dups, Stubs(S), S);
      draws := draws + 1;
    }
    finished := |remaining| <= 1;
    forall i | 0 <= i < |S| && S[i] > 0 && i !in remaining ensures g.adj[i] != {} {
      UsedStubsLink(g.adj, remaining, dups, Stubs(S), S, i);
    }
  }

  /** A node with a positive entry whose stubs are all used has a neighbour:
      a draw that adds nothing only ever pairs nodes already linked. */
  lemma UsedStubsLink(adj: Adjacency, stubs: seq<int>, dups: seq<(int, int)>, all: seq<int>, S: seq<int>, i: int)
    requires Matching(adj, stubs, dups, all, S) && 0 <= i < |S| && S[i] > 0 && i !in stubs
    ensures adj[i] != {}
  {
    assert multiset(stubs)[i] == 0;
    if Shortfall(dups, i) > 0 {
      IdleDrawLinks(adj, dups, i);
    }
  }

  /** For S = [1, 1] the loop, once it stops by itself, has linked the two
      nodes. */
  lemma PairOfStubsIsLinked(adj: Adjacency, stubs: seq<int>, dups: seq<(int, int)>)
    requires Matching(adj, stubs, dups, Stubs([1, 1]), [1, 1]) && |stubs| <= 1
    ensures adj == [{1}, {0}]
  {
    var S := [1, 1];
    assert |Stubs(S)| == 2 by {
      assert multiset(Stubs(S))[0] == 1 && multiset(Stubs(S))[1] == 1;
      assert multiset(Stubs(S)) == multiset{0, 1};
      assert |multiset(Stubs(S))| == 2;
    }
    assert stubs == [];
    forall i | 0 <= i < 2 ensures |adj[i]| == 1 {
      UsedStubsLink(adj, stubs, dups, Stubs(S), S, i);
    }
    OnlyNeighbour(adj, 0, 1);
    OnlyNeighbour(adj, 1, 0);
  }

  /** The star with centre 0 on four nodes, with no stub left, is no outcome
      of configuration_A([4, 2, 2, 2]): leaves 2 and 3 each fell one stub
      short, so each was named by an idle draw, which can only have paired it
      with the centre; the centre then fell two stubs short, not one. */
  lemma StarIsNoOutcome(dups: seq<(int, int)>, all: seq<int>)
    ensures !Matching([{1, 2, 3}, {0}, {0}, {0}], [], dups, all, [4, 2, 2, 2])
  {
    var adj: Adjacency := [{1, 2, 3}, {0}, {0}, {0}];
    var S := [4, 2, 2, 2];
    if Matching(adj, [], dups, all, S) {
      assert |adj[0]| == 3 by {
        assert adj[0] == {1} + {2} + {3};
      }
      StarShortfalls(adj, dups, S);
      var a :| 0 <= a < |dups| && Names(dups[a], 2);
      var b :| 0 <= b < |dups| && Names(dups[b], 3);
      IdleDrawAtLeaf(adj, dups[a], 2, 0);
      IdleDrawAtLeaf(adj, dups[b], 3, 0);
      TwoIdleDraws(dups, 0, a, b);
    }
  }

  /** The shortfalls the accounting forces on the star. */
  lemma StarShortfalls(adj: Adjacency, dups: seq<(int, int)>, S: seq<int>)
    requires |adj| == |S| == 4 && Budget(adj, [], dups, S)
    requires S[0] == 4 && S[2] == 2 && S[3] == 2
    requires |adj[0]| == 3 && |adj[2]| == 1 && |adj[3]| == 1
    ensures Shortfall(dups, 0) == 1 && Shortfall(dups, 2) == 1 && Shortfall(dups, 3) == 1
  {
    var none: seq<int> := [];
    assert multiset(none)[0] == 0 && multiset(none)[2] == 0 && multiset(none)[3] == 0;
  }

  /** An idle draw that names a node with one neighbour names that neighbour
      as well. */
  lemma IdleDrawAtLeaf(adj: Adjacency, p: (int, int), x: int, c: int)
    requires WellFormed(adj) && 0 <= x < |adj| && adj[x] == {c}
    requires Linked(adj, p) && Names(p, x)
    ensures Names(p, c)
  {
    if p.0 != x {
      assert x in adj[p.0];
    }
  }

  /** Two idle draws that name node i leave it at least two stubs short. */
  lemma TwoIdleDraws(dups: seq<(int, int)>, i: int, a: int, b: int)
    requires 0 <= a < |dups| && 0 <= b < |dups| && a != b
    requires Names(dups[a], i) && Names(dups[b], i)
    ensures Shortfall(dups, i) >= 2
  {
    ShortfallCounts(dups, i);
    var named := set k | 0 <= k < |dups| && Names(dups[k], i);
    assert a in named && b in named - {a};
  }

  /** In a simple graph on two nodes, a node with one neighbour is linked to
      the other node. */
  lemma OnlyNeighbour(adj: Adjacency, x: int, y: int)
    requires WellFormed(adj) && NoSelfLoops(adj) && |adj| == 2 && {x, y} == {0, 1} && |adj[x]| == 1
    ensures adj[x] == {y}
  {
    assert adj[x] != {};
    var z := PickMember(adj[x]);
    assert |adj[x] - {z}| == 0;
    assert adj[x] - {z} == {};
    assert adj[x] == {z};
  }

  // ---------------------------------------------------------------------------
  // The Erdős–Gallai test.

  function Sum(s: seq<int>): int {
    if s == [] then 0 else s[0] + Sum(s[1..])
  }

  /** The sum of min(s[i], k). */
  function SumMin(s: seq<int>, k: int): int {
    if s == [] then 0 else SumMin(s[..|s| - 1], k) + (if s[|s| - 1] < k then s[|s| - 1] else k)
  }

  ghost predicate Descending(s: seq<int>) {
    forall i, j :: 0 <= i < j < |s| ==> s[i] >= s[j]
  }

  /** Insert x into a descending list, keeping it descending. */
  function Insert(x: int, s: seq<int>): (r: seq<int>)
    requires Descending(s)
    ensures |r| == |s| + 1
    ensures multiset(r) == multiset(s) + multiset{x}
    ensures Descending(r)
  {
    if s == [] || x >= s[0] then [x] + s
    else
      var rest := Insert(x, s[1..]);
      assert s == [s[0]] + s[1..];
      InsertBelowHead(x, s, rest);
      [s[0]] + rest
  }

  lemma InsertBelowHead(x: int, s: seq<int>, rest: seq<int>)
    requires s != [] && Descending(s) && x < s[0]
    requires Descending(rest) && multiset(rest) == multiset(s[1..]) + multiset{x}
    ensures Descending([s[0]] + rest)
  {
    forall j | 0 <= j < |rest| ensures rest[j] <= s[0] {
      assert rest[j] in multiset(rest);
      if rest[j] != x {
        assert rest[j] in multiset(s[1..]);
        assert rest[j] in s[1..];
      }
    }
  }

  /** sorted(S, reverse=True). */
  function SortDesc(s: seq<int>): (r: seq<int>)
    ensures |r| == |s|
    ensures multiset(r) == multiset(s)
    ensures Descending(r)
  {
    if s == [] then []
    else
      assert s == [s[0]] + s[1..];
      Insert(s[0], SortDesc(s[1..]))
  }

  /** The Erdős–Gallai inequalities of a descending sequence d: for every k,
      the k largest degrees sum to at most k(k-1) plus the sum of
      min(d[i], k) over the rest. */
  predicate ErdosGallai(d: seq<int>) {
    forall k :: 1 <= k <= |d| ==> Sum(d[..k]) <= k * (k - 1) + SumMin(d[k..], k)
  }

  /** networkx's is_valid_degree_sequence_erdos_gallai(S): every entry lies in
      0 .. len(S)-1, the sum is even, and the sorted sequence satisfies the
      Erdős–Gallai inequalities. */
  predicate Graphical(S: seq<int>): (r: bool)
    ensures r ==> 0 <= Sum(S) <= |S| * (|S| - 1)
  {
    SumBounded(S, |S| - 1);
    && (forall i :: 0 <= i < |S| ==> 0 <= S[i] < |S|)
    && Sum(S) % 2 == 0
    && ErdosGallai(SortDesc(S))
  }

  /** Entries between 0 and b add up to at most b per entry. */
  lemma {:induction false} SumBounded(s: seq<int>, b: int)
    ensures (forall i :: 0 <= i < |s| ==> 0 <= s[i] <= b) ==> 0 <= Sum(s) <= |s| * b
  {
    if s != [] && forall i :: 0 <= i < |s| ==> 0 <= s[i] <= b {
      assert forall i :: 0 <= i < |s| - 1 ==> s[1..][i] == s[i + 1];
      SumBounded(s[1..], b);
      assert (|s| - 1) * b + b == |s| * b;
    }
  }

  /** The first value configuration_B tests, [1], is rejected, so at least one
      sequence is always drawn. */
  lemma OneIsNotGraphical()
    ensures !Graphical([1])
  {
  }

  lemma {:induction false} SumMinAtMostCount(s: seq<int>, k: int)
    requires k >= 0
    ensures SumMin(s, k) <= k * |s|
  {
    if s != [] {
      SumMinAtMostCount(s[..|s| - 1], k);
    }
  }

  /** The first entry of a descending sequence is its largest. */
  lemma DescendingHeadIsMax(d: seq<int>, x: int)
    requires Descending(d) && x in d
    ensures x <= d[0]
  {
  }

  /** The range test networkx performs first is implied by the inequalities
      for non-negative sequences: the case k = 1 bounds the largest degree by
      the number of other entries. */
  lemma ErdosGallaiBoundsDegrees(S: seq<int>)
    requires forall i :: 0 <= i < |S| ==> S[i] >= 0
    requires ErdosGallai(SortDesc(S))
    ensures forall i :: 0 <= i < |S| ==> S[i] < |S|
  {
    if S != [] {
      var d := SortDesc(S);
      FirstInequality(d);
      forall i | 0 <= i < |S| ensures S[i] < |S| {
        assert S[i] in multiset(d);
        DescendingHeadIsMax(d, S[i]);
      }
    }
  }

  /** The inequality for k = 1: the largest degree is at most the number of
      other entries. */
  lemma FirstInequality(d: seq<int>)
    requires d != [] && ErdosGallai(d)
    ensures d[0] <= |d| - 1
  {
    assert Sum(d[..1]) <= 1 * (1 - 1) + SumMin(d[1..], 1);
    assert d[..1] == [d[0]];
    assert Sum(d[..1]) == d[0] + Sum([]);
    SumMinAtMostCount(d[1..], 1);
  }

  lemma MultisetTail(a: seq<int>)
    requires a != []
    ensures multiset(a[1..]) == multiset(a) - multiset{a[0]}
  {
    assert a == [a[0]] + a[1..];
  }

  lemma MultisetLength(a: seq<int>, b: seq<int>)
    requires multiset(a) == multiset(b)
    ensures |a| == |b|
  {
    assert |multiset(a)| == |a| && |multiset(b)| == |b|;
  }

  lemma DescendingTail(a: seq<int>)
    requires a != [] && Descending(a)
    ensures Descending(a[1..])
  {
  }

  /** Two descending sequences with the same entries are equal: sorting
      forgets the order of its input. */
  lemma {:induction false} DescendingUnique(a: seq<int>, b: seq<int>)
    requires Descending(a) && Descending(b) && multiset(a) == multiset(b)
    ensures a == b
    decreases |a|
  {
    MultisetLength(a, b);
    if a != [] {
      assert a[0] in multiset(b) && b[0] in multiset(a);
      DescendingHeadIsMax(b, a[0]);
      DescendingHeadIsMax(a, b[0]);
      assert a[0] == b[0];
      MultisetTail(a);
      MultisetTail(b);
      DescendingTail(a);
      DescendingTail(b);
      DescendingUnique(a[1..], b[1..]);
      assert a == [a[0]] + a[1..];
    }
  }

  lemma {:induction false} SumRemoveFirst(b: seq<int>, x: int)
    requires x in b
    ensures Sum(b) == x + Sum(RemoveFirst(b, x))
  {
    if b[0] != x {
      SumRemoveFirst(b[1..], x);
    }
  }

  /** The sum depends only on the entries, not on their order. */
  lemma {:induction false} SumOfMultiset(a: seq<int>, b: seq<int>)
    requires multiset(a) == multiset(b)
    ensures Sum(a) == Sum(b)
    decreases |a|
  {
    MultisetLength(a, b);
    if a != [] {
      assert a[0] in multiset(b);
      MultisetTail(a);
      SumRemoveFirst(b, a[0]);
      SumOfMultiset(a[1..], RemoveFirst(b, a[0]));
    }
  }

  lemma RangeOfMultiset(S: seq<int>, T: seq<int>)
    requires multiset(S) == multiset(T) && |S| == |T|
    requires forall i :: 0 <= i < |S| ==> 0 <= S[i] < |S|
    ensures forall i :: 0 <= i < |T| ==> 0 <= T[i] < |T|
  {
    forall i | 0 <= i < |T| ensures 0 <= T[i] < |T| {
      assert T[i] in multiset(S);
    }
  }

  /** The test depends only on which degrees occur, not on their order. */
  lemma GraphicalIgnoresOrder(S: seq<int>, T: seq<int>)
    requires multiset(S) == multiset(T)
    ensures Graphical(S) <==> Graphical(T)
  {
    DescendingUnique(SortDesc(S), SortDesc(T));
    SumOfMultiset(S, T);
    MultisetLength(S, T);
    if forall i :: 0 <= i < |S| ==> 0 <= S[i] < |S| {
      RangeOfMultiset(S, T);
    }
    if forall i :: 0 <= i < |T| ==> 0 <= T[i] < |T| {
      RangeOfMultiset(T, S);
    }
  }

  // ---------------------------------------------------------------------------
  // configuration_B.

  function SumReal(P: seq<real>): real {
    if P == [] then 0.0 else P[0] + SumReal(P[1..])
  }

  ghost predicate NonNegative(P: seq<real>) {
    forall i :: 0 <= i < |P| ==> P[i] >= 0.0
  }

  /** random.choices raises before drawing anything when there is no weight
      to draw by: an empty list, or weights that total zero. */
  predicate NoWeight(P: seq<real>): (r: bool)
    ensures NonNegative(P) ==> (r <==> forall i :: 0 <= i < |P| ==> P[i] == 0.0)
  {
    NoWeightIsAllZero(P);
    |P| == 0 || SumReal(P) <= 0.0
  }

  lemma NoWeightIsAllZero(P: seq<real>)
    ensures NonNegative(P) ==> ((|P| == 0 || SumReal(P) <= 0.0) <==> forall i :: 0 <= i < |P| ==> P[i] == 0.0)
  {
    if NonNegative(P) {
      if SumReal(P) <= 0.0 {
        forall i | 0 <= i < |P| ensures P[i] == 0.0 {
          if P[i] > 0.0 {
            EntryAtMostSum(P, i);
          }
        }
      }
      if forall i :: 0 <= i < |P| ==> P[i] == 0.0 {
        ZeroWeightsSum(P);
      }
    }
  }

  lemma {:induction false} ZeroWeightsSum(P: seq<real>)
    requires forall i :: 0 <= i < |P| ==> P[i] == 0.0
    ensures SumReal(P) == 0.0
  {
    if P != [] {
      assert forall i :: 0 <= i < |P| - 1 ==> P[1..][i] == P[i + 1];
      ZeroWeightsSum(P[1..]);
    }
  }

  /** Non-negative weights with a positive total have a positive entry. */
  lemma {:induction false} PositiveEntry(P: seq<real>) returns (i: nat)
    requires NonNegative(P) && !NoWeight(P)
    ensures i < |P| && P[i] > 0.0
  {
    if P[0] > 0.0 {
      i := 0;
    } else {
      assert NonNegative(P[1..]);
      var j := PositiveEntry(P[1..]);
      i := j + 1;
    }
  }

  /** Conversely, a positive entry gives the weights a positive total, so a
      list of non-negative weights has weight exactly when it has a positive
      entry. */
  lemma {:induction false} EntryAtMostSum(P: seq<real>, i: int)
    requires NonNegative(P) && 0 <= i < |P| && P[i] > 0.0
    ensures SumReal(P) >= P[i]
  {
    if i > 0 {
      assert NonNegative(P[1..]);
      EntryAtMostSum(P[1..], i - 1);
    } else {
      NonNegativeSum(P[1..]);
    }
  }

  lemma {:induction false} NonNegativeSum(P: seq<real>)
    requires NonNegative(P)
    ensures SumReal(P) >= 0.0
  {
    if P != [] {
      assert NonNegative(P[1..]);
      NonNegativeSum(P[1..]);
    }
  }

  /** random.choices(range(len(P)), weights=P, k=k): max(k, 0) indices, each
      drawn independently; an index of weight zero is never drawn. */
  method Choices(P: seq<real>, k: int) returns (S: seq<int>)
    requires NonNegative(P) && !NoWeight(P)
    ensures |S| == (if k > 0 then k else 0)
    ensures forall j :: 0 <= j < |S| ==> 0 <= S[j] < |P| && P[S[j]] > 0.0
  {
    ghost var w := PositiveEntry(P);
    S := [];
    var count := if k > 0 then k else 0;
    while |S| < count
      invariant |S| <= count
      invariant forall j :: 0 <= j < |S| ==> 0 <= S[j] < |P| && P[S[j]] > 0.0
    {
      var x :| 0 <= x < |P| && P[x] > 0.0;
      S := S + [x];
    }
  }

  datatype Status = Built | OutOfDraws | Raised

  /** configuration_B(n, P), with at most maxDraws calls to random.choices and
      pairDraws calls to random.sample inside configuration_A. S is the last
      degree sequence drawn; the graph exists only when a sequence passed the
      test. */
  method ConfigurationB(n: int, P: seq<real>, maxDraws: nat, pairDraws: nat)
    returns (S: seq<int>, draws: nat, g: Graph?, remaining: seq<int>, finished: bool, status: Status, ghost dups: seq<(int, int)>)
    requires NonNegative(P)
    ensures status == Raised <==> maxDraws > 0 && NoWeight(P)
    ensures status == Raised ==> g == null && draws == 0
    ensures status == OutOfDraws ==> g == null && draws == maxDraws && !Graphical(S)
    ensures status == Built ==> 1 <= draws <= maxDraws && Graphical(S)
    ensures status == Built ==> |S| == (if n > 0 then n else 0)
    ensures status == Built ==> forall j :: 0 <= j < |S| ==> 0 <= S[j] < |P| && P[S[j]] > 0.0
    ensures status == Built ==>
      && g != null && fresh(g) && g.Valid() && Matching(g.adj, remaining, dups, Stubs(S), S)
      && (finished <==> |remaining| <= 1)
    ensures n > 0 && (forall i :: 0 <= i < |P| && P[i] > 0.0 ==> i >= n) ==> status != Built
  {
    S := [1];
    draws := 0;
    g := null;
    remaining, dups := [], [];
    finished := false;
    while !Graphical(S) && draws < maxDraws
      invariant draws <= maxDraws
      invariant draws == 0 ==> S == [1]
      invariant draws > 0 ==> |S| == (if n > 0 then n else 0)
      invariant draws > 0 ==> forall j :: 0 <= j < |S| ==> 0 <= S[j] < |P| && P[S[j]] > 0.0
      invariant draws > 0 ==> !NoWeight(P)
      decreases maxDraws - draws
    {
      if NoWeight(P) {
        status := Raised;
        return;
      }
      S := Choices(P, n);
      draws := draws + 1;
    }
    if !Graphical(S) {
      status := OutOfDraws;
      return;
    }
    assert draws > 0;
    g, remaining, finished, dups := ConfigurationA(S, pairDraws);
    status := Built;
  }
}
