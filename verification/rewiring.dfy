/** The three rewiring models of models.py. Each round visits every node once;
    a node step drops one random incident edge, builds a model-specific pool of
    candidate partners, caps it at nodes_per_round by random.sample, scores
    every candidate by adding the edge, measuring the average clustering and
    removing the edge again, and finally keeps the edge to the first candidate
    with the best score. Rounds repeat until the average clustering lies within
    allowed_error of the target. Models 2 and 3 first repair connectivity.

    Random picks are nondeterministic choices (`:|`) constrained exactly as
    random.choice and random.sample constrain them, so every contract holds for
    every outcome of the generator. */
module Rewiring {
  import opened Graphs
  import opened Selection
  import opened Clustering

  datatype Option<T> = None | Some(value: T)

  datatype Model = Model1 | Model2 | Model3

  // ---------------------------------------------------------------------------
  // Pieces of one node step, as functions of the adjacency.

  /** The graph after the optional remove_edge(node, dropped). */
  function Drop(adj: Adjacency, node: int, dropped: Option<int>): (r: Adjacency)
    requires IsNode(adj, node) && (dropped.Some? ==> IsNode(adj, dropped.value))
    ensures |r| == |adj| && (WellFormed(adj) ==> WellFormed(r))
  {
    if dropped.Some? then WithoutEdge(adj, node, dropped.value) else adj
  }

  /** The graph after the optional add_edge(node, chosen). */
  function Attach(adj: Adjacency, node: int, chosen: Option<int>): (r: Adjacency)
    requires IsNode(adj, node) && (chosen.Some? ==> IsNode(adj, chosen.value))
    ensures |r| == |adj| && (WellFormed(adj) ==> WellFormed(r))
  {
    if chosen.Some? then WithEdge(adj, node, chosen.value) else adj
  }

  /** A comprehension over the node list lists the nodes it keeps in node
      order, each at most once. */
  lemma FilteredNodesInOrder(n: nat, keep: int -> bool)
    ensures Increasing(Filter(NodeList(n), keep))
    ensures Distinct(Filter(NodeList(n), keep))
  {
    assert Increasing(NodeList(n));
  }

  /** Model 1's pool (models.py line 51) over the nodes 0 .. n-1: every node
      other than node outside links, the neighbour list taken before the drop.
      The dropped neighbour is therefore not a candidate either. */
  function Model1Pool(n: nat, node: int, links: set<int>): (r: seq<int>)
    ensures forall m :: m in r <==> 0 <= m < n && m != node && m !in links
    ensures Increasing(r) && Distinct(r)
  {
    var keep := m => m !in links && m != node;
    FilteredNodesInOrder(n, keep);
    Filter(NodeList(n), keep)
  }

  /** Model 2's exclusion set (models.py lines 135-138): the neighbours before
      the drop and, after the drop, their own neighbours, less node itself. */
  function Extended(mid: Adjacency, node: int, links: set<int>): (r: set<int>)
    requires WellFormed(mid)
    ensures node !in r
    ensures forall m :: m in r <==> m != node && (m in links || m in Neighbourhood(mid, links))
  {
    (links + Neighbourhood(mid, links)) - {node}
  }

  /** Model 2's pool (models.py line 141): every node outside the exclusion set.
      Because node was discarded from that set, node is always its own
      candidate. */
  function Model2Pool(mid: Adjacency, node: int, links: set<int>): (r: seq<int>)
    requires WellFormed(mid) && IsNode(mid, node)
    ensures forall m :: m in r <==> IsNode(mid, m) && m !in Extended(mid, node, links)
    ensures node in r
    ensures Increasing(r) && Distinct(r)
  {
    var ex := Extended(mid, node, links);
    var keep := m => m !in ex;
    FilteredNodesInOrder(|mid|, keep);
    Filter(NodeList(|mid|), keep)
  }

  /** Model 3's pool (models.py line 226): every node other than node whose
      degree, after the drop, equals the remembered degree. Current neighbours
      are not excluded. */
  function Model3Pool(mid: Adjacency, node: int, degree: nat): (r: seq<int>)
    requires IsNode(mid, node)
    ensures forall m :: m in r <==> IsNode(mid, m) && m != node && Degree(mid, m) == degree
    ensures Increasing(r) && Distinct(r)
  {
    var keep := m => 0 <= m < |mid| && Degree(mid, m) == degree && m != node;
    FilteredNodesInOrder(|mid|, keep);
    Filter(NodeList(|mid|), keep)
  }

  /** The candidate pool of the given model. links is the neighbour set at the
      start of the node step, mid the graph after the drop. */
  function Pool(model: Model, links: set<int>, mid: Adjacency, node: int, degree: Option<nat>): (r: seq<int>)
    requires WellFormed(mid) && IsNode(mid, node)
    requires model == Model3 ==> degree.Some?
    ensures Increasing(r) && Distinct(r) && forall m :: m in r ==> IsNode(mid, m)
    ensures model != Model3 ==> forall m :: m in r && m != node ==> m !in links
  {
    match model
    case Model1 => Model1Pool(|mid|, node, links)
    case Model2 => Model2Pool(mid, node, links)
    case Model3 => Model3Pool(mid, node, degree.value)
  }

  /** The score of the j-th candidate (models.py lines 61-64): the average
      clustering once the earlier candidates have been tried (each added and
      removed again) and the edge to this one has been added. */
  function TentativeScore(mid: Adjacency, node: int, selected: seq<int>, j: nat): (c: real)
    requires IsNode(mid, node) && j < |selected| && forall m :: m in selected ==> IsNode(mid, m)
    ensures 0.0 <= c <= 1.0
  {
    assert forall m :: m in selected[..j] ==> m in selected;
    assert selected[j] in selected && IsNode(mid, selected[j]);
    var tried := Detach(mid, node, selected[..j]);
    AverageClustering(WithEdge(tried, node, selected[j]))
  }

  /** selected[c_possible.index(max(c_possible))] when there is a candidate
      (models.py lines 67-68): the first candidate with the highest score. */
  function Best(selected: seq<int>, scores: seq<real>): (chosen: Option<int>)
    requires |scores| == |selected|
    ensures chosen.Some? <==> selected != []
    ensures chosen.Some? ==> exists i :: (
      && 0 <= i < |selected| && chosen.value == selected[i]
      && (forall j :: 0 <= j < |scores| ==> scores[j] <= scores[i])
      && (forall j :: 0 <= j < i ==> scores[j] < scores[i]))
    ensures chosen.Some? ==> chosen.value in selected
  {
    if selected == [] then None else Some(selected[FirstMaxIndex(scores)])
  }

  /** The first half of a node step (models.py lines 44-48, 128-132, 218-223):
      dropped is the neighbour random.choice removed, if node had any, and
      degree the value of degree_of_removed_node afterwards (model 3 sets it to
      the dropped neighbour's degree before the removal; memo is its value
      before the step). */
  ghost predicate Dropped(model: Model, before: Adjacency, node: int, memo: Option<nat>,
                          dropped: Option<int>, degree: Option<nat>)
    requires WellFormed(before) && IsNode(before, node)
  {
    && (dropped.Some? <==> before[node] != {})
    && (dropped.Some? ==> dropped.value in before[node])
    && degree == (if model == Model3 && dropped.Some? then Some(Degree(before, dropped.value)) else memo)
  }

  /** The second half of a node step, from the graph mid left by the drop
      (models.py lines 50-69, 134-159, 225-244): selected is the capped pool,
      scores the clustering each candidate yields, chosen the partner kept,
      after the resulting graph. */
  ghost predicate Chosen(model: Model, links: set<int>, mid: Adjacency, node: int, k: nat, degree: Option<nat>,
                         selected: seq<int>, scores: seq<real>, chosen: Option<int>, after: Adjacency)
    requires WellFormed(mid) && IsNode(mid, node) && (model == Model3 ==> degree.Some?)
  {
    && CappedSample(selected, Pool(model, links, mid, node, degree), k)
    && |scores| == |selected|
    && (forall j :: 0 <= j < |selected| ==> scores[j] == TentativeScore(mid, node, selected, j))
    && chosen == Best(selected, scores)
    && after == Attach(Detach(mid, node, selected), node, chosen)
  }

  /** What one node step of the given model does to the graph before, for some
      outcome of its random picks. unbound is model 3 reading
      degree_of_removed_node before anything was assigned to it, which raises
      UnboundLocalError. */
  ghost predicate StepOutcome(model: Model, before: Adjacency, node: int, k: nat, memo: Option<nat>,
                              dropped: Option<int>, degree: Option<nat>, selected: seq<int>,
                              scores: seq<real>, chosen: Option<int>, unbound: bool, after: Adjacency)
    requires WellFormed(before) && IsNode(before, node)
  {
    && (unbound <==> model == Model3 && before[node] == {} && memo == None)
    && (unbound ==> after == before)
    && (!unbound ==>
      && Dropped(model, before, node, memo, dropped, degree)
      && Chosen(model, before[node], Drop(before, node, dropped), node, k, degree, selected, scores, chosen, after))
  }

  /** The tentative add_edge / average_clustering / remove_edge loop of models.py
      lines 59-64 (and 149-154, 234-239). */
  method ScoreCandidates(g: Graph, node: int, selected: seq<int>) returns (scores: seq<real>)
    requires g.Valid() && IsNode(g.adj, node) && forall m :: m in selected ==> IsNode(g.adj, m)
    modifies g
    ensures g.Valid() && g.adj == Detach(old(g.adj), node, selected)
    ensures |scores| == |selected|
    ensures forall j :: 0 <= j < |selected| ==> scores[j] == TentativeScore(old(g.adj), node, selected, j)
  {
    ghost var mid := g.adj;
    scores := [];
    for j := 0 to |selected|
      invariant g.Valid() && |g.adj| == |mid|
      invariant g.adj == Detach(mid, node, selected[..j])
      invariant |scores| == j
      invariant forall i :: 0 <= i < j ==> scores[i] == TentativeScore(mid, node, selected, i)
    {
      var m := selected[j];
      assert m in selected;
      ghost var tried := g.adj;
      g.AddEdge(node, m);
      ghost var added := g.adj;
      var score := AverageClustering(g.adj);
      g.RemoveEdge(node, m);
      TryCandidate(mid, node, selected, j, tried, added, g.adj);
      ghost var before := scores;
      scores := scores + [score];
      assert forall i :: 0 <= i < j ==> scores[i] == before[i];
      assert g.adj == Detach(mid, node, selected[..j + 1]);
      assert forall i :: 0 <= i < j + 1 ==> scores[i] == TentativeScore(mid, node, selected, i);
    }
    assert selected[..|selected|] == selected;
  }

  /** Trying the j-th candidate scores it as TentativeScore says and leaves
      the graph detached from the first j + 1 candidates. */
  lemma TryCandidate(mid: Adjacency, node: int, selected: seq<int>, j: nat,
                     tried: Adjacency, added: Adjacency, after: Adjacency)
    requires IsNode(mid, node) && j < |selected| && forall m :: m in selected ==> IsNode(mid, m)
    requires IsNode(mid, selected[j])
    requires tried == Detach(mid, node, selected[..j])
    requires added == WithEdge(tried, node, selected[j])
    requires after == WithoutEdge(added, node, selected[j])
    ensures AverageClustering(added) == TentativeScore(mid, node, selected, j)
    ensures after == Detach(mid, node, selected[..j + 1])
  {
    assert selected[j] in selected;
    AddThenRemove(tried, node, selected[j]);
    assert selected[..j + 1][..j] == selected[..j];
  }

  /** Pool, cap, score and keep the best candidate (models.py lines 50-69,
      134-159, 225-244). */
  method Choose(g: Graph, model: Model, links: set<int>, node: int, k: nat, degree: Option<nat>)
    returns (selected: seq<int>, scores: seq<real>, chosen: Option<int>)
    requires g.Valid() && IsNode(g.adj, node) && (model == Model3 ==> degree.Some?)
    modifies g
    ensures g.Valid() && |g.adj| == |old(g.adj)|
    ensures Chosen(model, links, old(g.adj), node, k, degree, selected, scores, chosen, g.adj)
  {
    ghost var mid := g.adj;
    var pool := Pool(model, links, g.adj, node, degree);
    selected := CapCandidates(pool, k);
    scores := ScoreCandidates(g, node, selected);
    chosen := Best(selected, scores);
    if chosen.Some? {
      g.AddEdge(node, chosen.value);
    }
    ChosenIntro(model, links, mid, node, k, degree, selected, scores, chosen, g.adj);
  }

  lemma ChosenIntro(model: Model, links: set<int>, mid: Adjacency, node: int, k: nat, degree: Option<nat>,
                    selected: seq<int>, scores: seq<real>, chosen: Option<int>, after: Adjacency)
    requires WellFormed(mid) && IsNode(mid, node) && (model == Model3 ==> degree.Some?)
    requires CappedSample(selected, Pool(model, links, mid, node, degree), k)
    requires |scores| == |selected|
    requires forall j :: 0 <= j < |selected| ==> scores[j] == TentativeScore(mid, node, selected, j)
    requires chosen == Best(selected, scores)
    requires after == Attach(Detach(mid, node, selected), node, chosen)
    ensures Chosen(model, links, mid, node, k, degree, selected, scores, chosen, after)
  {
  }

  /** One iteration of the per-node loop (models.py lines 43-69, 124-159,
      214-244). */
  method NodeStep(g: Graph, model: Model, node: int, k: nat, memo: Option<nat>)
    returns (dropped: Option<int>, degree: Option<nat>, selected: seq<int>, scores: seq<real>,
             chosen: Option<int>, unbound: bool)
    requires g.Valid() && IsNode(g.adj, node)
    modifies g
    ensures g.Valid() && |g.adj| == |old(g.adj)|
    ensures StepOutcome(model, old(g.adj), node, k, memo, dropped, degree, selected, scores, chosen, unbound, g.adj)
    ensures unbound <==> model == Model3 && memo == None && old(g.adj)[node] == {}
    ensures unbound ==> g.adj == old(g.adj)
    ensures model == Model3 && !unbound ==> degree.Some?
    ensures memo.Some? ==> degree.Some?
  {
    dropped, degree, selected, scores, chosen, unbound := None, memo, [], [], None, false;
    var links := g.adj[node];
    if links != {} {
      ghost var w := PickMember(links);
      var m :| m in links;
      if model == Model3 {
        degree := Some(Degree(g.adj, m));
      }
      g.RemoveEdge(node, m);
      dropped := Some(m);
    } else if model == Model3 && memo == None {
      unbound := true;
      return;
    }
    selected, scores, chosen := Choose(g, model, links, node, k, degree);
  }

  // ---------------------------------------------------------------------------
  // What the candidate policies imply for a node step.

  /** Model 1 never offers a current neighbour, so every tentative edge is new
      and its removal restores the graph: the step removes at most the dropped
      edge and adds at most the chosen one (models.py lines 44-69). */
  lemma Model1StepEdges(before: Adjacency, node: int, k: nat, memo: Option<nat>, dropped: Option<int>,
                        degree: Option<nat>, selected: seq<int>, scores: seq<real>, chosen: Option<int>,
                        unbound: bool, after: Adjacency)
    requires WellFormed(before) && IsNode(before, node)
    requires StepOutcome(Model1, before, node, k, memo, dropped, degree, selected, scores, chosen, unbound, after)
    ensures !unbound
    ensures (dropped.Some? ==> IsNode(before, dropped.value)) && (chosen.Some? ==> IsNode(before, chosen.value))
    ensures after == Attach(Drop(before, node, dropped), node, chosen)
  {
    var mid := Drop(before, node, dropped);
    forall m | m in selected ensures IsNode(mid, m) && m !in mid[node] {
      assert m in Pool(Model1, before[node], mid, node, degree);
    }
    DetachNonNeighbours(mid, node, selected);
  }

  /** The same holds for model 2 at a node without a self-loop: its pool
      offers only non-neighbours and the node itself. */
  lemma Model2StepEdges(before: Adjacency, node: int, k: nat, memo: Option<nat>, dropped: Option<int>,
                        degree: Option<nat>, selected: seq<int>, scores: seq<real>, chosen: Option<int>,
                        unbound: bool, after: Adjacency)
    requires WellFormed(before) && IsNode(before, node) && node !in before[node]
    requires StepOutcome(Model2, before, node, k, memo, dropped, degree, selected, scores, chosen, unbound, after)
    ensures !unbound
    ensures (dropped.Some? ==> IsNode(before, dropped.value)) && (chosen.Some? ==> IsNode(before, chosen.value))
    ensures after == Attach(Drop(before, node, dropped), node, chosen)
  {
    var mid := Drop(before, node, dropped);
    forall m | m in selected ensures IsNode(mid, m) && m !in mid[node] {
      assert m in Pool(Model2, before[node], mid, node, degree);
    }
    DetachNonNeighbours(mid, node, selected);
  }

  /** The triangle on the nodes 0, 1 and 2. */
  function Triangle(): (adj: Adjacency)
    ensures WellFormed(adj) && |adj| == 3
  {
    var adj := [{1, 2}, {0, 2}, {0, 1}];
    assert forall u, v :: 0 <= u < 3 && v in adj[u] ==> 0 <= v < 3 && u in adj[v];
    adj
  }

  /** Node 0 of the triangle after dropping its edge to node 1. */
  lemma TriangleDrop()
    ensures WithoutEdge(Triangle(), 0, 1) == [{2}, {2}, {0, 1}]
  {
    var r := WithoutEdge(Triangle(), 0, 1);
    assert r[0] == {2} && r[1] == {2} && r[2] == {0, 1};
  }

  /** Dropping the edge to node 1 leaves model 2's exclusion set for node 0
      still holding both old neighbours 1 and 2 of a three-node graph, so node 0
      is its own only candidate. */
  lemma ThreeNodeModel2Pool(mid: Adjacency)
    requires WellFormed(mid) && |mid| == 3
    ensures 0 in Model2Pool(mid, 0, {1, 2})
    ensures forall m :: m in Model2Pool(mid, 0, {1, 2}) ==> m == 0
  {
    assert 1 in Extended(mid, 0, {1, 2}) && 2 in Extended(mid, 0, {1, 2});
  }

  /** A pool whose only member is c, under a positive cap, makes c the
      partner kept. */
  lemma SoleCandidate(model: Model, before: Adjacency, node: int, k: nat, memo: Option<nat>,
                      dropped: Option<int>, degree: Option<nat>, selected: seq<int>, scores: seq<real>,
                      chosen: Option<int>, unbound: bool, after: Adjacency, c: int)
    requires WellFormed(before) && IsNode(before, node) && k >= 1
    requires StepOutcome(model, before, node, k, memo, dropped, degree, selected, scores, chosen, unbound, after)
    requires !unbound
    requires c in Pool(model, before[node], Drop(before, node, dropped), node, degree)
    requires forall m :: m in Pool(model, before[node], Drop(before, node, dropped), node, degree) ==> m == c
    ensures chosen == Some(c) && IsNode(before, c) && c in after[node]
  {
    var pool := Pool(model, before[node], Drop(before, node, dropped), node, degree);
    assert selected != [] by {
      if |pool| <= k {
        assert selected == pool;
      }
    }
  }

  /** Model 2 can add a self-loop: in a triangle, once node 0 drops its edge to
      node 1, every other node is a neighbour or a neighbour's neighbour, and
      node 0 ends up linked to itself (models.py lines 135-141). */
  lemma Model2TriangleSelfLoop(k: nat, memo: Option<nat>, degree: Option<nat>, selected: seq<int>,
                               scores: seq<real>, chosen: Option<int>, unbound: bool, after: Adjacency)
    requires k >= 1
    requires StepOutcome(Model2, Triangle(), 0, k, memo, Some(1), degree, selected, scores, chosen, unbound, after)
    ensures chosen == Some(0) && 0 in after[0]
  {
    TriangleDrop();
    ThreeNodeModel2Pool(WithoutEdge(Triangle(), 0, 1));
    SoleCandidate(Model2, Triangle(), 0, k, memo, Some(1), degree, selected, scores, chosen, unbound, after, 0);
  }

  /** Model 3's candidates differ from the node, and their degree after the
      drop is the remembered degree: the degree the dropped neighbour had before
      the edge went, or the value left from an earlier step when the node had no
      neighbour (models.py lines 220-226). */
  lemma Model3Candidates(before: Adjacency, node: int, k: nat, memo: Option<nat>, dropped: Option<int>,
                         degree: Option<nat>, selected: seq<int>, scores: seq<real>, chosen: Option<int>,
                         unbound: bool, after: Adjacency)
    requires WellFormed(before) && IsNode(before, node)
    requires StepOutcome(Model3, before, node, k, memo, dropped, degree, selected, scores, chosen, unbound, after)
    requires !unbound
    ensures degree.Some?
    ensures dropped.Some? ==> IsNode(before, dropped.value) && degree.value == Degree(before, dropped.value)
    ensures dropped.None? ==> degree == memo
    ensures forall m :: m in selected ==>
      m != node && IsNode(before, m) && Degree(Drop(before, node, dropped), m) == degree.value
  {
    var mid := Drop(before, node, dropped);
    forall m | m in selected
      ensures m != node && IsNode(before, m) && Degree(mid, m) == degree.value
    {
      assert m in Model3Pool(mid, node, degree.value);
    }
  }

  /** Model 3 does not exclude current neighbours: scoring one adds nothing
      and then removes the existing edge. So every candidate other than the
      winner ends the step without an edge to node, whether or not it was a
      neighbour before (models.py lines 236-239). */
  lemma Model3ScoringDeletesEdge(before: Adjacency, node: int, k: nat, memo: Option<nat>, dropped: Option<int>,
                                 degree: Option<nat>, selected: seq<int>, scores: seq<real>, chosen: Option<int>,
                                 unbound: bool, after: Adjacency, m: int)
    requires WellFormed(before) && IsNode(before, node)
    requires StepOutcome(Model3, before, node, k, memo, dropped, degree, selected, scores, chosen, unbound, after)
    requires !unbound && m in selected && m != node && chosen != Some(m)
    ensures m !in after[node]
  {
  }

  /** In the triangle, once node 0 drops its edge to node 1 (whose degree was
      2), model 3 offers node 2, which is still a neighbour of node 0. */
  lemma TriangleModel3Pool()
    ensures 2 in WithoutEdge(Triangle(), 0, 1)[0]
    ensures 2 in Model3Pool(WithoutEdge(Triangle(), 0, 1), 0, Degree(Triangle(), 1))
  {
    TriangleDrop();
    var mid: Adjacency := [{2}, {2}, {0, 1}];
    assert Degree(Triangle(), 1) == 2;
    assert Degree(mid, 2) == 2;
  }

  // ---------------------------------------------------------------------------
  // Connectivity repair of models 2 and 3 (models.py lines 118-122, 208-212).

  /** max(nx.connected_components(G), key=len). networkx lists the components
      in the order of their smallest node, and max keeps the first of several
      equally large ones, which is the component of the first node whose
      component is largest. */
  function LargestComponent(adj: Adjacency): (c: set<int>)
    requires WellFormed(adj) && |adj| > 0
    ensures c <= Nodes(|adj|)
    ensures forall v :: 0 <= v < |adj| ==> |Component(adj, v)| <= |c|
    ensures exists root :: (
      && 0 <= root < |adj| && c == Component(adj, root)
      && forall v :: 0 <= v < root ==> |Component(adj, v)| < |c|)
  {
    var sizes := seq(|adj|, v requires 0 <= v < |adj| => |Component(adj, v)| as real);
    var root := FirstMaxIndex(sizes);
    assert forall v :: 0 <= v < |adj| ==> sizes[v] == |Component(adj, v)| as real;
    Component(adj, root)
  }

  /** What the loop of models.py lines 120-122 does to the graph before, for
      some outcome of its random picks: every node outside cc gains exactly
      one neighbour, a member of cc it was not linked to, and a node of cc
      gains only nodes outside cc. */
  ghost predicate JoinedTo(before: Adjacency, after: Adjacency, cc: set<int>)
    requires |after| == |before|
  {
    forall x :: 0 <= x < |before| ==>
      && (x !in cc ==> exists t :: t in cc && t !in before[x] && after[x] == before[x] + {t})
      && (x in cc ==> before[x] <= after[x] && forall y :: y in after[x] && y !in before[x] ==> y !in cc)
  }

  /** The loop of models.py lines 120-122: every node outside cc gains an edge
      to a random member of cc. cc is a component, so no node outside it is
      linked to a member already. */
  method AttachOutside(g: Graph, cc: set<int>, ghost root: int)
    requires g.Valid() && root in cc && cc <= Nodes(|g.adj|) && Closed(g.adj, cc)
    modifies g
    ensures g.Valid() && |g.adj| == |old(g.adj)| && SubGraph(old(g.adj), g.adj)
    ensures JoinedTo(old(g.adj), g.adj, cc)
    ensures forall x :: 0 <= x < |g.adj| && x !in cc ==> g.adj[x] * cc != {}
  {
    ghost var a := g.adj;
    for v := 0 to |g.adj|
      invariant g.Valid() && |g.adj| == |a| && SubGraph(a, g.adj)
      invariant forall x :: 0 <= x < v && x !in cc ==> exists t :: t in cc && t !in a[x] && g.adj[x] == a[x] + {t}
      invariant forall x :: v <= x < |a| && x !in cc ==> g.adj[x] == a[x]
      invariant forall x :: 0 <= x < |a| && x in cc ==> forall y :: y in g.adj[x] && y !in a[x] ==> y !in cc
    {
      if v !in cc {
        var target :| target in cc;
        OutsideNotLinked(a, cc, v, target);
        ghost var before := g.adj;
        g.AddEdge(v, target);
        WithEdgeRows(before, v, target);
        assert g.adj[v] == a[v] + {target};
      }
    }
    forall x | 0 <= x < |g.adj| && x !in cc ensures g.adj[x] * cc != {} {
      var t :| t in cc && t !in a[x] && g.adj[x] == a[x] + {t};
      assert t in g.adj[x] * cc;
    }
  }

  /** A node outside a closed set is linked to none of its members. */
  lemma OutsideNotLinked(a: Adjacency, cc: set<int>, v: int, t: int)
    requires WellFormed(a) && Closed(a, cc) && IsNode(a, v) && v !in cc && t in cc
    ensures t !in a[v] && t != v
  {
  }

  /** The repair step of models 2 and 3 (models.py lines 118-122, 208-212), for
      some outcome of its random picks: a connected graph is left alone;
      otherwise every node outside the largest component is joined to it. The
      result is connected. */
  ghost predicate Repaired(before: Adjacency, after: Adjacency)
    requires WellFormed(before) && |before| > 0
  {
    && |after| == |before| && WellFormed(after) && SubGraph(before, after) && Connected(after)
    && (Connected(before) ==> after == before)
    && (!Connected(before) ==> JoinedTo(before, after, LargestComponent(before)))
  }

  /** The repair step of models 2 and 3: when the graph is not connected,
      attach every node outside the largest component to a random member of
      it. */
  method RepairConnectivity(g: Graph)
    requires g.Valid() && |g.adj| > 0
    modifies g
    ensures g.Valid() && Repaired(old(g.adj), g.adj)
  {
    if !Connected(g.adj) {
      ghost var a := g.adj;
      var cc := LargestComponent(g.adj);
      ghost var root :| 0 <= root < |a| && cc == Component(a, root);
      AttachOutside(g, cc, root);
      JoinedToComponentIsConnected(a, g.adj, root);
    }
  }

  // ---------------------------------------------------------------------------
  // Rounds and the convergence loop.

  /** One node step of the given model took before to after, for some outcome
      of its random picks. */
  ghost predicate Stepped(model: Model, before: Adjacency, node: int, k: nat, memo: Option<nat>,
                          degree: Option<nat>, unbound: bool, after: Adjacency)
    requires WellFormed(before) && IsNode(before, node)
  {
    exists dropped, selected, scores, chosen {:trigger StepOutcome(model, before, node, k, memo, dropped, degree, selected, scores, chosen, unbound, after)} ::
      StepOutcome(model, before, node, k, memo, dropped, degree, selected, scores, chosen, unbound, after)
  }

  /** The node steps of a round so far, from the graph start: states[i] is the
      graph before the step at node i and degrees[i] the value of
      degree_of_removed_node then. Only the last step may have raised, and it
      did when unbound. */
  ghost predicate Trace(model: Model, k: nat, start: Adjacency, memo: Option<nat>,
                        states: seq<Adjacency>, degrees: seq<Option<nat>>, unbound: bool)
  {
    && |states| == |degrees| && 1 <= |states| <= |start| + 1
    && states[0] == start && degrees[0] == memo
    && (forall i :: 0 <= i < |states| ==> WellFormed(states[i]) && |states[i]| == |start|)
    && (forall i :: 0 <= i < |states| - 1 ==> StepAt(model, k, states, degrees, i, unbound))
  }

  /** Node step i of a trace took states[i] to states[i + 1]; it raised when
      it is the last step and the trace ends in a raise. */
  ghost predicate StepAt(model: Model, k: nat, states: seq<Adjacency>, degrees: seq<Option<nat>>, i: int, unbound: bool)
    requires |states| == |degrees| && 0 <= i < |states| - 1 && WellFormed(states[i]) && IsNode(states[i], i)
  {
    Stepped(model, states[i], i, k, degrees[i], degrees[i + 1], unbound && i == |states| - 2, states[i + 1])
  }

  /** A whole round of node steps: one per node, in node order, unless one of
      them raised. */
  ghost predicate RoundTrace(model: Model, k: nat, start: Adjacency, memo: Option<nat>,
                             states: seq<Adjacency>, degrees: seq<Option<nat>>, unbound: bool)
  {
    && Trace(model, k, start, memo, states, degrees, unbound)
    && (!unbound ==> |states| == |start| + 1)
    && (unbound ==> |states| >= 2)
  }

  /** One more node step extends a trace. */
  lemma TraceExtend(model: Model, k: nat, start: Adjacency, memo: Option<nat>,
                    states: seq<Adjacency>, degrees: seq<Option<nat>>, node: int, before: Adjacency,
                    prev: Option<nat>, after: Adjacency, degree: Option<nat>, unbound: bool)
    requires Trace(model, k, start, memo, states, degrees, false) && |states| == node + 1 <= |start|
    requires states[node] == before && degrees[node] == prev && WellFormed(before) && IsNode(before, node)
    requires WellFormed(after) && |after| == |start|
    requires Stepped(model, before, node, k, prev, degree, unbound, after)
    ensures Trace(model, k, start, memo, states + [after], degrees + [degree], unbound)
  {
    var s, d := states + [after], degrees + [degree];
    forall i | 0 <= i < |s| ensures WellFormed(s[i]) && |s[i]| == |start| {
      if i < |states| {
        assert s[i] == states[i];
      }
    }
    forall i | 0 <= i < |s| - 1 ensures StepAt(model, k, s, d, i, unbound) {
      if i < |states| - 1 {
        StepAtShift(model, k, states, degrees, s, d, i, unbound);
      } else {
        assert s[i] == before && d[i] == prev;
      }
    }
  }

  /** A step that did not raise stays a step of any trace that agrees on it. */
  lemma StepAtShift(model: Model, k: nat, states: seq<Adjacency>, degrees: seq<Option<nat>>,
                    s: seq<Adjacency>, d: seq<Option<nat>>, i: int, unbound: bool)
    requires |states| == |degrees| && 0 <= i < |states| - 1 && WellFormed(states[i]) && IsNode(states[i], i)
    requires StepAt(model, k, states, degrees, i, false)
    requires |s| == |d| && i < |s| - 2 && s[i] == states[i] && s[i + 1] == states[i + 1]
    requires d[i] == degrees[i] && d[i + 1] == degrees[i + 1]
    ensures StepAt(model, k, s, d, i, unbound)
  {
  }

  /** One round, for some outcome of its random picks: the repair step (models
      2 and 3) takes before to start, and the node steps take start to after. */
  ghost predicate RoundOutcome(model: Model, k: nat, before: Adjacency, memo: Option<nat>,
                               after: Adjacency, degree: Option<nat>, unbound: bool)
    requires WellFormed(before)
  {
    exists start, states, degrees {:trigger RoundTrace(model, k, start, memo, states, degrees, unbound)} ::
      && (model == Model1 ==> start == before)
      && (model != Model1 ==> |before| > 0 && Repaired(before, start))
      && RoundTrace(model, k, start, memo, states, degrees, unbound)
      && after == states[|states| - 1] && degree == degrees[|degrees| - 1]
  }

  /** The node steps of one round, on the graph the repair step left (models.py
      lines 43-69, 124-159, 214-244): one node step per node, in node order.
      unbound reports model 3's unbound degree_of_removed_node, which ends the
      round at once; degree carries degree_of_removed_node from one node step
      to the next. states is the graph before each node step followed by the
      graph at the end. */
  method Sweep(g: Graph, model: Model, k: nat, memo: Option<nat>)
    returns (degree: Option<nat>, unbound: bool, ghost states: seq<Adjacency>, ghost degrees: seq<Option<nat>>)
    requires g.Valid() && |g.adj| > 0
    requires model == Model3 && |g.adj| >= 2 ==> g.adj[0] != {}
    modifies g
    ensures g.Valid() && |g.adj| == |old(g.adj)|
    ensures RoundTrace(model, k, old(g.adj), memo, states, degrees, unbound)
    ensures g.adj == states[|states| - 1] && degree == degrees[|degrees| - 1]
    ensures unbound ==> model == Model3 && memo == None && |g.adj| == 1 && g.adj == old(g.adj)
    ensures model == Model3 && memo == None && |g.adj| == 1 && old(g.adj)[0] == {} ==> unbound
    ensures model == Model3 && !unbound ==> degree.Some?
    ensures memo.Some? ==> degree.Some?
  {
    states, degrees := [g.adj], [memo];
    degree, unbound := memo, false;
    for node := 0 to |g.adj|
      invariant g.Valid() && |g.adj| == |old(g.adj)|
      invariant Trace(model, k, old(g.adj), memo, states, degrees, false) && |states| == node + 1
      invariant g.adj == states[node] && degree == degrees[node]
      invariant memo.Some? ==> degree.Some?
      invariant model == Model3 && node > 0 ==> degree.Some?
      invariant node == 0 ==> g.adj == old(g.adj) && degree == memo
      invariant node > 0 && model == Model3 && memo == None && |g.adj| == 1 ==> old(g.adj)[0] != {}
    {
      degree, unbound := TracedStep(g, model, node, k, degree, old(g.adj), memo, states, degrees);
      states, degrees := states + [g.adj], degrees + [degree];
      if unbound {
        return;
      }
    }
  }

  /** A node step that also records itself in the trace of its round. */
  method TracedStep(g: Graph, model: Model, node: int, k: nat, memo: Option<nat>, ghost start: Adjacency,
                    ghost first: Option<nat>, ghost states: seq<Adjacency>, ghost degrees: seq<Option<nat>>)
    returns (degree: Option<nat>, unbound: bool)
    requires g.Valid() && Trace(model, k, start, first, states, degrees, false)
    requires |states| == node + 1 <= |start| && g.adj == states[node] && memo == degrees[node]
    modifies g
    ensures g.Valid() && |g.adj| == |old(g.adj)|
    ensures Trace(model, k, start, first, states + [g.adj], degrees + [degree], unbound)
    ensures unbound <==> model == Model3 && memo == None && old(g.adj)[node] == {}
    ensures unbound ==> g.adj == old(g.adj)
    ensures model == Model3 && !unbound ==> degree.Some?
    ensures memo.Some? ==> degree.Some?
  {
    ghost var before := g.adj;
    var dropped, selected, scores, chosen;
    dropped, degree, selected, scores, chosen, unbound := NodeStep(g, model, node, k, memo);
    TraceExtend(model, k, start, first, states, degrees, node, before, memo, g.adj, degree, unbound);
  }

  /** One round: the repair step (models 2 and 3, models.py lines 118-122,
      208-212) and then the node steps. start is the graph after the repair. */
  method Round(g: Graph, model: Model, k: nat, memo: Option<nat>)
    returns (degree: Option<nat>, unbound: bool,
             ghost start: Adjacency, ghost states: seq<Adjacency>, ghost degrees: seq<Option<nat>>)
    requires g.Valid() && |g.adj| > 0
    modifies g
    ensures g.Valid() && |g.adj| == |old(g.adj)|
    ensures model == Model1 ==> start == old(g.adj)
    ensures model != Model1 ==> Repaired(old(g.adj), start)
    ensures RoundTrace(model, k, start, memo, states, degrees, unbound)
    ensures g.adj == states[|states| - 1] && degree == degrees[|degrees| - 1]
    ensures unbound ==> model == Model3 && memo == None && |g.adj| == 1 && g.adj == old(g.adj)
    ensures model == Model3 && memo == None && |g.adj| == 1 && old(g.adj)[0] == {} ==> unbound
    ensures model == Model3 && !unbound ==> degree.Some?
    ensures memo.Some? ==> degree.Some?
  {
    if model != Model1 {
      if |g.adj| == 1 && g.adj[0] == {} {
        IsolatedComponent(g.adj, 0);
        assert Nodes(1) == {0};
      }
      RepairConnectivity(g);
      if |g.adj| >= 2 {
        ConnectedHasNeighbours(g.adj, 0);
      }
    }
    start := g.adj;
    degree, unbound, states, degrees := Sweep(g, model, k, memo);
  }

  /** The outcome of a run: the coefficient reached the bounds, the alarm
      fired (TimeoutException, caught), or an exception left the function. */
  datatype Outcome = Converged | TimedOut | Raised

  /** The loop condition of models.py line 40 fails: c lies within
      [cluster - allowed_error, cluster + allowed_error]. */
  predicate InBounds(c: real, cluster: real, err: real): (r: bool)
    ensures r <==> !(c < cluster - err || c > cluster + err)
  {
    cluster - err <= c <= cluster + err
  }

  /** What model1, model2 and model3 return, as a relation between the inputs
      and (i, c_steps): c_steps starts with c_current, every entry but a final
      in-bounds one lies outside the bounds, a converged run has one entry per
      round plus the initial one, and a run stopped by the alarm or an
      exception has one entry fewer because i was already counted. */
  ghost predicate Reported(model: Model, n: nat, c0: real, cluster: real, err: real, maxRounds: nat,
                           rounds: nat, trajectory: seq<real>, outcome: Outcome)
  {
    && |trajectory| > 0 && trajectory[0] == c0
    && (outcome == Converged ==> |trajectory| == rounds + 1 && InBounds(trajectory[rounds], cluster, err))
    && (outcome != Converged ==> |trajectory| == rounds && rounds > 0)
    && (forall j :: 0 <= j < rounds && j < |trajectory| ==> !InBounds(trajectory[j], cluster, err))
    && (InBounds(c0, cluster, err) ==> rounds == 0 && trajectory == [c0] && outcome == Converged)
    && rounds <= maxRounds + 1
    && (outcome == TimedOut <==> rounds == maxRounds + 1)
    && (outcome == Raised ==> n == 0 || (model == Model3 && n == 1))
    && (n == 0 && rounds > 0 ==> outcome == Raised || outcome == TimedOut)
  }

  /** The graphs behind a run: graphs[j] is the graph when trajectory[j] was
      recorded, memos[j] the value of degree_of_removed_node then. Each graph
      comes from the previous one by one round, each entry after the first is
      the average clustering of its graph, and the graph handed back is the
      last one. */
  ghost predicate Explained(model: Model, k: nat, initial: Adjacency, final: Adjacency,
                            trajectory: seq<real>, graphs: seq<Adjacency>, memos: seq<Option<nat>>)
  {
    && |graphs| == |trajectory| == |memos| && |graphs| >= 1
    && graphs[0] == initial && memos[0] == None && final == graphs[|graphs| - 1]
    && (forall j :: 0 <= j < |graphs| ==> WellFormed(graphs[j]) && |graphs[j]| == |initial|)
    && (forall j :: 1 <= j < |graphs| ==> RoundAt(model, k, graphs, memos, j))
    && (forall j :: 1 <= j < |graphs| ==> ScoredAt(trajectory, graphs, j))
  }

  /** Entry j of a trajectory is the average clustering of graph j. */
  ghost predicate ScoredAt(trajectory: seq<real>, graphs: seq<Adjacency>, j: int)
    requires |trajectory| == |graphs| && 0 <= j < |graphs| && WellFormed(graphs[j])
  {
    |graphs[j]| > 0 && trajectory[j] == AverageClustering(graphs[j])
  }

  /** Round j of a run: graphs[j - 1] to graphs[j], without raising. */
  ghost predicate RoundAt(model: Model, k: nat, graphs: seq<Adjacency>, memos: seq<Option<nat>>, j: int)
    requires |graphs| == |memos| && 1 <= j < |graphs| && WellFormed(graphs[j - 1])
  {
    RoundOutcome(model, k, graphs[j - 1], memos[j - 1], graphs[j], memos[j], false)
  }

  /** A round from before raised, leaving after: a run that raised inside a
      round did so from the last graph behind it. */
  ghost predicate RaisedIn(model: Model, k: nat, before: Adjacency, memo: Option<nat>, after: Adjacency)
    requires WellFormed(before)
  {
    exists d {:trigger RoundOutcome(model, k, before, memo, after, d, true)} :: RoundOutcome(model, k, before, memo, after, d, true)
  }

  /** One more converged round extends the graphs behind a run. */
  lemma ExplainedExtend(model: Model, k: nat, initial: Adjacency, trajectory: seq<real>,
                        graphs: seq<Adjacency>, memos: seq<Option<nat>>, last: Adjacency,
                        after: Adjacency, degree: Option<nat>, c: real)
    requires Explained(model, k, initial, last, trajectory, graphs, memos)
    requires WellFormed(after) && |after| == |initial| > 0 && c == AverageClustering(after)
    requires RoundOutcome(model, k, graphs[|graphs| - 1], memos[|memos| - 1], after, degree, false)
    ensures Explained(model, k, initial, after, trajectory + [c], graphs + [after], memos + [degree])
  {
    var t, gs, ms := trajectory + [c], graphs + [after], memos + [degree];
    forall j | 0 <= j < |gs| ensures WellFormed(gs[j]) && |gs[j]| == |initial| {
      if j < |graphs| {
        assert gs[j] == graphs[j];
      }
    }
    RoundAtLast(model, k, graphs, memos, after, degree);
    RoundsExtend(model, k, graphs, memos, after, degree);
    ScoresExtend(trajectory, graphs, after, c);
  }

  /** The rounds of a run, extended by one more round. */
  lemma RoundsExtend(model: Model, k: nat, graphs: seq<Adjacency>, memos: seq<Option<nat>>,
                     after: Adjacency, degree: Option<nat>)
    requires |graphs| == |memos| >= 1 && forall j :: 0 <= j < |graphs| ==> WellFormed(graphs[j])
    requires forall j :: 1 <= j < |graphs| ==> RoundAt(model, k, graphs, memos, j)
    requires WellFormed(graphs[|graphs| - 1]) && RoundAt(model, k, graphs + [after], memos + [degree], |graphs|)
    ensures forall j :: 1 <= j < |graphs| + 1 ==> RoundAt(model, k, graphs + [after], memos + [degree], j)
  {
    var gs, ms := graphs + [after], memos + [degree];
    forall j | 1 <= j < |gs| ensures RoundAt(model, k, gs, ms, j) {
      assert gs[j - 1] == graphs[j - 1] && ms[j - 1] == memos[j - 1];
      if j < |graphs| {
        assert gs[j] == graphs[j] && ms[j] == memos[j];
        RoundAtShift(model, k, graphs, memos, gs, ms, j);
      }
    }
  }

  /** The round that produced after is the last round of the extended run. */
  lemma RoundAtLast(model: Model, k: nat, graphs: seq<Adjacency>, memos: seq<Option<nat>>,
                    after: Adjacency, degree: Option<nat>)
    requires |graphs| == |memos| >= 1 && WellFormed(graphs[|graphs| - 1])
    requires RoundOutcome(model, k, graphs[|graphs| - 1], memos[|memos| - 1], after, degree, false)
    ensures RoundAt(model, k, graphs + [after], memos + [degree], |graphs|)
  {
    var gs, ms := graphs + [after], memos + [degree];
    assert gs[|graphs| - 1] == graphs[|graphs| - 1] && ms[|graphs| - 1] == memos[|memos| - 1];
    assert gs[|graphs|] == after && ms[|graphs|] == degree;
  }

  /** A round of a run is a round of every longer run with the same prefix. */
  lemma RoundAtShift(model: Model, k: nat, graphs: seq<Adjacency>, memos: seq<Option<nat>>,
                     gs: seq<Adjacency>, ms: seq<Option<nat>>, j: int)
    requires |graphs| == |memos| && |gs| == |ms| && 1 <= j < |graphs| && j < |gs| && WellFormed(graphs[j - 1])
    requires gs[j - 1] == graphs[j - 1] && gs[j] == graphs[j] && ms[j - 1] == memos[j - 1] && ms[j] == memos[j]
    requires RoundAt(model, k, graphs, memos, j)
    ensures RoundAt(model, k, gs, ms, j)
  {
  }

  /** The coefficients of a run, extended by the one of one more graph. */
  lemma ScoresExtend(trajectory: seq<real>, graphs: seq<Adjacency>, after: Adjacency, c: real)
    requires |trajectory| == |graphs| && forall j :: 0 <= j < |graphs| ==> WellFormed(graphs[j])
    requires forall j :: 1 <= j < |graphs| ==> ScoredAt(trajectory, graphs, j)
    requires WellFormed(after) && |after| > 0 && c == AverageClustering(after)
    ensures forall j :: 1 <= j < |graphs| + 1 ==> ScoredAt(trajectory + [c], graphs + [after], j)
  {
    var t, gs := trajectory + [c], graphs + [after];
    forall j | 1 <= j < |gs| ensures ScoredAt(t, gs, j) {
      if j < |graphs| {
        assert ScoredAt(trajectory, graphs, j);
        assert gs[j] == graphs[j] && t[j] == trajectory[j];
      }
    }
  }

  /** The loop shared by model1, model2 and model3 (models.py lines 30-83,
      103-173, 193-258). The alarm set for one hour is a budget of maxRounds
      whole rounds: it fires right after i is incremented for round
      maxRounds + 1. */
  method Rewire(g: Graph, model: Model, c0: real, cluster: real, err: real, k: nat, maxRounds: nat)
    returns (rounds: nat, trajectory: seq<real>, outcome: Outcome,
             ghost graphs: seq<Adjacency>, ghost memos: seq<Option<nat>>)
    requires g.Valid()
    modifies g
    ensures g.Valid() && |g.adj| == |old(g.adj)|
    ensures Reported(model, |g.adj|, c0, cluster, err, maxRounds, rounds, trajectory, outcome)
    ensures Explained(model, k, old(g.adj), g.adj, trajectory, graphs, memos)
    ensures outcome == Raised && |g.adj| > 0 ==> RaisedIn(model, k, graphs[|graphs| - 1], memos[|memos| - 1], g.adj)
    ensures InBounds(c0, cluster, err) ==> g.adj == old(g.adj)
    ensures |old(g.adj)| == 0 && !InBounds(c0, cluster, err) && maxRounds > 0 ==> outcome == Raised && rounds == 1
    ensures model == Model3 && |old(g.adj)| == 1 && old(g.adj)[0] == {} && !InBounds(c0, cluster, err) && maxRounds > 0 ==>
      outcome == Raised && rounds == 1
  {
    rounds, trajectory, outcome := 0, [c0], Converged;
    graphs, memos := [g.adj], [None];
    var c := c0;
    var degree: Option<nat> := None;
    while !InBounds(c, cluster, err)
      invariant g.Valid() && |g.adj| == |old(g.adj)|
      invariant rounds <= maxRounds
      invariant |trajectory| == rounds + 1 && trajectory[0] == c0 && trajectory[rounds] == c
      invariant forall j :: 0 <= j < rounds ==> !InBounds(trajectory[j], cluster, err)
      invariant Explained(model, k, old(g.adj), g.adj, trajectory, graphs, memos)
      invariant memos[|memos| - 1] == degree
      invariant rounds == 0 ==> g.adj == old(g.adj) && c == c0 && degree == None
      invariant model == Model3 && |old(g.adj)| == 1 && old(g.adj)[0] == {} && maxRounds > 0 ==> rounds == 0
      invariant |old(g.adj)| == 0 && maxRounds > 0 ==> rounds == 0
      decreases maxRounds - rounds
    {
      rounds := rounds + 1;
      if rounds > maxRounds {
        outcome := TimedOut;
        return;
      }
      if |g.adj| == 0 {
        outcome := Raised;
        return;
      }
      var unbound;
      degree, unbound, graphs, memos := ExplainedRound(g, model, k, degree, old(g.adj), trajectory, graphs, memos);
      if unbound {
        outcome := Raised;
        return;
      }
      c := AverageClustering(g.adj);
      trajectory := trajectory + [c];
    }
  }

  /** One round of the convergence loop, recorded in the graphs behind the
      run; the coefficient of the new graph is what models.py lines 71-72
      append to c_steps. */
  method ExplainedRound(g: Graph, model: Model, k: nat, memo: Option<nat>, ghost initial: Adjacency,
                        ghost trajectory: seq<real>, ghost graphs: seq<Adjacency>, ghost memos: seq<Option<nat>>)
    returns (degree: Option<nat>, unbound: bool, ghost graphs': seq<Adjacency>, ghost memos': seq<Option<nat>>)
    requires g.Valid() && |g.adj| > 0
    requires Explained(model, k, initial, g.adj, trajectory, graphs, memos) && memos[|memos| - 1] == memo
    modifies g
    ensures g.Valid() && |g.adj| == |old(g.adj)|
    ensures unbound ==> model == Model3 && memo == None && |g.adj| == 1 && g.adj == old(g.adj)
    ensures unbound ==> graphs' == graphs && memos' == memos && Explained(model, k, initial, g.adj, trajectory, graphs, memos)
    ensures unbound ==> RaisedIn(model, k, graphs[|graphs| - 1], memos[|memos| - 1], g.adj)
    ensures !unbound ==> graphs' == graphs + [g.adj] && memos' == memos + [degree]
    ensures !unbound ==> Explained(model, k, initial, g.adj, trajectory + [AverageClustering(g.adj)], graphs', memos')
    ensures model == Model3 && memo == None && |g.adj| == 1 && old(g.adj)[0] == {} ==> unbound
  {
    ghost var start, states, degrees;
    degree, unbound, start, states, degrees := Round(g, model, k, memo);
    assert RoundTrace(model, k, start, memo, states, degrees, unbound);
    assert RoundOutcome(model, k, old(g.adj), memo, g.adj, degree, unbound);
    graphs', memos' := graphs, memos;
    if unbound {
      assert RaisedIn(model, k, old(g.adj), memo, g.adj);
      return;
    }
    ExplainedExtend(model, k, initial, trajectory, graphs, memos, old(g.adj), g.adj, degree, AverageClustering(g.adj));
    graphs', memos' := graphs + [g.adj], memos + [degree];
  }

  /** model1(G, c_current, cluster, allowed_error, nodes_per_round). */
  method RunModel1(g: Graph, c0: real, cluster: real, err: real, k: nat, maxRounds: nat)
    returns (rounds: nat, trajectory: seq<real>, outcome: Outcome,
             ghost graphs: seq<Adjacency>, ghost memos: seq<Option<nat>>)
    requires g.Valid()
    modifies g
    ensures g.Valid() && |g.adj| == |old(g.adj)|
    ensures Reported(Model1, |g.adj|, c0, cluster, err, maxRounds, rounds, trajectory, outcome)
    ensures Explained(Model1, k, old(g.adj), g.adj, trajectory, graphs, memos)
    ensures outcome == Raised <==> |g.adj| == 0 && !InBounds(c0, cluster, err) && maxRounds > 0
    ensures InBounds(c0, cluster, err) ==> g.adj == old(g.adj)
  {
    rounds, trajectory, outcome, graphs, memos := Rewire(g, Model1, c0, cluster, err, k, maxRounds);
  }

  /** model2(G, c_current, cluster, allowed_error, nodes_per_round). */
  method RunModel2(g: Graph, c0: real, cluster: real, err: real, k: nat, maxRounds: nat)
    returns (rounds: nat, trajectory: seq<real>, outcome: Outcome,
             ghost graphs: seq<Adjacency>, ghost memos: seq<Option<nat>>)
    requires g.Valid()
    modifies g
    ensures g.Valid() && |g.adj| == |old(g.adj)|
    ensures Reported(Model2, |g.adj|, c0, cluster, err, maxRounds, rounds, trajectory, outcome)
    ensures Explained(Model2, k, old(g.adj), g.adj, trajectory, graphs, memos)
    ensures outcome == Raised <==> |g.adj| == 0 && !InBounds(c0, cluster, err) && maxRounds > 0
    ensures InBounds(c0, cluster, err) ==> g.adj == old(g.adj)
  {
    rounds, trajectory, outcome, graphs, memos := Rewire(g, Model2, c0, cluster, err, k, maxRounds);
  }

  /** model3(G, c_current, cluster, allowed_error, nodes_per_round). */
  method RunModel3(g: Graph, c0: real, cluster: real, err: real, k: nat, maxRounds: nat)
    returns (rounds: nat, trajectory: seq<real>, outcome: Outcome,
             ghost graphs: seq<Adjacency>, ghost memos: seq<Option<nat>>)
    requires g.Valid()
    modifies g
    ensures g.Valid() && |g.adj| == |old(g.adj)|
    ensures Reported(Model3, |g.adj|, c0, cluster, err, maxRounds, rounds, trajectory, outcome)
    ensures Explained(Model3, k, old(g.adj), g.adj, trajectory, graphs, memos)
    ensures outcome == Raised && |g.adj| > 0 ==> RaisedIn(Model3, k, graphs[|graphs| - 1], memos[|memos| - 1], g.adj)
    ensures |old(g.adj)| == 0 && !InBounds(c0, cluster, err) && maxRounds > 0 ==> outcome == Raised && rounds == 1
    ensures |old(g.adj)| == 1 && old(g.adj)[0] == {} && !InBounds(c0, cluster, err) && maxRounds > 0 ==>
      outcome == Raised && rounds == 1
    ensures InBounds(c0, cluster, err) ==> g.adj == old(g.adj)
  {
    rounds, trajectory, outcome, graphs, memos := Rewire(g, Model3, c0, cluster, err, k, maxRounds);
  }
}
