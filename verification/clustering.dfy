/** networkx's average_clustering, as an exact real number: the local
    clustering coefficient of a node is the fraction of ordered pairs of
    distinct neighbours that are themselves adjacent (0 below two neighbours),
    and the average is taken over every node. Self-loops are ignored, as
    networkx ignores them. */
module Clustering {
  import opened Graphs

  /** The neighbours of v that networkx's clustering looks at: set(G[v]) - {v}. */
  function Neighbours(adj: Adjacency, v: int): (nb: set<int>)
    requires IsNode(adj, v)
    ensures v !in nb && nb <= adj[v]
  {
    adj[v] - {v}
  }

  /** Ordered pairs of distinct members of s. */
  function OrderedPairs(s: set<int>): set<(int, int)> {
    set a, b | a in s && b in s && a != b :: (a, b)
  }

  /** Ordered pairs of distinct neighbours of v that are adjacent to each other:
      twice the number of triangles through v. */
  function LinkedPairs(adj: Adjacency, v: int): (lp: set<(int, int)>)
    requires IsNode(adj, v)
    ensures lp <= OrderedPairs(Neighbours(adj, v))
  {
    var nb := Neighbours(adj, v);
    set a, b | a in nb && b in nb && a != b && 0 <= a < |adj| && b in adj[a] :: (a, b)
  }

  /** The pairs (x, b) for b in t. */
  function Row(x: int, t: set<int>): set<(int, int)> {
    set b | b in t :: (x, b)
  }

  /** The pairs (a, x) for a in t. */
  function Column(x: int, t: set<int>): set<(int, int)> {
    set a | a in t :: (a, x)
  }

  lemma {:induction false} RowCount(x: int, t: set<int>)
    ensures |Row(x, t)| == |t|
    decreases |t|
  {
    if t != {} {
      var y := PickMember(t);
      var rest := t - {y};
      RowCount(x, rest);
      assert Row(x, t) == Row(x, rest) + {(x, y)};
    }
  }

  lemma {:induction false} ColumnCount(x: int, t: set<int>)
    ensures |Column(x, t)| == |t|
    decreases |t|
  {
    if t != {} {
      var y := PickMember(t);
      var rest := t - {y};
      ColumnCount(x, rest);
      assert Column(x, t) == Column(x, rest) + {(y, x)};
    }
  }

  /** Taking x out of s splits its pairs into those avoiding x, those starting
      at x and those ending at x. */
  lemma OrderedPairsSplit(s: set<int>, x: int)
    requires x in s
    ensures OrderedPairs(s) == OrderedPairs(s - {x}) + Row(x, s - {x}) + Column(x, s - {x})
    ensures OrderedPairs(s - {x}) !! Row(x, s - {x})
    ensures (OrderedPairs(s - {x}) + Row(x, s - {x})) !! Column(x, s - {x})
  {
  }

  /** A set of d elements has d * (d - 1) ordered pairs of distinct elements. */
  lemma {:induction false} OrderedPairsCount(s: set<int>)
    ensures |OrderedPairs(s)| == |s| * (|s| - 1)
    decreases |s|
  {
    if s != {} {
      var x := PickMember(s);
      var t := s - {x};
      OrderedPairsCount(t);
      RowCount(x, t);
      ColumnCount(x, t);
      OrderedPairsSplit(s, x);
      var a, b, c := OrderedPairs(t), Row(x, t), Column(x, t);
      assert |a + b| == |a| + |b|;
      assert |a + b + c| == |a + b| + |c|;
      assert |a + b + c| == |t| * (|t| - 1) + |t| + |t|;
      assert |s| == |t| + 1;
      PairCountStep(|t|);
    }
  }

  lemma PairCountStep(d: int)
    ensures d * (d - 1) + d + d == (d + 1) * (d + 1 - 1)
  {
  }

  lemma SubsetCardinality(a: set<(int, int)>, b: set<(int, int)>)
    requires a <= b
    ensures |a| <= |b|
  {
    assert b == a + (b - a);
  }

  lemma PairsPositive(d: int)
    requires d >= 2
    ensures d * (d - 1) > 0
  {
  }

  lemma RatioInUnit(a: int, b: int)
    requires 0 <= a <= b && b > 0
    ensures 0.0 <= (a as real) / (b as real) <= 1.0
  {
  }

  /** networkx's clustering(G, v), a value between 0 and 1. */
  function LocalClustering(adj: Adjacency, v: int): (c: real)
    requires IsNode(adj, v)
    ensures 0.0 <= c <= 1.0
  {
    var d := |Neighbours(adj, v)|;
    if d < 2 then 0.0
    else
      var linked := |LinkedPairs(adj, v)|;
      var pairs := d * (d - 1);
      OrderedPairsCount(Neighbours(adj, v));
      SubsetCardinality(LinkedPairs(adj, v), OrderedPairs(Neighbours(adj, v)));
      PairsPositive(d);
      RatioInUnit(linked, pairs);
      (linked as real) / (pairs as real)
  }

  /** The sum of the local coefficients of the nodes 0 .. k-1. */
  function ClusteringSum(adj: Adjacency, k: nat): (s: real)
    requires k <= |adj|
    ensures 0.0 <= s <= k as real
  {
    if k == 0 then 0.0 else ClusteringSum(adj, k - 1) + LocalClustering(adj, k - 1)
  }

  /** networkx's average_clustering(G): the mean over all nodes. networkx
      divides by zero on the empty graph, hence the precondition. */
  function AverageClustering(adj: Adjacency): (c: real)
    requires |adj| > 0
    ensures 0.0 <= c <= 1.0
  {
    var n := |adj| as real;
    var s := ClusteringSum(adj, |adj|);
    assert s / n <= 1.0 by {
      assert s <= n;
    }
    s / n
  }

  /** Graphs whose nodes have the same local coefficients have the same sums. */
  lemma {:induction false} SameLocalSameSum(a: Adjacency, b: Adjacency, k: nat)
    requires k <= |a| && |a| == |b|
    requires forall v :: 0 <= v < |a| ==> LocalClustering(a, v) == LocalClustering(b, v)
    ensures ClusteringSum(a, k) == ClusteringSum(b, k)
  {
    if k > 0 {
      SameLocalSameSum(a, b, k - 1);
      var la, lb := LocalClustering(a, k - 1), LocalClustering(b, k - 1);
      assert la == lb;
      assert ClusteringSum(a, k) == ClusteringSum(a, k - 1) + la;
      assert ClusteringSum(b, k) == ClusteringSum(b, k - 1) + lb;
    }
  }

  /** A self-loop does not change the average clustering: networkx's clustering
      drops a node from its own neighbour set. */
  lemma SelfLoopKeepsClustering(adj: Adjacency, v: int)
    requires WellFormed(adj) && IsNode(adj, v)
    ensures AverageClustering(WithEdge(adj, v, v)) == AverageClustering(adj)
  {
    var looped := WithEdge(adj, v, v);
    forall x | 0 <= x < |adj| ensures LocalClustering(looped, x) == LocalClustering(adj, x) {
      assert Neighbours(looped, x) == Neighbours(adj, x);
      assert LinkedPairs(looped, x) == LinkedPairs(adj, x);
    }
    SameLocalSameSum(looped, adj, |adj|);
  }
}
