/** The degree distribution digest_network hands to configuration_B: the
    list of node degrees and numpy's bincount of it, which serves as the
    weight list of random.choices. */
module Histogram {
  import opened Graphs
  import Configuration

  /** [G.degree(node) for node in G.nodes()], nodes in order 0 .. n-1. */
  function DegreeSequence(adj: Adjacency): (ds: seq<nat>)
    ensures |ds| == |adj|
    ensures forall v :: 0 <= v < |adj| ==> ds[v] == Degree(adj, v)
    ensures forall v :: 0 <= v < |adj| ==> (ds[v] == 0 <==> adj[v] == {})
  {
    seq(|adj|, v requires 0 <= v < |adj| => Degree(adj, v))
  }

  /** One more occurrence of d in a count list, extending it with zeros when d
      lies beyond its end. */
  function Bump(r: seq<nat>, d: nat): (b: seq<nat>)
    ensures |b| == if d < |r| then |r| else d + 1
    ensures b[d] == (if d < |r| then r[d] else 0) + 1
    ensures forall e :: 0 <= e < |b| && e != d ==> b[e] == (if e < |r| then r[e] else 0)
  {
    var padded := if d < |r| then r else r + seq(d + 1 - |r|, _ => 0);
    padded[d := padded[d] + 1]
  }

  /** numpy.bincount(xs): entry d counts the occurrences of d; the list ends
      at the largest value, and is empty for an empty input. */
  function BinCount(xs: seq<nat>): (r: seq<nat>)
    ensures forall d :: 0 <= d < |r| ==> r[d] == multiset(xs)[d]
    ensures forall x :: x in xs ==> x < |r|
    ensures xs == [] <==> r == []
    ensures r != [] ==> |r| - 1 in xs
  {
    if xs == [] then []
    else
      var prefix := xs[..|xs| - 1];
      var last := xs[|xs| - 1];
      assert xs == prefix + [last];
      var counts := BinCount(prefix);
      forall d: nat | d >= |counts| ensures multiset(prefix)[d] == 0 {
        assert d !in prefix;
      }
      Bump(counts, last)
  }

  function Total(r: seq<nat>): nat {
    if r == [] then 0 else r[0] + Total(r[1..])
  }

  lemma {:induction false} TotalAppend(a: seq<nat>, b: seq<nat>)
    ensures Total(a + b) == Total(a) + Total(b)
    decreases |a|
  {
    if a != [] {
      assert (a + b)[1..] == a[1..] + b;
      TotalAppend(a[1..], b);
    } else {
      assert a + b == b;
    }
  }

  lemma {:induction false} TotalOfZeros(k: nat)
    ensures Total(seq(k, _ => 0)) == 0
  {
    if k > 0 {
      assert seq(k, _ => 0)[1..] == seq(k - 1, _ => 0);
      TotalOfZeros(k - 1);
    }
  }

  lemma {:induction false} TotalIncrement(r: seq<nat>, d: nat)
    requires d < |r|
    ensures Total(r[d := r[d] + 1]) == Total(r) + 1
    decreases d
  {
    if d > 0 {
      assert r[d := r[d] + 1][1..] == r[1..][d - 1 := r[d] + 1];
      TotalIncrement(r[1..], d - 1);
    }
  }

  /** Bump adds exactly one to the total count. */
  lemma BumpTotal(r: seq<nat>, d: nat)
    ensures Total(Bump(r, d)) == Total(r) + 1
  {
    var padded := if d < |r| then r else r + seq(d + 1 - |r|, _ => 0);
    if d >= |r| {
      TotalAppend(r, seq(d + 1 - |r|, _ => 0));
      TotalOfZeros(d + 1 - |r|);
    }
    TotalIncrement(padded, d);
    assert Bump(r, d) == padded[d := padded[d] + 1];
  }

  /** The counts of bincount add up to the length of its input. */
  lemma {:induction false} BinCountTotal(xs: seq<nat>)
    ensures Total(BinCount(xs)) == |xs|
    decreases |xs|
  {
    if xs != [] {
      BinCountTotal(xs[..|xs| - 1]);
      BumpTotal(BinCount(xs[..|xs| - 1]), xs[|xs| - 1]);
    }
  }

  /** The number of occurrences of d in xs counts the positions holding d. */
  lemma {:induction false} OccurrencesArePositions(xs: seq<nat>, d: nat)
    ensures multiset(xs)[d] == |set i | 0 <= i < |xs| && xs[i] == d|
    decreases |xs|
  {
    if xs != [] {
      var prefix := xs[..|xs| - 1];
      OccurrencesArePositions(prefix, d);
      assert xs == prefix + [xs[|xs| - 1]];
      var before := set i | 0 <= i < |prefix| && prefix[i] == d;
      var now := set i | 0 <= i < |xs| && xs[i] == d;
      if xs[|xs| - 1] == d {
        assert now == before + {|xs| - 1};
      } else {
        assert now == before;
      }
    }
  }

  /** degree_counts = np.bincount(degrees). */
  function DegreeHistogram(adj: Adjacency): (h: seq<nat>)
    ensures |adj| == 0 <==> h == []
  {
    BinCount(DegreeSequence(adj))
  }

  /** Entry d of the histogram is the number of nodes of degree d, the
      histogram ends at the largest degree, and its entries add up to the
      number of nodes. */
  lemma DegreeHistogramCounts(adj: Adjacency, d: nat)
    ensures d < |DegreeHistogram(adj)| ==>
      DegreeHistogram(adj)[d] == |set v | 0 <= v < |adj| && Degree(adj, v) == d|
    ensures forall v :: 0 <= v < |adj| ==> Degree(adj, v) < |DegreeHistogram(adj)|
    ensures Total(DegreeHistogram(adj)) == |adj|
  {
    var ds := DegreeSequence(adj);
    OccurrencesArePositions(ds, d);
    assert (set i | 0 <= i < |ds| && ds[i] == d) == (set v | 0 <= v < |adj| && Degree(adj, v) == d);
    assert forall v :: 0 <= v < |adj| ==> ds[v] in ds;
    BinCountTotal(ds);
  }

  /** The histogram as the weight list configuration_B receives. */
  function Weights(h: seq<nat>): (P: seq<real>)
    ensures |P| == |h|
    ensures forall d :: 0 <= d < |h| ==> P[d] == h[d] as real
  {
    seq(|h|, d requires 0 <= d < |h| => h[d] as real)
  }

  /** The degree histogram is a valid weight list: no weight is negative, a
      degree is drawn with positive weight exactly when some node has it, and
      random.choices raises on it exactly when the network has no node. */
  lemma HistogramWeights(adj: Adjacency)
    ensures Configuration.NonNegative(Weights(DegreeHistogram(adj)))
    ensures forall d :: 0 <= d < |DegreeHistogram(adj)| ==>
      (Weights(DegreeHistogram(adj))[d] > 0.0 <==> exists v :: 0 <= v < |adj| && Degree(adj, v) == d)
    ensures Configuration.NoWeight(Weights(DegreeHistogram(adj))) <==> |adj| == 0
  {
    var h := DegreeHistogram(adj);
    var ds := DegreeSequence(adj);
    var P := Weights(h);
    forall d | 0 <= d < |h|
      ensures P[d] > 0.0 <==> exists v :: 0 <= v < |adj| && Degree(adj, v) == d
    {
      if P[d] > 0.0 {
        assert d in multiset(ds);
        var v :| 0 <= v < |ds| && ds[v] == d;
        assert Degree(adj, v) == d;
      }
      if exists v :: 0 <= v < |adj| && Degree(adj, v) == d {
        var v :| 0 <= v < |adj| && Degree(adj, v) == d;
        assert ds[v] == d;
        assert d in multiset(ds);
      }
    }
    if |adj| > 0 {
      var top := |h| - 1;
      assert h[top] > 0 by {
        assert top in ds;
        assert top in multiset(ds);
      }
      Configuration.EntryAtMostSum(P, top);
    }
  }
}
