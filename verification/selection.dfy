/** The list operations the rewiring models use to pick candidates: list
    comprehensions over the node list, random.sample's draw without
    replacement, the nodes_per_round cap, and list.index(max(list)). */
module Selection {

  ghost predicate Distinct(s: seq<int>) {
    forall i, j :: 0 <= i < j < |s| ==> s[i] != s[j]
  }

  ghost predicate Increasing(s: seq<int>) {
    forall i, j :: 0 <= i < j < |s| ==> s[i] < s[j]
  }

  /** The list comprehension [x for x in s if keep(x)]. */
  function Filter(s: seq<int>, keep: int -> bool): (r: seq<int>)
    ensures forall x :: x in r <==> x in s && keep(x)
    ensures |r| <= |s|
    ensures Increasing(s) ==> Increasing(r)
  {
    if s == [] then []
    else
      var rest := Filter(s[1..], keep);
      IncreasingCons(s, rest);
      if keep(s[0]) then [s[0]] + rest else rest
  }

  /** An increasing list s keeps increasing when its tail is replaced by an
      increasing sub-list of that tail. */
  lemma IncreasingCons(s: seq<int>, rest: seq<int>)
    requires s != [] && forall x :: x in rest ==> x in s[1..]
    requires Increasing(s[1..]) ==> Increasing(rest)
    ensures Increasing(s) ==> Increasing(rest) && Increasing([s[0]] + rest)
  {
    if Increasing(s) {
      assert Increasing(s[1..]);
      forall j | 0 <= j < |rest| ensures s[0] < rest[j] {
        assert rest[j] in rest;
      }
    }
  }

  /** random.sample(pool, k): k entries of pool taken from k different
      positions, each position chosen at random among those not yet taken. */
  method Sample(pool: seq<int>, k: nat) returns (picked: seq<int>)
    requires k <= |pool|
    ensures |picked| == k
    ensures multiset(picked) <= multiset(pool)
  {
    picked := [];
    var rest := pool;
    for i := 0 to k
      invariant |picked| == i && |rest| == |pool| - i
      invariant multiset(picked) + multiset(rest) == multiset(pool)
    {
      var j :| 0 <= j < |rest|;
      assert rest == rest[..j] + [rest[j]] + rest[j + 1..];
      picked := picked + [rest[j]];
      rest := rest[..j] + rest[j + 1..];
    }
  }

  /** Two equal entries at different positions occur twice in the multiset. */
  lemma RepeatCountsTwice(s: seq<int>, i: int, j: int)
    requires 0 <= i < j < |s| && s[i] == s[j]
    ensures multiset(s)[s[i]] >= 2
  {
    assert s == s[..i] + [s[i]] + s[i + 1..j] + [s[j]] + s[j + 1..];
  }

  /** Entries of a distinct list occur once each in its multiset. */
  lemma {:induction false} DistinctCountsOnce(s: seq<int>, x: int)
    requires Distinct(s)
    ensures multiset(s)[x] <= 1
  {
    if s != [] {
      DistinctCountsOnce(s[1..], x);
      assert s == [s[0]] + s[1..];
      if s[0] == x {
        assert x !in s[1..];
      }
    }
  }

  /** A draw without replacement from a list without repeats has no repeats. */
  lemma SampleOfDistinctIsDistinct(picked: seq<int>, pool: seq<int>)
    requires Distinct(pool) && multiset(picked) <= multiset(pool)
    ensures Distinct(picked)
  {
    forall i, j | 0 <= i < j < |picked| ensures picked[i] != picked[j] {
      if picked[i] == picked[j] {
        RepeatCountsTwice(picked, i, j);
        DistinctCountsOnce(pool, picked[i]);
        assert false;
      }
    }
  }

  /** The candidate list of one node step: the whole pool when it has at most
      nodes_per_round entries, otherwise nodes_per_round distinct pool entries. */
  ghost predicate CappedSample(selected: seq<int>, pool: seq<int>, k: nat) {
    && (|pool| <= k ==> selected == pool)
    && (|pool| > k ==> |selected| == k && multiset(selected) <= multiset(pool))
    && (Distinct(pool) ==> Distinct(selected))
    && (forall x :: x in selected ==> x in pool)
  }

  method CapCandidates(pool: seq<int>, k: nat) returns (selected: seq<int>)
    ensures CappedSample(selected, pool, k)
  {
    if |pool| > k {
      selected := Sample(pool, k);
      forall x | x in selected ensures x in pool {
        assert x in multiset(selected);
      }
      if Distinct(pool) {
        SampleOfDistinctIsDistinct(selected, pool);
      }
    } else {
      selected := pool;
    }
  }

  /** scores.index(max(scores)): the first position holding the largest score. */
  function FirstMaxIndex(scores: seq<real>): (r: nat)
    requires |scores| > 0
    ensures r < |scores|
    ensures forall j :: 0 <= j < |scores| ==> scores[j] <= scores[r]
    ensures forall j :: 0 <= j < r ==> scores[j] < scores[r]
  {
    if |scores| == 1 then 0
    else
      var r := FirstMaxIndex(scores[..|scores| - 1]);
      if scores[|scores| - 1] > scores[r] then |scores| - 1 else r
  }
}
