/** Finite graphs of names: chains of links, cycles, and the ranking of a part without cycles. */
module Chains {
  import opened Basics

  /** Where each name leads. */
  type Links = map<string, set<string>>

  ghost predicate Leads(links: Links, path: seq<string>, i: nat)
    requires i + 1 < |path|
  {
    path[i] in links && path[i + 1] in links[path[i]]
  }

  /** Each name of the path leads to the next. */
  ghost predicate IsChain(links: Links, path: seq<string>) {
    |path| > 0 && forall i: nat :: i + 1 < |path| ==> Leads(links, path, i)
  }

  /** A chain from one of the names `from` to p. */
  ghost predicate Reaches(links: Links, from: set<string>, p: string) {
    exists path :: IsChain(links, path) && path[0] in from && path[|path| - 1] == p
  }

  /** A chain of one link or more that ends where it began. */
  ghost predicate IsCycle(links: Links, path: seq<string>) {
    IsChain(links, path) && |path| >= 2 && path[0] == path[|path| - 1]
  }

  /** Some name that is reached, over any number of links, lies on a cycle. */
  ghost predicate ReachesCycle(links: Links, from: set<string>) {
    exists path :: IsCycle(links, path) && Reaches(links, from, path[0])
  }

  ghost predicate AllBelow(rank: map<string, nat>, names: set<string>, h: nat) {
    forall q :: q in names ==> q in rank && rank[q] < h
  }

  /** Ranked names lead only to names of a lower rank. */
  ghost predicate Descending(links: Links, rank: map<string, nat>) {
    forall p :: p in links && p in rank ==> AllBelow(rank, links[p], rank[p])
  }

  // ---------------------------------------------------------------- a ranking rules out cycles

  lemma {:induction false} ChainDescends(links: Links, rank: map<string, nat>, path: seq<string>)
    requires Descending(links, rank) && IsChain(links, path) && path[0] in rank
    ensures path[|path| - 1] in rank
    ensures |path| >= 2 ==> rank[path[|path| - 1]] < rank[path[0]]
  {
    if |path| >= 2 {
      assert Leads(links, path, 0);
      SubChain(links, path, 1, |path| - 1);
      assert path[1..|path| - 1 + 1] == path[1..];
      ChainDescends(links, rank, path[1..]);
    }
  }

  lemma SubChain(links: Links, path: seq<string>, i: nat, j: nat)
    requires IsChain(links, path) && i <= j < |path|
    ensures IsChain(links, path[i..j + 1])
  {
    var sub := path[i..j + 1];
    forall k: nat | k + 1 < |sub| ensures Leads(links, sub, k) {
      assert Leads(links, path, i + k);
    }
  }

  lemma DescendingIsAcyclic(links: Links, rank: map<string, nat>, from: set<string>, h: nat)
    requires Descending(links, rank) && AllBelow(rank, from, h)
    ensures !ReachesCycle(links, from)
  {
    forall path | IsChain(links, path) && Reaches(links, from, path[0]) ensures !IsCycle(links, path) {
      var way :| IsChain(links, way) && way[0] in from && way[|way| - 1] == path[0];
      ChainDescends(links, rank, way);
      ChainDescends(links, rank, path);
    }
  }

  // ---------------------------------------------------------------- without cycles there is a ranking

  ghost predicate Within(path: seq<string>, d: set<string>) {
    forall i :: 0 <= i < |path| ==> path[i] in d
  }

  ghost predicate NoCycleIn(links: Links, d: set<string>) {
    forall path :: IsCycle(links, path) ==> !Within(path, d)
  }

  /** p leads to some name of d. */
  ghost predicate GoesOn(links: Links, d: set<string>, p: string) {
    p in links && exists q :: q in links[p] && q in d
  }

  lemma {:induction false} DistinctWithin(path: seq<string>, d: set<string>)
    requires Distinct(path) && Within(path, d)
    ensures |path| <= |d|
  {
    if path != [] {
      var front, last := path[..|path| - 1], path[|path| - 1];
      DistinctWithin(front, d - {last});
    }
  }

  lemma ChainAppend(links: Links, path: seq<string>, q: string)
    requires IsChain(links, path) && path[|path| - 1] in links && q in links[path[|path| - 1]]
    ensures IsChain(links, path + [q])
  {
    forall i: nat | i + 1 < |path + [q]| ensures Leads(links, path + [q], i) {
      if i + 1 < |path| { assert Leads(links, path, i); }
    }
  }

  /** Where every name of a set leads to another one, chains of any length can be followed. */
  lemma {:induction false} LongChain(links: Links, d: set<string>, n: nat) returns (path: seq<string>)
    requires d != {} && forall p :: p in d ==> GoesOn(links, d, p)
    ensures IsChain(links, path) && Within(path, d) && |path| == n + 1
  {
    if n == 0 {
      var p :| p in d;
      path := [p];
    } else {
      var front := LongChain(links, d, n - 1);
      var last := front[|front| - 1];
      assert last in d && GoesOn(links, d, last);
      var q :| q in links[last] && q in d;
      ChainAppend(links, front, q);
      path := front + [q];
    }
  }

  /** Such a set holds a cycle. */
  lemma EndlessIsCyclic(links: Links, d: set<string>)
    requires d != {} && forall p :: p in d ==> GoesOn(links, d, p)
    ensures !NoCycleIn(links, d)
  {
    var path := LongChain(links, d, |d|);
    if forall i, j :: 0 <= i < j < |path| ==> path[i] != path[j] {
      DistinctWithin(path, d);
    }
    var i, j :| 0 <= i < j < |path| && path[i] == path[j];
    SubChain(links, path, i, j);
    assert IsCycle(links, path[i..j + 1]) && Within(path[i..j + 1], d);
  }

  lemma LastOne(links: Links, d: set<string>) returns (last: string)
    requires d != {} && NoCycleIn(links, d)
    ensures last in d && !GoesOn(links, d, last)
  {
    if forall p :: p in d ==> GoesOn(links, d, p) {
      EndlessIsCyclic(links, d);
    }
    last :| last in d && !GoesOn(links, d, last);
  }

  /** Taking away a name that leads nowhere, again and again, ranks a set without cycles. */
  lemma {:induction false} RankOf(links: Links, d: set<string>) returns (rank: map<string, nat>)
    requires NoCycleIn(links, d)
    ensures rank.Keys == d && forall p :: p in d ==> rank[p] < |d|
    ensures forall p, q :: p in d && q in d && p in links && q in links[p] ==> rank[q] < rank[p]
    decreases |d|
  {
    if d == {} {
      rank := map[];
    } else {
      var last := LastOne(links, d);
      var rest := RankOf(links, d - {last});
      rank := map p | p in d :: if p == last then 0 else rest[p] + 1;
      forall p, q | p in d && q in d && p in links && q in links[p] ensures rank[q] < rank[p] {
        assert p != last;
      }
    }
  }

  lemma ReachesNext(links: Links, from: set<string>, p: string, q: string)
    requires Reaches(links, from, p) && p in links && q in links[p]
    ensures Reaches(links, from, q)
  {
    var path :| IsChain(links, path) && path[0] in from && path[|path| - 1] == p;
    ChainAppend(links, path, q);
    assert (path + [q])[0] in from && (path + [q])[|path|] == q;
  }

  lemma ReachesFirst(links: Links, from: set<string>, q: string)
    requires q in from
    ensures Reaches(links, from, q)
  {
    assert IsChain(links, [q]);
  }

  /** What is reached without meeting a cycle can be ranked. */
  lemma AcyclicIsRanked(links: Links, from: set<string>) returns (rank: map<string, nat>, h: nat)
    requires !ReachesCycle(links, from) && from <= links.Keys && forall p :: p in links ==> links[p] <= links.Keys
    ensures Descending(links, rank) && AllBelow(rank, from, h)
  {
    var d := set p | p in links.Keys && Reaches(links, from, p);
    forall path | IsCycle(links, path) ensures !Within(path, d) {
      assert !Reaches(links, from, path[0]);
    }
    rank := RankOf(links, d);
    h := |d|;
    forall p | p in links && p in rank ensures AllBelow(rank, links[p], rank[p]) {
      forall q | q in links[p] ensures q in d { ReachesNext(links, from, p, q); }
    }
    forall q | q in from ensures q in d { ReachesFirst(links, from, q); }
  }
}
