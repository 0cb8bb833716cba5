/**
 * The stabilised topological sort that buildExecutionOrder relies on: a depth-first search
 * over node ids and successors in descending order, whose finishing order is reversed.
 */
module TopoSort {
  import opened Basics

  type Edges = set<(nat, nat)>

  predicate WithinIds(n: nat, edges: Edges) {
    forall e :: e in edges ==> e.0 < n && e.1 < n
  }

  // ---------------------------------------------------------------- cycles and orders

  ghost predicate Step(edges: Edges, p: seq<nat>, i: nat)
    requires i + 1 < |p|
  {
    (p[i], p[i + 1]) in edges
  }

  ghost predicate IsPath(edges: Edges, p: seq<nat>) {
    forall i: nat :: i + 1 < |p| ==> Step(edges, p, i)
  }

  /** A closed walk of one edge or more. */
  ghost predicate IsCycle(edges: Edges, c: seq<nat>) {
    |c| >= 2 && IsPath(edges, c) && c[0] == c[|c| - 1]
  }

  ghost predicate HasCycle(edges: Edges) {
    exists c :: IsCycle(edges, c)
  }

  ghost predicate Before(order: seq<nat>, u: nat, v: nat) {
    exists i, j :: 0 <= i < j < |order| && order[i] == u && order[j] == v
  }

  ghost predicate IsPermutation(n: nat, order: seq<nat>) {
    |order| == n && Distinct(order) && forall v: nat :: v < n <==> v in order
  }

  ghost predicate TopologicalOrder(n: nat, edges: Edges, order: seq<nat>) {
    IsPermutation(n, order) && forall e :: e in edges ==> Before(order, e.0, e.1)
  }

  ghost predicate IsSource(edges: Edges, v: nat) {
    forall e :: e in edges ==> e.1 != v
  }

  // ---------------------------------------------------------------- the search

  datatype Search = Cyclic | Finished(done: seq<nat>)

  function Ids(n: nat): (ids: set<nat>)
    ensures forall v: nat :: v in ids <==> v < n
    ensures |ids| == n
  {
    if n == 0 then {} else Ids(n - 1) + {n - 1}
  }

  ghost function Elements(s: seq<nat>): (r: set<nat>)
    ensures forall v: nat :: v in r <==> v in s
  {
    if s == [] then {} else Elements(s[..|s| - 1]) + {s[|s| - 1]}
  }

  lemma {:induction false} DistinctElements(s: seq<nat>)
    requires Distinct(s)
    ensures |Elements(s)| == |s|
  {
    if s != [] {
      DistinctElements(s[..|s| - 1]);
    }
  }

  /** free: the ids that are not on the path from the root to v. */
  function Visit(n: nat, edges: Edges, v: nat, free: set<nat>, done: seq<nat>): Search
    decreases |free|, 0
  {
    if v in done then Finished(done)
    else if v !in free then Cyclic
    else
      match VisitSuccessors(n, edges, v, n, free - {v}, done)
      case Cyclic => Cyclic
      case Finished(d) => Finished(d + [v])
  }

  function VisitSuccessors(n: nat, edges: Edges, v: nat, k: nat, free: set<nat>, done: seq<nat>): Search
    decreases |free|, k + 1
  {
    if k == 0 then Finished(done)
    else if (v, k - 1) !in edges then VisitSuccessors(n, edges, v, k - 1, free, done)
    else
      match Visit(n, edges, k - 1, free, done)
      case Cyclic => Cyclic
      case Finished(d) => VisitSuccessors(n, edges, v, k - 1, free, d)
  }

  function VisitRoots(n: nat, edges: Edges, k: nat, done: seq<nat>): Search {
    if k == 0 then Finished(done)
    else
      match Visit(n, edges, k - 1, Ids(n), done)
      case Cyclic => Cyclic
      case Finished(d) => VisitRoots(n, edges, k - 1, d)
  }

  function Reverse(s: seq<nat>): (r: seq<nat>)
    ensures |r| == |s| && forall i :: 0 <= i < |s| ==> r[i] == s[|s| - 1 - i]
  {
    if s == [] then [] else [s[|s| - 1]] + Reverse(s[..|s| - 1])
  }

  /** None when the graph is not orderable. */
  function SortStabilized(n: nat, edges: Edges): Option<seq<nat>> {
    match VisitRoots(n, edges, n, [])
    case Cyclic => None
    case Finished(d) => Some(Reverse(d))
  }

  // ---------------------------------------------------------------- finishing orders

  ghost predicate ClosedAt(edges: Edges, done: seq<nat>, i: nat)
    requires i < |done|
  {
    forall w: nat :: (done[i], w) in edges ==> w in done[..i]
  }

  /** Every finished id is finished once and after all its successors. */
  ghost predicate Postorder(n: nat, edges: Edges, done: seq<nat>) {
    && Distinct(done)
    && (forall i :: 0 <= i < |done| ==> done[i] < n)
    && (forall i :: 0 <= i < |done| ==> ClosedAt(edges, done, i))
  }

  /** d extends done by ids that come from the free ones and, except for v, have an incoming edge. */
  ghost predicate Grows(edges: Edges, done: seq<nat>, d: seq<nat>, free: set<nat>) {
    && done <= d
    && (forall x: nat :: x in d[|done|..] ==> x in free && !IsSource(edges, x))
  }

  lemma PostorderAppend(n: nat, edges: Edges, d: seq<nat>, v: nat)
    requires Postorder(n, edges, d) && v < n && v !in d
    requires forall w: nat :: (v, w) in edges ==> w in d
    ensures Postorder(n, edges, d + [v])
  {
    var e := d + [v];
    forall i | 0 <= i < |e| ensures ClosedAt(edges, e, i) {
      if i < |d| {
        assert ClosedAt(edges, d, i);
        assert e[..i] == d[..i];
      } else {
        assert e[..i] == d;
      }
    }
  }

  lemma {:induction false} VisitSound(n: nat, edges: Edges, v: nat, free: set<nat>, done: seq<nat>)
    requires WithinIds(n, edges) && v < n && Postorder(n, edges, done)
    requires Visit(n, edges, v, free, done).Finished?
    ensures
      var d := Visit(n, edges, v, free, done).done;
      Postorder(n, edges, d) && v in d && if v in done then d == done else
        |d| > |done| && d[|d| - 1] == v && v in free && Grows(edges, done, d[..|d| - 1], free - {v})
    decreases |free|, 0
  {
    if v !in done {
      VisitSuccessorsSound(n, edges, v, n, free - {v}, done);
      var d := VisitSuccessors(n, edges, v, n, free - {v}, done).done;
      assert d == done + d[|done|..];
      PostorderAppend(n, edges, d, v);
      assert (d + [v])[..|d|] == d;
    }
  }

  lemma {:induction false} VisitSuccessorsSound(n: nat, edges: Edges, v: nat, k: nat, free: set<nat>, done: seq<nat>)
    requires WithinIds(n, edges) && v < n && k <= n && Postorder(n, edges, done)
    requires VisitSuccessors(n, edges, v, k, free, done).Finished?
    ensures
      var d := VisitSuccessors(n, edges, v, k, free, done).done;
      && Postorder(n, edges, d) && Grows(edges, done, d, free)
      && (forall w: nat :: w < k && (v, w) in edges ==> w in d)
    decreases |free|, k + 1
  {
    if k > 0 {
      if (v, k - 1) in edges {
        VisitSound(n, edges, k - 1, free, done);
        var d := Visit(n, edges, k - 1, free, done).done;
        GrowsVisited(edges, done, d, free, (v, k - 1));
        VisitSuccessorsSound(n, edges, v, k - 1, free, d);
        var last := VisitSuccessors(n, edges, v, k - 1, free, d).done;
        GrowsTransitive(edges, done, d, last, free);
        PrefixContains(d, last);
      } else {
        VisitSuccessorsSound(n, edges, v, k - 1, free, done);
      }
    }
  }

  lemma PrefixContains(a: seq<nat>, b: seq<nat>)
    requires a <= b
    ensures forall v: nat :: v in a ==> v in b
  {
  }

  lemma GrowsVisited(edges: Edges, done: seq<nat>, d: seq<nat>, free: set<nat>, e: (nat, nat))
    requires e in edges
    requires if e.1 in done then d == done else
      |d| > |done| && d[|d| - 1] == e.1 && e.1 in free && Grows(edges, done, d[..|d| - 1], free - {e.1})
    ensures Grows(edges, done, d, free)
  {
    if e.1 !in done {
      var front := d[..|d| - 1];
      assert d == front + [e.1];
      assert d[|done|..] == front[|done|..] + [e.1];
    }
  }

  lemma GrowsTransitive(edges: Edges, a: seq<nat>, b: seq<nat>, c: seq<nat>, free: set<nat>)
    requires Grows(edges, a, b, free) && Grows(edges, b, c, free)
    ensures Grows(edges, a, c, free)
  {
  }

  // ---------------------------------------------------------------- a search that gives up has met a cycle

  lemma PathAppend(edges: Edges, p: seq<nat>, v: nat)
    requires IsPath(edges, p) && (p != [] ==> (p[|p| - 1], v) in edges)
    ensures IsPath(edges, p + [v])
  {
    forall i: nat | i + 1 < |p + [v]| ensures Step(edges, p + [v], i) {
      if i + 1 < |p| { assert Step(edges, p, i); }
    }
  }

  lemma PathSuffix(edges: Edges, p: seq<nat>, k: nat)
    requires IsPath(edges, p) && k <= |p|
    ensures IsPath(edges, p[k..])
  {
    forall i: nat | i + 1 < |p[k..]| ensures Step(edges, p[k..], i) {
      assert Step(edges, p, k + i);
    }
  }

  lemma PathCloses(edges: Edges, path: seq<nat>, v: nat)
    requires IsPath(edges, path) && v in path && (path[|path| - 1], v) in edges
    ensures HasCycle(edges)
  {
    var i :| 0 <= i < |path| && path[i] == v;
    PathAppend(edges, path, v);
    PathSuffix(edges, path + [v], i);
    assert IsCycle(edges, (path + [v])[i..]);
  }

  /** free holds the ids that are not on the path. */
  ghost predicate OffPath(n: nat, path: seq<nat>, free: set<nat>) {
    (forall x: nat :: x in path ==> x < n) && forall x: nat :: x in free <==> x < n && x !in path
  }

  lemma {:induction false} VisitCyclic(n: nat, edges: Edges, v: nat, path: seq<nat>, free: set<nat>, done: seq<nat>)
    requires WithinIds(n, edges) && v < n && IsPath(edges, path) && (path != [] ==> (path[|path| - 1], v) in edges)
    requires OffPath(n, path, free) && Visit(n, edges, v, free, done).Cyclic?
    ensures HasCycle(edges)
    decreases |free|, 0
  {
    if v in free {
      PathAppend(edges, path, v);
      assert |free - {v}| < |free|;
      VisitSuccessorsCyclic(n, edges, v, n, path + [v], free - {v}, done);
    } else {
      PathCloses(edges, path, v);
    }
  }

  /** path ends with v. */
  lemma {:induction false} VisitSuccessorsCyclic(n: nat, edges: Edges, v: nat, k: nat, path: seq<nat>, free: set<nat>, done: seq<nat>)
    requires WithinIds(n, edges) && v < n && k <= n && IsPath(edges, path) && |path| > 0 && path[|path| - 1] == v
    requires OffPath(n, path, free) && VisitSuccessors(n, edges, v, k, free, done).Cyclic?
    ensures HasCycle(edges)
    decreases |free|, k + 1
  {
    if (v, k - 1) in edges {
      var r := Visit(n, edges, k - 1, free, done);
      if r.Cyclic? {
        VisitCyclic(n, edges, k - 1, path, free, done);
      } else {
        VisitSuccessorsCyclic(n, edges, v, k - 1, path, free, r.done);
      }
    } else {
      VisitSuccessorsCyclic(n, edges, v, k - 1, path, free, done);
    }
  }

  lemma {:induction false} RootsCyclic(n: nat, edges: Edges, k: nat, done: seq<nat>)
    requires WithinIds(n, edges) && k <= n && VisitRoots(n, edges, k, done).Cyclic?
    ensures HasCycle(edges)
  {
    var r := Visit(n, edges, k - 1, Ids(n), done);
    if r.Cyclic? {
      VisitCyclic(n, edges, k - 1, [], Ids(n), done);
    } else {
      RootsCyclic(n, edges, k - 1, r.done);
    }
  }

  // ---------------------------------------------------------------- a search that ends has an order

  /** The finished ids that have no incoming edge are the ones from k on, the highest first. */
  ghost predicate SourcesDescend(edges: Edges, done: seq<nat>, k: nat) {
    && (forall i :: 0 <= i < |done| && IsSource(edges, done[i]) ==> done[i] >= k)
    && (forall i, j :: 0 <= i < j < |done| && IsSource(edges, done[i]) && IsSource(edges, done[j]) ==> done[i] > done[j])
  }

  lemma RootSound(n: nat, edges: Edges, k: nat, done: seq<nat>) returns (d: seq<nat>)
    requires WithinIds(n, edges) && 0 < k <= n && Postorder(n, edges, done) && SourcesDescend(edges, done, k)
    requires Visit(n, edges, k - 1, Ids(n), done).Finished?
    ensures Visit(n, edges, k - 1, Ids(n), done) == Finished(d)
    ensures Postorder(n, edges, d) && SourcesDescend(edges, d, k - 1) && done <= d && k - 1 in d
  {
    VisitSound(n, edges, k - 1, Ids(n), done);
    d := Visit(n, edges, k - 1, Ids(n), done).done;
    RootKeepsSources(edges, done, d, k, Ids(n) - {k - 1});
  }

  lemma {:induction false} RootsSound(n: nat, edges: Edges, k: nat, done: seq<nat>)
    requires WithinIds(n, edges) && k <= n && Postorder(n, edges, done) && SourcesDescend(edges, done, k)
    requires VisitRoots(n, edges, k, done).Finished?
    ensures
      var d := VisitRoots(n, edges, k, done).done;
      && Postorder(n, edges, d) && SourcesDescend(edges, d, 0)
      && done <= d && (forall v: nat :: v < k ==> v in d)
  {
    if k > 0 {
      var d := RootSound(n, edges, k, done);
      RootsSound(n, edges, k - 1, d);
      PrefixContains(d, VisitRoots(n, edges, k - 1, d).done);
    }
  }

  lemma RootKeepsSources(edges: Edges, done: seq<nat>, d: seq<nat>, k: nat, free: set<nat>)
    requires k > 0 && SourcesDescend(edges, done, k)
    requires if k - 1 in done then d == done else
      |d| > |done| && d[|d| - 1] == k - 1 && Grows(edges, done, d[..|d| - 1], free)
    ensures SourcesDescend(edges, d, k - 1) && done <= d
  {
  }

  lemma ReversedPostorderIsTopological(n: nat, edges: Edges, done: seq<nat>)
    requires WithinIds(n, edges) && Postorder(n, edges, done) && forall v: nat :: v < n ==> v in done
    ensures TopologicalOrder(n, edges, Reverse(done))
  {
    var order := Reverse(done);
    forall v: nat ensures v < n <==> v in order {
      if v < n {
        assert v in done;
        var i :| 0 <= i < |done| && done[i] == v;
        assert order[|done| - 1 - i] == v;
      }
      if v in order {
        var i :| 0 <= i < |order| && order[i] == v;
        assert done[|done| - 1 - i] == v;
      }
    }
    DistinctCount(n, done);
    forall e | e in edges ensures Before(order, e.0, e.1) {
      assert e.0 in done;
      var i :| 0 <= i < |done| && done[i] == e.0;
      assert ClosedAt(edges, done, i);
      var j :| 0 <= j < i && done[j] == e.1;
      assert order[|done| - 1 - i] == e.0 && order[|done| - 1 - j] == e.1;
    }
  }

  lemma DistinctCount(n: nat, s: seq<nat>)
    requires Distinct(s) && (forall i :: 0 <= i < |s| ==> s[i] < n) && forall v: nat :: v < n ==> v in s
    ensures |s| == n
  {
    DistinctElements(s);
    assert Elements(s) == Ids(n);
  }

  // ---------------------------------------------------------------- main results

  lemma {:induction false} PathRunsForward(edges: Edges, order: seq<nat>, p: seq<nat>)
    requires Distinct(order) && forall e :: e in edges ==> Before(order, e.0, e.1)
    requires |p| >= 2 && IsPath(edges, p)
    ensures Before(order, p[0], p[|p| - 1])
  {
    assert Step(edges, p, 0);
    if |p| > 2 {
      PathSuffix(edges, p, 1);
      PathRunsForward(edges, order, p[1..]);
    }
  }

  /** A topological order leaves no room for a cycle of any length. */
  lemma OrderedIsAcyclic(n: nat, edges: Edges, order: seq<nat>)
    requires TopologicalOrder(n, edges, order)
    ensures !HasCycle(edges)
  {
    if c :| IsCycle(edges, c) {
      PathRunsForward(edges, order, c);
    }
  }

  /** What is returned is a topological order in which ids without incoming edge keep their order. */
  lemma SortedOrder(n: nat, edges: Edges)
    requires WithinIds(n, edges) && SortStabilized(n, edges).Some?
    ensures TopologicalOrder(n, edges, SortStabilized(n, edges).value)
    ensures forall u: nat, v: nat :: u < v < n && IsSource(edges, u) && IsSource(edges, v) ==>
      Before(SortStabilized(n, edges).value, u, v)
  {
    RootsSound(n, edges, n, []);
    var done := VisitRoots(n, edges, n, []).done;
    ReversedPostorderIsTopological(n, edges, done);
    SourcesKeepOrder(n, edges, done);
  }

  lemma SourcesKeepOrder(n: nat, edges: Edges, done: seq<nat>)
    requires SourcesDescend(edges, done, 0) && forall v: nat :: v < n ==> v in done
    ensures forall u: nat, v: nat :: u < v < n && IsSource(edges, u) && IsSource(edges, v) ==>
      Before(Reverse(done), u, v)
  {
    var order := Reverse(done);
    forall u: nat, v: nat | u < v < n && IsSource(edges, u) && IsSource(edges, v) ensures Before(order, u, v) {
      assert u in done && v in done;
      var i :| 0 <= i < |done| && done[i] == u;
      var j :| 0 <= j < |done| && done[j] == v;
      assert j < i;
      assert order[|done| - 1 - i] == u && order[|done| - 1 - j] == v;
    }
  }

  /** An order is returned if and only if the graph has no cycle of any length. */
  lemma SortedExactlyWhenAcyclic(n: nat, edges: Edges)
    requires WithinIds(n, edges)
    ensures SortStabilized(n, edges).Some? <==> !HasCycle(edges)
  {
    if SortStabilized(n, edges).Some? {
      SortedOrder(n, edges);
      OrderedIsAcyclic(n, edges, SortStabilized(n, edges).value);
    } else {
      RootsCyclic(n, edges, n, []);
    }
  }
}
