/** The numbers a threshold function accepts, as open intervals, and when two functions accept a common number. */
module Intervals {
  import opened Basics
  import opened Threshold

  /** The numbers strictly between the bounds; None is no bound. */
  datatype Interval = Interval(lo: Option<real>, hi: Option<real>) {
    predicate Contains(x: real) {
      (lo.Some? ==> lo.value < x) && (hi.Some? ==> x < hi.value)
    }
  }

  function Accepted(name: string, args: seq<real>): seq<Interval>
    requires Arity(name).Some? && |args| >= Arity(name).value
  {
    if name == IS_ABOVE then [Interval(Some(args[0]), None)]
    else if name == IS_BELOW then [Interval(None, Some(args[0]))]
    else if name == IS_WITHIN_RANGE then [Interval(Some(args[0]), Some(args[1]))]
    else [Interval(None, Some(args[0])), Interval(Some(args[1]), None)]
  }

  predicate Below(lo: Option<real>, hi: Option<real>) {
    lo.Some? && hi.Some? ==> lo.value < hi.value
  }

  /** Every lower bound is below every upper bound. */
  predicate Meet(i: Interval, j: Interval) {
    Below(i.lo, i.hi) && Below(i.lo, j.hi) && Below(j.lo, i.hi) && Below(j.lo, j.hi)
  }

  predicate AllApart(first: seq<Interval>, second: seq<Interval>) {
    forall m, n :: 0 <= m < |first| && 0 <= n < |second| ==> !Meet(first[m], second[n])
  }

  function Tighter(a: Option<real>, b: Option<real>, upper: bool): Option<real> {
    if a.None? then b
    else if b.None? then a
    else if (a.value < b.value) == upper then a
    else b
  }

  /** A number in both intervals, when there is one. */
  function Common(i: Interval, j: Interval): real {
    var lo, hi := Tighter(i.lo, j.lo, false), Tighter(i.hi, j.hi, true);
    if lo.Some? && hi.Some? then (lo.value + hi.value) / 2.0
    else if lo.Some? then lo.value + 1.0
    else if hi.Some? then hi.value - 1.0
    else 0.0
  }

  lemma MeetExactly(i: Interval, j: Interval)
    ensures Meet(i, j) <==> exists x :: i.Contains(x) && j.Contains(x)
  {
    if Meet(i, j) {
      assert i.Contains(Common(i, j)) && j.Contains(Common(i, j));
    }
  }

  lemma CompareIsAccepted(name: string, args: seq<real>, x: real)
    requires Arity(name).Some? && |args| >= Arity(name).value
    ensures Compare(name, args, x) <==> exists m :: 0 <= m < |Accepted(name, args)| && Accepted(name, args)[m].Contains(x)
  {
    var first := Accepted(name, args);
    assert first[0].Contains(x) || !first[0].Contains(x);
    if |first| == 2 {
      assert first[1].Contains(x) || !first[1].Contains(x);
    }
  }

  /** Two threshold functions accept a common number exactly when two of their intervals meet. */
  lemma ApartExactlyWhenNeverBoth(f: string, a: seq<real>, g: string, b: seq<real>)
    requires Arity(f).Some? && |a| >= Arity(f).value && Arity(g).Some? && |b| >= Arity(g).value
    ensures AllApart(Accepted(f, a), Accepted(g, b)) <==> forall x :: !(Compare(f, a, x) && Compare(g, b, x))
  {
    var first, second := Accepted(f, a), Accepted(g, b);
    forall x | Compare(f, a, x) && Compare(g, b, x) ensures !AllApart(first, second) {
      CompareIsAccepted(f, a, x);
      CompareIsAccepted(g, b, x);
      var m :| 0 <= m < |first| && first[m].Contains(x);
      var n :| 0 <= n < |second| && second[n].Contains(x);
      MeetExactly(first[m], second[n]);
    }
    if m, n :| 0 <= m < |first| && 0 <= n < |second| && Meet(first[m], second[n]) {
      MeetExactly(first[m], second[n]);
      var x :| first[m].Contains(x) && second[n].Contains(x);
      CompareIsAccepted(f, a, x);
      CompareIsAccepted(g, b, x);
    }
  }
}
