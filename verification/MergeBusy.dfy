/**
  Free-busy merging: the periods of a FREEBUSY answer are clipped to the asked
  range, sorted and joined.

  The sort compares with a 64-bit subtraction, which wraps.  MergeExactIff says
  for which ranges the merge is right, for every input, and ServerRangesExact that
  these include all the server asks for; Canonical and CanonicalUnique say that the answer then depends only on the busy instants.
*/
module MergeBusy {

  const TWO63 := 0x8000_0000_0000_0000

  type Int64 = x: int | -TWO63 <= x < TWO63

  /** The busy instants `start <= t < end`, in Unix seconds. */
  datatype Period = Period(start: Int64, end: Int64)

  predicate Covers(ps: seq<Period>, t: int) {
    exists i :: 0 <= i < |ps| && ps[i].start <= t < ps[i].end
  }

  /** No empty period, and a gap of at least one instant between neighbours. */
  predicate Canonical(ps: seq<Period>) {
    && (forall i :: 0 <= i < |ps| ==> ps[i].start < ps[i].end)
    && (forall i, j :: 0 <= i < j < |ps| ==> ps[i].end < ps[j].start)
  }

  function Max(a: Int64, b: Int64): Int64 { if a > b then a else b }

  function Min(a: Int64, b: Int64): Int64 { if a < b then a else b }

  /** A difference of two int64 values as the machine computes it. */
  function Wrap(x: int): (w: Int64)
    requires -2 * TWO63 < x < 2 * TWO63
    ensures w == x || w == x - 2 * TWO63 || w == x + 2 * TWO63
  {
    if x < -TWO63 then x + 2 * TWO63 else if x >= TWO63 then x - 2 * TWO63 else x
  }

  function Compare(a: Period, b: Period): Int64 {
    if a.start != b.start then Wrap(a.start - b.start) else Wrap(a.end - b.end)
  }

  function Clip(busy: seq<Period>, from: Int64, to: Int64): seq<Period> {
    if busy == [] then []
    else
      var last := busy[|busy| - 1];
      var s, e := Max(last.start, from), Min(last.end, to);
      Clip(busy[..|busy| - 1], from, to) + if e > s then [Period(s, e)] else []
  }

  /** One round of the insertion sort: p sinks from the right end of s. */
  function Sink(s: seq<Period>, p: Period): seq<Period> {
    if s == [] || Compare(p, s[|s| - 1]) >= 0 then s + [p]
    else Sink(s[..|s| - 1], p) + [s[|s| - 1]]
  }

  function Sort(s: seq<Period>): seq<Period> {
    if s == [] then [] else Sink(Sort(s[..|s| - 1]), s[|s| - 1])
  }

  /** One round of the join loop: p widens the last period it touches, or follows it. */
  function Absorb(out: seq<Period>, p: Period): seq<Period> {
    var n := |out|;
    if n > 0 && p.start <= out[n - 1].end then
      out[n - 1 := Period(out[n - 1].start, Max(out[n - 1].end, p.end))]
    else out + [p]
  }

  function Join(out: seq<Period>, ps: seq<Period>): seq<Period>
    decreases |ps|
  {
    if ps == [] then out else Join(Absorb(out, ps[0]), ps[1..])
  }

  function Merged(busy: seq<Period>, from: Int64, to: Int64): seq<Period> {
    Join([], Sort(Clip(busy, from, to)))
  }

  /** The answer covers the asked range's busy instants and no other. */
  ghost predicate Exact(out: seq<Period>, busy: seq<Period>, from: Int64, to: Int64) {
    Canonical(out) && forall t :: Covers(out, t) <==> from <= t < to && Covers(busy, t)
  }

  method MergePeriods(busy: seq<Period>, from: Int64, to: Int64) returns (out: seq<Period>)
    ensures out == Merged(busy, from, to)
    ensures to - from <= TWO63 ==> Exact(out, busy, from, to)
  {
    var clipped := [];
    for i := 0 to |busy|
      invariant clipped == Clip(busy[..i], from, to)
    {
      assert busy[..i + 1][..i] == busy[..i];
      var s, e := Max(busy[i].start, from), Min(busy[i].end, to);
      if e > s {
        clipped := clipped + [Period(s, e)];
      }
    }
    assert busy[..|busy|] == busy;
    clipped := Sort(clipped);
    out := [];
    for i := 0 to |clipped|
      invariant Join(out, clipped[i..]) == Merged(busy, from, to)
    {
      var p, n := clipped[i], |out|;
      assert clipped[i..][1..] == clipped[i + 1..];
      if n > 0 && p.start <= out[n - 1].end {
        out := out[n - 1 := Period(out[n - 1].start, Max(out[n - 1].end, p.end))];
      } else {
        out := out + [p];
      }
    }
    if to - from <= TWO63 {
      MergedExact(busy, from, to);
    }
  }

  // ---------------------------------------------------------------- clipping

  lemma {:induction false} ClipCovers(busy: seq<Period>, from: Int64, to: Int64)
    ensures forall t :: Covers(Clip(busy, from, to), t) <==> from <= t < to && Covers(busy, t)
    ensures forall p :: p in Clip(busy, from, to) ==> from <= p.start < p.end <= to
  {
    if busy != [] {
      var init, last := busy[..|busy| - 1], busy[|busy| - 1];
      ClipCovers(init, from, to);
      var s, e := Max(last.start, from), Min(last.end, to);
      var piece := if e > s then [Period(s, e)] else [];
      forall t
        ensures Covers(Clip(busy, from, to), t) <==> from <= t < to && Covers(busy, t)
      {
        CoversConcat(Clip(init, from, to), piece, t);
        assert busy == init + [last];
        CoversConcat(init, [last], t);
        assert e > s ==> piece[0].start == s && piece[0].end == e;
        assert [last][0] == last;
      }
    }
  }

  lemma CoversConcat(a: seq<Period>, b: seq<Period>, t: int)
    ensures Covers(a + b, t) <==> Covers(a, t) || Covers(b, t)
  {
    if Covers(a, t) {
      var i :| 0 <= i < |a| && a[i].start <= t < a[i].end;
      assert (a + b)[i] == a[i];
    }
    if Covers(b, t) {
      var i :| 0 <= i < |b| && b[i].start <= t < b[i].end;
      assert (a + b)[|a| + i] == b[i];
    }
  }

  // ----------------------------------------------------------------- sorting

  predicate ByStart(s: seq<Period>) {
    forall i, j :: 0 <= i < j < |s| ==> s[i].start <= s[j].start
  }

  /** The comparator tells these two apart as their starts do. */
  predicate Ordered(a: Period, b: Period) {
    && (Compare(a, b) < 0 ==> a.start <= b.start)
    && (Compare(a, b) >= 0 ==> b.start <= a.start)
  }

  lemma {:induction false} SinkPermutes(s: seq<Period>, p: Period)
    ensures multiset(Sink(s, p)) == multiset(s) + multiset{p}
  {
    if s != [] && Compare(p, s[|s| - 1]) < 0 {
      var init, last := s[..|s| - 1], s[|s| - 1];
      SinkPermutes(init, p);
      assert s == init + [last];
    }
  }

  lemma {:induction false} SinkSorts(s: seq<Period>, p: Period)
    requires ByStart(s)
    requires forall q :: q in s ==> Ordered(p, q)
    ensures ByStart(Sink(s, p))
  {
    if s == [] || Compare(p, s[|s| - 1]) >= 0 {
      assert s != [] ==> Ordered(p, s[|s| - 1]);
    } else {
      var init, last := s[..|s| - 1], s[|s| - 1];
      assert Ordered(p, last);
      SinkSorts(init, p);
      SinkPermutes(init, p);
      var r := Sink(init, p);
      forall i | 0 <= i < |r|
        ensures r[i].start <= last.start
      {
        assert r[i] in multiset(r);
        assert r[i] in init || r[i] == p;
      }
    }
  }

  lemma {:induction false} SortSorts(s: seq<Period>)
    requires forall a, b :: a in s && b in s ==> Ordered(a, b)
    ensures ByStart(Sort(s)) && multiset(Sort(s)) == multiset(s)
  {
    if s != [] {
      var init, last := s[..|s| - 1], s[|s| - 1];
      assert s == init + [last];
      SortSorts(init);
      forall q | q in Sort(init)
        ensures Ordered(last, q)
      {
        assert q in multiset(Sort(init));
        assert q in init;
      }
      SinkSorts(Sort(init), last);
      SinkPermutes(Sort(init), last);
      assert multiset(Sort(init) + [last]) == multiset(init + [last]);
    }
  }

  // ----------------------------------------------------------------- joining

  lemma {:induction false} JoinExact(out: seq<Period>, ps: seq<Period>)
    requires Canonical(out) && ByStart(ps)
    requires forall p :: p in ps ==> p.start < p.end
    requires out != [] && ps != [] ==> out[|out| - 1].start <= ps[0].start
    ensures Canonical(Join(out, ps))
    ensures forall t :: Covers(Join(out, ps), t) <==> Covers(out, t) || Covers(ps, t)
    decreases |ps|
  {
    if ps != [] {
      var p, rest := ps[0], ps[1..];
      assert ps == [p] + rest;
      assert p in ps;
      AbsorbExact(out, p);
      JoinExact(Absorb(out, p), rest);
      forall t
        ensures Covers(Join(out, ps), t) <==> Covers(out, t) || Covers(ps, t)
      {
        CoversConcat([p], rest, t);
      }
    }
  }

  lemma AbsorbExact(out: seq<Period>, p: Period)
    requires Canonical(out) && p.start < p.end
    requires out != [] ==> out[|out| - 1].start <= p.start
    ensures var out' := Absorb(out, p);
            Canonical(out') && out' != [] && out'[|out'| - 1].start <= p.start
    ensures forall t :: Covers(Absorb(out, p), t) <==> Covers(out, t) || Covers([p], t)
  {
    forall t
      ensures Covers(Absorb(out, p), t) <==> Covers(out, t) || Covers([p], t)
    {
      AbsorbCovers(out, p, t);
    }
  }

  lemma AbsorbCovers(out: seq<Period>, p: Period, t: int)
    requires p.start < p.end
    requires out != [] ==> out[|out| - 1].start <= p.start && out[|out| - 1].start < out[|out| - 1].end
    ensures Covers(Absorb(out, p), t) <==> Covers(out, t) || Covers([p], t)
  {
    var n := |out|;
    assert [p][0] == p;
    if n > 0 && p.start <= out[n - 1].end {
      var init, last := out[..n - 1], out[n - 1];
      var wide := Period(last.start, Max(last.end, p.end));
      assert out == init + [last] && Absorb(out, p) == init + [wide];
      assert [last][0] == last && [wide][0] == wide;
      CoversConcat(init, [last], t);
      CoversConcat(init, [wide], t);
    } else {
      CoversConcat(out, [p], t);
    }
  }

  // ------------------------------------------------------------ main results

  /** Within a range of at most 2^63 seconds no subtraction wraps. */
  lemma MergedExact(busy: seq<Period>, from: Int64, to: Int64)
    requires to - from <= TWO63
    ensures Exact(Merged(busy, from, to), busy, from, to)
  {
    ClipCovers(busy, from, to);
    SortedJoin(Clip(busy, from, to));
  }

  /** Sorting and joining keep what is covered, where the comparator does not wrap. */
  lemma SortedJoin(ps: seq<Period>)
    requires forall p :: p in ps ==> p.start < p.end
    requires forall p, q :: p in ps && q in ps ==> Ordered(p, q)
    ensures Canonical(Join([], Sort(ps))) && forall t :: Covers(Join([], Sort(ps)), t) <==> Covers(ps, t)
  {
    SortSorts(ps);
    var sorted := Sort(ps);
    forall p | p in sorted
      ensures p.start < p.end
    {
      assert p in multiset(sorted);
      assert p in ps;
    }
    JoinExact([], sorted);
    forall t
      ensures Covers(sorted, t) <==> Covers(ps, t)
    {
      SameMembersCover(sorted, ps, t);
      SameMembersCover(ps, sorted, t);
    }
  }

  lemma SameMembersCover(a: seq<Period>, b: seq<Period>, t: int)
    requires multiset(a) == multiset(b)
    ensures Covers(a, t) ==> Covers(b, t)
  {
    if Covers(a, t) {
      var i :| 0 <= i < |a| && a[i].start <= t < a[i].end;
      assert a[i] in multiset(b);
      assert a[i] in b;
    }
  }

  /** Past 2^63 a sorted input is misordered, and its first period is lost. */
  lemma WrapLosesPeriod(from: Int64, to: Int64)
    requires to - from > TWO63
    ensures
      var busy := [Period(from, from + 1), Period(from + TWO63, from + TWO63 + 1)];
      && Merged(busy, from, to) == [Period(from + TWO63, from + TWO63 + 1)]
      && !Exact(Merged(busy, from, to), busy, from, to)
  {
    var p, q := Period(from, from + 1), Period(from + TWO63, from + TWO63 + 1);
    var busy := [p, q];
    ClipTwo(p, q, from, to);
    assert Compare(q, p) == -TWO63;
    SortSwaps(p, q);
    JoinSwallows(p, q);
    assert busy[0].start <= from < busy[0].end;
    assert Covers(busy, from);
    assert !Covers([q], from);
  }

  lemma ClipTwo(p: Period, q: Period, from: Int64, to: Int64)
    requires from <= p.start < p.end <= to && from <= q.start < q.end <= to
    ensures Clip([p, q], from, to) == [p, q]
  {
    assert [p][..0] == [] && [p, q][..1] == [p];
    assert Clip([p], from, to) == [p];
  }

  lemma SortSwaps(p: Period, q: Period)
    requires Compare(q, p) < 0
    ensures Sort([p, q]) == [q, p]
  {
    assert [p][..0] == [] && [p, q][..1] == [p];
    assert Sort([p]) == [p];
    assert Sink([], q) == [q];
    assert Sink([p], q) == Sink([], q) + [p];
  }

  /** A period that comes after one it lies before is taken for part of it. */
  lemma JoinSwallows(p: Period, q: Period)
    requires p.start <= q.end && p.end <= q.end
    ensures Join([], [q, p]) == [q]
  {
    assert [q, p][1..] == [p] && [] + [q] == [q] && [p][1..] == [];
    assert Absorb([], q) == [q];
    assert Absorb([q], p) == [q];
    assert Join([q], [p]) == Join([q], []);
  }

  /** The merge is right for every input exactly when the range is not too wide. */
  lemma MergeExactIff(from: Int64, to: Int64)
    ensures (forall busy: seq<Period> :: Exact(Merged(busy, from, to), busy, from, to))
       <==> to - from <= TWO63
  {
    if to - from <= TWO63 {
      forall busy: seq<Period>
        ensures Exact(Merged(busy, from, to), busy, from, to)
      {
        MergedExact(busy, from, to);
      }
    } else {
      WrapLosesPeriod(from, to);
    }
  }

  /** A canonical list is determined by the instants it covers. */
  lemma {:induction false} CanonicalUnique(a: seq<Period>, b: seq<Period>)
    requires Canonical(a) && Canonical(b)
    requires forall t :: Covers(a, t) <==> Covers(b, t)
    ensures a == b
  {
    if a == [] || b == [] {
      assert a != [] ==> Covers(a, a[0].start);
      assert b != [] ==> Covers(b, b[0].start);
    } else {
      HeadsAgree(a, b);
      HeadsAgree(b, a);
      assert a == [a[0]] + a[1..] && b == [b[0]] + b[1..];
      forall t
        ensures Covers(a[1..], t) <==> Covers(b[1..], t)
      {
        TailCovers(a, t);
        TailCovers(b, t);
      }
      CanonicalUnique(a[1..], b[1..]);
    }
  }

  lemma HeadsAgree(a: seq<Period>, b: seq<Period>)
    requires Canonical(a) && Canonical(b) && a != [] && b != []
    requires forall t :: Covers(a, t) <==> Covers(b, t)
    ensures a[0].start >= b[0].start
    ensures a[0].start == b[0].start ==> a[0].end <= b[0].end
  {
    assert Covers(a, a[0].start);
    var i :| 0 <= i < |b| && b[i].start <= a[0].start < b[i].end;
    assert !Covers(b, b[0].end);
    assert a[0].start <= b[0].end < a[0].end ==> Covers(a, b[0].end);
  }

  lemma TailCovers(a: seq<Period>, t: int)
    requires Canonical(a) && a != []
    ensures Covers(a[1..], t) <==> Covers(a, t) && !(a[0].start <= t < a[0].end)
  {
    assert a == [a[0]] + a[1..];
    CoversConcat([a[0]], a[1..], t);
    assert [a[0]][0] == a[0];
    if Covers(a[1..], t) {
      var i :| 0 <= i < |a[1..]| && a[1..][i].start <= t < a[1..][i].end;
      assert a[1..][i] == a[i + 1];
    }
  }

  /** Equal clipped coverage gives equal answers, whatever the input order. */
  lemma MergeCanonical(busy: seq<Period>, busy': seq<Period>, from: Int64, to: Int64)
    requires to - from <= TWO63
    requires forall t :: from <= t < to ==> (Covers(busy, t) <==> Covers(busy', t))
    ensures Merged(busy, from, to) == Merged(busy', from, to)
  {
    MergedExact(busy, from, to);
    MergedExact(busy', from, to);
    CanonicalUnique(Merged(busy, from, to), Merged(busy', from, to));
  }

  /** maxFreeBusyRange: 366 days, in seconds.  A request for more is refused. */
  const MAX_FREE_BUSY_RANGE := 366 * 24 * 3600

  /** For every range the server passes the answer is exact, and depends on the busy instants alone. */
  lemma ServerRangesExact(busy: seq<Period>, busy': seq<Period>, from: Int64, to: Int64)
    requires to - from <= MAX_FREE_BUSY_RANGE
    ensures Exact(Merged(busy, from, to), busy, from, to)
    ensures (forall t :: from <= t < to ==> (Covers(busy, t) <==> Covers(busy', t))) ==>
              Merged(busy, from, to) == Merged(busy', from, to)
  {
    MergedExact(busy, from, to);
    if forall t :: from <= t < to ==> (Covers(busy, t) <==> Covers(busy', t)) {
      MergeCanonical(busy, busy', from, to);
    }
  }
}
