/**
  The authentication-failure limiter over histories that cross windows.  An entry
  whose window has run out counts for nothing, swept or not: who is blocked has
  failed often enough within the last window, and without successes the count is
  exactly that of the failures since the current window was opened.
*/
module AuthWindows {

  import opened AuthLimit
  import opened Commands
  import opened Wrappers

  /** Times do not go back, none is past now, and IPs are NUL-free. */
  ghost predicate InOrder(h: seq<Attempt>, now: int) {
    && (forall i, j :: 0 <= i <= j < |h| ==> h[i].at <= h[j].at)
    && (forall i :: 0 <= i < |h| ==> h[i].at <= now && NulFree(h[i].ip))
  }

  lemma InOrderInit(h: seq<Attempt>, now: int)
    requires InOrder(h, now) && h != []
    ensures InOrder(h[..|h| - 1], h[|h| - 1].at) && h[|h| - 1].at <= now && h == h[..|h| - 1] + [h[|h| - 1]]
  {
  }

  // -------------------------------------------------------------- one key at a time

  /** One failure as key k sees it: a window that has run out starts over, and other entries stay or are swept. */
  predicate Counted(prior: Option<State>, after: Option<State>, hit: bool, now: int, window: int) {
    if hit then
      after == Some(if prior.None? || prior.value.first < now - window then State(1, now)
                    else State(prior.value.count + 1, prior.value.first))
    else after == prior || (after.None? && prior.value.first < now - window)
  }

  lemma RecordedCounted(t: Table, key: string, now: int, window: int, k: string)
    requires key != ""
    ensures Counted(At(t.entries, k), At(Recorded(t, key, now, window).entries, k), k == key, now, window)
  {
  }

  lemma FailedIp(t: Table, ip: string, account: string, now: int, window: int, norm: Normalise, k: string)
    requires k != "" && NulFree(k)
    ensures Counted(At(t.entries, k), At(Failed(t, ip, account, now, window, norm).entries, k), k == ip, now, window)
  {
    var pk := PairKey(ip, account, norm);
    assert pk[4] == NUL;
    if ip != "" {
      RecordedCounted(t, pk, now, window, k);
      RecordedCounted(Recorded(t, pk, now, window), ip, now, window, k);
    }
  }

  lemma FailedPair(t: Table, ip: string, account: string, now: int, window: int, norm: Normalise, k: string)
    requires NulFree(ip) && !NulFree(k) && window >= 0
    ensures Counted(At(t.entries, k), At(Failed(t, ip, account, now, window, norm).entries, k),
                    ip != "" && k == PairKey(ip, account, norm), now, window)
  {
    var pk := PairKey(ip, account, norm);
    if ip != "" {
      RecordedCounted(t, pk, now, window, k);
      RecordedCounted(Recorded(t, pk, now, window), ip, now, window, k);
    }
  }

  lemma FailedNoKey(t: Table, ip: string, account: string, now: int, window: int, norm: Normalise)
    requires "" !in t.entries
    ensures "" !in Failed(t, ip, account, now, window, norm).entries
  {
  }

  // ----------------------------------------------- who is blocked has failed often

  ghost predicate FailedSince(h: seq<Attempt>, ip: string, from: int, i: int) {
    0 <= i < |h| && h[i].Fail? && h[i].ip == ip && h[i].at >= from
  }

  /** The failures of ip at or after a time. */
  ghost function FailuresSince(h: seq<Attempt>, ip: string, from: int): set<int> {
    set i | 0 <= i < |h| && FailedSince(h, ip, from, i)
  }

  lemma MoreFailures(h: seq<Attempt>, e: Attempt, ip: string, from: int)
    ensures FailuresSince(h + [e], ip, from) ==
            FailuresSince(h, ip, from) + if e.Fail? && e.ip == ip && e.at >= from then {|h|} else {}
    ensures |FailuresSince(h + [e], ip, from)| ==
            |FailuresSince(h, ip, from)| + if e.Fail? && e.ip == ip && e.at >= from then 1 else 0
  {
    var a, b := FailuresSince(h + [e], ip, from), FailuresSince(h, ip, from);
    forall i ensures i in a <==> i in b || (i == |h| && e.Fail? && e.ip == ip && e.at >= from) {
      assert 0 <= i < |h| ==> (h + [e])[i] == h[i];
    }
    assert a == b + if e.Fail? && e.ip == ip && e.at >= from then {|h|} else {};
  }

  /** An entry counts something, and an IP's no more than its failures since the entry was opened. */
  ghost predicate Backed(m: map<string, State>, h: seq<Attempt>) {
    && "" !in m
    && (forall k :: At(m, k).Some? ==> m[k].count >= 1)
    && (forall ip :: At(m, ip).Some? && NulFree(ip) ==>
          m[ip].count <= |FailuresSince(h, ip, m[ip].first)| && (h == [] || m[ip].first <= h[|h| - 1].at))
  }

  lemma BackedFail(t: Table, h: seq<Attempt>, e: Attempt, window: int, norm: Normalise)
    requires Backed(t.entries, h) && InOrder(h + [e], e.at) && e.Fail? && window >= 0
    ensures Backed(Step(t, e, window, norm).entries, h + [e])
  {
    var m, m' := t.entries, Step(t, e, window, norm).entries;
    assert (h + [e])[|h|] == e && (h != [] ==> (h + [e])[|h| - 1] == h[|h| - 1]);
    FailedNoKey(t, e.ip, e.account, e.at, window, norm);
    forall k | At(m', k).Some?
      ensures m'[k].count >= 1
      ensures NulFree(k) ==> m'[k].count <= |FailuresSince(h + [e], k, m'[k].first)| && m'[k].first <= e.at
    {
      assert At(m, k).Some? ==> m[k].count >= 1;
      if NulFree(k) {
        FailedIp(t, e.ip, e.account, e.at, window, norm, k);
        MoreFailures(h, e, k, m'[k].first);
      } else {
        FailedPair(t, e.ip, e.account, e.at, window, norm, k);
      }
    }
  }

  lemma BackedSucceed(t: Table, h: seq<Attempt>, e: Attempt, window: int, norm: Normalise)
    requires Backed(t.entries, h) && InOrder(h + [e], e.at) && e.Succeed?
    ensures Backed(Step(t, e, window, norm).entries, h + [e])
  {
    var m, m' := t.entries, Step(t, e, window, norm).entries;
    assert (h + [e])[|h|] == e && (h != [] ==> (h + [e])[|h| - 1] == h[|h| - 1]);
    var pk := PairKey(e.ip, e.account, norm);
    forall k | At(m', k).Some?
      ensures m'[k].count >= 1
      ensures NulFree(k) ==> m'[k].count <= |FailuresSince(h + [e], k, m'[k].first)| && m'[k].first <= e.at
    {
      assert At(m, k).Some? && m[k].count >= 1 && m'[k].first == m[k].first;
      assert At(m, pk).Some? ==> m[pk].count >= 1;
      assert m'[k].count <= m[k].count;
      MoreFailures(h, e, k, m[k].first);
    }
  }

  lemma {:induction false} AlwaysBacked(h: seq<Attempt>, now: int, window: int, norm: Normalise)
    requires InOrder(h, now) && window >= 0
    ensures Backed(Run(h, window, norm).entries, h)
  {
    if h != [] {
      var init, e := h[..|h| - 1], h[|h| - 1];
      InOrderInit(h, now);
      AlwaysBacked(init, e.at, window, norm);
      if e.Fail? {
        BackedFail(Run(init, window, norm), init, e, window, norm);
      } else {
        BackedSucceed(Run(init, window, norm), init, e, window, norm);
      }
    }
  }

  /** Whatever went before, an IP is blocked only if it has failed at least max times within the last window. */
  lemma BlockedHasFailed(h: seq<Attempt>, ip: string, now: int, window: int, max: int, norm: Normalise)
    requires InOrder(h, now) && window >= 0 && NulFree(ip)
    requires IsBlocked(Run(h, window, norm), ip, now, window, max)
    ensures |FailuresSince(h, ip, now - window)| >= max
  {
    AlwaysBacked(h, now, window, norm);
    var st := Run(h, window, norm).entries[ip];
    assert At(Run(h, window, norm).entries, ip).Some?;
    var a, b := FailuresSince(h, ip, st.first), FailuresSince(h, ip, now - window);
    assert a <= b;
    Fewer(a, b);
  }

  lemma Fewer(a: set<int>, b: set<int>)
    requires a <= b
    ensures |a| <= |b|
  {
    assert b == a + (b - a);
  }

  // -------------------------------------------------- what a success does not forgive

  /** Failure i is of this IP and this account, at or after a time. */
  ghost predicate PairFailed(h: seq<Attempt>, ip: string, account: string, from: int, norm: Normalise, i: int) {
    FailedSince(h, ip, from, i) && norm(h[i].account) == norm(account)
  }

  ghost predicate NoneSince(h: seq<Attempt>, ip: string, account: string, from: int, norm: Normalise) {
    forall i :: !PairFailed(h, ip, account, from, norm, i)
  }

  /** The entry of a pair was opened by a failure of that pair. */
  ghost predicate Opened(st: Option<State>, h: seq<Attempt>, ip: string, account: string, norm: Normalise) {
    st.Some? ==> exists i :: PairFailed(h, ip, account, st.value.first, norm, i) && h[i].at == st.value.first
  }

  lemma OpenedLonger(st: Option<State>, h: seq<Attempt>, e: Attempt, ip: string, account: string, norm: Normalise)
    requires Opened(st, h, ip, account, norm)
    ensures Opened(st, h + [e], ip, account, norm)
  {
    if st.Some? {
      var i :| PairFailed(h, ip, account, st.value.first, norm, i) && h[i].at == st.value.first;
      assert (h + [e])[i] == h[i] && PairFailed(h + [e], ip, account, st.value.first, norm, i);
    }
  }

  lemma OpenedFail(t: Table, h: seq<Attempt>, e: Attempt, window: int, ip: string, account: string, norm: Normalise)
    requires Opened(At(t.entries, PairKey(ip, account, norm)), h, ip, account, norm)
    requires e.Fail? && NulFree(e.ip) && NulFree(ip) && window >= 0
    ensures Opened(At(Step(t, e, window, norm).entries, PairKey(ip, account, norm)), h + [e], ip, account, norm)
  {
    var pk := PairKey(ip, account, norm);
    assert pk[4] == NUL;
    FailedPair(t, e.ip, e.account, e.at, window, norm, pk);
    OpenedLonger(At(t.entries, pk), h, e, ip, account, norm);
    if e.ip != "" && pk == PairKey(e.ip, e.account, norm) {
      PairKeysApart(ip, account, e.ip, e.account, norm);
      assert (h + [e])[|h|] == e && PairFailed(h + [e], ip, account, e.at, norm, |h|);
    }
  }

  lemma {:induction false} AlwaysOpened(h: seq<Attempt>, now: int, window: int, ip: string, account: string, norm: Normalise)
    requires InOrder(h, now) && window >= 0 && NulFree(ip)
    ensures Opened(At(Run(h, window, norm).entries, PairKey(ip, account, norm)), h, ip, account, norm)
  {
    if h != [] {
      var init, e, pk := h[..|h| - 1], h[|h| - 1], PairKey(ip, account, norm);
      InOrderInit(h, now);
      AlwaysOpened(init, e.at, window, ip, account, norm);
      if e.Fail? {
        OpenedFail(Run(init, window, norm), init, e, window, ip, account, norm);
      } else {
        assert pk[4] == NUL;
        assert pk != e.ip;
        OpenedLonger(At(Run(init, window, norm).entries, pk), init, e, ip, account, norm);
      }
    }
  }

  /** A success forgives no failure older than its window: who was blocked stays blocked. */
  lemma StaleForgivesNothing(h: seq<Attempt>, ip: string, account: string, now: int, window: int, norm: Normalise,
                             other: string, max: int)
    requires InOrder(h, now) && window >= 0 && NulFree(ip) && NulFree(other)
    requires NoneSince(h, ip, account, now - window, norm)
    ensures IsBlocked(Run(h + [Succeed(ip, account, now)], window, norm), other, now, window, max) <==>
            IsBlocked(Run(h, window, norm), other, now, window, max)
  {
    var h' := h + [Succeed(ip, account, now)];
    assert h'[..|h'| - 1] == h;
    var pk := PairKey(ip, account, norm);
    assert pk[4] == NUL;
    AlwaysOpened(h, now, window, ip, account, norm);
    if pk in Run(h, window, norm).entries {
      var st := Run(h, window, norm).entries[pk];
      var i :| PairFailed(h, ip, account, st.first, norm, i) && h[i].at == st.first;
      assert !PairFailed(h, ip, account, now - window, norm, i);
    }
  }

  // ------------------------------------------------------------ failures alone

  ghost predicate Fails(h: seq<Attempt>, ip: string, i: int) {
    0 <= i < |h| && h[i].Fail? && h[i].ip == ip
  }

  /** Failure o of ip is the first past the window that failure p opened. */
  ghost predicate RunsOut(h: seq<Attempt>, ip: string, window: int, p: int, o: int) {
    && 0 <= p < o < |h| && h[o].at > h[p].at + window
    && forall q :: p < q < o && Fails(h, ip, q) ==> h[q].at <= h[p].at + window
  }

  /** Failure o of ip opens a window: it is the first, or the first past the window opened before. */
  ghost predicate Opens(h: seq<Attempt>, ip: string, window: int, o: nat)
    decreases o
  {
    && Fails(h, ip, o)
    && (|| (forall q :: 0 <= q < o ==> !Fails(h, ip, q))
        || exists p: nat :: p < o && Opens(h, ip, window, p) && RunsOut(h, ip, window, p, o))
  }

  /** o opened the window that the last failure of ip is in. */
  ghost predicate Current(h: seq<Attempt>, ip: string, window: int, o: nat) {
    Opens(h, ip, window, o) && forall q :: o < q < |h| && Fails(h, ip, q) ==> h[q].at <= h[o].at + window
  }

  ghost function FailuresFrom(h: seq<Attempt>, ip: string, o: int): set<int> {
    set i | o <= i < |h| && Fails(h, ip, i)
  }

  lemma Longer(h: seq<Attempt>, e: Attempt, ip: string, q: int)
    requires 0 <= q < |h|
    ensures (h + [e])[q] == h[q] && (Fails(h + [e], ip, q) <==> Fails(h, ip, q))
  {
  }

  lemma RunsOutLonger(h: seq<Attempt>, e: Attempt, ip: string, window: int, p: int, o: int)
    requires o < |h|
    ensures RunsOut(h + [e], ip, window, p, o) <==> RunsOut(h, ip, window, p, o)
  {
    forall q | 0 <= q < |h| ensures (h + [e])[q] == h[q] && (Fails(h + [e], ip, q) <==> Fails(h, ip, q)) {
      Longer(h, e, ip, q);
    }
  }

  lemma {:induction false} OpensLonger(h: seq<Attempt>, e: Attempt, ip: string, window: int, o: nat)
    requires o < |h|
    ensures Opens(h + [e], ip, window, o) <==> Opens(h, ip, window, o)
    decreases o
  {
    forall q | 0 <= q <= o ensures Fails(h + [e], ip, q) <==> Fails(h, ip, q) {
      Longer(h, e, ip, q);
    }
    forall p: nat | p < o
      ensures Opens(h + [e], ip, window, p) <==> Opens(h, ip, window, p)
      ensures RunsOut(h + [e], ip, window, p, o) <==> RunsOut(h, ip, window, p, o)
    {
      OpensLonger(h, e, ip, window, p);
      RunsOutLonger(h, e, ip, window, p, o);
    }
  }

  /** A window that holds the new failure, or is another IP's, stays current. */
  lemma StaysCurrent(h: seq<Attempt>, e: Attempt, ip: string, window: int, o: nat)
    requires o < |h| && Current(h, ip, window, o)
    requires e.Fail? && e.ip == ip ==> e.at <= h[o].at + window
    ensures Current(h + [e], ip, window, o) && (h + [e])[o] == h[o]
  {
    OpensLonger(h, e, ip, window, o);
    forall q | 0 <= q < |h| ensures (h + [e])[q] == h[q] && (Fails(h + [e], ip, q) <==> Fails(h, ip, q)) {
      Longer(h, e, ip, q);
    }
  }

  lemma FromGrows(h: seq<Attempt>, e: Attempt, ip: string, o: nat)
    requires o <= |h|
    ensures |FailuresFrom(h + [e], ip, o)| == |FailuresFrom(h, ip, o)| + if e.Fail? && e.ip == ip then 1 else 0
  {
    var a, b := FailuresFrom(h + [e], ip, o), FailuresFrom(h, ip, o);
    forall i ensures i in a <==> i in b || (i == |h| && e.Fail? && e.ip == ip) {
      assert 0 <= i < |h| ==> (h + [e])[i] == h[i];
    }
    assert a == b + if e.Fail? && e.ip == ip then {|h|} else {};
  }

  /** The entry st is the window that failure o opened, or that one has run out and is swept. */
  ghost predicate Shows(st: Option<State>, h: seq<Attempt>, ip: string, now: int, window: int, o: nat) {
    && o < |h| && Current(h, ip, window, o)
    && if st.Some? then st.value == State(|FailuresFrom(h, ip, o)|, h[o].at) else h[o].at < now - window
  }

  /** The entry of ip is its current window, if it has one. */
  ghost predicate Exact(st: Option<State>, h: seq<Attempt>, ip: string, now: int, window: int) {
    (st.None? && forall q :: !Fails(h, ip, q)) || exists o: nat :: Shows(st, h, ip, now, window, o)
  }

  lemma NoneLonger(h: seq<Attempt>, e: Attempt, ip: string)
    requires (forall q :: !Fails(h, ip, q)) && !(e.Fail? && e.ip == ip)
    ensures forall q :: !Fails(h + [e], ip, q)
  {
    forall q ensures !Fails(h + [e], ip, q) {
      if 0 <= q < |h| {
        Longer(h, e, ip, q);
      }
    }
  }

  lemma ExactOther(prior: Option<State>, st: Option<State>, h: seq<Attempt>, e: Attempt, ip: string, window: int)
    requires Exact(prior, h, ip, e.at, window) && e.Fail? && e.ip != ip
    requires Counted(prior, st, false, e.at, window)
    ensures Exact(st, h + [e], ip, e.at, window)
  {
    if o: nat :| Shows(prior, h, ip, e.at, window, o) {
      StaysCurrent(h, e, ip, window, o);
      FromGrows(h, e, ip, o);
      assert Shows(st, h + [e], ip, e.at, window, o);
    } else {
      NoneLonger(h, e, ip);
    }
  }

  lemma ExactHit(prior: Option<State>, st: Option<State>, h: seq<Attempt>, e: Attempt, window: int)
    requires Exact(prior, h, e.ip, e.at, window) && e.Fail? && window >= 0
    requires Counted(prior, st, true, e.at, window)
    ensures Exact(st, h + [e], e.ip, e.at, window)
  {
    if o: nat :| Shows(prior, h, e.ip, e.at, window, o) {
      if e.at > h[o].at + window {
        OpensNext(h, e, window, o);
        assert Shows(st, h + [e], e.ip, e.at, window, |h|);
      } else {
        StaysCurrent(h, e, e.ip, window, o);
        FromGrows(h, e, e.ip, o);
        assert Shows(st, h + [e], e.ip, e.at, window, o);
      }
    } else {
      OpensFirst(h, e, window);
      assert Shows(st, h + [e], e.ip, e.at, window, |h|);
    }
  }

  lemma OpensFirst(h: seq<Attempt>, e: Attempt, window: int)
    requires e.Fail? && forall q :: !Fails(h, e.ip, q)
    ensures Current(h + [e], e.ip, window, |h|) && |FailuresFrom(h + [e], e.ip, |h|)| == 1
  {
    forall q | 0 <= q < |h| ensures !Fails(h + [e], e.ip, q) {
      Longer(h, e, e.ip, q);
    }
    assert FailuresFrom(h + [e], e.ip, |h|) == {|h|};
  }

  lemma OpensNext(h: seq<Attempt>, e: Attempt, window: int, o: nat)
    requires e.Fail? && o < |h| && Current(h, e.ip, window, o) && e.at > h[o].at + window
    ensures Current(h + [e], e.ip, window, |h|) && |FailuresFrom(h + [e], e.ip, |h|)| == 1
  {
    OpensLonger(h, e, e.ip, window, o);
    assert RunsOut(h + [e], e.ip, window, o, |h|) by {
      forall q | 0 <= q < |h| ensures (h + [e])[q] == h[q] && (Fails(h + [e], e.ip, q) <==> Fails(h, e.ip, q)) {
        Longer(h, e, e.ip, q);
      }
    }
    assert FailuresFrom(h + [e], e.ip, |h|) == {|h|};
  }

  lemma {:induction false} AlwaysExact(h: seq<Attempt>, ip: string, now: int, window: int, norm: Normalise)
    requires InOrder(h, now) && window >= 0 && ip != "" && NulFree(ip) && forall e :: e in h ==> e.Fail?
    ensures Exact(At(Run(h, window, norm).entries, ip), h, ip, now, window)
  {
    if h != [] {
      var init, e := h[..|h| - 1], h[|h| - 1];
      InOrderInit(h, now);
      AlwaysExact(init, ip, e.at, window, norm);
      var t := Run(init, window, norm);
      FailedIp(t, e.ip, e.account, e.at, window, norm, ip);
      var prior, st := At(t.entries, ip), At(Run(h, window, norm).entries, ip);
      if e.ip == ip {
        ExactHit(prior, st, init, e, window);
      } else {
        ExactOther(prior, st, init, e, ip, window);
      }
      if o: nat :| Shows(st, h, ip, e.at, window, o) {
        assert Shows(st, h, ip, now, window, o);
      }
    }
  }

  /** Failure o of ip opened a window that is open now and holds at least max failures of ip. */
  ghost predicate Full(h: seq<Attempt>, ip: string, now: int, window: int, max: int, o: nat) {
    o < |h| && Current(h, ip, window, o) && now <= h[o].at + window && |FailuresFrom(h, ip, o)| >= max
  }

  /** Without successes: blocked exactly when the current window is open and holds max failures. */
  lemma BlockedIffFull(h: seq<Attempt>, ip: string, now: int, window: int, max: int, norm: Normalise)
    requires InOrder(h, now) && window >= 0 && ip != "" && NulFree(ip) && forall e :: e in h ==> e.Fail?
    ensures IsBlocked(Run(h, window, norm), ip, now, window, max) <==> exists o: nat :: Full(h, ip, now, window, max, o)
  {
    AlwaysExact(h, ip, now, window, norm);
    var st := At(Run(h, window, norm).entries, ip);
    if o: nat :| Shows(st, h, ip, now, window, o) {
      assert IsBlocked(Run(h, window, norm), ip, now, window, max) <==> Full(h, ip, now, window, max, o);
      forall o': nat | Full(h, ip, now, window, max, o') ensures o' == o {
        OneCurrent(h, ip, window, o, o');
        OneCurrent(h, ip, window, o', o);
      }
    }
  }

  lemma OneCurrent(h: seq<Attempt>, ip: string, window: int, o: nat, o': nat)
    requires Current(h, ip, window, o) && Current(h, ip, window, o') && o < |h| && o' < |h|
    ensures o <= o'
  {
    if o' < o {
      OpensApart(h, ip, window, o', o);
    }
  }

  /** A window is opened only after the ones opened before have run out. */
  lemma {:induction false} OpensApart(h: seq<Attempt>, ip: string, window: int, o: nat, later: nat)
    requires Opens(h, ip, window, o) && Opens(h, ip, window, later) && o < later
    ensures exists q :: o < q <= later && Fails(h, ip, q) && h[q].at > h[o].at + window
    decreases later
  {
    assert Fails(h, ip, o);
    var p: nat :| p < later && Opens(h, ip, window, p) && RunsOut(h, ip, window, p, later);
    if o < p {
      OpensApart(h, ip, window, o, p);
    } else if p < o {
      OpensApart(h, ip, window, p, o);
    } else {
      assert Fails(h, ip, later);
    }
  }
}
