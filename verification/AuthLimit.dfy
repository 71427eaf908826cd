/**
  The authentication-failure limiter.  Each failure is counted twice, under the
  source IP and under the (IP, account) pair; a success takes exactly the
  pair's failures back out of the IP's counter.

  The reference is a history: a failure is unforgiven while no later success
  names the same IP and the same normalised account.  InWindow proves that,
  inside one window, the two kinds of counter are the sizes of the sets of
  unforgiven failures, so BlockedIff holds for every sequence of attempts.
*/
module AuthLimit {

  const SWEEP_EVERY := 1024

  const NUL := '\0'

  /** strings.ToLower(strings.TrimSpace(account)) */
  type Normalise = string -> string

  datatype State = State(count: int, first: int)

  datatype Table = Table(entries: map<string, State>, sweep: nat)

  datatype Attempt =
    | Fail(ip: string, account: string, at: int)
    | Succeed(ip: string, account: string, at: int)

  predicate NulFree(s: string) { NUL !in s }

  function PairPrefix(ip: string): string { "acct" + [NUL] + ip + [NUL] }

  function PairKey(ip: string, account: string, norm: Normalise): string {
    PairPrefix(ip) + norm(account)
  }

  // ------------------------------------------------- the operations on a table

  predicate Expired(st: State, now: int, window: int) { now - st.first > window }

  function Live(m: map<string, State>, now: int, window: int): map<string, State> {
    map k | k in m && !Expired(m[k], now, window) :: m[k]
  }

  function Recorded(t: Table, key: string, now: int, window: int): Table {
    if key == "" then t
    else
      var m, n := if t.sweep + 1 >= SWEEP_EVERY then Live(t.entries, now, window) else t.entries,
                  if t.sweep + 1 >= SWEEP_EVERY then 0 else t.sweep + 1;
      if key !in m || Expired(m[key], now, window) then Table(m[key := State(1, now)], n)
      else Table(m[key := m[key].(count := m[key].count + 1)], n)
  }

  function Failed(t: Table, ip: string, account: string, now: int, window: int, norm: Normalise): Table {
    if ip == "" then t
    else Recorded(Recorded(t, PairKey(ip, account, norm), now, window), ip, now, window)
  }

  function Succeeded(t: Table, ip: string, account: string, now: int, window: int, norm: Normalise): Table {
    var pk := PairKey(ip, account, norm);
    if ip == "" || pk !in t.entries then t
    else
      var pair, m := t.entries[pk], t.entries - {pk};
      if Expired(pair, now, window) || ip !in m then t.(entries := m)
      else
        var left := m[ip].count - pair.count;
        t.(entries := if left <= 0 then m - {ip} else m[ip := m[ip].(count := left)])
  }

  function Step(t: Table, e: Attempt, window: int, norm: Normalise): Table {
    match e
    case Fail(ip, account, at) => Failed(t, ip, account, at, window, norm)
    case Succeed(ip, account, at) => Succeeded(t, ip, account, at, window, norm)
  }

  function Run(h: seq<Attempt>, window: int, norm: Normalise): Table {
    if h == [] then Table(map[], 0) else Step(Run(h[..|h| - 1], window, norm), h[|h| - 1], window, norm)
  }

  predicate IsBlocked(t: Table, key: string, now: int, window: int, max: int) {
    key != "" && key in t.entries && !Expired(t.entries[key], now, window) && t.entries[key].count >= max
  }

  class Limiter {
    const max: int
    const window: int
    const norm: Normalise
    var entries: map<string, State>
    var sweep: nat

    constructor (maxFailures: int, window: int, norm: Normalise)
      ensures Now() == Table(map[], 0)
      ensures this.max == maxFailures && this.window == window && this.norm == norm
    {
      this.max, this.window, this.norm := maxFailures, window, norm;
      entries, sweep := map[], 0;
    }

    ghost function Now(): Table
      reads this
    {
      Table(entries, sweep)
    }

    method Blocked(key: string, now: int) returns (b: bool)
      modifies this
      ensures b <==> old(IsBlocked(Now(), key, now, window, max))
      ensures sweep == old(sweep)
      ensures Live(entries, now, window) == old(Live(entries, now, window))
    {
      if key == "" || key !in entries {
        return false;
      }
      if Expired(entries[key], now, window) {
        entries := entries - {key};
        return false;
      }
      return entries[key].count >= max;
    }

    method Record(key: string, now: int) returns (b: bool)
      modifies this
      ensures Now() == old(Recorded(Now(), key, now, window))
      ensures b <==> key != "" && key in entries && entries[key].count >= max
    {
      if key == "" {
        return false;
      }
      sweep := sweep + 1;
      if sweep >= SWEEP_EVERY {
        sweep := 0;
        var todo := entries.Keys;
        ghost var before := entries;
        while todo != {}
          invariant todo <= before.Keys
          invariant entries == map k | k in before && (k in todo || !Expired(before[k], now, window)) :: before[k]
          invariant sweep == 0
          decreases |todo|
        {
          var k :| k in todo;
          if Expired(entries[k], now, window) {
            entries := entries - {k};
          }
          todo := todo - {k};
        }
      }
      if key !in entries || Expired(entries[key], now, window) {
        entries := entries[key := State(1, now)];
        return 1 >= max;
      }
      entries := entries[key := entries[key].(count := entries[key].count + 1)];
      return entries[key].count >= max;
    }

    method Fail(ip: string, account: string, now: int) returns (b: bool)
      modifies this
      ensures Now() == old(Failed(Now(), ip, account, now, window, norm))
      ensures b <==> ip != "" && ip in entries && entries[ip].count >= max
      ensures window >= 0 ==> (b <==> IsBlocked(Now(), ip, now, window, max))
    {
      if ip == "" {
        return false;
      }
      var _ := Record(PairKey(ip, account, norm), now);
      b := Record(ip, now);
    }

    method Succeed(ip: string, account: string, now: int)
      modifies this
      ensures Now() == old(Succeeded(Now(), ip, account, now, window, norm))
    {
      var pk := PairKey(ip, account, norm);
      if ip == "" || pk !in entries {
        return;
      }
      var pair := entries[pk];
      entries := entries - {pk};
      if Expired(pair, now, window) || ip !in entries {
        return;
      }
      var st := entries[ip].(count := entries[ip].count - pair.count);
      entries := entries[ip := st];
      if st.count <= 0 {
        entries := entries - {ip};
      }
    }
  }

  // ------------------------------------------------------------- key collisions

  lemma PairKeysApart(ip: string, a: string, ip': string, a': string, norm: Normalise)
    requires NulFree(ip) && NulFree(ip')
    ensures PairKey(ip, a, norm) == PairKey(ip', a', norm) <==> ip == ip' && norm(a) == norm(a')
    ensures forall s :: NulFree(s) ==> s != PairKey(ip, a, norm)
  {
    var k, k' := PairKey(ip, a, norm), PairKey(ip', a', norm);
    assert k[4] == NUL;
    assert k[5..5 + |ip|] == ip && k[5 + |ip|] == NUL && k[6 + |ip|..] == norm(a);
    assert k'[5..5 + |ip'|] == ip' && k'[5 + |ip'|] == NUL && k'[6 + |ip'|..] == norm(a');
    if k == k' {
      FirstNul(k, 5, |ip|, |ip'|);
    }
  }

  lemma FirstNul(k: string, from: nat, n: nat, m: nat)
    requires from + n < |k| && from + m < |k|
    requires k[from + n] == NUL && NulFree(k[from..from + n])
    requires k[from + m] == NUL && NulFree(k[from..from + m])
    ensures n == m
  {
  }

  lemma PrefixTellsIp(ip: string, ip': string, a: string, norm: Normalise)
    requires NulFree(ip) && NulFree(ip') && PairPrefix(ip) <= PairKey(ip', a, norm)
    ensures ip == ip'
  {
    var k, p := PairKey(ip', a, norm), PairPrefix(ip);
    assert p[5..5 + |ip|] == ip && p[5 + |ip|] == NUL;
    assert k[..|p|] == p;
    assert k[5..5 + |ip|] == p[5..5 + |ip|];
    assert k[5..5 + |ip'|] == ip' && k[5 + |ip'|] == NUL;
    FirstNul(k, 5, |ip|, |ip'|);
  }

  // ------------------------------------------------------ unforgiven failures

  predicate Forgives(e: Attempt, ip: string, account: string, norm: Normalise) {
    e.Succeed? && e.ip == ip && norm(e.account) == norm(account)
  }

  ghost predicate Unforgiven(h: seq<Attempt>, i: int, norm: Normalise) {
    && 0 <= i < |h| && h[i].Fail?
    && forall j :: i < j < |h| ==> !Forgives(h[j], h[i].ip, h[i].account, norm)
  }

  ghost function ByIp(h: seq<Attempt>, ip: string, norm: Normalise): set<int> {
    set i | 0 <= i < |h| && Unforgiven(h, i, norm) && h[i].ip == ip
  }

  ghost function ByPair(h: seq<Attempt>, ip: string, account: string, norm: Normalise): set<int> {
    set i | i in ByIp(h, ip, norm) && norm(h[i].account) == norm(account)
  }

  /** Attempts inside one window, from sources a connection can have. */
  ghost predicate OneWindow(h: seq<Attempt>, lo: int, window: int) {
    forall e :: e in h ==> lo <= e.at <= lo + window && e.ip != "" && NulFree(e.ip)
  }

  /** A key is present exactly while it has failures to its name, and counts them. */
  ghost predicate Counts(m: map<string, State>, key: string, failures: set<int>, lo: int) {
    && (key in m <==> failures != {})
    && (key in m ==> m[key].count == |failures| && lo <= m[key].first)
  }

  ghost predicate Tally(m: map<string, State>, h: seq<Attempt>, lo: int, norm: Normalise) {
    && (forall ip :: ip != "" && NulFree(ip) ==> Counts(m, ip, ByIp(h, ip, norm), lo))
    && (forall ip, a :: ip != "" && NulFree(ip) ==>
          Counts(m, PairKey(ip, a, norm), ByPair(h, ip, a, norm), lo))
    && (forall k :: k in m ==> lo <= m[k].first && (NulFree(k) || IsPairOf(k, h, norm)))
  }

  ghost predicate IsPairOf(k: string, h: seq<Attempt>, norm: Normalise) {
    exists i :: 0 <= i < |h| && NulFree(h[i].ip) && h[i].ip != "" && k == PairKey(h[i].ip, h[i].account, norm)
  }

  lemma IsPairGrows(k: string, h: seq<Attempt>, e: Attempt, norm: Normalise)
    ensures IsPairOf(k, h, norm) ==> IsPairOf(k, h + [e], norm)
    ensures NulFree(e.ip) && e.ip != "" ==> IsPairOf(PairKey(e.ip, e.account, norm), h + [e], norm)
  {
    assert (h + [e])[|h|] == e;
    if IsPairOf(k, h, norm) {
      var i :| 0 <= i < |h| && NulFree(h[i].ip) && h[i].ip != "" && k == PairKey(h[i].ip, h[i].account, norm);
      assert (h + [e])[i] == h[i];
    }
  }

  lemma AfterFail(h: seq<Attempt>, e: Attempt, ip: string, a: string, norm: Normalise)
    requires e.Fail?
    ensures ByIp(h + [e], ip, norm) == ByIp(h, ip, norm) + if ip == e.ip then {|h|} else {}
    ensures ByPair(h + [e], ip, a, norm) ==
            ByPair(h, ip, a, norm) + if ip == e.ip && norm(a) == norm(e.account) then {|h|} else {}
  {
    UnforgivenStep(h, e, norm);
  }

  lemma AfterSucceed(h: seq<Attempt>, e: Attempt, ip: string, a: string, norm: Normalise)
    requires e.Succeed?
    ensures ByIp(h + [e], ip, norm) ==
            ByIp(h, ip, norm) - if ip == e.ip then ByPair(h, ip, e.account, norm) else {}
    ensures ByPair(h + [e], ip, a, norm) ==
            if ip == e.ip && norm(a) == norm(e.account) then {} else ByPair(h, ip, a, norm)
  {
    UnforgivenStep(h, e, norm);
  }

  lemma UnforgivenStep(h: seq<Attempt>, e: Attempt, norm: Normalise)
    ensures forall i :: 0 <= i < |h| ==>
              (Unforgiven(h + [e], i, norm) <==>
               Unforgiven(h, i, norm) && !Forgives(e, h[i].ip, h[i].account, norm))
    ensures Unforgiven(h + [e], |h|, norm) <==> e.Fail?
  {
    var h' := h + [e];
    forall i | 0 <= i < |h|
      ensures Unforgiven(h', i, norm) <==>
              Unforgiven(h, i, norm) && !Forgives(e, h[i].ip, h[i].account, norm)
    {
      assert h'[|h|] == e;
      assert forall j :: 0 <= j < |h| ==> h'[j] == h[j];
    }
  }

  function Bump(m: map<string, State>, key: string, now: int): map<string, State> {
    if key !in m then m[key := State(1, now)] else m[key := m[key].(count := m[key].count + 1)]
  }

  lemma BumpCounts(m: map<string, State>, key: string, now: int, k: string, failures: set<int>, more: set<int>,
                   n: int, lo: int)
    requires Counts(m, k, failures, lo) && lo <= now && n !in failures
    requires more == failures + if k == key then {n} else {}
    ensures Counts(Bump(m, key, now), k, more, lo)
  {
  }

  ghost function AfterFailing(m: map<string, State>, e: Attempt, norm: Normalise): map<string, State> {
    Bump(Bump(m, PairKey(e.ip, e.account, norm), e.at), e.ip, e.at)
  }

  lemma FailIp(m: map<string, State>, h: seq<Attempt>, e: Attempt, lo: int, norm: Normalise, ip: string)
    requires e.Fail? && NulFree(e.ip) && NulFree(ip) && lo <= e.at
    requires Counts(m, ip, ByIp(h, ip, norm), lo)
    ensures Counts(AfterFailing(m, e, norm), ip, ByIp(h + [e], ip, norm), lo)
  {
    var pk := PairKey(e.ip, e.account, norm);
    AfterFail(h, e, ip, e.account, norm);
    PairKeysApart(e.ip, e.account, ip, e.account, norm);
    BumpCounts(m, pk, e.at, ip, ByIp(h, ip, norm), ByIp(h, ip, norm), |h|, lo);
    BumpCounts(Bump(m, pk, e.at), e.ip, e.at, ip, ByIp(h, ip, norm), ByIp(h + [e], ip, norm), |h|, lo);
  }

  lemma FailPair(m: map<string, State>, h: seq<Attempt>, e: Attempt, lo: int, norm: Normalise, ip: string, a: string)
    requires e.Fail? && NulFree(e.ip) && NulFree(ip) && lo <= e.at
    requires Counts(m, PairKey(ip, a, norm), ByPair(h, ip, a, norm), lo)
    ensures Counts(AfterFailing(m, e, norm), PairKey(ip, a, norm), ByPair(h + [e], ip, a, norm), lo)
  {
    var pk, k := PairKey(e.ip, e.account, norm), PairKey(ip, a, norm);
    AfterFail(h, e, ip, a, norm);
    PairKeysApart(ip, a, e.ip, e.account, norm);
    var now := ByPair(h + [e], ip, a, norm);
    BumpCounts(m, pk, e.at, k, ByPair(h, ip, a, norm), now, |h|, lo);
    BumpCounts(Bump(m, pk, e.at), e.ip, e.at, k, now, now, |h| + 1, lo);
  }

  lemma TallyFail(m: map<string, State>, h: seq<Attempt>, e: Attempt, lo: int, norm: Normalise)
    requires e.Fail? && e.ip != "" && NulFree(e.ip) && lo <= e.at
    requires Tally(m, h, lo, norm)
    ensures Tally(AfterFailing(m, e, norm), h + [e], lo, norm)
  {
    var m' := AfterFailing(m, e, norm);
    forall ip | ip != "" && NulFree(ip)
      ensures Counts(m', ip, ByIp(h + [e], ip, norm), lo)
    {
      FailIp(m, h, e, lo, norm, ip);
    }
    forall ip, a | ip != "" && NulFree(ip)
      ensures Counts(m', PairKey(ip, a, norm), ByPair(h + [e], ip, a, norm), lo)
    {
      FailPair(m, h, e, lo, norm, ip, a);
    }
    forall k | k in m'
      ensures lo <= m'[k].first && (NulFree(k) || IsPairOf(k, h + [e], norm))
    {
      IsPairGrows(k, h, e, norm);
    }
  }

  /** What a success does to the entries while nothing has expired. */
  function Forgive(m: map<string, State>, pk: string, ip: string): map<string, State> {
    if pk !in m then m
    else if ip !in m then m - {pk}
    else
      var left := m[ip].count - m[pk].count;
      if left <= 0 then m - {pk, ip} else m[ip := m[ip].(count := left)] - {pk}
  }

  lemma SucceededInWindow(t: Table, ip: string, account: string, now: int, lo: int, window: int, norm: Normalise)
    requires ip != "" && NulFree(ip) && now <= lo + window
    requires forall k :: k in t.entries ==> lo <= t.entries[k].first
    ensures Succeeded(t, ip, account, now, window, norm).entries == Forgive(t.entries, PairKey(ip, account, norm), ip)
  {
    PairKeysApart(ip, account, ip, account, norm);
  }

  lemma ForgiveCounts(m: map<string, State>, pk: string, ip: string, mine: set<int>, all: set<int>, lo: int)
    requires Counts(m, pk, mine, lo) && Counts(m, ip, all, lo) && mine <= all && pk != ip
    ensures Counts(Forgive(m, pk, ip), ip, all - mine, lo)
    ensures Counts(Forgive(m, pk, ip), pk, {}, lo)
  {
    assert all == mine + (all - mine);
    assert |all| == |mine| + |all - mine|;
    assert mine == {} ==> all - mine == all;
  }

  lemma ForgiveFrame(m: map<string, State>, pk: string, ip: string, k: string, failures: set<int>, lo: int)
    requires Counts(m, k, failures, lo) && k != pk && k != ip
    ensures Counts(Forgive(m, pk, ip), k, failures, lo)
  {
  }

  lemma TallySucceed(m: map<string, State>, h: seq<Attempt>, e: Attempt, lo: int, norm: Normalise)
    requires e.Succeed? && e.ip != "" && NulFree(e.ip)
    requires Tally(m, h, lo, norm)
    ensures Tally(Forgive(m, PairKey(e.ip, e.account, norm), e.ip), h + [e], lo, norm)
  {
    var pk := PairKey(e.ip, e.account, norm);
    var m' := Forgive(m, pk, e.ip);
    var mine, all := ByPair(h, e.ip, e.account, norm), ByIp(h, e.ip, norm);
    assert Counts(m, pk, mine, lo) && Counts(m, e.ip, all, lo);
    PairKeysApart(e.ip, e.account, e.ip, e.account, norm);
    ForgiveCounts(m, pk, e.ip, mine, all, lo);
    forall ip | ip != "" && NulFree(ip)
      ensures Counts(m', ip, ByIp(h + [e], ip, norm), lo)
    {
      AfterSucceed(h, e, ip, e.account, norm);
      if ip != e.ip {
        ForgiveFrame(m, pk, e.ip, ip, ByIp(h, ip, norm), lo);
        assert ByIp(h + [e], ip, norm) == ByIp(h, ip, norm);
      }
    }
    forall ip, a | ip != "" && NulFree(ip)
      ensures Counts(m', PairKey(ip, a, norm), ByPair(h + [e], ip, a, norm), lo)
    {
      AfterSucceed(h, e, ip, a, norm);
      PairKeysApart(ip, a, e.ip, e.account, norm);
      if PairKey(ip, a, norm) != pk {
        assert Counts(m, PairKey(ip, a, norm), ByPair(h, ip, a, norm), lo);
        ForgiveFrame(m, pk, e.ip, PairKey(ip, a, norm), ByPair(h, ip, a, norm), lo);
      }
    }
    forall k | k in m'
      ensures lo <= m'[k].first && (NulFree(k) || IsPairOf(k, h + [e], norm))
    {
      IsPairGrows(k, h, e, norm);
    }
  }

  lemma RecordedInWindow(t: Table, key: string, now: int, lo: int, window: int)
    requires key != "" && now <= lo + window
    requires forall k :: k in t.entries ==> lo <= t.entries[k].first
    ensures Recorded(t, key, now, window).entries == Bump(t.entries, key, now)
  {
    assert Live(t.entries, now, window) == t.entries;
  }

  /** Inside one window the counters are the numbers of unforgiven failures. */
  lemma {:induction false} InWindow(h: seq<Attempt>, lo: int, window: int, norm: Normalise)
    requires OneWindow(h, lo, window)
    ensures Tally(Run(h, window, norm).entries, h, lo, norm)
  {
    if h == [] {
      forall ip
        ensures ByIp([], ip, norm) == {}
      {
      }
    } else {
      var init, e := h[..|h| - 1], h[|h| - 1];
      assert h == init + [e] && e in h;
      InWindow(init, lo, window, norm);
      var t := Run(init, window, norm);
      if e.Fail? {
        var pk := PairKey(e.ip, e.account, norm);
        RecordedInWindow(t, pk, e.at, lo, window);
        var t1 := Recorded(t, pk, e.at, window);
        RecordedInWindow(t1, e.ip, e.at, lo, window);
        TallyFail(t.entries, init, e, lo, norm);
      } else {
        SucceededInWindow(t, e.ip, e.account, e.at, lo, window, norm);
        TallySucceed(t.entries, init, e, lo, norm);
      }
    }
  }

  /** A source is blocked exactly when its unforgiven failures reach the limit. */
  lemma BlockedIff(h: seq<Attempt>, lo: int, window: int, norm: Normalise, ip: string, now: int, max: int)
    requires OneWindow(h, lo, window) && lo <= now <= lo + window
    requires ip != "" && NulFree(ip)
    ensures IsBlocked(Run(h, window, norm), ip, now, window, max) <==>
            ByIp(h, ip, norm) != {} && |ByIp(h, ip, norm)| >= max
  {
    InWindow(h, lo, window, norm);
    assert Counts(Run(h, window, norm).entries, ip, ByIp(h, ip, norm), lo);
  }

  // -------------------------------------------------- the IP counter is a sum

  ghost function Total(m: map<string, State>, ks: set<string>): int
    requires ks <= m.Keys
  {
    if ks == {} then 0 else var k :| k in ks; m[k].count + Total(m, ks - {k})
  }

  /** The live pair keys of one source. */
  function PairsOf(m: map<string, State>, ip: string): set<string> {
    set k | k in m && PairPrefix(ip) <= k
  }

  ghost function Under(h: seq<Attempt>, ip: string, norm: Normalise, ks: set<string>): set<int> {
    set i | i in ByIp(h, ip, norm) && PairKey(ip, h[i].account, norm) in ks
  }

  lemma {:induction false} TotalCounts(m: map<string, State>, h: seq<Attempt>, lo: int, ip: string, norm: Normalise,
                                    ks: set<string>)
    requires Tally(m, h, lo, norm) && ip != "" && NulFree(ip)
    requires ks <= PairsOf(m, ip)
    ensures Total(m, ks) == |Under(h, ip, norm, ks)|
    decreases |ks|
  {
    if ks == {} {
      assert Under(h, ip, norm, ks) == {};
    } else {
      var k :| k in ks && Total(m, ks) == m[k].count + Total(m, ks - {k});
      TotalCounts(m, h, lo, ip, norm, ks - {k});
      var a := PairAccount(m, h, lo, ip, norm, k);
      UnderSplit(h, ip, norm, ks, a);
      assert Counts(m, k, ByPair(h, ip, a, norm), lo);
    }
  }

  lemma PairAccount(m: map<string, State>, h: seq<Attempt>, lo: int, ip: string, norm: Normalise, k: string)
    returns (a: string)
    requires Tally(m, h, lo, norm) && NulFree(ip) && k in PairsOf(m, ip)
    ensures k == PairKey(ip, a, norm)
  {
    assert k[4] == NUL by { assert PairPrefix(ip)[4] == NUL; }
    var j :| 0 <= j < |h| && NulFree(h[j].ip) && k == PairKey(h[j].ip, h[j].account, norm);
    PrefixTellsIp(ip, h[j].ip, h[j].account, norm);
    a := h[j].account;
  }

  lemma UnderSplit(h: seq<Attempt>, ip: string, norm: Normalise, ks: set<string>, a: string)
    requires NulFree(ip) && PairKey(ip, a, norm) in ks
    ensures |Under(h, ip, norm, ks)| ==
            |ByPair(h, ip, a, norm)| + |Under(h, ip, norm, ks - {PairKey(ip, a, norm)})|
  {
    var k := PairKey(ip, a, norm);
    var mine, rest := ByPair(h, ip, a, norm), Under(h, ip, norm, ks - {k});
    forall i | i in ByIp(h, ip, norm)
      ensures i in mine <==> PairKey(ip, h[i].account, norm) == k
    {
      PairKeysApart(ip, h[i].account, ip, a, norm);
    }
    assert Under(h, ip, norm, ks) == mine + rest && mine !! rest;
  }

  /** The IP's counter is the sum of the counters of its live pairs. */
  lemma IpCounterIsSum(h: seq<Attempt>, lo: int, window: int, norm: Normalise, ip: string)
    requires OneWindow(h, lo, window) && ip != "" && NulFree(ip)
    ensures var m := Run(h, window, norm).entries;
            Total(m, PairsOf(m, ip)) == if ip in m then m[ip].count else 0
  {
    InWindow(h, lo, window, norm);
    var m := Run(h, window, norm).entries;
    var ks := PairsOf(m, ip);
    TotalCounts(m, h, lo, ip, norm, ks);
    forall i | i in ByIp(h, ip, norm)
      ensures PairKey(ip, h[i].account, norm) in ks
    {
      assert Counts(m, PairKey(ip, h[i].account, norm), ByPair(h, ip, h[i].account, norm), lo);
      assert i in ByPair(h, ip, h[i].account, norm);
    }
    assert Under(h, ip, norm, ks) == ByIp(h, ip, norm);
    assert Counts(m, ip, ByIp(h, ip, norm), lo);
  }
}
