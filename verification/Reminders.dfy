/**
  Email reminders: the record is committed through Raft before the mail goes
  out, and a leader runs a barrier before its first pass of a term, so that it
  has applied every record an earlier leader committed.

  A run interleaves any number of nodes, elections, crashes, failed and stray
  writes, failed sends and the sweep of old records.
*/
module Reminders {

  import opened Wrappers

  /** One occurrence of one user's event. */
  datatype Key = Key(user: string, event: string, start: int)

  // --------------------------------------------------------------- the pass

  datatype Due = Due(key: Key, browserOnly: bool, mailbox: bool)

  /** Which of the pass's outside calls succeed, by position in the due list. */
  datatype World = World(readable: nat -> bool, applies: nat -> bool, sends: nat -> bool)

  datatype Outcome = Outcome(records: set<Key>, mailed: seq<Key>)

  /** The first n entries of the due list, over the records present. */
  function Passed(due: seq<Due>, n: nat, records: set<Key>, w: World): Outcome
    requires n <= |due|
  {
    if n == 0 then Outcome(records, [])
    else
      var o, d := Passed(due, n - 1, records, w), due[n - 1];
      if d.browserOnly || !d.mailbox || !w.readable(n - 1) || d.key in o.records || !w.applies(n - 1) then o
      else Outcome(o.records + {d.key}, if w.sends(n - 1) then o.mailed + [d.key] else o.mailed)
  }

  /** Entry i is to be mailed, and nothing stands against it. */
  ghost predicate Eligible(due: seq<Due>, w: World, i: int) {
    && 0 <= i < |due| && !due[i].browserOnly && due[i].mailbox
    && w.readable(i) && w.applies(i)
  }

  ghost predicate EligibleOn(due: seq<Due>, w: World, n: int, i: int, k: Key) {
    i < n && Eligible(due, w, i) && due[i].key == k
  }

  /** The first such entry on k. */
  ghost predicate FirstOn(due: seq<Due>, w: World, i: int, k: Key) {
    EligibleOn(due, w, |due|, i, k) && forall j :: !EligibleOn(due, w, i, j, k)
  }

  /** What is recorded and what is mailed, entry by entry. */
  lemma {:induction false} PassedIff(due: seq<Due>, n: nat, records: set<Key>, w: World, k: Key)
    requires n <= |due|
    ensures k in Passed(due, n, records, w).records <==> k in records || exists i :: EligibleOn(due, w, n, i, k)
    ensures k in Passed(due, n, records, w).mailed <==>
            k !in records && exists i :: i < n && FirstOn(due, w, i, k) && w.sends(i)
  {
    if n > 0 {
      PassedIff(due, n - 1, records, w, k);
      var m := n - 1;
      assert forall i :: EligibleOn(due, w, n, i, k) <==> EligibleOn(due, w, m, i, k) || (i == m && EligibleOn(due, w, n, m, k));
      if EligibleOn(due, w, n, m, k) && !exists i :: EligibleOn(due, w, m, i, k) {
        assert FirstOn(due, w, m, k);
      }
    }
  }

  class EmailReminderPass {
    var barriered: Option<string>

    constructor ()
      ensures barriered == None
    {
      barriered := None;
    }

    /**
      One tick.  term is None on a node that does not lead; records is the store
      and is returned with what the pass added.
    */
    method Run(term: Option<string>, barrierOk: bool, due: seq<Due>, records: set<Key>, w: World)
      returns (after: set<Key>, mailed: seq<Key>)
      modifies this
      ensures term.None? ==> barriered == None
      ensures term.Some? ==> barriered == if old(barriered) == term || barrierOk then term else old(barriered)
      ensures barriered != term || term.None? ==> after == records && mailed == []
      ensures term.Some? && barriered == term ==> Outcome(after, mailed) == Passed(due, |due|, records, w)
      ensures term.Some? && barriered == term ==> forall k ::
                && (k in after <==> k in records || exists i :: Eligible(due, w, i) && due[i].key == k)
                && (k in mailed <==> k !in records && exists i :: FirstOn(due, w, i, k) && w.sends(i))
      ensures records <= after
      ensures forall k :: k in mailed ==> k in after && k !in records
      ensures forall i, j :: 0 <= i < j < |mailed| ==> mailed[i] != mailed[j]
      ensures forall k :: k in after && k !in records ==> exists i :: 0 <= i < |due| && due[i].key == k && w.applies(i)
    {
      after, mailed := records, [];
      if term.None? {
        barriered := None;
        return;
      }
      if barriered != term {
        if !barrierOk {
          return;
        }
        barriered := term;
      }
      for i := 0 to |due|
        invariant Outcome(after, mailed) == Passed(due, i, records, w) && records <= after
        invariant forall k :: k in mailed ==> k in after && k !in records
        invariant forall a, b :: 0 <= a < b < |mailed| ==> mailed[a] != mailed[b]
        invariant forall k :: k in after && k !in records ==> exists j :: 0 <= j < i && due[j].key == k && w.applies(j)
      {
        var d := due[i];
        if d.browserOnly || !d.mailbox || !w.readable(i) || d.key in after {
          continue;
        }
        if !w.applies(i) {
          continue;
        }
        after := after + {d.key};
        if !w.sends(i) {
          continue;
        }
        mailed := mailed + [d.key];
      }
      forall k
        ensures k in after <==> k in records || exists i :: Eligible(due, w, i) && due[i].key == k
        ensures k in mailed <==> k !in records && exists i :: FirstOn(due, w, i, k) && w.sends(i)
      {
        PassedIff(due, |due|, records, w, k);
        assert forall i :: Eligible(due, w, i) && due[i].key == k <==> EligibleOn(due, w, |due|, i, k);
      }
    }
  }

  // ------------------------------------------------------------- the cluster

  datatype Entry = Record(key: Key, at: int) | Sweep(key: Key)

  datatype Pass =
    | NoPass
    | Running(now: int)
    | Reading(now: int, key: Key)  // found no record, about to write one
    | ToSend(now: int, key: Key)   // the record is committed

  /** applied is the length of the log prefix in this node's store. */
  datatype Node = Node(applied: nat, barriered: Option<nat>, pass: Pass)

  /** lead is the node that was elected for the current term; log holds committed entries. */
  datatype Sys = Sys(clock: int, term: nat, lead: nat, log: seq<Entry>, nodes: seq<Node>, sent: multiset<Key>)

  /**
    A due occurrence starts within horizon of the pass's time, a pass ends within
    slack of it, and records are kept for ttl.  With strict, a write succeeds
    only in the term the node barriered in.
  */
  datatype Config = Config(ttl: int, horizon: int, slack: int, strict: bool)

  const HOUR := 3600

  function Stored(log: seq<Entry>): set<Key> {
    if log == [] then {}
    else match log[|log| - 1]
      case Record(k, _) => Stored(log[..|log| - 1]) + {k}
      case Sweep(k) => Stored(log[..|log| - 1]) - {k}
  }

  ghost predicate Init(s: Sys) {
    && s.log == [] && s.sent == multiset{} && s.lead < |s.nodes|
    && forall n :: 0 <= n < |s.nodes| ==> s.nodes[n] == Node(0, None, NoPass)
  }

  function With(s: Sys, n: nat, node: Node): Sys
    requires n < |s.nodes|
  {
    s.(nodes := s.nodes[n := node])
  }

  ghost predicate Elapse(s: Sys, s': Sys) {
    s'.clock >= s.clock && s' == s.(clock := s'.clock)
  }

  ghost predicate Elect(s: Sys, s': Sys, n: nat) {
    n < |s.nodes| && s'.term > s.term && s' == s.(term := s'.term, lead := n)
  }

  /** t is the term the node saw before its barrier, which commits in the current one. */
  ghost predicate StartWithBarrier(s: Sys, s': Sys, n: nat, t: nat) {
    && n < |s.nodes| && n == s.lead && t <= s.term && s.nodes[n].pass.NoPass?
    && n < |s'.nodes| && s'.nodes[n].pass.Running? && s'.nodes[n].pass.now <= s.clock
    && s' == With(s, n, Node(|s.log|, Some(t), s'.nodes[n].pass))
  }

  /** The node believes it still leads the term it barriered in. */
  ghost predicate StartAgain(s: Sys, s': Sys, n: nat) {
    && n < |s.nodes| && s.nodes[n].pass.NoPass? && s.nodes[n].barriered.Some?
    && s' == With(s, n, s.nodes[n].(pass := Running(s.clock)))
  }

  ghost predicate StepDown(s: Sys, s': Sys, n: nat) {
    && n < |s.nodes| && s.nodes[n].pass.NoPass? && s' == With(s, n, s.nodes[n].(barriered := None))
  }

  ghost predicate Read(cfg: Config, s: Sys, s': Sys, n: nat, k: Key) {
    && n < |s.nodes| && s.nodes[n].pass.Running? && s.nodes[n].applied <= |s.log|
    && var now := s.nodes[n].pass.now;
       && now < k.start <= now + cfg.horizon && s.clock <= now + cfg.slack
       && k !in Stored(s.log[..s.nodes[n].applied])
       && s' == With(s, n, s.nodes[n].(pass := Reading(now, k)))
  }

  ghost predicate ApplyOk(cfg: Config, s: Sys, s': Sys, n: nat) {
    && n < |s.nodes| && s.nodes[n].pass.Reading? && n == s.lead
    && (cfg.strict ==> s.nodes[n].barriered == Some(s.term))
    && var Reading(now, k) := s.nodes[n].pass;
       s' == With(s.(log := s.log + [Record(k, now)]), n, Node(|s.log| + 1, s.nodes[n].barriered, ToSend(now, k)))
  }

  /** The write failed as far as the pass can tell; Stray covers one that commits after all. */
  ghost predicate ApplyFails(s: Sys, s': Sys, n: nat) {
    && n < |s.nodes| && s.nodes[n].pass.Reading?
    && s' == With(s, n, s.nodes[n].(pass := Running(s.nodes[n].pass.now)))
  }

  ghost predicate Send(s: Sys, s': Sys, n: nat) {
    && n < |s.nodes| && s.nodes[n].pass.ToSend?
    && s' == With(s.(sent := s.sent + multiset{s.nodes[n].pass.key}), n, s.nodes[n].(pass := Running(s.nodes[n].pass.now)))
  }

  ghost predicate SendFails(s: Sys, s': Sys, n: nat) {
    && n < |s.nodes| && s.nodes[n].pass.ToSend?
    && s' == With(s, n, s.nodes[n].(pass := Running(s.nodes[n].pass.now)))
  }

  ghost predicate EndPass(s: Sys, s': Sys, n: nat) {
    n < |s.nodes| && s.nodes[n].pass.Running? && s' == With(s, n, s.nodes[n].(pass := NoPass))
  }

  /** A restart replays from a watermark that may be behind. */
  ghost predicate Crash(s: Sys, s': Sys, n: nat) {
    && n < |s.nodes| && n < |s'.nodes| && s'.nodes[n].applied <= s.nodes[n].applied
    && s' == With(s, n, Node(s'.nodes[n].applied, None, NoPass))
  }

  ghost predicate CatchUp(s: Sys, s': Sys, n: nat) {
    && n < |s.nodes| && n < |s'.nodes| && s.nodes[n].applied <= s'.nodes[n].applied <= |s.log|
    && s' == With(s, n, s.nodes[n].(applied := s'.nodes[n].applied))
  }

  ghost predicate Stray(cfg: Config, s: Sys, s': Sys, k: Key, at: int) {
    at <= s.clock && k.start <= at + cfg.horizon && s' == s.(log := s.log + [Record(k, at)])
  }

  ghost predicate SweepRecord(cfg: Config, s: Sys, s': Sys, i: nat) {
    && i < |s.log| && s.log[i].Record? && s.log[i].at + cfg.ttl < s.clock
    && s' == s.(log := s.log + [Sweep(s.log[i].key)])
  }

  ghost predicate NodeStep(cfg: Config, s: Sys, s': Sys, n: nat) {
    || Elect(s, s', n) || (exists t :: StartWithBarrier(s, s', n, t)) || StartAgain(s, s', n) || StepDown(s, s', n)
    || (exists k :: Read(cfg, s, s', n, k)) || ApplyOk(cfg, s, s', n) || ApplyFails(s, s', n)
    || Send(s, s', n) || SendFails(s, s', n) || EndPass(s, s', n) || Crash(s, s', n) || CatchUp(s, s', n)
  }

  ghost predicate Next(cfg: Config, s: Sys, s': Sys) {
    || Elapse(s, s') || (exists n :: NodeStep(cfg, s, s', n))
    || (exists k, at :: Stray(cfg, s, s', k, at)) || (exists i :: SweepRecord(cfg, s, s', i))
  }

  ghost predicate IsRun(cfg: Config, run: seq<Sys>) {
    && run != [] && Init(run[0])
    && forall i :: 0 <= i < |run| - 1 ==> Next(cfg, run[i], run[i + 1])
  }

  // ---------------------------------------------------------------- invariants

  ghost predicate Sending(s: Sys, n: int, k: Key) {
    0 <= n < |s.nodes| && s.nodes[n].pass.ToSend? && s.nodes[n].pass.key == k
  }

  /** Mailed already, or committed to being mailed. */
  ghost predicate Claimed(s: Sys, k: Key) {
    k in s.sent || exists n :: Sending(s, n, k)
  }

  ghost predicate RecordedBefore(log: seq<Entry>, k: Key, n: int) {
    exists p :: 0 <= p < n && p < |log| && log[p].Record? && log[p].key == k
  }

  /** Too late for any pass still running to find it due. */
  predicate Expired(cfg: Config, s: Sys, k: Key) { k.start + cfg.slack <= s.clock }

  ghost predicate Once(s: Sys) {
    && (forall k :: s.sent[k] <= 1)
    && (forall n, k :: Sending(s, n, k) ==> k !in s.sent)
    && (forall n, m, k :: Sending(s, n, k) && Sending(s, m, k) ==> n == m)
  }

  ghost predicate LogOk(cfg: Config, s: Sys) {
    && (forall i :: 0 <= i < |s.log| && s.log[i].Record? ==> s.log[i].key.start <= s.log[i].at + cfg.horizon)
    && (forall i :: 0 <= i < |s.log| && s.log[i].Sweep? ==> Expired(cfg, s, s.log[i].key))
  }

  /** Nodes know no future, and only the leader has barriered in the current term. */
  ghost predicate NodesOk(cfg: Config, s: Sys) {
    && s.lead < |s.nodes|
    && forall n :: 0 <= n < |s.nodes| ==>
         && s.nodes[n].applied <= |s.log|
         && (s.nodes[n].barriered.Some? ==> s.nodes[n].barriered.value <= s.term)
         && (s.nodes[n].barriered == Some(s.term) ==> n == s.lead)
         && (s.nodes[n].pass.Reading? ==> s.nodes[n].pass.key.start <= s.nodes[n].pass.now + cfg.horizon)
  }

  /** Who has barriered in the current term sees the record of everything claimed. */
  ghost predicate LeaderKnows(s: Sys) {
    s.lead < |s.nodes| && s.nodes[s.lead].barriered == Some(s.term) ==>
      && (forall k :: Claimed(s, k) ==> RecordedBefore(s.log, k, s.nodes[s.lead].applied))
      && (s.nodes[s.lead].pass.Reading? ==> !Claimed(s, s.nodes[s.lead].pass.key))
  }

  ghost predicate ClaimsRecorded(s: Sys) {
    forall k :: Claimed(s, k) ==> RecordedBefore(s.log, k, |s.log|)
  }

  ghost predicate Inv(cfg: Config, s: Sys) {
    Once(s) && LogOk(cfg, s) && NodesOk(cfg, s) && LeaderKnows(s) && ClaimsRecorded(s)
  }

  /** A record that was never swept is in the store of whoever has applied it. */
  lemma {:induction false} RecordStored(log: seq<Entry>, k: Key)
    requires RecordedBefore(log, k, |log|)
    requires forall i :: 0 <= i < |log| && log[i].Sweep? ==> log[i].key != k
    ensures k in Stored(log)
  {
    var init, last := log[..|log| - 1], log[|log| - 1];
    if last.Sweep? || last.key != k {
      var p :| 0 <= p < |log| && log[p].Record? && log[p].key == k;
      assert init[p] == log[p];
      RecordStored(init, k);
    }
  }

  lemma RecordedGrows(log: seq<Entry>, more: seq<Entry>, k: Key, n: int, n': int)
    requires RecordedBefore(log, k, n) && n <= n'
    ensures RecordedBefore(log + more, k, n')
  {
    var p :| 0 <= p < n && p < |log| && log[p].Record? && log[p].key == k;
    assert (log + more)[p] == log[p];
  }

  lemma NoNewClaims(s: Sys, s': Sys)
    requires Once(s) && s'.sent == s.sent
    requires forall n, k :: Sending(s', n, k) ==> Sending(s, n, k)
    ensures Once(s') && forall k :: Claimed(s', k) ==> Claimed(s, k)
  {
  }

  /** What a node finds due and absent has not been claimed, if it barriered in this term. */
  lemma ReadUnclaimed(cfg: Config, s: Sys, s': Sys, n: nat, k: Key)
    requires Inv(cfg, s) && Read(cfg, s, s', n, k) && s.nodes[n].barriered == Some(s.term)
    ensures !Claimed(s, k)
  {
    var prefix := s.log[..s.nodes[n].applied];
    assert !Expired(cfg, s, k);
    assert n == s.lead;
    if RecordedBefore(s.log, k, s.nodes[n].applied) {
      var p :| 0 <= p < s.nodes[n].applied && p < |s.log| && s.log[p].Record? && s.log[p].key == k;
      assert prefix[p] == s.log[p];
      assert RecordedBefore(prefix, k, |prefix|);
      forall i | 0 <= i < |prefix| && prefix[i].Sweep?
        ensures prefix[i].key != k
      {
        assert prefix[i] == s.log[i];
      }
      RecordStored(prefix, k);
    }
  }

  /** The steps of a node that claim nothing and write nothing. */
  ghost predicate Starts(s: Sys, s': Sys, n: nat) {
    (exists t :: StartWithBarrier(s, s', n, t)) || StartAgain(s, s', n) || Crash(s, s', n) || CatchUp(s, s', n)
  }

  ghost predicate Drops(s: Sys, s': Sys, n: nat) {
    StepDown(s, s', n) || ApplyFails(s, s', n) || SendFails(s, s', n) || EndPass(s, s', n)
  }

  lemma ReadKeeps(cfg: Config, s: Sys, s': Sys, n: nat, k: Key)
    requires Inv(cfg, s) && Read(cfg, s, s', n, k)
    ensures Inv(cfg, s')
  {
    assert forall m :: 0 <= m < |s.nodes| && m != n ==> s'.nodes[m] == s.nodes[m];
    NoNewClaims(s, s');
    if s.nodes[n].barriered == Some(s.term) {
      ReadUnclaimed(cfg, s, s', n, k);
    }
  }

  lemma StartsKeeps(cfg: Config, s: Sys, s': Sys, n: nat)
    requires Inv(cfg, s) && Starts(s, s', n)
    ensures Inv(cfg, s')
  {
    assert forall m :: 0 <= m < |s.nodes| && m != n ==> s'.nodes[m] == s.nodes[m];
    NoNewClaims(s, s');
    forall k, a, b | RecordedBefore(s.log, k, a) && a <= b
      ensures RecordedBefore(s.log, k, b)
    {
      assert s.log + [] == s.log;
      RecordedGrows(s.log, [], k, a, b);
    }
  }

  lemma DropsKeeps(cfg: Config, s: Sys, s': Sys, n: nat)
    requires Inv(cfg, s) && Drops(s, s', n)
    ensures Inv(cfg, s')
  {
    assert forall m :: 0 <= m < |s.nodes| && m != n ==> s'.nodes[m] == s.nodes[m];
    NoNewClaims(s, s');
  }

  lemma ApplyOkKeeps(cfg: Config, s: Sys, s': Sys, n: nat)
    requires cfg.strict && Inv(cfg, s) && ApplyOk(cfg, s, s', n)
    ensures Inv(cfg, s')
  {
    var k := s.nodes[n].pass.key;
    assert !Claimed(s, k);
    assert forall m :: 0 <= m < |s.nodes| && m != n ==> s'.nodes[m] == s.nodes[m];
    forall m, x | Sending(s', m, x)
      ensures Sending(s, m, x) || (m == n && x == k)
    {
    }
    forall x | Claimed(s', x)
      ensures RecordedBefore(s'.log, x, |s'.log|)
    {
      if x == k {
        assert s'.log[|s.log|] == Record(k, s.nodes[n].pass.now);
      } else {
        RecordedGrows(s.log, [Record(k, s.nodes[n].pass.now)], x, |s.log|, |s'.log|);
      }
    }
  }

  lemma SendKeeps(cfg: Config, s: Sys, s': Sys, n: nat)
    requires Inv(cfg, s) && Send(s, s', n)
    ensures Inv(cfg, s')
  {
    var k := s.nodes[n].pass.key;
    assert forall m :: 0 <= m < |s.nodes| && m != n ==> s'.nodes[m] == s.nodes[m];
    assert Sending(s, n, k);
    forall m, x | Sending(s', m, x)
      ensures Sending(s, m, x) && m != n && x != k
    {
      assert m != n && Sending(s, m, x);
      assert x == k ==> m == n;
    }
    forall x | Claimed(s', x)
      ensures Claimed(s, x)
    {
    }
  }

  lemma ElectKeeps(cfg: Config, s: Sys, s': Sys, n: nat)
    requires Inv(cfg, s) && Elect(s, s', n)
    ensures Inv(cfg, s')
  {
    assert forall m, k :: Sending(s', m, k) <==> Sending(s, m, k);
    NoNewClaims(s, s');
  }

  lemma WorldKeeps(cfg: Config, s: Sys, s': Sys, more: seq<Entry>)
    requires Inv(cfg, s) && LogOk(cfg, s')
    requires s'.clock >= s.clock && s' == s.(clock := s'.clock, log := s.log + more)
    ensures Inv(cfg, s')
  {
    assert forall m, k :: Sending(s', m, k) <==> Sending(s, m, k);
    NoNewClaims(s, s');
    forall k | Claimed(s', k)
      ensures RecordedBefore(s'.log, k, |s'.log|)
    {
      RecordedGrows(s.log, more, k, |s.log|, |s'.log|);
    }
    forall k, a | RecordedBefore(s.log, k, a)
      ensures RecordedBefore(s'.log, k, a)
    {
      RecordedGrows(s.log, more, k, a, a);
    }
  }

  lemma SweepIsLate(cfg: Config, s: Sys, s': Sys, i: nat)
    requires Inv(cfg, s) && cfg.horizon + cfg.slack <= cfg.ttl + 1 && SweepRecord(cfg, s, s', i)
    ensures LogOk(cfg, s')
  {
    assert s.log[i].key.start + cfg.slack <= s.clock;
  }

  lemma NextKeeps(cfg: Config, s: Sys, s': Sys)
    requires cfg.strict && cfg.horizon + cfg.slack <= cfg.ttl + 1 && Inv(cfg, s) && Next(cfg, s, s')
    ensures Inv(cfg, s')
  {
    if Elapse(s, s') {
      assert s.log + [] == s.log;
      WorldKeeps(cfg, s, s', []);
    } else if k, at :| Stray(cfg, s, s', k, at) {
      WorldKeeps(cfg, s, s', [Record(k, at)]);
    } else if i: nat :| SweepRecord(cfg, s, s', i) {
      SweepIsLate(cfg, s, s', i);
      WorldKeeps(cfg, s, s', [Sweep(s.log[i].key)]);
    } else {
      var n :| NodeStep(cfg, s, s', n);
      if Elect(s, s', n) {
        ElectKeeps(cfg, s, s', n);
      } else if ApplyOk(cfg, s, s', n) {
        ApplyOkKeeps(cfg, s, s', n);
      } else if Send(s, s', n) {
        SendKeeps(cfg, s, s', n);
      } else if k :| Read(cfg, s, s', n, k) {
        ReadKeeps(cfg, s, s', n, k);
      } else if Starts(s, s', n) {
        StartsKeeps(cfg, s, s', n);
      } else {
        DropsKeeps(cfg, s, s', n);
      }
    }
  }

  lemma {:induction false} RunInv(cfg: Config, run: seq<Sys>, i: nat)
    requires cfg.strict && cfg.horizon + cfg.slack <= cfg.ttl + 1 && IsRun(cfg, run) && i < |run|
    ensures Inv(cfg, run[i])
  {
    if i > 0 {
      RunInv(cfg, run, i - 1);
      NextKeeps(cfg, run[i - 1], run[i]);
    }
  }

  ghost predicate AtMostOnce(cfg: Config) {
    forall run: seq<Sys>, i, k :: IsRun(cfg, run) && 0 <= i < |run| ==> run[i].sent[k] <= 1
  }

  /**
    The server keeps records for 48 hours, and an occurrence comes due at most 15
    hours ahead plus 14 of time zone: a pass then has 19 hours to finish.
  */
  lemma ServerTimes(slack: nat, strict: bool)
    ensures AtMostOnce(Config(48 * HOUR, 29 * HOUR, slack, strict)) <==> strict && slack <= 19 * HOUR + 1
  {
    AtMostOnceIff(Config(48 * HOUR, 29 * HOUR, slack, strict));
  }

  // ----------------------------------------- a pass that outlives its leadership

  /** Node 0 reads, loses the lead to node 1 which mails, and gets it back before it writes. */
  function Relapse(k: Key, t: int): seq<Sys> {
    var idle, r := Node(0, None, NoPass), Record(k, t);
    [Sys(t, 1, 0, [], [idle, idle], multiset{}),
     Sys(t, 1, 0, [], [Node(0, Some(1), Running(t)), idle], multiset{}),
     Sys(t, 1, 0, [], [Node(0, Some(1), Reading(t, k)), idle], multiset{}),
     Sys(t, 2, 1, [], [Node(0, Some(1), Reading(t, k)), idle], multiset{}),
     Sys(t, 2, 1, [], [Node(0, Some(1), Reading(t, k)), Node(0, Some(2), Running(t))], multiset{}),
     Sys(t, 2, 1, [], [Node(0, Some(1), Reading(t, k)), Node(0, Some(2), Reading(t, k))], multiset{}),
     Sys(t, 2, 1, [r], [Node(0, Some(1), Reading(t, k)), Node(1, Some(2), ToSend(t, k))], multiset{}),
     Sys(t, 2, 1, [r], [Node(0, Some(1), Reading(t, k)), Node(1, Some(2), Running(t))], multiset{k}),
     Sys(t, 3, 0, [r], [Node(0, Some(1), Reading(t, k)), Node(1, Some(2), Running(t))], multiset{k}),
     Sys(t, 3, 0, [r, r], [Node(2, Some(1), ToSend(t, k)), Node(1, Some(2), Running(t))], multiset{k}),
     Sys(t, 3, 0, [r, r], [Node(2, Some(1), Running(t)), Node(1, Some(2), Running(t))], multiset{k, k})]
  }

  lemma RelapseSteps(cfg: Config, k: Key, t: int)
    requires !cfg.strict && cfg.slack >= 0 && t < k.start <= t + cfg.horizon
    ensures var run := Relapse(k, t);
            && Init(run[0]) && StartWithBarrier(run[0], run[1], 0, 1) && Read(cfg, run[1], run[2], 0, k)
            && Elect(run[2], run[3], 1) && StartWithBarrier(run[3], run[4], 1, 2) && Read(cfg, run[4], run[5], 1, k)
            && ApplyOk(cfg, run[5], run[6], 1) && Send(run[6], run[7], 1) && Elect(run[7], run[8], 0)
            && ApplyOk(cfg, run[8], run[9], 0) && Send(run[9], run[10], 0)
  {
    var run := Relapse(k, t);
    assert run[1].log[..0] == [] && run[4].log[..0] == [];
    assert run[5].log + [Record(k, t)] == run[6].log;
    assert run[8].log + [Record(k, t)] == run[9].log;
    assert run[6].sent + multiset{k} == run[7].sent;
    assert run[9].sent + multiset{k} == run[10].sent;
  }

  lemma RelapseIsRun(cfg: Config, k: Key, t: int)
    requires !cfg.strict && cfg.slack >= 0 && t < k.start <= t + cfg.horizon
    ensures IsRun(cfg, Relapse(k, t)) && Relapse(k, t)[10].sent[k] == 2
  {
    RelapseSteps(cfg, k, t);
    var run := Relapse(k, t);
    assert NodeStep(cfg, run[0], run[1], 0) && NodeStep(cfg, run[1], run[2], 0) && NodeStep(cfg, run[2], run[3], 1);
    assert NodeStep(cfg, run[3], run[4], 1) && NodeStep(cfg, run[4], run[5], 1) && NodeStep(cfg, run[5], run[6], 1);
    assert NodeStep(cfg, run[6], run[7], 1) && NodeStep(cfg, run[7], run[8], 0) && NodeStep(cfg, run[8], run[9], 0);
    assert NodeStep(cfg, run[9], run[10], 0);
  }

  // -------------------------------------------------- a record swept too early

  /** A second pass starts before the first record is swept, and reads after. */
  function Forgotten(k: Key, now: int, late: int): seq<Sys> {
    var r, w, again := Record(k, 0), Sweep(k), Record(k, now);
    [Sys(0, 1, 0, [], [Node(0, None, NoPass)], multiset{}),
     Sys(0, 1, 0, [], [Node(0, Some(1), Running(0))], multiset{}),
     Sys(0, 1, 0, [], [Node(0, Some(1), Reading(0, k))], multiset{}),
     Sys(0, 1, 0, [r], [Node(1, Some(1), ToSend(0, k))], multiset{}),
     Sys(0, 1, 0, [r], [Node(1, Some(1), Running(0))], multiset{k}),
     Sys(0, 1, 0, [r], [Node(1, Some(1), NoPass)], multiset{k}),
     Sys(now, 1, 0, [r], [Node(1, Some(1), NoPass)], multiset{k}),
     Sys(now, 1, 0, [r], [Node(1, Some(1), Running(now))], multiset{k}),
     Sys(late, 1, 0, [r], [Node(1, Some(1), Running(now))], multiset{k}),
     Sys(late, 1, 0, [r, w], [Node(1, Some(1), Running(now))], multiset{k}),
     Sys(late, 1, 0, [r, w], [Node(2, Some(1), Running(now))], multiset{k}),
     Sys(late, 1, 0, [r, w], [Node(2, Some(1), Reading(now, k))], multiset{k}),
     Sys(late, 1, 0, [r, w, again], [Node(3, Some(1), ToSend(now, k))], multiset{k}),
     Sys(late, 1, 0, [r, w, again], [Node(3, Some(1), Running(now))], multiset{k, k})]
  }

  /** The key falls due horizon ahead; the sweep comes as soon as it may. */
  ghost predicate Early(cfg: Config, k: Key, now: int, late: int) {
    && cfg.horizon > 0 && cfg.slack >= 0 && k.start == cfg.horizon
    && 0 <= now < cfg.horizon && now <= late && late == cfg.ttl + 1 <= now + cfg.slack
  }

  lemma ForgottenFirst(cfg: Config, k: Key, now: int, late: int)
    requires Early(cfg, k, now, late)
    ensures var run := Forgotten(k, now, late);
            && Init(run[0]) && StartWithBarrier(run[0], run[1], 0, 1) && Read(cfg, run[1], run[2], 0, k)
            && ApplyOk(cfg, run[2], run[3], 0) && Send(run[3], run[4], 0) && EndPass(run[4], run[5], 0)
            && Elapse(run[5], run[6])
  {
    var run := Forgotten(k, now, late);
    assert run[1].log[..0] == [];
    assert run[2].log + [Record(k, 0)] == run[3].log;
    assert run[3].sent + multiset{k} == run[4].sent;
  }

  lemma ForgottenSecond(cfg: Config, k: Key, now: int, late: int)
    requires Early(cfg, k, now, late)
    ensures var run := Forgotten(k, now, late);
            && StartAgain(run[6], run[7], 0) && Elapse(run[7], run[8]) && SweepRecord(cfg, run[8], run[9], 0)
            && CatchUp(run[9], run[10], 0) && Read(cfg, run[10], run[11], 0, k)
            && ApplyOk(cfg, run[11], run[12], 0) && Send(run[12], run[13], 0)
  {
    var run := Forgotten(k, now, late);
    var log := [Record(k, 0), Sweep(k)];
    assert log[..2] == log && log[..1] == [Record(k, 0)];
    assert run[8].log + [Sweep(k)] == log;
    assert k !in Stored(log);
    assert run[11].log + [Record(k, now)] == run[12].log;
    assert run[12].sent + multiset{k} == run[13].sent;
  }

  lemma ForgottenIsRun(cfg: Config, k: Key, now: int, late: int)
    requires Early(cfg, k, now, late)
    ensures IsRun(cfg, Forgotten(k, now, late)) && Forgotten(k, now, late)[13].sent[k] == 2
  {
    ForgottenFirst(cfg, k, now, late);
    ForgottenSecond(cfg, k, now, late);
    var run := Forgotten(k, now, late);
    assert NodeStep(cfg, run[0], run[1], 0) && NodeStep(cfg, run[1], run[2], 0) && NodeStep(cfg, run[2], run[3], 0);
    assert NodeStep(cfg, run[3], run[4], 0) && NodeStep(cfg, run[4], run[5], 0) && NodeStep(cfg, run[6], run[7], 0);
    assert NodeStep(cfg, run[9], run[10], 0) && NodeStep(cfg, run[10], run[11], 0) && NodeStep(cfg, run[11], run[12], 0);
    assert NodeStep(cfg, run[12], run[13], 0);
  }

  /**
    Every reminder goes out at most once, in every run, exactly when no write
    outlives its term and a record outlives every pass that could still find its
    occurrence due.
  */
  lemma AtMostOnceIff(cfg: Config)
    requires cfg.horizon > 0 && cfg.slack >= 0 && cfg.ttl >= 0
    ensures AtMostOnce(cfg) <==> cfg.strict && cfg.horizon + cfg.slack <= cfg.ttl + 1
  {
    if !cfg.strict {
      RelapseIsRun(cfg, Key("u", "e", 1), 0);
    } else if cfg.horizon + cfg.slack <= cfg.ttl + 1 {
      forall run: seq<Sys>, i, k | IsRun(cfg, run) && 0 <= i < |run|
        ensures run[i].sent[k] <= 1
      {
        RunInv(cfg, run, i);
      }
    } else {
      var k, late := Key("u", "e", cfg.horizon), cfg.ttl + 1;
      ForgottenIsRun(cfg, k, if cfg.horizon - 1 <= late then cfg.horizon - 1 else late, late);
    }
  }
}
