/**
  FSM.Apply with its persisted applied index.  Pebble outlives the process on
  its own schedule, so after a crash Raft delivers entries the store already
  holds; the watermark decides which of them are executed again.

  A run is any interleaving of deliveries, the two writes of one apply, either of
  which may fail, crashes, restarts at any earlier position, snapshots and
  restores.  AlwaysSettled says what the application keys are in every state of
  every run, and AlwaysNearFold what more there is while no mark is lost.
*/
module Replay {

  import opened Commands
  import opened Wrappers

  type Byte = x: int | 0 <= x < 256

  type Value = seq<Byte>

  type Keys = map<string, Value>

  /** Committed entries; entry i has index i + 1.  None is an entry Raft keeps to itself. */
  type Log = seq<Option<Cmd<Value>>>

  const MARK := "/system/raft/applied_index"

  const UINT64 := 0x1_0000_0000_0000_0000

  // ------------------------------------------------------------- the watermark

  function BigEndian(n: nat, width: nat): (bs: Value)
    ensures |bs| == width
  {
    if width == 0 then [] else BigEndian(n / 256, width - 1) + [n % 256]
  }

  function FromBigEndian(bs: Value): nat {
    if bs == [] then 0 else FromBigEndian(bs[..|bs| - 1]) * 256 + bs[|bs| - 1]
  }

  function AppliedIndex(kv: Keys): nat {
    if MARK !in kv || |kv[MARK]| != 8 then 0 else FromBigEndian(kv[MARK])
  }

  function Marked(kv: Keys, index: nat): Keys { kv[MARK := BigEndian(index, 8)] }

  function App(kv: Keys): Keys { kv - {MARK} }

  function Pow256(w: nat): nat { if w == 0 then 1 else 256 * Pow256(w - 1) }

  lemma {:induction false} BigEndianInverse(n: nat, width: nat)
    requires n < Pow256(width)
    ensures FromBigEndian(BigEndian(n, width)) == n
  {
    if width > 0 {
      BigEndianInverse(n / 256, width - 1);
      assert (BigEndian(n / 256, width - 1) + [n % 256])[..width - 1] == BigEndian(n / 256, width - 1);
    }
  }

  /** The most significant byte comes first. */
  lemma {:induction false} BigEndianFirst(b: Byte, n: nat, width: nat)
    requires n < Pow256(width)
    ensures BigEndian(b * Pow256(width) + n, width + 1) == [b] + BigEndian(n, width)
  {
    var x := b * Pow256(width) + n;
    if width == 0 {
      assert BigEndian(x / 256, 0) == [];
    } else {
      var y := b * Pow256(width - 1);
      assert x == 256 * y + n;
      assert x / 256 == y + n / 256 && x % 256 == n % 256;
      BigEndianFirst(b, n / 256, width - 1);
    }
  }

  lemma MarkedIndex(kv: Keys, index: nat)
    requires index < UINT64
    ensures AppliedIndex(Marked(kv, index)) == index && App(Marked(kv, index)) == App(kv)
  {
    assert Pow256(4) == 0x1_0000_0000;
    assert Pow256(8) == UINT64;
    BigEndianInverse(index, 8);
  }

  // ------------------------------------------------------------------ commands

  function ExecEntry(kv: Keys, e: Option<Cmd<Value>>): Keys {
    match e
    case None => kv
    case Some(c) => Write(kv, c)
  }

  function Fold(log: Log, n: nat): Keys
    requires n <= |log|
  {
    if n == 0 then map[] else ExecEntry(Fold(log, n - 1), log[n - 1])
  }

  /** Entries i..n executed on kv. */
  function Replayed(log: Log, i: nat, n: nat, kv: Keys): Keys
    requires i <= n <= |log|
  {
    if n == i then kv else ExecEntry(Replayed(log, i, n - 1, kv), log[n - 1])
  }

  /** No command writes the watermark's key. */
  ghost predicate Leaves(log: Log) {
    |log| < UINT64 && forall i :: 0 <= i < |log| && log[i].Some? ==> log[i].value.key != MARK
  }

  // --------------------------------------------------------------------- Apply

  /** Which of the two writes of one call reach the disk; a failure of either is only logged or returned. */
  datatype Outcome = Outcome(stored: bool, marked: bool)

  function Applied(kv: Keys, index: nat, c: Cmd<Value>, o: Outcome): Keys {
    if index != 0 && index <= AppliedIndex(kv) then kv
    else
      var kv' := if o.stored then Write(kv, c) else kv;
      if index != 0 && o.marked then Marked(kv', index) else kv'
  }

  class Fsm {
    var kv: Keys

    /**
      Whether the entry was skipped as already applied.  Over the fold of a log up
      to the entry, or one past it, the call leaves the fold with the entry, marked.
    */
    method Apply(index: nat, c: Cmd<Value>, o: Outcome, ghost log: Log) returns (skipped: bool)
      modifies this
      ensures kv == old(Applied(kv, index, c, o))
      ensures skipped <==> 0 < index <= old(AppliedIndex(kv))
      ensures Leaves(log) && 0 < index <= |log| && log[index - 1] == Some(c) && old(AppliedIndex(kv)) < index
              && old(App(kv)) in {Fold(log, index - 1), Fold(log, index)} && o.stored && o.marked ==>
                App(kv) == Fold(log, index) && AppliedIndex(kv) == index
    {
      ghost var was := kv;
      if index != 0 && index <= AppliedIndex(kv) {
        return true;
      }
      if o.stored {
        match c
        case Put(k, v) => kv := kv[k := v];
        case Delete(k) => kv := kv - {k};
      }
      if index != 0 && o.marked {
        kv := kv[MARK := BigEndian(index, 8)];
      }
      skipped := false;
      if Leaves(log) && 0 < index <= |log| && log[index - 1] == Some(c) {
        WriteApp(was, c);
        WriteTwice(Fold(log, index - 1), c);
        MarkedIndex(Write(was, c), index);
      }
    }
  }

  // ----------------------------------------------------------------- last writer

  ghost predicate Writes(log: Log, i: int, k: string) {
    0 <= i < |log| && log[i].Some? && log[i].value.key == k
  }

  /** Position d holds the last command before n that names k. */
  ghost predicate LastWriter(log: Log, d: int, n: int, k: string) {
    d < n && Writes(log, d, k) && forall j :: d < j < n ==> !Writes(log, j, k)
  }

  /** The folded state holds k exactly when k's last command put it, with that value. */
  lemma {:induction false} FoldLastWriter(log: Log, n: nat, k: string)
    requires n <= |log|
    ensures k in Fold(log, n) <==> exists d :: LastWriter(log, d, n, k) && log[d].value.Put?
    ensures forall d :: LastWriter(log, d, n, k) && log[d].value.Put? ==>
              k in Fold(log, n) && Fold(log, n)[k] == log[d].value.value
  {
    if n > 0 {
      FoldLastWriter(log, n - 1, k);
      if Writes(log, n - 1, k) {
        assert LastWriter(log, n - 1, n, k);
      } else {
        assert forall d :: LastWriter(log, d, n, k) <==> LastWriter(log, d, n - 1, k);
      }
    }
  }

  /** A key whose last command up to n deleted it is not there: nothing brings it back. */
  lemma DeletedStaysDeleted(log: Log, n: nat, d: nat, k: string)
    requires n <= |log| && LastWriter(log, d, n, k) && log[d].value.Delete?
    ensures k !in Fold(log, n)
  {
    FoldLastWriter(log, n, k);
    assert forall d' :: LastWriter(log, d', n, k) ==> d' == d;
  }

  // -------------------------------------------------------------- the machine

  /** Stored and Refused: the store write is done or has failed, and the mark is next. */
  datatype Phase = Idle | Stored | Refused | Down

  /**
    What the disk holds, and a record of how it came to: at gives the command each
    key was last written by, refused the positions whose last delivery was
    refused, and high is how far deliveries ever went.
  */
  datatype Disk = Disk(kv: Keys, at: map<string, nat>, refused: set<nat>, high: nat)

  /** next is the position Raft delivers next; it is lost in a crash.  A snapshot comes with the position it was taken at. */
  datatype Sys = Sys(disk: Disk, next: nat, phase: Phase, snaps: set<(Disk, nat)>)

  function Mark(d: Disk): nat { AppliedIndex(d.kv) }

  function Max(a: nat, b: nat): nat { if a < b then b else a }

  ghost predicate Init(s: Sys) { s == Sys(Disk(map[], map[], {}, 0), 0, Idle, {}) }

  ghost predicate Deliverable(log: Log, s: Sys) {
    s.phase.Idle? && s.next < |log| && log[s.next].Some?
  }

  function Past(d: Disk, n: nat): Disk { d.(high := Max(d.high, n)) }

  ghost predicate Internal(log: Log, s: Sys, s': Sys) {
    && s.phase.Idle? && s.next < |log| && log[s.next].None?
    && s' == s.(disk := Past(s.disk, s.next + 1), next := s.next + 1)
  }

  ghost predicate Skip(log: Log, s: Sys, s': Sys) {
    Deliverable(log, s) && s.next + 1 <= Mark(s.disk) && s' == s.(next := s.next + 1)
  }

  function Storing(d: Disk, c: Cmd<Value>, n: nat): Disk {
    Past(Disk(Write(d.kv, c), d.at[c.key := n], d.refused - {n}, d.high), n + 1)
  }

  ghost predicate WriteEntry(log: Log, s: Sys, s': Sys) {
    && Deliverable(log, s) && s.next + 1 > Mark(s.disk)
    && s' == s.(disk := Storing(s.disk, log[s.next].value, s.next), phase := Stored)
  }

  ghost predicate RefuseEntry(log: Log, s: Sys, s': Sys) {
    && Deliverable(log, s) && s.next + 1 > Mark(s.disk)
    && s' == s.(disk := Past(s.disk.(refused := s.disk.refused + {s.next}), s.next + 1), phase := Refused)
  }

  ghost predicate WriteMark(s: Sys, s': Sys) {
    && (s.phase.Stored? || s.phase.Refused?)
    && s' == s.(disk := s.disk.(kv := Marked(s.disk.kv, s.next + 1)), next := s.next + 1, phase := Idle)
  }

  /** The mark cannot be written: that is logged, and the next entry comes. */
  ghost predicate LoseMark(s: Sys, s': Sys) {
    (s.phase.Stored? || s.phase.Refused?) && s' == s.(next := s.next + 1, phase := Idle)
  }

  ghost predicate Crash(s: Sys, s': Sys) { s' == s.(phase := Down) }

  /** Replay starts at any position the watermark has passed. */
  ghost predicate Restart(s: Sys, s': Sys) {
    s.phase.Down? && s'.next <= Mark(s.disk) && s' == s.(next := s'.next, phase := Idle)
  }

  ghost predicate Checkpoint(s: Sys, s': Sys) {
    s.phase.Idle? && s' == s.(snaps := s.snaps + {(s.disk, s.next)})
  }

  ghost predicate Restore(s: Sys, s': Sys) {
    && (s.phase.Idle? || s.phase.Down?)
    && exists p :: p in s.snaps && s' == s.(disk := p.0, next := p.1, phase := Idle)
  }

  /** The steps that lose no mark. */
  ghost predicate Marking(log: Log, s: Sys, s': Sys) {
    || Internal(log, s, s') || Skip(log, s, s') || WriteEntry(log, s, s') || RefuseEntry(log, s, s') || WriteMark(s, s')
    || Crash(s, s') || Restart(s, s') || Checkpoint(s, s') || Restore(s, s')
  }

  ghost predicate Next(log: Log, s: Sys, s': Sys) {
    Marking(log, s, s') || LoseMark(s, s')
  }

  ghost predicate IsRun(log: Log, run: seq<Sys>) {
    && run != [] && Init(run[0])
    && forall i :: 0 <= i < |run| - 1 ==> Next(log, run[i], run[i + 1])
  }

  /** The steps are what Apply does, for each outcome of its two writes. */
  lemma ApplyIsSteps(log: Log, s: Sys, o: Outcome) returns (t: Sys, u: Sys)
    requires Deliverable(log, s)
    ensures u.disk.kv == Applied(s.disk.kv, s.next + 1, log[s.next].value, o)
    ensures u.next == s.next + 1 && u.phase.Idle?
    ensures if s.next + 1 <= Mark(s.disk) then Skip(log, s, t) && u == t
            else
              && (if o.stored then WriteEntry(log, s, t) else RefuseEntry(log, s, t))
              && (if o.marked then WriteMark(t, u) else LoseMark(t, u))
  {
    if s.next + 1 <= Mark(s.disk) {
      t := s.(next := s.next + 1);
      u := t;
    } else {
      t := if o.stored then s.(disk := Storing(s.disk, log[s.next].value, s.next), phase := Stored)
           else s.(disk := Past(s.disk.(refused := s.disk.refused + {s.next}), s.next + 1), phase := Refused);
      u := t.(disk := if o.marked then t.disk.(kv := Marked(t.disk.kv, t.next + 1)) else t.disk, next := t.next + 1, phase := Idle);
    }
  }

  // ------------------------------------------------------------- every run

  /** What a command leaves of its key. */
  function Left(c: Cmd<Value>): Option<Value> {
    if c.Put? then Some(c.value) else None
  }

  /** k holds what the command at at[k] left, and every later command on it before n was refused. */
  ghost predicate KeySettled(log: Log, d: Disk, n: nat, k: string) {
    && (k in d.at ==> d.at[k] < d.high && Writes(log, d.at[k], k))
    && At(App(d.kv), k) == (if k in d.at then Left(log[d.at[k]].value) else None)
    && forall p :: p < n && Writes(log, p, k) && (k in d.at ==> d.at[k] < p) ==> p in d.refused
  }

  ghost predicate Settled(log: Log, d: Disk, n: nat) {
    && n <= d.high <= |log|
    && forall k :: KeySettled(log, d, n, k)
  }

  ghost predicate Inv(log: Log, s: Sys) {
    && Settled(log, s.disk, Mark(s.disk))
    && (!s.phase.Down? ==> Settled(log, s.disk, Max(Mark(s.disk), s.next)))
    && (s.phase.Stored? || s.phase.Refused? ==>
          s.next < |log| && Settled(log, s.disk, s.next + 1) && s.next + 1 > Mark(s.disk))
    && (forall p :: p in s.snaps ==> Settled(log, p.0, Max(Mark(p.0), p.1)))
  }

  lemma WriteTwice(kv: Keys, c: Cmd<Value>)
    ensures Write(Write(kv, c), c) == Write(kv, c)
  {
  }

  lemma WriteApp(kv: Keys, c: Cmd<Value>)
    requires c.key != MARK
    ensures App(Write(kv, c)) == Write(App(kv), c) && AppliedIndex(Write(kv, c)) == AppliedIndex(kv)
  {
  }

  lemma SettledEarlier(log: Log, d: Disk, n: nat, m: nat)
    requires Settled(log, d, n) && m <= n
    ensures Settled(log, d, m)
  {
    forall k ensures KeySettled(log, d, m, k) {
      assert KeySettled(log, d, n, k);
    }
  }

  lemma WriteEntryKeeps(log: Log, s: Sys, s': Sys)
    requires Leaves(log) && Inv(log, s) && WriteEntry(log, s, s')
    ensures Inv(log, s')
  {
    var c, n, d, d' := log[s.next].value, s.next, s.disk, s'.disk;
    WriteApp(d.kv, c);
    var m := n + 1;
    forall k
      ensures KeySettled(log, d', m, k)
    {
      assert KeySettled(log, d, Max(Mark(d), n), k);
    }
    assert Settled(log, d', m);
    SettledEarlier(log, d', m, Mark(d'));
    SettledEarlier(log, d', m, Max(Mark(d'), n));
  }

  lemma RefuseKeeps(log: Log, s: Sys, s': Sys)
    requires Inv(log, s) && RefuseEntry(log, s, s')
    ensures Inv(log, s')
  {
    var n, d, d' := s.next, s.disk, s'.disk;
    var m := n + 1;
    forall k
      ensures KeySettled(log, d', m, k)
    {
      assert KeySettled(log, d, Max(Mark(d), n), k);
    }
    assert Settled(log, d', m);
    SettledEarlier(log, d', m, Mark(d'));
    SettledEarlier(log, d', m, Max(Mark(d'), n));
  }

  /** The mark, written or not. */
  lemma MarkKeeps(log: Log, s: Sys, s': Sys)
    requires Leaves(log) && Inv(log, s) && (WriteMark(s, s') || LoseMark(s, s'))
    ensures Inv(log, s')
  {
    var n, d, d' := s.next, s.disk, s'.disk;
    MarkedIndex(d.kv, n + 1);
    var m := n + 1;
    forall k
      ensures KeySettled(log, d', m, k)
    {
      assert KeySettled(log, d, m, k);
    }
    assert Settled(log, d', m);
    SettledEarlier(log, d', m, Mark(d'));
  }

  lemma InternalKeeps(log: Log, s: Sys, s': Sys)
    requires Inv(log, s) && Internal(log, s, s')
    ensures Inv(log, s')
  {
    var n, d, d' := s.next, s.disk, s'.disk;
    var m := Max(Mark(d), n + 1);
    forall k
      ensures KeySettled(log, d', m, k)
    {
      assert KeySettled(log, d, Max(Mark(d), n), k);
    }
    SettledEarlier(log, d', m, Mark(d'));
  }

  lemma OtherKeeps(log: Log, s: Sys, s': Sys)
    requires Inv(log, s)
    requires Skip(log, s, s') || Crash(s, s') || Restart(s, s') || Checkpoint(s, s') || Restore(s, s')
    ensures Inv(log, s')
  {
    if Restore(s, s') {
      SettledEarlier(log, s'.disk, Max(Mark(s'.disk), s'.next), Mark(s'.disk));
    }
  }

  lemma NextKeeps(log: Log, s: Sys, s': Sys)
    requires Leaves(log) && Inv(log, s) && Next(log, s, s')
    ensures Inv(log, s')
  {
    if WriteEntry(log, s, s') {
      WriteEntryKeeps(log, s, s');
    } else if RefuseEntry(log, s, s') {
      RefuseKeeps(log, s, s');
    } else if WriteMark(s, s') || LoseMark(s, s') {
      MarkKeeps(log, s, s');
    } else if Internal(log, s, s') {
      InternalKeeps(log, s, s');
    } else {
      OtherKeeps(log, s, s');
    }
  }

  lemma {:induction false} AlwaysInv(log: Log, run: seq<Sys>, i: nat)
    requires Leaves(log) && IsRun(log, run) && i < |run|
    ensures Inv(log, run[i])
  {
    if i == 0 {
      forall k ensures KeySettled(log, run[0].disk, 0, k) {
        assert App(map[]) == map[];
      }
    } else {
      AlwaysInv(log, run, i - 1);
      NextKeeps(log, run[i - 1], run[i]);
    }
  }

  // ------------------------------------------------ in terms of the log

  /** The last command before n on k that is not at a position in lost. */
  function LastKept(log: Log, lost: set<nat>, n: nat, k: string): (d: Option<nat>)
    requires n <= |log|
    ensures d.Some? ==> d.value < n && Writes(log, d.value, k) && d.value !in lost
  {
    if n == 0 then None
    else if log[n - 1].Some? && log[n - 1].value.key == k && n - 1 !in lost then Some(n - 1)
    else LastKept(log, lost, n - 1, k)
  }

  /** What that command leaves of k. */
  function Effect(log: Log, lost: set<nat>, n: nat, k: string): Option<Value>
    requires n <= |log|
  {
    var d := LastKept(log, lost, n, k);
    if d.None? then None else Left(log[d.value].value)
  }

  lemma {:induction false} KeptIs(log: Log, lost: set<nat>, n: nat, k: string, d: Option<nat>)
    requires n <= |log|
    requires d.Some? ==> d.value < n && Writes(log, d.value, k) && d.value !in lost
    requires forall p: nat :: p < n && Writes(log, p, k) && (d.Some? ==> d.value < p) ==> p in lost
    ensures LastKept(log, lost, n, k) == d
  {
    if n > 0 && d != Some(n - 1) {
      KeptIs(log, lost, n - 1, k, d);
    }
  }

  /** The positions refused for good: another command is what their key was last written by. */
  function Lost(log: Log, d: Disk): set<nat> {
    set p | p in d.refused && p < |log| && log[p].Some? && At(d.at, log[p].value.key) != Some(p)
  }

  /** How far along the log k is. */
  function Horizon(s: Sys, k: string): nat {
    var n := if s.phase.Down? then Mark(s.disk) else Max(Mark(s.disk), s.next);
    if k in s.disk.at then Max(n, s.disk.at[k] + 1) else n
  }

  /**
    In every state of every run each key holds what the log, less the refused
    entries, leaves of it at some position between where delivery stands and where
    it ever got to.
  */
  lemma AlwaysSettled(log: Log, run: seq<Sys>, i: nat, k: string)
    requires Leaves(log) && IsRun(log, run) && i < |run|
    ensures var s := run[i];
            var h := Horizon(s, k);
            && Mark(s.disk) <= h <= s.disk.high <= |log| && (!s.phase.Down? ==> s.next <= h)
            && At(App(s.disk.kv), k) == Effect(log, Lost(log, s.disk), h, k)
  {
    AlwaysInv(log, run, i);
    var s := run[i];
    var d := s.disk;
    var n := if s.phase.Down? then Mark(d) else Max(Mark(d), s.next);
    assert Settled(log, d, n) && KeySettled(log, d, n, k);
    KeptIs(log, Lost(log, d), Horizon(s, k), k, if k in d.at then Some(d.at[k]) else None);
  }

  /** A visible key was put, with that value, by the last command on it, refused ones apart, before its horizon. */
  lemma NeverResurrects(log: Log, run: seq<Sys>, i: nat, k: string)
    requires Leaves(log) && IsRun(log, run) && i < |run| && k in App(run[i].disk.kv)
    ensures var s := run[i];
            && Horizon(s, k) <= |log| && LastKept(log, Lost(log, s.disk), Horizon(s, k), k).Some?
            && log[LastKept(log, Lost(log, s.disk), Horizon(s, k), k).value].value == Put(k, s.disk.kv[k])
  {
    AlwaysSettled(log, run, i, k);
  }

  /** The log without the entries at the positions in lost. */
  function Blank(log: Log, lost: set<nat>): (r: Log)
    ensures |r| == |log| && forall i :: 0 <= i < |log| ==> r[i] == if i in lost then None else log[i]
  {
    seq(|log|, i requires 0 <= i < |log| => if i in lost then None else log[i])
  }

  lemma {:induction false} KeptDecides(log: Log, lost: set<nat>, n: nat, k: string)
    requires n <= |log|
    ensures At(Fold(Blank(log, lost), n), k) == Effect(log, lost, n, k)
  {
    if n > 0 {
      KeptDecides(log, lost, n - 1, k);
    }
  }

  /**
    What a refusal costs: k is as the log up to n has it exactly when the last
    command on it before n and the last kept one before its horizon leave the same.
  */
  lemma RefusedKeyIff(log: Log, run: seq<Sys>, i: nat, n: nat, k: string)
    requires Leaves(log) && IsRun(log, run) && i < |run| && n <= |log|
    ensures var s := run[i];
            && Horizon(s, k) <= |log|
            && (At(App(s.disk.kv), k) == At(Fold(log, n), k) <==>
                  Effect(log, Lost(log, s.disk), Horizon(s, k), k) == Effect(log, {}, n, k))
  {
    AlwaysSettled(log, run, i, k);
    KeptDecides(log, {}, n, k);
    assert Blank(log, {}) == log;
  }

  /** In particular a refused entry harms no key whose later command was stored. */
  lemma LaterCommandHeals(log: Log, lost: set<nat>, n: nat, k: string)
    requires n <= |log| && LastKept(log, {}, n, k).Some? && LastKept(log, {}, n, k).value !in lost
    ensures Effect(log, lost, n, k) == Effect(log, {}, n, k)
  {
    LastIsKept(log, lost, n, k);
  }

  lemma {:induction false} LastIsKept(log: Log, lost: set<nat>, n: nat, k: string)
    requires n <= |log| && LastKept(log, {}, n, k).Some? && LastKept(log, {}, n, k).value !in lost
    ensures LastKept(log, lost, n, k) == LastKept(log, {}, n, k)
  {
    if !(log[n - 1].Some? && log[n - 1].value.key == k) {
      LastIsKept(log, lost, n - 1, k);
    }
  }

  /** A refused delete: the mark says it is done, and the key is there for good. */
  lemma RefusedDelete(k: string, v: Value) returns (run: seq<Sys>)
    requires k != MARK
    ensures var log := [Some(Put(k, v)), Some(Delete(k))];
            && IsRun(log, run) && |run| == 5 && run[4].phase.Idle? && Mark(run[4].disk) == |log|
            && k in App(run[4].disk.kv) && k !in Fold(log, 2)
  {
    var log: Log := [Some(Put(k, v)), Some(Delete(k))];
    var d0 := Disk(map[], map[], {}, 0);
    var d1 := Storing(d0, Put(k, v), 0);
    var d2 := d1.(kv := Marked(d1.kv, 1));
    var d3 := Past(d2.(refused := d2.refused + {1}), 2);
    var d4 := d3.(kv := Marked(d3.kv, 2));
    MarkedIndex(d1.kv, 1);
    MarkedIndex(d3.kv, 2);
    run := [Sys(d0, 0, Idle, {}), Sys(d1, 0, Stored, {}), Sys(d2, 1, Idle, {}), Sys(d3, 1, Refused, {}), Sys(d4, 2, Idle, {})];
    assert WriteEntry(log, run[0], run[1]) && WriteMark(run[1], run[2]);
    assert RefuseEntry(log, run[2], run[3]) && WriteMark(run[3], run[4]);
    assert Fold(log, 1) == map[k := v] by { assert Fold(log, 0) == map[]; }
  }

  // -------------------------------------------------------- while marks are written

  /** No command in the positions i..n. */
  ghost predicate NoCommand(log: Log, i: int, n: int) {
    forall j :: i <= j < n && 0 <= j < |log| ==> log[j].None?
  }

  /** Position j holds the first command past the watermark. */
  ghost predicate IsPending(log: Log, d: Disk, j: nat) {
    Mark(d) <= j < |log| && log[j].Some? && NoCommand(log, Mark(d), j)
  }

  /** The keys are the log, less the lost entries, folded to the watermark, or one command further. */
  ghost predicate NearFold(log: Log, d: Disk) {
    var kept := Blank(log, Lost(log, d));
    && Mark(d) <= |log|
    && (|| App(d.kv) == Fold(kept, Mark(d))
        || exists j: nat :: IsPending(log, d, j) && App(d.kv) == Fold(kept, j + 1))
  }

  /** At most one command past the mark was ever delivered. */
  ghost predicate Tight(log: Log, d: Disk, next: nat) {
    && (forall i, j :: Mark(d) <= i < j < d.high && j < |log| ==> log[i].None? || log[j].None?)
    && NoCommand(log, Mark(d), next)
  }

  ghost predicate TightInv(log: Log, s: Sys) {
    && Tight(log, s.disk, if s.phase.Down? then 0 else s.next)
    && forall p :: p in s.snaps ==> Tight(log, p.0, p.1)
  }

  lemma TightKeeps(log: Log, s: Sys, s': Sys)
    requires Leaves(log) && Inv(log, s) && TightInv(log, s) && Marking(log, s, s')
    ensures TightInv(log, s')
  {
    if WriteMark(s, s') {
      MarkedIndex(s.disk.kv, s.next + 1);
    } else if WriteEntry(log, s, s') {
      WriteApp(s.disk.kv, log[s.next].value);
    }
  }

  lemma {:induction false} AlwaysTight(log: Log, run: seq<Sys>, i: nat)
    requires Leaves(log) && IsRun(log, run) && i < |run|
    requires forall j :: 0 <= j < i ==> Marking(log, run[j], run[j + 1])
    ensures TightInv(log, run[i])
  {
    if i > 0 {
      AlwaysTight(log, run, i - 1);
      AlwaysInv(log, run, i - 1);
      TightKeeps(log, run[i - 1], run[i]);
    }
  }

  lemma {:induction false} EffectQuiet(log: Log, lost: set<nat>, m: nat, n: nat, k: string)
    requires m <= n <= |log| && forall p: nat :: m <= p < n ==> !Writes(log, p, k)
    ensures Effect(log, lost, m, k) == Effect(log, lost, n, k)
  {
    if m < n {
      EffectQuiet(log, lost, m, n - 1, k);
      assert !Writes(log, n - 1, k);
    }
  }

  /** Where a command past the mark is stored, every key is as just after it. */
  lemma AheadKey(log: Log, s: Sys, j: nat, k: string)
    requires Inv(log, s) && TightInv(log, s) && Mark(s.disk) <= j < s.disk.high
    requires log[j].Some? && At(s.disk.at, log[j].value.key) == Some(j) && Mark(s.disk) <= Horizon(s, k) <= s.disk.high
    ensures Effect(log, Lost(log, s.disk), Horizon(s, k), k) == Effect(log, Lost(log, s.disk), j + 1, k)
  {
    var h := Horizon(s, k);
    forall p: nat | h <= p < j + 1
      ensures !Writes(log, p, k)
    {
      assert p < j ==> log[p].None?;
    }
    if h <= j + 1 {
      EffectQuiet(log, Lost(log, s.disk), h, j + 1, k);
    } else {
      EffectQuiet(log, Lost(log, s.disk), j + 1, h, k);
    }
  }

  /** Where none is, every key is as at the mark. */
  lemma MarkKey(log: Log, s: Sys, k: string)
    requires Inv(log, s) && TightInv(log, s) && Mark(s.disk) <= Horizon(s, k) <= s.disk.high
    requires k in s.disk.at ==> s.disk.at[k] < Mark(s.disk)
    ensures Effect(log, Lost(log, s.disk), Horizon(s, k), k) == Effect(log, Lost(log, s.disk), Mark(s.disk), k)
  {
    EffectQuiet(log, Lost(log, s.disk), Mark(s.disk), Horizon(s, k), k);
  }

  /** Until the first mark is lost, the keys are a fold of the log, at most one command past the mark. */
  lemma AlwaysNearFold(log: Log, run: seq<Sys>, i: nat)
    requires Leaves(log) && IsRun(log, run) && i < |run|
    requires forall j :: 0 <= j < i ==> Marking(log, run[j], run[j + 1])
    ensures NearFold(log, run[i].disk)
    ensures run[i].disk.refused == {} ==> Blank(log, Lost(log, run[i].disk)) == log
  {
    AlwaysTight(log, run, i);
    AlwaysInv(log, run, i);
    var s := run[i];
    var d := s.disk;
    var kept := Blank(log, Lost(log, d));
    if j: nat :| Mark(d) <= j < d.high && log[j].Some? && At(d.at, log[j].value.key) == Some(j) {
      forall k ensures At(App(d.kv), k) == At(Fold(kept, j + 1), k) {
        AlwaysSettled(log, run, i, k);
        AheadKey(log, s, j, k);
        KeptDecides(log, Lost(log, d), j + 1, k);
      }
      SameRecords(App(d.kv), Fold(kept, j + 1));
      assert IsPending(log, d, j);
    } else {
      forall k ensures At(App(d.kv), k) == At(Fold(kept, Mark(d)), k) {
        AlwaysSettled(log, run, i, k);
        assert KeySettled(log, d, Mark(d), k);
        MarkKey(log, s, k);
        KeptDecides(log, Lost(log, d), Mark(d), k);
      }
      SameRecords(App(d.kv), Fold(kept, Mark(d)));
    }
  }

  // ---------------------------------------------------------- when marks are lost

  lemma {:induction false} ReplayedKeys(log: Log, m: nat, j: nat, kv: Keys, ks: set<string>)
    requires m <= j <= |log| && kv.Keys <= ks
    requires forall i :: m <= i < j && log[i].Some? && log[i].value.Put? ==> log[i].value.key in ks
    ensures Replayed(log, m, j, kv).Keys <= ks
  {
    if m < j {
      ReplayedKeys(log, m, j - 1, kv, ks);
    }
  }

  /** Replay of m..j shows no key that was gone. */
  ghost predicate ShowsNone(log: Log, m: nat, j: nat, kv: Keys)
    requires m <= j <= |log|
  {
    Replayed(log, m, j, kv).Keys <= kv.Keys
  }

  /**
    What a lost mark costs on the way: replay from m, over a store that is as far
    as n, never shows a key that was gone exactly when every key put in between is
    there at n.
  */
  lemma ReplayShowsIff(log: Log, m: nat, n: nat)
    requires m <= n <= |log|
    ensures (forall j: nat :: m <= j <= n ==> ShowsNone(log, m, j, Fold(log, n))) <==>
            (forall i :: m <= i < n && log[i].Some? && log[i].value.Put? ==> log[i].value.key in Fold(log, n))
  {
    var kv := Fold(log, n);
    if forall i :: m <= i < n && log[i].Some? && log[i].value.Put? ==> log[i].value.key in kv {
      forall j: nat | m <= j <= n ensures ShowsNone(log, m, j, kv) {
        ReplayedKeys(log, m, j, kv, kv.Keys);
      }
    } else {
      var i: nat :| m <= i < n && log[i].Some? && log[i].value.Put? && log[i].value.key !in kv;
      assert log[i].value.key in Replayed(log, m, i + 1, kv).Keys;
      assert !ShowsNone(log, m, i + 1, kv);
    }
  }

  /** Once replay is as far as delivery ever was, the keys are the fold of the log, whatever was lost before. */
  lemma CaughtUp(log: Log, run: seq<Sys>, i: nat)
    requires Leaves(log) && IsRun(log, run) && i < |run| && run[i].phase.Idle? && run[i].next == run[i].disk.high
    ensures var d := run[i].disk;
            d.high <= |log| && App(d.kv) == Fold(Blank(log, Lost(log, d)), d.high)
  {
    var d := run[i].disk;
    AlwaysSettled(log, run, i, "");
    forall k ensures At(App(d.kv), k) == At(Fold(Blank(log, Lost(log, d)), d.high), k) {
      AlwaysSettled(log, run, i, k);
      KeptDecides(log, Lost(log, d), d.high, k);
    }
    SameRecords(App(d.kv), Fold(Blank(log, Lost(log, d)), d.high));
  }

  /** Two marks lost, a crash, and the replay of the first entry: a key that was deleted is back. */
  lemma LostMarksResurrect(k: string, v: Value) returns (run: seq<Sys>)
    requires k != MARK
    ensures var log := [Some(Put(k, v)), Some(Delete(k))];
            && IsRun(log, run) && |run| == 8 && run[4].disk.high == |log|
            && k !in App(run[4].disk.kv) && k !in Fold(log, 2) && k in App(run[7].disk.kv)
  {
    var log: Log := [Some(Put(k, v)), Some(Delete(k))];
    var d0 := Disk(map[], map[], {}, 0);
    var d1 := Storing(d0, Put(k, v), 0);
    var d2 := Storing(d1, Delete(k), 1);
    var d3 := Storing(d2, Put(k, v), 0);
    run := [Sys(d0, 0, Idle, {}), Sys(d1, 0, Stored, {}), Sys(d1, 1, Idle, {}), Sys(d2, 1, Stored, {}),
            Sys(d2, 2, Idle, {}), Sys(d2, 2, Down, {}), Sys(d2, 0, Idle, {}), Sys(d3, 0, Stored, {})];
    assert WriteEntry(log, run[0], run[1]) && LoseMark(run[1], run[2]) && WriteEntry(log, run[2], run[3]);
    assert LoseMark(run[3], run[4]) && Crash(run[4], run[5]) && Restart(run[5], run[6]) && WriteEntry(log, run[6], run[7]);
    assert Fold(log, 1) == map[k := v] by { assert Fold(log, 0) == map[]; }
  }

  /**
    A lost mark costs nothing in the end: replaying from any earlier position i
    over a store that already holds position j gives the fold of the log.
  */
  lemma {:induction false} ReplayConverges(log: Log, i: nat, j: nat, n: nat)
    requires i <= j <= n <= |log|
    ensures Replayed(log, i, n, Fold(log, j)) == Fold(log, n)
  {
    var a, b := Replayed(log, i, n, Fold(log, j)), Fold(log, n);
    forall k
      ensures (k in a <==> k in b) && (k in a ==> a[k] == b[k])
    {
      if d :| i <= d && LastWriter(log, d, n, k) {
        LastWriterDecides(log, i, n, d, k, Fold(log, j));
        LastWriterDecides(log, 0, n, d, k, map[]);
        FoldIsReplay(log, n);
      } else {
        NoWriter(log, i, n, k);
        UntouchedKey(log, i, n, k, Fold(log, j));
        UntouchedKey(log, j, n, k, Fold(log, j));
        ReplayFold(log, j, n);
      }
    }
  }

  lemma {:induction false} FoldIsReplay(log: Log, n: nat)
    requires n <= |log|
    ensures Fold(log, n) == Replayed(log, 0, n, map[])
  {
    if n > 0 {
      FoldIsReplay(log, n - 1);
    }
  }

  lemma {:induction false} ReplayFold(log: Log, j: nat, n: nat)
    requires j <= n <= |log|
    ensures Replayed(log, j, n, Fold(log, j)) == Fold(log, n)
  {
    if j < n {
      ReplayFold(log, j, n - 1);
    }
  }

  lemma {:induction false} LastWriterDecides(log: Log, i: nat, n: nat, d: nat, k: string, kv: Keys)
    requires i <= n <= |log| && i <= d && LastWriter(log, d, n, k)
    ensures var r := Replayed(log, i, n, kv);
            && (k in r <==> log[d].value.Put?)
            && (k in r ==> r[k] == log[d].value.value)
  {
    if d < n - 1 {
      LastWriterDecides(log, i, n - 1, d, k, kv);
      assert !Writes(log, n - 1, k);
    }
  }

  lemma {:induction false} NoWriter(log: Log, i: nat, n: nat, k: string)
    requires i <= n <= |log| && !exists d :: i <= d && LastWriter(log, d, n, k)
    ensures forall j :: i <= j < n ==> !Writes(log, j, k)
  {
    if i < n {
      assert Writes(log, n - 1, k) ==> LastWriter(log, n - 1, n, k);
      assert !Writes(log, n - 1, k);
      var m := n - 1;
      if d :| i <= d && LastWriter(log, d, m, k) {
        assert LastWriter(log, d, n, k);
      } else {
        NoWriter(log, i, m, k);
      }
    }
  }

  lemma {:induction false} UntouchedKey(log: Log, i: nat, n: nat, k: string, kv: Keys)
    requires i <= n <= |log| && forall j :: i <= j < n ==> !Writes(log, j, k)
    ensures var r := Replayed(log, i, n, kv); (k in r <==> k in kv) && (k in r ==> r[k] == kv[k])
  {
    if i < n {
      UntouchedKey(log, i, n - 1, k, kv);
      assert !Writes(log, n - 1, k);
    }
  }
}
