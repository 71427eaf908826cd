/**
  The background mail indexer.  Raft's apply goroutine writes Pebble and queues
  the command; a worker takes commands off the queue and updates the SQLite
  rows.  One atomic counter covers both, so that WaitIdle can tell a drained
  indexer from a busy one.

  The two goroutines are one state machine over their atomic steps.
*/
module IndexQueue {

  import KeyKinds
  import opened Commands
  import opened Wrappers

  type Value = seq<int>

  datatype Row = Row(subject: string, from: string, receivedAt: int, size: int)

  /** How a stored MailMeta decodes; None for bytes that do not parse. */
  type Decoder = Value -> Option<Row>

  const QUEUE_DEPTH := 4096

  /**
    How keys and values are read.  The results hold for every classification of
    keys; FsmEnv is the one the FSM uses.
  */
  datatype Env = Env(isMail: string -> bool, deferrable: string -> bool, decode: Decoder)

  function FsmEnv(decode: Decoder): Env { Env(KeyKinds.IsMail, KeyKinds.Deferrable, decode) }

  // ---------------------------------------------------------- store and index

  type Store = map<string, Value>

  type Index = map<string, Row>

  /** indexStoreObject: an unreadable record is logged and its old row stays. */
  function IndexCmd(idx: Index, c: Cmd<Value>, env: Env): Index {
    if !env.isMail(c.key) then idx
    else match c
      case Delete(k) => idx - {k}
      case Put(k, v) => if env.decode(v).None? then idx else idx[k := env.decode(v).value]
  }

  function IndexAll(cs: seq<Cmd<Value>>, idx: Index, env: Env): Index {
    if cs == [] then idx else IndexAll(cs[1..], IndexCmd(idx, cs[0], env), env)
  }

  /** The rows the stored mail records call for. */
  function Projection(store: Store, env: Env): Index {
    map k | k in store && env.isMail(k) && env.decode(store[k]).Some? :: env.decode(store[k]).value
  }

  predicate Readable(c: Cmd<Value>, env: Env) {
    c.Put? && env.isMail(c.key) ==> env.decode(c.value).Some?
  }

  /** One command keeps index and store in step unless it is unreadable and covers a row. */
  lemma StepKeepsProjectionIff(store: Store, c: Cmd<Value>, env: Env)
    ensures IndexCmd(Projection(store, env), c, env) == Projection(Write(store, c), env)
       <==> Readable(c, env) || c.key !in Projection(store, env)
  {
    var before, after := IndexCmd(Projection(store, env), c, env), Projection(Write(store, c), env);
    assert forall k :: k != c.key ==> (k in before <==> k in after) && (k in before ==> before[k] == after[k]);
    if Readable(c, env) || c.key !in Projection(store, env) {
      assert c.key in before <==> c.key in after;
      assert c.key in before ==> before[c.key] == after[c.key];
    } else {
      assert c.key in before && c.key !in after;
    }
  }

  // ---------------------------------------------------------------- commuting

  lemma {:induction false} IndexAllAppend(cs: seq<Cmd<Value>>, c: Cmd<Value>, idx: Index, env: Env)
    ensures IndexAll(cs + [c], idx, env) == IndexCmd(IndexAll(cs, idx, env), c, env)
  {
    if cs == [] {
      assert [] + [c] == [c] && [c][1..] == [];
    } else {
      assert (cs + [c])[0] == cs[0] && (cs + [c])[1..] == cs[1..] + [c];
      IndexAllAppend(cs[1..], c, IndexCmd(idx, cs[0], env), env);
    }
  }

  ghost predicate SameAt(a: Index, b: Index, k: string) {
    (k in a <==> k in b) && (k in a && k in b ==> a[k] == b[k])
  }

  /** The last command in cs that decides k's row: an unreadable one decides nothing. */
  function LastOn(cs: seq<Cmd<Value>>, k: string, env: Env): (r: Option<Cmd<Value>>)
    ensures r.Some? ==> r.value in cs && r.value.key == k && Readable(r.value, env)
  {
    if cs == [] then None
    else if cs[|cs| - 1].key == k && Readable(cs[|cs| - 1], env) then Some(cs[|cs| - 1])
    else LastOn(cs[..|cs| - 1], k, env)
  }

  predicate SameRow(a: Cmd<Value>, b: Cmd<Value>, env: Env) {
    match (a, b)
    case (Delete(_), Delete(_)) => true
    case (Put(_, v), Put(_, w)) => env.decode(v) == env.decode(w)
    case _ => false
  }

  /** The index at one key, after cs: decided by the last command that decides it. */
  lemma {:induction false} IndexAllAt(cs: seq<Cmd<Value>>, idx: Index, env: Env, k: string)
    ensures match LastOn(cs, k, env)
            case None => SameAt(IndexAll(cs, idx, env), idx, k)
            case Some(c) => SameAt(IndexAll(cs, idx, env), IndexCmd(idx, c, env), k)
  {
    if cs != [] {
      var init, c := cs[..|cs| - 1], cs[|cs| - 1];
      assert cs == init + [c];
      IndexAllAppend(init, c, idx, env);
      IndexAllAt(init, idx, env, k);
    }
  }

  /** c may go ahead of the commands waiting: none of them decides its row, or the last leaves the same. */
  predicate Harmless(waiting: seq<Cmd<Value>>, c: Cmd<Value>, env: Env) {
    || !env.isMail(c.key) || !Readable(c, env)
    || LastOn(waiting, c.key, env).None? || SameRow(LastOn(waiting, c.key, env).value, c, env)
  }

  /** At one key, once all are done. */
  lemma JumpQueueAt(waiting: seq<Cmd<Value>>, c: Cmd<Value>, idx: Index, env: Env, k: string)
    ensures SameAt(IndexAll(waiting, IndexCmd(idx, c, env), env), IndexAll(waiting + [c], idx, env), k)
       <==> k != c.key || Harmless(waiting, c, env)
    ensures k == c.key && !Harmless(waiting, c, env) ==>
              (k in IndexAll(waiting, IndexCmd(idx, c, env), env) <==> LastOn(waiting, k, env).value.Put?)
  {
    IndexAllAppend(waiting, c, idx, env);
    IndexAllAt(waiting, IndexCmd(idx, c, env), env, k);
    IndexAllAt(waiting, idx, env, k);
  }

  /**
    Indexing c ahead of the commands already waiting gives the right index once
    they are done, exactly when that is harmless.
  */
  lemma JumpQueueIff(waiting: seq<Cmd<Value>>, c: Cmd<Value>, idx: Index, env: Env)
    ensures IndexAll(waiting, IndexCmd(idx, c, env), env) == IndexAll(waiting + [c], idx, env)
       <==> Harmless(waiting, c, env)
  {
    var early, late := IndexAll(waiting, IndexCmd(idx, c, env), env), IndexAll(waiting + [c], idx, env);
    forall k
      ensures SameAt(early, late, k) <==> k != c.key || Harmless(waiting, c, env)
    {
      JumpQueueAt(waiting, c, idx, env, k);
    }
    SameEverywhere(early, late);
    assert SameAt(early, late, c.key) <==> Harmless(waiting, c, env);
  }

  lemma SameEverywhere(a: Index, b: Index)
    ensures a == b <==> forall k :: SameAt(a, b, k)
  {
    if forall k :: SameAt(a, b, k) {
      assert forall k :: k in a ==> SameAt(a, b, k);
      assert forall k :: k in b ==> SameAt(a, b, k);
    }
  }

  /** An unreadable record over a row: the row stays though the record is not mail any more. */
  lemma StaleRowStays(k: string, v: Value, w: Value, env: Env)
    requires env.isMail(k) && env.decode(v).Some? && env.decode(w).None?
    ensures var store := map[k := v];
            && IndexCmd(Projection(store, env), Put(k, w), env) == map[k := env.decode(v).value]
            && Projection(Write(store, Put(k, w)), env) == map[]
  {
    assert k in Projection(map[k := v], env);
  }

  /** A delete indexed ahead of the put it follows: the row comes back. */
  lemma OvertakenPutReturns(k: string, v: Value, env: Env)
    requires env.isMail(k) && env.decode(v).Some?
    ensures !Harmless([Put(k, v)], Delete(k), env)
    ensures k in IndexAll([Put(k, v)], IndexCmd(map[], Delete(k), env), env)
    ensures k !in IndexAll([Put(k, v)] + [Delete(k)], map[], env)
  {
    IndexAllAppend([Put(k, v)], Delete(k), map[], env);
    assert [Put(k, v)][1..] == [];
  }

  lemma {:induction false} LastOnNone(cs: seq<Cmd<Value>>, k: string, env: Env)
    requires forall c :: c in cs ==> c.key != k
    ensures LastOn(cs, k, env).None?
  {
  }

  // -------------------------------------------------------------- the machine

  /** Where the apply goroutine is. */
  datatype Applier =
    | Resting
    | Begun(c: Cmd<Value>)     // counted, nothing written
    | Wrote(c: Cmd<Value>)     // the Pebble write is visible
    | Reserved(c: Cmd<Value>)  // counted a second time, about to send
    | Full(c: Cmd<Value>)      // the send found no room
    | Done              // about to drop its own count

  datatype Worker = Absent | Waiting | Busy(c: Cmd<Value>) | Indexed | Stopped

  /**
    ideal is the index that in-order indexing would have built.  Two records of
    the past: stale holds the keys whose row an unreadable record covers, wrong
    the keys that a harmful overtake left off, and whether with a row; a later
    readable command clears both.
  */
  datatype Sys = Sys(store: Store, idx: Index, inflight: int, queue: seq<Cmd<Value>>,
                     applier: Applier, worker: Worker, ideal: Index, stale: set<string>, wrong: map<string, bool>)

  function Stale(stale: set<string>, ideal: Index, c: Cmd<Value>, env: Env): set<string> {
    if !env.isMail(c.key) then stale
    else if Readable(c, env) then stale - {c.key}
    else if c.key in ideal then stale + {c.key}
    else stale
  }

  function Wrong(wrong: map<string, bool>, c: Cmd<Value>, env: Env): map<string, bool> {
    if env.isMail(c.key) && Readable(c, env) then wrong - {c.key} else wrong
  }

  ghost predicate Init(s: Sys) {
    s == Sys(map[], map[], 0, [], Resting, Absent, map[], {}, map[])
  }

  /** The commands already in Pebble and not yet in the index, oldest first. */
  function Outstanding(s: Sys): seq<Cmd<Value>> {
    (if s.worker.Busy? then [s.worker.c] else [])
    + s.queue
    + (if s.applier.Wrote? || s.applier.Reserved? || s.applier.Full? then [s.applier.c] else [])
  }

  function Queued(s: Sys): seq<Cmd<Value>> {
    (if s.worker.Busy? then [s.worker.c] else []) + s.queue
  }

  ghost predicate Begin(s: Sys, s': Sys, c: Cmd<Value>) {
    s.applier.Resting? && s' == s.(applier := Begun(c), inflight := s.inflight + 1)
  }

  ghost predicate WriteStore(s: Sys, s': Sys, env: Env) {
    && s.applier.Begun?
    && s' == s.(applier := Wrote(s.applier.c), store := Write(s.store, s.applier.c),
                ideal := IndexCmd(s.ideal, s.applier.c, env),
                stale := Stale(s.stale, s.ideal, s.applier.c, env), wrong := Wrong(s.wrong, s.applier.c, env))
  }

  /** The store refuses the command: nothing is indexed. */
  ghost predicate RefuseStore(s: Sys, s': Sys) {
    s.applier.Begun? && s' == s.(applier := Done)
  }

  ghost predicate Inline(s: Sys, s': Sys, env: Env) {
    && s.applier.Wrote? && (s.worker.Absent? || !env.deferrable(s.applier.c.key))
    && s' == s.(applier := Done, idx := IndexCmd(s.idx, s.applier.c, env))
  }

  ghost predicate Reserve(s: Sys, s': Sys, env: Env) {
    && s.applier.Wrote? && !s.worker.Absent? && env.deferrable(s.applier.c.key)
    && s' == s.(applier := Reserved(s.applier.c), inflight := s.inflight + 1)
  }

  ghost predicate Send(s: Sys, s': Sys) {
    && s.applier.Reserved? && |s.queue| < QUEUE_DEPTH
    && s' == s.(applier := Done, queue := s.queue + [s.applier.c])
  }

  ghost predicate NoRoom(s: Sys, s': Sys) {
    && s.applier.Reserved? && |s.queue| >= QUEUE_DEPTH
    && s' == s.(applier := Full(s.applier.c), inflight := s.inflight - 1)
  }

  ghost predicate InlineFull(s: Sys, s': Sys, env: Env) {
    && s.applier.Full?
    && s' == s.(applier := Done, idx := IndexCmd(s.idx, s.applier.c, env),
                wrong := if Harmless(Queued(s), s.applier.c, env) then s.wrong
                         else s.wrong[s.applier.c.key := LastOn(Queued(s), s.applier.c.key, env).value.Put?])
  }

  ghost predicate End(s: Sys, s': Sys) {
    s.applier.Done? && s' == s.(applier := Resting, inflight := s.inflight - 1)
  }

  ghost predicate StartIndexer(s: Sys, s': Sys) {
    s.worker.Absent? && s' == s.(worker := Waiting)
  }

  ghost predicate Take(s: Sys, s': Sys) {
    s.worker.Waiting? && s.queue != [] && s' == s.(worker := Busy(s.queue[0]), queue := s.queue[1..])
  }

  ghost predicate WorkerIndex(s: Sys, s': Sys, env: Env) {
    s.worker.Busy? && s' == s.(worker := Indexed, idx := IndexCmd(s.idx, s.worker.c, env))
  }

  ghost predicate Release(s: Sys, s': Sys) {
    s.worker.Indexed? && s' == s.(worker := Waiting, inflight := s.inflight - 1)
  }

  /** Shutdown: the drain loop leaves only when the queue is empty. */
  ghost predicate Stop(s: Sys, s': Sys) {
    s.worker.Waiting? && s.queue == [] && s' == s.(worker := Stopped)
  }

  /** The steps that touch only the counter and the two program counters. */
  ghost predicate Counting(s: Sys, s': Sys, env: Env) {
    || (exists c :: Begin(s, s', c)) || RefuseStore(s, s') || Reserve(s, s', env) || NoRoom(s, s') || End(s, s')
    || StartIndexer(s, s') || Release(s, s') || Stop(s, s')
  }

  ghost predicate Next(s: Sys, s': Sys, env: Env) {
    || WriteStore(s, s', env) || Inline(s, s', env) || InlineFull(s, s', env)
    || Send(s, s') || Take(s, s') || WorkerIndex(s, s', env)
    || Counting(s, s', env)
  }

  ghost predicate IsRun(run: seq<Sys>, env: Env) {
    && run != [] && Init(run[0])
    && forall i :: 0 <= i < |run| - 1 ==> Next(run[i], run[i + 1], env)
  }

  // --------------------------------------------------------------- invariants

  function ApplierCount(a: Applier): int {
    match a
    case Resting => 0
    case Reserved(_) => 2
    case _ => 1
  }

  function WorkerCount(w: Worker): int {
    if w.Busy? || w.Indexed? then 1 else 0
  }

  /** The counter is the applies in progress, the queue and the item in hand. */
  ghost predicate Counted(s: Sys) {
    s.inflight == ApplierCount(s.applier) + |s.queue| + WorkerCount(s.worker)
  }

  ghost predicate Typed(s: Sys, env: Env) {
    && (s.worker.Absent? ==> s.queue == [] && !s.applier.Reserved? && !s.applier.Full?)
    && (forall c :: c in Queued(s) ==> env.deferrable(c.key))
    && (s.applier.Reserved? ==> env.deferrable(s.applier.c.key))
  }

  /** r, the index once all is done, differs from ideal at k exactly as wrong says. */
  ghost predicate Off(r: Index, ideal: Index, wrong: map<string, bool>, k: string) {
    (SameAt(r, ideal, k) <==> k !in wrong) && (k in wrong ==> (k in r <==> wrong[k]))
  }

  ghost predicate InStep(s: Sys, env: Env) {
    && (forall k :: k in s.stale ==> env.isMail(k) && k in s.ideal && k !in Projection(s.store, env))
    && (forall k :: k !in s.stale ==> SameAt(s.ideal, Projection(s.store, env), k))
    && (forall k :: Off(IndexAll(Outstanding(s), s.idx, env), s.ideal, s.wrong, k))
    && (s.applier.Wrote? || s.applier.Reserved? || s.applier.Full? ==> Wrong(s.wrong, s.applier.c, env) == s.wrong)
  }

  ghost predicate Inv(s: Sys, env: Env) {
    Counted(s) && Typed(s, env) && InStep(s, env)
  }

  /** A row falls behind its record exactly when the record is unreadable and the row is there. */
  lemma StaleStep(ideal: Index, store: Store, stale: set<string>, c: Cmd<Value>, env: Env, k: string)
    requires k in stale ==> env.isMail(k) && k in ideal && k !in Projection(store, env)
    requires k !in stale ==> SameAt(ideal, Projection(store, env), k)
    ensures var ideal', store', stale' := IndexCmd(ideal, c, env), Write(store, c), Stale(stale, ideal, c, env);
            if k in stale' then env.isMail(k) && k in ideal' && k !in Projection(store', env)
            else SameAt(ideal', Projection(store', env), k)
  {
  }

  lemma WriteStoreKeeps(s: Sys, s': Sys, env: Env)
    requires Inv(s, env) && WriteStore(s, s', env)
    ensures Inv(s', env)
  {
    var c := s.applier.c;
    assert Outstanding(s) == Queued(s) && Outstanding(s') == Queued(s) + [c];
    var r := IndexAll(Queued(s), s.idx, env);
    IndexAllAppend(Queued(s), c, s.idx, env);
    forall k
      ensures if k in s'.stale then env.isMail(k) && k in s'.ideal && k !in Projection(s'.store, env)
              else SameAt(s'.ideal, Projection(s'.store, env), k)
      ensures Off(IndexAll(Outstanding(s'), s'.idx, env), s'.ideal, s'.wrong, k)
    {
      StaleStep(s.ideal, s.store, s.stale, c, env, k);
      assert Off(r, s.ideal, s.wrong, k);
      WrongStep(r, s.ideal, s.wrong, c, env, k);
    }
  }

  /** A readable command settles its key; any other leaves things as they are. */
  lemma WrongStep(r: Index, ideal: Index, wrong: map<string, bool>, c: Cmd<Value>, env: Env, k: string)
    requires Off(r, ideal, wrong, k)
    ensures Off(IndexCmd(r, c, env), IndexCmd(ideal, c, env), Wrong(wrong, c, env), k)
  {
  }

  lemma InlineKeeps(s: Sys, s': Sys, env: Env)
    requires Inv(s, env) && (Inline(s, s', env) || InlineFull(s, s', env))
    ensures Inv(s', env)
  {
    var c := s.applier.c;
    assert Outstanding(s) == Queued(s) + [c] && Outstanding(s') == Queued(s) == Queued(s');
    if Inline(s, s', env) {
      LastOnNone(Queued(s), c.key, env);
    }
    forall k
      ensures Off(IndexAll(Outstanding(s'), s'.idx, env), s'.ideal, s'.wrong, k)
    {
      assert Off(IndexAll(Outstanding(s), s.idx, env), s.ideal, s.wrong, k);
      JumpQueueAt(Queued(s), c, s.idx, env, k);
    }
  }

  lemma QueueKeeps(s: Sys, s': Sys, env: Env)
    requires Inv(s, env) && (Send(s, s') || Take(s, s'))
    ensures Inv(s', env)
  {
    if Send(s, s') {
      assert Queued(s') == Queued(s) + [s.applier.c];
    } else {
      assert s.queue == [s.queue[0]] + s.queue[1..];
      assert Queued(s') == Queued(s);
    }
    assert Outstanding(s') == Outstanding(s);
  }

  lemma WorkerIndexKeeps(s: Sys, s': Sys, env: Env)
    requires Inv(s, env) && WorkerIndex(s, s', env)
    ensures Inv(s', env)
  {
    assert Outstanding(s)[0] == s.worker.c && Outstanding(s)[1..] == Outstanding(s');
    assert Queued(s)[1..] == Queued(s');
    assert IndexAll(Outstanding(s'), s'.idx, env) == IndexAll(Outstanding(s), s.idx, env);
  }

  lemma ApplierCountingKeeps(s: Sys, s': Sys, env: Env)
    requires Inv(s, env)
    requires RefuseStore(s, s') || Reserve(s, s', env) || NoRoom(s, s') || End(s, s')
    ensures Inv(s', env)
  {
    assert Queued(s') == Queued(s);
    assert Outstanding(s') == Outstanding(s);
  }

  lemma BeginKeeps(s: Sys, s': Sys, c: Cmd<Value>, env: Env)
    requires Inv(s, env) && Begin(s, s', c)
    ensures Inv(s', env)
  {
    assert Queued(s') == Queued(s);
    assert Outstanding(s') == Outstanding(s);
  }

  lemma WorkerCountingKeeps(s: Sys, s': Sys, env: Env)
    requires Inv(s, env)
    requires StartIndexer(s, s') || Release(s, s') || Stop(s, s')
    ensures Inv(s', env)
  {
    assert Queued(s') == Queued(s);
    assert Outstanding(s') == Outstanding(s);
  }

  lemma NextKeeps(s: Sys, s': Sys, env: Env)
    requires Inv(s, env) && Next(s, s', env)
    ensures Inv(s', env)
  {
    if WriteStore(s, s', env) {
      WriteStoreKeeps(s, s', env);
    } else if Inline(s, s', env) || InlineFull(s, s', env) {
      InlineKeeps(s, s', env);
    } else if Send(s, s') || Take(s, s') {
      QueueKeeps(s, s', env);
    } else if WorkerIndex(s, s', env) {
      WorkerIndexKeeps(s, s', env);
    } else if StartIndexer(s, s') || Release(s, s') || Stop(s, s') {
      WorkerCountingKeeps(s, s', env);
    } else if c :| Begin(s, s', c) {
      BeginKeeps(s, s', c, env);
    } else {
      ApplierCountingKeeps(s, s', env);
    }
  }

  lemma {:induction false} AlwaysInv(run: seq<Sys>, i: nat, env: Env)
    requires IsRun(run, env) && i < |run|
    ensures Inv(run[i], env)
  {
    if i > 0 {
      AlwaysInv(run, i - 1, env);
      NextKeeps(run[i - 1], run[i], env);
    }
  }

  /** In every run the counter counts, and zero means nothing is under way. */
  lemma CounterCounts(run: seq<Sys>, i: nat, env: Env)
    requires IsRun(run, env) && i < |run|
    ensures run[i].inflight == ApplierCount(run[i].applier) + |run[i].queue| + WorkerCount(run[i].worker)
    ensures run[i].inflight == 0 ==> run[i].applier.Resting? && Outstanding(run[i]) == []
  {
    AlwaysInv(run, i, env);
  }

  /**
    At a zero counter the row of k is right exactly when no unreadable record and
    no harmful overtake stands against it, or both do and they cancel out: the
    record calls for no row, and the overtake left none.
  */
  lemma IdleRow(run: seq<Sys>, i: nat, env: Env, k: string)
    requires IsRun(run, env) && i < |run| && run[i].inflight == 0
    ensures var s := run[i];
            SameAt(s.idx, Projection(s.store, env), k) <==>
              if k in s.stale then k in s.wrong && !s.wrong[k] else k !in s.wrong
  {
    AlwaysInv(run, i, env);
    CounterCounts(run, i, env);
    var s := run[i];
    assert IndexAll(Outstanding(s), s.idx, env) == s.idx;
    assert Off(s.idx, s.ideal, s.wrong, k);
    assert k !in s.stale ==> SameAt(s.ideal, Projection(s.store, env), k);
  }

  /** So a zero counter means that the rows are exactly those of the stored mail, if nothing stands against any. */
  lemma IdleMeansIndexed(run: seq<Sys>, i: nat, env: Env)
    requires IsRun(run, env) && i < |run| && run[i].inflight == 0
    ensures var s := run[i];
            s.idx == Projection(s.store, env) <==>
              s.stale == s.wrong.Keys && forall k :: k in s.wrong ==> !s.wrong[k]
  {
    var s := run[i];
    forall k
      ensures SameAt(s.idx, Projection(s.store, env), k) <==>
                if k in s.stale then k in s.wrong && !s.wrong[k] else k !in s.wrong
    {
      IdleRow(run, i, env, k);
    }
    SameEverywhere(s.idx, Projection(s.store, env));
  }

  /** Up to state i the queue always had room and every command could be read. */
  ghost predicate Plain(run: seq<Sys>, i: nat, env: Env)
    requires i < |run|
  {
    forall j :: 0 <= j < i ==> !NoRoom(run[j], run[j + 1]) && forall c :: Begin(run[j], run[j + 1], c) ==> Readable(c, env)
  }

  lemma {:induction false} PlainRun(run: seq<Sys>, i: nat, env: Env)
    requires IsRun(run, env) && i < |run| && Plain(run, i, env)
    ensures run[i].stale == {} && run[i].wrong == map[] && !run[i].applier.Full?
    ensures run[i].applier.Begun? ==> Readable(run[i].applier.c, env)
  {
    if i > 0 {
      PlainRun(run, i - 1, env);
      assert Next(run[i - 1], run[i], env);
    }
  }

  /** Then a zero counter means that the index is exactly the projection of the stored mail. */
  lemma PlainIdle(run: seq<Sys>, i: nat, env: Env)
    requires IsRun(run, env) && i < |run| && Plain(run, i, env) && run[i].inflight == 0
    ensures run[i].idx == Projection(run[i].store, env)
  {
    PlainRun(run, i, env);
    IdleMeansIndexed(run, i, env);
  }

  /**
    In the FSM's own terms: with a zero counter and nothing against it, a message
    has a row exactly when its record is stored and readable, with that content.
  */
  lemma MessageRow(run: seq<Sys>, i: nat, decode: Decoder, id: string, guid: string)
    requires IsRun(run, FsmEnv(decode)) && i < |run| && run[i].inflight == 0 && '/' !in id
    requires KeyKinds.MailKey(id, guid) !in run[i].stale && KeyKinds.MailKey(id, guid) !in run[i].wrong
    ensures var s, k := run[i], KeyKinds.MailKey(id, guid);
            && (k in s.idx <==> k in s.store && decode(s.store[k]).Some?)
            && (k in s.idx ==> s.idx[k] == decode(s.store[k]).value)
  {
    var s, k := run[i], KeyKinds.MailKey(id, guid);
    KeyKinds.MailKeyIff(k);
    IdleRow(run, i, FsmEnv(decode), k);
    assert SameAt(s.idx, Projection(s.store, FsmEnv(decode)), k);
  }
}
