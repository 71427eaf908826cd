/**
  The blob collector against its writers.  A writer puts a blob, which refreshes
  the modification time of a blob that is already there, and commits a reference
  to it later; until then only the blob's age protects it.  The sweep scans,
  plans with a cutoff of minAge before now, scans again, and deletes what is
  still not newer than the cutoff.

  A run interleaves all of it.  References live in several sources and move
  between them; the second scan reads the sources one after the other, and what
  it misses is up to the moves.  Of the first scan it matters only that it does
  not miss a reference that stays where it is.
*/
module BlobGc {

  import SweepLoop

  type Hash = string

  /**
    minAge is the grace period; a writer commits or gives up in less than
    patience.  A put reads the time before it takes the lock, so the stamp may be
    up to lag old when it lands, and older than the one it replaces.  With back,
    references may be copied or moved into a source the second scan has read.
  */
  datatype Config = Config(minAge: int, patience: int, lag: nat, back: bool)

  predicate Prompt(cfg: Config) { 0 < cfg.patience && cfg.patience + cfg.lag <= cfg.minAge }

  /** When each blob of one in-flight message was put. */
  type Writer = map<Hash, int>

  /** The committed references in each source. */
  type Refs = seq<multiset<Hash>>

  /**
    live: referenced since the first scan began, by references that stayed put.
    found and read: what the second scan has seen, and how many sources it has read.
  */
  datatype Phase =
    | Resting
    | Scanning(live: set<Hash>)
    | Scanned(referenced: set<Hash>)
    | Planned(cutoff: int, toDelete: set<Hash>)
    | Rescanning(cutoff: int, toDelete: set<Hash>, found: set<Hash>, read: nat)
    | Deleting(cutoff: int, todo: set<Hash>)

  /** prev is the last pass's candidate set. */
  datatype Sys = Sys(clock: int, blobs: map<Hash, int>, refs: Refs, writers: map<nat, Writer>, phase: Phase, prev: set<Hash>)

  ghost predicate Init(s: Sys) {
    && s.blobs == map[] && s.writers == map[] && s.phase.Resting? && s.prev == {}
    && forall a :: 0 <= a < |s.refs| ==> s.refs[a] == multiset{}
  }

  /** Source a refers to h. */
  predicate Names(refs: Refs, a: int, h: Hash) {
    0 <= a < |refs| && h in refs[a]
  }

  ghost predicate Referenced(s: Sys, h: Hash) {
    exists a :: Names(s.refs, a, h)
  }

  function AllRefs(refs: Refs): set<Hash> {
    set a, h | 0 <= a < |refs| && h in refs[a] :: h
  }

  /** A reference to h has gone or moved. */
  function Unsettled(p: Phase, h: Hash): Phase {
    if p.Scanning? then Scanning(p.live - {h}) else p
  }

  /** Source a has been read by the second scan. */
  predicate Passed(s: Sys, a: nat) {
    s.phase.Rescanning? && a < s.phase.read
  }

  // ------------------------------------------------------------ the writers' steps

  ghost predicate Advance(cfg: Config, s: Sys, s': Sys) {
    && s'.clock >= s.clock && s' == s.(clock := s'.clock)
    && forall w, h :: InFlight(s, w, h) ==> s'.clock < s.writers[w][h] + cfg.patience
  }

  ghost predicate Put(cfg: Config, s: Sys, s': Sys, w: nat, h: Hash, stamp: int) {
    && cfg.patience > 0 && s.clock - cfg.lag <= stamp <= s.clock
    && var before := if w in s.writers then s.writers[w] else map[];
       s' == s.(blobs := s.blobs[h := stamp], writers := s.writers[w := before[h := s.clock]])
  }

  /** The message's references appear in source a. */
  ghost predicate Commit(s: Sys, s': Sys, w: nat, a: nat) {
    && w in s.writers && a < |s.refs|
    && s' == s.(refs := s.refs[a := s.refs[a] + multiset(s.writers[w].Keys)], writers := s.writers - {w})
  }

  ghost predicate GiveUp(s: Sys, s': Sys, w: nat) {
    w in s.writers && s' == s.(writers := s.writers - {w})
  }

  /** A further reference, in source a, made from one that is there: a copy, a delivery out of the spool. */
  ghost predicate Copy(cfg: Config, s: Sys, s': Sys, h: Hash, a: nat) {
    && Referenced(s, h) && a < |s.refs| && (Passed(s, a) ==> cfg.back)
    && s' == s.(refs := s.refs[a := s.refs[a] + multiset{h}])
  }

  ghost predicate Drop(s: Sys, s': Sys, h: Hash, a: nat) {
    && a < |s.refs| && h in s.refs[a]
    && s' == s.(refs := s.refs[a := s.refs[a] - multiset{h}], phase := Unsettled(s.phase, h))
  }

  /** A rename within the spool, or any other move in one step. */
  ghost predicate Move(cfg: Config, s: Sys, s': Sys, h: Hash, a: nat, b: nat) {
    && a < |s.refs| && b < |s.refs| && h in s.refs[a] && (Passed(s, b) ==> cfg.back)
    && var less := s.refs[a := s.refs[a] - multiset{h}];
       s' == s.(refs := less[b := less[b] + multiset{h}], phase := Unsettled(s.phase, h))
  }

  // --------------------------------------------------------------- the sweep's steps

  ghost predicate StartScan(s: Sys, s': Sys) {
    s.phase.Resting? && s' == s.(phase := Scanning(AllRefs(s.refs)))
  }

  ghost predicate EndScan(s: Sys, s': Sys, result: set<Hash>) {
    s.phase.Scanning? && s.phase.live <= result && s' == s.(phase := Scanned(result))
  }

  /** mtimes is what the listing read, each time at its own instant. */
  ghost predicate Plan(cfg: Config, s: Sys, s': Sys, mtimes: map<Hash, int>) {
    && s.phase.Scanned?
    && var cutoff := s.clock - cfg.minAge;
       var current := SweepLoop.Candidates(s.phase.referenced, mtimes, cutoff);
       s' == s.(phase := Planned(cutoff, current * s.prev), prev := current)
  }

  ghost predicate StartRescan(s: Sys, s': Sys) {
    s.phase.Planned? && s' == s.(phase := Rescanning(s.phase.cutoff, s.phase.toDelete, {}, 0))
  }

  /** The next source; extra is what it names besides, such as a reference that came and went. */
  ghost predicate ReadSource(s: Sys, s': Sys, extra: set<Hash>) {
    && s.phase.Rescanning? && s.phase.read < |s.refs|
    && var seen := set h | h in s.refs[s.phase.read];
       s' == s.(phase := s.phase.(found := s.phase.found + seen + extra, read := s.phase.read + 1))
  }

  ghost predicate EndRescan(s: Sys, s': Sys) {
    && s.phase.Rescanning? && s.phase.read == |s.refs|
    && s' == s.(phase := Deleting(s.phase.cutoff, s.phase.toDelete - s.phase.found))
  }

  /** DeleteIfNotModifiedSince: check and removal are one step. */
  ghost predicate DeleteOne(s: Sys, s': Sys, h: Hash) {
    && s.phase.Deleting? && h in s.phase.todo
    && s' == s.(blobs := if h in s.blobs && s.blobs[h] <= s.phase.cutoff then s.blobs - {h} else s.blobs,
                phase := Deleting(s.phase.cutoff, s.phase.todo - {h}))
  }

  /** The end of a pass, an error in it, or a lost leadership. */
  ghost predicate EndPass(s: Sys, s': Sys) {
    s' == s.(phase := Resting, prev := s'.prev) && (s'.prev == s.prev || s'.prev == {})
  }

  ghost predicate WriterStep(cfg: Config, s: Sys, s': Sys) {
    || Advance(cfg, s, s') || (exists w, h, t :: Put(cfg, s, s', w, h, t)) || (exists w, a :: Commit(s, s', w, a))
    || (exists w :: GiveUp(s, s', w)) || ReferenceStep(cfg, s, s')
  }

  ghost predicate ReferenceStep(cfg: Config, s: Sys, s': Sys) {
    || (exists h, a :: Copy(cfg, s, s', h, a)) || (exists h, a :: Drop(s, s', h, a))
    || (exists h, a, b :: Move(cfg, s, s', h, a, b))
  }

  ghost predicate SweepStep(cfg: Config, s: Sys, s': Sys) {
    || PhaseStep(cfg, s, s') || (exists x :: ReadSource(s, s', x)) || EndRescan(s, s') || (exists h :: DeleteOne(s, s', h))
  }

  ghost predicate PhaseStep(cfg: Config, s: Sys, s': Sys) {
    || StartScan(s, s') || (exists r :: EndScan(s, s', r)) || (exists m :: Plan(cfg, s, s', m))
    || StartRescan(s, s') || EndPass(s, s')
  }

  ghost predicate Steps(cfg: Config, run: seq<Sys>) {
    forall i :: 0 <= i < |run| - 1 ==> WriterStep(cfg, run[i], run[i + 1]) || SweepStep(cfg, run[i], run[i + 1])
  }

  ghost predicate IsRun(cfg: Config, run: seq<Sys>) {
    run != [] && Init(run[0]) && Steps(cfg, run)
  }

  // --------------------------------------------------------------------- safety

  ghost predicate InFlight(s: Sys, w: nat, h: Hash) {
    w in s.writers && h in s.writers[w]
  }

  /** No committed reference and no message in flight has lost its blob. */
  ghost predicate Safe(s: Sys) {
    && (forall h :: Referenced(s, h) ==> h in s.blobs)
    && (forall w, h :: InFlight(s, w, h) ==> h in s.blobs)
  }

  /** A blob in flight is about as young as its put, and its writer still has time. */
  ghost predicate FreshAt(cfg: Config, s: Sys, w: nat, h: Hash)
    requires InFlight(s, w, h)
  {
    && h in s.blobs && s.writers[w][h] - cfg.lag <= s.blobs[h]
    && s.writers[w][h] <= s.clock < s.writers[w][h] + cfg.patience
  }

  ghost predicate Fresh(cfg: Config, s: Sys) {
    forall w, h :: InFlight(s, w, h) ==> FreshAt(cfg, s, w, h)
  }

  /** Newer than the cutoff, so this pass cannot delete it. */
  predicate Young(s: Sys, h: Hash, cutoff: int) {
    h in s.blobs && s.blobs[h] > cutoff
  }

  ghost predicate PhaseOk(cfg: Config, s: Sys) {
    match s.phase
    case Planned(cutoff, _) => cutoff + cfg.minAge <= s.clock
    case Rescanning(cutoff, toDelete, found, read) =>
      && cutoff + cfg.minAge <= s.clock && read <= |s.refs|
      && forall h, a :: h in toDelete && h !in found && a < read && Names(s.refs, a, h) ==> Young(s, h, cutoff)
    case Deleting(cutoff, todo) =>
      cutoff + cfg.minAge <= s.clock && forall h :: h in todo && Referenced(s, h) ==> Young(s, h, cutoff)
    case _ => true
  }

  ghost predicate Inv(cfg: Config, s: Sys) {
    Safe(s) && Fresh(cfg, s) && PhaseOk(cfg, s)
  }

  lemma AdvanceKeeps(cfg: Config, s: Sys, s': Sys)
    requires Inv(cfg, s) && Advance(cfg, s, s')
    ensures Inv(cfg, s')
  {
    forall w, h | InFlight(s', w, h)
      ensures FreshAt(cfg, s', w, h)
    {
      assert InFlight(s, w, h);
    }
    assert forall h :: Referenced(s', h) <==> Referenced(s, h);
  }

  lemma PutKeeps(cfg: Config, s: Sys, s': Sys, w: nat, h: Hash, stamp: int)
    requires Prompt(cfg) && Inv(cfg, s) && Put(cfg, s, s', w, h, stamp)
    ensures Inv(cfg, s')
  {
    forall v, x | InFlight(s', v, x)
      ensures FreshAt(cfg, s', v, x)
    {
      if !(v == w && x == h) {
        assert InFlight(s, v, x) && s'.writers[v][x] == s.writers[v][x];
        assert FreshAt(cfg, s, v, x);
        assert s'.blobs[x] == if x == h then stamp else s.blobs[x];
      }
    }
    assert forall x :: Referenced(s', x) <==> Referenced(s, x);
    assert forall x, cutoff :: Young(s, x, cutoff) && cutoff + cfg.minAge <= s.clock ==> Young(s', x, cutoff);
  }

  lemma GiveUpKeeps(cfg: Config, s: Sys, s': Sys, w: nat)
    requires Inv(cfg, s) && GiveUp(s, s', w)
    ensures Inv(cfg, s')
  {
    FewerWriters(cfg, s, s');
    assert forall x :: Referenced(s', x) <==> Referenced(s, x);
  }

  lemma FewerWriters(cfg: Config, s: Sys, s': Sys)
    requires Fresh(cfg, s) && s'.blobs == s.blobs && s'.clock == s.clock
    requires forall v :: v in s'.writers ==> v in s.writers && s'.writers[v] == s.writers[v]
    ensures Fresh(cfg, s') && forall v, x :: InFlight(s', v, x) ==> x in s'.blobs
  {
    forall v, x | InFlight(s', v, x)
      ensures FreshAt(cfg, s', v, x)
    {
      assert InFlight(s, v, x);
      assert FreshAt(cfg, s, v, x);
    }
  }

  lemma SameWorld(cfg: Config, s: Sys, s': Sys)
    requires Safe(s) && Fresh(cfg, s)
    requires s'.blobs == s.blobs && s'.writers == s.writers && s'.clock == s.clock
    requires forall h :: Referenced(s', h) ==> Referenced(s, h)
    ensures Safe(s') && Fresh(cfg, s')
    ensures forall h, c :: Young(s', h, c) <==> Young(s, h, c)
  {
    FewerWriters(cfg, s, s');
  }

  lemma PhaseKeeps(cfg: Config, s: Sys, s': Sys)
    requires Inv(cfg, s) && PhaseStep(cfg, s, s')
    ensures Inv(cfg, s')
  {
    assert s'.blobs == s.blobs && s'.writers == s.writers && s'.refs == s.refs && s'.clock == s.clock;
    SameWorld(cfg, s, s');
  }

  lemma ReadKeeps(cfg: Config, s: Sys, s': Sys, extra: set<Hash>)
    requires Inv(cfg, s) && ReadSource(s, s', extra)
    ensures Inv(cfg, s')
  {
    SameWorld(cfg, s, s');
    forall h, a | h in s'.phase.toDelete && h !in s'.phase.found && a < s'.phase.read && Names(s'.refs, a, h)
      ensures Young(s', h, s'.phase.cutoff)
    {
      assert a < s.phase.read && Names(s.refs, a, h);
    }
  }

  lemma EndRescanKeeps(cfg: Config, s: Sys, s': Sys)
    requires Inv(cfg, s) && EndRescan(s, s')
    ensures Inv(cfg, s')
  {
    SameWorld(cfg, s, s');
    forall h | h in s'.phase.todo && Referenced(s', h)
      ensures Young(s', h, s'.phase.cutoff)
    {
      var a :| Names(s'.refs, a, h);
      assert Names(s.refs, a, h);
    }
  }

  /** What a commit adds is in flight till then, so its stamp is less than minAge old, and after the cutoff. */
  lemma CommitKeeps(cfg: Config, s: Sys, s': Sys, w: nat, a: nat)
    requires Prompt(cfg) && Inv(cfg, s) && Commit(s, s', w, a)
    ensures Inv(cfg, s')
  {
    var mine := s.writers[w].Keys;
    FewerWriters(cfg, s, s');
    forall h | h in mine
      ensures h in s.blobs && s.blobs[h] > s.clock - cfg.minAge
    {
      assert InFlight(s, w, h);
      assert FreshAt(cfg, s, w, h);
    }
    forall b, h | Names(s'.refs, b, h)
      ensures Names(s.refs, b, h) || h in mine
    {
    }
  }

  /** References are added to unread sources only, and none is new to the store. */
  ghost predicate Ahead(s: Sys, s': Sys) {
    && s' == s.(refs := s'.refs, phase := s'.phase) && |s'.refs| == |s.refs|
    && (s'.phase == s.phase || (s.phase.Scanning? && s'.phase.Scanning?))
    && (forall h :: Referenced(s', h) ==> Referenced(s, h))
    && (forall h, a: nat :: Names(s'.refs, a, h) && Passed(s, a) ==> Names(s.refs, a, h))
  }

  lemma AheadKeeps(cfg: Config, s: Sys, s': Sys)
    requires Inv(cfg, s) && Ahead(s, s')
    ensures Inv(cfg, s')
  {
    SameWorld(cfg, s, s');
  }

  lemma CopyKeeps(cfg: Config, s: Sys, s': Sys, h: Hash, a: nat)
    requires !cfg.back && Inv(cfg, s) && Copy(cfg, s, s', h, a)
    ensures Inv(cfg, s')
  {
    forall x | Referenced(s', x) ensures Referenced(s, x) {
      var b :| Names(s'.refs, b, x);
      assert x == h || Names(s.refs, b, x);
    }
    AheadKeeps(cfg, s, s');
  }

  lemma DropKeeps(cfg: Config, s: Sys, s': Sys, h: Hash, a: nat)
    requires Inv(cfg, s) && Drop(s, s', h, a)
    ensures Inv(cfg, s')
  {
    forall x | Referenced(s', x) ensures Referenced(s, x) {
      var b :| Names(s'.refs, b, x);
      assert Names(s.refs, b, x);
    }
    AheadKeeps(cfg, s, s');
  }

  lemma MoveKeeps(cfg: Config, s: Sys, s': Sys, h: Hash, a: nat, b: nat)
    requires !cfg.back && Inv(cfg, s) && Move(cfg, s, s', h, a, b)
    ensures Inv(cfg, s')
  {
    forall x | Referenced(s', x) ensures Referenced(s, x) {
      var c :| Names(s'.refs, c, x);
      assert Names(s.refs, a, h);
      assert x == h || Names(s.refs, c, x);
    }
    AheadKeeps(cfg, s, s');
  }

  lemma DeleteKeeps(cfg: Config, s: Sys, s': Sys, h: Hash)
    requires Prompt(cfg) && Inv(cfg, s) && DeleteOne(s, s', h)
    ensures Inv(cfg, s')
  {
    assert forall x :: Referenced(s', x) <==> Referenced(s, x);
    forall w, x | InFlight(s', w, x)
      ensures FreshAt(cfg, s', w, x)
    {
      assert InFlight(s, w, x);
      assert FreshAt(cfg, s, w, x);
    }
  }

  lemma ReferenceKeeps(cfg: Config, s: Sys, s': Sys)
    requires !cfg.back && Inv(cfg, s) && ReferenceStep(cfg, s, s')
    ensures Inv(cfg, s')
  {
    if h, a :| Copy(cfg, s, s', h, a) {
      CopyKeeps(cfg, s, s', h, a);
    } else if h, a :| Drop(s, s', h, a) {
      DropKeeps(cfg, s, s', h, a);
    } else {
      var h, a, b :| Move(cfg, s, s', h, a, b);
      MoveKeeps(cfg, s, s', h, a, b);
    }
  }

  lemma SweepKeeps(cfg: Config, s: Sys, s': Sys)
    requires Prompt(cfg) && Inv(cfg, s) && SweepStep(cfg, s, s')
    ensures Inv(cfg, s')
  {
    if x :| ReadSource(s, s', x) {
      ReadKeeps(cfg, s, s', x);
    } else if EndRescan(s, s') {
      EndRescanKeeps(cfg, s, s');
    } else if h :| DeleteOne(s, s', h) {
      DeleteKeeps(cfg, s, s', h);
    } else {
      PhaseKeeps(cfg, s, s');
    }
  }

  lemma StepKeeps(cfg: Config, s: Sys, s': Sys)
    requires Prompt(cfg) && !cfg.back && Inv(cfg, s)
    requires WriterStep(cfg, s, s') || SweepStep(cfg, s, s')
    ensures Inv(cfg, s')
  {
    if SweepStep(cfg, s, s') {
      SweepKeeps(cfg, s, s');
    } else if ReferenceStep(cfg, s, s') {
      ReferenceKeeps(cfg, s, s');
    } else if Advance(cfg, s, s') {
      AdvanceKeeps(cfg, s, s');
    } else if w, h, t :| Put(cfg, s, s', w, h, t) {
      PutKeeps(cfg, s, s', w, h, t);
    } else if w, a :| Commit(s, s', w, a) {
      CommitKeeps(cfg, s, s', w, a);
    } else {
      var w :| GiveUp(s, s', w);
      GiveUpKeeps(cfg, s, s', w);
    }
  }

  lemma {:induction false} RunInv(cfg: Config, run: seq<Sys>, i: nat)
    requires Prompt(cfg) && !cfg.back && IsRun(cfg, run) && i < |run|
    ensures Inv(cfg, run[i])
  {
    if i > 0 {
      RunInv(cfg, run, i - 1);
      StepKeeps(cfg, run[i - 1], run[i]);
    }
  }

  ghost predicate AlwaysSafe(cfg: Config) {
    forall run, i :: IsRun(cfg, run) && 0 <= i < |run| ==> Safe(run[i])
  }
}
