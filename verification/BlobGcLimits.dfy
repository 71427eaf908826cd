/**
  How much the blob collector can stand: SafeIffPrompt says exactly, and the runs
  it rests on are built here, a slow writer's and a slipping reference's.
*/
module BlobGcLimits {

  import SweepLoop
  import opened BlobGc

  // ------------------------------------------------------ a writer that dawdles

  /** When a stamp 0, put at time lag, is minAge old, and the put is done. */
  function Late(cfg: Config): int { if cfg.minAge < cfg.lag then cfg.lag else cfg.minAge }

  lemma OnlyCandidate(h: Hash, mtime: int, cutoff: int)
    requires mtime <= cutoff
    ensures SweepLoop.Candidates({}, map[h := mtime], cutoff) == {h}
  {
    assert SweepLoop.IsCandidate({}, map[h := mtime], cutoff, h);
  }

  lemma StepsJoin(cfg: Config, a: seq<Sys>, b: seq<Sys>)
    requires Steps(cfg, a) && Steps(cfg, b) && a != [] && b != [] && a[|a| - 1] == b[0]
    ensures Steps(cfg, a + b[1..]) && (a + b[1..])[|a| + |b| - 2] == b[|b| - 1]
  {
    var run := a + b[1..];
    forall i | 0 <= i < |run| - 1
      ensures WriterStep(cfg, run[i], run[i + 1]) || SweepStep(cfg, run[i], run[i + 1])
    {
      if i >= |a| - 1 {
        assert run[i] == b[i - |a| + 1] && run[i + 1] == b[i - |a| + 2];
      }
    }
  }

  /** A first pass over a blob nothing refers to, old enough: it becomes a candidate. */
  lemma FirstPass(cfg: Config, s: Sys, h: Hash) returns (run: seq<Sys>)
    requires s.phase.Resting? && s.prev == {} && AllRefs(s.refs) == {} && h in s.blobs && s.blobs[h] + cfg.minAge <= s.clock
    ensures Steps(cfg, run) && |run| > 1 && run[0] == s && run[|run| - 1] == s.(prev := {h})
  {
    var s1 := s.(phase := Scanning({}));
    var s2 := s.(phase := Scanned({}));
    var s3 := s.(phase := Planned(s.clock - cfg.minAge, {}), prev := {h});
    var s4 := s.(prev := {h});
    OnlyCandidate(h, s.blobs[h], s.clock - cfg.minAge);
    assert {h} * {} == {};
    assert StartScan(s, s1) && EndScan(s1, s2, {}) && Plan(cfg, s2, s3, map[h := s.blobs[h]]) && EndPass(s3, s4);
    run := [s, s1, s2, s3, s4];
  }

  /** A second plan, after a scan that reported nothing. */
  lemma SecondPlan(cfg: Config, s: Sys, h: Hash) returns (run: seq<Sys>)
    requires s.phase == Scanned({}) && s.prev == {h} && h in s.blobs && s.blobs[h] + cfg.minAge <= s.clock
    ensures Steps(cfg, run) && |run| > 1 && run[0] == s
    ensures run[|run| - 1] == s.(phase := Rescanning(s.clock - cfg.minAge, {h}, {}, 0))
  {
    var s1 := s.(phase := Planned(s.clock - cfg.minAge, {h}));
    var s2 := s.(phase := Rescanning(s.clock - cfg.minAge, {h}, {}, 0));
    OnlyCandidate(h, s.blobs[h], s.clock - cfg.minAge);
    assert {h} * {h} == {h};
    assert Plan(cfg, s, s1, map[h := s.blobs[h]]) && StartRescan(s1, s2);
    run := [s, s1, s2];
  }

  /** The second scan is through without having found h. */
  lemma Deletion(cfg: Config, s: Sys, h: Hash) returns (run: seq<Sys>)
    requires s.phase.Rescanning? && s.phase.toDelete == {h} && s.phase.found == {} && s.phase.read == |s.refs|
    requires h in s.blobs && s.blobs[h] <= s.phase.cutoff
    ensures Steps(cfg, run) && |run| > 1 && run[0] == s
    ensures run[|run| - 1] == s.(blobs := s.blobs - {h}, phase := Deleting(s.phase.cutoff, {}))
  {
    var s1 := s.(phase := Deleting(s.phase.cutoff, {h}));
    var s2 := s.(blobs := s.blobs - {h}, phase := Deleting(s.phase.cutoff, {}));
    assert {h} - {} == {h} && {h} - {h} == {};
    assert EndRescan(s, s1) && DeleteOne(s1, s2, h);
    run := [s, s1, s2];
  }

  /** One blob put at time lag, and still in flight when its stamp is minAge old. */
  lemma DawdleIsRun(cfg: Config, h: Hash) returns (run: seq<Sys>)
    requires 0 <= cfg.minAge < cfg.patience + cfg.lag && 0 < cfg.patience
    ensures IsRun(cfg, run) && !Safe(run[|run| - 1])
  {
    var w := map[0 := map[h := cfg.lag]];
    var s0 := Sys(cfg.lag, map[], [], map[], Resting, {});
    var s1 := Sys(cfg.lag, map[h := 0], [], w, Resting, {});
    var s2 := s1.(clock := Late(cfg));
    assert map[][h := cfg.lag] == map[h := cfg.lag] && s0.writers[0 := map[][h := cfg.lag]] == w;
    assert Put(cfg, s0, s1, 0, h, 0) && Advance(cfg, s1, s2);
    var first := FirstPass(cfg, s2, h);
    StepsJoin(cfg, [s0, s1, s2], first);
    var s3 := s2.(prev := {h});
    var s4 := s3.(phase := Scanning({}));
    var s5 := s3.(phase := Scanned({}));
    assert StartScan(s3, s4) && EndScan(s4, s5, {});
    StepsJoin(cfg, [s0, s1, s2] + first[1..], [s3, s4, s5]);
    var second := SecondPlan(cfg, s5, h);
    StepsJoin(cfg, [s0, s1, s2] + first[1..] + [s3, s4, s5][1..], second);
    var last := Deletion(cfg, second[|second| - 1], h);
    run := [s0, s1, s2] + first[1..] + [s3, s4, s5][1..] + second[1..];
    StepsJoin(cfg, run, last);
    run := run + last[1..];
    assert InFlight(run[|run| - 1], 0, h);
  }

  // ------------------------------------------- a reference that slips past the scan

  /** A put by writer 0 of the one blob there is. */
  lemma PutIt(cfg: Config, s: Sys, h: Hash) returns (after: Sys)
    requires cfg.patience > 0 && s.writers == map[] && s.blobs.Keys <= {h}
    ensures Put(cfg, s, after, 0, h, s.clock)
    ensures after == s.(blobs := map[h := s.clock], writers := map[0 := map[h := s.clock]])
  {
    after := s.(blobs := map[h := s.clock], writers := map[0 := map[h := s.clock]]);
    assert map[][h := s.clock] == map[h := s.clock] && s.writers[0 := map[h := s.clock]] == after.writers;
    assert s.blobs[h := s.clock] == after.blobs;
  }

  /** An orphan that is a candidate, and then is put again while the second pass scans. */
  lemma SlipBegins(cfg: Config, h: Hash) returns (run: seq<Sys>)
    requires Prompt(cfg)
    ensures IsRun(cfg, run) && |run| > 0
    ensures run[|run| - 1] == Sys(2 * cfg.minAge, map[h := cfg.minAge], [multiset{}, multiset{h}], map[], Scanned({}), {h})
  {
    var none, one: Refs := [multiset{}, multiset{}], [multiset{}, multiset{h}];
    var s0 := Sys(0, map[], none, map[], Resting, {});
    var s1 := PutIt(cfg, s0, h);
    var s2 := s1.(writers := map[]);
    assert s1.writers - {0} == map[] && GiveUp(s1, s2, 0);
    var s3 := s2.(clock := cfg.minAge);
    assert Advance(cfg, s2, s3);
    assert AllRefs(none) == {};
    var first := FirstPass(cfg, s3, h);
    StepsJoin(cfg, [s0, s1, s2, s3], first);
    var t0 := first[|first| - 1];
    var t1 := t0.(phase := Scanning({}));
    var t2 := PutIt(cfg, t1, h);
    var t3 := t2.(refs := one, writers := map[]);
    assert t2.writers[0].Keys == {h} && multiset{} + multiset({h}) == multiset{h} && t2.writers - {0} == map[];
    assert StartScan(t0, t1) && Commit(t2, t3, 0, 1);
    var t4 := t3.(phase := Scanned({}));
    var t5 := t4.(clock := 2 * cfg.minAge);
    assert EndScan(t3, t4, {}) && Advance(cfg, t4, t5);
    run := [s0, s1, s2, s3] + first[1..];
    StepsJoin(cfg, run, [t0, t1, t2, t3, t4, t5]);
    run := run + [t0, t1, t2, t3, t4, t5][1..];
  }

  /** The reference moves from the unread source to the one just read. */
  lemma Slip(cfg: Config, h: Hash, s: Sys) returns (run: seq<Sys>)
    requires cfg.back && s.refs == [multiset{}, multiset{h}]
    requires s.phase.Rescanning? && s.phase.toDelete == {h} && s.phase.found == {} && s.phase.read == 0
    ensures Steps(cfg, run) && |run| > 1 && run[0] == s
    ensures run[|run| - 1] == s.(refs := [multiset{h}, multiset{}], phase := s.phase.(read := 2))
  {
    var other: Refs := [multiset{h}, multiset{}];
    var s1 := s.(phase := s.phase.(read := 1));
    var s2 := s1.(refs := other);
    var s3 := s2.(phase := s.phase.(read := 2));
    assert (set x | x in s.refs[0]) == {} && (set x | x in other[1]) == {};
    assert multiset{h} - multiset{h} == multiset{} && multiset{} + multiset{h} == multiset{h};
    assert s.refs[1 := multiset{}][0 := multiset{h}] == other;
    assert ReadSource(s, s1, {}) && Move(cfg, s1, s2, h, 1, 0) && ReadSource(s2, s3, {});
    run := [s, s1, s2, s3];
  }

  lemma SlipIsRun(cfg: Config, h: Hash) returns (run: seq<Sys>)
    requires cfg.back && Prompt(cfg)
    ensures IsRun(cfg, run) && !Safe(run[|run| - 1])
  {
    run := SlipBegins(cfg, h);
    var plan := SecondPlan(cfg, run[|run| - 1], h);
    StepsJoin(cfg, run, plan);
    run := run + plan[1..];
    var slip := Slip(cfg, h, plan[|plan| - 1]);
    StepsJoin(cfg, run, slip);
    run := run + slip[1..];
    var last := Deletion(cfg, slip[|slip| - 1], h);
    StepsJoin(cfg, run, last);
    run := run + last[1..];
    assert Names(run[|run| - 1].refs, 0, h);
  }

  /**
    Every run is safe exactly when no writer, with the lag of its stamp, outlasts
    the grace period, and no reference comes into a source the second scan has read.
  */
  lemma SafeIffPrompt(cfg: Config)
    requires cfg.minAge >= 0 && cfg.patience > 0
    ensures AlwaysSafe(cfg) <==> cfg.patience + cfg.lag <= cfg.minAge && !cfg.back
  {
    if !Prompt(cfg) {
      var run := DawdleIsRun(cfg, "h");
    } else if cfg.back {
      var run := SlipIsRun(cfg, "h");
    } else {
      forall run, i | IsRun(cfg, run) && 0 <= i < |run|
        ensures Safe(run[i])
      {
        RunInv(cfg, run, i);
      }
    }
  }
}
