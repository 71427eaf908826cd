/**
  Reading the on-disk spool while envelopes move through it.  A rename is
  atomic, so an envelope is in one directory at every instant; a scan reads the
  directories one after another, so a move can pass it by.

  Time is discrete; a trajectory gives the envelope's directory at each instant.
*/
module SpoolScan {

  import opened Wrappers

  /** incoming, processing, deliver, quarantine, error: scanned in pipeline order. */
  const SCAN_DIRS: nat := 5
  const SCAN_PASSES: nat := 2

  /** The directory at each instant of the time looked at. */
  type Trajectory = seq<nat>

  // ---------------------------------------------------------- counting events

  /** The true entries among a..b. */
  function Count(e: seq<bool>, a: nat, b: nat): nat
    requires b <= |e|
    decreases b - a
  {
    if a >= b then 0 else (if e[a] then 1 else 0) + Count(e, a + 1, b)
  }

  lemma {:induction false} CountSplit(e: seq<bool>, a: nat, m: nat, b: nat)
    requires a <= m <= b <= |e|
    ensures Count(e, a, b) == Count(e, a, m) + Count(e, m, b)
    decreases m - a
  {
    if a < m {
      CountSplit(e, a + 1, m, b);
    }
  }

  lemma {:induction false} CountNone(e: seq<bool>, a: nat, b: nat)
    requires b <= |e| && Count(e, a, b) == 0
    ensures forall t :: a <= t < b ==> !e[t]
    decreases b - a
  {
    if a < b {
      CountNone(e, a + 1, b);
    }
  }

  datatype Window = Window(lo: nat, hi: nat)

  /** Windows in order of time, before instant `end`. */
  predicate Windows(ws: seq<Window>, end: nat) {
    && (forall i :: 0 <= i < |ws| ==> ws[i].lo <= ws[i].hi <= end)
    && (forall i, j :: 0 <= i < j < |ws| ==> ws[i].hi <= ws[j].lo)
  }

  /** Fewer events than windows leave one window quiet. */
  lemma {:induction false} QuietWindow(e: seq<bool>, ws: seq<Window>) returns (w: nat)
    requires ws != [] && Windows(ws, |e|)
    requires Count(e, ws[0].lo, ws[|ws| - 1].hi) < |ws|
    ensures w < |ws| && Count(e, ws[w].lo, ws[w].hi) == 0
  {
    var n := |ws|;
    if Count(e, ws[n - 1].lo, ws[n - 1].hi) == 0 {
      w := n - 1;
    } else {
      CountSplit(e, ws[0].lo, ws[n - 2].hi, ws[n - 1].hi);
      CountSplit(e, ws[n - 2].hi, ws[n - 1].lo, ws[n - 1].hi);
      w := QuietWindow(e, ws[..n - 1]);
    }
  }

  // -------------------------------------------------------------- the scan

  /** The reading times of one pass, and of the whole scan. */
  type Pass = seq<nat>
  type Schedule = seq<Pass>

  predicate PassOk(pass: Pass, dirs: nat, end: nat) {
    && |pass| == dirs
    && (forall d :: 0 <= d < dirs ==> pass[d] < end)
    && (forall d, d' :: 0 <= d <= d' < dirs ==> pass[d] <= pass[d'])
  }

  predicate InOrder(at: Schedule, dirs: nat, end: nat) {
    && (forall p :: 0 <= p < |at| ==> PassOk(at[p], dirs, end))
    && (dirs > 0 ==> forall p, q :: 0 <= p < q < |at| ==> at[p][dirs - 1] <= at[q][0])
  }

  /** The directory d, when it is read, holds the envelope. */
  predicate Hit(loc: Trajectory, pass: Pass, d: int) {
    0 <= d < |pass| && pass[d] < |loc| && loc[pass[d]] == d
  }

  ghost predicate Seen(loc: Trajectory, at: Schedule) {
    exists p, d :: 0 <= p < |at| && Hit(loc, at[p], d)
  }

  /** Entry t says that the move into instant t + 1 was a backward one. */
  function Backward(loc: Trajectory): (e: seq<bool>)
    ensures |e| == |loc|
    ensures forall t {:trigger e[t]} :: 0 <= t < |loc| ==> (e[t] <==> t + 1 < |loc| && loc[t + 1] < loc[t])
  {
    seq(|loc|, t requires 0 <= t < |loc| => t + 1 < |loc| && loc[t + 1] < loc[t])
  }

  lemma {:induction false} Climbs(loc: Trajectory, a: nat, b: nat)
    requires a <= b < |loc| && Count(Backward(loc), a, b) == 0
    ensures loc[a] <= loc[b]
    decreases b - a
  {
    if a < b {
      assert !Backward(loc)[a];
      Climbs(loc, a + 1, b);
    }
  }

  /** While moves are forward only, one ordered pass meets the envelope. */
  lemma {:induction false} OnePassSees(loc: Trajectory, pass: Pass, dirs: nat, d: nat) returns (x: nat)
    requires d < dirs && PassOk(pass, dirs, |loc|)
    requires Count(Backward(loc), pass[0], pass[d]) == 0
    requires loc[pass[d]] <= d
    ensures Hit(loc, pass, x)
    decreases d
  {
    if loc[pass[d]] == d {
      x := d;
    } else {
      // Behind the scan now, so, moving forward only, behind it one directory earlier.
      CountSplit(Backward(loc), pass[0], pass[d - 1], pass[d]);
      Climbs(loc, pass[d - 1], pass[d]);
      x := OnePassSees(loc, pass, dirs, d - 1);
    }
  }

  /** An envelope with fewer backward moves than the scan has passes is always seen. */
  lemma ScanSees(loc: Trajectory, at: Schedule, dirs: nat)
    requires dirs > 0 && at != [] && InOrder(at, dirs, |loc|)
    requires forall t :: 0 <= t < |loc| ==> loc[t] < dirs
    requires Count(Backward(loc), at[0][0], at[|at| - 1][dirs - 1]) < |at|
    ensures Seen(loc, at)
  {
    var ws := seq(|at|, p requires 0 <= p < |at| => assert PassOk(at[p], dirs, |loc|); Window(at[p][0], at[p][dirs - 1]));
    assert Windows(ws, |loc|);
    var p := QuietWindow(Backward(loc), ws);
    assert PassOk(at[p], dirs, |loc|);
    var x := OnePassSees(loc, at[p], dirs, dirs - 1);
  }

  ghost predicate AlwaysSeen(dirs: nat, passes: nat, back: nat)
    requires dirs > 0 && passes > 0
  {
    forall loc: Trajectory, at: Schedule ::
      |at| == passes && InOrder(at, dirs, |loc|) && (forall t :: 0 <= t < |loc| ==> loc[t] < dirs)
      && Count(Backward(loc), at[0][0], at[passes - 1][dirs - 1]) <= back
      ==> Seen(loc, at)
  }

  /** For the scan as it is, one backward move is harmless and two are not. */
  lemma ScanCompleteIff(back: nat)
    ensures AlwaysSeen(SCAN_DIRS, SCAN_PASSES, back) <==> back <= 1
  {
    if back <= 1 {
      forall loc: Trajectory, at: Schedule |
        |at| == SCAN_PASSES && InOrder(at, SCAN_DIRS, |loc|) && (forall t :: 0 <= t < |loc| ==> loc[t] < SCAN_DIRS)
        && Count(Backward(loc), at[0][0], at[SCAN_PASSES - 1][SCAN_DIRS - 1]) <= back
        ensures Seen(loc, at)
      {
        ScanSees(loc, at, SCAN_DIRS);
      }
    } else {
      DodgerUnseen();
    }
  }

  /** In processing whenever incoming is read, back in incoming for the rest of the pass. */
  const DODGER: Trajectory := [1, 0, 0, 0, 0, 1, 0, 0, 0, 0]

  const STEADY: Schedule := [[0, 1, 2, 3, 4], [5, 6, 7, 8, 9]]

  lemma DodgerUnseen()
    ensures InOrder(STEADY, SCAN_DIRS, |DODGER|) && forall t :: 0 <= t < |DODGER| ==> DODGER[t] < SCAN_DIRS
    ensures Count(Backward(DODGER), 0, 9) == 2
    ensures !Seen(DODGER, STEADY)
  {
    var e := Backward(DODGER);
    assert e[0] && !e[1] && !e[2] && !e[3] && !e[4] && e[5] && !e[6] && !e[7] && !e[8];
    assert Count(e, 6, 9) == 0;
    assert Count(e, 3, 9) == 1;
    assert Count(e, 0, 9) == 2;
  }

  // ------------------------------------------------------------- the code

  datatype Envelope = Envelope(id: string, blob: string)

  /** What List returned for each directory in each pass; None is a read error. */
  type Lister = (nat, nat) -> Option<seq<Envelope>>

  ghost predicate Names(list: Lister, p: nat, d: nat, h: string) {
    list(p, d).Some? && exists e :: e in list(p, d).value && e.blob == h
  }

  /** Pass p, directory d is one of the first n readings of the scan. */
  predicate Among(p: nat, d: nat, n: nat) {
    d < SCAN_DIRS && p * SCAN_DIRS + d < n
  }

  /** h is in refs or named by one of the first n listings. */
  ghost predicate Reported(list: Lister, refs: set<string>, n: nat, h: string) {
    h in refs || (h != "" && exists p: nat, d: nat :: Among(p, d, n) && Names(list, p, d, h))
  }

  /** Adds every named blob, or fails on the first unreadable directory and reports nothing. */
  method CollectSpoolBlobs(list: Lister, refs: set<string>) returns (r: Option<set<string>>)
    ensures r.None? <==> exists p: nat, d: nat :: Among(p, d, SCAN_PASSES * SCAN_DIRS) && list(p, d).None?
    ensures r.Some? ==> forall h :: h in r.value <==> Reported(list, refs, SCAN_PASSES * SCAN_DIRS, h)
  {
    var acc := refs;
    for pass := 0 to SCAN_PASSES
      invariant forall p: nat, d: nat :: Among(p, d, pass * SCAN_DIRS) ==> list(p, d).Some?
      invariant forall h :: h in acc <==> Reported(list, refs, pass * SCAN_DIRS, h)
    {
      for dir := 0 to SCAN_DIRS
        invariant forall p: nat, d: nat :: Among(p, d, pass * SCAN_DIRS + dir) ==> list(p, d).Some?
        invariant forall h :: h in acc <==> Reported(list, refs, pass * SCAN_DIRS + dir, h)
      {
        var envs := list(pass, dir);
        assert Among(pass, dir, SCAN_PASSES * SCAN_DIRS);
        if envs.None? {
          return None;
        }
        var more := Blobs(envs.value);
        forall h
          ensures Reported(list, refs, pass * SCAN_DIRS + dir + 1, h) <==> h in acc || h in more
        {
          OneMore(list, refs, pass, dir, h);
        }
        acc := acc + more;
      }
    }
    return Some(acc);
  }

  method Blobs(envs: seq<Envelope>) returns (more: set<string>)
    ensures forall h :: h in more <==> h != "" && exists e :: e in envs && e.blob == h
  {
    more := {};
    for i := 0 to |envs|
      invariant forall h :: h in more <==> h != "" && exists e :: e in envs[..i] && e.blob == h
    {
      assert envs[..i + 1] == envs[..i] + [envs[i]];
      if envs[i].blob != "" {
        more := more + {envs[i].blob};
      }
    }
    assert envs[..|envs|] == envs;
  }

  lemma OneMore(list: Lister, refs: set<string>, pass: nat, dir: nat, h: string)
    requires dir < SCAN_DIRS && list(pass, dir).Some?
    ensures Reported(list, refs, pass * SCAN_DIRS + dir + 1, h) <==>
            Reported(list, refs, pass * SCAN_DIRS + dir, h)
            || (h != "" && exists e :: e in list(pass, dir).value && e.blob == h)
  {
    var n := pass * SCAN_DIRS + dir;
    forall p: nat, d: nat
      ensures Among(p, d, n + 1) <==> Among(p, d, n) || (p == pass && d == dir)
    {
    }
    if h != "" && Names(list, pass, dir, h) {
      assert Among(pass, dir, n + 1);
    }
  }

  /** The scan and the world together: an envelope in the spool throughout has its blob reported. */
  lemma EnvelopeReported(list: Lister, at: Schedule, loc: Trajectory, e: Envelope, refs: set<string>)
    requires |at| == SCAN_PASSES && InOrder(at, SCAN_DIRS, |loc|)
    requires e.blob != "" && forall t :: 0 <= t < |loc| ==> loc[t] < SCAN_DIRS
    requires Count(Backward(loc), at[0][0], at[SCAN_PASSES - 1][SCAN_DIRS - 1]) <= 1
    requires forall p, d :: 0 <= p < SCAN_PASSES && Hit(loc, at[p], d) ==> list(p, d).Some? && e in list(p, d).value
    ensures Reported(list, refs, SCAN_PASSES * SCAN_DIRS, e.blob)
  {
    ScanSees(loc, at, SCAN_DIRS);
    var p, d :| 0 <= p < |at| && Hit(loc, at[p], d);
    assert PassOk(at[p], SCAN_DIRS, |loc|);
    assert Names(list, p, d, e.blob) && Among(p, d, SCAN_PASSES * SCAN_DIRS);
  }
}
