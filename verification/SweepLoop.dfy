/**
  The blob sweep, tick after tick: plan against one reference scan, confirm
  against a second one taken just before deleting, and carry the candidate set
  to the next tick.

  ThreeScansMissed says over whole runs what a deletion proves, and
  ContinuouslyReferencedSurvives turns that into safety for a blob whose
  references move while the scans run.
*/
module SweepLoop {

  import opened Wrappers
  import SpoolScan

  type Hash = string

  datatype Mode = Off | DryRun | On

  // ----------------------------------------------------------------- planning

  /** Unreferenced and not modified after the cutoff. */
  predicate IsCandidate(referenced: set<Hash>, mtimes: map<Hash, int>, cutoff: int, h: Hash) {
    h in mtimes && h !in referenced && mtimes[h] <= cutoff
  }

  function Candidates(referenced: set<Hash>, mtimes: map<Hash, int>, cutoff: int): set<Hash> {
    set h | h in mtimes && IsCandidate(referenced, mtimes, cutoff, h)
  }

  predicate Distinct(s: seq<Hash>) {
    forall i, j :: 0 <= i < j < |s| ==> s[i] != s[j]
  }

  /** Due for deletion: a candidate now and a candidate in the previous pass. */
  method PlanBlobSweep(referenced: set<Hash>, mtimes: map<Hash, int>, prev: set<Hash>, cutoff: int)
    returns (current: set<Hash>, toDelete: seq<Hash>)
    ensures current == Candidates(referenced, mtimes, cutoff)
    ensures forall h :: h in current <==> h in mtimes && h !in referenced && mtimes[h] <= cutoff
    ensures Distinct(toDelete) && forall h :: h in toDelete <==> h in current && h in prev
  {
    current, toDelete := {}, [];
    var todo := mtimes.Keys;
    while todo != {}
      invariant todo <= mtimes.Keys
      invariant forall h :: h in current <==> h !in todo && IsCandidate(referenced, mtimes, cutoff, h)
      invariant Distinct(toDelete) && forall h :: h in toDelete <==> h in current && h in prev
      decreases |todo|
    {
      var h :| h in todo;
      todo := todo - {h};
      if !(h in referenced || mtimes[h] > cutoff) {
        current := current + {h};
        if h in prev {
          toDelete := toDelete + [h];
        }
      }
    }
  }

  function Only(s: seq<Hash>, keep: set<Hash>, inside: bool): seq<Hash> {
    if s == [] then []
    else Only(s[..|s| - 1], keep, inside) + if (s[|s| - 1] in keep) == inside then [s[|s| - 1]] else []
  }

  /** What stays of a concatenation is what stays of its parts, in that order. */
  lemma {:induction false} OnlyInOrder(a: seq<Hash>, b: seq<Hash>, keep: set<Hash>, inside: bool)
    ensures Only(a + b, keep, inside) == Only(a, keep, inside) + Only(b, keep, inside)
    decreases b
  {
    if b == [] {
      assert a + b == a;
    } else {
      assert (a + b)[..|a + b| - 1] == a + b[..|b| - 1];
      OnlyInOrder(a, b[..|b| - 1], keep, inside);
    }
  }

  /** Splits by the fresh reference set, keeping the order on both sides. */
  method ReconfirmSweep(toDelete: seq<Hash>, again: set<Hash>) returns (survivors: seq<Hash>, spared: seq<Hash>)
    ensures survivors == Only(toDelete, again, false) && spared == Only(toDelete, again, true)
    ensures forall h :: h in survivors <==> h in toDelete && h !in again
    ensures forall h :: h in spared <==> h in toDelete && h in again
    ensures |survivors| + |spared| == |toDelete|
  {
    survivors, spared := [], [];
    for i := 0 to |toDelete|
      invariant survivors == Only(toDelete[..i], again, false) && spared == Only(toDelete[..i], again, true)
      invariant forall h :: h in survivors <==> h in toDelete[..i] && h !in again
      invariant forall h :: h in spared <==> h in toDelete[..i] && h in again
      invariant |survivors| + |spared| == i
    {
      assert toDelete[..i + 1] == toDelete[..i] + [toDelete[i]];
      if toDelete[i] in again {
        spared := spared + [toDelete[i]];
      } else {
        survivors := survivors + [toDelete[i]];
      }
    }
    assert toDelete[..|toDelete|] == toDelete;
  }

  // ---------------------------------------------------------------- one tick

  /**
    What one tick meets: the mode read, leadership, the two scans and the
    listing (None is an error), the cutoff, the modification times that the
    deletions find, and the blobs whose removal fails.
  */
  datatype Tick = Tick(mode: Mode, leader: bool, scan: Option<set<Hash>>, listing: Option<map<Hash, int>>,
                       cutoff: int, rescan: Option<set<Hash>>, found: map<Hash, int>, failing: set<Hash>)

  datatype Carry = Carry(prev: set<Hash>, mode: Option<Mode>)

  const FIRST := Carry({}, None)

  predicate Sweeps(t: Tick) {
    !t.mode.Off? && t.leader && t.scan.Some? && t.listing.Some?
  }

  function Kept(c: Carry, t: Tick): set<Hash> {
    if c.mode == Some(t.mode) then c.prev else {}
  }

  function Next(c: Carry, t: Tick): Carry {
    Carry(if t.mode.Off? then Kept(c, t)
          else if Sweeps(t) then Candidates(t.scan.value, t.listing.value, t.cutoff)
          else {},
          Some(t.mode))
  }

  /** Planned twice, missed by the re-scan, and still old when its turn comes. */
  function Deleted(c: Carry, t: Tick): set<Hash> {
    if !Sweeps(t) || !t.mode.On? || t.rescan.None? then {}
    else set h | h in Candidates(t.scan.value, t.listing.value, t.cutoff) && h in Kept(c, t)
                 && h !in t.rescan.value && h in t.found && t.found[h] <= t.cutoff && h !in t.failing
  }

  class Sweeper {
    var prev: set<Hash>
    var mode: Option<Mode>

    constructor ()
      ensures Carrying() == FIRST
    {
      prev, mode := {}, None;
    }

    ghost function Carrying(): Carry
      reads this
    {
      Carry(prev, mode)
    }

    /** blobGCPass and sweepOrphanedBlobs; returns the blobs removed. */
    method BlobGcPass(t: Tick) returns (removed: set<Hash>)
      modifies this
      ensures Carrying() == old(Next(Carrying(), t))
      ensures removed == old(Deleted(Carrying(), t))
    {
      removed := {};
      if mode != Some(t.mode) {
        prev := {};
      }
      mode := Some(t.mode);
      if t.mode.Off? {
        return;
      }
      if !t.leader || t.scan.None? || t.listing.None? {
        prev := {};
        return;
      }
      var current, toDelete := PlanBlobSweep(t.scan.value, t.listing.value, prev, t.cutoff);
      removed := DeleteSweptBlobs(toDelete, t);
      prev := current;
    }
  }

  method DeleteSweptBlobs(toDelete: seq<Hash>, t: Tick) returns (removed: set<Hash>)
    ensures removed == if t.rescan.None? || !t.mode.On? then {}
                       else set h | h in toDelete && h !in t.rescan.value && h in t.found
                                    && t.found[h] <= t.cutoff && h !in t.failing
  {
    removed := {};
    if |toDelete| == 0 || t.rescan.None? {
      return;
    }
    var survivors, _ := ReconfirmSweep(toDelete, t.rescan.value);
    for i := 0 to |survivors|
      invariant removed == if !t.mode.On? then {}
                           else set h | h in survivors[..i] && h in t.found && t.found[h] <= t.cutoff && h !in t.failing
    {
      assert survivors[..i + 1] == survivors[..i] + [survivors[i]];
      var h := survivors[i];
      // DeleteIfNotModifiedSince: a missing blob, a newer one and an I/O error all leave it.
      if t.mode.On? && h !in t.failing && h in t.found && t.found[h] <= t.cutoff {
        removed := removed + {h};
      }
    }
    assert survivors[..|survivors|] == survivors;
  }

  // ------------------------------------------------------------ whole runs

  function After(ticks: seq<Tick>, n: nat): Carry
    requires n <= |ticks|
  {
    if n == 0 then FIRST else Next(After(ticks, n - 1), ticks[n - 1])
  }

  /** A leader's tick that lists h as old, and whose scan succeeds without it. */
  predicate Missed(h: Hash, t: Tick) {
    && !t.mode.Off? && t.leader && t.scan.Some? && h !in t.scan.value
    && t.listing.Some? && h in t.listing.value && t.listing.value[h] <= t.cutoff
  }

  /**
    Over any run, a blob goes in tick n exactly when the mode is on, the scan of
    the tick before, this tick's scan and the re-scan all succeeded and missed
    it, under one mode, and it was old enough each time it was looked at.
  */
  lemma ThreeScansMissed(ticks: seq<Tick>, n: nat, h: Hash)
    requires n < |ticks|
    ensures h in Deleted(After(ticks, n), ticks[n]) <==>
            && n > 0 && ticks[n - 1].mode == ticks[n].mode == On
            && Missed(h, ticks[n - 1]) && Missed(h, ticks[n])
            && ticks[n].rescan.Some? && h !in ticks[n].rescan.value
            && h in ticks[n].found && ticks[n].found[h] <= ticks[n].cutoff && h !in ticks[n].failing
  {
    if n > 0 {
      var c := After(ticks, n - 1);
      assert After(ticks, n) == Next(c, ticks[n - 1]);
    }
  }

  // --------------------------------------------- references that move

  /** A scan that reads every source once, at the times given. */
  type Scan = seq<nat>

  predicate Reads(scan: Scan, sources: nat, w: SpoolScan.Window) {
    |scan| == sources && forall s :: 0 <= s < sources ==> w.lo <= scan[s] <= w.hi
  }

  /** The source holding the reference at each instant. */
  type Holder = seq<nat>

  function Moves(at: Holder): (e: seq<bool>)
    ensures |e| == |at|
    ensures forall t {:trigger e[t]} :: 0 <= t < |at| ==> (e[t] <==> t + 1 < |at| && at[t + 1] != at[t])
  {
    seq(|at|, t requires 0 <= t < |at| => t + 1 < |at| && at[t + 1] != at[t])
  }

  /** Some source is read while it holds the reference. */
  ghost predicate Finds(scan: Scan, at: Holder) {
    exists s :: 0 <= s < |scan| && scan[s] < |at| && at[scan[s]] == s
  }

  lemma {:induction false} Still(at: Holder, a: nat, b: nat)
    requires a <= b < |at| && SpoolScan.Count(Moves(at), a, b) == 0
    ensures at[a] == at[b]
    decreases b - a
  {
    if a < b {
      assert !Moves(at)[a];
      Still(at, a + 1, b);
    }
  }

  lemma QuietScanFinds(scan: Scan, at: Holder, sources: nat, w: SpoolScan.Window)
    requires Reads(scan, sources, w) && w.lo <= w.hi < |at|
    requires forall t :: 0 <= t < |at| ==> at[t] < sources
    requires SpoolScan.Count(Moves(at), w.lo, w.hi) == 0
    ensures Finds(scan, at)
  {
    var s := at[w.lo];
    SpoolScan.CountSplit(Moves(at), w.lo, scan[s], w.hi);
    Still(at, w.lo, scan[s]);
    assert at[scan[s]] == s;
  }

  /** Fewer moves than scans: one of the scans finds the reference. */
  lemma SomeScanFinds(scans: seq<Scan>, ws: seq<SpoolScan.Window>, at: Holder, sources: nat) returns (i: nat)
    requires |scans| == |ws| > 0
    requires SpoolScan.Windows(ws, |at|) && forall k :: 0 <= k < |ws| ==> ws[k].hi < |at| && Reads(scans[k], sources, ws[k])
    requires forall t :: 0 <= t < |at| ==> at[t] < sources
    requires SpoolScan.Count(Moves(at), ws[0].lo, ws[|ws| - 1].hi) < |ws|
    ensures i < |scans| && Finds(scans[i], at)
  {
    i := SpoolScan.QuietWindow(Moves(at), ws);
    QuietScanFinds(scans[i], at, sources, ws[i]);
  }

  /**
    The blob h stays referenced, at every instant from one of the sources, over
    the three scans that tick n rests on, and a scan that finds the reference
    reports it.
  */
  datatype Watch = Watch(scans: seq<Scan>, ws: seq<SpoolScan.Window>, at: Holder, sources: nat)

  ghost predicate Referenced(ticks: seq<Tick>, n: nat, h: Hash, v: Watch) {
    && 0 < n < |ticks| && |v.scans| == |v.ws| == 3
    && SpoolScan.Windows(v.ws, |v.at|)
    && (forall k :: 0 <= k < 3 ==> v.ws[k].hi < |v.at| && Reads(v.scans[k], v.sources, v.ws[k]))
    && (forall t :: 0 <= t < |v.at| ==> v.at[t] < v.sources)
    && (ticks[n - 1].scan.Some? && Finds(v.scans[0], v.at) ==> h in ticks[n - 1].scan.value)
    && (ticks[n].scan.Some? && Finds(v.scans[1], v.at) ==> h in ticks[n].scan.value)
    && (ticks[n].rescan.Some? && Finds(v.scans[2], v.at) ==> h in ticks[n].rescan.value)
  }

  ghost predicate MovesAtMost(v: Watch, moves: nat) {
    && |v.ws| == 3 && v.ws[0].lo <= v.ws[2].hi <= |v.at|
    && SpoolScan.Count(Moves(v.at), v.ws[0].lo, v.ws[2].hi) <= moves
  }

  /**
    A blob that stays referenced from the first of three scans to the deletion,
    its reference moving between sources at most twice, is not deleted.
  */
  lemma ContinuouslyReferencedSurvives(ticks: seq<Tick>, n: nat, h: Hash, v: Watch)
    requires Referenced(ticks, n, h, v) && MovesAtMost(v, 2)
    ensures h !in Deleted(After(ticks, n), ticks[n])
  {
    ThreeScansMissed(ticks, n, h);
    var i := SomeScanFinds(v.scans, v.ws, v.at, v.sources);
  }

  ghost predicate AlwaysSurvives(moves: nat) {
    forall ticks: seq<Tick>, n: nat, h: Hash, v: Watch ::
      Referenced(ticks, n, h, v) && MovesAtMost(v, moves) ==> h !in Deleted(After(ticks, n), ticks[n])
  }

  /** Two is the limit. */
  lemma SurvivesIff(moves: nat)
    ensures AlwaysSurvives(moves) <==> moves <= 2
  {
    if moves <= 2 {
      forall ticks: seq<Tick>, n: nat, h: Hash, v: Watch | Referenced(ticks, n, h, v) && MovesAtMost(v, moves)
        ensures h !in Deleted(After(ticks, n), ticks[n])
      {
        ContinuouslyReferencedSurvives(ticks, n, h, v);
      }
    } else {
      ThreeMovesDelete("h");
      assert MovesAtMost(HIDDEN, moves);
    }
  }

  const HIDDEN := Watch(
    [[0, 1, 2, 3], [4, 5, 6, 7], [8, 9, 10, 11]],
    [SpoolScan.Window(0, 3), SpoolScan.Window(4, 7), SpoolScan.Window(8, 11)],
    [3, 3, 3, 2, 2, 2, 1, 1, 1, 0, 0, 0], 4)

  /** A tick in which nobody reports h. */
  function Blind(h: Hash): Tick {
    Tick(On, true, Some({}), Some(map[h := 0]), 0, Some({}), map[h := 0], {})
  }

  /** Three moves, each just behind the reader, hide a reference from three scans, and the blob is deleted. */
  lemma ThreeMovesDelete(h: Hash)
    ensures var ticks := [Blind(h), Blind(h)];
            Referenced(ticks, 1, h, HIDDEN) && MovesAtMost(HIDDEN, 3) && h in Deleted(After(ticks, 1), ticks[1])
  {
    var ticks := [Blind(h), Blind(h)];
    HiddenMoves();
    HiddenReads();
    HiddenUnfound();
    ThreeScansMissed(ticks, 1, h);
  }

  lemma HiddenUnfound()
    ensures forall k :: 0 <= k < 3 ==> !Finds(HIDDEN.scans[k], HIDDEN.at)
  {
    assert !Finds(HIDDEN.scans[0], HIDDEN.at) && !Finds(HIDDEN.scans[1], HIDDEN.at) && !Finds(HIDDEN.scans[2], HIDDEN.at);
  }

  lemma HiddenReads()
    ensures SpoolScan.Windows(HIDDEN.ws, |HIDDEN.at|)
    ensures forall k :: 0 <= k < 3 ==> HIDDEN.ws[k].hi < |HIDDEN.at| && Reads(HIDDEN.scans[k], HIDDEN.sources, HIDDEN.ws[k])
  {
  }

  lemma HiddenMoves()
    ensures SpoolScan.Count(Moves(HIDDEN.at), 0, 11) == 3
  {
    var e := Moves(HIDDEN.at);
    assert !e[0] && !e[1] && e[2] && !e[3] && !e[4] && e[5] && !e[6] && !e[7] && e[8] && !e[9] && !e[10];
    assert SpoolScan.Count(e, 9, 11) == 0;
    assert SpoolScan.Count(e, 6, 11) == 1;
    assert SpoolScan.Count(e, 3, 11) == 2;
    assert SpoolScan.Count(e, 0, 11) == 3;
  }
}
