/**
  Calendar subscriptions: a parsed feed is applied to a calendar by UID, one
  Raft write per event, creates and updates before deletes.  The writes are not
  atomic, so a refresh can stop anywhere and is finished by the next one.

  Target is what a finished apply leaves; Mixed is what a stopped one leaves.
*/
module Subscriptions {

  import opened Commands
  import opened Wrappers

  type Raw = seq<int>

  /** body stands for the fields derived from raw. */
  datatype Event = Event(cal: string, raw: Raw, body: string, created: int)

  datatype FeedEvent = FeedEvent(uid: string, raw: Raw, body: string)

  type Events = map<string, Event>

  /** The calendar, the guid derived from (calendar, UID), and the parsed feed. */
  datatype Sub = Sub(cal: string, guid: string -> string, feed: seq<FeedEvent>)

  /** ParseFeed keeps the first of each UID; the derived guid is 128 bits of a hash. */
  ghost predicate Distinct(b: Sub) {
    forall i, j :: 0 <= i < j < |b.feed| ==> b.guid(b.feed[i].uid) != b.guid(b.feed[j].uid)
  }

  /** The feed by guid. */
  function Wanted(b: Sub, n: nat): map<string, FeedEvent>
    requires n <= |b.feed|
  {
    if n == 0 then map[] else Wanted(b, n - 1)[b.guid(b.feed[n - 1].uid) := b.feed[n - 1]]
  }

  function Feed(b: Sub): map<string, FeedEvent> { Wanted(b, |b.feed|) }

  lemma {:induction false} WantedAt(b: Sub, n: nat, g: string)
    requires n <= |b.feed|
    ensures g in Wanted(b, n) ==> exists i :: 0 <= i < n && g == b.guid(b.feed[i].uid) && Wanted(b, n)[g] == b.feed[i]
    ensures forall i :: 0 <= i < n && Distinct(b) ==>
              b.guid(b.feed[i].uid) in Wanted(b, n) && Wanted(b, n)[b.guid(b.feed[i].uid)] == b.feed[i]
  {
    if n > 0 {
      WantedAt(b, n - 1, g);
    }
  }

  // ------------------------------------------------------------ the goal state

  /** The event a finished apply has under g, if any. */
  function TargetAt(prior: Events, b: Sub, now: int, g: string): Option<Event> {
    var feed := Feed(b);
    if g in prior && prior[g].cal != b.cal then Some(prior[g])
    else if g !in feed then None
    else if g !in prior then Some(Event(b.cal, feed[g].raw, feed[g].body, now))
    else if prior[g].raw == feed[g].raw then Some(prior[g])
    else Some(Event(b.cal, feed[g].raw, feed[g].body, prior[g].created))
  }

  function Target(prior: Events, b: Sub, now: int): Events {
    map g | g in prior.Keys + Feed(b).Keys && TargetAt(prior, b, now, g).Some? :: TargetAt(prior, b, now, g).value
  }

  /** Position i of the feed lists guid g. */
  ghost predicate Names(b: Sub, i: int, g: string) {
    0 <= i < |b.feed| && b.guid(b.feed[i].uid) == g
  }

  /**
    What the feed makes of the events: a listed event that is new is created
    now; one of this calendar takes over the raw form and the body if the raw form
    differs, and keeps its creation time; another calendar's event stays as it is,
    and what is not listed stays only there.
  */
  ghost predicate FeedApplied(prior: Events, b: Sub, now: int, after: Events) {
    && (forall i, g :: Names(b, i, g) ==>
          var fe := b.feed[i];
          && g in after
          && if g !in prior then after[g] == Event(b.cal, fe.raw, fe.body, now)
             else if prior[g].cal == b.cal && prior[g].raw != fe.raw then after[g] == prior[g].(raw := fe.raw, body := fe.body)
             else after[g] == prior[g])
    && (forall g :: (forall i :: !Names(b, i, g)) ==>
          At(after, g) == if g in prior && prior[g].cal != b.cal then Some(prior[g]) else None)
  }

  lemma TargetIsApplied(prior: Events, b: Sub, now: int)
    requires Distinct(b)
    ensures FeedApplied(prior, b, now, Target(prior, b, now))
  {
    forall i, g | Names(b, i, g) ensures g in Feed(b) && Feed(b)[g] == b.feed[i] {
      WantedAt(b, |b.feed|, g);
    }
    forall g | g in Feed(b) ensures exists i :: Names(b, i, g) {
      WantedAt(b, |b.feed|, g);
      var i :| 0 <= i < |b.feed| && g == b.guid(b.feed[i].uid);
      assert Names(b, i, g);
    }
  }

  /** The guids whose event the apply must write. */
  function Differ(prior: Events, b: Sub, now: int): set<string> {
    set g | g in prior.Keys + Feed(b).Keys && At(prior, g) != TargetAt(prior, b, now, g)
  }

  /** The target for the guids in done, the old state for the others. */
  function Mixed(prior: Events, b: Sub, now: int, done: set<string>): Events {
    map g | g in prior.Keys + Feed(b).Keys && (if g in done then TargetAt(prior, b, now, g) else At(prior, g)).Some?
          :: (if g in done then TargetAt(prior, b, now, g) else At(prior, g)).value
  }

  lemma MixedAt(prior: Events, b: Sub, now: int, done: set<string>, g: string)
    ensures At(Mixed(prior, b, now, done), g) == if g in done then TargetAt(prior, b, now, g) else At(prior, g)
  {
  }

  lemma MixedEnds(prior: Events, b: Sub, now: int, done: set<string>)
    ensures Mixed(prior, b, now, {}) == prior
    ensures Differ(prior, b, now) <= done ==> Mixed(prior, b, now, done) == Target(prior, b, now)
  {
    var m, t := Mixed(prior, b, now, done), Target(prior, b, now);
    if Differ(prior, b, now) <= done {
      forall g
        ensures At(m, g) == At(t, g)
      {
        MixedAt(prior, b, now, done, g);
        if g in prior.Keys + Feed(b).Keys {
          assert g in done || At(prior, g) == TargetAt(prior, b, now, g);
        }
      }
      SameRecords(m, t);
    }
    forall g
      ensures At(Mixed(prior, b, now, {}), g) == At(prior, g)
    {
      MixedAt(prior, b, now, {}, g);
    }
    SameRecords(Mixed(prior, b, now, {}), prior);
  }

  lemma MixedStep(prior: Events, b: Sub, now: int, done: set<string>, g: string)
    ensures var m, m' := Mixed(prior, b, now, done), Mixed(prior, b, now, done + {g});
            match TargetAt(prior, b, now, g)
            case Some(e) => m' == m[g := e]
            case None => m' == m - {g}
    ensures At(prior, g) == TargetAt(prior, b, now, g) ==> Mixed(prior, b, now, done + {g}) == Mixed(prior, b, now, done)
  {
    var m, m' := Mixed(prior, b, now, done), Mixed(prior, b, now, done + {g});
    var t := TargetAt(prior, b, now, g);
    var n := if t.Some? then m[g := t.value] else m - {g};
    forall x
      ensures At(m', x) == At(n, x)
      ensures At(prior, g) == t ==> At(m', x) == At(m, x)
    {
      MixedAt(prior, b, now, done, x);
      MixedAt(prior, b, now, done + {g}, x);
    }
    SameRecords(m', n);
    if At(prior, g) == t {
      SameRecords(m', m);
    }
  }

  // -------------------------------------------------------------- the writes

  /** Write number `at` fails, as far as the caller can tell; lands says whether it commits all the same. */
  datatype Fault = Fault(at: nat, lands: bool)

  class Calendar {
    var events: Events
    var writes: nat
    var fault: Option<Fault>

    /** One Raft write; e is None for a delete. */
    method Write(g: string, e: Option<Event>) returns (ok: bool)
      modifies this
      ensures fault == old(fault)
      ensures ok <==> fault.None? || old(writes) < fault.value.at
      ensures writes == old(writes) + if ok || fault.value.lands then 1 else 0
      ensures events == if !ok && !fault.value.lands then old(events)
                        else if e.Some? then old(events)[g := e.value] else old(events) - {g}
    {
      ok := fault.None? || writes < fault.value.at;
      if ok || fault.value.lands {
        events := if e.Some? then events[g := e.value] else events - {g};
        writes := writes + 1;
      }
    }

    /**
      apply: done is the set of guids brought to their target.  A stopped apply
      has deleted something only if everything the feed lists is in place.
      listed: the events could be listed; subscribed: the calendar was found,
      and still is a subscription.
    */
    method Apply(b: Sub, now: int, listed: bool, subscribed: bool) returns (ok: bool, ghost done: set<string>)
      requires Distinct(b)
      modifies this
      ensures events == Mixed(old(events), b, now, done)
      ensures ok ==> events == Target(old(events), b, now) && FeedApplied(old(events), b, now, events)
      ensures writes - old(writes) == |done * Differ(old(events), b, now)|
      ensures Feed(b).Keys <= done || done <= Feed(b).Keys
      ensures ok ==> listed && subscribed
      ensures fault == old(fault) && (fault.None? && listed && subscribed ==> ok)
    {
      TargetIsApplied(events, b, now);
      if listed && subscribed {
        ok, done := Replace(b, now);
      } else {
        ReachedStart(events, b, now, writes);
        ok, done := false, {};
      }
    }

    /** The two loops. */
    method Replace(b: Sub, now: int) returns (ok: bool, ghost done: set<string>)
      requires Distinct(b)
      modifies this
      ensures Reached(old(events), b, now, done, old(writes), events, writes)
      ensures ok ==> events == Target(old(events), b, now)
      ensures Feed(b).Keys <= done || done <= Feed(b).Keys
      ensures fault == old(fault) && (fault.None? ==> ok)
    {
      ghost var was, wrote := events, writes;
      var byGuid := events;
      done := {};
      ReachedStart(was, b, now, wrote);
      for i := 0 to |b.feed|
        invariant done == Wanted(b, i).Keys && fault == old(fault)
        invariant Reached(was, b, now, done, wrote, events, writes)
      {
        ok, done := PutEvent(b, i, now, byGuid, was, done, wrote);
        if !ok {
          WantedGrows(b, i + 1);
          return;
        }
      }
      ok, done := DeleteUnlisted(b, now, was, byGuid, wrote);
    }

    /** The body of the first loop: create, leave alone or update. */
    method PutEvent(b: Sub, i: nat, now: int, byGuid: Events, ghost was: Events, ghost done: set<string>,
                    ghost wrote: int)
      returns (ok: bool, ghost done': set<string>)
      requires Distinct(b) && i < |b.feed| && byGuid == was && done == Wanted(b, i).Keys
      requires Reached(was, b, now, done, wrote, events, writes)
      modifies this
      ensures Reached(was, b, now, done', wrote, events, writes)
      ensures done' <= Wanted(b, i + 1).Keys && (ok ==> done' == Wanted(b, i + 1).Keys)
      ensures fault == old(fault) && (fault.None? ==> ok)
    {
      var fe := b.feed[i];
      var g := b.guid(fe.uid);
      ghost var t := PutTarget(was, b, i, now);
      ReachedStep(was, b, now, done, wrote, events, writes, g, t);
      ok := true;
      if g !in byGuid {
        ok := Write(g, Some(Event(b.cal, fe.raw, fe.body, now)));
      } else if byGuid[g].cal != b.cal {
        // Another calendar's event: left alone.
      } else if byGuid[g].raw != fe.raw {
        ok := Write(g, Some(Event(b.cal, fe.raw, fe.body, byGuid[g].created)));
      }
      done' := if ok || fault.value.lands then done + {g} else done;
    }

    /** The second loop: events of this calendar that the feed no longer lists. */
    method DeleteUnlisted(b: Sub, now: int, ghost was: Events, byGuid: Events, ghost wrote: int)
      returns (ok: bool, ghost done: set<string>)
      requires byGuid == was && Reached(was, b, now, Feed(b).Keys, wrote, events, writes)
      modifies this
      ensures Reached(was, b, now, done, wrote, events, writes) && Feed(b).Keys <= done
      ensures ok ==> events == Target(was, b, now)
      ensures fault == old(fault) && (fault.None? ==> ok)
    {
      done := Feed(b).Keys;
      var todo := byGuid.Keys;
      while todo != {}
        invariant todo <= was.Keys && Feed(b).Keys <= done
        invariant forall g :: g in was && g !in Feed(b) ==> (g in todo <==> g !in done)
        invariant fault == old(fault) && Reached(was, b, now, done, wrote, events, writes)
        decreases |todo|
      {
        var g :| g in todo;
        todo := todo - {g};
        if g !in Feed(b) {
          ok, done := DropEvent(b, g, now, byGuid, was, done, wrote);
          if !ok {
            return;
          }
        }
      }
      ok := true;
      assert was.Keys + Feed(b).Keys <= done;
      MixedEnds(was, b, now, done);
    }

    /** An unlisted event goes if it is this calendar's. */
    method DropEvent(b: Sub, g: string, now: int, byGuid: Events, ghost was: Events, ghost done: set<string>,
                     ghost wrote: int)
      returns (ok: bool, ghost done': set<string>)
      requires byGuid == was && g in was && g !in Feed(b) && g !in done
      requires Reached(was, b, now, done, wrote, events, writes)
      modifies this
      ensures Reached(was, b, now, done', wrote, events, writes)
      ensures done <= done' && (ok ==> done' == done + {g})
      ensures fault == old(fault) && (fault.None? ==> ok)
    {
      ReachedStep(was, b, now, done, wrote, events, writes, g, TargetAt(was, b, now, g));
      ok := true;
      if byGuid[g].cal == b.cal {
        ok := Write(g, None);
      }
      done' := if ok || fault.value.lands then done + {g} else done;
    }

    /** purgeEvents: the calendar is gone, so are its events. */
    method PurgeEvents(cal: string) returns (ok: bool)
      modifies this
      ensures fault == old(fault) && (fault.None? ==> ok)
      ensures forall g :: g in events ==> g in old(events) && events[g] == old(events)[g]
      ensures forall g :: g in old(events) && old(events)[g].cal != cal ==> g in events
      ensures ok ==> forall g :: g in events ==> events[g].cal != cal
    {
      var all := events;
      var todo := all.Keys;
      while todo != {}
        invariant todo <= all.Keys && fault == old(fault)
        invariant forall g :: g in events ==> g in all && events[g] == all[g]
        invariant forall g :: g in all && (all[g].cal != cal || g in todo) ==> g in events
        invariant forall g :: g in events && events[g].cal == cal ==> g in todo
        decreases |todo|
      {
        var g :| g in todo;
        todo := todo - {g};
        if all[g].cal == cal {
          ok := Write(g, None);
          if !ok {
            return;
          }
        }
      }
      ok := true;
    }
  }

  /** es is prior with the guids in done at their target, and every one of them that needed it written once. */
  ghost predicate Reached(prior: Events, b: Sub, now: int, done: set<string>, wrote: int, es: Events, ws: int) {
    es == Mixed(prior, b, now, done) && ws - wrote == |done * Differ(prior, b, now)|
  }

  lemma ReachedStart(prior: Events, b: Sub, now: int, wrote: int)
    ensures Reached(prior, b, now, {}, wrote, prior, wrote)
  {
    MixedEnds(prior, b, now, {});
    assert {} * Differ(prior, b, now) == {};
  }

  lemma ReachedStep(prior: Events, b: Sub, now: int, done: set<string>, wrote: int, es: Events, ws: int, g: string,
                    t: Option<Event>)
    requires Reached(prior, b, now, done, wrote, es, ws) && t == TargetAt(prior, b, now, g)
    ensures At(prior, g) == t ==> Reached(prior, b, now, done + {g}, wrote, es, ws)
    ensures At(prior, g) != t && g !in done && g in prior.Keys + Feed(b).Keys ==>
              Reached(prior, b, now, done + {g}, wrote, if t.Some? then es[g := t.value] else es - {g}, ws + 1)
  {
    MixedStep(prior, b, now, done, g);
    DoneGrows(prior, b, now, done, g);
  }

  lemma DoneGrows(prior: Events, b: Sub, now: int, done: set<string>, g: string)
    ensures var d := Differ(prior, b, now);
            |(done + {g}) * d| == |done * d| + if g in d && g !in done then 1 else 0
    ensures g in prior.Keys + Feed(b).Keys ==>
              (g in Differ(prior, b, now) <==> At(prior, g) != TargetAt(prior, b, now, g))
  {
    var d := Differ(prior, b, now);
    if g in d && g !in done {
      assert (done + {g}) * d == (done * d) + {g};
    } else {
      assert (done + {g}) * d == done * d;
    }
  }

  lemma {:induction false} WantedGrows(b: Sub, n: nat)
    requires n <= |b.feed|
    ensures Wanted(b, n).Keys <= Feed(b).Keys
    decreases |b.feed| - n
  {
    if n < |b.feed| {
      WantedGrows(b, n + 1);
    }
  }

  lemma NotYet(b: Sub, i: nat)
    requires Distinct(b) && i < |b.feed|
    ensures var g := b.guid(b.feed[i].uid); g !in Wanted(b, i) && g in Feed(b) && Feed(b)[g] == b.feed[i]
  {
    WantedAt(b, i, b.guid(b.feed[i].uid));
    WantedAt(b, |b.feed|, b.guid(b.feed[i].uid));
  }

  /** The three cases of the first loop. */
  lemma PutTarget(prior: Events, b: Sub, i: nat, now: int) returns (t: Option<Event>)
    requires Distinct(b) && i < |b.feed|
    ensures var fe := b.feed[i];
            var g := b.guid(fe.uid);
            && g !in Wanted(b, i) && g in Feed(b) && t == TargetAt(prior, b, now, g)
            && t == if g !in prior then Some(Event(b.cal, fe.raw, fe.body, now))
                    else if prior[g].cal != b.cal || prior[g].raw == fe.raw then Some(prior[g])
                    else Some(Event(b.cal, fe.raw, fe.body, prior[g].created))
  {
    NotYet(b, i);
    t := TargetAt(prior, b, now, b.guid(b.feed[i].uid));
  }

  // ----------------------------------------------------------- what it means

  /** The calendar holds exactly the feed, by guid and by content. */
  ghost predicate Synced(es: Events, b: Sub) {
    forall g ::
      && (g in es && es[g].cal == b.cal <==> g in Feed(b))
      && (g in Feed(b) && g in es ==> es[g].raw == Feed(b)[g].raw)
  }

  /** No other calendar holds an event under a guid of this feed. */
  ghost predicate NoClash(es: Events, b: Sub) {
    forall g :: g in es && g in Feed(b) ==> es[g].cal == b.cal
  }

  /** From any state whatever, a finished apply leaves the feed, exactly when no guid clashes. */
  lemma FinishedSyncsIff(prior: Events, b: Sub, now: int)
    ensures Synced(Target(prior, b, now), b) <==> NoClash(prior, b)
  {
    var t := Target(prior, b, now);
    forall g
      ensures At(t, g) == TargetAt(prior, b, now, g)
    {
    }
    if NoClash(prior, b) {
      forall g
        ensures g in t && t[g].cal == b.cal <==> g in Feed(b)
        ensures g in Feed(b) && g in t ==> t[g].raw == Feed(b)[g].raw
      {
        assert At(t, g) == TargetAt(prior, b, now, g);
      }
    } else {
      var g :| g in prior && g in Feed(b) && prior[g].cal != b.cal;
      assert At(t, g) == Some(prior[g]);
    }
  }

  /** At no point is another calendar's event touched, or an event lost that the feed still lists. */
  lemma NothingLost(prior: Events, b: Sub, now: int, done: set<string>, g: string)
    ensures var m := Mixed(prior, b, now, done);
            && (g in prior && prior[g].cal != b.cal ==> g in m && m[g] == prior[g])
            && (g in prior && g in Feed(b) ==>
                  g in m && m[g].cal == prior[g].cal && (m[g].raw == prior[g].raw || m[g].raw == Feed(b)[g].raw))
            && (g in m && g !in prior ==> m[g].cal == b.cal && g in Feed(b))
  {
    MixedAt(prior, b, now, done, g);
  }

  /** Whatever a stopped apply did is not to be done again: the next one starts that much closer. */
  lemma RetryResumes(prior: Events, b: Sub, now: int, done: set<string>, later: int)
    ensures Differ(Mixed(prior, b, now, done), b, later) == Differ(prior, b, now) - done
  {
    var m := Mixed(prior, b, now, done);
    forall g
      ensures g in Differ(m, b, later) <==> g in Differ(prior, b, now) - done
    {
      MixedAt(prior, b, now, done, g);
      assert g in m <==> At(m, g).Some?;
    }
  }

  /** A second apply finds nothing to write. */
  lemma SecondApplyIdle(prior: Events, b: Sub, now: int, later: int)
    ensures Differ(Target(prior, b, now), b, later) == {}
  {
    var d := Differ(prior, b, now);
    MixedEnds(prior, b, now, d);
    RetryResumes(prior, b, now, d, later);
  }

  // ------------------------------------------------------------- validators

  /** What the publisher serves under each version (the ETag and Last-Modified it sends). */
  datatype Feeds = Feeds(cal: string, guid: string -> string, at: nat -> seq<FeedEvent>)

  function SubOf(p: Feeds, v: nat): Sub { Sub(p.cal, p.guid, p.at(v)) }

  /** saved is the version of the last apply that was recorded as finished; used, all versions served so far. */
  datatype Sys = Sys(events: Events, saved: Option<nat>, current: nat, used: set<nat>)

  ghost predicate Start(p: Feeds, s: Sys) {
    s.saved == None && s.current in s.used && forall v :: NoClash(s.events, SubOf(p, v))
  }

  /** With noReuse, a version once replaced is never served again. */
  ghost predicate Publish(noReuse: bool, s: Sys, s': Sys) {
    && s' == s.(current := s'.current, used := s.used + {s'.current})
    && (noReuse ==> s'.current !in s.used)
  }

  /**
    A refresh: 304 where the saved version is the one served; else an apply that
    stops somewhere, and the version is saved only if it did not.
  */
  ghost predicate Refresh(p: Feeds, s: Sys, s': Sys, now: int, done: set<string>) {
    var b := SubOf(p, s.current);
    if s.saved == Some(s.current) then s' == s
    else
      && s' == s.(events := Mixed(s.events, b, now, done), saved := s'.saved)
      && (s'.saved == s.saved || (s'.saved == Some(s.current) && Differ(s.events, b, now) <= done))
  }

  ghost predicate Step(p: Feeds, noReuse: bool, s: Sys, s': Sys) {
    Publish(noReuse, s, s') || exists now: int, done: set<string> :: Refresh(p, s, s', now, done)
  }

  ghost predicate IsRun(p: Feeds, noReuse: bool, run: seq<Sys>) {
    && |run| > 0 && Start(p, run[0])
    && forall i :: 0 <= i < |run| - 1 ==> Step(p, noReuse, run[i], run[i + 1])
  }

  /** A refresh that is told "not modified" is right to leave the calendar as it is. */
  ghost predicate Safe(p: Feeds, s: Sys) {
    s.saved == Some(s.current) ==> Synced(s.events, SubOf(p, s.current))
  }

  ghost predicate Inv(p: Feeds, s: Sys) {
    && Safe(p, s) && s.current in s.used
    && (s.saved.Some? ==> s.saved.value in s.used)
    && forall v :: NoClash(s.events, SubOf(p, v))
  }

  lemma StepKeeps(p: Feeds, s: Sys, s': Sys)
    requires Inv(p, s) && Step(p, true, s, s')
    ensures Inv(p, s')
  {
    if !Publish(true, s, s') {
      var now: int, done: set<string> :| Refresh(p, s, s', now, done);
      var b := SubOf(p, s.current);
      if s.saved != Some(s.current) {
        MixedEnds(s.events, b, now, done);
        FinishedSyncsIff(s.events, b, now);
        assert NoClash(s.events, b);
        forall v ensures NoClash(s'.events, SubOf(p, v)) {
          assert NoClash(s.events, SubOf(p, v));
          forall g | g in s'.events && g in Feed(SubOf(p, v)) ensures s'.events[g].cal == p.cal {
            NothingLost(s.events, b, now, done, g);
            MixedAt(s.events, b, now, done, g);
          }
        }
      }
    }
  }

  lemma {:induction false} RunSafe(p: Feeds, run: seq<Sys>)
    requires IsRun(p, true, run)
    ensures Inv(p, run[|run| - 1])
  {
    if |run| > 1 {
      var n := |run| - 1;
      assert run[..n][|run[..n]| - 1] == run[n - 1];
      RunSafe(p, run[..n]);
      assert Step(p, true, run[n - 1], run[n]);
      StepKeeps(p, run[n - 1], run[n]);
    }
  }

  ghost predicate AllSafe(noReuse: bool) {
    forall p: Feeds, run: seq<Sys> :: IsRun(p, noReuse, run) ==> Safe(p, run[|run| - 1])
  }

  /** "Not modified" is always right exactly when the publisher never goes back to a version it has replaced. */
  lemma SafeIffFresh(noReuse: bool)
    ensures AllSafe(noReuse) <==> noReuse
  {
    if noReuse {
      forall p: Feeds, run: seq<Sys> | IsRun(p, true, run) ensures Safe(p, run[|run| - 1]) {
        RunSafe(p, run);
      }
    } else {
      var p, run := RevertedFeed();
      assert !AllSafe(false);
    }
  }

  /** One event replaced by another, the apply stopped before the delete, and the feed put back. */
  lemma RevertedFeed() returns (p: Feeds, run: seq<Sys>)
    ensures IsRun(p, false, run) && !Safe(p, run[|run| - 1])
  {
    var a, b := FeedEvent("a", [1], ""), FeedEvent("b", [2], "");
    p := Feeds("cal", (u: string) => u, (v: nat) => if v == 1 then [a] else if v == 2 then [b] else []);
    var ea, eb := Event("cal", [1], "", 0), Event("cal", [2], "", 0);
    var s0 := Sys(map[], None, 1, {1});
    var s1 := Sys(map["a" := ea], Some(1), 1, {1});
    var s2 := s1.(current := 2, used := {1} + {2});
    var s3 := s2.(events := map["a" := ea, "b" := eb]);
    var s4 := s3.(current := 1, used := {1} + {2} + {1});
    OneEventFeed(SubOf(p, 1), a);
    OneEventFeed(SubOf(p, 2), b);
    OnePut(s0.events, SubOf(p, 1), a, 0);
    OnePut(s2.events, SubOf(p, 2), b, 0);
    assert s1.events == s0.events["a" := ea] && s3.events == s2.events["b" := eb];
    assert Refresh(p, s0, s1, 0, {"a"});
    assert Publish(false, s1, s2);
    assert Refresh(p, s2, s3, 0, {"b"});
    assert Publish(false, s3, s4);
    run := [s0, s1, s2, s3, s4];
    forall i | 0 <= i < |run| - 1 ensures Step(p, false, run[i], run[i + 1]) {
    }
    assert "b" in s4.events && s4.events["b"].cal == p.cal && "b" !in Feed(SubOf(p, 1));
  }

  lemma OneEventFeed(b: Sub, fe: FeedEvent)
    requires b.feed == [fe]
    ensures Feed(b) == map[b.guid(fe.uid) := fe]
  {
    assert Wanted(b, 0) == map[];
    assert Wanted(b, 1) == map[b.guid(fe.uid) := fe];
  }

  /** A new event put, and nothing else done. */
  lemma OnePut(prior: Events, b: Sub, fe: FeedEvent, now: int)
    requires b.feed == [fe] && b.guid(fe.uid) !in prior
    ensures Mixed(prior, b, now, {b.guid(fe.uid)}) == prior[b.guid(fe.uid) := Event(b.cal, fe.raw, fe.body, now)]
    ensures prior == map[] ==> Differ(prior, b, now) <= {b.guid(fe.uid)}
  {
    var g := b.guid(fe.uid);
    OneEventFeed(b, fe);
    MixedEnds(prior, b, now, {});
    MixedStep(prior, b, now, {}, g);
    assert {} + {g} == {g};
  }
}
