/**
  SIGHUP: the config file is read again and the five keys a running server can
  take are published to their consumers, all or none.  The reloader keeps a
  baseline, the config whose hot values are live, and the lock it holds for the
  whole reload makes a reload and a registration single steps.
*/
module Reload {

  import opened Wrappers
  import opened ConfigDiff
  import opened TrustedNets

  datatype HotKey = LogLevel | Threshold | HighThreshold | Networks | OnFailure

  function Name(h: HotKey): string {
    match h
    case LogLevel => "telemetry.log.level"
    case Threshold => "antispam.builtin.threshold"
    case HighThreshold => "antispam.builtin.high_threshold"
    case Networks => "smtp.trusted_networks"
    case OnFailure => "antivirus.clamav.on_failure"
  }

  /**
    What a reload rests on: the schema and the class table, where the hot leaves
    are, CIDR parsing, float64 to float32, the startup checks, and the flag and
    environment overrides.
  */
  datatype Env = Env(
    schema: Schema,
    table: map<string, KeyClass>,
    at: HotKey -> Address,
    parse: seq<string> -> Option<seq<IpNet>>,
    narrow: real -> real,
    checks: Value -> bool,
    overrides: Value -> Value)

  /** The leaf is reached through plain blocks only. */
  predicate Direct(s: Schema, at: Address)
    decreases s
  {
    match s
    case Scalar(_) => at == []
    case Strings => at == []
    case Block(fs) => at != [] && at[0] < |fs| && Direct(fs[at[0]].schema, at[1..])
    case Pointer(_) => false
    case Blocks(_) => false
  }

  /** The leaf at `at` set to x. */
  function Put(s: Schema, v: Value, at: Address, x: Value): Value
    requires Fits(s, v) && Direct(s, at)
    decreases s
  {
    match s
    case Scalar(_) => x
    case Strings => x
    case Block(fs) => Struct(v.vals[at[0] := Put(fs[at[0]].schema, v.vals[at[0]], at[1..], x)])
  }

  /** Put changes the one leaf, and nothing if the leaf was so already. */
  lemma {:induction false} PutReads(s: Schema, v: Value, w: Value, at: Address, other: Address)
    requires Fits(s, v) && Fits(s, w) && Direct(s, at) && IsLeaf(s, other) && IsLeaf(s, at)
    ensures var x := Read(s, w, at);
            var r := Put(s, v, at, x);
            && Fits(s, r)
            && Read(s, r, other) == (if other == at then x else Read(s, v, other))
            && (x == Read(s, v, at) ==> r == v)
    decreases s
  {
    match s
    case Scalar(_) =>
    case Strings =>
    case Block(fs) =>
      var i := at[0];
      var t := fs[i].schema;
      if other[0] == i {
        PutReads(t, v.vals[i], w.vals[i], at[1..], other[1..]);
        assert other == [i] + other[1..] && at == [i] + at[1..];
      } else {
        PutReads(t, v.vals[i], w.vals[i], at[1..], at[1..]);
      }
      var x := Read(s, w, at);
      var r := Put(s, v, at, x);
      assert r.vals[i] == Put(t, v.vals[i], at[1..], x);
  }

  ghost predicate HotAt(e: Env, h: HotKey) {
    && Direct(e.schema, e.at(h)) && IsLeaf(e.schema, e.at(h))
    && forall a: Address :: IsLeaf(e.schema, a) ==> (KeyOf("", e.schema, a) == Name(h) <==> a == e.at(h))
  }

  ghost predicate Wf(e: Env) {
    && (forall h :: HotAt(e, h))
    && (forall k :: ClassOf(e.table, k).kind == Hot <==> exists h :: Name(h) == k)
    && (forall l :: e.parse(l).Some? ==> AllValid(e.parse(l).value))
    && (forall v :: Fits(e.schema, v) ==> Fits(e.schema, e.overrides(v)))
  }

  lemma NamesApart(g: HotKey, h: HotKey)
    ensures Name(g) == Name(h) ==> g == h
  {
    assert |Name(LogLevel)| == 19 && |Name(Threshold)| == 26 && |Name(HighThreshold)| == 31;
    assert |Name(Networks)| == 21 && |Name(OnFailure)| == 27;
  }

  // ------------------------------------------------------- derived values

  datatype Level = Debug | Info | Warn | Error

  datatype Pair = Pair(tag: real, high: real)

  function HotLeaf(e: Env, c: Value, h: HotKey): Value
    requires Wf(e) && Fits(e.schema, c)
  {
    assert HotAt(e, h);
    Read(e.schema, c, e.at(h))
  }

  function TextOf(v: Value): string { if v.One? && v.leaf.Text? then v.leaf.text else "" }

  function NumberOf(v: Value): real { if v.One? && v.leaf.Number? then v.leaf.number else 0.0 }

  function TextsOf(v: Value): seq<string> { if v.Many? then v.texts else [] }

  /** SlogLevel: an unknown or empty name means info. */
  function LevelOf(e: Env, c: Value): Level
    requires Wf(e) && Fits(e.schema, c)
  {
    var name := TextOf(HotLeaf(e, c, LogLevel));
    if name == "debug" then Debug else if name == "warn" then Warn else if name == "error" then Error else Info
  }

  /** SpamThreshold and SpamHighThreshold, which is never below the tag threshold. */
  function PairOf(e: Env, c: Value): Pair
    requires Wf(e) && Fits(e.schema, c)
  {
    var t, h := NumberOf(HotLeaf(e, c, Threshold)), NumberOf(HotLeaf(e, c, HighThreshold));
    var tag := e.narrow(if 0.0 < t <= 1.0 then t else 0.5);
    var high := e.narrow(if 0.0 < h <= 1.0 then h else 0.9);
    Pair(tag, if high < tag then tag else high)
  }

  predicate ValidPair(p: Pair) {
    0.0 < p.tag <= 1.0 && 0.0 < p.high <= 1.0 && p.tag <= p.high
  }

  function NetsOf(e: Env, c: Value): Option<seq<IpNet>>
    requires Wf(e) && Fits(e.schema, c)
  {
    e.parse(TextsOf(HotLeaf(e, c, Networks)))
  }

  /** FailurePolicy: "accept", or else quarantine. */
  predicate AcceptOf(e: Env, c: Value)
    requires Wf(e) && Fits(e.schema, c)
  {
    TextOf(HotLeaf(e, c, OnFailure)) == "accept"
  }

  /** Passes the startup checks and prepare. */
  predicate Good(e: Env, c: Value)
    requires Wf(e) && Fits(e.schema, c)
  {
    e.checks(c) && NetsOf(e, c).Some? && ValidPair(PairOf(e, c))
  }

  /** With a rounding that keeps order, the thresholds are refused only where the tag threshold rounds to zero. */
  lemma PairValidIff(e: Env, c: Value)
    requires Wf(e) && Fits(e.schema, c)
    requires forall x, y :: x <= y ==> e.narrow(x) <= e.narrow(y)
    requires e.narrow(0.0) == 0.0 && e.narrow(0.5) == 0.5 && e.narrow(1.0) == 1.0
    ensures ValidPair(PairOf(e, c)) <==>
            var t := NumberOf(HotLeaf(e, c, Threshold)); !(0.0 < t <= 1.0 && e.narrow(t) == 0.0)
  {
    var t, h := NumberOf(HotLeaf(e, c, Threshold)), NumberOf(HotLeaf(e, c, HighThreshold));
    assert forall x :: 0.0 < x <= 1.0 ==> e.narrow(0.0) <= e.narrow(x) <= e.narrow(1.0);
  }

  /** The level named by the leaf; any other leaf means Info. */
  predicate LevelIs(leaf: Value, l: Level) {
    && (l == Debug <==> leaf == One(Text("debug")))
    && (l == Warn <==> leaf == One(Text("warn")))
    && (l == Error <==> leaf == One(Text("error")))
  }

  predicate InRange(leaf: Value) {
    leaf.One? && leaf.leaf.Number? && 0.0 < leaf.leaf.number <= 1.0
  }

  /** The thresholds of the two leaves, narrowed: 0.5 and 0.9 where out of range, and high raised to tag. */
  predicate PairIs(narrow: real -> real, tag: Value, high: Value, p: Pair) {
    && p.tag == narrow(if InRange(tag) then tag.leaf.number else 0.5)
    && p.high >= p.tag && p.high >= narrow(if InRange(high) then high.leaf.number else 0.9)
    && (p.high == p.tag || p.high == narrow(if InRange(high) then high.leaf.number else 0.9))
  }

  predicate NetsAre(parse: seq<string> -> Option<seq<IpNet>>, leaf: Value, nets: Option<seq<IpNet>>) {
    nets == parse(if leaf.Many? then leaf.texts else [])
  }

  predicate AcceptIs(leaf: Value, accept: bool) {
    accept <==> leaf == One(Text("accept"))
  }

  /** What each derived value is, on the leaf it is read from. */
  lemma DerivedAre(e: Env, c: Value)
    requires Wf(e) && Fits(e.schema, c)
    ensures HotAt(e, LogLevel) && LevelIs(Read(e.schema, c, e.at(LogLevel)), LevelOf(e, c))
    ensures HotAt(e, Threshold) && HotAt(e, HighThreshold)
    ensures PairIs(e.narrow, Read(e.schema, c, e.at(Threshold)), Read(e.schema, c, e.at(HighThreshold)), PairOf(e, c))
    ensures HotAt(e, Networks) && NetsAre(e.parse, Read(e.schema, c, e.at(Networks)), NetsOf(e, c))
    ensures HotAt(e, OnFailure) && AcceptIs(Read(e.schema, c, e.at(OnFailure)), AcceptOf(e, c))
  {
    assert HotAt(e, LogLevel) && HotAt(e, Threshold) && HotAt(e, HighThreshold) && HotAt(e, Networks)
      && HotAt(e, OnFailure);
  }

  /** A config passes exactly when the checks do, the networks parse, and the thresholds lie between 0 and 1. */
  lemma GoodIff(e: Env, c: Value)
    requires Wf(e) && Fits(e.schema, c)
    ensures HotAt(e, Threshold) && HotAt(e, HighThreshold) && HotAt(e, Networks)
    ensures Good(e, c) <==>
            && e.checks(c)
            && (exists nets :: NetsAre(e.parse, Read(e.schema, c, e.at(Networks)), Some(nets)))
            && exists p :: PairIs(e.narrow, Read(e.schema, c, e.at(Threshold)), Read(e.schema, c, e.at(HighThreshold)), p)
                           && 0.0 < p.tag && p.high <= 1.0
  {
    DerivedAre(e, c);
  }

  // ---------------------------------------------------------- the baseline

  /** Which of the nil-able holders the agent has. */
  datatype Holders = Holders(level: bool, thresholds: bool)

  predicate Held(o: Holders, h: HotKey) {
    match h
    case LogLevel => o.level
    case Threshold => o.thresholds
    case HighThreshold => o.thresholds
    case Networks => true
    case OnFailure => true
  }

  /** The key is not one whose holder is nil. */
  predicate HasConsumer(o: Holders, k: string) {
    && !(k == Name(LogLevel) && !o.level)
    && !((k == Name(Threshold) || k == Name(HighThreshold)) && !o.thresholds)
  }

  lemma ConsumerIff(o: Holders, h: HotKey)
    ensures HasConsumer(o, Name(h)) <==> Held(o, h)
  {
    NamesApart(h, LogLevel);
    NamesApart(h, Threshold);
    NamesApart(h, HighThreshold);
  }

  /** at is the leaf of a held hot key. */
  ghost predicate HeldLeaf(e: Env, o: Holders, at: Address) {
    exists h :: Held(o, h) && at == e.at(h)
  }

  ghost predicate MixedLeaves(e: Env, o: Holders, base: Value, merged: Value, done: set<HotKey>, nb: Value)
    requires Fits(e.schema, base) && Fits(e.schema, merged)
  {
    && Fits(e.schema, nb)
    && forall at: Address :: IsLeaf(e.schema, at) ==>
         Read(e.schema, nb, at) ==
           if exists h :: h in done && Held(o, h) && at == e.at(h) then Read(e.schema, merged, at) else Read(e.schema, base, at)
  }

  /** nb reads as merged at the held hot leaves and as base everywhere else. */
  ghost predicate Rebased(e: Env, o: Holders, base: Value, merged: Value, nb: Value)
    requires Fits(e.schema, base) && Fits(e.schema, merged)
  {
    && Fits(e.schema, nb)
    && forall at: Address :: IsLeaf(e.schema, at) ==>
         Read(e.schema, nb, at) == if HeldLeaf(e, o, at) then Read(e.schema, merged, at) else Read(e.schema, base, at)
  }

  function PutHot(e: Env, c: Value, h: HotKey, merged: Value): Value
    requires Wf(e) && Fits(e.schema, c) && Fits(e.schema, merged)
  {
    assert HotAt(e, h);
    Put(e.schema, c, e.at(h), HotLeaf(e, merged, h))
  }

  lemma MixStep(e: Env, o: Holders, base: Value, merged: Value, done: set<HotKey>, nb: Value, h: HotKey)
    requires Wf(e) && Fits(e.schema, base) && Fits(e.schema, merged)
    requires MixedLeaves(e, o, base, merged, done, nb)
    ensures Held(o, h) ==> MixedLeaves(e, o, base, merged, done + {h}, PutHot(e, nb, h, merged))
    ensures !Held(o, h) || HotLeaf(e, base, h) == HotLeaf(e, merged, h) ==> MixedLeaves(e, o, base, merged, done + {h}, nb)
  {
    assert HotAt(e, h);
    var r := PutHot(e, nb, h, merged);
    PutReads(e.schema, nb, merged, e.at(h), e.at(h));
    forall at: Address | IsLeaf(e.schema, at)
      ensures Read(e.schema, r, at) == if at == e.at(h) then Read(e.schema, merged, at) else Read(e.schema, nb, at)
    {
      PutReads(e.schema, nb, merged, e.at(h), at);
    }
  }

  lemma MixStart(e: Env, o: Holders, base: Value, merged: Value)
    requires Fits(e.schema, base) && Fits(e.schema, merged)
    ensures MixedLeaves(e, o, base, merged, {}, base)
  {
  }

  lemma MixEnds(e: Env, o: Holders, base: Value, merged: Value, done: set<HotKey>, nb: Value)
    requires Fits(e.schema, base) && Fits(e.schema, merged)
    requires {LogLevel, Threshold, HighThreshold, Networks, OnFailure} <= done && MixedLeaves(e, o, base, merged, done, nb)
    ensures Rebased(e, o, base, merged, nb)
  {
    forall h: HotKey ensures h in done {
      match h {
        case LogLevel =>
        case Threshold =>
        case HighThreshold =>
        case Networks =>
        case OnFailure =>
      }
    }
  }

  /** A hot key is reported exactly when its one leaf differs. */
  lemma HotReportedIff(e: Env, a: Value, b: Value, h: HotKey)
    requires Wf(e) && Fits(e.schema, a) && Fits(e.schema, b)
    ensures Reported("", e.schema, a, b, Name(h)) <==> HotLeaf(e, a, h) != HotLeaf(e, b, h)
  {
    assert HotAt(e, h);
    ReportedIff("", e.schema, a, b, Name(h));
    assert DiffersAt("", e.schema, a, b, Name(h), e.at(h)) <==> HotLeaf(e, a, h) != HotLeaf(e, b, h);
  }

  // ----------------------------------------------------------- the consumers

  class LevelVar {
    var level: Level
  }

  /** Publishes a pair at a time. */
  class ThresholdHolder {
    var pair: Pair

    method Store(p: Pair) returns (ok: bool)
      modifies this
      ensures ok <==> ValidPair(p)
      ensures pair == if ok then p else old(pair)
    {
      ok := ValidPair(p);
      if ok {
        pair := p;
      }
    }
  }

  class Backend {
    var nets: seq<IpNet>
  }

  class ClamAv {
    var accept: bool
  }

  /** The lists of the summary line, and whether the networks change was logged as a widening. */
  datatype Report = Report(applied: seq<KeyChange>, restart: seq<KeyChange>, noop: seq<KeyChange>, widened: bool)

  class Agent {
    const env: Env
    const enabled: bool
    const logLevel: LevelVar?
    const spamThresholds: ThresholdHolder?
    var baseline: Value
    var smtpBackends: seq<Backend>
    var clamavProcs: seq<ClamAv>

    /** NewAgent and EnableReload: the holders are built from the config the baseline is a clone of. */
    constructor (e: Env, enabled: bool, baseline: Value, level: LevelVar?, thresholds: ThresholdHolder?)
      requires Wf(e) && Fits(e.schema, baseline)
      requires level != null ==> level.level == LevelOf(e, baseline)
      requires thresholds != null ==> thresholds.pair == PairOf(e, baseline)
      ensures Valid() && env == e && this.enabled == enabled && this.baseline == baseline
      ensures logLevel == level && spamThresholds == thresholds && smtpBackends == [] && clamavProcs == []
    {
      env, this.enabled, this.baseline := e, enabled, baseline;
      logLevel, spamThresholds, smtpBackends, clamavProcs := level, thresholds, [], [];
    }

    function Has(): Holders {
      Holders(logLevel != null, spamThresholds != null)
    }

    ghost function Consumers(): set<object>
      reads this`smtpBackends, this`clamavProcs
    {
      (if logLevel != null then {logLevel} else {}) + (if spamThresholds != null then {spamThresholds} else {})
      + (set b | b in smtpBackends) + (set c | c in clamavProcs)
    }

    /** Every consumer carries what c says. */
    ghost predicate Follows(c: Value)
      requires Wf(env) && Fits(env.schema, c)
      reads this`smtpBackends, this`clamavProcs, Consumers()
    {
      && (logLevel != null ==> logLevel.level == LevelOf(env, c))
      && (spamThresholds != null ==> spamThresholds.pair == PairOf(env, c))
      && (forall b :: b in smtpBackends ==> Some(b.nets) == NetsOf(env, c))
      && (forall p :: p in clamavProcs ==> p.accept == AcceptOf(env, c))
    }

    ghost predicate Valid()
      reads this, Consumers()
    {
      Wf(env) && Fits(env.schema, baseline) && Follows(baseline)
    }

    lemma FollowsRebased(base: Value, merged: Value, nb: Value)
      requires Wf(env) && Fits(env.schema, base) && Fits(env.schema, merged)
      requires Rebased(env, Has(), base, merged, nb)
      ensures Follows(nb) <==> Follows(merged)
      ensures NetsOf(env, nb) == NetsOf(env, merged)
    {
      RebasedDerived(env, Has(), base, merged, nb);
    }

    /** Every consumer carries what the leaves of c say. */
    ghost predicate Serves(c: Value)
      requires Wf(env) && Fits(env.schema, c)
      reads this`smtpBackends, this`clamavProcs, Consumers()
    {
      && (logLevel != null ==>
            HotAt(env, LogLevel) && LevelIs(Read(env.schema, c, env.at(LogLevel)), logLevel.level))
      && (spamThresholds != null ==>
            HotAt(env, Threshold) && HotAt(env, HighThreshold)
            && PairIs(env.narrow, Read(env.schema, c, env.at(Threshold)), Read(env.schema, c, env.at(HighThreshold)),
                      spamThresholds.pair))
      && (forall b :: b in smtpBackends ==>
            HotAt(env, Networks) && NetsAre(env.parse, Read(env.schema, c, env.at(Networks)), Some(b.nets)))
      && (forall p :: p in clamavProcs ==>
            HotAt(env, OnFailure) && AcceptIs(Read(env.schema, c, env.at(OnFailure)), p.accept))
    }

    /** Every consumer has the prepared value. */
    ghost predicate Carries(p: Prepared)
      reads this`smtpBackends, this`clamavProcs, Consumers()
    {
      && (logLevel != null ==> logLevel.level == p.level)
      && (spamThresholds != null ==> spamThresholds.pair == p.pair)
      && (forall b :: b in smtpBackends ==> b.nets == p.nets)
      && (forall c :: c in clamavProcs ==> c.accept == p.accept)
    }

    /** Applied keys have a holder, and what is not applied is in place already. */
    ghost predicate Ready(p: Prepared, applied: set<HotKey>)
      reads this`smtpBackends, this`clamavProcs, Consumers()
    {
      && (if LogLevel in applied then logLevel != null else logLevel != null ==> logLevel.level == p.level)
      && (if Threshold in applied || HighThreshold in applied then spamThresholds != null
          else spamThresholds != null ==> spamThresholds.pair == p.pair)
      && (Networks !in applied ==> forall b :: b in smtpBackends ==> b.nets == p.nets)
      && (OnFailure !in applied ==> forall c :: c in clamavProcs ==> c.accept == p.accept)
    }

    lemma RestIsReady(merged: Value, p: Prepared, applied: set<HotKey>)
      requires Valid() && Fits(env.schema, merged) && Prepare(env, merged) == Some(p)
      requires forall h :: h in applied <==> Held(Has(), h) && HotLeaf(env, baseline, h) != HotLeaf(env, merged, h)
      ensures Ready(p, applied) && ValidPair(p.pair)
    {
      LeftAlone(env, Has(), baseline, merged, applied);
    }

    lemma CarriesFollows(c: Value, p: Prepared)
      requires Wf(env) && Fits(env.schema, c) && Prepare(env, c) == Some(p) && Carries(p)
      ensures Follows(c)
    {
    }

    lemma FollowsServes(c: Value)
      requires Wf(env) && Fits(env.schema, c) && Follows(c)
      ensures Serves(c)
    {
      DerivedAre(env, c);
    }

    /** registerSMTPBackend */
    method RegisterSmtpBackend(b: Backend) returns (n: Option<nat>)
      requires Valid()
      modifies this`smtpBackends, b
      ensures Valid() && baseline == old(baseline)
      ensures n.Some? <==> NetsOf(env, baseline).Some?
      ensures n.Some? ==> smtpBackends == old(smtpBackends) + [b] && n.value == |b.nets|
      ensures n.None? ==> smtpBackends == old(smtpBackends) && b.nets == old(b.nets)
      ensures HotAt(env, Networks)
      ensures n.Some? ==> NetsAre(env.parse, Read(env.schema, baseline, env.at(Networks)), Some(b.nets))
      ensures n.None? ==> NetsAre(env.parse, Read(env.schema, baseline, env.at(Networks)), None)
    {
      DerivedAre(env, baseline);
      var nets := NetsOf(env, baseline);
      if nets.None? {
        return None;
      }
      b.nets := nets.value;
      smtpBackends := smtpBackends + [b];
      n := Some(|nets.value|);
    }

    /** registerClamAV; p is null for any other processor. */
    method RegisterClamAv(p: ClamAv?)
      requires Valid()
      modifies this`clamavProcs, p
      ensures Valid() && baseline == old(baseline)
      ensures clamavProcs == old(clamavProcs) + if p == null then [] else [p]
      ensures p != null ==> HotAt(env, OnFailure) && AcceptIs(Read(env.schema, baseline, env.at(OnFailure)), p.accept)
    {
      DerivedAre(env, baseline);
      if p == null {
        return;
      }
      p.accept := AcceptOf(env, baseline);
      clamavProcs := clamavProcs + [p];
    }

    method SetNetworks(nets: seq<IpNet>)
      modifies set b | b in smtpBackends
      ensures forall b :: b in smtpBackends ==> b.nets == nets
    {
      for i := 0 to |smtpBackends|
        invariant forall j :: 0 <= j < i ==> smtpBackends[j].nets == nets
      {
        smtpBackends[i].nets := nets;
      }
    }

    method SetOnFailure(accept: bool)
      modifies set c | c in clamavProcs
      ensures forall c :: c in clamavProcs ==> c.accept == accept
    {
      for i := 0 to |clamavProcs|
        invariant forall j :: 0 <= j < i ==> clamavProcs[j].accept == accept
      {
        clamavProcs[i].accept := accept;
      }
    }

    /** dropUnheld */
    method DropUnheld(hot: seq<KeyChange>) returns (out: seq<KeyChange>)
      requires Sorted(hot)
      ensures Sorted(out)
      ensures forall x :: x in out <==> x in hot && HasConsumer(Has(), x.key)
    {
      out := [];
      for i := 0 to |hot|
        invariant Sorted(out)
        invariant forall x :: x in out <==> x in hot[..i] && HasConsumer(Has(), x.key)
      {
        assert hot[..i + 1] == hot[..i] + [hot[i]];
        forall x | x in out ensures Before(x.key, hot[i].key) {
          assert x in hot[..i];
        }
        if HasConsumer(Has(), hot[i].key) {
          out := out + [hot[i]];
        }
      }
      assert hot[..|hot|] == hot;
    }

    /** The new baseline takes over the leaves of the applied keys; the two thresholds go together. */
    method NewBaseline(merged: Value, applied: set<HotKey>) returns (nb: Value)
      requires Wf(env) && Fits(env.schema, baseline) && Fits(env.schema, merged)
      requires forall h :: h in applied <==> Held(Has(), h) && HotLeaf(env, baseline, h) != HotLeaf(env, merged, h)
      ensures Rebased(env, Has(), baseline, merged, nb)
    {
      MixStart(env, Has(), baseline, merged);
      ghost var done: set<HotKey> := {};
      var pair := Threshold in applied || HighThreshold in applied;
      nb, done := TakeLeaf(merged, baseline, done, LogLevel, LogLevel in applied);
      nb, done := TakeLeaf(merged, nb, done, Threshold, pair);
      nb, done := TakeLeaf(merged, nb, done, HighThreshold, pair);
      nb, done := TakeLeaf(merged, nb, done, Networks, Networks in applied);
      nb, done := TakeLeaf(merged, nb, done, OnFailure, OnFailure in applied);
      MixEnds(env, Has(), baseline, merged, done, nb);
    }

    method TakeLeaf(merged: Value, c: Value, ghost done: set<HotKey>, h: HotKey, take: bool)
      returns (nb: Value, ghost done': set<HotKey>)
      requires Wf(env) && Fits(env.schema, baseline) && Fits(env.schema, merged)
      requires MixedLeaves(env, Has(), baseline, merged, done, c)
      requires take ==> Held(Has(), h)
      requires !take ==> !Held(Has(), h) || HotLeaf(env, baseline, h) == HotLeaf(env, merged, h)
      ensures done' == done + {h} && MixedLeaves(env, Has(), baseline, merged, done', nb)
    {
      MixStep(env, Has(), baseline, merged, done, c, h);
      nb := if take then PutHot(env, c, h, merged) else c;
      done' := done + {h};
    }

    /**
      Reload: the file as read, None where it does not parse, and whether the
      context had ended.  A reload that fails changes nothing; one that succeeds
      moves the held hot leaves of the baseline, all of them, and no other leaf.
    */
    method Reload(cancelled: bool, file: Option<Value>) returns (ok: bool, report: Report, ghost changed: set<string>)
      requires Valid() && (file.Some? ==> Fits(env.schema, file.value))
      modifies this`baseline, Consumers()
      ensures Valid() && Serves(baseline)
      ensures enabled ==> (ok <==> Succeeds(env, cancelled, file))
      ensures enabled && ok ==> Serves(env.overrides(file.value))
      ensures !ok || !enabled ==> baseline == old(baseline) && unchanged(Consumers())
      ensures enabled && ok ==>
                var merged := env.overrides(file.value);
                && Rebased(env, Has(), old(baseline), merged, baseline)
                && (forall k :: k in changed <==> Reported("", env.schema, old(baseline), merged, k))
                && AppliedRight(report.applied, changed, env.table, Has())
                && Lists(report.restart, changed, env.table, Restart) && Lists(report.noop, changed, env.table, NoOp)
                && (!report.widened ==> NoNewTrust(NetsOf(env, old(baseline)), NetsOf(env, baseline)))
    {
      ok, report, changed := true, Report([], [], [], false), {};
      FollowsServes(baseline);
      if !enabled {
        return;
      }
      if cancelled || file.None? {
        ok := false;
        return;
      }
      var merged := env.overrides(file.value);
      var p := Prepare(env, merged);
      if p.None? {
        ok := false;
        return;
      }
      report, changed := Apply(merged, p.value);
    }

    /** The steps of a reload once the new values are prepared; none of them can fail. */
    method Apply(merged: Value, p: Prepared) returns (report: Report, ghost changed: set<string>)
      requires Valid() && Fits(env.schema, merged) && Prepare(env, merged) == Some(p)
      modifies this`baseline, Consumers()
      ensures Valid() && Serves(baseline) && Serves(merged)
      ensures Rebased(env, Has(), old(baseline), merged, baseline)
      ensures forall k :: k in changed <==> Reported("", env.schema, old(baseline), merged, k)
      ensures AppliedRight(report.applied, changed, env.table, Has())
      ensures Lists(report.restart, changed, env.table, Restart) && Lists(report.noop, changed, env.table, NoOp)
      ensures !report.widened ==> NoNewTrust(NetsOf(env, old(baseline)), NetsOf(env, baseline))
    {
      var applied;
      report, applied, changed := Decide(merged);
      var widened := Settle(merged, p, applied);
      report := report.(widened := widened);
      FollowsServes(baseline);
      FollowsRebased(old(baseline), merged, baseline);
      FollowsServes(merged);
    }

    /** The changed keys by class, and the ones to apply. */
    method Decide(merged: Value) returns (report: Report, applied: set<HotKey>, ghost changed: set<string>)
      requires Wf(env) && Fits(env.schema, baseline) && Fits(env.schema, merged)
      ensures forall k :: k in changed <==> Reported("", env.schema, baseline, merged, k)
      ensures forall h :: h in applied <==> Held(Has(), h) && HotLeaf(env, baseline, h) != HotLeaf(env, merged, h)
      ensures AppliedRight(report.applied, changed, env.table, Has())
      ensures Lists(report.restart, changed, env.table, Restart) && Lists(report.noop, changed, env.table, NoOp)
    {
      var hot, restart, noop;
      hot, restart, noop, changed := Diff(env.schema, baseline, merged, env.table);
      var dropped := DropUnheld(hot);
      applied := AppliedKeys(merged, hot, dropped, changed);
      report := Report(dropped, restart, noop, false);
    }

    /** The consumers first, then the baseline. */
    method Settle(merged: Value, p: Prepared, applied: set<HotKey>) returns (widened: bool)
      requires Valid() && Fits(env.schema, merged) && Prepare(env, merged) == Some(p)
      requires forall h :: h in applied <==> Held(Has(), h) && HotLeaf(env, baseline, h) != HotLeaf(env, merged, h)
      modifies this`baseline, Consumers()
      ensures Valid() && Rebased(env, Has(), old(baseline), merged, baseline)
      ensures !widened ==> NoNewTrust(NetsOf(env, old(baseline)), NetsOf(env, baseline))
    {
      widened := JudgeNetworks(merged, p.nets, Networks in applied);
      PublishMerged(merged, p, applied);
      Rebase(merged, applied);
    }

    method PublishMerged(merged: Value, p: Prepared, applied: set<HotKey>)
      requires Valid() && Fits(env.schema, merged) && Prepare(env, merged) == Some(p)
      requires forall h :: h in applied <==> Held(Has(), h) && HotLeaf(env, baseline, h) != HotLeaf(env, merged, h)
      modifies Consumers()
      ensures Follows(merged)
    {
      RestIsReady(merged, p, applied);
      Publish(p, applied);
      CarriesFollows(merged, p);
    }

    method Rebase(merged: Value, applied: set<HotKey>)
      requires Wf(env) && Fits(env.schema, baseline) && Fits(env.schema, merged) && Follows(merged)
      requires forall h :: h in applied <==> Held(Has(), h) && HotLeaf(env, baseline, h) != HotLeaf(env, merged, h)
      modifies this`baseline
      ensures Valid() && Rebased(env, Has(), old(baseline), merged, baseline)
      ensures NetsOf(env, baseline) == NetsOf(env, merged)
    {
      var nb := NewBaseline(merged, applied);
      FollowsRebased(baseline, merged, nb);
      baseline := nb;
    }

    /** The applied keys, as the tests on hotSet see them. */
    method AppliedKeys(merged: Value, hot: seq<KeyChange>, dropped: seq<KeyChange>, ghost changed: set<string>)
      returns (applied: set<HotKey>)
      requires Wf(env) && Fits(env.schema, baseline) && Fits(env.schema, merged)
      requires forall k :: k in changed <==> Reported("", env.schema, baseline, merged, k)
      requires Lists(hot, changed, env.table, Hot) && Sorted(dropped)
      requires forall x :: x in dropped <==> x in hot && HasConsumer(Has(), x.key)
      ensures AppliedRight(dropped, changed, env.table, Has())
      ensures forall h :: h in applied <==> Held(Has(), h) && HotLeaf(env, baseline, h) != HotLeaf(env, merged, h)
    {
      var hotSet := set x | x in dropped :: x.key;
      applied := set h: HotKey | Name(h) in hotSet;
      forall h
        ensures Name(h) in hotSet <==> Name(h) in changed && Held(Has(), h)
        ensures Name(h) in changed <==> HotLeaf(env, baseline, h) != HotLeaf(env, merged, h)
      {
        HotReportedIff(env, baseline, merged, h);
        HotListed(env, Has(), hot, dropped, changed, h);
      }
    }

    /** trustWidened on the networks before and after; a baseline that does not parse counts as none. */
    method JudgeNetworks(merged: Value, nets: seq<IpNet>, changed: bool) returns (widened: bool)
      requires Wf(env) && Fits(env.schema, baseline) && Fits(env.schema, merged) && NetsOf(env, merged) == Some(nets)
      requires !changed ==> HotLeaf(env, baseline, Networks) == HotLeaf(env, merged, Networks)
      ensures !widened ==> NoNewTrust(NetsOf(env, baseline), NetsOf(env, merged))
    {
      widened := false;
      if changed {
        var was := NetsOf(env, baseline);
        widened := TrustWidened(if was.Some? then was.value else [], nets);
      }
    }

    /** Every consumer gets the prepared value, or it has it already. */
    method Publish(p: Prepared, applied: set<HotKey>)
      requires Ready(p, applied) && ValidPair(p.pair)
      modifies Consumers()
      ensures Carries(p)
    {
      if LogLevel in applied {
        logLevel.level := p.level;
      }
      if Threshold in applied || HighThreshold in applied {
        var _ := spamThresholds.Store(p.pair);
      }
      if Networks in applied {
        SetNetworks(p.nets);
      }
      if OnFailure in applied {
        SetOnFailure(p.accept);
      }
    }
  }

  /** Applied keys have a holder, and what is not applied is live already. */
  ghost predicate RestIsLive(e: Env, o: Holders, base: Value, merged: Value, applied: set<HotKey>)
    requires Wf(e) && Fits(e.schema, base) && Fits(e.schema, merged)
  {
    && (if LogLevel in applied then o.level else o.level ==> LevelOf(e, base) == LevelOf(e, merged))
    && (if Threshold in applied || HighThreshold in applied then o.thresholds
        else o.thresholds ==> PairOf(e, base) == PairOf(e, merged))
    && (Networks !in applied ==> NetsOf(e, base) == NetsOf(e, merged))
    && (OnFailure !in applied ==> AcceptOf(e, base) == AcceptOf(e, merged))
  }

  lemma LeftAlone(e: Env, o: Holders, base: Value, merged: Value, applied: set<HotKey>)
    requires Wf(e) && Fits(e.schema, base) && Fits(e.schema, merged)
    requires forall h :: h in applied <==> Held(o, h) && HotLeaf(e, base, h) != HotLeaf(e, merged, h)
    ensures RestIsLive(e, o, base, merged, applied)
  {
  }

  lemma HotListed(e: Env, o: Holders, hot: seq<KeyChange>, dropped: seq<KeyChange>, changed: set<string>, h: HotKey)
    requires Wf(e) && Lists(hot, changed, e.table, Hot)
    requires forall x :: x in dropped <==> x in hot && HasConsumer(o, x.key)
    ensures (exists x :: x in dropped && x.key == Name(h)) <==> Name(h) in changed && Held(o, h)
  {
    assert ClassOf(e.table, Name(h)).kind == Hot;
    var x := KeyChange(Name(h), ClassOf(e.table, Name(h)).secret);
    ConsumerIff(o, h);
    assert Name(h) in changed ==> x in hot;
    assert Name(h) in changed && Held(o, h) ==> x in dropped && x.key == Name(h);
  }

  lemma RebasedHot(e: Env, o: Holders, base: Value, merged: Value, nb: Value)
    requires Wf(e) && Fits(e.schema, base) && Fits(e.schema, merged) && Rebased(e, o, base, merged, nb)
    ensures forall h :: HotLeaf(e, nb, h) == if Held(o, h) then HotLeaf(e, merged, h) else HotLeaf(e, base, h)
  {
    forall h
      ensures HotLeaf(e, nb, h) == if Held(o, h) then HotLeaf(e, merged, h) else HotLeaf(e, base, h)
    {
      assert HotAt(e, h);
      HeldLeafIff(e, o, h);
    }
  }

  /** So the live values are those of merged, where they have a holder. */
  lemma RebasedDerived(e: Env, o: Holders, base: Value, merged: Value, nb: Value)
    requires Wf(e) && Fits(e.schema, base) && Fits(e.schema, merged) && Rebased(e, o, base, merged, nb)
    ensures o.level ==> LevelOf(e, nb) == LevelOf(e, merged)
    ensures o.thresholds ==> PairOf(e, nb) == PairOf(e, merged)
    ensures NetsOf(e, nb) == NetsOf(e, merged) && AcceptOf(e, nb) == AcceptOf(e, merged)
  {
    RebasedHot(e, o, base, merged, nb);
  }

  lemma HeldLeafIff(e: Env, o: Holders, h: HotKey)
    requires Wf(e)
    ensures HeldLeaf(e, o, e.at(h)) <==> Held(o, h)
  {
    forall g | e.at(g) == e.at(h) ensures g == h {
      assert HotAt(e, g) && HotAt(e, h);
      NamesApart(g, h);
    }
  }

  /** prepare after the startup checks. */
  datatype Prepared = Prepared(level: Level, nets: seq<IpNet>, pair: Pair, accept: bool)

  function Prepare(e: Env, c: Value): (p: Option<Prepared>)
    requires Wf(e) && Fits(e.schema, c)
    ensures p.Some? <==> Good(e, c)
    ensures p.Some? ==> p.value == Prepared(LevelOf(e, c), NetsOf(e, c).value, PairOf(e, c), AcceptOf(e, c))
  {
    if Good(e, c) then Some(Prepared(LevelOf(e, c), NetsOf(e, c).value, PairOf(e, c), AcceptOf(e, c))) else None
  }

  predicate Succeeds(e: Env, cancelled: bool, file: Option<Value>)
    requires Wf(e) && (file.Some? ==> Fits(e.schema, file.value))
  {
    !cancelled && file.Some? && Good(e, e.overrides(file.value))
  }

  /** The sorted changed hot keys that have a holder. */
  ghost predicate AppliedRight(l: seq<KeyChange>, ks: set<string>, table: map<string, KeyClass>, o: Holders) {
    && Sorted(l)
    && (forall x :: x in l ==> x.key in ks && ClassOf(table, x.key) == KeyClass(Hot, x.secret))
    && (forall h :: (exists x :: x in l && x.key == Name(h)) <==> Name(h) in ks && Held(o, h))
  }

  /** No address is trusted now that was not; a list that does not parse trusts none. */
  ghost predicate NoNewTrust(prior: Option<seq<IpNet>>, next: Option<seq<IpNet>>) {
    next.Some? && AllValid(next.value) ==>
      forall a: Bits :: IsAddress(a) && Trusts(next.value, a) ==> prior.Some? && AllValid(prior.value) && Trusts(prior.value, a)
  }

  // -------------------------------------------------------------------- runs

  /** One reload as the baseline sees it; registrations leave it alone. */
  datatype Try = Try(cancelled: bool, file: Option<Value>)

  ghost predicate TryFits(e: Env, t: Try) {
    t.file.Some? ==> Fits(e.schema, t.file.value)
  }

  ghost predicate Moves(e: Env, o: Holders, base: Value, t: Try, base': Value)
    requires Wf(e) && Fits(e.schema, base) && TryFits(e, t)
  {
    if Succeeds(e, t.cancelled, t.file) then Rebased(e, o, base, e.overrides(t.file.value), base') else base' == base
  }

  /** bases[i] is the baseline before tries[i]. */
  ghost predicate IsRun(e: Env, o: Holders, bases: seq<Value>, tries: seq<Try>)
    requires Wf(e)
  {
    && |bases| == |tries| + 1
    && (forall b :: b in bases ==> Fits(e.schema, b))
    && (forall t :: t in tries ==> TryFits(e, t))
    && forall i :: 0 <= i < |tries| ==> Moves(e, o, bases[i], tries[i], bases[i + 1])
  }

  /** The config of the last reload that succeeded, or the one at startup. */
  function LastGood(e: Env, start: Value, tries: seq<Try>): (c: Value)
    requires Wf(e) && Fits(e.schema, start) && forall t :: t in tries ==> TryFits(e, t)
    ensures Fits(e.schema, c)
  {
    if tries == [] then start
    else
      var t := tries[|tries| - 1];
      assert TryFits(e, t);
      if Succeeds(e, t.cancelled, t.file) then e.overrides(t.file.value) else LastGood(e, start, tries[..|tries| - 1])
  }

  /** After any run a held hot leaf is that of the last good file, and every other leaf is the one at startup. */
  lemma {:induction false} LeavesAfter(e: Env, o: Holders, bases: seq<Value>, tries: seq<Try>, at: Address)
    requires Wf(e) && IsRun(e, o, bases, tries) && IsLeaf(e.schema, at)
    ensures Read(e.schema, bases[|tries|], at) ==
            if HeldLeaf(e, o, at) then Read(e.schema, LastGood(e, bases[0], tries), at) else Read(e.schema, bases[0], at)
  {
    if tries != [] {
      var n := |tries| - 1;
      assert tries[n] in tries && Moves(e, o, bases[n], tries[n], bases[n + 1]);
      assert bases[..n + 1][n] == bases[n] && bases[..n + 1][0] == bases[0];
      LeavesAfter(e, o, bases[..n + 1], tries[..n], at);
    }
  }

  /**
    A key that is not applied live is reported by a reload exactly when the file
    differs there from the config at startup, however many reloads came between;
    a held hot key exactly when it differs from the last good file.
  */
  lemma ReportAfter(e: Env, o: Holders, bases: seq<Value>, tries: seq<Try>, merged: Value, k: string)
    requires Wf(e) && IsRun(e, o, bases, tries) && Fits(e.schema, merged)
    ensures (forall h :: Name(h) == k ==> !Held(o, h)) ==>
              (Reported("", e.schema, bases[|tries|], merged, k) <==> Reported("", e.schema, bases[0], merged, k))
    ensures forall h :: Name(h) == k && Held(o, h) ==>
              (Reported("", e.schema, bases[|tries|], merged, k) <==>
                HotLeaf(e, LastGood(e, bases[0], tries), h) != HotLeaf(e, merged, h))
  {
    var last := bases[|tries|];
    if forall h :: Name(h) == k ==> !Held(o, h) {
      ReportedIff("", e.schema, last, merged, k);
      ReportedIff("", e.schema, bases[0], merged, k);
      forall at: Address
        ensures DiffersAt("", e.schema, last, merged, k, at) <==> DiffersAt("", e.schema, bases[0], merged, k, at)
      {
        UnheldLeaf(e, o, bases, tries, k, at);
      }
    }
    forall h | Name(h) == k && Held(o, h)
      ensures Reported("", e.schema, last, merged, k) <==> HotLeaf(e, LastGood(e, bases[0], tries), h) != HotLeaf(e, merged, h)
    {
      assert HotAt(e, h);
      HotReportedIff(e, last, merged, h);
      LeavesAfter(e, o, bases, tries, e.at(h));
    }
  }

  lemma UnheldLeaf(e: Env, o: Holders, bases: seq<Value>, tries: seq<Try>, k: string, at: Address)
    requires Wf(e) && IsRun(e, o, bases, tries)
    requires forall h :: Name(h) == k ==> !Held(o, h)
    ensures IsLeaf(e.schema, at) && KeyOf("", e.schema, at) == k ==>
              Read(e.schema, bases[|tries|], at) == Read(e.schema, bases[0], at)
  {
    if IsLeaf(e.schema, at) && KeyOf("", e.schema, at) == k {
      forall h | at == e.at(h) ensures !Held(o, h) {
        assert HotAt(e, h);
      }
      LeavesAfter(e, o, bases, tries, at);
    }
  }

  /** After any run the live values are those of the last good file, or of the startup config. */
  lemma LiveAfter(e: Env, o: Holders, bases: seq<Value>, tries: seq<Try>)
    requires Wf(e) && IsRun(e, o, bases, tries)
    ensures var last, good := bases[|tries|], LastGood(e, bases[0], tries);
            && (o.level ==> LevelOf(e, last) == LevelOf(e, good))
            && (o.thresholds ==> PairOf(e, last) == PairOf(e, good))
            && NetsOf(e, last) == NetsOf(e, good) && AcceptOf(e, last) == AcceptOf(e, good)
  {
    var last, good := bases[|tries|], LastGood(e, bases[0], tries);
    forall at: Address | IsLeaf(e.schema, at)
      ensures Read(e.schema, last, at) == if HeldLeaf(e, o, at) then Read(e.schema, good, at) else Read(e.schema, bases[0], at)
    {
      LeavesAfter(e, o, bases, tries, at);
    }
    RebasedDerived(e, o, bases[0], good, last);
  }

  /** The same file again applies nothing. */
  lemma AgainIsQuiet(e: Env, o: Holders, base: Value, merged: Value, nb: Value, h: HotKey)
    requires Wf(e) && Fits(e.schema, base) && Fits(e.schema, merged) && Rebased(e, o, base, merged, nb) && Held(o, h)
    ensures !Reported("", e.schema, nb, merged, Name(h))
  {
    RebasedHot(e, o, base, merged, nb);
    HotReportedIff(e, nb, merged, h);
  }
}
