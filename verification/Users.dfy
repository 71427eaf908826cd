/**
  The users table in system.db, derived from the /user/{id}/profile records.
  The row is written inside the apply, after the record and before the
  watermark; at startup two reconciliation passes run before replay.

  A run interleaves the three writes of each apply with crashes at any point,
  also in the middle of a reconciliation.
*/
module Users {

  import KeyKinds
  import opened Commands
  import opened Wrappers

  type Value = seq<int>

  datatype Profile = Profile(email: string, displayName: string, disabled: bool)

  type Decoder = Value -> Option<Profile>

  /** username is UNIQUE in the schema and never changes after the insert. */
  datatype Row = Row(username: string, displayName: string, enabled: bool)

  type Profiles = map<string, Value>

  type Table = map<string, Row>

  /** The profile records among the keys of the store, as forEachProfile finds them. */
  function ProfilesIn(kv: map<string, Value>): Profiles {
    map id | id in (set k | k in kv && KeyKinds.ProfileOf(k).Some? :: KeyKinds.ProfileOf(k).value)
             && KeyKinds.ProfileKey(id) in kv :: kv[KeyKinds.ProfileKey(id)]
  }

  lemma ProfilesInIff(kv: map<string, Value>, id: string)
    ensures id in ProfilesIn(kv) <==> '/' !in id && KeyKinds.ProfileKey(id) in kv
  {
    KeyKinds.ProfileKeyIff(KeyKinds.ProfileKey(id), id);
    if id in ProfilesIn(kv) {
      var k :| k in kv && KeyKinds.ProfileOf(k) == Some(id);
      KeyKinds.ProfileKeyIff(k, id);
    }
  }

  lemma ProfilesAt(kv: map<string, Value>, id: string)
    ensures At(ProfilesIn(kv), id) == if '/' in id then None else At(kv, KeyKinds.ProfileKey(id))
  {
    ProfilesInIff(kv, id);
  }

  /** A write to the store is a write of a profile exactly when its key is a profile's. */
  lemma StoreWrites(kv: map<string, Value>, c: Cmd<Value>)
    ensures ProfilesIn(Write(kv, c)) == match KeyKinds.ProfileOf(c.key)
              case None => ProfilesIn(kv)
              case Some(id) => Write(ProfilesIn(kv), if c.Put? then Put(id, c.value) else Delete(id))
  {
    var r := match KeyKinds.ProfileOf(c.key)
      case None => ProfilesIn(kv)
      case Some(id) => Write(ProfilesIn(kv), if c.Put? then Put(id, c.value) else Delete(id));
    forall id
      ensures At(ProfilesIn(Write(kv, c)), id) == At(r, id)
    {
      ProfilesAt(kv, id);
      ProfilesAt(Write(kv, c), id);
      KeyKinds.ProfileKeyIff(c.key, id);
    }
    SameRecords(ProfilesIn(Write(kv, c)), r);
  }

  /** Another user's row holds the name. */
  predicate Taken(users: Table, id: string, name: string) {
    exists o :: o in users && o != id && users[o].username == name
  }

  /**
    indexProfile and removeProfile.  An existing row keeps its name, whatever the
    address is now; an insert whose name is taken is refused and only logged.
  */
  function IndexProfile(users: Table, c: Cmd<Value>, dec: Decoder): Table {
    match c
    case Delete(id) => if id == "" then users else users - {id}
    case Put(id, v) =>
      if dec(v).None? then users
      else
        var p := dec(v).value;
        if id in users then users[id := Row(users[id].username, p.displayName, !p.disabled)]
        else if Taken(users, id, p.email) then users
        else users[id := Row(p.email, p.displayName, !p.disabled)]
  }

  predicate RowMatches(users: Table, store: Profiles, id: string, dec: Decoder) {
    && (id in users <==> id in store)
    && (id in store ==> dec(store[id]).Some? && users[id].enabled == !dec(store[id]).value.disabled)
  }

  /** A row for every profile and no other, enabled unless the profile is disabled. */
  ghost predicate InSync(users: Table, store: Profiles, dec: Decoder) {
    forall id :: RowMatches(users, store, id, dec)
  }

  /** InSync, except perhaps for one user. */
  ghost predicate AlmostSync(users: Table, store: Profiles, x: string, dec: Decoder) {
    forall id :: id != x ==> RowMatches(users, store, id, dec)
  }

  /** What a command must be for its row to come out right: readable, and an insert's name free. */
  predicate Indexable(users: Table, c: Cmd<Value>, dec: Decoder) {
    match c
    case Delete(id) => id != "" || id !in users
    case Put(id, v) => dec(v).Some? && (id in users || !Taken(users, id, dec(v).value.email))
  }

  /** One command keeps the table exact exactly when it is indexable. */
  lemma IndexKeepsSyncIff(users: Table, store: Profiles, c: Cmd<Value>, dec: Decoder)
    requires InSync(users, store, dec)
    ensures InSync(IndexProfile(users, c, dec), Write(store, c), dec) <==> Indexable(users, c, dec)
  {
    var users', store' := IndexProfile(users, c, dec), Write(store, c);
    forall id | id != c.key
      ensures RowMatches(users', store', id, dec)
    {
      assert RowMatches(users, store, id, dec);
    }
    assert RowMatches(users, store, c.key, dec);
    assert InSync(users', store', dec) <==> RowMatches(users', store', c.key, dec);
  }

  // ---------------------------------------------------------- reconciliation

  ghost predicate Readable(store: Profiles, dec: Decoder) {
    forall id :: id in store ==> dec(store[id]).Some?
  }

  /** The row as its profile wants it; an unreadable profile wants nothing. */
  function Fixed(row: Row, v: Value, dec: Decoder): Row {
    if dec(v).Some? then row.(enabled := !dec(v).value.disabled) else row
  }

  function EnabledFixed(users: Table, store: Profiles, done: set<string>, dec: Decoder): Table
  {
    map id | id in users ::
      if id in done && id in store then Fixed(users[id], store[id], dec) else users[id]
  }

  function Reconciled(users: Table, store: Profiles, dec: Decoder): Table
  {
    map id | id in users && id in store :: Fixed(users[id], store[id], dec)
  }

  function Without(users: Table, gone: set<string>): Table {
    map id | id in users && id !in gone :: users[id]
  }

  lemma WithoutOne(users: Table, gone: set<string>, id: string)
    ensures Without(users, gone) - {id} == Without(users, gone + {id})
  {
  }

  lemma FixOne(users: Table, store: Profiles, done: set<string>, id: string, dec: Decoder)
    requires id in store && id !in done
    ensures var e, e' := EnabledFixed(users, store, done, dec), EnabledFixed(users, store, done + {id}, dec);
            if id in users && Fixed(users[id], store[id], dec) != users[id]
            then e' == e[id := Fixed(users[id], store[id], dec)] && e[id] == users[id] && e' != users
            else e' == e
  {
    var e, e' := EnabledFixed(users, store, done, dec), EnabledFixed(users, store, done + {id}, dec);
    if id in users && Fixed(users[id], store[id], dec) != users[id] {
      assert e'[id] != users[id];
    }
  }

  class SystemDb {
    var users: Table

    /** UPDATE users SET enabled for every profile; rows are never inserted here. */
    method ReconcileUserEnabled(store: Profiles, dec: Decoder) returns (changed: nat)
      modifies this
      ensures users == EnabledFixed(old(users), store, store.Keys, dec)
      ensures changed == 0 <==> users == old(users)
    {
      changed := 0;
      var todo := store.Keys;
      assert users == EnabledFixed(old(users), store, {}, dec);
      while todo != {}
        invariant todo <= store.Keys
        invariant users == EnabledFixed(old(users), store, store.Keys - todo, dec)
        invariant changed == 0 <==> users == old(users)
        decreases |todo|
      {
        var id :| id in todo;
        var profile := dec(store[id]);
        FixOne(old(users), store, store.Keys - todo, id, dec);
        if profile.Some? && id in users && users[id].enabled == profile.value.disabled {
          users := users[id := users[id].(enabled := !profile.value.disabled)];
          changed := changed + 1;
        }
        assert store.Keys - (todo - {id}) == store.Keys - todo + {id};
        todo := todo - {id};
      }
      assert store.Keys - todo == store.Keys;
    }

    /** DELETE the rows whose profile is definitely absent. */
    method ReconcileOrphanUsers(store: Profiles) returns (removed: nat)
      modifies this
      ensures users == Without(old(users), old(users).Keys - store.Keys)
      ensures removed == |old(users).Keys - store.Keys|
    {
      removed := 0;
      var todo := users.Keys;
      ghost var was, gone: set<string> := users, {};
      assert users == Without(was, gone);
      while todo != {}
        invariant todo <= was.Keys && users == Without(was, gone) && removed == |gone|
        invariant forall id :: id in gone <==> id in was && id !in todo && id !in store
        decreases |todo|
      {
        var id :| id in todo;
        if id !in store {
          WithoutOne(was, gone, id);
          users := users - {id};
          removed := removed + 1;
          gone := gone + {id};
        }
        todo := todo - {id};
      }
      assert gone == was.Keys - store.Keys;
    }

    /** What startup does before Raft is started. */
    method Startup(store: Profiles, dec: Decoder)
      modifies this
      ensures users == Reconciled(old(users), store, dec)
    {
      var _ := ReconcileUserEnabled(store, dec);
      var _ := ReconcileOrphanUsers(store);
    }
  }

  /** From any table at all, reconciliation ends exact exactly when every profile parses and none lacks a row. */
  lemma ReconcileExactIff(users: Table, store: Profiles, dec: Decoder)
    ensures InSync(Reconciled(users, store, dec), store, dec) <==> Readable(store, dec) && store.Keys <= users.Keys
  {
    var r := Reconciled(users, store, dec);
    if InSync(r, store, dec) {
      forall id | id in store
        ensures id in users && dec(store[id]).Some?
      {
        assert RowMatches(r, store, id, dec);
      }
    }
  }

  // -------------------------------------------------------------- the machine

  type Log = seq<Option<Cmd<Value>>>

  datatype Phase = Idle | Stored | Indexed | Down

  /**
    mark is the watermark; half says an entry past it has reached the store.  off
    holds the users whose record was written and whose row was not since.
  */
  datatype Sys = Sys(store: Profiles, users: Table, mark: nat, next: nat, phase: Phase, half: bool, off: set<string>)

  const INITIAL := Sys(map[], map[], 0, 0, Idle, false, {})

  ghost predicate Init(s: Sys) { s == INITIAL }

  ghost predicate Deliver(log: Log, s: Sys, s': Sys) {
    && s.phase.Idle? && s.next < |log| && (log[s.next].None? || s.next + 1 <= s.mark)
    && s' == s.(next := s.next + 1)
  }

  ghost predicate WriteStore(log: Log, s: Sys, s': Sys) {
    && s.phase.Idle? && s.next < |log| && log[s.next].Some? && s.next + 1 > s.mark
    && s' == s.(store := Write(s.store, log[s.next].value), phase := Stored, half := true, off := s.off + {log[s.next].value.key})
  }

  ghost predicate WriteRow(log: Log, s: Sys, s': Sys, dec: Decoder) {
    && s.phase.Stored? && s.next < |log| && log[s.next].Some?
    && s' == s.(users := IndexProfile(s.users, log[s.next].value, dec), phase := Indexed, off := s.off - {log[s.next].value.key})
  }

  ghost predicate WriteMark(s: Sys, s': Sys) {
    s.phase.Indexed? && s' == s.(mark := s.next + 1, next := s.next + 1, phase := Idle, half := false)
  }

  ghost predicate Crash(s: Sys, s': Sys) { s' == s.(phase := Down) }

  /** One statement of a reconciliation that may not finish. */
  ghost predicate FixRow(s: Sys, s': Sys, dec: Decoder) {
    && s.phase.Down?
    && exists id :: id in s.users &&
         if id in s.store
         then s' == s.(users := s.users[id := Fixed(s.users[id], s.store[id], dec)])
         else s' == s.(users := s.users - {id})
  }

  ghost predicate Start(s: Sys, s': Sys, dec: Decoder) {
    && s.phase.Down? && s'.next <= s.mark
    && s' == s.(users := Reconciled(s.users, s.store, dec), next := s'.next, phase := Idle)
  }

  ghost predicate Next(log: Log, s: Sys, s': Sys, dec: Decoder) {
    || Deliver(log, s, s') || WriteStore(log, s, s') || WriteRow(log, s, s', dec) || WriteMark(s, s')
    || Crash(s, s') || FixRow(s, s', dec) || Start(s, s', dec)
  }

  ghost predicate IsRun(log: Log, run: seq<Sys>, dec: Decoder) {
    && run != [] && Init(run[0])
    && forall i :: 0 <= i < |run| - 1 ==> Next(log, run[i], run[i + 1], dec)
  }

  // ------------------------------------------------------ the log, crash-free

  function StoreAt(log: Log, n: nat): Profiles
    requires n <= |log|
  {
    if n == 0 then map[]
    else if log[n - 1].None? then StoreAt(log, n - 1)
    else Write(StoreAt(log, n - 1), log[n - 1].value)
  }

  function TableAt(log: Log, n: nat, dec: Decoder): Table
    requires n <= |log|
  {
    if n == 0 then map[]
    else if log[n - 1].None? then TableAt(log, n - 1, dec)
    else IndexProfile(TableAt(log, n - 1, dec), log[n - 1].value, dec)
  }

  /** Every command finds its place: in particular, a user who gets a row finds no present row with that name. */
  ghost predicate Clean(log: Log, dec: Decoder) {
    forall n: nat :: n < |log| && log[n].Some? ==> Indexable(TableAt(log, n, dec), log[n].value, dec)
  }

  function Names(users: Table): map<string, string> {
    map id | id in users :: users[id].username
  }

  // --------------------------------------------------------------- invariants

  /** Position j holds the first command at or past n. */
  ghost predicate FirstFrom(log: Log, n: nat, j: nat) {
    n <= j < |log| && log[j].Some? && forall i :: n <= i < j ==> log[i].None?
  }

  /** The half-applied entry j: its record is stored, and only its user's row may be off. */
  ghost predicate HalfAt(log: Log, s: Sys, j: nat, dec: Decoder) {
    && FirstFrom(log, s.mark, j)
    && AlmostSync(s.users, s.store, log[j].value.key, dec)
    && Write(s.store, log[j].value) == s.store
    && (Names(s.users) == Names(TableAt(log, j, dec)) || Names(s.users) == Names(TableAt(log, j + 1, dec)))
  }

  ghost predicate Inv(log: Log, s: Sys, dec: Decoder) {
    && s.mark <= |log|
    && (!s.half ==> InSync(s.users, s.store, dec) && Names(s.users) == Names(TableAt(log, s.mark, dec)))
    && (s.half ==> exists j: nat :: HalfAt(log, s, j, dec))
    && (!s.phase.Down? ==> s.next <= |log| && forall i :: s.mark <= i < s.next ==> log[i].None?)
    && (s.phase.Stored? ==> s.half && HalfAt(log, s, s.next, dec))
    && (s.phase.Indexed? ==> s.half && InSync(s.users, s.store, dec) && HalfAt(log, s, s.next, dec)
                             && Names(s.users) == Names(TableAt(log, s.next + 1, dec)))
  }

  lemma {:induction false} QuietTable(log: Log, n: nat, m: nat, dec: Decoder)
    requires n <= m <= |log| && forall i :: n <= i < m ==> log[i].None?
    ensures TableAt(log, n, dec) == TableAt(log, m, dec)
  {
    if n < m {
      QuietTable(log, n, m - 1, dec);
    }
  }

  /** Which rows a command leaves, and under which names, depends on the names alone. */
  lemma NamesDecide(u: Table, v: Table, c: Cmd<Value>, dec: Decoder)
    requires Names(u) == Names(v)
    ensures Names(IndexProfile(u, c, dec)) == Names(IndexProfile(v, c, dec))
    ensures Indexable(u, c, dec) <==> Indexable(v, c, dec)
  {
    SameNames(u, v);
    if c.Put? && dec(c.value).Some? {
      assert Taken(u, c.key, dec(c.value).value.email) <==> Taken(v, c.key, dec(c.value).value.email);
    }
    SameNames(IndexProfile(u, c, dec), IndexProfile(v, c, dec));
  }

  lemma SameNames(u: Table, v: Table)
    ensures Names(u) == Names(v) <==> forall id :: (id in u <==> id in v) && (id in u && id in v ==> u[id].username == v[id].username)
  {
    if Names(u) == Names(v) {
      forall id ensures (id in u <==> id in v) && (id in u && id in v ==> u[id].username == v[id].username) {
        assert id in u <==> id in Names(u);
        assert id in v <==> id in Names(v);
      }
    }
  }

  /** A second time the command only rewrites the row. */
  lemma NamesSettle(u: Table, c: Cmd<Value>, dec: Decoder)
    requires Indexable(u, c, dec)
    ensures var u' := IndexProfile(u, c, dec); Indexable(u', c, dec) && Names(IndexProfile(u', c, dec)) == Names(u')
  {
    var u' := IndexProfile(u, c, dec);
    SameNames(IndexProfile(u', c, dec), u');
  }

  lemma WriteStoreKeeps(log: Log, s: Sys, s': Sys, dec: Decoder)
    requires Inv(log, s, dec) && WriteStore(log, s, s')
    ensures Inv(log, s', dec)
  {
    var c := log[s.next].value;
    assert FirstFrom(log, s.mark, s.next);
    if s.half {
      var j: nat :| HalfAt(log, s, j, dec);
      assert j == s.next;
    } else {
      QuietTable(log, s.mark, s.next, dec);
    }
    forall id | id != c.key
      ensures RowMatches(s'.users, s'.store, id, dec)
    {
      assert RowMatches(s.users, s.store, id, dec);
    }
    assert HalfAt(log, s', s.next, dec);
  }

  /** Over a half-applied entry, before or after its row was written. */
  lemma RowNames(log: Log, users: Table, j: nat, dec: Decoder)
    requires Clean(log, dec) && j < |log| && log[j].Some?
    requires Names(users) == Names(TableAt(log, j, dec)) || Names(users) == Names(TableAt(log, j + 1, dec))
    ensures Indexable(users, log[j].value, dec)
    ensures Names(IndexProfile(users, log[j].value, dec)) == Names(TableAt(log, j + 1, dec))
  {
    var c := log[j].value;
    assert Indexable(TableAt(log, j, dec), c, dec);
    if Names(users) == Names(TableAt(log, j, dec)) {
      NamesDecide(users, TableAt(log, j, dec), c, dec);
    } else {
      NamesSettle(TableAt(log, j, dec), c, dec);
      NamesDecide(users, TableAt(log, j + 1, dec), c, dec);
    }
  }

  lemma WriteRowKeeps(log: Log, s: Sys, s': Sys, dec: Decoder)
    requires Clean(log, dec) && Inv(log, s, dec) && WriteRow(log, s, s', dec)
    ensures Inv(log, s', dec)
  {
    RowNames(log, s.users, s.next, dec);
    RedoRow(log, s, s.next, dec);
    assert HalfAt(log, s', s.next, dec);
  }

  /** Indexing the half-applied entry, for the first time or again. */
  lemma RedoRow(log: Log, s: Sys, j: nat, dec: Decoder)
    requires Clean(log, dec) && HalfAt(log, s, j, dec)
    ensures InSync(IndexProfile(s.users, log[j].value, dec), s.store, dec)
  {
    var c := log[j].value;
    RowNames(log, s.users, j, dec);
    if c.Put? {
      assert c.key in s.store && s.store[c.key] == c.value by { assert c.key in Write(s.store, c); }
    } else {
      assert c.key !in s.store by { assert c.key !in Write(s.store, c); }
    }
    forall id
      ensures RowMatches(IndexProfile(s.users, c, dec), s.store, id, dec)
    {
      assert id != c.key ==> RowMatches(s.users, s.store, id, dec);
    }
  }

  lemma WriteMarkKeeps(log: Log, s: Sys, s': Sys, dec: Decoder)
    requires Inv(log, s, dec) && WriteMark(s, s')
    ensures Inv(log, s', dec)
  {
  }

  /** Rows in step with their profile stay so, and no name changes but that of an orphan that goes. */
  lemma RepairKeeps(log: Log, s: Sys, s': Sys, gone: set<string>, dec: Decoder)
    requires Clean(log, dec) && Inv(log, s, dec) && s.phase.Down?
    requires s'.store == s.store && s'.mark == s.mark && s'.half == s.half
    requires gone !! s.store.Keys && s'.users.Keys == s.users.Keys - gone
    requires forall id :: id in s'.users ==>
               s'.users[id].username == s.users[id].username
               && (s'.users[id] == s.users[id] || (id in s.store && s'.users[id] == Fixed(s.users[id], s.store[id], dec)))
    ensures !s.half ==> InSync(s'.users, s'.store, dec) && Names(s'.users) == Names(s.users)
    ensures forall j: nat :: HalfAt(log, s, j, dec) ==> HalfAt(log, s', j, dec)
  {
    forall id | RowMatches(s.users, s.store, id, dec)
      ensures RowMatches(s'.users, s'.store, id, dec)
    {
    }
    if !s.half {
      assert forall id :: id in s.users ==> RowMatches(s.users, s.store, id, dec);
      SameNames(s'.users, s.users);
    }
    forall j: nat | HalfAt(log, s, j, dec)
      ensures HalfAt(log, s', j, dec)
    {
      OrphanIsHalf(log, s, s'.users, j, dec);
    }
  }

  /** Only the half-applied entry's user can be an orphan, and then the entry deletes it. */
  lemma OrphanIsHalf(log: Log, s: Sys, users: Table, j: nat, dec: Decoder)
    requires Clean(log, dec) && HalfAt(log, s, j, dec)
    requires users.Keys <= s.users.Keys && forall id :: id in s.users && id !in users ==> id !in s.store
    requires forall id :: id in users ==> users[id].username == s.users[id].username
    ensures Names(users) == Names(s.users) || Names(users) == Names(TableAt(log, j + 1, dec))
  {
    var c := log[j].value;
    if x :| x in s.users && x !in users {
      assert x == c.key by { assert x != c.key ==> RowMatches(s.users, s.store, x, dec); }
      assert c.Delete? by { assert c.Put? ==> c.key in Write(s.store, c); }
      RowNames(log, s.users, j, dec);
      forall id | id in s.users && id !in users ensures id == c.key {
        assert id != c.key ==> RowMatches(s.users, s.store, id, dec);
      }
      SameNames(users, IndexProfile(s.users, c, dec));
    } else {
      SameNames(users, s.users);
    }
  }

  lemma FixRowKeeps(log: Log, s: Sys, s': Sys, dec: Decoder)
    requires Clean(log, dec) && Inv(log, s, dec) && FixRow(s, s', dec)
    ensures Inv(log, s', dec)
  {
    var id :| id in s.users &&
      if id in s.store then s' == s.(users := s.users[id := Fixed(s.users[id], s.store[id], dec)])
      else s' == s.(users := s.users - {id});
    RepairKeeps(log, s, s', if id in s.store then {} else {id}, dec);
  }

  lemma StartKeeps(log: Log, s: Sys, s': Sys, dec: Decoder)
    requires Clean(log, dec) && Inv(log, s, dec) && Start(s, s', dec)
    ensures Inv(log, s', dec)
  {
    RepairKeeps(log, s, s', s.users.Keys - s.store.Keys, dec);
  }

  lemma NextKeeps(log: Log, s: Sys, s': Sys, dec: Decoder)
    requires Clean(log, dec) && Inv(log, s, dec) && Next(log, s, s', dec)
    ensures Inv(log, s', dec)
  {
    if WriteStore(log, s, s') {
      WriteStoreKeeps(log, s, s', dec);
    } else if WriteRow(log, s, s', dec) {
      WriteRowKeeps(log, s, s', dec);
    } else if WriteMark(s, s') {
      WriteMarkKeeps(log, s, s', dec);
    } else if FixRow(s, s', dec) {
      FixRowKeeps(log, s, s', dec);
    } else if Start(s, s', dec) {
      StartKeeps(log, s, s', dec);
    } else {
      WaitKeeps(log, s, s', dec);
    }
  }

  lemma WaitKeeps(log: Log, s: Sys, s': Sys, dec: Decoder)
    requires Inv(log, s, dec) && (Deliver(log, s, s') || Crash(s, s'))
    ensures Inv(log, s', dec)
  {
    if s.half {
      var j: nat :| HalfAt(log, s, j, dec);
      assert HalfAt(log, s', j, dec);
    }
  }

  lemma {:induction false} AlwaysInv(log: Log, run: seq<Sys>, i: nat, dec: Decoder)
    requires Clean(log, dec) && IsRun(log, run, dec) && i < |run|
    ensures Inv(log, run[i], dec)
  {
    if i > 0 {
      AlwaysInv(log, run, i - 1, dec);
      NextKeeps(log, run[i - 1], run[i], dec);
    }
  }

  /** With no half-applied entry the table is exact, in every state of every run. */
  ghost predicate AlwaysExact(log: Log, dec: Decoder) {
    forall run: seq<Sys>, i: nat :: IsRun(log, run, dec) && i < |run| && !run[i].half ==> InSync(run[i].users, run[i].store, dec)
  }

  /** That holds exactly of the logs whose every command is indexable where it stands. */
  lemma TableExactIff(log: Log, dec: Decoder)
    ensures AlwaysExact(log, dec) <==> Clean(log, dec)
  {
    if Clean(log, dec) {
      forall run: seq<Sys>, i: nat | IsRun(log, run, dec) && i < |run| && !run[i].half
        ensures InSync(run[i].users, run[i].store, dec)
      {
        AlwaysInv(log, run, i, dec);
      }
    }
    if AlwaysExact(log, dec) {
      forall n: nat | n < |log| && log[n].Some?
        ensures Indexable(TableAt(log, n, dec), log[n].value, dec)
      {
        var before := Straight(log, n, dec);
        var after := Straight(log, n + 1, dec);
        var s, s' := before[|before| - 1], after[|after| - 1];
        assert InSync(s.users, s.store, dec) && InSync(s'.users, s'.store, dec);
        IndexKeepsSyncIff(s.users, s.store, log[n].value, dec);
      }
    }
  }

  /** The run without a crash, over the first n entries. */
  lemma {:induction false} Straight(log: Log, n: nat, dec: Decoder) returns (run: seq<Sys>)
    requires n <= |log|
    ensures IsRun(log, run, dec)
    ensures var s := run[|run| - 1];
            && s.users == TableAt(log, n, dec) && s.store == StoreAt(log, n) && s.phase.Idle? && !s.half
            && s.next == n && s.mark <= n
    decreases n
  {
    if n == 0 {
      run := [INITIAL];
    } else {
      var init := Straight(log, n - 1, dec);
      var s := init[|init| - 1];
      if log[n - 1].None? {
        var t := s.(next := n);
        assert Deliver(log, s, t);
        run := init + [t];
      } else {
        var c := log[n - 1].value;
        var t := s.(store := Write(s.store, c), phase := Stored, half := true, off := s.off + {c.key});
        var u := t.(users := IndexProfile(t.users, c, dec), phase := Indexed, off := t.off - {c.key});
        var v := u.(mark := n, next := n, phase := Idle, half := false);
        assert WriteStore(log, s, t) && WriteRow(log, t, u, dec) && WriteMark(u, v);
        run := init + [t, u, v];
      }
    }
  }

  /**
    However the crash fell, at most one user's row is off, and it is the user of
    the first entry past the watermark: the entry replay executes again.
  */
  lemma CrashCostsOneRow(log: Log, run: seq<Sys>, i: nat, dec: Decoder)
    requires Clean(log, dec) && IsRun(log, run, dec) && i < |run| && run[i].half
    ensures exists j: nat :: FirstFrom(log, run[i].mark, j) && log[j].Some?
                             && AlmostSync(run[i].users, run[i].store, log[j].value.key, dec)
  {
    AlwaysInv(log, run, i, dec);
    var j: nat :| HalfAt(log, run[i], j, dec);
  }

  /** Executing that entry again, over the reconciled table, makes the table exact. */
  lemma RedoRepairs(log: Log, run: seq<Sys>, i: nat, j: nat, dec: Decoder)
    requires Clean(log, dec) && IsRun(log, run, dec) && i < |run|
    requires run[i].half && run[i].phase.Idle? && FirstFrom(log, run[i].mark, j)
    ensures InSync(IndexProfile(run[i].users, log[j].value, dec), Write(run[i].store, log[j].value), dec)
  {
    AlwaysInv(log, run, i, dec);
    var k: nat :| HalfAt(log, run[i], k, dec);
    assert k == j;
    RedoRow(log, run[i], j, dec);
  }

  // --------------------------------------------------------- the failing cases

  /** A new user with the address of another gets no row. */
  lemma TakenNameLosesRow(a: string, b: string, v: Value, dec: Decoder)
    requires a != b && dec(v).Some?
    ensures var log := [Some(Put(a, v)), Some(Put(b, v))];
            && b in StoreAt(log, 2) && b !in TableAt(log, 2, dec) && !Clean(log, dec) && !AlwaysExact(log, dec)
  {
    var log := [Some(Put(a, v)), Some(Put(b, v))];
    assert StoreAt(log, 1) == map[a := v] by { assert StoreAt(log, 0) == map[]; }
    assert TableAt(log, 0, dec) == map[];
    var t := TableAt(log, 1, dec);
    assert t == map[a := Row(dec(v).value.email, dec(v).value.displayName, !dec(v).value.disabled)];
    assert Taken(t, b, dec(v).value.email) by { assert a in t; }
    TableExactIff(log, dec);
  }

  /** The same address taken by a user who has a row already does no harm: the row keeps its own name. */
  lemma TakenNameKeepsRow(users: Table, store: Profiles, id: string, v: Value, dec: Decoder)
    requires InSync(users, store, dec) && id in users && dec(v).Some?
    ensures InSync(IndexProfile(users, Put(id, v), dec), Write(store, Put(id, v)), dec)
  {
    IndexKeepsSyncIff(users, store, Put(id, v), dec);
  }

  /** A profile without a row, and one that does not parse, are what reconciliation leaves. */
  lemma ReconcileLeaves(id: string, v: Value, row: Row, dec: Decoder)
    ensures !InSync(Reconciled(map[], map[id := v], dec), map[id := v], dec)
    ensures dec(v).None? ==> !InSync(Reconciled(map[id := row], map[id := v], dec), map[id := v], dec)
  {
    ReconcileExactIff(map[], map[id := v], dec);
    ReconcileExactIff(map[id := row], map[id := v], dec);
    assert id in map[id := v];
  }

  // --------------------------------------------- when writes of the FSM itself fail

  /** The mark cannot be written: that is logged, and the next entry comes. */
  ghost predicate LoseMark(s: Sys, s': Sys) {
    s.phase.Indexed? && s' == s.(next := s.next + 1, phase := Idle)
  }

  /** The store refuses the entry: no row is touched, and the mark, if it can be written, moves. */
  ghost predicate Refuse(log: Log, s: Sys, s': Sys) {
    && s.phase.Idle? && s.next < |log| && log[s.next].Some? && s.next + 1 > s.mark
    && s' == s.(mark := s'.mark, next := s.next + 1) && (s'.mark == s.mark || s'.mark == s.next + 1)
  }

  /** Marks may be lost, and with refusals entries be refused. */
  ghost predicate LossyStep(log: Log, s: Sys, s': Sys, refusals: bool, dec: Decoder) {
    Next(log, s, s', dec) || LoseMark(s, s') || (refusals && Refuse(log, s, s'))
  }

  ghost predicate IsLossyRun(log: Log, run: seq<Sys>, refusals: bool, dec: Decoder) {
    && run != [] && Init(run[0])
    && forall i :: 0 <= i < |run| - 1 ==> LossyStep(log, run[i], run[i + 1], refusals, dec)
  }

  /** Every entry is delivered. */
  ghost predicate Delivered(log: Log, s: Sys) {
    s.phase.Idle? && s.next == |log|
  }

  predicate IsPut(log: Log, i: int) {
    0 <= i < |log| && log[i].Some? && log[i].value.Put?
  }

  /** Position i deletes the profile with the empty id. */
  predicate DropsEmpty(log: Log, i: int) {
    0 <= i < |log| && log[i] == Some(Delete(""))
  }

  /** Two users are given the same address. */
  predicate Share(log: Log, i: int, j: int, dec: Decoder) {
    && IsPut(log, i) && IsPut(log, j) && log[i].value.key != log[j].value.key
    && dec(log[i].value.value).Some? && dec(log[j].value.value).Some?
    && dec(log[i].value.value).value.email == dec(log[j].value.value).value.email
  }

  /** Every profile parses, no two users are ever given the same address, and an empty id, if put, is not deleted. */
  ghost predicate Apart(log: Log, dec: Decoder) {
    && (forall i :: IsPut(log, i) ==> dec(log[i].value.value).Some?)
    && (forall i, j :: !Share(log, i, j, dec))
    && (forall i, j :: DropsEmpty(log, i) && IsPut(log, j) ==> log[j].value.key != "")
  }

  /** And marked: a restart finds nothing to execute. */
  ghost predicate Finished(log: Log, s: Sys) {
    Delivered(log, s) && forall p: nat :: s.mark <= p < |log| ==> log[p].None?
  }

  /** The row's name is an address that user had. */
  ghost predicate Named(log: Log, users: Table, id: string, dec: Decoder) {
    id in users ==>
      exists i :: IsPut(log, i) && log[i].value.key == id && dec(log[i].value.value).Some?
                  && dec(log[i].value.value).value.email == users[id].username
  }

  ghost predicate LossyInv(log: Log, s: Sys, dec: Decoder) {
    && (forall id :: Named(log, s.users, id, dec))
    && (forall id :: id !in s.off ==> RowMatches(s.users, s.store, id, dec))
    && (s.phase.Stored? ==> s.next < |log| && log[s.next].Some? && Write(s.store, log[s.next].value) == s.store)
  }

  lemma LossyRow(log: Log, s: Sys, s': Sys, dec: Decoder)
    requires Apart(log, dec) && LossyInv(log, s, dec) && WriteRow(log, s, s', dec)
    ensures LossyInv(log, s', dec)
  {
    var c := log[s.next].value;
    if c.Put? {
      assert IsPut(log, s.next);
      forall o | o in s.users && o != c.key ensures s.users[o].username != dec(c.value).value.email {
        assert Named(log, s.users, o, dec);
        var i :| IsPut(log, i) && log[i].value.key == o && dec(log[i].value.value).Some?
                 && dec(log[i].value.value).value.email == s.users[o].username;
        assert !Share(log, i, s.next, dec);
      }
      assert c.key in s.store && s.store[c.key] == c.value by { assert c.key in Write(s.store, c); }
    } else {
      assert c.key !in s.store by { assert c.key !in Write(s.store, c); }
      if c.key == "" {
        assert DropsEmpty(log, s.next) && Named(log, s.users, "", dec);
      }
    }
    forall id ensures Named(log, s'.users, id, dec) {
      assert Named(log, s.users, id, dec);
      assert id == c.key && c.Put? ==> IsPut(log, s.next);
    }
    forall id | id !in s'.off ensures RowMatches(s'.users, s'.store, id, dec) {
      assert id != c.key ==> RowMatches(s.users, s.store, id, dec);
    }
  }

  lemma LossyStore(log: Log, s: Sys, s': Sys, dec: Decoder)
    requires LossyInv(log, s, dec) && WriteStore(log, s, s')
    ensures LossyInv(log, s', dec)
  {
    forall id | id !in s'.off ensures RowMatches(s'.users, s'.store, id, dec) {
      assert RowMatches(s.users, s.store, id, dec);
    }
    forall id ensures Named(log, s'.users, id, dec) {
      assert Named(log, s.users, id, dec);
    }
  }

  lemma LossyKeeps(log: Log, s: Sys, s': Sys, dec: Decoder)
    requires Apart(log, dec) && LossyInv(log, s, dec) && LossyStep(log, s, s', true, dec)
    ensures LossyInv(log, s', dec)
  {
    if WriteRow(log, s, s', dec) {
      LossyRow(log, s, s', dec);
    } else if WriteStore(log, s, s') {
      LossyStore(log, s, s', dec);
    } else {
      forall id ensures Named(log, s'.users, id, dec) {
        assert Named(log, s.users, id, dec);
      }
      forall id | id !in s'.off ensures RowMatches(s'.users, s'.store, id, dec) {
        assert RowMatches(s.users, s.store, id, dec);
      }
    }
  }

  /** Where users never share an address, a row that was written after its record is right, whatever fails. */
  lemma {:induction false} LossyExact(log: Log, run: seq<Sys>, i: nat, refusals: bool, dec: Decoder)
    requires Apart(log, dec) && IsLossyRun(log, run, refusals, dec) && i < |run|
    ensures LossyInv(log, run[i], dec)
  {
    if i > 0 {
      LossyExact(log, run, i - 1, refusals, dec);
      LossyKeeps(log, run[i - 1], run[i], dec);
    }
  }

  // -------------------------------------------------------------- display names

  /** A row beside a readable profile shows that profile's display name. */
  predicate Titled(users: Table, store: Profiles, id: string, dec: Decoder) {
    id in users && id in store && dec(store[id]).Some? ==> users[id].displayName == dec(store[id]).value.displayName
  }

  ghost predicate TitledInv(log: Log, s: Sys, dec: Decoder) {
    && (forall id :: id !in s.off ==> Titled(s.users, s.store, id, dec))
    && (s.phase.Stored? ==> s.next < |log| && log[s.next].Some? && Write(s.store, log[s.next].value) == s.store)
  }

  lemma TitledRow(log: Log, s: Sys, s': Sys, dec: Decoder)
    requires TitledInv(log, s, dec) && WriteRow(log, s, s', dec)
    ensures TitledInv(log, s', dec)
  {
    var c := log[s.next].value;
    assert if c.Put? then c.key in s.store && s.store[c.key] == c.value else c.key !in s.store by {
      assert c.key in Write(s.store, c) <==> c.Put?;
    }
    forall id | id !in s'.off ensures Titled(s'.users, s'.store, id, dec) {
      assert id != c.key ==> Titled(s.users, s.store, id, dec);
    }
  }

  lemma TitledKeeps(log: Log, s: Sys, s': Sys, dec: Decoder)
    requires TitledInv(log, s, dec) && LossyStep(log, s, s', true, dec)
    ensures TitledInv(log, s', dec)
  {
    if WriteRow(log, s, s', dec) {
      TitledRow(log, s, s', dec);
    } else {
      forall id | id !in s'.off ensures Titled(s'.users, s'.store, id, dec) {
        assert Titled(s.users, s.store, id, dec);
      }
    }
  }

  /** In every run of every log, whatever fails: a row written after its record shows the record's display name. */
  lemma {:induction false} AlwaysTitled(log: Log, run: seq<Sys>, i: nat, dec: Decoder)
    requires IsLossyRun(log, run, true, dec) && i < |run|
    ensures TitledInv(log, run[i], dec)
  {
    if i > 0 {
      AlwaysTitled(log, run, i - 1, dec);
      TitledKeeps(log, run[i - 1], run[i], dec);
    }
  }

  // -------------------------------------------------------- runs that lose only marks

  /** An entry on id is still to come, at or past n. */
  ghost predicate ToCome(log: Log, n: nat, id: string) {
    exists p: nat :: n <= p < |log| && log[p].Some? && log[p].value.key == id
  }

  /** How far delivery is sure to have got: past what the mark covers, and past what was delivered since the start. */
  function Reach(s: Sys): nat {
    if s.phase.Down? || s.next <= s.mark then s.mark else s.next
  }

  ghost predicate OffToCome(log: Log, s: Sys) {
    && (forall id :: id in s.off ==> ToCome(log, Reach(s), id))
    && (s.phase.Stored? || s.phase.Indexed? ==> s.next < |log| && log[s.next].Some? && s.mark <= s.next)
    && (s.phase.Indexed? ==> log[s.next].value.key !in s.off)
  }

  lemma StillToCome(log: Log, n: nat, m: nat, id: string)
    requires ToCome(log, n, id) && n <= m
    requires forall p: nat :: n <= p < m && p < |log| ==> log[p].None? || log[p].value.key != id
    ensures ToCome(log, m, id)
  {
    var p: nat :| n <= p < |log| && log[p].Some? && log[p].value.key == id;
    assert m <= p;
  }

  lemma ToComeKeeps(log: Log, s: Sys, s': Sys, dec: Decoder)
    requires OffToCome(log, s) && LossyStep(log, s, s', false, dec)
    ensures OffToCome(log, s')
  {
    forall id | id in s'.off
      ensures ToCome(log, Reach(s'), id)
    {
      if WriteStore(log, s, s') && id == log[s.next].value.key {
        assert Reach(s') == s.next;
      } else if Crash(s, s') {
        var p: nat :| Reach(s) <= p < |log| && log[p].Some? && log[p].value.key == id;
        assert s.mark <= p;
      } else {
        StillToCome(log, Reach(s), Reach(s'), id);
      }
    }
  }

  /**
    While only marks are lost, and users never share an address, a row is off only
    until its entry comes: once every entry is delivered the table is exact.
  */
  lemma {:induction false} UnmarkedExact(log: Log, run: seq<Sys>, i: nat, dec: Decoder)
    requires Apart(log, dec) && IsLossyRun(log, run, false, dec) && i < |run|
    ensures OffToCome(log, run[i])
    ensures forall id :: RowMatches(run[i].users, run[i].store, id, dec) || ToCome(log, Reach(run[i]), id)
    ensures Delivered(log, run[i]) ==> InSync(run[i].users, run[i].store, dec)
  {
    LossyExact(log, run, i, false, dec);
    if i > 0 {
      UnmarkedExact(log, run, i - 1, dec);
      ToComeKeeps(log, run[i - 1], run[i], dec);
    }
  }

  // -------------------------------------------------------------- failing runs

  lemma LossyExtends(log: Log, run: seq<Sys>, s: Sys, refusals: bool, dec: Decoder)
    requires IsLossyRun(log, run, refusals, dec) && LossyStep(log, run[|run| - 1], s, refusals, dec)
    ensures IsLossyRun(log, run + [s], refusals, dec)
  {
  }

  /** An entry applied, and its mark written or lost. */
  lemma ApplyNext(log: Log, run: seq<Sys>, marked: bool, refusals: bool, dec: Decoder) returns (run': seq<Sys>)
    requires IsLossyRun(log, run, refusals, dec)
    requires var s := run[|run| - 1];
             s.phase.Idle? && s.next < |log| && log[s.next].Some? && s.next + 1 > s.mark && s.off == {}
    ensures IsLossyRun(log, run', refusals, dec)
    ensures var s := run[|run| - 1];
            var c := log[s.next].value;
            run'[|run'| - 1] ==
              s.(store := Write(s.store, c), users := IndexProfile(s.users, c, dec), next := s.next + 1, half := !marked,
                 mark := if marked then s.next + 1 else s.mark)
  {
    var s := run[|run| - 1];
    var c := log[s.next].value;
    var t := s.(store := Write(s.store, c), phase := Stored, half := true, off := {c.key});
    var u := t.(users := IndexProfile(s.users, c, dec), phase := Indexed, off := {});
    var s' := u.(next := s.next + 1, phase := Idle, half := !marked, mark := if marked then s.next + 1 else s.mark);
    assert WriteStore(log, s, t) && WriteRow(log, t, u, dec) && (WriteMark(u, s') || LoseMark(u, s'));
    LossyExtends(log, run, t, refusals, dec);
    LossyExtends(log, run + [t], u, refusals, dec);
    LossyExtends(log, run + [t] + [u], s', refusals, dec);
    run' := run + [t] + [u] + [s'];
  }

  /** An entry applied and its mark lost. */
  lemma Unmarked(log: Log, run: seq<Sys>, refusals: bool, dec: Decoder) returns (run': seq<Sys>)
    requires IsLossyRun(log, run, refusals, dec)
    requires var s := run[|run| - 1];
             s.phase.Idle? && s.next < |log| && log[s.next].Some? && s.next + 1 > s.mark && s.off == {}
    ensures IsLossyRun(log, run', refusals, dec)
    ensures var s := run[|run| - 1];
            var c := log[s.next].value;
            run'[|run'| - 1] ==
              s.(store := Write(s.store, c), users := IndexProfile(s.users, c, dec), next := s.next + 1, half := true)
  {
    run' := ApplyNext(log, run, false, refusals, dec);
  }

  /** A crash, and a restart at the beginning. */
  lemma StartOver(log: Log, run: seq<Sys>, refusals: bool, dec: Decoder) returns (run': seq<Sys>)
    requires IsLossyRun(log, run, refusals, dec)
    requires var s := run[|run| - 1]; s.phase.Idle? && Reconciled(s.users, s.store, dec) == s.users
    ensures IsLossyRun(log, run', refusals, dec) && run'[|run'| - 1] == run[|run| - 1].(next := 0)
  {
    var s := run[|run| - 1];
    var t := s.(phase := Down);
    assert Crash(s, t) && Start(t, s.(next := 0), dec);
    LossyExtends(log, run, t, refusals, dec);
    LossyExtends(log, run + [t], s.(next := 0), refusals, dec);
    run' := run + [t] + [s.(next := 0)];
  }

  /** Everything up to n refused, and no mark written. */
  lemma {:induction false} RefuseTo(log: Log, run: seq<Sys>, n: nat, dec: Decoder) returns (run': seq<Sys>)
    requires IsLossyRun(log, run, true, dec) && n <= |log|
    requires var s := run[|run| - 1]; s.phase.Idle? && s.mark == 0 && s.next <= n
    ensures IsLossyRun(log, run', true, dec) && run'[|run'| - 1] == run[|run| - 1].(next := n)
    decreases n - run[|run| - 1].next
  {
    var s := run[|run| - 1];
    if s.next == n {
      run' := run;
    } else {
      var t := s.(next := s.next + 1);
      assert Deliver(log, s, t) || Refuse(log, s, t);
      LossyExtends(log, run, t, true, dec);
      run' := RefuseTo(log, run + [t], n, dec);
    }
  }

  /** Only entry n applied, everything before it since the last one refused. */
  lemma Only(log: Log, run: seq<Sys>, n: nat, dec: Decoder) returns (run': seq<Sys>)
    requires IsLossyRun(log, run, true, dec) && n < |log| && log[n].Some?
    requires var s := run[|run| - 1]; s.phase.Idle? && s.mark == 0 && s.next <= n && s.off == {}
    ensures IsLossyRun(log, run', true, dec)
    ensures var s, s' := run[|run| - 1], run'[|run'| - 1];
            && s'.phase.Idle? && s'.mark == 0 && s'.next == n + 1 && s'.off == {}
            && s'.store == Write(s.store, log[n].value) && s'.users == IndexProfile(s.users, log[n].value, dec)
  {
    run' := RefuseTo(log, run, n, dec);
    run' := Unmarked(log, run', true, dec);
  }

  /** A row is wrong although it was written after its record. */
  ghost predicate WrongRow(s: Sys, dec: Decoder) {
    exists id :: id !in s.off && !RowMatches(s.users, s.store, id, dec)
  }

  lemma UnreadableBreaks(log: Log, i: nat, dec: Decoder) returns (run: seq<Sys>)
    requires IsPut(log, i) && dec(log[i].value.value).None?
    ensures IsLossyRun(log, run, true, dec) && WrongRow(run[|run| - 1], dec)
  {
    run := Only(log, [INITIAL], i, dec);
    assert !RowMatches(run[|run| - 1].users, run[|run| - 1].store, log[i].value.key, dec);
  }

  /** Everything but the two entries is refused. */
  lemma ShareBreaks(log: Log, i: nat, j: nat, dec: Decoder) returns (run: seq<Sys>)
    requires i < j && Share(log, i, j, dec)
    ensures IsLossyRun(log, run, true, dec) && WrongRow(run[|run| - 1], dec)
  {
    var a, b := log[i].value.key, log[j].value.key;
    run := Only(log, [INITIAL], i, dec);
    var users := run[|run| - 1].users;
    assert a in users && Taken(users, b, dec(log[j].value.value).value.email);
    run := Only(log, run, j, dec);
    assert !RowMatches(run[|run| - 1].users, run[|run| - 1].store, b, dec);
  }

  lemma EmptyBreaks(log: Log, i: nat, j: nat, dec: Decoder) returns (run: seq<Sys>)
    requires DropsEmpty(log, i) && IsPut(log, j) && log[j].value.key == "" && dec(log[j].value.value).Some?
    ensures IsLossyRun(log, run, true, dec) && WrongRow(run[|run| - 1], dec)
  {
    run := Only(log, [INITIAL], j, dec);
    var s := run[|run| - 1];
    assert s.users.Keys == {""} && s.store.Keys == {""};
    if i < j {
      assert Reconciled(s.users, s.store, dec) == s.users;
      run := StartOver(log, run, true, dec);
    }
    run := Only(log, run, i, dec);
    assert !RowMatches(run[|run| - 1].users, run[|run| - 1].store, "", dec);
  }

  ghost predicate NeverWrongRow(log: Log, dec: Decoder) {
    forall run: seq<Sys>, i: nat :: IsLossyRun(log, run, true, dec) && i < |run| ==> !WrongRow(run[i], dec)
  }

  /** Over all runs, rows written after their record are right exactly for such logs. */
  lemma WrittenRowsIff(log: Log, dec: Decoder)
    ensures NeverWrongRow(log, dec) <==> Apart(log, dec)
  {
    if Apart(log, dec) {
      forall run: seq<Sys>, i: nat | IsLossyRun(log, run, true, dec) && i < |run| ensures !WrongRow(run[i], dec) {
        LossyExact(log, run, i, true, dec);
      }
    } else if i :| IsPut(log, i) && dec(log[i].value.value).None? {
      var run := UnreadableBreaks(log, i, dec);
    } else if i, j :| Share(log, i, j, dec) {
      var run := ShareBreaks(log, if i < j then i else j, if i < j then j else i, dec);
    } else {
      var i, j :| DropsEmpty(log, i) && IsPut(log, j) && log[j].value.key == "";
      var run := EmptyBreaks(log, i, j, dec);
    }
  }

  // ------------------------------------------------------------- rows lost for good

  /** Everything from here refused, and each mark written. */
  lemma {:induction false} RefuseOut(log: Log, run: seq<Sys>, dec: Decoder) returns (run': seq<Sys>)
    requires IsLossyRun(log, run, true, dec)
    requires var s := run[|run| - 1];
             s.phase.Idle? && s.mark <= s.next <= |log| && forall p: nat :: s.mark <= p < s.next ==> log[p].None?
    ensures IsLossyRun(log, run', true, dec) && Finished(log, run'[|run'| - 1])
    ensures run'[|run'| - 1].store == run[|run| - 1].store && run'[|run'| - 1].users == run[|run| - 1].users
    decreases |log| - run[|run| - 1].next
  {
    var s := run[|run| - 1];
    if s.next == |log| {
      run' := run;
    } else {
      var t := s.(next := s.next + 1, mark := if log[s.next].Some? then s.next + 1 else s.mark);
      assert Deliver(log, s, t) || Refuse(log, s, t);
      LossyExtends(log, run, t, true, dec);
      run' := RefuseOut(log, run + [t], dec);
    }
  }

  /**
    A profile stored, a crash before its row, and the replay refused: everything is
    delivered and marked, the record is there and the row is not.
  */
  lemma RefusedReplay(log: Log, n: nat, dec: Decoder) returns (run: seq<Sys>)
    requires IsPut(log, n)
    ensures IsLossyRun(log, run, true, dec) && Finished(log, run[|run| - 1])
    ensures log[n].value.key in run[|run| - 1].store && log[n].value.key !in run[|run| - 1].users
  {
    run := RefuseTo(log, [INITIAL], n, dec);
    var s, c := run[|run| - 1], log[n].value;
    var t := s.(store := map[c.key := c.value], phase := Stored, half := true, off := {c.key});
    var u := t.(phase := Down);
    var v := t.(phase := Idle, next := 0);
    assert Reconciled(map[], t.store, dec) == map[];
    assert WriteStore(log, s, t) && Crash(t, u) && Start(u, v, dec);
    LossyExtends(log, run, t, true, dec);
    LossyExtends(log, run + [t], u, true, dec);
    LossyExtends(log, run + [t] + [u], v, true, dec);
    run := RefuseOut(log, run + [t] + [u] + [v], dec);
  }

  ghost predicate AlwaysExactLossy(log: Log, dec: Decoder) {
    forall run: seq<Sys>, i: nat ::
      IsLossyRun(log, run, true, dec) && i < |run| && Delivered(log, run[i]) ==> InSync(run[i].users, run[i].store, dec)
  }

  lemma {:induction false} NoPutsNoRows(log: Log, run: seq<Sys>, i: nat, dec: Decoder)
    requires (forall n :: !IsPut(log, n)) && IsLossyRun(log, run, true, dec) && i < |run|
    ensures run[i].store == map[] && run[i].users == map[]
  {
    if i > 0 {
      NoPutsNoRows(log, run, i - 1, dec);
      var s, s' := run[i - 1], run[i];
      assert LossyStep(log, s, s', true, dec);
      assert s.next < |log| && log[s.next].Some? ==> !IsPut(log, s.next);
    }
  }

  /** Where entries may be refused, the delivered table is exact in every run only for a log without a profile. */
  lemma LossyExactIff(log: Log, dec: Decoder)
    ensures AlwaysExactLossy(log, dec) <==> forall n :: !IsPut(log, n)
  {
    if n :| IsPut(log, n) {
      var run := RefusedReplay(log, n, dec);
      assert !RowMatches(run[|run| - 1].users, run[|run| - 1].store, log[n].value.key, dec);
    } else {
      forall run: seq<Sys>, i: nat | IsLossyRun(log, run, true, dec) && i < |run|
        ensures InSync(run[i].users, run[i].store, dec)
      {
        NoPutsNoRows(log, run, i, dec);
      }
    }
  }

  // ------------------------------------------------- what lost marks alone can do

  /** An address that passed from one user to the next: after lost marks and a crash the replay finds it taken. */
  lemma LostMarkClash(a: string, b: string, v: Value, dec: Decoder) returns (run: seq<Sys>)
    requires a != b && a != "" && dec(v).Some?
    ensures var log := [Some(Put(a, v)), Some(Delete(a)), Some(Put(b, v))];
            && Clean(log, dec) && IsLossyRun(log, run, false, dec)
            && var s := run[|run| - 1]; s.off == {} && a in s.store && a !in s.users
  {
    var log := [Some(Put(a, v)), Some(Delete(a)), Some(Put(b, v))];
    var row := NewRow(v, dec);
    ClashClean(log, a, b, v, dec);
    run := Unmarked(log, [INITIAL], false, dec);
    assert run[|run| - 1] == Sys(map[a := v], map[a := row], 0, 1, Idle, true, {});
    run := Unmarked(log, run, false, dec);
    assert run[|run| - 1] == Sys(map[], map[], 0, 2, Idle, true, {});
    run := Unmarked(log, run, false, dec);
    assert run[|run| - 1] == Sys(map[b := v], map[b := row], 0, 3, Idle, true, {});
    assert Reconciled(map[b := row], map[b := v], dec) == map[b := row];
    run := StartOver(log, run, false, dec);
    assert run[|run| - 1].users == map[b := row] && Taken(map[b := row], a, row.username) by { assert b in map[b := row]; }
    run := Unmarked(log, run, false, dec);
  }

  function NewRow(v: Value, dec: Decoder): Row
    requires dec(v).Some?
  {
    Row(dec(v).value.email, dec(v).value.displayName, !dec(v).value.disabled)
  }

  lemma ClashClean(log: Log, a: string, b: string, v: Value, dec: Decoder)
    requires log == [Some(Put(a, v)), Some(Delete(a)), Some(Put(b, v))] && a != "" && dec(v).Some?
    ensures Clean(log, dec)
  {
    assert TableAt(log, 0, dec) == map[];
    assert TableAt(log, 1, dec).Keys == {a};
    assert TableAt(log, 2, dec) == map[];
  }

  /**
    Three users and two addresses: b is inserted as g, c takes g over from it, and
    a has e, which b had only while it had g's row.
  */
  function Relay(a: string, b: string, c: string, g: Value, e: Value): Log {
    [Some(Delete(a)), Some(Put(b, g)), Some(Put(b, e)), Some(Put(a, e)), Some(Delete(b)), Some(Put(c, g))]
  }

  ghost predicate IsRelay(a: string, b: string, c: string, g: Value, e: Value, dec: Decoder) {
    && a != b && b != c && a != c && a != "" && b != "" && dec(g).Some? && dec(e).Some?
    && dec(g).value.email != dec(e).value.email
  }

  /** The first time everything finds its place. */
  lemma RelayOnce(a: string, b: string, c: string, g: Value, e: Value, dec: Decoder) returns (run: seq<Sys>)
    requires IsRelay(a, b, c, g, e, dec)
    ensures var log := Relay(a, b, c, g, e);
            && IsLossyRun(log, run, false, dec)
            && run[|run| - 1] == Sys(map[a := e, c := g], map[a := NewRow(e, dec), c := NewRow(g, dec)], 0, 6, Idle, true, {})
  {
    var log := Relay(a, b, c, g, e);
    var kept := NewRow(e, dec).(username := dec(g).value.email);
    run := Unmarked(log, [INITIAL], false, dec);
    assert run[|run| - 1] == Sys(map[], map[], 0, 1, Idle, true, {});
    run := Unmarked(log, run, false, dec);
    assert run[|run| - 1] == Sys(map[b := g], map[b := NewRow(g, dec)], 0, 2, Idle, true, {});
    run := Unmarked(log, run, false, dec);
    assert run[|run| - 1] == Sys(map[b := e], map[b := kept], 0, 3, Idle, true, {});
    run := Unmarked(log, run, false, dec);
    assert run[|run| - 1] == Sys(map[b := e, a := e], map[b := kept, a := NewRow(e, dec)], 0, 4, Idle, true, {});
    run := Unmarked(log, run, false, dec);
    assert run[|run| - 1] == Sys(map[a := e], map[a := NewRow(e, dec)], 0, 5, Idle, true, {});
    run := Unmarked(log, run, false, dec);
  }

  lemma RelayClean(a: string, b: string, c: string, g: Value, e: Value, dec: Decoder)
    requires IsRelay(a, b, c, g, e, dec)
    ensures Clean(Relay(a, b, c, g, e), dec)
  {
    var log := Relay(a, b, c, g, e);
    var kept := NewRow(e, dec).(username := dec(g).value.email);
    assert TableAt(log, 0, dec) == map[];
    assert TableAt(log, 1, dec) == map[];
    assert TableAt(log, 2, dec) == map[b := NewRow(g, dec)];
    assert TableAt(log, 3, dec) == map[b := kept];
    assert TableAt(log, 4, dec) == map[b := kept, a := NewRow(e, dec)];
    assert TableAt(log, 5, dec) == map[a := NewRow(e, dec)];
  }

  /** The second time b finds g taken and takes e instead, and a is left without a row. */
  lemma RelayAgain(a: string, b: string, c: string, g: Value, e: Value, run: seq<Sys>, dec: Decoder)
    returns (run': seq<Sys>)
    requires IsRelay(a, b, c, g, e, dec) && IsLossyRun(Relay(a, b, c, g, e), run, false, dec)
    requires run[|run| - 1] == Sys(map[c := g], map[c := NewRow(g, dec)], 0, 1, Idle, true, {})
    ensures var log := Relay(a, b, c, g, e);
            && IsLossyRun(log, run', false, dec) && Finished(log, run'[|run'| - 1])
            && a in run'[|run'| - 1].store && a !in run'[|run'| - 1].users
  {
    var log := Relay(a, b, c, g, e);
    var rc, rb := NewRow(g, dec), NewRow(e, dec);
    assert Taken(map[c := rc], b, rc.username) by { assert c in map[c := rc]; }
    run' := Unmarked(log, run, false, dec);
    assert run'[|run'| - 1] == Sys(map[c := g, b := g], map[c := rc], 0, 2, Idle, true, {});
    run' := Unmarked(log, run', false, dec);
    assert run'[|run'| - 1] == Sys(map[c := g, b := e], map[c := rc, b := rb], 0, 3, Idle, true, {});
    assert Taken(map[c := rc, b := rb], a, rb.username) by { assert b in map[c := rc, b := rb]; }
    run' := Unmarked(log, run', false, dec);
    assert run'[|run'| - 1] == Sys(map[c := g, b := e, a := e], map[c := rc, b := rb], 0, 4, Idle, true, {});
    run' := Unmarked(log, run', false, dec);
    assert run'[|run'| - 1] == Sys(map[c := g, a := e], map[c := rc], 0, 5, Idle, true, {});
    run' := ApplyNext(log, run', true, false, dec);
  }

  /**
    Delivered twice, because marks were lost: all is delivered and marked, and a has
    its record and no row.
  */
  lemma LostMarksLoseRow(a: string, b: string, c: string, g: Value, e: Value, dec: Decoder) returns (run: seq<Sys>)
    requires IsRelay(a, b, c, g, e, dec)
    ensures var log := Relay(a, b, c, g, e);
            && Clean(log, dec) && IsLossyRun(log, run, false, dec) && Finished(log, run[|run| - 1])
            && a in run[|run| - 1].store && a !in run[|run| - 1].users
  {
    var log := Relay(a, b, c, g, e);
    RelayClean(a, b, c, g, e, dec);
    run := RelayOnce(a, b, c, g, e, dec);
    var s := run[|run| - 1];
    assert Reconciled(s.users, s.store, dec) == s.users;
    run := StartOver(log, run, false, dec);
    run := Unmarked(log, run, false, dec);
    assert run[|run| - 1] == Sys(map[c := g], map[c := NewRow(g, dec)], 0, 1, Idle, true, {});
    run := RelayAgain(a, b, c, g, e, run, dec);
  }
}
