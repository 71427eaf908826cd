/**
  The Raft log kept in Pebble: byte keys in lexicographic order, twenty-digit
  log keys, prefix and range bounds, and the snapshot restore that shares the
  keyspace with them.
*/
module RaftStore {

  import opened Lexicographic
  import opened Wrappers

  type Byte = x: int | 0 <= x < 256

  type Key = seq<Byte>

  type Value = seq<Byte>

  // -------------------------------------------------------- lexicographic order

  lemma {:induction false} LessLast(a: Key, x: Byte, b: Key, y: Byte)
    requires |a| == |b|
    ensures Less(a + [x], b + [y]) <==> Less(a, b) || (a == b && x < y)
  {
    if a != [] {
      assert (a + [x])[1..] == a[1..] + [x] && (b + [y])[1..] == b[1..] + [y];
      LessLast(a[1..], x, b[1..], y);
      assert a == [a[0]] + a[1..] && b == [b[0]] + b[1..];
    }
  }

  lemma {:induction false} LessPrefix(p: Key, a: Key, b: Key)
    ensures Less(p + a, p + b) <==> Less(a, b)
  {
    if p == [] {
      assert p + a == a && p + b == b;
    } else {
      assert (p + a)[1..] == p[1..] + a && (p + b)[1..] == p[1..] + b;
      LessPrefix(p[1..], a, b);
    }
  }

  // ------------------------------------------------------------- range bounds

  /** The least key above every key that starts with p; None when there is none. */
  function Successor(p: Key): Option<Key> {
    if p == [] then None
    else match Successor(p[1..])
      case Some(t) => Some([p[0]] + t)
      case None => if p[0] < 255 then Some([p[0] + 1]) else None
  }

  predicate BelowBound(k: Key, bound: Option<Key>) {
    bound.None? || Less(k, bound.value)
  }

  /** keySuccessor and prefixUpperBound: increment the last byte that is not 0xFF. */
  method KeySuccessor(key: Key) returns (succ: Option<Key>)
    ensures succ == Successor(key)
    ensures forall k: Key :: BelowBound(k, succ) <==> Less(k, key) || key <= k
  {
    forall k: Key
      ensures BelowBound(k, Successor(key)) <==> Less(k, key) || key <= k
    {
      SuccessorBounds(key, k);
    }
    var i := |key|;
    while i > 0
      invariant 0 <= i <= |key|
      invariant forall j :: i <= j < |key| ==> key[j] == 255
    {
      i := i - 1;
      if key[i] < 255 {
        SuccessorAt(key, i);
        return Some(key[..i] + [key[i] + 1]);
      }
    }
    SuccessorAt(key, -1);
    return None;
  }

  lemma {:induction false} SuccessorAt(key: Key, i: int)
    requires -1 <= i < |key|
    requires i >= 0 ==> key[i] < 255
    requires forall j :: i < j < |key| ==> key[j] == 255
    ensures Successor(key) == if i < 0 then None else Some(key[..i] + [key[i] + 1])
  {
    if key != [] {
      if i <= 0 {
        SuccessorAt(key[1..], -1);
        assert i == 0 ==> key[..i] + [key[i] + 1] == [key[0] + 1];
      } else {
        SuccessorAt(key[1..], i - 1);
        var t := key[1..][..i - 1] + [key[i] + 1];
        assert Successor(key) == Some([key[0]] + t);
        assert [key[0]] + t == key[..i] + [key[i] + 1];
      }
    }
  }

  /** Below the successor of p: the keys before p, and p's extensions. */
  lemma {:induction false} SuccessorBounds(p: Key, k: Key)
    ensures BelowBound(k, Successor(p)) <==> Less(k, p) || p <= k
  {
    if p != [] && k != [] {
      SuccessorBounds(p[1..], k[1..]);
      assert p <= k <==> p[0] == k[0] && p[1..] <= k[1..] by {
        assert p == [p[0]] + p[1..] && k == [k[0]] + k[1..];
      }
      if Successor(p[1..]).Some? {
        assert ([p[0]] + Successor(p[1..]).value)[1..] == Successor(p[1..]).value;
      }
      if Successor(p[1..]).None? && p[0] < 255 {
        assert !Less(k[1..], [p[0] + 1][1..]);
      }
    }
  }

  /** A scan from p up to its successor visits exactly the keys that start with p. */
  lemma ScanIsPrefix(p: Key, k: Key)
    ensures !Less(k, p) && BelowBound(k, Successor(p)) <==> p <= k
  {
    SuccessorBounds(p, k);
    if p <= k {
      assert k == p + k[|p|..] && p == p + [];
      LessPrefix(p, k[|p|..], []);
    }
  }

  predicate InRange(k: Key, start: Key, bound: Option<Key>) {
    !Less(k, start) && BelowBound(k, bound)
  }

  function RangeDeleted(kv: map<Key, Value>, start: Key, end: Key): map<Key, Value> {
    map k | k in kv && !InRange(k, start, Successor(end)) :: kv[k]
  }

  /** PebbleStore.DeleteRange is inclusive exactly when no stored key extends its end. */
  lemma DeleteRangeInclusiveIff(kv: map<Key, Value>, start: Key, end: Key)
    ensures
      RangeDeleted(kv, start, end) == (map k | k in kv && (Less(k, start) || Less(end, k)) :: kv[k])
      <==> forall k :: k in kv && end < k ==> Less(k, start)
  {
    var inclusive := map k | k in kv && (Less(k, start) || Less(end, k)) :: kv[k];
    forall k | k in kv
      ensures (k in RangeDeleted(kv, start, end) <==> k in inclusive) <==> (end < k ==> Less(k, start))
    {
      SuccessorBounds(end, k);
      LessTotal(k, end);
      LessTotal(end, k);
      if end < k {
        var rest := k[|end|..];
        assert k == end + rest && end == end + [] && rest != [];
        LessPrefix(end, [], rest);
        assert Less(end, k);
      }
      assert end <= k <==> end == k || end < k;
    }
  }

  /** A key that extends the end, and lies past it, goes too. */
  lemma ExtensionDeleted(end: Key, x: Byte, v: Value)
    ensures Less(end, end + [x]) && RangeDeleted(map[end + [x] := v], end, end) == map[]
  {
    SuccessorBounds(end, end + [x]);
    LessPrefix(end, [], [x]);
    assert end + [] == end;
    LessTotal(end, end + [x]);
  }

  // ----------------------------------------------------------------- log keys

  const UINT64 := 0x1_0000_0000_0000_0000

  /** "_raft/log/" and "_raft/stable/" */
  const LOG_PREFIX: Key := [95, 114, 97, 102, 116, 47, 108, 111, 103, 47]
  const STABLE_PREFIX: Key := [95, 114, 97, 102, 116, 47, 115, 116, 97, 98, 108, 101, 47]

  function Digits(n: nat, width: nat): (ds: Key)
    ensures |ds| == width
    ensures forall i :: 0 <= i < width ==> 48 <= ds[i] < 58
  {
    if width == 0 then [] else Digits(n / 10, width - 1) + [48 + n % 10]
  }

  function LogKey(index: nat): Key { LOG_PREFIX + Digits(index, 20) }

  function Number(ds: Key): nat
    requires forall i :: 0 <= i < |ds| ==> 48 <= ds[i] < 58
  {
    if ds == [] then 0 else Number(ds[..|ds| - 1]) * 10 + (ds[|ds| - 1] - 48)
  }

  /** The leading decimal digits, as Sscanf's %d reads them. */
  function DigitRun(s: Key): (r: Key)
    ensures r <= s && forall i :: 0 <= i < |r| ==> 48 <= r[i] < 58
  {
    if s != [] && 48 <= s[0] < 58 then [s[0]] + DigitRun(s[1..]) else []
  }

  function ParseLogIndex(key: Key): Option<nat> {
    if |key| <= |LOG_PREFIX| then None
    else
      var ds := DigitRun(key[|LOG_PREFIX|..]);
      if ds == [] || Number(ds) >= UINT64 then None else Some(Number(ds))
  }

  function Pow10(w: nat): nat { if w == 0 then 1 else 10 * Pow10(w - 1) }

  lemma TenthOrder(n: nat, m: nat)
    ensures n < m <==> n / 10 < m / 10 || (n / 10 == m / 10 && n % 10 < m % 10)
  {
  }

  lemma TenthFits(n: nat, width: nat)
    requires width > 0 && n < Pow10(width)
    ensures n / 10 < Pow10(width - 1)
  {
  }

  lemma {:induction false} NumberOfDigits(n: nat, width: nat)
    requires n < Pow10(width)
    ensures Number(Digits(n, width)) == n
  {
    if width > 0 {
      TenthFits(n, width);
      NumberOfDigits(n / 10, width - 1);
      assert (Digits(n / 10, width - 1) + [48 + n % 10])[..width - 1] == Digits(n / 10, width - 1);
    }
  }

  lemma {:induction false} DigitsOrder(n: nat, m: nat, width: nat)
    requires n < Pow10(width) && m < Pow10(width)
    ensures Less(Digits(n, width), Digits(m, width)) <==> n < m
  {
    if width > 0 {
      TenthFits(n, width);
      TenthFits(m, width);
      TenthOrder(n, m);
      var a, b := Digits(n / 10, width - 1), Digits(m / 10, width - 1);
      DigitsOrder(n / 10, m / 10, width - 1);
      assert a == b <==> n / 10 == m / 10 by {
        NumberOfDigits(n / 10, width - 1);
        NumberOfDigits(m / 10, width - 1);
      }
      LessLast(a, 48 + n % 10, b, 48 + m % 10);
    }
  }

  lemma {:induction false} DigitRunAll(ds: Key)
    requires forall i :: 0 <= i < |ds| ==> 48 <= ds[i] < 58
    ensures DigitRun(ds) == ds
  {
    if ds != [] {
      DigitRunAll(ds[1..]);
    }
  }

  lemma Uint64Fits(n: nat)
    requires n < UINT64
    ensures n < Pow10(20)
  {
    assert Pow10(5) == 100000;
    assert Pow10(10) == 10000000000;
    assert Pow10(15) == 1000000000000000;
    assert Pow10(20) == 100000000000000000000;
  }

  /** Over all of uint64 the key is invertible and sorts as its index does. */
  lemma LogKeyLaws(n: nat, m: nat)
    requires n < UINT64 && m < UINT64
    ensures ParseLogIndex(LogKey(n)) == Some(n)
    ensures LogKey(n) == LogKey(m) <==> n == m
    ensures Less(LogKey(n), LogKey(m)) <==> n < m
  {
    Uint64Fits(n);
    Uint64Fits(m);
    NumberOfDigits(n, 20);
    NumberOfDigits(m, 20);
    assert LogKey(n)[|LOG_PREFIX|..] == Digits(n, 20) && LogKey(m)[|LOG_PREFIX|..] == Digits(m, 20);
    DigitRunAll(Digits(n, 20));
    DigitsOrder(n, m, 20);
    LessPrefix(LOG_PREFIX, Digits(n, 20), Digits(m, 20));
  }

  // -------------------------------------------------------- least and greatest

  lemma {:induction false} LeastExists(ks: set<Key>)
    requires ks != {}
    ensures exists k :: k in ks && forall o :: o in ks ==> !Less(o, k)
  {
    var x :| x in ks;
    if ks == {x} {
      LessTotal(x, x);
    } else {
      assert ks - {x} != {};
      LeastExists(ks - {x});
      var y :| y in ks - {x} && forall o :: o in ks - {x} ==> !Less(o, y);
      LessTotal(x, y);
      if Less(x, y) {
        forall o | o in ks
          ensures !Less(o, x)
        {
          LessTotal(o, x);
          if o != x && Less(o, x) {
            LessTransitive(o, x, y);
            assert false;
          }
        }
      } else {
        assert forall o :: o in ks ==> !Less(o, y);
      }
    }
  }

  lemma {:induction false} GreatestExists(ks: set<Key>)
    requires ks != {}
    ensures exists k :: k in ks && forall o :: o in ks ==> !Less(k, o)
  {
    var x :| x in ks;
    if ks == {x} {
      LessTotal(x, x);
    } else {
      assert ks - {x} != {};
      GreatestExists(ks - {x});
      var y :| y in ks - {x} && forall o :: o in ks - {x} ==> !Less(y, o);
      LessTotal(x, y);
      if Less(y, x) {
        forall o | o in ks
          ensures !Less(x, o)
        {
          LessTotal(o, x);
          if o != x && Less(x, o) {
            LessTransitive(y, x, o);
            assert false;
          }
        }
      } else {
        assert forall o :: o in ks ==> !Less(y, o);
      }
    }
  }

  // ---------------------------------------------------------------- the store

  datatype Log = Log(index: nat, data: Value)

  function Stored(m: map<nat, Value>, logs: seq<Log>): map<nat, Value> {
    if logs == [] then m else Stored(m, logs[..|logs| - 1])[logs[|logs| - 1].index := logs[|logs| - 1].data]
  }

  /** Position j holds the last entry with index i. */
  ghost predicate LastWith(logs: seq<Log>, i: nat, j: int) {
    0 <= j < |logs| && logs[j].index == i && forall k :: j < k < |logs| ==> logs[k].index != i
  }

  /** An index holds the data of its last entry, or what it held. */
  lemma {:induction false} StoredAt(m: map<nat, Value>, logs: seq<Log>, i: nat)
    ensures forall j :: LastWith(logs, i, j) ==>
              i in Stored(m, logs) && Stored(m, logs)[i] == logs[j].data
    ensures (forall j :: !LastWith(logs, i, j)) ==>
              (i in Stored(m, logs) <==> i in m) && (i in m ==> Stored(m, logs)[i] == m[i])
  {
    if logs != [] {
      var n := |logs| - 1;
      if logs[n].index == i {
        assert LastWith(logs, i, n);
      } else {
        StoredAt(m, logs[..n], i);
        forall j ensures LastWith(logs, i, j) <==> LastWith(logs[..n], i, j) {
        }
      }
    }
  }

  /** How many entries are stored when number `fails` of n fails. */
  function Reached(n: nat, fails: nat, lands: bool): (r: nat)
    ensures r <= n
  {
    if fails >= n then n else if lands then fails + 1 else fails
  }

  ghost predicate IsLogKey(k: Key) {
    exists i: nat :: i < UINT64 && k == LogKey(i)
  }

  ghost function LogEntries(kv: map<Key, Value>): map<nat, Value> {
    map i: nat | 0 <= i < UINT64 && LogKey(i) in kv :: kv[LogKey(i)]
  }

  /** Everything that is not a log entry. */
  ghost function Others(kv: map<Key, Value>): map<Key, Value> {
    map k | k in kv && !(LOG_PREFIX <= k) :: kv[k]
  }

  class Store {
    var kv: map<Key, Value>

    /** Under the log prefix there are only log keys. */
    ghost predicate Valid()
      reads this
    {
      forall k :: k in kv && LOG_PREFIX <= k ==> IsLogKey(k)
    }

    constructor ()
      ensures Valid() && kv == map[]
    {
      kv := map[];
    }

    method FirstIndex() returns (index: nat)
      requires Valid()
      ensures LogEntries(kv) == map[] ==> index == 0
      ensures LogEntries(kv) != map[] ==>
                index in LogEntries(kv) && forall i :: i in LogEntries(kv) ==> index <= i
    {
      var ks := set k | k in kv && InRange(k, LOG_PREFIX, Successor(LOG_PREFIX));
      ScanSeesLog(kv, ks);
      if ks == {} {
        return 0;
      }
      LeastExists(ks);
      var first :| first in ks && forall o :: o in ks ==> !Less(o, first);
      LeastIsFirst(kv, ks, first);
      index := ParseLogIndex(first).value;
    }

    method LastIndex() returns (index: nat)
      requires Valid()
      ensures LogEntries(kv) == map[] ==> index == 0
      ensures LogEntries(kv) != map[] ==>
                index in LogEntries(kv) && forall i :: i in LogEntries(kv) ==> i <= index
    {
      var ks := set k | k in kv && InRange(k, LOG_PREFIX, Successor(LOG_PREFIX));
      ScanSeesLog(kv, ks);
      if ks == {} {
        return 0;
      }
      GreatestExists(ks);
      var last :| last in ks && forall o :: o in ks ==> !Less(last, o);
      GreatestIsLast(kv, ks, last);
      index := ParseLogIndex(last).value;
    }

    /**
      One synced write per entry, so an error leaves a prefix.  fails is the entry
      whose encoding or write fails, if there is one; lands, whether its write
      reached the disk all the same.
    */
    method StoreLogs(logs: seq<Log>, fails: nat, lands: bool) returns (ok: bool)
      requires Valid() && forall l :: l in logs ==> l.index < UINT64
      modifies this
      ensures Valid()
      ensures ok <==> fails >= |logs|
      ensures LogEntries(kv) == Stored(old(LogEntries(kv)), logs[..Reached(|logs|, fails, lands)])
      ensures Others(kv) == old(Others(kv))
    {
      for i := 0 to |logs|
        invariant Valid() && i <= fails
        invariant LogEntries(kv) == Stored(old(LogEntries(kv)), logs[..i])
        invariant Others(kv) == old(Others(kv))
      {
        assert logs[..i + 1][..i] == logs[..i];
        var l := logs[i];
        ghost var was := kv;
        if i != fails || lands {
          kv := kv[LogKey(l.index) := l.data];
          SetLog(was, l);
        }
        if i == fails {
          return false;
        }
      }
      ok := true;
    }

    /** Removes the entries min..max and nothing else in the store. */
    method DeleteRange(min: nat, max: nat)
      requires Valid() && min < UINT64 && max < UINT64
      modifies this
      ensures Valid()
      ensures LogEntries(kv) ==
              map i | i in old(LogEntries(kv)) && !(min <= i <= max) :: old(LogEntries(kv))[i]
      ensures Others(kv) == old(Others(kv))
    {
      ghost var was := kv;
      kv := map k | k in kv && !InRange(k, LogKey(min), Successor(LogKey(max))) :: kv[k];
      forall i: nat | i < UINT64
        ensures InRange(LogKey(i), LogKey(min), Successor(LogKey(max))) <==> min <= i <= max
      {
        LogRange(min, max, i);
      }
      forall k | k in was
        ensures InRange(k, LogKey(min), Successor(LogKey(max))) ==> LOG_PREFIX <= k
      {
        RangeInLog(k, min, max);
      }
    }

    /** FSM.Restore: the application keyspace becomes the snapshot's. */
    method Restore(snapshot: map<Key, Value>)
      requires Valid()
      modifies this
      ensures Valid()
      ensures forall k :: IsApp(k) ==> (k in kv <==> k in snapshot) && (k in kv ==> kv[k] == snapshot[k])
      ensures forall k :: !IsApp(k) ==> (k in kv <==> k in old(kv)) && (k in kv ==> kv[k] == old(kv)[k])
      ensures LogEntries(kv) == old(LogEntries(kv))
    {
      var batch := AppCleared(kv);
      var todo := AppKeys(snapshot);
      ghost var kept, all := batch, todo;
      while todo != {}
        invariant todo <= all && kv == old(kv)
        invariant batch == Overlay(kept, snapshot, all - todo)
        decreases |todo|
      {
        var k :| k in todo;
        OverlayStep(kept, snapshot, all - todo, k);
        assert all - (todo - {k}) == (all - todo) + {k};
        batch := batch[k := snapshot[k]];
        todo := todo - {k};
      }
      assert all - todo == all;
      Restored(kv, snapshot);
      kv := batch;
    }

    method SetStable(key: Key, val: Value)
      requires Valid()
      modifies this
      ensures Valid()
      ensures kv == old(kv)[STABLE_PREFIX + key := val]
      ensures LogEntries(kv) == old(LogEntries(kv))
    {
      kv := kv[STABLE_PREFIX + key := val];
      assert forall k :: LOG_PREFIX <= k ==> k[6] == 108;
      assert (STABLE_PREFIX + key)[6] == 115;
      assert forall i: nat :: LogKey(i)[6] == 108;
    }
  }

  const SLASH := 47

  predicate IsApp(k: Key) { k != [] && k[0] == SLASH }

  /** The bytes from "/" up to "0" are the keys that start with "/". */
  lemma AppRange(k: Key)
    ensures InRange(k, [SLASH], Some([SLASH + 1])) <==> IsApp(k)
    ensures Successor([SLASH]) == Some([SLASH + 1])
  {
    assert Successor([]) == None;
    ScanIsPrefix([SLASH], k);
    assert [SLASH] <= k <==> IsApp(k);
  }

  lemma ScanSeesLog(kv: map<Key, Value>, ks: set<Key>)
    requires forall k :: k in kv && LOG_PREFIX <= k ==> IsLogKey(k)
    requires ks == set k | k in kv && InRange(k, LOG_PREFIX, Successor(LOG_PREFIX))
    ensures forall k :: k in ks ==> IsLogKey(k)
    ensures forall i: nat :: i < UINT64 ==> (LogKey(i) in ks <==> LogKey(i) in kv)
    ensures ks == {} <==> LogEntries(kv) == map[]
  {
    forall k: Key
      ensures InRange(k, LOG_PREFIX, Successor(LOG_PREFIX)) <==> LOG_PREFIX <= k
    {
      ScanIsPrefix(LOG_PREFIX, k);
    }
    assert forall i: nat :: LOG_PREFIX <= LogKey(i);
    forall k | k in ks
      ensures exists i: nat :: i < UINT64 && k == LogKey(i) && i in LogEntries(kv)
    {
    }
    forall i | i in LogEntries(kv)
      ensures LogKey(i) in ks
    {
    }
  }

  lemma LeastIsFirst(kv: map<Key, Value>, ks: set<Key>, first: Key)
    requires forall k :: k in ks ==> IsLogKey(k)
    requires forall i: nat :: i < UINT64 ==> (LogKey(i) in ks <==> LogKey(i) in kv)
    requires first in ks && forall o :: o in ks ==> !Less(o, first)
    ensures ParseLogIndex(first).Some? && ParseLogIndex(first).value in LogEntries(kv)
    ensures forall i :: i in LogEntries(kv) ==> ParseLogIndex(first).value <= i
  {
    var n: nat :| n < UINT64 && first == LogKey(n);
    LogKeyLaws(n, n);
    forall i | i in LogEntries(kv)
      ensures n <= i
    {
      NotBelow(ks, n, i);
    }
  }

  lemma NotBelow(ks: set<Key>, n: nat, i: nat)
    requires n < UINT64 && i < UINT64 && LogKey(i) in ks
    ensures (forall o :: o in ks ==> !Less(o, LogKey(n))) ==> n <= i
    ensures (forall o :: o in ks ==> !Less(LogKey(n), o)) ==> i <= n
  {
    LogKeyLaws(i, n);
    LogKeyLaws(n, i);
  }

  lemma GreatestIsLast(kv: map<Key, Value>, ks: set<Key>, last: Key)
    requires forall k :: k in ks ==> IsLogKey(k)
    requires forall i: nat :: i < UINT64 ==> (LogKey(i) in ks <==> LogKey(i) in kv)
    requires last in ks && forall o :: o in ks ==> !Less(last, o)
    ensures ParseLogIndex(last).Some? && ParseLogIndex(last).value in LogEntries(kv)
    ensures forall i :: i in LogEntries(kv) ==> i <= ParseLogIndex(last).value
  {
    var n: nat :| n < UINT64 && last == LogKey(n);
    LogKeyLaws(n, n);
    forall i | i in LogEntries(kv)
      ensures i <= n
    {
      NotBelow(ks, n, i);
    }
  }

  /** What DeleteRange("/", "0") leaves. */
  function AppCleared(kv: map<Key, Value>): map<Key, Value> {
    map k | k in kv && !InRange(k, [SLASH], Some([SLASH + 1])) :: kv[k]
  }

  /** What PrefixScan("/") visits. */
  function AppKeys(snapshot: map<Key, Value>): (ks: set<Key>)
    ensures ks <= snapshot.Keys
  {
    set k | k in snapshot && InRange(k, [SLASH], Successor([SLASH]))
  }

  ghost function Overlay(kept: map<Key, Value>, snapshot: map<Key, Value>, done: set<Key>): map<Key, Value> {
    kept + map k | k in done && k in snapshot :: snapshot[k]
  }

  lemma OverlayStep(kept: map<Key, Value>, snapshot: map<Key, Value>, done: set<Key>, k: Key)
    requires k in snapshot
    ensures Overlay(kept, snapshot, done + {k}) == Overlay(kept, snapshot, done)[k := snapshot[k]]
  {
  }

  lemma Restored(kv: map<Key, Value>, snapshot: map<Key, Value>)
    requires forall k :: k in kv && LOG_PREFIX <= k ==> IsLogKey(k)
    ensures var kv' := Overlay(AppCleared(kv), snapshot, AppKeys(snapshot));
            && (forall k :: IsApp(k) ==> (k in kv' <==> k in snapshot) && (k in kv' ==> kv'[k] == snapshot[k]))
            && (forall k :: !IsApp(k) ==> (k in kv' <==> k in kv) && (k in kv' ==> kv'[k] == kv[k]))
            && (forall k :: k in kv' && LOG_PREFIX <= k ==> IsLogKey(k))
            && LogEntries(kv') == LogEntries(kv)
  {
    AppRange([]);
    forall k: Key
      ensures InRange(k, [SLASH], Some([SLASH + 1])) <==> IsApp(k)
    {
      AppRange(k);
    }
    assert forall i: nat :: !IsApp(LogKey(i));
  }

  lemma SetLog(kv: map<Key, Value>, l: Log)
    requires l.index < UINT64
    ensures LogEntries(kv[LogKey(l.index) := l.data]) == LogEntries(kv)[l.index := l.data]
    ensures Others(kv[LogKey(l.index) := l.data]) == Others(kv)
    ensures IsLogKey(LogKey(l.index))
  {
    SetEntry(kv, l);
    SetOther(kv, LogKey(l.index), l.data);
  }

  lemma SetEntry(kv: map<Key, Value>, l: Log)
    requires l.index < UINT64
    ensures LogEntries(kv[LogKey(l.index) := l.data]) == LogEntries(kv)[l.index := l.data]
  {
    forall i: nat | i < UINT64 ensures LogKey(i) == LogKey(l.index) <==> i == l.index {
      LogKeyLaws(i, l.index);
    }
  }

  lemma SetOther(kv: map<Key, Value>, k: Key, v: Value)
    requires LOG_PREFIX <= k
    ensures Others(kv[k := v]) == Others(kv)
  {
  }

  lemma LogRange(min: nat, max: nat, i: nat)
    requires min < UINT64 && max < UINT64 && i < UINT64
    ensures InRange(LogKey(i), LogKey(min), Successor(LogKey(max))) <==> min <= i <= max
  {
    SuccessorBounds(LogKey(max), LogKey(i));
    LogKeyLaws(i, min);
    LogKeyLaws(i, max);
    assert LogKey(max) <= LogKey(i) ==> LogKey(max) == LogKey(i) by {
      assert |LogKey(max)| == |LogKey(i)|;
    }
  }

  lemma RangeInLog(k: Key, min: nat, max: nat)
    ensures InRange(k, LogKey(min), Successor(LogKey(max))) ==> LOG_PREFIX <= k
  {
    SuccessorBounds(LogKey(max), k);
    assert LOG_PREFIX <= LogKey(max);
    if Less(k, LogKey(max)) && !Less(k, LogKey(min)) {
      Between(LOG_PREFIX, Digits(min, 20), k, Digits(max, 20));
    }
  }

  lemma {:induction false} Between(p: Key, a: Key, k: Key, b: Key)
    requires !Less(k, p + a) && Less(k, p + b)
    ensures p <= k
  {
    if p != [] {
      assert (p + a)[1..] == p[1..] + a && (p + b)[1..] == p[1..] + b;
      Between(p[1..], a, k[1..], b);
      assert p == [p[0]] + p[1..] && k == [k[0]] + k[1..];
    }
  }
}
