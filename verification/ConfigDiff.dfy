/**
  Which config keys changed between two configs.  The config is a tree of
  blocks read through nil-safe accessors: an absent pointer block counts as an
  empty one, and repeated blocks are paired by index, the shorter list padded
  with empty blocks.  The changed keys are then split by reload class.
*/
module ConfigDiff {

  import opened Lexicographic

  /** A scalar field carries the zero value of its type. */
  datatype Schema =
    | Scalar(zero: Leaf)
    | Strings
    | Block(fields: seq<Field>)
    | Pointer(target: Schema)
    | Blocks(elem: Schema)

  datatype Field = Field(name: string, schema: Schema)

  datatype Leaf = Text(text: string) | Number(number: real) | Flag(flag: bool)

  /** A nil string list is the empty one: normaliseSlice makes them equal. */
  datatype Value =
    | One(leaf: Leaf)
    | Many(texts: seq<string>)
    | Struct(vals: seq<Value>)
    | Nil
    | Ref(to: Value)
    | Items(items: seq<Value>)

  predicate Fits(s: Schema, v: Value)
    decreases s
  {
    match s
    case Scalar(_) => v.One?
    case Strings => v.Many?
    case Block(fs) => v.Struct? && |v.vals| == |fs| && forall i :: 0 <= i < |fs| ==> Fits(fs[i].schema, v.vals[i])
    case Pointer(t) => v.Nil? || (v.Ref? && Fits(t, v.to))
    case Blocks(e) => v.Items? && forall i :: 0 <= i < |v.items| ==> Fits(e, v.items[i])
  }

  /** reflect.Zero of the type. */
  function Zero(s: Schema): (v: Value)
    ensures Fits(s, v)
    decreases s
  {
    match s
    case Scalar(z) => One(z)
    case Strings => Many([])
    case Block(fs) => Struct(seq(|fs|, i requires 0 <= i < |fs| => Zero(fs[i].schema)))
    case Pointer(_) => Nil
    case Blocks(_) => Items([])
  }

  function DerefOrZero(t: Schema, v: Value): (r: Value)
    requires Fits(Pointer(t), v)
    ensures Fits(t, r)
  {
    if v.Nil? then Zero(t) else v.to
  }

  function ElemOrZero(e: Schema, v: Value, i: nat): (r: Value)
    requires Fits(Blocks(e), v)
    ensures Fits(e, r)
  {
    if i < |v.items| then v.items[i] else Zero(e)
  }

  function JoinPath(path: string, name: string): string {
    if path == "" then name else path + "." + name
  }

  function Max(a: nat, b: nat): nat { if a < b then b else a }

  /** diffValue inserts k. */
  ghost predicate Reported(path: string, s: Schema, a: Value, b: Value, k: string)
    requires Fits(s, a) && Fits(s, b)
    decreases s
  {
    match s
    case Scalar(_) => a != b && k == path
    case Strings => a != b && k == path
    case Block(fs) => exists i :: 0 <= i < |fs| && Reported(JoinPath(path, fs[i].name), fs[i].schema, a.vals[i], b.vals[i], k)
    case Pointer(t) => Reported(path, t, DerefOrZero(t, a), DerefOrZero(t, b), k)
    case Blocks(e) => exists i :: 0 <= i < Max(|a.items|, |b.items|) && Reported(path, e, ElemOrZero(e, a, i), ElemOrZero(e, b, i), k)
  }

  lemma {:induction false} SameIsQuiet(path: string, s: Schema, a: Value, k: string)
    requires Fits(s, a)
    ensures !Reported(path, s, a, a, k)
    decreases s
  {
    match s
    case Scalar(_) =>
    case Strings =>
    case Block(fs) =>
      forall i | 0 <= i < |fs| {
        SameIsQuiet(JoinPath(path, fs[i].name), fs[i].schema, a.vals[i], k);
      }
    case Pointer(t) => SameIsQuiet(path, t, DerefOrZero(t, a), k);
    case Blocks(e) =>
      forall i | 0 <= i < |a.items| {
        SameIsQuiet(path, e, ElemOrZero(e, a, i), k);
      }
  }

  class Changes {
    var keys: set<string>

    constructor ()
      ensures keys == {}
    {
      keys := {};
    }

    method DiffValue(path: string, s: Schema, a: Value, b: Value)
      requires Fits(s, a) && Fits(s, b)
      modifies this
      ensures forall k :: k in keys <==> k in old(keys) || Reported(path, s, a, b, k)
      decreases s, 1
    {
      match s {
        case Scalar(_) =>
          if a != b {
            keys := keys + {path};
          }
        case Strings =>
          if a != b {
            keys := keys + {path};
          }
        case Block(fs) => DiffFields(path, fs, a, b);
        case Pointer(t) =>
          if a.Nil? && b.Nil? {
            forall k ensures !Reported(path, s, a, b, k) {
              SameIsQuiet(path, s, a, k);
            }
          } else {
            DiffValue(path, t, DerefOrZero(t, a), DerefOrZero(t, b));
          }
        case Blocks(e) => DiffItems(path, e, a, b);
      }
    }

    method DiffFields(path: string, fs: seq<Field>, a: Value, b: Value)
      requires Fits(Block(fs), a) && Fits(Block(fs), b)
      modifies this
      ensures forall k :: k in keys <==> k in old(keys) || Reported(path, Block(fs), a, b, k)
      decreases Block(fs), 0
    {
      for i := 0 to |fs|
        invariant forall k :: k in keys <==>
                    k in old(keys)
                    || exists j :: 0 <= j < i && Reported(JoinPath(path, fs[j].name), fs[j].schema, a.vals[j], b.vals[j], k)
      {
        DiffValue(JoinPath(path, fs[i].name), fs[i].schema, a.vals[i], b.vals[i]);
      }
    }

    method DiffItems(path: string, e: Schema, a: Value, b: Value)
      requires Fits(Blocks(e), a) && Fits(Blocks(e), b)
      modifies this
      ensures forall k :: k in keys <==> k in old(keys) || Reported(path, Blocks(e), a, b, k)
      decreases Blocks(e), 0
    {
      for i := 0 to Max(|a.items|, |b.items|)
        invariant forall k :: k in keys <==>
                    k in old(keys)
                    || exists j :: 0 <= j < i && Reported(path, e, ElemOrZero(e, a, j), ElemOrZero(e, b, j), k)
      {
        DiffValue(path, e, ElemOrZero(e, a, i), ElemOrZero(e, b, i));
      }
    }
  }

  // --------------------------------------------- what a reported key means

  /** A leaf's place: a field number under a block, an index under repeated blocks. */
  type Address = seq<nat>

  /** at leads to a scalar or a string list. */
  predicate IsLeaf(s: Schema, at: Address)
    decreases s
  {
    match s
    case Scalar(_) => at == []
    case Strings => at == []
    case Block(fs) => at != [] && at[0] < |fs| && IsLeaf(fs[at[0]].schema, at[1..])
    case Pointer(t) => IsLeaf(t, at)
    case Blocks(e) => at != [] && IsLeaf(e, at[1..])
  }

  /** The key a leaf is known by; a repeated block adds no index. */
  function KeyOf(path: string, s: Schema, at: Address): string
    requires IsLeaf(s, at)
    decreases s
  {
    match s
    case Scalar(_) => path
    case Strings => path
    case Block(fs) => KeyOf(JoinPath(path, fs[at[0]].name), fs[at[0]].schema, at[1..])
    case Pointer(t) => KeyOf(path, t, at)
    case Blocks(e) => KeyOf(path, e, at[1..])
  }

  /** The leaf as a nil-safe accessor reads it: zero where the block is missing. */
  function Read(s: Schema, v: Value, at: Address): Value
    requires Fits(s, v) && IsLeaf(s, at)
    decreases s
  {
    match s
    case Scalar(_) => v
    case Strings => v
    case Block(fs) => Read(fs[at[0]].schema, v.vals[at[0]], at[1..])
    case Pointer(t) => Read(t, DerefOrZero(t, v), at)
    case Blocks(e) => Read(e, ElemOrZero(e, v, at[0]), at[1..])
  }

  ghost predicate DiffersAt(path: string, s: Schema, a: Value, b: Value, k: string, at: Address)
    requires Fits(s, a) && Fits(s, b)
  {
    IsLeaf(s, at) && KeyOf(path, s, at) == k && Read(s, a, at) != Read(s, b, at)
  }

  /** A key is reported exactly when some leaf known by it reads differently in the two configs. */
  lemma ReportedIff(path: string, s: Schema, a: Value, b: Value, k: string)
    requires Fits(s, a) && Fits(s, b)
    ensures Reported(path, s, a, b, k) <==> exists at: Address :: DiffersAt(path, s, a, b, k, at)
  {
    if Reported(path, s, a, b, k) {
      var at := Witness(path, s, a, b, k);
    }
    if at: Address :| DiffersAt(path, s, a, b, k, at) {
      WitnessReports(path, s, a, b, k, at);
    }
  }

  lemma {:induction false} Witness(path: string, s: Schema, a: Value, b: Value, k: string) returns (at: Address)
    requires Fits(s, a) && Fits(s, b) && Reported(path, s, a, b, k)
    ensures DiffersAt(path, s, a, b, k, at)
    decreases s
  {
    match s
    case Scalar(_) => at := [];
    case Strings => at := [];
    case Block(fs) =>
      var i :| 0 <= i < |fs| && Reported(JoinPath(path, fs[i].name), fs[i].schema, a.vals[i], b.vals[i], k);
      var rest := Witness(JoinPath(path, fs[i].name), fs[i].schema, a.vals[i], b.vals[i], k);
      at := [i] + rest;
      assert at[1..] == rest;
    case Pointer(t) => at := Witness(path, t, DerefOrZero(t, a), DerefOrZero(t, b), k);
    case Blocks(e) =>
      var i :| 0 <= i < Max(|a.items|, |b.items|) && Reported(path, e, ElemOrZero(e, a, i), ElemOrZero(e, b, i), k);
      var rest := Witness(path, e, ElemOrZero(e, a, i), ElemOrZero(e, b, i), k);
      at := [i] + rest;
      assert at[1..] == rest;
  }

  lemma {:induction false} WitnessReports(path: string, s: Schema, a: Value, b: Value, k: string, at: Address)
    requires Fits(s, a) && Fits(s, b) && DiffersAt(path, s, a, b, k, at)
    ensures Reported(path, s, a, b, k)
    decreases s
  {
    match s
    case Scalar(_) =>
    case Strings =>
    case Block(fs) =>
      var i := at[0];
      WitnessReports(JoinPath(path, fs[i].name), fs[i].schema, a.vals[i], b.vals[i], k, at[1..]);
    case Pointer(t) => WitnessReports(path, t, DerefOrZero(t, a), DerefOrZero(t, b), k, at);
    case Blocks(e) =>
      var i := at[0];
      WitnessReports(path, e, ElemOrZero(e, a, i), ElemOrZero(e, b, i), k, at[1..]);
  }

  // -------------------------------------------------------- how keys are spelled

  /** The field names met on the way to a leaf, outermost first. */
  function NamesOf(s: Schema, at: Address): seq<string>
    requires IsLeaf(s, at)
    decreases s
  {
    match s
    case Scalar(_) => []
    case Strings => []
    case Block(fs) => [fs[at[0]].name] + NamesOf(fs[at[0]].schema, at[1..])
    case Pointer(t) => NamesOf(t, at)
    case Blocks(e) => NamesOf(e, at[1..])
  }

  function Dotted(names: seq<string>): string {
    if names == [] then "" else if |names| == 1 then names[0] else names[0] + "." + Dotted(names[1..])
  }

  /** names from the first that is not empty on. */
  function Named(names: seq<string>): seq<string> {
    if names != [] && names[0] == "" then Named(names[1..]) else names
  }

  /** The pieces between the dots. */
  function Pieces(k: string): seq<string> {
    if '.' !in k then [k]
    else
      var i := FirstDot(k);
      [k[..i]] + Pieces(k[i + 1..])
  }

  function FirstDot(k: string): (i: nat)
    requires '.' in k
    ensures i < |k| && k[i] == '.' && '.' !in k[..i]
  {
    if k[0] == '.' then 0 else 1 + FirstDot(k[1..])
  }

  lemma {:induction false} FirstDotAfter(n: string, r: string)
    requires '.' !in n
    ensures var k := n + "." + r; '.' in k && FirstDot(k) == |n| && k[..|n|] == n && k[|n| + 1..] == r
  {
    var k := n + "." + r;
    assert k[|n|] == '.';
    if n != [] {
      assert n[0] in n;
      FirstDotAfter(n[1..], r);
      assert k[1..] == n[1..] + "." + r;
    }
  }

  /** Cutting a key at its dots gives the names back. */
  lemma {:induction false} DottedPieces(names: seq<string>)
    requires names != [] && forall n :: n in names ==> '.' !in n
    ensures Pieces(Dotted(names)) == names
  {
    assert names[0] in names && names == [names[0]] + names[1..];
    if |names| > 1 {
      FirstDotAfter(names[0], Dotted(names[1..]));
      DottedPieces(names[1..]);
    }
  }

  /** A leaf's key is its field names joined by dots; empty names in front do not show. */
  lemma KeyIsDotted(s: Schema, at: Address)
    requires IsLeaf(s, at)
    ensures KeyOf("", s, at) == Dotted(Named(NamesOf(s, at)))
  {
    KeyUnder("", s, at);
  }

  lemma {:induction false} KeyUnder(path: string, s: Schema, at: Address)
    requires IsLeaf(s, at)
    ensures KeyOf(path, s, at) ==
            if path == "" then Dotted(Named(NamesOf(s, at))) else Dotted([path] + NamesOf(s, at))
    decreases s
  {
    match s
    case Scalar(_) =>
    case Strings =>
    case Block(fs) =>
      var name, rest := fs[at[0]].name, NamesOf(fs[at[0]].schema, at[1..]);
      KeyUnder(JoinPath(path, name), fs[at[0]].schema, at[1..]);
      assert ([name] + rest)[1..] == rest;
      if path != "" {
        JoinedFirst(path, name, rest);
      }
    case Pointer(t) => KeyUnder(path, t, at);
    case Blocks(e) => KeyUnder(path, e, at[1..]);
  }

  lemma JoinedFirst(path: string, name: string, rest: seq<string>)
    ensures Dotted([path + "." + name] + rest) == Dotted([path] + ([name] + rest))
  {
    assert ([path + "." + name] + rest)[1..] == rest && ([name] + rest)[1..] == rest;
    assert ([path] + ([name] + rest))[1..] == [name] + rest;
    if rest == [] {
      assert Dotted([name] + rest) == name;
    } else {
      assert (path + "." + name) + "." + Dotted(rest) == path + "." + (name + "." + Dotted(rest));
    }
  }

  /** The config spells out every block on the way to the leaf. */
  predicate Spelled(s: Schema, v: Value, at: Address)
    requires Fits(s, v) && IsLeaf(s, at)
    decreases s
  {
    match s
    case Scalar(_) => true
    case Strings => true
    case Block(fs) => Spelled(fs[at[0]].schema, v.vals[at[0]], at[1..])
    case Pointer(t) => v.Ref? && Spelled(t, v.to, at)
    case Blocks(e) => at[0] < |v.items| && Spelled(e, v.items[at[0]], at[1..])
  }

  /** The leaf of a config that spells it out. */
  function Stored(s: Schema, v: Value, at: Address): Value
    requires Fits(s, v) && IsLeaf(s, at) && Spelled(s, v, at)
    decreases s
  {
    match s
    case Scalar(_) => v
    case Strings => v
    case Block(fs) => Stored(fs[at[0]].schema, v.vals[at[0]], at[1..])
    case Pointer(t) => Stored(t, v.to, at)
    case Blocks(e) => Stored(e, v.items[at[0]], at[1..])
  }

  /** The zero of the leaf's own type. */
  function Default(s: Schema, at: Address): Value
    requires IsLeaf(s, at)
    decreases s
  {
    match s
    case Scalar(z) => One(z)
    case Strings => Many([])
    case Block(fs) => Default(fs[at[0]].schema, at[1..])
    case Pointer(t) => Default(t, at)
    case Blocks(e) => Default(e, at[1..])
  }

  /** A leaf reads as it is stored, or as the zero of its type where a block is missing. */
  lemma {:induction false} ReadIs(s: Schema, v: Value, at: Address)
    requires Fits(s, v) && IsLeaf(s, at)
    ensures Read(s, v, at) == if Spelled(s, v, at) then Stored(s, v, at) else Default(s, at)
    decreases s
  {
    match s
    case Scalar(_) =>
    case Strings =>
    case Block(fs) => ReadIs(fs[at[0]].schema, v.vals[at[0]], at[1..]);
    case Pointer(t) =>
      ReadIs(t, DerefOrZero(t, v), at);
      ZeroReads(t, at);
    case Blocks(e) =>
      ReadIs(e, ElemOrZero(e, v, at[0]), at[1..]);
      ZeroReads(e, at[1..]);
  }

  lemma {:induction false} ZeroReads(s: Schema, at: Address)
    requires IsLeaf(s, at)
    ensures Spelled(s, Zero(s), at) ==> Stored(s, Zero(s), at) == Default(s, at)
    decreases s
  {
    match s
    case Scalar(_) =>
    case Strings =>
    case Block(fs) => ZeroReads(fs[at[0]].schema, at[1..]);
    case Pointer(t) =>
    case Blocks(e) =>
  }

  /** Two configs differ at a leaf spelled k: as stored, or as stored in one and missing from the other. */
  ghost predicate Changed(s: Schema, a: Value, b: Value, k: string, at: Address)
    requires Fits(s, a) && Fits(s, b)
  {
    && IsLeaf(s, at) && Dotted(Named(NamesOf(s, at))) == k
    && (if Spelled(s, a, at) then Stored(s, a, at) else Default(s, at)) !=
       (if Spelled(s, b, at) then Stored(s, b, at) else Default(s, at))
  }

  lemma ReportedIffChanged(s: Schema, a: Value, b: Value, k: string)
    requires Fits(s, a) && Fits(s, b)
    ensures Reported("", s, a, b, k) <==> exists at: Address :: Changed(s, a, b, k, at)
  {
    ReportedIff("", s, a, b, k);
    forall at: Address ensures DiffersAt("", s, a, b, k, at) <==> Changed(s, a, b, k, at) {
      if IsLeaf(s, at) {
        KeyIsDotted(s, at);
        ReadIs(s, a, at);
        ReadIs(s, b, at);
      }
    }
  }

  // ------------------------------------------------ when nothing is reported

  /** The config as the diff sees it: missing blocks filled in, trailing empty repeated blocks gone. */
  function Normal(s: Schema, v: Value): Value
    requires Fits(s, v)
    decreases s, 1
  {
    match s
    case Scalar(_) => v
    case Strings => v
    case Block(fs) => Struct(seq(|fs|, i requires 0 <= i < |fs| => Normal(fs[i].schema, v.vals[i])))
    case Pointer(t) => Ref(Normal(t, DerefOrZero(t, v)))
    case Blocks(e) => Items(Trim(NormalItems(e, v), Normal(e, Zero(e))))
  }

  function NormalItems(e: Schema, v: Value): (r: seq<Value>)
    requires Fits(Blocks(e), v)
    ensures |r| == |v.items| && forall i :: 0 <= i < |r| ==> r[i] == Normal(e, v.items[i])
    decreases e, 2
  {
    seq(|v.items|, i requires 0 <= i < |v.items| => Normal(e, v.items[i]))
  }

  /** xs without its trailing z's. */
  function Trim<T(==)>(xs: seq<T>, z: T): seq<T> {
    if xs != [] && xs[|xs| - 1] == z then Trim(xs[..|xs| - 1], z) else xs
  }

  function Pad<T>(xs: seq<T>, z: T, i: nat): T {
    if i < |xs| then xs[i] else z
  }

  lemma {:induction false} TrimPads<T(!new)>(xs: seq<T>, z: T)
    ensures forall i: nat :: Pad(Trim(xs, z), z, i) == Pad(xs, z, i)
    ensures Trim(xs, z) != [] ==> Trim(xs, z)[|Trim(xs, z)| - 1] != z
  {
    if xs != [] && xs[|xs| - 1] == z {
      TrimPads(xs[..|xs| - 1], z);
      forall i: nat ensures Pad(Trim(xs, z), z, i) == Pad(xs, z, i) {
        assert Pad(xs[..|xs| - 1], z, i) == Pad(xs, z, i);
      }
    }
  }

  ghost predicate SamePadded<T(!new)>(xs: seq<T>, ys: seq<T>, z: T) {
    forall i: nat :: Pad(xs, z, i) == Pad(ys, z, i)
  }

  lemma PaddedEqual<T(!new)>(p: seq<T>, q: seq<T>, z: T)
    requires SamePadded(p, q, z)
    requires p != [] ==> p[|p| - 1] != z
    requires q != [] ==> q[|q| - 1] != z
    ensures p == q
  {
    assert |p| > 0 ==> Pad(p, z, |p| - 1) == Pad(q, z, |p| - 1);
    assert |q| > 0 ==> Pad(p, z, |q| - 1) == Pad(q, z, |q| - 1);
    forall i: nat | i < |p| && i < |q| ensures p[i] == q[i] {
      assert Pad(p, z, i) == Pad(q, z, i);
    }
  }

  /** Trimmed lists are equal exactly when the padded ones are. */
  lemma TrimEqualIff<T(!new)>(xs: seq<T>, ys: seq<T>, z: T)
    ensures Trim(xs, z) == Trim(ys, z) <==> SamePadded(xs, ys, z)
  {
    TrimPads(xs, z);
    TrimPads(ys, z);
    if SamePadded(xs, ys, z) {
      forall i: nat ensures Pad(Trim(xs, z), z, i) == Pad(Trim(ys, z), z, i) {
        assert Pad(xs, z, i) == Pad(ys, z, i);
      }
      PaddedEqual(Trim(xs, z), Trim(ys, z), z);
    } else {
      var i: nat :| Pad(xs, z, i) != Pad(ys, z, i);
      assert Pad(Trim(xs, z), z, i) != Pad(Trim(ys, z), z, i);
    }
  }

  ghost predicate Quiet(path: string, s: Schema, a: Value, b: Value)
    requires Fits(s, a) && Fits(s, b)
  {
    forall k :: !Reported(path, s, a, b, k)
  }

  /**
    Nothing is reported exactly when the two configs agree after filling in
    missing blocks and dropping trailing empty repeated ones.
  */
  lemma {:induction false} QuietIff(path: string, s: Schema, a: Value, b: Value)
    requires Fits(s, a) && Fits(s, b)
    ensures Quiet(path, s, a, b) <==> Normal(s, a) == Normal(s, b)
    decreases s
  {
    match s
    case Scalar(_) => assert a != b ==> Reported(path, s, a, b, path);
    case Strings => assert a != b ==> Reported(path, s, a, b, path);
    case Block(fs) => QuietFields(path, fs, a, b);
    case Pointer(t) =>
      QuietIff(path, t, DerefOrZero(t, a), DerefOrZero(t, b));
      assert Quiet(path, s, a, b) <==> Quiet(path, t, DerefOrZero(t, a), DerefOrZero(t, b)) by {
        assert forall k :: Reported(path, s, a, b, k) == Reported(path, t, DerefOrZero(t, a), DerefOrZero(t, b), k);
      }
    case Blocks(e) => QuietItems(path, e, a, b);
  }

  lemma QuietFields(path: string, fs: seq<Field>, a: Value, b: Value)
    requires Fits(Block(fs), a) && Fits(Block(fs), b)
    ensures Quiet(path, Block(fs), a, b) <==> Normal(Block(fs), a) == Normal(Block(fs), b)
    decreases Block(fs), 0
  {
    var s := Block(fs);
    forall i | 0 <= i < |fs|
      ensures Quiet(JoinPath(path, fs[i].name), fs[i].schema, a.vals[i], b.vals[i]) <==> Normal(s, a).vals[i] == Normal(s, b).vals[i]
    {
      QuietIff(JoinPath(path, fs[i].name), fs[i].schema, a.vals[i], b.vals[i]);
    }
    QuietBlock(path, fs, a, b);
    assert Normal(s, a) == Normal(s, b) <==> forall i :: 0 <= i < |fs| ==> Normal(s, a).vals[i] == Normal(s, b).vals[i];
  }

  lemma QuietItems(path: string, e: Schema, a: Value, b: Value)
    requires Fits(Blocks(e), a) && Fits(Blocks(e), b)
    ensures Quiet(path, Blocks(e), a, b) <==> Normal(Blocks(e), a) == Normal(Blocks(e), b)
    decreases Blocks(e), 0
  {
    var s, z := Blocks(e), Normal(e, Zero(e));
    var xs, ys := NormalItems(e, a), NormalItems(e, b);
    TrimEqualIff(xs, ys, z);
    forall i: nat | i < Max(|xs|, |ys|)
      ensures Quiet(path, e, ElemOrZero(e, a, i), ElemOrZero(e, b, i)) <==> Pad(xs, z, i) == Pad(ys, z, i)
    {
      QuietIff(path, e, ElemOrZero(e, a, i), ElemOrZero(e, b, i));
    }
    QuietBlocks(path, e, a, b);
  }

  /** A block is quiet when each of its fields is. */
  lemma QuietBlock(path: string, fs: seq<Field>, a: Value, b: Value)
    requires Fits(Block(fs), a) && Fits(Block(fs), b)
    ensures Quiet(path, Block(fs), a, b) <==>
            forall i :: 0 <= i < |fs| ==> Quiet(JoinPath(path, fs[i].name), fs[i].schema, a.vals[i], b.vals[i])
  {
    if Quiet(path, Block(fs), a, b) {
      forall i, k | 0 <= i < |fs| ensures !Reported(JoinPath(path, fs[i].name), fs[i].schema, a.vals[i], b.vals[i], k) {
        assert !Reported(path, Block(fs), a, b, k);
      }
    } else {
      var k :| Reported(path, Block(fs), a, b, k);
      var i :| 0 <= i < |fs| && Reported(JoinPath(path, fs[i].name), fs[i].schema, a.vals[i], b.vals[i], k);
      assert !Quiet(JoinPath(path, fs[i].name), fs[i].schema, a.vals[i], b.vals[i]);
    }
  }

  lemma QuietBlocks(path: string, e: Schema, a: Value, b: Value)
    requires Fits(Blocks(e), a) && Fits(Blocks(e), b)
    ensures Quiet(path, Blocks(e), a, b) <==>
            forall i: nat :: i < Max(|a.items|, |b.items|) ==> Quiet(path, e, ElemOrZero(e, a, i), ElemOrZero(e, b, i))
  {
    if Quiet(path, Blocks(e), a, b) {
      forall i: nat, k | i < Max(|a.items|, |b.items|) ensures !Reported(path, e, ElemOrZero(e, a, i), ElemOrZero(e, b, i), k) {
        assert !Reported(path, Blocks(e), a, b, k);
      }
    } else {
      var k :| Reported(path, Blocks(e), a, b, k);
      var i: nat :| i < Max(|a.items|, |b.items|) && Reported(path, e, ElemOrZero(e, a, i), ElemOrZero(e, b, i), k);
      assert !Quiet(path, e, ElemOrZero(e, a, i), ElemOrZero(e, b, i));
    }
  }

  /** So an empty block added at the end of a repeated list is a change nobody is told of. */
  lemma EmptyBlockUnseen(path: string, e: Schema, v: Value)
    requires Fits(Blocks(e), v)
    ensures var w := Items(v.items + [Zero(e)]);
            w != v && Fits(Blocks(e), w) && Quiet(path, Blocks(e), v, w)
  {
    var w := Items(v.items + [Zero(e)]);
    forall k ensures !Reported(path, Blocks(e), v, w, k) {
      forall i | 0 <= i < Max(|v.items|, |w.items|) ensures !Reported(path, e, ElemOrZero(e, v, i), ElemOrZero(e, w, i), k) {
        assert ElemOrZero(e, v, i) == ElemOrZero(e, w, i);
        SameIsQuiet(path, e, ElemOrZero(e, v, i), k);
      }
    }
  }

  // ------------------------------------------------------------ the classes

  datatype Class = Hot | Restart | NoOp

  datatype KeyClass = KeyClass(kind: Class, secret: bool)

  datatype KeyChange = KeyChange(key: string, secret: bool)

  /** A key missing from the table needs a restart and is a secret. */
  function ClassOf(table: map<string, KeyClass>, k: string): KeyClass {
    if k in table then table[k] else KeyClass(Restart, true)
  }

  function Codes(s: string): (r: seq<int>)
    ensures |r| == |s| && forall i :: 0 <= i < |s| ==> r[i] == s[i] as int
  {
    seq(|s|, i requires 0 <= i < |s| => s[i] as int)
  }

  /** strings.Compare(a, b) < 0 */
  predicate Before(a: string, b: string) {
    Less(Codes(a), Codes(b))
  }

  /** a runs out first, or has the smaller character where the two first differ. */
  lemma BeforeIff(a: string, b: string)
    ensures Before(a, b) <==> exists i: nat :: DecidedAt(Codes(a), Codes(b), i)
  {
    LessIff(Codes(a), Codes(b));
  }

  lemma BeforeIsOrder(a: string, b: string, c: string)
    ensures !Before(a, a)
    ensures Before(a, b) && Before(b, c) ==> Before(a, c)
    ensures a == b || Before(a, b) || Before(b, a)
  {
    LessTotal(Codes(a), Codes(b));
    LessTotal(Codes(a), Codes(a));
    if Before(a, b) && Before(b, c) {
      LessTransitive(Codes(a), Codes(b), Codes(c));
    }
    if Codes(a) == Codes(b) {
      assert forall i :: 0 <= i < |a| ==> a[i] as int == b[i] as int;
    }
  }

  ghost predicate Sorted(l: seq<KeyChange>) {
    forall i, j :: 0 <= i < j < |l| ==> Before(l[i].key, l[j].key)
  }

  /** l lists, sorted, the keys in ks of class c. */
  ghost predicate Lists(l: seq<KeyChange>, ks: set<string>, table: map<string, KeyClass>, c: Class) {
    && Sorted(l)
    && (forall x :: x in l ==> x.key in ks && ClassOf(table, x.key) == KeyClass(c, x.secret))
    && (forall k :: k in ks && ClassOf(table, k).kind == c ==> KeyChange(k, ClassOf(table, k).secret) in l)
  }

  /** One list answers: the map's iteration order does not show. */
  lemma {:induction false} ListsUnique(l: seq<KeyChange>, m: seq<KeyChange>, ks: set<string>, table: map<string,
                                    KeyClass>, c: Class)
    requires Lists(l, ks, table, c) && Lists(m, ks, table, c)
    ensures l == m
  {
    forall x ensures x in l <==> x in m {
    }
    SortedUnique(l, m);
  }

  lemma {:induction false} SortedUnique(l: seq<KeyChange>, m: seq<KeyChange>)
    requires Sorted(l) && Sorted(m) && forall x :: x in l <==> x in m
    ensures l == m
  {
    HasMember(l);
    HasMember(m);
    if l != [] && m != [] {
      assert l[0] in m && m[0] in l;
      var i :| 0 <= i < |m| && m[i] == l[0];
      var j :| 0 <= j < |l| && l[j] == m[0];
      BeforeIsOrder(l[0].key, m[0].key, l[0].key);
      assert l[0] == m[0];
      forall x ensures x in l[1..] <==> x in m[1..] {
        BeforeIsOrder(l[0].key, l[0].key, l[0].key);
        assert x in l <==> x == l[0] || x in l[1..];
        assert x in m <==> x == m[0] || x in m[1..];
      }
      SortedUnique(l[1..], m[1..]);
    }
  }

  lemma HasMember(l: seq<KeyChange>)
    ensures l != [] ==> exists x :: x in l
  {
    if l != [] {
      assert l[0] in l;
    }
  }

  /** A key put in its place. */
  method Insert(l: seq<KeyChange>, x: KeyChange) returns (r: seq<KeyChange>)
    requires Sorted(l) && forall y :: y in l ==> y.key != x.key
    ensures Sorted(r) && forall y :: y in r <==> y in l || y == x
  {
    var i := 0;
    while i < |l| && Before(l[i].key, x.key)
      invariant i <= |l| && forall j :: 0 <= j < i ==> Before(l[j].key, x.key)
    {
      i := i + 1;
    }
    r := l[..i] + [x] + l[i..];
    assert i < |l| ==> l[i] in l;
    Placed(l, x, i);
  }

  lemma Placed(l: seq<KeyChange>, x: KeyChange, i: nat)
    requires Sorted(l) && i <= |l| && forall j :: 0 <= j < i ==> Before(l[j].key, x.key)
    requires i < |l| ==> !Before(l[i].key, x.key) && l[i].key != x.key
    ensures var r := l[..i] + [x] + l[i..]; Sorted(r) && forall y :: y in r <==> y in l || y == x
  {
    var r := l[..i] + [x] + l[i..];
    forall j | i <= j < |l| ensures Before(x.key, l[j].key) {
      BeforeIsOrder(l[i].key, x.key, x.key);
      BeforeIsOrder(x.key, l[i].key, l[j].key);
    }
    forall j, k | 0 <= j < k < |r| ensures Before(r[j].key, r[k].key) {
      assert j < i && k > i ==> Before(l[j].key, l[k - 1].key);
    }
    assert l == l[..i] + l[i..];
  }

  /** The keys split by class, each list sorted. */
  method Classify(ks: set<string>, table: map<string, KeyClass>)
    returns (hot: seq<KeyChange>, restart: seq<KeyChange>, noop: seq<KeyChange>)
    ensures Lists(hot, ks, table, Hot)
    ensures Lists(restart, ks, table, Restart)
    ensures Lists(noop, ks, table, NoOp)
  {
    hot, restart, noop := [], [], [];
    var todo := ks;
    while todo != {}
      invariant todo <= ks
      invariant Lists(hot, ks - todo, table, Hot) && Lists(restart, ks - todo, table, Restart) && Lists(noop, ks - todo, table, NoOp)
      decreases |todo|
    {
      var k :| k in todo;
      var x := KeyChange(k, ClassOf(table, k).secret);
      assert forall y :: y in hot || y in restart || y in noop ==> y.key != k;
      match ClassOf(table, k).kind {
        case Hot => hot := Insert(hot, x);
        case Restart => restart := Insert(restart, x);
        case NoOp => noop := Insert(noop, x);
      }
      todo := todo - {k};
    }
    assert ks - todo == ks;
  }

  /** Diff of two configs of one schema. */
  method Diff(s: Schema, a: Value, b: Value, table: map<string, KeyClass>)
    returns (hot: seq<KeyChange>, restart: seq<KeyChange>, noop: seq<KeyChange>, changed: set<string>)
    requires Fits(s, a) && Fits(s, b)
    ensures forall k :: k in changed <==> Reported("", s, a, b, k)
    ensures forall k :: k in changed <==> exists at: Address :: Changed(s, a, b, k, at)
    ensures Lists(hot, changed, table, Hot)
    ensures Lists(restart, changed, table, Restart)
    ensures Lists(noop, changed, table, NoOp)
    ensures forall k :: k in changed ==>
              if k !in table then KeyChange(k, true) in restart
              else KeyChange(k, table[k].secret) in
                   match table[k].kind case Hot => hot case Restart => restart case NoOp => noop
  {
    var out := new Changes();
    out.DiffValue("", s, a, b);
    changed := out.keys;
    forall k ensures Reported("", s, a, b, k) <==> exists at: Address :: Changed(s, a, b, k, at) {
      ReportedIffChanged(s, a, b, k);
    }
    hot, restart, noop := Classify(changed, table);
  }
}
