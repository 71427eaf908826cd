/**
  Where the config has its five hot keys: the blocks and field names of the
  file, down to the leaves, meet what a reload asks of a schema.
*/
module HotPlaces {

  import opened Wrappers
  import opened ConfigDiff
  import opened Reload

  /** The blocks that hold the hot keys. */
  function Nested(): Schema {
    Block([
      Field("telemetry", Block([Field("log", Block([Field("level", Scalar(Text("")))]))])),
      Field("antispam", Block([Field("builtin", Builtin())])),
      Field("smtp", Block([Field("trusted_networks", Strings)])),
      Field("antivirus", Block([Field("clamav", Block([Field("on_failure", Scalar(Text("")))]))]))])
  }

  function Builtin(): Schema {
    Block([Field("threshold", Scalar(Number(0.0))), Field("high_threshold", Scalar(Number(0.0)))])
  }

  function Where(h: HotKey): Address {
    match h
    case LogLevel => [0, 0, 0]
    case Threshold => [1, 0, 0]
    case HighThreshold => [1, 0, 1]
    case Networks => [2, 0]
    case OnFailure => [3, 0, 0]
  }

  function KeyAt(a: Address): HotKey {
    if a == [0, 0, 0] then LogLevel
    else if a == [1, 0, 0] then Threshold
    else if a == [1, 0, 1] then HighThreshold
    else if a == [2, 0] then Networks
    else OnFailure
  }

  /** The hypotheses can be met: by the five keys in the blocks the config has them in. */
  lemma WfIsMet() returns (e: Env)
    ensures Wf(e) && e.schema == Nested()
  {
    var names := set h: HotKey | true :: Name(h);
    var table := map k | k in names :: KeyClass(Hot, false);
    e := Env(Nested(), table, Where, _ => None, x => x, _ => true, v => v);
    forall h: HotKey ensures HotAt(e, h) && Name(h) in names {
      AllInPlace(h);
      forall a: Address | IsLeaf(Nested(), a) ensures KeyOf("", Nested(), a) == Name(h) <==> a == Where(h) {
        LeafIsWhere(a);
        AllInPlace(KeyAt(a));
        NamesApart(KeyAt(a), h);
      }
    }
  }

  /** h is the key of its place in the blocks. */
  ghost predicate InPlace(h: HotKey) {
    IsLeaf(Nested(), Where(h)) && Direct(Nested(), Where(h)) && KeyOf("", Nested(), Where(h)) == Name(h)
  }

  lemma LogLevelInPlace()
    ensures InPlace(LogLevel)
  {
    ThreeDeep(Nested().fields, 0, 0, 0);
  }

  lemma ThresholdInPlace()
    ensures InPlace(Threshold)
  {
    ThreeDeep(Nested().fields, 1, 0, 0);
  }

  lemma HighThresholdInPlace()
    ensures InPlace(HighThreshold)
  {
    ThreeDeep(Nested().fields, 1, 0, 1);
  }

  lemma NetworksInPlace()
    ensures InPlace(Networks)
  {
    TwoDeep(Nested().fields, 2, 0);
  }

  lemma OnFailureInPlace()
    ensures InPlace(OnFailure)
  {
    ThreeDeep(Nested().fields, 3, 0, 0);
  }

  lemma AllInPlace(h: HotKey)
    ensures InPlace(h)
  {
    LogLevelInPlace();
    ThresholdInPlace();
    HighThresholdInPlace();
    NetworksInPlace();
    OnFailureInPlace();
  }

  lemma TwoDeep(fs: seq<Field>, i: nat, j: nat)
    requires i < |fs| && fs[i].name != "" && fs[i].schema.Block? && j < |fs[i].schema.fields|
    requires var s := fs[i].schema.fields[j].schema; s.Scalar? || s.Strings?
    ensures IsLeaf(Block(fs), [i, j]) && Direct(Block(fs), [i, j])
    ensures KeyOf("", Block(fs), [i, j]) == fs[i].name + "." + fs[i].schema.fields[j].name
  {
    assert [i, j][1..] == [j];
    Enter("", fs, [i, j]);
    OneDeep(fs[i].name, fs[i].schema.fields, j);
  }

  lemma OneDeep(path: string, fs: seq<Field>, i: nat)
    requires path != "" && i < |fs| && (fs[i].schema.Scalar? || fs[i].schema.Strings?)
    ensures IsLeaf(Block(fs), [i]) && Direct(Block(fs), [i]) && KeyOf(path, Block(fs), [i]) == path + "." + fs[i].name
  {
    assert [i][1..] == [];
    Enter(path, fs, [i]);
  }

  lemma ThreeDeep(fs: seq<Field>, i: nat, j: nat, k: nat)
    requires i < |fs| && fs[i].name != "" && fs[i].schema.Block? && j < |fs[i].schema.fields|
    requires var f := fs[i].schema.fields[j]; f.schema.Block? && k < |f.schema.fields|
    requires var s := fs[i].schema.fields[j].schema.fields[k].schema; s.Scalar? || s.Strings?
    ensures IsLeaf(Block(fs), [i, j, k]) && Direct(Block(fs), [i, j, k])
    ensures var f := fs[i].schema.fields[j];
            KeyOf("", Block(fs), [i, j, k]) == fs[i].name + "." + f.name + "." + f.schema.fields[k].name
  {
    assert [i, j, k][1..] == [j, k] && [j, k][1..] == [k];
    Enter("", fs, [i, j, k]);
    Enter(fs[i].name, fs[i].schema.fields, [j, k]);
    OneDeep(fs[i].name + "." + fs[i].schema.fields[j].name, fs[i].schema.fields[j].schema.fields, k);
  }

  lemma Enter(path: string, fs: seq<Field>, at: Address)
    requires at != [] && at[0] < |fs|
    ensures IsLeaf(Block(fs), at) <==> IsLeaf(fs[at[0]].schema, at[1..])
    ensures Direct(Block(fs), at) <==> Direct(fs[at[0]].schema, at[1..])
    ensures IsLeaf(Block(fs), at) ==>
              KeyOf(path, Block(fs), at) == KeyOf(JoinPath(path, fs[at[0]].name), fs[at[0]].schema, at[1..])
  {
  }

  lemma LeafIsWhere(a: Address)
    requires IsLeaf(Nested(), a)
    ensures a == Where(KeyAt(a))
  {
    var top := Nested().fields[a[0]];
    Enter("", Nested().fields, a);
    Enter("", top.schema.fields, a[1..]);
    if a[0] == 2 {
      assert a[1..][1..] == [] && a == [2, 0];
    } else {
      var mid := top.schema.fields[0];
      Enter("", mid.schema.fields, a[1..][1..]);
      assert a[1..][1..][1..] == [];
      assert a == [a[0], a[1], a[2]];
    }
  }
}
