/** Runs of the growing table that pass through files. */
module KvRuns {
  import opened Bits
  import opened Wrappers
  import opened KvModel
  import opened KvFormat
  import opened KvRoundTrip

  /** An operation on the table, or writing it to a file and going on with the table loaded from
      it, which is done only to a table that survives that. */
  datatype FileOp = TableOp(op: Op) | SaveAndLoad

  ghost function Step(t: Kv, op: FileOp): (Option<Kv>, Answer)
    requires KvInv(t)
  {
    match op
    case TableOp(op) => KvModel.Step(t, op)
    case SaveAndLoad => (Some(if Savable(t) then Reload(t) else t), Done)
  }

  function MapStep(m: map<Key, Value>, op: FileOp): (map<Key, Value>, Answer) {
    match op
    case TableOp(op) => KvModel.MapStep(m, op)
    case SaveAndLoad => (m, Done)
  }

  lemma StepRefines(t: Kv, m: map<Key, Value>, op: FileOp)
    requires KvInv(t) && Means(t.pairs, m)
    ensures var (u, a) := Step(t, op);
      && (u.None? <==> op.TableOp? && op.op.InsertOp? && Insert(t, op.op.key, op.op.val).Destroyed?)
      && (u.Some? ==> KvInv(u.value) && Means(u.value.pairs, MapStep(m, op).0) && a == MapStep(m, op).1)
      && (op.SaveAndLoad? && Savable(t) ==> Loaded(u.value) && u.value.pairs == CutPairs(t.pairs))
  {
    hide KvInv, Means, Savable, KvModel.Step, KvModel.MapStep, IndexOf, Insert, Loaded;
    match op {
      case TableOp(op) => KvModel.StepRefines(t, m, op);
      case SaveAndLoad => if Savable(t) { ReloadMeans(t, m); }
    }
  }

  lemma StepInv(t: Kv, op: FileOp)
    requires KvInv(t)
    ensures Step(t, op).0.Some? ==> KvInv(Step(t, op).0.value)
  {
    MeaningIsMap(t.pairs);
    StepRefines(t, Meaning(t.pairs), op);
  }

  /** The answers of a run, and the table at its end unless an insertion lost it. */
  ghost function Run(t: Kv, ops: seq<FileOp>): (seq<Answer>, Option<Kv>)
    requires KvInv(t)
    decreases |ops|
  {
    hide *;
    if ops == [] then ([], Some(t))
    else
      StepInv(t, ops[0]);
      var (u, a) := Step(t, ops[0]);
      if u.None? then ([], None)
      else
        var (rest, end) := Run(u.value, ops[1..]);
        ([a] + rest, end)
  }

  function MapRun(m: map<Key, Value>, ops: seq<FileOp>): (seq<Answer>, map<Key, Value>)
    decreases |ops|
  {
    if ops == [] then ([], m)
    else
      var (m', a) := MapStep(m, ops[0]);
      var (rest, end) := MapRun(m', ops[1..]);
      ([a] + rest, end)
  }

  /** A run ends early exactly at the first insertion that destroys the table, after an answer to
      each operation before it. */
  lemma {:induction false} RunEnds(t: Kv, ops: seq<FileOp>)
    requires KvInv(t)
    ensures Run(t, ops).1.Some? ==> |Run(t, ops).0| == |ops|
    ensures Run(t, ops).1.None? ==>
      var k := |Run(t, ops).0|;
      && k < |ops| && ops[k].TableOp? && ops[k].op.InsertOp? && Run(t, ops[..k]).1.Some?
      && var u := Run(t, ops[..k]).1.value;
         KvInv(u) && Insert(u, ops[k].op.key, ops[k].op.val).Destroyed?
    decreases |ops|
  {
    hide Step, KvInv, Means, MapStep, Insert;
    if ops != [] {
      MeaningIsDefined(t);
      StepRefines(t, Meaning(t.pairs), ops[0]);
      var u := Step(t, ops[0]).0;
      assert ops[..0] == [];
      if u.Some? {
        RunEnds(u.value, ops[1..]);
        var k := |Run(u.value, ops[1..]).0|;
        if k < |ops[1..]| {
          assert ops[..k + 1][1..] == ops[1..][..k] && ops[..k + 1][0] == ops[0];
        }
      }
    }
  }

  /** Over every run of insertions, removals, lookups, compactions and passages through a file, the
      answers are those of a finite map that no file ever touches, for as long as the handle
      lasts; and the table at the end is that map. */
  lemma {:induction false} RunRefinesMap(t: Kv, m: map<Key, Value>, ops: seq<FileOp>)
    requires KvInv(t) && Means(t.pairs, m)
    ensures Run(t, ops).0 <= MapRun(m, ops).0
    ensures Run(t, ops).1.Some? ==>
      var u := Run(t, ops).1.value;
      Run(t, ops).0 == MapRun(m, ops).0 && KvInv(u) && Means(u.pairs, MapRun(m, ops).1)
    decreases |ops|
  {
    hide Step, KvInv, Means, MapStep;
    if ops != [] {
      StepRefines(t, m, ops[0]);
      var u := Step(t, ops[0]).0;
      if u.Some? {
        RunRefinesMap(u.value, MapStep(m, ops[0]).0, ops[1..]);
      }
    }
  }
}
