/** Many calls of AddSCIDToIndex at once, on one store. Each call is a thread that performs its
    transactions one by one; a schedule says whose turn it is. The `Writing` flag is checked and
    set in two separate steps and reset by every call, so it orders nothing: any schedule is
    possible. A prefix of a schedule is also what a crash leaves behind. */
module Interleaving {
  import opened Wrappers
  import opened Decimal
  import opened Records
  import opened FlatStore
  import opened TypedIndex

  /** Where a call stands between its transactions. */
  datatype Pc =
    | AtVars
    | AtRecord
    | AtRead
    | AtWrite(read: Option<seq<Int64>>)
    | Finished

  datatype Sys = Sys(db: DB, pcs: seq<Pc>)

  /** A stage the writer survives: the classifier only queues contract ids, and a Txid shorter than
      three characters would panic. */
  predicate Accepted(stage: Stage) {
    IsScid(stage.tx.scid) && (stage.tx.kind == "invoke" ==> |stage.tx.txid| >= 3)
  }

  predicate AllAccepted(stages: seq<Stage>) {
    forall i | 0 <= i < |stages| :: Accepted(stages[i])
  }

  /** One transaction of a call: the new store and where the call stands afterwards. */
  function StepOf(stage: Stage, db: DB, pc: Pc): (DB, Pc)
    requires Accepted(stage)
  {
    var tx := stage.tx;
    match pc
    case AtVars =>
      (PutVars(db, tx.scid, stage.scVars, tx.height),
       if tx.kind == "install" || tx.kind == "invoke" then AtRecord else Finished)
    case AtRecord =>
      if tx.kind == "install" then (PutOwner(db, tx.scid, OwnerOf(stage)), Finished)
      else if tx.kind == "invoke" then (PutInvoke(db, tx.scid, tx.sender, tx.entrypoint, tx.height, tx), AtRead)
      else (db, Finished)
    case AtRead => (db, AtWrite(ReadHeights(db, tx.scid)))
    case AtWrite(read) => (CommitHeights(db, tx.scid, read, tx.height), Finished)
    case Finished => (db, Finished)
  }

  /** Only installs and invocations have a record to write, only invocations a height. */
  predicate PcOk(stage: Stage, pc: Pc) {
    match pc
    case AtRecord => stage.tx.kind == "install" || stage.tx.kind == "invoke"
    case AtRead => stage.tx.kind == "invoke"
    case AtWrite(_) => stage.tx.kind == "invoke"
    case _ => true
  }

  function Step(stages: seq<Stage>, sys: Sys, i: nat): (r: Sys)
    requires AllAccepted(stages) && |sys.pcs| == |stages|
    ensures |r.pcs| == |stages|
  {
    if i >= |stages| then sys
    else
      var (db, pc) := StepOf(stages[i], sys.db, sys.pcs[i]);
      Sys(db, sys.pcs[i := pc])
  }

  function Run(stages: seq<Stage>, sys: Sys, schedule: seq<nat>): (r: Sys)
    requires AllAccepted(stages) && |sys.pcs| == |stages|
    ensures |r.pcs| == |stages|
  {
    if schedule == [] then sys
    else Step(stages, Run(stages, sys, schedule[..|schedule| - 1]), schedule[|schedule| - 1])
  }

  function Start(db: DB, stages: seq<Stage>): (r: Sys)
    ensures |r.pcs| == |stages|
  {
    Sys(db, seq(|stages|, _ => AtVars))
  }

  predicate Complete(sys: Sys) {
    forall i | 0 <= i < |sys.pcs| :: sys.pcs[i] == Finished
  }

  // ---- What a call has written so far, outside the height lists ----

  function Get(db: DB, bucket: string, key: string): Option<Value> {
    if key in BucketOf(db, bucket) then Some(BucketOf(db, bucket)[key]) else None
  }

  /** A call for this stage, standing at pc, has put v under this key of this bucket. */
  ghost predicate Wrote(stage: Stage, pc: Pc, bucket: string, key: string, v: Value)
    requires Accepted(stage)
  {
    || WroteVars(stage, pc, bucket, key, v)
    || WroteOwner(stage, pc, bucket, key, v)
    || WroteInvoke(stage, pc, bucket, key, v)
  }

  predicate WroteVars(stage: Stage, pc: Pc, bucket: string, key: string, v: Value) {
    pc != AtVars &&
    bucket == VarsBucket(stage.tx.scid) && key == FormatInt(stage.tx.height) && v == VarsJson(stage.scVars)
  }

  ghost predicate WroteOwner(stage: Stage, pc: Pc, bucket: string, key: string, v: Value) {
    stage.tx.kind == "install" && pc == Finished && key == stage.tx.scid &&
    exists f :: bucket == FieldName(f) && v == Bytes(FieldText(OwnerOf(stage), f))
  }

  predicate WroteInvoke(stage: Stage, pc: Pc, bucket: string, key: string, v: Value)
    requires Accepted(stage)
  {
    var tx := stage.tx;
    tx.kind == "invoke" && pc != AtVars && pc != AtRecord &&
    bucket == tx.scid && key == InvokeKey(tx.sender, tx.txid, tx.height, tx.entrypoint) && v == InvokeJson(tx)
  }

  /** Stages that agree wherever they write the same thing: same contract and height, same
      variables; same contract installed, same owner record; same invocation key, same record. */
  ghost predicate ConflictFree(stages: seq<Stage>)
    requires AllAccepted(stages)
  {
    forall i, j | 0 <= i < |stages| && 0 <= j < |stages| :: Agree(stages[i], stages[j])
  }

  ghost predicate Agree(p: Stage, q: Stage)
    requires Accepted(p) && Accepted(q)
  {
    p.tx.scid == q.tx.scid ==>
      (p.tx.height == q.tx.height ==> p.scVars == q.scVars) &&
      (p.tx.kind == q.tx.kind == "install" ==> OwnerOf(p) == OwnerOf(q)) &&
      (p.tx.kind == q.tx.kind == "invoke" && KeyOfInvoke(p.tx) == KeyOfInvoke(q.tx) ==> p.tx == q.tx)
  }

  function KeyOfInvoke(tx: SCTXParse): string
    requires |tx.txid| >= 3
  {
    InvokeKey(tx.sender, tx.txid, tx.height, tx.entrypoint)
  }

  ghost predicate IsHeightsBucket(bucket: string) {
    exists scid :: IsScid(scid) && bucket == HeightsBucket(scid)
  }

  /** Agreeing stages never put two values under one key. */
  lemma AgreeingWrites(p: Stage, q: Stage, pc: Pc, pc': Pc, bucket: string, key: string, v: Value, w: Value)
    requires Accepted(p) && Accepted(q) && Agree(p, q)
    requires Wrote(p, pc, bucket, key, v) && Wrote(q, pc', bucket, key, w)
    ensures v == w
  {
    hide FormatInt, InvokeKey, FieldText, FieldName, WroteVars, WroteOwner, WroteInvoke;
    BucketLength(p, pc, bucket, key, v);
    BucketLength(q, pc', bucket, key, w);
    if |bucket| == 68 {
      AgreeingVars(p, q, pc, pc', bucket, key, v, w);
    } else if |bucket| < 64 {
      AgreeingOwners(p, q, pc, pc', bucket, key, v, w);
    } else {
      AgreeingInvokes(p, q, pc, pc', bucket, key, v, w);
    }
  }

  /** The three kinds of buckets have names of different lengths. */
  lemma BucketLength(p: Stage, pc: Pc, bucket: string, key: string, v: Value)
    requires Accepted(p)
    ensures WroteVars(p, pc, bucket, key, v) ==> |bucket| == 68
    ensures WroteOwner(p, pc, bucket, key, v) ==> |bucket| < 64
    ensures WroteInvoke(p, pc, bucket, key, v) ==> |bucket| == 64
  {
  }

  lemma AgreeingVars(p: Stage, q: Stage, pc: Pc, pc': Pc, bucket: string, key: string, v: Value, w: Value)
    requires Accepted(p) && Accepted(q) && Agree(p, q)
    requires WroteVars(p, pc, bucket, key, v) && WroteVars(q, pc', bucket, key, w)
    ensures v == w
  {
    hide FormatInt;
    NamesDistinct(p.tx.scid, q.tx.scid);
    FormatInjectiveIf(p.tx.height, q.tx.height);
  }

  lemma AgreeingOwners(p: Stage, q: Stage, pc: Pc, pc': Pc, bucket: string, key: string, v: Value, w: Value)
    requires Accepted(p) && Accepted(q) && Agree(p, q)
    requires WroteOwner(p, pc, bucket, key, v) && WroteOwner(q, pc', bucket, key, w)
    ensures v == w
  {
    hide FieldText, FieldName;
    var f :| bucket == FieldName(f) && v == Bytes(FieldText(OwnerOf(p), f));
    var g :| bucket == FieldName(g) && w == Bytes(FieldText(OwnerOf(q), g));
    FieldNamesDistinct(f, g);
  }

  lemma AgreeingInvokes(p: Stage, q: Stage, pc: Pc, pc': Pc, bucket: string, key: string, v: Value, w: Value)
    requires Accepted(p) && Accepted(q) && Agree(p, q)
    requires WroteInvoke(p, pc, bucket, key, v) && WroteInvoke(q, pc', bucket, key, w)
    ensures v == w
  {
    hide InvokeKey;
  }

  lemma FormatInjectiveIf(m: Int64, n: Int64)
    ensures FormatInt(m) == FormatInt(n) ==> m == n
  {
    if FormatInt(m) == FormatInt(n) {
      FormatInjective(m, n);
    }
  }

  // ---- One step, seen at one key ----

  /** What a call wrote stays written as it moves on. */
  lemma WroteGrows(stage: Stage, db: DB, pc: Pc, bucket: string, key: string, v: Value)
    requires Accepted(stage) && Wrote(stage, pc, bucket, key, v)
    ensures Wrote(stage, StepOf(stage, db, pc).1, bucket, key, v)
  {
    hide FormatInt, InvokeKey, PutVars, PutOwner, PutInvoke, CommitHeights, ReadHeights, IsScid, FieldName, FieldText;
  }

  /** A step puts exactly what it newly wrote and leaves every other key. */
  lemma StepAtKey(stage: Stage, db: DB, pc: Pc, bucket: string, key: string, v: Value)
    requires Accepted(stage) && PcOk(stage, pc) && !IsHeightsBucket(bucket)
    ensures var (db', pc') := StepOf(stage, db, pc);
      Wrote(stage, pc', bucket, key, v) && !Wrote(stage, pc, bucket, key, v) ==> Get(db', bucket, key) == Some(v)
  {
    hide FormatInt, InvokeKey;
    var (db', pc') := StepOf(stage, db, pc);
    NamesDistinct(stage.tx.scid, stage.tx.scid);
    if WroteOwner(stage, pc', bucket, key, v) && !WroteOwner(stage, pc, bucket, key, v) {
      var f :| bucket == FieldName(f) && v == Bytes(FieldText(OwnerOf(stage), f));
      PutOwnerAt(db, stage.tx.scid, OwnerOf(stage), f);
    }
  }

  /** A call does not overwrite what it wrote earlier. */
  lemma StepRewrites(stage: Stage, db: DB, pc: Pc, bucket: string, key: string, v: Value)
    requires Accepted(stage) && PcOk(stage, pc) && !IsHeightsBucket(bucket)
    requires Wrote(stage, pc, bucket, key, v) && Get(db, bucket, key) == Some(v)
    ensures Get(StepOf(stage, db, pc).0, bucket, key) == Some(v)
  {
    hide FormatInt, InvokeKey;
    var tx := stage.tx;
    NamesDistinct(tx.scid, tx.scid);
    assert bucket != HeightsBucket(tx.scid);
    if pc == AtRecord && tx.kind == "install" {
      PutOwnerFieldsElsewhere(db, tx.scid, OwnerOf(stage), |FIELDS|, bucket);
    }
  }

  lemma StepElsewhere(stage: Stage, db: DB, pc: Pc, bucket: string, key: string)
    requires Accepted(stage) && !IsHeightsBucket(bucket)
    requires forall v :: !Wrote(stage, StepOf(stage, db, pc).1, bucket, key, v)
    ensures Get(StepOf(stage, db, pc).0, bucket, key) == Get(db, bucket, key)
  {
    hide FormatInt, InvokeKey;
    var tx := stage.tx;
    assert bucket != HeightsBucket(tx.scid);
    match pc
    case AtVars =>
      assert !Wrote(stage, StepOf(stage, db, pc).1, bucket, key, VarsJson(stage.scVars));
    case AtRecord =>
      if tx.kind == "install" {
        assert StepOf(stage, db, pc).1 == Finished;
        forall v ensures !Wrote(stage, Finished, bucket, key, v) {
          assert !Wrote(stage, StepOf(stage, db, pc).1, bucket, key, v);
        }
        OwnerElsewhere(stage, db, bucket, key);
      } else if tx.kind == "invoke" {
        assert !Wrote(stage, StepOf(stage, db, pc).1, bucket, key, InvokeJson(tx));
      }
    case _ =>
  }

  lemma OwnerElsewhere(stage: Stage, db: DB, bucket: string, key: string)
    requires Accepted(stage) && stage.tx.kind == "install"
    requires forall v :: !Wrote(stage, Finished, bucket, key, v)
    ensures Get(PutOwner(db, stage.tx.scid, OwnerOf(stage)), bucket, key) == Get(db, bucket, key)
  {
    if f :| bucket == FieldName(f) {
      PutOwnerAt(db, stage.tx.scid, OwnerOf(stage), f);
      assert !Wrote(stage, Finished, bucket, key, Bytes(FieldText(OwnerOf(stage), f)));
    } else {
      PutOwnerFieldsElsewhere(db, stage.tx.scid, OwnerOf(stage), |FIELDS|, bucket);
    }
  }

  // ---- Whole runs ----

  ghost predicate WroteSomewhere(stages: seq<Stage>, pcs: seq<Pc>, i: int, bucket: string, key: string, v: Value)
    requires AllAccepted(stages) && |pcs| == |stages|
  {
    0 <= i < |stages| && Wrote(stages[i], pcs[i], bucket, key, v)
  }

  /** The value under a key is the one some call put there, or else the one it had at first. */
  ghost predicate Determined(db0: DB, stages: seq<Stage>, sys: Sys, bucket: string, key: string)
    requires AllAccepted(stages) && |sys.pcs| == |stages|
  {
    (forall i | 0 <= i < |stages| :: PcOk(stages[i], sys.pcs[i])) &&
    (forall i, v :: WroteSomewhere(stages, sys.pcs, i, bucket, key, v) ==> Get(sys.db, bucket, key) == Some(v)) &&
    ((forall i, v :: !WroteSomewhere(stages, sys.pcs, i, bucket, key, v)) ==>
      Get(sys.db, bucket, key) == Get(db0, bucket, key))
  }

  lemma StepDetermined(db0: DB, stages: seq<Stage>, sys: Sys, i: nat, bucket: string, key: string)
    requires AllAccepted(stages) && ConflictFree(stages) && |sys.pcs| == |stages| && !IsHeightsBucket(bucket)
    requires Determined(db0, stages, sys, bucket, key)
    ensures Determined(db0, stages, Step(stages, sys, i), bucket, key)
  {
    hide Wrote, ConflictFree, Agree, Accepted, IsHeightsBucket;
    if i < |stages| {
      var stage, pc := stages[i], sys.pcs[i];
      var (db', pc') := StepOf(stage, sys.db, pc);
      var sys' := Step(stages, sys, i);
      forall j, v | WroteSomewhere(stages, sys'.pcs, j, bucket, key, v)
        ensures Get(db', bucket, key) == Some(v)
      {
        StepKeeps(stages, sys, i, bucket, key, j, v);
      }
      if forall j, v :: !WroteSomewhere(stages, sys'.pcs, j, bucket, key, v) {
        forall v ensures !Wrote(stage, pc', bucket, key, v) {
          assert !WroteSomewhere(stages, sys'.pcs, i, bucket, key, v);
        }
        forall j, v ensures !WroteSomewhere(stages, sys.pcs, j, bucket, key, v) {
          assert !WroteSomewhere(stages, sys'.pcs, j, bucket, key, v);
          if j == i && Wrote(stage, pc, bucket, key, v) { WroteGrows(stage, sys.db, pc, bucket, key, v); }
        }
        StepElsewhere(stage, sys.db, pc, bucket, key);
      }
    }
  }

  lemma StepKeeps(stages: seq<Stage>, sys: Sys, i: nat, bucket: string, key: string, j: int, v: Value)
    requires AllAccepted(stages) && ConflictFree(stages) && |sys.pcs| == |stages| && !IsHeightsBucket(bucket)
    requires i < |stages| && (forall k | 0 <= k < |stages| :: PcOk(stages[k], sys.pcs[k]))
    requires forall k, w :: WroteSomewhere(stages, sys.pcs, k, bucket, key, w) ==> Get(sys.db, bucket, key) == Some(w)
    requires WroteSomewhere(stages, Step(stages, sys, i).pcs, j, bucket, key, v)
    ensures Get(Step(stages, sys, i).db, bucket, key) == Some(v)
  {
    hide Wrote, Agree, Accepted, IsHeightsBucket;
    var stage, pc := stages[i], sys.pcs[i];
    var (db', pc') := StepOf(stage, sys.db, pc);
    if w :| Wrote(stage, pc', bucket, key, w) {
      assert Agree(stages[j], stage);
      AgreeingWrites(stages[j], stage, Step(stages, sys, i).pcs[j], pc', bucket, key, v, w);
      StepAtKey(stage, sys.db, pc, bucket, key, w);
      if Wrote(stage, pc, bucket, key, w) {
        assert WroteSomewhere(stages, sys.pcs, i, bucket, key, w);
        StepRewrites(stage, sys.db, pc, bucket, key, w);
      }
    } else {
      assert j != i;
      assert WroteSomewhere(stages, sys.pcs, j, bucket, key, v);
      StepElsewhere(stage, sys.db, pc, bucket, key);
    }
  }

  /** In every state of every interleaving, outside the height lists. */
  lemma {:induction false} RunDetermined(
    db0: DB, stages: seq<Stage>, schedule: seq<nat>, bucket: string, key: string)
    requires AllAccepted(stages) && ConflictFree(stages) && !IsHeightsBucket(bucket)
    ensures Determined(db0, stages, Run(stages, Start(db0, stages), schedule), bucket, key)
  {
    hide ConflictFree, IsHeightsBucket, StepOf;
    var sys0 := Start(db0, stages);
    if schedule == [] {
      assert forall i, v :: !WroteSomewhere(stages, sys0.pcs, i, bucket, key, v);
    } else {
      var n := |schedule| - 1;
      RunDetermined(db0, stages, schedule[..n], bucket, key);
      StepDetermined(db0, stages, Run(stages, sys0, schedule[..n]), schedule[n], bucket, key);
    }
  }

  ghost predicate SameStages(p: seq<Stage>, q: seq<Stage>) {
    forall s :: s in p <==> s in q
  }

  lemma FinishedWrites(p: seq<Stage>, q: seq<Stage>, a: Sys, b: Sys, i: int, bucket: string, key: string, v: Value)
    requires AllAccepted(p) && AllAccepted(q) && SameStages(p, q)
    requires |a.pcs| == |p| && |b.pcs| == |q| && Complete(a) && Complete(b)
    requires WroteSomewhere(p, a.pcs, i, bucket, key, v)
    ensures exists j :: WroteSomewhere(q, b.pcs, j, bucket, key, v)
  {
    hide Wrote;
    assert p[i] in q;
    var j :| 0 <= j < |q| && q[j] == p[i];
    assert WroteSomewhere(q, b.pcs, j, bucket, key, v);
  }

  /** Order independence. Take the same stages in any two orders, with any repetitions, and
      interleave the transactions of the calls in any way: once all calls are finished, every key
      of every bucket except the height lists holds the same value. */
  lemma OrderIndependence(
    db0: DB, p: seq<Stage>, q: seq<Stage>, schedule: seq<nat>, schedule': seq<nat>, bucket: string)
    requires AllAccepted(p) && AllAccepted(q) && ConflictFree(p) && SameStages(p, q)
    requires Complete(Run(p, Start(db0, p), schedule)) && Complete(Run(q, Start(db0, q), schedule'))
    requires !IsHeightsBucket(bucket)
    ensures BucketOf(Run(p, Start(db0, p), schedule).db, bucket) ==
      BucketOf(Run(q, Start(db0, q), schedule').db, bucket)
  {
    hide IsHeightsBucket, Accepted, Step, Complete;
    ConflictFreeTransfers(p, q);
    var a, b := Run(p, Start(db0, p), schedule), Run(q, Start(db0, q), schedule');
    forall key ensures Get(a.db, bucket, key) == Get(b.db, bucket, key) {
      RunDetermined(db0, p, schedule, bucket, key);
      RunDetermined(db0, q, schedule', bucket, key);
      SameAtKey(db0, p, q, a, b, bucket, key);
    }
    SameBuckets(a.db, b.db, bucket);
  }

  lemma SameBuckets(db: DB, db': DB, bucket: string)
    requires forall key :: Get(db, bucket, key) == Get(db', bucket, key)
    ensures BucketOf(db, bucket) == BucketOf(db', bucket)
  {
    forall key
      ensures key in BucketOf(db, bucket) <==> key in BucketOf(db', bucket)
      ensures key in BucketOf(db, bucket) ==> BucketOf(db, bucket)[key] == BucketOf(db', bucket)[key]
    {
      assert Get(db, bucket, key) == Get(db', bucket, key);
    }
  }

  lemma ConflictFreeTransfers(p: seq<Stage>, q: seq<Stage>)
    requires AllAccepted(p) && AllAccepted(q) && ConflictFree(p) && SameStages(p, q)
    ensures ConflictFree(q)
  {
    hide Agree, Accepted;
    forall i, j | 0 <= i < |q| && 0 <= j < |q| ensures Agree(q[i], q[j]) {
      assert q[i] in p && q[j] in p;
      var k :| 0 <= k < |p| && p[k] == q[i];
      var l :| 0 <= l < |p| && p[l] == q[j];
      assert Agree(p[k], p[l]);
    }
  }

  lemma SameAtKey(db0: DB, p: seq<Stage>, q: seq<Stage>, a: Sys, b: Sys, bucket: string, key: string)
    requires AllAccepted(p) && AllAccepted(q) && SameStages(p, q)
    requires |a.pcs| == |p| && |b.pcs| == |q| && Complete(a) && Complete(b)
    requires Determined(db0, p, a, bucket, key) && Determined(db0, q, b, bucket, key)
    ensures Get(a.db, bucket, key) == Get(b.db, bucket, key)
  {
    hide Get, Accepted, Complete;
    if i, v :| WroteSomewhere(p, a.pcs, i, bucket, key, v) {
      FinishedWrites(p, q, a, b, i, bucket, key, v);
    } else {
      forall j, v ensures !WroteSomewhere(q, b.pcs, j, bucket, key, v) {
        if WroteSomewhere(q, b.pcs, j, bucket, key, v) {
          FinishedWrites(q, p, b, a, j, bucket, key, v);
        }
      }
    }
  }

  // ---- One call after the other ----

  /** The single database writer: every queued stage in turn. */
  function SerialRun(db: DB, stages: seq<Stage>): DB {
    if stages == [] then db
    else AddStage(SerialRun(db, stages[..|stages| - 1]), stages[|stages| - 1]).0
  }

  /** Each of the first n calls in turn, four steps each. */
  function SerialSchedule(n: nat): seq<nat> {
    if n == 0 then [] else SerialSchedule(n - 1) + [n - 1, n - 1, n - 1, n - 1]
  }

  lemma RunAppend(stages: seq<Stage>, sys: Sys, schedule: seq<nat>, i: nat)
    requires AllAccepted(stages) && |sys.pcs| == |stages|
    ensures Run(stages, sys, schedule + [i]) == Step(stages, Run(stages, sys, schedule), i)
  {
    assert (schedule + [i])[..|schedule|] == schedule;
  }

  function FourSteps(stages: seq<Stage>, sys: Sys, i: nat): (r: Sys)
    requires AllAccepted(stages) && |sys.pcs| == |stages|
    ensures |r.pcs| == |stages|
  {
    Step(stages, Step(stages, Step(stages, Step(stages, sys, i), i), i), i)
  }

  lemma RunFour(stages: seq<Stage>, sys: Sys, schedule: seq<nat>, i: nat)
    requires AllAccepted(stages) && |sys.pcs| == |stages|
    ensures Run(stages, sys, schedule + [i, i, i, i]) == FourSteps(stages, Run(stages, sys, schedule), i)
  {
    hide Step, Accepted;
    RunAppend(stages, sys, schedule, i);
    RunAppend(stages, sys, schedule + [i], i);
    RunAppend(stages, sys, schedule + [i] + [i], i);
    RunAppend(stages, sys, schedule + [i] + [i] + [i], i);
    assert schedule + [i] + [i] + [i] + [i] == schedule + [i, i, i, i];
  }

  lemma StepSelf(stages: seq<Stage>, sys: Sys, i: nat)
    requires AllAccepted(stages) && |sys.pcs| == |stages| && i < |stages|
    ensures var r := Step(stages, sys, i);
      var (db, pc) := StepOf(stages[i], sys.db, sys.pcs[i]);
      r.db == db && r.pcs[i] == pc && r.pcs == sys.pcs[i := pc]
  {
  }

  /** A whole call on its own does what its four steps do. */
  lemma FourStepsAreOneCall(stages: seq<Stage>, sys: Sys, i: nat)
    requires AllAccepted(stages) && |sys.pcs| == |stages| && i < |stages| && sys.pcs[i] == AtVars
    ensures FourSteps(stages, sys, i) == Sys(AddStage(sys.db, stages[i]).0, sys.pcs[i := Finished])
  {
    hide PutVars, PutOwner, PutInvoke, CommitHeights, ReadHeights;
    var s1 := Step(stages, sys, i);
    var s2 := Step(stages, s1, i);
    var s3 := Step(stages, s2, i);
    StepSelf(stages, sys, i);
    StepSelf(stages, s1, i);
    StepSelf(stages, s2, i);
    StepSelf(stages, s3, i);
  }

  /** So the serial writer is one of the interleavings. */
  lemma {:induction false} SerialIsASchedule(db: DB, stages: seq<Stage>, n: nat)
    requires AllAccepted(stages) && n <= |stages|
    ensures Run(stages, Start(db, stages), SerialSchedule(n)) ==
      Sys(SerialRun(db, stages[..n]), seq(|stages|, k => if k < n then Finished else AtVars))
  {
    hide AddStage, Step, Accepted;
    var sys0 := Start(db, stages);
    if n == 0 {
      assert seq(|stages|, k => if k < 0 then Finished else AtVars) == sys0.pcs;
    } else {
      SerialIsASchedule(db, stages, n - 1);
      var sys := Run(stages, sys0, SerialSchedule(n - 1));
      RunFour(stages, sys0, SerialSchedule(n - 1), n - 1);
      FourStepsAreOneCall(stages, sys, n - 1);
      assert stages[..n][..n - 1] == stages[..n - 1];
      assert sys.pcs[n - 1 := Finished] == seq(|stages|, k => if k < n then Finished else AtVars);
    }
  }
}
