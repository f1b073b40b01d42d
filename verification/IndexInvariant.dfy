/** What the index keeps: after every single transaction of every interleaving, and so after a
    crash at any point, an interaction height is backed by a variable snapshot and an invocation
    record at that height; between the calls of a serial run the interaction heights are exactly
    the heights of the stored invocations. */
module IndexInvariant {
  import opened Wrappers
  import opened Decimal
  import opened GoStrings
  import opened Records
  import opened FlatStore
  import opened InvokeKeys
  import opened TypedIndex
  import opened Interleaving

  // ---- One contract ----

  ghost predicate InvokedAt(e: Entry, h: Int64) {
    exists k :: k in e.invokes && e.invokes[k].height == h
  }

  /** Height h is backed by a snapshot and by an invocation record. */
  ghost predicate Covered(e: Entry, h: Int64) {
    h in e.snapshots && InvokedAt(e, h)
  }

  /** Every record is stored under the key of its own signer, Txid, height and entrypoint. */
  ghost predicate Keyed(e: Entry) {
    forall k | k in e.invokes :: KeyFits(k, e.invokes[k])
  }

  ghost predicate KeyFits(k: string, tx: SCTXParse) {
    |tx.txid| >= 3 && ':' !in tx.sender && k == KeyOfInvoke(tx)
  }

  ghost predicate EntryOk(e: Entry) {
    Keyed(e) && Distinct(e.heights) && forall h | h in e.heights :: Covered(e, h)
  }

  /** The interaction heights are the heights of the stored invocations. */
  ghost predicate HeightsMatch(e: Entry) {
    forall h :: h in e.heights <==> InvokedAt(e, h)
  }

  /** Storing an invocation never takes away the record of another height: a record can only be
      overwritten by one with the same key, and the key holds the height. */
  lemma InvokeKeepsHeights(e: Entry, tx: SCTXParse, h: Int64)
    requires Keyed(e) && |tx.txid| >= 3 && ':' !in tx.sender
    requires InvokedAt(e, h)
    ensures InvokedAt(e.(invokes := e.invokes[KeyOfInvoke(tx) := tx]), h)
  {
    hide InvokeKey;
    var e' := e.(invokes := e.invokes[KeyOfInvoke(tx) := tx]);
    var k :| k in e.invokes && e.invokes[k].height == h;
    if k == KeyOfInvoke(tx) {
      var old_ := e.invokes[k];
      assert KeyFits(k, old_);
      KeysEqualIff(old_.sender, old_.txid, old_.height, old_.entrypoint, tx.sender, tx.txid, tx.height, tx.entrypoint);
    }
    assert k in e'.invokes && e'.invokes[k].height == h;
  }

  lemma InvokeAdds(e: Entry, tx: SCTXParse)
    requires Keyed(e) && |tx.txid| >= 3 && ':' !in tx.sender
    ensures var e' := e.(invokes := e.invokes[KeyOfInvoke(tx) := tx]);
      Keyed(e') && forall h :: InvokedAt(e', h) <==> InvokedAt(e, h) || h == tx.height
  {
    hide KeyOfInvoke;
    var e' := e.(invokes := e.invokes[KeyOfInvoke(tx) := tx]);
    assert KeyFits(KeyOfInvoke(tx), tx);
    assert InvokedAt(e', tx.height) by {
      assert KeyOfInvoke(tx) in e'.invokes;
    }
    forall h ensures InvokedAt(e', h) <==> InvokedAt(e, h) || h == tx.height {
      if InvokedAt(e, h) { InvokeKeepsHeights(e, tx, h); }
      if InvokedAt(e', h) && h != tx.height {
        var k :| k in e'.invokes && e'.invokes[k].height == h;
        assert k in e.invokes && e.invokes[k].height == h;
      }
    }
  }

  // ---- One transaction of one call, on the typed index ----

  /** What a step does to contract s. */
  ghost function EntryStep(stage: Stage, pc: Pc, e: Entry): Entry
    requires Accepted(stage)
  {
    var tx := stage.tx;
    match pc
    case AtVars => e.(snapshots := e.snapshots[tx.height := stage.scVars])
    case AtRecord =>
      if tx.kind == "install" then e.(owner := Some(OwnerOf(stage)))
      else if tx.kind == "invoke" then e.(invokes := e.invokes[KeyOfInvoke(tx) := tx])
      else e
    case AtWrite(read) =>
      var list := if read.None? then [] else read.value;
      if tx.height in list then e else e.(heights := list + [tx.height])
    case _ => e
  }

  /** A step changes its own contract only, and there exactly one component. */
  lemma StepRefines(stage: Stage, db: DB, pc: Pc, s: string)
    requires Typed(db) && Accepted(stage) && IsScid(s)
    requires pc.AtWrite? && pc.read.Some? ==> Distinct(pc.read.value)
    ensures var db' := StepOf(stage, db, pc).0;
      Typed(db') && Abs(db', s) == if s == stage.tx.scid then EntryStep(stage, pc, Abs(db, s)) else Abs(db, s)
  {
    hide Typed, IsScid, Abs, PutVars, PutOwner, PutInvoke, CommitHeights, InvokeKey;
    var tx := stage.tx;
    match pc
    case AtVars => RefineVars(db, tx.scid, stage.scVars, tx.height, s);
    case AtRecord =>
      if tx.kind == "install" { RefineOwner(db, tx.scid, OwnerOf(stage), s); }
      else if tx.kind == "invoke" { RefineInvoke(db, tx.scid, tx.sender, tx.entrypoint, tx.height, tx, s); }
    case AtWrite(read) => RefineHeights(db, tx.scid, read, tx.height, s);
    case _ =>
  }

  // ---- Every state of every interleaving ----

  /** Signers are addresses or "null": they hold no colon. */
  predicate ColonFree(stages: seq<Stage>) {
    forall i | 0 <= i < |stages| :: ':' !in stages[i].tx.sender
  }

  /** What a call relies on between its transactions. */
  ghost predicate CallOk(stage: Stage, pc: Pc, e: Entry) {
    PcOk(stage, pc) &&
    (pc == AtRecord ==> stage.tx.height in e.snapshots) &&
    (pc == AtRead || pc.AtWrite? ==> Covered(e, stage.tx.height)) &&
    (pc.AtWrite? && pc.read.Some? ==> Distinct(pc.read.value) && forall h | h in pc.read.value :: Covered(e, h))
  }

  ghost predicate StateOk(stages: seq<Stage>, sys: Sys)
    requires AllAccepted(stages) && |sys.pcs| == |stages|
  {
    Typed(sys.db) &&
    (forall s | IsScid(s) :: EntryOk(Abs(sys.db, s))) &&
    (forall i | 0 <= i < |stages| :: CallOk(stages[i], sys.pcs[i], Abs(sys.db, stages[i].tx.scid)))
  }

  /** A step of a call keeps its contract's invariant. */
  lemma EntryStepOk(stage: Stage, pc: Pc, e: Entry)
    requires Accepted(stage) && ':' !in stage.tx.sender && EntryOk(e) && CallOk(stage, pc, e)
    ensures EntryOk(EntryStep(stage, pc, e))
    ensures forall h :: Covered(e, h) ==> Covered(EntryStep(stage, pc, e), h)
    ensures forall h :: h in e.snapshots ==> h in EntryStep(stage, pc, e).snapshots
    ensures pc == AtRecord && stage.tx.kind == "invoke" ==> Covered(EntryStep(stage, pc, e), stage.tx.height)
  {
    hide KeyOfInvoke, IsScid, KeyFits;
    var tx := stage.tx;
    var e' := EntryStep(stage, pc, e);
    if pc == AtRecord && tx.kind == "invoke" {
      InvokeAdds(e, tx);
    } else {
      assert e'.invokes == e.invokes;
      assert forall h :: InvokedAt(e', h) <==> InvokedAt(e, h);
    }
  }

  lemma CallStepOk(stage: Stage, db: DB, pc: Pc)
    requires Typed(db) && Accepted(stage) && ':' !in stage.tx.sender
    requires EntryOk(Abs(db, stage.tx.scid)) && CallOk(stage, pc, Abs(db, stage.tx.scid))
    ensures var (db', pc') := StepOf(stage, db, pc);
      Typed(db') && CallOk(stage, pc', Abs(db', stage.tx.scid))
  {
    hide KeyOfInvoke, IsScid, KeyFits, Typed;
    hide PutVars, PutOwner, PutInvoke, CommitHeights, SnapshotsOf, OwnerIn, InvokesIn;
    var e := Abs(db, stage.tx.scid);
    StepRefines(stage, db, pc, stage.tx.scid);
    EntryStepOk(stage, pc, e);
    assert pc == AtRead ==> HeightsOf(db, stage.tx.scid) == e.heights;
  }

  lemma StepOk(stages: seq<Stage>, sys: Sys, i: nat)
    requires AllAccepted(stages) && ColonFree(stages) && |sys.pcs| == |stages|
    requires StateOk(stages, sys)
    ensures StateOk(stages, Step(stages, sys, i))
  {
    hide Accepted, IsScid, Typed, Abs, StepOf, EntryStep, EntryOk, Covered;
    if i < |stages| {
      var stage, pc := stages[i], sys.pcs[i];
      var t := stage.tx.scid;
      var sys' := Step(stages, sys, i);
      assert Accepted(stage) && IsScid(t) by { AcceptedScid(stages, i); }
      StepRefines(stage, sys.db, pc, t);
      EntryStepOk(stage, pc, Abs(sys.db, t));
      CallStepOk(stage, sys.db, pc);
      forall s | IsScid(s) ensures EntryOk(Abs(sys'.db, s)) {
        StepRefines(stage, sys.db, pc, s);
      }
      forall j | 0 <= j < |stages| ensures IsScid(stages[j].tx.scid) {
        AcceptedScid(stages, j);
      }
      forall j | 0 <= j < |stages| ensures CallOk(stages[j], sys'.pcs[j], Abs(sys'.db, stages[j].tx.scid)) {
        StepRefines(stage, sys.db, pc, stages[j].tx.scid);
      }
    }
  }

  lemma AcceptedScid(stages: seq<Stage>, i: nat)
    requires AllAccepted(stages) && i < |stages|
    ensures Accepted(stages[i]) && IsScid(stages[i].tx.scid)
  {
  }

  /** The index invariant holds in every state of every interleaving that starts from a store
      where it holds. */
  lemma {:induction false} RunOk(db0: DB, stages: seq<Stage>, schedule: seq<nat>)
    requires AllAccepted(stages) && ColonFree(stages)
    requires Typed(db0) && forall s | IsScid(s) :: EntryOk(Abs(db0, s))
    ensures StateOk(stages, Run(stages, Start(db0, stages), schedule))
  {
    hide IsScid, Typed, Abs, EntryOk, Step, Accepted;
    if schedule == [] {
      assert forall i | 0 <= i < |stages| :: Start(db0, stages).pcs[i] == AtVars;
    } else {
      var n := |schedule| - 1;
      RunOk(db0, stages, schedule[..n]);
      StepOk(stages, Run(stages, Start(db0, stages), schedule[..n]), schedule[n]);
    }
  }

  /** In particular: after any crash, every interaction height has its snapshot and its record. */
  lemma CrashSafe(db0: DB, stages: seq<Stage>, schedule: seq<nat>, scid: string, h: Int64)
    requires AllAccepted(stages) && ColonFree(stages) && IsScid(scid)
    requires Typed(db0) && forall s | IsScid(s) :: EntryOk(Abs(db0, s))
    ensures var db := Run(stages, Start(db0, stages), schedule).db;
      Typed(db) && (h in HeightsOf(db, scid) ==>
        h in SnapshotsOf(db, scid) &&
        exists k ::
          k in BucketOf(db, scid) && BucketOf(db, scid)[k].InvokeJson? && BucketOf(db, scid)[k].tx.height == h)
  {
    hide IsScid, Typed, Step, Accepted, EntryOk, Abs, SnapshotsOf, HeightsOf;
    RunOk(db0, stages, schedule);
    BackedHeight(Run(stages, Start(db0, stages), schedule).db, scid, h);
  }

  lemma BackedHeight(db: DB, scid: string, h: Int64)
    requires Typed(db) && IsScid(scid) && EntryOk(Abs(db, scid))
    ensures h in HeightsOf(db, scid) ==>
      h in SnapshotsOf(db, scid) &&
      exists k :: k in BucketOf(db, scid) && BucketOf(db, scid)[k].InvokeJson? && BucketOf(db, scid)[k].tx.height == h
  {
    hide SnapshotsOf, HeightsOf, OwnersOk, OwnerIn, VarsOk, HeightsOk, Keyed;
    var e := Abs(db, scid);
    if h in e.heights {
      assert Covered(e, h);
      var k :| k in e.invokes && e.invokes[k].height == h;
      assert k in BucketOf(db, scid);
    }
  }

  // ---- Whole calls, one after the other ----

  /** What a whole call does to its contract. */
  ghost function AddToEntry(stage: Stage, e: Entry): Entry
    requires Accepted(stage)
  {
    var tx := stage.tx;
    var e1 := e.(snapshots := e.snapshots[tx.height := stage.scVars]);
    if tx.kind == "install" then e1.(owner := Some(OwnerOf(stage)))
    else if tx.kind == "invoke" then
      e1.(invokes := e.invokes[KeyOfInvoke(tx) := tx],
          heights := if tx.height in e.heights then e.heights else e.heights + [tx.height])
    else e1
  }

  /** A call adds its stage to its own contract and leaves every other contract as it was. */
  lemma AddStageRefines(db: DB, stage: Stage, s: string)
    requires Typed(db) && Accepted(stage) && IsScid(s)
    ensures var db' := AddStage(db, stage).0;
      Typed(db') && Abs(db', s) == if s == stage.tx.scid then AddToEntry(stage, Abs(db, s)) else Abs(db, s)
  {
    hide Typed, Abs, PutVars, PutOwner, PutInvoke, CommitHeights, InvokeKey, Distinct, ReadHeights;
    var tx := stage.tx;
    assert tx.scid != "";
    var db1 := PutVars(db, tx.scid, stage.scVars, tx.height);
    RefineVars(db, tx.scid, stage.scVars, tx.height, s);
    if tx.kind == "install" {
      RefineOwner(db1, tx.scid, OwnerOf(stage), s);
    } else if tx.kind == "invoke" {
      var db2 := PutInvoke(db1, tx.scid, tx.sender, tx.entrypoint, tx.height, tx);
      RefineInvoke(db1, tx.scid, tx.sender, tx.entrypoint, tx.height, tx, s);
      HeightsAreRead(db2, tx.scid);
      RefineHeights(db2, tx.scid, ReadHeights(db2, tx.scid), tx.height, s);
    }
  }

  lemma HeightsAreRead(db: DB, scid: string)
    requires Typed(db) && IsScid(scid)
    ensures var read := ReadHeights(db, scid);
      (read.Some? ==> Distinct(read.value)) && Abs(db, scid).heights == if read.None? then [] else read.value
  {
    hide SnapshotsOf, OwnerIn, InvokesIn, OwnersOk;
    assert ContractOk(db, scid);
  }

  /** At the boundaries of calls the interaction heights are exactly the heights of the records. */
  lemma AddToEntryOk(stage: Stage, e: Entry)
    requires Accepted(stage) && ':' !in stage.tx.sender && EntryOk(e) && HeightsMatch(e)
    ensures EntryOk(AddToEntry(stage, e)) && HeightsMatch(AddToEntry(stage, e))
  {
    hide KeyOfInvoke, IsScid, KeyFits;
    var tx := stage.tx;
    var e' := AddToEntry(stage, e);
    if tx.kind == "invoke" {
      InvokeAdds(e, tx);
      assert forall h :: InvokedAt(e', h) <==> InvokedAt(e.(invokes := e.invokes[KeyOfInvoke(tx) := tx]), h);
    } else {
      assert forall h :: InvokedAt(e', h) <==> InvokedAt(e, h);
    }
  }

  lemma {:induction false} SerialBoundary(db0: DB, stages: seq<Stage>, s: string)
    requires AllAccepted(stages) && ColonFree(stages) && IsScid(s) && Typed(db0)
    requires EntryOk(Abs(db0, s)) && HeightsMatch(Abs(db0, s))
    ensures Typed(SerialRun(db0, stages))
    ensures EntryOk(Abs(SerialRun(db0, stages), s)) && HeightsMatch(Abs(SerialRun(db0, stages), s))
  {
    hide IsScid, Typed, Abs, EntryOk, HeightsMatch, Accepted, AddStage, AddToEntry;
    if stages != [] {
      var n := |stages| - 1;
      SerialBoundary(db0, stages[..n], s);
      AddStageRefines(SerialRun(db0, stages[..n]), stages[n], s);
      if s == stages[n].tx.scid {
        AddToEntryOk(stages[n], Abs(SerialRun(db0, stages[..n]), s));
      }
    }
  }

  // ---- Order independence of the serial writer, height lists included ----

  ghost predicate Invokes(stages: seq<Stage>, s: string, h: Int64) {
    exists i | 0 <= i < |stages| :: stages[i].tx.kind == "invoke" && stages[i].tx.scid == s && stages[i].tx.height == h
  }

  /** The interaction heights after a run: those from before and those of its invocations. */
  lemma {:induction false} SerialHeights(db0: DB, stages: seq<Stage>, s: string, h: Int64)
    requires AllAccepted(stages) && IsScid(s) && Typed(db0)
    ensures Typed(SerialRun(db0, stages))
    ensures h in HeightsOf(SerialRun(db0, stages), s) <==> h in HeightsOf(db0, s) || Invokes(stages, s, h)
  {
    hide IsScid, Typed, SnapshotsOf, InvokesIn, OwnerIn, HeightsOf, Accepted, AddStage;
    if stages != [] {
      var n := |stages| - 1;
      SerialHeights(db0, stages[..n], s, h);
      AddStageRefines(SerialRun(db0, stages[..n]), stages[n], s);
      assert Invokes(stages, s, h) <==> Invokes(stages[..n], s, h) || Invokes([stages[n]], s, h) by {
        assert stages == stages[..n] + [stages[n]];
        InvokesConcat(stages[..n], [stages[n]], s, h);
      }
      assert [stages[n]][0] == stages[n];
    }
  }

  lemma InvokesConcat(p: seq<Stage>, q: seq<Stage>, s: string, h: Int64)
    ensures Invokes(p + q, s, h) <==> Invokes(p, s, h) || Invokes(q, s, h)
  {
    if i :| 0 <= i < |p| && p[i].tx.kind == "invoke" && p[i].tx.scid == s && p[i].tx.height == h {
      assert (p + q)[i] == p[i];
    }
    if i :| 0 <= i < |q| && q[i].tx.kind == "invoke" && q[i].tx.scid == s && q[i].tx.height == h {
      assert (p + q)[|p| + i] == q[i];
    }
  }

  lemma SameInvokes(p: seq<Stage>, q: seq<Stage>, s: string, h: Int64)
    requires SameStages(p, q) && Invokes(p, s, h)
    ensures Invokes(q, s, h)
  {
    var i :| 0 <= i < |p| && p[i].tx.kind == "invoke" && p[i].tx.scid == s && p[i].tx.height == h;
    assert p[i] in q;
    var j :| 0 <= j < |q| && q[j] == p[i];
  }

  /** Two queues with the same stages, in any order and with any repetitions, leave stores that
      agree on every bucket, the height lists compared as sets. */
  lemma SerialOrderIndependence(db0: DB, p: seq<Stage>, q: seq<Stage>)
    requires AllAccepted(p) && AllAccepted(q) && ConflictFree(p) && SameStages(p, q) && Typed(db0)
    ensures forall bucket | !IsHeightsBucket(bucket) ::
      BucketOf(SerialRun(db0, p), bucket) == BucketOf(SerialRun(db0, q), bucket)
    ensures forall s, h | IsScid(s) :: h in HeightsOf(SerialRun(db0, p), s) <==> h in HeightsOf(SerialRun(db0, q), s)
  {
    hide IsScid, Typed, Accepted, IsHeightsBucket, Step, SerialRun, HeightsOf;
    SerialIsASchedule(db0, p, |p|);
    SerialIsASchedule(db0, q, |q|);
    assert p[..|p|] == p && q[..|q|] == q;
    forall bucket | !IsHeightsBucket(bucket)
      ensures BucketOf(SerialRun(db0, p), bucket) == BucketOf(SerialRun(db0, q), bucket)
    {
      OrderIndependence(db0, p, q, SerialSchedule(|p|), SerialSchedule(|q|), bucket);
    }
    forall s, h | IsScid(s)
      ensures h in HeightsOf(SerialRun(db0, p), s) <==> h in HeightsOf(SerialRun(db0, q), s)
    {
      SerialHeights(db0, p, s, h);
      SerialHeights(db0, q, s, h);
      if Invokes(p, s, h) { SameInvokes(p, q, s, h); }
      if Invokes(q, s, h) { SameInvokes(q, p, s, h); }
    }
  }
}
