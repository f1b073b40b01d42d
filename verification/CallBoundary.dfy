/** The index between overlapping calls: once all calls are over, the interaction heights of a contract
    are the heights of its records exactly when the height list has lost nothing. */
module CallBoundary {
  import opened Wrappers
  import opened Decimal
  import opened Records
  import opened FlatStore
  import opened TypedIndex
  import opened Interleaving
  import opened IndexInvariant
  import opened ConcurrentStores

  /** A call has stored its invocation of contract s at height h. */
  ghost predicate Recorded(stages: seq<Stage>, pcs: seq<Pc>, s: string, h: Int64) {
    exists i | 0 <= i < |stages| && i < |pcs| :: RecordedBy(stages[i], pcs[i], s, h)
  }

  predicate RecordedBy(stage: Stage, pc: Pc, s: string, h: Int64) {
    stage.tx.kind == "invoke" && stage.tx.scid == s && stage.tx.height == h && pc != AtVars && pc != AtRecord
  }

  lemma StepRecords(stages: seq<Stage>, sys: Sys, i: nat, s: string, h: Int64)
    requires AllAccepted(stages) && ColonFree(stages) && |sys.pcs| == |stages| && IsScid(s) && i < |stages|
    requires StateOk(stages, sys)
    ensures Typed(Step(stages, sys, i).db)
    ensures InvokedAt(Abs(Step(stages, sys, i).db, s), h) <==>
      InvokedAt(Abs(sys.db, s), h) ||
      (RecordedBy(stages[i], Step(stages, sys, i).pcs[i], s, h) && !RecordedBy(stages[i], sys.pcs[i], s, h))
  {
    hide IsScid, Typed, Abs, KeyOfInvoke, EntryOk;
    var stage, pc := stages[i], sys.pcs[i];
    assert CallOk(stage, pc, Abs(sys.db, stage.tx.scid));
    StepRefines(stage, sys.db, pc, s);
    EntryRecords(stage, sys.db, pc, Abs(sys.db, s), s, h);
  }

  lemma EntryRecords(stage: Stage, db: DB, pc: Pc, e: Entry, s: string, h: Int64)
    requires Accepted(stage) && ':' !in stage.tx.sender && PcOk(stage, pc) && EntryOk(e)
    ensures InvokedAt(if s == stage.tx.scid then EntryStep(stage, pc, e) else e, h) <==>
      InvokedAt(e, h) ||
      (RecordedBy(stage, StepOf(stage, db, pc).1, s, h) && !RecordedBy(stage, pc, s, h))
  {
    hide KeyOfInvoke, IsScid, KeyFits;
    if s == stage.tx.scid {
      if pc == AtRecord && stage.tx.kind == "invoke" {
        InvokeAdds(e, stage.tx);
      } else {
        assert EntryStep(stage, pc, e).invokes == e.invokes;
      }
    }
  }

  /** In every state of every interleaving a height has a record exactly when it had one at first or
      some call has stored one. */
  lemma {:induction false} RunRecords(db0: DB, stages: seq<Stage>, schedule: seq<nat>, s: string, h: Int64)
    requires AllAccepted(stages) && ColonFree(stages) && IsScid(s)
    requires Typed(db0) && forall t | IsScid(t) :: EntryOk(Abs(db0, t))
    ensures var sys := Run(stages, Start(db0, stages), schedule);
      Typed(sys.db) && (InvokedAt(Abs(sys.db, s), h) <==> InvokedAt(Abs(db0, s), h) || Recorded(stages, sys.pcs, s, h))
  {
    hide IsScid, Typed, Abs, EntryOk, Step, Accepted, InvokedAt, CallOk;
    RunOk(db0, stages, schedule);
    if schedule != [] {
      var n := |schedule| - 1;
      var before := Run(stages, Start(db0, stages), schedule[..n]);
      RunRecords(db0, stages, schedule[..n], s, h);
      RunOk(db0, stages, schedule[..n]);
      if schedule[n] < |stages| {
        StepRecords(stages, before, schedule[n], s, h);
        PcsOk(db0, stages, schedule[..n]);
        RecordedStep(stages, before, schedule[n], s, h);
      } else {
        assert Step(stages, before, schedule[n]) == before by { IdleStep(stages, before, schedule[n]); }
      }
    } else {
      NothingRecorded(db0, stages, s, h);
    }
  }

  lemma IdleStep(stages: seq<Stage>, sys: Sys, i: nat)
    requires AllAccepted(stages) && |sys.pcs| == |stages| && i >= |stages|
    ensures Step(stages, sys, i) == sys
  {
  }

  lemma NothingRecorded(db0: DB, stages: seq<Stage>, s: string, h: Int64)
    ensures !Recorded(stages, Start(db0, stages).pcs, s, h)
  {
  }

  lemma RecordedStep(stages: seq<Stage>, sys: Sys, i: nat, s: string, h: Int64)
    requires AllAccepted(stages) && |sys.pcs| == |stages| && i < |stages| && PcOk(stages[i], sys.pcs[i])
    ensures Recorded(stages, Step(stages, sys, i).pcs, s, h) <==>
      Recorded(stages, sys.pcs, s, h) ||
      (RecordedBy(stages[i], Step(stages, sys, i).pcs[i], s, h) && !RecordedBy(stages[i], sys.pcs[i], s, h))
  {
    hide PutVars, PutOwner, PutInvoke, CommitHeights, ReadHeights, IsScid;
    var pcs, pcs' := sys.pcs, Step(stages, sys, i).pcs;
    assert pcs' == pcs[i := pcs'[i]];
    assert RecordedBy(stages[i], pcs[i], s, h) ==> RecordedBy(stages[i], pcs'[i], s, h);
    if j :| 0 <= j < |stages| && RecordedBy(stages[j], pcs[j], s, h) {
      assert RecordedBy(stages[j], pcs'[j], s, h);
    }
    if j :| 0 <= j < |stages| && RecordedBy(stages[j], pcs'[j], s, h) {
      assert j != i ==> RecordedBy(stages[j], pcs[j], s, h);
    }
  }

  // ---- The height list of the contract ----

  lemma {:induction false} HeightsFiled(db: DB, stages: seq<Stage>, s: string, schedule: seq<nat>)
    requires AllAccepted(stages) && RW.DistinctIds(RW.Content(ReadHeights(db, s)), HeightId)
    ensures RW.CallsFiled(s, HeightWriters(stages), HeightId, HeightsWorld(db, stages, s, schedule))
  {
    hide Accepted, RW.Step, RW.WorldOk, ReadHeights, RW.Filed;
    if schedule != [] {
      var n := |schedule| - 1;
      HeightsFiled(db, stages, s, schedule[..n]);
      HeightsWorldOk(db, stages, s, schedule[..n]);
      RW.StepFiled(s, HeightWriters(stages), HeightId, ReadHeights(db, s),
        HeightsWorld(db, stages, s, schedule[..n]), schedule[n]);
    }
  }

  /** If nothing is lost, every entry of every version is still in the list. */
  lemma VersionsKept(
    key: string, ws: seq<RW.Writer<Int64>>, list0: Option<seq<Int64>>, w: RW.World<Int64>, v: nat, h: Int64)
    requires RW.WorldOk(key, ws, HeightId, list0, w) && RW.NothingLost(ws, w)
    requires v < |w.versions| && h in w.versions[v]
    ensures h in RW.Content(w.list)
  {
    RW.WorldLogOk(key, ws, HeightId, list0, w);
    RW.VersionIs(key, ws, HeightId, list0, w, v);
    RW.VersionIs(key, ws, HeightId, list0, w, |w.log|);
    hide RW.WorldOk;
    var xs := RW.KeptItems(ws, w.log, v);
    if h in xs {
      var k :| 0 <= k < |xs| && xs[k] == h;
      var p := RW.Kept(ws, w.log, v)[k];
      assert ws[w.log[p].writer].item == h;
    } else {
      assert h in RW.Content(list0);
    }
  }

  /** What the list says about the calls, once they are over. */
  lemma FiledHeights(
    stages: seq<Stage>, s: string, list0: Option<seq<Int64>>, w: RW.World<Int64>, i: nat)
    requires RW.WorldOk(s, HeightWriters(stages), HeightId, list0, w)
    requires RW.CallsFiled(s, HeightWriters(stages), HeightId, w)
    requires RW.NothingLost(HeightWriters(stages), w)
    requires i < |stages| && stages[i].tx.kind == "invoke" && stages[i].tx.scid == s && w.phases[i] == RW.Done
    ensures stages[i].tx.height in RW.Content(w.list)
  {
    var ws, h := HeightWriters(stages), stages[i].tx.height;
    assert ws[i] == RW.Writer(s, h);
    assert RW.Filed(w.versions, h, HeightId);
    var v :| 0 <= v < |w.versions| && RW.Present(w.versions[v], h, HeightId);
    PresentHeight(w.versions[v], h);
    VersionsKept(s, ws, list0, w, v, h);
  }

  /** The height list and the records of one contract, before and after calls that are all over. */
  ghost predicate CallsOver(
    stages: seq<Stage>, pcs: seq<Pc>, s: string, list0: Option<seq<Int64>>, w: RW.World<Int64>, e0: Entry, e: Entry)
  {
    RW.WorldOk(s, HeightWriters(stages), HeightId, list0, w) &&
    RW.CallsFiled(s, HeightWriters(stages), HeightId, w) &&
    |pcs| == |stages| && (forall i | 0 <= i < |pcs| :: pcs[i] == Finished) &&
    (forall i | 0 <= i < |stages| && HeightWriter(stages[i]).key == s :: w.phases[i] == RW.Done) &&
    e0.heights == RW.Content(list0) && e.heights == RW.Content(w.list) &&
    forall h :: InvokedAt(e, h) <==> InvokedAt(e0, h) || Recorded(stages, pcs, s, h)
  }

  /** A committed height is that of an invocation of the contract. */
  lemma CommitRecorded(
    stages: seq<Stage>, pcs: seq<Pc>, s: string, list0: Option<seq<Int64>>, w: RW.World<Int64>, e0: Entry, e: Entry,
    p: nat)
    requires CallsOver(stages, pcs, s, list0, w, e0, e) && s != "" && p < |w.log|
    ensures w.log[p].writer < |stages| && InvokedAt(e, HeightWriters(stages)[w.log[p].writer].item)
  {
    assert RW.CommitOk(s, HeightWriters(stages), w.versions, w.log, p);
    hide RW.WorldOk, RW.CallsFiled, InvokedAt;
    var i := w.log[p].writer;
    assert HeightWriters(stages)[i] == HeightWriter(stages[i]);
    assert RecordedBy(stages[i], pcs[i], s, stages[i].tx.height);
  }

  /** A listed height has a record. */
  lemma ListedRecorded(
    stages: seq<Stage>, pcs: seq<Pc>, s: string, list0: Option<seq<Int64>>, w: RW.World<Int64>, e0: Entry, e: Entry,
    h: Int64)
    requires CallsOver(stages, pcs, s, list0, w, e0, e) && s != "" && HeightsMatch(e0) && h in e.heights
    ensures InvokedAt(e, h)
  {
    var ws := HeightWriters(stages);
    RW.WorldLogOk(s, ws, HeightId, list0, w);
    RW.VersionIs(s, ws, HeightId, list0, w, |w.log|);
    var xs := RW.KeptItems(ws, w.log, |w.log|);
    if h in xs {
      var k :| 0 <= k < |xs| && xs[k] == h;
      CommitRecorded(stages, pcs, s, list0, w, e0, e, RW.Kept(ws, w.log, |w.log|)[k]);
    } else {
      assert h in e0.heights;
    }
  }

  /** If nothing is lost, a recorded height is listed. */
  lemma RecordedListed(
    stages: seq<Stage>, pcs: seq<Pc>, s: string, list0: Option<seq<Int64>>, w: RW.World<Int64>, e0: Entry, e: Entry,
    h: Int64)
    requires CallsOver(stages, pcs, s, list0, w, e0, e) && s != "" && HeightsMatch(e0)
    requires RW.NothingLost(HeightWriters(stages), w) && InvokedAt(e, h)
    ensures h in e.heights
  {
    hide InvokedAt, RW.NothingLost;
    if InvokedAt(e0, h) {
      assert w.versions[0] == RW.Content(list0);
      VersionsKept(s, HeightWriters(stages), list0, w, 0, h);
    } else {
      var i :| 0 <= i < |stages| && i < |pcs| && RecordedBy(stages[i], pcs[i], s, h);
      FiledHeights(stages, s, list0, w, i);
    }
  }

  lemma MatchIffKept(
    stages: seq<Stage>, pcs: seq<Pc>, s: string, list0: Option<seq<Int64>>, w: RW.World<Int64>, e0: Entry, e: Entry)
    requires CallsOver(stages, pcs, s, list0, w, e0, e) && s != "" && HeightsMatch(e0)
    ensures HeightsMatch(e) <==> RW.NothingLost(HeightWriters(stages), w)
  {
    hide InvokedAt, CallsOver;
    if RW.NothingLost(HeightWriters(stages), w) {
      forall h ensures h in e.heights <==> InvokedAt(e, h) {
        if h in e.heights { ListedRecorded(stages, pcs, s, list0, w, e0, e, h); }
        if InvokedAt(e, h) { RecordedListed(stages, pcs, s, list0, w, e0, e, h); }
      }
    }
    if HeightsMatch(e) {
      ListIs(stages, pcs, s, list0, w, e0, e);
      assert |HeightWriters(stages)| == |stages|;
      forall p | 0 <= p < |w.log|
        ensures w.log[p].writer < |stages| && HeightWriters(stages)[w.log[p].writer].item in RW.Content(w.list)
      {
        CommitRecorded(stages, pcs, s, list0, w, e0, e, p);
      }
    }
  }

  lemma ListIs(
    stages: seq<Stage>, pcs: seq<Pc>, s: string, list0: Option<seq<Int64>>, w: RW.World<Int64>, e0: Entry, e: Entry)
    requires CallsOver(stages, pcs, s, list0, w, e0, e)
    ensures e.heights == RW.Content(w.list)
  {
  }

  /** The protocol run on the contract's list, once all calls are over. */
  lemma HeightLists(db0: DB, stages: seq<Stage>, s: string, schedule: seq<nat>)
    requires AllAccepted(stages) && IsScid(s) && Typed(db0) && EntryOk(Abs(db0, s))
    requires Complete(Run(stages, Start(db0, stages), schedule))
    requires Typed(Run(stages, Start(db0, stages), schedule).db)
    ensures var list0, w := ReadHeights(db0, s), HeightsWorld(db0, stages, s, schedule);
      RW.WorldOk(s, HeightWriters(stages), HeightId, list0, w) &&
      RW.CallsFiled(s, HeightWriters(stages), HeightId, w) &&
      (forall i | 0 <= i < |stages| && HeightWriter(stages[i]).key == s :: w.phases[i] == RW.Done) &&
      Abs(db0, s).heights == RW.Content(list0) &&
      Abs(Run(stages, Start(db0, stages), schedule).db, s).heights == RW.Content(w.list)
  {
    hide IsScid, Typed, Abs, Accepted, Run, Start, HeightsWorld, RW.WorldOk, RW.CallsFiled, ReadHeights;
    HeightsAreRead(db0, s);
    HeightsAreRead(Run(stages, Start(db0, stages), schedule).db, s);
    assert RW.DistinctIds(RW.Content(ReadHeights(db0, s)), HeightId);
    HeightsRunProjects(db0, stages, s, schedule);
    HeightsWorldOk(db0, stages, s, schedule);
    HeightsFiled(db0, stages, s, schedule);
  }

  /** Any overlapping calls, all over, on a store where the heights match: for every contract the
      interaction heights are exactly the heights of its records if and only if its height list has lost
      nothing. */
  lemma BoundaryIff(db0: DB, stages: seq<Stage>, s: string, schedule: seq<nat>)
    requires AllAccepted(stages) && ColonFree(stages) && IsScid(s)
    requires Typed(db0) && (forall t | IsScid(t) :: EntryOk(Abs(db0, t))) && HeightsMatch(Abs(db0, s))
    requires Complete(Run(stages, Start(db0, stages), schedule))
    ensures Typed(Run(stages, Start(db0, stages), schedule).db)
    ensures HeightsMatch(Abs(Run(stages, Start(db0, stages), schedule).db, s)) <==>
      RW.NothingLost(HeightWriters(stages), HeightsWorld(db0, stages, s, schedule))
  {
    hide IsScid, Typed, Abs, EntryOk, Accepted, Run, Start, HeightsWorld, RW.WorldOk, RW.CallsFiled, InvokedAt;
    hide RW.NothingLost, HeightsMatch, ReadHeights;
    var sys, w := Run(stages, Start(db0, stages), schedule), HeightsWorld(db0, stages, s, schedule);
    RunOk(db0, stages, schedule);
    HeightLists(db0, stages, s, schedule);
    forall h ensures InvokedAt(Abs(sys.db, s), h) <==> InvokedAt(Abs(db0, s), h) || Recorded(stages, sys.pcs, s, h) {
      RunRecords(db0, stages, schedule, s, h);
    }
    assert s != "" by { ScidNotEmpty(s); }
    MatchIffKept(stages, sys.pcs, s, ReadHeights(db0, s), w, Abs(db0, s), Abs(sys.db, s));
  }
}
