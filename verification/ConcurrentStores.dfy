/** The two lists of the store that concurrent callers extend, seen on the flat store: each list is
    an instance of the read-then-write protocol, undisturbed by calls for other keys. */
module ConcurrentStores {
  import opened Wrappers
  import opened Decimal
  import opened Records
  import opened FlatStore
  import opened TypedIndex
  import opened Interleaving
  import RW = ReadThenWrite

  // ---- StoreNormalTxWithSCIDByAddr, called by the transaction workers ----

  datatype TxPhase = TxIdle | TxHolding(read: Option<seq<NormalTx>>) | TxDone

  datatype TxSys = TxSys(db: DB, phases: seq<TxPhase>)

  function TxId(t: NormalTx): string { t.txid }

  /** The second transaction; for the empty address bolt refuses the key and rolls back. */
  function WriteTxs(db: DB, addr: string, read: Option<seq<NormalTx>>, tx: NormalTx): DB {
    if addr == "" then db else CommitTxs(db, addr, read, tx)
  }

  function TxStep(ws: seq<RW.Writer<NormalTx>>, sys: TxSys, i: nat): (r: TxSys)
    requires |sys.phases| == |ws|
    ensures |r.phases| == |ws|
  {
    if i >= |ws| then sys
    else
      match sys.phases[i]
      case TxIdle => sys.(phases := sys.phases[i := TxHolding(ReadTxs(sys.db, ws[i].key))])
      case TxHolding(read) => TxSys(WriteTxs(sys.db, ws[i].key, read, ws[i].item), sys.phases[i := TxDone])
      case TxDone => sys
  }

  function TxRun(ws: seq<RW.Writer<NormalTx>>, sys: TxSys, schedule: seq<nat>): (r: TxSys)
    requires |sys.phases| == |ws|
    ensures |r.phases| == |ws|
  {
    if schedule == [] then sys
    else TxStep(ws, TxRun(ws, sys, schedule[..|schedule| - 1]), schedule[|schedule| - 1])
  }

  function TxStart(db: DB, ws: seq<RW.Writer<NormalTx>>): (r: TxSys)
    ensures |r.phases| == |ws|
  {
    TxSys(db, seq(|ws|, _ => TxIdle))
  }

  ghost predicate SamePhase(p: TxPhase, q: RW.Phase<NormalTx>) {
    match p
    case TxIdle => q.Idle?
    case TxHolding(read) => q.Holding? && q.read == read
    case TxDone => q.Done?
  }

  ghost predicate Projects(ws: seq<RW.Writer<NormalTx>>, addr: string, sys: TxSys, w: RW.World<NormalTx>) {
    |sys.phases| == |ws| == |w.phases| && w.list == ReadTxs(sys.db, addr) &&
    forall i | 0 <= i < |ws| && ws[i].key == addr :: SamePhase(sys.phases[i], w.phases[i])
  }

  lemma PresentTx(list: seq<NormalTx>, tx: NormalTx)
    ensures RW.Present(list, tx, TxId) == HasTxid(list, tx.txid)
  {
    assert forall i | 0 <= i < |list| :: TxId(list[i]) == list[i].txid;
  }

  /** Writing one address's list leaves every other address's list. */
  lemma WriteTxsAt(db: DB, addr: string, read: Option<seq<NormalTx>>, tx: NormalTx, other: string)
    requires addr != ""
    ensures var present := read.Some? && HasTxid(read.value, tx.txid);
      ReadTxs(WriteTxs(db, addr, read, tx), other) ==
        if other == addr && !present then Some(RW.Content(read) + [tx]) else ReadTxs(db, other)
  {
    assert read.None? ==> RW.Content(read) + [tx] == [tx];
  }

  lemma TxStepProjects(ws: seq<RW.Writer<NormalTx>>, addr: string, sys: TxSys, w: RW.World<NormalTx>, i: nat)
    requires addr != "" && Projects(ws, addr, sys, w)
    ensures Projects(ws, addr, TxStep(ws, sys, i), RW.Step(addr, ws, TxId, w, i))
  {
    if i < |ws| && sys.phases[i].TxHolding? && ws[i].key != "" {
      var read := sys.phases[i].read;
      WriteTxsAt(sys.db, ws[i].key, read, ws[i].item, addr);
      PresentTx(RW.Content(read), ws[i].item);
      assert read.None? ==> RW.Content(read) + [ws[i].item] == [ws[i].item];
    }
  }

  lemma {:induction false} TxRunProjects(db: DB, ws: seq<RW.Writer<NormalTx>>, addr: string, schedule: seq<nat>)
    requires addr != ""
    ensures Projects(ws, addr, TxRun(ws, TxStart(db, ws), schedule),
      RW.Run(addr, ws, TxId, RW.Start(ws, ReadTxs(db, addr)), schedule))
  {
    hide TxStep, RW.Step;
    if schedule != [] {
      var n := |schedule| - 1;
      TxRunProjects(db, ws, addr, schedule[..n]);
      TxStepProjects(ws, addr, TxRun(ws, TxStart(db, ws), schedule[..n]),
        RW.Run(addr, ws, TxId, RW.Start(ws, ReadTxs(db, addr)), schedule[..n]), schedule[n]);
    }
  }

  /** What the protocol gives for one list: no entry twice; every committed list is an earlier one
      plus one item; the list is the first one followed by the items of the commits it goes back to;
      nothing is lost exactly when each committed item is among those, which for writers that bring
      different items means that no commit fell between a committing writer's read and its write. */
  ghost predicate ListKept<T, I>(
    key: string, ws: seq<RW.Writer<T>>, id: T -> I, list0: Option<seq<T>>, w: RW.World<T>)
  {
    RW.WorldOk(key, ws, id, list0, w) && RW.DistinctIds(RW.Content(w.list), id) && RW.LogOk(ws, w.log) &&
    RW.Content(w.list) == RW.Content(list0) + RW.KeptItems(ws, w.log, |w.log|) &&
    (RW.NothingLost(ws, w) <==> RW.EachKept(ws, w.log)) &&
    (RW.DifferentItems(key, ws) ==> (RW.NothingLost(ws, w) <==> RW.AllFresh(w.log)))
  }

  lemma WorldKept<T, I>(key: string, ws: seq<RW.Writer<T>>, id: T -> I, list0: Option<seq<T>>, w: RW.World<T>)
    requires RW.WorldOk(key, ws, id, list0, w)
    ensures ListKept(key, ws, id, list0, w)
  {
    hide RW.KeptItems, RW.EachKept, RW.NothingLost, RW.AllFresh, RW.DifferentItems, RW.LogOk, RW.CommitOk;
    RW.NothingLostExactly(key, ws, id, list0, w);
    if RW.DifferentItems(key, ws) {
      RW.NothingLostIff(key, ws, id, list0, w);
    }
  }

  /** Any number of concurrent calls, any addresses, any interleaving: every address's list is kept by
      the protocol. */
  lemma ConcurrentTxs(db: DB, ws: seq<RW.Writer<NormalTx>>, addr: string, schedule: seq<nat>)
    requires addr != "" && RW.DistinctIds(RW.Content(ReadTxs(db, addr)), TxId)
    ensures var w := RW.Run(addr, ws, TxId, RW.Start(ws, ReadTxs(db, addr)), schedule);
      ReadTxs(TxRun(ws, TxStart(db, ws), schedule).db, addr) == w.list &&
      ListKept(addr, ws, TxId, ReadTxs(db, addr), w)
  {
    hide ListKept, RW.Run, TxRun, RW.WorldOk;
    TxRunProjects(db, ws, addr, schedule);
    RW.RunOk(addr, ws, TxId, ReadTxs(db, addr), schedule);
    WorldKept(addr, ws, TxId, ReadTxs(db, addr), RW.Run(addr, ws, TxId, RW.Start(ws, ReadTxs(db, addr)), schedule));
  }

  // ---- StoreSCIDInteractionHeight, called by concurrent AddSCIDToIndex calls ----

  function HeightId(h: Int64): Int64 { h }

  /** Only invocations take part, each on the list of its contract; no list has the empty key. */
  function HeightWriter(stage: Stage): RW.Writer<Int64> {
    RW.Writer(if stage.tx.kind == "invoke" then stage.tx.scid else "", stage.tx.height)
  }

  function HeightWriters(stages: seq<Stage>): (ws: seq<RW.Writer<Int64>>)
    ensures |ws| == |stages|
    ensures forall i | 0 <= i < |ws| :: ws[i] == HeightWriter(stages[i])
  {
    seq(|stages|, i requires 0 <= i < |stages| => HeightWriter(stages[i]))
  }

  /** The protocol run on the height list of contract s inside an interleaving: a call takes part
      with its last two transactions. */
  function HeightsWorld(db: DB, stages: seq<Stage>, s: string, schedule: seq<nat>): (w: RW.World<Int64>)
    requires AllAccepted(stages)
    ensures |w.phases| == |stages|
  {
    var ws := HeightWriters(stages);
    if schedule == [] then RW.Start(ws, ReadHeights(db, s))
    else
      var before := schedule[..|schedule| - 1];
      var i := schedule[|schedule| - 1];
      var w := HeightsWorld(db, stages, s, before);
      var pcs := Run(stages, Start(db, stages), before).pcs;
      if i < |stages| && (pcs[i].AtRead? || pcs[i].AtWrite?) then RW.Step(s, ws, HeightId, w, i) else w
  }

  ghost predicate PhaseOf(pc: Pc, q: RW.Phase<Int64>) {
    match pc
    case AtWrite(read) => q.Holding? && q.read == read
    case Finished => q.Done?
    case _ => q.Idle?
  }

  ghost predicate HeightsProject(stages: seq<Stage>, s: string, sys: Sys, w: RW.World<Int64>) {
    |sys.pcs| == |stages| == |w.phases| && w.list == ReadHeights(sys.db, s) &&
    forall i | 0 <= i < |stages| && HeightWriter(stages[i]).key == s :: PhaseOf(sys.pcs[i], w.phases[i])
  }

  lemma ScidNotEmpty(s: string)
    requires IsScid(s)
    ensures s != ""
  {
  }

  lemma PresentHeight(list: seq<Int64>, h: Int64)
    ensures RW.Present(list, h, HeightId) == (h in list)
  {
    assert forall i | 0 <= i < |list| :: HeightId(list[i]) == list[i];
  }

  /** No transaction of any call but a height commit of the same contract touches the list. */
  lemma StepReadsHeights(stage: Stage, db: DB, pc: Pc, s: string)
    requires Accepted(stage) && IsScid(s)
    ensures var read := if pc.AtWrite? then pc.read else None;
      ReadHeights(StepOf(stage, db, pc).0, s) ==
        if pc.AtWrite? && s == stage.tx.scid && stage.tx.height !in RW.Content(read)
        then Some(RW.Content(read) + [stage.tx.height]) else ReadHeights(db, s)
  {
    hide FormatInt, InvokeKey;
    var tx := stage.tx;
    NamesDistinct(s, tx.scid);
    NamesDistinct(tx.scid, s);
    match pc
    case AtRecord =>
      if tx.kind == "install" {
        PutOwnerFieldsElsewhere(db, tx.scid, OwnerOf(stage), |FIELDS|, HeightsBucket(s));
      }
    case AtWrite(read) => assert read.None? ==> RW.Content(read) + [tx.height] == [tx.height];
    case _ =>
  }

  lemma StepProjects(stages: seq<Stage>, s: string, sys: Sys, w: RW.World<Int64>, i: nat)
    requires AllAccepted(stages) && IsScid(s) && HeightsProject(stages, s, sys, w)
    requires i < |stages| && PcOk(stages[i], sys.pcs[i])
    ensures HeightsProject(stages, s, Step(stages, sys, i),
      if sys.pcs[i].AtRead? || sys.pcs[i].AtWrite? then RW.Step(s, HeightWriters(stages), HeightId, w, i) else w)
  {
    hide FormatInt, InvokeKey, IsScid, PutVars, PutOwner, PutInvoke, CommitHeights, ReadHeights;
    var stage, pc := stages[i], sys.pcs[i];
    ScidNotEmpty(s);
    StepReadsHeights(stage, sys.db, pc, s);
    if pc.AtWrite? {
      PresentHeight(RW.Content(pc.read), stage.tx.height);
      assert pc.read.None? ==> RW.Content(pc.read) + [stage.tx.height] == [stage.tx.height];
    }
  }

  lemma {:induction false} PcsOk(db: DB, stages: seq<Stage>, schedule: seq<nat>)
    requires AllAccepted(stages)
    ensures forall i | 0 <= i < |stages| :: PcOk(stages[i], Run(stages, Start(db, stages), schedule).pcs[i])
  {
    if schedule != [] {
      PcsOk(db, stages, schedule[..|schedule| - 1]);
    }
  }

  lemma {:induction false} HeightsRunProjects(db: DB, stages: seq<Stage>, s: string, schedule: seq<nat>)
    requires AllAccepted(stages) && IsScid(s)
    ensures HeightsProject(stages, s, Run(stages, Start(db, stages), schedule), HeightsWorld(db, stages, s, schedule))
  {
    hide IsScid, Accepted, StepOf, RW.Step, ReadHeights, PcOk;
    if schedule != [] {
      var n := |schedule| - 1;
      HeightsRunProjects(db, stages, s, schedule[..n]);
      PcsOk(db, stages, schedule[..n]);
      if schedule[n] < |stages| {
        StepProjects(stages, s, Run(stages, Start(db, stages), schedule[..n]),
          HeightsWorld(db, stages, s, schedule[..n]), schedule[n]);
      }
    }
  }

  lemma {:induction false} HeightsWorldOk(db: DB, stages: seq<Stage>, s: string, schedule: seq<nat>)
    requires AllAccepted(stages) && RW.DistinctIds(RW.Content(ReadHeights(db, s)), HeightId)
    ensures RW.WorldOk(s, HeightWriters(stages), HeightId, ReadHeights(db, s), HeightsWorld(db, stages, s, schedule))
  {
    hide Accepted, RW.Step, RW.CommitOk, ReadHeights;
    if schedule == [] {
      RW.RunOk(s, HeightWriters(stages), HeightId, ReadHeights(db, s), []);
    } else {
      var n := |schedule| - 1;
      HeightsWorldOk(db, stages, s, schedule[..n]);
      RW.StepOk(s, HeightWriters(stages), HeightId, ReadHeights(db, s),
        HeightsWorld(db, stages, s, schedule[..n]), schedule[n]);
    }
  }

  /** The same for the height list of every contract under any interleaving of whole calls. */
  lemma ConcurrentHeights(db: DB, stages: seq<Stage>, s: string, schedule: seq<nat>)
    requires AllAccepted(stages) && IsScid(s) && RW.DistinctIds(RW.Content(ReadHeights(db, s)), HeightId)
    ensures var w := HeightsWorld(db, stages, s, schedule);
      ReadHeights(Run(stages, Start(db, stages), schedule).db, s) == w.list &&
      ListKept(s, HeightWriters(stages), HeightId, ReadHeights(db, s), w)
  {
    hide Accepted, IsScid, ListKept, ReadHeights, Run, HeightsWorld, RW.WorldOk;
    HeightsRunProjects(db, stages, s, schedule);
    HeightsWorldOk(db, stages, s, schedule);
    WorldKept(s, HeightWriters(stages), HeightId, ReadHeights(db, s), HeightsWorld(db, stages, s, schedule));
  }
}
