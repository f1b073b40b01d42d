/** The answers of the query layer over whole runs of the writer. */
module Queries {
  import opened Decimal
  import opened Variables
  import opened Records
  import opened FlatStore
  import opened TypedIndex
  import opened Interleaving
  import opened IndexInvariant
  import opened InteractionIndex
  import opened Views
  import opened BboltStore
  import opened Float64

  /** The empty store is one that the lemmas about runs may start from. */
  lemma EmptyStoreOk(scid: string, install: Int64)
    requires IsScid(scid)
    ensures Typed(map[]) && EntryOk(Abs(map[], scid)) && HeightsMatch(Abs(map[], scid))
    ensures InstallFirst(Abs(map[], scid), install)
  {
  }

  /** Equal buckets, height lists compared as sets: every query gives the same answer. */
  ghost predicate SameAnswers(db: DB, db': DB, scid: string, t: Int64) {
    // variables of a contract, at a height, at all heights, and behind the two value queries
    CursorSnapshots(BucketOf(db, VarsBucket(scid))) == CursorSnapshots(BucketOf(db', VarsBucket(scid))) &&
    AsWritten(HeightsOf(db, scid), t) == AsWritten(HeightsOf(db', scid), t) &&
    (forall h :: h in HeightsOf(db, scid) <==> h in HeightsOf(db', scid)) &&
    // invocations
    InvokeListing(BucketOf(db, scid)) == InvokeListing(BucketOf(db', scid)) &&
    // owners, headers, classes, tags and install heights
    (forall f :: BucketOf(db, FieldName(f)) == BucketOf(db', FieldName(f)))
  }

  /** Workers may deliver the stages in any order and more than once: every query about any contract
      at any height is answered the same. */
  lemma AnswersAreOrderIndependent(db0: DB, p: seq<Stage>, q: seq<Stage>, scid: string, t: Int64)
    requires AllAccepted(p) && AllAccepted(q) && ConflictFree(p) && SameStages(p, q) && Typed(db0) && IsScid(scid)
    ensures SameAnswers(SerialRun(db0, p), SerialRun(db0, q), scid, t)
  {
    hide Accepted, ConflictFree, SameStages, Typed, AsWritten, CursorSnapshots, InvokeListing, SerialRun, HeightsOf;
    SerialOrderIndependence(db0, p, q);
    var a, b := SerialRun(db0, p), SerialRun(db0, q);
    OnlyHeightsBuckets(scid);
    assert BucketOf(a, VarsBucket(scid)) == BucketOf(b, VarsBucket(scid));
    assert BucketOf(a, scid) == BucketOf(b, scid);
    assert forall f :: !IsHeightsBucket(FieldName(f));
    OrderDoesNotMatter(HeightsOf(a, scid), HeightsOf(b, scid), t);
  }

  lemma OnlyHeightsBuckets(scid: string)
    requires IsScid(scid)
    ensures !IsHeightsBucket(scid) && !IsHeightsBucket(VarsBucket(scid))
    ensures forall f :: !IsHeightsBucket(FieldName(f))
  {
    forall s | IsScid(s) ensures HeightsBucket(s) != scid && HeightsBucket(s) != VarsBucket(scid) {
      NamesDistinct(scid, s);
      NamesDistinct(s, scid);
    }
    assert forall s | IsScid(s) :: |HeightsBucket(s)| == 71;
  }

  /** All queues with these stages, in any order and with any repetitions, leave the same buckets, the
      height lists left aside. */
  ghost predicate OrderFree(db0: DB, p: seq<Stage>) {
    forall q, r, bucket: string | SameStages(p, q) && SameStages(p, r) && !IsHeightsBucket(bucket) ::
      BucketOf(SerialRun(db0, q), bucket) == BucketOf(SerialRun(db0, r), bucket)
  }

  /** That holds exactly when the stages agree wherever they write the same thing. */
  lemma OrderFreeIff(db0: DB, p: seq<Stage>)
    requires AllAccepted(p) && Typed(db0)
    ensures OrderFree(db0, p) <==> ConflictFree(p)
  {
    hide Accepted, Agree, Typed, IsHeightsBucket, SerialRun;
    if ConflictFree(p) {
      forall q, r, bucket: string | SameStages(p, q) && SameStages(p, r) && !IsHeightsBucket(bucket)
        ensures BucketOf(SerialRun(db0, q), bucket) == BucketOf(SerialRun(db0, r), bucket)
      {
        AcceptedTransfers(p, q);
        AcceptedTransfers(p, r);
        ConflictFreeTransfers(p, q);
        SerialOrderIndependence(db0, q, r);
      }
    }
    if OrderFree(db0, p) {
      forall i, j | 0 <= i < |p| && 0 <= j < |p| ensures Agree(p[i], p[j]) {
        assert SameStages(p, p + [p[i]]) && SameStages(p, p + [p[j]]);
        OneMoreStage(db0, p, p[i]);
        OneMoreStage(db0, p, p[j]);
        AcceptedAt(p, i);
        AcceptedAt(p, j);
        SerialTyped(db0, p);
        SameEffectAgrees(SerialRun(db0, p), p[i], p[j]);
      }
    }
  }

  lemma AcceptedTransfers(p: seq<Stage>, q: seq<Stage>)
    requires AllAccepted(p) && SameStages(p, q)
    ensures AllAccepted(q)
  {
    hide Accepted;
    forall i | 0 <= i < |q| ensures Accepted(q[i]) {
      assert q[i] in p;
    }
  }

  lemma AcceptedAt(p: seq<Stage>, i: nat)
    requires AllAccepted(p) && i < |p|
    ensures Accepted(p[i])
  {
  }

  lemma OneMoreStage(db0: DB, p: seq<Stage>, stage: Stage)
    ensures SerialRun(db0, p + [stage]) == AddStage(SerialRun(db0, p), stage).0
  {
    hide AddStage;
    assert (p + [stage])[..|p|] == p;
  }

  /** Two calls that leave the same buckets on the same store agree. */
  lemma SameEffectAgrees(db: DB, a: Stage, b: Stage)
    requires Typed(db) && Accepted(a) && Accepted(b)
    requires forall bucket | !IsHeightsBucket(bucket) ::
      BucketOf(AddStage(db, a).0, bucket) == BucketOf(AddStage(db, b).0, bucket)
    ensures Agree(a, b)
  {
    hide Typed, Abs, AddStage, IsScid, InvokeKey, IsHeightsBucket;
    var s := a.tx.scid;
    if s == b.tx.scid {
      AddStageRefines(db, a, s);
      AddStageRefines(db, b, s);
      var e, e' := Abs(AddStage(db, a).0, s), Abs(AddStage(db, b).0, s);
      OnlyHeightsBuckets(s);
      SameBucketsSameEntry(AddStage(db, a).0, AddStage(db, b).0, s);
      assert e.snapshots[a.tx.height] == a.scVars && e'.snapshots[b.tx.height] == b.scVars;
      if a.tx.kind == b.tx.kind == "invoke" {
        assert e.invokes[KeyOfInvoke(a.tx)] == a.tx && e'.invokes[KeyOfInvoke(b.tx)] == b.tx;
      }
    }
  }

  lemma SameBucketsSameEntry(db: DB, db': DB, s: string)
    requires Typed(db) && Typed(db') && IsScid(s)
    requires BucketOf(db, s) == BucketOf(db', s) && BucketOf(db, VarsBucket(s)) == BucketOf(db', VarsBucket(s))
    requires forall f :: BucketOf(db, FieldName(f)) == BucketOf(db', FieldName(f))
    ensures Abs(db, s).owner == Abs(db', s).owner && Abs(db, s).invokes == Abs(db', s).invokes
    ensures Abs(db, s).snapshots == Abs(db', s).snapshots
  {
    hide IsScid, FieldName, SnapshotsIn, InvokesIn, HeightsOf;
    assert ContractOk(db, s) && ContractOk(db', s);
  }

  // ---- What a run leaves for one contract ----

  /** Stage i is the last of the run that stores an invocation of contract s under key k. */
  ghost predicate LastInvoke(stages: seq<Stage>, s: string, k: string, i: int)
    requires AllAccepted(stages)
  {
    0 <= i < |stages| && StoresInvoke(stages[i], s, k) &&
    forall j | i < j < |stages| :: !StoresInvoke(stages[j], s, k)
  }

  /** The record is the last one of the run under some key. */
  ghost predicate IsLastRecord(stages: seq<Stage>, s: string, tx: SCTXParse)
    requires AllAccepted(stages)
  {
    exists k, i :: LastInvoke(stages, s, k, i) && stages[i].tx == tx
  }

  predicate StoresInvoke(stage: Stage, s: string, k: string)
    requires Accepted(stage)
  {
    stage.tx.kind == "invoke" && stage.tx.scid == s && KeyOfInvoke(stage.tx) == k
  }

  /** Under each key a run leaves the record stored last. */
  lemma {:induction false} LastInvokeIsKept(db0: DB, stages: seq<Stage>, s: string, k: string, i: nat)
    requires AllAccepted(stages) && IsScid(s) && Typed(db0) && LastInvoke(stages, s, k, i)
    ensures Typed(SerialRun(db0, stages))
    ensures k in Abs(SerialRun(db0, stages), s).invokes && Abs(SerialRun(db0, stages), s).invokes[k] == stages[i].tx
  {
    hide Typed, Abs, AddStage, KeyOfInvoke, IsScid;
    var n := |stages| - 1;
    SerialTyped(db0, stages[..n]);
    AddStageRefines(SerialRun(db0, stages[..n]), stages[n], s);
    if i < n {
      assert !StoresInvoke(stages[n], s, k);
      LastInvokeIsKept(db0, stages[..n], s, k, i);
    }
  }

  lemma {:induction false} SerialTyped(db0: DB, stages: seq<Stage>)
    requires AllAccepted(stages) && Typed(db0)
    ensures Typed(SerialRun(db0, stages))
  {
    hide Typed, AddStage;
    if stages != [] {
      var n := |stages| - 1;
      SerialTyped(db0, stages[..n]);
      AddStageRefines(SerialRun(db0, stages[..n]), stages[n], stages[n].tx.scid);
    }
  }

  /** The record was there before the run, under a key the run does not store under. */
  ghost predicate IsOlderRecord(db0: DB, stages: seq<Stage>, s: string, tx: SCTXParse)
    requires AllAccepted(stages)
  {
    exists k :: k in BucketOf(db0, s) && TxIn(BucketOf(db0, s)[k]) == tx && NeverStored(stages, s, k)
  }

  ghost predicate NeverStored(stages: seq<Stage>, s: string, k: string)
    requires AllAccepted(stages)
  {
    forall i | 0 <= i < |stages| :: !StoresInvoke(stages[i], s, k)
  }

  /** Over any run from any well-formed store, the details query of a contract returns exactly the last
      record of every key, one per key, heights never falling: the last of the run, or the older one
      where the run stores none. */
  lemma DetailsOverARun(db0: DB, stages: seq<Stage>, s: string)
    requires AllAccepted(stages) && IsScid(s) && Typed(db0)
    ensures var r := InvokeListing(BucketOf(SerialRun(db0, stages), s));
      (forall tx :: tx in r <==> IsLastRecord(stages, s, tx) || IsOlderRecord(db0, stages, s, tx)) &&
      |r| == |BucketOf(SerialRun(db0, stages), s)| &&
      forall i, j | 0 <= i < j < |r| :: r[i].height <= r[j].height
  {
    hide IsScid, Accepted, SerialRun, IsLastRecord, IsOlderRecord, InvokesOk, InvokeListing;
    var b := BucketOf(SerialRun(db0, stages), s);
    RunInvokesOk(db0, stages, s);
    forall tx ensures tx in InvokeListing(b) <==> IsLastRecord(stages, s, tx) || IsOlderRecord(db0, stages, s, tx) {
      RecordsOfRun(db0, stages, s, tx);
      ListingMembers(b, tx);
    }
    ListingOrder(b);
  }

  lemma ListingMembers(b: Bucket, tx: SCTXParse)
    requires InvokesOk(b)
    ensures tx in InvokeListing(b) <==> exists k :: k in b && b[k].tx == tx
  {
    hide InvokeListing;
    InvokeListingOk(b);
  }

  lemma ListingOrder(b: Bucket)
    requires InvokesOk(b)
    ensures |InvokeListing(b)| == |b|
    ensures forall i, j | 0 <= i < j < |InvokeListing(b)| :: InvokeListing(b)[i].height <= InvokeListing(b)[j].height
  {
    hide InvokeListing;
    InvokeListingOk(b);
  }

  lemma TypedInvokes(db: DB, s: string)
    requires Typed(db) && IsScid(s)
    ensures InvokesOk(BucketOf(db, s)) && Abs(db, s).invokes == InvokesIn(BucketOf(db, s))
  {
    hide IsScid, OwnersOk, VarsOk, HeightsOk, InvokesOk, InvokesIn, SnapshotsOf, OwnerIn, HeightsOf;
    assert ContractOk(db, s);
  }

  lemma RunInvokesOk(db0: DB, stages: seq<Stage>, s: string)
    requires AllAccepted(stages) && IsScid(s) && Typed(db0)
    ensures InvokesOk(BucketOf(SerialRun(db0, stages), s))
  {
    hide IsScid, Accepted, SerialRun, Typed, InvokesOk;
    SerialTyped(db0, stages);
    TypedInvokes(SerialRun(db0, stages), s);
  }

  /** A key the run does not store under keeps its record, if it has one. */
  lemma {:induction false} OlderIsKept(db0: DB, stages: seq<Stage>, s: string, k: string)
    requires AllAccepted(stages) && IsScid(s) && Typed(db0) && NeverStored(stages, s, k)
    ensures Typed(SerialRun(db0, stages))
    ensures var before, after := Abs(db0, s).invokes, Abs(SerialRun(db0, stages), s).invokes;
      (k in after <==> k in before) && (k in before ==> after[k] == before[k])
  {
    hide Typed, Abs, AddStage, KeyOfInvoke, IsScid;
    if stages != [] {
      var n := |stages| - 1;
      assert !StoresInvoke(stages[n], s, k);
      OlderIsKept(db0, stages[..n], s, k);
      AddStageRefines(SerialRun(db0, stages[..n]), stages[n], s);
    }
  }

  lemma {:induction false} LastStored(stages: seq<Stage>, s: string, k: string) returns (i: nat)
    requires AllAccepted(stages) && !NeverStored(stages, s, k)
    ensures LastInvoke(stages, s, k, i)
  {
    hide StoresInvoke, Accepted;
    var n := |stages| - 1;
    if StoresInvoke(stages[n], s, k) {
      i := n;
    } else {
      i := LastStored(stages[..n], s, k);
    }
  }

  lemma RecordsOfRun(db0: DB, stages: seq<Stage>, s: string, tx: SCTXParse)
    requires AllAccepted(stages) && IsScid(s) && Typed(db0)
    ensures var b := BucketOf(SerialRun(db0, stages), s);
      InvokesOk(b) &&
      ((exists k :: k in b && b[k].tx == tx) <==>
        IsLastRecord(stages, s, tx) || IsOlderRecord(db0, stages, s, tx))
  {
    hide IsScid, Accepted, SerialRun, StoresInvoke, Typed, Abs, NeverStored;
    SerialTyped(db0, stages);
    var db := SerialRun(db0, stages);
    TypedInvokes(db0, s);
    TypedInvokes(db, s);
    var b := BucketOf(db, s);
    if k :| k in b && b[k].tx == tx {
      if NeverStored(stages, s, k) {
        OlderIsKept(db0, stages, s, k);
      } else {
        var i := LastStored(stages, s, k);
        LastInvokeIsKept(db0, stages, s, k, i);
      }
    }
    if IsLastRecord(stages, s, tx) {
      var k, i :| LastInvoke(stages, s, k, i) && stages[i].tx == tx;
      LastInvokeIsKept(db0, stages, s, k, i);
      assert k in b && b[k].tx == tx;
    }
    if IsOlderRecord(db0, stages, s, tx) {
      var k :| k in BucketOf(db0, s) && TxIn(BucketOf(db0, s)[k]) == tx && NeverStored(stages, s, k);
      OlderIsKept(db0, stages, s, k);
      assert k in b && b[k].tx == tx;
    }
  }

  // ---- Value queries over a run ----

  /** The heights a run of calls can leave for a contract: all snapshots lie at an install height or
      an interaction height. */
  ghost predicate InstallFirst(e: Entry, install: Int64) {
    (forall h | h in e.snapshots :: h == install || h in e.heights) && forall h | h in e.heights :: install <= h
  }

  /** In the run the contract is only installed at that height, or invoked from there on. */
  ghost predicate InstalledOnce(stages: seq<Stage>, s: string, install: Int64) {
    forall i | 0 <= i < |stages| && stages[i].tx.scid == s ::
      (stages[i].tx.kind == "install" && stages[i].tx.height == install) ||
      (stages[i].tx.kind == "invoke" && stages[i].tx.height >= install)
  }

  /** A contract is installed once and then only invoked: the run keeps its snapshots at the install
      height and the interaction heights. */
  lemma {:induction false} InstallFirstKept(db0: DB, stages: seq<Stage>, s: string, install: Int64)
    requires AllAccepted(stages) && IsScid(s) && Typed(db0) && InstallFirst(Abs(db0, s), install)
    requires InstalledOnce(stages, s, install)
    ensures Typed(SerialRun(db0, stages)) && InstallFirst(Abs(SerialRun(db0, stages), s), install)
  {
    hide Typed, Abs, AddStage, KeyOfInvoke, IsScid;
    if stages != [] {
      var n := |stages| - 1;
      InstallFirstKept(db0, stages[..n], s, install);
      AddStageRefines(SerialRun(db0, stages[..n]), stages[n], s);
    }
  }

  /** What a value query at t shows for such a contract, for every t, on any well-formed store. */
  ghost predicate QueriedView(snaps: Snapshots, install: Int64, hs: seq<Int64>, t: Int64) {
    // from t = 0 on, a key is answered as at t exactly when nothing new is said above the height in use
    (0 <= t ==> forall k ::
      SameAnswer(UpTo(snaps, AsWritten(hs, t)), UpTo(snaps, t), k) <==> NothingNew(snaps, AsWritten(hs, t), t, k)) &&
    // not invoked yet: nothing is answered, at the intended height either
    (0 < install && (hs == [] || 0 <= t < Least(hs)) ==>
      AsWritten(hs, t) == Intended(hs, t) == 0 && forall k, v :: !Answers(UpTo(snaps, 0), k, v)) &&
    // invoked: the intended height shows the view at t, the one in use that of the first interaction
    (hs != [] && Least(hs) <= t && 0 <= t ==>
      UpTo(snaps, Intended(hs, t)) == UpTo(snaps, t) &&
      (t <= Greatest(hs) ==> UpTo(snaps, AsWritten(hs, t)) == UpTo(snaps, Least(hs)))) &&
    // a negative t or one beyond all interactions: all snapshots
    (hs != [] && (t < 0 || t > Greatest(hs)) ==> UpTo(snaps, AsWritten(hs, t)) == snaps)
  }

  lemma QueriedViewOf(snaps: Snapshots, install: Int64, hs: seq<Int64>, t: Int64)
    requires (forall h | h in snaps :: h == install || h in hs) && forall h | h in hs :: install <= h
    ensures QueriedView(snaps, install, hs, t)
  {
    hide UpTo, SameAnswer, NothingNew, AsWritten, Intended, Answers;
    assert hs != [] ==> Least(hs) in hs;
    WrittenView(snaps, install, hs, t);
    if 0 <= t {
      forall k ensures
        SameAnswer(UpTo(snaps, AsWritten(hs, t)), UpTo(snaps, t), k) <==> NothingNew(snaps, AsWritten(hs, t), t, k)
      {
        AnsweredAsAtIff(snaps, hs, t, k);
      }
    }
    if 0 < install && (hs == [] || 0 <= t < Least(hs)) {
      NotYetInvoked(snaps, install, hs, t, Nil);
      forall k, v ensures !Answers(UpTo(snaps, 0), k, v) {
        NotYetInvoked(snaps, install, hs, t, k);
      }
    }
    if hs != [] && Least(hs) <= t && 0 <= t {
      IntendedViewIsViewAt(snaps, install, hs, t);
    }
  }

  /** After any run in which the contract is installed once and then invoked. */
  lemma QueriedViewOverARun(db0: DB, stages: seq<Stage>, s: string, install: Int64, t: Int64)
    requires AllAccepted(stages) && IsScid(s) && Typed(db0) && InstallFirst(Abs(db0, s), install)
    requires InstalledOnce(stages, s, install)
    ensures var db := SerialRun(db0, stages);
      QueriedView(CursorSnapshots(BucketOf(db, VarsBucket(s))), install, HeightsOf(db, s), t)
  {
    hide IsScid, Accepted, SerialRun, OwnersOk, InvokesOk, HeightsOk, HeightsOf;
    hide CursorSnapshots, VarsBucket, QueriedView;
    var db := SerialRun(db0, stages);
    InstallFirstKept(db0, stages, s, install);
    assert ContractOk(db, s);
    CursorSnapshotsTyped(BucketOf(db, VarsBucket(s)));
    var hs := HeightsOf(db, s);
    var snaps := CursorSnapshots(BucketOf(db, VarsBucket(s)));
    assert snaps == Abs(db, s).snapshots && hs == Abs(db, s).heights;
    QueriedViewOf(snaps, install, hs, t);
  }

  // ---- The answers of the two value queries over a run ----

  lemma SameValues(a: Snapshots, b: Snapshots, key: Any, vs: seq<string>, vu: seq<Uint64>)
    requires AreValuesOf(vs, vu, a, key)
    ensures AreValuesOf(vs, vu, b, key) <==> SameAnswer(a, b, key)
  {
    hide Answers;
    if AreValuesOf(vs, vu, b, key) {
      forall v ensures Answers(a, key, v) <==> Answers(b, key, v) {
        if Answers(a, key, v) { AnswersAreScalars(a, key, v); }
        if Answers(b, key, v) { AnswersAreScalars(b, key, v); }
      }
    }
  }

  /** After any run in which the contract is installed once and then invoked: before the first invocation
      the values query answers nothing; from t = 0 on its answer is the one at t exactly when nothing new is
      said above the height in use; for a negative t or beyond all invocations it is the latest. */
  lemma ValuesOverARun(
    db0: DB, stages: seq<Stage>, s: string, install: Int64, t: Int64, key: Any, vs: seq<string>, vu: seq<Uint64>)
    requires AllAccepted(stages) && IsScid(s) && Typed(db0) && InstallFirst(Abs(db0, s), install)
    requires InstalledOnce(stages, s, install)
    requires ValuesAnswered(SerialRun(db0, stages), s, t, key, vs, vu)
    ensures var db := SerialRun(db0, stages);
      var snaps, hs := CursorSnapshots(BucketOf(db, s + "vars")), HeightsOf(db, s);
      (0 < install && (hs == [] || 0 <= t < Least(hs)) ==> vs == [] && vu == []) &&
      (0 <= t ==> (AreValuesOf(vs, vu, UpTo(snaps, t), key) <==> NothingNew(snaps, AsWritten(hs, t), t, key))) &&
      (hs != [] && (t < 0 || t > Greatest(hs)) ==> AreValuesOf(vs, vu, snaps, key))
  {
    hide IsScid, Accepted, SerialRun, Typed, Abs, HeightsOf, CursorSnapshots, AreValuesOf, UpTo, NothingNew;
    hide SameAnswer, Answers, InstallFirst;
    QueriedViewOverARun(db0, stages, s, install, t);
    var db := SerialRun(db0, stages);
    var snaps, hs := CursorSnapshots(BucketOf(db, s + "vars")), HeightsOf(db, s);
    assert AreValuesOf(vs, vu, UpTo(snaps, AsWritten(hs, t)), key);
    if 0 <= t {
      SameValues(UpTo(snaps, AsWritten(hs, t)), UpTo(snaps, t), key, vs, vu);
    }
    if 0 < install && (hs == [] || 0 <= t < Least(hs)) {
      NoValues(UpTo(snaps, 0), key, vs, vu);
    }
  }

  lemma HasElement<T>(xs: seq<T>)
    ensures xs == [] || exists x :: x in xs
  {
    if xs != [] {
      assert xs[0] in xs;
    }
  }

  lemma NoValues(snaps: Snapshots, key: Any, vs: seq<string>, vu: seq<Uint64>)
    requires AreValuesOf(vs, vu, snaps, key) && forall k, v :: !Answers(snaps, k, v)
    ensures vs == [] && vu == []
  {
    hide Answers;
    HasElement(vs);
    HasElement(vu);
  }

  /** The same for the keys query, for all keys at once. */
  lemma KeysOverARun(
    db0: DB, stages: seq<Stage>, s: string, install: Int64, t: Int64, val: Any, ks: seq<string>, ku: seq<Uint64>)
    requires AllAccepted(stages) && IsScid(s) && Typed(db0) && InstallFirst(Abs(db0, s), install)
    requires InstalledOnce(stages, s, install)
    requires KeysAnswered(SerialRun(db0, stages), s, t, val, ks, ku)
    ensures var db := SerialRun(db0, stages);
      var snaps, hs := CursorSnapshots(BucketOf(db, s + "vars")), HeightsOf(db, s);
      (0 < install && (hs == [] || 0 <= t < Least(hs)) ==> ks == [] && ku == []) &&
      (0 <= t && (forall k :: NothingNew(snaps, AsWritten(hs, t), t, k)) ==> AreKeysOf(ks, ku, UpTo(snaps, t), val)) &&
      (hs != [] && (t < 0 || t > Greatest(hs)) ==> AreKeysOf(ks, ku, snaps, val))
  {
    hide IsScid, Accepted, SerialRun, Typed, Abs, HeightsOf, CursorSnapshots, AreKeysOf, UpTo, NothingNew;
    hide SameAnswer, Answers, InstallFirst;
    QueriedViewOverARun(db0, stages, s, install, t);
    var db := SerialRun(db0, stages);
    var snaps, hs := CursorSnapshots(BucketOf(db, s + "vars")), HeightsOf(db, s);
    assert AreKeysOf(ks, ku, UpTo(snaps, AsWritten(hs, t)), val);
    if 0 <= t && forall k :: NothingNew(snaps, AsWritten(hs, t), t, k) {
      SameKeys(UpTo(snaps, AsWritten(hs, t)), UpTo(snaps, t), val, ks, ku);
    }
    if 0 < install && (hs == [] || 0 <= t < Least(hs)) {
      NoKeys(UpTo(snaps, 0), val, ks, ku);
    }
  }

  lemma SameKeys(a: Snapshots, b: Snapshots, val: Any, ks: seq<string>, ku: seq<Uint64>)
    requires AreKeysOf(ks, ku, a, val) && forall k :: SameAnswer(a, b, k)
    ensures AreKeysOf(ks, ku, b, val)
  {
    hide Answers;
    assert forall s: string :: SameAnswer(a, b, Text(s));
    assert forall n: Uint64 :: SameAnswer(a, b, Uint(n));
  }

  lemma NoKeys(snaps: Snapshots, val: Any, ks: seq<string>, ku: seq<Uint64>)
    requires AreKeysOf(ks, ku, snaps, val) && forall k, v :: !Answers(snaps, k, v)
    ensures ks == [] && ku == []
  {
    hide Answers;
    HasElement(ks);
    HasElement(ku);
  }
}
