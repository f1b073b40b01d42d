/** What a run of the writer leaves about installed contracts, and what the listings show of it. */
module Installs {
  import opened Decimal
  import opened GoStrings
  import opened Records
  import opened FlatStore
  import opened TypedIndex
  import opened Interleaving
  import opened Views

  /** Stage i is the last of the run that installs contract k. */
  ghost predicate LastInstall(stages: seq<Stage>, k: string, i: int) {
    0 <= i < |stages| && Installs(stages[i], k) && forall j | i < j < |stages| :: !Installs(stages[j], k)
  }

  ghost predicate NeverInstalled(stages: seq<Stage>, k: string) {
    forall i | 0 <= i < |stages| :: !Installs(stages[i], k)
  }

  predicate Installs(stage: Stage, k: string) {
    stage.tx.kind == "install" && stage.tx.scid == k
  }

  /** The store holds what this stage says about the contract, bucket by bucket. */
  predicate Installed(db: DB, k: string, stage: Stage) {
    Holds(db, "owner", k, stage.tx.sender) && Holds(db, "headers", k, stage.headers) &&
    Holds(db, "class", k, stage.className) && Holds(db, "tags", k, stage.tags) &&
    Holds(db, "height", k, FormatInt(stage.tx.height))
  }

  predicate SameAt(db: DB, db': DB, name: string, k: string) {
    (k in BucketOf(db, name) <==> k in BucketOf(db', name)) &&
    (k in BucketOf(db, name) ==> BucketOf(db, name)[k] == BucketOf(db', name)[k])
  }

  /** The two stores say the same about the contract. */
  predicate SameOwner(db: DB, db': DB, k: string) {
    SameAt(db, db', "owner", k) && SameAt(db, db', "headers", k) && SameAt(db, db', "class", k) &&
    SameAt(db, db', "tags", k) && SameAt(db, db', "height", k)
  }

  lemma OwnerFieldNames(f: Field)
    ensures FieldName(f) in {"owner", "headers", "class", "tags", "height"}
  {
  }

  /** The transactions of a call beside the install's put nothing in the five buckets. */
  lemma CallLeavesOwner(db: DB, db': DB, scid: string, name: string, k: string)
    requires IsScid(scid) && name in {scid, VarsBucket(scid), HeightsBucket(scid)} && SameExcept(db, db', name)
    ensures SameOwner(db, db', k)
  {
    NamesDistinct(scid, scid);
    assert FieldName(OwnerField) == "owner" && FieldName(HeadersField) == "headers";
    assert FieldName(ClassField) == "class" && FieldName(TagsField) == "tags" && FieldName(HeightField) == "height";
  }

  lemma PutOwnerElsewhere(db: DB, scid: string, o: Owner, k: string)
    requires k != scid
    ensures SameOwner(db, PutOwner(db, scid, o), k)
  {
    hide PutOwner, FieldText;
    PutOwnerAt(db, scid, o, OwnerField);
    PutOwnerAt(db, scid, o, HeadersField);
    PutOwnerAt(db, scid, o, ClassField);
    PutOwnerAt(db, scid, o, TagsField);
    PutOwnerAt(db, scid, o, HeightField);
  }

  /** An install leaves what it says; any other call, or one for another contract, what was there. */
  lemma AddStageInstalls(db: DB, stage: Stage, k: string)
    requires Accepted(stage)
    ensures if Installs(stage, k) then Installed(AddStage(db, stage).0, k, stage)
      else SameOwner(db, AddStage(db, stage).0, k)
  {
    hide PutOwner, FormatInt, InvokeKey, SameOwner, IsScid, Holds;
    var scid, tx := stage.tx.scid, stage.tx;
    ScidIsNotEmpty(stage);
    var db1 := PutVars(db, scid, stage.scVars, tx.height);
    CallLeavesOwner(db, db1, scid, VarsBucket(scid), k);
    if tx.kind == "install" {
      OwnerOnDisk(db1, scid, OwnerOf(stage));
      if k != scid {
        PutOwnerElsewhere(db1, scid, OwnerOf(stage), k);
        SameOwnerTwice(db, db1, AddStage(db, stage).0, k);
      }
    } else if tx.kind == "invoke" {
      var db2 := PutInvoke(db1, scid, tx.sender, tx.entrypoint, tx.height, tx);
      var db3 := CommitHeights(db2, scid, ReadHeights(db2, scid), tx.height);
      CallLeavesOwner(db1, db2, scid, scid, k);
      CallLeavesOwner(db2, db3, scid, HeightsBucket(scid), k);
      SameOwnerTwice(db, db1, db2, k);
      SameOwnerTwice(db, db2, db3, k);
    }
  }

  lemma ScidIsNotEmpty(stage: Stage)
    requires Accepted(stage)
    ensures stage.tx.scid != "" && IsScid(stage.tx.scid)
  {
  }

  lemma SameOwnerTwice(a: DB, b: DB, c: DB, k: string)
    requires SameOwner(a, b, k) && SameOwner(b, c, k)
    ensures SameOwner(a, c, k)
  {
  }

  lemma SameOwnerInstalled(a: DB, b: DB, k: string, stage: Stage)
    requires SameOwner(a, b, k) && Installed(a, k, stage)
    ensures Installed(b, k, stage)
  {
    hide FormatInt;
  }

  /** A run leaves for each contract what its last install says, or what was there. */
  lemma {:induction false} InstallAfterRun(db0: DB, stages: seq<Stage>, k: string)
    requires AllAccepted(stages)
    ensures (NeverInstalled(stages, k) && SameOwner(db0, SerialRun(db0, stages), k)) ||
      exists i :: LastInstall(stages, k, i) && Installed(SerialRun(db0, stages), k, stages[i])
  {
    hide Accepted, AddStage, SameOwner, Installed, Installs;
    if stages == [] {
      SameOwnerSelf(db0, k);
    } else {
      var n := |stages| - 1;
      var before := SerialRun(db0, stages[..n]);
      InstallAfterRun(db0, stages[..n], k);
      AddStageInstalls(before, stages[n], k);
      if Installs(stages[n], k) {
        assert LastInstall(stages, k, n);
      } else if i :| LastInstall(stages[..n], k, i) && Installed(before, k, stages[..n][i]) {
        SameOwnerInstalled(before, SerialRun(db0, stages), k, stages[i]);
        assert LastInstall(stages, k, i);
      } else {
        SameOwnerTwice(db0, before, SerialRun(db0, stages), k);
      }
    }
  }

  lemma SameOwnerSelf(db: DB, k: string)
    ensures SameOwner(db, db, k)
  {
  }

  lemma LastInstallUnique(stages: seq<Stage>, k: string, i: int, j: int)
    requires LastInstall(stages, k, i) && LastInstall(stages, k, j)
    ensures i == j && !NeverInstalled(stages, k)
  {
  }

  /** So the last install of a contract is what the store says about it. */
  lemma LastInstallHolds(db0: DB, stages: seq<Stage>, k: string, i: int)
    requires AllAccepted(stages) && LastInstall(stages, k, i)
    ensures Installed(SerialRun(db0, stages), k, stages[i])
  {
    hide Accepted, Installed, SerialRun, Installs, NeverInstalled, SameOwner;
    InstallAfterRun(db0, stages, k);
    LastInstallUnique(stages, k, i, i);
    var j :| LastInstall(stages, k, j) && Installed(SerialRun(db0, stages), k, stages[j]);
    LastInstallUnique(stages, k, i, j);
  }

  // ---- The other buckets of a call ----

  /** Every call leaves its variables under its height; an invocation its record under the composite key
      and its height at the end of the contract's list, or somewhere in it. */
  lemma CallOnDisk(db: DB, stage: Stage)
    requires Accepted(stage)
    ensures var r, tx := AddStage(db, stage).0, stage.tx;
      var b := BucketOf(r, tx.scid + "vars");
      FormatInt(tx.height) in b && b[FormatInt(tx.height)] == VarsJson(stage.scVars)
    ensures var r, tx := AddStage(db, stage).0, stage.tx;
      tx.kind == "invoke" ==>
        var key := tx.sender + ":" + tx.txid[..3] + tx.txid[|tx.txid| - 3..] + ":" + FormatInt(tx.height) + ":" +
          tx.entrypoint;
        key in BucketOf(r, tx.scid) && BucketOf(r, tx.scid)[key] == InvokeJson(tx) &&
        tx.height in HeightsOf(r, tx.scid)
  {
    hide FormatInt, PutOwner, IsScid;
    ScidIsNotEmpty(stage);
    var scid, tx := stage.tx.scid, stage.tx;
    NamesDistinct(scid, scid);
    if tx.kind == "install" {
      var db1 := PutVars(db, scid, stage.scVars, tx.height);
      forall f ensures VarsBucket(scid) != FieldName(f) {
        OwnerFieldNames(f);
      }
      PutOwnerFieldsElsewhere(db1, scid, OwnerOf(stage), |FIELDS|, VarsBucket(scid));
      assert BucketOf(PutOwner(db1, scid, OwnerOf(stage)), VarsBucket(scid)) == BucketOf(db1, VarsBucket(scid)) by {
        PutOwnerIs(db1, scid, OwnerOf(stage));
      }
    }
  }

  lemma PutOwnerIs(db: DB, scid: string, o: Owner)
    ensures PutOwner(db, scid, o) == PutOwnerFields(db, scid, o, |FIELDS|)
  {
  }

  // ---- Listings ----

  /** The contract is in the class by its last install in the run, or by what was there. */
  ghost predicate InClass(db0: DB, stages: seq<Stage>, s: string, text: string) {
    if NeverInstalled(stages, s) then
      s in BucketOf(db0, "class") && Contains(TextIn(BucketOf(db0, "class")[s]), text)
    else exists i :: LastInstall(stages, s, i) && Contains(stages[i].className, text)
  }

  /** The class listing after a run: exactly the contracts whose last install's class holds the text, and
      older ones that the run does not install. */
  lemma ClassListingOverARun(db0: DB, stages: seq<Stage>, text: string, scids: seq<string>)
    requires AllAccepted(stages) && AreMatches(scids, BucketOf(SerialRun(db0, stages), "class"), text)
    ensures forall s :: s in scids <==> InClass(db0, stages, s, text)
  {
    forall s ensures s in scids <==> InClass(db0, stages, s, text) {
      ClassAfterRun(db0, stages, s, text);
    }
  }

  lemma ClassAfterRun(db0: DB, stages: seq<Stage>, s: string, text: string)
    requires AllAccepted(stages)
    ensures var b := BucketOf(SerialRun(db0, stages), "class");
      s in b && Contains(TextIn(b[s]), text) <==> InClass(db0, stages, s, text)
  {
    hide Accepted, SerialRun, Contains, FormatInt, Installs, LastInstall, NeverInstalled;
    InstallAfterRun(db0, stages, s);
    if i :| LastInstall(stages, s, i) {
      LastInstallHolds(db0, stages, s, i);
      forall j | LastInstall(stages, s, j) ensures j == i {
        LastInstallUnique(stages, s, i, j);
      }
      LastInstallUnique(stages, s, i, i);
    }
  }

  /** The listing of all contracts after a run is in the order of their last installs' heights. */
  lemma InstallOrderOverARun(db0: DB, stages: seq<Stage>, scids: seq<string>, p: int, q: int, i: int, j: int)
    requires AllAccepted(stages) && HeightOrdered(SerialRun(db0, stages), scids)
    requires 0 <= p < q < |scids| && LastInstall(stages, scids[p], i) && LastInstall(stages, scids[q], j)
    ensures stages[i].tx.height <= stages[j].tx.height
  {
    hide Accepted, SerialRun, LastInstall, FormatInt, ParseInt;
    LastInstallHolds(db0, stages, scids[p], i);
    LastInstallHolds(db0, stages, scids[q], j);
    LastInRange(stages, scids[p], i);
    LastInRange(stages, scids[q], j);
    ParseFormat(stages[i].tx.height);
    ParseFormat(stages[j].tx.height);
    assert InstallHeight(SerialRun(db0, stages), scids[p]) <= InstallHeight(SerialRun(db0, stages), scids[q]);
  }

  lemma LastInRange(stages: seq<Stage>, k: string, i: int)
    requires LastInstall(stages, k, i)
    ensures 0 <= i < |stages|
  {
  }
}
