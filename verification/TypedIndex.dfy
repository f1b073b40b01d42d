/** The typed index behind the flat store: for each contract its owner record, its variable
    snapshots by height, its invocations by key and its list of interaction heights. Every
    store transaction changes exactly one of these parts, of exactly one contract. */
module TypedIndex {
  import opened Wrappers
  import opened Decimal
  import opened GoStrings
  import opened Variables
  import opened Records
  import opened FlatStore

  predicate IsHexDigit(c: char) {
    '0' <= c <= '9' || 'a' <= c <= 'f'
  }

  /** A contract id: 64 hexadecimal characters. */
  predicate IsScid(s: string) {
    |s| == 64 && forall c | c in s :: IsHexDigit(c)
  }

  datatype Entry = Entry(
    owner: Option<Owner>, snapshots: Snapshots, invokes: map<string, SCTXParse>, heights: seq<Int64>)

  // ---- Which flat stores represent a typed index ----

  ghost predicate VarsOk(b: Bucket) {
    forall k | k in b :: b[k].VarsJson? && Canonical(k)
  }

  ghost predicate InvokesOk(b: Bucket) {
    forall k | k in b :: b[k].InvokeJson?
  }

  ghost predicate HeightsOk(b: Bucket, scid: string) {
    forall k | k in b :: k == scid && b[k].HeightsJson? && b[k].heights != [] && Distinct(b[k].heights)
  }

  /** The five owner buckets have the same contracts, and install heights parse. */
  ghost predicate OwnersOk(db: DB) {
    (forall f ::
      BucketOf(db, FieldName(f)).Keys == BucketOf(db, FieldName(OwnerField)).Keys &&
      forall k | k in BucketOf(db, FieldName(f)) :: IsScid(k) && BucketOf(db, FieldName(f))[k].Bytes?) &&
    forall k | k in BucketOf(db, FieldName(HeightField)) :: Canonical(BucketOf(db, FieldName(HeightField))[k].text)
  }

  ghost predicate ContractOk(db: DB, scid: string) {
    VarsOk(BucketOf(db, VarsBucket(scid))) &&
    InvokesOk(BucketOf(db, scid)) &&
    HeightsOk(BucketOf(db, HeightsBucket(scid)), scid)
  }

  ghost predicate Typed(db: DB) {
    OwnersOk(db) && forall scid | IsScid(scid) :: ContractOk(db, scid)
  }

  // ---- The typed index a flat store represents ----

  ghost function HeightKeys(b: Bucket): set<Int64> {
    set k | k in b :: ParseInt(k).value
  }

  ghost function SnapshotsIn(b: Bucket): Snapshots
    requires VarsOk(b)
  {
    map h | h in HeightKeys(b) && FormatInt(h) in b :: b[FormatInt(h)].vars
  }

  ghost function SnapshotsOf(db: DB, scid: string): Snapshots
    requires VarsOk(BucketOf(db, VarsBucket(scid)))
  {
    SnapshotsIn(BucketOf(db, VarsBucket(scid)))
  }

  ghost function InvokesIn(b: Bucket): map<string, SCTXParse>
    requires InvokesOk(b)
  {
    map k | k in b :: b[k].tx
  }

  ghost function FieldIn(db: DB, scid: string, f: Field): string
    requires OwnersOk(db) && scid in BucketOf(db, FieldName(OwnerField))
  {
    BucketOf(db, FieldName(f))[scid].text
  }

  ghost function OwnerIn(db: DB, scid: string): Option<Owner>
    requires OwnersOk(db)
  {
    if scid !in BucketOf(db, FieldName(OwnerField)) then None
    else Some(Owner(
      FieldIn(db, scid, OwnerField), FieldIn(db, scid, HeadersField), FieldIn(db, scid, ClassField),
      FieldIn(db, scid, TagsField), ParseInt(FieldIn(db, scid, HeightField)).value))
  }

  ghost function HeightsOf(db: DB, scid: string): seq<Int64> {
    match ReadHeights(db, scid)
    case None => []
    case Some(list) => list
  }

  ghost function Abs(db: DB, scid: string): Entry
    requires Typed(db) && IsScid(scid)
  {
    Entry(OwnerIn(db, scid), SnapshotsOf(db, scid), InvokesIn(BucketOf(db, scid)), HeightsOf(db, scid))
  }

  // ---- Bucket names never collide ----

  lemma ConcatInjective(s: string, t: string, suffix: string)
    requires s + suffix == t + suffix
    ensures s == t
  {
    assert s == (s + suffix)[..|s|];
    assert t == (t + suffix)[..|t|];
  }

  /** Every bucket the store uses besides those named after a contract. */
  const FIXED_BUCKETS: set<string> :=
    {FieldName(OwnerField), FieldName(HeadersField), FieldName(ClassField), FieldName(TagsField),
     FieldName(HeightField), TXS_BUCKET, MINIS_BUCKET, COUNTS_BUCKET, "stats", "getinfo", "invalidscids"}

  /** For contract ids, the three bucket names of a contract and the fixed bucket names are
      pairwise different, and each determines the contract. */
  lemma NamesDistinct(s: string, t: string)
    requires IsScid(s) && IsScid(t)
    ensures VarsBucket(s) != HeightsBucket(t) && VarsBucket(s) != t && HeightsBucket(s) != t
    ensures VarsBucket(s) == VarsBucket(t) <==> s == t
    ensures HeightsBucket(s) == HeightsBucket(t) <==> s == t
    ensures forall name | name in FIXED_BUCKETS :: name != s && name != VarsBucket(s) && name != HeightsBucket(s)
  {
    if VarsBucket(s) == VarsBucket(t) { ConcatInjective(s, t, "vars"); }
    if HeightsBucket(s) == HeightsBucket(t) { ConcatInjective(s, t, "heights"); }
    forall name | name in FIXED_BUCKETS ensures |name| < 64 {
      FixedNamesAreShort(name);
    }
  }

  lemma FixedNamesAreShort(name: string)
    requires name in FIXED_BUCKETS
    ensures |name| < 64
  {
  }

  // ---- Each transaction changes one part of one contract ----

  lemma SnapshotLookup(b: Bucket, h: Int64)
    requires VarsOk(b)
    ensures h in SnapshotsIn(b) <==> FormatInt(h) in b
    ensures h in SnapshotsIn(b) ==> SnapshotsIn(b)[h] == b[FormatInt(h)].vars
  {
    ParseFormat(h);
  }

  lemma SnapshotsPut(b: Bucket, h: Int64, vars: Snapshot)
    requires VarsOk(b)
    ensures VarsOk(b[FormatInt(h) := VarsJson(vars)])
    ensures SnapshotsIn(b[FormatInt(h) := VarsJson(vars)]) == SnapshotsIn(b)[h := vars]
  {
    var b' := b[FormatInt(h) := VarsJson(vars)];
    FormatIsCanonical(h);
    forall g: Int64
      ensures g in SnapshotsIn(b') <==> g in SnapshotsIn(b)[h := vars]
      ensures g in SnapshotsIn(b') ==> SnapshotsIn(b')[g] == SnapshotsIn(b)[h := vars][g]
    {
      SnapshotLookup(b, g);
      SnapshotLookup(b', g);
      if FormatInt(g) == FormatInt(h) { FormatInjective(g, h); }
    }
  }

  ghost predicate SameExcept(db: DB, db': DB, name: string) {
    forall n | n != name :: BucketOf(db', n) == BucketOf(db, n)
  }

  /** A change to one bucket that is not an owner bucket leaves every owner record. */
  lemma OwnersKept(db: DB, db': DB, name: string)
    requires OwnersOk(db) && SameExcept(db, db', name) && (forall f :: name != FieldName(f))
    ensures OwnersOk(db')
    ensures forall s :: OwnerIn(db', s) == OwnerIn(db, s)
  {
    assert forall f :: BucketOf(db', FieldName(f)) == BucketOf(db, FieldName(f));
  }

  /** A change to one bucket of a contract leaves every other contract. */
  lemma OthersKept(db: DB, db': DB, name: string, scid: string, s: string)
    requires Typed(db) && IsScid(scid) && IsScid(s) && SameExcept(db, db', name)
    requires name in {scid, VarsBucket(scid), HeightsBucket(scid)}
    ensures (forall f :: name != FieldName(f))
    ensures s != scid ==> ContractOk(db', s)
    ensures OwnersOk(db')
    ensures s != scid && Typed(db') ==> Abs(db', s) == Abs(db, s)
  {
    NamesDistinct(scid, s);
    NamesDistinct(s, scid);
    NamesDistinct(scid, scid);
    OwnersKept(db, db', name);
    if s != scid {
      assert BucketOf(db', s) == BucketOf(db, s);
      assert BucketOf(db', VarsBucket(s)) == BucketOf(db, VarsBucket(s));
      assert BucketOf(db', HeightsBucket(s)) == BucketOf(db, HeightsBucket(s));
    }
  }

  lemma AbsAfter(db: DB, db': DB, name: string, scid: string, s: string)
    requires Typed(db) && IsScid(scid) && IsScid(s) && SameExcept(db, db', name)
    requires name in {scid, VarsBucket(scid), HeightsBucket(scid)}
    requires ContractOk(db', scid)
    ensures Typed(db')
    ensures s != scid ==> Abs(db', s) == Abs(db, s)
    ensures Abs(db', s).owner == Abs(db, s).owner
  {
    OthersKept(db, db', name, scid, scid);
    OwnersKept(db, db', name);
    forall t | IsScid(t) ensures ContractOk(db', t) {
      OthersKept(db, db', name, scid, t);
    }
    OthersKept(db, db', name, scid, s);
  }

  /** Storing a snapshot changes the contract's snapshot at that height and nothing else. */
  lemma RefineVars(db: DB, scid: string, vars: Snapshot, height: Int64, s: string)
    requires Typed(db) && IsScid(scid) && IsScid(s)
    ensures var db' := PutVars(db, scid, vars, height);
      var e := Abs(db, s);
      Typed(db') && Abs(db', s) == if s == scid then e.(snapshots := e.snapshots[height := vars]) else e
  {
    var db' := PutVars(db, scid, vars, height);
    NamesDistinct(scid, scid);
    SnapshotsPut(BucketOf(db, VarsBucket(scid)), height, vars);
    assert BucketOf(db', scid) == BucketOf(db, scid);
    assert BucketOf(db', HeightsBucket(scid)) == BucketOf(db, HeightsBucket(scid));
    AbsAfter(db, db', VarsBucket(scid), scid, s);
  }

  lemma RefineInvokeAt(db: DB, scid: string, key: string, tx: SCTXParse, s: string)
    requires Typed(db) && IsScid(scid) && IsScid(s)
    ensures var db' := Put(db, scid, key, InvokeJson(tx));
      var e := Abs(db, s);
      Typed(db') && Abs(db', s) == if s == scid then e.(invokes := e.invokes[key := tx]) else e
  {
    var db' := Put(db, scid, key, InvokeJson(tx));
    NamesDistinct(scid, scid);
    InvokesPut(BucketOf(db, scid), key, tx);
    assert BucketOf(db', VarsBucket(scid)) == BucketOf(db, VarsBucket(scid));
    assert BucketOf(db', HeightsBucket(scid)) == BucketOf(db, HeightsBucket(scid));
    AbsAfter(db, db', scid, scid, s);
  }

  lemma InvokesPut(b: Bucket, key: string, tx: SCTXParse)
    requires InvokesOk(b)
    ensures InvokesOk(b[key := InvokeJson(tx)])
    ensures InvokesIn(b[key := InvokeJson(tx)]) == InvokesIn(b)[key := tx]
  {
  }

  /** Storing an invocation changes the contract's record under that key and nothing else. */
  lemma RefineInvoke(db: DB, scid: string, signer: string, entrypoint: string, height: Int64, tx: SCTXParse, s: string)
    requires Typed(db) && IsScid(scid) && IsScid(s) && |tx.txid| >= 3
    ensures var db' := PutInvoke(db, scid, signer, entrypoint, height, tx);
      var e := Abs(db, s);
      var key := InvokeKey(signer, tx.txid, height, entrypoint);
      Typed(db') && Abs(db', s) == if s == scid then e.(invokes := e.invokes[key := tx]) else e
  {
    RefineInvokeAt(db, scid, InvokeKey(signer, tx.txid, height, entrypoint), tx, s);
  }

  lemma RefineHeightsPut(db: DB, scid: string, list: seq<Int64>, s: string)
    requires Typed(db) && IsScid(scid) && IsScid(s) && list != [] && Distinct(list)
    ensures var db' := Put(db, HeightsBucket(scid), scid, HeightsJson(list));
      var e := Abs(db, s);
      Typed(db') && Abs(db', s) == if s == scid then e.(heights := list) else e
  {
    var db' := Put(db, HeightsBucket(scid), scid, HeightsJson(list));
    NamesDistinct(scid, scid);
    assert BucketOf(db', VarsBucket(scid)) == BucketOf(db, VarsBucket(scid));
    assert BucketOf(db', scid) == BucketOf(db, scid);
    AbsAfter(db, db', HeightsBucket(scid), scid, s);
  }

  /** Committing a height to a list read earlier changes the contract's height list, to the list
      read plus the height, or nothing when the height was read already. */
  lemma RefineHeights(db: DB, scid: string, read: Option<seq<Int64>>, height: Int64, s: string)
    requires Typed(db) && IsScid(scid) && IsScid(s)
    requires read.Some? ==> Distinct(read.value)
    ensures var db' := CommitHeights(db, scid, read, height);
      var e := Abs(db, s);
      var list := if read.None? then [] else read.value;
      Typed(db') && Abs(db', s) == if s == scid && height !in list then e.(heights := list + [height]) else e
  {
    hide ContractOk, OwnersOk, SnapshotsOf, InvokesIn, OwnerIn, HeightsOf, IsScid;
    var list := if read.None? then [] else read.value;
    assert read.None? ==> list + [height] == [height];
    if height !in list {
      RefineHeightsPut(db, scid, list + [height], s);
    }
  }

  lemma OwnersAfterPut(db: DB, scid: string, o: Owner, s: string)
    requires OwnersOk(db) && IsScid(scid)
    ensures var db' := PutOwner(db, scid, o);
      OwnersOk(db') && OwnerIn(db', s) == if s == scid then Some(o) else OwnerIn(db, s)
  {
    FormatIsCanonical(o.height);
    ParseFormat(o.height);
    forall f ensures FieldAfterPut(db, PutOwner(db, scid, o), scid, o, f) {
      PutOwnerAt(db, scid, o, f);
    }
    FieldsAfterPut(db, PutOwner(db, scid, o), scid, o, s);
  }

  ghost predicate FieldAfterPut(db: DB, db': DB, scid: string, o: Owner, f: Field) {
    BucketOf(db', FieldName(f)) == BucketOf(db, FieldName(f))[scid := Bytes(FieldText(o, f))]
  }

  lemma FieldsAfterPut(db: DB, db': DB, scid: string, o: Owner, s: string)
    requires OwnersOk(db) && IsScid(scid)
    requires Canonical(FormatInt(o.height)) && ParseInt(FormatInt(o.height)).value == o.height
    requires forall f :: FieldAfterPut(db, db', scid, o, f)
    ensures OwnersOk(db') && OwnerIn(db', s) == if s == scid then Some(o) else OwnerIn(db, s)
  {
    hide FieldName, ParseInt, FormatInt, Canonical, IsScid;
    FieldsOkAfterPut(db, db', scid, o);
    forall f | s in BucketOf(db', FieldName(OwnerField))
      ensures FieldIn(db', s, f) == if s == scid then FieldText(o, f) else FieldIn(db, s, f)
    {
      assert FieldAfterPut(db, db', scid, o, f) && FieldAfterPut(db, db', scid, o, OwnerField);
    }
    assert FieldAfterPut(db, db', scid, o, OwnerField);
  }

  lemma FieldsOkAfterPut(db: DB, db': DB, scid: string, o: Owner)
    requires OwnersOk(db) && IsScid(scid) && Canonical(FormatInt(o.height))
    requires forall f :: FieldAfterPut(db, db', scid, o, f)
    ensures OwnersOk(db')
  {
    hide FieldName, ParseInt, FormatInt, Canonical, IsScid;
    forall f
      ensures BucketOf(db', FieldName(f)).Keys == BucketOf(db', FieldName(OwnerField)).Keys
      ensures forall k | k in BucketOf(db', FieldName(f)) :: IsScid(k) && BucketOf(db', FieldName(f))[k].Bytes?
    {
      assert FieldAfterPut(db, db', scid, o, f) && FieldAfterPut(db, db', scid, o, OwnerField);
    }
    assert FieldAfterPut(db, db', scid, o, HeightField);
  }

  lemma ContractKeptByOwner(db: DB, scid: string, o: Owner, t: string)
    requires IsScid(t)
    ensures var db' := PutOwner(db, scid, o);
      BucketOf(db', t) == BucketOf(db, t) &&
      BucketOf(db', VarsBucket(t)) == BucketOf(db, VarsBucket(t)) &&
      BucketOf(db', HeightsBucket(t)) == BucketOf(db, HeightsBucket(t))
  {
    PutOwnerFieldsElsewhere(db, scid, o, |FIELDS|, t);
    PutOwnerFieldsElsewhere(db, scid, o, |FIELDS|, VarsBucket(t));
    PutOwnerFieldsElsewhere(db, scid, o, |FIELDS|, HeightsBucket(t));
  }

  lemma RefineOwner(db: DB, scid: string, o: Owner, s: string)
    requires Typed(db) && IsScid(scid) && IsScid(s)
    ensures var db' := PutOwner(db, scid, o);
      var e := Abs(db, s);
      Typed(db') && Abs(db', s) == if s == scid then e.(owner := Some(o)) else e
  {
    hide PutOwner, SnapshotsIn, InvokesIn, OwnersOk, OwnerIn, Canonical;
    OwnersAfterPut(db, scid, o, s);
    forall t | IsScid(t) ensures ContractOk(PutOwner(db, scid, o), t) {
      ContractKeptByOwner(db, scid, o, t);
    }
    ContractKeptByOwner(db, scid, o, s);
  }

  // ---- The other writers ----

  /** Filing a transaction under a ring member and storing miniblocks and their counts write to fixed
      buckets that hold no part of a contract. */
  predicate IsOtherBucket(name: string) {
    name == TXS_BUCKET || name == MINIS_BUCKET || name == COUNTS_BUCKET
  }

  ghost predicate SameBesideOthers(db: DB, db': DB) {
    forall n | !IsOtherBucket(n) :: BucketOf(db', n) == BucketOf(db, n)
  }

  lemma OtherNames(s: string)
    requires IsScid(s)
    ensures !IsOtherBucket(s) && !IsOtherBucket(VarsBucket(s)) && !IsOtherBucket(HeightsBucket(s))
    ensures forall f :: !IsOtherBucket(FieldName(f))
  {
    NamesDistinct(s, s);
  }

  /** So whatever those writers do, every contract's entry stays as it is. */
  lemma OthersChangeNoContract(db: DB, db': DB, s: string)
    requires Typed(db) && IsScid(s) && SameBesideOthers(db, db')
    ensures Typed(db') && Abs(db', s) == Abs(db, s)
  {
    hide IsScid, IsOtherBucket, FieldName, VarsOk, InvokesOk, HeightsOk, SnapshotsIn, InvokesIn, Canonical, ParseInt;
    OtherNames(s);
    assert forall f :: BucketOf(db', FieldName(f)) == BucketOf(db, FieldName(f));
    forall t | IsScid(t) ensures ContractOk(db', t) {
      OtherNames(t);
    }
  }

  /** The transactions of those writers are of that kind. */
  lemma OtherWrites(db: DB, addr: string, read: Option<seq<NormalTx>>, tx: NormalTx, key: string, value: Value)
    ensures SameBesideOthers(db, CommitTxs(db, addr, read, tx))
    ensures SameBesideOthers(db, Put(db, MINIS_BUCKET, key, value))
    ensures SameBesideOthers(db, Put(db, COUNTS_BUCKET, key, value))
  {
  }
}
