/** The flat key/value store: named buckets of keys, changed by atomic transactions, and the
    exact effect of each transaction the indexer issues. A JSON value is kept as the value it
    encodes; the rounding of untyped numbers is in Variables.Reread. */
module FlatStore {
  import opened Wrappers
  import opened Decimal
  import opened Variables
  import opened Records

  datatype Value =
    | Bytes(text: string)
    | VarsJson(vars: Snapshot)
    | InvokeJson(tx: SCTXParse)
    | HeightsJson(heights: seq<Int64>)
    | TxsJson(txs: seq<NormalTx>)
    | MinisJson(minis: seq<MBLInfo>)
    | CountJson(count: int)

  type Bucket = map<string, Value>
  type DB = map<string, Bucket>

  datatype Error = NoScid | BucketNameRequired | KeyRequired

  /** A store call ends with nil, with an error, or with a run-time panic. */
  datatype Outcome = Stored | Unchanged | Refused(error: Error) | Panicked

  /** A bucket that does not exist reads as an empty one. */
  function BucketOf(db: DB, name: string): Bucket {
    if name in db then db[name] else map[]
  }

  function Put(db: DB, name: string, key: string, value: Value): (r: DB)
    ensures forall n :: BucketOf(r, n) == if n == name then BucketOf(db, n)[key := value] else BucketOf(db, n)
  {
    db[name := BucketOf(db, name)[key := value]]
  }

  /** Bolt refuses an empty bucket name and an empty key; the transaction is then rolled back. */
  function PutError(name: string, key: string): Option<Error> {
    if name == "" then Some(BucketNameRequired) else if key == "" then Some(KeyRequired) else None
  }

  function VarsBucket(scid: string): string {
    scid + "vars"
  }

  function HeightsBucket(scid: string): string {
    scid + "heights"
  }

  /** The five buckets an install writes. */
  datatype Field = OwnerField | HeadersField | ClassField | TagsField | HeightField

  const FIELDS: seq<Field> := [OwnerField, HeadersField, ClassField, TagsField, HeightField]

  function FieldName(f: Field): (name: string)
    ensures 0 < |name| <= 7
  {
    match f
    case OwnerField => "owner"
    case HeadersField => "headers"
    case ClassField => "class"
    case TagsField => "tags"
    case HeightField => "height"
  }

  lemma FieldNamesDistinct(f: Field, g: Field)
    ensures FieldName(f) == FieldName(g) <==> f == g
  {
    assert FieldName(HeadersField)[1] != FieldName(HeightField)[0];
    assert FieldName(OwnerField)[0] == 'o' && FieldName(ClassField)[0] == 'c' && FieldName(TagsField)[0] == 't';
    assert FieldName(HeadersField)[0] == 'h' && FieldName(HeightField)[0] == 'h';
    assert |FieldName(HeadersField)| == 7 && |FieldName(HeightField)| == 6;
  }

  /** The text stored for one field of an install. */
  function FieldText(o: Owner, f: Field): string {
    match f
    case OwnerField => o.owner
    case HeadersField => o.headers
    case ClassField => o.className
    case TagsField => o.tags
    case HeightField => FormatInt(o.height)
  }

  function PutVars(db: DB, scid: string, vars: Snapshot, height: Int64): DB {
    Put(db, VarsBucket(scid), FormatInt(height), VarsJson(vars))
  }

  /** The first n of the five owner buckets are written. */
  function PutOwnerFields(db: DB, scid: string, o: Owner, n: nat): DB
    requires n <= |FIELDS|
  {
    if n == 0 then db
    else Put(PutOwnerFields(db, scid, o, n - 1), FieldName(FIELDS[n - 1]), scid, Bytes(FieldText(o, FIELDS[n - 1])))
  }

  function PutOwner(db: DB, scid: string, o: Owner): DB {
    PutOwnerFields(db, scid, o, |FIELDS|)
  }

  lemma {:induction false} PutOwnerFieldsAt(db: DB, scid: string, o: Owner, n: nat, f: Field)
    requires n <= |FIELDS|
    ensures var name := FieldName(f);
      BucketOf(PutOwnerFields(db, scid, o, n), name) ==
        if f in FIELDS[..n] then BucketOf(db, name)[scid := Bytes(FieldText(o, f))] else BucketOf(db, name)
  {
    hide FieldText, FieldName;
    if n > 0 {
      PutOwnerFieldsAt(db, scid, o, n - 1, f);
      FieldNamesDistinct(f, FIELDS[n - 1]);
      assert FIELDS[..n] == FIELDS[..n - 1] + [FIELDS[n - 1]];
    }
  }

  lemma {:induction false} PutOwnerFieldsElsewhere(db: DB, scid: string, o: Owner, n: nat, name: string)
    requires n <= |FIELDS| && forall f :: name != FieldName(f)
    ensures BucketOf(PutOwnerFields(db, scid, o, n), name) == BucketOf(db, name)
  {
    if n > 0 {
      PutOwnerFieldsElsewhere(db, scid, o, n - 1, name);
    }
  }

  /** An install writes its field into each of the five owner buckets. */
  lemma PutOwnerAt(db: DB, scid: string, o: Owner, f: Field)
    ensures BucketOf(PutOwner(db, scid, o), FieldName(f)) == BucketOf(db, FieldName(f))[scid := Bytes(FieldText(o, f))]
  {
    PutOwnerFieldsAt(db, scid, o, |FIELDS|, f);
    var i :=
      match f
      case OwnerField => 0
      case HeadersField => 1
      case ClassField => 2
      case TagsField => 3
      case HeightField => 4;
    assert FIELDS[..|FIELDS|][i] == f;
  }

  /** The bucket holds this text under the key. */
  predicate Holds(db: DB, name: string, key: string, text: string) {
    key in BucketOf(db, name) && BucketOf(db, name)[key] == Bytes(text)
  }

  /** What an install leaves, bucket by bucket. */
  lemma OwnerOnDisk(db: DB, scid: string, o: Owner)
    ensures var r := PutOwner(db, scid, o);
      Holds(r, "owner", scid, o.owner) && Holds(r, "headers", scid, o.headers) &&
      Holds(r, "class", scid, o.className) && Holds(r, "tags", scid, o.tags) &&
      Holds(r, "height", scid, FormatInt(o.height))
  {
    hide PutOwner, FormatInt;
    PutOwnerAt(db, scid, o, OwnerField);
    PutOwnerAt(db, scid, o, HeadersField);
    PutOwnerAt(db, scid, o, ClassField);
    PutOwnerAt(db, scid, o, TagsField);
    PutOwnerAt(db, scid, o, HeightField);
  }

  /** signer:first three and last three characters of the Txid:height:entrypoint */
  function InvokeKey(signer: string, txid: string, height: Int64, entrypoint: string): string
    requires |txid| >= 3
  {
    signer + ":" + txid[..3] + txid[|txid| - 3..] + ":" + FormatInt(height) + ":" + entrypoint
  }

  function PutInvoke(db: DB, scid: string, signer: string, entrypoint: string, height: Int64, tx: SCTXParse): DB
    requires |tx.txid| >= 3
  {
    Put(db, scid, InvokeKey(signer, tx.txid, height, entrypoint), InvokeJson(tx))
  }

  // ---- Lists that one transaction reads and a second one writes ----

  /** The list the second transaction writes after the first one read `read`; None when the
      element is there already and nothing is written. */
  function Appended<T>(read: Option<seq<T>>, x: T, present: bool): Option<seq<T>> {
    if read.None? then Some([x])
    else if present then None
    else Some(read.value + [x])
  }

  predicate HasTxid(txs: seq<NormalTx>, txid: string) {
    exists i | 0 <= i < |txs| :: txs[i].txid == txid
  }

  function ReadHeights(db: DB, scid: string): Option<seq<Int64>> {
    var b := BucketOf(db, HeightsBucket(scid));
    if scid !in b then None
    else if b[scid].HeightsJson? then Some(b[scid].heights) else Some([])
  }

  function CommitHeights(db: DB, scid: string, read: Option<seq<Int64>>, height: Int64): DB {
    match Appended(read, height, read.Some? && height in read.value)
    case None => db
    case Some(list) => Put(db, HeightsBucket(scid), scid, HeightsJson(list))
  }

  const TXS_BUCKET := "normaltxwithscid"

  const MINIS_BUCKET := "miniblocks"
  const COUNTS_BUCKET := "blockcount"

  /** The names under which these lists are found on disk. */
  lemma ListBucketNames()
    ensures TXS_BUCKET == "normaltxwithscid" && MINIS_BUCKET == "miniblocks" && COUNTS_BUCKET == "blockcount"
  {
  }

  function ReadTxs(db: DB, addr: string): Option<seq<NormalTx>> {
    var b := BucketOf(db, TXS_BUCKET);
    if addr !in b then None
    else if b[addr].TxsJson? then Some(b[addr].txs) else Some([])
  }

  function CommitTxs(db: DB, addr: string, read: Option<seq<NormalTx>>, tx: NormalTx): DB {
    match Appended(read, tx, read.Some? && HasTxid(read.value, tx.txid))
    case None => db
    case Some(list) => Put(db, TXS_BUCKET, addr, TxsJson(list))
  }

  // ---- A whole call of AddSCIDToIndex, its transactions one after the other ----

  function OwnerOf(stage: Stage): Owner {
    Owner(stage.tx.sender, stage.headers, stage.className, stage.tags, stage.tx.height)
  }

  function AddStage(db: DB, stage: Stage): (DB, Outcome) {
    var tx := stage.tx;
    if tx.scid == "" then (db, Refused(NoScid))
    else
      var db1 := PutVars(db, tx.scid, stage.scVars, tx.height);
      if tx.kind == "install" then (PutOwner(db1, tx.scid, OwnerOf(stage)), Stored)
      else if tx.kind == "invoke" then
        if |tx.txid| < 3 then (db1, Panicked)
        else
          var db2 := PutInvoke(db1, tx.scid, tx.sender, tx.entrypoint, tx.height, tx);
          (CommitHeights(db2, tx.scid, ReadHeights(db2, tx.scid), tx.height), Stored)
      else (db1, Stored)
  }
}
