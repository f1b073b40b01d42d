/** What the read side of the store promises, stated on the flat store. */
module Views {
  import opened Decimal
  import opened Float64
  import opened GoStrings
  import opened Variables
  import opened Records
  import opened FlatStore
  import opened TypedIndex
  import opened Sorting

  /** A snapshot that is not one decodes to nothing. */
  function VarsIn(v: Value): Snapshot {
    if v.VarsJson? then v.vars else []
  }

  /** The snapshots under the given keys, in that order, by parsed height: later keys win. */
  function ReadSnapshots(b: Bucket, ks: seq<string>): Snapshots
    requires forall k | k in ks :: k in b
  {
    if ks == [] then map[]
    else
      var last := ks[|ks| - 1];
      ReadSnapshots(b, ks[..|ks| - 1])[ParseInt(last).value := VarsIn(b[last])]
  }

  /** The snapshots of a bucket, read in cursor order. */
  function CursorSnapshots(b: Bucket): Snapshots {
    ReadSnapshots(b, CursorOrder(b.Keys))
  }

  lemma {:induction false} ReadSnapshotsAt(b: Bucket, ks: seq<string>, h: Int64)
    requires VarsOk(b) && forall k | k in ks :: k in b
    ensures h in ReadSnapshots(b, ks) <==> FormatInt(h) in ks
    ensures h in ReadSnapshots(b, ks) ==> ReadSnapshots(b, ks)[h] == b[FormatInt(h)].vars
  {
    hide FormatInt, ParseInt;
    if ks != [] {
      var n := |ks| - 1;
      ReadSnapshotsAt(b, ks[..n], h);
      ParseFormat(h);
      assert Canonical(ks[n]);
      assert ks == ks[..n] + [ks[n]];
    }
  }

  /** On a well-formed bucket the byte order of the cursor does not matter: every height has its
      own snapshot. */
  lemma CursorSnapshotsTyped(b: Bucket)
    requires VarsOk(b)
    ensures CursorSnapshots(b) == SnapshotsIn(b)
  {
    hide FormatInt, ParseInt;
    forall h: Int64
      ensures h in CursorSnapshots(b) <==> h in SnapshotsIn(b)
      ensures h in CursorSnapshots(b) ==> CursorSnapshots(b)[h] == SnapshotsIn(b)[h]
    {
      ReadSnapshotsAt(b, CursorOrder(b.Keys), h);
      SnapshotLookup(b, h);
    }
  }

  /** The answer list of a variable query: one entry per key, each with the value the snapshots
      answer for it, only unsigned integers and strings. */
  ghost predicate IsView(hVars: seq<Variable>, snaps: Snapshots) {
    (forall i, j | 0 <= i < j < |hVars| :: hVars[i].key != hVars[j].key) &&
    (forall k, v :: Variable(k, v) in hVars <==> Answers(snaps, k, v)) &&
    (forall i | 0 <= i < |hVars| :: IsScalar(hVars[i].key) && IsScalar(hVars[i].value))
  }

  /** The answer to GetSCIDKeysByValue: every key with that value, once. */
  ghost predicate AreKeysOf(keysString: seq<string>, keysUint: seq<Uint64>, snaps: Snapshots, val: Any) {
    Distinct(keysString) && Distinct(keysUint) &&
    (forall k :: k in keysString <==> Answers(snaps, Text(k), val)) &&
    (forall n :: n in keysUint <==> Answers(snaps, Uint(n), val))
  }

  /** The answer to GetSCIDValuesByKey: the value of that key, if it has one. */
  ghost predicate AreValuesOf(valuesString: seq<string>, valuesUint: seq<Uint64>, snaps: Snapshots, key: Any) {
    |valuesString| + |valuesUint| <= 1 &&
    (forall v :: v in valuesString <==> Answers(snaps, key, Text(v))) &&
    (forall n :: n in valuesUint <==> Answers(snaps, key, Uint(n)))
  }

  predicate Listed(a: Any, texts: seq<string>, numbers: seq<Uint64>) {
    match a
    case Text(s) => s in texts
    case Uint(n) => n in numbers
    case _ => false
  }

  /** The two queries are inverse to each other: k is a key of v exactly when v is the value of k. */
  lemma QueriesAreInverse(
    snaps: Snapshots, k: Any, v: Any, ks: seq<string>, ku: seq<Uint64>, vs: seq<string>, vu: seq<Uint64>)
    requires IsScalar(k) && IsScalar(v)
    requires AreKeysOf(ks, ku, snaps, v) && AreValuesOf(vs, vu, snaps, k)
    ensures Listed(k, ks, ku) <==> Listed(v, vs, vu)
  {
  }

  // ---- Invocation records ----

  function TxHeight(tx: SCTXParse): int { tx.height }

  function TxIn(v: Value): SCTXParse {
    if v.InvokeJson? then v.tx else SCTXParse("", "", "", "", "", 0, 0)
  }

  function TxsInOrder(b: Bucket, ks: seq<string>): (r: seq<SCTXParse>)
    requires forall k | k in ks :: k in b
    ensures |r| == |ks| && forall i | 0 <= i < |ks| :: r[i] == TxIn(b[ks[i]])
  {
    seq(|ks|, i requires 0 <= i < |ks| => TxIn(b[ks[i]]))
  }

  /** The details query: the records in cursor order, sorted stably by height. */
  function InvokeListing(b: Bucket): seq<SCTXParse> {
    SortBy(TxsInOrder(b, CursorOrder(b.Keys)), TxHeight)
  }

  /** One record per key, heights never fall, records of one height in cursor order. */
  lemma InvokeListingOk(b: Bucket)
    requires InvokesOk(b)
    ensures multiset(InvokeListing(b)) == multiset(TxsInOrder(b, CursorOrder(b.Keys)))
    ensures |InvokeListing(b)| == |b|
    ensures forall tx :: tx in InvokeListing(b) <==> exists k :: k in b && b[k].tx == tx
    ensures forall i, j | 0 <= i < j < |InvokeListing(b)| :: InvokeListing(b)[i].height <= InvokeListing(b)[j].height
    ensures forall h: int ::
      Select(InvokeListing(b), TxHeight, h) == Select(TxsInOrder(b, CursorOrder(b.Keys)), TxHeight, h)
  {
    hide SortBy, CursorOrder;
    var ks := CursorOrder(b.Keys);
    var txs := TxsInOrder(b, ks);
    var r := InvokeListing(b);
    SortBySorted(txs, TxHeight);
    SameMultisetSameElements(r, txs);
    forall i, j | 0 <= i < j < |r| ensures r[i].height <= r[j].height {
      assert TxHeight(r[i]) <= TxHeight(r[j]);
    }
    forall tx ensures tx in r <==> exists k :: k in b && b[k].tx == tx {
      if k :| k in b && b[k].tx == tx {
        assert k in ks;
        var i :| 0 <= i < |ks| && ks[i] == k;
        assert txs[i] == tx;
      }
      if tx in txs {
        var i :| 0 <= i < |txs| && txs[i] == tx;
        assert ks[i] in b && b[ks[i]].tx == tx;
      }
    }
    forall h: int ensures Select(r, TxHeight, h) == Select(txs, TxHeight, h) {
      SortByStable(txs, TxHeight, h);
    }
  }

  // ---- Listings of contracts ----

  function TextIn(v: Value): string {
    if v.Bytes? then v.text else ""
  }

  /** Every contract whose field holds the text, once. */
  ghost predicate AreMatches(scids: seq<string>, b: Bucket, text: string) {
    Distinct(scids) && forall s :: s in scids <==> s in b && Contains(TextIn(b[s]), text)
  }

  function InstallHeight(db: DB, scid: string): int {
    var b := BucketOf(db, FieldName(HeightField));
    if scid in b then ParseInt(TextIn(b[scid])).value else 0
  }

  ghost predicate HeightOrdered(db: DB, scids: seq<string>) {
    forall i, j | 0 <= i < j < |scids| :: InstallHeight(db, scids[i]) <= InstallHeight(db, scids[j])
  }

  /** Every installed contract once, install heights never falling. */
  ghost predicate IsScidListing(db: DB, scids: seq<string>) {
    Distinct(scids) && HeightOrdered(db, scids) &&
    forall s :: s in scids <==> s in BucketOf(db, FieldName(HeightField))
  }

  /** A tag in use: a comma-separated piece of some stored tags text. */
  ghost predicate IsTag(b: Bucket, tag: string) {
    exists k :: k in b && tag in Split(TextIn(b[k]), ",")
  }

  // ---- Miniblocks ----

  function MinisOf(v: Value): seq<MBLInfo> {
    if v.MinisJson? then v.minis else []
  }

  /** All stored miniblocks by block hash. */
  function MinisIn(b: Bucket): map<string, seq<MBLInfo>> {
    map k | k in b :: MinisOf(b[k])
  }
}
