/** The store object: the calls of the indexer and of the query layer, each proved against the
    effect of its transactions on the flat store. */
module BboltStore {
  import opened Decimal
  import opened Float64
  import opened GoStrings
  import opened Sorting
  import opened Variables
  import opened Records
  import opened FlatStore
  import opened TypedIndex
  import opened Views
  import opened InteractionIndex

  function HeightOf(h: Int64): int { h }

  /** The height a value query is answered from, by cases, and the values of a key there. */
  ghost predicate ValuesAnswered(db: DB, s: string, t: Int64, key: Any, vs: seq<string>, vu: seq<Uint64>) {
    var snaps, hs := CursorSnapshots(BucketOf(db, s + "vars")), HeightsOf(db, s);
    if hs == [] || 0 <= t < Least(hs) then AreValuesOf(vs, vu, UpTo(snaps, 0), key)
    else if 0 <= t <= Greatest(hs) then AreValuesOf(vs, vu, UpTo(snaps, Least(hs)), key)
    else AreValuesOf(vs, vu, UpTo(snaps, Greatest(hs)), key)
  }

  /** The same for the keys of a value. */
  ghost predicate KeysAnswered(db: DB, s: string, t: Int64, val: Any, ks: seq<string>, ku: seq<Uint64>) {
    var snaps, hs := CursorSnapshots(BucketOf(db, s + "vars")), HeightsOf(db, s);
    if hs == [] || 0 <= t < Least(hs) then AreKeysOf(ks, ku, UpTo(snaps, 0), val)
    else if 0 <= t <= Greatest(hs) then AreKeysOf(ks, ku, UpTo(snaps, Least(hs)), val)
    else AreKeysOf(ks, ku, UpTo(snaps, Greatest(hs)), val)
  }

  ghost function Queried(db: DB, scid: string, height: Int64): Snapshots {
    UpTo(CursorSnapshots(BucketOf(db, VarsBucket(scid))), AsWritten(HeightsOf(db, scid), height))
  }

  lemma QueriedIs(db: DB, scid: string, height: Int64)
    ensures var snaps, hs := CursorSnapshots(BucketOf(db, scid + "vars")), HeightsOf(db, scid);
      Queried(db, scid, height) ==
        if hs == [] || 0 <= height < Least(hs) then UpTo(snaps, 0)
        else if 0 <= height <= Greatest(hs) then UpTo(snaps, Least(hs))
        else UpTo(snaps, Greatest(hs))
  {
    hide UpTo, CursorSnapshots;
  }

  class Store {
    var db: DB
    var writing: bool

    constructor ()
      ensures db == map[] && !writing
    {
      db := map[];
      writing := false;
    }

    /** One put in one Update transaction. */
    method Update(bucket: string, key: string, value: Value) returns (out: Outcome)
      modifies this`db
      ensures match PutError(bucket, key)
        case Some(error) => out == Refused(error) && db == old(db)
        case None => out == Stored && db == Put(old(db), bucket, key, value)
    {
      var error := PutError(bucket, key);
      if error.Some? {
        return Refused(error.value);
      }
      db := Put(db, bucket, key, value);
      out := Stored;
    }

    // ---- Writing ----

    method StoreSCIDVariableDetails(scid: string, variables: Snapshot, topoheight: Int64) returns (out: Outcome)
      modifies this`db
      ensures out == Stored && db == PutVars(old(db), scid, variables, topoheight)
      ensures BucketOf(db, scid + "vars") ==
        BucketOf(old(db), scid + "vars")[FormatInt(topoheight) := VarsJson(variables)]
    {
      assert FormatInt(topoheight) != "" by { FormatNotEmpty(topoheight); }
      out := Update(VarsBucket(scid), FormatInt(topoheight), VarsJson(variables));
    }

    /** All five buckets in one transaction, or none. */
    method StoreOwner(scid: string, o: Owner) returns (out: Outcome)
      modifies this`db
      ensures scid == "" ==> out == Refused(KeyRequired) && db == old(db)
      ensures scid != "" ==> out == Stored && db == PutOwner(old(db), scid, o)
      ensures scid != "" ==>
        Holds(db, "owner", scid, o.owner) && Holds(db, "headers", scid, o.headers) &&
        Holds(db, "class", scid, o.className) && Holds(db, "tags", scid, o.tags) &&
        Holds(db, "height", scid, FormatInt(o.height))
    {
      hide Holds;
      var tx := db;
      for i := 0 to |FIELDS|
        invariant scid != "" || i == 0
        invariant tx == PutOwnerFields(db, scid, o, i)
        invariant db == old(db)
      {
        var error := PutError(FieldName(FIELDS[i]), scid);
        if error.Some? {
          return Refused(error.value);
        }
        tx := Put(tx, FieldName(FIELDS[i]), scid, Bytes(FieldText(o, FIELDS[i])));
      }
      db := tx;
      out := Stored;
      OwnerOnDisk(old(db), scid, o);
    }

    method StoreInvokeDetails(scid: string, signer: string, entrypoint: string, topoheight: Int64, tx: SCTXParse)
      returns (out: Outcome)
      modifies this`db
      ensures |tx.txid| < 3 ==> out == Panicked && db == old(db)
      ensures |tx.txid| >= 3 && scid == "" ==> out == Refused(BucketNameRequired) && db == old(db)
      ensures |tx.txid| >= 3 && scid != "" ==>
        out == Stored && db == PutInvoke(old(db), scid, signer, entrypoint, topoheight, tx)
      ensures |tx.txid| >= 3 && scid != "" ==>
        var head, tail := tx.txid[..3], tx.txid[|tx.txid| - 3..];
        var key := signer + ":" + head + tail + ":" + FormatInt(topoheight) + ":" + entrypoint;
        BucketOf(db, scid) == BucketOf(old(db), scid)[key := InvokeJson(tx)]
    {
      if |tx.txid| < 3 {
        return Panicked;
      }
      out := Update(scid, InvokeKey(signer, tx.txid, topoheight, entrypoint), InvokeJson(tx));
    }

    /** Two transactions: a View that reads the list and an Update that writes it. */
    method StoreSCIDInteractionHeight(scid: string, height: Int64) returns (out: Outcome)
      modifies this`db
      ensures scid == "" && height !in HeightsOf(old(db), scid) ==> out == Refused(KeyRequired) && db == old(db)
      ensures height in HeightsOf(old(db), scid) ==> out == Unchanged && db == old(db)
      ensures scid != "" ==> db == CommitHeights(old(db), scid, ReadHeights(old(db), scid), height)
      ensures scid != "" && height !in HeightsOf(old(db), scid) ==>
        out == Stored && HeightsOf(db, scid) == HeightsOf(old(db), scid) + [height] &&
        BucketOf(db, scid + "heights") ==
          BucketOf(old(db), scid + "heights")[scid := HeightsJson(HeightsOf(old(db), scid) + [height])]
    {
      var read := ReadHeights(db, scid);
      var list := Appended(read, height, read.Some? && height in read.value);
      match list
      case None => out := Unchanged;
      case Some(heights) =>
        assert heights == HeightsOf(db, scid) + [height];
        out := Update(HeightsBucket(scid), scid, HeightsJson(heights));
    }

    /** The whole call, serially: the source waits until no other call is writing. */
    method AddSCIDToIndex(stage: Stage) returns (out: Outcome)
      requires !writing
      modifies this
      ensures (db, out) == AddStage(old(db), stage)
      ensures !writing
      ensures stage.tx.scid != "" && stage.tx.kind == "install" ==>
        var scid := stage.tx.scid;
        Holds(db, "owner", scid, stage.tx.sender) && Holds(db, "headers", scid, stage.headers) &&
        Holds(db, "class", scid, stage.className) && Holds(db, "tags", scid, stage.tags) &&
        Holds(db, "height", scid, FormatInt(stage.tx.height))
    {
      hide Holds;
      var tx := stage.tx;
      if tx.scid == "" {
        return Refused(NoScid);
      }
      writing := true;
      out := StoreSCIDVariableDetails(tx.scid, stage.scVars, tx.height);
      if tx.kind == "install" {
        out := StoreOwner(tx.scid, OwnerOf(stage));
      } else if tx.kind == "invoke" {
        out := StoreInvokeDetails(tx.scid, tx.sender, tx.entrypoint, tx.height, tx);
        if out == Stored {
          out := StoreSCIDInteractionHeight(tx.scid, tx.height);
          if out == Unchanged {
            out := Stored;
          }
        }
      }
      writing := false;
    }

    method StoreNormalTxWithSCIDByAddr(addr: string, tx: NormalTx) returns (out: Outcome)
      modifies this`db
      ensures addr != "" ==> db == CommitTxs(old(db), addr, ReadTxs(old(db), addr), tx)
      ensures addr == "" ==> db == old(db)
      ensures out == Stored <==>
        addr != "" && !(ReadTxs(old(db), addr).Some? && HasTxid(ReadTxs(old(db), addr).value, tx.txid))
    {
      var read := ReadTxs(db, addr);
      var list := Appended(read, tx, read.Some? && HasTxid(read.value, tx.txid));
      match list
      case None => out := Unchanged;
      case Some(txs) => out := Update(TXS_BUCKET, addr, TxsJson(txs));
    }

    // ---- Variables ----

    /** The cursor loop over the snapshots of a contract. */
    method ReadVariableBucket(scid: string) returns (results: Snapshots, heights: seq<Int64>)
      ensures results == CursorSnapshots(BucketOf(db, VarsBucket(scid)))
      ensures forall h :: h in heights <==> h in results
    {
      hide ParseInt, CursorOrder, VarsBucket;
      var b := BucketOf(db, VarsBucket(scid));
      var ks := CursorOrder(b.Keys);
      results, heights := map[], [];
      for i := 0 to |ks|
        invariant results == ReadSnapshots(b, ks[..i])
        invariant forall h :: h in heights <==> h in results
      {
        var h := ParseInt(ks[i]).value;
        heights := heights + [h];
        results := results[h := VarsIn(b[ks[i]])];
        assert ks[..i + 1][..i] == ks[..i];
      }
      assert ks[..|ks|] == ks;
    }

    /** The inner loop: the entries of one decoded snapshot, by the types of key and value. */
    method ApplySnapshot(vs2k: map<Any, Any>, variables: Snapshot) returns (r: map<Any, Any>)
      ensures r == ApplyFirst(vs2k, variables, |variables|)
    {
      r := vs2k;
      for i := 0 to |variables|
        invariant r == ApplyFirst(vs2k, variables, i)
      {
        var v := variables[i];
        match v.key
        case Float(ckey) =>
          match v.value {
            case Float(cval) => r := r[Uint(ToUint64(ckey)) := Uint(ToUint64(cval))];
            case Uint(_) => r := r[Uint(ToUint64(ckey)) := v.value];
            case Text(_) => r := r[Uint(ToUint64(ckey)) := v.value];
            case Nil => r := r[Uint(ToUint64(ckey)) := Nil];
            case _ =>
          }
        case Uint(_) => r := ApplyValue(r, v.key, v.value);
        case Text(_) => r := ApplyValue(r, v.key, v.value);
        case _ =>
      }
    }

    /** The arm for keys that are unsigned integers or strings already. */
    method ApplyValue(vs2k: map<Any, Any>, key: Any, value: Any) returns (r: map<Any, Any>)
      ensures r == if ValueOf(value).Some? then vs2k[key := ValueOf(value).value] else vs2k
    {
      r := vs2k;
      match value
      case Float(cval) => r := r[key := Uint(ToUint64(cval))];
      case Uint(_) => r := r[key := value];
      case Text(_) => r := r[key := value];
      case Nil => r := r[key := Nil];
      case _ =>
    }

    /** The output loop, in whatever order Go walks the map. Its switch on the type of a key and of a
        value only ever meets unsigned integers and strings. */
    method Render(vs2k: map<Any, Any>) returns (hVars: seq<Variable>)
      requires ScalarMap(vs2k)
      ensures forall i, j | 0 <= i < j < |hVars| :: hVars[i].key != hVars[j].key
      ensures forall k, v :: Variable(k, v) in hVars <==> k in vs2k && vs2k[k] == v && v != Nil
    {
      hVars := [];
      var todo := vs2k.Keys;
      while todo != {}
        invariant todo <= vs2k.Keys
        invariant forall i | 0 <= i < |hVars| :: hVars[i].key !in todo
        invariant forall i, j | 0 <= i < j < |hVars| :: hVars[i].key != hVars[j].key
        invariant forall k, v :: Variable(k, v) in hVars <==> k in vs2k && k !in todo && vs2k[k] == v && v != Nil
        decreases |todo|
      {
        var k :| k in todo;
        todo := todo - {k};
        if vs2k[k] != Nil {
          assert IsScalar(k) && IsScalar(vs2k[k]);
          hVars := hVars + [Variable(k, vs2k[k])];
        }
      }
    }

    method GetSCIDVariableDetailsAtTopoheight(scid: string, topoheight: Int64) returns (hVars: seq<Variable>)
      ensures IsView(hVars, UpTo(CursorSnapshots(BucketOf(db, VarsBucket(scid))), topoheight))
    {
      hide Answers, CursorSnapshots, SortBy, ApplyFirst;
      var results, heights := ReadVariableBucket(scid);
      var sorted := SortBy(heights, HeightOf);
      SortedHeights(heights);
      var vs2k := map[];
      var n := 0;
      while n < |sorted| && sorted[n] <= topoheight
        invariant n <= |sorted| && forall p | 0 <= p < n :: sorted[p] <= topoheight
        invariant vs2k == FoldFirst(results, sorted, n)
      {
        vs2k := ApplySnapshot(vs2k, Decode(results[sorted[n]]));
        n := n + 1;
      }
      FoldScalar(results, sorted, n);
      hVars := Render(vs2k);
      StoppedView(results, sorted, n, topoheight, hVars);
    }

    method GetAllSCIDVariableDetails(scid: string) returns (hVars: seq<Variable>)
      ensures IsView(hVars, CursorSnapshots(BucketOf(db, VarsBucket(scid))))
    {
      hide Answers, CursorSnapshots, SortBy, ApplyFirst;
      var results, heights := ReadVariableBucket(scid);
      var sorted := SortBy(heights, HeightOf);
      SortedHeights(heights);
      var vs2k := map[];
      for n := 0 to |sorted|
        invariant vs2k == FoldFirst(results, sorted, n)
      {
        vs2k := ApplySnapshot(vs2k, Decode(results[sorted[n]]));
      }
      FoldScalar(results, sorted, |sorted|);
      hVars := Render(vs2k);
      RenderedView(results, sorted, hVars);
    }

    method GetSCIDInteractionHeight(scid: string) returns (heights: seq<Int64>)
      ensures heights == HeightsOf(db, scid)
    {
      var read := ReadHeights(db, scid);
      heights := if read.Some? then read.value else [];
    }

    /** The variables a query at this height is answered from. */
    method QueriedVariables(scid: string, height: Int64) returns (variables: seq<Variable>)
      ensures IsView(variables, Queried(db, scid, height))
    {
      var list := GetSCIDInteractionHeight(scid);
      var heights := new Int64[|list|](i requires 0 <= i < |list| => list[i]);
      assert heights[..] == list;
      var index := GetInteractionIndex(height, heights);
      variables := GetSCIDVariableDetailsAtTopoheight(scid, index);
    }

    method GetSCIDKeysByValue(scid: string, val: Any, height: Int64)
      returns (keysString: seq<string>, keysUint: seq<Uint64>)
      ensures var snaps, hs := CursorSnapshots(BucketOf(db, scid + "vars")), HeightsOf(db, scid);
        if hs == [] || 0 <= height < Least(hs) then AreKeysOf(keysString, keysUint, UpTo(snaps, 0), val)
        else if 0 <= height <= Greatest(hs) then AreKeysOf(keysString, keysUint, UpTo(snaps, Least(hs)), val)
        else AreKeysOf(keysString, keysUint, UpTo(snaps, Greatest(hs)), val)
      ensures KeysAnswered(db, scid, height, val, keysString, keysUint)
    {
      hide Answers, Queried, AreKeysOf;
      var variables := QueriedVariables(scid, height);
      keysString, keysUint := [], [];
      for i := 0 to |variables|
        invariant Distinct(keysString) && Distinct(keysUint)
        invariant forall k :: k in keysString <==> Variable(Text(k), val) in variables[..i]
        invariant forall n :: n in keysUint <==> Variable(Uint(n), val) in variables[..i]
      {
        var v := variables[i];
        KeyIsNew(variables, i);
        assert variables[..i + 1] == variables[..i] + [v];
        // uint64 is compared with uint64, string with string; any other input matches nothing
        if v.value == val {
          if v.key.Uint? {
            keysUint := keysUint + [v.key.n];
          } else {
            // the type assertion to string cannot fail
            assert v.key.Text?;
            keysString := keysString + [v.key.s];
          }
        }
      }
      assert variables[..|variables|] == variables;
      KeysFound(variables, Queried(db, scid, height), val, keysString, keysUint);
      QueriedIs(db, scid, height);
    }

    method GetSCIDValuesByKey(scid: string, key: Any, height: Int64)
      returns (valuesString: seq<string>, valuesUint: seq<Uint64>)
      ensures var snaps, hs := CursorSnapshots(BucketOf(db, scid + "vars")), HeightsOf(db, scid);
        if hs == [] || 0 <= height < Least(hs) then AreValuesOf(valuesString, valuesUint, UpTo(snaps, 0), key)
        else if 0 <= height <= Greatest(hs) then AreValuesOf(valuesString, valuesUint, UpTo(snaps, Least(hs)), key)
        else AreValuesOf(valuesString, valuesUint, UpTo(snaps, Greatest(hs)), key)
      ensures ValuesAnswered(db, scid, height, key, valuesString, valuesUint)
    {
      hide Answers, Queried, AreValuesOf;
      var variables := QueriedVariables(scid, height);
      valuesString, valuesUint := [], [];
      for i := 0 to |variables|
        invariant |valuesString| + |valuesUint| <= 1
        invariant |valuesString| + |valuesUint| == 1 ==> exists j | 0 <= j < i :: variables[j].key == key
        invariant forall v :: v in valuesString <==> Variable(key, Text(v)) in variables[..i]
        invariant forall n :: n in valuesUint <==> Variable(key, Uint(n)) in variables[..i]
      {
        var v := variables[i];
        assert variables[..i + 1] == variables[..i] + [v];
        if v.key == key {
          if v.value.Uint? {
            valuesUint := valuesUint + [v.value.n];
          } else {
            assert v.value.Text?;
            valuesString := valuesString + [v.value.s];
          }
        }
      }
      assert variables[..|variables|] == variables;
      ValuesFound(variables, Queried(db, scid, height), key, valuesString, valuesUint);
      QueriedIs(db, scid, height);
    }

    // ---- Invocations and listings ----

    method GetAllSCIDInvokeDetails(scid: string) returns (invokedetails: seq<SCTXParse>)
      ensures invokedetails == InvokeListing(BucketOf(db, scid))
    {
      hide CursorOrder, SortBy;
      var b := BucketOf(db, scid);
      var ks := CursorOrder(b.Keys);
      invokedetails := [];
      for i := 0 to |ks|
        invariant invokedetails == TxsInOrder(b, ks)[..i]
      {
        invokedetails := invokedetails + [TxIn(b[ks[i]])];
        assert TxsInOrder(b, ks)[..i + 1] == TxsInOrder(b, ks)[..i] + [TxsInOrder(b, ks)[i]];
      }
      assert TxsInOrder(b, ks)[..|ks|] == TxsInOrder(b, ks);
      invokedetails := SortBy(invokedetails, TxHeight);
    }

    /** The cursor loop of GetAllSCIDsByClass and of GetAllSCIDsByTag. */
    method Matching(bucket: string, text: string) returns (results: seq<string>)
      ensures AreMatches(results, BucketOf(db, bucket), text)
    {
      hide CursorOrder, Contains;
      var b := BucketOf(db, bucket);
      var ks := CursorOrder(b.Keys);
      results := [];
      for i := 0 to |ks|
        invariant Distinct(results)
        invariant forall s :: s in results <==> s in ks[..i] && s in b && Contains(TextIn(b[s]), text)
      {
        assert ks[..i + 1] == ks[..i] + [ks[i]];
        if !Contains(TextIn(b[ks[i]]), text) {
          continue;
        }
        assert ks[i] !in ks[..i];
        results := results + [ks[i]];
      }
      assert ks[..|ks|] == ks;
    }

    method GetAllSCIDsByClass(class_: string) returns (results: seq<string>)
      ensures AreMatches(results, BucketOf(db, "class"), class_)
    {
      results := Matching(FieldName(ClassField), class_);
    }

    method GetAllSCIDsByTag(tag: string) returns (results: seq<string>)
      ensures AreMatches(results, BucketOf(db, "tags"), tag)
    {
      results := Matching(FieldName(TagsField), tag);
    }

    /** The cursor loop over the install heights; it stops at text that is not a number. */
    method ReadInstallHeights() returns (prc: seq<(string, Int64)>)
      ensures var b := BucketOf(db, FieldName(HeightField));
        prc <= Heighted(b, CursorOrder(b.Keys))
      ensures OwnersOk(db) ==>
        prc == Heighted(BucketOf(db, FieldName(HeightField)), CursorOrder(BucketOf(db, FieldName(HeightField)).Keys))
    {
      hide CursorOrder, ParseInt, OwnersOk, FieldName;
      var b := BucketOf(db, FieldName(HeightField));
      var ks := CursorOrder(b.Keys);
      ghost var all := Heighted(b, ks);
      prc := [];
      for i := 0 to |ks|
        invariant prc == all[..i]
      {
        var h := ParseInt(TextIn(b[ks[i]]));
        if !h.ok {
          if OwnersOk(db) {
            ParsesInstallHeight(db, ks[i]);
          }
          return;
        }
        assert all[..i + 1] == all[..i] + [all[i]];
        prc := prc + [(ks[i], h.value)];
      }
      assert all[..|ks|] == all;
    }

    /** sort.Slice is not stable: contracts installed at the same height come in any order. */
    method GetAllSCIDs() returns (results: seq<string>)
      ensures OwnersOk(db) ==> IsScidListing(db, results)
    {
      hide CursorOrder, SortBy, ParseInt, OwnersOk, FieldName, IsScidListing;
      var prc := ReadInstallHeights();
      var sorted := SortBy(prc, PairHeight);
      results := [];
      for j := 0 to |sorted|
        invariant results == Names(sorted)[..j]
      {
        assert Names(sorted)[..j + 1] == Names(sorted)[..j] + [sorted[j].0];
        results := results + [sorted[j].0];
      }
      assert results == Names(sorted);
      if OwnersOk(db) {
        ListingIsOrdered(db, CursorOrder(BucketOf(db, FieldName(HeightField)).Keys), sorted);
      }
    }

    method GetAllTags() returns (results: seq<string>)
      ensures Ascending(results) && Distinct(results)
      ensures forall t :: t in results <==> IsTag(BucketOf(db, "tags"), t)
    {
      hide IsTag;
      results := TagsIn(BucketOf(db, FieldName(TagsField)));
    }

    // ---- Miniblocks ----

    method StoreMiniblockDetailsByHash(blid: string, minis: seq<MBLInfo>) returns (out: Outcome)
      modifies this`db
      ensures blid == "" ==> out == Refused(KeyRequired) && db == old(db)
      ensures blid != "" ==> out == Stored && db == Put(old(db), MINIS_BUCKET, blid, MinisJson(minis))
    {
      out := Update(MINIS_BUCKET, blid, MinisJson(minis));
    }

    method StoreMiniblockCountByAddress(count: int, addr: string) returns (out: Outcome)
      modifies this`db
      ensures addr == "" ==> out == Refused(KeyRequired) && db == old(db)
      ensures addr != "" ==> out == Stored && db == Put(old(db), COUNTS_BUCKET, addr, CountJson(count))
    {
      out := Update(COUNTS_BUCKET, addr, CountJson(count));
    }

    method GetAllMiniblockDetails() returns (mbldetails: map<string, seq<MBLInfo>>)
      ensures mbldetails == MinisIn(BucketOf(db, MINIS_BUCKET))
    {
      mbldetails := ReadMinis(BucketOf(db, MINIS_BUCKET));
    }
  }

  /** The cursor loop over the stored blocks. */
  method ReadMinis(b: Bucket) returns (mbldetails: map<string, seq<MBLInfo>>)
    ensures mbldetails == MinisIn(b)
  {
    hide CursorOrder, MinisOf;
    var ks := CursorOrder(b.Keys);
    mbldetails := map[];
    for i := 0 to |ks|
      invariant forall k :: k in mbldetails <==> k in ks[..i]
      invariant forall k | k in mbldetails :: k in b && mbldetails[k] == MinisOf(b[k])
    {
      assert ks[..i + 1] == ks[..i] + [ks[i]];
      mbldetails := mbldetails[ks[i] := MinisOf(b[ks[i]])];
    }
    assert ks[..|ks|] == ks;
  }

  lemma FormatNotEmpty(n: int)
    ensures FormatInt(n) != ""
  {
  }

  lemma SortedHeights(heights: seq<Int64>)
    ensures NonDecreasing(SortBy(heights, HeightOf))
    ensures forall h :: h in SortBy(heights, HeightOf) <==> h in heights
  {
    var sorted := SortBy(heights, HeightOf);
    SortBySorted(heights, HeightOf);
    SameMultisetSameElements(sorted, heights);
    forall i, j | 0 <= i < j < |sorted| ensures sorted[i] <= sorted[j] {
      assert HeightOf(sorted[i]) <= HeightOf(sorted[j]);
    }
  }

  /** Rendering the complete fold gives the answers of all snapshots. */
  lemma RenderedView(snaps: Snapshots, hs: seq<Int64>, hVars: seq<Variable>)
    requires (forall h | h in snaps :: h in hs) && (forall h | h in hs :: h in snaps) && NonDecreasing(hs)
    requires forall i, j | 0 <= i < j < |hVars| :: hVars[i].key != hVars[j].key
    requires var m := FoldFirst(snaps, hs, |hs|);
      forall k, v :: Variable(k, v) in hVars <==> k in m && m[k] == v && v != Nil
    ensures IsView(hVars, snaps)
  {
    hide FoldFirst, Answers, NonDecreasing;
    forall k, v ensures Variable(k, v) in hVars <==> Answers(snaps, k, v) {
      FoldAnswers(snaps, hs, k, v);
    }
    forall i | 0 <= i < |hVars| ensures IsScalar(hVars[i].key) && IsScalar(hVars[i].value) {
      assert Variable(hVars[i].key, hVars[i].value) in hVars;
      AnswersAreScalars(snaps, hVars[i].key, hVars[i].value);
    }
  }

  /** Rendering the fold that stopped at the first height above t gives the answers up to t. */
  lemma StoppedView(snaps: Snapshots, hs: seq<Int64>, n: nat, t: Int64, hVars: seq<Variable>)
    requires (forall h :: h in hs <==> h in snaps) && NonDecreasing(hs)
    requires n <= |hs| && (forall p | 0 <= p < n :: hs[p] <= t) && (n < |hs| ==> hs[n] > t)
    requires forall i, j | 0 <= i < j < |hVars| :: hVars[i].key != hVars[j].key
    requires var m := FoldFirst(snaps, hs, n);
      forall k, v :: Variable(k, v) in hVars <==> k in m && m[k] == v && v != Nil
    ensures IsView(hVars, UpTo(snaps, t))
  {
    hide FoldFirst;
    FoldStopped(snaps, hs, n, t, n);
    forall h | h in UpTo(snaps, t) ensures h in hs[..n] {
      var p :| 0 <= p < |hs| && hs[p] == h;
      assert p < n;
      assert hs[..n][p] == h;
    }
    RenderedView(UpTo(snaps, t), hs[..n], hVars);
  }

  lemma KeyIsNew(variables: seq<Variable>, i: nat)
    requires i < |variables| && forall p, q | 0 <= p < q < |variables| :: variables[p].key != variables[q].key
    ensures forall w :: Variable(variables[i].key, w) !in variables[..i]
  {
  }

  lemma KeysFound(variables: seq<Variable>, snaps: Snapshots, val: Any, keysString: seq<string>, keysUint: seq<Uint64>)
    requires IsView(variables, snaps) && Distinct(keysString) && Distinct(keysUint)
    requires forall k :: k in keysString <==> Variable(Text(k), val) in variables
    requires forall n :: n in keysUint <==> Variable(Uint(n), val) in variables
    ensures AreKeysOf(keysString, keysUint, snaps, val)
  {
    hide Answers;
    forall k ensures k in keysString <==> Answers(snaps, Text(k), val) {
      assert Variable(Text(k), val) in variables <==> Answers(snaps, Text(k), val);
    }
    forall n ensures n in keysUint <==> Answers(snaps, Uint(n), val) {
      assert Variable(Uint(n), val) in variables <==> Answers(snaps, Uint(n), val);
    }
  }

  lemma ValuesFound(
    variables: seq<Variable>, snaps: Snapshots, key: Any, valuesString: seq<string>, valuesUint: seq<Uint64>)
    requires IsView(variables, snaps) && |valuesString| + |valuesUint| <= 1
    requires forall v :: v in valuesString <==> Variable(key, Text(v)) in variables
    requires forall n :: n in valuesUint <==> Variable(key, Uint(n)) in variables
    ensures AreValuesOf(valuesString, valuesUint, snaps, key)
  {
    hide Answers;
    forall v ensures v in valuesString <==> Answers(snaps, key, Text(v)) {
      assert Variable(key, Text(v)) in variables <==> Answers(snaps, key, Text(v));
    }
    forall n ensures n in valuesUint <==> Answers(snaps, key, Uint(n)) {
      assert Variable(key, Uint(n)) in variables <==> Answers(snaps, key, Uint(n));
    }
  }

  /** The loops over the stored tags texts and their pieces. */
  method TagsIn(b: Bucket) returns (results: seq<string>)
    ensures Ascending(results) && Distinct(results)
    ensures forall t :: t in results <==> IsTag(b, t)
  {
    var ks := CursorOrder(b.Keys);
    hide CursorOrder, Split;
    var unique: set<string> := {};
    for i := 0 to |ks|
      invariant forall t :: t in unique <==> exists j | 0 <= j < i :: t in Split(TextIn(b[ks[j]]), ",")
    {
      var pieces := Split(TextIn(b[ks[i]]), ",");
      for p := 0 to |pieces|
        invariant forall t :: t in unique <==>
          t in pieces[..p] || exists j | 0 <= j < i :: t in Split(TextIn(b[ks[j]]), ",")
      {
        unique := unique + {pieces[p]};
      }
      assert pieces[..|pieces|] == pieces;
    }
    results := CursorOrder(unique);
    TagsFound(b, ks, unique);
  }

  // ---- Listing contracts by install height ----

  function PairHeight(p: (string, Int64)): int { p.1 }

  function Heighted(b: Bucket, ks: seq<string>): (r: seq<(string, Int64)>)
    requires forall k | k in ks :: k in b
    ensures |r| == |ks| && forall i | 0 <= i < |ks| :: r[i] == (ks[i], ParseInt(TextIn(b[ks[i]])).value)
  {
    seq(|ks|, i requires 0 <= i < |ks| => (ks[i], ParseInt(TextIn(b[ks[i]])).value))
  }

  function Names(ps: seq<(string, Int64)>): (r: seq<string>)
    ensures |r| == |ps| && forall i | 0 <= i < |ps| :: r[i] == ps[i].0
  {
    seq(|ps|, i requires 0 <= i < |ps| => ps[i].0)
  }

  lemma ParsesInstallHeight(db: DB, k: string)
    requires OwnersOk(db) && k in BucketOf(db, FieldName(HeightField))
    ensures ParseInt(TextIn(BucketOf(db, FieldName(HeightField))[k])).ok
  {
    hide FieldName;
    var text := BucketOf(db, FieldName(HeightField))[k].text;
    assert Canonical(text);
    ParseFormat(ParseInt(text).value);
  }

  lemma ListingIsOrdered(db: DB, ks: seq<string>, sorted: seq<(string, Int64)>)
    requires var b := BucketOf(db, FieldName(HeightField));
      Distinct(ks) && (forall k :: k in ks <==> k in b) && sorted == SortBy(Heighted(b, ks), PairHeight)
    ensures IsScidListing(db, Names(sorted))
  {
    hide FieldName, ParseInt, SortBy;
    var b := BucketOf(db, FieldName(HeightField));
    var prc := Heighted(b, ks);
    SortBySorted(prc, PairHeight);
    SameMultisetSameElements(sorted, prc);
    DistinctPairs(prc, sorted);
    forall i | 0 <= i < |sorted| ensures sorted[i].0 in ks && InstallHeight(db, sorted[i].0) == PairHeight(sorted[i]) {
      assert sorted[i] in prc;
    }
    forall i, j | 0 <= i < j < |sorted| ensures InstallHeight(db, sorted[i].0) <= InstallHeight(db, sorted[j].0) {
      assert PairHeight(sorted[i]) <= PairHeight(sorted[j]);
    }
    forall k | k in ks ensures k in Names(sorted) {
      var i :| 0 <= i < |ks| && ks[i] == k;
      assert prc[i] in sorted;
      var j :| 0 <= j < |sorted| && sorted[j] == prc[i];
      assert Names(sorted)[j] == k;
    }
  }

  /** Sorting pairs with different names keeps the names different. */
  lemma DistinctPairs(prc: seq<(string, Int64)>, sorted: seq<(string, Int64)>)
    requires multiset(sorted) == multiset(prc) && forall i, j | 0 <= i < j < |prc| :: prc[i].0 != prc[j].0
    ensures forall i, j | 0 <= i < j < |sorted| :: sorted[i].0 != sorted[j].0
  {
    forall i, j | 0 <= i < j < |sorted| ensures sorted[i].0 != sorted[j].0 {
      if sorted[i].0 == sorted[j].0 {
        SameMultisetSameElements(sorted, prc);
        var p, q := sorted[i], sorted[j];
        assert p in prc && q in prc;
        assert p == q;
        Twice(sorted, i, j);
        Once(prc, p);
        assert false;
      }
    }
  }

  lemma Twice<T>(xs: seq<T>, i: nat, j: nat)
    requires i < j < |xs| && xs[i] == xs[j]
    ensures multiset(xs)[xs[i]] >= 2
  {
    assert xs == xs[..j] + [xs[j]] + xs[j + 1..];
    assert xs[..j][i] == xs[i];
    assert xs[i] in multiset(xs[..j]);
  }

  lemma {:induction false} Once<T>(xs: seq<T>, x: T)
    requires Distinct(xs)
    ensures multiset(xs)[x] <= 1
  {
    if xs != [] {
      Once(xs[1..], x);
      assert xs == [xs[0]] + xs[1..];
      if x == xs[0] {
        assert x !in xs[1..];
        assert x !in multiset(xs[1..]);
      }
    }
  }

  lemma TagsFound(b: Bucket, ks: seq<string>, unique: set<string>)
    requires forall k :: k in ks <==> k in b
    requires forall t :: t in unique <==> exists j | 0 <= j < |ks| :: t in Split(TextIn(b[ks[j]]), ",")
    ensures forall t :: t in unique <==> IsTag(b, t)
  {
    hide Split;
    forall t ensures t in unique <==> IsTag(b, t) {
      if k :| k in b && t in Split(TextIn(b[k]), ",") {
        var j :| 0 <= j < |ks| && ks[j] == k;
        assert t in Split(TextIn(b[ks[j]]), ",");
      }
    }
  }
}
