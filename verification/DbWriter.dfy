/** The callers of the store: the single goroutine that writes queued contracts, and the callback
    that files a transaction under every ring member. */
module DbWriter {
  import opened Wrappers
  import opened Records
  import opened FlatStore
  import opened TypedIndex
  import opened Interleaving
  import opened BboltStore

  /** scid_db_writer on its main database: stage after stage; any error ends the process. */
  method WriteStages(d: Store, stages: seq<Stage>) returns (fatal: bool)
    requires !d.writing
    modifies d
    ensures !d.writing
    ensures !fatal ==> d.db == SerialRun(old(d.db), stages)
    ensures fatal ==>
      exists i | 0 <= i < |stages| :: !Accepted(stages[i]) && d.db == SerialRun(old(d.db), stages[..i + 1])
  {
    fatal := false;
    for i := 0 to |stages|
      invariant !d.writing
      invariant d.db == SerialRun(old(d.db), stages[..i])
    {
      var out := d.AddSCIDToIndex(stages[i]);
      assert stages[..i + 1][..i] == stages[..i] && stages[..i + 1][i] == stages[i];
      assert d.db == SerialRun(old(d.db), stages[..i + 1]);
      if out != Stored {
        assert !Accepted(stages[i]);
        return true;
      }
    }
    assert stages[..|stages|] == stages;
  }

  /** The list of an address after a callback for these ring members. */
  function Filed(before: Option<seq<NormalTx>>, tx: NormalTx): Option<seq<NormalTx>> {
    if before.Some? && HasTxid(before.value, tx.txid) then before
    else Some((if before.Some? then before.value else []) + [tx])
  }

  function FiledIf(ring: seq<string>, addr: string, before: Option<seq<NormalTx>>, tx: NormalTx): Option<seq<NormalTx>>
  {
    if addr in ring && addr != "" then Filed(before, tx) else before
  }

  /** ringmember_callback: every ring member's list holds the Txid afterwards, once, and no other list
      changes. */
  method RingmemberCallback(d: Store, ring: seq<string>, tx: NormalTx)
    modifies d
    ensures forall a :: ReadTxs(d.db, a) == FiledIf(ring, a, ReadTxs(old(d.db), a), tx)
    ensures SameBesideOthers(old(d.db), d.db)
  {
    for i := 0 to |ring|
      invariant forall a :: ReadTxs(d.db, a) == FiledIf(ring[..i], a, ReadTxs(old(d.db), a), tx)
      invariant SameBesideOthers(old(d.db), d.db)
    {
      ghost var before := d.db;
      var _ := d.StoreNormalTxWithSCIDByAddr(ring[i], tx);
      forall a
        ensures ReadTxs(d.db, a) ==
          if a == ring[i] && a != "" then Filed(ReadTxs(before, a), tx) else ReadTxs(before, a)
      {
        if ring[i] != "" {
          FiledBy(before, ring[i], tx, a);
        }
      }
      FiledTwice(tx);
      assert ring[..i + 1] == ring[..i] + [ring[i]];
    }
    assert ring[..|ring|] == ring;
  }

  // ---- All payloads of a transaction ----

  /** crypto.ZEROHASH as text. */
  function ZeroHash(): (z: string)
    ensures AllZeros(z)
  {
    seq(64, _ => '0')
  }

  /** A payload as the callback sees it: its asset and the members of its ring. */
  datatype Payload = Payload(scid: string, ring: seq<string>)

  /** The record filed for a payload of the transaction. */
  function RecordFor(tx: NormalTx, payload: Payload): (r: NormalTx)
    ensures r.scid == payload.scid && r.txid == tx.txid && r.fees == tx.fees && r.height == tx.height
  {
    tx.(scid := payload.scid)
  }

  predicate Reaches(payload: Payload, addr: string) {
    payload.scid != ZeroHash() && addr in payload.ring && addr != ""
  }

  /** The first payload that reaches the address, or the number of payloads. */
  function FirstFor(payloads: seq<Payload>, addr: string): (j: nat)
    ensures j <= |payloads|
    ensures j < |payloads| ==> Reaches(payloads[j], addr)
    ensures forall i | 0 <= i < j :: !Reaches(payloads[i], addr)
  {
    if payloads == [] || Reaches(payloads[0], addr) then 0 else FirstFor(payloads[1..], addr) + 1
  }

  /** An address's list after all payloads: it gains the record of the first payload that reaches it,
      unless it holds the Txid already, and no other. */
  function FiledFirst(
    payloads: seq<Payload>, addr: string, before: Option<seq<NormalTx>>, tx: NormalTx): Option<seq<NormalTx>>
  {
    var j := FirstFor(payloads, addr);
    if j < |payloads| then Filed(before, RecordFor(tx, payloads[j])) else before
  }

  /** tx_payload_callback: one callback per payload with an asset. */
  method PayloadCallback(d: Store, payloads: seq<Payload>, tx: NormalTx)
    modifies d
    ensures forall a :: ReadTxs(d.db, a) == FiledFirst(payloads, a, ReadTxs(old(d.db), a), tx)
    ensures SameBesideOthers(old(d.db), d.db)
    ensures forall a | OnlyBaseAsset(payloads, a) :: ReadTxs(d.db, a) == ReadTxs(old(d.db), a)
    ensures forall a, j | 0 <= j < |payloads| && !AllZeros(payloads[j].scid) && a in payloads[j].ring && a != "" ::
      ReadTxs(d.db, a).Some? && HasTxid(ReadTxs(d.db, a).value, tx.txid)
  {
    hide AllZeros;
    for j := 0 to |payloads|
      invariant forall a :: ReadTxs(d.db, a) == FiledFirst(payloads[..j], a, ReadTxs(old(d.db), a), tx)
      invariant SameBesideOthers(old(d.db), d.db)
    {
      ghost var before := d.db;
      if payloads[j].scid != ZeroHash() {
        RingmemberCallback(d, payloads[j].ring, RecordFor(tx, payloads[j]));
      }
      forall a
        ensures ReadTxs(d.db, a) == FiledFirst(payloads[..j + 1], a, ReadTxs(old(d.db), a), tx)
      {
        assert ReadTxs(d.db, a) ==
          if Reaches(payloads[j], a) then Filed(ReadTxs(before, a), RecordFor(tx, payloads[j])) else ReadTxs(before, a);
        OnePayloadMore(payloads, j, a, ReadTxs(old(d.db), a), tx);
      }
    }
    assert payloads[..|payloads|] == payloads;
    forall a | OnlyBaseAsset(payloads, a) ensures ReadTxs(d.db, a) == ReadTxs(old(d.db), a) {
      BaseAssetNotFiled(payloads, a);
    }
    forall a, j | 0 <= j < |payloads| && !AllZeros(payloads[j].scid) && a in payloads[j].ring && a != ""
      ensures ReadTxs(d.db, a).Some? && HasTxid(ReadTxs(d.db, a).value, tx.txid)
    {
      AssetFiled(payloads, a, j, ReadTxs(old(d.db), a), tx);
    }
  }

  /** An asset id of 64 zeros: the base asset. */
  predicate AllZeros(scid: string) {
    |scid| == 64 && forall c | c in scid :: c == '0'
  }

  /** The address is only in rings of base-asset payloads. */
  ghost predicate OnlyBaseAsset(payloads: seq<Payload>, addr: string) {
    forall j | 0 <= j < |payloads| && addr in payloads[j].ring :: AllZeros(payloads[j].scid)
  }

  lemma ZerosAreTheHash(scid: string)
    ensures AllZeros(scid) <==> scid == ZeroHash()
  {
    var z := ZeroHash();
    if AllZeros(scid) {
      forall i | 0 <= i < 64 ensures scid[i] == z[i] {
        assert scid[i] in scid && z[i] in z;
      }
    }
  }

  lemma BaseAssetNotFiled(payloads: seq<Payload>, addr: string)
    requires OnlyBaseAsset(payloads, addr)
    ensures FirstFor(payloads, addr) == |payloads|
  {
    hide AllZeros;
    var j := FirstFor(payloads, addr);
    if j < |payloads| {
      ZerosAreTheHash(payloads[j].scid);
    }
  }

  lemma AssetFiled(payloads: seq<Payload>, addr: string, j: nat, before: Option<seq<NormalTx>>, tx: NormalTx)
    requires j < |payloads| && !AllZeros(payloads[j].scid) && addr in payloads[j].ring && addr != ""
    ensures var after := FiledFirst(payloads, addr, before, tx); after.Some? && HasTxid(after.value, tx.txid)
  {
    ZerosAreTheHash(payloads[j].scid);
    assert Reaches(payloads[j], addr);
    hide FirstFor, Reaches, AllZeros;
    var i := FirstFor(payloads, addr);
    assert i < |payloads|;
    var list := Filed(before, RecordFor(tx, payloads[i])).value;
    if !(before.Some? && HasTxid(before.value, tx.txid)) {
      assert list[|list| - 1].txid == tx.txid;
    }
  }

  lemma FirstForMore(payloads: seq<Payload>, j: nat, addr: string)
    requires j < |payloads|
    ensures FirstFor(payloads[..j + 1], addr) ==
      if FirstFor(payloads[..j], addr) < j then FirstFor(payloads[..j], addr)
      else if Reaches(payloads[j], addr) then j else j + 1
  {
    var i, k := FirstFor(payloads[..j], addr), FirstFor(payloads[..j + 1], addr);
    assert forall m | 0 <= m < j :: payloads[..j + 1][m] == payloads[..j][m];
  }

  lemma OnePayloadMore(
    payloads: seq<Payload>, j: nat, addr: string, before: Option<seq<NormalTx>>, tx: NormalTx)
    requires j < |payloads|
    ensures var mid := FiledFirst(payloads[..j], addr, before, tx);
      FiledFirst(payloads[..j + 1], addr, before, tx) ==
        if Reaches(payloads[j], addr) then Filed(mid, RecordFor(tx, payloads[j])) else mid
  {
    hide FirstFor, Reaches;
    FirstForMore(payloads, j, addr);
    var i := FirstFor(payloads[..j], addr);
    if i < j {
      assert payloads[..j + 1][i] == payloads[..j][i];
      FiledOnce(before, RecordFor(tx, payloads[i]), RecordFor(tx, payloads[j]));
    }
  }

  /** Once a record with the Txid is filed, no other one is. */
  lemma FiledOnce(before: Option<seq<NormalTx>>, tx: NormalTx, other: NormalTx)
    requires tx.txid == other.txid
    ensures Filed(Filed(before, tx), other) == Filed(before, tx)
  {
    var list := Filed(before, tx).value;
    if !(before.Some? && HasTxid(before.value, tx.txid)) {
      assert list[|list| - 1].txid == tx.txid;
    }
  }

  predicate HasPair(list: Option<seq<NormalTx>>, txid: string, scid: string) {
    list.Some? && exists i | 0 <= i < |list.value| :: list.value[i].txid == txid && list.value[i].scid == scid
  }

  /** So the asset of a payload is on record for a member exactly when it was before, or the Txid was not
      and the first payload that reaches the member is of that asset: any second asset is missing. */
  lemma PairFiledIff(
    payloads: seq<Payload>, addr: string, before: Option<seq<NormalTx>>, tx: NormalTx, scid: string)
    ensures HasPair(FiledFirst(payloads, addr, before, tx), tx.txid, scid) <==>
      HasPair(before, tx.txid, scid) ||
      (!(before.Some? && HasTxid(before.value, tx.txid)) &&
       FirstFor(payloads, addr) < |payloads| && payloads[FirstFor(payloads, addr)].scid == scid)
  {
    hide FirstFor;
    var j := FirstFor(payloads, addr);
    if j < |payloads| && !(before.Some? && HasTxid(before.value, tx.txid)) {
      var list := Filed(before, RecordFor(tx, payloads[j])).value;
      assert list[|list| - 1] == RecordFor(tx, payloads[j]);
      assert forall i | 0 <= i < |list| - 1 :: before.Some? && list[i] == before.value[i];
    }
  }

  lemma FiledBy(db: DB, addr: string, tx: NormalTx, a: string)
    requires addr != ""
    ensures ReadTxs(CommitTxs(db, addr, ReadTxs(db, addr), tx), a) ==
      if a == addr then Filed(ReadTxs(db, a), tx) else ReadTxs(db, a)
  {
    assert ReadTxs(db, addr).None? ==> [] + [tx] == [tx];
  }

  /** An address that occurs twice in a ring is filed once. */
  lemma FiledTwice(tx: NormalTx)
    ensures forall before :: Filed(Filed(before, tx), tx) == Filed(before, tx)
  {
    forall before ensures Filed(Filed(before, tx), tx) == Filed(before, tx) {
      FiledOnce(before, tx, tx);
    }
  }
}
