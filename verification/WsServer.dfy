/** The two listing arms of the WebSocket reply that join a query result with the height-ordered
    list of all contracts. */
module WsServer {
  import opened GoStrings
  import opened FlatStore
  import opened TypedIndex
  import opened Views
  import opened BboltStore

  /** The contracts whose field holds the text: each once, install heights never falling. */
  ghost predicate IsJoinedListing(db: DB, field: Field, text: string, list: seq<string>) {
    Distinct(list) && HeightOrdered(db, list) &&
    forall s :: s in list <==>
      s in BucketOf(db, FieldName(field)) && Contains(TextIn(BucketOf(db, FieldName(field))[s]), text)
  }

  /** The loop over the height-ordered list. */
  method Join(db: DB, ordered: seq<string>, scids: seq<string>) returns (list: seq<string>)
    ensures Distinct(ordered) ==> Distinct(list)
    ensures HeightOrdered(db, ordered) ==> HeightOrdered(db, list)
    ensures forall s :: s in list <==> s in ordered && s in scids
  {
    hide InstallHeight;
    list := [];
    ghost var at: seq<nat> := [];
    for i := 0 to |ordered|
      invariant |at| == |list| && forall p | 0 <= p < |at| :: at[p] < i && list[p] == ordered[at[p]]
      invariant forall p, q | 0 <= p < q < |at| :: at[p] < at[q]
      invariant forall s :: s in list <==> s in ordered[..i] && s in scids
    {
      assert ordered[..i + 1] == ordered[..i] + [ordered[i]];
      if ordered[i] in scids {
        list := list + [ordered[i]];
        at := at + [i];
      }
    }
    assert ordered[..|ordered|] == ordered;
  }

  method GetAllSCIDsByClass(d: Store, class_: string) returns (list: seq<string>)
    ensures OwnersOk(d.db) ==> IsJoinedListing(d.db, ClassField, class_, list)
  {
    hide AreMatches, IsJoinedListing, HeightOrdered, OwnersOk;
    var scids := d.GetAllSCIDsByClass(class_);
    var ordered := d.GetAllSCIDs();
    list := Join(d.db, ordered, scids);
    if OwnersOk(d.db) {
      JoinIsListing(d.db, ClassField, class_, ordered, scids, list);
    }
  }

  method GetAllSCIDsByTag(d: Store, tag: string) returns (list: seq<string>)
    ensures OwnersOk(d.db) ==> IsJoinedListing(d.db, TagsField, tag, list)
  {
    hide AreMatches, IsJoinedListing, HeightOrdered, OwnersOk;
    var scids := d.GetAllSCIDsByTag(tag);
    var ordered := d.GetAllSCIDs();
    list := Join(d.db, ordered, scids);
    if OwnersOk(d.db) {
      JoinIsListing(d.db, TagsField, tag, ordered, scids, list);
    }
  }

  /** Nothing is missing from the join, because the owner buckets hold the same contracts. */
  lemma JoinIsListing(db: DB, field: Field, text: string, ordered: seq<string>, scids: seq<string>, list: seq<string>)
    requires OwnersOk(db) && IsScidListing(db, ordered) && AreMatches(scids, BucketOf(db, FieldName(field)), text)
    requires Distinct(list) && HeightOrdered(db, list) && forall s :: s in list <==> s in ordered && s in scids
    ensures IsJoinedListing(db, field, text, list)
  {
    hide FieldName, Contains, HeightOrdered;
    assert BucketOf(db, FieldName(field)).Keys == BucketOf(db, FieldName(HeightField)).Keys;
  }
}
