/** The miniblock writer: running counts per miner, kept beside the stored miniblocks. The set of
    known blocks is read once at the start and never extended. */
module Miniblocks {
  import opened Wrappers
  import opened Records
  import opened FlatStore
  import opened Views
  import opened BboltStore

  datatype MiniStage = MiniStage(hash: string, minis: seq<MBLInfo>)

  type Details = map<string, seq<MBLInfo>>

  // ---- Counting ----

  function CountOf(minis: seq<MBLInfo>, miner: string): nat {
    if minis == [] then 0
    else CountOf(minis[..|minis| - 1], miner) + (if minis[|minis| - 1].miner == miner then 1 else 0)
  }

  /** The miniblocks of a miner over all blocks. */
  ghost function Total(details: Details, miner: string): nat
    decreases |details|
  {
    if details == map[] then 0
    else
      var k :| k in details;
      CountOf(details[k], miner) + Total(details - {k}, miner)
  }

  /** It does not matter which block is counted first. */
  lemma {:induction false} TotalSplit(details: Details, k: string, miner: string)
    requires k in details
    ensures Total(details, miner) == CountOf(details[k], miner) + Total(details - {k}, miner)
    decreases |details|
  {
    var j :| j in details && Total(details, miner) == CountOf(details[j], miner) + Total(details - {j}, miner);
    if j != k {
      TotalSplit(details - {j}, k, miner);
      TotalSplit(details - {k}, j, miner);
      assert details - {j} - {k} == details - {k} - {j};
    }
  }

  lemma TotalUpdate(details: Details, k: string, minis: seq<MBLInfo>, miner: string)
    ensures Total(details[k := minis], miner) ==
      Total(details, miner) + CountOf(minis, miner) - (if k in details then CountOf(details[k], miner) else 0)
  {
    TotalSplit(details[k := minis], k, miner);
    assert details[k := minis] - {k} == details - {k};
    if k in details {
      TotalSplit(details, k, miner);
    } else {
      assert details - {k} == details;
    }
  }

  function Lookup(counts: map<string, int>, miner: string): int {
    if miner in counts then counts[miner] else 0
  }

  // ---- What the writer does with one staged block ----

  /** `known` is all_details; `blocks` and `written` are the two buckets; `counts` is miner_map. */
  datatype State = State(known: Details, blocks: Bucket, written: Bucket, counts: map<string, int>)

  function CountFirst(s: State, minis: seq<MBLInfo>, n: nat): State
    requires n <= |minis|
  {
    if n == 0 then s
    else
      var r := CountFirst(s, minis, n - 1);
      var miner := minis[n - 1].miner;
      var count := Lookup(r.counts, miner) + 1;
      r.(counts := r.counts[miner := count],
         written := if miner == "" then r.written else r.written[miner := CountJson(count)])
  }

  function Work(s: State, staged: MiniStage): State {
    if staged.hash in s.known then s
    else
      var r := s.(blocks := if staged.hash == "" then s.blocks else s.blocks[staged.hash := MinisJson(staged.minis)]);
      CountFirst(r, staged.minis, |staged.minis|)
  }

  function Run(s: State, stages: seq<MiniStage>): State {
    if stages == [] then s else Work(Run(s, stages[..|stages| - 1]), stages[|stages| - 1])
  }

  class MiniWriter {
    const d: Store
    const all_details: Details
    var miner_map: map<string, int>

    ghost function View(): State
      reads this, d
    {
      State(all_details, BucketOf(d.db, MINIS_BUCKET), BucketOf(d.db, COUNTS_BUCKET), miner_map)
    }

    /** The start of mini_db_writer: read what is stored, count it per miner. */
    constructor (database: Store)
      ensures d == database && d.db == old(database.db)
      ensures View().known == MinisIn(BucketOf(database.db, MINIS_BUCKET))
      ensures forall m :: Lookup(miner_map, m) == Total(all_details, m)
      ensures Started(View())
    {
      d := database;
      var details := database.GetAllMiniblockDetails();
      var counts := CountAll(details);
      all_details := details;
      miner_map := counts;
    }

    /** The closure `work`. */
    method Stage(staged: MiniStage)
      modifies this, d
      ensures View() == Work(old(View()), staged)
      ensures forall n | n != MINIS_BUCKET && n != COUNTS_BUCKET :: BucketOf(d.db, n) == BucketOf(old(d.db), n)
    {
      if staged.hash in all_details {
        return;
      }
      var _ := d.StoreMiniblockDetailsByHash(staged.hash, staged.minis);
      ghost var s := View();
      for i := 0 to |staged.minis|
        invariant View() == CountFirst(s, staged.minis, i)
        invariant forall n | n != MINIS_BUCKET && n != COUNTS_BUCKET :: BucketOf(d.db, n) == BucketOf(old(d.db), n)
      {
        var miner := staged.minis[i].miner;
        miner_map := miner_map[miner := Lookup(miner_map, miner) + 1];
        var _ := d.StoreMiniblockCountByAddress(miner_map[miner], miner);
      }
    }

    /** The loop over the queue. On a writer just started, a miner's count ends as the number of its
        stored miniblocks plus the extra occurrences, and all
        counts agree exactly when no stage replaces content. */
    method StageAll(stages: seq<MiniStage>)
      modifies this, d
      ensures View() == Run(old(View()), stages)
      ensures Started(old(View())) ==>
        forall m :: Lookup(miner_map, m) ==
          Total(MinisIn(BucketOf(d.db, MINIS_BUCKET)), m) + Extra(all_details, stages, m)
      ensures Started(old(View())) ==>
        ((forall m :: Lookup(miner_map, m) == Total(MinisIn(BucketOf(d.db, MINIS_BUCKET)), m)) <==>
         forall i | 0 <= i < |stages| :: Harmless(all_details, stages, i))
      ensures forall n | n != MINIS_BUCKET && n != COUNTS_BUCKET :: BucketOf(d.db, n) == BucketOf(old(d.db), n)
    {
      hide Work, Started, MinisIn, Harmless;
      ghost var s0 := View();
      for i := 0 to |stages|
        invariant View() == Run(s0, stages[..i])
        invariant forall n | n != MINIS_BUCKET && n != COUNTS_BUCKET :: BucketOf(d.db, n) == BucketOf(old(d.db), n)
      {
        assert stages[..i + 1][..i] == stages[..i];
        Stage(stages[i]);
      }
      assert stages[..|stages|] == stages;
      if Started(s0) {
        forall m ensures
          Lookup(miner_map, m) == Total(MinisIn(BucketOf(d.db, MINIS_BUCKET)), m) + Extra(all_details, stages, m)
        {
          CountsDriftExactly(s0, stages, m);
        }
        assert s0.known == all_details;
        CountsAgreeIff(s0, stages);
        forall m ensures Agrees(s0, stages, m) <==>
          Lookup(miner_map, m) == Total(MinisIn(BucketOf(d.db, MINIS_BUCKET)), m)
        {
        }
      }
    }
  }

  /** The two nested loops over the stored miniblocks, blocks in whatever order the map gives them. */
  method CountAll(details: Details) returns (counts: map<string, int>)
    ensures forall m :: Lookup(counts, m) == Total(details, m)
  {
    counts := map[];
    var left := details;
    while left != map[]
      invariant forall m :: Lookup(counts, m) + Total(left, m) == Total(details, m)
      decreases |left|
    {
      var k :| k in left;
      var minis := left[k];
      forall m ensures Total(left, m) == CountOf(minis, m) + Total(left - {k}, m) {
        TotalSplit(left, k, m);
      }
      ghost var before := counts;
      for i := 0 to |minis|
        invariant forall m :: Lookup(counts, m) == Lookup(before, m) + CountOf(minis[..i], m)
      {
        assert minis[..i + 1][..i] == minis[..i];
        counts := counts[minis[i].miner := Lookup(counts, minis[i].miner) + 1];
      }
      assert minis[..|minis|] == minis;
      left := left - {k};
    }
  }

  // ---- Counts against stored blocks ----

  lemma {:induction false} CountFirstAdds(s: State, minis: seq<MBLInfo>, n: nat, miner: string)
    requires n <= |minis|
    ensures var r := CountFirst(s, minis, n);
      Lookup(r.counts, miner) == Lookup(s.counts, miner) + CountOf(minis[..n], miner) &&
      r.known == s.known && r.blocks == s.blocks
  {
    if n > 0 {
      CountFirstAdds(s, minis, n - 1, miner);
      assert minis[..n][..n - 1] == minis[..n - 1];
    }
  }

  /** Processing a block not known at the start adds its miniblocks to the running counts; the stored
      total grows by the same amount less what the block's earlier content had. */
  lemma WorkAdds(s: State, staged: MiniStage, miner: string)
    requires staged.hash !in s.known
    ensures var r := Work(s, staged);
      r.known == s.known &&
      Lookup(r.counts, miner) == Lookup(s.counts, miner) + CountOf(staged.minis, miner) &&
      (staged.hash == "" ==> r.blocks == s.blocks) &&
      (staged.hash != "" ==> MinisIn(r.blocks) == MinisIn(s.blocks)[staged.hash := staged.minis])
  {
    assert staged.minis[..|staged.minis|] == staged.minis;
    var r := s.(blocks := if staged.hash == "" then s.blocks else s.blocks[staged.hash := MinisJson(staged.minis)]);
    CountFirstAdds(r, staged.minis, |staged.minis|, miner);
    if staged.hash != "" {
      assert MinisIn(r.blocks) == MinisIn(s.blocks)[staged.hash := staged.minis];
    }
  }

  /** The content the run last stored for this hash, if it stored any. */
  function LastContent(known: Details, stages: seq<MiniStage>, hash: string): Option<seq<MBLInfo>> {
    if stages == [] then None
    else
      var last := stages[|stages| - 1];
      if last.hash == hash && hash !in known then Some(last.minis)
      else LastContent(known, stages[..|stages| - 1], hash)
  }

  /** The miniblocks counted once too often: for every repeated hash those of the content it replaces,
      and those of a block without a hash, which is counted and not stored. */
  function Extra(known: Details, stages: seq<MiniStage>, miner: string): nat {
    if stages == [] then 0
    else
      var before, last := stages[..|stages| - 1], stages[|stages| - 1];
      Extra(known, before, miner) +
      (if last.hash in known then 0
       else if last.hash == "" then CountOf(last.minis, miner)
       else match LastContent(known, before, last.hash)
         case Some(minis) => CountOf(minis, miner)
         case None => 0)
  }

  /** A writer just started on a store. */
  ghost predicate Started(s: State) {
    s.known == MinisIn(s.blocks) && forall m :: Lookup(s.counts, m) == Total(s.known, m)
  }

  lemma {:induction false} BlocksOfRun(s: State, stages: seq<MiniStage>, hash: string)
    requires Started(s)
    ensures var r := Run(s, stages);
      r.known == s.known &&
      (hash in s.known ==> hash in MinisIn(r.blocks) && MinisIn(r.blocks)[hash] == s.known[hash]) &&
      (hash !in s.known && hash != "" ==>
        match LastContent(s.known, stages, hash)
        case Some(minis) => hash in MinisIn(r.blocks) && MinisIn(r.blocks)[hash] == minis
        case None => hash !in MinisIn(r.blocks))
  {
    hide Work, MinisIn;
    if stages != [] {
      var n := |stages| - 1;
      BlocksOfRun(s, stages[..n], hash);
      if stages[n].hash in s.known {
        KnownIsSkipped(Run(s, stages[..n]), stages[n]);
      } else {
        WorkAdds(Run(s, stages[..n]), stages[n], "");
      }
    }
  }

  lemma KnownIsSkipped(s: State, staged: MiniStage)
    requires staged.hash in s.known
    ensures Work(s, staged) == s
  {
  }

  /** After every processed block, whatever the stages: a miner's running count is the number of its
      stored miniblocks plus exactly the extra occurrences. */
  lemma {:induction false} CountsDriftExactly(s: State, stages: seq<MiniStage>, miner: string)
    requires Started(s)
    ensures var r := Run(s, stages);
      Lookup(r.counts, miner) == Total(MinisIn(r.blocks), miner) + Extra(s.known, stages, miner)
  {
    hide Work, MinisIn, LastContent;
    if stages != [] {
      var n := |stages| - 1;
      var before := Run(s, stages[..n]);
      CountsDriftExactly(s, stages[..n], miner);
      BlocksOfRun(s, stages[..n], stages[n].hash);
      if stages[n].hash in s.known {
        KnownIsSkipped(before, stages[n]);
      } else {
        WorkAdds(before, stages[n], miner);
        TotalUpdate(MinisIn(before.blocks), stages[n].hash, stages[n].minis, miner);
      }
    }
  }

  /** Hashes the writer does not skip are there and different. */
  ghost predicate FreshHashes(known: Details, stages: seq<MiniStage>) {
    (forall i | 0 <= i < |stages| && stages[i].hash !in known :: stages[i].hash != "") &&
    (forall i, j | 0 <= i < j < |stages| && stages[i].hash !in known :: stages[i].hash != stages[j].hash)
  }

  lemma {:induction false} NotStoredBefore(known: Details, stages: seq<MiniStage>, hash: string)
    requires forall i | 0 <= i < |stages| && stages[i].hash !in known :: stages[i].hash != hash
    ensures LastContent(known, stages, hash) == None
  {
    if stages != [] {
      NotStoredBefore(known, stages[..|stages| - 1], hash);
    }
  }

  lemma {:induction false} NoExtra(known: Details, stages: seq<MiniStage>, miner: string)
    requires FreshHashes(known, stages)
    ensures Extra(known, stages, miner) == 0
  {
    if stages != [] {
      var n := |stages| - 1;
      NoExtra(known, stages[..n], miner);
      if stages[n].hash !in known {
        NotStoredBefore(known, stages[..n], stages[n].hash);
      }
    }
  }

  /** Stage i costs no count: it is skipped, or it replaces nothing but empty content, or it has neither
      a hash nor miniblocks. */
  predicate Harmless(known: Details, stages: seq<MiniStage>, i: nat)
    requires i < |stages|
  {
    var hash := stages[i].hash;
    hash in known ||
    (hash == "" && stages[i].minis == []) ||
    (hash != "" && (LastContent(known, stages[..i], hash).None? || LastContent(known, stages[..i], hash).value == []))
  }

  lemma {:induction false} ExtraPositive(known: Details, stages: seq<MiniStage>, i: nat, minis: seq<MBLInfo>)
    requires i < |stages| && stages[i].hash !in known && minis != []
    requires if stages[i].hash == "" then minis == stages[i].minis
      else LastContent(known, stages[..i], stages[i].hash) == Some(minis)
    ensures Extra(known, stages, minis[|minis| - 1].miner) > 0
  {
    var n := |stages| - 1;
    if i < n {
      assert stages[..n][..i] == stages[..i];
      ExtraPositive(known, stages[..n], i, minis);
    }
  }

  lemma {:induction false} HarmlessNoExtra(known: Details, stages: seq<MiniStage>, miner: string)
    requires forall i | 0 <= i < |stages| :: Harmless(known, stages, i)
    ensures Extra(known, stages, miner) == 0
  {
    if stages != [] {
      var n := |stages| - 1;
      forall i | 0 <= i < n ensures Harmless(known, stages[..n], i) {
        assert stages[..n][..i] == stages[..i];
        assert Harmless(known, stages, i);
      }
      HarmlessNoExtra(known, stages[..n], miner);
      assert Harmless(known, stages, n);
    }
  }

  /** After the run, the miner's running count is the number of its stored miniblocks. */
  ghost predicate Agrees(s: State, stages: seq<MiniStage>, miner: string) {
    Lookup(Run(s, stages).counts, miner) == Total(MinisIn(Run(s, stages).blocks), miner)
  }

  /** With distinct non-skipped hashes the counts agree with the stored blocks after every block. */
  lemma CountsAgree(s: State, stages: seq<MiniStage>, miner: string)
    requires Started(s) && FreshHashes(s.known, stages)
    ensures Agrees(s, stages, miner)
  {
    CountsDriftExactly(s, stages, miner);
    NoExtra(s.known, stages, miner);
  }

  /** The counts of all miners agree with the stored blocks exactly when no stage replaces content that
      holds miniblocks (and none without a hash brings any). */
  lemma CountsAgreeIff(s: State, stages: seq<MiniStage>)
    requires Started(s)
    ensures (forall m :: Agrees(s, stages, m)) <==> forall i | 0 <= i < |stages| :: Harmless(s.known, stages, i)
  {
    hide Harmless, Extra, Total, Run;
    forall m ensures Agrees(s, stages, m) <==> Extra(s.known, stages, m) == 0 {
      CountsDriftExactly(s, stages, m);
    }
    hide Agrees;
    if forall i | 0 <= i < |stages| :: Harmless(s.known, stages, i) {
      forall m ensures Agrees(s, stages, m) {
        HarmlessNoExtra(s.known, stages, m);
      }
    } else {
      var i :| 0 <= i < |stages| && !Harmless(s.known, stages, i);
      var m := HarmfulMiner(s.known, stages, i);
      assert !Agrees(s, stages, m);
    }
  }

  lemma HarmfulMiner(known: Details, stages: seq<MiniStage>, i: nat) returns (m: string)
    requires i < |stages| && !Harmless(known, stages, i)
    ensures Extra(known, stages, m) > 0
  {
    hide Extra, LastContent;
    var minis :=
      if stages[i].hash == "" then stages[i].minis else LastContent(known, stages[..i], stages[i].hash).value;
    ExtraPositive(known, stages, i, minis);
    m := minis[|minis| - 1].miner;
  }

  /** One block staged twice: the count is twice the miniblocks that are stored. */
  lemma RepeatedBlockCountsTwice(s: State, hash: string, minis: seq<MBLInfo>, miner: string)
    requires Started(s) && hash !in s.known && hash != ""
    ensures var staged := MiniStage(hash, minis);
      var r := Run(s, [staged, staged]);
      Lookup(r.counts, miner) == Total(MinisIn(r.blocks), miner) + CountOf(minis, miner)
  {
    var staged := MiniStage(hash, minis);
    CountsDriftExactly(s, [staged, staged], miner);
    assert [staged, staged][..1] == [staged];
    assert [staged][..0] == [];
    assert LastContent(s.known, [staged], hash) == Some(minis);
    assert Extra(s.known, [staged], miner) == 0;
  }

  // ---- Stored counts ----

  ghost predicate CountStored(s: State, miner: string) {
    miner in s.written && s.written[miner] == CountJson(Lookup(s.counts, miner))
  }

  predicate Mined(minis: seq<MBLInfo>, miner: string) {
    exists i | 0 <= i < |minis| :: minis[i].miner == miner
  }

  lemma {:induction false} CountFirstStores(s: State, minis: seq<MBLInfo>, n: nat, miner: string)
    requires n <= |minis| && miner != ""
    requires CountStored(s, miner) || Mined(minis[..n], miner)
    ensures CountStored(CountFirst(s, minis, n), miner)
  {
    if n > 0 && minis[n - 1].miner != miner {
      if !CountStored(s, miner) {
        var i :| 0 <= i < n && minis[..n][i].miner == miner;
        assert minis[..n - 1][i].miner == miner;
      }
      CountFirstStores(s, minis, n - 1, miner);
    }
  }

  /** The run counted a miniblock of this miner. */
  ghost predicate CountedIn(known: Details, stages: seq<MiniStage>, miner: string) {
    exists i | 0 <= i < |stages| :: stages[i].hash !in known && Mined(stages[i].minis, miner)
  }

  /** For every miner the run has counted, the stored count is the running count, after every block. */
  lemma {:induction false} StoredCountsFollow(s: State, stages: seq<MiniStage>, miner: string)
    requires Started(s) && miner != ""
    ensures CountedIn(s.known, stages, miner) || CountStored(s, miner) ==> CountStored(Run(s, stages), miner)
  {
    hide CountStored, Mined;
    if stages != [] {
      var n := |stages| - 1;
      StoredCountsFollow(s, stages[..n], miner);
      BlocksOfRun(s, stages[..n], "");
      var before, staged := Run(s, stages[..n]), stages[n];
      if staged.hash !in s.known {
        var blocks :=
          if staged.hash == "" then before.blocks else before.blocks[staged.hash := MinisJson(staged.minis)];
        var r := before.(blocks := blocks);
        assert staged.minis[..|staged.minis|] == staged.minis;
        CountStoredSame(before, r, miner);
        if CountStored(before, miner) || Mined(staged.minis, miner) {
          CountFirstStores(r, staged.minis, |staged.minis|, miner);
        }
      }
      if CountedIn(s.known, stages, miner) && !(staged.hash !in s.known && Mined(staged.minis, miner)) {
        var i :| 0 <= i < |stages| && stages[i].hash !in s.known && Mined(stages[i].minis, miner);
        assert stages[..n][i] == stages[i];
      }
    }
  }

  lemma CountStoredSame(s: State, r: State, miner: string)
    requires s.written == r.written && s.counts == r.counts
    ensures CountStored(s, miner) <==> CountStored(r, miner)
  {
  }
}
