/** A list that is extended by reading it in one transaction and writing it in another: the
    protocol of StoreNormalTxWithSCIDByAddr (one list per address, entries told apart by Txid) and
    of StoreSCIDInteractionHeight (one list per contract), run by any number of writers at once. */
module ReadThenWrite {
  import opened Wrappers
  import opened FlatStore

  /** One call: extend the list under `key` by `item`. */
  datatype Writer<T> = Writer(key: string, item: T)

  /** Between its two transactions a writer holds what it read; `seen` counts the commits to the
      list that came before that read. */
  datatype Phase<T> = Idle | Holding(read: Option<seq<T>>, seen: nat) | Done

  datatype Commit = Commit(writer: nat, seen: nat)

  /** The list under one key, with all its committed versions (the first is the initial one) and
      who committed each later version. */
  datatype World<T> = World(list: Option<seq<T>>, phases: seq<Phase<T>>, versions: seq<seq<T>>, log: seq<Commit>)

  function Content<T>(list: Option<seq<T>>): seq<T> {
    if list.None? then [] else list.value
  }

  /** Some entry of the list has the same identity as x. */
  predicate Present<T, I(==)>(list: seq<T>, x: T, id: T -> I) {
    exists i | 0 <= i < |list| :: id(list[i]) == id(x)
  }

  function Start<T>(ws: seq<Writer<T>>, list: Option<seq<T>>): (w: World<T>)
    ensures |w.phases| == |ws|
  {
    World(list, seq(|ws|, _ => Idle), [Content(list)], [])
  }

  /** Writer i takes its next transaction on the list under `key`. */
  function Step<T, I(==)>(key: string, ws: seq<Writer<T>>, id: T -> I, w: World<T>, i: nat): (r: World<T>)
    requires |w.phases| == |ws|
    ensures |r.phases| == |ws|
  {
    if i >= |ws| || ws[i].key != key then w
    else
      match w.phases[i]
      case Idle => w.(phases := w.phases[i := Holding(w.list, |w.log|)])
      case Done => w
      case Holding(read, seen) =>
        match Appended(read, ws[i].item, read.Some? && Present(read.value, ws[i].item, id))
        case None => w.(phases := w.phases[i := Done])
        case Some(list) =>
          World(Some(list), w.phases[i := Done], w.versions + [list], w.log + [Commit(i, seen)])
  }

  function Run<T, I(==)>(key: string, ws: seq<Writer<T>>, id: T -> I, w: World<T>, schedule: seq<nat>): (r: World<T>)
    requires |w.phases| == |ws|
    ensures |r.phases| == |ws|
  {
    if schedule == [] then w
    else Step(key, ws, id, Run(key, ws, id, w, schedule[..|schedule| - 1]), schedule[|schedule| - 1])
  }

  ghost predicate DistinctIds<T, I>(list: seq<T>, id: T -> I) {
    forall i, j | 0 <= i < j < |list| :: id(list[i]) != id(list[j])
  }

  // ---- What holds in every state, whatever the writers ----

  /** Commit p extended the version its writer had read, which is an earlier version, by one item. */
  ghost predicate CommitOk<T>(key: string, ws: seq<Writer<T>>, versions: seq<seq<T>>, log: seq<Commit>, p: nat)
    requires |versions| == |log| + 1 && p < |log|
  {
    var c := log[p];
    c.writer < |ws| && ws[c.writer].key == key && c.seen <= p &&
    versions[p + 1] == versions[c.seen] + [ws[c.writer].item]
  }

  ghost predicate WorldOk<T, I>(key: string, ws: seq<Writer<T>>, id: T -> I, list0: Option<seq<T>>, w: World<T>) {
    |w.phases| == |ws| && |w.versions| == |w.log| + 1 &&
    w.versions[0] == Content(list0) && w.versions[|w.log|] == Content(w.list) &&
    (forall v | 0 <= v < |w.versions| :: DistinctIds(w.versions[v], id)) &&
    (forall p | 0 <= p < |w.log| :: CommitOk(key, ws, w.versions, w.log, p)) &&
    (forall i | 0 <= i < |ws| && w.phases[i].Holding? ::
      w.phases[i].seen <= |w.log| && Content(w.phases[i].read) == w.versions[w.phases[i].seen]) &&
    (forall p | 0 <= p < |w.log| :: w.log[p].writer < |ws| && w.phases[w.log[p].writer] == Done) &&
    (forall p, q | 0 <= p < q < |w.log| :: w.log[p].writer != w.log[q].writer)
  }

  lemma StepOk<T, I>(key: string, ws: seq<Writer<T>>, id: T -> I, list0: Option<seq<T>>, w: World<T>, i: nat)
    requires WorldOk(key, ws, id, list0, w)
    ensures WorldOk(key, ws, id, list0, Step(key, ws, id, w, i))
  {
    if i < |ws| && ws[i].key == key && w.phases[i].Holding? {
      var read, x := w.phases[i].read, ws[i].item;
      if !(read.Some? && Present(read.value, x, id)) {
        var r := Step(key, ws, id, w, i);
        assert r.versions[|r.log|] == Content(read) + [x];
        CommitKeepsOk(key, ws, id, list0, w, i, r);
      }
    }
  }

  lemma CommitKeepsOk<T, I>(
    key: string, ws: seq<Writer<T>>, id: T -> I, list0: Option<seq<T>>, w: World<T>, i: nat, r: World<T>)
    requires WorldOk(key, ws, id, list0, w) && i < |ws| && ws[i].key == key && w.phases[i].Holding?
    requires var read := w.phases[i].read;
      var list := Content(read) + [ws[i].item];
      !Present(Content(read), ws[i].item, id) &&
      r == World(Some(list), w.phases[i := Done], w.versions + [list], w.log + [Commit(i, w.phases[i].seen)])
    ensures WorldOk(key, ws, id, list0, r)
  {
    var read, list := w.phases[i].read, Content(w.phases[i].read) + [ws[i].item];
    assert DistinctIds(Content(read), id);
    assert DistinctIds(list, id);
    forall p | 0 <= p < |r.log| ensures CommitOk(key, ws, r.versions, r.log, p) {
      if p < |w.log| { assert CommitOk(key, ws, w.versions, w.log, p); }
    }
    forall v | 0 <= v < |r.versions| ensures DistinctIds(r.versions[v], id) {
    }
  }

  /** In every state of every interleaving: no version holds two entries with the same identity,
      and every committed version is an earlier version plus one writer's item. */
  lemma {:induction false} RunOk<T, I>(
    key: string, ws: seq<Writer<T>>, id: T -> I, list0: Option<seq<T>>, schedule: seq<nat>)
    requires DistinctIds(Content(list0), id)
    ensures WorldOk(key, ws, id, list0, Run(key, ws, id, Start(ws, list0), schedule))
  {
    hide Step, CommitOk;
    if schedule != [] {
      RunOk(key, ws, id, list0, schedule[..|schedule| - 1]);
      var n := |schedule| - 1;
      StepOk(key, ws, id, list0, Run(key, ws, id, Start(ws, list0), schedule[..n]), schedule[n]);
    }
  }

  /** Every call that is over has its item in some version: it committed it or found it there. */
  ghost predicate CallsFiled<T, I>(key: string, ws: seq<Writer<T>>, id: T -> I, w: World<T>) {
    |w.phases| == |ws| &&
    forall i | 0 <= i < |ws| && ws[i].key == key && w.phases[i] == Done :: Filed(w.versions, ws[i].item, id)
  }

  ghost predicate Filed<T, I>(versions: seq<seq<T>>, x: T, id: T -> I) {
    exists v | 0 <= v < |versions| :: Present(versions[v], x, id)
  }

  lemma StepFiled<T, I>(key: string, ws: seq<Writer<T>>, id: T -> I, list0: Option<seq<T>>, w: World<T>, i: nat)
    requires WorldOk(key, ws, id, list0, w) && CallsFiled(key, ws, id, w)
    ensures CallsFiled(key, ws, id, Step(key, ws, id, w, i))
  {
    hide DistinctIds, CommitOk;
    var r := Step(key, ws, id, w, i);
    forall j | 0 <= j < |ws| && ws[j].key == key && r.phases[j] == Done ensures Filed(r.versions, ws[j].item, id) {
      if w.phases[j] == Done {
        var v :| 0 <= v < |w.versions| && Present(w.versions[v], ws[j].item, id);
        assert Present(r.versions[v], ws[j].item, id);
      } else {
        JustFiled(key, ws, id, list0, w, j);
      }
    }
  }

  lemma JustFiled<T, I>(key: string, ws: seq<Writer<T>>, id: T -> I, list0: Option<seq<T>>, w: World<T>, j: nat)
    requires WorldOk(key, ws, id, list0, w) && j < |ws| && ws[j].key == key && w.phases[j].Holding?
    ensures Filed(Step(key, ws, id, w, j).versions, ws[j].item, id)
  {
    hide DistinctIds, CommitOk;
    var r, x := Step(key, ws, id, w, j), ws[j].item;
    var read, seen := w.phases[j].read, w.phases[j].seen;
    if read.Some? && Present(read.value, x, id) {
      assert Present(r.versions[seen], x, id);
    } else {
      var list := Content(read) + [x];
      assert r.versions[|r.versions| - 1] == list;
      assert list[|list| - 1] == x;
      assert Present(r.versions[|r.versions| - 1], x, id);
    }
  }

  // ---- What the list holds, and when nothing is lost ----

  /** Every commit is one of these writers', which had read the list before it. */
  ghost predicate LogOk<T>(ws: seq<Writer<T>>, log: seq<Commit>) {
    forall p | 0 <= p < |log| :: log[p].writer < |ws| && log[p].seen <= p
  }

  lemma WorldLogOk<T, I>(key: string, ws: seq<Writer<T>>, id: T -> I, list0: Option<seq<T>>, w: World<T>)
    requires WorldOk(key, ws, id, list0, w)
    ensures LogOk(ws, w.log)
  {
    forall p | 0 <= p < |w.log| ensures w.log[p].writer < |ws| && w.log[p].seen <= p {
      assert CommitOk(key, ws, w.versions, w.log, p);
    }
  }

  /** The commits that the list after the first v commits goes back to: the last of them, the last one
      its writer had seen, and so on. */
  ghost function Kept<T>(ws: seq<Writer<T>>, log: seq<Commit>, v: nat): (ps: seq<nat>)
    requires LogOk(ws, log) && v <= |log|
    ensures forall k | 0 <= k < |ps| :: ps[k] < v
  {
    if v == 0 then [] else Kept(ws, log, log[v - 1].seen) + [v - 1]
  }

  ghost function KeptItems<T>(ws: seq<Writer<T>>, log: seq<Commit>, v: nat): (xs: seq<T>)
    requires LogOk(ws, log) && v <= |log|
  {
    var ps := Kept(ws, log, v);
    seq(|ps|, k requires 0 <= k < |ps| => ws[log[ps[k]].writer].item)
  }

  /** For any writers and any overlaps: each version is the initial list followed by the items of the
      commits it goes back to, and nothing else. */
  lemma {:induction false} VersionIs<T, I>(
    key: string, ws: seq<Writer<T>>, id: T -> I, list0: Option<seq<T>>, w: World<T>, v: nat)
    requires WorldOk(key, ws, id, list0, w) && LogOk(ws, w.log) && v <= |w.log|
    ensures w.versions[v] == Content(list0) + KeptItems(ws, w.log, v)
  {
    if v > 0 {
      assert CommitOk(key, ws, w.versions, w.log, v - 1);
      VersionIs(key, ws, id, list0, w, w.log[v - 1].seen);
      assert KeptItems(ws, w.log, v) == KeptItems(ws, w.log, w.log[v - 1].seen) + [ws[w.log[v - 1].writer].item];
    }
  }

  /** Every committed item is still in the list. */
  ghost predicate NothingLost<T>(ws: seq<Writer<T>>, w: World<T>) {
    forall p | 0 <= p < |w.log| :: w.log[p].writer < |ws| && ws[w.log[p].writer].item in Content(w.list)
  }

  /** Every commit's item was brought by some commit that the list goes back to. */
  ghost predicate EachKept<T>(ws: seq<Writer<T>>, log: seq<Commit>)
    requires LogOk(ws, log)
  {
    forall p | 0 <= p < |log| :: BroughtBy(ws, log, Kept(ws, log, |log|), ws[log[p].writer].item)
  }

  ghost predicate BroughtBy<T>(ws: seq<Writer<T>>, log: seq<Commit>, ps: seq<nat>, x: T)
    requires LogOk(ws, log) && forall k | 0 <= k < |ps| :: ps[k] < |log|
  {
    exists k | 0 <= k < |ps| :: ws[log[ps[k]].writer].item == x
  }

  /** A committed item was not in the initial list. */
  lemma CommittedIsNew<T, I>(key: string, ws: seq<Writer<T>>, id: T -> I, list0: Option<seq<T>>, w: World<T>, p: nat)
    requires WorldOk(key, ws, id, list0, w) && LogOk(ws, w.log) && p < |w.log|
    ensures ws[w.log[p].writer].item !in Content(list0)
  {
    assert CommitOk(key, ws, w.versions, w.log, p);
    var x := ws[w.log[p].writer].item;
    var first, version := Content(list0), w.versions[p + 1];
    VersionIs(key, ws, id, list0, w, w.log[p].seen);
    assert version[|version| - 1] == x && |first| < |version|;
    forall k | 0 <= k < |first| ensures first[k] != x {
      assert version[k] == first[k];
      assert id(version[k]) != id(version[|version| - 1]);
    }
  }

  /** For any writers, equal entries included: the list is the initial one followed by the kept items,
      and nothing is lost exactly when each committed item was brought by a kept commit. */
  lemma NothingLostExactly<T, I>(key: string, ws: seq<Writer<T>>, id: T -> I, list0: Option<seq<T>>, w: World<T>)
    requires WorldOk(key, ws, id, list0, w)
    ensures LogOk(ws, w.log)
    ensures Content(w.list) == Content(list0) + KeptItems(ws, w.log, |w.log|)
    ensures NothingLost(ws, w) <==> EachKept(ws, w.log)
  {
    WorldLogOk(key, ws, id, list0, w);
    VersionIs(key, ws, id, list0, w, |w.log|);
    hide WorldOk;
    var ps, xs := Kept(ws, w.log, |w.log|), KeptItems(ws, w.log, |w.log|);
    forall p | 0 <= p < |w.log|
      ensures ws[w.log[p].writer].item in Content(w.list) <==> BroughtBy(ws, w.log, ps, ws[w.log[p].writer].item)
    {
      var x := ws[w.log[p].writer].item;
      CommittedIsNew(key, ws, id, list0, w, p);
      if x in xs {
        var k :| 0 <= k < |xs| && xs[k] == x;
        assert ws[w.log[ps[k]].writer].item == x;
      }
      if k :| 0 <= k < |ps| && ws[w.log[ps[k]].writer].item == x {
        assert xs[k] == x;
      }
    }
  }

  // ---- When that means that no two commits overlap ----

  /** No commit to the list fell between any committing writer's read and its write. */
  ghost predicate AllFresh(log: seq<Commit>) {
    forall p | 0 <= p < |log| :: log[p].seen == p
  }

  function Items<T>(ws: seq<Writer<T>>, log: seq<Commit>): seq<T>
    requires forall p | 0 <= p < |log| :: log[p].writer < |ws|
  {
    seq(|log|, p requires 0 <= p < |log| => ws[log[p].writer].item)
  }

  lemma {:induction false} FreshKeeps<T>(ws: seq<Writer<T>>, log: seq<Commit>, v: nat)
    requires LogOk(ws, log) && AllFresh(log) && v <= |log|
    ensures Kept(ws, log, v) == seq(v, k => k)
  {
    if v > 0 {
      FreshKeeps(ws, log, v - 1);
    }
  }

  /** Without overlapping commits the list is the initial one followed by all committed items. */
  lemma FreshKeepsAll<T, I>(key: string, ws: seq<Writer<T>>, id: T -> I, list0: Option<seq<T>>, w: World<T>)
    requires WorldOk(key, ws, id, list0, w) && AllFresh(w.log)
    ensures LogOk(ws, w.log)
    ensures Content(w.list) == Content(list0) + Items(ws, w.log)
    ensures NothingLost(ws, w)
  {
    NothingLostExactly(key, ws, id, list0, w);
    hide WorldOk;
    FreshKeeps(ws, w.log, |w.log|);
    assert KeptItems(ws, w.log, |w.log|) == Items(ws, w.log);
    forall p | 0 <= p < |w.log| ensures ws[w.log[p].writer].item in Content(w.list) {
      assert Items(ws, w.log)[p] == ws[w.log[p].writer].item;
    }
  }

  /** If the list goes back to every one of the first v commits, none of them overlapped. */
  lemma {:induction false} AllKeptAreFresh<T>(ws: seq<Writer<T>>, log: seq<Commit>, v: nat)
    requires LogOk(ws, log) && v <= |log| && forall p | 0 <= p < v :: p in Kept(ws, log, v)
    ensures forall p | 0 <= p < v :: log[p].seen == p
  {
    if v > 0 {
      var seen := log[v - 1].seen;
      forall p | 0 <= p < v - 1 ensures p in Kept(ws, log, seen) {
        assert p in Kept(ws, log, v);
      }
      assert v > 1 ==> v - 2 in Kept(ws, log, seen);
      AllKeptAreFresh(ws, log, v - 1);
    }
  }

  /** The writers of this list bring different entries. */
  ghost predicate DifferentItems<T>(key: string, ws: seq<Writer<T>>) {
    forall i, j | 0 <= i < j < |ws| && ws[i].key == key && ws[j].key == key :: ws[i].item != ws[j].item
  }

  /** When the writers bring different entries, an entry is lost exactly when some commit fell between
      another committing writer's read and its write. */
  lemma NothingLostIff<T, I>(key: string, ws: seq<Writer<T>>, id: T -> I, list0: Option<seq<T>>, w: World<T>)
    requires WorldOk(key, ws, id, list0, w) && DifferentItems(key, ws)
    ensures NothingLost(ws, w) <==> AllFresh(w.log)
  {
    hide WorldOk, Kept, DifferentItems;
    if AllFresh(w.log) {
      FreshKeepsAll(key, ws, id, list0, w);
    } else if NothingLost(ws, w) {
      NothingLostExactly(key, ws, id, list0, w);
      var ps := Kept(ws, w.log, |w.log|);
      forall p | 0 <= p < |w.log| ensures p in ps {
        assert BroughtBy(ws, w.log, ps, ws[w.log[p].writer].item);
        var k :| 0 <= k < |ps| && ws[w.log[ps[k]].writer].item == ws[w.log[p].writer].item;
        CommittersDiffer(key, ws, id, list0, w, p, ps[k]);
      }
      AllKeptAreFresh(ws, w.log, |w.log|);
    }
  }

  lemma CommittersDiffer<T, I>(
    key: string, ws: seq<Writer<T>>, id: T -> I, list0: Option<seq<T>>, w: World<T>, p: nat, q: nat)
    requires WorldOk(key, ws, id, list0, w) && LogOk(ws, w.log) && DifferentItems(key, ws)
    requires p < |w.log| && q < |w.log| && ws[w.log[p].writer].item == ws[w.log[q].writer].item
    ensures p == q
  {
    assert CommitOk(key, ws, w.versions, w.log, p) && CommitOk(key, ws, w.versions, w.log, q);
    var i, j := w.log[p].writer, w.log[q].writer;
    if i != j {
      ItemsDiffer(key, ws, i, j);
    }
  }

  lemma ItemsDiffer<T>(key: string, ws: seq<Writer<T>>, i: nat, j: nat)
    requires DifferentItems(key, ws) && i < |ws| && j < |ws| && i != j && ws[i].key == ws[j].key == key
    ensures ws[i].item != ws[j].item
  {
    if i < j {
      assert ws[i].item != ws[j].item;
    } else {
      assert ws[j].item != ws[i].item;
    }
  }

  function Self(x: int): int { x }

  /** Two writers with the same entry: their transactions overlap and still nothing is lost, so overlaps
      alone do not decide when entries are equal. */
  lemma OverlapWithoutLoss(ws: seq<Writer<int>>)
    requires ws == [Writer("a", 7), Writer("a", 7)]
    ensures var w := Run("a", ws, Self, Start(ws, None), [0, 1, 0, 1]);
      !AllFresh(w.log) && NothingLost(ws, w)
  {
    hide Run;
    var w0 := Start(ws, None);
    RunNothing("a", ws, Self, w0);
    var w1 := Step("a", ws, Self, w0, 0);
    var w2 := Step("a", ws, Self, w1, 1);
    var w3 := Step("a", ws, Self, w2, 0);
    var w4 := Step("a", ws, Self, w3, 1);
    assert w4.log == [Commit(0, 0), Commit(1, 0)] && w4.list == Some([7]);
    RunUnfold("a", ws, Self, w0, [], 0);
    RunUnfold("a", ws, Self, w0, [0], 1);
    RunUnfold("a", ws, Self, w0, [0, 1], 0);
    RunUnfold("a", ws, Self, w0, [0, 1, 0], 1);
    assert [] + [0] == [0] && [0] + [1] == [0, 1] && [0, 1] + [0] == [0, 1, 0] && [0, 1, 0] + [1] == [0, 1, 0, 1];
    assert w4.log[1].seen == 0;
  }

  lemma RunNothing<T, I>(key: string, ws: seq<Writer<T>>, id: T -> I, w: World<T>)
    requires |w.phases| == |ws|
    ensures Run(key, ws, id, w, []) == w
  {
  }

  lemma RunUnfold<T, I>(key: string, ws: seq<Writer<T>>, id: T -> I, w: World<T>, schedule: seq<nat>, i: nat)
    requires |w.phases| == |ws|
    ensures Run(key, ws, id, w, schedule + [i]) == Step(key, ws, id, Run(key, ws, id, w, schedule), i)
  {
    assert (schedule + [i])[..|schedule|] == schedule;
  }
}
