/** The per-block batch fan-out of operate_on_staged_tx: one goroutine per batch of transaction
    hashes, a channel with room for all their results, a WaitGroup, a close, and one consumer. */
module FanOut {
  import opened GoStrings

  const BATCH_SIZE: nat := 100

  // ---- Which hashes a batch asks for ----

  /** ceil(tx_count / batch_size) */
  function BatchCount(txCount: nat): nat {
    (txCount + BATCH_SIZE - 1) / BATCH_SIZE
  }

  /** The hashes a batch requests, as written: the last batch asks for all that is left from its start,
      every other batch for nothing. */
  method Batching(batch: nat, batchCount: nat, hashes: seq<string>) returns (requested: seq<string>)
    requires batchCount == BatchCount(|hashes|) && batch < batchCount
    ensures 100 * batch <= |hashes|
    ensures requested == if batch == batchCount - 1 then hashes[100 * batch..] else []
    ensures requested == Requested(hashes, batch)
  {
    BatchBounds(|hashes|, batch);
    var end := BATCH_SIZE * batch;
    if batch == batchCount - 1 {
      end := |hashes|;
    }
    requested := hashes[BATCH_SIZE * batch..end];
  }

  function End(txCount: nat, batch: nat): nat {
    if batch == BatchCount(txCount) - 1 then txCount else BATCH_SIZE * batch
  }

  /** The slice bounds are always in range, and the last batch has 1 to 100 hashes. */
  lemma BatchBounds(txCount: nat, batch: nat)
    requires batch < BatchCount(txCount)
    ensures 100 * batch <= End(txCount, batch) <= txCount
    ensures batch == BatchCount(txCount) - 1 ==> 1 <= End(txCount, batch) - 100 * batch <= 100
    ensures 100 * (BatchCount(txCount) - 1) < txCount <= 100 * BatchCount(txCount)
  {
  }

  function Requested(hashes: seq<string>, batch: nat): seq<string>
    requires batch < BatchCount(|hashes|)
  {
    BatchBounds(|hashes|, batch);
    hashes[BATCH_SIZE * batch..End(|hashes|, batch)]
  }

  /** The hashes requested by the first n batches, in batch order. */
  function AllRequested(hashes: seq<string>, n: nat): seq<string>
    requires n <= BatchCount(|hashes|)
  {
    if n == 0 then [] else AllRequested(hashes, n - 1) + Requested(hashes, n - 1)
  }

  lemma {:induction false} FirstBatchesAskNothing(hashes: seq<string>, n: nat)
    requires n < BatchCount(|hashes|)
    ensures AllRequested(hashes, n) == []
  {
    if n > 0 {
      FirstBatchesAskNothing(hashes, n - 1);
      assert Requested(hashes, n - 1) == [];
    }
  }

  /** All batches together ask for the hashes of the last batch only: the first 100 * (count - 1) are
      never requested. */
  lemma RequestedIsTheLastBatch(hashes: seq<string>)
    ensures hashes == [] ==> BatchCount(|hashes|) == 0 && AllRequested(hashes, 0) == []
    ensures hashes != [] ==>
      BatchCount(|hashes|) > 0 && 100 * (BatchCount(|hashes|) - 1) < |hashes| &&
      AllRequested(hashes, BatchCount(|hashes|)) == hashes[100 * (BatchCount(|hashes|) - 1)..]
  {
    if hashes != [] {
      CountIsPositive(|hashes|);
      LastBatch(hashes, BatchCount(|hashes|));
    }
  }

  lemma CountIsPositive(txCount: nat)
    requires txCount > 0
    ensures BatchCount(txCount) > 0
  {
  }

  lemma LastBatch(hashes: seq<string>, n: nat)
    requires n == BatchCount(|hashes|) && n > 0
    ensures BATCH_SIZE * (n - 1) < |hashes| && AllRequested(hashes, n) == hashes[BATCH_SIZE * (n - 1)..]
  {
    hide BatchCount;
    FirstBatchesAskNothing(hashes, n - 1);
    BatchBounds(|hashes|, n - 1);
    assert hashes[BATCH_SIZE * (n - 1)..|hashes|] == hashes[BATCH_SIZE * (n - 1)..];
  }

  /** The batches cover the hash list, in order and once each, exactly when it has at most 100
      hashes. */
  lemma PartitionIff(hashes: seq<string>)
    ensures AllRequested(hashes, BatchCount(|hashes|)) == hashes <==> |hashes| <= 100
  {
    RequestedIsTheLastBatch(hashes);
    if hashes != [] {
      var skipped := BATCH_SIZE * (BatchCount(|hashes|) - 1);
      assert |hashes[skipped..]| == |hashes| - skipped;
    }
  }

  /** With end = batch_size*(batch+1) for every batch but the last. */
  function RepairedEnd(txCount: nat, batch: nat): nat {
    if batch == BatchCount(txCount) - 1 then txCount else BATCH_SIZE * (batch + 1)
  }

  function RepairedRequested(hashes: seq<string>, n: nat): seq<string>
    requires n <= BatchCount(|hashes|)
  {
    if n == 0 then []
    else
      BatchBounds(|hashes|, n - 1);
      RepairedRequested(hashes, n - 1) + hashes[BATCH_SIZE * (n - 1)..RepairedEnd(|hashes|, n - 1)]
  }

  lemma {:induction false} RepairedPrefix(hashes: seq<string>, n: nat)
    requires n <= BatchCount(|hashes|)
    ensures RepairedRequested(hashes, n) ==
      hashes[..if n == BatchCount(|hashes|) then |hashes| else BATCH_SIZE * n]
  {
    if n > 0 {
      RepairedPrefix(hashes, n - 1);
      BatchBounds(|hashes|, n - 1);
    }
  }

  /** Then the batches partition every hash list, in order. */
  lemma RepairedPartition(hashes: seq<string>)
    ensures RepairedRequested(hashes, BatchCount(|hashes|)) == hashes
  {
    RepairedPrefix(hashes, BatchCount(|hashes|));
    assert hashes[..|hashes|] == hashes;
  }

  // ---- The protocol ----

  /** A batch goroutine: its request, its send, its wg.Done. */
  datatype BatchPc = NotStarted | Requesting | Sending | Returning | Gone

  /** operate_on_staged_tx: one wg.Add and go per batch, then Wait, then close, then return. */
  datatype MainPc = Spawning(next: nat) | Waiting | Closing | Returned

  /** The consumer ranges over the channel and handles what it takes. */
  datatype ConsumerPc = Receiving | Handling(batch: nat) | Stopped

  /** Results are named by the batch they answer. */
  datatype State = State(
    main: MainPc, batches: seq<BatchPc>, consumer: ConsumerPc,
    channel: seq<nat>, closed: bool, waitGroup: int, handled: seq<nat>)

  datatype Actor = Main | Batch(b: nat) | Consumer

  function Start(count: nat): State {
    State(if count == 0 then Waiting else Spawning(0), seq(count, _ => NotStarted), Receiving, [], false, 0, [])
  }

  /** The actor has a step to take: sends need room, Wait needs the counter at zero, receiving needs a
      result or a closed channel. The channel has room for one result per batch. */
  predicate Enabled(s: State, a: Actor) {
    match a
    case Main => !s.main.Returned? && (s.main.Waiting? ==> s.waitGroup == 0)
    case Batch(b) =>
      b < |s.batches| && !s.batches[b].NotStarted? && !s.batches[b].Gone? &&
      (s.batches[b].Sending? ==> |s.channel| < |s.batches| || s.closed)
    case Consumer =>
      match s.consumer
      case Receiving => s.channel != [] || s.closed
      case Handling(_) => true
      case Stopped => false
  }

  function Next(s: State, a: Actor): State
    requires Enabled(s, a)
  {
    match a
    case Main =>
      (match s.main
       case Spawning(next) =>
         if next < |s.batches| then
           s.(batches := s.batches[next := Requesting], waitGroup := s.waitGroup + 1,
              main := if next + 1 == |s.batches| then Waiting else Spawning(next + 1))
         else s.(main := Waiting)
       case Waiting => s.(main := Closing)
       case Closing => s.(closed := true, main := Returned)
       case Returned => s)
    case Batch(b) =>
      (match s.batches[b]
       case Requesting => s.(batches := s.batches[b := Sending])
       case Sending => s.(batches := s.batches[b := Returning], channel := s.channel + [b])
       case Returning => s.(batches := s.batches[b := Gone], waitGroup := s.waitGroup - 1)
       case _ => s)
    case Consumer =>
      (match s.consumer
       case Receiving =>
         if s.channel != [] then s.(consumer := Handling(s.channel[0]), channel := s.channel[1..])
         else s.(consumer := Stopped)
       case Handling(b) => s.(consumer := Receiving, handled := s.handled + [b])
       case Stopped => s)
  }

  /** A schedule of enabled steps and the state it leads to. */
  ghost predicate Possible(count: nat, schedule: seq<Actor>) {
    schedule == [] ||
    (Possible(count, schedule[..|schedule| - 1]) &&
     Enabled(Reached(count, schedule[..|schedule| - 1]), schedule[|schedule| - 1]))
  }

  ghost function Reached(count: nat, schedule: seq<Actor>): State {
    if schedule == [] then Start(count)
    else
      var s := Reached(count, schedule[..|schedule| - 1]);
      if Enabled(s, schedule[|schedule| - 1]) then Next(s, schedule[|schedule| - 1]) else s
  }

  // ---- Safety ----

  function Taken(c: ConsumerPc): seq<nat> {
    if c.Handling? then [c.batch] else []
  }

  /** The results that have been sent, wherever they are now. */
  function Sent(s: State): seq<nat> {
    s.handled + Taken(s.consumer) + s.channel
  }

  predicate HasSent(p: BatchPc) {
    p.Returning? || p.Gone?
  }

  predicate Live(p: BatchPc) {
    p.Requesting? || p.Sending? || p.Returning?
  }

  function LiveCount(ps: seq<BatchPc>): nat {
    if ps == [] then 0 else (if Live(ps[|ps| - 1]) then 1 else 0) + LiveCount(ps[..|ps| - 1])
  }

  /** Each batch that has sent is in exactly one place; the counter counts the live batches; the
      channel is closed only when every batch is gone. */
  ghost predicate Inv(s: State) {
    Distinct(Sent(s)) &&
    (forall b: nat :: b in Sent(s) <==> b < |s.batches| && HasSent(s.batches[b])) &&
    s.waitGroup == LiveCount(s.batches) &&
    (s.main.Spawning? ==> s.main.next < |s.batches| && !s.closed) &&
    (s.main.Spawning? ==> forall b | 0 <= b < |s.batches| :: s.batches[b].NotStarted? <==> b >= s.main.next) &&
    (!s.main.Spawning? ==> forall b | 0 <= b < |s.batches| :: !s.batches[b].NotStarted?) &&
    (s.main.Closing? || s.main.Returned? ==> forall b | 0 <= b < |s.batches| :: s.batches[b].Gone?) &&
    (s.closed <==> s.main.Returned?) &&
    (s.consumer.Stopped? ==> s.closed && s.channel == [])
  }

  lemma {:induction false} LiveCountUpdate(ps: seq<BatchPc>, b: nat, p: BatchPc)
    requires b < |ps|
    ensures LiveCount(ps[b := p]) == LiveCount(ps) - (if Live(ps[b]) then 1 else 0) + (if Live(p) then 1 else 0)
  {
    var n := |ps| - 1;
    if b < n {
      LiveCountUpdate(ps[..n], b, p);
      assert ps[b := p][..n] == ps[..n][b := p];
    } else {
      assert ps[b := p][..n] == ps[..n];
    }
  }

  lemma {:induction false} NoneLive(ps: seq<BatchPc>)
    ensures LiveCount(ps) == 0 <==> forall b | 0 <= b < |ps| :: !Live(ps[b])
  {
    if ps != [] {
      NoneLive(ps[..|ps| - 1]);
      var init := ps[..|ps| - 1];
      assert forall b | 0 <= b < |init| :: init[b] == ps[b];
    }
  }

  lemma MainStep(s: State)
    requires Inv(s) && Enabled(s, Main)
    ensures Inv(Next(s, Main))
  {
    match s.main
    case Spawning(next) =>
      LiveCountUpdate(s.batches, next, Requesting);
    case Waiting =>
      NoneLive(s.batches);
    case _ =>
  }

  lemma BatchStep(s: State, b: nat)
    requires Inv(s) && Enabled(s, Batch(b))
    ensures Inv(Next(s, Batch(b)))
  {
    hide LiveCount;
    var r := Next(s, Batch(b));
    LiveCountUpdate(s.batches, b, r.batches[b]);
    if s.batches[b].Sending? {
      assert Sent(r) == Sent(s) + [b];
      assert b !in Sent(s);
    } else {
      assert Sent(r) == Sent(s);
    }
  }

  lemma ConsumerStep(s: State)
    requires Inv(s) && Enabled(s, Consumer)
    ensures Inv(Next(s, Consumer))
  {
    hide LiveCount;
    var r := Next(s, Consumer);
    if s.consumer.Receiving? && s.channel != [] {
      assert s.channel == [s.channel[0]] + s.channel[1..];
    }
    assert Sent(r) == Sent(s);
  }

  lemma {:induction false} Reachable(count: nat, schedule: seq<Actor>)
    requires Possible(count, schedule)
    ensures Inv(Reached(count, schedule)) && |Reached(count, schedule).batches| == count
  {
    hide Inv, Next, Enabled;
    if schedule == [] {
      StartInv(count);
    } else {
      var n := |schedule| - 1;
      Reachable(count, schedule[..n]);
      var s := Reached(count, schedule[..n]);
      match schedule[n] {
        case Main => MainStep(s);
        case Batch(b) => BatchStep(s, b);
        case Consumer => ConsumerStep(s);
      }
      SameCount(s, schedule[n]);
    }
  }

  lemma SameCount(s: State, a: Actor)
    requires Enabled(s, a)
    ensures |Next(s, a).batches| == |s.batches|
  {
  }

  lemma StartInv(count: nat)
    ensures Inv(Start(count)) && |Start(count).batches| == count
  {
    NoneLive(Start(count).batches);
  }

  lemma {:induction false} DistinctBelow(xs: seq<nat>, n: nat)
    requires Distinct(xs) && forall x | x in xs :: x < n
    ensures |xs| <= n
  {
    if xs == [] {
    } else if n > 0 && n - 1 in xs {
      var i :| 0 <= i < |xs| && xs[i] == n - 1;
      var rest := xs[..i] + xs[i + 1..];
      forall x | x in rest ensures x < n - 1 {
        assert x in xs;
      }
      DistinctBelow(rest, n - 1);
    } else {
      assert xs[0] in xs;
      DistinctBelow(xs, n - 1);
    }
  }

  /** In every interleaving: a batch that is about to send finds the channel open and with room, so no
      send panics and no send blocks. */
  lemma SendsAreSafe(count: nat, schedule: seq<Actor>, b: nat)
    requires Possible(count, schedule) && b < count
    ensures var s := Reached(count, schedule);
      |s.batches| == count && (s.batches[b].Sending? ==> !s.closed && |s.channel| < count && Enabled(s, Batch(b)))
  {
    Reachable(count, schedule);
    var s := Reached(count, schedule);
    if s.batches[b].Sending? {
      RoomForOneMore(s, b);
    }
  }

  lemma RoomForOneMore(s: State, b: nat)
    requires Inv(s) && b < |s.batches| && s.batches[b].Sending?
    ensures |s.channel| < |s.batches|
  {
    var xs := s.channel + [b];
    assert forall x | x in s.channel :: x in Sent(s);
    assert b !in Sent(s);
    forall i, j | 0 <= i < j < |s.channel| ensures s.channel[i] != s.channel[j] {
      var k := |s.handled| + |Taken(s.consumer)|;
      assert Sent(s)[k + i] == s.channel[i] && Sent(s)[k + j] == s.channel[j];
    }
    DistinctBelow(xs, |s.batches|);
  }

  // ---- Progress ----

  function BatchWork(p: BatchPc): nat {
    match p
    case NotStarted => 4
    case Requesting => 3
    case Sending => 2
    case Returning => 1
    case Gone => 0
  }

  function BatchesWork(ps: seq<BatchPc>): nat {
    if ps == [] then 0 else BatchWork(ps[|ps| - 1]) + BatchesWork(ps[..|ps| - 1])
  }

  function MainWork(s: State): nat {
    match s.main
    case Spawning(next) => 3 + (if next <= |s.batches| then |s.batches| - next else 0)
    case Waiting => 2
    case Closing => 1
    case Returned => 0
  }

  function ConsumerWork(s: State): nat {
    match s.consumer
    case Receiving => 1
    case Handling(_) => 2
    case Stopped => 0
  }

  /** Steps left: every batch still owes its own steps and two consumer steps for its result. */
  function Work(s: State): nat {
    3 * BatchesWork(s.batches) + MainWork(s) + 2 * |s.channel| + ConsumerWork(s)
  }

  lemma {:induction false} BatchesWorkUpdate(ps: seq<BatchPc>, b: nat, p: BatchPc)
    requires b < |ps|
    ensures BatchesWork(ps[b := p]) == BatchesWork(ps) - BatchWork(ps[b]) + BatchWork(p)
  {
    var n := |ps| - 1;
    if b < n {
      BatchesWorkUpdate(ps[..n], b, p);
      assert ps[b := p][..n] == ps[..n][b := p];
    } else {
      assert ps[b := p][..n] == ps[..n];
    }
  }

  /** Every step brings the run closer to its end. */
  lemma WorkFalls(s: State, a: Actor)
    requires Inv(s) && Enabled(s, a)
    ensures Work(Next(s, a)) < Work(s)
  {
    match a
    case Main =>
      if s.main.Spawning? {
        BatchesWorkUpdate(s.batches, s.main.next, Requesting);
      }
    case Batch(b) => BatchesWorkUpdate(s.batches, b, Next(s, a).batches[b]);
    case Consumer =>
  }

  /** So no run is longer than the work it starts with. */
  lemma {:induction false} RunsAreBounded(count: nat, schedule: seq<Actor>)
    requires Possible(count, schedule)
    ensures |schedule| + Work(Reached(count, schedule)) <= Work(Start(count))
  {
    hide Work, Next, Enabled;
    if schedule != [] {
      var n := |schedule| - 1;
      RunsAreBounded(count, schedule[..n]);
      Reachable(count, schedule[..n]);
      WorkFalls(Reached(count, schedule[..n]), schedule[n]);
    }
  }

  lemma {:induction false} SomeLive(ps: seq<BatchPc>) returns (b: nat)
    requires LiveCount(ps) > 0
    ensures b < |ps| && Live(ps[b])
  {
    var n := |ps| - 1;
    if Live(ps[n]) {
      b := n;
    } else {
      b := SomeLive(ps[..n]);
    }
  }

  /** Without the consumer: as long as operate_on_staged_tx has not returned, it or one of its batches
      can take a step. With the bound on runs it returns even if the consumer is never scheduled. */
  lemma MainIsNeverStuck(s: State)
    requires Inv(s) && !s.main.Returned?
    ensures Enabled(s, Main) || exists b :: Enabled(s, Batch(b))
  {
    if s.main.Waiting? && s.waitGroup != 0 {
      var b := SomeLive(s.batches);
      if s.batches[b].Sending? {
        RoomForOneMore(s, b);
      }
      assert Enabled(s, Batch(b));
    }
  }

  /** A run that cannot go on: nobody has an enabled step. */
  ghost predicate AtRest(s: State) {
    forall a :: !Enabled(s, a)
  }

  /** Every run that cannot go on has returned, has stopped its consumer, and has handled the result of
      each batch exactly once. */
  lemma RestMeansDone(count: nat, schedule: seq<Actor>)
    requires Possible(count, schedule) && AtRest(Reached(count, schedule))
    ensures var s := Reached(count, schedule);
      s.main.Returned? && s.consumer.Stopped? && Distinct(s.handled) && forall b: nat :: b in s.handled <==> b < count
  {
    Reachable(count, schedule);
    var s := Reached(count, schedule);
    assert !Enabled(s, Main) && !Enabled(s, Consumer);
    if !s.main.Returned? {
      MainIsNeverStuck(s);
    }
    assert Sent(s) == s.handled;
  }

  /** With the consumer left out the same holds for the caller: a run of main and batches that cannot
      go on has returned. */
  lemma ReturnsWithoutConsumer(count: nat, schedule: seq<Actor>)
    requires Possible(count, schedule) && Consumer !in schedule
    requires forall a | a != Consumer :: !Enabled(Reached(count, schedule), a)
    ensures Reached(count, schedule).main.Returned? && |schedule| <= Work(Start(count))
  {
    Reachable(count, schedule);
    RunsAreBounded(count, schedule);
    var s := Reached(count, schedule);
    if !s.main.Returned? {
      MainIsNeverStuck(s);
    }
  }
}
