/** The height loop and the ticker. The loop hands every block height to the workers, pass after
    pass; the ticker overwrites `now` between any two statements of the loop. */
module HeightLoop {

  /** The statement of the loop that is executed next. */
  datatype Pc =
    | Clamp     // now = min(ending_height, now), when an ending height is set
    | Restart   // lowest_height = starting_height, in the first pass
    | Measure   // result := now - lowest_height, and the channel of that size
    | Loop      // for height < now
    | Ask       // achieved_current_height = the daemon's height
    | Update    // lowest_height = min(now, achieved_current_height)
    | Panicked  // make(chan int64, result) with a negative size

  datatype Flags = Flags(starting: int, ending: int)

  /** The globals, the loop variable, and what has happened so far: `enqueued` is everything sent to
      the workers, `passEnd` the height at which the last pass stopped, `base` the lowest height of
      the first pass. */
  datatype State = State(
    now: int, lowest: int, achieved: int, height: int, pc: Pc, enqueued: seq<int>, passEnd: int, base: int)

  /** The ticker reads the daemon's height; the loop takes its next statement while the daemon is at
      that height, and asks for it in one of them. */
  datatype Event = Tick(daemon: int) | Go(daemon: int)

  function Min(a: int, b: int): int {
    if a < b then a else b
  }

  function Next(f: Flags, s: State, e: Event): State {
    match e
    case Tick(d) => s.(now := d)
    case Go(d) =>
      match s.pc
      case Clamp => s.(now := if f.ending > 0 then Min(f.ending, s.now) else s.now, pc := Restart)
      case Restart =>
        var lowest := if f.starting < s.now && f.starting > 0 && s.achieved == 0 then f.starting else s.lowest;
        s.(lowest := lowest, base := if s.achieved == 0 then lowest else s.base, pc := Measure)
      case Measure =>
        if s.now - s.lowest < 0 then s.(pc := Panicked)
        else if s.now - s.lowest != 0 then s.(height := s.lowest, pc := Loop)
        else s.(passEnd := s.lowest, pc := Ask)
      case Loop =>
        if s.height < s.now then s.(enqueued := s.enqueued + [s.height], height := s.height + 1)
        else s.(passEnd := s.height, pc := Ask)
      case Ask => s.(achieved := d, pc := Update)
      case Update => s.(lowest := Min(s.now, s.achieved), pc := Clamp)
      case Panicked => s
  }

  function Run(f: Flags, s: State, events: seq<Event>): State {
    if events == [] then s
    else Next(f, Run(f, s, events[..|events| - 1]), events[|events| - 1])
  }

  function Initial(now: int, lowest: int): State {
    State(now, lowest, 0, 0, Clamp, [], 0, lowest)
  }

  /** The object whose fields the two goroutines share; one method per statement. */
  class Indexer {
    var now: int
    var lowest_height: int
    var achieved_current_height: int
    var height: int
    var pc: Pc
    var height_processing: seq<int>
    ghost var passEnd: int
    ghost var base: int

    ghost function View(): State
      reads this
    {
      State(now, lowest_height, achieved_current_height, height, pc, height_processing, passEnd, base)
    }

    /** The set-up: the daemon's height bounds the stored one, and `now` is asked for later. */
    constructor (topoheight: int, stored: int, later: int)
      ensures View() == Initial(later, Min(topoheight, stored))
      ensures topoheight <= later ==> lowest_height <= now
    {
      now := later;
      lowest_height := Min(topoheight, stored);
      achieved_current_height := 0;
      height := 0;
      pc := Clamp;
      height_processing := [];
      passEnd, base := 0, Min(topoheight, stored);
    }

    /** The ticker branch of start_printer. */
    method TickerFires(daemon: int)
      modifies this
      ensures now == daemon && View() == old(View()).(now := daemon)
      ensures forall f :: View() == Next(f, old(View()), Tick(daemon))
    {
      now := daemon;
    }

    /** The next statement of height_handling. */
    method LoopStep(f: Flags, daemon: int)
      modifies this
      ensures View() == Next(f, old(View()), Go(daemon))
    {
      match pc
      case Clamp =>
        if f.ending > 0 {
          now := Min(f.ending, now);
        }
        pc := Restart;
      case Restart =>
        if f.starting < now && f.starting > 0 && achieved_current_height == 0 {
          lowest_height := f.starting;
        }
        if achieved_current_height == 0 {
          base := lowest_height;
        }
        pc := Measure;
      case Measure =>
        var result := now - lowest_height;
        if result < 0 {
          pc := Panicked;
        } else if result != 0 {
          height := lowest_height;
          pc := Loop;
        } else {
          passEnd := lowest_height;
          pc := Ask;
        }
      case Loop =>
        if height < now {
          height_processing := height_processing + [height];
          height := height + 1;
        } else {
          passEnd := height;
          pc := Ask;
        }
      case Ask =>
        achieved_current_height := daemon;
        pc := Update;
      case Update =>
        lowest_height := Min(now, achieved_current_height);
        pc := Clamp;
      case Panicked =>
    }

    /** Both goroutines, scheduled by the list of events. After the set-up, whatever the flags and the
        schedule: the channel got every height from the first to the last one reached, once each and
        in order, but for those an update jumps over; and exactly when the loop panics. */
    method Execute(f: Flags, events: seq<Event>)
      modifies this
      ensures View() == Run(f, old(View()), events)
      ensures SetUp(old(View())) && Orderly(f, old(View()), events) ==>
        HistoryOk(height_processing, Skipped(f, old(View()), events), base, Front(View())) &&
        (pc == Panicked <==> exists i :: PanicsFrom(f, old(View()), events, i))
    {
      ghost var s0 := View();
      for i := 0 to |events|
        invariant View() == Run(f, old(View()), events[..i])
      {
        assert events[..i + 1][..i] == events[..i];
        match events[i]
        case Tick(d) => TickerFires(d);
        case Go(d) => LoopStep(f, d);
      }
      assert events[..|events|] == events;
      if SetUp(s0) && Orderly(f, s0, events) {
        RunCovered(f, s0.now, s0.lowest, events);
        PanicsIff(f, s0.now, s0.lowest, events);
      }
    }
  }

  lemma Unfold(f: Flags, s: State, events: seq<Event>, n: nat, before: State, e: Event)
    requires n < |events| && events[n] == e && Run(f, s, events[..n]) == before
    ensures Run(f, s, events[..n + 1]) == Next(f, before, e)
  {
    assert events[..n + 1][..n] == events[..n];
  }

  // ---- What the daemon is trusted for ----

  /** The daemon is never below `now`, nor, with an ending height, below the lowest height. */
  ghost predicate Orderly(f: Flags, s: State, events: seq<Event>) {
    forall i | 0 <= i < |events| ::
      var at := Run(f, s, events[..i]);
      events[i].daemon >= at.now && (f.ending > 0 ==> events[i].daemon >= at.lowest)
  }

  /** The daemon's height never falls. */
  ghost predicate Rising(now: int, events: seq<Event>) {
    (forall i | 0 <= i < |events| :: now <= events[i].daemon) &&
    forall i, j | 0 <= i < j < |events| :: events[i].daemon <= events[j].daemon
  }

  /** The state after the set-up. */
  ghost predicate SetUp(s: State) {
    s == Initial(s.now, s.lowest) && 1 <= s.now && s.lowest <= s.now
  }

  lemma PrefixOrderly(f: Flags, s: State, events: seq<Event>, n: nat)
    requires Orderly(f, s, events) && n <= |events|
    ensures Orderly(f, s, events[..n])
  {
    forall i | 0 <= i < n
      ensures var at := Run(f, s, events[..n][..i]);
        events[..n][i].daemon >= at.now && (f.ending > 0 ==> events[..n][i].daemon >= at.lowest)
    {
      assert events[..n][..i] == events[..i];
    }
  }

  lemma LastOrderly(f: Flags, s: State, events: seq<Event>)
    requires Orderly(f, s, events) && events != []
    ensures var n := |events| - 1;
      var at := Run(f, s, events[..n]);
      Orderly(f, s, events[..n]) &&
      events[n].daemon >= at.now && (f.ending > 0 ==> events[n].daemon >= at.lowest)
  {
    PrefixOrderly(f, s, events, |events| - 1);
  }

  lemma {:induction false} BelowReadings(f: Flags, now: int, lowest: int, events: seq<Event>, d: int)
    requires lowest <= now <= d && Rising(now, events) && forall i | 0 <= i < |events| :: events[i].daemon <= d
    ensures Run(f, Initial(now, lowest), events).now <= d && Run(f, Initial(now, lowest), events).lowest <= d
  {
    if events != [] {
      BelowReadings(f, now, lowest, events[..|events| - 1], d);
    }
  }

  /** A daemon whose height never falls is enough, whatever the flags and the schedule. */
  lemma RisingIsOrderly(f: Flags, now: int, lowest: int, events: seq<Event>)
    requires lowest <= now && Rising(now, events)
    ensures Orderly(f, Initial(now, lowest), events)
  {
    forall i | 0 <= i < |events|
      ensures var at := Run(f, Initial(now, lowest), events[..i]);
        events[i].daemon >= at.now && events[i].daemon >= at.lowest
    {
      BelowReadings(f, now, lowest, events[..i], events[i].daemon);
    }
  }

  // ---- What a reading bounds ----

  /** From a tick to the next one `now` is its reading, or the ending height where that is lower and a pass
      has begun since; so no height at or above the reading is handed on. */
  lemma {:induction false} TickBounds(f: Flags, s0: State, events: seq<Event>, i: nat)
    requires i < |events| && events[i].Tick? && forall k | i < k < |events| :: events[k].Go?
    ensures var s, d := Run(f, s0, events), events[i].daemon;
      s.now == d || (f.ending > 0 && s.now == Min(f.ending, d))
    ensures var s := Run(f, s0, events);
      forall h | h in s.enqueued && h !in Run(f, s0, events[..i]).enqueued :: h < events[i].daemon
    decreases |events|
  {
    var n := |events| - 1;
    if i < n {
      assert events[..n][..i] == events[..i];
      TickBounds(f, s0, events[..n], i);
    }
  }

  /** No height at or above all readings is ever enqueued. */
  lemma {:induction false} BelowChain(f: Flags, now: int, lowest: int, events: seq<Event>, d: int)
    requires now <= d && forall i | 0 <= i < |events| :: events[i].daemon <= d
    ensures var s := Run(f, Initial(now, lowest), events); s.now <= d && forall h | h in s.enqueued :: h < d
  {
    if events != [] {
      BelowChain(f, now, lowest, events[..|events| - 1], d);
    }
  }

  // ---- Ticks inside a phase of the loop ----

  /** The pass has passed its clamp. */
  predicate InPass(pc: Pc) {
    pc == Restart || pc == Measure || pc == Loop || pc == Ask || pc == Update
  }

  /** The pass has ended, the new lowest height is not set. */
  predicate PassOver(pc: Pc) {
    pc == Ask || pc == Update
  }

  /** The loop is in this phase, and since it entered it a tick has read more than `above`. */
  ghost predicate TickSince(f: Flags, s0: State, events: seq<Event>, phase: Pc -> bool, above: int) {
    events != [] &&
    var n := |events| - 1;
    phase(Run(f, s0, events).pc) && phase(Run(f, s0, events[..n]).pc) &&
    ((events[n].Tick? && events[n].daemon > above) || TickSince(f, s0, events[..n], phase, above))
  }

  /** What holds in every state, panicked or not. */
  predicate Sane(f: Flags, s: State) {
    s.now >= 1 && (f.ending <= 0 ==> s.lowest <= s.now) && s.achieved >= 0 && (s.achieved == 0 ==> s.pc != Update) &&
    (s.pc == Clamp ==> s.lowest <= s.now) &&
    (s.pc == Loop ==> s.height <= s.now) &&
    (PassOver(s.pc) ==> s.passEnd <= s.now) &&
    (s.pc == Update ==> s.passEnd <= s.achieved)
  }

  lemma {:induction false} RunSane(f: Flags, now: int, lowest: int, events: seq<Event>)
    requires now >= 1 && lowest <= now && Orderly(f, Initial(now, lowest), events)
    ensures Sane(f, Run(f, Initial(now, lowest), events))
  {
    hide Next, Sane, Orderly;
    if events != [] {
      LastOrderly(f, Initial(now, lowest), events);
      RunSane(f, now, lowest, events[..|events| - 1]);
      StepSane(f, Run(f, Initial(now, lowest), events[..|events| - 1]), events[|events| - 1]);
    } else {
      StartSane(f, now, lowest);
    }
  }

  lemma StartSane(f: Flags, now: int, lowest: int)
    requires now >= 1 && lowest <= now
    ensures Sane(f, Initial(now, lowest))
  {
  }

  lemma StepSane(f: Flags, s: State, e: Event)
    requires Sane(f, s) && e.daemon >= s.now && (f.ending > 0 ==> e.daemon >= s.lowest)
    ensures Sane(f, Next(f, s, e))
  {
  }

  /** After the pass has ended, `now` is beyond a height exactly when a tick has read more since. */
  lemma {:induction false} NowSincePassEnd(f: Flags, now: int, lowest: int, events: seq<Event>, above: int)
    requires now >= 1 && lowest <= now && Orderly(f, Initial(now, lowest), events)
    ensures var s := Run(f, Initial(now, lowest), events);
      PassOver(s.pc) && above >= s.passEnd ==>
        (s.now > above <==> TickSince(f, Initial(now, lowest), events, PassOver, above))
  {
    if events != [] {
      LastOrderly(f, Initial(now, lowest), events);
      RunSane(f, now, lowest, events[..|events| - 1]);
      NowSincePassEnd(f, now, lowest, events[..|events| - 1], above);
    }
  }

  /** Inside a pass, `now` is beyond the ending height only by a tick since the clamp. */
  lemma {:induction false} NowSinceClamp(f: Flags, now: int, lowest: int, events: seq<Event>, above: int)
    requires 0 < f.ending <= above && Orderly(f, Initial(now, lowest), events)
    ensures var s := Run(f, Initial(now, lowest), events);
      InPass(s.pc) ==> (s.now > above <==> TickSince(f, Initial(now, lowest), events, InPass, above))
  {
    if events != [] {
      LastOrderly(f, Initial(now, lowest), events);
      NowSinceClamp(f, now, lowest, events[..|events| - 1], above);
    }
  }

  // ---- What is enqueued, what is skipped ----

  /** Event i sets a lowest height beyond h, where the pass before it ended at h or below: the daemon
      was asked and answered more than h, and since the end of the pass a tick has read more than h. */
  ghost predicate JumpsOver(f: Flags, s0: State, events: seq<Event>, i: int, h: int) {
    0 <= i < |events| && events[i].Go? &&
    var at := Run(f, s0, events[..i]);
    at.pc == Update && at.passEnd <= h < at.achieved && TickSince(f, s0, events[..i], PassOver, h)
  }

  ghost predicate IsSkipped(f: Flags, s0: State, events: seq<Event>, h: int) {
    exists i :: JumpsOver(f, s0, events, i, h)
  }

  ghost function Skipped(f: Flags, s0: State, events: seq<Event>): iset<int> {
    iset h | IsSkipped(f, s0, events, h)
  }

  /** Everything below this height has been enqueued or jumped over. */
  function Front(s: State): int {
    match s.pc
    case Loop => s.height
    case Ask => s.passEnd
    case Update => s.passEnd
    case _ => s.lowest
  }

  ghost predicate Ascending(xs: seq<int>) {
    forall i, j | 0 <= i < j < |xs| :: xs[i] < xs[j]
  }

  /** The first pass has not settled its lowest height yet. */
  predicate Unsettled(s: State) {
    s.achieved == 0 && (s.pc == Clamp || s.pc == Restart)
  }

  /** Every height from base up to the front was enqueued once, in order, unless it was skipped. */
  ghost predicate HistoryOk(enqueued: seq<int>, skipped: iset<int>, base: int, front: int) {
    base <= front && Ascending(enqueued) &&
    (forall h | h in skipped :: base <= h < front) &&
    forall h :: h in enqueued <==> base <= h < front && h !in skipped
  }

  ghost predicate Covered(f: Flags, s0: State, events: seq<Event>) {
    var s := Run(f, s0, events);
    HistoryOk(s.enqueued, Skipped(f, s0, events), s.base, Front(s)) &&
    (Unsettled(s) ==> s.base == s.lowest && s.enqueued == [] && Skipped(f, s0, events) == iset{})
  }

  lemma Enqueue(enqueued: seq<int>, skipped: iset<int>, base: int, front: int)
    requires HistoryOk(enqueued, skipped, base, front)
    ensures HistoryOk(enqueued + [front], skipped, base, front + 1)
  {
    var r := enqueued + [front];
    assert forall h :: h in r <==> h in enqueued || h == front;
    assert forall i | 0 <= i < |enqueued| :: enqueued[i] in enqueued;
  }

  lemma JumpOver(
    enqueued: seq<int>, skipped: iset<int>, base: int, front: int, lowest: int, skipped': iset<int>)
    requires front <= lowest && HistoryOk(enqueued, skipped, base, front)
    requires forall h :: h in skipped' <==> h in skipped || front <= h < lowest
    ensures HistoryOk(enqueued, skipped', base, lowest)
  {
  }

  /** One more event adds what it jumps over. */
  lemma SkippedByOneMore(f: Flags, s0: State, events: seq<Event>)
    requires events != []
    ensures var n := |events| - 1;
      forall h :: h in Skipped(f, s0, events) <==>
        h in Skipped(f, s0, events[..n]) || JumpsOver(f, s0, events, n, h)
  {
    var n := |events| - 1;
    forall i, h | 0 <= i < n ensures JumpsOver(f, s0, events, i, h) <==> JumpsOver(f, s0, events[..n], i, h) {
      assert events[..n][..i] == events[..i];
    }
    forall h ensures h in Skipped(f, s0, events) <==>
      h in Skipped(f, s0, events[..n]) || JumpsOver(f, s0, events, n, h)
    {
    }
  }

  predicate IsJumped(s: State, e: Event, h: int) {
    e.Go? && s.pc == Update && s.passEnd <= h < Min(s.now, s.achieved)
  }

  /** An update jumps over exactly the heights from the end of its pass to the new lowest height. */
  lemma JumpIs(f: Flags, now: int, lowest: int, events: seq<Event>)
    requires events != [] && now >= 1 && lowest <= now && Orderly(f, Initial(now, lowest), events)
    ensures var n := |events| - 1;
      var at := Run(f, Initial(now, lowest), events[..n]);
      forall h :: JumpsOver(f, Initial(now, lowest), events, n, h) <==> IsJumped(at, events[n], h)
  {
    hide Run, Orderly, TickSince;
    var s0, n := Initial(now, lowest), |events| - 1;
    LastOrderly(f, s0, events);
    forall h ensures JumpsOver(f, s0, events, n, h) <==> IsJumped(Run(f, s0, events[..n]), events[n], h) {
      NowSincePassEnd(f, now, lowest, events[..n], h);
    }
  }

  /** Whole runs, the ticker at any moment, any flags, up to a panic if there is one: no height is
      enqueued twice or out of order, and the heights between the first lowest height and the front
      that are not enqueued are exactly those that an update jumps over. */
  lemma {:induction false} RunCovered(f: Flags, now: int, lowest: int, events: seq<Event>)
    requires now >= 1 && lowest <= now && Orderly(f, Initial(now, lowest), events)
    ensures Covered(f, Initial(now, lowest), events)
  {
    var s0 := Initial(now, lowest);
    if events == [] {
      assert Skipped(f, s0, events) == iset{};
    } else {
      var n := |events| - 1;
      LastOrderly(f, s0, events);
      RunCovered(f, now, lowest, events[..n]);
      RunSane(f, now, lowest, events[..n]);
      SkippedByOneMore(f, s0, events);
      JumpIs(f, now, lowest, events);
      StepCovered(f, Run(f, s0, events[..n]), events[n], Skipped(f, s0, events[..n]), Skipped(f, s0, events));
    }
  }

  lemma StepCovered(f: Flags, s: State, e: Event, skipped: iset<int>, skipped': iset<int>)
    requires Sane(f, s) && e.daemon >= s.now
    requires HistoryOk(s.enqueued, skipped, s.base, Front(s))
    requires Unsettled(s) ==> s.base == s.lowest && s.enqueued == [] && skipped == iset{}
    requires forall h :: h in skipped' <==> h in skipped || IsJumped(s, e, h)
    ensures var r := Next(f, s, e);
      HistoryOk(r.enqueued, skipped', r.base, Front(r)) &&
      (Unsettled(r) ==> r.base == r.lowest && r.enqueued == [] && skipped' == iset{})
  {
    hide HistoryOk;
    var r := Next(f, s, e);
    if e.Go? && s.pc == Update {
      JumpOver(s.enqueued, skipped, s.base, s.passEnd, r.lowest, skipped');
    } else {
      forall h ensures h in skipped' <==> h in skipped {
        assert !IsJumped(s, e, h);
      }
      assert skipped' == skipped;
      if e.Go? && s.pc == Loop && s.height < s.now {
        Enqueue(s.enqueued, skipped, s.base, s.height);
      } else if e.Go? && Unsettled(s) && !Unsettled(r) {
        NothingYet(r.base);
      }
    }
  }

  lemma NothingYet(base: int)
    ensures HistoryOk([], iset{}, base, base)
  {
  }

  /** Until the first pass has settled its lowest height, nothing but `now` has changed. */
  ghost predicate FirstPass(f: Flags, now: int, lowest: int, s: State) {
    if Unsettled(s) then s.lowest == lowest && s.now >= Clamped(f, now)
    else
      (s.base == lowest || (s.base == f.starting && f.starting > 0)) &&
      (0 < f.starting < Clamped(f, now) ==> s.base == f.starting)
  }

  function Clamped(f: Flags, now: int): int {
    if f.ending > 0 then Min(f.ending, now) else now
  }

  /** The first pass starts at the stored height, or at the starting height, and at the latter when
      that is below the chain's height and the ending height; no later pass goes back to it. */
  lemma {:induction false} FirstHeight(f: Flags, now: int, lowest: int, events: seq<Event>)
    requires now >= 1 && lowest <= now && Orderly(f, Initial(now, lowest), events)
    ensures FirstPass(f, now, lowest, Run(f, Initial(now, lowest), events))
  {
    hide Next, Sane, Orderly;
    if events != [] {
      LastOrderly(f, Initial(now, lowest), events);
      FirstHeight(f, now, lowest, events[..|events| - 1]);
      RunSane(f, now, lowest, events[..|events| - 1]);
      StepFirst(f, now, lowest, Run(f, Initial(now, lowest), events[..|events| - 1]), events[|events| - 1]);
    }
  }

  lemma StepFirst(f: Flags, now: int, lowest: int, s: State, e: Event)
    requires Sane(f, s) && FirstPass(f, now, lowest, s) && e.daemon >= s.now
    ensures FirstPass(f, now, lowest, Next(f, s, e))
  {
  }

  /** A starting height that no reading exceeds is not used. */
  lemma {:induction false} StartingTooHigh(f: Flags, now: int, lowest: int, events: seq<Event>)
    requires now <= f.starting && forall i | 0 <= i < |events| :: events[i].daemon <= f.starting
    requires now >= 1 && lowest <= now && Orderly(f, Initial(now, lowest), events)
    ensures Run(f, Initial(now, lowest), events).base == lowest
  {
    if events != [] {
      var n := |events| - 1;
      LastOrderly(f, Initial(now, lowest), events);
      StartingTooHigh(f, now, lowest, events[..n]);
      BelowChain(f, now, lowest, events[..n], f.starting);
      FirstHeight(f, now, lowest, events[..n]);
      StepNotRestarted(f, now, lowest, Run(f, Initial(now, lowest), events[..n]), events[n]);
    }
  }

  lemma StepNotRestarted(f: Flags, now: int, lowest: int, s: State, e: Event)
    requires s.base == lowest && s.now <= f.starting && FirstPass(f, now, lowest, s)
    requires !Unsettled(s) ==> !(s.achieved == 0 && s.pc == Restart)
    ensures Next(f, s, e).base == lowest
  {
  }

  // ---- When nothing is skipped ----

  /** Event i skips something: the daemon was asked and answered more than the height where the pass
      ended, and since then a tick has read more than that height. */
  ghost predicate Jumps(f: Flags, s0: State, events: seq<Event>, i: int) {
    0 <= i < |events| && events[i].Go? &&
    var at := Run(f, s0, events[..i]);
    at.pc == Update && at.passEnd < at.achieved && TickSince(f, s0, events[..i], PassOver, at.passEnd)
  }

  lemma {:induction false} TickSinceLower(
    f: Flags, s0: State, events: seq<Event>, phase: Pc -> bool, above: int, below: int)
    requires below <= above && TickSince(f, s0, events, phase, above)
    ensures TickSince(f, s0, events, phase, below)
  {
    var n := |events| - 1;
    if TickSince(f, s0, events[..n], phase, above) {
      TickSinceLower(f, s0, events[..n], phase, above, below);
    }
  }

  ghost predicate Gapless(s: State) {
    forall h | s.base <= h < Front(s) :: h in s.enqueued
  }

  /** Every height from the first one to the front is enqueued exactly when no update jumps. */
  lemma GaplessIff(f: Flags, now: int, lowest: int, events: seq<Event>)
    requires now >= 1 && lowest <= now && Orderly(f, Initial(now, lowest), events)
    ensures Gapless(Run(f, Initial(now, lowest), events)) <==>
      forall i :: !Jumps(f, Initial(now, lowest), events, i)
  {
    hide Run, Next, Orderly, TickSince, Ascending;
    var s0 := Initial(now, lowest);
    RunCovered(f, now, lowest, events);
    if i :| Jumps(f, s0, events, i) {
      var h := Run(f, s0, events[..i]).passEnd;
      assert JumpsOver(f, s0, events, i, h);
      assert h in Skipped(f, s0, events);
    }
    if h :| h in Skipped(f, s0, events) {
      var i :| JumpsOver(f, s0, events, i, h);
      TickSinceLower(f, s0, events[..i], PassOver, h, Run(f, s0, events[..i]).passEnd);
      assert Jumps(f, s0, events, i);
    }
  }

  /** No tick lands between the end of a pass (or its skip) and the new lowest height. */
  ghost predicate Quiet(f: Flags, s: State, events: seq<Event>) {
    forall i | 0 <= i < |events| && events[i].Tick? :: !PassOver(Run(f, s, events[..i]).pc)
  }

  lemma {:induction false} QuietTicks(f: Flags, s: State, events: seq<Event>, n: nat, above: int)
    requires Quiet(f, s, events) && n <= |events|
    ensures !TickSince(f, s, events[..n], PassOver, above)
  {
    if n > 0 {
      QuietTicks(f, s, events, n - 1, above);
      assert events[..n][..n - 1] == events[..n - 1];
    }
  }

  /** Then the passes enqueue every height from the first lowest height on, once each, in order,
      without a gap. */
  lemma QuietRunsAreGapless(f: Flags, now: int, lowest: int, events: seq<Event>)
    requires now >= 1 && lowest <= now && Orderly(f, Initial(now, lowest), events)
    requires Quiet(f, Initial(now, lowest), events)
    ensures var s := Run(f, Initial(now, lowest), events);
      s.base <= Front(s) && |s.enqueued| == Front(s) - s.base &&
      forall i | 0 <= i < |s.enqueued| :: s.enqueued[i] == s.base + i
  {
    var s0 := Initial(now, lowest);
    var s := Run(f, s0, events);
    RunCovered(f, now, lowest, events);
    forall i ensures !Jumps(f, s0, events, i) {
      if Jumps(f, s0, events, i) {
        QuietTicks(f, s0, events, i, Run(f, s0, events[..i]).passEnd);
      }
    }
    GaplessIff(f, now, lowest, events);
    Consecutive(s.enqueued, s.base, Front(s));
  }

  /** An ascending list of exactly the heights low..high is low, low + 1, and so on. */
  lemma {:induction false} Consecutive(xs: seq<int>, low: int, high: int)
    requires low <= high && Ascending(xs) && forall h :: h in xs <==> low <= h < high
    ensures |xs| == high - low && forall i | 0 <= i < |xs| :: xs[i] == low + i
    decreases |xs|
  {
    assert low in xs <==> low < high;
    if xs != [] {
      assert xs[|xs| - 1] in xs;
      assert high - 1 in xs;
      var n := |xs| - 1;
      var p :| 0 <= p < |xs| && xs[p] == high - 1;
      assert xs[n] in xs;
      assert p == n;
      var init := xs[..n];
      forall h ensures h in init <==> low <= h < high - 1 {
        if h in xs && h < high - 1 {
          var q :| 0 <= q < |xs| && xs[q] == h;
          assert init[q] == h;
        }
      }
      Consecutive(init, low, high - 1);
    }
  }

  // ---- When a height is enqueued twice, whatever the daemon answers ----

  /** The last update so far put the lowest height at or below h, which was enqueued already. */
  ghost predicate Rewound(f: Flags, s0: State, events: seq<Event>, h: int) {
    events != [] &&
    var n := |events| - 1;
    var at := Run(f, s0, events[..n]);
    if events[n].Go? && at.pc == Update then Min(at.now, at.achieved) <= h && h in at.enqueued
    else Rewound(f, s0, events[..n], h)
  }

  /** At event i the loop hands on a height that the last update has put back before it. */
  ghost predicate Repeats(f: Flags, s0: State, events: seq<Event>, i: int) {
    0 <= i < |events| &&
    var at := Run(f, s0, events[..i]);
    EnqueuesNow(at, events[i], at.height) && Rewound(f, s0, events[..i], at.height)
  }

  ghost predicate EachOnce(xs: seq<int>) {
    forall i, j | 0 <= i < j < |xs| :: xs[i] != xs[j]
  }

  lemma OnceMore(xs: seq<int>, h: int)
    ensures EachOnce(xs + [h]) <==> EachOnce(xs) && h !in xs
  {
    var r := xs + [h];
    if EachOnce(r) {
      forall i | 0 <= i < |xs| ensures xs[i] != h {
        assert r[i] != r[|xs|];
      }
      forall i, j | 0 <= i < j < |xs| ensures xs[i] != xs[j] {
        assert r[i] != r[j];
      }
    }
  }

  /** Before an update has put it back, the loop stands above everything it has enqueued. */
  ghost predicate Ahead(s: State, rewound: iset<int>) {
    (forall h | h in rewound :: h in s.enqueued) &&
    (s.achieved == 0 && (s.pc == Clamp || s.pc == Restart) ==> s.enqueued == [] || s.lowest <= 0) &&
    (!PassOver(s.pc) && s.pc != Panicked ==> forall h | h in s.enqueued && Front(s) <= h :: h in rewound)
  }

  ghost function RewoundSet(f: Flags, s0: State, events: seq<Event>): iset<int> {
    iset h | Rewound(f, s0, events, h)
  }

  lemma StepAhead(f: Flags, s: State, e: Event, rewound: iset<int>, rewound': iset<int>)
    requires Ahead(s, rewound)
    requires forall h :: h in rewound' <==>
      if e.Go? && s.pc == Update then Min(s.now, s.achieved) <= h && h in s.enqueued else h in rewound
    ensures Ahead(Next(f, s, e), rewound')
  {
  }

  lemma {:induction false} RunAhead(f: Flags, now: int, lowest: int, events: seq<Event>)
    ensures Ahead(Run(f, Initial(now, lowest), events), RewoundSet(f, Initial(now, lowest), events))
  {
    hide Next, Ahead;
    var s0 := Initial(now, lowest);
    if events == [] {
      StartAhead(now, lowest, RewoundSet(f, s0, events));
    } else {
      var n := |events| - 1;
      RunAhead(f, now, lowest, events[..n]);
      StepAhead(f, Run(f, s0, events[..n]), events[n], RewoundSet(f, s0, events[..n]), RewoundSet(f, s0, events));
    }
  }

  lemma StartAhead(now: int, lowest: int, rewound: iset<int>)
    requires rewound == iset{}
    ensures Ahead(Initial(now, lowest), rewound)
  {
  }

  /** Whatever the flags, the schedule and the readings: every height is enqueued at most once exactly
      when the loop never hands on a height that the last update has put back before it. */
  lemma {:induction false} RepeatsIff(f: Flags, now: int, lowest: int, events: seq<Event>)
    ensures EachOnce(Run(f, Initial(now, lowest), events).enqueued) <==>
      forall i :: !Repeats(f, Initial(now, lowest), events, i)
  {
    hide Next, EachOnce, Repeats;
    var s0 := Initial(now, lowest);
    if events == [] {
      NoneRepeats(f, s0);
    } else {
      var n := |events| - 1;
      RepeatsIff(f, now, lowest, events[..n]);
      RepeatsEarlier(f, s0, events);
      RepeatsNow(f, now, lowest, events);
      var before, after := Run(f, s0, events[..n]), Run(f, s0, events);
      EnqueuedNext(f, before, events[n]);
      OnceMore(before.enqueued, before.height);
      assert after == Next(f, before, events[n]);
      if i :| Repeats(f, s0, events[..n], i) {
        assert Repeats(f, s0, events, i);
      }
      if i :| Repeats(f, s0, events, i) {
        assert i == n || Repeats(f, s0, events[..n], i);
      }
    }
  }

  lemma NoneRepeats(f: Flags, s0: State)
    requires s0.enqueued == []
    ensures EachOnce(Run(f, s0, []).enqueued)
    ensures forall i :: !Repeats(f, s0, [], i)
  {
  }

  lemma EnqueuedNext(f: Flags, s: State, e: Event)
    ensures Next(f, s, e).enqueued == if EnqueuesNow(s, e, s.height) then s.enqueued + [s.height] else s.enqueued
  {
  }

  lemma RepeatsNow(f: Flags, now: int, lowest: int, events: seq<Event>)
    requires events != []
    ensures var n := |events| - 1;
      var s := Run(f, Initial(now, lowest), events[..n]);
      Repeats(f, Initial(now, lowest), events, n) <==> EnqueuesNow(s, events[n], s.height) && s.height in s.enqueued
  {
    hide Run, Rewound;
    var s0, n := Initial(now, lowest), |events| - 1;
    var s := Run(f, s0, events[..n]);
    RunAhead(f, now, lowest, events[..n]);
    assert s.height in RewoundSet(f, s0, events[..n]) <==> Rewound(f, s0, events[..n], s.height);
  }

  lemma RepeatsEarlier(f: Flags, s0: State, events: seq<Event>)
    requires events != []
    ensures var n := |events| - 1;
      forall i :: Repeats(f, s0, events, i) <==>
        Repeats(f, s0, events[..n], i) || (i == n && Repeats(f, s0, events, n))
  {
    hide Run, Rewound;
    var n := |events| - 1;
    forall i ensures Repeats(f, s0, events, i) <==>
      Repeats(f, s0, events[..n], i) || (i == n && Repeats(f, s0, events, n))
    {
      if 0 <= i < n {
        assert events[..n][..i] == events[..i];
      }
    }
  }

  // ---- The ending height ----

  /** Events i, i + 1 and i + 2 clamp `now`, pass the restart and measure, with no tick in between,
      in a pass that begins above the ending height and is not the one that restarts below it. */
  ghost predicate PanicsFrom(f: Flags, s0: State, events: seq<Event>, i: int) {
    0 <= i && i + 2 < |events| && events[i].Go? && events[i + 1].Go? && events[i + 2].Go? &&
    var at := Run(f, s0, events[..i]);
    at.pc == Clamp && 0 < f.ending < at.lowest && !(at.achieved == 0 && 0 < f.starting < f.ending)
  }

  lemma PanicFromBelow(f: Flags, s0: State, events: seq<Event>, i: int)
    requires PanicsFrom(f, s0, events, i) && i + 3 == |events| && Sane(f, Run(f, s0, events[..i]))
    ensures Run(f, s0, events).pc == Panicked
  {
    var at := Run(f, s0, events[..i]);
    var clamped := at.(now := f.ending, pc := Restart);
    Unfold(f, s0, events, i, at, events[i]);
    Unfold(f, s0, events, i + 1, clamped, events[i + 1]);
    Unfold(f, s0, events, i + 2, Next(f, clamped, events[i + 1]), events[i + 2]);
    assert events[..i + 3] == events;
  }

  lemma LowAtMeasure(f: Flags, s: State, e: Event)
    requires Sane(f, s) && e.daemon >= s.now && (f.ending > 0 ==> e.daemon >= s.lowest)
    requires var r := Next(f, s, e); r.pc == Measure && r.now < r.lowest
    ensures e.Go? && s.pc == Restart && s.now < s.lowest && !(s.achieved == 0 && 0 < f.starting < s.now)
  {
  }

  lemma LowAtRestart(f: Flags, s: State, e: Event)
    requires Sane(f, s) && e.daemon >= s.now && (f.ending > 0 ==> e.daemon >= s.lowest)
    requires var r := Next(f, s, e); r.pc == Restart && r.now < r.lowest
    ensures e.Go? && s.pc == Clamp && 0 < f.ending < s.lowest && Next(f, s, e) == s.(now := f.ending, pc := Restart)
  {
  }

  /** Only a pass that begins above the ending height measures a negative size. */
  lemma PanicFromAbove(f: Flags, s0: State, events: seq<Event>)
    requires s0.pc == Clamp && Orderly(f, s0, events) && events != []
    requires forall i | 0 <= i <= |events| :: Sane(f, Run(f, s0, events[..i]))
    requires Run(f, s0, events).pc == Panicked && Run(f, s0, events[..|events| - 1]).pc != Panicked
    ensures PanicsFrom(f, s0, events, |events| - 3)
  {
    hide Next, Sane, Orderly;
    var n := |events| - 1;
    var measure := Run(f, s0, events[..n]);
    StepPanics(f, measure, events[n]);
    assert n > 0 by { assert n == 0 ==> measure == s0; }
    assert events[..n][..n - 1] == events[..n - 1];
    var restart := Run(f, s0, events[..n - 1]);
    AtOrderly(f, s0, events, n - 1);
    LowAtMeasure(f, restart, events[n - 1]);
    assert n > 1 by { assert n == 1 ==> restart == s0; }
    assert events[..n - 1][..n - 2] == events[..n - 2];
    AtOrderly(f, s0, events, n - 2);
    LowAtRestart(f, Run(f, s0, events[..n - 2]), events[n - 2]);
  }

  lemma StepPanics(f: Flags, s: State, e: Event)
    requires s.pc != Panicked && Next(f, s, e).pc == Panicked
    ensures e.Go? && s.pc == Measure && s.now < s.lowest
  {
  }

  lemma AtOrderly(f: Flags, s0: State, events: seq<Event>, i: nat)
    requires Orderly(f, s0, events) && i < |events|
    ensures var at := Run(f, s0, events[..i]);
      events[i].daemon >= at.now && (f.ending > 0 ==> events[i].daemon >= at.lowest)
  {
  }

  /** With any flags, the loop panics exactly when a pass begins above the ending height and no tick
      lands before it is measured. */
  lemma {:induction false} PanicsIff(f: Flags, now: int, lowest: int, events: seq<Event>)
    requires now >= 1 && lowest <= now && Orderly(f, Initial(now, lowest), events)
    ensures Run(f, Initial(now, lowest), events).pc == Panicked <==>
      exists i :: PanicsFrom(f, Initial(now, lowest), events, i)
  {
    hide Next, Sane, Orderly;
    var s0 := Initial(now, lowest);
    if events != [] {
      var n := |events| - 1;
      LastOrderly(f, s0, events);
      PanicsIff(f, now, lowest, events[..n]);
      assert forall i :: PanicsFrom(f, s0, events[..n], i) <==> i < n - 2 && PanicsFrom(f, s0, events, i) by {
        PanicsEarlier(f, s0, events);
      }
      assert Run(f, s0, events[..n]).pc == Panicked ==> Run(f, s0, events).pc == Panicked by {
        StaysPanicked(f, Run(f, s0, events[..n]), events[n]);
      }
      forall i | 0 <= i <= n + 1 ensures Sane(f, Run(f, s0, events[..i])) {
        PrefixOrderly(f, s0, events, i);
        RunSane(f, now, lowest, events[..i]);
      }
      if PanicsFrom(f, s0, events, n - 2) {
        PanicFromBelow(f, s0, events, n - 2);
      }
      if Run(f, s0, events).pc == Panicked && Run(f, s0, events[..n]).pc != Panicked {
        PanicFromAbove(f, s0, events);
      }
    }
  }

  lemma PanicsEarlier(f: Flags, s0: State, events: seq<Event>)
    requires events != []
    ensures var n := |events| - 1;
      forall i :: PanicsFrom(f, s0, events[..n], i) <==> i < n - 2 && PanicsFrom(f, s0, events, i)
  {
    hide Run;
    var n := |events| - 1;
    forall i ensures PanicsFrom(f, s0, events[..n], i) <==> i < n - 2 && PanicsFrom(f, s0, events, i) {
      if 0 <= i < n - 2 {
        assert events[..n][..i] == events[..i];
      }
    }
  }

  lemma StaysPanicked(f: Flags, s: State, e: Event)
    ensures s.pc == Panicked ==> Next(f, s, e).pc == Panicked
  {
  }

  /** An update leaves a lowest height above the ending height exactly when the daemon was asked and
      answered more than it, and a tick inside the pass has read more than it. */
  lemma AboveEndingIff(f: Flags, now: int, lowest: int, events: seq<Event>, d: int)
    requires f.ending > 0 && Orderly(f, Initial(now, lowest), events)
    requires Run(f, Initial(now, lowest), events).pc == Update
    ensures var s := Run(f, Initial(now, lowest), events);
      Next(f, s, Go(d)).lowest > f.ending <==>
        s.achieved > f.ending && TickSince(f, Initial(now, lowest), events, InPass, f.ending)
  {
    NowSinceClamp(f, now, lowest, events, f.ending);
  }

  /** At event i the loop stands at or above the ending height, and since the clamp of its pass a tick
      has read more than where it stands. */
  ghost predicate Overshoots(f: Flags, s0: State, events: seq<Event>, i: int) {
    0 <= i < |events| && events[i].Go? &&
    var at := Run(f, s0, events[..i]);
    at.pc == Loop && at.height >= f.ending && TickSince(f, s0, events[..i], InPass, at.height)
  }

  ghost predicate BelowEnding(f: Flags, enqueued: seq<int>) {
    forall h | h in enqueued :: h < f.ending
  }

  /** The heights enqueued stay below the ending height exactly when the loop never overshoots. */
  lemma {:induction false} StaysBelowEndingIff(f: Flags, now: int, lowest: int, events: seq<Event>)
    requires f.ending > 0 && Orderly(f, Initial(now, lowest), events)
    ensures BelowEnding(f, Run(f, Initial(now, lowest), events).enqueued) <==>
      forall i :: !Overshoots(f, Initial(now, lowest), events, i)
  {
    hide Next, Orderly, Overshoots;
    var s0 := Initial(now, lowest);
    if events == [] {
      assert forall i :: !Overshoots(f, s0, events, i) by { NoneOvershoots(f, s0); }
    } else {
      var n := |events| - 1;
      LastOrderly(f, s0, events);
      StaysBelowEndingIff(f, now, lowest, events[..n]);
      OvershootsEarlier(f, s0, events);
      OvershootsNow(f, now, lowest, events);
      EnqueuedBy(f, Run(f, s0, events[..n]), events[n]);
      var before, after := Run(f, s0, events[..n]), Run(f, s0, events);
      assert after == Next(f, before, events[n]);
      if h :| h in after.enqueued && h >= f.ending {
        if h in before.enqueued {
          var i :| Overshoots(f, s0, events[..n], i);
          assert Overshoots(f, s0, events, i);
        } else {
          assert Overshoots(f, s0, events, n);
        }
      }
      if i :| Overshoots(f, s0, events, i) {
        if i == n {
          assert before.height in after.enqueued;
        } else {
          var h :| h in before.enqueued && h >= f.ending;
          assert h in after.enqueued;
        }
      }
    }
  }

  lemma NoneOvershoots(f: Flags, s0: State)
    ensures forall i :: !Overshoots(f, s0, [], i)
  {
  }

  predicate EnqueuesNow(s: State, e: Event, h: int) {
    e.Go? && s.pc == Loop && s.height < s.now && h == s.height
  }

  lemma EnqueuedBy(f: Flags, s: State, e: Event)
    ensures forall h :: h in Next(f, s, e).enqueued <==> h in s.enqueued || EnqueuesNow(s, e, h)
  {
  }

  lemma OvershootsNow(f: Flags, now: int, lowest: int, events: seq<Event>)
    requires events != [] && f.ending > 0 && Orderly(f, Initial(now, lowest), events)
    ensures var n := |events| - 1;
      var s := Run(f, Initial(now, lowest), events[..n]);
      Overshoots(f, Initial(now, lowest), events, n) <==>
      f.ending <= s.height && EnqueuesNow(s, events[n], s.height)
  {
    hide Run, Orderly, TickSince;
    var n := |events| - 1;
    var s := Run(f, Initial(now, lowest), events[..n]);
    LastOrderly(f, Initial(now, lowest), events);
    if s.height >= f.ending {
      NowSinceClamp(f, now, lowest, events[..n], s.height);
    }
  }

  lemma OvershootsEarlier(f: Flags, s0: State, events: seq<Event>)
    requires events != []
    ensures var n := |events| - 1;
      forall i :: Overshoots(f, s0, events, i) <==>
        Overshoots(f, s0, events[..n], i) || (i == n && Overshoots(f, s0, events, n))
  {
    hide Run, TickSince;
    var n := |events| - 1;
    forall i ensures Overshoots(f, s0, events, i) <==>
      Overshoots(f, s0, events[..n], i) || (i == n && Overshoots(f, s0, events, n))
    {
      if 0 <= i < n {
        assert events[..n][..i] == events[..i];
      }
    }
  }

  // ---- Concrete runs ----

  /** A stored height above the ending height ends the program in the first pass, with no tick at
      all, unless the starting height is below the ending height. */
  lemma StoredAboveEndingPanics(f: Flags, now: int, lowest: int, a: int, b: int, c: int)
    requires 0 < f.ending < lowest <= now && !(0 < f.starting < f.ending)
    ensures Run(f, Initial(now, lowest), [Go(a), Go(b), Go(c)]).pc == Panicked
  {
    var s0, events := Initial(now, lowest), [Go(a), Go(b), Go(c)];
    RunNothing(f, s0, events);
    PanicFromBelow(f, s0, events, 0);
  }

  /** A daemon that keeps answering height 0 is read as height 0: at a tick that is enough to end the
      program, with any flags. */
  lemma ZeroReadingPanics(f: Flags, now: int, lowest: int, a: int, b: int, c: int)
    requires 0 < lowest <= now
    ensures Run(f, Initial(now, lowest), [Tick(0), Go(a), Go(b), Go(c)]).pc == Panicked
  {
    hide Run;
    var s0, events := Initial(now, lowest), [Tick(0), Go(a), Go(b), Go(c)];
    var s1 := s0.(now := 0);
    RunNothing(f, s0, events);
    Unfold(f, s0, events, 0, s0, Tick(0));
    Unfold(f, s0, events, 1, s1, Go(a));
    Unfold(f, s0, events, 2, s1.(pc := Restart), Go(b));
    Unfold(f, s0, events, 3, s1.(pc := Measure), Go(c));
    assert events[..4] == events;
  }

  const EIGHT: seq<Event> := [Go(1), Go(1), Go(1), Go(1), Go(1), Tick(2), Go(2), Go(2)]

  lemma AfterEight(f: Flags, events: seq<Event>)
    requires f == Flags(0, 0) || f == Flags(0, 1)
    requires |events| >= 8 && events[..8] == EIGHT
    ensures Run(f, Initial(1, 0), events[..8]) == State(2, 2, 2, 1, Clamp, [0], 1, 0)
  {
    hide Run;
    var s0 := Initial(1, 0);
    assert forall i | 0 <= i < 8 :: events[i] == EIGHT[i];
    RunNothing(f, s0, events);
    var s1 := State(1, 0, 0, 0, Restart, [], 0, 0);
    Unfold(f, s0, events, 0, s0, Go(1));
    Unfold(f, s0, events, 1, s1, Go(1));
    Unfold(f, s0, events, 2, s1.(pc := Measure), Go(1));
    Unfold(f, s0, events, 3, s1.(pc := Loop), Go(1));
    var s4 := State(1, 0, 0, 1, Loop, [0], 0, 0);
    Unfold(f, s0, events, 4, s4, Go(1));
    var s5 := State(1, 0, 0, 1, Ask, [0], 1, 0);
    Unfold(f, s0, events, 5, s5, Tick(2));
    Unfold(f, s0, events, 6, s5.(now := 2), Go(2));
    Unfold(f, s0, events, 7, s5.(now := 2, achieved := 2, pc := Update), Go(2));
  }

  lemma RunNothing(f: Flags, s: State, events: seq<Event>)
    ensures Run(f, s, events[..0]) == s
  {
  }

  /** A tick between the end of the pass and the new lowest height loses a block: height 1 is never
      enqueued although the loop goes on from height 2. */
  lemma TickLosesABlock()
    ensures var s := Run(Flags(0, 0), Initial(1, 0), EIGHT);
      s.lowest == 2 && s.enqueued == [0] && 1 !in s.enqueued && s.base == 0 && Front(s) == 2
  {
    hide Run;
    assert EIGHT[..8] == EIGHT;
    AfterEight(Flags(0, 0), EIGHT);
  }

  /** With an ending height the same tick ends the program: `now` is lowered again while the lowest
      height is not, and the next pass asks for a channel of negative size. */
  lemma TickWithEndingHeightPanics()
    ensures Run(Flags(0, 1), Initial(1, 0), EIGHT + [Go(2), Go(2), Go(2)]).pc == Panicked
  {
    hide Run;
    var f, s0 := Flags(0, 1), Initial(1, 0);
    var events := EIGHT + [Go(2), Go(2), Go(2)];
    assert events[..8] == EIGHT;
    AfterEight(f, events);
    PanicFromBelow(f, s0, events, 8);
  }
}
