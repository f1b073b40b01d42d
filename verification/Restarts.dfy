/** A stop and the next start: the height loop goes on from the height that was stored last, which
    need not be the height it had reached. */
module Restarts {
  import opened HeightLoop

  /** What the loop has stored as the last indexed height: at the head of each pass, the daemon's last
      answer. The database writer stores the heights of its stages there too. */
  function StoredByLoop(f: Flags, s0: State, events: seq<Event>, before: int): int {
    if events == [] then before
    else
      var n := |events| - 1;
      var at := Run(f, s0, events[..n]);
      if events[n].Go? && at.pc == Clamp && at.achieved != 0 then at.achieved
      else StoredByLoop(f, s0, events[..n], before)
  }

  /** Inside a pass after the first, that is the answer the daemon gave before it. */
  lemma {:induction false} StoredIsAnswer(f: Flags, s0: State, events: seq<Event>, before: int)
    requires s0.pc == Clamp
    ensures var s := Run(f, s0, events);
      InPass(s.pc) && s.pc != Update && s.achieved != 0 ==> StoredByLoop(f, s0, events, before) == s.achieved
  {
    if events != [] {
      StoredIsAnswer(f, s0, events[..|events| - 1], before);
    }
  }

  /** A height between the first start and where the second run got to, that neither run enqueued and no
      update jumped over. */
  ghost predicate LostBetween(
    f: Flags, s0: State, events: seq<Event>, f': Flags, s0': State, events': seq<Event>, h: int)
  {
    var s, s' := Run(f, s0, events), Run(f', s0', events');
    s.base <= h < Front(s') && h !in s.enqueued && h !in s'.enqueued &&
    h !in Skipped(f, s0, events) && h !in Skipped(f', s0', events')
  }

  /** Whatever was stored, and wherever the first run stopped: the heights lost by the stop are exactly
      those from where it had got to up to the first height of the second run, which is the stored height
      or the chain's, or a starting height. */
  lemma LostByStop(
    f: Flags, now: int, lowest: int, events: seq<Event>,
    f': Flags, now': int, topo: int, stored: int, events': seq<Event>)
    requires now >= 1 && lowest <= now && Orderly(f, Initial(now, lowest), events)
    requires now' >= 1 && Min(topo, stored) <= now' && Orderly(f', Initial(now', Min(topo, stored)), events')
    ensures var s := Run(f, Initial(now, lowest), events);
      var s' := Run(f', Initial(now', Min(topo, stored)), events');
      (f'.starting <= 0 ==> s'.base == Min(topo, stored)) &&
      forall h :: LostBetween(f, Initial(now, lowest), events, f', Initial(now', Min(topo, stored)), events', h) <==>
        Front(s) <= h < s'.base
  {
    hide Run, Orderly, Skipped, Ascending;
    RunCovered(f, now, lowest, events);
    RunCovered(f', now', Min(topo, stored), events');
    FirstHeight(f', now', Min(topo, stored), events');
  }

  /** With what the loop stores: a stop inside a pass after the first loses a height exactly when the
      daemon's last answer and the chain's height at the restart are both beyond where the loop had got
      to. */
  lemma StopLosesIff(
    f: Flags, now: int, lowest: int, events: seq<Event>, before: int,
    f': Flags, now': int, topo: int, events': seq<Event>)
    requires now >= 1 && lowest <= now && Orderly(f, Initial(now, lowest), events)
    requires var stored := StoredByLoop(f, Initial(now, lowest), events, before);
      f'.starting <= 0 && now' >= 1 && Min(topo, stored) <= now' &&
      Orderly(f', Initial(now', Min(topo, stored)), events')
    requires var s := Run(f, Initial(now, lowest), events); InPass(s.pc) && s.pc != Update && s.achieved != 0
    ensures var s := Run(f, Initial(now, lowest), events);
      var s0' := Initial(now', Min(topo, StoredByLoop(f, Initial(now, lowest), events, before)));
      (exists h :: LostBetween(f, Initial(now, lowest), events, f', s0', events', h)) <==>
      s.achieved > Front(s) && topo > Front(s)
  {
    hide Run, Orderly, LostBetween;
    var s0 := Initial(now, lowest);
    var stored := StoredByLoop(f, s0, events, before);
    StoredIsAnswer(f, s0, events, before);
    LostByStop(f, now, lowest, events, f', now', topo, stored, events');
    var s := Run(f, s0, events);
    if s.achieved > Front(s) && topo > Front(s) {
      assert LostBetween(f, s0, events, f', Initial(now', Min(topo, stored)), events', Front(s));
    }
  }
}
