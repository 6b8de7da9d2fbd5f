/** Admission of rewrites: two semaphores and two gauges, moved step by step by concurrent requests. */
module Admission {
  import opened Bytes

  /** Where a request is. A name says what the request has just done. */
  datatype PC =
    | Arrived          // not yet asked for admission
    | TookActive       // took a free active permit; not yet counted
    | FoundNoActive    // found no free active permit
    | TookQueued       // took a queue permit; not yet counted
    | CountedQueued    // counted as queued; about to ask for an active permit
    | Waiting          // in the line for an active permit
    | Granted          // owns an active permit as well as its queue permit
    | LeftQueue        // gave the queue permit back; still counted as queued
    | UncountedQueued  // no longer counted as queued; not yet counted as active
    | Running          // the permit is in the request context, and counted
    | Stopping         // the rewrite was stopped: permit given back, still counted
    | Free             // holds nothing: bypassed, refused or stopped
    | Logging          // being logged: permit given back, still counted
    | Logged
    | Cancelled        // dropped while in the line

  predicate HoldsActive(pc: PC) {
    pc in {TookActive, Granted, LeftQueue, UncountedQueued, Running}
  }

  predicate HoldsQueued(pc: PC) {
    pc in {TookQueued, CountedQueued, Waiting, Granted}
  }

  /** Between the increment and the decrement of the gauge of active rewrites. */
  predicate IsCountedActive(pc: PC) {
    pc in {Running, Stopping, Logging}
  }

  /** Between the increment and the decrement of the gauge of queued rewrites. */
  predicate IsCountedQueued(pc: PC) {
    pc in {CountedQueued, Waiting, Granted, LeftQueue}
  }

  predicate IsRunning(pc: PC) {
    pc == Running
  }

  predicate IsWaiting(pc: PC) {
    pc == Waiting
  }

  predicate IsCancelled(pc: PC) {
    pc == Cancelled
  }

  /** What can happen to a request: it goes on, is bypassed, stopped, logged, or dropped while in the line. */
  datatype Event = Advance | Bypass | Stop | Log | Cancel

  datatype Limits = Limits(maxConcurrent: nat, maxQueued: nat)

  /** `taken` and `given` count, request by request, the active permits acquired and given back. */
  datatype State = State(pcs: seq<PC>, freeActive: nat, freeQueued: nat, line: seq<nat>,
                         activeGauge: int, queuedGauge: int, taken: seq<nat>, given: seq<nat>)
  {
    predicate WellFormed() {
      |taken| == |given| == |pcs| && forall r :: r in line ==> r < |pcs|
    }

    function To(r: nat, pc: PC): State
      requires r < |pcs|
    {
      this.(pcs := pcs[r := pc])
    }

    function Takes(r: nat): State
      requires WellFormed() && r < |pcs|
    {
      this.(taken := taken[r := taken[r] + 1])
    }

    /** The permit that `r` gives back goes to the request that has waited longest, if any waits. */
    function GivesBack(r: nat): State
      requires WellFormed() && r < |pcs|
    {
      var s := this.(given := given[r := given[r] + 1]);
      if line == [] then s.(freeActive := freeActive + 1)
      else
        assert line[0] in line;
        s.To(line[0], Granted).Takes(line[0]).(line := line[1..])
    }
  }

  function Init(limits: Limits, requests: nat): State {
    State(seq(requests, _ => Arrived), limits.maxConcurrent, limits.maxQueued, [], 0, 0,
          seq(requests, _ => 0), seq(requests, _ => 0))
  }

  function Without(line: seq<nat>, r: nat): seq<nat> {
    if line == [] then [] else if line[0] == r then line[1..] else [line[0]] + Without(line[1..], r)
  }

  /** One atomic step of request `r`, or None when the event cannot happen to it now. */
  function Apply(s: State, r: nat, event: Event): Option<State>
    requires s.WellFormed() && r < |s.pcs|
  {
    match (s.pcs[r], event)
    case (Arrived, Bypass) => Some(s.To(r, Free))
    case (Arrived, Advance) =>
      if s.freeActive > 0 then Some(s.To(r, TookActive).Takes(r).(freeActive := s.freeActive - 1))
      else Some(s.To(r, FoundNoActive))
    case (TookActive, Advance) => Some(s.To(r, Running).(activeGauge := s.activeGauge + 1))
    case (FoundNoActive, Advance) =>
      if s.freeQueued > 0 then Some(s.To(r, TookQueued).(freeQueued := s.freeQueued - 1))
      else Some(s.To(r, Free))
    case (TookQueued, Advance) => Some(s.To(r, CountedQueued).(queuedGauge := s.queuedGauge + 1))
    case (CountedQueued, Advance) =>
      if s.freeActive > 0 then Some(s.To(r, Granted).Takes(r).(freeActive := s.freeActive - 1))
      else Some(s.To(r, Waiting).(line := s.line + [r]))
    case (Granted, Advance) => Some(s.To(r, LeftQueue).(freeQueued := s.freeQueued + 1))
    case (LeftQueue, Advance) => Some(s.To(r, UncountedQueued).(queuedGauge := s.queuedGauge - 1))
    case (UncountedQueued, Advance) => Some(s.To(r, Running).(activeGauge := s.activeGauge + 1))
    case (Running, Stop) => Some(s.To(r, Stopping).GivesBack(r))
    case (Stopping, Advance) => Some(s.To(r, Free).(activeGauge := s.activeGauge - 1))
    case (Free, Stop) => Some(s)
    case (Running, Log) => Some(s.To(r, Logging).GivesBack(r))
    case (Logging, Advance) => Some(s.To(r, Logged).(activeGauge := s.activeGauge - 1))
    case (Free, Log) => Some(s.To(r, Logged))
    case (Waiting, Cancel) =>
      Some(s.To(r, Cancelled).(line := Without(s.line, r), freeQueued := s.freeQueued + 1))
    case (Granted, Cancel) =>
      Some(s.To(r, Cancelled).(freeQueued := s.freeQueued + 1).GivesBack(r))
    case _ => None
  }

  /** The states of an interleaving: every request moves at its own pace. */
  ghost predicate Reachable(limits: Limits, s: State, history: seq<(nat, Event)>)
    decreases |history|
  {
    if history == [] then exists requests :: s == Init(limits, requests)
    else
      var (r, event) := history[|history| - 1];
      exists before: State :: Reachable(limits, before, history[..|history| - 1])
        && before.WellFormed() && r < |before.pcs| && Apply(before, r, event) == Some(s)
  }

  function Count(pcs: seq<PC>, p: PC -> bool): nat {
    if pcs == [] then 0 else (if p(pcs[0]) then 1 else 0) + Count(pcs[1..], p)
  }

  function One(b: bool): nat {
    if b then 1 else 0
  }

  lemma {:induction false} CountAfterMove(pcs: seq<PC>, r: nat, pc: PC, p: PC -> bool)
    requires r < |pcs|
    ensures Count(pcs[r := pc], p) + One(p(pcs[r])) == Count(pcs, p) + One(p(pc))
    decreases |pcs|
  {
    var moved := pcs[r := pc];
    if r == 0 {
      assert moved[1..] == pcs[1..];
    } else {
      assert moved[1..] == pcs[1..][r - 1 := pc];
      CountAfterMove(pcs[1..], r - 1, pc, p);
    }
  }

  lemma {:induction false} CountOfArrivals(requests: nat, p: PC -> bool)
    requires !p(Arrived)
    ensures Count(seq(requests, _ => Arrived), p) == 0
    decreases requests
  {
    if requests > 0 {
      var pcs := seq(requests, _ => Arrived);
      assert pcs[1..] == seq(requests - 1, _ => Arrived);
      CountOfArrivals(requests - 1, p);
    }
  }

  /** Permits are conserved and the gauges show who is where. */
  ghost predicate Balanced(limits: Limits, s: State) {
    && s.freeActive + Count(s.pcs, HoldsActive) == limits.maxConcurrent
    && s.freeQueued + Count(s.pcs, HoldsQueued) == limits.maxQueued
    && s.activeGauge == Count(s.pcs, IsCountedActive)
    && s.queuedGauge == Count(s.pcs, IsCountedQueued) + Count(s.pcs, IsCancelled)
  }

  /** The line holds exactly the waiting requests, once each, and only while no permit is free. */
  ghost predicate InLine(s: State) {
    && (forall r :: 0 <= r < |s.pcs| ==> (s.pcs[r] == Waiting <==> r in s.line))
    && AllDifferent(s.line)
    && (s.line != [] ==> s.freeActive == 0)
  }

  /** A request takes a permit at most once, and has given back what it took and does not hold. */
  ghost predicate GivesBackOnce(s: State)
    requires s.WellFormed()
  {
    forall r :: 0 <= r < |s.pcs| ==> Fair(s.pcs[r], s.taken[r], s.given[r])
  }

  predicate Fair(pc: PC, taken: nat, given: nat) {
    && taken == given + One(HoldsActive(pc))
    && taken <= 1
    && (pc in {Arrived, FoundNoActive, TookQueued, CountedQueued, Waiting} ==> taken == 0)
  }

  ghost predicate Inv(limits: Limits, s: State) {
    s.WellFormed() && Balanced(limits, s) && InLine(s) && GivesBackOnce(s)
  }

  lemma InitIsBalanced(limits: Limits, requests: nat)
    ensures Inv(limits, Init(limits, requests))
  {
    CountOfArrivals(requests, HoldsActive);
    CountOfArrivals(requests, HoldsQueued);
    CountOfArrivals(requests, IsCountedActive);
    CountOfArrivals(requests, IsCountedQueued);
    CountOfArrivals(requests, IsCancelled);
  }

  /** What a move of one request does to all the counts. */
  lemma CountsAfterMove(s: State, r: nat, pc: PC)
    requires r < |s.pcs|
    ensures var was, now := s.pcs[r], s.To(r, pc).pcs;
            && Count(now, HoldsActive) + One(HoldsActive(was)) == Count(s.pcs, HoldsActive) + One(HoldsActive(pc))
            && Count(now, HoldsQueued) + One(HoldsQueued(was)) == Count(s.pcs, HoldsQueued) + One(HoldsQueued(pc))
            && Count(now, IsCountedActive) + One(IsCountedActive(was)) ==
               Count(s.pcs, IsCountedActive) + One(IsCountedActive(pc))
            && Count(now, IsCountedQueued) + One(IsCountedQueued(was)) ==
               Count(s.pcs, IsCountedQueued) + One(IsCountedQueued(pc))
            && Count(now, IsCancelled) + One(IsCancelled(was)) == Count(s.pcs, IsCancelled) + One(IsCancelled(pc))
  {
    CountAfterMove(s.pcs, r, pc, HoldsActive);
    CountAfterMove(s.pcs, r, pc, HoldsQueued);
    CountAfterMove(s.pcs, r, pc, IsCountedActive);
    CountAfterMove(s.pcs, r, pc, IsCountedQueued);
    CountAfterMove(s.pcs, r, pc, IsCancelled);
  }

  /** Giving back one permit that is no longer held keeps every balance. */
  lemma GivingBackIsBalanced(limits: Limits, s: State, r: nat)
    requires s.WellFormed() && r < |s.pcs| && InLine(s) && s.pcs[r] != Waiting
    requires Balanced(limits, s.(freeActive := s.freeActive + 1))
    ensures Balanced(limits, s.GivesBack(r)) && InLine(s.GivesBack(r))
    ensures s.GivesBack(r).WellFormed()
  {
    if s.line != [] {
      var next := s.line[0];
      assert next in s.line && s.pcs[next] == Waiting;
      CountsAfterMove(s, next, Granted);
      var after := s.GivesBack(r);
      assert after.line == s.line[1..] && after.pcs == s.pcs[next := Granted];
      assert s.line == [next] + after.line;
      forall q | q in after.line ensures q < |after.pcs| {
        assert q in s.line;
      }
      forall q | 0 <= q < |s.pcs| ensures after.pcs[q] == Waiting <==> q in after.line {
        assert s.line == [next] + after.line;
      }
    }
  }

  predicate AllDifferent(line: seq<nat>) {
    forall i, j :: 0 <= i < j < |line| ==> line[i] != line[j]
  }

  lemma {:induction false} WithoutIsRest(line: seq<nat>, r: nat)
    requires AllDifferent(line)
    ensures AllDifferent(Without(line, r))
    ensures forall q :: q in Without(line, r) <==> q in line && q != r
    decreases |line|
  {
    if line != [] {
      assert line == [line[0]] + line[1..];
      if line[0] != r {
        WithoutIsRest(line[1..], r);
        assert line[0] !in line[1..];
      } else {
        assert r !in line[1..];
      }
    }
  }

  /** The events in which an active permit is given back. */
  predicate GivesBackActive(pc: PC, event: Event) {
    (pc == Running && event in {Stop, Log}) || (pc == Granted && event == Cancel)
  }

  /** The step but for giving back the active permit. */
  function Move(s: State, r: nat, event: Event): State
    requires r < |s.pcs|
  {
    if event == Stop then s.To(r, Stopping)
    else if event == Log then s.To(r, Logging)
    else s.To(r, Cancelled).(freeQueued := s.freeQueued + 1)
  }

  lemma MovingKeepsLine(s: State, r: nat, moved: State)
    requires s.WellFormed() && r < |s.pcs| && InLine(s) && s.pcs[r] != Waiting
    requires |moved.pcs| == |s.pcs| && (forall q :: 0 <= q < |s.pcs| && q != r ==> moved.pcs[q] == s.pcs[q])
    requires moved.pcs[r] != Waiting && moved.line == s.line
    requires moved.freeActive == s.freeActive || s.line == []
    ensures InLine(moved)
  {
  }

  lemma GivingBackKeepsBalance(limits: Limits, s: State, r: nat, event: Event)
    requires s.WellFormed() && r < |s.pcs| && Balanced(limits, s) && InLine(s)
    requires GivesBackActive(s.pcs[r], event)
    ensures var after := Move(s, r, event).GivesBack(r);
            Apply(s, r, event) == Some(after) && after.WellFormed() && Balanced(limits, after) && InLine(after)
  {
    hide Count, InLine, Balanced, Apply;
    var moved := Move(s, r, event);
    GivingBackIsMove(s, r, event);
    MoveFreesOne(limits, s, r, event);
    MovingKeepsLine(s, r, moved);
    GivingBackIsBalanced(limits, moved, r);
  }

  lemma GivingBackIsMove(s: State, r: nat, event: Event)
    requires s.WellFormed() && r < |s.pcs| && GivesBackActive(s.pcs[r], event)
    ensures Move(s, r, event).WellFormed() && Apply(s, r, event) == Some(Move(s, r, event).GivesBack(r))
  {
  }

  lemma MoveFreesOne(limits: Limits, s: State, r: nat, event: Event)
    requires s.WellFormed() && r < |s.pcs| && GivesBackActive(s.pcs[r], event) && Balanced(limits, s)
    ensures var moved := Move(s, r, event); Balanced(limits, moved.(freeActive := moved.freeActive + 1))
  {
    hide Count;
    CountsAfterMove(s, r, Move(s, r, event).pcs[r]);
  }

  lemma OtherStepsKeepBalance(limits: Limits, s: State, r: nat, event: Event)
    requires s.WellFormed() && r < |s.pcs| && Balanced(limits, s)
    requires Apply(s, r, event).Some? && !GivesBackActive(s.pcs[r], event)
    ensures Balanced(limits, Apply(s, r, event).value)
  {
    hide Count;
    CountsAfterMove(s, r, Apply(s, r, event).value.pcs[r]);
  }

  lemma OtherStepsKeepLine(s: State, r: nat, event: Event)
    requires s.WellFormed() && r < |s.pcs| && InLine(s)
    requires Apply(s, r, event).Some? && !GivesBackActive(s.pcs[r], event)
    ensures Apply(s, r, event).value.WellFormed() && InLine(Apply(s, r, event).value)
  {
    var after := Apply(s, r, event).value;
    if s.pcs[r] == Waiting {
      LeavingTheLine(s, r, after);
    } else if after.pcs[r] == Waiting {
      JoiningTheLine(s, r, after);
    } else {
      MovingKeepsLine(s, r, after);
    }
  }

  lemma LeavingTheLine(s: State, r: nat, after: State)
    requires s.WellFormed() && r < |s.pcs| && InLine(s) && s.pcs[r] == Waiting
    requires after == s.To(r, Cancelled).(line := Without(s.line, r), freeQueued := s.freeQueued + 1)
    ensures after.WellFormed() && InLine(after)
  {
    WithoutIsRest(s.line, r);
    assert r in s.line;
  }

  lemma JoiningTheLine(s: State, r: nat, after: State)
    requires s.WellFormed() && r < |s.pcs| && InLine(s) && s.pcs[r] != Waiting && s.freeActive == 0
    requires after == s.To(r, Waiting).(line := s.line + [r])
    ensures after.WellFormed() && InLine(after)
  {
    assert r !in s.line;
  }

  lemma StepGivesBackOnce(s: State, r: nat, event: Event)
    requires s.WellFormed() && r < |s.pcs| && InLine(s) && GivesBackOnce(s)
    requires Apply(s, r, event).Some? && Apply(s, r, event).value.WellFormed()
    ensures GivesBackOnce(Apply(s, r, event).value)
  {
    var after := Apply(s, r, event).value;
    if GivesBackActive(s.pcs[r], event) {
      GivingBackIsOnce(s, r, event, after);
    } else {
      FairRequest(s, r);
      OthersStayFair(s, r, after);
    }
  }

  lemma FairRequest(s: State, r: nat)
    requires s.WellFormed() && r < |s.pcs| && GivesBackOnce(s)
    ensures Fair(s.pcs[r], s.taken[r], s.given[r])
  {
  }

  lemma OthersStayFair(s: State, r: nat, after: State)
    requires s.WellFormed() && r < |s.pcs| && GivesBackOnce(s)
    requires after.WellFormed() && |after.pcs| == |s.pcs| && after.pcs == s.pcs[r := after.pcs[r]]
    requires after.taken == s.taken[r := after.taken[r]] && after.given == s.given[r := after.given[r]]
    requires Fair(after.pcs[r], after.taken[r], after.given[r])
    ensures GivesBackOnce(after)
  {
    hide Fair;
  }

  lemma GivingBackIsOnce(s: State, r: nat, event: Event, after: State)
    requires s.WellFormed() && r < |s.pcs| && InLine(s) && GivesBackOnce(s)
    requires GivesBackActive(s.pcs[r], event) && after == Move(s, r, event).GivesBack(r) && after.WellFormed()
    ensures GivesBackOnce(after)
  {
    if s.line != [] {
      var next := s.line[0];
      assert next in s.line && s.pcs[next] == Waiting;
      assert forall q :: 0 <= q < |s.pcs| && q != r && q != next ==>
        after.pcs[q] == s.pcs[q] && after.taken[q] == s.taken[q] && after.given[q] == s.given[q];
    }
  }

  lemma StepKeepsInv(limits: Limits, s: State, r: nat, event: Event)
    requires Inv(limits, s) && r < |s.pcs| && Apply(s, r, event).Some?
    ensures Inv(limits, Apply(s, r, event).value)
  {
    hide Balanced, InLine, GivesBackOnce, Apply;
    if GivesBackActive(s.pcs[r], event) {
      GivingBackKeepsBalance(limits, s, r, event);
    } else {
      OtherStepsKeepBalance(limits, s, r, event);
      OtherStepsKeepLine(s, r, event);
    }
    StepGivesBackOnce(s, r, event);
  }

  /** The invariant holds in every state of every interleaving, with cancellations or without. */
  lemma {:induction false} ReachableStatesAreBalanced(limits: Limits, s: State, history: seq<(nat, Event)>)
    requires Reachable(limits, s, history)
    ensures Inv(limits, s)
    decreases |history|
  {
    hide Inv, Apply;
    if history == [] {
      var requests :| s == Init(limits, requests);
      InitIsBalanced(limits, requests);
    } else {
      var (r, event) := history[|history| - 1];
      var before: State :| Reachable(limits, before, history[..|history| - 1])
        && before.WellFormed() && r < |before.pcs| && Apply(before, r, event) == Some(s);
      ReachableStatesAreBalanced(limits, before, history[..|history| - 1]);
      StepKeepsInv(limits, before, r, event);
    }
  }

  /** Every request is over: logged, or dropped in the line, or never came. */
  predicate Settled(s: State) {
    forall r :: 0 <= r < |s.pcs| ==> s.pcs[r] in {Arrived, Logged, Cancelled}
  }

  lemma {:induction false} NobodyIs(pcs: seq<PC>, p: PC -> bool)
    requires forall r :: 0 <= r < |pcs| ==> !p(pcs[r])
    ensures Count(pcs, p) == 0
    decreases |pcs|
  {
    if pcs != [] {
      NobodyIs(pcs[1..], p);
    }
  }

  /** When all requests are over every permit is free again, and every permit taken was given back once;
      the gauges are zero but for the requests dropped in the line, which stay counted as queued. */
  lemma AllIsGivenBack(limits: Limits, s: State, history: seq<(nat, Event)>)
    requires Reachable(limits, s, history) && Settled(s)
    ensures s.WellFormed()
    ensures s.freeActive == limits.maxConcurrent && s.freeQueued == limits.maxQueued && s.line == []
    ensures s.activeGauge == 0 && s.queuedGauge == Count(s.pcs, IsCancelled)
    ensures forall r :: 0 <= r < |s.pcs| ==> s.given[r] == s.taken[r] <= 1
  {
    hide Count, Reachable;
    ReachableStatesAreBalanced(limits, s, history);
    NobodyIs(s.pcs, HoldsActive);
    NobodyIs(s.pcs, HoldsQueued);
    NobodyIs(s.pcs, IsCountedActive);
    NobodyIs(s.pcs, IsCountedQueued);
    NobodyInLine(s);
  }

  lemma NobodyInLine(s: State)
    requires s.WellFormed() && Settled(s)
    requires forall r :: 0 <= r < |s.pcs| ==> (s.pcs[r] == Waiting <==> r in s.line)
    ensures s.line == []
  {
    SomebodyInLine(s.line);
  }

  lemma SomebodyInLine(line: seq<nat>)
    ensures line == [] || exists r :: r in line
  {
    if line != [] {
      assert line[0] in line;
    }
  }

  /** The gauge of queued rewrites comes back to zero exactly when nobody was dropped in the line. */
  lemma QueuedGaugeIsZeroExactlyWhen(limits: Limits, s: State, history: seq<(nat, Event)>)
    requires Reachable(limits, s, history) && Settled(s)
    ensures s.queuedGauge == 0 <==> forall r :: 0 <= r < |s.pcs| ==> s.pcs[r] != Cancelled
  {
    AllIsGivenBack(limits, s, history);
    if s.queuedGauge != 0 {
      if forall r :: 0 <= r < |s.pcs| ==> s.pcs[r] != Cancelled {
        NobodyIs(s.pcs, IsCancelled);
      }
    } else if r :| 0 <= r < |s.pcs| && s.pcs[r] == Cancelled {
      SomebodyIs(s.pcs, r, IsCancelled);
    }
  }

  lemma {:induction false} SomebodyIs(pcs: seq<PC>, r: nat, p: PC -> bool)
    requires r < |pcs| && p(pcs[r])
    ensures Count(pcs, p) > 0
    decreases |pcs|
  {
    if r > 0 {
      SomebodyIs(pcs[1..], r - 1, p);
    }
  }

  lemma OneMore(limits: Limits, s: State, history: seq<(nat, Event)>, r: nat, event: Event)
    returns (after: State, longer: seq<(nat, Event)>)
    requires Reachable(limits, s, history) && s.WellFormed() && r < |s.pcs| && Apply(s, r, event).Some?
    ensures after == Apply(s, r, event).value && Reachable(limits, after, longer)
  {
    hide Apply;
    after, longer := Apply(s, r, event).value, history + [(r, event)];
    assert longer[..|longer| - 1] == history;
  }

  /** Two requests, of which one has started. */
  lemma OneRuns() returns (s: State, history: seq<(nat, Event)>)
    ensures Reachable(Limits(1, 1), s, history)
    ensures s == State([Running, Arrived], 0, 1, [], 1, 0, [1, 0], [0, 0])
  {
    hide Reachable;
    var limits := Limits(1, 1);
    s, history := Init(limits, 2), [];
    FirstState(limits, 2);
    assert s == State([Arrived, Arrived], 1, 1, [], 0, 0, [0, 0], [0, 0]);
    s, history := OneMore(limits, s, history, 0, Advance);
    assert s == State([TookActive, Arrived], 0, 1, [], 0, 0, [1, 0], [0, 0]);
    s, history := OneMore(limits, s, history, 0, Advance);
  }

  /** The other finds no free permit and queues. */
  lemma OneRunsOneQueues() returns (s: State, history: seq<(nat, Event)>)
    ensures Reachable(Limits(1, 1), s, history)
    ensures s == State([Running, TookQueued], 0, 0, [], 1, 0, [1, 0], [0, 0])
  {
    hide Reachable;
    s, history := OneRuns();
    s, history := OneMore(Limits(1, 1), s, history, 1, Advance);
    assert s == State([Running, FoundNoActive], 0, 1, [], 1, 0, [1, 0], [0, 0]);
    s, history := OneMore(Limits(1, 1), s, history, 1, Advance);
  }

  lemma OneRunsOneWaits() returns (s: State, history: seq<(nat, Event)>)
    ensures Reachable(Limits(1, 1), s, history)
    ensures s == State([Running, Waiting], 0, 0, [1], 1, 1, [1, 0], [0, 0])
  {
    hide Reachable;
    s, history := OneRunsOneQueues();
    s, history := OneMore(Limits(1, 1), s, history, 1, Advance);
    assert s == State([Running, CountedQueued], 0, 0, [], 1, 1, [1, 0], [0, 0]);
    s, history := OneMore(Limits(1, 1), s, history, 1, Advance);
  }

  lemma FirstState(limits: Limits, requests: nat)
    ensures Reachable(limits, Init(limits, requests), [])
  {
  }

  /** The request that waits is dropped, the other is logged: all is over, and one is still counted as queued. */
  lemma DroppedRequestStaysCounted() returns (s: State, history: seq<(nat, Event)>)
    ensures Reachable(Limits(1, 1), s, history) && Settled(s)
    ensures s.pcs == [Logged, Cancelled] && s.queuedGauge == 1
    ensures s.activeGauge == 0 && s.freeActive == 1 && s.freeQueued == 1
  {
    hide Reachable;
    var limits := Limits(1, 1);
    s, history := OneRunsOneWaits();
    s, history := OneMore(limits, s, history, 1, Cancel);
    assert s == State([Running, Cancelled], 0, 1, [], 1, 1, [1, 0], [0, 0]);
    s, history := OneMore(limits, s, history, 0, Log);
    s, history := OneMore(limits, s, history, 0, Advance);
  }

  function Those(pcs: seq<PC>, p: PC -> bool): set<nat> {
    set r: nat | r < |pcs| && p(pcs[r])
  }

  /** Counting is the size of a set. */
  lemma {:induction false} CountIsSize(pcs: seq<PC>, p: PC -> bool)
    ensures Count(pcs, p) == |Those(pcs, p)|
    decreases |pcs|
  {
    var all := Those(pcs, p);
    if pcs == [] {
      assert all == {};
    } else {
      var last := |pcs| - 1;
      var init := pcs[..last];
      CountOfLast(init, pcs[last], p);
      assert pcs == init + [pcs[last]];
      CountIsSize(init, p);
      var before := Those(init, p);
      assert all == before + if p(pcs[last]) then {last} else {};
    }
  }

  lemma {:induction false} CountOfLast(pcs: seq<PC>, pc: PC, p: PC -> bool)
    ensures Count(pcs + [pc], p) == Count(pcs, p) + One(p(pc))
    decreases |pcs|
  {
    if pcs == [] {
      assert [] + [pc] == [pc];
    } else {
      assert (pcs + [pc])[1..] == pcs[1..] + [pc];
      CountOfLast(pcs[1..], pc, p);
    }
  }

  /** At no time do more rewrites run, or wait, than the limits allow; and the gauge of active rewrites shows
      those that run, or have just been stopped or logged. */
  lemma LimitsHold(limits: Limits, s: State, history: seq<(nat, Event)>)
    requires Reachable(limits, s, history)
    ensures |set r: nat | r < |s.pcs| && s.pcs[r] == Running| <= limits.maxConcurrent
    ensures |set r: nat | r < |s.pcs| && s.pcs[r] == Waiting| <= limits.maxQueued
    ensures s.activeGauge == |set r: nat | r < |s.pcs| && s.pcs[r] in {Running, Stopping, Logging}|
  {
    hide Reachable, Count, Those, InLine, GivesBackOnce;
    ReachableStatesAreBalanced(limits, s, history);
    FewerAre(s.pcs, IsRunning, HoldsActive);
    FewerAre(s.pcs, IsWaiting, HoldsQueued);
    CountIsSize(s.pcs, IsRunning);
    CountIsSize(s.pcs, IsWaiting);
    CountIsSize(s.pcs, IsCountedActive);
    ThoseAre(s.pcs);
  }

  lemma ThoseAre(pcs: seq<PC>)
    ensures Those(pcs, IsRunning) == set r: nat | r < |pcs| && pcs[r] == Running
    ensures Those(pcs, IsWaiting) == set r: nat | r < |pcs| && pcs[r] == Waiting
    ensures Those(pcs, IsCountedActive) == set r: nat | r < |pcs| && pcs[r] in {Running, Stopping, Logging}
  {
  }

  lemma {:induction false} FewerAre(pcs: seq<PC>, p: PC -> bool, q: PC -> bool)
    requires forall pc :: p(pc) ==> q(pc)
    ensures Count(pcs, p) <= Count(pcs, q)
    decreases |pcs|
  {
    if pcs != [] {
      FewerAre(pcs[1..], p, q);
    }
  }

  lemma {:induction false} FindOne(pcs: seq<PC>, p: PC -> bool) returns (r: nat)
    requires Count(pcs, p) > 0
    ensures r < |pcs| && p(pcs[r])
    decreases |pcs|
  {
    if p(pcs[0]) {
      r := 0;
    } else {
      r := FindOne(pcs[1..], p);
      r := r + 1;
    }
  }

  /** Nobody waits in vain: while the line is not empty some request holds a permit and can go on. */
  lemma SomeHolderCanGoOn(limits: Limits, s: State, history: seq<(nat, Event)>) returns (r: nat, event: Event)
    requires Reachable(limits, s, history) && limits.maxConcurrent > 0 && s.line != []
    ensures s.WellFormed() && r < |s.pcs| && HoldsActive(s.pcs[r]) && event != Cancel && Apply(s, r, event).Some?
  {
    ReachableStatesAreBalanced(limits, s, history);
    r := FindOne(s.pcs, HoldsActive);
    event := if s.pcs[r] == Running then Log else Advance;
  }

  // First come, first served.

  /** A state that an interleaving comes to from another. */
  ghost predicate LeadsTo(s: State, later: State, steps: seq<(nat, Event)>)
    decreases |steps|
  {
    if steps == [] then later == s
    else
      var (r, event) := steps[|steps| - 1];
      exists before: State :: LeadsTo(s, before, steps[..|steps| - 1])
        && before.WellFormed() && r < |before.pcs| && Apply(before, r, event) == Some(later)
  }

  /** Request `a` waits, and of those ahead of it all are in the given set. */
  ghost predicate WaitsBehind(s: State, a: nat, ahead: set<nat>) {
    exists p: nat :: p < |s.line| && s.line[p] == a && forall k :: 0 <= k < p ==> s.line[k] in ahead
  }

  /** Nobody else has taken a permit. */
  ghost predicate OnlyTheseTook(s: State, later: State, ahead: set<nat>)
    requires s.WellFormed() && later.WellFormed()
  {
    |later.pcs| == |s.pcs| && forall b :: 0 <= b < |s.pcs| && b !in ahead ==> later.taken[b] == s.taken[b]
  }

  lemma {:induction false} WithoutKeepsOrder(line: seq<nat>, r: nat, p: nat) returns (k: nat)
    requires p < |line| && line[p] != r
    ensures k < |Without(line, r)| && Without(line, r)[k] == line[p]
    ensures forall i :: 0 <= i < k ==> Without(line, r)[i] in line[..p]
    decreases |line|
  {
    if line[0] == r {
      k := p - 1;
      forall i | 0 <= i < k ensures Without(line, r)[i] in line[..p] {
        assert line[..p][i + 1] == line[1..][i];
      }
    } else if p == 0 {
      k := 0;
    } else {
      k := WithoutKeepsOrder(line[1..], r, p - 1);
      k := k + 1;
      assert line[..p] == [line[0]] + line[1..][..p - 1];
    }
  }

  lemma FirstIsNotLater(line: seq<nat>)
    requires AllDifferent(line) && line != []
    ensures line[0] !in line[1..]
  {
  }

  lemma GivingBackServesTheFirst(s: State, r: nat, event: Event, a: nat, ahead: set<nat>)
    requires s.WellFormed() && r < |s.pcs| && InLine(s) && GivesBackActive(s.pcs[r], event)
    requires WaitsBehind(s, a, ahead)
    requires var after := Move(s, r, event).GivesBack(r); after.WellFormed() && a in after.line
    ensures var after := Move(s, r, event).GivesBack(r); WaitsBehind(after, a, ahead) && OnlyTheseTook(s, after, ahead)
  {
    var after := Move(s, r, event).GivesBack(r);
    var p: nat :| p < |s.line| && s.line[p] == a && forall k :: 0 <= k < p ==> s.line[k] in ahead;
    assert after.line == s.line[1..];
    FirstIsNotLater(s.line);
    if p > 0 {
      assert s.line[0] in ahead && after.line[p - 1] == a;
      assert forall k :: 0 <= k < p - 1 ==> after.line[k] == s.line[k + 1];
    }
  }

  lemma DroppingKeepsOrder(s: State, r: nat, a: nat, ahead: set<nat>)
    requires s.WellFormed() && r < |s.pcs| && InLine(s) && s.pcs[r] == Waiting && WaitsBehind(s, a, ahead)
    requires Apply(s, r, Cancel).Some? && a in Apply(s, r, Cancel).value.line
    ensures WaitsBehind(Apply(s, r, Cancel).value, a, ahead)
  {
    var p: nat :| p < |s.line| && s.line[p] == a && forall k :: 0 <= k < p ==> s.line[k] in ahead;
    WithoutIsRest(s.line, r);
    var k := WithoutKeepsOrder(s.line, r, p);
    var line := Apply(s, r, Cancel).value.line;
    forall i | 0 <= i < k ensures line[i] in ahead {
      assert Without(s.line, r)[i] in s.line[..p];
      var j :| 0 <= j < p && s.line[..p][j] == line[i];
    }
  }

  /** While a request waits, a step gives a permit to nobody but one ahead of it. */
  lemma StepServesInOrder(limits: Limits, s: State, r: nat, event: Event, a: nat, ahead: set<nat>)
    requires Inv(limits, s) && r < |s.pcs| && Apply(s, r, event).Some? && WaitsBehind(s, a, ahead)
    requires Apply(s, r, event).value.WellFormed() && a in Apply(s, r, event).value.line
    ensures WaitsBehind(Apply(s, r, event).value, a, ahead) && OnlyTheseTook(s, Apply(s, r, event).value, ahead)
  {
    hide Balanced, GivesBackOnce;
    if GivesBackActive(s.pcs[r], event) {
      GivingBackIsMove(s, r, event);
      GivingBackServesTheFirst(s, r, event, a, ahead);
    } else if s.pcs[r] == Waiting {
      DroppingKeepsOrder(s, r, a, ahead);
    } else {
      var p: nat :| p < |s.line| && s.line[p] == a && forall k :: 0 <= k < p ==> s.line[k] in ahead;
      var after := Apply(s, r, event).value;
      assert after.line[p] == a && forall k :: 0 <= k < p ==> after.line[k] == s.line[k];
    }
  }

  /** The request has been in the line, or past it, and is not there. */
  predicate HasLeft(s: State, a: nat) {
    a < |s.pcs| && s.pcs[a] !in {Arrived, FoundNoActive, TookQueued, CountedQueued, Waiting}
  }

  lemma StepLeavesBehind(limits: Limits, s: State, r: nat, event: Event, a: nat)
    requires Inv(limits, s) && r < |s.pcs| && Apply(s, r, event).Some? && (a in s.line || HasLeft(s, a))
    ensures var after := Apply(s, r, event).value;
            |after.pcs| == |s.pcs| && a < |s.pcs| && (after.pcs[a] == Waiting || HasLeft(after, a))
            && (HasLeft(s, a) ==> HasLeft(after, a))
  {
    hide Balanced, GivesBackOnce;
    if s.line != [] {
      assert s.line[0] in s.line;
    }
  }

  lemma {:induction false} RunServesInOrder(limits: Limits, s: State, later: State, steps: seq<(nat, Event)>, a: nat,
                                            ahead: set<nat>)
    requires Inv(limits, s) && WaitsBehind(s, a, ahead) && LeadsTo(s, later, steps)
    ensures Inv(limits, later) && |later.pcs| == |s.pcs| && (a in later.line || HasLeft(later, a))
    ensures a in later.line ==> WaitsBehind(later, a, ahead) && OnlyTheseTook(s, later, ahead)
    decreases |steps|
  {
    hide Apply, WaitsBehind, HasLeft, Inv;
    if steps == [] {
      WaitersAreInLine(s, a, ahead);
    } else {
      var (r, event) := steps[|steps| - 1];
      var before: State :| LeadsTo(s, before, steps[..|steps| - 1])
        && before.WellFormed() && r < |before.pcs| && Apply(before, r, event) == Some(later);
      RunServesInOrder(limits, s, before, steps[..|steps| - 1], a, ahead);
      StepKeepsInv(limits, before, r, event);
      StepLeavesBehind(limits, before, r, event, a);
      WhoWaitsIsInLine(limits, before, a);
      WhoWaitsIsInLine(limits, later, a);
      if a in later.line {
        StepServesInOrder(limits, before, r, event, a, ahead);
      }
    }
  }

  lemma WaitersAreInLine(s: State, a: nat, ahead: set<nat>)
    requires WaitsBehind(s, a, ahead)
    ensures a in s.line
  {
  }

  lemma WhoWaitsIsInLine(limits: Limits, s: State, a: nat)
    requires Inv(limits, s) && a < |s.pcs|
    ensures s.WellFormed() && (s.pcs[a] == Waiting <==> a in s.line) && (HasLeft(s, a) ==> a !in s.line)
  {
    hide Balanced, GivesBackOnce;
  }

  /** While a request waits, through any run, nobody takes a permit but those who joined the line before it. */
  lemma FirstComeFirstServed(limits: Limits, s: State, history: seq<(nat, Event)>, later: State,
                             steps: seq<(nat, Event)>, i: nat)
    requires Reachable(limits, s, history) && LeadsTo(s, later, steps) && i < |s.line| && s.line[i] in later.line
    ensures s.WellFormed() && later.WellFormed() && |later.pcs| == |s.pcs|
    ensures forall b: nat :: b < |s.pcs| && b !in s.line[..i] ==> later.taken[b] == s.taken[b]
    ensures exists k: nat :: k < |later.line| && later.line[k] == s.line[i]
                             && forall j :: 0 <= j < k ==> later.line[j] in s.line[..i]
  {
    hide Reachable, Apply, LeadsTo, Balanced, InLine, GivesBackOnce;
    var a, ahead := s.line[i], set b | b in s.line[..i];
    ReachableStatesAreBalanced(limits, s, history);
    assert forall k :: 0 <= k < i ==> s.line[k] == s.line[..i][k];
    assert WaitsBehind(s, a, ahead);
    RunServesInOrder(limits, s, later, steps, a, ahead);
    var k: nat :| k < |later.line| && later.line[k] == a && forall j :: 0 <= j < k ==> later.line[j] in ahead;
  }

  /** A request that finds no permit is refused exactly when as many wait, or are about to, as may. */
  lemma RefusedExactlyWhenFull(limits: Limits, s: State, history: seq<(nat, Event)>, r: nat)
    requires Reachable(limits, s, history) && r < |s.pcs|
    ensures s.WellFormed()
    ensures s.pcs[r] == Arrived ==>
              (Apply(s, r, Advance).value.pcs[r] == FoundNoActive <==>
               Count(s.pcs, HoldsActive) == limits.maxConcurrent)
    ensures s.pcs[r] == FoundNoActive ==>
              (Apply(s, r, Advance).value.pcs[r] == Free <==> Count(s.pcs, HoldsQueued) == limits.maxQueued)
  {
    hide Reachable, Count, InLine, GivesBackOnce;
    ReachableStatesAreBalanced(limits, s, history);
  }

  // Every request can come to its end.

  /** How many steps a request may have to go. */
  function Rank(pc: PC): nat {
    match pc
    case Arrived => 13
    case FoundNoActive => 12
    case TookQueued => 11
    case CountedQueued => 10
    case Waiting => 9
    case Granted => 8
    case LeftQueue => 7
    case UncountedQueued => 6
    case TookActive => 6
    case Running => 5
    case Stopping => 3
    case Free => 2
    case Logging => 1
    case Logged => 0
    case Cancelled => 0
  }

  function TotalRank(pcs: seq<PC>): nat {
    if pcs == [] then 0 else Rank(pcs[0]) + TotalRank(pcs[1..])
  }

  lemma {:induction false} RankAfterMove(pcs: seq<PC>, r: nat, pc: PC)
    requires r < |pcs|
    ensures TotalRank(pcs[r := pc]) + Rank(pcs[r]) == TotalRank(pcs) + Rank(pc)
    decreases |pcs|
  {
    hide Rank;
    var moved := pcs[r := pc];
    if r == 0 {
      assert moved[1..] == pcs[1..];
    } else {
      assert moved[1..] == pcs[1..][r - 1 := pc];
      RankAfterMove(pcs[1..], r - 1, pc);
    }
  }

  /** The step that brings a request nearer to its end. */
  function Onward(pc: PC): Event {
    if pc == Running || pc == Free then Log else Advance
  }

  predicate IsOver(pc: PC) {
    pc == Logged || pc == Cancelled
  }

  lemma StepGoesOn(s: State, r: nat)
    requires s.WellFormed() && InLine(s) && r < |s.pcs| && s.pcs[r] != Waiting && !IsOver(s.pcs[r])
    ensures Apply(s, r, Onward(s.pcs[r])).Some?
    ensures var after := Apply(s, r, Onward(s.pcs[r])).value;
            |after.pcs| == |s.pcs| && TotalRank(after.pcs) < TotalRank(s.pcs)
  {
    hide TotalRank;
    var event := Onward(s.pcs[r]);
    if s.pcs[r] == Running {
      GivingBackIsMove(s, r, event);
      var moved := Move(s, r, event);
      RankAfterMove(s.pcs, r, Logging);
      if s.line != [] {
        assert s.line[0] in s.line && s.pcs[s.line[0]] == Waiting;
        RankAfterMove(moved.pcs, s.line[0], Granted);
      }
    } else {
      RankAfterMove(s.pcs, r, Apply(s, r, event).value.pcs[r]);
    }
  }

  /** While someone waits, someone else holds a permit. */
  lemma HolderOfPermit(limits: Limits, s: State, r: nat) returns (q: nat)
    requires Inv(limits, s) && limits.maxConcurrent > 0 && r < |s.pcs| && s.pcs[r] == Waiting
    ensures q < |s.pcs| && HoldsActive(s.pcs[q])
  {
    hide Count, GivesBackOnce;
    assert r in s.line;
    q := FindOne(s.pcs, HoldsActive);
  }

  /** Some request can go on unless all are over. */
  lemma SomebodyCanGoOn(limits: Limits, s: State) returns (r: nat)
    requires Inv(limits, s) && limits.maxConcurrent > 0 && exists q: nat :: q < |s.pcs| && !IsOver(s.pcs[q])
    ensures r < |s.pcs| && s.pcs[r] != Waiting && !IsOver(s.pcs[r])
  {
    hide Inv;
    r :| r < |s.pcs| && !IsOver(s.pcs[r]);
    if s.pcs[r] == Waiting {
      r := HolderOfPermit(limits, s, r);
    }
  }

  lemma StepIsReached(s: State, r: nat, event: Event, later: State, steps: seq<(nat, Event)>)
    requires s.WellFormed() && r < |s.pcs| && Apply(s, r, event).Some?
    requires LeadsTo(Apply(s, r, event).value, later, steps)
    ensures LeadsTo(s, later, [(r, event)] + steps)
    decreases |steps|
  {
    hide Apply;
    var all := [(r, event)] + steps;
    if steps == [] {
      assert all[..0] == [] && LeadsTo(s, s, []);
    } else {
      var (q, last) := steps[|steps| - 1];
      var init := steps[..|steps| - 1];
      var before: State :| LeadsTo(Apply(s, r, event).value, before, init)
        && before.WellFormed() && q < |before.pcs| && Apply(before, q, last) == Some(later);
      StepIsReached(s, r, event, before, init);
      assert all[|all| - 1] == (q, last) && all[..|all| - 1] == [(r, event)] + init;
    }
  }

  lemma {:induction false} AllCanEnd(limits: Limits, s: State) returns (later: State, steps: seq<(nat, Event)>)
    requires Inv(limits, s) && limits.maxConcurrent > 0
    ensures LeadsTo(s, later, steps) && |later.pcs| == |s.pcs|
    ensures forall k :: 0 <= k < |steps| ==> steps[k].1 in {Advance, Log}
    ensures forall q :: 0 <= q < |later.pcs| ==> IsOver(later.pcs[q])
    decreases TotalRank(s.pcs)
  {
    hide Apply, Inv, TotalRank;
    if q: nat :| q < |s.pcs| && !IsOver(s.pcs[q]) {
      var r := SomebodyCanGoOn(limits, s);
      InvMeans(limits, s);
      StepGoesOn(s, r);
      StepKeepsInv(limits, s, r, Onward(s.pcs[r]));
      later, steps := AllCanEnd(limits, Apply(s, r, Onward(s.pcs[r])).value);
      StepIsReached(s, r, Onward(s.pcs[r]), later, steps);
      steps := [(r, Onward(s.pcs[r]))] + steps;
    } else {
      later, steps := s, [];
    }
  }

  lemma InvMeans(limits: Limits, s: State)
    requires Inv(limits, s)
    ensures s.WellFormed() && InLine(s)
  {
  }

  /** No state is a dead end: with at least one permit, every request can still come to its end, and nobody needs
      to be stopped or dropped for that. */
  lemma EveryRequestCanEnd(limits: Limits, s: State, history: seq<(nat, Event)>)
    returns (later: State, steps: seq<(nat, Event)>)
    requires Reachable(limits, s, history) && limits.maxConcurrent > 0
    ensures LeadsTo(s, later, steps) && |later.pcs| == |s.pcs|
    ensures forall k :: 0 <= k < |steps| ==> steps[k].1 in {Advance, Log}
    ensures forall r :: 0 <= r < |later.pcs| ==> later.pcs[r] in {Logged, Cancelled}
  {
    hide Reachable, Inv, LeadsTo;
    ReachableStatesAreBalanced(limits, s, history);
    later, steps := AllCanEnd(limits, s);
  }
}
