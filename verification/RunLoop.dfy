/** The tracking thread and its clients as interleaved steps over the shared request, flag and device state. */
module RunLoop {

  datatype Request = Continue | Run | Pause | Shutdown

  datatype DeviceState = Initializing | Running | Paused | Stopped | NotInitialized | FrameError

  datatype Call = Init | GetFrame | PauseTracker | ResumeTracker | Close

  /** Where the tracking thread stands. */
  datatype Place =
    | AtStart
    | AtSwitch                 // about to look at the device state
    | Reading(r: Request)      // running, request read, not yet cleared; lock held
    | Asked(r: Request)        // running, with the request taken
    | Pausing                  // state set to paused, tracker not yet paused
    | Waiting(asleep: bool)    // paused, about to look at the flag, or asleep on the condition
    | ReadingPaused(r: Request)  // paused, request read, not yet cleared; lock held
    | Taken(r: Request)        // paused, request taken, flag not yet cleared; lock held
    | Woken(r: Request)        // paused, flag cleared
    | Resuming                 // tracker resumed, state not yet set
    | Leaving                  // out of the loop
    | Closed
    | Ended
    | Failed
    | AssertionHit

  datatype State = State(
    place: Place, device: DeviceState, request: Request, changeFlag: bool,
    signalling: nat,           // clients that have changed the request and not yet signalled
    calls: seq<Call>)

  datatype Step =
    | Initialize(ok: bool)
    | Look
    | ClearRequest
    | Act(error: bool)         // on the request taken while running; a frame may go wrong
    | PauseNow
    | CheckFlag
    | ClearFlag
    | ActWoken
    | SetRunning
    | CloseNow
    | SetStopped
    | ChangeState(r: Request)  // a client
    | Signal                   // a client

  /** The lock keeps clients from signalling, but not from changing the request. */
  predicate LockHeld(s: State) {
    s.place.Reading? || s.place.ReadingPaused? || s.place.Taken?
  }

  predicate Enabled(s: State, step: Step) {
    match step
    case Initialize(_) => s.place.AtStart?
    case Look => s.place.AtSwitch?
    case ClearRequest => s.place.Reading? || s.place.ReadingPaused?
    case Act(_) => s.place.Asked?
    case PauseNow => s.place.Pausing?
    case CheckFlag => s.place == Waiting(false)
    case ClearFlag => s.place.Taken?
    case ActWoken => s.place.Woken?
    case SetRunning => s.place.Resuming?
    case CloseNow => s.place.Leaving?
    case SetStopped => s.place.Closed?
    case ChangeState(r) => r != Continue
    case Signal => s.signalling > 0 && !LockHeld(s)
  }

  function Calling(s: State, c: Call, place: Place): State {
    s.(place := place, calls := s.calls + [c])
  }

  function Apply(s: State, step: Step): State
    requires Enabled(s, step)
  {
    match step
    case Initialize(ok) =>
      if ok then Calling(s, Init, AtSwitch).(device := Running) else Calling(s, Init, Failed).(device := NotInitialized)
    case Look =>
      if s.device == Running then s.(place := Reading(s.request))
      else if s.device == Paused then s.(place := Waiting(false))
      else s.(place := AssertionHit)
    case ClearRequest =>
      s.(place := if s.place.Reading? then Asked(s.place.r) else Taken(s.place.r), request := Continue)
    case Act(error) =>
      if s.place.r == Pause then s.(place := Pausing, device := Paused)
      else if s.place.r == Shutdown then s.(place := Leaving)
      else if error then Calling(s, GetFrame, Leaving).(device := FrameError)
      else Calling(s, GetFrame, AtSwitch)
    case PauseNow => Calling(s, PauseTracker, AtSwitch)
    case CheckFlag => if s.changeFlag then s.(place := ReadingPaused(s.request)) else s.(place := Waiting(true))
    case ClearFlag => s.(place := Woken(s.place.r), changeFlag := false)
    case ActWoken =>
      if s.place.r == Run then Calling(s, ResumeTracker, Resuming)
      else if s.place.r == Shutdown then Calling(s, ResumeTracker, Leaving)
      else s.(place := AtSwitch)
    case SetRunning => s.(place := AtSwitch, device := Running)
    case CloseNow => Calling(s, Close, Closed)
    case SetStopped => s.(place := Ended, device := Stopped)
    case ChangeState(r) => s.(request := r, signalling := s.signalling + 1)
    case Signal =>
      s.(changeFlag := true, signalling := s.signalling - 1,
         place := if s.place.Waiting? then Waiting(false) else s.place)
  }

  /** The loop is entered with any request pending, any flag left over, and any clients on their way. */
  predicate Starts(s: State) {
    s.place.AtStart? && s.device == Initializing && s.calls == []
  }

  ghost predicate Moves(s: State, t: State) {
    exists step :: Enabled(s, step) && t == Apply(s, step)
  }

  ghost predicate IsRun(r: seq<State>) {
    && |r| > 0 && Starts(r[0])
    && forall i :: 0 <= i < |r| - 1 ==> Moves(r[i], r[i + 1])
  }

  // ---------- what holds at every step ----------

  /** Frames and whole pauses, in any order. */
  predicate Balanced(c: seq<Call>) {
    |c| == 0
    || (c[|c| - 1] == GetFrame && Balanced(c[..|c| - 1]))
    || (|c| >= 2 && c[|c| - 2] == PauseTracker && c[|c| - 1] == ResumeTracker && Balanced(c[..|c| - 2]))
  }

  /** Initialised, and not inside a pause. */
  predicate Up(c: seq<Call>) {
    |c| > 0 && c[0] == Init && Balanced(c[1..])
  }

  predicate Down(c: seq<Call>) {
    |c| > 0 && c[|c| - 1] == PauseTracker && Up(c[..|c| - 1])
  }

  predicate WholeRun(c: seq<Call>) {
    |c| > 0 && c[|c| - 1] == Close && Up(c[..|c| - 1])
  }

  /** Where the thread is, the device state and the calls made so far fit together. */
  predicate Consistent(s: State) {
    match s.place
    case AtStart => s.device == Initializing && s.calls == []
    case AtSwitch => (s.device == Running && Up(s.calls)) || (s.device == Paused && Down(s.calls))
    case Reading(_) => s.device == Running && Up(s.calls)
    case Asked(_) => s.device == Running && Up(s.calls)
    case Pausing => s.device == Paused && Up(s.calls)
    case Waiting(_) => s.device == Paused && Down(s.calls)
    case ReadingPaused(_) => s.device == Paused && Down(s.calls)
    case Taken(_) => s.device == Paused && Down(s.calls)
    case Woken(_) => s.device == Paused && Down(s.calls)
    case Resuming => s.device == Paused && Up(s.calls)
    case Leaving => Up(s.calls)
    case Closed => WholeRun(s.calls)
    case Ended => s.device == Stopped && WholeRun(s.calls)
    case Failed => s.device == NotInitialized && s.calls == [Init]
    case AssertionHit => false
  }

  /** A pending request is on its way to the thread: the flag is set, or some client is about to set it. While the
      flag is about to be cleared only the latter counts. */
  predicate Announced(s: State) {
    s.request != Continue ==> s.signalling > 0 || (s.changeFlag && !s.place.Taken?)
  }

  /** The first request is taken while running, so it may be pending unannounced until then. */
  predicate BeforeFirstRequest(s: State) {
    s.place.AtStart? || s.place.Failed? || s.place.Reading? || (s.place.AtSwitch? && s.device == Running)
  }

  predicate Invariant(s: State) {
    && Consistent(s)
    && (s.place == Waiting(true) ==> !s.changeFlag)
    && (BeforeFirstRequest(s) || Announced(s))
  }

  lemma BalancedFrame(c: seq<Call>)
    requires Up(c)
    ensures Up(c + [GetFrame])
  {
    assert (c + [GetFrame])[1..] == c[1..] + [GetFrame];
    assert (c[1..] + [GetFrame])[..|c| - 1] == c[1..];
  }

  lemma PausedDown(c: seq<Call>)
    requires Up(c)
    ensures Down(c + [PauseTracker])
  {
    assert (c + [PauseTracker])[..|c|] == c;
  }

  lemma ResumedUp(c: seq<Call>)
    requires Down(c)
    ensures Up(c + [ResumeTracker])
  {
    var d := c + [ResumeTracker];
    var before := c[..|c| - 1];
    assert d[1..][..|d| - 3] == before[1..];
  }

  lemma ClosedWhole(c: seq<Call>)
    requires Up(c)
    ensures WholeRun(c + [Close])
  {
    assert (c + [Close])[..|c|] == c;
  }

  lemma StepConsistent(s: State, step: Step)
    requires Consistent(s) && Enabled(s, step)
    ensures Consistent(Apply(s, step))
  {
    hide Up, Down, WholeRun;
    CallFacts(s.calls);
  }

  lemma CallFacts(c: seq<Call>)
    ensures Up(c) ==> Up(c + [GetFrame]) && Down(c + [PauseTracker]) && WholeRun(c + [Close])
    ensures Down(c) ==> Up(c + [ResumeTracker])
    ensures c == [] ==> c + [Init] == [Init] && Up([Init])
  {
    assert [Init][1..] == [];
    hide Up, Down, WholeRun, Balanced;
    InitUp();
    if Up(c) {
      BalancedFrame(c);
      PausedDown(c);
      ClosedWhole(c);
    }
    if Down(c) {
      ResumedUp(c);
    }
  }

  lemma InitUp()
    ensures Up([Init])
  {
  }

  lemma StepAnnounces(s: State, step: Step)
    requires Consistent(s) && Enabled(s, step)
    requires BeforeFirstRequest(s) || Announced(s)
    ensures BeforeFirstRequest(Apply(s, step)) || Announced(Apply(s, step))
  {
    hide Up, Down, WholeRun;
  }

  lemma StepKeeps(s: State, step: Step)
    requires Invariant(s) && Enabled(s, step)
    ensures Invariant(Apply(s, step))
  {
    StepConsistent(s, step);
    StepAnnounces(s, step);
    hide Consistent, BeforeFirstRequest, Announced;
  }

  lemma {:induction false} RunKeeps(r: seq<State>, i: nat)
    requires IsRun(r) && i < |r|
    ensures Invariant(r[i])
  {
    if i > 0 {
      RunKeeps(r, i - 1);
      assert Moves(r[i - 1], r[i - 1 + 1]);
      var step :| Enabled(r[i - 1], step) && r[i] == Apply(r[i - 1], step);
      StepKeeps(r[i - 1], step);
    }
  }

  /** No wake-up is lost: a run or shutdown request pending during a pause has its flag set, and then the thread is
      not asleep, or a client is about to set it. */
  lemma NoLostWakeUp(r: seq<State>, i: nat)
    requires IsRun(r) && i < |r|
    requires r[i].device == Paused && r[i].request in {Run, Shutdown}
    ensures r[i].signalling > 0 || (r[i].changeFlag && r[i].place != Waiting(true))
  {
    RunKeeps(r, i);
  }

  /** The default case of the state switch is never reached. */
  lemma NoAssertion(r: seq<State>, i: nat)
    requires IsRun(r) && i < |r|
    ensures !r[i].place.AssertionHit?
    ensures r[i].place.AtSwitch? ==> r[i].device in {Running, Paused}
  {
    RunKeeps(r, i);
  }

  /** A run that ends has called init, then frames and whole pauses, then close. */
  lemma CallsOfRun(r: seq<State>, i: nat)
    requires IsRun(r) && i < |r|
    ensures r[i].place.Ended? ==> WholeRun(r[i].calls)
    ensures r[i].place.Failed? ==> r[i].calls == [Init]
  {
    RunKeeps(r, i);
  }

  // ---------- a request that is pending is announced, but may be overwritten ----------

  ghost predicate Leads(s: State, steps: seq<Step>, t: State)
    decreases |steps|
  {
    if |steps| == 0 then s == t else Enabled(s, steps[0]) && Leads(Apply(s, steps[0]), steps[1..], t)
  }

  /** The steps are possible, and no client changes the request. */
  ghost predicate Quiet(s: State, steps: seq<Step>)
    decreases |steps|
  {
    |steps| > 0 ==>
      && Enabled(s, steps[0]) && !steps[0].ChangeState?
      && Quiet(Apply(s, steps[0]), steps[1..])
  }

  /** The thread takes request r: it reads no other before it clears the request. */
  predicate Takes(s: State, step: Step, r: Request) {
    step.ClearRequest? && Enabled(s, step) && s.place.r == r
  }

  lemma TakenIsAsked(s: State, step: Step, r: Request)
    requires Takes(s, step, r)
    ensures Apply(s, step).place in {Asked(r), Taken(r)}
  {
  }

  /** Request r stays pending up to the step with which the thread takes it. */
  ghost predicate KeptUntilTaken(s: State, steps: seq<Step>, r: Request)
    requires Quiet(s, steps)
    decreases |steps|
  {
    && s.request == r
    && (|steps| > 0 && !Takes(s, steps[0], r) ==> KeptUntilTaken(Apply(s, steps[0]), steps[1..], r))
  }

  /** The thread has read a request other than r and not yet cleared it. */
  predicate OtherRead(s: State, r: Request) {
    (s.place.Reading? || s.place.ReadingPaused?) && s.place.r != r
  }

  /** A pending request is lost only by being cleared, and what is read from now on is that request. */
  lemma PendingStep(s: State, step: Step, r: Request)
    requires Enabled(s, step) && !step.ChangeState? && s.request == r && !OtherRead(s, r) && !Takes(s, step, r)
    ensures Apply(s, step).request == r && !OtherRead(Apply(s, step), r)
  {
  }

  lemma {:induction false} PendingKept(s: State, steps: seq<Step>, r: Request)
    requires Quiet(s, steps) && s.request == r && !OtherRead(s, r)
    ensures KeptUntilTaken(s, steps, r)
    decreases |steps|
  {
    if |steps| > 0 && !Takes(s, steps[0], r) {
      PendingStep(s, steps[0], r);
      PendingKept(Apply(s, steps[0]), steps[1..], r);
    }
  }

  /** Whatever happens next, request r is not lost. */
  ghost predicate NeverLost(s: State, r: Request) {
    forall steps :: Quiet(s, steps) ==> KeptUntilTaken(s, steps, r)
  }

  /** A request that a client sets is sure to reach the thread if and only if the thread has not just read, and not yet
      cleared, another one. */
  lemma RequestReachesThread(s: State, r: Request)
    requires r != Continue
    ensures NeverLost(Apply(s, ChangeState(r)), r) <==> !OtherRead(s, r)
  {
    var t := Apply(s, ChangeState(r));
    if OtherRead(s, r) {
      assert Quiet(Apply(t, ClearRequest), []);
      assert [ClearRequest][1..] == [];
      assert Quiet(t, [ClearRequest]) && !KeptUntilTaken(t, [ClearRequest], r);
    } else {
      forall steps | Quiet(t, steps) ensures KeptUntilTaken(t, steps, r) {
        PendingKept(t, steps, r);
      }
    }
  }

  /** A client that changed the request under the lock would never lose one. */
  lemma UnderLockNeverLost(s: State, r: Request)
    requires r != Continue && !LockHeld(s)
    ensures NeverLost(Apply(s, ChangeState(r)), r)
  {
    RequestReachesThread(s, r);
  }

  // ---------- what the thread does with a request it has taken ----------

  /** On the way from taking a request to the next look at the state, or out of the loop. */
  predicate Acting(p: Place) {
    p.Asked? || p.Taken? || p.Woken? || p.Pausing? || p.Resuming?
  }

  /** The tracker calls that are due on this way. */
  function Due(p: Place): seq<Call> {
    match p
    case Asked(r) => if r == Pause then [PauseTracker] else if r == Shutdown then [] else [GetFrame]
    case Pausing => [PauseTracker]
    case Taken(r) => if r == Run || r == Shutdown then [ResumeTracker] else []
    case Woken(r) => if r == Run || r == Shutdown then [ResumeTracker] else []
    case _ => []
  }

  predicate Stopping(p: Place) {
    p == Asked(Shutdown) || p == Taken(Shutdown) || p == Woken(Shutdown) || p == Leaving
  }

  lemma DueStep(s: State, step: Step)
    requires Acting(s.place) && Enabled(s, step)
    ensures var t := Apply(s, step);
      && t.calls + Due(t.place) == s.calls + Due(s.place)
      && (Acting(t.place) || t.place.AtSwitch? || t.place.Leaving?)
      && (Stopping(s.place) ==> Stopping(t.place))
      && (Stopping(t.place) && !Stopping(s.place) ==> t.place.Leaving? && t.device == FrameError)
  {
    assert s.calls + [] == s.calls;
  }

  /** The steps lead from s to t, and the thread is under way until then. */
  ghost predicate ActsUntil(s: State, steps: seq<Step>, t: State)
    decreases |steps|
  {
    if |steps| == 0 then s == t && !Acting(s.place)
    else Acting(s.place) && Enabled(s, steps[0]) && ActsUntil(Apply(s, steps[0]), steps[1..], t)
  }

  lemma {:induction false} ActsOut(s: State, steps: seq<Step>, t: State)
    requires ActsUntil(s, steps, t) && (Acting(s.place) || s.place.AtSwitch? || s.place.Leaving?)
    ensures t.place.AtSwitch? || t.place.Leaving?
    ensures t.calls == s.calls + Due(s.place)
    ensures Stopping(s.place) ==> t.place.Leaving?
    ensures t.place.Leaving? && !Stopping(s.place) ==> t.device == FrameError
    decreases |steps|
  {
    if |steps| == 0 {
      assert s.calls + [] == s.calls;
    } else {
      DueStep(s, steps[0]);
      var u := Apply(s, steps[0]);
      ActsOut(u, steps[1..], t);
      hide Apply, Enabled;
      if Stopping(u.place) && !Stopping(s.place) {
        assert |steps[1..]| == 0;
      }
    }
  }

  /** Whatever the clients do meanwhile, the request taken decides what the thread does: which tracker calls it makes
      before it looks at the state again, and that it leaves the loop exactly for a shutdown or a bad frame. */
  lemma TakenDecides(s: State, steps: seq<Step>, t: State)
    requires (s.place.Reading? || s.place.ReadingPaused?) && ActsUntil(Apply(s, ClearRequest), steps, t)
    ensures var r := s.place.r;
      && t.calls == s.calls + (if s.place.Reading? then Due(Asked(r)) else Due(Taken(r)))
      && (t.place.AtSwitch? || t.place.Leaving?)
      && (t.place.Leaving? <== r == Shutdown)
      && (t.place.Leaving? && r != Shutdown ==> t.device == FrameError)
  {
    hide ActsUntil;
    TakenIsAsked(s, ClearRequest, s.place.r);
    ActsOut(Apply(s, ClearRequest), steps, t);
  }

  // ---------- a run in which a shutdown is lost ----------

  lemma LeadsBack(s: State, step: Step, rest: seq<Step>, t: State)
    requires Enabled(s, step) && Leads(Apply(s, step), rest, t)
    ensures Leads(s, [step] + rest, t)
  {
    assert ([step] + rest)[1..] == rest;
  }

  lemma LeadsNowhere(s: State)
    ensures Leads(s, [], s)
  {
  }

  lemma {:induction false} LeadsOn(s: State, steps: seq<Step>, t: State, rest: seq<Step>, u: State)
    requires Leads(s, steps, t) && Leads(t, rest, u)
    ensures Leads(s, steps + rest, u)
    decreases |steps|
  {
    if |steps| == 0 {
      assert steps + rest == rest;
    } else {
      hide Apply;
      LeadsOn(Apply(s, steps[0]), steps[1..], t, rest, u);
      assert steps + rest == [steps[0]] + (steps[1..] + rest);
      LeadsBack(s, steps[0], steps[1..] + rest, u);
    }
  }

  /** Started with a pause pending, the thread comes to wait. */
  lemma PausedAtOnce() returns (s: State, steps: seq<Step>, t: State)
    ensures Starts(s) && Leads(s, steps, t) && |steps| == 6
    ensures t == State(Waiting(false), Paused, Continue, false, 0, [Init, PauseTracker])
  {
    hide Leads;
    s := State(AtStart, Initializing, Pause, false, 0, []);
    var s1 := Apply(s, Initialize(true));
    var s2 := Apply(s1, Look);
    var s3 := Apply(s2, ClearRequest);
    var s4 := Apply(s3, Act(false));
    var s5 := Apply(s4, PauseNow);
    t := Apply(s5, Look);
    LeadsNowhere(t);
    LeadsBack(s5, Look, [], t);
    LeadsBack(s4, PauseNow, [Look] + [], t);
    LeadsBack(s3, Act(false), [PauseNow] + ([Look] + []), t);
    var later := [Act(false)] + ([PauseNow] + ([Look] + []));
    LeadsBack(s2, ClearRequest, later, t);
    LeadsBack(s1, Look, [ClearRequest] + later, t);
    LeadsBack(s, Initialize(true), [Look] + ([ClearRequest] + later), t);
    steps := [Initialize(true)] + ([Look] + ([ClearRequest] + later));
  }

  /** Woken up, it reads the request to run. */
  lemma WakeUpRead(c: seq<Call>) returns (steps: seq<Step>, t: State)
    ensures Leads(State(Waiting(false), Paused, Continue, false, 0, c), steps, t)
    ensures t == State(ReadingPaused(Run), Paused, Run, true, 0, c)
  {
    hide Leads;
    var s := State(Waiting(false), Paused, Continue, false, 0, c);
    var s1 := Apply(s, ChangeState(Run));
    var s2 := Apply(s1, Signal);
    t := Apply(s2, CheckFlag);
    LeadsNowhere(t);
    LeadsBack(s2, CheckFlag, [], t);
    LeadsBack(s1, Signal, [CheckFlag] + [], t);
    LeadsBack(s, ChangeState(Run), [Signal] + ([CheckFlag] + []), t);
    steps := [ChangeState(Run)] + ([Signal] + ([CheckFlag] + []));
  }

  /** A shutdown asked for while the thread has read the wake-up but not cleared it is wiped out, and the thread goes on
      running with nothing pending. */
  lemma ReadThenOverwritten(c: seq<Call>) returns (steps: seq<Step>, t: State)
    ensures Leads(State(ReadingPaused(Run), Paused, Run, true, 0, c), steps, t) && ChangeState(Shutdown) in steps
    ensures t == State(AtSwitch, Running, Continue, true, 0, c + [ResumeTracker])
  {
    hide Leads;
    var s := State(ReadingPaused(Run), Paused, Run, true, 0, c);
    var s1 := Apply(s, ChangeState(Shutdown));
    var s2 := Apply(s1, ClearRequest);
    var s3 := Apply(s2, ClearFlag);
    var s4 := Apply(s3, Signal);
    var s5 := Apply(s4, ActWoken);
    t := Apply(s5, SetRunning);
    LeadsNowhere(t);
    LeadsBack(s5, SetRunning, [], t);
    LeadsBack(s4, ActWoken, [SetRunning] + [], t);
    LeadsBack(s3, Signal, [ActWoken] + ([SetRunning] + []), t);
    var later := [Signal] + ([ActWoken] + ([SetRunning] + []));
    LeadsBack(s2, ClearFlag, later, t);
    LeadsBack(s1, ClearRequest, [ClearFlag] + later, t);
    LeadsBack(s, ChangeState(Shutdown), [ClearRequest] + ([ClearFlag] + later), t);
    steps := [ChangeState(Shutdown)] + ([ClearRequest] + ([ClearFlag] + later));
    assert steps[0] == ChangeState(Shutdown);
  }

  /** Reading the request and clearing it are not one step, so a run from the start can lose a shutdown. */
  lemma ShutdownCanBeLost() returns (s: State, steps: seq<Step>, t: State)
    ensures Starts(s) && Leads(s, steps, t) && ChangeState(Shutdown) in steps
    ensures t.place == AtSwitch && t.device == Running && t.request == Continue && t.signalling == 0
  {
    hide Leads, Apply;
    var first, second, third, waiting, reading;
    s, first, waiting := PausedAtOnce();
    second, reading := WakeUpRead(waiting.calls);
    third, t := ReadThenOverwritten(waiting.calls);
    LeadsOn(waiting, second, reading, third, t);
    LeadsOn(s, first, waiting, second + third, t);
    steps := first + (second + third);
  }
}
