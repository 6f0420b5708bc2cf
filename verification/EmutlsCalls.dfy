/** Which call each block was given for (plugin-libc/libgcc/emutls.c: `__emutls_get_address`), told by the schedule:
    what the threads asked for, and in which order they got it. */
module EmutlsCalls {
  import opened Bytes
  import opened Emutls

  /** What `t` got back, in order. */
  function Events(trace: seq<Event>, t: nat): seq<Event> {
    if trace == [] then []
    else
      var e := trace[|trace| - 1];
      Events(trace[..|trace| - 1], t) + if e.thread == t then [e] else []
  }

  function Got(schedule: seq<(nat, Action)>, t: nat): seq<Event> {
    Events(Run(INITIAL, schedule).trace, t)
  }

  /** The objects `t` called for, each time it was outside a call. */
  function Calls(schedule: seq<(nat, Action)>, t: nat): seq<nat>
    decreases |schedule|, 0
  {
    if schedule == [] then []
    else
      var front, last := schedule[..|schedule| - 1], schedule[|schedule| - 1];
      Calls(front, t) + if last.0 == t && last.1.Call? && Outside(front, t) then [last.1.obj] else []
  }

  /** Every call of `t` came back, it has not exited, and nothing was aborted. */
  predicate Outside(schedule: seq<(nat, Action)>, t: nat)
    decreases |schedule|, 1
  {
    |Calls(schedule, t)| == |Got(schedule, t)| && !Left(schedule, t) && !Run(INITIAL, schedule).aborted
  }

  /** Thread `t` exited. */
  predicate Left(schedule: seq<(nat, Action)>, t: nat)
    decreases |schedule|, 0
  {
    if schedule == [] then false
    else
      var front, last := schedule[..|schedule| - 1], schedule[|schedule| - 1];
      Left(front, t) || (last.0 == t && last.1.Exit? && Outside(front, t))
  }

  function Objects(events: seq<Event>): (r: seq<nat>)
    ensures |r| == |events|
  {
    seq(|events|, i requires 0 <= i < |events| => events[i].obj)
  }

  /** The object of the call `t` is in. */
  function UnderWay(pc: Pc): seq<nat> {
    if pc.Idle? || pc.Exited? then [] else [pc.obj]
  }

  ghost predicate Matches(schedule: seq<(nat, Action)>, s: State, t: nat) {
    && Calls(schedule, t) == Objects(Events(s.trace, t)) + UnderWay(At(s, t))
    && (Left(schedule, t) <==> At(s, t).Exited?)
  }

  lemma EventsGrow(trace: seq<Event>, e: Event, t: nat)
    ensures Events(trace + [e], t) == Events(trace, t) + if e.thread == t then [e] else []
  {
    assert (trace + [e])[..|trace|] == trace;
  }

  lemma ObjectsGrow(events: seq<Event>, e: Event)
    ensures Objects(events + [e]) == Objects(events) + [e.obj]
  {
  }

  /** A step leaves the other threads where they are. */
  lemma OthersStay(s: State, u: nat, a: Action, t: nat)
    requires u != t
    ensures At(Next(s, u, a), t) == At(s, t)
  {
    hide StartStep, LockedStep, PrepareStep, LookStep, FillStep, ExitStep;
    StartOthers(s, u, t);
    LockedOthers(s, u, t);
    ExitOthers(s, u, t);
    var pc := At(s, u);
    if a.Step? && (pc.Prepare? || pc.Look? || pc.Fill?) {
      MemoryOthers(s, u, a.junk, t);
    }
  }

  lemma StartOthers(s: State, u: nat, t: nat)
    requires u != t
    ensures At(StartStep(s, u), t) == At(s, t)
  {
    hide Offset;
  }

  lemma LockedOthers(s: State, u: nat, t: nat)
    requires u != t
    ensures At(LockedStep(s, u), t) == At(s, t)
  {
    hide Offset;
  }

  lemma ExitOthers(s: State, u: nat, t: nat)
    requires u != t
    ensures At(ExitStep(s, u), t) == At(s, t)
  {
    hide Destroy;
  }

  lemma MemoryOthers(s: State, u: nat, junk: Ptr, t: nat)
    requires u != t && (At(s, u).Prepare? || At(s, u).Look? || At(s, u).Fill?)
    ensures At(Next(s, u, Step(junk)), t) == At(s, t)
  {
    hide MakeRoom, InTable;
  }

  /** Only the end of a call adds to the trace. */
  lemma TraceAdds(s: State, u: nat, a: Action)
    ensures var s', pc := Next(s, u, a), At(s, u);
      if a.Step? && pc.Finish? && !s.aborted && !s.fault then
        s'.trace == s.trace + [Returned(u, pc.obj, pc.ptr)] && At(s', u).Idle?
      else s'.trace == s.trace
  {
    hide MakeRoom, Destroy, InTable;
  }

  /** Inside a call a thread stays inside it, for the same object. */
  lemma StartStays(s: State, t: nat)
    ensures UnderWay(At(StartStep(s, t), t)) == UnderWay(At(s, t))
    ensures At(StartStep(s, t), t).Exited? <==> At(s, t).Exited?
  {
    hide Offset;
  }

  lemma LockedStays(s: State, t: nat)
    ensures UnderWay(At(LockedStep(s, t), t)) == UnderWay(At(s, t))
    ensures At(LockedStep(s, t), t).Exited? <==> At(s, t).Exited?
  {
    hide Offset;
  }

  lemma MemoryStays(s: State, t: nat, junk: Ptr)
    requires var pc := At(s, t);
      pc.Prepare? || pc.Look? || pc.Fill?
    ensures var pc' := At(Next(s, t, Step(junk)), t);
      UnderWay(pc') == [At(s, t).obj] && !pc'.Exited?
  {
    hide MakeRoom, InTable;
  }

  lemma InsideStays(s: State, t: nat, a: Action)
    requires !At(s, t).Idle? && !(a.Step? && At(s, t).Finish? && !s.aborted && !s.fault)
    ensures var pc, pc' := At(s, t), At(Next(s, t, a), t);
      UnderWay(pc') == UnderWay(pc) && (pc'.Exited? <==> pc.Exited?)
  {
    hide PrepareStep, LookStep, FillStep, StartStep, LockedStep, ExitStep;
    StartStays(s, t);
    LockedStays(s, t);
    var pc := At(s, t);
    if a.Step? && (pc.Prepare? || pc.Look? || pc.Fill?) {
      MemoryStays(s, t, a.junk);
    }
  }

  /** Outside a call a thread starts one, or exits. */
  lemma IdleMoves(s: State, t: nat, a: Action)
    requires Inv(s) && At(s, t).Idle? && !s.aborted
    ensures var pc' := At(Next(s, t, a), t);
      UnderWay(pc') == (if a.Call? then [a.obj] else []) && (pc'.Exited? <==> a.Exit?)
  {
    hide ControlOk, PcsOk, TablesOk, BlocksOk, TraceOk, Destroy, ExitStep;
    NextKeeps(s, t, a);
    if a.Exit? {
      ExitLeaves(s, t);
    }
  }

  lemma ExitLeaves(s: State, t: nat)
    ensures ExitStep(s, t).fault || At(ExitStep(s, t), t).Exited?
  {
    hide Destroy;
  }

  /** A thread is outside a call where the machine has it idle. */
  lemma OutsideIsIdle(schedule: seq<(nat, Action)>, s: State, t: nat)
    requires s == Run(INITIAL, schedule) && Matches(schedule, s, t)
    ensures Outside(schedule, t) <==> At(s, t).Idle? && !s.aborted
  {
    hide Run, Events, Calls, Left;
  }

  lemma OneMoreStep(schedule: seq<(nat, Action)>, u: nat, a: Action, t: nat)
    ensures var all := schedule + [(u, a)];
      && Calls(all, t) == Calls(schedule, t) + (if u == t && a.Call? && Outside(schedule, t) then [a.obj] else [])
      && (Left(all, t) <==> Left(schedule, t) || (u == t && a.Exit? && Outside(schedule, t)))
  {
    var all := schedule + [(u, a)];
    assert all[..|schedule|] == schedule && all[|schedule|] == (u, a);
    hide Outside;
  }

  /** Every step keeps the account. */
  lemma StepMatches(schedule: seq<(nat, Action)>, s: State, u: nat, a: Action, t: nat)
    requires s == Run(INITIAL, schedule) && Inv(s) && Matches(schedule, s, t)
    ensures Matches(schedule + [(u, a)], Next(s, u, a), t)
  {
    hide Run, ControlOk, PcsOk, TablesOk, BlocksOk, TraceOk, Next, Events, Calls, Left, Outside;
    OutsideIsIdle(schedule, s, t);
    OneMoreStep(schedule, u, a, t);
    TraceAdds(s, u, a);
    var pc := At(s, u);
    if u != t {
      OthersStay(s, u, a, t);
    } else if s.aborted {
      Halted(s, u, a);
    } else if pc.Idle? {
      IdleMoves(s, t, a);
    } else if !(a.Step? && pc.Finish?) {
      InsideStays(s, t, a);
    }
    if a.Step? && pc.Finish? && !s.aborted && !s.fault {
      var e := Returned(u, pc.obj, pc.ptr);
      EventsGrow(s.trace, e, t);
      ObjectsGrow(Events(s.trace, t), e);
    }
  }

  lemma Halted(s: State, u: nat, a: Action)
    requires s.aborted
    ensures Next(s, u, a) == s
  {
  }

  /** Under every schedule, what a thread got back is what it called for, in order, but for a call it is still in. */
  lemma {:induction false} CallsMatch(schedule: seq<(nat, Action)>, t: nat)
    ensures Inv(Run(INITIAL, schedule)) && Matches(schedule, Run(INITIAL, schedule), t)
  {
    hide Inv, Next, Matches, Calls, Left, Outside;
    RunKeeps(INITIAL, schedule);
    if schedule == [] {
      NoCalls(t);
    } else {
      var front, last := schedule[..|schedule| - 1], schedule[|schedule| - 1];
      CallsMatch(front, t);
      StepMatches(front, Run(INITIAL, front), last.0, last.1, t);
      assert front + [(last.0, last.1)] == schedule;
    }
  }

  lemma NoCalls(t: nat)
    ensures Matches([], INITIAL, t)
  {
  }

  /** The same without the threads' states: all calls came back but perhaps the last one, each for the object it was
      made for. */
  lemma CallsReturn(schedule: seq<(nat, Action)>, t: nat)
    ensures var calls, events := Calls(schedule, t), Got(schedule, t);
      && |events| <= |calls| <= |events| + 1
      && forall i | 0 <= i < |events| :: events[i].thread == t && events[i].obj == calls[i]
  {
    CallsMatch(schedule, t);
    EventsOf(Run(INITIAL, schedule).trace, t);
    hide Inv, Run, Events;
  }

  lemma {:induction false} EventsOf(trace: seq<Event>, t: nat)
    ensures forall e <- Events(trace, t) :: e in trace && e.thread == t
  {
    if trace != [] {
      EventsOf(trace[..|trace| - 1], t);
    }
  }

  /** Call `i` of thread `t` and call `j` of thread `u` that came back gave the same block exactly when the thread is
      the same and so is the object called for, whatever the schedule. */
  lemma SameBlock(schedule: seq<(nat, Action)>, t: nat, i: nat, u: nat, j: nat)
    requires i < |Got(schedule, t)| && j < |Got(schedule, u)|
    ensures i < |Calls(schedule, t)| && j < |Calls(schedule, u)|
    ensures Got(schedule, t)[i].ptr.Block?
    ensures Got(schedule, t)[i].ptr == Got(schedule, u)[j].ptr <==> t == u && Calls(schedule, t)[i] == Calls(schedule, u)[j]
  {
    CallsReturn(schedule, t);
    CallsReturn(schedule, u);
    EventsOf(Run(INITIAL, schedule).trace, t);
    EventsOf(Run(INITIAL, schedule).trace, u);
    hide Run, Events, Calls;
    SameOwner(schedule, Got(schedule, t)[i], Got(schedule, u)[j]);
  }
}
