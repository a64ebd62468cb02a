/**
 * Where stepping stops. The debugger keeps one counter that never goes below zero; here is what it amounts to: stepping
 * over stops in functions that were running when the command was given, stepping out in those except the innermost.
 */
module Stepping {
  import opened Scripts
  import opened Debugger
  import opened Hooking

  /** An event with the call stack Lua shows to the hook. */
  datatype RawEvent = Event(code: int, stack: seq<Frame>, line: int)

  type Event = e: RawEvent | e.code >= 0 && e.stack != []
    witness Event(0, [TAIL_FRAME], 0)

  /** The events since a command, one after the other. */
  ghost function DeliverAll(api: Api, reg: Registry, vm: Vm, events: seq<Event>): Outcome
  {
    if events == [] then Outcome(reg, vm)
    else
      var o := DeliverAll(api, reg, vm, events[..|events| - 1]);
      var e := events[|events| - 1];
      Deliver(api, o.reg, o.vm, e.code, e.stack, e.line).0
  }

  ghost predicate StopsAfter(api: Api, reg: Registry, vm: Vm, events: seq<Event>, e: Event)
  {
    var o := DeliverAll(api, reg, vm, events);
    Deliver(api, o.reg, o.vm, e.code, e.stack, e.line).1
  }

  ghost predicate BreakpointAfter(api: Api, reg: Registry, vm: Vm, events: seq<Event>, e: Event)
  {
    Listed(DeliverAll(api, reg, vm, events).reg, e)
  }

  /** The script of the running function lists the line, which it counts from zero. */
  predicate Listed(reg: Registry, e: Event)
  {
    var seen, name := RegisterSeen(reg, e.stack[0].source), e.stack[0].source;
    && name in seen.names && seen.names[name] < |seen.scripts| && e.line >= 1
    && e.line - 1 in seen.scripts[seen.names[name]].breakpoints
  }

  /** At a line: breakpoints count in every mode, the counter in two. */
  lemma LineStops(api: Api, reg: Registry, vm: Vm, e: Event)
    requires KnownApi(api) && e.code == HOOK_LINE
    ensures Deliver(api, reg, vm, e.code, e.stack, e.line).1
       <==> vm.hook == Full && (Listed(reg, e) || vm.mode == StepInto || (vm.mode != Continue && vm.callCount == 0))
  {
    hide RegisterSeen;
  }

  // ----- calls and returns

  function Change(api: Api, e: Event): int
  {
    (if e.code == HOOK_CALL || e.code == api.tailCall then 1 else 0)
    - (if e.code == HOOK_RET || e.code == api.tailRet then 1 else 0)
  }

  /** Calls less returns. */
  function Depth(api: Api, events: seq<Event>): int
  {
    if events == [] then 0 else Depth(api, events[..|events| - 1]) + Change(api, events[|events| - 1])
  }

  /** The smallest depth so far; the start counts. */
  function Lowest(api: Api, events: seq<Event>): (m: int)
    ensures m <= 0 && m <= Depth(api, events)
  {
    if events == [] then 0
    else
      var before := Lowest(api, events[..|events| - 1]);
      if Depth(api, events) < before then Depth(api, events) else before
  }

  // ----- the counter

  ghost predicate Counting(vm: Vm, mode: Mode, c0: nat, depth: int, lowest: int)
  {
    && vm.mode == mode && vm.hook == Full
    && vm.callCount == c0 + depth + (if c0 + lowest < 0 then -(c0 + lowest) else 0)
  }

  lemma EventCounts(api: Api, reg: Registry, vm: Vm, e: Event, mode: Mode, c0: nat, depth: int, lowest: int)
    requires KnownApi(api) && (mode == StepOver || mode == StepOut) && lowest <= depth
    requires Counting(vm, mode, c0, depth, lowest)
    ensures var depth' := depth + Change(api, e);
      var o := Deliver(api, reg, vm, e.code, e.stack, e.line).0;
      Counting(o.vm, mode, c0, depth', if depth' < lowest then depth' else lowest)
  {
    hide RegisterSeen, ChooseMode, AtBreakpoint;
  }

  /**
   * The law of the counter: after any events since a step command it is its first value plus the depth plus however far
   * it would have gone below zero. The full hook stays installed.
   */
  lemma {:induction false} CounterLaw(api: Api, reg: Registry, vm: Vm, c: Command, events: seq<Event>)
    requires KnownApi(api) && (c == DoStepOver || c == DoStepOut)
    ensures var vm' := RunCommand(vm, c);
      Counting(DeliverAll(api, reg, vm', events).vm, vm'.mode, if c == DoStepOut then 1 else 0,
               Depth(api, events), Lowest(api, events))
  {
    if events != [] {
      var before, e := events[..|events| - 1], events[|events| - 1];
      CounterLaw(api, reg, vm, c, before);
      var o := DeliverAll(api, reg, RunCommand(vm, c), before);
      var mode, c0 := RunCommand(vm, c).mode, if c == DoStepOut then 1 else 0;
      hide Counting, Deliver, Change;
      EventCounts(api, o.reg, o.vm, e, mode, c0, Depth(api, before), Lowest(api, before));
    }
  }

  /** At a line, breakpoints aside, stepping stops exactly at a depth never gone below, stepping out below the start. */
  lemma StopsIffLowest(api: Api, reg: Registry, vm: Vm, c: Command, events: seq<Event>, e: Event)
    requires KnownApi(api) && (c == DoStepOver || c == DoStepOut) && e.code == HOOK_LINE
    ensures var vm' := RunCommand(vm, c); var d := Depth(api, events);
      StopsAfter(api, reg, vm', events, e)
      <==> (BreakpointAfter(api, reg, vm', events, e) || (d == Lowest(api, events) && (c == DoStepOut ==> d < 0)))
  {
    CounterLaw(api, reg, vm, c, events);
    var o := DeliverAll(api, reg, RunCommand(vm, c), events);
    LineStops(api, o.reg, o.vm, e);
    hide DeliverAll, Deliver, Listed, Depth, Lowest;
  }

  // ----- what it means for the functions running

  const CALLED_SINCE: int := -1

  function Moved(before: seq<int>, change: int): seq<int>
  {
    if change > 0 then [CALLED_SINCE] + before
    else if change < 0 && before != [] then before[1..]
    else before
  }

  /**
   * The functions running, innermost first. One that was already running when counting began is known by its place
   * then, 0 for the innermost.
   */
  function Running(api: Api, height: nat, events: seq<Event>): seq<int>
  {
    if events == [] then seq(height, i => i)
    else Moved(Running(api, height, events[..|events| - 1]), Change(api, events[|events| - 1]))
  }

  /** No more functions return than have been entered. */
  ghost predicate Nested(api: Api, height: nat, events: seq<Event>)
  {
    0 <= height + Lowest(api, events)
  }

  function Remaining(height: nat, lowest: int, depth: int): seq<int>
    requires 0 <= height + lowest && lowest <= 0 && lowest <= depth
  {
    seq(depth - lowest, _ => CALLED_SINCE) + seq(height + lowest, i => i - lowest)
  }

  lemma {:induction false} RunningShape(api: Api, height: nat, events: seq<Event>)
    requires Nested(api, height, events)
    ensures Running(api, height, events) == Remaining(height, Lowest(api, events), Depth(api, events))
  {
    if events != [] {
      var before := events[..|events| - 1];
      RunningShape(api, height, before);
      hide Moved, Remaining;
      ShapeStep(height, Lowest(api, before), Depth(api, before), Change(api, events[|events| - 1]));
    }
  }

  lemma ShapeStep(height: nat, lowest: int, depth: int, change: int)
    requires 0 <= height + lowest && lowest <= 0 && lowest <= depth && -1 <= change <= 1
    requires 0 <= height + depth + change
    ensures var depth' := depth + change;
      Moved(Remaining(height, lowest, depth), change)
      == Remaining(height, if depth' < lowest then depth' else lowest, depth')
  {
    var depth' := depth + change;
    var after := Remaining(height, if depth' < lowest then depth' else lowest, depth');
    var moved := Moved(Remaining(height, lowest, depth), change);
    if change > 0 {
      assert moved == after;
    } else if change == 0 {
      assert moved == after;
    } else {
      assert moved == after;
    }
  }

  /**
   * Stepping over a line stops, breakpoints aside, exactly in the functions that were running when it began, and
   * stepping out exactly in the callers of the innermost of them.
   */
  lemma StopsIffWasRunning(api: Api, reg: Registry, vm: Vm, c: Command, height: nat, events: seq<Event>, e: Event)
    requires KnownApi(api) && (c == DoStepOver || c == DoStepOut) && e.code == HOOK_LINE
    requires Nested(api, height, events) && Running(api, height, events) != []
    ensures var vm' := RunCommand(vm, c); var current := Running(api, height, events)[0];
      StopsAfter(api, reg, vm', events, e)
      <==> (BreakpointAfter(api, reg, vm', events, e)
            || (if c == DoStepOver then current != CALLED_SINCE else current > 0))
  {
    StopsIffLowest(api, reg, vm, c, events, e);
    RunningShape(api, height, events);
    hide StopsAfter, BreakpointAfter, Running, Depth, Lowest;
  }

  // ----- stepping into and going on

  lemma {:induction false} StaysInto(api: Api, reg: Registry, vm: Vm, events: seq<Event>)
    requires vm.mode == StepInto && vm.hook == Full
    ensures var vm' := DeliverAll(api, reg, vm, events).vm; vm'.mode == StepInto && vm'.hook == Full
  {
    if events != [] {
      StaysInto(api, reg, vm, events[..|events| - 1]);
      hide RegisterSeen, AtBreakpoint, AtStep, UpdateHookMode;
    }
  }

  /** After stepping in, or breaking, whatever happens meanwhile: the debugger stops at every line. */
  lemma StepIntoStopsAtOnce(api: Api, reg: Registry, vm: Vm, c: Command, events: seq<Event>, e: Event)
    requires KnownApi(api) && (c == DoStepInto || c == DoBreak) && e.code == HOOK_LINE
    ensures StopsAfter(api, reg, RunCommand(vm, c), events, e)
  {
    StaysInto(api, reg, RunCommand(vm, c), events);
    var o := DeliverAll(api, reg, RunCommand(vm, c), events);
    LineStops(api, o.reg, o.vm, e);
    hide DeliverAll, Deliver, Listed;
  }

  lemma {:induction false} StaysContinuing(api: Api, reg: Registry, vm: Vm, events: seq<Event>)
    requires vm.mode == Continue
    ensures DeliverAll(api, reg, vm, events).vm.mode == Continue
  {
    if events != [] {
      StaysContinuing(api, reg, vm, events[..|events| - 1]);
      hide RegisterSeen, AtBreakpoint, AtStep, ChooseMode;
      var o, e := DeliverAll(api, reg, vm, events[..|events| - 1]), events[|events| - 1];
      ModeKept(api, o.reg, o.vm, e.code, e.stack);
    }
  }

  lemma ModeKept(api: Api, reg: Registry, vm: Vm, event: int, stack: seq<Frame>)
    requires stack != []
    ensures var o := ChooseMode(api, reg, vm, event, stack).0; o.vm == vm.(breakpointInStack := o.vm.breakpointInStack)
  {
    hide RegisterSeen, ScanStack, HasBreakpoint;
  }

  /** After going on, the debugger stops at a line for a breakpoint there and for nothing else. */
  lemma ContinueStopsIff(api: Api, reg: Registry, vm: Vm, events: seq<Event>, e: Event)
    requires KnownApi(api) && e.code == HOOK_LINE
    ensures var vm' := RunCommand(vm, DoContinue);
      && (StopsAfter(api, reg, vm', events, e) <==>
          DeliverAll(api, reg, vm', events).vm.hook == Full && BreakpointAfter(api, reg, vm', events, e))
      && vm'.hook == vm.hook
  {
    StaysContinuing(api, reg, RunCommand(vm, DoContinue), events);
    var o := DeliverAll(api, reg, RunCommand(vm, DoContinue), events);
    LineStops(api, o.reg, o.vm, e);
    hide DeliverAll, Deliver, Listed;
  }
}
