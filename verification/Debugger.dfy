/**
 * What the debugger does to the state of one virtual machine and to the registry when Lua calls its hook, and what the
 * commands of the front end do. The call stack belongs to Lua and is a parameter: index 0 is the running function.
 */
module Debugger {
  import opened Scripts

  datatype HookMode = HookNone | CallsOnly | CallsAndReturns | Full

  datatype Mode = Continue | StepOver | StepInto | StepOut

  /** A C function has `linedefined` -1; the main chunk of a script has both lines 0. */
  datatype Frame = Frame(source: string, linedefined: int, lastlinedefined: int)

  /** The fields of a virtual machine that the hook reads and writes, and the hook Lua has installed for it. */
  datatype Vm = Vm(mode: Mode, callCount: nat, breakpointInStack: bool, haveActiveBreakpoints: bool, hook: HookMode)

  // ----- events

  const HOOK_CALL: int := 0
  const HOOK_RET: int := 1
  const HOOK_LINE: int := 2
  const HOOK_TAIL: int := 4

  /** The codes of the tail events of a Lua version; -1 if it has none. */
  datatype Api = Api(tailCall: int, tailRet: int)

  predicate KnownApi(api: Api)
  {
    api == Api(-1, -1) || api == Api(HOOK_TAIL, -1) || api == Api(-1, HOOK_TAIL)
  }

  predicate IsHookEventCall(api: Api, event: int) { event == HOOK_CALL || event == api.tailCall }

  predicate IsHookEventRet(api: Api, event: int) { event == HOOK_RET || event == api.tailRet }

  /** Lua delivers an event if the installed hook's mask asks for it; tail events come with the plain ones. */
  predicate Delivered(api: Api, hook: HookMode, event: int)
  {
    || (IsHookEventCall(api, event) && hook != HookNone)
    || (IsHookEventRet(api, event) && (hook == CallsAndReturns || hook == Full))
    || (event == HOOK_LINE && hook == Full)
  }

  // ----- breakpoints and functions

  predicate InRange(lines: seq<nat>, start: int, end: int)
  {
    exists i :: 0 <= i < |lines| && start <= lines[i] < end
  }

  predicate IsMainChunk(f: Frame) { f.linedefined == 0 && f.lastlinedefined == 0 }

  predicate IsLua(f: Frame) { f.linedefined != -1 }

  /** The code's test for a function that has a breakpoint in it. */
  predicate HasBreakpoint(reg: Registry, f: Frame)
  {
    && f.source in reg.names && reg.names[f.source] < |reg.scripts|
    && var lines := reg.scripts[reg.names[f.source]].breakpoints;
       InRange(lines, f.linedefined, f.lastlinedefined) || (lines != [] && IsMainChunk(f))
  }

  /** `StackHasBreakpoint`: scripts not seen before are registered up to the first function with a breakpoint. */
  function ScanStack(reg: Registry, stack: seq<Frame>): (Registry, bool)
    decreases |stack|
  {
    if stack == [] then (reg, false)
    else if !IsLua(stack[0]) then ScanStack(reg, stack[1..])
    else
      var reg' := RegisterSeen(reg, stack[0].source);
      if HasBreakpoint(reg', stack[0]) then (reg', true) else ScanStack(reg', stack[1..])
  }

  // ----- the hook

  datatype Outcome = Outcome(reg: Registry, vm: Vm)

  /** The function called is looked at, and then the rest of the stack if the machine's flag asks for it. */
  function ChooseMode(api: Api, reg: Registry, vm: Vm, event: int, stack: seq<Frame>): (Outcome, HookMode)
    requires stack != []
  {
    var called := IsHookEventCall(api, event) && IsLua(stack[0]);
    var reg1 := if called then RegisterSeen(reg, stack[0].source) else reg;
    if called && HasBreakpoint(reg1, stack[0]) then (Outcome(reg1, vm.(breakpointInStack := true)), Full)
    else if vm.breakpointInStack then
      var (reg2, found) := ScanStack(reg1, stack);
      (Outcome(reg2, vm.(breakpointInStack := found)), if found then Full else CallsOnly)
    else (Outcome(reg1, vm), CallsOnly)
  }

  /** Chooses the cheapest hook that will do, on call and return events. */
  function UpdateHookMode(api: Api, reg: Registry, vm: Vm, event: int, stack: seq<Frame>): Outcome
    requires stack != []
  {
    if event == HOOK_LINE then Outcome(reg, vm)
    else
      var (o, chosen) := ChooseMode(api, reg, vm, event, stack);
      var mode := if o.vm.haveActiveBreakpoints then chosen else CallsAndReturns;
      if o.vm.hook == mode then o
      else Outcome(o.reg, o.vm.(hook := if o.vm.mode != Continue then Full else mode))
  }

  /** The part of the callback common to all events. */
  function BeforeEvent(api: Api, reg: Registry, vm: Vm, event: int, stack: seq<Frame>): Outcome
    requires stack != []
  {
    if vm.mode == Continue then UpdateHookMode(api, reg, vm, event, stack)
    else Outcome(reg, vm.(hook := Full, breakpointInStack := true))
  }

  /** A line is stopped at for its breakpoint. */
  predicate AtBreakpoint(reg: Registry, source: string, currentLine: int)
  {
    && source in reg.names && reg.names[source] < |reg.scripts|
    && currentLine >= 1 && currentLine - 1 in reg.scripts[reg.names[source]].breakpoints
  }

  /** A line is stopped at because of stepping. */
  predicate AtStep(vm: Vm)
  {
    vm.mode == StepInto || ((vm.mode == StepOver || vm.mode == StepOut) && vm.callCount == 0)
  }

  function CountCalls(api: Api, vm: Vm, event: int): Vm
  {
    if vm.mode != StepOver && vm.mode != StepOut then vm
    else if IsHookEventRet(api, event) then (if vm.callCount > 0 then vm.(callCount := vm.callCount - 1) else vm)
    else if IsHookEventCall(api, event) then vm.(callCount := vm.callCount + 1)
    else vm
  }

  /** The hook callback: the state afterwards, and whether it stops the script. */
  function HookCallback(api: Api, reg: Registry, vm: Vm, event: int, stack: seq<Frame>, line: int): (Outcome, bool)
    requires stack != []
  {
    var o := BeforeEvent(api, reg, vm, event, stack);
    if event == HOOK_LINE then
      var reg' := RegisterSeen(o.reg, stack[0].source);
      (Outcome(reg', o.vm), AtBreakpoint(reg', stack[0].source, line) || AtStep(o.vm))
    else (Outcome(o.reg, CountCalls(api, o.vm, event)), false)
  }

  // ----- commands

  datatype Command = DoContinue | DoStepOver | DoStepInto | DoStepOut | DoBreak

  function RunCommand(vm: Vm, c: Command): Vm
  {
    match c
    case DoContinue => vm.(callCount := 0, mode := Continue)
    case DoStepOver => vm.(callCount := 0, mode := StepOver, hook := Full)
    case DoStepInto => vm.(callCount := 0, mode := StepInto, hook := Full)
    case DoStepOut => vm.(callCount := 1, mode := StepOut, hook := Full)
    case DoBreak => vm.(mode := StepInto, hook := Full)
  }

  /** A machine just attached takes over the breakpoint flag of those there already. */
  function NewVm(active: bool): Vm
  {
    Vm(Continue, 0, true, active, Full)
  }

  /** `SetHaveActiveBreakpoints` on one machine. */
  function SetActive(vm: Vm, active: bool): Vm
  {
    var vm' := vm.(haveActiveBreakpoints := active, breakpointInStack := active);
    if active then vm'.(hook := Full) else vm'
  }
}
