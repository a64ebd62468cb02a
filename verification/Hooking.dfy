/**
 * Runs of the debugged program and the debugger together. Cheaper hooks are installed whenever the debugger thinks it
 * can do without line events; here no breakpoint that always-full hooking would stop at is lost by that.
 */
module Hooking {
  import opened Scripts
  import opened Debugger
  import opened CStrings
  import opened Options

  type Lua = nat

  /** The debugger's state, and the call stacks, which are Lua's. */
  datatype State = State(reg: Registry, vms: map<Lua, Vm>, stacks: map<Lua, seq<Frame>>)

  datatype Step =
    | Attach(l: Lua, stack: seq<Frame>)
    | Detach(l: Lua)
    | Call(l: Lua, f: Frame, event: int)
    | TailCall(l: Lua, f: Frame, event: int)
    | Return(l: Lua)
    | TailReturn(l: Lua)
    | Line(l: Lua, currentLine: int)
    | Run(l: Lua, c: Command)
    | ToggleAt(script: nat, line: nat)
    | DeleteBreakpoints
    | Load(source: string, name: Option<string>)

  /** What Lua reports about a tail call that has returned: no function of its own. */
  const TAIL_FRAME: Frame := Frame("=(tail call)", -1, -1)

  /** The steps that can happen in a state. Returns are matched with calls. */
  predicate Enabled(api: Api, s: State, step: Step)
  {
    match step
    case Attach(l, _) => l !in s.vms
    case Detach(_) => true
    case Call(l, _, event) => l in s.vms && l in s.stacks && IsHookEventCall(api, event)
    case TailCall(l, _, event) => l in s.vms && l in s.stacks && s.stacks[l] != [] && IsHookEventCall(api, event)
    case Return(l) => l in s.vms && l in s.stacks && s.stacks[l] != []
    case TailReturn(l) => l in s.vms && l in s.stacks && IsHookEventRet(api, HOOK_TAIL)
    case Line(l, _) => l in s.vms && l in s.stacks && s.stacks[l] != []
    case Run(l, _) => l in s.vms
    case ToggleAt(script, _) => script < |s.reg.scripts|
    case DeleteBreakpoints => true
    case Load(_, _) => true
  }

  /** An event with the stack as it is when Lua would call the hook. */
  function Deliver(api: Api, reg: Registry, vm: Vm, event: int, stack: seq<Frame>, line: int): (Outcome, bool)
    requires stack != []
  {
    if Delivered(api, vm.hook, event) then HookCallback(api, reg, vm, event, stack, line) else (Outcome(reg, vm), false)
  }

  function AfterEvent(api: Api, s: State, l: Lua, event: int, seen: seq<Frame>, left: seq<Frame>): State
    requires l in s.vms && seen != []
  {
    var o := Deliver(api, s.reg, s.vms[l], event, seen, 0).0;
    State(o.reg, s.vms[l := o.vm], s.stacks[l := left])
  }

  predicate SomeActive(vms: map<Lua, Vm>)
  {
    exists l :: l in vms && vms[l].haveActiveBreakpoints
  }

  function SetAllActive(vms: map<Lua, Vm>, active: bool): map<Lua, Vm>
  {
    map l | l in vms :: SetActive(vms[l], active)
  }

  function ClearActive(vms: map<Lua, Vm>): map<Lua, Vm>
  {
    map l | l in vms :: vms[l].(haveActiveBreakpoints := false)
  }

  /** Setting a breakpoint alerts every machine; removing the last one lowers their flags and nothing else. */
  function AfterToggle(reg: Registry, vms: map<Lua, Vm>, script: nat, line: nat): (Registry, map<Lua, Vm>)
    requires script < |reg.scripts|
  {
    var reg' := Toggle(reg, script, line);
    (reg',
     if line !in reg.scripts[script].breakpoints then SetAllActive(vms, true)
     else if AnyBreakpoint(reg') then vms
     else ClearActive(vms))
  }

  function Next(api: Api, s: State, step: Step): State
    requires Enabled(api, s, step)
  {
    match step
    case Attach(l, stack) => State(s.reg, s.vms[l := NewVm(SomeActive(s.vms))], s.stacks[l := stack])
    case Detach(l) => s.(vms := s.vms - {l})
    case Call(l, f, event) => AfterEvent(api, s, l, event, [f] + s.stacks[l], [f] + s.stacks[l])
    case TailCall(l, f, event) => AfterEvent(api, s, l, event, [f] + s.stacks[l][1..], [f] + s.stacks[l][1..])
    case Return(l) => AfterEvent(api, s, l, HOOK_RET, s.stacks[l], s.stacks[l][1..])
    case TailReturn(l) => AfterEvent(api, s, l, HOOK_TAIL, [TAIL_FRAME] + s.stacks[l], s.stacks[l])
    case Line(l, line) =>
      var o := Deliver(api, s.reg, s.vms[l], HOOK_LINE, s.stacks[l], line).0;
      State(o.reg, s.vms[l := o.vm], s.stacks)
    case Run(l, c) => s.(vms := s.vms[l := RunCommand(s.vms[l], c)])
    case ToggleAt(script, line) =>
      var (reg, vms) := AfterToggle(s.reg, s.vms, script, line);
      State(reg, vms, s.stacks)
    case DeleteBreakpoints => State(DeleteAll(s.reg), SetAllActive(s.vms, false), s.stacks)
    case Load(source, name) => s.(reg := Register(s.reg, source, name).reg)
  }

  // ----- the invariant

  /** Every function on the stack belongs to a known script and has no breakpoint. */
  ghost predicate Clean(reg: Registry, stack: seq<Frame>)
  {
    forall i :: 0 <= i < |stack| && IsLua(stack[i]) ==> stack[i].source in reg.names && !HasBreakpoint(reg, stack[i])
  }

  ghost predicate VmGood(reg: Registry, vm: Vm, stack: seq<Frame>)
  {
    && vm.hook != HookNone
    && (vm.mode != Continue ==> vm.hook == Full)
    && (vm.breakpointInStack && vm.haveActiveBreakpoints ==> vm.hook == Full)
    && (!vm.breakpointInStack && AnyBreakpoint(reg) ==> Clean(reg, stack))
  }

  ghost predicate Good(s: State)
  {
    && Ok(s.reg)
    && s.vms.Keys <= s.stacks.Keys
    && forall l :: l in s.vms ==> VmGood(s.reg, s.vms[l], s.stacks[l])
  }

  /** The machines' copies of "there is a breakpoint somewhere" are right. */
  ghost predicate FlagsRight(s: State)
  {
    forall l :: l in s.vms ==> (s.vms[l].haveActiveBreakpoints <==> AnyBreakpoint(s.reg))
  }

  // ----- registering more scripts harms no one

  lemma HasBreakpointStable(reg: Registry, reg': Registry, f: Frame)
    requires NamesOk(reg) && Extends(reg, reg') && f.source in reg.names
    ensures f.source in reg'.names && (HasBreakpoint(reg', f) <==> HasBreakpoint(reg, f))
  {
    var i := reg.names[f.source];
    assert reg'.scripts[i] == reg.scripts[i];
  }

  lemma CleanStable(reg: Registry, reg': Registry, stack: seq<Frame>)
    requires NamesOk(reg) && Extends(reg, reg') && Clean(reg, stack)
    ensures Clean(reg', stack)
  {
    hide HasBreakpoint, NamesOk, Extends;
    forall i | 0 <= i < |stack| && IsLua(stack[i])
      ensures stack[i].source in reg'.names && !HasBreakpoint(reg', stack[i])
    {
      HasBreakpointStable(reg, reg', stack[i]);
    }
  }

  lemma VmGoodStable(reg: Registry, reg': Registry, vm: Vm, stack: seq<Frame>)
    requires NamesOk(reg) && Extends(reg, reg')
    requires (AnyBreakpoint(reg') <==> AnyBreakpoint(reg)) && VmGood(reg, vm, stack)
    ensures VmGood(reg', vm, stack)
  {
    hide Clean, AnyBreakpoint, Extends;
    if !vm.breakpointInStack && AnyBreakpoint(reg) {
      CleanStable(reg, reg', stack);
    }
  }

  lemma ExtendsTransitive(a: Registry, b: Registry, c: Registry)
    requires Extends(a, b) && Extends(b, c)
    ensures Extends(a, c)
  {
    assert forall i :: 0 <= i < |a.scripts| ==> c.scripts[i] == b.scripts[i];
  }

  /** What the hook does to the registry: it only registers. */
  ghost predicate Grows(reg: Registry, reg': Registry)
  {
    Ok(reg') && Extends(reg, reg') && (AnyBreakpoint(reg') <==> AnyBreakpoint(reg)) && NewOnesBare(reg, reg')
  }

  /** Scripts that were not there before have no breakpoints. */
  ghost predicate NewOnesBare(reg: Registry, reg': Registry)
  {
    forall i :: |reg.scripts| <= i < |reg'.scripts| ==> reg'.scripts[i].breakpoints == []
  }

  lemma SeenGrows(reg: Registry, name: string)
    requires Ok(reg)
    ensures Grows(reg, RegisterSeen(reg, name)) && name in RegisterSeen(reg, name).names
  {
    SeenKeeps(reg, name);
    SeenAddsBare(reg, name);
    hide RegisterSeen, Ok, Extends, AnyBreakpoint;
  }

  lemma SeenAddsBare(reg: Registry, name: string)
    ensures NewOnesBare(reg, RegisterSeen(reg, name))
  {
    hide FileTitle;
  }

  lemma GrowsTransitive(a: Registry, b: Registry, c: Registry)
    requires Grows(a, b) && Grows(b, c)
    ensures Grows(a, c)
  {
    ExtendsTransitive(a, b, c);
    assert NewOnesBare(a, c) by {
      hide Ok, AnyBreakpoint;
    }
    hide Ok, Extends, AnyBreakpoint, NewOnesBare;
  }

  lemma GrowsItself(reg: Registry)
    requires Ok(reg)
    ensures Grows(reg, reg)
  {
  }

  // ----- scanning the stack

  /** A scan that finds nothing leaves every function known and without breakpoint. */
  lemma {:induction false} ScanCorrect(reg: Registry, stack: seq<Frame>)
    requires Ok(reg)
    ensures var (reg', found) := ScanStack(reg, stack); Grows(reg, reg') && (!found ==> Clean(reg', stack))
    decreases |stack|
  {
    if stack == [] {
      GrowsItself(reg);
    } else if !IsLua(stack[0]) {
      hide Ok, Grows;
      ScanCorrect(reg, stack[1..]);
      CleanCons(ScanStack(reg, stack).0, stack);
    } else {
      ScanStep(reg, stack);
    }
  }

  lemma CleanCons(reg: Registry, stack: seq<Frame>)
    requires stack != [] && (IsLua(stack[0]) ==> stack[0].source in reg.names && !HasBreakpoint(reg, stack[0]))
    ensures Clean(reg, stack) <==> Clean(reg, stack[1..])
  {
    hide HasBreakpoint;
    if Clean(reg, stack[1..]) {
      forall i | 0 <= i < |stack| && IsLua(stack[i])
        ensures stack[i].source in reg.names && !HasBreakpoint(reg, stack[i])
      {
        if i > 0 {
          assert stack[i] == stack[1..][i - 1];
        }
      }
    }
    if Clean(reg, stack) {
      assert forall i :: 0 <= i < |stack[1..]| ==> stack[1..][i] == stack[i + 1];
    }
  }

  lemma ScanStep(reg: Registry, stack: seq<Frame>)
    requires Ok(reg) && stack != [] && IsLua(stack[0])
    ensures var (reg', found) := ScanStack(reg, stack); Grows(reg, reg') && (!found ==> Clean(reg', stack))
    decreases |stack|, 0
  {
    var f := stack[0];
    var reg1 := RegisterSeen(reg, f.source);
    SeenGrows(reg, f.source);
    hide RegisterSeen, HasBreakpoint, Clean;
    if !HasBreakpoint(reg1, f) {
      ScanCorrect(reg1, stack[1..]);
      var reg2 := ScanStack(reg1, stack[1..]).0;
      HasBreakpointStable(reg1, reg2, f);
      GrowsTransitive(reg, reg1, reg2);
      CleanCons(reg2, stack);
    }
  }

  // ----- one event keeps a machine good

  /** What is known of a machine when the hook is called: all but the function just entered has been looked at. */
  ghost predicate VmReady(reg: Registry, vm: Vm, stack: seq<Frame>, entered: bool)
    requires stack != []
  {
    && vm.hook != HookNone
    && (vm.mode != Continue ==> vm.hook == Full)
    && (vm.breakpointInStack && vm.haveActiveBreakpoints ==> vm.hook == Full)
    && (!vm.breakpointInStack && AnyBreakpoint(reg) ==> Clean(reg, if entered then stack[1..] else stack))
  }

  lemma ChooseKeeps(api: Api, reg: Registry, vm: Vm, event: int, stack: seq<Frame>)
    requires stack != [] && Ok(reg) && VmReady(reg, vm, stack, IsHookEventCall(api, event))
    ensures var (o, chosen) := ChooseMode(api, reg, vm, event, stack);
      && Grows(reg, o.reg)
      && (o.vm.breakpointInStack ==> chosen == Full)
      && (!o.vm.breakpointInStack && AnyBreakpoint(o.reg) ==> Clean(o.reg, stack))
      && chosen != HookNone
      && o.vm == vm.(breakpointInStack := o.vm.breakpointInStack)
  {
    var f := stack[0];
    var called := IsHookEventCall(api, event) && IsLua(f);
    var reg1 := if called then RegisterSeen(reg, f.source) else reg;
    if called {
      SeenGrows(reg, f.source);
    } else {
      GrowsItself(reg);
    }
    if called && HasBreakpoint(reg1, f) {
      hide RegisterSeen, Clean, HasBreakpoint, Grows;
    } else if vm.breakpointInStack {
      hide RegisterSeen, Clean, HasBreakpoint, ScanStack;
      ScanCorrect(reg1, stack);
      GrowsTransitive(reg, reg1, ScanStack(reg1, stack).0);
    } else {
      ChooseClean(api, reg, reg1, vm, event, stack);
      hide RegisterSeen, Clean, HasBreakpoint;
    }
  }

  lemma ChooseClean(api: Api, reg: Registry, reg1: Registry, vm: Vm, event: int, stack: seq<Frame>)
    requires stack != [] && Ok(reg) && VmReady(reg, vm, stack, IsHookEventCall(api, event)) && !vm.breakpointInStack
    requires Grows(reg, reg1)
    requires IsHookEventCall(api, event) && IsLua(stack[0]) ==>
      stack[0].source in reg1.names && !HasBreakpoint(reg1, stack[0])
    ensures AnyBreakpoint(reg1) ==> Clean(reg1, stack)
  {
    hide Clean, HasBreakpoint, AnyBreakpoint, Extends;
    if AnyBreakpoint(reg1) {
      if IsHookEventCall(api, event) {
        CleanStable(reg, reg1, stack[1..]);
        CleanCons(reg1, stack);
      } else {
        CleanStable(reg, reg1, stack);
      }
    }
  }

  /** Whatever the event, the hook leaves the machine good for the stack it was shown. */
  lemma BeforeEventKeeps(api: Api, reg: Registry, vm: Vm, event: int, stack: seq<Frame>)
    requires stack != [] && Ok(reg) && event != HOOK_LINE && VmReady(reg, vm, stack, IsHookEventCall(api, event))
    ensures var o := BeforeEvent(api, reg, vm, event, stack); Grows(reg, o.reg) && VmGood(o.reg, o.vm, stack)
  {
    if vm.mode == Continue {
      ChooseKeeps(api, reg, vm, event, stack);
      hide ChooseMode, Clean, Grows, AnyBreakpoint;
    } else {
      GrowsItself(reg);
    }
  }

  lemma BeforeLineKeeps(api: Api, reg: Registry, vm: Vm, stack: seq<Frame>)
    requires stack != [] && Ok(reg) && VmGood(reg, vm, stack)
    ensures var o := BeforeEvent(api, reg, vm, HOOK_LINE, stack); o.reg == reg && VmGood(reg, o.vm, stack)
  {
  }

  lemma CountKeeps(api: Api, reg: Registry, vm: Vm, event: int, stack: seq<Frame>)
    requires VmGood(reg, vm, stack)
    ensures VmGood(reg, CountCalls(api, vm, event), stack)
  {
    hide Clean, AnyBreakpoint;
  }

  /** A call or return event. An event that is not delivered is a return the machine did not ask for. */
  lemma EventKeeps(api: Api, reg: Registry, vm: Vm, event: int, stack: seq<Frame>)
    requires stack != [] && Ok(reg) && event != HOOK_LINE && VmReady(reg, vm, stack, IsHookEventCall(api, event))
    ensures var o := Deliver(api, reg, vm, event, stack, 0).0; Grows(reg, o.reg) && VmGood(o.reg, o.vm, stack)
  {
    if Delivered(api, vm.hook, event) {
      BeforeEventKeeps(api, reg, vm, event, stack);
      var o := BeforeEvent(api, reg, vm, event, stack);
      CountKeeps(api, o.reg, o.vm, event, stack);
      hide BeforeEvent, CountCalls, VmGood, Grows;
    } else {
      GrowsItself(reg);
      hide Clean, AnyBreakpoint, Grows;
    }
  }

  lemma LineKeeps(api: Api, reg: Registry, vm: Vm, stack: seq<Frame>, line: int)
    requires stack != [] && Ok(reg) && VmGood(reg, vm, stack)
    ensures var o := Deliver(api, reg, vm, HOOK_LINE, stack, line).0; Grows(reg, o.reg) && VmGood(o.reg, o.vm, stack)
  {
    if Delivered(api, vm.hook, HOOK_LINE) {
      BeforeLineKeeps(api, reg, vm, stack);
      var o := BeforeEvent(api, reg, vm, HOOK_LINE, stack);
      SeenGrows(reg, stack[0].source);
      var reg' := RegisterSeen(reg, stack[0].source);
      VmGoodStable(reg, reg', o.vm, stack);
      hide BeforeEvent, VmGood, Grows, RegisterSeen;
    } else {
      GrowsItself(reg);
      hide Clean, AnyBreakpoint, Grows, VmGood;
    }
  }

  // ----- whole steps

  lemma StackTail(reg: Registry, vm: Vm, stack: seq<Frame>)
    requires stack != [] && VmGood(reg, vm, stack)
    ensures VmGood(reg, vm, stack[1..])
  {
    hide AnyBreakpoint, HasBreakpoint;
    if Clean(reg, stack) {
      assert forall i :: 0 <= i < |stack[1..]| ==> stack[1..][i] == stack[i + 1];
    }
  }

  lemma StackPushed(reg: Registry, vm: Vm, f: Frame, stack: seq<Frame>)
    requires VmGood(reg, vm, stack)
    ensures VmReady(reg, vm, [f] + stack, true)
    ensures !IsLua(f) ==> VmReady(reg, vm, [f] + stack, false)
  {
    assert ([f] + stack)[1..] == stack;
    if !IsLua(f) && Clean(reg, stack) {
      CleanCons(reg, [f] + stack);
    }
    hide Clean, AnyBreakpoint;
  }

  /** The machine concerned is good and the registry has only grown: so is everything else. */
  lemma OneMachine(s: State, l: Lua, reg: Registry, vm: Vm, stack: seq<Frame>)
    requires Good(s) && l in s.vms && Grows(s.reg, reg) && VmGood(reg, vm, stack)
    ensures Good(State(reg, s.vms[l := vm], s.stacks[l := stack]))
  {
    hide VmGood, Ok, Extends, AnyBreakpoint;
    var t := State(reg, s.vms[l := vm], s.stacks[l := stack]);
    forall k | k in t.vms ensures k in t.stacks && VmGood(t.reg, t.vms[k], t.stacks[k]) {
      if k != l {
        assert NamesOk(s.reg) by {
          OkNames(s.reg);
        }
        VmGoodStable(s.reg, reg, s.vms[k], s.stacks[k]);
      }
    }
  }

  lemma OkNames(reg: Registry)
    requires Ok(reg)
    ensures NamesOk(reg)
  {
  }

  lemma CallKeeps(api: Api, s: State, l: Lua, event: int, seen: seq<Frame>, left: seq<Frame>)
    requires Good(s) && l in s.vms && seen != [] && event != HOOK_LINE
    requires VmReady(s.reg, s.vms[l], seen, IsHookEventCall(api, event)) && (left == seen || left == seen[1..])
    ensures Good(AfterEvent(api, s, l, event, seen, left))
  {
    EventKeeps(api, s.reg, s.vms[l], event, seen);
    var o := Deliver(api, s.reg, s.vms[l], event, seen, 0).0;
    StackTail(o.reg, o.vm, seen);
    hide Deliver, VmGood, Grows, VmReady, Good;
    OneMachine(s, l, o.reg, o.vm, left);
  }

  lemma RemovalKeepsClean(reg: Registry, script: nat, line: nat, stack: seq<Frame>)
    requires Ok(reg) && script < |reg.scripts| && line in reg.scripts[script].breakpoints && Clean(reg, stack)
    ensures Clean(Toggle(reg, script, line), stack)
  {
    var reg' := Toggle(reg, script, line);
    TogglesLine(reg.scripts[script].breakpoints, line);
    hide HasBreakpoint, ToggleLine, NoDuplicates;
    forall i | 0 <= i < |stack| && IsLua(stack[i])
      ensures stack[i].source in reg'.names && !HasBreakpoint(reg', stack[i])
    {
      if HasBreakpoint(reg', stack[i]) {
        FewerBreakpoints(reg, reg', stack[i]);
      }
    }
  }

  lemma FewerBreakpoints(reg: Registry, reg': Registry, f: Frame)
    requires reg'.names == reg.names && |reg'.scripts| == |reg.scripts|
    requires forall k, line :: 0 <= k < |reg.scripts| && line in reg'.scripts[k].breakpoints ==>
      line in reg.scripts[k].breakpoints
    requires HasBreakpoint(reg', f)
    ensures HasBreakpoint(reg, f)
  {
    var k := reg.names[f.source];
    var lines, lines' := reg.scripts[k].breakpoints, reg'.scripts[k].breakpoints;
    assert lines' != [] ==> lines'[0] in lines;
    if InRange(lines', f.linedefined, f.lastlinedefined) {
      var i :| 0 <= i < |lines'| && f.linedefined <= lines'[i] < f.lastlinedefined;
      assert lines'[i] in lines;
    }
  }

  lemma ToggleGood(s: State, script: nat, line: nat, l: Lua)
    requires Good(s) && script < |s.reg.scripts| && l in s.vms
    ensures var (reg, vms) := AfterToggle(s.reg, s.vms, script, line); l in vms && VmGood(reg, vms[l], s.stacks[l])
  {
    hide NamesOk, PairsOk, LinesOk, ToggleLine;
    if line in s.reg.scripts[script].breakpoints && AnyBreakpoint(Toggle(s.reg, script, line)) {
      var vm := s.vms[l];
      if !vm.breakpointInStack {
        AnyBefore(s.reg, script, line);
        RemovalKeepsClean(s.reg, script, line, s.stacks[l]);
      }
    }
    hide Clean, Toggle;
  }

  lemma AnyBefore(reg: Registry, script: nat, line: nat)
    requires script < |reg.scripts| && line in reg.scripts[script].breakpoints
    ensures AnyBreakpoint(reg)
  {
  }

  /** Every step keeps every machine good, those it does not concern included. */
  lemma NextKeeps(api: Api, s: State, step: Step)
    requires KnownApi(api) && Good(s) && Enabled(api, s, step)
    ensures Good(Next(api, s, step))
  {
    match step
    case Attach(l, stack) => AttachKeeps(s, l, stack);
    case Detach(l) =>
      hide VmGood, Ok;
    case Call(l, f, event) =>
      StackPushed(s.reg, s.vms[l], f, s.stacks[l]);
      hide Good, VmReady, AfterEvent;
      CallKeeps(api, s, l, event, [f] + s.stacks[l], [f] + s.stacks[l]);
    case TailCall(l, f, event) =>
      StackTail(s.reg, s.vms[l], s.stacks[l]);
      StackPushed(s.reg, s.vms[l], f, s.stacks[l][1..]);
      hide Good, VmReady, AfterEvent, VmGood;
      CallKeeps(api, s, l, event, [f] + s.stacks[l][1..], [f] + s.stacks[l][1..]);
    case Return(l) =>
      assert VmReady(s.reg, s.vms[l], s.stacks[l], false);
      hide Good, VmReady, AfterEvent, VmGood;
      CallKeeps(api, s, l, HOOK_RET, s.stacks[l], s.stacks[l][1..]);
    case TailReturn(l) =>
      StackPushed(s.reg, s.vms[l], TAIL_FRAME, s.stacks[l]);
      assert ([TAIL_FRAME] + s.stacks[l])[1..] == s.stacks[l];
      hide Good, VmReady, AfterEvent, VmGood;
      CallKeeps(api, s, l, HOOK_TAIL, [TAIL_FRAME] + s.stacks[l], s.stacks[l]);
    case Line(l, line) =>
      LineKeeps(api, s.reg, s.vms[l], s.stacks[l], line);
      var o := Deliver(api, s.reg, s.vms[l], HOOK_LINE, s.stacks[l], line).0;
      assert s.stacks[l := s.stacks[l]] == s.stacks;
      hide Deliver, VmGood, Grows, Good;
      OneMachine(s, l, o.reg, o.vm, s.stacks[l]);
    case Run(l, c) => RunKeeps(s, l, c);
    case ToggleAt(script, line) =>
      ToggleKeeps(s.reg, script, line);
      forall l | l in s.vms
        ensures var (reg, vms) := AfterToggle(s.reg, s.vms, script, line); l in vms && VmGood(reg, vms[l], s.stacks[l])
      {
        ToggleGood(s, script, line, l);
      }
      hide VmGood, Ok, Toggle;
    case DeleteBreakpoints =>
      DeleteAllKeeps(s.reg);
      hide Clean, Ok;
    case Load(source, name) => LoadKeeps(s, source, name);
  }

  lemma AttachKeeps(s: State, l: Lua, stack: seq<Frame>)
    requires Good(s)
    ensures Good(State(s.reg, s.vms[l := NewVm(SomeActive(s.vms))], s.stacks[l := stack]))
  {
    hide Clean, Ok, SomeActive;
  }

  lemma RunKeeps(s: State, l: Lua, c: Command)
    requires Good(s) && l in s.vms
    ensures Good(s.(vms := s.vms[l := RunCommand(s.vms[l], c)]))
  {
    hide Clean, Ok;
  }

  lemma LoadKeeps(s: State, source: string, name: Option<string>)
    requires Good(s)
    ensures Good(s.(reg := Register(s.reg, source, name).reg))
  {
    var n := if name.None? then CString(source) else name.value;
    RegisterKeeps(s.reg, source, n);
    NoNewBreakpoints(s.reg, source, n);
    hide VmGood, RegisterNamed, AnyBreakpoint, Extends;
    OkNames(s.reg);
    var reg := RegisterNamed(s.reg, source, n).reg;
    forall l | l in s.vms ensures VmGood(reg, s.vms[l], s.stacks[l]) {
      VmGoodStable(s.reg, reg, s.vms[l], s.stacks[l]);
    }
    hide Ok;
  }

  // ----- the machines' breakpoint flags

  /** All machines agree, and they are never told of a breakpoint when there is none. */
  ghost predicate FlagsSound(s: State)
  {
    && (forall l :: l in s.vms && s.vms[l].haveActiveBreakpoints ==> AnyBreakpoint(s.reg))
    && (forall l, k :: l in s.vms && k in s.vms ==> s.vms[l].haveActiveBreakpoints == s.vms[k].haveActiveBreakpoints)
  }

  /** A machine is attached to none while a breakpoint is set: the flag would start out wrong. */
  predicate Guarded(s: State, step: Step)
  {
    step.Attach? ==> s.vms != map[] || !AnyBreakpoint(s.reg)
  }

  /** An event changes no machine's flag and neither adds nor removes breakpoints. */
  lemma CountKeepsFlag(api: Api, vm: Vm, event: int)
    ensures CountCalls(api, vm, event).haveActiveBreakpoints == vm.haveActiveBreakpoints
  {
  }

  lemma EventKeepsFlag(api: Api, reg: Registry, vm: Vm, event: int, stack: seq<Frame>, line: int)
    requires stack != [] && Ok(reg)
    ensures var o := Deliver(api, reg, vm, event, stack, line).0;
      o.vm.haveActiveBreakpoints == vm.haveActiveBreakpoints && (AnyBreakpoint(o.reg) <==> AnyBreakpoint(reg))
  {
    hide BeforeEvent, AnyBreakpoint, RegisterSeen, AtBreakpoint, AtStep, Ok, Extends, CountCalls;
    var o := BeforeEvent(api, reg, vm, event, stack);
    BeforeKeepsFlag(api, reg, vm, event, stack);
    SeenGrows(o.reg, stack[0].source);
    CountKeepsFlag(api, o.vm, event);
  }

  lemma BeforeKeepsFlag(api: Api, reg: Registry, vm: Vm, event: int, stack: seq<Frame>)
    requires stack != [] && Ok(reg)
    ensures var o := BeforeEvent(api, reg, vm, event, stack);
      o.vm.haveActiveBreakpoints == vm.haveActiveBreakpoints && Grows(reg, o.reg)
  {
    GrowsItself(reg);
    ChooseKeepsFlag(api, reg, vm, event, stack);
    hide ChooseMode, Grows;
  }

  lemma ChooseKeepsFlag(api: Api, reg: Registry, vm: Vm, event: int, stack: seq<Frame>)
    requires stack != [] && Ok(reg)
    ensures var o := ChooseMode(api, reg, vm, event, stack).0;
      o.vm == vm.(breakpointInStack := o.vm.breakpointInStack) && Grows(reg, o.reg)
  {
    var called := IsHookEventCall(api, event) && IsLua(stack[0]);
    var reg1 := if called then RegisterSeen(reg, stack[0].source) else reg;
    if called {
      SeenGrows(reg, stack[0].source);
    } else {
      GrowsItself(reg);
    }
    assert Grows(reg, reg1);
    hide RegisterSeen, HasBreakpoint, Clean, ScanStack;
    ScanCorrect(reg1, stack);
    GrowsTransitive(reg, reg1, ScanStack(reg1, stack).0);
    hide Grows, Ok;
  }

  lemma ToggledAny(reg: Registry, script: nat, line: nat)
    requires Ok(reg) && script < |reg.scripts|
    ensures line !in reg.scripts[script].breakpoints ==> AnyBreakpoint(Toggle(reg, script, line))
    ensures line in reg.scripts[script].breakpoints ==> AnyBreakpoint(reg)
  {
    TogglesLine(reg.scripts[script].breakpoints, line);
    var r := Toggle(reg, script, line);
    assert line !in reg.scripts[script].breakpoints ==> r.scripts[script].breakpoints != [];
  }

  ghost predicate SameFlags(s: State, t: State)
  {
    && t.vms.Keys == s.vms.Keys && (AnyBreakpoint(t.reg) <==> AnyBreakpoint(s.reg))
    && forall l :: l in s.vms ==> t.vms[l].haveActiveBreakpoints == s.vms[l].haveActiveBreakpoints
  }

  lemma AfterEventFlags(api: Api, s: State, l: Lua, event: int, seen: seq<Frame>, left: seq<Frame>)
    requires Ok(s.reg) && l in s.vms && seen != []
    ensures SameFlags(s, AfterEvent(api, s, l, event, seen, left))
  {
    EventKeepsFlag(api, s.reg, s.vms[l], event, seen, 0);
    hide Deliver, AnyBreakpoint;
  }

  /** Calls, returns, lines, commands and loads leave every flag as it is, and right if it was right. */
  lemma MostStepsKeepFlags(api: Api, s: State, step: Step)
    requires Good(s) && Enabled(api, s, step)
    requires !step.Attach? && !step.Detach? && !step.ToggleAt? && !step.DeleteBreakpoints?
    ensures SameFlags(s, Next(api, s, step))
  {
    hide SameFlags, VmGood, AfterEvent;
    match step
    case Call(l, f, event) =>
      AfterEventFlags(api, s, l, event, [f] + s.stacks[l], [f] + s.stacks[l]);
    case TailCall(l, f, event) =>
      AfterEventFlags(api, s, l, event, [f] + s.stacks[l][1..], [f] + s.stacks[l][1..]);
    case Return(l) =>
      AfterEventFlags(api, s, l, HOOK_RET, s.stacks[l], s.stacks[l][1..]);
    case TailReturn(l) =>
      AfterEventFlags(api, s, l, HOOK_TAIL, [TAIL_FRAME] + s.stacks[l], s.stacks[l]);
    case Line(l, line) => LineFlags(api, s, l, line);
    case Run(l, c) => RunFlags(s, l, c);
    case Load(source, name) => LoadFlags(s, source, name);
  }

  lemma LineFlags(api: Api, s: State, l: Lua, line: int)
    requires Ok(s.reg) && l in s.vms && l in s.stacks && s.stacks[l] != []
    ensures var o := Deliver(api, s.reg, s.vms[l], HOOK_LINE, s.stacks[l], line).0;
      SameFlags(s, State(o.reg, s.vms[l := o.vm], s.stacks))
  {
    EventKeepsFlag(api, s.reg, s.vms[l], HOOK_LINE, s.stacks[l], line);
    hide Deliver, AnyBreakpoint;
  }

  lemma RunFlags(s: State, l: Lua, c: Command)
    requires l in s.vms
    ensures SameFlags(s, s.(vms := s.vms[l := RunCommand(s.vms[l], c)]))
  {
    hide AnyBreakpoint;
  }

  lemma LoadFlags(s: State, source: string, name: Option<string>)
    ensures SameFlags(s, s.(reg := Register(s.reg, source, name).reg))
  {
    NoNewBreakpoints(s.reg, source, if name.None? then CString(source) else name.value);
    hide AnyBreakpoint, RegisterNamed;
  }

  /** In every run the flags agree and are never raised without reason. */
  lemma NextKeepsSound(api: Api, s: State, step: Step)
    requires Good(s) && Enabled(api, s, step) && FlagsSound(s)
    ensures FlagsSound(Next(api, s, step))
  {
    if step.ToggleAt? {
      ToggledAny(s.reg, step.script, step.line);
      hide Toggle, AnyBreakpoint, VmGood, Ok;
    } else if step.Attach? || step.Detach? || step.DeleteBreakpoints? {
      hide AnyBreakpoint, VmGood, Ok;
    } else {
      MostStepsKeepFlags(api, s, step);
      hide Next, Good, AnyBreakpoint, Enabled;
    }
  }

  /** They are right in every run that attaches no machine to none while a breakpoint is set. */
  lemma NextKeepsRight(api: Api, s: State, step: Step)
    requires Good(s) && Enabled(api, s, step) && FlagsRight(s) && Guarded(s, step)
    ensures FlagsRight(Next(api, s, step))
  {
    if step.ToggleAt? {
      ToggledAny(s.reg, step.script, step.line);
      hide Toggle, AnyBreakpoint, VmGood, Ok;
    } else if step.Attach? {
      AttachFlagIff(api, s, step.l, step.stack);
    } else if step.Detach? || step.DeleteBreakpoints? {
      hide AnyBreakpoint, VmGood, Ok;
    } else {
      MostStepsKeepFlags(api, s, step);
      hide Next, Good, AnyBreakpoint, Enabled;
    }
  }

  /** The guard is exact: attaching gives a wrong flag whenever it is not met. */
  lemma AttachFlagIff(api: Api, s: State, l: Lua, stack: seq<Frame>)
    requires FlagsRight(s) && Enabled(api, s, Attach(l, stack))
    ensures FlagsRight(Next(api, s, Attach(l, stack))) <==> Guarded(s, Attach(l, stack))
  {
    hide AnyBreakpoint;
    var t := Next(api, s, Attach(l, stack));
    assert t.vms[l].haveActiveBreakpoints == SomeActive(s.vms);
    if s.vms == map[] {
      assert !SomeActive(s.vms);
    } else {
      var k :| k in s.vms;
      assert SomeActive(s.vms) ==> exists j :: j in s.vms && s.vms[j].haveActiveBreakpoints;
      assert s.vms[k].haveActiveBreakpoints == AnyBreakpoint(s.reg);
    }
    if Guarded(s, Attach(l, stack)) {
      assert forall j :: j in t.vms ==> j == l || (j in s.vms && t.vms[j] == s.vms[j]);
    }
  }

  // ----- runs

  /** A run as it can happen. */
  ghost predicate Possible(api: Api, s: State, steps: seq<Step>)
    decreases |steps|
  {
    steps == [] || (Enabled(api, s, steps[0]) && Possible(api, Next(api, s, steps[0]), steps[1..]))
  }

  /** A run without a machine attached to none while a breakpoint is set. */
  ghost predicate ValidRun(api: Api, s: State, steps: seq<Step>)
    decreases |steps|
  {
    && Possible(api, s, steps)
    && (steps == [] || (Guarded(s, steps[0]) && ValidRun(api, Next(api, s, steps[0]), steps[1..])))
  }

  ghost function Final(api: Api, s: State, steps: seq<Step>): State
    requires Possible(api, s, steps)
    decreases |steps|
  {
    if steps == [] then s else Final(api, Next(api, s, steps[0]), steps[1..])
  }

  const NOTHING: State := State(Registry([], map[]), map[], map[])

  lemma {:induction false} RunKeepsGood(api: Api, s: State, steps: seq<Step>)
    requires KnownApi(api) && ValidRun(api, s, steps) && Good(s) && FlagsRight(s)
    ensures Good(Final(api, s, steps)) && FlagsRight(Final(api, s, steps))
    decreases |steps|
  {
    if steps != [] {
      NextKeeps(api, s, steps[0]);
      NextKeepsRight(api, s, steps[0]);
      hide Next, Good, FlagsRight, Enabled, Guarded;
      RunKeepsGood(api, Next(api, s, steps[0]), steps[1..]);
    }
  }

  /** Guarded or not: every run keeps the invariant, and its flags agree and are not raised without reason. */
  lemma {:induction false} EveryRunKeepsGood(api: Api, s: State, steps: seq<Step>)
    requires KnownApi(api) && Possible(api, s, steps) && Good(s) && FlagsSound(s)
    ensures Good(Final(api, s, steps)) && FlagsSound(Final(api, s, steps))
    decreases |steps|
  {
    if steps != [] {
      NextKeeps(api, s, steps[0]);
      NextKeepsSound(api, s, steps[0]);
      hide Next, Good, FlagsSound, Enabled;
      EveryRunKeepsGood(api, Next(api, s, steps[0]), steps[1..]);
    }
  }

  /** In particular the registry stays in order. */
  lemma EveryRunSound(api: Api, steps: seq<Step>)
    requires KnownApi(api) && Possible(api, NOTHING, steps)
    ensures var s := Final(api, NOTHING, steps); Good(s) && Ok(s.reg) && FlagsSound(s)
  {
    assert Good(NOTHING) && FlagsSound(NOTHING);
    hide FlagsSound;
    EveryRunKeepsGood(api, NOTHING, steps);
  }

  // ----- no breakpoint is lost

  lemma HasBreakpointAny(reg: Registry, f: Frame)
    requires HasBreakpoint(reg, f)
    ensures AnyBreakpoint(reg)
  {
    var lines := reg.scripts[reg.names[f.source]].breakpoints;
    assert lines != [];
  }

  /** While a function with a breakpoint in it is anywhere on the stack, the full hook is installed. */
  lemma FullWhileNeeded(s: State, l: Lua, i: nat)
    requires Good(s) && FlagsRight(s) && l in s.vms && i < |s.stacks[l]|
    requires IsLua(s.stacks[l][i]) && HasBreakpoint(s.reg, s.stacks[l][i])
    ensures s.vms[l].hook == Full
  {
    HasBreakpointAny(s.reg, s.stacks[l][i]);
    hide HasBreakpoint, AnyBreakpoint, Ok;
  }

  /** The debugger stops at the line the running function is about to execute. */
  predicate Stops(api: Api, s: State, l: Lua, line: int)
    requires l in s.vms && l in s.stacks && s.stacks[l] != []
  {
    Deliver(api, s.reg, s.vms[l], HOOK_LINE, s.stacks[l], line).1
  }

  /** What it would do if every line event were delivered. */
  predicate StopsFully(api: Api, s: State, l: Lua, line: int)
    requires l in s.vms && l in s.stacks && s.stacks[l] != []
  {
    HookCallback(api, s.reg, s.vms[l], HOOK_LINE, s.stacks[l], line).1
  }

  /** Lines where a breakpoint counts as being in the function: not the line its definition starts on. */
  predicate Visible(f: Frame, line: int)
  {
    (f.linedefined == 0 && f.lastlinedefined == 0) || f.linedefined < line <= f.lastlinedefined
  }

  lemma BreakpointInFunction(reg: Registry, f: Frame, line: int)
    requires AtBreakpoint(reg, f.source, line) && Visible(f, line)
    ensures HasBreakpoint(reg, f)
  {
    var lines := reg.scripts[reg.names[f.source]].breakpoints;
    var k :| 0 <= k < |lines| && lines[k] == line - 1;
    assert f.linedefined < line <= f.lastlinedefined ==> f.linedefined <= lines[k] < f.lastlinedefined;
  }

  lemma StopsWhenFull(api: Api, s: State, l: Lua, line: int)
    requires Good(s) && FlagsRight(s) && l in s.vms && s.stacks[l] != []
    requires IsLua(s.stacks[l][0]) && Visible(s.stacks[l][0], line) && StopsFully(api, s, l, line)
    ensures s.vms[l].hook == Full
  {
    var f, vm := s.stacks[l][0], s.vms[l];
    assert VmGood(s.reg, vm, s.stacks[l]);
    BeforeLineKeeps(api, s.reg, vm, s.stacks[l]);
    if vm.mode == Continue {
      var reg' := RegisterSeen(s.reg, f.source);
      SeenGrows(s.reg, f.source);
      assert AtBreakpoint(reg', f.source, line);
      hide AtBreakpoint, RegisterSeen, Visible, HookCallback;
      BreakpointInFunction(reg', f, line);
      HasBreakpointAny(reg', f);
      if f.source in s.reg.names {
        OkNames(s.reg);
        HasBreakpointStable(s.reg, reg', f);
      }
      hide HasBreakpoint, AnyBreakpoint;
    }
  }

  /**
   * Downgrading hooks loses nothing: in every state of every run, the debugger stops at a line exactly if it would with
   * the full hook installed all the time, in any mode, for every line past the one its function's definition starts on.
   */
  lemma NoBreakpointLost(api: Api, steps: seq<Step>, l: Lua, line: int)
    requires KnownApi(api) && ValidRun(api, NOTHING, steps)
    requires var s := Final(api, NOTHING, steps);
      && Enabled(api, s, Line(l, line)) && IsLua(s.stacks[l][0]) && Visible(s.stacks[l][0], line)
    ensures var s := Final(api, NOTHING, steps); Stops(api, s, l, line) <==> StopsFully(api, s, l, line)
  {
    assert Good(NOTHING) && FlagsRight(NOTHING);
    RunKeepsGood(api, NOTHING, steps);
    var s := Final(api, NOTHING, steps);
    hide Good, FlagsRight, HookCallback, Visible, ValidRun;
    if StopsFully(api, s, l, line) {
      StopsWhenFull(api, s, l, line);
    }
  }

  /** A run after which the function `f` runs on machine `l` and is about to execute `line`. */
  ghost predicate Reaches(api: Api, steps: seq<Step>, l: Lua, f: Frame, line: int)
  {
    && ValidRun(api, NOTHING, steps)
    && var s := Final(api, NOTHING, steps); Enabled(api, s, Line(l, line)) && s.stacks[l][0] == f
  }

  /** Attach, load the script, set a breakpoint. */
  function BreakpointRun(f: Frame, line: int): seq<Step>
    requires 1 <= line
  {
    [Attach(0, []), Load("", Some(f.source)), ToggleAt(0, line - 1)]
  }

  /** A breakpoint on the function's first line is set, and the function called. */
  function MissingRun(f: Frame): seq<Step>
    requires 1 <= f.linedefined
  {
    BreakpointRun(f, f.linedefined) + [Call(0, f, HOOK_CALL)]
  }

  function OneBreakpoint(f: Frame, line: int): Registry
    requires 1 <= line
  {
    Registry([Script(FileTitle(f.source), "", [line - 1])], map[f.source := 0])
  }

  lemma FirstLineNotInside(f: Frame)
    requires 1 <= f.linedefined
    ensures !HasBreakpoint(OneBreakpoint(f, f.linedefined), f)
    ensures ScanStack(OneBreakpoint(f, f.linedefined), [f]) == (OneBreakpoint(f, f.linedefined), false)
  {
    hide FileTitle;
    assert [f][1..] == [];
    assert ScanStack(OneBreakpoint(f, f.linedefined), []) == (OneBreakpoint(f, f.linedefined), false);
  }

  lemma CallDowngrades(api: Api, f: Frame, event: int)
    requires 1 <= f.linedefined && event == HOOK_CALL
    ensures var reg := OneBreakpoint(f, f.linedefined);
      var o := Deliver(api, reg, Vm(Continue, 0, true, true, Full), event, [f], 0).0;
      o == Outcome(reg, Vm(Continue, 0, false, true, CallsOnly))
  {
    FirstLineNotInside(f);
    hide ScanStack, HasBreakpoint, FileTitle;
  }

  lemma BreakpointSet(api: Api, f: Frame, line: int)
    requires 1 <= line
    ensures var run := BreakpointRun(f, line);
      && Enabled(api, NOTHING, run[0])
      && var s1 := Next(api, NOTHING, run[0]);
      && Enabled(api, s1, run[1])
      && var s2 := Next(api, s1, run[1]);
      && Enabled(api, s2, run[2])
      && var vm := Vm(Continue, 0, true, true, Full);
         Next(api, s2, run[2]) == State(OneBreakpoint(f, line), map[0 := vm], map[0 := []])
  {
    hide FileTitle;
    var s1 := Next(api, NOTHING, Attach(0, []));
    assert s1 == State(Registry([], map[]), map[0 := NewVm(false)], map[0 := []]);
    var s2 := Next(api, s1, Load("", Some(f.source)));
    assert s2.reg == Registry([Script(FileTitle(f.source), "", [])], map[f.source := 0]);
    ToggleFirst(f, line);
    assert SetAllActive(s2.vms, true) == map[0 := Vm(Continue, 0, true, true, Full)];
  }

  lemma ToggleFirst(f: Frame, line: int)
    requires 1 <= line
    ensures var loaded := Registry([Script(FileTitle(f.source), "", [])], map[f.source := 0]);
      Toggle(loaded, 0, line - 1) == OneBreakpoint(f, line)
  {
    hide FileTitle;
    assert ToggleLine([], line - 1) == [line - 1];
  }

  /** The range test starts one line late: a breakpoint on a function's first line can be missed. */
  lemma FirstLineMissed(api: Api, f: Frame)
    requires KnownApi(api) && 1 <= f.linedefined
    ensures var run := MissingRun(f);
      && Reaches(api, run, 0, f, f.linedefined)
      && var s := Final(api, NOTHING, run);
         !Stops(api, s, 0, f.linedefined) && StopsFully(api, s, 0, f.linedefined)
  {
    var run, reg := MissingRun(f), OneBreakpoint(f, f.linedefined);
    BreakpointSet(api, f, f.linedefined);
    CallDowngrades(api, f, HOOK_CALL);
    var s3 := State(reg, map[0 := Vm(Continue, 0, true, true, Full)], map[0 := []]);
    assert [f] + [] == [f];
    hide Deliver, FileTitle, OneBreakpoint, Toggle, Register, SetAllActive;
    var s4 := Next(api, s3, run[3]);
    assert s4.stacks[0] == [f] && s4.reg == reg && s4.vms[0] == Vm(Continue, 0, false, true, CallsOnly);
    hide Next;
    MissedAt(api, f, s4, f.linedefined);
    var s1 := Next(api, NOTHING, run[0]);
    RunOfFour(api, run, s1, Next(api, s1, run[1]), s3, s4);
  }

  predicate Takes(api: Api, s: State, step: Step, t: State)
  {
    Enabled(api, s, step) && Guarded(s, step) && t == Next(api, s, step)
  }

  lemma RunOfFour(api: Api, run: seq<Step>, s1: State, s2: State, s3: State, s4: State)
    requires |run| == 4 && Takes(api, NOTHING, run[0], s1) && Takes(api, s1, run[1], s2)
    requires Takes(api, s2, run[2], s3) && Takes(api, s3, run[3], s4)
    ensures ValidRun(api, NOTHING, run) && Final(api, NOTHING, run) == s4
  {
    hide Next, Enabled, Guarded;
    assert run[1..][1..] == run[2..] && run[2..][1..] == run[3..] && run[3..][1..] == [];
    assert ValidRun(api, s4, []) && Final(api, s4, []) == s4;
    assert ValidRun(api, s3, run[3..]) && Final(api, s3, run[3..]) == s4;
    assert ValidRun(api, s2, run[2..]) && Final(api, s2, run[2..]) == s4;
    assert ValidRun(api, s1, run[1..]) && Final(api, s1, run[1..]) == s4;
  }

  lemma MissedAt(api: Api, f: Frame, s: State, line: int)
    requires KnownApi(api) && 1 <= line
    requires 0 in s.stacks && s.stacks[0] == [f] && 0 in s.vms && s.vms[0].mode == Continue && s.vms[0].hook != Full
    requires s.reg == OneBreakpoint(f, line)
    ensures !Stops(api, s, 0, line) && StopsFully(api, s, 0, line)
  {
    hide FileTitle;
    assert line - 1 in [line - 1];
  }

  /**
   * For a line a function can execute, breakpoints there are honoured in every run exactly if the line comes after the
   * one the function's definition starts on, or the function is a main chunk.
   */
  lemma HonouredInEveryRunIff(api: Api, f: Frame, line: int)
    requires KnownApi(api) && IsLua(f) && (IsMainChunk(f) || 1 <= f.linedefined <= line <= f.lastlinedefined)
    ensures (forall steps, l :: Reaches(api, steps, l, f, line) ==>
               var s := Final(api, NOTHING, steps); Stops(api, s, l, line) <==> StopsFully(api, s, l, line))
            <==> Visible(f, line)
  {
    hide Stops, StopsFully, Final, Possible;
    if Visible(f, line) {
      forall steps, l | Reaches(api, steps, l, f, line)
        ensures var s := Final(api, NOTHING, steps); Stops(api, s, l, line) <==> StopsFully(api, s, l, line)
      {
        NoBreakpointLost(api, steps, l, line);
      }
    } else {
      FirstLineMissed(api, f);
      assert Reaches(api, MissingRun(f), 0, f, line);
    }
  }

  // ----- an unguarded run

  /** A breakpoint is set, the one machine goes and comes back, and the function is called. */
  function LosingRun(f: Frame, line: int): seq<Step>
    requires 1 <= line
  {
    BreakpointRun(f, line) + [Detach(0), Attach(0, []), Call(0, f, HOOK_CALL)]
  }

  /** The machine believes that there are no breakpoints, and so looks at calls and returns only. */
  lemma CallGoesUnnoticed(api: Api, f: Frame, line: int, event: int)
    requires IsLua(f) && Visible(f, line) && 1 <= line && event == HOOK_CALL
    ensures var reg := OneBreakpoint(f, line);
      Deliver(api, reg, NewVm(false), event, [f], 0).0 == Outcome(reg, Vm(Continue, 0, true, false, CallsAndReturns))
  {
    assert AtBreakpoint(OneBreakpoint(f, line), f.source, line) by {
      hide FileTitle;
      assert line - 1 in [line - 1];
    }
    BreakpointInFunction(OneBreakpoint(f, line), f, line);
    hide HasBreakpoint, FileTitle, Visible;
  }

  lemma MachineComesBack(api: Api, f: Frame, line: int, s: State)
    requires IsLua(f) && Visible(f, line) && 1 <= line
    requires s == State(OneBreakpoint(f, line), map[0 := Vm(Continue, 0, true, true, Full)], map[0 := []])
    ensures Enabled(api, s, Detach(0))
    ensures var s4 := Next(api, s, Detach(0));
      && Enabled(api, s4, Attach(0, [])) && !Guarded(s4, Attach(0, []))
      && var s5 := Next(api, s4, Attach(0, []));
      && Enabled(api, s5, Call(0, f, HOOK_CALL))
      && var s6 := Next(api, s5, Call(0, f, HOOK_CALL));
      && s6 == State(s.reg, map[0 := Vm(Continue, 0, true, false, CallsAndReturns)], map[0 := [f]])
  {
    CallGoesUnnoticed(api, f, line, HOOK_CALL);
    var s4 := Next(api, s, Detach(0));
    assert s4.vms == map[];
    assert s4.reg.scripts[0].breakpoints == [line - 1];
    var s5 := Next(api, s4, Attach(0, []));
    assert s5 == State(s.reg, map[0 := NewVm(false)], map[0 := []]);
    assert [f] + [] == [f];
    hide Deliver, OneBreakpoint, NewVm;
  }

  /** Without the guard any breakpoint can be lost. */
  lemma LostByAttaching(api: Api, f: Frame, line: int)
    requires KnownApi(api) && IsLua(f) && Visible(f, line) && 1 <= line
    ensures var run := LosingRun(f, line);
      && Possible(api, NOTHING, run) && !ValidRun(api, NOTHING, run)
      && var s := Final(api, NOTHING, run);
      && Enabled(api, s, Line(0, line)) && s.stacks[0][0] == f
      && !Stops(api, s, 0, line) && StopsFully(api, s, 0, line)
  {
    var run := LosingRun(f, line);
    BreakpointSet(api, f, line);
    var s1 := Next(api, NOTHING, run[0]);
    var s2 := Next(api, s1, run[1]);
    var s3 := State(OneBreakpoint(f, line), map[0 := Vm(Continue, 0, true, true, Full)], map[0 := []]);
    MachineComesBack(api, f, line, s3);
    var s4 := Next(api, s3, run[3]);
    var s5 := Next(api, s4, run[4]);
    var s6 := Next(api, s5, run[5]);
    MissedAt(api, f, s6, line);
    hide Next, Enabled, Guarded, Stops, StopsFully;
    RunOfThree(api, s3, run[3..], s4, s5, s6);
    RunGoesOn(api, s2, run[2..], s3);
    RunGoesOn(api, s1, run[1..], s2);
    RunGoesOn(api, NOTHING, run, s1);
  }

  lemma RunGoesOn(api: Api, s: State, steps: seq<Step>, t: State)
    requires steps != [] && Enabled(api, s, steps[0]) && t == Next(api, s, steps[0]) && Possible(api, t, steps[1..])
    ensures Possible(api, s, steps) && Final(api, s, steps) == Final(api, t, steps[1..])
    ensures ValidRun(api, s, steps) <==> Guarded(s, steps[0]) && ValidRun(api, t, steps[1..])
  {
    hide Enabled, Next, Guarded;
  }

  lemma RunOfThree(api: Api, s: State, steps: seq<Step>, s1: State, s2: State, s3: State)
    requires |steps| == 3 && Enabled(api, s, steps[0]) && s1 == Next(api, s, steps[0])
    requires Enabled(api, s1, steps[1]) && s2 == Next(api, s1, steps[1])
    requires Enabled(api, s2, steps[2]) && s3 == Next(api, s2, steps[2])
    ensures Possible(api, s, steps) && Final(api, s, steps) == s3
    ensures ValidRun(api, s, steps) ==> Guarded(s1, steps[1])
  {
    hide Enabled, Next, Guarded;
    assert steps[1..][1..] == steps[2..] && steps[2..][1..] == [];
    RunGoesOn(api, s2, steps[2..], s3);
    RunGoesOn(api, s1, steps[1..], s2);
    RunGoesOn(api, s, steps, s1);
  }
}
