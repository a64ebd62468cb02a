/**
 * Which lines the debugger stops at and which hook it installs, in terms of what was done in a run: of the breakpoints
 * toggled and deleted, and of the functions on the call stack.
 */
module Breakpoints {
  import opened Scripts
  import opened Debugger
  import opened Hooking

  /** How often the line's breakpoint was toggled since all breakpoints were last deleted. */
  function Toggles(steps: seq<Step>, script: nat, line: nat): nat
  {
    if steps == [] then 0
    else
      var before := Toggles(steps[..|steps| - 1], script, line);
      match steps[|steps| - 1]
      case ToggleAt(k, m) => if k == script && m == line then before + 1 else before
      case DeleteBreakpoints => 0
      case _ => before
  }

  predicate IsSet(steps: seq<Step>, script: nat, line: nat)
  {
    Toggles(steps, script, line) % 2 == 1
  }

  // ----- runs, one step at a time

  lemma {:induction false} RunSnoc(api: Api, s: State, steps: seq<Step>, step: Step)
    requires Possible(api, s, steps)
    ensures Possible(api, s, steps + [step]) <==> Enabled(api, Final(api, s, steps), step)
    ensures Possible(api, s, steps + [step]) ==>
      Final(api, s, steps + [step]) == Next(api, Final(api, s, steps), step)
    decreases |steps|
  {
    hide Enabled, Next;
    if steps == [] {
      assert (steps + [step])[0] == step && (steps + [step])[1..] == [];
    } else {
      assert (steps + [step])[0] == steps[0] && (steps + [step])[1..] == steps[1..] + [step];
      RunSnoc(api, Next(api, s, steps[0]), steps[1..], step);
    }
  }

  lemma {:induction false} RunInit(api: Api, s: State, steps: seq<Step>)
    requires Possible(api, s, steps) && steps != []
    ensures Possible(api, s, steps[..|steps| - 1])
    decreases |steps|
  {
    hide Enabled, Next;
    var init := steps[..|steps| - 1];
    if init != [] {
      assert init[0] == steps[0] && init[1..] == steps[1..][..|steps[1..]| - 1];
      RunInit(api, Next(api, s, steps[0]), steps[1..]);
    }
  }

  // ----- the lists of breakpoints

  /** A script lists exactly the lines set. */
  ghost predicate Tracks(reg: Registry, steps: seq<Step>)
  {
    && (forall k: nat, m: nat :: k < |reg.scripts| ==> (m in reg.scripts[k].breakpoints <==> IsSet(steps, k, m)))
    && (forall k: nat, m: nat :: k >= |reg.scripts| ==> !IsSet(steps, k, m))
  }

  /** A step that neither toggles nor deletes. */
  predicate SetsNothing(step: Step) { !step.ToggleAt? && !step.DeleteBreakpoints? }

  lemma SameTogglesAfter(steps: seq<Step>, step: Step, k: nat, m: nat)
    ensures SetsNothing(step) ==> Toggles(steps + [step], k, m) == Toggles(steps, k, m)
    ensures step.DeleteBreakpoints? ==> Toggles(steps + [step], k, m) == 0
    ensures step.ToggleAt? ==>
      Toggles(steps + [step], k, m)
      == if k == step.script && m == step.line then Toggles(steps, k, m) + 1 else Toggles(steps, k, m)
  {
    assert (steps + [step])[..|steps + [step]| - 1] == steps && (steps + [step])[|steps + [step]| - 1] == step;
  }

  lemma GrownTracks(reg: Registry, reg': Registry, steps: seq<Step>, step: Step)
    requires Tracks(reg, steps) && Extends(reg, reg') && NewOnesBare(reg, reg') && SetsNothing(step)
    ensures Tracks(reg', steps + [step])
  {
    hide Toggles;
    forall k: nat, m: nat | k < |reg'.scripts|
      ensures m in reg'.scripts[k].breakpoints <==> IsSet(steps + [step], k, m)
    {
      SameTogglesAfter(steps, step, k, m);
      assert IsSet(steps + [step], k, m) == IsSet(steps, k, m);
      if k < |reg.scripts| {
        assert reg'.scripts[k] == reg.scripts[k];
      }
    }
    forall k: nat, m: nat | k >= |reg'.scripts| ensures !IsSet(steps + [step], k, m) {
      SameTogglesAfter(steps, step, k, m);
      assert IsSet(steps + [step], k, m) == IsSet(steps, k, m);
    }
  }

  lemma ToggledTracks(reg: Registry, steps: seq<Step>, script: nat, line: nat)
    requires Ok(reg) && Tracks(reg, steps) && script < |reg.scripts|
    ensures Tracks(Toggle(reg, script, line), steps + [ToggleAt(script, line)])
  {
    TogglesLine(reg.scripts[script].breakpoints, line);
    hide Toggles, ToggleLine, NoDuplicates;
    var step, reg' := ToggleAt(script, line), Toggle(reg, script, line);
    forall k: nat, m: nat | k < |reg'.scripts|
      ensures m in reg'.scripts[k].breakpoints <==> IsSet(steps + [step], k, m)
    {
      SameTogglesAfter(steps, step, k, m);
    }
    forall k: nat, m: nat | k >= |reg'.scripts| ensures !IsSet(steps + [step], k, m) {
      SameTogglesAfter(steps, step, k, m);
      assert IsSet(steps + [step], k, m) == IsSet(steps, k, m);
    }
  }

  lemma DeletedTracks(reg: Registry, steps: seq<Step>)
    ensures Tracks(DeleteAll(reg), steps + [DeleteBreakpoints])
  {
    hide Toggles;
    forall k: nat, m: nat ensures !IsSet(steps + [DeleteBreakpoints], k, m) {
      SameTogglesAfter(steps, DeleteBreakpoints, k, m);
    }
  }

  /** An event only registers scripts. */
  lemma EventGrows(api: Api, reg: Registry, vm: Vm, event: int, stack: seq<Frame>, line: int)
    requires Ok(reg) && stack != []
    ensures Grows(reg, Deliver(api, reg, vm, event, stack, line).0.reg)
  {
    GrowsItself(reg);
    BeforeKeepsFlag(api, reg, vm, event, stack);
    var o := BeforeEvent(api, reg, vm, event, stack);
    assert Ok(o.reg);
    SeenGrows(o.reg, stack[0].source);
    GrowsTransitive(reg, o.reg, RegisterSeen(o.reg, stack[0].source));
    hide Grows, BeforeEvent, RegisterSeen, AtBreakpoint, AtStep, CountCalls;
  }

  lemma StepGrows(api: Api, s: State, step: Step)
    requires Ok(s.reg) && Enabled(api, s, step) && SetsNothing(step)
    ensures var reg' := Next(api, s, step).reg; Extends(s.reg, reg') && NewOnesBare(s.reg, reg')
  {
    hide Deliver, NewOnesBare, Extends, Register;
    ItselfBare(s.reg);
    match step
    case Call(l, f, event) => EventGrows(api, s.reg, s.vms[l], event, [f] + s.stacks[l], 0);
    case TailCall(l, f, event) => EventGrows(api, s.reg, s.vms[l], event, [f] + s.stacks[l][1..], 0);
    case Return(l) => EventGrows(api, s.reg, s.vms[l], HOOK_RET, s.stacks[l], 0);
    case TailReturn(l) => EventGrows(api, s.reg, s.vms[l], HOOK_TAIL, [TAIL_FRAME] + s.stacks[l], 0);
    case Line(l, line) => EventGrows(api, s.reg, s.vms[l], HOOK_LINE, s.stacks[l], line);
    case Load(source, name) => LoadAddsBare(s.reg, source, name);
    case _ =>
  }

  lemma ItselfBare(reg: Registry)
    ensures Extends(reg, reg) && NewOnesBare(reg, reg)
  {
  }

  lemma LoadAddsBare(reg: Registry, source: string, name: Options.Option<string>)
    requires Ok(reg)
    ensures var reg' := Register(reg, source, name).reg; Extends(reg, reg') && NewOnesBare(reg, reg')
  {
    RegisterKeeps(reg, source, if name.None? then CStrings.CString(source) else name.value);
    hide RegisterNamed, Ok, Extends, FileTitle;
  }

  lemma StepTracks(api: Api, s: State, steps: seq<Step>, step: Step)
    requires Ok(s.reg) && Enabled(api, s, step) && Tracks(s.reg, steps)
    ensures Tracks(Next(api, s, step).reg, steps + [step])
  {
    hide Ok, Tracks;
    if step.ToggleAt? {
      ToggledTracks(s.reg, steps, step.script, step.line);
    } else if step.DeleteBreakpoints? {
      DeletedTracks(s.reg, steps);
    } else {
      StepGrows(api, s, step);
      hide Next;
      GrownTracks(s.reg, Next(api, s, step).reg, steps, step);
    }
  }

  /** In every run a script lists exactly the lines toggled an odd number of times since the last delete. */
  lemma {:induction false} LinesAreToggles(api: Api, steps: seq<Step>)
    requires KnownApi(api) && Possible(api, NOTHING, steps)
    ensures Tracks(Final(api, NOTHING, steps).reg, steps)
    decreases |steps|
  {
    if steps != [] {
      var init, last := steps[..|steps| - 1], steps[|steps| - 1];
      assert steps == init + [last];
      RunInit(api, NOTHING, steps);
      hide Tracks, Next, Enabled;
      LinesAreToggles(api, init);
      RunSnoc(api, NOTHING, init, last);
      EveryRunSound(api, init);
      StepTracks(api, Final(api, NOTHING, init), init, last);
    }
  }

  // ----- where the debugger stops

  /** The script a function belongs to once the hook has seen it. */
  function ScriptSeen(reg: Registry, f: Frame): int
  {
    GetScriptIndex(RegisterSeen(reg, f.source), f.source)
  }

  lemma StopsFullyIff(api: Api, s: State, steps: seq<Step>, l: Lua, line: int)
    requires Ok(s.reg) && Tracks(s.reg, steps) && l in s.vms && l in s.stacks && s.stacks[l] != []
    ensures var k := ScriptSeen(s.reg, s.stacks[l][0]);
      && k >= 0
      && (s.vms[l].mode == Continue ==> (StopsFully(api, s, l, line) <==> line >= 1 && IsSet(steps, k, line - 1)))
      && (line >= 1 && IsSet(steps, k, line - 1) ==> StopsFully(api, s, l, line))
  {
    var f := s.stacks[l][0];
    var reg' := RegisterSeen(s.reg, f.source);
    SeenGrows(s.reg, f.source);
    GrownTracks(s.reg, reg', steps, Line(l, line));
    var k := ScriptSeen(s.reg, f);
    assert 0 <= k < |reg'.scripts| by {
      hide RegisterSeen;
    }
    if line >= 1 {
      hide RegisterSeen;
      SameTogglesAfter(steps, Line(l, line), k, line - 1);
    }
    hide RegisterSeen, Tracks, Toggles, Extends;
  }

  /**
   * In every run, guarded or not: with every line event delivered the debugger stops at a line in Continue mode exactly
   * if the line's breakpoint was toggled an odd number of times since the last delete, and in no mode passes over one.
   */
  lemma StopsAtSetLines(api: Api, steps: seq<Step>, l: Lua, line: int)
    requires KnownApi(api) && Possible(api, NOTHING, steps) && Enabled(api, Final(api, NOTHING, steps), Line(l, line))
    ensures var s := Final(api, NOTHING, steps); var k := ScriptSeen(s.reg, s.stacks[l][0]);
      && k >= 0
      && (s.vms[l].mode == Continue ==> (StopsFully(api, s, l, line) <==> line >= 1 && IsSet(steps, k, line - 1)))
      && (line >= 1 && IsSet(steps, k, line - 1) ==> StopsFully(api, s, l, line))
  {
    LinesAreToggles(api, steps);
    EveryRunSound(api, steps);
    hide Possible, Final, Tracks, StopsFully, Good;
    StopsFullyIff(api, Final(api, NOTHING, steps), steps, l, line);
  }

  /** So it does with the hooks it really installs, in guarded runs, at lines that count as being in their function. */
  lemma StopsIffSet(api: Api, steps: seq<Step>, l: Lua, line: int)
    requires KnownApi(api) && ValidRun(api, NOTHING, steps)
    requires var s := Final(api, NOTHING, steps);
      && Enabled(api, s, Line(l, line)) && s.vms[l].mode == Continue
      && s.stacks[l][0].linedefined != -1 && Visible(s.stacks[l][0], line)
    ensures var s := Final(api, NOTHING, steps); var k := ScriptSeen(s.reg, s.stacks[l][0]);
      k >= 0 && (Stops(api, s, l, line) <==> line >= 1 && IsSet(steps, k, line - 1))
  {
    StopsAtSetLines(api, steps, l, line);
    NoBreakpointLost(api, steps, l, line);
    hide Final, Stops, StopsFully;
  }

  /** A script not there yet has no line set, whatever was done: nobody can have toggled one. */
  lemma NewScriptBare(api: Api, steps: seq<Step>, k: nat, m: nat)
    requires KnownApi(api) && Possible(api, NOTHING, steps) && k >= |Final(api, NOTHING, steps).reg.scripts|
    ensures !IsSet(steps, k, m)
  {
    LinesAreToggles(api, steps);
    hide Toggles, Final;
  }

  // ----- what scanning the stack finds

  /** The scripts of the Lua functions among these. */
  function LuaSources(stack: seq<Frame>): set<string>
  {
    if stack == [] then {}
    else (if stack[0].linedefined != -1 then {stack[0].source} else {}) + LuaSources(stack[1..])
  }

  /** The first `n` functions have no breakpoint in them; the next one, if `found`, has. */
  ghost predicate FoundAt(reg: Registry, stack: seq<Frame>, found: bool, n: nat)
  {
    && (found ==> n < |stack| && stack[n].linedefined != -1 && HasBreakpoint(reg, stack[n]))
    && (!found ==> n == |stack|)
    && forall i :: 0 <= i < n <= |stack| && stack[i].linedefined != -1 ==> !HasBreakpoint(reg, stack[i])
  }

  lemma SeenNames(reg: Registry, name: string)
    ensures RegisterSeen(reg, name).names.Keys == reg.names.Keys + {name}
  {
    hide FileTitle;
  }

  /**
   * The scan stops at the first Lua function with a breakpoint in it, and finds nothing exactly if there is none; the
   * scripts it registers are those of the Lua functions up to there.
   */
  lemma {:induction false} ScanExactly(reg: Registry, stack: seq<Frame>) returns (n: nat)
    requires Ok(reg)
    ensures var (reg', found) := ScanStack(reg, stack);
      && FoundAt(reg', stack, found, n)
      && reg'.names.Keys == reg.names.Keys + LuaSources(stack[..if found then n + 1 else n])
    decreases |stack|
  {
    if stack == [] {
      n := 0;
    } else {
      var reg1 := if stack[0].linedefined == -1 then reg else RegisterSeen(reg, stack[0].source);
      if stack[0].linedefined != -1 {
        SeenGrows(reg, stack[0].source);
        SeenNames(reg, stack[0].source);
      }
      hide RegisterSeen, HasBreakpoint, Ok;
      if stack[0].linedefined != -1 && HasBreakpoint(reg1, stack[0]) {
        n := 0;
        assert stack[..1][1..] == [];
        assert LuaSources(stack[..1]) == {stack[0].source};
      } else {
        var k := ScanExactly(reg1, stack[1..]);
        n := k + 1;
        ScanOnward(reg, reg1, stack, k);
      }
    }
  }

  lemma ScanOnward(reg: Registry, reg1: Registry, stack: seq<Frame>, k: nat)
    requires Ok(reg1) && stack != []
    requires reg1.names.Keys == reg.names.Keys + if stack[0].linedefined == -1 then {} else {stack[0].source}
    requires stack[0].linedefined != -1 ==> !HasBreakpoint(reg1, stack[0])
    requires var (reg', found) := ScanStack(reg1, stack[1..]);
      && FoundAt(reg', stack[1..], found, k)
      && reg'.names.Keys == reg1.names.Keys + LuaSources(stack[1..][..if found then k + 1 else k])
    ensures var (reg', found) := ScanStack(reg1, stack[1..]);
      && FoundAt(reg', stack, found, k + 1)
      && reg'.names.Keys == reg.names.Keys + LuaSources(stack[..if found then k + 2 else k + 1])
  {
    hide ScanStack, HasBreakpoint, LuaSources, Ok, Extends, FoundAt;
    var (reg', found) := ScanStack(reg1, stack[1..]);
    ScanCorrect(reg1, stack[1..]);
    OkNames(reg1);
    if stack[0].linedefined != -1 {
      HasBreakpointStable(reg1, reg', stack[0]);
    }
    FoundOnward(reg', stack, found, k);
    SourcesOnward(stack, if found then k + 1 else k);
  }

  lemma FoundOnward(reg: Registry, stack: seq<Frame>, found: bool, k: nat)
    requires stack != [] && FoundAt(reg, stack[1..], found, k)
    requires stack[0].linedefined != -1 ==> !HasBreakpoint(reg, stack[0])
    ensures FoundAt(reg, stack, found, k + 1) && (found ==> k + 2 <= |stack|) && k + 1 <= |stack|
  {
    hide HasBreakpoint;
    forall i | 0 <= i < k + 1 && stack[i].linedefined != -1 ensures !HasBreakpoint(reg, stack[i]) {
      if i > 0 {
        assert stack[i] == stack[1..][i - 1];
      }
    }
  }

  lemma SourcesOnward(stack: seq<Frame>, m: nat)
    requires m < |stack|
    ensures LuaSources(stack[..m + 1])
         == (if stack[0].linedefined != -1 then {stack[0].source} else {}) + LuaSources(stack[1..][..m])
  {
    assert stack[..m + 1][0] == stack[0] && stack[..m + 1][1..] == stack[1..][..m];
  }

  // ----- the hook chosen

  ghost predicate SomeHasBreakpoint(reg: Registry, stack: seq<Frame>)
  {
    exists i :: 0 <= i < |stack| && stack[i].linedefined != -1 && HasBreakpoint(reg, stack[i])
  }

  /** The hook after a call or return in Continue mode. */
  function HookFor(any: bool, some: bool): HookMode
  {
    if !any then CallsAndReturns else if some then Full else CallsOnly
  }

  lemma NoneIfClean(reg: Registry, stack: seq<Frame>)
    requires Clean(reg, stack)
    ensures !SomeHasBreakpoint(reg, stack)
  {
    hide HasBreakpoint;
  }

  lemma FoundIffSome(reg: Registry, stack: seq<Frame>)
    requires Ok(reg)
    ensures var (reg', found) := ScanStack(reg, stack); found <==> SomeHasBreakpoint(reg', stack)
  {
    var n := ScanExactly(reg, stack);
    hide ScanStack, HasBreakpoint, LuaSources;
  }

  /** Whatever branch is taken: with a breakpoint set anywhere, full exactly if a function on the stack has one. */
  lemma ChosenExactly(api: Api, reg: Registry, vm: Vm, event: int, stack: seq<Frame>)
    requires stack != [] && Ok(reg) && VmReady(reg, vm, stack, IsHookEventCall(api, event)) && AnyBreakpoint(reg)
    ensures var (o, chosen) := ChooseMode(api, reg, vm, event, stack);
      && chosen == HookFor(true, SomeHasBreakpoint(o.reg, stack))
      && (o.vm.breakpointInStack <==> SomeHasBreakpoint(o.reg, stack))
  {
    var f := stack[0];
    var called := IsHookEventCall(api, event) && IsLua(f);
    var reg1 := if called then RegisterSeen(reg, f.source) else reg;
    if called {
      SeenGrows(reg, f.source);
    } else {
      GrowsItself(reg);
    }
    if called && HasBreakpoint(reg1, f) {
      hide RegisterSeen, HasBreakpoint, Clean;
      assert stack[0].linedefined != -1 && HasBreakpoint(reg1, stack[0]);
    } else if vm.breakpointInStack {
      hide RegisterSeen, HasBreakpoint, Clean, ScanStack, SomeHasBreakpoint;
      FoundIffSome(reg1, stack);
    } else {
      ChooseClean(api, reg, reg1, vm, event, stack);
      hide RegisterSeen, HasBreakpoint, Clean, SomeHasBreakpoint;
      NoneIfClean(reg1, stack);
    }
  }

  lemma HookAfterEvent(api: Api, reg: Registry, vm: Vm, event: int, stack: seq<Frame>)
    requires stack != [] && Ok(reg) && VmReady(reg, vm, stack, IsHookEventCall(api, event)) && event != HOOK_LINE
    requires vm.mode == Continue && (vm.haveActiveBreakpoints <==> AnyBreakpoint(reg)) && Delivered(api, vm.hook, event)
    ensures var o := Deliver(api, reg, vm, event, stack, 0).0;
      o.vm.hook == HookFor(AnyBreakpoint(reg), SomeHasBreakpoint(o.reg, stack))
  {
    ChooseKeepsFlag(api, reg, vm, event, stack);
    if AnyBreakpoint(reg) {
      ChosenExactly(api, reg, vm, event, stack);
    }
    hide ChooseMode, SomeHasBreakpoint, AnyBreakpoint, Ok, VmReady, Grows;
  }

  // ----- and over runs

  predicate IsCallOrReturn(step: Step) { step.Call? || step.TailCall? || step.Return? || step.TailReturn? }

  /** The stack the hook is shown. */
  function StackShown(s: State, step: Step): seq<Frame>
    requires IsCallOrReturn(step) && step.l in s.stacks && (step.TailCall? ==> s.stacks[step.l] != [])
  {
    match step
    case Call(l, f, _) => [f] + s.stacks[l]
    case TailCall(l, f, _) => [f] + s.stacks[l][1..]
    case Return(l) => s.stacks[l]
    case TailReturn(l) => [TAIL_FRAME] + s.stacks[l]
  }

  function EventOf(step: Step): int
    requires IsCallOrReturn(step)
  {
    match step
    case Call(_, _, event) => event
    case TailCall(_, _, event) => event
    case Return(_) => HOOK_RET
    case TailReturn(_) => HOOK_TAIL
  }

  /** A line is set in this function; any line of its script will do if it is a main chunk. */
  ghost predicate HasSetLine(reg: Registry, steps: seq<Step>, f: Frame)
  {
    && f.linedefined != -1 && f.source in reg.names
    && exists m: nat :: IsSet(steps, reg.names[f.source], m) && LineIn(f, m)
  }

  /** Lines are counted from zero here, so that the first line of the function is left out. */
  predicate LineIn(f: Frame, m: nat)
  {
    f.linedefined <= m < f.lastlinedefined || (f.linedefined == 0 && f.lastlinedefined == 0)
  }

  ghost predicate AnySet(steps: seq<Step>)
  {
    exists k: nat, m: nat :: IsSet(steps, k, m)
  }

  ghost predicate SomeHasSetLine(reg: Registry, steps: seq<Step>, stack: seq<Frame>)
  {
    exists i :: 0 <= i < |stack| && HasSetLine(reg, steps, stack[i])
  }

  lemma HasBreakpointIff(reg: Registry, steps: seq<Step>, f: Frame)
    requires Ok(reg) && Tracks(reg, steps)
    ensures f.linedefined != -1 && HasBreakpoint(reg, f) <==> HasSetLine(reg, steps, f)
  {
    hide Toggles, IsSet;
    OkNames(reg);
    if f.source in reg.names {
      var k := reg.names[f.source];
      var lines := reg.scripts[k].breakpoints;
      if HasBreakpoint(reg, f) {
        if InRange(lines, f.linedefined, f.lastlinedefined) {
          var i :| 0 <= i < |lines| && f.linedefined <= lines[i] < f.lastlinedefined;
          assert IsSet(steps, k, lines[i]) && LineIn(f, lines[i]);
        } else {
          assert lines[0] in lines;
          assert IsSet(steps, k, lines[0]) && LineIn(f, lines[0]);
        }
      }
      if HasSetLine(reg, steps, f) {
        var m: nat :| IsSet(steps, k, m) && LineIn(f, m);
        assert m in lines;
      }
    }
  }

  lemma AnyBreakpointIff(reg: Registry, steps: seq<Step>)
    requires Tracks(reg, steps)
    ensures AnyBreakpoint(reg) <==> AnySet(steps)
  {
    hide Toggles, IsSet;
    if AnyBreakpoint(reg) {
      var k :| 0 <= k < |reg.scripts| && reg.scripts[k].breakpoints != [];
      var m := reg.scripts[k].breakpoints[0];
      assert m in reg.scripts[k].breakpoints;
      assert IsSet(steps, k, m);
    }
    if AnySet(steps) {
      var k: nat, m: nat :| IsSet(steps, k, m);
      assert k < |reg.scripts| && m in reg.scripts[k].breakpoints;
    }
  }

  lemma SomeIff(reg: Registry, steps: seq<Step>, stack: seq<Frame>)
    requires Ok(reg) && Tracks(reg, steps)
    ensures SomeHasBreakpoint(reg, stack) <==> SomeHasSetLine(reg, steps, stack)
  {
    forall i | 0 <= i < |stack|
      ensures stack[i].linedefined != -1 && HasBreakpoint(reg, stack[i]) <==> HasSetLine(reg, steps, stack[i])
    {
      HasBreakpointIff(reg, steps, stack[i]);
    }
    hide HasBreakpoint, HasSetLine, Ok, Tracks;
  }

  /** What is known when the hook is called. */
  lemma ReadyForEvent(api: Api, s: State, step: Step)
    requires KnownApi(api) && Good(s) && IsCallOrReturn(step) && Enabled(api, s, step)
    ensures var stack, event := StackShown(s, step), EventOf(step);
      stack != [] && event != HOOK_LINE && VmReady(s.reg, s.vms[step.l], stack, IsHookEventCall(api, event))
    ensures var stack, event := StackShown(s, step), EventOf(step);
      var o := Deliver(api, s.reg, s.vms[step.l], event, stack, 0).0;
      Next(api, s, step).reg == o.reg && Next(api, s, step).vms == s.vms[step.l := o.vm]
  {
    hide Clean, AnyBreakpoint, Deliver, Ok;
    match step
    case Call(l, f, event) =>
      StackPushed(s.reg, s.vms[l], f, s.stacks[l]);
    case TailCall(l, f, event) =>
      StackTail(s.reg, s.vms[l], s.stacks[l]);
      StackPushed(s.reg, s.vms[l], f, s.stacks[l][1..]);
    case Return(l) =>
    case TailReturn(l) =>
      StackPushed(s.reg, s.vms[l], TAIL_FRAME, s.stacks[l]);
      assert ([TAIL_FRAME] + s.stacks[l])[1..] == s.stacks[l];
  }

  /**
   * The hook law: after a call or return in Continue mode, in every guarded run, calls and returns are asked for if no
   * line is set anywhere; else all events exactly if a line is set in a function on the stack, and calls only if not.
   */
  lemma HookIsExact(api: Api, steps: seq<Step>, step: Step)
    requires KnownApi(api) && ValidRun(api, NOTHING, steps) && IsCallOrReturn(step)
    requires var s := Final(api, NOTHING, steps);
      && Enabled(api, s, step) && s.vms[step.l].mode == Continue
      && Delivered(api, s.vms[step.l].hook, EventOf(step))
    ensures var s, t := Final(api, NOTHING, steps), Next(api, Final(api, NOTHING, steps), step);
      t.vms[step.l].hook == HookFor(AnySet(steps), SomeHasSetLine(t.reg, steps, StackShown(s, step)))
  {
    assert Good(NOTHING) && FlagsRight(NOTHING);
    RunKeepsGood(api, NOTHING, steps);
    LinesAreToggles(api, steps);
    var s := Final(api, NOTHING, steps);
    var t := Next(api, s, step);
    ReadyForEvent(api, s, step);
    NextKeeps(api, s, step);
    EventTracks(api, s, steps, step);
    hide Final, ValidRun, Possible, Next, Tracks, Deliver, VmReady, VmGood, SomeHasBreakpoint, AnyBreakpoint;
    HookAfterEvent(api, s.reg, s.vms[step.l], EventOf(step), StackShown(s, step));
    AnyBreakpointIff(s.reg, steps);
    SomeIff(t.reg, steps, StackShown(s, step));
  }

  lemma EventTracks(api: Api, s: State, steps: seq<Step>, step: Step)
    requires Ok(s.reg) && Enabled(api, s, step) && IsCallOrReturn(step) && Tracks(s.reg, steps)
    ensures Tracks(Next(api, s, step).reg, steps)
  {
    StepGrows(api, s, step);
    hide Next, Toggles, IsSet;
    var reg, reg' := s.reg, Next(api, s, step).reg;
    forall k: nat, m: nat | k < |reg'.scripts| ensures m in reg'.scripts[k].breakpoints <==> IsSet(steps, k, m) {
      if k < |reg.scripts| {
        assert reg'.scripts[k] == reg.scripts[k];
      } else {
        assert !IsSet(steps, k, m);
      }
    }
  }

  // ----- what the hook gets to know

  /** A Lua function called in Continue mode belongs to a known script from then on, and so does one at a line. */
  lemma CalledIsKnown(api: Api, s: State, l: Lua, f: Frame, event: int)
    requires KnownApi(api) && Good(s) && Enabled(api, s, Call(l, f, event))
    requires s.vms[l].mode == Continue && f.linedefined != -1
    ensures f.source in Next(api, s, Call(l, f, event)).reg.names
  {
    var stack := [f] + s.stacks[l];
    ChoosesKnown(api, s.reg, s.vms[l], event, stack);
    hide ChooseMode, Ok, Clean, VmGood, SomeActive;
    assert VmGood(s.reg, s.vms[l], s.stacks[l]);
    HooksSomething(s.reg, s.vms[l], s.stacks[l]);
  }

  lemma HooksSomething(reg: Registry, vm: Vm, stack: seq<Frame>)
    requires VmGood(reg, vm, stack)
    ensures vm.hook != HookNone
  {
  }

  lemma ChoosesKnown(api: Api, reg: Registry, vm: Vm, event: int, stack: seq<Frame>)
    requires Ok(reg) && stack != [] && IsHookEventCall(api, event) && stack[0].linedefined != -1
    ensures stack[0].source in ChooseMode(api, reg, vm, event, stack).0.reg.names
  {
    var reg1 := RegisterSeen(reg, stack[0].source);
    SeenGrows(reg, stack[0].source);
    hide RegisterSeen, HasBreakpoint, ScanStack, Ok, Clean;
    ScanCorrect(reg1, stack);
  }

  lemma LineIsKnown(api: Api, s: State, l: Lua, line: int)
    requires Good(s) && Enabled(api, s, Line(l, line)) && s.vms[l].hook == Full
    ensures s.stacks[l][0].source in Next(api, s, Line(l, line)).reg.names
  {
    var f := s.stacks[l][0];
    BeforeLineKeeps(api, s.reg, s.vms[l], s.stacks[l]);
    SeenGrows(s.reg, f.source);
    hide RegisterSeen, BeforeEvent, AtBreakpoint, AtStep, Ok, VmGood;
  }

  /** What each hook asks Lua for, tail calls and tail returns included where the version has them. */
  lemma EventsOfHooks(api: Api, hook: HookMode, event: int)
    requires KnownApi(api) && event in {HOOK_CALL, HOOK_RET, HOOK_LINE, HOOK_TAIL}
    ensures Delivered(api, hook, event) <==>
      match hook
      case HookNone => false
      case CallsOnly => event == 0 || (event == 4 && api.tailCall == 4)
      case CallsAndReturns => event == 0 || event == 1 || (event == 4 && (api.tailCall == 4 || api.tailRet == 4))
      case Full => event == 0 || event == 1 || event == 2 || (event == 4 && (api.tailCall == 4 || api.tailRet == 4))
  {
  }
}
