/**
 * The debugger's objects and the methods that update them in place. Each method is proved to do to the objects what the
 * functions of `Scripts`, `Debugger` and `Hooking` do to the values they stand for.
 */
module Backend {
  import opened Scripts
  import opened Debugger
  import opened Hooking
  import opened CStrings
  import opened Options

  class ScriptRecord {
    const title: string
    const source: string
    var breakpoints: seq<nat>

    constructor (title: string, source: string)
      ensures View() == Script(title, source, [])
    {
      this.title := title;
      this.source := source;
      breakpoints := [];
    }

    ghost function View(): Script
      reads this
    {
      Script(title, source, breakpoints)
    }

    method HasBreakPointInRange(start: int, end: int) returns (found: bool)
      ensures found == InRange(breakpoints, start, end)
    {
      for i := 0 to |breakpoints|
        invariant forall k :: 0 <= k < i ==> !(start <= breakpoints[k] < end)
      {
        if start <= breakpoints[i] && breakpoints[i] < end {
          return true;
        }
      }
      return false;
    }

    method GetHasBreakPoint(line: int) returns (found: bool)
      ensures found <==> line >= 0 && line in breakpoints
    {
      for i := 0 to |breakpoints|
        invariant forall k :: 0 <= k < i ==> breakpoints[k] != line
      {
        if breakpoints[i] == line {
          return true;
        }
      }
      return false;
    }

    method ToggleBreakpoint(line: nat) returns (added: bool)
      modifies this`breakpoints
      ensures breakpoints == ToggleLine(old(breakpoints), line)
      ensures added <==> line !in old(breakpoints)
    {
      var i := 0;
      while i < |breakpoints| && breakpoints[i] != line
        invariant 0 <= i <= |breakpoints|
        invariant forall k :: 0 <= k < i ==> breakpoints[k] != line
      {
        i := i + 1;
      }
      assert i == IndexOf(breakpoints, line);
      added := i == |breakpoints|;
      if added {
        breakpoints := breakpoints + [line];
      } else {
        breakpoints := breakpoints[..i] + breakpoints[i + 1..];
      }
    }

    method HasBreakpointsActive() returns (active: bool)
      ensures active <==> breakpoints != []
    {
      active := |breakpoints| != 0;
    }
  }

  class VirtualMachine {
    const l: Lua
    var mode: Mode
    var callCount: nat
    var breakpointInStack: bool
    var haveActiveBreakpoints: bool
    /** The hook Lua has installed for this machine. */
    var hook: HookMode

    constructor (l: Lua, active: bool, installed: HookMode)
      ensures this.l == l && View() == NewVm(active).(hook := installed)
    {
      this.l := l;
      callCount := 0;
      breakpointInStack := true;
      haveActiveBreakpoints := active;
      mode := Continue;
      hook := installed;
    }

    ghost function View(): Vm
      reads this
    {
      Vm(mode, callCount, breakpointInStack, haveActiveBreakpoints, hook)
    }

    method DoContinue()
      modifies this
      ensures View() == RunCommand(old(View()), Command.DoContinue)
    {
      callCount := 0;
      mode := Continue;
    }

    method DoStepOver()
      modifies this
      ensures View() == RunCommand(old(View()), Command.DoStepOver)
    {
      callCount := 0;
      mode := StepOver;
      hook := Full;
    }

    method DoStepInto()
      modifies this
      ensures View() == RunCommand(old(View()), Command.DoStepInto)
    {
      callCount := 0;
      mode := StepInto;
      hook := Full;
    }

    method DoStepOut()
      modifies this
      ensures View() == RunCommand(old(View()), Command.DoStepOut)
    {
      callCount := 1;
      mode := StepOut;
      hook := Full;
    }

    method DoBreak()
      modifies this
      ensures View() == RunCommand(old(View()), Command.DoBreak)
    {
      mode := StepInto;
      hook := Full;
    }
  }

  ghost function ScriptViews(scripts: seq<ScriptRecord>): seq<Script>
    reads scripts
  {
    seq(|scripts|, i requires 0 <= i < |scripts| reads scripts => scripts[i].View())
  }

  ghost function MachineViews(machines: map<Lua, VirtualMachine>): map<Lua, Vm>
    reads machines.Values
  {
    map l | l in machines :: machines[l].View()
  }

  ghost predicate Distinct(scripts: seq<ScriptRecord>)
  {
    forall i, j :: 0 <= i < j < |scripts| ==> scripts[i] != scripts[j]
  }

  /** The list and the table hold the same machines. */
  ghost predicate SameMachines(vms: seq<VirtualMachine>, stateToVm: map<Lua, VirtualMachine>)
  {
    && (forall i, j :: 0 <= i < j < |vms| ==> vms[i].l != vms[j].l)
    && ListedInTable(vms, stateToVm) && TableInList(vms, stateToVm)
  }

  ghost predicate ListedInTable(vms: seq<VirtualMachine>, stateToVm: map<Lua, VirtualMachine>)
  {
    forall i :: 0 <= i < |vms| ==> vms[i].l in stateToVm && stateToVm[vms[i].l] == vms[i]
  }

  ghost predicate TableInList(vms: seq<VirtualMachine>, stateToVm: map<Lua, VirtualMachine>)
  {
    forall l :: l in stateToVm ==> stateToVm[l] in vms && stateToVm[l].l == l
  }

  /** A class name a script has registered, with the reference to its metatable. */
  datatype ClassInfo = ClassInfo(l: Lua, name: string, metaTableRef: int)

  function InfosOfOthers(infos: seq<ClassInfo>, l: Lua): seq<ClassInfo>
  {
    if infos == [] then []
    else (if infos[0].l == l then [] else [infos[0]]) + InfosOfOthers(infos[1..], l)
  }

  /**
   * What the debugger finds when a state calls it: whether a front end is attached, whether the state's stack has room
   * for two and for three more values, and the hook Lua has installed for the state so far.
   */
  datatype Situation = Situation(attached: bool, roomForTwo: bool, roomForThree: bool, installed: HookMode)

  class DebugBackend {
    var classInfos: seq<ClassInfo>
    var scripts: seq<ScriptRecord>
    var nameToScript: map<string, nat>
    var vms: seq<VirtualMachine>
    var stateToVm: map<Lua, VirtualMachine>

    constructor ()
      ensures Valid() && Reg() == NOTHING.reg && Machines() == NOTHING.vms && classInfos == []
    {
      classInfos := [];
      scripts := [];
      nameToScript := map[];
      vms := [];
      stateToVm := map[];
    }

    // ----- the values the objects stand for

    ghost function Reg(): Registry
      reads `scripts, `nameToScript, scripts
    {
      Registry(ScriptViews(scripts), nameToScript)
    }

    ghost function Machines(): map<Lua, Vm>
      reads `stateToVm, stateToVm.Values
    {
      MachineViews(stateToVm)
    }

    ghost predicate ScriptsValid()
      reads `scripts, `nameToScript, scripts
    {
      Distinct(scripts) && Ok(Reg())
    }

    ghost predicate Valid()
      reads `scripts, `nameToScript, scripts, `vms, `stateToVm
    {
      ScriptsValid() && SameMachines(vms, stateToVm)
    }

    // ----- machines come and go

    /** A new machine stays in the list even if there is no room to go on; then its hook is not touched. */
    method AttachState(l: Lua, now: Situation) returns (vm: VirtualMachine?)
      requires Valid()
      modifies this`vms, this`stateToVm
      ensures Valid()
      ensures !now.attached ==> vm == null
      ensures !now.attached || l in old(stateToVm) ==> vms == old(vms) && stateToVm == old(stateToVm)
      ensures now.attached && l in old(stateToVm) ==> vm == stateToVm[l]
      ensures now.attached && l !in old(stateToVm) ==>
        && l in stateToVm && fresh(stateToVm[l]) && vms == old(vms) + [stateToVm[l]]
        && stateToVm == old(stateToVm)[l := stateToVm[l]] && vm == (if now.roomForThree then stateToVm[l] else null)
        && var made := NewVm(SomeActive(old(Machines())));
           Machines() == old(Machines())[l := if now.roomForThree then made else made.(hook := now.installed)]
    {
      if !now.attached {
        return null;
      }
      hide Ok, SameMachines, ScriptViews, SomeActiveIn;
      var hasBreakPoint := false;
      var left := stateToVm.Keys;
      NoneActiveIn(stateToVm.Keys - left, Machines());
      while left != {}
        modifies {}
        invariant left <= stateToVm.Keys && (l in stateToVm ==> l in left)
        invariant hasBreakPoint <==> SomeActiveIn(stateToVm.Keys - left, Machines())
      {
        var k :| k in left;
        if k == l {
          SameMachinesAt(vms, stateToVm, l);
          return stateToVm[k];
        }
        if stateToVm[k].haveActiveBreakpoints {
          hasBreakPoint := true;
        }
        ghost var seen := stateToVm.Keys - left;
        OneMoreIn(seen, k, Machines());
        left := left - {k};
        assert stateToVm.Keys - left == seen + {k};
      }
      AllIn(stateToVm.Keys - left, Machines());
      vm := AddMachine(l, hasBreakPoint, now);
    }

    /** The second part of attaching a state. */
    method AddMachine(l: Lua, hasBreakPoint: bool, now: Situation) returns (vm: VirtualMachine?)
      requires Valid() && l !in stateToVm
      modifies this`vms, this`stateToVm
      ensures Valid() && l in stateToVm && fresh(stateToVm[l]) && vms == old(vms) + [stateToVm[l]]
      ensures stateToVm == old(stateToVm)[l := stateToVm[l]] && vm == (if now.roomForThree then stateToVm[l] else null)
      ensures var made := NewVm(hasBreakPoint);
        Machines() == old(Machines())[l := if now.roomForThree then made else made.(hook := now.installed)]
    {
      hide Ok, SameMachines, ScriptViews;
      vm := new VirtualMachine(l, hasBreakPoint, now.installed);
      MachineAdded(vms, stateToVm, vm);
      vms := vms + [vm];
      stateToVm := stateToVm[l := vm];
      if !now.roomForThree {
        return null;
      }
      vm.hook := Full;
    }

    /** The first loop of detaching a state. */
    method RemoveClassInfos(l: Lua)
      modifies this`classInfos
      ensures classInfos == InfosOfOthers(old(classInfos), l)
    {
      ghost var rest := classInfos;
      var i := 0;
      while i < |classInfos|
        invariant i <= |classInfos| && rest == classInfos[i..]
        invariant classInfos[..i] + InfosOfOthers(rest, l) == InfosOfOthers(old(classInfos), l)
        decreases |classInfos| - i
      {
        ghost var kept := classInfos[..i];
        if classInfos[i].l == l {
          classInfos := classInfos[..i] + classInfos[i + 1..];
          assert classInfos[..i] == kept;
        } else {
          i := i + 1;
          assert classInfos[..i] == kept + [rest[0]];
        }
        rest := rest[1..];
      }
      assert classInfos[..i] == classInfos;
    }

    method DetachState(l: Lua)
      requires Valid()
      modifies this`vms, this`stateToVm, this`classInfos
      ensures Valid()
      ensures Machines() == old(Machines()) - {l}
      ensures classInfos == InfosOfOthers(old(classInfos), l)
    {
      hide Ok, SameMachines, ScriptViews, InfosOfOthers;
      RemoveClassInfos(l);
      stateToVm := stateToVm - {l};
      ghost var p := PositionOf(vms, l);
      var i := 0;
      while i < |vms|
        invariant 0 <= i && stateToVm == old(stateToVm) - {l} && classInfos == InfosOfOthers(old(classInfos), l)
        invariant vms == if i <= p then old(vms) else Without(old(vms), p)
      {
        OnlyOne(old(vms), old(stateToVm), l, i);
        if vms[i].l == l {
          vms := vms[..i] + vms[i + 1..];
        }
        i := i + 1;
      }
      MachineRemoved(old(vms), old(stateToVm), l);
    }

    // ----- breakpoints

    /** The table of machines as seen by its keys: different keys, different machines. */
    ghost predicate Keyed()
      reads `stateToVm
    {
      forall l :: l in stateToVm ==> stateToVm[l].l == l
    }

    method ActiveLuaHookInAllVms()
      requires Keyed()
      modifies stateToVm.Values
      ensures forall l :: l in stateToVm ==> stateToVm[l].View() == old(stateToVm[l].View()).(hook := Full)
    {
      var left := stateToVm.Keys;
      while left != {}
        invariant left <= stateToVm.Keys
        invariant forall l :: l in left ==> stateToVm[l].View() == old(stateToVm[l].View())
        invariant forall l :: l in stateToVm && l !in left ==>
          stateToVm[l].View() == old(stateToVm[l].View()).(hook := Full)
      {
        var k :| k in left;
        stateToVm[k].hook := Full;
        left := left - {k};
      }
    }

    method SetHaveActiveBreakpoints(breakpointsActive: bool)
      requires Keyed()
      modifies stateToVm.Values
      ensures Machines() == SetAllActive(old(Machines()), breakpointsActive)
    {
      var left := stateToVm.Keys;
      while left != {}
        invariant left <= stateToVm.Keys
        invariant forall l :: l in left ==> stateToVm[l].View() == old(stateToVm[l].View())
        invariant forall l :: l in stateToVm && l !in left ==>
          stateToVm[l].View() == Flagged(old(stateToVm[l].View()), breakpointsActive)
      {
        var k :| k in left;
        stateToVm[k].haveActiveBreakpoints := breakpointsActive;
        stateToVm[k].breakpointInStack := breakpointsActive;
        left := left - {k};
      }
      if breakpointsActive {
        ActiveLuaHookInAllVms();
      }
    }

    method GetHaveActiveBreakpoints() returns (active: bool)
      ensures active == AnyBreakpoint(Reg())
    {
      for i := 0 to |scripts|
        invariant forall k :: 0 <= k < i ==> Reg().scripts[k].breakpoints == []
      {
        var scriptActive := scripts[i].HasBreakpointsActive();
        if scriptActive {
          assert Reg().scripts[i].breakpoints != [];
          return true;
        }
      }
      return false;
    }

    method ToggleBreakpoint(scriptIndex: nat, line: nat) returns (breakpointSet: bool)
      requires Valid() && scriptIndex < |scripts|
      modifies scripts, stateToVm.Values
      ensures Valid()
      ensures (Reg(), Machines()) == AfterToggle(old(Reg()), old(Machines()), scriptIndex, line)
      ensures breakpointSet <==> line !in old(scripts[scriptIndex].breakpoints)
    {
      hide Ok, SameMachines, AnyBreakpoint, SetAllActive, ClearActive, ToggleLine;
      KeyedByName(vms, stateToVm);
      breakpointSet := scripts[scriptIndex].ToggleBreakpoint(line);
      assert Reg() == Toggle(old(Reg()), scriptIndex, line);
      ToggleKeeps(old(Reg()), scriptIndex, line);
      if breakpointSet {
        SetHaveActiveBreakpoints(true);
      } else {
        var active := GetHaveActiveBreakpoints();
        if !active {
          ClearHaveActiveBreakpoints();
        }
      }
    }

    /** The last breakpoint is gone: only the flags are lowered. */
    method ClearHaveActiveBreakpoints()
      requires Keyed()
      modifies stateToVm.Values
      ensures Machines() == ClearActive(old(Machines()))
    {
      var left := stateToVm.Keys;
      while left != {}
        invariant left <= stateToVm.Keys
        invariant forall l :: l in left ==> stateToVm[l].View() == old(stateToVm[l].View())
        invariant forall l :: l in stateToVm && l !in left ==>
          stateToVm[l].View() == old(stateToVm[l].View()).(haveActiveBreakpoints := false)
      {
        var k :| k in left;
        stateToVm[k].haveActiveBreakpoints := false;
        left := left - {k};
      }
    }

    method DeleteAllBreakpoints()
      requires Valid()
      modifies scripts, stateToVm.Values
      ensures Valid()
      ensures Reg() == DeleteAll(old(Reg())) && Machines() == SetAllActive(old(Machines()), false)
    {
      for i := 0 to |scripts|
        modifies scripts
        invariant forall k :: 0 <= k < i ==> scripts[k].View() == old(scripts[k].View()).(breakpoints := [])
        invariant forall k :: i <= k < |scripts| ==> scripts[k].View() == old(scripts[k].View())
      {
        scripts[i].breakpoints := [];
      }
      assert Reg() == DeleteAll(old(Reg()));
      DeleteAllKeeps(old(Reg()));
      SetHaveActiveBreakpoints(false);
    }

    // ----- scripts

    /** The index of a script just added, or -1. */
    method RegisterScript(source: string, name: Option<string>) returns (scriptIndex: int)
      requires ScriptsValid()
      modifies `scripts, `nameToScript
      ensures ScriptsValid() && old(scripts) <= scripts
      ensures Registered(Reg(), scriptIndex) == Register(old(Reg()), source, name)
    {
      hide Ok, FileTitle, CString;
      var scriptName := if name.None? then CString(source) else name.value;
      RegisterKeeps(Reg(), source, scriptName);
      if scriptName in nameToScript {
        return -1;
      }
      var title := FileTitle(scriptName);
      for i := 0 to |scripts|
        modifies `nameToScript
        invariant nameToScript == old(nameToScript)
        invariant forall k :: 0 <= k < i ==> scripts[k].title != title || scripts[k].source != source
      {
        if scripts[i].title == title {
          if scripts[i].source == source {
            FoundFirst(Reg().scripts, title, source, i);
            nameToScript := nameToScript[scriptName := i];
            return -1;
          }
        }
      }
      FoundFirst(Reg().scripts, title, source, |scripts|);
      var script := new ScriptRecord(title, source);
      scriptIndex := |scripts|;
      scripts := scripts + [script];
      nameToScript := nameToScript[scriptName := scriptIndex];
      assert ScriptViews(scripts) == old(Reg()).scripts + [script.View()];
    }

    /** A function's script seen by the hook; only the code of chunks not read from files is at hand. */
    method RegisterRunning(arsource: string) returns (scriptIndex: int)
      requires ScriptsValid() && arsource !in nameToScript
      modifies `scripts, `nameToScript
      ensures ScriptsValid() && old(scripts) <= scripts
      ensures Reg() == RegisterSeen(old(Reg()), arsource)
      ensures scriptIndex == GetScriptIndex(Reg(), arsource) && 0 <= scriptIndex < |scripts|
    {
      hide Ok, RegisterNamed;
      SeenResolves(Reg(), arsource);
      var source := if arsource != "" && arsource[0] == '@' then "" else arsource;
      var _ := RegisterScript(source, Some(arsource));
      scriptIndex := if arsource in nameToScript then nameToScript[arsource] else -1;
    }

    /** The test both users of the call stack make of a function. */
    method FunctionHasBreakpoint(f: Frame) returns (found: bool)
      requires ScriptsValid()
      ensures found == HasBreakpoint(Reg(), f)
    {
      hide Ok;
      if f.source !in nameToScript || nameToScript[f.source] >= |scripts| {
        return false;
      }
      var script := scripts[nameToScript[f.source]];
      assert Reg().scripts[nameToScript[f.source]] == script.View();
      found := script.HasBreakPointInRange(f.linedefined, f.lastlinedefined);
      if !found {
        found := script.HasBreakpointsActive();
        found := found && f.linedefined == 0 && f.lastlinedefined == 0;
      }
    }

    method StackHasBreakpoint(stack: seq<Frame>) returns (found: bool)
      requires ScriptsValid()
      modifies `scripts, `nameToScript
      ensures ScriptsValid() && old(scripts) <= scripts
      ensures (Reg(), found) == ScanStack(old(Reg()), stack)
    {
      hide Ok, RegisterSeen, HasBreakpoint;
      var stackIndex := 0;
      while stackIndex < |stack|
        invariant 0 <= stackIndex <= |stack| && ScriptsValid() && old(scripts) <= scripts
        invariant ScanStack(Reg(), stack[stackIndex..]) == ScanStack(old(Reg()), stack)
      {
        var f := stack[stackIndex];
        assert stack[stackIndex..][0] == f && stack[stackIndex..][1..] == stack[stackIndex + 1..];
        if f.linedefined != -1 {
          if f.source !in nameToScript {
            var _ := RegisterRunning(f.source);
          } else {
            SeenAlready(Reg(), f.source);
          }
          found := FunctionHasBreakpoint(f);
          if found {
            return;
          }
        }
        stackIndex := stackIndex + 1;
      }
      return false;
    }

    // ----- the hook

    /** The first part of updating the hook: the cheapest hook that will do for the functions running. */
    method ChooseMode(api: Api, vm: VirtualMachine, event: int, stack: seq<Frame>) returns (mode: HookMode)
      requires ScriptsValid() && stack != []
      modifies `scripts, `nameToScript, vm`breakpointInStack
      ensures ScriptsValid() && old(scripts) <= scripts
      ensures (Outcome(Reg(), vm.View()), mode) == Debugger.ChooseMode(api, old(Reg()), old(vm.View()), event, stack)
    {
      hide Ok, RegisterSeen, HasBreakpoint, ScanStack;
      mode := CallsOnly;
      var f := stack[0];
      if IsHookEventCall(api, event) && f.linedefined != -1 {
        if f.source !in nameToScript {
          var _ := RegisterRunning(f.source);
        } else {
          SeenAlready(Reg(), f.source);
        }
        var found := FunctionHasBreakpoint(f);
        if found {
          mode := Full;
          vm.breakpointInStack := true;
        }
      }
      if mode != Full && vm.breakpointInStack {
        var found := StackHasBreakpoint(stack);
        if found {
          mode := Full;
        } else {
          vm.breakpointInStack := false;
        }
      }
    }

    method UpdateHookMode(api: Api, vm: VirtualMachine, event: int, stack: seq<Frame>)
      requires ScriptsValid() && stack != []
      modifies `scripts, `nameToScript, vm
      ensures ScriptsValid() && old(scripts) <= scripts
      ensures Outcome(Reg(), vm.View()) == Debugger.UpdateHookMode(api, old(Reg()), old(vm.View()), event, stack)
    {
      hide Ok, Debugger.ChooseMode;
      if event == HOOK_LINE {
        return;
      }
      var mode := ChooseMode(api, vm, event, stack);
      if !vm.haveActiveBreakpoints {
        mode := CallsAndReturns;
      }
      if vm.hook != mode {
        if vm.mode != Continue {
          mode := Full;
        }
        vm.hook := mode;
      }
    }

    /** Without room for two values nothing happens. A state the debugger could not attach would crash it. */
    method HookCallback(api: Api, l: Lua, now: Situation, event: int, stack: seq<Frame>, currentLine: int)
      returns (stop: bool)
      requires Valid() && stack != []
      requires now.roomForTwo && l !in stateToVm ==> now.attached && now.roomForThree
      modifies `scripts, `nameToScript, `vms, `stateToVm, stateToVm.Values
      ensures Valid() && old(scripts) <= scripts
      ensures !now.roomForTwo ==> !stop && Reg() == old(Reg()) && Machines() == old(Machines())
      ensures now.roomForTwo ==>
        var before := old(Machines());
        var machines := if l in old(stateToVm) then before else before[l := NewVm(SomeActive(before))];
        var (o, stops) := Debugger.HookCallback(api, old(Reg()), machines[l], event, stack, currentLine);
        Reg() == o.reg && Machines() == machines[l := o.vm] && stop == stops
    {
      hide Ok, SameMachines, ScriptViews, SomeActive, Debugger.HookCallback;
      if !now.roomForTwo {
        return false;
      }
      var vm: VirtualMachine? := if l in stateToVm then stateToVm[l] else null;
      if vm == null {
        vm := AttachState(l, now);
      }
      ghost var machines := Machines();
      KeyedByName(vms, stateToVm);
      stop := HandleEvent(api, vm, event, stack, currentLine);
      assert Machines() == machines[l := vm.View()];
    }

    method HandleEvent(api: Api, vm: VirtualMachine, event: int, stack: seq<Frame>, currentLine: int)
      returns (stop: bool)
      requires ScriptsValid() && stack != []
      modifies `scripts, `nameToScript, vm
      ensures ScriptsValid() && old(scripts) <= scripts
      ensures (Outcome(Reg(), vm.View()), stop)
           == Debugger.HookCallback(api, old(Reg()), old(vm.View()), event, stack, currentLine)
    {
      hide Ok, RegisterSeen, Debugger.UpdateHookMode;
      if vm.mode == Continue {
        UpdateHookMode(api, vm, event, stack);
      } else {
        if vm.hook != Full {
          vm.hook := Full;
        }
        vm.breakpointInStack := true;
      }
      stop := false;
      if event == HOOK_LINE {
        stop := AtLine(vm, stack[0].source, currentLine);
      } else if vm.mode == StepOver || vm.mode == StepOut {
        if IsHookEventRet(api, event) {
          if vm.callCount > 0 {
            vm.callCount := vm.callCount - 1;
          }
        } else if IsHookEventCall(api, event) {
          vm.callCount := vm.callCount + 1;
        }
      }
    }

    method AtLine(vm: VirtualMachine, arsource: string, currentLine: int) returns (stop: bool)
      requires ScriptsValid()
      modifies `scripts, `nameToScript
      ensures ScriptsValid() && old(scripts) <= scripts
      ensures Reg() == RegisterSeen(old(Reg()), arsource)
      ensures stop <==> AtBreakpoint(Reg(), arsource, currentLine) || AtStep(vm.View())
    {
      hide Ok, RegisterSeen;
      var scriptIndex: int;
      if arsource in nameToScript {
        scriptIndex := nameToScript[arsource];
        SeenAlready(Reg(), arsource);
        NamesInRange(Reg(), arsource);
      } else {
        scriptIndex := RegisterRunning(arsource);
      }
      stop := scripts[scriptIndex].GetHasBreakPoint(currentLine - 1);
      assert Reg().scripts[scriptIndex] == scripts[scriptIndex].View();
      if vm.mode == StepInto || (vm.mode == StepOver && vm.callCount == 0)
        || (vm.mode == StepOut && vm.callCount == 0)
      {
        stop := true;
      }
    }
  }

  lemma {:induction false} OthersKept(infos: seq<ClassInfo>, l: Lua, info: ClassInfo)
    ensures info in InfosOfOthers(infos, l) <==> info in infos && info.l != l
  {
    if infos != [] {
      OthersKept(infos[1..], l, info);
      assert info in infos <==> info == infos[0] || info in infos[1..];
    }
  }

  /** Each is kept or not for itself, and in its place. */
  lemma {:induction false} OthersInOrder(a: seq<ClassInfo>, b: seq<ClassInfo>, l: Lua)
    ensures InfosOfOthers(a + b, l) == InfosOfOthers(a, l) + InfosOfOthers(b, l)
    ensures |a| == 1 ==> InfosOfOthers(a, l) == if a[0].l == l then [] else a
  {
    hide InfosOfOthers;
    NoOthers(l);
    if a == [] {
      assert a + b == b;
    } else {
      assert (a + b)[0] == a[0] && (a + b)[1..] == a[1..] + b;
      FirstOfOthers(a + b, l);
      FirstOfOthers(a, l);
      OthersInOrder(a[1..], b, l);
    }
  }

  lemma NoOthers(l: Lua)
    ensures InfosOfOthers([], l) == []
  {
  }

  lemma FirstOfOthers(infos: seq<ClassInfo>, l: Lua)
    requires infos != []
    ensures InfosOfOthers(infos, l) == (if infos[0].l == l then [] else [infos[0]]) + InfosOfOthers(infos[1..], l)
  {
  }

  lemma FoundFirst(scripts: seq<Script>, title: string, source: string, i: nat)
    requires i <= |scripts| && forall k :: 0 <= k < i ==> scripts[k].title != title || scripts[k].source != source
    requires i < |scripts| ==> scripts[i].title == title && scripts[i].source == source
    ensures FindScript(scripts, title, source, 0) == i
  {
  }

  lemma SeenAlready(reg: Registry, name: string)
    requires name in reg.names
    ensures RegisterSeen(reg, name) == reg
  {
  }

  lemma SeenResolves(reg: Registry, name: string)
    requires Ok(reg)
    ensures var after := RegisterSeen(reg, name); name in after.names && after.names[name] < |after.scripts|
  {
    SeenKeeps(reg, name);
    hide RegisterSeen, FileTitle;
  }

  lemma NamesInRange(reg: Registry, name: string)
    requires Ok(reg) && name in reg.names
    ensures reg.names[name] < |reg.scripts|
  {
    hide FileTitle;
  }

  function Flagged(vm: Vm, active: bool): Vm
  {
    vm.(haveActiveBreakpoints := active, breakpointInStack := active)
  }

  ghost predicate SomeActiveIn(keys: set<Lua>, machines: map<Lua, Vm>)
  {
    exists k :: k in keys && k in machines && machines[k].haveActiveBreakpoints
  }

  lemma NoneActiveIn(keys: set<Lua>, machines: map<Lua, Vm>)
    requires keys == {}
    ensures !SomeActiveIn(keys, machines)
  {
  }

  lemma OneMoreIn(keys: set<Lua>, k: Lua, machines: map<Lua, Vm>)
    requires k in machines
    ensures SomeActiveIn(keys + {k}, machines) <==> SomeActiveIn(keys, machines) || machines[k].haveActiveBreakpoints
  {
  }

  lemma AllIn(keys: set<Lua>, machines: map<Lua, Vm>)
    requires keys == machines.Keys
    ensures SomeActiveIn(keys, machines) <==> SomeActive(machines)
  {
  }

  function PositionOf(vms: seq<VirtualMachine>, l: Lua): (p: nat)
    ensures p <= |vms| && (p < |vms| ==> vms[p].l == l) && forall k :: 0 <= k < p ==> vms[k].l != l
  {
    if vms == [] || vms[0].l == l then 0 else 1 + PositionOf(vms[1..], l)
  }

  function Without(vms: seq<VirtualMachine>, p: nat): seq<VirtualMachine>
  {
    if p < |vms| then vms[..p] + vms[p + 1..] else vms
  }

  lemma SameMachinesAt(vms: seq<VirtualMachine>, stateToVm: map<Lua, VirtualMachine>, l: Lua)
    requires SameMachines(vms, stateToVm) && l in stateToVm
    ensures stateToVm[l].l == l && stateToVm[l] in vms
  {
  }

  lemma KeyedByName(vms: seq<VirtualMachine>, stateToVm: map<Lua, VirtualMachine>)
    requires SameMachines(vms, stateToVm)
    ensures forall l :: l in stateToVm ==> stateToVm[l].l == l
  {
  }

  lemma OnlyOne(vms: seq<VirtualMachine>, stateToVm: map<Lua, VirtualMachine>, l: Lua, i: nat)
    requires SameMachines(vms, stateToVm)
    ensures var p := PositionOf(vms, l);
      if i <= p then i < |vms| ==> (vms[i].l == l <==> i == p) else i < |Without(vms, p)| ==> Without(vms, p)[i].l != l
  {
    hide PositionOf;
  }

  lemma MachineAdded(vms: seq<VirtualMachine>, stateToVm: map<Lua, VirtualMachine>, vm: VirtualMachine)
    requires SameMachines(vms, stateToVm) && vm.l !in stateToVm
    ensures SameMachines(vms + [vm], stateToVm[vm.l := vm])
  {
    var vms', table := vms + [vm], stateToVm[vm.l := vm];
    assert vms'[|vms|] == vm;
    forall l | l in table ensures table[l] in vms' {
      if l != vm.l {
        var i :| 0 <= i < |vms| && vms[i] == stateToVm[l];
        assert vms'[i] == table[l];
      }
    }
  }

  lemma MachineRemoved(vms: seq<VirtualMachine>, stateToVm: map<Lua, VirtualMachine>, l: Lua)
    requires SameMachines(vms, stateToVm)
    ensures SameMachines(Without(vms, PositionOf(vms, l)), stateToVm - {l})
  {
    hide PositionOf, TableInList;
    var p := PositionOf(vms, l);
    var now := Without(vms, p);
    assert forall i :: 0 <= i < |now| ==> now[i] == vms[if i < p then i else i + 1];
    RemovedFromTable(vms, stateToVm, p, l);
  }

  lemma RemovedFromTable(vms: seq<VirtualMachine>, stateToVm: map<Lua, VirtualMachine>, p: nat, l: Lua)
    requires TableInList(vms, stateToVm) && (p < |vms| ==> vms[p].l == l)
    ensures TableInList(Without(vms, p), stateToVm - {l})
  {
    hide Without;
    forall m | m in stateToVm - {l}
      ensures stateToVm[m] in Without(vms, p)
    {
      StillListed(vms, p, stateToVm[m]);
    }
  }

  lemma StillListed(vms: seq<VirtualMachine>, p: nat, vm: VirtualMachine)
    requires vm in vms && (p < |vms| ==> vm != vms[p])
    ensures vm in Without(vms, p)
  {
    var j :| 0 <= j < |vms| && vms[j] == vm;
    assert p < |vms| ==> Without(vms, p)[if j < p then j else j - 1] == vm;
  }
}
