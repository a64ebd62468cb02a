/**
 * The registry of scripts. Several names can stand for one script: a name is tied to the script with the same file
 * title and source, and a script is added only if there is none.
 */
module Scripts {
  import opened CStrings
  import opened Options

  /** A script as the debugger knows it; `breakpoints` are lines counted from zero. */
  datatype Script = Script(title: string, source: string, breakpoints: seq<nat>)

  datatype Registry = Registry(scripts: seq<Script>, names: map<string, nat>)

  /** The part of a path after the last slash of either kind. */
  function FileTitle(name: string): string
  {
    if '/' !in name && '\\' !in name then name else FileTitle(name[1..])
  }

  lemma {:induction false} FileTitleIsAfterLastSlash(name: string)
    ensures var t := FileTitle(name);
      && '/' !in t && '\\' !in t && |t| <= |name| && t == name[|name| - |t|..]
      && (|t| < |name| ==> name[|name| - |t| - 1] == '/' || name[|name| - |t| - 1] == '\\')
  {
    if '/' in name || '\\' in name {
      FileTitleIsAfterLastSlash(name[1..]);
      var t := FileTitle(name);
      if |t| == |name| - 1 {
        assert name[1..] == t;
        assert name == [name[0]] + t;
      }
    }
  }

  /** The index of the first script from `k` on with this title and source; the length if there is none. */
  function FindScript(scripts: seq<Script>, title: string, source: string, k: nat): (i: nat)
    requires k <= |scripts|
    ensures k <= i <= |scripts|
    ensures i < |scripts| ==> scripts[i].title == title && scripts[i].source == source
    ensures forall j :: k <= j < i ==> scripts[j].title != title || scripts[j].source != source
    decreases |scripts| - k
  {
    if k == |scripts| || (scripts[k].title == title && scripts[k].source == source) then k
    else FindScript(scripts, title, source, k + 1)
  }

  /** -1 for a name not seen before. */
  function GetScriptIndex(reg: Registry, name: string): int
  {
    if name in reg.names then reg.names[name] else -1
  }

  /** The registry afterwards, and the index of the script that was added or -1. */
  datatype Registered = Registered(reg: Registry, added: int)

  function RegisterNamed(reg: Registry, source: string, name: string): Registered
  {
    if name in reg.names then Registered(reg, -1)
    else RegisterUnder(reg, FileTitle(name), source, name)
  }

  function RegisterUnder(reg: Registry, title: string, source: string, name: string): Registered
  {
    var i := FindScript(reg.scripts, title, source, 0);
    if i < |reg.scripts| then Registered(Registry(reg.scripts, reg.names[name := i]), -1)
    else Registered(Registry(reg.scripts + [Script(title, source, [])], reg.names[name := i]), i)
  }

  /** A script loaded without a name goes by its source. */
  function Register(reg: Registry, source: string, name: Option<string>): Registered
  {
    RegisterNamed(reg, source, if name.None? then CString(source) else name.value)
  }

  /** Registration of a function's script seen for the first time by the hook: a file's source is not available. */
  function RegisterSeen(reg: Registry, name: string): Registry
  {
    if name in reg.names then reg
    else RegisterNamed(reg, if name != "" && name[0] == '@' then "" else name, name).reg
  }

  // ----- what holds in every reachable state

  ghost predicate Ok(reg: Registry)
  {
    NamesOk(reg) && PairsOk(reg.scripts) && LinesOk(reg.scripts)
  }

  /** Every name leads to a script with its file title. */
  ghost predicate NamesOk(reg: Registry)
  {
    forall n :: n in reg.names ==> reg.names[n] < |reg.scripts| && reg.scripts[reg.names[n]].title == FileTitle(n)
  }

  /** No two scripts have the same title and source. */
  ghost predicate PairsOk(scripts: seq<Script>)
  {
    forall i, j :: 0 <= i < j < |scripts| ==>
      scripts[i].title != scripts[j].title || scripts[i].source != scripts[j].source
  }

  /** No script lists a line twice. */
  ghost predicate LinesOk(scripts: seq<Script>)
  {
    forall i :: 0 <= i < |scripts| ==> NoDuplicates(scripts[i].breakpoints)
  }

  predicate NoDuplicates(s: seq<nat>)
  {
    forall i, j :: 0 <= i < j < |s| ==> s[i] != s[j]
  }

  /** `after` knows everything `before` knows: names keep their index, scripts their place and contents. */
  predicate Extends(before: Registry, after: Registry)
  {
    && |before.scripts| <= |after.scripts|
    && (forall i :: 0 <= i < |before.scripts| ==> after.scripts[i] == before.scripts[i])
    && before.names.Keys <= after.names.Keys
    && forall n :: n in before.names ==> after.names[n] == before.names[n]
  }

  lemma NameAdded(reg: Registry, scripts: seq<Script>, name: string, i: nat)
    requires NamesOk(reg) && i < |scripts| && scripts[i].title == FileTitle(name)
    requires |reg.scripts| <= |scripts| && forall k :: 0 <= k < |reg.scripts| ==> scripts[k] == reg.scripts[k]
    ensures NamesOk(Registry(scripts, reg.names[name := i]))
  {
    hide FileTitle;
  }

  lemma ExtendsByName(reg: Registry, scripts: seq<Script>, name: string, i: nat)
    requires name !in reg.names
    requires |reg.scripts| <= |scripts| && forall k :: 0 <= k < |reg.scripts| ==> scripts[k] == reg.scripts[k]
    ensures Extends(reg, Registry(scripts, reg.names[name := i]))
  {
  }

  lemma AliasKeeps(reg: Registry, name: string, i: nat)
    requires Ok(reg) && name !in reg.names && i < |reg.scripts| && reg.scripts[i].title == FileTitle(name)
    ensures var after := Registry(reg.scripts, reg.names[name := i]); Ok(after) && Extends(reg, after)
  {
    NameAdded(reg, reg.scripts, name, i);
    ExtendsByName(reg, reg.scripts, name, i);
    hide FileTitle, NamesOk, PairsOk, LinesOk, Extends;
  }

  lemma AddKeeps(reg: Registry, source: string, name: string)
    requires Ok(reg) && name !in reg.names
    requires FindScript(reg.scripts, FileTitle(name), source, 0) == |reg.scripts|
    ensures var script := Script(FileTitle(name), source, []);
      var after := Registry(reg.scripts + [script], reg.names[name := |reg.scripts|]);
      Ok(after) && Extends(reg, after)
  {
    var scripts := reg.scripts + [Script(FileTitle(name), source, [])];
    NoneIsNoDuplicates();
    assert PairsOk(scripts) && LinesOk(scripts) by {
      hide FileTitle, NoDuplicates, FindScript;
    }
    NameAdded(reg, scripts, name, |reg.scripts|);
    ExtendsByName(reg, scripts, name, |reg.scripts|);
    hide FileTitle, NamesOk, PairsOk, LinesOk, Extends, FindScript;
  }

  /** Registering keeps the registry in order and moves nothing; the name resolves afterwards. */
  lemma RegisterKeeps(reg: Registry, source: string, name: string)
    requires Ok(reg)
    ensures var Registered(after, added) := RegisterNamed(reg, source, name);
      && Ok(after) && Extends(reg, after) && name in after.names
      && (added == -1 <==> after.scripts == reg.scripts)
      && (added != -1 ==>
            && added == after.names[name] == |reg.scripts|
            && after.scripts == reg.scripts + [Script(FileTitle(name), source, [])])
  {
    if name in reg.names {
      ExtendsItself(reg);
    } else {
      var i := FindScript(reg.scripts, FileTitle(name), source, 0);
      if i == |reg.scripts| {
        AddKeeps(reg, source, name);
        assert |reg.scripts + [Script(FileTitle(name), source, [])]| != |reg.scripts|;
      } else {
        AliasKeeps(reg, name, i);
      }
    }
    hide FileTitle, Ok, FindScript, Extends;
  }

  lemma ExtendsItself(reg: Registry)
    ensures Extends(reg, reg)
  {
  }

  lemma NoneIsNoDuplicates()
    ensures NoDuplicates([])
  {
  }

  /** Two unregistered names end up at one script exactly when their titles agree and the same source came with both. */
  lemma SameScriptIff(reg: Registry, source1: string, name1: string, source2: string, name2: string)
    requires Ok(reg) && name1 !in reg.names && name2 !in reg.names && name1 != name2
    ensures var after := RegisterNamed(RegisterNamed(reg, source1, name1).reg, source2, name2).reg;
      && name1 in after.names && name2 in after.names
      && (after.names[name1] == after.names[name2] <==> FileTitle(name1) == FileTitle(name2) && source1 == source2)
  {
    hide RegisterNamed, Ok, FileTitle;
    var mid := RegisterNamed(reg, source1, name1).reg;
    RegisterKeeps(reg, source1, name1);
    RegisterKeeps(mid, source2, name2);
    NotRegistered(reg, source1, name1, name2);
    RegisteredSource(reg, source1, name1);
    RegisteredSource(mid, source2, name2);
    var after := RegisterNamed(mid, source2, name2).reg;
    var i, j := mid.names[name1], after.names[name2];
    assert after.scripts[i] == mid.scripts[i];
    PairsDistinct(after, i, j);
  }

  lemma NotRegistered(reg: Registry, source: string, name: string, other: string)
    requires other !in reg.names && other != name
    ensures other !in RegisterNamed(reg, source, name).reg.names
  {
    hide FileTitle;
  }

  lemma PairsDistinct(reg: Registry, i: nat, j: nat)
    requires Ok(reg) && i < |reg.scripts| && j < |reg.scripts|
    ensures i == j <==> reg.scripts[i].title == reg.scripts[j].title && reg.scripts[i].source == reg.scripts[j].source
  {
  }

  lemma RegisteredSource(reg: Registry, source: string, name: string)
    requires Ok(reg) && name !in reg.names
    ensures var after := RegisterNamed(reg, source, name).reg;
      && name in after.names && after.names[name] < |after.scripts|
      && after.scripts[after.names[name]].title == FileTitle(name) && after.scripts[after.names[name]].source == source
  {
    hide FileTitle;
  }

  lemma SeenKeeps(reg: Registry, name: string)
    requires Ok(reg)
    ensures var after := RegisterSeen(reg, name); Ok(after) && Extends(reg, after) && name in after.names
    ensures AnyBreakpoint(RegisterSeen(reg, name)) <==> AnyBreakpoint(reg)
  {
    var source := if name != "" && name[0] == '@' then "" else name;
    RegisterKeeps(reg, source, name);
    NoNewBreakpoints(reg, source, name);
    hide RegisterNamed, Ok, FileTitle, Extends, AnyBreakpoint;
  }

  lemma NoNewBreakpoints(reg: Registry, source: string, name: string)
    ensures AnyBreakpoint(RegisterNamed(reg, source, name).reg) <==> AnyBreakpoint(reg)
  {
    hide FileTitle;
    var after := RegisterNamed(reg, source, name).reg;
    if AnyBreakpoint(reg) {
      var i :| 0 <= i < |reg.scripts| && reg.scripts[i].breakpoints != [];
      assert after.scripts[i] == reg.scripts[i];
    }
  }

  // ----- breakpoints

  /** Some script has a breakpoint. */
  predicate AnyBreakpoint(reg: Registry)
  {
    exists i :: 0 <= i < |reg.scripts| && reg.scripts[i].breakpoints != []
  }

  function IndexOf(s: seq<nat>, line: nat): (i: nat)
    ensures i <= |s| && (i < |s| ==> s[i] == line) && forall j :: 0 <= j < i ==> s[j] != line
  {
    if s == [] || s[0] == line then 0 else 1 + IndexOf(s[1..], line)
  }

  /** Sets the line's breakpoint, or removes it. */
  function ToggleLine(s: seq<nat>, line: nat): seq<nat>
  {
    var i := IndexOf(s, line);
    if i == |s| then s + [line] else s[..i] + s[i + 1..]
  }

  /** Toggling changes whether the line has a breakpoint, no other line, and lists no line twice. */
  lemma TogglesLine(s: seq<nat>, line: nat)
    requires NoDuplicates(s)
    ensures var t := ToggleLine(s, line);
      && NoDuplicates(t) && (line in t <==> line !in s)
      && (forall other :: other != line ==> (other in t <==> other in s))
  {
    var i, t := IndexOf(s, line), ToggleLine(s, line);
    if i < |s| {
      forall other | other != line ensures other in t <==> other in s {
        if other in s {
          var j :| 0 <= j < |s| && s[j] == other;
          assert other == t[if j < i then j else j - 1];
        }
      }
      forall j | 0 <= j < |t| ensures t[j] != line {
        assert t[j] == s[if j < i then j else j + 1];
      }
    } else {
      assert forall k :: 0 <= k < |s| ==> t[k] == s[k];
      assert t[|s|] == line;
    }
  }

  function Toggle(reg: Registry, index: nat, line: nat): Registry
    requires index < |reg.scripts|
  {
    var s := reg.scripts[index];
    reg.(scripts := reg.scripts[index := s.(breakpoints := ToggleLine(s.breakpoints, line))])
  }

  function DeleteAll(reg: Registry): (r: Registry)
    ensures r.names == reg.names && |r.scripts| == |reg.scripts| && !AnyBreakpoint(r)
    ensures forall i :: 0 <= i < |r.scripts| ==> r.scripts[i] == reg.scripts[i].(breakpoints := [])
  {
    reg.(scripts := seq(|reg.scripts|, i requires 0 <= i < |reg.scripts| => reg.scripts[i].(breakpoints := [])))
  }

  lemma ToggleKeeps(reg: Registry, index: nat, line: nat)
    requires Ok(reg) && index < |reg.scripts|
    ensures Ok(Toggle(reg, index, line))
  {
    TogglesLine(reg.scripts[index].breakpoints, line);
    hide FileTitle, ToggleLine, NoDuplicates;
  }

  lemma DeleteAllKeeps(reg: Registry)
    requires Ok(reg)
    ensures Ok(DeleteAll(reg))
  {
  }

  // ----- what a script is known by

  /**
   * A script seen by the hook goes by its chunk's name and has the name's text for its source, which is the code of a
   * chunk made from a string; for a chunk read from a file, whose name starts with `@`, the code is not at hand.
   */
  lemma SeenSource(reg: Registry, name: string)
    requires Ok(reg) && name !in reg.names
    ensures var after := RegisterSeen(reg, name);
      && name in after.names && after.names[name] < |after.scripts|
      && var script := after.scripts[after.names[name]];
         script.title == FileTitle(name) && script.source == (if "@" <= name then "" else name)
  {
    RegisteredSource(reg, if name != "" && name[0] == '@' then "" else name, name);
    assert "@" <= name <==> name != "" && name[0] == '@';
    hide RegisterNamed, Ok, FileTitle;
  }

  /** A script that was loaded is not registered again when the hook sees it: without a name it goes by its code. */
  lemma LoadedIsSeen(reg: Registry, source: string, code: string, rest: string)
    requires Ok(reg) && '\0' !in code && (source == code || source == code + "\0" + rest)
    ensures var after := Register(reg, source, None).reg; code in after.names && RegisterSeen(after, code) == after
    ensures forall name :: var after := Register(reg, source, Some(name)).reg;
      name in after.names && RegisterSeen(after, name) == after
  {
    if source == code {
      CStringWhole(code);
    } else {
      assert source == code + ("\0" + rest);
      CStringAppend(code, "\0" + rest);
      assert CString("\0" + rest) == "";
    }
    assert CString(source) == code;
    RegisterKeeps(reg, source, code);
    forall name ensures name in Register(reg, source, Some(name)).reg.names {
      RegisterKeeps(reg, source, name);
    }
    hide RegisterNamed, Ok, FileTitle, CString;
  }

  /** A new name leads to a script with the source it came with, one already there if there is such a one. */
  lemma LoadedSource(reg: Registry, source: string, name: string)
    requires Ok(reg) && name !in reg.names
    ensures var Registered(after, added) := Register(reg, source, Some(name));
      && name in after.names && after.names[name] < |after.scripts|
      && after.scripts[after.names[name]].source == source && after.scripts[after.names[name]].title == FileTitle(name)
      && (added == -1 <==>
          exists i | 0 <= i < |reg.scripts| ::
            reg.scripts[i].source == source && reg.scripts[i].title == FileTitle(name))
  {
    RegisteredSource(reg, source, name);
    hide FileTitle, Ok;
    var i := FindScript(reg.scripts, FileTitle(name), source, 0);
  }
}
