/**
 * Evaluating an expression in the middle of a running function. The function's variables are copied into tables, an
 * environment chains the tables together, and what the expression changed is copied back; it comes to what the
 * language's scoping rules say.
 */
module Evaluation {

  /** `Sentinel` stands for a declared variable that is nil, `Metamethod` for the environment's own functions. */
  datatype Value = Nil | Datum(id: nat) | Sentinel | Metamethod

  type ProgramValue = v: Value | v.Nil? || v.Datum? witness Nil

  datatype Variable = Variable(name: string, value: ProgramValue)

  datatype Kind = Local | Upvalue

  /** Names like `(for index)` are the compiler's; up-values of C functions have none. */
  predicate Shown(kind: Kind, name: string)
  {
    if kind == Local then name == "" || name[0] != '(' else name != ""
  }

  // ----- what the language says

  /** The position of the last visible variable with this name; the number of variables if there is none. */
  function LastOf(kind: Kind, vars: seq<Variable>, name: string): (i: nat)
    ensures i <= |vars|
    ensures i < |vars| ==> vars[i].name == name && Shown(kind, name)
    ensures forall j :: 0 <= j < |vars| && vars[j].name == name && Shown(kind, name) ==> i < |vars| && j <= i
  {
    if vars == [] then 0
    else
      var last := |vars| - 1;
      if vars[last].name == name && Shown(kind, name) then last
      else
        var i := LastOf(kind, vars[..last], name);
        if i == last then |vars| else i
  }

  predicate Declared(kind: Kind, vars: seq<Variable>, name: string)
  {
    LastOf(kind, vars, name) < |vars|
  }

  type Globals = map<string, Global>

  type Global = v: Value | v.Datum? witness Datum(0)

  datatype Scope = Scope(locals: seq<Variable>, upvalues: seq<Variable>, globals: Globals)

  /** The innermost declaration of a name counts: a local, an up-value, or else a global. */
  function Lookup(s: Scope, name: string): ProgramValue
  {
    if Declared(Local, s.locals, name) then s.locals[LastOf(Local, s.locals, name)].value
    else if Declared(Upvalue, s.upvalues, name) then s.upvalues[LastOf(Upvalue, s.upvalues, name)].value
    else if name in s.globals then s.globals[name]
    else Nil
  }

  function AssignIn(kind: Kind, vars: seq<Variable>, name: string, value: ProgramValue): seq<Variable>
    requires Declared(kind, vars, name)
  {
    vars[LastOf(kind, vars, name) := Variable(name, value)]
  }

  function Assign(s: Scope, name: string, value: ProgramValue): Scope
  {
    if Declared(Local, s.locals, name) then s.(locals := AssignIn(Local, s.locals, name, value))
    else if Declared(Upvalue, s.upvalues, name) then s.(upvalues := AssignIn(Upvalue, s.upvalues, name, value))
    else s.(globals := if value.Nil? then s.globals - {name} else s.globals[name := value])
  }

  /** What an expression does to the variables: by name, in some order. */
  datatype Access = Read(name: string) | Write(name: string, value: ProgramValue)

  /** The scope afterwards. */
  function Meant(s: Scope, accesses: seq<Access>): Scope
  {
    if accesses == [] then s
    else
      var before := Meant(s, accesses[..|accesses| - 1]);
      match accesses[|accesses| - 1]
      case Read(_) => before
      case Write(name, value) => Assign(before, name, value)
  }

  /** The values read. */
  function MeantReads(s: Scope, accesses: seq<Access>): seq<ProgramValue>
  {
    if accesses == [] then []
    else
      var rest := accesses[..|accesses| - 1];
      match accesses[|accesses| - 1]
      case Read(name) => MeantReads(s, rest) + [Lookup(Meant(s, rest), name)]
      case Write(_, _) => MeantReads(s, rest)
  }

  // ----- tables

  /** What a table's field can hold: no field is nil. */
  type Field = v: Value | v.Datum? || v.Sentinel? witness Sentinel

  type Entries = map<string, Field>

  function Stored(v: ProgramValue): Field { if v.Nil? then Sentinel else v }

  function RawGet(t: Entries, key: string): (v: Value)
    ensures !v.Metamethod?
  {
    if key in t then t[key] else Nil
  }

  function RawSet(t: Entries, key: string, value: Value): Entries
    requires !value.Metamethod?
  {
    if value.Nil? then t - {key} else t[key := value]
  }

  function Unstored(v: Value): ProgramValue
    requires !v.Metamethod?
  {
    if v.Sentinel? then Nil else v
  }

  /** The table made of a function's variables. */
  function Copied(kind: Kind, vars: seq<Variable>): Entries
  {
    if vars == [] then map[]
    else
      var before, v := Copied(kind, vars[..|vars| - 1]), vars[|vars| - 1];
      if Shown(kind, v.name) then RawSet(before, v.name, Stored(v.value)) else before
  }

  lemma {:induction false} CopiedAt(kind: Kind, vars: seq<Variable>, name: string)
    ensures var t := Copied(kind, vars);
      && (name in t <==> Declared(kind, vars, name))
      && (name in t ==> t[name] == Stored(vars[LastOf(kind, vars, name)].value))
  {
    if vars != [] {
      CopiedAt(kind, vars[..|vars| - 1], name);
    }
  }

  /** Assigning the variable and then copying is the same as setting the field of the copy. */
  lemma CopiedAssigned(kind: Kind, vars: seq<Variable>, name: string, value: ProgramValue)
    requires Declared(kind, vars, name)
    ensures Copied(kind, AssignIn(kind, vars, name, value)) == Copied(kind, vars)[name := Stored(value)]
  {
    var after := AssignIn(kind, vars, name, value);
    forall k
      ensures k in Copied(kind, after) <==> k in Copied(kind, vars)[name := Stored(value)]
      ensures k in Copied(kind, after) ==> Copied(kind, after)[k] == Copied(kind, vars)[name := Stored(value)][k]
    {
      CopiedAt(kind, vars, k);
      CopiedAt(kind, after, k);
      SameDeclarations(kind, vars, after, k);
      hide Copied, LastOf;
    }
  }

  predicate SameNames(a: seq<Variable>, b: seq<Variable>)
  {
    |a| == |b| && forall i :: 0 <= i < |a| ==> a[i].name == b[i].name
  }

  lemma SameDeclarations(kind: Kind, a: seq<Variable>, b: seq<Variable>, name: string)
    requires SameNames(a, b)
    ensures LastOf(kind, a, name) == LastOf(kind, b, name)
  {
    var i, j := LastOf(kind, a, name), LastOf(kind, b, name);
    hide LastOf;
    if i < |a| {
      assert b[i].name == name;
    }
    if j < |b| {
      assert a[j].name == name;
    }
  }

  // ----- the environment of the expression

  class Table {
    var entries: Entries

    constructor ()
      ensures entries == map[]
    {
      entries := map[];
    }

    method Get(key: string) returns (v: Value)
      ensures v == RawGet(entries, key)
    {
      v := if key in entries then entries[key] else Nil;
    }

    method Set(key: string, value: Value)
      requires !value.Metamethod?
      modifies this
      ensures entries == RawSet(old(entries), key, value)
    {
      if value.Nil? {
        entries := entries - {key};
      } else {
        entries := entries[key := value];
      }
    }
  }

  /** A table of variables: what is copied for a function on the stack. */
  method CopyVariables(kind: Kind, vars: seq<Variable>) returns (table: Table)
    ensures fresh(table) && table.entries == Copied(kind, vars)
  {
    table := new Table();
    for i := 0 to |vars|
      invariant table.entries == Copied(kind, vars[..i])
    {
      assert vars[..i + 1][..i] == vars[..i];
      if Shown(kind, vars[i].name) {
        if vars[i].value.Nil? {
          table.Set(vars[i].name, Sentinel);
        } else {
          table.Set(vars[i].name, vars[i].value);
        }
      }
    }
    assert vars[..|vars|] == vars;
  }

  /** Every variable gets what the table has under its name. */
  function SetFrom(kind: Kind, vars: seq<Variable>, t: Entries): seq<Variable>
  {
    seq(|vars|, i requires 0 <= i < |vars| =>
      if Shown(kind, vars[i].name) then Variable(vars[i].name, Unstored(RawGet(t, vars[i].name))) else vars[i])
  }

  method SetVariables(kind: Kind, vars: seq<Variable>, table: Table) returns (after: seq<Variable>)
    ensures after == SetFrom(kind, vars, table.entries)
  {
    after := vars;
    for i := 0 to |vars|
      invariant |after| == |vars|
      invariant forall k :: 0 <= k < i ==> after[k] == SetFrom(kind, vars, table.entries)[k]
      invariant forall k :: i <= k < |vars| ==> after[k] == vars[k]
    {
      if Shown(kind, vars[i].name) {
        var value := table.Get(vars[i].name);
        if value.Sentinel? {
          value := Nil;
        }
        after := after[i := Variable(vars[i].name, value)];
      }
    }
  }

  const INDEX: string := "__index"
  const NEW_INDEX: string := "__newindex"

  /** The environment is its own metatable, so the names of the two metamethods are taken. */
  predicate Ordinary(name: string) { name != INDEX && name != NEW_INDEX }

  class Environment {
    const localTable: Table
    const upValueTable: Table
    const globalTable: Table

    constructor (localTable: Table, upValueTable: Table, globalTable: Table)
      ensures this.localTable == localTable && this.upValueTable == upValueTable && this.globalTable == globalTable
    {
      this.localTable, this.upValueTable, this.globalTable := localTable, upValueTable, globalTable;
    }

    ghost predicate Valid()
    {
      localTable != upValueTable && localTable != globalTable && upValueTable != globalTable
    }

    ghost function Tables(): (Entries, Entries, Entries)
      reads localTable, upValueTable, globalTable
    {
      (localTable.entries, upValueTable.entries, globalTable.entries)
    }

    method IndexChained(key: string) returns (value: Value)
      ensures value == ChainedGet(Tables(), key)
    {
      value := localTable.Get(key);
      if value.Nil? {
        value := upValueTable.Get(key);
      }
      if value.Nil? {
        value := globalTable.Get(key);
      }
      if value.Sentinel? {
        value := Nil;
      }
    }

    method NewIndexChained(key: string, value: ProgramValue)
      requires Valid()
      modifies localTable, upValueTable, globalTable
      ensures Tables() == ChainedSet(old(Tables()), key, value)
    {
      var current := localTable.Get(key);
      if !current.Nil? {
        localTable.Set(key, Stored(value));
        return;
      }
      current := upValueTable.Get(key);
      if !current.Nil? {
        upValueTable.Set(key, Stored(value));
        return;
      }
      globalTable.Set(key, value);
    }

    /** Reading a name in the expression: the environment's own fields come first. */
    method GetField(key: string) returns (value: Value)
      ensures value == FieldOf(Tables(), key)
    {
      if key == INDEX || key == NEW_INDEX {
        return Metamethod;
      }
      value := IndexChained(key);
    }
  }

  function ChainedGet(t: (Entries, Entries, Entries), key: string): ProgramValue
  {
    Unstored(if key in t.0 then t.0[key] else if key in t.1 then t.1[key] else RawGet(t.2, key))
  }

  function ChainedSet(t: (Entries, Entries, Entries), key: string, value: ProgramValue): (Entries, Entries, Entries)
  {
    if key in t.0 then (t.0[key := Stored(value)], t.1, t.2)
    else if key in t.1 then (t.0, t.1[key := Stored(value)], t.2)
    else (t.0, t.1, RawSet(t.2, key, value))
  }

  function FieldOf(t: (Entries, Entries, Entries), key: string): Value
  {
    if Ordinary(key) then ChainedGet(t, key) else Metamethod
  }

  // ----- the environment means what the language says

  function Chained(s: Scope): (Entries, Entries, Entries)
  {
    (Copied(Local, s.locals), Copied(Upvalue, s.upvalues), s.globals)
  }

  /** A name means in the environment what it means in the function exactly if it is not a metamethod's. */
  lemma ReadAgreesIff(s: Scope, name: string)
    ensures FieldOf(Chained(s), name) == Lookup(s, name) <==> name != "__index" && name != "__newindex"
  {
    CopiedAt(Local, s.locals, name);
    CopiedAt(Upvalue, s.upvalues, name);
    hide Copied, Declared, LastOf;
  }

  lemma WriteAgrees(s: Scope, name: string, value: ProgramValue)
    ensures ChainedSet(Chained(s), name, value) == Chained(Assign(s, name, value))
  {
    CopiedAt(Local, s.locals, name);
    CopiedAt(Upvalue, s.upvalues, name);
    hide Copied, LastOf;
    if Declared(Local, s.locals, name) {
      CopiedAssigned(Local, s.locals, name, value);
    } else if Declared(Upvalue, s.upvalues, name) {
      CopiedAssigned(Upvalue, s.upvalues, name, value);
    }
  }

  // ----- copying back

  /** Every visible variable takes the value of the last one with its name. */
  function LastWins(kind: Kind, vars: seq<Variable>): seq<Variable>
  {
    seq(|vars|, i requires 0 <= i < |vars| =>
      if Shown(kind, vars[i].name) then Variable(vars[i].name, vars[LastOf(kind, vars, vars[i].name)].value)
      else vars[i])
  }

  /** `after` comes from `before` by assignments. */
  ghost predicate Evolved(kind: Kind, before: seq<Variable>, after: seq<Variable>)
  {
    SameNames(before, after)
    && forall i :: 0 <= i < |before| && !Shown(kind, before[i].name) ==> after[i] == before[i]
  }

  lemma SetBack(kind: Kind, before: seq<Variable>, after: seq<Variable>)
    requires Evolved(kind, before, after)
    ensures SetFrom(kind, before, Copied(kind, after)) == LastWins(kind, after)
  {
    hide Copied, LastOf;
    forall i | 0 <= i < |before|
      ensures SetFrom(kind, before, Copied(kind, after))[i] == LastWins(kind, after)[i]
    {
      CopiedAt(kind, after, before[i].name);
    }
  }

  lemma AssignEvolves(kind: Kind, before: seq<Variable>, vars: seq<Variable>, name: string, value: ProgramValue)
    requires Evolved(kind, before, vars) && Declared(kind, vars, name)
    ensures Evolved(kind, before, AssignIn(kind, vars, name, value))
  {
    hide LastOf;
  }

  lemma {:induction false} MeantEvolves(s: Scope, accesses: seq<Access>)
    ensures Evolved(Local, s.locals, Meant(s, accesses).locals)
    ensures Evolved(Upvalue, s.upvalues, Meant(s, accesses).upvalues)
  {
    if accesses != [] {
      var rest, last := accesses[..|accesses| - 1], accesses[|accesses| - 1];
      MeantEvolves(s, rest);
      var m := Meant(s, rest);
      hide Evolved, Declared, AssignIn;
      if last.Write? && Declared(Local, m.locals, last.name) {
        AssignEvolves(Local, s.locals, m.locals, last.name, last.value);
      } else if last.Write? && Declared(Upvalue, m.upvalues, last.name) {
        AssignEvolves(Upvalue, s.upvalues, m.upvalues, last.name, last.value);
      }
    }
  }

  /** Copying back is exact if and only if visible variables of one name have one value. */
  lemma ExactIff(kind: Kind, vars: seq<Variable>)
    ensures LastWins(kind, vars) == vars
       <==> forall i, j | 0 <= i < |vars| && 0 <= j < |vars| ::
              vars[i].name == vars[j].name && Shown(kind, vars[i].name) ==> vars[i].value == vars[j].value
  {
    hide LastOf;
    if LastWins(kind, vars) == vars {
      forall i, j | 0 <= i < |vars| && 0 <= j < |vars| && vars[i].name == vars[j].name && Shown(kind, vars[i].name)
        ensures vars[i].value == vars[j].value
      {
        assert LastWins(kind, vars)[i] == vars[i] && LastWins(kind, vars)[j] == vars[j];
      }
    }
  }

  predicate DistinctNames(vars: seq<Variable>)
  {
    forall i, j :: 0 <= i < j < |vars| ==> vars[i].name != vars[j].name
  }

  /** With distinct names nothing is lost whatever the expression does. */
  lemma ExactForDistinctNames(s: Scope, accesses: seq<Access>)
    requires DistinctNames(s.locals) && DistinctNames(s.upvalues)
    ensures var m := Meant(s, accesses);
      LastWins(Local, m.locals) == m.locals && LastWins(Upvalue, m.upvalues) == m.upvalues
  {
    MeantEvolves(s, accesses);
    var m := Meant(s, accesses);
    ExactIff(Local, m.locals);
    ExactIff(Upvalue, m.upvalues);
    hide LastWins, LastOf;
  }

  // ----- names as they are written in a program

  predicate Identifier(name: string)
  {
    name != "" && ('a' <= name[0] <= 'z' || 'A' <= name[0] <= 'Z' || name[0] == '_')
  }

  /** The position of the last variable with this name, whatever the name; the number of variables if there is none. */
  function LastNamed(vars: seq<Variable>, name: string): (i: nat)
    ensures i <= |vars|
    ensures i < |vars| ==> vars[i].name == name
    ensures forall j :: 0 <= j < |vars| && vars[j].name == name ==> j <= i < |vars|
  {
    if vars == [] then 0
    else if vars[|vars| - 1].name == name then |vars| - 1
    else
      var i := LastNamed(vars[..|vars| - 1], name);
      if i == |vars| - 1 then |vars| else i
  }

  function PlainRead(s: Scope, name: string): ProgramValue
  {
    var i, j := LastNamed(s.locals, name), LastNamed(s.upvalues, name);
    if i < |s.locals| then s.locals[i].value
    else if j < |s.upvalues| then s.upvalues[j].value
    else if name in s.globals then s.globals[name]
    else Nil
  }

  function PlainWrite(s: Scope, name: string, value: ProgramValue): Scope
  {
    var i, j := LastNamed(s.locals, name), LastNamed(s.upvalues, name);
    if i < |s.locals| then s.(locals := s.locals[i := Variable(name, value)])
    else if j < |s.upvalues| then s.(upvalues := s.upvalues[j := Variable(name, value)])
    else s.(globals := if value.Nil? then s.globals - {name} else s.globals[name := value])
  }

  /** A name written in the program means the last local of that name, else the last up-value, else the global. */
  lemma MeansTheLast(s: Scope, name: string, value: ProgramValue)
    requires Identifier(name)
    ensures Lookup(s, name) == PlainRead(s, name) && Assign(s, name, value) == PlainWrite(s, name, value)
  {
    LastIsLast(Local, s.locals, name);
    LastIsLast(Upvalue, s.upvalues, name);
    hide LastOf, LastNamed;
  }

  lemma LastIsLast(kind: Kind, vars: seq<Variable>, name: string)
    requires Identifier(name)
    ensures LastOf(kind, vars, name) == LastNamed(vars, name)
  {
    hide LastOf, LastNamed;
    assert Shown(kind, name);
    var i, j := LastOf(kind, vars, name), LastNamed(vars, name);
    if i < |vars| {
      assert vars[i].name == name;
    }
    if j < |vars| {
      assert vars[j].name == name;
    }
  }

  /** What was written is read, and reading any other name gives what it gave. */
  lemma WrittenIsRead(s: Scope, name: string, value: ProgramValue, other: string)
    requires Identifier(name) && Identifier(other)
    ensures Lookup(Assign(s, name, value), other) == if other == name then value else Lookup(s, other)
  {
    hide Lookup, Assign, PlainRead, PlainWrite;
    MeansTheLast(s, name, value);
    MeansTheLast(s, other, value);
    MeansTheLast(PlainWrite(s, name, value), other, value);
    PlainlyRead(s, name, value, other);
  }

  lemma PlainlyRead(s: Scope, name: string, value: ProgramValue, other: string)
    ensures PlainRead(PlainWrite(s, name, value), other) == if other == name then value else PlainRead(s, other)
  {
    hide LastNamed;
    var t := PlainWrite(s, name, value);
    var i, j := LastNamed(s.locals, name), LastNamed(s.upvalues, name);
    if i < |s.locals| {
      OneSet(s.locals, i, value, other);
    } else if j < |s.upvalues| {
      OneSet(s.upvalues, j, value, other);
    }
  }

  lemma OneSet(vars: seq<Variable>, i: nat, value: ProgramValue, name: string)
    requires i < |vars| && i == LastNamed(vars, vars[i].name)
    ensures var after := vars[i := Variable(vars[i].name, value)]; var k := LastNamed(after, name);
      && k == LastNamed(vars, name)
      && (k < |vars| ==> after[k].value == if name == vars[i].name then value else vars[k].value)
  {
    hide LastNamed;
    SameLast(vars, vars[i := Variable(vars[i].name, value)], name);
  }

  lemma SameLast(a: seq<Variable>, b: seq<Variable>, name: string)
    requires SameNames(a, b)
    ensures LastNamed(a, name) == LastNamed(b, name)
  {
    hide LastNamed;
    var i, j := LastNamed(a, name), LastNamed(b, name);
    if i < |a| {
      assert b[i].name == name;
    }
    if j < |b| {
      assert a[j].name == name;
    }
  }

  /** The scope after the accesses, by the last of a name. */
  function PlainScope(s: Scope, accesses: seq<Access>): Scope
  {
    if accesses == [] then s
    else
      var before := PlainScope(s, accesses[..|accesses| - 1]);
      match accesses[|accesses| - 1]
      case Read(_) => before
      case Write(name, value) => PlainWrite(before, name, value)
  }

  function PlainReads(s: Scope, accesses: seq<Access>): seq<ProgramValue>
  {
    if accesses == [] then []
    else
      var rest := accesses[..|accesses| - 1];
      match accesses[|accesses| - 1]
      case Read(name) => PlainReads(s, rest) + [PlainRead(PlainScope(s, rest), name)]
      case Write(_, _) => PlainReads(s, rest)
  }

  predicate Identifiers(accesses: seq<Access>)
  {
    forall i :: 0 <= i < |accesses| ==> Identifier(accesses[i].name)
  }

  lemma {:induction false} MeantPlainly(s: Scope, accesses: seq<Access>)
    requires Identifiers(accesses)
    ensures Meant(s, accesses) == PlainScope(s, accesses) && MeantReads(s, accesses) == PlainReads(s, accesses)
  {
    if accesses != [] {
      var rest, last := accesses[..|accesses| - 1], accesses[|accesses| - 1];
      assert Identifier(accesses[|accesses| - 1].name);
      MeantPlainly(s, rest);
      MeansTheLast(Meant(s, rest), last.name, if last.Write? then last.value else Nil);
      hide Lookup, Assign, PlainRead, PlainWrite;
    }
  }

  /** Names of the compiler's own locals, and of the up-values of C functions. */
  predicate Internal(kind: Kind, name: string)
  {
    match kind
    case Local => name != "" && name[0] == '('
    case Upvalue => name == ""
  }

  /** `after` is `before` with what `meant` has: each named variable takes the value of the last one of its name. */
  ghost predicate BroughtBack(kind: Kind, before: seq<Variable>, meant: seq<Variable>, after: seq<Variable>)
  {
    && |after| == |before| == |meant|
    && (forall i :: 0 <= i < |before| && Identifier(before[i].name) ==>
          var k := LastNamed(meant, before[i].name);
          k < |meant| && after[i] == Variable(before[i].name, meant[k].value))
    && (forall i :: 0 <= i < |before| && Internal(kind, before[i].name) ==> after[i] == before[i])
  }

  lemma BackPlainly(kind: Kind, before: seq<Variable>, meant: seq<Variable>)
    requires Evolved(kind, before, meant)
    ensures BroughtBack(kind, before, meant, LastWins(kind, meant))
  {
    hide LastOf, LastNamed;
    forall i | 0 <= i < |before| && Identifier(before[i].name)
      ensures var k := LastNamed(meant, before[i].name);
        k < |meant| && LastWins(kind, meant)[i] == Variable(before[i].name, meant[k].value)
    {
      LastIsLast(kind, meant, before[i].name);
      assert meant[i].name == before[i].name;
    }
  }

  /**
   * An evaluation as a programmer would put it: values read are those of the last local, else up-value, else global of
   * the name, at that moment; so are the ones written; the compiler's own variables are neither seen nor changed.
   */
  ghost predicate AsWritten(s: Scope, accesses: seq<Access>, got: seq<Value>, locals: seq<Variable>,
                            upvalues: seq<Variable>, globals: Entries)
  {
    var m := PlainScope(s, accesses);
    && got == PlainReads(s, accesses) && globals == m.globals
    && BroughtBack(Local, s.locals, m.locals, locals) && BroughtBack(Upvalue, s.upvalues, m.upvalues, upvalues)
  }

  lemma EvaluatedAsWritten(s: Scope, accesses: seq<Access>)
    requires Identifiers(accesses)
    ensures var m := Meant(s, accesses);
      var locals, upvalues := LastWins(Local, m.locals), LastWins(Upvalue, m.upvalues);
      AsWritten(s, accesses, MeantReads(s, accesses), locals, upvalues, m.globals)
  {
    MeantPlainly(s, accesses);
    MeantEvolves(s, accesses);
    var m := Meant(s, accesses);
    hide BroughtBack, Evolved, LastWins;
    BackPlainly(Local, s.locals, m.locals);
    BackPlainly(Upvalue, s.upvalues, m.upvalues);
  }

  // ----- the whole evaluation

  /** An entry of the call stack. */
  class CallFrame {
    var locals: seq<Variable>
    var upvalues: seq<Variable>

    constructor (locals: seq<Variable>, upvalues: seq<Variable>)
      ensures this.locals == locals && this.upvalues == upvalues
    {
      this.locals, this.upvalues := locals, upvalues;
    }
  }

  type OrdinaryAccess = a: Access | Ordinary(a.name) witness Read("x")

  ghost predicate ProgramTable(t: Entries)
  {
    forall k :: k in t ==> t[k].Datum?
  }

  ghost function ScopeOf(frame: CallFrame, globalTable: Table): Scope
    requires ProgramTable(globalTable.entries)
    reads frame, globalTable
  {
    Scope(frame.locals, frame.upvalues, globalTable.entries)
  }

  /**
   * The environment is made, the expression does what it does to its variables, and the changes are copied back: it has
   * read what the language says, globals are as the language says, and so are variables if the last of a name decides.
   */
  method Evaluate(frame: CallFrame, globalTable: Table, accesses: seq<OrdinaryAccess>) returns (got: seq<Value>)
    requires ProgramTable(globalTable.entries)
    modifies frame, globalTable
    ensures ProgramTable(globalTable.entries)
    ensures var s := old(ScopeOf(frame, globalTable)); var m := Meant(s, accesses);
      && got == MeantReads(s, accesses)
      && frame.locals == LastWins(Local, m.locals) && frame.upvalues == LastWins(Upvalue, m.upvalues)
      && globalTable.entries == m.globals
    ensures Identifiers(accesses) ==>
      AsWritten(old(ScopeOf(frame, globalTable)), accesses, got, frame.locals, frame.upvalues, globalTable.entries)
  {
    ghost var s := ScopeOf(frame, globalTable);
    var localTable := CopyVariables(Local, frame.locals);
    var upValueTable := CopyVariables(Upvalue, frame.upvalues);
    var env := new Environment(localTable, upValueTable, globalTable);
    got := [];
    for i := 0 to |accesses|
      invariant env.Tables() == Chained(Meant(s, accesses[..i]))
      invariant got == MeantReads(s, accesses[..i])
      invariant frame.locals == s.locals && frame.upvalues == s.upvalues
    {
      hide Copied, Lookup, Assign, ChainedGet, ChainedSet;
      ghost var now := Meant(s, accesses[..i]);
      assert accesses[..i + 1][..i] == accesses[..i];
      match accesses[i] {
        case Read(name) =>
          var value := env.GetField(name);
          ReadAgreesIff(now, name);
          got := got + [value];
        case Write(name, value) =>
          env.NewIndexChained(name, value);
          WriteAgrees(now, name, value);
      }
    }
    assert accesses[..|accesses|] == accesses;
    MeantEvolves(s, accesses);
    SetBack(Local, s.locals, Meant(s, accesses).locals);
    SetBack(Upvalue, s.upvalues, Meant(s, accesses).upvalues);
    frame.locals := SetVariables(Local, frame.locals, localTable);
    frame.upvalues := SetVariables(Upvalue, frame.upvalues, upValueTable);
    if Identifiers(accesses) {
      EvaluatedAsWritten(s, accesses);
    }
  }
}
