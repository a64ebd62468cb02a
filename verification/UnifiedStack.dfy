/**
 * The call stack the front end sees: the native stack and the script stack merged. Both have the innermost function
 * first and are gone through from the end; a `lua_pcall` on one side belongs to a C function on the other.
 */
module UnifiedStack {
  import opened Options

  const MAX_STACK_SIZE: nat := 100
  const MAX_ENTRY_NAME_LENGTH: nat := 256

  datatype StackEntry = StackEntry(moduleName: string, name: string, address: nat, scriptIndex: int, line: int)

  /** What Lua says about a function; both texts may be missing. */
  datatype ScriptFrame = ScriptFrame(name: Option<string>, what: Option<string>, scriptIndex: int, currentLine: int)

  predicate StartsWith(s: string, prefix: string) { |prefix| <= |s| && s[..|prefix|] == prefix }

  predicate IsPCall(e: StackEntry) { e.name == "lua_pcall" }

  /** The functions by which Lua calls other functions. */
  predicate IsInternal(e: StackEntry)
  {
    StartsWith(e.name, "luaD_") || StartsWith(e.name, "luaV_") || StartsWith(e.name, "lua_")
  }

  predicate IsC(f: ScriptFrame) { f.what == Some("C") }

  function FunctionName(f: ScriptFrame): string
  {
    if f.name.Some? && f.name.value != "" then f.name.value
    else if f.what.Some? then f.what.value
    else "<Unknown>"
  }

  /** `strncpy` into an entry. */
  function Clipped(name: string): string
  {
    if |name| <= MAX_ENTRY_NAME_LENGTH then name else name[..MAX_ENTRY_NAME_LENGTH]
  }

  // ----- which frames, in which order

  /** A frame on either side: a transition to the other side, to be shown, or of no interest. */
  datatype Mark = Switch | Shown | Skipped

  function NativeMarks(native: seq<StackEntry>): (marks: seq<Mark>)
    ensures |marks| == |native|
  {
    seq(|native|, i requires 0 <= i < |native| =>
      if IsPCall(native[i]) then Switch else if IsInternal(native[i]) then Skipped else Shown)
  }

  function ScriptMarks(script: seq<ScriptFrame>): (marks: seq<Mark>)
    ensures |marks| == |script|
  {
    seq(|script|, i requires 0 <= i < |script| => if IsC(script[i]) then Switch else Shown)
  }

  /** The frames to show of the first `n`, from the last one down to a transition, and how many are left below it. */
  function Part(marks: seq<Mark>, n: nat, room: nat): (r: (seq<nat>, nat))
    requires n <= |marks|
    ensures r.1 <= n && |r.0| <= n - r.1 && |r.0| <= room && (n > 0 && room > 0 ==> r.1 < n)
  {
    if n == 0 || room == 0 then ([], n)
    else if marks[n - 1].Switch? then ([], n - 1)
    else if marks[n - 1].Skipped? then Part(marks, n - 1, room)
    else
      var (part, left) := Part(marks, n - 1, room - 1);
      ([n - 1] + part, left)
  }

  /** Where an entry of the unified stack comes from. */
  datatype Origin = Native(index: nat) | Script(index: nat)

  function Natives(part: seq<nat>): seq<Origin> { seq(|part|, i requires 0 <= i < |part| => Native(part[i])) }

  function Scripts(part: seq<nat>): seq<Origin> { seq(|part|, i requires 0 <= i < |part| => Script(part[i])) }

  function Room(size: nat): nat { if size < MAX_STACK_SIZE then MAX_STACK_SIZE - size else 0 }

  /** Of the two walks, only that over script frames looks at the size of the array. */
  function Merge(native: seq<Mark>, n: nat, script: seq<Mark>, k: nat, size: nat): seq<Origin>
    requires n <= |native| && k <= |script|
    decreases k
  {
    if size >= MAX_STACK_SIZE || k == 0 then []
    else
      var (a, n') := Part(native, n, n);
      var (b, k') := Part(script, k, Room(size + |a|));
      Natives(a) + Scripts(b) + if k' == k then [] else Merge(native, n', script, k', size + |a| + |b|)
  }

  function Unified(native: seq<StackEntry>, script: seq<ScriptFrame>): seq<Origin>
  {
    Merge(NativeMarks(native), |native|, ScriptMarks(script), |script|, 0)
  }

  /** What the merge would be in an array without end. */
  function MergeAll(native: seq<Mark>, n: nat, script: seq<Mark>, k: nat): seq<Origin>
    requires n <= |native| && k <= |script|
    decreases k
  {
    if k == 0 then []
    else
      var (a, n') := Part(native, n, n);
      var (b, k') := Part(script, k, k);
      Natives(a) + Scripts(b) + MergeAll(native, n', script, k')
  }

  function All(native: seq<StackEntry>, script: seq<ScriptFrame>): seq<Origin>
  {
    MergeAll(NativeMarks(native), |native|, ScriptMarks(script), |script|)
  }

  // ----- the order, stated without the loops

  function Switches(marks: seq<Mark>, from: nat): nat
    requires from <= |marks|
    decreases |marks| - from
  {
    if from == |marks| then 0 else (if marks[from].Switch? then 1 else 0) + Switches(marks, from + 1)
  }

  predicate Exists(native: seq<Mark>, script: seq<Mark>, x: Origin)
  {
    x.index < if x.Native? then |native| else |script|
  }

  /** How many transitions are further out on the same side. */
  function Section(native: seq<Mark>, script: seq<Mark>, x: Origin): nat
    requires Exists(native, script, x)
  {
    if x.Native? then Switches(native, x.index + 1) else Switches(script, x.index + 1)
  }

  /** Outer sections come first; in a section native frames do; of one kind, outer frames do. */
  predicate Outside(native: seq<Mark>, script: seq<Mark>, x: Origin, y: Origin)
    requires Exists(native, script, x) && Exists(native, script, y)
  {
    var s, t := Section(native, script, x), Section(native, script, y);
    s < t || (s == t && if x.Native? == y.Native? then x.index > y.index else x.Native?)
  }

  /** All Lua functions are shown, and the native functions of as many sections as the script stack has. */
  predicate Belongs(native: seq<Mark>, script: seq<Mark>, x: Origin)
    requires Exists(native, script, x)
  {
    if x.Native? then native[x.index].Shown? && script != [] && Switches(native, x.index + 1) <= Switches(script, 1)
    else script[x.index].Shown?
  }

  /** The frames to show in the sections before `s`. */
  function ShownSet(marks: seq<Mark>, s: nat): set<nat>
  {
    set i | 0 <= i < |marks| && marks[i].Shown? && Switches(marks, i + 1) < s
  }

  function ShownBefore(marks: seq<Mark>, s: nat): nat { |ShownSet(marks, s)| }

  /** How many frames belong in the unified stack. */
  function Belonging(native: seq<Mark>, script: seq<Mark>): nat
  {
    if script == [] then 0
    else ShownBefore(native, Switches(script, 1) + 1) + ShownBefore(script, Switches(script, 1) + 1)
  }

  /** The native frames of section `s`, begun with room left, carry the count past the end of the array. */
  predicate Carries(native: seq<Mark>, script: seq<Mark>, s: nat)
  {
    && ShownBefore(native, s) + ShownBefore(script, s) < MAX_STACK_SIZE
    && ShownBefore(native, s + 1) + ShownBefore(script, s) > MAX_STACK_SIZE
  }

  predicate Overflows(native: seq<Mark>, script: seq<Mark>)
  {
    script != [] && exists s | 0 <= s <= Switches(script, 1) :: Carries(native, script, s)
  }

  /** Of the first frames of the two stacks, what belongs there and nothing else, each once and in order. */
  ghost predicate Exactly(native: seq<Mark>, script: seq<Mark>, out: seq<Origin>, n: nat, k: nat)
    requires n <= |native| && k <= |script|
  {
    AllBelong(native, script, out, n, k) && AllThere(native, script, out, n, k) && InOrder(native, script, out, n, k)
  }

  predicate Within(x: Origin, n: nat, k: nat) { x.index < if x.Native? then n else k }

  ghost predicate AllBelong(native: seq<Mark>, script: seq<Mark>, out: seq<Origin>, n: nat, k: nat)
    requires n <= |native| && k <= |script|
  {
    forall a :: 0 <= a < |out| ==> Within(out[a], n, k) && Belongs(native, script, out[a])
  }

  ghost predicate AllThere(native: seq<Mark>, script: seq<Mark>, out: seq<Origin>, n: nat, k: nat)
    requires n <= |native| && k <= |script|
  {
    forall x :: Within(x, n, k) && Belongs(native, script, x) ==> x in out
  }

  ghost predicate InOrder(native: seq<Mark>, script: seq<Mark>, out: seq<Origin>, n: nat, k: nat)
    requires n <= |native| && k <= |script|
  {
    forall a, b :: 0 <= a < b < |out| ==> Follows(native, script, out[a], out[b], n, k)
  }

  ghost predicate Follows(native: seq<Mark>, script: seq<Mark>, x: Origin, y: Origin, n: nat, k: nat)
    requires n <= |native| && k <= |script|
  {
    Within(x, n, k) && Within(y, n, k) && Outside(native, script, x, y)
  }

  // ----- one section

  lemma {:induction false} SwitchesMonotone(marks: seq<Mark>, i: nat, j: nat)
    requires i <= j <= |marks|
    ensures Switches(marks, i) >= Switches(marks, j)
    decreases j - i
  {
    if i < j {
      SwitchesMonotone(marks, i + 1, j);
    }
  }

  predicate ShownIn(marks: seq<Mark>, i: nat, from: nat, to: nat)
    requires to <= |marks|
  {
    from <= i < to && marks[i].Shown? && Switches(marks, i + 1) == Switches(marks, to)
  }

  /** The frames to show from `from` to `to`, outermost first, all in one section. */
  ghost predicate IsSection(marks: seq<Mark>, part: seq<nat>, from: nat, to: nat)
    requires from <= to <= |marks|
  {
    && (forall a :: 0 <= a < |part| ==> ShownIn(marks, part[a], from, to))
    && (forall a, b :: 0 <= a < b < |part| ==> part[a] > part[b])
    && (forall i :: from <= i < to && marks[i].Shown? ==> i in part)
  }

  /** The section ends at a transition or at the end of the stack. */
  predicate EndsAt(marks: seq<Mark>, from: nat, to: nat)
    requires from <= to <= |marks|
  {
    Switches(marks, from) == Switches(marks, to) + 1 || (from == 0 && Switches(marks, 0) == Switches(marks, to))
  }

  lemma {:induction false} PartIs(marks: seq<Mark>, n: nat, room: nat)
    requires n <= |marks| && n <= room
    ensures var (part, left) := Part(marks, n, room); IsSection(marks, part, left, n) && EndsAt(marks, left, n)
    ensures n > 0 && Part(marks, n, room).1 == 0 ==> Switches(marks, 1) <= Switches(marks, n)
  {
    if n > 0 && !marks[n - 1].Switch? {
      var room' := if marks[n - 1].Skipped? then room else room - 1;
      PartIs(marks, n - 1, room');
      var (part, left) := Part(marks, n - 1, room');
      assert Switches(marks, n - 1) == Switches(marks, n);
      hide Switches;
      SectionGrows(marks, part, left, n);
    }
  }

  lemma SectionGrows(marks: seq<Mark>, part: seq<nat>, from: nat, n: nat)
    requires from < n <= |marks| && IsSection(marks, part, from, n - 1) && Switches(marks, n - 1) == Switches(marks, n)
    ensures marks[n - 1].Skipped? ==> IsSection(marks, part, from, n)
    ensures marks[n - 1].Shown? ==> IsSection(marks, [n - 1] + part, from, n)
  {
    hide Switches;
    if marks[n - 1].Shown? {
      assert forall i :: from <= i < n - 1 && marks[i].Shown? ==> i in part;
    }
  }

  // ----- the merge

  /** The two stacks are at the same section. */
  ghost predicate InStep(native: seq<Mark>, n: nat, script: seq<Mark>, k: nat)
    requires n <= |native| && k <= |script|
  {
    if n > 0 then Switches(native, n) == Switches(script, k) else Switches(native, 0) <= Switches(script, k)
  }

  /** One round of the outer loop. */
  ghost predicate IsRound(native: seq<Mark>, script: seq<Mark>, a: seq<nat>, b: seq<nat>, n: nat, n': nat, k: nat,
                          k': nat)
  {
    && n' <= n <= |native| && k' <= k <= |script| && 0 < k && InStep(native, n, script, k)
    && IsSection(native, a, n', n) && EndsAt(native, n', n)
    && IsSection(script, b, k', k) && EndsAt(script, k', k) && (k' == 0 ==> Switches(script, 1) <= Switches(script, k))
  }

  lemma {:induction false} MergeIs(native: seq<Mark>, n: nat, script: seq<Mark>, k: nat)
    requires n <= |native| && 0 < k <= |script| && InStep(native, n, script, k)
    ensures Exactly(native, script, MergeAll(native, n, script, k), n, k)
    decreases k
  {
    hide Part, IsRound, Exactly, InStep, MergeAll;
    var ((a, n'), (b, k')) := (Part(native, n, n), Part(script, k, k));
    MergeRound(native, n, script, k);
    if k' == 0 {
      NothingLeft(native, n', script);
    } else {
      InStepAgain(native, script, a, b, n, n', k, k');
      MergeIs(native, n', script, k');
    }
    RoundThenRest(native, script, a, b, MergeAll(native, n', script, k'), n, n', k, k');
  }

  lemma MergeRound(native: seq<Mark>, n: nat, script: seq<Mark>, k: nat)
    requires n <= |native| && 0 < k <= |script| && InStep(native, n, script, k)
    ensures var ((a, n'), (b, k')) := (Part(native, n, n), Part(script, k, k));
      && IsRound(native, script, a, b, n, n', k, k') && k' < k
      && MergeAll(native, n, script, k) == Natives(a) + Scripts(b) + MergeAll(native, n', script, k')
  {
    PartIs(native, n, n);
    PartIs(script, k, k);
    hide Part, Switches, IsSection, EndsAt, InStep, Natives, Scripts;
  }

  lemma NothingLeft(native: seq<Mark>, n: nat, script: seq<Mark>)
    requires n <= |native|
    ensures MergeAll(native, n, script, 0) == []
  {
  }

  lemma MergeUnfolds(native: seq<Mark>, n: nat, script: seq<Mark>, k: nat, size: nat)
    requires n <= |native| && 0 < k <= |script| && size < MAX_STACK_SIZE
    ensures var (a, n') := Part(native, n, n);
      var (b, k') := Part(script, k, Room(size + |a|));
      && (k' < k || size + |a| >= MAX_STACK_SIZE)
      && Merge(native, n, script, k, size) == Natives(a) + Scripts(b) + Merge(native, n', script, k', size + |a| + |b|)
  {
    hide Part, Natives, Scripts;
  }

  lemma InStepAgain(native: seq<Mark>, script: seq<Mark>, a: seq<nat>, b: seq<nat>, n: nat, n': nat, k: nat, k': nat)
    requires IsRound(native, script, a, b, n, n', k, k') && k' > 0
    ensures InStep(native, n', script, k') && Switches(script, k') == Switches(script, k) + 1
  {
    hide Switches, IsSection;
  }

  /** What the frames of a round have in common. */
  ghost predicate OfRound(native: seq<Mark>, script: seq<Mark>, x: Origin, n: nat, n': nat, k: nat, k': nat)
    requires n <= |native| && k <= |script|
  {
    && Within(x, n, k) && x.index >= (if x.Native? then n' else k')
    && Belongs(native, script, x) && Section(native, script, x) == Switches(script, k)
  }

  lemma RoundMember(native: seq<Mark>, script: seq<Mark>, a: seq<nat>, b: seq<nat>, n: nat, n': nat, k: nat, k': nat,
                    i: nat)
    requires IsRound(native, script, a, b, n, n', k, k') && i < |Natives(a) + Scripts(b)|
    ensures OfRound(native, script, (Natives(a) + Scripts(b))[i], n, n', k, k')
  {
    SwitchesMonotone(script, 1, k);
    hide Switches;
    if i < |a| {
      assert ShownIn(native, a[i], n', n);
    } else {
      assert ShownIn(script, b[i - |a|], k', k);
    }
  }

  lemma RoundComplete(native: seq<Mark>, script: seq<Mark>, a: seq<nat>, b: seq<nat>, n: nat, n': nat, k: nat, k': nat,
                      x: Origin)
    requires IsRound(native, script, a, b, n, n', k, k')
    requires Within(x, n, k) && Belongs(native, script, x) && x.index >= (if x.Native? then n' else k')
    ensures x in Natives(a) + Scripts(b)
  {
    hide Switches, EndsAt, InStep;
    if x.Native? {
      var i :| 0 <= i < |a| && a[i] == x.index;
      assert Natives(a)[i] == x;
    } else {
      var i :| 0 <= i < |b| && b[i] == x.index;
      assert Scripts(b)[i] == x;
    }
  }

  lemma RoundOrder(native: seq<Mark>, script: seq<Mark>, a: seq<nat>, b: seq<nat>, n: nat, n': nat, k: nat, k': nat,
                   i: nat, j: nat)
    requires IsRound(native, script, a, b, n, n', k, k') && i < j < |Natives(a) + Scripts(b)|
    ensures var ab := Natives(a) + Scripts(b); Follows(native, script, ab[i], ab[j], n, k)
  {
    RoundMember(native, script, a, b, n, n', k, k', i);
    RoundMember(native, script, a, b, n, n', k, k', j);
    hide Switches, EndsAt, InStep, Belongs, ShownIn;
  }

  /** Native frames past the last section of the script stack are left out, and so belong nowhere. */
  lemma RestComplete(native: seq<Mark>, script: seq<Mark>, a: seq<nat>, b: seq<nat>, n: nat, n': nat, k: nat, x: Origin)
    requires IsRound(native, script, a, b, n, n', k, 0) && Within(x, n', 0)
    ensures !Belongs(native, script, x)
  {
    SwitchesMonotone(native, x.index + 1, n');
    hide Switches, IsSection;
  }

  lemma RestFollows(native: seq<Mark>, script: seq<Mark>, a: seq<nat>, b: seq<nat>, n: nat, n': nat, k: nat, k': nat,
                    x: Origin, y: Origin)
    requires IsRound(native, script, a, b, n, n', k, k') && k' > 0
    requires OfRound(native, script, x, n, n', k, k') && Within(y, n', k')
    ensures Follows(native, script, x, y, n, k)
  {
    hide Switches, IsSection, Belongs, EndsAt;
    if y.Native? {
      SwitchesMonotone(native, y.index + 1, n');
    } else {
      SwitchesMonotone(script, y.index + 1, k');
    }
    InStepAgain(native, script, a, b, n, n', k, k');
  }

  lemma RoundThenRest(native: seq<Mark>, script: seq<Mark>, a: seq<nat>, b: seq<nat>, rest: seq<Origin>,
                      n: nat, n': nat, k: nat, k': nat)
    requires IsRound(native, script, a, b, n, n', k, k')
    requires if k' == 0 then rest == [] else Exactly(native, script, rest, n', k')
    ensures Exactly(native, script, Natives(a) + Scripts(b) + rest, n, k)
  {
    BelongTogether(native, script, a, b, rest, n, n', k, k');
    ThereTogether(native, script, a, b, rest, n, n', k, k');
    OrderTogether(native, script, a, b, rest, n, n', k, k');
    hide AllBelong, AllThere, InOrder;
  }

  lemma BelongTogether(native: seq<Mark>, script: seq<Mark>, a: seq<nat>, b: seq<nat>, rest: seq<Origin>,
                       n: nat, n': nat, k: nat, k': nat)
    requires IsRound(native, script, a, b, n, n', k, k')
    requires if k' == 0 then rest == [] else AllBelong(native, script, rest, n', k')
    ensures AllBelong(native, script, Natives(a) + Scripts(b) + rest, n, k)
  {
    hide Belongs, Switches, IsSection, EndsAt, InStep;
    var ab := Natives(a) + Scripts(b);
    var out := ab + rest;
    forall i | 0 <= i < |out| ensures Within(out[i], n, k) && Belongs(native, script, out[i]) {
      if i < |ab| {
        RoundMember(native, script, a, b, n, n', k, k', i);
      } else {
        assert out[i] == rest[i - |ab|];
      }
    }
  }

  lemma ThereTogether(native: seq<Mark>, script: seq<Mark>, a: seq<nat>, b: seq<nat>, rest: seq<Origin>,
                      n: nat, n': nat, k: nat, k': nat)
    requires IsRound(native, script, a, b, n, n', k, k')
    requires k' > 0 ==> AllThere(native, script, rest, n', k')
    ensures AllThere(native, script, Natives(a) + Scripts(b) + rest, n, k)
  {
    hide Belongs, Switches, IsSection, EndsAt, InStep;
    forall x | Within(x, n, k) && Belongs(native, script, x) ensures x in Natives(a) + Scripts(b) + rest {
      if x.index >= (if x.Native? then n' else k') {
        RoundComplete(native, script, a, b, n, n', k, k', x);
      } else if k' == 0 {
        RestComplete(native, script, a, b, n, n', k, x);
        assert false;
      } else {
        assert x in rest;
      }
    }
  }

  lemma OrderTogether(native: seq<Mark>, script: seq<Mark>, a: seq<nat>, b: seq<nat>, rest: seq<Origin>,
                      n: nat, n': nat, k: nat, k': nat)
    requires IsRound(native, script, a, b, n, n', k, k')
    requires if k' == 0 then rest == []
             else AllBelong(native, script, rest, n', k') && InOrder(native, script, rest, n', k')
    ensures InOrder(native, script, Natives(a) + Scripts(b) + rest, n, k)
  {
    hide Belongs, Switches, IsSection, EndsAt, InStep, Outside, Follows, OfRound;
    var ab := Natives(a) + Scripts(b);
    var out := ab + rest;
    forall i, j | 0 <= i < j < |out| ensures Follows(native, script, out[i], out[j], n, k) {
      if j < |ab| {
        RoundOrder(native, script, a, b, n, n', k, k', i, j);
      } else if i < |ab| {
        RoundMember(native, script, a, b, n, n', k, k', i);
        RestFollows(native, script, a, b, n, n', k, k', ab[i], rest[j - |ab|]);
      } else {
        assert Follows(native, script, rest[i - |ab|], rest[j - |ab|], n', k');
        FollowsWider(native, script, rest[i - |ab|], rest[j - |ab|], n', k', n, k);
      }
    }
  }

  lemma FollowsWider(native: seq<Mark>, script: seq<Mark>, x: Origin, y: Origin, n': nat, k': nat, n: nat, k: nat)
    requires n' <= n <= |native| && k' <= k <= |script| && Follows(native, script, x, y, n', k')
    ensures Follows(native, script, x, y, n, k)
  {
  }

  lemma MergeDone(native: seq<Mark>, n: nat, script: seq<Mark>, k: nat, size: nat)
    requires n <= |native| && k <= |script| && (size >= MAX_STACK_SIZE || k == 0)
    ensures Merge(native, n, script, k, size) == []
  {
  }

  // ----- the size of the array

  lemma {:induction false} PartLimited(marks: seq<Mark>, n: nat, big: nat, room: nat)
    requires n <= |marks| && n <= big
    ensures var ((p, left), (q, left')) := (Part(marks, n, big), Part(marks, n, room));
      q == p[..if |p| < room then |p| else room] && (|p| < room ==> left == left')
  {
    if n > 0 && room > 0 && !marks[n - 1].Switch? {
      if marks[n - 1].Skipped? {
        PartLimited(marks, n - 1, big, room);
      } else {
        PartLimited(marks, n - 1, big - 1, room - 1);
      }
    }
  }

  lemma OneRound(native: seq<Mark>, n: nat, script: seq<Mark>, k: nat, size: nat)
    requires n <= |native| && 0 < k <= |script| && size < MAX_STACK_SIZE
    ensures var ((a, n'), (b, k')) := (Part(native, n, n), Part(script, k, k));
      var (merged, fits) := (Merge(native, n, script, k, size), size + |a| + |b| < MAX_STACK_SIZE);
      && (fits ==> merged == Natives(a) + Scripts(b) + Merge(native, n', script, k', size + |a| + |b|))
      && (!fits ==> merged == Natives(a) + Scripts(b)[..Least(Room(size + |a|), |b|)])
  {
    hide Part, Merge;
    var ((a, n'), (b, k')) := (Part(native, n, n), Part(script, k, k));
    PartLimited(script, k, k, Room(size + |a|));
    MergeUnfolds(native, n, script, k, size);
    var (q, left) := Part(script, k, Room(size + |a|));
    if size + |a| + |b| >= MAX_STACK_SIZE {
      MergeDone(native, n', script, left, size + |a| + |q|);
      assert Scripts(b)[..Least(Room(size + |a|), |b|)] == Scripts(q);
    }
  }

  function Least(a: nat, b: nat): nat { if a < b then a else b }

  /** The limit cuts the merge off; as long as it is not reached nothing is lost. */
  lemma {:induction false} MergeIsPrefix(native: seq<Mark>, n: nat, script: seq<Mark>, k: nat, size: nat)
    requires n <= |native| && k <= |script|
    ensures var (merged, all) := (Merge(native, n, script, k, size), MergeAll(native, n, script, k));
      merged <= all && (size + |merged| < MAX_STACK_SIZE ==> merged == all)
    decreases k
  {
    hide Part, Merge, MergeAll, Natives, Scripts;
    if k == 0 || size >= MAX_STACK_SIZE {
      MergeDone(native, n, script, k, size);
      NothingLeft(native, n, script);
    } else {
      var ((a, n'), (b, k')) := (Part(native, n, n), Part(script, k, k));
      OneRound(native, n, script, k, size);
      AllUnfolds(native, n, script, k);
      PartLengths(a, b);
      if size + |a| + |b| < MAX_STACK_SIZE {
        MergeIsPrefix(native, n', script, k', size + |a| + |b|);
      }
    }
  }

  lemma AllUnfolds(native: seq<Mark>, n: nat, script: seq<Mark>, k: nat)
    requires n <= |native| && 0 < k <= |script|
    ensures var ((a, n'), (b, k')) := (Part(native, n, n), Part(script, k, k));
      k' < k && MergeAll(native, n, script, k) == Natives(a) + Scripts(b) + MergeAll(native, n', script, k')
  {
    hide Part, Natives, Scripts;
  }

  // ----- how many frames there are

  /** The frames to show from `n` on are those of the sections before `s`. */
  ghost predicate CutAt(marks: seq<Mark>, n: nat, s: nat)
  {
    forall i :: 0 <= i < |marks| && marks[i].Shown? ==> (i >= n <==> Switches(marks, i + 1) < s)
  }

  lemma CutAgain(marks: seq<Mark>, part: seq<nat>, n: nat, n': nat, s: nat)
    requires n' <= n <= |marks| && IsSection(marks, part, n', n) && EndsAt(marks, n', n)
    requires CutAt(marks, n, s) && (n > 0 ==> Switches(marks, n) == s)
    ensures CutAt(marks, n', s + 1)
  {
    forall i | 0 <= i < |marks| && marks[i].Shown? ensures i >= n' <==> Switches(marks, i + 1) < s + 1 {
      if i < n' {
        SwitchesMonotone(marks, i + 1, n');
      } else if i < n {
        var a :| 0 <= a < |part| && part[a] == i;
        assert ShownIn(marks, part[a], n', n);
      }
    }
  }

  function Elements(part: seq<nat>): set<nat> { set i | i in part }

  lemma {:induction false} Distinct(part: seq<nat>)
    requires forall a, b :: 0 <= a < b < |part| ==> part[a] > part[b]
    ensures |Elements(part)| == |part|
  {
    if part != [] {
      Distinct(part[1..]);
      assert part[0] !in part[1..] && part == [part[0]] + part[1..];
      assert Elements(part) == {part[0]} + Elements(part[1..]);
    }
  }

  lemma SectionCounts(marks: seq<Mark>, part: seq<nat>, n: nat, n': nat, s: nat)
    requires n' <= n <= |marks| && IsSection(marks, part, n', n)
    requires CutAt(marks, n, s) && CutAt(marks, n', s + 1)
    ensures ShownBefore(marks, s + 1) == ShownBefore(marks, s) + |part|
  {
    hide Switches;
    Distinct(part);
    forall i | i in part ensures i < |marks| && marks[i].Shown? && n' <= i < n {
      var a :| 0 <= a < |part| && part[a] == i;
      assert ShownIn(marks, part[a], n', n);
    }
    forall i | i in ShownSet(marks, s + 1) ensures i in ShownSet(marks, s) + Elements(part) {
      assert marks[i].Shown? && i >= n';
    }
    forall i | i in ShownSet(marks, s) + Elements(part) ensures i in ShownSet(marks, s + 1) {
      assert i < |marks| && marks[i].Shown?;
      if i in ShownSet(marks, s) {
        assert i >= n;
      }
      assert i >= n';
    }
    assert ShownSet(marks, s + 1) == ShownSet(marks, s) + Elements(part);
    assert ShownSet(marks, s) !! Elements(part);
  }

  lemma SideCounts(marks: seq<Mark>, part: seq<nat>, n: nat, n': nat, s: nat)
    requires n' <= n <= |marks| && IsSection(marks, part, n', n) && EndsAt(marks, n', n)
    requires CutAt(marks, n, s) && (n > 0 ==> Switches(marks, n) == s)
    ensures CutAt(marks, n', s + 1) && ShownBefore(marks, s + 1) == ShownBefore(marks, s) + |part|
  {
    hide Switches, IsSection, EndsAt, CutAt, ShownBefore;
    CutAgain(marks, part, n, n', s);
    SectionCounts(marks, part, n, n', s);
  }

  lemma BeforeMonotone(marks: seq<Mark>, s: nat, t: nat)
    requires s <= t
    ensures ShownBefore(marks, s) <= ShownBefore(marks, t)
  {
    hide Switches;
    SubsetSize(ShownSet(marks, s), ShownSet(marks, t));
  }

  lemma SubsetSize(a: set<nat>, b: set<nat>)
    requires a <= b
    ensures |a| <= |b|
  {
    assert b == a + (b - a);
  }

  /** Both stacks have been gone through up to section `s`. */
  ghost predicate UpTo(native: seq<Mark>, n: nat, script: seq<Mark>, k: nat, s: nat, size: nat)
    requires n <= |native| && k <= |script|
  {
    && CutAt(native, n, s) && CutAt(script, k, s) && InStep(native, n, script, k) && s == Switches(script, k)
    && size == ShownBefore(native, s) + ShownBefore(script, s)
  }

  lemma RoundCounts(native: seq<Mark>, script: seq<Mark>, a: seq<nat>, b: seq<nat>, n: nat, n': nat, k: nat, k': nat,
                    size: nat)
    requires IsRound(native, script, a, b, n, n', k, k') && UpTo(native, n, script, k, Switches(script, k), size)
    ensures var s := Switches(script, k);
      && ShownBefore(native, s + 1) == ShownBefore(native, s) + |a|
      && ShownBefore(script, s + 1) == ShownBefore(script, s) + |b|
      && (k' > 0 ==> UpTo(native, n', script, k', s + 1, size + |a| + |b|))
      && (k' == 0 ==> Switches(script, 1) == s)
  {
    hide Switches, IsSection, EndsAt, CutAt, ShownBefore;
    SwitchesMonotone(script, 1, k);
    var s := Switches(script, k);
    SideCounts(native, a, n, n', s);
    SideCounts(script, b, k, k', s);
    if k' > 0 {
      InStepAgain(native, script, a, b, n, n', k, k');
    }
  }

  lemma {:induction false} AllCounts(native: seq<Mark>, n: nat, script: seq<Mark>, k: nat, size: nat)
    requires n <= |native| && 0 < k <= |script| && UpTo(native, n, script, k, Switches(script, k), size)
    ensures size + |MergeAll(native, n, script, k)| == Belonging(native, script)
    decreases k
  {
    hide Part, MergeAll, IsRound, ShownBefore, Switches, CutAt, InStep, Natives, Scripts;
    var ((a, n'), (b, k')) := (Part(native, n, n), Part(script, k, k));
    MergeRound(native, n, script, k);
    RoundCounts(native, script, a, b, n, n', k, k', size);
    PartLengths(a, b);
    if k' == 0 {
      NothingLeft(native, n', script);
    } else {
      AllCounts(native, n', script, k', size + |a| + |b|);
    }
  }

  /** The merge runs past the end of the array exactly in a section that does so. */
  lemma {:induction false} MergeOverflowsIff(native: seq<Mark>, n: nat, script: seq<Mark>, k: nat, s: nat, size: nat)
    requires n <= |native| && 0 < k <= |script| && UpTo(native, n, script, k, s, size) && size < MAX_STACK_SIZE
    ensures size + |Merge(native, n, script, k, size)| > MAX_STACK_SIZE
       <==> exists t | s <= t <= Switches(script, 1) :: Carries(native, script, t)
    decreases k
  {
    hide Part, Merge, MergeAll, IsRound, ShownBefore, Switches, CutAt, InStep, Natives, Scripts;
    var ((a, n'), (b, k')) := (Part(native, n, n), Part(script, k, k));
    MergeRound(native, n, script, k);
    RoundCounts(native, script, a, b, n, n', k, k', size);
    PartLengths(a, b);
    OneRound(native, n, script, k, size);
    SwitchesMonotone(script, 1, k);
    if size + |a| > MAX_STACK_SIZE {
      assert Carries(native, script, s);
    } else if size + |a| + |b| >= MAX_STACK_SIZE {
      forall t | s <= t ensures !Carries(native, script, t) {
        NoneCarries(native, script, s, t);
      }
    } else if k' == 0 {
      MergeDone(native, n', script, 0, size + |a| + |b|);
    } else {
      MergeOverflowsIff(native, n', script, k', s + 1, size + |a| + |b|);
    }
  }

  lemma NoneCarries(native: seq<Mark>, script: seq<Mark>, s: nat, t: nat)
    requires s <= t && !Carries(native, script, s)
    requires ShownBefore(native, s + 1) + ShownBefore(script, s + 1) >= MAX_STACK_SIZE
    ensures !Carries(native, script, t)
  {
    hide ShownBefore;
    if s < t {
      BeforeMonotone(native, s + 1, t);
      BeforeMonotone(script, s + 1, t);
    }
  }

  lemma AtTheStart(native: seq<Mark>, script: seq<Mark>)
    ensures UpTo(native, |native|, script, |script|, 0, 0)
  {
    assert ShownSet(native, 0) == {} && ShownSet(script, 0) == {};
  }

  lemma OverflowIff(native: seq<StackEntry>, script: seq<ScriptFrame>)
    ensures |Unified(native, script)| > MAX_STACK_SIZE <==> Overflows(NativeMarks(native), ScriptMarks(script))
  {
    hide Merge, UpTo, Carries;
    var (nativeMarks, scriptMarks) := (NativeMarks(native), ScriptMarks(script));
    AtTheStart(nativeMarks, scriptMarks);
    if script == [] {
      MergeDone(nativeMarks, |native|, scriptMarks, 0, 0);
    } else {
      MergeOverflowsIff(nativeMarks, |native|, scriptMarks, |script|, 0, 0);
    }
  }

  lemma AllIs(native: seq<StackEntry>, script: seq<ScriptFrame>)
    ensures var (nativeMarks, scriptMarks) := (NativeMarks(native), ScriptMarks(script));
      && Exactly(nativeMarks, scriptMarks, All(native, script), |native|, |script|)
      && |All(native, script)| == Belonging(nativeMarks, scriptMarks)
  {
    hide MergeAll, UpTo;
    var (nativeMarks, scriptMarks) := (NativeMarks(native), ScriptMarks(script));
    AtTheStart(nativeMarks, scriptMarks);
    if script == [] {
      NothingLeft(nativeMarks, |native|, scriptMarks);
    } else {
      MergeIs(nativeMarks, |native|, scriptMarks, |script|);
      AllCounts(nativeMarks, |native|, scriptMarks, |script|, 0);
    }
  }

  /** The unified stack has the outermost 100 of the frames that belong there, each once, in order, or it overflows. */
  lemma UnifiedIs(native: seq<StackEntry>, script: seq<ScriptFrame>)
    ensures var (nativeMarks, scriptMarks, all) := (NativeMarks(native), ScriptMarks(script), All(native, script));
      && Exactly(nativeMarks, scriptMarks, all, |native|, |script|)
      && Unified(native, script) <= all
      && (!Overflows(nativeMarks, scriptMarks) ==>
            |Unified(native, script)| == Least(MAX_STACK_SIZE, Belonging(nativeMarks, scriptMarks)))
      && (Belonging(nativeMarks, scriptMarks) <= MAX_STACK_SIZE ==> Unified(native, script) == all)
  {
    hide Merge, MergeAll, Exactly, Overflows, Belonging;
    AllIs(native, script);
    OverflowIff(native, script);
    MergeIsPrefix(NativeMarks(native), |native|, ScriptMarks(script), |script|, 0);
  }

  /** Transitions and Lua's own functions take no room: it is enough that few frames belong. */
  lemma FewFit(native: seq<StackEntry>, script: seq<ScriptFrame>)
    ensures Belonging(NativeMarks(native), ScriptMarks(script)) <= |native| + |script|
    ensures Belonging(NativeMarks(native), ScriptMarks(script)) <= MAX_STACK_SIZE ==>
      !Overflows(NativeMarks(native), ScriptMarks(script))
  {
    var (nativeMarks, scriptMarks) := (NativeMarks(native), ScriptMarks(script));
    hide Switches;
    if script != [] {
      var last := Switches(scriptMarks, 1);
      NoMoreThanAll(nativeMarks, last + 1);
      NoMoreThanAll(scriptMarks, last + 1);
      hide ShownBefore;
      forall s: nat | s <= last
        ensures !(Belonging(nativeMarks, scriptMarks) <= MAX_STACK_SIZE && Carries(nativeMarks, scriptMarks, s))
      {
        BeforeMonotone(nativeMarks, s + 1, last + 1);
        BeforeMonotone(scriptMarks, s, last + 1);
      }
    }
  }

  lemma NoMoreThanAll(marks: seq<Mark>, s: nat)
    ensures ShownBefore(marks, s) <= |marks|
  {
    SubsetSize(ShownSet(marks, s), Range(0, |marks|));
  }

  function Range(lo: nat, hi: nat): (r: set<nat>)
    requires lo <= hi
    ensures |r| == hi - lo && forall i :: i in r <==> lo <= i < hi
    decreases hi - lo
  {
    if lo == hi then {} else {lo} + Range(lo + 1, hi)
  }

  // ----- two stacks within their limits that overflow together

  function Named(name: string): StackEntry { StackEntry("", name, 0, -1, 0) }

  function OfKind(what: string): ScriptFrame { ScriptFrame(None, Some(what), 0, 1) }

  function SomeNative(): seq<StackEntry> { [Named("a"), Named("b"), Named("c"), Named("lua_pcall")] }

  function SomeScript(): seq<ScriptFrame> { [OfKind("Lua"), OfKind("C")] + seq(98, i => OfKind("Lua")) }

  /** 98 Lua functions that call through C into three native functions. */
  lemma SomeStacksOverflow()
    ensures |SomeNative()| == 4 && |SomeScript()| == MAX_STACK_SIZE
    ensures |Unified(SomeNative(), SomeScript())| > MAX_STACK_SIZE
  {
    hide Merge, Switches, ShownBefore;
    OverflowIff(SomeNative(), SomeScript());
    SomeNativeCounts();
    SomeScriptCounts();
    assert Carries(NativeMarks(SomeNative()), ScriptMarks(SomeScript()), 1);
  }

  lemma SomeNativeCounts()
    ensures ShownBefore(NativeMarks(SomeNative()), 1) == 0 && ShownBefore(NativeMarks(SomeNative()), 2) == 3
  {
    var marks := NativeMarks(SomeNative());
    assert marks == [Shown, Shown, Shown, Switch];
    assert Switches(marks, 4) == 0 && Switches(marks, 3) == 1 && Switches(marks, 2) == 1 && Switches(marks, 1) == 1;
    hide Switches;
    assert ShownSet(marks, 1) == {};
    assert ShownSet(marks, 2) == {0, 1, 2};
  }

  lemma SomeScriptCounts()
    ensures ShownBefore(ScriptMarks(SomeScript()), 1) == 98 && Switches(ScriptMarks(SomeScript()), 1) == 1
  {
    hide Switches, ShownBefore;
    var marks := ScriptMarks(SomeScript());
    assert marks[1].Switch?;
    OneSwitchCounts(marks);
  }

  lemma OneSwitchCounts(marks: seq<Mark>)
    requires |marks| > 1 && marks[1].Switch? && forall i :: 2 <= i < |marks| ==> marks[i].Shown?
    ensures ShownBefore(marks, 1) == |marks| - 2 && Switches(marks, 1) == 1
  {
    hide Range;
    forall i | 2 <= i <= |marks| ensures Switches(marks, i) == 0 {
      NoSwitchFrom(marks, i);
    }
    SwitchesMonotone(marks, 1, 2);
    SwitchesMonotone(marks, 0, 1);
    assert Switches(marks, 1) == 1;
    hide Switches;
    assert ShownSet(marks, 1) == Range(2, |marks|);
  }

  lemma {:induction false} NoSwitchFrom(marks: seq<Mark>, i: nat)
    requires i <= |marks| && forall j :: i <= j < |marks| ==> !marks[j].Switch?
    ensures Switches(marks, i) == 0
    decreases |marks| - i
  {
    if i < |marks| {
      NoSwitchFrom(marks, i + 1);
    }
  }

  // ----- the loops

  ghost predicate Represents(e: StackEntry, native: seq<StackEntry>, script: seq<ScriptFrame>, x: Origin)
  {
    if x.Native? then x.index < |native| && e == native[x.index]
    else x.index < |script| && IsEntryFor(e, script[x.index])
  }

  ghost predicate AreNative(entries: seq<StackEntry>, native: seq<StackEntry>, part: seq<nat>)
  {
    |entries| == |part| && forall i :: 0 <= i < |part| ==> part[i] < |native| && entries[i] == native[part[i]]
  }

  ghost predicate AreScript(entries: seq<StackEntry>, script: seq<ScriptFrame>, part: seq<nat>)
  {
    |entries| == |part| && forall i :: 0 <= i < |part| ==> part[i] < |script| && IsEntryFor(entries[i], script[part[i]])
  }

  ghost predicate AllRepresent(entries: seq<StackEntry>, native: seq<StackEntry>, script: seq<ScriptFrame>,
                               origins: seq<Origin>)
  {
    |entries| == |origins| && forall i :: 0 <= i < |entries| ==> Represents(entries[i], native, script, origins[i])
  }

  lemma NoneYet(native: seq<StackEntry>, script: seq<ScriptFrame>)
    ensures AreNative([], native, []) && AreScript([], script, [])
  {
  }

  lemma OneMoreNative(entries: seq<StackEntry>, native: seq<StackEntry>, part: seq<nat>, i: nat)
    requires AreNative(entries, native, part) && i < |native|
    ensures AreNative(entries + [native[i]], native, part + [i])
  {
  }

  lemma OneMoreScript(entries: seq<StackEntry>, script: seq<ScriptFrame>, part: seq<nat>, i: nat, e: StackEntry)
    requires AreScript(entries, script, part) && i < |script| && IsEntryFor(e, script[i])
    ensures AreScript(entries + [e], script, part + [i])
  {
    hide IsEntryFor;
  }

  lemma RoundRepresents(before: seq<StackEntry>, e: seq<StackEntry>, f: seq<StackEntry>, native: seq<StackEntry>,
                        script: seq<ScriptFrame>, done: seq<Origin>, a: seq<nat>, b: seq<nat>)
    requires AllRepresent(before, native, script, done) && AreNative(e, native, a) && AreScript(f, script, b)
    ensures AllRepresent(before + e + f, native, script, done + Natives(a) + Scripts(b))
  {
    hide IsEntryFor;
    var entries, origins := before + e + f, done + Natives(a) + Scripts(b);
    forall i | 0 <= i < |entries| ensures Represents(entries[i], native, script, origins[i]) {
      if i < |before| {
        assert Represents(before[i], native, script, done[i]);
      }
    }
  }

  predicate IsEntryFor(e: StackEntry, f: ScriptFrame)
  {
    e.scriptIndex == f.scriptIndex && e.line == f.currentLine - 1 && e.name == Clipped(FunctionName(f))
  }

  /** An entry's other fields keep whatever they were. */
  function FillEntry(e: StackEntry, f: ScriptFrame): (filled: StackEntry)
    ensures IsEntryFor(filled, f)
  {
    e.(scriptIndex := f.scriptIndex, line := f.currentLine - 1, name := Clipped(FunctionName(f)))
  }

  lemma {:induction false} RoomDoesNotMatter(marks: seq<Mark>, n: nat, room: nat)
    requires n <= |marks| && n <= room
    ensures Part(marks, n, room) == Part(marks, n, n)
    decreases n
  {
    if n > 0 && !marks[n - 1].Switch? {
      RoomDoesNotMatter(marks, n - 1, if marks[n - 1].Skipped? then room else room - 1);
      if marks[n - 1].Skipped? {
        RoomDoesNotMatter(marks, n - 1, n);
      }
    }
  }

  lemma NativeStep(marks: seq<Mark>, n: nat)
    requires 0 < n <= |marks|
    ensures Part(marks, n, n)
         == if marks[n - 1].Switch? then ([], n - 1)
            else var (part, left) := Part(marks, n - 1, n - 1);
              (if marks[n - 1].Skipped? then part else [n - 1] + part, left)
  {
    RoomDoesNotMatter(marks, n - 1, n);
  }

  /** The frames to show from the `n`-th up to the next transition. */
  function ShownHere(marks: seq<Mark>, n: nat): set<nat>
    requires n <= |marks|
  {
    set i | 0 <= i < n && marks[i].Shown? && Switches(marks, i + 1) == Switches(marks, n)
  }

  lemma PartCounts(marks: seq<Mark>, n: nat)
    requires n <= |marks|
    ensures |Part(marks, n, n).0| == |ShownHere(marks, n)|
  {
    hide Part, Switches, ShownHere, IsSection, EndsAt;
    PartIs(marks, n, n);
    var (part, left) := Part(marks, n, n);
    HereIs(marks, part, left, n);
  }

  lemma HereIs(marks: seq<Mark>, part: seq<nat>, left: nat, n: nat)
    requires left <= n <= |marks| && IsSection(marks, part, left, n) && EndsAt(marks, left, n)
    ensures |part| == |ShownHere(marks, n)|
  {
    Distinct(part);
    forall i | i in ShownHere(marks, n) ensures i in part {
      if i < left {
        SwitchesMonotone(marks, i + 1, left);
      }
    }
    hide Switches;
    forall i | i in part ensures i in ShownHere(marks, n) {
      var a :| 0 <= a < |part| && part[a] == i;
      assert ShownIn(marks, part[a], left, n);
    }
    assert ShownHere(marks, n) == Elements(part);
  }

  /** Walks up the native stack to a transition into Lua. */
  method WalkNative(native: seq<StackEntry>, pos: int, stack: array<StackEntry>, size: nat)
    returns (nativePos: int, stackSize: nat)
    requires -1 <= pos < |native| && stack.Length == MAX_STACK_SIZE
    requires size + |ShownHere(NativeMarks(native), pos + 1)| <= MAX_STACK_SIZE
    modifies stack
    ensures var (part, left) := Part(NativeMarks(native), pos + 1, pos + 1);
      && nativePos == left - 1 && stackSize == size + |part| <= MAX_STACK_SIZE
      && stack[..size] == old(stack[..size]) && AreNative(stack[size..stackSize], native, part)
  {
    hide IsInternal, Part, AreNative, ShownHere, Switches, NativeMarks;
    ghost var marks := NativeMarks(native);
    PartCounts(marks, pos + 1);
    ghost var (part, left) := Part(marks, pos + 1, pos + 1);
    ghost var done: seq<nat> := [];
    NoneYet(native, []);
    nativePos, stackSize := pos, size;
    assert stack[size..stackSize] == [];
    while nativePos >= 0
      invariant -1 <= nativePos <= pos && stackSize == size + |done|
      invariant part == done + Part(marks, nativePos + 1, nativePos + 1).0
      invariant left == Part(marks, nativePos + 1, nativePos + 1).1
      invariant stack[..size] == old(stack[..size])
      invariant AreNative(stack[size..stackSize], native, done)
    {
      NativeStep(marks, nativePos + 1);
      NativeMarkIs(native, nativePos);
      if native[nativePos].name == "lua_pcall" {
        nativePos := nativePos - 1;
        break;
      }
      if !IsInternal(native[nativePos]) {
        OneMoreNative(stack[size..stackSize], native, done, nativePos);
        stack[stackSize] := native[nativePos];
        stackSize := stackSize + 1;
        assert stack[size..stackSize] == stack[size..stackSize - 1] + [native[nativePos]];
        done := done + [nativePos];
      }
      nativePos := nativePos - 1;
    }
    PartOfNothing(marks);
    assert part == done;
  }

  lemma NativeMarkIs(native: seq<StackEntry>, i: nat)
    requires i < |native|
    ensures var mark := NativeMarks(native)[i];
      (mark.Switch? <==> IsPCall(native[i])) && (mark.Skipped? <==> !IsPCall(native[i]) && IsInternal(native[i]))
  {
  }

  lemma PartOfNothing(marks: seq<Mark>)
    ensures Part(marks, 0, 0) == ([], 0)
  {
  }

  /** Walks up the script stack to a transition into C. */
  method WalkScript(script: seq<ScriptFrame>, pos: int, stack: array<StackEntry>, size: nat)
    returns (scriptPos: int, stackSize: nat)
    requires -1 <= pos < |script| && stack.Length == MAX_STACK_SIZE && size <= MAX_STACK_SIZE
    modifies stack
    ensures var (part, left) := Part(ScriptMarks(script), pos + 1, Room(size));
      && scriptPos == left - 1 && stackSize == size + |part| <= MAX_STACK_SIZE
      && stack[..size] == old(stack[..size]) && AreScript(stack[size..stackSize], script, part)
  {
    hide Part, IsEntryFor, FillEntry, AreScript, ScriptMarks;
    ghost var marks := ScriptMarks(script);
    ghost var (part, left) := Part(marks, pos + 1, Room(size));
    ghost var done: seq<nat> := [];
    NoneYet([], script);
    scriptPos, stackSize := pos, size;
    assert stack[size..stackSize] == [];
    while scriptPos >= 0 && stackSize < MAX_STACK_SIZE
      invariant -1 <= scriptPos <= pos && stackSize == size + |done| <= MAX_STACK_SIZE
      invariant part == done + Part(marks, scriptPos + 1, Room(stackSize)).0
      invariant left == Part(marks, scriptPos + 1, Room(stackSize)).1
      invariant stack[..size] == old(stack[..size])
      invariant AreScript(stack[size..stackSize], script, done)
    {
      ScriptStep(marks, scriptPos + 1, Room(stackSize));
      ScriptMarkIs(script, scriptPos);
      var f := script[scriptPos];
      if f.what.Some? && f.what.value == "C" {
        scriptPos := scriptPos - 1;
        break;
      }
      var filled := FillEntry(stack[stackSize], f);
      OneMoreScript(stack[size..stackSize], script, done, scriptPos, filled);
      stack[stackSize] := filled;
      done := done + [scriptPos];
      stackSize := stackSize + 1;
      assert stack[size..stackSize] == stack[size..stackSize - 1] + [filled];
      scriptPos := scriptPos - 1;
    }
    if scriptPos < 0 || stackSize == MAX_STACK_SIZE {
      PartEnds(marks, scriptPos + 1, Room(stackSize));
    }
    assert part == done;
  }

  lemma ScriptMarkIs(script: seq<ScriptFrame>, i: nat)
    requires i < |script|
    ensures ScriptMarks(script)[i] == if IsC(script[i]) then Switch else Shown
  {
  }

  lemma ScriptStep(marks: seq<Mark>, n: nat, room: nat)
    requires 0 < n <= |marks| && room > 0
    ensures marks[n - 1].Switch? ==> Part(marks, n, room) == ([], n - 1)
    ensures marks[n - 1].Shown? ==>
      Part(marks, n, room) == ([n - 1] + Part(marks, n - 1, room - 1).0, Part(marks, n - 1, room - 1).1)
  {
  }

  lemma PartEnds(marks: seq<Mark>, n: nat, room: nat)
    requires n <= |marks|
    ensures n == 0 || room == 0 ==> Part(marks, n, room) == ([], n)
  {
  }

  /** A name as long as an entry has room for. */
  predicate IsShort(name: string, full: string)
  {
    name == full[..if |full| < 256 then |full| else 256]
  }

  /** The name of a script frame: Lua's name for the function, else what kind of function it is. */
  predicate IsNamed(e: StackEntry, f: ScriptFrame)
  {
    if f.name != None && f.name != Some("") then IsShort(e.name, f.name.value)
    else if f.what != None then IsShort(e.name, f.what.value)
    else e.name == "<Unknown>"
  }

  /** The program's own functions: those of the Lua library are not shown. */
  predicate OfProgram(e: StackEntry)
  {
    !("lua_" <= e.name) && !("luaD_" <= e.name) && !("luaV_" <= e.name)
  }

  lemma EntryNamed(e: StackEntry, f: ScriptFrame)
    requires IsEntryFor(e, f)
    ensures IsNamed(e, f)
  {
    if f.name.Some? && f.name.value != "" {
    } else if f.what == None {
      assert |"<Unknown>"| == 9;
    }
  }

  /** What decides whether a frame is a transition, shown or skipped. */
  lemma MarksAre(native: seq<StackEntry>, script: seq<ScriptFrame>)
    ensures forall i :: 0 <= i < |native| ==>
      && (NativeMarks(native)[i] == Switch <==> native[i].name == "lua_pcall")
      && (NativeMarks(native)[i] == Shown <==> OfProgram(native[i]))
    ensures forall i :: 0 <= i < |script| ==>
      && (ScriptMarks(script)[i] == Switch <==> script[i].what == Some("C"))
      && (ScriptMarks(script)[i] == Shown <==> script[i].what != Some("C"))
  {
    forall i | 0 <= i < |native|
      ensures NativeMarks(native)[i] == Switch <==> native[i].name == "lua_pcall"
      ensures NativeMarks(native)[i] == Shown <==> OfProgram(native[i])
    {
      NativeMarkIs(native, i);
      PrefixesAre(native[i].name);
    }
  }

  lemma PrefixesAre(name: string)
    ensures StartsWith(name, "lua_") <==> "lua_" <= name
    ensures StartsWith(name, "luaD_") <==> "luaD_" <= name
    ensures StartsWith(name, "luaV_") <==> "luaV_" <= name
    ensures name == "lua_pcall" ==> "lua_" <= name
  {
  }

  /** An entry of the unified stack shows its frame: a native one is a copy, a script one has place and name. */
  ghost predicate ShowsFrame(e: StackEntry, native: seq<StackEntry>, script: seq<ScriptFrame>, x: Origin)
  {
    match x
    case Native(i) => i < |native| && e == native[i] && OfProgram(e)
    case Script(i) =>
      && i < |script| && script[i].what != Some("C") && IsNamed(e, script[i])
      && e.scriptIndex == script[i].scriptIndex && e.line == script[i].currentLine - 1
  }

  lemma RepresentedShown(entries: seq<StackEntry>, native: seq<StackEntry>, script: seq<ScriptFrame>)
    requires AllRepresent(entries, native, script, Unified(native, script))
    ensures forall i :: 0 <= i < |entries| ==> ShowsFrame(entries[i], native, script, Unified(native, script)[i])
  {
    UnifiedIs(native, script);
    MarksAre(native, script);
    hide NativeMarks, ScriptMarks, Merge, MergeAll, IsNamed, OfProgram, Belonging, Overflows;
    var origins, all := Unified(native, script), All(native, script);
    forall i | 0 <= i < |entries| ensures ShowsFrame(entries[i], native, script, origins[i]) {
      assert Represents(entries[i], native, script, origins[i]);
      assert origins[i] == all[i] && Belongs(NativeMarks(native), ScriptMarks(script), all[i]);
      if origins[i].Script? {
        EntryNamed(entries[i], script[origins[i].index]);
      }
    }
  }

  /** Only the script frames are checked against the size of the array. */
  method GetUnifiedStack(native: seq<StackEntry>, script: seq<ScriptFrame>, stack: array<StackEntry>)
    returns (stackSize: nat)
    requires stack.Length == MAX_STACK_SIZE && !Overflows(NativeMarks(native), ScriptMarks(script))
    modifies stack
    ensures var origins := Unified(native, script);
      stackSize == |origins| && stackSize <= MAX_STACK_SIZE && AllRepresent(stack[..stackSize], native, script, origins)
    ensures forall i :: 0 <= i < stackSize ==> ShowsFrame(stack[i], native, script, Unified(native, script)[i])
  {
    hide Part, Merge, AreNative, AreScript, AllRepresent, Natives, Scripts, Overflows, ShownHere, Switches;
    hide NativeMarks, ScriptMarks;
    OverflowIff(native, script);
    ghost var nativeMarks, scriptMarks := NativeMarks(native), ScriptMarks(script);
    ghost var done: seq<Origin> := [];
    NothingRepresents(native, script);
    var nativePos, scriptPos := |native| - 1, |script| - 1;
    stackSize := 0;
    while stackSize < MAX_STACK_SIZE && scriptPos >= 0
      invariant -1 <= nativePos < |native| && -1 <= scriptPos < |script| && stackSize == |done|
      invariant Unified(native, script)
             == done + Merge(nativeMarks, nativePos + 1, scriptMarks, scriptPos + 1, stackSize)
      invariant AllRepresent(stack[..stackSize], native, script, done)
      decreases scriptPos, stackSize < MAX_STACK_SIZE
    {
      ghost var (a, n) := Part(nativeMarks, nativePos + 1, nativePos + 1);
      ghost var (b, k) := Part(scriptMarks, scriptPos + 1, Room(stackSize + |a|));
      MergeUnfolds(nativeMarks, nativePos + 1, scriptMarks, scriptPos + 1, stackSize);
      PartLengths(a, b);
      PartCounts(nativeMarks, nativePos + 1);
      ghost var before := stack[..stackSize];
      ghost var size0 := stackSize;
      nativePos, stackSize := WalkNative(native, nativePos, stack, stackSize);
      ghost var size1 := stackSize;
      ghost var e := stack[size0..size1];
      assert stack[..size1] == before + e;
      scriptPos, stackSize := WalkScript(script, scriptPos, stack, stackSize);
      assert stack[..stackSize] == before + e + stack[size1..stackSize];
      RoundRepresents(before, e, stack[size1..stackSize], native, script, done, a, b);
      done := done + Natives(a) + Scripts(b);
    }
    MergeDone(nativeMarks, nativePos + 1, scriptMarks, scriptPos + 1, stackSize);
    assert Unified(native, script) == done;
    RepresentedShown(stack[..stackSize], native, script);
  }

  lemma NothingRepresents(native: seq<StackEntry>, script: seq<ScriptFrame>)
    ensures AllRepresent([], native, script, [])
  {
  }

  lemma PartLengths(a: seq<nat>, b: seq<nat>)
    ensures |Natives(a)| == |a| && |Scripts(b)| == |b|
  {
  }
}
