/**
 * The 32-bit call thunk. It pushes the stack arguments again, pushes `upValue`, calls the hook with a relative call
 * patched after the code has its address, drops what it pushed and returns. Two of its operands are single
 * sign-extended bytes, which limits how many arguments it can serve.
 */
module Thunk86 {
  import opened Bytes
  import opened Machine
  import opened Options
  import opened CodeBuffer

  // ----- the processor, as far as thunks use it

  datatype Operation =
    | PushMem(disp: int)
    | PushImm(v: Word32)
    | CallRel(rel: int)
    | AddEsp(k: int)
    | Ret

  function Decode(s: seq<Byte>): Option<(Operation, nat)>
  {
    if |s| >= 4 && s[0] == 0xff && s[1] == 0x74 && s[2] == 0x24 then Some((PushMem(SignExtend8(s[3])), 4))
    else if |s| >= 5 && s[0] == 0x68 then Some((PushImm(Dword(s[1..5])), 5))
    else if |s| >= 5 && s[0] == 0xe8 then Some((CallRel(SignExtend32(Dword(s[1..5]))), 5))
    else if |s| >= 3 && s[0] == 0x83 && s[1] == 0xc4 then Some((AddEsp(SignExtend8(s[2])), 3))
    else if |s| >= 1 && s[0] == 0xc3 then Some((Ret, 1))
    else None
  }

  function Dword(bs: seq<Byte>): Word32
    requires |bs| == 4
  {
    FromLeBound(bs);
    Spans();
    FromLe(bs)
  }

  /** Stack memory as aligned doublewords. */
  type Memory = int -> Word32

  ghost function Put(m: Memory, a: int, v: Word32): Memory
  {
    (x: int) => if x == a then v else m(x)
  }

  /** `saved` stands for the registers a function must preserve: the thunk touches none of them. */
  datatype Cpu = Cpu(esp: Word32, eax: Word32, saved: seq<Word32>, eip: Word32, mem: Memory)

  predicate Usable(a: int)
  {
    0 <= a < TWO_TO_THE_32 && a % 4 == 0
  }

  ghost function Push(c: Cpu, v: Word32, eip: Word32): Option<Cpu>
  {
    if Usable(c.esp - 4) then Some(Cpu(c.esp - 4, c.eax, c.saved, eip, Put(c.mem, c.esp - 4, v))) else None
  }

  ghost function Exec(op: Operation, c: Cpu, next: Word32): Option<Cpu>
  {
    match op
    case PushMem(disp) => if Usable(c.esp + disp) then Push(c, c.mem(c.esp + disp), next) else None
    case PushImm(v) => Push(c, v, next)
    case CallRel(rel) => Push(c, next, (next + rel) % TWO_TO_THE_32)
    case AddEsp(k) => if Usable(c.esp + k) then Some(c.(esp := c.esp + k, eip := next)) else None
    case Ret => if Usable(c.esp) && Usable(c.esp + 4) then Some(c.(esp := c.esp + 4, eip := c.mem(c.esp))) else None
  }

  ghost function Step(code: seq<Byte>, base: nat, c: Cpu): Option<Cpu>
  {
    if base <= c.eip < base + |code| then
      match Decode(code[c.eip - base..])
      case Some((op, len)) => if c.eip + len < TWO_TO_THE_32 then Exec(op, c, c.eip + len) else None
      case None => None
    else None
  }

  ghost function Processor(code: seq<Byte>, base: nat): Cpu -> Option<Cpu>
  {
    c => Step(code, base, c)
  }

  ghost function Run(code: seq<Byte>, base: nat, c: Cpu, steps: nat): Option<Cpu>
  {
    Iterate(Processor(code, base), c, steps)
  }

  // ----- the code

  /** The most arguments for which the code fits the generator's buffer. */
  const MAX_ARGS: nat := 508

  /** The most arguments the thunk can serve: 4 * (n + 1) must be a positive signed byte. */
  const MAX_SERVED: nat := 30

  /** `push dword ptr [esp + 4n]`; the displacement keeps the low byte of 4n. */
  function PushArgBytes(n: nat): seq<Byte>
  {
    [0xff, 0x74, 0x24, 4 * n % 256]
  }

  function Repeat(bs: seq<Byte>, k: nat): (r: seq<Byte>)
    ensures |r| == k * |bs|
  {
    if k == 0 then [] else Repeat(bs, k - 1) + bs
  }

  /** Where the call's operand is, counted from the start of the code. */
  function CallIndex(n: nat): nat { 4 * n + 6 }

  /** The operand that makes a relative call from a copy at `base` reach `hook`. */
  function Displacement(hook: Word32, base: Word32, n: nat): Word32
  {
    (hook - base - CallIndex(n) - 4) % TWO_TO_THE_32
  }

  function Head(upValue: Word32, n: nat): (bs: seq<Byte>)
    ensures |bs| == CallIndex(n)
  {
    Repeat(PushArgBytes(n), n) + ([0x68] + Le(upValue, 4) + [0xe8])
  }

  function Tail(n: nat): seq<Byte>
  {
    [0x83, 0xc4, 4 * (n + 1) % 256, 0xc3]
  }

  /** The generated code with operand `rel` in its call. */
  function ThunkBytes(rel: Word32, upValue: Word32, n: nat): (bs: seq<Byte>)
    ensures |bs| == 4 * n + 14
  {
    Head(upValue, n) + Le(rel, 4) + Tail(n)
  }

  // ----- the generator

  /** Writes the thunk in the static buffer, copies it and patches the copy, which is at address `base`. */
  method InstanceFunction(buf: Buffer, hook: Word32, upValue: Word32, n: nat, base: Word32)
    returns (instance: array<Byte>)
    requires buf.Valid() && n <= MAX_ARGS
    modifies buf, buf.code
    ensures buf.Valid() && fresh(instance)
    ensures instance[..] == ThunkBytes(Displacement(hook, base, n), upValue, n)
  {
    buf.Reset();
    var inst := 0x2474ff + 4 * n % 256 * 0x100_0000;
    PushArgWord(n);
    var i := 0;
    while i < n
      invariant i <= n && buf.Valid() && buf.emitted == Repeat(PushArgBytes(n), i)
    {
      buf.EmitWord(inst, 4);
      i := i + 1;
    }
    var callIndex := EmitCallAndReturn(buf, upValue, n);
    instance := buf.Copy();
    var rel := Le(Displacement(hook, base, n), 4);
    forall k | 0 <= k < 4 {
      instance[callIndex + k] := rel[k];
    }
    Patched(instance[..], rel, upValue, n);
  }

  lemma PushArgWord(n: nat)
    ensures Le(0x2474ff + 4 * n % 256 * 0x100_0000, 4) == PushArgBytes(n)
  {
    var b := 4 * n % 256;
    var v := 0x2474ff + b * 0x100_0000;
    assert v % 256 == 0xff && v / 256 == 0x2474 + b * 0x1_0000;
    assert v / 256 % 256 == 0x74 && v / 256 / 256 == 0x24 + b * 0x100;
    assert v / 256 / 256 % 256 == 0x24 && v / 256 / 256 / 256 == b;
    assert Le(b, 1) == [b];
    assert Le(v / 256 / 256, 2) == [0x24, b];
    assert Le(v / 256, 3) == [0x74, 0x24, b];
  }

  method EmitReturn(buf: Buffer, n: nat)
    requires buf.Valid() && |buf.emitted| + 4 <= BUFFER_SIZE
    modifies buf, buf.code
    ensures buf.Valid() && buf.emitted == old(buf.emitted) + Tail(n)
  {
    buf.Emit(0x83);
    buf.Emit(0xc4);
    buf.Emit((n + 1) * 4 % 256);
    buf.Emit(0xc3);
  }

  /** What follows the pushes, with a zero operand in the call. */
  method EmitCallAndReturn(buf: Buffer, upValue: Word32, n: nat) returns (callIndex: nat)
    requires buf.Valid() && n <= MAX_ARGS && buf.emitted == Repeat(PushArgBytes(n), n)
    modifies buf, buf.code
    ensures buf.Valid() && buf.emitted == ThunkBytes(0, upValue, n) && callIndex == CallIndex(n)
  {
    hide Buffer.Valid, Le, Repeat;
    buf.Emit(0x68);
    buf.EmitWord(upValue, 4);
    buf.Emit(0xe8);
    ghost var head := Head(upValue, n);
    assert buf.emitted == head;
    hide Head;
    callIndex := buf.index;
    buf.EmitWord(0, 4);
    EmitReturn(buf, n);
  }

  lemma Patched(code: seq<Byte>, rel: seq<Byte>, upValue: Word32, n: nat)
    requires |rel| == 4 && |code| == 4 * n + 14
    requires code[..CallIndex(n)] == ThunkBytes(0, upValue, n)[..CallIndex(n)]
    requires code[CallIndex(n)..CallIndex(n) + 4] == rel
    requires code[CallIndex(n) + 4..] == ThunkBytes(0, upValue, n)[CallIndex(n) + 4..]
    ensures code == Head(upValue, n) + rel + Tail(n)
  {
    hide Le, Repeat;
    assert code == code[..CallIndex(n)] + code[CallIndex(n)..CallIndex(n) + 4] + code[CallIndex(n) + 4..];
    assert ThunkBytes(0, upValue, n)[..CallIndex(n)] == Head(upValue, n);
    assert ThunkBytes(0, upValue, n)[CallIndex(n) + 4..] == Tail(n);
  }

  // ----- running it

  /** Argument `k` (from 1) of a function just entered. */
  ghost function Arg(c: Cpu, k: nat): Word32
    requires k > 0
  {
    c.mem(c.esp + 4 * k)
  }

  /** An aligned stack with room for what the thunk pushes and for the displacements it can ask for. */
  ghost predicate HasRoom(c: Cpu, n: nat)
  {
    c.esp % 4 == 0 && c.esp >= 4 * n + 140 && c.esp + 4 * n + 140 < TWO_TO_THE_32
  }

  lemma PushAt(code: seq<Byte>, rest: seq<Byte>, base: nat, c: Cpu, n: nat, k: nat)
    requires k < n <= MAX_ARGS && code == Repeat(PushArgBytes(n), n) + rest
    requires c.eip == base + 4 * k && base + |code| < TWO_TO_THE_32
    ensures Step(code, base, c) == Exec(PushMem(SignExtend8(4 * n % 256)), c, c.eip + 4)
  {
    RepeatAt(PushArgBytes(n), n, k);
    var s := code[c.eip - base..];
    assert s[..4] == PushArgBytes(n);
    assert s[0] == s[..4][0] && s[1] == s[..4][1] && s[2] == s[..4][2] && s[3] == s[..4][3];
  }

  lemma {:induction false} RepeatAt(bs: seq<Byte>, n: nat, k: nat)
    requires k < n && |bs| == 4
    ensures Repeat(bs, n)[4 * k..4 * k + 4] == bs
  {
    if k < n - 1 {
      RepeatAt(bs, n - 1, k);
      assert Repeat(bs, n)[4 * k..4 * k + 4] == Repeat(bs, n - 1)[4 * k..4 * k + 4];
    }
  }

  /** `k` pushes have happened, each reading `disp` above the stack pointer of its time. */
  ghost predicate Pushed(c: Cpu, d: Cpu, base: nat, k: nat, disp: int)
  {
    && d.esp == c.esp - 4 * k && d.eip == base + 4 * k && d.saved == c.saved && d.eax == c.eax
    && (forall a :: a >= c.esp || a < d.esp ==> d.mem(a) == c.mem(a))
    && (disp >= 4 * k ==> forall j :: 0 <= j < k ==> d.mem(c.esp - 4 * (j + 1)) == c.mem(c.esp - 4 * j + disp))
  }

  lemma {:induction false} PushesRun(code: seq<Byte>, rest: seq<Byte>, base: nat, c: Cpu, n: nat, k: nat)
    returns (d: Cpu)
    requires k <= n <= MAX_ARGS && code == Repeat(PushArgBytes(n), n) + rest
    requires c.eip == base && base + |code| < TWO_TO_THE_32 && HasRoom(c, n)
    ensures Run(code, base, c, k) == Some(d)
    ensures Pushed(c, d, base, k, SignExtend8(4 * n % 256))
    decreases k
  {
    if k == 0 {
      d := c;
    } else {
      hide Step, Decode, Exec, Repeat, PushArgBytes, SignExtend8, HasRoom, Run;
      var disp := SignExtend8(4 * n % 256);
      DispFacts(n);
      var e := PushesRun(code, rest, base, c, n, k - 1);
      assert e.eip == base + 4 * (k - 1);
      hide Pushed;
      PushAt(code, rest, base, e, n, k - 1);
      d := PushStep(c, e, base, n, k, disp);
      RunOneMore(code, base, c, e, d, k - 1);
    }
  }

  lemma RunOneMore(code: seq<Byte>, base: nat, c: Cpu, e: Cpu, d: Cpu, k: nat)
    requires Run(code, base, c, k) == Some(e) && Step(code, base, e) == Some(d)
    ensures Run(code, base, c, k + 1) == Some(d)
  {
    hide Step;
    var p := Processor(code, base);
    IterateAppend(p, c, k, 1);
    assert Iterate(p, d, 0) == Some(d);
  }

  lemma DispFacts(n: nat)
    ensures var disp := SignExtend8(4 * n % 256); disp % 4 == 0 && -128 <= disp < 128 && (disp == 4 * n <==> n <= 31)
  {
  }

  lemma PushStep(c: Cpu, e: Cpu, base: nat, n: nat, k: nat, disp: int) returns (d: Cpu)
    requires 1 <= k <= n <= MAX_ARGS && HasRoom(c, n) && disp % 4 == 0 && -128 <= disp < 128
    requires base + 4 * k < TWO_TO_THE_32
    requires Pushed(c, e, base, k - 1, disp)
    ensures Exec(PushMem(disp), e, e.eip + 4) == Some(d)
    ensures Pushed(c, d, base, k, disp)
  {
    d := Exec(PushMem(disp), e, e.eip + 4).value;
    if disp >= 4 * k {
      assert e.mem(e.esp + disp) == c.mem(c.esp - 4 * (k - 1) + disp);
    }
  }

  /** The relative operand is right modulo 2^32 wherever the copy and the hook are. */
  lemma CallTarget(hook: Word32, base: Word32, n: nat)
    requires base + CallIndex(n) + 4 < TWO_TO_THE_32
    ensures (base + CallIndex(n) + 4 + SignExtend32(Displacement(hook, base, n))) % TWO_TO_THE_32 == hook
  {
  }

  lemma DecodeHeadTail(rel: Word32, upValue: Word32, n: nat)
    ensures var code := ThunkBytes(rel, upValue, n);
      && Decode(code[4 * n..]) == Some((PushImm(upValue), 5))
      && Decode(code[CallIndex(n) - 1..]) == Some((CallRel(SignExtend32(rel)), 5))
  {
    hide Le, Repeat, FromLe;
    var code := ThunkBytes(rel, upValue, n);
    Spans();
    LeRoundTrip(upValue, 4);
    LeRoundTrip(rel, 4);
    var s := code[4 * n..];
    assert s == [0x68] + Le(upValue, 4) + [0xe8] + Le(rel, 4) + Tail(n);
    assert s[1..5] == Le(upValue, 4);
    var t := code[CallIndex(n) - 1..];
    assert t == [0xe8] + Le(rel, 4) + Tail(n);
    assert t[1..5] == Le(rel, 4);
  }

  lemma DecodeTail(rel: Word32, upValue: Word32, n: nat)
    ensures var code := ThunkBytes(rel, upValue, n);
      && Decode(code[CallIndex(n) + 4..]) == Some((AddEsp(SignExtend8(4 * (n + 1) % 256)), 3))
      && Decode(code[CallIndex(n) + 7..]) == Some((Ret, 1))
  {
    hide Le, Repeat, FromLe;
    var code := ThunkBytes(rel, upValue, n);
    assert code[CallIndex(n) + 4..] == Tail(n);
    assert code[CallIndex(n) + 7..] == [0xc3];
  }

  /** The processor has just entered the hook: what it finds, `c` being the state the thunk was entered in. */
  ghost predicate HookEntered(c: Cpu, h: Cpu, base: nat, hook: Word32, upValue: Word32, n: nat)
  {
    && h.eip == hook && h.esp == c.esp - 4 * n - 8 && h.saved == c.saved && h.eax == c.eax
    && h.mem(h.esp) == base + CallIndex(n) + 4
    && Arg(h, 1) == upValue
    && (n <= 31 ==> forall i :: 1 <= i <= n ==> Arg(h, i + 1) == Arg(c, i))
    && (forall a :: a >= c.esp || a < h.esp ==> h.mem(a) == c.mem(a))
  }

  /** A state in which the hook, entered in `h`, may give control back. It owns its argument area. */
  ghost predicate ReturnsFrom(h: Cpu, r: Cpu, argc: nat, top: int)
  {
    && r.eip == h.mem(h.esp) && r.esp == h.esp + 4 && r.saved == h.saved
    && forall a :: h.esp + 4 + 4 * argc <= a < top ==> r.mem(a) == h.mem(a)
  }

  ghost predicate ThunkReturned(c: Cpu, r: Cpu, f: Cpu)
  {
    f.eip == c.mem(c.esp) && f.esp == c.esp + 4 && f.eax == r.eax && f.saved == c.saved && f.mem == r.mem
  }

  lemma RoomBelow(c: Cpu, n: nat, k: nat)
    requires HasRoom(c, n) && k <= n + 2
    ensures Usable(c.esp - 4 * k)
  {
  }

  lemma CallSteps(c: Cpu, d: Cpu, base: Word32, hook: Word32, upValue: Word32, n: nat) returns (h: Cpu)
    requires n <= MAX_ARGS && HasRoom(c, n) && base + BUFFER_SIZE < TWO_TO_THE_32
    requires Pushed(c, d, base, n, SignExtend8(4 * n % 256))
    ensures var code := ThunkBytes(Displacement(hook, base, n), upValue, n);
      Run(code, base, d, 2) == Some(h) && HookEntered(c, h, base, hook, upValue, n)
  {
    hide Decode, ThunkBytes, Displacement, HookEntered, SignExtend8, SignExtend32, Usable, HasRoom;
    var rel := Displacement(hook, base, n);
    var code := ThunkBytes(rel, upValue, n);
    DecodeHeadTail(rel, upValue, n);
    CallTarget(hook, base, n);
    RoomBelow(c, n, n + 1);
    RoomBelow(c, n, n + 2);
    var m1 := Put(d.mem, d.esp - 4, upValue);
    var d1 := Cpu(d.esp - 4, d.eax, d.saved, base + 4 * n + 5, m1);
    h := Cpu(d.esp - 8, d.eax, d.saved, hook, Put(m1, d.esp - 8, base + CallIndex(n) + 4));
    EnteredAfterPushes(c, d, h, base, hook, upValue, n);
    StepDecoded(code, base, d, PushImm(upValue), 5, d1);
    StepDecoded(code, base, d1, CallRel(SignExtend32(rel)), 5, h);
    hide Exec, Step;
    TwoSteps(code, base, d, d1, h);
  }

  lemma EnteredAfterPushes(c: Cpu, d: Cpu, h: Cpu, base: Word32, hook: Word32, upValue: Word32, n: nat)
    requires n <= MAX_ARGS && HasRoom(c, n) && base + BUFFER_SIZE < TWO_TO_THE_32
    requires Pushed(c, d, base, n, SignExtend8(4 * n % 256))
    requires var mem := Put(Put(d.mem, d.esp - 4, upValue), d.esp - 8, base + CallIndex(n) + 4);
      h == Cpu(d.esp - 8, d.eax, d.saved, hook, mem)
    ensures HookEntered(c, h, base, hook, upValue, n)
  {
    DispFacts(n);
    if n <= 31 {
      forall i | 1 <= i <= n ensures Arg(h, i + 1) == Arg(c, i) {
        var j := n - i;
        assert d.mem(c.esp - 4 * (j + 1)) == c.mem(c.esp - 4 * j + 4 * n);
        assert h.mem(h.esp + 4 * (i + 1)) == d.mem(c.esp - 4 * (j + 1));
      }
    }
  }

  lemma StepDecoded(code: seq<Byte>, base: nat, c: Cpu, op: Operation, len: nat, d: Cpu)
    requires base <= c.eip < base + |code| && c.eip + len < TWO_TO_THE_32
    requires Decode(code[c.eip - base..]) == Some((op, len)) && Exec(op, c, c.eip + len) == Some(d)
    ensures Step(code, base, c) == Some(d)
  {
  }

  lemma TwoSteps(code: seq<Byte>, base: nat, c: Cpu, c1: Cpu, c2: Cpu)
    requires Step(code, base, c) == Some(c1) && Step(code, base, c1) == Some(c2)
    ensures Run(code, base, c, 2) == Some(c2)
  {
    hide Step;
    var p := Processor(code, base);
    assert Iterate(p, c2, 0) == Some(c2);
    assert Iterate(p, c1, 1) == Some(c2);
  }

  /** From entry to the thunk, the processor reaches the hook, for every argument count the buffer can hold. */
  lemma ReachesHook(c: Cpu, base: Word32, hook: Word32, upValue: Word32, n: nat) returns (h: Cpu)
    requires n <= MAX_ARGS && HasRoom(c, n) && c.eip == base && base + BUFFER_SIZE < TWO_TO_THE_32
    ensures var code := ThunkBytes(Displacement(hook, base, n), upValue, n);
      Run(code, base, c, n + 2) == Some(h) && HookEntered(c, h, base, hook, upValue, n)
  {
    var rel := Displacement(hook, base, n);
    var code := ThunkBytes(rel, upValue, n);
    var rest := AfterPushes(rel, upValue, n);
    hide Le, Repeat, PushArgBytes, HookEntered, Pushed, ThunkBytes, Displacement, HasRoom, Run;
    var d := PushesRun(code, rest, base, c, n, n);
    h := CallSteps(c, d, base, hook, upValue, n);
    RunAppend(code, base, c, d, n, 2);
  }

  lemma AfterPushes(rel: Word32, upValue: Word32, n: nat) returns (rest: seq<Byte>)
    ensures ThunkBytes(rel, upValue, n) == Repeat(PushArgBytes(n), n) + rest
  {
    rest := [0x68] + Le(upValue, 4) + [0xe8] + Le(rel, 4) + Tail(n);
    hide Le, Repeat;
  }

  lemma RunAppend(code: seq<Byte>, base: nat, c: Cpu, d: Cpu, k1: nat, k2: nat)
    requires Run(code, base, c, k1) == Some(d)
    ensures Run(code, base, c, k1 + k2) == Run(code, base, d, k2)
  {
    hide Step;
    IterateAppend(Processor(code, base), c, k1, k2);
  }

  lemma ReturnFacts(c: Cpu, h: Cpu, r: Cpu, base: Word32, hook: Word32, upValue: Word32, n: nat)
    requires HookEntered(c, h, base, hook, upValue, n) && ReturnsFrom(h, r, n + 1, c.esp + 4)
    ensures r.eip == base + CallIndex(n) + 4 && r.esp == c.esp - 4 * (n + 1) && r.saved == c.saved
    ensures r.mem(c.esp) == c.mem(c.esp)
  {
  }

  lemma ReturnRoom(c: Cpu, n: nat)
    requires HasRoom(c, n) && n <= MAX_ARGS
    ensures var k := SignExtend8(4 * (n + 1) % 256);
      Usable(c.esp - 4 * (n + 1) + k) && Usable(c.esp - 4 * (n + 1) + k + 4)
  {
    DispFacts(n + 1);
  }

  /** The two instructions after the call. */
  lemma ReturnSteps(c: Cpu, h: Cpu, r: Cpu, rel: Word32, base: Word32, hook: Word32, upValue: Word32, n: nat)
    returns (f: Cpu)
    requires n <= MAX_ARGS && HasRoom(c, n) && base + BUFFER_SIZE < TWO_TO_THE_32
    requires HookEntered(c, h, base, hook, upValue, n) && ReturnsFrom(h, r, n + 1, c.esp + 4)
    ensures Run(ThunkBytes(rel, upValue, n), base, r, 2) == Some(f)
    ensures ThunkReturned(c, r, f) <==> n <= MAX_SERVED
  {
    hide Decode, ThunkBytes, SignExtend8, HookEntered, ReturnsFrom, Tail, Run, Usable, HasRoom;
    var code := ThunkBytes(rel, upValue, n);
    DecodeTail(rel, upValue, n);
    DispFacts(n + 1);
    ReturnFacts(c, h, r, base, hook, upValue, n);
    ReturnRoom(c, n);
    var k := SignExtend8(4 * (n + 1) % 256);
    var r1 := r.(esp := r.esp + k, eip := r.eip + 3);
    f := r1.(esp := r1.esp + 4, eip := r1.mem(r1.esp));
    StepDecoded(code, base, r, AddEsp(k), 3, r1);
    StepDecoded(code, base, r1, Ret, 1, f);
    hide Exec, Step;
    TwoSteps(code, base, r, r1, f);
  }

  /**
   * The 32-bit thunk enters the hook for every argument count, but gives control back to its caller properly, whatever
   * a well-behaved hook does, exactly for up to 30 arguments.
   */
  lemma ThunkServesIff(c: Cpu, base: Word32, hook: Word32, upValue: Word32, n: nat)
    requires n <= MAX_ARGS && HasRoom(c, n) && c.eip == base && base + BUFFER_SIZE < TWO_TO_THE_32
    ensures var code := ThunkBytes(Displacement(hook, base, n), upValue, n);
      && Run(code, base, c, n + 2).Some?
      && var h := Run(code, base, c, n + 2).value;
      && HookEntered(c, h, base, hook, upValue, n)
      && forall r :: ReturnsFrom(h, r, n + 1, c.esp + 4) ==>
           Run(code, base, r, 2).Some? && (ThunkReturned(c, r, Run(code, base, r, 2).value) <==> n <= MAX_SERVED)
  {
    hide ThunkBytes, HookEntered, ReturnsFrom, ThunkReturned, HasRoom;
    var rel := Displacement(hook, base, n);
    var code := ThunkBytes(rel, upValue, n);
    var h := ReachesHook(c, base, hook, upValue, n);
    forall r | ReturnsFrom(h, r, n + 1, c.esp + 4)
      ensures Run(code, base, r, 2).Some? && (ThunkReturned(c, r, Run(code, base, r, 2).value) <==> n <= MAX_SERVED)
    {
      var f := ReturnSteps(c, h, r, rel, base, hook, upValue, n);
    }
  }
}
