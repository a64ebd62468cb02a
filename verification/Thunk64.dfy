/**
 * The x64 call thunk: a function of `n` arguments that calls `hook(upValue, a1, .., an)` and returns what it returns.
 * The generator writes bytes one at a time; here those bytes are run on the machine of module `X64`.
 */
module Thunk64 {
  import opened Bytes
  import opened Machine
  import opened Options
  import opened X64
  import opened CodeBuffer

  // ----- what the bytes are meant to be

  /** Small enough for every offset to be a positive 32-bit displacement. */
  type ArgCount = n: nat | n <= 0x100_0000
  type Frame = f: nat | f < 0x1000_0000

  /** Bytes of stack the thunk reserves: the 32-byte home area plus the stack arguments, rounded up to 16. */
  function FrameSize(n: ArgCount): (s: Frame)
    ensures s % 16 == 0 && 32 <= s && 8 * (n + 1) <= s
  {
    var size := if n > 3 then 32 + (n + 1 - 4) * 8 else 32;
    (size + 0xf) / 16 * 16
  }

  /** Moves argument `i` of the thunk into position `i + 1` of the hook. */
  function MoveArg(i: ArgCount, frame: Frame): (prog: seq<Instr>)
    requires i > 0
  {
    if i == 1 then [Mov(RDX, RCX)]
    else if i == 2 then [Mov(R8, RDX)]
    else if i == 3 then [Mov(R9, R8)]
    else if i == 4 then [Store(0x20, R9)]
    else [Load(RAX, frame + 0x28 + (i - 4) * 8), Store(0x20 + (i - 4) * 8, RAX)]
  }

  /** The last argument is moved first. */
  function MoveArgs(n: ArgCount, frame: Frame): (prog: seq<Instr>)
  {
    if n == 0 then [] else MoveArg(n, frame) + MoveArgs(n - 1, frame)
  }

  function Prologue(frame: Frame): seq<Instr> { [Push(RDI), SubRsp(frame)] }

  function CallHook(hook: Word64, upValue: Word64): seq<Instr>
  {
    [MovImm(RCX, upValue), MovImm(RAX, hook), CallReg(RAX)]
  }

  function Epilogue(frame: Frame): seq<Instr> { [AddRsp(frame), Pop(RDI), Ret] }

  function BeforeReturn(hook: Word64, upValue: Word64, n: ArgCount): seq<Instr>
  {
    Prologue(FrameSize(n)) + MoveArgs(n, FrameSize(n)) + CallHook(hook, upValue)
  }

  function Thunk(hook: Word64, upValue: Word64, n: ArgCount): seq<Instr>
  {
    BeforeReturn(hook, upValue, n) + Epilogue(FrameSize(n))
  }

  /** The most arguments for which the code fits the generator's buffer. */
  const MAX_ARGS: nat := 130

  ghost function ThunkBytes(hook: Word64, upValue: Word64, n: ArgCount): seq<Byte>
  {
    EncodeAll(Thunk(hook, upValue, n))
  }

  // ----- how long they are

  function MoveSize(i: ArgCount, frame: Frame): nat
    requires i > 0
  {
    if i <= 3 then 3 else if i == 4 then 5
    else (if frame + 8 + 8 * i >= 0x80 then 8 else 5) + (if 8 * i >= 0x80 then 8 else 5)
  }

  function MovesSize(n: ArgCount, frame: Frame): nat
  {
    if n == 0 then 0 else MoveSize(n, frame) + MovesSize(n - 1, frame)
  }

  function ThunkSize(n: ArgCount): nat
  {
    var imm := if FrameSize(n) >= 0x80 then 4 else 1;
    1 + (3 + imm) + MovesSize(n, FrameSize(n)) + 22 + (3 + imm) + 2
  }

  lemma EncodeOne(i: Instr)
    ensures EncodeAll([i]) == Encode(i)
  {
    hide Encode;
    EncodeAllCons([i]);
  }

  lemma EncodeTwo(i: Instr, j: Instr)
    ensures EncodeAll([i, j]) == Encode(i) + Encode(j)
  {
    hide Encode;
    EncodeAllCons([i, j]);
    assert [i, j][1..] == [j];
    EncodeOne(j);
  }

  lemma EncodeThree(i: Instr, j: Instr, k: Instr)
    ensures EncodeAll([i, j, k]) == Encode(i) + Encode(j) + Encode(k)
  {
    hide Encode;
    EncodeAllCons([i, j, k]);
    assert [i, j, k][1..] == [j, k];
    EncodeTwo(j, k);
  }

  lemma MoveArgSize(i: ArgCount, frame: Frame)
    requires 0 < i
    ensures |EncodeAll(MoveArg(i, frame))| == MoveSize(i, frame)
  {
    var prog := MoveArg(i, frame);
    if i <= 4 {
      EncodeOne(prog[0]);
    } else {
      EncodeTwo(prog[0], prog[1]);
    }
  }

  lemma {:induction false} MovesSizeIsLength(n: ArgCount, frame: Frame)
    ensures |EncodeAll(MoveArgs(n, frame))| == MovesSize(n, frame)
  {
    if n > 0 {
      MovesSizeIsLength(n - 1, frame);
      MoveArgSize(n, frame);
      EncodeAllAppend(MoveArg(n, frame), MoveArgs(n - 1, frame));
    }
  }

  lemma ThunkSplit(hook: Word64, upValue: Word64, n: ArgCount)
    ensures ThunkBytes(hook, upValue, n) ==
            EncodeAll(Prologue(FrameSize(n))) + EncodeAll(MoveArgs(n, FrameSize(n))) +
            EncodeAll(CallHook(hook, upValue)) + EncodeAll(Epilogue(FrameSize(n)))
  {
    var f := FrameSize(n);
    EncodeAllAppend(Prologue(f), MoveArgs(n, f));
    EncodeAllAppend(Prologue(f) + MoveArgs(n, f), CallHook(hook, upValue));
    EncodeAllAppend(BeforeReturn(hook, upValue, n), Epilogue(f));
  }

  lemma ThunkSizeIsLength(hook: Word64, upValue: Word64, n: ArgCount)
    ensures |ThunkBytes(hook, upValue, n)| == ThunkSize(n)
  {
    var f := FrameSize(n);
    ThunkSplit(hook, upValue, n);
    MovesSizeIsLength(n, f);
    EncodeTwo(Push(RDI), SubRsp(f));
    EncodeThree(MovImm(RCX, upValue), MovImm(RAX, hook), CallReg(RAX));
    EncodeThree(AddRsp(f), Pop(RDI), Ret);
  }

  lemma {:induction false} MovesSizeClosed(n: ArgCount, frame: Frame)
    requires 15 <= n && 0x80 <= frame
    ensures MovesSize(n, frame) == 157 + 16 * (n - 15)
  {
    if n > 15 {
      MovesSizeClosed(n - 1, frame);
    } else {
      MovesSizeStep(14, frame); MovesSizeStep(13, frame); MovesSizeStep(12, frame); MovesSizeStep(11, frame);
      MovesSizeStep(10, frame); MovesSizeStep(9, frame); MovesSizeStep(8, frame); MovesSizeStep(7, frame);
      MovesSizeStep(6, frame); MovesSizeStep(5, frame); MovesSizeStep(4, frame); MovesSizeStep(3, frame);
      MovesSizeStep(2, frame); MovesSizeStep(1, frame);
    }
  }

  lemma MovesSizeStep(n: ArgCount, frame: Frame)
    ensures n > 0 ==> MovesSize(n, frame) == MoveSize(n, frame) + MovesSize(n - 1, frame)
  {
  }

  lemma {:induction false} MovesSizeBound(n: ArgCount, frame: Frame)
    ensures MovesSize(n, frame) <= 16 * n
  {
    if n > 0 {
      MovesSizeBound(n - 1, frame);
    }
  }

  /** The code fits the 2048-byte buffer exactly up to 130 arguments. */
  lemma FitsBufferIff(hook: Word64, upValue: Word64, n: ArgCount)
    ensures |ThunkBytes(hook, upValue, n)| <= BUFFER_SIZE <==> n <= MAX_ARGS
  {
    ThunkSizeIsLength(hook, upValue, n);
    if n >= 15 {
      MovesSizeClosed(n, FrameSize(n));
    } else {
      MovesSizeBound(n, FrameSize(n));
    }
  }

  // ----- the calling convention

  /** Argument `k` (from 1) of a function just entered: four registers, then the stack above the home area. */
  ghost function Arg(c: Cpu, k: nat): Word64
    requires k > 0
  {
    if k == 1 then c.regs(RCX) else if k == 2 then c.regs(RDX) else if k == 3 then c.regs(R8)
    else if k == 4 then c.regs(R9) else c.mem(c.regs(RSP) + 8 * k)
  }

  /** rbx, rbp, rsi, rdi and r12 to r15 keep their value across a call. */
  predicate Preserved(r: Reg)
  {
    r == 3 || r == 5 || r == 6 || r == RDI || r >= 12
  }

  /** Entry to a function: the return address is at [rsp], and rsp is 16-aligned but for it. */
  ghost predicate Entered(c: Cpu)
  {
    c.regs(RSP) % 16 == 8
  }

  /**
   * `r` is a state in which a callee entered in `h` with `argc` arguments may give control back. It may have changed
   * volatile registers, everything below its return address and its own argument area; `top` bounds the part of its
   * caller's frame it is obliged to leave alone.
   */
  ghost predicate ReturnsFrom(h: Cpu, r: Cpu, argc: nat, top: int)
  {
    && r.rip == h.mem(h.regs(RSP))
    && r.regs(RSP) == h.regs(RSP) + 8
    && (forall x: Reg :: Preserved(x) ==> r.regs(x) == h.regs(x))
    && forall a :: h.regs(RSP) + 8 + 8 * (if argc < 4 then 4 else argc) <= a < top ==> r.mem(a) == h.mem(a)
  }

  /** Room for the thunk's frame, and its caller's argument area, inside the address space. */
  ghost predicate HasRoom(c: Cpu, n: ArgCount)
  {
    c.regs(RSP) >= FrameSize(n) + 16 && c.regs(RSP) + 8 * (n + 2) < TWO_TO_THE_64
  }

  // ----- executing the moves

  /** What `MoveArgs(n, ..)` does: arguments go one position up and nothing else that matters changes. */
  ghost predicate Moved(c: Cpu, d: Cpu, n: ArgCount, frame: Frame)
  {
    var sp := c.regs(RSP);
    && (forall r: Reg :: r != RAX && r != RDX && r != R8 && r != R9 ==> d.regs(r) == c.regs(r))
    && d.regs(RDX) == (if n >= 1 then c.regs(RCX) else c.regs(RDX))
    && d.regs(R8) == (if n >= 2 then c.regs(RDX) else c.regs(R8))
    && d.regs(R9) == (if n >= 3 then c.regs(R8) else c.regs(R9))
    && (n >= 4 ==> d.mem(sp + 0x20) == c.regs(R9))
    && (forall j :: 5 <= j <= n ==> d.mem(sp + 8 * j) == c.mem(sp + frame + 8 + 8 * j))
    && (forall a :: a < sp + 0x20 || a > sp + 8 * n ==> d.mem(a) == c.mem(a))
  }

  ghost predicate FrameOk(c: Cpu, n: ArgCount, frame: Frame)
  {
    var sp := c.regs(RSP);
    && sp % 16 == 0 && frame % 16 == 0 && 8 * (n + 1) <= frame
    && sp + frame + 8 * n + 16 < TWO_TO_THE_64
  }

  lemma FrameFacts(c: Cpu, n: ArgCount, frame: Frame)
    requires FrameOk(c, n, frame)
    ensures c.regs(RSP) % 16 == 0 && frame % 16 == 0 && c.regs(RSP) + frame + 8 * n + 16 < TWO_TO_THE_64
  {
  }

  /** Copying one argument beyond the fourth. */
  ghost function Copied(c: Cpu, i: ArgCount, frame: Frame, rip: Word64): Cpu
  {
    var v := c.mem(c.regs(RSP) + frame + 8 + 8 * i);
    Cpu(Set(c.regs, RAX, v), rip, Put(c.mem, c.regs(RSP) + 8 * i, v))
  }

  lemma CopyStep(c: Cpu, i: ArgCount, frame: Frame)
    requires 5 <= i && FrameOk(c, i, frame)
    requires c.rip + 16 < TWO_TO_THE_64
    ensures |EncodeAll(MoveArg(i, frame))| <= 16
    ensures ExecAll(MoveArg(i, frame), c) == Some(Copied(c, i, frame, c.rip + |EncodeAll(MoveArg(i, frame))|))
  {
    hide Encode, ExecNext, ExecAll, EncodeAll, FrameOk;
    assert c.regs(RSP) % 16 == 0 && frame % 16 == 0 && c.regs(RSP) + frame + 8 * i + 16 < TWO_TO_THE_64 by {
      FrameFacts(c, i, frame);
    }
    var load, store := Load(RAX, frame + 0x28 + (i - 4) * 8), Store(0x20 + (i - 4) * 8, RAX);
    EncodeTwo(load, store);
    UsableSlot(c.regs(RSP), i);
    UsableSlot(c.regs(RSP) + frame, i + 1);
    hide Usable;
    var c1 := LoadStep(c, RAX, frame + 8 + 8 * i);
    assert c1.regs(RSP) == c.regs(RSP) && c1.regs(RAX) == c.mem(c.regs(RSP) + frame + 8 + 8 * i);
    StoreStep(c1, 8 * i, RAX);
    ExecTwo(load, store, c);
  }

  lemma UsableSlot(sp: nat, k: nat)
    requires sp % 16 == 0 && sp + 8 * k < TWO_TO_THE_64
    ensures Usable(sp + 8 * k)
  {
    assert sp == 16 * (sp / 16);
    assert sp + 8 * k == 8 * (2 * (sp / 16) + k);
  }

  lemma LoadStep(c: Cpu, r: Reg, disp: nat) returns (d: Cpu)
    requires disp < TWO_TO_THE_31 && Usable(c.regs(RSP) + disp) && c.rip + 8 < TWO_TO_THE_64
    ensures |Encode(Load(r, disp))| <= 8
    ensures d == Cpu(Set(c.regs, r, c.mem(c.regs(RSP) + disp)), c.rip + |Encode(Load(r, disp))|, c.mem)
    ensures ExecNext(Load(r, disp), c) == Some(d)
  {
    d := ExecNext(Load(r, disp), c).value;
  }

  lemma StoreStep(c: Cpu, disp: nat, r: Reg)
    requires disp < TWO_TO_THE_31 && Usable(c.regs(RSP) + disp) && c.rip + 8 < TWO_TO_THE_64
    ensures |Encode(Store(disp, r))| <= 8
    ensures ExecNext(Store(disp, r), c) ==
            Some(Cpu(c.regs, c.rip + |Encode(Store(disp, r))|, Put(c.mem, c.regs(RSP) + disp, c.regs(r))))
  {
  }

  lemma ExecOne(i: Instr, c: Cpu)
    ensures ExecAll([i], c) == ExecNext(i, c)
  {
  }

  lemma ExecTwo(i: Instr, j: Instr, c: Cpu)
    requires ExecNext(i, c).Some?
    ensures ExecAll([i, j], c) == ExecNext(j, ExecNext(i, c).value)
  {
    assert [i, j][1..] == [j];
    ExecOne(j, ExecNext(i, c).value);
  }

  lemma ExecThree(i: Instr, j: Instr, k: Instr, c: Cpu)
    requires ExecNext(i, c).Some? && ExecNext(j, ExecNext(i, c).value).Some?
    ensures ExecAll([i, j, k], c) == ExecNext(k, ExecNext(j, ExecNext(i, c).value).value)
  {
    assert [i, j, k][1..] == [j, k];
    ExecTwo(j, k, ExecNext(i, c).value);
  }

  lemma MoveStep(c: Cpu, i: ArgCount, frame: Frame)
    requires 0 < i <= 4 && FrameOk(c, i, frame)
    requires c.rip + 16 < TWO_TO_THE_64
    ensures ExecAll(MoveArg(i, frame), c) == ExecNext(MoveArg(i, frame)[0], c)
    ensures ExecNext(MoveArg(i, frame)[0], c).Some?
    ensures |EncodeAll(MoveArg(i, frame))| == |Encode(MoveArg(i, frame)[0])|
  {
    UsableSlot(c.regs(RSP), 4);
    hide ExecAll, EncodeAll, Usable, FrameOk;
    ExecOne(MoveArg(i, frame)[0], c);
    EncodeOne(MoveArg(i, frame)[0]);
  }

  lemma MoveArgRip(c: Cpu, i: ArgCount, frame: Frame)
    requires 0 < i && FrameOk(c, i, frame)
    requires c.rip + 16 < TWO_TO_THE_64
    ensures ExecAll(MoveArg(i, frame), c).Some?
    ensures ExecAll(MoveArg(i, frame), c).value.rip == c.rip + |EncodeAll(MoveArg(i, frame))|
    ensures ExecAll(MoveArg(i, frame), c).value.regs(RSP) == c.regs(RSP)
  {
    if i <= 4 {
      MoveStep(c, i, frame);
    } else {
      CopyStep(c, i, frame);
    }
  }

  lemma MovedCopy(c: Cpu, c1: Cpu, d: Cpu, n: ArgCount, frame: Frame)
    requires n >= 5 && FrameOk(c, n, frame) && c1 == Copied(c, n, frame, c1.rip) && Moved(c1, d, n - 1, frame)
    ensures Moved(c, d, n, frame)
  {
    var sp := c.regs(RSP);
    forall j | 5 <= j <= n ensures d.mem(sp + 8 * j) == c.mem(sp + frame + 8 + 8 * j) {
      MovedSlot(c, c1, d, n, frame, j);
    }
    forall a | a < sp + 0x20 || a > sp + 8 * n ensures d.mem(a) == c.mem(a) {
      assert d.mem(a) == c1.mem(a);
    }
    assert d.mem(sp + 0x20) == c1.regs(R9);
  }

  lemma MovedSlot(c: Cpu, c1: Cpu, d: Cpu, n: ArgCount, frame: Frame, j: nat)
    requires n >= 5 && FrameOk(c, n, frame) && c1 == Copied(c, n, frame, c1.rip)
    requires Moved(c1, d, n - 1, frame) && 5 <= j <= n
    ensures d.mem(c.regs(RSP) + 8 * j) == c.mem(c.regs(RSP) + frame + 8 + 8 * j)
  {
    var sp := c.regs(RSP);
    if j < n {
      assert d.mem(sp + 8 * j) == c1.mem(sp + frame + 8 + 8 * j);
      assert c1.mem(sp + frame + 8 + 8 * j) == c.mem(sp + frame + 8 + 8 * j);
    } else {
      assert d.mem(sp + 8 * n) == c1.mem(sp + 8 * n);
    }
  }

  lemma MovedMove(c: Cpu, c1: Cpu, d: Cpu, n: ArgCount, frame: Frame)
    requires 0 < n <= 4 && FrameOk(c, n, frame)
    requires ExecNext(MoveArg(n, frame)[0], c) == Some(c1) && Moved(c1, d, n - 1, frame)
    ensures Moved(c, d, n, frame)
  {
  }

  lemma MovedStep(c: Cpu, c1: Cpu, d: Cpu, n: ArgCount, frame: Frame)
    requires 0 < n && FrameOk(c, n, frame) && c.rip + 16 < TWO_TO_THE_64
    requires ExecAll(MoveArg(n, frame), c) == Some(c1) && Moved(c1, d, n - 1, frame)
    ensures Moved(c, d, n, frame)
  {
    if n >= 5 {
      CopyStep(c, n, frame);
      MovedCopy(c, c1, d, n, frame);
    } else {
      MoveStep(c, n, frame);
      MovedMove(c, c1, d, n, frame);
    }
  }

  lemma MovesUnfold(c: Cpu, c1: Cpu, n: ArgCount, frame: Frame)
    requires 0 < n
    requires ExecAll(MoveArg(n, frame), c) == Some(c1)
    ensures ExecAll(MoveArgs(n, frame), c) == ExecAll(MoveArgs(n - 1, frame), c1)
    ensures |EncodeAll(MoveArgs(n, frame))| == |EncodeAll(MoveArg(n, frame))| + |EncodeAll(MoveArgs(n - 1, frame))|
  {
    ExecAllAppend(MoveArg(n, frame), MoveArgs(n - 1, frame), c);
    EncodeAllAppend(MoveArg(n, frame), MoveArgs(n - 1, frame));
  }

  /** Every source is read before anything is written over it, although source and destination ranges are adjacent. */
  lemma {:induction false} MovesCorrect(c: Cpu, n: ArgCount, frame: Frame)
    requires FrameOk(c, n, frame)
    requires c.rip + MovesSize(n, frame) + 16 < TWO_TO_THE_64
    ensures var r := ExecAll(MoveArgs(n, frame), c);
      r.Some? && Moved(c, r.value, n, frame) && r.value.rip == c.rip + |EncodeAll(MoveArgs(n, frame))|
    decreases n
  {
    if n > 0 {
      MoveArgRip(c, n, frame);
      MoveArgSize(n, frame);
      var c1 := ExecAll(MoveArg(n, frame), c).value;
      MovesCorrect(c1, n - 1, frame);
      MovesUnfold(c, c1, n, frame);
      MovedStep(c, c1, ExecAll(MoveArgs(n - 1, frame), c1).value, n, frame);
    }
  }

  // ----- the whole thunk

  /** Pushing rdi and reserving the frame. */
  lemma PrologueCorrect(c: Cpu, n: ArgCount)
    requires Entered(c) && HasRoom(c, n) && n <= MAX_ARGS && c.rip + BUFFER_SIZE < TWO_TO_THE_64
    ensures |EncodeAll(Prologue(FrameSize(n)))| <= 8
    ensures ExecAll(Prologue(FrameSize(n)), c) ==
            Some(Cpu(Set(Set(c.regs, RSP, c.regs(RSP) - 8), RSP, c.regs(RSP) - 8 - FrameSize(n)),
                     c.rip + |EncodeAll(Prologue(FrameSize(n)))|,
                     Put(c.mem, c.regs(RSP) - 8, c.regs(RDI))))
  {
    hide ExecNext, ExecAll, EncodeAll;
    var f := FrameSize(n);
    EncodeTwo(Push(RDI), SubRsp(f));
    PushSub(c, f);
    ExecTwo(Push(RDI), SubRsp(f), c);
  }

  lemma PushSub(c: Cpu, f: nat)
    requires c.regs(RSP) % 8 == 0 && f % 8 == 0 && 8 + f <= c.regs(RSP)
    requires f < TWO_TO_THE_31 && c.rip + 16 < TWO_TO_THE_64
    ensures ExecNext(Push(RDI), c).Some?
    ensures var c1 := ExecNext(Push(RDI), c).value;
      ExecNext(SubRsp(f), c1) ==
      Some(Cpu(Set(Set(c.regs, RSP, c.regs(RSP) - 8), RSP, c.regs(RSP) - 8 - f), c.rip + 1 + |Encode(SubRsp(f))|,
               Put(c.mem, c.regs(RSP) - 8, c.regs(RDI))))
  {
  }

  /** Loading `upValue` and calling. */
  lemma CallHookCorrect(c: Cpu, hook: Word64, upValue: Word64)
    requires c.regs(RSP) % 16 == 0 && 8 <= c.regs(RSP) && c.rip + 22 < TWO_TO_THE_64
    ensures |EncodeAll(CallHook(hook, upValue))| == 22
    ensures ExecAll(CallHook(hook, upValue), c).Some?
    ensures var h := ExecAll(CallHook(hook, upValue), c).value;
      && h.rip == hook && h.regs(RCX) == upValue && h.regs(RSP) == c.regs(RSP) - 8
      && h.mem == Put(c.mem, c.regs(RSP) - 8, c.rip + 22)
      && forall x: Reg :: x != RAX && x != RCX && x != RSP ==> h.regs(x) == c.regs(x)
  {
    hide Encode, ExecNext, EncodeAll, ExecAll, Usable;
    EncodeThree(MovImm(RCX, upValue), MovImm(RAX, hook), CallReg(RAX));
    UsableBelow(c.regs(RSP));
    var c1 := ImmStep(c, RCX, upValue);
    var c2 := ImmStep(c1, RAX, hook);
    var h := CallStep(c2);
    ExecThree(MovImm(RCX, upValue), MovImm(RAX, hook), CallReg(RAX), c);
  }

  lemma ImmStep(c: Cpu, r: Reg, v: Word64) returns (d: Cpu)
    requires (r == RAX || r == RCX) && c.rip + 10 < TWO_TO_THE_64
    ensures |Encode(MovImm(r, v))| == 10
    ensures d == Cpu(Set(c.regs, r, v), c.rip + 10, c.mem) && ExecNext(MovImm(r, v), c) == Some(d)
  {
    d := Cpu(Set(c.regs, r, v), c.rip + 10, c.mem);
  }

  lemma CallStep(c: Cpu) returns (h: Cpu)
    requires Usable(c.regs(RSP) - 8) && c.rip + 2 < TWO_TO_THE_64
    ensures |Encode(CallReg(RAX))| == 2
    ensures h == Cpu(Set(c.regs, RSP, c.regs(RSP) - 8), c.regs(RAX), Put(c.mem, c.regs(RSP) - 8, c.rip + 2))
    ensures ExecNext(CallReg(RAX), c) == Some(h)
  {
    assert c.regs(RSP) >= 8;
    hide Usable;
    h := Cpu(Set(c.regs, RSP, c.regs(RSP) - 8), c.regs(RAX), Put(c.mem, c.regs(RSP) - 8, c.rip + 2));
  }

  lemma UsableBelow(sp: nat)
    requires sp % 16 == 0 && 8 <= sp < TWO_TO_THE_64
    ensures Usable(sp - 8)
  {
    assert sp - 8 == 8 * (2 * (sp / 16) - 1);
  }

  /** The processor has just entered the hook: this is what it finds, `c` being the state the thunk was entered in. */
  ghost predicate HookEntered(c: Cpu, h: Cpu, hook: Word64, upValue: Word64, n: ArgCount)
  {
    && h.rip == hook
    && Entered(h)
    && h.regs(RSP) == c.regs(RSP) - 16 - FrameSize(n)
    && Arg(h, 1) == upValue
    && (forall i :: 1 <= i <= n ==> Arg(h, i + 1) == Arg(c, i))
    && (forall x: Reg :: Preserved(x) ==> h.regs(x) == c.regs(x))
    && h.mem(c.regs(RSP) - 8) == c.regs(RDI)
    && (forall a :: a >= c.regs(RSP) ==> h.mem(a) == c.mem(a))
    && (forall a :: a < h.regs(RSP) ==> h.mem(a) == c.mem(a))
  }

  lemma HookArgs(c: Cpu, p: Cpu, m: Cpu, h: Cpu, n: ArgCount, i: nat)
    requires 1 <= i <= n
    requires p.regs(RSP) == c.regs(RSP) - 8 - FrameSize(n)
    requires forall a :: a != c.regs(RSP) - 8 ==> p.mem(a) == c.mem(a)
    requires forall x: Reg :: x != RSP ==> p.regs(x) == c.regs(x)
    requires Moved(p, m, n, FrameSize(n))
    requires h.regs(RSP) == m.regs(RSP) - 8
    requires forall a :: a != h.regs(RSP) ==> h.mem(a) == m.mem(a)
    requires forall x: Reg :: x != RAX && x != RCX && x != RSP ==> h.regs(x) == m.regs(x)
    ensures Arg(h, i + 1) == Arg(c, i)
  {
    if i == 4 {
      assert h.mem(h.regs(RSP) + 40) == m.mem(p.regs(RSP) + 0x20);
    } else if i >= 5 {
      assert h.mem(h.regs(RSP) + 8 * (i + 1)) == m.mem(p.regs(RSP) + 8 * i);
      assert m.mem(p.regs(RSP) + 8 * i) == p.mem(p.regs(RSP) + FrameSize(n) + 8 + 8 * i);
    }
  }

  lemma BeforeReturnStages(c: Cpu, p: Cpu, m: Cpu, h: Cpu, hook: Word64, upValue: Word64, n: ArgCount)
    requires n <= MAX_ARGS
    requires ExecAll(Prologue(FrameSize(n)), c) == Some(p)
    requires ExecAll(MoveArgs(n, FrameSize(n)), p) == Some(m)
    requires ExecAll(CallHook(hook, upValue), m) == Some(h)
    ensures ExecAll(BeforeReturn(hook, upValue, n), c) == Some(h)
    ensures |EncodeAll(BeforeReturn(hook, upValue, n))| ==
      |EncodeAll(Prologue(FrameSize(n)))| + |EncodeAll(MoveArgs(n, FrameSize(n)))|
      + |EncodeAll(CallHook(hook, upValue))|
  {
    var f := FrameSize(n);
    var moves, call := MoveArgs(n, f), CallHook(hook, upValue);
    ExecAllAppend(Prologue(f), moves, c);
    ExecAllAppend(Prologue(f) + moves, call, c);
    EncodeAllAppend(Prologue(f), moves);
    EncodeAllAppend(Prologue(f) + moves, call);
  }

  lemma HookEnteredStages(c: Cpu, p: Cpu, m: Cpu, h: Cpu, ret: Word64, hook: Word64, upValue: Word64, n: ArgCount)
    requires Entered(c) && HasRoom(c, n)
    requires p.regs(RSP) == c.regs(RSP) - 8 - FrameSize(n)
    requires p.mem == Put(c.mem, c.regs(RSP) - 8, c.regs(RDI))
    requires forall x: Reg :: x != RSP ==> p.regs(x) == c.regs(x)
    requires Moved(p, m, n, FrameSize(n))
    requires h.rip == hook && h.regs(RCX) == upValue && h.regs(RSP) == m.regs(RSP) - 8
    requires h.mem == Put(m.mem, m.regs(RSP) - 8, ret)
    requires forall x: Reg :: x != RAX && x != RCX && x != RSP ==> h.regs(x) == m.regs(x)
    ensures HookEntered(c, h, hook, upValue, n)
  {
    forall i | 1 <= i <= n ensures Arg(h, i + 1) == Arg(c, i) {
      HookArgs(c, p, m, h, n, i);
    }
  }

  lemma BeforeReturnExec(c: Cpu, hook: Word64, upValue: Word64, n: ArgCount) returns (h: Cpu)
    requires Entered(c) && HasRoom(c, n) && n <= MAX_ARGS && c.rip + BUFFER_SIZE < TWO_TO_THE_64
    ensures ExecAll(BeforeReturn(hook, upValue, n), c) == Some(h)
    ensures HookEntered(c, h, hook, upValue, n)
    ensures h.mem(h.regs(RSP)) == c.rip + |EncodeAll(BeforeReturn(hook, upValue, n))|
  {
    hide EncodeAll, ExecAll, MoveArgs, MovesSize, HookEntered, BeforeReturn, Prologue, CallHook, Encode;
    var f := FrameSize(n);
    MovesFit(n);
    PrologueCorrect(c, n);
    var p := ExecAll(Prologue(f), c).value;
    MovesCorrect(p, n, f);
    var m := ExecAll(MoveArgs(n, f), p).value;
    CallHookCorrect(m, hook, upValue);
    h := ExecAll(CallHook(hook, upValue), m).value;
    BeforeReturnStages(c, p, m, h, hook, upValue, n);
    HookEnteredStages(c, p, m, h, m.rip + 22, hook, upValue, n);
  }

  lemma MovesFit(n: ArgCount)
    requires n <= MAX_ARGS
    ensures FrameSize(n) < 2048 && MovesSize(n, FrameSize(n)) + 33 <= BUFFER_SIZE
    ensures |EncodeAll(MoveArgs(n, FrameSize(n)))| == MovesSize(n, FrameSize(n))
  {
    MovesSizeIsLength(n, FrameSize(n));
    if n >= 15 {
      MovesSizeClosed(n, FrameSize(n));
    } else {
      MovesSizeBound(n, FrameSize(n));
    }
  }

  lemma EpilogueFits(hook: Word64, upValue: Word64, n: ArgCount)
    requires n <= MAX_ARGS
    ensures |EncodeAll(BeforeReturn(hook, upValue, n))| + |EncodeAll(Epilogue(FrameSize(n)))| <= BUFFER_SIZE
  {
    FitsBufferIff(hook, upValue, n);
    EncodeAllAppend(BeforeReturn(hook, upValue, n), Epilogue(FrameSize(n)));
  }

  /** Releasing the frame, restoring rdi and returning. */
  lemma EpilogueExec(r: Cpu, frame: Frame)
    requires r.regs(RSP) % 8 == 0 && frame % 8 == 0 && r.regs(RSP) + frame + 16 < TWO_TO_THE_64 && frame < TWO_TO_THE_31
    requires r.rip + |EncodeAll(Epilogue(frame))| < TWO_TO_THE_64
    ensures ExecAll(Epilogue(frame), r).Some?
    ensures var f := ExecAll(Epilogue(frame), r).value;
      && f.rip == r.mem(r.regs(RSP) + frame + 8) && f.regs(RSP) == r.regs(RSP) + frame + 16
      && f.regs(RDI) == r.mem(r.regs(RSP) + frame) && f.mem == r.mem
      && forall x: Reg :: x != RSP && x != RDI ==> f.regs(x) == r.regs(x)
  {
    EncodeThree(AddRsp(frame), Pop(RDI), Ret);
    var c1 := ExecNext(AddRsp(frame), r).value;
    var c2 := ExecNext(Pop(RDI), c1).value;
    ExecThree(AddRsp(frame), Pop(RDI), Ret, r);
  }

  /** What the thunk's caller sees: `f` is the state after it returned and `r` the one the hook returned in. */
  ghost predicate ThunkReturned(c: Cpu, r: Cpu, f: Cpu)
  {
    && f.rip == c.mem(c.regs(RSP))
    && f.regs(RSP) == c.regs(RSP) + 8
    && f.regs(RAX) == r.regs(RAX)
    && (forall x: Reg :: Preserved(x) ==> f.regs(x) == c.regs(x))
    && f.mem == r.mem
  }

  function StepsToHook(n: ArgCount): nat { |MoveArgs(n, FrameSize(n))| + 5 }

  lemma RunBefore(base: nat, c: Cpu, hook: Word64, upValue: Word64, n: ArgCount)
    requires n <= MAX_ARGS && c.rip == base
    requires ExecAll(BeforeReturn(hook, upValue, n), c).Some?
    ensures Run(ThunkBytes(hook, upValue, n), base, c, StepsToHook(n)) == ExecAll(BeforeReturn(hook, upValue, n), c)
  {
    hide EncodeAll, ExecAll, Run, Epilogue, Straight;
    var before, f := BeforeReturn(hook, upValue, n), FrameSize(n);
    EncodeAllAppend(before, Epilogue(f));
    assert ThunkBytes(hook, upValue, n) == [] + EncodeAll(before) + EncodeAll(Epilogue(f));
    BeforeReturnStraight(hook, upValue, n);
    RunAssembled([], before, EncodeAll(Epilogue(f)), base, c);
    assert |before| == StepsToHook(n);
  }

  lemma RunEpilogue(base: nat, r: Cpu, hook: Word64, upValue: Word64, n: ArgCount)
    requires n <= MAX_ARGS
    requires r.rip == base + |EncodeAll(BeforeReturn(hook, upValue, n))| && ExecAll(Epilogue(FrameSize(n)), r).Some?
    ensures Run(ThunkBytes(hook, upValue, n), base, r, 3) == ExecAll(Epilogue(FrameSize(n)), r)
  {
    var before, frame := BeforeReturn(hook, upValue, n), FrameSize(n);
    EncodeAllAppend(before, Epilogue(frame));
    assert ThunkBytes(hook, upValue, n) == EncodeAll(before) + EncodeAll(Epilogue(frame)) + [];
    RunAssembled(EncodeAll(before), Epilogue(frame), [], base, r);
  }

  /** From entry to the thunk, the processor reaches the hook with `upValue` in front of the thunk's own arguments. */
  lemma ReachesHook(base: nat, c: Cpu, hook: Word64, upValue: Word64, n: ArgCount) returns (h: Cpu)
    requires n <= MAX_ARGS
    requires c.rip == base && base + BUFFER_SIZE < TWO_TO_THE_64 && Entered(c) && HasRoom(c, n)
    ensures Run(ThunkBytes(hook, upValue, n), base, c, StepsToHook(n)) == Some(h)
    ensures HookEntered(c, h, hook, upValue, n)
    ensures h.mem(h.regs(RSP)) == base + |EncodeAll(BeforeReturn(hook, upValue, n))|
  {
    h := BeforeReturnExec(c, hook, upValue, n);
    RunBefore(base, c, hook, upValue, n);
  }

  lemma {:induction false} MoveArgsStraight(n: ArgCount, frame: Frame)
    ensures forall k :: 0 <= k < |MoveArgs(n, frame)| ==> Straight(MoveArgs(n, frame)[k])
  {
    if n > 0 {
      MoveArgsStraight(n - 1, frame);
    }
  }

  lemma BeforeReturnStraight(hook: Word64, upValue: Word64, n: ArgCount)
    ensures |BeforeReturn(hook, upValue, n)| == StepsToHook(n)
    ensures var before := BeforeReturn(hook, upValue, n); forall k :: 0 <= k < |before| - 1 ==> Straight(before[k])
  {
    MoveArgsStraight(n, FrameSize(n));
    var before := BeforeReturn(hook, upValue, n);
    var moves := MoveArgs(n, FrameSize(n));
    forall k | 0 <= k < |before| - 1 ensures Straight(before[k]) {
      if 2 <= k < |moves| + 2 {
        assert before[k] == moves[k - 2];
      }
    }
  }

  /** Once the hook returns as the convention obliges it to, three more instructions return to the thunk's caller. */
  lemma ReturnsToCaller(base: nat, c: Cpu, h: Cpu, r: Cpu, hook: Word64, upValue: Word64, n: ArgCount) returns (f: Cpu)
    requires n <= MAX_ARGS
    requires base + BUFFER_SIZE < TWO_TO_THE_64 && Entered(c) && HasRoom(c, n)
    requires HookEntered(c, h, hook, upValue, n)
    requires h.mem(h.regs(RSP)) == base + |EncodeAll(BeforeReturn(hook, upValue, n))|
    requires ReturnsFrom(h, r, n + 1, c.regs(RSP) + 8)
    ensures Run(ThunkBytes(hook, upValue, n), base, r, 3) == Some(f)
    ensures ThunkReturned(c, r, f)
  {
    FrameSurvives(c, h, r, hook, upValue, n);
    EpilogueFits(hook, upValue, n);
    f := EpilogueReturns(c, r, n);
    RunEpilogue(base, r, hook, upValue, n);
  }

  /** The hook may not touch the saved rdi and the return address, which lie above its argument area. */
  lemma FrameSurvives(c: Cpu, h: Cpu, r: Cpu, hook: Word64, upValue: Word64, n: ArgCount)
    requires HookEntered(c, h, hook, upValue, n) && ReturnsFrom(h, r, n + 1, c.regs(RSP) + 8)
    ensures r.rip == h.mem(h.regs(RSP)) && r.regs(RSP) == c.regs(RSP) - 8 - FrameSize(n)
    ensures r.mem(c.regs(RSP) - 8) == c.regs(RDI) && r.mem(c.regs(RSP)) == c.mem(c.regs(RSP))
    ensures forall x: Reg :: Preserved(x) ==> r.regs(x) == c.regs(x)
  {
  }

  lemma EpilogueReturns(c: Cpu, r: Cpu, n: ArgCount) returns (f: Cpu)
    requires n <= MAX_ARGS && Entered(c) && HasRoom(c, n)
    requires r.regs(RSP) == c.regs(RSP) - 8 - FrameSize(n)
    requires r.mem(c.regs(RSP) - 8) == c.regs(RDI) && r.mem(c.regs(RSP)) == c.mem(c.regs(RSP))
    requires forall x: Reg :: Preserved(x) ==> r.regs(x) == c.regs(x)
    requires r.rip + |EncodeAll(Epilogue(FrameSize(n)))| < TWO_TO_THE_64
    ensures ExecAll(Epilogue(FrameSize(n)), r) == Some(f)
    ensures ThunkReturned(c, r, f)
  {
    hide EncodeAll, ExecAll, MovesSize, MoveArgs, Epilogue, Encode, FrameSize, Exec;
    MovesFit(n);
    EpilogueExec(r, FrameSize(n));
    f := ExecAll(Epilogue(FrameSize(n)), r).value;
  }

  /**
   * The thunk implements its calling convention: it enters the hook with (upValue, a1, .., an), and whatever the hook
   * does within the convention, the thunk then returns to its caller with the hook's result and the caller's registers.
   */
  lemma ThunkMeetsConvention(base: nat, c: Cpu, hook: Word64, upValue: Word64, n: ArgCount)
    requires n <= MAX_ARGS
    requires c.rip == base && base + BUFFER_SIZE < TWO_TO_THE_64 && Entered(c) && HasRoom(c, n)
    ensures Run(ThunkBytes(hook, upValue, n), base, c, StepsToHook(n)).Some?
    ensures var h := Run(ThunkBytes(hook, upValue, n), base, c, StepsToHook(n)).value;
      && HookEntered(c, h, hook, upValue, n)
      && forall r :: ReturnsFrom(h, r, n + 1, c.regs(RSP) + 8) ==>
           var f := Run(ThunkBytes(hook, upValue, n), base, r, 3); f.Some? && ThunkReturned(c, r, f.value)
  {
    var h := ReachesHook(base, c, hook, upValue, n);
    forall r | ReturnsFrom(h, r, n + 1, c.regs(RSP) + 8)
      ensures var f := Run(ThunkBytes(hook, upValue, n), base, r, 3); f.Some? && ThunkReturned(c, r, f.value)
    {
      var f := ReturnsToCaller(base, c, h, r, hook, upValue, n);
    }
  }

  // ----- the generator

  /** `sub rsp, frame` or `add rsp, frame`, told apart by the ModRM byte. */
  method EmitRsp(buf: Buffer, modrm: Byte, frame: Frame)
    requires buf.Valid() && frame < TWO_TO_THE_31 && |buf.emitted| + (if frame >= 0x80 then 7 else 4) <= BUFFER_SIZE
    requires modrm == 0xec || modrm == 0xc4
    modifies buf, buf.code
    ensures buf.Valid()
    ensures buf.emitted == old(buf.emitted) + Encode(if modrm == 0xec then SubRsp(frame) else AddRsp(frame))
  {
    hide Buffer.Valid, Le;
    if frame >= 0x80 {
      Emit3(buf, 0x48, 0x81, modrm);
      buf.EmitWord(frame, 4);
    } else {
      Emit3(buf, 0x48, 0x83, modrm);
      buf.Emit(frame);
    }
  }

  /** The ModRM byte for rax and [rsp + disp], the SIB byte and the displacement. */
  method EmitOperand(buf: Buffer, disp: nat)
    requires buf.Valid() && disp < TWO_TO_THE_31 && |buf.emitted| + (if disp >= 0x80 then 6 else 3) <= BUFFER_SIZE
    modifies buf, buf.code
    ensures buf.Valid()
    ensures buf.emitted == old(buf.emitted) + ([ModRM(DispMod(disp), RAX, RSP), 0x24] + DispBytes(disp))
  {
    hide Buffer.Valid, Le;
    if disp >= 0x80 {
      buf.Emit(0x84);
      buf.Emit(0x24);
      buf.EmitWord(disp, 4);
    } else {
      buf.Emit(0x44);
      buf.Emit(0x24);
      buf.Emit(disp);
    }
  }

  /** `mov rax, [rsp + disp]` or `mov [rsp + disp], rax`, told apart by the opcode. */
  method EmitRaxMove(buf: Buffer, op: Byte, disp: nat)
    requires buf.Valid() && disp < TWO_TO_THE_31 && |buf.emitted| + (if disp >= 0x80 then 8 else 5) <= BUFFER_SIZE
    requires op == 0x8b || op == 0x89
    modifies buf, buf.code
    ensures buf.Valid()
    ensures buf.emitted == old(buf.emitted) + Encode(if op == 0x8b then Load(RAX, disp) else Store(disp, RAX))
  {
    hide Buffer.Valid, Le;
    buf.Emit(0x48);
    buf.Emit(op);
    EmitOperand(buf, disp);
  }

  method Emit3(buf: Buffer, b0: Byte, b1: Byte, b2: Byte)
    requires buf.Valid() && |buf.emitted| + 3 <= BUFFER_SIZE
    modifies buf, buf.code
    ensures buf.Valid() && buf.emitted == old(buf.emitted) + [b0, b1, b2]
  {
    hide Buffer.Valid;
    buf.Emit(b0);
    buf.Emit(b1);
    buf.Emit(b2);
  }

  lemma MoveArgBytes(i: ArgCount, frame: Frame)
    requires 0 < i
    ensures i == 1 ==> EncodeAll(MoveArg(i, frame)) == [0x48, 0x8b, 0xd1]
    ensures i == 2 ==> EncodeAll(MoveArg(i, frame)) == [0x4c, 0x8b, 0xc2]
    ensures i == 3 ==> EncodeAll(MoveArg(i, frame)) == [0x4d, 0x8b, 0xc8]
    ensures i == 4 ==> EncodeAll(MoveArg(i, frame)) == [0x4c, 0x89, 0x4c, 0x24, 0x20]
    ensures i > 4 ==>
      var load, store := Encode(Load(RAX, frame + 0x28 + (i - 4) * 8)), Encode(Store(0x20 + (i - 4) * 8, RAX));
      EncodeAll(MoveArg(i, frame)) == load + store
    ensures |EncodeAll(MoveArg(i, frame))| == MoveSize(i, frame)
  {
    if i <= 4 {
      EncodeOne(MoveArg(i, frame)[0]);
    } else {
      EncodeTwo(MoveArg(i, frame)[0], MoveArg(i, frame)[1]);
    }
  }

  /** The body of the generator's loop. */
  method EmitMoveArg(buf: Buffer, i: ArgCount, frame: Frame)
    requires 0 < i
    requires buf.Valid() && |buf.emitted| + MoveSize(i, frame) <= BUFFER_SIZE
    modifies buf, buf.code
    ensures buf.Valid() && buf.emitted == old(buf.emitted) + EncodeAll(MoveArg(i, frame))
  {
    hide Buffer.Valid, Le;
    MoveArgBytes(i, frame);
    hide Encode, EncodeAll, MoveArg, MoveSize;
    if i == 1 {
      Emit3(buf, 0x48, 0x8b, 0xd1);
    } else if i == 2 {
      Emit3(buf, 0x4c, 0x8b, 0xc2);
    } else if i == 3 {
      Emit3(buf, 0x4d, 0x8b, 0xc8);
    } else if i == 4 {
      EmitHomeStore(buf);
    } else {
      EmitStackMove(buf, frame + 0x28 + (i - 4) * 8, 0x20 + (i - 4) * 8);
    }
  }

  /** `mov [rsp + 20h], r9` */
  method EmitHomeStore(buf: Buffer)
    requires buf.Valid() && |buf.emitted| + 5 <= BUFFER_SIZE
    modifies buf, buf.code
    ensures buf.Valid() && buf.emitted == old(buf.emitted) + [0x4c, 0x89, 0x4c, 0x24, 0x20]
  {
    hide Buffer.Valid;
    Emit3(buf, 0x4c, 0x89, 0x4c);
    buf.Emit(0x24);
    buf.Emit(0x20);
  }

  method EmitStackMove(buf: Buffer, src: nat, dst: nat)
    requires src < TWO_TO_THE_31 && dst < TWO_TO_THE_31
    requires buf.Valid() && |buf.emitted| + |Encode(Load(RAX, src))| + |Encode(Store(dst, RAX))| <= BUFFER_SIZE
    modifies buf, buf.code
    ensures buf.Valid()
    ensures buf.emitted == old(buf.emitted) + (Encode(Load(RAX, src)) + Encode(Store(dst, RAX)))
  {
    hide Buffer.Valid;
    EmitRaxMove(buf, 0x8b, src);
    EmitRaxMove(buf, 0x89, dst);
  }

  /** `mov rcx, v` or `mov rax, v`, told apart by the opcode. */
  method EmitMovImm(buf: Buffer, op: Byte, v: Word64)
    requires buf.Valid() && |buf.emitted| + 10 <= BUFFER_SIZE
    requires op == 0xb9 || op == 0xb8
    modifies buf, buf.code
    ensures buf.Valid()
    ensures buf.emitted == old(buf.emitted) + Encode(MovImm(if op == 0xb9 then RCX else RAX, v))
  {
    hide Buffer.Valid, Le;
    buf.Emit(0x48);
    buf.Emit(op);
    buf.EmitWord(v, 8);
  }

  /** The code between the moves and the final `ret`, exclusive. */
  method EmitCall(buf: Buffer, hook: Word64, upValue: Word64)
    requires buf.Valid() && |buf.emitted| + 22 <= BUFFER_SIZE
    modifies buf, buf.code
    ensures buf.Valid() && buf.emitted == old(buf.emitted) + EncodeAll(CallHook(hook, upValue))
  {
    hide Buffer.Valid, Le;
    EncodeThree(MovImm(RCX, upValue), MovImm(RAX, hook), CallReg(RAX));
    assert Encode(CallReg(RAX)) == [0xff, 0xd0];
    assert |Encode(MovImm(RCX, upValue))| == |Encode(MovImm(RAX, hook))| == 10;
    hide Encode, EncodeAll;
    EmitMovImm(buf, 0xb9, upValue);
    EmitMovImm(buf, 0xb8, hook);
    buf.Emit(0xff);
    buf.Emit(0xd0);
  }

  lemma {:induction false} MovesSizeMonotone(i: ArgCount, n: ArgCount, frame: Frame)
    requires i <= n
    ensures MovesSize(i, frame) <= MovesSize(n, frame)
  {
    if i < n {
      MovesSizeMonotone(i, n - 1, frame);
    }
  }

  /** The moves for arguments above `i`, in the order they are emitted. */
  ghost function MovesAbove(i: ArgCount, n: ArgCount, frame: Frame): (bs: seq<Byte>)
    requires i <= n
    decreases n - i
  {
    if i == n then [] else MovesAbove(i + 1, n, frame) + EncodeAll(MoveArg(i + 1, frame))
  }

  lemma {:induction false} MovesAboveAll(i: ArgCount, n: ArgCount, frame: Frame)
    requires i <= n
    ensures MovesAbove(i, n, frame) + EncodeAll(MoveArgs(i, frame)) == EncodeAll(MoveArgs(n, frame))
    decreases n - i
  {
    if i < n {
      MovesAboveAll(i + 1, n, frame);
      EncodeAllAppend(MoveArg(i + 1, frame), MoveArgs(i, frame));
      Assoc(MovesAbove(i + 1, n, frame), EncodeAll(MoveArg(i + 1, frame)), EncodeAll(MoveArgs(i, frame)));
    }
  }

  lemma MovesAboveSize(i: ArgCount, n: ArgCount, frame: Frame)
    requires i <= n
    ensures |MovesAbove(i, n, frame)| + MovesSize(i, frame) == MovesSize(n, frame)
  {
    MovesAboveAll(i, n, frame);
    MovesSizeIsLength(i, frame);
    MovesSizeIsLength(n, frame);
  }

  /** The loop over the arguments, from the last to the first. */
  method EmitMoveArgs(buf: Buffer, n: ArgCount, frame: Frame)
    requires buf.Valid() && |buf.emitted| + MovesSize(n, frame) <= BUFFER_SIZE
    modifies buf, buf.code
    ensures buf.Valid() && buf.emitted == old(buf.emitted) + EncodeAll(MoveArgs(n, frame))
  {
    ghost var start := buf.emitted;
    var i := n;
    while i > 0
      invariant 0 <= i <= n
      invariant buf.Valid() && buf.emitted == start + MovesAbove(i, n, frame)
    {
      MovesAboveSize(i, n, frame);
      EmitMoveArg(buf, i, frame);
      Assoc(start, MovesAbove(i, n, frame), EncodeAll(MoveArg(i, frame)));
      i := i - 1;
    }
    MovesAboveAll(0, n, frame);
    assert MovesAbove(0, n, frame) + [] == EncodeAll(MoveArgs(n, frame));
  }

  /**
   * Generates the thunk in the static buffer and copies it to memory of its own. The bytes depend on nothing the
   * buffer held before.
   */
  method InstanceFunction(buf: Buffer, hook: Word64, upValue: Word64, n: ArgCount) returns (instance: array<Byte>)
    requires buf.Valid() && n <= MAX_ARGS
    modifies buf, buf.code
    ensures buf.Valid() && fresh(instance)
    ensures instance[..] == ThunkBytes(hook, upValue, n)
  {
    var frame := FrameSize(n);
    ghost var f := frame;
    ThunkSizeIsLength(hook, upValue, n);
    FitsBufferIff(hook, upValue, n);
    MovesFit(n);
    ThunkSplit(hook, upValue, n);
    EncodeTwo(Push(RDI), SubRsp(f));
    EncodeThree(AddRsp(f), Pop(RDI), Ret);
    buf.Reset();
    buf.Emit(0x57);
    EmitRsp(buf, 0xec, frame);
    assert buf.emitted == EncodeAll(Prologue(f));
    EmitMoveArgs(buf, n, frame);
    EmitCall(buf, hook, upValue);
    EmitEpilogue(buf, frame);
    instance := buf.Copy();
  }

  method EmitEpilogue(buf: Buffer, frame: Frame)
    requires frame < TWO_TO_THE_31 && buf.Valid() && |buf.emitted| + |EncodeAll(Epilogue(frame))| <= BUFFER_SIZE
    modifies buf, buf.code
    ensures buf.Valid() && buf.emitted == old(buf.emitted) + EncodeAll(Epilogue(frame))
  {
    EncodeThree(AddRsp(frame), Pop(RDI), Ret);
    EmitRsp(buf, 0xc4, frame);
    buf.Emit(0x5f);
    buf.Emit(0xc3);
  }
}
