/**
 * The x86-64 instructions that appear in call thunks: their machine encoding, a decoder that follows the processor's
 * prefix/ModRM/SIB rules, and what each one does to registers and stack memory. Registers are numbered as the
 * processor numbers them (0 = rax, 1 = rcx, 2 = rdx, 4 = rsp, 7 = rdi, 8 = r8, 9 = r9).
 */
module X64 {
  import opened Bytes
  import opened Machine
  import opened Options

  type Reg = x: int | 0 <= x < 16

  const RAX: Reg := 0
  const RCX: Reg := 1
  const RDX: Reg := 2
  const RSP: Reg := 4
  const RDI: Reg := 7
  const R8: Reg := 8
  const R9: Reg := 9

  /** `Load`, `Store`: a quadword at [rsp + disp]. Displacements and immediates are the sign-extended values. */
  datatype Operation =
    | Push(r: Reg)
    | Pop(r: Reg)
    | AddRsp(k: int)
    | SubRsp(k: int)
    | Mov(dst: Reg, src: Reg)
    | Load(dst: Reg, disp: int)
    | Store(disp: int, src: Reg)
    | MovImm(dst: Reg, v: Word64)
    | CallReg(r: Reg)
    | Ret

  // ----- encoding

  function ModRM(mod: nat, reg: Reg, rm: Reg): Byte
    requires mod < 4
  {
    mod * 64 + reg % 8 * 8 + rm % 8
  }

  /** REX.W with the high bits of the register and r/m fields. */
  function RexW(reg: Reg, rm: Reg): Byte
  {
    0x48 + (if reg >= 8 then 4 else 0) + (if rm >= 8 then 1 else 0)
  }

  /** A displacement is one byte below 80h and four bytes from there on. */
  function DispBytes(disp: int): seq<Byte>
    requires 0 <= disp < TWO_TO_THE_31
  {
    if disp >= 0x80 then Le(disp, 4) else [disp]
  }

  function DispMod(disp: int): (m: nat)
    ensures m < 4
  {
    if disp >= 0x80 then 2 else 1
  }

  /** The operations the assembler below can encode. */
  predicate Encodable(i: Operation)
  {
    match i
    case Push(r) => r < 8
    case Pop(r) => r < 8
    case AddRsp(k) => 0 <= k < TWO_TO_THE_31
    case SubRsp(k) => 0 <= k < TWO_TO_THE_31
    case Load(_, disp) => 0 <= disp < TWO_TO_THE_31
    case Store(disp, _) => 0 <= disp < TWO_TO_THE_31
    case MovImm(dst, _) => dst < 8
    case CallReg(r) => r < 8
    case _ => true
  }

  type Instr = i: Operation | Encodable(i) witness Ret

  function Encode(i: Instr): (bs: seq<Byte>)
  {
    match i
    case Push(r) => [0x50 + r]
    case Pop(r) => [0x58 + r]
    case AddRsp(k) => [0x48, if k >= 0x80 then 0x81 else 0x83, ModRM(3, 0, RSP)] + DispBytes(k)
    case SubRsp(k) => [0x48, if k >= 0x80 then 0x81 else 0x83, ModRM(3, 5, RSP)] + DispBytes(k)
    case Mov(dst, src) => [RexW(dst, src), 0x8b, ModRM(3, dst, src)]
    case Load(dst, disp) => [RexW(dst, 0), 0x8b, ModRM(DispMod(disp), dst, RSP), 0x24] + DispBytes(disp)
    case Store(disp, src) => [RexW(src, 0), 0x89, ModRM(DispMod(disp), src, RSP), 0x24] + DispBytes(disp)
    case MovImm(dst, v) => [0x48, 0xb8 + dst] + Le(v, 8)
    case CallReg(r) => [0xff, ModRM(3, 2, r)]
    case Ret => [0xc3]
  }

  function EncodeAll(prog: seq<Instr>): (bs: seq<Byte>)
  {
    if prog == [] then [] else Encode(prog[0]) + EncodeAll(prog[1..])
  }

  lemma EncodeAllCons(prog: seq<Instr>)
    requires prog != []
    ensures EncodeAll(prog) == Encode(prog[0]) + EncodeAll(prog[1..])
  {
  }

  lemma Assoc(x: seq<Byte>, y: seq<Byte>, z: seq<Byte>)
    ensures (x + y) + z == x + (y + z)
  {
  }

  lemma {:induction false} EncodeAllAppend(a: seq<Instr>, b: seq<Instr>)
    ensures EncodeAll(a + b) == EncodeAll(a) + EncodeAll(b)
  {
    if a == [] {
      assert a + b == b;
    } else {
      var ab := a + b;
      assert ab[0] == a[0] && ab[1..] == a[1..] + b;
      EncodeAllAppend(a[1..], b);
      EncodeAllCons(ab);
      EncodeAllCons(a);
      Assoc(Encode(a[0]), EncodeAll(a[1..]), EncodeAll(b));
    }
  }

  // ----- decoding

  /** An immediate or displacement of one or four bytes at the front of `s`, with the bytes it takes. */
  function Signed(s: seq<Byte>, wide: bool): Option<(int, nat)>
  {
    if wide then
      if |s| >= 4 then Some((SignExtend32(FromLe(s[..4])), 4)) else None
    else
      if |s| >= 1 then Some((SignExtend8(s[0]), 1)) else None
  }

  /** The instruction at the front of `s` and its length; `None` for anything outside the set above. */
  function Decode(s: seq<Byte>): Option<(Operation, nat)>
  {
    if |s| == 0 then None
    else if 0x50 <= s[0] < 0x58 then Some((Push(s[0] - 0x50), 1))
    else if 0x58 <= s[0] < 0x60 then Some((Pop(s[0] - 0x58), 1))
    else if s[0] == 0xc3 then Some((Ret, 1))
    else if s[0] == 0xff then
      if |s| >= 2 && s[1] / 64 == 3 && s[1] / 8 % 8 == 2 then Some((CallReg(s[1] % 8), 2)) else None
    else if 0x48 <= s[0] < 0x50 && |s| >= 2 then
      DecodeRexW(s[0], s[1], s[2..])
    else None
  }

  /** After a REX.W prefix `rex` and the opcode `op`. The index bit (REX.X) is not used by this set. */
  function DecodeRexW(rex: Byte, op: Byte, s: seq<Byte>): Option<(Operation, nat)>
    requires 0x48 <= rex < 0x50
  {
    var regHigh := if (rex - 0x48) / 4 == 1 then 8 else 0;
    var rmHigh := if rex % 2 == 1 then 8 else 0;
    if (rex - 0x48) / 2 % 2 == 1 then None
    else if 0xb8 <= op < 0xc0 then
      if |s| >= 8 then (FromLeBound(s[..8]); Spans(); Some((MovImm(op - 0xb8 + rmHigh, FromLe(s[..8])), 10))) else None
    else if |s| == 0 then None
    else
      var mod, reg, rm := s[0] / 64, s[0] / 8 % 8 + regHigh, s[0] % 8 + rmHigh;
      if op == 0x81 || op == 0x83 then
        match Signed(s[1..], op == 0x81)
        case None => None
        case Some((k, len)) =>
          if mod != 3 || rm != RSP then None
          else if s[0] / 8 % 8 == 0 then Some((AddRsp(k), 3 + len))
          else if s[0] / 8 % 8 == 5 then Some((SubRsp(k), 3 + len))
          else None
      else if op == 0x8b && mod == 3 then Some((Mov(reg, rm), 3))
      else if (op == 0x8b || op == 0x89) && (mod == 1 || mod == 2)
        && s[0] % 8 == 4 && |s| >= 2 && s[1] == 0x24 && rmHigh == 0 then
        match Signed(s[2..], mod == 2)
        case None => None
        case Some((disp, len)) =>
          Some((if op == 0x8b then Load(reg, disp) else Store(disp, reg), 4 + len))
      else None
  }

  lemma SignedDisp(disp: int, rest: seq<Byte>)
    requires 0 <= disp < TWO_TO_THE_31
    ensures Signed(DispBytes(disp) + rest, disp >= 0x80) == Some((disp, |DispBytes(disp)|))
  {
    Spans();
    if disp >= 0x80 {
      LeRoundTrip(disp, 4);
      assert (Le(disp, 4) + rest)[..4] == Le(disp, 4);
    }
  }

  lemma DecodeRsp(op: nat, k: int, rest: seq<Byte>)
    requires 0 <= k < TWO_TO_THE_31 && (op == 0 || op == 5)
    ensures var bs := [0x48, if k >= 0x80 then 0x81 else 0x83, ModRM(3, op, RSP)] + DispBytes(k);
      Decode(bs + rest) == Some((if op == 0 then AddRsp(k) else SubRsp(k), |bs|))
  {
    var bs := [0x48, if k >= 0x80 then 0x81 else 0x83, ModRM(3, op, RSP)] + DispBytes(k);
    SignedDisp(k, rest);
    assert (bs + rest)[2..] == [ModRM(3, op, RSP)] + DispBytes(k) + rest;
    assert (bs + rest)[2..][1..] == DispBytes(k) + rest;
  }

  lemma ModRMFields(mod: nat, reg: Reg, rm: Reg)
    requires mod < 4
    ensures var b := ModRM(mod, reg, rm); b / 64 == mod && b / 8 % 8 == reg % 8 && b % 8 == rm % 8
  {
    var b := ModRM(mod, reg, rm);
    assert b / 64 == mod;
    assert b / 8 == mod * 8 + reg % 8;
  }

  lemma DecodeStack(op: Byte, r: Reg, disp: int, rest: seq<Byte>)
    requires 0 <= disp < TWO_TO_THE_31 && (op == 0x8b || op == 0x89)
    ensures var bs := [RexW(r, 0), op, ModRM(DispMod(disp), r, RSP), 0x24] + DispBytes(disp);
      Decode(bs + rest) == Some((if op == 0x8b then Load(r, disp) else Store(disp, r), |bs|))
  {
    var bs := [RexW(r, 0), op, ModRM(DispMod(disp), r, RSP), 0x24] + DispBytes(disp);
    SignedDisp(disp, rest);
    ModRMFields(DispMod(disp), r, RSP);
    var s := (bs + rest)[2..];
    assert s == [ModRM(DispMod(disp), r, RSP), 0x24] + (DispBytes(disp) + rest);
    assert s[2..] == DispBytes(disp) + rest;
    assert Decode(bs + rest) == DecodeRexW(RexW(r, 0), op, s);
  }

  lemma DecodeMov(dst: Reg, src: Reg, rest: seq<Byte>)
    ensures Decode(Encode(Mov(dst, src)) + rest) == Some((Mov(dst, src), 3))
  {
    var bs := Encode(Mov(dst, src)) + rest;
    ModRMFields(3, dst, src);
    assert bs[2..] == [ModRM(3, dst, src)] + rest;
    assert Decode(bs) == DecodeRexW(RexW(dst, src), 0x8b, bs[2..]);
  }

  lemma DecodeMovImm(dst: Reg, v: Word64, rest: seq<Byte>)
    requires dst < 8
    ensures Decode(Encode(MovImm(dst, v)) + rest) == Some((MovImm(dst, v), 10))
  {
    hide Le, FromLe;
    var bs := Encode(MovImm(dst, v)) + rest;
    Spans();
    LeRoundTrip(v, 8);
    assert bs[2..] == Le(v, 8) + rest;
    assert bs[2..][..8] == Le(v, 8);
    assert Decode(bs) == DecodeRexW(0x48, 0xb8 + dst, bs[2..]);
  }

  /** Disassembling undoes assembling, whatever follows: the one-byte and four-byte displacement forms included. */
  lemma DecodeEncode(i: Instr, rest: seq<Byte>)
    ensures Decode(Encode(i) + rest) == Some((i, |Encode(i)|))
  {
    match i
    case AddRsp(k) => DecodeRsp(0, k, rest);
    case SubRsp(k) => DecodeRsp(5, k, rest);
    case Mov(dst, src) => DecodeMov(dst, src, rest);
    case Load(dst, disp) => DecodeStack(0x8b, dst, disp, rest);
    case Store(disp, src) => DecodeStack(0x89, src, disp, rest);
    case MovImm(dst, v) => DecodeMovImm(dst, v, rest);
    case _ =>
  }

  // ----- execution

  type Registers = Reg -> Word64

  /** Stack memory as aligned quadwords. */
  type Memory = int -> Word64

  ghost function Set(regs: Registers, r: Reg, v: Word64): Registers
  {
    (x: Reg) => if x == r then v else regs(x)
  }

  ghost function Put(m: Memory, a: int, v: Word64): Memory
  {
    (x: int) => if x == a then v else m(x)
  }

  /** The general registers, the instruction pointer and memory. */
  datatype Cpu = Cpu(regs: Registers, rip: Word64, mem: Memory)

  /** An address the machine below can use: an aligned quadword inside the address space. */
  predicate Usable(a: int)
  {
    0 <= a < TWO_TO_THE_64 && a % 8 == 0
  }

  /** One instruction whose successor in memory is at `next`. Stuck on an unaligned or wrapping stack access. */
  ghost function Exec(i: Operation, c: Cpu, next: Word64): Option<Cpu>
  {
    var sp := c.regs(RSP);
    match i
    case Push(r) =>
      if Usable(sp - 8) then Some(Cpu(Set(c.regs, RSP, sp - 8), next, Put(c.mem, sp - 8, c.regs(r)))) else None
    case Pop(r) =>
      if Usable(sp) && Usable(sp + 8) then Some(Cpu(Set(Set(c.regs, RSP, sp + 8), r, c.mem(sp)), next, c.mem)) else None
    case AddRsp(k) =>
      if Usable(sp + k) then Some(Cpu(Set(c.regs, RSP, sp + k), next, c.mem)) else None
    case SubRsp(k) =>
      if Usable(sp - k) then Some(Cpu(Set(c.regs, RSP, sp - k), next, c.mem)) else None
    case Mov(dst, src) => Some(Cpu(Set(c.regs, dst, c.regs(src)), next, c.mem))
    case Load(dst, disp) =>
      if Usable(sp + disp) then Some(Cpu(Set(c.regs, dst, c.mem(sp + disp)), next, c.mem)) else None
    case Store(disp, src) =>
      if Usable(sp + disp) then Some(Cpu(c.regs, next, Put(c.mem, sp + disp, c.regs(src)))) else None
    case MovImm(dst, v) => Some(Cpu(Set(c.regs, dst, v), next, c.mem))
    case CallReg(r) =>
      if Usable(sp - 8) then Some(Cpu(Set(c.regs, RSP, sp - 8), c.regs(r), Put(c.mem, sp - 8, next))) else None
    case Ret =>
      if Usable(sp) && Usable(sp + 8) then Some(Cpu(Set(c.regs, RSP, sp + 8), c.mem(sp), c.mem)) else None
  }

  /** Fetch from `code`, loaded at `base`, decode and execute. */
  ghost function Step(code: seq<Byte>, base: nat, c: Cpu): Option<Cpu>
  {
    if base <= c.rip < base + |code| then
      match Decode(code[c.rip - base..])
      case Some((i, len)) => if c.rip + len < TWO_TO_THE_64 then Exec(i, c, c.rip + len) else None
      case None => None
    else None
  }

  ghost function Processor(code: seq<Byte>, base: nat): Cpu -> Option<Cpu>
  {
    c => Step(code, base, c)
  }

  ghost function Run(code: seq<Byte>, base: nat, c: Cpu, steps: nat): Option<Cpu>
  {
    Iterate(Processor(code, base), c, steps)
  }

  /** Executing a list of instructions laid out one after the other from `c.rip`. */
  ghost function ExecAll(prog: seq<Instr>, c: Cpu): Option<Cpu>
    decreases |prog|
  {
    if prog == [] then Some(c)
    else match ExecNext(prog[0], c)
      case Some(d) => ExecAll(prog[1..], d)
      case None => None
  }

  ghost function ExecNext(i: Instr, c: Cpu): Option<Cpu>
  {
    var next := c.rip + |Encode(i)|;
    if next < TWO_TO_THE_64 then Exec(i, c, next) else None
  }

  predicate Straight(i: Instr)
  {
    !i.CallReg? && !i.Ret?
  }

  /** One fetch-decode-execute step at assembled bytes executes the instruction they were assembled from. */
  lemma StepAssembled(pre: seq<Byte>, i: Instr, rest: seq<Byte>, base: nat, c: Cpu)
    requires c.rip == base + |pre|
    ensures Processor(pre + Encode(i) + rest, base)(c) == ExecNext(i, c)
    ensures Straight(i) && ExecNext(i, c).Some? ==> ExecNext(i, c).value.rip == base + |pre + Encode(i)|
  {
    var code := pre + Encode(i) + rest;
    assert code[c.rip - base..] == Encode(i) + rest;
    DecodeEncode(i, rest);
    EncodeNonEmpty(i);
  }

  lemma EncodeNonEmpty(i: Instr)
    ensures |Encode(i)| > 0
  {
  }

  /**
   * Fetch-decode-execute on assembled bytes does what executing the instruction list does, for straight-line lists
   * (only the last instruction may transfer control).
   */
  lemma {:induction false} RunAssembled(pre: seq<Byte>, prog: seq<Instr>, post: seq<Byte>, base: nat, c: Cpu)
    requires c.rip == base + |pre|
    requires forall k :: 0 <= k < |prog| - 1 ==> Straight(prog[k])
    requires ExecAll(prog, c).Some?
    ensures Run(pre + EncodeAll(prog) + post, base, c, |prog|) == ExecAll(prog, c)
    decreases |prog|
  {
    if prog != [] {
      var code := pre + EncodeAll(prog) + post;
      var pre' := pre + Encode(prog[0]);
      var tail := EncodeAll(prog[1..]) + post;
      assert code == pre' + tail && code == pre' + EncodeAll(prog[1..]) + post by {
        EncodeAllCons(prog);
      }
      StepAssembled(pre, prog[0], tail, base, c);
      var d := ExecNext(prog[0], c).value;
      if |prog| > 1 {
        assert Straight(prog[0]);
        RunAssembled(pre', prog[1..], post, base, d);
      }
    }
  }

  lemma {:induction false} ExecAllAppend(a: seq<Instr>, b: seq<Instr>, c: Cpu)
    requires ExecAll(a, c).Some?
    ensures ExecAll(a + b, c) == ExecAll(b, ExecAll(a, c).value)
    decreases |a|
  {
    if a == [] {
      assert a + b == b;
    } else {
      var ab := a + b;
      assert ab[0] == a[0] && ab[1..] == a[1..] + b;
      ExecAllAppend(a[1..], b, ExecNext(a[0], c).value);
    }
  }
}
