/** The few ARM instructions an imported call goes through, after the ARM Architecture Reference
    Manual (DDI 0100I): LDR with an immediate offset (A4.1.23), SWI (A4.1.107) and BX (A4.1.10),
    executed in ARM state on the ARMv5TE core the system is built for. */
module Arm {
  import opened Wrappers
  import opened Bytes

  /** r0 to r14, the address of the next instruction, and the T bit. */
  datatype Cpu = Cpu(regs: seq<word>, pc: word, thumb: bool)

  predicate WellFormed(cpu: Cpu) { |cpu.regs| == 15 }

  /** A register as an operand: r15 reads as the instruction's address plus 8. */
  function Operand(cpu: Cpu, r: nat): word
    requires WellFormed(cpu) && r < 16
  {
    if r == 15 then (cpu.pc + 8) % 0x1_0000_0000 else cpu.regs[r]
  }

  /** Bits low .. low + n - 1 of a word, given 2^low and 2^n. */
  function Field(w: word, low: nat, n: nat): nat
    requires low > 0 && n > 0
  {
    w / low % n
  }

  datatype Instruction =
    | Ldr(rd: nat, rn: nat, up: bool, offset: nat)
    | Swi(imm24: nat)
    | Bx(rm: nat)
    | Other

  /** Decoding of unconditional instructions. */
  function Decode(w: word): (i: Instruction)
    ensures i.Ldr? ==> i.rd < 16 && i.rn < 16
    ensures i.Bx? ==> i.rm < 16
  {
    if Field(w, 0x1000_0000, 0x10) != 14 then Other
    else if Field(w, 0x100_0000, 0x10) == 15 then Swi(Field(w, 1, 0x100_0000))
    else if Field(w, 0x10, 0x100_0000) == 0x12_fff1 then Bx(Field(w, 1, 0x10))
    // bits 27..24 = 0101 (immediate offset, pre-indexed), B = 0, W = 0, L = 1
    else if Field(w, 0x100_0000, 0x10) == 5 && Field(w, 0x10_0000, 8) % 8 == 1 then
      Ldr(Field(w, 0x1000, 0x10), Field(w, 0x1_0000, 0x10), Field(w, 0x80_0000, 2) == 1, Field(w, 1, 0x1000))
    else Other
  }

  /** Next: execution goes on. Trap: a software interrupt, with the address after it. Stuck: a
      fault, or behaviour the manual leaves unpredictable, or an instruction not modelled. */
  datatype Result = Next(cpu: Cpu) | Trap(cpu: Cpu) | Stuck

  /** Writing the pc with interworking: bit 0 goes to the T bit. */
  function Branch(cpu: Cpu, target: word): Result {
    if target % 4 == 2 then Stuck else Next(cpu.(pc := target - target % 2, thumb := target % 2 == 1))
  }

  function Execute(m: seq<byte>, cpu: Cpu, i: Instruction): Result
    requires WellFormed(cpu) && (i.Ldr? ==> i.rd < 16 && i.rn < 16) && (i.Bx? ==> i.rm < 16)
  {
    var next := (cpu.pc + 4) % 0x1_0000_0000;
    match i
    case Ldr(rd, rn, up, offset) =>
      var base := Operand(cpu, rn);
      var address := (if up then base + offset else base - offset) % 0x1_0000_0000;
      if address % 4 != 0 || address + 4 > |m| then Stuck
      else
        var data := ReadWord(m, address);
        if rd == 15 then Branch(cpu, data) else Next(cpu.(regs := cpu.regs[rd := data], pc := next))
    case Swi(_) => Trap(cpu.(pc := next))
    case Bx(rm) => Branch(cpu, Operand(cpu, rm))
    case Other => Stuck
  }

  function Step(m: seq<byte>, cpu: Cpu): Result
    requires WellFormed(cpu)
  {
    if cpu.thumb || cpu.pc % 4 != 0 || cpu.pc + 4 > |m| then Stuck
    else Execute(m, cpu, Decode(ReadWord(m, cpu.pc)))
  }

  /** `svc k` */
  function SvcWord(k: nat): word
    requires k < 0x100_0000
  {
    0xef00_0000 + k
  }

  /** `bx lr` */
  const BX_LR: word := 0xe12f_ff1e

  lemma {:induction false} DecodeSvc(k: nat)
    requires k < 0x100_0000
    ensures Decode(SvcWord(k)) == Swi(k)
  {
    assert SvcWord(k) / 0x1000_0000 == 14 && SvcWord(k) / 0x100_0000 == 0xef;
  }

  // ---------------------------------------------------------------- the interrupt hook

  /** `hook_intr`: the handler the trap at pc selects. A word that cannot be read stays at its
      initial value; None stands for an index outside the table. */
  function Dispatch<H>(m: seq<byte>, pc: word, table: seq<H>): Option<H> {
    var num := (if pc >= 4 && pc <= |m| then ReadWord(m, pc - 4) else 0xcccc_cccc) % 0x1_0000;
    if num < |table| then Some(table[num]) else None
  }

  method HookIntr<H>(mem: array<byte>, pc: word, table: seq<H>) returns (handler: Option<H>)
    ensures handler == Dispatch(mem[..], pc, table)
  {
    var num: word := 0xcccc_cccc;
    if pc >= 4 && pc <= mem.Length {
      num := ReadWord(mem[..], pc - 4);
    }
    num := num % 0x1_0000;
    if num < |table| {
      handler := Some(table[num]);
    } else {
      handler := None;
    }
  }

  /** Without a word before pc the number is the low half of the initial value. */
  lemma {:induction false} DispatchUnread<H>(m: seq<byte>, pc: word, table: seq<H>)
    requires pc < 4 || pc > |m|
    ensures Dispatch(m, pc, table) == if |table| > 0xcccc then Some(table[0xcccc]) else None
  {
  }

  /** The hook sees the number of the trapping instruction, cut to 16 bits. */
  lemma {:induction false} DispatchOfSvc<H>(m: seq<byte>, a: word, k: nat, table: seq<H>)
    requires k < 0x100_0000 && a + 4 <= |m| && a + 4 < 0x1_0000_0000 && ReadWord(m, a) == SvcWord(k)
    ensures Dispatch(m, a + 4, table) == if k % 0x1_0000 < |table| then Some(table[k % 0x1_0000]) else None
  {
    LowHalf(k);
    DispatchOfWord(m, a, SvcWord(k), table);
  }

  lemma {:induction false} LowHalf(k: nat)
    requires k < 0x100_0000
    ensures SvcWord(k) % 0x1_0000 == k % 0x1_0000
  {
    assert SvcWord(k) == 0xef00 * 0x1_0000 + k;
  }

  lemma {:induction false} DispatchOfWord<H>(m: seq<byte>, a: word, w: word, table: seq<H>)
    requires a + 4 <= |m| && a + 4 < 0x1_0000_0000 && ReadWord(m, a) == w
    ensures Dispatch(m, a + 4, table) == if w % 0x1_0000 < |table| then Some(table[w % 0x1_0000]) else None
  {
    assert a + 4 - 4 == a;
  }
}
