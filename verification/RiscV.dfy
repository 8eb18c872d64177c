/** The part of RV64I that the generated payloads use: instruction words, their decoding,
    and a machine that fetches them from byte memory and executes them one at a time.
    Formats and sign extension follow sections 2.3 to 2.6 of the RISC-V Unprivileged ISA
    manual, version 20191213. Values are integers; every wrap-around is written out. */
module RiscV {
  import opened Bytes
  import opened Words

  type Reg = r: int | 0 <= r < 32

  function Wrap(x: int): u64 {
    x % TWO64
  }

  /** The two's complement reading of an unsigned value of the given width. */
  function Signed(x: int, span: int): int {
    if x >= span / 2 then x - span else x
  }

  function SignedOf(x: u64): int {
    Signed(x, TWO64)
  }

  lemma ZeroIsZero()
    ensures SignedOf(0) == 0
  {
  }

  // ---------- Decoding ----------

  datatype Instr =
    | Lui(rd: Reg, imm: int)
    | Auipc(rd: Reg, imm: int)
    | Addi(rd: Reg, rs1: Reg, imm: int)
    | Lbu(rd: Reg, rs1: Reg, imm: int)
    | Beq(rs1: Reg, rs2: Reg, off: int)
    | Bne(rs1: Reg, rs2: Reg, off: int)
    | Blt(rs1: Reg, rs2: Reg, off: int)
    | Jal(rd: Reg, off: int)
    | Ecall
    | Illegal

  function Opcode(w: u32): int { w % 0x80 }
  function RdOf(w: u32): Reg { w / 0x80 % 32 }
  function Funct3(w: u32): int { w / 0x1000 % 8 }
  function Rs1Of(w: u32): Reg { w / 0x8000 % 32 }
  function Rs2Of(w: u32): Reg { w / 0x10_0000 % 32 }
  function ImmI(w: u32): int { w / 0x10_0000 }
  function ImmU(w: u32): int { w / 0x1000 * 0x1000 }

  function ImmB(w: u32): int {
    w / 0x8000_0000 * 0x1000 + w / 0x80 % 2 * 0x800 + w / 0x200_0000 % 64 * 32 + w / 0x100 % 16 * 2
  }

  function ImmJ(w: u32): int {
    w / 0x8000_0000 * 0x10_0000 + w / 0x1000 % 256 * 0x1000 + w / 0x10_0000 % 2 * 0x800 + w / 0x20_0000 % 1024 * 2
  }

  function Decode(w: u32): Instr {
    var op := Opcode(w);
    if op == 0x37 then Lui(RdOf(w), Signed(ImmU(w), TWO32))
    else if op == 0x17 then Auipc(RdOf(w), Signed(ImmU(w), TWO32))
    else if op == 0x6f then Jal(RdOf(w), Signed(ImmJ(w), 0x20_0000))
    else if op == 0x13 && Funct3(w) == 0 then Addi(RdOf(w), Rs1Of(w), Signed(ImmI(w), 0x1000))
    else if op == 0x03 && Funct3(w) == 4 then Lbu(RdOf(w), Rs1Of(w), Signed(ImmI(w), 0x1000))
    else if op == 0x63 && Funct3(w) == 0 then Beq(Rs1Of(w), Rs2Of(w), Signed(ImmB(w), 0x2000))
    else if op == 0x63 && Funct3(w) == 1 then Bne(Rs1Of(w), Rs2Of(w), Signed(ImmB(w), 0x2000))
    else if op == 0x63 && Funct3(w) == 4 then Blt(Rs1Of(w), Rs2Of(w), Signed(ImmB(w), 0x2000))
    else if w == 0x0000_0073 then Ecall
    else Illegal
  }

  // ---------- Memory ----------

  /** Mapped bytes; touching any other address faults. */
  type Memory = map<int, byte>

  ghost predicate HoldsAt(mem: Memory, a: int, bytes: seq<byte>) {
    forall x :: a <= x < a + |bytes| ==> x in mem && mem[x] == bytes[x - a]
  }

  lemma HoldsSplit(mem: Memory, a: int, front: seq<byte>, back: seq<byte>)
    requires HoldsAt(mem, a, front + back)
    ensures HoldsAt(mem, a, front) && HoldsAt(mem, a + |front|, back)
  {
    forall x | a + |front| <= x < a + |front| + |back|
      ensures x in mem && mem[x] == back[x - (a + |front|)]
    {
      assert (front + back)[x - a] == back[x - (a + |front|)];
    }
  }

  // ---------- Words in memory ----------

  function LeWords(ws: seq<u32>): (r: seq<byte>)
    ensures |r| == 4 * |ws|
  {
    if ws == [] then [] else Le(ws[0], 4) + LeWords(ws[1..])
  }

  lemma {:induction false} LeWordsAppend(ws: seq<u32>, w: u32)
    ensures LeWords(ws + [w]) == LeWords(ws) + Le(w, 4)
  {
    if ws == [] {
      assert ws + [w] == [w];
    } else {
      assert (ws + [w])[1..] == ws[1..] + [w];
      LeWordsAppend(ws[1..], w);
    }
  }

  datatype Fetched = Word(word: u32) | Unmapped

  function Fetch(mem: Memory, a: int): Fetched {
    if a in mem && a + 1 in mem && a + 2 in mem && a + 3 in mem
    then
      Word((mem[a] as int) + (mem[a + 1] as int) * 0x100 + (mem[a + 2] as int) * 0x1_0000 + (mem[a + 3] as int) * 0x100_0000)
    else Unmapped
  }

  ghost predicate DecodesTo(ws: seq<u32>, code: seq<Instr>) {
    |ws| == |code| && forall k :: 0 <= k < |ws| ==> Decode(ws[k]) == code[k]
  }

  ghost predicate InstrAt(mem: Memory, a: int, i: Instr) {
    Fetch(mem, a).Word? && Decode(Fetch(mem, a).word) == i
  }

  /** Instructions `code` sit in memory one word after the other from `a`. */
  ghost predicate CodeAt(mem: Memory, a: int, code: seq<Instr>) {
    forall k :: 0 <= k < |code| ==> InstrAt(mem, a + 4 * k, code[k])
  }

  lemma FetchWord(mem: Memory, a: int, w: u32)
    requires HoldsAt(mem, a, Le(w, 4))
    ensures Fetch(mem, a) == Word(w)
  {
    var b := Le(w, 4);
    Powers();
    LeReads(w, 4);
    FourBytes(b);
    hide Le, FromLe;
    assert a in mem && mem[a] == b[0];
    assert a + 1 in mem && mem[a + 1] == b[1];
    assert a + 2 in mem && mem[a + 2] == b[2];
    assert a + 3 in mem && mem[a + 3] == b[3];
  }

  lemma {:induction false} WordAt(mem: Memory, a: int, ws: seq<u32>, k: nat)
    requires HoldsAt(mem, a, LeWords(ws)) && k < |ws|
    ensures Fetch(mem, a + 4 * k) == Word(ws[k])
    decreases k
  {
    HoldsSplit(mem, a, Le(ws[0], 4), LeWords(ws[1..]));
    if k == 0 {
      FetchWord(mem, a, ws[0]);
    } else {
      WordAt(mem, a + 4, ws[1..], k - 1);
    }
  }

  /** Little-endian words in memory are fetched and decoded word by word. */
  lemma WordsAreCode(mem: Memory, a: int, ws: seq<u32>, code: seq<Instr>)
    requires HoldsAt(mem, a, LeWords(ws)) && DecodesTo(ws, code)
    ensures CodeAt(mem, a, code)
  {
    forall k | 0 <= k < |code|
      ensures InstrAt(mem, a + 4 * k, code[k])
    {
      WordAt(mem, a, ws, k);
    }
  }

  // ---------- Execution ----------

  /** Registers by number; a missing entry reads as zero and x0 is never written. */
  type Regs = map<Reg, u64>

  function Read(regs: Regs, r: Reg): u64 {
    if r == 0 || r !in regs then 0 else regs[r]
  }

  function Write(regs: Regs, r: Reg, v: int): Regs {
    if r == 0 then regs else regs[r := Wrap(v)]
  }

  /** System calls by number (register a7), with the arguments each one takes. */
  datatype Event =
    | PutC(byte: u64)
    | Map(slot: u64, va: u64, offset: u64, flags: u64, result: int)
    | Yield
    | Send(slot: u64, header: u64, buffer: u64, size: u64, flags: u64, deadline: u64, result: int)
    | Receive(slot: u64, header: u64, buffer: u64, size: u64, flags: u64, deadline: u64, result: int)
    | Exit(status: int)
    | Other(number: u64)

  datatype Status = Running | Exited(code: int) | Faulted

  datatype State = State(pc: int, regs: Regs, mem: Memory, trace: seq<Event>, status: Status)

  /** What the kernel leaves behind when it returns from a system call. Because the state
      carries the whole trace, a function of it can still answer each call differently. */
  datatype Return = Return(regs: Regs, mem: Memory)
  type Kernel = State -> Return

  predicate CalleeSaved(r: Reg) {
    r == 2 || r == 8 || r == 9 || 18 <= r <= 27
  }

  /** The kernel keeps callee-saved registers and leaves the program image mapped and
      unchanged; all other registers and all other memory are up to it. */
  ghost predicate KeepsImage(kernel: Kernel, base: int, image: seq<byte>) {
    && (forall s: State, r: Reg :: CalleeSaved(r) ==> Read(kernel(s).regs, r) == Read(s.regs, r))
    && (forall s: State :: HoldsAt(s.mem, base, image) ==> HoldsAt(kernel(s).mem, base, image))
  }

  function CallOf(regs: Regs, ret: u64): Event {
    var n := Read(regs, 17);
    if n == 16 then PutC(Read(regs, 10))
    else if n == 4 then Map(Read(regs, 10), Read(regs, 11), Read(regs, 12), Read(regs, 13), SignedOf(ret))
    else if n == 0 then Yield
    else if n == 11 then Exit(SignedOf(Read(regs, 10)))
    else if n == 14 then
      Send(Read(regs, 10), Read(regs, 11), Read(regs, 12), Read(regs, 13), Read(regs, 14), Read(regs, 15), SignedOf(ret))
    else if n == 18 then
      Receive(Read(regs, 10), Read(regs, 11), Read(regs, 12), Read(regs, 13), Read(regs, 14), Read(regs, 15), SignedOf(ret))
    else Other(n)
  }

  function Trap(kernel: Kernel, s: State): State {
    if Read(s.regs, 17) == 11 then
      s.(trace := s.trace + [CallOf(s.regs, 0)], status := Exited(SignedOf(Read(s.regs, 10))))
    else
      var ret := kernel(s);
      State(Wrap(s.pc + 4), ret.regs, ret.mem, s.trace + [CallOf(s.regs, Read(ret.regs, 10))], Running)
  }

  function Branch(s: State, taken: bool, off: int): State {
    s.(pc := Wrap(s.pc + if taken then off else 4))
  }

  function Execute(kernel: Kernel, s: State, i: Instr): State {
    var next := s.(pc := Wrap(s.pc + 4));
    match i
    case Lui(rd, imm) => next.(regs := Write(s.regs, rd, imm))
    case Auipc(rd, imm) => next.(regs := Write(s.regs, rd, s.pc + imm))
    case Addi(rd, rs1, imm) => next.(regs := Write(s.regs, rd, Read(s.regs, rs1) + imm))
    case Lbu(rd, rs1, imm) =>
      var a := Wrap(Read(s.regs, rs1) + imm);
      if a in s.mem then next.(regs := Write(s.regs, rd, s.mem[a])) else s.(status := Faulted)
    case Beq(rs1, rs2, off) => Branch(s, Read(s.regs, rs1) == Read(s.regs, rs2), off)
    case Bne(rs1, rs2, off) => Branch(s, Read(s.regs, rs1) != Read(s.regs, rs2), off)
    case Blt(rs1, rs2, off) => Branch(s, SignedOf(Read(s.regs, rs1)) < SignedOf(Read(s.regs, rs2)), off)
    case Jal(rd, off) => s.(pc := Wrap(s.pc + off), regs := Write(s.regs, rd, s.pc + 4))
    case Ecall => Trap(kernel, s)
    case Illegal => s.(status := Faulted)
  }

  function Step(kernel: Kernel, s: State): State {
    if s.status != Running then s
    else if Fetch(s.mem, s.pc).Unmapped? then s.(status := Faulted)
    else Execute(kernel, s, Decode(Fetch(s.mem, s.pc).word))
  }

  // ---------- One step, by kind of instruction ----------

  /** The machine is about to execute `i` at an address with room for the next word. */
  ghost predicate About(s: State, i: Instr) {
    s.status == Running && 0 <= s.pc < TWO64 - 4 && InstrAt(s.mem, s.pc, i)
  }

  lemma StepAddi(kernel: Kernel, s: State, rd: Reg, rs1: Reg, imm: int)
    requires About(s, Addi(rd, rs1, imm)) && rd != 0
    ensures Step(kernel, s) == s.(pc := s.pc + 4, regs := s.regs[rd := Wrap(Read(s.regs, rs1) + imm)])
  {
    hide Decode, Fetch;
  }

  lemma StepUpper(kernel: Kernel, s: State, rd: Reg, imm: int)
    requires About(s, Auipc(rd, imm)) || About(s, Lui(rd, imm))
    requires rd != 0
    ensures About(s, Auipc(rd, imm)) ==> Step(kernel, s) == s.(pc := s.pc + 4, regs := s.regs[rd := Wrap(s.pc + imm)])
    ensures About(s, Lui(rd, imm)) ==> Step(kernel, s) == s.(pc := s.pc + 4, regs := s.regs[rd := Wrap(imm)])
  {
    hide Decode, Fetch;
  }

  lemma StepLbu(kernel: Kernel, s: State, rd: Reg, rs1: Reg, imm: int)
    requires About(s, Lbu(rd, rs1, imm)) && rd != 0
    ensures var a := Wrap(Read(s.regs, rs1) + imm);
      Step(kernel, s) == if a in s.mem then s.(pc := s.pc + 4, regs := s.regs[rd := s.mem[a]]) else s.(status := Faulted)
  {
    hide Decode, Fetch;
  }

  lemma StepBranch(kernel: Kernel, s: State, i: Instr, taken: bool)
    requires About(s, i) && (i.Beq? || i.Bne? || i.Blt?)
    requires 0 <= s.pc + i.off < TWO64
    requires var x, y := Read(s.regs, i.rs1), Read(s.regs, i.rs2);
      taken == if i.Beq? then x == y else if i.Bne? then x != y else SignedOf(x) < SignedOf(y)
    ensures Step(kernel, s) == s.(pc := s.pc + if taken then i.off else 4)
  {
    hide Decode, Fetch, SignedOf;
  }

  lemma StepJump(kernel: Kernel, s: State, off: int)
    requires About(s, Jal(0, off)) && 0 <= s.pc + off < TWO64
    ensures Step(kernel, s) == s.(pc := s.pc + off)
  {
    hide Decode, Fetch;
  }

  lemma StepCall(kernel: Kernel, s: State)
    requires About(s, Ecall) && Read(s.regs, 17) != 11
    ensures var ret := kernel(s);
      Step(kernel, s) == State(s.pc + 4, ret.regs, ret.mem, s.trace + [CallOf(s.regs, Read(ret.regs, 10))], Running)
  {
    hide Decode, Fetch, CallOf;
  }

  lemma StepExit(kernel: Kernel, s: State)
    requires About(s, Ecall) && Read(s.regs, 17) == 11
    ensures var status := SignedOf(Read(s.regs, 10));
      Step(kernel, s) == s.(trace := s.trace + [Exit(status)], status := Exited(status))
  {
    hide Decode, Fetch, SignedOf;
  }

  // ---------- Runs ----------

  function Run(kernel: Kernel, s: State, n: nat): State
    decreases n
  {
    if n == 0 then s else Run(kernel, Step(kernel, s), n - 1)
  }

  lemma {:induction false} RunAdd(kernel: Kernel, s: State, m: nat, n: nat)
    ensures Run(kernel, s, m + n) == Run(kernel, Run(kernel, s, m), n)
    decreases m
  {
    if m > 0 {
      RunAdd(kernel, Step(kernel, s), m - 1, n);
    }
  }

  /** One step only appends to the trace, and changes memory only through the kernel. */
  lemma StepFrame(kernel: Kernel, s: State)
    ensures s.trace <= Step(kernel, s).trace
    ensures Step(kernel, s).mem == s.mem || Step(kernel, s).mem == kernel(s).mem
  {
    hide Decode, Fetch, CallOf, Read, Write, Wrap;
  }

  lemma {:induction false} TraceGrows(kernel: Kernel, s: State, n: nat)
    ensures s.trace <= Run(kernel, s, n).trace
    decreases n
  {
    hide Step;
    if n > 0 {
      StepFrame(kernel, s);
      TraceGrows(kernel, Step(kernel, s), n - 1);
    }
  }

  /** Once a program has exited or faulted, more steps change nothing. */
  lemma {:induction false} HaltedStays(kernel: Kernel, s: State, n: nat)
    requires s.status != Running
    ensures Run(kernel, s, n) == s
    decreases n
  {
    if n > 0 {
      HaltedStays(kernel, Step(kernel, s), n - 1);
    }
  }
}
