/** A program loaded into memory with its data behind it, and what each of its instructions does
    on the way from a start state. */
module Programs {
  import opened Assembler
  import opened Bytes
  import opened RiscV
  import opened Words

  /** `code` assembled at `base`, followed by `data`, running on top of `kernel`. */
  datatype Program = Program(kernel: Kernel, base: int, code: seq<Instr>, data: seq<byte>)

  function Image(code: seq<Instr>, data: seq<byte>): seq<byte>
    requires Assembles(code)
  {
    LeWords(Assembled(code)) + data
  }

  /** It fits the address space, and the kernel leaves it alone. */
  ghost predicate Installed(p: Program) {
    && Assembles(p.code) && 0 <= p.base && p.base + 4 * |p.code| + |p.data| < TWO64
    && KeepsImage(p.kernel, p.base, Image(p.code, p.data))
  }

  function DataAt(p: Program): int {
    p.base + 4 * |p.code|
  }

  /** The program is in memory and slot `k` is next. */
  ghost predicate At(p: Program, s: State, k: int)
    requires Assembles(p.code)
  {
    HoldsAt(s.mem, p.base, Image(p.code, p.data)) && s.status == Running && s.pc == p.base + 4 * k
  }

  lemma DataByte(p: Program, s: State, k: int, j: nat)
    requires Installed(p) && At(p, s, k) && j <= |p.data|
    ensures 0 <= DataAt(p) + j < TWO64
    ensures j < |p.data| ==>
      DataAt(p) + j + 1 < TWO64 && DataAt(p) + j in s.mem && s.mem[DataAt(p) + j] == p.data[j]
  {
    hide LeWords, Assembles, KeepsImage;
    HoldsSplit(s.mem, p.base, LeWords(Assembled(p.code)), p.data);
  }

  lemma BaseFits(p: Program, s: State)
    requires Installed(p) && At(p, s, 0)
    ensures 0 <= p.base == s.pc < TWO64
  {
  }

  lemma Fetched(p: Program, s: State, k: nat)
    requires Installed(p) && At(p, s, k) && k < |p.code|
    ensures About(s, p.code[k])
  {
    hide LeWords, Assembles, InstrAt, KeepsImage, HoldsAt;
    HoldsSplit(s.mem, p.base, LeWords(Assembled(p.code)), p.data);
    AssembledDecodes(p.code);
    WordsAreCode(s.mem, p.base, Assembled(p.code), p.code);
  }

  // ---------- Getting somewhere ----------

  ghost predicate Goes(kernel: Kernel, s: State, t: State) {
    exists n: nat :: Run(kernel, s, n) == t
  }

  lemma Stays(kernel: Kernel, s: State)
    ensures Goes(kernel, s, s)
  {
    assert Run(kernel, s, 0) == s;
  }

  lemma Steps(kernel: Kernel, start: State, s: State)
    requires Goes(kernel, start, s)
    ensures Goes(kernel, start, Step(kernel, s))
  {
    hide Step;
    var n: nat :| Run(kernel, start, n) == s;
    RunAdd(kernel, start, n, 1);
    assert Run(kernel, s, 1) == Run(kernel, Step(kernel, s), 0);
    assert Run(kernel, start, n + 1) == Step(kernel, s);
  }

  /** A program that has ended stays as it ended. */
  lemma EndsFor(kernel: Kernel, start: State, t: State) returns (n: nat)
    requires Goes(kernel, start, t) && t.status != Running
    ensures forall m: nat :: m >= n ==> Run(kernel, start, m) == t
  {
    hide Run;
    n :| Run(kernel, start, n) == t;
    forall m: nat | m >= n
      ensures Run(kernel, start, m) == t
    {
      RunAdd(kernel, start, n, m - n);
      HaltedStays(kernel, t, m - n);
    }
  }

  /** The program is intact in memory after any number of steps. */
  lemma {:induction false} ImageStays(p: Program, s: State, n: nat)
    requires Installed(p) && HoldsAt(s.mem, p.base, Image(p.code, p.data))
    ensures HoldsAt(Run(p.kernel, s, n).mem, p.base, Image(p.code, p.data))
    decreases n
  {
    if n > 0 {
      hide HoldsAt, Image, Assembles, Step, CalleeSaved;
      StepFrame(p.kernel, s);
      assert HoldsAt(p.kernel(s).mem, p.base, Image(p.code, p.data));
      ImageStays(p, Step(p.kernel, s), n - 1);
    }
  }

  // ---------- One instruction ----------

  /** From `start` the program has got to slot `k`. */
  ghost predicate On(p: Program, start: State, s: State, k: nat) {
    Installed(p) && At(p, s, k) && k < |p.code| && Goes(p.kernel, start, s)
  }

  lemma DoAddi(p: Program, start: State, s: State, k: nat, v: u64) returns (t: State)
    requires On(p, start, s, k) && p.code[k].Addi? && p.code[k].rd != 0
    requires var x := Read(s.regs, p.code[k].rs1) + p.code[k].imm; v == x || v == x + TWO64
    ensures t == s.(pc := p.base + 4 * (k + 1), regs := s.regs[p.code[k].rd := v])
    ensures At(p, t, k + 1) && Goes(p.kernel, start, t)
  {
    hide Image, HoldsAt, KeepsImage, About, Step;
    var i := p.code[k];
    Fetched(p, s, k);
    StepAddi(p.kernel, s, i.rd, i.rs1, i.imm);
    WrapsTo(Read(s.regs, i.rs1) + i.imm, v);
    Steps(p.kernel, start, s);
    t := Step(p.kernel, s);
  }

  lemma WrapsTo(x: int, v: u64)
    requires v == x || v == x + TWO64
    ensures Wrap(x) == v
  {
  }

  lemma DoUpper(p: Program, start: State, s: State, k: nat, v: u64) returns (t: State)
    requires On(p, start, s, k) && (p.code[k].Lui? || p.code[k].Auipc?) && p.code[k].rd != 0
    requires v == p.code[k].imm + if p.code[k].Auipc? then s.pc else 0
    ensures t == s.(pc := p.base + 4 * (k + 1), regs := s.regs[p.code[k].rd := v])
    ensures At(p, t, k + 1) && Goes(p.kernel, start, t)
  {
    hide Image, HoldsAt, KeepsImage, About, Step;
    var i := p.code[k];
    Fetched(p, s, k);
    StepUpper(p.kernel, s, i.rd, i.imm);
    WrapsTo(v, v);
    Steps(p.kernel, start, s);
    t := Step(p.kernel, s);
  }

  lemma DoLoad(p: Program, start: State, s: State, k: nat, a: u64) returns (t: State)
    requires On(p, start, s, k) && p.code[k].Lbu? && p.code[k].rd != 0
    requires a == Read(s.regs, p.code[k].rs1) + p.code[k].imm
    ensures a in s.mem ==>
      && t == s.(pc := p.base + 4 * (k + 1), regs := s.regs[p.code[k].rd := s.mem[a]]) && At(p, t, k + 1)
    ensures a !in s.mem ==> t == s.(status := Faulted)
    ensures Goes(p.kernel, start, t)
  {
    hide Image, HoldsAt, KeepsImage, About, Step;
    var i := p.code[k];
    Fetched(p, s, k);
    StepLbu(p.kernel, s, i.rd, i.rs1, i.imm);
    WrapsTo(a, a);
    Steps(p.kernel, start, s);
    t := Step(p.kernel, s);
  }

  /** Whether the branch at hand is taken. */
  predicate Takes(i: Instr, regs: Regs)
    requires i.Beq? || i.Bne? || i.Blt?
  {
    var x, y := Read(regs, i.rs1), Read(regs, i.rs2);
    if i.Beq? then x == y else if i.Bne? then x != y else SignedOf(x) < SignedOf(y)
  }

  lemma DoBranch(p: Program, start: State, s: State, k: nat, target: nat) returns (t: State)
    requires On(p, start, s, k) && (p.code[k].Beq? || p.code[k].Bne? || p.code[k].Blt?)
    requires target <= |p.code| && p.code[k].off == 4 * (target - k)
    ensures t == s.(pc := p.base + 4 * if Takes(p.code[k], s.regs) then target else k + 1)
    ensures At(p, t, if Takes(p.code[k], s.regs) then target else k + 1) && Goes(p.kernel, start, t)
  {
    hide Image, HoldsAt, KeepsImage, About, Step, SignedOf;
    Fetched(p, s, k);
    StepBranch(p.kernel, s, p.code[k], Takes(p.code[k], s.regs));
    Steps(p.kernel, start, s);
    t := Step(p.kernel, s);
  }

  lemma DoJump(p: Program, start: State, s: State, k: nat, target: nat) returns (t: State)
    requires On(p, start, s, k) && p.code[k] == Jal(0, 4 * (target - k)) && target <= |p.code|
    ensures t == s.(pc := p.base + 4 * target) && At(p, t, target) && Goes(p.kernel, start, t)
  {
    hide Image, HoldsAt, KeepsImage, About, Step;
    Fetched(p, s, k);
    StepJump(p.kernel, s, 4 * (target - k));
    Steps(p.kernel, start, s);
    t := Step(p.kernel, s);
  }

  /** Callee-saved registers survive, apart from those in `except`. */
  ghost predicate Keeps(s: State, t: State, except: set<Reg>) {
    forall r: Reg :: CalleeSaved(r) && r !in except ==> Read(t.regs, r) == Read(s.regs, r)
  }

  lemma Kept(s: State, t: State, except: set<Reg>, r: Reg)
    requires Keeps(s, t, except) && CalleeSaved(r) && r !in except
    ensures Read(t.regs, r) == Read(s.regs, r)
  {
  }

  lemma DoCall(p: Program, start: State, s: State, k: nat) returns (t: State)
    requires On(p, start, s, k) && p.code[k] == Ecall && Read(s.regs, 17) != 11
    ensures t.trace == s.trace + [CallOf(s.regs, Read(t.regs, 10))]
    ensures t.mem == p.kernel(s).mem && t.regs == p.kernel(s).regs
    ensures At(p, t, k + 1) && Goes(p.kernel, start, t) && Keeps(s, t, {})
  {
    hide Image, HoldsAt, About, Step, CallOf;
    Fetched(p, s, k);
    StepCall(p.kernel, s);
    Steps(p.kernel, start, s);
    t := Step(p.kernel, s);
  }

  lemma DoExit(p: Program, start: State, s: State, k: nat, code: int) returns (t: State)
    requires On(p, start, s, k) && p.code[k] == Ecall && Read(s.regs, 17) == 11 && SignedOf(Read(s.regs, 10)) == code
    ensures t == s.(trace := s.trace + [Exit(code)], status := Exited(code)) && Goes(p.kernel, start, t)
  {
    hide Image, HoldsAt, KeepsImage, About, Step, SignedOf;
    Fetched(p, s, k);
    StepExit(p.kernel, s);
    Steps(p.kernel, start, s);
    t := Step(p.kernel, s);
  }

  // ---------- Leaving ----------

  /** The code at slot `k` ends the program. */
  predicate ExitsAt(code: seq<Instr>, k: nat, status: int) {
    k + 3 <= |code| && code[k] == Addi(10, 0, status) && code[k + 1] == Addi(17, 0, 11) && code[k + 2] == Ecall
  }

  lemma Leaves(p: Program, start: State, s: State, k: nat, status: int) returns (t: State)
    requires On(p, start, s, k) && ExitsAt(p.code, k, status) && -2048 <= status <= 2047
    ensures t.status == Exited(status) && t.trace == s.trace + [Exit(status)] && t.mem == s.mem
    ensures Goes(p.kernel, start, t)
  {
    hide Installed, At, Goes;
    var v: u64 := if status < 0 then status + TWO64 else status;
    t := DoAddi(p, start, s, k, v);
    t := DoAddi(p, start, t, k + 1, 11);
    t := DoExit(p, start, t, k + 2, status);
  }

  // ---------- Printing ----------

  /** The print loop at slot `k`, with its pointer in register `r`. */
  predicate PrintsAt(code: seq<Instr>, k: nat, r: Reg) {
    && k + 6 < |code|
    && code[k] == Lbu(10, r, 0) && code[k + 1] == Beq(10, 0, 20) && code[k + 2] == Addi(17, 0, 16)
    && code[k + 3] == Ecall && code[k + 4] == Addi(r, r, 1) && code[k + 5] == Jal(0, -20)
  }

  /** At the top of the loop, with data byte `j` next. */
  ghost predicate Printing(p: Program, start: State, s: State, k: nat, r: Reg, j: nat) {
    && On(p, start, s, k) && PrintsAt(p.code, k, r) && CalleeSaved(r)
    && j <= |p.data| && Read(s.regs, r) == DataAt(p) + j
  }

  /** Load and test: on to the call, or past the loop at a NUL. */
  lemma TestOne(p: Program, start: State, s: State, k: nat, r: Reg, j: nat) returns (t: State)
    requires Printing(p, start, s, k, r, j) && j < |p.data|
    ensures t == s.(pc := p.base + 4 * (if p.data[j] == 0 then k + 6 else k + 2), regs := s.regs[10 := p.data[j]])
    ensures On(p, start, t, if p.data[j] == 0 then k + 6 else k + 2)
  {
    hide Installed, At, Goes;
    DataByte(p, s, k, j);
    t := DoLoad(p, start, s, k, DataAt(p) + j);
    t := DoBranch(p, start, t, k + 1, k + 6);
  }

  lemma PrintOne(p: Program, start: State, s: State, k: nat, r: Reg, j: nat) returns (t: State, asked: State)
    requires Printing(p, start, s, k, r, j) && j < |p.data| && p.data[j] != 0
    ensures Printing(p, start, t, k, r, j + 1) && t.trace == s.trace + [PutC(p.data[j])] && Keeps(s, t, {r})
    ensures t.mem == p.kernel(asked).mem && asked.mem == s.mem
  {
    hide Installed, At, Goes, DataAt;
    DataByte(p, s, k, j);
    asked := TestOne(p, start, s, k, r, j);
    asked := DoAddi(p, start, asked, k + 2, 16);
    t := DoCall(p, start, asked, k + 3);
    assert Read(t.regs, r) == DataAt(p) + j;
    t := DoAddi(p, start, t, k + 4, DataAt(p) + j + 1);
    t := DoJump(p, start, t, k + 5, k);
  }

  function BeforeNul(msg: seq<byte>): seq<byte> {
    if msg == [] || msg[0] == 0 then [] else [msg[0]] + BeforeNul(msg[1..])
  }

  function Puts(bytes: seq<byte>): seq<Event> {
    if bytes == [] then [] else [PutC(bytes[0])] + Puts(bytes[1..])
  }

  lemma {:induction false} PutsOnly(bytes: seq<byte>)
    ensures forall e :: e in Puts(bytes) ==> e.PutC?
    decreases |bytes|
  {
    if bytes != [] {
      PutsOnly(bytes[1..]);
    }
  }

  /** The loop prints the bytes before the first NUL, in order, and goes on behind it. */
  lemma {:induction false} LoopPrints(p: Program, start: State, s: State, k: nat, r: Reg, j: nat) returns (t: State)
    requires Printing(p, start, s, k, r, j) && 0 in p.data[j..]
    ensures On(p, start, t, k + 6) && t.trace == s.trace + Puts(BeforeNul(p.data[j..])) && Keeps(s, t, {r})
    decreases |p.data| - j
  {
    hide On, CallOf;
    if p.data[j] == 0 {
      t := TestOne(p, start, s, k, r, j);
      assert s.trace + [] == s.trace;
    } else {
      var m, _ := PrintOne(p, start, s, k, r, j);
      assert p.data[j..] == [p.data[j]] + p.data[j + 1..];
      t := LoopPrints(p, start, m, k, r, j + 1);
      PutsMore(s.trace, p.data[j], BeforeNul(p.data[j + 1..]));
    }
  }

  lemma PutsMore(trace: seq<Event>, b: byte, more: seq<byte>)
    ensures trace + Puts([b] + more) == trace + [PutC(b)] + Puts(more)
  {
    assert ([b] + more)[1..] == more;
  }

  lemma RunsOff(p: Program, start: State, s: State, k: nat, r: Reg) returns (t: State)
    requires Printing(p, start, s, k, r, |p.data|) && DataAt(p) + |p.data| !in s.mem
    ensures t == s.(status := Faulted) && Goes(p.kernel, start, t)
  {
    hide Installed, At, Goes;
    DataByte(p, s, k, |p.data|);
    t := DoLoad(p, start, s, k, DataAt(p) + |p.data|);
  }

  /** The kernel does not map the byte at `a`. */
  ghost predicate LeavesUnmapped(kernel: Kernel, a: int) {
    forall u: State :: a !in u.mem ==> a !in kernel(u).mem
  }

  lemma StaysUnmapped(kernel: Kernel, u: State, a: int)
    requires LeavesUnmapped(kernel, a) && a !in u.mem
    ensures a !in kernel(u).mem
  {
  }

  /** Without a NUL the loop prints everything and faults at the first byte behind the data, if
      that is and stays unmapped. */
  lemma {:induction false} LoopFaults(p: Program, start: State, s: State, k: nat, r: Reg, j: nat) returns (t: State)
    requires Printing(p, start, s, k, r, j) && 0 !in p.data[j..] && DataAt(p) + |p.data| !in s.mem
    requires LeavesUnmapped(p.kernel, DataAt(p) + |p.data|)
    ensures t.status == Faulted && t.trace == s.trace + Puts(p.data[j..]) && Goes(p.kernel, start, t)
    decreases |p.data| - j
  {
    hide On, Goes, DataAt, LeavesUnmapped, PrintsAt, CalleeSaved;
    if j == |p.data| {
      assert p.data[j..] == [] && s.trace + Puts([]) == s.trace;
      t := RunsOff(p, start, s, k, r);
    } else {
      assert p.data[j..] == [p.data[j]] + p.data[j + 1..];
      var m, asked := PrintOne(p, start, s, k, r, j);
      hide Keeps;
      StaysUnmapped(p.kernel, asked, DataAt(p) + |p.data|);
      t := LoopFaults(p, start, m, k, r, j + 1);
      PutsMore(s.trace, p.data[j], p.data[j + 1..]);
    }
  }
}
