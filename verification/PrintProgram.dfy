/** The payload built by `build_text`: print a NUL-terminated message byte by byte through the
    debug_putc system call, then exit. The program is built from encoded words, loaded into
    memory and executed; the theorem says what any run of it does. */
module PrintProgram {
  import opened Assembler
  import opened Bytes
  import opened Programs
  import opened RiscV
  import opened Words

  const MSG_OFFSET: i32 := 0x30
  const LABEL_LOOP: i32 := 0x08
  const LABEL_DONE: i32 := 0x20
  const SYSCALL_DEBUG_PUTC: i32 := 16
  const SYSCALL_EXIT: i32 := 11

  /** What an exit code becomes once cut to a 12-bit signed immediate. */
  function Cut(code: i32): int {
    Signed(code % 0x1000, 0x1000)
  }

  lemma CutKeeps(code: i32)
    ensures Cut(code) == code <==> -2048 <= code <= 2047
    ensures -2048 <= Cut(code) <= 2047
  {
    SurvivesI(code);
  }

  lemma CutEncodes(rd: Reg, rs1: Reg, code: i32)
    ensures EncodeAddi(rd, rs1, code) == EncodeAddi(rd, rs1, Cut(code))
  {
    assert code % TWO32 % 0x1000 == code % 0x1000;
    assert Cut(code) % TWO32 % 0x1000 == Cut(code) % 0x1000 == code % 0x1000;
  }

  function PrintInstr(status: int, k: nat): Instr {
    if k == 0 then Auipc(8, 0)
    else if k == 1 then Addi(8, 8, 48)
    else if k == 2 then Lbu(10, 8, 0)
    else if k == 3 then Beq(10, 0, 20)
    else if k == 4 then Addi(17, 0, 16)
    else if k == 5 then Ecall
    else if k == 6 then Addi(8, 8, 1)
    else if k == 7 then Jal(0, -20)
    else if k == 8 then Addi(10, 0, status)
    else if k == 9 then Addi(17, 0, 11)
    else if k == 10 then Ecall
    else Jal(0, 0)
  }

  function PrintCode(exitCode: i32): (code: seq<Instr>)
    ensures |code| == 12 && forall k :: 0 <= k < 12 ==> code[k] == PrintInstr(Cut(exitCode), k)
  {
    seq(12, k requires 0 <= k => PrintInstr(Cut(exitCode), k))
  }

  lemma PrintAssembles(exitCode: i32)
    ensures Assembles(PrintCode(exitCode))
  {
    hide Cut, PrintCode;
    CutKeeps(exitCode);
  }

  // ---------- Running it ----------

  /** The machine is about to enter the freshly loaded payload. */
  ghost predicate Entered(p: Program, s: State) {
    Installed(p) && At(p, s, 0)
  }

  lemma Enters(p: Program, s: State, exitCode: i32) returns (t: State)
    requires p.code == PrintCode(exitCode) && Entered(p, s)
    ensures Printing(p, s, t, 2, 8, 0) && t.trace == s.trace && t.mem == s.mem
  {
    hide Installed, At, Goes, PrintCode, Cut;
    Stays(p.kernel, s);
    DataByte(p, s, 0, 0);
    BaseFits(p, s);
    t := DoUpper(p, s, s, 0, p.base);
    t := DoAddi(p, s, t, 1, p.base + 48);
  }

  /** Main result. Whatever the kernel does to caller-saved registers and other memory, and
      wherever the payload is loaded, a message with a terminator is printed up to it, byte by
      byte and in order, and then the process exits for good with the 12-bit cut of its exit
      code: the code itself exactly for -2048..2047 (see `CutKeeps`). */
  lemma PrintsThenExits(p: Program, s: State, exitCode: i32) returns (n: nat)
    requires p.code == PrintCode(exitCode) && Entered(p, s) && 0 in p.data
    ensures forall m: nat :: m >= n ==> Run(p.kernel, s, m).status == Exited(Cut(exitCode))
    ensures forall m: nat :: m >= n ==>
      Run(p.kernel, s, m).trace == s.trace + Puts(BeforeNul(p.data)) + [Exit(Cut(exitCode))]
  {
    hide PrintCode, Cut, Run, On, Entered, Printing, Goes;
    var t := Enters(p, s, exitCode);
    assert p.data[0..] == p.data;
    t := LoopPrints(p, s, t, 2, 8, 0);
    CutKeeps(exitCode);
    t := Leaves(p, s, t, 8, Cut(exitCode));
    n := EndsFor(p.kernel, s, t);
  }

  /** Without a terminator the loop runs off the end: it prints the whole message and faults
      on the first unmapped byte, so the exit is never reached. */
  lemma UnterminatedFaults(p: Program, s: State, exitCode: i32) returns (n: nat)
    requires p.code == PrintCode(exitCode) && Entered(p, s) && 0 !in p.data
    requires DataAt(p) + |p.data| !in s.mem && LeavesUnmapped(p.kernel, DataAt(p) + |p.data|)
    ensures forall m: nat :: m >= n ==> Run(p.kernel, s, m).status == Faulted
    ensures forall m: nat :: m >= n ==> Run(p.kernel, s, m).trace == s.trace + Puts(p.data)
  {
    hide PrintCode, Cut, Run, On, Entered, Printing, Goes;
    var t := Enters(p, s, exitCode);
    assert p.data[0..] == p.data;
    t := LoopFaults(p, s, t, 2, 8, 0);
    n := EndsFor(p.kernel, s, t);
  }

  // ---------- Building it ----------

  method Push(out: seq<byte>, instr: u32, ghost ws: seq<u32>) returns (out': seq<byte>, ghost ws': seq<u32>)
    requires out == LeWords(ws)
    ensures out' == out + Le(instr, 4)
    ensures ws' == ws + [instr] && out' == LeWords(ws')
  {
    out' := out + Le(instr, 4);
    ws' := ws + [instr];
    LeWordsAppend(ws, instr);
  }

  /** The words pushed so far are those of the first instructions. */
  ghost predicate Pushed(ws: seq<u32>, code: seq<Instr>, n: nat) {
    |ws| == n && Drafted(ws, code, {})
  }

  method PushNext(out: seq<byte>, instr: u32, pc: i32, ghost ws: seq<u32>, ghost code: seq<Instr>, ghost n: nat)
    returns (out': seq<byte>, pc': i32, ghost ws': seq<u32>)
    requires out == LeWords(ws) && Pushed(ws, code, n) && n < |code| && pc == 4 * n < 4 * |code| < 0x1000
    requires instr == Encode(code[n])
    ensures out' == LeWords(ws') && Pushed(ws', code, n + 1) && pc' == pc + 4
  {
    hide Encode, Encodable, LeWords;
    out', ws' := Push(out, instr, ws);
    pc' := pc + 4;
  }

  method PushLoop(exitCode: i32) returns (text: seq<byte>, pc: i32, ghost ws: seq<u32>)
    ensures text == LeWords(ws) && Pushed(ws, PrintCode(exitCode), 8) && pc == 32
  {
    hide EncodeAddi, EncodeLbu, EncodeBeq, EncodeJal, EncodeAuipc, LeWords, PrintCode, Cut, Drafted;
    PrintAssembles(exitCode);
    ghost var code := PrintCode(exitCode);
    NothingDrafted(code, {});
    text, pc, ws := [], 0, [];
    text, pc, ws := PushNext(text, EncodeAuipc(8, 0), pc, ws, code, 0);
    text, pc, ws := PushNext(text, EncodeAddi(8, 8, MSG_OFFSET), pc, ws, code, 1);
    text, pc, ws := PushNext(text, EncodeLbu(10, 8, 0), pc, ws, code, 2);
    text, pc, ws := PushNext(text, EncodeBeq(10, 0, LABEL_DONE - pc), pc, ws, code, 3);
    text, pc, ws := PushNext(text, EncodeAddi(17, 0, SYSCALL_DEBUG_PUTC), pc, ws, code, 4);
    text, pc, ws := PushNext(text, ECALL, pc, ws, code, 5);
    text, pc, ws := PushNext(text, EncodeAddi(8, 8, 1), pc, ws, code, 6);
    text, pc, ws := PushNext(text, EncodeJal(0, LABEL_LOOP - pc), pc, ws, code, 7);
  }

  method BuildText(exitCode: i32, msg: seq<byte>) returns (text: seq<byte>)
    ensures Assembles(PrintCode(exitCode)) && text == Image(PrintCode(exitCode), msg)
  {
    hide EncodeAddi, EncodeJal, LeWords, PrintCode, Cut, Drafted;
    PrintAssembles(exitCode);
    CutEncodes(10, 0, exitCode);
    SelfJump();
    ghost var code, ws := PrintCode(exitCode), [];
    var pc;
    text, pc, ws := PushLoop(exitCode);
    text, pc, ws := PushNext(text, EncodeAddi(10, 0, exitCode), pc, ws, code, 8);
    text, pc, ws := PushNext(text, EncodeAddi(17, 0, SYSCALL_EXIT), pc, ws, code, 9);
    text, pc, ws := PushNext(text, ECALL, pc, ws, code, 10);
    text, pc, ws := PushNext(text, JAL_SELF, pc, ws, code, 11);
    assert pc == MSG_OFFSET;
    Finished(ws, code);
    text := text + msg;
  }
}
