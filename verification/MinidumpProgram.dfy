/** The payload built by `build_minidump_text`: print a message, yield 64 times so that the launcher
    can hand over its file-service slots, send a PUT request with a crash dump, receive the answer
    into a stack buffer, and exit with 42 if it is the expected one. */
module MinidumpProgram {
  import opened Assembler
  import opened BuildId
  import opened Bytes
  import opened Minidump
  import opened Programs
  import opened Results
  import opened RiscV
  import opened Statefs
  import Utf8
  import opened Words

  const SYSCALL_YIELD: i32 := 0
  const SYSCALL_EXIT: i32 := 11
  const SYSCALL_IPC_SEND_V1: i32 := 14
  const SYSCALL_DEBUG_PUTC: i32 := 16
  const SYSCALL_IPC_RECV_V1: i32 := 18
  const STACK_SCRATCH_SIZE: i32 := 64
  const HDR_RSP_OFF: i32 := 0
  const STATEFS_RSP_OFF: i32 := 16
  const RSP_MAX: i32 := 32
  const STATEFS_SEND_SLOT: i32 := 7
  const STATEFS_RECV_SLOT: i32 := 8

  // ---------- The data ----------

  /** "child: minidump start" and a line feed */
  const MSG: seq<byte> :=
    [99, 104, 105, 108, 100, 58, 32, 109, 105, 110, 105, 100, 117, 109, 112, 32, 115, 116, 97, 114, 116, 10]

  /** "demo.minidump" */
  const DUMP_NAME: seq<byte> := [100, 101, 109, 111, 46, 109, 105, 110, 105, 100, 117, 109, 112]

  /** "/state/crash/child.demo.minidump.nmd" */
  const DUMP_PATH: seq<byte> :=
    [47, 115, 116, 97, 116, 101, 47, 99, 114, 97, 115, 104, 47, 99, 104, 105, 108, 100, 46, 100, 101, 109, 111, 46, 109,
     105, 110, 105, 100, 117, 109, 112, 46, 110, 109, 100]

  lemma NameIsLabel()
    ensures Label(DUMP_NAME, MAX_NAME_LEN)
  {
  }

  /** The dump of the demo crash. */
  ghost function Dump(): (bytes: seq<byte>)
    ensures |bytes| == 62
  {
    NameIsLabel();
    BuildIdIsLabel(DUMP_NAME);
    DemoSize(DUMP_NAME, BuildIdOf(DUMP_NAME));
    Encoded(DemoFrame(DUMP_NAME, BuildIdOf(DUMP_NAME)))
  }

  lemma DemoSize(name: seq<byte>, buildId: seq<byte>)
    requires Labels(name, buildId)
    ensures |Encoded(DemoFrame(name, buildId))| == 32 + |buildId| + |name|
  {
    hide HeadBytes;
    var f := DemoFrame(name, buildId);
    HeadPieces(HeadOf(f), [0, 0], BodyBytes(f));
  }

  ghost function Request(): (r: seq<byte>)
    ensures |r| == 108
  {
    PutRequest(DUMP_PATH, Dump())
  }

  function MessageHeader(len: nat): (r: seq<byte>)
    ensures |r| == 16
  {
    seq(12, _ => 0) + Le(len, 4)
  }

  ghost function Data(): (d: seq<byte>)
    ensures |d| == 148
  {
    MSG + [0] + ([0] + (MessageHeader(108) + Request()))
  }

  /** The file service takes the request for storing a value under the dump path, and the crash
      library decodes that value to the demo crash. */
  lemma RequestHoldsDump() returns (value: seq<byte>)
    ensures DecodeRequest(Request()).Ok?
    ensures DecodeRequest(Request()).value.0.Put? && DecodeRequest(Request()).value.0.key == DUMP_PATH
    ensures value == DecodeRequest(Request()).value.0.value && Decoded(value).Ok?
    ensures var f := Decoded(value).value;
      && f.pid == 0 && f.code == 42 && f.timestamp == 0 && f.name == DUMP_NAME && f.buildId == BuildIdOf(DUMP_NAME)
      && f.pcs == [] && f.stack == [] && f.preview == []
  {
    hide PutRequest, BuildIdOf, Decoded, Encoded, Label, DecodeRequest, Utf8.Valid;
    NameIsLabel();
    BuildIdIsLabel(DUMP_NAME);
    DecodesEncoded(DemoFrame(DUMP_NAME, BuildIdOf(DUMP_NAME)));
    Utf8.AsciiIsValid(DUMP_PATH);
    PutReadsExactly(Request(), DUMP_PATH, Dump());
    value := Dump();
  }

  /** The kernel's reading of a message header. */
  datatype MsgHeader = MsgHeader(src: nat, dst: nat, ty: nat, flags: nat, len: nat)

  function ReadHeader(b: seq<byte>): MsgHeader
    requires |b| == 16
  {
    MsgHeader(FromLe(b[0..4]), FromLe(b[4..8]), FromLe(b[8..10]), FromLe(b[10..12]), FromLe(b[12..16]))
  }

  lemma {:induction false} ZerosRead(n: nat)
    ensures FromLe(seq(n, _ => 0)) == 0
    decreases n
  {
    if n > 0 {
      ZerosRead(n - 1);
      assert seq(n, _ => 0)[1..] == seq(n - 1, _ => 0);
    }
  }

  /** The header says: no capability, no opcode, no flags, and that many bytes of payload. */
  lemma HeaderReads(len: u32)
    ensures ReadHeader(MessageHeader(len)) == MsgHeader(0, 0, 0, 0, len)
  {
    hide Le, FromLe;
    Powers();
    LeReads(len, 4);
    ZerosRead(4);
    ZerosRead(2);
    var h := MessageHeader(len);
    assert h[0..4] == seq(4, _ => 0) && h[4..8] == seq(4, _ => 0);
    assert h[8..10] == seq(2, _ => 0) && h[10..12] == seq(2, _ => 0) && h[12..16] == Le(len, 4);
  }

  // ---------- The program ----------

  // Labels, as slots of the finished program.
  const PRINT_LOOP := 3
  const DONE_PRINT := 9
  const YIELD_LOOP := 11
  const AFTER_YIELD := 16
  const SENT := 25
  const RECEIVED := 34
  const SUCCESS := 49
  const FAIL_SEND := 53
  const FAIL_RECV := 57

  function FirstInstr(k: nat): Instr {
    if k == 0 then Auipc(8, 0)
    else if k == 1 then Addi(8, 8, 4 * 61)
    else if k == 2 then Addi(20, 8, 0)
    else if k == PRINT_LOOP then Lbu(10, 20, 0)
    else if k == 4 then Beq(10, 0, 4 * (DONE_PRINT - 4))
    else if k == 5 then Addi(17, 0, 16)
    else if k == 6 then Ecall
    else if k == 7 then Addi(20, 20, 1)
    else if k == 8 then Jal(0, 4 * (PRINT_LOOP - 8))
    else if k == DONE_PRINT then Addi(2, 2, -64)
    else if k == 10 then Addi(19, 0, 64)
    else if k == YIELD_LOOP then Addi(17, 0, 0)
    else if k == 12 then Ecall
    else if k == 13 then Addi(19, 19, -1)
    else if k == 14 then Beq(19, 0, 4 * (AFTER_YIELD - 14))
    else Jal(0, 4 * (YIELD_LOOP - 15))
  }

  function SendInstr(k: nat): Instr {
    if k == AFTER_YIELD then Addi(10, 0, 7)
    else if k == 17 then Addi(11, 8, 24)
    else if k == 18 then Addi(12, 8, 40)
    else if k == 19 then Addi(13, 0, 108)
    else if k == 20 then Addi(14, 0, 0)
    else if k == 21 then Addi(15, 0, 0)
    else if k == 22 then Addi(17, 0, 14)
    else if k == 23 then Ecall
    else Blt(10, 0, 4 * (FAIL_SEND - 24))
  }

  function ReceiveInstr(k: nat): Instr {
    if k == SENT then Addi(10, 0, 8)
    else if k == 26 then Addi(11, 2, 0)
    else if k == 27 then Addi(12, 2, 16)
    else if k == 28 then Addi(13, 0, 32)
    else if k == 29 then Addi(14, 0, 0)
    else if k == 30 then Addi(15, 0, 0)
    else if k == 31 then Addi(17, 0, 18)
    else if k == 32 then Ecall
    else Blt(10, 0, 4 * (FAIL_RECV - 33))
  }

  /** The five bytes a good answer starts with: "SF", version 1, PUT answered, status 0. */
  const GOOD: seq<byte> := [0x53, 0x46, 1, 0x81, 0]

  /** The program waits for the answer that tells of a stored value, and no other status frame of
      the file service starts like it. */
  lemma GoodAnswerExactly(op: byte, status: byte)
    requires op < 0x80
    ensures StatusResponse(op, status) == GOOD <==> op == OP_PUT && status == STATUS_OK
  {
    assert StatusResponse(op, status)[3] == op + 0x80 && StatusResponse(op, status)[4] == status;
  }

  function CheckInstr(k: nat): Instr
    requires RECEIVED <= k < SUCCESS
  {
    var j := (k - RECEIVED) / 3;
    if k % 3 == 1 then Lbu(6, 2, 16 + j)
    else if k % 3 == 2 then Addi(7, 0, GOOD[j])
    else Bne(6, 7, 4 * (FAIL_RECV - k))
  }

  function ExitInstr(k: nat): Instr {
    if k == SUCCESS then Addi(10, 0, 42)
    else if k == FAIL_SEND then Addi(10, 0, 33)
    else if k == FAIL_RECV then Addi(10, 0, 34)
    else if k % 4 == 2 then Addi(17, 0, 11)
    else if k % 4 == 3 then Ecall
    else Jal(0, 0)
  }

  function DumpCode(): (code: seq<Instr>)
    ensures |code| == 61
    ensures forall k :: 0 <= k < AFTER_YIELD ==> code[k] == FirstInstr(k)
    ensures forall k :: AFTER_YIELD <= k < SENT ==> code[k] == SendInstr(k)
    ensures forall k :: SENT <= k < RECEIVED ==> code[k] == ReceiveInstr(k)
    ensures forall k :: RECEIVED <= k < SUCCESS ==> code[k] == CheckInstr(k)
    ensures forall k :: SUCCESS <= k < 61 ==> code[k] == ExitInstr(k)
  {
    seq(61, k requires 0 <= k =>
      if k < AFTER_YIELD then FirstInstr(k) else if k < SENT then SendInstr(k) else if k < RECEIVED then ReceiveInstr(k)
      else if k < SUCCESS then CheckInstr(k) else ExitInstr(k))
  }

  lemma DumpAssembles()
    ensures Assembles(DumpCode())
  {
    hide DumpCode;
    forall k | 0 <= k < 61
      ensures Encodable(DumpCode()[k])
    {
      if k < AFTER_YIELD {
        FirstAssembles(k);
      } else if k < SENT {
        SendAssembles(k);
      } else if k < RECEIVED {
        ReceiveAssembles(k);
      } else if k < SUCCESS {
        CheckAssembles(k);
      } else {
        ExitAssembles(k);
      }
    }
  }

  lemma FirstAssembles(k: nat)
    ensures Encodable(FirstInstr(k))
  {
  }

  lemma SendAssembles(k: nat)
    ensures Encodable(SendInstr(k))
  {
  }

  lemma ReceiveAssembles(k: nat)
    ensures Encodable(ReceiveInstr(k))
  {
  }

  lemma CheckAssembles(k: nat)
    requires RECEIVED <= k < SUCCESS
    ensures Encodable(CheckInstr(k))
  {
  }

  lemma ExitAssembles(k: nat)
    ensures Encodable(ExitInstr(k))
  {
  }

  // ---------- Running it ----------

  /** Slot `k` is next, s0 points at the data and the stack pointer is `sp`. */
  ghost predicate Reached(p: Program, start: State, s: State, k: nat, sp: u64) {
    && p.code == DumpCode() && p.data == Data() && On(p, start, s, k)
    && Read(s.regs, 8) == DataAt(p) && Read(s.regs, 2) == sp
  }

  lemma Enters(p: Program, s: State) returns (t: State)
    requires p.code == DumpCode() && p.data == Data() && Installed(p) && At(p, s, 0)
    ensures Printing(p, s, t, PRINT_LOOP, 20, 0) && Reached(p, s, t, PRINT_LOOP, Read(s.regs, 2)) && t.trace == s.trace
  {
    hide Installed, At, Goes, DumpCode, Data, SendInstr, ReceiveInstr, CheckInstr, ExitInstr;
    Stays(p.kernel, s);
    DataByte(p, s, 0, 0);
    BaseFits(p, s);
    t := DoUpper(p, s, s, 0, p.base);
    t := DoAddi(p, s, t, 1, DataAt(p));
    t := DoAddi(p, s, t, 2, DataAt(p));
  }

  lemma {:induction false} NulEnds(msg: seq<byte>, rest: seq<byte>)
    requires 0 !in msg
    ensures BeforeNul(msg + [0] + rest) == msg
    decreases |msg|
  {
    if msg != [] {
      NulEnds(msg[1..], rest);
      assert (msg + [0] + rest)[1..] == msg[1..] + [0] + rest;
    }
  }

  lemma MessageEnds()
    ensures 0 in Data() && BeforeNul(Data()) == MSG
  {
    hide BeforeNul, Request;
    NulEnds(MSG, [0] + (MessageHeader(108) + Request()));
    assert Data()[22] == 0;
  }

  /** The message, then room on the stack and the yield counter. */
  lemma Announces(p: Program, s: State) returns (t: State)
    requires p.code == DumpCode() && p.data == Data() && Installed(p) && At(p, s, 0) && Read(s.regs, 2) >= 64
    ensures Reached(p, s, t, YIELD_LOOP, Read(s.regs, 2) - 64) && Read(t.regs, 19) == 64
    ensures t.trace == s.trace + Puts(MSG)
  {
    hide Installed, At, Goes, DumpCode, Data, Puts, BeforeNul, SendInstr, ReceiveInstr, CheckInstr, ExitInstr;
    var a := Enters(p, s);
    MessageEnds();
    assert p.data[0..] == p.data;
    var b := LoopPrints(p, s, a, PRINT_LOOP, 20, 0);
    Kept(a, b, {20}, 8);
    Kept(a, b, {20}, 2);
    hide Keeps;
    t := DoAddi(p, s, b, 9, Read(s.regs, 2) - 64);
    t := DoAddi(p, s, t, 10, 64);
  }

  function Yields(n: nat): seq<Event> {
    if n == 0 then [] else [Yield] + Yields(n - 1)
  }

  lemma YieldsOnce(p: Program, start: State, s: State, sp: u64, left: nat) returns (t: State)
    requires Reached(p, start, s, YIELD_LOOP, sp) && Read(s.regs, 19) == left >= 1
    ensures Reached(p, start, t, if left == 1 then AFTER_YIELD else YIELD_LOOP, sp)
    ensures Read(t.regs, 19) == left - 1 && t.trace == s.trace + [Yield]
  {
    hide Installed, At, Goes, DumpCode, Data, Keeps, SendInstr, ReceiveInstr, CheckInstr, ExitInstr;
    var asked := DoAddi(p, start, s, 11, 0);
    t := DoCall(p, start, asked, 12);
    Kept(asked, t, {}, 8);
    Kept(asked, t, {}, 2);
    Kept(asked, t, {}, 19);
    t := DoAddi(p, start, t, 13, left - 1);
    t := DoBranch(p, start, t, 14, AFTER_YIELD);
    if left != 1 {
      t := DoJump(p, start, t, 15, YIELD_LOOP);
    }
  }

  lemma {:induction false} YieldLoop(p: Program, start: State, s: State, sp: u64, left: nat) returns (t: State)
    requires Reached(p, start, s, YIELD_LOOP, sp) && Read(s.regs, 19) == left >= 1
    ensures Reached(p, start, t, AFTER_YIELD, sp) && t.trace == s.trace + Yields(left)
    decreases left
  {
    hide Reached;
    var m := YieldsOnce(p, start, s, sp, left);
    if left == 1 {
      t := m;
      assert Yields(1) == [Yield] + Yields(0);
    } else {
      t := YieldLoop(p, start, m, sp, left - 1);
    }
  }

  function SendEvent(data: int, result: int): Event
    requires 0 <= data && data + 148 < TWO64
  {
    Send(7, data + 24, data + 40, 108, 0, 0, result)
  }

  lemma DataInRange(p: Program, s: State, k: int)
    requires Installed(p) && At(p, s, k) && p.data == Data()
    ensures 0 <= DataAt(p) && DataAt(p) + 148 < TWO64
  {
    hide Data;
    DataByte(p, s, k, 148);
  }

  lemma SendArguments(p: Program, start: State, s: State, sp: u64, data: u64) returns (t: State)
    requires Reached(p, start, s, AFTER_YIELD, sp) && data == DataAt(p) && data + 148 < TWO64
    ensures On(p, start, t, 23) && t.trace == s.trace
    ensures t.regs == s.regs[10 := 7][11 := data + 24][12 := data + 40][13 := 108][14 := 0][15 := 0][17 := 14]
  {
    hide Installed, At, Goes, DumpCode, Data, DataAt, FirstInstr, ReceiveInstr, CheckInstr, ExitInstr;
    t := DoAddi(p, start, s, 16, 7);
    t := DoAddi(p, start, t, 17, data + 24);
    t := DoAddi(p, start, t, 18, data + 40);
    t := DoAddi(p, start, t, 19, 108);
    t := DoAddi(p, start, t, 20, 0);
    t := DoAddi(p, start, t, 21, 0);
    t := DoAddi(p, start, t, 22, 14);
  }

  lemma SendCall(p: Program, start: State, s: State, sp: u64) returns (t: State)
    requires Reached(p, start, s, AFTER_YIELD, sp)
    ensures 0 <= DataAt(p) && DataAt(p) + 148 < TWO64 && Reached(p, start, t, 24, sp)
    ensures t.trace == s.trace + [SendEvent(DataAt(p), SignedOf(Read(t.regs, 10)))]
  {
    hide Installed, At, Goes, DumpCode, Data, DataAt, SignedOf, Keeps, FirstInstr, ReceiveInstr, CheckInstr, ExitInstr;
    DataInRange(p, s, AFTER_YIELD);
    var asked := SendArguments(p, start, s, sp, DataAt(p));
    t := DoCall(p, start, asked, 23);
    Kept(asked, t, {}, 8);
    Kept(asked, t, {}, 2);
  }

  lemma Sends(p: Program, start: State, s: State, sp: u64) returns (t: State, result: int)
    requires Reached(p, start, s, AFTER_YIELD, sp)
    ensures 0 <= DataAt(p) && DataAt(p) + 148 < TWO64
    ensures Reached(p, start, t, if result < 0 then FAIL_SEND else SENT, sp)
    ensures t.trace == s.trace + [SendEvent(DataAt(p), result)]
  {
    hide Installed, At, Goes, DumpCode, Data, DataAt, SignedOf, Keeps, FirstInstr, ReceiveInstr, CheckInstr, ExitInstr;
    t := SendCall(p, start, s, sp);
    result := SignedOf(Read(t.regs, 10));
    ZeroIsZero();
    t := DoBranch(p, start, t, 24, FAIL_SEND);
  }

  /** A successful receive leaves the start of the answer readable in the buffer asked for. */
  ghost predicate FillsBuffer(kernel: Kernel) {
    forall t: State :: Read(t.regs, 17) == 18 && SignedOf(Read(kernel(t).regs, 10)) >= 0 ==>
      Readable(kernel(t).mem, Read(t.regs, 12))
  }

  ghost predicate Readable(mem: Memory, a: int) {
    forall x :: a <= x < a + |GOOD| ==> x in mem
  }

  function ReceiveEvent(sp: u64, result: int): Event
    requires sp + 64 < TWO64
  {
    Receive(8, sp, sp + 16, 32, 0, 0, result)
  }

  lemma ReceiveArguments(p: Program, start: State, s: State, sp: u64) returns (t: State)
    requires Reached(p, start, s, SENT, sp) && sp + 64 < TWO64
    ensures On(p, start, t, 32) && t.trace == s.trace
    ensures t.regs == s.regs[10 := 8][11 := sp][12 := sp + 16][13 := 32][14 := 0][15 := 0][17 := 18]
  {
    hide Installed, At, Goes, DumpCode, Data, DataAt, FirstInstr, SendInstr, CheckInstr, ExitInstr;
    t := DoAddi(p, start, s, 25, 8);
    t := DoAddi(p, start, t, 26, sp);
    t := DoAddi(p, start, t, 27, sp + 16);
    t := DoAddi(p, start, t, 28, 32);
    t := DoAddi(p, start, t, 29, 0);
    t := DoAddi(p, start, t, 30, 0);
    t := DoAddi(p, start, t, 31, 18);
  }

  lemma Receives(p: Program, start: State, s: State, sp: u64) returns (t: State, result: int)
    requires Reached(p, start, s, SENT, sp) && sp + 64 < TWO64 && FillsBuffer(p.kernel)
    ensures Reached(p, start, t, if result < 0 then FAIL_RECV else RECEIVED, sp)
    ensures t.trace == s.trace + [ReceiveEvent(sp, result)] && (result >= 0 ==> Readable(t.mem, sp + 16))
  {
    hide Installed, At, Goes, DumpCode, Data, DataAt;
    hide SignedOf, Keeps, Readable, FirstInstr, SendInstr, CheckInstr, ExitInstr;
    var asked := ReceiveArguments(p, start, s, sp);
    t := DoCall(p, start, asked, 32);
    Kept(asked, t, {}, 8);
    Kept(asked, t, {}, 2);
    result := SignedOf(Read(t.regs, 10));
    ZeroIsZero();
    t := DoBranch(p, start, t, 33, FAIL_RECV);
  }

  // ---------- Checking the answer ----------

  lemma ChecksOne(p: Program, start: State, s: State, sp: u64, j: nat) returns (t: State)
    requires Reached(p, start, s, RECEIVED + 3 * j, sp) && j < 5 && sp + 64 < TWO64 && Readable(s.mem, sp + 16)
    ensures sp + 16 + j in s.mem
    ensures Reached(p, start, t, if s.mem[sp + 16 + j] == GOOD[j] then RECEIVED + 3 * (j + 1) else FAIL_RECV, sp)
    ensures t.mem == s.mem && t.trace == s.trace
  {
    hide Installed, At, Goes, DumpCode, Data, DataAt, CheckInstr, FirstInstr, SendInstr, ReceiveInstr, ExitInstr;
    CheckIs(j);
    var k := RECEIVED + 3 * j;
    t := DoLoad(p, start, s, k, sp + 16 + j);
    t := DoAddi(p, start, t, k + 1, GOOD[j]);
    t := DoBranch(p, start, t, k + 2, FAIL_RECV);
  }

  lemma CheckIs(j: nat)
    requires j < 5
    ensures var k := RECEIVED + 3 * j;
      && CheckInstr(k) == Lbu(6, 2, 16 + j) && CheckInstr(k + 1) == Addi(7, 0, GOOD[j])
      && CheckInstr(k + 2) == Bne(6, 7, 4 * (FAIL_RECV - k - 2))
  {
  }

  ghost predicate GoodFrom(mem: Memory, a: int, j: nat) {
    forall x :: a + j <= x < a + |GOOD| ==> x in mem && mem[x] == GOOD[x - a]
  }

  lemma GoodNext(mem: Memory, a: int, j: nat)
    requires Readable(mem, a) && j < |GOOD|
    ensures a + j in mem
    ensures GoodFrom(mem, a, j) <==> mem[a + j] == GOOD[j] && GoodFrom(mem, a, j + 1)
  {
  }

  lemma GoodEnds(mem: Memory, a: int)
    ensures GoodFrom(mem, a, 5) && (GoodFrom(mem, a, 0) <==> HoldsAt(mem, a, GOOD))
  {
  }

  lemma {:induction false} ChecksAll(p: Program, start: State, s: State, sp: u64, j: nat) returns (t: State)
    requires Reached(p, start, s, RECEIVED + 3 * j, sp) && j <= 5 && sp + 64 < TWO64 && Readable(s.mem, sp + 16)
    ensures Reached(p, start, t, if GoodFrom(s.mem, sp + 16, j) then SUCCESS else FAIL_RECV, sp)
    ensures t.mem == s.mem && t.trace == s.trace
    decreases 5 - j
  {
    hide Reached, GoodFrom, Readable;
    GoodEnds(s.mem, sp + 16);
    t := s;
    if j < 5 {
      GoodNext(s.mem, sp + 16, j);
      t := ChecksOne(p, start, s, sp, j);
      if s.mem[sp + 16 + j] == GOOD[j] {
        t := ChecksAll(p, start, t, sp, j + 1);
      }
    }
  }

  // ---------- What the program does ----------

  /** How the two calls went; the second is made only if the first succeeded. */
  datatype Story = Story(sent: int, received: int)

  function Calls(p: Program, sp: u64, story: Story): seq<Event>
    requires 0 <= DataAt(p) && DataAt(p) + 148 < TWO64 && sp + 64 < TWO64
  {
    [SendEvent(DataAt(p), story.sent)] + if story.sent >= 0 then [ReceiveEvent(sp, story.received)] else []
  }

  /** 42 exactly if both calls succeeded and the answer starts as it should; 33 after a failed
      send; 34 in every other case. */
  ghost function Verdict(story: Story, mem: Memory, sp: u64): int {
    if story.sent < 0 then 33
    else if story.received >= 0 && HoldsAt(mem, sp + 16, GOOD) then 42
    else 34
  }

  lemma Exchange(p: Program, start: State, s: State, sp: u64) returns (t: State, story: Story)
    requires Reached(p, start, s, AFTER_YIELD, sp) && sp + 64 < TWO64 && FillsBuffer(p.kernel)
    ensures 0 <= DataAt(p) && DataAt(p) + 148 < TWO64 && Goes(p.kernel, start, t)
    ensures t.status == Exited(Verdict(story, t.mem, sp))
    ensures t.trace == s.trace + Calls(p, sp, story) + [Exit(Verdict(story, t.mem, sp))]
  {
    hide On, Goes, DumpCode, Data, DataAt, FillsBuffer, Readable;
    hide HoldsAt, GoodFrom, SendEvent, ReceiveEvent, FirstInstr, SendInstr, ReceiveInstr, CheckInstr;
    var a, sent := Sends(p, start, s, sp);
    if sent < 0 {
      story := Story(sent, 0);
      t := Leaves(p, start, a, FAIL_SEND, 33);
      assert Calls(p, sp, story) == [SendEvent(DataAt(p), sent)];
    } else {
      var b, received := Receives(p, start, a, sp);
      story := Story(sent, received);
      assert s.trace + Calls(p, sp, story) == b.trace;
      if received < 0 {
        t := Leaves(p, start, b, FAIL_RECV, 34);
      } else {
        GoodEnds(b.mem, sp + 16);
        var c := ChecksAll(p, start, b, sp, 0);
        if GoodFrom(b.mem, sp + 16, 0) {
          t := Leaves(p, start, c, SUCCESS, 42);
        } else {
          t := Leaves(p, start, c, FAIL_RECV, 34);
        }
      }
    }
  }

  /** The run ended as `story` tells, having printed the message and yielded 64 times first. */
  ghost predicate Ended(p: Program, before: State, after: State, story: Story, sp: u64)
    requires 0 <= DataAt(p) && DataAt(p) + 148 < TWO64 && sp + 64 < TWO64
  {
    var code := Verdict(story, after.mem, sp);
    && after.status == Exited(code)
    && after.trace == before.trace + Puts(MSG) + Yields(64) + Calls(p, sp, story) + [Exit(code)]
  }

  /** Main result. Whatever the two calls return and whatever the answer contains, the program ends:
      it prints the message, yields 64 times, makes the send call, receives an answer if that
      succeeded, and exits with 42 exactly if both calls succeeded and the answer is good, with 33
      after a failed send and with 34 otherwise. */
  lemma DumperEnds(p: Program, s: State) returns (n: nat, story: Story)
    requires p.code == DumpCode() && p.data == Data() && Installed(p) && At(p, s, 0) && FillsBuffer(p.kernel)
    requires Read(s.regs, 2) >= 64
    ensures 0 <= DataAt(p) && DataAt(p) + 148 < TWO64
    ensures forall m: nat :: m >= n ==> Ended(p, s, Run(p.kernel, s, m), story, Read(s.regs, 2) - 64)
  {
    hide Run, On, Installed, At, FillsBuffer, DumpCode, Data, DataAt, Calls, Verdict, Goes, Puts, Yields;
    var sp := Read(s.regs, 2) - 64;
    var a := Announces(p, s);
    var b := YieldLoop(p, s, a, sp, 64);
    var end;
    end, story := Exchange(p, s, b, sp);
    n := EndsFor(p.kernel, s, end);
  }

  // ---------- What is sent ----------

  /** After any number of steps the request and its header are where the send call points. */
  lemma RequestInPlace(p: Program, s: State, n: nat)
    requires p.data == Data() && Installed(p) && HoldsAt(s.mem, p.base, Image(p.code, p.data))
    ensures HoldsAt(Run(p.kernel, s, n).mem, DataAt(p) + 24, MessageHeader(108))
    ensures HoldsAt(Run(p.kernel, s, n).mem, DataAt(p) + 40, Request())
  {
    hide LeWords, Assembles, KeepsImage, Request, MessageHeader, HoldsAt, Run;
    ImageStays(p, s, n);
    var mem := Run(p.kernel, s, n).mem;
    HoldsSplit(mem, p.base, LeWords(Assembled(p.code)), p.data);
    var front := MSG + [0] + [0];
    assert Data() == front + (MessageHeader(108) + Request());
    HoldsSplit(mem, DataAt(p), front, MessageHeader(108) + Request());
    HoldsSplit(mem, DataAt(p) + 24, MessageHeader(108), Request());
  }

  lemma {:induction false} YieldsOnly(n: nat)
    ensures forall e :: e in Yields(n) ==> e.Yield?
    decreases n
  {
    if n > 0 {
      YieldsOnly(n - 1);
    }
  }

  /** The one send call among the events of the run. */
  lemma OnlySend(p: Program, sp: u64, story: Story, status: int, e: Event)
    requires 0 <= DataAt(p) && DataAt(p) + 148 < TWO64 && sp + 64 < TWO64
    requires e in Puts(MSG) + Yields(64) + Calls(p, sp, story) + [Exit(status)] && e.Send?
    ensures e == SendEvent(DataAt(p), story.sent)
  {
    hide Puts, Yields, DataAt;
    PutsOnly(MSG);
    YieldsOnly(64);
  }

  lemma SplitsAt(before: seq<Event>, more: seq<Event>, at: seq<Event>, e: Event)
    requires before <= at && at + [e] <= before + more
    ensures e in more
  {
    assert (before + more)[|at|] == e;
    assert (before + more)[|at|] == more[|at| - |before|];
  }

  /** A step of the run that makes a send call. */
  ghost predicate SendsAt(p: Program, s: State, n: nat, e: Event) {
    e.Send? && Run(p.kernel, s, n + 1).trace == Run(p.kernel, s, n).trace + [e]
  }

  /** Main result. Whenever the program makes a send call, memory holds the message header where the
      call says and, with the size it says, the request. */
  lemma SendCarriesRequest(p: Program, s: State, n: nat, e: Event)
    requires p.code == DumpCode() && p.data == Data() && Installed(p) && At(p, s, 0) && FillsBuffer(p.kernel)
    requires Read(s.regs, 2) >= 64 && SendsAt(p, s, n, e)
    ensures HoldsAt(Run(p.kernel, s, n).mem, e.header, MessageHeader(|Request()|))
    ensures HoldsAt(Run(p.kernel, s, n).mem, e.buffer, Request()) && e.size == |Request()|
  {
    hide Run, Installed, FillsBuffer, DumpCode, Data, DataAt, Calls, Verdict, Puts, Yields, Request, MessageHeader, HoldsAt, Image;
    var end, story := DumperEnds(p, s);
    var last := if end > n + 1 then end else n + 1;
    var sp := Read(s.regs, 2) - 64;
    var final := Run(p.kernel, s, last);
    assert Ended(p, s, final, story, sp);
    TraceGrows(p.kernel, s, n);
    TraceGrows(p.kernel, Run(p.kernel, s, n + 1), last - (n + 1));
    RunAdd(p.kernel, s, n + 1, last - (n + 1));
    var code := Verdict(story, final.mem, sp);
    var more := Puts(MSG) + Yields(64) + Calls(p, sp, story) + [Exit(code)];
    assert final.trace == s.trace + more;
    SplitsAt(s.trace, more, Run(p.kernel, s, n).trace, e);
    OnlySend(p, sp, story, code, e);
    RequestInPlace(p, s, n);
  }

  // ---------- Building it ----------

  /** Slots that hold a zero word until the code is complete. */
  const HOLES: set<int> := {1, 2, 4, 8, 14, 15, 17, 18, 24, 33, 36, 39, 42, 45, 48}

  datatype FirstMarks = FirstMarks(dataBase: nat, msgPtr: nat, loop: nat, beqDone: nat, jalLoop: nat, donePrint: nat,
                                   yieldLoop: nat, beqYieldDone: nat, jalYieldLoop: nat, afterYield: nat)

  /** Printing and yielding; the marks are the slots the patches need. */
  method EmitFirst() returns (ins: seq<u32>, at: FirstMarks)
    ensures Drafted(ins, DumpCode(), HOLES) && |ins| == AFTER_YIELD
    ensures at == FirstMarks(1, 2, PRINT_LOOP, 4, 8, DONE_PRINT, YIELD_LOOP, 14, 15, AFTER_YIELD)
  {
    hide EncodeAddi, EncodeAuipc, EncodeLbu, DumpCode, Drafted;
    hide Assembles, Encodable, SendInstr, ReceiveInstr, CheckInstr, ExitInstr;
    DumpAssembles();
    ghost var code := DumpCode();
    NothingDrafted(code, HOLES);
    ins := Emit([], EncodeAuipc(8, 0), code, HOLES);
    var dataBase := |ins|;
    ins := EmitHole(ins, code, HOLES);
    var msgPtr := |ins|;
    ins := EmitHole(ins, code, HOLES);
    var loop := |ins|;
    ins := Emit(ins, EncodeLbu(10, 20, 0), code, HOLES);
    var beqDone := |ins|;
    ins := EmitHole(ins, code, HOLES);
    ins := Emit(ins, EncodeAddi(17, 0, SYSCALL_DEBUG_PUTC), code, HOLES);
    ins := Emit(ins, ECALL, code, HOLES);
    ins := Emit(ins, EncodeAddi(20, 20, 1), code, HOLES);
    var jalLoop := |ins|;
    ins := EmitHole(ins, code, HOLES);
    var donePrint := |ins|;
    ins := Emit(ins, EncodeAddi(2, 2, -STACK_SCRATCH_SIZE), code, HOLES);
    ins := Emit(ins, EncodeAddi(19, 0, 64), code, HOLES);
    var yieldLoop := |ins|;
    ins := Emit(ins, EncodeAddi(17, 0, SYSCALL_YIELD), code, HOLES);
    ins := Emit(ins, ECALL, code, HOLES);
    ins := Emit(ins, EncodeAddi(19, 19, -1), code, HOLES);
    var beqYieldDone := |ins|;
    ins := EmitHole(ins, code, HOLES);
    var jalYieldLoop := |ins|;
    ins := EmitHole(ins, code, HOLES);
    at := FirstMarks(dataBase, msgPtr, loop, beqDone, jalLoop, donePrint, yieldLoop, beqYieldDone, jalYieldLoop, |ins|);
  }

  /** The send call. */
  method EmitSend(ins0: seq<u32>, requestLen: i32) returns (ins: seq<u32>, hdrPtr: nat, reqPtr: nat, bltSendFail: nat)
    requires Drafted(ins0, DumpCode(), HOLES) && |ins0| == AFTER_YIELD && requestLen == 108
    ensures Drafted(ins, DumpCode(), HOLES) && |ins| == SENT && hdrPtr == 17 && reqPtr == 18 && bltSendFail == 24
  {
    hide EncodeAddi, DumpCode, Drafted, Assembles, Encodable, FirstInstr, ReceiveInstr, CheckInstr, ExitInstr;
    ghost var code := DumpCode();
    ins := Emit(ins0, EncodeAddi(10, 0, STATEFS_SEND_SLOT), code, HOLES);
    hdrPtr := |ins|;
    ins := EmitHole(ins, code, HOLES);
    reqPtr := |ins|;
    ins := EmitHole(ins, code, HOLES);
    ins := Emit(ins, EncodeAddi(13, 0, requestLen), code, HOLES);
    ins := Emit(ins, EncodeAddi(14, 0, 0), code, HOLES);
    ins := Emit(ins, EncodeAddi(15, 0, 0), code, HOLES);
    ins := Emit(ins, EncodeAddi(17, 0, SYSCALL_IPC_SEND_V1), code, HOLES);
    ins := Emit(ins, ECALL, code, HOLES);
    bltSendFail := |ins|;
    ins := EmitHole(ins, code, HOLES);
  }

  /** The receive call. */
  method EmitReceive(ins0: seq<u32>) returns (ins: seq<u32>, bltRecvFail: nat)
    requires Drafted(ins0, DumpCode(), HOLES) && |ins0| == SENT
    ensures Drafted(ins, DumpCode(), HOLES) && |ins| == RECEIVED && bltRecvFail == 33
  {
    hide EncodeAddi, DumpCode, Drafted, Assembles, Encodable, FirstInstr, SendInstr, CheckInstr, ExitInstr;
    ghost var code := DumpCode();
    ins := Emit(ins0, EncodeAddi(10, 0, STATEFS_RECV_SLOT), code, HOLES);
    ins := Emit(ins, EncodeAddi(11, 2, HDR_RSP_OFF), code, HOLES);
    ins := Emit(ins, EncodeAddi(12, 2, STATEFS_RSP_OFF), code, HOLES);
    ins := Emit(ins, EncodeAddi(13, 0, RSP_MAX), code, HOLES);
    ins := Emit(ins, EncodeAddi(14, 0, 0), code, HOLES);
    ins := Emit(ins, EncodeAddi(15, 0, 0), code, HOLES);
    ins := Emit(ins, EncodeAddi(17, 0, SYSCALL_IPC_RECV_V1), code, HOLES);
    ins := Emit(ins, ECALL, code, HOLES);
    bltRecvFail := |ins|;
    ins := EmitHole(ins, code, HOLES);
  }

  /** One compared byte. */
  method EmitCheck(ins0: seq<u32>, j: nat, want: byte) returns (ins: seq<u32>, bneFail: nat)
    requires Drafted(ins0, DumpCode(), HOLES) && j < 5 && |ins0| == RECEIVED + 3 * j && want == GOOD[j]
    ensures Drafted(ins, DumpCode(), HOLES) && |ins| == RECEIVED + 3 * (j + 1) && bneFail == RECEIVED + 3 * j + 2
  {
    hide EncodeAddi, EncodeLbu, DumpCode, Drafted, Assembles;
    hide Encodable, FirstInstr, SendInstr, ReceiveInstr, CheckInstr, ExitInstr;
    CheckIs(j);
    ghost var code := DumpCode();
    ins := Emit(ins0, EncodeLbu(6, 2, STATEFS_RSP_OFF + j), code, HOLES);
    ins := Emit(ins, EncodeAddi(7, 0, want), code, HOLES);
    bneFail := |ins|;
    ins := EmitHole(ins, code, HOLES);
  }

  method EmitExit(ins0: seq<u32>, status: i32) returns (ins: seq<u32>)
    requires Drafted(ins0, DumpCode(), HOLES)
    requires var k := |ins0|;
      (k == SUCCESS && status == 42) || (k == FAIL_SEND && status == 33) || (k == FAIL_RECV && status == 34)
    ensures Drafted(ins, DumpCode(), HOLES) && |ins| == |ins0| + 4
  {
    hide EncodeAddi, EncodeJal, DumpCode, Drafted, Assembles;
    hide Encodable, FirstInstr, SendInstr, ReceiveInstr, CheckInstr;
    SelfJump();
    ghost var code := DumpCode();
    ins := Emit(ins0, EncodeAddi(10, 0, status), code, HOLES);
    ins := Emit(ins, EncodeAddi(17, 0, SYSCALL_EXIT), code, HOLES);
    ins := Emit(ins, ECALL, code, HOLES);
    ins := Emit(ins, JAL_SELF, code, HOLES);
  }

  method BuildStatefsPutRequest(key: seq<byte>, value: seq<byte>) returns (out: seq<byte>)
    ensures out == PutRequest(key, value)
  {
    hide Le;
    out := [0x53, 0x46] + [1] + [1];
    out := out + Le(|key|, 2) + Le(|value|, 4);
    out := out + key + value;
  }

  method BuildRequest() returns (request: seq<byte>)
    ensures request == Request()
  {
    NameIsLabel();
    BuildIdIsLabel(DUMP_NAME);
    hide BuildIdOf, PutRequest, Encoded, Label;
    var buildId := DeterministicBuildIdBytes(DUMP_NAME);
    var value := BuildMinidumpValue(DUMP_NAME, buildId);
    request := BuildStatefsPutRequest(DUMP_PATH, value);
  }

  method Padded() returns (data: seq<byte>)
    ensures data == MSG + [0] + [0]
  {
    data := MSG + [0];
    while |data| % 4 != 0
      invariant data == MSG + [0] || data == MSG + [0] + [0]
      decreases 24 - |data|
    {
      data := data + [0];
    }
  }

  /** The message padded to a word, a message header and the request. */
  method BuildData() returns (data: seq<byte>, headerOff: nat, requestOff: nat, requestLen: nat)
    ensures data == Data() && headerOff == 24 && requestOff == 40 && requestLen == 108
  {
    hide MessageHeader, Request;
    var request := BuildRequest();
    requestLen := |request|;
    var padded := Padded();
    headerOff := |padded|;
    data := padded + MessageHeader(requestLen);
    requestOff := |data|;
    data := data + request;
    DataJoins(padded, request);
  }

  lemma DataJoins(padded: seq<byte>, request: seq<byte>)
    requires padded == MSG + [0] + [0] && request == Request()
    ensures padded + MessageHeader(108) + request == Data()
  {
    hide MessageHeader, Request;
    var m := MSG + [0];
    assert m + [0] + MessageHeader(108) + request == m + ([0] + (MessageHeader(108) + request));
  }

  method PatchFirst(ins0: seq<u32>, at: FirstMarks) returns (ins: seq<u32>, ghost holes: set<int>)
    requires Drafted(ins0, DumpCode(), HOLES) && |ins0| == 61
    requires at == FirstMarks(1, 2, PRINT_LOOP, 4, 8, DONE_PRINT, YIELD_LOOP, 14, 15, AFTER_YIELD)
    ensures Drafted(ins, DumpCode(), holes) && |ins| == 61 && holes == {17, 18, 24, 33, 36, 39, 42, 45, 48}
  {
    hide EncodeAddi, EncodeBeq, EncodeJal, DumpCode, Drafted;
    hide Assembles, Encodable, SendInstr, ReceiveInstr, CheckInstr, ExitInstr;
    ghost var code := DumpCode();
    var codeSize := |ins0| * 4;
    assert codeSize < 2048;
    ins, holes := Patch(ins0, at.dataBase, EncodeAddi(8, 8, codeSize), code, HOLES);
    ins, holes := Patch(ins, at.msgPtr, EncodeAddi(20, 8, 0), code, holes);
    ins, holes := Patch(ins, at.beqDone, EncodeBeq(10, 0, PatchOffset(at.beqDone, at.donePrint)), code, holes);
    ins, holes := Patch(ins, at.jalLoop, EncodeJal(0, PatchOffset(at.jalLoop, at.loop)), code, holes);
    ins, holes := Patch(ins, at.beqYieldDone, EncodeBeq(19, 0, PatchOffset(at.beqYieldDone, at.afterYield)), code, holes);
    ins, holes := Patch(ins, at.jalYieldLoop, EncodeJal(0, PatchOffset(at.jalYieldLoop, at.yieldLoop)), code, holes);
  }

  method PatchCalls(ins0: seq<u32>, hdrPtr: nat, headerOff: nat, reqPtr: nat, requestOff: nat, bltSendFail: nat,
                    failSend: nat, bltRecvFail: nat, failRecv: nat)
    returns (ins: seq<u32>, ghost holes: set<int>)
    requires Drafted(ins0, DumpCode(), {17, 18, 24, 33, 36, 39, 42, 45, 48}) && |ins0| == 61
    requires hdrPtr == 17 && headerOff == 24 && reqPtr == 18 && requestOff == 40
    requires bltSendFail == 24 && failSend == FAIL_SEND && bltRecvFail == 33 && failRecv == FAIL_RECV
    ensures Drafted(ins, DumpCode(), holes) && |ins| == 61 && holes == {36, 39, 42, 45, 48}
  {
    hide EncodeAddi, EncodeBlt, DumpCode, Drafted, Assembles, Encodable, FirstInstr, CheckInstr, ExitInstr;
    ghost var code := DumpCode();
    holes := {17, 18, 24, 33, 36, 39, 42, 45, 48};
    ins, holes := Patch(ins0, hdrPtr, EncodeAddi(11, 8, headerOff), code, holes);
    ins, holes := Patch(ins, reqPtr, EncodeAddi(12, 8, requestOff), code, holes);
    ins, holes := Patch(ins, bltSendFail, EncodeBlt(10, 0, PatchOffset(bltSendFail, failSend)), code, holes);
    ins, holes := Patch(ins, bltRecvFail, EncodeBlt(10, 0, PatchOffset(bltRecvFail, failRecv)), code, holes);
  }

  method PatchCheck(ins0: seq<u32>, j: nat, bneFail: nat, failRecv: nat, ghost holes: set<int>)
    returns (ins: seq<u32>, ghost holes': set<int>)
    requires Drafted(ins0, DumpCode(), holes) && |ins0| == 61 && j < 5
    requires bneFail == RECEIVED + 3 * j + 2 && failRecv == FAIL_RECV
    ensures Drafted(ins, DumpCode(), holes') && |ins| == 61 && holes' == holes - {bneFail}
  {
    hide EncodeBne, DumpCode, Drafted, Assembles, Encodable, FirstInstr, SendInstr, ReceiveInstr, CheckInstr, ExitInstr;
    CheckIs(j);
    ins, holes' := Patch(ins0, bneFail, EncodeBne(6, 7, PatchOffset(bneFail, failRecv)), DumpCode(), holes);
  }

  method BuildMinidumpText() returns (text: seq<byte>)
    ensures Assembles(DumpCode()) && text == Image(DumpCode(), Data())
  {
    hide DumpCode, Drafted, Data, Assembled;
    var data, headerOff, requestOff, requestLen := BuildData();
    var ins, first := EmitFirst();
    var hdrPtr, reqPtr, bltSendFail, bltRecvFail;
    ins, hdrPtr, reqPtr, bltSendFail := EmitSend(ins, requestLen);
    ins, bltRecvFail := EmitReceive(ins);
    var magic0, magic1, version, op, status;
    ins, magic0 := EmitCheck(ins, 0, 0x53);
    ins, magic1 := EmitCheck(ins, 1, 0x46);
    ins, version := EmitCheck(ins, 2, 1);
    ins, op := EmitCheck(ins, 3, 0x81);
    ins, status := EmitCheck(ins, 4, 0);
    ins := EmitExit(ins, 42);
    var failSend := |ins|;
    ins := EmitExit(ins, 33);
    var failRecv := |ins|;
    ins := EmitExit(ins, 34);
    ghost var holes;
    ins, holes := PatchFirst(ins, first);
    ins, holes := PatchCalls(ins, hdrPtr, headerOff, reqPtr, requestOff, bltSendFail, failSend, bltRecvFail, failRecv);
    ins, holes := PatchCheck(ins, 0, magic0, failRecv, holes);
    ins, holes := PatchCheck(ins, 1, magic1, failRecv, holes);
    ins, holes := PatchCheck(ins, 2, version, failRecv, holes);
    ins, holes := PatchCheck(ins, 3, op, failRecv, holes);
    ins, holes := PatchCheck(ins, 4, status, failRecv, holes);
    assert holes == {};
    DumpAssembles();
    Finished(ins, DumpCode());
    text := Text(ins, data);
  }
}
