/** The payload built by `build_vmo_consumer_text`: ask the kernel up to 128 times to map a
    shared memory object, compare the mapped bytes with the expected ones, and exit with 0 or 41.
    Its jumps are emitted as zero words and patched once their targets are known. */
module VmoConsumer {
  import opened Assembler
  import opened Programs
  import opened RiscV
  import opened Words

  const SYSCALL_YIELD: i32 := 0
  const SYSCALL_EXIT: i32 := 11
  const SYSCALL_MAP: i32 := 4
  const VMO_SLOT: i32 := 23
  const MAP_FLAGS: i32 := 0x13
  const MAP_VA: u32 := 0x2100_0000
  const RETRIES: i32 := 128

  /** "task-0031-vmo-share-probe" */
  const EXPECTED: seq<byte> :=
    [116, 97, 115, 107, 45, 48, 48, 51, 49, 45, 118, 109, 111, 45, 115, 104, 97, 114, 101, 45, 112, 114, 111, 98, 101]

  // ---------- The program ----------

  // Labels, as slots of the finished program.
  const RETRY := 3
  const MAP_FAIL := 12
  const MAPPED := 17
  const CMP_LOOP := 21
  const FAIL := 32

  function AskInstr(k: nat): Instr {
    if k == 0 then Auipc(8, 0)
    else if k == 1 then Addi(8, 8, 4 * 36)
    else if k == 2 then Addi(9, 0, 128)
    else if k == RETRY then Addi(10, 0, 23)
    else if k == 4 then Lui(11, 0x2100_0000)
    else if k == 5 then Addi(11, 11, 0)
    else if k == 6 then Addi(12, 0, 0)
    else if k == 7 then Addi(13, 0, 0x13)
    else if k == 8 then Addi(17, 0, 4)
    else if k == 9 then Ecall
    else if k == 10 then Blt(10, 0, 4 * (MAP_FAIL - 10))
    else if k == 11 then Jal(0, 4 * (MAPPED - 11))
    else if k == MAP_FAIL then Addi(17, 0, 0)
    else if k == 13 then Ecall
    else if k == 14 then Addi(9, 9, -1)
    else if k == 15 then Beq(9, 0, 4 * (FAIL - 15))
    else Jal(0, 4 * (RETRY - 16))
  }

  function CompareInstr(k: nat): Instr {
    if k == MAPPED then Lui(18, 0x2100_0000)
    else if k == 18 then Addi(18, 18, 0)
    else if k == 19 then Addi(19, 8, 0)
    else if k == 20 then Addi(20, 0, 25)
    else if k == CMP_LOOP then Lbu(5, 18, 0)
    else if k == 22 then Lbu(6, 19, 0)
    else if k == 23 then Bne(5, 6, 4 * (FAIL - 23))
    else if k == 24 then Addi(18, 18, 1)
    else if k == 25 then Addi(19, 19, 1)
    else if k == 26 then Addi(20, 20, -1)
    else if k == 27 then Bne(20, 0, 4 * (CMP_LOOP - 27))
    else if k == 28 then Addi(10, 0, 0)
    else if k == 29 || k == 33 then Addi(17, 0, 11)
    else if k == 30 || k == 34 then Ecall
    else if k == FAIL then Addi(10, 0, 41)
    else Jal(0, 0)
  }

  function VmoCode(): (code: seq<Instr>)
    ensures |code| == 36
    ensures forall k :: 0 <= k < MAPPED ==> code[k] == AskInstr(k)
    ensures forall k :: MAPPED <= k < 36 ==> code[k] == CompareInstr(k)
  {
    seq(36, k requires 0 <= k => if k < MAPPED then AskInstr(k) else CompareInstr(k))
  }

  lemma VmoAssembles()
    ensures Assembles(VmoCode())
  {
    hide VmoCode;
  }

  const DATA: seq<byte> := EXPECTED + [0, 0, 0]

  // ---------- Running it ----------

  ghost predicate RangeMapped(mem: Memory) {
    forall x :: MAP_VA <= x < MAP_VA + |EXPECTED| ==> x in mem
  }

  /** A successful map call leaves the object's bytes readable at the address asked for. */
  ghost predicate MapsObject(kernel: Kernel) {
    forall t: State :: Read(t.regs, 17) == 4 && Read(t.regs, 11) == MAP_VA && SignedOf(Read(kernel(t).regs, 10)) >= 0 ==>
      RangeMapped(kernel(t).mem)
  }

  /** Slot `k` is next and s0 points at the expected bytes. */
  ghost predicate Reached(p: Program, start: State, s: State, k: nat) {
    p.code == VmoCode() && p.data == DATA && On(p, start, s, k) && Read(s.regs, 8) == DataAt(p)
  }

  lemma Enters(p: Program, s: State) returns (t: State)
    requires p.code == VmoCode() && p.data == DATA && Installed(p) && At(p, s, 0)
    ensures Reached(p, s, t, RETRY) && Read(t.regs, 9) == 128 && t.trace == s.trace
  {
    hide Installed, At, Goes, VmoCode;
    Stays(p.kernel, s);
    DataByte(p, s, 0, 0);
    BaseFits(p, s);
    t := DoUpper(p, s, s, 0, p.base);
    t := DoAddi(p, s, t, 1, p.base + 144);
    t := DoAddi(p, s, t, 2, 128);
  }

  function MapEvent(result: int): Event {
    Map(23, 0x2100_0000, 0, 0x13, result)
  }

  lemma Arguments(p: Program, start: State, s: State) returns (t: State)
    requires Reached(p, start, s, RETRY)
    ensures On(p, start, t, 9) && t.trace == s.trace
    ensures t.regs == s.regs[10 := 23][11 := MAP_VA][11 := MAP_VA][12 := 0][13 := 0x13][17 := 4]
  {
    hide Installed, At, Goes, VmoCode;
    t := DoAddi(p, start, s, 3, 23);
    t := DoUpper(p, start, t, 4, 0x2100_0000);
    t := DoAddi(p, start, t, 5, 0x2100_0000);
    t := DoAddi(p, start, t, 6, 0);
    t := DoAddi(p, start, t, 7, 0x13);
    t := DoAddi(p, start, t, 8, 4);
  }

  lemma MapCall(p: Program, start: State, s: State) returns (t: State)
    requires Reached(p, start, s, RETRY) && MapsObject(p.kernel)
    ensures Reached(p, start, t, 10) && Read(t.regs, 9) == Read(s.regs, 9)
    ensures t.trace == s.trace + [MapEvent(SignedOf(Read(t.regs, 10)))]
    ensures SignedOf(Read(t.regs, 10)) >= 0 ==> RangeMapped(t.mem)
  {
    hide Installed, At, Goes, VmoCode, SignedOf, RangeMapped, Keeps;
    var asked := Arguments(p, start, s);
    t := DoCall(p, start, asked, 9);
    Kept(asked, t, {}, 8);
    Kept(asked, t, {}, 9);
  }

  /** One attempt: on to `mapped` for a non-negative result, else to `map_fail`. */
  lemma Attempt(p: Program, start: State, s: State) returns (t: State, result: int)
    requires Reached(p, start, s, RETRY) && MapsObject(p.kernel)
    ensures Reached(p, start, t, if result >= 0 then MAPPED else MAP_FAIL) && Read(t.regs, 9) == Read(s.regs, 9)
    ensures t.trace == s.trace + [MapEvent(result)] && (result >= 0 ==> RangeMapped(t.mem))
  {
    t := MapCall(p, start, s);
    hide Installed, At, Goes, VmoCode, SignedOf, RangeMapped, MapsObject;
    result := SignedOf(Read(t.regs, 10));
    ZeroIsZero();
    t := DoBranch(p, start, t, 10, MAP_FAIL);
    if result >= 0 {
      t := DoJump(p, start, t, 11, MAPPED);
    }
  }

  /** Yield, count the failed attempt, and give up when none is left. */
  lemma GiveWay(p: Program, start: State, s: State, left: nat) returns (t: State)
    requires Reached(p, start, s, MAP_FAIL) && Read(s.regs, 9) == left >= 1
    ensures Reached(p, start, t, if left == 1 then FAIL else RETRY) && Read(t.regs, 9) == left - 1
    ensures t.trace == s.trace + [Yield]
  {
    hide Installed, At, Goes, VmoCode, Keeps;
    var asked := DoAddi(p, start, s, 12, 0);
    t := DoCall(p, start, asked, 13);
    Kept(asked, t, {}, 8);
    Kept(asked, t, {}, 9);
    t := DoAddi(p, start, t, 14, left - 1);
    t := DoBranch(p, start, t, 15, FAIL);
    if left != 1 {
      t := DoJump(p, start, t, 16, RETRY);
    }
  }

  /** At `cmp_loop` with byte `j` of both strings next. */
  ghost predicate Comparing(p: Program, start: State, s: State, j: nat) {
    && Reached(p, start, s, CMP_LOOP) && RangeMapped(s.mem) && j < |EXPECTED|
    && Read(s.regs, 18) == MAP_VA + j && Read(s.regs, 19) == DataAt(p) + j && Read(s.regs, 20) == |EXPECTED| - j
  }

  lemma Points(p: Program, start: State, s: State) returns (t: State)
    requires Reached(p, start, s, MAPPED) && RangeMapped(s.mem)
    ensures Comparing(p, start, t, 0) && t.mem == s.mem && t.trace == s.trace
  {
    hide Installed, At, Goes, VmoCode, RangeMapped, DataAt;
    t := DoUpper(p, start, s, 17, 0x2100_0000);
    t := DoAddi(p, start, t, 18, 0x2100_0000);
    t := DoAddi(p, start, t, 19, DataAt(p));
    t := DoAddi(p, start, t, 20, 25);
  }

  /** Load both bytes and branch on their difference. */
  lemma Loads(p: Program, start: State, s: State, j: nat) returns (t: State)
    requires Comparing(p, start, s, j)
    ensures MAP_VA + j in s.mem
    ensures t.mem == s.mem && t.trace == s.trace && t.regs == s.regs[5 := s.mem[MAP_VA + j]][6 := EXPECTED[j]]
    ensures On(p, start, t, if s.mem[MAP_VA + j] == EXPECTED[j] then 24 else FAIL)
  {
    hide Installed, At, Goes, VmoCode, DataAt;
    DataByte(p, s, CMP_LOOP, j);
    assert p.data[j] == EXPECTED[j];
    t := DoLoad(p, start, s, 21, MAP_VA + j);
    t := DoLoad(p, start, t, 22, DataAt(p) + j);
    t := DoBranch(p, start, t, 23, FAIL);
  }

  /** Both pointers move on; leave the loop after the last byte. */
  lemma Advances(p: Program, start: State, s: State, j: nat) returns (t: State)
    requires Reached(p, start, s, 24) && RangeMapped(s.mem) && j < |EXPECTED|
    requires Read(s.regs, 18) == MAP_VA + j && Read(s.regs, 19) == DataAt(p) + j && Read(s.regs, 20) == |EXPECTED| - j
    ensures t.mem == s.mem && t.trace == s.trace
    ensures if j + 1 < |EXPECTED| then Comparing(p, start, t, j + 1) else Reached(p, start, t, 28)
  {
    hide Installed, At, Goes, VmoCode, DataAt, RangeMapped;
    DataByte(p, s, 24, j);
    t := DoAddi(p, start, s, 24, MAP_VA + j + 1);
    t := DoAddi(p, start, t, 25, DataAt(p) + j + 1);
    t := DoAddi(p, start, t, 26, |EXPECTED| - j - 1);
    t := DoBranch(p, start, t, 27, CMP_LOOP);
  }

  ghost predicate MatchesFrom(mem: Memory, j: nat) {
    forall x :: MAP_VA + j <= x < MAP_VA + |EXPECTED| ==> x in mem && mem[x] == EXPECTED[x - MAP_VA]
  }

  lemma MatchesNext(mem: Memory, j: nat)
    requires RangeMapped(mem) && j < |EXPECTED|
    ensures MAP_VA + j in mem
    ensures MatchesFrom(mem, j) <==> mem[MAP_VA + j] == EXPECTED[j] && MatchesFrom(mem, j + 1)
  {
  }

  lemma {:induction false} CompareLoop(p: Program, start: State, s: State, j: nat) returns (t: State)
    requires Comparing(p, start, s, j)
    ensures On(p, start, t, if MatchesFrom(s.mem, j) then 28 else FAIL) && t.mem == s.mem && t.trace == s.trace
    decreases |EXPECTED| - j
  {
    hide On, VmoCode, DataAt, RangeMapped, MatchesFrom;
    MatchesNext(s.mem, j);
    t := Loads(p, start, s, j);
    if s.mem[MAP_VA + j] == EXPECTED[j] {
      t := Advances(p, start, t, j);
      if j + 1 < |EXPECTED| {
        t := CompareLoop(p, start, t, j + 1);
      } else {
        NothingLeft(s.mem);
      }
    }
  }

  lemma NothingLeft(mem: Memory)
    ensures MatchesFrom(mem, |EXPECTED|)
  {
  }

  lemma MatchesAll(mem: Memory)
    ensures MatchesFrom(mem, 0) <==> HoldsAt(mem, MAP_VA, EXPECTED)
  {
  }

  // ---------- What the program does ----------

  /** The calls of failed attempts: each is a map call and then a yield. */
  function Rounds(results: seq<int>): seq<Event> {
    if results == [] then [] else [MapEvent(results[0]), Yield] + Rounds(results[1..])
  }

  /** How a run went: the results of the failed attempts, then the one that was granted, if any. */
  datatype Story = Story(failed: seq<int>, granted: bool, result: int)

  ghost predicate Plausible(story: Story, attempts: nat) {
    && (forall i :: 0 <= i < |story.failed| ==> story.failed[i] < 0)
    && (if story.granted then |story.failed| < attempts && story.result >= 0 else |story.failed| == attempts)
  }

  function Calls(story: Story): seq<Event> {
    Rounds(story.failed) + if story.granted then [MapEvent(story.result)] else []
  }

  /** The run ended, made the calls of `story`, and exited with 0 exactly if the object was
      mapped with the expected contents, otherwise with 41. */
  ghost predicate Ended(before: State, after: State, story: Story, attempts: nat) {
    var code := if story.granted && HoldsAt(after.mem, MAP_VA, EXPECTED) then 0 else 41;
    && Plausible(story, attempts)
    && after.status == Exited(code)
    && after.trace == before.trace + Calls(story) + [Exit(code)]
  }

  lemma Granted(p: Program, start: State, s: State) returns (t: State)
    requires Reached(p, start, s, MAPPED) && RangeMapped(s.mem)
    ensures var code := if HoldsAt(t.mem, MAP_VA, EXPECTED) then 0 else 41;
      t.status == Exited(code) && t.trace == s.trace + [Exit(code)]
    ensures Goes(p.kernel, start, t)
  {
    hide On, VmoCode, DataAt, RangeMapped, MatchesFrom, HoldsAt, Goes;
    MatchesAll(s.mem);
    t := Points(p, start, s);
    t := CompareLoop(p, start, t, 0);
    t := Leaves(p, start, t, if MatchesFrom(s.mem, 0) then 28 else FAIL, if MatchesFrom(s.mem, 0) then 0 else 41);
  }

  lemma {:induction false} RetryLoop(p: Program, start: State, s: State, left: nat) returns (t: State, story: Story)
    requires Reached(p, start, s, RETRY) && MapsObject(p.kernel) && Read(s.regs, 9) == left >= 1
    ensures Ended(s, t, story, left) && Goes(p.kernel, start, t)
    decreases left
  {
    hide On, VmoCode, RangeMapped, HoldsAt, Goes, MapsObject, DataAt;
    var m, result := Attempt(p, start, s);
    if result >= 0 {
      t := Granted(p, start, m);
      story := Story([], true, result);
      assert Calls(story) == [MapEvent(result)];
    } else {
      m := GiveWay(p, start, m, left);
      if left == 1 {
        t := Leaves(p, start, m, FAIL, 41);
        story := Story([result], false, 0);
        OneRound(result);
        assert s.trace + Calls(story) == m.trace;
      } else {
        var rest;
        t, rest := RetryLoop(p, start, m, left - 1);
        story := rest.(failed := [result] + rest.failed);
        PrependRound(s, m, t, result, rest, left);
      }
    }
  }

  lemma OneRound(result: int)
    ensures Calls(Story([result], false, 0)) == [MapEvent(result), Yield]
  {
    assert [result][1..] == [];
    assert Rounds([]) == [];
  }

  lemma PrependRound(s: State, m: State, end: State, result: int, rest: Story, left: nat)
    requires left >= 2 && result < 0 && m.trace == s.trace + [MapEvent(result)] + [Yield]
    requires Ended(m, end, rest, left - 1)
    ensures Ended(s, end, rest.(failed := [result] + rest.failed), left)
  {
    hide HoldsAt;
    var story := rest.(failed := [result] + rest.failed);
    assert story.failed[1..] == rest.failed;
    assert s.trace + Rounds(story.failed) == m.trace + Rounds(rest.failed);
    assert s.trace + Calls(story) == m.trace + Calls(rest);
  }

  /** Main result. For every sequence of map results and every mapped content the program ends;
      it makes at most 128 map calls, all with the same arguments and each failed one followed
      by a yield; it stops asking at the first non-negative result; and it exits with 0 exactly
      if such a result came and the mapped bytes are the expected ones, else with 41. */
  lemma ConsumerEnds(p: Program, s: State) returns (n: nat, story: Story)
    requires p.code == VmoCode() && p.data == DATA && Installed(p) && At(p, s, 0) && MapsObject(p.kernel)
    ensures forall m: nat :: m >= n ==> Ended(s, Run(p.kernel, s, m), story, 128)
  {
    hide Run, On, Installed, At, MapsObject, VmoCode, Calls, HoldsAt, Plausible, Goes;
    var t := Enters(p, s);
    var end;
    end, story := RetryLoop(p, s, t, 128);
    n := EndsFor(p.kernel, s, end);
  }

  // ---------- Building it ----------

  method ExpectedData() returns (data: seq<byte>)
    ensures data == DATA
  {
    data := EXPECTED;
    while |data| % 4 != 0
      invariant 25 <= |data| <= 28 && data == EXPECTED + seq(|data| - 25, _ => 0)
      decreases 28 - |data|
    {
      data := data + [0];
    }
  }

  /** Slots that hold a zero word until the code is complete. */
  const HOLES: set<int> := {1, 10, 11, 15, 16, 19, 23, 27}

  /** Asking for the mapping; the slots are those the patches need. */
  method EmitAsk() returns (ins: seq<u32>, dataBase: nat, retry: nat, bltMapFail: nat, jalMapped: nat, mapFail: nat,
                            beqFail: nat, jalRetry: nat)
    ensures Drafted(ins, VmoCode(), HOLES) && |ins| == MAPPED
    ensures dataBase == 1 && retry == RETRY && bltMapFail == 10 && jalMapped == 11 && mapFail == MAP_FAIL
    ensures beqFail == 15 && jalRetry == 16
  {
    hide EncodeAddi, EncodeAuipc, EncodeLui, VmoCode, Drafted, Assembles, Encodable;
    VmoAssembles();
    ghost var code := VmoCode();
    ins := [];
    NothingDrafted(code, HOLES);
    ins := Emit(ins, EncodeAuipc(8, 0), code, HOLES);
    dataBase := |ins|;
    ins := EmitHole(ins, code, HOLES);
    ins := Emit(ins, EncodeAddi(9, 0, RETRIES), code, HOLES);
    retry := |ins|;
    ins := Emit(ins, EncodeAddi(10, 0, VMO_SLOT), code, HOLES);
    var hilo := SplitHiLo(MAP_VA);
    ins := Emit(ins, EncodeLui(11, hilo.hi), code, HOLES);
    ins := Emit(ins, EncodeAddi(11, 11, hilo.lo), code, HOLES);
    ins := Emit(ins, EncodeAddi(12, 0, 0), code, HOLES);
    ins := Emit(ins, EncodeAddi(13, 0, MAP_FLAGS), code, HOLES);
    ins := Emit(ins, EncodeAddi(17, 0, SYSCALL_MAP), code, HOLES);
    ins := Emit(ins, ECALL, code, HOLES);
    bltMapFail := |ins|;
    ins := EmitHole(ins, code, HOLES);
    jalMapped := |ins|;
    ins := EmitHole(ins, code, HOLES);
    mapFail := |ins|;
    ins := Emit(ins, EncodeAddi(17, 0, SYSCALL_YIELD), code, HOLES);
    ins := Emit(ins, ECALL, code, HOLES);
    ins := Emit(ins, EncodeAddi(9, 9, -1), code, HOLES);
    beqFail := |ins|;
    ins := EmitHole(ins, code, HOLES);
    jalRetry := |ins|;
    ins := EmitHole(ins, code, HOLES);
  }

  /** Comparing the bytes. */
  method EmitCompare(ins0: seq<u32>)
    returns (ins: seq<u32>, mapped: nat, expectedPtr: nat, cmpLoop: nat, bneCmpFail: nat, bneCmpLoop: nat)
    requires Drafted(ins0, VmoCode(), HOLES) && |ins0| == MAPPED
    ensures Drafted(ins, VmoCode(), HOLES) && |ins| == 28
    ensures mapped == MAPPED && expectedPtr == 19 && cmpLoop == CMP_LOOP && bneCmpFail == 23 && bneCmpLoop == 27
  {
    hide EncodeAddi, EncodeLbu, EncodeLui, VmoCode, Drafted, Assembles, Encodable;
    VmoAssembles();
    ghost var code := VmoCode();
    ins := ins0;
    mapped := |ins|;
    var hilo := SplitHiLo(MAP_VA);
    ins := Emit(ins, EncodeLui(18, hilo.hi), code, HOLES);
    ins := Emit(ins, EncodeAddi(18, 18, hilo.lo), code, HOLES);
    expectedPtr := |ins|;
    ins := EmitHole(ins, code, HOLES);
    ins := Emit(ins, EncodeAddi(20, 0, |EXPECTED|), code, HOLES);
    cmpLoop := |ins|;
    ins := Emit(ins, EncodeLbu(5, 18, 0), code, HOLES);
    ins := Emit(ins, EncodeLbu(6, 19, 0), code, HOLES);
    bneCmpFail := |ins|;
    ins := EmitHole(ins, code, HOLES);
    ins := Emit(ins, EncodeAddi(18, 18, 1), code, HOLES);
    ins := Emit(ins, EncodeAddi(19, 19, 1), code, HOLES);
    ins := Emit(ins, EncodeAddi(20, 20, -1), code, HOLES);
    bneCmpLoop := |ins|;
    ins := EmitHole(ins, code, HOLES);
  }

  /** Both ways out. */
  method EmitExits(ins0: seq<u32>) returns (ins: seq<u32>, fail: nat)
    requires Drafted(ins0, VmoCode(), HOLES) && |ins0| == 28
    ensures Drafted(ins, VmoCode(), HOLES) && |ins| == 36 && fail == FAIL
  {
    hide EncodeAddi, EncodeJal, VmoCode, Drafted, Assembles, Encodable;
    SelfJump();
    ghost var code := VmoCode();
    ins := Emit(ins0, EncodeAddi(10, 0, 0), code, HOLES);
    ins := Emit(ins, EncodeAddi(17, 0, SYSCALL_EXIT), code, HOLES);
    ins := Emit(ins, ECALL, code, HOLES);
    ins := Emit(ins, JAL_SELF, code, HOLES);
    fail := |ins|;
    ins := Emit(ins, EncodeAddi(10, 0, 41), code, HOLES);
    ins := Emit(ins, EncodeAddi(17, 0, SYSCALL_EXIT), code, HOLES);
    ins := Emit(ins, ECALL, code, HOLES);
    ins := Emit(ins, JAL_SELF, code, HOLES);
  }

  method BuildVmoConsumerText() returns (text: seq<byte>)
    ensures Assembles(VmoCode()) && text == Image(VmoCode(), DATA)
  {
    hide EncodeAddi, EncodeBlt, EncodeBeq, EncodeBne, EncodeJal, VmoCode, Drafted, Assembles, Encodable;
    var data := ExpectedData();
    var expectedOff := 0;
    var ins, dataBase, retry, bltMapFail, jalMapped, mapFail, beqFail, jalRetry := EmitAsk();
    var mapped, expectedPtr, cmpLoop, bneCmpFail, bneCmpLoop, fail;
    ins, mapped, expectedPtr, cmpLoop, bneCmpFail, bneCmpLoop := EmitCompare(ins);
    ins, fail := EmitExits(ins);
    VmoAssembles();
    ghost var code, holes := VmoCode(), HOLES;
    var codeSize := |ins| * 4;
    assert codeSize < 2048;
    ins, holes := Patch(ins, dataBase, EncodeAddi(8, 8, codeSize), code, holes);
    ins, holes := Patch(ins, expectedPtr, EncodeAddi(19, 8, expectedOff), code, holes);
    ins, holes := Patch(ins, bltMapFail, EncodeBlt(10, 0, PatchOffset(bltMapFail, mapFail)), code, holes);
    ins, holes := Patch(ins, jalMapped, EncodeJal(0, PatchOffset(jalMapped, mapped)), code, holes);
    ins, holes := Patch(ins, beqFail, EncodeBeq(9, 0, PatchOffset(beqFail, fail)), code, holes);
    ins, holes := Patch(ins, jalRetry, EncodeJal(0, PatchOffset(jalRetry, retry)), code, holes);
    ins, holes := Patch(ins, bneCmpFail, EncodeBne(5, 6, PatchOffset(bneCmpFail, fail)), code, holes);
    ins, holes := Patch(ins, bneCmpLoop, EncodeBne(20, 0, PatchOffset(bneCmpLoop, cmpLoop)), code, holes);
    assert holes == {};
    Finished(ins, code);
    text := Text(ins, data);
  }
}
