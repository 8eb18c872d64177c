/** The minidump frame, version 1: a 32-byte little-endian header, then build id, name, program
    counters and two previews; and the demo payload's own writer of the same format. */
module Minidump {
  import opened Bytes
  import opened Results
  import opened Utf8
  import opened Words

  const MAGIC: seq<byte> := [0x4E, 0x4D, 0x44, 0x31]
  const VERSION: byte := 1
  const HEADER_LEN := 32
  const MAX_BUILD_ID_LEN := 64
  const MAX_NAME_LEN := 48
  const MAX_PC_COUNT := 32
  const MAX_STACK_PREVIEW := 4096
  const MAX_CODE_PREVIEW := 256
  const MAX_TOTAL_FRAME := 8192

  datatype CrashError =
    | MalformedHeader
    | UnsupportedVersion
    | TruncatedFrame
    | InvalidName
    | InvalidBuildId
    | OversizeStackPreview
    | OversizeCodePreview
    | OversizeTotalFrame

  datatype MinidumpFrame = MinidumpFrame(
    timestamp: u64, pid: u32, code: i32, name: Text, buildId: Text,
    pcs: seq<u64>, stack: seq<byte>, preview: seq<byte>)

  // ---------- Validation ----------

  /** Letters, digits, '.', '-' and '_'. */
  predicate Plain(b: byte) {
    0x41 <= b <= 0x5A || 0x61 <= b <= 0x7A || 0x30 <= b <= 0x39 || b == 0x2E || b == 0x2D || b == 0x5F
  }

  predicate Label(s: seq<byte>, max: nat) {
    0 < |s| <= max && forall i :: 0 <= i < |s| ==> Plain(s[i])
  }

  /** A label is not empty, not too long, and has no other characters than these. */
  lemma LabelExactly(s: seq<byte>, max: nat)
    ensures Label(s, max) <==> 0 < |s| <= max && forall i :: 0 <= i < |s| ==>
      var c := s[i] as char;
      'A' <= c <= 'Z' || 'a' <= c <= 'z' || '0' <= c <= '9' || c == '.' || c == '-' || c == '_'
  {
    assert forall i :: 0 <= i < |s| ==> (s[i] as char) as int == s[i];
  }

  function BodyLen(f: MinidumpFrame): nat {
    |f.buildId| + |f.name| + |f.pcs| * 8 + |f.stack| + |f.preview|
  }

  function Validate(f: MinidumpFrame): Option<CrashError> {
    if !Label(f.name, MAX_NAME_LEN) then Some(InvalidName)
    else if !Label(f.buildId, MAX_BUILD_ID_LEN) then Some(InvalidBuildId)
    else if |f.pcs| > MAX_PC_COUNT then Some(OversizeTotalFrame)
    else if |f.stack| > MAX_STACK_PREVIEW then Some(OversizeStackPreview)
    else if |f.preview| > MAX_CODE_PREVIEW then Some(OversizeCodePreview)
    else if HEADER_LEN + BodyLen(f) > MAX_TOTAL_FRAME || HEADER_LEN + BodyLen(f) > 0xFFFF then Some(OversizeTotalFrame)
    else None
  }

  /** What validation asks for in the end: the limit on the whole frame follows from the others. */
  predicate Valid(f: MinidumpFrame) {
    && Label(f.name, MAX_NAME_LEN) && Label(f.buildId, MAX_BUILD_ID_LEN)
    && |f.pcs| <= MAX_PC_COUNT && |f.stack| <= MAX_STACK_PREVIEW && |f.preview| <= MAX_CODE_PREVIEW
  }

  lemma ValidateExactly(f: MinidumpFrame)
    ensures Validate(f).None? <==> Valid(f)
    ensures Validate(f) == Some(InvalidName) <==> !Label(f.name, 48)
    ensures Validate(f) == Some(InvalidBuildId) <==> Label(f.name, 48) && !Label(f.buildId, 64)
    ensures Validate(f) == Some(OversizeTotalFrame) <==> Label(f.name, 48) && Label(f.buildId, 64) && |f.pcs| > 32
    ensures Validate(f) == Some(OversizeStackPreview) <==>
      Label(f.name, 48) && Label(f.buildId, 64) && |f.pcs| <= 32 && |f.stack| > 4096
    ensures Validate(f) == Some(OversizeCodePreview) <==>
      Label(f.name, 48) && Label(f.buildId, 64) && |f.pcs| <= 32 && |f.stack| <= 4096 && |f.preview| > 256
    ensures Valid(f) ==> HEADER_LEN + BodyLen(f) <= 4752
  {
  }

  // ---------- Header ----------

  datatype Head = Head(buildIdLen: nat, nameLen: nat, pcCount: nat, stackLen: nat, codeLen: nat,
                       pid: u32, code: i32, timestamp: u64, total: nat)

  predicate HeadFits(h: Head) {
    h.buildIdLen < 0x100 && h.nameLen < 0x100 && h.pcCount < 0x100
    && h.stackLen < 0x1_0000 && h.codeLen < 0x1_0000 && h.total < 0x1_0000
  }

  function Unsigned(code: i32): u32 {
    if code < 0 then code + 0x1_0000_0000 else code
  }

  function SignedCode(raw: u32): i32 {
    if raw >= 0x8000_0000 then raw - 0x1_0000_0000 else raw
  }

  /** Fields in wire order; `reserved` is what stands in bytes 28 and 29. */
  function HeadBytes(h: Head, reserved: seq<byte>): seq<byte>
    requires HeadFits(h)
  {
    (MAGIC + [VERSION, h.buildIdLen, h.nameLen, h.pcCount])
    + ((Le(h.stackLen, 2) + Le(h.codeLen, 2))
       + ((Le(h.pid, 4) + Le(Unsigned(h.code), 4))
          + (Le(h.timestamp, 8) + (reserved + Le(h.total, 2)))))
  }

  function ReadHead(b: seq<byte>): (h: Head)
    requires |b| >= HEADER_LEN
    ensures HeadFits(h)
  {
    Powers();
    LeWrites(b[8..10]);
    LeWrites(b[10..12]);
    LeWrites(b[12..16]);
    LeWrites(b[16..20]);
    LeWrites(b[20..28]);
    LeWrites(b[30..32]);
    Head(b[5], b[6], b[7], FromLe(b[8..10]), FromLe(b[10..12]), FromLe(b[12..16]), SignedCode(FromLe(b[16..20])),
         FromLe(b[20..28]), FromLe(b[30..32]))
  }

  predicate Opens(b: seq<byte>) {
    |b| >= HEADER_LEN && b[..4] == MAGIC && b[4] == VERSION
  }

  /** The pieces of a header, found again at their offsets. */
  lemma HeadPieces(h: Head, reserved: seq<byte>, body: seq<byte>)
    requires HeadFits(h) && |reserved| == 2
    ensures var b := HeadBytes(h, reserved) + body;
      && |b| == HEADER_LEN + |body| && b[HEADER_LEN..] == body
      && Opens(b) && b[5] == h.buildIdLen && b[6] == h.nameLen && b[7] == h.pcCount
      && b[8..10] == Le(h.stackLen, 2) && b[10..12] == Le(h.codeLen, 2)
      && b[12..16] == Le(h.pid, 4) && b[16..20] == Le(Unsigned(h.code), 4)
      && b[20..28] == Le(h.timestamp, 8) && b[28..30] == reserved && b[30..32] == Le(h.total, 2)
  {
    hide Le;
    var e4 := reserved + Le(h.total, 2);
    var e3 := Le(h.timestamp, 8) + e4;
    var p2 := Le(h.pid, 4) + Le(Unsigned(h.code), 4);
    var e2 := p2 + e3;
    var p1 := Le(h.stackLen, 2) + Le(h.codeLen, 2);
    var e1 := p1 + e2;
    var p0 := MAGIC + [VERSION, h.buildIdLen, h.nameLen, h.pcCount];
    assert HeadBytes(h, reserved) == p0 + e1;
    var b := HeadBytes(h, reserved) + body;
    assert b == p0 + (e1 + body);
    assert e1 + body == p1 + (e2 + body);
    assert e2 + body == p2 + (e3 + body);
    assert e3 + body == Le(h.timestamp, 8) + (e4 + body);
    assert e4 + body == reserved + (Le(h.total, 2) + body);
  }

  lemma HeadReads(h: Head, reserved: seq<byte>, body: seq<byte>)
    requires HeadFits(h) && |reserved| == 2
    ensures |HeadBytes(h, reserved) + body| >= HEADER_LEN && ReadHead(HeadBytes(h, reserved) + body) == h
  {
    hide Le, FromLe, HeadBytes;
    HeadPieces(h, reserved, body);
    Powers();
    LeReads(h.stackLen, 2);
    LeReads(h.codeLen, 2);
    LeReads(h.pid, 4);
    LeReads(Unsigned(h.code), 4);
    LeReads(h.timestamp, 8);
    LeReads(h.total, 2);
  }

  lemma HeadWrites(b: seq<byte>)
    requires Opens(b)
    ensures b == HeadBytes(ReadHead(b), b[28..30]) + b[HEADER_LEN..]
  {
    hide Le, FromLe;
    var h := ReadHead(b);
    LeWrites(b[8..10]);
    LeWrites(b[10..12]);
    LeWrites(b[12..16]);
    LeWrites(b[16..20]);
    LeWrites(b[20..28]);
    LeWrites(b[30..32]);
    assert Unsigned(h.code) == FromLe(b[16..20]);
    assert b[..8] == MAGIC + [VERSION, h.buildIdLen, h.nameLen, h.pcCount];
    assert b[8..12] == b[8..10] + b[10..12];
    assert b[12..20] == b[12..16] + b[16..20];
    assert b[28..32] == b[28..30] + b[30..32];
    assert b == b[..8] + (b[8..12] + (b[12..20] + (b[20..28] + b[28..32]))) + b[HEADER_LEN..];
  }

  // ---------- Body ----------

  function PcBytes(pcs: seq<u64>): (b: seq<byte>)
    ensures |b| == 8 * |pcs|
  {
    if pcs == [] then [] else Le(pcs[0], 8) + PcBytes(pcs[1..])
  }

  function Pc(b: seq<byte>): u64
    requires |b| == 8
  {
    Powers();
    LeWrites(b);
    FromLe(b)
  }

  function ReadPcs(b: seq<byte>, n: nat): (pcs: seq<u64>)
    requires |b| == 8 * n
    ensures |pcs| == n
  {
    if n == 0 then [] else [Pc(b[..8])] + ReadPcs(b[8..], n - 1)
  }

  lemma {:induction false} PcsRead(pcs: seq<u64>)
    ensures ReadPcs(PcBytes(pcs), |pcs|) == pcs
    decreases |pcs|
  {
    hide Le, FromLe;
    if pcs != [] {
      PcsRead(pcs[1..]);
      Powers();
      LeReads(pcs[0], 8);
      var b := PcBytes(pcs);
      assert b[..8] == Le(pcs[0], 8) && b[8..] == PcBytes(pcs[1..]);
      assert [pcs[0]] + pcs[1..] == pcs;
    }
  }

  lemma {:induction false} PcsWrite(b: seq<byte>, n: nat)
    requires |b| == 8 * n
    ensures PcBytes(ReadPcs(b, n)) == b
    decreases n
  {
    hide Le, FromLe;
    if n > 0 {
      PcsWrite(b[8..], n - 1);
      LeWrites(b[..8]);
      var pcs := ReadPcs(b, n);
      assert pcs[1..] == ReadPcs(b[8..], n - 1);
      assert b == b[..8] + b[8..];
    }
  }

  function BodyBytes(f: MinidumpFrame): seq<byte> {
    f.buildId + (f.name + (PcBytes(f.pcs) + (f.stack + f.preview)))
  }

  function HeadOf(f: MinidumpFrame): Head {
    Head(|f.buildId|, |f.name|, |f.pcs|, |f.stack|, |f.preview|, f.pid, f.code, f.timestamp, HEADER_LEN + BodyLen(f))
  }

  /** The bytes of a valid frame. */
  function Encoded(f: MinidumpFrame): seq<byte>
    requires Valid(f)
  {
    HeadBytes(HeadOf(f), [0, 0]) + BodyBytes(f)
  }

  /** The first reason to refuse a header, in the decoder's order. */
  function HeadError(h: Head, size: nat): Option<CrashError> {
    if h.total != size || h.total > MAX_TOTAL_FRAME then Some(OversizeTotalFrame)
    else if h.buildIdLen == 0 || h.buildIdLen > MAX_BUILD_ID_LEN then Some(MalformedHeader)
    else if h.nameLen == 0 || h.nameLen > MAX_NAME_LEN then Some(MalformedHeader)
    else if h.pcCount > MAX_PC_COUNT then Some(MalformedHeader)
    else if h.stackLen > MAX_STACK_PREVIEW then Some(OversizeStackPreview)
    else if h.codeLen > MAX_CODE_PREVIEW then Some(OversizeCodePreview)
    else if HEADER_LEN + h.buildIdLen + h.nameLen + h.pcCount * 8 + h.stackLen + h.codeLen != size then Some(TruncatedFrame)
    else None
  }

  /** The frame made of given pieces, once validated. */
  function Checked(f: MinidumpFrame): Result<MinidumpFrame, CrashError> {
    match Validate(f)
    case Some(e) => Err(e)
    case None => Ok(f)
  }

  /** The body cut at the lengths the header gives. */
  function ReadBody(h: Head, body: seq<byte>): Result<MinidumpFrame, CrashError>
    requires |body| == h.buildIdLen + h.nameLen + h.pcCount * 8 + h.stackLen + h.codeLen
  {
    var i := h.buildIdLen;
    var j := i + h.nameLen;
    var k := j + h.pcCount * 8;
    var m := k + h.stackLen;
    if !Utf8.Valid(body[0..i]) || !Utf8.Valid(body[i..j]) then Err(MalformedHeader)
    else
      Checked(MinidumpFrame(h.timestamp, h.pid, h.code, body[i..j], body[0..i], ReadPcs(body[j..k], h.pcCount), body[k..m],
        body[m..m + h.codeLen]))
  }

  function Decoded(b: seq<byte>): Result<MinidumpFrame, CrashError> {
    if |b| < HEADER_LEN || b[..4] != MAGIC then Err(MalformedHeader)
    else if b[4] != VERSION then Err(UnsupportedVersion)
    else
      var h := ReadHead(b);
      if HeadError(h, |b|).Some? then Err(HeadError(h, |b|).value) else ReadBody(h, b[HEADER_LEN..])
  }

  lemma CheckedOk(f: MinidumpFrame)
    ensures Checked(f).Ok? <==> Valid(f)
    ensures Checked(f).Ok? ==> Checked(f).value == f
  {
    ValidateExactly(f);
  }

  lemma Cut(x: seq<byte>, y: seq<byte>, lo: nat, hi: nat)
    requires lo <= hi <= |y|
    ensures (x + y)[|x| + lo..|x| + hi] == y[lo..hi] && (x + y)[0..|x|] == x
  {
  }

  lemma Pieces(a: seq<byte>, b: seq<byte>, c: seq<byte>, d: seq<byte>, e: seq<byte>)
    ensures var s := a + (b + (c + (d + e)));
      var i, j, k, m := |a|, |a| + |b|, |a| + |b| + |c|, |a| + |b| + |c| + |d|;
      && |s| == m + |e| && s[0..i] == a && s[i..j] == b && s[j..k] == c && s[k..m] == d && s[m..m + |e|] == e
  {
    var s3 := d + e;
    var s2 := c + s3;
    var s1 := b + s2;
    Cut(a, s1, 0, |b|);
    Cut(b, s2, 0, |c|);
    Cut(a, s1, |b|, |b| + |c|);
    Cut(c, s3, 0, |d|);
    Cut(b, s2, |c|, |c| + |d|);
    Cut(a, s1, |b| + |c|, |b| + |c| + |d|);
    Cut(d, e, 0, |e|);
    Cut(c, s3, |d|, |d| + |e|);
    Cut(b, s2, |c| + |d|, |c| + |d| + |e|);
    Cut(a, s1, |b| + |c| + |d|, |b| + |c| + |d| + |e|);
    assert e[0..|e|] == e;
  }

  lemma BodyReads(f: MinidumpFrame)
    requires Valid(f)
    ensures |BodyBytes(f)| == BodyLen(f) && ReadBody(HeadOf(f), BodyBytes(f)) == Ok(f)
  {
    hide PcBytes, ReadPcs, Utf8.Valid, Label, Checked;
    Pieces(f.buildId, f.name, PcBytes(f.pcs), f.stack, f.preview);
    PcsRead(f.pcs);
    CheckedOk(f);
  }

  /** Every valid frame is read back from its bytes. */
  lemma DecodesEncoded(f: MinidumpFrame)
    requires Valid(f)
    ensures Decoded(Encoded(f)) == Ok(f)
  {
    hide HeadBytes, BodyBytes, ReadBody, ReadHead, Label;
    ValidateExactly(f);
    Lengths(f);
    BodyReads(f);
    HeadReads(HeadOf(f), [0, 0], BodyBytes(f));
    HeadPieces(HeadOf(f), [0, 0], BodyBytes(f));
  }

  lemma Lengths(f: MinidumpFrame)
    requires Valid(f)
    ensures 1 <= |f.name| <= MAX_NAME_LEN && 1 <= |f.buildId| <= MAX_BUILD_ID_LEN && HeadFits(HeadOf(f))
  {
  }

  lemma BodyWrites(h: Head, body: seq<byte>)
    requires |body| == h.buildIdLen + h.nameLen + h.pcCount * 8 + h.stackLen + h.codeLen
    requires ReadBody(h, body).Ok? && h.total == HEADER_LEN + |body|
    ensures var f := ReadBody(h, body).value; Valid(f) && HeadOf(f) == h && BodyBytes(f) == body
  {
    hide PcBytes, ReadPcs, Utf8.Valid, Valid, Checked;
    var i := h.buildIdLen;
    var j := i + h.nameLen;
    var k := j + h.pcCount * 8;
    var m := k + h.stackLen;
    var f := MinidumpFrame(h.timestamp, h.pid, h.code, body[i..j], body[0..i], ReadPcs(body[j..k], h.pcCount), body[k..m],
      body[m..m + h.codeLen]);
    CheckedOk(f);
    PcsWrite(body[j..k], h.pcCount);
    Chopped(body, i, j, k, m);
  }

  lemma Chopped(b: seq<byte>, i: nat, j: nat, k: nat, m: nat)
    requires i <= j <= k <= m <= |b|
    ensures b == b[0..i] + (b[i..j] + (b[j..k] + (b[k..m] + b[m..|b|])))
  {
    assert b[k..] == b[k..m] + b[m..|b|];
    assert b[j..] == b[j..k] + b[k..];
    assert b[i..] == b[i..j] + b[j..];
  }

  /** Whatever decodes is a valid frame, and encoding it gives the input with the two reserved
      bytes cleared. */
  lemma EncodesDecoded(b: seq<byte>)
    requires Decoded(b).Ok?
    ensures |b| >= HEADER_LEN
    ensures Valid(Decoded(b).value) && Encoded(Decoded(b).value) == b[..28] + [0, 0] + b[30..]
  {
    hide HeadBytes, BodyBytes, ReadBody, ReadHead, Valid;
    HeadWrites(b);
    var h := ReadHead(b);
    BodyWrites(h, b[HEADER_LEN..]);
    Cleared(h, b[28..30], b[HEADER_LEN..]);
  }

  lemma Cleared(h: Head, reserved: seq<byte>, body: seq<byte>)
    requires HeadFits(h) && |reserved| == 2
    ensures var b := HeadBytes(h, reserved) + body;
      |b| >= HEADER_LEN && HeadBytes(h, [0, 0]) + body == b[..28] + [0, 0] + b[30..]
  {
    hide Le;
    var front := (MAGIC + [VERSION, h.buildIdLen, h.nameLen, h.pcCount]) + ((Le(h.stackLen, 2) + Le(h.codeLen, 2))
      + ((Le(h.pid, 4) + Le(Unsigned(h.code), 4)) + Le(h.timestamp, 8)));
    assert HeadBytes(h, reserved) + body == front + reserved + (Le(h.total, 2) + body);
    assert HeadBytes(h, [0, 0]) + body == front + [0, 0] + (Le(h.total, 2) + body);
  }

  /** Where every field of a valid frame stands in its header; numbers are little-endian. */
  lemma HeadLayout(f: MinidumpFrame)
    requires Valid(f)
    ensures var b := Encoded(f);
      && |b| == 32 + |f.buildId| + |f.name| + 8 * |f.pcs| + |f.stack| + |f.preview|
      && b[..4] == [0x4E, 0x4D, 0x44, 0x31] && b[4] == 1 && b[5] == |f.buildId| && b[6] == |f.name| && b[7] == |f.pcs|
      && FromLe(b[8..10]) == |f.stack| && FromLe(b[10..12]) == |f.preview| && FromLe(b[12..16]) == f.pid
      && FromLe(b[16..20]) == (if f.code < 0 then f.code + TWO32 else f.code)
      && FromLe(b[20..28]) == f.timestamp && b[28..30] == [0, 0] && FromLe(b[30..32]) == |b|
  {
    hide Le, FromLe, HeadBytes, PcBytes, Label;
    ValidateExactly(f);
    Lengths(f);
    var h := HeadOf(f);
    HeadPieces(h, [0, 0], BodyBytes(f));
    Powers();
    LeReads(h.stackLen, 2);
    LeReads(h.codeLen, 2);
    LeReads(h.pid, 4);
    LeReads(Unsigned(h.code), 4);
    LeReads(h.timestamp, 8);
    LeReads(h.total, 2);
  }

  /** Build id, name, program counters and the two previews follow it, one behind the other. */
  lemma BodyLayout(f: MinidumpFrame)
    requires Valid(f)
    ensures |Encoded(f)| == 32 + |f.buildId| + |f.name| + 8 * |f.pcs| + |f.stack| + |f.preview|
    ensures var body, j := Encoded(f)[32..], |f.buildId| + |f.name|;
      var k := j + 8 * |f.pcs|;
      && body[..|f.buildId|] == f.buildId && body[|f.buildId|..j] == f.name
      && body[k..k + |f.stack|] == f.stack && body[k + |f.stack|..] == f.preview
      && forall n :: 0 <= n < |f.pcs| ==> FromLe(body[j..k][8 * n..8 * n + 8]) == f.pcs[n]
  {
    hide Le, FromLe, HeadBytes, PcBytes, Label;
    Lengths(f);
    HeadPieces(HeadOf(f), [0, 0], BodyBytes(f));
    Pieces(f.buildId, f.name, PcBytes(f.pcs), f.stack, f.preview);
    forall n | 0 <= n < |f.pcs|
      ensures FromLe(PcBytes(f.pcs)[8 * n..8 * n + 8]) == f.pcs[n]
    {
      PcAt(f.pcs, n);
    }
  }

  lemma {:induction false} PcAt(pcs: seq<u64>, n: nat)
    requires n < |pcs|
    ensures FromLe(PcBytes(pcs)[8 * n..8 * n + 8]) == pcs[n]
    decreases n
  {
    hide Le, FromLe;
    Powers();
    LeReads(pcs[0], 8);
    var b := PcBytes(pcs);
    assert b[0..8] == Le(pcs[0], 8) && b[8..] == PcBytes(pcs[1..]);
    if n > 0 {
      PcAt(pcs[1..], n - 1);
      assert b[8 * n..8 * n + 8] == b[8..][8 * (n - 1)..8 * (n - 1) + 8];
    }
  }

  /** Bytes 28 and 29 make no difference to the decoder, in what it accepts and in what it says. */
  lemma ReservedIgnored(b: seq<byte>)
    requires |b| >= 32
    ensures Decoded(b) == Decoded(b[..28] + [0, 0] + b[30..])
  {
    hide FromLe, ReadBody, HeadError;
    var c := b[..28] + [0, 0] + b[30..];
    assert c[..4] == b[..4] && c[8..10] == b[8..10] && c[10..12] == b[10..12] && c[12..16] == b[12..16];
    assert c[16..20] == b[16..20] && c[20..28] == b[20..28] && c[30..32] == b[30..32] && c[32..] == b[32..];
  }

  /** The decoder accepts exactly the encodings of valid frames, whatever their two reserved bytes. */
  lemma AcceptsExactly(b: seq<byte>)
    ensures Decoded(b).Ok? <==>
      |b| >= 32 && exists f: MinidumpFrame :: Valid(f) && Encoded(f) == b[..28] + [0, 0] + b[30..]
  {
    hide Decoded, Encoded, Valid;
    if Decoded(b).Ok? {
      EncodesDecoded(b);
    } else if |b| >= 32 {
      ReservedIgnored(b);
      if f: MinidumpFrame :| Valid(f) && Encoded(f) == b[..28] + [0, 0] + b[30..] {
        DecodesEncoded(f);
      }
    }
  }

  /** What is refused, and why, by the bytes: the first rule that is broken decides. */
  lemma Refusals(b: seq<byte>)
    ensures |b| < 32 || b[..4] != [0x4E, 0x4D, 0x44, 0x31] ==> Decoded(b) == Err(MalformedHeader)
    ensures |b| >= 32 && b[..4] == [0x4E, 0x4D, 0x44, 0x31] ==>
      if b[4] != 1 then Decoded(b) == Err(UnsupportedVersion)
      else if FromLe(b[30..32]) != |b| || |b| > 8192 then Decoded(b) == Err(OversizeTotalFrame)
      else if !(1 <= b[5] <= 64 && 1 <= b[6] <= 48 && b[7] <= 32) then Decoded(b) == Err(MalformedHeader)
      else if FromLe(b[8..10]) > 4096 then Decoded(b) == Err(OversizeStackPreview)
      else if FromLe(b[10..12]) > 256 then Decoded(b) == Err(OversizeCodePreview)
      else
        |b| != 32 + (b[5] as int) + (b[6] as int) + 8 * (b[7] as int) + FromLe(b[8..10]) + FromLe(b[10..12]) ==>
          Decoded(b) == Err(TruncatedFrame)
  {
    hide FromLe, ReadBody;
  }

  // ---------- The calls ----------

  lemma {:induction false} PcBytesAppend(pcs: seq<u64>, pc: u64)
    ensures PcBytes(pcs + [pc]) == PcBytes(pcs) + Le(pc, 8)
    decreases |pcs|
  {
    hide Le;
    if pcs == [] {
      assert (pcs + [pc])[1..] == [];
    } else {
      PcBytesAppend(pcs[1..], pc);
      assert (pcs + [pc])[1..] == pcs[1..] + [pc];
    }
  }

  lemma {:induction false} ReadPcsAppend(front: seq<byte>, last: seq<byte>, n: nat)
    requires |front| == 8 * n && |last| == 8
    ensures ReadPcs(front + last, n + 1) == ReadPcs(front, n) + [Pc(last)]
    decreases n
  {
    hide Pc;
    var b := front + last;
    if n == 0 {
      assert b == last && b[..8] == last;
    } else {
      ReadPcsAppend(front[8..], last, n - 1);
      assert b[8..] == front[8..] + last;
      assert b[..8] == front[..8];
    }
  }

  method EncodeHead(h: Head) returns (out: seq<byte>)
    requires HeadFits(h)
    ensures out == HeadBytes(h, [0, 0])
  {
    hide Le;
    out := MAGIC + [VERSION, h.buildIdLen, h.nameLen, h.pcCount];
    out := out + Le(h.stackLen, 2) + Le(h.codeLen, 2);
    out := out + Le(h.pid, 4) + Le(Unsigned(h.code), 4);
    out := out + Le(h.timestamp, 8) + [0, 0] + Le(h.total, 2);
    HeadFlat(h, [0, 0]);
  }

  /** Encoding succeeds exactly on valid frames and otherwise returns the validation error. */
  method Encode(f: MinidumpFrame) returns (r: Result<seq<byte>, CrashError>)
    ensures Valid(f) ==> r == Ok(Encoded(f))
    ensures !Valid(f) ==> Validate(f).Some? && r == Err(Validate(f).value)
  {
    ValidateExactly(f);
    if Validate(f).Some? {
      return Err(Validate(f).value);
    }
    Lengths(f);
    hide Le, Valid, HeadBytes;
    var out := EncodeHead(HeadOf(f));
    ghost var head := out;
    out := out + f.buildId + f.name;
    ghost var front := out;
    for i := 0 to |f.pcs|
      invariant out == front + PcBytes(f.pcs[..i])
    {
      out := out + Le(f.pcs[i], 8);
      assert f.pcs[..i + 1] == f.pcs[..i] + [f.pcs[i]];
      PcBytesAppend(f.pcs[..i], f.pcs[i]);
    }
    assert f.pcs[..|f.pcs|] == f.pcs;
    out := out + f.stack + f.preview;
    BodyFlat(f, head);
    r := Ok(out);
  }

  lemma HeadFlat(h: Head, reserved: seq<byte>)
    requires HeadFits(h)
    ensures HeadBytes(h, reserved) ==
      MAGIC + [VERSION, h.buildIdLen, h.nameLen, h.pcCount] + Le(h.stackLen, 2) + Le(h.codeLen, 2) + Le(h.pid, 4)
      + Le(Unsigned(h.code), 4) + Le(h.timestamp, 8) + reserved + Le(h.total, 2)
  {
    hide Le;
  }

  lemma BodyFlat(f: MinidumpFrame, head: seq<byte>)
    ensures head + f.buildId + f.name + PcBytes(f.pcs) + f.stack + f.preview == head + BodyBytes(f)
  {
    hide PcBytes;
  }

  lemma PastHeader(b: seq<byte>, lo: nat, hi: nat)
    requires HEADER_LEN <= lo <= hi <= |b|
    ensures b[lo..hi] == b[HEADER_LEN..][lo - HEADER_LEN..hi - HEADER_LEN]
  {
  }

  /** The cursor walk over the body gives the pieces between the header's lengths. */
  method DecodeBody(b: seq<byte>, h: Head) returns (r: Result<MinidumpFrame, CrashError>)
    requires |b| == HEADER_LEN + h.buildIdLen + h.nameLen + h.pcCount * 8 + h.stackLen + h.codeLen
    ensures r == ReadBody(h, b[HEADER_LEN..])
  {
    hide Checked, Utf8.Valid, ReadPcs;
    var off := HEADER_LEN;
    var buildId := b[off..off + h.buildIdLen];
    PastHeader(b, off, off + h.buildIdLen);
    off := off + h.buildIdLen;
    var name := b[off..off + h.nameLen];
    PastHeader(b, off, off + h.nameLen);
    if !Utf8.Valid(buildId) || !Utf8.Valid(name) {
      return Err(MalformedHeader);
    }
    off := off + h.nameLen;
    var pcs := DecodePcs(b, off, h.pcCount);
    PastHeader(b, off, off + 8 * h.pcCount);
    off := off + 8 * h.pcCount;
    var stack := b[off..off + h.stackLen];
    PastHeader(b, off, off + h.stackLen);
    off := off + h.stackLen;
    var preview := b[off..off + h.codeLen];
    PastHeader(b, off, |b|);
    r := Checked(MinidumpFrame(h.timestamp, h.pid, h.code, name, buildId, pcs, stack, preview));
  }

  method DecodePcs(b: seq<byte>, start: nat, count: nat) returns (pcs: seq<u64>)
    requires start + 8 * count <= |b|
    ensures pcs == ReadPcs(b[start..start + 8 * count], count)
  {
    hide Pc;
    var off := start;
    pcs := [];
    for i := 0 to count
      invariant off == start + 8 * i
      invariant pcs == ReadPcs(b[start..off], i)
    {
      pcs := pcs + [Pc(b[off..off + 8])];
      ReadPcsAppend(b[start..off], b[off..off + 8], i);
      assert b[start..off + 8] == b[start..off] + b[off..off + 8];
      off := off + 8;
    }
  }

  method Decode(b: seq<byte>) returns (r: Result<MinidumpFrame, CrashError>)
    ensures r == Decoded(b)
  {
    hide ReadBody;
    if |b| < HEADER_LEN || b[0..4] != MAGIC {
      return Err(MalformedHeader);
    }
    if b[4] != VERSION {
      return Err(UnsupportedVersion);
    }
    var h := ReadHead(b);
    if HeadError(h, |b|).Some? {
      return Err(HeadError(h, |b|).value);
    }
    r := DecodeBody(b, h);
  }

  ghost predicate Labels(name: seq<byte>, buildId: seq<byte>) {
    Label(name, MAX_NAME_LEN) && Label(buildId, MAX_BUILD_ID_LEN)
  }

  /** The demo's crash: pid 0, exit code 42, time 0, and nothing but the two labels. */
  ghost function DemoFrame(name: seq<byte>, buildId: seq<byte>): (f: MinidumpFrame)
    requires Labels(name, buildId)
    ensures Valid(f)
  {
    AsciiIsValid(name);
    AsciiIsValid(buildId);
    MinidumpFrame(0, 0, 42, name, buildId, [], [], [])
  }

  lemma DemoHead(name: seq<byte>, buildId: seq<byte>, head: seq<byte>)
    requires Labels(name, buildId)
    requires head == MAGIC + [VERSION, |buildId|, |name|, 0] + Le(0, 2) + Le(0, 2) + Le(0, 4) + Le(42, 4) + Le(0, 8)
                     + [0, 0] + Le(32 + |buildId| + |name|, 2)
    ensures head + buildId + name == Encoded(DemoFrame(name, buildId))
  {
    hide Le, Label, Labels, HeadBytes, BodyBytes, DemoFrame, HeadOf, HeadFits, Valid;
    var f := DemoFrame(name, buildId);
    DemoBody(name, buildId);
    HeadFlat(HeadOf(f), [0, 0]);
    assert HeadBytes(HeadOf(f), [0, 0]) == head;
    Regrouped(head, buildId, name);
  }

  lemma Regrouped(a: seq<byte>, b: seq<byte>, c: seq<byte>)
    ensures a + b + c == a + (b + c)
  {
  }

  lemma DemoBody(name: seq<byte>, buildId: seq<byte>)
    requires Labels(name, buildId)
    ensures var f := DemoFrame(name, buildId);
      && HeadOf(f) == Head(|buildId|, |name|, 0, 0, 0, 0, 42, 0, 32 + |buildId| + |name|)
      && HeadFits(HeadOf(f)) && BodyBytes(f) == buildId + name
  {
  }

  /** The demo payload's writer agrees with `encode` on every valid name and build id. */
  method BuildMinidumpValue(name: seq<byte>, buildId: seq<byte>) returns (out: seq<byte>)
    ensures Labels(name, buildId) ==> out == Encoded(DemoFrame(name, buildId))
  {
    hide Le;
    var total := 32 + |buildId| + |name|;
    out := [0x4E, 0x4D, 0x44, 0x31] + [1, |buildId| % 256, |name| % 256, 0];
    out := out + Le(0, 2) + Le(0, 2);
    out := out + Le(0, 4) + Le(42, 4) + Le(0, 8);
    out := out + Le(0, 2) + Le(total, 2);
    ghost var head := out;
    out := out + buildId + name;
    if Labels(name, buildId) {
      assert Le(0, 2) == [0, 0] by { ZeroBytes(); }
      DemoHead(name, buildId, head);
    }
  }

  lemma ZeroBytes()
    ensures Le(0, 2) == [0, 0]
  {
  }
}
