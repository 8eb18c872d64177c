/** The file service's side of a request: how it cuts a frame into operation, key and value, and
    the status frame it answers with. */
module Statefs {
  import opened Bytes
  import opened Results
  import opened Utf8
  import opened Words

  const MAGIC0: byte := 0x53
  const MAGIC1: byte := 0x46
  const VERSION: byte := 1
  const VERSION_V2: byte := 2
  const OP_PUT: byte := 1
  const STATUS_OK: byte := 0
  const STATUS_VALUE_TOO_LARGE: byte := 3
  const STATUS_KEY_TOO_LONG: byte := 4
  const STATUS_MALFORMED: byte := 6
  const MAX_KEY_LEN := 255
  const MAX_VALUE_SIZE := 65_536

  /** A request to store a value, or the payload of another operation, which is not cut further. */
  datatype Request = Put(key: Text, value: seq<byte>) | Other(op: byte, payload: seq<byte>)

  // ---------- Decoding ----------

  function DecodePut(payload: seq<byte>): Result<Request, byte> {
    if |payload| < 6 then Err(STATUS_MALFORMED)
    else
      var keyLen, valLen := FromLe(payload[0..2]), FromLe(payload[2..6]);
      if keyLen == 0 then Err(STATUS_MALFORMED)
      else if keyLen > MAX_KEY_LEN then Err(STATUS_KEY_TOO_LONG)
      else if valLen > MAX_VALUE_SIZE then Err(STATUS_VALUE_TOO_LARGE)
      else if |payload| != 6 + keyLen + valLen then Err(STATUS_MALFORMED)
      else
        var key := payload[6..6 + keyLen];
        if Valid(key) then Ok(Put(key, payload[6 + keyLen..])) else Err(STATUS_MALFORMED)
  }

  function DecodeOp(op: byte, payload: seq<byte>): Result<Request, byte> {
    if op == OP_PUT then DecodePut(payload) else Ok(Other(op, payload))
  }

  /** A request, with the nonce that version 2 carries in front of the payload. */
  function DecodeRequest(frame: seq<byte>): Result<(Request, Option<nat>), byte> {
    if |frame| < 4 || frame[0] != MAGIC0 || frame[1] != MAGIC1 then Err(STATUS_MALFORMED)
    else if frame[2] == VERSION then (var r :- DecodeOp(frame[3], frame[4..]); Ok((r, None)))
    else if frame[2] == VERSION_V2 && |frame| >= 12 then
      (var r :- DecodeOp(frame[3], frame[12..]); Ok((r, Some(FromLe(frame[4..12])))))
    else Err(STATUS_MALFORMED)
  }

  // ---------- What a client writes ----------

  function PutRequest(key: seq<byte>, value: seq<byte>): (r: seq<byte>)
    ensures |r| == 10 + |key| + |value|
  {
    [0x53, 0x46, 1, 1] + (Le(|key|, 2) + (Le(|value|, 4) + (key + value)))
  }

  lemma PutPieces(key: seq<byte>, value: seq<byte>)
    ensures var p := PutRequest(key, value)[4..];
      && |p| == 6 + |key| + |value| && p[0..2] == Le(|key|, 2) && p[2..6] == Le(|value|, 4)
      && p[6..6 + |key|] == key && p[6 + |key|..] == value
  {
    hide Le;
    var body := key + value;
    var sized := Le(|value|, 4) + body;
    var p := Le(|key|, 2) + sized;
    assert PutRequest(key, value)[4..] == p;
    assert p[2..6] == sized[0..4] && p[6..] == body;
    assert p[6..6 + |key|] == body[..|key|] && p[6 + |key|..] == body[|key|..];
  }

  lemma PutIsRead(key: Text, value: seq<byte>)
    requires 1 <= |key| <= MAX_KEY_LEN && |value| <= MAX_VALUE_SIZE
    ensures DecodeRequest(PutRequest(key, value)) == Ok((Put(key, value), None))
  {
    hide Le, FromLe, Valid;
    Powers();
    LeReads(|key|, 2);
    LeReads(|value|, 4);
    PutPieces(key, value);
  }

  lemma PutPayload(payload: seq<byte>)
    requires DecodePut(payload).Ok?
    ensures var r := DecodePut(payload).value;
      && r.Put? && 1 <= |r.key| <= MAX_KEY_LEN && |r.value| <= MAX_VALUE_SIZE
      && payload == Le(|r.key|, 2) + (Le(|r.value|, 4) + (r.key + r.value))
  {
    hide Le, FromLe, Valid;
    LeWrites(payload[0..2]);
    LeWrites(payload[2..6]);
    var n := 6 + FromLe(payload[0..2]);
    assert payload[6..] == payload[6..n] + payload[n..];
    assert payload == payload[0..2] + (payload[2..6] + payload[6..]);
  }

  lemma OnlyPuts(op: byte, payload: seq<byte>)
    requires DecodeOp(op, payload).Ok? && DecodeOp(op, payload).value.Put?
    ensures op == OP_PUT && DecodePut(payload).Ok? && DecodePut(payload) == DecodeOp(op, payload)
  {
  }

  /** The service takes a frame for storing `value` under `key`, without a nonce, if and only if it
      is the request a client writes for them, and both are within the service's limits. */
  lemma PutReadsExactly(frame: seq<byte>, key: Text, value: seq<byte>)
    ensures DecodeRequest(frame) == Ok((Put(key, value), None)) <==>
      1 <= |key| <= 255 && |value| <= 65_536 && frame == PutRequest(key, value)
  {
    hide DecodeOp, Le, Valid;
    if 1 <= |key| <= 255 && |value| <= 65_536 {
      PutIsRead(key, value);
    }
    if DecodeRequest(frame) == Ok((Put(key, value), None)) {
      OnlyPuts(frame[3], frame[4..]);
      PutPayload(frame[4..]);
      assert frame == [frame[0], frame[1], frame[2], frame[3]] + frame[4..];
    }
  }

  // ---------- The answer ----------

  /** `op | 0x80` for an operation code, which is below 128. */
  function StatusResponse(op: byte, status: byte): seq<byte>
    requires op < 0x80
  {
    [MAGIC0, MAGIC1, VERSION, op + 0x80, status]
  }
}
