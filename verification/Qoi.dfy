/** The wallpaper codec: a per-row QOI-style encoder with a row offset table, written at build
    time, and the compositor's decoder for a single row. Operations follow the QOI Specification,
    version 1.0, with three channels and the state reset at every row. */
module Qoi {
  import opened Arith
  import opened Results
  import opened Words

  datatype Px = Px(b: byte, g: byte, r: byte)
  const BLACK := Px(0, 0, 0)

  function Hash(p: Px): (h: int)
    ensures 0 <= h < 64
  {
    (p.r * 3 + p.g * 5 + p.b * 7 + 255 * 11) % 64
  }

  type Index = s: seq<Px> | |s| == 64 witness seq(64, _ => BLACK)

  function ZeroIndex(): Index {
    seq(64, _ => BLACK)
  }

  // ---------- Encoding a row ----------

  /** `wrapping_sub` read as a signed byte. */
  function Delta(to: byte, from: byte): (d: int)
    ensures -128 <= d <= 127
    ensures (from + d) % 256 == to
  {
    (to - from + 128) % 256 - 128
  }

  predicate Small(d: int) { -2 <= d <= 1 }

  /** The bytes for a pixel that is neither a repeat nor in the index. */
  function ColorOp(prev: Px, px: Px): (op: seq<byte>)
    ensures 1 <= |op| <= 4 && op[0] >= 64
  {
    var db, dg, dr := Delta(px.b, prev.b), Delta(px.g, prev.g), Delta(px.r, prev.r);
    if Small(dr) && Small(dg) && Small(db) then
      [64 + (dr + 2) * 16 + (dg + 2) * 4 + (db + 2)]
    else if -32 <= dg <= 31 && -8 <= dr - dg <= 7 && -8 <= db - dg <= 7 then
      [128 + (dg + 32), (dr - dg + 8) * 16 + (db - dg + 8)]
    else
      [254, px.r, px.g, px.b]
  }

  function RunOp(run: nat): seq<byte>
    requires run <= 62
  {
    if run > 0 then [192 + (run - 1)] else []
  }

  /** What the encoder still emits from a given state for the pixels that are left. */
  function EncodeFrom(index: Index, prev: Px, run: nat, pixels: seq<Px>): seq<byte>
    requires run < 62
    decreases |pixels|
  {
    if pixels == [] then RunOp(run)
    else
      var px, rest := pixels[0], pixels[1..];
      var h := Hash(px);
      if px == prev then
        if run + 1 == 62 then RunOp(62) + EncodeFrom(index, prev, 0, rest) else EncodeFrom(index, prev, run + 1, rest)
      else if index[h] == px then RunOp(run) + [h] + EncodeFrom(index, px, 0, rest)
      else RunOp(run) + ColorOp(prev, px) + EncodeFrom(index[h := px], px, 0, rest)
  }

  function EncodeRow(pixels: seq<Px>): seq<byte> {
    EncodeFrom(ZeroIndex(), BLACK, 0, pixels)
  }

  // ---------- Decoding a row ----------

  function Repeat(p: Px, n: nat): (s: seq<Px>)
    ensures |s| == n
  {
    seq(n, _ => p)
  }

  function Shift(p: Px, db: int, dg: int, dr: int): Px {
    Px((p.b + db) % 256, (p.g + dg) % 256, (p.r + dr) % 256)
  }

  datatype Op = Color(px: Px, used: nat) | Run(count: nat) | Short

  /** The operation at the front of `bytes`. */
  function NextOp(index: Index, prev: Px, bytes: seq<byte>): (op: Op)
    ensures op.Color? ==> 1 <= op.used <= |bytes|
    ensures op.Run? ==> 1 <= op.count && bytes != []
  {
    if bytes == [] then Short
    else
      var b0: int := bytes[0];
      if b0 == 254 then
        if |bytes| < 4 then Short else Color(Px(bytes[3], bytes[2], bytes[1]), 4)
      else if b0 < 64 then Color(index[b0], 1)
      else if b0 < 128 then Color(Shift(prev, b0 % 4 - 2, b0 / 4 % 4 - 2, b0 / 16 % 4 - 2), 1)
      else if b0 < 192 then
        if |bytes| < 2 then Short
        else
          var b1: int, dg := bytes[1], b0 % 64 - 32;
          Color(Shift(prev, dg + b1 % 16 - 8, dg, dg + b1 / 16 - 8), 2)
      else Run(b0 % 64 + 1)
  }

  function Prepend(front: seq<Px>, tail: Option<seq<Px>>): Option<seq<Px>> {
    if tail.None? then None else Some(front + tail.value)
  }

  function Min(a: nat, b: nat): nat { if a < b then a else b }

  /** When a decoder stores the pixel it has just produced in the index: after every operation,
      after all but runs, or only after operations that spell out a colour. */
  datatype Stores = Always | NotOnRun | OnlyNewColors

  /** Decode `width` pixels. */
  function DecodeFrom(stores: Stores, index: Index, prev: Px, bytes: seq<byte>, width: nat): Option<seq<Px>>
    decreases width
  {
    if width == 0 then Some([])
    else
      match NextOp(index, prev, bytes)
      case Short => None
      case Run(count) =>
        var n := Min(count, width);
        var index' := if stores.Always? then index[Hash(prev) := prev] else index;
        Prepend(Repeat(prev, n), DecodeFrom(stores, index', prev, bytes[1..], width - n))
      case Color(px, used) =>
        var index' := if stores.OnlyNewColors? && bytes[0] < 64 then index else index[Hash(px) := px];
        Prepend([px], DecodeFrom(stores, index', px, bytes[used..], width - 1))
  }

  /** The compositor's decoder: runs do not store, index hits do. */
  function DecodeRow(bytes: seq<byte>, width: nat): Option<seq<Px>> {
    DecodeFrom(NotOnRun, ZeroIndex(), BLACK, bytes, width)
  }

  // ---------- Decoding inverts encoding ----------

  lemma DiffDigits(a: int, b: int, c: int)
    requires 0 <= a < 4 && 0 <= b < 4 && 0 <= c < 4
    ensures var x := 64 + a * 16 + b * 4 + c; x / 16 % 4 == a && x / 4 % 4 == b && x % 4 == c
  {
    var x := 64 + a * 16 + b * 4 + c;
    assert x / 4 == 16 + a * 4 + b;
    assert x / 16 == 4 + a;
  }

  lemma ShiftBack(prev: Px, px: Px)
    ensures Shift(prev, Delta(px.b, prev.b), Delta(px.g, prev.g), Delta(px.r, prev.r)) == px
  {
  }

  lemma LumaDigits(g: int, x: int, y: int)
    requires 0 <= g < 64 && 0 <= x < 16 && 0 <= y < 16
    ensures (128 + g) % 64 == g && (x * 16 + y) / 16 == x && (x * 16 + y) % 16 == y
  {
  }

  lemma DiffDecodes(index: Index, prev: Px, db: int, dg: int, dr: int, bytes: seq<byte>)
    requires Small(db) && Small(dg) && Small(dr)
    requires bytes != [] && bytes[0] == 64 + (dr + 2) * 16 + (dg + 2) * 4 + (db + 2)
    ensures NextOp(index, prev, bytes) == Color(Shift(prev, db, dg, dr), 1)
  {
    hide Shift;
    DiffDigits(dr + 2, dg + 2, db + 2);
  }

  lemma LumaDecodes(index: Index, prev: Px, db: int, dg: int, dr: int, bytes: seq<byte>)
    requires -32 <= dg <= 31 && -8 <= dr - dg <= 7 && -8 <= db - dg <= 7 && |bytes| >= 2
    requires bytes[0] == 128 + (dg + 32) && bytes[1] == (dr - dg + 8) * 16 + (db - dg + 8)
    ensures NextOp(index, prev, bytes) == Color(Shift(prev, db, dg, dr), 2)
  {
    hide Shift;
    LumaDigits(dg + 32, dr - dg + 8, db - dg + 8);
  }

  lemma ColorOpDecodes(index: Index, prev: Px, px: Px, more: seq<byte>)
    ensures NextOp(index, prev, ColorOp(prev, px) + more) == Color(px, |ColorOp(prev, px)|)
  {
    hide Delta, Shift;
    ShiftBack(prev, px);
    var db, dg, dr := Delta(px.b, prev.b), Delta(px.g, prev.g), Delta(px.r, prev.r);
    var bytes := ColorOp(prev, px) + more;
    if Small(dr) && Small(dg) && Small(db) {
      DiffDecodes(index, prev, db, dg, dr, bytes);
    } else if -32 <= dg <= 31 && -8 <= dr - dg <= 7 && -8 <= db - dg <= 7 {
      LumaDecodes(index, prev, db, dg, dr, bytes);
    }
  }

  lemma PrependNothing(p: Px, tail: Option<seq<Px>>)
    ensures Prepend(Repeat(p, 0), tail) == tail
  {
    if tail.Some? {
      assert Repeat(p, 0) + tail.value == tail.value;
    }
  }

  lemma RunDecodes(stores: Stores, index: Index, prev: Px, run: nat, more: seq<byte>, width: nat)
    requires run <= 62 && run <= width && index[Hash(prev)] == prev
    ensures DecodeFrom(stores, index, prev, RunOp(run) + more, width)
         == Prepend(Repeat(prev, run), DecodeFrom(stores, index, prev, more, width - run))
  {
    hide Hash;
    if run == 0 {
      assert RunOp(run) + more == more;
      PrependNothing(prev, DecodeFrom(stores, index, prev, more, width));
    } else {
      assert NextOp(index, prev, RunOp(run) + more) == Run(run);
      assert (RunOp(run) + more)[1..] == more;
      assert index[Hash(prev) := prev] == index;
    }
  }

  lemma EncodeStep(index: Index, prev: Px, run: nat, pixels: seq<Px>)
    requires run < 62 && pixels != []
    ensures var px, rest := pixels[0], pixels[1..];
      && (px == prev && run < 61 ==> EncodeFrom(index, prev, run, pixels) == EncodeFrom(index, prev, run + 1, rest))
      && (px == prev && run == 61 ==>
            EncodeFrom(index, prev, run, pixels) == [] + RunOp(62) + EncodeFrom(index, prev, 0, rest))
      && (px != prev && index[Hash(px)] == px ==>
            EncodeFrom(index, prev, run, pixels) == RunOp(run) + [Hash(px)] + EncodeFrom(index, px, 0, rest))
      && (px != prev && index[Hash(px)] != px ==>
            EncodeFrom(index, prev, run, pixels)
            == RunOp(run) + ColorOp(prev, px) + EncodeFrom(index[Hash(px) := px], px, 0, rest))
  {
    hide Hash, ColorOp;
    assert [] + RunOp(62) == RunOp(62);
  }

  lemma NoneLeft(stores: Stores, index: Index, prev: Px, bytes: seq<byte>)
    ensures DecodeFrom(stores, index, prev, bytes, 0) == Some([])
  {
  }

  lemma EndDecodes(stores: Stores, index: Index, prev: Px, run: nat)
    requires run < 62 && index[Hash(prev)] == prev
    ensures DecodeFrom(stores, index, prev, EncodeFrom(index, prev, run, []), run) == Some(Repeat(prev, run))
  {
    hide Hash, DecodeFrom;
    RunDecodes(stores, index, prev, run, [], run);
    assert RunOp(run) + [] == RunOp(run);
    NoneLeft(stores, index, prev, []);
    assert Repeat(prev, run) + [] == Repeat(prev, run);
  }

  lemma RepeatShift(p: Px, n: nat, pixels: seq<Px>)
    requires pixels != [] && pixels[0] == p
    ensures Repeat(p, n + 1) + pixels[1..] == Repeat(p, n) + pixels
    ensures Repeat(p, 0) + pixels[1..] == pixels[1..]
  {
  }

  /** From any state the encoder can be in, every decoder rebuilds the pending run and the
      remaining pixels from what the encoder still emits. */
  lemma {:induction false} DecodesFrom(stores: Stores, index: Index, prev: Px, run: nat, pixels: seq<Px>)
    requires run < 62 && index[Hash(prev)] == prev
    ensures DecodeFrom(stores, index, prev, EncodeFrom(index, prev, run, pixels), run + |pixels|)
         == Some(Repeat(prev, run) + pixels)
    decreases |pixels|, 1
  {
    hide Hash, ColorOp, DecodeFrom, EncodeFrom, RunOp, Repeat;
    if pixels == [] {
      EndDecodes(stores, index, prev, run);
      assert Repeat(prev, run) + pixels == Repeat(prev, run);
    } else if pixels[0] != prev {
      ColorDecodes(stores, index, prev, run, pixels);
    } else {
      var rest := pixels[1..];
      EncodeStep(index, prev, run, pixels);
      RepeatShift(prev, run, pixels);
      if run + 1 == 62 {
        DecodesFrom(stores, index, prev, 0, rest);
        RunDecodes(stores, index, prev, 62, EncodeFrom(index, prev, 0, rest), run + |pixels|);
        assert [] + RunOp(62) == RunOp(62);
      } else {
        DecodesFrom(stores, index, prev, run + 1, rest);
      }
    }
  }

  lemma OpDecodes(stores: Stores, index: Index, prev: Px, px: Px, op: seq<byte>, tail: seq<byte>, width: nat)
    requires width > 0
    requires op == if index[Hash(px)] == px then [Hash(px)] else ColorOp(prev, px)
    ensures DecodeFrom(stores, index, prev, op + tail, width)
         == Prepend([px], DecodeFrom(stores, index[Hash(px) := px], px, tail, width - 1))
  {
    hide Hash, ColorOp;
    if index[Hash(px)] != px {
      ColorOpDecodes(index, prev, px, tail);
    }
    assert NextOp(index, prev, op + tail) == Color(px, |op|);
    assert (op + tail)[|op|..] == tail && (op + tail)[0] == op[0];
    assert index[Hash(px)] == px ==> index[Hash(px) := px] == index;
  }

  lemma ColorDecodes(stores: Stores, index: Index, prev: Px, run: nat, pixels: seq<Px>)
    requires run < 62 && index[Hash(prev)] == prev && pixels != [] && pixels[0] != prev
    ensures DecodeFrom(stores, index, prev, EncodeFrom(index, prev, run, pixels), run + |pixels|)
         == Some(Repeat(prev, run) + pixels)
    decreases |pixels|, 0
  {
    hide Hash, ColorOp, DecodeFrom, EncodeFrom, RunOp;
    EncodeStep(index, prev, run, pixels);
    var px, rest := pixels[0], pixels[1..];
    var h := Hash(px);
    var index' := index[h := px];
    var tail := EncodeFrom(index', px, 0, rest);
    var op := if index[h] == px then [h] else ColorOp(prev, px);
    assert index[h] == px ==> index' == index;
    assert RunOp(run) + op + tail == RunOp(run) + (op + tail);
    RunDecodes(stores, index, prev, run, op + tail, run + |pixels|);
    OpDecodes(stores, index, prev, px, op, tail, |pixels|);
    DecodesFrom(stores, index', px, 0, rest);
    assert Repeat(px, 0) + rest == rest;
    assert [px] + rest == pixels;
  }

  /** A row decodes to itself, in the compositor and in decoders that store more or less often:
      a repeated pixel and an index hit are in their slot already. */
  lemma RowRoundTrip(stores: Stores, pixels: seq<Px>)
    ensures DecodeFrom(stores, ZeroIndex(), BLACK, EncodeRow(pixels), |pixels|) == Some(pixels)
    ensures DecodeRow(EncodeRow(pixels), |pixels|) == Some(pixels)
  {
    hide Hash, EncodeFrom, DecodeFrom;
    DecodesFrom(stores, ZeroIndex(), BLACK, 0, pixels);
    DecodesFrom(NotOnRun, ZeroIndex(), BLACK, 0, pixels);
    assert Repeat(BLACK, 0) + pixels == pixels;
  }

  /** No row takes more than four bytes per pixel. */
  lemma {:induction false} EncodedSize(index: Index, prev: Px, run: nat, pixels: seq<Px>)
    requires run < 62
    ensures |EncodeFrom(index, prev, run, pixels)| <= 4 * |pixels| + if run > 0 then 1 else 0
    decreases |pixels|
  {
    hide Hash, ColorOp;
    if pixels != [] {
      var px, rest := pixels[0], pixels[1..];
      if px == prev {
        EncodedSize(index, prev, if run + 1 == 62 then 0 else run + 1, rest);
      } else {
        EncodedSize(index, px, 0, rest);
        EncodedSize(index[Hash(px) := px], px, 0, rest);
      }
    }
  }

  // ---------- Images ----------

  /** The colour of each pixel of a BGRA row; alpha is dropped. */
  function Pixels(row: seq<byte>): (p: seq<Px>)
    requires |row| % 4 == 0
    ensures |p| == |row| / 4
    ensures forall x :: 0 <= x < |p| ==> p[x] == Px(row[4 * x], row[4 * x + 1], row[4 * x + 2])
  {
    seq(|row| / 4, x requires 0 <= x < |row| / 4 => Px(row[4 * x], row[4 * x + 1], row[4 * x + 2]))
  }

  /** The opaque BGRA bytes of a row of pixels. */
  function Opaque(p: seq<Px>): (row: seq<byte>)
    ensures |row| == 4 * |p|
    decreases |p|
  {
    if p == [] then [] else Opaque(p[..|p| - 1]) + [p[|p| - 1].b, p[|p| - 1].g, p[|p| - 1].r, 255]
  }

  lemma RowFits(w: nat, h: nat, y: nat)
    requires y < h
    ensures 0 <= y * w * 4 <= (y + 1) * w * 4 <= h * w * 4 && (y + 1) * w * 4 - y * w * 4 == w * 4
  {
    MulNext(y, w);
    MulOrder(y + 1, h, w);
  }

  function RowBytes(bgra: seq<byte>, w: nat, h: nat, y: nat): (row: seq<byte>)
    requires y < h && h * w * 4 <= |bgra|
    ensures |row| == w * 4
  {
    RowFits(w, h, y);
    bgra[y * w * 4..(y + 1) * w * 4]
  }

  type Row = r: seq<byte> | |r| % 4 == 0

  function RowsOf(bgra: seq<byte>, w: nat, h: nat): (rs: seq<Row>)
    requires h * w * 4 <= |bgra|
    ensures |rs| == h
    ensures forall y :: 0 <= y < h ==> rs[y] == RowBytes(bgra, w, h, y)
  {
    seq(h, y requires 0 <= y < h => RowBytes(bgra, w, h, y))
  }

  /** Encoded rows, back to back. */
  function Encoded(rs: seq<Row>): seq<byte>
    decreases |rs|
  {
    if rs == [] then [] else Encoded(rs[..|rs| - 1]) + EncodeRow(Pixels(rs[|rs| - 1]))
  }

  method EncodePixels(data0: seq<byte>, row: seq<byte>) returns (data: seq<byte>)
    requires |row| % 4 == 0
    ensures data == data0 + EncodeRow(Pixels(row))
  {
    hide Hash, ColorOp, Pixels;
    data := data0;
    ghost var pixels := Pixels(row);
    ghost var goal := data0 + EncodeRow(pixels);
    var index := new Px[64](_ => BLACK);
    var prev := BLACK;
    var run := 0;
    assert index[..] == ZeroIndex();
    assert pixels[0..] == pixels;
    for x := 0 to |row| / 4
      invariant 0 <= run < 62
      invariant data + EncodeFrom(index[..], prev, run, pixels[x..]) == goal
    {
      var px := Px(row[x * 4], row[x * 4 + 1], row[x * 4 + 2]);
      ghost var rest := pixels[x + 1..];
      assert pixels[x..][0] == px && pixels[x..][1..] == rest;
      EncodeStep(index[..], prev, run, pixels[x..]);
      hide EncodeFrom;
      ghost var before, flush := data, RunOp(run);
      if px == prev {
        run := run + 1;
        if run == 62 {
          data := data + [192 + (run - 1)];
          run := 0;
          Joined(before, [], RunOp(62), EncodeFrom(index[..], prev, 0, rest));
        }
        continue;
      }
      if run > 0 {
        data := data + [192 + (run - 1)];
        run := 0;
      }
      assert data == before + flush;
      var hash := Hash(px);
      if index[hash] == px {
        data := data + [hash];
        prev := px;
        Joined(before, flush, [hash], EncodeFrom(index[..], px, 0, rest));
        continue;
      }
      ghost var op := ColorOp(prev, px);
      index[hash] := px;
      data := data + ColorOp(prev, px);
      prev := px;
      Joined(before, flush, op, EncodeFrom(index[..], px, 0, rest));
    }
    assert pixels[|row| / 4..] == [];
    if run > 0 {
      data := data + [192 + (run - 1)];
    }
  }

  lemma Joined(d: seq<byte>, a: seq<byte>, b: seq<byte>, e: seq<byte>)
    ensures d + (a + b + e) == d + a + b + e
  {
  }

  lemma EncodedNext(rs: seq<Row>, y: nat)
    requires y < |rs|
    ensures Encoded(rs[..y + 1]) == Encoded(rs[..y]) + EncodeRow(Pixels(rs[y]))
  {
    assert rs[..y + 1][..y] == rs[..y];
  }

  /** The whole image: encoded rows back to back, and the offset at which each row starts,
      with the end of the data as one more entry. Offsets are stored as 32-bit words. */
  method RleEncode(bgra: seq<byte>, width: nat, height: nat) returns (data: seq<byte>, rows: seq<int>)
    requires height * width * 4 <= |bgra|
    ensures data == Encoded(RowsOf(bgra, width, height))
    ensures OffsetsOf(RowsOf(bgra, width, height), rows)
  {
    hide EncodeRow, Pixels, Encoded;
    ghost var rs := RowsOf(bgra, width, height);
    data, rows := [], [];
    assert Encoded(rs[..0]) == [] by { EncodedNone(); }
    for y := 0 to height
      invariant data == Encoded(rs[..y]) && |rows| == y
      invariant forall k :: 0 <= k < y ==> rows[k] == |Encoded(rs[..k])| % TWO32
    {
      RowFits(width, height, y);
      EncodedNext(rs, y);
      rows := rows + [|data| % TWO32];
      data := EncodePixels(data, bgra[y * width * 4..(y + 1) * width * 4]);
    }
    assert rs[..height] == rs;
    rows := rows + [|data| % TWO32];
  }

  lemma EncodedNone()
    ensures Encoded([]) == []
  {
  }

  /** The bytes of row `sy`, if the table and the data have it. */
  function Slice(data: seq<byte>, rows: seq<int>, sy: nat): Option<seq<byte>> {
    if sy + 1 < |rows| && 0 <= rows[sy] <= rows[sy + 1] <= |data| then Some(data[rows[sy]..rows[sy + 1]]) else None
  }

  function DecodeSlice(data: seq<byte>, rows: seq<int>, width: nat, sy: nat): Option<seq<Px>> {
    var slice := Slice(data, rows, sy);
    if slice.None? then None else DecodeRow(slice.value, width)
  }

  lemma OpaqueAppend(p: seq<Px>, px: Px)
    ensures Opaque(p + [px]) == Opaque(p) + [px.b, px.g, px.r, 255]
  {
    assert (p + [px])[..|p|] == p;
  }

  method PutPixel(out: array<byte>, at: nat, px: Px, ghost done: seq<Px>)
    requires at == 4 * |done| && at + 4 <= out.Length && out[..at] == Opaque(done)
    modifies out
    ensures out[..at + 4] == Opaque(done + [px])
    ensures forall i :: at + 4 <= i < out.Length ==> out[i] == old(out[i])
  {
    OpaqueAppend(done, px);
    out[at] := px.b;
    out[at + 1] := px.g;
    out[at + 2] := px.r;
    out[at + 3] := 255;
    assert out[..at] == old(out[..at]);
    assert out[..at + 4] == out[..at] + [px.b, px.g, px.r, 255];
  }

  lemma PrependTwice(a: seq<Px>, b: seq<Px>, tail: Option<seq<Px>>)
    ensures Prepend(a, Prepend(b, tail)) == Prepend(a + b, tail)
  {
    if tail.Some? {
      assert a + (b + tail.value) == a + b + tail.value;
    }
  }

  lemma PrependDone(p: seq<Px>)
    ensures Prepend(p, Some([])) == Some(p)
  {
    assert p + [] == p;
  }

  lemma OneStep(index: Index, prev: Px, bytes: seq<byte>, width: nat)
    requires width > 0
    ensures match NextOp(index, prev, bytes)
      case Short => DecodeFrom(NotOnRun, index, prev, bytes, width) == None
      case Run(count) =>
        var n := Min(count, width);
        DecodeFrom(NotOnRun, index, prev, bytes, width)
        == Prepend(Repeat(prev, n), DecodeFrom(NotOnRun, index, prev, bytes[1..], width - n))
      case Color(px, used) =>
        DecodeFrom(NotOnRun, index, prev, bytes, width)
        == Prepend([px], DecodeFrom(NotOnRun, index[Hash(px) := px], px, bytes[used..], width - 1))
  {
  }

  method PutRun(out: array<byte>, at: nat, px: Px, run: nat, rowBytes: nat, ghost done: seq<Px>) returns (at': nat)
    requires at == 4 * |done| && at <= rowBytes <= out.Length && rowBytes % 4 == 0 && out[..at] == Opaque(done)
    modifies out
    ensures at' == at + 4 * Min(run, (rowBytes - at) / 4)
    ensures out[..at'] == Opaque(done + Repeat(px, Min(run, (rowBytes - at) / 4)))
    ensures forall i :: rowBytes <= i < out.Length ==> out[i] == old(out[i])
  {
    hide Opaque;
    var left := run;
    at' := at;
    ghost var n := 0;
    assert done + Repeat(px, 0) == done;
    while left > 0 && at' < rowBytes
      invariant at' == at + 4 * n && at' <= rowBytes && left == run - n && n <= run
      invariant out[..at'] == Opaque(done + Repeat(px, n))
      invariant forall i :: rowBytes <= i < out.Length ==> out[i] == old(out[i])
    {
      PutPixel(out, at', px, done + Repeat(px, n));
      assert done + Repeat(px, n) + [px] == done + Repeat(px, n + 1);
      at', left, n := at' + 4, left - 1, n + 1;
    }
  }

  /** Decode the row `sy` into `out`, as opaque BGRA. Nothing past the row's bytes is touched. */
  method DecodeQoiRow(data: seq<byte>, rows: seq<int>, width: nat, sy: nat, out: array<byte>) returns (ok: bool)
    modifies out
    ensures ok <==> out.Length >= 4 * width && DecodeSlice(data, rows, width, sy).Some?
    ensures ok ==> out[..4 * width] == Opaque(DecodeSlice(data, rows, width, sy).value)
    ensures forall i :: 4 * width <= i < out.Length ==> out[i] == old(out[i])
    ensures out.Length < 4 * width ==> out[..] == old(out[..])
  {
    hide Hash, Opaque, NextOp, DecodeFrom;
    var slice := Slice(data, rows, sy);
    if slice.None? || out.Length < 4 * width {
      return false;
    }
    var row := slice.value;
    var index := new Px[64](_ => BLACK);
    var prev := BLACK;
    var i, px := 0, 0;
    ghost var done: seq<Px> := [];
    assert index[..] == ZeroIndex() && row[0..] == row && out[..0] == Opaque([]) by { NothingOpaque(); }
    PrependNothing(BLACK, DecodeRow(row, width));
    while px < width * 4
      invariant px == 4 * |done| && |done| <= width && 0 <= i <= |row|
      invariant out[..px] == Opaque(done)
      invariant DecodeRow(row, width) == Prepend(done, DecodeFrom(NotOnRun, index[..], prev, row[i..], width - |done|))
      invariant forall k :: 4 * width <= k < out.Length ==> out[k] == old(out[k])
      decreases width * 4 - px
    {
      ghost var left := width - |done|;
      OneStep(index[..], prev, row[i..], left);
      match NextOp(index[..], prev, row[i..]) {
        case Short =>
          return false;
        case Run(count) =>
          ghost var n := Min(count, left);
          px := PutRun(out, px, prev, count, width * 4, done);
          i := i + 1;
          PrependTwice(done, Repeat(prev, n), DecodeFrom(NotOnRun, index[..], prev, row[i..], left - n));
          done := done + Repeat(prev, n);
        case Color(next, used) =>
          prev := next;
          i := i + used;
          index[Hash(prev)] := prev;
          PutPixel(out, px, prev, done);
          PrependTwice(done, [prev], DecodeFrom(NotOnRun, index[..], prev, row[i..], left - 1));
          done := done + [prev];
          px := px + 4;
      }
    }
    NoneLeft(NotOnRun, index[..], prev, row[i..]);
    PrependDone(done);
    ok := true;
  }

  lemma NothingOpaque()
    ensures Opaque([]) == []
  {
  }

  // ---------- The image theorem ----------

  lemma {:induction false} EncodedPrefix(rs: seq<Row>, y: nat)
    requires y <= |rs|
    ensures |Encoded(rs[..y])| <= |Encoded(rs)| && Encoded(rs)[..|Encoded(rs[..y])|] == Encoded(rs[..y])
    decreases |rs| - y
  {
    hide EncodeRow;
    if y == |rs| {
      assert rs[..y] == rs;
    } else {
      EncodedPrefix(rs, y + 1);
      EncodedNext(rs, y);
      assert Encoded(rs)[..|Encoded(rs[..y])|] == Encoded(rs[..y + 1])[..|Encoded(rs[..y])|];
    }
  }

  lemma RowSlice(rs: seq<Row>, y: nat)
    requires y < |rs|
    ensures |Encoded(rs[..y])| <= |Encoded(rs[..y + 1])| <= |Encoded(rs)|
    ensures Encoded(rs)[|Encoded(rs[..y])|..|Encoded(rs[..y + 1])|] == EncodeRow(Pixels(rs[y]))
  {
    hide Encoded, EncodeRow;
    EncodedPrefix(rs, y + 1);
    EncodedNext(rs, y);
    var a, b := Encoded(rs[..y]), Encoded(rs[..y + 1]);
    assert Encoded(rs)[|a|..|b|] == Encoded(rs)[..|b|][|a|..];
  }

  lemma EncodeRowSize(pixels: seq<Px>)
    ensures |EncodeRow(pixels)| <= 4 * |pixels|
  {
    EncodedSize(ZeroIndex(), BLACK, 0, pixels);
  }

  lemma OneRowMore(n: nat, w: nat)
    ensures (n + 1) * w * 4 == n * w * 4 + 4 * w
  {
    MulNext(n, w);
  }

  lemma {:induction false} ImageSize(rs: seq<Row>, w: nat)
    requires forall r :: r in rs ==> |r| == 4 * w
    ensures |Encoded(rs)| <= |rs| * w * 4
    decreases |rs|
  {
    hide EncodeRow;
    if rs != [] {
      var n := |rs| - 1;
      ImageSize(rs[..n], w);
      EncodeRowSize(Pixels(rs[n]));
      OneRowMore(n, w);
    }
  }

  /** `rows` holds, as 32-bit words, the offset of every row in `data` and the end of the data. */
  ghost predicate OffsetsOf(rs: seq<Row>, rows: seq<int>) {
    |rows| == |rs| + 1 && forall k :: 0 <= k <= |rs| ==> rows[k] == |Encoded(rs[..k])| % TWO32
  }

  lemma OffsetAt(rs: seq<Row>, rows: seq<int>, k: nat)
    requires OffsetsOf(rs, rows) && k <= |rs| && |Encoded(rs[..k])| < TWO32
    ensures |rows| == |rs| + 1 && rows[k] == |Encoded(rs[..k])|
  {
    hide Encoded;
  }

  lemma SliceOf(rs: seq<Row>, rows: seq<int>, y: nat)
    requires y < |rs| && OffsetsOf(rs, rows) && |Encoded(rs[..y + 1])| < TWO32
    ensures Slice(Encoded(rs), rows, y) == Some(EncodeRow(Pixels(rs[y])))
    ensures 0 <= rows[y] <= rows[y + 1] <= |Encoded(rs)| && rows[y + 1] - rows[y] == |EncodeRow(Pixels(rs[y]))|
  {
    hide Encoded, EncodeRow, OffsetsOf, Pixels;
    RowSlice(rs, y);
    OffsetAt(rs, rows, y);
    OffsetAt(rs, rows, y + 1);
  }

  /** Main result. Decoding only the slice that the offset table gives for row `y`, from a
      reset state, returns exactly the pixels of row `y`; the table is monotone and ends at the
      end of the data; and no slice is longer than the raw row. Offsets are only right up to the
      row at which the data outgrows 32 bits, which no image below 2^30 pixels does. */
  lemma ImageRoundTrip(rs: seq<Row>, w: nat, rows: seq<int>, y: nat)
    requires y < |rs| && |rs[y]| == 4 * w && OffsetsOf(rs, rows) && |Encoded(rs[..y + 1])| < TWO32
    ensures 0 <= rows[y] <= rows[y + 1] <= |Encoded(rs)| && rows[y + 1] - rows[y] <= 4 * w
    ensures |Encoded(rs)| < TWO32 ==> rows[y + 1] <= rows[|rs|] == |Encoded(rs)|
    ensures DecodeSlice(Encoded(rs), rows, w, y) == Some(Pixels(rs[y]))
  {
    hide Encoded, EncodeRow, DecodeRow, Slice, OffsetsOf, Pixels;
    OffsetsEndExactly(rs, rows);
    SliceOf(rs, rows, y);
    var pixels := Pixels(rs[y]);
    DivMod(|rs[y]|, 4, w, 0);
    EncodeRowSize(pixels);
    RowRoundTrip(NotOnRun, pixels);
  }

  /** The 32-bit offset table can end at the size of the data only while that size fits 32 bits. */
  lemma OffsetsEndExactly(rs: seq<Row>, rows: seq<int>)
    requires OffsetsOf(rs, rows)
    ensures rows[|rs|] == |Encoded(rs)| <==> |Encoded(rs)| < TWO32
  {
    hide Encoded;
    assert rs[..|rs|] == rs;
  }

  lemma SmallImagesFit(bgra: seq<byte>, w: nat, h: nat)
    requires h * w * 4 <= |bgra| && h * w < 0x4000_0000
    ensures |Encoded(RowsOf(bgra, w, h))| < TWO32
  {
    hide Encoded;
    ImageSize(RowsOf(bgra, w, h), w);
  }

  lemma LastPixel(front: Row, last: Row)
    requires |last| == 4
    ensures Pixels(front + last) == Pixels(front) + Pixels(last)
    ensures Opaque(Pixels(front + last)) == Opaque(Pixels(front)) + [last[0], last[1], last[2], 255]
  {
    hide Opaque;
    var p := Pixels(front + last);
    assert p[..|p| - 1] == Pixels(front);
    OpaqueLast(p);
  }

  lemma OpaqueLast(p: seq<Px>)
    requires p != []
    ensures var q := p[|p| - 1]; Opaque(p) == Opaque(p[..|p| - 1]) + [q.b, q.g, q.r, 255]
  {
  }

  predicate FullAlpha(row: Row) {
    forall x :: 0 <= x < |row| / 4 ==> row[4 * x + 3] == 255
  }

  lemma FullAlphaLast(front: Row, last: Row)
    requires |last| == 4
    ensures FullAlpha(front + last) <==> FullAlpha(front) && last[3] == 255
  {
    var row := front + last;
    var n := |front| / 4;
    assert row[4 * n + 3] == last[3];
    assert forall x :: 0 <= x < n ==> row[4 * x + 3] == front[4 * x + 3];
  }

  lemma SameHalves(a: seq<byte>, b: seq<byte>, c: seq<byte>, d: seq<byte>)
    requires |a| == |c|
    ensures a + b == c + d <==> a == c && b == d
  {
    if a + b == c + d {
      assert (a + b)[..|a|] == a && (c + d)[..|a|] == c;
      assert (a + b)[|a|..] == b && (c + d)[|a|..] == d;
    }
  }

  lemma OpaqueNone()
    ensures Opaque(Pixels([])) == [] && FullAlpha([])
  {
  }

  lemma SplitLast(row: Row) returns (front: Row, last: Row)
    requires row != []
    ensures row == front + last && |last| == 4
  {
    var n := |row| / 4 - 1;
    assert |row| == 4 * n + 4;
    front, last := row[..4 * n], row[4 * n..];
  }

  /** The decoded bytes are the original ones exactly when the row was opaque. */
  lemma {:induction false} OpaqueExactly(row: Row)
    ensures Opaque(Pixels(row)) == row <==> FullAlpha(row)
    decreases |row|
  {
    hide Opaque, Pixels, FullAlpha;
    if row == [] {
      OpaqueNone();
    } else {
      var front, last := SplitLast(row);
      OpaqueExactly(front);
      LastPixel(front, last);
      FullAlphaLast(front, last);
      SameHalves(Opaque(Pixels(front)), [last[0], last[1], last[2], 255], front, last);
    }
  }
}
