/** Icon supersampling: integer-factor averaging of premultiplied BGRA pixels, and the exact
    rounding of the conversion to straight alpha and back. */
module Premultiply {
  import opened Arith
  import opened BoxScale
  import opened Results
  import opened Words

  // ---------- One channel ----------

  function Rounded(c: byte, a: byte): nat
    requires a > 0
  {
    (c * 255 + a / 2) / a
  }

  /** Straight value of a premultiplied channel: rounded, clamped, zero where transparent. */
  function Straight(c: byte, a: byte): byte {
    if a == 0 then 0
    else if a < 255 then (if Rounded(c, a) < 255 then Rounded(c, a) else 255)
    else c
  }

  /** Premultiplication with rounding. */
  function Multiplied(s: byte, a: byte): nat {
    (s * a + 127) / 255
  }

  lemma RoundedBounds(c: byte, a: byte)
    requires a > 0
    ensures c * 255 + a / 2 - a < Rounded(c, a) * a <= c * 255 + a / 2
    ensures c <= a ==> Rounded(c, a) <= 255
    ensures c > a ==> Rounded(c, a) >= 255
  {
    var n: int := c * 255 + a / 2;
    assert n == n / a * a + n % a;
    if c <= a {
      assert n < 256 * a;
      DivBelow(n, a, 256);
    } else {
      assert n >= 255 * a;
      DivAtLeast(n, a, 255);
    }
  }

  /** Converting to straight alpha and back recovers a channel exactly if and only if the
      channel was premultiplied, for every channel and alpha value; then the clamp is idle. A
      transparent pixel has no colour. */
  lemma StraightRecovers(c: byte, a: byte)
    ensures Multiplied(Straight(c, a), a) == c <==> c <= a
    ensures a == 0 ==> Straight(c, a) == 0
    ensures 0 < a < 255 && c <= a ==> Straight(c, a) == Rounded(c, a)
  {
    if 0 < a < 255 {
      hide Rounded;
      RoundedBounds(c, a);
    }
  }

  // ---------- A whole buffer, in place ----------

  /** The straight form of byte `i` of a BGRA buffer; a trailing partial pixel is untouched. */
  function StraightAt(src: seq<byte>, i: nat): byte
    requires i < |src|
  {
    if i % 4 == 3 || i / 4 * 4 + 4 > |src| then src[i] else Straight(src[i], src[i / 4 * 4 + 3])
  }

  lemma PixelSlot(src: seq<byte>, p: nat, k: nat)
    requires p % 4 == 0 && p + 4 <= |src| && k < 4
    ensures StraightAt(src, p + k) == if k == 3 then src[p + 3] else Straight(src[p + k], src[p + 3])
  {
    hide Straight;
    DivMod(p + k, 4, p / 4, k);
  }

  /** In the converted buffer every whole pixel keeps its alpha; a transparent one has no colour; and
      premultiplying a channel again gives the old one exactly if that was at most alpha. */
  lemma BufferRecovers(src: seq<byte>, p: nat, k: nat)
    requires p % 4 == 0 && p + 4 <= |src| && k < 3
    ensures var s, a := StraightAt(src, p + k), src[p + 3];
      && StraightAt(src, p + 3) == a && (a == 0 ==> s == 0)
      && (Multiplied(s, a) == src[p + k] <==> src[p + k] <= a)
  {
    hide StraightAt, Straight, Multiplied;
    PixelSlot(src, p, k);
    PixelSlot(src, p, 3);
    StraightRecovers(src[p + k], src[p + 3]);
  }

  method StraightenPixel(out: array<byte>, p: nat)
    requires p + 4 <= out.Length
    modifies out
    ensures forall k :: p <= k < p + 3 ==> out[k] == Straight(old(out[k]), old(out[p + 3]))
    ensures forall k :: 0 <= k < out.Length && !(p <= k < p + 3) ==> out[k] == old(out[k])
  {
    hide Rounded;
    var a: int := out[p + 3];
    if a == 0 {
      out[p] := 0;
      out[p + 1] := 0;
      out[p + 2] := 0;
    } else if a < 255 {
      for slot := p to p + 3
        invariant forall k :: p <= k < slot ==> out[k] == Straight(old(out[k]), a)
        invariant forall k :: 0 <= k < out.Length && !(p <= k < slot) ==> out[k] == old(out[k])
      {
        var v := Rounded(out[slot], a);
        out[slot] := if v < 255 then v else 255;
      }
    }
  }

  method UnpremultiplyBgra(src: seq<byte>) returns (out: array<byte>)
    ensures out.Length == |src|
    ensures forall i :: 0 <= i < |src| ==> out[i] == StraightAt(src, i)
  {
    hide Straight, StraightAt;
    out := new byte[|src|](i requires 0 <= i < |src| => src[i]);
    var p := 0;
    while p + 4 <= out.Length
      invariant 0 <= p <= out.Length && p % 4 == 0
      invariant forall i :: 0 <= i < p ==> out[i] == StraightAt(src, i)
      invariant forall i :: p <= i < out.Length ==> out[i] == src[i]
    {
      StraightenPixel(out, p);
      PixelSlot(src, p, 0);
      PixelSlot(src, p, 1);
      PixelSlot(src, p, 2);
      PixelSlot(src, p, 3);
      p := p + 4;
    }
    forall i | p <= i < out.Length
      ensures StraightAt(src, i) == src[i]
    {
      TailKept(src, p, i);
    }
  }

  lemma TailKept(src: seq<byte>, p: nat, i: nat)
    requires p % 4 == 0 && p <= i < |src| < p + 4
    ensures StraightAt(src, i) == src[i]
  {
    DivMod(i, 4, p / 4, i - p);
  }

  // ---------- Reading pixels ----------

  /** The byte index of pixel (x, y), a 32-bit number. */
  function Offset(x: nat, y: nat, sw: nat): nat {
    (y * sw + x) * 4 % TWO32
  }

  lemma PixelPlace(x: nat, y: nat, sw: nat, sh: nat)
    requires x < sw && y < sh
    ensures y * sw + x < sw * sh
  {
    MulNext(y, sw);
    MulOrder(y + 1, sh, sw);
  }

  lemma WordInside(k: nat, total: nat)
    requires k < total
    ensures k * 4 % TWO32 + 4 <= total * 4 && k * 4 % TWO32 % 4 == 0
    ensures total <= 0x4000_0000 ==> k * 4 % TWO32 == k * 4
  {
  }

  lemma OffsetInside(x: nat, y: nat, sw: nat, sh: nat)
    requires x < sw && y < sh
    ensures Offset(x, y, sw) + 4 <= sw * sh * 4 && Offset(x, y, sw) % 4 == 0
  {
    PixelPlace(x, y, sw, sh);
    WordInside(y * sw + x, sw * sh);
  }

  ghost predicate ReadsOwn(x: nat, y: nat, sw: nat) {
    Offset(x, y, sw) == (y * sw + x) * 4
  }

  /** Every pixel is read from its own place if and only if there are at most 2^30 of them. */
  lemma OffsetsExactly(sw: nat, sh: nat)
    requires sw > 0 && sh > 0
    ensures (forall x: nat, y: nat :: x < sw && y < sh ==> ReadsOwn(x, y, sw)) <==> sw * sh <= 0x4000_0000
  {
    if sw * sh <= 0x4000_0000 {
      forall x: nat, y: nat | x < sw && y < sh
        ensures ReadsOwn(x, y, sw)
      {
        PixelPlace(x, y, sw, sh);
        WordInside(y * sw + x, sw * sh);
      }
    } else {
      MulNext(sh - 1, sw);
      assert (sh - 1) * sw + (sw - 1) == sw * sh - 1;
      assert !ReadsOwn(sw - 1, sh - 1, sw);
    }
  }

  function PixelAt(src: seq<byte>, i: nat): Pixel
    requires i + 4 <= |src|
  {
    src[i..i + 4]
  }

  /** The image as the code sees it. */
  function Seen(src: seq<byte>, sw: nat, sh: nat): (img: Image)
    requires sw * sh * 4 <= |src|
    ensures Sized(img, sw, sh)
  {
    seq(sh, y requires 0 <= y < sh => seq(sw, x requires 0 <= x < sw =>
      (OffsetInside(x, y, sw, sh); PixelAt(src, Offset(x, y, sw)))))
  }

  /** In an image of at most 2^30 pixels, pixel (x, y) is the four bytes in its place. */
  lemma SeenInPlace(src: seq<byte>, sw: nat, sh: nat, x: nat, y: nat)
    requires x < sw && y < sh && sw * sh * 4 <= |src| && sw * sh <= 0x4000_0000
    ensures y * sw + x < sw * sh
    ensures Seen(src, sw, sh)[y][x] == src[(y * sw + x) * 4..(y * sw + x) * 4 + 4]
  {
    PixelPlace(x, y, sw, sh);
    WordInside(y * sw + x, sw * sh);
  }

  // ---------- Averaging ----------

  function Block(x: nat, y: nat, factor: nat): Box {
    Box(x * factor, (x + 1) * factor, y * factor, (y + 1) * factor)
  }

  lemma BlockEnd(i: nat, factor: nat, size: nat)
    requires factor > 0 && i < size / factor
    ensures i * factor < (i + 1) * factor <= size && (i + 1) * factor - i * factor == factor
  {
    MulNext(i, factor);
    MulOrder(i + 1, size / factor, factor);
    assert size == size / factor * factor + size % factor;
  }

  /** Each pixel belongs to the block that its coordinates divided by the factor name, and to no
      other. */
  lemma BlockHas(x: nat, y: nat, factor: nat, sx: nat, sy: nat)
    requires factor > 0
    ensures Has(Block(x, y, factor), sx, sy) <==> x == sx / factor && y == sy / factor
  {
    InBlock(x, factor, sx);
    InBlock(y, factor, sy);
  }

  lemma InBlock(i: nat, factor: nat, s: nat)
    requires factor > 0
    ensures i * factor <= s < (i + 1) * factor <==> i == s / factor
  {
    MulNext(i, factor);
    assert s == s / factor * factor + s % factor;
    if i * factor <= s < (i + 1) * factor {
      DivMod(s, factor, i, s - i * factor);
    }
  }

  /** `factor * factor` in 32 bits. */
  function PixelCount(factor: nat): nat {
    factor * factor % TWO32
  }

  lemma CountRight(factor: nat)
    requires 0 < factor < 0x1_0000
    ensures 0 < PixelCount(factor) == factor * factor < TWO32
  {
    MulOrder(factor, 0xFFFF, factor);
    MultipleOf(factor, factor);
  }

  lemma BlockFits(img: Image, sw: nat, sh: nat, x: nat, y: nat, factor: nat)
    requires Sized(img, sw, sh) && factor > 0 && x < sw / factor && y < sh / factor
    ensures Inside(img, Block(x, y, factor)) && Area(Block(x, y, factor)) == factor * factor > 0
  {
    BlockEnd(x, factor, sw);
    BlockEnd(y, factor, sh);
    MultipleOf(factor, factor);
  }

  /** What the code computes for channel `c`: the 32-bit sum over the 32-bit count, cut to a byte. */
  function Averaged(img: Image, c: nat, box: Box, n: nat): byte
    requires Inside(img, box) && n > 0
  {
    BoxSum(img, c, box) % TWO32 / n % 256
  }

  function AveragedBgra(img: Image, box: Box, n: nat): (p: seq<byte>)
    requires Inside(img, box) && n > 0
    ensures |p| == 4 && forall c :: 0 <= c < 4 ==> p[c] == Averaged(img, c, box, n)
  {
    [Averaged(img, 0, box, n), Averaged(img, 1, box, n), Averaged(img, 2, box, n), Averaged(img, 3, box, n)]
  }

  lemma AveragedIsScaled(img: Image, c: nat, box: Box)
    requires Inside(img, box) && 0 < Area(box) <= TWO32
    ensures Averaged(img, c, box, Area(box)) == Scaled(img, c, box)
    ensures MeanWhereItFits(img, c, box, Averaged(img, c, box, Area(box)))
  {
    hide BoxSum, Inside, Area, Mean;
    SumGivesMean(img, c, box);
    DivMod(Scaled(img, c, box), 256, 0, Scaled(img, c, box));
  }

  /** What every output pixel must be. While the count is that of the block, each channel is the
      block's mean exactly where its sum fits 32 bits. */
  ghost predicate BlockRight(img: Image, factor: nat, x: nat, y: nat, p: seq<byte>) {
    var box, n := Block(x, y, factor), PixelCount(factor);
    && Inside(img, box) && n > 0 && p == AveragedBgra(img, box, n)
    && (factor < 0x1_0000 ==> Area(box) > 0 && forall c: nat :: c < 4 ==> MeanWhereItFits(img, c, box, p[c]))
  }

  lemma BlockIsRight(img: Image, sw: nat, sh: nat, x: nat, y: nat, factor: nat)
    requires Sized(img, sw, sh) && factor > 0 && x < sw / factor && y < sh / factor && PixelCount(factor) > 0
    ensures Inside(img, Block(x, y, factor))
    ensures BlockRight(img, factor, x, y, AveragedBgra(img, Block(x, y, factor), PixelCount(factor)))
  {
    hide Inside, Area, Sized, Averaged, MeanWhereItFits, Block, PixelCount;
    BlockFits(img, sw, sh, x, y, factor);
    if factor < 0x1_0000 {
      CountRight(factor);
      forall c: nat | c < 4
        ensures MeanWhereItFits(img, c, Block(x, y, factor), Averaged(img, c, Block(x, y, factor), PixelCount(factor)))
      {
        AveragedIsScaled(img, c, Block(x, y, factor));
      }
    }
  }

  method AveragePixel(img: Image, box: Box, n: nat) returns (p: seq<byte>)
    requires Inside(img, box) && n > 0
    ensures p == AveragedBgra(img, box, n)
  {
    hide Inside, BoxSum;
    var acc := SumBox(img, box, 4);
    p := [acc[0] / n % 256, acc[1] / n % 256, acc[2] / n % 256, acc[3] / n % 256];
  }

  /** The calls that abort: a zero factor, an output of 2^30 pixels or more, whose size in bytes
      does not fit 32 bits, and a block whose number of pixels is zero in 32 bits. */
  predicate Aborts(sw: nat, sh: nat, factor: nat) {
    || factor == 0
    || sw / factor * (sh / factor) >= 0x4000_0000
    || (sw / factor > 0 && sh / factor > 0 && PixelCount(factor) == 0)
  }

  ghost predicate RowRight(img: Image, factor: nat, dw: nat, y: nat, row: seq<seq<byte>>) {
    |row| == dw && forall x :: 0 <= x < dw ==> BlockRight(img, factor, x, y, row[x])
  }

  ghost predicate Downscaled(img: Image, sw: nat, sh: nat, factor: nat, out: seq<seq<seq<byte>>>)
    requires factor > 0
  {
    |out| == sh / factor && forall y :: 0 <= y < |out| ==> RowRight(img, factor, sw / factor, y, out[y])
  }

  lemma SlotInside(k: nat, total: nat)
    requires k < total < 0x4000_0000
    ensures k * 4 % TWO32 + 4 <= total * 4 % TWO32
  {
  }

  lemma SlotPast(k: nat, total: nat)
    requires total >= 0x4000_0000 && k <= total % 0x4000_0000
    ensures k * 4 % TWO32 + 4 <= total * 4 % TWO32 <==> k < total % 0x4000_0000
  {
  }

  /** The output is too large, and its first `k` pixels still find room. */
  ghost predicate StillRoom(total: nat, k: nat) {
    total >= 0x4000_0000 ==> k <= total % 0x4000_0000
  }

  lemma RoomFor(x: nat, y: nat, dw: nat, dh: nat)
    requires x < dw && y < dh && StillRoom(dw * dh, y * dw + x)
    ensures var fits := (y * dw + x) * 4 % TWO32 + 4 <= dw * dh * 4 % TWO32;
      && (!fits ==> dw * dh >= 0x4000_0000)
      && (fits ==> StillRoom(dw * dh, y * dw + x + 1))
  {
    if dw * dh < 0x4000_0000 {
      PixelPlace(x, y, dw, dh);
      SlotInside(y * dw + x, dw * dh);
    } else {
      SlotPast(y * dw + x, dw * dh);
    }
  }

  /** One row of output; `None` is an abort. */
  method AverageRow(img: Image, sw: nat, sh: nat, factor: nat, dw: nat, dh: nat, y: nat)
    returns (row: Option<seq<seq<byte>>>)
    requires Sized(img, sw, sh) && factor > 0 && dw == sw / factor && dh == sh / factor && y < dh
    requires StillRoom(dw * dh, y * dw)
    ensures row.None? ==> dw * dh >= 0x4000_0000 || (dw > 0 && PixelCount(factor) == 0)
    ensures row.Some? ==>
      && RowRight(img, factor, dw, y, row.value) && (dw > 0 ==> PixelCount(factor) > 0)
      && StillRoom(dw * dh, (y + 1) * dw)
  {
    hide Block, AveragedBgra, Inside, Sized, PixelCount, BlockRight, StillRoom, Area;
    var done, n := [], PixelCount(factor);
    for x := 0 to dw
      invariant |done| == x && (x > 0 ==> n > 0)
      invariant forall k :: 0 <= k < x ==> BlockRight(img, factor, k, y, done[k])
      invariant StillRoom(dw * dh, y * dw + x)
    {
      if n == 0 {
        return None;
      }
      BlockIsRight(img, sw, sh, x, y, factor);
      var p := AveragePixel(img, Block(x, y, factor), n);
      RoomFor(x, y, dw, dh);
      if (y * dw + x) * 4 % TWO32 + 4 > dw * dh * 4 % TWO32 {
        return None;
      }
      done := done + [p];
    }
    MulNext(y, dw);
    row := Some(done);
  }

  lemma NoRoomForAll(dw: nat, dh: nat)
    requires StillRoom(dw * dh, dh * dw)
    ensures dw * dh < 0x4000_0000
  {
    assert dw * dh == dh * dw;
  }

  lemma RoomAtFirst(total: nat, dw: nat)
    ensures StillRoom(total, 0 * dw)
  {
  }

  method AverageRows(img: Image, sw: nat, sh: nat, factor: nat, dw: nat, dh: nat) returns (out: Option<seq<seq<seq<byte>>>>)
    requires Sized(img, sw, sh) && factor > 0 && dw == sw / factor && dh == sh / factor
    ensures out.None? <==> dw * dh >= 0x4000_0000 || (dw > 0 && dh > 0 && PixelCount(factor) == 0)
    ensures out.Some? ==> |out.value| == dh && forall y :: 0 <= y < dh ==> RowRight(img, factor, dw, y, out.value[y])
  {
    hide Sized, PixelCount, RowRight, StillRoom;
    var rows := [];
    RoomAtFirst(dw * dh, dw);
    for y := 0 to dh
      invariant |rows| == y && forall k :: 0 <= k < y ==> RowRight(img, factor, dw, k, rows[k])
      invariant y > 0 && dw > 0 ==> PixelCount(factor) > 0
      invariant StillRoom(dw * dh, y * dw)
    {
      var row := AverageRow(img, sw, sh, factor, dw, dh, y);
      if row.None? {
        return None;
      }
      rows := rows + [row.value];
    }
    NoRoomForAll(dw, dh);
    out := Some(rows);
  }

  /** Every block of factor by factor pixels becomes what the 32-bit sums give. `None` is an abort. */
  method BoxAverageDownscale(src: seq<byte>, sw: u32, sh: u32, factor: u32) returns (out: Option<seq<seq<seq<byte>>>>)
    requires sw * sh * 4 <= |src|
    ensures out.None? <==> Aborts(sw, sh, factor)
    ensures out.Some? ==> Downscaled(Seen(src, sw, sh), sw, sh, factor, out.value)
  {
    if factor == 0 {
      return None;
    }
    hide Sized, PixelCount, RowRight, Seen;
    out := AverageRows(Seen(src, sw, sh), sw, sh, factor, sw / factor, sh / factor);
  }

  // ---------- Averaging premultiplied pixels ----------

  ghost predicate Premultiplied(src: seq<byte>) {
    forall i: nat, c: nat :: i % 4 == 0 && i + 4 <= |src| && c < 3 ==> Chan(PixelAt(src, i), c) <= Chan(PixelAt(src, i), 3)
  }

  /** The code produces an output pixel at (x, y). */
  predicate Produces(src: seq<byte>, sw: u32, sh: u32, factor: nat, x: nat, y: nat) {
    sw * sh * 4 <= |src| && !Aborts(sw, sh, factor) && x < sw / factor && y < sh / factor
  }

  lemma ProducedFits(src: seq<byte>, sw: u32, sh: u32, factor: nat, x: nat, y: nat)
    requires Produces(src, sw, sh, factor, x, y)
    ensures Inside(Seen(src, sw, sh), Block(x, y, factor)) && PixelCount(factor) > 0
  {
    BlockFits(Seen(src, sw, sh), sw, sh, x, y, factor);
  }

  function OutPixel(src: seq<byte>, sw: u32, sh: u32, factor: nat, x: nat, y: nat): (p: seq<byte>)
    requires Produces(src, sw, sh, factor, x, y)
    ensures |p| == 4
  {
    ProducedFits(src, sw, sh, factor, x, y);
    AveragedBgra(Seen(src, sw, sh), Block(x, y, factor), PixelCount(factor))
  }

  /** From every premultiplied image, averaging by `factor` makes pixels with colours at most alpha. */
  ghost predicate KeepsOrder(factor: nat) {
    forall src: seq<byte>, sw: u32, sh: u32, x: nat, y: nat, c: nat ::
      Premultiplied(src) && Produces(src, sw, sh, factor, x, y) && c < 3 ==>
        var p := OutPixel(src, sw, sh, factor, x, y); p[c] <= p[3]
  }

  ghost predicate Recovered(c: byte, a: byte) {
    Multiplied(Straight(c, a), a) == c && (0 < a < 255 ==> Straight(c, a) == Rounded(c, a))
  }

  /** From every premultiplied image, each averaged channel survives the way to straight alpha and
      back, and no clamp is needed. */
  ghost predicate Recovers(factor: nat) {
    forall src: seq<byte>, sw: u32, sh: u32, x: nat, y: nat, c: nat ::
      Premultiplied(src) && Produces(src, sw, sh, factor, x, y) && c < 3 ==>
        var p := OutPixel(src, sw, sh, factor, x, y); Recovered(p[c], p[3])
  }

  lemma SeenDominates(src: seq<byte>, sw: nat, sh: nat, box: Box, c: nat)
    requires sw * sh * 4 <= |src| && Premultiplied(src) && Inside(Seen(src, sw, sh), box) && c < 3
    ensures Dominates(Seen(src, sw, sh), box, c, 3)
  {
    var img := Seen(src, sw, sh);
    forall y, x | box.y0 <= y < box.y1 && box.x0 <= x < box.x1
      ensures Chan(img[y][x], c) <= Chan(img[y][x], 3)
    {
      OffsetInside(x, y, sw, sh);
      assert img[y][x] == PixelAt(src, Offset(x, y, sw));
    }
  }

  lemma ScaledOrder(img: Image, box: Box, c: nat)
    requires Inside(img, box) && 0 < Area(box) && Dominates(img, box, c, 3) && BoxSum(img, 3, box) < TWO32
    ensures Scaled(img, c, box) <= Scaled(img, 3, box)
  {
    hide BoxSum, Inside, Area, Dominates;
    BoxSumOrder(img, c, 3, box);
    var a, b, n := BoxSum(img, c, box), BoxSum(img, 3, box), Area(box);
    DivMod(a, TWO32, 0, a);
    DivMod(b, TWO32, 0, b);
    DivMonotone(a, b, n);
  }

  lemma AlphaFits(img: Image, box: Box, factor: nat)
    requires Inside(img, box) && Area(box) == factor * factor && 255 * factor * factor < TWO32
    ensures BoxSum(img, 3, box) < TWO32
  {
    hide BoxSum, Inside, Area;
    AnyByte(img, box, 3);
    BoxSumBounds(img, 3, box, 0, 255);
    assert 255 * factor * factor == factor * factor * 255;
  }

  lemma SmallFactorKeeps(src: seq<byte>, sw: u32, sh: u32, factor: nat, x: nat, y: nat, c: nat)
    requires Premultiplied(src) && Produces(src, sw, sh, factor, x, y) && c < 3
    requires factor < 0x1_0000 && 255 * factor * factor < TWO32
    ensures var p := OutPixel(src, sw, sh, factor, x, y); p[c] <= p[3]
  {
    hide Block, Inside, Area, Sized, PixelCount, Premultiplied, Dominates, BoxSum, Scaled, Averaged, Seen;
    var img, box := Seen(src, sw, sh), Block(x, y, factor);
    ProducedFits(src, sw, sh, factor, x, y);
    BlockFits(img, sw, sh, x, y, factor);
    CountRight(factor);
    AlphaFits(img, box, factor);
    SeenDominates(src, sw, sh, box, c);
    ScaledOrder(img, box, c);
    AveragedIsScaled(img, c, box);
    AveragedIsScaled(img, 3, box);
  }

  // ---------- A factor that is too large ----------

  /** `k` pixels of one colour. */
  function Tiled(k: nat, p: Pixel): seq<byte>
    requires |p| == 4
  {
    seq(4 * k, i requires 0 <= i => p[i % 4])
  }

  lemma TiledPixel(k: nat, p: Pixel, i: nat)
    requires |p| == 4 && i % 4 == 0 && i + 4 <= 4 * k
    ensures PixelAt(Tiled(k, p), i) == p
  {
    DivMod(i + 1, 4, i / 4, 1);
    DivMod(i + 2, 4, i / 4, 2);
    DivMod(i + 3, 4, i / 4, 3);
    var q := PixelAt(Tiled(k, p), i);
    assert q[0] == p[0] && q[1] == p[1] && q[2] == p[2] && q[3] == p[3];
  }

  lemma TiledSeen(w: nat, h: nat, p: Pixel)
    requires |p| == 4
    ensures |Tiled(w * h, p)| == w * h * 4 && Seen(Tiled(w * h, p), w, h) == Filled(w, h, p)
  {
    hide Tiled, PixelAt;
    var src := Tiled(w * h, p);
    TiledSize(w * h, p);
    forall y: nat, x: nat | y < h && x < w
      ensures Seen(src, w, h)[y][x] == p
    {
      OffsetInside(x, y, w, h);
      TiledPixel(w * h, p, Offset(x, y, w));
    }
    forall y | 0 <= y < h
      ensures Seen(src, w, h)[y] == Filled(w, h, p)[y]
    {
    }
  }

  lemma TiledSize(k: nat, p: Pixel)
    requires |p| == 4
    ensures |Tiled(k, p)| == 4 * k
  {
  }

  lemma TiledPremultiplied(k: nat, p: Pixel)
    requires |p| == 4 && p[0] <= p[3] && p[1] <= p[3] && p[2] <= p[3]
    ensures Premultiplied(Tiled(k, p))
  {
    hide Tiled, PixelAt;
    var src := Tiled(k, p);
    TiledSize(k, p);
    forall i: nat, c: nat | i % 4 == 0 && i + 4 <= |src| && c < 3
      ensures Chan(PixelAt(src, i), c) <= Chan(PixelAt(src, i), 3)
    {
      TiledPixel(k, p, i);
    }
  }

  /** The least alpha whose sum over `n` pixels wraps. */
  function Wrapping(n: nat): nat
    requires n > 0
  {
    DivAtLeast(TWO32 - 1, n, 0);
    (TWO32 - 1) / n + 1
  }

  lemma WrapsOnce(n: nat)
    requires 0 < n < TWO32 <= 255 * n
    ensures var v := Wrapping(n); 2 <= v <= 255 && n * (v - 1) < TWO32 <= n * v < TWO32 + n
  {
    var q := (TWO32 - 1) / n;
    assert TWO32 - 1 == q * n + (TWO32 - 1) % n;
    DivAtLeast(TWO32 - 1, n, 1);
    DivBelow(TWO32 - 1, n, 255);
    assert n * (q + 1) == q * n + n;
  }

  lemma OneBlock(factor: nat)
    requires 0 < factor < 0x1_0000
    ensures Block(0, 0, factor) == Box(0, factor, 0, factor) && Area(Block(0, 0, factor)) == factor * factor
    ensures factor / factor == 1 && !Aborts(factor, factor, factor)
  {
    DivMod(factor, factor, 1, 0);
    CountRight(factor);
  }

  /** A premultiplied image of one colour whose averaged alpha is zero and whose colours are not. */
  lemma LargeFactorLoses(factor: nat) returns (src: seq<byte>, v: nat)
    requires 0 < factor < 0x1_0000 && 255 * factor * factor >= TWO32
    ensures v == Wrapping(factor * factor) && 2 <= v <= 255 && src == Tiled(factor * factor, [v - 1, v - 1, v - 1, v])
    ensures Premultiplied(src) && Produces(src, factor, factor, factor, 0, 0)
    ensures OutPixel(src, factor, factor, factor, 0, 0) == [v - 1, v - 1, v - 1, 0]
  {
    hide BoxSum, Inside, Filled, Within, Scaled, Mean, Sized, Premultiplied, Tiled, Seen, Averaged, PixelCount, Block, Aborts, Area;
    var n := factor * factor;
    assert 255 * factor * factor == 255 * n;
    CountRight(factor);
    WrapsOnce(n);
    v := Wrapping(n);
    var p: Pixel := [v - 1, v - 1, v - 1, v];
    src := Tiled(n, p);
    OneBlock(factor);
    TiledSeen(factor, factor, p);
    TiledPremultiplied(n, p);
    ProducedFits(src, factor, factor, factor, 0, 0);
    FilledAverages(factor, p);
  }

  lemma FilledAverages(factor: nat, p: Pixel)
    requires 0 < factor < 0x1_0000 && |p| == 4
    requires var n := factor * factor; n * p[0] < TWO32 && n * p[1] < TWO32 && n * p[2] < TWO32 <= n * p[3] < TWO32 + n
    ensures Inside(Filled(factor, factor, p), Block(0, 0, factor)) && PixelCount(factor) > 0
    ensures AveragedBgra(Filled(factor, factor, p), Block(0, 0, factor), PixelCount(factor)) == [p[0], p[1], p[2], 0]
  {
    hide BoxSum, Inside, Filled, Within, Scaled, Mean, Sized, Averaged, PixelCount, Block, Area;
    var img, box := Filled(factor, factor, p), Block(0, 0, factor);
    CountRight(factor);
    OneBlock(factor);
    forall c: nat | c < 4
      ensures Inside(img, box) && Averaged(img, c, box, PixelCount(factor)) == if c == 3 then 0 else p[c]
    {
      FilledEvenly(factor, factor, p, c);
      AveragedIsScaled(img, c, box);
      if c == 3 {
        UniformWraps(img, 3, box, p[3]);
      } else {
        UniformExactly(img, c, box, p[c]);
      }
    }
  }

  /** Main result. For every factor whose square fits 32 bits: averaging premultiplied images keeps
      every colour at most its alpha, and the way to straight alpha and back recovers every averaged
      channel without a clamp, if and only if an opaque block's alpha sum fits 32 bits. */
  lemma AveragedRecovers(factor: nat)
    requires 0 < factor < 0x1_0000
    ensures KeepsOrder(factor) <==> 255 * factor * factor < TWO32
    ensures Recovers(factor) <==> 255 * factor * factor < TWO32
  {
    hide OutPixel, Premultiplied, Produces, Straight, Multiplied, Rounded;
    if 255 * factor * factor < TWO32 {
      forall src: seq<byte>, sw: u32, sh: u32, x: nat, y: nat, c: nat
        | Premultiplied(src) && Produces(src, sw, sh, factor, x, y) && c < 3
        ensures var p := OutPixel(src, sw, sh, factor, x, y); |p| == 4 && p[c] <= p[3] && Recovered(p[c], p[3])
      {
        SmallFactorKeeps(src, sw, sh, factor, x, y, c);
        var p := OutPixel(src, sw, sh, factor, x, y);
        StraightRecovers(p[c], p[3]);
      }
    } else {
      var src, v := LargeFactorLoses(factor);
      var p := OutPixel(src, factor, factor, factor, 0, 0);
      StraightRecovers(p[0], p[3]);
      assert p[0] > p[3];
    }
  }

  /** Factor 4105 is the first that fails: an opaque image of 4105 by 4105 pixels averages to alpha 0. */
  lemma OpaqueTurnsClear()
    ensures 255 * 4104 * 4104 < TWO32
    ensures var src := Tiled(4105 * 4105, [254, 254, 254, 255]);
      && Premultiplied(src) && Produces(src, 4105, 4105, 4105, 0, 0)
      && OutPixel(src, 4105, 4105, 4105, 0, 0) == [254, 254, 254, 0]
  {
    hide Premultiplied, Produces, OutPixel, Tiled;
    var src, v := LargeFactorLoses(4105);
  }
}
