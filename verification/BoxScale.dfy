/** Area-average downscaling of the wallpaper: which source pixels a destination pixel averages,
    and what the 32-bit channel sums make of the average. */
module BoxScale {
  import opened Arith
  import opened Words

  // ---------- Footprints along one axis ----------

  /** First source coordinate of destination `i`. */
  function Lo(i: nat, src: nat, dst: nat): nat
    requires dst > 0
  {
    i * src / dst
  }

  /** One past the last source coordinate of destination `i`. */
  function Hi(i: nat, src: nat, dst: nat): nat
    requires dst > 0
  {
    var next := (i + 1) * src / dst;
    var atLeastOne := if next > Lo(i, src, dst) + 1 then next else Lo(i, src, dst) + 1;
    if atLeastOne < src then atLeastOne else src
  }

  predicate Covers(i: nat, x: int, src: nat, dst: nat)
    requires dst > 0
  {
    Lo(i, src, dst) <= x < Hi(i, src, dst)
  }

  lemma LoSteps(i: nat, src: nat, dst: nat)
    requires dst > 0
    ensures Lo(i, src, dst) <= Lo(i + 1, src, dst)
    ensures src >= dst ==> Lo(i, src, dst) + 1 <= Lo(i + 1, src, dst)
  {
    assert (i + 1) * src == i * src + src;
    DivMonotone(i * src, (i + 1) * src, dst);
  }

  lemma LoEnds(src: nat, dst: nat)
    requires dst > 0
    ensures Lo(0, src, dst) == 0 && Lo(dst, src, dst) == src
  {
    DivMod(0, dst, 0, 0);
    DivMod(dst * src, dst, src, 0);
  }

  lemma {:induction false} LoOrdered(i: nat, j: nat, src: nat, dst: nat)
    requires dst > 0 && i <= j
    ensures Lo(i, src, dst) <= Lo(j, src, dst)
    decreases j - i
  {
    hide Lo;
    if i < j {
      LoSteps(i, src, dst);
      LoOrdered(i + 1, j, src, dst);
    }
  }

  lemma LoBelow(i: nat, src: nat, dst: nat)
    requires i < dst && src > 0
    ensures Lo(i, src, dst) < src
  {
    assert dst * src == i * src + (dst - i) * src;
    MultipleOf(dst - i, src);
    DivBelow(i * src, dst, src);
  }

  /** For all positive sizes every footprint is non-empty and inside the source. */
  lemma FootprintInside(i: nat, src: nat, dst: nat)
    requires i < dst && src > 0
    ensures Lo(i, src, dst) < Hi(i, src, dst) <= src
  {
    hide Lo;
    LoBelow(i, src, dst);
  }

  /** Which coordinates a destination counts: those whose end lies past its own start and before its
      own end in the source, without any rounding; or the one its start lies in. */
  lemma CoversExactly(i: nat, x: nat, src: nat, dst: nat)
    requires i < dst && src > 0
    ensures Covers(i, x, src, dst) <==>
      i * src < (x + 1) * dst && ((x + 1) * dst <= (i + 1) * src || x * dst <= i * src)
  {
    DivExactly(i * src, dst, x + 1);
    DivExactly(i * src, dst, x);
    DivExactly((i + 1) * src, dst, x + 1);
    NextAtMost(i, src, dst);
    LoBelow(i, src, dst);
  }

  lemma NextAtMost(i: nat, src: nat, dst: nat)
    requires i < dst
    ensures (i + 1) * src / dst <= src
  {
    MulOrder(i + 1, dst, src);
    DivMonotone((i + 1) * src, dst * src, dst);
    DivMod(dst * src, dst, src, 0);
  }

  lemma HiIsNextLo(i: nat, src: nat, dst: nat)
    requires i < dst <= src
    ensures Hi(i, src, dst) == Lo(i + 1, src, dst)
  {
    LoSteps(i, src, dst);
    LoOrdered(i + 1, dst, src, dst);
    LoEnds(src, dst);
  }

  ghost predicate Covered(x: int, src: nat, dst: nat)
    requires dst > 0
  {
    exists i: nat :: i < dst && Covers(i, x, src, dst)
  }

  /** Each source coordinate belongs to exactly one destination. */
  ghost predicate TilesExactly(src: nat, dst: nat)
    requires dst > 0
  {
    && (forall x :: 0 <= x < src ==> Covered(x, src, dst))
    && (forall i: nat, j: nat, x :: i < dst && j < dst && Covers(i, x, src, dst) && Covers(j, x, src, dst) ==> i == j)
  }

  lemma {:induction false} FindCover(x: int, i: nat, src: nat, dst: nat) returns (k: nat)
    requires i < dst <= src && Lo(i, src, dst) <= x < src
    ensures i <= k < dst && Covers(k, x, src, dst)
    decreases dst - i
  {
    HiIsNextLo(i, src, dst);
    if x < Hi(i, src, dst) {
      k := i;
    } else {
      LoEnds(src, dst);
      k := FindCover(x, i + 1, src, dst);
    }
  }

  lemma NoOverlap(i: nat, j: nat, x: int, src: nat, dst: nat)
    requires i < j < dst <= src && Covers(i, x, src, dst)
    ensures !Covers(j, x, src, dst)
  {
    hide Lo;
    HiIsNextLo(i, src, dst);
    LoOrdered(i + 1, j, src, dst);
  }

  /** With fewer source than destination coordinates two neighbours start at the same one. */
  lemma {:induction false} FindFlat(i: nat, src: nat, dst: nat) returns (k: nat)
    requires 0 < src < dst && i < dst && Lo(i, src, dst) >= i
    ensures i <= k < dst - 1 && Lo(k, src, dst) == Lo(k + 1, src, dst)
    decreases dst - i
  {
    hide Lo;
    LoBelow(i, src, dst);
    LoSteps(i, src, dst);
    if Lo(i, src, dst) == Lo(i + 1, src, dst) {
      k := i;
    } else {
      k := FindFlat(i + 1, src, dst);
    }
  }

  /** Along one axis, every source coordinate is counted exactly once if and only if the source is
      at least as long as the target. */
  lemma AxisExactly(src: nat, dst: nat)
    requires src > 0 && dst > 0
    ensures TilesExactly(src, dst) <==> src >= dst
  {
    hide Lo, Covers;
    LoEnds(src, dst);
    if src >= dst {
      forall x | 0 <= x < src
        ensures Covered(x, src, dst)
      {
        var k := FindCover(x, 0, src, dst);
      }
      forall i: nat, j: nat, x | i < dst && j < dst && Covers(i, x, src, dst) && Covers(j, x, src, dst)
        ensures i == j
      {
        if i < j {
          NoOverlap(i, j, x, src, dst);
        } else if j < i {
          NoOverlap(j, i, x, src, dst);
        }
      }
    } else {
      var i, j, x := CountedTwice(src, dst);
    }
  }

  /** A shorter source has a coordinate that two destinations count. */
  lemma CountedTwice(src: nat, dst: nat) returns (i: nat, j: nat, x: int)
    requires 0 < src < dst
    ensures i < j < dst && Covers(i, x, src, dst) && Covers(j, x, src, dst)
  {
    hide Lo, Covers;
    LoEnds(src, dst);
    i := FindFlat(0, src, dst);
    j, x := i + 1, Lo(i, src, dst);
    CoversStart(i, src, dst);
    CoversStart(j, src, dst);
  }

  lemma CoversStart(i: nat, src: nat, dst: nat)
    requires i < dst && src > 0
    ensures Covers(i, Lo(i, src, dst), src, dst)
  {
    FootprintInside(i, src, dst);
  }

  // ---------- Sums over a box ----------

  /** A pixel is its channels; an image is its rows. */
  type Pixel = seq<byte>
  type Image = seq<seq<Pixel>>
  datatype Box = Box(x0: nat, x1: nat, y0: nat, y1: nat)

  function Chan(p: Pixel, c: nat): byte {
    if c < |p| then p[c] else 0
  }

  predicate Inside(img: Image, box: Box) {
    box.x0 <= box.x1 && box.y0 <= box.y1 <= |img| && forall y :: box.y0 <= y < box.y1 ==> box.x1 <= |img[y]|
  }

  function Area(box: Box): int {
    (box.x1 - box.x0) * (box.y1 - box.y0)
  }

  function RowSum(row: seq<Pixel>, c: nat, x0: nat, x1: nat): nat
    requires x0 <= x1 <= |row|
    decreases x1
  {
    if x1 == x0 then 0 else RowSum(row, c, x0, x1 - 1) + Chan(row[x1 - 1], c)
  }

  function BoxSum(img: Image, c: nat, box: Box): nat
    requires Inside(img, box)
    decreases box.y1
  {
    if box.y1 == box.y0 then 0
    else BoxSum(img, c, box.(y1 := box.y1 - 1)) + RowSum(img[box.y1 - 1], c, box.x0, box.x1)
  }

  /** Channel `d` is at least channel `c` on every pixel of the box. */
  ghost predicate Dominates(img: Image, box: Box, c: nat, d: nat)
    requires Inside(img, box)
  {
    forall y, x :: box.y0 <= y < box.y1 && box.x0 <= x < box.x1 ==> Chan(img[y][x], c) <= Chan(img[y][x], d)
  }

  lemma {:induction false} RowSumOrder(row: seq<Pixel>, c: nat, d: nat, x0: nat, x1: nat)
    requires x0 <= x1 <= |row|
    requires forall x :: x0 <= x < x1 ==> Chan(row[x], c) <= Chan(row[x], d)
    ensures RowSum(row, c, x0, x1) <= RowSum(row, d, x0, x1)
    decreases x1
  {
    if x0 < x1 {
      RowSumOrder(row, c, d, x0, x1 - 1);
    }
  }

  lemma {:induction false} BoxSumOrder(img: Image, c: nat, d: nat, box: Box)
    requires Inside(img, box) && Dominates(img, box, c, d)
    ensures BoxSum(img, c, box) <= BoxSum(img, d, box)
    decreases box.y1
  {
    if box.y0 < box.y1 {
      BoxSumOrder(img, c, d, box.(y1 := box.y1 - 1));
      RowSumOrder(img[box.y1 - 1], c, d, box.x0, box.x1);
    }
  }

  ghost predicate Within(img: Image, box: Box, c: nat, lo: int, hi: int)
    requires Inside(img, box)
  {
    forall y, x :: box.y0 <= y < box.y1 && box.x0 <= x < box.x1 ==> lo <= Chan(img[y][x], c) <= hi
  }

  lemma {:induction false} RowSumBounds(row: seq<Pixel>, c: nat, x0: nat, x1: nat, lo: int, hi: int)
    requires x0 <= x1 <= |row|
    requires forall x :: x0 <= x < x1 ==> lo <= Chan(row[x], c) <= hi
    ensures (x1 - x0) * lo <= RowSum(row, c, x0, x1) <= (x1 - x0) * hi
    decreases x1
  {
    if x0 < x1 {
      RowSumBounds(row, c, x0, x1 - 1, lo, hi);
      assert (x1 - x0) * lo == (x1 - 1 - x0) * lo + lo && (x1 - x0) * hi == (x1 - 1 - x0) * hi + hi;
    }
  }

  lemma AreaGrows(box: Box, v: int)
    requires box.y0 < box.y1
    ensures Area(box) * v == Area(box.(y1 := box.y1 - 1)) * v + (box.x1 - box.x0) * v
  {
    var w, h := box.x1 - box.x0, box.y1 - box.y0;
    assert w * h == w * (h - 1) + w;
    assert (w * (h - 1) + w) * v == w * (h - 1) * v + w * v;
  }

  lemma {:induction false} BoxSumBounds(img: Image, c: nat, box: Box, lo: int, hi: int)
    requires Inside(img, box) && Within(img, box, c, lo, hi)
    ensures Area(box) * lo <= BoxSum(img, c, box) <= Area(box) * hi
    decreases box.y1
  {
    hide Area;
    if box.y0 == box.y1 {
      FlatArea(box);
    } else {
      BoxSumBounds(img, c, box.(y1 := box.y1 - 1), lo, hi);
      RowSumBounds(img[box.y1 - 1], c, box.x0, box.x1, lo, hi);
      AreaGrows(box, lo);
      AreaGrows(box, hi);
    }
  }

  lemma FlatArea(box: Box)
    requires box.y0 == box.y1
    ensures Area(box) == 0
  {
  }

  lemma MeanBetween(sum: nat, n: nat, lo: int, hi: int)
    requires n > 0 && n * lo <= sum <= n * hi
    ensures lo <= sum / n <= hi
  {
    DivAtLeast(sum, n, lo);
    assert (hi + 1) * n == n * hi + n;
    DivBelow(sum, n, hi + 1);
  }

  lemma WrapAdd(a: nat, v: nat)
    ensures (a % TWO32 + v) % TWO32 == (a + v) % TWO32
  {
  }

  method SumRow(row: seq<Pixel>, x0: nat, x1: nat, acc0: seq<nat>, ghost sums: seq<nat>) returns (acc: seq<nat>)
    requires x0 <= x1 <= |row| && |acc0| == |sums|
    requires forall c :: 0 <= c < |acc0| ==> acc0[c] == sums[c] % TWO32
    ensures |acc| == |acc0|
    ensures forall c :: 0 <= c < |acc| ==> acc[c] == (sums[c] + RowSum(row, c, x0, x1)) % TWO32
  {
    acc := acc0;
    for x := x0 to x1
      invariant |acc| == |acc0|
      invariant forall c :: 0 <= c < |acc| ==> acc[c] == (sums[c] + RowSum(row, c, x0, x)) % TWO32
    {
      var before := acc;
      acc := seq(|acc|, c requires 0 <= c < |before| => (before[c] + Chan(row[x], c)) % TWO32);
      forall c | 0 <= c < |acc|
        ensures acc[c] == (sums[c] + RowSum(row, c, x0, x + 1)) % TWO32
      {
        WrapAdd(sums[c] + RowSum(row, c, x0, x), Chan(row[x], c));
      }
    }
  }

  /** Channel sums of a box, in 32-bit words as the source keeps them. */
  method SumBox(img: Image, box: Box, channels: nat) returns (acc: seq<nat>)
    requires Inside(img, box)
    ensures |acc| == channels && forall c :: 0 <= c < channels ==> acc[c] == BoxSum(img, c, box) % TWO32
  {
    acc := seq(channels, _ => 0);
    for y := box.y0 to box.y1
      invariant |acc| == channels
      invariant forall c :: 0 <= c < channels ==> acc[c] == BoxSum(img, c, box.(y1 := y)) % TWO32
    {
      ghost var part := box.(y1 := y);
      ghost var sums := seq(channels, c requires 0 <= c < channels => BoxSum(img, c, part));
      acc := SumRow(img[y], box.x0, box.x1, acc, sums);
    }
    assert box.(y1 := box.y1) == box;
  }

  /** The floor of the mean of channel `c` over the box. */
  function Mean(img: Image, c: nat, box: Box): nat
    requires Inside(img, box) && Area(box) > 0
  {
    DivAtLeast(BoxSum(img, c, box), Area(box), 0);
    BoxSum(img, c, box) / Area(box)
  }

  /** What the code computes for channel `c`: its 32-bit sum divided by the number of pixels. */
  function Scaled(img: Image, c: nat, box: Box): nat
    requires Inside(img, box) && Area(box) > 0
  {
    DivAtLeast(BoxSum(img, c, box) % TWO32, Area(box), 0);
    BoxSum(img, c, box) % TWO32 / Area(box)
  }

  lemma WrappedQuotient(sum: nat, n: nat)
    requires 0 < n <= TWO32
    ensures sum % TWO32 / n <= sum / n
    ensures sum % TWO32 / n == sum / n <==> sum < TWO32
  {
    var rest := sum % TWO32;
    DivMonotone(rest, sum, n);
    if sum >= TWO32 {
      assert rest + n <= sum;
    }
  }

  /** The computed channel is the mean if and only if the channel's sum fits 32 bits, and it fits a
      byte in any case. */
  lemma SumGivesMean(img: Image, c: nat, box: Box)
    requires Inside(img, box) && 0 < Area(box) <= TWO32
    ensures Scaled(img, c, box) == Mean(img, c, box) <==> BoxSum(img, c, box) < TWO32
    ensures Scaled(img, c, box) <= Mean(img, c, box) <= 255
  {
    hide BoxSum, Inside, Area;
    WrappedQuotient(BoxSum(img, c, box), Area(box));
    AnyByte(img, box, c);
    MeanInRange(img, c, box, 0, 255);
  }

  /** `v` is a byte, and the mean of the channel exactly when the channel's sum fits 32 bits. */
  ghost predicate MeanWhereItFits(img: Image, c: nat, box: Box, v: int)
    requires Inside(img, box) && Area(box) > 0
  {
    0 <= v <= 255 && (v == Mean(img, c, box) <==> BoxSum(img, c, box) < TWO32)
  }

  lemma AnyByte(img: Image, box: Box, c: nat)
    requires Inside(img, box)
    ensures Within(img, box, c, 0, 255)
  {
  }

  /** Each averaged channel lies between the least and the greatest value under its footprint. */
  lemma MeanInRange(img: Image, c: nat, box: Box, lo: int, hi: int)
    requires Inside(img, box) && Area(box) > 0 && Within(img, box, c, lo, hi)
    ensures lo <= Mean(img, c, box) <= hi
  {
    BoxSumBounds(img, c, box, lo, hi);
    MeanBetween(BoxSum(img, c, box), Area(box), lo, hi);
  }

  /** Both are rounded down: the mean reaches a value exactly if the sum reaches that value times the
      area, and the computed channel exactly if the wrapped sum does. */
  lemma RoundedDown(img: Image, c: nat, box: Box, v: nat)
    requires Inside(img, box) && Area(box) > 0
    ensures v <= Mean(img, c, box) <==> Area(box) * v <= BoxSum(img, c, box)
    ensures v <= Scaled(img, c, box) <==> Area(box) * v <= BoxSum(img, c, box) % TWO32
  {
    hide BoxSum, Inside, Area;
    DivExactly(BoxSum(img, c, box), Area(box), v);
    DivExactly(BoxSum(img, c, box) % TWO32, Area(box), v);
    assert v * Area(box) == Area(box) * v;
  }

  /** The computed channel never exceeds the greatest value under its footprint. It reaches the
      least one if and only if that value times the area is at most the wrapped sum, as it always
      is while the sum fits 32 bits. */
  lemma ScaledInRange(img: Image, c: nat, box: Box, lo: nat, hi: nat)
    requires Inside(img, box) && 0 < Area(box) <= TWO32 && Within(img, box, c, lo, hi)
    ensures Scaled(img, c, box) <= hi
    ensures lo <= Scaled(img, c, box) <==> Area(box) * lo <= BoxSum(img, c, box) % TWO32
    ensures BoxSum(img, c, box) < TWO32 ==> lo <= Scaled(img, c, box)
  {
    hide BoxSum, Inside, Area, Within;
    SumGivesMean(img, c, box);
    MeanInRange(img, c, box, lo, hi);
    RoundedDown(img, c, box, lo);
  }

  /** Under a footprint of one colour, the colour comes out if and only if its sum fits 32 bits. */
  lemma UniformExactly(img: Image, c: nat, box: Box, v: nat)
    requires Inside(img, box) && 0 < Area(box) <= TWO32 && Within(img, box, c, v, v)
    ensures BoxSum(img, c, box) == Area(box) * v
    ensures Scaled(img, c, box) == v <==> Area(box) * v < TWO32
  {
    hide BoxSum, Inside, Area, Within;
    BoxSumBounds(img, c, box, v, v);
    MeanInRange(img, c, box, v, v);
    SumGivesMean(img, c, box);
  }

  /** If its sum wraps once and leaves less than the area, the colour turns to zero. */
  lemma UniformWraps(img: Image, c: nat, box: Box, v: nat)
    requires Inside(img, box) && 0 < Area(box) <= TWO32 && Within(img, box, c, v, v)
    requires TWO32 <= Area(box) * v < TWO32 + Area(box)
    ensures Scaled(img, c, box) == 0 && Mean(img, c, box) == v
  {
    hide BoxSum, Inside, Area, Within;
    UniformExactly(img, c, box, v);
    MeanInRange(img, c, box, v, v);
    var rest := Area(box) * v - TWO32;
    DivMod(BoxSum(img, c, box), TWO32, 1, rest);
    DivMod(rest, Area(box), 0, rest);
  }

  // ---------- Wallpaper ----------

  predicate Sized(img: Image, w: nat, h: nat) {
    |img| == h && forall y :: 0 <= y < h ==> |img[y]| == w
  }

  function Footprint(x: nat, y: nat, sw: nat, sh: nat, tw: nat, th: nat): Box
    requires tw > 0 && th > 0
  {
    Box(Lo(x, sw, tw), Hi(x, sw, tw), Lo(y, sh, th), Hi(y, sh, th))
  }

  predicate Has(box: Box, sx: int, sy: int) {
    box.x0 <= sx < box.x1 && box.y0 <= sy < box.y1
  }

  ghost predicate Counted(sx: int, sy: int, sw: nat, sh: nat, tw: nat, th: nat)
    requires tw > 0 && th > 0
  {
    exists x: nat, y: nat :: x < tw && y < th && Has(Footprint(x, y, sw, sh, tw, th), sx, sy)
  }

  /** Each source pixel lies in the footprint of exactly one destination pixel. */
  ghost predicate TilesPixels(sw: nat, sh: nat, tw: nat, th: nat)
    requires tw > 0 && th > 0
  {
    && (forall sx, sy :: 0 <= sx < sw && 0 <= sy < sh ==> Counted(sx, sy, sw, sh, tw, th))
    && (forall x: nat, y: nat, x': nat, y': nat, sx, sy ::
          && x < tw && x' < tw && y < th && y' < th
          && Has(Footprint(x, y, sw, sh, tw, th), sx, sy) && Has(Footprint(x', y', sw, sh, tw, th), sx, sy)
          ==> x == x' && y == y')
  }

  lemma HasExactly(x: nat, y: nat, sx: int, sy: int, sw: nat, sh: nat, tw: nat, th: nat)
    requires tw > 0 && th > 0
    ensures Has(Footprint(x, y, sw, sh, tw, th), sx, sy) <==> Covers(x, sx, sw, tw) && Covers(y, sy, sh, th)
  {
    hide Lo, Hi;
  }

  /** The footprints count every source pixel exactly once if and only if the source is at least as
      large as the target both ways; a smaller source has pixels counted more than once. */
  lemma TilingExactly(sw: nat, sh: nat, tw: nat, th: nat)
    requires sw > 0 && sh > 0 && tw > 0 && th > 0
    ensures TilesPixels(sw, sh, tw, th) <==> sw >= tw && sh >= th
  {
    hide Covers, Footprint, Has;
    AxisExactly(sw, tw);
    AxisExactly(sh, th);
    forall x: nat, y: nat, sx, sy
      ensures Has(Footprint(x, y, sw, sh, tw, th), sx, sy) <==> Covers(x, sx, sw, tw) && Covers(y, sy, sh, th)
    {
      HasExactly(x, y, sx, sy, sw, sh, tw, th);
    }
    if sw >= tw && sh >= th {
      forall sx, sy | 0 <= sx < sw && 0 <= sy < sh
        ensures Counted(sx, sy, sw, sh, tw, th)
      {
        assert Covered(sx, sw, tw) && Covered(sy, sh, th);
      }
    } else if sw < tw {
      var i, j, sx := CountedTwice(sw, tw);
      var sy := Lo(0, sh, th);
      CoversStart(0, sh, th);
      assert Has(Footprint(i, 0, sw, sh, tw, th), sx, sy) && Has(Footprint(j, 0, sw, sh, tw, th), sx, sy);
    } else {
      var i, j, sy := CountedTwice(sh, th);
      var sx := Lo(0, sw, tw);
      CoversStart(0, sw, tw);
      assert Has(Footprint(0, i, sw, sh, tw, th), sx, sy) && Has(Footprint(0, j, sw, sh, tw, th), sx, sy);
    }
  }

  // ---------- Nothing is lost ----------

  lemma {:induction false} RowSumSplits(row: seq<Pixel>, c: nat, x0: nat, m: nat, x1: nat)
    requires x0 <= m <= x1 <= |row|
    ensures RowSum(row, c, x0, x1) == RowSum(row, c, x0, m) + RowSum(row, c, m, x1)
    decreases x1
  {
    if m < x1 {
      RowSumSplits(row, c, x0, m, x1 - 1);
    }
  }

  lemma {:induction false} SumSplitsAcross(img: Image, c: nat, box: Box, m: nat)
    requires Inside(img, box) && box.x0 <= m <= box.x1
    ensures BoxSum(img, c, box) == BoxSum(img, c, box.(x1 := m)) + BoxSum(img, c, box.(x0 := m))
    decreases box.y1
  {
    if box.y0 < box.y1 {
      var up := box.(y1 := box.y1 - 1);
      SumSplitsAcross(img, c, up, m);
      assert box.(x1 := m).(y1 := box.y1 - 1) == up.(x1 := m) && box.(x0 := m).(y1 := box.y1 - 1) == up.(x0 := m);
      RowSumSplits(img[box.y1 - 1], c, box.x0, m, box.x1);
    }
  }

  lemma {:induction false} SumSplitsDown(img: Image, c: nat, box: Box, m: nat)
    requires Inside(img, box) && box.y0 <= m <= box.y1
    ensures BoxSum(img, c, box) == BoxSum(img, c, box.(y1 := m)) + BoxSum(img, c, box.(y0 := m))
    decreases box.y1
  {
    if m < box.y1 {
      SumSplitsDown(img, c, box.(y1 := box.y1 - 1), m);
      assert box.(y0 := m).(y1 := box.y1 - 1) == box.(y1 := box.y1 - 1).(y0 := m);
    }
  }

  lemma OnePixel(img: Image, c: nat, x: nat, y: nat)
    requires y < |img| && x < |img[y]|
    ensures Inside(img, Box(x, x + 1, y, y + 1)) && BoxSum(img, c, Box(x, x + 1, y, y + 1)) == Chan(img[y][x], c)
  {
    var box := Box(x, x + 1, y, y + 1);
    assert box.(y1 := y) == Box(x, x + 1, y, y) && BoxSum(img, c, Box(x, x + 1, y, y)) == 0;
    assert RowSum(img[y], c, x, x + 1) == RowSum(img[y], c, x, x) + Chan(img[y][x], c);
  }

  /** A sum is made of its pixels: one pixel is its own sum, and a box cut in two either way has the
      sums of its parts. */
  lemma SumOfPixels(img: Image, c: nat, box: Box, x: nat, y: nat)
    requires Inside(img, box) && box.x0 <= x < box.x1 && box.y0 <= y < box.y1
    ensures BoxSum(img, c, Box(x, x + 1, y, y + 1)) == Chan(img[y][x], c)
    ensures BoxSum(img, c, box) == BoxSum(img, c, box.(x1 := x)) + BoxSum(img, c, box.(x0 := x))
    ensures BoxSum(img, c, box) == BoxSum(img, c, box.(y1 := y)) + BoxSum(img, c, box.(y0 := y))
  {
    hide BoxSum, Chan;
    SumSplitsAcross(img, c, box, x);
    SumSplitsDown(img, c, box, y);
    OnePixel(img, c, x, y);
  }

  datatype Grid = Grid(sw: nat, sh: nat, tw: nat, th: nat)

  predicate Fits(img: Image, g: Grid) {
    Sized(img, g.sw, g.sh) && 0 < g.tw <= g.sw && 0 < g.th <= g.sh
  }

  /** The sums of the first `n` footprints of destination row `y`. */
  function RowTotal(img: Image, c: nat, g: Grid, y: nat, n: nat): nat
    requires Fits(img, g) && y < g.th && n <= g.tw
  {
    if n == 0 then 0
    else
      FootprintFits(img, n - 1, y, g.sw, g.sh, g.tw, g.th);
      RowTotal(img, c, g, y, n - 1) + BoxSum(img, c, Footprint(n - 1, y, g.sw, g.sh, g.tw, g.th))
  }

  /** The sums of all footprints of the first `m` destination rows. */
  function GridTotal(img: Image, c: nat, g: Grid, m: nat): nat
    requires Fits(img, g) && m <= g.th
  {
    if m == 0 then 0 else GridTotal(img, c, g, m - 1) + RowTotal(img, c, g, m - 1, g.tw)
  }

  lemma LoWithin(i: nat, src: nat, dst: nat)
    requires i <= dst && dst > 0
    ensures Lo(i, src, dst) <= src
  {
    LoOrdered(i, dst, src, dst);
    LoEnds(src, dst);
  }

  lemma FlatSum(img: Image, c: nat, box: Box)
    requires Inside(img, box) && (box.x0 == box.x1 || box.y0 == box.y1)
    ensures BoxSum(img, c, box) == 0
  {
    BoxSumBounds(img, c, box, 0, 255) by { AnyByte(img, box, c); }
    if box.x0 == box.x1 {
      assert Area(box) == 0;
    }
  }

  lemma {:induction false} RowAdds(img: Image, c: nat, g: Grid, y: nat, n: nat)
    requires Fits(img, g) && y < g.th && n <= g.tw
    ensures var box := Box(0, Lo(n, g.sw, g.tw), Lo(y, g.sh, g.th), Lo(y + 1, g.sh, g.th));
      Inside(img, box) && RowTotal(img, c, g, y, n) == BoxSum(img, c, box)
    decreases n
  {
    hide Lo, Hi, BoxSum;
    LoWithin(n, g.sw, g.tw);
    LoWithin(y + 1, g.sh, g.th);
    LoSteps(y, g.sh, g.th);
    LoEnds(g.sw, g.tw);
    var box := Box(0, Lo(n, g.sw, g.tw), Lo(y, g.sh, g.th), Lo(y + 1, g.sh, g.th));
    if n == 0 {
      FlatSum(img, c, box);
    } else {
      RowAdds(img, c, g, y, n - 1);
      HiIsNextLo(n - 1, g.sw, g.tw);
      HiIsNextLo(y, g.sh, g.th);
      LoSteps(n - 1, g.sw, g.tw);
      SumSplitsAcross(img, c, box, Lo(n - 1, g.sw, g.tw));
    }
  }

  lemma {:induction false} GridAdds(img: Image, c: nat, g: Grid, m: nat)
    requires Fits(img, g) && m <= g.th
    ensures var box := Box(0, g.sw, 0, Lo(m, g.sh, g.th));
      Inside(img, box) && GridTotal(img, c, g, m) == BoxSum(img, c, box)
    decreases m
  {
    hide Lo, BoxSum, RowTotal;
    LoWithin(m, g.sh, g.th);
    LoEnds(g.sh, g.th);
    LoEnds(g.sw, g.tw);
    var box := Box(0, g.sw, 0, Lo(m, g.sh, g.th));
    if m == 0 {
      FlatSum(img, c, box);
    } else {
      GridAdds(img, c, g, m - 1);
      RowAdds(img, c, g, m - 1, g.tw);
      LoSteps(m - 1, g.sh, g.th);
      SumSplitsDown(img, c, box, Lo(m - 1, g.sh, g.th));
    }
  }

  /** Main result. When an image is reduced, the sums of all footprints add up to the sum of the
      whole image: no pixel is lost and none is counted twice. */
  lemma SumIsConserved(img: Image, c: nat, g: Grid)
    requires Fits(img, g)
    ensures Inside(img, Box(0, g.sw, 0, g.sh))
    ensures GridTotal(img, c, g, g.th) == BoxSum(img, c, Box(0, g.sw, 0, g.sh))
  {
    hide Lo, BoxSum, GridTotal;
    GridAdds(img, c, g, g.th);
    LoEnds(g.sh, g.th);
  }

  // ---------- Pixel by pixel ----------

  lemma FootprintFits(img: Image, x: nat, y: nat, sw: nat, sh: nat, tw: nat, th: nat)
    requires Sized(img, sw, sh) && sw > 0 && sh > 0 && x < tw && y < th
    ensures Inside(img, Footprint(x, y, sw, sh, tw, th)) && Area(Footprint(x, y, sw, sh, tw, th)) > 0
  {
    hide Lo, Hi;
    FootprintInside(x, sw, tw);
    FootprintInside(y, sh, th);
    MultipleOf(Hi(x, sw, tw) - Lo(x, sw, tw), Hi(y, sh, th) - Lo(y, sh, th));
  }

  /** The opaque BGRA pixel computed for an RGB footprint. */
  function Shrunk(img: Image, box: Box): seq<int>
    requires Inside(img, box) && Area(box) > 0
  {
    [Scaled(img, 2, box), Scaled(img, 1, box), Scaled(img, 0, box), 255]
  }

  /** Each of the three colours is its footprint's mean exactly when its sum fits 32 bits. */
  ghost predicate MeanBgr(img: Image, box: Box, p: seq<int>)
    requires Inside(img, box) && Area(box) > 0
  {
    |p| == 4 && MeanWhereItFits(img, 2, box, p[0]) && MeanWhereItFits(img, 1, box, p[1]) && MeanWhereItFits(img, 0, box, p[2])
  }

  lemma ShrunkFits(img: Image, box: Box)
    requires Inside(img, box) && 0 < Area(box) <= TWO32
    ensures MeanBgr(img, box, Shrunk(img, box))
  {
    hide Inside, Area, Mean, BoxSum, Scaled;
    SumGivesMean(img, 0, box);
    SumGivesMean(img, 1, box);
    SumGivesMean(img, 2, box);
  }

  method DownscalePixel(img: Image, box: Box) returns (p: seq<int>)
    requires Inside(img, box) && Area(box) > 0
    ensures p == Shrunk(img, box)
  {
    hide Inside, Area, Mean, BoxSum;
    var sums := SumBox(img, box, 3);
    var n := Area(box);
    p := [sums[2] / n, sums[1] / n, sums[0] / n, 255];
  }

  lemma FootprintSmall(x: nat, y: nat, sw: nat, sh: nat, tw: nat, th: nat)
    requires 0 < sw <= 0xFFFF && 0 < sh <= 0xFFFF && x < tw && y < th
    ensures Area(Footprint(x, y, sw, sh, tw, th)) <= TWO32
  {
    hide Lo, Hi;
    FootprintInside(x, sw, tw);
    FootprintInside(y, sh, th);
    var w, h := Hi(x, sw, tw) - Lo(x, sw, tw), Hi(y, sh, th) - Lo(y, sh, th);
    MulOrder(w, 0xFFFF, h);
  }

  /** What every output pixel must be. */
  ghost predicate PixelRight(img: Image, sw: nat, sh: nat, tw: nat, th: nat, x: nat, y: nat, p: seq<int>)
    requires tw > 0 && th > 0
  {
    var box := Footprint(x, y, sw, sh, tw, th);
    Inside(img, box) && Area(box) > 0 && p == Shrunk(img, box) && MeanBgr(img, box, p)
  }

  /** JPEG sides are 16-bit numbers. Every output pixel is what the 32-bit sums over its footprint
      give, and so its mean exactly where the sum fits. */
  method DownscaleWallpaper(img: Image, sw: nat, sh: nat, tw: nat, th: nat) returns (out: seq<seq<seq<int>>>)
    requires Sized(img, sw, sh) && 0 < sw <= 0xFFFF && 0 < sh <= 0xFFFF
    ensures |out| == th && forall y :: 0 <= y < th ==> |out[y]| == tw
    ensures forall y, x :: 0 <= y < th && 0 <= x < tw ==> PixelRight(img, sw, sh, tw, th, x, y, out[y][x])
  {
    out := [];
    for y := 0 to th
      invariant |out| == y && forall k :: 0 <= k < y ==> |out[k]| == tw
      invariant forall k, x :: 0 <= k < y && 0 <= x < tw ==> PixelRight(img, sw, sh, tw, th, x, k, out[k][x])
    {
      hide Footprint, Shrunk, Area, Inside, MeanBgr, Sized;
      var row := [];
      for x := 0 to tw
        invariant |row| == x
        invariant forall k :: 0 <= k < x ==> PixelRight(img, sw, sh, tw, th, k, y, row[k])
      {
        FootprintFits(img, x, y, sw, sh, tw, th);
        FootprintSmall(x, y, sw, sh, tw, th);
        ShrunkFits(img, Footprint(x, y, sw, sh, tw, th));
        var p := DownscalePixel(img, Footprint(x, y, sw, sh, tw, th));
        row := row + [p];
      }
      out := out + [row];
    }
  }

  function Filled(w: nat, h: nat, p: Pixel): Image {
    seq(h, _ => seq(w, _ => p))
  }

  lemma FilledEvenly(w: nat, h: nat, p: Pixel, c: nat)
    ensures var img, box := Filled(w, h, p), Box(0, w, 0, h);
      Sized(img, w, h) && Inside(img, box) && Within(img, box, c, Chan(p, c), Chan(p, c))
  {
  }

  /** The three channels of an RGB colour come out in the order blue, green, red, and opaque. */
  lemma ColourKept(w: nat, h: nat, p: Pixel)
    requires w > 0 && h > 0 && |p| == 3 && w * h * 255 < TWO32
    ensures var img, box := Filled(w, h, p), Footprint(0, 0, w, h, 1, 1);
      Inside(img, box) && Area(box) > 0 && Shrunk(img, box) == [p[2], p[1], p[0], 255]
  {
    MultipleOf(w, h);
    hide BoxSum, Inside, Filled, Footprint, Within, Scaled, Sized;
    WholeFootprint(w, h);
    var img, box := Filled(w, h, p), Box(0, w, 0, h);
    forall c: nat | c < 3
      ensures Inside(img, box) && Scaled(img, c, box) == p[c]
    {
      FilledEvenly(w, h, p, c);
      MulOrder(p[c], 255, w * h);
      UniformExactly(img, c, box, p[c]);
    }
  }

  lemma WholeFootprint(w: nat, h: nat)
    requires w > 0 && h > 0
    ensures Footprint(0, 0, w, h, 1, 1) == Box(0, w, 0, h)
  {
  }

  /** A white image of 4105 by 4104 pixels comes out black when it is reduced to one pixel. */
  lemma WhiteTurnsBlack()
    ensures var img, box := Filled(4105, 4104, [255, 255, 255]), Footprint(0, 0, 4105, 4104, 1, 1);
      && Sized(img, 4105, 4104) && Inside(img, box) && Area(box) > 0
      && Shrunk(img, box) == [0, 0, 0, 255] && Mean(img, 0, box) == 255
  {
    var white: Pixel := [255, 255, 255];
    var img, box := Filled(4105, 4104, white), Box(0, 4105, 0, 4104);
    assert Area(box) == 16_846_920;
    hide BoxSum, Inside, Area, Filled, Footprint, Within, Scaled, Mean, Sized;
    WholeFootprint(4105, 4104);
    FilledEvenly(4105, 4104, white, 0);
    FilledEvenly(4105, 4104, white, 1);
    FilledEvenly(4105, 4104, white, 2);
    UniformWraps(img, 0, box, 255);
    UniformWraps(img, 1, box, 255);
    UniformWraps(img, 2, box, 255);
  }
}
