/** Which operations the wallpaper encoder chooses, told from the decoder's side: its rows are the
    only ones in normal form, and none that keeps to the format's rules is shorter. */
module QoiChoices {
  import opened Arith
  import opened Qoi
  import opened Results
  import opened Words

  // ---------- The index slot ----------

  /** The slot of black, and how each channel moves it. */
  lemma HashMoves(p: Px)
    ensures Hash(BLACK) == 53
    ensures p.r < 255 ==> Hash(p.(r := p.r + 1)) == (Hash(p) + 3) % 64
    ensures p.g < 255 ==> Hash(p.(g := p.g + 1)) == (Hash(p) + 5) % 64
    ensures p.b < 255 ==> Hash(p.(b := p.b + 1)) == (Hash(p) + 7) % 64
  {
    var n: int := p.r * 3 + p.g * 5 + p.b * 7 + 255 * 11;
    AddInside(n, 3);
    AddInside(n, 5);
    AddInside(n, 7);
  }

  lemma AddInside(n: nat, k: nat)
    ensures (n + k) % 64 == (n % 64 + k) % 64
  {
  }

  // ---------- One colour ----------

  lemma DeltaOf(from: byte, d: int)
    requires -128 <= d <= 127
    ensures Delta((from + d) % 256, from) == d
  {
  }

  lemma DeltasOf(prev: Px, db: int, dg: int, dr: int)
    requires -128 <= db <= 127 && -128 <= dg <= 127 && -128 <= dr <= 127
    ensures var px := Shift(prev, db, dg, dr);
      Delta(px.b, prev.b) == db && Delta(px.g, prev.g) == dg && Delta(px.r, prev.r) == dr
  {
    hide Delta;
    DeltaOf(prev.b, db);
    DeltaOf(prev.g, dg);
    DeltaOf(prev.r, dr);
  }

  lemma DiffBack(b0: byte)
    requires 64 <= b0 < 128
    ensures b0 == 64 + b0 / 16 % 4 * 16 + b0 / 4 % 4 * 4 + b0 % 4
  {
    assert b0 == b0 / 4 * 4 + b0 % 4;
    assert b0 / 4 == b0 / 16 * 4 + b0 / 4 % 4;
    assert b0 / 16 == 4 + b0 / 16 % 4;
  }

  lemma DiffIsChosen(prev: Px, b0: byte)
    requires 64 <= b0 < 128
    ensures ColorOp(prev, Shift(prev, b0 % 4 - 2, b0 / 4 % 4 - 2, b0 / 16 % 4 - 2)) == [b0]
  {
    hide Delta, Shift;
    var x, y, z := b0 / 16 % 4, b0 / 4 % 4, b0 % 4;
    DeltasOf(prev, z - 2, y - 2, x - 2);
    DiffBack(b0);
  }

  lemma LumaIsChosen(prev: Px, b0: byte, b1: byte)
    requires 128 <= b0 < 192
    ensures var dg := b0 % 64 - 32;
      var op := ColorOp(prev, Shift(prev, dg + b1 % 16 - 8, dg, dg + b1 / 16 - 8)); |op| == 1 || op == [b0, b1]
  {
    hide Delta, Shift;
    var dg := b0 % 64 - 32;
    DeltasOf(prev, dg + b1 % 16 - 8, dg, dg + b1 / 16 - 8);
    assert b1 == b1 / 16 * 16 + b1 % 16;
  }

  /** Whatever spells a colour without the index takes at least as many bytes as the encoder's
      operation, and is that very operation if it takes no more. */
  lemma ColorOpShortest(index: Index, prev: Px, bytes: seq<byte>)
    requires bytes != [] && bytes[0] >= 64 && NextOp(index, prev, bytes).Color?
    ensures var Color(px, used) := NextOp(index, prev, bytes);
      |ColorOp(prev, px)| <= used && (|ColorOp(prev, px)| == used ==> bytes[..used] == ColorOp(prev, px))
  {
    hide Shift, Delta;
    var b0 := bytes[0];
    if b0 < 128 {
      DiffIsChosen(prev, b0);
    } else if b0 < 192 {
      LumaIsChosen(prev, b0, bytes[1]);
      assert bytes[..2] == [b0, bytes[1]];
    } else {
      assert bytes[..4] == [b0, bytes[1], bytes[2], bytes[3]];
    }
  }

  // ---------- Normal form ----------

  /** Nothing but an index hit spells `px` in fewer than `n` bytes. */
  ghost predicate Shortest(index: Index, prev: Px, px: Px, n: nat) {
    forall bytes: seq<byte> :: bytes != [] && bytes[0] >= 64 && NextOp(index, prev, bytes).Color? ==>
      NextOp(index, prev, bytes).px == px ==> n <= NextOp(index, prev, bytes).used
  }

  /** Repeats are spelled by runs, each of 62 unless no repeat follows; other pixels by their own
      index slot if it holds them; the rest by the shortest operation there is. */
  ghost predicate Normal(index: Index, prev: Px, bytes: seq<byte>, width: nat)
    decreases width
  {
    if width == 0 then bytes == []
    else
      match NextOp(index, prev, bytes)
      case Short => false
      case Run(count) =>
        && count <= 62 && count <= width && (count == 62 || !NextOp(index, prev, bytes[1..]).Run?)
        && Normal(index, prev, bytes[1..], width - count)
      case Color(px, used) =>
        && px != prev
        && (if index[Hash(px)] == px then bytes[0] == Hash(px) else bytes[0] >= 64 && Shortest(index, prev, px, used))
        && Normal(index[Hash(px) := px], px, bytes[used..], width - 1)
  }

  lemma ColorOpIsShortest(index: Index, prev: Px, px: Px)
    ensures Shortest(index, prev, px, |ColorOp(prev, px)|)
  {
    hide ColorOp, NextOp;
    forall bytes: seq<byte> | bytes != [] && bytes[0] >= 64 && NextOp(index, prev, bytes).Color?
      ensures NextOp(index, prev, bytes).px == px ==> |ColorOp(prev, px)| <= NextOp(index, prev, bytes).used
    {
      ColorOpShortest(index, prev, bytes);
    }
  }

  /** The encoder's operation for a pixel that is not a repeat. */
  function OpOf(index: Index, prev: Px, px: Px): seq<byte> {
    if index[Hash(px)] == px then [Hash(px)] else ColorOp(prev, px)
  }

  lemma EncodeOther(index: Index, prev: Px, run: nat, pixels: seq<Px>)
    requires run < 62 && pixels != [] && pixels[0] != prev
    ensures var px := pixels[0];
      EncodeFrom(index, prev, run, pixels)
      == RunOp(run) + OpOf(index, prev, px) + EncodeFrom(index[Hash(px) := px], px, 0, pixels[1..])
  {
    hide Hash, ColorOp, RunOp, EncodeFrom;
    EncodeStep(index, prev, run, pixels);
    assert index[Hash(pixels[0])] == pixels[0] ==> index[Hash(pixels[0]) := pixels[0]] == index;
  }

  lemma EncodeRepeat(index: Index, prev: Px, run: nat, pixels: seq<Px>)
    requires run < 62 && pixels != [] && pixels[0] == prev
    ensures EncodeFrom(index, prev, run, pixels)
      == if run == 61 then RunOp(62) + EncodeFrom(index, prev, 0, pixels[1..]) else EncodeFrom(index, prev, run + 1, pixels[1..])
  {
    hide Hash, ColorOp, RunOp, EncodeFrom;
    EncodeStep(index, prev, run, pixels);
    Joins(RunOp(62), EncodeFrom(index, prev, 0, pixels[1..]));
  }

  lemma OpReads(index: Index, prev: Px, px: Px, tail: seq<byte>)
    ensures var op := OpOf(index, prev, px);
      && NextOp(index, prev, op + tail) == Color(px, |op|) && (op + tail)[|op|..] == tail && (op + tail)[0] == op[0]
  {
    hide Hash, ColorOp;
    if index[Hash(px)] != px {
      ColorOpDecodes(index, prev, px, tail);
    }
  }

  lemma RunReads(index: Index, prev: Px, run: nat, tail: seq<byte>)
    requires 1 <= run <= 62
    ensures NextOp(index, prev, RunOp(run) + tail) == Run(run) && (RunOp(run) + tail)[1..] == tail
  {
  }

  lemma NormalOp(index: Index, prev: Px, px: Px, tail: seq<byte>, width: nat)
    requires width > 0 && px != prev && Normal(index[Hash(px) := px], px, tail, width - 1)
    ensures Normal(index, prev, OpOf(index, prev, px) + tail, width)
  {
    hide Hash, ColorOp, NextOp, Shortest;
    OpReads(index, prev, px, tail);
    ColorOpIsShortest(index, prev, px);
  }

  lemma NormalRun(index: Index, prev: Px, run: nat, tail: seq<byte>, width: nat)
    requires 1 <= run <= 62 && run <= width && (run == 62 || !NextOp(index, prev, tail).Run?)
    requires Normal(index, prev, tail, width - run)
    ensures Normal(index, prev, RunOp(run) + tail, width)
  {
    hide NextOp, RunOp, Shortest;
    RunReads(index, prev, run, tail);
  }

  lemma Joins(b: seq<byte>, c: seq<byte>)
    ensures [] + b + c == b + c
  {
  }

  lemma EmptyIsShort(index: Index, prev: Px)
    ensures NextOp(index, prev, []) == Short && RunOp(0) == []
  {
  }

  lemma EndsNormally(index: Index, prev: Px, run: nat)
    requires run < 62
    ensures Normal(index, prev, EncodeFrom(index, prev, run, []), run)
  {
    EmptyIsShort(index, prev);
    if run > 0 {
      NormalRun(index, prev, run, [], run);
      assert RunOp(run) + [] == RunOp(run);
    }
  }

  lemma {:induction false} EncodesNormally(index: Index, prev: Px, run: nat, pixels: seq<Px>)
    requires run < 62 && index[Hash(prev)] == prev
    ensures Normal(index, prev, EncodeFrom(index, prev, run, pixels), run + |pixels|)
    decreases |pixels|
  {
    hide Hash, NextOp, RunOp, EncodeFrom, Normal, OpOf;
    if pixels == [] {
      EndsNormally(index, prev, run);
    } else if pixels[0] == prev {
      EncodeRepeat(index, prev, run, pixels);
      EncodesNormally(index, prev, if run == 61 then 0 else run + 1, pixels[1..]);
      if run == 61 {
        NormalRun(index, prev, 62, EncodeFrom(index, prev, 0, pixels[1..]), run + |pixels|);
      }
    } else {
      var px, rest := pixels[0], pixels[1..];
      EncodeOther(index, prev, run, pixels);
      EncodesNormally(index[Hash(px) := px], px, 0, rest);
      NormalColor(index, prev, run, px, EncodeFrom(index[Hash(px) := px], px, 0, rest), |pixels|);
    }
  }

  lemma NormalColor(index: Index, prev: Px, run: nat, px: Px, tail: seq<byte>, width: nat)
    requires run < 62 && width > 0 && px != prev && Normal(index[Hash(px) := px], px, tail, width - 1)
    ensures Normal(index, prev, RunOp(run) + OpOf(index, prev, px) + tail, run + width)
  {
    hide Hash, OpOf, NextOp, RunOp, Normal;
    var op := OpOf(index, prev, px);
    EmptyIsShort(index, prev);
    NormalOp(index, prev, px, tail, width);
    OpReads(index, prev, px, tail);
    assert RunOp(run) + op + tail == RunOp(run) + (op + tail);
    if run > 0 {
      NormalRun(index, prev, run, op + tail, run + width);
    } else {
      assert [] + (op + tail) == op + tail;
    }
  }

  // ---------- There is no other normal form ----------

  /** The first `n` pixels repeat `prev`. */
  ghost predicate Repeats(prev: Px, pixels: seq<Px>, n: nat) {
    n <= |pixels| && forall i :: 0 <= i < n ==> pixels[i] == prev
  }

  lemma {:induction false} RunEncodes(index: Index, prev: Px, run: nat, n: nat, pixels: seq<Px>)
    requires run < 62 && run + n <= 62 && Repeats(prev, pixels, n)
    ensures EncodeFrom(index, prev, run, pixels)
         == if run + n < 62 then EncodeFrom(index, prev, run + n, pixels[n..])
            else RunOp(62) + EncodeFrom(index, prev, 0, pixels[n..])
    decreases n
  {
    hide Hash, ColorOp, RunOp, EncodeFrom;
    if n == 0 {
      assert pixels[0..] == pixels;
    } else {
      EncodeRepeat(index, prev, run, pixels);
      assert pixels[1..][n - 1..] == pixels[n..];
      if run + 1 < 62 {
        RunEncodes(index, prev, run + 1, n - 1, pixels[1..]);
      }
    }
  }

  lemma RunFlushes(index: Index, prev: Px, run: nat, pixels: seq<Px>)
    requires run < 62 && (pixels == [] || pixels[0] != prev)
    ensures EncodeFrom(index, prev, run, pixels) == RunOp(run) + EncodeFrom(index, prev, 0, pixels)
  {
    EmptyIsShort(index, prev);
    if pixels == [] {
      assert RunOp(run) + [] == RunOp(run);
    } else {
      hide Hash, OpOf, EncodeFrom, RunOp;
      var px := pixels[0];
      EncodeOther(index, prev, run, pixels);
      EncodeOther(index, prev, 0, pixels);
      Grouped(RunOp(run), OpOf(index, prev, px), EncodeFrom(index[Hash(px) := px], px, 0, pixels[1..]));
    }
  }

  lemma Grouped(a: seq<byte>, b: seq<byte>, c: seq<byte>)
    ensures a + b + c == a + ([] + b + c)
  {
  }

  lemma PrependSplits(front: seq<Px>, tail: Option<seq<Px>>, pixels: seq<Px>)
    requires Prepend(front, tail) == Some(pixels)
    ensures |front| <= |pixels| && pixels[..|front|] == front && tail == Some(pixels[|front|..])
  {
  }

  /** What a decoded row says about its first operation. */
  lemma FirstOp(index: Index, prev: Px, bytes: seq<byte>, pixels: seq<Px>)
    requires pixels != [] && DecodeFrom(NotOnRun, index, prev, bytes, |pixels|) == Some(pixels)
    ensures match NextOp(index, prev, bytes)
      case Short => false
      case Run(count) =>
        var n := Min(count, |pixels|);
        Repeats(prev, pixels, n) && DecodeFrom(NotOnRun, index, prev, bytes[1..], |pixels| - n) == Some(pixels[n..])
      case Color(px, used) =>
        && pixels[0] == px
        && DecodeFrom(NotOnRun, index[Hash(px) := px], px, bytes[used..], |pixels| - 1) == Some(pixels[1..])
  {
    OneStep(index, prev, bytes, |pixels|);
    hide DecodeFrom, NextOp, Hash, Prepend;
    match NextOp(index, prev, bytes)
    case Short =>
    case Run(count) =>
      var n := Min(count, |pixels|);
      PrependSplits(Repeat(prev, n), DecodeFrom(NotOnRun, index, prev, bytes[1..], |pixels| - n), pixels);
      assert forall i :: 0 <= i < n ==> pixels[i] == pixels[..n][i];
    case Color(px, used) =>
      PrependSplits([px], DecodeFrom(NotOnRun, index[Hash(px) := px], px, bytes[used..], |pixels| - 1), pixels);
      assert pixels[0] == pixels[..1][0];
  }

  lemma OpUnique(index: Index, prev: Px, bytes: seq<byte>)
    requires NextOp(index, prev, bytes).Color?
    requires var px := NextOp(index, prev, bytes).px;
      if index[Hash(px)] == px then bytes[0] == Hash(px)
      else bytes[0] >= 64 && Shortest(index, prev, px, NextOp(index, prev, bytes).used)
    ensures var Color(px, used) := NextOp(index, prev, bytes); bytes == OpOf(index, prev, px) + bytes[used..]
  {
    hide Hash, ColorOp;
    var Color(px, used) := NextOp(index, prev, bytes);
    assert bytes == bytes[..used] + bytes[used..];
    if index[Hash(px)] == px {
      assert bytes[..1] == [bytes[0]];
    } else {
      hide NextOp;
      ColorOpShortest(index, prev, bytes);
      ColorOpDecodes(index, prev, px, []);
      assert ColorOp(prev, px) + [] == ColorOp(prev, px);
    }
  }

  lemma RunUnique(index: Index, prev: Px, bytes: seq<byte>)
    requires NextOp(index, prev, bytes).Run? && NextOp(index, prev, bytes).count <= 62
    ensures bytes == RunOp(NextOp(index, prev, bytes).count) + bytes[1..]
  {
    assert bytes == [bytes[0]] + bytes[1..];
  }

  lemma RunIsEncoded(index: Index, prev: Px, bytes: seq<byte>, pixels: seq<Px>, count: nat)
    requires NextOp(index, prev, bytes) == Run(count) && 1 <= count <= 62 && Repeats(prev, pixels, count)
    requires count == 62 || count == |pixels| || pixels[count] != prev
    requires bytes[1..] == EncodeFrom(index, prev, 0, pixels[count..])
    ensures bytes == EncodeFrom(index, prev, 0, pixels)
  {
    hide NextOp, RunOp, EncodeFrom;
    RunUnique(index, prev, bytes);
    RunEncodes(index, prev, 0, count, pixels);
    if count < 62 {
      RunFlushes(index, prev, count, pixels[count..]);
    }
  }

  lemma OpIsEncoded(index: Index, prev: Px, bytes: seq<byte>, pixels: seq<Px>)
    requires NextOp(index, prev, bytes).Color? && pixels != []
    requires var Color(px, used) := NextOp(index, prev, bytes);
      && pixels[0] == px != prev && bytes[used..] == EncodeFrom(index[Hash(px) := px], px, 0, pixels[1..])
      && (if index[Hash(px)] == px then bytes[0] == Hash(px) else bytes[0] >= 64 && Shortest(index, prev, px, used))
    ensures bytes == EncodeFrom(index, prev, 0, pixels)
  {
    hide Hash, OpOf, NextOp, RunOp, EncodeFrom, Shortest;
    var Color(px, used) := NextOp(index, prev, bytes);
    EmptyIsShort(index, prev);
    OpUnique(index, prev, bytes);
    EncodeOther(index, prev, 0, pixels);
    Joins(OpOf(index, prev, px), EncodeFrom(index[Hash(px) := px], px, 0, pixels[1..]));
  }

  lemma {:induction false} NormalIsEncoded(index: Index, prev: Px, bytes: seq<byte>, pixels: seq<Px>)
    requires index[Hash(prev)] == prev && Normal(index, prev, bytes, |pixels|)
    requires DecodeFrom(NotOnRun, index, prev, bytes, |pixels|) == Some(pixels)
    ensures bytes == EncodeFrom(index, prev, 0, pixels)
    decreases |pixels|
  {
    EmptyIsShort(index, prev);
    if pixels != [] {
      hide Hash, OpOf, NextOp, RunOp, EncodeFrom, DecodeFrom, Shortest;
      FirstOp(index, prev, bytes, pixels);
      match NextOp(index, prev, bytes)
      case Short => assert false;
      case Run(count) =>
        var rest := pixels[count..];
        NormalIsEncoded(index, prev, bytes[1..], rest);
        if count < 62 && rest != [] {
          FirstOp(index, prev, bytes[1..], rest);
        }
        RunIsEncoded(index, prev, bytes, pixels, count);
      case Color(px, used) =>
        var rest := pixels[1..];
        NormalIsEncoded(index[Hash(px) := px], px, bytes[used..], rest);
        OpIsEncoded(index, prev, bytes, pixels);
    }
  }

  /** Main result. Of all byte strings that decode to a row, the encoder emits the one in normal
      form; there is always one and never another. */
  lemma RowIsNormal(pixels: seq<Px>, bytes: seq<byte>)
    ensures bytes == EncodeRow(pixels) <==>
      Normal(ZeroIndex(), BLACK, bytes, |pixels|) && DecodeRow(bytes, |pixels|) == Some(pixels)
  {
    hide Hash, EncodeFrom, DecodeFrom, Normal;
    EncodesNormally(ZeroIndex(), BLACK, 0, pixels);
    RowRoundTrip(NotOnRun, pixels);
    if Normal(ZeroIndex(), BLACK, bytes, |pixels|) && DecodeRow(bytes, |pixels|) == Some(pixels) {
      NormalIsEncoded(ZeroIndex(), BLACK, bytes, pixels);
    }
  }

  // ---------- There is no shorter row ----------

  /** No operation is the reserved byte 255, which this decoder would take for a run of 64, and
      every index operation names the slot of its own colour. */
  ghost predicate Regular(index: Index, prev: Px, bytes: seq<byte>, width: nat)
    decreases width
  {
    width == 0 ||
      match NextOp(index, prev, bytes)
      case Short => false
      case Run(count) => count <= 62 && Regular(index, prev, bytes[1..], width - Min(count, width))
      case Color(px, used) =>
        && (bytes[0] < 64 ==> bytes[0] == Hash(px))
        && Regular(index[Hash(px) := px], px, bytes[used..], width - 1)
  }

  /** A longer pending run costs at most one byte more. */
  lemma {:induction false} RunCosts(index: Index, prev: Px, a: nat, b: nat, pixels: seq<Px>)
    requires a <= b < 62
    ensures |EncodeFrom(index, prev, a, pixels)| <= |EncodeFrom(index, prev, b, pixels)|
         <= |EncodeFrom(index, prev, a, pixels)| + 1
    decreases |pixels|
  {
    hide Hash, ColorOp;
    if pixels != [] && pixels[0] == prev {
      EncodeRepeat(index, prev, a, pixels);
      EncodeRepeat(index, prev, b, pixels);
      hide EncodeFrom;
      var rest := pixels[1..];
      if b + 1 < 62 {
        RunCosts(index, prev, a + 1, b + 1, rest);
      } else if a + 1 < 62 {
        RunCosts(index, prev, 0, a + 1, rest);
      }
    } else {
      RunFlushes(index, prev, a, pixels);
      RunFlushes(index, prev, b, pixels);
    }
  }

  lemma OpCosts(index: Index, prev: Px, bytes: seq<byte>, pixels: seq<Px>)
    requires pixels != [] && index[Hash(prev)] == prev && NextOp(index, prev, bytes).Color?
    requires pixels[0] == NextOp(index, prev, bytes).px && (bytes[0] < 64 ==> bytes[0] == Hash(pixels[0]))
    ensures var Color(px, used) := NextOp(index, prev, bytes);
      |EncodeFrom(index, prev, 0, pixels)| <= used + |EncodeFrom(index[Hash(px) := px], px, 0, pixels[1..])|
  {
    hide Hash, ColorOp, EncodeFrom, RunOp;
    EmptyIsShort(index, prev);
    var Color(px, used) := NextOp(index, prev, bytes);
    if px == prev {
      EncodeRepeat(index, prev, 0, pixels);
      assert index[Hash(px) := px] == index;
      RunCosts(index, prev, 0, 1, pixels[1..]);
    } else {
      EncodeOther(index, prev, 0, pixels);
      if index[Hash(px)] != px {
        assert bytes[0] >= 64;
        hide NextOp;
        ColorOpShortest(index, prev, bytes);
      }
    }
  }

  lemma {:induction false} NoneShorter(index: Index, prev: Px, bytes: seq<byte>, pixels: seq<Px>)
    requires index[Hash(prev)] == prev && Regular(index, prev, bytes, |pixels|)
    requires DecodeFrom(NotOnRun, index, prev, bytes, |pixels|) == Some(pixels)
    ensures |EncodeFrom(index, prev, 0, pixels)| <= |bytes|
    decreases |pixels|
  {
    EmptyIsShort(index, prev);
    if pixels != [] {
      hide Hash, ColorOp, NextOp, RunOp, EncodeFrom, DecodeFrom;
      FirstOp(index, prev, bytes, pixels);
      match NextOp(index, prev, bytes)
      case Short => assert false;
      case Run(count) =>
        var n := Min(count, |pixels|);
        NoneShorter(index, prev, bytes[1..], pixels[n..]);
        RunEncodes(index, prev, 0, n, pixels);
        OneByte(62);
        if n < 62 {
          RunCosts(index, prev, 0, n, pixels[n..]);
        }
      case Color(px, used) =>
        NoneShorter(index[Hash(px) := px], px, bytes[used..], pixels[1..]);
        OpCosts(index, prev, bytes, pixels);
    }
  }

  lemma OneByte(run: nat)
    requires run <= 62
    ensures |RunOp(run)| <= 1
  {
  }

  /** Main result. No regular byte string that decodes to the row is shorter than the encoder's. */
  lemma RowIsShortest(pixels: seq<Px>, bytes: seq<byte>)
    requires Regular(ZeroIndex(), BLACK, bytes, |pixels|) && DecodeRow(bytes, |pixels|) == Some(pixels)
    ensures |EncodeRow(pixels)| <= |bytes|
  {
    hide Hash, EncodeFrom, DecodeFrom, Regular;
    NoneShorter(ZeroIndex(), BLACK, bytes, pixels);
  }

  /** Without that rule it is not: 64 black pixels are two bytes here, and the reserved byte alone
      decodes to them. */
  lemma ReservedByteShorter()
    ensures DecodeRow([255], 64) == Some(Repeat(BLACK, 64)) && |EncodeRow(Repeat(BLACK, 64))| == 2
  {
    hide Hash, DecodeFrom, EncodeFrom;
    var pixels, bytes: seq<byte>, index := Repeat(BLACK, 64), [255], ZeroIndex();
    assert NextOp(index, BLACK, bytes) == Run(64);
    OneStep(index, BLACK, bytes, 64);
    NoneLeft(NotOnRun, index, BLACK, bytes[1..]);
    assert pixels + [] == pixels;
    SixtyFour(index, BLACK);
  }

  lemma SixtyFour(index: Index, px: Px)
    ensures |EncodeFrom(index, px, 0, Repeat(px, 64))| == 2
  {
    hide EncodeFrom;
    var pixels, rest := Repeat(px, 64), Repeat(px, 2);
    RunEncodes(index, px, 0, 62, pixels);
    assert pixels[62..] == rest && rest[2..] == [];
    RunEncodes(index, px, 0, 2, rest);
    RunFlushes(index, px, 2, []);
    NothingEncodes(index, px);
  }

  lemma NothingEncodes(index: Index, prev: Px)
    ensures EncodeFrom(index, prev, 0, []) == []
  {
  }
}
