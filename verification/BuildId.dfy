/** The deterministic build id of a program: the letter b and the sixteen hexadecimal digits of a
    64-bit hash of its name in the manner of FNV-1a. Two places compute it, one from a digit table. */
module BuildId {
  import opened Arith
  import opened Hexadecimal
  import opened Minidump
  import opened Words

  /** Exclusive or of the low `k` bits. */
  function XorBits(a: nat, b: nat, k: nat): nat {
    if k == 0 then 0 else XorBits(a / 2, b / 2, k - 1) * 2 + (a + b) % 2
  }

  function Bit(a: nat, i: nat): nat {
    if i == 0 then a % 2 else Bit(a / 2, i - 1)
  }

  lemma XorStep(a: nat, b: nat, k: nat)
    ensures XorBits(a, b, 0) == 0
    ensures k > 0 ==> XorBits(a, b, k) == XorBits(a / 2, b / 2, k - 1) * 2 + (a + b) % 2
  {
  }

  lemma Parity(y: nat, a: nat, b: nat)
    ensures var x := y * 2 + (a + b) % 2;
      x / 2 == y && x % 2 == (a + b) % 2 && (x + a) % 2 == b % 2 && (x % 2 == 1 <==> a % 2 != b % 2)
  {
  }

  lemma BitStep(a: nat, i: nat)
    ensures Bit(a, 0) == a % 2 && (i > 0 ==> Bit(a, i) == Bit(a / 2, i - 1))
  {
  }

  lemma {:induction false} ZeroBit(i: nat)
    ensures Bit(0, i) == 0
    decreases i
  {
    if i > 0 {
      ZeroBit(i - 1);
    }
  }

  /** Each bit of the result is set if exactly one of the two is. */
  lemma {:induction false} XorIsBitwise(a: nat, b: nat, k: nat, i: nat)
    ensures Bit(XorBits(a, b, k), i) == if i < k && Bit(a, i) != Bit(b, i) then 1 else 0
    decreases k
  {
    hide XorBits, Bit;
    XorStep(a, b, k);
    if k == 0 {
      ZeroBit(i);
    } else {
      Parity(XorBits(a / 2, b / 2, k - 1), a, b);
      BitStep(a, i);
      BitStep(b, i);
      BitStep(XorBits(a, b, k), i);
      if i > 0 {
        XorIsBitwise(a / 2, b / 2, k - 1, i - 1);
      }
    }
  }

  /** Xoring the same number twice changes nothing, so it tells different numbers apart. */
  lemma {:induction false} XorUndoes(a: nat, b: nat, k: nat)
    ensures XorBits(XorBits(a, b, k), a, k) == b % Pow2(k) && XorBits(a, b, k) < Pow2(k)
    decreases k
  {
    hide XorBits, Pow2;
    var x := XorBits(a, b, k);
    XorStep(a, b, k);
    XorStep(x, a, k);
    PowStep(k);
    if k > 0 {
      Parity(XorBits(a / 2, b / 2, k - 1), a, b);
      XorUndoes(a / 2, b / 2, k - 1);
      SplitLow(b, k);
    }
  }

  lemma PowStep(k: nat)
    ensures Pow2(0) == 1 && (k > 0 ==> Pow2(k) == Pow2(k - 1) * 2)
  {
  }

  function Pow2(k: nat): (p: nat)
    ensures p > 0
  {
    if k == 0 then 1 else Pow2(k - 1) * 2
  }

  lemma SplitLow(b: nat, k: nat)
    requires k > 0
    ensures b % Pow2(k) == b / 2 % Pow2(k - 1) * 2 + b % 2
  {
    var p, h := Pow2(k - 1), b / 2;
    assert h == h / p * p + h % p;
    DivMod(b, p * 2, h / p, h % p * 2 + b % 2);
  }

  lemma EightBits()
    ensures Pow2(8) == 256
  {
    assert Pow2(4) == 16;
  }

  function Xor(a: byte, b: byte): byte {
    XorUndoes(a, b, 8);
    EightBits();
    XorBits(a, b, 8)
  }

  /** Hash state after one more byte: xor into the low byte, then a wrapping product. */
  function Absorb(h: u64, b: byte): u64 {
    (h - h % 256 + Xor(h % 256, b)) * 0x1000_0000_01b3 % TWO64
  }

  function Fnv(name: seq<byte>): u64 {
    if name == [] then 0xcbf2_9ce4_8422_2325 else Absorb(Fnv(name[..|name| - 1]), name[|name| - 1])
  }

  /** The offset basis of the hash, and what one more byte does to it: xor into the low eight bits,
      then a product with 2^44 + 435, in 64 bits. (The FNV prime would be 2^40 + 435.) */
  lemma FnvGrows(name: seq<byte>, b: byte)
    ensures Fnv([]) == 14_695_981_039_346_656_037
    ensures Fnv(name + [b]) == (Fnv(name) / 256 * 256 + XorBits(Fnv(name) % 256, b, 8)) * 17_592_186_044_851 % TWO64
  {
    hide Absorb;
    assert (name + [b])[..|name|] == name;
    AbsorbIs(Fnv(name), b);
  }

  lemma AbsorbIs(h: u64, b: byte)
    ensures Absorb(h, b) == (h / 256 * 256 + XorBits(h % 256, b, 8)) * 17_592_186_044_851 % TWO64
  {
    hide XorBits;
    assert h - h % 256 == h / 256 * 256;
  }

  const INVERSE: int := 13001286669926045051

  /** The factor has an inverse modulo 2^64. */
  lemma Unmultiplied(x: u64)
    ensures x * 17_592_186_044_851 % TWO64 * INVERSE % TWO64 == x
  {
    var p := x * 17_592_186_044_851;
    var q, r := p / TWO64, p % TWO64;
    assert 17_592_186_044_851 * INVERSE == 1 + 12398993177650 * TWO64;
    assert r * INVERSE == (x * 12398993177650 - q * INVERSE) * TWO64 + x;
    DivMod(r * INVERSE, TWO64, x * 12398993177650 - q * INVERSE, x);
  }

  lemma SameProduct(x: u64, y: u64)
    requires x * 17_592_186_044_851 % TWO64 == y * 17_592_186_044_851 % TWO64
    ensures x == y
  {
    Unmultiplied(x);
    Unmultiplied(y);
  }

  /** Names that differ in their last byte alone have different hashes. */
  lemma LastByteTells(name: seq<byte>, b: byte, c: byte)
    requires Fnv(name + [b]) == Fnv(name + [c])
    ensures b == c
  {
    hide Fnv, XorBits, Pow2;
    FnvGrows(name, b);
    FnvGrows(name, c);
    var h := Fnv(name);
    EightBits();
    XorUndoes(h % 256, b, 8);
    XorUndoes(h % 256, c, 8);
    var x, y := XorBits(h % 256, b, 8), XorBits(h % 256, c, 8);
    SameProduct(h / 256 * 256 + x, h / 256 * 256 + y);
    assert b % 256 == b && c % 256 == c;
  }

  function BuildIdOf(name: seq<byte>): (id: seq<byte>)
    ensures |id| == 17
  {
    [0x62] + Hex(Fnv(name), 16)
  }

  /** The letter b, and sixteen lower-case digits that spell the hash. */
  lemma BuildIdReads(name: seq<byte>)
    ensures var id := BuildIdOf(name);
      && |id| == 17 && id[0] == 0x62 && Number(id[1..]) == Fnv(name)
      && forall i :: 1 <= i < 17 ==> id[i] in LOWER
  {
    hide Fnv, Hex, Number, Pow16;
    SixteenDigits();
    HexReads(Fnv(name), 16);
    assert BuildIdOf(name)[1..] == Hex(Fnv(name), 16);
  }

  lemma SixteenDigits()
    ensures Pow16(16) == TWO64
  {
    assert Pow16(4) == 0x1_0000;
    assert Pow16(8) == 0x1_0000_0000;
    assert Pow16(12) == 0x1_0000_0000_0000;
  }

  lemma {:induction false} HexIsPlain(n: nat, k: nat)
    ensures forall i :: 0 <= i < k ==> Plain(Hex(n, k)[i])
    decreases k
  {
    if k > 0 {
      HexIsPlain(n / 16, k - 1);
    }
  }

  /** Whatever the name, its build id is one a minidump accepts. */
  lemma BuildIdIsLabel(name: seq<byte>)
    ensures Label(BuildIdOf(name), MAX_BUILD_ID_LEN)
  {
    hide Fnv, Hex;
    HexIsPlain(Fnv(name), 16);
  }

  lemma DivTwice(n: nat, d: nat)
    requires d > 0
    ensures n / d / 16 == n / (d * 16)
  {
    var q, r := n / d / 16, n / d % 16;
    assert n == n / d * d + n % d;
    assert n / d == q * 16 + r;
    assert n == (q * 16 + r) * d + n % d == q * (d * 16) + (r * d + n % d);
    MulOrder(r, 15, d);
    DivMod(n, d * 16, q, r * d + n % d);
  }

  /** `h` shifted right by `shift` digits. */
  function Shifted(h: u64, shift: nat): nat {
    DivAtLeast(h, Pow16(shift), 0);
    h / Pow16(shift)
  }

  function Nibble(h: u64, shift: nat): (n: nat)
    ensures n < 16
  {
    Shifted(h, shift) % 16
  }

  /** The digits written before digit `shift`. */
  function Written(h: u64, shift: nat): seq<byte>
    requires shift <= 16
  {
    [0x62] + Hex(Shifted(h, shift), 16 - shift)
  }

  lemma WrittenNext(h: u64, shift: nat)
    requires shift < 16
    ensures Written(h, shift) == Written(h, shift + 1) + [HexDigit(Nibble(h, shift))]
  {
    hide Pow16, HexDigit;
    assert Pow16(shift + 1) == Pow16(shift) * 16 by { PowNext(shift); }
    DivTwice(h, Pow16(shift));
  }

  lemma PowNext(k: nat)
    ensures Pow16(k + 1) == Pow16(k) * 16
  {
  }

  lemma WrittenEnds(name: seq<byte>, h: u64)
    requires h == Fnv(name)
    ensures Written(h, 16) == [0x62] && Written(h, 0) == BuildIdOf(name)
  {
    hide Fnv;
    assert Pow16(0) == 1;
  }

  method Hash(name: seq<byte>) returns (h: u64)
    ensures h == Fnv(name)
  {
    hide Absorb;
    h := 0xcbf2_9ce4_8422_2325;
    for i := 0 to |name|
      invariant h == Fnv(name[..i])
    {
      assert name[..i + 1][..i] == name[..i];
      h := Absorb(h, name[i]);
    }
    assert name[..|name|] == name;
  }

  /** The payload builder's version: digits by arithmetic. */
  method DeterministicBuildIdBytes(name: seq<byte>) returns (out: seq<byte>)
    ensures out == BuildIdOf(name)
  {
    var h := Hash(name);
    WrittenEnds(name, h);
    hide Fnv, HexDigit, Written, Nibble, BuildIdOf;
    out := [0x62];
    for shift := 16 downto 0
      invariant out == Written(h, shift)
    {
      WrittenNext(h, shift);
      out := out + [HexDigit(Nibble(h, shift))];
    }
  }

  /** The crash library's version: digits from a table. The two agree on every name. */
  method DeterministicBuildId(name: seq<byte>) returns (out: seq<byte>)
    ensures out == BuildIdOf(name)
  {
    var h := Hash(name);
    WrittenEnds(name, h);
    hide Fnv, HexDigit, Written, Nibble, BuildIdOf;
    out := [0x62];
    for shift := 16 downto 0
      invariant out == Written(h, shift)
    {
      WrittenNext(h, shift);
      DigitExactly(Nibble(h, shift), 0);
      out := out + [LOWER[Nibble(h, shift)]];
    }
  }
}
