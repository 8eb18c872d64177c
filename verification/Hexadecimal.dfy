/** Hexadecimal digits, numbers and byte strings. */
module Hexadecimal {
  import opened Arith
  import opened Words

  /** The lower-case digit of a value. */
  function HexDigit(n: int): byte
    requires 0 <= n < 16
  {
    if n < 10 then 0x30 + n else 0x61 + (n - 10)
  }

  /** `is_ascii_hexdigit`. */
  predicate IsHex(b: byte) {
    0x30 <= b <= 0x39 || 0x41 <= b <= 0x46 || 0x61 <= b <= 0x66
  }

  /** 0123456789abcdef */
  const LOWER: seq<byte> := [0x30, 0x31, 0x32, 0x33, 0x34, 0x35, 0x36, 0x37, 0x38, 0x39, 0x61, 0x62, 0x63, 0x64, 0x65, 0x66]

  /** ABCDEF */
  const UPPER: seq<byte> := [0x41, 0x42, 0x43, 0x44, 0x45, 0x46]

  lemma DigitExactly(n: int, b: byte)
    requires 0 <= n < 16
    ensures LOWER[n] == HexDigit(n)
    ensures IsHex(b) <==> b in LOWER || b in UPPER
  {
    if IsHex(b) {
      if b <= 0x39 {
        assert LOWER[b - 0x30] == b;
      } else if b <= 0x46 {
        assert UPPER[b - 0x41] == b;
      } else {
        assert LOWER[b - 0x57] == b;
      }
    }
  }

  function HexValue(b: byte): int {
    if b <= 0x39 then b - 0x30 else if b <= 0x46 then b - 0x37 else b - 0x57
  }

  lemma DigitReads(n: int)
    requires 0 <= n < 16
    ensures IsHex(HexDigit(n)) && HexValue(HexDigit(n)) == n
  {
  }

  // ---------- Numbers ----------

  /** The last `k` hexadecimal digits of `n`. */
  function Hex(n: nat, k: nat): (s: seq<byte>)
    ensures |s| == k
  {
    if k == 0 then [] else Hex(n / 16, k - 1) + [HexDigit(n % 16)]
  }

  /** The number digits spell, the most significant first. */
  function Number(s: seq<byte>): int {
    if s == [] then 0 else Number(s[..|s| - 1]) * 16 + HexValue(s[|s| - 1])
  }

  function Pow16(k: nat): (p: nat)
    ensures p > 0
  {
    if k == 0 then 1 else Pow16(k - 1) * 16
  }

  lemma {:induction false} HexReads(n: nat, k: nat)
    requires n < Pow16(k)
    ensures Number(Hex(n, k)) == n && forall i :: 0 <= i < k ==> Hex(n, k)[i] in LOWER
    decreases k
  {
    if k > 0 {
      hide HexDigit, HexValue;
      DivBelow(n, 16, Pow16(k - 1));
      HexReads(n / 16, k - 1);
      DigitReads(n % 16);
      DigitExactly(n % 16, 0);
      var s := Hex(n, k);
      assert s[..k - 1] == Hex(n / 16, k - 1) && s[k - 1] == HexDigit(n % 16);
    }
  }

  // ---------- Byte strings ----------

  /** Two digits a byte, as `hex::encode` writes them. */
  function HexText(bytes: seq<byte>): (s: seq<byte>)
    ensures |s| == 2 * |bytes|
  {
    if bytes == [] then [] else [HexDigit(bytes[0] / 16), HexDigit(bytes[0] % 16)] + HexText(bytes[1..])
  }

  function FromHexText(s: seq<byte>): seq<int> {
    if |s| < 2 then [] else [HexValue(s[0]) * 16 + HexValue(s[1])] + FromHexText(s[2..])
  }

  /** A byte string is read back from its text, which has nothing but digits. */
  lemma {:induction false} HexTextReads(bytes: seq<byte>)
    ensures FromHexText(HexText(bytes)) == bytes
    ensures forall i :: 0 <= i < 2 * |bytes| ==> IsHex(HexText(bytes)[i])
    decreases |bytes|
  {
    if bytes != [] {
      hide HexDigit, HexValue, IsHex;
      var s := HexText(bytes);
      HexTextReads(bytes[1..]);
      DigitReads(bytes[0] / 16);
      DigitReads(bytes[0] % 16);
      assert s[2..] == HexText(bytes[1..]);
      assert [bytes[0]] + bytes[1..] == bytes;
    }
  }
}
