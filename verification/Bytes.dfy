/** Unsigned numbers as fixed-width byte strings, in both byte orders. */
module Bytes {
  import opened Arith
  import opened Words

  function Pow256(k: nat): (p: int)
    ensures p >= 1
  {
    if k == 0 then 1 else Pow256(k - 1) * 256
  }

  /** The low `k` bytes of `n`, least significant first. */
  function Le(n: nat, k: nat): (s: seq<byte>)
    ensures |s| == k
  {
    if k == 0 then [] else [n % 256] + Le(n / 256, k - 1)
  }

  function FromLe(s: seq<byte>): nat {
    if s == [] then 0 else s[0] + 256 * FromLe(s[1..])
  }

  /** The low `k` bytes of `n`, most significant first. */
  function Be(n: nat, k: nat): (s: seq<byte>)
    ensures |s| == k
  {
    if k == 0 then [] else Be(n / 256, k - 1) + [n % 256]
  }

  function FromBe(s: seq<byte>): nat {
    if s == [] then 0 else FromBe(s[..|s| - 1]) * 256 + s[|s| - 1]
  }

  lemma {:induction false} LeReads(n: nat, k: nat)
    requires n < Pow256(k)
    ensures FromLe(Le(n, k)) == n
    decreases k
  {
    if k > 0 {
      DivBelow(n, 256, Pow256(k - 1));
      LeReads(n / 256, k - 1);
      assert Le(n, k)[1..] == Le(n / 256, k - 1);
    }
  }

  lemma {:induction false} LeWrites(s: seq<byte>)
    ensures FromLe(s) < Pow256(|s|) && Le(FromLe(s), |s|) == s
    decreases |s|
  {
    if s != [] {
      LeWrites(s[1..]);
      DivMod(FromLe(s), 256, FromLe(s[1..]), s[0]);
      assert s == [s[0]] + s[1..];
    }
  }

  lemma {:induction false} BeReads(n: nat, k: nat)
    requires n < Pow256(k)
    ensures FromBe(Be(n, k)) == n
    decreases k
  {
    if k > 0 {
      DivBelow(n, 256, Pow256(k - 1));
      BeReads(n / 256, k - 1);
      assert Be(n, k)[..k - 1] == Be(n / 256, k - 1);
    }
  }

  lemma {:induction false} BeWrites(s: seq<byte>)
    ensures FromBe(s) < Pow256(|s|) && Be(FromBe(s), |s|) == s
    decreases |s|
  {
    if s != [] {
      var i := |s| - 1;
      BeWrites(s[..i]);
      DivMod(FromBe(s), 256, FromBe(s[..i]), s[i]);
      assert s == s[..i] + [s[i]];
    }
  }

  lemma FourBytes(b: seq<byte>)
    requires |b| == 4
    ensures FromLe(b) == (b[0] as int) + (b[1] as int) * 0x100 + (b[2] as int) * 0x1_0000 + (b[3] as int) * 0x100_0000
  {
    var c := b[1..];
    var d := c[1..];
    assert d[1..] == [b[3]] && FromLe(d[1..]) == b[3];
    assert FromLe(d) == b[2] + 256 * FromLe(d[1..]);
    assert FromLe(c) == b[1] + 256 * FromLe(d);
  }

  lemma FourBytesBe(b: seq<byte>)
    requires |b| == 4
    ensures FromBe(b) == (b[0] as int) * 0x100_0000 + (b[1] as int) * 0x1_0000 + (b[2] as int) * 0x100 + (b[3] as int)
  {
    var c := b[..3];
    var d := c[..2];
    assert d[..1] == [b[0]] && FromBe([b[0]]) == b[0];
    assert FromBe(d) == FromBe(d[..1]) * 256 + b[1];
    assert FromBe(c) == FromBe(d) * 256 + b[2];
  }

  lemma Powers()
    ensures Pow256(1) == 0x100 && Pow256(2) == 0x1_0000 && Pow256(4) == 0x1_0000_0000
    ensures Pow256(8) == 0x1_0000_0000_0000_0000
  {
    assert Pow256(3) == 0x100_0000;
    assert Pow256(5) == 0x100_0000_0000;
    assert Pow256(6) == 0x1_0000_0000_0000;
    assert Pow256(7) == 0x100_0000_0000_0000;
  }
}
