/** Well-formed UTF-8, byte sequences as listed in section 4 of RFC 3629, and the characters they
    stand for. */
module Utf8 {
  import opened Words

  predicate Tail(b: byte) { 0x80 <= b <= 0xBF }

  /** How many bytes the first character takes, or 0 when there is no well-formed one. */
  function FirstSize(s: seq<byte>): (n: nat)
    ensures n <= |s|
  {
    if |s| >= 1 && s[0] <= 0x7F then 1
    else if |s| >= 2 && 0xC2 <= s[0] <= 0xDF && Tail(s[1]) then 2
    else if |s| >= 3 && 0xE0 <= s[0] <= 0xEF && Tail(s[1]) && Tail(s[2])
         && (s[0] == 0xE0 ==> s[1] >= 0xA0) && (s[0] == 0xED ==> s[1] <= 0x9F) then 3
    else if |s| >= 4 && 0xF0 <= s[0] <= 0xF4 && Tail(s[1]) && Tail(s[2]) && Tail(s[3])
         && (s[0] == 0xF0 ==> s[1] >= 0x90) && (s[0] == 0xF4 ==> s[1] <= 0x8F) then 4
    else 0
  }

  predicate Valid(s: seq<byte>) {
    s == [] || (FirstSize(s) > 0 && Valid(s[FirstSize(s)..]))
  }

  type Text = s: seq<byte> | Valid(s)

  lemma {:induction false} AsciiIsValid(s: seq<byte>)
    requires forall i :: 0 <= i < |s| ==> s[i] < 0x80
    ensures Valid(s)
    decreases |s|
  {
    if s != [] {
      AsciiIsValid(s[1..]);
    }
  }

  // ---------- Characters ----------

  /** A code point that is a character: no surrogate. */
  type Scalar = c: int | 0 <= c <= 0x10_FFFF && !(0xD800 <= c <= 0xDFFF)

  /** The bytes of a character, after the table in section 3 of RFC 3629. */
  function Spelling(c: Scalar): (s: seq<byte>)
    ensures 1 <= |s| <= 4
  {
    if c < 0x80 then [c]
    else if c < 0x800 then [0xC0 + c / 0x40, 0x80 + c % 0x40]
    else if c < 0x1_0000 then [0xE0 + c / 0x1000, 0x80 + c / 0x40 % 0x40, 0x80 + c % 0x40]
    else [0xF0 + c / 0x4_0000, 0x80 + c / 0x1000 % 0x40, 0x80 + c / 0x40 % 0x40, 0x80 + c % 0x40]
  }

  lemma FirstIsSpelled(c: Scalar, rest: seq<byte>)
    ensures FirstSize(Spelling(c) + rest) == |Spelling(c)|
  {
    var s := Spelling(c) + rest;
    assert forall i :: 0 <= i < |Spelling(c)| ==> s[i] == Spelling(c)[i];
    if c < 0x80 {
    } else if c < 0x800 {
      assert c / 0x40 >= 2;
    } else if c < 0x1_0000 {
      ThreeByteRanges(c);
    } else {
      FourByteRanges(c);
    }
  }

  lemma ThreeByteRanges(c: int)
    requires 0x800 <= c < 0x1_0000 && !(0xD800 <= c <= 0xDFFF)
    ensures c / 0x1000 == 0 ==> c / 0x40 % 0x40 >= 0x20
    ensures c / 0x1000 == 0xD ==> c / 0x40 % 0x40 < 0x20
  {
    assert c / 0x40 == c / 0x1000 * 0x40 + c / 0x40 % 0x40;
  }

  lemma FourByteRanges(c: int)
    requires 0x1_0000 <= c <= 0x10_FFFF
    ensures c / 0x4_0000 <= 4
    ensures c / 0x4_0000 == 0 ==> c / 0x1000 % 0x40 >= 0x10
    ensures c / 0x4_0000 == 4 ==> c / 0x1000 % 0x40 < 0x10
  {
    assert c / 0x1000 == c / 0x4_0000 * 0x40 + c / 0x1000 % 0x40;
  }

  lemma SixBitDigits(a: int, x: int, y: int, z: int)
    requires 0 <= a && 0 <= x < 0x40 && 0 <= y < 0x40 && 0 <= z < 0x40
    ensures var c := ((a * 0x40 + x) * 0x40 + y) * 0x40 + z;
      c % 0x40 == z && c / 0x40 % 0x40 == y && c / 0x1000 % 0x40 == x && c / 0x4_0000 == a
  {
    var c := ((a * 0x40 + x) * 0x40 + y) * 0x40 + z;
    assert c / 0x40 == (a * 0x40 + x) * 0x40 + y;
    assert c / 0x1000 == a * 0x40 + x;
  }

  lemma TwoSpell(a: int, x: int)
    requires 2 <= a < 0x20 && 0 <= x < 0x40
    ensures Spelling(a * 0x40 + x) == [0xC0 + a, 0x80 + x]
  {
    SixBitDigits(0, 0, a, x);
  }

  lemma ThreeSpell(a: int, x: int, y: int)
    requires 0 <= a < 0x10 && 0 <= x < 0x40 && 0 <= y < 0x40 && (a == 0 ==> x >= 0x20) && (a == 0xD ==> x < 0x20)
    ensures var c := (a * 0x40 + x) * 0x40 + y;
      0x800 <= c < 0x1_0000 && !(0xD800 <= c <= 0xDFFF) && Spelling(c) == [0xE0 + a, 0x80 + x, 0x80 + y]
  {
    SixBitDigits(0, a, x, y);
  }

  lemma FourSpell(a: int, x: int, y: int, z: int)
    requires 0 <= a <= 4 && 0 <= x < 0x40 && 0 <= y < 0x40 && 0 <= z < 0x40
    requires (a == 0 ==> x >= 0x10) && (a == 4 ==> x < 0x10)
    ensures var c := ((a * 0x40 + x) * 0x40 + y) * 0x40 + z;
      0x1_0000 <= c <= 0x10_FFFF && Spelling(c) == [0xF0 + a, 0x80 + x, 0x80 + y, 0x80 + z]
  {
    SixBitDigits(a, x, y, z);
  }

  /** The character at the front of a string. */
  lemma FirstOf(s: seq<byte>) returns (c: Scalar)
    requires FirstSize(s) > 0
    ensures s[..FirstSize(s)] == Spelling(c)
  {
    var n, a: int := FirstSize(s), s[0];
    if n == 1 {
      c := a;
    } else if n == 2 {
      hide Spelling;
      TwoSpell(a - 0xC0, s[1] as int - 0x80);
      c := (a - 0xC0) * 0x40 + (s[1] as int - 0x80);
    } else if n == 3 {
      hide Spelling;
      ThreeSpell(a - 0xE0, s[1] as int - 0x80, s[2] as int - 0x80);
      c := ((a - 0xE0) * 0x40 + (s[1] as int - 0x80)) * 0x40 + (s[2] as int - 0x80);
    } else {
      hide Spelling;
      FourSpell(a - 0xF0, s[1] as int - 0x80, s[2] as int - 0x80, s[3] as int - 0x80);
      c := (((a - 0xF0) * 0x40 + (s[1] as int - 0x80)) * 0x40 + (s[2] as int - 0x80)) * 0x40 + (s[3] as int - 0x80);
    }
  }

  function SpelledOut(cs: seq<Scalar>): seq<byte> {
    if cs == [] then [] else Spelling(cs[0]) + SpelledOut(cs[1..])
  }

  lemma {:induction false} SpelledIsValid(cs: seq<Scalar>)
    ensures Valid(SpelledOut(cs))
    decreases |cs|
  {
    hide FirstSize, Spelling;
    if cs != [] {
      FirstIsSpelled(cs[0], SpelledOut(cs[1..]));
      SpelledIsValid(cs[1..]);
      assert SpelledOut(cs)[|Spelling(cs[0])|..] == SpelledOut(cs[1..]);
    }
  }

  lemma {:induction false} ValidIsSpelled(s: seq<byte>) returns (cs: seq<Scalar>)
    requires Valid(s)
    ensures s == SpelledOut(cs)
    decreases |s|
  {
    hide FirstSize, Spelling;
    cs := [];
    if s != [] {
      var c := FirstOf(s);
      var more := ValidIsSpelled(s[FirstSize(s)..]);
      cs := [c] + more;
      assert s == s[..FirstSize(s)] + s[FirstSize(s)..];
      assert cs[1..] == more;
    }
  }

  /** Well-formed are the strings that spell characters, and no others. */
  lemma ValidExactly(s: seq<byte>)
    ensures Valid(s) <==> exists cs: seq<Scalar> :: s == SpelledOut(cs)
  {
    hide Valid, SpelledOut;
    if Valid(s) {
      var cs := ValidIsSpelled(s);
    }
    if cs: seq<Scalar> :| s == SpelledOut(cs) {
      SpelledIsValid(cs);
    }
  }
}
