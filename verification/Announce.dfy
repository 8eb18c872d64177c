/** The discovery announce packet, version 1: a length-checked encoder and a decoder that walks a
    cursor over the bytes. */
module Announce {
  import opened Bytes
  import opened Results
  import opened Utf8
  import opened Words

  const MAGIC: seq<byte> := [0x4E, 0x58, 0x53, 0x42]
  const VERSION_V1: byte := 1
  const MAX_DEVICE_ID_BYTES := 64
  const MAX_SERVICE_NAME_BYTES := 64
  const MAX_SERVICE_COUNT := 16

  type Key = k: seq<byte> | |k| == 32 witness seq(32, _ => 0)

  datatype AnnounceV1 = AnnounceV1(deviceId: Text, port: u16, noise: Key, services: seq<Text>)

  datatype PacketError = Truncated | BadMagic | UnsupportedVersion(version: byte) | InvalidInput(what: string) | BadUtf8

  // ---------- Encoding ----------

  predicate NameFits(s: Text) { 0 < |s| <= MAX_SERVICE_NAME_BYTES }

  /** What the encoder demands of a packet. */
  predicate Encodable(p: AnnounceV1) {
    && 0 < |p.deviceId| <= MAX_DEVICE_ID_BYTES
    && |p.services| <= MAX_SERVICE_COUNT
    && forall i :: 0 <= i < |p.services| ==> NameFits(p.services[i])
  }

  function Sized(s: seq<byte>): seq<byte>
    requires |s| < 256
  {
    [|s|] + s
  }

  function Names(services: seq<Text>): seq<byte>
    requires forall i :: 0 <= i < |services| ==> NameFits(services[i])
  {
    if services == [] then [] else assert NameFits(services[0]); Sized(services[0]) + Names(services[1..])
  }

  function Encoded(p: AnnounceV1): seq<byte>
    requires Encodable(p)
  {
    MAGIC + ([VERSION_V1] + (Sized(p.deviceId) + (Be(p.port, 2) + (p.noise + ([|p.services|] + Names(p.services))))))
  }

  // ---------- Decoding ----------

  function Take(b: seq<byte>, n: nat): (r: Result<(seq<byte>, seq<byte>), PacketError>)
    ensures r.Ok? ==> |r.value.0| == n
  {
    if |b| < n then Err(Truncated) else Ok((b[..n], b[n..]))
  }

  /** A length byte within its limit, and that many bytes of UTF-8. */
  function TakeText(b: seq<byte>, max: nat, what: string): Result<(Text, seq<byte>), PacketError> {
    var (n, b) :- Take(b, 1);
    if n[0] == 0 || n[0] > max then Err(InvalidInput(what))
    else
      var (s, b) :- Take(b, n[0]);
      if Valid(s) then Ok((s, b)) else Err(BadUtf8)
  }

  function TakeNames(b: seq<byte>, count: nat): Result<(seq<Text>, seq<byte>), PacketError> {
    if count == 0 then Ok(([], b))
    else
      var (s, b) :- TakeText(b, MAX_SERVICE_NAME_BYTES, "service name length");
      var (more, b) :- TakeNames(b, count - 1);
      Ok(([s] + more, b))
  }

  function TakeStart(b: seq<byte>): Result<seq<byte>, PacketError> {
    var (magic, b) :- Take(b, 4);
    if magic != MAGIC then Err(BadMagic)
    else
      var (version, b) :- Take(b, 1);
      if version[0] != VERSION_V1 then Err(UnsupportedVersion(version[0])) else Ok(b)
  }

  function TakeServices(b: seq<byte>): Result<(seq<Text>, seq<byte>), PacketError> {
    var (count, b) :- Take(b, 1);
    if count[0] > MAX_SERVICE_COUNT then Err(InvalidInput("service count")) else TakeNames(b, count[0])
  }

  /** The announcement at the front of the bytes, and what follows it. */
  function Parsed(b: seq<byte>): Result<(AnnounceV1, seq<byte>), PacketError> {
    var b :- TakeStart(b);
    var (deviceId, b) :- TakeText(b, MAX_DEVICE_ID_BYTES, "device_id length");
    var (port, b) :- Take(b, 2);
    var (noise, b) :- Take(b, 32);
    var (services, b) :- TakeServices(b);
    Ok((AnnounceV1(deviceId, PortOf(port), noise, services), b))
  }

  function PortOf(b: seq<byte>): u16
    requires |b| == 2
  {
    BeWrites(b);
    Powers();
    FromBe(b)
  }

  // ---------- The two are inverse ----------

  lemma TakeJoins(a: seq<byte>, rest: seq<byte>)
    ensures Take(a + rest, |a|) == Ok((a, rest))
  {
    assert (a + rest)[..|a|] == a && (a + rest)[|a|..] == rest;
  }

  lemma TakeSplits(b: seq<byte>, n: nat)
    requires Take(b, n).Ok?
    ensures var (a, rest) := Take(b, n).value; |a| == n && b == a + rest
  {
  }

  lemma TextJoins(s: Text, max: nat, what: string, rest: seq<byte>)
    requires 0 < |s| <= max < 256
    ensures TakeText(Sized(s) + rest, max, what) == Ok((s, rest))
  {
    hide Take, Valid;
    assert Sized(s) + rest == [|s|] + (s + rest);
    TakeJoins([|s|], s + rest);
    TakeJoins(s, rest);
  }

  lemma TextSplits(b: seq<byte>, max: nat, what: string)
    requires max < 256 && TakeText(b, max, what).Ok?
    ensures var (s, rest) := TakeText(b, max, what).value; 0 < |s| <= max && b == Sized(s) + rest
  {
    hide Take, Valid;
    TakeSplits(b, 1);
    var (n, b1) := Take(b, 1).value;
    TakeSplits(b1, n[0]);
    var (s, rest) := Take(b1, n[0]).value;
    assert n == [n[0]];
    assert [|s|] + s + rest == [|s|] + (s + rest);
  }

  lemma {:induction false} NamesJoin(services: seq<Text>, rest: seq<byte>)
    requires forall i :: 0 <= i < |services| ==> NameFits(services[i])
    ensures TakeNames(Names(services) + rest, |services|) == Ok((services, rest))
    decreases |services|
  {
    hide TakeText, Sized;
    if services == [] {
      assert Names(services) + rest == rest;
    } else {
      var s, more := services[0], services[1..];
      NamesJoin(more, rest);
      assert Sized(s) + Names(more) + rest == Sized(s) + (Names(more) + rest);
      TextJoins(s, MAX_SERVICE_NAME_BYTES, "service name length", Names(more) + rest);
      assert [s] + more == services;
    }
  }

  lemma {:induction false} NamesSplit(b: seq<byte>, count: nat)
    requires TakeNames(b, count).Ok?
    ensures var (services, rest) := TakeNames(b, count).value;
      && |services| == count && (forall i :: 0 <= i < count ==> NameFits(services[i]))
      && b == Names(services) + rest
    decreases count
  {
    hide TakeText, Sized;
    if count == 0 {
      assert b == [] + b;
    } else {
      TextSplits(b, MAX_SERVICE_NAME_BYTES, "service name length");
      var (s, b1) := TakeText(b, MAX_SERVICE_NAME_BYTES, "service name length").value;
      NamesSplit(b1, count - 1);
      var (more, rest) := TakeNames(b1, count - 1).value;
      assert ([s] + more)[1..] == more;
      assert Sized(s) + Names(more) + rest == Sized(s) + (Names(more) + rest);
    }
  }

  /** Every packet the encoder accepts is what the decoder reads back, whatever follows it. */
  lemma DecodesEncoded(p: AnnounceV1, rest: seq<byte>)
    requires Encodable(p)
    ensures Parsed(Encoded(p) + rest) == Ok((p, rest))
  {
    hide Take, TakeText, TakeNames, Names, Sized, Be, FromBe, Valid;
    var names := Names(p.services) + rest;
    var e6 := [|p.services|] + names;
    var e5 := p.noise + e6;
    var e4 := Be(p.port, 2) + e5;
    var e3 := Sized(p.deviceId) + e4;
    var e2 := [VERSION_V1] + e3;
    Regrouped(p, rest);
    TakeJoins(MAGIC, e2);
    TakeJoins([VERSION_V1], e3);
    TextJoins(p.deviceId, MAX_DEVICE_ID_BYTES, "device_id length", e4);
    TakeJoins(Be(p.port, 2), e5);
    Powers();
    BeReads(p.port, 2);
    TakeJoins(p.noise, e6);
    TakeJoins([|p.services|], names);
    NamesJoin(p.services, rest);
  }

  lemma Regrouped(p: AnnounceV1, rest: seq<byte>)
    requires Encodable(p)
    ensures Encoded(p) + rest == MAGIC
      + ([VERSION_V1] + (Sized(p.deviceId) + (Be(p.port, 2) + (p.noise + ([|p.services|] + (Names(p.services) + rest))))))
  {
    hide Names, Sized, Be;
    var e6 := [|p.services|] + Names(p.services);
    var e5 := p.noise + e6;
    var e4 := Be(p.port, 2) + e5;
    var e3 := Sized(p.deviceId) + e4;
    var e2 := [VERSION_V1] + e3;
    assert MAGIC + e2 + rest == MAGIC + (e2 + rest);
    assert e2 + rest == [VERSION_V1] + (e3 + rest);
    assert e3 + rest == Sized(p.deviceId) + (e4 + rest);
    assert e4 + rest == Be(p.port, 2) + (e5 + rest);
    assert e5 + rest == p.noise + (e6 + rest);
    assert e6 + rest == [|p.services|] + (Names(p.services) + rest);
  }

  /** Whatever decodes is encodable, and its encoding is the part of the input that was read. */
  lemma EncodesDecoded(b: seq<byte>)
    requires Parsed(b).Ok?
    ensures var (p, rest) := Parsed(b).value; Encodable(p) && b == Encoded(p) + rest
  {
    hide Take, TakeText, TakeNames, Names, Sized, Be, FromBe, Valid;
    TakeSplits(b, 4);
    var b1 := Take(b, 4).value.1;
    TakeSplits(b1, 1);
    var (v, b2) := Take(b1, 1).value;
    assert v == [VERSION_V1];
    TextSplits(b2, MAX_DEVICE_ID_BYTES, "device_id length");
    var b3 := TakeText(b2, MAX_DEVICE_ID_BYTES, "device_id length").value.1;
    TakeSplits(b3, 2);
    var (port, b4) := Take(b3, 2).value;
    BeWrites(port);
    TakeSplits(b4, 32);
    var b5 := Take(b4, 32).value.1;
    TakeSplits(b5, 1);
    var (n, b6) := Take(b5, 1).value;
    NamesSplit(b6, n[0]);
    var (p, rest) := Parsed(b).value;
    assert n == [|p.services|];
    Regrouped(p, rest);
  }

  /** No encoding is a proper prefix of another, so bytes after a packet never change it. */
  lemma PrefixFree(p: AnnounceV1, q: AnnounceV1, rest: seq<byte>)
    requires Encodable(p) && Encodable(q) && Encoded(p) + rest == Encoded(q)
    ensures p == q && rest == []
  {
    hide Encoded, Parsed, Encodable;
    DecodesEncoded(p, rest);
    DecodesEncoded(q, []);
    assert Encoded(q) + [] == Encoded(q);
  }

  // ---------- Packets cut short ----------

  /** What is read off a front part of `x + y`: nothing yet, or `x` and a front part of `y`. */
  lemma TakeCuts(x: seq<byte>, y: seq<byte>, b: seq<byte>)
    requires b <= x + y
    ensures Take(b, |x|) == Err(Truncated) || (|x| <= |b| && Take(b, |x|) == Ok((x, b[|x|..])) && b[|x|..] <= y)
  {
    if |x| <= |b| {
      assert b[..|x|] == (x + y)[..|x|] == x;
      assert b[|x|..] == (x + y)[..|b|][|x|..] == y[..|b| - |x|];
    }
  }

  lemma TextCuts(s: Text, max: nat, what: string, y: seq<byte>, b: seq<byte>)
    requires 0 < |s| <= max < 256 && b <= Sized(s) + y
    ensures TakeText(b, max, what) == Err(Truncated)
      || (TakeText(b, max, what).Ok? && TakeText(b, max, what).value.0 == s && TakeText(b, max, what).value.1 <= y)
  {
    hide Take, Valid;
    assert Sized(s) + y == [|s|] + (s + y);
    TakeCuts([|s|], s + y, b);
    if Take(b, 1).Ok? {
      TakeCuts(s, y, b[1..]);
    }
  }

  lemma {:induction false} NamesCut(services: seq<Text>, y: seq<byte>, b: seq<byte>)
    requires (forall i :: 0 <= i < |services| ==> NameFits(services[i])) && b <= Names(services) + y
    ensures TakeNames(b, |services|) == Err(Truncated)
      || (TakeNames(b, |services|).Ok? && TakeNames(b, |services|).value.0 == services && TakeNames(b, |services|).value.1 <= y)
    decreases |services|
  {
    hide TakeText, Sized;
    if services == [] {
      assert Names(services) + y == y;
    } else {
      var s, more := services[0], services[1..];
      assert Names(services) + y == Sized(s) + (Names(more) + y);
      TextCuts(s, MAX_SERVICE_NAME_BYTES, "service name length", Names(more) + y, b);
      var r := TakeText(b, MAX_SERVICE_NAME_BYTES, "service name length");
      if r.Ok? {
        NamesCut(more, y, r.value.1);
        assert [s] + more == services;
      }
    }
  }

  lemma ServicesCut(services: seq<Text>, b: seq<byte>)
    requires |services| <= MAX_SERVICE_COUNT && forall i :: 0 <= i < |services| ==> NameFits(services[i])
    requires b <= [|services|] + Names(services)
    ensures TakeServices(b) == Err(Truncated) || (TakeServices(b).Ok? && TakeServices(b).value == (services, []))
  {
    hide Take, TakeNames, Names;
    TakeCuts([|services|], Names(services), b);
    if Take(b, 1).Ok? {
      assert Names(services) + [] == Names(services);
      NamesCut(services, [], b[1..]);
    }
  }

  lemma StartCut(y: seq<byte>, b: seq<byte>)
    requires b <= MAGIC + ([VERSION_V1] + y)
    ensures TakeStart(b) == Err(Truncated) || (TakeStart(b).Ok? && TakeStart(b).value <= y)
  {
    hide Take;
    TakeCuts(MAGIC, [VERSION_V1] + y, b);
    if Take(b, 4).Ok? {
      TakeCuts([VERSION_V1], y, b[4..]);
    }
  }

  /** However an encoded packet is cut short, the decoder says that it is truncated, and nothing
      else. */
  lemma CutIsTruncated(p: AnnounceV1, b: seq<byte>)
    requires Encodable(p) && b < Encoded(p)
    ensures Parsed(b) == Err(Truncated)
  {
    hide Take, TakeText, TakeStart, TakeServices, Names, Sized, Be, PortOf, Valid;
    var e6 := [|p.services|] + Names(p.services);
    var e5 := p.noise + e6;
    var e4 := Be(p.port, 2) + e5;
    var e3 := Sized(p.deviceId) + e4;
    StartCut(e3, b);
    if TakeStart(b).Ok? {
      var b1 := TakeStart(b).value;
      TextCuts(p.deviceId, MAX_DEVICE_ID_BYTES, "device_id length", e4, b1);
      var r := TakeText(b1, MAX_DEVICE_ID_BYTES, "device_id length");
      if r.Ok? {
        var b2 := r.value.1;
        TakeCuts(Be(p.port, 2), e5, b2);
        if Take(b2, 2).Ok? {
          TakeCuts(p.noise, e6, b2[2..]);
          if Take(b2[2..], 32).Ok? {
            ServicesCut(p.services, b2[2..][32..]);
          }
        }
      }
    }
    if Parsed(b).Ok? {
      hide Parsed, Encoded, Encodable;
      WholeOnly(p, b);
    }
  }

  lemma WholeOnly(p: AnnounceV1, b: seq<byte>)
    requires Encodable(p) && b <= Encoded(p) && Parsed(b).Ok?
    ensures b == Encoded(p)
  {
    hide Parsed, Encoded, Encodable;
    EncodesDecoded(b);
    var (q, rest) := Parsed(b).value;
    var more := Encoded(p)[|b|..];
    assert Encoded(q) + (rest + more) == Encoded(p);
    PrefixFree(q, p, rest + more);
  }

  /** Where the fields of a packet stand in its bytes. */
  lemma Layout(p: AnnounceV1)
    requires Encodable(p)
    ensures var b := Encoded(p);
      var i := 6 + |p.deviceId|;
      && |b| >= i + 35 && b[..4] == [0x4E, 0x58, 0x53, 0x42] && b[4] == 1 && b[5] == |p.deviceId| && b[6..i] == p.deviceId
      && (b[i..][0] as int) * 256 + (b[i..][1] as int) == p.port && b[i..][2..34] == p.noise && b[i..][34] == |p.services|
      && (p.services != [] ==> |b| > i + 35 && b[i..][35..][0] == |p.services[0]|)
  {
    hide Names, Be, Valid;
    var names := Names(p.services);
    var e5 := p.noise + ([|p.services|] + names);
    FrontFields(MAGIC, VERSION_V1, |p.deviceId|, p.deviceId, Be(p.port, 2) + e5);
    BackFields(Be(p.port, 2), p.noise, |p.services|, names);
    Powers();
    BeReads(p.port, 2);
    TwoBytes(Be(p.port, 2));
    FirstName(p.services);
  }

  lemma FrontFields(m: seq<byte>, v: byte, n: byte, d: seq<byte>, rest: seq<byte>)
    requires |m| == 4
    ensures var s := m + ([v] + (([n] + d) + rest));
      |s| == 6 + |d| + |rest| && s[..4] == m && s[4] == v && s[5] == n && s[6..6 + |d|] == d && s[6 + |d|..] == rest
  {
  }

  lemma BackFields(port: seq<byte>, noise: seq<byte>, n: byte, names: seq<byte>)
    requires |port| == 2 && |noise| == 32
    ensures var s := port + (noise + ([n] + names));
      |s| == 35 + |names| && s[0] == port[0] && s[1] == port[1] && s[2..34] == noise && s[34] == n && s[35..] == names
  {
  }

  lemma TwoBytes(b: seq<byte>)
    requires |b| == 2
    ensures FromBe(b) == (b[0] as int) * 256 + (b[1] as int)
  {
    assert b[..1] == [b[0]] && FromBe([b[0]]) == b[0];
  }

  lemma FirstName(services: seq<Text>)
    requires forall i :: 0 <= i < |services| ==> NameFits(services[i])
    ensures services != [] ==> |Names(services)| > 0 && Names(services)[0] == |services[0]|
  {
  }

  /** What is refused, and why, by the bytes: the first rule that is broken decides. */
  lemma Refusals(b: seq<byte>)
    ensures |b| >= 4 && b[..4] != [0x4E, 0x58, 0x53, 0x42] ==> Parsed(b) == Err(BadMagic)
    ensures |b| >= 5 && b[..4] == [0x4E, 0x58, 0x53, 0x42] && b[4] != 1 ==> Parsed(b) == Err(UnsupportedVersion(b[4]))
    ensures |b| >= 6 && b[..4] == [0x4E, 0x58, 0x53, 0x42] && b[4] == 1 ==>
      var n: int := b[5];
      && (n == 0 || n > 64 ==> Parsed(b) == Err(InvalidInput("device_id length")))
      && (0 < n <= 64 && |b| >= 6 + n ==>
            && (!Valid(b[6..6 + n]) ==> Parsed(b) == Err(BadUtf8))
            && (Valid(b[6..6 + n]) && |b| >= n + 41 && b[n + 40] > 16 ==> Parsed(b) == Err(InvalidInput("service count"))))
  {
    hide Valid, TakeNames, PortOf;
    if |b| >= 6 {
      var n: int := b[5];
      assert b[4..][1..] == b[5..] && b[5..][1..] == b[6..];
      if |b| >= 6 + n {
        assert b[6..][..n] == b[6..6 + n] && b[6..][n..] == b[6 + n..];
        if |b| >= n + 41 {
          assert b[6 + n..][2..] == b[8 + n..] && b[8 + n..][32..] == b[n + 40..];
        }
      }
    }
  }

  // ---------- The calls ----------

  lemma {:induction false} NamesAppend(services: seq<Text>, s: Text)
    requires NameFits(s) && forall i :: 0 <= i < |services| ==> NameFits(services[i])
    ensures Names(services + [s]) == Names(services) + Sized(s)
    decreases |services|
  {
    hide Sized;
    if services == [] {
      assert (services + [s])[1..] == [];
    } else {
      NamesAppend(services[1..], s);
      assert (services + [s])[1..] == services[1..] + [s];
    }
  }

  /** Encoding succeeds exactly on encodable packets, and otherwise names the first broken rule. */
  method EncodeAnnounce(p: AnnounceV1) returns (r: Result<seq<byte>, PacketError>)
    ensures Encodable(p) ==> r == Ok(Encoded(p))
    ensures !Encodable(p) ==> r == Err(InvalidInput(
      if !(0 < |p.deviceId| <= MAX_DEVICE_ID_BYTES) then "device_id length"
      else if |p.services| > MAX_SERVICE_COUNT then "service count" else "service name length"))
  {
    hide Sized, Be;
    if |p.deviceId| == 0 || |p.deviceId| > MAX_DEVICE_ID_BYTES {
      return Err(InvalidInput("device_id length"));
    }
    if |p.services| > MAX_SERVICE_COUNT {
      return Err(InvalidInput("service count"));
    }
    for i := 0 to |p.services|
      invariant forall j :: 0 <= j < i ==> NameFits(p.services[j])
    {
      if |p.services[i]| == 0 || |p.services[i]| > MAX_SERVICE_NAME_BYTES {
        assert !NameFits(p.services[i]);
        return Err(InvalidInput("service name length"));
      }
    }
    var head := MAGIC + [VERSION_V1] + Sized(p.deviceId) + Be(p.port, 2) + p.noise + [|p.services|];
    var out := head;
    for i := 0 to |p.services|
      invariant out == head + Names(p.services[..i])
    {
      assert NameFits(p.services[i]);
      out := out + Sized(p.services[i]);
      assert p.services[..i + 1] == p.services[..i] + [p.services[i]];
      NamesAppend(p.services[..i], p.services[i]);
    }
    assert p.services[..|p.services|] == p.services;
    HeadJoins(p);
    r := Ok(out);
  }

  lemma HeadJoins(p: AnnounceV1)
    requires Encodable(p)
    ensures Encoded(p) ==
      MAGIC + [VERSION_V1] + Sized(p.deviceId) + Be(p.port, 2) + p.noise + [|p.services|] + Names(p.services)
  {
    hide Sized, Be, Names;
  }

  function Prepended(front: seq<Text>, r: Result<(seq<Text>, seq<byte>), PacketError>)
    : Result<(seq<Text>, seq<byte>), PacketError>
  {
    if r.Ok? then Ok((front + r.value.0, r.value.1)) else r
  }

  lemma PrependNone(r: Result<(seq<Text>, seq<byte>), PacketError>)
    ensures Prepended([], r) == r
  {
    if r.Ok? {
      assert [] + r.value.0 == r.value.0;
    }
  }

  lemma PrependNext(front: seq<Text>, s: Text, b: seq<byte>, b1: seq<byte>, count: nat)
    requires count > 0 && TakeText(b, MAX_SERVICE_NAME_BYTES, "service name length") == Ok((s, b1))
    ensures Prepended(front, TakeNames(b, count)) == Prepended(front + [s], TakeNames(b1, count - 1))
  {
    hide TakeText;
    var r := TakeNames(b1, count - 1);
    if r.Ok? {
      assert front + ([s] + r.value.0) == front + [s] + r.value.0;
    }
  }

  /** The loop over the service names, cursor and all. */
  method DecodeNames(b0: seq<byte>, count: nat) returns (r: Result<(seq<Text>, seq<byte>), PacketError>)
    ensures r == TakeNames(b0, count)
  {
    hide TakeText;
    var b, services := b0, [];
    PrependNone(TakeNames(b0, count));
    for i := 0 to count
      invariant TakeNames(b0, count) == Prepended(services, TakeNames(b, count - i))
    {
      var name :- TakeText(b, MAX_SERVICE_NAME_BYTES, "service name length");
      PrependNext(services, name.0, b, name.1, count - i);
      services := services + [name.0];
      b := name.1;
    }
    assert services + [] == services;
    r := Ok((services, b));
  }

  /** Decoding is the parse with the trailing bytes dropped, error for error. */
  method DecodeAnnounce(bytes: seq<byte>) returns (r: Result<AnnounceV1, PacketError>)
    ensures Parsed(bytes).Ok? ==> r == Ok(Parsed(bytes).value.0)
    ensures Parsed(bytes).Err? ==> r == Err(Parsed(bytes).error)
  {
    hide TakeStart, TakeText, TakeNames, PortOf;
    var b :- TakeStart(bytes);
    var dev :- TakeText(b, MAX_DEVICE_ID_BYTES, "device_id length");
    var port :- Take(dev.1, 2);
    var noise :- Take(port.1, 32);
    var count :- Take(noise.1, 1);
    if count.0[0] > MAX_SERVICE_COUNT {
      return Err(InvalidInput("service count"));
    }
    var services :- DecodeNames(count.1, count.0[0]);
    r := Ok(AnnounceV1(dev.0, PortOf(port.0), noise.0, services.0));
  }
}
