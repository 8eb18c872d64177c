/** Discovery over a datagram socket: a cache shared by all streams, and streams that first hand
    out a seed and then poll the socket, at most 500 times in all. What each poll receives is an
    input of the model. */
module FacadeDiscovery {
  import opened Announce
  import opened Hexadecimal
  import opened Ledger
  import opened Results
  import opened Utf8
  import opened Words

  const TICKS := 500

  datatype Outcome = Datagram(bytes: seq<byte>) | WouldBlock | TimedOut | Broken

  /** The device names `from_hex_sha256` takes. */
  predicate IsDeviceId(s: seq<byte>) {
    |s| == 64 && forall i :: 0 <= i < 64 ==> IsHex(s[i])
  }

  /** The announcement a datagram carries, if it is well formed. */
  function Carried(bytes: seq<byte>): Option<Announcement> {
    match Parsed(bytes)
    case Err(_) => None
    case Ok((p, _)) =>
      if IsDeviceId(p.deviceId) then Some(Announcement(p.deviceId, p.services, p.port, p.noise)) else None
  }

  /** An announcement that was sent is the one that is received. */
  lemma AnnouncedIsCarried(a: Announcement, rest: seq<byte>)
    requires var p := AnnounceV1(a.device, a.port, a.noise, a.services); Encodable(p) && IsDeviceId(a.device)
    ensures Carried(Encoded(AnnounceV1(a.device, a.port, a.noise, a.services)) + rest) == Some(a)
  {
    hide Encoded, Parsed, Encodable;
    DecodesEncoded(AnnounceV1(a.device, a.port, a.noise, a.services), rest);
  }

  /** What is carried: a well-formed packet whose device name has 64 hexadecimal digits of either
      case, and nothing else. */
  lemma CarriedExactly(bytes: seq<byte>)
    ensures Carried(bytes).Some? <==>
      && Parsed(bytes).Ok? && |Parsed(bytes).value.0.deviceId| == 64
      && forall i :: 0 <= i < 64 ==> Parsed(bytes).value.0.deviceId[i] in LOWER + UPPER
  {
    hide Parsed, IsHex;
    if Parsed(bytes).Ok? && |Parsed(bytes).value.0.deviceId| == 64 {
      var id := Parsed(bytes).value.0.deviceId;
      forall i | 0 <= i < 64
        ensures IsHex(id[i]) <==> id[i] in LOWER + UPPER
      {
        DigitExactly(0, id[i]);
      }
    }
  }

  lemma NameIsText(digest: seq<byte>)
    requires |digest| == 32
    ensures Valid(HexText(digest)) && IsDeviceId(HexText(digest))
  {
    hide HexText, Valid;
    HexTextReads(digest);
    AsciiIsValid(HexText(digest));
  }

  /** A device is named by the digits of a 32-byte digest. Whatever the digest, what it announces is
      received, and different digests never share a name. */
  lemma IdentityIsCarried(digest: seq<byte>, other: seq<byte>, services: seq<Text>, port: u16, noise: Key, rest: seq<byte>)
    requires |digest| == 32 && |services| <= 16 && forall i :: 0 <= i < |services| ==> 0 < |services[i]| <= 64
    ensures Valid(HexText(digest)) && Encodable(AnnounceV1(HexText(digest), port, noise, services))
    ensures Carried(Encoded(AnnounceV1(HexText(digest), port, noise, services)) + rest)
         == Some(Announcement(HexText(digest), services, port, noise))
    ensures HexText(digest) == HexText(other) ==> digest == other
  {
    hide HexText, FromHexText, Valid, Encoded, Carried, IsDeviceId;
    NameIsText(digest);
    AnnouncedIsCarried(Announcement(HexText(digest), services, port, noise), rest);
    HexTextReads(digest);
    HexTextReads(other);
  }

  function HeardIn(o: Outcome): seq<Announcement> {
    if o.Datagram? && Carried(o.bytes).Some? then [Carried(o.bytes).value] else []
  }

  /** All valid announcements received, in order. */
  function Heard(os: seq<Outcome>): seq<Announcement> {
    if os == [] then [] else Heard(os[..|os| - 1]) + HeardIn(os[|os| - 1])
  }

  lemma HeardAppend(os: seq<Outcome>, o: Outcome)
    ensures Heard(os + [o]) == Heard(os) + HeardIn(o)
  {
    assert (os + [o])[..|os|] == os;
  }

  // ---------- One call ----------

  datatype Reaction = Ignored | News(a: Announcement) | Ended

  function React(cache: Directory, o: Outcome): Reaction {
    match o
    case WouldBlock => Ignored
    case TimedOut => Ended
    case Broken => Ended
    case Datagram(bytes) =>
      match Carried(bytes)
      case None => Ignored
      case Some(a) =>
        if a.device in cache && cache[a.device].services == a.services && cache[a.device].port == a.port
           && cache[a.device].noise == a.noise then Ignored else News(a)
  }

  datatype Listening = Listening(cache: Directory, used: nat, item: Option<Announcement>)

  /** The receive loop with `ticks` polls left. */
  function Listen(cache: Directory, ticks: nat, feed: seq<Outcome>): Listening
    requires |feed| >= ticks
  {
    if ticks == 0 then Listening(cache, 0, None)
    else
      match React(cache, feed[0])
      case Ignored =>
        var r := Listen(cache, ticks - 1, feed[1..]);
        r.(used := r.used + 1)
      case News(a) => Listening(cache[a.device := a], 1, Some(a))
      case Ended => Listening(cache, 1, None)
  }

  /** A poll is news exactly when it changes the last-announcement-per-device view. */
  lemma NewsExactly(cache: Directory, past: seq<Outcome>, o: Outcome)
    requires cache == Latest(Heard(past))
    ensures var now := Latest(Heard(past + [o]));
      && (React(cache, o).News? <==> now != cache)
      && (React(cache, o).News? ==> now == cache[React(cache, o).a.device := React(cache, o).a])
  {
    hide Latest, Carried, Heard;
    HeardAppend(past, o);
    LatestKeyed(Heard(past));
    if o.Datagram? && Carried(o.bytes).Some? {
      var a := Carried(o.bytes).value;
      LatestAppend(Heard(past), a);
      assert a.device in cache ==> cache[a.device].device == a.device;
      assert cache[a.device := a] == cache <==> a.device in cache && cache[a.device] == a;
    } else {
      assert Heard(past) + [] == Heard(past);
    }
  }

  /** The view of everything received up to and including poll `k`. */
  function ViewAt(past: seq<Outcome>, feed: seq<Outcome>, k: nat): Directory
    requires k <= |feed|
  {
    Latest(Heard(past + feed[..k]))
  }

  /** A failed receive. */
  predicate Stops(o: Outcome) { o.TimedOut? || o.Broken? }

  /** The loop yields at the first poll that changes the view, and nothing otherwise; the cache it
      leaves is the view of all it received; it gives up only at a failed receive or out of ticks. */
  lemma {:induction false} ListenExact(cache: Directory, ticks: nat, feed: seq<Outcome>, past: seq<Outcome>)
    requires |feed| >= ticks && cache == Latest(Heard(past))
    ensures var r := Listen(cache, ticks, feed);
      && r.used <= ticks
      && r.cache == ViewAt(past, feed, r.used)
      && (forall k :: 0 <= k < r.used ==> ViewAt(past, feed, k) == cache)
      && (r.item.Some? <==> r.cache != cache)
      && (r.item.Some? ==> r.cache == cache[r.item.value.device := r.item.value])
      && (forall k :: 0 <= k < r.used - 1 ==> feed[k].Datagram? || feed[k].WouldBlock?)
      && (r.item.None? ==> r.used == ticks || (r.used > 0 && (feed[r.used - 1].TimedOut? || feed[r.used - 1].Broken?)))
      && (r.item.Some? ==> r.used > 0 && feed[r.used - 1].Datagram? && Carried(feed[r.used - 1].bytes) == r.item)
    decreases ticks
  {
    hide Latest, Heard, Carried;
    assert past + feed[..0] == past;
    if ticks > 0 {
      NewsExactly(cache, past, feed[0]);
      assert past + feed[..1] == past + [feed[0]];
      if React(cache, feed[0]).Ignored? {
        assert !Stops(feed[0]);
        var past1 := past + [feed[0]];
        ListenExact(cache, ticks - 1, feed[1..], past1);
        forall k | 0 < k <= |feed|
          ensures ViewAt(past, feed, k) == ViewAt(past1, feed[1..], k - 1)
        {
          assert past + feed[..k] == past1 + feed[1..][..k - 1];
        }
      }
    }
  }

  // ---------- Runs ----------

  datatype Stream = Stream(remaining: nat, seeded: seq<Announcement>, yielded: seq<Announcement>, polls: nat)

  /** The shared cache, everything the socket gave out, and all streams ever made. */
  datatype State = State(cache: Directory, received: seq<Outcome>, streams: seq<Stream>)

  datatype Action = Watches(seed: seq<Announcement>) | Nexts(i: nat, feed: seq<Outcome>)

  const START := State(map[], [], [])

  predicate Enabled(s: State, x: Action) {
    match x
    case Watches(seed) => Lists(seed, s.cache) && Ascending(seed)
    case Nexts(i, feed) => i < |s.streams| && |feed| >= s.streams[i].remaining
  }

  function Next(s: State, x: Action): State
    requires Enabled(s, x)
  {
    match x
    case Watches(seed) => s.(streams := s.streams + [Stream(TICKS, seed, [], 0)])
    case Nexts(i, feed) =>
      var t := s.streams[i];
      if t.seeded != [] then
        s.(streams := s.streams[i := t.(seeded := t.seeded[1..], yielded := t.yielded + [t.seeded[0]])])
      else
        var r := Listen(s.cache, t.remaining, feed);
        UsedAtMost(s.cache, t.remaining, feed);
        var given := if r.item.Some? then [r.item.value] else [];
        State(r.cache, s.received + feed[..r.used],
              s.streams[i := Stream(t.remaining - r.used, [], t.yielded + given, t.polls + r.used)])
  }

  lemma {:induction false} UsedAtMost(cache: Directory, ticks: nat, feed: seq<Outcome>)
    requires |feed| >= ticks
    ensures Listen(cache, ticks, feed).used <= ticks
    decreases ticks
  {
    if ticks > 0 {
      UsedAtMost(cache, ticks - 1, feed[1..]);
    }
  }

  ghost predicate IsRun(s: State, run: seq<Action>)
    decreases |run|
  {
    run == [] || (Enabled(s, run[0]) && IsRun(Next(s, run[0]), run[1..]))
  }

  ghost function After(s: State, run: seq<Action>): State
    requires IsRun(s, run)
    decreases |run|
  {
    if run == [] then s else After(Next(s, run[0]), run[1..])
  }

  predicate Inv(s: State) {
    && s.cache == Latest(Heard(s.received))
    && forall i :: 0 <= i < |s.streams| ==> s.streams[i].polls + s.streams[i].remaining == TICKS
  }

  lemma StepKeeps(s: State, x: Action)
    requires Inv(s) && Enabled(s, x)
    ensures Inv(Next(s, x))
  {
    hide Latest, Heard, Listen;
    if x.Nexts? && s.streams[x.i].seeded == [] {
      ListenExact(s.cache, s.streams[x.i].remaining, x.feed, s.received);
    }
  }

  lemma {:induction false} RunKeeps(s: State, run: seq<Action>)
    requires Inv(s) && IsRun(s, run)
    ensures Inv(After(s, run))
    decreases |run|
  {
    hide Inv, Next, Enabled;
    if run != [] {
      StepKeeps(s, run[0]);
      RunKeeps(Next(s, run[0]), run[1..]);
    }
  }

  /** After any calls on any streams, with anything received: the cache is the last valid
      announcement per device, and every stream's polls, made and left, are 500. */
  lemma EveryRun(run: seq<Action>)
    requires IsRun(START, run)
    ensures var s := After(START, run);
      && s.cache == Latest(Heard(s.received))
      && forall i :: 0 <= i < |s.streams| ==> s.streams[i].polls + s.streams[i].remaining == 500
  {
    hide IsRun, After;
    RunKeeps(START, run);
  }

  /** After any run, a device's cached announcement is the last valid one received from it, and
      there is none exactly if none was received. */
  lemma CacheAnswersLast(run: seq<Action>, device: Text)
    requires IsRun(START, run)
    ensures IsLastFrom(Heard(After(START, run).received), device, Lookup(After(START, run).cache, device))
  {
    hide IsRun, After, Heard, IsLastFrom;
    EveryRun(run);
    LatestIsLast(Heard(After(START, run).received), device);
  }

  // ---------- A stream's reader ----------

  /** What stream `i` has yielded and still holds seeded adds up to the cache. */
  predicate Caught(s: State, i: nat) {
    i < |s.streams| && Latest(s.streams[i].yielded + s.streams[i].seeded) == s.cache
  }

  lemma WatchCatches(s: State, seed: seq<Announcement>)
    requires Enabled(s, Watches(seed))
    ensures Caught(Next(s, Watches(seed)), |s.streams|)
  {
    assert [] + seed == seed;
  }

  lemma OwnStepCatches(s: State, i: nat, feed: seq<Outcome>)
    requires Inv(s) && Caught(s, i) && Enabled(s, Nexts(i, feed))
    ensures Caught(Next(s, Nexts(i, feed)), i)
  {
    hide Latest, Heard, Listen;
    var t := s.streams[i];
    if t.seeded != [] {
      assert t.yielded + [t.seeded[0]] + t.seeded[1..] == t.yielded + t.seeded;
    } else {
      ListenExact(s.cache, t.remaining, feed, s.received);
      var r := Listen(s.cache, t.remaining, feed);
      assert t.yielded + t.seeded == t.yielded;
      if r.item.Some? {
        LatestAppend(t.yielded, r.item.value);
        assert t.yielded + [r.item.value] + [] == t.yielded + [r.item.value];
      } else {
        assert t.yielded + [] + [] == t.yielded;
      }
    }
  }

  /** No poll that a call can reach, within its ticks and before a failed receive, is news. */
  ghost predicate Quiet(cache: Directory, ticks: nat, feed: seq<Outcome>)
    requires |feed| >= ticks
  {
    forall k :: 0 <= k < ticks && Reached(feed, k) ==> !React(cache, feed[k]).News?
  }

  ghost predicate Reached(feed: seq<Outcome>, k: nat)
    requires k < |feed|
  {
    forall j :: 0 <= j < k ==> !Stops(feed[j])
  }

  lemma {:induction false} QuietExactly(cache: Directory, ticks: nat, feed: seq<Outcome>)
    requires |feed| >= ticks
    ensures Listen(cache, ticks, feed).item.None? <==> Quiet(cache, ticks, feed)
    decreases ticks
  {
    hide Carried;
    if ticks > 0 {
      assert Reached(feed, 0);
      if React(cache, feed[0]).Ignored? {
        assert !Stops(feed[0]);
        QuietExactly(cache, ticks - 1, feed[1..]);
        hide React;
        forall k | 0 < k < ticks
          ensures Reached(feed, k) <==> Reached(feed[1..], k - 1)
        {
          ReachedNext(feed, k);
        }
        QuietNext(cache, ticks, feed);
      }
    }
  }

  lemma ReachedNext(feed: seq<Outcome>, k: nat)
    requires 0 < k < |feed| && !Stops(feed[0])
    ensures Reached(feed, k) <==> Reached(feed[1..], k - 1)
  {
    if Reached(feed[1..], k - 1) {
      forall j | 0 <= j < k
        ensures !Stops(feed[j])
      {
        assert j > 0 ==> feed[1..][j - 1] == feed[j];
      }
    }
  }

  lemma QuietNext(cache: Directory, ticks: nat, feed: seq<Outcome>)
    requires |feed| >= ticks > 0 && !React(cache, feed[0]).News?
    requires forall k :: 0 < k < ticks ==> (Reached(feed, k) <==> Reached(feed[1..], k - 1))
    ensures Quiet(cache, ticks, feed) <==> Quiet(cache, ticks - 1, feed[1..])
  {
    hide Reached, React;
    if Quiet(cache, ticks, feed) {
      forall k | 0 <= k < ticks - 1 && Reached(feed[1..], k)
        ensures !React(cache, feed[1..][k]).News?
      {
        assert Reached(feed, k + 1);
      }
    } else {
      var k :| 0 <= k < ticks && Reached(feed, k) && React(cache, feed[k]).News?;
      assert Reached(feed[1..], k - 1) && feed[1..][k - 1] == feed[k];
    }
  }

  /** Another stream's call leaves stream `i` complete if and only if that stream still hands out
      its seed or no poll it can reach is news: the socket gives each datagram to one stream only. */
  lemma OtherStepCatchesExactly(s: State, i: nat, j: nat, feed: seq<Outcome>)
    requires Inv(s) && Caught(s, i) && i != j && Enabled(s, Nexts(j, feed))
    ensures Caught(Next(s, Nexts(j, feed)), i) <==>
      s.streams[j].seeded != [] || Quiet(s.cache, s.streams[j].remaining, feed)
  {
    hide Latest, Heard, Listen, Quiet;
    var ticks := s.streams[j].remaining;
    UsedAtMost(s.cache, ticks, feed);
    ListenExact(s.cache, ticks, feed, s.received);
    QuietExactly(s.cache, ticks, feed);
    assert Next(s, Nexts(j, feed)).streams[i] == s.streams[i];
  }

  ghost predicate SoleReader(run: seq<Action>, i: nat) {
    forall k :: 0 <= k < |run| ==> run[k].Nexts? ==> run[k].i == i
  }

  /** While a stream is the only one read from, its reader never misses an update. */
  lemma {:induction false} SoleReaderCatches(s: State, i: nat, run: seq<Action>)
    requires Inv(s) && Caught(s, i) && IsRun(s, run) && SoleReader(run, i)
    ensures Caught(After(s, run), i)
    decreases |run|
  {
    if run != [] {
      hide Latest, Heard, Listen;
      StepKeeps(s, run[0]);
      assert run[0].Nexts? ==> run[0].i == i;
      if run[0].Nexts? {
        OwnStepCatches(s, i, run[0].feed);
      }
      hide Inv, Enabled;
      SoleReaderCatches(Next(s, run[0]), i, run[1..]);
    }
  }

  lemma {:induction false} RunSplits(s: State, front: seq<Action>, back: seq<Action>)
    requires IsRun(s, front + back)
    ensures IsRun(s, front) && IsRun(After(s, front), back)
    ensures After(s, front + back) == After(After(s, front), back)
    decreases |front|
  {
    hide Enabled, Next;
    if front == [] {
      assert front + back == back;
    } else {
      assert (front + back)[1..] == front[1..] + back;
      RunSplits(Next(s, front[0]), front[1..], back);
    }
  }

  /** A stream made at any point of any run, if it is the only one read from afterwards, has handed
      out or still holds exactly the cache. */
  lemma SoleStreamIsComplete(before: seq<Action>, seed: seq<Announcement>, after: seq<Action>)
    requires IsRun(START, before + ([Watches(seed)] + after))
    requires IsRun(START, before) && SoleReader(after, |After(START, before).streams|)
    ensures Caught(After(START, before + ([Watches(seed)] + after)), |After(START, before).streams|)
  {
    hide Next, Enabled, Caught, Inv;
    RunSplits(START, before, [Watches(seed)] + after);
    var s := After(START, before);
    assert ([Watches(seed)] + after)[1..] == after;
    StartInv();
    RunKeeps(START, before);
    WatchCatches(s, seed);
    StepKeeps(s, Watches(seed));
    SoleReaderCatches(Next(s, Watches(seed)), |s.streams|, after);
  }

  lemma StartInv()
    ensures Inv(START)
  {
  }

  // ---------- Two readers ----------

  function Sample(): Announcement {
    var device := seq(64, _ => 0x30);
    AsciiIsValid(device);
    Announcement(device, [], 0, seq(32, _ => 0))
  }

  function SamplePacket(): seq<byte> {
    var a := Sample();
    Encoded(AnnounceV1(a.device, a.port, a.noise, a.services))
  }

  lemma SampleArrives()
    ensures Carried(SamplePacket()) == Some(Sample())
  {
    hide Encoded;
    var a := Sample();
    AnnouncedIsCarried(a, []);
    assert SamplePacket() + [] == SamplePacket();
  }

  lemma ThreeSteps(s: State, x: Action, y: Action, z: Action)
    requires Enabled(s, x) && Enabled(Next(s, x), y) && Enabled(Next(Next(s, x), y), z)
    ensures IsRun(s, [x, y, z]) && After(s, [x, y, z]) == Next(Next(Next(s, x), y), z)
  {
    hide Enabled, Next;
    var run := [x, y, z];
    assert run[1..] == [y, z] && [y, z][1..] == [z] && [z][1..] == [];
    var t := Next(Next(s, x), y);
    assert IsRun(Next(t, z), []) && After(Next(t, z), []) == Next(t, z);
    assert IsRun(t, [z]) && After(t, [z]) == Next(t, z);
    assert IsRun(Next(s, x), [y, z]) && After(Next(s, x), [y, z]) == After(t, [z]);
  }

  const FRESH := Stream(TICKS, [], [], 0)
  const TWO_FRESH := State(map[], [], [FRESH, FRESH])

  lemma TwoStreams()
    ensures Enabled(START, Watches([])) && Enabled(Next(START, Watches([])), Watches([]))
    ensures Next(Next(START, Watches([])), Watches([])) == TWO_FRESH
    ensures Inv(TWO_FRESH) && Caught(TWO_FRESH, 0) && Caught(TWO_FRESH, 1)
  {
    var s1 := Next(START, Watches([]));
    assert s1.streams + [FRESH] == [FRESH, FRESH];
    assert [] + FRESH.seeded == [];
  }

  /** Two streams on an empty cache, one datagram: the stream that polls learns of the device, and
      the other one never will from its own items. */
  lemma TwoReadersDiverge() returns (run: seq<Action>)
    ensures IsRun(START, run) && |After(START, run).streams| == 2
    ensures Caught(After(START, run), 1) && !Caught(After(START, run), 0)
  {
    hide Carried, Sample, SamplePacket, Heard, Latest, Inv, Caught, IsRun, After, Listen, Lists;
    var feed := [Datagram(SamplePacket())] + seq(499, _ => WouldBlock);
    TwoStreams();
    SampleArrives();
    assert Enabled(TWO_FRESH, Nexts(1, feed));
    ThreeSteps(START, Watches([]), Watches([]), Nexts(1, feed));
    run := [Watches([]), Watches([]), Nexts(1, feed)];
    OwnStepCatches(TWO_FRESH, 1, feed);
    assert Reached(feed, 0) && React(map[], feed[0]) == News(Sample());
    OtherStepCatchesExactly(TWO_FRESH, 0, 1, feed);
  }

  // ---------- The objects ----------

  class Discovery {
    var cache: Directory

    constructor ()
      ensures cache == map[]
    {
      cache := map[];
    }

    /** Whatever stream of announcements the cache is the view of, the answer is the last one in it
        from the device. */
    method Get(device: Text) returns (r: Option<Announcement>)
      ensures forall heard :: cache == Latest(heard) ==> IsLastFrom(heard, device, r)
    {
      r := Lookup(cache, device);
      forall heard | cache == Latest(heard)
        ensures IsLastFrom(heard, device, r)
      {
        LatestIsLast(heard, device);
      }
    }
  }

  class AnnouncementStream {
    const discovery: Discovery
    var remaining: nat
    var seeded: seq<Announcement>

    constructor (discovery: Discovery)
      requires Keyed(discovery.cache)
      ensures this.discovery == discovery && remaining == TICKS
      ensures Lists(seeded, discovery.cache) && Ascending(seeded)
    {
      this.discovery := discovery;
      remaining := TICKS;
      var seed := SortedValues(discovery.cache);
      seeded := seed;
    }

    method Next(feed: seq<Outcome>) returns (item: Option<Announcement>, used: nat)
      requires |feed| >= remaining
      modifies this, discovery
      ensures old(seeded) != [] ==>
        && item == Some(old(seeded)[0]) && seeded == old(seeded)[1..] && used == 0
        && remaining == old(remaining) && discovery.cache == old(discovery.cache)
      ensures old(seeded) == [] ==>
        && seeded == [] && Listening(discovery.cache, used, item) == Listen(old(discovery.cache), old(remaining), feed)
        && remaining == old(remaining) - used
    {
      used := 0;
      if seeded != [] {
        item := Some(seeded[0]);
        seeded := seeded[1..];
        return;
      }
      hide Carried;
      assert feed[0..] == feed;
      while remaining > 0
        invariant seeded == [] && discovery.cache == old(discovery.cache)
        invariant remaining + used == old(remaining) && |feed| >= old(remaining)
        invariant var r := Listen(discovery.cache, remaining, feed[used..]);
          Listen(old(discovery.cache), old(remaining), feed) == r.(used := r.used + used)
      {
        ghost var rest := feed[used..];
        var o := feed[used];
        assert rest[0] == o && rest[1..] == feed[used + 1..];
        remaining := remaining - 1;
        used := used + 1;
        match React(discovery.cache, o) {
          case Ignored =>
          case News(a) =>
            discovery.cache := discovery.cache[a.device := a];
            return Some(a), used;
          case Ended => return None, used;
        }
      }
      item := None;
    }
  }
}
