/** Length-prefixed frames over one direction of an in-process duplex: a writer that pushes a
    header and a payload as two locked appends, and a reader whose `read_exact` starts over
    whenever the queue runs dry. Every interleaving of the two is a run of the machine below. */
module Framing {
  import opened Bytes
  import opened Results
  import opened Words

  const MAX_MESSAGE := 65_536

  type Payload = seq<byte>

  /** The payload length, cut to 32 bits, most significant byte first. */
  function Header(p: Payload): (h: seq<byte>)
    ensures |h| == 4
  {
    Be(|p|, 4)
  }

  function Wire(fs: seq<Payload>): seq<byte> {
    if fs == [] then [] else Header(fs[0]) + fs[0] + Wire(fs[1..])
  }

  lemma {:induction false} WireAppend(fs: seq<Payload>, p: Payload)
    ensures Wire(fs + [p]) == Wire(fs) + Header(p) + p
    decreases |fs|
  {
    hide Header;
    if fs == [] {
      assert fs + [p] == [p];
      assert [p][1..] == [];
    } else {
      WireAppend(fs[1..], p);
      assert (fs + [p])[1..] == fs[1..] + [p];
    }
  }

  lemma HeaderReads(p: Payload)
    requires |p| < TWO32
    ensures |Header(p)| == 4 && FromBe(Header(p)) == |p|
  {
    Powers();
    BeReads(|p|, 4);
  }

  /** The most significant byte comes first. */
  lemma HeaderIsBigEndian(p: Payload)
    requires |p| < TWO32
    ensures var h := Header(p);
      (h[0] as int) * 0x100_0000 + (h[1] as int) * 0x1_0000 + (h[2] as int) * 0x100 + (h[3] as int) == |p|
  {
    HeaderReads(p);
    FourBytesBe(Header(p));
  }

  // ---------- The reader ----------

  /** Where `read_frame_with_deadline` stands: collecting the header, collecting the payload, done. */
  datatype Phase =
    | Length(got: seq<byte>)
    | Body(len: nat, got: seq<byte>)
    | Complete(frame: Payload)
    | TooLong

  function Wanted(p: Phase): nat
    requires p.Length? || p.Body?
  {
    if p.Length? then 4 else p.len
  }

  predicate Reading(p: Phase) {
    (p.Length? || p.Body?) && |p.got| < Wanted(p)
  }

  /** What follows once the last wanted byte is there. An empty payload needs no read at all. */
  function Settle(p: Phase): Phase {
    match p
    case Length(got) =>
      if |got| != 4 then p
      else
        var len := FromBe(got);
        if len > MAX_MESSAGE then TooLong else if len == 0 then Complete([]) else Body(len, [])
    case Body(len, got) => if |got| == len then Complete(got) else p
    case _ => p
  }

  /** One `read` call inside `read_exact`. An empty queue is `WouldBlock`: the retry starts a new
      `read_exact`, so the bytes collected so far are forgotten. */
  function ReadCall(p: Phase, queue: seq<byte>): (Phase, seq<byte>)
    requires Reading(p)
  {
    if queue == [] then (p.(got := []), [])
    else
      var need := Wanted(p) - |p.got|;
      var n := if need < |queue| then need else |queue|;
      (Settle(p.(got := p.got + queue[..n])), queue[n..])
  }

  // ---------- Both sides ----------

  /** `sent` are the frames written in full; `mid` is the frame whose header alone is out. */
  datatype Link = Link(sent: seq<Payload>, mid: Option<Payload>, queue: seq<byte>, phase: Phase, delivered: seq<Payload>)

  /** `GiveUp` is the deadline check after `WouldBlock`; the next call starts with a header again. */
  datatype Action = PushHeader(p: Payload) | PushPayload | Read | GiveUp

  const IDLE := Link([], None, [], Length([]), [])

  predicate Enabled(s: Link, a: Action) {
    match a
    case PushHeader(_) => s.mid.None?
    case PushPayload => s.mid.Some?
    case Read => Reading(s.phase)
    case GiveUp => Reading(s.phase) && s.queue == []
  }

  function Next(s: Link, a: Action): Link
    requires Enabled(s, a)
  {
    match a
    case PushHeader(p) => s.(mid := Some(p), queue := s.queue + Header(p))
    case PushPayload => s.(sent := s.sent + [s.mid.value], mid := None, queue := s.queue + s.mid.value)
    case Read =>
      var (p, q) := ReadCall(s.phase, s.queue);
      if p.Complete? then s.(phase := Length([]), queue := q, delivered := s.delivered + [p.frame])
      else s.(phase := p, queue := q)
    case GiveUp => s.(phase := Length([]))
  }

  /** A step in the promised range: lengths fit the header, and no payload read times out. */
  predicate Orderly(s: Link, a: Action) {
    && Enabled(s, a)
    && (a.PushHeader? ==> |a.p| < TWO32)
    && (a.GiveUp? ==> s.phase.Length?)
  }

  ghost predicate OrderlyRun(s: Link, run: seq<Action>)
    decreases |run|
  {
    run == [] || (Orderly(s, run[0]) && OrderlyRun(Next(s, run[0]), run[1..]))
  }

  ghost function After(s: Link, run: seq<Action>): Link
    requires OrderlyRun(s, run)
    decreases |run|
  {
    if run == [] then s else After(Next(s, run[0]), run[1..])
  }

  function Started(s: Link): seq<Payload> {
    if s.mid.Some? then s.sent + [s.mid.value] else s.sent
  }

  function Dangling(mid: Option<Payload>): seq<byte> {
    if mid.Some? then Header(mid.value) else []
  }

  /** Bytes that are pushed and not yet read, once the reader has finished `k` frames. */
  function Unread(sent: seq<Payload>, mid: Option<Payload>, k: nat): seq<byte> {
    if k <= |sent| then Wire(sent[k..]) + Dangling(mid) else []
  }

  ghost predicate Inv(s: Link) {
    var k, all := |s.delivered|, Started(s);
    && k <= |all| && all[..k] == s.delivered
    && Sized(all)
    && (k > |s.sent| ==> s.mid == Some([]))
    && match s.phase
       case Length(got) => got == [] && s.queue == Unread(s.sent, s.mid, k)
       case Body(len, got) =>
         && got == [] && k < |all| && 0 < len == |all[k]|
         && s.queue == if k < |s.sent| then s.sent[k] + Unread(s.sent, s.mid, k + 1) else []
       case Complete(_) => false
       case TooLong => k < |all| && |all[k]| > MAX_MESSAGE
  }

  ghost predicate Sized(fs: seq<Payload>) {
    forall i :: 0 <= i < |fs| ==> |fs[i]| < TWO32
  }

  lemma PushHeaderKeeps(s: Link, p: Payload)
    requires Inv(s) && Orderly(s, PushHeader(p))
    ensures Inv(Next(s, PushHeader(p)))
  {
    hide Wire, Header, Unread;
    var k := |s.delivered|;
    assert (s.sent + [p])[..k] == s.sent[..k];
    UnreadOpens(s.sent, p, k);
    if s.phase.Body? {
      UnreadOpens(s.sent, p, k + 1);
      assert s.queue + Header(p) == s.sent[k] + (Unread(s.sent, None, k + 1) + Header(p));
    }
  }

  lemma UnreadOpens(sent: seq<Payload>, m: Payload, k: nat)
    requires k <= |sent|
    ensures Unread(sent, Some(m), k) == Unread(sent, None, k) + Header(m)
  {
    assert Wire(sent[k..]) + [] == Wire(sent[k..]);
  }

  lemma UnreadGrows(sent: seq<Payload>, m: Payload, k: nat)
    ensures k <= |sent| ==> Unread(sent + [m], None, k) == Unread(sent, Some(m), k) + m
    ensures k == |sent| + 1 ==> Unread(sent + [m], None, k) == Unread(sent, Some(m), k) == []
  {
    hide Wire, Header;
    if k <= |sent| {
      assert (sent + [m])[k..] == sent[k..] + [m];
      WireAppend(sent[k..], m);
    } else if k == |sent| + 1 {
      NothingLeft(sent + [m], k);
    }
  }

  lemma PushPayloadKeeps(s: Link)
    requires Inv(s) && Orderly(s, PushPayload)
    ensures Inv(Next(s, PushPayload))
  {
    hide Wire, Header, Unread;
    var k, m := |s.delivered|, s.mid.value;
    assert Started(Next(s, PushPayload)) == Started(s);
    UnreadGrows(s.sent, m, k);
    UnreadGrows(s.sent, m, k + 1);
    if s.phase.Body? {
      if k < |s.sent| {
        var u := Unread(s.sent, s.mid, k + 1);
        assert (s.sent[k] + u) + m == s.sent[k] + (u + m);
      } else {
        assert s.queue + m == m + [];
      }
    } else if k > |s.sent| {
      assert s.queue + m == s.queue;
    }
  }

  lemma NothingLeft(fs: seq<Payload>, k: nat)
    requires k == |fs|
    ensures Wire(fs[k..]) == []
  {
  }

  lemma NextFrame(s: Link, k: nat)
    requires k < |s.sent|
    ensures Unread(s.sent, s.mid, k) == Header(s.sent[k]) + (s.sent[k] + Unread(s.sent, s.mid, k + 1))
  {
    assert s.sent[k..][1..] == s.sent[k + 1..];
  }

  lemma ReadsHeader(f: Payload, rest: seq<byte>)
    requires |f| < TWO32
    ensures ReadCall(Length([]), Header(f) + rest) ==
      (if |f| > MAX_MESSAGE then TooLong else if |f| == 0 then Complete(f) else Body(|f|, []), rest)
  {
    hide FromBe, Header;
    HeaderReads(f);
    var q := Header(f) + rest;
    assert q[..4] == Header(f) && q[4..] == rest;
    assert [] + q[..4] == q[..4];
  }

  lemma ReadsBody(f: Payload, rest: seq<byte>)
    requires f != []
    ensures ReadCall(Body(|f|, []), f + rest) == (Complete(f), rest)
  {
    var q := f + rest;
    assert q[..|f|] == f && q[|f|..] == rest;
    assert [] + q[..|f|] == q[..|f|];
  }

  lemma LengthKeeps(s: Link)
    requires Inv(s) && Orderly(s, Read) && s.phase.Length? && s.queue != []
    ensures Inv(Next(s, Read))
  {
    hide Wire, Header, Unread;
    var k, all := |s.delivered|, Started(s);
    var rest := FirstUnread(s, k);
    ReadsHeader(all[k], rest);
    hide ReadCall;
    assert all[..k + 1] == all[..k] + [all[k]];
  }

  lemma FirstUnread(s: Link, k: nat) returns (rest: seq<byte>)
    requires Unread(s.sent, s.mid, k) != []
    ensures k < |Started(s)| && Unread(s.sent, s.mid, k) == Header(Started(s)[k]) + rest
    ensures k < |s.sent| ==> rest == s.sent[k] + Unread(s.sent, s.mid, k + 1)
    ensures k >= |s.sent| ==> rest == [] && Unread(s.sent, s.mid, k + 1) == []
    ensures Started(s)[k] == [] ==> rest == Unread(s.sent, s.mid, k + 1)
  {
    if k < |s.sent| {
      NextFrame(s, k);
      rest := s.sent[k] + Unread(s.sent, s.mid, k + 1);
    } else {
      NothingLeft(s.sent, k);
      rest := [];
    }
  }

  lemma BodyKeeps(s: Link)
    requires Inv(s) && Orderly(s, Read) && s.phase.Body? && s.queue != []
    ensures Inv(Next(s, Read))
  {
    hide Unread, Sized, ReadCall;
    var k, all := |s.delivered|, Started(s);
    var f, rest := s.sent[k], Unread(s.sent, s.mid, k + 1);
    assert s.phase == Body(|f|, []);
    ReadsBody(f, rest);
    assert Next(s, Read) == s.(phase := Length([]), queue := rest, delivered := s.delivered + [f]);
    assert all[..k + 1] == all[..k] + [f];
  }

  lemma StepKeeps(s: Link, a: Action)
    requires Inv(s) && Orderly(s, a)
    ensures Inv(Next(s, a))
  {
    match a
    case PushHeader(p) => PushHeaderKeeps(s, p);
    case PushPayload => PushPayloadKeeps(s);
    case Read => if s.queue != [] { if s.phase.Length? { LengthKeeps(s); } else { BodyKeeps(s); } }
    case GiveUp =>
  }

  lemma {:induction false} RunKeeps(s: Link, run: seq<Action>)
    requires Inv(s) && OrderlyRun(s, run)
    ensures Inv(After(s, run))
    decreases |run|
  {
    hide Inv;
    if run != [] {
      StepKeeps(s, run[0]);
      RunKeeps(Next(s, run[0]), run[1..]);
    }
  }

  // ---------- What every run gives ----------

  lemma {:induction false} WireSplit(fs: seq<Payload>, k: nat)
    requires k <= |fs|
    ensures Wire(fs) == Wire(fs[..k]) + Wire(fs[k..])
    decreases |fs|
  {
    hide Header;
    if k == 0 {
      assert fs[0..] == fs;
    } else {
      WireSplit(fs[1..], k - 1);
      assert fs[..k][1..] == fs[1..][..k - 1];
      assert fs[k..] == fs[1..][k - 1..];
      var h := Header(fs[0]) + fs[0];
      assert h + (Wire(fs[1..][..k - 1]) + Wire(fs[k..])) == (h + Wire(fs[1..][..k - 1])) + Wire(fs[k..]);
    }
  }

  /** Every pushed byte is in a returned frame, in the header just read, or still queued. */
  ghost predicate Conserved(s: Link) {
    && (s.phase.Body? ==> |s.delivered| < |Started(s)|)
    && Wire(s.delivered) + (if s.phase.Body? then Header(Started(s)[|s.delivered|]) else []) + s.queue
       == Wire(s.sent) + Dangling(s.mid)
  }

  /** The frames returned are the first frames written, in order and whole. While the reader has
      not refused a frame, every pushed byte is in a returned frame, in the header just read, or
      still queued: restarting `read_exact` dropped nothing. */
  lemma FramesInOrder(run: seq<Action>)
    requires OrderlyRun(IDLE, run)
    ensures var s := After(IDLE, run);
      && s.delivered <= Started(s)
      && (s.phase.Length? || s.phase.Body? ==> s.phase.got == [])
      && (s.phase.Body? || s.phase.TooLong? ==> |s.delivered| < |Started(s)|)
      && (s.phase.Length? || s.phase.Body? ==> Conserved(s))
      && (s.phase.TooLong? ==> |Started(s)[|s.delivered|]| > MAX_MESSAGE)
  {
    hide Wire, Header, FromBe, After, OrderlyRun;
    IdleInv();
    RunKeeps(IDLE, run);
    var s := After(IDLE, run);
    var k := |s.delivered|;
    if !s.phase.TooLong? {
      Conserves(s);
    }
  }

  lemma IdleInv()
    ensures Inv(IDLE)
  {
  }

  lemma Conserves(s: Link)
    requires Inv(s) && !s.phase.TooLong?
    ensures Conserved(s)
  {
    hide Wire, Header, FromBe;
    var k := |s.delivered|;
    if k <= |s.sent| {
      assert s.sent[..k] == Started(s)[..k];
      WireSplit(s.sent, k);
      var h := if s.phase.Body? then Header(Started(s)[k]) else [];
      assert h + s.queue == Unread(s.sent, s.mid, k) by {
        if s.phase.Body? {
          if k < |s.sent| {
            NextFrame(s, k);
          } else {
            NothingLeft(s.sent, k);
          }
        }
      }
      Regroup(Wire(s.delivered), h, s.queue, Wire(s.sent[k..]), Dangling(s.mid));
    } else {
      assert s.delivered == s.sent + [[]];
      WireAppend(s.sent, []);
    }
  }

  lemma Regroup(a: seq<byte>, h: seq<byte>, q: seq<byte>, w: seq<byte>, d: seq<byte>)
    requires h + q == w + d
    ensures a + h + q == a + w + d
  {
    assert a + h + q == a + (h + q);
    assert a + w + d == a + (w + d);
  }

  ghost predicate Small(fs: seq<Payload>) {
    forall i :: 0 <= i < |fs| ==> |fs[i]| <= MAX_MESSAGE
  }

  /** A reader left alone finishes every frame that was written, so no run is stuck. */
  lemma {:induction false} Drains(s: Link) returns (run: seq<Action>)
    requires Inv(s) && s.mid.None? && Small(s.sent)
    ensures OrderlyRun(s, run) && (forall i :: 0 <= i < |run| ==> run[i] == Read)
    ensures After(s, run).delivered == s.sent && After(s, run).queue == []
    decreases |s.sent| - |s.delivered|, s.phase.Length?
  {
    hide Wire, Header, FromBe, Unread;
    var k := |s.delivered|;
    if k == |s.sent| {
      DoneUnread(s);
      run := [];
    } else {
      Waiting(s);
      StepKeeps(s, Read);
      var t := Next(s, Read);
      Progress(s);
      var more := Drains(t);
      run := [Read] + more;
      assert run[1..] == more;
    }
  }

  lemma DoneUnread(s: Link)
    requires Inv(s) && s.mid.None? && |s.delivered| == |s.sent|
    ensures s.queue == [] && s.delivered == s.sent
  {
    NothingLeft(s.sent, |s.delivered|);
  }

  lemma Waiting(s: Link)
    requires Inv(s) && s.mid.None? && Small(s.sent) && |s.delivered| < |s.sent|
    ensures s.queue != [] && Reading(s.phase)
  {
    NextFrame(s, |s.delivered|);
  }

  lemma Progress(s: Link)
    requires Inv(s) && s.mid.None? && Small(s.sent) && |s.delivered| < |s.sent| && Reading(s.phase) && s.queue != []
    ensures var t := Next(s, Read);
      && t.sent == s.sent && t.mid == s.mid
      && (|t.delivered| == |s.delivered| + 1 || (s.phase.Length? && t.phase.Body? && t.delivered == s.delivered))
  {
    hide Wire, Header, FromBe, Unread;
    var k := |s.delivered|;
    if s.phase.Length? {
      var rest := FirstUnread(s, k);
      ReadsHeader(s.sent[k], rest);
    } else {
      ReadsBody(s.sent[k], Unread(s.sent, s.mid, k + 1));
    }
    hide ReadCall;
  }

  /** A timeout keeps the invariant, and with it the bytes, if and only if it comes before the
      header is read. A later one loses exactly the four header bytes. */
  lemma TimeoutExactly(s: Link)
    requires Inv(s) && Enabled(s, GiveUp)
    ensures Inv(Next(s, GiveUp)) <==> s.phase.Length?
    ensures Conserved(Next(s, GiveUp)) <==> s.phase.Length?
    ensures s.phase.Body? ==> |Wire(s.sent) + Dangling(s.mid)| == |Wire(s.delivered) + s.queue| + 4
  {
    hide Wire, Header, FromBe, Unread;
    Conserves(s);
    var t := Next(s, GiveUp);
    if s.phase.Length? {
      assert t == s;
    } else {
      var k := |s.delivered|;
      assert |Header(Started(s)[k])| == 4;
      if Inv(t) {
        Conserves(t);
      }
    }
  }

  /** A run in which the reader gets no byte: it polls an empty queue only. */
  ghost predicate InVain(s: Link, run: seq<Action>)
    requires OrderlyRun(s, run)
    decreases |run|
  {
    run == [] || ((run[0].Read? ==> s.queue == []) && InVain(Next(s, run[0]), run[1..]))
  }

  /** The reader wants a header; payload `p` is still to come, or first in the queue. */
  ghost predicate Stale(s: Link, p: Payload) {
    s.phase == Length([]) && p != [] && (if s.queue == [] then s.mid == Some(p) else p <= s.queue)
  }

  lemma {:induction false} StaysStale(s: Link, p: Payload, run: seq<Action>)
    requires OrderlyRun(s, run) && InVain(s, run) && Stale(s, p)
    ensures Stale(After(s, run), p) && After(s, run).delivered == s.delivered
    decreases |run|
  {
    hide Header, FromBe;
    if run != [] {
      StaysStale(Next(s, run[0]), p, run[1..]);
    }
  }

  /** Without the promise that no payload read times out, order is lost. Whatever is pushed after
      such a timeout, the next bytes the reader gets are the payload whose header it has already
      read, and it takes them, with what follows a shorter one, for a header. */
  lemma LateTimeoutDesyncs(s: Link, run: seq<Action>)
    requires Inv(s) && Enabled(s, GiveUp) && s.phase.Body?
    requires OrderlyRun(Next(s, GiveUp), run) && InVain(Next(s, GiveUp), run)
    ensures s.mid.Some? && s.mid.value != [] && s.delivered == s.sent
    ensures var p, t := s.mid.value, After(Next(s, GiveUp), run);
      && Enabled(t, Read) && t.delivered == s.sent
      && (t.queue != [] ==>
            var n := if |t.queue| < 4 then |t.queue| else 4;
            p <= t.queue && ReadCall(t.phase, t.queue) == (Settle(Length(t.queue[..n])), t.queue[n..]))
  {
    hide Wire, Header, FromBe, Unread, After, InVain, OrderlyRun;
    StaysStale(Next(s, GiveUp), s.mid.value, run);
    var t := After(Next(s, GiveUp), run);
    var n := if |t.queue| < 4 then |t.queue| else 4;
    assert [] + t.queue[..n] == t.queue[..n];
  }

  lemma LateTimeoutExample()
    ensures var p := [0, 0, 0, 0];
      var s := Next(Next(IDLE, PushHeader(p)), Read);
      && Enabled(s, GiveUp) && s.mid.Some?
      && var t := Next(Next(s, GiveUp), PushPayload);
         Enabled(t, Read) && Next(t, Read).delivered == [[]] && Next(t, Read).sent == [p]
  {
    var p: Payload := [0, 0, 0, 0];
    hide Header, FromBe;
    HeaderReads(p);
    var h := Next(IDLE, PushHeader(p));
    assert h.queue == Header(p) + [];
    ReadsHeader(p, []);
    var s := Next(h, Read);
    IdleInv();
    StepKeeps(IDLE, PushHeader(p));
    StepKeeps(h, Read);
    var late := Next(s, GiveUp);
    PushIsVain(late);
    LateTimeoutDesyncs(s, [PushPayload]);
    ZeroLength();
    var t := Next(late, PushPayload);
    assert t.queue == p && t.queue[..4] == p && t.queue[4..] == [];
  }

  lemma PushIsVain(s: Link)
    requires Enabled(s, PushPayload)
    ensures OrderlyRun(s, [PushPayload]) && InVain(s, [PushPayload]) && After(s, [PushPayload]) == Next(s, PushPayload)
  {
    hide Next;
    assert [PushPayload][1..] == [];
    assert OrderlyRun(Next(s, PushPayload), []) && InVain(Next(s, PushPayload), []);
    assert After(Next(s, PushPayload), []) == Next(s, PushPayload);
  }

  lemma ZeroLength()
    ensures FromBe([0, 0, 0, 0]) == 0
  {
    var z: seq<byte> := [0, 0, 0, 0];
    assert z[..3] == [0, 0, 0] && z[..3][..2] == [0, 0] && z[..3][..2][..1] == [0];
    assert FromBe([0]) == 0;
    assert FromBe([0, 0]) == 0;
    assert FromBe([0, 0, 0]) == 0;
  }

  // ---------- The queue and the calls on it ----------

  /** One direction of an `InProcDuplex`. */
  class ByteQueue {
    var bytes: seq<byte>

    constructor ()
      ensures bytes == []
    {
      bytes := [];
    }

    /** Fills `buf` from index `start`; `None` is `WouldBlock`. */
    method Read(buf: array<byte>, start: nat) returns (n: Option<nat>)
      requires start <= buf.Length
      modifies this, buf
      ensures n.None? <==> old(bytes) == []
      ensures n.None? ==> bytes == [] && buf[..] == old(buf[..])
      ensures n.Some? ==>
        && n.value == (if buf.Length - start < |old(bytes)| then buf.Length - start else |old(bytes)|)
        && buf[..] == old(buf[..start]) + old(bytes)[..n.value] + old(buf[..])[start + n.value..]
        && bytes == old(bytes)[n.value..]
    {
      if bytes == [] {
        return None;
      }
      var k := 0;
      while start + k < buf.Length && bytes != []
        invariant 0 <= k <= |old(bytes)| && start + k <= buf.Length
        invariant bytes == old(bytes)[k..]
        invariant buf[..start] == old(buf[..start])
        invariant buf[start..start + k] == old(bytes)[..k]
        invariant buf[start + k..] == old(buf[..])[start + k..]
        decreases buf.Length - k
      {
        buf[start + k] := bytes[0];
        bytes := bytes[1..];
        k := k + 1;
      }
      assert buf[..] == buf[..start] + buf[start..start + k] + buf[start + k..];
      n := Some(k);
    }

    method Write(buf: seq<byte>)
      modifies this
      ensures bytes == old(bytes) + buf
    {
      for i := 0 to |buf|
        invariant bytes == old(bytes) + buf[..i]
      {
        bytes := bytes + [buf[i]];
      }
    }
  }

  method WriteFrame(q: ByteQueue, payload: Payload)
    modifies q
    ensures q.bytes == old(q.bytes) + Wire([payload])
  {
    q.Write(Be(|payload|, 4));
    q.Write(payload);
    assert [payload][1..] == [];
  }

  /** What the other side pushes just before read call `i`; nothing once the list is used up. */
  function Arrival(arrivals: seq<seq<byte>>, i: nat): seq<byte> {
    if i < |arrivals| then arrivals[i] else []
  }

  /** Reader and queue after `n` read calls. */
  function Polled(p: Phase, queue: seq<byte>, arrivals: seq<seq<byte>>, n: nat): (Phase, seq<byte>) {
    if n == 0 then (p, queue)
    else
      var (p1, q1) := Polled(p, queue, arrivals, n - 1);
      if Reading(p1) then ReadCall(p1, q1 + Arrival(arrivals, n - 1)) else (p1, q1)
  }

  /** Every second call finds nothing, and none finds a whole header. */
  ghost predicate Trickle(arrivals: seq<seq<byte>>) {
    forall i :: 0 <= i < |arrivals| ==> if i % 2 == 0 then |arrivals[i]| < 4 else arrivals[i] == []
  }

  lemma DropsThrough(got: seq<byte>, more: seq<byte>)
    requires |got| < 4
    ensures more == [] ==> ReadCall(Length(got), more) == (Length([]), [])
    ensures got == [] && |more| < 4 ==> ReadCall(Length(got), more) == (Length(more), [])
  {
    assert more[..|more|] == more && more[|more|..] == [];
    assert got == [] ==> got + more == more;
  }

  /** A reader that starts over never gets through a trickle, however long it lasts: what it had
      read when it found nothing is lost. */
  lemma {:induction false} TrickleStarves(arrivals: seq<seq<byte>>, n: nat)
    requires Trickle(arrivals)
    ensures var (p, q) := Polled(Length([]), [], arrivals, n);
      p.Length? && q == [] && |p.got| < 4 && (n % 2 == 0 ==> p.got == [])
    decreases n
  {
    hide FromBe, ReadCall;
    if n > 0 {
      TrickleStarves(arrivals, n - 1);
      var got := Polled(Length([]), [], arrivals, n - 1).0.got;
      DropsThrough(got, Arrival(arrivals, n - 1));
      assert [] + Arrival(arrivals, n - 1) == Arrival(arrivals, n - 1);
    }
  }

  lemma CallFills(p: Phase, g: seq<byte>, queue: seq<byte>, arrivals: seq<seq<byte>>, q0: seq<byte>, calls: nat)
    requires (p.Length? || p.Body?) && |g| < Wanted(p)
    requires Polled(Length([]), q0, arrivals, calls) == (p.(got := g), queue)
    ensures var arrived := queue + Arrival(arrivals, calls);
      && (arrived == [] ==> Polled(Length([]), q0, arrivals, calls + 1) == (p.(got := []), []))
      && (arrived != [] ==>
            var n := if Wanted(p) - |g| < |arrived| then Wanted(p) - |g| else |arrived|;
            Polled(Length([]), q0, arrivals, calls + 1) == (Settle(p.(got := g + arrived[..n])), arrived[n..]))
  {
  }

  lemma Unsettled(p: Phase, g: seq<byte>)
    requires (p.Length? || p.Body?) && |g| < Wanted(p)
    ensures Settle(p.(got := g)) == p.(got := g)
  {
  }

  /** `read_exact` with its retry loop: it leaves either the whole buffer or, at the deadline,
      nothing, and its calls are the reader's calls of the machine above. */
  method ReadExact(q: ByteQueue, ghost p: Phase, ghost q0: seq<byte>, buf: array<byte>, arrivals: seq<seq<byte>>, calls: nat)
    returns (ok: bool, used: nat)
    requires (p.Length? || p.Body?) && p.got == []
    requires buf.Length == Wanted(p) > 0
    requires Polled(Length([]), q0, arrivals, calls) == (p, q.bytes)
    modifies q, buf
    ensures ok ==> Polled(Length([]), q0, arrivals, used) == (Settle(p.(got := buf[..])), q.bytes)
    ensures !ok ==> Polled(Length([]), q0, arrivals, used) == (p, q.bytes) && q.bytes == [] && used >= |arrivals|
  {
    hide Polled, Settle, Arrival;
    used := calls;
    var filled := 0;
    Unsettled(p, []);
    while filled < buf.Length
      invariant 0 <= filled <= buf.Length
      invariant filled < buf.Length ==> Settle(p.(got := buf[..filled])) == p.(got := buf[..filled])
      invariant Polled(Length([]), q0, arrivals, used) == (Settle(p.(got := buf[..filled])), q.bytes)
      decreases if used < |arrivals| then |arrivals| - used else 0, buf.Length - filled
    {
      ghost var g, before := buf[..filled], q.bytes;
      CallFills(p, g, before, arrivals, q0, used);
      q.Write(Arrival(arrivals, used));
      ghost var arrived := q.bytes;
      var n := q.Read(buf, filled);
      used := used + 1;
      if n.None? {
        filled := 0;
        assert buf[..0] == [];
        if used >= |arrivals| {
          return false, used;
        }
      } else {
        filled := filled + n.value;
        assert buf[..filled] == g + arrived[..n.value];
        if filled < buf.Length {
          Unsettled(p, buf[..filled]);
        }
      }
    }
    assert buf[..filled] == buf[..];
    ok := true;
  }

  datatype Outcome = Frame(bytes: Payload) | TimedOut | Invalid

  /** The call returns the frame its read calls complete, refuses what they refuse, and times
      out only on an empty queue. */
  method ReadFrame(q: ByteQueue, arrivals: seq<seq<byte>>) returns (r: Outcome, used: nat)
    modifies q
    ensures var (p, left) := Polled(Length([]), old(q.bytes), arrivals, used);
      && q.bytes == left
      && (r.Frame? ==> p == Complete(r.bytes))
      && (r.Invalid? ==> p == TooLong)
      && (r.TimedOut? ==> Reading(p) && p.got == [] && left == [] && used >= |arrivals|)
  {
    ghost var q0 := q.bytes;
    var header := new byte[4];
    var ok;
    ok, used := ReadExact(q, Length([]), q0, header, arrivals, 0);
    if !ok {
      return TimedOut, used;
    }
    var len := FromBe(header[..]);
    if len > MAX_MESSAGE {
      return Invalid, used;
    }
    var body := new byte[len];
    if len > 0 {
      ok, used := ReadExact(q, Body(len, []), q0, body, arrivals, used);
      if !ok {
        return TimedOut, used;
      }
    }
    r := Frame(body[..]);
  }
}
