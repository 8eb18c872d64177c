/** The multiplexer's priority scheduler: one high-priority queue served in bursts of at most
    eight while others wait, and seven lower queues served in rotation. */
module Scheduler {
  import opened Results

  type StreamId = nat

  const BURST_LIMIT := 8

  type Queues = q: seq<seq<StreamId>> | |q| == 8 witness seq(8, _ => [])

  datatype Sched = Sched(queues: Queues, burst: nat, cursor: nat)

  /** The cursor names a lower queue; the burst counter is a saturating byte. */
  predicate Valid(s: Sched) {
    1 <= s.cursor <= 7 && s.burst <= 255
  }

  const EMPTY := Sched([[], [], [], [], [], [], [], []], 0, 1)

  // ---------- Specification ----------

  /** The lower queue `offset` places after the cursor. */
  function Place(cursor: nat, offset: nat): nat {
    1 + (cursor - 1 + offset) % 7
  }

  /** The first offset at or after `offset` with work, if any. */
  function FirstBusy(s: Sched, offset: nat): Option<nat>
    requires offset <= 7 && Valid(s)
    decreases 7 - offset
  {
    if offset == 7 then None
    else if s.queues[Place(s.cursor, offset)] != [] then Some(offset)
    else FirstBusy(s, offset + 1)
  }

  function Popped(s: Sched, i: nat): Sched
    requires i < 8 && s.queues[i] != []
  {
    s.(queues := s.queues[i := s.queues[i][1..]])
  }

  function Lower(s: Sched): (Sched, Option<StreamId>)
    requires Valid(s)
  {
    match FirstBusy(s, 0)
    case None => (s, None)
    case Some(offset) =>
      BusyIsBusy(s, 0);
      var i := Place(s.cursor, offset);
      (Popped(s, i).(cursor := if i + 1 >= 8 then 1 else i + 1), Some(s.queues[i][0]))
  }

  predicate LowerPending(s: Sched) {
    exists i :: 1 <= i < 8 && s.queues[i] != []
  }

  function Dequeued(s: Sched): (Sched, Option<StreamId>)
    requires Valid(s)
  {
    if s.queues[0] == [] then Lower(s.(burst := 0))
    else
      var turn := LowerPending(s) && s.burst >= BURST_LIMIT;
      var s := if turn then s.(burst := 0) else s;
      if turn && Lower(s).1.Some? then Lower(s)
      else (Popped(s, 0).(burst := if s.burst < 255 then s.burst + 1 else 255), Some(s.queues[0][0]))
  }

  function Enqueued(s: Sched, priority: nat, id: StreamId): Sched
    requires priority < 8
  {
    s.(queues := s.queues[priority := s.queues[priority] + [id]])
  }

  lemma {:induction false} BusyIsBusy(s: Sched, offset: nat)
    requires offset <= 7 && Valid(s)
    ensures FirstBusy(s, offset).Some? ==>
      var o := FirstBusy(s, offset).value;
      && offset <= o < 7 && s.queues[Place(s.cursor, o)] != []
      && forall k :: offset <= k < o ==> s.queues[Place(s.cursor, k)] == []
    ensures FirstBusy(s, offset).None? ==> forall k :: offset <= k < 7 ==> s.queues[Place(s.cursor, k)] == []
    decreases 7 - offset
  {
    if offset < 7 {
      BusyIsBusy(s, offset + 1);
    }
  }

  // ---------- Fairness ----------

  /** How many places the cursor has to go to reach queue `q`. */
  function Distance(s: Sched, q: nat): nat
    requires Valid(s) && 1 <= q <= 7
  {
    if q >= s.cursor then q - s.cursor else q + 7 - s.cursor
  }

  lemma PlaceAt(cursor: nat, offset: nat)
    requires 1 <= cursor <= 7 && offset < 7
    ensures Place(cursor, offset) == if cursor + offset <= 7 then cursor + offset else cursor + offset - 7
  {
  }

  /** The dequeues left before the front of queue `q` must be served. */
  function Patience(s: Sched, q: nat): nat
    requires Valid(s) && 1 <= q <= 7
  {
    9 * Distance(s, q) + (if s.burst >= BURST_LIMIT then 0 else BURST_LIMIT - s.burst)
  }

  /** A lower dequeue either serves queue `q`, if it has work, or brings the cursor nearer. */
  lemma LowerNears(s: Sched, q: nat)
    requires Valid(s) && 1 <= q <= 7 && s.queues[q] != []
    ensures var (t, id) := Lower(s);
      && Valid(t) && t.burst == s.burst && id.Some? && t.queues[0] == s.queues[0]
      && ((id.value == s.queues[q][0] && t.queues[q] == s.queues[q][1..])
          || (t.queues[q] == s.queues[q] && Distance(t, q) < Distance(s, q)))
  {
    BusyIsBusy(s, 0);
    PlaceAt(s.cursor, Distance(s, q));
    var d := Distance(s, q);
    assert Place(s.cursor, d) == q;
    assert FirstBusy(s, 0).Some? && FirstBusy(s, 0).value <= d;
    PlaceAt(s.cursor, FirstBusy(s, 0).value);
  }

  /** While queue `q` has work, each dequeue serves its front or uses up patience. */
  lemma DequeueProgress(s: Sched, q: nat)
    requires Valid(s) && 1 <= q <= 7 && s.queues[q] != []
    ensures var (t, id) := Dequeued(s);
      && Valid(t) && id.Some?
      && ((id.value == s.queues[q][0] && t.queues[q] == s.queues[q][1..])
          || (t.queues[q] == s.queues[q] && Patience(t, q) < Patience(s, q)))
  {
    hide Lower;
    assert LowerPending(s);
    LowerNears(s.(burst := 0), q);
  }

  predicate TakenFrom(s: Sched, t: Sched, id: StreamId, i: nat)
    requires i < 8
  {
    s.queues[i] != [] && id == s.queues[i][0] && t.queues == s.queues[i := s.queues[i][1..]]
  }

  lemma HighServed(s: Sched)
    requires Valid(s)
    ensures s.queues[0] != [] ==>
      (Dequeued(s).0.queues[0] == s.queues[0][1..] <==> s.burst < BURST_LIMIT || !LowerPending(s))
  {
    if LowerPending(s) {
      var q :| 1 <= q < 8 && s.queues[q] != [];
      LowerNears(s.(burst := 0), q);
      hide Lower;
    }
    assert s.queues[0] != [] ==> |s.queues[0][1..]| < |s.queues[0]|;
  }

  /** Work-conserving and first-in first-out: a dequeue returns nothing only when everything is
      empty, and otherwise takes the front of one queue and leaves the others alone. Waiting
      high-priority work is served at once, except after a full burst with others waiting. */
  lemma DequeueTakesOneFront(s: Sched)
    requires Valid(s)
    ensures Valid(Dequeued(s).0)
    ensures Dequeued(s).1.None? <==> forall i :: 0 <= i < 8 ==> s.queues[i] == []
    ensures Dequeued(s).1.None? ==> Dequeued(s).0.queues == s.queues
    ensures Dequeued(s).1.Some? ==> exists i :: 0 <= i < 8 && TakenFrom(s, Dequeued(s).0, Dequeued(s).1.value, i)
    ensures s.queues[0] != [] ==>
      (Dequeued(s).0.queues[0] == s.queues[0][1..] <==> s.burst < BURST_LIMIT || !LowerPending(s))
  {
    HighServed(s);
    var z := s.(burst := 0);
    BusyIsBusy(z, 0);
    if FirstBusy(z, 0).None? {
      forall i | 1 <= i < 8
        ensures s.queues[i] == []
      {
        PlaceAt(s.cursor, Distance(z, i));
      }
    } else {
      var i := Place(s.cursor, FirstBusy(z, 0).value);
      assert TakenFrom(s, Lower(z).0, Lower(z).1.value, i);
    }
    if s.queues[0] != [] && Dequeued(s) != Lower(z) {
      assert TakenFrom(s, Dequeued(s).0, Dequeued(s).1.value, 0);
    }
  }

  // ---------- Waiting ----------

  datatype Action = Enqueue(priority: nat, id: StreamId) | Dequeue

  predicate Allowed(a: Action) {
    a.Enqueue? ==> a.priority < 8
  }

  function Next(s: Sched, a: Action): Sched
    requires Valid(s) && Allowed(a)
  {
    match a
    case Enqueue(priority, id) => Enqueued(s, priority, id)
    case Dequeue => Dequeued(s).0
  }

  /** How far from the front the entry at place `p` of queue `q` is after a step; it may leave. */
  function Moved(s: Sched, a: Action, q: nat, p: nat): Option<nat>
    requires Valid(s) && Allowed(a) && q < 8 && p < |s.queues[q]|
  {
    if |Next(s, a).queues[q]| >= |s.queues[q]| then Some(p) else if p > 0 then Some(p - 1) else None
  }

  lemma StepMoves(s: Sched, a: Action, q: nat, p: nat)
    requires Valid(s) && Allowed(a) && q < 8 && p < |s.queues[q]|
    ensures var t, moved := Next(s, a), Moved(s, a, q, p);
      && Valid(t)
      && (moved.Some? ==> moved.value < |t.queues[q]| && t.queues[q][moved.value] == s.queues[q][p])
      && (moved.None? ==> a.Dequeue? && Dequeued(s).1 == Some(s.queues[q][p]))
  {
    if a.Dequeue? {
      DequeueTakesOneFront(s);
      hide Dequeued;
      var i :| 0 <= i < 8 && TakenFrom(s, Dequeued(s).0, Dequeued(s).1.value, i);
    }
  }

  lemma StepProgress(s: Sched, a: Action, q: nat, p: nat)
    requires Valid(s) && Allowed(a) && 1 <= q <= 7 && p < |s.queues[q]|
    ensures var t, moved := Next(s, a), Moved(s, a, q, p);
      && Valid(t)
      && (moved.Some? ==>
            63 * moved.value + Patience(t, q) + (if a.Dequeue? then 1 else 0) <= 63 * p + Patience(s, q))
  {
    if a.Dequeue? {
      DequeueProgress(s, q);
      hide Dequeued;
    }
  }

  function Dequeues(run: seq<Action>): nat {
    if run == [] then 0 else (if run[0].Dequeue? then 1 else 0) + Dequeues(run[1..])
  }

  /** The entry at place `p` of queue `q` is still waiting when the run ends. */
  ghost predicate Waits(s: Sched, run: seq<Action>, q: nat, p: nat)
    requires Valid(s) && q < 8 && p < |s.queues[q]|
    decreases |run|
  {
    if run == [] then true
    else
      && Allowed(run[0])
      && Moved(s, run[0], q, p).Some?
      && (StepMoves(s, run[0], q, p);
          Waits(Next(s, run[0]), run[1..], q, Moved(s, run[0], q, p).value))
  }

  lemma {:induction false} WaitIsBounded(s: Sched, run: seq<Action>, q: nat, p: nat)
    requires Valid(s) && 1 <= q <= 7 && p < |s.queues[q]| && Waits(s, run, q, p)
    ensures Dequeues(run) <= 63 * p + Patience(s, q)
    decreases |run|
  {
    hide Patience, Next, Moved;
    if run != [] {
      StepMoves(s, run[0], q, p);
      StepProgress(s, run[0], q, p);
      WaitIsBounded(Next(s, run[0]), run[1..], q, Moved(s, run[0], q, p).value);
    }
  }

  /** No starvation: whatever is enqueued meanwhile, the entry at place `p` of a lower queue leaves
      within 63 * (p + 1) dequeues. */
  lemma NoStarvation(s: Sched, run: seq<Action>, q: nat, p: nat)
    requires Valid(s) && 1 <= q <= 7 && p < |s.queues[q]| && Waits(s, run, q, p)
    ensures Dequeues(run) < 63 * (p + 1)
  {
    hide Waits, Dequeues;
    WaitIsBounded(s, run, q, p);
  }

  function Used(s: Sched): nat { if s.burst < BURST_LIMIT then s.burst else BURST_LIMIT }

  lemma HighProgress(s: Sched, a: Action, p: nat)
    requires Valid(s) && Allowed(a) && p < |s.queues[0]|
    ensures var t, moved := Next(s, a), Moved(s, a, 0, p);
      moved.Some? ==> 9 * moved.value + Used(t) + (if a.Dequeue? then 8 else 0) <= 9 * p + Used(s)
  {
    if a.Dequeue? && LowerPending(s) {
      var q :| 1 <= q < 8 && s.queues[q] != [];
      LowerNears(s.(burst := 0), q);
      hide Lower;
    }
  }

  lemma {:induction false} HighWaitIsBounded(s: Sched, run: seq<Action>, p: nat)
    requires Valid(s) && p < |s.queues[0]| && Waits(s, run, 0, p)
    ensures 8 * Dequeues(run) <= 9 * p + Used(s)
    decreases |run|
  {
    hide Used, Next, Moved;
    if run != [] {
      StepMoves(s, run[0], 0, p);
      HighProgress(s, run[0], p);
      HighWaitIsBounded(Next(s, run[0]), run[1..], Moved(s, run[0], 0, p).value);
    }
  }

  /** Nor does high-priority work wait long: at most one lower entry is served for every eight of
      its own, so the entry at place `p` leaves within p + p / 8 + 2 dequeues. */
  lemma HighWaitsLittle(s: Sched, run: seq<Action>, p: nat)
    requires Valid(s) && p < |s.queues[0]| && Waits(s, run, 0, p)
    ensures Dequeues(run) < p + p / 8 + 2
  {
    hide Waits, Dequeues;
    HighWaitIsBounded(s, run, p);
  }

  // ---------- Bursts ----------

  ghost predicate AllAllowed(run: seq<Action>) {
    forall i :: 0 <= i < |run| ==> Allowed(run[i])
  }

  lemma NextValid(s: Sched, a: Action)
    requires Valid(s) && Allowed(a)
    ensures Valid(Next(s, a))
  {
    if a.Dequeue? {
      DequeueTakesOneFront(s);
    }
  }

  /** The scheduler after a run from its start. */
  ghost function After(run: seq<Action>): (s: Sched)
    requires AllAllowed(run)
    ensures Valid(s)
    decreases |run|
  {
    if run == [] then EMPTY
    else
      var s := After(run[..|run| - 1]);
      NextValid(s, run[|run| - 1]);
      Next(s, run[|run| - 1])
  }

  /** The streams put into queue `q`, in order. */
  ghost function Given(run: seq<Action>, q: nat): seq<StreamId> {
    if run == [] then []
    else
      var last := run[|run| - 1];
      Given(run[..|run| - 1], q) + if last.Enqueue? && last.priority == q then [last.id] else []
  }

  /** The streams handed out by dequeues that shortened queue `q`, in order. */
  ghost function Taken(run: seq<Action>, q: nat): seq<StreamId>
    requires AllAllowed(run) && q < 8
    decreases |run|
  {
    if run == [] then []
    else
      var before, last := run[..|run| - 1], run[|run| - 1];
      var s := After(before);
      Taken(before, q)
      + if last.Dequeue? && |Dequeued(s).0.queues[q]| < |s.queues[q]| && Dequeued(s).1.Some? then [Dequeued(s).1.value] else []
  }

  lemma TakesFrom(s: Sched, q: nat)
    requires Valid(s) && q < 8
    ensures var t := Dequeued(s).0;
      if |t.queues[q]| < |s.queues[q]| && Dequeued(s).1.Some? then s.queues[q] == [Dequeued(s).1.value] + t.queues[q]
      else t.queues[q] == s.queues[q]
  {
    DequeueTakesOneFront(s);
    hide Dequeued;
    if Dequeued(s).1.Some? {
      var i :| 0 <= i < 8 && TakenFrom(s, Dequeued(s).0, Dequeued(s).1.value, i);
      assert s.queues[i] == [s.queues[i][0]] + s.queues[i][1..];
    }
  }

  lemma Regrouped(a: seq<StreamId>, b: seq<StreamId>, c: seq<StreamId>)
    ensures a + b + c == a + (b + c) && a + [] == a && b + [] == b
  {
  }

  /** Main result. In every run each queue is first-in first-out and loses nothing: what was put into
      it is what was taken from it, followed by what is still in it. */
  lemma {:induction false} QueuesConserve(run: seq<Action>, q: nat)
    requires AllAllowed(run) && q < 8
    ensures Given(run, q) == Taken(run, q) + After(run).queues[q]
    decreases |run|
  {
    if run != [] {
      hide Dequeued;
      var before, last := run[..|run| - 1], run[|run| - 1];
      QueuesConserve(before, q);
      TakesFrom(After(before), q);
      var taken, queue := Taken(before, q), After(before).queues[q];
      if last.Enqueue? {
        Regrouped(taken, queue, if last.priority == q then [last.id] else []);
      } else {
        Regrouped(taken, queue[..|queue| - |After(run).queues[q]|], After(run).queues[q]);
      }
    }
  }

  predicate ServesHigh(s: Sched)
    requires Valid(s)
  {
    s.queues[0] != [] && Dequeued(s).0.queues[0] == s.queues[0][1..]
  }

  /** How many of the last dequeues served the high-priority queue, one after the other. */
  ghost function Streak(run: seq<Action>): nat
    requires AllAllowed(run)
    decreases |run|
  {
    if run == [] then 0
    else
      var before := run[..|run| - 1];
      if run[|run| - 1].Enqueue? then Streak(before) else if ServesHigh(After(before)) then Streak(before) + 1 else 0
  }

  lemma BurstCounts(s: Sched)
    requires Valid(s)
    ensures Dequeued(s).0.burst == if ServesHigh(s) then (if s.burst < 255 then s.burst + 1 else 255) else 0
  {
    HighServed(s);
    LowerKeeps(s.(burst := 0));
    if LowerPending(s) {
      var q :| 1 <= q < 8 && s.queues[q] != [];
      LowerNears(s.(burst := 0), q);
    }
    hide Lower;
  }

  lemma LowerKeeps(s: Sched)
    requires Valid(s)
    ensures Lower(s).0.burst == s.burst
  {
  }

  lemma {:induction false} StreakIsBurst(run: seq<Action>)
    requires AllAllowed(run)
    ensures After(run).burst == if Streak(run) < 255 then Streak(run) else 255
    decreases |run|
  {
    if run != [] {
      hide ServesHigh, Dequeued;
      var before := run[..|run| - 1];
      StreakIsBurst(before);
      BurstCounts(After(before));
    }
  }

  /** Main result. After any run, waiting high-priority work is served next if and only if fewer
      than eight of the last dequeues in a row served it already, or nothing else waits. */
  lemma BurstsOfEight(run: seq<Action>)
    requires AllAllowed(run) && After(run).queues[0] != []
    ensures ServesHigh(After(run)) <==> Streak(run) < 8 || !LowerPending(After(run))
  {
    hide After, Streak, Dequeued;
    StreakIsBurst(run);
    HighServed(After(run));
  }

  // ---------- The object ----------

  class PriorityScheduler {
    var queues: Queues
    var burst: nat
    var cursor: nat

    ghost function View(): Sched
      reads this
    {
      Sched(queues, burst, cursor)
    }

    constructor ()
      ensures View() == EMPTY && Valid(View())
    {
      queues, burst, cursor := EMPTY.queues, 0, 1;
    }

    method EnqueueStream(priority: nat, id: StreamId)
      requires priority < 8 && Valid(View())
      modifies this
      ensures View() == Enqueued(old(View()), priority, id) && Valid(View())
    {
      queues := queues[priority := queues[priority] + [id]];
    }

    method DequeueFromLowerPriorities() returns (id: Option<StreamId>)
      requires Valid(View())
      modifies this
      ensures (View(), id) == Lower(old(View())) && Valid(View())
    {
      for offset := 0 to 7
        invariant View() == old(View()) && FirstBusy(View(), 0) == FirstBusy(View(), offset)
      {
        var i := 1 + (cursor - 1 + offset) % 7;
        if queues[i] != [] {
          id := Some(queues[i][0]);
          queues := queues[i := queues[i][1..]];
          cursor := if i + 1 >= 8 then 1 else i + 1;
          return;
        }
      }
      id := None;
    }

    method DequeueNext() returns (id: Option<StreamId>)
      requires Valid(View())
      modifies this
      ensures (View(), id) == Dequeued(old(View())) && Valid(View())
    {
      if queues[0] == [] {
        burst := 0;
        id := DequeueFromLowerPriorities();
        return;
      }
      var pending := false;
      for i := 1 to 8
        invariant pending <==> exists k :: 1 <= k < i && queues[k] != []
      {
        pending := pending || queues[i] != [];
      }
      if pending && burst >= BURST_LIMIT {
        burst := 0;
        id := DequeueFromLowerPriorities();
        if id.Some? {
          return;
        }
      }
      id := Some(queues[0][0]);
      queues := queues[0 := queues[0][1..]];
      burst := if burst < 255 then burst + 1 else 255;
    }
  }
}
