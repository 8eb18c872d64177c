/** The host discovery registry: announcements by device, and the channels of its watchers. */
module Registry {
  import opened Ledger
  import opened Utf8

  // ---------- Runs ----------

  /** `channels[i]` is everything ever sent to watcher `i`; `history` every announcement made. */
  datatype State = State(announcements: Directory, channels: seq<seq<Announcement>>, history: seq<Announcement>)

  /** A watcher is seeded in whatever order the map is walked. */
  datatype Action = Announces(a: Announcement) | Watches(seed: seq<Announcement>)

  predicate Enabled(s: State, x: Action) {
    x.Watches? ==> Lists(x.seed, s.announcements)
  }

  function Sent(channels: seq<seq<Announcement>>, a: Announcement): (r: seq<seq<Announcement>>)
    ensures |r| == |channels| && forall i :: 0 <= i < |r| ==> r[i] == channels[i] + [a]
  {
    seq(|channels|, i requires 0 <= i < |channels| => channels[i] + [a])
  }

  function Next(s: State, x: Action): State {
    match x
    case Announces(a) => State(s.announcements[a.device := a], Sent(s.channels, a), s.history + [a])
    case Watches(seed) => s.(channels := s.channels + [seed])
  }

  ghost predicate IsRun(s: State, run: seq<Action>)
    decreases |run|
  {
    run == [] || (Enabled(s, run[0]) && IsRun(Next(s, run[0]), run[1..]))
  }

  ghost function After(s: State, run: seq<Action>): State
    decreases |run|
  {
    if run == [] then s else After(Next(s, run[0]), run[1..])
  }

  predicate Agrees(s: State) {
    && s.announcements == Latest(s.history)
    && forall i :: 0 <= i < |s.channels| ==> Latest(s.channels[i]) == s.announcements
  }

  lemma StepAgrees(s: State, x: Action)
    requires Agrees(s) && Enabled(s, x)
    ensures Agrees(Next(s, x))
  {
    hide Latest;
    match x
    case Announces(a) =>
      LatestAppend(s.history, a);
      forall i | 0 <= i < |s.channels|
        ensures Latest(s.channels[i] + [a]) == s.announcements[a.device := a]
      {
        LatestAppend(s.channels[i], a);
      }
    case Watches(seed) =>
  }

  /** After every run, each watcher that keeps the last announcement per device holds exactly the
      registry's map, however late it joined and in whatever order it was seeded. */
  lemma {:induction false} WatchersAgree(s: State, run: seq<Action>)
    requires Agrees(s) && IsRun(s, run)
    ensures Agrees(After(s, run))
    decreases |run|
  {
    hide Agrees, Next, Enabled;
    if run != [] {
      StepAgrees(s, run[0]);
      WatchersAgree(Next(s, run[0]), run[1..]);
    }
  }

  // ---------- The object ----------

  class HostRegistry {
    var announcements: Directory
    var channels: seq<seq<Announcement>>
    ghost var history: seq<Announcement>

    ghost function View(): State
      reads this
    {
      State(announcements, channels, history)
    }

    constructor ()
      ensures View() == State(map[], [], []) && Agrees(View())
    {
      announcements, channels, history := map[], [], [];
    }

    method Announce(a: Announcement)
      requires Agrees(View())
      modifies this
      ensures View() == Next(old(View()), Announces(a)) && Agrees(View())
    {
      ghost var before := View();
      for i := 0 to |channels|
        invariant announcements == old(announcements) && history == old(history)
        invariant |channels| == |old(channels)|
        invariant forall j :: 0 <= j < |channels| ==>
          channels[j] == if j < i then old(channels)[j] + [a] else old(channels)[j]
      {
        channels := channels[i := channels[i] + [a]];
      }
      announcements := announcements[a.device := a];
      history := history + [a];
      StepAgrees(before, Announces(a));
      assert channels == Sent(before.channels, a);
    }

    method Watch() returns (watcher: nat)
      requires Agrees(View())
      modifies this
      ensures watcher == |old(channels)| && |channels| == watcher + 1
      ensures Enabled(old(View()), Watches(channels[watcher]))
      ensures View() == Next(old(View()), Watches(channels[watcher])) && Agrees(View())
    {
      ghost var before := View();
      LatestKeyed(history);
      var seed := Values(announcements);
      watcher := |channels|;
      channels := channels + [seed];
      StepAgrees(before, Watches(seed));
    }
  }

  /** Walks the map in an unspecified order. */
  method Values(d: Directory) returns (seed: seq<Announcement>)
    requires Keyed(d)
    ensures Lists(seed, d)
  {
    hide Latest, Keyed;
    seed := [];
    var keys := d.Keys;
    EmptyList(d);
    while keys != {}
      invariant keys <= d.Keys
      invariant Latest(seed) == d - keys && |seed| + |keys| == |d.Keys|
      decreases |keys|
    {
      var k :| k in keys;
      Listed(d, keys, k, seed);
      seed := seed + [d[k]];
      keys := keys - {k};
    }
    NothingLeft(d);
  }
}
