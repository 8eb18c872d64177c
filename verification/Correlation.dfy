/** The request/reply correlation window: outbound nonces are handed out in sequence, and inbound
    replies are accepted once each, in increasing order, and only after authentication. */
module Correlation {
  import opened Results
  import opened Words

  datatype Reject = UnauthenticatedMessagePath | NonceMismatchOrStaleReply

  datatype Window = Window(authenticated: bool, next: u64, last: Option<u64>)

  datatype Call = Mark | Reserve | Reply(expected: u64, observed: u64)

  datatype Answer = Done | Nonce(n: u64) | Accepted | Rejected(why: Reject)

  /** The window after a call, and what the caller is told. */
  function Step(w: Window, c: Call): (Window, Answer) {
    match c
    case Mark => (w.(authenticated := true), Done)
    case Reserve =>
      if !w.authenticated then (w, Rejected(UnauthenticatedMessagePath))
      else (w.(next := (w.next + 1) % TWO64), Nonce(w.next))
    case Reply(expected, observed) =>
      if !w.authenticated then (w, Rejected(UnauthenticatedMessagePath))
      else if observed != expected then (w, Rejected(NonceMismatchOrStaleReply))
      else if w.last.Some? && observed <= w.last.value then (w, Rejected(NonceMismatchOrStaleReply))
      else (w.(last := Some(observed)), Accepted)
  }

  function After(w: Window, run: seq<Call>): Window {
    if run == [] then w else Step(After(w, run[..|run| - 1]), run[|run| - 1]).0
  }

  /** The answer to call `i` of a run. */
  function AnswerAt(w: Window, run: seq<Call>, i: nat): Answer
    requires i < |run|
  {
    Step(After(w, run[..i]), run[i]).1
  }

  lemma AfterOne(w: Window, run: seq<Call>, i: nat)
    requires i < |run|
    ensures After(w, run[..i + 1]) == Step(After(w, run[..i]), run[i]).0
  {
    assert run[..i + 1][..i] == run[..i];
  }

  lemma RejectsKeepWindow(w: Window, run: seq<Call>, i: nat)
    requires i < |run| && AnswerAt(w, run, i).Rejected?
    ensures After(w, run[..i + 1]) == After(w, run[..i])
  {
    AfterOne(w, run, i);
  }

  /** The window was made authenticated, or marked so by an earlier call. */
  ghost predicate Marked(w: Window, run: seq<Call>, i: nat)
    requires i <= |run|
  {
    w.authenticated || exists k :: 0 <= k < i && run[k] == Mark
  }

  lemma {:induction false} AuthenticatedExactly(w: Window, run: seq<Call>, i: nat)
    requires i <= |run|
    ensures After(w, run[..i]).authenticated <==> Marked(w, run, i)
    decreases i
  {
    if i == 0 {
      assert run[..0] == [];
    } else {
      hide After;
      AuthenticatedExactly(w, run, i - 1);
      AfterOne(w, run, i - 1);
    }
  }

  /** Before authentication nothing is reserved and no reply accepted, and afterwards no call is
      turned away for want of it. */
  lemma UnauthenticatedExactly(w: Window, run: seq<Call>, i: nat)
    requires i < |run| && run[i] != Mark
    ensures AnswerAt(w, run, i) == Rejected(UnauthenticatedMessagePath) <==> !Marked(w, run, i)
  {
    hide After, Marked;
    AuthenticatedExactly(w, run, i);
  }

  lemma {:induction false} LastGrows(w: Window, run: seq<Call>, i: nat, j: nat)
    requires i <= j <= |run|
    ensures var a, b := After(w, run[..i]).last, After(w, run[..j]).last;
      a.Some? ==> b.Some? && a.value <= b.value
    decreases j
  {
    if i < j {
      LastGrows(w, run, i, j - 1);
      AfterOne(w, run, j - 1);
    }
  }

  /** Accepted replies strictly increase, so no reply is accepted twice. */
  lemma AcceptedIncrease(w: Window, run: seq<Call>, i: nat, j: nat)
    requires i < j < |run| && AnswerAt(w, run, i).Accepted? && AnswerAt(w, run, j).Accepted?
    ensures run[i].Reply? && run[j].Reply? && run[i].observed < run[j].observed
  {
    hide After;
    AfterOne(w, run, i);
    LastGrows(w, run, i + 1, j);
  }

  lemma LastStep(w: Window, c: Call)
    ensures Step(w, c).0.last == if Step(w, c).1.Accepted? then Some(c.observed) else w.last
  {
  }

  lemma {:induction false} LastWasAccepted(w: Window, run: seq<Call>, i: nat) returns (j: nat)
    requires w.last.None? && i <= |run| && After(w, run[..i]).last.Some?
    ensures j < i && AnswerAt(w, run, j).Accepted? && run[j].observed == After(w, run[..i]).last.value
    decreases i
  {
    AfterOne(w, run, i - 1);
    LastStep(After(w, run[..i - 1]), run[i - 1]);
    hide After, Step;
    if AnswerAt(w, run, i - 1).Accepted? {
      j := i - 1;
    } else {
      j := LastWasAccepted(w, run, i - 1);
    }
  }

  /** In a fresh window, a reply is accepted exactly when the window is authenticated, the nonce is
      the expected one, and it exceeds every nonce accepted before. */
  lemma AcceptedExactly(w: Window, run: seq<Call>, i: nat)
    requires w.last.None? && i < |run| && run[i].Reply?
    ensures AnswerAt(w, run, i).Accepted? <==>
      && Marked(w, run, i) && run[i].observed == run[i].expected
      && forall j :: 0 <= j < i && AnswerAt(w, run, j).Accepted? ==> run[j].observed < run[i].observed
  {
    hide After, Marked;
    AuthenticatedExactly(w, run, i);
    if AnswerAt(w, run, i).Accepted? {
      forall j | 0 <= j < i && AnswerAt(w, run, j).Accepted?
        ensures run[j].observed < run[i].observed
      {
        AcceptedIncrease(w, run, j, i);
      }
    } else if After(w, run[..i]).last.Some? {
      var j := LastWasAccepted(w, run, i);
    }
  }

  // ---------- Nonces ----------

  /** How many nonces the first calls handed out. */
  function Reserved(w: Window, run: seq<Call>, i: nat): nat
    requires i <= |run|
  {
    if i == 0 then 0 else Reserved(w, run, i - 1) + if AnswerAt(w, run, i - 1).Nonce? then 1 else 0
  }

  lemma NextStep(w: Window, c: Call)
    ensures Step(w, c).0.next == if Step(w, c).1.Nonce? then (w.next + 1) % TWO64 else w.next
    ensures !c.Reply? ==> Step(w, c).0.last == w.last
  {
  }

  lemma AddMod(a: nat, b: nat)
    requires b == a % TWO64
    ensures (b + 1) % TWO64 == (a + 1) % TWO64
  {
  }

  lemma {:induction false} NextCounts(w: Window, run: seq<Call>, i: nat)
    requires i <= |run|
    ensures After(w, run[..i]).next == (w.next + Reserved(w, run, i)) % TWO64
    decreases i
  {
    if i > 0 {
      hide After, Step;
      NextCounts(w, run, i - 1);
      AfterOne(w, run, i - 1);
      NextStep(After(w, run[..i - 1]), run[i - 1]);
      AddMod(w.next + Reserved(w, run, i - 1), After(w, run[..i - 1]).next);
    } else {
      assert run[..0] == [];
    }
  }

  lemma {:induction false} ReservedGrows(w: Window, run: seq<Call>, i: nat, j: nat)
    requires i < j <= |run| && AnswerAt(w, run, i).Nonce?
    ensures Reserved(w, run, i) < Reserved(w, run, j)
    decreases j
  {
    hide AnswerAt;
    if i + 1 < j {
      ReservedGrows(w, run, i, j - 1);
    }
  }

  lemma SameRemainder(a: int, x: int, y: int)
    ensures (a + x) % TWO64 == (a + y) % TWO64 <==> (y - x) % TWO64 == 0
  {
  }

  /** The k-th nonce is the initial one plus k, modulo 2^64; two nonces of a run are the same if and
      only if a multiple of 2^64 were handed out from one to the other, which is never none. */
  lemma NoncesDistinct(w: Window, run: seq<Call>, i: nat, j: nat)
    requires i < j < |run| && AnswerAt(w, run, i).Nonce? && AnswerAt(w, run, j).Nonce?
    ensures AnswerAt(w, run, i).n == (w.next + Reserved(w, run, i)) % TWO64
    ensures Reserved(w, run, i) < Reserved(w, run, j)
    ensures AnswerAt(w, run, i).n == AnswerAt(w, run, j).n <==> (Reserved(w, run, j) - Reserved(w, run, i)) % TWO64 == 0
  {
    hide After, Reserved;
    NextCounts(w, run, i);
    NextCounts(w, run, j);
    ReservedGrows(w, run, i, j);
    SameRemainder(w.next, Reserved(w, run, i), Reserved(w, run, j));
  }

  // ---------- A caller that answers in order ----------

  function Replies(run: seq<Call>, i: nat): nat
    requires i <= |run|
  {
    if i == 0 then 0 else Replies(run, i - 1) + if run[i - 1].Reply? then 1 else 0
  }

  /** The m-th reply answers the m-th nonce, which has been handed out by then. */
  ghost predicate AnswersInOrder(w: Window, run: seq<Call>) {
    forall i :: 0 <= i < |run| && run[i].Reply? ==> InOrderAt(w, run, i)
  }

  ghost predicate InOrderAt(w: Window, run: seq<Call>, i: nat)
    requires i < |run| && run[i].Reply?
  {
    var m := Replies(run, i);
    m < Reserved(w, run, i) && run[i].expected == run[i].observed == NonceOf(w.next, m)
  }

  /** The `m`-th nonce handed out. */
  function NonceOf(first: u64, m: nat): u64 {
    (first + m) % TWO64
  }

  /** The last accepted reply once `m` nonces from `first` on were answered in order. */
  function LastOf(first: u64, m: nat): Option<u64> {
    if m == 0 then None else if first + m - 1 < TWO64 then Some(first + m - 1) else Some(TWO64 - 1)
  }

  lemma AnswerInOrder(w: Window, first: u64, m: nat)
    requires w.authenticated && w.last == LastOf(first, m)
    ensures var x := NonceOf(first, m);
      && Step(w, Reply(x, x)).0 == w.(last := LastOf(first, m + 1))
      && (Step(w, Reply(x, x)).1.Accepted? <==> first + m < TWO64)
  {
    if first + m < TWO64 {
      assert (first + m) % TWO64 == first + m;
    }
  }

  /** Nonces are handed out only by an authenticated window, which stays so. */
  lemma {:induction false} ReservedAuthenticates(w: Window, run: seq<Call>, i: nat)
    requires i <= |run| && Reserved(w, run, i) > 0
    ensures After(w, run[..i]).authenticated
    decreases i
  {
    hide After;
    AfterOne(w, run, i - 1);
    if !AnswerAt(w, run, i - 1).Nonce? {
      ReservedAuthenticates(w, run, i - 1);
    }
  }

  lemma RepliesNext(run: seq<Call>, i: nat)
    requires i < |run|
    ensures Replies(run, 0) == 0
    ensures Replies(run, i + 1) == Replies(run, i) + if run[i].Reply? then 1 else 0
  {
  }

  lemma {:induction false} LastInOrder(w: Window, run: seq<Call>, i: nat)
    requires w.last.None? && AnswersInOrder(w, run) && i <= |run|
    ensures After(w, run[..i]).last == LastOf(w.next, Replies(run, i))
    decreases i
  {
    if i == 0 {
      assert run[..0] == [];
    } else {
      hide After, Reserved, LastOf, Step, NonceOf, Replies;
      var at, c := After(w, run[..i - 1]), run[i - 1];
      LastInOrder(w, run, i - 1);
      AfterOne(w, run, i - 1);
      RepliesNext(run, i - 1);
      if c.Reply? {
        assert InOrderAt(w, run, i - 1);
        ReservedAuthenticates(w, run, i - 1);
        AnswerInOrder(at, w.next, Replies(run, i - 1));
        assert c == Reply(NonceOf(w.next, Replies(run, i - 1)), NonceOf(w.next, Replies(run, i - 1)));
      } else {
        NextStep(at, c);
      }
    }
  }

  /** Answering in order is accepted exactly until the nonce wraps; from then on every reply is
      refused, since the last accepted one is the greatest there is. */
  lemma InOrderAcceptedExactly(w: Window, run: seq<Call>, i: nat)
    requires w.last.None? && AnswersInOrder(w, run) && i < |run| && run[i].Reply?
    ensures AnswerAt(w, run, i).Accepted? <==> w.next + Replies(run, i) < TWO64
  {
    hide After, Reserved, Replies, Step, LastOf, NonceOf;
    LastInOrder(w, run, i);
    assert InOrderAt(w, run, i);
    ReservedAuthenticates(w, run, i);
    AnswerInOrder(After(w, run[..i]), w.next, Replies(run, i));
  }

  // ---------- The object ----------

  class CorrelationWindow {
    var authenticated: bool
    var next: u64
    var last: Option<u64>

    function View(): Window
      reads this
    {
      Window(authenticated, next, last)
    }

    constructor (authenticated: bool, initial: u64)
      ensures View() == Window(authenticated, initial, None)
    {
      this.authenticated, next, last := authenticated, initial, None;
    }

    method MarkAuthenticated()
      modifies this
      ensures View() == Step(old(View()), Mark).0
    {
      authenticated := true;
    }

    method ReserveOutboundNonce() returns (r: Result<u64, Reject>)
      modifies this
      ensures View() == Step(old(View()), Reserve).0
      ensures Step(old(View()), Reserve).1 == if r.Ok? then Nonce(r.value) else Rejected(r.error)
    {
      if !authenticated {
        return Err(UnauthenticatedMessagePath);
      }
      r := Ok(next);
      next := (next + 1) % TWO64;
    }

    method ValidateInboundReply(expected: u64, observed: u64) returns (r: Option<Reject>)
      modifies this
      ensures View() == Step(old(View()), Reply(expected, observed)).0
      ensures Step(old(View()), Reply(expected, observed)).1 == if r.None? then Accepted else Rejected(r.value)
    {
      if !authenticated {
        return Some(UnauthenticatedMessagePath);
      }
      if observed != expected {
        return Some(NonceMismatchOrStaleReply);
      }
      if last.Some? && observed <= last.value {
        return Some(NonceMismatchOrStaleReply);
      }
      last := Some(observed);
      r := None;
    }
  }
}
