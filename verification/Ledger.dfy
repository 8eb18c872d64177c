/** Service announcements and the last-write-per-device view of a stream of them. */
module Ledger {
  import opened Announce
  import opened Results
  import opened Utf8
  import opened Words

  datatype Announcement = Announcement(device: Text, services: seq<Text>, port: u16, noise: Key)

  type Directory = map<Text, Announcement>

  /** What a reader of the whole stream knows: per device, the last announcement. */
  function Latest(s: seq<Announcement>): Directory {
    if s == [] then map[] else Latest(s[..|s| - 1])[s[|s| - 1].device := s[|s| - 1]]
  }

  predicate Keyed(d: Directory) {
    forall k :: k in d ==> d[k].device == k
  }

  lemma LatestAppend(s: seq<Announcement>, a: Announcement)
    ensures Latest(s + [a]) == Latest(s)[a.device := a]
  {
    assert (s + [a])[..|s|] == s;
  }

  lemma {:induction false} LatestKeyed(s: seq<Announcement>)
    ensures Keyed(Latest(s))
    decreases |s|
  {
    if s != [] {
      LatestKeyed(s[..|s| - 1]);
    }
  }

  /** `r` is the last announcement of the stream from `device`, if there is any. */
  ghost predicate IsLastFrom(s: seq<Announcement>, device: Text, r: Option<Announcement>) {
    match r
    case None => forall i :: 0 <= i < |s| ==> s[i].device != device
    case Some(a) =>
      a.device == device && exists i :: 0 <= i < |s| && s[i] == a && forall j :: i < j < |s| ==> s[j].device != device
  }

  function Lookup(d: Directory, device: Text): Option<Announcement> {
    if device in d then Some(d[device]) else None
  }

  lemma LastStays(s: seq<Announcement>, device: Text, r: Option<Announcement>, a: Announcement)
    requires IsLastFrom(s, device, r) && a.device != device
    ensures IsLastFrom(s + [a], device, r)
  {
    hide Valid;
    if r.Some? {
      var i :| 0 <= i < |s| && s[i] == r.value && forall j :: i < j < |s| ==> s[j].device != device;
      assert (s + [a])[i] == r.value;
    }
  }

  lemma NewIsLast(s: seq<Announcement>, a: Announcement)
    ensures IsLastFrom(s + [a], a.device, Some(a))
  {
    hide Valid;
    assert (s + [a])[|s|] == a;
  }

  /** The view holds, for each device, the last announcement from it. */
  lemma {:induction false} LatestIsLast(s: seq<Announcement>, device: Text)
    ensures IsLastFrom(s, device, Lookup(Latest(s), device))
    decreases |s|
  {
    if s != [] {
      hide Valid, IsLastFrom;
      var front, a := s[..|s| - 1], s[|s| - 1];
      assert s == front + [a];
      LatestIsLast(front, device);
      if a.device == device {
        NewIsLast(front, a);
      } else {
        LastStays(front, device, Lookup(Latest(front), device), a);
      }
    }
  }

  /** A stream that lists a directory once: each device in it, and nothing else. */
  predicate Lists(s: seq<Announcement>, d: Directory) {
    Latest(s) == d && |s| == |d|
  }

  // ---------- Listing a directory ----------

  lemma EmptyList(d: Directory)
    ensures Latest([]) == d - d.Keys
  {
  }

  lemma Listed(d: Directory, keys: set<Text>, k: Text, seed: seq<Announcement>)
    requires Keyed(d) && k in keys && keys <= d.Keys && Latest(seed) == d - keys
    ensures Latest(seed + [d[k]]) == d - (keys - {k}) && |keys - {k}| == |keys| - 1
  {
    hide Latest;
    LatestAppend(seed, d[k]);
    assert (d - keys)[k := d[k]] == d - (keys - {k});
  }

  lemma NothingLeft(d: Directory)
    ensures d - {} == d && |d.Keys| == |d|
  {
  }

  /** Byte-wise order of device names. */
  predicate Before(a: seq<byte>, b: seq<byte>) {
    b != [] && (a == [] || a[0] < b[0] || (a[0] == b[0] && Before(a[1..], b[1..])))
  }

  /** The two agree before place `k`, where `a` has the smaller byte. */
  ghost predicate LessAt(a: seq<byte>, b: seq<byte>, k: nat) {
    k < |a| && k < |b| && a[..k] == b[..k] && a[k] < b[k]
  }

  lemma LessNext(a: seq<byte>, b: seq<byte>, k: nat)
    requires a != [] && b != [] && a[0] == b[0]
    ensures !LessAt(a, b, 0) && (LessAt(a, b, k + 1) <==> LessAt(a[1..], b[1..], k))
  {
    if k < |a| - 1 && k < |b| - 1 {
      assert a[..k + 1] == [a[0]] + a[1..][..k] && b[..k + 1] == [b[0]] + b[1..][..k];
      assert a[..k + 1][1..] == a[1..][..k] && b[..k + 1][1..] == b[1..][..k];
    }
  }

  /** The order of dictionaries: a proper prefix comes first, and otherwise the first byte that
      differs decides. */
  lemma {:induction false} BeforeExactly(a: seq<byte>, b: seq<byte>)
    ensures Before(a, b) <==> a < b || exists k: nat :: LessAt(a, b, k)
    decreases |a|
  {
    if a != [] && b != [] && a[0] == b[0] {
      hide LessAt;
      BeforeExactly(a[1..], b[1..]);
      assert a == [a[0]] + a[1..] && b == [b[0]] + b[1..];
      if k: nat :| LessAt(a, b, k) {
        LessNext(a, b, 0);
        LessNext(a, b, if k > 0 then k - 1 else 0);
      }
      if k: nat :| LessAt(a[1..], b[1..], k) {
        LessNext(a, b, k);
      }
    } else if a != [] && b != [] && a[0] < b[0] {
      assert LessAt(a, b, 0);
    }
  }

  lemma {:induction false} BeforeTotal(a: seq<byte>, b: seq<byte>)
    ensures a == b || Before(a, b) || Before(b, a)
    decreases |a|
  {
    if a != [] && b != [] && a[0] == b[0] {
      BeforeTotal(a[1..], b[1..]);
      assert a == [a[0]] + a[1..] && b == [b[0]] + b[1..];
    }
  }

  lemma {:induction false} BeforeTransitive(a: seq<byte>, b: seq<byte>, c: seq<byte>)
    requires Before(a, b) && Before(b, c)
    ensures Before(a, c)
    decreases |a|
  {
    if a != [] && a[0] == b[0] && b[0] == c[0] {
      BeforeTransitive(a[1..], b[1..], c[1..]);
    }
  }

  predicate Ascending(s: seq<Announcement>) {
    forall i, j :: 0 <= i < j < |s| ==> Before(s[i].device, s[j].device)
  }

  method FirstKey(keys: set<Text>) returns (first: Text)
    requires keys != {}
    ensures first in keys && forall k :: k in keys && k != first ==> Before(first, k)
  {
    hide Before, Valid;
    first :| first in keys;
    var left := keys - {first};
    while left != {}
      invariant left <= keys && first in keys && first !in left
      invariant forall k :: k in keys && k !in left && k != first ==> Before(first, k)
      decreases |left|
    {
      var k :| k in left;
      left := left - {k};
      BeforeTotal(k, first);
      if Before(k, first) {
        forall n | n in keys && n !in left && n != k && n != first
          ensures Before(k, n)
        {
          BeforeTransitive(k, first, n);
        }
        first := k;
      }
    }
  }

  /** The values of a directory in ascending order of their devices. */
  method SortedValues(d: Directory) returns (seed: seq<Announcement>)
    requires Keyed(d)
    ensures Lists(seed, d) && Ascending(seed)
  {
    hide Latest, Before;
    seed := [];
    var keys := d.Keys;
    EmptyList(d);
    while keys != {}
      invariant keys <= d.Keys
      invariant Latest(seed) == d - keys && |seed| + |keys| == |d.Keys|
      invariant Ascending(seed) && forall i, k :: 0 <= i < |seed| && k in keys ==> Before(seed[i].device, k)
      decreases |keys|
    {
      var k := FirstKey(keys);
      Listed(d, keys, k, seed);
      seed := seed + [d[k]];
      keys := keys - {k};
    }
    NothingLeft(d);
  }
}
