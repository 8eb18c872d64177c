/** The dependency guard of `arch-check`: a breadth-first search from one package for a banned
    one, with parent links from which the offending path is rebuilt. */
module ArchCheck {
  import opened Results

  datatype Node = Package(id: string)
  type Graph = map<Node, seq<Node>>

  predicate Edge(g: Graph, a: Node, b: Node) {
    a in g && b in g[a]
  }

  predicate IsPath(g: Graph, p: seq<Node>) {
    p != [] && forall i :: 0 <= i < |p| - 1 ==> Edge(g, p[i], p[i + 1])
  }

  /** A chain of dependencies from `start` to a banned package other than itself. */
  predicate Offends(g: Graph, start: Node, banned: set<Node>, p: seq<Node>) {
    IsPath(g, p) && p[0] == start && p[|p| - 1] != start && p[|p| - 1] in banned
  }

  ghost predicate Sound(g: Graph, start: Node, banned: set<Node>) {
    forall p :: !Offends(g, start, banned, p)
  }

  /** The head is written twice; from the second node on it is an offending path, none shorter. */
  ghost predicate IsShortest(g: Graph, start: Node, banned: set<Node>, path: seq<Node>) {
    && |path| >= 3 && path[0] == start
    && Offends(g, start, banned, path[1..])
    && forall p :: Offends(g, start, banned, p) ==> |path| - 1 <= |p|
  }

  type Depths = map<Node, nat>

  /** Parent links form a tree rooted at `start`: each is an edge and goes one level up. */
  ghost predicate Tree(g: Graph, start: Node, parents: map<Node, Node>, depth: Depths) {
    && start in depth && depth[start] == 0
    && parents.Keys == depth.Keys - {start}
    && forall n :: n in parents ==> Linked(g, parents, depth, n)
  }

  ghost predicate Linked(g: Graph, parents: map<Node, Node>, depth: Depths, n: Node)
    requires n in parents
  {
    n in depth && parents[n] in depth && Edge(g, parents[n], n) && depth[n] == depth[parents[n]] + 1
  }

  function Reversed(s: seq<Node>): (r: seq<Node>)
    ensures |r| == |s| && forall i :: 0 <= i < |s| ==> r[i] == s[|s| - 1 - i]
  {
    seq(|s|, i requires 0 <= i < |s| => s[|s| - 1 - i])
  }

  /** Climbing the parent links ends at `start`; the result is the tree path with its first node
      written twice, as the loop and the final push both add it. */
  method BuildPath(start: Node, end: Node, parents: map<Node, Node>, ghost g: Graph, ghost depth: Depths)
    returns (path: seq<Node>)
    requires Tree(g, start, parents, depth) && end in parents
    ensures |path| == depth[end] + 2 && path[0] == path[1] == start && path[|path| - 1] == end
    ensures IsPath(g, path[1..])
  {
    path := [end];
    var current := end;
    while current in parents
      invariant path != [] && path[0] == end && current in depth && end in depth
      invariant forall i :: 0 <= i < |path| - 1 ==> Edge(g, path[i + 1], path[i])
      invariant depth[current] + |path| - 1 == depth[end]
      invariant path[|path| - 1] == current
      decreases depth[current]
    {
      assert Linked(g, parents, depth, current);
      var parent := parents[current];
      path := path + [parent];
      if parent == start {
        current := parent;
        break;
      }
      current := parent;
    }
    assert current == start;
    path := Reversed(path + [start]);
  }

  // ---------- The search ----------

  /** The queue holds the seen but unexpanded nodes, by depth, spanning at most two levels. */
  ghost predicate Frontier(depth: Depths, done: set<Node>, queue: seq<Node>, level: nat) {
    && (forall n :: n in depth <==> n in done || n in queue)
    && (forall n :: n in queue ==> n !in done && level <= depth[n] <= level + 1)
    && Ordered(depth, queue)
    && forall n :: n in done ==> depth[n] <= level
  }

  ghost predicate Ordered(depth: Depths, queue: seq<Node>)
    requires forall n :: n in queue ==> n in depth
  {
    forall i, j :: 0 <= i < j < |queue| ==> queue[i] != queue[j] && depth[queue[i]] <= depth[queue[j]]
  }

  lemma OrderedHead(depth: Depths, queue: seq<Node>)
    requires (forall n :: n in queue ==> n in depth) && queue != [] && Ordered(depth, queue)
    ensures Ordered(depth, queue[1..])
    ensures forall n :: n in queue[1..] ==> n != queue[0] && depth[queue[0]] <= depth[n]
    ensures forall n :: n in queue <==> n == queue[0] || n in queue[1..]
  {
    assert queue == [queue[0]] + queue[1..];
  }

  ghost predicate Expanded(g: Graph, depth: Depths, done: set<Node>) {
    forall n, m :: n in done && Edge(g, n, m) ==> n in depth && m in depth && depth[m] <= depth[n] + 1
  }

  /** A path that does not end among the expanded nodes leaves them at a node no deeper than its
      position on the path. */
  lemma LeavesDone(g: Graph, start: Node, depth: Depths, done: set<Node>, p: seq<Node>) returns (i: nat)
    requires Expanded(g, depth, done) && start in depth && depth[start] == 0
    requires IsPath(g, p) && p[0] == start && p[|p| - 1] !in done
    ensures i < |p| && p[i] in depth && p[i] !in done && depth[p[i]] <= i
  {
    i := 0;
    while p[i] in done
      invariant i < |p| && p[i] in depth && depth[p[i]] <= i
      decreases |p| - i
    {
      assert Edge(g, p[i], p[i + 1]);
      i := i + 1;
    }
  }

  lemma Popped(depth: Depths, done: set<Node>, queue: seq<Node>, level: nat)
    requires Frontier(depth, done, queue, level) && queue != []
    ensures queue[0] in depth && queue[0] !in done
    ensures Frontier(depth, done + {queue[0]}, queue[1..], depth[queue[0]])
  {
    OrderedHead(depth, queue);
    hide Ordered;
  }

  lemma Found(g: Graph, start: Node, parents: map<Node, Node>, depth: Depths, done: set<Node>, queue: seq<Node>,
              level: nat, current: Node, dep: Node, before: set<Node>)
    requires Tree(g, start, parents, depth) && Frontier(depth, done, queue, level) && Expanded(g, depth, before)
    requires current in done && depth[current] == level && Edge(g, current, dep) && dep !in depth
    ensures Tree(g, start, parents[dep := current], depth[dep := level + 1])
    ensures Frontier(depth[dep := level + 1], done, queue + [dep], level)
    ensures Expanded(g, depth[dep := level + 1], before)
  {
    var q, d, links := queue + [dep], depth[dep := level + 1], parents[dep := current];
    assert forall i :: 0 <= i < |q| ==> q[i] == (if i < |queue| then queue[i] else dep);
    forall n | n in links
      ensures Linked(g, links, d, n)
    {
      if n != dep {
        assert Linked(g, parents, depth, n);
      }
    }
  }

  function Universe(g: Graph, start: Node): set<Node> {
    {start} + (set a, i | a in g && 0 <= i < |g[a]| :: g[a][i])
  }

  lemma Seen(g: Graph, start: Node, parents: map<Node, Node>, depth: Depths, n: Node)
    requires Tree(g, start, parents, depth) && n in depth
    ensures n in Universe(g, start)
  {
    if n != start {
      assert Linked(g, parents, depth, n);
      var a := parents[n];
      var i :| 0 <= i < |g[a]| && g[a][i] == n;
    }
  }

  lemma Shrinks(a: set<Node>, done: set<Node>, n: Node)
    requires n in a && n !in done
    ensures |a - (done + {n})| < |a - done|
  {
    assert a - done == (a - (done + {n})) + {n};
  }

  ghost predicate Clean(start: Node, banned: set<Node>, done: set<Node>) {
    forall n :: n in done && n != start ==> n !in banned
  }

  lemma NoShorter(g: Graph, start: Node, banned: set<Node>, parents: map<Node, Node>, depth: Depths, done: set<Node>,
                  queue: seq<Node>, level: nat, p: seq<Node>)
    requires Tree(g, start, parents, depth) && Frontier(depth, done, queue, level) && Expanded(g, depth, done)
    requires Clean(start, banned, done) && Offends(g, start, banned, p)
    ensures queue != [] && queue[0] in depth && depth[queue[0]] < |p|
  {
    var i := LeavesDone(g, start, depth, done, p);
    assert p[i] in queue;
    var j :| 0 <= j < |queue| && queue[j] == p[i];
    assert depth[queue[0]] <= depth[queue[j]];
  }

  ghost predicate Reached(depth: Depths, level: nat, deps: seq<Node>) {
    forall j :: 0 <= j < |deps| ==> deps[j] in depth && depth[deps[j]] <= level + 1
  }

  lemma SeenIsClose(depth: Depths, done: set<Node>, queue: seq<Node>, level: nat, n: Node)
    requires Frontier(depth, done, queue, level) && n in depth
    ensures depth[n] <= level + 1
  {
    if n !in done {
      assert n in queue;
    }
  }

  lemma DoneGrows(g: Graph, depth: Depths, done: set<Node>, current: Node)
    requires Expanded(g, depth, done) && current in depth
    requires current in g ==> Reached(depth, depth[current], g[current])
    ensures Expanded(g, depth, done + {current})
  {
  }

  /** The inner loop: every dependency of `current` ends up seen, at most one level further. */
  method Expand(g: Graph, start: Node, current: Node, visited0: set<Node>, queue0: seq<Node>, parents0: map<Node, Node>,
                ghost depth0: Depths, ghost before: set<Node>)
    returns (visited: set<Node>, queue: seq<Node>, parents: map<Node, Node>, ghost depth: Depths)
    requires depth0.Keys == visited0 && current in depth0 && Tree(g, start, parents0, depth0)
    requires Frontier(depth0, before + {current}, queue0, depth0[current]) && Expanded(g, depth0, before)
    ensures depth.Keys == visited && current in depth && depth[current] == depth0[current]
    ensures Tree(g, start, parents, depth)
    ensures Frontier(depth, before + {current}, queue, depth[current]) && Expanded(g, depth, before + {current})
  {
    hide Tree, Frontier, Expanded;
    visited, queue, parents, depth := visited0, queue0, parents0, depth0;
    ghost var level := depth0[current];
    if current in g {
      var deps := g[current];
      for i := 0 to |deps|
        invariant depth.Keys == visited && current in depth && depth[current] == level
        invariant Tree(g, start, parents, depth) && Expanded(g, depth, before)
        invariant Frontier(depth, before + {current}, queue, level)
        invariant Reached(depth, level, deps[..i])
      {
        var dep := deps[i];
        if dep !in visited {
          assert Edge(g, current, dep);
          Found(g, start, parents, depth, before + {current}, queue, level, current, dep, before);
          visited := visited + {dep};
          parents := parents[dep := current];
          queue := queue + [dep];
          depth := depth[dep := level + 1];
        } else {
          SeenIsClose(depth, before + {current}, queue, level, dep);
        }
      }
      assert deps[..|deps|] == deps;
    }
    DoneGrows(g, depth, before, current);
  }

  /** The search is sound, complete and finds a shortest chain: it answers exactly when an
      offending path exists, and its answer, without the repeated head, is one no longer than any. */
  method FindViolation(start: Node, g: Graph, banned: set<Node>) returns (r: Option<seq<Node>>)
    ensures r.None? <==> Sound(g, start, banned)
    ensures r.Some? ==> IsShortest(g, start, banned, r.value)
  {
    var visited, queue := {start}, [start];
    var parents: map<Node, Node> := map[];
    ghost var depth: Depths := map[start := 0];
    ghost var done: set<Node>, level := {}, 0;
    Begins(g, start, banned);
    hide Tree, Frontier, Expanded, Universe, Offends, IsPath, Clean, Sound, IsShortest;
    while queue != []
      invariant depth.Keys == visited
      invariant Tree(g, start, parents, depth) && Frontier(depth, done, queue, level) && Expanded(g, depth, done)
      invariant Clean(start, banned, done)
      decreases |Universe(g, start) - done|
    {
      Popped(depth, done, queue, level);
      var current := queue[0];
      if current != start && current in banned {
        InTree(g, start, parents, depth, current);
        var path := BuildPath(start, current, parents, g, depth);
        r := Some(path);
        Shortest(g, start, banned, parents, depth, done, queue, level, path);
        return;
      }
      Seen(g, start, parents, depth, current);
      Shrinks(Universe(g, start), done, current);
      queue := queue[1..];
      visited, queue, parents, depth := Expand(g, start, current, visited, queue, parents, depth, done);
      level := depth[current];
      CleanGrows(start, banned, done, current);
      done := done + {current};
    }
    NothingLeft(g, start, banned, parents, depth, done, level);
    r := None;
  }

  lemma Shortest(g: Graph, start: Node, banned: set<Node>, parents: map<Node, Node>, depth: Depths, done: set<Node>,
                 queue: seq<Node>, level: nat, path: seq<Node>)
    requires Tree(g, start, parents, depth) && Frontier(depth, done, queue, level) && Expanded(g, depth, done)
    requires Clean(start, banned, done) && queue != [] && queue[0] in depth && queue[0] != start && queue[0] in banned
    requires |path| == depth[queue[0]] + 2 && path[0] == path[1] == start && path[|path| - 1] == queue[0]
    requires IsPath(g, path[1..])
    ensures IsShortest(g, start, banned, path) && !Sound(g, start, banned)
  {
    InTree(g, start, parents, depth, queue[0]);
    hide Tree, Frontier, Expanded, Clean, Offends;
    forall p | Offends(g, start, banned, p)
      ensures |path| - 1 <= |p|
    {
      NoShorter(g, start, banned, parents, depth, done, queue, level, p);
    }
    assert Offends(g, start, banned, path[1..]) by { OffendsTail(g, start, banned, path); }
  }

  lemma OffendsTail(g: Graph, start: Node, banned: set<Node>, path: seq<Node>)
    requires |path| >= 3 && path[1] == start && path[|path| - 1] != start && path[|path| - 1] in banned
    requires IsPath(g, path[1..])
    ensures Offends(g, start, banned, path[1..])
  {
  }

  lemma NothingLeft(g: Graph, start: Node, banned: set<Node>, parents: map<Node, Node>, depth: Depths, done: set<Node>,
                    level: nat)
    requires Tree(g, start, parents, depth) && Frontier(depth, done, [], level) && Expanded(g, depth, done)
    requires Clean(start, banned, done)
    ensures Sound(g, start, banned)
  {
    hide Tree, Frontier, Expanded, Clean, Offends;
    forall p
      ensures !Offends(g, start, banned, p)
    {
      if Offends(g, start, banned, p) {
        NoShorter(g, start, banned, parents, depth, done, [], level, p);
      }
    }
  }

  lemma CleanGrows(start: Node, banned: set<Node>, done: set<Node>, n: Node)
    requires Clean(start, banned, done) && (n == start || n !in banned)
    ensures Clean(start, banned, done + {n})
  {
  }

  lemma Begins(g: Graph, start: Node, banned: set<Node>)
    ensures Clean(start, banned, {})
    ensures Tree(g, start, map[], map[start := 0]) && Frontier(map[start := 0], {}, [start], 0)
    ensures Expanded(g, map[start := 0], {})
  {
  }

  lemma InTree(g: Graph, start: Node, parents: map<Node, Node>, depth: Depths, n: Node)
    requires Tree(g, start, parents, depth) && n in depth && n != start
    ensures n in parents && depth[n] >= 1
  {
    assert Linked(g, parents, depth, n);
  }
}
