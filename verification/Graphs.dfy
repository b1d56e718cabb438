/** Directed graphs by node name, and what one node reaches through one or more edges. */
module Graphs {
  import opened Sorting

  /** Each node's targets in declaration order. */
  type Graph = map<string, seq<string>>

  ghost predicate ClosedGraph(g: Graph) {
    forall a, b :: a in g && b in g[a] ==> b in g
  }

  predicate Edge(g: Graph, a: string, b: string) {
    a in g && b in g[a]
  }

  ghost predicate IsWalk(g: Graph, p: seq<string>) {
    forall i {:trigger p[i]} :: 0 <= i < |p| - 1 ==> Edge(g, p[i], p[i + 1])
  }

  /** `p` leads from `a` to `b` over at least one edge. */
  ghost predicate LeadsTo(g: Graph, a: string, b: string, p: seq<string>) {
    |p| >= 2 && p[0] == a && p[|p| - 1] == b && IsWalk(g, p)
  }

  ghost predicate Reaches(g: Graph, a: string, b: string) {
    exists p :: LeadsTo(g, a, b, p)
  }

  /** Two nodes lie in one cycle: they are the same node, or each reaches the other. */
  ghost predicate SameCycle(g: Graph, a: string, b: string) {
    a == b || (Reaches(g, a, b) && Reaches(g, b, a))
  }

  lemma EdgeReaches(g: Graph, a: string, b: string)
    requires Edge(g, a, b)
    ensures Reaches(g, a, b)
  {
    assert LeadsTo(g, a, b, [a, b]);
  }

  lemma ReachesTransitively(g: Graph, a: string, b: string, c: string)
    requires Reaches(g, a, b) && Reaches(g, b, c)
    ensures Reaches(g, a, c)
  {
    var p :| LeadsTo(g, a, b, p);
    var q :| LeadsTo(g, b, c, q);
    var r := p + q[1..];
    forall i {:trigger r[i]} | 0 <= i < |r| - 1 ensures Edge(g, r[i], r[i + 1]) {
      if i < |p| - 1 {
        assert r[i] == p[i] && r[i + 1] == p[i + 1];
      } else {
        var j := i - (|p| - 1);
        assert r[i] == q[j] && r[i + 1] == q[j + 1];
      }
    }
    assert LeadsTo(g, a, c, r);
  }

  lemma SameCycleTransitively(g: Graph, a: string, b: string, c: string)
    requires SameCycle(g, a, b) && SameCycle(g, b, c)
    ensures SameCycle(g, a, c)
  {
    if a != b && b != c {
      ReachesTransitively(g, a, b, c);
      ReachesTransitively(g, c, b, a);
    }
  }

  /** A set that holds the targets of `a` and of its own members holds everything `a` reaches. */
  lemma ClosureHoldsReach(g: Graph, a: string, closed: set<string>, b: string)
    requires forall x, y :: (x == a || x in closed) && Edge(g, x, y) ==> y in closed
    requires Reaches(g, a, b)
    ensures b in closed
  {
    var p :| LeadsTo(g, a, b, p);
    WalkStaysInside(g, a, closed, p, |p| - 1);
  }

  lemma {:induction false} WalkStaysInside(g: Graph, a: string, closed: set<string>, p: seq<string>, k: nat)
    requires forall x, y :: (x == a || x in closed) && Edge(g, x, y) ==> y in closed
    requires |p| > 0 && p[0] == a && IsWalk(g, p)
    requires 1 <= k < |p|
    ensures p[k] in closed
  {
    if k > 1 {
      WalkStaysInside(g, a, closed, p, k - 1);
    }
    assert Edge(g, p[k - 1], p[k - 1 + 1]);
  }

  /** The first edge of a walk, and the rest of it. */
  lemma ReachFirstStep(g: Graph, a: string, b: string) returns (next: string)
    requires Reaches(g, a, b)
    ensures Edge(g, a, next) && (next == b || Reaches(g, next, b))
  {
    var p :| LeadsTo(g, a, b, p);
    next := p[1];
    assert Edge(g, p[0], p[0 + 1]);
    if |p| > 2 {
      var q := p[1..];
      forall i {:trigger q[i]} | 0 <= i < |q| - 1 ensures Edge(g, q[i], q[i + 1]) {
        assert Edge(g, p[i + 1], p[i + 1 + 1]);
      }
      assert LeadsTo(g, next, b, q);
    }
  }

  // ----- reachability by a worklist

  function Members(s: seq<string>): set<string> {
    set x | x in s
  }

  function Targets(g: Graph, a: string): seq<string> {
    if a in g then g[a] else []
  }

  /** What the worklist has seen, what it still has to expand, and what it has expanded. */
  ghost predicate Worklist(g: Graph, root: string, seen: set<string>, pending: seq<string>, done: set<string>) {
    && seen <= g.Keys
    && (forall b :: b in seen ==> Reaches(g, root, b))
    && Members(pending) <= seen + {root}
    && seen + {root} <= done + Members(pending)
    && (forall x :: x in done ==> Members(Targets(g, x)) <= seen)
  }

  lemma MembersSplit(s: seq<string>, t: seq<string>)
    ensures Members(s + t) == Members(s) + Members(t)
  {
  }

  /** Marks the targets of one node and queues the new ones. */
  method Expand(g: Graph, root: string, name: string, was: set<string>, rest: seq<string>) returns (seen: set<string>, pending: seq<string>)
    requires ClosedGraph(g) && was <= g.Keys && (name == root || name in was)
    requires forall b :: b in was ==> Reaches(g, root, b)
    ensures seen == was + Members(Targets(g, name)) && seen <= g.Keys
    ensures forall b :: b in seen ==> Reaches(g, root, b)
    ensures Members(pending) == Members(rest) + (seen - was)
    ensures seen == was ==> pending == rest
  {
    seen, pending := was, rest;
    var targets := Targets(g, name);
    for i := 0 to |targets|
      invariant seen == was + Members(targets[..i]) && seen <= g.Keys
      invariant Members(pending) == Members(rest) + (seen - was)
      invariant seen == was ==> pending == rest
      invariant forall b :: b in seen ==> Reaches(g, root, b)
    {
      assert targets[..i + 1] == targets[..i] + [targets[i]];
      MembersSplit(targets[..i], [targets[i]]);
      if targets[i] !in seen {
        EdgeReaches(g, name, targets[i]);
        if name != root {
          ReachesTransitively(g, root, name, targets[i]);
        }
        MembersSplit(pending, [targets[i]]);
        seen := seen + {targets[i]};
        pending := pending + [targets[i]];
      }
    }
    assert targets[..|targets|] == targets;
  }

  lemma WorklistStep(g: Graph, root: string, was: set<string>, rest: seq<string>, name: string, done: set<string>,
      seen: set<string>, pending: seq<string>)
    requires Worklist(g, root, was, rest + [name], done)
    requires seen == was + Members(Targets(g, name)) && seen <= g.Keys
    requires forall b :: b in seen ==> Reaches(g, root, b)
    requires Members(pending) == Members(rest) + (seen - was)
    ensures Worklist(g, root, seen, pending, done + {name})
  {
    MembersSplit(rest, [name]);
    assert Members([name]) == {name};
  }

  /** The worklist of one node: everything it reaches. */
  method ReachOf(g: Graph, root: string) returns (seen: set<string>)
    requires ClosedGraph(g)
    ensures forall b :: b in seen <==> Reaches(g, root, b)
  {
    seen := {};
    var pending := [root];
    ghost var done: set<string> := {};
    assert Worklist(g, root, seen, pending, done);
    hide Worklist, Reaches, Members;
    while pending != []
      invariant Worklist(g, root, seen, pending, done)
      decreases g.Keys - seen, |pending|
    {
      var name := pending[|pending| - 1];
      var rest := pending[..|pending| - 1];
      ghost var was := seen;
      assert pending == rest + [name];
      WorklistHolds(g, root, was, rest, name, done);
      seen, pending := Expand(g, root, name, seen, rest);
      WorklistStep(g, root, was, rest, name, done, seen, pending);
      done := done + {name};
    }
    forall b ensures b in seen <==> Reaches(g, root, b) {
      WorklistEnds(g, root, seen, done, b);
    }
  }

  lemma WorklistHolds(g: Graph, root: string, seen: set<string>, rest: seq<string>, name: string, done: set<string>)
    requires Worklist(g, root, seen, rest + [name], done)
    ensures seen <= g.Keys && (name == root || name in seen) && forall b :: b in seen ==> Reaches(g, root, b)
  {
    hide Reaches;
    assert (rest + [name])[|rest|] == name;
    assert name in Members(rest + [name]);
  }

  lemma WorklistEnds(g: Graph, root: string, seen: set<string>, done: set<string>, b: string)
    requires Worklist(g, root, seen, [], done)
    ensures b in seen <==> Reaches(g, root, b)
  {
    hide Reaches;
    if Reaches(g, root, b) {
      EmptyWorklist(g, root, seen, done, b);
    }
  }

  lemma EmptyWorklist(g: Graph, root: string, seen: set<string>, done: set<string>, b: string)
    requires Worklist(g, root, seen, [], done) && Reaches(g, root, b)
    ensures b in seen
  {
    forall x, y | (x == root || x in seen) && Edge(g, x, y) ensures y in seen {
      assert y in Members(Targets(g, x));
    }
    ClosureHoldsReach(g, root, seen, b);
  }

  /** `reach` answers, for each of its keys, exactly what that node reaches. */
  ghost predicate IsReach(g: Graph, reach: map<string, set<string>>) {
    forall a, b :: a in reach ==> (b in reach[a] <==> Reaches(g, a, b))
  }

  // ----- cycles by name

  ghost predicate MutuallyReach(g: Graph, a: string, b: string) {
    Reaches(g, a, b) && Reaches(g, b, a)
  }

  /** `id` is the first node, by name, of the cycle of `name`. */
  ghost predicate IsFirst(g: Graph, name: string, id: string) {
    && id in g
    && SameCycle(g, name, id)
    && forall b :: b in g && SameCycle(g, name, b) ==> AtMost(id, b)
  }

  /** Each node's cycle, named by its first node by name. */
  ghost predicate NamesCycles(g: Graph, ids: map<string, string>) {
    && ids.Keys == g.Keys
    && forall a {:trigger IsFirst(g, a, ids[a])} :: a in ids ==> IsFirst(g, a, ids[a])
  }

  lemma FirstIsShared(g: Graph, a: string, idA: string, b: string, idB: string)
    requires IsFirst(g, a, idA) && IsFirst(g, b, idB)
    ensures idA == idB <==> SameCycle(g, a, b)
  {
    if idA == idB {
      SameCycleTransitively(g, a, idA, b);
    } else if SameCycle(g, a, b) {
      SameCycleTransitively(g, a, b, idB);
      SameCycleTransitively(g, b, a, idA);
      AtMostAntisymmetric(idA, idB);
    }
  }

  /** Two nodes share an id exactly when they lie in one cycle. */
  lemma CycleIdsAgree(g: Graph, ids: map<string, string>, a: string, b: string)
    requires NamesCycles(g, ids) && a in g && b in g
    ensures ids[a] == ids[b] <==> SameCycle(g, a, b)
  {
    assert IsFirst(g, a, ids[a]) && IsFirst(g, b, ids[b]);
    FirstIsShared(g, a, ids[a], b, ids[b]);
  }

  /** A table and everything it reaches: what shrinks along an edge that leaves a cycle. */
  ghost function Down(g: Graph, a: string): set<string> {
    set b | b in g.Keys && (b == a || Reaches(g, a, b))
  }

  lemma DownShrinks(g: Graph, a: string, b: string)
    requires ClosedGraph(g) && a in g && Edge(g, a, b) && !SameCycle(g, a, b)
    ensures Down(g, b) < Down(g, a)
  {
    EdgeReaches(g, a, b);
    forall c | c in Down(g, b) ensures c in Down(g, a) {
      if c != b {
        ReachesTransitively(g, a, b, c);
      }
    }
    assert a in Down(g, a) && a !in Down(g, b);
  }
}
