/** Directed graphs as successor maps, and the two depth-first searches of the deadlock detector. */
module Graphs {
  import opened Core

  type Graph<T> = map<T, set<T>>

  predicate Edge<T(==)>(g: Graph<T>, a: T, b: T) {
    a in g && b in g[a]
  }

  /** Each element has an edge to the next. */
  ghost predicate Path<T>(g: Graph<T>, p: seq<T>) {
    forall i | 0 <= i < |p| - 1 :: Edge(g, p[i], p[i + 1])
  }

  /** `p` leads from `a` to `b` along at least one edge. */
  ghost predicate Leads<T>(g: Graph<T>, a: T, b: T, p: seq<T>) {
    |p| >= 2 && Path(g, p) && p[0] == a && p[|p| - 1] == b
  }

  ghost predicate Reaches<T(!new)>(g: Graph<T>, a: T, b: T) {
    exists p :: Leads(g, a, b, p)
  }

  ghost predicate Cyclic<T(!new)>(g: Graph<T>) {
    exists v :: Reaches(g, v, v)
  }

  lemma EdgeReaches<T(!new)>(g: Graph<T>, a: T, b: T)
    requires Edge(g, a, b)
    ensures Reaches(g, a, b)
  {
    assert Leads(g, a, b, [a, b]);
  }

  lemma ReachesTransitive<T(!new)>(g: Graph<T>, a: T, b: T, c: T)
    requires Reaches(g, a, b) && Reaches(g, b, c)
    ensures Reaches(g, a, c)
  {
    var p :| Leads(g, a, b, p);
    var q :| Leads(g, b, c, q);
    var r := p + q[1..];
    forall i | 0 <= i < |r| - 1
      ensures Edge(g, r[i], r[i + 1])
    {
      if i < |p| - 1 {
        assert Edge(g, p[i], p[i + 1]);
      } else {
        assert Edge(g, q[i - |p| + 1], q[i - |p| + 2]);
      }
    }
    assert Leads(g, a, c, r);
  }

  lemma RestOfPath<T>(g: Graph<T>, p: seq<T>)
    requires Path(g, p) && p != []
    ensures Path(g, p[1..])
  {
    var q := p[1..];
    forall i | 0 <= i < |q| - 1
      ensures Edge(g, q[i], q[i + 1])
    {
      assert Edge(g, p[i + 1], p[i + 1 + 1]);
    }
  }

  /** Every node of the graph, with or without edges of its own. */
  ghost function Nodes<T(!new)>(g: Graph<T>): set<T> {
    g.Keys + (set a, b | a in g && b in g[a] :: b)
  }

  // ---------------------------------------------------------------- rankings

  /** Every edge goes strictly upward. */
  ghost predicate Ranks<T(!new)>(g: Graph<T>, rank: T -> int) {
    forall a, b | Edge(g, a, b) :: rank(a) < rank(b)
  }

  lemma {:induction false} RankRisesAlongPath<T(!new)>(g: Graph<T>, rank: T -> int, p: seq<T>)
    requires Ranks(g, rank) && Path(g, p) && |p| >= 2
    ensures rank(p[0]) < rank(p[|p| - 1])
  {
    assert Edge(g, p[0], p[1]);
    if |p| > 2 {
      RestOfPath(g, p);
      RankRisesAlongPath(g, rank, p[1..]);
    }
  }

  ghost function Reachable<T(!new)>(g: Graph<T>, v: T): set<T> {
    set u | u in Nodes(g) && Reaches(g, v, u)
  }

  lemma ReachableShrinks<T(!new)>(g: Graph<T>, a: T, b: T)
    requires Edge(g, a, b) && !Reaches(g, b, b)
    ensures |Reachable(g, b)| < |Reachable(g, a)|
  {
    EdgeReaches(g, a, b);
    forall u | u in Reachable(g, b)
      ensures u in Reachable(g, a)
    {
      ReachesTransitive(g, a, b, u);
    }
    assert b in Reachable(g, a) && b !in Reachable(g, b);
    SmallerSubset(Reachable(g, b), Reachable(g, a), b);
  }

  lemma SmallerSubset<T>(s: set<T>, t: set<T>, x: T)
    requires s <= t && x in t && x !in s
    ensures |s| < |t|
  {
    assert t == s + (t - s);
    assert x in t - s;
    assert |t - s| > 0;
  }

  /** A finite graph has no cycle exactly when its nodes can be ranked. */
  lemma AcyclicIffRanked<T(!new)>(g: Graph<T>)
    ensures !Cyclic(g) <==> exists rank: T -> int :: Ranks(g, rank)
  {
    if rank: T -> int :| Ranks(g, rank) {
      if v :| Reaches(g, v, v) {
        var p :| Leads(g, v, v, p);
        RankRisesAlongPath(g, rank, p);
      }
    } else if !Cyclic(g) {
      ghost var rank: T -> int := v => 0 - |Reachable(g, v)|;
      forall a, b | Edge(g, a, b)
        ensures rank(a) < rank(b)
      {
        ReachableShrinks(g, a, b);
      }
      assert Ranks(g, rank);
    }
  }

  // ---------------------------------------------------------------- invariant of the searches

  /** Visited nodes are on the stack, which is a path, or done with. */
  ghost predicate Search<T>(g: Graph<T>, visited: set<T>, stack: seq<T>, done: seq<T>) {
    && visited == Members(stack) + Members(done)
    && Path(g, stack) && Distinct(stack) && Distinct(done)
    && forall v | v in stack :: v !in done
  }

  /** Nodes done with have edges only to nodes done with earlier. */
  ghost predicate Ordered<T>(g: Graph<T>, done: seq<T>) {
    forall i | 0 <= i < |done| && done[i] in g :: g[done[i]] <= Members(done[..i])
  }

  ghost predicate Follows<T>(g: Graph<T>, stack: seq<T>, node: T) {
    stack != [] ==> Edge(g, stack[|stack| - 1], node)
  }

  ghost predicate Closed<T>(g: Graph<T>, all: set<T>) {
    g.Keys <= all && forall a | a in g :: g[a] <= all
  }

  lemma {:induction false} OrderedPathsGoBack<T>(g: Graph<T>, done: seq<T>, p: seq<T>, i: nat)
    requires Ordered(g, done) && Path(g, p) && |p| >= 2
    requires i < |done| && done[i] == p[0]
    ensures p[|p| - 1] in done[..i]
  {
    assert Edge(g, p[0], p[1]);
    assert p[1] in Members(done[..i]);
    var j :| 0 <= j < i && done[j] == p[1];
    if |p| > 2 {
      RestOfPath(g, p);
      OrderedPathsGoBack(g, done, p[1..], j);
    }
  }

  /** A finished search that met no cycle proves that there is none. */
  lemma OrderedIsAcyclic<T(!new)>(g: Graph<T>, done: seq<T>)
    requires Ordered(g, done) && Distinct(done) && g.Keys <= Members(done)
    ensures !Cyclic(g)
  {
    if v :| Reaches(g, v, v) {
      var p :| Leads(g, v, v, p);
      assert Edge(g, p[0], p[1]);
      assert v in Members(done);
      var i :| 0 <= i < |done| && done[i] == v;
      OrderedPathsGoBack(g, done, p, i);
    }
  }

  lemma VisitedBefore<T>(g: Graph<T>, visited: set<T>, stack: seq<T>, done: seq<T>)
    requires Search(g, visited, stack, done)
    ensures visited == Members(stack) + Members(done)
  {
  }

  /** Pushing an unvisited successor keeps the stack a path. */
  lemma Push<T>(g: Graph<T>, visited: set<T>, stack: seq<T>, done: seq<T>, node: T)
    requires Search(g, visited, stack, done) && Follows(g, stack, node) && node !in visited
    ensures Search(g, visited + {node}, stack + [node], done)
    ensures Members(stack + [node]) == Members(stack) + {node}
  {
    var s := stack + [node];
    assert node !in Members(stack) && node !in Members(done);
    forall i | 0 <= i < |s| - 1
      ensures Edge(g, s[i], s[i + 1])
    {
      if i < |stack| - 1 {
        assert Edge(g, stack[i], stack[i + 1]);
      }
    }
  }

  /** Popping a node moves it to the nodes done with. */
  lemma Pop<T>(g: Graph<T>, visited: set<T>, stack: seq<T>, done: seq<T>, node: T)
    requires Search(g, visited, stack + [node], done)
    ensures Search(g, visited, stack, done + [node])
    ensures Members(stack) == Members(stack + [node]) - {node}
  {
    var s := stack + [node];
    assert node == s[|stack|] && node in s;
    assert forall i | 0 <= i < |stack| :: stack[i] == s[i];
    forall i | 0 <= i < |stack| - 1
      ensures Edge(g, stack[i], stack[i + 1])
    {
      assert Edge(g, s[i], s[i + 1]);
    }
    assert Members(s) == Members(stack) + {node};
    assert Members(done + [node]) == Members(done) + {node};
    forall v | v in stack
      ensures v !in done + [node]
    {
      assert v in s;
    }
  }

  lemma PopKeepsOrder<T>(g: Graph<T>, done: seq<T>, node: T)
    requires Ordered(g, done) && (node in g ==> g[node] <= Members(done))
    ensures Ordered(g, done + [node])
  {
    var d := done + [node];
    forall i | 0 <= i < |d| && d[i] in g
      ensures g[d[i]] <= Members(d[..i])
    {
      assert d[..i] == done[..i];
      assert done[..|done|] == done;
    }
  }

  /** A successor of the top of the stack that is on the stack itself closes a cycle. */
  lemma StackClosesCycle<T(!new)>(g: Graph<T>, stack: seq<T>, i: nat, j: nat)
    requires Path(g, stack) && i <= j < |stack| && Edge(g, stack[|stack| - 1], stack[i])
    ensures Reaches(g, stack[j], stack[j])
  {
    var back := stack[j..] + stack[i..j + 1];
    forall k | 0 <= k < |back| - 1
      ensures Edge(g, back[k], back[k + 1])
    {
      if k < |stack| - j - 1 {
        assert Edge(g, stack[j + k], stack[j + k + 1]);
      } else if k > |stack| - j - 1 {
        var m := i + (k - (|stack| - j));
        assert Edge(g, stack[m], stack[m + 1]);
      }
    }
    assert Leads(g, stack[j], stack[j], back);
  }

  lemma StackHasCycle<T(!new)>(g: Graph<T>, visited: set<T>, stack: seq<T>, done: seq<T>, node: T)
    requires Search(g, visited, stack, done) && Follows(g, stack, node) && node in stack
    ensures Cyclic(g)
  {
    var i :| 0 <= i < |stack| && stack[i] == node;
    StackClosesCycle(g, stack, i, i);
  }

  lemma FewerLeft<T>(all: set<T>, visited: set<T>, visited': set<T>, node: T)
    requires visited + {node} <= visited' && node in all && node !in visited
    ensures |all - visited'| < |all - visited|
  {
    SmallerSubset(all - visited', all - visited, node);
  }

  // ---------------------------------------------------------------- is there a cycle?

  /** The recursive search; the order in which successors are taken is left open. */
  method Visit<T(!new, ==)>(g: Graph<T>, node: T, visited: set<T>, onStack: set<T>,
                            ghost all: set<T>, ghost stack: seq<T>, ghost done: seq<T>)
    returns (found: bool, visited': set<T>, onStack': set<T>, ghost done': seq<T>)
    requires Search(g, visited, stack, done) && Ordered(g, done) && onStack == Members(stack)
    requires Follows(g, stack, node) && Closed(g, all) && node in all
    ensures found ==> Cyclic(g)
    ensures !found ==> Search(g, visited', stack, done') && Ordered(g, done') && onStack' == onStack
    ensures !found ==> node in done' && visited <= visited' && Members(done) <= Members(done')
    decreases |all - visited|
  {
    hide Search, Ordered, Cyclic;
    if node in onStack {
      StackHasCycle(g, visited, stack, done, node);
      return true, visited, onStack, done;
    }
    if node in visited {
      VisitedBefore(g, visited, stack, done);
      return false, visited, onStack, done;
    }
    Push(g, visited, stack, done, node);
    visited', onStack', done' := visited + {node}, onStack + {node}, done;
    if node in g {
      var rest := g[node];
      while rest != {}
        invariant rest <= g[node]
        invariant Search(g, visited', stack + [node], done') && Ordered(g, done') && onStack' == onStack + {node}
        invariant visited + {node} <= visited' && Members(done) <= Members(done')
        invariant g[node] - rest <= Members(done')
        decreases rest
      {
        var next :| next in rest;
        rest := rest - {next};
        FewerLeft(all, visited, visited', node);
        found, visited', onStack', done' := Visit(g, next, visited', onStack', all, stack + [node], done');
        if found {
          return;
        }
      }
    }
    Pop(g, visited', stack, done', node);
    PopKeepsOrder(g, done', node);
    onStack' := onStack' - {node};
    done' := done' + [node];
    found := false;
  }

  /** True exactly when the graph has a directed cycle. */
  method HasCycle<T(!new, ==)>(g: Graph<T>) returns (r: bool)
    ensures r <==> Cyclic(g)
  {
    var visited: set<T>, onStack: set<T> := {}, {};
    ghost var done: seq<T> := [];
    var rest := g.Keys;
    while rest != {}
      invariant rest <= g.Keys
      invariant Search(g, visited, [], done) && Ordered(g, done) && onStack == {}
      invariant g.Keys - rest <= Members(done)
      decreases rest
    {
      var node :| node in rest;
      rest := rest - {node};
      r, visited, onStack, done := Visit(g, node, visited, onStack, Nodes(g), [], done);
      if r {
        return;
      }
    }
    OrderedIsAcyclic(g, done);
    return false;
  }

  // ---------------------------------------------------------------- which nodes are on cycles?

  ghost predicate AllOnCycles<T(!new)>(g: Graph<T>, nodes: set<T>) {
    forall v | v in nodes :: Reaches(g, v, v)
  }

  /** The first position of a node on the stack. */
  method Find<T(==)>(stack: seq<T>, node: T) returns (i: nat)
    ensures i <= |stack| && (i < |stack| <==> node in stack)
    ensures i < |stack| ==> stack[i] == node
  {
    i := 0;
    while i < |stack| && stack[i] != node
      invariant i <= |stack| && node !in stack[..i]
    {
      i := i + 1;
    }
  }

  /** Reports the part of the stack that an edge back to it closes. */
  method Report<T(!new, ==)>(ghost g: Graph<T>, stack: seq<T>, pos: nat, cycles: set<T>,
                             ghost visited: set<T>, ghost done: seq<T>)
    returns (cycles': set<T>)
    requires AllOnCycles(g, cycles) && Search(g, visited, stack, done)
    requires pos < |stack| && Edge(g, stack[|stack| - 1], stack[pos])
    ensures AllOnCycles(g, cycles') && cycles' == cycles + Members(stack[pos..])
  {
    cycles' := cycles;
    for j := pos to |stack|
      invariant AllOnCycles(g, cycles') && cycles' == cycles + Members(stack[pos..j])
    {
      StackClosesCycle(g, stack, pos, j);
      assert stack[pos..j + 1] == stack[pos..j] + [stack[j]];
      cycles' := cycles' + {stack[j]};
    }
    assert stack[pos..|stack|] == stack[pos..];
  }

  method Explore<T(!new, ==)>(g: Graph<T>, node: T, visited: set<T>, stack: seq<T>, cycles: set<T>,
                              ghost all: set<T>, ghost done: seq<T>)
    returns (visited': set<T>, cycles': set<T>, ghost done': seq<T>)
    requires Search(g, visited, stack, done) && (cycles == {} ==> Ordered(g, done)) && AllOnCycles(g, cycles)
    requires Follows(g, stack, node) && Closed(g, all) && node in all && node !in visited
    ensures Search(g, visited', stack, done') && (cycles' == {} ==> Ordered(g, done')) && AllOnCycles(g, cycles')
    ensures visited <= visited' && cycles <= cycles' && Members(done) <= Members(done') && node in done'
    decreases |all - visited|
  {
    hide Search, Ordered, AllOnCycles;
    Push(g, visited, stack, done, node);
    visited', cycles', done' := visited + {node}, cycles, done;
    var stack' := stack + [node];
    if node in g {
      var rest := g[node];
      while rest != {}
        invariant rest <= g[node]
        invariant Search(g, visited', stack', done') && (cycles' == {} ==> Ordered(g, done')) && AllOnCycles(g, cycles')
        invariant visited + {node} <= visited' && cycles <= cycles' && Members(done) <= Members(done')
        invariant cycles' == {} ==> g[node] - rest <= Members(done')
        decreases rest
      {
        var next :| next in rest;
        rest := rest - {next};
        FewerLeft(all, visited, visited', node);
        var pos := Find(stack', next);
        VisitedBefore(g, visited', stack', done');
        if pos < |stack'| {
          cycles' := Report(g, stack', pos, cycles', visited', done');
          assert next in stack'[pos..] by { assert stack'[pos..][0] == next; }
        } else if next !in visited' {
          visited', cycles', done' := Explore(g, next, visited', stack', cycles', all, done');
        }
      }
    }
    Pop(g, visited', stack, done', node);
    if cycles' == {} {
      PopKeepsOrder(g, done', node);
    }
    done' := done' + [node];
  }

  /** Every reported node lies on a cycle, and some node is reported exactly when there is one. */
  method CycleNodes<T(!new, ==)>(g: Graph<T>) returns (cycles: set<T>)
    ensures forall v | v in cycles :: Reaches(g, v, v)
    ensures cycles != {} <==> Cyclic(g)
  {
    var visited: set<T> := {};
    cycles := {};
    ghost var done: seq<T> := [];
    var rest := g.Keys;
    while rest != {}
      invariant rest <= g.Keys
      invariant Search(g, visited, [], done) && (cycles == {} ==> Ordered(g, done)) && AllOnCycles(g, cycles)
      invariant g.Keys - rest <= Members(done)
      decreases rest
    {
      var node :| node in rest;
      rest := rest - {node};
      if node !in visited {
        visited, cycles, done := Explore(g, node, visited, [], cycles, Nodes(g), done);
      }
    }
    if cycles == {} {
      OrderedIsAcyclic(g, done);
    } else {
      assert exists v :: v in cycles;
    }
  }
}
