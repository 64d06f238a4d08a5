/** Dependencies before dependents, by an explicit-stack postorder walk. */
module Topological {
  import opened Common
  import opened Ordering
  import opened Dag

  /** Every dependency list in ascending order. */
  function Arranged(g: Graph): (h: Graph)
    ensures h.Keys == g.Keys
    ensures forall a, b :: Edge(g, a, b) <==> Edge(h, a, b)
  {
    var h: Graph := map n | n in g :: Sort(g[n]);
    assert forall a, b :: Edge(g, a, b) <==> Edge(h, a, b) by {
      forall a | a in g { SameElements(g[a], h[a]); }
    }
    h
  }

  /** The recursive postorder the explicit stack computes: what has been seen, and the order so far,
      once each of `todo` has been walked. */
  function Visit(h: Graph, todo: seq<string>, seen: set<string>, order: seq<string>): (r: (set<string>, seq<string>))
    ensures seen <= r.0
    decreases h.Keys - seen, |todo|
  {
    if todo == [] then (seen, order)
    else
      var n := todo[0];
      if n in seen || n !in h then Visit(h, todo[1..], seen, order)
      else
        var (s, o) := Visit(h, h[n], seen + {n}, order);
        Visit(h, todo[1..], s, o + [n])
  }

  /** What is left to do once the children of the top frame, and of every frame below it, are walked. */
  function Unwind(h: Graph, stack: seq<Frame>, seen: set<string>, order: seq<string>): (set<string>, seq<string>)
    decreases |stack|
  {
    if stack == [] then (seen, order)
    else
      var top := stack[|stack| - 1];
      var (s, o) := Visit(h, top.pending, seen, order);
      Unwind(h, stack[..|stack| - 1], s, o + [top.node])
  }

  function Order(g: Graph, keys: seq<string>): seq<string> {
    Visit(Arranged(g), Sort(keys), {}, []).1
  }

  lemma UnwindPush(h: Graph, below: seq<Frame>, frame: Frame, seen: set<string>, order: seq<string>)
    ensures Unwind(h, below + [frame], seen, order) ==
            var (s, o) := Visit(h, frame.pending, seen, order);
            Unwind(h, below, s, o + [frame.node])
  {
  }

  lemma UnwindNothing(h: Graph, seen: set<string>, order: seq<string>)
    ensures Unwind(h, [], seen, order) == (seen, order)
    ensures Visit(h, [], seen, order) == (seen, order)
  {
  }

  lemma VisitStep(h: Graph, todo: seq<string>, seen: set<string>, order: seq<string>)
    requires todo != []
    ensures Visit(h, todo, seen, order) ==
            var n := todo[0];
            if n in seen || n !in h then Visit(h, todo[1..], seen, order)
            else
              var (s, o) := Visit(h, h[n], seen + {n}, order);
              Visit(h, todo[1..], s, o + [n])
  {
  }

  method TopologicalOrder(g: Graph, keys: seq<string>) returns (order: seq<string>)
    requires forall n :: n in keys <==> n in g
    ensures order == Order(g, keys)
  {
    hide Visit, Unwind, Sort;
    ghost var h := Arranged(g);
    var starts := Sort(keys);
    var seen: set<string> := {};
    order := [];
    for k := 0 to |starts|
      invariant Visit(h, starts, {}, []) == Visit(h, starts[k..], seen, order)
    {
      var start := starts[k];
      assert start in keys by { SameElements(starts, keys); }
      assert starts[k..][0] == start && starts[k..][1..] == starts[k + 1..];
      VisitStep(h, starts[k..], seen, order);
      if start in seen { continue; }
      var stack := [Frame(start, Sort(g[start]))];
      ghost var goal := Visit(h, h[start], seen + {start}, order);
      UnwindPush(h, [], stack[0], seen + {start}, order);
      UnwindNothing(h, goal.0, goal.1 + [start]);
      assert [] + [stack[0]] == stack;
      seen := seen + {start};
      while stack != []
        invariant forall i :: 0 <= i < |stack| ==> stack[i].node in g
        invariant Unwind(h, stack, seen, order) == (goal.0, goal.1 + [start])
        decreases g.Keys - seen, Work(stack)
      {
        var top := stack[|stack| - 1];
        var below := stack[..|stack| - 1];
        assert stack == below + [top];
        UnwindPush(h, below, top, seen, order);
        if top.pending == [] {
          UnwindNothing(h, seen, order);
          order := order + [top.node];
          stack := below;
          continue;
        }
        var nxt := top.pending[0];
        VisitStep(h, top.pending, seen, order);
        var rest := Frame(top.node, top.pending[1..]);
        UnwindPush(h, below, rest, seen, order);
        stack := below + [rest];
        assert stack[..|stack| - 1] == below;
        if nxt !in seen && nxt in g {
          var down := Frame(nxt, Sort(g[nxt]));
          UnwindPush(h, stack, down, seen + {nxt}, order);
          var (s, o) := Visit(h, h[nxt], seen + {nxt}, order);
          UnwindPush(h, below, rest, s, o + [nxt]);
          seen := seen + {nxt};
          stack := stack + [down];
        }
      }
      UnwindNothing(h, seen, order);
    }
    assert starts[|starts|..] == [];
    UnwindNothing(h, seen, order);
  }

  // ---------------------------------------------------------------- what the order is

  /** The walk appends each newly seen node once, and sees all of `todo`. */
  lemma {:induction false} VisitOnce(h: Graph, todo: seq<string>, seen: set<string>, order: seq<string>)
    ensures var (s, o) := Visit(h, todo, seen, order);
            && order <= o
            && (forall n :: n in s <==> n in seen || n in o[|order|..])
            && (forall n :: n in o[|order|..] ==> n in h && n !in seen)
            && Distinct(o[|order|..])
            && (forall n :: n in todo && n in h ==> n in s)
    decreases h.Keys - seen, |todo|
  {
    if todo != [] {
      var n := todo[0];
      if n in seen || n !in h {
        VisitOnce(h, todo[1..], seen, order);
      } else {
        var (s, o) := Visit(h, h[n], seen + {n}, order);
        VisitOnce(h, h[n], seen + {n}, order);
        VisitOnce(h, todo[1..], s, o + [n]);
        var (t, p) := Visit(h, todo[1..], s, o + [n]);
        Join(order, o, p, n);
        DistinctJoin(o[|order|..], n, p[|o| + 1..], s);
      }
      assert forall m :: m in todo ==> m == todo[0] || m in todo[1..];
    }
  }

  lemma DistinctJoin(a: seq<string>, n: string, b: seq<string>, s: set<string>)
    requires Distinct(a) && Distinct(b) && n !in a && n in s
    requires (forall m :: m in a ==> m in s) && (forall m :: m in b ==> m !in s)
    ensures Distinct(a + [n] + b)
  {
    var c := a + [n] + b;
    forall i, j | 0 <= i < j < |c| ensures c[i] != c[j] {
      if j < |a| { assert c[i] == a[i] && c[j] == a[j]; }
      else if i < |a| { assert c[i] in a; assert j > |a| ==> c[j] in b; }
      else if i > |a| { assert c[i] == b[i - |a| - 1] && c[j] == b[j - |a| - 1]; }
      else { assert c[j] in b; }
    }
  }

  lemma Join(order: seq<string>, o: seq<string>, p: seq<string>, n: string)
    requires order <= o && o + [n] <= p
    ensures p[|order|..] == o[|order|..] + [n] + p[|o| + 1..]
    ensures order <= p
  {
  }

  /** Every key exactly once, on any graph, cyclic or not. */
  lemma EveryKeyOnce(g: Graph, keys: seq<string>)
    requires forall n :: n in keys <==> n in g
    ensures var order := Order(g, keys);
            Distinct(order) && forall n :: n in order <==> n in g
  {
    hide Visit, Distinct;
    VisitOnce(Arranged(g), Sort(keys), {}, []);
    SameElements(Sort(keys), keys);
    var o := Order(g, keys);
    assert o[0..] == o;
  }

  /** Nodes seen but not yet listed are the ones whose children are being walked. */
  ghost predicate Open(seen: set<string>, order: seq<string>, n: string) {
    n in seen && n !in order
  }

  ghost predicate OpenReach(h: Graph, todo: seq<string>, seen: set<string>, order: seq<string>) {
    forall a, n :: Open(seen, order, a) && n in todo && n in h ==> Reaches(h, a, n)
  }

  /** On an acyclic graph everything the walk lists comes after all its dependencies. */
  lemma {:induction false} VisitOrders(h: Graph, todo: seq<string>, seen: set<string>, order: seq<string>)
    requires !Cyclic(h) && DependenciesFirst(h, order) && OpenReach(h, todo, seen, order)
    ensures var (s, o) := Visit(h, todo, seen, order);
            && DependenciesFirst(h, o)
            && (forall n :: Open(s, o, n) <==> Open(seen, order, n))
    decreases h.Keys - seen, |todo|
  {
    if todo != [] {
      hide Cyclic, Reaches, DependenciesFirst, IsWalk;
      var n := todo[0];
      assert forall m :: m in todo[1..] ==> m in todo;
      if n in seen || n !in h {
        VisitOrders(h, todo[1..], seen, order);
      } else {
        var (s, o) := Visit(h, h[n], seen + {n}, order);
        OpenChildren(h, todo, seen, order);
        VisitOrders(h, h[n], seen + {n}, order);
        VisitOnce(h, h[n], seen + {n}, order);
        ListedAfterDependencies(h, todo, seen, order);
        StillOpen(seen, order, s, o, n);
        VisitOrders(h, todo[1..], s, o + [n]);
      }
    }
  }

  lemma OpenChildren(h: Graph, todo: seq<string>, seen: set<string>, order: seq<string>)
    requires todo != [] && todo[0] in h && todo[0] !in seen && OpenReach(h, todo, seen, order)
    ensures OpenReach(h, h[todo[0]], seen + {todo[0]}, order)
  {
    hide Reaches;
    var n := todo[0];
    forall a, m | Open(seen + {n}, order, a) && m in h[n] && m in h ensures Reaches(h, a, m) {
      EdgeReaches(h, n, m);
      if a != n {
        assert Open(seen, order, a);
        ReachesTransitive(h, a, n, m);
      }
    }
  }

  lemma ListedAfterDependencies(h: Graph, todo: seq<string>, seen: set<string>, order: seq<string>)
    requires !Cyclic(h) && todo != [] && todo[0] in h && todo[0] !in seen && OpenReach(h, todo, seen, order)
    requires var (s, o) := Visit(h, h[todo[0]], seen + {todo[0]}, order);
             && DependenciesFirst(h, o)
             && (forall n :: Open(s, o, n) <==> Open(seen + {todo[0]}, order, n))
    ensures var (s, o) := Visit(h, h[todo[0]], seen + {todo[0]}, order);
            DependenciesFirst(h, o + [todo[0]])
  {
    hide Visit, Reaches;
    var n := todo[0];
    var (s, o) := Visit(h, h[n], seen + {n}, order);
    VisitOnce(h, h[n], seen + {n}, order);
    var more := o + [n];
    forall i, d | 0 <= i < |more| && Edge(h, more[i], d) ensures d in more[..i] {
      assert more[..i] == o[..i];
      if i == |o| {
        assert o[..i] == o && d in s;
        if d !in o {
          assert Open(s, o, d) && Open(seen + {n}, order, d);
          EdgeReaches(h, n, d);
          if d != n {
            assert Open(seen, order, d) && Reaches(h, d, n);
            ReachesTransitive(h, d, n, d);
          }
        }
      }
    }
  }

  lemma StillOpen(seen: set<string>, order: seq<string>, s: set<string>, o: seq<string>, n: string)
    requires forall m :: Open(s, o, m) <==> Open(seen + {n}, order, m)
    requires n !in seen
    requires order <= o
    ensures forall m :: Open(s, o + [n], m) ==> Open(seen, order, m)
    ensures (forall m :: m in order ==> m in seen) || n !in order ==>
              forall m :: Open(s, o + [n], m) <==> Open(seen, order, m)
  {
    forall m | Open(s, o + [n], m) ensures Open(seen, order, m) {
      assert Open(s, o, m);
    }
    forall m | Open(seen, order, m) && m != n ensures Open(s, o + [n], m) {
      assert Open(s, o, m);
    }
  }

  /** On a graph without a cycle among its keys, every key comes after all its key dependencies. */
  lemma DependenciesComeFirst(g: Graph, keys: seq<string>)
    requires (forall n :: n in keys <==> n in g) && !Cyclic(g)
    ensures DependenciesFirst(g, Order(g, keys))
  {
    hide Visit;
    var h := Arranged(g);
    SameEdgesSameCycles(g, h);
    VisitOrders(h, Sort(keys), {}, []);
    assert forall i, d :: 0 <= i < |Order(g, keys)| && Edge(g, Order(g, keys)[i], d) ==> Edge(h, Order(g, keys)[i], d);
  }

  lemma SameEdgesSameCycles(g: Graph, h: Graph)
    requires g.Keys == h.Keys && forall a, b :: Edge(g, a, b) <==> Edge(h, a, b)
    ensures Cyclic(h) ==> Cyclic(g)
  {
    if a :| Reaches(h, a, a) { SameEdgesSameReach(g, h, a, a); }
  }

  lemma SameEdgesSameReach(g: Graph, h: Graph, a: string, b: string)
    requires g.Keys == h.Keys && forall m, n :: Edge(g, m, n) <==> Edge(h, m, n)
    ensures Reaches(h, a, b) ==> Reaches(g, a, b)
  {
    if p :| WalkFrom(h, a, b, p) { assert WalkFrom(g, a, b, p); }
  }

  /** The order depends on the graph alone: not on the order its keys or any dependency list came in. */
  lemma OrderIsCanonical(g: Graph, gKeys: seq<string>, h: Graph, hKeys: seq<string>)
    requires g.Keys == h.Keys && multiset(gKeys) == multiset(hKeys)
    requires forall n :: n in g ==> multiset(g[n]) == multiset(h[n])
    ensures Order(g, gKeys) == Order(h, hKeys)
  {
    hide Visit, Sort, Edge;
    SortCanonical(gKeys, hKeys);
    forall n | n in g ensures Arranged(g)[n] == Arranged(h)[n] { SortCanonical(g[n], h[n]); }
    assert Arranged(g) == Arranged(h);
  }

  // ---------------------------------------------------------------- smaller keys first

  /** On any graph, walking closes everything it opens. */
  lemma VisitCloses(h: Graph, todo: seq<string>, seen: set<string>, order: seq<string>)
    ensures var (s, o) := Visit(h, todo, seen, order);
            order <= o && forall n :: Open(s, o, n) <==> Open(seen, order, n)
  {
    hide Visit;
    VisitOnce(h, todo, seen, order);
    var (s, o) := Visit(h, todo, seen, order);
    assert o == order + o[|order|..];
  }

  /** `a` is listed before every `b`. */
  ghost predicate Ahead(order: seq<string>, a: string, b: string) {
    forall i :: 0 <= i < |order| && order[i] == b ==> a in order[..i]
  }

  /** `b` is only come to once `a` has been. */
  ghost predicate Queued(todo: seq<string>, seen: set<string>, a: string, b: string) {
    forall i :: 0 <= i < |todo| && todo[i] == b ==> a in seen || a in todo[..i]
  }

  lemma QueuedRest(todo: seq<string>, seen: set<string>, s: set<string>, a: string, b: string)
    requires todo != [] && Queued(todo, seen, a, b) && seen <= s && (todo[0] == a ==> a in s)
    ensures Queued(todo[1..], s, a, b)
  {
    var rest := todo[1..];
    forall i | 0 <= i < |rest| && rest[i] == b ensures a in s || a in rest[..i] {
      assert todo[i + 1] == b;
      if a !in s {
        var j :| 0 <= j < i + 1 && todo[j] == a;
        assert rest[j - 1] == a && rest[..i][j - 1] == a;
      }
    }
  }

  /** Among the sorted dependencies of one node the smaller comes first. */
  lemma QueuedChildren(h: Graph, n: string, seen: set<string>, a: string, b: string)
    requires n in h && Ascending(h[n]) && a != b && Leq(a, b) && a in h && b in h
    requires Edge(h, n, b) ==> Edge(h, n, a)
    ensures Queued(h[n], seen, a, b)
  {
    hide Leq;
    SortedQueue(h[n], seen, a, b);
  }

  lemma SortedQueue(todo: seq<string>, seen: set<string>, a: string, b: string)
    requires Ascending(todo) && a != b && Leq(a, b) && (b in todo ==> a in todo)
    ensures Queued(todo, seen, a, b)
  {
    hide Leq;
    forall i | 0 <= i < |todo| && todo[i] == b ensures a in todo[..i] {
      var j :| 0 <= j < |todo| && todo[j] == a;
      if j > i { LeqAntisymmetric(a, b); }
      assert todo[..i][j] == a;
    }
  }

  lemma AheadAppend(order: seq<string>, n: string, a: string, b: string)
    requires Ahead(order, a, b) && (n == b ==> a in order)
    ensures Ahead(order + [n], a, b)
  {
    var more := order + [n];
    forall i | 0 <= i < |more| && more[i] == b ensures a in more[..i] {
      assert more[..i] == order[..i];
      assert order[..|order|] == order;
    }
  }

  lemma OpenAfter(h: Graph, todo: seq<string>, seen: set<string>, order: seq<string>,
                  s: set<string>, o: seq<string>, n: string)
    requires todo != [] && n == todo[0] && OpenReach(h, todo, seen, order)
    requires forall m :: Open(s, o, m) <==> Open(seen + {n}, order, m)
    ensures OpenReach(h, todo[1..], s, o + [n])
  {
    hide Reaches;
    forall m, k | Open(s, o + [n], m) && k in todo[1..] && k in h ensures Reaches(h, m, k) {
      assert Open(s, o, m) && Open(seen, order, m) && k in todo;
    }
  }

  lemma {:induction false} VisitKeepsAhead(h: Graph, todo: seq<string>, seen: set<string>, order: seq<string>,
                                           a: string, b: string)
    requires a in h && b in h && a != b && Leq(a, b) && !Reaches(h, a, b)
    requires forall n :: n in h ==> Ascending(h[n])
    requires forall n :: Edge(h, n, b) ==> Edge(h, n, a)
    requires OpenReach(h, todo, seen, order) && Queued(todo, seen, a, b)
    requires Ahead(order, a, b) && (b in seen ==> a in order)
    ensures var (s, o) := Visit(h, todo, seen, order);
            Ahead(o, a, b) && (b in s ==> a in o)
    decreases h.Keys - seen, |todo|
  {
    hide Reaches, Leq, Ascending, Edge;
    if todo != [] {
      var n := todo[0];
      VisitStep(h, todo, seen, order);
      if n in seen || n !in h {
        QueuedRest(todo, seen, seen, a, b);
        assert OpenReach(h, todo[1..], seen, order);
        VisitKeepsAhead(h, todo[1..], seen, order, a, b);
      } else {
        hide Visit;
        var (s, o) := Visit(h, h[n], seen + {n}, order);
        if n == b { assert a in seen; assert !Open(seen, order, a); }
        OpenChildren(h, todo, seen, order);
        QueuedChildren(h, n, seen, a, b);
        VisitKeepsAhead(h, h[n], seen + {n}, order, a, b);
        VisitCloses(h, h[n], seen + {n}, order);
        VisitOnce(h, h[n], seen + {n}, order);
        AheadAppend(o, n, a, b);
        QueuedRest(todo, seen, s, a, b);
        OpenAfter(h, todo, seen, order, s, o, n);
        VisitKeepsAhead(h, todo[1..], s, o + [n], a, b);
      }
    }
  }

  /** A smaller key is listed before a larger one, on any graph, cyclic or not, unless it leads to it, or
      something depends on the larger one and not on it. */
  lemma SmallerKeyFirst(g: Graph, keys: seq<string>, a: string, b: string)
    requires forall n :: n in keys <==> n in g
    requires a in g && b in g && a != b && Leq(a, b) && !Reaches(g, a, b)
    requires forall n :: Edge(g, n, b) ==> Edge(g, n, a)
    ensures var order := Order(g, keys);
            exists i, j :: 0 <= i < j < |order| && order[i] == a && order[j] == b
  {
    hide Visit, Leq, Reaches, Sort;
    var h := Arranged(g);
    var start := Sort(keys);
    SameElements(start, keys);
    SortAscends(keys);
    forall n | n in h ensures Ascending(h[n]) { SortAscends(g[n]); }
    SameEdgesSameReach(g, h, a, b);
    SortedQueue(start, {}, a, b);
    VisitKeepsAhead(h, start, {}, [], a, b);
    EveryKeyOnce(g, keys);
    var order := Order(g, keys);
    var j :| 0 <= j < |order| && order[j] == b;
    var i :| 0 <= i < j && order[..j][i] == a;
  }

  /** Keys without dependencies come out ascending. */
  lemma IndependentKeysAscend(g: Graph, keys: seq<string>)
    requires (forall n :: n in keys <==> n in g) && forall a, b :: !Edge(g, a, b)
    ensures Ascending(Order(g, keys))
  {
    hide Order, Leq, Edge;
    EveryKeyOnce(g, keys);
    var order := Order(g, keys);
    forall i, j | 0 <= i < j < |order| ensures Leq(order[i], order[j]) {
      LeqTotal(order[i], order[j]);
      if Leq(order[j], order[i]) {
        ReachStartsWithEdge(g, order[j], order[i]);
        SmallerKeyFirst(g, keys, order[j], order[i]);
      }
    }
  }

  lemma ReachStartsWithEdge(g: Graph, a: string, b: string)
    ensures Reaches(g, a, b) ==> exists d :: Edge(g, a, d)
  {
    if p :| WalkFrom(g, a, b, p) { assert Edge(g, p[0], p[0 + 1]); }
  }

  /** Dependencies of one node that have none of their own, and that nothing else depends on, come out
      ascending. */
  lemma LeafDependenciesAscend(g: Graph, keys: seq<string>, n: string, a: string, b: string)
    requires forall k :: k in keys <==> k in g
    requires Edge(g, n, a) && Edge(g, n, b) && a != b && Leq(a, b)
    requires (forall k :: !Edge(g, a, k)) && (forall k :: Edge(g, k, b) ==> k == n)
    ensures var order := Order(g, keys);
            exists i, j :: 0 <= i < j < |order| && order[i] == a && order[j] == b
  {
    hide Order, Leq, Edge;
    assert a in g && b in g by { EdgeKeys(g, n, a); EdgeKeys(g, n, b); }
    ReachStartsWithEdge(g, a, b);
    SmallerKeyFirst(g, keys, a, b);
  }

  lemma EdgeKeys(g: Graph, a: string, b: string)
    requires Edge(g, a, b)
    ensures a in g && b in g
  {
  }
}
