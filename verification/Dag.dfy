/** Refusing a cycle: the depth-first traversal every dependency structure goes through, with its own
    stack and colours. */
module Dag {
  import opened Common

  /** node -> the dependencies it lists; a listed name that is not itself a key is dangling. */
  type Graph = map<string, seq<string>>

  predicate Edge(g: Graph, a: string, b: string) {
    a in g && b in g && b in g[a]
  }

  ghost predicate IsWalk(g: Graph, p: seq<string>) {
    && p != []
    && (forall i :: 0 <= i < |p| ==> p[i] in g)
    && (forall i :: 0 <= i < |p| - 1 ==> Edge(g, p[i], p[i + 1]))
  }

  ghost predicate WalkFrom(g: Graph, a: string, b: string, p: seq<string>) {
    IsWalk(g, p) && |p| >= 2 && p[0] == a && p[|p| - 1] == b
  }

  ghost predicate Reaches(g: Graph, a: string, b: string) {
    exists p :: WalkFrom(g, a, b, p)
  }

  ghost predicate Cyclic(g: Graph) {
    exists a :: Reaches(g, a, a)
  }

  lemma EdgeReaches(g: Graph, a: string, b: string)
    requires Edge(g, a, b)
    ensures Reaches(g, a, b)
  {
    assert WalkFrom(g, a, b, [a, b]);
  }

  lemma ReachesTransitive(g: Graph, a: string, b: string, c: string)
    requires Reaches(g, a, b) && Reaches(g, b, c)
    ensures Reaches(g, a, c)
  {
    var p :| WalkFrom(g, a, b, p);
    var q :| WalkFrom(g, b, c, q);
    assert WalkFrom(g, a, c, p + q[1..]);
  }

  // ---------------------------------------------------------------- refusing a cycle

  datatype Color = White | Grey | Black

  datatype Frame = Frame(node: string, pending: seq<string>)

  function Nodes(stack: seq<Frame>): (p: seq<string>)
    ensures |p| == |stack| && forall i :: 0 <= i < |p| ==> p[i] == stack[i].node
  {
    seq(|stack|, i requires 0 <= i < |stack| => stack[i].node)
  }

  function Work(stack: seq<Frame>): nat {
    if stack == [] then 0 else Work(stack[..|stack| - 1]) + |stack[|stack| - 1].pending| + 1
  }

  /** The stack once the top frame has handed out its last pending dependency. */
  function Popped(stack: seq<Frame>): (r: seq<Frame>)
    requires stack != [] && stack[|stack| - 1].pending != []
    ensures |r| == |stack| && Nodes(r) == Nodes(stack) && Work(r) == Work(stack) - 1
    ensures r[..|r| - 1] == stack[..|stack| - 1]
    ensures var was := stack[|stack| - 1].pending;
            && r[|r| - 1].pending == was[..|was| - 1]
            && forall d :: d in was ==> d in r[|r| - 1].pending || d == was[|was| - 1]
  {
    var top := stack[|stack| - 1];
    var r := stack[..|stack| - 1] + [Frame(top.node, top.pending[..|top.pending| - 1])];
    assert r[..|r| - 1] == stack[..|stack| - 1];
    r
  }

  /** Finishing order: everything a node depends on was finished before it. */
  ghost predicate DependenciesFirst(g: Graph, order: seq<string>) {
    forall i, d :: 0 <= i < |order| && Edge(g, order[i], d) ==> d in order[..i]
  }

  ghost predicate ColorsMatch(g: Graph, color: map<string, Color>, path: seq<string>, finished: seq<string>) {
    && color.Keys == g.Keys
    && (forall n :: n in g ==> (color[n] == Grey <==> n in path))
    && (forall n :: n in g ==> (color[n] == Black <==> n in finished))
    && (forall n :: n in path || n in finished ==> n in g)
  }

  predicate Above(stack: seq<Frame>, i: int, d: string) {
    0 <= i < |stack| - 1 && stack[i + 1].node == d
  }

  /** Each dependency of a node on the stack is still pending, finished, or the node above it. */
  ghost predicate Accounted(g: Graph, stack: seq<Frame>, finished: seq<string>) {
    forall i, d :: 0 <= i < |stack| && Edge(g, stack[i].node, d) ==>
      d in stack[i].pending || d in finished || Above(stack, i, d)
  }

  ghost predicate PendingListed(g: Graph, stack: seq<Frame>) {
    forall i :: 0 <= i < |stack| ==> stack[i].node in g && forall d :: d in stack[i].pending ==> d in g[stack[i].node]
  }

  ghost function Whites(color: map<string, Color>): set<string> {
    set n | n in color && color[n] == White
  }

  lemma Start(g: Graph, color: map<string, Color>, finished: seq<string>, start: string)
    requires ColorsMatch(g, color, [], finished) && start in g && color[start] == White
    ensures ColorsMatch(g, color[start := Grey], [start], finished)
    ensures Accounted(g, [Frame(start, g[start])], finished) && PendingListed(g, [Frame(start, g[start])])
    ensures IsWalk(g, [start]) && Distinct([start])
  {
  }

  lemma PaintBlack(g: Graph, color: map<string, Color>, path: seq<string>, finished: seq<string>)
    requires path != [] && Distinct(path) && Distinct(finished) && ColorsMatch(g, color, path, finished)
    ensures var node := path[|path| - 1];
            && ColorsMatch(g, color[node := Black], path[..|path| - 1], finished + [node])
            && Distinct(path[..|path| - 1]) && Distinct(finished + [node])
            && Whites(color[node := Black]) == Whites(color)
  {
    var node := path[|path| - 1];
    assert node in path && node !in finished;
    assert forall n :: n in path <==> n in path[..|path| - 1] || n == node;
  }

  lemma PaintGrey(g: Graph, color: map<string, Color>, path: seq<string>, finished: seq<string>, nxt: string)
    requires Distinct(path) && ColorsMatch(g, color, path, finished) && nxt in g && color[nxt] == White
    ensures ColorsMatch(g, color[nxt := Grey], path + [nxt], finished) && Distinct(path + [nxt])
    ensures |Whites(color[nxt := Grey])| < |Whites(color)|
  {
    assert Whites(color[nxt := Grey]) == Whites(color) - {nxt} && nxt in Whites(color);
  }

  /** Everything the inner loop keeps. */
  ghost predicate Tracing(g: Graph, color: map<string, Color>, stack: seq<Frame>, path: seq<string>,
                          finished: seq<string>)
  {
    && path == Nodes(stack)
    && ColorsMatch(g, color, path, finished) && Distinct(path) && Distinct(finished)
    && (path != [] ==> IsWalk(g, path))
    && DependenciesFirst(g, finished)
    && Accounted(g, stack, finished) && PendingListed(g, stack)
  }

  lemma TraceFinish(g: Graph, color: map<string, Color>, stack: seq<Frame>, path: seq<string>, finished: seq<string>)
    requires Tracing(g, color, stack, path, finished) && stack != [] && stack[|stack| - 1].pending == []
    ensures var node := stack[|stack| - 1].node;
            && path != []
            && Tracing(g, color[node := Black], stack[..|stack| - 1], path[..|path| - 1], finished + [node])
            && Whites(color[node := Black]) == Whites(color)
            && forall n :: n in path <==> n in path[..|path| - 1] || n == node
  {
    hide Accounted, PendingListed, DependenciesFirst, Distinct, ColorsMatch, Whites, Edge;
    Finish(g, stack, finished);
    PaintBlack(g, color, path, finished);
    PendingBelow(g, stack);
  }

  lemma PendingBelow(g: Graph, stack: seq<Frame>)
    requires stack != [] && PendingListed(g, stack)
    ensures PendingListed(g, stack[..|stack| - 1])
  {
  }

  lemma TraceSkip(g: Graph, color: map<string, Color>, stack: seq<Frame>, path: seq<string>, finished: seq<string>)
    requires Tracing(g, color, stack, path, finished) && stack != [] && stack[|stack| - 1].pending != []
    requires var pending := stack[|stack| - 1].pending;
             var nxt := pending[|pending| - 1];
             (nxt in color && color[nxt] == Black) || nxt !in g
    ensures Tracing(g, color, Popped(stack), path, finished)
  {
    hide Accounted, PendingListed, DependenciesFirst, Distinct, Edge, Popped;
    var pending := stack[|stack| - 1].pending;
    Skip(g, stack, finished, pending[|pending| - 1]);
  }

  lemma TraceDescend(g: Graph, color: map<string, Color>, stack: seq<Frame>, path: seq<string>, finished: seq<string>)
    requires Tracing(g, color, stack, path, finished) && stack != [] && stack[|stack| - 1].pending != []
    requires var pending := stack[|stack| - 1].pending;
             var nxt := pending[|pending| - 1];
             nxt in g && color[nxt] == White
    ensures var pending := stack[|stack| - 1].pending;
            var nxt := pending[|pending| - 1];
            && Tracing(g, color[nxt := Grey], Popped(stack) + [Frame(nxt, g[nxt])], path + [nxt], finished)
            && |Whites(color[nxt := Grey])| < |Whites(color)|
  {
    hide Accounted, PendingListed, DependenciesFirst, Distinct, ColorsMatch, Whites, Edge, Popped;
    var pending := stack[|stack| - 1].pending;
    var nxt := pending[|pending| - 1];
    TopEdge(g, stack);
    Descend(g, stack, finished, nxt);
    PaintGrey(g, color, path, finished, nxt);
  }

  lemma TraceBack(g: Graph, color: map<string, Color>, stack: seq<Frame>, path: seq<string>, finished: seq<string>)
    requires Tracing(g, color, stack, path, finished) && stack != [] && stack[|stack| - 1].pending != []
    requires var pending := stack[|stack| - 1].pending;
             var nxt := pending[|pending| - 1];
             nxt in color && color[nxt] == Grey
    ensures var pending := stack[|stack| - 1].pending;
            var nxt := pending[|pending| - 1];
            IsWalk(g, path + [nxt]) && |path| >= 1 && nxt in path && Cyclic(g)
  {
    hide Accounted, PendingListed, DependenciesFirst, Distinct, Cyclic, Edge;
    var pending := stack[|stack| - 1].pending;
    TopEdge(g, stack);
    BackEdge(g, path, pending[|pending| - 1]);
  }

  /** A walk whose last node already occurs in it. */
  ghost predicate ClosesCycle(g: Graph, p: seq<string>) {
    IsWalk(g, p) && |p| >= 2 && p[|p| - 1] in p[..|p| - 1]
  }

  /** The traversal stops on the first edge back into the path it is on, and reports that path. */
  method AssertAcyclic(g: Graph, keys: seq<string>) returns (cycle: Option<seq<string>>)
    requires forall n :: n in keys <==> n in g
    ensures cycle.Some? <==> Cyclic(g)
    ensures cycle.Some? ==> ClosesCycle(g, cycle.value)
  {
    hide Tracing, DependenciesFirst, Distinct, Cyclic, Whites, IsWalk, Popped, ColorsMatch;
    var color: map<string, Color> := map n | n in g :: White;
    ghost var finished: seq<string> := [];
    NothingFinished(g, color);
    for k := 0 to |keys|
      invariant color.Keys == g.Keys
      invariant Tracing(g, color, [], [], finished)
      invariant forall i :: 0 <= i < k ==> keys[i] in finished
    {
      var start := keys[k];
      BlackIsFinished(g, color, finished, start);
      if color[start] != White { continue; }
      var stack, path := [Frame(start, g[start])], [start];
      TraceStart(g, color, finished, start);
      color := color[start := Grey];
      ghost var before := finished;
      while stack != []
        invariant |path| == |stack| && color.Keys == g.Keys
        invariant Tracing(g, color, stack, path, finished)
        invariant start in path || start in finished
        invariant before <= finished
        decreases |Whites(color)|, Work(stack)
      {
        var top := stack[|stack| - 1];
        if top.pending == [] {
          TraceFinish(g, color, stack, path, finished);
          finished := finished + [top.node];
          color := color[top.node := Black];
          stack := stack[..|stack| - 1];
          path := path[..|path| - 1];
          assert color.Keys == g.Keys by { TraceKeys(g, color, stack, path, finished); }
          continue;
        }
        var nxt := top.pending[|top.pending| - 1];
        if nxt in color && color[nxt] == Grey {
          TraceBack(g, color, stack, path, finished);
          return Some(path + [nxt]);
        }
        if (nxt in color && color[nxt] == Black) || nxt !in g {
          TraceSkip(g, color, stack, path, finished);
          stack := Popped(stack);
          continue;
        }
        TraceDescend(g, color, stack, path, finished);
        color := color[nxt := Grey];
        path := path + [nxt];
        stack := Popped(stack) + [Frame(nxt, g[nxt])];
      }
    }
    assert DependenciesFirst(g, finished) && Distinct(finished) by { TraceOrder(g, color, finished); }
    FinishedIsAcyclic(g, finished);
    return None;
  }

  lemma TraceStart(g: Graph, color: map<string, Color>, finished: seq<string>, start: string)
    requires Tracing(g, color, [], [], finished) && start in g && color[start] == White
    ensures Tracing(g, color[start := Grey], [Frame(start, g[start])], [start], finished)
  {
    hide Accounted, PendingListed, DependenciesFirst, Distinct, ColorsMatch, IsWalk;
    Start(g, color, finished, start);
  }

  lemma TraceKeys(g: Graph, color: map<string, Color>, stack: seq<Frame>, path: seq<string>, finished: seq<string>)
    requires Tracing(g, color, stack, path, finished)
    ensures color.Keys == g.Keys
  {
  }

  lemma TraceOrder(g: Graph, color: map<string, Color>, finished: seq<string>)
    requires Tracing(g, color, [], [], finished)
    ensures DependenciesFirst(g, finished) && Distinct(finished)
  {
  }

  lemma BlackIsFinished(g: Graph, color: map<string, Color>, finished: seq<string>, n: string)
    requires Tracing(g, color, [], [], finished) && n in g
    ensures n in color && (color[n] != White ==> n in finished)
  {
  }

  lemma NothingFinished(g: Graph, color: map<string, Color>)
    requires color == map n | n in g :: White
    ensures Tracing(g, color, [], [], [])
  {
  }

  lemma TopEdge(g: Graph, stack: seq<Frame>)
    requires stack != [] && PendingListed(g, stack) && stack[|stack| - 1].pending != []
    ensures var top := stack[|stack| - 1];
            var nxt := top.pending[|top.pending| - 1];
            nxt in g ==> Edge(g, top.node, nxt)
  {
  }

  /** A node with nothing pending has only finished dependencies. */
  lemma Finish(g: Graph, stack: seq<Frame>, finished: seq<string>)
    requires stack != [] && stack[|stack| - 1].pending == []
    requires Accounted(g, stack, finished) && DependenciesFirst(g, finished)
    ensures DependenciesFirst(g, finished + [stack[|stack| - 1].node])
    ensures Accounted(g, stack[..|stack| - 1], finished + [stack[|stack| - 1].node])
  {
    var node := stack[|stack| - 1].node;
    var more := finished + [node];
    var below := stack[..|stack| - 1];
    forall i, d | 0 <= i < |more| && Edge(g, more[i], d) ensures d in more[..i] {
      assert more[..i] == finished[..i];
      if i < |finished| {
        assert more[i] == finished[i];
      } else {
        assert !Above(stack, |stack| - 1, d);
        assert finished[..i] == finished;
      }
    }
    forall i, d | 0 <= i < |below| && Edge(g, below[i].node, d)
      ensures d in below[i].pending || d in more || Above(below, i, d)
    {
      assert below[i] == stack[i];
    }
  }

  /** Taking one pending dependency off the top and going down into it loses nothing. */
  lemma Descend(g: Graph, stack: seq<Frame>, finished: seq<string>, nxt: string)
    requires stack != [] && stack[|stack| - 1].pending != [] && nxt in g
    requires var pending := stack[|stack| - 1].pending; nxt == pending[|pending| - 1]
    requires Accounted(g, stack, finished) && PendingListed(g, stack)
    ensures var more := Popped(stack) + [Frame(nxt, g[nxt])];
            Accounted(g, more, finished) && PendingListed(g, more)
  {
    var more := Popped(stack) + [Frame(nxt, g[nxt])];
    forall i, d | 0 <= i < |more| && Edge(g, more[i].node, d)
      ensures d in more[i].pending || d in finished || Above(more, i, d)
    {
      if i < |stack| {
        assert more[i].node == stack[i].node;
        assert d in stack[i].pending || d in finished || Above(stack, i, d);
      }
    }
  }

  /** Taking one pending dependency off the top loses nothing if it is finished or dangling. */
  lemma Skip(g: Graph, stack: seq<Frame>, finished: seq<string>, nxt: string)
    requires stack != [] && stack[|stack| - 1].pending != [] && (nxt in finished || nxt !in g)
    requires var pending := stack[|stack| - 1].pending; nxt == pending[|pending| - 1]
    requires Accounted(g, stack, finished) && PendingListed(g, stack)
    ensures Accounted(g, Popped(stack), finished) && PendingListed(g, Popped(stack))
  {
    var more := Popped(stack);
    forall i, d | 0 <= i < |more| && Edge(g, more[i].node, d)
      ensures d in more[i].pending || d in finished || Above(more, i, d)
    {
      assert more[i].node == stack[i].node;
      assert d in stack[i].pending || d in finished || Above(stack, i, d);
    }
  }

  lemma BackEdge(g: Graph, path: seq<string>, nxt: string)
    requires IsWalk(g, path) && nxt in path && Edge(g, path[|path| - 1], nxt)
    ensures IsWalk(g, path + [nxt]) && Cyclic(g)
  {
    var i :| 0 <= i < |path| && path[i] == nxt;
    assert WalkFrom(g, nxt, nxt, path[i..] + [nxt]);
    assert Reaches(g, nxt, nxt);
  }

  lemma {:induction false} WalkDescends(g: Graph, order: seq<string>, p: seq<string>, at: nat)
    requires DependenciesFirst(g, order) && Distinct(order) && IsWalk(g, p)
    requires at < |order| && order[at] == p[0]
    ensures |p| >= 2 ==> p[|p| - 1] in order[..at]
    decreases |p|
  {
    if |p| >= 2 {
      assert Edge(g, p[0], p[1]);
      assert p[1] in order[..at];
      var next :| 0 <= next < at && order[next] == p[1];
      WalkDescends(g, order, p[1..], next);
    }
  }

  lemma FinishedIsAcyclic(g: Graph, order: seq<string>)
    requires DependenciesFirst(g, order) && Distinct(order) && forall n :: n in g ==> n in order
    ensures !Cyclic(g)
  {
    if a :| Reaches(g, a, a) {
      var p :| WalkFrom(g, a, a, p);
      var at :| 0 <= at < |order| && order[at] == a;
      WalkDescends(g, order, p, at);
    }
  }
}
