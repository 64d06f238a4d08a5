/** Which processes of one table snapshot an attempt owns. */
module Ownership {
  import opened Common

  datatype Row = Row(pid: int, ppid: int, pgid: int, command: string)

  type Table = seq<Row>

  datatype Because = AsRecorded | ProcessGroup | DescendsFromRecorded | NamesTheView

  datatype Owned = Owned(row: Row, because: Because)

  datatype Scan = Scan(owned: seq<Owned>, groups: set<int>, uncorroborated: set<int>, tableUnavailable: bool)

  /** What identifies this attempt: the view its processes name, the pids its launcher recorded, and
      the controller doing the looking. */
  datatype Attempt = Attempt(marker: string, recorded: seq<int>, controller: int)

  predicate OccursAt(part: string, whole: string, i: int) {
    0 <= i <= |whole| - |part| && whole[i..i + |part|] == part
  }

  predicate Occurs(part: string, whole: string) {
    exists i :: 0 <= i <= |whole| && OccursAt(part, whole, i)
  }

  predicate NamesView(a: Attempt, r: Row) {
    |a.marker| >= 12 && Occurs(a.marker, r.command)
  }

  /** Naming the view is having its path, of a length no accident gives, anywhere in the command. */
  lemma NamesViewIff(a: Attempt, r: Row)
    ensures NamesView(a, r) <==> |a.marker| >= 12 && exists before, after :: r.command == before + a.marker + after
  {
    if i :| 0 <= i <= |r.command| && OccursAt(a.marker, r.command, i) {
      assert r.command == r.command[..i] + a.marker + r.command[i + |a.marker|..];
    }
    if before, after :| r.command == before + a.marker + after {
      assert OccursAt(a.marker, r.command, |before|);
    }
  }

  /** The last row a table lists for each pid. */
  function ByPid(t: Table): (m: map<int, Row>)
    ensures forall p :: p in m <==> exists i :: 0 <= i < |t| && t[i].pid == p
    ensures forall p :: p in m ==> m[p] in t && m[p].pid == p
  {
    if t == [] then map[]
    else
      var last := t[|t| - 1];
      ByPid(t[..|t| - 1])[last.pid := last]
  }

  /** A pid the table lists twice stands for its last row. */
  lemma {:induction false} ByPidIsLast(t: Table, i: nat)
    requires i < |t| && forall j :: i < j < |t| ==> t[j].pid != t[i].pid
    ensures t[i].pid in ByPid(t) && ByPid(t)[t[i].pid] == t[i]
  {
    if i < |t| - 1 { ByPidIsLast(t[..|t| - 1], i); }
  }

  // ---------------------------------------------------------------- the protected chain

  /** The chain is not followed above pid 0 or 1. */
  predicate Top(controller: int, p: int) {
    p in {0, 1} && p != controller
  }

  /** The controller's `k`-th ancestor, as far as the table tells. */
  function Ancestor(m: map<int, Row>, controller: int, k: nat): Option<int> {
    if k == 0 then Some(controller)
    else
      var below := Ancestor(m, controller, k - 1);
      if below.None? || Top(controller, below.value) || below.value !in m then None else Some(m[below.value].ppid)
  }

  ghost predicate Protected(m: map<int, Row>, controller: int, p: int) {
    p in {0, 1} || exists k :: Ancestor(m, controller, k) == Some(p)
  }

  ghost predicate ParentsIn(m: map<int, Row>, controller: int, s: set<int>, except: set<int>) {
    forall p :: p in s && p in m && p !in except && !Top(controller, p) ==> m[p].ppid in s
  }

  /** Walks up from the controller until the chain leaves the table or repeats. */
  method ProtectedPids(m: map<int, Row>, controller: int) returns (s: set<int>)
    ensures forall p :: p in s <==> Protected(m, controller, p)
  {
    s := {0, 1, controller};
    var walker := controller;
    ghost var k := 0;
    assert Ancestor(m, controller, 0) == Some(controller);
    while walker in m
      invariant {0, 1, controller} <= s && walker in s && !Top(controller, walker)
      invariant Ancestor(m, controller, k) == Some(walker)
      invariant forall p :: p in s ==> Protected(m, controller, p)
      invariant ParentsIn(m, controller, s, {walker})
      decreases m.Keys - s, walker in m
    {
      if m[walker].ppid in s { break; }
      walker := m[walker].ppid;
      k := k + 1;
      assert Ancestor(m, controller, k) == Some(walker);
      s := s + {walker};
    }
    ClosedHoldsChain(m, controller, s);
  }

  lemma {:induction false} ClosedChainStep(m: map<int, Row>, controller: int, s: set<int>, k: nat)
    requires controller in s && ParentsIn(m, controller, s, {})
    ensures Ancestor(m, controller, k).Some? ==> Ancestor(m, controller, k).value in s
  {
    if k > 0 { ClosedChainStep(m, controller, s, k - 1); }
  }

  lemma ClosedHoldsChain(m: map<int, Row>, controller: int, s: set<int>)
    requires {0, 1, controller} <= s && ParentsIn(m, controller, s, {})
    ensures forall p :: Protected(m, controller, p) ==> p in s
  {
    forall k ensures Ancestor(m, controller, k).Some? ==> Ancestor(m, controller, k).value in s {
      ClosedChainStep(m, controller, s, k);
    }
  }

  // ---------------------------------------------------------------- roots and what hangs from them

  ghost predicate Shielded(a: Attempt, t: Table, p: int) {
    Protected(ByPid(t), a.controller, p)
  }

  /** A recorded pid is trusted only while its own command line still names the view. */
  ghost predicate Root(a: Attempt, t: Table, p: int) {
    p in a.recorded && !Shielded(a, t, p) && exists r :: r in t && r.pid == p && NamesView(a, r)
  }

  predicate ParentOf(t: Table, parent: int, child: int) {
    exists i :: 0 <= i < |t| && t[i].ppid == parent && t[i].pid == child
  }

  ghost predicate Line(a: Attempt, t: Table, path: seq<int>) {
    && |path| >= 2
    && Root(a, t, path[0])
    && forall i :: 0 <= i < |path| - 1 ==> ParentOf(t, path[i], path[i + 1])
  }

  /** Transitively below a root over this snapshot. */
  ghost predicate Descends(a: Attempt, t: Table, p: int) {
    exists path :: Line(a, t, path) && path[|path| - 1] == p
  }

  /** A group led by a root, and not led by anything protected. */
  ghost predicate LedGroup(a: Attempt, t: Table, g: int) {
    Root(a, t, g) && exists r :: r in t && r.pid == g && r.pgid == g
  }

  ghost predicate IsOwned(a: Attempt, t: Table, r: Row) {
    && r in t
    && !Shielded(a, t, r.pid)
    && (Root(a, t, r.pid) || LedGroup(a, t, r.pgid) || Descends(a, t, r.pid) || NamesView(a, r))
  }

  function Children(t: Table, parent: int): (s: set<int>)
    ensures forall c :: c in s <==> ParentOf(t, parent, c)
  {
    set i | 0 <= i < |t| && t[i].ppid == parent :: t[i].pid
  }

  /** Adds everything below the roots, one popped parent at a time. */
  method DescendantsOf(a: Attempt, t: Table, roots: seq<int>) returns (descendants: set<int>)
    requires forall p :: p in roots <==> Root(a, t, p)
    ensures forall p :: p in descendants <==> Descends(a, t, p)
  {
    hide Root, Descends, ParentOf;
    descendants := {};
    var frontier := roots;
    ghost var expanded: set<int> := {};
    ghost var pids := set i | 0 <= i < |t| :: t[i].pid;
    while frontier != []
      invariant descendants <= pids
      invariant forall p :: p in descendants ==> Descends(a, t, p)
      invariant forall p :: p in frontier ==> Root(a, t, p) || p in descendants
      invariant forall p :: Root(a, t, p) || p in descendants ==> p in frontier || p in expanded
      invariant forall p, c :: p in expanded && ParentOf(t, p, c) ==> c in descendants
      decreases pids - descendants, |frontier|
    {
      var parent := frontier[|frontier| - 1];
      ghost var was := frontier;
      frontier := frontier[..|frontier| - 1];
      assert forall p :: p in was <==> p in frontier || p == parent;
      var unseen := Children(t, parent) - descendants;
      forall c | c in unseen ensures Descends(a, t, c) { ChildDescends(a, t, parent, c); }
      var more := AsSeq(unseen);
      ChildrenAreListed(t, parent, pids);
      assert unseen != {} ==> exists c :: c in unseen && c in pids - descendants;
      descendants := descendants + unseen;
      frontier := frontier + more;
      expanded := expanded + {parent};
    }
    forall p | Descends(a, t, p) ensures p in descendants {
      DescendantStaysIn(a, t, p, descendants, expanded);
    }
  }

  lemma ChildrenAreListed(t: Table, parent: int, pids: set<int>)
    requires pids == set i | 0 <= i < |t| :: t[i].pid
    ensures Children(t, parent) <= pids
  {
  }

  lemma DescendantStaysIn(a: Attempt, t: Table, p: int, descendants: set<int>, expanded: set<int>)
    requires Descends(a, t, p)
    requires forall q :: Root(a, t, q) || q in descendants ==> q in expanded
    requires forall q, c :: q in expanded && ParentOf(t, q, c) ==> c in descendants
    ensures p in descendants
  {
    hide Root, ParentOf;
    var path :| Line(a, t, path) && path[|path| - 1] == p;
    LineStaysIn(a, t, path, descendants, expanded);
  }

  method AsSeq(s: set<int>) returns (q: seq<int>)
    ensures forall x :: x in q <==> x in s
    ensures s == {} ==> q == []
  {
    q := [];
    var left := s;
    while left != {}
      invariant left <= s
      invariant forall x :: x in q <==> x in s - left
      decreases left
    {
      ghost var some := SomeMember(left);
      var x :| x in left;
      q := q + [x];
      left := left - {x};
    }
    assert q != [] ==> q[0] in q;
  }

  lemma ChildDescends(a: Attempt, t: Table, parent: int, child: int)
    requires (Root(a, t, parent) || Descends(a, t, parent)) && ParentOf(t, parent, child)
    ensures Descends(a, t, child)
  {
    if Root(a, t, parent) {
      assert Line(a, t, [parent, child]);
    } else {
      var path :| Line(a, t, path) && path[|path| - 1] == parent;
      assert Line(a, t, path + [child]);
    }
  }

  lemma {:induction false} LineStaysIn(a: Attempt, t: Table, path: seq<int>, descendants: set<int>, expanded: set<int>)
    requires Line(a, t, path)
    requires forall p :: Root(a, t, p) || p in descendants ==> p in expanded
    requires forall p, c :: p in expanded && ParentOf(t, p, c) ==> c in descendants
    ensures path[|path| - 1] in descendants
  {
    var before := path[..|path| - 1];
    assert ParentOf(t, path[|path| - 2], path[|path| - 1]);
    if |before| >= 2 {
      assert Line(a, t, before);
      LineStaysIn(a, t, before, descendants, expanded);
    }
  }

  // ---------------------------------------------------------------- the scan

  /** One look at the process table. No table means nothing is known. */
  method OwnedProcesses(a: Attempt, table: Option<Table>) returns (s: Scan)
    ensures s.tableUnavailable <==> table.None?
    ensures table.None? ==> s.owned == [] && s.groups == {} && forall p :: p in s.uncorroborated <==> p in a.recorded
    ensures table.Some? ==> ScanOf(a, table.value, s)
  {
    hide Protected, NamesView, Line, ByPid, IsOwned, OwnedRows;
    if table.None? {
      return Scan([], {}, set p | p in a.recorded, true);
    }
    var t := table.value;
    var guarded := ProtectedPids(ByPid(t), a.controller);
    var roots := RootsOf(a, t, guarded);
    var starts := AsSeq(roots);
    var descendants := DescendantsOf(a, t, starts);
    var groups := LedBy(t, roots) - guarded;
    assert forall g :: g in groups <==> LedGroup(a, t, g);
    var owned := Classify(a, t, guarded, roots, groups, descendants);
    s := Scan(owned, groups, (set p | p in a.recorded) - roots, false);
  }

  function RootsOf(a: Attempt, t: Table, guarded: set<int>): (roots: set<int>)
    ensures forall p :: p in roots <==>
              p in a.recorded && p !in guarded && exists r :: r in t && r.pid == p && NamesView(a, r)
  {
    set r | r in t && r.pid in a.recorded && r.pid !in guarded && NamesView(a, r) :: r.pid
  }

  function LedBy(t: Table, roots: set<int>): (groups: set<int>)
    ensures forall g :: g in groups <==> g in roots && exists r :: r in t && r.pid == g && r.pgid == g
  {
    set r | r in t && r.pid in roots && r.pgid == r.pid :: r.pgid
  }

  /** The first of the four tests that recognises a row. */
  ghost function Why(a: Attempt, t: Table, r: Row): Because {
    if Root(a, t, r.pid) then AsRecorded
    else if LedGroup(a, t, r.pgid) then ProcessGroup
    else if Descends(a, t, r.pid) then DescendsFromRecorded
    else NamesTheView
  }

  /** The owned rows among `rows`, in the table's order, each listed as often as the table lists it. */
  ghost function OwnedRows(a: Attempt, t: Table, rows: seq<Row>): seq<Owned> {
    if rows == [] then []
    else
      var last := rows[|rows| - 1];
      OwnedRows(a, t, rows[..|rows| - 1]) + if IsOwned(a, t, last) then [Owned(last, Why(a, t, last))] else []
  }

  method Classify(a: Attempt, t: Table, guarded: set<int>, roots: set<int>, groups: set<int>, descendants: set<int>)
    returns (owned: seq<Owned>)
    requires forall p :: p in guarded <==> Shielded(a, t, p)
    requires forall p :: p in roots <==> Root(a, t, p)
    requires forall g :: g in groups <==> LedGroup(a, t, g)
    requires forall p :: p in descendants <==> Descends(a, t, p)
    ensures owned == OwnedRows(a, t, t)
  {
    hide Shielded, NamesView, Root, LedGroup, Descends;
    owned := [];
    for i := 0 to |t|
      invariant owned == OwnedRows(a, t, t[..i])
    {
      var row := t[i];
      assert t[..i + 1][..i] == t[..i];
      if row.pid in guarded { continue; }
      var because;
      if row.pid in roots { because := AsRecorded; }
      else if row.pgid in groups { because := ProcessGroup; }
      else if row.pid in descendants { because := DescendsFromRecorded; }
      else if NamesView(a, row) { because := NamesTheView; }
      else { continue; }
      owned := owned + [Owned(row, because)];
    }
    assert t[..|t|] == t;
  }

  lemma {:induction false} OwnedRowsHold(a: Attempt, t: Table, rows: seq<Row>, r: Row)
    ensures (exists o :: o in OwnedRows(a, t, rows) && o.row == r) <==> r in rows && IsOwned(a, t, r)
  {
    hide IsOwned, Why;
    if rows != [] {
      var init, last := rows[..|rows| - 1], rows[|rows| - 1];
      OwnedRowsHold(a, t, init, r);
      assert rows == init + [last];
      if IsOwned(a, t, last) {
        assert OwnedRows(a, t, rows) == OwnedRows(a, t, init) + [Owned(last, Why(a, t, last))];
        assert Owned(last, Why(a, t, last)) in OwnedRows(a, t, rows);
        assert forall o :: o in OwnedRows(a, t, init) ==> o in OwnedRows(a, t, rows);
      }
    }
  }

  /** The scan lists the owned rows and no others, in table order, each for the first reason that
      recognises it. */
  ghost predicate ScanOf(a: Attempt, t: Table, s: Scan) {
    && s.owned == OwnedRows(a, t, t)
    && (forall g :: g in s.groups <==> LedGroup(a, t, g))
    && (forall p :: p in s.uncorroborated <==> p in a.recorded && !Root(a, t, p))
  }

  // ---------------------------------------------------------------- what ownership means

  /** The controller and its ancestors are never owned, whatever the table and the launcher say. */
  lemma NeverTheController(a: Attempt, t: Table, r: Row, k: nat)
    requires IsOwned(a, t, r)
    ensures r.pid != a.controller && r.pid !in {0, 1} && Ancestor(ByPid(t), a.controller, k) != Some(r.pid)
  {
  }

  /** A recorded pid the table does not corroborate selects nothing: dropping it changes no verdict. */
  lemma UncorroboratedSelectNothing(a: Attempt, b: Attempt, t: Table, r: Row)
    requires b.marker == a.marker && b.controller == a.controller
    requires forall p :: p in b.recorded <==> p in a.recorded && Root(a, t, p)
    ensures IsOwned(a, t, r) <==> IsOwned(b, t, r)
    ensures forall g :: LedGroup(a, t, g) <==> LedGroup(b, t, g)
  {
  }

  /** A worker's command starts with its program and names the view further on: it is a root, and owned,
      unless it is protected. */
  lemma ViewInTheMiddle(before: string, after: string, controller: int)
    requires controller !in {0, 1, 40}
    ensures var a := Attempt("/tmp/pb-view-1", [40], controller);
            var worker := Row(40, 1, 40, before + a.marker + after);
            IsOwned(a, [worker], worker) && Root(a, [worker], 40)
  {
    hide NamesView;
    var a := Attempt("/tmp/pb-view-1", [40], controller);
    var worker := Row(40, 1, 40, before + a.marker + after);
    var t := [worker];
    NamesViewIff(a, worker);
    assert t[0] == worker && worker in t;
    assert Ancestor(ByPid(t), controller, 0) == Some(controller);
    assert ParentsIn(ByPid(t), controller, {0, 1, controller}, {});
    ClosedHoldsChain(ByPid(t), controller, {0, 1, controller});
  }

  /** A protected process may sit in a led group: a recorded worker leads the one its controller is in. */
  lemma ControllerInLedGroup()
    ensures var a := Attempt("/tmp/pb-view-1", [40], 50);
            var worker := Row(40, 1, 40, "/tmp/pb-view-1");
            var controller := Row(50, 1, 40, "python");
            var t := [worker, controller];
            LedGroup(a, t, controller.pgid) && !IsOwned(a, t, controller)
  {
    var a := Attempt("/tmp/pb-view-1", [40], 50);
    var worker := Row(40, 1, 40, "/tmp/pb-view-1");
    var controller := Row(50, 1, 40, "python");
    var t := [worker, controller];
    var m := ByPid(t);
    assert t[..1] == [worker] && t[1] == controller;
    assert Ancestor(m, 50, 0) == Some(50);
    assert ParentsIn(m, 50, {0, 1, 50}, {});
    ClosedHoldsChain(m, 50, {0, 1, 50});
    assert OccursAt(a.marker, worker.command, 0) && NamesView(a, worker);
    assert worker in t && controller in t;
  }
}
