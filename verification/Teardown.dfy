/** Stopping everything an attempt owns, against a process table that changes while it works. */
module Teardown {
  import opened Common
  import opened Ownership

  datatype Signal = Term | Kill

  datatype Scope = ToProcess(pid: int) | ToGroup(group: int)

  datatype Sent = Sent(to: Scope, signal: Signal)

  /** What one teardown reports. An absent key is `None`, never an empty value. */
  datatype Termination = Termination(
    uncorroborated: set<int>,
    found: nat,
    stopped: bool,
    tableUnavailable: bool,
    nothingWasRunning: bool,
    escalated: Option<bool>,
    survivors: Option<set<int>>)

  /** Whether anything is known to be running still, or whether that is simply unknown. */
  predicate SurvivorsRemain(t: Termination) {
    (t.survivors.Some? && t.survivors.value != {}) || t.tableUnavailable
  }

  /** The world being torn down: the n-th look at the table, and whether a pid answers the n-th
      liveness sweep. Nothing relates one answer to the next. */
  datatype World = World(tables: nat -> Option<Table>, alive: (nat, int) -> bool)

  ghost predicate OwnedAt(a: Attempt, w: World, n: nat, p: int) {
    w.tables(n).Some? && exists r :: IsOwned(a, w.tables(n).value, r) && r.pid == p
  }

  ghost predicate LedAt(a: Attempt, w: World, n: nat, g: int) {
    w.tables(n).Some? && LedGroup(a, w.tables(n).value, g)
  }

  /** Recorded, and not corroborated by the first look. */
  ghost predicate Uncorroborated(a: Attempt, w: World, p: int) {
    p in a.recorded && (w.tables(0).Some? ==> !Root(a, w.tables(0).value, p))
  }

  predicate Targeted(to: Scope, groups: set<int>, pids: set<int>) {
    match to
    case ToGroup(g) => g in groups
    case ToProcess(p) => p in pids
  }

  /** Owned in some of the first `n` snapshots. */
  ghost predicate EverOwned(a: Attempt, w: World, n: nat, p: int) {
    exists i :: 0 <= i < n && OwnedAt(a, w, i, p)
  }

  ghost predicate EverLed(a: Attempt, w: World, n: nat, g: int) {
    exists i :: 0 <= i < n && LedAt(a, w, i, g)
  }

  /** Entry `j` of `owned` is the first for its pid. */
  predicate IsFirst(owned: seq<Owned>, j: int) {
    0 <= j < |owned| && forall k :: 0 <= k < j ==> owned[k].row.pid != owned[j].row.pid
  }

  predicate IsLast(owned: seq<Owned>, j: int) {
    0 <= j < |owned| && forall k :: j < k < |owned| ==> owned[k].row.pid != owned[j].row.pid
  }

  /** The first look: a pid the table lists twice is watched under its last row. */
  function Indexed(owned: seq<Owned>): map<int, Owned> {
    if owned == [] then map[]
    else
      var last := owned[|owned| - 1];
      Indexed(owned[..|owned| - 1])[last.row.pid := last]
  }

  /** A later look: a newly owned pid is watched under its first row, one already watched keeps its entry. */
  function Merged(watched: map<int, Owned>, owned: seq<Owned>): map<int, Owned> {
    if owned == [] then watched
    else
      var last := owned[|owned| - 1];
      var merged := Merged(watched, owned[..|owned| - 1]);
      if last.row.pid in merged then merged else merged[last.row.pid := last]
  }

  predicate Lists(owned: seq<Owned>, p: int) {
    exists j :: 0 <= j < |owned| && owned[j].row.pid == p
  }

  lemma ListsAppend(owned: seq<Owned>, p: int)
    requires owned != []
    ensures Lists(owned, p) <==> Lists(owned[..|owned| - 1], p) || owned[|owned| - 1].row.pid == p
  {
    var init := owned[..|owned| - 1];
    if j :| 0 <= j < |init| && init[j].row.pid == p { assert owned[j].row.pid == p; }
    if j :| 0 <= j < |owned| && owned[j].row.pid == p { assert j < |init| ==> init[j].row.pid == p; }
  }

  lemma {:induction false} IndexedKey(owned: seq<Owned>, p: int)
    ensures p in Indexed(owned) <==> Lists(owned, p)
  {
    hide Lists;
    if owned == [] {
      assert !Lists([], p) by { NothingListed(p); }
    } else {
      IndexedKey(owned[..|owned| - 1], p);
      ListsAppend(owned, p);
    }
  }

  lemma NothingListed(p: int)
    ensures !Lists([], p)
  {
  }

  lemma {:induction false} IndexedLast(owned: seq<Owned>, j: int)
    requires IsLast(owned, j)
    ensures owned[j].row.pid in Indexed(owned) && Indexed(owned)[owned[j].row.pid] == owned[j]
  {
    if j < |owned| - 1 { IndexedLast(owned[..|owned| - 1], j); }
  }

  lemma IndexedIsLast(owned: seq<Owned>)
    ensures forall p :: p in Indexed(owned) <==> Lists(owned, p)
    ensures forall j :: IsLast(owned, j) ==>
              owned[j].row.pid in Indexed(owned) && Indexed(owned)[owned[j].row.pid] == owned[j]
  {
    hide Indexed, Lists;
    forall p { IndexedKey(owned, p); }
    forall j | IsLast(owned, j) { IndexedLast(owned, j); }
  }

  lemma {:induction false} MergedKey(watched: map<int, Owned>, owned: seq<Owned>, p: int)
    ensures p in Merged(watched, owned) <==> p in watched || Lists(owned, p)
    ensures p in watched ==> Merged(watched, owned)[p] == watched[p]
  {
    hide Lists;
    if owned == [] {
      NothingListed(p);
    } else {
      MergedKey(watched, owned[..|owned| - 1], p);
      ListsAppend(owned, p);
    }
  }

  lemma {:induction false} MergedFirst(watched: map<int, Owned>, owned: seq<Owned>, j: int)
    requires IsFirst(owned, j) && owned[j].row.pid !in watched
    ensures owned[j].row.pid in Merged(watched, owned) && Merged(watched, owned)[owned[j].row.pid] == owned[j]
  {
    var init := owned[..|owned| - 1];
    if j < |init| {
      MergedFirst(watched, init, j);
    } else {
      MergedKey(watched, init, owned[j].row.pid);
    }
  }

  lemma MergedIsFirst(watched: map<int, Owned>, owned: seq<Owned>)
    ensures forall p :: p in watched ==> p in Merged(watched, owned) && Merged(watched, owned)[p] == watched[p]
    ensures forall p :: p in Merged(watched, owned) <==> p in watched || Lists(owned, p)
    ensures forall j :: IsFirst(owned, j) && owned[j].row.pid !in watched ==>
              owned[j].row.pid in Merged(watched, owned) && Merged(watched, owned)[owned[j].row.pid] == owned[j]
  {
    hide Merged, Lists;
    forall p { MergedKey(watched, owned, p); }
    forall j | IsFirst(owned, j) && owned[j].row.pid !in watched { MergedFirst(watched, owned, j); }
  }

  method Index(owned: seq<Owned>) returns (watched: map<int, Owned>)
    ensures watched == Indexed(owned)
  {
    watched := map[];
    for i := 0 to |owned|
      invariant watched == Indexed(owned[..i])
    {
      assert owned[..i + 1][..i] == owned[..i];
      watched := watched[owned[i].row.pid := owned[i]];
    }
    assert owned[..|owned|] == owned;
  }

  method Merge(watched: map<int, Owned>, owned: seq<Owned>) returns (merged: map<int, Owned>)
    ensures merged == Merged(watched, owned)
  {
    merged := watched;
    for i := 0 to |owned|
      invariant merged == Merged(watched, owned[..i])
    {
      assert owned[..i + 1][..i] == owned[..i];
      if owned[i].row.pid !in merged { merged := merged[owned[i].row.pid := owned[i]]; }
    }
    assert owned[..|owned|] == owned;
  }

  /** Signals each group and each process once. */
  method SignalAll(pids: set<int>, groups: set<int>, signal: Signal) returns (sent: seq<Sent>)
    ensures |sent| == |groups| + |pids|
    ensures forall s :: s in sent <==> s.signal == signal && Targeted(s.to, groups, pids)
  {
    sent := [];
    var rest := groups;
    while rest != {}
      invariant rest <= groups && |sent| == |groups| - |rest|
      invariant forall s :: s in sent <==> s.signal == signal && Targeted(s.to, groups - rest, {})
      decreases rest
    {
      ghost var some := SomeMember(rest);
      var g :| g in rest;
      sent := sent + [Sent(ToGroup(g), signal)];
      rest := rest - {g};
    }
    rest := pids;
    while rest != {}
      invariant rest <= pids && |sent| == |groups| + |pids| - |rest|
      invariant forall s :: s in sent <==> s.signal == signal && Targeted(s.to, groups, pids - rest)
      decreases rest
    {
      ghost var some := SomeMember(rest);
      var p :| p in rest;
      sent := sent + [Sent(ToProcess(p), signal)];
      rest := rest - {p};
    }
  }

  class Teardown {
    const attempt: Attempt
    const world: World
    var watch: map<int, Owned>
    var groups: set<int>
    var scans: nat
    var sweeps: nat
    var sent: seq<Sent>

    /** The watch set is everything owned in any snapshot so far; only that was ever signalled. */
    ghost predicate Valid()
      reads this
    {
      && (forall p :: p in watch <==> EverOwned(attempt, world, scans, p))
      && (forall g :: g in groups <==> EverLed(attempt, world, scans, g))
      && (forall s :: s in sent ==> Deserved(s.to))
    }

    ghost predicate Deserved(to: Scope)
      reads this
    {
      match to
      case ToProcess(p) => EverOwned(attempt, world, scans, p)
      case ToGroup(g) => EverLed(attempt, world, scans, g)
    }

    constructor (attempt: Attempt, world: World)
      ensures this.attempt == attempt && this.world == world
      ensures Valid() && scans == 0 && sweeps == 0 && sent == [] && watch == map[] && groups == {}
    {
      this.attempt, this.world := attempt, world;
      watch, groups, scans, sweeps, sent := map[], {}, 0, 0, [];
    }

    /** The first look of a teardown: everything owned now is watched. */
    method Look() returns (scan: Scan)
      requires Valid() && scans == 0 && watch == map[] && groups == {}
      modifies this`watch, this`groups, this`scans
      ensures Valid() && scans == 1
      ensures scan.tableUnavailable <==> world.tables(0).None?
      ensures forall p :: p in scan.uncorroborated <==> Uncorroborated(attempt, world, p)
      ensures forall j :: IsLast(scan.owned, j) ==>
                scan.owned[j].row.pid in watch && watch[scan.owned[j].row.pid] == scan.owned[j]
    {
      hide EverOwned, EverLed, OwnedAt, LedAt, ScanOf, Indexed, Merged, Lists, Uncorroborated;
      scan := OwnedProcesses(attempt, world.tables(0));
      ScanIsReported(attempt, world, scan);
      ScanIsSnapshot(attempt, world, 0, scan);
      FirstScan(attempt, world);
      IndexedIsLast(scan.owned);
      watch := Index(scan.owned);
      groups := scan.groups;
      scans := 1;
    }

    /** Re-derives ownership and merges it in. A pid already watched keeps its first entry, and a
        table that could not be read changes nothing. */
    method Refresh() returns (scan: Scan)
      requires Valid()
      modifies this`watch, this`groups, this`scans
      ensures Valid() && scans == old(scans) + 1
      ensures forall p :: p in old(watch) ==> p in watch && watch[p] == old(watch)[p]
      ensures old(groups) <= groups
      ensures scan.tableUnavailable <==> world.tables(old(scans)).None?
    {
      hide EverOwned, EverLed, OwnedAt, LedAt, ScanOf, Indexed, Merged, Lists;
      scan := OwnedProcesses(attempt, world.tables(scans));
      ScanIsSnapshot(attempt, world, scans, scan);
      EverGrows(attempt, world, scans);
      MergedIsFirst(watch, scan.owned);
      watch := Merge(watch, scan.owned);
      groups := groups + scan.groups;
      scans := scans + 1;
    }

    /** One liveness sweep over everything watched. */
    method Sweep() returns (left: set<int>)
      requires Valid()
      modifies this`sweeps
      ensures Valid() && sweeps == old(sweeps) + 1
      ensures forall p :: p in left <==>
                p in watch && EverOwned(attempt, world, scans, p) && world.alive(old(sweeps), p)
    {
      left := set p | p in watch && world.alive(sweeps, p);
      sweeps := sweeps + 1;
    }

    /** Waits at most `rounds` looks for everything watched to be dead, looking again each time. */
    method Settle(rounds: nat) returns (left: set<int>)
      requires Valid()
      modifies this`watch, this`groups, this`scans, this`sweeps
      ensures Valid() && scans > old(scans) && sweeps > old(sweeps)
      ensures left != {} ==> scans == old(scans) + rounds + 1 && sweeps == old(sweeps) + rounds + 1
      ensures forall p :: p in old(watch) ==> p in watch && watch[p] == old(watch)[p]
      ensures old(groups) <= groups
      ensures forall p :: p in left <==> EverOwned(attempt, world, scans, p) && world.alive(sweeps - 1, p)
    {
      hide EverOwned, EverLed;
      var scan;
      for i := 0 to rounds
        invariant Valid() && scans == old(scans) + i && sweeps == old(sweeps) + i
        invariant forall p :: p in old(watch) ==> p in watch && watch[p] == old(watch)[p]
        invariant old(groups) <= groups
      {
        scan := Refresh();
        left := Sweep();
        if left == {} { return; }
      }
      scan := Refresh();
      left := Sweep();
    }

    /** Signals watched processes and known groups, and logs every signal. */
    method Emit(pids: set<int>, targets: set<int>, signal: Signal)
      requires Valid() && (forall p :: p in pids ==> p in watch) && targets <= groups
      modifies this`sent
      ensures Valid()
      ensures forall s :: s in sent <==> s in old(sent) || (s.signal == signal && Targeted(s.to, targets, pids))
    {
      hide EverOwned, EverLed;
      var batch := SignalAll(pids, targets, signal);
      sent := sent + batch;
    }

    /** The targets of the second signal: the groups known and the pids alive when the first grace, of
        `first` looks and one more, has run out on somebody. */
    ghost predicate Outlived(first: nat, to: Scope)
      reads this
    {
      match to
      case ToProcess(p) => EverOwned(attempt, world, first + 2, p) && world.alive(first + 1, p)
      case ToGroup(g) => EverLed(attempt, world, first + 2, g)
    }

    /** Terminates, waits, kills what is left, waits again, and reports from the last sweep. A grace is a
        length of time, so the two waits may have room for different numbers of looks. */
    method Stop(first: nat, second: nat) returns (t: Termination)
      requires Valid() && scans == 0 && sweeps == 0 && sent == [] && watch == map[] && groups == {}
      modifies this`watch, this`groups, this`scans, this`sweeps, this`sent
      ensures Valid() && t.found == |watch.Keys|
      ensures t.stopped <==> !SurvivorsRemain(t)
      ensures forall p :: p in t.uncorroborated <==> Uncorroborated(attempt, world, p)
      ensures t.tableUnavailable <==> world.tables(0).None?
      ensures t.tableUnavailable ==> !t.stopped && !t.nothingWasRunning
      ensures t.nothingWasRunning <==> world.tables(0).Some? && forall p :: !OwnedAt(attempt, world, 0, p)
      ensures t.tableUnavailable || t.nothingWasRunning ==>
                sent == [] && t.found == 0 && t.escalated.None? && t.survivors.None?
      ensures !t.tableUnavailable && !t.nothingWasRunning ==>
                && t.escalated.Some? && t.survivors.Some? && sweeps > 0
                && (forall p :: p in t.survivors.value <==>
                      EverOwned(attempt, world, scans, p) && world.alive(sweeps - 1, p))
                && (forall to :: Sent(to, Term) in sent <==> match to
                                                            case ToProcess(p) => OwnedAt(attempt, world, 0, p)
                                                            case ToGroup(g) => LedAt(attempt, world, 0, g))
                && (forall to :: Sent(to, Kill) in sent <==> t.escalated.value && Outlived(first, to))
                && (!t.escalated.value ==> t.stopped)
    {
      hide OwnedAt, LedAt, EverOwned, EverLed, Uncorroborated;
      var scan := Look();
      FirstScan(attempt, world);
      if scan.tableUnavailable {
        assert forall p :: p !in watch;
        return Termination(scan.uncorroborated, 0, false, true, false, None, None);
      }
      if watch == map[] && groups == {} {
        return Termination(scan.uncorroborated, 0, true, false, true, None, None);
      }
      ghost var one: int;
      if watch != map[] { one := SomeMember(watch.Keys); } else { one := SomeMember(groups); }
      assert one in watch.Keys;
      Emit(watch.Keys, groups, Term);
      assert forall to :: Sent(to, Term) in sent <==> match to
                                                      case ToProcess(p) => OwnedAt(attempt, world, 0, p)
                                                      case ToGroup(g) => LedAt(attempt, world, 0, g);
      t := Await(scan.uncorroborated, first, second, one);
    }

    /** The two graces, and the escalation between them. */
    method Await(uncorroborated: set<int>, first: nat, second: nat, ghost one: int) returns (t: Termination)
      requires Valid() && one in watch && scans == 1 && sweeps == 0
      requires forall s :: s in sent ==> s.signal == Term
      modifies this`watch, this`groups, this`scans, this`sweeps, this`sent
      ensures Valid() && t.found == |watch.Keys| > 0 && sweeps > 0 && t.uncorroborated == uncorroborated
      ensures !t.tableUnavailable && !t.nothingWasRunning && t.escalated.Some? && t.survivors.Some?
      ensures t.stopped <==> t.survivors.value == {}
      ensures forall p :: p in t.survivors.value <==> EverOwned(attempt, world, scans, p) && world.alive(sweeps - 1, p)
      ensures forall to :: Sent(to, Term) in sent <==> Sent(to, Term) in old(sent)
      ensures forall to :: Sent(to, Kill) in sent <==> t.escalated.value && Outlived(first, to)
      ensures !t.escalated.value ==> t.stopped
    {
      hide OwnedAt, LedAt, EverOwned, EverLed;
      var left := Settle(first);
      if left == {} {
        assert one in watch.Keys;
        return Termination(uncorroborated, |watch.Keys|, true, false, false, Some(false), Some({}));
      }
      left := Sweep();
      Emit(left, groups, Kill);
      assert forall to :: Sent(to, Kill) in sent <==> Outlived(first, to);
      left := Settle(second);
      assert one in watch.Keys;
      t := Termination(uncorroborated, |watch.Keys|, left == {}, false, false, Some(true), Some(left));
    }
  }

  /** After one snapshot, what was ever owned or led is owned or led in it, and what is led is owned. */
  lemma FirstScan(a: Attempt, w: World)
    ensures forall p :: EverOwned(a, w, 1, p) <==> OwnedAt(a, w, 0, p)
    ensures forall g :: EverLed(a, w, 1, g) <==> LedAt(a, w, 0, g)
    ensures forall g :: LedAt(a, w, 0, g) ==> OwnedAt(a, w, 0, g)
    ensures w.tables(0).None? ==> forall p :: !EverOwned(a, w, 1, p) && !EverLed(a, w, 1, p)
  {
    hide IsOwned, LedGroup;
    LedIsOwned(a, w);
  }

  lemma LedIsOwned(a: Attempt, w: World)
    ensures forall g :: LedAt(a, w, 0, g) ==> OwnedAt(a, w, 0, g)
  {
    hide Protected, NamesView, Descends;
  }

  lemma ScanIsReported(a: Attempt, w: World, scan: Scan)
    requires w.tables(0).Some? ==> ScanOf(a, w.tables(0).value, scan)
    requires w.tables(0).None? ==> forall p :: p in scan.uncorroborated <==> p in a.recorded
    ensures forall p :: p in scan.uncorroborated <==> Uncorroborated(a, w, p)
  {
    hide Root, OwnedRows;
  }

  lemma ScanIsSnapshot(a: Attempt, w: World, n: nat, scan: Scan)
    requires w.tables(n).Some? ==> ScanOf(a, w.tables(n).value, scan)
    requires w.tables(n).None? ==> scan.owned == [] && scan.groups == {}
    ensures forall p :: OwnedAt(a, w, n, p) <==> Lists(scan.owned, p)
    ensures forall g :: LedAt(a, w, n, g) <==> g in scan.groups
  {
    hide IsOwned, LedGroup, OwnedRows;
    forall p ensures OwnedAt(a, w, n, p) <==> Lists(scan.owned, p) {
      if OwnedAt(a, w, n, p) {
        var t := w.tables(n).value;
        var r :| IsOwned(a, t, r) && r.pid == p;
        OwnedInTable(a, t, r);
        OwnedRowsHold(a, t, t, r);
        var o :| o in scan.owned && o.row == r;
      }
      if j :| 0 <= j < |scan.owned| && scan.owned[j].row.pid == p {
        assert scan.owned[j] in scan.owned;
        OwnedRowsHold(a, w.tables(n).value, w.tables(n).value, scan.owned[j].row);
      }
    }
  }

  lemma OwnedInTable(a: Attempt, t: Table, r: Row)
    requires IsOwned(a, t, r)
    ensures r in t
  {
  }

  lemma EverGrows(a: Attempt, w: World, n: nat)
    ensures forall p :: EverOwned(a, w, n + 1, p) <==> EverOwned(a, w, n, p) || OwnedAt(a, w, n, p)
    ensures forall g :: EverLed(a, w, n + 1, g) <==> EverLed(a, w, n, g) || LedAt(a, w, n, g)
  {
  }

  // ---------------------------------------------------------------- what a group signal reaches

  /** A row of the table of look `n` that a signal to the groups known by then reaches. */
  ghost predicate Reached(a: Attempt, w: World, n: nat, r: Row) {
    w.tables(n).Some? && r in w.tables(n).value && EverLed(a, w, n + 1, r.pgid)
  }

  /** Signals go to every group led in any look so far. In the table of look `n` they reach owned
      processes only, exactly when no row of a group still led there is protected, unless it was owned
      in an earlier look, and every row of a group no longer led there was owned in some look. */
  lemma SignalledGroupsHoldOwned(a: Attempt, w: World, n: nat)
    ensures (forall r :: Reached(a, w, n, r) ==> EverOwned(a, w, n + 1, r.pid)) <==>
            && (forall r :: Reached(a, w, n, r) && LedAt(a, w, n, r.pgid) && Shielded(a, w.tables(n).value, r.pid) ==>
                  EverOwned(a, w, n, r.pid))
            && (forall r :: Reached(a, w, n, r) && !LedAt(a, w, n, r.pgid) ==> EverOwned(a, w, n + 1, r.pid))
  {
    hide EverOwned, EverLed, OwnedAt, LedAt, Protected;
    EverGrows(a, w, n);
    forall r | Reached(a, w, n, r) && LedAt(a, w, n, r.pgid)
      ensures OwnedAt(a, w, n, r.pid) <==> !Shielded(a, w.tables(n).value, r.pid)
    {
      LedRowIsOwned(a, w, n, r);
    }
  }

  lemma LedRowIsOwned(a: Attempt, w: World, n: nat, r: Row)
    requires Reached(a, w, n, r) && LedAt(a, w, n, r.pgid)
    ensures OwnedAt(a, w, n, r.pid) <==> !Shielded(a, w.tables(n).value, r.pid)
  {
    hide Protected, NamesView, Descends, EverLed, Root;
  }

  const VIEW := "/tmp/pb-view-1"

  /** A worker, recorded as 40, that dies while its child 55 lives on in its group and forks again. */
  const WORKER := Attempt(VIEW, [40], 50)

  const AT_FIRST := [Row(40, 1, 40, VIEW), Row(50, 1, 50, "python"), Row(55, 40, 40, "node")]

  const LATER := [Row(60, 55, 40, "git"), Row(50, 1, 50, "python"), Row(55, 1, 40, "node")]

  function OrphanTable(n: nat): Table {
    if n == 0 then AT_FIRST else LATER
  }

  const ORPHANS := World((n: nat) => Some(OrphanTable(n)), (k: nat, p: int) => p == 55)

  lemma OrphanShield(n: nat, p: int)
    ensures Shielded(WORKER, OrphanTable(n), p) ==> p in {0, 1, 50}
  {
    hide ByPid, Ancestor;
    var m := ByPid(OrphanTable(n));
    assert OrphanTable(n)[1] == Row(50, 1, 50, "python");
    assert ParentsIn(m, 50, {0, 1, 50}, {});
    ClosedHoldsChain(m, 50, {0, 1, 50});
  }

  lemma WorkerLeadsAtFirst()
    ensures LedAt(WORKER, ORPHANS, 0, 40) && OwnedAt(WORKER, ORPHANS, 0, 55)
  {
    hide Protected, Shielded, Descends;
    OrphanShield(0, 40);
    OrphanShield(0, 55);
    var worker, child := AT_FIRST[0], AT_FIRST[2];
    assert OccursAt(VIEW, worker.command, 0) && NamesView(WORKER, worker);
    assert worker in AT_FIRST && child in AT_FIRST;
    assert Root(WORKER, AT_FIRST, 40) && LedGroup(WORKER, AT_FIRST, 40);
    assert IsOwned(WORKER, AT_FIRST, child);
  }

  /** Once the worker is gone nothing is a root, so only a row that names the view is owned. */
  lemma NothingIsRootLater(p: int)
    ensures !Root(WORKER, LATER, p) && !LedGroup(WORKER, LATER, p) && !Descends(WORKER, LATER, p)
  {
    hide Protected;
  }

  lemma StrangerIsNeverOwned(n: nat)
    ensures !OwnedAt(WORKER, ORPHANS, n, 60)
  {
    hide Root, LedGroup, Descends, Shielded;
    forall r | r in OrphanTable(n) && r.pid == 60 ensures !IsOwned(WORKER, OrphanTable(n), r) {
      assert n > 0 && r == LATER[0] && |VIEW| > |r.command|;
      NothingIsRootLater(r.pid);
      NothingIsRootLater(r.pgid);
    }
  }

  /** It happens with nothing protected in any group: the second signal goes to the group the dead worker
      led, in which a grandchild runs that no look ever owned. */
  lemma StaleGroupHoldsAStranger(first: nat)
    ensures EverLed(WORKER, ORPHANS, first + 2, 40)
    ensures EverOwned(WORKER, ORPHANS, first + 2, 55) && ORPHANS.alive(first + 1, 55)
    ensures var stranger := Row(60, 55, 40, "git");
            Reached(WORKER, ORPHANS, first + 1, stranger) && forall n :: !EverOwned(WORKER, ORPHANS, n, stranger.pid)
    ensures forall n, r :: r in OrphanTable(n) && Shielded(WORKER, OrphanTable(n), r.pid) ==>
              !LedAt(WORKER, ORPHANS, n, r.pgid)
  {
    hide Shielded, OwnedAt, LedGroup;
    WorkerLeadsAtFirst();
    forall n { StrangerIsNeverOwned(n); }
    assert OrphanTable(first + 1)[0] == Row(60, 55, 40, "git");
    forall n, r | r in OrphanTable(n) && Shielded(WORKER, OrphanTable(n), r.pid)
      ensures !LedAt(WORKER, ORPHANS, n, r.pgid)
    {
      OrphanShield(n, r.pid);
      ControllerLeadsNothing(n);
    }
  }

  lemma ControllerLeadsNothing(n: nat)
    ensures !LedAt(WORKER, ORPHANS, n, 50)
  {
    hide Shielded;
  }

  /** Nothing protected by the controller's own identity is ever signalled by pid. */
  lemma ControllerNeverWatched(a: Attempt, w: World, n: nat, p: int)
    requires EverOwned(a, w, n, p)
    ensures p != a.controller && p !in {0, 1}
  {
    var i :| 0 <= i < n && OwnedAt(a, w, i, p);
    var r :| IsOwned(a, w.tables(i).value, r) && r.pid == p;
    NeverTheController(a, w.tables(i).value, r, 0);
  }
}
