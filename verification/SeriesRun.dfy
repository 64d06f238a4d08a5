/** The run procedure itself, over the record it resumes from. It is tied to the state machine at every
    moment a kill could expose: each checkpoint and each attempt is one step of the machine on from the
    last, with nothing written and nothing asked in between. So its checkpoints only extend each other,
    runs cut short at any of those moments, one after another, are one history, and every theorem about
    histories holds of them. */
module SeriesRun {
  import opened Common
  import opened SeriesRecord
  import opened SeriesMachine
  import opened SeriesSafety
  import opened SeriesRestart
  import opened SeriesChoices

  /** One record on disk: the frozen identity it was written under, and its measurements. */
  datatype Stored = Stored(identity: string, rows: seq<Row>)

  datatype LoadError = DifferentConfiguration

  datatype Outcome = Outcome(rows: seq<Row>, done: set<Slot>, stop: Stop, derived: int, unpriced: seq<Row>)

  function RowsOf(stored: Option<Stored>): seq<Row> {
    if stored.Some? then stored.value.rows else []
  }

  /** What outlives the process: the record, and the attempts the world was asked to make. */
  datatype Moment = Moment(stored: Option<Stored>, calls: seq<Call>)

  /** Everything outside the process: the record file, and the attempt function with all it was ever
      asked to do. The attempt function answers as it likes; what an attempt really cost is known to
      nobody. Each change is logged, beside the machine state it stands for. */
  class World {
    var stored: Option<Stored>
    const answers: nat -> Evidence
    ghost const bills: nat -> int
    var asked: nat
    ghost var calls: seq<Call>
    ghost var moments: seq<Moment>
    ghost var states: seq<Machine>

    ghost function Now(): Moment
      reads this
    {
      Moment(stored, calls)
    }

    ghost predicate Valid()
      reads this
    {
      && moments != [] && moments[|moments| - 1] == Now()
      && |states| == |moments|
      && forall i :: 0 <= i < |states| ==> Shows(states[i], moments[i])
    }

    constructor (stored: Option<Stored>, answers: nat -> Evidence, ghost bills: nat -> int, ghost past: seq<Call>)
      ensures Valid() && this.stored == stored && calls == past && moments == [Moment(stored, past)]
      ensures states == [DownAt(Moment(stored, past))]
      ensures this.answers == answers && this.bills == bills && asked == 0
    {
      this.stored := stored;
      this.answers := answers;
      this.bills := bills;
      asked := 0;
      calls := past;
      moments := [Moment(stored, past)];
      states := [DownAt(Moment(stored, past))];
    }

    /** A record of another configuration is refused, never extended and never replaced. */
    method Load(identity: string) returns (r: Result<seq<Row>, LoadError>)
      ensures r.Err? <==> stored.Some? && stored.value.identity != identity
      ensures r.Ok? ==> r.value == RowsOf(stored)
    {
      if stored.None? { return Ok([]); }
      if stored.value.identity != identity { return Err(DifferentConfiguration); }
      return Ok(stored.value.rows);
    }

    /** Replaces the whole record in one step; there is no half-written state. */
    method Write(identity: string, rows: seq<Row>, ghost g: Machine)
      requires Valid() && g.disk == rows && g.calls == calls
      modifies this`stored, this`moments, this`states
      ensures Valid() && stored == Some(Stored(identity, rows))
      ensures moments == old(moments) + [Now()] && states == old(states) + [g]
    {
      stored := Some(Stored(identity, rows));
      moments := moments + [Now()];
      states := states + [g];
    }

    /** May be entered only for a slot that the record on disk already holds as in flight. */
    method RunAttempt(slot: Slot, ghost c: Config, ghost g: Machine) returns (report: Evidence)
      requires Valid() && RowsOf(stored) != []
      requires var rows := RowsOf(stored);
               rows[|rows| - 1] == InFlightRow(slot, rows[|rows| - 1].position, rows[|rows| - 1].attempt)
      requires g.mem.Ready? && g.mem.pos < |c.slots| && c.slots[g.mem.pos] == slot
      requires g.disk == g.mem.rows == RowsOf(stored) && g.calls == calls
      modifies this`asked, this`calls, this`moments, this`states
      ensures Valid() && report == answers(old(asked)) && asked == old(asked) + 1
      ensures calls == old(calls) + [Call(slot, |RowsOf(stored)| - 1, report, bills(old(asked)))]
      ensures moments == old(moments) + [Now()]
      ensures states == old(states) + [Apply(c, g, Invoke(report, bills(old(asked))))]
    {
      report := answers(asked);
      calls := calls + [Call(slot, |RowsOf(stored)| - 1, report, bills(asked))];
      moments := moments + [Now()];
      states := states + [Apply(c, g, Invoke(report, bills(asked)))];
      asked := asked + 1;
    }
  }

  // ---------------------------------------------------------------- moments of a history

  function DownAt(m: Moment): Machine {
    Machine(RowsOf(m.stored), Down, m.calls)
  }

  /** The machine state has this record on disk and made these calls. */
  predicate Shows(s: Machine, m: Moment) {
    s.disk == RowsOf(m.stored) && s.calls == m.calls
  }

  /** A kill at this moment leaves a state that the machine reaches from `start`. */
  ghost predicate OnPath(c: Config, identity: string, start: Machine, m: Moment) {
    && (m.stored.Some? ==> m.stored.value.identity == identity)
    && Reaches(c, start, DownAt(m))
  }

  /** On from `s` with nothing written and nothing asked. */
  ghost predicate Quietly(c: Config, s: Machine, t: Machine) {
    Reaches(c, s, t) && t.disk == s.disk && t.calls == s.calls
  }

  /** At most one step on from where `s` quietly leads: the next thing a kill could expose. */
  ghost predicate Next(c: Config, s: Machine, t: Machine) {
    exists u :: Quietly(c, s, u) && (t == u || exists a :: Enabled(c, u, a) && t == Apply(c, u, a))
  }

  /** The state before entry `i` of a log that a run starting at `start` found `from` long. */
  ghost function Before(start: Machine, from: nat, states: seq<Machine>, i: nat): Machine
    requires i <= |states|
  {
    if i <= from then start else states[i - 1]
  }

  /** Entry `i` is the next moment after the one before it. */
  ghost predicate Linked(c: Config, identity: string, start: Machine, from: nat,
                         states: seq<Machine>, moments: seq<Moment>, i: nat)
    requires i < |states| == |moments|
  {
    && (moments[i].stored.Some? ==> moments[i].stored.value.identity == identity)
    && Next(c, Before(start, from, states, i), states[i])
  }

  /** The state of the last moment logged since the run began. */
  ghost function Latest(start: Machine, from: nat, w: World): Machine
    reads w
  {
    Before(start, from, w.states, |w.states|)
  }

  /** Every moment since the log was `from` long is the next one after the moment before it. */
  ghost predicate Traced(c: Config, identity: string, start: Machine, from: nat, w: World)
    reads w
  {
    && w.Valid()
    && from <= |w.states|
    && Shows(Latest(start, from, w), w.Now())
    && forall i :: from <= i < |w.states| ==> Linked(c, identity, start, from, w.states, w.moments, i)
  }

  lemma LinkedAppend(c: Config, identity: string, start: Machine, from: nat,
                     states: seq<Machine>, moments: seq<Moment>, g: Machine, m: Moment)
    requires from <= |states| == |moments|
    requires forall i :: from <= i < |states| ==> Linked(c, identity, start, from, states, moments, i)
    requires Next(c, Before(start, from, states, |states|), g)
    requires m.stored.Some? ==> m.stored.value.identity == identity
    ensures forall i :: from <= i < |states| + 1 ==> Linked(c, identity, start, from, states + [g], moments + [m], i)
    ensures Before(start, from, states + [g], |states| + 1) == g
  {
    hide Next;
    forall i | from <= i < |states| + 1 ensures Linked(c, identity, start, from, states + [g], moments + [m], i) {
      if i < |states| { assert Linked(c, identity, start, from, states, moments, i); }
    }
  }

  lemma QuietlySelf(c: Config, s: Machine)
    ensures Quietly(c, s, s)
  {
    ReachesSelf(c, s);
  }

  lemma QuietlyNext(c: Config, s: Machine, u: Machine)
    requires Quietly(c, s, u)
    ensures Next(c, s, u)
  {
  }

  lemma StepNext(c: Config, s: Machine, u: Machine, a: Action)
    requires Quietly(c, s, u) && Enabled(c, u, a)
    ensures Next(c, s, Apply(c, u, a))
  {
  }

  lemma NextReaches(c: Config, s: Machine, t: Machine)
    requires Next(c, s, t)
    ensures Reaches(c, s, t)
  {
    hide Reaches;
    var u :| Quietly(c, s, u) && (t == u || exists a :: Enabled(c, u, a) && t == Apply(c, u, a));
    if t != u {
      var a :| Enabled(c, u, a) && t == Apply(c, u, a);
      ReachesStep(c, s, u, a);
    }
  }

  lemma {:induction false} TracedReaches(c: Config, identity: string, start: Machine, from: nat, w: World, i: nat)
    requires Traced(c, identity, start, from, w) && from <= i < |w.states|
    ensures Reaches(c, start, w.states[i])
  {
    hide Reaches, Next;
    assert Linked(c, identity, start, from, w.states, w.moments, i);
    NextReaches(c, Before(start, from, w.states, i), w.states[i]);
    if i > from {
      TracedReaches(c, identity, start, from, w, i - 1);
      ReachesTransitive(c, start, w.states[i - 1], w.states[i]);
    }
  }

  /** So a kill at any traced moment leaves a state of the history. */
  lemma TracedIsOnPath(c: Config, identity: string, start: Machine, from: nat, w: World, i: nat)
    requires Traced(c, identity, start, from, w) && from <= i < |w.states|
    ensures OnPath(c, identity, start, w.moments[i])
  {
    hide Reaches, Next;
    TracedReaches(c, identity, start, from, w, i);
    assert Linked(c, identity, start, from, w.states, w.moments, i) && Shows(w.states[i], w.moments[i]);
    ReachesStep(c, start, w.states[i], Crash);
  }

  /** The calls of the next moment are those of this one, or one more. */
  ghost predicate CallsExtend(before: seq<Call>, after: seq<Call>) {
    after == before || (|after| == |before| + 1 && before == after[..|before|])
  }

  lemma OneCallOrOneWrite(c: Config, s: Machine, a: Action)
    requires Enabled(c, s, a)
    ensures CallsExtend(s.calls, Apply(c, s, a).calls)
    ensures Apply(c, s, a).disk == s.disk || Apply(c, s, a).calls == s.calls
  {
    hide ExecutionStage, ValidityDefect, FirstDefect, DoneKeys, Interrupted, Offered, OverBudget, Eligible;
  }

  lemma NextExtends(c: Config, s: Machine, t: Machine)
    requires WellFormed(c) && Inv(c, s) && Next(c, s, t)
    ensures Inv(c, t) && CheckpointExtends(s.disk, t.disk) && CallsExtend(s.calls, t.calls)
    ensures t.disk == s.disk || t.calls == s.calls
  {
    hide Inv, Legal, Exec, Apply, Enabled;
    var u :| Quietly(c, s, u) && (t == u || exists a :: Enabled(c, u, a) && t == Apply(c, u, a));
    var acts :| Legal(c, s, acts) && Exec(c, s, acts) == u;
    HistoryKeeps(c, s, acts);
    if t != u {
      var a :| Enabled(c, u, a) && t == Apply(c, u, a);
      StepKeeps(c, u, a);
      StepExtends(c, u, a);
      OneCallOrOneWrite(c, u, a);
    }
  }

  /** What one moment of a run leaves of the moment before it: the record unchanged, a row appended, or
      its last, in-flight row replaced by that attempt's outcome; and no call, or one, but never a call
      and a write together. */
  ghost predicate Follows(before: Moment, after: Moment) {
    && CheckpointExtends(RowsOf(before.stored), RowsOf(after.stored))
    && CallsExtend(before.calls, after.calls)
    && (RowsOf(after.stored) == RowsOf(before.stored) || after.calls == before.calls)
  }

  /** From a record that histories lead to, every moment of a run follows the one before it. */
  lemma {:induction false} MomentsFollow(c: Config, identity: string, start: Machine, from: nat, w: World, i: nat)
    requires WellFormed(c) && Inv(c, start) && Traced(c, identity, start, from, w)
    requires 1 <= from <= i < |w.states| && Shows(start, w.moments[from - 1])
    ensures Follows(w.moments[i - 1], w.moments[i]) && Inv(c, w.states[i])
  {
    hide Inv, Next, CheckpointExtends, CallsExtend;
    if i > from { MomentsFollow(c, identity, start, from, w, i - 1); }
    assert Linked(c, identity, start, from, w.states, w.moments, i);
    NextExtends(c, Before(start, from, w.states, i), w.states[i]);
    assert Shows(w.states[i - 1], w.moments[i - 1]) && Shows(w.states[i], w.moments[i]);
  }

  /** Any number of runs, each resumed from where the one before it was cut short. */
  ghost predicate Runs(c: Config, identity: string, cuts: seq<Moment>) {
    && cuts != [] && cuts[0] == Moment(None, [])
    && forall k :: 0 <= k < |cuts| - 1 ==> OnPath(c, identity, DownAt(cuts[k]), cuts[k + 1])
  }

  /** Any number of runs, each cut short at any moment of it, is one history of the machine. */
  lemma {:induction false} RunsAreOneHistory(c: Config, identity: string, cuts: seq<Moment>)
    requires Runs(c, identity, cuts)
    ensures OnPath(c, identity, FRESH, cuts[|cuts| - 1])
  {
    hide Reaches;
    if |cuts| == 1 {
      ReachesSelf(c, FRESH);
    } else {
      var before := cuts[..|cuts| - 1];
      assert OnPath(c, identity, DownAt(cuts[|cuts| - 2]), cuts[|cuts| - 1]);
      RunsAreOneHistory(c, identity, before);
      ReachesTransitive(c, FRESH, DownAt(cuts[|cuts| - 2]), DownAt(cuts[|cuts| - 1]));
    }
  }

  /** So wherever the last of them is cut short, the record is in order, no slot was given a second
      trajectory, and a run resumed there has checkpoints that only extend. */
  lemma CutShortAnywhere(c: Config, identity: string, cuts: seq<Moment>)
    requires WellFormed(c) && Runs(c, identity, cuts)
    ensures var m := cuts[|cuts| - 1];
            && Inv(c, DownAt(m)) && RecordOk(c, RowsOf(m.stored))
            && (forall i, j :: 0 <= i < j < |m.calls| && m.calls[i].slot == m.calls[j].slot ==>
                  m.calls[i].truth.validity != Valid && m.calls[i].truth.began != Some(true))
  {
    hide Legal, Exec, RecordOk;
    RunsAreOneHistory(c, identity, cuts);
    var t := DownAt(cuts[|cuts| - 1]);
    var acts :| Legal(c, FRESH, acts) && Exec(c, FRESH, acts) == t;
    FreshOk(c);
    HistoryKeeps(c, FRESH, acts);
    AtMostOneTrajectory(c, acts);
    assert Exec(c, FRESH, acts).calls == cuts[|cuts| - 1].calls;
  }

  // ---------------------------------------------------------------- the procedure

  /** Re-applies the live validity rule to every recorded attempt, closing slots as it goes. */
  method RebuildDone(rows: seq<Row>, stack: Stack) returns (defect: Option<Letter>, done: set<Slot>)
    ensures var k := FirstDefect(rows, stack);
            && done == DoneKeys(rows[..k])
            && defect == if k < |rows| then ValidityDefect(rows[k].evidence, stack) else None
  {
    defect, done := None, {};
    for i := 0 to |rows|
      invariant defect.None? && done == DoneKeys(rows[..i])
      invariant forall j :: 0 <= j < i ==> !Defective(rows[j], stack)
    {
      assert rows[..i + 1] == rows[..i] + [rows[i]];
      DoneAppend(rows[..i], rows[i]);
      if rows[i].evidence.validity == Valid {
        defect := ValidityDefect(rows[i].evidence, stack);
        if defect.Some? {
          assert FirstDefect(rows, stack) == i;
          return;
        }
        done := done + {rows[i].slot};
      }
    }
    assert FirstDefect(rows, stack) == |rows|;
  }

  /** Whether an earlier attempt on this slot forbids offering it again. */
  method FindUnfinished(rows: seq<Row>, key: Slot) returns (found: Option<Row>)
    ensures found.Some? <==> Interrupted(rows, key)
    ensures found.Some? ==> exists i :: 0 <= i < |rows| && found.value == rows[i] && Unfinished(rows[i], key)
                                     && forall j :: 0 <= j < i ==> !Unfinished(rows[j], key)
  {
    for i := 0 to |rows|
      invariant forall j :: 0 <= j < i ==> !Unfinished(rows[j], key)
    {
      if Unfinished(rows[i], key) { return Some(rows[i]); }
    }
    return None;
  }

  /** Writes the rows the machine has on disk at most one step on from the last moment. */
  method Checkpoint(w: World, identity: string, rows: seq<Row>,
                    ghost c: Config, ghost start: Machine, ghost from: nat, ghost g: Machine)
    requires Traced(c, identity, start, from, w)
    requires Next(c, Latest(start, from, w), g) && g.disk == rows && g.calls == w.calls
    modifies w`stored, w`moments, w`states
    ensures Traced(c, identity, start, from, w) && old(w.moments) <= w.moments
    ensures Latest(start, from, w) == g && |w.states| > from
    ensures w.stored == Some(Stored(identity, rows))
  {
    hide Next, Linked;
    LinkedAppend(c, identity, start, from, w.states, w.moments, g, Moment(Some(Stored(identity, rows)), w.calls));
    w.Write(identity, rows, g);
  }

  method Close(w: World, identity: string, rows: seq<Row>, done: set<Slot>, stop: Stop,
               ghost c: Config, ghost start: Machine, ghost from: nat)
    returns (o: Outcome)
    requires Traced(c, identity, start, from, w)
    requires Next(c, Latest(start, from, w), Machine(rows, Halted(rows, done, stop), w.calls))
    modifies w`stored, w`moments, w`states
    ensures Traced(c, identity, start, from, w) && old(w.moments) <= w.moments
    ensures w.stored == Some(Stored(identity, rows))
    ensures Reaches(c, start, Machine(rows, Halted(rows, done, stop), w.calls))
    ensures o.rows == rows && o.done == done && o.stop == stop
    ensures o.derived == Derived(rows) && o.unpriced == UnpricedRows(rows)
  {
    hide Reaches, Next;
    Checkpoint(w, identity, rows, c, start, from, Machine(rows, Halted(rows, done, stop), w.calls));
    TracedReaches(c, identity, start, from, w, |w.states| - 1);
    var derived, unpriced := Spend(rows);
    o := Outcome(rows, done, stop, derived, unpriced);
  }

  /** Where one offer of slot `pos` leaves the machine. */
  function AfterOffer(c: Config, rows: seq<Row>, done: set<Slot>, pos: nat, tried: int,
                      closed: bool, stop: Option<Stop>): Memory
    requires pos < |c.slots|
  {
    if stop.Some? then Halted(rows, done, stop.value)
    else if closed then Choosing(rows, done + {c.slots[pos]}, pos + 1)
    else Offering(rows, done, pos, tried + 1)
  }

  /** Makes the attempt, which is the machine's next moment. */
  method Ask(w: World, identity: string, slot: Slot,
             ghost c: Config, ghost start: Machine, ghost from: nat, ghost ready: Machine)
    returns (report: Evidence)
    requires Traced(c, identity, start, from, w) && ready == Latest(start, from, w) && |w.states| > from
    requires ready.mem.Ready? && ready.mem.pos < |c.slots| && c.slots[ready.mem.pos] == slot
    requires ready.mem.rows == ready.disk && ready.disk != []
    requires w.stored.Some? && w.stored.value.identity == identity
    requires var last := ready.disk[|ready.disk| - 1]; last == InFlightRow(slot, last.position, last.attempt)
    modifies w`asked, w`calls, w`moments, w`states
    ensures Traced(c, identity, start, from, w) && old(w.moments) <= w.moments && |w.states| > from
    ensures Latest(start, from, w) == Apply(c, ready, Invoke(report, old(w.bills(w.asked))))
    ensures Latest(start, from, w).calls == w.calls && |w.calls| == |old(w.calls)| + 1
  {
    hide Next, Linked, Quietly, Reaches;
    ghost var states, moments, bill := w.states, w.moments, w.bills(w.asked);
    report := w.RunAttempt(slot, c, ready);
    ghost var called := Stepped(c, ready, ready, Invoke(report, bill));
    LinkedAppend(c, identity, start, from, states, moments, called, w.Now());
  }

  /** Attempts a slot that is on disk as in flight, and replaces that row by what came back. */
  method AttemptSlot(w: World, identity: string, c: Config, measurements: seq<Row>, done: set<Slot>,
                     pos: nat, tried: int, ghost start: Machine, ghost from: nat)
    returns (rows: seq<Row>, closed: bool, stop: Option<Stop>)
    requires pos < |c.slots| && w.stored == Some(Stored(identity, measurements))
    requires Traced(c, identity, start, from, w)
    requires measurements != [] && measurements[|measurements| - 1] == InFlightRow(c.slots[pos], pos + 1, tried + 1)
    requires Latest(start, from, w) == Machine(measurements, Ready(measurements, done, pos, tried), w.calls)
    requires |w.states| > from
    modifies w
    ensures Traced(c, identity, start, from, w) && old(w.moments) <= w.moments
    ensures Latest(start, from, w) == Machine(rows, AfterOffer(c, rows, done, pos, tried, closed, stop), w.calls)
    ensures |w.calls| == |old(w.calls)| + 1
  {
    hide Reaches, Next, Quietly, Traced, ExecutionStage, ValidityDefect;
    var slot := c.slots[pos];
    ghost var ready := Latest(start, from, w);
    rows, closed, stop := measurements, false, None;

    var report := Ask(w, identity, slot, c, start, from, ready);
    ghost var returned := Stepped(c, Latest(start, from, w), Latest(start, from, w), Return);

    var inFlight := |rows| - 1;
    var recorded := RecordedRow(slot, pos + 1, tried + 1, report);
    assert rows[inFlight := recorded] == rows[..inFlight] + [recorded];
    rows := rows[inFlight := recorded];
    Checkpoint(w, identity, rows, c, start, from, returned);
    if report.validity == Valid {
      var defect := ValidityDefect(report, c.stack);
      closed := defect.None?;
      if defect.Some? { stop := Some(Defect(defect.value)); }
    } else if ExecutionStage(recorded) !in {NotOffered, BeforeLaunch} {
      stop := Some(Launched);
    } else if report.findings > 0 {
      stop := Some(Leak);
    }
  }

  /** Offers an open slot once: the ceiling, this host's executor, and state left on the host are
      checked first; then the slot is checkpointed as in flight and attempted. */
  method OfferOnce(w: World, identity: string, c: Config, measurements: seq<Row>, done: set<Slot>,
                   pos: nat, tried: int, host: Host, ghost start: Machine, ghost from: nat)
    returns (rows: seq<Row>, closed: bool, stop: Option<Stop>)
    requires pos < |c.slots| && tried < c.maxAttempts && Traced(c, identity, start, from, w)
    requires Quietly(c, Latest(start, from, w),
                     Machine(measurements, Offering(measurements, done, pos, tried), w.calls))
    modifies w
    ensures Traced(c, identity, start, from, w) && old(w.moments) <= w.moments
    ensures var g := Machine(rows, AfterOffer(c, rows, done, pos, tried, closed, stop), w.calls);
            if stop.Some? then Next(c, Latest(start, from, w), g) else Latest(start, from, w) == g
    ensures |w.calls| == |old(w.calls)| || (|w.calls| == |old(w.calls)| + 1 && Fit(c, host))
  {
    hide Reaches, Next, Quietly, Traced, Complete, Eligible, ExecutionStage, ValidityDefect, Fit;
    EligibleHostIsFit(c, host);
    var slot := c.slots[pos];
    ghost var g := Machine(measurements, Offering(measurements, done, pos, tried), w.calls);
    g := Stepped(c, Latest(start, from, w), g, Offer(host));
    rows, closed, stop := measurements, false, None;

    var derived, unpriced := Spend(rows);
    if c.budget.Some? && (unpriced != [] || derived + c.reserve > c.budget.value) {
      rows := rows + [RefusedRow(slot, pos + 1, tried + 1)];
      stop := Some(Ceiling);
      return;
    }
    if !Eligible(host, c.stack) {
      stop := Some(Executor);
      return;
    }
    if host.residue {
      rows := rows + [RefusedRow(slot, pos + 1, tried + 1)];
      stop := Some(Residue);
      return;
    }
    // The slot is on disk as in flight before anything is launched for it.
    rows := rows + [InFlightRow(slot, pos + 1, tried + 1)];
    Checkpoint(w, identity, rows, c, start, from, g);
    rows, closed, stop := AttemptSlot(w, identity, c, rows, done, pos, tried, start, from);
    if stop.Some? {
      QuietlySelf(c, Latest(start, from, w));
      QuietlyNext(c, Latest(start, from, w), Latest(start, from, w));
    }
  }

  lemma EligibleHostIsFit(c: Config, host: Host)
    ensures Eligible(host, c.stack) && !host.residue <==> Fit(c, host)
  {
    EligibleIff(c, host);
  }

  /** The looks, all before look `last` and one after the other, at which calls were made: each saw a host
      fit to be launched on. */
  ghost predicate FitLooks(c: Config, hosts: nat -> Host, looks: seq<nat>, last: nat) {
    && (forall i :: 0 <= i < |looks| ==> looks[i] < last && Fit(c, hosts(looks[i])))
    && (forall i, j :: 0 <= i < j < |looks| ==> looks[i] < looks[j])
  }

  /** Offers an open slot until it is closed, the run stops, or its attempts are used up. */
  method FillSlot(w: World, identity: string, c: Config, hosts: nat -> Host, looked: nat, measurements: seq<Row>,
                  closed: set<Slot>, pos: nat, ghost start: Machine, ghost from: nat, ghost before: seq<nat>)
    returns (rows: seq<Row>, done: set<Slot>, looks: nat, stop: Option<Stop>, ghost fit: seq<nat>)
    requires pos < |c.slots| && c.slots[pos] !in closed && Traced(c, identity, start, from, w)
    requires FitLooks(c, hosts, before, looked)
    requires var tried := Offered(measurements, c.slots[pos]);
             Quietly(c, Latest(start, from, w),
                     Machine(measurements, Offering(measurements, closed, pos, tried), w.calls))
    modifies w
    ensures Traced(c, identity, start, from, w) && old(w.moments) <= w.moments
    ensures stop.Some? ==> Next(c, Latest(start, from, w), Machine(rows, Halted(rows, done, stop.value), w.calls))
    ensures stop.None? ==> Quietly(c, Latest(start, from, w), Machine(rows, Choosing(rows, done, pos + 1), w.calls))
    ensures FitLooks(c, hosts, fit, looks) && |fit| - |before| == |w.calls| - |old(w.calls)|
  {
    hide Reaches, Next, Quietly, Traced, OfferStep, Offered, Fit, FitLooks;
    fit := before;
    var slot := c.slots[pos];
    rows, done, looks, stop := measurements, closed, looked, None;
    var tried: int := CountOffered(rows, slot);
    while slot !in done && tried < c.maxAttempts
      invariant Traced(c, identity, start, from, w) && old(w.moments) <= w.moments
      invariant slot !in done ==>
                  Quietly(c, Latest(start, from, w), Machine(rows, Offering(rows, done, pos, tried), w.calls))
      invariant slot in done ==>
                  Quietly(c, Latest(start, from, w), Machine(rows, Choosing(rows, done, pos + 1), w.calls))
      invariant stop.None?
      invariant FitLooks(c, hosts, fit, looks) && |fit| - |before| == |w.calls| - |old(w.calls)|
      decreases slot !in done, c.maxAttempts - tried
    {
      var closes;
      ghost var made := |w.calls|;
      rows, closes, stop := OfferOnce(w, identity, c, rows, done, pos, tried, hosts(looks), start, from);
      if |w.calls| > made {
        OneMoreLook(c, hosts, fit, looks);
        fit := fit + [looks];
      }
      NoLookLost(c, hosts, fit, looks);
      looks := looks + 1;
      if stop.Some? { return; }
      QuietlySelf(c, Latest(start, from, w));
      if closes { done := done + {slot}; } else { tried := tried + 1; }
    }
    if slot !in done {
      ghost var g := Machine(rows, Offering(rows, done, pos, tried), w.calls);
      ExhaustedStops(c, g, hosts(looks));
      g := Stepped(c, Latest(start, from, w), g, Offer(hosts(looks)));
      stop := Some(Exhausted);
    }
  }

  /** One run, resuming whatever is on disk. Hosts and the attempt function answer in the order they
      are asked, whatever they like. Each moment of the run is the machine's next one after the moment
      before it, starting from the record it found; and each attempt was made on a host it had looked
      at for that attempt, of the frozen executor and with nothing left on it. */
  method RunBoundedSeries(w: World, identity: string, c: Config, hosts: nat -> Host)
    returns (r: Result<Outcome, LoadError>, ghost looks: seq<nat>)
    requires WellFormed(c) && w.Valid()
    modifies w
    ensures w.Valid() && old(w.moments) <= w.moments
    ensures r.Err? <==> old(w.stored).Some? && old(w.stored).value.identity != identity
    ensures r.Err? ==> w.Now() == old(w.Now()) && w.moments == old(w.moments)
    ensures r.Ok? ==> Traced(c, identity, DownAt(old(w.Now())), |old(w.moments)|, w)
    ensures r.Ok? ==>
              forall i :: |old(w.moments)| <= i < |w.moments| ==>
                OnPath(c, identity, DownAt(old(w.Now())), w.moments[i])
    ensures r.Ok? && Inv(c, DownAt(old(w.Now()))) ==>
              forall i :: |old(w.moments)| <= i < |w.moments| ==> Follows(w.moments[i - 1], w.moments[i])
    ensures r.Ok? ==>
              var o := r.value;
              && w.stored == Some(Stored(identity, o.rows))
              && Reaches(c, DownAt(old(w.Now())), Machine(o.rows, Halted(o.rows, o.done, o.stop), w.calls))
              && o.derived == Derived(o.rows) && o.unpriced == UnpricedRows(o.rows)
    ensures |looks| == |w.calls| - |old(w.calls)|
    ensures forall i, j :: 0 <= i < j < |looks| ==> looks[i] < looks[j]
    ensures forall i :: 0 <= i < |looks| ==> Fit(c, hosts(looks[i]))
  {
    hide Reaches, Next, OnPath, Follows, Inv, Fit;
    looks := [];
    var loaded := w.Load(identity);
    if loaded.Err? { return Err(loaded.error), []; }
    ghost var start, from := DownAt(w.Now()), |w.moments|;
    ghost var looked;
    var o;
    o, looks, looked := FillSlots(w, identity, c, hosts, loaded.value, start, from);
    forall i | from <= i < |w.moments| ensures OnPath(c, identity, start, w.moments[i]) {
      TracedIsOnPath(c, identity, start, from, w, i);
    }
    if Inv(c, start) {
      assert w.moments[from - 1] == old(w.moments)[from - 1];
      forall i | from <= i < |w.moments| ensures Follows(w.moments[i - 1], w.moments[i]) {
        MomentsFollow(c, identity, start, from, w, i);
      }
    }
    r := Ok(o);
  }

  lemma OneMoreLook(c: Config, hosts: nat -> Host, looks: seq<nat>, last: nat)
    requires FitLooks(c, hosts, looks, last) && Fit(c, hosts(last))
    ensures FitLooks(c, hosts, looks + [last], last + 1)
  {
    hide Fit;
  }

  lemma NoLookLost(c: Config, hosts: nat -> Host, looks: seq<nat>, last: nat)
    ensures FitLooks(c, hosts, looks, last) ==> FitLooks(c, hosts, looks, last + 1)
  {
    hide Fit;
  }

  lemma NothingLooked(c: Config, hosts: nat -> Host)
    ensures FitLooks(c, hosts, [], 0)
  {
  }

  /** The run after its record has been loaded: the recorded stops, then slot after slot. */
  method FillSlots(w: World, identity: string, c: Config, hosts: nat -> Host, loaded: seq<Row>,
                   ghost start: Machine, ghost from: nat)
    returns (o: Outcome, ghost fit: seq<nat>, ghost looked: nat)
    requires WellFormed(c) && Traced(c, identity, start, from, w) && from == |w.states|
    requires start == Machine(loaded, Down, w.calls)
    modifies w
    ensures Traced(c, identity, start, from, w) && old(w.moments) <= w.moments
    ensures w.stored == Some(Stored(identity, o.rows))
    ensures Reaches(c, start, Machine(o.rows, Halted(o.rows, o.done, o.stop), w.calls))
    ensures o.derived == Derived(o.rows) && o.unpriced == UnpricedRows(o.rows)
    ensures FitLooks(c, hosts, fit, looked) && |fit| == |w.calls| - |old(w.calls)|
  {
    hide FitLooks, Reaches, Next, Quietly, Traced, OverBudget, ValidityDefect, FirstDefect, DoneKeys, Interrupted,
         OfferStep;
    var rows := loaded;
    fit, looked := [], 0;
    assert FitLooks(c, hosts, fit, looked) by { NothingLooked(c, hosts); }
    var defect, done := RebuildDone(rows, c.stack);
    ghost var g := Stepped(c, start, start, Boot);
    if defect.Some? {
      o := Close(w, identity, rows, done, Defect(defect.value), c, start, from);
      return;
    }
    assert rows[..|rows|] == rows;

    var pos, looks := 0, 0;
    while pos < |c.slots|
      invariant pos <= |c.slots|
      invariant Traced(c, identity, start, from, w) && old(w.moments) <= w.moments
      invariant Quietly(c, Latest(start, from, w), Machine(rows, Choosing(rows, done, pos), w.calls))
      invariant FitLooks(c, hosts, fit, looks) && looked == looks && |fit| == |w.calls| - |old(w.calls)|
    {
      var slot := c.slots[pos];
      g := Stepped(c, Latest(start, from, w), Machine(rows, Choosing(rows, done, pos), w.calls), Choose);
      if slot in done {
        pos := pos + 1;
        continue;
      }
      var interrupted := FindUnfinished(rows, slot);
      if interrupted.Some? {
        o := Close(w, identity, rows, done, Reentered, c, start, from);
        return;
      }
      var stop;
      rows, done, looks, stop, fit :=
        FillSlot(w, identity, c, hosts, looks, rows, done, pos, start, from, fit);
      looked := looks;
      if stop.Some? {
        o := Close(w, identity, rows, done, stop.value, c, start, from);
        return;
      }
      pos := pos + 1;
    }
    g := Stepped(c, Latest(start, from, w), Machine(rows, Choosing(rows, done, pos), w.calls), Choose);
    o := Close(w, identity, rows, done, Finished, c, start, from);
  }

  lemma ExhaustedStops(c: Config, s: Machine, host: Host)
    requires Enabled(c, s, Offer(host)) && s.mem.tried >= c.maxAttempts
    ensures OfferStep(c, s, host) == Halt(s, s.mem.rows, s.mem.done, Exhausted)
  {
  }

  /** One more action on from where the last moment quietly leads. */
  ghost method Stepped(c: Config, s: Machine, g: Machine, a: Action) returns (t: Machine)
    requires (g == s || Quietly(c, s, g)) && Enabled(c, g, a)
    ensures t == Apply(c, g, a) && Next(c, s, t)
    ensures t.disk == g.disk && t.calls == g.calls ==> Quietly(c, s, t)
  {
    hide Apply, Enabled, Reaches;
    if g == s { QuietlySelf(c, s); }
    StepNext(c, s, g, a);
    ReachesStep(c, s, g, a);
    t := Apply(c, g, a);
  }

  method CountOffered(rows: seq<Row>, key: Slot) returns (n: nat)
    ensures n == Offered(rows, key)
  {
    n := 0;
    for i := 0 to |rows|
      invariant n == Offered(rows[..i], key)
    {
      assert rows[..i + 1][..i] == rows[..i];
      if rows[i].slot == key && ExecutionStage(rows[i]) != NotOffered { n := n + 1; }
    }
    assert rows[..|rows|] == rows;
  }

  /** A run resumed from a record whose verdict is a stop launches nothing and stops on the same
      condition, whatever the host and the attempts would have answered. */
  lemma StoppedRecordRunsNothing(c: Config, rows: seq<Row>, past: seq<Call>, end: Machine)
    requires VerdictOf(c, rows).Stops? && end.mem.Halted?
    requires Reaches(c, Machine(rows, Down, past), end)
    ensures end.calls == past && end.mem.stop.Condition() == VerdictOf(c, rows).stop.Condition()
  {
    hide OnCourse, VerdictOf;
    var start := Machine(rows, Down, past);
    var acts :| Legal(c, start, acts) && Exec(c, start, acts) == end;
    var l := VerdictOf(c, rows).stop.Condition();
    DownIsOnCourse(c, start);
    CourseHolds(c, start, acts, l);
    CourseEnds(c, end, l);
  }

  lemma DownIsOnCourse(c: Config, s: Machine)
    requires s.mem.Down? && VerdictOf(c, s.disk).Stops?
    ensures OnCourse(c, s, VerdictOf(c, s.disk).stop.Condition())
  {
    hide VerdictOf;
  }

  lemma CourseEnds(c: Config, s: Machine, l: Option<Letter>)
    requires s.mem.Halted? && OnCourse(c, s, l)
    ensures s.mem.stop.Condition() == l
  {
    hide VerdictOf;
  }
}
