/** Restarting a stopped series: which stops are a property of the record, and which are lost with
    the process that noticed them. */
module SeriesRestart {
  import opened Common
  import opened SeriesRecord
  import opened SeriesMachine
  import opened SeriesSafety

  /** What a run on this record does before anything outside the record is consulted. */
  datatype Verdict = Stops(stop: Stop) | Asks(pos: nat)

  function FirstOpenFrom(c: Config, done: set<Slot>, pos: nat): (p: nat)
    requires pos <= |c.slots|
    ensures pos <= p <= |c.slots|
    ensures forall q :: pos <= q < p ==> c.slots[q] in done
    ensures p < |c.slots| ==> c.slots[p] !in done
    decreases |c.slots| - pos
  {
    if pos < |c.slots| && c.slots[pos] in done then FirstOpenFrom(c, done, pos + 1) else pos
  }

  function VerdictOf(c: Config, rows: seq<Row>): Verdict {
    var k := FirstDefect(rows, c.stack);
    var p := FirstOpenFrom(c, DoneKeys(rows), 0);
    if k < |rows| then Stops(Defect(ValidityDefect(rows[k].evidence, c.stack).value))
    else if p == |c.slots| then Stops(Finished)
    else if Interrupted(rows, c.slots[p]) then Stops(Reentered)
    else if Offered(rows, c.slots[p]) >= c.maxAttempts then Stops(Exhausted)
    else if OverBudget(c, rows) then Stops(Ceiling)
    else Asks(p)
  }

  /** The stops a restart reads back from the record. `Launched` is among them exactly when the
      attempt it stopped on reported `trajectory_began`; what the host or a failed attempt's own
      preflight showed is never read back. */
  predicate Recorded(stop: Stop, rows: seq<Row>) {
    match stop
    case Launched => rows != [] && rows[|rows| - 1].evidence.began.Some?
    case Executor => false
    case Residue => false
    case Leak => false
    case _ => true
  }

  /** Whatever happens next - restarts, kills, other hosts, other attempts - nothing is ever called
      again and every later run stops on the same condition. */
  ghost predicate Permanent(c: Config, s: Machine)
    requires s.mem.Halted?
  {
    forall acts :: Legal(c, s, acts) ==>
      var t := Exec(c, s, acts);
      t.calls == s.calls && (t.mem.Halted? ==> t.mem.stop.Condition() == s.mem.stop.Condition())
  }

  // ---------------------------------------------------------------- a verdict governs the run

  ghost predicate OnCourse(c: Config, s: Machine, l: Option<Letter>) {
    && VerdictOf(c, s.disk).Stops?
    && VerdictOf(c, s.disk).stop.Condition() == l
    && match s.mem
       case Down => true
       case Choosing(rows, done, pos) =>
         && rows == s.disk && done == DoneKeys(rows) && FirstDefect(rows, c.stack) == |rows|
         && pos <= FirstOpenFrom(c, done, 0)
       case Offering(rows, done, pos, tried) =>
         && rows == s.disk && done == DoneKeys(rows) && FirstDefect(rows, c.stack) == |rows|
         && pos == FirstOpenFrom(c, done, 0) < |c.slots|
         && !Interrupted(rows, c.slots[pos])
         && tried == Offered(rows, c.slots[pos])
       case Ready(_, _, _, _) => false
       case Calling(_, _, _, _, _) => false
       case Halted(rows, _, stop) => rows == s.disk && stop.Condition() == l
  }

  lemma RefusalKeepsVerdict(c: Config, rows: seq<Row>, r: Row)
    requires r.evidence.validity != Valid && r.evidence.began != Some(true) && r.evidence.cost.None?
    requires ExecutionStage(r) == NotOffered
    ensures VerdictOf(c, rows + [r]) == VerdictOf(c, rows)
  {
    hide Complete, Interrupted, Defective, ValidityDefect;
    var grown := rows + [r];
    var p := FirstOpenFrom(c, DoneKeys(rows), 0);
    assert grown[..|rows|] == rows;
    RefusalKeepsDefect(c, rows, r);
    DoneAppend(rows, r);
    CompleteAppend(rows, r);
    if p < |c.slots| {
      InterruptedAppend(rows, r, c.slots[p]);
      OfferedAppend(rows, r, c.slots[p]);
    }
  }

  lemma RefusalKeepsDefect(c: Config, rows: seq<Row>, r: Row)
    requires r.evidence.validity != Valid
    ensures var k := FirstDefect(rows, c.stack);
            FirstDefect(rows + [r], c.stack) == if k < |rows| then k else |rows| + 1
  {
  }

  lemma BootCourse(c: Config, s: Machine, l: Option<Letter>)
    requires Enabled(c, s, Boot) && OnCourse(c, s, l)
    ensures OnCourse(c, BootStep(c, s), l)
  {
    hide OverBudget, Interrupted, ValidityDefect, DoneKeys, Offered, FirstOpenFrom;
    assert s.disk[..|s.disk|] == s.disk;
  }

  lemma ChooseCourse(c: Config, s: Machine, l: Option<Letter>)
    requires Enabled(c, s, Choose) && OnCourse(c, s, l)
    ensures OnCourse(c, ChooseStep(c, s), l)
  {
    hide OverBudget, Interrupted, ValidityDefect, DoneKeys, Offered, FirstDefect;
  }

  lemma OfferCourse(c: Config, s: Machine, host: Host, l: Option<Letter>)
    requires Enabled(c, s, Offer(host)) && OnCourse(c, s, l)
    ensures OnCourse(c, OfferStep(c, s, host), l)
  {
    hide OverBudget, Interrupted, ValidityDefect, DoneKeys, Offered, FirstDefect, FirstOpenFrom, Eligible;
    var Offering(rows, done, pos, tried) := s.mem;
    RefusalKeepsVerdict(c, rows, RefusedRow(c.slots[pos], pos + 1, tried + 1));
  }

  lemma CourseStep(c: Config, s: Machine, a: Action, l: Option<Letter>)
    requires Enabled(c, s, a) && OnCourse(c, s, l)
    ensures OnCourse(c, Apply(c, s, a), l) && Apply(c, s, a).calls == s.calls
  {
    hide OverBudget, Interrupted, ValidityDefect, DoneKeys, Offered, FirstDefect, FirstOpenFrom, Eligible, VerdictOf;
    match a
    case Boot => BootCourse(c, s, l);
    case Choose => ChooseCourse(c, s, l);
    case Offer(host) => OfferCourse(c, s, host, l);
    case _ =>
  }

  lemma {:induction false} CourseHolds(c: Config, s: Machine, acts: seq<Action>, l: Option<Letter>)
    requires Legal(c, s, acts) && OnCourse(c, s, l)
    ensures OnCourse(c, Exec(c, s, acts), l) && Exec(c, s, acts).calls == s.calls
  {
    if acts != [] {
      hide OnCourse, Enabled, Apply;
      var before := acts[..|acts| - 1];
      CourseHolds(c, s, before, l);
      CourseStep(c, Exec(c, s, before), acts[|acts| - 1], l);
    }
  }

  // ---------------------------------------------------------------- the verdict after each stop

  lemma FirstOpenUnique(c: Config, rows: seq<Row>, p: nat)
    requires FirstOpen(c, rows, p)
    ensures FirstOpenFrom(c, DoneKeys(rows), 0) == p
  {
  }

  lemma CleanHasNoDefect(c: Config, rows: seq<Row>)
    requires Clean(c, rows)
    ensures FirstDefect(rows, c.stack) == |rows|
  {
  }

  /** An invalid row written for the first open slot leaves that slot the first open one. */
  lemma LastRowVerdict(c: Config, rows: seq<Row>)
    requires rows != [] && OpenBefore(c, rows) && rows[|rows| - 1].evidence.validity != Valid
    ensures var last := rows[|rows| - 1];
            var p := last.position - 1;
            && p < |c.slots| && c.slots[p] == last.slot
            && FirstDefect(rows, c.stack) == |rows|
            && FirstOpenFrom(c, DoneKeys(rows), 0) == p
            && (Interrupted(rows, last.slot) <==> Unfinished(last, last.slot))
            && Offered(rows, last.slot) ==
               Offered(rows[..|rows| - 1], last.slot) + (if ExecutionStage(last) != NotOffered then 1 else 0)
  {
    hide RecordOk, Interrupted, ExecutionStage, ValidityDefect;
    var last := rows[|rows| - 1];
    var init := rows[..|rows| - 1];
    assert init + [last] == rows;
    DoneAppend(init, last);
    InterruptedAppend(init, last, last.slot);
    OfferedAppend(init, last, last.slot);
    assert FirstOpen(c, rows, last.position - 1);
    FirstOpenUnique(c, rows, last.position - 1);
    assert Clean(c, rows);
    CleanHasNoDefect(c, rows);
  }

  /** A stop is read back with its own condition exactly when it is one the record carries. */
  lemma VerdictAfterStop(c: Config, rows: seq<Row>, stop: Stop)
    requires StopExplained(c, rows, stop)
    ensures Recorded(stop, rows) <==>
            VerdictOf(c, rows).Stops? && VerdictOf(c, rows).stop.Condition() == stop.Condition()
  {
    hide RecordOk, Interrupted, ValidityDefect, DoneKeys, Defective, Offered, Complete, FirstDefect;
    match stop
    case Finished => CleanHasNoDefect(c, rows);
    case Defect(l) =>
    case Reentered =>
      CleanHasNoDefect(c, rows);
      var p: nat :| FirstOpen(c, rows, p) && Interrupted(rows, c.slots[p]);
      FirstOpenUnique(c, rows, p);
    case Exhausted =>
      var p: nat :| OpenFirst(c, rows, p) && Offered(rows, c.slots[p]) >= c.maxAttempts;
      CleanHasNoDefect(c, rows);
      FirstOpenUnique(c, rows, p);
    case Executor =>
      var p: nat :| OpenFirst(c, rows, p) && Offered(rows, c.slots[p]) < c.maxAttempts && !OverBudget(c, rows);
      CleanHasNoDefect(c, rows);
      FirstOpenUnique(c, rows, p);
    case Launched =>
      LastRowVerdict(c, rows);
      var began := rows[|rows| - 1].evidence.began;
      assert began.Some? && !began.value ==> began == Some(false);
    case Leak => LastRowVerdict(c, rows);
    case Ceiling =>
      LastRowVerdict(c, rows);
      RefusedAccount(c, rows);
    case Residue =>
      LastRowVerdict(c, rows);
      RefusedAccount(c, rows);
  }

  lemma RefusedAccount(c: Config, rows: seq<Row>)
    requires rows != [] && rows[|rows| - 1].evidence.cost.None? && ExecutionStage(rows[|rows| - 1]) == NotOffered
    ensures OverBudget(c, rows) <==> OverBudget(c, rows[..|rows| - 1])
  {
  }

  // ---------------------------------------------------------------- reaching what a verdict promises

  /** The actions that take a stopped series back to its first open slot. */
  function Resume(p: nat): seq<Action> {
    if p == 0 then [Boot] else Resume(p - 1) + [Choose]
  }

  lemma {:induction false} ResumeReaches(c: Config, s: Machine, p: nat)
    requires s.mem.Halted? && FirstDefect(s.disk, c.stack) == |s.disk|
    requires p <= |c.slots| && forall q: nat :: q < p ==> c.slots[q] in DoneKeys(s.disk)
    ensures Legal(c, s, Resume(p))
    ensures Exec(c, s, Resume(p)) == s.(mem := Choosing(s.disk, DoneKeys(s.disk), p))
  {
    hide DoneKeys, Legal, Exec, FirstDefect, ValidityDefect, Interrupted;
    assert s.disk[..|s.disk|] == s.disk;
    if p == 0 {
      ExecNothing(c, s);
      ExecAppend(c, s, [], Boot);
      assert [] + [Boot] == [Boot];
    } else {
      ResumeReaches(c, s, p - 1);
      ExecAppend(c, s, Resume(p - 1), Choose);
    }
  }

  lemma ExecNothing(c: Config, s: Machine)
    ensures Legal(c, s, []) && Exec(c, s, []) == s
  {
  }

  lemma ExecAppend(c: Config, s: Machine, acts: seq<Action>, a: Action)
    requires Legal(c, s, acts) && Enabled(c, Exec(c, s, acts), a)
    ensures Legal(c, s, acts + [a]) && Exec(c, s, acts + [a]) == Apply(c, Exec(c, s, acts), a)
  {
    var more := acts + [a];
    assert more[..|more| - 1] == acts;
  }

  /** A run that may ask for its first open slot can be given a host and an attempt: it calls. */
  lemma AskingMayCall(c: Config, s: Machine)
    requires s.mem.Halted? && VerdictOf(c, s.disk).Asks?
    ensures exists acts :: Legal(c, s, acts) && Exec(c, s, acts).calls != s.calls
  {
    hide DoneKeys, Interrupted, OverBudget, Legal, Exec, FirstOpenFrom, Offered, FirstDefect, ValidityDefect, Complete;
    var p := VerdictOf(c, s.disk).pos;
    ResumeReaches(c, s, p);
    var good := Host(Some(LowerAscii(c.stack.executor)), false);
    var attempt := Invoke(Nothing(HarnessFailure, Some(false)), 0);
    var a1 := Resume(p);
    ExecAppend(c, s, a1, Choose);
    ExecAppend(c, s, a1 + [Choose], Offer(good));
    ExecAppend(c, s, a1 + [Choose] + [Offer(good)], attempt);
  }

  /** A run whose verdict is a stop does come to that stop. */
  lemma StoppingDoesStop(c: Config, s: Machine)
    requires s.mem.Halted? && VerdictOf(c, s.disk).Stops?
    ensures exists acts :: Legal(c, s, acts) && Exec(c, s, acts).mem.Halted?
                        && Exec(c, s, acts).mem.stop == VerdictOf(c, s.disk).stop
  {
    hide DoneKeys, Interrupted, OverBudget, ValidityDefect, Legal, Exec, FirstOpenFrom, Offered, Eligible;
    if FirstDefect(s.disk, c.stack) < |s.disk| {
      ExecNothing(c, s);
      ExecAppend(c, s, [], Boot);
    } else {
      var p := FirstOpenFrom(c, DoneKeys(s.disk), 0);
      var a1 := Resume(p);
      ResumeReaches(c, s, p);
      ExecAppend(c, s, a1, Choose);
      var t := Exec(c, s, a1 + [Choose]);
      if t.mem.Offering? {
        ExecAppend(c, s, a1 + [Choose], Offer(Host(None, true)));
      }
    }
  }

  // ---------------------------------------------------------------- the theorems

  /** A stop of a reachable series is permanent exactly when the record carries it: B, C on an
      attempt that reported `trajectory_began` or never came back, J, D to I on a completed attempt,
      and having finished. */
  lemma StopIsPermanentIff(c: Config, history: seq<Action>)
    requires WellFormed(c) && Legal(c, FRESH, history) && Exec(c, FRESH, history).mem.Halted?
    ensures var s := Exec(c, FRESH, history);
            Permanent(c, s) <==> Recorded(s.mem.stop, s.disk)
  {
    var s := Exec(c, FRESH, history);
    FreshOk(c);
    HistoryKeeps(c, FRESH, history);
    StoppedIsPermanentIff(c, s);
  }

  lemma StoppedIsPermanentIff(c: Config, s: Machine)
    requires Inv(c, s) && s.mem.Halted?
    ensures Permanent(c, s) <==> Recorded(s.mem.stop, s.disk)
  {
    hide RecordOk, CallsRecorded, CallsCounted, StopExplained, VerdictOf, Recorded;
    var l := s.mem.stop.Condition();
    VerdictAfterStop(c, s.disk, s.mem.stop);
    if Recorded(s.mem.stop, s.disk) {
      forall acts | Legal(c, s, acts)
        ensures Exec(c, s, acts).calls == s.calls
        ensures Exec(c, s, acts).mem.Halted? ==> Exec(c, s, acts).mem.stop.Condition() == l
      {
        CourseHolds(c, s, acts, l);
      }
    } else if VerdictOf(c, s.disk).Stops? {
      StoppingDoesStop(c, s);
    } else {
      AskingMayCall(c, s);
    }
  }

  /** Attempts that always say whether the launcher was entered, as the boundary's own attempt does,
      make every C permanent. */
  lemma ClassifiedAttemptsStayStopped(c: Config, history: seq<Action>)
    requires WellFormed(c) && Legal(c, FRESH, history)
    requires var s := Exec(c, FRESH, history);
             && s.mem.Halted? && s.mem.stop.Condition() == Some(C)
             && forall i :: 0 <= i < |s.calls| ==> s.calls[i].truth.began.Some?
    ensures Permanent(c, Exec(c, FRESH, history))
  {
    hide Legal, Exec;
    var s := Exec(c, FRESH, history);
    StopIsPermanentIff(c, history);
    FreshOk(c);
    HistoryKeeps(c, FRESH, history);
    if s.mem.stop == Launched { LastCallOfLaunched(c, history); }
  }

  /** A run stops on the attempt it has just made: that attempt is the last call. */
  lemma LastCallOfLaunched(c: Config, history: seq<Action>)
    requires WellFormed(c) && Legal(c, FRESH, history)
    requires var s := Exec(c, FRESH, history); s.mem.Halted? && s.mem.stop == Launched
    ensures var s := Exec(c, FRESH, history);
            && s.disk != [] && s.calls != []
            && s.disk[|s.disk| - 1].evidence == s.calls[|s.calls| - 1].truth
  {
    hide Inv, Apply, Enabled;
    var before := history[..|history| - 1];
    FreshOk(c);
    HistoryKeeps(c, FRESH, before);
    OnlyReturnLaunches(c, Exec(c, FRESH, before), history[|history| - 1]);
  }

  lemma OnlyReturnLaunches(c: Config, s: Machine, a: Action)
    requires WellFormed(c) && Inv(c, s) && Enabled(c, s, a)
    requires var t := Apply(c, s, a); t.mem.Halted? && t.mem.stop == Launched
    ensures var t := Apply(c, s, a);
            && t.disk != [] && t.calls != []
            && t.disk[|t.disk| - 1].evidence == t.calls[|t.calls| - 1].truth
  {
    hide RecordOk, CallsRecorded, CallsCounted, OpenAt, OverBudget, StopExplained, FirstDefect, ValidityDefect,
         ExecutionStage, DoneKeys, Interrupted, Eligible;
    assert a == Return;
  }

  const ONE_SLOT := Config([Slot("full", 1)], Stack(map[], "e"), None, 0, 3)

  function OneAttempt(report: Evidence): seq<Action> {
    [Boot, Choose, Offer(Host(Some("e"), false)), Invoke(report, 0), Return]
  }

  /** Both exceptions happen: an attempt that does not say whether it began stops its run on C, and
      a failed attempt whose preflight found a leak stops its run on G, and neither stop is kept. */
  lemma TwoStopsAreLost()
    ensures var unsaid := OneAttempt(Nothing(HarnessFailure, None));
            && Legal(ONE_SLOT, FRESH, unsaid)
            && var s := Exec(ONE_SLOT, FRESH, unsaid);
               s.mem.Halted? && s.mem.stop == Launched && !Permanent(ONE_SLOT, s)
    ensures var leaky := OneAttempt(Nothing(SetupFailure, Some(false)).(findings := 1));
            && Legal(ONE_SLOT, FRESH, leaky)
            && var s := Exec(ONE_SLOT, FRESH, leaky);
               s.mem.Halted? && s.mem.stop == Leak && !Permanent(ONE_SLOT, s)
  {
    var unsaid := Nothing(HarnessFailure, None);
    OneAttemptRuns(unsaid);
    StopIsPermanentIff(ONE_SLOT, OneAttempt(unsaid));
    var leaky := Nothing(SetupFailure, Some(false)).(findings := 1);
    OneAttemptRuns(leaky);
    StopIsPermanentIff(ONE_SLOT, OneAttempt(leaky));
  }

  const ONE_ENTERED := [InFlightRow(Slot("full", 1), 1, 1)]

  lemma OneSlotIsEntered()
    ensures var acts := [Boot, Choose, Offer(Host(Some("e"), false))];
            && Legal(ONE_SLOT, FRESH, acts)
            && Exec(ONE_SLOT, FRESH, acts) == Machine(ONE_ENTERED, Ready(ONE_ENTERED, {}, 0, 0), [])
  {
    hide Legal, Exec;
    var c := ONE_SLOT;
    var host := Host(Some("e"), false);
    ExecNothing(c, FRESH);
    ExecAppend(c, FRESH, [], Boot);
    assert [] + [Boot] == [Boot] && DoneKeys([]) == {};
    assert Exec(c, FRESH, [Boot]) == Machine([], Choosing([], {}, 0), []);
    ExecAppend(c, FRESH, [Boot], Choose);
    assert [Boot] + [Choose] == [Boot, Choose];
    assert Exec(c, FRESH, [Boot, Choose]) == Machine([], Offering([], {}, 0, 0), []);
    assert LowerAscii("e") == "e" && !OverBudget(c, []);
    ExecAppend(c, FRESH, [Boot, Choose], Offer(host));
    assert [Boot, Choose] + [Offer(host)] == [Boot, Choose, Offer(host)];
    assert [] + ONE_ENTERED == ONE_ENTERED;
  }

  lemma OneAttemptRuns(report: Evidence)
    requires report.validity != Valid && report.began != Some(true)
    requires report.began.None? || report.findings > 0
    ensures Legal(ONE_SLOT, FRESH, OneAttempt(report))
    ensures var s := Exec(ONE_SLOT, FRESH, OneAttempt(report));
            && s.mem.Halted? && s.mem.stop == (if report.began.None? then Launched else Leak)
            && s.disk == [RecordedRow(Slot("full", 1), 1, 1, report)]
  {
    hide Legal, Exec, ExecutionStage;
    var c := ONE_SLOT;
    var acts := [Boot, Choose, Offer(Host(Some("e"), false))];
    var recorded := RecordedRow(Slot("full", 1), 1, 1, report);
    RecordedStage(Slot("full", 1), 1, 1, report);
    OneSlotIsEntered();
    ExecAppend(c, FRESH, acts, Invoke(report, 0));
    ExecAppend(c, FRESH, acts + [Invoke(report, 0)], Return);
    assert acts + [Invoke(report, 0)] + [Return] == OneAttempt(report);
    assert ONE_ENTERED[..0] + [recorded] == [recorded];
    assert report.began.Some? ==> report.began == Some(false) by { if report.began.Some? && report.began.value {} }
  }
}
