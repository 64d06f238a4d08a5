/** The ceiling, over every history of runs, kills and restarts: not on what the record says was
    spent, but on what the attempts really cost. */
module SeriesMoney {
  import opened Common
  import opened SeriesRecord
  import opened SeriesMachine
  import opened SeriesSafety

  function TotalPaid(calls: seq<Call>): int {
    if calls == [] then 0 else TotalPaid(calls[..|calls| - 1]) + calls[|calls| - 1].paid
  }

  /** A reported cost is what was paid, and an attempt that says it never entered the launcher and
      reports no cost paid nothing. Nothing is assumed of an attempt that reports no cost after that. */
  predicate HonestCall(call: Call) {
    && (call.truth.cost.Some? ==> call.paid == call.truth.cost.value)
    && (call.truth.cost.None? && call.truth.began == Some(false) ==> call.paid == 0)
  }

  predicate Honest(calls: seq<Call>) {
    forall i :: 0 <= i < |calls| ==> HonestCall(calls[i])
  }

  predicate WithinReserve(c: Config, calls: seq<Call>) {
    forall i :: 0 <= i < |calls| ==> calls[i].paid <= c.reserve
  }

  /** A complete account is the whole of what was paid. */
  ghost predicate Settled(rows: seq<Row>, calls: seq<Call>) {
    Complete(rows) ==> Derived(rows) == TotalPaid(calls)
  }

  ghost predicate UnderCeiling(c: Config, calls: seq<Call>) {
    c.budget.Some? && calls != [] ==> TotalPaid(calls) <= c.budget.value
  }

  ghost predicate MoneyInv(c: Config, s: Machine) {
    && UnderCeiling(c, s.calls)
    && match s.mem
       case Ready(rows, _, _, _) => rows != [] && Settled(rows[..|rows| - 1], s.calls)
       case Calling(rows, _, _, _, _) =>
         rows != [] && s.calls != [] && Settled(rows[..|rows| - 1], s.calls[..|s.calls| - 1])
       case _ => Settled(s.disk, s.calls)
  }

  lemma SettledAppend(rows: seq<Row>, calls: seq<Call>, r: Row)
    requires Settled(rows, calls) && r.evidence.cost.None?
    ensures Settled(rows + [r], calls)
  {
  }

  lemma SettledReturn(rows: seq<Row>, calls: seq<Call>, r: Row)
    requires calls != [] && Settled(rows, calls[..|calls| - 1]) && HonestCall(calls[|calls| - 1])
    requires calls[|calls| - 1].truth == r.evidence
    requires ExecutionStage(r) !in {NotOffered, InFlight}
    requires ExecutionStage(r) == BeforeLaunch <==> r.evidence.began == Some(false)
    ensures Settled(rows + [r], calls)
  {
  }

  /** An entered slot is one more call away from the ceiling, and its row leaves the account open. */
  lemma EnteredIsUnpriced(c: Config, rows: seq<Row>, done: set<Slot>, pos: nat, tried: int)
    requires Entered(c, rows, done, pos, tried)
    ensures !Complete(rows)
    ensures c.budget.Some? ==> Complete(rows[..|rows| - 1]) && Derived(rows[..|rows| - 1]) + c.reserve <= c.budget.value
  {
    hide OpenAt;
    assert Unpriced(rows[|rows| - 1]);
  }

  lemma OfferKeepsMoney(c: Config, s: Machine, host: Host)
    requires Enabled(c, s, Offer(host)) && MoneyInv(c, s) && s.mem.rows == s.disk
    ensures MoneyInv(c, OfferStep(c, s, host))
  {
    hide Complete, Settled, OverBudget, Eligible;
    var Offering(rows, done, pos, tried) := s.mem;
    var refused := RefusedRow(c.slots[pos], pos + 1, tried + 1);
    var entered := InFlightRow(c.slots[pos], pos + 1, tried + 1);
    SettledAppend(rows, s.calls, refused);
    assert (rows + [entered])[..|rows + [entered]| - 1] == rows;
  }

  lemma InvokeKeepsMoney(c: Config, s: Machine, truth: Evidence, paid: int)
    requires Inv(c, s) && Enabled(c, s, Invoke(truth, paid)) && MoneyInv(c, s) && paid <= c.reserve
    ensures MoneyInv(c, Apply(c, s, Invoke(truth, paid)))
  {
    hide RecordOk, CallsRecorded, CallsCounted, OpenAt, Complete;
    var Ready(rows, done, pos, tried) := s.mem;
    EnteredIsUnpriced(c, rows, done, pos, tried);
    assert Apply(c, s, Invoke(truth, paid)).calls[..|s.calls|] == s.calls;
  }

  lemma ReturnKeepsMoney(c: Config, s: Machine)
    requires Inv(c, s) && Enabled(c, s, Return) && MoneyInv(c, s) && HonestCall(s.calls[|s.calls| - 1])
    ensures MoneyInv(c, ReturnStep(c, s))
  {
    hide RecordOk, CallsRecorded, CallsCounted, OpenAt, Complete, Settled, HonestCall, ExecutionStage,
         ValidityDefect, StopExplained;
    var Calling(rows, done, pos, tried, report) := s.mem;
    RecordedStage(c.slots[pos], pos + 1, tried + 1, report);
    SettledReturn(rows[..|rows| - 1], s.calls, RecordedRow(c.slots[pos], pos + 1, tried + 1, report));
  }

  lemma CrashKeepsMoney(c: Config, s: Machine)
    requires Inv(c, s) && MoneyInv(c, s)
    ensures MoneyInv(c, s.(mem := Down))
  {
    hide RecordOk, CallsRecorded, CallsCounted, OpenAt, Complete, StopExplained, Clean, DoneKeys;
    match s.mem
    case Ready(rows, done, pos, tried) => EnteredIsUnpriced(c, rows, done, pos, tried);
    case Calling(rows, done, pos, tried, _) => EnteredIsUnpriced(c, rows, done, pos, tried);
    case _ =>
  }

  lemma StepKeepsMoney(c: Config, s: Machine, a: Action)
    requires WellFormed(c) && Inv(c, s) && Enabled(c, s, a) && MoneyInv(c, s)
    requires Honest(Apply(c, s, a).calls) && WithinReserve(c, Apply(c, s, a).calls)
    ensures MoneyInv(c, Apply(c, s, a))
  {
    hide RecordOk, CallsRecorded, CallsCounted, OpenAt, Entered, Settled, StopExplained, DoneKeys, Interrupted,
         FirstDefect, ValidityDefect, HonestCall, UnderCeiling, OfferStep, ReturnStep, Clean;
    match a
    case Offer(host) => OfferKeepsMoney(c, s, host);
    case Invoke(truth, paid) =>
      assert Apply(c, s, a).calls[|s.calls|].paid == paid;
      InvokeKeepsMoney(c, s, truth, paid);
    case Return =>
      StepExtends(c, s, a);
      assert HonestCall(s.calls[|s.calls| - 1]);
      ReturnKeepsMoney(c, s);
    case Crash => CrashKeepsMoney(c, s);
    case _ =>
  }

  lemma CallsOnlyGrow(c: Config, s: Machine, a: Action)
    requires Enabled(c, s, a)
    ensures s.calls <= Apply(c, s, a).calls
  {
  }

  lemma {:induction false} HistoryKeepsMoney(c: Config, acts: seq<Action>)
    requires WellFormed(c) && Legal(c, FRESH, acts)
    requires var calls := Exec(c, FRESH, acts).calls; Honest(calls) && WithinReserve(c, calls)
    ensures MoneyInv(c, Exec(c, FRESH, acts))
  {
    if acts != [] {
      hide Inv, MoneyInv, Apply, Enabled;
      var before := acts[..|acts| - 1];
      var s := Exec(c, FRESH, before);
      CallsOnlyGrow(c, s, acts[|acts| - 1]);
      assert forall i :: 0 <= i < |s.calls| ==> s.calls[i] == Exec(c, FRESH, acts).calls[i];
      HistoryKeepsMoney(c, before);
      FreshOk(c);
      HistoryKeeps(c, FRESH, before);
      StepKeepsMoney(c, s, acts[|acts| - 1]);
    }
  }

  /** If no attempt costs more than the reserve, the money really paid never exceeds the ceiling,
      over any number of kills and restarts, including attempts whose outcome was never recorded. */
  lemma CeilingHolds(c: Config, acts: seq<Action>)
    requires WellFormed(c) && Legal(c, FRESH, acts) && c.budget.Some?
    requires var calls := Exec(c, FRESH, acts).calls; Honest(calls) && WithinReserve(c, calls)
    ensures var calls := Exec(c, FRESH, acts).calls;
            calls == [] || TotalPaid(calls) <= c.budget.value
  {
    hide Exec, Legal, Honest, WithinReserve;
    HistoryKeepsMoney(c, acts);
  }

  /** Under a ceiling every call starts from a complete account with room for the reserve, so a
      launched attempt that reported no cost, or none at all, is the last attempt of the series. */
  lemma UnpricedBlocksLaunches(c: Config, acts: seq<Action>, host: Host)
    requires WellFormed(c) && Legal(c, FRESH, acts) && c.budget.Some?
    requires Enabled(c, Exec(c, FRESH, acts), Offer(host))
    ensures var s := Exec(c, FRESH, acts);
            Apply(c, s, Offer(host)).mem.Ready? ==>
              && Complete(s.disk) && Derived(s.disk) + c.reserve <= c.budget.value
              && forall i :: 0 <= i < |s.calls| ==> s.calls[i].truth.cost.Some? || s.calls[i].truth.began == Some(false)
  {
    hide Exec, Legal;
    FreshOk(c);
    HistoryKeeps(c, FRESH, acts);
    var s := Exec(c, FRESH, acts);
    if Apply(c, s, Offer(host)).mem.Ready? {
      forall i | 0 <= i < |s.calls| ensures s.calls[i].truth.cost.Some? || s.calls[i].truth.began == Some(false) {
        CompleteMeansPriced(s.disk, s.calls, i);
      }
    }
  }

  lemma CompleteMeansPriced(rows: seq<Row>, calls: seq<Call>, i: nat)
    requires i < |calls| && CallsRecorded(rows, calls) && Complete(rows)
    ensures calls[i].truth.cost.Some? || calls[i].truth.began == Some(false)
  {
    assert CallRecorded(rows, calls[i]);
    var r := rows[calls[i].row];
    RecordedStage(r.slot, r.position, r.attempt, calls[i].truth);
    assert !Unpriced(r);
  }
}
