/** What every history of runs, kills and restarts keeps. */
module SeriesSafety {
  import opened Common
  import opened SeriesRecord
  import opened SeriesMachine

  // ---------------------------------------------------------------- the shape of a record

  predicate Closes(r: Row, key: Slot, stack: Stack) {
    r.slot == key && r.evidence.validity == Valid && !Defective(r, stack)
  }

  /** Slot number `p` (0-based) has a valid row without a defect. */
  ghost predicate Closed(c: Config, rows: seq<Row>, p: nat)
    requires p < |c.slots|
  {
    exists i :: 0 <= i < |rows| && Closes(rows[i], c.slots[p], c.stack)
  }

  /** A row that leaves its slot open to another attempt. */
  predicate Retryable(r: Row) {
    r.evidence.validity != Valid && ExecutionStage(r) != InFlight && r.evidence.began != Some(true)
  }

  ghost predicate Positioned(c: Config, rows: seq<Row>) {
    forall i :: 0 <= i < |rows| ==> 1 <= rows[i].position <= |c.slots| && rows[i].slot == c.slots[rows[i].position - 1]
  }

  ghost predicate InOrder(c: Config, rows: seq<Row>)
    requires Positioned(c, rows)
  {
    && (forall i, j :: 0 <= i < j < |rows| ==> rows[i].position <= rows[j].position)
    && (forall i, p: nat :: 0 <= i < |rows| && p < rows[i].position - 1 ==> Closed(c, rows, p))
  }

  /** Only the last row of a slot may be anything but a failure that precedes the launcher. */
  ghost predicate NeverRerolled(rows: seq<Row>) {
    forall i, j :: 0 <= i < j < |rows| && rows[i].slot == rows[j].slot ==> Retryable(rows[i])
  }

  ghost predicate Bounded(c: Config, rows: seq<Row>) {
    forall k :: Offered(rows, k) <= if c.maxAttempts > 0 then c.maxAttempts else 0
  }

  ghost predicate RecordOk(c: Config, rows: seq<Row>) {
    Positioned(c, rows) && InOrder(c, rows) && NeverRerolled(rows) && Bounded(c, rows)
  }

  ghost predicate Clean(c: Config, rows: seq<Row>) {
    forall i :: 0 <= i < |rows| ==> !Defective(rows[i], c.stack)
  }

  // ---------------------------------------------------------------- the invariant

  /** Slot `pos` may be offered: it is the first open one and no earlier attempt forbids it. */
  ghost predicate OpenAt(c: Config, rows: seq<Row>, done: set<Slot>, pos: nat, tried: int) {
    && RecordOk(c, rows)
    && Clean(c, rows)
    && pos < |c.slots|
    && done == DoneKeys(rows)
    && c.slots[pos] !in done
    && (forall p: nat :: p < pos ==> c.slots[p] in done)
    && !Interrupted(rows, c.slots[pos])
    && tried == Offered(rows, c.slots[pos])
  }

  ghost predicate Entered(c: Config, rows: seq<Row>, done: set<Slot>, pos: nat, tried: int) {
    && rows != []
    && OpenAt(c, rows[..|rows| - 1], done, pos, tried)
    && rows[|rows| - 1] == InFlightRow(c.slots[pos], pos + 1, tried + 1)
    && tried < c.maxAttempts
    && !OverBudget(c, rows[..|rows| - 1])
  }

  /** Each call stands on its own row, in order, and that row is in flight or says what it did. */
  ghost predicate CallsRecorded(rows: seq<Row>, calls: seq<Call>) {
    && (forall i, j :: 0 <= i < j < |calls| ==> calls[i].row < calls[j].row)
    && (forall i :: 0 <= i < |calls| ==> CallRecorded(rows, calls[i]))
  }

  ghost predicate CallRecorded(rows: seq<Row>, call: Call) {
    && call.row < |rows|
    && rows[call.row].slot == call.slot
    && (var r := rows[call.row];
        r == InFlightRow(r.slot, r.position, r.attempt) || r == RecordedRow(r.slot, r.position, r.attempt, call.truth))
  }

  function CallsTo(calls: seq<Call>, key: Slot): nat {
    if calls == [] then 0
    else CallsTo(calls[..|calls| - 1], key) + (if calls[|calls| - 1].slot == key then 1 else 0)
  }

  ghost predicate CallsCounted(rows: seq<Row>, calls: seq<Call>) {
    forall k :: CallsTo(calls, k) <= Offered(rows, k)
  }

  /** What a stopped process can say about the record it leaves. */
  ghost predicate StopExplained(c: Config, rows: seq<Row>, stop: Stop) {
    match stop
    case Finished => Clean(c, rows) && forall p: nat :: p < |c.slots| ==> c.slots[p] in DoneKeys(rows)
    case Defect(l) =>
      var k := FirstDefect(rows, c.stack);
      k < |rows| && ValidityDefect(rows[k].evidence, c.stack) == Some(l)
    case Reentered =>
      && Clean(c, rows)
      && exists p: nat :: FirstOpen(c, rows, p) && Interrupted(rows, c.slots[p])
    case Launched =>
      && rows != []
      && OpenBefore(c, rows)
      && rows[|rows| - 1].evidence.validity != Valid
      && rows[|rows| - 1].evidence.began != Some(false)
      && ExecutionStage(rows[|rows| - 1]) !in {NotOffered, InFlight}
    case Exhausted =>
      exists p: nat :: OpenFirst(c, rows, p) && Offered(rows, c.slots[p]) >= c.maxAttempts
    case Ceiling =>
      && rows != []
      && OpenBefore(c, rows)
      && rows[|rows| - 1] == RefusedRow(rows[|rows| - 1].slot, rows[|rows| - 1].position, rows[|rows| - 1].attempt)
      && Offered(rows[..|rows| - 1], rows[|rows| - 1].slot) < c.maxAttempts
      && OverBudget(c, rows[..|rows| - 1])
    case Executor =>
      exists p: nat :: OpenFirst(c, rows, p) && Offered(rows, c.slots[p]) < c.maxAttempts && !OverBudget(c, rows)
    case Residue =>
      && rows != []
      && OpenBefore(c, rows)
      && rows[|rows| - 1] == RefusedRow(rows[|rows| - 1].slot, rows[|rows| - 1].position, rows[|rows| - 1].attempt)
      && Offered(rows[..|rows| - 1], rows[|rows| - 1].slot) < c.maxAttempts
      && !OverBudget(c, rows[..|rows| - 1])
    case Leak =>
      && rows != []
      && OpenBefore(c, rows)
      && rows[|rows| - 1].evidence.validity != Valid
      && rows[|rows| - 1].evidence.began == Some(false)
      && ExecutionStage(rows[|rows| - 1]) == BeforeLaunch
  }

  ghost predicate FirstOpen(c: Config, rows: seq<Row>, p: nat) {
    && p < |c.slots|
    && c.slots[p] !in DoneKeys(rows)
    && forall q: nat :: q < p ==> c.slots[q] in DoneKeys(rows)
  }

  /** Slot `p` is the first open one and may be offered. */
  ghost predicate OpenFirst(c: Config, rows: seq<Row>, p: nat) {
    FirstOpen(c, rows, p) && OpenAt(c, rows, DoneKeys(rows), p, Offered(rows, c.slots[p]))
  }

  /** The last row was written for the slot that was open before it. */
  ghost predicate OpenBefore(c: Config, rows: seq<Row>)
    requires rows != []
  {
    var last := rows[|rows| - 1];
    var init := rows[..|rows| - 1];
    && last.position >= 1
    && OpenAt(c, init, DoneKeys(init), last.position - 1, Offered(init, last.slot))
    && last.slot == c.slots[last.position - 1]
  }

  ghost predicate Inv(c: Config, s: Machine) {
    && RecordOk(c, s.disk)
    && CallsRecorded(s.disk, s.calls)
    && CallsCounted(s.disk, s.calls)
    && match s.mem
       case Down => true
       case Choosing(rows, done, pos) =>
         && rows == s.disk && Clean(c, rows) && done == DoneKeys(rows)
         && pos <= |c.slots| && forall p: nat :: p < pos ==> c.slots[p] in done
       case Offering(rows, done, pos, tried) => rows == s.disk && OpenAt(c, rows, done, pos, tried)
       case Ready(rows, done, pos, tried) =>
         && rows == s.disk && Entered(c, rows, done, pos, tried)
         && CallsRecorded(rows[..|rows| - 1], s.calls)
         && CallsCounted(rows[..|rows| - 1], s.calls)
       case Calling(rows, done, pos, tried, report) =>
         && rows == s.disk && Entered(c, rows, done, pos, tried)
         && s.calls != []
         && s.calls[|s.calls| - 1].row == |rows| - 1
         && s.calls[|s.calls| - 1].slot == c.slots[pos]
         && s.calls[|s.calls| - 1].truth == report
         && CallsRecorded(rows[..|rows| - 1], s.calls[..|s.calls| - 1])
       case Halted(rows, done, stop) => rows == s.disk && StopExplained(c, rows, stop)
  }

  // ---------------------------------------------------------------- growing a record by one row

  lemma OfferedAppend(rows: seq<Row>, r: Row, k: Slot)
    ensures Offered(rows + [r], k) ==
            Offered(rows, k) + (if r.slot == k && ExecutionStage(r) != NotOffered then 1 else 0)
  {
  }

  lemma ClosedAppend(c: Config, rows: seq<Row>, r: Row, p: nat)
    requires p < |c.slots| && Closed(c, rows, p)
    ensures Closed(c, rows + [r], p)
  {
    var i :| 0 <= i < |rows| && Closes(rows[i], c.slots[p], c.stack);
    assert (rows + [r])[i] == rows[i];
  }

  lemma DoneMeansClosed(c: Config, rows: seq<Row>, p: nat)
    requires Clean(c, rows) && p < |c.slots|
    ensures c.slots[p] in DoneKeys(rows) <==> Closed(c, rows, p)
  {
  }

  /** Every row of an open slot is retryable, and no row lies beyond it. */
  lemma OpenSlotRows(c: Config, rows: seq<Row>, done: set<Slot>, pos: nat, tried: int)
    requires WellFormed(c) && OpenAt(c, rows, done, pos, tried)
    ensures forall i :: 0 <= i < |rows| && rows[i].slot == c.slots[pos] ==> Retryable(rows[i])
    ensures forall i :: 0 <= i < |rows| ==> rows[i].position <= pos + 1
  {
    forall i | 0 <= i < |rows| && rows[i].slot == c.slots[pos] ensures Retryable(rows[i]) {
      assert !Unfinished(rows[i], c.slots[pos]);
    }
    forall i | 0 <= i < |rows| ensures rows[i].position <= pos + 1 {
      if rows[i].position > pos + 1 {
        assert Closed(c, rows, pos);
        DoneMeansClosed(c, rows, pos);
      }
    }
  }

  lemma AppendKeepsOrder(c: Config, rows: seq<Row>, done: set<Slot>, pos: nat, tried: int, r: Row)
    requires WellFormed(c) && OpenAt(c, rows, done, pos, tried)
    requires r.slot == c.slots[pos] && r.position == pos + 1
    ensures Positioned(c, rows + [r]) && InOrder(c, rows + [r])
  {
    hide NeverRerolled, Bounded, Closed, ExecutionStage, ValidityDefect, Interrupted, DoneKeys, Offered;
    var grown := rows + [r];
    OpenSlotRows(c, rows, done, pos, tried);
    assert Positioned(c, grown);
    forall i, p: nat | 0 <= i < |grown| && p < grown[i].position - 1 ensures Closed(c, grown, p) {
      if i < |rows| {
        assert grown[i] == rows[i];
        assert Closed(c, rows, p);
      } else {
        DoneMeansClosed(c, rows, p);
      }
      ClosedAppend(c, rows, r, p);
    }
  }

  lemma AppendKeepsRecord(c: Config, rows: seq<Row>, done: set<Slot>, pos: nat, tried: int, r: Row)
    requires WellFormed(c) && OpenAt(c, rows, done, pos, tried)
    requires r.slot == c.slots[pos] && r.position == pos + 1
    requires ExecutionStage(r) == NotOffered || tried < c.maxAttempts
    ensures RecordOk(c, rows + [r])
  {
    hide InOrder, Positioned, Retryable, Clean, ExecutionStage, Interrupted, Offered, DoneKeys;
    var grown := rows + [r];
    AppendKeepsOrder(c, rows, done, pos, tried, r);
    OpenSlotRows(c, rows, done, pos, tried);
    forall k ensures Offered(grown, k) <= if c.maxAttempts > 0 then c.maxAttempts else 0 {
      OfferedAppend(rows, r, k);
    }
  }

  lemma CallsGrow(rows: seq<Row>, calls: seq<Call>, r: Row)
    ensures CallsRecorded(rows, calls) ==> CallsRecorded(rows + [r], calls)
    ensures CallsCounted(rows, calls) ==> CallsCounted(rows + [r], calls)
  {
  }

  // ---------------------------------------------------------------- preservation, action by action

  lemma BootKeeps(c: Config, s: Machine)
    requires WellFormed(c) && Inv(c, s) && Enabled(c, s, Boot)
    ensures Inv(c, BootStep(c, s))
  {
    hide RecordOk, CallsRecorded, CallsCounted, ValidityDefect, DoneKeys, Interrupted, OverBudget;
    assert s.disk[..|s.disk|] == s.disk;
  }

  lemma ChooseKeeps(c: Config, s: Machine)
    requires WellFormed(c) && Inv(c, s) && Enabled(c, s, Choose)
    ensures Inv(c, ChooseStep(c, s))
  {
    hide RecordOk, CallsRecorded, CallsCounted;
    var Choosing(rows, done, pos) := s.mem;
    if pos < |c.slots| && c.slots[pos] !in done {
      assert FirstOpen(c, rows, pos);
    }
  }

  lemma OfferKeeps(c: Config, s: Machine, host: Host)
    requires WellFormed(c) && Inv(c, s) && Enabled(c, s, Offer(host))
    ensures Inv(c, OfferStep(c, s, host))
  {
    hide RecordOk, CallsRecorded, CallsCounted, OpenAt, FirstOpen, Complete, Interrupted, StopExplained, OverBudget;
    var Offering(rows, done, pos, tried) := s.mem;
    RefusedKeeps(c, rows, done, pos, tried, s.calls);
    OfferStopExplained(c, rows, done, pos, tried);
    if tried < c.maxAttempts { EnteredKeeps(c, rows, done, pos, tried, s.calls); }
  }

  lemma OfferStopExplained(c: Config, rows: seq<Row>, done: set<Slot>, pos: nat, tried: int)
    requires pos < |c.slots| && WellFormed(c) && OpenAt(c, rows, done, pos, tried)
    ensures tried >= c.maxAttempts ==> StopExplained(c, rows, Exhausted)
    ensures tried < c.maxAttempts && !OverBudget(c, rows) ==> StopExplained(c, rows, Executor)
    ensures var refused := rows + [RefusedRow(c.slots[pos], pos + 1, tried + 1)];
            && (tried < c.maxAttempts && OverBudget(c, rows) ==> StopExplained(c, refused, Ceiling))
            && (tried < c.maxAttempts && !OverBudget(c, rows) ==> StopExplained(c, refused, Residue))
  {
    hide RecordOk, Complete, Interrupted, OverBudget, OpenAt, FirstOpen, Clean, OpenBefore, Offered, DoneKeys,
         FirstDefect, ExecutionStage, ValidityDefect;
    OpenIsFirst(c, rows, done, pos, tried);
    RefusedOpenBefore(c, rows, done, pos, tried);
  }

  lemma RefusedOpenBefore(c: Config, rows: seq<Row>, done: set<Slot>, pos: nat, tried: int)
    requires pos < |c.slots| && OpenAt(c, rows, done, pos, tried)
    ensures var r := RefusedRow(c.slots[pos], pos + 1, tried + 1);
            var grown := rows + [r];
            && OpenBefore(c, grown) && grown[|grown| - 1] == r && grown[..|grown| - 1] == rows
  {
    hide OpenAt, FirstOpen, Offered, DoneKeys;
    var r := RefusedRow(c.slots[pos], pos + 1, tried + 1);
    OpenIsFirst(c, rows, done, pos, tried);
    assert (rows + [r])[..|rows|] == rows && (rows + [r])[|rows|] == r;
  }

  lemma OpenIsFirst(c: Config, rows: seq<Row>, done: set<Slot>, pos: nat, tried: int)
    requires OpenAt(c, rows, done, pos, tried)
    ensures FirstOpen(c, rows, pos) && done == DoneKeys(rows) && tried == Offered(rows, c.slots[pos])
  {
    hide RecordOk, Interrupted, Clean;
  }

  lemma RefusedKeeps(c: Config, rows: seq<Row>, done: set<Slot>, pos: nat, tried: int, calls: seq<Call>)
    requires pos < |c.slots| && WellFormed(c) && OpenAt(c, rows, done, pos, tried)
    requires CallsRecorded(rows, calls) && CallsCounted(rows, calls)
    ensures var r := RefusedRow(c.slots[pos], pos + 1, tried + 1);
            && RecordOk(c, rows + [r]) && OpenBefore(c, rows + [r])
            && CallsRecorded(rows + [r], calls) && CallsCounted(rows + [r], calls)
            && (rows + [r])[..|rows + [r]| - 1] == rows && (rows + [r])[|rows|] == r
  {
    hide RecordOk, CallsRecorded, CallsCounted, OpenAt, FirstOpen;
    var r := RefusedRow(c.slots[pos], pos + 1, tried + 1);
    AppendKeepsRecord(c, rows, done, pos, tried, r);
    CallsGrow(rows, calls, r);
    OpenIsFirst(c, rows, done, pos, tried);
    assert (rows + [r])[..|rows|] == rows;
  }

  lemma EnteredKeeps(c: Config, rows: seq<Row>, done: set<Slot>, pos: nat, tried: int, calls: seq<Call>)
    requires pos < |c.slots| && WellFormed(c) && OpenAt(c, rows, done, pos, tried) && tried < c.maxAttempts
    requires CallsRecorded(rows, calls) && CallsCounted(rows, calls)
    ensures var r := InFlightRow(c.slots[pos], pos + 1, tried + 1);
            && RecordOk(c, rows + [r])
            && CallsRecorded(rows + [r], calls) && CallsCounted(rows + [r], calls)
            && (rows + [r])[..|rows + [r]| - 1] == rows && (rows + [r])[|rows|] == r
  {
    hide RecordOk, CallsRecorded, CallsCounted, OpenAt, FirstOpen;
    var r := InFlightRow(c.slots[pos], pos + 1, tried + 1);
    AppendKeepsRecord(c, rows, done, pos, tried, r);
    CallsGrow(rows, calls, r);
    assert (rows + [r])[..|rows|] == rows;
  }

  lemma InvokeKeeps(c: Config, s: Machine, truth: Evidence, paid: int)
    requires WellFormed(c) && Inv(c, s) && Enabled(c, s, Invoke(truth, paid))
    ensures Inv(c, Apply(c, s, Invoke(truth, paid)))
  {
    hide RecordOk, CallsRecorded, CallsCounted, OpenAt, OverBudget;
    var Ready(rows, done, pos, tried) := s.mem;
    var call := Call(c.slots[pos], |rows| - 1, truth, paid);
    var init := rows[..|rows| - 1];
    assert rows == init + [rows[|rows| - 1]];
    assert (s.calls + [call])[..|s.calls|] == s.calls;
    InvokedCalls(init, s.calls, rows[|rows| - 1], call);
  }

  lemma InvokedCalls(init: seq<Row>, calls: seq<Call>, entered: Row, call: Call)
    requires CallsRecorded(init, calls) && CallsCounted(init, calls)
    requires call.row == |init| && entered == InFlightRow(call.slot, entered.position, entered.attempt)
    ensures CallsRecorded(init + [entered], calls + [call])
    ensures CallsCounted(init + [entered], calls + [call])
  {
    var more := calls + [call];
    assert more[..|calls|] == calls;
    forall i | 0 <= i < |more| ensures CallRecorded(init + [entered], more[i]) {
      if i < |calls| { assert CallRecorded(init, calls[i]); }
    }
    forall k ensures CallsTo(more, k) <= Offered(init + [entered], k) {
      OfferedAppend(init, entered, k);
    }
    forall i, j | 0 <= i < j < |more| ensures more[i].row < more[j].row {
      assert CallRecorded(init, calls[i]);
    }
  }

  lemma ReturnKeeps(c: Config, s: Machine)
    requires WellFormed(c) && Inv(c, s) && Enabled(c, s, Return)
    ensures Inv(c, ReturnStep(c, s))
  {
    hide RecordOk, CallsRecorded, CallsCounted, OpenAt, FirstOpen, Clean, DoneKeys, OverBudget, ExecutionStage,
         ValidityDefect, FirstDefect, StopExplained, OpenBefore;
    var Calling(rows, done, pos, tried, report) := s.mem;
    var init := rows[..|rows| - 1];
    var recorded := RecordedRow(c.slots[pos], pos + 1, tried + 1, report);
    ReturnedRow(c, rows, done, pos, tried, report, s.calls);
    OpenIsFirst(c, init, done, pos, tried);
    RecordedStage(c.slots[pos], pos + 1, tried + 1, report);
    if report.validity == Valid {
      ReturnedValid(c, init, done, pos, tried, recorded);
    } else {
      ReturnedInvalid(c, init + [recorded]);
      if ExecutionStage(recorded) == BeforeLaunch && report.findings == 0 {
        ReturnedOpen(c, init, done, pos, tried, recorded);
      }
    }
  }

  lemma ReturnedInvalid(c: Config, after: seq<Row>)
    requires after != [] && OpenBefore(c, after)
    requires var r := after[|after| - 1];
             && r.evidence.validity != Valid
             && ExecutionStage(r) !in {NotOffered, InFlight}
             && (ExecutionStage(r) == BeforeLaunch <==> r.evidence.began == Some(false))
    ensures ExecutionStage(after[|after| - 1]) != BeforeLaunch ==> StopExplained(c, after, Launched)
    ensures ExecutionStage(after[|after| - 1]) == BeforeLaunch ==> StopExplained(c, after, Leak)
  {
    hide OpenBefore, ExecutionStage;
  }

  /** Replacing the in-flight row by its outcome keeps the record and the call history. */
  lemma ReturnedRow(c: Config, rows: seq<Row>, done: set<Slot>, pos: nat, tried: int, report: Evidence,
                    calls: seq<Call>)
    requires pos < |c.slots| && WellFormed(c) && Entered(c, rows, done, pos, tried)
    requires calls != [] && CallsRecorded(rows[..|rows| - 1], calls[..|calls| - 1]) && CallsCounted(rows, calls)
    requires var last := calls[|calls| - 1]; last.row == |rows| - 1 && last.slot == c.slots[pos] && last.truth == report
    ensures var recorded := RecordedRow(c.slots[pos], pos + 1, tried + 1, report);
            var after := rows[..|rows| - 1] + [recorded];
            && RecordOk(c, after) && OpenBefore(c, after)
            && after[..|after| - 1] == rows[..|rows| - 1] && after[|after| - 1] == recorded
            && CallsRecorded(after, calls) && CallsCounted(after, calls)
  {
    hide RecordOk, CallsRecorded, OpenAt, FirstOpen;
    var init := rows[..|rows| - 1];
    var recorded := RecordedRow(c.slots[pos], pos + 1, tried + 1, report);
    var after := init + [recorded];
    assert after[..|after| - 1] == init && rows == init + [rows[|rows| - 1]];
    AppendKeepsRecord(c, init, done, pos, tried, recorded);
    ReturnedCalls(init, calls, recorded);
    OpenIsFirst(c, init, done, pos, tried);
    RecordedStage(c.slots[pos], pos + 1, tried + 1, report);
    forall k ensures Offered(after, k) == Offered(rows, k) {
      OfferedAppend(init, recorded, k);
      OfferedAppend(init, rows[|rows| - 1], k);
    }
  }

  lemma ReturnedValid(c: Config, init: seq<Row>, done: set<Slot>, pos: nat, tried: int, recorded: Row)
    requires OpenAt(c, init, done, pos, tried)
    requires recorded.slot == c.slots[pos] && recorded.evidence.validity == Valid
    ensures var after := init + [recorded];
            if Defective(recorded, c.stack)
            then StopExplained(c, after, Defect(ValidityDefect(recorded.evidence, c.stack).value))
            else Clean(c, after) && DoneKeys(after) == done + {c.slots[pos]}
                 && forall p: nat :: p < pos + 1 ==> c.slots[p] in done + {c.slots[pos]}
  {
    hide RecordOk, Interrupted, ValidityDefect;
    var after := init + [recorded];
    assert after[|init|] == recorded && forall i :: 0 <= i < |init| ==> after[i] == init[i];
    DoneAppend(init, recorded);
  }

  lemma ReturnedOpen(c: Config, init: seq<Row>, done: set<Slot>, pos: nat, tried: int, recorded: Row)
    requires OpenAt(c, init, done, pos, tried) && RecordOk(c, init + [recorded])
    requires recorded.slot == c.slots[pos] && recorded.evidence.validity != Valid
    requires ExecutionStage(recorded) == BeforeLaunch && recorded.evidence.began != Some(true)
    ensures OpenAt(c, init + [recorded], done, pos, tried + 1)
  {
    hide RecordOk, Interrupted, ValidityDefect;
    DoneAppend(init, recorded);
    InterruptedAppend(init, recorded, c.slots[pos]);
    OfferedAppend(init, recorded, c.slots[pos]);
  }

  lemma ReturnedCalls(init: seq<Row>, calls: seq<Call>, recorded: Row)
    requires calls != [] && CallsRecorded(init, calls[..|calls| - 1])
    requires calls[|calls| - 1].row == |init| && calls[|calls| - 1].slot == recorded.slot
    requires recorded == RecordedRow(recorded.slot, recorded.position, recorded.attempt, calls[|calls| - 1].truth)
    ensures CallsRecorded(init + [recorded], calls)
  {
    var before := calls[..|calls| - 1];
    forall i | 0 <= i < |calls| ensures CallRecorded(init + [recorded], calls[i]) {
      if i < |before| { assert CallRecorded(init, before[i]); }
    }
    forall i, j | 0 <= i < j < |calls| ensures calls[i].row < calls[j].row {
      assert CallRecorded(init, before[i]);
      if j < |before| { assert before[i].row < before[j].row; }
    }
  }

  lemma StepKeeps(c: Config, s: Machine, a: Action)
    requires WellFormed(c) && Inv(c, s) && Enabled(c, s, a)
    ensures Inv(c, Apply(c, s, a))
  {
    match a
    case Boot => BootKeeps(c, s);
    case Choose => ChooseKeeps(c, s);
    case Offer(host) => OfferKeeps(c, s, host);
    case Invoke(truth, paid) => InvokeKeeps(c, s, truth, paid);
    case Return => ReturnKeeps(c, s);
    case Crash =>
  }

  lemma {:induction false} HistoryKeeps(c: Config, s: Machine, acts: seq<Action>)
    requires WellFormed(c) && Inv(c, s) && Legal(c, s, acts)
    ensures Inv(c, Exec(c, s, acts))
  {
    if acts != [] {
      var before := acts[..|acts| - 1];
      HistoryKeeps(c, s, before);
      StepKeeps(c, Exec(c, s, before), acts[|acts| - 1]);
    }
  }

  lemma FreshOk(c: Config)
    ensures Inv(c, FRESH)
  {
  }

  // ---------------------------------------------------------------- the theorems

  /** No slot is ever given a second trajectory. Over every history, an attempt is followed by
      another on the same slot only if it came back invalid and did not report entering the
      launcher; so per slot at most one attempt enters the launcher, comes back valid, or is lost
      in flight, and it is the last. No slot is called more often than it may be offered. */
  lemma AtMostOneTrajectory(c: Config, acts: seq<Action>)
    requires WellFormed(c) && Legal(c, FRESH, acts)
    ensures var calls := Exec(c, FRESH, acts).calls;
            && (forall i, j :: 0 <= i < j < |calls| && calls[i].slot == calls[j].slot ==>
                  calls[i].truth.validity != Valid && calls[i].truth.began != Some(true))
            && (forall k :: CallsTo(calls, k) <= if c.maxAttempts > 0 then c.maxAttempts else 0)
  {
    FreshOk(c);
    HistoryKeeps(c, FRESH, acts);
    var s := Exec(c, FRESH, acts);
    forall i, j | 0 <= i < j < |s.calls| && s.calls[i].slot == s.calls[j].slot
      ensures s.calls[i].truth.validity != Valid && s.calls[i].truth.began != Some(true)
    {
      assert CallRecorded(s.disk, s.calls[i]) && CallRecorded(s.disk, s.calls[j]);
      assert Retryable(s.disk[s.calls[i].row]);
    }
    forall k ensures CallsTo(s.calls, k) <= if c.maxAttempts > 0 then c.maxAttempts else 0 {
      assert CallsTo(s.calls, k) <= Offered(s.disk, k);
    }
  }

  /** The same slot, position and attempt number; evidence and stage may differ. */
  predicate SameAttempt(before: Row, after: Row) {
    before.(stage := None, evidence := after.evidence) == after.(stage := None)
  }

  /** A later checkpoint is an earlier one with a row appended, or with its last, in-flight row
      replaced by that attempt's own outcome. Nothing else on disk is ever rewritten. */
  ghost predicate CheckpointExtends(before: seq<Row>, after: seq<Row>) {
    || after == before
    || (|after| == |before| + 1 && before == after[..|before|])
    || (&& |before| == |after| > 0
        && before[..|before| - 1] == after[..|after| - 1]
        && ExecutionStage(before[|before| - 1]) == InFlight
        && ExecutionStage(after[|after| - 1]) != InFlight
        && SameAttempt(before[|before| - 1], after[|after| - 1]))
  }

  lemma StepExtends(c: Config, s: Machine, a: Action)
    requires WellFormed(c) && Inv(c, s) && Enabled(c, s, a)
    ensures CheckpointExtends(s.disk, Apply(c, s, a).disk)
    ensures !a.Invoke? ==> Apply(c, s, a).calls == s.calls
    ensures Apply(c, s, a).disk != s.disk && |Apply(c, s, a).disk| == |s.disk| ==> s.mem.Calling?
  {
    hide RecordOk, CallsRecorded, CallsCounted, OpenAt, OverBudget, StopExplained, DoneKeys, FirstDefect,
         ValidityDefect, Interrupted, Eligible, SameAttempt, ExecutionStage;
    if a.Return? {
      var Calling(rows, done, pos, tried, report) := s.mem;
      ReturnedReplaces(rows, c.slots[pos], pos, tried, report);
    }
  }

  lemma ReturnedReplaces(rows: seq<Row>, slot: Slot, pos: nat, tried: int, report: Evidence)
    requires rows != [] && rows[|rows| - 1] == InFlightRow(slot, pos + 1, tried + 1)
    ensures CheckpointExtends(rows, rows[..|rows| - 1] + [RecordedRow(slot, pos + 1, tried + 1, report)])
  {
    RecordedStage(slot, pos + 1, tried + 1, report);
  }

  lemma CheckpointsOnlyExtend(c: Config, acts: seq<Action>, a: Action)
    requires WellFormed(c) && Legal(c, FRESH, acts) && Enabled(c, Exec(c, FRESH, acts), a)
    ensures var s := Exec(c, FRESH, acts);
            CheckpointExtends(s.disk, Apply(c, s, a).disk)
  {
    hide Inv, Enabled, Apply;
    FreshOk(c);
    HistoryKeeps(c, FRESH, acts);
    StepExtends(c, Exec(c, FRESH, acts), a);
  }

  /** An attempt left in flight by a kill closes its slot to every later call, and its row is still
      there, still in flight, in every later record. */
  lemma {:induction false} InFlightIsNeverRetried(c: Config, s: Machine, acts: seq<Action>, i: nat)
    requires WellFormed(c) && Inv(c, s) && s.mem.Down? && Legal(c, s, acts)
    requires i < |s.disk| && ExecutionStage(s.disk[i]) == InFlight
    ensures var t := Exec(c, s, acts);
            && Inv(c, t)
            && i < |t.disk| && t.disk[i] == s.disk[i]
            && ((t.mem.Ready? || t.mem.Calling?) ==> i < |t.disk| - 1)
            && CallsTo(t.calls, s.disk[i].slot) == CallsTo(s.calls, s.disk[i].slot)
  {
    if acts != [] {
      hide Inv, Apply;
      var init := acts[..|acts| - 1];
      InFlightIsNeverRetried(c, s, init, i);
      MemoryIsDisk(c, Exec(c, s, init));
      LostRowStep(c, Exec(c, s, init), acts[|acts| - 1], i);
    }
  }

  lemma MemoryIsDisk(c: Config, s: Machine)
    requires Inv(c, s)
    ensures s.mem.Offering? ==> s.mem.rows == s.disk
  {
  }

  lemma LostRowStep(c: Config, s: Machine, a: Action, i: nat)
    requires WellFormed(c) && Inv(c, s) && Enabled(c, s, a)
    requires i < |s.disk| && ExecutionStage(s.disk[i]) == InFlight
    requires (s.mem.Ready? || s.mem.Calling?) ==> i < |s.disk| - 1
    requires s.mem.Offering? ==> s.mem.rows == s.disk
    ensures var t := Apply(c, s, a);
            && Inv(c, t)
            && i < |t.disk| && t.disk[i] == s.disk[i]
            && ((t.mem.Ready? || t.mem.Calling?) ==> i < |t.disk| - 1)
            && CallsTo(t.calls, s.disk[i].slot) == CallsTo(s.calls, s.disk[i].slot)
  {
    hide Inv, BootStep, ChooseStep, OfferStep, ReturnStep, ExecutionStage;
    StepKeeps(c, s, a);
    StepExtends(c, s, a);
    ReadyMeansGrown(c, s, a);
    if a.Invoke? {
      EntersAnotherSlot(c, s, i);
      assert Apply(c, s, a).calls[..|s.calls|] == s.calls;
    }
  }

  lemma ReadyMeansGrown(c: Config, s: Machine, a: Action)
    requires Enabled(c, s, a) && (s.mem.Offering? ==> s.mem.rows == s.disk)
    ensures Apply(c, s, a).mem.Ready? ==> |Apply(c, s, a).disk| == |s.disk| + 1
    ensures Apply(c, s, a).mem.Calling? ==> s.mem.Ready?
  {
    hide FirstDefect, ValidityDefect, DoneKeys, Interrupted, OverBudget, Eligible, ExecutionStage;
  }

  /** The slot about to be called is not that of any earlier in-flight row. */
  lemma EntersAnotherSlot(c: Config, s: Machine, i: nat)
    requires WellFormed(c) && Inv(c, s) && s.mem.Ready? && s.mem.pos < |c.slots|
    requires i < |s.disk| - 1 && ExecutionStage(s.disk[i]) == InFlight
    ensures c.slots[s.mem.pos] != s.disk[i].slot
  {
    hide RecordOk, CallsRecorded, CallsCounted, OpenAt, OverBudget, ExecutionStage;
    var Ready(rows, done, pos, tried) := s.mem;
    OpenSlotRows(c, rows[..|rows| - 1], done, pos, tried);
    assert !Retryable(rows[..|rows| - 1][i]);
  }

  /** In every reachable record a row for a slot means every earlier slot of the frozen order has a
      valid, defect-free row, and no slot was offered more often than allowed. */
  lemma ReachableRecords(c: Config, acts: seq<Action>)
    requires WellFormed(c) && Legal(c, FRESH, acts)
    ensures var rows := Exec(c, FRESH, acts).disk;
            && Positioned(c, rows)
            && (forall i, p: nat :: 0 <= i < |rows| && p < rows[i].position - 1 ==> Closed(c, rows, p))
            && (forall k :: Offered(rows, k) <= if c.maxAttempts > 0 then c.maxAttempts else 0)
  {
    FreshOk(c);
    HistoryKeeps(c, FRESH, acts);
  }

  /** A run that is not stopped ended because every slot is closed, and a run of a series whose
      every slot is closed without a defect has nothing to stop on. */
  lemma UnstoppedMeansFilled(c: Config, acts: seq<Action>)
    requires WellFormed(c) && Legal(c, FRESH, acts)
    requires Exec(c, FRESH, acts).mem.Halted?
    ensures var s := Exec(c, FRESH, acts);
            s.mem.stop == Finished <==> forall p: nat :: p < |c.slots| ==> Closed(c, s.disk, p)
  {
    FreshOk(c);
    HistoryKeeps(c, FRESH, acts);
    var s := Exec(c, FRESH, acts);
    hide RecordOk, CallsRecorded, CallsCounted, Exec, Legal, Closed;
    if s.mem.stop == Finished {
      forall p: nat | p < |c.slots| ensures Closed(c, s.disk, p) { DoneMeansClosed(c, s.disk, p); }
    }
    if forall p: nat :: p < |c.slots| ==> Closed(c, s.disk, p) {
      AllClosedIsFinished(c, s.disk, s.mem.stop);
    }
  }

  lemma AllClosedIsFinished(c: Config, rows: seq<Row>, stop: Stop)
    requires WellFormed(c) && RecordOk(c, rows) && StopExplained(c, rows, stop)
    requires forall p: nat :: p < |c.slots| ==> Closed(c, rows, p)
    ensures stop == Finished
  {
    hide RecordOk, Closed, Interrupted, OverBudget, DoneKeys;
    AllClosedIsClean(c, rows);
    forall p: nat | p < |c.slots| ensures c.slots[p] in DoneKeys(rows) { DoneMeansClosed(c, rows, p); }
    if rows != [] {
      assert rows[..|rows| - 1] + [rows[|rows| - 1]] == rows;
      DoneAppend(rows[..|rows| - 1], rows[|rows| - 1]);
    }
  }

  /** With every slot closed no row can be defective: a defective valid row is never retryable. */
  lemma AllClosedIsClean(c: Config, rows: seq<Row>)
    requires RecordOk(c, rows) && forall p: nat :: p < |c.slots| ==> Closed(c, rows, p)
    ensures Clean(c, rows)
  {
    forall j | 0 <= j < |rows| ensures !Defective(rows[j], c.stack) {
      assert Closed(c, rows, rows[j].position - 1);
      var i :| 0 <= i < |rows| && Closes(rows[i], rows[j].slot, c.stack);
    }
  }
}
