/** The bounded series as a state machine: what is on disk, what the running process holds, and the
    attempts the world has really been asked to make. Each action is one step of the run procedure
    between two points at which a kill can be noticed; `Crash` is allowed everywhere and keeps only
    the last checkpoint. Executors, hosts and attempts are chosen by an adversary. */
module SeriesMachine {
  import opened Common
  import opened SeriesRecord

  /** What never changes between the runs of one series. */
  datatype Config = Config(slots: seq<Slot>, stack: Stack, budget: Option<int>, reserve: int, maxAttempts: int)

  predicate WellFormed(c: Config) {
    && (forall i, j :: 0 <= i < j < |c.slots| ==> c.slots[i] != c.slots[j])
    && c.stack.executor != ""
  }

  /** Why a run ended. Several of these share a letter of section 11. */
  datatype Stop =
    | Finished               // every slot is closed
    | Defect(letter: Letter) // D to I, on a valid attempt
    | Reentered              // C, on entering a slot whose earlier attempt began or never reported
    | Launched               // C, on an attempt of this run
    | Exhausted              // B
    | Ceiling                // J
    | Executor               // H, this host's executor is not the frozen one
    | Residue                // G, an earlier slot left state on the host
    | Leak                   // G, the view-scoped preflight of a failed attempt found something
  {
    function Condition(): Option<Letter> {
      match this
      case Finished => None
      case Defect(l) => Some(l)
      case Reentered => Some(C)
      case Launched => Some(C)
      case Exhausted => Some(B)
      case Ceiling => Some(J)
      case Executor => Some(H)
      case Residue => Some(G)
      case Leak => Some(G)
    }
  }

  /** What the host shows just before a launch. */
  datatype Host = Host(executor: Option<string>, residue: bool)

  predicate Eligible(h: Host, stack: Stack) {
    h.executor.Some? && StartsWith(h.executor.value, LowerAscii(stack.executor))
  }

  /** The memory of the process running the series. */
  datatype Memory =
    | Down
    | Choosing(rows: seq<Row>, done: set<Slot>, pos: nat)
    | Offering(rows: seq<Row>, done: set<Slot>, pos: nat, tried: int)
    | Ready(rows: seq<Row>, done: set<Slot>, pos: nat, tried: int)
    | Calling(rows: seq<Row>, done: set<Slot>, pos: nat, tried: int, report: Evidence)
    | Halted(rows: seq<Row>, done: set<Slot>, stop: Stop)

  /** One call of the attempt function: for which slot, which row stands for it, what it really did
      (whether or not that was ever written down) and what it really cost. */
  datatype Call = Call(slot: Slot, row: nat, truth: Evidence, paid: int)

  datatype Machine = Machine(disk: seq<Row>, mem: Memory, calls: seq<Call>)

  datatype Action =
    | Boot
    | Choose
    | Offer(host: Host)
    | Invoke(truth: Evidence, paid: int)
    | Return
    | Crash

  const FRESH := Machine([], Down, [])

  predicate OverBudget(c: Config, rows: seq<Row>) {
    c.budget.Some? && (!Complete(rows) || Derived(rows) + c.reserve > c.budget.value)
  }

  predicate Enabled(c: Config, s: Machine, a: Action) {
    match a
    case Boot => s.mem.Down? || s.mem.Halted?
    case Choose => s.mem.Choosing? && s.mem.pos <= |c.slots|
    case Offer(_) => s.mem.Offering? && s.mem.pos < |c.slots|
    case Invoke(_, _) => s.mem.Ready? && s.mem.pos < |c.slots| && s.mem.rows != []
    case Return => s.mem.Calling? && s.mem.pos < |c.slots| && s.mem.rows != []
    case Crash => true
  }

  /** Every stop checkpoints the rows it holds. */
  function Halt(s: Machine, rows: seq<Row>, done: set<Slot>, stop: Stop): Machine {
    s.(disk := rows, mem := Halted(rows, done, stop))
  }

  /** Section 11 D to I is re-applied to every recorded valid attempt before anything is offered. */
  function BootStep(c: Config, s: Machine): Machine {
    var k := FirstDefect(s.disk, c.stack);
    var done := DoneKeys(s.disk[..k]);
    if k < |s.disk| then Halt(s, s.disk, done, Defect(ValidityDefect(s.disk[k].evidence, c.stack).value))
    else s.(mem := Choosing(s.disk, done, 0))
  }

  function ChooseStep(c: Config, s: Machine): Machine
    requires Enabled(c, s, Choose)
  {
    var Choosing(rows, done, pos) := s.mem;
    if pos == |c.slots| then Halt(s, rows, done, Finished)
    else if c.slots[pos] in done then s.(mem := Choosing(rows, done, pos + 1))
    else if Interrupted(rows, c.slots[pos]) then Halt(s, rows, done, Reentered)
    else s.(mem := Offering(rows, done, pos, Offered(rows, c.slots[pos])))
  }

  function OfferStep(c: Config, s: Machine, host: Host): Machine
    requires Enabled(c, s, Offer(host))
  {
    var Offering(rows, done, pos, tried) := s.mem;
    var slot := c.slots[pos];
    if tried >= c.maxAttempts then Halt(s, rows, done, Exhausted)
    else if OverBudget(c, rows) then Halt(s, rows + [RefusedRow(slot, pos + 1, tried + 1)], done, Ceiling)
    else if !Eligible(host, c.stack) then Halt(s, rows, done, Executor)
    else if host.residue then Halt(s, rows + [RefusedRow(slot, pos + 1, tried + 1)], done, Residue)
    else
      var entered := rows + [InFlightRow(slot, pos + 1, tried + 1)];
      s.(disk := entered, mem := Ready(entered, done, pos, tried))
  }

  function ReturnStep(c: Config, s: Machine): Machine
    requires Enabled(c, s, Return)
  {
    var Calling(rows, done, pos, tried, report) := s.mem;
    var slot := c.slots[pos];
    var recorded := RecordedRow(slot, pos + 1, tried + 1, report);
    var after := rows[..|rows| - 1] + [recorded];
    var written := s.(disk := after);
    if report.validity == Valid then
      var defect := ValidityDefect(report, c.stack);
      if defect.Some? then Halt(written, after, done, Defect(defect.value))
      else written.(mem := Choosing(after, done + {slot}, pos + 1))
    else if ExecutionStage(recorded) !in {NotOffered, BeforeLaunch} then Halt(written, after, done, Launched)
    else if report.findings > 0 then Halt(written, after, done, Leak)
    else written.(mem := Offering(after, done, pos, tried + 1))
  }

  function Apply(c: Config, s: Machine, a: Action): Machine
    requires Enabled(c, s, a)
  {
    match a
    case Boot => BootStep(c, s)
    case Choose => ChooseStep(c, s)
    case Offer(host) => OfferStep(c, s, host)
    case Invoke(truth, paid) =>
      var Ready(rows, done, pos, tried) := s.mem;
      s.(mem := Calling(rows, done, pos, tried, truth),
         calls := s.calls + [Call(c.slots[pos], |rows| - 1, truth, paid)])
    case Return => ReturnStep(c, s)
    case Crash => s.(mem := Down)
  }

  /** A history: any number of runs, killed anywhere, resumed any number of times. */
  ghost predicate Legal(c: Config, s: Machine, acts: seq<Action>)
    decreases |acts|, 0
  {
    acts == [] || (var before := acts[..|acts| - 1];
                   Legal(c, s, before) && Enabled(c, Exec(c, s, before), acts[|acts| - 1]))
  }

  ghost function Exec(c: Config, s: Machine, acts: seq<Action>): Machine
    requires Legal(c, s, acts)
    decreases |acts|
  {
    if acts == [] then s else Apply(c, Exec(c, s, acts[..|acts| - 1]), acts[|acts| - 1])
  }

  ghost predicate Reaches(c: Config, s: Machine, t: Machine) {
    exists acts :: Legal(c, s, acts) && Exec(c, s, acts) == t
  }

  lemma ReachesSelf(c: Config, s: Machine)
    ensures Reaches(c, s, s)
  {
    assert Legal(c, s, []) && Exec(c, s, []) == s;
  }

  lemma ReachesStep(c: Config, s: Machine, t: Machine, a: Action)
    requires Reaches(c, s, t) && Enabled(c, t, a)
    ensures Reaches(c, s, Apply(c, t, a))
  {
    var acts :| Legal(c, s, acts) && Exec(c, s, acts) == t;
    var more := acts + [a];
    assert more[..|more| - 1] == acts;
    assert Legal(c, s, more) && Exec(c, s, more) == Apply(c, t, a);
  }

  lemma {:induction false} ExecContinues(c: Config, s: Machine, t: Machine, before: seq<Action>, after: seq<Action>)
    requires Legal(c, s, before) && Exec(c, s, before) == t && Legal(c, t, after)
    ensures Legal(c, s, before + after) && Exec(c, s, before + after) == Exec(c, t, after)
  {
    hide Apply, Enabled;
    var acts := before + after;
    if after == [] {
      assert acts == before;
    } else {
      var init := after[..|after| - 1];
      assert acts[..|acts| - 1] == before + init && acts[|acts| - 1] == after[|after| - 1];
      ExecContinues(c, s, t, before, init);
    }
  }

  /** Histories compose: a run that starts where another was left continues its history. */
  lemma ReachesTransitive(c: Config, s: Machine, t: Machine, u: Machine)
    requires Reaches(c, s, t) && Reaches(c, t, u)
    ensures Reaches(c, s, u)
  {
    var before :| Legal(c, s, before) && Exec(c, s, before) == t;
    var after :| Legal(c, t, after) && Exec(c, t, after) == u;
    ExecContinues(c, s, t, before, after);
  }
}
