/** Launch slots: admitted, reserved before anything runs, classified afterwards from evidence. */
module LaunchLedger {
  import opened Common

  datatype Classification = Unresolved | ExecutorReached | PreExecutorFailure

  datatype Slot = Slot(number: int, phase: string, task: string, role: string, classification: Classification)

  /** What a ledger is frozen under. `unbilled` workers are held to an allowance of tokens instead. */
  datatype Terms = Terms(
    ceiling: int,
    limit: int,
    reserve: int,
    repairCycles: int,
    unbilled: bool,
    allowance: Option<int>)

  /** The account of what earlier launches spent; meaningful as a whole only when complete. */
  datatype Account = Account(complete: bool, derived: int, tokens: int)

  datatype Refusal = Unclassified | Incomplete | OverCeiling | OverLimit | AllowanceReached | RepairsSpent

  const PRODUCERS := {"implementer", "spec-author", "fixer"}

  function Count(slots: seq<Slot>, c: Classification): nat {
    if slots == [] then 0
    else Count(slots[..|slots| - 1], c) + (if slots[|slots| - 1].classification == c then 1 else 0)
  }

  predicate IsAttempt(s: Slot, phase: string, task: string) {
    s.phase == phase && s.task == task && s.role in PRODUCERS && s.classification == ExecutorReached
  }

  /** How many producer attempts a task has had. */
  function ProducerAttempts(slots: seq<Slot>, phase: string, task: string): nat {
    if slots == [] then 0
    else
      var last := slots[|slots| - 1];
      ProducerAttempts(slots[..|slots| - 1], phase, task) + (if IsAttempt(last, phase, task) then 1 else 0)
  }

  function Pending(slots: seq<Slot>): (pending: set<int>)
    ensures pending == {} <==> forall i :: 0 <= i < |slots| ==> slots[i].classification != Unresolved
  {
    var pending := set s | s in slots && s.classification == Unresolved :: s.number;
    assert forall i :: 0 <= i < |slots| && slots[i].classification == Unresolved ==> slots[i].number in pending;
    pending
  }

  /** Every rule that refuses a further launch of this role for this task. */
  function Refusals(t: Terms, slots: seq<Slot>, account: Account, phase: string, task: string,
                    role: string): set<Refusal>
  {
    var complete := account.complete && Pending(slots) == {};
    (if Pending(slots) != {} then {Unclassified} else {})
    + (if !complete then {Incomplete} else {})
    + (if Count(slots, ExecutorReached) + Count(slots, PreExecutorFailure) + 1 > t.ceiling then {OverCeiling} else {})
    + (if !t.unbilled && complete && account.derived + t.reserve > t.limit then {OverLimit} else {})
    + (if t.unbilled && t.allowance.Some? && complete && account.tokens >= t.allowance.value
       then {AllowanceReached} else {})
    + (if role in PRODUCERS && ProducerAttempts(slots, phase, task) >= 1 + t.repairCycles then {RepairsSpent} else {})
  }

  /** What each name claims, whatever the others say. Slots of every outcome but the unresolved ones
      count towards the ceiling. */
  ghost predicate Deserved(t: Terms, slots: seq<Slot>, account: Account, phase: string, task: string, role: string,
                           x: Refusal)
  {
    var settled := forall i :: 0 <= i < |slots| ==> slots[i].classification != Unresolved;
    match x
    case Unclassified => !settled
    case Incomplete => !(account.complete && settled)
    case OverCeiling => |slots| - Count(slots, Unresolved) >= t.ceiling
    case OverLimit => !t.unbilled && account.complete && settled && t.limit - account.derived < t.reserve
    case AllowanceReached =>
      t.unbilled && account.complete && settled && t.allowance.Some? && t.allowance.value <= account.tokens
    case RepairsSpent => role in PRODUCERS && ProducerAttempts(slots, phase, task) > t.repairCycles
  }

  lemma {:induction false} EverySlotCounted(slots: seq<Slot>)
    ensures Count(slots, Unresolved) + Count(slots, ExecutorReached) + Count(slots, PreExecutorFailure) == |slots|
  {
    if slots != [] { EverySlotCounted(slots[..|slots| - 1]); }
  }

  lemma {:induction false} NoneUnresolved(slots: seq<Slot>)
    ensures Count(slots, Unresolved) == 0 <==> forall i :: 0 <= i < |slots| ==> slots[i].classification != Unresolved
  {
    if slots != [] {
      var init := slots[..|slots| - 1];
      NoneUnresolved(init);
      assert forall i :: 0 <= i < |init| ==> init[i] == slots[i];
    }
  }

  class Ledger {
    const terms: Terms
    var slots: seq<Slot>

    constructor (terms: Terms)
      ensures this.terms == terms && slots == []
    {
      this.terms := terms;
      slots := [];
    }

    /** May another launch begin? Names each rule that refuses it. */
    method Admit(account: Account, phase: string, task: string, role: string) returns (why: set<Refusal>)
      ensures forall x :: x in why <==> Deserved(terms, slots, account, phase, task, role, x)
      ensures why == Refusals(terms, slots, account, phase, task, role)
    {
      hide Count, ProducerAttempts;
      EverySlotCounted(slots);
      why := {};
      var pending := Pending(slots);
      var complete := account.complete;
      if pending != {} {
        complete := false;
        why := why + {Unclassified};
      }
      if !complete { why := why + {Incomplete}; }
      if Count(slots, ExecutorReached) + Count(slots, PreExecutorFailure) + 1 > terms.ceiling {
        why := why + {OverCeiling};
      }
      if !terms.unbilled && complete && account.derived + terms.reserve > terms.limit { why := why + {OverLimit}; }
      if terms.unbilled && terms.allowance.Some? && complete && account.tokens >= terms.allowance.value {
        why := why + {AllowanceReached};
      }
      if role in PRODUCERS && ProducerAttempts(slots, phase, task) >= 1 + terms.repairCycles {
        why := why + {RepairsSpent};
      }
    }

    /** Writes the intent down before the launcher runs. */
    method Reserve(phase: string, task: string, role: string) returns (slot: Slot)
      modifies this`slots
      ensures slots == old(slots) + [slot]
      ensures slot == Slot(|old(slots)| + 1, phase, task, role, Unresolved)
    {
      slot := Slot(|slots| + 1, phase, task, role, Unresolved);
      slots := slots + [slot];
    }

    /** Says what a reserved slot became: it reached the executor exactly when an immutable
        reservation exists for it. Only that slot changes, and only its classification. */
    method Classify(number: int, reservationPresent: bool)
      requires exists i :: 0 <= i < |slots| && slots[i].number == number
      modifies this`slots
      ensures exists i :: 0 <= i < |old(slots)| && IsFirst(old(slots), i, number)
                && slots == old(slots)[i := old(slots)[i].(classification := Outcome(reservationPresent))]
    {
      var i := 0;
      while slots[i].number != number
        invariant 0 <= i < |slots| && forall j :: 0 <= j < i ==> slots[j].number != number
        decreases |slots| - i
      {
        i := i + 1;
      }
      assert IsFirst(slots, i, number);
      slots := slots[i := slots[i].(classification := Outcome(reservationPresent))];
    }
  }

  predicate IsFirst(slots: seq<Slot>, i: int, number: int) {
    0 <= i < |slots| && slots[i].number == number && forall j :: 0 <= j < i ==> slots[j].number != number
  }

  function Outcome(reservationPresent: bool): Classification {
    if reservationPresent then ExecutorReached else PreExecutorFailure
  }

  // ---------------------------------------------------------------- the protocol

  /** One step of the supervised workflow. A launch carries what it really costs, recorded or not. */
  datatype Event =
    | Launch(account: Account, phase: string, task: string, role: string, paid: int)
    | Resolve(number: int, reservationPresent: bool)

  function Step(slots: seq<Slot>, e: Event): seq<Slot> {
    match e
    case Launch(_, phase, task, role, _) => slots + [Slot(|slots| + 1, phase, task, role, Unresolved)]
    case Resolve(n, present) =>
      if 1 <= n <= |slots| then slots[n - 1 := slots[n - 1].(classification := Outcome(present))] else slots
  }

  /** Launches only follow an admission; a slot is classified once. */
  predicate Allowed(t: Terms, slots: seq<Slot>, e: Event) {
    match e
    case Launch(account, phase, task, role, _) => Refusals(t, slots, account, phase, task, role) == {}
    case Resolve(n, _) => 1 <= n <= |slots| && slots[n - 1].classification == Unresolved
  }

  function After(events: seq<Event>): seq<Slot> {
    if events == [] then [] else Step(After(events[..|events| - 1]), events[|events| - 1])
  }

  predicate Legal(t: Terms, events: seq<Event>) {
    events == [] ||
    (Legal(t, events[..|events| - 1]) && Allowed(t, After(events[..|events| - 1]), events[|events| - 1]))
  }

  function Paid(events: seq<Event>): int {
    if events == [] then 0
    else Paid(events[..|events| - 1]) + (var e := events[|events| - 1]; if e.Launch? then e.paid else 0)
  }

  /** A complete account is what every launch before it really cost, and no launch costs more than
      the reserve. */
  predicate Truthful(t: Terms, events: seq<Event>) {
    events == [] ||
    (Truthful(t, events[..|events| - 1])
     && (var e := events[|events| - 1];
         && (e.Launch? ==> e.paid <= t.reserve)
         && (e.Launch? && e.account.complete ==> e.account.derived == Paid(events[..|events| - 1]))))
  }

  ghost predicate Inv(t: Terms, slots: seq<Slot>) {
    && (forall i :: 0 <= i < |slots| ==> slots[i].number == i + 1)
    && (forall i :: 0 <= i < |slots| - 1 ==> slots[i].classification != Unresolved)
    && (slots != [] ==> |slots| <= t.ceiling)
    && (forall phase, task ::
          ProducerAttempts(slots, phase, task) <= if t.repairCycles >= 0 then 1 + t.repairCycles else 0)
    && (slots != [] && slots[|slots| - 1].classification == Unresolved && slots[|slots| - 1].role in PRODUCERS ==>
          ProducerAttempts(slots, slots[|slots| - 1].phase, slots[|slots| - 1].task) < 1 + t.repairCycles)
  }

  /** A launch is admitted exactly when every slot is classified and the account complete, one more
      slot of any outcome fits under the ceiling, the money or the tokens leave room, and a producer
      still has its first launch or a repair. */
  lemma AdmittedIff(t: Terms, slots: seq<Slot>, account: Account, phase: string, task: string, role: string)
    ensures Refusals(t, slots, account, phase, task, role) == {} <==>
            && (forall i :: 0 <= i < |slots| ==> slots[i].classification != Unresolved)
            && account.complete
            && |slots| < t.ceiling
            && (if t.unbilled then t.allowance.None? || account.tokens < t.allowance.value
                else account.derived + t.reserve <= t.limit)
            && (role in PRODUCERS ==> ProducerAttempts(slots, phase, task) <= t.repairCycles)
  {
    hide Count, ProducerAttempts;
    EverySlotCounted(slots);
    NoneUnresolved(slots);
    var why := Refusals(t, slots, account, phase, task, role);
    assert why <= {Unclassified, Incomplete, OverCeiling, OverLimit, AllowanceReached, RepairsSpent};
  }

  lemma LaunchKeeps(t: Terms, slots: seq<Slot>, e: Event)
    requires Inv(t, slots) && e.Launch? && Allowed(t, slots, e)
    ensures Inv(t, Step(slots, e))
  {
    var after := Step(slots, e);
    AdmittedIff(t, slots, e.account, e.phase, e.task, e.role);
    assert after[..|slots|] == slots;
    forall phase, task ensures ProducerAttempts(after, phase, task) == ProducerAttempts(slots, phase, task) {
    }
  }

  lemma ResolveKeeps(t: Terms, slots: seq<Slot>, e: Event)
    requires Inv(t, slots) && e.Resolve? && Allowed(t, slots, e)
    ensures Inv(t, Step(slots, e))
  {
    var after := Step(slots, e);
    assert e.number == |slots| by { assert slots[e.number - 1].classification == Unresolved; }
    var init := slots[..|slots| - 1];
    assert after[..|after| - 1] == init;
    forall phase, task
      ensures ProducerAttempts(after, phase, task) <= if t.repairCycles >= 0 then 1 + t.repairCycles else 0
    {
      assert ProducerAttempts(slots, phase, task) == ProducerAttempts(init, phase, task);
    }
  }

  /** Over every run of the protocol: slots are numbered 1 to n; only the last can be unresolved; the
      ceiling bounds every slot, those that never reached the executor included; and no task has more
      producer launches than its first and its repairs. */
  lemma {:induction false} ProtocolHolds(t: Terms, events: seq<Event>)
    requires Legal(t, events)
    ensures Inv(t, After(events))
  {
    if events != [] {
      var before := events[..|events| - 1];
      ProtocolHolds(t, before);
      if events[|events| - 1].Launch? {
        LaunchKeeps(t, After(before), events[|events| - 1]);
      } else {
        ResolveKeeps(t, After(before), events[|events| - 1]);
      }
    }
  }

  /** A billed run that has launched anything stays within its limit. */
  lemma {:induction false} LimitHolds(t: Terms, events: seq<Event>)
    requires Legal(t, events) && Truthful(t, events) && !t.unbilled
    ensures After(events) == [] || Paid(events) <= t.limit
    ensures After(events) == [] ==> Paid(events) == 0
  {
    if events != [] {
      var before := events[..|events| - 1];
      LimitHolds(t, before);
      var e := events[|events| - 1];
      if e.Launch? { AdmittedIff(t, After(before), e.account, e.phase, e.task, e.role); }
    }
  }

  // ---------------------------------------------------------------- what the slots say of the run

  function Launches(events: seq<Event>): (launches: seq<Event>)
    ensures forall i :: 0 <= i < |launches| ==> launches[i].Launch?
  {
    if events == [] then []
    else Launches(events[..|events| - 1]) + (var e := events[|events| - 1]; if e.Launch? then [e] else [])
  }

  /** How many classifications found, or did not find, a reservation. */
  function Resolves(events: seq<Event>, present: bool): nat {
    if events == [] then 0
    else
      var e := events[|events| - 1];
      Resolves(events[..|events| - 1], present) + (if e.Resolve? && e.reservationPresent == present then 1 else 0)
  }

  predicate IsProducerRun(launches: seq<Event>, e: Event, phase: string, task: string)
    requires forall i :: 0 <= i < |launches| ==> launches[i].Launch?
  {
    && e.Resolve? && e.reservationPresent && 1 <= e.number <= |launches|
    && var l := launches[e.number - 1];
       l.phase == phase && l.task == task && (l.role == "implementer" || l.role == "spec-author" || l.role == "fixer")
  }

  /** How many of the task's producer launches were found to have a reservation. */
  function ProducerRuns(events: seq<Event>, phase: string, task: string): nat {
    if events == [] then 0
    else
      var before := events[..|events| - 1];
      ProducerRuns(before, phase, task)
      + (if IsProducerRun(Launches(before), events[|events| - 1], phase, task) then 1 else 0)
  }

  /** Slot n is the n-th launch. */
  ghost predicate Records(slots: seq<Slot>, launches: seq<Event>)
    requires forall i :: 0 <= i < |launches| ==> launches[i].Launch?
  {
    && |slots| == |launches|
    && forall i :: 0 <= i < |slots| ==>
         slots[i].phase == launches[i].phase && slots[i].task == launches[i].task && slots[i].role == launches[i].role
  }

  /** One classification adds its slot to one count and takes it from the unresolved ones. */
  lemma {:induction false} CountOfOneChange(slots: seq<Slot>, i: nat, c: Classification, k: Classification)
    requires i < |slots| && slots[i].classification == Unresolved && c != Unresolved
    ensures Count(slots[i := slots[i].(classification := c)], k) ==
            Count(slots, k) + (if k == c then 1 else if k == Unresolved then -1 else 0)
  {
    var after := slots[i := slots[i].(classification := c)];
    var init := slots[..|slots| - 1];
    if i < |slots| - 1 {
      CountOfOneChange(init, i, c, k);
      assert after[..|slots| - 1] == init[i := init[i].(classification := c)];
    } else {
      assert after[..|slots| - 1] == init;
    }
  }

  lemma {:induction false} AttemptsOfOneChange(slots: seq<Slot>, i: nat, c: Classification, phase: string, task: string)
    requires i < |slots| && slots[i].classification == Unresolved && c != Unresolved
    ensures var s := slots[i].(classification := c);
            ProducerAttempts(slots[i := s], phase, task) ==
            ProducerAttempts(slots, phase, task) + (if IsAttempt(s, phase, task) then 1 else 0)
  {
    var after := slots[i := slots[i].(classification := c)];
    var init := slots[..|slots| - 1];
    if i < |slots| - 1 {
      AttemptsOfOneChange(init, i, c, phase, task);
      assert after[..|slots| - 1] == init[i := init[i].(classification := c)];
    } else {
      assert after[..|slots| - 1] == init;
    }
  }

  /** The slots are the launches in order; those that reached the executor are counted by the
      classifications that found a reservation, those that did not by the ones that found none, and the
      rest are unresolved; and a task's producer attempts are its producer launches found to have one. */
  ghost predicate Says(slots: seq<Slot>, events: seq<Event>, phase: string, task: string) {
    && Records(slots, Launches(events))
    && Count(slots, ExecutorReached) == Resolves(events, true)
    && Count(slots, PreExecutorFailure) == Resolves(events, false)
    && Count(slots, Unresolved) == |Launches(events)| - Resolves(events, true) - Resolves(events, false)
    && ProducerAttempts(slots, phase, task) == ProducerRuns(events, phase, task)
  }

  lemma LaunchSays(slots: seq<Slot>, before: seq<Event>, e: Event, phase: string, task: string)
    requires Says(slots, before, phase, task) && e.Launch?
    ensures Says(Step(slots, e), before + [e], phase, task)
  {
    assert (before + [e])[..|before|] == before;
    assert Step(slots, e)[..|slots|] == slots;
  }

  lemma ResolveSays(slots: seq<Slot>, before: seq<Event>, e: Event, phase: string, task: string)
    requires Says(slots, before, phase, task) && e.Resolve?
    requires 1 <= e.number <= |slots| && slots[e.number - 1].classification == Unresolved
    ensures Says(Step(slots, e), before + [e], phase, task)
  {
    hide Count, ProducerAttempts;
    assert (before + [e])[..|before|] == before;
    var i, c := e.number - 1, Outcome(e.reservationPresent);
    CountOfOneChange(slots, i, c, ExecutorReached);
    CountOfOneChange(slots, i, c, PreExecutorFailure);
    CountOfOneChange(slots, i, c, Unresolved);
    AttemptsOfOneChange(slots, i, c, phase, task);
  }

  /** Over every run of the protocol the slots say what ran. */
  lemma {:induction false} SlotsSayWhatRan(t: Terms, events: seq<Event>, phase: string, task: string)
    requires Legal(t, events)
    ensures Says(After(events), events, phase, task)
  {
    hide Refusals, Says, Step;
    if events == [] {
      NothingSaid(phase, task);
    } else {
      var before, e := events[..|events| - 1], events[|events| - 1];
      SlotsSayWhatRan(t, before, phase, task);
      assert events == before + [e];
      if e.Launch? { LaunchSays(After(before), before, e, phase, task); }
      else { ResolveSays(After(before), before, e, phase, task); }
    }
  }

  lemma NothingSaid(phase: string, task: string)
    ensures Says([], [], phase, task)
  {
  }

  /** Admission, said of the run so far: every launch is classified and the account complete, there have
      been fewer launches than the ceiling, the money or the tokens leave room, and a producer has had
      no more runs that reached the executor than the repairs allow. */
  lemma AdmittedByHistory(t: Terms, events: seq<Event>, account: Account, phase: string, task: string, role: string)
    requires Legal(t, events)
    ensures Refusals(t, After(events), account, phase, task, role) == {} <==>
            && |Launches(events)| == Resolves(events, true) + Resolves(events, false)
            && account.complete
            && |Launches(events)| < t.ceiling
            && (if t.unbilled then t.allowance.None? || account.tokens < t.allowance.value
                else account.derived + t.reserve <= t.limit)
            && (role == "implementer" || role == "spec-author" || role == "fixer" ==>
                  ProducerRuns(events, phase, task) <= t.repairCycles)
  {
    hide Refusals, Count, ProducerAttempts, ProducerRuns, Resolves, Launches, After, Legal;
    SlotsSayWhatRan(t, events, phase, task);
    AdmittedIff(t, After(events), account, phase, task, role);
    NoneUnresolved(After(events));
  }

  /** A launch after an admission, and the classification of its own slot, are two more legal steps. */
  lemma Supervised(t: Terms, past: seq<Event>, launch: Event, resolve: Event, before: seq<Slot>, reserved: seq<Slot>)
    requires Legal(t, past) && After(past) == before && launch.Launch? && Allowed(t, before, launch)
    requires reserved == Step(before, launch) && resolve.Resolve? && resolve.number == |reserved|
    ensures Legal(t, past + [launch, resolve]) && After(past + [launch, resolve]) == Step(reserved, resolve)
    ensures IsFirst(reserved, |reserved| - 1, resolve.number)
    ensures forall i :: IsFirst(reserved, i, resolve.number) ==> i == |reserved| - 1
    ensures Step(reserved, resolve) == reserved[|reserved| - 1 :=
              reserved[|reserved| - 1].(classification := Outcome(resolve.reservationPresent))]
  {
    hide Refusals, ProducerAttempts, Count;
    ProtocolHolds(t, past);
    assert (past + [launch])[..|past|] == past;
    assert (past + [launch, resolve])[..|past| + 1] == past + [launch];
  }

  /** What the ledger object does is what the protocol's steps say. */
  method Supervise(ledger: Ledger, ghost past: seq<Event>, account: Account, phase: string, task: string, role: string,
                   reservationPresent: bool, ghost paid: int)
    returns (why: set<Refusal>, ghost events: seq<Event>)
    requires Legal(ledger.terms, past) && ledger.slots == After(past)
    modifies ledger`slots
    ensures Legal(ledger.terms, events) && ledger.slots == After(events)
    ensures why == Refusals(ledger.terms, old(ledger.slots), account, phase, task, role)
    ensures why != {} ==> events == past
    ensures why == {} ==>
              events == past + [Launch(account, phase, task, role, paid),
                                Resolve(|old(ledger.slots)| + 1, reservationPresent)]
  {
    hide Refusals, Deserved, ProducerAttempts, Count, After, Legal;
    events := past;
    why := ledger.Admit(account, phase, task, role);
    if why != {} { return; }
    ghost var before := ledger.slots;
    var slot := ledger.Reserve(phase, task, role);
    ghost var reserved := ledger.slots;
    ghost var launch := Launch(account, phase, task, role, paid);
    ghost var resolve := Resolve(slot.number, reservationPresent);
    Supervised(ledger.terms, past, launch, resolve, before, reserved);
    ledger.Classify(slot.number, reservationPresent);
    events := past + [launch, resolve];
  }
}
