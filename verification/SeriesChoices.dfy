/** What a run decides at each of its choices, said of the record, the host and the report alone: when a
    slot is entered, what each stop means, and what a returned attempt leads to. */
module SeriesChoices {
  import opened Common
  import opened SeriesRecord
  import opened SeriesMachine
  import opened SeriesSafety

  /** The stop a machine came to, by letter; `None` while it runs and when it finished. */
  function StoppedOn(s: Machine): Option<Letter> {
    if s.mem.Halted? then s.mem.stop.Condition() else None
  }

  /** A host a slot may be entered on: its executor continues the frozen digest, and nothing an earlier
      slot left is on it. */
  ghost predicate Fit(c: Config, h: Host) {
    && !h.residue
    && exists rest :: h.executor == Some(LowerAscii(c.stack.executor) + rest)
  }

  /** Every row that may have cost something says what, and one more reserve fits. */
  ghost predicate HasRoom(c: Config, rows: seq<Row>) {
    c.budget == None ||
    (&& (forall i :: 0 <= i < |rows| ==>
           || rows[i].evidence.cost != None
           || rows[i].stage == Some(NotOffered)
           || !(|| rows[i].evidence.began == Some(true)
                || rows[i].stage in {Some(InFlight), Some(Unclassified)}
                || (rows[i].stage == None && rows[i].evidence.began == None)))
     && Derived(rows) + c.reserve <= c.budget.value)
  }

  lemma RoomIff(c: Config, rows: seq<Row>)
    ensures HasRoom(c, rows) <==> !OverBudget(c, rows)
  {
    hide Unpriced, Derived;
    forall i | 0 <= i < |rows| { UnpricedIff(rows[i]); }
  }

  lemma EligibleIff(c: Config, h: Host)
    ensures Eligible(h, c.stack) <==> exists rest :: h.executor == Some(LowerAscii(c.stack.executor) + rest)
  {
    hide StartsWith, LowerAscii;
    if h.executor.Some? { StartsWithIff(h.executor.value, LowerAscii(c.stack.executor)); }
  }

  /** When an offer enters a slot, and otherwise which stop it is: B with the attempts used up, J without
      room, H under another executor, G with residue, in that order. Entering writes the slot down as in
      flight; J and G write a refusal. */
  lemma OfferIff(c: Config, s: Machine, h: Host)
    requires Inv(c, s) && Enabled(c, s, Offer(h))
    ensures var t := Apply(c, s, Offer(h));
            var slot, pos := c.slots[s.mem.pos], s.mem.pos + 1;
            var used := |Used(s.disk, slot)|;
            var room := used < c.maxAttempts && HasRoom(c, s.disk);
            var frozen := exists rest :: h.executor == Some(LowerAscii(c.stack.executor) + rest);
            && (t.mem.Ready? <==> room && Fit(c, h))
            && (t.mem.Ready? || t.mem.Halted?)
            && (StoppedOn(t) == Some(B) <==> used >= c.maxAttempts)
            && (StoppedOn(t) == Some(J) <==> used < c.maxAttempts && !HasRoom(c, s.disk))
            && (StoppedOn(t) == Some(H) <==> room && !frozen)
            && (StoppedOn(t) == Some(G) <==> room && frozen && h.residue)
            && t.disk ==
               if t.mem.Ready? then s.disk + [InFlightRow(slot, pos, used + 1)]
               else if StoppedOn(t) in {Some(J), Some(G)} then s.disk + [RefusedRow(slot, pos, used + 1)]
               else s.disk
  {
    hide RecordOk, CallsRecorded, CallsCounted, Eligible, OverBudget, HasRoom, Used, Offered, Interrupted, Clean,
         DoneKeys;
    OfferedIsCount(s.disk, c.slots[s.mem.pos]);
    RoomIff(c, s.disk);
    EligibleIff(c, h);
  }

  /** What a returned attempt leads to. A valid one closes its slot exactly when it trips no condition, and
      otherwise stops on the first it trips. Any other stops on C exactly when it does not say that it never
      began, on G when it never began and found a leak, and otherwise leaves the slot open. */
  lemma ReturnIff(c: Config, s: Machine)
    requires Enabled(c, s, Return)
    ensures var t := Apply(c, s, Return);
            var report := s.mem.report;
            var valid := report.validity == Valid;
            && (t.mem.Choosing? <==> valid && forall i :: 0 <= i < |IN_ORDER| ==> !Trips(report, c.stack, IN_ORDER[i]))
            && (valid ==> forall i :: 0 <= i < |IN_ORDER| ==>
                  (StoppedOn(t) == Some(IN_ORDER[i]) <==>
                    && Trips(report, c.stack, IN_ORDER[i])
                    && forall j :: 0 <= j < i ==> !Trips(report, c.stack, IN_ORDER[j])))
            && (!valid ==>
                  && (StoppedOn(t) == Some(C) <==> report.began != Some(false))
                  && (StoppedOn(t) == Some(G) <==> report.began == Some(false) && report.findings > 0)
                  && (t.mem.Offering? <==> report.began == Some(false) && report.findings == 0))
            && (t.mem.Choosing? || t.mem.Offering? || t.mem.Halted?)
  {
    hide ValidityDefect, Trips, ExecutionStage;
    var Calling(rows, done, pos, tried, report) := s.mem;
    DefectIsTheFirstTripped(report, c.stack);
    RecordedStage(c.slots[pos], pos + 1, tried + 1, report);
    if report.began.Some? { if report.began.value {} }
  }

  /** What a restart does with the record it finds: it stops exactly when a valid row trips a condition, on
      the first such row's first one, and otherwise offers slots, those with a valid row closed. */
  lemma BootIff(c: Config, s: Machine)
    requires Enabled(c, s, Boot)
    ensures var t := Apply(c, s, Boot);
            && t.disk == s.disk
            && (t.mem.Halted? <==> exists i :: 0 <= i < |s.disk| && Stopping(c, s.disk[i]))
            && (!t.mem.Halted? ==>
                  && t.mem.Choosing? && t.mem.pos == 0
                  && forall key :: key in t.mem.done <==>
                       exists i :: 0 <= i < |s.disk| && s.disk[i].slot == key && s.disk[i].evidence.validity == Valid)
            && (t.mem.Halted? ==>
                  exists i :: 0 <= i < |s.disk| && Stopping(c, s.disk[i])
                              && (forall j :: 0 <= j < i ==> !Stopping(c, s.disk[j]))
                              && StoppedOn(t) == ValidityDefect(s.disk[i].evidence, c.stack))
  {
    hide ValidityDefect, DoneKeys, Stopping;
    forall i | 0 <= i < |s.disk| { StoppingIff(c, s.disk[i]); }
    assert s.disk[..|s.disk|] == s.disk;
    if FirstDefect(s.disk, c.stack) < |s.disk| { assert Stopping(c, s.disk[FirstDefect(s.disk, c.stack)]); }
  }

  lemma StoppingIff(c: Config, r: Row)
    ensures Stopping(c, r) <==> Defective(r, c.stack)
  {
    hide ValidityDefect, Trips;
    DefectIsTheFirstTripped(r.evidence, c.stack);
  }

  ghost predicate Stopping(c: Config, r: Row) {
    r.evidence.validity == Valid && exists i :: 0 <= i < |IN_ORDER| && Trips(r.evidence, c.stack, IN_ORDER[i])
  }

  /** What a run does with the next slot: finished when there is none; passed over when it is closed; stopped
      on C when an earlier attempt on it began, or was lost in flight, and did not come back valid; and
      otherwise offered. */
  lemma ChooseIff(c: Config, s: Machine)
    requires Enabled(c, s, Choose) && s.mem.rows == s.disk
    ensures var t := Apply(c, s, Choose);
            var more := s.mem.pos < |c.slots|;
            && (t.mem.Halted? && t.mem.stop == Finished <==> !more)
            && (more ==>
                  var slot := c.slots[s.mem.pos];
                  var lost := exists i :: 0 <= i < |s.disk| && s.disk[i].slot == slot
                                && s.disk[i].evidence.validity != Valid
                                && (s.disk[i].stage == Some(InFlight) || s.disk[i].evidence.began == Some(true));
                  && (t.mem.Choosing? <==> slot in s.mem.done)
                  && (StoppedOn(t) == Some(C) <==> slot !in s.mem.done && lost)
                  && (t.mem.Offering? <==> slot !in s.mem.done && !lost))
  {
    hide ExecutionStage, Offered;
    forall i | 0 <= i < |s.disk| { StageIff(s.disk[i]); }
    if s.mem.pos < |c.slots| {
      var slot := c.slots[s.mem.pos];
      assert forall i :: 0 <= i < |s.disk| ==> (Unfinished(s.disk[i], slot) <==>
               s.disk[i].slot == slot && s.disk[i].evidence.validity != Valid
               && (s.disk[i].stage == Some(InFlight) || s.disk[i].evidence.began == Some(true)));
    }
  }
}
