/** What the bounded series writes down about one attempt, and everything it re-derives from that:
    how far the attempt got, whether it is a validity defect, what was spent, and what the slot has
    already used up. All of it is a function of the recorded rows and of nothing else. */
module SeriesRecord {
  import opened Common

  datatype Validity = Valid | SetupFailure | HarnessFailure

  datatype Stage =
    | NotOffered | BeforeLaunch | LauncherRefused | WorkerExecuted | InFlight | Unclassified

  /** The stop conditions of section 11, by letter. A is the retry rule and stops nothing. */
  datatype Letter = B | C | D | E | F | G | H | I | J

  /** A preallocated slot: which arm, and which repeat of it. */
  datatype Slot = Slot(item: string, repeat: int)

  /** What one attempt reported. `None` is an absent key, never a false or zero value. */
  datatype Evidence = Evidence(
    validity: Validity,
    began: Option<bool>,
    returncode: Option<int>,
    cost: Option<int>,
    workspace: bool,
    session: bool,
    unresolvedItems: nat,
    unresolvedComponents: nat,
    contradictions: nat,
    uncoveredEvents: nat,
    findings: nat,
    viewDestroyed: Option<bool>,
    arm: Option<string>,
    sourceBytes: nat,
    identities: map<string, string>,
    graded: bool)

  /** One measurement of the series record. `position` is 1-based in the frozen order. */
  datatype Row = Row(slot: Slot, position: nat, attempt: int, stage: Option<Stage>, evidence: Evidence)

  /** The identities a frozen stack names, by the label drift is reported under. */
  datatype Stack = Stack(frozen: map<string, string>, executor: string)

  /** Evidence of a row the loop wrote itself: nothing was observed. */
  function Nothing(validity: Validity, began: Option<bool>): Evidence {
    Evidence(validity, began, None, None, false, false, 0, 0, 0, 0, 0, None, None, 0, map[], false)
  }

  function InFlightRow(slot: Slot, position: nat, attempt: int): Row {
    Row(slot, position, attempt, Some(InFlight), Nothing(HarnessFailure, None))
  }

  function RefusedRow(slot: Slot, position: nat, attempt: int): Row {
    Row(slot, position, attempt, Some(NotOffered), Nothing(SetupFailure, Some(false)))
  }

  /** How far one recorded attempt got. The three stages no returned attempt can establish are read
      back as written; everything else is re-derived from what the attempt reported. */
  function ExecutionStage(r: Row): Stage {
    if r.stage.Some? && r.stage.value in {NotOffered, InFlight, Unclassified} then r.stage.value
    else if r.stage.None? && r.evidence.began.None? then Unclassified
    else if r.evidence.began != Some(true) then BeforeLaunch
    else if r.evidence.returncode.Some? && r.evidence.returncode.value != 0 then LauncherRefused
    else WorkerExecuted
  }

  /** The row an attempt's report becomes: any stage it claimed is dropped and derived instead. */
  function RecordedRow(slot: Slot, position: nat, attempt: int, report: Evidence): Row {
    var bare := Row(slot, position, attempt, None, report);
    bare.(stage := Some(ExecutionStage(bare)))
  }

  /** Writing the derived stage into a row and deriving again gives the same stage, so a restart
      classifies every row exactly as the process that wrote it did. */
  lemma StageIsReadBack(r: Row)
    ensures ExecutionStage(r.(stage := Some(ExecutionStage(r)))) == ExecutionStage(r)
  {
  }

  lemma RecordedStage(slot: Slot, position: nat, attempt: int, report: Evidence)
    ensures var row := RecordedRow(slot, position, attempt, report);
            && row.stage == Some(ExecutionStage(row))
            && ExecutionStage(row) !in {NotOffered, InFlight}
            && (ExecutionStage(row) == BeforeLaunch <==> report.began == Some(false))
            && (ExecutionStage(row) == Unclassified <==> report.began.None?)
  {
    if report.began.Some? { if report.began.value {} }
  }

  /** What each stage says of a row: a recorded refusal, in-flight or unclassified row stays that; any
      other is placed by whether it began and how the launcher came back. */
  lemma StageIff(r: Row)
    ensures ExecutionStage(r) == NotOffered <==> r.stage == Some(NotOffered)
    ensures ExecutionStage(r) == InFlight <==> r.stage == Some(InFlight)
    ensures ExecutionStage(r) == Unclassified <==>
            r.stage == Some(Unclassified) || (r.stage == None && r.evidence.began == None)
    ensures ExecutionStage(r) !in {NotOffered, InFlight, Unclassified} ==>
              && (ExecutionStage(r) == BeforeLaunch <==> r.evidence.began != Some(true))
              && (ExecutionStage(r) == WorkerExecuted <==>
                    && r.evidence.began == Some(true)
                    && (r.evidence.returncode == None || r.evidence.returncode == Some(0)))
              && (ExecutionStage(r) == LauncherRefused <==>
                    r.evidence.began == Some(true) && r.evidence.returncode != None && r.evidence.returncode != Some(0))
  {
  }

  predicate DigestMatches(value: string, frozen: string) {
    frozen == "" || StartsWith(LowerAscii(value), LowerAscii(frozen))
  }

  const PLAIN_FIELDS := ["model", "oracle", "package", "variant", "permission flag", "role"]
  const DIGEST_FIELDS := ["source_digest", "task_sha256", "contract_sha256", "executor"]

  /** One identity drifted: both sides recorded it and the values do not agree. */
  predicate Drifted(field: string, digest: bool, identities: map<string, string>, frozen: map<string, string>) {
    && field in frozen
    && field in identities
    && (if digest then !DigestMatches(identities[field], frozen[field]) else identities[field] != frozen[field])
  }

  predicate Drifts(e: Evidence, stack: Stack) {
    || (exists i :: 0 <= i < |PLAIN_FIELDS| && Drifted(PLAIN_FIELDS[i], false, e.identities, stack.frozen))
    || (exists i :: 0 <= i < |DIGEST_FIELDS| && Drifted(DIGEST_FIELDS[i], true, e.identities, stack.frozen))
  }

  /** The attempt recorded an identity the stack froze and the two disagree: a plain one by being
      different, a digest by not continuing the frozen prefix, letter case aside. */
  ghost predicate Disagrees(e: Evidence, stack: Stack, field: string) {
    && field in stack.frozen && field in e.identities
    && (|| (&& field in {"model", "oracle", "package", "variant", "permission flag", "role"}
            && e.identities[field] != stack.frozen[field])
        || (&& field in {"source_digest", "task_sha256", "contract_sha256", "executor"}
            && stack.frozen[field] != ""
            && forall rest :: LowerAscii(e.identities[field]) != LowerAscii(stack.frozen[field]) + rest))
  }

  lemma DriftsIff(e: Evidence, stack: Stack)
    ensures Drifts(e, stack) <==> exists field :: Disagrees(e, stack, field)
  {
    hide Drifted, Disagrees;
    forall i | 0 <= i < |PLAIN_FIELDS|
      ensures Drifted(PLAIN_FIELDS[i], false, e.identities, stack.frozen) ==> Disagrees(e, stack, PLAIN_FIELDS[i])
    {
      FieldDisagrees(e, stack, PLAIN_FIELDS[i]);
    }
    forall i | 0 <= i < |DIGEST_FIELDS|
      ensures Drifted(DIGEST_FIELDS[i], true, e.identities, stack.frozen) ==> Disagrees(e, stack, DIGEST_FIELDS[i])
    {
      FieldDisagrees(e, stack, DIGEST_FIELDS[i]);
    }
    if field :| Disagrees(e, stack, field) { FieldDisagrees(e, stack, field); }
  }

  lemma FieldDisagrees(e: Evidence, stack: Stack, field: string)
    ensures Disagrees(e, stack, field) <==>
            || (exists i :: 0 <= i < |PLAIN_FIELDS| && PLAIN_FIELDS[i] == field
                            && Drifted(PLAIN_FIELDS[i], false, e.identities, stack.frozen))
            || (exists i :: 0 <= i < |DIGEST_FIELDS| && DIGEST_FIELDS[i] == field
                            && Drifted(DIGEST_FIELDS[i], true, e.identities, stack.frozen))
  {
    hide LowerAscii, StartsWith;
    ComparedFields(field);
    if field in stack.frozen && field in e.identities {
      StartsWithIff(LowerAscii(e.identities[field]), LowerAscii(stack.frozen[field]));
    }
  }

  lemma ComparedFields(field: string)
    ensures field in {"model", "oracle", "package", "variant", "permission flag", "role"} <==>
            exists i :: 0 <= i < |PLAIN_FIELDS| && PLAIN_FIELDS[i] == field
    ensures field in {"source_digest", "task_sha256", "contract_sha256", "executor"} <==>
            exists i :: 0 <= i < |DIGEST_FIELDS| && DIGEST_FIELDS[i] == field
  {
    assert PLAIN_FIELDS[0] == "model" && PLAIN_FIELDS[1] == "oracle" && PLAIN_FIELDS[2] == "package";
    assert PLAIN_FIELDS[3] == "variant" && PLAIN_FIELDS[4] == "permission flag" && PLAIN_FIELDS[5] == "role";
    assert DIGEST_FIELDS[0] == "source_digest" && DIGEST_FIELDS[1] == "task_sha256";
    assert DIGEST_FIELDS[2] == "contract_sha256" && DIGEST_FIELDS[3] == "executor";
  }

  /** The first section 11 condition, in the document's order, that a completed attempt trips. */
  function ValidityDefect(e: Evidence, stack: Stack): Option<Letter> {
    if !e.workspace || !e.session then Some(D)
    else if e.unresolvedItems > 0 || e.unresolvedComponents > 0 then Some(E)
    else if e.contradictions > 0 || e.uncoveredEvents > 0 then Some(F)
    else if e.findings > 0 || e.viewDestroyed == Some(false) then Some(G)
    else if e.arm == Some("contract") && e.sourceBytes > 0 then Some(G)
    else if Drifts(e, stack) then Some(H)
    else if !e.graded then Some(I)
    else None
  }

  /** Each condition on its own, whatever the others say. */
  predicate Trips(e: Evidence, stack: Stack, l: Letter) {
    match l
    case D => !(e.workspace && e.session)
    case E => e.unresolvedItems + e.unresolvedComponents > 0
    case F => e.contradictions + e.uncoveredEvents > 0
    case G => e.findings > 0 || e.viewDestroyed == Some(false) || (e.arm == Some("contract") && e.sourceBytes > 0)
    case H => Drifts(e, stack)
    case I => !e.graded
    case _ => false
  }

  const IN_ORDER := [D, E, F, G, H, I]

  /** An attempt is stopped on the first condition of the document's order that it trips, and is free
      of defects exactly when it trips none. */
  lemma DefectIsTheFirstTripped(e: Evidence, stack: Stack)
    ensures ValidityDefect(e, stack).None? <==> forall i :: 0 <= i < |IN_ORDER| ==> !Trips(e, stack, IN_ORDER[i])
    ensures forall i :: 0 <= i < |IN_ORDER| ==>
              (ValidityDefect(e, stack) == Some(IN_ORDER[i]) <==>
                Trips(e, stack, IN_ORDER[i]) && forall j :: 0 <= j < i ==> !Trips(e, stack, IN_ORDER[j]))
  {
    hide Drifts;
    assert IN_ORDER[0] == D && IN_ORDER[1] == E && IN_ORDER[2] == F;
    assert IN_ORDER[3] == G && IN_ORDER[4] == H && IN_ORDER[5] == I;
  }

  predicate Defective(r: Row, stack: Stack) {
    r.evidence.validity == Valid && ValidityDefect(r.evidence, stack).Some?
  }

  /** Index of the first valid row that carries a defect, or the length of the record. */
  function FirstDefect(rows: seq<Row>, stack: Stack): (k: nat)
    ensures k <= |rows|
    ensures k < |rows| ==> Defective(rows[k], stack)
    ensures forall i :: 0 <= i < k ==> !Defective(rows[i], stack)
  {
    if rows == [] then 0
    else
      var k := FirstDefect(rows[..|rows| - 1], stack);
      if k < |rows| - 1 || Defective(rows[k], stack) then k else |rows|
  }

  /** The slots a record closes: those with a valid row. */
  function DoneKeys(rows: seq<Row>): (done: set<Slot>)
    ensures forall k :: k in done <==>
              exists i :: 0 <= i < |rows| && rows[i].slot == k && rows[i].evidence.validity == Valid
  {
    set r | r in rows && r.evidence.validity == Valid :: r.slot
  }

  /** How many attempts a slot has actually been given. */
  function Offered(rows: seq<Row>, key: Slot): nat {
    if rows == [] then 0
    else
      var last := rows[|rows| - 1];
      Offered(rows[..|rows| - 1], key) + (if last.slot == key && ExecutionStage(last) != NotOffered then 1 else 0)
  }

  /** The rows of a slot that used up one of its attempts: all but the refusals written in its place. */
  ghost function Used(rows: seq<Row>, key: Slot): set<int> {
    set i | 0 <= i < |rows| && rows[i].slot == key && rows[i].stage != Some(NotOffered)
  }

  lemma {:induction false} OfferedIsCount(rows: seq<Row>, key: Slot)
    ensures Offered(rows, key) == |Used(rows, key)|
  {
    if rows != [] {
      var init, last := rows[..|rows| - 1], rows[|rows| - 1];
      OfferedIsCount(init, key);
      StageIff(last);
      UsedOneMore(rows, key);
    }
  }

  lemma UsedOneMore(rows: seq<Row>, key: Slot)
    requires rows != []
    ensures var init, last := rows[..|rows| - 1], rows[|rows| - 1];
            var counts := last.slot == key && last.stage != Some(NotOffered);
            |Used(rows, key)| == |Used(init, key)| + if counts then 1 else 0
  {
    var init, last := rows[..|rows| - 1], rows[|rows| - 1];
    assert forall i :: 0 <= i < |init| ==> init[i] == rows[i];
    if last.slot == key && last.stage != Some(NotOffered) {
      assert Used(rows, key) == Used(init, key) + {|init|};
    } else {
      assert Used(rows, key) == Used(init, key);
    }
  }

  /** A row that forbids offering its slot again: in flight, or begun, and not valid. */
  predicate Unfinished(r: Row, key: Slot) {
    && r.slot == key
    && r.evidence.validity != Valid
    && (ExecutionStage(r) == InFlight || r.evidence.began == Some(true))
  }

  predicate Interrupted(rows: seq<Row>, key: Slot) {
    exists i :: 0 <= i < |rows| && Unfinished(rows[i], key)
  }

  predicate Unpriced(r: Row) {
    r.evidence.cost.None? && ExecutionStage(r) in {LauncherRefused, WorkerExecuted, InFlight, Unclassified}
  }

  /** A row leaves the account open exactly when it has no cost and nothing says it stopped short of the
      launcher: it began, or was lost in flight, or cannot be placed. */
  lemma UnpricedIff(r: Row)
    ensures Unpriced(r) <==>
            && r.evidence.cost == None
            && r.stage != Some(NotOffered)
            && (|| r.evidence.began == Some(true)
                || r.stage in {Some(InFlight), Some(Unclassified)}
                || (r.stage == None && r.evidence.began == None))
  {
  }

  function Derived(rows: seq<Row>): int {
    if rows == [] then 0
    else
      var cost := rows[|rows| - 1].evidence.cost;
      Derived(rows[..|rows| - 1]) + (if cost.Some? then cost.value else 0)
  }

  function UnpricedRows(rows: seq<Row>): seq<Row> {
    if rows == [] then []
    else
      var last := rows[|rows| - 1];
      UnpricedRows(rows[..|rows| - 1]) + (if Unpriced(last) then [last] else [])
  }

  predicate Complete(rows: seq<Row>) {
    forall i :: 0 <= i < |rows| ==> !Unpriced(rows[i])
  }

  /** The account the ceiling is checked against: what is known to be spent, and what is unknown. */
  method Spend(rows: seq<Row>) returns (derived: int, unpriced: seq<Row>)
    ensures derived == Derived(rows)
    ensures unpriced == [] <==> Complete(rows)
    ensures unpriced == UnpricedRows(rows)
  {
    derived, unpriced := 0, [];
    for i := 0 to |rows|
      invariant derived == Derived(rows[..i])
      invariant unpriced == UnpricedRows(rows[..i])
      invariant unpriced == [] <==> Complete(rows[..i])
    {
      var m := rows[i];
      assert rows[..i + 1][..i] == rows[..i];
      assert Complete(rows[..i + 1]) <==> Complete(rows[..i]) && !Unpriced(m) by {
        assert rows[..i + 1] == rows[..i] + [m];
        CompleteAppend(rows[..i], m);
      }
      if m.evidence.cost.Some? {
        derived := derived + m.evidence.cost.value;
      } else if Unpriced(m) {
        unpriced := unpriced + [m];
      }
    }
    assert rows[..|rows|] == rows;
  }

  lemma CompleteAppend(rows: seq<Row>, r: Row)
    ensures Complete(rows + [r]) <==> Complete(rows) && !Unpriced(r)
  {
    if Complete(rows + [r]) {
      forall i | 0 <= i < |rows| ensures !Unpriced(rows[i]) { assert (rows + [r])[i] == rows[i]; }
      assert (rows + [r])[|rows|] == r;
    }
  }

  lemma DoneAppend(rows: seq<Row>, r: Row)
    ensures DoneKeys(rows + [r]) == DoneKeys(rows) + (if r.evidence.validity == Valid then {r.slot} else {})
  {
  }

  lemma InterruptedAppend(rows: seq<Row>, r: Row, key: Slot)
    ensures Interrupted(rows + [r], key) <==> Interrupted(rows, key) || Unfinished(r, key)
  {
    if Interrupted(rows, key) {
      var i :| 0 <= i < |rows| && Unfinished(rows[i], key);
      assert Unfinished((rows + [r])[i], key);
    }
    if Unfinished(r, key) { assert Unfinished((rows + [r])[|rows|], key); }
  }
}
