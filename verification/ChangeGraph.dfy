/** The declared topology of a change, read from its file and compared with the accepted records. */
module ChangeGraph {
  import opened Common
  import opened Ordering
  import opened Dag
  import opened Json
  import opened PosixPath
  import opened Freeze

  const GRAPH_FORMAT := "proofbound-change-graph-v1"

  datatype Declared = Declared(scope: string, members: Dict<seq<string>>)

  /** One accepted ledger record. The last three fields say how it was accepted, not what. */
  datatype Record = Record(content: string, deps: Dict<string>, purpose: Option<string>,
                           role: string, gate: string, attempt: string)

  type Ledger = map<string, Record>

  ghost predicate IsLedger(ledger: Ledger) {
    forall p :: p in ledger ==> IsDict(ledger[p].deps)
  }

  // ---------------------------------------------------------------- reading a declaration

  predicate GraphShapeOk(raw: Value) {
    && raw.Obj?
    && (var d := AsDict(raw.fields).at;
        && "format" in d && d["format"] == Str(GRAPH_FORMAT)
        && d.Keys <= {"format", "artifacts"}
        && "artifacts" in d && d["artifacts"].Obj?)
  }

  function GraphEntries(raw: Value): Dict<Value>
    requires GraphShapeOk(raw)
  {
    AsDict(AsDict(raw.fields).at["artifacts"].fields)
  }

  lemma GraphShapeIff(raw: Value)
    ensures GraphShapeOk(raw) <==> HasShape(raw, "proofbound-change-graph-v1")
  {
    hide AsDict, LastOf;
    if raw.Obj? { KnownKeys(raw.fields, {"format", "artifacts"}); }
  }

  predicate TargetsOk(member: string, items: seq<Value>) {
    && (forall i :: 0 <= i < |items| ==> items[i].Str? && Accepted(items[i].s) && items[i].s != member)
    && (forall i, j :: 0 <= i < j < |items| ==> items[i] != items[j])
  }

  predicate MemberOk(member: string, v: Value, scope: string) {
    Accepted(member) && !IsControlFile(member) && InScope(member, scope) && v.Arr? && TargetsOk(member, v.items)
  }

  ghost predicate GraphOk(raw: Value, scope: string, lower: string -> string) {
    && GraphShapeOk(raw)
    && (forall m :: m in GraphEntries(raw).at ==> MemberOk(m, GraphEntries(raw).at[m], scope))
    && CaseDistinct(GraphEntries(raw).keys, lower)
  }

  function Targets(items: seq<Value>): (targets: seq<string>)
    requires forall i :: 0 <= i < |items| ==> items[i].Str?
    ensures |targets| == |items| && forall i :: 0 <= i < |items| ==> targets[i] == items[i].s
  {
    seq(|items|, i requires 0 <= i < |items| => items[i].s)
  }

  function SortedTargets(member: string, v: Value, scope: string): seq<string>
    requires MemberOk(member, v, scope)
  {
    Sort(Targets(v.items))
  }

  function DeclaredFrom(raw: Value, scope: string): Declared
    requires GraphShapeOk(raw) && forall m :: m in GraphEntries(raw).at ==> MemberOk(m, GraphEntries(raw).at[m], scope)
  {
    var e := GraphEntries(raw);
    Declared(scope, Dict(e.keys, map m | m in e.at :: SortedTargets(m, e.at[m], scope)))
  }

  /** A member's edges are the targets it listed, each once, ascending; those that are members close cycles. */
  lemma DeclaredSays(raw: Value, scope: string, m: string, t: string)
    requires GraphShapeOk(raw) && forall k :: k in GraphEntries(raw).at ==> MemberOk(k, GraphEntries(raw).at[k], scope)
    requires m in GraphEntries(raw).at
    ensures var g := DeclaredFrom(raw, scope);
            var items := GraphEntries(raw).at[m].items;
            && g.scope == scope && g.members.at.Keys == GraphEntries(raw).at.Keys
            && |g.members.at[m]| == |items| && Ascending(g.members.at[m]) && Distinct(g.members.at[m])
            && (t in g.members.at[m] <==> Str(t) in items)
            && (Edge(g.members.at, m, t) <==> t in GraphEntries(raw).at && Str(t) in items)
  {
    hide AsDict, Accepted, IsControlFile, InScope, Sort, Ascending;
    var items := GraphEntries(raw).at[m].items;
    var targets := Targets(items);
    SortAscends(targets);
    SortKeepsDistinct(targets);
    SameElements(Sort(targets), targets);
    assert |multiset(Sort(targets))| == |multiset(targets)|;
    forall x: string ensures x in targets <==> Str(x) in items {
      if x in targets {
        var i :| 0 <= i < |targets| && targets[i] == x;
        assert items[i] == Str(x);
      }
    }
  }

  function Strings(targets: seq<string>): (items: seq<Value>)
    ensures |items| == |targets| && forall i :: 0 <= i < |items| ==> items[i] == Str(targets[i])
  {
    seq(|targets|, i requires 0 <= i < |targets| => Str(targets[i]))
  }

  /** A member passes exactly when it may be declared and lists distinct accepted paths, none its own. */
  lemma MemberIff(member: string, v: Value, scope: string)
    ensures MemberOk(member, v, scope) <==>
            && Accepted(member) && !IsControlFile(member) && InScope(member, scope)
            && exists targets :: v == Arr(Strings(targets)) && Distinct(targets)
                                 && forall t :: t in targets ==> Accepted(t) && t != member
  {
    hide Accepted, IsControlFile, InScope;
    if MemberOk(member, v, scope) {
      var targets := Targets(v.items);
      assert v.items == Strings(targets);
    }
    if targets :|
      v == Arr(Strings(targets)) && Distinct(targets) && forall t :: t in targets ==> Accepted(t) && t != member
    {
      assert forall i :: 0 <= i < |targets| ==> v.items[i] == Str(targets[i]) && targets[i] in targets;
    }
  }

  /** What a loaded declaration guarantees. */
  ghost predicate DeclaredOk(g: Declared, lower: string -> string) {
    && IsDict(g.members)
    && (forall m :: m in g.members.at ==>
          && Accepted(m) && !IsControlFile(m) && InScope(m, g.scope)
          && Distinct(g.members.at[m])
          && forall t :: t in g.members.at[m] ==> Accepted(t) && t != m)
    && (forall m, n :: m in g.members.at && n in g.members.at && m != n ==> lower(m) != lower(n))
    && !Cyclic(g.members.at)
  }

  datatype GraphError = Malformed | Cycle(path: seq<string>)

  method LoadGraph(raw: Value, scope: string, lower: string -> string) returns (r: Result<Declared, GraphError>)
    ensures r == Err(GraphError.Malformed) <==> !GraphOk(raw, scope, lower)
    ensures r.Err? && r.error.Cycle? <==> GraphOk(raw, scope, lower) && Cyclic(DeclaredFrom(raw, scope).members.at)
    ensures r.Err? && r.error.Cycle? ==> ClosesCycle(DeclaredFrom(raw, scope).members.at, r.error.path)
    ensures r.Ok? ==> r.value == DeclaredFrom(raw, scope) && DeclaredOk(r.value, lower)
  {
    hide Cyclic, ClosesCycle, Accepted, AsDict, MemberOk, Targets, CaseDistinct, DeclaredOk;
    if !GraphShapeOk(raw) { return Err(GraphError.Malformed); }
    var entries := GraphEntries(raw);
    var ok := CheckEntries(entries, (m, v) => MemberOk(m, v, scope), lower);
    if !ok { return Err(GraphError.Malformed); }
    var g := DeclaredFrom(raw, scope);
    var cycle := AssertAcyclic(g.members.at, g.members.keys);
    if cycle.Some? { return Err(GraphError.Cycle(cycle.value)); }
    LoadedIsDeclared(raw, scope, lower);
    return Ok(g);
  }

  lemma LoadedIsDeclared(raw: Value, scope: string, lower: string -> string)
    requires GraphOk(raw, scope, lower) && !Cyclic(DeclaredFrom(raw, scope).members.at)
    ensures DeclaredOk(DeclaredFrom(raw, scope), lower)
  {
    hide Cyclic, Accepted, AsDict, Sort, IsControlFile, InScope;
    var e := GraphEntries(raw);
    var g := DeclaredFrom(raw, scope);
    KeysFoldApart(e, lower);
    forall m | m in g.members.at
      ensures Distinct(g.members.at[m]) && forall t :: t in g.members.at[m] ==> Accepted(t) && t != m
    {
      assert MemberOk(m, e.at[m], scope);
      var ts := Targets(e.at[m].items);
      SameElements(Sort(ts), ts);
      DistinctCount(ts);
      CountDistinct(Sort(ts));
    }
  }

  lemma KeysFoldApart<V>(d: Dict<V>, lower: string -> string)
    requires IsDict(d) && CaseDistinct(d.keys, lower)
    ensures forall m, n :: m in d.at && n in d.at && m != n ==> lower(m) != lower(n)
  {
  }

  // ---------------------------------------------------------------- comparing with the ledger

  datatype Finding =
    | MissingRecord(artifact: string)
    | NotValid(artifact: string)
    | MissingEdges(artifact: string, targets: set<string>)
    | UndeclaredEdges(artifact: string, targets: set<string>)
    | UndeclaredMember(artifact: string)
    | UnresolvedTarget(artifact: string, target: string)

  function Required(g: Declared, m: string): (targets: set<string>)
    requires m in g.members.at
    ensures forall t :: t in targets <==> t in g.members.at[m]
  {
    set t | t in g.members.at[m]
  }

  /** What each finding claims. */
  ghost predicate Finds(g: Declared, ledger: Ledger, states: map<string, string>, f: Finding) {
    match f
    case MissingRecord(m) => m in g.members.at && m !in ledger
    case NotValid(m) => m in g.members.at && m in ledger && !(m in states && states[m] == "valid")
    case MissingEdges(m, s) =>
      m in g.members.at && m in ledger && s == Required(g, m) - ledger[m].deps.at.Keys && s != {}
    case UndeclaredEdges(m, s) =>
      m in g.members.at && m in ledger && s == ledger[m].deps.at.Keys - Required(g, m) && s != {}
    case UndeclaredMember(p) => p in ledger && p !in g.members.at && !IsControlFile(p) && InScope(p, g.scope)
    case UnresolvedTarget(m, t) => m in g.members.at && t in g.members.at[m] && t !in g.members.at && t !in ledger
  }

  function RecordFindings(g: Declared, ledger: Ledger, states: map<string, string>, m: string): seq<Finding>
    requires m in g.members.at
  {
    if m !in ledger then [MissingRecord(m)]
    else
      var missing := Required(g, m) - ledger[m].deps.at.Keys;
      var extra := ledger[m].deps.at.Keys - Required(g, m);
      (if m in states && states[m] == "valid" then [] else [NotValid(m)])
      + (if missing != {} then [MissingEdges(m, missing)] else [])
      + (if extra != {} then [UndeclaredEdges(m, extra)] else [])
  }

  /** The pass a finding comes from. */
  function Pass(f: Finding): nat {
    if f.UndeclaredMember? then 1 else if f.UnresolvedTarget? then 2 else 0
  }

  /** The order of one member's findings in the first pass. */
  function Rank(f: Finding): nat {
    match f
    case MissingEdges(_, _) => 1
    case UndeclaredEdges(_, _) => 2
    case _ => 0
  }

  /** Pass by pass, path by path; one member's findings in their own order, its unresolved targets in
      the order it lists them. */
  predicate Precedes(g: Declared, f: Finding, h: Finding) {
    || Pass(f) < Pass(h)
    || (&& Pass(f) == Pass(h)
        && Leq(f.artifact, h.artifact)
        && (f.artifact == h.artifact ==>
              Rank(f) < Rank(h) || (f.UnresolvedTarget? && h.UnresolvedTarget? && ListedBefore(g, f, h))))
  }

  predicate ListedBefore(g: Declared, f: Finding, h: Finding)
    requires f.UnresolvedTarget? && h.UnresolvedTarget?
  {
    && f.artifact in g.members.at
    && var targets := g.members.at[f.artifact];
       exists i, j :: 0 <= i < j < |targets| && targets[i] == f.target && targets[j] == h.target
  }

  ghost predicate InReportOrder(g: Declared, out: seq<Finding>) {
    forall i, j :: 0 <= i < j < |out| ==> Precedes(g, out[i], out[j])
  }

  lemma JoinReports(g: Declared, a: seq<Finding>, b: seq<Finding>)
    requires InReportOrder(g, a) && InReportOrder(g, b) && forall x, y :: x in a && y in b ==> Precedes(g, x, y)
    ensures InReportOrder(g, a + b)
  {
    hide Precedes;
  }

  lemma EarlierPath(g: Declared, f: Finding, h: Finding, paths: seq<string>, i: nat)
    requires Ascending(paths) && Distinct(paths) && i < |paths|
    requires f.artifact in paths[..i] && h.artifact == paths[i] && Pass(f) <= Pass(h)
    ensures Precedes(g, f, h)
  {
    hide Leq;
  }

  /** Three passes: members, records inside the scope, dependency targets. `ledgerKeys` is the
      ledger's own listing of its paths. */
  method Evaluate(g: Declared, ledger: Ledger, ledgerKeys: seq<string>, states: map<string, string>)
    returns (out: seq<Finding>)
    requires IsDict(g.members) && Distinct(ledgerKeys) && forall p :: p in ledgerKeys <==> p in ledger
    ensures forall f :: f in out <==> Finds(g, ledger, states, f)
    ensures InReportOrder(g, out)
  {
    hide IsControlFile, InScope, Sort, Precedes, Finds, InReportOrder, Distinct, Ascending;
    var members := SortedKeys(g.members);
    SortedIsDistinct(g.members);
    SortAscends(g.members.keys);
    var edges := CompareRecords(g, ledger, states, members);

    var paths := Sort(ledgerKeys);
    SameElements(paths, ledgerKeys);
    SortAscends(ledgerKeys);
    SortKeepsDistinct(ledgerKeys);
    var strays := FindStrays(g, ledger, paths);
    forall x, y | x in edges && y in strays ensures Precedes(g, x, y) { LaterPass(g, x, y); }
    JoinReports(g, edges, strays);

    var loose := FindUnresolved(g, ledger, members);
    forall x, y | x in edges + strays && y in loose ensures Precedes(g, x, y) { LaterPass(g, x, y); }
    JoinReports(g, edges + strays, loose);
    out := edges + strays + loose;
    forall f ensures f in out <==> Finds(g, ledger, states, f) {
      FindingIsOfAPass(g, ledger, states, f);
    }
  }

  lemma LaterPass(g: Declared, x: Finding, y: Finding)
    requires Pass(x) < Pass(y)
    ensures Precedes(g, x, y)
  {
  }

  lemma SortKeepsDistinct(s: seq<string>)
    requires Distinct(s)
    ensures Distinct(Sort(s))
  {
    DistinctCount(s);
    CountDistinct(Sort(s));
  }

  /** Only the first pass reads states, and only it and the third are about members. */
  lemma FindingIsOfAPass(g: Declared, ledger: Ledger, states: map<string, string>, f: Finding)
    ensures f.UndeclaredMember? || f.UnresolvedTarget? ==> (Finds(g, ledger, states, f) <==> Finds(g, ledger, map[], f))
    ensures Finds(g, ledger, states, f) && !f.UndeclaredMember? ==> f.artifact in g.members.at
  {
  }

  method CompareRecords(g: Declared, ledger: Ledger, states: map<string, string>, members: seq<string>)
    returns (out: seq<Finding>)
    requires (forall m :: m in members <==> m in g.members.at) && Ascending(members) && Distinct(members)
    ensures forall f :: f in out <==> Pass(f) == 0 && Finds(g, ledger, states, f) && f.artifact in members
    ensures InReportOrder(g, out)
  {
    hide Finds, Precedes, RecordFindings, Ascending, Distinct, Leq;
    out := [];
    for i := 0 to |members|
      invariant forall f :: f in out <==> Pass(f) == 0 && Finds(g, ledger, states, f) && f.artifact in members[..i]
      invariant InReportOrder(g, out)
    {
      var m := members[i];
      assert m in members;
      assert members[..i + 1] == members[..i] + [m];
      RecordFindingsHold(g, ledger, states, m);
      RecordFindingsInOrder(g, ledger, states, m);
      var found := RecordFindings(g, ledger, states, m);
      forall x, y | x in out && y in found ensures Precedes(g, x, y) { EarlierPath(g, x, y, members, i); }
      JoinReports(g, out, found);
      out := out + found;
    }
    assert members[..|members|] == members;
  }

  lemma RecordFindingsHold(g: Declared, ledger: Ledger, states: map<string, string>, m: string)
    requires m in g.members.at
    ensures forall f :: f in RecordFindings(g, ledger, states, m) <==>
              Pass(f) == 0 && f.artifact == m && Finds(g, ledger, states, f)
  {
  }

  lemma RecordFindingsInOrder(g: Declared, ledger: Ledger, states: map<string, string>, m: string)
    requires m in g.members.at
    ensures InReportOrder(g, RecordFindings(g, ledger, states, m))
  {
    LeqTotal(m, m);
  }

  method FindStrays(g: Declared, ledger: Ledger, paths: seq<string>) returns (out: seq<Finding>)
    requires (forall p :: p in paths <==> p in ledger) && Ascending(paths) && Distinct(paths)
    ensures forall f :: f in out <==> f.UndeclaredMember? && Finds(g, ledger, map[], f)
    ensures InReportOrder(g, out)
  {
    hide IsControlFile, InScope, Precedes, Ascending, Distinct, Leq;
    out := [];
    for i := 0 to |paths|
      invariant forall f :: f in out <==> f.UndeclaredMember? && Finds(g, ledger, map[], f) && f.artifact in paths[..i]
      invariant InReportOrder(g, out)
    {
      var p := paths[i];
      assert p in paths;
      assert paths[..i + 1] == paths[..i] + [p];
      if p in g.members.at || IsControlFile(p) || !InScope(p, g.scope) { continue; }
      var stray := UndeclaredMember(p);
      forall x | x in out ensures Precedes(g, x, stray) { EarlierPath(g, x, stray, paths, i); }
      JoinReports(g, out, [stray]);
      out := out + [stray];
    }
    assert paths[..|paths|] == paths;
  }

  method FindUnresolved(g: Declared, ledger: Ledger, members: seq<string>) returns (out: seq<Finding>)
    requires (forall m :: m in members <==> m in g.members.at) && Ascending(members) && Distinct(members)
    ensures forall f :: f in out <==> f.UnresolvedTarget? && Finds(g, ledger, map[], f)
    ensures InReportOrder(g, out)
  {
    hide Finds, Precedes, Ascending, Distinct, Leq;
    out := [];
    for i := 0 to |members|
      invariant forall f :: f in out <==>
                  f.UnresolvedTarget? && Finds(g, ledger, map[], f) && f.artifact in members[..i]
      invariant InReportOrder(g, out)
    {
      var m := members[i];
      assert m in members;
      assert members[..i + 1] == members[..i] + [m];
      var found := UnresolvedOf(g, ledger, m);
      forall x, y | x in out && y in found ensures Precedes(g, x, y) { EarlierPath(g, x, y, members, i); }
      JoinReports(g, out, found);
      out := out + found;
    }
    assert members[..|members|] == members;
    forall f: Finding | f.UnresolvedTarget? && Finds(g, ledger, map[], f) ensures f.artifact in members {
      FindingIsOfAPass(g, ledger, map[], f);
    }
  }

  method UnresolvedOf(g: Declared, ledger: Ledger, m: string) returns (out: seq<Finding>)
    requires m in g.members.at
    ensures forall f :: f in out <==> f.UnresolvedTarget? && Finds(g, ledger, map[], f) && f.artifact == m
    ensures InReportOrder(g, out)
  {
    hide Precedes, Leq;
    var targets := g.members.at[m];
    out := [];
    for i := 0 to |targets|
      invariant forall f :: f in out <==>
                  f.UnresolvedTarget? && Finds(g, ledger, map[], f) && f.artifact == m && f.target in targets[..i]
      invariant InReportOrder(g, out)
    {
      assert targets[i] in targets;
      assert targets[..i + 1] == targets[..i] + [targets[i]];
      if targets[i] !in g.members.at && targets[i] !in ledger {
        var next := UnresolvedTarget(m, targets[i]);
        forall x | x in out ensures Precedes(g, x, next) { ListedTarget(g, x, next, i); }
        JoinReports(g, out, [next]);
        out := out + [next];
      }
    }
    assert targets[..|targets|] == targets;
  }

  lemma ListedTarget(g: Declared, f: Finding, h: Finding, i: nat)
    requires f.UnresolvedTarget? && h.UnresolvedTarget? && f.artifact == h.artifact && f.artifact in g.members.at
    requires var targets := g.members.at[f.artifact];
             i < |targets| && f.target in targets[..i] && h.target == targets[i]
    ensures Precedes(g, f, h)
  {
    LeqTotal(f.artifact, f.artifact);
    var targets := g.members.at[f.artifact];
    var k :| 0 <= k < i && targets[..i][k] == f.target;
    assert targets[k] == f.target;
  }

  // ---------------------------------------------------------------- deriving the freeze

  function BindingOf(r: Record): Binding {
    Binding(r.content, r.deps, r.purpose)
  }

  /** The freeze of the declared members, from their current records. */
  function Derived(g: Declared, ledger: Ledger): (f: Frozen)
    requires IsDict(g.members) && IsLedger(ledger) && forall m :: m in g.members.at ==> m in ledger
    ensures IsFrozen(f)
    ensures f.format == FORMAT && f.artifacts.at.Keys == g.members.at.Keys
    ensures forall m :: m in g.members.at ==> f.artifacts.at[m] == BindingOf(ledger[m])
  {
    SortedIsDistinct(g.members);
    Frozen(FORMAT, Dict(SortedKeys(g.members), map m | m in g.members.at :: BindingOf(ledger[m])))
  }

  /** Prints the derived freeze and loads it under its own schema before anyone sees it. */
  method Derive(g: Declared, ledger: Ledger, lower: string -> string) returns (r: Result<Frozen, FreezeError>)
    requires IsDict(g.members) && IsLedger(ledger)
    ensures r.Err? && r.error.NoRecord? <==> exists m :: m in g.members.at && m !in ledger
    ensures r.Err? && r.error.NoRecord? ==>
              && r.error.member in g.members.at && r.error.member !in ledger
              && forall m :: m in g.members.at && m !in ledger ==> Leq(r.error.member, m)
    ensures (forall m :: m in g.members.at ==> m in ledger) ==>
              var f := Derived(g, ledger);
              && (r == Err(FreezeError.Malformed) <==> !ValidFrozen(f, lower))
              && (r.Err? && r.error.Disagreement? <==> ValidFrozen(f, lower) && !Agrees(f))
              && (r.Err? && r.error.Cycle? <==> ValidFrozen(f, lower) && Agrees(f) && Cyclic(DependencyGraph(f)))
              && (r.Err? && r.error.Disagreement? ==> Clashes(f, r.error.member, r.error.target))
              && (r.Err? && r.error.Cycle? ==> ClosesCycle(DependencyGraph(f), r.error.path))
              && (r.Ok? ==> SameFrozen(r.value, f))
  {
    hide Cyclic, ClosesCycle, Clashes, Leq, Ascending, Agrees, ValidFrozen, SortedKeys, FreezeOk, CanonicalText,
         Loads, SameFrozen, IsFrozen, FrozenValue, FrozenFrom;
    var members := SortedKeys(g.members);
    var at: map<string, Binding> := map[];
    for i := 0 to |members|
      invariant forall j :: 0 <= j < i ==> members[j] in ledger
      invariant forall m :: m in at <==> m in members[..i]
      invariant forall m :: m in at ==> m in ledger && at[m] == BindingOf(ledger[m])
    {
      var m := members[i];
      assert m in members && members[..i + 1] == members[..i] + [m];
      if m !in ledger {
        FirstMissing(g, ledger, i);
        return Err(NoRecord(m));
      }
      at := at[m := BindingOf(ledger[m])];
    }
    assert members[..|members|] == members;
    assert forall m :: m in g.members.at ==> m in members;
    var f := Frozen(FORMAT, Dict(members, at));
    assert at == map m | m in g.members.at :: BindingOf(ledger[m]);
    assert f == Derived(g, ledger);
    LoadingUndoesPrinting(f, lower);
    var parsed := Loads(CanonicalText(f));
    r := LoadFreezeObject(parsed.value, lower);
    if ValidFrozen(f, lower) { LoadedChecks(f, lower); }
  }

  /** The first member of the sorted listing without a record is the least one. */
  lemma FirstMissing(g: Declared, ledger: Ledger, i: nat)
    requires IsDict(g.members) && i < |SortedKeys(g.members)| && SortedKeys(g.members)[i] !in ledger
    requires forall j :: 0 <= j < i ==> SortedKeys(g.members)[j] in ledger
    ensures forall m :: m in g.members.at && m !in ledger ==> Leq(SortedKeys(g.members)[i], m)
  {
    hide Leq, Sort;
    var members := SortedKeys(g.members);
    SortAscends(g.members.keys);
    LeqTotal(members[i], members[i]);
    forall m | m in g.members.at && m !in ledger ensures Leq(members[i], m) {
      var j :| 0 <= j < |members| && members[j] == m;
    }
  }

  lemma LoadedChecks(f: Frozen, lower: string -> string)
    requires IsFrozen(f) && ValidFrozen(f, lower)
    ensures FreezeOk(FrozenValue(f), lower)
    ensures var h := FrozenFrom(FrozenValue(f));
            && SameFrozen(h, f)
            && (Agrees(h) <==> Agrees(f)) && (Cyclic(DependencyGraph(h)) <==> Cyclic(DependencyGraph(f)))
            && (forall m, t :: Clashes(h, m, t) <==> Clashes(f, m, t))
            && (forall p :: ClosesCycle(DependencyGraph(h), p) ==> ClosesCycle(DependencyGraph(f), p))
  {
    hide Cyclic, Agrees, SortedKeys, CanonicalText, Loads, IsFrozen, FrozenValue;
    LoadingUndoesPrinting(f, lower);
    SameMeansSameChecks(FrozenFrom(FrozenValue(f)), f);
  }

  /** The records the graph declares are individually readable: digests are digests, and each was
      accepted for a purpose of the freeze vocabulary. */
  ghost predicate RecordsOk(g: Declared, ledger: Ledger) {
    forall m :: m in g.members.at && m in ledger ==>
      && DigestOk(ledger[m].content)
      && ledger[m].purpose.Some? && ledger[m].purpose.value in PURPOSES
      && forall t :: t in ledger[m].deps.at ==> DigestOk(ledger[m].deps.at[t])
  }

  /** Nothing found on a loaded graph is enough to derive: the freeze has exactly the declared members
      and exactly the declared edges, passes every check of its own schema, and can be refused only
      because two records disagree about a member's content. */
  lemma SatisfiedGraphDerives(g: Declared, ledger: Ledger, states: map<string, string>, lower: string -> string)
    requires DeclaredOk(g, lower) && IsLedger(ledger) && RecordsOk(g, ledger)
    requires forall f :: !Finds(g, ledger, states, f)
    ensures forall m :: m in g.members.at ==> m in ledger
    ensures var f := Derived(g, ledger);
            && f.artifacts.at.Keys == g.members.at.Keys
            && (forall m :: m in g.members.at ==> f.artifacts.at[m].deps.at.Keys == Required(g, m))
            && ValidFrozen(f, lower)
            && !Cyclic(DependencyGraph(f))
  {
    hide Cyclic, Accepted, DigestOk, IsControlFile, InScope, SortedKeys;
    forall m | m in g.members.at ensures m in ledger && ledger[m].deps.at.Keys == Required(g, m) {
      assert !Finds(g, ledger, states, MissingRecord(m));
      assert !Finds(g, ledger, states, MissingEdges(m, Required(g, m) - ledger[m].deps.at.Keys));
      assert !Finds(g, ledger, states, UndeclaredEdges(m, ledger[m].deps.at.Keys - Required(g, m)));
    }
    var f := Derived(g, ledger);
    forall m | m in g.members.at ensures ValidBinding(m, f.artifacts.at[m]) {
      assert forall t :: t in ledger[m].deps.at ==> t in g.members.at[m];
    }
    SameTopology(g, ledger);
  }

  lemma SameTopology(g: Declared, ledger: Ledger)
    requires IsDict(g.members) && IsLedger(ledger)
    requires forall m :: m in g.members.at ==> m in ledger && ledger[m].deps.at.Keys == Required(g, m)
    requires !Cyclic(g.members.at)
    ensures !Cyclic(DependencyGraph(Derived(g, ledger)))
  {
    var a := DependencyGraph(Derived(g, ledger));
    forall m, n | Edge(a, m, n) ensures Edge(g.members.at, m, n) {
      assert n in ledger[m].deps.at.Keys;
    }
    if Cyclic(a) {
      var x :| Dag.Reaches(a, x, x);
      var p :| WalkFrom(a, x, x, p);
      assert WalkFrom(g.members.at, x, x, p);
      assert Dag.Reaches(g.members.at, x, x);
    }
  }

  /** Identity carries what was accepted and not how: two ledgers print one text for a graph exactly
      when its members agree on content, dependency identities and purpose. Role, gate and attempt
      never show. */
  lemma IdentityIgnoresMechanics(g: Declared, before: Ledger, after: Ledger)
    requires IsDict(g.members) && IsLedger(before) && IsLedger(after)
    requires forall m :: m in g.members.at ==> m in before && m in after
    ensures CanonicalText(Derived(g, before)) == CanonicalText(Derived(g, after)) <==>
            forall m :: m in g.members.at ==>
              && before[m].content == after[m].content
              && before[m].deps.at == after[m].deps.at
              && before[m].purpose == after[m].purpose
  {
    hide CanonicalText, IsFrozen, SortedKeys, Derived;
    CanonicalTextIff(Derived(g, before), Derived(g, after));
    var a, b := Derived(g, before).artifacts.at, Derived(g, after).artifacts.at;
    assert SameArtifacts(Derived(g, before), Derived(g, after)) <==>
           forall m :: m in g.members.at ==> SameBinding(a[m], b[m]);
  }
}
