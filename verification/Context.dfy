/** Where the contents of one transcript part came from: causal evidence first, form last, and a
    session memory that lets a replay keep the history of what it replays. */
module Context {
  import opened Common
  import opened Lineage

  datatype Origin =
    | Application | Behaviour | Harness | ImplMetadata | ImplRuntime | ImplSource
    | ModelDerived | Other | PublicContract | Unresolved

  const IMPLEMENTATION := {ImplSource, ImplRuntime, ImplMetadata}

  /** In the order of the origins' recorded names, which is what breaks a tie. */
  const BY_NAME := [Application, Behaviour, Harness, ImplMetadata, ImplRuntime, ImplSource,
                    ModelDerived, Other, PublicContract, Unresolved]

  /** How strongly an origin is evidenced. */
  datatype Basis = Ancestry | ArtifactPath | Author | Content | ByRoute | Default
  {
    predicate Settled() { Ancestry? || ArtifactPath? || Author? }
  }

  datatype Route = SourceFile | Search | Documentation | Introspection | Run | Edit | Unknown

  /** One normalised part. Paths, routes and the text's decomposition are inputs: `classified` is
      what the opened artifact's own path says, `hits` whether the text discloses internal names. */
  datatype Inbound = Inbound(
    toolOrUser: bool,
    command: bool,
    route: Route,
    routeHint: Option<Origin>,
    author: bool,
    artifact: Option<string>,
    classified: Origin,
    referenced: seq<string>,
    openedSource: bool,
    produces: seq<(string, Origin)>,
    text: string,
    comp: Comp,
    hits: bool,
    metadataRefs: nat,
    metadataBytes: nat,
    namesSourceFile: bool)

  /** What the decomposition guarantees, and what the route hints can be. */
  ghost predicate WellFormed(x: Inbound) {
    && Partition(x.comp)
    && (forall f :: f in FORMS && x.comp.bytes[f] > 0 ==> x.comp.lines[f] != [])
    && (x.comp.lines[SourceForm] != [] ==> x.comp.bytes[SourceForm] >= MATERIAL_BYTES)
    && (x.metadataRefs > 0 <==> x.metadataBytes > 0)
    && (x.routeHint.Some? ==> x.routeHint.value in {Harness, Application})
  }

  /** What the session has established so far. */
  datatype Memory = Memory(
    artifacts: map<string, Origin>,
    content: map<(Form, Identity), Origin>,
    lines: map<string, Origin>)

  datatype Part = Part(
    form: Label,
    bytes: nat,
    origin: Origin,
    identity: Option<Identity>,
    replayed: bool,
    sourceLines: seq<string>)

  datatype Item = Item(
    requested: Origin,
    basis: Basis,
    origin: Origin,
    parts: seq<Part>,
    comp: Comp,
    hits: bool,
    metadataBytes: nat)

  // ---------------------------------------------------------------- the request

  /** What one activity's output is, once its request and its answer have both spoken. */
  function CommandProvenance(x: Inbound): Origin
    requires OverForms(x.comp)
  {
    var b := x.comp.bytes;
    var rendered := b[Disassembly] + b[RuntimeStructure];
    if x.openedSource then
      if b[SourceForm] >= MATERIAL_BYTES then ImplSource
      else if rendered >= MATERIAL_BYTES then ImplRuntime
      else if b[PathMetadata] >= MATERIAL_BYTES then ImplMetadata
      else Other
    else if x.route == Documentation || x.route == Introspection then
      if x.hits then ImplRuntime else PublicContract
    else if x.route == Run then Behaviour
    else if rendered >= MATERIAL_BYTES then ImplRuntime
    else if b[PathMetadata] >= MATERIAL_BYTES then ImplMetadata
    else Other
  }

  /** The first referenced path some earlier event produced. */
  function Inherited(paths: seq<string>, artifacts: map<string, Origin>): Option<Origin> {
    if paths == [] then None
    else if paths[0] in artifacts then Some(artifacts[paths[0]])
    else Inherited(paths[1..], artifacts)
  }

  datatype Request = Request(requested: Origin, basis: Basis, ancestry: Option<Origin>)

  /** The precedence table, before the content is looked at. */
  function Precedence(m: Memory, x: Inbound): Request
    requires OverForms(x.comp)
  {
    var r0 :=
      if x.artifact.Some? then
        if x.artifact.value in m.artifacts then Request(x.classified, Ancestry, Some(m.artifacts[x.artifact.value]))
        else if x.classified in {ImplSource, ImplRuntime, PublicContract} then Request(x.classified, ArtifactPath, None)
        else Request(x.classified, Default, None)
      else Request(Other, Default, None);
    var linked := if r0.ancestry.None? then Inherited(x.referenced, m.artifacts) else None;
    var r1 := if linked.Some? then Request(r0.requested, Ancestry, linked) else r0;
    var r2 := if r1.ancestry.None? && x.author then Request(ModelDerived, Author, None) else r1;
    if r2.basis == Default && r2.requested == Other then
      var hint := if x.command || x.route == Search then Some(CommandProvenance(x)) else x.routeHint;
      if hint.Some? && hint.value != Other then
        Request(hint.value, if x.openedSource then ArtifactPath else ByRoute, None)
      else r2
    else r2
  }

  // ---------------------------------------------------------------- echoes

  function CountOf(lines: seq<string>, known: map<string, Origin>, o: Origin): nat {
    if lines == [] then 0
    else
      var last := lines[|lines| - 1];
      CountOf(lines[..|lines| - 1], known, o) + (if last in known && known[last] == o then 1 else 0)
  }

  /** The origin most lines replay; the greatest name on a tie. */
  function Winner(lines: seq<string>, known: map<string, Origin>, n: nat): (w: Option<Origin>)
    requires n <= |BY_NAME|
  {
    if n == 0 then None
    else
      var best := Winner(lines, known, n - 1);
      var o := BY_NAME[n - 1];
      var count := CountOf(lines, known, o);
      if count > 0 && (best.None? || count >= CountOf(lines, known, best.value)) then Some(o) else best
  }

  /** Origin number `j` accounts for some of the lines, for no fewer than any origin named before it, and
      for more than any named after it. */
  ghost predicate Leads(lines: seq<string>, known: map<string, Origin>, j: nat, n: nat)
    requires j < n <= |BY_NAME|
  {
    && CountOf(lines, known, BY_NAME[j]) > 0
    && (forall k :: 0 <= k <= j ==> CountOf(lines, known, BY_NAME[k]) <= CountOf(lines, known, BY_NAME[j]))
    && (forall k :: j < k < n ==> CountOf(lines, known, BY_NAME[k]) < CountOf(lines, known, BY_NAME[j]))
  }

  lemma StillLeads(lines: seq<string>, known: map<string, Origin>, j: nat, n: nat)
    requires j < n < |BY_NAME| && Leads(lines, known, j, n)
    requires CountOf(lines, known, BY_NAME[n]) < CountOf(lines, known, BY_NAME[j])
    ensures Leads(lines, known, j, n + 1)
  {
    hide CountOf;
  }

  lemma LastLeads(lines: seq<string>, known: map<string, Origin>, n: nat, best: int)
    requires n < |BY_NAME| && CountOf(lines, known, BY_NAME[n]) > 0
    requires forall k :: 0 <= k < n ==> CountOf(lines, known, BY_NAME[k]) <= best
    requires CountOf(lines, known, BY_NAME[n]) >= best
    ensures Leads(lines, known, n, n + 1)
  {
    hide CountOf;
  }

  lemma LeaderIsMost(lines: seq<string>, known: map<string, Origin>, j: nat, n: nat)
    requires j < n <= |BY_NAME| && Leads(lines, known, j, n)
    ensures CountOf(lines, known, BY_NAME[j]) > 0
    ensures forall k :: 0 <= k < n ==> CountOf(lines, known, BY_NAME[k]) <= CountOf(lines, known, BY_NAME[j])
  {
    hide CountOf;
  }

  lemma {:induction false} WinnerLeads(lines: seq<string>, known: map<string, Origin>, n: nat)
    returns (j: nat)
    requires n <= |BY_NAME|
    ensures Winner(lines, known, n).None? ==> forall k :: 0 <= k < n ==> CountOf(lines, known, BY_NAME[k]) == 0
    ensures Winner(lines, known, n).Some? ==>
              j < n && Winner(lines, known, n) == Some(BY_NAME[j]) && Leads(lines, known, j, n)
  {
    hide CountOf, Leads;
    j := 0;
    if n > 0 {
      var i := WinnerLeads(lines, known, n - 1);
      var count := CountOf(lines, known, BY_NAME[n - 1]);
      var before := Winner(lines, known, n - 1);
      if before.Some? { LeaderIsMost(lines, known, i, n - 1); }
      if count > 0 && (before.None? || count >= CountOf(lines, known, before.value)) {
        j := n - 1;
        LastLeads(lines, known, n - 1, if before.None? then 0 else CountOf(lines, known, before.value));
      } else {
        j := i;
        if before.Some? { StillLeads(lines, known, i, n - 1); }
      }
    }
  }

  /** Two origins cannot both lead. */
  lemma OneLeads(lines: seq<string>, known: map<string, Origin>, i: nat, j: nat)
    requires i < |BY_NAME| && j < |BY_NAME|
    requires Leads(lines, known, i, |BY_NAME|) && Leads(lines, known, j, |BY_NAME|)
    ensures i == j
  {
    hide CountOf;
  }

  /** A partial replay takes the origin most of its known lines were seen with, the last by name of those
      that tie; it is no replay exactly when none of its lines is known. */
  lemma WinnerIff(lines: seq<string>, known: map<string, Origin>, j: nat)
    requires j < |BY_NAME|
    ensures Winner(lines, known, |BY_NAME|) == Some(BY_NAME[j]) <==> Leads(lines, known, j, |BY_NAME|)
    ensures Winner(lines, known, |BY_NAME|).None? <==> forall l :: l in lines ==> l !in known
  {
    hide CountOf, Winner, Leads;
    var i := WinnerLeads(lines, known, |BY_NAME|);
    var w := Winner(lines, known, |BY_NAME|);
    if w.Some? {
      LeaderIsMost(lines, known, i, |BY_NAME|);
      CountPositive(lines, known, w.value);
    }
    if Leads(lines, known, j, |BY_NAME|) {
      LeaderIsMost(lines, known, j, |BY_NAME|);
      if w.Some? { OneLeads(lines, known, i, j); }
    }
    if w == Some(BY_NAME[j]) { NamedOnce(i, j); }
    if l :| l in lines && l in known {
      var k := NamedAt(known[l]);
      CountPositive(lines, known, known[l]);
    }
  }

  lemma NamedOnce(i: nat, j: nat)
    requires i < |BY_NAME| && j < |BY_NAME| && BY_NAME[i] == BY_NAME[j]
    ensures i == j
  {
  }

  function NamedAt(o: Origin): (k: nat)
    ensures k < |BY_NAME| && BY_NAME[k] == o
  {
    match o
    case Application => 0
    case Behaviour => 1
    case Harness => 2
    case ImplMetadata => 3
    case ImplRuntime => 4
    case ImplSource => 5
    case ModelDerived => 6
    case Other => 7
    case PublicContract => 8
    case Unresolved => 9
  }

  lemma {:induction false} CountPositive(lines: seq<string>, known: map<string, Origin>, o: Origin)
    ensures CountOf(lines, known, o) > 0 <==> exists l :: l in lines && l in known && known[l] == o
  {
    if lines != [] {
      var init, last := lines[..|lines| - 1], lines[|lines| - 1];
      CountPositive(init, known, o);
      assert lines == init + [last];
    }
  }

  /** What one form of this text replays, if anything. Source is also recognised line by line. */
  function Echo(m: Memory, c: Comp, f: Form): Option<Origin>
    requires OverForms(c)
  {
    var id := ComponentIdentity(c, f);
    if id.Some? && (f, id.value) in m.content then Some(m.content[(f, id.value)])
    else if f == SourceForm then Winner(c.lines[SourceForm], m.lines, |BY_NAME|)
    else None
  }

  // ---------------------------------------------------------------- resolving one part

  /** The origin one form is evidence of when nothing causal has spoken. */
  function FormOrigin(f: Form, requested: Origin, namesSourceFile: bool): Origin {
    match f
    case Disassembly => ImplRuntime
    case RuntimeStructure => ImplRuntime
    case PathMetadata => ImplMetadata
    case _ =>
      if requested in {Application, Harness} then Unresolved
      else if requested in {Other, Unresolved} then (if namesSourceFile then ImplSource else Unresolved)
      else if namesSourceFile then ImplSource
      else requested
  }

  function PartFor(m: Memory, x: Inbound, r: Request, f: Form): Part
    requires OverForms(x.comp)
  {
    EveryForm(f);
    var echo := if r.basis.Settled() then None else Echo(m, x.comp, f);
    var origin :=
      if r.basis.Settled() then (if r.ancestry.Some? then r.ancestry.value else r.requested)
      else if echo.Some? then echo.value
      else FormOrigin(f, r.requested, x.namesSourceFile);
    Part(Of(f), x.comp.bytes[f], origin, ComponentIdentity(x.comp, f), echo.Some?,
         if f == SourceForm then x.comp.lines[SourceForm] else [])
  }

  function PartsFor(m: Memory, x: Inbound, r: Request, forms: seq<Form>): (parts: seq<Part>)
    requires OverForms(x.comp)
    ensures |parts| == |forms|
    ensures forall i :: 0 <= i < |forms| ==> parts[i] == PartFor(m, x, r, forms[i])
  {
    seq(|forms|, i requires 0 <= i < |forms| => PartFor(m, x, r, forms[i]))
  }

  datatype ResolveError = NoDominantComponent

  /** What the container as a whole is called. A dominant form outside the module speaks only when the
      request said nothing, and then it must have a component to speak for it. */
  function ItemOrigin(m: Memory, x: Inbound, r: Request): Result<Origin, ResolveError>
    requires OverForms(x.comp)
  {
    if r.basis.Settled() then Ok(if r.ancestry.Some? then r.ancestry.value else r.requested)
    else
      var d := Dominant(x.comp);
      if d.Some? && d.value != PathMetadata && IsMaterial(x.comp, d.value) then Ok(PartFor(m, x, r, d.value).origin)
      else if r.requested != Other then Ok(r.requested)
      else if d.Some? then
        if IsMaterial(x.comp, d.value) then Ok(PartFor(m, x, r, d.value).origin) else Err(NoDominantComponent)
      else Ok(Other)
  }

  /** The parts, and the whole item as its own part when it was attributed to the module as a whole
      and recognised in none of them. */
  function ItemParts(m: Memory, x: Inbound, r: Request, origin: Origin): seq<Part>
    requires OverForms(x.comp)
  {
    var parts := PartsFor(m, x, r, MaterialForms(x.comp));
    if origin in IMPLEMENTATION && forall p :: p in parts ==> p.origin != origin then
      parts + [Part(FormOf(x.comp), x.comp.total, origin, Some(x.text), false, [])]
    else parts
  }

  function ImplementationParts(parts: seq<Part>): bool {
    exists p :: p in parts && p.origin in IMPLEMENTATION
  }

  function Attribute(m: Memory, x: Inbound): Result<Item, ResolveError>
    requires OverForms(x.comp)
  {
    var r := Precedence(m, x);
    match ItemOrigin(m, x, r)
    case Err(e) => Err(e)
    case Ok(origin) =>
      var parts := ItemParts(m, x, r, origin);
      var basis :=
        if r.basis.Settled() || origin == r.requested then r.basis
        else if exists p :: p in parts && p.origin == origin && p.replayed then Ancestry
        else Content;
      // The interior disclosed by an inbound part and attributed to nothing is an open question.
      var open := x.toolOrUser && x.hits && !basis.Settled() && origin !in IMPLEMENTATION
                  && !ImplementationParts(parts) && x.metadataRefs == 0;
      Ok(Item(r.requested, basis, if open then Unresolved else origin, parts, x.comp, x.hits, x.metadataBytes))
  }

  // ---------------------------------------------------------------- the safety net

  datatype Contradiction = Unattributed(form: Form) | SourceWithoutContent | NamesUnattributed

  predicate Missed(i: Item, f: Form)
    requires OverForms(i.comp)
  {
    EveryForm(f);
    (forall p :: p in i.parts ==> p.form != Of(f)) && IsMaterial(i.comp, f) && i.comp.bytes[f] > 0
  }

  /** Re-derives materiality from the counts and asks whether anything went unattributed. */
  function ContradictionOf(i: Item): Option<Contradiction>
    requires OverForms(i.comp)
  {
    if i.origin == Unresolved then None
    else if Missed(i, SourceForm) then Some(Unattributed(SourceForm))
    else if Missed(i, Disassembly) then Some(Unattributed(Disassembly))
    else if Missed(i, RuntimeStructure) then Some(Unattributed(RuntimeStructure))
    else if Missed(i, PathMetadata) then Some(Unattributed(PathMetadata))
    else if i.origin == ImplSource && !i.basis.Settled() && i.comp.bytes[SourceForm] < MATERIAL_BYTES then
      Some(SourceWithoutContent)
    else if i.hits && !i.basis.Settled() && !ImplementationParts(i.parts)
            && i.origin !in IMPLEMENTATION && i.metadataBytes == 0 then
      Some(NamesUnattributed)
    else None
  }

  /** Only evidence of opening a source file can make `implementation-source` the request. */
  lemma SourceRequestIsSettled(m: Memory, x: Inbound)
    requires OverForms(x.comp) && (x.routeHint.Some? ==> x.routeHint.value in {Harness, Application})
    ensures var r := Precedence(m, x); r.requested == ImplSource ==> r.basis.Settled()
  {
  }

  lemma MaterialHasPart(m: Memory, x: Inbound, r: Request, f: Form)
    requires OverForms(x.comp) && f != OtherForm && IsMaterial(x.comp, f)
    ensures PartFor(m, x, r, f) in PartsFor(m, x, r, MaterialForms(x.comp))
  {
    hide PartFor, IsMaterial;
    var forms := MaterialForms(x.comp);
    var i :| 0 <= i < |forms| && forms[i] == f;
    assert PartsFor(m, x, r, forms)[i] == PartFor(m, x, r, f);
  }

  /** An item called implementation source on unsettled evidence either replays source or carries it. */
  lemma SourceItemsCarrySource(m: Memory, x: Inbound)
    requires WellFormed(x) && Attribute(m, x).Ok?
    ensures var i := Attribute(m, x).value;
            i.origin == ImplSource && !i.basis.Settled() ==> i.comp.bytes[SourceForm] >= MATERIAL_BYTES
  {
    hide MaterialForms, FormOf, Echo, Precedence, ImplementationParts, ComponentIdentity;
    var r := Precedence(m, x);
    var i := Attribute(m, x).value;
    SourceRequestIsSettled(m, x);
    if i.origin == ImplSource && !i.basis.Settled() {
      var f := Dominant(x.comp).value;
      var p := PartFor(m, x, r, f);
      assert p.origin == ImplSource;
      MaterialHasPart(m, x, r, f);
      assert p in i.parts;
      assert !p.replayed && f == SourceForm;
    }
  }

  /** No item the resolver produces leaves a material component attributed to nothing, or is called
      implementation source without source in it; and no tool or user part trips the net at all. */
  lemma SafetyNet(m: Memory, x: Inbound)
    requires WellFormed(x) && Attribute(m, x).Ok?
    ensures var c := ContradictionOf(Attribute(m, x).value);
            && (c.None? || c.value == NamesUnattributed)
            && (x.toolOrUser ==> c.None?)
  {
    hide MaterialForms, FormOf, Precedence, PartFor, ItemOrigin, Dominant;
    var r := Precedence(m, x);
    var i := Attribute(m, x).value;
    SourceItemsCarrySource(m, x);
    forall f | f != OtherForm && IsMaterial(x.comp, f) ensures !Missed(i, f) {
      MaterialHasPart(m, x, r, f);
      PartForm(m, x, r, f);
      assert PartFor(m, x, r, f) in i.parts;
    }
  }

  lemma PartForm(m: Memory, x: Inbound, r: Request, f: Form)
    requires OverForms(x.comp)
    ensures PartFor(m, x, r, f).form == Of(f)
  {
  }

  /** What an unsettled item is called: its dominant material form speaks for it, a file listing only
      when the request said nothing, and otherwise the request does. */
  function ContainerOrigin(m: Memory, x: Inbound, r: Request): Origin
    requires OverForms(x.comp)
  {
    var d := Dominant(x.comp);
    if d.Some? && IsMaterial(x.comp, d.value) && (d.value != PathMetadata || r.requested == Other)
    then PartFor(m, x, r, d.value).origin
    else r.requested
  }

  lemma UnsettledItemOrigin(m: Memory, x: Inbound, r: Request)
    requires OverForms(x.comp) && !r.basis.Settled() && ItemOrigin(m, x, r).Ok?
    ensures ItemOrigin(m, x, r).value == ContainerOrigin(m, x, r)
  {
    hide PartFor, IsMaterial, Dominant;
  }

  /** Outside the module's origins, the parts of an item are its material forms and nothing else. */
  lemma PartsAreMaterialForms(m: Memory, x: Inbound, r: Request, o: Origin)
    requires OverForms(x.comp) && o !in IMPLEMENTATION
    ensures forall p :: p in ItemParts(m, x, r, o) <==>
              exists f :: f != OtherForm && IsMaterial(x.comp, f) && p == PartFor(m, x, r, f)
  {
    hide PartFor, IsMaterial, FormOf;
    var forms := MaterialForms(x.comp);
    var parts := PartsFor(m, x, r, forms);
    forall p | p in parts ensures exists f :: f != OtherForm && IsMaterial(x.comp, f) && p == PartFor(m, x, r, f) {
      var i :| 0 <= i < |parts| && parts[i] == p;
      assert forms[i] in forms;
    }
    forall f | f != OtherForm && IsMaterial(x.comp, f) ensures PartFor(m, x, r, f) in parts {
      MaterialHasPart(m, x, r, f);
    }
  }

  /** When a part trips the net, said of the part, the session before it and its request alone: it is
      neither a tool's nor a user's, names internals and no file, and is unsettled; no material form of
      it, and not the item, has an origin in the module; and its name is an answer that the request
      gave or that no replayed form gave. */
  lemma NetTripsIff(m: Memory, x: Inbound)
    requires WellFormed(x) && Attribute(m, x).Ok?
    ensures ContradictionOf(Attribute(m, x).value).Some? <==>
            var r := Precedence(m, x);
            var o := ContainerOrigin(m, x, r);
            && !x.toolOrUser && x.hits && x.metadataRefs == 0 && !r.basis.Settled()
            && o !in IMPLEMENTATION && o != Unresolved
            && (forall f :: f != OtherForm && IsMaterial(x.comp, f) ==> PartFor(m, x, r, f).origin !in IMPLEMENTATION)
            && (o == r.requested ||
                forall f :: f != OtherForm && IsMaterial(x.comp, f) && PartFor(m, x, r, f).origin == o ==>
                  !PartFor(m, x, r, f).replayed)
  {
    hide MaterialForms, FormOf, Precedence, PartFor, ItemOrigin, ContainerOrigin, ItemParts, IsMaterial, Missed,
         ContradictionOf;
    var r := Precedence(m, x);
    NetItem(m, x);
    if !r.basis.Settled() {
      UnsettledItemOrigin(m, x, r);
      var o := ContainerOrigin(m, x, r);
      if o !in IMPLEMENTATION { PartsAreMaterialForms(m, x, r, o); }
    }
  }

  /** The net's last rule, over the item it looks at. */
  lemma NetItem(m: Memory, x: Inbound)
    requires WellFormed(x) && Attribute(m, x).Ok?
    ensures var i := Attribute(m, x).value;
            ContradictionOf(i).Some? <==>
              && i.hits && !i.basis.Settled() && !ImplementationParts(i.parts)
              && i.origin !in IMPLEMENTATION && i.origin != Unresolved && x.metadataRefs == 0
  {
    hide MaterialForms, FormOf, Precedence, PartFor, ItemOrigin, ItemParts, IsMaterial, Missed, ImplementationParts;
    SafetyNet(m, x);
  }

  /** Attribution has an answer for every part but one kind: on unsettled evidence, with nothing said
      by the request, one or two lines of opcodes that are at least half of the text. They dominate it
      and are too few to be a component. */
  lemma AttributionFailsIff(m: Memory, x: Inbound)
    requires WellFormed(x)
    ensures Attribute(m, x).Err? <==>
            var r := Precedence(m, x);
            && !r.basis.Settled() && r.requested == Other
            && Dominant(x.comp) == Some(Disassembly) && |x.comp.lines[Disassembly]| < 3
  {
    hide Precedence, Echo;
    EveryForm(SourceForm);
    EveryForm(Disassembly);
    EveryForm(RuntimeStructure);
    EveryForm(PathMetadata);
  }

  function TextOf(form: Form, lines: seq<string>, size: nat): Comp {
    Comp(map f | f in FORMS :: if f == form then size else 0,
         map f | f in FORMS :: if f == form then lines else [],
         size)
  }

  const NOTHING_YET := Memory(map[], map[], map[])

  const ONE_OPCODE := Inbound(true, false, Unknown, None, false, None, Other, [], false, [], "0 NOP",
                              TextOf(Disassembly, ["0 NOP"], 6), false, 0, 0, false)

  /** The one file a patch touches, as its part lists it. */
  const ONE_FILE := "[\"_fanout\"]"

  const NAMING_PATCH := Inbound(false, false, Edit, Some(Application), false, None, Other, [], false, [], ONE_FILE,
                                TextOf(OtherForm, [ONE_FILE], 12), true, 0, 0, false)

  /** It happens: one opcode line returned by a tool no rule covers has no attribution. */
  lemma OneOpcodeLineFails()
    ensures WellFormed(ONE_OPCODE) && Attribute(NOTHING_YET, ONE_OPCODE).Err?
  {
    hide Attribute;
    AttributionFailsIff(NOTHING_YET, ONE_OPCODE);
    assert Precedence(NOTHING_YET, ONE_OPCODE) == Request(Other, Default, None);
  }

  lemma PatchRequest()
    ensures Precedence(NOTHING_YET, NAMING_PATCH) == Request(Application, ByRoute, None)
  {
  }

  lemma PatchHasNoParts()
    ensures WellFormed(NAMING_PATCH)
    ensures ItemOrigin(NOTHING_YET, NAMING_PATCH, Request(Application, ByRoute, None)) == Ok(Application)
    ensures ItemParts(NOTHING_YET, NAMING_PATCH, Request(Application, ByRoute, None), Application) == []
    ensures forall f :: f in FORMS && f != OtherForm ==> !IsMaterial(NAMING_PATCH.comp, f)
  {
    hide PartFor, FormOf, Echo;
    assert MaterialForms(NAMING_PATCH.comp) == [];
  }

  /** And a patch naming an internal trips the net, because only tool and user parts are marked. */
  lemma NamingPatchTripsTheNet()
    ensures WellFormed(NAMING_PATCH)
    ensures var r := Attribute(NOTHING_YET, NAMING_PATCH);
            r.Ok? && ContradictionOf(r.value) == Some(NamesUnattributed)
  {
    hide Precedence, ItemOrigin, ItemParts, IsMaterial, WellFormed;
    PatchRequest();
    PatchHasNoParts();
  }
}
