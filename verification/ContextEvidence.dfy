/** What settles a part, what an unsettled part asks to be and what neither can be called: said of the
    part and the memory it meets, and of nothing the precedence table computes on the way. */
module ContextEvidence {
  import opened Common
  import opened Lineage
  import opened Context

  // ---------------------------------------------------------------- what settles a part

  ghost predicate Remembered(m: Memory, x: Inbound) {
    x.artifact.Some? && x.artifact.value in m.artifacts
  }

  ghost predicate FirstKnown(m: Memory, x: Inbound, k: nat) {
    && k < |x.referenced| && x.referenced[k] in m.artifacts
    && forall j :: 0 <= j < k ==> x.referenced[j] !in m.artifacts
  }

  /** Neither the artifact nor any referenced path has a history. */
  ghost predicate Untraced(m: Memory, x: Inbound) {
    !Remembered(m, x) && forall p :: p in x.referenced ==> p !in m.artifacts
  }

  /** Nothing said who wrote it or where it lay, so the activity that delivered it is asked. */
  ghost predicate Unsaid(m: Memory, x: Inbound) {
    Untraced(m, x) && !x.author && (x.artifact.None? || x.classified == Other)
  }

  lemma {:induction false} InheritedIff(paths: seq<string>, artifacts: map<string, Origin>)
    ensures Inherited(paths, artifacts).None? <==> forall p :: p in paths ==> p !in artifacts
    ensures forall k :: 0 <= k < |paths| && paths[k] in artifacts && (forall j :: 0 <= j < k ==> paths[j] !in artifacts)
              ==> Inherited(paths, artifacts) == Some(artifacts[paths[k]])
  {
    if paths != [] {
      InheritedIff(paths[1..], artifacts);
      forall k | 0 <= k < |paths| && paths[k] in artifacts && (forall j :: 0 <= j < k ==> paths[j] !in artifacts)
        ensures Inherited(paths, artifacts) == Some(artifacts[paths[k]])
      {
        if k > 0 { assert paths[0] !in artifacts && paths[1..][k - 1] == paths[k]; }
      }
      assert forall p :: p in paths <==> p == paths[0] || p in paths[1..];
    }
  }

  /** An artifact some earlier event produced keeps that history whatever its path says; failing that the
      first such path referred to lends its own; then authorship speaks; then where the artifact lies. */
  lemma CausesInOrder(m: Memory, x: Inbound, k: nat)
    requires OverForms(x.comp)
    ensures var r := Precedence(m, x);
            && (Remembered(m, x) ==>
                  r == Request(x.classified, Ancestry, Some(m.artifacts[x.artifact.value])))
            && (!Remembered(m, x) && FirstKnown(m, x, k) ==>
                  r.basis == Ancestry && r.ancestry == Some(m.artifacts[x.referenced[k]]))
            && (Untraced(m, x) && x.author ==> r == Request(ModelDerived, Author, None))
            && (Untraced(m, x) && !x.author && x.artifact.Some? ==>
                  && (x.classified in {ImplSource, ImplRuntime, PublicContract} ==>
                        r == Request(x.classified, ArtifactPath, None))
                  && (x.classified !in {ImplSource, ImplRuntime, PublicContract, Other} ==>
                        r == Request(x.classified, Default, None)))
  {
    hide Inherited, CommandProvenance;
    InheritedIff(x.referenced, m.artifacts);
  }

  // ---------------------------------------------------------------- what the activity answers

  /** Nothing about the request narrows the answer: it opened no source file and asked for neither the
      documentation, an introspection nor a run; or it opened one and too little source came back. */
  ghost predicate Renders(x: Inbound)
    requires OverForms(x.comp)
  {
    if x.openedSource then x.comp.bytes[SourceForm] < 24
    else x.route !in {Documentation, Introspection, Run}
  }

  /** What an activity's output answers, each answer exactly when: source when a source file was opened
      and source came back, the public contract when it was asked for and no internal name was returned, behaviour
      for a run, the runtime when the documentation disclosed an internal name or a rendering came
      back, metadata when no rendering but file names did, and otherwise nothing. */
  lemma AnswerIff(x: Inbound)
    requires OverForms(x.comp)
    ensures var asked := x.route == Documentation || x.route == Introspection;
            var rendered := x.comp.bytes[Disassembly] + x.comp.bytes[RuntimeStructure];
            var named := x.comp.bytes[PathMetadata];
            var answer := CommandProvenance(x);
            && (answer == ImplSource <==> x.openedSource && x.comp.bytes[SourceForm] >= 24)
            && (answer == PublicContract <==> !x.openedSource && asked && !x.hits)
            && (answer == Behaviour <==> !x.openedSource && x.route == Run)
            && (answer == ImplRuntime <==> (!x.openedSource && asked && x.hits) || (Renders(x) && rendered >= 24))
            && (answer == ImplMetadata <==> Renders(x) && rendered < 24 <= named)
            && (answer == Other <==> Renders(x) && rendered < 24 && named < 24)
  {
  }

  /** The request of a part nothing is said of is what its activity answers, on the evidence of the file
      if it opened one; and a part of no command and no search answers what its route was given. */
  lemma UnsaidRequest(m: Memory, x: Inbound)
    requires OverForms(x.comp) && Unsaid(m, x)
    ensures var answer := if x.command || x.route == Search then CommandProvenance(x)
                          else if x.routeHint.Some? then x.routeHint.value else Other;
            Precedence(m, x) == Request(answer, if answer == Other then Default
                                                else if x.openedSource then ArtifactPath else ByRoute, None)
  {
    hide Inherited, CommandProvenance;
    InheritedIff(x.referenced, m.artifacts);
  }

  // ---------------------------------------------------------------- what settled parts are called

  /** One origin for the item and for everything in it, and nothing in it is a replay. */
  ghost predicate Throughout(i: Item, o: Origin, b: Basis) {
    && i.origin == o && i.basis == b
    && forall p :: p in i.parts ==> p.origin == o && !p.replayed
  }

  lemma SettledThroughout(m: Memory, x: Inbound)
    requires OverForms(x.comp) && Precedence(m, x).basis.Settled()
    ensures var r := Precedence(m, x);
            Attribute(m, x).Ok?
            && Throughout(Attribute(m, x).value, if r.ancestry.Some? then r.ancestry.value else r.requested, r.basis)
  {
    hide Precedence, MaterialForms, FormOf, Dominant, Echo, ComponentIdentity, ImplementationParts;
  }

  /** History, authorship and a settling place cover everything an item delivered. */
  lemma CausesCover(m: Memory, x: Inbound, k: nat)
    requires OverForms(x.comp)
    ensures Remembered(m, x) ==>
              Attribute(m, x).Ok? && Throughout(Attribute(m, x).value, m.artifacts[x.artifact.value], Ancestry)
    ensures !Remembered(m, x) && FirstKnown(m, x, k) ==>
              Attribute(m, x).Ok? && Throughout(Attribute(m, x).value, m.artifacts[x.referenced[k]], Ancestry)
    ensures Untraced(m, x) && x.author ==>
              Attribute(m, x).Ok? && Throughout(Attribute(m, x).value, ModelDerived, Author)
    ensures Untraced(m, x) && !x.author && x.artifact.Some? &&
            x.classified in {ImplSource, ImplRuntime, PublicContract} ==>
              Attribute(m, x).Ok? && Throughout(Attribute(m, x).value, x.classified, ArtifactPath)
    ensures Unsaid(m, x) && (x.command || x.route == Search) && x.openedSource && x.comp.bytes[SourceForm] >= 24 ==>
              Attribute(m, x).Ok? && Throughout(Attribute(m, x).value, ImplSource, ArtifactPath)
  {
    hide Attribute, Precedence, CommandProvenance, Throughout;
    CausesInOrder(m, x, k);
    if Unsaid(m, x) { UnsaidRequest(m, x); AnswerIff(x); }
    if Precedence(m, x).basis.Settled() { SettledThroughout(m, x); }
  }

  // ---------------------------------------------------------------- what unsettled parts are called

  /** The content of this form is remembered, whole or in some line of source. */
  ghost predicate Replays(m: Memory, c: Comp, f: Form)
    requires OverForms(c)
  {
    || (ComponentIdentity(c, f).Some? && (f, ComponentIdentity(c, f).value) in m.content)
    || (f == SourceForm && exists l :: l in c.lines[SourceForm] && l in m.lines)
  }

  lemma ReplaysIff(m: Memory, c: Comp, f: Form)
    requires OverForms(c)
    ensures Echo(m, c, f).Some? <==> Replays(m, c, f)
  {
    hide Winner, ComponentIdentity;
    WinnerIff(c.lines[SourceForm], m.lines, 0);
  }

  /** A form of an unsettled part that replays nothing: opcodes and live objects are the runtime, file
      names are metadata, and source is what the activity asked for, unless it names its file, and
      an open question where the activity was a container or gave no answer. */
  lemma FormSpeaks(m: Memory, x: Inbound, r: Request, f: Form)
    requires OverForms(x.comp) && (r.basis == ByRoute || r.basis == Default) && f != OtherForm && !Replays(m, x.comp, f)
    ensures var p := PartFor(m, x, r, f);
            var container := r.requested == Application || r.requested == Harness;
            var silent := r.requested == Other || r.requested == Unresolved;
            && !p.replayed
            && (f == Disassembly || f == RuntimeStructure ==> p.origin == ImplRuntime)
            && (f == PathMetadata ==> p.origin == ImplMetadata)
            && (f == SourceForm ==>
                  && (p.origin == Unresolved <==> container || (silent && !x.namesSourceFile))
                  && (p.origin == ImplSource <==> (!container && x.namesSourceFile) || r.requested == ImplSource)
                  && (!container && !silent && !x.namesSourceFile ==> p.origin == r.requested))
  {
    hide Echo, ComponentIdentity;
    ReplaysIff(m, x.comp, f);
  }

  /** A form that does replay keeps the origin its content was remembered with; source that is not remembered
      whole takes the origin most of its remembered lines have, the last by name on a tie. */
  lemma ReplaySpeaks(m: Memory, x: Inbound, r: Request, f: Form, j: nat)
    requires OverForms(x.comp) && (r.basis == ByRoute || r.basis == Default) && Replays(m, x.comp, f) && j < |BY_NAME|
    ensures var p := PartFor(m, x, r, f);
            var id := ComponentIdentity(x.comp, f);
            && p.replayed
            && (id.Some? && (f, id.value) in m.content ==> p.origin == m.content[(f, id.value)])
            && (!(id.Some? && (f, id.value) in m.content) ==>
                  (p.origin == BY_NAME[j] <==> Leads(x.comp.lines[SourceForm], m.lines, j, |BY_NAME|)))
  {
    hide Winner, ComponentIdentity, Leads;
    ReplaysIff(m, x.comp, f);
    WinnerIff(x.comp.lines[SourceForm], m.lines, j);
  }

  /** It opened no source file, names no internal and no source file, renders nothing, lists no file, and
      carries nothing the session has seen. Its own source-shaped lines are allowed. */
  ghost predicate DisclosesNothing(m: Memory, x: Inbound)
    requires OverForms(x.comp)
  {
    && !x.openedSource && !x.hits && !x.namesSourceFile
    && (forall f :: f in {Disassembly, RuntimeStructure, PathMetadata} ==>
          x.comp.bytes[f] == 0 && x.comp.lines[f] == [])
    && (forall f :: f in FORMS ==> !Replays(m, x.comp, f))
  }

  /** No artifact or path it concerns lies in the module or came from it. */
  ghost predicate ConcernsNothing(m: Memory, x: Inbound) {
    && (x.artifact.Some? ==> x.classified !in IMPLEMENTATION)
    && (Remembered(m, x) ==> m.artifacts[x.artifact.value] !in IMPLEMENTATION)
    && (forall p :: p in x.referenced && p in m.artifacts ==> m.artifacts[p] !in IMPLEMENTATION)
  }

  lemma AsksForNothing(m: Memory, x: Inbound)
    requires WellFormed(x) && DisclosesNothing(m, x) && ConcernsNothing(m, x)
    ensures var r := Precedence(m, x);
            && r.requested !in IMPLEMENTATION
            && (r.ancestry.Some? ==> r.ancestry.value !in IMPLEMENTATION)
  {
    hide Precedence, CommandProvenance, Replays;
    InheritedIff(x.referenced, m.artifacts);
    if Unsaid(m, x) {
      UnsaidRequest(m, x);
      AnswerIff(x);
      assert x.comp.bytes[Disassembly] == 0 && x.comp.bytes[RuntimeStructure] == 0 && x.comp.bytes[PathMetadata] == 0;
    } else if Remembered(m, x) || Untraced(m, x) {
      CausesInOrder(m, x, 0);
    } else {
      var k := FirstOf(m, x);
      CausesInOrder(m, x, k);
      RequestOfLinked(m, x);
    }
  }

  lemma FirstOf(m: Memory, x: Inbound) returns (k: nat)
    requires exists p :: p in x.referenced && p in m.artifacts
    ensures FirstKnown(m, x, k)
  {
    k := 0;
    while x.referenced[k] !in m.artifacts
      invariant k < |x.referenced| && forall j :: 0 <= j < k ==> x.referenced[j] !in m.artifacts
      decreases |x.referenced| - k
    {
      k := k + 1;
    }
  }

  lemma RequestOfLinked(m: Memory, x: Inbound)
    requires OverForms(x.comp) && !Untraced(m, x)
    ensures Precedence(m, x).requested == if x.artifact.Some? then x.classified else Other
  {
    hide Inherited, CommandProvenance;
    InheritedIff(x.referenced, m.artifacts);
  }

  /** What discloses nothing is never charged with the module: neither the item nor any part of it has an
      origin there, whatever activity delivered it and however much source-shaped text is in it. */
  lemma NothingDisclosedNothingCharged(m: Memory, x: Inbound)
    requires WellFormed(x) && DisclosesNothing(m, x) && ConcernsNothing(m, x) && Attribute(m, x).Ok?
    ensures var i := Attribute(m, x).value;
            i.origin !in IMPLEMENTATION && forall p :: p in i.parts ==> p.origin !in IMPLEMENTATION
  {
    hide Precedence, MaterialForms, FormOf, PartFor, Replays, ItemOrigin, ImplementationParts;
    var r := Precedence(m, x);
    AsksForNothing(m, x);
    if r.basis.Settled() {
      SettledThroughout(m, x);
    } else {
      BasesOf(m, x);
      UnsettledItemOrigin(m, x, r);
      forall f | f != OtherForm && IsMaterial(x.comp, f) ensures PartFor(m, x, r, f).origin !in IMPLEMENTATION {
        FormSpeaks(m, x, r, f);
      }
      PartsAreMaterialForms(m, x, r, ContainerOrigin(m, x, r));
    }
  }

  lemma BasesOf(m: Memory, x: Inbound)
    requires OverForms(x.comp) && !Precedence(m, x).basis.Settled()
    ensures Precedence(m, x).basis == ByRoute || Precedence(m, x).basis == Default
  {
    hide Inherited, CommandProvenance;
  }

  /** And what documentation or an introspection discloses is not filed as the public contract: an answer
      that names internals and replays nothing is an item of the module. */
  lemma DisclosureIsCharged(m: Memory, x: Inbound)
    requires WellFormed(x) && Unsaid(m, x) && x.command && !x.openedSource && x.hits
    requires x.route == Documentation || x.route == Introspection
    requires forall f :: f in FORMS ==> !Replays(m, x.comp, f)
    ensures Attribute(m, x).Ok? && Attribute(m, x).value.origin in IMPLEMENTATION
  {
    hide Precedence, CommandProvenance, MaterialForms, FormOf, PartFor, Replays, ImplementationParts;
    var r := Precedence(m, x);
    UnsaidRequest(m, x);
    AnswerIff(x);
    AttributionFailsIff(m, x);
    BasesOf(m, x);
    UnsettledItemOrigin(m, x, r);
    var d := Dominant(x.comp);
    if d.Some? { EveryForm(d.value); FormSpeaks(m, x, r, d.value); }
  }

  /** No item is called the module's without a part to show for it, itself if need be. */
  lemma ModuleItemsHaveParts(m: Memory, x: Inbound)
    requires OverForms(x.comp) && Attribute(m, x).Ok?
    ensures var i := Attribute(m, x).value;
            i.origin == ImplSource || i.origin == ImplRuntime || i.origin == ImplMetadata ==>
              exists p :: p in i.parts && p.origin == i.origin
  {
    hide Precedence, MaterialForms, FormOf, PartFor, ItemOrigin, ImplementationParts;
    var r := Precedence(m, x);
    var o := ItemOrigin(m, x, r).value;
    var parts := PartsFor(m, x, r, MaterialForms(x.comp));
    if o in IMPLEMENTATION && forall p :: p in parts ==> p.origin != o {
      var whole := Part(FormOf(x.comp), x.comp.total, o, Some(x.text), false, []);
      assert whole in ItemParts(m, x, r, o);
    }
  }

  /** Every material form of a part is in its item, with all the bytes of that form, the identity its lines
      have and, for source, the lines themselves. */
  lemma ItemsCarryTheirForms(m: Memory, x: Inbound, f: Form)
    requires OverForms(x.comp) && Attribute(m, x).Ok? && f in {SourceForm, Disassembly, RuntimeStructure, PathMetadata}
    requires |x.comp.lines[f]| >= if f == Disassembly then 3 else 1
    ensures var i := Attribute(m, x).value;
            && i.comp == x.comp && i.hits == x.hits && i.requested == Precedence(m, x).requested
            && exists p :: p in i.parts && p.form == Of(f) && p.bytes == x.comp.bytes[f]
                           && p.identity == ComponentIdentity(x.comp, f)
                           && p.sourceLines == (if f == SourceForm then x.comp.lines[SourceForm] else [])
  {
    hide Precedence, MaterialForms, FormOf, ItemOrigin, ImplementationParts, Echo, ComponentIdentity;
    var r := Precedence(m, x);
    MaterialHasPart(m, x, r, f);
    assert PartFor(m, x, r, f) in Attribute(m, x).value.parts;
  }
}
