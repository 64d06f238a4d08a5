/** A transcript walked in order: the memory only ever gains links, so the first origin a piece of
    content was noted with is the one every later replay of it carries. */
module ContextSession {
  import opened Common
  import opened Lineage
  import opened Context

  /** `setdefault`: the first origin stays. */
  function NoteOnce<K>(known: map<K, Origin>, k: K, o: Origin): map<K, Origin> {
    if k in known then known else known[k := o]
  }

  function NoteLines(known: map<string, Origin>, lines: seq<string>, o: Origin): map<string, Origin> {
    if lines == [] then known
    else NoteOnce(NoteLines(known, lines[..|lines| - 1], o), lines[|lines| - 1], o)
  }

  /** An origin that answers nothing is not worth remembering. */
  predicate Worth(p: Part) {
    p.origin != Other && p.origin != Unresolved
  }

  function NotePart(m: Memory, p: Part): Memory {
    if !Worth(p) then m
    else
      var named := p.identity.Some? && p.form.Of?;
      m.(content := if named then NoteOnce(m.content, (p.form.form, p.identity.value), p.origin) else m.content,
         lines := NoteLines(m.lines, p.sourceLines, p.origin))
  }

  function NoteParts(m: Memory, parts: seq<Part>): Memory {
    if parts == [] then m else NotePart(NoteParts(m, parts[..|parts| - 1]), parts[|parts| - 1])
  }

  function NoteArtifacts(known: map<string, Origin>, produces: seq<(string, Origin)>): map<string, Origin> {
    if produces == [] then known
    else NoteArtifacts(known, produces[..|produces| - 1])[produces[|produces| - 1].0 := produces[|produces| - 1].1]
  }

  function MemoryAfter(m: Memory, x: Inbound, i: Item): Memory {
    NoteParts(m.(artifacts := NoteArtifacts(m.artifacts, x.produces)), i.parts)
  }

  /** The indexes a session keeps, updated part by part as a transcript is walked. */
  class Session {
    var artifacts: map<string, Origin>
    var content: map<(Form, Identity), Origin>
    var lines: map<string, Origin>

    constructor ()
      ensures View() == Memory(map[], map[], map[])
    {
      artifacts, content, lines := map[], map[], map[];
    }

    function View(): Memory
      reads this
    {
      Memory(artifacts, content, lines)
    }

    method NoteArtifact(path: string, origin: Origin)
      modifies this`artifacts
      ensures View() == old(View()).(artifacts := old(artifacts)[path := origin])
    {
      artifacts := artifacts[path := origin];
    }

    method NoteContent(parts: seq<Part>)
      modifies this`content, this`lines
      ensures View() == NoteParts(old(View()), parts)
    {
      for i := 0 to |parts|
        invariant View() == NoteParts(old(View()), parts[..i])
      {
        var p := parts[i];
        assert parts[..i + 1][..i] == parts[..i];
        if !Worth(p) { continue; }
        ghost var before := View();
        if p.identity.Some? && p.form.Of? && (p.form.form, p.identity.value) !in content {
          content := content[(p.form.form, p.identity.value) := p.origin];
        }
        for j := 0 to |p.sourceLines|
          invariant View() ==
                    before.(content := content, lines := NoteLines(before.lines, p.sourceLines[..j], p.origin))
          invariant content == NotePart(before, p).content && artifacts == before.artifacts
        {
          assert p.sourceLines[..j + 1][..j] == p.sourceLines[..j];
          if p.sourceLines[j] !in lines { lines := lines[p.sourceLines[j] := p.origin]; }
        }
        assert p.sourceLines[..|p.sourceLines|] == p.sourceLines;
      }
      assert parts[..|parts|] == parts;
    }

    /** One part through the precedence table, its links noted. */
    method Resolve(x: Inbound) returns (r: Result<Item, ResolveError>)
      requires OverForms(x.comp)
      modifies this
      ensures r == Attribute(old(View()), x)
      ensures r.Ok? ==> View() == MemoryAfter(old(View()), x, r.value)
    {
      hide Attribute, NotePart, NoteParts;
      r := Attribute(View(), x);
      for i := 0 to |x.produces|
        invariant View() == old(View()).(artifacts := NoteArtifacts(old(artifacts), x.produces[..i]))
      {
        assert x.produces[..i + 1][..i] == x.produces[..i];
        NoteArtifact(x.produces[i].0, x.produces[i].1);
      }
      assert x.produces[..|x.produces|] == x.produces;
      if r.Ok? { NoteContent(r.value.parts); }
    }
  }

  // ---------------------------------------------------------------- a whole transcript

  /** The memory before part `k`, while every part so far resolved. */
  function MemoryAt(xs: seq<Inbound>, k: nat): Option<Memory>
    requires k <= |xs| && forall i :: 0 <= i < |xs| ==> OverForms(xs[i].comp)
  {
    if k == 0 then Some(Memory(map[], map[], map[]))
    else
      match MemoryAt(xs, k - 1)
      case None => None
      case Some(m) =>
        match Attribute(m, xs[k - 1])
        case Err(_) => None
        case Ok(i) => Some(MemoryAfter(m, xs[k - 1], i))
  }

  ghost predicate Extends<K(!new)>(a: map<K, Origin>, b: map<K, Origin>) {
    forall k :: k in a ==> k in b && b[k] == a[k]
  }

  lemma {:induction false} LinesExtend(known: map<string, Origin>, lines: seq<string>, o: Origin)
    ensures Extends(known, NoteLines(known, lines, o))
  {
    if lines != [] { LinesExtend(known, lines[..|lines| - 1], o); }
  }

  /** Noting never rewrites: what was remembered stays remembered, with the same origin. */
  lemma {:induction false} NotingNeverRewrites(m: Memory, parts: seq<Part>)
    ensures var n := NoteParts(m, parts); Extends(m.content, n.content) && Extends(m.lines, n.lines)
  {
    if parts != [] {
      var init := parts[..|parts| - 1];
      NotingNeverRewrites(m, init);
      LinesExtend(NoteParts(m, init).lines, parts[|parts| - 1].sourceLines, parts[|parts| - 1].origin);
    }
  }

  /** A part worth noting is in the memory afterwards, under its own origin unless an earlier one is. */
  lemma {:induction false} NotedPart(m: Memory, parts: seq<Part>, k: nat)
    requires k < |parts| && Worth(parts[k]) && parts[k].identity.Some? && parts[k].form.Of?
    requires forall i :: 0 <= i < k && parts[i].form == parts[k].form && parts[i].identity == parts[k].identity ==>
               parts[i].origin == parts[k].origin
    ensures var p := parts[k];
            var key := (p.form.form, p.identity.value);
            var n := NoteParts(m, parts);
            key in n.content && n.content[key] == if key in m.content then m.content[key] else p.origin
    decreases |parts|
  {
    hide NoteLines;
    var init := parts[..|parts| - 1];
    var p := parts[k];
    if k < |init| {
      NotedPart(m, init, k);
    } else if i :| 0 <= i < k && parts[i].form == p.form && parts[i].identity == p.identity {
      NotedPart(m, init, i);
    } else {
      NotNoted(m, init, p.form.form, p.identity.value);
    }
  }

  lemma {:induction false} NotNoted(m: Memory, parts: seq<Part>, f: Form, id: Identity)
    requires forall q :: q in parts ==> !(q.form == Of(f) && q.identity == Some(id))
    ensures (f, id) in NoteParts(m, parts).content <==> (f, id) in m.content
    ensures (f, id) in m.content ==> NoteParts(m, parts).content[(f, id)] == m.content[(f, id)]
  {
    if parts != [] {
      var init := parts[..|parts| - 1];
      assert parts[|parts| - 1] in parts && forall q :: q in init ==> q in parts;
      NotNoted(m, init, f, id);
    }
  }

  lemma {:induction false} MemoryOnlyGrows(xs: seq<Inbound>, i: nat, j: nat)
    requires forall k :: 0 <= k < |xs| ==> OverForms(xs[k].comp)
    requires i <= j <= |xs| && MemoryAt(xs, j).Some?
    ensures MemoryAt(xs, i).Some?
    ensures Extends(MemoryAt(xs, i).value.content, MemoryAt(xs, j).value.content)
    ensures Extends(MemoryAt(xs, i).value.lines, MemoryAt(xs, j).value.lines)
  {
    hide Attribute;
    if i < j {
      MemoryOnlyGrows(xs, i, j - 1);
      var m := MemoryAt(xs, j - 1).value;
      var item := Attribute(m, xs[j - 1]).value;
      NotingNeverRewrites(m.(artifacts := NoteArtifacts(m.artifacts, xs[j - 1].produces)), item.parts);
    }
  }

  /** A material component of a resolved item is noted under its own origin, unless that content
      already has one. */
  lemma ComponentIsNoted(m: Memory, x: Inbound, f: Form)
    requires OverForms(x.comp) && Attribute(m, x).Ok? && f != OtherForm && IsMaterial(x.comp, f)
    requires ComponentIdentity(x.comp, f).Some?
    requires PartFor(m, x, Precedence(m, x), f).origin !in {Other, Unresolved}
    ensures var key := (f, ComponentIdentity(x.comp, f).value);
            var n := MemoryAfter(m, x, Attribute(m, x).value);
            key in n.content && n.content[key] ==
              if key in m.content then m.content[key] else PartFor(m, x, Precedence(m, x), f).origin
  {
    hide MaterialForms, IsMaterial, Precedence, ItemOrigin, FormOf, Dominant, ImplementationParts, PartFor,
         NoteParts, ComponentIdentity, Worth;
    var r := Precedence(m, x);
    var p := PartFor(m, x, r, f);
    var parts := Attribute(m, x).value.parts;
    var own := PartsFor(m, x, r, MaterialForms(x.comp));
    MaterialHasPart(m, x, r, f);
    var k :| 0 <= k < |own| && own[k] == p;
    assert own <= parts;
    PartIdentity(m, x, r, f);
    forall i | 0 <= i < k && own[i].form == p.form ensures own[i].origin == p.origin {
      PartIdentity(m, x, r, MaterialForms(x.comp)[i]);
    }
    assert Worth(p) by { WorthIff(p); }
    NotedPart(m.(artifacts := NoteArtifacts(m.artifacts, x.produces)), parts, k);
  }

  lemma WorthIff(p: Part)
    ensures Worth(p) <==> p.origin !in {Other, Unresolved}
  {
  }

  /** No open question is ever remembered, so none is ever answered by a replay of another. */
  ghost predicate OnlyAnswers(m: Memory) {
    && (forall k :: k in m.content ==> m.content[k] !in {Other, Unresolved})
    && (forall l :: l in m.lines ==> m.lines[l] !in {Other, Unresolved})
  }

  lemma {:induction false} NotingAnswers(m: Memory, parts: seq<Part>)
    requires OnlyAnswers(m)
    ensures OnlyAnswers(NoteParts(m, parts))
  {
    if parts != [] {
      var p := parts[|parts| - 1];
      NotingAnswers(m, parts[..|parts| - 1]);
      LinesAnswer(NoteParts(m, parts[..|parts| - 1]).lines, p.sourceLines, p.origin);
    }
  }

  lemma {:induction false} LinesAnswer(known: map<string, Origin>, lines: seq<string>, o: Origin)
    ensures forall l :: l in NoteLines(known, lines, o) <==> l in known || l in lines
    ensures forall l :: l in NoteLines(known, lines, o) ==>
              NoteLines(known, lines, o)[l] == if l in known then known[l] else o
  {
    if lines != [] {
      LinesAnswer(known, lines[..|lines| - 1], o);
      assert lines == lines[..|lines| - 1] + [lines[|lines| - 1]];
    }
  }

  lemma {:induction false} MemoryOnlyAnswers(xs: seq<Inbound>, i: nat)
    requires forall k :: 0 <= k < |xs| ==> OverForms(xs[k].comp)
    requires i <= |xs| && MemoryAt(xs, i).Some?
    ensures OnlyAnswers(MemoryAt(xs, i).value)
  {
    hide Attribute, NoteParts;
    if i > 0 {
      MemoryOnlyAnswers(xs, i - 1);
      var m := MemoryAt(xs, i - 1).value;
      var item := Attribute(m, xs[i - 1]).value;
      NotingAnswers(m.(artifacts := NoteArtifacts(m.artifacts, xs[i - 1].produces)), item.parts);
    }
  }

  /** A path is remembered as what produced it last. */
  lemma {:induction false} LastProducerIsRemembered(known: map<string, Origin>, produces: seq<(string, Origin)>, i: nat)
    requires i < |produces| && forall j :: i < j < |produces| ==> produces[j].0 != produces[i].0
    ensures var after := NoteArtifacts(known, produces);
            produces[i].0 in after && after[produces[i].0] == produces[i].1
  {
    var init := produces[..|produces| - 1];
    if i < |init| { LastProducerIsRemembered(known, init, i); }
  }

  lemma {:induction false} ProducedPaths(known: map<string, Origin>, produces: seq<(string, Origin)>)
    ensures forall p :: p in NoteArtifacts(known, produces) <==>
              p in known || exists j :: 0 <= j < |produces| && produces[j].0 == p
    ensures forall p :: p in known && (forall j :: 0 <= j < |produces| ==> produces[j].0 != p) ==>
              NoteArtifacts(known, produces)[p] == known[p]
  {
    if produces != [] {
      var init := produces[..|produces| - 1];
      ProducedPaths(known, init);
      assert forall j :: 0 <= j < |init| ==> init[j] == produces[j];
    }
  }

  lemma PartIdentity(m: Memory, x: Inbound, r: Request, f: Form)
    requires OverForms(x.comp)
    ensures var p := PartFor(m, x, r, f);
            p.form == Of(f) && p.identity == ComponentIdentity(x.comp, f)
  {
  }

  /** Once a component's content has been noted with an origin, every later unsettled item that
      carries the same content carries it under that first origin, as a replay, for the rest of the
      session. */
  lemma FirstOriginSticks(xs: seq<Inbound>, i: nat, j: nat, f: Form)
    requires forall k :: 0 <= k < |xs| ==> OverForms(xs[k].comp)
    requires i <= j < |xs| && MemoryAt(xs, j).Some? && MemoryAt(xs, i).Some?
    requires f != OtherForm && IsMaterial(xs[j].comp, f) && ComponentIdentity(xs[j].comp, f).Some?
    requires (f, ComponentIdentity(xs[j].comp, f).value) in MemoryAt(xs, i).value.content
    requires !Precedence(MemoryAt(xs, j).value, xs[j]).basis.Settled()
    ensures var first := MemoryAt(xs, i).value.content[(f, ComponentIdentity(xs[j].comp, f).value)];
            var m := MemoryAt(xs, j).value;
            var part := PartFor(m, xs[j], Precedence(m, xs[j]), f);
            && part.origin == first
            && part.replayed
            && (Attribute(m, xs[j]).Ok? ==> part in Attribute(m, xs[j]).value.parts)
  {
    hide MaterialForms, IsMaterial, Precedence, ItemOrigin, FormOf, Dominant, ImplementationParts, MemoryAt;
    MemoryOnlyGrows(xs, i, j);
    var m := MemoryAt(xs, j).value;
    MaterialHasPart(m, xs[j], Precedence(m, xs[j]), f);
  }

  /** The same line by line: when every source line of an unsettled item was noted under one origin by
      some earlier moment, and its source as a whole is not remembered, its source component carries that
      origin, as a replay. */
  lemma FirstLineOriginSticks(xs: seq<Inbound>, i: nat, j: nat, o: Origin)
    requires forall k :: 0 <= k < |xs| ==> OverForms(xs[k].comp)
    requires i <= j < |xs| && MemoryAt(xs, j).Some? && MemoryAt(xs, i).Some?
    requires IsMaterial(xs[j].comp, SourceForm)
    requires forall l :: l in xs[j].comp.lines[SourceForm] ==>
               l in MemoryAt(xs, i).value.lines && MemoryAt(xs, i).value.lines[l] == o
    requires var id := ComponentIdentity(xs[j].comp, SourceForm);
             id.Some? ==> (SourceForm, id.value) !in MemoryAt(xs, j).value.content
    requires !Precedence(MemoryAt(xs, j).value, xs[j]).basis.Settled()
    ensures var m := MemoryAt(xs, j).value;
            var part := PartFor(m, xs[j], Precedence(m, xs[j]), SourceForm);
            && part.origin == o
            && part.replayed
            && (Attribute(m, xs[j]).Ok? ==> part in Attribute(m, xs[j]).value.parts)
  {
    hide MaterialForms, Precedence, ItemOrigin, FormOf, Dominant, ImplementationParts, MemoryAt, Winner,
         ComponentIdentity;
    MemoryOnlyGrows(xs, i, j);
    var m := MemoryAt(xs, j).value;
    OneOriginWins(xs[j].comp.lines[SourceForm], m.lines, o);
    MaterialHasPart(m, xs[j], Precedence(m, xs[j]), SourceForm);
  }

  lemma OneOriginWins(lines: seq<string>, known: map<string, Origin>, o: Origin)
    requires lines != [] && forall l :: l in lines ==> l in known && known[l] == o
    ensures Winner(lines, known, |BY_NAME|) == Some(o)
  {
    hide CountOf, Winner, Leads;
    assert lines[0] in lines;
    var j := NamedAt(o);
    WinnerIff(lines, known, j);
    var i := WinnerLeads(lines, known, |BY_NAME|);
    LeaderIsMost(lines, known, i, |BY_NAME|);
    CountPositive(lines, known, BY_NAME[i]);
  }
}
