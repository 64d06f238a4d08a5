/** What a delivered text encodes: a decomposition of its lines into forms, and the labels read off it.
    Which form one line has is an arbitrary classifier here; everything else is counting. */
module Lineage {
  import opened Common
  import opened Ordering
  import opened ArtifactIdentity

  datatype Form = SourceForm | Disassembly | RuntimeStructure | PathMetadata | OtherForm

  /** In the order a line is tested, and the order dominance is decided in. */
  const SUBSTANTIVE := [SourceForm, Disassembly, RuntimeStructure, PathMetadata]

  const MATERIAL_BYTES: nat := 24

  function MaterialLines(f: Form): nat {
    if f == Disassembly then 3 else 1
  }

  /** One line as the classifier sees it: its form, what is kept of it, and its bytes with newline. */
  datatype Line = Line(form: Form, keep: string, size: nat)

  datatype Comp = Comp(bytes: map<Form, nat>, lines: map<Form, seq<string>>, total: nat)

  const FORMS := {SourceForm, Disassembly, RuntimeStructure, PathMetadata, OtherForm}

  predicate OverForms(c: Comp) {
    c.bytes.Keys == FORMS && c.lines.Keys == FORMS
  }

  function BytesOf(lines: seq<Line>, f: Form): nat {
    if lines == [] then 0
    else BytesOf(lines[..|lines| - 1], f) + (if lines[|lines| - 1].form == f then lines[|lines| - 1].size else 0)
  }

  function KeptOf(lines: seq<Line>, f: Form): seq<string> {
    if lines == [] then []
    else KeptOf(lines[..|lines| - 1], f) + (if lines[|lines| - 1].form == f then [lines[|lines| - 1].keep] else [])
  }

  function AllBytes(lines: seq<Line>): nat {
    if lines == [] then 0 else AllBytes(lines[..|lines| - 1]) + lines[|lines| - 1].size
  }

  /** The parts sum to the whole. */
  ghost predicate Partition(c: Comp) {
    && OverForms(c)
    && c.total == c.bytes[SourceForm] + c.bytes[Disassembly] + c.bytes[RuntimeStructure]
                  + c.bytes[PathMetadata] + c.bytes[OtherForm]
  }

  /** Splits a text, already classified line by line, into its five parts. */
  method Components(text: seq<Line>) returns (c: Comp)
    ensures OverForms(c)
    ensures forall f :: f in FORMS ==> c.bytes[f] == BytesOf(text, f) && c.lines[f] == KeptOf(text, f)
    ensures c.total == AllBytes(text)
    ensures Partition(c)
  {
    hide BytesOf, KeptOf, AllBytes, Tallied;
    var bytes: map<Form, nat> := map f | f in FORMS :: 0;
    var lines: map<Form, seq<string>> := map f | f in FORMS :: [];
    NothingTallied(bytes, lines);
    for i := 0 to |text|
      invariant Tallied(text[..i], bytes, lines)
    {
      var line := text[i];
      OneMoreTallied(text, i, bytes, lines);
      bytes := bytes[line.form := bytes[line.form] + line.size];
      lines := lines[line.form := lines[line.form] + [line.keep]];
    }
    assert text[..|text|] == text;
    FormsCover(text);
    c := Summed(text, bytes, lines);
  }

  /** The running counts say what the lines read so far come to, form by form. */
  ghost predicate Tallied(text: seq<Line>, bytes: map<Form, nat>, lines: map<Form, seq<string>>) {
    && bytes.Keys == FORMS && lines.Keys == FORMS
    && forall f :: f in FORMS ==> bytes[f] == BytesOf(text, f) && lines[f] == KeptOf(text, f)
  }

  lemma NothingTallied(bytes: map<Form, nat>, lines: map<Form, seq<string>>)
    requires bytes == map f | f in FORMS :: 0
    requires lines == map f | f in FORMS :: []
    ensures Tallied([], bytes, lines)
  {
  }

  lemma OneMoreTallied(text: seq<Line>, i: nat, bytes: map<Form, nat>, lines: map<Form, seq<string>>)
    requires i < |text| && Tallied(text[..i], bytes, lines)
    ensures var l := text[i];
            && l.form in bytes && l.form in lines
            && Tallied(text[..i + 1], bytes[l.form := bytes[l.form] + l.size],
                       lines[l.form := lines[l.form] + [l.keep]])
  {
    hide BytesOf, KeptOf;
    EveryForm(text[i].form);
    forall f | f in FORMS { OneMoreLine(text, i, f); }
  }

  function Summed(ghost text: seq<Line>, bytes: map<Form, nat>, lines: map<Form, seq<string>>): (c: Comp)
    requires Tallied(text, bytes, lines)
    ensures c.bytes == bytes && c.lines == lines && Partition(c)
    ensures forall f :: f in FORMS ==> c.bytes[f] == BytesOf(text, f) && c.lines[f] == KeptOf(text, f)
  {
    var total := bytes[SourceForm] + bytes[Disassembly] + bytes[RuntimeStructure]
                 + bytes[PathMetadata] + bytes[OtherForm];
    Comp(bytes, lines, total)
  }

  lemma OneMoreLine(text: seq<Line>, i: nat, f: Form)
    requires i < |text|
    ensures BytesOf(text[..i + 1], f) == BytesOf(text[..i], f) + (if text[i].form == f then text[i].size else 0)
    ensures KeptOf(text[..i + 1], f) == KeptOf(text[..i], f) + (if text[i].form == f then [text[i].keep] else [])
  {
    assert text[..i + 1][..i] == text[..i];
  }

  lemma EveryForm(f: Form)
    ensures f in FORMS
  {
  }

  lemma {:induction false} FormsCover(text: seq<Line>)
    ensures AllBytes(text) == BytesOf(text, SourceForm) + BytesOf(text, Disassembly) + BytesOf(text, RuntimeStructure)
                              + BytesOf(text, PathMetadata) + BytesOf(text, OtherForm)
    ensures |text| == |KeptOf(text, SourceForm)| + |KeptOf(text, Disassembly)| + |KeptOf(text, RuntimeStructure)|
                      + |KeptOf(text, PathMetadata)| + |KeptOf(text, OtherForm)|
  {
    if text != [] { FormsCover(text[..|text| - 1]); }
  }

  // ---------------------------------------------------------------- labels

  datatype Label = Of(form: Form) | Mixed

  function Max2(c: Comp, f: Form, g: Form): Form
    requires OverForms(c)
  {
    EveryForm(f);
    EveryForm(g);
    if c.bytes[g] > c.bytes[f] then g else f
  }

  /** The largest substantive part; the first of them on a tie. */
  function Top(c: Comp): Form
    requires OverForms(c)
  {
    Max2(c, Max2(c, Max2(c, SourceForm, Disassembly), RuntimeStructure), PathMetadata)
  }

  function MaterialParts(c: Comp): nat
    requires OverForms(c)
  {
    (if c.bytes[SourceForm] >= MATERIAL_BYTES then 1 else 0)
    + (if c.bytes[Disassembly] >= MATERIAL_BYTES then 1 else 0)
    + (if c.bytes[RuntimeStructure] >= MATERIAL_BYTES then 1 else 0)
    + (if c.bytes[PathMetadata] >= MATERIAL_BYTES then 1 else 0)
  }

  /** The label of the whole: what most of it is, or `mixed` when something material is in it. */
  function FormOf(c: Comp): Label
    requires OverForms(c)
  {
    var top := Top(c);
    EveryForm(top);
    if c.total == 0 then Of(OtherForm)
    else if c.bytes[top] * 2 >= c.total then Of(top)
    else if MaterialParts(c) >= 2 then Mixed
    else if c.bytes[top] >= MATERIAL_BYTES then Mixed
    else Of(OtherForm)
  }

  predicate Dominates(c: Comp, f: Form)
    requires OverForms(c) && f in FORMS
  {
    c.bytes[f] * 2 >= c.total > 0
  }

  /** The first substantive form that is at least half of the text. */
  method DominantForm(c: Comp) returns (d: Option<Form>)
    requires OverForms(c)
    ensures d == Dominant(c)
  {
    for i := 0 to |SUBSTANTIVE|
      invariant i > 0 ==> !Dominates(c, SourceForm)
      invariant i > 1 ==> !Dominates(c, Disassembly)
      invariant i > 2 ==> !Dominates(c, RuntimeStructure)
      invariant i > 3 ==> !Dominates(c, PathMetadata)
    {
      var f := SUBSTANTIVE[i];
      if Dominates(c, f) { return Some(f); }
    }
    return None;
  }

  function Dominant(c: Comp): Option<Form>
    requires OverForms(c)
  {
    if Dominates(c, SourceForm) then Some(SourceForm)
    else if Dominates(c, Disassembly) then Some(Disassembly)
    else if Dominates(c, RuntimeStructure) then Some(RuntimeStructure)
    else if Dominates(c, PathMetadata) then Some(PathMetadata)
    else None
  }

  /** Two rules, one label: the first form to reach half and the largest form are the same form
      whenever either names one, ties at exactly half included. */
  lemma DominanceIsTheLabel(c: Comp, f: Form)
    requires Partition(c) && f != OtherForm
    ensures Dominant(c) == Some(f) <==> FormOf(c) == Of(f)
  {
  }

  /** The label, from the bytes alone: a form that is at least half of a text that is not empty names it, the
      first of two that both are; failing that a text is mixed when twenty-four bytes of some form are
      in it, and otherwise it is other. */
  lemma LabelIff(c: Comp, f: Form)
    requires Partition(c) && f != OtherForm
    ensures FormOf(c) == Of(f) ==> c.total > 0 && 2 * c.bytes[f] >= c.total
    ensures c.total > 0 && 2 * c.bytes[f] >= c.total && FormOf(c) != Of(f) ==>
              exists k, l :: 0 <= k < l < |SUBSTANTIVE| && SUBSTANTIVE[l] == f && FormOf(c) == Of(SUBSTANTIVE[k])
    ensures FormOf(c) == Mixed <==>
            && 2 * c.bytes[SourceForm] < c.total && 2 * c.bytes[Disassembly] < c.total
            && 2 * c.bytes[RuntimeStructure] < c.total && 2 * c.bytes[PathMetadata] < c.total
            && (c.bytes[SourceForm] >= 24 || c.bytes[Disassembly] >= 24
                || c.bytes[RuntimeStructure] >= 24 || c.bytes[PathMetadata] >= 24)
  {
    var order := SUBSTANTIVE;
    assert order[0] == SourceForm && order[1] == Disassembly;
    assert order[2] == RuntimeStructure && order[3] == PathMetadata;
  }

  predicate IsMaterial(c: Comp, f: Form)
    requires OverForms(c)
  {
    EveryForm(f);
    |c.lines[f]| >= MaterialLines(f)
  }

  /** The substantive forms present in enough lines to matter, whatever their share. */
  function MaterialForms(c: Comp): (forms: seq<Form>)
    requires OverForms(c)
    ensures forall f :: f in forms <==> f != OtherForm && IsMaterial(c, f)
  {
    (if IsMaterial(c, SourceForm) then [SourceForm] else [])
    + (if IsMaterial(c, Disassembly) then [Disassembly] else [])
    + (if IsMaterial(c, RuntimeStructure) then [RuntimeStructure] else [])
    + (if IsMaterial(c, PathMetadata) then [PathMetadata] else [])
  }

  // ---------------------------------------------------------------- identity

  /** Text whose digest identifies what it came from; equal digests are read as equal texts. */
  type Identity = string

  /** Each line once. */
  function Unique(lines: seq<string>): (u: seq<string>)
    ensures forall l :: l in u <==> l in lines
    ensures forall l :: multiset(u)[l] <= 1
  {
    if lines == [] then []
    else
      var rest := Unique(lines[1..]);
      if lines[0] in rest then rest else [lines[0]] + rest
  }

  function JoinLines(lines: seq<string>): string {
    if lines == [] then "" else if |lines| == 1 then lines[0] else lines[0] + "\n" + JoinLines(lines[1..])
  }

  /** The distinct lines of a component, sorted and joined, if they are big enough to be one. */
  function ComponentIdentity(c: Comp, f: Form): Option<Identity>
    requires OverForms(c)
  {
    EveryForm(f);
    if c.lines[f] == [] || KeptSize(c.lines[f]) < MATERIAL_BYTES then None
    else Some(JoinLines(Sort(Unique(c.lines[f]))))
  }

  /** A component has an identity exactly when it has a line and its lines, newlines included, come to
      twenty-four bytes in UTF-8. */
  lemma IdentityIff(c: Comp, f: Form)
    requires OverForms(c) && f in FORMS
    ensures ComponentIdentity(c, f).Some? <==> c.lines[f] != [] && |LineBytes(c.lines[f])| >= 24
  {
    KeptSizeIs(c.lines[f]);
  }

  function Scalars(s: string): (text: seq<Scalar>)
    ensures |text| == |s| && forall i :: 0 <= i < |s| ==> text[i] == s[i] as int
  {
    seq(|s|, i requires 0 <= i < |s| => s[i] as int)
  }

  function LineBytes(lines: seq<string>): seq<Byte> {
    if lines == [] then [] else LineBytes(lines[..|lines| - 1]) + Encode(Scalars(lines[|lines| - 1])) + [LF]
  }

  lemma {:induction false} KeptSizeIs(lines: seq<string>)
    ensures KeptSize(lines) == |LineBytes(lines)|
  {
    if lines != [] {
      KeptSizeIs(lines[..|lines| - 1]);
      Utf8SizeIs(lines[|lines| - 1]);
    }
  }

  lemma {:induction false} Utf8SizeIs(s: string)
    ensures Utf8Size(s) == |Encode(Scalars(s))|
  {
    if s != "" {
      Utf8SizeIs(s[1..]);
      assert Scalars(s)[1..] == Scalars(s[1..]);
      assert |EncodeScalar(Scalars(s)[0])| == Width(s[0]);
    }
  }

  predicate NewlineFree(lines: seq<string>) {
    forall l :: l in lines ==> '\n' !in l
  }

  lemma {:induction false} JoinLinesInjective(a: seq<string>, b: seq<string>)
    requires a != [] && b != [] && NewlineFree(a) && NewlineFree(b) && JoinLines(a) == JoinLines(b)
    ensures a == b
  {
    hide JoinLines;
    FirstNewline(a);
    FirstNewline(b);
    NoNewlineAt(a[0], JoinLines(a), |b[0]|);
    NoNewlineAt(b[0], JoinLines(a), |a[0]|);
    assert |a[0]| == |b[0]|;
    assert a == [a[0]] + a[1..] && b == [b[0]] + b[1..];
    if |a| > 1 { JoinLinesInjective(a[1..], b[1..]); }
  }

  lemma NoNewlineAt(line: string, text: string, k: nat)
    requires '\n' !in line && |line| <= |text| && text[..|line|] == line
    ensures k < |line| ==> text[k] != '\n'
  {
    assert k < |line| ==> text[k] == line[k];
  }

  lemma FirstNewline(a: seq<string>)
    requires a != []
    ensures var s := JoinLines(a);
            && |a[0]| <= |s| && s[..|a[0]|] == a[0]
            && (|a| == 1 <==> |s| == |a[0]|)
            && (|a| > 1 ==> s[|a[0]|] == '\n' && s[|a[0]| + 1..] == JoinLines(a[1..]))
  {
  }

  lemma SameLinesSameSort(a: seq<string>, b: seq<string>)
    requires forall l :: l in a <==> l in b
    ensures Sort(Unique(a)) == Sort(Unique(b))
  {
    forall l ensures multiset(Unique(a))[l] == multiset(Unique(b))[l] {
      assert l in Unique(a) <==> l in multiset(Unique(a));
      assert l in Unique(b) <==> l in multiset(Unique(b));
    }
    assert multiset(Unique(a)) == multiset(Unique(b));
    SortCanonical(Unique(a), Unique(b));
  }

  /** A component is recognised again exactly when the same lines come back, in whatever order and
      however often each of them is repeated. */
  lemma IdentityIsTheSetOfLines(c: Comp, d: Comp, f: Form)
    requires OverForms(c) && OverForms(d) && f in FORMS && NewlineFree(c.lines[f]) && NewlineFree(d.lines[f])
    requires ComponentIdentity(c, f).Some? && ComponentIdentity(d, f).Some?
    ensures ComponentIdentity(c, f) == ComponentIdentity(d, f) <==> forall l :: l in c.lines[f] <==> l in d.lines[f]
  {
    hide Sort, Unique, JoinLines, KeptSize;
    var a, b := c.lines[f], d.lines[f];
    SortedLines(a);
    SortedLines(b);
    if forall l :: l in a <==> l in b { SameLinesSameSort(a, b); }
    if JoinLines(Sort(Unique(a))) == JoinLines(Sort(Unique(b))) {
      JoinLinesInjective(Sort(Unique(a)), Sort(Unique(b)));
    }
  }

  lemma SortedLines(a: seq<string>)
    requires a != []
    ensures Sort(Unique(a)) != [] && forall l :: l in Sort(Unique(a)) <==> l in a
  {
    hide Sort;
    SameElements(Sort(Unique(a)), Unique(a));
    assert a[0] in Unique(a);
  }

  /** Bytes of a character in UTF-8. */
  function Width(c: char): nat {
    var n := c as int;
    if n < 0x80 then 1 else if n < 0x800 then 2 else if n < 0x1_0000 then 3 else 4
  }

  function Utf8Size(s: string): nat {
    if s == "" then 0 else Width(s[0]) + Utf8Size(s[1..])
  }

  function KeptSize(lines: seq<string>): nat {
    if lines == [] then 0 else KeptSize(lines[..|lines| - 1]) + Utf8Size(lines[|lines| - 1]) + 1
  }
}
