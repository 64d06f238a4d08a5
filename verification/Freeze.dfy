/** A freeze binds each artifact of a contract to its content, its accepted dependency identities and
    its review purpose. Its canonical text is its identity. */
module Freeze {
  import opened Common
  import opened Ordering
  import opened Dag
  import opened Json
  import opened PosixPath

  /** A dictionary that remembers the order its keys were first inserted in. */
  datatype Dict<V> = Dict(keys: seq<string>, at: map<string, V>)

  ghost predicate IsDict<V>(d: Dict<V>) {
    Distinct(d.keys) && forall k :: k in d.keys <==> k in d.at
  }

  datatype Binding = Binding(content: string, deps: Dict<string>, purpose: Option<string>)

  datatype Frozen = Frozen(format: string, artifacts: Dict<Binding>)

  ghost predicate IsFrozen(f: Frozen) {
    IsDict(f.artifacts) && forall m :: m in f.artifacts.at ==> IsDict(f.artifacts.at[m].deps)
  }

  const FORMAT := "proofbound-freeze-v1"

  const PURPOSES := {"proposal-reflection", "design-reflection", "specification-reflection",
                     "consistency-reflection", "implementation-review"}

  // ---------------------------------------------------------------- canonical text

  function StrFields(keys: seq<string>, at: map<string, string>): (fields: seq<Field>)
    requires forall k :: k in keys ==> k in at
    ensures |fields| == |keys|
    ensures forall i :: 0 <= i < |fields| ==> fields[i] == Field(keys[i], Str(at[keys[i]]))
  {
    seq(|keys|, i requires 0 <= i < |keys| => assert keys[i] in keys; Field(keys[i], Str(at[keys[i]])))
  }

  /** The keys in the one order they are ever printed in. */
  function SortedKeys<V>(d: Dict<V>): (keys: seq<string>)
    requires forall k :: k in d.keys <==> k in d.at
    ensures forall k :: k in keys <==> k in d.at
  {
    SameElements(Sort(d.keys), d.keys);
    Sort(d.keys)
  }

  function EntryValue(b: Binding): Value
    requires forall k :: k in b.deps.keys <==> k in b.deps.at
  {
    Obj([Field("content_sha256", Str(b.content)),
         Field("depends_on", Obj(StrFields(SortedKeys(b.deps), b.deps.at))),
         Field("review_purpose", if b.purpose.Some? then Str(b.purpose.value) else Null)])
  }

  function EntryFields(keys: seq<string>, at: map<string, Binding>): (fields: seq<Field>)
    requires forall k :: k in keys ==> k in at && forall d :: d in at[k].deps.keys <==> d in at[k].deps.at
    ensures |fields| == |keys|
    ensures forall i :: 0 <= i < |fields| ==> fields[i] == Field(keys[i], EntryValue(at[keys[i]]))
  {
    seq(|keys|, i requires 0 <= i < |keys| => assert keys[i] in keys; Field(keys[i], EntryValue(at[keys[i]])))
  }

  function FrozenValue(f: Frozen): Value
    requires IsFrozen(f)
  {
    Obj([Field("artifacts", Obj(EntryFields(SortedKeys(f.artifacts), f.artifacts.at))), Field("format", Str(f.format))])
  }

  lemma FrozenIsPrintable(f: Frozen)
    requires IsFrozen(f)
    ensures Printable(FrozenValue(f))
  {
    hide EntryValue, SortedKeys, EntryFields;
    var keys := SortedKeys(f.artifacts);
    var fields := EntryFields(keys, f.artifacts.at);
    forall e | e in fields ensures Printable(e.value) {
      var i :| 0 <= i < |fields| && fields[i] == e;
      assert keys[i] in keys;
      EntryIsPrintable(f.artifacts.at[keys[i]]);
    }
  }

  lemma EntryIsPrintable(b: Binding)
    requires IsDict(b.deps)
    ensures Printable(EntryValue(b))
  {
  }

  function CanonicalText(f: Frozen): string
    requires IsFrozen(f)
  {
    FrozenIsPrintable(f);
    Print(FrozenValue(f), 0) + "\n"
  }

  // ---------------------------------------------------------------- reading a freeze back

  /** Duplicate members: the first keeps its place, the last keeps its value. */
  function AsDict(fields: seq<Field>): (d: Dict<Value>)
    ensures IsDict(d)
  {
    if fields == [] then Dict([], map[])
    else
      var d := AsDict(fields[..|fields| - 1]);
      var last := fields[|fields| - 1];
      Dict(if last.key in d.at then d.keys else d.keys + [last.key], d.at[last.key := last.value])
  }

  ghost predicate LastOf(fields: seq<Field>, key: string, i: int) {
    0 <= i < |fields| && fields[i].key == key && forall j :: i < j < |fields| ==> fields[j].key != key
  }

  ghost predicate Reads(at: map<string, Value>, fields: seq<Field>, key: string) {
    && (key in at <==> exists i :: 0 <= i < |fields| && fields[i].key == key)
    && (key in at ==> exists i :: LastOf(fields, key, i))
    && (forall i :: LastOf(fields, key, i) ==> key in at && at[key] == fields[i].value)
  }

  /** A dictionary has the keys of its fields, and of each of them the value that came last. */
  lemma {:induction false} AsDictIs(fields: seq<Field>, key: string)
    ensures Reads(AsDict(fields).at, fields, key)
  {
    AsDictStep(fields);
    hide AsDict, IsDict;
    if fields != [] {
      AsDictIs(fields[..|fields| - 1], key);
      ReadsOneMore(AsDict(fields[..|fields| - 1]).at, fields, key);
    }
  }

  lemma ReadsOneMore(at: map<string, Value>, fields: seq<Field>, key: string)
    requires fields != [] && Reads(at, fields[..|fields| - 1], key)
    ensures Reads(at[fields[|fields| - 1].key := fields[|fields| - 1].value], fields, key)
  {
    var init := fields[..|fields| - 1];
    var last := |fields| - 1;
    assert forall i :: 0 <= i < last ==> init[i] == fields[i];
    if fields[last].key == key {
      assert LastOf(fields, key, last);
    } else {
      assert forall i :: LastOf(fields, key, i) <==> LastOf(init, key, i);
    }
  }

  predicate IsHex(c: char) {
    '0' <= c <= '9' || 'a' <= c <= 'f'
  }

  /** `[0-9a-f]{n}` from the start: what is left after exactly `n` of them. */
  function HexRun(s: string, n: nat): Option<string> {
    if n == 0 then Some(s) else if s != "" && IsHex(s[0]) then HexRun(s[1..], n - 1) else None
  }

  /** `$`: at the end, or before the newline that ends the text. */
  predicate AtEnd(rest: string) {
    rest == "" || rest == "\n"
  }

  /** `^[0-9a-f]{64}$` */
  predicate DigestOk(s: string) {
    var rest := HexRun(s, 64);
    rest.Some? && AtEnd(rest.value)
  }

  predicate Hex64(s: string) {
    |s| == 64 && forall c :: c in s ==> c in "0123456789abcdef"
  }

  lemma HexDigits(c: char)
    ensures IsHex(c) <==> c in "0123456789abcdef"
  {
    var digits := "0123456789abcdef";
    if '0' <= c <= '9' { assert digits[c as int - '0' as int] == c; }
    if 'a' <= c <= 'f' { assert digits[c as int - 'a' as int + 10] == c; }
  }

  lemma {:induction false} HexRunIff(s: string, n: nat)
    ensures HexRun(s, n).Some? <==> n <= |s| && forall i :: 0 <= i < n ==> IsHex(s[i])
    ensures HexRun(s, n).Some? ==> HexRun(s, n).value == s[n..]
  {
    hide IsHex;
    if n > 0 && s != "" && IsHex(s[0]) {
      HexRunIff(s[1..], n - 1);
      var t := s[1..];
      assert forall i :: 0 <= i < |t| ==> t[i] == s[i + 1];
      if n <= |s| && forall i :: 0 <= i < n - 1 ==> IsHex(t[i]) {
        forall i | 0 <= i < n ensures IsHex(s[i]) { if i > 0 { assert IsHex(t[i - 1]); } }
      }
    }
  }

  /** The digest test accepts the lowercase hexadecimal digests and each of them with a newline after
      it; a freeze may so bind two spellings of one digest as different contents. */
  lemma DigestOkIff(s: string)
    ensures DigestOk(s) <==> Hex64(s) || (|s| == 65 && s[64] == '\n' && Hex64(s[..64]))
    ensures Hex64(s) ==> DigestOk(s + "\n") && s + "\n" != s
  {
    hide HexRun, IsHex;
    HexRunIff(s, 64);
    HexRunIff(s + "\n", 64);
    forall c: char { HexDigits(c); }
    if |s| == 65 { assert s[64..] == [s[64]]; }
    if |s| >= 64 { assert s[..64] + s[64..] == s; }
    if Hex64(s) { assert (s + "\n")[64..] == "\n"; }
  }

  predicate DepsOk(member: string, deps: Dict<Value>) {
    forall k :: k in deps.at ==> Accepted(k) && k != member && deps.at[k].Str? && DigestOk(deps.at[k].s)
  }

  const BINDING_FIELDS := {"content_sha256", "depends_on", "review_purpose"}

  predicate EntryOk(member: string, v: Value) {
    && Accepted(member)
    && v.Obj?
    && (var d := AsDict(v.fields).at;
        && d.Keys == BINDING_FIELDS
        && d["content_sha256"].Str? && DigestOk(d["content_sha256"].s)
        && d["review_purpose"].Str? && d["review_purpose"].s in PURPOSES
        && d["depends_on"].Obj? && DepsOk(member, AsDict(d["depends_on"].fields)))
  }

  predicate ShapeOk(raw: Value) {
    && raw.Obj?
    && (var d := AsDict(raw.fields).at;
        && "format" in d && d["format"] == Str(FORMAT)
        && d.Keys <= {"format", "artifacts"}
        && "artifacts" in d && d["artifacts"].Obj?)
  }

  /** The shape of a document, of its text: no third name, a last `format` that is the one expected and a
      last `artifacts` that is an object. */
  ghost predicate HasShape(raw: Value, format: string) {
    && raw.Obj?
    && (forall i :: 0 <= i < |raw.fields| ==> raw.fields[i].key == "format" || raw.fields[i].key == "artifacts")
    && (exists i :: LastOf(raw.fields, "format", i) && raw.fields[i].value == Str(format))
    && (exists i :: LastOf(raw.fields, "artifacts", i) && raw.fields[i].value.Obj?)
  }

  lemma ShapeIff(raw: Value)
    ensures ShapeOk(raw) <==> HasShape(raw, "proofbound-freeze-v1")
  {
    hide AsDict, LastOf;
    if raw.Obj? { KnownKeys(raw.fields, {"format", "artifacts"}); }
  }

  /** Which names occur, and what each of them says. */
  lemma KnownKeys(fields: seq<Field>, names: set<string>)
    ensures AsDict(fields).at.Keys <= names <==> forall i :: 0 <= i < |fields| ==> fields[i].key in names
    ensures forall k :: k in AsDict(fields).at <==> exists i :: LastOf(fields, k, i)
    ensures forall k, i :: LastOf(fields, k, i) ==> k in AsDict(fields).at && AsDict(fields).at[k] == fields[i].value
  {
    hide AsDict;
    var at := AsDict(fields).at;
    forall k ensures k in at <==> exists i :: LastOf(fields, k, i) { LastKey(fields, k); }
    forall k, i | LastOf(fields, k, i) ensures k in at && at[k] == fields[i].value { AsDictIs(fields, k); }
    forall k ensures k in at <==> exists i :: 0 <= i < |fields| && fields[i].key == k { AsDictIs(fields, k); }
    forall i | 0 <= i < |fields| ensures fields[i].key in at { AsDictIs(fields, fields[i].key); }
  }

  lemma LastKey(fields: seq<Field>, k: string)
    ensures k in AsDict(fields).at <==> exists i :: LastOf(fields, k, i)
  {
    hide AsDict;
    AsDictIs(fields, k);
  }

  /** The rules of one entry, of its text: three names and no other, each read where it came last; two digests'
      spellings, one of the five purposes, and no dependency on itself. */
  ghost predicate EntrySays(member: string, v: Value) {
    && Accepted(member) && v.Obj?
    && (forall i :: 0 <= i < |v.fields| ==> v.fields[i].key in {"content_sha256", "depends_on", "review_purpose"})
    && (exists i :: LastOf(v.fields, "content_sha256", i) && v.fields[i].value.Str? && DigestOk(v.fields[i].value.s))
    && (exists i :: LastOf(v.fields, "review_purpose", i) && v.fields[i].value.Str? && v.fields[i].value.s in PURPOSES)
    && (exists i :: LastOf(v.fields, "depends_on", i) && v.fields[i].value.Obj?
                    && DepsSay(member, v.fields[i].value.fields))
  }

  ghost predicate DepsSay(member: string, deps: seq<Field>) {
    forall k, j :: LastOf(deps, k, j) ==>
      Accepted(k) && k != member && deps[j].value.Str? && DigestOk(deps[j].value.s)
  }

  lemma DepsIff(member: string, deps: seq<Field>)
    ensures DepsOk(member, AsDict(deps)) <==> DepsSay(member, deps)
  {
    hide AsDict, Accepted, DigestOk, LastOf;
    KnownKeys(deps, {});
  }

  lemma EntryIff(member: string, v: Value)
    ensures EntryOk(member, v) <==> EntrySays(member, v)
  {
    hide AsDict, Accepted, DigestOk, LastOf, DepsOk, DepsSay;
    if v.Obj? {
      KnownKeys(v.fields, BINDING_FIELDS);
      var d := AsDict(v.fields).at;
      if "depends_on" in d && d["depends_on"].Obj? { DepsIff(member, d["depends_on"].fields); }
    }
  }

  /** No two members fold to one name on a case-insensitive filesystem. */
  ghost predicate CaseDistinct(keys: seq<string>, lower: string -> string) {
    forall i, j :: 0 <= i < j < |keys| ==> lower(keys[i]) != lower(keys[j])
  }

  function Entries(raw: Value): Dict<Value>
    requires ShapeOk(raw)
  {
    AsDict(AsDict(raw.fields).at["artifacts"].fields)
  }

  ghost predicate FreezeOk(raw: Value, lower: string -> string) {
    && ShapeOk(raw)
    && (forall m :: m in Entries(raw).at ==> EntryOk(m, Entries(raw).at[m]))
    && CaseDistinct(Entries(raw).keys, lower)
  }

  function BindingFrom(member: string, v: Value): (b: Binding)
    requires EntryOk(member, v)
  {
    var d := AsDict(v.fields).at;
    var deps := AsDict(d["depends_on"].fields);
    Binding(d["content_sha256"].s, Dict(deps.keys, map k | k in deps.at :: deps.at[k].s), Some(d["review_purpose"].s))
  }

  function FrozenFrom(raw: Value): Frozen
    requires ShapeOk(raw) && forall m :: m in Entries(raw).at ==> EntryOk(m, Entries(raw).at[m])
  {
    var entries := Entries(raw);
    Frozen(FORMAT, Dict(entries.keys, map m | m in entries.at :: BindingFrom(m, entries.at[m])))
  }

  /** Member `m` was accepted against content of member `t` that is not the frozen one. */
  predicate Clashes(f: Frozen, m: string, t: string) {
    && m in f.artifacts.at && t in f.artifacts.at && t in f.artifacts.at[m].deps.at
    && f.artifacts.at[t].content != f.artifacts.at[m].deps.at[t]
  }

  /** A dependency on a member names that member's frozen content. */
  ghost predicate Agrees(f: Frozen) {
    forall m, t :: !Clashes(f, m, t)
  }

  function DependencyGraph(f: Frozen): Graph {
    map m | m in f.artifacts.at :: f.artifacts.at[m].deps.keys
  }

  /** The graph that must not close: a member depends on each member it was accepted against. */
  lemma DependencyEdges(f: Frozen, m: string, t: string)
    requires IsFrozen(f)
    ensures Edge(DependencyGraph(f), m, t) <==>
            m in f.artifacts.at && t in f.artifacts.at && t in f.artifacts.at[m].deps.at
  {
  }

  /** What a freeze binds is what its text said last, under the three names an entry may use. */
  lemma BindingSays(member: string, v: Value, name: string, i: int, k: string, j: int)
    requires EntryOk(member, v) && LastOf(v.fields, name, i)
    ensures name == "content_sha256" || name == "depends_on" || name == "review_purpose"
    ensures var b := BindingFrom(member, v);
            && (name == "content_sha256" ==> v.fields[i].value == Str(b.content))
            && (name == "review_purpose" ==> b.purpose.Some? && v.fields[i].value == Str(b.purpose.value))
            && (name == "depends_on" ==>
                  && v.fields[i].value.Obj?
                  && (var deps := v.fields[i].value.fields;
                      LastOf(deps, k, j) ==> k in b.deps.at && deps[j].value == Str(b.deps.at[k])))
  {
    hide AsDict, Accepted, DigestOk;
    AsDictIs(v.fields, name);
    if name == "depends_on" { AsDictIs(v.fields[i].value.fields, k); }
  }

  datatype FreezeError =
    | Malformed
    | Disagreement(member: string, target: string)
    | Cycle(path: seq<string>)
    | NoRecord(member: string)

  /** Validates a parsed freeze from itself alone. */
  method LoadFreezeObject(raw: Value, lower: string -> string) returns (r: Result<Frozen, FreezeError>)
    ensures r == Err(Malformed) <==> !FreezeOk(raw, lower)
    ensures r.Err? && r.error.Disagreement? <==> FreezeOk(raw, lower) && !Agrees(FrozenFrom(raw))
    ensures r.Err? && r.error.Cycle? <==>
              FreezeOk(raw, lower) && Agrees(FrozenFrom(raw)) && Cyclic(DependencyGraph(FrozenFrom(raw)))
    ensures r.Err? && r.error.Disagreement? ==> Clashes(FrozenFrom(raw), r.error.member, r.error.target)
    ensures r.Err? && r.error.Cycle? ==> ClosesCycle(DependencyGraph(FrozenFrom(raw)), r.error.path)
    ensures r.Ok? ==> r.value == FrozenFrom(raw)
    ensures r.Err? ==> !r.error.NoRecord?
  {
    hide Cyclic, ClosesCycle, Agrees, Clashes, Accepted, DigestOk, AsDict, EntryOk, CaseDistinct;
    if !ShapeOk(raw) { return Err(Malformed); }
    var entries := Entries(raw);
    var ok := CheckEntries(entries, EntryOk, lower);
    if !ok { return Err(Malformed); }
    var f := FrozenFrom(raw);
    var clash := FindDisagreement(f);
    if clash.Some? { return Err(Disagreement(clash.value.0, clash.value.1)); }
    var cycle := AssertAcyclic(DependencyGraph(f), f.artifacts.keys);
    if cycle.Some? { return Err(Cycle(cycle.value)); }
    return Ok(f);
  }

  /** One pass over the entries, each of them tested, remembering the folded names already seen. */
  method CheckEntries(entries: Dict<Value>, test: (string, Value) -> bool, lower: string -> string) returns (ok: bool)
    requires IsDict(entries)
    ensures ok <==> (forall m :: m in entries.at ==> test(m, entries.at[m])) && CaseDistinct(entries.keys, lower)
  {
    var folded: set<string> := {};
    for i := 0 to |entries.keys|
      invariant forall j :: 0 <= j < i ==> test(entries.keys[j], entries.at[entries.keys[j]])
      invariant forall x :: x in folded <==> exists j :: 0 <= j < i && lower(entries.keys[j]) == x
      invariant forall j, k :: 0 <= j < k < i ==> lower(entries.keys[j]) != lower(entries.keys[k])
    {
      var member := entries.keys[i];
      assert member in entries.keys;
      var lowered := lower(member);
      if lowered in folded { return false; }
      if !test(member, entries.at[member]) { return false; }
      folded := folded + {lowered};
    }
    return true;
  }

  method FindDisagreement(f: Frozen) returns (clash: Option<(string, string)>)
    requires IsFrozen(f)
    ensures clash.None? <==> Agrees(f)
    ensures clash.Some? ==> Clashes(f, clash.value.0, clash.value.1)
  {
    var members := f.artifacts.keys;
    for i := 0 to |members|
      invariant forall j, t :: 0 <= j < i ==> !Clashes(f, members[j], t)
    {
      var m := members[i];
      assert m in members;
      var deps := f.artifacts.at[m].deps;
      for k := 0 to |deps.keys|
        invariant forall j :: 0 <= j < k ==> !Clashes(f, m, deps.keys[j])
      {
        var target := deps.keys[k];
        assert target in deps.keys;
        if target in f.artifacts.at && f.artifacts.at[target].content != deps.at[target] {
          assert Clashes(f, m, target);
          return Some((m, target));
        }
      }
      assert forall t :: t in deps.at ==> t in deps.keys;
    }
    assert forall m :: m in f.artifacts.at ==> m in members;
    return None;
  }

  // ---------------------------------------------------------------- the text is the freeze

  /** The same contract, however its entries were listed. */
  ghost predicate SameFrozen(f: Frozen, g: Frozen) {
    && f.format == g.format
    && SameArtifacts(f, g)
  }

  ghost predicate SameBinding(b: Binding, c: Binding) {
    b.content == c.content && b.deps.at == c.deps.at && b.purpose == c.purpose
  }

  ghost predicate SameArtifacts(f: Frozen, g: Frozen) {
    && f.artifacts.at.Keys == g.artifacts.at.Keys
    && forall m :: m in f.artifacts.at ==> SameBinding(f.artifacts.at[m], g.artifacts.at[m])
  }

  /** Two dictionaries with the same keys print them in the same order. */
  lemma SameKeysSameOrder<V, W>(d: Dict<V>, e: Dict<W>)
    requires IsDict(d) && IsDict(e)
    ensures SortedKeys(d) == SortedKeys(e) <==> d.at.Keys == e.at.Keys
  {
    if d.at.Keys == e.at.Keys {
      DistinctCount(d.keys);
      DistinctCount(e.keys);
      assert forall k :: k in d.keys <==> k in e.keys;
      SortCanonical(d.keys, e.keys);
    } else {
      assert SortedKeys(d) == SortedKeys(e) ==> forall k :: k in d.at <==> k in e.at;
    }
  }

  lemma {:induction false} DistinctCount(s: seq<string>)
    requires Distinct(s)
    ensures forall x :: multiset(s)[x] == if x in s then 1 else 0
  {
    if s != [] {
      var init := s[..|s| - 1];
      assert s == init + [s[|s| - 1]];
      DistinctCount(init);
    }
  }

  lemma EntryValueIff(b: Binding, c: Binding)
    requires IsDict(b.deps) && IsDict(c.deps)
    ensures EntryValue(b) == EntryValue(c) <==> SameBinding(b, c)
  {
    hide SortedKeys;
    SameKeysSameOrder(b.deps, c.deps);
    var bs := StrFields(SortedKeys(b.deps), b.deps.at);
    var cs := StrFields(SortedKeys(c.deps), c.deps.at);
    if SameBinding(b, c) {
      assert bs == cs;
    }
    if EntryValue(b) == EntryValue(c) {
      EntryParts(b);
      EntryParts(c);
      assert bs == cs;
      StrFieldsInjective(SortedKeys(b.deps), b.deps.at, SortedKeys(c.deps), c.deps.at);
      assert b.deps.at == c.deps.at;
    }
  }

  lemma EntryParts(b: Binding)
    requires IsDict(b.deps)
    ensures var v := EntryValue(b).fields;
            && v[0].value == Str(b.content)
            && v[1].value == Obj(StrFields(SortedKeys(b.deps), b.deps.at))
            && v[2].value == (if b.purpose.Some? then Str(b.purpose.value) else Null)
  {
  }

  lemma StrFieldsInjective(ks: seq<string>, at: map<string, string>, ls: seq<string>, bt: map<string, string>)
    requires (forall k :: k in ks ==> k in at) && (forall k :: k in ls ==> k in bt)
    requires StrFields(ks, at) == StrFields(ls, bt)
    ensures ks == ls && forall k :: k in ks ==> at[k] == bt[k]
  {
  }

  lemma FrozenValueIff(f: Frozen, g: Frozen)
    requires IsFrozen(f) && IsFrozen(g)
    ensures FrozenValue(f) == FrozenValue(g) <==> SameFrozen(f, g)
  {
    hide SortedKeys, SameBinding, EntryValue;
    SameKeysSameOrder(f.artifacts, g.artifacts);
    var ks, ls := SortedKeys(f.artifacts), SortedKeys(g.artifacts);
    var fs := EntryFields(ks, f.artifacts.at);
    var gs := EntryFields(ls, g.artifacts.at);
    if SameFrozen(f, g) {
      forall i | 0 <= i < |ks| ensures fs[i] == gs[i] {
        assert ks[i] in ks;
        EntryValueIff(f.artifacts.at[ks[i]], g.artifacts.at[ks[i]]);
      }
      assert fs == gs;
    }
    if FrozenValue(f) == FrozenValue(g) {
      assert fs == gs by {
        assert FrozenValue(f).fields[0].value == Obj(fs) && FrozenValue(g).fields[0].value == Obj(gs);
      }
      assert FrozenValue(f).fields[1].value == Str(f.format) && FrozenValue(g).fields[1].value == Str(g.format);
      forall i | 0 <= i < |ks| ensures ks[i] == ls[i] && SameBinding(f.artifacts.at[ks[i]], g.artifacts.at[ks[i]]) {
        assert ks[i] in ks && ls[i] in ls;
        assert fs[i] == Field(ks[i], EntryValue(f.artifacts.at[ks[i]]));
        assert gs[i] == Field(ls[i], EntryValue(g.artifacts.at[ls[i]]));
        EntryValueIff(f.artifacts.at[ks[i]], g.artifacts.at[ks[i]]);
      }
      assert ks == ls;
    }
  }

  /** The canonical text identifies the contract: it does not depend on the order entries were
      inserted in, and two freezes print the same text exactly when they bind the same things. */
  lemma CanonicalTextIff(f: Frozen, g: Frozen)
    requires IsFrozen(f) && IsFrozen(g)
    ensures CanonicalText(f) == CanonicalText(g) <==> SameFrozen(f, g)
  {
    hide Print, Loads, Printable, FrozenValue, SameFrozen;
    FrozenIsPrintable(f);
    FrozenIsPrintable(g);
    LoadsPrinted(FrozenValue(f));
    LoadsPrinted(FrozenValue(g));
    FrozenValueIff(f, g);
  }

  // ---------------------------------------------------------------- the loader undoes the printer

  /** What the loader demands of a freeze, said of the freeze itself. */
  ghost predicate ValidFrozen(f: Frozen, lower: string -> string) {
    && f.format == FORMAT
    && (forall m :: m in f.artifacts.at ==> ValidBinding(m, f.artifacts.at[m]))
    && (forall m, n :: m in f.artifacts.at && n in f.artifacts.at && m != n ==> lower(m) != lower(n))
  }

  ghost predicate ValidBinding(member: string, b: Binding) {
    && Accepted(member)
    && DigestOk(b.content)
    && b.purpose.Some? && b.purpose.value in PURPOSES
    && forall k :: k in b.deps.at ==> Accepted(k) && k != member && DigestOk(b.deps.at[k])
  }

  lemma {:induction false} AsDictOfDistinct(fields: seq<Field>)
    requires forall i, j :: 0 <= i < j < |fields| ==> fields[i].key != fields[j].key
    ensures var d := AsDict(fields);
            && |d.keys| == |fields|
            && (forall i :: 0 <= i < |fields| ==> d.keys[i] == fields[i].key)
            && (forall i :: 0 <= i < |fields| ==> fields[i].key in d.at && d.at[fields[i].key] == fields[i].value)
  {
    AsDictStep(fields);
    hide AsDict, IsDict;
    if fields != [] {
      var init := fields[..|fields| - 1];
      var last := fields[|fields| - 1];
      AsDictOfDistinct(init);
      AsDictStep(init);
      LastIsNew(AsDict(init), init, last);
      Appended(AsDict(init), fields);
    }
  }

  lemma Appended(d: Dict<Value>, fields: seq<Field>)
    requires fields != [] && |d.keys| == |fields| - 1
    requires forall i :: 0 <= i < |d.keys| ==> d.keys[i] == fields[i].key && fields[i].key != fields[|fields| - 1].key
    requires forall i :: 0 <= i < |d.keys| ==> fields[i].key in d.at && d.at[fields[i].key] == fields[i].value
    ensures var last := fields[|fields| - 1];
            var keys, at := d.keys + [last.key], d.at[last.key := last.value];
            forall i :: 0 <= i < |fields| ==>
              keys[i] == fields[i].key && fields[i].key in at && at[fields[i].key] == fields[i].value
  {
  }

  lemma AsDictStep(fields: seq<Field>)
    ensures AsDict(fields) ==
            if fields == [] then Dict([], map[])
            else
              var d := AsDict(fields[..|fields| - 1]);
              var last := fields[|fields| - 1];
              Dict(if last.key in d.at then d.keys else d.keys + [last.key], d.at[last.key := last.value])
    ensures IsDict(AsDict(fields))
  {
  }

  lemma LastIsNew(d: Dict<Value>, init: seq<Field>, last: Field)
    requires IsDict(d) && |d.keys| == |init|
    requires forall i :: 0 <= i < |init| ==> d.keys[i] == init[i].key && init[i].key != last.key
    ensures last.key !in d.at
  {
  }

  lemma SortedIsDistinct<V>(d: Dict<V>)
    requires IsDict(d)
    ensures Distinct(SortedKeys(d))
  {
    DistinctCount(d.keys);
    SameElements(Sort(d.keys), d.keys);
    CountDistinct(Sort(d.keys));
  }

  lemma {:induction false} CountDistinct(s: seq<string>)
    requires forall x :: multiset(s)[x] <= 1
    ensures Distinct(s)
  {
    if s != [] {
      var init := s[..|s| - 1];
      var last := s[|s| - 1];
      assert s == init + [last];
      assert forall x :: multiset(init)[x] <= multiset(s)[x];
      CountDistinct(init);
      assert last !in init by { assert multiset(s)[last] == multiset(init)[last] + 1; }
    }
  }

  /** Reading an entry's value back gives the binding, its dependencies now in printed order. */
  lemma EntryRoundTrip(member: string, b: Binding)
    requires IsDict(b.deps)
    ensures EntryOk(member, EntryValue(b)) <==> ValidBinding(member, b)
    ensures ValidBinding(member, b) ==>
              BindingFrom(member, EntryValue(b)) == b.(deps := Dict(SortedKeys(b.deps), b.deps.at))
  {
    hide SortedKeys, Accepted, DigestOk, AsDict, StrFields, EntryValue;
    EntryDict(b);
    StrDictRoundTrip(b.deps);
    var dd := AsDict(StrFields(SortedKeys(b.deps), b.deps.at));
    assert DepsOk(member, dd) <==> forall k :: k in b.deps.at ==> Accepted(k) && k != member && DigestOk(b.deps.at[k]);
    if ValidBinding(member, b) {
      assert (map k | k in dd.at :: dd.at[k].s) == b.deps.at;
    }
  }

  lemma EntryDict(b: Binding)
    requires IsDict(b.deps)
    ensures EntryValue(b).Obj?
    ensures var d := AsDict(EntryValue(b).fields).at;
            && d.Keys == BINDING_FIELDS
            && d["content_sha256"] == Str(b.content)
            && d["depends_on"] == Obj(StrFields(SortedKeys(b.deps), b.deps.at))
            && d["review_purpose"] == (if b.purpose.Some? then Str(b.purpose.value) else Null)
  {
    hide SortedKeys, AsDict, StrFields;
    var fields := EntryValue(b).fields;
    AsDictOfDistinct(fields);
    var d := AsDict(fields);
    assert d.keys == ["content_sha256", "depends_on", "review_purpose"];
    assert d.at[fields[0].key] == fields[0].value && d.at[fields[1].key] == fields[1].value;
    assert d.at[fields[2].key] == fields[2].value;
    assert forall k :: k in d.at <==> k in d.keys;
  }

  lemma StrDictRoundTrip(d: Dict<string>)
    requires IsDict(d)
    ensures var e := AsDict(StrFields(SortedKeys(d), d.at));
            && e.keys == SortedKeys(d) && e.at.Keys == d.at.Keys
            && forall k :: k in d.at ==> e.at[k] == Str(d.at[k])
  {
    hide SortedKeys, AsDict;
    var ks := SortedKeys(d);
    var fields := StrFields(ks, d.at);
    SortedIsDistinct(d);
    AsDictOfDistinct(fields);
    var e := AsDict(fields);
    assert e.keys == ks;
    forall k | k in d.at ensures k in e.at && e.at[k] == Str(d.at[k]) {
      assert k in ks;
      var i :| 0 <= i < |ks| && ks[i] == k;
      assert fields[i].key == k;
    }
    assert forall k :: k in e.at <==> k in e.keys;
  }

  /** Loading the printed text accepts exactly the valid freezes and gives the same freeze back. */
  lemma LoadingUndoesPrinting(f: Frozen, lower: string -> string)
    requires IsFrozen(f)
    ensures Loads(CanonicalText(f)) == Some(FrozenValue(f))
    ensures FreezeOk(FrozenValue(f), lower) <==> ValidFrozen(f, lower)
    ensures ValidFrozen(f, lower) ==> SameFrozen(FrozenFrom(FrozenValue(f)), f) && IsFrozen(FrozenFrom(FrozenValue(f)))
  {
    hide Print, Loads, Printable, SortedKeys, EntryValue, EntryOk, ValidBinding, AsDict;
    FrozenIsPrintable(f);
    LoadsPrinted(FrozenValue(f));
    ShapeRoundTrip(f);
    EntriesRoundTrip(f);
    CaseRoundTrip(f, lower);
    if f.format == FORMAT {
      forall m | m in f.artifacts.at
        ensures EntryOk(m, Entries(FrozenValue(f)).at[m]) <==> ValidBinding(m, f.artifacts.at[m])
      {
        EntryRoundTrip(m, f.artifacts.at[m]);
      }
      if ValidFrozen(f, lower) { LoadedIsSame(f); }
    }
  }

  lemma ShapeRoundTrip(f: Frozen)
    requires IsFrozen(f)
    ensures ShapeOk(FrozenValue(f)) <==> f.format == FORMAT
    ensures f.format == FORMAT ==>
              Entries(FrozenValue(f)) == AsDict(EntryFields(SortedKeys(f.artifacts), f.artifacts.at))
  {
    hide SortedKeys, EntryValue, AsDict;
    var fields := FrozenValue(f).fields;
    assert |fields| == 2 && fields[0].key == "artifacts" && fields[1].key == "format";
    AsDictOfDistinct(fields);
    var d := AsDict(fields);
    assert d.keys == ["artifacts", "format"];
    assert d.at[fields[0].key] == fields[0].value && d.at[fields[1].key] == fields[1].value;
    assert forall k :: k in d.at <==> k in d.keys;
  }

  lemma EntriesRoundTrip(f: Frozen)
    requires IsFrozen(f)
    ensures var e := AsDict(EntryFields(SortedKeys(f.artifacts), f.artifacts.at));
            && e.keys == SortedKeys(f.artifacts) && e.at.Keys == f.artifacts.at.Keys
            && forall m :: m in f.artifacts.at ==> e.at[m] == EntryValue(f.artifacts.at[m])
  {
    hide SortedKeys, EntryValue, AsDict;
    var ks := SortedKeys(f.artifacts);
    var fields := EntryFields(ks, f.artifacts.at);
    SortedIsDistinct(f.artifacts);
    AsDictOfDistinct(fields);
    var e := AsDict(fields);
    assert e.keys == ks;
    forall k | k in f.artifacts.at ensures k in e.at && e.at[k] == EntryValue(f.artifacts.at[k]) {
      assert k in ks;
      var i :| 0 <= i < |ks| && ks[i] == k;
      assert fields[i].key == k;
    }
    assert forall k :: k in e.at <==> k in e.keys;
  }

  lemma CaseRoundTrip(f: Frozen, lower: string -> string)
    requires IsFrozen(f)
    ensures CaseDistinct(SortedKeys(f.artifacts), lower) <==>
            forall m, n :: m in f.artifacts.at && n in f.artifacts.at && m != n ==> lower(m) != lower(n)
  {
    hide SortedKeys;
    var ks := SortedKeys(f.artifacts);
    SortedIsDistinct(f.artifacts);
    if CaseDistinct(ks, lower) {
      forall m, n | m in f.artifacts.at && n in f.artifacts.at && m != n ensures lower(m) != lower(n) {
        assert m in ks && n in ks;
        var i :| 0 <= i < |ks| && ks[i] == m;
        var j :| 0 <= j < |ks| && ks[j] == n;
        if i < j { assert lower(ks[i]) != lower(ks[j]); } else { assert lower(ks[j]) != lower(ks[i]); }
      }
    }
    assert forall i :: 0 <= i < |ks| ==> ks[i] in ks;
  }

  lemma LoadedIsSame(f: Frozen)
    requires IsFrozen(f) && f.format == FORMAT && forall m :: m in f.artifacts.at ==> ValidBinding(m, f.artifacts.at[m])
    requires ShapeOk(FrozenValue(f))
    requires forall m :: m in Entries(FrozenValue(f)).at ==> EntryOk(m, Entries(FrozenValue(f)).at[m])
    ensures SameFrozen(FrozenFrom(FrozenValue(f)), f) && IsFrozen(FrozenFrom(FrozenValue(f)))
  {
    hide SortedKeys, EntryValue, EntryOk, ValidBinding, AsDict, BindingFrom;
    var g := FrozenFrom(FrozenValue(f));
    ShapeRoundTrip(f);
    EntriesRoundTrip(f);
    SortedIsDistinct(f.artifacts);
    forall m | m in f.artifacts.at
      ensures SameBinding(g.artifacts.at[m], f.artifacts.at[m]) && IsDict(g.artifacts.at[m].deps)
    {
      EntryRoundTrip(m, f.artifacts.at[m]);
      SortedIsDistinct(f.artifacts.at[m].deps);
    }
  }

  /** Agreement and cycles are facts about what a freeze binds, not about how it is listed. */
  lemma SameMeansSameChecks(f: Frozen, g: Frozen)
    requires IsFrozen(f) && IsFrozen(g) && SameArtifacts(f, g)
    ensures forall m, t :: Clashes(f, m, t) <==> Clashes(g, m, t)
    ensures Agrees(f) <==> Agrees(g)
    ensures Cyclic(DependencyGraph(f)) <==> Cyclic(DependencyGraph(g))
    ensures forall p :: ClosesCycle(DependencyGraph(f), p) ==> ClosesCycle(DependencyGraph(g), p)
  {
    EdgesAgree(f, g);
    EdgesAgree(g, f);
  }

  lemma EdgesAgree(f: Frozen, g: Frozen)
    requires IsFrozen(f) && IsFrozen(g) && SameArtifacts(f, g)
    ensures Cyclic(DependencyGraph(f)) ==> Cyclic(DependencyGraph(g))
    ensures forall p :: ClosesCycle(DependencyGraph(f), p) ==> ClosesCycle(DependencyGraph(g), p)
  {
    var a, b := DependencyGraph(f), DependencyGraph(g);
    assert forall m, n :: Edge(a, m, n) ==> Edge(b, m, n);
    if Cyclic(a) {
      var x :| Dag.Reaches(a, x, x);
      var p :| WalkFrom(a, x, x, p);
      assert WalkFrom(b, x, x, p);
      assert Dag.Reaches(b, x, x);
    }
  }

  // ---------------------------------------------------------------- comparing two freezes

  datatype Difference =
    | MemberRemoved(path: string) | MemberAdded(path: string)
    | ContentDiffers(path: string) | DependenciesDiffer(path: string) | PurposeDiffers(path: string)

  /** What each finding claims. */
  ghost predicate Holds(f: Frozen, g: Frozen, d: Difference) {
    var was, now := f.artifacts.at, g.artifacts.at;
    match d
    case MemberRemoved(p) => p in was && p !in now
    case MemberAdded(p) => p in now && p !in was
    case ContentDiffers(p) => p in was && p in now && was[p].content != now[p].content
    case DependenciesDiffer(p) => p in was && p in now && was[p].deps.at != now[p].deps.at
    case PurposeDiffers(p) => p in was && p in now && was[p].purpose != now[p].purpose
  }

  function DifferencesAt(f: Frozen, g: Frozen, p: string): seq<Difference> {
    var was, now := f.artifacts.at, g.artifacts.at;
    if p !in now then [MemberRemoved(p)]
    else if p !in was then [MemberAdded(p)]
    else
      (if was[p].content != now[p].content then [ContentDiffers(p)] else [])
      + (if was[p].deps.at != now[p].deps.at then [DependenciesDiffer(p)] else [])
      + (if was[p].purpose != now[p].purpose then [PurposeDiffers(p)] else [])
  }

  /** At one path: content, then dependencies, then purpose. */
  function Rank(d: Difference): nat {
    match d
    case DependenciesDiffer(_) => 1
    case PurposeDiffers(_) => 2
    case _ => 0
  }

  predicate Precedes(d: Difference, e: Difference) {
    Leq(d.path, e.path) && (d.path == e.path ==> Rank(d) < Rank(e))
  }

  ghost predicate Reported(out: seq<Difference>) {
    forall i, j :: 0 <= i < j < |out| ==> Precedes(out[i], out[j])
  }

  /** Every difference and nothing else, once, path by path in order. */
  method Compare(f: Frozen, g: Frozen) returns (out: seq<Difference>)
    requires IsFrozen(f) && IsFrozen(g)
    ensures forall d :: d in out <==> Holds(f, g, d)
    ensures forall i, j :: 0 <= i < j < |out| ==> Precedes(out[i], out[j])
    ensures out == [] <==> SameArtifacts(f, g)
  {
    hide Precedes, Holds, DifferencesAt, Leq;
    var names := f.artifacts.keys + g.artifacts.keys;
    var paths := Sort(names);
    SameElements(paths, names);
    SortAscends(names);
    out := [];
    var seen: set<string> := {};
    for i := 0 to |paths|
      invariant forall x :: x in seen <==> exists j :: 0 <= j < i && paths[j] == x
      invariant forall d :: d in out <==> Holds(f, g, d) && d.path in seen
      invariant Reported(out)
    {
      var p := paths[i];
      assert p in paths;
      if p !in seen {
        DifferencesHold(f, g, p);
        DifferencesInOrder(f, g, p);
        forall d, e | d in out && e in DifferencesAt(f, g, p) ensures Precedes(d, e) { EarlierPath(d, e); }
        JoinReports(out, DifferencesAt(f, g, p));
        out := out + DifferencesAt(f, g, p);
        seen := seen + {p};
      }
    }
    forall d | Holds(f, g, d) ensures d.path in seen {
      HoldsOfAPath(f, g, d);
      assert d.path in names && d.path in paths;
    }
    NoDifference(f, g);
    assert out != [] ==> out[0] in out;
  }

  lemma DifferencesHold(f: Frozen, g: Frozen, p: string)
    requires p in f.artifacts.at || p in g.artifacts.at
    ensures forall d :: d in DifferencesAt(f, g, p) <==> Holds(f, g, d) && d.path == p
  {
  }

  lemma HoldsOfAPath(f: Frozen, g: Frozen, d: Difference)
    requires Holds(f, g, d)
    ensures d.path in f.artifacts.at || d.path in g.artifacts.at
  {
  }

  lemma DifferencesInOrder(f: Frozen, g: Frozen, p: string)
    ensures Reported(DifferencesAt(f, g, p))
  {
    LeqTotal(p, p);
  }

  lemma EarlierPath(d: Difference, e: Difference)
    requires Leq(d.path, e.path) && d.path != e.path
    ensures Precedes(d, e)
  {
  }

  lemma JoinReports(a: seq<Difference>, b: seq<Difference>)
    requires Reported(a) && Reported(b) && forall d, e :: d in a && e in b ==> Precedes(d, e)
    ensures Reported(a + b)
  {
    hide Precedes;
  }

  lemma NoDifference(f: Frozen, g: Frozen)
    ensures (forall d :: !Holds(f, g, d)) <==> SameArtifacts(f, g)
  {
    if forall d :: !Holds(f, g, d) {
      forall p ensures p in f.artifacts.at <==> p in g.artifacts.at {
        assert !Holds(f, g, MemberRemoved(p)) && !Holds(f, g, MemberAdded(p));
      }
      forall p | p in f.artifacts.at ensures SameBinding(f.artifacts.at[p], g.artifacts.at[p]) {
        assert !Holds(f, g, ContentDiffers(p)) && !Holds(f, g, DependenciesDiffer(p));
        assert !Holds(f, g, PurposeDiffers(p));
      }
    }
  }

  /** Between freezes of one format, an empty comparison is equality of identity. */
  lemma ComparingIsIdentity(f: Frozen, g: Frozen)
    requires IsFrozen(f) && IsFrozen(g) && f.format == g.format
    ensures (forall d :: !Holds(f, g, d)) <==> CanonicalText(f) == CanonicalText(g)
  {
    hide CanonicalText, Holds;
    NoDifference(f, g);
    CanonicalTextIff(f, g);
  }
}
