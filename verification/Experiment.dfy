/** Closed-world experiments: three coordinates, one slot per (sample, instance, arm), and the
    composite identifiers the measurement store keys on. */
module Experiment {
  import opened Common
  import opened Schedule

  datatype Spec = Spec(instances: seq<string>, arms: seq<string>, pressures: seq<string>, samples: nat)

  predicate SimpleName(id: string) {
    '|' !in id && '#' !in id
  }

  /** What loading refuses: an arm or pressure id with a separator in it, or any repeated name. An
      instance may be called anything. */
  ghost predicate Loaded(e: Spec) {
    && e.samples >= 1
    && e.instances != [] && Distinct(e.instances)
    && e.pressures != [] && Distinct(e.pressures) && (forall p :: p in e.pressures ==> p != "" && SimpleName(p))
    && e.arms != [] && Distinct(e.arms) && (forall a :: a in e.arms ==> SimpleName(a))
    && (|e.arms| > 1 ==> "baseline" in e.arms)
  }

  datatype Cell = Cell(instance: string, arm: string, sample: int)

  /** The arm order of one instance in one sample. */
  function BlockArms(e: Spec, sample: nat, index: nat): seq<string>
    requires e.arms != []
  {
    Rotated(e.arms, (sample + index) % |e.arms|)
  }

  function CellsFor(instance: string, arms: seq<string>, sample: int): (cells: seq<Cell>)
    ensures |cells| == |arms|
    ensures forall i :: 0 <= i < |arms| ==> cells[i] == Cell(instance, arms[i], sample)
  {
    if arms == [] then []
    else CellsFor(instance, arms[..|arms| - 1], sample) + [Cell(instance, arms[|arms| - 1], sample)]
  }

  function Block(e: Spec, sample: nat, index: nat): seq<Cell>
    requires e.arms != [] && index < |e.instances|
  {
    CellsFor(e.instances[index], BlockArms(e, sample, index), sample)
  }

  function SampleCells(e: Spec, sample: nat, upTo: nat): seq<Cell>
    requires e.arms != [] && upTo <= |e.instances|
  {
    if upTo == 0 then [] else SampleCells(e, sample, upTo - 1) + Block(e, sample, upTo - 1)
  }

  function AllCells(e: Spec, samples: nat): seq<Cell>
    requires e.arms != []
  {
    if samples == 0 then [] else AllCells(e, samples - 1) + SampleCells(e, samples, |e.instances|)
  }

  method Slots(e: Spec) returns (out: seq<Cell>)
    requires e.arms != []
    ensures out == AllCells(e, e.samples)
  {
    hide CellsFor, BlockArms;
    out := [];
    for sample := 1 to e.samples + 1
      invariant out == AllCells(e, sample - 1)
    {
      ghost var before := out;
      for index := 0 to |e.instances|
        invariant out == before + SampleCells(e, sample, index)
      {
        var block := BlockSlots(e.instances[index], BlockArms(e, sample, index), sample);
        out := out + block;
      }
    }
  }

  /** The innermost loop: one instance in one sample, arm after arm. */
  method BlockSlots(instance: string, arms: seq<string>, sample: int) returns (out: seq<Cell>)
    ensures out == CellsFor(instance, arms, sample)
  {
    out := [];
    for i := 0 to |arms|
      invariant out == CellsFor(instance, arms[..i], sample)
    {
      assert arms[..i + 1][..i] == arms[..i];
      out := out + [Cell(instance, arms[i], sample)];
    }
    assert arms[..|arms|] == arms;
  }

  // ---------------------------------------------------------------- where a cell is listed

  lemma {:induction false} SampleCellsAt(e: Spec, sample: nat, upTo: nat, index: nat, p: nat)
    requires e.arms != [] && index < upTo <= |e.instances| && p < |e.arms|
    ensures |SampleCells(e, sample, upTo)| == upTo * |e.arms|
    ensures 0 <= index * |e.arms| + p < upTo * |e.arms|
    ensures SampleCells(e, sample, upTo)[index * |e.arms| + p] ==
            Cell(e.instances[index], e.arms[(sample + index + p) % |e.arms|], sample)
  {
    hide Block;
    var n := |e.arms|;
    SampleCellsSize(e, sample, upTo);
    SampleCellsSize(e, sample, upTo - 1);
    RowFits(n, index + 1, upTo, p);
    if index < upTo - 1 {
      SampleCellsAt(e, sample, upTo - 1, index, p);
    } else {
      BlockAt(e, sample, index, p);
      assert SampleCells(e, sample, upTo)[index * n + p] == Block(e, sample, index)[p];
    }
  }

  lemma BlockAt(e: Spec, sample: nat, index: nat, p: nat)
    requires index < |e.instances| && p < |e.arms|
    ensures |Block(e, sample, index)| == |e.arms|
    ensures Block(e, sample, index)[p] == Cell(e.instances[index], e.arms[(sample + index + p) % |e.arms|], sample)
  {
    hide CellsFor;
    RotatedAt(e.arms, (sample + index) % |e.arms|, p);
    RotationIndex(|e.arms|, sample + index, p);
  }

  lemma {:induction false} SampleCellsSize(e: Spec, sample: nat, upTo: nat)
    requires e.arms != [] && upTo <= |e.instances|
    ensures |SampleCells(e, sample, upTo)| == upTo * |e.arms|
  {
    hide Block;
    if upTo > 0 {
      SampleCellsSize(e, sample, upTo - 1);
      BlockAt(e, sample, upTo - 1, 0);
      OneRowMore(upTo, |e.arms|);
    }
  }

  lemma {:induction false} AllCellsSize(e: Spec, samples: nat)
    requires e.arms != []
    ensures |AllCells(e, samples)| == samples * (|e.instances| * |e.arms|)
  {
    hide SampleCells;
    if samples > 0 {
      AllCellsSize(e, samples - 1);
      SampleCellsSize(e, samples, |e.instances|);
      OneRowMore(samples, |e.instances| * |e.arms|);
    }
  }

  /** Sample after sample, in each of them instance after instance, and for each of those the arms in
      turn, from one further on than for the instance before it and than in the sample before it. */
  lemma {:induction false} CellAt(e: Spec, samples: nat, sample: nat, index: nat, p: nat)
    requires 1 <= sample <= samples && index < |e.instances| && p < |e.arms|
    ensures var at := (sample - 1) * (|e.instances| * |e.arms|) + (index * |e.arms| + p);
            && 0 <= at < |AllCells(e, samples)|
            && AllCells(e, samples)[at] == Cell(e.instances[index], e.arms[(sample + index + p) % |e.arms|], sample)
  {
    hide SampleCells;
    var row := |e.instances| * |e.arms|;
    AllCellsSize(e, samples);
    AllCellsSize(e, samples - 1);
    SampleCellsAt(e, sample, |e.instances|, index, p);
    RowFits(row, sample, samples, index * |e.arms| + p);
    if sample < samples { CellAt(e, samples - 1, sample, index, p); }
  }

  // ---------------------------------------------------------------- how often a cell is listed

  lemma {:induction false} CellsForTimes(arms: seq<string>, instance: string, sample: int, x: Cell)
    ensures Times(CellsFor(instance, arms, sample), x) ==
            if x.instance == instance && x.sample == sample then Times(arms, x.arm) else 0
  {
    if arms != [] {
      var init := arms[..|arms| - 1];
      CellsForTimes(init, instance, sample, x);
      var cells := CellsFor(instance, arms, sample);
      assert cells[..|cells| - 1] == CellsFor(instance, init, sample);
    }
  }

  lemma BlockTimes(e: Spec, sample: nat, index: nat, x: Cell)
    requires e.arms != [] && Distinct(e.arms) && index < |e.instances|
    ensures Times(Block(e, sample, index), x) ==
            if x.instance == e.instances[index] && x.sample == sample && x.arm in e.arms then 1 else 0
  {
    hide Times, Rotated, CellsFor, Distinct;
    RotatedTimes(e.arms, (sample + index) % |e.arms|, x.arm);
    DifferentTimes(e.arms, x.arm);
    CellsForTimes(BlockArms(e, sample, index), e.instances[index], sample, x);
  }

  lemma {:induction false} SampleTimes(e: Spec, sample: nat, upTo: nat, x: Cell)
    requires e.arms != [] && Distinct(e.arms) && upTo <= |e.instances|
    ensures Times(SampleCells(e, sample, upTo), x) ==
            if x.sample == sample && x.arm in e.arms then Times(e.instances[..upTo], x.instance) else 0
  {
    hide Times, Block, Distinct;
    if upTo == 0 {
      TimesPositive(SampleCells(e, sample, 0), x);
      TimesPositive(e.instances[..0], x.instance);
    } else {
      var last := e.instances[upTo - 1];
      SampleTimes(e, sample, upTo - 1, x);
      BlockTimes(e, sample, upTo - 1, x);
      TimesConcat(SampleCells(e, sample, upTo - 1), Block(e, sample, upTo - 1), x);
      assert e.instances[..upTo] == e.instances[..upTo - 1] + [last];
      TimesConcat(e.instances[..upTo - 1], [last], x.instance);
      TimesOne(last, x.instance);
    }
  }

  /** Every (instance, arm, sample) is listed exactly once, and nothing else is. */
  lemma {:induction false} EverySlotOnce(e: Spec, samples: nat, x: Cell)
    requires e.arms != [] && Distinct(e.arms) && Distinct(e.instances)
    ensures Times(AllCells(e, samples), x) ==
            if x.instance in e.instances && x.arm in e.arms && 1 <= x.sample <= samples then 1 else 0
  {
    hide Times, SampleCells, Distinct;
    if samples == 0 {
      TimesPositive(AllCells(e, 0), x);
    } else {
      EverySlotOnce(e, samples - 1, x);
      SampleTimes(e, samples, |e.instances|, x);
      DifferentTimes(e.instances, x.instance);
      TimesConcat(AllCells(e, samples - 1), SampleCells(e, samples, |e.instances|), x);
      assert e.instances[..|e.instances|] == e.instances;
    }
  }

  /** For each instance, over any |arms| consecutive samples each arm takes each position exactly once. */
  lemma ArmsTakeTurns(e: Spec, first: nat, index: nat, p: nat, a: nat, t: nat)
    requires Distinct(e.arms) && index < |e.instances| && p < |e.arms| && a < |e.arms| && t < |e.arms|
    ensures Block(e, first + t, index)[p].arm == e.arms[a] <==> t == Turn(|e.arms|, first + index, p, a)
  {
    hide Turn, Rotated, CellsFor;
    var n := |e.arms|;
    var offset := (first + index + t) % n;
    assert (first + t + index) % n == offset;
    RotatedAt(e.arms, offset, p);
    TurnIsUnique(n, first + index, p, a, t);
    DifferentAt(e.arms, a, if offset + p < n then offset + p else offset + p - n);
  }

  // ---------------------------------------------------------------- identifiers

  function SlotId(instance: string, arm: string, pressure: string): string {
    instance + "|" + arm + "|" + pressure
  }

  function Digit(d: nat): char
    requires d < 10
  {
    "0123456789"[d]
  }

  function Decimal(n: nat): string {
    if n < 10 then [Digit(n)] else Decimal(n / 10) + [Digit(n % 10)]
  }

  function ReflectionId(instance: string, arm: string, sample: nat): string {
    instance + "|" + arm + "#" + Decimal(sample)
  }

  /** The last separator of a composite decides where its last coordinate starts. */
  lemma LastSeparator(a: string, x: string, b: string, y: string, c: char)
    requires c !in x && c !in y && a + [c] + x == b + [c] + y
    ensures a == b && x == y
  {
    var s, t := a + [c] + x, b + [c] + y;
    assert s[|a|] == c && t[|b|] == c;
    assert forall k :: |a| < k < |s| ==> s[k] == x[k - |a| - 1];
    assert forall k :: |b| < k < |t| ==> t[k] == y[k - |b| - 1];
    assert |a| == |b|;
    assert s[..|a|] == a && t[..|b|] == b && s[|a| + 1..] == x && t[|b| + 1..] == y;
  }

  /** Cell ids separate their coordinates although an instance may contain the separator. */
  lemma SlotIdInjective(i: string, a: string, p: string, j: string, b: string, q: string)
    requires SimpleName(a) && SimpleName(p) && SimpleName(b) && SimpleName(q)
    ensures SlotId(i, a, p) == SlotId(j, b, q) <==> i == j && a == b && p == q
  {
    if SlotId(i, a, p) == SlotId(j, b, q) {
      assert SlotId(i, a, p) == (i + "|" + a) + ['|'] + p && SlotId(j, b, q) == (j + "|" + b) + ['|'] + q;
      LastSeparator(i + "|" + a, p, j + "|" + b, q, '|');
      LastSeparator(i, a, j, b, '|');
    }
  }

  /** What decimal digits say. */
  function ValueOf(s: string): int {
    if s == "" then 0 else 10 * ValueOf(s[..|s| - 1]) + (s[|s| - 1] as int - '0' as int)
  }

  /** A sample is written in decimal, without a leading zero. */
  lemma {:induction false} DecimalIsTheNumber(n: nat)
    ensures ValueOf(Decimal(n)) == n
    ensures Decimal(n) != "" && (forall c :: c in Decimal(n) ==> '0' <= c <= '9')
    ensures n > 0 ==> Decimal(n)[0] != '0'
  {
    if n < 10 {
      assert Decimal(n)[..0] == "";
    } else {
      DecimalIsTheNumber(n / 10);
      assert Decimal(n)[..|Decimal(n)| - 1] == Decimal(n / 10);
    }
  }

  lemma {:induction false} DecimalDigits(n: nat)
    ensures '#' !in Decimal(n) && '|' !in Decimal(n) && Decimal(n) != ""
    ensures n >= 10 ==> |Decimal(n)| > 1
  {
    if n >= 10 { DecimalDigits(n / 10); }
  }

  lemma {:induction false} DecimalInjective(n: nat, m: nat)
    requires Decimal(n) == Decimal(m)
    ensures n == m
  {
    DecimalDigits(n);
    DecimalDigits(m);
    var s, t := Decimal(n), Decimal(m);
    assert s[|s| - 1] == Digit(n % 10) && t[|t| - 1] == Digit(m % 10);
    if n >= 10 && m >= 10 {
      assert s[..|s| - 1] == Decimal(n / 10) && t[..|t| - 1] == Decimal(m / 10);
      DecimalInjective(n / 10, m / 10);
    }
  }

  /** Reflection ids separate theirs too, sample numbers included. */
  lemma ReflectionIdInjective(i: string, a: string, n: nat, j: string, b: string, m: nat)
    requires SimpleName(a) && SimpleName(b)
    ensures ReflectionId(i, a, n) == ReflectionId(j, b, m) <==> i == j && a == b && n == m
  {
    if ReflectionId(i, a, n) == ReflectionId(j, b, m) {
      DecimalDigits(n);
      DecimalDigits(m);
      assert ReflectionId(i, a, n) == (i + "|" + a) + ['#'] + Decimal(n);
      assert ReflectionId(j, b, m) == (j + "|" + b) + ['#'] + Decimal(m);
      LastSeparator(i + "|" + a, Decimal(n), j + "|" + b, Decimal(m), '#');
      LastSeparator(i, a, j, b, '|');
      DecimalInjective(n, m);
    }
  }

  /** No two slots of a loaded experiment share a reflection id, so no sample can satisfy another's slot. */
  lemma ReflectionSlotsDiffer(e: Spec, s: nat, t: nat)
    requires Loaded(e) && s < t < |AllCells(e, e.samples)|
    ensures var x, y := AllCells(e, e.samples)[s], AllCells(e, e.samples)[t];
            && x.sample >= 1 && y.sample >= 1
            && ReflectionId(x.instance, x.arm, x.sample) != ReflectionId(y.instance, y.arm, y.sample)
  {
    hide Times, AllCells, ReflectionId, SimpleName;
    var cells := AllCells(e, e.samples);
    forall x: Cell ensures Times(cells, x) <= 1 {
      EverySlotOnce(e, e.samples, x);
    }
    OnceIsDifferent(cells);
    ListedCell(e, s);
    ListedCell(e, t);
    var x, y := cells[s], cells[t];
    ReflectionIdInjective(x.instance, x.arm, x.sample, y.instance, y.arm, y.sample);
  }

  lemma ListedCell(e: Spec, s: nat)
    requires Loaded(e) && s < |AllCells(e, e.samples)|
    ensures var x := AllCells(e, e.samples)[s]; x.sample >= 1 && SimpleName(x.arm)
  {
    hide Times, AllCells, SimpleName;
    var x := AllCells(e, e.samples)[s];
    EverySlotOnce(e, e.samples, x);
    TimesPositive(AllCells(e, e.samples), x);
  }

  /** Where the first bar is, or the length. */
  function Bar(s: string): (k: nat)
    ensures k <= |s| && (k < |s| ==> s[k] == '|')
    ensures forall i :: 0 <= i < k ==> s[i] != '|'
  {
    if s == "" || s[0] == '|' then 0 else 1 + Bar(s[1..])
  }

  /** Splitting at the bars unpacks into exactly three fields or fails. */
  function SplitSlot(slot: string): Option<(string, string, string)> {
    var i := Bar(slot);
    if i == |slot| then None
    else
      var rest := slot[i + 1..];
      var j := Bar(rest);
      if j == |rest| then None
      else
        var last := rest[j + 1..];
        if Bar(last) < |last| then None else Some((slot[..i], rest[..j], last))
  }

  lemma BarAt(a: string, b: string)
    ensures Bar(a + "|" + b) <= |a|
    ensures '|' !in a ==> Bar(a + "|" + b) == |a|
  {
    hide Bar;
    var s := a + "|" + b;
    assert s[|a|] == '|' && forall k :: 0 <= k < |a| ==> s[k] == a[k];
    var k := Bar(s);
    assert k < |a| ==> a[k] in a;
  }

  lemma NoBar(a: string)
    ensures Bar(a) == |a| <==> '|' !in a
  {
  }

  /** A cell id splits back into its coordinates exactly when the instance has no bar in it; for any
      other instance the split fails, although the id itself is unambiguous. */
  lemma SplitSlotIff(i: string, a: string, p: string)
    requires SimpleName(a) && SimpleName(p)
    ensures SplitSlot(SlotId(i, a, p)) == if '|' !in i then Some((i, a, p)) else None
  {
    hide Bar;
    var s := SlotId(i, a, p);
    if '|' !in i {
      assert s == i + "|" + (a + "|" + p);
      BarAt(i, a + "|" + p);
      assert s[|i| + 1..] == a + "|" + p && s[..|i|] == i;
      BarAt(a, p);
      assert (a + "|" + p)[|a| + 1..] == p && (a + "|" + p)[..|a|] == a;
      NoBar(p);
    } else {
      NoBar(i);
      var k := Bar(i);
      var tail := i[k + 1..];
      assert i == i[..k] + "|" + tail;
      ThreeBars(i[..k], tail, a, p);
      assert s == i[..k] + "|" + (tail + "|" + (a + "|" + p));
    }
  }

  lemma BarAfter(s: string, from: nat, at: nat)
    requires from <= at < |s| && s[at] == '|'
    ensures Bar(s[from..]) < |s[from..]|
  {
    hide Bar;
    assert s[from..][at - from] == '|';
    NoBar(s[from..]);
  }

  const BARRED := Spec(["a|b"], ["baseline"], ["p"], 1)

  /** Such an instance loads: this experiment is accepted, and its one cell id does not split. */
  lemma BarredInstanceLoads()
    ensures Loaded(BARRED)
    ensures SplitSlot(SlotId(BARRED.instances[0], BARRED.arms[0], BARRED.pressures[0])).None?
  {
    hide SplitSlot;
    var i, a, p := BARRED.instances[0], BARRED.arms[0], BARRED.pressures[0];
    assert i[1] == '|';
    SplitSlotIff(i, a, p);
  }

  lemma ThreeBars(head: string, tail: string, a: string, p: string)
    requires '|' !in head
    ensures SplitSlot(head + "|" + (tail + "|" + (a + "|" + p))).None?
  {
    hide Bar;
    var rest := tail + "|" + (a + "|" + p);
    BarAt(head, rest);
    assert (head + "|" + rest)[|head| + 1..] == rest;
    BarAt(tail, a + "|" + p);
    BarAfter(rest, Bar(rest) + 1, |tail| + 1 + |a|);
  }
}
