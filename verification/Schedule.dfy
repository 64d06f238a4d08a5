/** Preallocated sampling order: arms rotate so that none holds a position, and every slot is listed
    once before anything runs. */
module Schedule {
  import opened Common
  import opened SeriesRecord
  import SeriesMachine

  /** `arms[offset:] + arms[:offset]` */
  function Rotated<T>(arms: seq<T>, offset: nat): (r: seq<T>)
    requires offset <= |arms|
    ensures |r| == |arms|
  {
    arms[offset..] + arms[..offset]
  }

  lemma RotatedAt<T>(arms: seq<T>, offset: nat, p: nat)
    requires offset < |arms| && p < |arms|
    ensures Rotated(arms, offset)[p] == arms[if offset + p < |arms| then offset + p else offset + p - |arms|]
  {
  }

  /** The rotation step at which arm `a` stands at position `p`, counting from `start`. */
  function Turn(n: nat, start: int, p: nat, a: nat): (t: nat)
    requires a < n && p < n
    ensures t < n
  {
    (a - start - p) % n
  }

  lemma TurnIsUnique(n: nat, start: int, p: nat, a: nat, t: nat)
    requires a < n && p < n && t < n
    ensures var offset := (start + t) % n;
            (a == if offset + p < n then offset + p else offset + p - n) <==> t == Turn(n, start, p, a)
  {
    var offset := (start + t) % n;
    var u := Turn(n, start, p, a);
    var at := if offset + p < n then offset + p else offset + p - n;
    SameModulo(n, start + t, offset);
    SameModulo(n, a - start - p, u);
    var q :| start + t == offset + q * n;
    var k :| a - start - p == u + k * n;
    if a == at {
      if offset + p < n {
        assert t - u == (q + k) * n by { assert t - u == q * n + k * n; }
        SmallMultiple(n, t - u, q + k);
      } else {
        assert t - u == (q + k + 1) * n by { assert t - u == q * n + k * n + n; }
        SmallMultiple(n, t - u, q + k + 1);
      }
    }
    if t == u {
      if offset + p < n {
        assert a - at == (q + k) * n by { assert a - at == q * n + k * n; }
        SmallMultiple(n, a - at, q + k);
      } else {
        assert a - at == (q + k + 1) * n by { assert a - at == q * n + k * n + n; }
        SmallMultiple(n, a - at, q + k + 1);
      }
    }
  }

  lemma SameModulo(n: nat, x: int, r: int)
    requires n > 0 && r == x % n
    ensures exists q :: x == r + q * n
  {
    assert x == r + (x / n) * n;
  }

  lemma SmallMultiple(n: int, d: int, m: int)
    requires n > 0 && -n < d < n && d == m * n
    ensures d == 0
  {
  }

  // ---------------------------------------------------------------- the one-module series

  /** Slots of `sample` in the two-coordinate series: one per arm, rotated by the sample. */
  function SampleArms(arms: seq<string>, sample: nat): seq<string>
    requires arms != [] && sample >= 1
  {
    Rotated(arms, (sample - 1) % |arms|)
  }

  function Repeat(row: seq<string>, sample: int): (slots: seq<Slot>)
    ensures |slots| == |row|
    ensures forall i :: 0 <= i < |row| ==> slots[i] == Slot(row[i], sample)
  {
    if row == [] then [] else Repeat(row[..|row| - 1], sample) + [Slot(row[|row| - 1], sample)]
  }

  function FrozenOrder(arms: seq<string>, samples: nat): seq<Slot>
    requires arms != [] || samples == 0
  {
    if samples == 0 then []
    else FrozenOrder(arms, samples - 1) + Repeat(SampleArms(arms, samples), samples)
  }

  /** Every attempt of a series, allocated before any of them runs. */
  method Slots(arms: seq<string>, samples: nat) returns (out: seq<Slot>)
    requires arms != [] || samples == 0
    ensures out == FrozenOrder(arms, samples)
  {
    hide SampleArms, Repeat;
    out := [];
    for sample := 1 to samples + 1
      invariant out == FrozenOrder(arms, sample - 1)
    {
      var row := SampleArms(arms, sample);
      ghost var before := out;
      for i := 0 to |row|
        invariant out == before + Repeat(row, sample)[..i]
      {
        out := out + [Slot(row[i], sample)];
      }
      assert Repeat(row, sample)[..|row|] == Repeat(row, sample);
    }
  }

  lemma RotationIndex(n: nat, x: nat, p: nat)
    requires p < n
    ensures (if x % n + p < n then x % n + p else x % n + p - n) == (x + p) % n
  {
    var at := if x % n + p < n then x % n + p else x % n + p - n;
    SameModulo(n, x, x % n);
    SameModulo(n, x + p, (x + p) % n);
    var q :| x == x % n + q * n;
    var k :| x + p == (x + p) % n + k * n;
    if x % n + p < n {
      assert (x + p) % n - at == (q - k) * n by { assert (x + p) % n - at == q * n - k * n; }
      SmallMultiple(n, (x + p) % n - at, q - k);
    } else {
      assert (x + p) % n - at == (q - k + 1) * n by { assert (x + p) % n - at == q * n - k * n + n; }
      SmallMultiple(n, (x + p) % n - at, q - k + 1);
    }
  }

  /** Sample after sample, and in each of them the arms in turn from one further on each time. */
  lemma {:induction false} FrozenOrderAt(arms: seq<string>, samples: nat, sample: nat, p: nat)
    requires 1 <= sample <= samples && p < |arms|
    ensures |FrozenOrder(arms, samples)| == samples * |arms|
    ensures 0 <= (sample - 1) * |arms| + p < samples * |arms|
    ensures FrozenOrder(arms, samples)[(sample - 1) * |arms| + p] == Slot(arms[(sample - 1 + p) % |arms|], sample)
  {
    hide Repeat, SampleArms;
    var n := |arms|;
    FrozenOrderSize(arms, samples);
    FrozenOrderSize(arms, samples - 1);
    RowFits(n, sample, samples, p);
    if sample < samples {
      FrozenOrderAt(arms, samples - 1, sample, p);
    } else {
      SampleArmAt(arms, sample, p);
      assert FrozenOrder(arms, samples)[(sample - 1) * n + p] == Repeat(SampleArms(arms, sample), sample)[p];
    }
  }

  lemma SampleArmAt(arms: seq<string>, sample: nat, p: nat)
    requires sample >= 1 && p < |arms|
    ensures |SampleArms(arms, sample)| == |arms|
    ensures SampleArms(arms, sample)[p] == arms[(sample - 1 + p) % |arms|]
  {
    RotatedAt(arms, (sample - 1) % |arms|, p);
    RotationIndex(|arms|, sample - 1, p);
  }

  lemma {:induction false} FrozenOrderSize(arms: seq<string>, samples: nat)
    requires arms != []
    ensures |FrozenOrder(arms, samples)| == samples * |arms|
  {
    hide Repeat, Rotated;
    if samples > 0 {
      FrozenOrderSize(arms, samples - 1);
      OneRowMore(samples, |arms|);
    }
  }

  lemma OneRowMore(rows: nat, n: nat)
    requires rows > 0
    ensures (rows - 1) * n + n == rows * n
  {
  }

  lemma RowFits(n: nat, row: nat, rows: nat, p: nat)
    requires 1 <= row <= rows && p < n
    ensures 0 <= (row - 1) * n + p < row * n <= rows * n
  {
    OneRowMore(row, n);
    assert rows * n == row * n + (rows - row) * n;
    assert (rows - row) * n >= 0 && (row - 1) * n >= 0;
  }

  // ---------------------------------------------------------------- how often a slot is listed

  /** How many times `x` stands in `s`. */
  ghost function Times<T>(s: seq<T>, x: T): nat {
    if s == [] then 0 else Times(s[..|s| - 1], x) + if s[|s| - 1] == x then 1 else 0
  }

  lemma {:induction false} TimesConcat<T>(a: seq<T>, b: seq<T>, x: T)
    ensures Times(a + b, x) == Times(a, x) + Times(b, x)
  {
    if b == [] {
      assert a + b == a;
    } else {
      assert (a + b)[..|a + b| - 1] == a + b[..|b| - 1];
      TimesConcat(a, b[..|b| - 1], x);
    }
  }

  lemma TimesOne<T>(y: T, x: T)
    ensures Times([y], x) == if y == x then 1 else 0
  {
    assert Times([y][..0], x) == 0;
  }

  lemma {:induction false} TimesPositive<T>(s: seq<T>, x: T)
    ensures Times(s, x) > 0 <==> x in s
  {
    if s != [] {
      assert s == s[..|s| - 1] + [s[|s| - 1]];
      TimesPositive(s[..|s| - 1], x);
    }
  }

  lemma {:induction false} DifferentTimes<T>(s: seq<T>, x: T)
    requires Distinct(s)
    ensures Times(s, x) == if x in s then 1 else 0
  {
    if s != [] {
      assert s == s[..|s| - 1] + [s[|s| - 1]];
      DifferentTimes(s[..|s| - 1], x);
    }
  }

  lemma {:induction false} OnceIsDifferent<T>(s: seq<T>)
    requires forall x :: Times(s, x) <= 1
    ensures Distinct(s)
  {
    if s != [] {
      var init := s[..|s| - 1];
      var last := s[|s| - 1];
      forall x ensures Times(init, x) <= 1 {
        assert Times(s, x) <= 1;
      }
      OnceIsDifferent(init);
      assert Times(s, last) == Times(init, last) + 1;
      TimesPositive(init, last);
    }
  }

  lemma RotatedTimes<T>(arms: seq<T>, offset: nat, x: T)
    requires offset <= |arms|
    ensures Times(Rotated(arms, offset), x) == Times(arms, x)
  {
    hide Times;
    assert arms == arms[..offset] + arms[offset..];
    TimesConcat(arms[..offset], arms[offset..], x);
    TimesConcat(arms[offset..], arms[..offset], x);
  }

  lemma {:induction false} RepeatTimes(row: seq<string>, sample: int, x: Slot)
    ensures Times(Repeat(row, sample), x) == if x.repeat == sample then Times(row, x.item) else 0
  {
    if row != [] {
      RepeatTimes(row[..|row| - 1], sample, x);
      var slots := Repeat(row, sample);
      assert slots[..|slots| - 1] == Repeat(row[..|row| - 1], sample);
    }
  }

  lemma SampleArmsTimes(arms: seq<string>, sample: nat, arm: string)
    requires arms != [] && Distinct(arms) && sample >= 1
    ensures Times(SampleArms(arms, sample), arm) == if arm in arms then 1 else 0
  {
    hide Times, Rotated, Distinct;
    RotatedTimes(arms, (sample - 1) % |arms|, arm);
    DifferentTimes(arms, arm);
  }

  /** The frozen order lists each arm and sample exactly once, and nothing else. */
  lemma {:induction false} FrozenOrderOnce(arms: seq<string>, samples: nat, x: Slot)
    requires (arms != [] || samples == 0) && Distinct(arms)
    ensures Times(FrozenOrder(arms, samples), x) == if x.item in arms && 1 <= x.repeat <= samples then 1 else 0
  {
    hide Times, SampleArms, Repeat, Distinct;
    if samples == 0 {
      TimesPositive(FrozenOrder(arms, 0), x);
    } else {
      FrozenOrderOnce(arms, samples - 1, x);
      SampleArmsTimes(arms, samples, x.item);
      RepeatTimes(SampleArms(arms, samples), samples, x);
      TimesConcat(FrozenOrder(arms, samples - 1), Repeat(SampleArms(arms, samples), samples), x);
    }
  }

  /** No two slots of the frozen order are the same, which is the one thing the series relies on:
      a series over this order is well formed whatever its stack, ceiling and retry limit. */
  lemma FrozenOrderServesTheSeries(arms: seq<string>, samples: nat, rest: SeriesMachine.Config)
    requires (arms != [] || samples == 0) && Distinct(arms) && rest.stack.executor != ""
    ensures SeriesMachine.WellFormed(rest.(slots := FrozenOrder(arms, samples)))
  {
    hide Times, FrozenOrder;
    forall x: Slot ensures Times(FrozenOrder(arms, samples), x) <= 1 {
      FrozenOrderOnce(arms, samples, x);
    }
    OnceIsDifferent(FrozenOrder(arms, samples));
  }

  /** Over any |arms| consecutive samples each arm stands at each position exactly once: at turn
      `Turn` of the `t` in 0 .. |arms| - 1, and at no other. */
  lemma EachPositionOnce(arms: seq<string>, first: nat, p: nat, a: nat, t: nat)
    requires Distinct(arms) && first >= 1 && p < |arms| && a < |arms| && t < |arms|
    ensures SampleArms(arms, first + t)[p] == arms[a] <==> t == Turn(|arms|, first - 1, p, a)
  {
    hide Turn, Rotated;
    var n := |arms|;
    var offset := (first - 1 + t) % n;
    assert (first + t - 1) % n == offset;
    RotatedAt(arms, offset, p);
    TurnIsUnique(n, first - 1, p, a, t);
    DifferentAt(arms, a, if offset + p < n then offset + p else offset + p - n);
  }

  lemma DifferentAt<T>(s: seq<T>, i: nat, j: nat)
    requires Distinct(s) && i < |s| && j < |s|
    ensures s[i] == s[j] <==> i == j
  {
  }
}
