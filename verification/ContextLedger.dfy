/** The byte accounting of a transcript: what was delivered to model calls, and how much of it was new. */
module ContextLedger {
  import opened Context

  /** One attributed item. `sha256` identifies its text, so equal digests have equal sizes. */
  datatype Delivery = Delivery(ordinal: int, origin: Origin, bytes: nat, sha256: string)

  datatype Bucket = Bucket(unique: nat, delivered: nat, items: nat)

  ghost predicate DigestsFixSizes(items: seq<Delivery>) {
    forall i, j :: 0 <= i < |items| && 0 <= j < |items| && items[i].sha256 == items[j].sha256 ==>
      items[i].bytes == items[j].bytes
  }

  /** Model calls that began after an item was recorded. */
  function CallsAfter(calls: seq<int>, ordinal: int): nat {
    if calls == [] then 0
    else CallsAfter(calls[..|calls| - 1], ordinal) + (if calls[|calls| - 1] > ordinal then 1 else 0)
  }

  function DeliveredBytes(items: seq<Delivery>, calls: seq<int>, o: Origin): nat {
    if items == [] then 0
    else
      var last := items[|items| - 1];
      DeliveredBytes(items[..|items| - 1], calls, o)
      + (if last.origin == o then last.bytes * CallsAfter(calls, last.ordinal) else 0)
  }

  function ItemsOf(items: seq<Delivery>, o: Origin): nat {
    if items == [] then 0
    else ItemsOf(items[..|items| - 1], o) + (if items[|items| - 1].origin == o then 1 else 0)
  }

  predicate Seen(items: seq<Delivery>, o: Origin, sha256: string) {
    exists i :: 0 <= i < |items| && items[i].origin == o && items[i].sha256 == sha256
  }

  /** Each distinct text of an origin counted where it first occurs. */
  function UniqueBytes(items: seq<Delivery>, o: Origin): nat {
    if items == [] then 0
    else
      var init := items[..|items| - 1];
      var last := items[|items| - 1];
      UniqueBytes(init, o) + (if last.origin == o && !Seen(init, o, last.sha256) then last.bytes else 0)
  }

  function BucketOf(items: seq<Delivery>, calls: seq<int>, o: Origin): Bucket {
    Bucket(UniqueBytes(items, o), DeliveredBytes(items, calls, o), ItemsOf(items, o))
  }

  /** One pass, a bucket per origin and one set of texts already counted. */
  method Account(items: seq<Delivery>, calls: seq<int>) returns (byClass: map<Origin, Bucket>)
    ensures forall o :: o in BY_NAME ==> o in byClass && byClass[o] == BucketOf(items, calls, o)
  {
    hide CallsAfter, DeliveredBytes, UniqueBytes, ItemsOf, Seen;
    byClass := map o | o in BY_NAME :: Bucket(0, 0, 0);
    var seen: set<(Origin, string)> := {};
    NothingYet(calls);
    for i := 0 to |items|
      invariant forall o :: o in BY_NAME ==> o in byClass && byClass[o] == BucketOf(items[..i], calls, o)
      invariant forall o, s :: (o, s) in seen <==> Seen(items[..i], o, s)
    {
      var item := items[i];
      EveryOrigin(item.origin);
      forall o { OneMore(items, calls, i, o); }
      forall o, s { SeenAppend(items, i, o, s); }
      var b := byClass[item.origin];
      var new_ := (item.origin, item.sha256) !in seen;
      var times := CountCalls(calls, item.ordinal);
      b := Bucket(b.unique + (if new_ then item.bytes else 0), b.delivered + item.bytes * times, b.items + 1);
      byClass := byClass[item.origin := b];
      seen := seen + {(item.origin, item.sha256)};
    }
    assert items[..|items|] == items;
  }

  method CountCalls(calls: seq<int>, ordinal: int) returns (n: nat)
    ensures n == CallsAfter(calls, ordinal)
  {
    n := 0;
    for i := 0 to |calls|
      invariant n == CallsAfter(calls[..i], ordinal)
    {
      assert calls[..i + 1][..i] == calls[..i];
      if calls[i] > ordinal { n := n + 1; }
    }
    assert calls[..|calls|] == calls;
  }

  lemma EveryOrigin(o: Origin)
    ensures o in BY_NAME
  {
  }

  lemma NothingYet(calls: seq<int>)
    ensures forall o :: UniqueBytes([], o) == 0 && DeliveredBytes([], calls, o) == 0 && ItemsOf([], o) == 0
    ensures forall o, s :: !Seen([], o, s)
  {
  }

  lemma OneMore(items: seq<Delivery>, calls: seq<int>, i: nat, o: Origin)
    requires i < |items|
    ensures var item := items[i];
            && DeliveredBytes(items[..i + 1], calls, o) ==
                 DeliveredBytes(items[..i], calls, o)
                 + (if item.origin == o then item.bytes * CallsAfter(calls, item.ordinal) else 0)
            && ItemsOf(items[..i + 1], o) == ItemsOf(items[..i], o) + (if item.origin == o then 1 else 0)
            && UniqueBytes(items[..i + 1], o) ==
                 UniqueBytes(items[..i], o)
                 + (if item.origin == o && !Seen(items[..i], o, item.sha256) then item.bytes else 0)
  {
    hide CallsAfter, Seen;
    assert items[..i + 1][..i] == items[..i];
  }

  lemma SeenAppend(items: seq<Delivery>, i: nat, o: Origin, s: string)
    requires i < |items|
    ensures Seen(items[..i + 1], o, s) <==> Seen(items[..i], o, s) || (items[i].origin == o && items[i].sha256 == s)
  {
  }

  // ---------------------------------------------------------------- counting it the other way

  /** Delivered bytes of the first `n` origins. */
  function AllDelivered(items: seq<Delivery>, calls: seq<int>, n: nat): nat
    requires n <= |BY_NAME|
  {
    if n == 0 then 0 else AllDelivered(items, calls, n - 1) + DeliveredBytes(items, calls, BY_NAME[n - 1])
  }

  /** What was in the history when a call began. */
  function BytesBefore(items: seq<Delivery>, call: int): nat {
    if items == [] then 0
    else
      var last := items[|items| - 1];
      BytesBefore(items[..|items| - 1], call) + (if last.ordinal < call then last.bytes else 0)
  }

  function BytesOverCalls(items: seq<Delivery>, calls: seq<int>): nat {
    if calls == [] then 0 else BytesOverCalls(items, calls[..|calls| - 1]) + BytesBefore(items, calls[|calls| - 1])
  }

  lemma {:induction false} OneItemOverCalls(init: seq<Delivery>, item: Delivery, calls: seq<int>)
    ensures BytesOverCalls(init + [item], calls) ==
            BytesOverCalls(init, calls) + item.bytes * CallsAfter(calls, item.ordinal)
  {
    if calls != [] {
      var before := calls[..|calls| - 1];
      OneItemOverCalls(init, item, before);
      assert (init + [item])[..|init|] == init;
      var n := CallsAfter(before, item.ordinal);
      assert item.bytes * (n + 1) == item.bytes * n + item.bytes;
    }
  }

  lemma {:induction false} OneItemOverOrigins(init: seq<Delivery>, item: Delivery, calls: seq<int>, n: nat)
    requires n <= |BY_NAME|
    ensures AllDelivered(init + [item], calls, n) ==
            AllDelivered(init, calls, n)
            + (if item.origin in BY_NAME[..n] then item.bytes * CallsAfter(calls, item.ordinal) else 0)
  {
    hide CallsAfter, DeliveredBytes;
    if n > 0 {
      OneItemOverOrigins(init, item, calls, n - 1);
      OneItemOfOrigin(init, item, calls, BY_NAME[n - 1]);
      FirstNames(n, item.origin);
    }
  }

  lemma OneItemOfOrigin(init: seq<Delivery>, item: Delivery, calls: seq<int>, o: Origin)
    ensures DeliveredBytes(init + [item], calls, o) ==
            DeliveredBytes(init, calls, o)
            + (if item.origin == o then item.bytes * CallsAfter(calls, item.ordinal) else 0)
  {
    assert (init + [item])[..|init|] == init;
  }

  /** Among the first `n` names an origin is the last of them or an earlier one, never both. */
  lemma FirstNames(n: nat, o: Origin)
    requires 0 < n <= |BY_NAME|
    ensures o in BY_NAME[..n] <==> o in BY_NAME[..n - 1] || o == BY_NAME[n - 1]
    ensures o == BY_NAME[n - 1] ==> o !in BY_NAME[..n - 1]
  {
    assert BY_NAME[..n] == BY_NAME[..n - 1] + [BY_NAME[n - 1]];
    NamesAreDistinct(n - 1);
  }

  lemma NamesAreDistinct(n: nat)
    requires n < |BY_NAME|
    ensures BY_NAME[n] !in BY_NAME[..n]
  {
  }

  lemma {:induction false} NoBytesWithoutItems(calls: seq<int>, n: nat)
    requires n <= |BY_NAME|
    ensures BytesOverCalls([], calls) == 0
    ensures AllDelivered([], calls, n) == 0
    decreases |calls|, n
  {
    if calls != [] { NoBytesWithoutItems(calls[..|calls| - 1], n); }
    if n > 0 { NoBytesWithoutItems(calls, n - 1); }
  }

  /** Every delivered byte is counted once per call and once per class: over all classes, delivered
      bytes are what each model call found recorded before it, added up over the calls. */
  lemma {:induction false} DeliveryConserved(items: seq<Delivery>, calls: seq<int>)
    ensures AllDelivered(items, calls, |BY_NAME|) == BytesOverCalls(items, calls)
  {
    if items == [] {
      NoBytesWithoutItems(calls, |BY_NAME|);
    } else {
      var init := items[..|items| - 1];
      var last := items[|items| - 1];
      assert items == init + [last];
      DeliveryConserved(init, calls);
      OneItemOverCalls(init, last, calls);
      OneItemOverOrigins(init, last, calls, |BY_NAME|);
      EveryOrigin(last.origin);
      assert BY_NAME[..|BY_NAME|] == BY_NAME;
    }
  }

  // ---------------------------------------------------------------- uniqueness does not see order

  /** The distinct texts of an origin, with their sizes. */
  ghost function Texts(items: seq<Delivery>, o: Origin): set<(string, nat)> {
    set i | 0 <= i < |items| && items[i].origin == o :: (items[i].sha256, items[i].bytes)
  }

  ghost function Sum(texts: set<(string, nat)>): nat {
    if texts == {} then 0
    else
      var t :| t in texts;
      t.1 + Sum(texts - {t})
  }

  lemma {:induction false} SumAny(texts: set<(string, nat)>, t: (string, nat))
    requires t in texts
    ensures Sum(texts) == t.1 + Sum(texts - {t})
  {
    var u :| u in texts && Sum(texts) == u.1 + Sum(texts - {u});
    if u != t {
      SumAny(texts - {u}, t);
      SumAny(texts - {t}, u);
      assert texts - {u} - {t} == texts - {t} - {u};
    }
  }

  lemma {:induction false} UniqueIsSum(items: seq<Delivery>, o: Origin)
    requires DigestsFixSizes(items)
    ensures UniqueBytes(items, o) == Sum(Texts(items, o))
  {
    if items != [] {
      hide Sum, Texts;
      var init := items[..|items| - 1];
      var last := items[|items| - 1];
      assert items == init + [last];
      assert DigestsFixSizes(init) by { assert forall i :: 0 <= i < |init| ==> init[i] == items[i]; }
      UniqueIsSum(init, o);
      TextsAppend(init, last, o);
      if last.origin == o {
        OneMoreText(init, last, o);
      } else {
        assert Texts(init, o) + {} == Texts(init, o);
      }
    } else {
      assert Texts(items, o) == {};
    }
  }

  lemma OneMoreText(init: seq<Delivery>, last: Delivery, o: Origin)
    requires DigestsFixSizes(init + [last]) && last.origin == o
    ensures Sum(Texts(init, o) + {(last.sha256, last.bytes)}) ==
            Sum(Texts(init, o)) + (if Seen(init, o, last.sha256) then 0 else last.bytes)
  {
    hide Sum;
    var t := (last.sha256, last.bytes);
    var all := init + [last];
    if Seen(init, o, last.sha256) {
      var i :| 0 <= i < |init| && init[i].origin == o && init[i].sha256 == last.sha256;
      assert all[i] == init[i] && all[|init|] == last && all[i].bytes == all[|init|].bytes;
      assert t in Texts(init, o);
      assert Texts(init, o) + {t} == Texts(init, o);
    } else {
      assert t !in Texts(init, o);
      SumAny(Texts(init, o) + {t}, t);
      assert Texts(init, o) + {t} - {t} == Texts(init, o);
    }
  }

  lemma TextsAppend(init: seq<Delivery>, last: Delivery, o: Origin)
    ensures Texts(init + [last], o) == Texts(init, o) + (if last.origin == o then {(last.sha256, last.bytes)} else {})
  {
    var all := init + [last];
    forall t | t in Texts(init, o) ensures t in Texts(all, o) {
      var i :| 0 <= i < |init| && init[i].origin == o && t == (init[i].sha256, init[i].bytes);
      assert all[i] == init[i];
    }
    if last.origin == o { assert all[|init|] == last; }
  }

  /** The unique bytes of a class depend on which texts it contains and on nothing else: not on their
      order, and not on how often any of them is replayed. */
  lemma UniqueIgnoresReplay(items: seq<Delivery>, others: seq<Delivery>, o: Origin)
    requires DigestsFixSizes(items) && DigestsFixSizes(others)
    requires forall t :: t in Texts(items, o) <==> t in Texts(others, o)
    ensures UniqueBytes(items, o) == UniqueBytes(others, o)
  {
    UniqueIsSum(items, o);
    UniqueIsSum(others, o);
    assert Texts(items, o) == Texts(others, o);
  }
}
