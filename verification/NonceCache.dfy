/** The server's nonce replay cache (nonceReplayCache in internal/app/server.go). */
module NonceCache {
  import opened Bytes

  datatype Key = Key(session: Bytes, channel: u32, nonce: Bytes)

  /** A remembered triple and when it was stored. */
  datatype Entry = Entry(key: Key, time: int)

  /** Not yet expired: t.Before(now - ttl) is false, and a ttl that is not positive never expires anything. */
  predicate Live(time: int, now: int, ttl: int) {
    ttl > 0 ==> time >= now - ttl
  }

  // ---- the contents, as a list in order of arrival ----------------------------------------------

  function Purged(items: seq<Entry>, now: int, ttl: int): seq<Entry> {
    if items == [] then []
    else (if Live(items[0].time, now, ttl) then [items[0]] else []) + Purged(items[1..], now, ttl)
  }

  predicate Holds(items: seq<Entry>, key: Key) {
    exists i :: 0 <= i < |items| && items[i].key == key
  }

  /** What one call leaves. */
  function After(items: seq<Entry>, max: nat, key: Key, now: int, ttl: int): seq<Entry> {
    var live := Purged(items, now, ttl);
    if Holds(live, key) then live
    else
      var longer := live + [Entry(key, now)];
      if |longer| > max then longer[1..] else longer
  }

  /** The list has no duplicates and is the map's keys. */
  ghost predicate Matching(order: seq<Key>, entries: map<Key, int>) {
    && (forall k :: k in order <==> k in entries)
    && (forall i, j :: 0 <= i < j < |order| ==> order[i] != order[j])
  }

  class Cache {
    const max: nat
    var entries: map<Key, int>
    var order: seq<Key>

    /** The order list matches the map. */
    ghost predicate Matched()
      reads this
    {
      Matching(order, entries)
    }

    /** ... and it keeps within its bound. */
    ghost predicate Valid()
      reads this
    {
      Matched() && 0 < max && |order| <= max
    }

    ghost function Items(): (items: seq<Entry>)
      requires Matched()
      reads this
      ensures |items| == |order|
      ensures forall i :: 0 <= i < |order| ==> items[i] == Entry(order[i], entries[order[i]])
    {
      ItemsOf(order, entries)
    }

    constructor (max: int)
      ensures Valid() && Items() == [] && (this.max == if max <= 0 then 65536 else max)
    {
      this.max := if max <= 0 then 65536 else max;
      entries, order := map[], [];
    }

    /**
     * Lines 55-68: drop what has expired. The keys that stay are written over the front of the list that is
     * being read.
     */
    method Purge(now: int, ttl: int)
      requires Valid() && ttl > 0
      modifies this
      ensures Valid() && Items() == Purged(old(Items()), now, ttl)
    {
      ghost var all, times := order, entries;
      var w := 0;
      PurgingStart(all, times, now, ttl);
      hide Purging, Purged, ItemsOf, Matching;
      for i := 0 to |order|
        invariant |order| == |all| && Purging(all, times, order, entries, i, w, now, ttl)
      {
        PurgingStep(all, times, order, entries, i, w, now, ttl);
        var key := order[i];
        if entries[key] < now - ttl {
          entries := entries - {key};
        } else {
          order := order[w := key];
          w := w + 1;
        }
      }
      PurgingDone(all, times, order, entries, w, now, ttl);
      order := order[..w];
    }

    /** seenOrStore */
    method SeenOrStore(key: Key, now: int, ttl: int) returns (seen: bool)
      requires Valid()
      modifies this
      ensures Valid()
      ensures seen <==> Holds(Purged(old(Items()), now, ttl), key)
      ensures Items() == After(old(Items()), max, key, now, ttl)
    {
      hide Purged, ItemsOf;
      if ttl > 0 {
        Purge(now, ttl);
      } else {
        PurgedNothing(Items(), now, ttl);
      }
      ghost var live := Items();
      if key in entries {
        assert key in order;
        return true;
      }
      Append(key, now);
      ghost var longer := Items();
      while |order| > max
        invariant |order| == |longer| || max <= |order| <= |longer|
        invariant Matched() && Items() == longer[|longer| - |order|..]
      {
        DropOldest();
      }
      return false;
    }

    method Append(key: Key, now: int)
      requires Matched() && key !in entries
      modifies this
      ensures Matched() && Items() == old(Items()) + [Entry(key, now)]
    {
      ghost var before := Items();
      entries := entries[key := now];
      order := order + [key];
      assert forall i :: 0 <= i < |before| ==> Items()[i] == before[i];
    }

    method DropOldest()
      requires Matched() && order != []
      modifies this
      ensures Matched() && Items() == old(Items())[1..]
    {
      ghost var before := Items();
      entries := entries - {order[0]};
      order := order[1..];
      assert forall i :: 0 <= i < |order| ==> Items()[i] == before[i + 1];
    }
  }

  // ---- helpers of Purge -------------------------------------------------------------------------

  ghost function ItemsOf(order: seq<Key>, entries: map<Key, int>): seq<Entry>
    requires forall k <- order :: k in entries
  {
    seq(|order|, i requires 0 <= i < |order| => Entry(order[i], entries[order[i]]))
  }

  /** The keys that stay in the list. */
  ghost function Kept(order: seq<Key>, times: map<Key, int>, now: int, ttl: int): seq<Key>
    requires forall k <- order :: k in times
  {
    if order == [] then []
    else (if Live(times[order[0]], now, ttl) then [order[0]] else []) + Kept(order[1..], times, now, ttl)
  }

  /** The map once the expired ones among `done` are deleted. */
  ghost function Without(times: map<Key, int>, done: seq<Key>, now: int, ttl: int): map<Key, int> {
    map k | k in times && (k in done ==> Live(times[k], now, ttl)) :: times[k]
  }

  lemma WithoutSnoc(times: map<Key, int>, done: seq<Key>, key: Key, now: int, ttl: int)
    requires key in times && key !in done
    ensures key in Without(times, done, now, ttl) && Without(times, done, now, ttl)[key] == times[key]
    ensures Without(times, done + [key], now, ttl) ==
            if Live(times[key], now, ttl) then Without(times, done, now, ttl)
              else Without(times, done, now, ttl) - {key}
  {
  }

  lemma {:induction false} PurgedNothing(items: seq<Entry>, now: int, ttl: int)
    requires ttl <= 0
    ensures Purged(items, now, ttl) == items
  {
    if items != [] {
      PurgedNothing(items[1..], now, ttl);
    }
  }

  /** What the loop of Purge keeps: `i` keys are read, and `w` of them stay. */
  ghost predicate Purging(
    all: seq<Key>, times: map<Key, int>, order: seq<Key>, entries: map<Key, int>, i: nat, w: nat, now: int, ttl: int)
  {
    && (forall k <- all :: k in times)
    && w <= i <= |all| == |order| && order[i..] == all[i..]
    && order[..w] + Kept(all[i..], times, now, ttl) == Kept(all, times, now, ttl)
    && entries == Without(times, all[..i], now, ttl)
  }

  lemma PurgingStart(all: seq<Key>, times: map<Key, int>, now: int, ttl: int)
    requires Matching(all, times)
    ensures Purging(all, times, all, times, 0, 0, now, ttl)
  {
    hide Kept;
    assert all[0..] == all && all[..0] == [];
    assert Without(times, [], now, ttl) == times;
  }

  lemma PurgingStep(
    all: seq<Key>, times: map<Key, int>, order: seq<Key>, entries: map<Key, int>, i: nat, w: nat, now: int, ttl: int)
    requires Purging(all, times, order, entries, i, w, now, ttl) && i < |all| && ttl > 0 && Matching(all, times)
    ensures i < |order| && order[i] in entries && w <= i
    ensures if entries[order[i]] < now - ttl then Purging(all, times, order, entries - {order[i]}, i + 1, w, now, ttl)
            else Purging(all, times, order[w := order[i]], entries, i + 1, w + 1, now, ttl)
  {
    hide Kept, Without;
    var key := all[i];
    assert order[i] == order[i..][0] == key;
    assert key !in all[..i];
    WithoutSnoc(times, all[..i], key, now, ttl);
    assert all[..i + 1] == all[..i] + [key];
    KeptStep(all, i, order[..w], times, now, ttl);
    assert order[i + 1..] == order[i..][1..] == all[i..][1..] == all[i + 1..];
    var order' := order[w := key];
    assert order'[i + 1..] == order[i + 1..] && order'[..w + 1] == order[..w] + [key];
  }

  lemma PurgingDone(
    all: seq<Key>, times: map<Key, int>, order: seq<Key>, entries: map<Key, int>, w: nat, now: int, ttl: int)
    requires Purging(all, times, order, entries, |all|, w, now, ttl) && Matching(all, times)
    ensures w <= |order| && w <= |all|
    ensures Matching(order[..w], entries) && ItemsOf(order[..w], entries) == Purged(ItemsOf(all, times), now, ttl)
  {
    hide Kept, Without, Purged, ItemsOf;
    PurgeResult(all, times, now, ttl);
    assert all[..|all|] == all;
    assert order[..w] == Kept(all, times, now, ttl);
  }

  lemma KeptStep(all: seq<Key>, i: nat, filtered: seq<Key>, times: map<Key, int>, now: int, ttl: int)
    requires (forall k <- all :: k in times) && i < |all|
    requires filtered + Kept(all[i..], times, now, ttl) == Kept(all, times, now, ttl)
    ensures (if Live(times[all[i]], now, ttl) then filtered + [all[i]] else filtered) +
            Kept(all[i + 1..], times, now, ttl)
            == Kept(all, times, now, ttl)
  {
    assert all[i..][1..] == all[i + 1..];
  }

  lemma PurgeResult(order: seq<Key>, times: map<Key, int>, now: int, ttl: int)
    requires forall k :: k in order <==> k in times
    requires forall i, j :: 0 <= i < j < |order| ==> order[i] != order[j]
    ensures var kept, left := Kept(order, times, now, ttl), Without(times, order, now, ttl);
            && |kept| <= |order| && Kept(order[|order|..], times, now, ttl) == []
            && (forall k :: k in kept <==> k in left)
            && (forall i, j :: 0 <= i < j < |kept| ==> kept[i] != kept[j])
            && ItemsOf(kept, left) == Purged(ItemsOf(order, times), now, ttl)
  {
    KeptFacts(order, times, now, ttl);
    KeptItems(order, times, now, ttl);
    var kept, left := Kept(order, times, now, ttl), Without(times, order, now, ttl);
    assert ItemsOf(kept, left) == ItemsOf(kept, times);
  }

  lemma {:induction false} KeptFacts(order: seq<Key>, times: map<Key, int>, now: int, ttl: int)
    requires forall k <- order :: k in times
    requires forall i, j :: 0 <= i < j < |order| ==> order[i] != order[j]
    ensures var kept := Kept(order, times, now, ttl);
            && |kept| <= |order|
            && (forall k :: k in kept <==> k in order && Live(times[k], now, ttl))
            && (forall i, j :: 0 <= i < j < |kept| ==> kept[i] != kept[j])
  {
    if order != [] {
      KeptFacts(order[1..], times, now, ttl);
    }
  }

  lemma {:induction false} KeptItems(order: seq<Key>, times: map<Key, int>, now: int, ttl: int)
    requires (forall k <- order :: k in times) && forall k <- Kept(order, times, now, ttl) :: k in times
    ensures ItemsOf(Kept(order, times, now, ttl), times) == Purged(ItemsOf(order, times), now, ttl)
  {
    if order != [] {
      var kept := Kept(order[1..], times, now, ttl);
      assert Kept(order, times, now, ttl) == if Live(times[order[0]], now, ttl) then [order[0]] + kept else kept;
      KeptItems(order[1..], times, now, ttl);
      assert ItemsOf(order, times)[1..] == ItemsOf(order[1..], times);
    }
  }

  // ---- whole runs --------------------------------------------------------------------------------

  datatype Call = Call(key: Key, now: int)

  /** The contents after a run of calls with one ttl, from an empty cache. */
  ghost function Contents(max: nat, ttl: int, calls: seq<Call>): seq<Entry> {
    if calls == [] then []
    else
      var c := calls[|calls| - 1];
      After(Contents(max, ttl, calls[..|calls| - 1]), max, c.key, c.now, ttl)
  }

  /** What the next call reports. */
  ghost predicate Reports(max: nat, ttl: int, calls: seq<Call>, next: Call) {
    Holds(Purged(Contents(max, ttl, calls), next.now, ttl), next.key)
  }

  /** Every triple stored so far, in order: the calls that did not report "seen". */
  ghost function Stored(max: nat, ttl: int, calls: seq<Call>): seq<Entry> {
    if calls == [] then []
    else
      var before, c := calls[..|calls| - 1], calls[|calls| - 1];
      if Reports(max, ttl, before, c) then Stored(max, ttl, before)
        else Stored(max, ttl, before) + [Entry(c.key, c.now)]
  }

  ghost predicate Monotone(calls: seq<Call>) {
    forall i, j :: 0 <= i <= j < |calls| ==> calls[i].now <= calls[j].now
  }

  ghost predicate Sorted(es: seq<Entry>) {
    forall i, j :: 0 <= i <= j < |es| ==> es[i].time <= es[j].time
  }

  /** Still remembered at time `now`: not expired, and fewer than `max` triples stored since. */
  ghost predicate Remembered(stored: seq<Entry>, max: nat, ttl: int, now: int, i: nat) {
    i < |stored| && |stored| - i <= max && Live(stored[i].time, now, ttl)
  }

  /** The cache is the suffix of the stored triples that starts at `from`. */
  ghost predicate IsSuffix(items: seq<Entry>, stored: seq<Entry>, max: nat, ttl: int, now: int, from: nat) {
    && from <= |stored| && items == stored[from..]
    && forall i: nat :: from <= i < |stored| <==> Remembered(stored, max, ttl, now, i)
  }

  lemma {:induction false} PurgedAllLive(es: seq<Entry>, now: int, ttl: int)
    requires forall i :: 0 <= i < |es| ==> Live(es[i].time, now, ttl)
    ensures Purged(es, now, ttl) == es
  {
    if es != [] {
      PurgedAllLive(es[1..], now, ttl);
    }
  }

  /** With times in order, purging drops a prefix. */
  lemma {:induction false} PurgedSuffix(es: seq<Entry>, now: int, ttl: int) returns (k: nat)
    requires Sorted(es)
    ensures k <= |es| && Purged(es, now, ttl) == es[k..]
    ensures forall i :: 0 <= i < |es| ==> (k <= i <==> Live(es[i].time, now, ttl))
  {
    if es == [] {
      return 0;
    }
    if Live(es[0].time, now, ttl) {
      forall i | 0 <= i < |es|
        ensures Live(es[i].time, now, ttl)
      {
        assert es[0].time <= es[i].time;
      }
      PurgedAllLive(es, now, ttl);
      return 0;
    }
    var rest := es[1..];
    assert forall i :: 0 <= i < |rest| ==> rest[i] == es[i + 1];
    var k' := PurgedSuffix(rest, now, ttl);
    k := k' + 1;
    assert rest[k'..] == es[k..];
    forall i | 0 < i < |es|
      ensures k <= i <==> Live(es[i].time, now, ttl)
    {
      assert rest[i - 1] == es[i];
    }
  }

  /** Purging at a later time keeps exactly what is still remembered then. */
  lemma PurgeStep(items: seq<Entry>, stored: seq<Entry>, max: nat, ttl: int, now: int, from: nat, later: int)
    returns (next: nat)
    requires IsSuffix(items, stored, max, ttl, now, from) && Sorted(stored) && now <= later
    ensures IsSuffix(Purged(items, later, ttl), stored, max, ttl, later, next) && |Purged(items, later, ttl)| <= |items|
  {
    var k := PurgedSuffix(items, later, ttl);
    next := from + k;
    assert items[k..] == stored[next..];
    forall i: nat
      ensures next <= i < |stored| <==> Remembered(stored, max, ttl, later, i)
    {
      if from <= i < |stored| {
        assert items[i - from] == stored[i];
        assert Remembered(stored, max, ttl, now, i);
      } else if Remembered(stored, max, ttl, later, i) {
        assert Remembered(stored, max, ttl, now, i);
      }
    }
  }

  /** Storing one more triple. */
  lemma StoreStep(live: seq<Entry>, stored: seq<Entry>, max: nat, ttl: int, now: int, from: nat, e: Entry)
    returns (next: nat)
    requires 0 < max && |live| <= max && e.time == now
    requires IsSuffix(live, stored, max, ttl, now, from)
    ensures var longer := live + [e];
            && |if |longer| > max then longer[1..] else longer| <= max
            && IsSuffix(if |longer| > max then longer[1..] else longer, stored + [e], max, ttl, now, next)
  {
    var longer, log := live + [e], stored + [e];
    next := if |longer| > max then from + 1 else from;
    assert longer == log[from..];
    assert longer[1..] == log[from + 1..];
    forall i: nat
      ensures next <= i < |log| <==> Remembered(log, max, ttl, now, i)
    {
      if i < |stored| {
        assert log[i] == stored[i];
        assert from <= i <==> Remembered(stored, max, ttl, now, i);
      }
    }
  }

  lemma SortedEmpty()
    ensures Sorted([])
  {
  }

  lemma SortedSnoc(es: seq<Entry>, e: Entry)
    requires Sorted(es) && forall i :: 0 <= i < |es| ==> es[i].time <= e.time
    ensures Sorted(es + [e])
  {
  }

  lemma EmptySuffix(max: nat, ttl: int, now: int)
    ensures IsSuffix([], [], max, ttl, now, 0)
  {
  }

  /** Under a clock that does not run backwards, the cache is always a suffix of what was stored. */
  lemma {:induction false} History(max: nat, ttl: int, calls: seq<Call>, now: int) returns (from: nat)
    requires 0 < max && Monotone(calls)
    requires calls != [] ==> now == calls[|calls| - 1].now
    ensures Sorted(Stored(max, ttl, calls)) && |Contents(max, ttl, calls)| <= max
    ensures forall i :: 0 <= i < |Stored(max, ttl, calls)| ==> Stored(max, ttl, calls)[i].time <= now
    ensures IsSuffix(Contents(max, ttl, calls), Stored(max, ttl, calls), max, ttl, now, from)
  {
    hide Purged, IsSuffix, Remembered, Sorted;
    if calls == [] {
      from := 0;
      EmptySuffix(max, ttl, now);
      assert Sorted([]) by { SortedEmpty(); }
    } else {
      var before, c := calls[..|calls| - 1], calls[|calls| - 1];
      var earlier := if before == [] then now else before[|before| - 1].now;
      from := History(max, ttl, before, earlier);
      from := PurgeStep(Contents(max, ttl, before), Stored(max, ttl, before), max, ttl, earlier, from, now);
      var live := Purged(Contents(max, ttl, before), now, ttl);
      if !Reports(max, ttl, before, c) {
        from := StoreStep(live, Stored(max, ttl, before), max, ttl, now, from, Entry(c.key, now));
        SortedSnoc(Stored(max, ttl, before), Entry(c.key, now));
      }
    }
  }

  /**
   * A call reports "seen" exactly when its triple was stored by an earlier call, that has not expired,
   * and fewer than `max` new triples were stored since.
   */
  lemma ReportsIff(max: nat, ttl: int, calls: seq<Call>, next: Call)
    requires 0 < max && Monotone(calls + [next])
    ensures Reports(max, ttl, calls, next) <==>
            exists i: nat :: Remembered(Stored(max, ttl, calls), max, ttl, next.now, i) &&
              Stored(max, ttl, calls)[i].key == next.key
  {
    var all := calls + [next];
    assert forall i :: 0 <= i < |calls| ==> all[i] == calls[i];
    assert all[|calls|] == next;
    assert Monotone(calls);
    var stored, items := Stored(max, ttl, calls), Contents(max, ttl, calls);
    var now := if calls == [] then next.now else calls[|calls| - 1].now;
    var from := History(max, ttl, calls, now);
    from := PurgeStep(items, stored, max, ttl, now, from, next.now);
    var live := Purged(items, next.now, ttl);
    if Reports(max, ttl, calls, next) {
      var i :| 0 <= i < |live| && live[i].key == next.key;
      assert Remembered(stored, max, ttl, next.now, from + i) && stored[from + i].key == next.key;
    }
    if i: nat :| Remembered(stored, max, ttl, next.now, i) && stored[i].key == next.key {
      assert 0 <= i - from < |live| && live[i - from] == stored[i];
      assert Holds(live, next.key);
    }
  }

  // ---- whatever the clock does ---------------------------------------------------------------------

  /** "Seen" is only ever reported for a triple that an earlier call stored. */
  lemma SeenOnlyIfStored(max: nat, ttl: int, calls: seq<Call>, next: Call)
    requires Reports(max, ttl, calls, next)
    ensures exists i :: 0 <= i < |calls| && calls[i].key == next.key && !Reports(max, ttl, calls[..i], calls[i])
  {
    var items := Contents(max, ttl, calls);
    var live := Purged(items, next.now, ttl);
    var k :| 0 <= k < |live| && live[k].key == next.key;
    PurgedSubset(items, next.now, ttl, live[k]);
    var i := ContentsStored(max, ttl, calls, live[k]);
  }

  lemma {:induction false} PurgedSubset(items: seq<Entry>, now: int, ttl: int, e: Entry)
    requires e in Purged(items, now, ttl)
    ensures e in items && Live(e.time, now, ttl)
  {
    if !(e == items[0] && Live(e.time, now, ttl)) {
      PurgedSubset(items[1..], now, ttl, e);
    }
  }

  lemma {:induction false} ContentsStored(max: nat, ttl: int, calls: seq<Call>, e: Entry) returns (i: nat)
    requires e in Contents(max, ttl, calls)
    ensures i < |calls| && Entry(calls[i].key, calls[i].now) == e && !Reports(max, ttl, calls[..i], calls[i])
  {
    hide Purged, Holds;
    var n := |calls| - 1;
    var before, c := calls[..n], calls[n];
    var live := Purged(Contents(max, ttl, before), c.now, ttl);
    if !Reports(max, ttl, before, c) && e == Entry(c.key, c.now) {
      return n;
    }
    assert e in live;
    PurgedSubset(Contents(max, ttl, before), c.now, ttl, e);
    i := ContentsStored(max, ttl, before, e);
    assert before[..i] == calls[..i];
  }

  /** The entry is among the `d` newest. */
  ghost predicate AmongNewest(items: seq<Entry>, e: Entry, d: nat) {
    exists p :: 0 <= p < |items| && items[p] == e && |items| - p <= d
  }

  lemma {:induction false} PurgedPosition(items: seq<Entry>, now: int, ttl: int, p: nat) returns (k: nat)
    requires p < |items| && Live(items[p].time, now, ttl)
    ensures var live := Purged(items, now, ttl); k < |live| && live[k] == items[p] && |live| - k <= |items| - p
  {
    PurgedShorter(items[1..], now, ttl);
    if p == 0 {
      k := 0;
    } else {
      k := PurgedPosition(items[1..], now, ttl, p - 1);
      if Live(items[0].time, now, ttl) {
        k := k + 1;
      }
    }
  }

  lemma {:induction false} PurgedShorter(items: seq<Entry>, now: int, ttl: int)
    ensures |Purged(items, now, ttl)| <= |items|
  {
    if items != [] {
      PurgedShorter(items[1..], now, ttl);
    }
  }

  /** Only a call that stores something makes a live entry older, and by one place. */
  lemma AfterKeeps(items: seq<Entry>, max: nat, key: Key, now: int, ttl: int, e: Entry, d: nat)
    requires AmongNewest(items, e, d) && Live(e.time, now, ttl)
    requires Holds(Purged(items, now, ttl), key) || d < max
    ensures AmongNewest(After(items, max, key, now, ttl), e, if Holds(Purged(items, now, ttl), key) then d else d + 1)
  {
    hide Purged, Holds;
    var p :| 0 <= p < |items| && items[p] == e && |items| - p <= d;
    var k := PurgedPosition(items, now, ttl, p);
    var live, after := Purged(items, now, ttl), After(items, max, key, now, ttl);
    if Holds(live, key) || |live| + 1 <= max {
      assert after[k] == e;
    } else {
      assert after[k - 1] == e;
    }
  }

  lemma JustStored(items: seq<Entry>, max: nat, key: Key, now: int, ttl: int)
    requires 0 < max && !Holds(Purged(items, now, ttl), key)
    ensures AmongNewest(After(items, max, key, now, ttl), Entry(key, now), 1)
  {
    hide Purged, Holds;
    var after := After(items, max, key, now, ttl);
    assert after[|after| - 1] == Entry(key, now);
  }

  /** A triple that has just been stored is held at another time exactly when it has not expired by then. */
  lemma HeldIff(items: seq<Entry>, max: nat, key: Key, now: int, ttl: int, later: int)
    requires 0 < max && !Holds(Purged(items, now, ttl), key)
    ensures Holds(Purged(After(items, max, key, now, ttl), later, ttl), key) <==> Live(now, later, ttl)
  {
    hide Purged;
    var live, after := Purged(items, now, ttl), After(items, max, key, now, ttl);
    var held := Purged(after, later, ttl);
    assert after[|after| - 1] == Entry(key, now);
    if Live(now, later, ttl) {
      var k := PurgedPosition(after, later, ttl, |after| - 1);
    }
    if k :| 0 <= k < |held| && held[k].key == key {
      PurgedSubset(after, later, ttl, held[k]);
      assert held[k] == Entry(key, now);
    }
  }

  /** How many of the calls from the i-th on stored their triple. */
  ghost function StoredSince(max: nat, ttl: int, calls: seq<Call>, i: nat): nat
    requires i <= |calls|
    decreases |calls|
  {
    if i == |calls| then 0
    else
      var n := |calls| - 1;
      StoredSince(max, ttl, calls[..n], i) + if Reports(max, ttl, calls[..n], calls[n]) then 0 else 1
  }

  /** The triple stored by the i-th call has not expired at any later call. */
  ghost predicate LiveSince(ttl: int, calls: seq<Call>, i: nat) {
    forall m :: 0 <= i < m < |calls| ==> Live(calls[i].now, calls[m].now, ttl)
  }

  lemma {:induction false} StaysAmongNewest(max: nat, ttl: int, calls: seq<Call>, i: nat)
    requires i < |calls| && !Reports(max, ttl, calls[..i], calls[i]) && LiveSince(ttl, calls, i)
    requires StoredSince(max, ttl, calls, i) <= max
    ensures AmongNewest(Contents(max, ttl, calls), Entry(calls[i].key, calls[i].now), StoredSince(max, ttl, calls, i))
    decreases |calls|
  {
    hide Purged, Holds, AmongNewest, After;
    var n := |calls| - 1;
    var before, c := calls[..n], calls[n];
    if i == n {
      assert StoredSince(max, ttl, before, n) == 0;
      JustStored(Contents(max, ttl, before), max, c.key, c.now, ttl);
    } else {
      assert before[..i] == calls[..i];
      StaysAmongNewest(max, ttl, before, i);
      AfterKeeps(Contents(max, ttl, before), max, c.key, c.now, ttl, Entry(calls[i].key, calls[i].now),
        StoredSince(max, ttl, before, i));
    }
  }

  /**
   * ... and it is reported as long as it is live at every call and at most `max` triples, itself included,
   * were stored since.
   */
  lemma SeenWhileLive(max: nat, ttl: int, calls: seq<Call>, i: nat, next: Call)
    requires i < |calls| && !Reports(max, ttl, calls[..i], calls[i]) && LiveSince(ttl, calls + [next], i)
    requires StoredSince(max, ttl, calls, i) <= max && next.key == calls[i].key
    ensures Reports(max, ttl, calls, next)
  {
    var all := calls + [next];
    assert all[|calls|] == next && forall m :: 0 <= m < |calls| ==> all[m] == calls[m];
    StaysAmongNewest(max, ttl, calls, i);
    var items, e := Contents(max, ttl, calls), Entry(calls[i].key, calls[i].now);
    var p :| 0 <= p < |items| && items[p] == e;
    var k := PurgedPosition(items, next.now, ttl, p);
  }

  /** One more call. */
  lemma RunSnoc(max: nat, ttl: int, calls: seq<Call>, c: Call, i: nat)
    requires i <= |calls|
    ensures Contents(max, ttl, calls + [c]) == After(Contents(max, ttl, calls), max, c.key, c.now, ttl)
    ensures StoredSince(max, ttl, calls + [c], i) ==
            StoredSince(max, ttl, calls, i) + if Reports(max, ttl, calls, c) then 0 else 1
  {
    hide Reports, After;
    assert (calls + [c])[..|calls|] == calls;
  }

  /** The call that stored the s-th triple. */
  lemma {:induction false} StoredIndex(max: nat, ttl: int, calls: seq<Call>, s: nat) returns (i: nat)
    requires s < |Stored(max, ttl, calls)|
    ensures i < |calls| && !Reports(max, ttl, calls[..i], calls[i])
    ensures Entry(calls[i].key, calls[i].now) == Stored(max, ttl, calls)[s]
    ensures StoredSince(max, ttl, calls, i) == |Stored(max, ttl, calls)| - s
  {
    hide Reports;
    var n := |calls| - 1;
    var before := calls[..n];
    if s == |Stored(max, ttl, before)| {
      assert StoredSince(max, ttl, before, n) == 0;
      return n;
    }
    i := StoredIndex(max, ttl, before, s);
    assert before[..i] == calls[..i];
  }

  /**
   * The i-th call stored the key of `next`, which has not expired, and fewer than `max` triples were stored
   * after it.
   */
  ghost predicate RemembersCall(max: nat, ttl: int, calls: seq<Call>, next: Call, i: nat) {
    && i < |calls| && !Reports(max, ttl, calls[..i], calls[i]) && calls[i].key == next.key
    && Live(calls[i].now, next.now, ttl) && StoredSince(max, ttl, calls, i) <= max
  }

  /** ReportsIff in terms of the calls. */
  lemma ReportsByCall(max: nat, ttl: int, calls: seq<Call>, next: Call)
    requires 0 < max && Monotone(calls + [next])
    ensures Reports(max, ttl, calls, next) <==> exists i: nat :: RemembersCall(max, ttl, calls, next, i)
  {
    hide Reports, Stored, StoredSince;
    ReportsIff(max, ttl, calls, next);
    var all := calls + [next];
    assert all[|calls|] == next && forall m :: 0 <= m < |calls| ==> all[m] == calls[m];
    if Reports(max, ttl, calls, next) {
      var stored := Stored(max, ttl, calls);
      var s: nat :| Remembered(stored, max, ttl, next.now, s) && stored[s].key == next.key;
      var i := StoredIndex(max, ttl, calls, s);
      assert RemembersCall(max, ttl, calls, next, i);
    }
    if i: nat :| RemembersCall(max, ttl, calls, next, i) {
      assert forall m :: 0 <= m < |all| ==> all[m].now <= next.now;
      SeenWhileLive(max, ttl, calls, i, next);
    }
  }

  /** The cache, driven through any run, reports exactly that. */
  method Run(max: int, ttl: int, calls: seq<Call>) returns (seen: seq<bool>)
    ensures |seen| == |calls|
    ensures var bound := if max <= 0 then 65536 else max;
            forall i :: 0 <= i < |calls| ==> (seen[i] <==> Reports(bound, ttl, calls[..i], calls[i]))
  {
    hide After, Purged, Holds;
    var c := new Cache(max);
    seen := [];
    for i := 0 to |calls|
      invariant c.Valid() && c.max == (if max <= 0 then 65536 else max) && fresh(c)
      invariant |seen| == i && c.Items() == Contents(c.max, ttl, calls[..i])
      invariant forall j :: 0 <= j < i ==> (seen[j] <==> Reports(c.max, ttl, calls[..j], calls[j]))
    {
      var s := c.SeenOrStore(calls[i].key, calls[i].now, ttl);
      seen := seen + [s];
      assert calls[..i + 1][..i] == calls[..i];
    }
  }
}
