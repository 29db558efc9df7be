/** What src/common/base/LRUCache.hpp promises, over runs of put, get and purge: the entries in the
    order of their last use, each with the value put last. */
module LruOrder {
  import opened Common

  datatype Entry<K, V> = Entry(key: K, value: V)

  /** The entries but that of one key. */
  function Without<K(==), V>(entries: seq<Entry<K, V>>, key: K): (r: seq<Entry<K, V>>)
    ensures |r| <= |entries|
  {
    if entries == [] then []
    else (if entries[0].key == key then [] else [entries[0]]) + Without(entries[1..], key)
  }

  predicate Has<K(==), V>(entries: seq<Entry<K, V>>, key: K) {
    exists i :: 0 <= i < |entries| && entries[i].key == key
  }

  /** The entry of a key. */
  function Lookup<K(==), V>(entries: seq<Entry<K, V>>, key: K): (r: V)
    requires Has(entries, key)
  {
    if entries[0].key == key then entries[0].value else Lookup(entries[1..], key)
  }

  /** `purge`: the last entries go, as many as there are. */
  function Purge<K, V>(entries: seq<Entry<K, V>>, count: nat): seq<Entry<K, V>> {
    entries[..if count <= |entries| then |entries| - count else 0]
  }

  /** `put`: the entry goes to the front, and one entry is purged if the cache says so. */
  function Put<K(==), V>(entries: seq<Entry<K, V>>, key: K, value: V, shouldPurge: bool): seq<Entry<K, V>> {
    var all := [Entry(key, value)] + Without(entries, key);
    if shouldPurge then Purge(all, 1) else all
  }

  /** `get`: the entry goes to the front. */
  function Get<K(==), V>(entries: seq<Entry<K, V>>, key: K): seq<Entry<K, V>>
    requires Has(entries, key)
  {
    [Entry(key, Lookup(entries, key))] + Without(entries, key)
  }

  // ---------------------------------------------------------------- runs

  datatype Event<K, V> =
    | DidPut(key: K, value: V, shouldPurge: bool)
    | DidGet(key: K)
    | DidPurge(count: nat)

  function Step<K(==), V>(entries: seq<Entry<K, V>>, e: Event<K, V>): seq<Entry<K, V>>
    requires e.DidGet? ==> Has(entries, e.key)
  {
    match e
    case DidPut(key, value, shouldPurge) => Put(entries, key, value, shouldPurge)
    case DidGet(key) => Get(entries, key)
    case DidPurge(count) => Purge(entries, count)
  }

  /** The entries after a run; a get of a key that is not there is asserted away and not done. */
  function Run<K(==), V>(run: seq<Event<K, V>>): seq<Entry<K, V>> {
    if run == [] then []
    else
      var before := Run(run[..|run| - 1]);
      var e := run[|run| - 1];
      if Callable(before, e) then Step(before, e) else before
  }

  predicate Callable<K(==), V>(entries: seq<Entry<K, V>>, e: Event<K, V>) {
    e.DidGet? ==> Has(entries, e.key)
  }

  // ---------------------------------------------------------------- the order, told from the run alone

  /** Every get in the run was of a key that was there. */
  predicate Legal<K(==), V>(run: seq<Event<K, V>>) {
    run == [] || (Legal(run[..|run| - 1]) && Callable(Run(run[..|run| - 1]), run[|run| - 1]))
  }

  /** Each turn of a legal run is callable, and is the step to the next prefix. */
  lemma {:induction false} LegalTurn<K, V>(run: seq<Event<K, V>>, i: nat)
    requires Legal(run) && i < |run|
    ensures Callable(Run(run[..i]), run[i]) && Run(run[..i + 1]) == Step(Run(run[..i]), run[i])
  {
    if i + 1 == |run| {
      assert run[..i + 1] == run;
    } else {
      LegalTurn(run[..|run| - 1], i);
      assert run[..|run| - 1][..i] == run[..i] && run[..|run| - 1][..i + 1] == run[..i + 1];
    }
  }

  predicate Uses<K(==), V>(e: Event<K, V>, key: K) {
    !e.DidPurge? && e.key == key
  }

  /** When a key was last put or got, -1 if never. */
  function LastUse<K(==), V>(run: seq<Event<K, V>>, key: K): (r: int)
    ensures -1 <= r < |run|
  {
    if run == [] then -1
    else if Uses(run[|run| - 1], key) then |run| - 1
    else LastUse(run[..|run| - 1], key)
  }

  function LastPut<K(==), V>(run: seq<Event<K, V>>, key: K): Option<V> {
    if run == [] then None
    else if run[|run| - 1].DidPut? && run[|run| - 1].key == key then Some(run[|run| - 1].value)
    else LastPut(run[..|run| - 1], key)
  }

  predicate Latest<K(==), V(==)>(entries: seq<Entry<K, V>>, run: seq<Event<K, V>>) {
    forall i :: 0 <= i < |entries| ==> LastPut(run, entries[i].key) == Some(entries[i].value)
  }

  predicate Ordered<K(==), V>(entries: seq<Entry<K, V>>, run: seq<Event<K, V>>) {
    forall i, j :: 0 <= i < j < |entries| ==> LastUse(run, entries[i].key) > LastUse(run, entries[j].key)
  }

  // ---------------------------------------------------------------- taking entries out

  /** Where an entry that is left comes from. */
  lemma {:induction false} WithoutAt<K, V>(entries: seq<Entry<K, V>>, key: K, i: nat) returns (j: nat)
    requires i < |Without(entries, key)|
    ensures j < |entries| && entries[j] == Without(entries, key)[i] && entries[j].key != key
  {
    if entries[0].key == key {
      var k := WithoutAt(entries[1..], key, i);
      j := k + 1;
    } else if i == 0 {
      j := 0;
    } else {
      var k := WithoutAt(entries[1..], key, i - 1);
      j := k + 1;
    }
  }

  /** Where an entry of another key goes. */
  lemma {:induction false} WithoutHas<K, V>(entries: seq<Entry<K, V>>, key: K, j: nat) returns (i: nat)
    requires j < |entries| && entries[j].key != key
    ensures i < |Without(entries, key)| && Without(entries, key)[i] == entries[j]
  {
    if j == 0 {
      i := 0;
    } else {
      var k := WithoutHas(entries[1..], key, j - 1);
      i := if entries[0].key == key then k else k + 1;
    }
  }

  lemma {:induction false} WithoutKeepsOrder<K, V>(entries: seq<Entry<K, V>>, key: K, run: seq<Event<K, V>>)
    requires Ordered(entries, run)
    ensures Ordered(Without(entries, key), run)
  {
    if entries != [] {
      WithoutKeepsOrder(entries[1..], key, run);
      var rest := Without(entries[1..], key);
      forall j | 0 <= j < |rest| ensures LastUse(run, entries[0].key) > LastUse(run, rest[j].key) {
        var i := WithoutAt(entries[1..], key, j);
        assert entries[i + 1] == rest[j];
      }
    }
  }

  lemma {:induction false} LookupFinds<K, V>(entries: seq<Entry<K, V>>, key: K)
    requires Has(entries, key)
    ensures Entry(key, Lookup(entries, key)) in entries
  {
    if entries[0].key != key {
      assert Has(entries[1..], key) by {
        var i :| 0 <= i < |entries| && entries[i].key == key;
        assert entries[1..][i - 1].key == key;
      }
      LookupFinds(entries[1..], key);
    }
  }

  lemma LookupLatest<K, V>(entries: seq<Entry<K, V>>, key: K, run: seq<Event<K, V>>)
    requires Has(entries, key) && Latest(entries, run)
    ensures LastPut(run, key) == Some(Lookup(entries, key))
  {
    LookupFinds(entries, key);
    var i :| 0 <= i < |entries| && entries[i] == Entry(key, Lookup(entries, key));
  }

  /** A use of `key` puts it in front of all other entries. */
  lemma UseToFront<K, V>(entries: seq<Entry<K, V>>, run: seq<Event<K, V>>, e: Event<K, V>, key: K, value: V)
    requires Ordered(entries, run) && Latest(entries, run) && Uses(e, key)
    requires LastPut(run + [e], key) == Some(value)
    ensures var all := [Entry(key, value)] + Without(entries, key);
      Ordered(all, run + [e]) && Latest(all, run + [e])
  {
    var rest := Without(entries, key);
    var all := [Entry(key, value)] + rest;
    assert (run + [e])[..|run|] == run;
    WithoutKeepsOrder(entries, key, run);
    forall i | 0 <= i < |rest|
      ensures LastUse(run + [e], rest[i].key) == LastUse(run, rest[i].key)
      ensures LastPut(run + [e], rest[i].key) == Some(rest[i].value)
    {
      var j := WithoutAt(entries, key, i);
    }
    forall i, j | 0 <= i < j < |all| ensures LastUse(run + [e], all[i].key) > LastUse(run + [e], all[j].key) {
      assert all[j] == rest[j - 1];
      if i > 0 { assert all[i] == rest[i - 1]; }
    }
    forall i | 0 <= i < |all| ensures LastPut(run + [e], all[i].key) == Some(all[i].value) {
      if i > 0 { assert all[i] == rest[i - 1]; }
    }
  }

  lemma PurgeKeepsOrder<K, V>(entries: seq<Entry<K, V>>, run: seq<Event<K, V>>, count: nat)
    requires Ordered(entries, run) && Latest(entries, run)
    ensures Ordered(Purge(entries, count), run) && Latest(Purge(entries, count), run)
  {
  }

  lemma StepOrdered<K, V>(entries: seq<Entry<K, V>>, run: seq<Event<K, V>>, e: Event<K, V>)
    requires Ordered(entries, run) && Latest(entries, run) && Callable(entries, e)
    ensures Ordered(Step(entries, e), run + [e]) && Latest(Step(entries, e), run + [e])
  {
    assert (run + [e])[..|run|] == run;
    match e
    case DidPut(key, value, shouldPurge) =>
      hide Ordered, Latest, Uses;
      assert Uses(e, key) by { UsesPut(e); }
      UseToFront(entries, run, e, key, value);
      PurgeKeepsOrder([Entry(key, value)] + Without(entries, key), run + [e], 1);
    case DidGet(key) =>
      LookupLatest(entries, key, run);
      UseToFront(entries, run, e, key, Lookup(entries, key));
    case DidPurge(count) =>
      PurgeKeepsOrder(entries, run, count);
      forall i | 0 <= i < |entries|
        ensures LastUse(run + [e], entries[i].key) == LastUse(run, entries[i].key)
        ensures LastPut(run + [e], entries[i].key) == LastPut(run, entries[i].key)
      {
      }
  }

  lemma UsesPut<K, V>(e: Event<K, V>)
    requires e.DidPut?
    ensures Uses(e, e.key)
  {
  }

  /** After any run the entries stand in the order of their last use, the most recent first, so the
      keys are distinct, and each has the value put last. */
  lemma {:induction false} RunOrdered<K, V>(run: seq<Event<K, V>>)
    requires Legal(run)
    ensures Ordered(Run(run), run) && Latest(Run(run), run)
  {
    if run != [] {
      var before := run[..|run| - 1];
      RunOrdered(before);
      assert run == before + [run[|run| - 1]];
      StepOrdered(Run(before), before, run[|run| - 1]);
    }
  }

  /** A look-up after any run gives the value put last. */
  lemma GetReturnsLastPut<K, V>(run: seq<Event<K, V>>, key: K)
    requires Legal(run) && Has(Run(run), key)
    ensures LastPut(run, key) == Some(Lookup(Run(run), key))
  {
    RunOrdered(run);
    LookupLatest(Run(run), key, run);
  }

  /** A purge after any run takes the entries whose last use is oldest: as many as asked for, or all,
      and each was last used before every entry that stays. */
  lemma PurgeTakesOldest<K, V>(run: seq<Event<K, V>>, count: nat, kept: K, gone: K)
    requires Legal(run) && Has(Purge(Run(run), count), kept)
    requires Has(Run(run), gone) && !Has(Purge(Run(run), count), gone)
    ensures LastUse(run, gone) < LastUse(run, kept)
    ensures |Purge(Run(run), count)| == |Run(run)| - count
  {
    RunOrdered(run);
    var entries := Run(run);
    var i :| 0 <= i < |Purge(entries, count)| && Purge(entries, count)[i].key == kept;
    var j :| 0 <= j < |entries| && entries[j].key == gone;
    assert forall k :: 0 <= k < |Purge(entries, count)| ==> Purge(entries, count)[k] == entries[k];
    assert j >= |Purge(entries, count)|;
  }

  /** Nothing but a purge takes a key out, and a put puts it in. */
  lemma OnlyPurgesDrop<K, V>(entries: seq<Entry<K, V>>, e: Event<K, V>, key: K)
    requires Callable(entries, e)
    requires e.DidGet? || (e.DidPut? && !e.shouldPurge)
    ensures Has(Step(entries, e), key) <==> Has(entries, key) || (e.DidPut? && e.key == key)
  {
    var all := Step(entries, e);
    assert all == [all[0]] + Without(entries, e.key) && all[0].key == e.key;
    hide Step, Without, Has;
    FrontAndRest(all[0], entries, key);
  }

  /** The keys of a list whose front entry replaces that of the same key. */
  lemma FrontAndRest<K, V>(front: Entry<K, V>, entries: seq<Entry<K, V>>, key: K)
    ensures Has([front] + Without(entries, front.key), key) <==> Has(entries, key) || key == front.key
  {
    var all := [front] + Without(entries, front.key);
    hide Without;
    assert all[0] == front;
    if Has(entries, key) && key != front.key {
      var i :| 0 <= i < |entries| && entries[i].key == key;
      var j := WithoutHas(entries, front.key, i);
      assert all[j + 1].key == key;
    }
    if Has(all, key) && key != front.key {
      var i :| 0 <= i < |all| && all[i].key == key;
      var j := WithoutAt(entries, front.key, i - 1);
      assert entries[j].key == key;
    }
  }

  lemma RunThenPut<K, V>(run: seq<Event<K, V>>, key: K, value: V, shouldPurge: bool)
    ensures Run(run + [DidPut(key, value, shouldPurge)]) == Put(Run(run), key, value, shouldPurge)
  {
    assert (run + [DidPut(key, value, shouldPurge)])[..|run|] == run;
  }

  /** A put that purges, after any run, drops exactly one of the keys there would be: the one whose last use,
      the put included, is oldest. */
  lemma PutEvictsOldest<K(!new), V>(run: seq<Event<K, V>>, key: K, value: V) returns (gone: K)
    requires Legal(run)
    ensures var run1 := run + [DidPut(key, value, true)]; var before, after := Run(run), Run(run1);
      && (Has(before, gone) || gone == key)
      && (forall k: K :: Has(after, k) <==> (Has(before, k) || k == key) && k != gone)
      && (forall k: K :: Has(after, k) ==> LastUse(run1, gone) < LastUse(run1, k))
  {
    var e := DidPut(key, value, true);
    var run1, before := run + [e], Run(run);
    var all := [Entry(key, value)] + Without(before, key);
    assert run1[..|run|] == run;
    RunOrdered(run);
    UseToFront(before, run, e, key, value);
    assert all == Step(before, DidPut(key, value, false));
    var after := Run(run1);
    assert after == all[..|all| - 1];
    hide Run, LastUse, LastPut, Latest, Without;
    gone := all[|all| - 1].key;
    forall k: K ensures Has(all, k) <==> Has(before, k) || k == key {
      OnlyPurgesDrop(before, DidPut(key, value, false), k);
    }
    LastDropped(all, run1);
  }

  /** In an ordered list the last entry was used before all others, and only its key goes with it. */
  lemma LastDropped<K(!new), V>(all: seq<Entry<K, V>>, run: seq<Event<K, V>>)
    requires all != [] && Ordered(all, run)
    ensures var gone := all[|all| - 1].key; var after := all[..|all| - 1];
      && (forall k: K :: Has(after, k) <==> Has(all, k) && k != gone)
      && (forall k: K :: Has(after, k) ==> LastUse(run, gone) < LastUse(run, k))
  {
    var gone, after := all[|all| - 1].key, all[..|all| - 1];
    forall k: K | Has(after, k) ensures Has(all, k) && LastUse(run, gone) < LastUse(run, k) {
      var i :| 0 <= i < |after| && after[i].key == k;
      assert all[i].key == k;
    }
    forall k: K | Has(all, k) && k != gone ensures Has(after, k) {
      var i :| 0 <= i < |all| && all[i].key == k;
      assert after[i].key == k;
    }
  }

  lemma {:induction false} WithoutSize<K, V>(entries: seq<Entry<K, V>>, key: K)
    requires forall i, j :: 0 <= i < j < |entries| ==> entries[i].key != entries[j].key
    ensures |Without(entries, key)| == |entries| - if Has(entries, key) then 1 else 0
  {
    if entries != [] {
      WithoutSize(entries[1..], key);
      var rest := entries[1..];
      assert Has(rest, key) ==> Has(entries, key) && entries[0].key != key by {
        if Has(rest, key) {
          var i :| 0 <= i < |rest| && rest[i].key == key;
          assert entries[i + 1].key == key;
        }
      }
      assert Has(entries, key) && entries[0].key != key ==> Has(rest, key) by {
        if Has(entries, key) && entries[0].key != key {
          var i :| 0 <= i < |entries| && entries[i].key == key;
          assert rest[i - 1].key == key;
        }
      }
    }
  }

  /** The size after one more turn of any run: a new key adds one, a put that purges takes one, a purge takes
      as many as asked for or all, and a look-up changes nothing. */
  lemma SizeAfter<K, V>(run: seq<Event<K, V>>, e: Event<K, V>)
    requires Legal(run) && Callable(Run(run), e)
    ensures var before, after := Run(run), Run(run + [e]);
      && (e.DidPut? ==> |after| == |before| + (if Has(before, e.key) then 0 else 1) - (if e.shouldPurge then 1 else 0))
      && (e.DidGet? ==> |after| == |before|)
      && (e.DidPurge? ==> |after| == if e.count < |before| then |before| - e.count else 0)
  {
    assert (run + [e])[..|run|] == run;
    RunOrdered(run);
    assert forall i, j :: 0 <= i < j < |Run(run)| ==> Run(run)[i].key != Run(run)[j].key;
    if !e.DidPurge? { WithoutSize(Run(run), e.key); }
    hide Ordered, Latest, Without, Lookup;
  }
}
