/** The least-recently-used cache of src/common/base/LRUCache.hpp: a list of nodes, the most recent
    first, and a map from each key to its node. An iterator into the list is the identity of the node
    it points at, which stays the same while other nodes come and go. */
module LruCacheObject {
  import opened Common
  import L = LruOrder

  datatype Node<K, V> = Node(id: nat, key: K, value: V)

  function Entries<K, V>(nodes: seq<Node<K, V>>): (r: seq<L.Entry<K, V>>)
    ensures |r| == |nodes| && forall i :: 0 <= i < |r| ==> r[i] == L.Entry(nodes[i].key, nodes[i].value)
  {
    seq(|nodes|, i requires 0 <= i < |nodes| => L.Entry(nodes[i].key, nodes[i].value))
  }

  /** Each map entry points at the node of its key, each node is pointed at, and no node is there twice. */
  ghost predicate Linked<K, V>(nodes: seq<Node<K, V>>, index: map<K, nat>) {
    && (forall i :: 0 <= i < |nodes| ==> nodes[i].key in index && index[nodes[i].key] == nodes[i].id)
    && (forall key :: key in index ==> Points(nodes, index[key], key))
    && (forall i, j :: 0 <= i < j < |nodes| ==> nodes[i].key != nodes[j].key && nodes[i].id != nodes[j].id)
  }

  predicate Points<K(==), V>(nodes: seq<Node<K, V>>, id: nat, key: K) {
    exists i :: 0 <= i < |nodes| && nodes[i].id == id && nodes[i].key == key
  }

  predicate Holds<K, V>(nodes: seq<Node<K, V>>, id: nat) {
    exists i :: 0 <= i < |nodes| && nodes[i].id == id
  }

  /** The place of the node an iterator points at. */
  function Place<K, V>(nodes: seq<Node<K, V>>, id: nat): (p: nat)
    requires Holds(nodes, id)
    ensures p < |nodes| && nodes[p].id == id
  {
    if nodes[0].id == id then 0
    else
      assert Holds(nodes[1..], id) by {
        var i :| 0 <= i < |nodes| && nodes[i].id == id;
        assert nodes[1..][i - 1].id == id;
      }
      1 + Place(nodes[1..], id)
  }

  function Erase<T>(s: seq<T>, p: nat): seq<T>
    requires p < |s|
  {
    s[..p] + s[p + 1..]
  }

  // ---------------------------------------------------------------- the list against the order

  lemma {:induction false} WithoutNone<K, V>(entries: seq<L.Entry<K, V>>, key: K)
    requires forall i :: 0 <= i < |entries| ==> entries[i].key != key
    ensures L.Without(entries, key) == entries
  {
    if entries != [] {
      WithoutNone(entries[1..], key);
    }
  }

  lemma {:induction false} WithoutOne<K, V>(entries: seq<L.Entry<K, V>>, p: nat)
    requires p < |entries| && forall i :: 0 <= i < |entries| && i != p ==> entries[i].key != entries[p].key
    ensures L.Without(entries, entries[p].key) == Erase(entries, p)
    ensures L.Has(entries, entries[p].key) && L.Lookup(entries, entries[p].key) == entries[p].value
  {
    if p == 0 {
      WithoutNone(entries[1..], entries[0].key);
    } else {
      WithoutOne(entries[1..], p - 1);
      assert Erase(entries, p) == [entries[0]] + Erase(entries[1..], p - 1);
    }
  }

  lemma HasIsLinked<K, V>(nodes: seq<Node<K, V>>, index: map<K, nat>, key: K)
    requires Linked(nodes, index)
    ensures key in index <==> L.Has(Entries(nodes), key)
    ensures key in index ==> Holds(nodes, index[key]) && nodes[Place(nodes, index[key])].key == key
  {
    if key in index {
      KeyHere(nodes, index, key);
      assert Entries(nodes)[Place(nodes, index[key])].key == key;
    }
  }

  lemma KeyHere<K, V>(nodes: seq<Node<K, V>>, index: map<K, nat>, key: K)
    requires Linked(nodes, index) && key in index
    ensures Holds(nodes, index[key]) && nodes[Place(nodes, index[key])].key == key
  {
    assert Points(nodes, index[key], key);
    var i :| 0 <= i < |nodes| && nodes[i].id == index[key] && nodes[i].key == key;
    var p := Place(nodes, index[key]);
    assert nodes[i].id == nodes[p].id;
  }

  lemma OneNode<K, V>(nodes: seq<Node<K, V>>, index: map<K, nat>, p: nat)
    requires Linked(nodes, index) && p < |nodes|
    ensures L.Without(Entries(nodes), nodes[p].key) == Entries(Erase(nodes, p))
    ensures L.Has(Entries(nodes), nodes[p].key) && L.Lookup(Entries(nodes), nodes[p].key) == nodes[p].value
  {
    assert forall i :: 0 <= i < |nodes| && i != p ==> Entries(nodes)[i].key != Entries(nodes)[p].key;
    hide Linked;
    ErasedEntries(nodes, p);
    hide Entries, Erase;
    WithoutOne(Entries(nodes), p);
  }

  lemma ErasedEntries<K, V>(nodes: seq<Node<K, V>>, p: nat)
    requires p < |nodes|
    ensures Erase(Entries(nodes), p) == Entries(Erase(nodes, p))
  {
  }

  // ---------------------------------------------------------------- changes that keep list and map linked

  predicate NewId<K, V>(nodes: seq<Node<K, V>>, id: nat) {
    forall i :: 0 <= i < |nodes| ==> nodes[i].id != id
  }

  predicate IdsBelow<K, V>(nodes: seq<Node<K, V>>, n: nat) {
    forall i :: 0 <= i < |nodes| ==> nodes[i].id < n
  }

  lemma EraseIds<K, V>(nodes: seq<Node<K, V>>, p: nat, n: nat)
    requires p < |nodes| && IdsBelow(nodes, n)
    ensures IdsBelow(Erase(nodes, p), n) && NewId(Erase(nodes, p), n) && nodes[p].id < n
  {
  }

  lemma PushIds<K, V>(nodes: seq<Node<K, V>>, node: Node<K, V>, n: nat)
    requires IdsBelow(nodes, n)
    ensures NewId(nodes, n)
    ensures node.id < n ==> IdsBelow([node] + nodes, n)
    ensures node.id == n ==> IdsBelow([node] + nodes, n + 1)
  {
  }

  lemma PushEntries<K, V>(nodes: seq<Node<K, V>>, node: Node<K, V>)
    ensures Entries([node] + nodes) == [L.Entry(node.key, node.value)] + Entries(nodes)
  {
  }

  lemma ErasePoints<K, V>(nodes: seq<Node<K, V>>, index: map<K, nat>, p: nat, key: K)
    requires Linked(nodes, index) && p < |nodes| && key in index && key != nodes[p].key
    ensures Points(Erase(nodes, p), index[key], key)
  {
    assert Points(nodes, index[key], key);
    var i :| 0 <= i < |nodes| && nodes[i].id == index[key] && nodes[i].key == key;
    assert i != p;
    var j := if i < p then i else i - 1;
    assert Erase(nodes, p)[j] == nodes[i];
  }

  lemma EraseLinked<K, V>(nodes: seq<Node<K, V>>, index: map<K, nat>, p: nat)
    requires Linked(nodes, index) && p < |nodes|
    ensures Linked(Erase(nodes, p), index - {nodes[p].key})
    ensures NewId(Erase(nodes, p), nodes[p].id) && nodes[p].key in index && index[nodes[p].key] == nodes[p].id
  {
    var rest, left := Erase(nodes, p), index - {nodes[p].key};
    assert forall i :: 0 <= i < |rest| ==> rest[i] == nodes[if i < p then i else i + 1];
    forall key | key in left ensures Points(rest, left[key], key) {
      ErasePoints(nodes, index, p, key);
    }
  }

  lemma PushLinked<K, V>(nodes: seq<Node<K, V>>, index: map<K, nat>, node: Node<K, V>)
    requires Linked(nodes, index) && node.key !in index && NewId(nodes, node.id)
    ensures Linked([node] + nodes, index[node.key := node.id])
  {
    var all, now := [node] + nodes, index[node.key := node.id];
    assert all[0] == node && forall i :: 0 < i < |all| ==> all[i] == nodes[i - 1];
    forall key | key in now ensures Points(all, now[key], key) {
      if key != node.key {
        assert Points(nodes, index[key], key);
        var i :| 0 <= i < |nodes| && nodes[i].id == index[key] && nodes[i].key == key;
        assert all[i + 1] == nodes[i];
      }
    }
  }

  lemma {:induction false} SameSize<K, V>(nodes: seq<Node<K, V>>, index: map<K, nat>)
    requires Linked(nodes, index)
    ensures |index| == |nodes|
    decreases |nodes|
  {
    if nodes == [] {
      assert forall key :: key in index ==> Points(nodes, index[key], key);
      assert index.Keys == {};
      assert |index| == |index.Keys|;
    } else {
      var p := |nodes| - 1;
      var key := nodes[p].key;
      EraseLinked(nodes, index, p);
      SameSize(Erase(nodes, p), index - {key});
      assert (index - {key}).Keys == index.Keys - {key} && key in index.Keys;
      assert |index| == |index.Keys| && |index - {key}| == |(index - {key}).Keys|;
    }
  }

  lemma PushedPlace<K, V>(nodes: seq<Node<K, V>>, node: Node<K, V>, id: nat)
    requires Holds(nodes, id) && node.id != id
    ensures Holds([node] + nodes, id) && Place([node] + nodes, id) == 1 + Place(nodes, id)
  {
    assert ([node] + nodes)[1 + Place(nodes, id)].id == id;
    assert ([node] + nodes)[1..] == nodes;
  }

  /** A new node in front, in place of the one its key had. */
  lemma ReplaceLinked<K, V>(nodes: seq<Node<K, V>>, index: map<K, nat>, node: Node<K, V>, n: nat)
    requires Linked(nodes, index) && IdsBelow(nodes, n) && node.id == n && node.key in index
    ensures Holds([node] + nodes, index[node.key])
    ensures var all := Erase([node] + nodes, Place([node] + nodes, index[node.key]));
      && Linked(all, (index - {node.key})[node.key := n]) && IdsBelow(all, n + 1)
      && Entries(all) == [L.Entry(node.key, node.value)] + L.Without(Entries(nodes), node.key)
  {
    hide *;
    KeyHere(nodes, index, node.key);
    var p := Place(nodes, index[node.key]);
    OneNode(nodes, index, p);
    EraseLinked(nodes, index, p);
    EraseIds(nodes, p, n);
    PushedPlace(nodes, node, index[node.key]);
    ErasePushed(nodes, node, p);
    var rest := Erase(nodes, p);
    PushIds(rest, node, n);
    PushEntries(rest, node);
    PushLinked(rest, index - {node.key}, node);
  }

  lemma ErasePushed<T>(s: seq<T>, x: T, p: nat)
    requires p < |s|
    ensures Erase([x] + s, 1 + p) == [x] + Erase(s, p)
  {
  }

  lemma NewLinked<K, V>(nodes: seq<Node<K, V>>, index: map<K, nat>, node: Node<K, V>, n: nat)
    requires Linked(nodes, index) && IdsBelow(nodes, n) && node.id == n && node.key !in index
    ensures Linked([node] + nodes, index[node.key := n]) && IdsBelow([node] + nodes, n + 1)
    ensures Entries([node] + nodes) == [L.Entry(node.key, node.value)] + L.Without(Entries(nodes), node.key)
  {
    NotThere(nodes, index, node.key);
    hide *;
    WithoutNone(Entries(nodes), node.key);
    PushIds(nodes, node, n);
    PushEntries(nodes, node);
    PushLinked(nodes, index, node);
  }

  lemma NotThere<K, V>(nodes: seq<Node<K, V>>, index: map<K, nat>, key: K)
    requires Linked(nodes, index) && key !in index
    ensures forall i :: 0 <= i < |Entries(nodes)| ==> Entries(nodes)[i].key != key
  {
  }

  /** The node of a key spliced to the front. */
  lemma SpliceLinked<K, V>(nodes: seq<Node<K, V>>, index: map<K, nat>, key: K, n: nat)
    requires Linked(nodes, index) && IdsBelow(nodes, n) && key in index
    ensures Holds(nodes, index[key]) && L.Has(Entries(nodes), key)
    ensures var p := Place(nodes, index[key]);
      var all := [nodes[p]] + Erase(nodes, p);
      && Linked(all, index) && IdsBelow(all, n) && Entries(all) == L.Get(Entries(nodes), key)
      && nodes[p].value == L.Lookup(Entries(nodes), key)
  {
    hide Linked, Place, Erase, NewId, IdsBelow, Entries, Holds, L.Without, L.Lookup, L.Has;
    KeyHere(nodes, index, key);
    var p := Place(nodes, index[key]);
    OneNode(nodes, index, p);
    EraseLinked(nodes, index, p);
    EraseIds(nodes, p, n);
    assert (index - {key})[key := index[key]] == index;
    PushIds(Erase(nodes, p), nodes[p], n);
    PushEntries(Erase(nodes, p), nodes[p]);
    PushLinked(Erase(nodes, p), index - {key}, nodes[p]);
  }

  /** One turn of the purge loop. */
  lemma DropLast<K, V>(nodes: seq<Node<K, V>>, index: map<K, nat>, n: nat)
    requires Linked(nodes, index) && IdsBelow(nodes, n) && nodes != []
    ensures var rest := nodes[..|nodes| - 1];
      && Linked(rest, index - {nodes[|nodes| - 1].key}) && IdsBelow(rest, n)
      && Entries(rest) == Entries(nodes)[..|nodes| - 1]
  {
    EraseLinked(nodes, index, |nodes| - 1);
    assert Erase(nodes, |nodes| - 1) == nodes[..|nodes| - 1];
    hide Linked;
  }

  class LRUCache<K(==,!new), V> {
    var list: seq<Node<K, V>>
    var index: map<K, nat>
    var nextId: nat

    ghost predicate Valid()
      reads this
    {
      Linked(list, index) && IdsBelow(list, nextId)
    }

    ghost function Contents(): seq<L.Entry<K, V>>
      reads this
    {
      Entries(list)
    }

    constructor ()
      ensures Valid() && Contents() == []
    {
      list, index, nextId := [], map[], 0;
    }

    method Exists(key: K) returns (r: bool)
      requires Valid()
      ensures r == L.Has(Contents(), key)
    {
      HasIsLinked(list, index, key);
      r := key in index;
    }

    method Size() returns (r: nat)
      requires Valid()
      ensures r == |Contents()|
    {
      SameSize(list, index);
      r := |index|;
    }

    /** `purge`. */
    method Purge(count: nat)
      requires Valid()
      modifies this
      ensures Valid() && Contents() == L.Purge(old(Contents()), count)
    {
      hide Linked, IdsBelow;
      var i := 0;
      while i < count && list != []
        invariant i <= count && Valid() && Contents() == L.Purge(old(Contents()), i)
      {
        var last := |list| - 1;
        DropLast(list, index, nextId);
        index := index - {list[last].key};
        list := list[..last];
        i := i + 1;
      }
    }

    /** `put`. */
    method Put(key: K, value: V, shouldPurge: bool)
      requires Valid()
      modifies this
      ensures Valid() && Contents() == L.Put(old(Contents()), key, value, shouldPurge)
    {
      hide Linked, Place, Erase, IdsBelow, Entries, L.Without, Holds;
      var found := key in index;
      var node := Node(nextId, key, value);
      if found {
        ReplaceLinked(list, index, node, nextId);
      } else {
        NewLinked(list, index, node, nextId);
      }
      list := [node] + list;
      nextId := nextId + 1;
      if found {
        list := Erase(list, Place(list, index[key]));
        index := index - {key};
      }
      index := index[key := node.id];
      if shouldPurge {
        Purge(1);
      }
    }

    /** `get`: the look-up and the splice to the front. */
    method Get(key: K) returns (value: V)
      requires Valid() && L.Has(Contents(), key)
      modifies this
      ensures Valid() && Contents() == L.Get(old(Contents()), key) && value == L.Lookup(old(Contents()), key)
    {
      HasIsLinked(list, index, key);
      hide Linked, Place, Erase, IdsBelow, Entries, L.Without, L.Get, L.Lookup;
      SpliceLinked(list, index, key, nextId);
      var p := Place(list, index[key]);
      list := [list[p]] + Erase(list, p);
      value := list[0].value;
    }

    /** The call that an event stands for. */
    method Perform(e: L.Event<K, V>)
      requires Valid() && L.Callable(Contents(), e)
      modifies this
      ensures Valid() && Contents() == L.Step(old(Contents()), e)
    {
      match e
      case DidPut(key, value, shouldPurge) =>
        Put(key, value, shouldPurge);
      case DidGet(key) =>
        var _ := Get(key);
      case DidPurge(count) =>
        Purge(count);
    }

    /** Any run of calls on a new cache leaves list and map with the entries in the order of their last
        use, each with the value put last. */
    method Execute(run: seq<L.Event<K, V>>)
      requires Valid() && Contents() == [] && L.Legal(run)
      modifies this
      ensures Valid() && Contents() == L.Run(run)
      ensures L.Ordered(Contents(), run) && L.Latest(Contents(), run)
    {
      hide Linked, L.Step, L.Callable, L.Ordered, L.Latest;
      assert run[..0] == [];
      for i := 0 to |run|
        invariant Valid() && Contents() == L.Run(run[..i])
      {
        L.LegalTurn(run, i);
        Perform(run[i]);
      }
      assert run[..|run|] == run;
      L.RunOrdered(run);
    }

    /** A look-up after any run returns the value put last. */
    method ExecuteThenGet(run: seq<L.Event<K, V>>, key: K) returns (value: V)
      requires Valid() && Contents() == [] && L.Legal(run) && L.Has(L.Run(run), key)
      modifies this
      ensures Valid() && L.LastPut(run, key) == Some(value)
    {
      Execute(run);
      L.GetReturnsLastPut(run, key);
      value := Get(key);
    }

    /** What a purge after any run takes was last used before everything it leaves. */
    method ExecuteThenPurge(run: seq<L.Event<K, V>>, count: nat)
      requires Valid() && Contents() == [] && L.Legal(run)
      modifies this
      ensures Valid() && Contents() == L.Purge(L.Run(run), count)
      ensures forall kept, gone :: L.Has(Contents(), kept) && L.Has(L.Run(run), gone) && !L.Has(Contents(), gone) ==>
                L.LastUse(run, gone) < L.LastUse(run, kept)
    {
      Execute(run);
      Purge(count);
      forall kept, gone | L.Has(Contents(), kept) && L.Has(L.Run(run), gone) && !L.Has(Contents(), gone)
        ensures L.LastUse(run, gone) < L.LastUse(run, kept)
      {
        L.PurgeTakesOldest(run, count, kept, gone);
      }
    }

    /** A put that purges, after any run, drops exactly one of the keys there would be: the one whose last use,
        the put included, is oldest. */
    method ExecuteThenPut(run: seq<L.Event<K, V>>, key: K, value: V) returns (ghost gone: K)
      requires Valid() && Contents() == [] && L.Legal(run)
      modifies this
      ensures Valid()
      ensures forall k :: L.Has(Contents(), k) <==> (L.Has(L.Run(run), k) || k == key) && k != gone
      ensures forall k :: L.Has(Contents(), k) ==>
                L.LastUse(run + [L.DidPut(key, value, true)], gone) < L.LastUse(run + [L.DidPut(key, value, true)], k)
    {
      hide L.Has, L.LastUse, L.Ordered, L.Latest, L.Run, L.Put, Linked;
      Execute(run);
      gone := L.PutEvictsOldest(run, key, value);
      L.RunThenPut(run, key, value, true);
      Put(key, value, true);
    }
  }
}
