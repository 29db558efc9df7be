/** `Referenced` and `Recyclable` of src/common/base/Recyclable.hpp and Recyclable.cpp and the
    counter of HighWater.cpp, each method proved to be the step of RecycleProtocol it stands for. */
module RecyclableObject {
  import opened Common
  import P = RecycleProtocol

  class HighWater {
    var current: int
    var highWater: int

    constructor (init: int)
      ensures Level() == P.Level(init, init)
    {
      current, highWater := init, init;
    }

    ghost function Level(): P.Level
      reads this
    {
      P.Level(current, highWater)
    }

    method Increase(size: nat)
      modifies this
      ensures Level() == P.Increase(old(Level()), size)
    {
      current := current + size;
      if current > highWater {
        highWater := current;
      }
    }

    method Decrease(size: nat)
      modifies this
      ensures Level() == P.Decrease(old(Level()), size)
    {
      current := current - size;
    }
  }

  /** The shared `std::atomic<int>`. */
  class Counter {
    var count: int

    constructor ()
      ensures count == 0
    {
      count := 0;
    }
  }

  /** All the holders there are, and what the callbacks act on. */
  class World {
    const water: HighWater
    ghost var holders: set<Recyclable>
    ghost var counters: set<Counter>
    ghost var log: seq<P.Recycled<Counter>>
    ghost var origin: map<Counter, P.Origin>
    ghost var made: seq<Counter>
    ghost var levels: seq<int>

    ghost function Repr(): set<object>
      reads this
    {
      {this, water} + holders + counters
    }

    ghost function State(): P.State<Recyclable, Counter>
      reads Repr()
    {
      P.State(map h | h in holders :: h.AsHolder(), map c | c in counters :: c.count, log, water.Level(), origin, made, levels)
    }

    ghost predicate Closed()
      reads Repr()
    {
      forall h :: h in holders && h.reference != null ==> h.reference in counters
    }

    ghost predicate Valid()
      reads Repr()
    {
      Closed() && P.Inv(State())
    }

    lemma Member(h: Recyclable)
      requires h in holders && Closed()
      ensures h in State().holders && State().holders[h] == h.AsHolder()
      ensures h.reference != null ==> h.reference in counters && h.reference in State().counts
    {
    }

    constructor (init: int)
      ensures State() == P.Initial(init) && Valid() && fresh(Repr())
    {
      water := new HighWater(init);
      holders, counters, log, origin, made, levels := {}, {}, [], map[], [], [init];
      new;
      assert State() == P.Initial(init);
      P.InitialInv<Recyclable, Counter>(init);
    }
  }

  class Recyclable {
    var reference: Counter?
    var value: Option<P.Value>
    var onRecycled: bool

    ghost function AsHolder(): P.Holder<Counter>
      reads this
    {
      P.Holder(if reference == null then None else var c: Counter := reference; Some(c), value, onRecycled)
    }

    /** `Referenced::retain`. */
    method Retain(w: World)
      requires w.Closed() && this in w.holders
      modifies reference
      ensures w.Closed() && w.Repr() == old(w.Repr())
      ensures P.Known(old(w.State()), this) && w.State() == P.Retain(old(w.State()), this)
    {
      ghost var s := w.State();
      if reference != null {
        reference.count := reference.count + 1;
        assert w.State().holders == s.holders;
        assert w.State().counts == s.counts[reference := s.counts[reference] + 1];
      }
    }

    /** The callback set by `Data::reset` and the `MappedData` constructor. */
    method RunCallback(w: World)
      requires w.Closed() && this in w.holders && reference != null
      modifies w, w.water
      ensures w.Closed() && w.Repr() == old(w.Repr())
      ensures w.State() == P.RunCallback(old(w.State()), reference, value)
    {
      ghost var s := w.State();
      w.log := w.log + [P.Recycled(reference, value)];
      if value.Some? && value.value.charged {
        w.water.Decrease(value.value.size);
        w.levels := w.levels + [w.water.current];
      }
      assert w.State().holders == s.holders && w.State().counts == s.counts;
    }

    /** `Recyclable::onUnreferenced`. */
    method OnUnreferenced(w: World)
      requires w.Closed() && this in w.holders && reference != null
      modifies this`onRecycled, w, w.water
      ensures w.Closed() && w.Repr() == old(w.Repr())
      ensures w.State() == P.Unreferenced(old(w.State()), this, reference)
    {
      if onRecycled {
        RunCallback(w);
        ghost var s := w.State();
        onRecycled := false;
        assert w.State().holders == s.holders[this := s.holders[this].(callback := false)];
        assert w.State().counts == s.counts;
      }
    }

    /** `Referenced::release`. */
    method Release(w: World)
      requires w.Closed() && this in w.holders
      modifies reference, this`onRecycled, w, w.water
      ensures w.Closed() && w.Repr() == old(w.Repr())
      ensures P.Known(old(w.State()), this) && w.State() == P.Release(old(w.State()), this)
    {
      ghost var s := w.State();
      if reference != null {
        reference.count := reference.count - 1;
        assert w.State().holders == s.holders;
        assert w.State().counts == s.counts[reference := s.counts[reference] - 1];
        if reference.count == 0 {
          OnUnreferenced(w);
        }
      }
    }

    static ghost function Fields(c: Counter?, v: Option<P.Value>, callback: bool): P.Holder<Counter> {
      P.Holder(if c == null then None else var d: Counter := c; Some(d), v, callback)
    }

    /** `m_reference`, `m_value` and `m_onRecycled` are set. */
    method Become(c: Counter?, v: Option<P.Value>, callback: bool, w: World)
      requires w.Closed() && this in w.holders && (c != null ==> c in w.counters)
      modifies this
      ensures w.Closed() && w.Repr() == old(w.Repr())
      ensures reference == c && value == v && onRecycled == callback
      ensures w.State() == P.With(old(w.State()), this, Fields(c, v, callback))
    {
      ghost var s := w.State();
      reference := c;
      value := v;
      onRecycled := callback;
      assert w.State().holders == s.holders[this := Fields(c, v, callback)];
      assert w.State().counts == s.counts;
    }

    /** Assignment of null: `reset(nullptr)` and the fields. */
    method NullAssign(w: World)
      requires w.Valid() && this in w.holders
      modifies w.Repr()
      ensures w.Valid() && w.Repr() == old(w.Repr())
      ensures P.Known(old(w.State()), this) && w.State() == P.NullAssign(old(w.State()), this)
    {
      hide P.Inv, P.Release, P.With, World.State;
      w.Member(this);
      P.NullAssignKeeps(w.State(), this);
      Release(w);
      Become(null, None, false, w);
    }

    /** Copy assignment: `reset(other)` and the fields. */
    method CopyAssign(other: Recyclable, w: World)
      requires w.Valid() && this in w.holders && other in w.holders
      modifies w.Repr()
      ensures w.Valid() && w.Repr() == old(w.Repr())
      ensures P.Known(old(w.State()), this) && P.Known(old(w.State()), other)
      ensures w.State() == P.CopyAssign(old(w.State()), this, other)
    {
      hide P.Inv, P.Release, P.Retain, P.With, World.State;
      w.Member(this);
      w.Member(other);
      P.CopyAssignKeeps(w.State(), this, other);
      other.Retain(w);
      Release(w);
      w.Member(other);
      Become(other.reference, other.value, other.onRecycled, w);
    }

    /** Move assignment. */
    method MoveAssign(other: Recyclable, w: World)
      requires w.Valid() && this in w.holders && other in w.holders
      modifies w.Repr()
      ensures w.Valid() && w.Repr() == old(w.Repr())
      ensures P.Known(old(w.State()), this) && P.Known(old(w.State()), other)
      ensures w.State() == P.MoveAssign(old(w.State()), this, other)
    {
      hide P.Inv, P.CopyAssign, P.NullAssign, P.Known, World.State, World.Valid;
      CopyAssign(other, w);
      other.NullAssign(w);
    }

    /** Destruction. */
    method Destroy(w: World)
      requires w.Valid() && this in w.holders
      modifies w.Repr()
      ensures w.Valid() && w.Repr() == old(w.Repr()) - {this}
      ensures P.Known(old(w.State()), this) && w.State() == P.Destroy(old(w.State()), this)
    {
      hide P.Inv, P.Release, World.State;
      w.Member(this);
      P.DestroyKeeps(w.State(), this);
      Release(w);
      Leave(w);
    }

    /** A destroyed object is no holder any more. */
    method Leave(w: World)
      requires w.Closed() && this in w.holders
      modifies w
      ensures w.Closed() && w.holders == old(w.holders) - {this} && w.counters == old(w.counters)
      ensures w.State() == old(w.State()).(holders := old(w.State()).holders - {this})
    {
      ghost var s := w.State();
      w.holders := w.holders - {this};
      assert w.State().holders == s.holders - {this};
      assert w.State().counts == s.counts;
    }

    /** A new object joins the holders. */
    method Join(w: World)
      requires w.Closed() && this !in w.holders && (reference != null ==> reference in w.counters)
      modifies w
      ensures w.Closed() && w.holders == old(w.holders) + {this} && w.counters == old(w.counters)
      ensures w.State() == P.With(old(w.State()), this, AsHolder())
    {
      ghost var s := w.State();
      w.holders := w.holders + {this};
      assert w.State().holders == s.holders[this := AsHolder()];
      assert w.State().counts == s.counts;
    }

    /** The null holder. */
    constructor Null(w: World)
      requires w.Valid()
      modifies w
      ensures w.Valid() && w.Repr() == old(w.Repr()) + {this}
      ensures w.State() == P.With(old(w.State()), this, P.NullHolder())
    {
      reference, value, onRecycled := null, None, false;
      new;
      ghost var s := old(w.State());
      assert w.State() == s && this !in s.holders;
      hide P.Inv, World.State;
      P.NullKeeps(s, this);
      Join(w);
    }

    /** Copy construction. */
    constructor Copy(other: Recyclable, w: World)
      requires w.Valid() && other in w.holders
      modifies w, w.counters
      ensures w.Valid() && w.Repr() == old(w.Repr()) + {this}
      ensures P.Known(old(w.State()), other) && w.State() == P.CopyConstruct(old(w.State()), this, other)
    {
      hide P.Inv, P.Retain;
      reference, value, onRecycled := other.reference, other.value, other.onRecycled;
      new;
      ghost var s := old(w.State());
      assert w.State() == s && this !in s.holders;
      hide World.State;
      w.Member(other);
      P.CopyKeeps(s, this, other);
      Join(w);
      Retain(w);
    }

    /** Move construction. */
    constructor Move(other: Recyclable, w: World)
      requires w.Valid() && other in w.holders
      modifies w.Repr()
      ensures w.Valid() && w.Repr() == old(w.Repr()) + {this}
      ensures P.Known(old(w.State()), other) && w.State() == P.MoveConstruct(old(w.State()), this, other)
    {
      hide P.Inv, P.Retain, P.NullAssign;
      reference, value, onRecycled := other.reference, other.value, other.onRecycled;
      new;
      ghost var s := old(w.State());
      assert w.State() == s && this !in s.holders;
      hide World.State;
      w.Member(other);
      P.CopyKeeps(s, this, other);
      Join(w);
      Retain(w);
      other.NullAssign(w);
    }

    /** The memory of a new buffer is charged to the counter. */
    static method Charge(v: P.Value, w: World)
      requires w.Closed()
      modifies w, w.water
      ensures w.Closed() && w.holders == old(w.holders) && w.counters == old(w.counters)
      ensures w.State() == P.Charge(old(w.State()), v)
    {
      ghost var s := w.State();
      if v.charged {
        w.water.Increase(v.size);
        w.levels := w.levels + [w.water.current];
      }
      assert w.State().holders == s.holders && w.State().counts == s.counts;
    }

    /** A new counter joins the references. */
    static ghost method Register(c: Counter, o: P.Origin, w: World)
      requires w.Closed() && c !in w.counters && c.count == 0
      modifies w
      ensures w.Closed() && w.holders == old(w.holders) && w.counters == old(w.counters) + {c}
      ensures var s := old(w.State());
        w.State() == s.(counts := s.counts[c := 0], origin := s.origin[c := o], made := s.made + [c])
    {
      ghost var s := w.State();
      w.counters := w.counters + {c};
      w.origin := w.origin[c := o];
      w.made := w.made + [c];
      assert w.State().holders == s.holders;
      assert w.State().counts == s.counts[c := 0];
    }

    /** A new value with its callback, charged as `Data::reset` and the `MappedData` constructor do. */
    constructor (v: P.Value, callback: bool, w: World)
      requires w.Valid() && (v.charged ==> callback)
      modifies w, w.water
      ensures reference != null && fresh(reference)
      ensures w.Valid() && w.Repr() == old(w.Repr()) + {this, reference}
      ensures w.State() == P.Create(old(w.State()), this, reference, P.Origin(v, callback))
    {
      hide P.Inv, P.Retain, P.Charge;
      var counter := new Counter();
      reference, value, onRecycled := counter, Some(v), callback;
      new;
      ghost var s := old(w.State());
      assert w.State() == s && this !in s.holders && counter !in s.counts;
      hide World.State;
      P.CreateKeeps(s, this, counter, P.Origin(v, callback));
      Charge(v, w);
      Register(counter, P.Origin(v, callback), w);
      Join(w);
      Retain(w);
    }
  }
}
