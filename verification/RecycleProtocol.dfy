/** Shared reference counting in src/common/base/Recyclable.hpp and Recyclable.cpp, with the memory
    accounting of HighWater.cpp that rests on it, as a state machine over holders (the `Recyclable`
    objects) and references (their shared counters). */
module RecycleProtocol {
  import opened Common

  /** The shared data: a buffer of a size, charged to the high-water counter or not. */
  datatype Value = Value(size: nat, charged: bool)

  /** `m_reference`, `m_value` and whether `m_onRecycled` is set. */
  datatype Holder<R> = Holder(reference: Option<R>, value: Option<Value>, callback: bool)

  /** What a reference was created with. */
  datatype Origin = Origin(value: Value, callback: bool)

  /** One run of a recycle callback: for which reference, on what. */
  datatype Recycled<R> = Recycled(reference: R, value: Option<Value>)

  /** `m_current` and `m_highWater`. */
  datatype Level = Level(current: int, peak: int)

  /** `origin`, `made` and `levels` only record what has happened: what each reference was created
      with, in what order, and every value the counter has had. */
  datatype State<H, R> = State(holders: map<H, Holder<R>>, counts: map<R, int>, log: seq<Recycled<R>>, level: Level,
                               origin: map<R, Origin>, made: seq<R>, levels: seq<int>)

  // ---------------------------------------------------------------- HighWater

  function Increase(l: Level, size: nat): Level {
    Level(l.current + size, if l.current + size > l.peak then l.current + size else l.peak)
  }

  function Decrease(l: Level, size: nat): Level {
    l.(current := l.current - size)
  }

  function Highest(levels: seq<int>): int
    requires levels != []
  {
    if |levels| == 1 then levels[0]
    else
      var before := Highest(levels[..|levels| - 1]);
      if levels[|levels| - 1] > before then levels[|levels| - 1] else before
  }

  /** The counter stands at the last of its values and remembers the highest. */
  predicate LevelOk(l: Level, levels: seq<int>) {
    levels != [] && l.current == levels[|levels| - 1] && l.peak == Highest(levels)
  }

  lemma IncreaseKeeps(l: Level, levels: seq<int>, size: nat)
    requires LevelOk(l, levels)
    ensures LevelOk(Increase(l, size), levels + [l.current + size])
  {
    assert (levels + [l.current + size])[..|levels|] == levels;
  }

  lemma DecreaseKeeps(l: Level, levels: seq<int>, size: nat)
    requires LevelOk(l, levels)
    ensures LevelOk(Decrease(l, size), levels + [l.current - size])
  {
    assert (levels + [l.current - size])[..|levels|] == levels;
    HighestBounds(levels, |levels| - 1);
  }

  /** No value was higher, and one was as high. */
  lemma {:induction false} HighestBounds(levels: seq<int>, i: nat)
    requires i < |levels|
    ensures levels[i] <= Highest(levels) && Highest(levels) in levels
  {
    if |levels| > 1 {
      HighestBounds(levels[..|levels| - 1], if i < |levels| - 1 then i else 0);
    }
  }

  // ---------------------------------------------------------------- the steps of one call

  /** `Referenced::retain`. */
  function Retain<H, R>(s: State<H, R>, h: H): (t: State<H, R>)
    requires h in s.holders && Known(s, h)
    ensures t.origin == s.origin && t.counts.Keys == s.counts.Keys && t.holders == s.holders
  {
    match s.holders[h].reference
    case None => s
    case Some(r) => s.(counts := s.counts[r := s.counts[r] + 1])
  }

  predicate Known<H, R>(s: State<H, R>, h: H)
    requires h in s.holders
  {
    s.holders[h].reference.Some? ==> s.holders[h].reference.value in s.counts
  }

  function Charge<H, R>(s: State<H, R>, v: Value): (t: State<H, R>)
    ensures t == s.(level := t.level, levels := t.levels)
  {
    if v.charged then s.(level := Increase(s.level, v.size), levels := s.levels + [s.level.current + v.size]) else s
  }

  function Uncharge<H, R>(s: State<H, R>, v: Value): State<H, R> {
    if v.charged then s.(level := Decrease(s.level, v.size), levels := s.levels + [s.level.current - v.size]) else s
  }

  /** The callback is run on the value the holder has. */
  function RunCallback<H, R>(s: State<H, R>, r: R, v: Option<Value>): State<H, R> {
    var t := s.(log := s.log + [Recycled(r, v)]);
    if v.Some? then Uncharge(t, v.value) else t
  }

  /** `Recyclable::onUnreferenced`. */
  function Unreferenced<H, R>(s: State<H, R>, h: H, r: R): State<H, R>
    requires h in s.holders
  {
    if s.holders[h].callback
    then RunCallback(s, r, s.holders[h].value).(holders := s.holders[h := s.holders[h].(callback := false)])
    else s
  }

  /** `Referenced::release`. */
  function Release<H, R>(s: State<H, R>, h: H): (t: State<H, R>)
    requires h in s.holders && Known(s, h)
    ensures t.origin == s.origin && t.counts.Keys == s.counts.Keys && t.holders.Keys == s.holders.Keys
  {
    match s.holders[h].reference
    case None => s
    case Some(r) =>
      var t := s.(counts := s.counts[r := s.counts[r] - 1]);
      if t.counts[r] == 0 then Unreferenced(t, h, r) else t
  }

  function NullHolder<R>(): Holder<R> {
    Holder(None, None, false)
  }

  function With<H, R>(s: State<H, R>, h: H, holder: Holder<R>): State<H, R> {
    s.(holders := s.holders[h := holder])
  }

  // ---------------------------------------------------------------- the operations

  /** The constructor from a value and a callback; the memory is charged by the code around it. */
  function Create<H, R>(s: State<H, R>, h: H, r: R, o: Origin): State<H, R> {
    var t := Charge(s, o.value).(counts := s.counts[r := 0], origin := s.origin[r := o], made := s.made + [r]);
    Retain(With(t, h, Holder(Some(r), Some(o.value), o.callback)), h)
  }

  /** Copy construction of `h` from `other`. */
  function CopyConstruct<H, R>(s: State<H, R>, h: H, other: H): State<H, R>
    requires other in s.holders && Known(s, other)
  {
    Retain(With(s, h, s.holders[other]), h)
  }

  /** Copy assignment: `reset(other)`, then the value and the callback. */
  function CopyAssign<H, R>(s: State<H, R>, h: H, other: H): State<H, R>
    requires h in s.holders && other in s.holders && Known(s, h) && Known(s, other)
  {
    var t := Release(Retain(s, other), h);
    With(t, h, Holder(t.holders[other].reference, t.holders[other].value, t.holders[other].callback))
  }

  /** Assignment of null. */
  function NullAssign<H, R>(s: State<H, R>, h: H): State<H, R>
    requires h in s.holders && Known(s, h)
  {
    With(Release(s, h), h, NullHolder())
  }

  /** Move construction and move assignment end by assigning null to the source. */
  function MoveConstruct<H, R>(s: State<H, R>, h: H, other: H): State<H, R>
    requires other in s.holders && Known(s, other)
  {
    NullAssign(CopyConstruct(s, h, other), other)
  }

  function MoveAssign<H, R>(s: State<H, R>, h: H, other: H): State<H, R>
    requires h in s.holders && other in s.holders && Known(s, h) && Known(s, other)
  {
    NullAssign(CopyAssign(s, h, other), other)
  }

  function Destroy<H, R>(s: State<H, R>, h: H): State<H, R>
    requires h in s.holders && Known(s, h)
  {
    var t := Release(s, h);
    t.(holders := t.holders - {h})
  }

  // ---------------------------------------------------------------- what every run keeps

  ghost function HoldersOf<H, R>(holders: map<H, Holder<R>>, r: R): set<H> {
    set h | h in holders && holders[h].reference == Some(r)
  }

  function Times<R(==)>(log: seq<Recycled<R>>, r: R): nat {
    if log == [] then 0
    else Times(log[..|log| - 1], r) + if log[|log| - 1].reference == r then 1 else 0
  }

  /** The total size of the buffers that are charged and still held. */
  function LiveSize<R(==)>(made: seq<R>, counts: map<R, int>, origin: map<R, Origin>): int
    requires forall r :: r in made ==> r in counts && r in origin
  {
    if made == [] then 0
    else
      var r := made[|made| - 1];
      LiveSize(made[..|made| - 1], counts, origin)
      + if counts[r] > 0 && origin[r].value.charged then origin[r].value.size else 0
  }

  predicate HolderOk<H, R(==)>(s: State<H, R>, h: H)
    requires h in s.holders
  {
    match s.holders[h].reference
    case None => s.holders[h] == NullHolder()
    case Some(r) =>
      && r in s.counts
      && r in s.origin
      && s.holders[h] == Holder(Some(r), Some(s.origin[r].value), s.origin[r].callback)
  }

  /** The count is the number of holders, and the callback has run if none is left. */
  ghost predicate ReferenceOk<H, R>(s: State<H, R>, r: R)
    requires r in s.counts && r in s.origin
  {
    && s.counts[r] == |HoldersOf(s.holders, r)|
    && Times(s.log, r) == (if s.counts[r] == 0 && s.origin[r].callback then 1 else 0)
    && (s.origin[r].value.charged ==> s.origin[r].callback)
  }

  predicate Distinct<R(==)>(made: seq<R>) {
    forall i, j :: 0 <= i < j < |made| ==> made[i] != made[j]
  }

  /** Every reference has been made, once. */
  ghost predicate Registered<R>(made: seq<R>, counted: set<R>, known: set<R>) {
    && counted == known
    && (forall r :: r in made ==> r in counted && r in known)
    && (forall r :: r in counted ==> r in made)
    && Distinct(made)
  }

  /** Every callback ran on the value its reference was created with. */
  ghost predicate LogOk<R>(log: seq<Recycled<R>>, origin: map<R, Origin>) {
    forall i :: 0 <= i < |log| ==> log[i].reference in origin && log[i].value == Some(origin[log[i].reference].value)
  }

  ghost predicate Inv<H, R>(s: State<H, R>) {
    && Registered(s.made, s.counts.Keys, s.origin.Keys)
    && (forall h :: h in s.holders ==> HolderOk(s, h))
    && (forall r :: r in s.counts ==> ReferenceOk(s, r))
    && LogOk(s.log, s.origin)
    && LevelOk(s.level, s.levels)
    && s.level.current == s.levels[0] + LiveSize(s.made, s.counts, s.origin)
  }

  // ---------------------------------------------------------------- counting

  lemma HoldersWithIs<H, R>(holders: map<H, Holder<R>>, h: H, holder: Holder<R>, r: R)
    ensures HoldersOf(holders[h := holder], r)
            == (HoldersOf(holders, r) - {h}) + (if holder.reference == Some(r) then {h} else {})
  {
  }

  lemma HoldersWith<H, R>(holders: map<H, Holder<R>>, h: H, holder: Holder<R>, r: R)
    ensures |HoldersOf(holders[h := holder], r)|
            == |HoldersOf(holders, r)| - (if h in HoldersOf(holders, r) then 1 else 0)
               + (if holder.reference == Some(r) then 1 else 0)
  {
    HoldersWithIs(holders, h, holder, r);
    hide HoldersOf;
  }

  lemma HoldersWithout<H, R>(holders: map<H, Holder<R>>, h: H, r: R)
    requires h in holders && holders[h].reference == None
    ensures HoldersOf(holders - {h}, r) == HoldersOf(holders, r)
  {
  }

  lemma TimesPush<R>(log: seq<Recycled<R>>, x: Recycled<R>, r: R)
    ensures Times(log + [x], r) == Times(log, r) + if x.reference == r then 1 else 0
  {
    assert (log + [x])[..|log|] == log;
  }

  lemma {:induction false} LiveSizeSame<R>(made: seq<R>, a: map<R, int>, b: map<R, int>,
                                           p: map<R, Origin>, q: map<R, Origin>)
    requires forall r :: r in made ==> r in a && r in b && r in p && r in q
    requires forall r :: r in made ==> p[r] == q[r] && (a[r] > 0 <==> b[r] > 0)
    ensures LiveSize(made, a, p) == LiveSize(made, b, q)
  {
    if made != [] {
      LiveSizeSame(made[..|made| - 1], a, b, p, q);
    }
  }

  /** The size of `r` if it is charged. */
  function Share<R(==)>(origin: map<R, Origin>, r: R): nat
    requires r in origin
  {
    if origin[r].value.charged then origin[r].value.size else 0
  }

  lemma {:induction false} LiveSizeDrop<R>(made: seq<R>, counts: map<R, int>, origin: map<R, Origin>, r: R, n: int)
    requires forall q :: q in made ==> q in counts && q in origin
    requires Distinct(made) && r in made && counts[r] > 0 >= n
    ensures LiveSize(made, counts[r := n], origin) == LiveSize(made, counts, origin) - Share(origin, r)
  {
    var last := made[|made| - 1];
    var front := made[..|made| - 1];
    if last == r {
      LiveSizeSame(front, counts, counts[r := n], origin, origin);
    } else {
      LiveSizeDrop(front, counts, origin, r, n);
    }
  }

  lemma InvHolds<H, R>(t: State<H, R>)
    requires Registered(t.made, t.counts.Keys, t.origin.Keys)
    requires forall h :: h in t.holders ==> HolderOk(t, h)
    requires forall r :: r in t.counts ==> r in t.origin && ReferenceOk(t, r)
    requires LogOk(t.log, t.origin) && LevelOk(t.level, t.levels)
    requires t.levels != [] && t.level.current == t.levels[0] + LiveSize(t.made, t.counts, t.origin)
    ensures Inv(t)
  {
  }

  lemma SomeLevel<H, R>(s: State<H, R>)
    requires Inv(s)
    ensures s.levels != []
  {
  }

  lemma MadeFacts<H, R>(s: State<H, R>)
    requires Inv(s)
    ensures Distinct(s.made) && s.counts.Keys == s.origin.Keys && Registered(s.made, s.counts.Keys, s.origin.Keys)
    ensures forall r :: r in s.made <==> r in s.counts
    ensures forall r :: r in s.made ==> r in s.origin
    ensures LevelOk(s.level, s.levels) && s.level.current == s.levels[0] + LiveSize(s.made, s.counts, s.origin)
  {
    hide LiveSize, Distinct, LevelOk, HolderOk, ReferenceOk, LogOk;
  }

  lemma HolderFacts<H, R>(s: State<H, R>)
    requires Inv(s)
    ensures LogOk(s.log, s.origin) && forall h :: h in s.holders ==> HolderOk(s, h)
  {
  }

  lemma HeldFacts<H, R>(s: State<H, R>, h: H, r: R)
    requires Inv(s) && h in s.holders && s.holders[h].reference == Some(r)
    ensures r in s.counts && r in s.origin && r in s.made && s.counts[r] > 0
    ensures s.holders[h] == Holder(Some(r), Some(s.origin[r].value), s.origin[r].callback)
    ensures s.origin[r].value.charged ==> s.origin[r].callback
  {
    hide LiveSize, Distinct, LevelOk, LogOk;
    assert HolderOk(s, h) && ReferenceOk(s, r);
    assert h in HoldersOf(s.holders, r);
  }

  // ---------------------------------------------------------------- letting go

  /** What the last release of a reference does besides the count. */
  function Ran<H, R>(s: State<H, R>, h: H, r: R, last: bool): (t: State<H, R>)
    requires h in s.holders
    ensures t.holders == s.holders && t.counts == s.counts
  {
    if last && s.holders[h].callback then RunCallback(s, r, s.holders[h].value) else s
  }

  lemma RanElsewhere<H, R>(s: State<H, R>, h: H, r: R, last: bool, counts: map<R, int>)
    requires h in s.holders
    ensures Ran(s.(counts := counts), h, r, last) == Ran(s, h, r, last).(counts := counts)
  {
  }

  lemma ReleaseThenWith<H, R>(s: State<H, R>, h: H, r: R, holder: Holder<R>)
    requires h in s.holders && s.holders[h].reference == Some(r) && r in s.counts
    ensures With(Release(s, h), h, holder)
            == With(Ran(s, h, r, s.counts[r] == 1), h, holder).(counts := s.counts[r := s.counts[r] - 1])
  {
    var unset := s.holders[h].(callback := false);
    assert s.holders[h := unset][h := holder] == s.holders[h := holder];
    RanElsewhere(s, h, r, s.counts[r] == 1, s.counts[r := s.counts[r] - 1]);
    hide RunCallback;
  }

  /** The state after a holder of `r` has let go. */
  function LetGo<H, R>(s: State<H, R>, h: H, r: R): State<H, R>
    requires h in s.holders && r in s.counts
  {
    With(Ran(s, h, r, s.counts[r] == 1), h, NullHolder()).(counts := s.counts[r := s.counts[r] - 1])
  }

  lemma NullIsNull<H, R>(s: State<H, R>, h: H)
    requires Inv(s) && h in s.holders && s.holders[h].reference == None
    ensures s.holders[h] == NullHolder()
  {
    assert HolderOk(s, h);
  }

  lemma NullAssignIs<H, R>(s: State<H, R>, h: H)
    requires Inv(s) && h in s.holders
    ensures Known(s, h)
    ensures s.holders[h].reference == None ==> NullAssign(s, h) == s
    ensures s.holders[h].reference.Some? ==> NullAssign(s, h) == LetGo(s, h, s.holders[h].reference.value)
  {
    hide Inv;
    match s.holders[h].reference {
      case None =>
        NullIsNull(s, h);
        assert s.holders[h := NullHolder()] == s.holders;
      case Some(r) =>
        HeldFacts(s, h, r);
        hide Release, Ran, With;
        ReleaseThenWith(s, h, r, NullHolder());
    }
  }

  lemma LetGoIs<H, R>(s: State<H, R>, h: H, r: R)
    requires Inv(s) && h in s.holders && s.holders[h].reference == Some(r)
    ensures r in s.counts && r in s.origin
    ensures LetGo(s, h, r).holders == s.holders[h := NullHolder()]
    ensures LetGo(s, h, r).counts == s.counts[r := s.counts[r] - 1]
    ensures LetGo(s, h, r).origin == s.origin && LetGo(s, h, r).made == s.made
    ensures LetGo(s, h, r).log == if s.counts[r] == 1 && s.origin[r].callback
                                  then s.log + [Recycled(r, Some(s.origin[r].value))] else s.log
  {
    HeldFacts(s, h, r);
    hide Inv;
  }

  lemma LetGoCounts<H, R>(s: State<H, R>, h: H, r: R, q: R)
    requires Inv(s) && h in s.holders && s.holders[h].reference == Some(r) && q in s.counts
    ensures r in s.counts && s.counts[r] > 0
    ensures q in LetGo(s, h, r).counts && q in LetGo(s, h, r).origin && ReferenceOk(LetGo(s, h, r), q)
  {
    hide Inv, LetGo, Times, HoldersOf, LevelOk, LiveSize, Distinct, Registered;
    HeldFacts(s, h, r);
    MadeFacts(s);
    CountFacts(s, q);
    LetGoIs(s, h, r);
    HoldersWith(s.holders, h, NullHolder(), q);
    HoldsIt(s, h, r, q);
    TimesPush(s.log, Recycled(r, Some(s.origin[r].value)), q);
  }

  lemma CountFacts<H, R>(s: State<H, R>, q: R)
    requires Inv(s) && q in s.counts
    ensures q in s.origin && ReferenceOk(s, q)
  {
    hide ReferenceOk, HolderOk, LogOk, LevelOk, LiveSize, Distinct;
  }

  lemma HoldsIt<H, R>(s: State<H, R>, h: H, r: R, q: R)
    requires h in s.holders && s.holders[h].reference == Some(r)
    ensures h in HoldersOf(s.holders, q) <==> q == r
  {
  }

  lemma LetGoLive<H, R>(s: State<H, R>, h: H, r: R)
    requires Inv(s) && h in s.holders && s.holders[h].reference == Some(r)
    ensures r in s.counts && r in s.origin && s.counts[r := s.counts[r] - 1].Keys == s.counts.Keys
    ensures LiveSize(s.made, s.counts[r := s.counts[r] - 1], s.origin)
            == LiveSize(s.made, s.counts, s.origin) - (if s.counts[r] == 1 then Share(s.origin, r) else 0)
    ensures s.origin[r].value.charged ==> s.origin[r].callback
  {
    hide *;
    HeldFacts(s, h, r);
    MadeFacts(s);
    var n := s.counts[r] - 1;
    if n == 0 {
      LiveSizeDrop(s.made, s.counts, s.origin, r, n);
    } else {
      LiveSizeSame(s.made, s.counts, s.counts[r := n], s.origin, s.origin);
    }
  }

  lemma LevelNotEmpty(l: Level, levels: seq<int>)
    requires LevelOk(l, levels)
    ensures levels != []
  {
  }

  lemma LetGoLevel<H, R>(s: State<H, R>, h: H, r: R)
    requires Inv(s) && h in s.holders && s.holders[h].reference == Some(r)
    ensures r in s.counts
    ensures var t := LetGo(s, h, r);
      && t.counts.Keys == s.counts.Keys && t.origin == s.origin && t.made == s.made
      && LevelOk(t.level, t.levels) && t.levels[0] == s.levels[0]
      && t.level.current == t.levels[0] + LiveSize(t.made, t.counts, t.origin)
  {
    HeldFacts(s, h, r);
    MadeFacts(s);
    LetGoLive(s, h, r);
    DecreaseKeeps(s.level, s.levels, s.origin[r].value.size);
    LevelNotEmpty(s.level, s.levels);
    hide Inv, LevelOk, LiveSize;
  }

  lemma LetGoRest<H, R>(s: State<H, R>, h: H, r: R)
    requires Inv(s) && h in s.holders && s.holders[h].reference == Some(r)
    ensures r in s.counts
    ensures var t := LetGo(s, h, r); LogOk(t.log, t.origin) && forall g :: g in t.holders ==> HolderOk(t, g)
  {
    hide Inv, LetGo;
    HolderFacts(s);
    LetGoIs(s, h, r);
    var t := LetGo(s, h, r);
    forall g | g in t.holders ensures HolderOk(t, g) {
      assert g != h ==> HolderOk(s, g);
    }
  }

  lemma NullAssignKeeps<H, R>(s: State<H, R>, h: H)
    requires Inv(s) && h in s.holders
    ensures Known(s, h) && Inv(NullAssign(s, h)) && NullAssign(s, h).levels[0] == s.levels[0]
  {
    hide *;
    NullAssignIs(s, h);
    if s.holders[h].reference.Some? {
      var r := s.holders[h].reference.value;
      HeldFacts(s, h, r);
      MadeFacts(s);
      var t := LetGo(s, h, r);
      LetGoLevel(s, h, r);
      LetGoRest(s, h, r);
      LevelNotEmpty(t.level, t.levels);
      forall q | q in t.counts ensures q in t.origin && ReferenceOk(t, q) {
        assert q in t.counts.Keys;
        LetGoCounts(s, h, r, q);
      }
      InvHolds(t);
    } else {
      SomeLevel(s);
    }
  }

  // ---------------------------------------------------------------- taking hold

  lemma CopyCounts<H, R>(s: State<H, R>, h: H, other: H, q: R)
    requires Inv(s) && other in s.holders && (h in s.holders ==> s.holders[h].reference == None) && q in s.counts
    ensures Known(s, other) && q in CopyConstruct(s, h, other).counts && q in s.origin
    ensures ReferenceOk(CopyConstruct(s, h, other), q)
  {
    assert HolderOk(s, other) && ReferenceOk(s, q);
    if s.holders[other].reference.Some? {
      HeldFacts(s, other, s.holders[other].reference.value);
    }
    hide Inv;
    HoldersWith(s.holders, h, s.holders[other], q);
  }

  lemma CopyLevel<H, R>(s: State<H, R>, h: H, other: H)
    requires Inv(s) && other in s.holders
    ensures Known(s, other)
    ensures var t := CopyConstruct(s, h, other);
      && t == s.(holders := t.holders, counts := t.counts) && t.counts.Keys == s.counts.Keys
      && (forall r :: r in s.made ==> r in t.counts && r in s.origin)
      && LiveSize(s.made, t.counts, s.origin) == LiveSize(s.made, s.counts, s.origin)
  {
    hide Inv, LiveSize, LevelOk, Registered, Distinct;
    MadeFacts(s);
    if s.holders[other].reference.Some? {
      var r := s.holders[other].reference.value;
      HeldFacts(s, other, r);
      LiveSizeSame(s.made, s.counts, s.counts[r := s.counts[r] + 1], s.origin, s.origin);
    }
  }

  lemma CopyKeeps<H, R>(s: State<H, R>, h: H, other: H)
    requires Inv(s) && other in s.holders && (h in s.holders ==> s.holders[h].reference == None)
    ensures Known(s, other) && Inv(CopyConstruct(s, h, other))
    ensures CopyConstruct(s, h, other).levels == s.levels
    ensures CopyConstruct(s, h, other).holders == s.holders[h := s.holders[other]]
  {
    CopyLevel(s, h, other);
    var t := CopyConstruct(s, h, other);
    hide LiveSize, ReferenceOk, LevelOk, Distinct;
    forall q | q in t.counts ensures ReferenceOk(t, q) {
      CopyCounts(s, h, other, q);
    }
    forall g | g in t.holders ensures HolderOk(t, g) {
      assert HolderOk(s, if g == h then other else g);
    }
  }

  lemma NullKeeps<H, R>(s: State<H, R>, h: H)
    requires Inv(s) && h !in s.holders
    ensures Inv(With(s, h, NullHolder()))
  {
    var t := With(s, h, NullHolder());
    hide LiveSize, LevelOk, Distinct, LogOk;
    forall q | q in t.counts ensures ReferenceOk(t, q) {
      assert ReferenceOk(s, q);
      HoldersWith(s.holders, h, NullHolder(), q);
    }
    forall g | g in t.holders ensures HolderOk(t, g) {
      assert g != h ==> HolderOk(s, g);
    }
  }

  lemma CreateCounts<H, R>(s: State<H, R>, h: H, r: R, o: Origin, q: R)
    requires Inv(s) && h !in s.holders && r !in s.counts && (o.value.charged ==> o.callback) && (q == r || q in s.counts)
    ensures q in Create(s, h, r, o).counts && q in Create(s, h, r, o).origin && ReferenceOk(Create(s, h, r, o), q)
  {
    HoldersWith(s.holders, h, Holder(Some(r), Some(o.value), o.callback), q);
    if q == r {
      NeverHeld(s, r);
    } else {
      assert ReferenceOk(s, q);
    }
  }

  lemma {:induction false} NeverRecycled<R>(log: seq<Recycled<R>>, origin: map<R, Origin>, r: R)
    requires LogOk(log, origin) && r !in origin
    ensures Times(log, r) == 0
  {
    if log != [] {
      NeverRecycled(log[..|log| - 1], origin, r);
    }
  }

  lemma NeverHeld<H, R>(s: State<H, R>, r: R)
    requires Inv(s) && r !in s.counts
    ensures HoldersOf(s.holders, r) == {} && Times(s.log, r) == 0
  {
    MadeFacts(s);
    NeverRecycled(s.log, s.origin, r);
    forall h | h in s.holders ensures s.holders[h].reference != Some(r) {
      assert HolderOk(s, h);
    }
  }

  lemma RegisteredGrow<R>(made: seq<R>, counts: map<R, int>, origin: map<R, Origin>, r: R, o: Origin)
    requires Registered(made, counts.Keys, origin.Keys) && r !in counts
    ensures Registered(made + [r], counts[r := 1].Keys, origin[r := o].Keys)
  {
    assert counts[r := 1].Keys == counts.Keys + {r} && origin[r := o].Keys == origin.Keys + {r};
    forall i, j | 0 <= i < j < |made + [r]| ensures (made + [r])[i] != (made + [r])[j] {
      assert made[i] in made;
    }
  }

  lemma LiveSizeGrow<R>(made: seq<R>, counts: map<R, int>, origin: map<R, Origin>, r: R, o: Origin)
    requires (forall q :: q in made ==> q in counts && q in origin) && r !in made
    ensures LiveSize(made + [r], counts[r := 1], origin[r := o])
            == LiveSize(made, counts, origin) + if o.value.charged then o.value.size else 0
  {
    assert (made + [r])[..|made|] == made;
    LiveSizeSame(made, counts, counts[r := 1], origin, origin[r := o]);
  }

  lemma CreateIs<H, R>(s: State<H, R>, h: H, r: R, o: Origin)
    ensures Create(s, h, r, o) == Charge(s, o.value).(
      holders := s.holders[h := Holder(Some(r), Some(o.value), o.callback)], counts := s.counts[r := 1],
      origin := s.origin[r := o], made := s.made + [r])
  {
    assert s.counts[r := 0][r := 1] == s.counts[r := 1];
  }

  lemma CreateLevel<H, R>(s: State<H, R>, h: H, r: R, o: Origin)
    requires Inv(s) && r !in s.counts
    ensures var t := Create(s, h, r, o);
      && Registered(t.made, t.counts.Keys, t.origin.Keys)
      && LevelOk(t.level, t.levels) && t.levels[0] == s.levels[0]
      && t.level.current == t.levels[0] + LiveSize(t.made, t.counts, t.origin)
  {
    hide Inv, LevelOk, Create, LiveSize, Distinct, Registered;
    MadeFacts(s);
    LevelNotEmpty(s.level, s.levels);
    IncreaseKeeps(s.level, s.levels, o.value.size);
    CreateIs(s, h, r, o);
    RegisteredGrow(s.made, s.counts, s.origin, r, o);
    LiveSizeGrow(s.made, s.counts, s.origin, r, o);
    assert forall q :: q in s.made + [r] ==> q in s.counts[r := 1] && q in s.origin[r := o];
  }

  lemma CreateLog<H, R>(s: State<H, R>, h: H, r: R, o: Origin)
    requires Inv(s) && h !in s.holders && r !in s.counts
    ensures var t := Create(s, h, r, o);
      && t.counts.Keys == s.counts.Keys + {r}
      && LogOk(t.log, t.origin) && forall g :: g in t.holders ==> HolderOk(t, g)
  {
    hide Inv, Create;
    MadeFacts(s);
    HolderFacts(s);
    CreateIs(s, h, r, o);
    var t := Create(s, h, r, o);
    forall g | g in t.holders ensures HolderOk(t, g) {
      assert g != h ==> HolderOk(s, g);
    }
  }

  lemma CreateKeeps<H, R>(s: State<H, R>, h: H, r: R, o: Origin)
    requires Inv(s) && h !in s.holders && r !in s.counts && (o.value.charged ==> o.callback)
    ensures Inv(Create(s, h, r, o)) && Create(s, h, r, o).levels[0] == s.levels[0]
  {
    hide *;
    var t := Create(s, h, r, o);
    CreateLevel(s, h, r, o);
    CreateLog(s, h, r, o);
    LevelNotEmpty(t.level, t.levels);
    forall q | q in t.counts ensures q in t.origin && ReferenceOk(t, q) {
      assert q in t.counts.Keys;
      CreateCounts(s, h, r, o, q);
    }
    InvHolds(t);
  }

  // ---------------------------------------------------------------- assignment

  lemma BothHold<H, R>(s: State<H, R>, h: H, other: H, r: R)
    requires Inv(s) && h in s.holders && other in s.holders && h != other
    requires s.holders[h].reference == s.holders[other].reference == Some(r)
    ensures r in s.counts && s.counts[r] > 1
  {
    HeldFacts(s, h, r);
    assert ReferenceOk(s, r);
    assert {h, other} <= HoldersOf(s.holders, r);
    Fewer({h, other}, HoldersOf(s.holders, r));
  }

  lemma Fewer<H>(a: set<H>, b: set<H>)
    requires a <= b
    ensures |a| <= |b|
  {
    assert b == a + (b - a);
  }

  /** Assigning a holder to itself changes nothing. */
  lemma SelfAssign<H, R>(s: State<H, R>, h: H)
    requires Inv(s) && h in s.holders
    ensures Known(s, h) && CopyAssign(s, h, h) == s
  {
    assert HolderOk(s, h);
    var holder := s.holders[h];
    assert s.holders[h := holder] == s.holders;
    if holder.reference.Some? {
      var r := holder.reference.value;
      HeldFacts(s, h, r);
      hide Inv;
      assert s.counts[r := s.counts[r] + 1][r := s.counts[r]] == s.counts;
    }
  }

  /** Assigning from another holder is letting go of the old value and taking a copy of the new. */
  lemma CopyAssignIs<H, R>(s: State<H, R>, h: H, other: H)
    requires Inv(s) && h in s.holders && other in s.holders && h != other
    ensures Known(s, h) && Known(s, other)
    ensures other in NullAssign(s, h).holders && Known(NullAssign(s, h), other)
    ensures CopyAssign(s, h, other) == CopyConstruct(NullAssign(s, h), h, other)
  {
    hide Inv;
    NoneEverDangles(s);
    var holder := s.holders[other];
    if s.holders[h].reference == None {
      NullIsNull(s, h);
      CopyAssignNull(s, h, other);
    } else {
      var r := s.holders[h].reference.value;
      HeldFacts(s, h, r);
      if holder.reference == None {
        CopyAssignNone(s, h, other, r);
      } else {
        var q := holder.reference.value;
        HeldFacts(s, other, q);
        if q == r { BothHold(s, h, other, r); }
        hide CopyAssign, CopyConstruct, NullAssign;
        CopyAssignFrom(s, h, other, r, q);
      }
    }
  }

  lemma CopyAssignNull<H, R>(s: State<H, R>, h: H, other: H)
    requires h in s.holders && other in s.holders && h != other && s.holders[h] == NullHolder()
    requires Known(s, h) && Known(s, other)
    ensures other in NullAssign(s, h).holders && Known(NullAssign(s, h), other)
    ensures CopyAssign(s, h, other) == CopyConstruct(NullAssign(s, h), h, other)
  {
    assert s.holders[h := NullHolder()] == s.holders;
  }

  lemma CopyAssignNone<H, R>(s: State<H, R>, h: H, other: H, r: R)
    requires h in s.holders && other in s.holders && h != other && r in s.counts
    requires s.holders[h].reference == Some(r) && s.holders[other].reference == None
    requires Known(s, h) && Known(s, other)
    ensures other in NullAssign(s, h).holders && Known(NullAssign(s, h), other)
    ensures CopyAssign(s, h, other) == CopyConstruct(NullAssign(s, h), h, other)
  {
    var holder := s.holders[other];
    ReleaseLeaves(s, h, other);
    ReleaseThenWith(s, h, r, NullHolder());
    ReleaseThenWith(s, h, r, holder);
    assert s.holders[h := NullHolder()][h := holder] == s.holders[h := holder];
    hide Release, Ran;
  }

  lemma CopyAssignFrom<H, R>(s: State<H, R>, h: H, other: H, r: R, q: R)
    requires h in s.holders && other in s.holders && h != other && r in s.counts && q in s.counts
    requires s.holders[h].reference == Some(r) && s.holders[other].reference == Some(q) && (q == r ==> s.counts[r] > 1)
    requires Known(s, h) && Known(s, other)
    ensures other in NullAssign(s, h).holders && Known(NullAssign(s, h), other)
    ensures CopyAssign(s, h, other) == CopyConstruct(NullAssign(s, h), h, other)
  {
    hide *;
    AssignedSide(s, h, other, r, q);
    ConstructedSide(s, h, other, r, q);
    if q == r {
      SameCounts(s.counts, r);
    } else {
      OtherCounts(s.counts, r, q);
    }
  }

  lemma AssignedSide<H, R>(s: State<H, R>, h: H, other: H, r: R, q: R)
    requires h in s.holders && other in s.holders && h != other && r in s.counts && q in s.counts
    requires s.holders[h].reference == Some(r) && s.holders[other].reference == Some(q) && (q == r ==> s.counts[r] > 1)
    requires Known(s, h) && Known(s, other)
    ensures var counts := s.counts[q := s.counts[q] + 1];
      CopyAssign(s, h, other) == With(Ran(s, h, r, s.counts[r] == 1), h, s.holders[other]).(counts := counts[r := counts[r] - 1])
  {
    var kept := s.(counts := s.counts[q := s.counts[q] + 1]);
    assert kept == Retain(s, other);
    CopyAssignKept(s, h, other, kept);
    hide CopyAssign, Release, RunCallback;
    ReleaseThenWith(kept, h, r, s.holders[other]);
    RanElsewhere(s, h, r, s.counts[r] == 1, kept.counts);
  }

  lemma ConstructedSide<H, R>(s: State<H, R>, h: H, other: H, r: R, q: R)
    requires h in s.holders && other in s.holders && h != other && r in s.counts && q in s.counts
    requires s.holders[h].reference == Some(r) && s.holders[other].reference == Some(q) && (q == r ==> s.counts[r] > 1)
    requires Known(s, h)
    ensures other in NullAssign(s, h).holders && Known(NullAssign(s, h), other)
    ensures var counts := s.counts[r := s.counts[r] - 1];
      CopyConstruct(NullAssign(s, h), h, other)
      == With(Ran(s, h, r, s.counts[r] == 1), h, s.holders[other]).(counts := counts[q := counts[q] + 1])
  {
    hide Release, Ran;
    ReleaseThenWith(s, h, r, NullHolder());
    assert s.holders[h := NullHolder()][h := s.holders[other]] == s.holders[h := s.holders[other]];
  }

  lemma CopyAssignKept<H, R>(s: State<H, R>, h: H, other: H, kept: State<H, R>)
    requires h in s.holders && other in s.holders && h != other
    requires Known(s, h) && Known(s, other) && kept == Retain(s, other)
    ensures CopyAssign(s, h, other) == With(Release(kept, h), h, s.holders[other])
  {
    ReleaseLeaves(kept, h, other);
    hide Release;
  }

  lemma ReleaseLeaves<H, R>(s: State<H, R>, h: H, other: H)
    requires h in s.holders && other in s.holders && h != other && Known(s, h)
    ensures other in Release(s, h).holders && Release(s, h).holders[other] == s.holders[other]
  {
  }

  lemma SameCounts<R>(counts: map<R, int>, r: R)
    requires r in counts
    ensures counts[r := counts[r] + 1][r := counts[r]] == counts[r := counts[r] - 1][r := counts[r]]
  {
  }

  lemma OtherCounts<R>(counts: map<R, int>, r: R, q: R)
    requires r in counts && q in counts && r != q
    ensures counts[q := counts[q] + 1][r := counts[r] - 1] == counts[r := counts[r] - 1][q := counts[q] + 1]
  {
  }

  lemma NullAssignHolders<H, R>(s: State<H, R>, h: H)
    requires Inv(s) && h in s.holders
    ensures Known(s, h) && NullAssign(s, h).holders == s.holders[h := NullHolder()]
    ensures NullAssign(s, h).holders[h].reference == None
  {
    NullAssignIs(s, h);
    assert HolderOk(s, h);
    hide Inv;
  }

  lemma CopyAssignKeeps<H, R>(s: State<H, R>, h: H, other: H)
    requires Inv(s) && h in s.holders && other in s.holders
    ensures Known(s, h) && Known(s, other)
    ensures Inv(CopyAssign(s, h, other)) && CopyAssign(s, h, other).levels[0] == s.levels[0]
    ensures CopyAssign(s, h, other).holders == s.holders[h := s.holders[other]]
  {
    hide *;
    if h == other {
      SelfAssign(s, h);
      assert s.holders[h := s.holders[h]] == s.holders;
      SomeLevel(s);
    } else {
      CopyAssignIs(s, h, other);
      NullAssignKeeps(s, h);
      var t := NullAssign(s, h);
      NullAssignHolders(s, h);
      CopyKeeps(t, h, other);
      assert s.holders[h := NullHolder()][h := s.holders[other]] == s.holders[h := s.holders[other]];
    }
  }

  lemma DestroyIs<H, R>(s: State<H, R>, h: H)
    requires h in s.holders && Known(s, h)
    ensures Destroy(s, h) == NullAssign(s, h).(holders := s.holders - {h})
  {
    assert Release(s, h).holders - {h} == s.holders - {h};
  }

  lemma DestroyKeeps<H, R>(s: State<H, R>, h: H)
    requires Inv(s) && h in s.holders
    ensures Known(s, h) && Inv(Destroy(s, h)) && Destroy(s, h).levels[0] == s.levels[0]
  {
    hide Inv, NullAssign, Destroy;
    NullAssignKeeps(s, h);
    NullAssignHolders(s, h);
    DestroyIs(s, h);
    assert s.holders[h := NullHolder()] - {h} == s.holders - {h};
    WithoutKeeps(NullAssign(s, h), h);
  }

  lemma WithoutKeeps<H, R>(s: State<H, R>, h: H)
    requires Inv(s) && h in s.holders && s.holders[h].reference == None
    ensures Inv(s.(holders := s.holders - {h}))
  {
    var t := s.(holders := s.holders - {h});
    hide LiveSize, LevelOk, Distinct, LogOk, HoldersOf;
    forall q | q in t.counts ensures ReferenceOk(t, q) {
      assert ReferenceOk(s, q);
      HoldersWithout(s.holders, h, q);
    }
    forall g | g in t.holders ensures HolderOk(t, g) {
      assert HolderOk(s, g);
    }
  }

  // ---------------------------------------------------------------- runs

  datatype Event<H, R> =
    | Created(h: H, reference: R, origin: Origin)
    | CreatedNull(h: H)
    | Copied(h: H, other: H)
    | Moved(h: H, other: H)
    | Assigned(h: H, other: H)
    | MoveAssigned(h: H, other: H)
    | Nulled(h: H)
    | Destroyed(h: H)

  /** New holders and references are new, memory is charged only with the callback that gives it
      back, and the other operands exist. */
  predicate Callable<H(==), R(==)>(s: State<H, R>, e: Event<H, R>) {
    match e
    case Created(h, r, o) => h !in s.holders && r !in s.counts && (o.value.charged ==> o.callback)
    case CreatedNull(h) => h !in s.holders
    case Copied(h, other) => h !in s.holders && other in s.holders
    case Moved(h, other) => h !in s.holders && other in s.holders
    case Assigned(h, other) => h in s.holders && other in s.holders
    case MoveAssigned(h, other) => h in s.holders && other in s.holders
    case Nulled(h) => h in s.holders
    case Destroyed(h) => h in s.holders
  }

  /** No operand's reference dangles. */
  predicate NoneDangles<H(==), R(==)>(s: State<H, R>) {
    forall h :: h in s.holders ==> Known(s, h)
  }

  lemma NoneEverDangles<H, R>(s: State<H, R>)
    requires Inv(s)
    ensures NoneDangles(s)
  {
    forall h | h in s.holders ensures Known(s, h) {
      assert HolderOk(s, h);
    }
  }

  lemma MoveKeeps<H, R>(s: State<H, R>, h: H, other: H)
    requires Inv(s) && h !in s.holders && other in s.holders
    ensures Known(s, other) && Known(CopyConstruct(s, h, other), other)
    ensures Inv(MoveConstruct(s, h, other)) && MoveConstruct(s, h, other).levels[0] == s.levels[0]
  {
    hide HolderOk, ReferenceOk, LogOk, LevelOk, LiveSize, Registered, NullAssign, CopyConstruct;
    CopyKeeps(s, h, other);
    NullAssignKeeps(CopyConstruct(s, h, other), other);
  }

  lemma MoveAssignKeeps<H, R>(s: State<H, R>, h: H, other: H)
    requires Inv(s) && h in s.holders && other in s.holders
    ensures Known(s, h) && Known(s, other) && Known(CopyAssign(s, h, other), other)
    ensures Inv(MoveAssign(s, h, other)) && MoveAssign(s, h, other).levels[0] == s.levels[0]
  {
    hide HolderOk, ReferenceOk, LogOk, LevelOk, LiveSize, Registered, NullAssign, CopyAssign;
    CopyAssignKeeps(s, h, other);
    NullAssignKeeps(CopyAssign(s, h, other), other);
  }

  function Step<H(==), R(==)>(s: State<H, R>, e: Event<H, R>): State<H, R>
    requires Callable(s, e) && NoneDangles(s)
  {
    match e
    case Created(h, r, o) => Create(s, h, r, o)
    case CreatedNull(h) => With(s, h, NullHolder())
    case Copied(h, other) => CopyConstruct(s, h, other)
    case Moved(h, other) => MoveConstruct(s, h, other)
    case Assigned(h, other) => CopyAssign(s, h, other)
    case MoveAssigned(h, other) => MoveAssign(s, h, other)
    case Nulled(h) => NullAssign(s, h)
    case Destroyed(h) => Destroy(s, h)
  }

  lemma StepKeeps<H, R>(s: State<H, R>, e: Event<H, R>)
    requires Inv(s) && Callable(s, e)
    ensures NoneDangles(s) && Inv(Step(s, e)) && Step(s, e).levels[0] == s.levels[0]
  {
    NoneEverDangles(s);
    SomeLevel(s);
    hide Inv, Create, CopyConstruct, MoveConstruct, CopyAssign, MoveAssign, NullAssign, Destroy;
    match e
    case Created(h, r, o) => CreateKeeps(s, h, r, o);
    case CreatedNull(h) => NullKeeps(s, h);
    case Copied(h, other) => CopyKeeps(s, h, other);
    case Moved(h, other) => MoveKeeps(s, h, other);
    case Assigned(h, other) => CopyAssignKeeps(s, h, other);
    case MoveAssigned(h, other) => MoveAssignKeeps(s, h, other);
    case Nulled(h) => NullAssignKeeps(s, h);
    case Destroyed(h) => DestroyKeeps(s, h);
  }

  /** Which holders there are after an operation, and what each holds: a new one holds what it was made from, a
      copy what its source holds, and a move leaves its source null. */
  function HoldersAfter<H(==), R>(s: State<H, R>, e: Event<H, R>): map<H, Holder<R>>
    requires Callable(s, e)
  {
    match e
    case Created(h, r, o) => s.holders[h := Holder(Some(r), Some(o.value), o.callback)]
    case CreatedNull(h) => s.holders[h := NullHolder()]
    case Copied(h, other) => s.holders[h := s.holders[other]]
    case Moved(h, other) => s.holders[h := s.holders[other]][other := NullHolder()]
    case Assigned(h, other) => s.holders[h := s.holders[other]]
    case MoveAssigned(h, other) => s.holders[h := s.holders[other]][other := NullHolder()]
    case Nulled(h) => s.holders[h := NullHolder()]
    case Destroyed(h) => s.holders - {h}
  }

  lemma StepHolders<H, R>(s: State<H, R>, e: Event<H, R>)
    requires Inv(s) && Callable(s, e)
    ensures NoneDangles(s) && Step(s, e).holders == HoldersAfter(s, e)
  {
    NoneEverDangles(s);
    hide Inv, CopyConstruct, CopyAssign, NullAssign, Destroy;
    match e
    case Created(h, r, o) =>
    case CreatedNull(h) =>
    case Copied(h, other) => CopyKeeps(s, h, other);
    case Moved(h, other) =>
      CopyKeeps(s, h, other);
      NullAssignHolders(CopyConstruct(s, h, other), other);
    case Assigned(h, other) => CopyAssignKeeps(s, h, other);
    case MoveAssigned(h, other) =>
      CopyAssignKeeps(s, h, other);
      NullAssignHolders(CopyAssign(s, h, other), other);
    case Nulled(h) => NullAssignHolders(s, h);
    case Destroyed(h) => DestroyIs(s, h);
  }

  /** A move changes no count but that of the value its target lets go. */
  lemma MoveCounts<H, R>(s: State<H, R>, e: Event<H, R>, r: R)
    requires Inv(s) && Callable(s, e) && (e.Moved? || e.MoveAssigned?) && r in s.counts
    ensures NoneDangles(s) && r in Step(s, e).counts
    ensures Step(s, e).counts[r] ==
      s.counts[r] - if e.MoveAssigned? && s.holders[e.h].reference == Some(r) then 1 else 0
  {
    hide Inv, Step, NoneDangles, HoldersOf, Callable;
    StepHolders(s, e);
    StepKeeps(s, e);
    MovedKeys(s, e);
    var t := Step(s, e);
    HeldBy(s, r);
    HeldBy(t, r);
    MovedHolders(s, e, r);
  }

  lemma HeldBy<H, R>(s: State<H, R>, r: R)
    requires Inv(s) && r in s.counts
    ensures s.counts[r] == |HoldersOf(s.holders, r)|
  {
    assert ReferenceOk(s, r);
  }

  lemma MovedHolders<H, R>(s: State<H, R>, e: Event<H, R>, r: R)
    requires Callable(s, e) && (e.Moved? || e.MoveAssigned?)
    ensures |HoldersOf(HoldersAfter(s, e), r)| ==
      |HoldersOf(s.holders, r)| - if e.MoveAssigned? && s.holders[e.h].reference == Some(r) then 1 else 0
  {
    HoldersWith(s.holders, e.h, s.holders[e.other], r);
    HoldersWith(s.holders[e.h := s.holders[e.other]], e.other, NullHolder(), r);
  }

  lemma MovedKeys<H, R>(s: State<H, R>, e: Event<H, R>)
    requires Inv(s) && Callable(s, e) && (e.Moved? || e.MoveAssigned?)
    ensures NoneDangles(s) && Step(s, e).counts.Keys == s.counts.Keys
  {
    NoneEverDangles(s);
    hide Inv;
    if e.Moved? { CopyKeeps(s, e.h, e.other); } else { CopyAssignKeeps(s, e.h, e.other); }
  }

  function Initial<H, R>(level: int): State<H, R> {
    State(map[], map[], [], Level(level, level), map[], [], [level])
  }

  /** A run of operations; what no caller can do is not done. */
  function Run<H(==), R(==)>(s: State<H, R>, run: seq<Event<H, R>>): State<H, R> {
    if run == [] then s
    else
      var before := Run(s, run[..|run| - 1]);
      var e := run[|run| - 1];
      if Callable(before, e) && NoneDangles(before) then Step(before, e) else before
  }

  lemma InitialInv<H, R>(level: int)
    ensures Inv<H, R>(Initial(level))
  {
  }

  lemma {:induction false} RunKeeps<H, R>(level: int, run: seq<Event<H, R>>)
    ensures Inv(Run(Initial(level), run)) && NoneDangles(Run(Initial(level), run))
    ensures Run(Initial(level), run).levels[0] == level
  {
    if run == [] {
      InitialInv<H, R>(level);
    } else {
      RunKeeps(level, run[..|run| - 1]);
      var before := Run(Initial(level), run[..|run| - 1]);
      if Callable(before, run[|run| - 1]) {
        hide Inv, NoneDangles, Callable, Step;
        StepKeeps(before, run[|run| - 1]);
      }
    }
    hide Inv, Run;
    NoneEverDangles(Run(Initial(level), run));
  }

  // ---------------------------------------------------------------- what the runs promise

  /** After any run, a callback has run once for a reference that no holder has any more, and not at
      all while one has it; a reference made without a callback has none. */
  lemma RecycledExactlyOnce<H, R>(level: int, run: seq<Event<H, R>>, r: R)
    requires r in Run(Initial(level), run).counts
    ensures var s := Run(Initial(level), run);
      && r in s.origin
      && Times(s.log, r) == (if HoldersOf(s.holders, r) == {} && s.origin[r].callback then 1 else 0)
  {
    RunKeeps(level, run);
    var s := Run(Initial(level), run);
    assert ReferenceOk(s, r);
    assert HoldersOf(s.holders, r) == {} <==> |HoldersOf(s.holders, r)| == 0;
    hide Run;
  }

  lemma StepRecords<H, R>(s: State<H, R>, e: Event<H, R>, r: R)
    requires Callable(s, e) && NoneDangles(s) && r in s.counts && r in s.origin
    ensures r in Step(s, e).counts && r in Step(s, e).origin && Step(s, e).origin[r] == s.origin[r]
  {
    hide Retain, Release;
    assert forall h :: h in s.holders ==> Known(s, h);
  }

  lemma HeldOrNot<H, R>(s: State<H, R>, r: R)
    requires Inv(s) && r in s.counts
    ensures r in s.origin
    ensures Times(s.log, r) == (if HoldersOf(s.holders, r) == {} && s.origin[r].callback then 1 else 0)
  {
    assert ReferenceOk(s, r);
    assert HoldersOf(s.holders, r) == {} <==> |HoldersOf(s.holders, r)| == 0;
  }

  /** The callback runs in the very operation that takes the last holder away. */
  lemma RecycledWithTheLast<H, R>(s: State<H, R>, e: Event<H, R>, r: R)
    requires Inv(s) && Callable(s, e) && r in s.counts
    ensures NoneDangles(s) && r in s.origin
    ensures Times(Step(s, e).log, r) == Times(s.log, r) + 1
            <==> s.origin[r].callback && HoldersOf(s.holders, r) != {} && HoldersOf(Step(s, e).holders, r) == {}
  {
    hide *;
    HeldOrNot(s, r);
    StepKeeps(s, e);
    StepRecords(s, e, r);
    HeldOrNot(Step(s, e), r);
  }

  /** `WCTAssert((*m_reference) > 0)` before each decrement. */
  predicate ReleaseSound<H(==), R(==)>(s: State<H, R>, h: H)
    requires h in s.holders && Known(s, h)
  {
    s.holders[h].reference.Some? ==> s.counts[s.holders[h].reference.value] > 0
  }

  /** At every release in every operation of every run the count is positive: of destruction and null
      assignment, of copy assignment, and of the source in move assignment and in the move construction
      of a new holder. */
  lemma ReleasesSound<H, R>(level: int, run: seq<Event<H, R>>, h: H, other: H, g: H)
    requires h in Run(Initial(level), run).holders && other in Run(Initial(level), run).holders
    ensures var s := Run(Initial(level), run);
      && Known(s, h) && Known(s, other) && ReleaseSound(s, h) && ReleaseSound(Retain(s, other), h)
      && Known(CopyAssign(s, h, other), other) && ReleaseSound(CopyAssign(s, h, other), other)
      && (g !in s.holders ==>
            && Known(CopyConstruct(s, g, other), other)
            && ReleaseSound(CopyConstruct(s, g, other), other))
  {
    RunKeeps(level, run);
    var s := Run(Initial(level), run);
    hide Run, Inv;
    SoundNow(s, h);
    SoundNow(s, other);
    CopyAssignKeeps(s, h, other);
    hide CopyAssign;
    SoundNow(CopyAssign(s, h, other), other);
    if g !in s.holders {
      CopyKeeps(s, g, other);
      hide CopyConstruct;
      SoundNow(CopyConstruct(s, g, other), other);
    }
  }

  lemma SoundNow<H, R>(s: State<H, R>, h: H)
    requires Inv(s) && h in s.holders
    ensures Known(s, h) && ReleaseSound(s, h)
  {
    NoneEverDangles(s);
    if s.holders[h].reference.Some? {
      HeldFacts(s, h, s.holders[h].reference.value);
    }
  }

  /** After any run the counter stands at its initial value plus the sizes of the charged buffers
      that are still held, and its peak is the highest value it has had. */
  lemma LevelConserved<H, R>(level: int, run: seq<Event<H, R>>)
    ensures var s := Run(Initial(level), run);
      && (forall r :: r in s.made ==> r in s.counts && r in s.origin)
      && s.level.current == level + LiveSize(s.made, s.counts, s.origin)
      && s.levels != [] && s.levels[0] == level && s.level.peak == Highest(s.levels)
      && (forall i :: 0 <= i < |s.levels| ==> s.levels[i] <= s.level.peak) && s.level.peak in s.levels
  {
    RunKeeps(level, run);
    var s := Run(Initial(level), run);
    hide Run;
    MadeFacts(s);
    SomeLevel(s);
    hide Inv;
    HighestBounds(s.levels, 0);
    forall i | 0 <= i < |s.levels| ensures s.levels[i] <= s.level.peak {
      HighestBounds(s.levels, i);
    }
  }

  /** When no holder is left everything has been recycled and the counter is back. */
  lemma NothingLeaks<H, R>(level: int, run: seq<Event<H, R>>)
    requires Run(Initial<H, R>(level), run).holders == map[]
    ensures var s := Run(Initial(level), run);
      && s.level.current == level
      && forall r :: r in s.counts && r in s.origin && s.origin[r].callback ==> Times(s.log, r) == 1
  {
    RunKeeps(level, run);
    var s := Run(Initial(level), run);
    hide Run;
    MadeFacts(s);
    forall r | r in s.counts ensures r in s.origin && s.counts[r] == 0 && (s.origin[r].callback ==> Times(s.log, r) == 1) {
      HeldOrNot(s, r);
      assert ReferenceOk(s, r);
      assert HoldersOf(s.holders, r) == {};
    }
    hide Inv;
    NoneLive(s.made, s.counts, s.origin);
  }

  lemma {:induction false} NoneLive<R>(made: seq<R>, counts: map<R, int>, origin: map<R, Origin>)
    requires forall r :: r in made ==> r in counts && r in origin && counts[r] == 0
    ensures LiveSize(made, counts, origin) == 0
  {
    if made != [] {
      NoneLive(made[..|made| - 1], counts, origin);
    }
  }
}
