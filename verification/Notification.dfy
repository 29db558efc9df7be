/** The commit-time merge of row-change notifications in
    deprecated/android/jni/com_tencent_wcdb_database_SQLiteConnection.cpp: the recorded operations
    of a transaction are sorted by row id, keeping their order, and the operations on one row are
    merged into the first of them. */
module Notification {

  const NOOP := 0
  const INSERT := 1
  const UPDATE := 2
  const DELETE := 3

  datatype Item = Item(rowid: int, op: nat)

  const MERGE_TABLE: seq<nat> := [
    0x00, 0x01, 0x02, 0x03,
    0x01, 0x81, 0x01, 0x00,
    0x02, 0x81, 0x02, 0x03,
    0x03, 0x02, 0x82, 0x83]

  /** `mergeOp`: a table look-up on the two low bits of each operation. */
  function MergeOp(op1: nat, op2: nat): (r: nat)
    ensures r < 4
  {
    MERGE_TABLE[4 * (op1 % 4) + op2 % 4] % 4
  }

  // ---------------------------------------------------------------- what a history amounts to

  /** A row is inserted when it is absent, and updated or deleted when it is present. */
  predicate CanHappen(op: nat, present: bool) {
    if op == INSERT then !present else present && (op == UPDATE || op == DELETE)
  }

  predicate Legal(history: seq<nat>, present: bool)
    decreases |history|
  {
    history == [] || (CanHappen(history[0], present) && Legal(history[1..], history[0] != DELETE))
  }

  /** Whether the row is there after a legal history. */
  predicate PresentAfter(history: seq<nat>, present: bool) {
    if history == [] then present else history[|history| - 1] != DELETE
  }

  /** The operation that takes a row from one presence to the other. */
  function Net(before: bool, after: bool): nat {
    if before then (if after then UPDATE else DELETE) else if after then INSERT else NOOP
  }

  function MergeFrom(op: nat, history: seq<nat>): nat
    decreases |history|
  {
    if history == [] then op else MergeFrom(MergeOp(op, history[0]), history[1..])
  }

  function MergeAll(history: seq<nat>): nat
    requires history != []
  {
    MergeFrom(history[0], history[1..])
  }

  lemma MergeInsert()
    ensures MergeOp(NOOP, INSERT) == INSERT && MergeOp(DELETE, INSERT) == UPDATE
  {
    assert MERGE_TABLE[1] == 1 && MERGE_TABLE[13] == 2;
  }

  lemma MergeUpdate()
    ensures MergeOp(INSERT, UPDATE) == INSERT && MergeOp(UPDATE, UPDATE) == UPDATE
  {
    assert MERGE_TABLE[6] == 1 && MERGE_TABLE[10] == 2;
  }

  lemma MergeDelete()
    ensures MergeOp(INSERT, DELETE) == NOOP && MergeOp(UPDATE, DELETE) == DELETE
  {
    assert MERGE_TABLE[7] == 0 && MERGE_TABLE[11] == 3;
  }

  lemma MergeStep(before: bool, now: bool, op: nat)
    requires CanHappen(op, now)
    ensures MergeOp(Net(before, now), op) == Net(before, op != DELETE)
  {
    hide MergeOp;
    MergeInsert();
    MergeUpdate();
    MergeDelete();
  }

  /** Merging with no operation changes nothing, and of two operations that cannot follow each other
      the later one is kept. */
  lemma MergeOtherwise(op1: nat, op2: nat)
    requires op1 < 4 && op2 < 4
    ensures op1 == NOOP ==> MergeOp(op1, op2) == op2
    ensures op2 == NOOP ==> MergeOp(op1, op2) == op1
    ensures op1 != NOOP && op2 != NOOP && !CanHappen(op2, op1 != DELETE) ==> MergeOp(op1, op2) == op2
  {
    MergeRow(op1);
    assert op2 in {0, 1, 2, 3};
    hide MergeOp;
  }

  lemma MergeRow(op1: nat)
    requires op1 < 4
    ensures op1 == NOOP ==> MergeOp(0, 0) == 0 && MergeOp(0, 1) == 1 && MergeOp(0, 2) == 2 && MergeOp(0, 3) == 3
    ensures op1 == INSERT ==> MergeOp(1, 0) == 1 && MergeOp(1, 1) == 1
    ensures op1 == UPDATE ==> MergeOp(2, 0) == 2 && MergeOp(2, 1) == 1
    ensures op1 == DELETE ==> MergeOp(3, 0) == 3 && MergeOp(3, 2) == 2 && MergeOp(3, 3) == 3
  {
    assert MERGE_TABLE[0] == 0 && MERGE_TABLE[2] == 2 && MERGE_TABLE[3] == 3;
    assert MERGE_TABLE[4] == 1 && MERGE_TABLE[5] == 0x81 && MERGE_TABLE[8] == 2 && MERGE_TABLE[9] == 0x81;
    assert MERGE_TABLE[12] == 3 && MERGE_TABLE[14] == 0x82 && MERGE_TABLE[15] == 0x83;
  }

  lemma {:induction false} MergeFromIsNet(before: bool, now: bool, history: seq<nat>)
    requires Legal(history, now)
    ensures MergeFrom(Net(before, now), history) == Net(before, PresentAfter(history, now))
    decreases |history|
  {
    hide MergeOp, Net;
    if history != [] {
      MergeStep(before, now, history[0]);
      MergeFromIsNet(before, history[0] != DELETE, history[1..]);
    }
  }

  /** Merging a legal history gives its net effect. */
  lemma MergeIsNetEffect(history: seq<nat>, present: bool)
    requires history != [] && Legal(history, present)
    ensures MergeAll(history) == Net(present, PresentAfter(history, present))
  {
    MergeFromIsNet(present, history[0] != DELETE, history[1..]);
  }

  lemma {:induction false} MergeFromPush(op: nat, history: seq<nat>, next: nat)
    ensures MergeFrom(op, history + [next]) == MergeOp(MergeFrom(op, history), next)
    decreases |history|
  {
    if history == [] {
      assert [next][1..] == [];
    } else {
      assert (history + [next])[1..] == history[1..] + [next];
      MergeFromPush(MergeOp(op, history[0]), history[1..], next);
    }
  }

  lemma MergeAllPush(history: seq<nat>, next: nat)
    requires history != []
    ensures MergeAll(history + [next]) == MergeOp(MergeAll(history), next)
  {
    assert (history + [next])[1..] == history[1..] + [next];
    MergeFromPush(history[0], history[1..], next);
  }

  // ---------------------------------------------------------------- the stable sort

  predicate Sorted(items: seq<Item>) {
    forall i, j :: 0 <= i < j < |items| ==> items[i].rowid <= items[j].rowid
  }

  /** The operations on one row, in order. */
  function Ops(items: seq<Item>, rowid: int): seq<nat> {
    if items == [] then []
    else Ops(items[..|items| - 1], rowid) + (if items[|items| - 1].rowid == rowid then [items[|items| - 1].op] else [])
  }

  lemma {:induction false} OpsConcat(a: seq<Item>, b: seq<Item>, rowid: int)
    ensures Ops(a + b, rowid) == Ops(a, rowid) + Ops(b, rowid)
    decreases |b|
  {
    if b == [] {
      assert a + b == a;
    } else {
      var n := |b| - 1;
      assert (a + b)[..|a| + n] == a + b[..n];
      OpsConcat(a, b[..n], rowid);
    }
  }

  lemma OpsOne(x: Item, rowid: int)
    ensures Ops([x], rowid) == if x.rowid == rowid then [x.op] else []
  {
    assert [x][..0] == [];
  }

  /** `x` before the first item whose row id is not smaller. */
  function Insert(x: Item, items: seq<Item>): (r: seq<Item>)
    ensures |r| == |items| + 1
  {
    if items == [] || x.rowid <= items[0].rowid then [x] + items else [items[0]] + Insert(x, items[1..])
  }

  function StableSort(items: seq<Item>): (r: seq<Item>)
    ensures |r| == |items|
  {
    if items == [] then [] else Insert(items[0], StableSort(items[1..]))
  }

  lemma {:induction false} InsertSorts(x: Item, items: seq<Item>)
    requires Sorted(items)
    ensures Sorted(Insert(x, items))
  {
    if items != [] && x.rowid > items[0].rowid {
      InsertSorts(x, items[1..]);
      InsertLeast(x, items[1..], items[0].rowid);
    }
  }

  lemma {:induction false} InsertOps(x: Item, items: seq<Item>, rowid: int)
    ensures Ops(Insert(x, items), rowid) == Ops([x], rowid) + Ops(items, rowid)
  {
    hide Ops;
    if items != [] && x.rowid > items[0].rowid {
      InsertOps(x, items[1..], rowid);
      OpsConcat([items[0]], Insert(x, items[1..]), rowid);
      OpsConcat([items[0]], items[1..], rowid);
      assert [items[0]] + items[1..] == items;
      OpsOne(x, rowid);
      OpsOne(items[0], rowid);
    } else {
      OpsConcat([x], items, rowid);
    }
  }

  lemma {:induction false} InsertLeast(x: Item, items: seq<Item>, least: int)
    requires least <= x.rowid && forall i :: 0 <= i < |items| ==> least <= items[i].rowid
    ensures forall i :: 0 <= i < |Insert(x, items)| ==> least <= Insert(x, items)[i].rowid
  {
    if items != [] && x.rowid > items[0].rowid { InsertLeast(x, items[1..], least); }
  }

  /** Sorted by row id, and the operations on each row are the same in the same order. */
  lemma {:induction false} StableSortIsStable(items: seq<Item>, rowid: int)
    ensures Sorted(StableSort(items)) && Ops(StableSort(items), rowid) == Ops(items, rowid)
  {
    if items != [] {
      StableSortIsStable(items[1..], rowid);
      InsertSorts(items[0], StableSort(items[1..]));
      InsertOps(items[0], StableSort(items[1..]), rowid);
      OpsConcat([items[0]], items[1..], rowid);
      assert [items[0]] + items[1..] == items;
    }
  }

  // ---------------------------------------------------------------- the merge in place

  /** The entry is the first of its row. */
  predicate First(items: seq<Item>, i: nat)
    requires i < |items|
  {
    i == 0 || items[i - 1].rowid != items[i].rowid
  }

  /** The first entry of each row carries the merged operation, all others none. */
  predicate EntryMerged(items: seq<Item>, merged: seq<Item>, i: nat)
    requires i < |items| == |merged|
  {
    && merged[i].rowid == items[i].rowid
    && (!First(items, i) ==> merged[i].op == NOOP)
    && (First(items, i) ==> Ops(items, items[i].rowid) != [] && merged[i].op == MergeAll(Ops(items, items[i].rowid)))
  }

  predicate Merged(items: seq<Item>, merged: seq<Item>) {
    |items| == |merged| && forall i :: 0 <= i < |items| ==> EntryMerged(items, merged, i)
  }

  lemma OpsStep(items: seq<Item>, i: nat, rowid: int)
    requires i < |items|
    ensures items[i].rowid == rowid ==> Ops(items[..i + 1], rowid) == Ops(items[..i], rowid) + [items[i].op]
    ensures items[i].rowid != rowid ==> Ops(items[..i + 1], rowid) == Ops(items[..i], rowid)
  {
    assert items[..i + 1][..i] == items[..i];
  }

  lemma {:induction false} OpsAbsent(items: seq<Item>, rowid: int)
    requires forall i :: 0 <= i < |items| ==> items[i].rowid != rowid
    ensures Ops(items, rowid) == []
  {
    if items != [] { OpsAbsent(items[..|items| - 1], rowid); }
  }

  /** Entry `i` joins the row that began at `start`. */
  lemma MergedJoin(items: seq<Item>, a: seq<Item>, b: seq<Item>, i: nat, start: nat)
    requires Sorted(items) && start < i < |items| && |a| == |b| == i + 1
    requires Merged(items[..i], a[..i]) && items[start].rowid == items[i].rowid && First(items, start)
    requires forall k :: start < k <= i ==> !First(items, k)
    requires Ops(items[..i], items[i].rowid) != []
    requires b[..i] == a[..i][start := Item(items[i].rowid, MergeOp(a[start].op, items[i].op))]
    requires b[i] == Item(items[i].rowid, NOOP)
    ensures Merged(items[..i + 1], b)
  {
    var s, t := items[..i], items[..i + 1];
    hide MergeOp, Ops, MergeFrom, MergeAll;
    forall k | 0 <= k < |t| ensures EntryMerged(t, b, k) {
      assert First(t, k) <==> First(items, k);
      assert t[k] == items[k];
      if k < i {
        assert EntryMerged(s, a[..i], k) && (First(s, k) <==> First(items, k));
        assert b[k] == b[..i][k];
        OpsStep(items, i, items[k].rowid);
        if k == start {
          MergeAllPush(Ops(s, items[i].rowid), items[i].op);
        } else if First(items, k) {
          OtherRow(items, start, i, k);
        }
      }
    }
  }

  /** Another entry that is first of its row has another row id. */
  lemma OtherRow(items: seq<Item>, start: nat, i: nat, k: nat)
    requires Sorted(items) && start < i < |items| && k < i && k != start && First(items, k)
    requires items[start].rowid == items[i].rowid && First(items, start)
    requires forall j :: start < j <= i ==> !First(items, j)
    ensures items[k].rowid != items[i].rowid
  {
    if k < start {
      assert items[k].rowid <= items[start - 1].rowid;
    }
  }

  /** Entry `i` starts a row of its own. */
  lemma MergedStart(items: seq<Item>, a: seq<Item>, b: seq<Item>, i: nat)
    requires Sorted(items) && i < |items| && |a| == i && |b| == i + 1
    requires Merged(items[..i], a) && First(items, i) && b == a + [items[i]]
    ensures Merged(items[..i + 1], b) && Ops(items[..i + 1], items[i].rowid) == [items[i].op]
  {
    var s, t := items[..i], items[..i + 1];
    SmallerBefore(items, i);
    OpsAbsent(s, items[i].rowid);
    OpsStep(items, i, items[i].rowid);
    assert Ops(t, items[i].rowid) == [items[i].op];
    MergeOne(items[i].op);
    hide MergeOp, Ops, MergeFrom, MergeAll, Sorted;
    forall k | 0 <= k < |t| ensures EntryMerged(t, b, k) {
      assert First(t, k) <==> First(items, k);
      assert t[k] == items[k];
      if k < i {
        assert EntryMerged(s, a, k) && (First(s, k) <==> First(items, k));
        OpsStep(items, i, items[k].rowid);
      }
    }
  }

  lemma SmallerBefore(items: seq<Item>, i: nat)
    requires Sorted(items) && i < |items| && First(items, i)
    ensures forall k :: 0 <= k < i ==> items[k].rowid < items[i].rowid
  {
    forall k | 0 <= k < i ensures items[k].rowid < items[i].rowid {
      assert items[k].rowid <= items[i - 1].rowid;
    }
  }

  lemma MergeOne(op: nat)
    ensures MergeAll([op]) == op
  {
    assert [op][1..] == [];
  }

  /** The first `i` entries are merged, the last row among them began at `start`, and the rest of
      the list is as it was. */
  ghost predicate Upto(items: seq<Item>, a: seq<Item>, i: nat, start: nat) {
    && |a| == |items|
    && start < i <= |items|
    && First(items, start)
    && (forall k :: start < k < i ==> !First(items, k))
    && a[start].rowid == items[start].rowid == items[i - 1].rowid
    && Ops(items[..i], items[start].rowid) != []
    && Merged(items[..i], a[..i])
    && a[i..] == items[i..]
  }

  lemma UptoOne(items: seq<Item>)
    requires Sorted(items) && items != []
    ensures Upto(items, items, 1, 0)
  {
    assert items[..0] == [];
    MergedStart(items, [], [items[0]], 0);
    assert items[..1] == [items[0]];
  }

  lemma UptoJoin(items: seq<Item>, a: seq<Item>, b: seq<Item>, i: nat, start: nat)
    requires Sorted(items) && Upto(items, a, i, start) && i < |items|
    requires a[i].rowid == a[start].rowid
    requires b == a[start := a[start].(op := MergeOp(a[start].op, a[i].op))][i := a[i].(op := NOOP)]
    ensures Upto(items, b, i + 1, start)
  {
    hide MergeOp, Ops, MergeAll, MergeFrom, Sorted, Merged;
    assert a[i] == a[i..][0] == items[i];
    OpsStep(items, i, items[i].rowid);
    assert a[..i + 1][..i] == a[..i];
    assert b[..i + 1][..i] == a[..i][start := Item(items[i].rowid, MergeOp(a[start].op, items[i].op))];
    MergedJoin(items, a[..i + 1], b[..i + 1], i, start);
    assert b[i + 1..] == a[i..][1..] == items[i + 1..];
  }

  lemma UptoStart(items: seq<Item>, a: seq<Item>, i: nat, start: nat)
    requires Sorted(items) && Upto(items, a, i, start) && i < |items|
    requires a[i].rowid != a[start].rowid
    ensures Upto(items, a, i + 1, i)
  {
    hide MergeOp, Ops, MergeAll, MergeFrom, Sorted, Merged;
    assert a[i] == a[i..][0] == items[i];
    assert a[..i + 1] == a[..i] + [items[i]];
    MergedStart(items, a[..i], a[..i + 1], i);
    assert a[i + 1..] == a[i..][1..] == items[i + 1..];
  }

  // ---------------------------------------------------------------- the counters of the merge loop

  function CountOp(items: seq<Item>, op: nat): (n: nat) {
    if items == [] then 0
    else CountOp(items[..|items| - 1], op) + if items[|items| - 1].op == op then 1 else 0
  }

  lemma CountStep(items: seq<Item>, i: nat, op: nat)
    requires i < |items|
    ensures CountOp(items[..i + 1], op) == CountOp(items[..i], op) + if items[i].op == op then 1 else 0
  {
    assert items[..i + 1][..i] == items[..i];
  }

  lemma {:induction false} CountGrows(items: seq<Item>, i: nat, op: nat)
    requires i <= |items|
    ensures CountOp(items[..i], op) <= CountOp(items, op)
    decreases |items| - i
  {
    if i == |items| {
      assert items[..i] == items;
    } else {
      CountStep(items, i, op);
      CountGrows(items, i + 1, op);
    }
  }

  /** What the loop has counted for an operation once the last row began at `start`: one for the first
      recorded operation, and one for each row before that whose merged operation it is. */
  function Tally(items: seq<Item>, merged: seq<Item>, start: nat, op: nat): nat
    requires items != [] && start <= |merged|
  {
    (if items[0].op == op then 1 else 0) + CountOp(merged[..start], op)
  }

  function Tallies(items: seq<Item>, merged: seq<Item>, start: nat): (n: seq<nat>)
    requires items != [] && start <= |merged|
    ensures |n| == 3
  {
    [Tally(items, merged, start, INSERT), Tally(items, merged, start, UPDATE), Tally(items, merged, start, DELETE)]
  }

  lemma TallyFirst(items: seq<Item>)
    requires items != [] && 1 <= items[0].op <= 3
    ensures Tallies(items, items, 0) == [0, 0, 0][items[0].op - 1 := 1]
  {
    assert items[..0] == [];
  }

  lemma {:induction false} CountRow(items: seq<Item>, a: seq<Item>, i: nat, start: nat, j: nat, op: nat)
    requires Upto(items, a, i, start) && start < j <= i && op != NOOP
    ensures CountOp(a[..j], op) == CountOp(a[..start], op) + if a[start].op == op then 1 else 0
    decreases j
  {
    CountStep(a, j - 1, op);
    if j - 1 > start {
      CountRow(items, a, i, start, j - 1, op);
      assert EntryMerged(items[..i], a[..i], j - 1);
      assert !First(items, j - 1) && a[j - 1] == a[..i][j - 1];
    }
  }

  /** A row that has ended is counted under its merged operation, if it has one. */
  lemma TallyRow(items: seq<Item>, a: seq<Item>, i: nat, start: nat)
    requires items != [] && Upto(items, a, i, start)
    ensures var op := a[start].op; var n := Tallies(items, a, start);
      Tallies(items, a, i) == if 0 < op < 4 then n[op - 1 := n[op - 1] + 1] else n
  {
    CountRow(items, a, i, start, i, INSERT);
    CountRow(items, a, i, start, i, UPDATE);
    CountRow(items, a, i, start, i, DELETE);
    hide Upto, CountOp;
  }

  lemma TallySame(items: seq<Item>, a: seq<Item>, b: seq<Item>, start: nat)
    requires items != [] && start <= |a| && |a| == |b| && a[..start] == b[..start]
    ensures Tallies(items, a, start) == Tallies(items, b, start)
  {
  }

  /** Where the last row of the list begins. */
  function LastStart(items: seq<Item>): (i: nat)
    requires items != []
    ensures i < |items|
  {
    if First(items, |items| - 1) then |items| - 1 else LastStart(items[..|items| - 1])
  }

  lemma {:induction false} LastStartIs(items: seq<Item>, start: nat)
    requires start < |items| && First(items, start) && forall k :: start < k < |items| ==> !First(items, k)
    ensures LastStart(items) == start
  {
    var front := items[..|items| - 1];
    if start < |items| - 1 {
      assert forall k :: 0 <= k < |front| ==> (First(front, k) <==> First(items, k));
      LastStartIs(front, start);
    }
  }

  /** `numNotify` when the commit hook is done with a table. */
  function NumNotify(items: seq<Item>, merged: seq<Item>): (n: seq<nat>)
    requires items != [] && |merged| == |items|
    ensures |n| == 3
  {
    Tallies(items, merged, LastStart(items))
  }

  /** The merge loop of the commit hook, on a list sorted by row id. */
  method MergeInPlace(opList: array<Item>, numNotify: array<nat>)
    requires opList.Length > 0 && Sorted(opList[..]) && 1 <= opList[0].op <= 3
    requires numNotify.Length == 3 && numNotify[..] == [0, 0, 0]
    modifies opList, numNotify
    ensures Merged(old(opList[..]), opList[..])
    ensures numNotify[..] == NumNotify(old(opList[..]), opList[..])
  {
    ghost var items := opList[..];
    var rowid := opList[0].rowid;
    var op := opList[0].op;
    var startIdx := 0;
    numNotify[op - 1] := numNotify[op - 1] + 1;
    TallyFirst(items);
    UptoOne(items);
    hide MergeOp, Sorted, Merged, Tallies;
    for i := 1 to opList.Length
      invariant Upto(items, opList[..], i, startIdx)
      invariant startIdx < opList.Length && rowid == opList[startIdx].rowid && op == opList[startIdx].op
      invariant numNotify[..] == Tallies(items, opList[..], startIdx)
    {
      hide Upto;
      ghost var before := opList[..];
      if opList[i].rowid == rowid {
        op := MergeOp(op, opList[i].op);
        opList[startIdx] := opList[startIdx].(op := op);
        opList[i] := opList[i].(op := NOOP);
        BeforeHere(items, before, i, startIdx);
        UptoJoin(items, before, opList[..], i, startIdx);
        TallySame(items, before, opList[..], startIdx);
      } else {
        UptoStart(items, before, i, startIdx);
        TallyRow(items, before, i, startIdx);
        if op > 0 && op < 4 {
          numNotify[op - 1] := numNotify[op - 1] + 1;
        }
        rowid := opList[i].rowid;
        op := opList[i].op;
        startIdx := i;
      }
    }
    assert items[..opList.Length] == items && opList[..opList.Length] == opList[..];
    LastStartIs(items, startIdx);
  }

  lemma BeforeHere(items: seq<Item>, a: seq<Item>, i: nat, start: nat)
    requires Upto(items, a, i, start)
    ensures start < i
  {
  }

  // ---------------------------------------------------------------- the whole commit step

  function Noops(n: nat): seq<nat> {
    seq(n, _ => NOOP)
  }

  /** What the merged list holds for a row whose recorded operations are `history`. */
  function RowOutcome(history: seq<nat>): seq<nat> {
    if history == [] then [] else [MergeAll(history)] + Noops(|history| - 1)
  }

  /** In a sorted list an entry of a row seen before follows an entry of the same row. */
  lemma NotFirst(items: seq<Item>, n: nat)
    requires Sorted(items) && n < |items|
    ensures First(items, n) <==> Ops(items[..n], items[n].rowid) == []
  {
    if First(items, n) {
      SmallerBefore(items, n);
      OpsAbsent(items[..n], items[n].rowid);
    } else {
      OpsStep(items, n - 1, items[n].rowid);
    }
  }

  lemma OpsMember(items: seq<Item>, n: nat)
    requires n < |items|
    ensures Ops(items, items[n].rowid) != []
  {
    assert items == items[..n] + [items[n]] + items[n + 1..];
    OpsConcat(items[..n] + [items[n]], items[n + 1..], items[n].rowid);
    OpsConcat(items[..n], [items[n]], items[n].rowid);
    OpsOne(items[n], items[n].rowid);
  }

  /** The operations of one row in the first `n` entries of the merged list. */
  lemma {:induction false} MergedRow(items: seq<Item>, merged: seq<Item>, rowid: int, n: nat)
    requires Sorted(items) && Merged(items, merged) && n <= |items|
    ensures |Ops(merged[..n], rowid)| == |Ops(items[..n], rowid)|
    ensures Ops(items[..n], rowid) != [] ==>
      && Ops(items, rowid) != []
      && Ops(merged[..n], rowid) == [MergeAll(Ops(items, rowid))] + Noops(|Ops(items[..n], rowid)| - 1)
  {
    if n > 0 {
      MergedRow(items, merged, rowid, n - 1);
      MergedRowStep(items, merged, rowid, n - 1);
    }
  }

  lemma MergedRowStep(items: seq<Item>, merged: seq<Item>, rowid: int, n: nat)
    requires Sorted(items) && Merged(items, merged) && n < |items|
    requires |Ops(merged[..n], rowid)| == |Ops(items[..n], rowid)|
    requires Ops(items[..n], rowid) != [] ==>
      && Ops(items, rowid) != []
      && Ops(merged[..n], rowid) == [MergeAll(Ops(items, rowid))] + Noops(|Ops(items[..n], rowid)| - 1)
    ensures |Ops(merged[..n + 1], rowid)| == |Ops(items[..n + 1], rowid)|
    ensures Ops(items[..n + 1], rowid) != [] ==>
      && Ops(items, rowid) != []
      && Ops(merged[..n + 1], rowid) == [MergeAll(Ops(items, rowid))] + Noops(|Ops(items[..n + 1], rowid)| - 1)
  {
    assert EntryMerged(items, merged, n);
    hide MergeOp, MergeAll, MergeFrom, Ops, Sorted, First, Merged;
    OpsStep(items, n, rowid);
    OpsStep(merged, n, rowid);
    if items[n].rowid == rowid {
      NotFirst(items, n);
      OpsMember(items, n);
      var seen := |Ops(items[..n], rowid)|;
      if seen > 0 {
        assert Noops(seen) == Noops(seen - 1) + [NOOP];
      }
    }
  }

  /** Every row's entries in the merged list, from its operations in the order they were recorded:
      the merged operation and then nothing. */
  ghost predicate Reported(recorded: seq<Item>, merged: seq<Item>) {
    && |merged| == |recorded|
    && Sorted(merged)
    && forall rowid: int :: Ops(merged, rowid) == RowOutcome(Ops(recorded, rowid))
  }

  lemma SortedMergeReports(recorded: seq<Item>, merged: seq<Item>)
    requires Merged(StableSort(recorded), merged)
    ensures Reported(recorded, merged)
  {
    var items := StableSort(recorded);
    forall rowid: int ensures Ops(merged, rowid) == RowOutcome(Ops(recorded, rowid)) {
      StableSortIsStable(recorded, rowid);
      MergedRow(items, merged, rowid, |items|);
      assert items[..|items|] == items && merged[..|items|] == merged;
      assert Ops(items, rowid) == [] ==> Ops(merged, rowid) == [];
    }
    assert Sorted(items) by { StableSortIsStable(recorded, 0); }
    forall i, j | 0 <= i < j < |merged| ensures merged[i].rowid <= merged[j].rowid {
      assert EntryMerged(items, merged, i) && EntryMerged(items, merged, j);
    }
  }

  /** For every row whose recorded operations could have happened to it in that order, the first
      entry of the row in the merged list carries the net effect, and every other entry nothing. */
  lemma NetEffectReported(recorded: seq<Item>, merged: seq<Item>, rowid: int, present: bool)
    requires Reported(recorded, merged)
    requires Ops(recorded, rowid) != [] && Legal(Ops(recorded, rowid), present)
    ensures Ops(merged, rowid) == [Net(present, PresentAfter(Ops(recorded, rowid), present))]
                                  + Noops(|Ops(recorded, rowid)| - 1)
  {
    MergeIsNetEffect(Ops(recorded, rowid), present);
  }

  /** What `toNotifyOp` makes of the three operations SQLite reports. */
  predicate Recorded(items: seq<Item>) {
    forall i :: 0 <= i < |items| ==> 1 <= items[i].op <= 3
  }

  lemma {:induction false} InsertMembers(x: Item, items: seq<Item>)
    ensures multiset(Insert(x, items)) == multiset{x} + multiset(items)
  {
    if items != [] && x.rowid > items[0].rowid {
      InsertMembers(x, items[1..]);
      assert items == [items[0]] + items[1..];
    }
  }

  /** Sorting leaves the same items. */
  lemma {:induction false} SortMembers(items: seq<Item>)
    ensures multiset(StableSort(items)) == multiset(items)
  {
    if items != [] {
      SortMembers(items[1..]);
      InsertMembers(items[0], StableSort(items[1..]));
      assert items == [items[0]] + items[1..];
    }
  }

  lemma SortRecorded(items: seq<Item>)
    requires Recorded(items)
    ensures Recorded(StableSort(items))
  {
    SortMembers(items);
    var sorted := StableSort(items);
    forall i | 0 <= i < |sorted| ensures 1 <= sorted[i].op <= 3 {
      assert sorted[i] in multiset(items);
    }
  }

  /** What the commit hook does to the operations recorded for one table. */
  method CommitMerge(opList: array<Item>, numNotify: array<nat>)
    requires Recorded(opList[..]) && numNotify.Length == 3
    modifies opList, numNotify
    ensures Reported(old(opList[..]), opList[..])
    ensures old(opList[..]) == [] ==> numNotify[..] == [0, 0, 0]
    ensures old(opList[..]) != [] ==>
      && Merged(StableSort(old(opList[..])), opList[..])
      && numNotify[..] == NumNotify(StableSort(old(opList[..])), opList[..])
  {
    ghost var recorded := opList[..];
    numNotify[0], numNotify[1], numNotify[2] := 0, 0, 0;
    var sorted := StableSort(opList[..]);
    SortRecorded(recorded);
    forall i | 0 <= i < opList.Length {
      opList[i] := sorted[i];
    }
    assert opList[..] == sorted;
    StableSortIsStable(recorded, 0);
    hide Sorted, Merged, StableSort, Recorded, Reported;
    if opList.Length != 0 {
      MergeInPlace(opList, numNotify);
      SortedMergeReports(recorded, opList[..]);
    } else {
      NothingReports();
    }
  }

  lemma NothingReports()
    ensures Reported([], [])
  {
  }

  // ---------------------------------------------------------------- the emission

  /** The row ids of the entries that carry an operation. */
  function IdsOf(items: seq<Item>, op: nat): (r: seq<int>)
    ensures |r| == CountOp(items, op)
  {
    if items == [] then []
    else IdsOf(items[..|items| - 1], op) + if items[|items| - 1].op == op then [items[|items| - 1].rowid] else []
  }

  function AllIds(items: seq<Item>): (r: seq<seq<int>>)
    ensures |r| == 3
  {
    [IdsOf(items, INSERT), IdsOf(items, UPDATE), IdsOf(items, DELETE)]
  }

  lemma IdsStep(items: seq<Item>, i: nat, op: nat)
    requires i < |items|
    ensures items[i].op == op ==> IdsOf(items[..i + 1], op) == IdsOf(items[..i], op) + [items[i].rowid]
    ensures items[i].op != op ==> IdsOf(items[..i + 1], op) == IdsOf(items[..i], op)
  {
    assert items[..i + 1][..i] == items[..i];
  }

  lemma AllIdsStep(items: seq<Item>, i: nat)
    requires i < |items| && 1 <= items[i].op <= 3
    ensures var op := items[i].op - 1; var ids := AllIds(items[..i]);
      AllIds(items[..i + 1]) == ids[op := ids[op] + [items[i].rowid]]
  {
    IdsStep(items, i, INSERT);
    IdsStep(items, i, UPDATE);
    IdsStep(items, i, DELETE);
    hide IdsOf;
  }

  lemma AllIdsCount(items: seq<Item>, op: nat)
    requires 1 <= op <= 3
    ensures |AllIds(items)[op - 1]| == CountOp(items, op)
  {
  }

  /** No assertion of the emission loop fails. */
  predicate Emittable(merged: seq<Item>, n: seq<nat>)
    requires |n| == 3
  {
    && Recorded(merged)
    && forall op :: 1 <= op <= 3 ==> Enough(merged, n, op)
  }

  predicate Enough(merged: seq<Item>, n: seq<nat>, op: nat)
    requires |n| == 3 && 1 <= op <= 3
  {
    CountOp(merged, op) <= n[op - 1]
  }

  /** The emission loop: the ids written to the three arrays, up to the first assertion that fails. */
  method Emit(opList: array<Item>, numNotify: array<nat>) returns (ok: bool, ids: seq<seq<int>>)
    requires numNotify.Length == 3
    ensures ok <==> Emittable(opList[..], numNotify[..])
    ensures ok ==> ids == AllIds(opList[..])
  {
    ghost var items := opList[..];
    ids := [[], [], []];
    assert items[..0] == [] && AllIds([]) == ids;
    hide CountOp, AllIds, IdsOf;
    for i := 0 to opList.Length
      invariant ids == AllIds(items[..i])
      invariant forall j :: 0 <= j < i ==> 1 <= items[j].op <= 3
      invariant forall k :: 0 <= k < 3 ==> |ids[k]| <= numNotify[k]
    {
      var op := opList[i].op as int - 1;
      if !(op >= 0 && op < 3) {
        return false, ids;
      }
      if !(|ids[op]| < numNotify[op]) {
        AllIdsCount(items[..i], op + 1);
        CountStep(items, i, op + 1);
        CountGrows(items, i + 1, op + 1);
        assert !Enough(items, numNotify[..], op + 1);
        return false, ids;
      }
      AllIdsStep(items, i);
      ids := ids[op := ids[op] + [opList[i].rowid]];
    }
    assert items[..opList.Length] == items;
    forall op: nat | 1 <= op <= 3 ensures Enough(items, numNotify[..], op) {
      AllIdsCount(items, op);
    }
    ok := true;
  }

  // ---------------------------------------------------------------- when counts and emission agree

  predicate DistinctRows(items: seq<Item>) {
    forall i, j :: 0 <= i < j < |items| ==> items[i].rowid != items[j].rowid
  }

  predicate Least(items: seq<Item>, i: nat)
    requires i < |items|
  {
    forall k :: 0 <= k < |items| ==> items[i].rowid <= items[k].rowid
  }

  predicate Greatest(items: seq<Item>, i: nat)
    requires i < |items|
  {
    forall k :: 0 <= k < |items| ==> items[k].rowid <= items[i].rowid
  }

  /** The operation of the smallest row id is that of the largest. */
  predicate EndsAgree(items: seq<Item>) {
    forall i: nat, j: nat :: i < |items| && j < |items| && Least(items, i) && Greatest(items, j) ==> items[i].op == items[j].op
  }

  lemma {:induction false} OpsAtMostOne(items: seq<Item>, rowid: int)
    requires DistinctRows(items)
    ensures |Ops(items, rowid)| <= 1
  {
    if items != [] {
      var front := items[..|items| - 1];
      OpsAtMostOne(front, rowid);
      if items[|items| - 1].rowid == rowid { OpsAbsent(front, rowid); }
    }
  }

  lemma OpsTwice(items: seq<Item>, i: nat, j: nat)
    requires i < j < |items| && items[i].rowid == items[j].rowid
    ensures |Ops(items, items[j].rowid)| > 1
  {
    assert items == items[..j] + items[j..];
    OpsConcat(items[..j], items[j..], items[j].rowid);
    OpsMember(items[..j], i);
    OpsMember(items[j..], 0);
  }

  lemma OpsOnce(items: seq<Item>, i: nat, j: nat)
    requires i < j < |items| && |Ops(items, items[j].rowid)| <= 1
    ensures items[i].rowid != items[j].rowid
  {
    if items[i].rowid == items[j].rowid { OpsTwice(items, i, j); }
  }

  lemma DistinctByOps(a: seq<Item>, b: seq<Item>)
    requires DistinctRows(a) && forall rowid: int :: Ops(a, rowid) == Ops(b, rowid)
    ensures DistinctRows(b)
  {
    forall i, j | 0 <= i < j < |b| ensures b[i].rowid != b[j].rowid {
      OpsAtMostOne(a, b[j].rowid);
      OpsOnce(b, i, j);
    }
  }

  lemma DistinctSorted(recorded: seq<Item>)
    ensures DistinctRows(recorded) <==> DistinctRows(StableSort(recorded))
  {
    forall rowid: int ensures Ops(StableSort(recorded), rowid) == Ops(recorded, rowid) {
      StableSortIsStable(recorded, rowid);
    }
    hide Ops, StableSort;
    if DistinctRows(recorded) { DistinctByOps(recorded, StableSort(recorded)); }
    if DistinctRows(StableSort(recorded)) { DistinctByOps(StableSort(recorded), recorded); }
  }

  /** Where every row has one operation nothing is merged. */
  lemma NothingMerged(items: seq<Item>, merged: seq<Item>)
    requires DistinctRows(items) && Merged(items, merged)
    ensures merged == items && (items != [] ==> LastStart(items) == |items| - 1)
  {
    forall i | 0 <= i < |items| ensures merged[i] == items[i] {
      assert EntryMerged(items, merged, i) && First(items, i);
      OpsAtMostOne(items, items[i].rowid);
      OpsMember(items, i);
      OpOfMember(items, i);
      MergeOne(items[i].op);
    }
  }

  lemma OpOfMember(items: seq<Item>, i: nat)
    requires i < |items| && |Ops(items, items[i].rowid)| == 1
    ensures Ops(items, items[i].rowid) == [items[i].op]
  {
    var rowid := items[i].rowid;
    assert items == items[..i] + [items[i]] + items[i + 1..];
    OpsConcat(items[..i] + [items[i]], items[i + 1..], rowid);
    OpsConcat(items[..i], [items[i]], rowid);
    OpsOne(items[i], rowid);
  }

  /** With one operation for each row, the counters fall short of the last row alone. */
  lemma DistinctCounts(items: seq<Item>, op: nat)
    requires items != []
    ensures var last := |items| - 1;
      CountOp(items, op) - Tally(items, items, last, op)
      == (if items[last].op == op then 1 else 0) - (if items[0].op == op then 1 else 0)
  {
    CountStep(items, |items| - 1, op);
    assert items[..|items|] == items;
  }

  lemma DistinctEmission(items: seq<Item>)
    requires items != [] && Recorded(items)
    ensures var n := Tallies(items, items, |items| - 1);
      && (Emittable(items, n) <==> items[0].op == items[|items| - 1].op)
      && (Emittable(items, n) ==> forall op :: 1 <= op <= 3 ==> CountOp(items, op) == n[op - 1])
  {
    hide CountOp, Tally, Tallies;
    var n := Tallies(items, items, |items| - 1);
    var first, last := items[0].op, items[|items| - 1].op;
    forall op: nat | 1 <= op <= 3
      ensures CountOp(items, op) - n[op - 1] == (if last == op then 1 else 0) - (if first == op then 1 else 0)
    {
      DistinctCounts(items, op);
      TallyAt(items, items, |items| - 1, op);
    }
    if first != last { assert !Enough(items, n, last); }
  }

  lemma TallyAt(items: seq<Item>, merged: seq<Item>, start: nat, op: nat)
    requires items != [] && start <= |merged| && 1 <= op <= 3
    ensures Tallies(items, merged, start)[op - 1] == Tally(items, merged, start, op)
  {
  }

  lemma RepeatedRowFails(items: seq<Item>, merged: seq<Item>, i: nat, j: nat, n: seq<nat>)
    requires Sorted(items) && Merged(items, merged) && i < j < |items| && items[i].rowid == items[j].rowid && |n| == 3
    ensures !Emittable(merged, n)
  {
    assert items[j - 1].rowid == items[j].rowid;
    assert EntryMerged(items, merged, j) && !First(items, j);
  }

  lemma SameItems(recorded: seq<Item>)
    ensures forall x: Item :: x in StableSort(recorded) <==> x in recorded
  {
    SortMembers(recorded);
    hide StableSort;
    forall x: Item ensures x in StableSort(recorded) <==> x in recorded {
      assert x in multiset(StableSort(recorded)) <==> x in multiset(recorded);
    }
  }

  lemma EndsOfSorted(recorded: seq<Item>)
    requires recorded != [] && DistinctRows(StableSort(recorded))
    ensures var sorted := StableSort(recorded);
      EndsAgree(recorded) <==> sorted[0].op == sorted[|sorted| - 1].op
  {
    hide StableSort, Least, Greatest, Sorted, DistinctRows;
    var sorted := StableSort(recorded);
    StableSortIsStable(recorded, 0);
    SameItems(recorded);
    EndFacts(recorded, sorted);
    assert sorted[0] in recorded && sorted[|sorted| - 1] in recorded;
    var i: nat :| i < |recorded| && recorded[i] == sorted[0];
    var j: nat :| j < |recorded| && recorded[j] == sorted[|sorted| - 1];
    assert Least(recorded, i) && Greatest(recorded, j);
  }

  lemma EndFacts(recorded: seq<Item>, sorted: seq<Item>)
    requires sorted != [] && Sorted(sorted) && DistinctRows(sorted)
    requires forall x: Item :: x in sorted <==> x in recorded
    ensures forall i: nat :: i < |recorded| ==>
      (Least(recorded, i) <==> recorded[i] == sorted[0]) && (Greatest(recorded, i) <==> recorded[i] == sorted[|sorted| - 1])
  {
    var last := |sorted| - 1;
    forall k | 0 <= k < |recorded| ensures sorted[0].rowid <= recorded[k].rowid <= sorted[last].rowid {
      assert recorded[k] in sorted;
    }
    forall i: nat | i < |recorded|
      ensures (Least(recorded, i) <==> recorded[i] == sorted[0]) && (Greatest(recorded, i) <==> recorded[i] == sorted[last])
    {
      assert recorded[i] in sorted;
      var p :| 0 <= p < |sorted| && sorted[p] == recorded[i];
      assert sorted[0] in recorded && sorted[last] in recorded;
      if p > 0 { assert sorted[0].rowid < sorted[p].rowid; }
      if p < last { assert sorted[p].rowid < sorted[last].rowid; }
    }
  }

  /** Counts and emission agree exactly for the transactions that touch each row once and do the same
      to the smallest row id as to the largest; the three arrays are then filled exactly, with the ids
      recorded. For every other transaction an assertion fails. */
  lemma EmissionExact(recorded: seq<Item>, merged: seq<Item>)
    requires recorded != [] && Recorded(recorded) && Merged(StableSort(recorded), merged)
    ensures var n := NumNotify(StableSort(recorded), merged);
      && (Emittable(merged, n) <==> DistinctRows(recorded) && EndsAgree(recorded))
      && (Emittable(merged, n) ==> merged == StableSort(recorded))
      && (Emittable(merged, n) ==> forall op :: 1 <= op <= 3 ==> CountOp(merged, op) == n[op - 1])
  {
    var items := StableSort(recorded);
    var n := NumNotify(items, merged);
    DistinctSorted(recorded);
    SortRecorded(recorded);
    StableSortIsStable(recorded, 0);
    hide StableSort, Sorted, Merged, Recorded, Emittable, Tallies, LastStart, EndsAgree;
    if DistinctRows(items) {
      NothingMerged(items, merged);
      EndsOfSorted(recorded);
      DistinctEmission(items);
    } else {
      var i, j :| 0 <= i < j < |items| && items[i].rowid == items[j].rowid;
      RepeatedRowFails(items, merged, i, j, n);
    }
  }

  lemma TwoOps(x: Item, y: Item, rowid: int)
    ensures Ops([x] + [y], rowid) == (if x.rowid == rowid then [x.op] else []) + (if y.rowid == rowid then [y.op] else [])
  {
    OpsConcat([x], [y], rowid);
    OpsOne(x, rowid);
    OpsOne(y, rowid);
  }

  /** One row inserted and another deleted: two insertions are counted and no deletion. */
  lemma MixedTransaction()
    ensures var recorded := [Item(1, INSERT), Item(2, DELETE)];
      && StableSort(recorded) == recorded && Merged(recorded, recorded)
      && NumNotify(recorded, recorded) == [2, 0, 0] && !Emittable(recorded, [2, 0, 0])
  {
    var recorded := [Item(1, INSERT), Item(2, DELETE)];
    assert recorded[1..] == [Item(2, DELETE)] && recorded[..1] == [Item(1, INSERT)];
    assert StableSort([Item(2, DELETE)]) == [Item(2, DELETE)];
    assert CountOp([Item(1, INSERT)], INSERT) == 1;
    assert CountOp([Item(1, INSERT)], UPDATE) == 0 && CountOp([Item(1, INSERT)], DELETE) == 0;
    assert recorded == [recorded[0]] + [recorded[1]];
    TwoOps(recorded[0], recorded[1], 1);
    TwoOps(recorded[0], recorded[1], 2);
    MergeOne(INSERT);
    MergeOne(DELETE);
    assert CountOp(recorded, DELETE) == 1;
    assert !Enough(recorded, [2, 0, 0], DELETE);
  }

  /** One row inserted and then updated: the update is cleared, and the cleared entry is not skipped. */
  lemma RepeatedRow()
    ensures var recorded, merged := [Item(1, INSERT), Item(1, UPDATE)], [Item(1, INSERT), Item(1, NOOP)];
      && StableSort(recorded) == recorded && Merged(recorded, merged)
      && NumNotify(recorded, merged) == [1, 0, 0] && !Emittable(merged, [1, 0, 0])
  {
    var recorded, merged := [Item(1, INSERT), Item(1, UPDATE)], [Item(1, INSERT), Item(1, NOOP)];
    assert recorded[1..] == [Item(1, UPDATE)] && recorded[..1] == [Item(1, INSERT)] && merged[..0] == [];
    assert StableSort([Item(1, UPDATE)]) == [Item(1, UPDATE)];
    assert recorded == [recorded[0]] + [recorded[1]];
    TwoOps(recorded[0], recorded[1], 1);
    assert [INSERT] + [UPDATE] == [INSERT, UPDATE];
    MergeUpdate();
    assert [INSERT, UPDATE][1..] == [UPDATE] && [UPDATE][1..] == [];
    assert MergeFrom(INSERT, [UPDATE]) == MergeFrom(MergeOp(INSERT, UPDATE), []);
    assert MergeAll([INSERT, UPDATE]) == INSERT;
    LastStartIs(recorded, 0);
    assert merged[1].op == NOOP;
  }

  /** The commit hook and the emission for one table, from the operations recorded to the ids handed
      out. */
  method CommitAndEmit(opList: array<Item>) returns (ok: bool, ids: seq<seq<int>>)
    requires Recorded(opList[..])
    modifies opList
    ensures ok <==> DistinctRows(old(opList[..])) && EndsAgree(old(opList[..]))
    ensures ok ==> ids == AllIds(StableSort(old(opList[..])))
  {
    var numNotify := new nat[3];
    ghost var recorded := opList[..];
    CommitMerge(opList, numNotify);
    if recorded != [] {
      EmissionExact(recorded, opList[..]);
    } else {
      NothingToEmit();
    }
    hide *;
    ok, ids := Emit(opList, numNotify);
  }

  lemma NothingToEmit()
    ensures StableSort([]) == [] && DistinctRows([]) && EndsAgree([]) && Emittable([], [0, 0, 0])
  {
  }
}
