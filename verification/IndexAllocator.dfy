/** The free list of src/util/IndexAllocator.h on values, and the set of free indices it stands for. */
module AllocatorModel {
  import opened Sequences

  const INVALID_INDEX: int := -1

  // In which case free() gives up the claim that the list is sorted from high to low.  The source
  // tests idx < back; the repaired test is idx > back.
  datatype Comparison = AsWritten | Repaired

  predicate LosesOrder(cmp: Comparison, idx: int, back: int) {
    if cmp.AsWritten? then idx < back else idx > back
  }

  datatype Alloc = Alloc(free: seq<int>, max: int, next: int, sorted: bool)

  predicate Descending(s: seq<int>) {
    forall i, j | 0 <= i < j < |s| :: s[i] >= s[j]
  }

  function Insert(x: int, s: seq<int>): (r: seq<int>)
    requires Descending(s)
    ensures Descending(r) && multiset(r) == multiset(s) + multiset{x}
  {
    if s == [] || x >= s[0] then [x] + s
    else
      InsertBehind(s, x, Insert(x, s[1..]));
      [s[0]] + Insert(x, s[1..])
  }

  lemma InsertBehind(s: seq<int>, x: int, r: seq<int>)
    requires s != [] && Descending(s) && x < s[0]
    requires Descending(r) && multiset(r) == multiset(s[1..]) + multiset{x}
    ensures Descending([s[0]] + r) && multiset([s[0]] + r) == multiset(s) + multiset{x}
  {
    assert s == [s[0]] + s[1..];
    forall i | 0 <= i < |r|
      ensures s[0] >= r[i]
    {
      assert r[i] in multiset(r);
      assert r[i] == x || r[i] in s[1..];
    }
  }

  // std::sort with std::greater; the result is the only sorted permutation, see SortIsUnique.
  function SortDescending(s: seq<int>): (r: seq<int>)
    ensures Descending(r) && multiset(r) == multiset(s)
  {
    if s == [] then []
    else
      assert s == [s[0]] + s[1..];
      Insert(s[0], SortDescending(s[1..]))
  }

  // The loop of allocate that removes duplicates of idx from the back.
  function DropBack(s: seq<int>, idx: int): (r: seq<int>)
    ensures r <= s && (r != [] ==> r[|r| - 1] != idx)
    ensures forall i | |r| <= i < |s| :: s[i] == idx
  {
    if s != [] && s[|s| - 1] == idx then DropBack(s[..|s| - 1], idx) else s
  }

  function New(max: int, preallocated: int): Alloc {
    Alloc([], max, preallocated, true)
  }

  // The list allocate recycles from: sorted now, if the flag does not claim it is already.
  function Ordered(a: Alloc): (list: seq<int>)
    ensures multiset(list) == multiset(a.free) && |list| == |a.free|
    ensures !a.sorted ==> Descending(list)
  {
    var list := if a.sorted then a.free else SortDescending(a.free);
    assert |list| == |multiset(list)|;
    list
  }

  function TakeIndex(a: Alloc): (Alloc, int) {
    if a.free == [] then
      if a.next >= a.max then (a, INVALID_INDEX) else (a.(next := a.next + 1), a.next)
    else
      var list := Ordered(a);
      var idx := list[|list| - 1];
      (a.(free := DropBack(list[..|list| - 1], idx), sorted := true), idx)
  }

  predicate Check(a: Alloc, idx: int) {
    0 <= idx < a.next
  }

  // free() would keep the flag set although idx does not belong at the back.
  predicate Trips(a: Alloc, idx: int) {
    Check(a, idx) && a.sorted && a.free != [] && idx > a.free[|a.free| - 1]
  }

  function GiveIndex(cmp: Comparison, a: Alloc, idx: int): Alloc {
    if !Check(a, idx) then a
    else
      a.(free := a.free + [idx],
         sorted := a.sorted && !(a.free != [] && LosesOrder(cmp, idx, a.free[|a.free| - 1])))
  }

  function Clear(a: Alloc): Alloc {
    a.(free := [], next := 0)
  }

  // -------- runs --------

  datatype Op = Take | Give(idx: int) | Reset

  function Apply(cmp: Comparison, a: Alloc, op: Op): Alloc {
    match op
    case Take => TakeIndex(a).0
    case Give(idx) => GiveIndex(cmp, a, idx)
    case Reset => Clear(a)
  }

  function ApplyAll(cmp: Comparison, a: Alloc, ops: seq<Op>): Alloc
    decreases ops
  {
    if ops == [] then a else ApplyAll(cmp, Apply(cmp, a, ops[0]), ops[1..])
  }

  function Out(a: Alloc, op: Op): seq<int> {
    if op.Take? then [TakeIndex(a).1] else []
  }

  // The indices that allocate returned along the run, in order.
  function Handed(cmp: Comparison, a: Alloc, ops: seq<Op>): seq<int>
    decreases ops
  {
    if ops == [] then [] else Out(a, ops[0]) + Handed(cmp, Apply(cmp, a, ops[0]), ops[1..])
  }

  // -------- the plain thing: a set of free indices --------

  datatype Spec = Spec(free: set<int>, max: int, next: int)

  ghost function Min(s: set<int>): (m: int)
    requires s != {}
    ensures m in s && forall x | x in s :: m <= x
  {
    assert (forall x :: x !in s) ==> s == {};
    var x :| x in s;
    if s == {x} then x
    else
      assert s == (s - {x}) + {x};
      var m := Min(s - {x});
      if x < m then x else m
  }

  ghost function SpecTake(s: Spec): (Spec, int) {
    if s.free != {} then (s.(free := s.free - {Min(s.free)}), Min(s.free))
    else if s.next < s.max then (s.(next := s.next + 1), s.next)
    else (s, INVALID_INDEX)
  }

  ghost function SpecApply(s: Spec, op: Op): Spec {
    match op
    case Take => SpecTake(s).0
    case Give(idx) => if 0 <= idx < s.next then s.(free := s.free + {idx}) else s
    case Reset => s.(free := {}, next := 0)
  }

  ghost function SpecHanded(s: Spec, ops: seq<Op>): seq<int>
    decreases ops
  {
    if ops == [] then []
    else (if ops[0].Take? then [SpecTake(s).1] else []) + SpecHanded(SpecApply(s, ops[0]), ops[1..])
  }

  ghost function Elements(s: seq<int>): set<int> {
    set x | x in s
  }

  ghost function Abs(a: Alloc): Spec {
    Spec(Elements(a.free), a.max, a.next)
  }

  // The flag tells the truth.
  ghost predicate Honest(a: Alloc) {
    a.sorted ==> Descending(a.free)
  }

  lemma LastIsMin(s: seq<int>)
    requires s != [] && Descending(s)
    ensures Elements(s) != {} && Min(Elements(s)) == s[|s| - 1]
  {
    assert s[|s| - 1] in Elements(s);
  }

  // Dropping the copies of the lowest index off the back leaves exactly the others.
  lemma DropBackRemoves(s: seq<int>)
    requires s != [] && Descending(s)
    ensures Elements(DropBack(s[..|s| - 1], s[|s| - 1])) == Elements(s) - {s[|s| - 1]}
  {
    var m := s[|s| - 1];
    var r := DropBack(s[..|s| - 1], m);
    forall x | x in r
      ensures x in s && x != m
    {
      var i :| 0 <= i < |r| && r[i] == x;
      assert s[i] == x && s[i] >= s[|r| - 1];
      assert r[|r| - 1] == s[|r| - 1];
    }
    forall x | x in s && x != m
      ensures x in r
    {
      var i :| 0 <= i < |s| && s[i] == x;
      assert i < |r| ==> r[i] == x;
    }
  }

  lemma SameElements(s: seq<int>, t: seq<int>)
    requires multiset(s) == multiset(t)
    ensures Elements(s) == Elements(t)
  {
    assert forall x :: x in s <==> x in multiset(s);
    assert forall x :: x in t <==> x in multiset(t);
  }

  lemma TakeRefines(a: Alloc)
    requires Honest(a)
    ensures Abs(TakeIndex(a).0) == SpecTake(Abs(a)).0 && TakeIndex(a).1 == SpecTake(Abs(a)).1
    ensures Honest(TakeIndex(a).0)
  {
    if a.free != [] {
      var list := Ordered(a);
      SameElements(list, a.free);
      LastIsMin(list);
      DropBackRemoves(list);
    }
  }

  lemma GiveRefines(cmp: Comparison, a: Alloc, idx: int)
    requires Honest(a) && (cmp.Repaired? || !Trips(a, idx))
    ensures Abs(GiveIndex(cmp, a, idx)) == SpecApply(Abs(a), Give(idx))
    ensures Honest(GiveIndex(cmp, a, idx))
  {
    if Check(a, idx) {
      assert Elements(a.free + [idx]) == Elements(a.free) + {idx};
    }
  }

  // No free in the run meets a sorted list whose last index is smaller.
  ghost predicate NeverTrips(a: Alloc, ops: seq<Op>)
    decreases ops
  {
    ops == [] || ((ops[0].Give? ==> !Trips(a, ops[0].idx)) && NeverTrips(Apply(AsWritten, a, ops[0]), ops[1..]))
  }

  // The free list refines the set of free indices: over any run, with double and out-of-range frees,
  // allocate returns the lowest free index and removes every copy of it, or the next fresh index, or
  // -1.  With the repaired test this needs nothing; as written it needs a run that never trips.
  lemma {:induction false} RunRefines(cmp: Comparison, a: Alloc, ops: seq<Op>)
    requires Honest(a) && (cmp.Repaired? || NeverTrips(a, ops))
    ensures Handed(cmp, a, ops) == SpecHanded(Abs(a), ops)
    ensures Honest(ApplyAll(cmp, a, ops))
    decreases ops
  {
    if ops != [] {
      match ops[0] {
        case Take => TakeRefines(a);
        case Give(idx) => GiveRefines(cmp, a, idx);
        case Reset => assert Elements([]) == {};
      }
      RunRefines(cmp, Apply(cmp, a, ops[0]), ops[1..]);
    }
  }

  lemma RepairedRunRefinesSet(max: int, preallocated: int, ops: seq<Op>)
    ensures Handed(Repaired, New(max, preallocated), ops) == SpecHanded(Spec({}, max, preallocated), ops)
  {
    assert Elements([]) == {};
    RunRefines(Repaired, New(max, preallocated), ops);
  }

  lemma TrippingFree(a: Alloc, idx: int)
    requires Honest(a) && Trips(a, idx)
    ensures TakeIndex(GiveIndex(AsWritten, a, idx)).1 == idx != Min(Elements(a.free) + {idx})
    ensures !Honest(GiveIndex(AsWritten, a, idx))
  {
    var b := GiveIndex(AsWritten, a, idx);
    assert b.free[|a.free| - 1] < b.free[|a.free|] == idx;
    assert a.free[|a.free| - 1] in Elements(a.free) + {idx};
  }

  function Gives(frees: seq<int>): (ops: seq<Op>)
    ensures |ops| == |frees| && forall k | 0 <= k < |frees| :: ops[k] == Give(frees[k])
  {
    seq(|frees|, k requires 0 <= k < |frees| => Give(frees[k]))
  }

  // Once the flag is given up, no free sets it again, and the list collects what is freed.
  lemma {:induction false} UnsortedCollects(a: Alloc, frees: seq<int>, x: int)
    requires !a.sorted
    ensures var b := ApplyAll(AsWritten, a, Gives(frees));
      && !b.sorted && b.next == a.next && |b.free| >= |a.free|
      && (x in b.free <==> x in a.free || (x in frees && 0 <= x < a.next))
    decreases frees
  {
    if frees != [] {
      var b := GiveIndex(AsWritten, a, frees[0]);
      assert Gives(frees)[1..] == Gives(frees[1..]);
      assert x in frees <==> x == frees[0] || x in frees[1..];
      UnsortedCollects(b, frees[1..], x);
    }
  }

  // The flag is given up exactly when an index is freed that is lower than the last one on a list flagged
  // sorted; however much is freed after that, the next allocate returns the lowest free index.
  lemma FlagIsGivenUpIff(a: Alloc, idx: int, more: seq<int>)
    requires a.sorted && Check(a, idx)
    ensures var b := GiveIndex(AsWritten, a, idx);
      && (!b.sorted <==> a.free != [] && idx < a.free[|a.free| - 1])
      && (a.free != [] && idx < a.free[|a.free| - 1] ==>
            var c := ApplyAll(AsWritten, b, Gives(more));
            && (forall x :: x in c.free <==> x in a.free || x == idx || (x in more && 0 <= x < a.next))
            && TakeIndex(c).1 in c.free && (forall x | x in c.free :: TakeIndex(c).1 <= x))
  {
    if a.free != [] && idx < a.free[|a.free| - 1] {
      var b := GiveIndex(AsWritten, a, idx);
      var c := ApplyAll(AsWritten, b, Gives(more));
      UnsortedCollects(b, more, idx);
      forall x
        ensures x in c.free <==> x in a.free || x == idx || (x in more && 0 <= x < a.next)
      {
        UnsortedCollects(b, more, x);
      }
      TakeUnflagged(c);
    }
  }

  // A run is its operations one by one, and what it hands out is what they hand out.
  lemma {:induction false} RunInTurn(cmp: Comparison, a: Alloc, ops: seq<Op>, last: Op)
    ensures ApplyAll(cmp, a, ops + [last]) == Apply(cmp, ApplyAll(cmp, a, ops), last)
    ensures Handed(cmp, a, ops + [last])
         == Handed(cmp, a, ops) + if last.Take? then [TakeIndex(ApplyAll(cmp, a, ops)).1] else []
    decreases ops
  {
    if ops == [] {
      assert [last][1..] == [];
      assert Handed(cmp, a, [last]) == Out(a, last) + [];
    } else {
      assert (ops + [last])[1..] == ops[1..] + [last];
      RunInTurn(cmp, Apply(cmp, a, ops[0]), ops[1..], last);
    }
  }

  // One free keeps lowest-first recycling exactly when it does not trip; after a tripping free the very
  // next allocate returns the index just freed instead of the lowest.
  lemma GiveKeepsLowestFirstIff(a: Alloc, idx: int)
    requires Honest(a) && Check(a, idx)
    ensures var b := GiveIndex(AsWritten, a, idx);
      && (TakeIndex(b).1 == Min(Elements(a.free) + {idx}) <==> !Trips(a, idx))
      && (Honest(b) <==> !Trips(a, idx))
      && (Trips(a, idx) ==> TakeIndex(b).1 == idx)
  {
    if Trips(a, idx) {
      TrippingFree(a, idx);
    } else {
      GiveRefines(AsWritten, a, idx);
      TakeRefines(GiveIndex(AsWritten, a, idx));
    }
  }

  // An allocate at this point would return what the set of free indices says.
  ghost predicate TakesLowest(a: Alloc) {
    TakeIndex(a).1 == SpecTake(Abs(a)).1
  }

  // ... after every operation of the run.
  ghost predicate TakesLowestThroughout(a: Alloc, ops: seq<Op>)
    decreases ops
  {
    TakesLowest(a) && (ops == [] || TakesLowestThroughout(Apply(AsWritten, a, ops[0]), ops[1..]))
  }

  // As written, allocate would follow the set of free indices at every point of a run exactly when no free
  // in the run trips.
  lemma {:induction false} LowestFirstIff(a: Alloc, ops: seq<Op>)
    requires Honest(a)
    ensures NeverTrips(a, ops) <==> TakesLowestThroughout(a, ops)
    decreases ops
  {
    TakeRefines(a);
    if ops != [] {
      var b := Apply(AsWritten, a, ops[0]);
      if ops[0].Give? && Trips(a, ops[0].idx) {
        TripMissesLowest(a, ops[0].idx);
      } else {
        ApplyStaysHonest(a, ops[0]);
        LowestFirstIff(b, ops[1..]);
      }
    }
  }

  lemma TripMissesLowest(a: Alloc, idx: int)
    requires Honest(a) && Trips(a, idx)
    ensures !TakesLowest(GiveIndex(AsWritten, a, idx))
  {
    TrippingFree(a, idx);
    assert Elements(a.free + [idx]) == Elements(a.free) + {idx};
  }

  lemma ApplyStaysHonest(a: Alloc, op: Op)
    requires Honest(a) && (op.Give? ==> !Trips(a, op.idx))
    ensures Honest(Apply(AsWritten, a, op))
  {
    match op {
      case Take => TakeRefines(a);
      case Give(idx) => GiveRefines(AsWritten, a, idx);
      case Reset =>
    }
  }

  lemma SameHead(s: seq<int>, t: seq<int>)
    requires Descending(s) && Descending(t) && multiset(s) == multiset(t) && s != []
    ensures t != [] && s[0] == t[0]
  {
    assert s[0] in multiset(t);
    assert t[0] in multiset(s);
  }

  // Whatever algorithm std::sort uses, it ends with this list.
  lemma SortIsUnique(s: seq<int>, t: seq<int>)
    requires Descending(t) && multiset(s) == multiset(t)
    ensures t == SortDescending(s)
  {
    DescendingIsUnique(SortDescending(s), t);
  }

  lemma TailIs(s: seq<int>)
    requires s != []
    ensures s == [s[0]] + s[1..] && multiset(s[1..]) == multiset(s) - multiset{s[0]}
  {
    assert s == [s[0]] + s[1..];
    assert multiset(s) == multiset{s[0]} + multiset(s[1..]);
  }

  lemma {:induction false} DescendingIsUnique(s: seq<int>, t: seq<int>)
    requires Descending(s) && Descending(t) && multiset(s) == multiset(t)
    ensures s == t
  {
    if s == [] {
      assert |multiset(s)| == |multiset(t)|;
    } else {
      SameHead(s, t);
      TailIs(s);
      TailIs(t);
      DescendingIsUnique(s[1..], t[1..]);
    }
  }

  lemma GiveOne(cmp: Comparison, list: seq<int>, sorted: bool, idx: int, max: int, next: int)
    requires 0 <= idx < next
    ensures GiveIndex(cmp, Alloc(list, max, next, sorted), idx)
         == Alloc(list + [idx], max, next, sorted && (list == [] || !LosesOrder(cmp, idx, list[|list| - 1])))
  {
  }

  // Free any two live indices, lowest first: as written allocate returns the higher one.
  lemma HigherIndexComesFirst(max: int, next: int, i: int, j: int)
    requires 0 <= i < j < next
    ensures TakeIndex(GiveIndex(AsWritten, GiveIndex(AsWritten, New(max, next), i), j)).1 == j
  {
    assert [] + [i] == [i];
    GiveOne(AsWritten, [], true, i, max, next);
    GiveOne(AsWritten, [i], true, j, max, next);
    TakeSorted([i], j, max, next);
  }

  lemma TakeOfTwo(max: int, next: int, i: int, j: int)
    requires i < j
    ensures TakeIndex(Alloc([i, j], max, next, false)).1 == i
  {
    var a := Alloc([i, j], max, next, false);
    TakeRefines(a);
    assert a.free[0] in Elements(a.free);
    assert Min(Elements(a.free)) in a.free;
  }

  // The repaired test returns the lower one.
  lemma RepairedLowerIndexComesFirst(max: int, next: int, i: int, j: int)
    requires 0 <= i < j < next
    ensures TakeIndex(GiveIndex(Repaired, GiveIndex(Repaired, New(max, next), i), j)).1 == i
  {
    assert [] + [i] == [i] && [i] + [j] == [i, j];
    GiveOne(Repaired, [], true, i, max, next);
    GiveOne(Repaired, [i], true, j, max, next);
    TakeOfTwo(max, next, i, j);
  }

  lemma TakeSorted(front: seq<int>, idx: int, max: int, next: int)
    requires front == [] || front[|front| - 1] != idx
    ensures TakeIndex(Alloc(front + [idx], max, next, true)) == (Alloc(front, max, next, true), idx)
  {
    assert (front + [idx])[..|front|] == front;
  }

  lemma TakeUnsorted(list: seq<int>, front: seq<int>, idx: int, max: int, next: int)
    requires front == [] || front[|front| - 1] != idx
    requires Descending(front + [idx]) && multiset(list) == multiset(front + [idx])
    ensures TakeIndex(Alloc(list, max, next, false)) == (Alloc(front, max, next, true), idx)
  {
    SortIsUnique(list, front + [idx]);
    TakeSorted(front, idx, max, next);
    assert |list| == |multiset(list)| == |multiset(front + [idx])| > 0;
  }

  // list[i] is a copy of the last index with another index behind it.
  predicate CopyBefore(list: seq<int>, i: nat, j: nat) {
    i < j < |list| && list[i] == list[|list| - 1] != list[j]
  }

  lemma DropBackLeavesIff(list: seq<int>)
    requires list != []
    ensures var r := list[|list| - 1];
      r in DropBack(list[..|list| - 1], r) <==> exists i: nat, j: nat :: CopyBefore(list, i, j)
  {
    var r := list[|list| - 1];
    var front := list[..|list| - 1];
    var kept := DropBack(front, r);
    if r in kept {
      var i :| 0 <= i < |kept| && kept[i] == r;
      assert CopyBefore(list, i, |kept| - 1);
    }
    if i: nat, j: nat :| CopyBefore(list, i, j) {
      assert j < |front| && front[j] == list[j] != r;
      assert kept[i] == list[i] == r;
    }
  }

  // Whatever state the list is in: allocate leaves a copy of the index it returns on the list, so that the
  // index comes out a second time, exactly when the flag is set and a copy stands before another index.
  lemma CopyLeftIff(a: Alloc)
    requires a.free != []
    ensures var (b, r) := TakeIndex(a);
      r in b.free <==> a.sorted && exists i: nat, j: nat :: CopyBefore(a.free, i, j)
  {
    var list := Ordered(a);
    DropBackLeavesIff(list);
    if !a.sorted {
      assert forall i: nat, j: nat :: !CopyBefore(list, i, j);
    }
  }

  // On a list whose flag tells the truth, a free makes the next allocate leave a copy behind exactly when it
  // trips and the index was free already.
  lemma DoubleHandOutIff(a: Alloc, idx: int)
    requires Honest(a) && Check(a, idx)
    ensures var (b, r) := TakeIndex(GiveIndex(AsWritten, a, idx));
      r in b.free <==> Trips(a, idx) && idx in a.free
  {
    var g := GiveIndex(AsWritten, a, idx);
    if Trips(a, idx) {
      TrippingFree(a, idx);
      CopyLeftIff(g);
      if idx in a.free {
        var i: nat :| i < |a.free| && a.free[i] == idx;
        assert CopyBefore(g.free, i, |a.free| - 1);
      }
    } else {
      assert Honest(g) by { GiveRefines(AsWritten, a, idx); }
      NoCopyLeft(g);
    }
  }

  lemma NoCopyLeft(a: Alloc)
    requires Honest(a) && a.free != []
    ensures TakeIndex(a).1 !in TakeIndex(a).0.free
  {
    TakeRefines(a);
    assert TakeIndex(a).1 !in Elements(TakeIndex(a).0.free);
  }

  // idx is among the next n indices that allocate returns.
  predicate ComesOut(a: Alloc, idx: int, n: nat)
    decreases n
  {
    n > 0 && (TakeIndex(a).1 == idx || ComesOut(TakeIndex(a).0, idx, n - 1))
  }

  lemma DropBackMembers(list: seq<int>, x: int)
    requires list != []
    ensures var r := list[|list| - 1];
      var kept := DropBack(list[..|list| - 1], r);
      && r in list && |kept| < |list|
      && (x in kept ==> x in list)
      && (x in list && x != r ==> x in kept)
  {
    var r := list[|list| - 1];
    var kept := DropBack(list[..|list| - 1], r);
    assert kept <= list;
    if x in list && x != r {
      var i :| 0 <= i < |list| && list[i] == x;
      assert kept[i] == x;
    }
  }

  lemma OrderedMembers(a: Alloc, x: int)
    ensures x in Ordered(a) <==> x in a.free
  {
    assert x in multiset(Ordered(a)) <==> x in multiset(a.free);
  }

  lemma TakeShrinks(a: Alloc)
    requires a.free != []
    ensures var (b, r) := TakeIndex(a);
      r in a.free && |b.free| < |a.free| && b.next == a.next
  {
    var list := Ordered(a);
    var r := list[|list| - 1];
    DropBackMembers(list, r);
    OrderedMembers(a, r);
  }

  // allocate takes nothing off the list but copies of the index it returns.
  lemma TakeMembers(a: Alloc, x: int)
    requires a.free != []
    ensures var (b, r) := TakeIndex(a);
      (x in b.free ==> x in a.free) && (x in a.free && x != r ==> x in b.free)
  {
    DropBackMembers(Ordered(a), x);
    OrderedMembers(a, x);
  }

  // An index on the list comes out sooner or later without being freed again ...
  lemma {:induction false} ListedComesOut(a: Alloc, idx: int, n: nat)
    requires idx in a.free && |a.free| <= n
    ensures ComesOut(a, idx, n)
    decreases n
  {
    if TakeIndex(a).1 != idx {
      TakeShrinks(a);
      TakeMembers(a, idx);
      ListedComesOut(TakeIndex(a).0, idx, n - 1);
    }
  }

  // ... and one that was handed out before and is not on it does not.
  lemma {:induction false} UnlistedStaysOut(a: Alloc, idx: int, n: nat)
    requires idx !in a.free && 0 <= idx < a.next
    ensures !ComesOut(a, idx, n)
    decreases n
  {
    if n > 0 {
      if a.free != [] {
        TakeShrinks(a);
        TakeMembers(a, idx);
      }
      UnlistedStaysOut(TakeIndex(a).0, idx, n - 1);
    }
  }

  ghost predicate InRange(a: Alloc) {
    forall x | x in a.free :: 0 <= x < a.next
  }

  lemma {:induction false} RunStaysInRange(cmp: Comparison, a: Alloc, ops: seq<Op>)
    requires InRange(a)
    ensures InRange(ApplyAll(cmp, a, ops))
    decreases ops
  {
    if ops != [] {
      if ops[0].Take? && a.free != [] {
        forall x | x in TakeIndex(a).0.free
          ensures x in a.free
        {
          TakeMembers(a, x);
        }
        TakeShrinks(a);
      }
      RunStaysInRange(cmp, Apply(cmp, a, ops[0]), ops[1..]);
    }
  }

  // So the index that allocate returns comes out once more, before the list is used up, if a copy was left,
  // and otherwise never.
  lemma ComesOutAgainIff(a: Alloc, n: nat)
    requires a.free != [] && InRange(a)
    ensures var (b, r) := TakeIndex(a);
      if r in b.free then ComesOut(b, r, |b.free|) else !ComesOut(b, r, n)
  {
    var (b, r) := TakeIndex(a);
    if r in b.free {
      ListedComesOut(b, r, |b.free|);
    } else {
      TakeShrinks(a);
      UnlistedStaysOut(b, r, n);
    }
  }

  lemma HandedOutTwiceFrom(a: Alloc, idx: int, n: nat)
    requires Honest(a) && InRange(a) && Check(a, idx)
    ensures var (b, r) := TakeIndex(GiveIndex(AsWritten, a, idx));
      if Trips(a, idx) && idx in a.free then ComesOut(b, r, |b.free|) else !ComesOut(b, r, n)
  {
    var g := GiveIndex(AsWritten, a, idx);
    assert InRange(g) && g.free != [];
    assert TakeIndex(g).1 in TakeIndex(g).0.free <==> Trips(a, idx) && idx in a.free by { DoubleHandOutIff(a, idx); }
    ComesOutAgainIff(g, n);
  }

  // As written, after any run that did not trip: a free makes the next allocate hand out an index that comes
  // out once more with no free in between, exactly when it trips and the index was free already.
  lemma HandedOutTwiceIff(max: int, preallocated: int, ops: seq<Op>, idx: int, n: nat)
    requires NeverTrips(New(max, preallocated), ops)
    requires Check(ApplyAll(AsWritten, New(max, preallocated), ops), idx)
    ensures var a := ApplyAll(AsWritten, New(max, preallocated), ops);
      var (b, r) := TakeIndex(GiveIndex(AsWritten, a, idx));
      if Trips(a, idx) && idx in a.free then ComesOut(b, r, |b.free|) else !ComesOut(b, r, n)
  {
    var a := ApplyAll(AsWritten, New(max, preallocated), ops);
    assert Honest(a) by { RunRefines(AsWritten, New(max, preallocated), ops); }
    assert InRange(a) by { RunStaysInRange(AsWritten, New(max, preallocated), ops); }
    HandedOutTwiceFrom(a, idx, n);
  }

  // On a list [k, j, i] that is sorted and says so, a repeated free(j) makes allocate hand out j twice,
  // with no free in between.
  lemma DoubleFreeHandsOutTwice(max: int, next: int, i: int, j: int, k: int)
    requires 0 <= i < j < k < next
    ensures var (a1, r1) := TakeIndex(GiveIndex(AsWritten, Alloc([k, j, i], max, next, true), j));
      var (a2, r2) := TakeIndex(a1);
      var (a3, r3) := TakeIndex(a2);
      r1 == j && r2 == i && r3 == j
  {
    GiveOne(AsWritten, [k, j, i], true, j, max, next);
    TakeSorted([k, j, i], j, max, next);
    assert [k, j, i] == [k, j] + [i];
    TakeSorted([k, j], i, max, next);
    assert [k, j] == [k] + [j];
    TakeSorted([k], j, max, next);
  }

  lemma GiveThenTake(front: seq<int>, h: int, max: int, next: int)
    requires Descending(front + [h]) && (front == [] || front[|front| - 1] > h) && 0 <= h < next
    ensures TakeIndex(GiveIndex(AsWritten, Alloc(front, max, next, false), h)) == (Alloc(front, max, next, true), h)
  {
    TakeUnsorted(front + [h], front, h, max, next);
  }

  // Such a list comes about when holders free k, j, i and h < i and one index is allocated again.
  lemma DoubleFreeStateIsReachable(max: int, next: int, h: int, i: int, j: int, k: int)
    requires 0 <= h < i < j < k < next
    ensures var a1 := GiveIndex(AsWritten, New(max, next), k);
      var a2 := GiveIndex(AsWritten, a1, j);
      var a3 := GiveIndex(AsWritten, a2, i);
      TakeIndex(GiveIndex(AsWritten, a3, h)) == (Alloc([k, j, i], max, next, true), h)
  {
    var front := [k, j, i];
    assert [] + [k] == [k] && [k] + [j] == [k, j] && [k, j] + [i] == front;
    GiveOne(AsWritten, [], true, k, max, next);
    GiveOne(AsWritten, [k], true, j, max, next);
    GiveOne(AsWritten, [k, j], false, i, max, next);
    GiveThenTake(front, h, max, next);
  }

  // What allocate does to a list that is not flagged sorted, without naming how ...
  lemma TakeUnflagged(a: Alloc)
    requires a.free != [] && !a.sorted
    ensures var (b, r) := TakeIndex(a);
      && r in a.free && (forall k | 0 <= k < |a.free| :: r <= a.free[k])
      && multiset(b.free) == multiset(a.free)[r := 0] && Descending(b.free)
  {
    var list := SortDescending(a.free);
    assert Ordered(a) == list;
    LowestDropped(list);
    OrderedMembers(a, TakeIndex(a).1);
    forall k | 0 <= k < |a.free|
      ensures TakeIndex(a).1 <= a.free[k]
    {
      OrderedMembers(a, a.free[k]);
    }
  }

  // ... and to one that is.
  lemma TakeFlagged(a: Alloc)
    requires a.free != [] && a.sorted
    ensures var (b, r) := TakeIndex(a);
      && r == a.free[|a.free| - 1] && b.free < a.free
      && (b.free == [] || b.free[|b.free| - 1] != r)
      && (forall k | |b.free| <= k < |a.free| :: a.free[k] == r)
  {
  }

  lemma LowestDropped(list: seq<int>)
    requires list != [] && Descending(list)
    ensures var r := list[|list| - 1];
      var kept := DropBack(list[..|list| - 1], r);
      multiset(kept) == multiset(list)[r := 0] && Descending(kept)
  {
    var r := list[|list| - 1];
    var kept := DropBack(list[..|list| - 1], r);
    forall i | 0 <= i < |kept|
      ensures kept[i] != r
    {
      assert kept[i] == list[i] >= list[|kept| - 1] == kept[|kept| - 1] > r;
    }
    assert kept <= list;
    CopiesCutOff(list, kept, r);
  }

  lemma CopiesCutOff(list: seq<int>, kept: seq<int>, r: int)
    requires kept <= list && r !in kept && forall k | |kept| <= k < |list| :: list[k] == r
    ensures multiset(kept) == multiset(list)[r := 0]
  {
    var dropped := list[|kept|..];
    assert list == kept + dropped;
    assert forall k | 0 <= k < |dropped| :: dropped[k] == r;
    AllCopies(dropped, r);
    assert multiset(list) == multiset(kept) + multiset(dropped);
    assert r !in multiset(kept);
  }

  lemma {:induction false} AllCopies(s: seq<int>, x: int)
    requires forall k | 0 <= k < |s| :: s[k] == x
    ensures multiset(s) == multiset{}[x := |s|]
  {
    if s != [] {
      assert s == [s[0]] + s[1..];
      AllCopies(s[1..], x);
    }
  }

  // -------- only holders free --------

  ghost function LiveAfter(a: Alloc, live: set<int>, op: Op): set<int> {
    match op
    case Take => if TakeIndex(a).1 == INVALID_INDEX then live else live + {TakeIndex(a).1}
    case Give(idx) => live - {idx}
    case Reset => {}
  }

  // Every free in the run is by a holder of a live index.
  ghost predicate HoldersOnly(cmp: Comparison, a: Alloc, live: set<int>, ops: seq<Op>)
    decreases ops
  {
    ops == [] ||
    ((ops[0].Give? ==> ops[0].idx in live)
     && HoldersOnly(cmp, Apply(cmp, a, ops[0]), LiveAfter(a, live, ops[0]), ops[1..]))
  }

  ghost function LiveAtEnd(cmp: Comparison, a: Alloc, live: set<int>, ops: seq<Op>): set<int>
    decreases ops
  {
    if ops == [] then live
    else LiveAtEnd(cmp, Apply(cmp, a, ops[0]), LiveAfter(a, live, ops[0]), ops[1..])
  }

  ghost function UpTo(n: int): (r: set<int>)
    ensures forall i :: i in r <==> 0 <= i < n
  {
    if n <= 0 then {} else UpTo(n - 1) + {n - 1}
  }

  // Live and free indices partition [0, next), and the list holds each free index once.
  ghost predicate Partition(a: Alloc, live: set<int>) {
    && 0 <= a.next <= a.max
    && Distinct(a.free)
    && Elements(a.free) !! live
    && Elements(a.free) + live == UpTo(a.next)
  }

  lemma TakeKeepsPartition(a: Alloc, live: set<int>)
    requires Partition(a, live)
    ensures Partition(TakeIndex(a).0, LiveAfter(a, live, Take))
    ensures TakeIndex(a).1 == INVALID_INDEX <==> a.free == [] && a.next == a.max
    ensures TakeIndex(a).1 != INVALID_INDEX ==> 0 <= TakeIndex(a).1 < a.max && TakeIndex(a).1 !in live
  {
    var (b, r) := TakeIndex(a);
    if a.free == [] {
      assert Elements(a.free) == {};
      if a.next < a.max {
        assert UpTo(b.next) == UpTo(a.next) + {a.next};
      }
    } else {
      var list := Ordered(a);
      SameElements(list, a.free);
      DistinctPermutation(a.free, list);
      DistinctDrop(list);
      assert r in Elements(list) && r in UpTo(a.next);
    }
  }

  lemma DistinctDrop(list: seq<int>)
    requires list != [] && Distinct(list)
    ensures var r := list[|list| - 1];
      && DropBack(list[..|list| - 1], r) == list[..|list| - 1]
      && Distinct(list[..|list| - 1])
      && Elements(list[..|list| - 1]) == Elements(list) - {r}
  {
    var front, r := list[..|list| - 1], list[|list| - 1];
    assert list == front + [r];
    assert r !in front;
  }

  lemma GiveKeepsPartition(cmp: Comparison, a: Alloc, live: set<int>, idx: int)
    requires Partition(a, live) && idx in live
    ensures Partition(GiveIndex(cmp, a, idx), live - {idx})
  {
    assert idx in UpTo(a.next);
    assert Elements(a.free + [idx]) == Elements(a.free) + {idx};
    assert idx !in Elements(a.free);
  }

  lemma {:induction false} RunKeepsPartition(cmp: Comparison, a: Alloc, live: set<int>, ops: seq<Op>)
    requires Partition(a, live) && HoldersOnly(cmp, a, live, ops)
    ensures Partition(ApplyAll(cmp, a, ops), LiveAtEnd(cmp, a, live, ops))
    ensures ApplyAll(cmp, a, ops).max == a.max
    decreases ops
  {
    if ops != [] {
      match ops[0] {
        case Take => TakeKeepsPartition(a, live);
        case Give(idx) => GiveKeepsPartition(cmp, a, live, idx);
        case Reset => assert Elements([]) == {} == UpTo(0);
      }
      RunKeepsPartition(cmp, Apply(cmp, a, ops[0]), LiveAfter(a, live, ops[0]), ops[1..]);
    }
  }

  lemma {:induction false} UpToSize(n: nat)
    ensures |UpTo(n)| == n
  {
    if n > 0 {
      UpToSize(n - 1);
    }
  }

  lemma {:induction false} DistinctSize(s: seq<int>)
    requires Distinct(s)
    ensures |Elements(s)| == |s|
  {
    if s != [] {
      var front, last := s[..|s| - 1], s[|s| - 1];
      assert s == front + [last] && last !in front;
      assert Elements(s) == Elements(front) + {last};
      DistinctSize(front);
    }
  }

  // -------- anyone frees --------

  // Indices that were handed out and not freed since are not on the list.
  ghost predicate Separate(a: Alloc, live: set<int>) {
    && Elements(a.free) !! live
    && (forall x | x in live :: 0 <= x < a.next)
    && InRange(a) && a.next >= 0
  }

  // allocate would leave a copy of the index it returns; see CopyLeftIff.
  ghost predicate CopyWaits(a: Alloc) {
    a.free != [] && a.sorted && exists i: nat, j: nat :: CopyBefore(a.free, i, j)
  }

  lemma TakeFromList(a: Alloc)
    requires a.free != []
    ensures var (b, r) := TakeIndex(a);
      && r in Elements(a.free) && Elements(b.free) <= Elements(a.free) && b.next == a.next
      && (r in Elements(b.free) <==> CopyWaits(a))
  {
    var (b, r) := TakeIndex(a);
    TakeShrinks(a);
    assert r in b.free <==> CopyWaits(a) by { CopyLeftIff(a); }
    forall x | x in b.free
      ensures x in a.free
    {
      TakeMembers(a, x);
    }
  }

  lemma SeparateTake(a: Alloc, live: set<int>)
    requires Separate(a, live)
    ensures TakeIndex(a).1 !in live
    ensures Separate(TakeIndex(a).0, LiveAfter(a, live, Take)) <==> !CopyWaits(a)
  {
    if a.free != [] {
      TakeFromList(a);
      SeparateSets(a, TakeIndex(a).0, live, TakeIndex(a).1);
    }
  }

  lemma SeparateSets(a: Alloc, b: Alloc, live: set<int>, r: int)
    requires Separate(a, live) && r in Elements(a.free) && Elements(b.free) <= Elements(a.free) && b.next == a.next
    ensures r >= 0 && r !in live
    ensures Separate(b, live + {r}) <==> r !in Elements(b.free)
  {
    forall x | x in b.free
      ensures x in a.free
    {
      assert x in Elements(b.free);
    }
  }

  lemma SeparateGive(cmp: Comparison, a: Alloc, live: set<int>, idx: int)
    requires Separate(a, live)
    ensures Separate(GiveIndex(cmp, a, idx), live - {idx})
  {
    if Check(a, idx) {
      assert Elements(a.free + [idx]) == Elements(a.free) + {idx};
    }
  }

  // No allocate in the run finds a copy waiting.
  ghost predicate NeverLeavesCopy(cmp: Comparison, a: Alloc, ops: seq<Op>)
    decreases ops
  {
    ops == [] || (!(ops[0].Take? && CopyWaits(a)) && NeverLeavesCopy(cmp, Apply(cmp, a, ops[0]), ops[1..]))
  }

  ghost predicate SeparateThroughout(cmp: Comparison, a: Alloc, live: set<int>, ops: seq<Op>)
    decreases ops
  {
    Separate(a, live)
    && (ops == [] || SeparateThroughout(cmp, Apply(cmp, a, ops[0]), LiveAfter(a, live, ops[0]), ops[1..]))
  }

  // No allocate in the run returns an index that was handed out and not freed since.
  ghost predicate NeverHandsOutLive(cmp: Comparison, a: Alloc, live: set<int>, ops: seq<Op>)
    decreases ops
  {
    ops == [] ||
    ((ops[0].Take? ==> TakeIndex(a).1 !in live)
     && NeverHandsOutLive(cmp, Apply(cmp, a, ops[0]), LiveAfter(a, live, ops[0]), ops[1..]))
  }

  // Over any run with frees by anyone, double and out-of-range ones included: what is handed out stays off the
  // list exactly if no allocate finds a copy waiting, and then no index is handed out twice without a free.
  lemma {:induction false} NoCopyNoCollision(cmp: Comparison, a: Alloc, live: set<int>, ops: seq<Op>)
    requires Separate(a, live)
    ensures SeparateThroughout(cmp, a, live, ops) <==> NeverLeavesCopy(cmp, a, ops)
    ensures NeverLeavesCopy(cmp, a, ops) ==> NeverHandsOutLive(cmp, a, live, ops)
    decreases ops
  {
    if ops != [] {
      var b, after := Apply(cmp, a, ops[0]), LiveAfter(a, live, ops[0]);
      match ops[0] {
        case Take => SeparateTake(a, live);
        case Give(idx) => SeparateGive(cmp, a, live, idx);
        case Reset =>
      }
      if Separate(b, after) {
        NoCopyNoCollision(cmp, b, after, ops[1..]);
      }
    }
  }

  // With the comparison repaired no copy ever waits, whatever is freed.
  lemma {:induction false} RepairedNeverCollides(a: Alloc, live: set<int>, ops: seq<Op>)
    requires Honest(a) && Separate(a, live)
    ensures NeverLeavesCopy(Repaired, a, ops) && NeverHandsOutLive(Repaired, a, live, ops)
    decreases ops
  {
    HonestLeavesNoCopy(a);
    if ops != [] {
      var b, after := Apply(Repaired, a, ops[0]), LiveAfter(a, live, ops[0]);
      match ops[0] {
        case Take =>
          TakeRefines(a);
          SeparateTake(a, live);
        case Give(idx) =>
          GiveRefines(Repaired, a, idx);
          SeparateGive(Repaired, a, live, idx);
        case Reset =>
      }
      RepairedNeverCollides(b, after, ops[1..]);
    }
  }

  lemma HonestLeavesNoCopy(a: Alloc)
    requires Honest(a)
    ensures !CopyWaits(a)
  {
  }

  // -------- the index types --------

  datatype Width = Bits16 | Bits32

  function Half(w: Width): int {
    if w.Bits16? then 0x8000 else 0x8000_0000
  }

  // (Index_t)n for a two's-complement Index_t
  function Cast(w: Width, n: int): int {
    if w.Bits16? then (n + 0x8000) % 0x1_0000 - 0x8000
    else (n + 0x8000_0000) % 0x1_0000_0000 - 0x8000_0000
  }

  function NumFree(w: Width, a: Alloc): int {
    Cast(w, |a.free|)
  }

  function NumLive(w: Width, a: Alloc): int {
    Cast(w, a.next - Cast(w, |a.free|))
  }

  lemma CastIsExactIff(w: Width, n: int)
    ensures Cast(w, n) == n <==> -Half(w) <= n < Half(w)
    ensures w.Bits16? ==> (Cast(w, n) == n <==> -32768 <= n <= 32767)
    ensures w.Bits32? ==> (Cast(w, n) == n <==> -2147483648 <= n <= 2147483647)
  {
  }

  lemma PartitionCounts(w: Width, a: Alloc, live: set<int>)
    requires Partition(a, live) && a.max < Half(w)
    ensures NumLive(w, a) == |live| == a.next - |a.free|
    ensures NumFree(w, a) == |Elements(a.free)| == |a.free|
  {
    UpToSize(a.next);
    DistinctSize(a.free);
    assert |Elements(a.free) + live| == |Elements(a.free)| + |live|;
    CastIsExactIff(w, |a.free|);
    CastIsExactIff(w, a.next - |a.free|);
  }

  // As written or repaired, whatever the order of the frees: if only holders free, then at the end of
  // every run, and so at each point of it, live and free indices partition [0, next), the counts are
  // exact, and allocate returns -1 exactly when max indices are live and otherwise an index nobody holds.
  lemma HoldersNeverCollide(cmp: Comparison, w: Width, max: int, preallocated: int, ops: seq<Op>)
    requires 0 <= preallocated <= max < Half(w)
    requires HoldersOnly(cmp, New(max, preallocated), UpTo(preallocated), ops)
    ensures var a := ApplyAll(cmp, New(max, preallocated), ops);
      var live := LiveAtEnd(cmp, New(max, preallocated), UpTo(preallocated), ops);
      var r := TakeIndex(a).1;
      && Partition(a, live) && a.max == max
      && NumLive(w, a) == |live| && NumFree(w, a) == |Elements(a.free)|
      && (r == INVALID_INDEX <==> |live| == max)
      && (r != INVALID_INDEX ==> 0 <= r < max && r !in live)
  {
    assert Elements([]) == {};
    RunKeepsPartition(cmp, New(max, preallocated), UpTo(preallocated), ops);
    var a := ApplyAll(cmp, New(max, preallocated), ops);
    var live := LiveAtEnd(cmp, New(max, preallocated), UpTo(preallocated), ops);
    PartitionCounts(w, a, live);
    TakeKeepsPartition(a, live);
  }

  // -------- the counters when anyone may free --------

  lemma {:induction false} RepetitionsShrink(s: seq<int>)
    ensures |Elements(s)| <= |s| && (|Elements(s)| == |s| <==> Distinct(s))
  {
    if s == [] {
      assert Elements(s) == {};
    } else {
      var front, last := s[..|s| - 1], s[|s| - 1];
      assert s == front + [last];
      RepetitionsShrink(front);
      assert Elements(s) == Elements(front) + {last};
      assert Distinct(s) <==> Distinct(front) && last !in front by {
        assert forall i | 0 <= i < |front| :: s[i] == front[i];
      }
      assert last in front <==> last in Elements(front);
    }
  }

  // The counters say how many indices are free and how many are not.
  ghost predicate CountsExact(w: Width, a: Alloc) {
    NumFree(w, a) == |Elements(a.free)| && NumLive(w, a) == |UpTo(a.next) - Elements(a.free)|
  }

  lemma SizesOf(a: Alloc)
    requires InRange(a) && a.next >= 0
    ensures |UpTo(a.next) - Elements(a.free)| == a.next - |Elements(a.free)| && |Elements(a.free)| <= a.next
  {
    UpToSize(a.next);
    assert Elements(a.free) <= UpTo(a.next);
    assert UpTo(a.next) == (UpTo(a.next) - Elements(a.free)) + Elements(a.free);
  }

  lemma DistinctCountsExactly(w: Width, a: Alloc)
    requires InRange(a) && 0 <= a.next < Half(w) && Distinct(a.free)
    ensures CountsExact(w, a)
  {
    SizesOf(a);
    RepetitionsShrink(a.free);
    CastIsExactIff(w, |a.free|);
    CastIsExactIff(w, a.next - |a.free|);
  }

  // While every free index is on the list once, a free keeps the counters exact exactly if the index is not on it.
  lemma GiveCountsExactlyIff(cmp: Comparison, w: Width, a: Alloc, idx: int)
    requires InRange(a) && 0 <= a.next < Half(w) && Distinct(a.free) && Check(a, idx)
    ensures var b := GiveIndex(cmp, a, idx);
      && (CountsExact(w, b) <==> idx !in a.free)
      && (Distinct(b.free) <==> idx !in a.free)
  {
    var b := GiveIndex(cmp, a, idx);
    assert Distinct(b.free) <==> idx !in a.free by { DistinctAppendIff(a.free, idx); }
    if idx !in a.free {
      DistinctCountsExactly(w, b);
    } else {
      assert Elements(b.free) == Elements(a.free);
      assert |a.free| == |Elements(a.free)| <= a.next by {
        RepetitionsShrink(a.free);
        SizesOf(a);
      }
      CastIsExactIff(w, |a.free|);
      assert NumFree(w, b) != |Elements(b.free)|;
    }
  }

  lemma DistinctAppendIff(s: seq<int>, x: int)
    requires Distinct(s)
    ensures Distinct(s + [x]) <==> x !in s
  {
    if x in s {
      var i :| 0 <= i < |s| && s[i] == x;
      assert (s + [x])[i] == (s + [x])[|s|];
    }
  }

  // No free in the run is of an index that is on the list already.
  ghost predicate NeverFreesTwice(cmp: Comparison, a: Alloc, ops: seq<Op>)
    decreases ops
  {
    ops == [] ||
    (!(ops[0].Give? && Check(a, ops[0].idx) && ops[0].idx in a.free)
     && NeverFreesTwice(cmp, Apply(cmp, a, ops[0]), ops[1..]))
  }

  ghost predicate CountsExactThroughout(cmp: Comparison, w: Width, a: Alloc, ops: seq<Op>)
    decreases ops
  {
    CountsExact(w, a) && (ops == [] || CountsExactThroughout(cmp, w, Apply(cmp, a, ops[0]), ops[1..]))
  }

  lemma TakeKeepsDistinct(a: Alloc)
    requires InRange(a) && a.next >= 0 && Distinct(a.free)
    ensures var b := TakeIndex(a).0;
      InRange(b) && a.next <= b.next <= (if a.next < a.max then a.max else a.next) && Distinct(b.free)
  {
    if a.free != [] {
      var list := Ordered(a);
      DistinctPermutation(a.free, list);
      DistinctDrop(list);
      TakeShrinks(a);
      forall x | x in TakeIndex(a).0.free
        ensures x in a.free
      {
        TakeMembers(a, x);
      }
    }
  }

  // Over any run with frees by anyone: the counters are exact after every operation exactly if no index is
  // freed that is free already.
  lemma {:induction false} CountsExactIff(cmp: Comparison, w: Width, a: Alloc, ops: seq<Op>)
    requires InRange(a) && 0 <= a.next < Half(w) && a.max < Half(w) && Distinct(a.free)
    ensures CountsExactThroughout(cmp, w, a, ops) <==> NeverFreesTwice(cmp, a, ops)
    decreases ops
  {
    DistinctCountsExactly(w, a);
    if ops != [] {
      var b := Apply(cmp, a, ops[0]);
      match ops[0] {
        case Take =>
          TakeKeepsDistinct(a);
          CountsExactIff(cmp, w, b, ops[1..]);
        case Give(idx) =>
          if Check(a, idx) {
            GiveCountsExactlyIff(cmp, w, a, idx);
          }
          if !(Check(a, idx) && idx in a.free) {
            CountsExactIff(cmp, w, b, ops[1..]);
          }
        case Reset => CountsExactIff(cmp, w, b, ops[1..]);
      }
    }
  }
}

/** The allocator's own code. */
module IndexAllocatorClass {
  import opened AllocatorModel

  class IndexAllocator {
    const width: Width
    const maxNumElements: int
    var freeIndices: seq<int>
    var nextNewIndex: int
    var freeIndicesAreSorted: bool

    // every Index_t holds a value of its type
    ghost predicate Valid()
      reads this
    {
      && -Half(width) <= nextNewIndex < Half(width)
      && -Half(width) <= maxNumElements < Half(width)
    }

    function State(): Alloc
      reads this
    {
      Alloc(freeIndices, maxNumElements, nextNewIndex, freeIndicesAreSorted)
    }

    constructor (width: Width, max: int, preallocated: int)
      requires -Half(width) <= max < Half(width) && -Half(width) <= preallocated < Half(width)
      ensures Valid() && State() == New(max, preallocated) && this.width == width
      ensures freeIndices == [] && freeIndicesAreSorted && maxNumElements == max && nextNewIndex == preallocated
    {
      this.width, maxNumElements := width, max;
      freeIndices, nextNewIndex, freeIndicesAreSorted := [], preallocated, true;
    }

    method Allocate() returns (idx: int)
      requires Valid()
      modifies this
      ensures Valid() && State() == TakeIndex(old(State())).0 && idx == TakeIndex(old(State())).1
      // nothing to recycle: the next fresh index, as long as there is one
      ensures old(freeIndices) == [] ==>
        && freeIndices == [] && freeIndicesAreSorted == old(freeIndicesAreSorted)
        && (if old(nextNewIndex) < maxNumElements then idx == old(nextNewIndex) && nextNewIndex == idx + 1
            else idx == -1 && nextNewIndex == old(nextNewIndex))
      // a list not flagged sorted: the lowest index, every copy of it gone, and the others sorted
      ensures old(freeIndices) != [] && !old(freeIndicesAreSorted) ==>
        && idx in old(freeIndices) && (forall k | 0 <= k < |old(freeIndices)| :: idx <= old(freeIndices)[k])
        && multiset(freeIndices) == multiset(old(freeIndices))[idx := 0]
        && (forall j, k | 0 <= j < k < |freeIndices| :: freeIndices[j] >= freeIndices[k])
      // a list flagged sorted: the last index, and the copies just before it gone
      ensures old(freeIndices) != [] && old(freeIndicesAreSorted) ==>
        && idx == old(freeIndices)[|old(freeIndices)| - 1]
        && freeIndices < old(freeIndices) && (freeIndices == [] || freeIndices[|freeIndices| - 1] != idx)
        && (forall k | |freeIndices| <= k < |old(freeIndices)| :: old(freeIndices)[k] == idx)
      ensures old(freeIndices) != [] ==> freeIndicesAreSorted && nextNewIndex == old(nextNewIndex)
    {
      if freeIndices == [] {
        idx := nextNewIndex;
        if idx >= maxNumElements {
          return INVALID_INDEX;
        }
        nextNewIndex := nextNewIndex + 1;
        return;
      }
      ghost var was := State();
      idx := Recycle();
      if was.sorted { TakeFlagged(was); } else { TakeUnflagged(was); }
    }

    // When recycling, the list is sorted high to low if it is not flagged to be.
    method SortOnDemand()
      modifies this
      ensures State() == old(State()).(free := Ordered(old(State())), sorted := true)
    {
      if !freeIndicesAreSorted {
        freeIndices := SortDescending(freeIndices);
        freeIndicesAreSorted := true;
      }
    }

    method Recycle() returns (idx: int)
      requires Valid() && freeIndices != []
      modifies this
      ensures Valid() && State() == TakeIndex(old(State())).0 && idx == TakeIndex(old(State())).1
    {
      SortOnDemand();
      idx := freeIndices[|freeIndices| - 1];
      freeIndices := freeIndices[..|freeIndices| - 1];
      DropDuplicates(idx);
    }

    function GetNumLive(): (n: int)
      requires Valid() && nextNewIndex >= 0 && |freeIndices| < Half(width)
      reads this
      ensures n == nextNewIndex - |freeIndices|
    {
      CastIsExactIff(width, |freeIndices|);
      CastIsExactIff(width, nextNewIndex - |freeIndices|);
      NumLive(width, State())
    }

    function GetNumFree(): (n: int)
      requires |freeIndices| < Half(width)
      reads this
      ensures n == |freeIndices|
    {
      CastIsExactIff(width, |freeIndices|);
      NumFree(width, State())
    }

    // An index that was freed more than once is on the list more than once.
    method DropDuplicates(idx: int)
      modifies this
      ensures State() == old(State()).(free := DropBack(old(freeIndices), idx))
    {
      while |freeIndices| > 0 && freeIndices[|freeIndices| - 1] == idx
        invariant State() == old(State()).(free := freeIndices)
        invariant DropBack(freeIndices, idx) == DropBack(old(freeIndices), idx)
        decreases |freeIndices|
      {
        freeIndices := freeIndices[..|freeIndices| - 1];
      }
    }

    // The comparison is the source's; see Trips for what it gets wrong.
    method Free(idx: int)
      requires Valid()
      modifies this
      ensures Valid() && State() == GiveIndex(AsWritten, old(State()), idx)
      ensures freeIndices == old(freeIndices) + (if 0 <= idx < nextNewIndex then [idx] else [])
      ensures nextNewIndex == old(nextNewIndex)
      ensures freeIndicesAreSorted == (old(freeIndicesAreSorted) &&
        !(0 <= idx < nextNewIndex && old(freeIndices) != [] && idx < old(freeIndices)[|old(freeIndices)| - 1]))
    {
      if Check(State(), idx) {
        if freeIndicesAreSorted && |freeIndices| > 0 && idx < freeIndices[|freeIndices| - 1] {
          freeIndicesAreSorted := false;
        }
        freeIndices := freeIndices + [idx];
      }
    }

    method ClearIndices()
      requires Valid()
      modifies this
      ensures Valid() && State() == Clear(old(State()))
      ensures freeIndices == [] && nextNewIndex == 0 && freeIndicesAreSorted == old(freeIndicesAreSorted)
    {
      freeIndices := [];
      nextNewIndex := 0;
    }
  }
}
