/** The loop that takes members out of a list by moving the last one into their place. */
module SwapRemoval {
  import opened Sequences

  datatype Swept<T> = Swept(
    kept: seq<T>,      // what is left of the list
    removed: seq<T>,   // what was taken out, in order
    visited: seq<T>)   // what the loop looked at, in order

  // The list after the last member has been moved into place i and the last place given up.
  function LastMoved<T>(list: seq<T>, i: nat): (r: seq<T>)
    requires i < |list|
    ensures |r| == |list| - 1
  {
    list[i := list[|list| - 1]][..|list| - 1]
  }

  // The loop of advanceConsumers and removeConsumer from index i on; gone holds the members to remove.
  function Sweep<T(==)>(list: seq<T>, i: nat, gone: set<T>): Swept<T>
    decreases if i < |list| then |list| - i else 0
  {
    if i >= |list| then Swept(list, [], [])
    else if list[i] in gone then
      var last := |list| - 1;
      var rest := if i != last then Sweep(LastMoved(list, i), i, gone) else Sweep(list[..last], i + 1, gone);
      Swept(rest.kept, [list[i]] + rest.removed, [list[i]] + rest.visited)
    else
      var rest := Sweep(list, i + 1, gone);
      Swept(rest.kept, rest.removed, [list[i]] + rest.visited)
  }

  lemma Appended<T>(s: seq<T>, x: T)
    ensures multiset(s + [x]) == multiset(s) + multiset{x}
  {
  }

  lemma Exchanged<T>(front: seq<T>, x: T, mid: seq<T>, z: T)
    ensures multiset(front + [x] + mid + [z]) == multiset(front + [z] + mid) + multiset{x}
  {
    Appended(front, x);
    Appended(front, z);
    Appended(front + [x] + mid, z);
    assert multiset(front + [x] + mid) == multiset(front + [x]) + multiset(mid);
    assert multiset(front + [z] + mid) == multiset(front + [z]) + multiset(mid);
  }

  lemma SpelledOut<T>(list: seq<T>, i: nat)
    requires i < |list|
    ensures list == list[..|list| - 1] + [list[|list| - 1]]
    ensures i < |list| - 1 ==>
      && list == list[..i] + [list[i]] + list[i + 1..|list| - 1] + [list[|list| - 1]]
      && LastMoved(list, i) == list[..i] + [list[|list| - 1]] + list[i + 1..|list| - 1]
    ensures i == |list| - 1 ==> LastMoved(list, i) == list[..|list| - 1]
  {
  }

  lemma MoveLast<T>(list: seq<T>, i: nat)
    requires i < |list|
    ensures multiset(list) == multiset(LastMoved(list, i)) + multiset{list[i]}
  {
    var last := |list| - 1;
    SpelledOut(list, i);
    if i == last {
      Appended(list[..last], list[last]);
    } else {
      Exchanged(list[..i], list[i], list[i + 1..last], list[last]);
    }
  }

  lemma PutInFront<T>(x: T, a: multiset<T>, s: seq<T>, b: multiset<T>)
    requires a + multiset(s) == b
    ensures a + multiset([x] + s) == b + multiset{x}
  {
    assert multiset([x] + s) == multiset{x} + multiset(s);
  }

  lemma PutBetween<T>(a: seq<T>, x: T, s: seq<T>, b: multiset<T>)
    requires multiset(a + [x]) + multiset(s) == b
    ensures multiset(a) + multiset([x] + s) == b
  {
    assert multiset([x] + s) == multiset{x} + multiset(s);
    assert multiset(a + [x]) == multiset(a) + multiset{x};
  }

  // The loop ends with the list split, as a multiset, into what stays and what goes.
  lemma {:induction false} SweepConserves<T>(list: seq<T>, i: nat, gone: set<T>)
    requires i <= |list|
    ensures multiset(Sweep(list, i, gone).kept) + multiset(Sweep(list, i, gone).removed) == multiset(list)
    decreases |list| - i
  {
    if i < |list| {
      if list[i] in gone {
        MoveLast(list, i);
        var last := |list| - 1;
        var moved := LastMoved(list, i);
        if i != last {
          SweepConserves(moved, i, gone);
        } else {
          assert moved == list[..last];
          assert Sweep(moved, i + 1, gone) == Swept(moved, [], []);
        }
        var rest := if i != last then Sweep(moved, i, gone) else Sweep(moved, i + 1, gone);
        PutInFront(list[i], multiset(rest.kept), rest.removed, multiset(moved));
      } else {
        SweepConserves(list, i + 1, gone);
      }
    }
  }

  // It looks at every member once per occurrence: those before i, and each one visited from there on.
  lemma {:induction false} SweepVisitsAll<T>(list: seq<T>, i: nat, gone: set<T>)
    requires i <= |list|
    ensures multiset(list[..i]) + multiset(Sweep(list, i, gone).visited) == multiset(list)
    decreases |list| - i
  {
    var visited := Sweep(list, i, gone).visited;
    if i == |list| {
      assert list[..i] == list;
    } else if list[i] !in gone {
      SweepVisitsAll(list, i + 1, gone);
      assert list[..i + 1] == list[..i] + [list[i]];
      PutBetween(list[..i], list[i], Sweep(list, i + 1, gone).visited, multiset(list));
    } else if i == |list| - 1 {
      assert visited == [list[i]] + Sweep(list[..i], i + 1, gone).visited == [list[i]];
      assert list == list[..i] + [list[i]];
      PutBetween(list[..i], list[i], [], multiset(list));
    } else {
      var moved := LastMoved(list, i);
      assert visited == [list[i]] + Sweep(moved, i, gone).visited;
      assert multiset(list) == multiset(moved) + multiset{list[i]} by { MoveLast(list, i); }
      assert moved[..i] == list[..i];
      SweepVisitsAll(moved, i, gone);
      PutInFront(list[i], multiset(list[..i]), Sweep(moved, i, gone).visited, multiset(moved));
    }
  }

  lemma {:induction false} SweepKeepsMembers<T>(list: seq<T>, i: nat, gone: set<T>)
    ensures forall x | x in Sweep(list, i, gone).kept :: x in list
    decreases if i < |list| then |list| - i else 0
  {
    if i < |list| {
      var last := |list| - 1;
      if list[i] !in gone {
        SweepKeepsMembers(list, i + 1, gone);
      } else if i != last {
        SweepKeepsMembers(LastMoved(list, i), i, gone);
      } else {
        SweepKeepsMembers(list[..last], i + 1, gone);
      }
    }
  }

  // Exactly the members of gone are taken out.
  lemma {:induction false} SweepSeparates<T>(list: seq<T>, i: nat, gone: set<T>)
    requires forall k | 0 <= k < i && k < |list| :: list[k] !in gone
    ensures forall k | 0 <= k < |Sweep(list, i, gone).kept| :: Sweep(list, i, gone).kept[k] !in gone
    ensures forall k | 0 <= k < |Sweep(list, i, gone).removed| :: Sweep(list, i, gone).removed[k] in gone
    decreases if i < |list| then |list| - i else 0
  {
    if i < |list| {
      var last := |list| - 1;
      var rest;
      if list[i] !in gone {
        SweepSeparates(list, i + 1, gone);
        rest := Sweep(list, i + 1, gone);
      } else if i != last {
        SweepSeparates(LastMoved(list, i), i, gone);
        rest := Sweep(LastMoved(list, i), i, gone);
      } else {
        SweepSeparates(list[..last], i + 1, gone);
        rest := Sweep(list[..last], i + 1, gone);
      }
      assert Sweep(list, i, gone).kept == rest.kept;
      assert Sweep(list, i, gone).removed == if list[i] in gone then [list[i]] + rest.removed else rest.removed;
    }
  }

  // For any list, with or without repetitions: every occurrence is looked at once, and the list is split
  // into the occurrences that stay and those that go.
  lemma SweepSplits<T>(list: seq<T>, gone: set<T>)
    ensures var r := Sweep(list, 0, gone);
      && multiset(r.visited) == multiset(list)
      && (forall x :: multiset(r.kept)[x] == if x in gone then 0 else multiset(list)[x])
      && (forall x :: multiset(r.removed)[x] == if x in gone then multiset(list)[x] else 0)
  {
    var r := Sweep(list, 0, gone);
    SweepConserves(list, 0, gone);
    SweepVisitsAll(list, 0, gone);
    SweepSeparates(list, 0, gone);
    assert multiset(list[..0]) + multiset(r.visited) == multiset(r.visited);
    forall x
      ensures multiset(r.kept)[x] == if x in gone then 0 else multiset(list)[x]
      ensures multiset(r.removed)[x] == if x in gone then multiset(list)[x] else 0
    {
      assert multiset(r.kept)[x] + multiset(r.removed)[x] == multiset(list)[x];
      assert x in multiset(r.kept) ==> x in r.kept;
      assert x in multiset(r.removed) ==> x in r.removed;
    }
  }

  lemma SweepMembers<T>(list: seq<T>, gone: set<T>)
    ensures var r := Sweep(list, 0, gone);
      && (forall x :: x in r.kept <==> x in list && x !in gone)
      && (forall x :: x in r.removed <==> x in list && x in gone)
      && (r.kept != [] <==> exists k :: 0 <= k < |list| && list[k] !in gone)
  {
    var r := Sweep(list, 0, gone);
    SweepSplits(list, gone);
    SweepConserves(list, 0, gone);
    SweepSeparates(list, 0, gone);
    if r.kept != [] {
      assert r.kept[0] in multiset(list);
      assert r.kept[0] in list;
    }
    forall x
      ensures x in r.kept <==> x in list && x !in gone
      ensures x in r.removed <==> x in list && x in gone
    {
      assert x in r.kept <==> multiset(r.kept)[x] > 0;
      assert x in r.removed <==> multiset(r.removed)[x] > 0;
      assert x in list <==> multiset(list)[x] > 0;
    }
  }

  lemma SweptAreListed<T>(list: seq<T>, gone: set<T>, all: set<T>)
    requires AllIn(list, all)
    ensures AllIn(Sweep(list, 0, gone).visited, all) && AllIn(Sweep(list, 0, gone).removed, all)
  {
    var r := Sweep(list, 0, gone);
    SweepConserves(list, 0, gone);
    SweepVisitsAll(list, 0, gone);
    MembersStay(r.visited, multiset(list), list, all);
    MembersStay(r.removed, multiset(list), list, all);
  }

  lemma MembersStay<T>(s: seq<T>, m: multiset<T>, list: seq<T>, all: set<T>)
    requires multiset(s) <= m == multiset(list) && AllIn(list, all)
    ensures AllIn(s, all)
  {
    forall k | 0 <= k < |s|
      ensures s[k] in all
    {
      assert s[k] in multiset(s);
      assert s[k] in multiset(list);
      assert s[k] in list;
    }
  }

  // What is removed has no repetitions exactly if none of it is listed twice.
  lemma RemovedDistinctIff<T>(list: seq<T>, gone: set<T>)
    ensures Distinct(Sweep(list, 0, gone).removed) <==>
      forall x | x in list && x in gone :: multiset(list)[x] <= 1
  {
    var removed := Sweep(list, 0, gone).removed;
    DistinctIff(removed);
    if Distinct(removed) {
      forall x | x in list && x in gone
        ensures multiset(list)[x] <= 1
      {
        RemovedCount(list, gone, x);
      }
    }
    if forall x | x in list && x in gone :: multiset(list)[x] <= 1 {
      forall x | x in removed
        ensures multiset(removed)[x] <= 1
      {
        RemovedCount(list, gone, x);
      }
    }
  }

  lemma RemovedCount<T>(list: seq<T>, gone: set<T>, x: T)
    ensures var removed := Sweep(list, 0, gone).removed;
      && multiset(removed)[x] == (if x in gone then multiset(list)[x] else 0)
      && (x in removed <==> x in list && x in gone)
  {
    SweepSplits(list, gone);
    SweepMembers(list, gone);
  }

  lemma DistinctParts<T>(s: seq<T>, t: seq<T>)
    requires Distinct(s + t)
    ensures Distinct(s) && Distinct(t)
  {
    assert forall i | 0 <= i < |s| :: (s + t)[i] == s[i];
    assert forall i | 0 <= i < |t| :: (s + t)[|s| + i] == t[i];
  }

  // A list of distinct members is visited once each and split into two lists of distinct members.
  lemma SweepDistinct<T>(list: seq<T>, gone: set<T>)
    requires Distinct(list)
    ensures var r := Sweep(list, 0, gone);
      && Distinct(r.visited) && Distinct(r.kept) && Distinct(r.removed)
      && (forall x | x in r.visited :: x in list) && (forall x | x in list :: x in r.visited)
      && (forall x | x in r.kept :: x in list && x !in gone) && (forall x | x in list && x !in gone :: x in r.kept)
      && (forall x | x in r.removed :: x in list && x in gone) && (forall x | x in list && x in gone :: x in r.removed)
  {
    var r := Sweep(list, 0, gone);
    SweepConserves(list, 0, gone);
    SweepVisitsAll(list, 0, gone);
    SweepSeparates(list, 0, gone);
    assert multiset(list[..0]) + multiset(r.visited) == multiset(r.visited);
    DistinctPermutation(list, r.visited);
    assert multiset(r.kept + r.removed) == multiset(list);
    DistinctPermutation(list, r.kept + r.removed);
    DistinctParts(r.kept, r.removed);
    SameMembers(list, r.visited);
    SameMembers(list, r.kept + r.removed);
    assert forall x | x in r.kept :: x in r.kept + r.removed;
    assert forall x | x in r.removed :: x in r.kept + r.removed;
  }

  // One iteration looks at list[i] and goes on as Sweep says.
  lemma SweepIteration<T>(list: seq<T>, i: nat, gone: set<T>)
    requires i < |list|
    ensures var now := Sweep(list, i, gone);
      && now.visited != [] && now.visited[0] == list[i]
      && (list[i] !in gone ==>
            var rest := Sweep(list, i + 1, gone);
            rest.kept == now.kept && rest.removed == now.removed && rest.visited == now.visited[1..])
      && (list[i] in gone ==>
            var rest := Sweep(LastMoved(list, i), if i != |list| - 1 then i else i + 1, gone);
            rest.kept == now.kept && [list[i]] + rest.removed == now.removed && rest.visited == now.visited[1..])
  {
    LastInPlace(list, i);
  }

  lemma LastInPlace<T>(list: seq<T>, i: nat)
    requires i < |list|
    ensures i == |list| - 1 ==> LastMoved(list, i) == list[..|list| - 1]
  {
  }

  lemma SameMembers<T>(s: seq<T>, t: seq<T>)
    requires multiset(s) == multiset(t)
    ensures forall x | x in s :: x in t
    ensures forall x | x in t :: x in s
  {
    assert forall x | x in s :: x in multiset(t);
    assert forall x | x in t :: x in multiset(s);
  }
}

/** The tracer of src/util/TraceUtil.h on values: what each of its operations does to the whole state. */
module TraceModel {
  import opened Options
  import opened Sequences
  import opened SwapRemoval

  // An event together with the args string it was given, if any.
  datatype Entry = Entry(name: string, cat: string, ts: nat, tid: nat, arg: Option<string>, ph: char)

  // What consumers are handed: each record stands for one rendered string.
  datatype Record = EventRecord(entry: Entry) | MetaRecord(text: string)

  datatype Lifecycle = ACTIVE | EXPIRED | COMPLETE

  const MAX_TRACE_CONSUMER_LIFETIME: nat := 10_000   // msec
  const TWO_64: nat := 0x1_0000_0000_0000_0000

  type Lifetime = n: nat | n <= MAX_TRACE_CONSUMER_LIFETIME
  type Word64 = n: nat | n < TWO_64

  // A consumer: its fields, everything it was handed so far, and how often it was finished.
  datatype View = View(state: Lifecycle, lifetime: Lifetime, expiry: Word64, received: seq<Record>, finishes: nat)

  function Deadline(now: Word64, lifetime: Lifetime): Word64 {
    (now + lifetime) % TWO_64
  }

  function EventRecords(entries: seq<Entry>): (records: seq<Record>)
    ensures |records| == |entries|
    ensures forall k | 0 <= k < |entries| :: records[k] == EventRecord(entries[k])
  {
    seq(|entries|, k requires 0 <= k < |entries| => EventRecord(entries[k]))
  }

  function MetaRecords(texts: seq<string>): (records: seq<Record>)
    ensures |records| == |texts|
    ensures forall k | 0 <= k < |texts| :: records[k] == MetaRecord(texts[k])
  {
    seq(|texts|, k requires 0 <= k < |texts| => MetaRecord(texts[k]))
  }

  datatype Tracing<Id> = Tracing(
    buffer: seq<Entry>,
    meta: seq<string>,
    registered: seq<Id>,
    views: map<Id, View>,     // every consumer that was ever registered
    enabled: bool,
    accepted: seq<Entry>,     // history: every event that was recorded
    flushed: nat)             // history: how many of them have left the buffer
  {
    ghost predicate WellFormed() {
      forall id | id in registered :: id in views
    }
  }

  function Start<Id>(): Tracing<Id> {
    Tracing([], [], [], map[], false, [], 0)
  }

  function Add<Id>(t: Tracing<Id>, e: Entry): Tracing<Id> {
    if t.enabled then t.(buffer := t.buffer + [e], accepted := t.accepted + [e]) else t
  }

  // addConsumer; v is the consumer as the caller hands it over.
  function Register<Id>(t: Tracing<Id>, id: Id, v: View, now: Word64): Tracing<Id> {
    t.(registered := t.registered + [id],
       views := t.views[id := v.(expiry := Deadline(now, v.lifetime))],
       enabled := true)
  }

  function Remove<Id(==)>(t: Tracing<Id>, id: Id): (u: Tracing<Id>)
    ensures t.WellFormed() ==> u.WellFormed()
  {
    SweepKeepsMembers(t.registered, 0, {id});
    var kept := Sweep(t.registered, 0, {id}).kept;
    t.(registered := kept, enabled := t.enabled && kept != [])
  }

  function ExtendView(v: View, now: Word64): View {
    v.(expiry := Deadline(now, v.lifetime))
  }

  // consumeEvents followed by checkExpiry
  function Visit(v: View, batch: seq<Record>, now: Word64): View {
    v.(received := v.received + batch, state := if now > v.expiry then EXPIRED else v.state)
  }

  function FinishView(v: View, meta: seq<string>): View {
    v.(received := v.received + MetaRecords(meta), state := COMPLETE, finishes := v.finishes + 1)
  }

  // A consumer is visited, and finished if it expires, once for each time it is registered.
  function VisitTimes(v: View, batch: seq<Record>, now: Word64, n: nat): View
    decreases n
  {
    if n == 0 then v else VisitTimes(Visit(v, batch, now), batch, now, n - 1)
  }

  function FinishTimes(v: View, meta: seq<string>, n: nat): View
    decreases n
  {
    if n == 0 then v else FinishTimes(FinishView(v, meta), meta, n - 1)
  }

  // One consumer's part in one call of advanceConsumers; n is how often it is registered.
  function Serve(v: View, batch: seq<Record>, now: Word64, meta: seq<string>, n: nat): View {
    var w := VisitTimes(v, batch, now, n);
    if w.state.EXPIRED? then FinishTimes(w, meta, n) else w
  }

  function Times<T>(s: seq<T>, n: nat): seq<T> {
    if n == 0 then [] else s + Times(s, n - 1)
  }

  lemma {:induction false} VisitTimesIs(v: View, batch: seq<Record>, now: Word64, n: nat)
    ensures VisitTimes(v, batch, now, n)
         == v.(received := v.received + Times(batch, n), state := if n > 0 && now > v.expiry then EXPIRED else v.state)
    decreases n
  {
    if n == 0 {
      assert v.received + [] == v.received;
    } else {
      VisitTimesIs(Visit(v, batch, now), batch, now, n - 1);
      assert v.received + batch + Times(batch, n - 1) == v.received + Times(batch, n);
    }
  }

  lemma {:induction false} FinishTimesIs(v: View, meta: seq<string>, n: nat)
    ensures FinishTimes(v, meta, n)
         == v.(received := v.received + Times(MetaRecords(meta), n),
               state := if n > 0 then COMPLETE else v.state,
               finishes := v.finishes + n)
    decreases n
  {
    if n == 0 {
      assert v.received + [] == v.received;
    } else {
      FinishTimesIs(FinishView(v, meta), meta, n - 1);
      assert v.received + MetaRecords(meta) + Times(MetaRecords(meta), n - 1)
          == v.received + Times(MetaRecords(meta), n);
    }
  }

  // What one call does to a consumer that is not EXPIRED beforehand, however often it is registered: each
  // registration gets it the whole batch; past the deadline each also gets it the meta events.
  lemma ServeIs(v: View, batch: seq<Record>, now: Word64, meta: seq<string>, n: nat)
    requires !v.state.EXPIRED?
    ensures var over := n > 0 && now > v.expiry;
      Serve(v, batch, now, meta, n)
        == v.(received := v.received + Times(batch, n) + Times(MetaRecords(meta), if over then n else 0),
              state := if over then COMPLETE else v.state,
              finishes := v.finishes + if over then n else 0)
  {
    VisitTimesIs(v, batch, now, n);
    FinishTimesIs(VisitTimes(v, batch, now, n), meta, n);
  }

  lemma TimesOne<T>(s: seq<T>)
    ensures Times(s, 1) == s && Times(s, 0) == []
  {
    assert Times(s, 1) == s + Times(s, 0);
  }

  // Who is EXPIRED once visited.
  ghost function Late<Id>(views: map<Id, View>, now: Word64): set<Id> {
    set id | id in views && Visit(views[id], [], now).state.EXPIRED?
  }

  ghost function ServeAll<Id>(t: Tracing<Id>, batch: seq<Record>, now: Word64): (u: Tracing<Id>)
    requires t.WellFormed()
    ensures u.WellFormed()
  {
    SweepKeepsMembers(t.registered, 0, Late(t.views, now));
    var kept := Sweep(t.registered, 0, Late(t.views, now)).kept;
    t.(registered := kept,
       views := map id | id in t.views :: Serve(t.views[id], batch, now, t.meta, multiset(t.registered)[id]),
       enabled := t.enabled && kept != [])
  }

  ghost function Advance<Id>(t: Tracing<Id>, now: Word64): (u: Tracing<Id>)
    requires t.WellFormed()
    ensures u.WellFormed()
  {
    if t.buffer == [] then t
    else
      var served := if t.registered == [] then t else ServeAll(t, EventRecords(t.buffer), now);
      served.(buffer := [], flushed := |t.accepted|)
  }

  // The visits of the loop in order, and the calls of finish that follow.
  function VisitAll<Id>(views: map<Id, View>, batch: seq<Record>, now: Word64, order: seq<Id>): map<Id, View>
    decreases order
  {
    if order == [] || order[0] !in views then views
    else VisitAll(views[order[0] := Visit(views[order[0]], batch, now)], batch, now, order[1..])
  }

  function FinishAll<Id>(views: map<Id, View>, meta: seq<string>, order: seq<Id>): map<Id, View>
    decreases order
  {
    if order == [] || order[0] !in views then views
    else FinishAll(views[order[0] := FinishView(views[order[0]], meta)], meta, order[1..])
  }

  lemma {:induction false} VisitAllIs<Id>(views: map<Id, View>, batch: seq<Record>, now: Word64, order: seq<Id>, id: Id)
    requires id in views && AllIn(order, views.Keys)
    ensures var u := VisitAll(views, batch, now, order);
      u.Keys == views.Keys && u[id] == VisitTimes(views[id], batch, now, multiset(order)[id])
    decreases order
  {
    if order != [] {
      assert order == [order[0]] + order[1..];
      VisitAllIs(views[order[0] := Visit(views[order[0]], batch, now)], batch, now, order[1..], id);
    }
  }

  lemma {:induction false} FinishAllIs<Id>(views: map<Id, View>, meta: seq<string>, order: seq<Id>, id: Id)
    requires id in views && AllIn(order, views.Keys)
    ensures var u := FinishAll(views, meta, order);
      u.Keys == views.Keys && u[id] == FinishTimes(views[id], meta, multiset(order)[id])
    decreases order
  {
    if order != [] {
      assert order == [order[0]] + order[1..];
      FinishAllIs(views[order[0] := FinishView(views[order[0]], meta)], meta, order[1..], id);
    }
  }

  // The views after the loop and the calls of finish.
  function ServedViews<Id>(t: Tracing<Id>, batch: seq<Record>, now: Word64, swept: Swept<Id>): map<Id, View> {
    FinishAll(VisitAll(t.views, batch, now, swept.visited), t.meta, swept.removed)
  }

  // Seen from one consumer they amount to being served once for each registration.
  lemma ServedOne<Id>(t: Tracing<Id>, batch: seq<Record>, now: Word64, id: Id)
    requires t.WellFormed() && id in t.views
    ensures var views := ServedViews(t, batch, now, Sweep(t.registered, 0, Late(t.views, now)));
      && views.Keys == t.views.Keys
      && views[id] == Serve(t.views[id], batch, now, t.meta, multiset(t.registered)[id])
  {
    var late := Late(t.views, now);
    var r := Sweep(t.registered, 0, late);
    SweptAreListed(t.registered, late, t.views.Keys);
    VisitAllIs(t.views, batch, now, r.visited, id);
    FinishAllIs(VisitAll(t.views, batch, now, r.visited), t.meta, r.removed, id);
    assert multiset(r.visited)[id] == multiset(t.registered)[id]
        && multiset(r.removed)[id] == (if id in late then multiset(t.registered)[id] else 0) by {
      SweepSplits(t.registered, late);
    }
    VisitTimesIs(t.views[id], batch, now, multiset(t.registered)[id]);
  }

  // So the loop and the calls of finish are what ServeAll says.
  lemma ServedState<Id>(t: Tracing<Id>, batch: seq<Record>, now: Word64, u: Tracing<Id>)
    requires t.WellFormed() && u == t.(registered := u.registered, enabled := u.enabled, views := u.views)
    requires var swept := Sweep(t.registered, 0, Late(t.views, now));
      && u.registered == swept.kept && u.enabled == (t.enabled && u.registered != [])
      && u.views == ServedViews(t, batch, now, swept)
    ensures u == ServeAll(t, batch, now)
  {
    var all := ServeAll(t, batch, now).views;
    if t.views == map[] {
      ServedNobody(t, batch, now);
    }
    forall id | id in t.views
      ensures u.views.Keys == t.views.Keys && u.views[id] == all[id]
    {
      ServedOne(t, batch, now, id);
    }
  }

  lemma ServedNobody<Id>(t: Tracing<Id>, batch: seq<Record>, now: Word64)
    requires t.WellFormed() && t.views == map[]
    ensures ServedViews(t, batch, now, Sweep(t.registered, 0, Late(t.views, now))) == map[]
  {
  }

  // The first half of shutdown: every deadline becomes the bare lifetime.
  ghost function ExpireAll<Id>(t: Tracing<Id>): Tracing<Id>
    requires t.WellFormed()
  {
    t.(views := map id | id in t.views ::
         if id in t.registered then ExtendView(t.views[id], 0) else t.views[id])
  }

  ghost function Shutdown<Id>(t: Tracing<Id>, now: Word64): (u: Tracing<Id>)
    requires t.WellFormed()
    ensures u.WellFormed()
  {
    Advance(ExpireAll(t), now)
  }

  // -------- runs --------

  datatype Op<Id> =
    | Event(entry: Entry)
    | Meta(text: string)
    | AddConsumer(id: Id, view: View, now: Word64)
    | RemoveConsumer(id: Id)
    | AdvanceConsumers(now: Word64)
    | Stop(now: Word64)
    | UpdateExpiry(id: Id, now: Word64)   // the caller may move a deadline on the fly

  // Callers hand over any consumer at any time, once more or after it is COMPLETE too; what they cannot
  // do is change its state.  A consumer the tracer has not seen is as its constructor made it.
  ghost predicate Allowed<Id>(t: Tracing<Id>, op: Op<Id>) {
    op.AddConsumer? ==>
      if op.id in t.views then op.view == t.views[op.id] else op.view.state.ACTIVE? && op.view.finishes == 0
  }

  ghost function Step<Id>(t: Tracing<Id>, op: Op<Id>): (u: Tracing<Id>)
    requires t.WellFormed()
    ensures u.WellFormed()
  {
    match op
    case Event(e) => Add(t, e)
    case Meta(text) => t.(meta := t.meta + [text])
    case AddConsumer(id, v, now) => Register(t, id, v, now)
    case RemoveConsumer(id) => Remove(t, id)
    case AdvanceConsumers(now) => Advance(t, now)
    case Stop(now) => Shutdown(t, now)
    case UpdateExpiry(id, now) => if id in t.views then t.(views := t.views[id := ExtendView(t.views[id], now)]) else t
  }

  // What every operation keeps, whoever is registered how often.
  ghost predicate Inv<Id>(t: Tracing<Id>) {
    && t.WellFormed()
    && (t.enabled <==> t.registered != [])
    && t.flushed <= |t.accepted| && t.buffer == t.accepted[t.flushed..]
    && (forall id | id in t.views :: Settled(t.views[id]))
  }

  // Between operations a consumer is ACTIVE and was never finished, or COMPLETE and was.
  predicate Settled(v: View) {
    (v.state.ACTIVE? && v.finishes == 0) || (v.state.COMPLETE? && v.finishes > 0)
  }

  lemma ExpireAllKeepsInv<Id>(t: Tracing<Id>)
    requires Inv(t)
    ensures Inv(ExpireAll(t))
  {
  }

  lemma AdvanceKeepsInv<Id>(t: Tracing<Id>, now: Word64)
    requires Inv(t)
    ensures Inv(Advance(t, now))
  {
    if t.buffer != [] && t.registered != [] {
      var u := Advance(t, now);
      forall id | id in u.views
        ensures Settled(u.views[id])
      {
        ServeIs(t.views[id], EventRecords(t.buffer), now, t.meta, multiset(t.registered)[id]);
      }
    }
  }

  lemma StepKeepsInv<Id>(t: Tracing<Id>, op: Op<Id>)
    requires Inv(t) && Allowed(t, op)
    ensures Inv(Step(t, op))
  {
    match op {
      case Event(e) =>
      case Meta(_) =>
      case AddConsumer(_, _, _) =>
      case RemoveConsumer(_) =>
      case AdvanceConsumers(now) => AdvanceKeepsInv(t, now);
      case Stop(now) =>
        ExpireAllKeepsInv(t);
        AdvanceKeepsInv(ExpireAll(t), now);
      case UpdateExpiry(_, _) =>
    }
  }

  ghost predicate AllowedRun<Id>(t: Tracing<Id>, ops: seq<Op<Id>>)
    requires t.WellFormed()
    decreases ops
  {
    ops == [] || (Allowed(t, ops[0]) && AllowedRun(Step(t, ops[0]), ops[1..]))
  }

  ghost function Run<Id>(t: Tracing<Id>, ops: seq<Op<Id>>): (u: Tracing<Id>)
    requires t.WellFormed()
    ensures u.WellFormed()
    decreases ops
  {
    if ops == [] then t else Run(Step(t, ops[0]), ops[1..])
  }

  lemma {:induction false} RunKeepsInv<Id>(t: Tracing<Id>, ops: seq<Op<Id>>)
    requires Inv(t) && AllowedRun(t, ops)
    ensures Inv(Run(t, ops))
    decreases ops
  {
    if ops != [] {
      StepKeepsInv(t, ops[0]);
      RunKeepsInv(Step(t, ops[0]), ops[1..]);
    }
  }

  // -------- one call of advanceConsumers --------

  lemma AdvanceOne<Id>(t: Tracing<Id>, now: Word64, id: Id)
    requires t.WellFormed() && t.buffer != [] && id in t.views && !t.views[id].state.EXPIRED?
    ensures var u := Advance(t, now);
      var n := multiset(t.registered)[id];
      var over := n > 0 && now > t.views[id].expiry;
      && id in u.views
      && multiset(u.registered)[id] == (if over then 0 else n)
      && u.views[id] == t.views[id].(
           received := t.views[id].received + Times(EventRecords(t.buffer), n)
             + Times(MetaRecords(t.meta), if over then n else 0),
           state := if over then COMPLETE else t.views[id].state,
           finishes := t.views[id].finishes + if over then n else 0)
  {
    var n := multiset(t.registered)[id];
    assert id in t.registered <==> n > 0;
    if t.registered == [] {
      assert t.views[id].received + [] + [] == t.views[id].received;
    } else {
      assert multiset(Advance(t, now).registered)[id] == if n > 0 && now > t.views[id].expiry then 0 else n by {
        assert id in Late(t.views, now) <==> now > t.views[id].expiry;
        SweepSplits(t.registered, Late(t.views, now));
      }
      ServeIs(t.views[id], EventRecords(t.buffer), now, t.meta, n);
    }
  }

  // Everyone gets the whole batch once for each registration; those past their deadline also get the meta
  // events, are completed and leave the list; tracing stays enabled exactly if someone remains.
  lemma AdvanceOutcome<Id>(t: Tracing<Id>, now: Word64)
    requires Inv(t) && t.buffer != [] && t.registered != []
    ensures var u := Advance(t, now);
      && u.buffer == [] && u.flushed == |t.accepted| && u.views.Keys == t.views.Keys
      && u.meta == t.meta && u.accepted == t.accepted
      && (u.enabled <==> exists id :: id in t.registered && now <= t.views[id].expiry)
      && (forall id | id in t.views ::
            var n := multiset(t.registered)[id];
            var over := n > 0 && now > t.views[id].expiry;
            && multiset(u.registered)[id] == (if over then 0 else n)
            && u.views[id] == t.views[id].(
                 received := t.views[id].received + Times(EventRecords(t.buffer), n)
                   + Times(MetaRecords(t.meta), if over then n else 0),
                 state := if over then COMPLETE else t.views[id].state,
                 finishes := t.views[id].finishes + if over then n else 0))
  {
    forall id | id in t.views {
      AdvanceOne(t, now, id);
    }
    StillEnabledIff(t, now);
  }

  lemma StillEnabledIff<Id>(t: Tracing<Id>, now: Word64)
    requires Inv(t) && t.registered != []
    ensures var kept := Sweep(t.registered, 0, Late(t.views, now)).kept;
      kept != [] <==> exists id :: id in t.registered && now <= t.views[id].expiry
  {
    var kept := Sweep(t.registered, 0, Late(t.views, now)).kept;
    SweepMembers(t.registered, Late(t.views, now));
    if k :| 0 <= k < |t.registered| && t.registered[k] !in Late(t.views, now) {
      assert t.registered[k] in t.registered;
    }
    if id :| id in t.registered && now <= t.views[id].expiry {
      assert id !in Late(t.views, now);
      assert id in kept;
    }
  }

  // With nothing buffered nothing happens, and with nobody registered the batch is dropped.
  lemma AdvanceIdle<Id>(t: Tracing<Id>, now: Word64)
    requires t.WellFormed() && (t.buffer == [] || t.registered == [])
    ensures Advance(t, now) == if t.buffer == [] then t else t.(buffer := [], flushed := |t.accepted|)
  {
  }

  // -------- what a run records --------

  function EventsIn<Id>(op: Op<Id>, traced: bool): seq<Entry> {
    if op.Event? && traced then [op.entry] else []
  }

  function MetaIn<Id>(op: Op<Id>): seq<string> {
    if op.Meta? then [op.text] else []
  }

  // The events that are added while somebody is registered.
  ghost function Traced<Id>(t: Tracing<Id>, ops: seq<Op<Id>>): seq<Entry>
    requires t.WellFormed()
    decreases ops
  {
    if ops == [] then [] else EventsIn(ops[0], t.registered != []) + Traced(Step(t, ops[0]), ops[1..])
  }

  // The texts of all meta events that are added.
  function MetaTexts<Id>(ops: seq<Op<Id>>): seq<string> {
    if ops == [] then [] else MetaIn(ops[0]) + MetaTexts(ops[1..])
  }

  lemma RecordsOfStep<Id>(t: Tracing<Id>, op: Op<Id>)
    requires Inv(t)
    ensures Step(t, op).accepted == t.accepted + EventsIn(op, t.registered != [])
    ensures Step(t, op).meta == t.meta + MetaIn(op)
  {
    assert t.accepted + [] == t.accepted && t.meta + [] == t.meta;
  }

  lemma Reassociate<T>(a: seq<T>, b: seq<T>, c: seq<T>)
    ensures a + b + c == a + (b + c)
  {
  }

  // A run records exactly the events added while somebody is registered, and all meta events.
  lemma {:induction false} RecordsOfRun<Id>(t: Tracing<Id>, ops: seq<Op<Id>>)
    requires Inv(t) && AllowedRun(t, ops)
    ensures Run(t, ops).accepted == t.accepted + Traced(t, ops)
    ensures Run(t, ops).meta == t.meta + MetaTexts(ops)
    decreases ops
  {
    if ops == [] {
      assert t.accepted + [] == t.accepted && t.meta + [] == t.meta;
    } else {
      var s, rest := Step(t, ops[0]), ops[1..];
      StepKeepsInv(t, ops[0]);
      RecordsOfStep(t, ops[0]);
      RecordsOfRun(s, rest);
      Reassociate(t.accepted, EventsIn(ops[0], t.registered != []), Traced(s, rest));
      Reassociate(t.meta, MetaIn(ops[0]), MetaTexts(rest));
    }
  }

  // -------- lifecycle --------

  function Rank(s: Lifecycle): nat {
    match s case ACTIVE => 0 case EXPIRED => 1 case COMPLETE => 2
  }

  // finish has run for id at most once.
  ghost predicate FinishedOnce<Id>(t: Tracing<Id>, id: Id) {
    id in t.views ==> t.views[id].finishes <= 1
  }

  // The clock of this operation is past the deadline it holds against id.
  ghost predicate PastDeadline<Id>(t: Tracing<Id>, op: Op<Id>, id: Id) {
    id in t.views && match op
      case AdvanceConsumers(now) => now > t.views[id].expiry
      case Stop(now) => now > t.views[id].lifetime   // shutdown moves the deadline there first
      case _ => false
  }

  // id expires in this operation, and it is registered more than once or was completed before.
  ghost predicate FinishesAgain<Id>(t: Tracing<Id>, op: Op<Id>, id: Id) {
    && t.buffer != [] && id in t.registered && PastDeadline(t, op, id)
    && (multiset(t.registered)[id] > 1 || t.views[id].state.COMPLETE?)
  }

  lemma AdvanceFinishesOnceIff<Id>(t: Tracing<Id>, now: Word64, id: Id)
    requires Inv(t) && FinishedOnce(t, id)
    ensures FinishedOnce(Advance(t, now), id) <==> !FinishesAgain(t, AdvanceConsumers(now), id)
  {
    if id in t.views && t.buffer != [] {
      AdvanceOne(t, now, id);
      assert id in t.registered <==> multiset(t.registered)[id] > 0;
    }
  }

  lemma StopFinishesOnceIff<Id>(t: Tracing<Id>, now: Word64, id: Id)
    requires Inv(t) && FinishedOnce(t, id)
    ensures FinishedOnce(Shutdown(t, now), id) <==> !FinishesAgain(t, Stop(now), id)
  {
    ExpireAllKeepsInv(t);
    AdvanceFinishesOnceIff(ExpireAll(t), now, id);
  }

  lemma QuietFinishesNobody<Id>(t: Tracing<Id>, op: Op<Id>, id: Id)
    requires t.WellFormed() && Allowed(t, op) && FinishedOnce(t, id) && !op.AdvanceConsumers? && !op.Stop?
    ensures FinishedOnce(Step(t, op), id)
  {
  }

  // One operation keeps finish from running twice for id exactly if it does not finish it again.
  lemma StepFinishesOnceIff<Id>(t: Tracing<Id>, op: Op<Id>, id: Id)
    requires Inv(t) && Allowed(t, op) && FinishedOnce(t, id)
    ensures FinishedOnce(Step(t, op), id) <==> !FinishesAgain(t, op, id)
  {
    match op {
      case AdvanceConsumers(now) => AdvanceFinishesOnceIff(t, now, id);
      case Stop(now) => StopFinishesOnceIff(t, now, id);
      case _ => QuietFinishesNobody(t, op, id);
    }
  }

  lemma AdvanceGoesForward<Id>(t: Tracing<Id>, now: Word64, id: Id)
    requires Inv(t) && id in t.views
    ensures var u := Advance(t, now);
      && id in u.views && Rank(t.views[id].state) <= Rank(u.views[id].state)
      && t.views[id].finishes <= u.views[id].finishes
  {
    if t.buffer != [] {
      AdvanceOne(t, now, id);
    }
  }

  // From one operation to the next the lifecycle never moves back, whoever is handed over how often.
  lemma StepGoesForward<Id>(t: Tracing<Id>, op: Op<Id>, id: Id)
    requires Inv(t) && Allowed(t, op) && id in t.views
    ensures var u := Step(t, op);
      && id in u.views && Rank(t.views[id].state) <= Rank(u.views[id].state)
      && t.views[id].finishes <= u.views[id].finishes
  {
    match op {
      case AdvanceConsumers(now) => AdvanceGoesForward(t, now, id);
      case Stop(now) =>
        ExpireAllKeepsInv(t);
        AdvanceGoesForward(ExpireAll(t), now, id);
      case Event(_) =>
      case Meta(_) =>
      case AddConsumer(_, _, _) =>
      case RemoveConsumer(_) =>
      case UpdateExpiry(_, _) =>
    }
  }

  lemma {:induction false} RunGoesForward<Id>(t: Tracing<Id>, ops: seq<Op<Id>>, id: Id)
    requires Inv(t) && AllowedRun(t, ops) && id in t.views
    ensures var u := Run(t, ops);
      && id in u.views && Rank(t.views[id].state) <= Rank(u.views[id].state)
      && t.views[id].finishes <= u.views[id].finishes
    decreases ops
  {
    if ops != [] {
      StepKeepsInv(t, ops[0]);
      StepGoesForward(t, ops[0], id);
      RunGoesForward(Step(t, ops[0]), ops[1..], id);
    }
  }

  ghost predicate NeverFinishesAgain<Id>(t: Tracing<Id>, ops: seq<Op<Id>>, id: Id)
    requires t.WellFormed()
    decreases ops
  {
    ops == [] || (!FinishesAgain(t, ops[0], id) && NeverFinishesAgain(Step(t, ops[0]), ops[1..], id))
  }

  // After any run whatsoever finish has run for id at most once exactly if no call of the run was made with
  // id past its deadline and registered more than once or already COMPLETE.
  lemma {:induction false} FinishesOnceIff<Id>(t: Tracing<Id>, ops: seq<Op<Id>>, id: Id)
    requires Inv(t) && AllowedRun(t, ops) && FinishedOnce(t, id)
    ensures FinishedOnce(Run(t, ops), id) <==> NeverFinishesAgain(t, ops, id)
    decreases ops
  {
    if ops != [] {
      var s := Step(t, ops[0]);
      StepKeepsInv(t, ops[0]);
      StepFinishesOnceIff(t, ops[0], id);
      if FinishedOnce(s, id) {
        FinishesOnceIff(s, ops[1..], id);
      } else {
        RunGoesForward(s, ops[1..], id);
      }
    }
  }

  // Inside a call it can move back: a COMPLETE consumer is EXPIRED after the visits exactly if it was handed
  // over again and is past its deadline.
  lemma FallsBackIff<Id>(t: Tracing<Id>, batch: seq<Record>, now: Word64, id: Id)
    requires Inv(t) && id in t.views && t.views[id].state.COMPLETE?
    ensures var visited := Sweep(t.registered, 0, Late(t.views, now)).visited;
      var views := VisitAll(t.views, batch, now, visited);
      && id in views
      && (views[id].state.EXPIRED? <==> id in t.registered && now > t.views[id].expiry)
  {
    var late := Late(t.views, now);
    var visited := Sweep(t.registered, 0, late).visited;
    SweptAreListed(t.registered, late, t.views.Keys);
    VisitAllIs(t.views, batch, now, visited, id);
    VisitTimesIs(t.views[id], batch, now, multiset(visited)[id]);
    assert multiset(visited)[id] == multiset(t.registered)[id] by { SweepSplits(t.registered, late); }
    assert id in t.registered <==> multiset(t.registered)[id] > 0;
  }

  // Consumer id is registered at most once and while it is ACTIVE, and finished at most once.
  ghost predicate Orderly<Id>(t: Tracing<Id>, id: Id) {
    && multiset(t.registered)[id] <= 1
    && FinishedOnce(t, id)
    && (id in t.views ==> Settled(t.views[id]) && (id in t.registered ==> t.views[id].state.ACTIVE?))
  }

  // The caller does not hand over id while it is registered or after it is COMPLETE.
  ghost predicate Proper<Id>(t: Tracing<Id>, op: Op<Id>, id: Id) {
    op.AddConsumer? && op.id == id ==> id !in t.registered && op.view.state.ACTIVE?
  }

  // What advanceConsumers does to an orderly consumer.
  lemma AdvanceOrderly<Id>(t: Tracing<Id>, now: Word64, id: Id)
    requires Inv(t) && Orderly(t, id) && id in t.views
    ensures var u := Advance(t, now);
      var v := t.views[id];
      && id in u.views && Orderly(u, id)
      && (id !in t.registered || t.buffer == [] ==> u.views[id] == v)
      && (id !in t.registered ==> id !in u.registered)
      && (id in t.registered && t.buffer != [] ==>
            var over := now > v.expiry;
            && (id in u.registered <==> !over)
            && u.views[id] == v.(
                 received := v.received + EventRecords(t.buffer) + if over then MetaRecords(t.meta) else [],
                 state := if over then COMPLETE else ACTIVE,
                 finishes := if over then 1 else 0))
  {
    var u := Advance(t, now);
    var n := multiset(t.registered)[id];
    assert id in t.registered <==> n > 0;
    assert id in u.registered <==> multiset(u.registered)[id] > 0;
    if t.buffer != [] && id in t.registered {
      AdvanceOnce(t, now, id);
    } else if t.buffer != [] {
      AdvanceOne(t, now, id);
      TimesOne(EventRecords(t.buffer));
      TimesOne(MetaRecords(t.meta));
      assert t.views[id].received + [] + [] == t.views[id].received;
    }
  }

  // What one call does to a consumer that is registered once.
  lemma AdvanceOnce<Id>(t: Tracing<Id>, now: Word64, id: Id)
    requires t.WellFormed() && t.buffer != [] && id in t.views && !t.views[id].state.EXPIRED?
    requires multiset(t.registered)[id] == 1
    ensures var u := Advance(t, now);
      var v, over := t.views[id], now > t.views[id].expiry;
      && id in u.views && multiset(u.registered)[id] == (if over then 0 else 1)
      && u.views[id] == v.(
           received := v.received + EventRecords(t.buffer) + if over then MetaRecords(t.meta) else [],
           state := if over then COMPLETE else v.state,
           finishes := v.finishes + if over then 1 else 0)
  {
    AdvanceOne(t, now, id);
    TimesOne(EventRecords(t.buffer));
    TimesOne(MetaRecords(t.meta));
  }

  lemma RemoveSplits<Id>(t: Tracing<Id>, gone: Id, id: Id)
    requires t.WellFormed()
    ensures multiset(Remove(t, gone).registered)[id] == if id == gone then 0 else multiset(t.registered)[id]
    ensures id in Remove(t, gone).registered <==> id != gone && id in t.registered
  {
    SweepSplits(t.registered, {gone});
    SweepMembers(t.registered, {gone});
  }

  lemma RegisterAddsOne<Id>(t: Tracing<Id>, added: Id, v: View, now: Word64, id: Id)
    ensures multiset(Register(t, added, v, now).registered)[id]
         == multiset(t.registered)[id] + if id == added then 1 else 0
  {
    assert multiset(t.registered + [added]) == multiset(t.registered) + multiset{added};
  }

  lemma RegisterOrderlyIff<Id>(t: Tracing<Id>, added: Id, v: View, now: Word64, id: Id)
    requires Inv(t) && Allowed(t, AddConsumer(added, v, now)) && Orderly(t, id)
    ensures Orderly(Register(t, added, v, now), id) <==> Proper(t, AddConsumer(added, v, now), id)
  {
    var u := Register(t, added, v, now);
    RegisterAddsOne(t, added, v, now, id);
    assert id in t.registered <==> multiset(t.registered)[id] > 0;
    assert id in u.registered <==> multiset(u.registered)[id] > 0;
  }

  // Whatever happens to other consumers, an operation that is proper for id keeps it orderly; an improper one
  // at once breaks what is said about its registration.
  lemma StepKeepsOrderlyIff<Id>(t: Tracing<Id>, op: Op<Id>, id: Id)
    requires Inv(t) && Allowed(t, op) && Orderly(t, id)
    ensures Orderly(Step(t, op), id) <==> Proper(t, op, id)
  {
    match op {
      case Event(_) => QuietKeepsOrderly(t, op, id);
      case Meta(_) => QuietKeepsOrderly(t, op, id);
      case UpdateExpiry(_, _) => QuietKeepsOrderly(t, op, id);
      case AddConsumer(added, v, now) => RegisterOrderlyIff(t, added, v, now, id);
      case RemoveConsumer(other) => RemoveKeepsOrderly(t, other, id);
      case AdvanceConsumers(now) => AdvanceKeepsOrderly(t, now, id);
      case Stop(now) => StopKeepsOrderly(t, now, id);
    }
  }

  lemma QuietKeepsOrderly<Id>(t: Tracing<Id>, op: Op<Id>, id: Id)
    requires Inv(t) && Orderly(t, id) && (op.Event? || op.Meta? || op.UpdateExpiry?)
    ensures Orderly(Step(t, op), id)
  {
  }

  lemma RemoveKeepsOrderly<Id>(t: Tracing<Id>, gone: Id, id: Id)
    requires Inv(t) && Orderly(t, id)
    ensures Orderly(Remove(t, gone), id)
  {
    RemoveSplits(t, gone, id);
  }

  lemma AdvanceKeepsOrderly<Id>(t: Tracing<Id>, now: Word64, id: Id)
    requires Inv(t) && Orderly(t, id)
    ensures Orderly(Advance(t, now), id)
  {
    if id in t.views {
      AdvanceOrderly(t, now, id);
    } else if t.buffer != [] && t.registered != [] {
      SweepSplits(t.registered, Late(t.views, now));
    }
  }

  lemma StopKeepsOrderly<Id>(t: Tracing<Id>, now: Word64, id: Id)
    requires Inv(t) && Orderly(t, id)
    ensures Orderly(Shutdown(t, now), id)
  {
    ExpireAllKeepsInv(t);
    AdvanceKeepsOrderly(ExpireAll(t), now, id);
  }

  ghost predicate ProperRun<Id>(t: Tracing<Id>, ops: seq<Op<Id>>, id: Id)
    requires t.WellFormed()
    decreases ops
  {
    ops == [] || (Proper(t, ops[0], id) && ProperRun(Step(t, ops[0]), ops[1..], id))
  }

  // A proper hand-over is always of an orderly consumer.
  lemma ProperIsOrderly<Id>(t: Tracing<Id>, add: Op<Id>)
    requires Inv(t) && add.AddConsumer? && Allowed(t, add) && Proper(t, add, add.id)
    ensures Orderly(t, add.id)
  {
    assert add.id !in multiset(t.registered);
  }

  lemma StepLeavesCompleted<Id>(t: Tracing<Id>, op: Op<Id>, id: Id)
    requires Inv(t) && Allowed(t, op) && Orderly(t, id) && Proper(t, op, id)
    requires id in t.views && t.views[id].state.COMPLETE?
    ensures var u := Step(t, op);
      id in u.views && u.views[id].received == t.views[id].received && u.views[id].state.COMPLETE?
  {
    match op {
      case AdvanceConsumers(now) => AdvanceOrderly(t, now, id);
      case Stop(now) =>
        ExpireAllKeepsInv(t);
        AdvanceOrderly(ExpireAll(t), now, id);
      case Event(_) =>
      case Meta(_) =>
      case AddConsumer(_, _, _) =>
      case RemoveConsumer(_) =>
      case UpdateExpiry(_, _) =>
    }
  }

  // It is enough that the caller never hands over id while it is registered or COMPLETE: then finish runs at
  // most once, a completed consumer is not touched again, and no visit ever moves it back.
  lemma {:induction false} LifecycleMovesForward<Id>(t: Tracing<Id>, ops: seq<Op<Id>>, id: Id)
    requires Inv(t) && AllowedRun(t, ops) && id in t.views && Orderly(t, id) && ProperRun(t, ops, id)
    ensures var u := Run(t, ops);
      && id in u.views && Orderly(u, id)
      && Rank(t.views[id].state) <= Rank(u.views[id].state)
      && (t.views[id].state.COMPLETE? ==>
            id !in u.registered && u.views[id].received == t.views[id].received && u.views[id].finishes == 1)
    ensures NeverFinishesAgain(t, ops, id)
    decreases ops
  {
    if ops != [] {
      StepKeepsInv(t, ops[0]);
      StepKeepsOrderlyIff(t, ops[0], id);
      StepGoesForward(t, ops[0], id);
      if t.views[id].state.COMPLETE? {
        StepLeavesCompleted(t, ops[0], id);
      }
      StepFinishesOnceIff(t, ops[0], id);
      LifecycleMovesForward(Step(t, ops[0]), ops[1..], id);
    }
  }

  // A completed consumer that is handed over again falls back to EXPIRED in the first call past its new
  // deadline: it gets another batch, all meta events once more, and finish runs a second time.
  lemma ReaddedAfterCompletion<Id>(t: Tracing<Id>, id: Id, at: Word64, e: Entry, now: Word64)
    requires Inv(t) && Orderly(t, id) && id in t.views && t.views[id].state.COMPLETE?
    requires now > Deadline(at, t.views[id].lifetime)
    ensures var add := AddConsumer(id, t.views[id], at);
      var s := Step(Step(t, add), Event(e));
      var u := Step(s, AdvanceConsumers(now));
      && Allowed(t, add) && !Proper(t, add, id) && FinishesAgain(s, AdvanceConsumers(now), id)
      && Visit(s.views[id], EventRecords(t.buffer + [e]), now).state.EXPIRED?
      && u.views[id].finishes == 2
      && u.views[id].received == t.views[id].received + EventRecords(t.buffer + [e]) + MetaRecords(t.meta)
  {
    var s := Step(Step(t, AddConsumer(id, t.views[id], at)), Event(e));
    ReaddedState(t, id, at, e);
    assert id in s.registered by { assert id in multiset(s.registered); }
    var v, u := s.views[id], Advance(s, now);
    assert u.views[id].received == v.received + EventRecords(s.buffer) + MetaRecords(s.meta)
        && u.views[id].finishes == v.finishes + 1 by {
      AdvanceOnce(s, now, id);
    }
  }

  lemma ReaddedState<Id>(t: Tracing<Id>, id: Id, at: Word64, e: Entry)
    requires Inv(t) && Orderly(t, id) && id in t.views && t.views[id].state.COMPLETE?
    ensures var s := Step(Step(t, AddConsumer(id, t.views[id], at)), Event(e));
      && Inv(s) && multiset(s.registered)[id] == 1 && s.buffer == t.buffer + [e] && s.meta == t.meta
      && id in s.views && s.views[id] == t.views[id].(expiry := Deadline(at, t.views[id].lifetime))
  {
    var add := AddConsumer(id, t.views[id], at);
    var r := Step(t, add);
    StepKeepsInv(t, add);
    StepKeepsInv(r, Event(e));
    assert id !in multiset(t.registered);
    RegisterAddsOne(t, id, t.views[id], at, id);
  }

  lemma CompletesOnce<Id>(id: Id, v: View, e: Entry, now: Word64)
    requires v.state.ACTIVE? && v.finishes == 0 && now > v.lifetime
    ensures var add := AddConsumer(id, v, 0);
      var t := Run(Start(), [add, Event(e), AdvanceConsumers(now)]);
      && AllowedRun(Start(), [add, Event(e), AdvanceConsumers(now)])
      && Inv(t) && Orderly(t, id) && id in t.views && t.views[id].state.COMPLETE? && t.views[id].lifetime == v.lifetime
  {
    var add := AddConsumer(id, v, 0);
    var s := Step(Step(Start(), add), Event(e));
    ThreeSteps(Start(), add, Event(e), AdvanceConsumers(now));
    assert s.registered == [id] && s.buffer == [e] && s.views == map[id := v.(expiry := v.lifetime)];
    assert Inv(s) && Orderly(s, id);
    AdvanceOrderly(s, now, id);
    StepKeepsInv(s, AdvanceConsumers(now));
  }

  // One run from the start that finishes a consumer twice: it completes, and the caller hands it over again.
  lemma FinishedTwiceAfterCompletion<Id>(id: Id, v: View, e: Entry, now: Word64)
    requires v.state.ACTIVE? && v.finishes == 0 && now > v.lifetime
    ensures var once := [AddConsumer(id, v, 0), Event(e), AdvanceConsumers(now)];
      var t := Run(Start(), once);
      && AllowedRun(Start(), once) && id in t.views && t.views[id].state.COMPLETE?
      && var again := [AddConsumer(id, t.views[id], 0), Event(e), AdvanceConsumers(now)];
      && AllowedRun(t, again) && id in Run(t, again).views && Run(t, again).views[id].finishes == 2
  {
    CompletesOnce(id, v, e, now);
    var t := Run(Start(), [AddConsumer(id, v, 0), Event(e), AdvanceConsumers(now)]);
    ReaddedAfterCompletion(t, id, 0, e, now);
    ThreeSteps(t, AddConsumer(id, t.views[id], 0), Event(e), AdvanceConsumers(now));
  }

  lemma HandedOverTwice<Id>(id: Id, v: View, e: Entry)
    requires v.state.ACTIVE? && v.finishes == 0
    ensures var first, second := AddConsumer(id, v, 0), AddConsumer(id, v.(expiry := v.lifetime), 0);
      var t := Run(Start(), [first, second, Event(e)]);
      && AllowedRun(Start(), [first, second, Event(e)])
      && Inv(t) && t.registered == [id, id] && t.buffer == [e] && t.views == map[id := v.(expiry := v.lifetime)]
  {
    var first, second := AddConsumer(id, v, 0), AddConsumer(id, v.(expiry := v.lifetime), 0);
    ThreeSteps(Start(), first, second, Event(e));
  }

  // One that finishes it twice in one call, against the assertion: it was handed over twice.
  lemma FinishedTwiceInOneCall<Id>(id: Id, v: View, e: Entry, now: Word64)
    requires v.state.ACTIVE? && v.finishes == 0 && now > v.lifetime
    ensures var first, second := AddConsumer(id, v, 0), AddConsumer(id, v.(expiry := v.lifetime), 0);
      var t := Run(Start(), [first, second, Event(e)]);
      && AllowedRun(Start(), [first, second, Event(e)])
      && !ExpiresOnce(t, now) && id in Advance(t, now).views && Advance(t, now).views[id].finishes == 2
  {
    HandedOverTwice(id, v, e);
    var t := Run(Start(), [AddConsumer(id, v, 0), AddConsumer(id, v.(expiry := v.lifetime), 0), Event(e)]);
    assert multiset(t.registered)[id] == 2 && id in t.registered && id in Late(t.views, now);
    AdvanceOne(t, now, id);
  }

  lemma ThreeSteps<Id>(t: Tracing<Id>, a: Op<Id>, b: Op<Id>, c: Op<Id>)
    requires t.WellFormed()
    ensures Run(t, [a, b, c]) == Step(Step(Step(t, a), b), c)
    ensures AllowedRun(t, [a, b, c]) <==> Allowed(t, a) && Allowed(Step(t, a), b) && Allowed(Step(Step(t, a), b), c)
  {
    var t1 := Step(t, a);
    var t2 := Step(t1, b);
    var t3 := Step(t2, c);
    assert [a, b, c][1..] == [b, c] && [b, c][1..] == [c] && [c][1..] == [];
    assert Run(t2, [c]) == Run(t3, []) == t3 && AllowedRun(t3, []);
    assert AllowedRun(t2, [c]) <==> Allowed(t2, c);
    assert Run(t1, [b, c]) == Run(t2, [c]);
    assert AllowedRun(t1, [b, c]) <==> Allowed(t1, b) && AllowedRun(t2, [c]);
  }

  // -------- what one consumer receives --------

  lemma EventRecordsAppend(a: seq<Entry>, b: seq<Entry>)
    ensures EventRecords(a + b) == EventRecords(a) + EventRecords(b)
  {
  }

  lemma HistoryOnlyGrows<Id>(t: Tracing<Id>, op: Op<Id>)
    requires Inv(t) && Allowed(t, op)
    ensures var u := Step(t, op);
      t.accepted <= u.accepted && t.flushed <= u.flushed <= |u.accepted|
  {
    StepKeepsInv(t, op);
  }

  lemma {:induction false} HistoryOfRun<Id>(t: Tracing<Id>, ops: seq<Op<Id>>)
    requires Inv(t) && AllowedRun(t, ops)
    ensures t.accepted <= Run(t, ops).accepted
    ensures t.flushed <= Run(t, ops).flushed <= |Run(t, ops).accepted|
    decreases ops
  {
    if ops != [] {
      StepKeepsInv(t, ops[0]);
      HistoryOnlyGrows(t, ops[0]);
      HistoryOfRun(Step(t, ops[0]), ops[1..]);
    }
  }

  // What a consumer that completes is handed last.
  function Closing(v: View, meta: seq<string>): seq<Record> {
    if v.state.COMPLETE? then MetaRecords(meta) else []
  }

  lemma WindowAdvance<Id>(t: Tracing<Id>, now: Word64, id: Id)
    requires Inv(t) && Orderly(t, id) && id in t.registered
    ensures var u := Advance(t, now);
      && t.flushed <= u.flushed <= |u.accepted| && id in u.views && Orderly(u, id)
      && u.views[id].received == t.views[id].received + EventRecords(u.accepted[t.flushed..u.flushed])
           + Closing(u.views[id], u.meta)
      && (id in u.registered <==> u.views[id].state.ACTIVE?)
  {
    var u := Advance(t, now);
    AdvanceOrderly(t, now, id);
    if t.buffer != [] {
      assert u.accepted[t.flushed..u.flushed] == t.buffer;
    } else {
      assert u.accepted[t.flushed..u.flushed] == [];
    }
  }

  // One operation hands a registered consumer exactly the events it flushes; if that completes it, then
  // all meta events recorded so far as well.
  lemma WindowStep<Id>(t: Tracing<Id>, op: Op<Id>, id: Id)
    requires Inv(t) && Allowed(t, op) && Orderly(t, id) && id in t.registered && !Adds(op, id)
    ensures var u := Step(t, op);
      && t.flushed <= u.flushed <= |u.accepted| && id in u.views && Orderly(u, id)
      && u.views[id].received == t.views[id].received + EventRecords(u.accepted[t.flushed..u.flushed])
           + Closing(u.views[id], u.meta)
      && (u.views[id].state.ACTIVE? <==> id in u.registered || Removes(op, id))
  {
    HistoryOnlyGrows(t, op);
    StepKeepsOrderlyIff(t, op, id);
    var u := Step(t, op);
    match op {
      case AdvanceConsumers(now) => WindowAdvance(t, now, id);
      case Stop(now) =>
        ExpireAllKeepsInv(t);
        WindowAdvance(ExpireAll(t), now, id);
      case RemoveConsumer(other) =>
        RemoveSplits(t, other, id);
        assert u.accepted[t.flushed..u.flushed] == [];
      case Event(_) => assert u.accepted[t.flushed..u.flushed] == [];
      case Meta(_) => assert u.accepted[t.flushed..u.flushed] == [];
      case AddConsumer(_, _, _) => assert u.accepted[t.flushed..u.flushed] == [];
      case UpdateExpiry(_, _) => assert u.accepted[t.flushed..u.flushed] == [];
    }
  }

  predicate Adds<Id(==)>(op: Op<Id>, id: Id) {
    op.AddConsumer? && op.id == id
  }

  predicate Removes<Id(==)>(op: Op<Id>, id: Id) {
    op.RemoveConsumer? && op.id == id
  }

  // id is not handed over in the run; it may be removed.
  ghost predicate NotAdded<Id>(ops: seq<Op<Id>>, id: Id) {
    forall i | 0 <= i < |ops| :: !Adds(ops[i], id)
  }

  ghost predicate NotRemoved<Id>(ops: seq<Op<Id>>, id: Id) {
    forall i | 0 <= i < |ops| :: !Removes(ops[i], id)
  }

  // The state right after id leaves the list, or the last one if it stays.
  ghost function UntilLeft<Id>(t: Tracing<Id>, ops: seq<Op<Id>>, id: Id): (s: Tracing<Id>)
    requires t.WellFormed()
    ensures s.WellFormed()
    decreases ops
  {
    if id !in t.registered || ops == [] then t else UntilLeft(Step(t, ops[0]), ops[1..], id)
  }

  // A consumer that is not registered and not handed over gets nothing.
  lemma {:induction false} OutsiderUntouched<Id>(t: Tracing<Id>, ops: seq<Op<Id>>, id: Id)
    requires Inv(t) && AllowedRun(t, ops) && Orderly(t, id) && id in t.views && id !in t.registered && NotAdded(ops, id)
    ensures var u := Run(t, ops);
      && id in u.views && id !in u.registered && Orderly(u, id)
      && u.views[id] == t.views[id].(expiry := u.views[id].expiry)
    decreases ops
  {
    if ops != [] {
      StepKeepsInv(t, ops[0]);
      assert !Adds(ops[0], id);
      OutsiderStep(t, ops[0], id);
      assert forall i | 0 <= i < |ops| - 1 :: ops[1..][i] == ops[i + 1];
      OutsiderUntouched(Step(t, ops[0]), ops[1..], id);
    }
  }

  lemma OutsiderStep<Id>(t: Tracing<Id>, op: Op<Id>, id: Id)
    requires Inv(t) && Allowed(t, op) && Orderly(t, id) && id in t.views && id !in t.registered && !Adds(op, id)
    ensures var u := Step(t, op);
      && id in u.views && id !in u.registered && Orderly(u, id)
      && u.views[id] == t.views[id].(expiry := u.views[id].expiry)
  {
    StepKeepsOrderlyIff(t, op, id);
    match op {
      case AdvanceConsumers(now) => AdvanceOrderly(t, now, id);
      case Stop(now) =>
        ExpireAllKeepsInv(t);
        AdvanceOrderly(ExpireAll(t), now, id);
      case RemoveConsumer(other) => RemoveSplits(t, other, id);
      case Event(_) =>
      case Meta(_) =>
      case AddConsumer(_, _, _) =>
      case UpdateExpiry(_, _) =>
    }
  }

  lemma JoinWindows(records: seq<Record>, log: seq<Entry>, more: seq<Entry>, a: nat, b: nat, c: nat, rest: seq<Record>)
    requires a <= b <= |log| && log <= more && b <= c <= |more|
    ensures records + EventRecords(log[a..b]) + (EventRecords(more[b..c]) + rest)
         == records + EventRecords(more[a..c]) + rest
  {
    assert more[a..c] == log[a..b] + more[b..c];
    EventRecordsAppend(log[a..b], more[b..c]);
  }

  // From t to s, the last state in which it is served, id receives the window of the accepted events
  // between the two flushes; if it completes then, all meta events recorded by then; and nothing up to u.
  ghost predicate Window<Id>(t: Tracing<Id>, s: Tracing<Id>, u: Tracing<Id>, id: Id) {
    && id in t.views && id in s.views && id in u.views
    && t.flushed <= s.flushed <= |s.accepted| && s.flushed <= u.flushed
    && t.accepted <= s.accepted <= u.accepted
    && u.views[id] == s.views[id].(expiry := u.views[id].expiry)
    && u.views[id].received == t.views[id].received + EventRecords(s.accepted[t.flushed..s.flushed])
         + Closing(u.views[id], s.meta)
  }

  lemma WindowThenWindow<Id>(t: Tracing<Id>, n: Tracing<Id>, s: Tracing<Id>, u: Tracing<Id>, id: Id)
    requires n.flushed <= |n.accepted|
    requires Window(t, n, n, id) && n.views[id].state.ACTIVE? && Window(n, s, u, id)
    ensures Window(t, s, u, id)
  {
    assert n.views[id].received + [] == n.views[id].received;
    JoinWindows(t.views[id].received, n.accepted, s.accepted, t.flushed, n.flushed, s.flushed,
                Closing(u.views[id], s.meta));
    assert t.views[id].received + EventRecords(n.accepted[t.flushed..n.flushed]) + []
        == t.views[id].received + EventRecords(n.accepted[t.flushed..n.flushed]);
    var a, b, c := t.views[id].received + EventRecords(n.accepted[t.flushed..n.flushed]),
      EventRecords(s.accepted[n.flushed..s.flushed]), Closing(u.views[id], s.meta);
    assert a + b + c == a + (b + c);
  }

  // Over any run in which a registered consumer is not handed over again, it receives one contiguous
  // window of the accepted events, in order, from the last flush before the run up to the flush at which
  // it leaves the list or else the last one; and if it leaves by completing, all meta events recorded by then.
  // Removals, of this consumer too, and any misuse of other consumers are part of the run.
  lemma {:induction false} WindowOfRun<Id>(t: Tracing<Id>, ops: seq<Op<Id>>, id: Id)
    requires Inv(t) && AllowedRun(t, ops) && Orderly(t, id) && id in t.registered && NotAdded(ops, id)
    ensures var u := Run(t, ops);
      && Window(t, UntilLeft(t, ops, id), u, id) && Orderly(u, id)
      && (id in u.registered ==> UntilLeft(t, ops, id) == u && u.views[id].state.ACTIVE?)
      && (id !in u.registered && NotRemoved(ops, id) ==> u.views[id].state.COMPLETE?)
    decreases ops
  {
    if ops == [] {
      assert t.accepted[t.flushed..t.flushed] == [];
      assert t.views[id].received + [] + [] == t.views[id].received;
    } else {
      var n := Step(t, ops[0]);
      assert !Adds(ops[0], id);
      StepKeepsInv(t, ops[0]);
      assert Window(t, n, n, id) && Orderly(n, id) by {
        HistoryOnlyGrows(t, ops[0]);
        WindowStep(t, ops[0], id);
      }
      assert n.views[id].state.ACTIVE? <==> id in n.registered || Removes(ops[0], id) by {
        WindowStep(t, ops[0], id);
      }
      assert forall i | 0 <= i < |ops| - 1 :: ops[1..][i] == ops[i + 1];
      if id in n.registered {
        WindowOfRun(n, ops[1..], id);
        WindowThenWindow(t, n, UntilLeft(t, ops, id), Run(t, ops), id);
      } else {
        OutsiderUntouched(n, ops[1..], id);
        HistoryOfRun(n, ops[1..]);
        assert UntilLeft(t, ops, id) == n;
      }
    }
  }

  // -------- how long a consumer stays --------

  predicate MovesDeadline<Id(==)>(op: Op<Id>, id: Id) {
    Adds(op, id) || op.Stop? || (op.UpdateExpiry? && op.id == id)
  }

  // Some call of advanceConsumers in the run has an event to hand out and a clock past the deadline.
  ghost predicate CalledPast<Id>(t: Tracing<Id>, ops: seq<Op<Id>>, deadline: nat)
    requires t.WellFormed()
    decreases ops
  {
    ops != [] &&
    ((ops[0].AdvanceConsumers? && t.buffer != [] && ops[0].now > deadline)
     || CalledPast(Step(t, ops[0]), ops[1..], deadline))
  }

  lemma StaysStep<Id>(t: Tracing<Id>, op: Op<Id>, id: Id)
    requires Inv(t) && Allowed(t, op) && Orderly(t, id) && id in t.registered
    requires !MovesDeadline(op, id) && !Removes(op, id)
    ensures var u := Step(t, op);
      && id in u.views && u.views[id].expiry == t.views[id].expiry
      && (id in u.registered <==> !(op.AdvanceConsumers? && t.buffer != [] && op.now > t.views[id].expiry))
  {
    match op {
      case AdvanceConsumers(now) => AdvanceOrderly(t, now, id);
      case RemoveConsumer(other) => RemoveSplits(t, other, id);
      case Event(_) =>
      case Meta(_) =>
      case AddConsumer(_, _, _) =>
      case UpdateExpiry(_, _) =>
    }
  }

  lemma {:induction false} StaysUntil<Id>(t: Tracing<Id>, ops: seq<Op<Id>>, id: Id, deadline: nat)
    requires Inv(t) && AllowedRun(t, ops) && Orderly(t, id) && id in t.registered && t.views[id].expiry == deadline
    requires forall i | 0 <= i < |ops| :: !MovesDeadline(ops[i], id) && !Removes(ops[i], id)
    ensures id in Run(t, ops).registered <==> !CalledPast(t, ops, deadline)
    decreases ops
  {
    if ops != [] {
      var s := Step(t, ops[0]);
      assert !MovesDeadline(ops[0], id) && !Removes(ops[0], id);
      assert forall i | 0 <= i < |ops| - 1 :: ops[1..][i] == ops[i + 1];
      StepKeepsInv(t, ops[0]);
      StepKeepsOrderlyIff(t, ops[0], id);
      StaysStep(t, ops[0], id);
      if id in s.registered {
        StaysUntil(s, ops[1..], id, deadline);
      } else {
        OutsiderUntouched(s, ops[1..], id);
      }
    }
  }

  lemma HandedOver<Id>(t: Tracing<Id>, add: Op<Id>)
    requires Inv(t) && add.AddConsumer? && Allowed(t, add) && Proper(t, add, add.id)
    ensures var s := Step(t, add);
      && Inv(s) && Orderly(s, add.id) && add.id in s.registered
      && s.views[add.id].expiry == (add.now + add.view.lifetime) % 0x1_0000_0000_0000_0000
  {
    var s := Step(t, add);
    assert Inv(s) by { StepKeepsInv(t, add); }
    assert Orderly(s, add.id) by {
      ProperIsOrderly(t, add);
      StepKeepsOrderlyIff(t, add, add.id);
    }
    assert s.registered[|t.registered|] == add.id;
  }

  // A consumer handed over at a given time stays for its lifetime: over any run in which nobody removes it or
  // moves its deadline, it is still registered at the end exactly if no call had an event to hand out later than
  // that.
  lemma StaysForItsLifetime<Id>(t: Tracing<Id>, add: Op<Id>, s: Tracing<Id>, ops: seq<Op<Id>>)
    requires Inv(t) && add.AddConsumer? && Allowed(t, add) && Proper(t, add, add.id) && s == Step(t, add)
    requires add.now + add.view.lifetime < 0x1_0000_0000_0000_0000
    requires AllowedRun(s, ops)
    requires forall i | 0 <= i < |ops| :: !MovesDeadline(ops[i], add.id) && !Removes(ops[i], add.id)
    ensures add.id in Run(s, ops).registered <==> !CalledPast(s, ops, add.now + add.view.lifetime)
  {
    assert Inv(s) && Orderly(s, add.id) && add.id in s.registered
        && s.views[add.id].expiry == add.now + add.view.lifetime by { HandedOver(t, add); }
    StaysUntil(s, ops, add.id, add.now + add.view.lifetime);
  }

  // What a new consumer has received after any run is one contiguous window of the accepted events, in
  // order, from the last flush before it was added up to the flush at which it left the list, by
  // completing or by being removed, or else up to the last flush; a completed one also got all meta
  // events recorded by then.
  lemma ReceivedIsOneWindow<Id>(before: seq<Op<Id>>, add: Op<Id>, after: seq<Op<Id>>)
    requires AllowedRun(Start(), before)
    requires var t := Run(Start(), before);
      && add.AddConsumer? && Allowed(t, add) && Proper(t, add, add.id) && add.view.received == []
      && AllowedRun(Step(t, add), after) && NotAdded(after, add.id)
    ensures var t := Run(Start(), before);
      var s := UntilLeft(Step(t, add), after, add.id);
      var u := Run(Step(t, add), after);
      && t.flushed <= s.flushed <= |s.accepted| && s.accepted <= u.accepted && add.id in u.views
      && u.views[add.id].received == EventRecords(s.accepted[t.flushed..s.flushed]) + Closing(u.views[add.id], s.meta)
      && (add.id in u.registered ==> s == u && u.views[add.id].state.ACTIVE?)
      && (add.id !in u.registered && NotRemoved(after, add.id) ==> u.views[add.id].state.COMPLETE?)
  {
    var t := Run(Start(), before);
    assert Inv(Start<Id>());
    RunKeepsInv(Start(), before);
    ProperIsOrderly(t, add);
    StepKeepsInv(t, add);
    StepKeepsOrderlyIff(t, add, add.id);
    WindowOfRun(Step(t, add), after, add.id);
    var s, u := UntilLeft(Step(t, add), after, add.id), Run(Step(t, add), after);
    assert [] + EventRecords(s.accepted[t.flushed..s.flushed]) == EventRecords(s.accepted[t.flushed..s.flushed]);
  }

  // Two windows of one log, with what closes them.
  lemma TwoWindows(log: seq<Entry>, first: nat, left: nat, again: nat, last: nat, closing: seq<Record>)
    requires first <= left <= again <= last <= |log|
    ensures EventRecords(log[first..left]) + EventRecords(log[again..last]) + closing
         == EventRecords(log[first..last]) + closing
      <==> left == again
  {
    var a, b, whole := EventRecords(log[first..left]), EventRecords(log[again..last]), EventRecords(log[first..last]);
    if left == again {
      assert log[first..last] == log[first..left] + log[again..last];
      EventRecordsAppend(log[first..left], log[again..last]);
    } else {
      assert |a + b + closing| < |whole + closing|;
    }
  }

  // A consumer that was removed while it was ACTIVE may be handed over again.  It then has two windows, and
  // they are one exactly if nothing was flushed in between.
  lemma ReaddedGapIff<Id>(t: Tracing<Id>, between: seq<Op<Id>>, add: Op<Id>, after: seq<Op<Id>>, first: nat)
    requires Inv(t) && add.AddConsumer? && Orderly(t, add.id) && add.id in t.registered
    requires first <= t.flushed && t.views[add.id].received == EventRecords(t.accepted[first..t.flushed])
    requires AllowedRun(t, between) && NotAdded(between, add.id)
    requires var m := Run(t, between);
      && Allowed(m, add) && Proper(m, add, add.id)
      && AllowedRun(Step(m, add), after) && NotAdded(after, add.id)
    ensures var m := Run(t, between);
      var left := UntilLeft(t, between, add.id).flushed;
      var s, u := UntilLeft(Step(m, add), after, add.id), Run(Step(m, add), after);
      && first <= left <= m.flushed <= s.flushed <= |s.accepted| && add.id in u.views
      && var closing := Closing(u.views[add.id], s.meta);
      && u.views[add.id].received
           == EventRecords(s.accepted[first..left]) + EventRecords(s.accepted[m.flushed..s.flushed]) + closing
      && (u.views[add.id].received == EventRecords(s.accepted[first..s.flushed]) + closing <==> left == m.flushed)
  {
    var m := Run(t, between);
    var gone := UntilLeft(t, between, add.id);
    FirstWindow(t, between, add.id, first);
    var n := Step(m, add);
    assert Inv(n) && Orderly(n, add.id) by {
      RunKeepsInv(t, between);
      StepKeepsInv(m, add);
      StepKeepsOrderlyIff(m, add, add.id);
    }
    WindowOfRun(n, after, add.id);
    GapIff(gone, n, UntilLeft(n, after, add.id), Run(n, after), add.id, first);
  }

  lemma GapIff<Id>(gone: Tracing<Id>, n: Tracing<Id>, s: Tracing<Id>, u: Tracing<Id>, id: Id, first: nat)
    requires first <= gone.flushed <= |gone.accepted| && gone.accepted <= n.accepted && gone.flushed <= n.flushed
    requires Window(n, s, u, id) && n.views[id].received == EventRecords(gone.accepted[first..gone.flushed])
    ensures var closing := Closing(u.views[id], s.meta);
      && u.views[id].received
           == EventRecords(s.accepted[first..gone.flushed]) + EventRecords(s.accepted[n.flushed..s.flushed]) + closing
      && (u.views[id].received == EventRecords(s.accepted[first..s.flushed]) + closing <==> gone.flushed == n.flushed)
  {
    assert s.accepted[first..gone.flushed] == gone.accepted[first..gone.flushed];
    TwoWindows(s.accepted, first, gone.flushed, n.flushed, s.flushed, Closing(u.views[id], s.meta));
  }

  lemma FirstWindow<Id>(t: Tracing<Id>, ops: seq<Op<Id>>, id: Id, first: nat)
    requires Inv(t) && AllowedRun(t, ops) && Orderly(t, id) && id in t.registered && NotAdded(ops, id)
    requires first <= t.flushed && t.views[id].received == EventRecords(t.accepted[first..t.flushed])
    ensures var u, s := Run(t, ops), UntilLeft(t, ops, id);
      && first <= s.flushed <= |s.accepted| && s.flushed <= u.flushed && s.accepted <= u.accepted
      && id in u.views && Orderly(u, id)
      && u.views[id].received == EventRecords(s.accepted[first..s.flushed]) + Closing(u.views[id], s.meta)
  {
    WindowOfRun(t, ops, id);
    WindowFromFirst(t, UntilLeft(t, ops, id), Run(t, ops), id, first);
  }

  lemma WindowFromFirst<Id>(t: Tracing<Id>, s: Tracing<Id>, u: Tracing<Id>, id: Id, first: nat)
    requires Window(t, s, u, id) && first <= t.flushed <= |t.accepted|
    requires t.views[id].received == EventRecords(t.accepted[first..t.flushed])
    ensures u.views[id].received == EventRecords(s.accepted[first..s.flushed]) + Closing(u.views[id], s.meta)
  {
    assert s.accepted[first..s.flushed] == t.accepted[first..t.flushed] + s.accepted[t.flushed..s.flushed];
    EventRecordsAppend(t.accepted[first..t.flushed], s.accepted[t.flushed..s.flushed]);
  }

  // -------- shutdown --------

  // shutdown completes a registered consumer exactly if at least one event is buffered and the clock is
  // past its lifetime; with an empty buffer it only moves the deadlines.
  lemma ShutdownIff<Id>(t: Tracing<Id>, now: Word64, id: Id)
    requires Inv(t) && id in t.registered
    ensures var u := Shutdown(t, now);
      && (id !in u.registered <==> t.buffer != [] && now > t.views[id].lifetime)
      && (t.views[id].state.ACTIVE? ==> (u.views[id].state.COMPLETE? <==> id !in u.registered))
      && (t.buffer == [] ==> u == ExpireAll(t))
  {
    var e := ExpireAll(t);
    ExpireAllKeepsInv(t);
    assert multiset(t.registered)[id] > 0;
    if t.buffer != [] {
      AdvanceOne(e, now, id);
      var u := Advance(e, now);
      assert id in u.registered <==> multiset(u.registered)[id] > 0;
    }
  }

  // Once the clock is past the 10 s cap, the list is empty afterwards exactly if it was or an event was buffered.
  lemma ShutdownEmptiesIff<Id>(t: Tracing<Id>, now: Word64)
    requires Inv(t) && now > MAX_TRACE_CONSUMER_LIFETIME
    ensures var u := Shutdown(t, now);
      (u.registered == [] && !u.enabled) <==> t.registered == [] || t.buffer != []
  {
    var e, u := ExpireAll(t), Shutdown(t, now);
    ExpireAllKeepsInv(t);
    AdvanceKeepsInv(e, now);
    if t.registered != [] && t.buffer != [] {
      StillEnabledIff(e, now);
    }
  }

  // A run after which the consumer is never completed, however late shutdown is called: it was added and
  // no event followed.
  lemma IdleConsumerSurvivesShutdown<Id>(id: Id, v: View, added: Word64, now: Word64)
    requires v.state.ACTIVE? && v.finishes == 0
    ensures var ops := [AddConsumer(id, v, added), Stop(now)];
      && AllowedRun(Start(), ops)
      && Run(Start(), ops).registered == [id] && Run(Start(), ops).enabled
      && id in Run(Start(), ops).views && Run(Start(), ops).views[id] == v.(expiry := v.lifetime)
  {
    var ops := [AddConsumer(id, v, added), Stop(now)];
    var s := Step(Start(), ops[0]);
    assert s.registered == [id];
    assert ops[1..] == [Stop(now)] && ops[1..][1..] == [];
    var u := Step(s, Stop(now));
    assert Run(s, [Stop(now)]) == Run(u, []) == u;
  }

  // -------- the assertion in finish --------

  // Finishing the list in order meets the assertion every time.
  ghost predicate FinishesCleanly<Id>(states: map<Id, Lifecycle>, expired: seq<Id>)
    decreases expired
  {
    expired == []
    || (expired[0] in states && states[expired[0]].EXPIRED?
        && FinishesCleanly(states[expired[0] := COMPLETE], expired[1..]))
  }

  lemma {:induction false} FinishesCleanlyIff<Id>(states: map<Id, Lifecycle>, expired: seq<Id>)
    ensures FinishesCleanly(states, expired) <==>
      Distinct(expired) && forall id | id in expired :: id in states && states[id].EXPIRED?
    decreases expired
  {
    if expired != [] {
      var head, tail := expired[0], expired[1..];
      assert expired == [head] + tail;
      FinishesCleanlyIff(states[head := COMPLETE], tail);
      if Distinct(expired) {
        assert forall i | 0 <= i < |tail| :: tail[i] == expired[i + 1];
        assert head !in tail;
      }
      assert states[head := COMPLETE][head].COMPLETE?;
      if FinishesCleanly(states, expired) {
        assert forall i | 0 < i < |expired| :: expired[i] == tail[i - 1] && expired[i] in tail;
      }
    }
  }

  // No consumer that expires in this call is registered twice.
  ghost predicate ExpiresOnce<Id>(t: Tracing<Id>, now: Word64) {
    forall id | id in t.registered && id in Late(t.views, now) :: multiset(t.registered)[id] <= 1
  }

  function StatesOf<Id>(views: map<Id, View>): map<Id, Lifecycle> {
    map id | id in views :: views[id].state
  }

  // The assertion in finish holds for a whole call exactly if no expiring consumer is registered twice.
  lemma DoubleRegistrationFailsFinish<Id>(t: Tracing<Id>, batch: seq<Record>, now: Word64)
    requires t.WellFormed()
    ensures var swept := Sweep(t.registered, 0, Late(t.views, now));
      FinishesCleanly(StatesOf(VisitAll(t.views, batch, now, swept.visited)), swept.removed) <==> ExpiresOnce(t, now)
  {
    var late := Late(t.views, now);
    var swept := Sweep(t.registered, 0, late);
    var states := StatesOf(VisitAll(t.views, batch, now, swept.visited));
    SweptAreListed(t.registered, late, t.views.Keys);
    forall id | id in swept.removed
      ensures id in states && states[id].EXPIRED?
    {
      RemovedCount(t.registered, late, id);
      VisitAllIs(t.views, batch, now, swept.visited, id);
      assert multiset(swept.visited)[id] > 0 by { SweepSplits(t.registered, late); }
      VisitTimesIs(t.views[id], batch, now, multiset(swept.visited)[id]);
    }
    FinishesCleanlyIff(states, swept.removed);
    RemovedDistinctIff(t.registered, late);
  }

  // So it never fails while everyone registered is orderly.
  lemma OrderlyFinishesCleanly<Id>(t: Tracing<Id>, batch: seq<Record>, now: Word64)
    requires t.WellFormed() && forall id | id in t.registered :: Orderly(t, id)
    ensures var swept := Sweep(t.registered, 0, Late(t.views, now));
      FinishesCleanly(StatesOf(VisitAll(t.views, batch, now, swept.visited)), swept.removed)
  {
    DoubleRegistrationFailsFinish(t, batch, now);
  }
}


/** The tracer's own code, over consumer objects and two buffers that are kept in step. */
module TracerClass {
  import opened Options
  import opened Sequences
  import opened SwapRemoval
  import opened TraceModel

  datatype StoredEvent = StoredEvent(name: string, cat: string, ts: nat, tid: nat, argsIndex: int, ph: char)

  const MAX_ARGS: nat := 0x8000_0000

  // (int32_t)n
  function Cast32(n: nat): int {
    if n % 0x1_0000_0000 < 0x8000_0000 then n % 0x1_0000_0000 else n % 0x1_0000_0000 - 0x1_0000_0000
  }

  // The string an args index stands for.
  function ArgAt(index: int, args: seq<string>): Option<string> {
    if 0 <= index < |args| then Some(args[index]) else None
  }

  function ToEntry(e: StoredEvent, args: seq<string>): Entry {
    Entry(e.name, e.cat, e.ts, e.tid, ArgAt(e.argsIndex, args), e.ph)
  }

  // The one sequence of events that the two buffers stand for.
  function Merge(events: seq<StoredEvent>, args: seq<string>): (entries: seq<Entry>)
    ensures |entries| == |events|
    ensures forall k | 0 <= k < |events| :: entries[k] == ToEntry(events[k], args)
  {
    seq(|events|, k requires 0 <= k < |events| => ToEntry(events[k], args))
  }

  // Every stored index is -1 or in range, and no two events share an args entry.
  predicate Aligned(events: seq<StoredEvent>, args: seq<string>) {
    && (forall k | 0 <= k < |events| :: events[k].argsIndex == -1 || 0 <= events[k].argsIndex < |args|)
    && (forall j, k | 0 <= j < k < |events| && events[k].argsIndex != -1 ::
          events[j].argsIndex != events[k].argsIndex)
  }

  // What the vector access demands when the batch is rendered.
  predicate Renderable(events: seq<StoredEvent>, args: seq<string>) {
    forall k | 0 <= k < |events| :: events[k].argsIndex == -1 || 0 <= events[k].argsIndex < |args|
  }

  // The string that is found for an event recorded with arg, when args holds the earlier strings.
  function StoredArg(args: seq<string>, arg: string): Option<string> {
    ArgAt(Cast32(|args|), args + [arg])
  }

  // The first 2^31 strings of one batch have their own index.  For the next 2^31 it is negative: the last of
  // them, -1, makes its event lose the string, and all others make the vector access go wrong.  From 2^32 on
  // this repeats, with the indices of strings of other events in between.
  lemma ArgsIndexIff(n: nat)
    ensures Cast32(n) == n <==> n < MAX_ARGS
    ensures Cast32(n) < -1 <==> MAX_ARGS <= n % 0x1_0000_0000 < 0xFFFF_FFFF
    ensures Cast32(n) == -1 <==> n % 0x1_0000_0000 == 0xFFFF_FFFF
    ensures Cast32(n) >= 0 && n >= MAX_ARGS ==> Cast32(n) == n % 0x1_0000_0000 <= n - 0x1_0000_0000
    ensures Cast32(n) <= n
  {
  }

  // Recording an event with args adds one event and disturbs no other; below 2^31 strings it has its own
  // string and shares no entry.
  lemma MergeWithArgs(events: seq<StoredEvent>, args: seq<string>, e: StoredEvent, arg: string)
    requires e.argsIndex == Cast32(|args|)
    requires forall k | 0 <= k < |events| :: events[k].argsIndex < |args|
    ensures Merge(events + [e], args + [arg])
         == Merge(events, args) + [Entry(e.name, e.cat, e.ts, e.tid, StoredArg(args, arg), e.ph)]
    ensures |args| < MAX_ARGS ==>
      StoredArg(args, arg) == Some(arg) && (Aligned(events, args) ==> Aligned(events + [e], args + [arg]))
  {
    var es, xs := events + [e], args + [arg];
    ArgsIndexIff(|args|);
    assert forall k | 0 <= k < |events| :: es[k] == events[k];
    assert forall k | 0 <= k < |events| :: ToEntry(events[k], xs) == ToEntry(events[k], args);
  }

  // The argument a kind of meta event takes; "" for a kind that is not recorded.
  function MetaArgName(kind: string): string {
    if kind == "process_name" || kind == "thread_name" then "name"
    else if kind == "process_labels" then "labels"
    else ""
  }

  function MetaText(kind: string, argName: string, arg: string, tid: string): string {
    "{\"name\":\"" + kind + "\",\"ph\":\"M\",\"pid\":1,\"tid\":" + tid
      + ",\"args\":{\"" + argName + "\":\"" + arg + "\"}}"
  }

  // As the source has it, without the "ph" key.
  function MetaIndexText(kind: string, index: string, tid: string): string {
    "{\"name\":\"" + kind + "\",\"M\",\"pid\":1,\"tid\":" + tid + ",\"args\":{\"sort_index\":" + index + "}}"
  }

  class Consumer {
    const lifetime: Lifetime
    var state: Lifecycle
    var expiry: Word64
    var received: seq<Record>
    ghost var finishes: nat

    ghost function AsView(): View
      reads this
    {
      View(state, lifetime, expiry, received, finishes)
    }

    constructor (lifetime: nat)
      ensures AsView() == View(ACTIVE, if lifetime > MAX_TRACE_CONSUMER_LIFETIME then MAX_TRACE_CONSUMER_LIFETIME
                                       else lifetime, TWO_64 - 1, [], 0)
      ensures this.lifetime == (if lifetime > 10_000 then 10_000 else lifetime) && expiry == 0xFFFF_FFFF_FFFF_FFFF
    {
      this.lifetime := if lifetime > MAX_TRACE_CONSUMER_LIFETIME then MAX_TRACE_CONSUMER_LIFETIME else lifetime;
      state, expiry, received, finishes := ACTIVE, TWO_64 - 1, [], 0;
    }

    method UpdateExpiry(now: Word64)
      modifies this
      ensures AsView() == ExtendView(old(AsView()), now)
      ensures expiry == (now + lifetime) % 0x1_0000_0000_0000_0000 && state == old(state) && received == old(received)
    {
      expiry := (now + lifetime) % TWO_64;
    }

    method ConsumeEvents(batch: seq<Record>)
      modifies this
      ensures AsView() == old(AsView()).(received := old(received) + batch)
    {
      received := received + batch;
    }

    method CheckExpiry(now: Word64)
      modifies this
      ensures AsView() == old(AsView()).(state := if now > old(expiry) then EXPIRED else old(state))
      ensures expiry == old(expiry) && received == old(received)
    {
      if now > expiry {
        state := EXPIRED;
      }
    }

    method Finish(meta: seq<string>)
      requires state.EXPIRED?
      modifies this
      ensures AsView() == FinishView(old(AsView()), meta)
      ensures state == COMPLETE && received == old(received) + MetaRecords(meta) && finishes == old(finishes) + 1
    {
      assert state.EXPIRED?;
      ConsumeEvents(MetaRecords(meta));
      state := COMPLETE;
      finishes := finishes + 1;
    }
  }

  class Tracer {
    var consumers: seq<Consumer>
    var events: seq<StoredEvent>
    var args: seq<string>
    var metaEvents: seq<string>
    var enabled: bool

    ghost var world: set<Consumer>    // every consumer ever added
    ghost var accepted: seq<Entry>
    ghost var flushed: nat

    ghost function Views(): map<Consumer, View>
      reads `world, world
    {
      map c | c in world :: c.AsView()
    }

    ghost function State(): Tracing<Consumer>
      reads this, world
    {
      Tracing(Merge(events, args), metaEvents, consumers, Views(), enabled, accepted, flushed)
    }

    ghost predicate Known()
      reads `consumers, `world
    {
      forall c | c in consumers :: c in world
    }

    ghost predicate Valid()
      reads this
    {
      && Known()
      && (forall k | 0 <= k < |events| :: events[k].argsIndex < |args|)
      && (|args| <= MAX_ARGS ==> Aligned(events, args))
    }

    constructor ()
      ensures Valid() && State() == Start()
      ensures consumers == [] && events == [] && args == [] && metaEvents == [] && !enabled
    {
      consumers, events, args, metaEvents, enabled := [], [], [], [], false;
      world, accepted, flushed := {}, [], 0;
    }

    method AddEvent(name: string, cat: string, ph: char, ts: nat, tid: nat)
      requires Valid()
      modifies this
      ensures Valid() && State() == Add(old(State()), Entry(name, cat, ts, tid, None, ph))
      ensures events == old(events) + (if enabled then [StoredEvent(name, cat, ts, tid, -1, ph)] else [])
      ensures accepted == old(accepted) + (if enabled then [Entry(name, cat, ts, tid, None, ph)] else [])
      ensures args == old(args) && consumers == old(consumers) && enabled == old(enabled)
    {
      if enabled {
        events := events + [StoredEvent(name, cat, ts, tid, -1, ph)];
        accepted := accepted + [Entry(name, cat, ts, tid, None, ph)];
        assert Merge(events, args) == old(Merge(events, args)) + [Entry(name, cat, ts, tid, None, ph)];
      }
    }

    // The index is cast to 32 bits; MergeWithArgs says when the string found for the event is its own.
    method AddEventWithArgs(name: string, cat: string, ph: char, arg: string, ts: nat, tid: nat)
      requires Valid()
      modifies this
      ensures Valid()
      ensures State() == Add(old(State()), Entry(name, cat, ts, tid, StoredArg(old(args), arg), ph))
      ensures args == old(args) + (if enabled then [arg] else [])
      ensures |events| == |old(events)| + (if enabled then 1 else 0) && events[..|old(events)|] == old(events)
      ensures enabled && |old(args)| < 0x8000_0000 ==>
        && events[|old(events)|] == StoredEvent(name, cat, ts, tid, |old(args)|, ph)
        && accepted == old(accepted) + [Entry(name, cat, ts, tid, Some(arg), ph)]
      ensures consumers == old(consumers) && enabled == old(enabled)
    {
      if enabled {
        var argsIndex := Cast32(|args|);
        MergeWithArgs(events, args, StoredEvent(name, cat, ts, tid, argsIndex, ph), arg);
        ArgsIndexIff(|args|);
        accepted := accepted + [Entry(name, cat, ts, tid, StoredArg(args, arg), ph)];
        args := args + [arg];
        events := events + [StoredEvent(name, cat, ts, tid, argsIndex, ph)];
      }
    }

    // count is the decimal form of the counter's value.
    method SetCounter(name: string, cat: string, count: string, ts: nat, tid: nat)
      requires Valid()
      modifies this
      ensures Valid()
      ensures var arg := "\"" + name + "\":" + count;
        && State() == Add(old(State()), Entry(name, cat, ts, tid, StoredArg(old(args), arg), 'C'))
        && args == old(args) + (if enabled then [arg] else [])
    {
      AddEventWithArgs(name, cat, 'C', "\"" + name + "\":" + count, ts, tid);
    }

    method AddMetaEvent(kind: string, arg: string, tid: string)
      requires Valid()
      modifies this
      ensures Valid()
      ensures State() == if MetaArgName(kind) == "" then old(State())
                         else old(State()).(meta := old(metaEvents) + [MetaText(kind, MetaArgName(kind), arg, tid)])
      ensures kind == "process_name" || kind == "thread_name" ==>
        var text := "{\"name\":\"" + kind + "\",\"ph\":\"M\",\"pid\":1,\"tid\":" + tid
          + ",\"args\":{\"" + "name" + "\":\"" + arg + "\"}}";
        metaEvents == old(metaEvents) + [text]
      ensures kind == "process_labels" ==>
        var text := "{\"name\":\"" + kind + "\",\"ph\":\"M\",\"pid\":1,\"tid\":" + tid
          + ",\"args\":{\"" + "labels" + "\":\"" + arg + "\"}}";
        metaEvents == old(metaEvents) + [text]
      ensures kind != "process_name" && kind != "thread_name" && kind != "process_labels" ==>
        metaEvents == old(metaEvents)
    {
      var argName := "";
      if kind == "process_name" {
        argName := "name";
      } else if kind == "process_labels" {
        argName := "labels";
      } else if kind == "thread_name" {
        argName := "name";
      }
      if argName != "" {
        metaEvents := metaEvents + [MetaText(kind, argName, arg, tid)];
      }
    }

    // index is the decimal form of the sort index.
    method AddMetaIndex(kind: string, index: string, tid: string)
      requires Valid()
      modifies this
      ensures Valid()
      ensures State() == if kind == "process_sort_index" || kind == "thread_sort_index"
                         then old(State()).(meta := old(metaEvents) + [MetaIndexText(kind, index, tid)])
                         else old(State())
      ensures metaEvents == old(metaEvents) +
        if kind == "process_sort_index" || kind == "thread_sort_index" then
          ["{\"name\":\"" + kind + "\",\"M\",\"pid\":1,\"tid\":" + tid + ",\"args\":{\"sort_index\":" + index + "}}"]
        else []
    {
      if kind == "process_sort_index" || kind == "thread_sort_index" {
        metaEvents := metaEvents + [MetaIndexText(kind, index, tid)];
      }
    }

    method AddConsumer(consumer: Consumer?, now: Word64)
      requires Valid()
      modifies this, if consumer == null then {} else {consumer}
      ensures Valid()
      ensures consumer == null ==> State() == old(State())
      ensures consumer != null ==> State() == Register(old(State()), consumer, old(consumer.AsView()), now)
      ensures consumers == old(consumers) + (if consumer == null then [] else [consumer])
      ensures enabled == (old(enabled) || consumer != null)
      ensures consumer != null ==>
        && consumer.expiry == (now + consumer.lifetime) % 0x1_0000_0000_0000_0000
        && consumer.state == old(consumer.state) && consumer.received == old(consumer.received)
    {
      if consumer != null {
        consumer.UpdateExpiry(now);
        consumers := consumers + [consumer];
        world := world + {consumer};
        if !enabled {
          enabled := true;
        }
      }
    }

    // Moves the last consumer into place i, and tells where to go on.
    method TakeOut(i: nat) returns (next: nat)
      requires i < |consumers|
      modifies `consumers
      ensures consumers == LastMoved(old(consumers), i)
      ensures next == if i != |consumers| then i else i + 1
    {
      next := i;
      var lastIdx := |consumers| - 1;
      if i != lastIdx {
        consumers := consumers[i := consumers[lastIdx]];
      } else {
        assert consumers[i := consumers[lastIdx]] == consumers;
        next := next + 1;
      }
      consumers := consumers[..lastIdx];
    }

    method RemoveConsumer(consumer: Consumer)
      requires Valid()
      modifies this
      ensures Valid() && State() == Remove(old(State()), consumer)
      ensures consumer !in consumers && enabled == (old(enabled) && consumers != [])
      ensures forall c | c in old(consumers) && c != consumer :: multiset(consumers)[c] == multiset(old(consumers))[c]
      ensures forall c | c in consumers :: c in old(consumers)
    {
      TakeOutAll(consumer);
      if |consumers| == 0 {
        enabled := false;
      }
      SweepKeepsMembers(old(consumers), 0, {consumer});
    }

    method TakeOutAll(consumer: Consumer)
      modifies `consumers
      ensures consumers == Sweep(old(consumers), 0, {consumer}).kept
      ensures consumer !in consumers && forall c | c in consumers :: c in old(consumers)
      ensures forall c | c in old(consumers) && c != consumer :: multiset(consumers)[c] == multiset(old(consumers))[c]
    {
      var i := 0;
      while i < |consumers|
        invariant Sweep(consumers, i, {consumer}).kept == Sweep(old(consumers), 0, {consumer}).kept
        decreases |consumers| - i
      {
        if consumer == consumers[i] {
          LastInPlace(consumers, i);
          i := TakeOut(i);
        } else {
          i := i + 1;
        }
      }
      SweepSplits(old(consumers), {consumer});
      SweepMembers(old(consumers), {consumer});
    }

    // The loop that hands the batch to every consumer and takes the expired ones off the list.  Whoever is
    // registered more than once is visited as often.
    method VisitConsumers(batch: seq<Record>, now: Word64) returns (expired: seq<Consumer>)
      requires consumers != [] && Known()
      modifies `consumers, `enabled, consumers
      ensures var swept := Sweep(old(consumers), 0, old(Late(Views(), now)));
        && consumers == swept.kept && expired == swept.removed
        && Views() == VisitAll(old(Views()), batch, now, swept.visited)
      ensures enabled == (old(enabled) && consumers != [])
    {
      ghost var late := Late(Views(), now);
      ghost var whole := Sweep(consumers, 0, late);
      expired := [];
      var i: nat := 0;
      while i < |consumers|
        invariant Known() && forall c | c in consumers :: c in old(consumers)
        invariant Late(Views(), now) == late
        invariant Sweep(consumers, i, late).kept == whole.kept
        invariant expired + Sweep(consumers, i, late).removed == whole.removed
        invariant VisitAll(Views(), batch, now, Sweep(consumers, i, late).visited)
               == VisitAll(old(Views()), batch, now, whole.visited)
        invariant enabled == (old(enabled) && consumers != [])
        decreases |consumers| - i
      {
        assert consumers[i] in old(consumers);
        expired, i := VisitOne(i, expired, batch, now, late);
      }
    }

    // One iteration: an expired consumer leaves the list, and the last one out turns tracing off.
    method VisitOne(i: nat, expired: seq<Consumer>, batch: seq<Record>, now: Word64, ghost late: set<Consumer>)
      returns (expired': seq<Consumer>, next: nat)
      requires i < |consumers| && Known() && late == Late(Views(), now)
      modifies `consumers, `enabled, consumers[i]
      ensures Known() && Late(Views(), now) == late && forall c | c in consumers :: c in old(consumers)
      ensures var was, rest := Sweep(old(consumers), i, late), Sweep(consumers, next, late);
        && rest.kept == was.kept
        && expired' + rest.removed == expired + was.removed
        && VisitAll(Views(), batch, now, rest.visited) == VisitAll(old(Views()), batch, now, was.visited)
      ensures |consumers| - next < |old(consumers)| - i
      ensures enabled == (old(enabled) && consumers != [])
    {
      var consumer := consumers[i];
      SweepIteration(consumers, i, late);
      assert consumer in late <==> Visit(consumer.AsView(), [], now).state.EXPIRED?;
      VisitInPlace(consumer, batch, now);
      assert VisitAll(Views(), batch, now, Sweep(consumers, i, late).visited[1..])
          == VisitAll(old(Views()), batch, now, Sweep(consumers, i, late).visited);
      if consumer.state.EXPIRED? {
        expired' := expired + [consumer];
        next := TakeOut(i);
        if |consumers| == 0 {
          enabled := false;
        }
        ghost var removed := Sweep(consumers, next, late).removed;
        assert expired + ([consumer] + removed) == (expired + [consumer]) + removed;
      } else {
        expired', next := expired, i + 1;
      }
    }

    method VisitInPlace(consumer: Consumer, batch: seq<Record>, now: Word64)
      requires consumer in world
      modifies consumer
      ensures Views() == old(Views())[consumer := Visit(old(consumer.AsView()), batch, now)]
      ensures Late(Views(), now) == old(Late(Views(), now))
    {
      consumer.ConsumeEvents(batch);
      consumer.CheckExpiry(now);
      assert Views() == old(Views())[consumer := Visit(old(consumer.AsView()), batch, now)];
    }

    // The assertion in finish must hold at every call.
    method FinishConsumers(expired: seq<Consumer>, meta: seq<string>)
      requires AllIn(expired, world) && FinishesCleanly(StatesOf(Views()), expired)
      modifies expired
      ensures Views() == FinishAll(old(Views()), meta, expired)
    {
      for i := 0 to |expired|
        invariant FinishesCleanly(StatesOf(Views()), expired[i..])
        invariant FinishAll(Views(), meta, expired[i..]) == FinishAll(old(Views()), meta, expired)
      {
        FinishInPlace(expired[i], meta);
        assert expired[i..][1..] == expired[i + 1..];
      }
    }

    method FinishInPlace(consumer: Consumer, meta: seq<string>)
      requires consumer in world && consumer.state.EXPIRED?
      modifies consumer
      ensures Views() == old(Views())[consumer := FinishView(old(consumer.AsView()), meta)]
      ensures StatesOf(Views()) == StatesOf(old(Views()))[consumer := COMPLETE]
    {
      consumer.Finish(meta);
      assert Views() == old(Views())[consumer := FinishView(old(consumer.AsView()), meta)];
    }

    // Every args index is looked up in the strings that were swapped out together with the events.
    static method Render(events: seq<StoredEvent>, args: seq<string>) returns (records: seq<Record>)
      requires Renderable(events, args)
      ensures records == EventRecords(Merge(events, args))
    {
      records := [];
      for i := 0 to |events|
        invariant |records| == i && forall k | 0 <= k < i :: records[k] == EventRecord(Merge(events, args)[k])
      {
        var e := events[i];
        var arg := None;
        if e.argsIndex != -1 {
          arg := Some(args[e.argsIndex]);
        }
        records := records + [EventRecord(Entry(e.name, e.cat, e.ts, e.tid, arg, e.ph))];
      }
    }

    // Hands the batch to everyone, then the meta events to those that expired.
    method HandOut(batch: seq<Record>, now: Word64)
      requires consumers != [] && Known()
      requires var swept := Sweep(consumers, 0, Late(Views(), now));
        FinishesCleanly(StatesOf(VisitAll(Views(), batch, now, swept.visited)), swept.removed)
      modifies `consumers, `enabled, consumers
      ensures var swept := Sweep(old(consumers), 0, old(Late(Views(), now)));
        && consumers == swept.kept
        && Views() == FinishAll(VisitAll(old(Views()), batch, now, swept.visited), metaEvents, swept.removed)
      ensures enabled == (old(enabled) && consumers != [])
    {
      SweptAreListed(consumers, Late(Views(), now), set c | c in consumers);
      var expired := VisitConsumers(batch, now);
      if |expired| > 0 {
        FinishConsumers(expired, metaEvents);
      }
    }

    // Everything advanceConsumers does once it has a batch to hand out.
    method ServeConsumers(batch: seq<Record>, now: Word64)
      requires Valid() && consumers != [] && ExpiresOnce(State(), now)
      modifies `consumers, `enabled, consumers
      ensures Valid() && State() == ServeAll(old(State()), batch, now)
    {
      ghost var was := State();
      ghost var swept := Sweep(consumers, 0, Late(Views(), now));
      assert FinishesCleanly(StatesOf(VisitAll(Views(), batch, now, swept.visited)), swept.removed) by {
        DoubleRegistrationFailsFinish(was, batch, now);
      }
      HandOut(batch, now);
      assert Known() by { SweepKeepsMembers(old(consumers), 0, Late(was.views, now)); }
      ServedState(was, batch, now, State());
    }

    // The demands are the source's own: the vector access while rendering, and the assertion in finish,
    // which DoubleRegistrationFailsFinish shows to be ExpiresOnce.
    method AdvanceConsumers(now: Word64)
      requires Valid()
      requires events != [] && consumers != [] ==> Renderable(events, args) && ExpiresOnce(State(), now)
      modifies this, consumers
      ensures Valid() && State() == Advance(old(State()), now)
      ensures events == [] && metaEvents == old(metaEvents) && accepted == old(accepted)
      // without events nothing happens
      ensures old(events) == [] ==> consumers == old(consumers) && enabled == old(enabled)
      // otherwise those past their deadline leave, and nobody else
      ensures old(events) != [] ==> forall c | c in old(consumers) && !old(c.state).EXPIRED? ::
        c in consumers <==> now <= old(c.expiry)
      // and whoever is registered once gets the events, and the meta events on leaving
      ensures old(events) != [] ==>
        forall c | c in old(consumers) && !old(c.state).EXPIRED? && multiset(old(consumers))[c] == 1 ::
          && c.received == old(c.received) + EventRecords(old(Merge(events, args)))
               + (if now > old(c.expiry) then MetaRecords(metaEvents) else [])
          && c.state == if now > old(c.expiry) then COMPLETE else old(c.state)
    {
      ghost var was := State();
      if |events| == 0 {
        assert was.buffer == [];
        return;
      }
      FlushBatch(now);
      forall c | c in old(consumers) && !old(c.state).EXPIRED?
        ensures c in consumers <==> now <= old(c.expiry)
      {
        AdvanceOne(was, now, c);
        assert c in multiset(was.registered);
        assert c in consumers <==> multiset(consumers)[c] > 0;
      }
      forall c | c in old(consumers) && !old(c.state).EXPIRED? && multiset(old(consumers))[c] == 1
        ensures c.received == old(c.received) + EventRecords(was.buffer)
                  + (if now > old(c.expiry) then MetaRecords(metaEvents) else [])
        ensures c.state == if now > old(c.expiry) then COMPLETE else old(c.state)
      {
        AdvanceOnce(was, now, c);
        assert State().views[c] == c.AsView();
      }
    }

    // Everything from swapping the two vectors out on.
    method FlushBatch(now: Word64)
      requires Valid() && events != []
      requires consumers != [] ==> Renderable(events, args) && ExpiresOnce(State(), now)
      modifies this, consumers
      ensures Valid() && State() == Advance(old(State()), now) && events == []
    {
      ghost var was := State();
      var swappedEvents, swappedArgs := events, args;
      events, args, flushed := [], [], |accepted|;
      assert State() == was.(buffer := [], flushed := |was.accepted|) && was.buffer != [];
      if |consumers| == 0 {
        return;
      }
      var batch := Render(swappedEvents, swappedArgs);
      ghost var swapped := State();
      assert swapped == was.(buffer := [], flushed := |was.accepted|);
      ServeConsumers(batch, now);
      assert State() == ServeAll(swapped, batch, now);
    }

    // The first half of shutdown.
    method ExpireConsumers()
      requires Valid()
      modifies consumers
      ensures State() == ExpireAll(old(State()))
      ensures forall c | c in consumers ::
        c.expiry == c.lifetime && c.state == old(c.state) && c.received == old(c.received)
    {
      for i := 0 to |consumers|
        invariant forall c | c in world ::
          c.AsView() == if c in consumers[..i] then ExtendView(old(c.AsView()), 0) else old(c.AsView())
      {
        assert consumers[i] in world;
        assert consumers[..i + 1] == consumers[..i] + [consumers[i]];
        consumers[i].UpdateExpiry(0);
      }
      assert consumers[..|consumers|] == consumers;
      assert State().views == ExpireAll(old(State())).views;
    }

    method ShutdownTracer(now: Word64)
      requires Valid()
      requires events != [] && consumers != [] ==>
        Renderable(events, args) && ExpiresOnce(ExpireAll(State()), now)
      modifies this, consumers
      ensures Valid() && State() == Shutdown(old(State()), now)
      ensures old(events) == [] ==> consumers == old(consumers) && forall c | c in consumers :: c.expiry == c.lifetime
      ensures old(events) != [] ==> forall c | c in old(consumers) && !old(c.state).EXPIRED? ::
        c in consumers <==> now <= c.lifetime
    {
      ExpireConsumers();
      AdvanceConsumers(now);
    }
  }
}
