/** Remainders by a ring's capacity. */
module Remainders {

  lemma RemainderIsUnique(x: int, c: int, q: int, r: int)
    requires 0 <= r < c && x == c * q + r
    ensures x % c == r
  {
    var d := q - x / c;
    assert x == c * (x / c) + x % c;
    assert c * d == x % c - r;
    assert -c < c * d < c;
    assert d == 0;
  }

  // Going s < c slots further round a ring of c slots wraps at most once.
  lemma GoRound(m: nat, s: nat, c: nat)
    requires s < c
    ensures (m + s) % c == if m % c + s < c then m % c + s else m % c + s - c
  {
    if m % c + s < c {
      RemainderIsUnique(m + s, c, m / c, m % c + s);
    } else {
      RemainderIsUnique(m + s, c, m / c + 1, m % c + s - c);
    }
  }

  // Any c consecutive positions lie in c different slots.
  lemma SlotsDiffer(i: nat, j: nat, c: nat)
    requires i < j < i + c
    ensures i % c != j % c
  {
    GoRound(i, j - i, c);
  }

  lemma OneTurn(n: nat, c: nat)
    requires 0 < c <= n
    ensures n % c == (n - c) % c
  {
    RemainderIsUnique(n, c, (n - c) / c + 1, (n - c) % c);
  }

  lemma SmallRemainder(x: nat, c: nat)
    requires x < c
    ensures x % c == x
  {
  }
}

/**
  What src/util/RecentHistory.h promises: an unbounded log of the events since the last clear, of which
  the most recent ones can be replayed.  Versions are 32-bit and wrap.
 */
module HistoryModel {
  import opened Remainders

  const WORD: nat := 0x1_0000_0000
  const MAX_RING_SIZE: nat := 512

  type Word = x: nat | x < WORD

  // uint32_t subtraction
  function Sub32(a: Word, b: Word): Word {
    if a >= b then a - b else a - b + WORD
  }

  // base is the version at the last clear; log holds the events recorded since then.
  datatype History<E> = History(capacity: nat, base: Word, log: seq<E>) {
    ghost predicate Ok() {
      capacity <= MAX_RING_SIZE
    }

    // The count the version would show if it did not wrap.
    function Total(): nat {
      base + |log|
    }

    function Version(): Word {
      Total() % WORD
    }

    // How many events can be replayed: one slot of the ring always stays empty.
    function Size(): nat {
      if capacity == 0 then 0 else if |log| < capacity then |log| else capacity - 1
    }

    // The oldest version that is not lost to history, in the source's arithmetic.
    function Oldest(): Word
      requires Ok()
    {
      Sub32(Version(), Size())
    }

    // The two rejections of advanceConsumer, in its own arithmetic.
    predicate CanAdvance(v: Word)
      requires Ok()
    {
      v <= Version() && Oldest() <= v
    }

    // What a consumer at version v is given.
    function Delivered(v: Word): seq<E>
      requires Ok() && CanAdvance(v)
    {
      log[|log| - (Version() - v)..]
    }

    function Push(e: E): History<E> {
      this.(log := log + [e])
    }

    function Clear(v: Word): History<E> {
      History(capacity, v, [])
    }

    // v is older than anything that can still be replayed.
    ghost predicate Behind(v: Word) {
      v + Size() < Total()
    }
  }

  // -------- which versions can be advanced --------

  // Exact for every history, wrapped or not: right after the counter wraps, while it is smaller than
  // the number of replayable events, nobody at all can advance.
  lemma AdvanceIff<E>(h: History<E>, v: Word)
    requires h.Ok()
    ensures h.CanAdvance(v) <==> h.Size() <= h.Version() && h.Version() - h.Size() <= v <= h.Version()
    ensures h.CanAdvance(v) ==> |h.Delivered(v)| == h.Version() - v
  {
  }

  // As long as the counter has not wrapped since the last clear, the window is the promised one.
  lemma AdvanceIffNoWrap<E>(h: History<E>, v: Word)
    requires h.Ok() && h.capacity >= 1
    ensures h.Total() < WORD ==>
      && h.Version() == h.base + |h.log|
      && (h.CanAdvance(v) <==>
            h.Version() - (if |h.log| < h.capacity - 1 then |h.log| else h.capacity - 1) <= v <= h.Version())
    // and this is exactly when nobody is shut out although up to date
    ensures h.CanAdvance(h.Version()) <==> !(h.Total() >= WORD && h.Total() % WORD < h.Size())
  {
    SmallRemainder(h.Version(), WORD);
  }

  // A run after which nobody can advance, not even a consumer that has missed nothing.
  lemma WrapShutsEveryoneOut(v: Word)
    ensures var h: History<int> := History(2, WORD - 1, []).Push(1);
      h.Ok() && h.Version() == 0 && !h.CanAdvance(v)
  {
  }

  // -------- lost history stays lost --------

  datatype Op<E> = Record(event: E) | Reset(version: Word)

  function Apply<E>(h: History<E>, op: Op<E>): History<E> {
    match op
    case Record(e) => h.Push(e)
    case Reset(v) => h.Clear(v)
  }

  function ApplyAll<E>(h: History<E>, ops: seq<Op<E>>): History<E>
    decreases ops
  {
    if ops == [] then h else ApplyAll(Apply(h, ops[0]), ops[1..])
  }

  // After clearAndSetVersion(v), to an older or a newer version, exactly consumers at v are let in, and they are
  // given nothing.
  lemma ResetIsEmpty<E>(h: History<E>, v: Word, u: Word)
    requires h.Ok()
    ensures var g := Apply(h, Reset(v));
      && g.Ok() && g.capacity == h.capacity && g.log == [] && g.Version() == v
      && (g.CanAdvance(u) <==> u == v)
  {
    SmallRemainder(v, WORD);
  }

  // A run of pushes records their events, in order.
  lemma {:induction false} RecordsAreLogged<E>(h: History<E>, events: seq<E>)
    ensures ApplyAll(h, seq(|events|, k requires 0 <= k < |events| => Record(events[k])))
         == History(h.capacity, h.base, h.log + events)
    decreases events
  {
    var ops := seq(|events|, k requires 0 <= k < |events| => Record(events[k]));
    if events == [] {
      assert h.log + events == h.log;
    } else {
      var g, rest := Apply(h, ops[0]), events[1..];
      assert ops[1..] == seq(|rest|, k requires 0 <= k < |rest| => Record(rest[k]));
      RecordsAreLogged(g, rest);
      assert h.log + events == (h.log + [events[0]]) + rest;
    }
  }

  // Without wrap-around, failing because the version is too old is being behind.
  lemma LostIffBehind<E>(h: History<E>, v: Word)
    requires h.Ok() && h.Total() < WORD
    ensures v <= h.Version() && !h.CanAdvance(v) <==> h.Behind(v)
  {
  }

  lemma PushKeepsOldest<E>(h: History<E>, e: E)
    ensures 0 <= h.Total() - h.Size() <= h.Push(e).Total() - h.Push(e).Size()
  {
  }

  // The oldest version that can be replayed, counted without wrap, never decreases under pushes and never goes
  // below zero; while the counter has not wrapped this is the source's own 32-bit difference.
  lemma {:induction false} OldestOnlyGrows<E>(h: History<E>, ops: seq<Op<E>>)
    requires h.Ok() && forall i | 0 <= i < |ops| :: ops[i].Record?
    ensures var g := ApplyAll(h, ops);
      && g.Ok() && h.Total() <= g.Total()
      && 0 <= h.Total() - h.Size() <= g.Total() - g.Size()
      && (g.Total() < WORD ==> h.Oldest() <= g.Oldest() == g.Total() - g.Size())
    decreases ops
  {
    if ops != [] {
      PushKeepsOldest(h, ops[0].event);
      OldestOnlyGrows(Apply(h, ops[0]), ops[1..]);
    }
    OldestUnderflowsIff(h);
  }

  // That difference underflows exactly while the counter, having wrapped, is smaller than the number of
  // replayable events.
  lemma OldestUnderflowsIff<E>(h: History<E>)
    requires h.Ok()
    ensures h.Oldest() == h.Version() - h.Size() <==> !(h.Total() >= WORD && h.Total() % WORD < h.Size())
    ensures h.Total() < WORD ==> h.Oldest() == h.Total() - h.Size()
  {
    if h.Total() < WORD {
      SmallRemainder(h.Total(), WORD);
    }
  }

  // Once behind, a consumer stays behind through any pushes and any clears to newer versions.
  lemma {:induction false} BehindStaysBehind<E>(h: History<E>, v: Word, ops: seq<Op<E>>)
    requires h.Ok() && h.Behind(v)
    requires forall i | 0 <= i < |ops| && ops[i].Reset? :: ops[i].version > v
    ensures ApplyAll(h, ops).Ok() && ApplyAll(h, ops).Behind(v)
    decreases ops
  {
    if ops != [] {
      if ops[0].Record? {
        PushKeepsOldest(h, ops[0].event);
      }
      BehindStaysBehind(Apply(h, ops[0]), v, ops[1..]);
    }
  }

  // So it keeps failing until the 32-bit counter comes round to its version again, and at that very
  // push it is let in, with events missing, exactly if the counter has outgrown the ring.
  lemma LostUntilWrap<E>(h: History<E>, v: Word, ops: seq<Op<E>>)
    requires h.Ok() && h.Behind(v)
    requires forall i | 0 <= i < |ops| && ops[i].Reset? :: ops[i].version > v
    ensures var g := ApplyAll(h, ops);
      && g.Ok()
      && (g.Total() < WORD + v ==> !g.CanAdvance(v))
      && (g.Total() == WORD + v ==> (g.CanAdvance(v) <==> g.Size() <= v))
  {
    BehindStaysBehind(h, v, ops);
    var g := ApplyAll(h, ops);
    if g.Total() < WORD {
      SmallRemainder(g.Total(), WORD);
    } else if g.Total() < WORD + v {
      RemainderIsUnique(g.Total(), WORD, 1, g.Total() - WORD);
    } else if g.Total() == WORD + v {
      RemainderIsUnique(g.Total(), WORD, 1, v);
    }
  }

  // A run that lets a lost consumer back in: version 0 has missed events 1 and 2 and gets only 4.
  lemma WrapRevivesLostConsumer()
    ensures var h: History<int> := History(2, 0, []);
      var lost := ApplyAll(h, [Record(1), Record(2)]);
      var back := ApplyAll(lost, [Reset(WORD - 1), Record(3), Record(4)]);
      && h.Ok() && lost.Ok() && back.Ok()
      && !lost.CanAdvance(0)
      && back.CanAdvance(0) && back.Delivered(0) == [4]
  {
    var h: History<int> := History(2, 0, []);
    var h1 := h.Push(1);
    var h2 := h1.Push(2);
    assert [Record(1), Record(2)][1..] == [Record(2)];
    assert [Record(2)][1..] == [];
    assert ApplyAll(h2, []) == h2;
    assert ApplyAll(h1, [Record(2)]) == h2;
    assert ApplyAll(h, [Record(1), Record(2)]) == h2;
    var g0 := h2.Clear(WORD - 1);
    var g1 := g0.Push(3);
    var g2 := g1.Push(4);
    assert [Reset(WORD - 1), Record(3), Record(4)][1..] == [Record(3), Record(4)];
    assert [Record(3), Record(4)][1..] == [Record(4)];
    assert [Record(4)][1..] == [];
    assert ApplyAll(g2, []) == g2;
    assert ApplyAll(g1, [Record(4)]) == g2;
    assert ApplyAll(g0, [Record(3), Record(4)]) == g2;
    RemainderIsUnique(g2.Total(), WORD, 1, 1);
  }

  // -------- consumers converge --------

  function Fold<S, E>(step: (S, E) -> S, s: S, events: seq<E>): S
    decreases events
  {
    if events == [] then s else Fold(step, step(s, events[0]), events[1..])
  }

  // Replaying a then b is replaying a + b.
  lemma {:induction false} FoldAppend<S, E>(step: (S, E) -> S, s: S, a: seq<E>, b: seq<E>)
    ensures Fold(step, s, a + b) == Fold(step, Fold(step, s, a), b)
    decreases a
  {
    if a == [] {
      assert a + b == b;
    } else {
      assert (a + b)[1..] == a[1..] + b;
      FoldAppend(step, step(s, a[0]), a[1..], b);
    }
  }

  // Fold takes one step for each event, in order: whatever states lead from s by single steps, it is the last.
  lemma {:induction false} FoldStepsOnce<S, E>(step: (S, E) -> S, s: S, events: seq<E>, states: seq<S>)
    requires |states| == |events| + 1 && states[0] == s
    requires forall k | 0 <= k < |events| :: states[k + 1] == step(states[k], events[k])
    ensures Fold(step, s, events) == states[|events|]
    decreases events
  {
    if events != [] {
      assert states[1] == step(states[0], events[0]);
      forall k | 0 <= k < |events| - 1
        ensures states[1..][k + 1] == step(states[1..][k], events[1..][k])
      {
        assert states[k + 1 + 1] == step(states[k + 1], events[k + 1]);
      }
      FoldStepsOnce(step, states[1], events[1..], states[1..]);
    }
  }

  // So a consumer that records what it is given has recorded exactly the events.
  lemma {:induction false} FoldRecords<E>(s: seq<E>, events: seq<E>)
    ensures Fold((t: seq<E>, e: E) => t + [e], s, events) == s + events
    decreases events
  {
    if events == [] {
      assert s + events == s;
    } else {
      FoldRecords(s + [events[0]], events[1..]);
      assert s + [events[0]] + events[1..] == s + events;
    }
  }

  datatype Reader<S> = Reader(version: Word, state: S)

  function Advance<S, E>(h: History<E>, step: (S, E) -> S, r: Reader<S>): Reader<S>
    requires h.Ok()
  {
    if h.CanAdvance(r.version) then Reader(h.Version(), Fold(step, r.state, h.Delivered(r.version))) else r
  }

  datatype Move<E> = Write(event: E) | Read(reader: nat)

  datatype System<S, E> = System(history: History<E>, readers: seq<Reader<S>>)

  function PlayOne<S, E>(step: (S, E) -> S, sys: System<S, E>, move: Move<E>): System<S, E>
    requires sys.history.Ok()
  {
    match move
    case Write(e) => sys.(history := sys.history.Push(e))
    case Read(k) =>
      if k < |sys.readers| then
        sys.(readers := sys.readers[k := Advance(sys.history, step, sys.readers[k])])
      else sys
  }

  function Play<S, E>(step: (S, E) -> S, sys: System<S, E>, moves: seq<Move<E>>): System<S, E>
    requires sys.history.Ok()
    decreases moves
  {
    if moves == [] then sys else Play(step, PlayOne(step, sys, moves[0]), moves[1..])
  }

  // Reading takes a reader to the present version over exactly the events it has missed, if it is let in, and
  // leaves every other reader alone.
  lemma ReadCatchesUp<S, E>(step: (S, E) -> S, sys: System<S, E>, k: nat)
    requires sys.history.Ok() && k < |sys.readers|
    ensures var h, r := sys.history, sys.readers[k];
      var after := PlayOne(step, sys, Read(k));
      && after.history == h && |after.readers| == |sys.readers|
      && (forall j | 0 <= j < |sys.readers| && j != k :: after.readers[j] == sys.readers[j])
      && after.readers[k] == if h.CanAdvance(r.version)
           then Reader(h.Version(), Fold(step, r.state, h.log[|h.log| - (h.Version() - r.version)..])) else r
  {
  }

  // The events a run writes, in order.
  function Written<E>(moves: seq<Move<E>>): seq<E> {
    if moves == [] then [] else (if moves[0].Write? then [moves[0].event] else []) + Written(moves[1..])
  }

  lemma {:induction false} PlayWrites<S, E>(step: (S, E) -> S, sys: System<S, E>, moves: seq<Move<E>>)
    requires sys.history.Ok()
    ensures var end := Play(step, sys, moves).history;
      end == History(sys.history.capacity, sys.history.base, sys.history.log + Written(moves))
    decreases moves
  {
    if moves == [] {
      assert sys.history.log + [] == sys.history.log;
    } else {
      PlayWrites(step, PlayOne(step, sys, moves[0]), moves[1..]);
      var first := if moves[0].Write? then [moves[0].event] else [];
      assert sys.history.log + first + Written(moves[1..]) == sys.history.log + (first + Written(moves[1..]));
      assert sys.history.log + [] == sys.history.log;
    }
  }

  // A run takes its moves one by one.
  lemma {:induction false} PlayInTurn<S, E>(step: (S, E) -> S, sys: System<S, E>, moves: seq<Move<E>>, last: Move<E>)
    requires sys.history.Ok()
    ensures Play(step, sys, moves).history.Ok()
    ensures Play(step, sys, moves + [last]) == PlayOne(step, Play(step, sys, moves), last)
    decreases moves
  {
    if moves == [] {
      assert [last][1..] == [];
    } else {
      assert (moves + [last])[1..] == moves[1..] + [last];
      PlayInTurn(step, PlayOne(step, sys, moves[0]), moves[1..], last);
    }
  }

  // r came from the reader (v, s) by replaying exactly the events recorded from v up to r's version.
  ghost predicate Tracks<S(!new), E(!new)>(h: History<E>, step: (S, E) -> S, v: Word, s: S, r: Reader<S>) {
    || (r.version == v && r.state == s)
    || (h.base <= v <= r.version <= h.Total()
        && r.state == Fold(step, s, h.log[v - h.base..r.version - h.base]))
  }

  lemma AdvanceTracks<S(!new), E(!new)>(h: History<E>, step: (S, E) -> S, v: Word, s: S, r: Reader<S>)
    requires h.Ok() && h.Total() < WORD && Tracks(h, step, v, s, r)
    ensures Tracks(h, step, v, s, Advance(h, step, r))
  {
    if h.CanAdvance(r.version) {
      var from, mid := v - h.base, r.version - h.base;
      assert h.Version() == h.Total() && h.base <= r.version;
      assert h.Delivered(r.version) == h.log[mid..];
      if h.base <= v <= r.version <= h.Total() && r.state == Fold(step, s, h.log[from..mid]) {
        ReplayOn(step, s, h.log, from, mid);
      }
    }
  }

  // Replaying from .. mid and then the rest is replaying from on.
  lemma ReplayOn<S, E>(step: (S, E) -> S, s: S, log: seq<E>, from: nat, mid: nat)
    requires from <= mid <= |log|
    ensures Fold(step, Fold(step, s, log[from..mid]), log[mid..]) == Fold(step, s, log[from..|log|])
  {
    FoldAppend(step, s, log[from..mid], log[mid..]);
    assert log[from..mid] + log[mid..] == log[from..|log|];
  }

  lemma PushTracks<S(!new), E(!new)>(h: History<E>, e: E, step: (S, E) -> S, v: Word, s: S, r: Reader<S>)
    requires Tracks(h, step, v, s, r)
    ensures Tracks(h.Push(e), step, v, s, r)
  {
    if h.base <= v <= r.version <= h.Total() {
      assert h.Push(e).log[v - h.base..r.version - h.base] == h.log[v - h.base..r.version - h.base];
    }
  }

  lemma {:induction false} LogOnlyGrows<S, E>(step: (S, E) -> S, sys: System<S, E>, moves: seq<Move<E>>)
    requires sys.history.Ok()
    ensures var end := Play(step, sys, moves);
      && end.history.Total() >= sys.history.Total() && |end.readers| == |sys.readers|
    decreases moves
  {
    if moves != [] {
      LogOnlyGrows(step, PlayOne(step, sys, moves[0]), moves[1..]);
    }
  }

  lemma {:induction false} PlayTracks<S(!new), E(!new)>(
      step: (S, E) -> S, sys: System<S, E>, moves: seq<Move<E>>, k: nat, v: Word, s: S)
    requires sys.history.Ok() && k < |sys.readers|
    requires Tracks(sys.history, step, v, s, sys.readers[k])
    requires Play(step, sys, moves).history.Total() < WORD
    ensures var end := Play(step, sys, moves);
      k < |end.readers| && Tracks(end.history, step, v, s, end.readers[k])
    decreases moves
  {
    LogOnlyGrows(step, sys, moves);
    if moves != [] {
      match moves[0] {
        case Write(e) => PushTracks(sys.history, e, step, v, s, sys.readers[k]);
        case Read(j) => AdvanceTracks(sys.history, step, v, s, sys.readers[k]);
      }
      PlayTracks(step, PlayOne(step, sys, moves[0]), moves[1..], k, v, s);
    }
  }

  // Two consumers that start alike and read whenever they like, with no clear in between and the
  // counter not wrapping, hold the same state whenever their versions agree.
  lemma ReadersConverge<S(!new), E(!new)>(
      step: (S, E) -> S, sys: System<S, E>, moves: seq<Move<E>>, j: nat, k: nat)
    requires sys.history.Ok() && j < |sys.readers| && k < |sys.readers|
    requires sys.readers[j] == sys.readers[k]
    requires Play(step, sys, moves).history.Total() < WORD
    ensures var end := Play(step, sys, moves);
      && j < |end.readers| && k < |end.readers|
      && (end.readers[j].version == end.readers[k].version ==> end.readers[j].state == end.readers[k].state)
  {
    var r := sys.readers[j];
    PlayTracks(step, sys, moves, j, r.version, r.state);
    PlayTracks(step, sys, moves, k, r.version, r.state);
  }

  // -------- the ring --------

  // The slots after writing the log round the ring, starting from the leftover contents.
  function Slots<E>(leftover: seq<E>, log: seq<E>): (slots: seq<E>)
    requires |leftover| > 0 || log == []
    ensures |slots| == |leftover|
  {
    if log == [] then leftover
    else Slots(leftover, log[..|log| - 1])[(|log| - 1) % |leftover| := log[|log| - 1]]
  }

  lemma PushWritesSlot<E>(leftover: seq<E>, log: seq<E>, e: E)
    requires |leftover| > 0
    ensures Slots(leftover, log + [e]) == Slots(leftover, log)[|log| % |leftover| := e]
  {
    var longer := log + [e];
    assert longer[..|longer| - 1] == log && longer[|longer| - 1] == e;
  }

  // The last |leftover| events are all still in the ring, each in its own slot.
  lemma {:induction false} RecentEventsSurvive<E>(leftover: seq<E>, log: seq<E>, k: nat)
    requires |leftover| > 0 && k < |log| <= k + |leftover|
    ensures Slots(leftover, log)[k % |leftover|] == log[k]
  {
    if k < |log| - 1 {
      SlotsDiffer(k, |log| - 1, |leftover|);
      RecentEventsSurvive(leftover, log[..|log| - 1], k);
    }
  }

  lemma {:induction false} UntouchedSlots<E>(leftover: seq<E>, log: seq<E>, i: nat)
    requires |log| <= i < |leftover|
    ensures Slots(leftover, log)[i] == leftover[i]
  {
    if log != [] {
      SmallRemainder(|log| - 1, |leftover|);
      UntouchedSlots(leftover, log[..|log| - 1], i);
    }
  }

  // What the next push displaces: the event recorded one full turn earlier, or what was there before.
  lemma Displaced<E>(leftover: seq<E>, log: seq<E>)
    requires |leftover| > 0
    ensures Slots(leftover, log)[|log| % |leftover|]
         == if |log| >= |leftover| then log[|log| - |leftover|] else leftover[|log|]
  {
    var c := |leftover|;
    if |log| >= c {
      OneTurn(|log|, c);
      RecentEventsSurvive(leftover, log, |log| - c);
    } else {
      assert |log| % c == |log| by { SmallRemainder(|log|, c); }
      UntouchedSlots(leftover, log, |log|);
    }
  }
}

/** The ring buffer itself. */
module RecentHistoryClass {
  import opened Remainders
  import opened HistoryModel

  // A consumer whose consumeEvent updates a state of its own.
  class Consumer<Event, S> {
    const step: (S, Event) -> S
    var version: Word
    var state: S
    ghost var consumed: seq<Event>   // every event consumeEvent was called with

    constructor (step: (S, Event) -> S, state: S)
      ensures this.step == step && this.state == state && version == 0 && consumed == []
    {
      this.step, this.state, version, consumed := step, state, 0, [];
    }

    method SetVersion(v: Word)
      modifies this
      ensures version == v && state == old(state) && consumed == old(consumed)
    {
      version := v;
    }

    method ConsumeEvent(e: Event)
      modifies this
      ensures state == step(old(state), e) && version == old(version) && consumed == old(consumed) + [e]
    {
      state := step(state, e);
      consumed := consumed + [e];
    }
  }

  class RecentHistory<Event> {
    const clearEvent: Event -> Event   // Event::clear
    const events: array<Event>
    const ringCapacity: nat
    var tail: nat
    var head: nat
    var version: Word

    ghost var base: Word             // version at the last clear
    ghost var log: seq<Event>        // events since the last clear
    ghost var leftover: seq<Event>   // slot contents at the last clear

    ghost function Model(): History<Event>
      reads this
    {
      History(ringCapacity, base, log)
    }

    ghost predicate Valid()
      reads this, events
    {
      && ringCapacity == events.Length == |leftover| <= MAX_RING_SIZE
      && version == Model().Version()
      && (if ringCapacity == 0 then head == tail == 0 && log == []
          else head == |log| % ringCapacity && tail == (|log| - Model().Size()) % ringCapacity)
      && (ringCapacity > 0 || log == [])
      && events[..] == Slots(leftover, log)
    }

    constructor (capacity: Word, blank: Event, clearEvent: Event -> Event)
      ensures Valid() && fresh(events) && this.clearEvent == clearEvent
      ensures Model() == History(if capacity > MAX_RING_SIZE then MAX_RING_SIZE else capacity, 0, [])
      ensures leftover == events[..] == seq(ringCapacity, _ => blank)
      ensures ringCapacity == (if capacity > 512 then 512 else capacity) && version == 0 && log == []
    {
      var n := if capacity > MAX_RING_SIZE then MAX_RING_SIZE else capacity;
      this.clearEvent := clearEvent;
      ringCapacity := n;
      events := new Event[n](_ => blank);
      tail, head, version := 0, 0, 0;
      base, log, leftover := 0, [], seq(n, _ => blank);
      new;
      assert events[..] == leftover;
    }

    method GetSize() returns (size: nat)
      requires Valid()
      ensures size == Model().Size()
      ensures size == if ringCapacity == 0 then 0 else if |log| < ringCapacity then |log| else ringCapacity - 1
    {
      size := if head >= tail then head - tail else ringCapacity - (tail - head);
      if ringCapacity > 0 {
        GoRound(|log| - Model().Size(), Model().Size(), ringCapacity);
      }
    }

    method ClearAndSetVersion(v: Word)
      requires Valid()
      modifies this
      ensures Valid() && Model() == old(Model()).Clear(v)
      ensures leftover == events[..] == old(events[..]) && version == v && log == []
    {
      head, tail, version := 0, 0, v;
      base, log, leftover := v, [], events[..];
      assert Model().Total() == v && v % WORD == v by { SmallRemainder(v, WORD); }
    }

    // The event the next push displaces from its slot.
    ghost function NextDisplaced(): Event
      reads this
      requires |leftover| > 0
    {
      if |log| >= |leftover| then log[|log| - |leftover|] else leftover[|log|]
    }

    method Copy(event: Event)
      requires Valid() && ringCapacity > 0
      modifies this, events
      ensures Valid() && Model() == old(Model()).Push(event) && leftover == old(leftover)
      ensures log == old(log) + [event] && version == (old(version) + 1) % 0x1_0000_0000
      ensures events[..] == old(events[..])[old(head) := event]
    {
      PushWritesSlot(leftover, log, event);
      events[head] := event;
      AdvanceHead(event);
    }

    method Swap(event: Event) returns (displaced: Event)
      requires Valid() && ringCapacity > 0
      modifies this, events
      ensures Valid() && Model() == old(Model()).Push(event) && leftover == old(leftover)
      ensures log == old(log) + [event] && version == (old(version) + 1) % 0x1_0000_0000
      ensures events[..] == old(events[..])[old(head) := event] && displaced == old(events[head])
      ensures displaced == if |old(log)| >= ringCapacity then old(log)[|old(log)| - ringCapacity]
                           else old(leftover)[|old(log)|]
    {
      Displaced(leftover, log);
      PushWritesSlot(leftover, log, event);
      displaced, events[head] := events[head], event;
      AdvanceHead(event);
    }

    method Take(event: Event) returns (cleared: Event)
      requires Valid() && ringCapacity > 0
      modifies this, events
      ensures Valid() && Model() == old(Model()).Push(event) && leftover == old(leftover)
      ensures log == old(log) + [event] && version == (old(version) + 1) % 0x1_0000_0000
      ensures events[..] == old(events[..])[old(head) := event] && cleared == clearEvent(old(events[head]))
      ensures cleared == clearEvent(if |old(log)| >= ringCapacity then old(log)[|old(log)| - ringCapacity]
                                    else old(leftover)[|old(log)|])
    {
      Displaced(leftover, log);
      PushWritesSlot(leftover, log, event);
      events[head] := clearEvent(events[head]);
      cleared, events[head] := events[head], event;
      AdvanceHead(event);
    }

    method AdvanceHead(ghost event: Event)
      requires ringCapacity == events.Length == |leftover| <= MAX_RING_SIZE && ringCapacity > 0
      requires version == Model().Version()
      requires head == |log| % ringCapacity && tail == (|log| - Model().Size()) % ringCapacity
      requires events[..] == Slots(leftover, log + [event])
      modifies this
      ensures Valid() && Model() == old(Model()).Push(event) && leftover == old(leftover)
      ensures log == old(log) + [event] && version == (old(version) + 1) % 0x1_0000_0000
    {
      ghost var next := Model().Push(event);
      assert (version + 1) % WORD == next.Version() by { NextSlot(Model().Total(), WORD); }
      version := (version + 1) % WORD;
      assert head == |log| % ringCapacity && tail == (|log| - Model().Size()) % ringCapacity;
      PushMovesIndices(Model(), event, head, tail);
      head := (head + 1) % ringCapacity;
      if head == tail {
        tail := (tail + 1) % ringCapacity;
      }
      assert head == |next.log| % ringCapacity && tail == (|next.log| - next.Size()) % ringCapacity;
      log := log + [event];
      assert Model() == next;
    }

    // Replays to the consumer what it has not seen, or rejects it.
    method AdvanceConsumer<S>(consumer: Consumer<Event, S>) returns (ok: bool)
      requires Valid()
      modifies consumer
      ensures ok == Model().CanAdvance(old(consumer.version))
      ensures ok <==> Model().Size() <= version && version - Model().Size() <= old(consumer.version) <= version
      ensures ok ==> var missed := log[|log| - (version - old(consumer.version))..];
        && consumer.version == version
        && consumer.consumed == old(consumer.consumed) + missed
        && consumer.state == Fold(consumer.step, old(consumer.state), missed)
      ensures !ok ==>
        && consumer.version == old(consumer.version)
        && consumer.state == old(consumer.state)
        && consumer.consumed == old(consumer.consumed)
      ensures Reader(consumer.version, consumer.state)
           == Advance(Model(), consumer.step, old(Reader(consumer.version, consumer.state)))
    {
      var v := consumer.version;
      AdvanceIff(Model(), v);
      if v > version {
        return false;
      }
      var snakeLength := GetSize();
      if v < Sub32(version, snakeLength) {
        return false;
      }
      Replay(consumer, version - v);
      consumer.SetVersion(version);
      return true;
    }

    // Reads the last numChanges events to the consumer.
    method Replay<S>(consumer: Consumer<Event, S>, numChanges: nat)
      requires Valid() && numChanges <= Model().Size()
      modifies consumer
      ensures consumer.version == old(consumer.version)
      ensures consumer.state == Fold(consumer.step, old(consumer.state), log[|log| - numChanges..])
      ensures consumer.consumed == old(consumer.consumed) + log[|log| - numChanges..]
    {
      var idx := if numChanges > head then ringCapacity + head - numChanges else head - numChanges;
      if ringCapacity > 0 {
        GoRound(|log| - numChanges, numChanges, ringCapacity);
        ReadFrom(consumer, idx, |log| - numChanges);
      } else {
        assert idx == head && log[|log| - numChanges..] == [];
      }
    }

    // One iteration: gives the consumer the event in slot idx, and tells which slot comes next.
    method ReadOne<S>(consumer: Consumer<Event, S>, idx: nat, ghost k: nat) returns (next: nat)
      requires Valid() && ringCapacity > 0
      requires k < |log| < k + ringCapacity && idx == k % ringCapacity
      modifies consumer
      ensures consumer.version == old(consumer.version) && consumer.state == consumer.step(old(consumer.state), log[k])
      ensures consumer.consumed == old(consumer.consumed) + [log[k]]
      ensures next == (k + 1) % ringCapacity
    {
      RecentEventsSurvive(leftover, log, k);
      assert events[idx] == events[..][idx];
      consumer.ConsumeEvent(events[idx]);
      NextSlot(k, ringCapacity);
      next := (idx + 1) % ringCapacity;
    }

    // The loop that reads from idx up to the head.
    method ReadFrom<S>(consumer: Consumer<Event, S>, start: nat, ghost first: nat)
      requires Valid() && ringCapacity > 0
      requires first <= |log| < first + ringCapacity && start == first % ringCapacity
      modifies consumer
      ensures consumer.version == old(consumer.version)
      ensures consumer.state == Fold(consumer.step, old(consumer.state), log[first..])
      ensures consumer.consumed == old(consumer.consumed) + log[first..]
    {
      var idx := start;
      ghost var next := first;
      assert log[first..first] == [];
      while idx != head
        invariant consumer.version == old(consumer.version)
        invariant first <= next <= |log| && idx == next % ringCapacity
        invariant consumer.state == Fold(consumer.step, old(consumer.state), log[first..next])
        invariant consumer.consumed == old(consumer.consumed) + log[first..next]
        decreases |log| - next
      {
        idx := ReadOne(consumer, idx, next);
        OneMoreEvent(consumer.step, old(consumer.state), log, first, next);
        next := next + 1;
      }
      if next < |log| {
        SlotsDiffer(next, |log|, ringCapacity);
      }
      assert log[first..next] == log[first..];
    }
  }

  lemma OneMoreEvent<S, E>(step: (S, E) -> S, s: S, log: seq<E>, first: nat, next: nat)
    requires first <= next < |log|
    ensures log[first..next + 1] == log[first..next] + [log[next]]
    ensures Fold(step, s, log[first..next + 1]) == step(Fold(step, s, log[first..next]), log[next])
  {
    assert log[first..next + 1] == log[first..next] + [log[next]];
    FoldAppend(step, s, log[first..next], [log[next]]);
    assert [log[next]][1..] == [];
  }

  lemma NextSlot(n: nat, c: nat)
    requires c > 0
    ensures (n % c + 1) % c == (n + 1) % c
  {
    if c > 1 {
      GoRound(n, 1, c);
    }
  }

  // The head meets the tail exactly when the ring is full, and then the tail gives way.
  lemma HeadMeetsTail(n: nat, s: nat, c: nat)
    requires c > 0 && s == if n < c then n else c - 1
    ensures (n + 1) % c == (n - s) % c <==> s == c - 1
  {
    if s < c - 1 {
      SlotsDiffer(n - s, n + 1, c);
    } else {
      RemainderIsUnique(n + 1, c, (n - s) / c + 1, (n - s) % c);
    }
  }

  // The tail stays put while the ring fills up, and then follows the head.
  lemma TailMoves(n: nat, s: nat, c: nat)
    requires c > 0 && s == if n < c then n else c - 1
    ensures var s' := if n + 1 < c then n + 1 else c - 1;
      (n + 1 - s') % c == if (n + 1) % c == (n - s) % c then ((n - s) % c + 1) % c else (n - s) % c
  {
    HeadMeetsTail(n, s, c);
    if s == c - 1 {
      NextSlot(n - s, c);
    }
  }

  // What advanceHead does to the indices.
  lemma PushMovesIndices<E>(h: History<E>, e: E, head: nat, tail: nat)
    requires h.capacity > 0
    requires head == |h.log| % h.capacity && tail == (|h.log| - h.Size()) % h.capacity
    ensures var g, c := h.Push(e), h.capacity;
      var next := (head + 1) % c;
      && next == |g.log| % c
      && (if next == tail then (tail + 1) % c else tail) == (|g.log| - g.Size()) % c
  {
    TailMoves(|h.log|, h.Size(), h.capacity);
    NextSlot(|h.log|, h.capacity);
  }

  datatype How = ByCopy | BySwap | ByTake

  method PushOne<Event>(history: RecentHistory<Event>, how: How, event: Event) returns (back: Event)
    requires history.Valid() && history.ringCapacity > 0
    modifies history, history.events
    ensures history.Valid() && history.log == old(history.log) + [event] && history.leftover == old(history.leftover)
    ensures back == match how
      case ByCopy => event
      case BySwap => old(history.NextDisplaced())
      case ByTake => history.clearEvent(old(history.NextDisplaced()))
  {
    back := event;
    match how {
      case ByCopy => history.Copy(event);
      case BySwap => back := history.Swap(event);
      case ByTake => back := history.Take(event);
    }
  }

  // What the i-th of a run of pushes gives back.
  function GivenBack<Event>(how: How, pushed: seq<Event>, i: nat, capacity: nat, blank: Event,
                            clearEvent: Event -> Event): Event
    requires i < |pushed| && capacity > 0
  {
    var earlier := if i < capacity then blank else pushed[i - capacity];
    match how
    case ByCopy => pushed[i]
    case BySwap => earlier
    case ByTake => clearEvent(earlier)
  }

  // Any mix of copy, swap and take on a fresh history records the same log; swap hands back the event
  // pushed capacity pushes earlier (a default event at first), and take hands back that event cleared.
  method PushMix<Event>(history: RecentHistory<Event>, blank: Event, hows: seq<How>, pushed: seq<Event>)
    returns (back: seq<Event>)
    requires history.Valid() && history.ringCapacity > 0 && |hows| == |pushed|
    requires history.log == [] && forall k | 0 <= k < |history.leftover| :: history.leftover[k] == blank
    modifies history, history.events
    ensures history.Valid() && history.log == pushed && |back| == |pushed|
    ensures forall i | 0 <= i < |pushed| ::
      back[i] == GivenBack(hows[i], pushed, i, history.ringCapacity, blank, history.clearEvent)
  {
    back := [];
    for i := 0 to |pushed|
      invariant history.Valid() && history.log == pushed[..i] && |back| == i
      invariant history.leftover == old(history.leftover)
      invariant forall k | 0 <= k < i ::
        back[k] == GivenBack(hows[k], pushed, k, history.ringCapacity, blank, history.clearEvent)
    {
      var b := PushOne(history, hows[i], pushed[i]);
      back := back + [b];
    }
  }
}
