/** Balanced words of begin and end marks. */
module Nesting {
  import opened Options

  datatype Tag = Tag(name: string, cat: string)

  datatype Mark = Begin(tag: Tag) | End(tag: Tag)

  // A sequence of scopes: the first one, what is nested inside it, and what comes after it.
  datatype Nest = Empty | Scoped(tag: Tag, inside: Nest, after: Nest)

  // What well-nested scopes log: each pair of marks carries one tag.
  function Word(n: Nest): seq<Mark> {
    match n
    case Empty => []
    case Scoped(l, inside, after) => [Begin(l)] + Word(inside) + [End(l)] + Word(after)
  }

  ghost predicate Balanced(w: seq<Mark>) {
    exists n :: Word(n) == w
  }

  // Reads w with the tags of the open scopes, innermost first; None at the first end that does not match.
  function Match(open: seq<Tag>, w: seq<Mark>): Option<seq<Tag>>
    decreases w
  {
    if w == [] then Some(open)
    else match w[0]
      case Begin(l) => Match([l] + open, w[1..])
      case End(l) => if open != [] && open[0] == l then Match(open[1..], w[1..]) else None
  }

  lemma {:induction false} MatchAppend(open: seq<Tag>, v: seq<Mark>, w: seq<Mark>)
    ensures Match(open, v + w) == if Match(open, v).None? then None else Match(Match(open, v).value, w)
    decreases v
  {
    if v == [] {
      assert v + w == w;
    } else {
      assert (v + w)[1..] == v[1..] + w;
      match v[0] {
        case Begin(l) => MatchAppend([l] + open, v[1..], w);
        case End(l) =>
          if open != [] && open[0] == l {
            MatchAppend(open[1..], v[1..], w);
          }
      }
    }
  }

  lemma {:induction false} WordMatches(open: seq<Tag>, n: Nest)
    ensures Match(open, Word(n)) == Some(open)
    decreases n
  {
    match n
    case Empty =>
    case Scoped(l, inside, after) =>
      var head, tail := [Begin(l)] + Word(inside), [End(l)] + Word(after);
      assert Word(n) == head + tail;
      MatchAppend(open, head, tail);
      MatchAppend(open, [Begin(l)], Word(inside));
      assert Match(open, [Begin(l)]) == Some([l] + open);
      WordMatches([l] + open, inside);
      assert ([l] + open)[1..] == open && tail[1..] == Word(after);
      WordMatches(open, after);
  }

  // A word that closes everything starts with a balanced word; if a scope is open, its end comes next.
  lemma {:induction false} Parse(open: seq<Tag>, w: seq<Mark>) returns (n: Nest, rest: seq<Mark>)
    requires Match(open, w) == Some([])
    ensures Splits(open, w, n, rest) && (open != [] ==> Match(open[1..], rest) == Some([]))
    decreases |w|
  {
    if w == [] {
      return Empty, [];
    }
    assert w == [w[0]] + w[1..];
    match w[0] {
      case End(l) =>
        n, rest := Empty, w[1..];
      case Begin(l) =>
        var inside, r := Parse([l] + open, w[1..]);
        assert ([l] + open)[1..] == open && ([l] + open)[0] == l && |w[1..]| == |Word(inside)| + 1 + |r|;
        var after;
        after, rest := Parse(open, r);
        n := Scoped(l, inside, after);
        WrapScope(open, w, l, inside, after, r, rest);
    }
  }

  // s is what n logs, and then the end of the innermost open scope and rest, if a scope is open.
  ghost predicate Splits(open: seq<Tag>, s: seq<Mark>, n: Nest, rest: seq<Mark>) {
    s == if open == [] then Word(n) else Word(n) + [End(open[0])] + rest
  }

  lemma WrapScope(open: seq<Tag>, w: seq<Mark>, l: Tag, inside: Nest, after: Nest, r: seq<Mark>, rest: seq<Mark>)
    requires w != [] && w[0] == Begin(l) && w[1..] == Word(inside) + [End(l)] + r && Splits(open, r, after, rest)
    ensures Splits(open, w, Scoped(l, inside, after), rest)
  {
    var front := [Begin(l)] + (Word(inside) + [End(l)]);
    assert w == front + r by { HeadThenRest(w, Word(inside) + [End(l)], r); }
    assert front == [Begin(l)] + Word(inside) + [End(l)];
    assert Word(Scoped(l, inside, after)) == front + Word(after);
    if open != [] {
      Reassociate(front, Word(after), [End(open[0])], rest);
    }
  }

  lemma HeadThenRest(w: seq<Mark>, mid: seq<Mark>, r: seq<Mark>)
    requires w != [] && w[1..] == mid + r
    ensures w == [w[0]] + mid + r
  {
  }

  lemma Reassociate<T>(a: seq<T>, b: seq<T>, c: seq<T>, d: seq<T>)
    ensures a + (b + c + d) == a + b + c + d
  {
  }

  lemma BalancedIff(w: seq<Mark>)
    ensures Balanced(w) <==> Match([], w) == Some([])
  {
    if Balanced(w) {
      var n :| Word(n) == w;
      WordMatches([], n);
    }
    if Match([], w) == Some([]) {
      var n, _ := Parse([], w);
    }
  }

  function Closers(open: seq<Tag>): (w: seq<Mark>)
    ensures |w| == |open| && forall k | 0 <= k < |open| :: w[k] == End(open[k])
  {
    seq(|open|, k requires 0 <= k < |open| => End(open[k]))
  }

  lemma {:induction false} ClosersMatchIff(open: seq<Tag>, closed: seq<Tag>)
    ensures Match(open, Closers(closed)) == Some([]) <==> open == closed
    decreases closed
  {
    if closed != [] {
      assert Closers(closed)[1..] == Closers(closed[1..]);
      if open != [] {
        assert open == [open[0]] + open[1..] && closed == [closed[0]] + closed[1..];
        ClosersMatchIff(open[1..], closed[1..]);
      }
    }
  }

  // A word followed by the ends of some scopes is balanced exactly if those are the scopes it leaves open.
  lemma CompletedIff(w: seq<Mark>, open: seq<Tag>)
    ensures Balanced(w + Closers(open)) <==> Match([], w) == Some(open)
  {
    BalancedIff(w + Closers(open));
    MatchAppend([], w, Closers(open));
    if Match([], w).Some? {
      ClosersMatchIff(Match([], w).value, open);
    }
  }
}

/** Scoped tracing: threads that run nested Context objects while anything else happens to the tracer. */
module ContextModel {
  import opened Nesting
  import opened Options
  import T = TraceModel

  // A live Context object, and whether its begin event was recorded.
  datatype Scope = Scope(tag: Tag, recorded: bool)

  // open holds each thread's live Context objects, innermost first.
  datatype Threads<Id> = Threads(tracer: T.Tracing<Id>, open: map<nat, seq<Scope>>)

  datatype Move<Id> =
    | Enter(tid: nat, tag: Tag, ts: nat)   // a Context is constructed
    | Leave(tid: nat, ts: nat)             // a thread's innermost Context is destroyed
    | Other(op: T.Op<Id>)                  // any operation of the tracer, by anyone

  function OpenOf<Id>(s: Threads<Id>, tid: nat): seq<Scope> {
    if tid in s.open then s.open[tid] else []
  }

  ghost predicate Possible<Id>(s: Threads<Id>, m: Move<Id>) {
    match m
    case Enter(_, _, _) => true
    case Leave(tid, _) => OpenOf(s, tid) != []
    case Other(op) => T.Allowed(s.tracer, op)
  }

  function Event(tag: Tag, ph: char, ts: nat, tid: nat): T.Entry {
    T.Entry(tag.name, tag.cat, ts, tid, None, ph)
  }

  ghost function Step<Id>(s: Threads<Id>, m: Move<Id>): (r: Threads<Id>)
    requires s.tracer.WellFormed() && Possible(s, m)
    ensures r.tracer.WellFormed()
  {
    match m
    case Enter(tid, tag, ts) =>
      Threads(T.Add(s.tracer, Event(tag, 'B', ts, tid)),
              s.open[tid := [Scope(tag, s.tracer.enabled)] + OpenOf(s, tid)])
    case Leave(tid, ts) =>
      Threads(T.Add(s.tracer, Event(OpenOf(s, tid)[0].tag, 'E', ts, tid)),
              s.open[tid := OpenOf(s, tid)[1..]])
    case Other(op) => s.(tracer := T.Step(s.tracer, op))
  }

  // What a Context without anything in between records: a begin and an end of its name and category.
  lemma ScopeRecords<Id>(s: Threads<Id>, tid: nat, tag: Tag, from: nat, to: nat)
    requires s.tracer.WellFormed() && s.tracer.enabled
    ensures var r := Step(Step(s, Enter(tid, tag, from)), Leave(tid, to));
      && r.tracer.accepted == s.tracer.accepted + [T.Entry(tag.name, tag.cat, from, tid, None, 'B')]
           + [T.Entry(tag.name, tag.cat, to, tid, None, 'E')]
      && r.tracer.buffer == s.tracer.buffer + [T.Entry(tag.name, tag.cat, from, tid, None, 'B')]
           + [T.Entry(tag.name, tag.cat, to, tid, None, 'E')]
      && OpenOf(r, tid) == OpenOf(s, tid)
      && (forall other | other != tid :: OpenOf(r, other) == OpenOf(s, other))
  {
    var inside := Step(s, Enter(tid, tag, from));
    assert OpenOf(inside, tid) == [Scope(tag, true)] + OpenOf(s, tid);
    assert ([Scope(tag, true)] + OpenOf(s, tid))[1..] == OpenOf(s, tid);
  }

  // The mark an event makes, if it is a begin or an end.
  function MarkOf(e: T.Entry): seq<Mark> {
    if e.ph == 'B' then [Begin(Tag(e.name, e.cat))]
    else if e.ph == 'E' then [End(Tag(e.name, e.cat))]
    else []
  }

  // The begins and ends one thread logged.
  function Projection(entries: seq<T.Entry>, tid: nat): seq<Mark> {
    if entries == [] then []
    else
      var last := entries[|entries| - 1];
      Projection(entries[..|entries| - 1], tid) + if last.tid == tid then MarkOf(last) else []
  }

  function Recorded(open: seq<Scope>): seq<Tag> {
    if open == [] then []
    else if open[0].recorded then [open[0].tag] + Recorded(open[1..])
    else Recorded(open[1..])
  }

  // What the thread has logged, completed with the ends of the scopes it still has open, is balanced, with
  // equal name and category in each pair.
  ghost predicate BalancedSoFar<Id>(s: Threads<Id>, tid: nat) {
    Balanced(Projection(s.tracer.accepted, tid) + Closers(Recorded(OpenOf(s, tid))))
  }

  // Tracing was switched on or off since the scope that is now left was entered, or somebody records a
  // begin or an end of the thread without a Context.
  ghost predicate Disturbs<Id>(s: Threads<Id>, m: Move<Id>, tid: nat)
    requires Possible(s, m)
  {
    match m
    case Enter(_, _, _) => false
    case Leave(actor, _) => actor == tid && OpenOf(s, tid)[0].recorded != s.tracer.enabled
    case Other(op) => op.Event? && s.tracer.enabled && op.entry.tid == tid && MarkOf(op.entry) != []
  }

  lemma AddProjects<Id>(t: T.Tracing<Id>, e: T.Entry, tid: nat)
    ensures Projection(T.Add(t, e).accepted, tid)
         == Projection(t.accepted, tid) + if t.enabled && e.tid == tid then MarkOf(e) else []
  {
    var entries := t.accepted + [e];
    assert entries[..|entries| - 1] == t.accepted;
    assert Projection(t.accepted, tid) + [] == Projection(t.accepted, tid);
  }

  lemma OtherOpsKeepAccepted<Id>(t: T.Tracing<Id>, op: T.Op<Id>)
    requires t.WellFormed() && !op.Event?
    ensures T.Step(t, op).accepted == t.accepted
  {
  }

  // One more mark, and what is then left open.
  lemma MatchMark(w: seq<Mark>, open: seq<Tag>, mark: Mark)
    requires Match([], w) == Some(open)
    ensures Match([], w + [mark]) == match mark
      case Begin(l) => Some([l] + open)
      case End(l) => if open != [] && open[0] == l then Some(open[1..]) else None
  {
    MatchAppend([], w, [mark]);
  }

  lemma EnterKeepsBalance<Id>(s: Threads<Id>, actor: nat, tag: Tag, ts: nat, tid: nat)
    requires s.tracer.WellFormed() && BalancedSoFar(s, tid)
    ensures BalancedSoFar(Step(s, Enter(actor, tag, ts)), tid)
  {
    var word, open := Projection(s.tracer.accepted, tid), OpenOf(s, tid);
    var r := Step(s, Enter(actor, tag, ts));
    var e := Event(tag, 'B', ts, actor);
    AddProjects(s.tracer, e, tid);
    CompletedIff(word, Recorded(open));
    CompletedIff(Projection(r.tracer.accepted, tid), Recorded(OpenOf(r, tid)));
    assert word + [] == word;
    if actor == tid {
      assert ([Scope(tag, s.tracer.enabled)] + open)[1..] == open;
      assert MarkOf(e) == [Begin(tag)];
      MatchMark(word, Recorded(open), Begin(tag));
    }
  }

  lemma LeaveKeepsBalanceIff<Id>(s: Threads<Id>, actor: nat, ts: nat, tid: nat)
    requires s.tracer.WellFormed() && Possible(s, Leave(actor, ts)) && BalancedSoFar(s, tid)
    ensures BalancedSoFar(Step(s, Leave(actor, ts)), tid) <==> !Disturbs(s, Leave(actor, ts), tid)
  {
    var word, open := Projection(s.tracer.accepted, tid), OpenOf(s, tid);
    var r := Step(s, Leave(actor, ts));
    var e := Event(OpenOf(s, actor)[0].tag, 'E', ts, actor);
    AddProjects(s.tracer, e, tid);
    CompletedIff(word, Recorded(open));
    CompletedIff(Projection(r.tracer.accepted, tid), Recorded(OpenOf(r, tid)));
    assert word + [] == word;
    if actor == tid {
      assert MarkOf(e) == [End(open[0].tag)];
      assert OpenOf(r, tid) == open[1..];
      MatchMark(word, Recorded(open), End(open[0].tag));
      if open[0].recorded {
        assert Recorded(open) == [open[0].tag] + Recorded(open[1..]);
        assert Recorded(open)[1..] == Recorded(open[1..]);
      }
    }
  }

  lemma OtherKeepsBalanceIff<Id>(s: Threads<Id>, op: T.Op<Id>, tid: nat)
    requires s.tracer.WellFormed() && Possible(s, Other(op)) && BalancedSoFar(s, tid)
    ensures BalancedSoFar(Step(s, Other(op)), tid) <==> !Disturbs(s, Other(op), tid)
  {
    var word, open := Projection(s.tracer.accepted, tid), Recorded(OpenOf(s, tid));
    if op.Event? {
      AddProjects(s.tracer, op.entry, tid);
      CompletedIff(word, open);
      CompletedIff(Projection(Step(s, Other(op)).tracer.accepted, tid), open);
      assert word + [] == word;
      if Disturbs(s, Other(op), tid) {
        MatchMark(word, open, MarkOf(op.entry)[0]);
      }
    } else {
      OtherOpsKeepAccepted(s.tracer, op);
    }
  }

  // One move keeps a thread's log balanced exactly if it does not disturb it.
  lemma StepKeepsBalanceIff<Id>(s: Threads<Id>, m: Move<Id>, tid: nat)
    requires s.tracer.WellFormed() && Possible(s, m) && BalancedSoFar(s, tid)
    ensures BalancedSoFar(Step(s, m), tid) <==> !Disturbs(s, m, tid)
  {
    match m {
      case Enter(actor, tag, ts) => EnterKeepsBalance(s, actor, tag, ts, tid);
      case Leave(actor, ts) => LeaveKeepsBalanceIff(s, actor, ts, tid);
      case Other(op) => OtherKeepsBalanceIff(s, op, tid);
    }
  }

  ghost predicate PossibleRun<Id>(s: Threads<Id>, moves: seq<Move<Id>>)
    requires s.tracer.WellFormed()
    decreases moves
  {
    moves == [] || (Possible(s, moves[0]) && PossibleRun(Step(s, moves[0]), moves[1..]))
  }

  ghost function Run<Id>(s: Threads<Id>, moves: seq<Move<Id>>): (r: Threads<Id>)
    requires s.tracer.WellFormed() && PossibleRun(s, moves)
    ensures r.tracer.WellFormed()
    decreases moves
  {
    if moves == [] then s else Run(Step(s, moves[0]), moves[1..])
  }

  // A run is its moves one by one.
  lemma {:induction false} RunInTurn<Id>(s: Threads<Id>, moves: seq<Move<Id>>, last: Move<Id>)
    requires s.tracer.WellFormed() && PossibleRun(s, moves + [last])
    ensures PossibleRun(s, moves) && Possible(Run(s, moves), last)
    ensures Run(s, moves + [last]) == Step(Run(s, moves), last)
    decreases moves
  {
    if moves == [] {
      assert ([] + [last])[1..] == [];
      assert moves + [last] == [last];
    } else {
      assert (moves + [last])[1..] == moves[1..] + [last];
      RunInTurn(Step(s, moves[0]), moves[1..], last);
    }
  }

  ghost predicate Undisturbed<Id>(s: Threads<Id>, moves: seq<Move<Id>>, tid: nat)
    requires s.tracer.WellFormed() && PossibleRun(s, moves)
    decreases moves
  {
    moves == [] || (!Disturbs(s, moves[0], tid) && Undisturbed(Step(s, moves[0]), moves[1..], tid))
  }

  // The log is balanced after every move of the run.
  ghost predicate BalancedThroughout<Id>(s: Threads<Id>, moves: seq<Move<Id>>, tid: nat)
    requires s.tracer.WellFormed() && PossibleRun(s, moves)
    decreases moves
  {
    BalancedSoFar(s, tid) && (moves == [] || BalancedThroughout(Step(s, moves[0]), moves[1..], tid))
  }

  lemma {:induction false} RunKeepsBalanceIff<Id>(s: Threads<Id>, moves: seq<Move<Id>>, tid: nat)
    requires s.tracer.WellFormed() && PossibleRun(s, moves) && BalancedSoFar(s, tid)
    ensures BalancedThroughout(s, moves, tid) <==> Undisturbed(s, moves, tid)
    ensures Undisturbed(s, moves, tid) ==> BalancedSoFar(Run(s, moves), tid)
    decreases moves
  {
    if moves != [] {
      StepKeepsBalanceIff(s, moves[0], tid);
      if BalancedSoFar(Step(s, moves[0]), tid) {
        RunKeepsBalanceIff(Step(s, moves[0]), moves[1..], tid);
      }
    }
  }

  // For every interleaving of threads and of any other operations: what one thread has logged, completed
  // with the ends of the scopes it still has open, is a balanced word at every moment exactly if no move
  // disturbs it; and then the log itself is balanced once the thread has left all its scopes.
  lemma ThreadLogIsBalanced<Id>(moves: seq<Move<Id>>, tid: nat)
    requires PossibleRun(Threads(T.Start<Id>(), map[]), moves)
    ensures var start := Threads(T.Start<Id>(), map[]);
      var s := Run(start, moves);
      && (BalancedThroughout(start, moves, tid) <==> Undisturbed(start, moves, tid))
      && (Undisturbed(start, moves, tid) ==>
            && BalancedSoFar(s, tid)
            && (OpenOf(s, tid) == [] ==> Balanced(Projection(s.tracer.accepted, tid))))
  {
    var start: Threads<Id> := Threads(T.Start(), map[]);
    CompletedIff([], []);
    assert Projection([], tid) + Closers([]) == [] + Closers([]);
    RunKeepsBalanceIff(start, moves, tid);
    var s := Run(start, moves);
    var word := Projection(s.tracer.accepted, tid);
    assert word + Closers([]) == word;
  }

  // In particular while tracing stays on and the thread's begins and ends all come from Context objects.
  lemma {:induction false} TracingThroughoutIsUndisturbed<Id>(s: Threads<Id>, moves: seq<Move<Id>>, tid: nat)
    requires s.tracer.WellFormed() && PossibleRun(s, moves)
    requires forall n | 0 <= n <= |moves| :: PossibleRun(s, moves[..n]) && Run(s, moves[..n]).tracer.enabled
    requires forall k | 0 <= k < |OpenOf(s, tid)| :: OpenOf(s, tid)[k].recorded
    requires forall n | 0 <= n < |moves| && moves[n].Other? && moves[n].op.Event? ::
      moves[n].op.entry.tid != tid || MarkOf(moves[n].op.entry) == []
    ensures Undisturbed(s, moves, tid)
    decreases moves
  {
    assert moves[..0] == [];
    assert s.tracer.enabled by { assert Run(s, moves[..0]) == s; }
    if moves != [] {
      var r, rest := Step(s, moves[0]), moves[1..];
      forall n | 0 <= n <= |rest|
        ensures PossibleRun(r, rest[..n]) && Run(r, rest[..n]).tracer.enabled
      {
        assert moves[..n + 1][1..] == rest[..n] && moves[..n + 1][0] == moves[0];
        assert PossibleRun(s, moves[..n + 1]) && Run(s, moves[..n + 1]).tracer.enabled;
      }
      assert forall n | 0 <= n < |rest| :: rest[n] == moves[n + 1];
      assert OpenOf(r, tid) == match moves[0]
        case Enter(actor, tag, _) => (if actor == tid then [Scope(tag, true)] else []) + OpenOf(s, tid)
        case Leave(actor, _) => if actor == tid then OpenOf(s, tid)[1..] else OpenOf(s, tid)
        case Other(_) => OpenOf(s, tid);
      TracingThroughoutIsUndisturbed(r, rest, tid);
    }
  }

  // So while tracing stays on, any run in which the thread's begins and ends come from Context objects keeps its
  // log balanced: at every moment when completed, and as it is once the thread has left all its scopes.
  lemma TracingThroughoutIsBalanced<Id>(s: Threads<Id>, moves: seq<Move<Id>>, tid: nat)
    requires s.tracer.WellFormed() && PossibleRun(s, moves) && BalancedSoFar(s, tid)
    requires forall n | 0 <= n <= |moves| :: PossibleRun(s, moves[..n]) && Run(s, moves[..n]).tracer.enabled
    requires forall k | 0 <= k < |OpenOf(s, tid)| :: OpenOf(s, tid)[k].recorded
    requires forall n | 0 <= n < |moves| && moves[n].Other? && moves[n].op.Event? ::
      moves[n].op.entry.tid != tid || MarkOf(moves[n].op.entry) == []
    ensures BalancedThroughout(s, moves, tid) && BalancedSoFar(Run(s, moves), tid)
    ensures OpenOf(Run(s, moves), tid) == [] ==> Balanced(Projection(Run(s, moves).tracer.accepted, tid))
  {
    TracingThroughoutIsUndisturbed(s, moves, tid);
    RunKeepsBalanceIff(s, moves, tid);
    var word := Projection(Run(s, moves).tracer.accepted, tid);
    assert word + Closers([]) == word;
  }

  // From the start: a consumer is added, and as long as tracing stays on from then, every thread that marks its
  // log only by Context objects has a balanced log.
  lemma TracedProgramIsBalanced<Id>(add: T.Op<Id>, moves: seq<Move<Id>>, tid: nat)
    requires add.AddConsumer? && T.Allowed(T.Start<Id>(), add)
    requires var s := Step(Threads(T.Start<Id>(), map[]), Other(add));
      && PossibleRun(s, moves)
      && forall n | 0 <= n <= |moves| :: PossibleRun(s, moves[..n]) && Run(s, moves[..n]).tracer.enabled
    requires forall n | 0 <= n < |moves| && moves[n].Other? && moves[n].op.Event? ::
      moves[n].op.entry.tid != tid || MarkOf(moves[n].op.entry) == []
    ensures var s := Step(Threads(T.Start<Id>(), map[]), Other(add));
      var r := Run(s, moves);
      && BalancedThroughout(s, moves, tid)
      && (OpenOf(r, tid) == [] ==> Balanced(Projection(r.tracer.accepted, tid)))
  {
    var s := Step(Threads(T.Start<Id>(), map[]), Other(add));
    CompletedIff([], []);
    assert Projection([], tid) + Closers([]) == [] + Closers([]);
    assert BalancedSoFar(s, tid);
    TracingThroughoutIsBalanced(s, moves, tid);
  }

  // Switching tracing while a Context is alive unbalances any log that was balanced.  Here the first consumer
  // arrives in between, so the end has no begin ...
  lemma LateConsumerUnbalances<Id>(s: Threads<Id>, tid: nat, tag: Tag, ts: nat, add: T.Op<Id>)
    requires s.tracer.WellFormed() && BalancedSoFar(s, tid) && !s.tracer.enabled
    requires add.AddConsumer? && T.Allowed(s.tracer, add)
    ensures var s1 := Step(s, Enter(tid, tag, ts));
      var s2 := Step(s1, Other(add));
      && Possible(s1, Other(add)) && Possible(s2, Leave(tid, ts))
      && BalancedSoFar(s2, tid) && !BalancedSoFar(Step(s2, Leave(tid, ts)), tid)
  {
    var s1 := Step(s, Enter(tid, tag, ts));
    var s2 := Step(s1, Other(add));
    StepKeepsBalanceIff(s, Enter(tid, tag, ts), tid);
    StepKeepsBalanceIff(s1, Other(add), tid);
    StepKeepsBalanceIff(s2, Leave(tid, ts), tid);
  }

  lemma ExpiryTurnsTracingOff<Id>(t: T.Tracing<Id>, e: T.Entry, now: T.Word64)
    requires T.Inv(t) && t.enabled && forall id | id in t.registered :: now > t.views[id].expiry
    ensures !T.Advance(T.Add(t, e), now).enabled
  {
    T.StepKeepsInv(t, T.Event(e));
    T.AdvanceOutcome(T.Add(t, e), now);
  }

  // ... and here the last consumer expires while a Context is alive, so the begin has no end.
  lemma EarlyExpiryUnbalances<Id>(s: Threads<Id>, tid: nat, tag: Tag, ts: nat, now: T.Word64)
    requires T.Inv(s.tracer) && BalancedSoFar(s, tid) && s.tracer.enabled
    requires forall id | id in s.tracer.registered :: now > s.tracer.views[id].expiry
    ensures var s1 := Step(s, Enter(tid, tag, ts));
      var s2 := Step(s1, Other(T.AdvanceConsumers(now)));
      && Possible(s1, Other(T.AdvanceConsumers(now))) && Possible(s2, Leave(tid, ts))
      && BalancedSoFar(s2, tid) && !BalancedSoFar(Step(s2, Leave(tid, ts)), tid)
  {
    var s1 := Step(s, Enter(tid, tag, ts));
    var s2 := Step(s1, Other(T.AdvanceConsumers(now)));
    assert !s2.tracer.enabled by { ExpiryTurnsTracingOff(s.tracer, Event(tag, 'B', ts, tid), now); }
    StepKeepsBalanceIff(s, Enter(tid, tag, ts), tid);
    StepKeepsBalanceIff(s1, Other(T.AdvanceConsumers(now)), tid);
    assert OpenOf(s2, tid) == OpenOf(s1, tid) && OpenOf(s1, tid)[0] == Scope(tag, true);
    StepKeepsBalanceIff(s2, Leave(tid, ts), tid);
  }
}
