/** The consumer that writes a trace file: WriteToFile of src/util/TraceUtil.cpp. */
module TraceFile {
  import opened TraceModel

  const HEADER: string := "{\"traceEvents\":[\n"
  const SEPARATOR: string := ",\n"
  const FOOTER: string := "\n]\n}\n"

  // items with a separator between neighbours and none at the end
  function Join(items: seq<string>, separator: string): string {
    if items == [] then ""
    else if |items| == 1 then items[0]
    else items[0] + separator + Join(items[1..], separator)
  }

  // Joining keeps all items in order, with one separator between neighbours.
  lemma {:induction false} JoinInTwo(a: seq<string>, b: seq<string>, separator: string)
    requires a != [] && b != []
    ensures Join(a + b, separator) == Join(a, separator) + separator + Join(b, separator)
    ensures |a| == 1 ==> Join(a, separator) == a[0]
    decreases a
  {
    if |a| == 1 {
      assert (a + b)[1..] == b;
    } else {
      var rest := a[1..];
      assert (a + b)[1..] == rest + b;
      JoinInTwo(rest, b, separator);
      assert a[0] + separator + (Join(rest, separator) + separator + Join(b, separator))
          == a[0] + separator + Join(rest, separator) + separator + Join(b, separator);
    }
  }

  // What consumeEvents writes: every item followed by a separator.
  function Lines(items: seq<string>): string {
    if items == [] then "" else Lines(items[..|items| - 1]) + (items[|items| - 1] + SEPARATOR)
  }

  function Flatten(batches: seq<seq<string>>): seq<string> {
    if batches == [] then [] else Flatten(batches[..|batches| - 1]) + batches[|batches| - 1]
  }

  lemma {:induction false} LinesAppend(a: seq<string>, b: seq<string>)
    ensures Lines(a + b) == Lines(a) + Lines(b)
  {
    if b == [] {
      assert a + b == a;
    } else {
      var n := |b| - 1;
      assert (a + b)[..|a + b| - 1] == a + b[..n];
      LinesAppend(a, b[..n]);
    }
  }

  lemma {:induction false} LinesFromFront(items: seq<string>)
    requires items != []
    ensures Lines(items) == items[0] + SEPARATOR + Lines(items[1..])
  {
    assert items == [items[0]] + items[1..];
    LinesAppend([items[0]], items[1..]);
    assert [items[0]][..0] == [];
    assert Lines([items[0]]) == Lines([]) + (items[0] + SEPARATOR);
  }

  lemma OneLine(items: seq<string>)
    ensures |items| == 1 ==> Lines(items) == items[0] + ",\n"
  {
    if |items| == 1 {
      assert items[..0] == [] && Lines(items) == Lines([]) + (items[0] + SEPARATOR);
    }
  }

  // Ending with one more item and no separator is joining.
  lemma {:induction false} LinesThenLast(items: seq<string>, last: string)
    ensures Lines(items) + last == Join(items + [last], SEPARATOR)
  {
    if items == [] {
      assert items + [last] == [last];
    } else {
      LinesFromFront(items);
      LinesThenLast(items[1..], last);
      assert (items + [last])[1..] == items[1..] + [last];
      assert items[0] + SEPARATOR + Lines(items[1..]) + last == items[0] + SEPARATOR + (Lines(items[1..]) + last);
    }
  }

  // Closing the list instead of ending it with a comma.
  lemma ClosedText(lines: seq<string>, marker: string)
    ensures HEADER + Lines(lines) + (marker + FOOTER) == HEADER + Join(lines + [marker], SEPARATOR) + FOOTER
  {
    var body := Lines(lines);
    assert HEADER + body + (marker + FOOTER) == HEADER + (body + marker) + FOOTER;
    LinesThenLast(lines, marker);
  }

  // A trace file: whether it is open, and what has been written to it.
  datatype File = File(isOpen: bool, text: string)

  function Opened(succeeds: bool): File {
    File(succeeds, if succeeds then HEADER else "")
  }

  function Consumed(f: File, events: seq<string>): File {
    if f.isOpen then f.(text := f.text + Lines(events)) else f
  }

  function Finished(f: File, meta: seq<string>, marker: string): File {
    var g := Consumed(f, meta);
    if g.isOpen then File(false, g.text + (marker + FOOTER)) else g
  }

  class WriteToFile {
    var state: Lifecycle
    var file: string       // empty if the file could not be opened
    var isOpen: bool
    var text: string       // what has been written to the file

    ghost const wasOpened: bool
    ghost var consumed: seq<string>

    function AsFile(): File
      reads this
    {
      File(isOpen, text)
    }

    // While the file is open it holds the header and one line for each event so far.
    ghost predicate Valid()
      reads this
    {
      && (isOpen ==> wasOpened && text == HEADER + Lines(consumed))
      && (!wasOpened ==> text == "")
    }

    // openSucceeds is the outcome of opening the stream
    constructor (filename: string, openSucceeds: bool)
      ensures Valid() && state.ACTIVE? && wasOpened == openSucceeds && consumed == []
      ensures file == (if openSucceeds then filename else "") && AsFile() == Opened(openSucceeds)
      ensures isOpen == openSucceeds && text == if openSucceeds then "{\"traceEvents\":[\n" else ""
    {
      state, consumed, wasOpened := ACTIVE, [], openSucceeds;
      isOpen := openSucceeds;
      if openSucceeds {
        file, text := filename, HEADER;
      } else {
        file, text := "", "";
      }
    }

    method ConsumeEvents(events: seq<string>)
      requires Valid()
      modifies this
      ensures Valid() && consumed == old(consumed) + events && state == old(state)
      ensures AsFile() == Consumed(old(AsFile()), events)
      ensures isOpen == old(isOpen) && (!isOpen ==> text == old(text))
      ensures isOpen && |events| == 1 ==> text == old(text) + (events[0] + ",\n")
    {
      if isOpen {
        for i := 0 to |events|
          invariant text == old(text) + Lines(events[..i])
          invariant isOpen && state == old(state) && consumed == old(consumed)
        {
          assert events[..i + 1][..i] == events[..i];
          text := text + (events[i] + SEPARATOR);
        }
        assert events[..|events|] == events;
        OneLine(events);
      }
      LinesAppend(consumed, events);
      consumed := consumed + events;
    }

    method MarkExpired()
      requires Valid()
      modifies this`state
      ensures Valid() && state.EXPIRED?
    {
      state := EXPIRED;
    }

    // marker is the end-of-trace record
    method Finish(meta: seq<string>, marker: string)
      requires Valid() && state.EXPIRED?
      modifies this
      ensures Valid() && state.COMPLETE? && AsFile() == Finished(old(AsFile()), meta, marker)
      ensures old(isOpen) ==> text == HEADER + Join(old(consumed) + meta + [marker], SEPARATOR) + FOOTER
      ensures old(isOpen) ==>
        text == "{\"traceEvents\":[\n" + Join(old(consumed) + meta + [marker], ",\n") + "\n]\n}\n"
      ensures !isOpen && (!old(isOpen) ==> text == old(text))
    {
      ConsumeEvents(meta);
      state := COMPLETE;
      if isOpen {
        ClosedText(consumed, marker);
        text := text + (marker + FOOTER);
        isOpen := false;
      }
    }
  }

  lemma {:induction false} FlattenInTwo(a: seq<seq<string>>, b: seq<seq<string>>)
    ensures Flatten(a + b) == Flatten(a) + Flatten(b)
    ensures |a| == 1 ==> Flatten(a) == a[0]
    decreases |b|
  {
    if |a| == 1 {
      assert a[..0] == [] && Flatten(a) == [] + a[0];
    }
    if b == [] {
      assert a + b == a;
    } else {
      var n := |b| - 1;
      assert (a + b)[..|a + b| - 1] == a + b[..n];
      FlattenInTwo(a, b[..n]);
    }
  }

  // However many batches of whatever sizes: the finished file is the header, all events, all meta events
  // and the end marker, joined without a trailing comma, and the footer; a file that could not be opened
  // stays empty, and what comes after finish is not written.
  method WholeTrace(filename: string, openSucceeds: bool, batches: seq<seq<string>>, meta: seq<string>,
                    marker: string, late: seq<string>) returns (text: string)
    ensures text == if openSucceeds
      then "{\"traceEvents\":[\n" + Join(Flatten(batches) + meta + [marker], ",\n") + "\n]\n}\n" else ""
  {
    var w := new WriteToFile(filename, openSucceeds);
    for i := 0 to |batches|
      invariant fresh(w) && w.Valid() && w.isOpen == openSucceeds == w.wasOpened
      invariant w.consumed == Flatten(batches[..i])
    {
      assert batches[..i + 1][..i] == batches[..i];
      w.ConsumeEvents(batches[i]);
    }
    assert batches[..|batches|] == batches;
    w.MarkExpired();
    w.Finish(meta, marker);
    w.ConsumeEvents(late);
    text := w.text;
  }

  // -------- a file that takes part in a run of the tracer --------

  function RenderAll(records: seq<Record>, render: Entry -> string): (lines: seq<string>)
    ensures |lines| == |records|
    ensures forall k | 0 <= k < |records| ::
      lines[k] == if records[k].EventRecord? then render(records[k].entry) else records[k].text
  {
    seq(|records|, k requires 0 <= k < |records| =>
      if records[k].EventRecord? then render(records[k].entry) else records[k].text)
  }

  // What one operation of the tracer does to the file of consumer id.
  ghost function FileStep<Id>(t: Tracing<Id>, op: Op<Id>, id: Id, render: Entry -> string, marker: string, f: File)
    : File
    requires t.WellFormed()
  {
    if (op.AdvanceConsumers? || op.Stop?) && id in t.registered && t.buffer != [] then
      var g := Consumed(f, RenderAll(EventRecords(t.buffer), render));
      if id in Step(t, op).registered then g else Finished(g, t.meta, marker)
    else f
  }

  ghost function FileRun<Id>(t: Tracing<Id>, ops: seq<Op<Id>>, id: Id, render: Entry -> string, marker: string, f: File)
    : File
    requires t.WellFormed()
    decreases ops
  {
    if ops == [] then f
    else FileRun(Step(t, ops[0]), ops[1..], id, render, marker, FileStep(t, ops[0], id, render, marker, f))
  }

  // The file of a consumer that was handed lines so far.
  function FileWith(lines: seq<string>, closed: bool, marker: string): File {
    if closed then File(false, HEADER + Join(lines + [marker], SEPARATOR) + FOOTER)
    else File(true, HEADER + Lines(lines))
  }

  ghost function FileOf(v: View, render: Entry -> string, marker: string): File {
    FileWith(RenderAll(v.received, render), v.state.COMPLETE?, marker)
  }

  lemma RenderAppend(a: seq<Record>, b: seq<Record>, render: Entry -> string)
    ensures RenderAll(a + b, render) == RenderAll(a, render) + RenderAll(b, render)
  {
  }

  lemma ConsumedLines(lines: seq<string>, more: seq<string>, marker: string)
    ensures Consumed(FileWith(lines, false, marker), more) == FileWith(lines + more, false, marker)
  {
    LinesAppend(lines, more);
    assert HEADER + Lines(lines) + Lines(more) == HEADER + (Lines(lines) + Lines(more));
  }

  lemma FinishedLines(lines: seq<string>, meta: seq<string>, marker: string)
    ensures Finished(FileWith(lines, false, marker), meta, marker) == FileWith(lines + meta, true, marker)
  {
    ConsumedLines(lines, meta, marker);
    ClosedText(lines + meta, marker);
  }

  lemma FileAdvance<Id>(t: Tracing<Id>, now: Word64, id: Id, render: Entry -> string, marker: string)
    requires Inv(t) && Orderly(t, id) && id in t.registered
    ensures FileStep(t, AdvanceConsumers(now), id, render, marker, FileOf(t.views[id], render, marker))
         == FileOf(Advance(t, now).views[id], render, marker)
  {
    var v := t.views[id];
    AdvanceOrderly(t, now, id);
    if t.buffer != [] {
      var batch := EventRecords(t.buffer);
      RenderAppend(v.received, batch, render);
      ConsumedLines(RenderAll(v.received, render), RenderAll(batch, render), marker);
      if now > v.expiry {
        RenderAppend(v.received + batch, MetaRecords(t.meta), render);
        assert RenderAll(MetaRecords(t.meta), render) == t.meta;
        FinishedLines(RenderAll(v.received + batch, render), t.meta, marker);
      } else {
        assert v.received + batch + [] == v.received + batch;
      }
    }
  }

  lemma FileStop<Id>(t: Tracing<Id>, now: Word64, id: Id, render: Entry -> string, marker: string)
    requires Inv(t) && Orderly(t, id) && id in t.registered
    ensures FileStep(t, Stop(now), id, render, marker, FileOf(t.views[id], render, marker))
         == FileOf(Shutdown(t, now).views[id], render, marker)
  {
    ExpireAllKeepsInv(t);
    FileAdvance(ExpireAll(t), now, id, render, marker);
  }

  lemma FileFollowsStep<Id>(t: Tracing<Id>, op: Op<Id>, id: Id, render: Entry -> string, marker: string)
    requires Inv(t) && Allowed(t, op) && Orderly(t, id) && id in t.registered && !Adds(op, id)
    ensures id in Step(t, op).views
    ensures FileStep(t, op, id, render, marker, FileOf(t.views[id], render, marker))
         == FileOf(Step(t, op).views[id], render, marker)
  {
    match op {
      case AdvanceConsumers(now) => FileAdvance(t, now, id, render, marker);
      case Stop(now) => FileStop(t, now, id, render, marker);
      case Event(_) =>
      case Meta(_) =>
      case AddConsumer(_, _, _) =>
      case RemoveConsumer(_) =>
      case UpdateExpiry(_, _) =>
    }
  }

  lemma {:induction false} FileUntouched<Id>(
      t: Tracing<Id>, ops: seq<Op<Id>>, id: Id, render: Entry -> string, marker: string, f: File)
    requires Inv(t) && AllowedRun(t, ops) && Orderly(t, id) && id in t.views && id !in t.registered && NotAdded(ops, id)
    ensures FileRun(t, ops, id, render, marker, f) == f
    decreases ops
  {
    if ops != [] {
      assert !Adds(ops[0], id);
      StepKeepsInv(t, ops[0]);
      OutsiderStep(t, ops[0], id);
      assert forall i | 0 <= i < |ops| - 1 :: ops[1..][i] == ops[i + 1];
      FileUntouched(Step(t, ops[0]), ops[1..], id, render, marker, f);
    }
  }

  // Over any run the file holds what its consumer was handed.
  lemma {:induction false} FileFollowsRun<Id>(
      t: Tracing<Id>, ops: seq<Op<Id>>, id: Id, render: Entry -> string, marker: string)
    requires Inv(t) && AllowedRun(t, ops) && Orderly(t, id) && id in t.registered && NotAdded(ops, id)
    ensures id in Run(t, ops).views
    ensures FileRun(t, ops, id, render, marker, FileOf(t.views[id], render, marker))
         == FileOf(Run(t, ops).views[id], render, marker)
    decreases ops
  {
    if ops != [] {
      var s := Step(t, ops[0]);
      assert !Adds(ops[0], id);
      StepKeepsInv(t, ops[0]);
      StepKeepsOrderlyIff(t, ops[0], id);
      FileFollowsStep(t, ops[0], id, render, marker);
      assert forall i | 0 <= i < |ops| - 1 :: ops[1..][i] == ops[i + 1];
      if id in s.registered {
        FileFollowsRun(s, ops[1..], id, render, marker);
      } else {
        OutsiderUntouched(s, ops[1..], id);
        FileUntouched(s, ops[1..], id, render, marker, FileOf(s.views[id], render, marker));
      }
    }
  }

  // End to end: open a file, hand its consumer to the tracer at any moment of any run, and go on with any
  // run.  The file holds the header and a line for each event of one window of the accepted events, from the last
  // flush before the consumer was added up to the flush at which it left the list; once the consumer is
  // complete, it is the header, these events, all meta events recorded by then and the end marker, joined
  // without a trailing comma, and the footer.
  lemma FileOfRun<Id>(before: seq<Op<Id>>, add: Op<Id>, after: seq<Op<Id>>, render: Entry -> string, marker: string)
    requires AllowedRun(Start(), before)
    requires var t := Run(Start(), before);
      && add.AddConsumer? && Allowed(t, add) && Proper(t, add, add.id) && add.view.received == []
      && AllowedRun(Step(t, add), after) && NotAdded(after, add.id)
    ensures var t := Run(Start(), before);
      var s, u := UntilLeft(Step(t, add), after, add.id), Run(Step(t, add), after);
      && t.flushed <= s.flushed <= |s.accepted| && add.id in u.views
      && var lines := RenderAll(EventRecords(s.accepted[t.flushed..s.flushed]), render);
      FileRun(Step(t, add), after, add.id, render, marker, Opened(true))
        == if u.views[add.id].state.COMPLETE?
           then File(false, HEADER + Join(lines + s.meta + [marker], SEPARATOR) + FOOTER)
           else File(true, HEADER + Lines(lines))
  {
    var t := Run(Start(), before);
    assert Inv(Start<Id>());
    RunKeepsInv(Start(), before);
    ProperIsOrderly(t, add);
    StepKeepsInv(t, add);
    StepKeepsOrderlyIff(t, add, add.id);
    var n := Step(t, add);
    assert FileOf(n.views[add.id], render, marker) == Opened(true) by {
      assert RenderAll([], render) == [];
      assert HEADER + "" == HEADER;
    }
    FileFollowsRun(n, after, add.id, render, marker);
    ReceivedIsOneWindow(before, add, after);
    var s := UntilLeft(n, after, add.id);
    var window := EventRecords(s.accepted[t.flushed..s.flushed]);
    RenderAppend(window, MetaRecords(s.meta), render);
    assert RenderAll(MetaRecords(s.meta), render) == s.meta;
    assert window + [] == window;
  }
}
