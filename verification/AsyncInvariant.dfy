/** The async writer under every interleaving of clients and its background loop: which
    accepted batches are committed, accumulating or queued. */
module AsyncInvariant {
  import opened Common
  import opened Sequences
  import opened Store
  import opened Fragments
  import opened Batches
  import opened TableState
  import opened AsyncWriter
  import M = MiniBlock

  /** Why the loop is draining the queue. */
  datatype Why = ForFlush(caller: int) | ForClose

  /** Where the background loop is: in its select, draining, or gone. */
  datatype Pc = Selecting | Draining(why: Why) | Stopped

  /** A running writer, with the history that its guarantees speak about: the batches whose
      Write returned nil, those inside each fragment it committed, and those in the current
      batch; how many had been accepted when each Flush was called and what it answered, and how
      many when the loop stopped. */
  datatype Writer = Writer(
    mem: WriterMem,
    pc: Pc,
    base: nat,
    accepted: seq<RecordBatch>,
    groups: seq<seq<RecordBatch>>,
    pending: seq<RecordBatch>,
    flushCalls: map<int, nat>,
    answers: map<int, bool>,
    tableClosed: bool,
    closeRequested: bool,
    closeOk: Option<bool>,
    stoppedAt: nat)

  /** The number of accepted batches that are inside committed fragments. */
  function CommittedCount(w: Writer): nat {
    |Flatten(w.groups)|
  }

  /** Each of the first n accepted batches is committed or has no rows. */
  ghost predicate Durable(w: Writer, n: nat) {
    forall i :: CommittedCount(w) <= i < n && i < |w.accepted| ==> w.accepted[i].numRows == 0
  }

  // ---------- Invariants ----------

  /** No accepted batch is lost, duplicated or reordered. */
  ghost predicate Conserved(w: Writer) {
    w.accepted == Flatten(w.groups) + w.pending + w.mem.queue
  }

  /** The current batch is what accumulating the pending batches gives. */
  ghost predicate CurrentIsPending(w: Writer) {
    if w.pending == [] then w.mem.current == None
    else w.mem.current.Some? && Gathered(w.mem.schemaRef, w.pending) == w.mem.current
  }

  /** Each entry holds what gathering its group gives. */
  ghost predicate GroupsMatch(schemaRef: int, schema: Schema, groups: seq<seq<RecordBatch>>, entries: seq<LogEntry>) {
    && |groups| == |entries|
    && forall g :: 0 <= g < |groups| ==>
         Gathered(schemaRef, groups[g]) == Some(entries[g].batch) && entries[g].schema == schema
  }

  /** The fragments this writer committed are its groups, in order. */
  ghost predicate GroupsAreLog(w: Writer, log: seq<LogEntry>) {
    w.base <= |log| && GroupsMatch(w.mem.schemaRef, w.mem.schema, w.groups, log[w.base..])
  }

  /** The protocol of flushing and closing. */
  ghost predicate ProtocolInv(w: Writer) {
    && (w.closeRequested ==> w.tableClosed)
    && (w.pc == Draining(ForClose) || w.pc.Stopped? ==> w.closeRequested)
    && (w.pc.Stopped? <==> w.closeOk.Some?)
    && (w.pc.Stopped? ==> w.stoppedAt + |w.mem.queue| == |w.accepted|)
    && (forall c <- w.flushCalls.Keys :: w.flushCalls[c] <= |w.accepted|)
    && w.answers.Keys <= w.flushCalls.Keys
    && (w.pc.Draining? && w.pc.why.ForFlush? ==>
          w.pc.why.caller in w.flushCalls && w.pc.why.caller !in w.answers)
  }

  /** What a nil answer promises. */
  ghost predicate Barriers(w: Writer) {
    && (forall c <- w.answers.Keys :: c in w.flushCalls && w.answers[c] ==> Durable(w, w.flushCalls[c]))
    && (w.closeOk == Some(true) ==> Durable(w, w.stoppedAt))
  }

  ghost predicate WriterInv(w: Writer, log: seq<LogEntry>) {
    && OneShape(w.accepted)
    && Conserved(w) && CurrentIsPending(w) && GroupsAreLog(w, log)
    && ProtocolInv(w) && Barriers(w)
  }

  // ---------- Events ----------

  datatype Event =
    | Accept(batch: RecordBatch, throughTable: bool)       // Write returned nil
    | Take(o: FlushOutcome, after: Files, mem: WriterMem)   // the batch arm
    | CallFlush(caller: int)                                // Flush was called
    | FlushArm(caller: int)                                 // the loop received the request
    | Drain                                                 // one turn of drainPending
    | DrainDone(o: FlushOutcome, after: Files, mem: WriterMem) // the queue was empty: flush, answer
    | Timer(o: FlushOutcome, after: Files, mem: WriterMem)  // the timer arm
    | CloseTable                                            // the table's Close took its lock
    | CloseWriter                                           // the writer's Close closed its channel
    | CloseArm                                              // the loop saw the closed channel

  /** The loop flushes after taking a batch once the current batch is large enough. */
  predicate LargeEnough(m: WriterMem) {
    m.maxBatchSize > 0 && CurrentRows(m) >= m.maxBatchSize
  }

  ghost function AfterTake(w: Writer): Writer
    requires CanTake(w.mem)
  {
    w.(mem := TakeOne(w.mem), pending := w.pending + [w.mem.queue[0]])
  }

  /** The history after a flush that left mem behind. */
  function AfterFlush(w: Writer, o: FlushOutcome, mem: WriterMem): Writer {
    if o.Flushed? then w.(mem := mem, groups := w.groups + [w.pending], pending := [])
    else w.(mem := mem)
  }

  function LogAfterFlush(w: Writer, log: seq<LogEntry>, o: FlushOutcome): seq<LogEntry> {
    if o.Flushed? && w.mem.current.Some? then log + [LogEntry(w.mem.schema, w.mem.current.value)] else log
  }

  /** Whether an event can happen in a state of the store and the writer. */
  ghost predicate Enabled(e: M.Encoder, files: Files, w: Writer, ev: Event) {
    match ev
    case Accept(batch, throughTable) =>
      && |w.mem.queue| < QUEUE_CAPACITY
      && OneShape(w.accepted + [batch])
      && (throughTable ==> !w.tableClosed)
    case Take(o, after, mem) =>
      && w.pc.Selecting? && CanTake(w.mem)
      && var taken := AfterTake(w);
         if LargeEnough(taken.mem) then FlushEffect(e, files, taken.mem, o, after, mem)
         else after == files && mem == taken.mem && o.NothingToFlush?
    case CallFlush(caller) => caller !in w.flushCalls
    case FlushArm(caller) => w.pc.Selecting? && caller in w.flushCalls && caller !in w.answers
    case Drain => w.pc.Draining? && CanTake(w.mem)
    case DrainDone(o, after, mem) =>
      w.pc.Draining? && w.mem.queue == [] && FlushEffect(e, files, w.mem, o, after, mem)
    case Timer(o, after, mem) => w.pc.Selecting? && FlushEffect(e, files, w.mem, o, after, mem)
    case CloseTable => true
    case CloseWriter => w.tableClosed
    case CloseArm => w.pc.Selecting? && w.closeRequested
  }

  ghost function FilesAfter(files: Files, ev: Event): Files {
    match ev
    case Take(_, after, _) => after
    case DrainDone(_, after, _) => after
    case Timer(_, after, _) => after
    case _ => files
  }

  ghost function LogAfter(log: seq<LogEntry>, w: Writer, ev: Event): seq<LogEntry> {
    match ev
    case Take(o, _, _) => if CanTake(w.mem) then LogAfterFlush(AfterTake(w), log, o) else log
    case DrainDone(o, _, _) => LogAfterFlush(w, log, o)
    case Timer(o, _, _) => LogAfterFlush(w, log, o)
    case _ => log
  }

  ghost function WriterAfter(w: Writer, ev: Event): Writer
    requires (ev.Take? || ev.Drain?) ==> CanTake(w.mem)
  {
    match ev
    case Accept(batch, throughTable) =>
      w.(mem := w.mem.(queue := w.mem.queue + [batch]), accepted := w.accepted + [batch])
    case Take(o, _, mem) => AfterFlush(AfterTake(w), o, mem)
    case CallFlush(caller) => w.(flushCalls := w.flushCalls[caller := |w.accepted|])
    case FlushArm(caller) => w.(pc := Draining(ForFlush(caller)))
    case Drain => AfterTake(w)
    case DrainDone(o, _, mem) =>
      var flushed := AfterFlush(w, o, mem);
      if w.pc.Draining? && w.pc.why.ForFlush?
      then flushed.(pc := Selecting, answers := w.answers[w.pc.why.caller := FlushOk(o)])
      else flushed.(pc := Stopped, closeOk := Some(FlushOk(o)), stoppedAt := |w.accepted|)
    case Timer(o, _, mem) => AfterFlush(w, o, mem)
    case CloseTable => w.(tableClosed := true)
    case CloseWriter => w.(closeRequested := true)
    case CloseArm => w.(pc := Draining(ForClose))
  }

  /** A writer right after Start. */
  ghost predicate Started(w: Writer, files: Files, log: seq<LogEntry>) {
    && StartEffect(files, w.mem) && w.mem.queue == [] && w.mem.current == None
    && w.pc.Selecting? && w.base == |log|
    && w.accepted == [] && w.groups == [] && w.pending == []
    && w.flushCalls == map[] && w.answers == map[]
    && !w.tableClosed && !w.closeRequested && w.closeOk == None
  }

  // ---------- Limits ----------

  /** After the batch arm the current batch is below the size limit, unless its flush failed; and
      nothing is flushed as long as it stays below. */
  lemma TakeAtLimit(e: M.Encoder, files: Files, w: Writer, ev: Event)
    requires ev.Take? && Enabled(e, files, w, ev) && w.mem.maxBatchSize > 0
    ensures var rows := CurrentRows(w.mem) + w.mem.queue[0].numRows;
      && (FlushOk(ev.o) ==> CurrentRows(WriterAfter(w, ev).mem) < w.mem.maxBatchSize)
      && (rows < w.mem.maxBatchSize ==>
            FilesAfter(files, ev) == files && CurrentRows(WriterAfter(w, ev).mem) == rows)
  {
    hide Accumulates, ColumnsStored, IsFragmentOf, ChangedOnly;
  }

  /** A batch of the shape of the others is accepted exactly while fewer than 256 wait. */
  lemma QueueBound(e: M.Encoder, files: Files, w: Writer, batch: RecordBatch)
    requires OneShape(w.accepted + [batch])
    ensures Enabled(e, files, w, Accept(batch, false)) <==> |w.mem.queue| < 256
  {
  }

  // ---------- Every event keeps the invariant ----------

  lemma PendingOneShape(w: Writer)
    requires OneShape(w.accepted) && Conserved(w)
    ensures OneShape(w.pending + w.mem.queue)
  {
    hide SameShape;
    var n := |Flatten(w.groups)|;
    var rest := w.pending + w.mem.queue;
    assert w.accepted == Flatten(w.groups) + rest;
    forall i, j | 0 <= i < |rest| && 0 <= j < |rest| ensures SameShape(rest[i], rest[j]) {
      assert rest[i] == w.accepted[n + i] && rest[j] == w.accepted[n + j];
    }
  }

  /** Accumulating never fails on batches of one shape. */
  lemma QueueCanBeTaken(w: Writer)
    requires OneShape(w.accepted) && Conserved(w) && CurrentIsPending(w) && w.mem.queue != []
    ensures CanTake(w.mem)
    ensures Gathered(w.mem.schemaRef, w.pending + [w.mem.queue[0]]) == Some(Accumulated(Base(w.mem), w.mem.queue[0]))
  {
    hide Values, SameKind, OneShape, SameShape;
    var head := w.mem.queue[0];
    var next := w.pending + [head];
    PendingOneShape(w);
    TakeShape(w.pending, w.mem.queue);
    GatherKeepsValues(w.mem.schemaRef, next);
    assert next[..|next| - 1] == w.pending;
  }

  lemma TakeShape(pending: seq<RecordBatch>, queue: seq<RecordBatch>)
    requires queue != [] && OneShape(pending + queue)
    ensures OneShape(pending + [queue[0]])
  {
    hide SameShape;
    var next, all := pending + [queue[0]], pending + queue;
    forall i, j | 0 <= i < |next| && 0 <= j < |next| ensures SameShape(next[i], next[j]) {
      assert next[i] == all[i] && next[j] == all[j];
    }
  }

  lemma TakeKeeps(w: Writer, log: seq<LogEntry>)
    requires WriterInv(w, log) && CanTake(w.mem) && !w.pc.Stopped?
    ensures WriterInv(AfterTake(w), log)
  {
    hide OneShape, Gathered, Accumulates, Accumulated;
    QueueCanBeTaken(w);
    var t := AfterTake(w);
    assert t.pending + t.mem.queue == w.pending + w.mem.queue;
    assert Flatten(w.groups) + (w.pending + w.mem.queue) == Flatten(w.groups) + w.pending + w.mem.queue;
    assert Flatten(t.groups) + (t.pending + t.mem.queue) == Flatten(t.groups) + t.pending + t.mem.queue;
    GroupsUntouched(w, t, log);
  }

  lemma GroupsUntouched(a: Writer, b: Writer, log: seq<LogEntry>)
    requires GroupsAreLog(a, log) && b.base == a.base && b.groups == a.groups
    requires b.mem.schemaRef == a.mem.schemaRef && b.mem.schema == a.mem.schema
    ensures GroupsAreLog(b, log)
  {
    hide GroupsMatch;
  }

  lemma AppendGroup(groups: seq<seq<RecordBatch>>, pending: seq<RecordBatch>)
    ensures Flatten(groups + [pending]) == Flatten(groups) + pending
  {
    assert (groups + [pending])[..|groups|] == groups;
  }

  lemma GroupsExtend(w: Writer, f: Writer, log: seq<LogEntry>, entry: LogEntry)
    requires GroupsAreLog(w, log) && f.base == w.base && f.groups == w.groups + [w.pending]
    requires f.mem.schemaRef == w.mem.schemaRef && f.mem.schema == w.mem.schema == entry.schema
    requires Gathered(w.mem.schemaRef, w.pending) == Some(entry.batch)
    ensures GroupsAreLog(f, log + [entry])
  {
    hide Gathered;
    assert (log + [entry])[f.base..] == log[w.base..] + [entry];
  }

  /** Committing more and accepting more keeps what is durable durable. */
  lemma DurableStays(a: Writer, b: Writer, n: nat)
    requires Durable(a, n) && n <= |a.accepted| && a.accepted <= b.accepted
    requires CommittedCount(a) <= CommittedCount(b)
    ensures Durable(b, n)
  {
    hide Flatten, CommittedCount;
    forall i | CommittedCount(b) <= i < n && i < |b.accepted| ensures b.accepted[i].numRows == 0 {
      assert a.accepted[i] == b.accepted[i];
    }
  }

  lemma BarriersStay(a: Writer, b: Writer)
    requires Barriers(a) && ProtocolInv(a) && a.accepted == b.accepted && CommittedCount(a) <= CommittedCount(b)
    requires b.flushCalls == a.flushCalls && b.answers == a.answers
    requires b.closeOk == a.closeOk && b.stoppedAt == a.stoppedAt
    ensures Barriers(b)
  {
    hide Durable, CommittedCount;
    forall c | c in b.answers.Keys && b.answers[c] ensures c in b.flushCalls && Durable(b, b.flushCalls[c]) {
      DurableStays(a, b, b.flushCalls[c]);
    }
    if b.closeOk == Some(true) {
      DurableStays(a, b, a.stoppedAt);
    }
  }

  /** A flush moves the pending batches into a committed group, or leaves everything in place. */
  lemma FlushKeepsWriter(
    e: M.Encoder, before: Files, w: Writer, log: seq<LogEntry>, o: FlushOutcome, after: Files, mem: WriterMem)
    requires WriterInv(w, log) && FlushEffect(e, before, w.mem, o, after, mem)
    ensures WriterInv(AfterFlush(w, o, mem), LogAfterFlush(w, log, o))
    ensures AfterFlush(w, o, mem).mem.queue == w.mem.queue
    ensures CommittedCount(w) <= CommittedCount(AfterFlush(w, o, mem))
  {
    hide OneShape, Gathered, Accumulates, ChangedOnly, IsFragmentOf, ColumnsStored, NextManifest, GroupsAreLog,
      Barriers, Flatten;
    var f := AfterFlush(w, o, mem);
    if o.Flushed? {
      AppendGroup(w.groups, w.pending);
      assert w.pending != [];
      GroupsExtend(w, f, log, LogEntry(w.mem.schema, w.mem.current.value));
    } else {
      GroupsUntouched(w, f, log);
    }
    BarriersStay(w, f);
  }

  lemma {:induction false} ZeroRowsBelow(batches: seq<RecordBatch>, i: nat)
    requires TotalRows(batches) == 0 && i < |batches|
    ensures batches[i].numRows == 0
  {
    if i < |batches| - 1 {
      ZeroRowsBelow(batches[..|batches| - 1], i);
    }
  }

  /** After a flush that returned nil, every accepted batch outside the queue is durable. */
  lemma FlushMakesDurable(
    e: M.Encoder, before: Files, w: Writer, log: seq<LogEntry>, o: FlushOutcome, after: Files, mem: WriterMem)
    requires WriterInv(w, log) && FlushEffect(e, before, w.mem, o, after, mem) && FlushOk(o)
    ensures Durable(AfterFlush(w, o, mem), |w.accepted| - |w.mem.queue|)
  {
    hide OneShape, Accumulates, ChangedOnly, IsFragmentOf, ColumnsStored, NextManifest, Values;
    var n := |Flatten(w.groups)|;
    if o.Flushed? {
      AppendGroup(w.groups, w.pending);
    } else if w.pending != [] {
      PendingOneShape(w);
      PartShape(w.pending, w.mem.queue);
      GatherKeepsValues(w.mem.schemaRef, w.pending);
      forall i | n <= i < |w.accepted| - |w.mem.queue| ensures w.accepted[i].numRows == 0 {
        assert w.accepted[i] == w.pending[i - n];
        ZeroRowsBelow(w.pending, i - n);
      }
    }
  }

  lemma PartShape(a: seq<RecordBatch>, b: seq<RecordBatch>)
    requires OneShape(a + b)
    ensures OneShape(a)
  {
    hide SameShape;
    forall i, j | 0 <= i < |a| && 0 <= j < |a| ensures SameShape(a[i], a[j]) {
      assert a[i] == (a + b)[i] && a[j] == (a + b)[j];
    }
  }

  lemma DrainDoneKeeps(
    e: M.Encoder, before: Files, w: Writer, log: seq<LogEntry>, o: FlushOutcome, after: Files, mem: WriterMem)
    requires WriterInv(w, log) && Enabled(e, before, w, DrainDone(o, after, mem))
    ensures WriterInv(WriterAfter(w, DrainDone(o, after, mem)), LogAfterFlush(w, log, o))
  {
    hide OneShape, Gathered, Conserved, CurrentIsPending, GroupsAreLog, FlushEffect, Durable, CommittedCount,
      LogAfterFlush;
    FlushKeepsWriter(e, before, w, log, o, after, mem);
    var f, d := AfterFlush(w, o, mem), WriterAfter(w, DrainDone(o, after, mem));
    SameHistory(f, d, LogAfterFlush(w, log, o));
    assert ProtocolInv(f);
    if FlushOk(o) {
      FlushMakesDurable(e, before, w, log, o, after, mem);
      assert Durable(f, |w.accepted|);
    }
    AnswerKeepsBarriers(f, d, FlushOk(o));
  }

  /** Answering nil is right once everything accepted is durable. */
  lemma AnswerKeepsBarriers(f: Writer, d: Writer, ok: bool)
    requires ProtocolInv(f) && Barriers(f) && f.pc.Draining?
    requires ok ==> Durable(f, |f.accepted|)
    requires d == if f.pc.why.ForFlush?
                  then f.(pc := Selecting, answers := f.answers[f.pc.why.caller := ok])
                  else f.(pc := Stopped, closeOk := Some(ok), stoppedAt := |f.accepted|)
    ensures Barriers(d)
  {
    hide Flatten;
    forall c | c in d.answers.Keys && d.answers[c] ensures c in d.flushCalls && Durable(d, d.flushCalls[c]) {
      if c in f.answers && f.answers[c] && !(f.pc.why.ForFlush? && c == f.pc.why.caller) {
        DurableStays(f, d, d.flushCalls[c]);
      } else {
        DurableBelow(f, |f.accepted|, d.flushCalls[c]);
        DurableStays(f, d, d.flushCalls[c]);
      }
    }
    if ok {
      DurableStays(f, d, |f.accepted|);
    }
  }

  lemma DurableBelow(w: Writer, n: nat, m: nat)
    requires Durable(w, n) && m <= n
    ensures Durable(w, m)
  {
  }

  /** Answers and program counters do not touch the batches. */
  lemma SameHistory(a: Writer, b: Writer, log: seq<LogEntry>)
    requires a.mem == b.mem && a.base == b.base && a.accepted == b.accepted
    requires a.groups == b.groups && a.pending == b.pending
    ensures Conserved(a) <==> Conserved(b)
    ensures CurrentIsPending(a) <==> CurrentIsPending(b)
    ensures GroupsAreLog(a, log) <==> GroupsAreLog(b, log)
  {
  }

  lemma AcceptKeeps(e: M.Encoder, files: Files, w: Writer, log: seq<LogEntry>, batch: RecordBatch, throughTable: bool)
    requires WriterInv(w, log) && Enabled(e, files, w, Accept(batch, throughTable))
    ensures WriterInv(WriterAfter(w, Accept(batch, throughTable)), log)
  {
    hide OneShape, Gathered, CurrentIsPending, GroupsAreLog;
    var a := WriterAfter(w, Accept(batch, throughTable));
    assert CurrentIsPending(a) && GroupsAreLog(a, log) by {
      CurrentUntouched(w, a, log);
    }
  }

  lemma CurrentUntouched(a: Writer, b: Writer, log: seq<LogEntry>)
    requires CurrentIsPending(a) && GroupsAreLog(a, log)
    requires b.mem == a.mem.(queue := b.mem.queue) && b.base == a.base
    requires b.groups == a.groups && b.pending == a.pending
    ensures CurrentIsPending(b) && GroupsAreLog(b, log)
  {
  }

  /** Every event of every interleaving keeps the writer's invariant. */
  lemma EventKeepsWriter(e: M.Encoder, files: Files, w: Writer, log: seq<LogEntry>, ev: Event)
    requires WriterInv(w, log) && Enabled(e, files, w, ev)
    ensures WriterInv(WriterAfter(w, ev), LogAfter(log, w, ev))
  {
    hide OneShape, Gathered, Accumulates, Accumulated, FlushEffect, Conserved, CurrentIsPending, GroupsAreLog;
    match ev {
      case Accept(batch, throughTable) => AcceptKeeps(e, files, w, log, batch, throughTable);
      case Take(o, after, mem) =>
        TakeKeeps(w, log);
        if LargeEnough(AfterTake(w).mem) {
          FlushKeepsWriter(e, files, AfterTake(w), log, o, after, mem);
        }
      case Drain => TakeKeeps(w, log);
      case DrainDone(o, after, mem) => DrainDoneKeeps(e, files, w, log, o, after, mem);
      case Timer(o, after, mem) => FlushKeepsWriter(e, files, w, log, o, after, mem);
      case _ => SameHistory(w, WriterAfter(w, ev), log);
    }
  }

  lemma StartKeeps(w: Writer, files: Files, log: seq<LogEntry>)
    requires Started(w, files, log)
    ensures WriterInv(w, log)
  {
  }

  // ---------- The loop's drain as events ----------

  /** Each step of the history is a Drain event. */
  ghost predicate DrainSteps(e: M.Encoder, files: Files, states: seq<Writer>) {
    forall i :: 0 <= i < |states| - 1 ==>
      Enabled(e, files, states[i], Drain) && states[i + 1] == WriterAfter(states[i], Drain)
  }

  /** drainPending, which runs within one arm of the loop, is a row of Drain events: the memory
      it leaves is that of the last of them. */
  lemma {:induction false} DrainIsEvents(e: M.Encoder, files: Files, w: Writer) returns (states: seq<Writer>)
    requires w.pc.Draining? && Drains(w.mem)
    ensures |states| == |w.mem.queue| + 1 && states[0] == w && DrainSteps(e, files, states)
    ensures states[|states| - 1].mem == Drained(w.mem) && states[|states| - 1].mem.queue == []
    decreases |w.mem.queue|
  {
    hide Accumulates, Accumulated;
    if w.mem.queue == [] {
      states := [w];
    } else {
      var next := WriterAfter(w, Drain);
      var rest := DrainIsEvents(e, files, next);
      states := [w] + rest;
      forall i | 0 <= i < |states| - 1
        ensures Enabled(e, files, states[i], Drain) && states[i + 1] == WriterAfter(states[i], Drain)
      {
        if i > 0 {
          assert states[i] == rest[i - 1] && states[i + 1] == rest[i];
        }
      }
    }
  }
}
