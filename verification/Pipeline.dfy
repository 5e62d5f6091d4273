/** The single-writer pipeline that both the index run and the parallel resolution
    use: any number of workers offer items to one bounded channel, one writer drains
    it into chunks and commits each chunk, retrying a failed commit.

    A run is any interleaving of the steps below, so a theorem about runs holds for
    every schedule of the threads. */
module Pipeline {
  import opened Graph

  /** `retries` is how often one chunk is tried again after its first failure;
      `abortOnError` says whether the writer stops at a chunk it had to give up. */
  datatype Config = Config(depth: nat, chunk: nat, retries: nat, abortOnError: bool) {
    predicate Valid() { depth > 0 && chunk > 0 }
  }

  datatype Writer<T> =
    | Receiving(buf: seq<T>)
    | Committing(batch: seq<T>, attempts: nat, last: bool)
    | Finished
    | Aborted

  datatype Flush<T> = Flush(batch: seq<T>, ok: bool)

  /** `todo[w]` is what worker w has still to produce, `None` for an input that yields
      nothing to send. `dropped` collects items whose send failed or that were left in
      the channel when the receiver went away. */
  datatype State<T> = State(
    todo: seq<seq<Option<T>>>, chan: seq<T>, writer: Writer<T>,
    log: seq<Flush<T>>, skipped: nat, dropped: seq<T>)

  datatype Event =
    | Skip(worker: nat) | Send(worker: nat) | SendClosed(worker: nat)
    | Receive | CommitOk | CommitErr | Eof

  function Init<T>(todo: seq<seq<Option<T>>>): State<T>
  {
    State(todo, [], Receiving([]), [], 0, [])
  }

  predicate WorkersDone<T>(s: State<T>)
  {
    forall w :: 0 <= w < |s.todo| ==> |s.todo[w]| == 0
  }

  predicate Terminal<T>(s: State<T>)
  {
    WorkersDone(s) && (s.writer.Finished? || s.writer.Aborted?)
  }

  predicate HasNext<T>(s: State<T>, w: nat)
  {
    w < |s.todo| && |s.todo[w]| > 0
  }

  predicate Enabled<T>(c: Config, s: State<T>, e: Event)
  {
    match e
    case Skip(w) => HasNext(s, w) && s.todo[w][0].None?
    case Send(w) => HasNext(s, w) && s.todo[w][0].Some? && !s.writer.Aborted? && |s.chan| < c.depth
    case SendClosed(w) => HasNext(s, w) && s.todo[w][0].Some? && s.writer.Aborted?
    case Receive => s.writer.Receiving? && |s.chan| > 0
    case CommitOk => s.writer.Committing?
    case CommitErr => s.writer.Committing?
    case Eof => s.writer.Receiving? && |s.chan| == 0 && WorkersDone(s)
  }

  function Advance<T>(todo: seq<seq<Option<T>>>, w: nat): seq<seq<Option<T>>>
    requires w < |todo| && |todo[w]| > 0
  {
    todo[w := todo[w][1..]]
  }

  function Apply<T>(c: Config, s: State<T>, e: Event): State<T>
    requires Enabled(c, s, e)
  {
    match e
    case Skip(w) => s.(todo := Advance(s.todo, w), skipped := s.skipped + 1)
    case Send(w) => s.(todo := Advance(s.todo, w), chan := s.chan + [s.todo[w][0].value])
    case SendClosed(w) => s.(todo := Advance(s.todo, w), dropped := s.dropped + [s.todo[w][0].value])
    case Receive =>
      var buf := s.writer.buf + [s.chan[0]];
      s.(chan := s.chan[1..],
         writer := if |buf| >= c.chunk then Committing(buf, 0, false) else Receiving(buf))
    case Eof =>
      s.(writer := if |s.writer.buf| > 0 then Committing(s.writer.buf, 0, true) else Finished)
    case CommitOk =>
      s.(log := s.log + [Flush(s.writer.batch, true)],
         writer := if s.writer.last then Finished else Receiving([]))
    case CommitErr =>
      if s.writer.attempts < c.retries then
        s.(writer := s.writer.(attempts := s.writer.attempts + 1))
      else if c.abortOnError then
        s.(log := s.log + [Flush(s.writer.batch, false)], writer := Aborted,
           chan := [], dropped := s.dropped + s.chan)
      else
        s.(log := s.log + [Flush(s.writer.batch, false)],
           writer := if s.writer.last then Finished else Receiving([]))
  }

  /** `t` is reached from `s` by the steps `es`. */
  ghost predicate IsRun<T>(c: Config, s: State<T>, es: seq<Event>, t: State<T>)
    decreases |es|
  {
    if |es| == 0 then s == t
    else Enabled(c, s, es[0]) && IsRun(c, Apply(c, s, es[0]), es[1..], t)
  }

  // ----- accounting ---------------------------------------------------------

  function Items<T>(xs: seq<Option<T>>): (ys: seq<T>)
  {
    if |xs| == 0 then [] else (if xs[0].Some? then [xs[0].value] else []) + Items(xs[1..])
  }

  ghost function Offered<T>(todo: seq<seq<Option<T>>>): multiset<T>
  {
    if |todo| == 0 then multiset{} else multiset(Items(todo[0])) + Offered(todo[1..])
  }

  function Pending<T>(todo: seq<seq<Option<T>>>): nat
  {
    if |todo| == 0 then 0 else |todo[0]| + Pending(todo[1..])
  }

  function InHand<T>(w: Writer<T>): seq<T>
  {
    match w
    case Receiving(buf) => buf
    case Committing(batch, _, _) => batch
    case _ => []
  }

  /** The items of the logged chunks, in commit order. */
  function Flushed<T>(log: seq<Flush<T>>): seq<T>
  {
    if |log| == 0 then [] else Flushed(log[..|log|-1]) + log[|log|-1].batch
  }

  /** The items of the logged chunks whose outcome is `ok`, in commit order. */
  function Logged<T>(log: seq<Flush<T>>, ok: bool): seq<T>
  {
    if |log| == 0 then []
    else Logged(log[..|log|-1], ok) + (if log[|log|-1].ok == ok then log[|log|-1].batch else [])
  }

  /** Everything sent so far in the order it was sent: the pipeline is a queue, so its
      parts, from the oldest to the newest, are the log, the writer's hand, the channel
      and what was dropped. */
  function Stream<T>(s: State<T>): seq<T>
  {
    Flushed(s.log) + Unlogged(s)
  }

  function Unlogged<T>(s: State<T>): seq<T>
  {
    InHand(s.writer) + s.chan + s.dropped
  }

  /** Where every item is: still offered, or sent. */
  ghost function Account<T>(s: State<T>): multiset<T>
  {
    Offered(s.todo) + multiset(Stream(s))
  }

  /** How many inputs have been, or are still to be, dealt with. */
  function Total<T>(s: State<T>): nat
  {
    Pending(s.todo) + |Stream(s)| + s.skipped
  }

  lemma {:induction false} AdvanceAccount<T>(todo: seq<seq<Option<T>>>, w: nat)
    requires w < |todo| && |todo[w]| > 0
    ensures Offered(todo) == Offered(Advance(todo, w))
                             + (if todo[w][0].Some? then multiset{todo[w][0].value} else multiset{})
    ensures Pending(todo) == Pending(Advance(todo, w)) + 1
  {
    var next := Advance(todo, w);
    if w == 0 {
      assert next[1..] == todo[1..];
    } else {
      AdvanceAccount(todo[1..], w - 1);
      assert next[1..] == Advance(todo[1..], w - 1);
    }
  }

  // ----- invariant ----------------------------------------------------------

  ghost predicate FullChunks<T>(c: Config, log: seq<Flush<T>>)
  {
    forall i :: 0 <= i < |log| ==> |log[i].batch| == c.chunk
  }

  /** Every chunk but possibly the last holds exactly `chunk` items, and none is empty. */
  ghost predicate WellChunked<T>(c: Config, log: seq<Flush<T>>)
  {
    |log| > 0 ==> FullChunks(c, log[..|log|-1]) && 0 < |log[|log|-1].batch| <= c.chunk
  }

  ghost predicate AllOk<T>(log: seq<Flush<T>>)
  {
    forall i :: 0 <= i < |log| ==> log[i].ok
  }

  ghost predicate Inv<T>(c: Config, s: State<T>)
  {
    && |s.chan| <= c.depth
    && (!s.writer.Aborted? ==> s.dropped == [])
    && (c.abortOnError && !s.writer.Aborted? ==> AllOk(s.log))
    && match s.writer
       case Receiving(buf) => |buf| < c.chunk && FullChunks(c, s.log)
       case Committing(batch, attempts, last) =>
         && 0 < |batch| <= c.chunk && attempts <= c.retries && FullChunks(c, s.log)
         && (if last then WorkersDone(s) && s.chan == [] else |batch| == c.chunk)
       case Finished => WorkersDone(s) && s.chan == [] && WellChunked(c, s.log)
       case Aborted =>
         && c.abortOnError && s.chan == [] && WellChunked(c, s.log)
         && |s.log| > 0 && !s.log[|s.log|-1].ok && AllOk(s.log[..|s.log|-1])
  }

  lemma LogInv<T>(c: Config, log: seq<Flush<T>>, f: Flush<T>)
    requires FullChunks(c, log) && 0 < |f.batch| <= c.chunk
    ensures WellChunked(c, log + [f])
    ensures |f.batch| == c.chunk ==> FullChunks(c, log + [f])
    ensures AllOk(log) && f.ok ==> AllOk(log + [f])
    ensures (log + [f])[..|log + [f]|-1] == log
  {
  }

  lemma WorkerStepInv<T>(c: Config, s: State<T>, e: Event)
    requires c.Valid() && Inv(c, s) && Enabled(c, s, e) && (e.Skip? || e.Send? || e.SendClosed?)
    ensures Inv(c, Apply(c, s, e))
  {
    assert !WorkersDone(s);
  }

  lemma CommitStepInv<T>(c: Config, s: State<T>, e: Event)
    requires c.Valid() && Inv(c, s) && Enabled(c, s, e) && (e.CommitOk? || e.CommitErr?)
    ensures Inv(c, Apply(c, s, e))
  {
    LogInv(c, s.log, Flush(s.writer.batch, e.CommitOk?));
    hide FullChunks, WellChunked, AllOk;
  }

  lemma StepInv<T>(c: Config, s: State<T>, e: Event)
    requires c.Valid() && Inv(c, s) && Enabled(c, s, e)
    ensures Inv(c, Apply(c, s, e))
  {
    hide FullChunks, WellChunked, AllOk;
    match e
    case Receive =>
    case Eof => EmptyLogInv(c, s.log);
    case CommitOk => CommitStepInv(c, s, e);
    case CommitErr => CommitStepInv(c, s, e);
    case _ => WorkerStepInv(c, s, e);
  }

  lemma EmptyLogInv<T>(c: Config, log: seq<Flush<T>>)
    requires c.Valid() && FullChunks(c, log)
    ensures WellChunked(c, log)
  {
  }

  lemma FlushedAppend<T>(log: seq<Flush<T>>, f: Flush<T>)
    ensures Flushed(log + [f]) == Flushed(log) + f.batch
  {
    assert (log + [f])[..|log + [f]|-1] == log;
  }

  function Sent<T>(s: State<T>, e: Event): seq<T>
    requires e.Send? || e.SendClosed? ==> HasNext(s, e.worker) && s.todo[e.worker][0].Some?
  {
    if e.Send? || e.SendClosed? then [s.todo[e.worker][0].value] else []
  }

  lemma HandOver<T>(s: State<T>, t: State<T>, ok: bool)
    requires t.log == s.log + [Flush(InHand(s.writer), ok)] && InHand(t.writer) == []
    requires t.chan + t.dropped == s.chan + s.dropped
    ensures Stream(t) == Stream(s)
  {
    FlushedAppend(s.log, Flush(InHand(s.writer), ok));
    hide Flushed;
    assert Unlogged(t) == s.chan + s.dropped;
    assert Unlogged(s) == InHand(s.writer) + Unlogged(t);
  }

  /** A chunk that is logged moves from the front of the unlogged items to the log. */
  lemma CommitStream<T>(c: Config, s: State<T>, e: Event)
    requires Inv(c, s) && Enabled(c, s, e) && (e.CommitOk? || e.CommitErr?)
    ensures Stream(Apply(c, s, e)) == Stream(s)
  {
    hide FullChunks, WellChunked, AllOk, Flushed, WorkersDone;
    var t := Apply(c, s, e);
    if t.log != s.log {
      assert t.chan + t.dropped == s.chan + s.dropped;
      HandOver(s, t, e.CommitOk?);
    }
  }

  /** Only a send extends the stream, at its end; no step reorders it. */
  lemma StepStream<T>(c: Config, s: State<T>, e: Event)
    requires Inv(c, s) && Enabled(c, s, e)
    ensures Stream(Apply(c, s, e)) == Stream(s) + Sent(s, e)
  {
    hide FullChunks, WellChunked, AllOk, WorkersDone;
    var t := Apply(c, s, e);
    if e.CommitOk? || e.CommitErr? {
      CommitStream(c, s, e);
    } else {
      assert Unlogged(t) == Unlogged(s) + Sent(s, e);
    }
  }

  lemma StepTodo<T>(c: Config, s: State<T>, e: Event)
    requires Enabled(c, s, e)
    ensures Offered(s.todo) == Offered(Apply(c, s, e).todo) + multiset(Sent(s, e))
    ensures Pending(s.todo) + s.skipped
            == Pending(Apply(c, s, e).todo) + Apply(c, s, e).skipped + |Sent(s, e)|
  {
    if e.Skip? || e.Send? || e.SendClosed? { AdvanceAccount(s.todo, e.worker); }
  }

  lemma StepAccount<T>(c: Config, s: State<T>, e: Event)
    requires Inv(c, s) && Enabled(c, s, e)
    ensures Account(Apply(c, s, e)) == Account(s)
    ensures Total(Apply(c, s, e)) == Total(s)
  {
    StepStream(c, s, e);
    StepTodo(c, s, e);
    Move(Offered(s.todo), Offered(Apply(c, s, e).todo), Stream(s), Sent(s, e));
  }

  lemma Move<T>(before: multiset<T>, after: multiset<T>, stream: seq<T>, sent: seq<T>)
    requires before == after + multiset(sent)
    ensures after + multiset(stream + sent) == before + multiset(stream)
  {
    assert multiset(stream + sent) == multiset(stream) + multiset(sent);
  }

  lemma {:induction false} RunInv<T>(c: Config, s: State<T>, es: seq<Event>, t: State<T>)
    requires c.Valid() && Inv(c, s) && IsRun(c, s, es, t)
    ensures Inv(c, t)
    decreases |es|
  {
    if |es| > 0 {
      StepInv(c, s, es[0]);
      RunInv(c, Apply(c, s, es[0]), es[1..], t);
    }
  }

  /** Safety over whole runs: no item and no input is lost or duplicated. */
  lemma {:induction false} RunAccount<T>(c: Config, s: State<T>, es: seq<Event>, t: State<T>)
    requires c.Valid() && Inv(c, s) && IsRun(c, s, es, t)
    ensures Account(t) == Account(s) && Total(t) == Total(s)
    decreases |es|
  {
    if |es| > 0 {
      StepInv(c, s, es[0]);
      StepAccount(c, s, es[0]);
      RunAccount(c, Apply(c, s, es[0]), es[1..], t);
    }
  }

  // ----- completion ---------------------------------------------------------

  lemma {:induction false} NothingPending<T>(todo: seq<seq<Option<T>>>)
    requires forall w :: 0 <= w < |todo| ==> |todo[w]| == 0
    ensures Offered(todo) == multiset{} && Pending(todo) == 0
  {
    if |todo| > 0 {
      NothingPending(todo[1..]);
    }
  }

  lemma {:induction false} FlushedSplits<T>(log: seq<Flush<T>>)
    ensures multiset(Flushed(log)) == multiset(Logged(log, true)) + multiset(Logged(log, false))
    ensures |Flushed(log)| == |Logged(log, true)| + |Logged(log, false)|
  {
    if |log| > 0 { FlushedSplits(log[..|log|-1]); }
  }

  lemma {:induction false} AllOkLogsNothingElse<T>(log: seq<Flush<T>>)
    requires AllOk(log)
    ensures Logged(log, false) == [] && Logged(log, true) == Flushed(log)
  {
    if |log| > 0 { AllOkLogsNothingElse(log[..|log|-1]); }
  }

  lemma StartAccount<T>(c: Config, todo: seq<seq<Option<T>>>)
    requires c.Valid()
    ensures Inv(c, Init(todo))
    ensures Account(Init(todo)) == Offered(todo) && Total(Init(todo)) == Pending(todo)
  {
    assert Unlogged(Init(todo)) == [];
    assert Stream(Init(todo)) == [];
  }

  lemma EndAccount<T>(c: Config, t: State<T>)
    requires Terminal(t) && Inv(c, t)
    ensures Account(t) == multiset(Stream(t)) && Total(t) == |Stream(t)| + t.skipped
    ensures Stream(t) == Flushed(t.log) + t.dropped
  {
    NothingPending(t.todo);
    assert Unlogged(t) == t.dropped;
  }

  lemma CompletedAccount<T>(c: Config, todo: seq<seq<Option<T>>>, es: seq<Event>, t: State<T>)
    requires c.Valid() && IsRun(c, Init(todo), es, t) && Terminal(t)
    ensures Inv(c, t)
    ensures multiset(Stream(t)) == Offered(todo)
    ensures |Stream(t)| + t.skipped == Pending(todo)
    ensures Stream(t) == Flushed(t.log) + t.dropped
  {
    hide IsRun, Inv, Account, Total, Terminal, Stream;
    StartAccount(c, todo);
    RunInv(c, Init(todo), es, t);
    RunAccount(c, Init(todo), es, t);
    EndAccount(c, t);
  }

  /** What a completed run has done with the workers' output: each item sent is in
      exactly one logged chunk unless the writer aborted, all chunks but the last are
      full, and every input was committed, given up, dropped or had nothing to send. */
  lemma CompletedRun<T>(c: Config, todo: seq<seq<Option<T>>>, es: seq<Event>, t: State<T>)
    requires c.Valid() && IsRun(c, Init(todo), es, t) && Terminal(t)
    ensures WellChunked(c, t.log)
    ensures multiset(Flushed(t.log) + t.dropped) == Offered(todo)
    ensures |Logged(t.log, true)| + |Logged(t.log, false)| + |t.dropped| + t.skipped == Pending(todo)
    ensures !c.abortOnError ==> t.writer.Finished?
    ensures t.writer.Finished? ==> t.dropped == []
    ensures t.writer.Finished? && c.abortOnError ==> Logged(t.log, true) == Flushed(t.log)
    ensures t.writer.Aborted? ==> |t.log| > 0 && !t.log[|t.log|-1].ok && AllOk(t.log[..|t.log|-1])
  {
    CompletedAccount(c, todo, es, t);
    FlushedSplits(t.log);
    if t.writer.Finished? && c.abortOnError { AllOkLogsNothingElse(t.log); }
  }

  // ----- progress and termination -------------------------------------------

  predicate WorkerEnabled<T>(c: Config, s: State<T>, w: nat)
  {
    Enabled(c, s, Skip(w)) || Enabled(c, s, Send(w)) || Enabled(c, s, SendClosed(w))
  }

  predicate WriterEnabled<T>(c: Config, s: State<T>)
  {
    Enabled(c, s, Receive) || Enabled(c, s, CommitOk) || Enabled(c, s, Eof)
  }

  /** No reachable state is stuck: either the writer can move, or every unfinished
      worker can, whichever of them the thread pool happens to run. This includes the
      states after the writer aborted. */
  lemma Progress<T>(c: Config, todo: seq<seq<Option<T>>>, es: seq<Event>, t: State<T>)
    requires c.Valid() && IsRun(c, Init(todo), es, t) && !Terminal(t)
    ensures WriterEnabled(c, t)
            || (!WorkersDone(t) && forall w :: HasNext(t, w) ==> WorkerEnabled(c, t, w))
  {
    RunInv(c, Init(todo), es, t);
  }

  /** An item costs 3K while offered, 2K in the channel and K in the buffer; a chunk
      being committed costs the attempts it has left. */
  function Measure<T>(c: Config, s: State<T>): nat
    requires s.writer.Committing? ==> s.writer.attempts <= c.retries
  {
    var k := c.retries + 2;
    3 * k * Pending(s.todo) + 2 * k * |s.chan|
    + match s.writer
      case Receiving(buf) => k * |buf| + 1
      case Committing(_, attempts, _) => c.retries + 1 - attempts + 1
      case _ => 0
  }

  lemma Scale(k: nat, n: nat)
    ensures k * (n + 1) == k * n + k
  {
  }

  lemma WorkerMeasure<T>(c: Config, s: State<T>, e: Event)
    requires c.Valid() && Inv(c, s) && Enabled(c, s, e) && (e.Skip? || e.Send? || e.SendClosed?)
    ensures Measure(c, Apply(c, s, e)) < Measure(c, s)
  {
    hide FullChunks, WellChunked, AllOk, Offered;
    var t := Apply(c, s, e);
    var k := c.retries + 2;
    AdvanceAccount(s.todo, e.worker);
    Scale(3 * k, Pending(t.todo));
    Scale(2 * k, |s.chan|);
    assert t.writer == s.writer;
    assert |t.chan| == |s.chan| || |t.chan| == |s.chan| + 1;
  }

  lemma WriterMeasure<T>(c: Config, s: State<T>, e: Event)
    requires c.Valid() && Inv(c, s) && Enabled(c, s, e) && !(e.Skip? || e.Send? || e.SendClosed?)
    ensures Measure(c, Apply(c, s, e)) < Measure(c, s)
  {
    var t := Apply(c, s, e);
    var k := c.retries + 2;
    assert t.todo == s.todo;
    match e
    case Receive =>
      Scale(2 * k, |t.chan|);
      Scale(k, |s.writer.buf|);
      assert k * |s.writer.buf| >= 0;
    case Eof => if |s.writer.buf| > 0 { Scale(k, |s.writer.buf| - 1); }
    case CommitOk =>
    case CommitErr => assert 2 * k * |s.chan| >= 0;
  }

  lemma MeasureDecreases<T>(c: Config, s: State<T>, e: Event)
    requires c.Valid() && Inv(c, s) && Enabled(c, s, e)
    ensures Measure(c, Apply(c, s, e)) < Measure(c, s)
  {
    if e.Skip? || e.Send? || e.SendClosed? { WorkerMeasure(c, s, e); } else { WriterMeasure(c, s, e); }
  }

  /** Every run is finite: its length is bounded by the measure of its first state. */
  lemma {:induction false} RunsAreBounded<T>(c: Config, s: State<T>, es: seq<Event>, t: State<T>)
    requires c.Valid() && Inv(c, s) && IsRun(c, s, es, t)
    ensures Inv(c, t) && |es| + Measure(c, t) <= Measure(c, s)
    decreases |es|
  {
    if |es| > 0 {
      StepInv(c, s, es[0]);
      MeasureDecreases(c, s, es[0]);
      RunsAreBounded(c, Apply(c, s, es[0]), es[1..], t);
    }
  }

  // ----- the channel and the retries ----------------------------------------------------------

  /** The channel never holds more than its depth. */
  lemma {:induction false} ChannelIsBounded<T>(c: Config, s: State<T>, es: seq<Event>, t: State<T>)
    requires IsRun(c, s, es, t) && |s.chan| <= c.depth
    ensures |t.chan| <= c.depth
    decreases |es|
  {
    if |es| > 0 { ChannelIsBounded(c, Apply(c, s, es[0]), es[1..], t); }
  }

  function Failures(k: nat): seq<Event> { seq(k, _ => CommitErr) }

  /** A chunk that fails is tried again as often as the configuration says, and nothing else
      happens to it meanwhile. */
  lemma {:induction false} ChunkIsRetried<T>(c: Config, s: State<T>, k: nat, t: State<T>)
    requires s.writer.Committing? && s.writer.attempts + k <= c.retries && IsRun(c, s, Failures(k), t)
    ensures t == s.(writer := s.writer.(attempts := s.writer.attempts + k))
    decreases k
  {
    if k > 0 {
      assert Failures(k)[1..] == Failures(k - 1);
      ChunkIsRetried(c, Apply(c, s, CommitErr), k - 1, t);
    }
  }

  /** The failure after that gives it up: the writer stops, or goes on without it. */
  lemma ChunkIsGivenUp<T>(c: Config, s: State<T>)
    requires s.writer.Committing? && s.writer.attempts == c.retries
    ensures var t := Apply(c, s, CommitErr);
            && t.log == s.log + [Flush(s.writer.batch, false)]
            && (t.writer.Aborted? <==> c.abortOnError) && t.todo == s.todo
            && (!c.abortOnError ==> t.chan == s.chan && t.dropped == s.dropped)
  {
  }
}
