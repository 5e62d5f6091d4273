/** The live-sync loop, interleaved with edits and watcher notifications. A cycle visits
    each path in three separate moments: it looks at the file, reads its text, and stamps
    the record with the modification time it finds when extraction is over. */
module LiveSync {

  /** A file's version is the tick of the clock at its last edit, and its mtime. */
  datatype Record = Record(content: nat, mtime: nat)

  datatype Visit = Todo | Extract | Drop | Holding(content: nat) | Done

  /** `Draining` lies between the receive and the start of the walk. */
  datatype Phase = Idle | Draining | Walking(visits: map<string, Visit>)

  datatype State = State(
    clock: nat, disk: map<string, nat>, records: map<string, Record>, unnotified: set<string>,
    queue: seq<set<string>>, phase: Phase, lastOk: bool)

  datatype Step =
    | Edit(path: string) | Delete(path: string) | Notify(batch: set<string>)
    | Receive | DrainOne | StartWalk
    | Look(path: string) | ReadText(path: string) | Stamp(path: string) | DropRecord(path: string)
    | Finish | Fail

  /** `alike(p, c, v)`: the size stored for version c of p is the size of version v. */
  datatype World = World(paths: set<string>, alike: (string, nat, nat) -> bool)

  /** The loop starts idle over any disk and any store; nothing is covered yet. */
  predicate Init(w: World, s: State)
  {
    && s.queue == [] && s.phase.Idle? && !s.lastOk
    && s.disk.Keys <= w.paths && s.records.Keys <= w.paths
    && forall p :: p in s.disk ==> s.disk[p] <= s.clock
  }

  predicate Modified(w: World, p: string, r: Record, version: nat)
  {
    r.mtime != version || (!w.alike(p, r.content, version) && r.content != version)
  }

  function Verdict(w: World, s: State, p: string): Visit
  {
    if p in s.disk then
      if p !in s.records || Modified(w, p, s.records[p], s.disk[p]) then Extract else Done
    else if p in s.records then Drop
    else Done
  }

  predicate At(s: State, p: string, v: Visit) { s.phase.Walking? && p in s.phase.visits && s.phase.visits[p] == v }

  predicate Enabled(w: World, s: State, e: Step)
  {
    match e
    case Edit(p) => p in w.paths
    case Delete(p) => p in s.disk
    case Notify(batch) => batch != {}
    case Receive => s.phase.Idle? && s.queue != []
    case DrainOne => s.phase.Draining? && s.queue != []
    case StartWalk => s.phase.Draining? && s.queue == []
    case Look(p) => At(s, p, Todo)
    case ReadText(p) => At(s, p, Extract)
    case Stamp(p) => s.phase.Walking? && p in s.phase.visits && s.phase.visits[p].Holding?
    case DropRecord(p) => At(s, p, Drop)
    case Finish => s.phase.Walking? && forall p :: p in s.phase.visits ==> s.phase.visits[p] == Done
    case Fail => s.phase.Walking?
  }

  function Visiting(s: State, p: string, v: Visit): State
    requires s.phase.Walking?
  {
    s.(phase := Walking(s.phase.visits[p := v]))
  }

  function Apply(w: World, s: State, e: Step): State
    requires Enabled(w, s, e)
  {
    match e
    case Edit(p) => s.(clock := s.clock + 1, disk := s.disk[p := s.clock + 1], unnotified := s.unnotified + {p})
    case Delete(p) => s.(disk := s.disk - {p}, unnotified := s.unnotified + {p})
    case Notify(batch) => s.(unnotified := s.unnotified - batch, queue := s.queue + [batch])
    case Receive => s.(queue := s.queue[1..], phase := Draining)
    case DrainOne => s.(queue := s.queue[1..])
    case StartWalk => s.(phase := Walking(map p | p in w.paths :: Todo))
    case Look(p) => Visiting(s, p, Verdict(w, s, p))
    case ReadText(p) => Visiting(s, p, if p in s.disk then Holding(s.disk[p]) else Done)
    case Stamp(p) =>
      var now := if p in s.disk then s.disk[p] else 0;
      Visiting(s, p, Done).(records := s.records[p := Record(s.phase.visits[p].content, now)])
    case DropRecord(p) => Visiting(s, p, Done).(records := s.records - {p})
    case Finish => s.(phase := Idle, lastOk := true)
    case Fail => s.(phase := Idle, lastOk := false)
  }

  ghost predicate IsRun(w: World, s: State, steps: seq<Step>, end: State)
    decreases |steps|
  {
    if |steps| == 0 then s == end
    else Enabled(w, s, steps[0]) && IsRun(w, Apply(w, s, steps[0]), steps[1..], end)
  }

  // ----- what a run keeps --------------------------------------------------------------

  /** An edit of the path is still on its way: not notified yet, or in a queued batch. */
  predicate Underway(s: State, p: string)
  {
    p in s.unnotified || exists b :: b in s.queue && p in b
  }

  /** The record passes for the file: a cycle would leave it alone. */
  predicate Settled(w: World, s: State, p: string)
  {
    (p in s.disk <==> p in s.records) && (p in s.disk ==> !Modified(w, p, s.records[p], s.disk[p]))
  }

  predicate VisitGood(w: World, s: State, p: string, v: Visit)
  {
    match v
    case Todo => true
    case Extract => p in s.disk
    case Drop => p !in s.disk
    case Holding(c) => p in s.disk && s.disk[p] == c
    case Done => Settled(w, s, p)
  }

  predicate PathGood(w: World, s: State, p: string)
  {
    match s.phase
    case Idle => s.lastOk ==> Settled(w, s, p)
    case Draining => true
    case Walking(visits) => p in visits && VisitGood(w, s, p, visits[p])
  }

  ghost predicate Inv(w: World, s: State)
  {
    && s.disk.Keys <= w.paths && s.records.Keys <= w.paths
    && (s.phase.Walking? ==> s.phase.visits.Keys == w.paths)
    && forall p :: p in w.paths ==> Underway(s, p) || PathGood(w, s, p)
  }

  /** Once an edit is on its way it stays so until the loop takes its batch. */
  lemma StaysUnderway(w: World, s: State, e: Step, p: string)
    requires Enabled(w, s, e) && Underway(s, p) && !e.Receive? && !e.DrainOne?
    ensures Underway(Apply(w, s, e), p)
  {
    var t := Apply(w, s, e);
    if p !in t.unnotified {
      if e.Notify? && p in e.batch {
        assert t.queue[|s.queue|] == e.batch;
      } else {
        var b :| b in s.queue && p in b;
        assert b in t.queue;
      }
    }
  }

  lemma StepKeepsPath(w: World, s: State, e: Step, p: string)
    requires Inv(w, s) && Enabled(w, s, e) && p in w.paths
    ensures Underway(Apply(w, s, e), p) || PathGood(w, Apply(w, s, e), p)
  {
    var t := Apply(w, s, e);
    if !e.Receive? && !e.DrainOne? {
      if Underway(s, p) {
        StaysUnderway(w, s, e, p);
      } else if e.Notify? && p in e.batch {
        assert t.queue[|s.queue|] == e.batch;
      }
    }
  }

  lemma StepKeepsInv(w: World, s: State, e: Step)
    requires Inv(w, s) && Enabled(w, s, e)
    ensures Inv(w, Apply(w, s, e))
  {
    forall p | p in w.paths ensures Underway(Apply(w, s, e), p) || PathGood(w, Apply(w, s, e), p) {
      StepKeepsPath(w, s, e, p);
    }
  }

  lemma {:induction false} RunKeepsInv(w: World, s: State, steps: seq<Step>, end: State)
    requires Inv(w, s) && IsRun(w, s, steps, end)
    ensures Inv(w, end)
    decreases |steps|
  {
    if |steps| > 0 {
      StepKeepsInv(w, s, steps[0]);
      RunKeepsInv(w, Apply(w, s, steps[0]), steps[1..], end);
    }
  }

  // ----- the theorems --------------------------------------------------------------------

  /** In every reachable state, whatever the interleaving and however many cycles failed
      before: a path whose edits were all notified is settled, or a queued batch names it,
      or the loop is between a receive and its visit of the path, or the last cycle that
      ended failed. */
  lemma NoNotifiedEditIsLost(w: World, s: State, steps: seq<Step>, end: State, p: string)
    requires Init(w, s) && IsRun(w, s, steps, end) && p in w.paths && p !in end.unnotified
    ensures || Settled(w, end, p)
            || (exists b :: b in end.queue && p in b)
            || end.phase.Draining?
            || (end.phase.Walking? && p in end.phase.visits && end.phase.visits[p] != Done)
            || (end.phase.Idle? && !end.lastOk)
  {
    RunKeepsInv(w, s, steps, end);
    assert Underway(end, p) || PathGood(w, end, p);
  }

  // ----- which edits are lost --------------------------------------------------------------

  /** The record carries the file's mtime and size but another version's text. */
  predicate Stale(w: World, s: State, p: string)
  {
    && p in s.disk && p in s.records && s.records[p].mtime == s.disk[p]
    && s.records[p].content != s.disk[p] && w.alike(p, s.records[p].content, s.disk[p])
  }

  /** The text held for the path is no longer the file's, and the file's has the same size. */
  predicate Torn(w: World, s: State, p: string)
    requires s.phase.Walking? && p in s.phase.visits && s.phase.visits[p].Holding?
  {
    var held := s.phase.visits[p].content;
    p in s.disk && held != s.disk[p] && w.alike(p, held, s.disk[p])
  }

  predicate TornAfter(w: World, s: State, e: Step, p: string, torn: bool)
    requires Enabled(w, s, e)
  {
    match e
    case Edit(q) => torn && q != p
    case Delete(q) => torn && q != p
    case Stamp(q) => if q == p then Torn(w, s, p) else torn
    case _ => torn
  }

  /** The last stamp of the path in the run was torn, and the path was neither edited nor
      deleted after it; `torn` says how the path stood before the run. */
  ghost predicate EndsTorn(w: World, s: State, steps: seq<Step>, p: string, torn: bool)
    decreases |steps|
  {
    if |steps| == 0 then torn
    else Enabled(w, s, steps[0]) && EndsTorn(w, Apply(w, s, steps[0]), steps[1..], p, TornAfter(w, s, steps[0], p, torn))
  }

  /** No record comes from the future, and a visit that will touch a record found it not
      stale. */
  ghost predicate Timely(w: World, s: State)
  {
    && (forall p :: p in s.disk ==> s.disk[p] <= s.clock)
    && (forall p :: p in s.records ==> s.records[p].mtime <= s.clock)
    && (s.phase.Walking? ==>
          forall p :: p in s.phase.visits && s.phase.visits[p] != Todo && s.phase.visits[p] != Done ==> !Stale(w, s, p))
  }

  lemma StepKeepsTimely(w: World, s: State, e: Step)
    requires Timely(w, s) && Enabled(w, s, e)
    ensures Timely(w, Apply(w, s, e))
  {
  }

  lemma StepTears(w: World, s: State, e: Step, p: string)
    requires Timely(w, s) && Enabled(w, s, e)
    ensures Stale(w, Apply(w, s, e), p) <==> TornAfter(w, s, e, p, Stale(w, s, p))
  {
  }

  lemma {:induction false} StaleIffEndsTorn(w: World, s: State, steps: seq<Step>, end: State, p: string)
    requires Timely(w, s) && IsRun(w, s, steps, end)
    ensures Stale(w, end, p) <==> EndsTorn(w, s, steps, p, Stale(w, s, p))
    decreases |steps|
  {
    if |steps| > 0 {
      StepKeepsTimely(w, s, steps[0]);
      StepTears(w, s, steps[0], p);
      StaleIffEndsTorn(w, Apply(w, s, steps[0]), steps[1..], end, p);
    }
  }

  /** At rest after a cycle that did not fail the records mirror the disk, and a record holds
      an old text if and only if its last stamp was torn and nothing happened to the file
      since, or it was stale before the run and nothing happened to the file in it. */
  lemma AtRestRecordsMirrorDisk(w: World, s: State, steps: seq<Step>, end: State)
    requires Init(w, s) && IsRun(w, s, steps, end)
    requires forall p :: p in s.records ==> s.records[p].mtime <= s.clock
    requires end.phase.Idle? && end.lastOk && end.queue == [] && end.unnotified == {}
    ensures end.records.Keys == end.disk.Keys
    ensures forall p :: p in end.disk ==>
              && end.records[p].mtime == end.disk[p]
              && (end.records[p].content != end.disk[p] <==> EndsTorn(w, s, steps, p, Stale(w, s, p)))
  {
    RunKeepsInv(w, s, steps, end);
    forall p | p in w.paths ensures Settled(w, end, p) {
      assert !Underway(end, p);
      assert PathGood(w, end, p);
    }
    forall p | p in end.disk
      ensures end.records[p].content != end.disk[p] <==> EndsTorn(w, s, steps, p, Stale(w, s, p))
    {
      StaleIffEndsTorn(w, s, steps, end, p);
    }
  }

  /** A record made from the version whose mtime it carries, or without a time. */
  predicate Honest(s: State)
  {
    && (forall p :: p in s.records ==>
          s.records[p].mtime <= s.clock && (s.records[p].mtime == 0 || s.records[p].content == s.records[p].mtime))
    && forall p :: p in s.disk ==> 1 <= s.disk[p]
  }

  /** No file is edited to the same size between the read of its text and the stamp. */
  ghost predicate Untorn(w: World, s: State, steps: seq<Step>)
    decreases |steps|
  {
    |steps| == 0 ||
    (&& Enabled(w, s, steps[0]) && Untorn(w, Apply(w, s, steps[0]), steps[1..])
     && (steps[0].Edit? && s.phase.Walking? && steps[0].path in s.phase.visits && s.phase.visits[steps[0].path].Holding? ==>
           !w.alike(steps[0].path, s.phase.visits[steps[0].path].content, s.clock + 1)))
  }

  /** A held text is the file's, or of another size. */
  predicate HoldsCurrent(w: World, s: State)
  {
    s.phase.Walking? ==> forall p :: p in s.phase.visits && s.phase.visits[p].Holding? ==> !Torn(w, s, p)
  }

  lemma {:induction false} UntornNeverTears(w: World, s: State, steps: seq<Step>, end: State, p: string)
    requires IsRun(w, s, steps, end) && HoldsCurrent(w, s) && Untorn(w, s, steps)
    ensures !EndsTorn(w, s, steps, p, false)
    decreases |steps|
  {
    if |steps| > 0 {
      UntornNeverTears(w, Apply(w, s, steps[0]), steps[1..], end, p);
    }
  }

  /** So over honest records, runs without a same-size edit between read and stamp lose
      nothing: at rest after a cycle that did not fail every record holds the file's text. */
  lemma UntornRunsLoseNothing(w: World, s: State, steps: seq<Step>, end: State)
    requires Init(w, s) && Honest(s) && IsRun(w, s, steps, end) && Untorn(w, s, steps)
    requires end.phase.Idle? && end.lastOk && end.queue == [] && end.unnotified == {}
    ensures end.records.Keys == end.disk.Keys
    ensures forall p :: p in end.disk ==> end.records[p] == Record(end.disk[p], end.disk[p])
  {
    AtRestRecordsMirrorDisk(w, s, steps, end);
    forall p | p in end.disk ensures end.records[p].content == end.disk[p] {
      UntornNeverTears(w, s, steps, end, p);
    }
  }

  // ----- which files are up to date, whatever failed ------------------------------------------

  /** The record exists exactly if the file does, and holds its text. */
  predicate Mirrors(s: State, p: string)
  {
    (p in s.disk <==> p in s.records) && (p in s.disk ==> s.records[p].content == s.disk[p])
  }

  predicate CaughtUpAfter(w: World, s: State, e: Step, p: string, was: bool)
    requires Enabled(w, s, e)
  {
    match e
    case Edit(q) => was && q != p
    case Delete(q) => if q == p then p !in s.records else was
    case Stamp(q) => if q == p then p in s.disk && s.phase.visits[p].content == s.disk[p] else was
    case DropRecord(q) => if q == p then p !in s.disk else was
    case _ => was
  }

  /** The last thing that happened to the path in the run was a stamp of the file's own text,
      a drop of the record of a missing file, or a deletion that left nothing; if nothing
      happened to it, `was` says how it stood. */
  ghost predicate EndsCaughtUp(w: World, s: State, steps: seq<Step>, p: string, was: bool)
    decreases |steps|
  {
    if |steps| == 0 then was
    else
      && Enabled(w, s, steps[0])
      && EndsCaughtUp(w, Apply(w, s, steps[0]), steps[1..], p, CaughtUpAfter(w, s, steps[0], p, was))
  }

  /** No version on disk, in a record or held by a visit is still to come. */
  ghost predicate Causal(s: State)
  {
    && (forall p :: p in s.disk ==> s.disk[p] <= s.clock)
    && (forall p :: p in s.records ==> s.records[p].content <= s.clock)
    && (s.phase.Walking? ==>
          forall p :: p in s.phase.visits && s.phase.visits[p].Holding? ==> s.phase.visits[p].content <= s.clock)
  }

  lemma StepKeepsCausal(w: World, s: State, e: Step)
    requires Causal(s) && Enabled(w, s, e)
    ensures Causal(Apply(w, s, e))
  {
  }

  lemma StepCatchesUp(w: World, s: State, e: Step, p: string)
    requires Causal(s) && Enabled(w, s, e)
    ensures Mirrors(Apply(w, s, e), p) <==> CaughtUpAfter(w, s, e, p, Mirrors(s, p))
  {
  }

  /** In every state a run reaches, at rest or not and however many cycles failed on the
      way, a file is up to date if and only if the run ends caught up with it. So at rest after
      a failed cycle exactly those files are out of date whose last change was not followed
      by a stamp of the new text or a drop, in that cycle or an earlier one. */
  lemma {:induction false} MirrorsIffCaughtUp(w: World, s: State, steps: seq<Step>, end: State, p: string)
    requires Causal(s) && IsRun(w, s, steps, end)
    ensures Mirrors(end, p) <==> EndsCaughtUp(w, s, steps, p, Mirrors(s, p))
    decreases |steps|
  {
    if |steps| > 0 {
      StepKeepsCausal(w, s, steps[0]);
      StepCatchesUp(w, s, steps[0], p);
      MirrorsIffCaughtUp(w, Apply(w, s, steps[0]), steps[1..], end, p);
    }
  }

  // ----- runs that lose an edit ----------------------------------------------------------------

  lemma Start(w: World, s: State, e: Step, rest: seq<Step>, end: State)
    requires Enabled(w, s, e) && IsRun(w, Apply(w, s, e), rest, end)
    ensures IsRun(w, s, [e] + rest, end)
  {
    assert ([e] + rest)[1..] == rest;
  }

  function Fresh(clock: nat, p: string, version: nat, r: Record, phase: Phase, queue: seq<set<string>>,
                 unnotified: set<string>, lastOk: bool): State
  {
    State(clock, map[p := version], map[p := r], unnotified, queue, phase, lastOk)
  }

  lemma EditStep(w: World, p: string, v: nat, r: Record, phase: Phase)
    requires p in w.paths
    ensures Enabled(w, Fresh(v, p, v, r, phase, [], {}, false), Edit(p))
    ensures Apply(w, Fresh(v, p, v, r, phase, [], {}, false), Edit(p)) == Fresh(v + 1, p, v + 1, r, phase, [], {p}, false)
  {
    assert map[p := v][p := v + 1] == map[p := v + 1];
    assert {} + {p} == {p};
  }

  /** A notification, the receive it triggers, and the start of the walk. */
  lemma TriggerSteps(w: World, p: string, v: nat, r: Record, lastOk: bool, rest: seq<Step>, end: State)
    requires w.paths == {p} && IsRun(w, Fresh(v, p, v, r, Walking(map[p := Todo]), [], {}, lastOk), rest, end)
    ensures IsRun(w, Fresh(v, p, v, r, Idle, [], {p}, lastOk), [Notify({p})] + ([Receive] + ([StartWalk] + rest)), end)
  {
    var queued := Fresh(v, p, v, r, Idle, [{p}], {}, lastOk);
    var drained := Fresh(v, p, v, r, Draining, [], {}, lastOk);
    assert (map q | q in w.paths :: Todo) == map[p := Todo];
    Start(w, drained, StartWalk, rest, end);
    assert [{p}][1..] == [];
    Start(w, queued, Receive, [StartWalk] + rest, end);
    assert {p} - {p} == {};
    Start(w, Fresh(v, p, v, r, Idle, [], {p}, lastOk), Notify({p}), [Receive] + ([StartWalk] + rest), end);
  }

  lemma VisitStep(w: World, s: State, p: string, from: Visit, to: Visit)
    requires s.phase == Walking(map[p := from])
    ensures Visiting(s, p, to) == s.(phase := Walking(map[p := to]))
  {
    assert map[p := from][p := to] == map[p := to];
  }

  /** Edits are lost in two ways. First: a failed cycle used up its trigger,
      and the loop rests over an old record until something else is edited. */
  lemma FailedCycleLosesEdit(w: World, p: string) returns (s: State, steps: seq<Step>, end: State)
    requires w.paths == {p}
    ensures Init(w, s) && IsRun(w, s, steps, end)
    ensures end.phase.Idle? && end.queue == [] && end.unnotified == {} && !end.lastOk
    ensures p in end.disk && p in end.records && end.records[p].content != end.disk[p]
  {
    var was := Record(1, 1);
    end := Fresh(2, p, 2, was, Idle, [], {}, false);
    Start(w, Fresh(2, p, 2, was, Walking(map[p := Todo]), [], {}, false), Fail, [], end);
    TriggerSteps(w, p, 2, was, false, [Fail] + [], end);
    s := Fresh(1, p, 1, was, Idle, [], {}, false);
    EditStep(w, p, 1, was, Idle);
    var rest := [Notify({p})] + ([Receive] + ([StartWalk] + ([Fail] + [])));
    Start(w, s, Edit(p), rest, end);
    steps := [Edit(p)] + rest;
  }

  /** Second: an edit that keeps the size and falls between the read of the text and the
      stamp of the record is stamped as seen, so the cycle it triggers leaves it alone. */
  lemma TornReadLosesEdit(w: World, p: string) returns (s: State, steps: seq<Step>, end: State)
    requires w.paths == {p} && w.alike(p, 2, 3)
    ensures Init(w, s) && IsRun(w, s, steps, end)
    ensures end.phase.Idle? && end.queue == [] && end.unnotified == {} && end.lastOk
    ensures p in end.disk && p in end.records && end.records[p].content != end.disk[p]
  {
    end := Fresh(3, p, 3, Record(2, 3), Idle, [], {}, true);
    var last := SecondCycleLeavesItAlone(w, p, end);
    var torn := TornVisit(w, p, last, end);
    TriggerSteps(w, p, 2, Record(1, 1), false, torn, end);
    s := Fresh(1, p, 1, Record(1, 1), Idle, [], {}, false);
    EditStep(w, p, 1, Record(1, 1), Idle);
    steps := [Notify({p})] + ([Receive] + ([StartWalk] + torn));
    Start(w, s, Edit(p), steps, end);
    steps := [Edit(p)] + steps;
  }

  lemma SecondCycleLeavesItAlone(w: World, p: string, end: State) returns (steps: seq<Step>)
    requires w.paths == {p} && w.alike(p, 2, 3) && end == Fresh(3, p, 3, Record(2, 3), Idle, [], {}, true)
    ensures IsRun(w, Fresh(3, p, 3, Record(2, 3), Idle, [], {p}, true), steps, end)
  {
    var torn := Record(2, 3);
    var seen := Fresh(3, p, 3, torn, Walking(map[p := Done]), [], {}, true);
    Start(w, seen, Finish, [], end);
    var again := Fresh(3, p, 3, torn, Walking(map[p := Todo]), [], {}, true);
    VisitStep(w, again, p, Todo, Done);
    Start(w, again, Look(p), [Finish] + [], end);
    TriggerSteps(w, p, 3, torn, true, [Look(p)] + ([Finish] + []), end);
    steps := [Notify({p})] + ([Receive] + ([StartWalk] + ([Look(p)] + ([Finish] + []))));
  }

  /** The visit during which the file is edited a second time. */
  lemma TornVisit(w: World, p: string, rest: seq<Step>, end: State) returns (steps: seq<Step>)
    requires w.paths == {p} && IsRun(w, Fresh(3, p, 3, Record(2, 3), Idle, [], {p}, true), rest, end)
    ensures IsRun(w, Fresh(2, p, 2, Record(1, 1), Walking(map[p := Todo]), [], {}, false), steps, end)
  {
    var was, torn := Record(1, 1), Record(2, 3);
    Start(w, Fresh(3, p, 3, torn, Walking(map[p := Done]), [], {p}, false), Finish, rest, end);
    steps := [Finish] + rest;
    var edited := Fresh(3, p, 3, was, Walking(map[p := Holding(2)]), [], {p}, false);
    VisitStep(w, edited, p, Holding(2), Done);
    assert map[p := was][p := torn] == map[p := torn];
    Start(w, edited, Stamp(p), steps, end);
    steps := [Stamp(p)] + steps;
    EditStep(w, p, 2, was, Walking(map[p := Holding(2)]));
    var held := Fresh(2, p, 2, was, Walking(map[p := Holding(2)]), [], {}, false);
    Start(w, held, Edit(p), steps, end);
    steps := [Edit(p)] + steps;
    steps := ReadSteps(w, p, steps, end);
  }

  lemma ReadSteps(w: World, p: string, rest: seq<Step>, end: State) returns (steps: seq<Step>)
    requires IsRun(w, Fresh(2, p, 2, Record(1, 1), Walking(map[p := Holding(2)]), [], {}, false), rest, end)
    ensures IsRun(w, Fresh(2, p, 2, Record(1, 1), Walking(map[p := Todo]), [], {}, false), steps, end)
  {
    var found := Fresh(2, p, 2, Record(1, 1), Walking(map[p := Extract]), [], {}, false);
    VisitStep(w, found, p, Extract, Holding(2));
    Start(w, found, ReadText(p), rest, end);
    var todo := Fresh(2, p, 2, Record(1, 1), Walking(map[p := Todo]), [], {}, false);
    VisitStep(w, todo, p, Todo, Extract);
    Start(w, todo, Look(p), [ReadText(p)] + rest, end);
    steps := [Look(p)] + ([ReadText(p)] + rest);
  }

  // ----- the loop comes to rest ------------------------------------------------------------

  predicate OfLoop(e: Step) { !e.Edit? && !e.Delete? && !e.Notify? }

  function Todos(visits: map<string, Visit>): set<string> { set p | p in visits && visits[p].Todo? }

  function Unread(visits: map<string, Visit>): set<string> { set p | p in visits && (visits[p].Todo? || visits[p].Extract?) }

  function Unfinished(visits: map<string, Visit>): set<string> { set p | p in visits && !visits[p].Done? }

  function Work(w: World, phase: Phase): nat
  {
    match phase
    case Idle => 0
    case Draining => 3 * |w.paths| + 2
    case Walking(visits) => 1 + |Todos(visits)| + |Unread(visits)| + |Unfinished(visits)|
  }

  lemma Shrinks(a: set<string>, b: set<string>)
    requires a <= b
    ensures |a| <= |b| && (a != b ==> |a| < |b|)
  {
    assert b == a + (b - a);
    assert a != b ==> b - a != {};
  }

  lemma VisitShrinks(visits: map<string, Visit>, p: string, v: Visit)
    requires p in visits
    requires match visits[p]
             case Todo => !v.Todo?
             case Extract => v.Holding? || v.Done?
             case Done => false
             case _ => v.Done?
    ensures var after := visits[p := v];
            |Todos(after)| + |Unread(after)| + |Unfinished(after)| < |Todos(visits)| + |Unread(visits)| + |Unfinished(visits)|
  {
    var after := visits[p := v];
    Shrinks(Todos(after), Todos(visits));
    Shrinks(Unread(after), Unread(visits));
    Shrinks(Unfinished(after), Unfinished(visits));
    assert visits[p].Todo? ==> p in Todos(visits) && p !in Todos(after);
    assert visits[p].Extract? ==> p in Unread(visits) && p !in Unread(after);
    assert visits[p].Drop? || visits[p].Holding? ==> p in Unfinished(visits) && p !in Unfinished(after);
  }

  /** Every step of the loop takes a batch off the queue or does part of the work at hand. */
  lemma LoopStepsDecrease(w: World, s: State, e: Step)
    requires Inv(w, s) && Enabled(w, s, e) && OfLoop(e)
    ensures var t := Apply(w, s, e);
            |t.queue| < |s.queue| || (|t.queue| == |s.queue| && Work(w, t.phase) < Work(w, s.phase))
  {
    match e
    case StartWalk =>
      var visits := map p | p in w.paths :: Todo;
      assert Todos(visits) == w.paths && Unread(visits) == w.paths && Unfinished(visits) == w.paths;
    case Look(p) => VisitShrinks(s.phase.visits, p, Verdict(w, s, p));
    case ReadText(p) => VisitShrinks(s.phase.visits, p, if p in s.disk then Holding(s.disk[p]) else Done);
    case Stamp(p) => VisitShrinks(s.phase.visits, p, Done);
    case DropRecord(p) => VisitShrinks(s.phase.visits, p, Done);
    case _ =>
  }

  /** And as long as there is a batch to take or work at hand, it has a step to make that
      is not a failure. */
  lemma LoopNeverSticks(w: World, s: State) returns (e: Step)
    requires Inv(w, s) && !(s.phase.Idle? && s.queue == [])
    ensures Enabled(w, s, e) && OfLoop(e) && !e.Fail?
  {
    match s.phase
    case Idle => e := Receive;
    case Draining => e := if s.queue == [] then StartWalk else DrainOne;
    case Walking(visits) =>
      if p :| p in visits && visits[p] != Done {
        e := match visits[p] case Todo => Look(p) case Extract => ReadText(p) case Drop => DropRecord(p) case _ => Stamp(p);
      } else {
        e := Finish;
      }
  }
}
