/** Threads sharing one repository. Each statement is a separate step; the lock brackets every
    use of the connection. Every interleaving is the serial run in lock order. */
module Locking {
  import opened Text
  import opened Calendar
  import opened Events
  import opened Serialization
  import opened Reference
  import opened SqlTable
  import opened SqlRepository

  type Tid = nat

  /** Where a thread stands in a repository call. The clock is read before the lock is taken, so
      a waiting upsert already carries its time. */
  datatype Phase =
    | Outside
    | Waiting(op: Op)
    | Running(op: Op, done: nat, counts: Counts, seen: Option<Option<Row>>)
    | Leaving(reply: Reply)

  /** A finished call, in the order in which calls finished. */
  datatype Entry = Entry(tid: Tid, op: Op, reply: Reply)

  datatype State = State(
    committed: Table, working: Table, holder: Option<Tid>, phases: map<Tid, Phase>,
    acquired: seq<Tid>, log: seq<Entry>)

  datatype Step =
    | Call(tid: Tid, op: Op)
    | Acquire(tid: Tid)
    | Look(tid: Tid)
    | Write(tid: Tid)
    | Raise(tid: Tid)
    | Commit(tid: Tid)
    | Read(tid: Tid)
    | RaiseRead(tid: Tid)
    | Release(tid: Tid)

  function PhaseOf(s: State, t: Tid): Phase {
    if t in s.phases then s.phases[t] else Outside
  }

  /** The write that follows a SELECT, decided by the row that the SELECT saw. Inserting an id
      that is present violates the primary key. */
  function WriteSeen(t: Table, seen: Option<Row>, e: Event, now: Instant): Option<(Table, Change)> {
    var digest := ContentHash(e);
    if seen.None? then
      if e.id in t then None else Some((t[e.id := MakeRow(e, now, now, digest)], Inserted))
    else if seen.value.contentHash == digest then
      Some((t, Unchanged))
    else
      var prior :- ParseInstant(seen.value.ingestedAt);
      Some((t[e.id := MakeRow(e, prior, now, digest)], Updated))
  }

  predicate Enabled(s: State, step: Step) {
    var p := PhaseOf(s, step.tid);
    match step
    case Call(_, _) => p.Outside?
    case Acquire(_) => p.Waiting? && s.holder.None?
    case Look(_) => p.Running? && p.op.OpUpsert? && p.done < |p.op.events| && p.seen.None?
    case Write(_) =>
      && p.Running? && p.op.OpUpsert? && p.done < |p.op.events| && p.seen.Some?
      && WriteSeen(s.working, p.seen.value, p.op.events[p.done], p.op.now).Some?
    case Raise(_) => p.Running? && p.op.OpUpsert? && p.done <= |p.op.events|
    case Commit(_) => p.Running? && p.op.OpUpsert? && p.done == |p.op.events|
    case Read(_) | RaiseRead(_) => p.Running? && !p.op.OpUpsert?
    case Release(_) => p.Leaving?
  }

  function Moved(s: State, t: Tid, p: Phase): State {
    s.(phases := s.phases[t := p])
  }

  function Finished(s: State, t: Tid, op: Op, reply: Reply): State {
    Moved(s, t, Leaving(reply)).(log := s.log + [Entry(t, op, reply)])
  }

  ghost function Take(d: Dialect, s: State, step: Step): State
    requires Enabled(s, step) && ValidTable(s.working)
  {
    var t := step.tid;
    var p := PhaseOf(s, t);
    match step
    case Call(_, op) => Moved(s, t, Waiting(op))
    case Acquire(_) =>
      Moved(s, t, Running(p.op, 0, Counts(0, 0, 0), None)).(holder := Some(t), acquired := s.acquired + [t])
    case Look(_) => Moved(s, t, p.(seen := Some(Lookup(s.working, p.op.events[p.done].id))))
    case Write(_) =>
      var w := WriteSeen(s.working, p.seen.value, p.op.events[p.done], p.op.now).value;
      Moved(s, t, Running(p.op, p.done + 1, Tally(p.counts, w.1), None)).(working := w.0)
    case Raise(_) => Finished(s, t, p.op.(fault := Some(p.done)), Error).(working := s.committed)
    case Commit(_) => Finished(s, t, p.op.(fault := None), Counted(p.counts)).(committed := s.working)
    case Read(_) => Finished(s, t, p.op, SqlStep(d, s.working, p.op).1)
    case RaiseRead(_) => Finished(s, t, OpFailedRead, Error)
    case Release(_) => Moved(s, t, Outside).(holder := None)
  }

  // ----- the serial run ------------------------------------------------------------

  function LogOps(log: seq<Entry>): (ops: seq<Op>)
    ensures |ops| == |log| && forall i :: 0 <= i < |log| ==> ops[i] == log[i].op
  {
    if log == [] then [] else LogOps(log[..|log| - 1]) + [log[|log| - 1].op]
  }

  function LogReplies(log: seq<Entry>): (rs: seq<Reply>)
    ensures |rs| == |log| && forall i :: 0 <= i < |log| ==> rs[i] == log[i].reply
  {
    if log == [] then [] else LogReplies(log[..|log| - 1]) + [log[|log| - 1].reply]
  }

  function LogTids(log: seq<Entry>): (ts: seq<Tid>)
    ensures |ts| == |log| && forall i :: 0 <= i < |log| ==> ts[i] == log[i].tid
  {
    if log == [] then [] else LogTids(log[..|log| - 1]) + [log[|log| - 1].tid]
  }

  ghost predicate AllRegular(ops: seq<Op>) {
    forall i :: 0 <= i < |ops| ==> Regular(ops[i])
  }

  lemma {:induction false} SqlRunSnoc(d: Dialect, t: Table, ops: seq<Op>, op: Op)
    requires ValidTable(t) && AllRegular(ops) && Regular(op)
    ensures AllRegular(ops + [op])
    ensures var (t1, rs) := SqlRun(d, t, ops);
            var (t2, r) := SqlStep(d, t1, op);
            SqlRun(d, t, ops + [op]) == (t2, rs + [r])
    decreases |ops|
  {
    hide ValidTable, SqlStep, Regular;
    if ops == [] {
      assert ops + [op] == [op] && [op][1..] == [];
      StepRefines(d, t, op);
      var r := SqlStep(d, t, op).1;
      assert [] + [r] == [r] + [];
    } else {
      StepRefines(d, t, ops[0]);
      var t1 := SqlStep(d, t, ops[0]).0;
      SqlRunSnoc(d, t1, ops[1..], op);
      assert (ops + [op])[0] == ops[0] && (ops + [op])[1..] == ops[1..] + [op];
      assert AllRegular(ops[1..]);
      var (t2, rs) := SqlRun(d, t1, ops[1..]);
      var r0, r := SqlStep(d, t, ops[0]).1, SqlStep(d, t2, op).1;
      assert [r0] + (rs + [r]) == ([r0] + rs) + [r];
    }
  }

  // ----- invariant -----------------------------------------------------------------

  predicate Inside(p: Phase) {
    p.Running? || p.Leaving?
  }

  predicate MidBatch(p: Phase) {
    p.Running? && p.op.OpUpsert?
  }

  /** Nobody is inside the lock without holding it. */
  ghost predicate Exclusive(s: State) {
    forall t: Tid :: Inside(PhaseOf(s, t)) <==> s.holder == Some(t)
  }

  ghost predicate PhaseRegular(p: Phase) {
    (p.Waiting? || p.Running?) ==> Regular(p.op)
  }

  /** The open transaction is a prefix of the holder's batch, applied to the committed table. */
  ghost predicate BatchState(s: State, p: Phase)
    requires MidBatch(p)
  {
    && p.done <= |p.op.events|
    && SqlUpsertAll(s.committed, p.op.events[..p.done], p.op.now) == Some((s.working, p.counts))
    && (p.seen.Some? ==> p.done < |p.op.events| && p.seen.value == Lookup(s.working, p.op.events[p.done].id))
  }

  ghost predicate Transaction(s: State) {
    if s.holder.Some? && MidBatch(PhaseOf(s, s.holder.value)) then
      BatchState(s, PhaseOf(s, s.holder.value))
    else
      s.working == s.committed
  }

  /** The committed table and all replies are those of running the logged calls one by one. */
  ghost predicate Serial(d: Dialect, start: Table, s: State)
    requires ValidTable(start)
  {
    AllRegular(LogOps(s.log)) && SqlRun(d, start, LogOps(s.log)) == (s.committed, LogReplies(s.log))
  }

  /** Calls finish in the order in which they took the lock. */
  ghost predicate InLockOrder(s: State) {
    s.acquired == LogTids(s.log)
                  + (if s.holder.Some? && PhaseOf(s, s.holder.value).Running? then [s.holder.value] else [])
  }

  ghost predicate Inv(d: Dialect, start: Table, s: State)
    requires ValidTable(start)
  {
    && ValidTable(s.committed) && ValidTable(s.working)
    && Exclusive(s)
    && (forall t: Tid :: PhaseRegular(PhaseOf(s, t)))
    && Transaction(s)
    && Serial(d, start, s)
    && InLockOrder(s)
  }

  function Initial(start: Table): State {
    State(start, start, None, map[], [], [])
  }

  lemma InitialInv(d: Dialect, start: Table)
    requires ValidTable(start)
    ensures Inv(d, start, Initial(start))
  {
    hide ValidTable, SqlUpsertAll, Regular;
    var s := Initial(start);
    assert LogOps(s.log) == [] && LogReplies(s.log) == [] && LogTids(s.log) == [];
  }

  // ----- preservation, step by step ------------------------------------------------

  lemma WriteSeenIsUpsertOne(t: Table, e: Event, now: Instant)
    ensures WriteSeen(t, Lookup(t, e.id), e, now) == SqlUpsertOne(t, e, now)
  {
    hide ContentHash, MakeRow, ParseInstant;
  }

  lemma PrefixStep(t: Table, events: seq<Event>, k: nat, now: Instant)
    requires k < |events|
    ensures var front := SqlUpsertAll(t, events[..k], now);
            SqlUpsertAll(t, events[..k + 1], now) ==
              if front.None? then None
              else
                var last := SqlUpsertOne(front.value.0, events[k], now);
                if last.None? then None else Some((last.value.0, Tally(front.value.1, last.value.1)))
  {
    hide SqlUpsertOne;
    assert events[..k + 1][..k] == events[..k] && events[..k + 1][k] == events[k];
  }

  /** The write goes through and makes the open transaction one entry longer. */
  lemma WriteExtendsBatch(s: State, p: Phase)
    requires ValidTable(s.working) && MidBatch(p) && Regular(p.op) && BatchState(s, p) && p.seen.Some?
    ensures var w := WriteSeen(s.working, p.seen.value, p.op.events[p.done], p.op.now);
            && w.Some? && ValidTable(w.value.0)
            && SqlUpsertAll(s.committed, p.op.events[..p.done + 1], p.op.now)
               == Some((w.value.0, Tally(p.counts, w.value.1)))
  {
    hide ValidTable, WriteSeen, SqlUpsertOne, SqlUpsertAll;
    var e := p.op.events[p.done];
    WriteSeenIsUpsertOne(s.working, e, p.op.now);
    PrefixStep(s.committed, p.op.events, p.done, p.op.now);
    UpsertOneRefines(s.working, e, p.op.now);
  }

  lemma WriteKeeps(d: Dialect, start: Table, s: State, step: Step)
    requires ValidTable(start) && Inv(d, start, s) && Enabled(s, step) && step.Write?
    ensures Inv(d, start, Take(d, s, step))
  {
    hide ValidTable, WriteSeen, SqlUpsertAll, SqlRun, LogOps, LogReplies, LogTids, Regular;
    var p := PhaseOf(s, step.tid);
    assert Inside(p) && PhaseRegular(p);
    WriteExtendsBatch(s, p);
    var next := Take(d, s, step);
    assert Exclusive(next) && InLockOrder(next);
  }

  lemma BookKeeping(d: Dialect, start: Table, s: State, t: Tid, op: Op, reply: Reply)
    requires ValidTable(start) && Serial(d, start, s) && Regular(op) && ValidTable(s.committed)
    ensures AllRegular(LogOps(s.log + [Entry(t, op, reply)]))
    ensures SqlRun(d, start, LogOps(s.log + [Entry(t, op, reply)]))
         == (SqlStep(d, s.committed, op).0, LogReplies(s.log) + [SqlStep(d, s.committed, op).1])
    ensures LogReplies(s.log + [Entry(t, op, reply)]) == LogReplies(s.log) + [reply]
    ensures LogTids(s.log + [Entry(t, op, reply)]) == LogTids(s.log) + [t]
  {
    hide ValidTable, SqlStep, SqlRun, Regular;
    assert LogOps(s.log + [Entry(t, op, reply)]) == LogOps(s.log) + [op];
    SqlRunSnoc(d, start, LogOps(s.log), op);
  }

  lemma RaiseKeeps(d: Dialect, start: Table, s: State, step: Step)
    requires ValidTable(start) && Inv(d, start, s) && Enabled(s, step) && step.Raise?
    ensures Inv(d, start, Take(d, s, step))
  {
    hide ValidTable, SqlUpsertAll, SqlRun, LogOps, LogReplies, LogTids;
    var p := PhaseOf(s, step.tid);
    assert Inside(p) && PhaseRegular(p);
    BookKeeping(d, start, s, step.tid, p.op.(fault := Some(p.done)), Error);
    var next := Take(d, s, step);
    assert Exclusive(next) && InLockOrder(next);
  }

  lemma CommitKeeps(d: Dialect, start: Table, s: State, step: Step)
    requires ValidTable(start) && Inv(d, start, s) && Enabled(s, step) && step.Commit?
    ensures Inv(d, start, Take(d, s, step))
  {
    hide ValidTable, SqlUpsertAll, SqlRun, LogOps, LogReplies, LogTids;
    var p := PhaseOf(s, step.tid);
    assert Inside(p) && PhaseRegular(p);
    assert p.op.events[..|p.op.events|] == p.op.events;
    BookKeeping(d, start, s, step.tid, p.op.(fault := None), Counted(p.counts));
    var next := Take(d, s, step);
    assert Exclusive(next) && InLockOrder(next);
  }

  lemma ReadKeeps(d: Dialect, start: Table, s: State, step: Step)
    requires ValidTable(start) && Inv(d, start, s) && Enabled(s, step) && step.Read?
    ensures Inv(d, start, Take(d, s, step))
  {
    hide ValidTable, SqlUpsertAll, SqlRun, LogOps, LogReplies, LogTids, SqlQuery, SqlGet, SqlMax;
    var p := PhaseOf(s, step.tid);
    assert Inside(p) && PhaseRegular(p);
    BookKeeping(d, start, s, step.tid, p.op, SqlStep(d, s.working, p.op).1);
    var next := Take(d, s, step);
    assert Exclusive(next) && InLockOrder(next);
  }

  lemma RaiseReadKeeps(d: Dialect, start: Table, s: State, step: Step)
    requires ValidTable(start) && Inv(d, start, s) && Enabled(s, step) && step.RaiseRead?
    ensures Inv(d, start, Take(d, s, step))
  {
    hide ValidTable, SqlUpsertAll, SqlRun, LogOps, LogReplies, LogTids, SqlQuery, SqlGet, SqlMax;
    assert Inside(PhaseOf(s, step.tid));
    BookKeeping(d, start, s, step.tid, OpFailedRead, Error);
    var next := Take(d, s, step);
    assert Exclusive(next) && InLockOrder(next);
  }

  lemma AcquireKeeps(d: Dialect, start: Table, s: State, step: Step)
    requires ValidTable(start) && Inv(d, start, s) && Enabled(s, step) && step.Acquire?
    ensures Inv(d, start, Take(d, s, step))
  {
    hide ValidTable, SqlRun, LogOps, LogReplies, LogTids, Regular, SqlUpsertOne;
    var p := PhaseOf(s, step.tid);
    assert PhaseRegular(p);
    assert p.op.OpUpsert? ==> p.op.events[..0] == [];
    var next := Take(d, s, step);
    assert Exclusive(next) && InLockOrder(next);
  }

  lemma LookKeeps(d: Dialect, start: Table, s: State, step: Step)
    requires ValidTable(start) && Inv(d, start, s) && Enabled(s, step) && step.Look?
    ensures Inv(d, start, Take(d, s, step))
  {
    hide ValidTable, SqlRun, SqlUpsertAll, LogOps, LogReplies, LogTids, Regular;
    assert Inside(PhaseOf(s, step.tid)) && PhaseRegular(PhaseOf(s, step.tid));
    var next := Take(d, s, step);
    assert Exclusive(next) && InLockOrder(next);
  }

  lemma OuterStepsKeep(d: Dialect, start: Table, s: State, step: Step)
    requires ValidTable(start) && Inv(d, start, s) && Enabled(s, step)
    requires step.Release? || (step.Call? && Regular(step.op))
    ensures Inv(d, start, Take(d, s, step))
  {
    hide ValidTable, SqlRun, SqlUpsertAll, LogOps, LogReplies, LogTids, Regular;
    assert Inside(PhaseOf(s, step.tid)) <==> s.holder == Some(step.tid);
    var next := Take(d, s, step);
    assert Exclusive(next) && InLockOrder(next);
  }

  lemma StepKeeps(d: Dialect, start: Table, s: State, step: Step)
    requires ValidTable(start) && Inv(d, start, s) && Enabled(s, step)
    requires step.Call? ==> Regular(step.op)
    ensures Inv(d, start, Take(d, s, step))
  {
    hide Inv, Take, Regular;
    match step
    case Write(_) => WriteKeeps(d, start, s, step);
    case Raise(_) => RaiseKeeps(d, start, s, step);
    case Commit(_) => CommitKeeps(d, start, s, step);
    case Read(_) => ReadKeeps(d, start, s, step);
    case RaiseRead(_) => RaiseReadKeeps(d, start, s, step);
    case Acquire(_) => AcquireKeeps(d, start, s, step);
    case Look(_) => LookKeeps(d, start, s, step);
    case _ => OuterStepsKeep(d, start, s, step);
  }

  /** What a SELECT saw still holds when its write comes: an INSERT never finds the id taken, and an
      UPDATE always reads a prior ingest time. So no thread is ever stuck before its write. */
  lemma WriteNeverBlocked(d: Dialect, start: Table, s: State, t: Tid)
    requires ValidTable(start) && Inv(d, start, s)
    requires MidBatch(PhaseOf(s, t)) && PhaseOf(s, t).seen.Some?
    ensures Enabled(s, Write(t))
  {
    hide ValidTable, WriteSeen, SqlUpsertAll, SqlRun, LogOps, LogReplies, LogTids, Regular;
    var p := PhaseOf(s, t);
    assert Inside(p) && PhaseRegular(p);
    WriteExtendsBatch(s, p);
  }

  /** Unless the world raises, nobody waits in vain: whoever is in a call can move, or the holder
      of the lock can. */
  lemma NobodyIsStuck(d: Dialect, start: Table, s: State, t: Tid)
    requires ValidTable(start) && Inv(d, start, s) && !PhaseOf(s, t).Outside?
    ensures exists step :: Enabled(s, step) && !step.Call? && !step.Raise? && !step.RaiseRead?
                           && (step.tid == t || s.holder == Some(step.tid))
  {
    hide ValidTable, WriteSeen, Serial, InLockOrder, SqlUpsertAll;
    if s.holder.None? {
      assert PhaseOf(s, t).Waiting?;
      assert Enabled(s, Acquire(t));
    } else {
      var u := s.holder.value;
      var p := PhaseOf(s, u);
      assert Inside(p);
      if p.Leaving? {
        assert Enabled(s, Step.Release(u));
      } else if !p.op.OpUpsert? {
        assert Enabled(s, Read(u));
      } else if p.seen.Some? {
        WriteNeverBlocked(d, start, s, u);
        assert Enabled(s, Write(u));
      } else if p.done < |p.op.events| {
        assert Enabled(s, Look(u));
      } else {
        assert Enabled(s, Commit(u));
      }
    }
  }

  // ----- all interleavings ---------------------------------------------------------

  /** `steps` is an execution of the shared repository from `s`, ending in `last`. */
  ghost predicate Execution(d: Dialect, s: State, steps: seq<Step>, last: State)
    decreases |steps|
  {
    if steps == [] then s == last
    else
      && Enabled(s, steps[0]) && ValidTable(s.working)
      && (steps[0].Call? ==> Regular(steps[0].op))
      && Execution(d, Take(d, s, steps[0]), steps[1..], last)
  }

  lemma {:induction false} ExecutionKeepsInv(d: Dialect, start: Table, s: State, steps: seq<Step>, last: State)
    requires ValidTable(start) && Inv(d, start, s) && Execution(d, s, steps, last)
    ensures Inv(d, start, last)
    decreases |steps|
  {
    hide Inv, Take, Enabled;
    if steps == [] {
    } else {
      StepKeeps(d, start, s, steps[0]);
      ExecutionKeepsInv(d, start, Take(d, s, steps[0]), steps[1..], last);
    }
  }

  /** Whatever the interleaving: at most one thread is inside, the committed events and every
      reply are those of the reference running the finished calls one at a time in lock order,
      and calls that raised, writing or reading, count as calls that did nothing. */
  lemma EveryInterleavingIsSerial(d: Dialect, start: Table, steps: seq<Step>, last: State)
    requires ValidTable(start) && Execution(d, Initial(start), steps, last)
    ensures forall t, u: Tid :: Inside(PhaseOf(last, t)) && Inside(PhaseOf(last, u)) ==> t == u
    ensures AllRegular(LogOps(last.log)) && ValidTable(last.committed)
    ensures (Decoded(last.committed), LogReplies(last.log)) == RefRun(Decoded(start), NormalOps(LogOps(last.log)))
    ensures LogTids(last.log) <= last.acquired
  {
    hide ValidTable, SqlRun, RefRun, Decoded, Regular;
    InitialInv(d, start);
    ExecutionKeepsInv(d, start, Initial(start), steps, last);
    RunRefines(d, start, LogOps(last.log));
  }
}
