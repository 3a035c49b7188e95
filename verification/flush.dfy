/** The store's write-behind engine: the `_dirty` flag, the debounce timer
    (`_writeTimer`) and `_writeInProgress`, as a state machine over a generic
    document type `D`. A physical write is an event: it starts with a snapshot
    of the document (the serialisation happens before the first suspension
    point) and later completes, successfully or by throwing. */
module FlushEngine {
  import opened Wrappers

  /** `Idle`: no write in progress. `Writing`: a write of `snapshot` is in
      flight. `Stuck`: a write threw, and `_writeInProgress` was never reset. */
  datatype WriteState<D> = Idle | Writing(snapshot: D) | Stuck

  /** `timers` counts pending debounce timers; `durable` is the document of
      the last successful write, if any. */
  datatype Engine<D> = Engine(dirty: bool, timers: nat, write: WriteState<D>, durable: Option<D>)
  {
    predicate WriteInProgress() {
      !write.Idle?
    }
  }

  /** A freshly constructed store: clean, no timer, nothing written. */
  function Fresh<D>(): Engine<D> {
    Engine(false, 0, Idle, None)
  }

  /** `_scheduleFlush`: mark dirty and arm the debounce timer unless one is pending. */
  function ScheduleFlush<D>(e: Engine<D>): (r: Engine<D>)
    ensures r.dirty
    ensures r.timers == (if e.timers == 0 then 1 else e.timers)
    ensures r.write == e.write && r.durable == e.durable
  {
    if e.timers > 0 then e.(dirty := true) else e.(dirty := true, timers := 1)
  }

  /** `_flush(force)`: a no-op while a write is in flight (even when forced)
      and when clean and not forced; otherwise clear the dirty flag and start
      writing `doc`. */
  function Flush<D>(e: Engine<D>, force: bool, doc: D): (r: Engine<D>)
    ensures e.WriteInProgress() ==> r == e
    ensures !e.dirty && !force ==> r == e
    ensures !e.WriteInProgress() && (e.dirty || force) ==>
      !r.dirty && r.write == Writing(doc) && r.timers == e.timers && r.durable == e.durable
  {
    if e.WriteInProgress() then e
    else if !e.dirty && !force then e
    else e.(dirty := false, write := Writing(doc))
  }

  /** The debounce timer fires: it clears itself and runs a non-forced flush. */
  function TimerFires<D>(e: Engine<D>, doc: D): (r: Engine<D>)
    requires e.timers > 0
    ensures r.timers == e.timers - 1 && r.durable == e.durable
    ensures !e.WriteInProgress() && e.dirty ==> r.write == Writing(doc) && !r.dirty
    ensures e.WriteInProgress() || !e.dirty ==> r.write == e.write && r.dirty == e.dirty
  {
    Flush(e.(timers := e.timers - 1), false, doc)
  }

  /** `close()`: a forced flush. */
  function Close<D>(e: Engine<D>, doc: D): (r: Engine<D>)
    ensures e.WriteInProgress() ==> r == e
    ensures !e.WriteInProgress() ==> r.write == Writing(doc) && !r.dirty
  {
    Flush(e, true, doc)
  }

  /** The in-flight write completes as the code is written: `_writeInProgress`
      is reset after a successful write and never after a failed one; nothing
      looks at `_dirty` again. */
  function WriteDoneAsWritten<D>(e: Engine<D>, ok: bool): (r: Engine<D>)
    requires e.write.Writing?
    ensures r.dirty == e.dirty && r.timers == e.timers
    ensures ok ==> r.write == Idle && r.durable == Some(e.write.snapshot)
    ensures !ok ==> r.write == Stuck && r.durable == e.durable
  {
    if ok then e.(write := Idle, durable := Some(e.write.snapshot)) else e.(write := Stuck)
  }

  /** The in-flight write completes, with the follow-up the debounce design
      promises: a successful write re-arms the timer when mutations arrived
      while it was in flight. A failed write is as in the code. */
  function WriteDone<D>(e: Engine<D>, ok: bool): (r: Engine<D>)
    requires e.write.Writing?
    ensures r.dirty == e.dirty
    ensures ok ==> r.write == Idle && r.durable == Some(e.write.snapshot)
    ensures ok && e.dirty ==> r.timers >= 1
    ensures !ok ==> r == WriteDoneAsWritten(e, ok)
  {
    var done := WriteDoneAsWritten(e, ok);
    if ok && e.dirty then ScheduleFlush(done) else done
  }

  /* ---------------- Invariants ---------------- */

  /** At most one debounce timer is pending, and pending changes are never
      stranded: a dirty engine has a timer armed or a write actually in
      flight (a stuck engine writes nothing, so it does not count). */
  predicate Live<D>(e: Engine<D>) {
    && e.timers <= 1
    && (e.dirty ==> e.timers >= 1 || e.write.Writing?)
  }

  /** Every transition of an engine that is not stuck keeps it live, with the
      corrected completion of a successful write. */
  lemma LiveIsPreserved<D>(e: Engine<D>, doc: D, force: bool, ok: bool)
    requires Live(e) && !e.write.Stuck?
    ensures Live(ScheduleFlush(e))
    ensures Live(Flush(e, force, doc))
    ensures Live(Close(e, doc))
    ensures e.timers > 0 ==> Live(TimerFires(e, doc))
    ensures e.write.Writing? && ok ==> Live(WriteDone(e, ok))
  {
  }

  /** A failed write strands the next change: the engine is stuck, and once
      the change's timer has fired it is dirty with no timer and no write. */
  lemma FailureStrands<D>(e: Engine<D>, doc: D)
    requires e.write.Writing? && e.timers == 0
    ensures
      var s := TimerFires(ScheduleFlush(WriteDone(e, false)), doc);
      s.dirty && s.timers == 0 && s.write.Stuck? && !Live(s)
  {
  }

  /** Once a write has failed no later flush starts a write, forced or not. */
  lemma {:induction false} StuckForever<D>(e: Engine<D>, doc: D, force: bool)
    requires e.write.Stuck?
    ensures Flush(e, force, doc) == e
    ensures ScheduleFlush(e).write.Stuck?
    ensures Close(e, doc) == e
  {
  }

  /** The code as written strands changes: a mutation during a write whose
      debounce timer fires before the write completes leaves the engine dirty,
      idle and without a timer, so no flush ever runs for it. */
  lemma StrandedAsWritten()
    ensures
      var e0: Engine<int> := Fresh();
      var e1 := ScheduleFlush(e0);          // set(...) at t
      var e2 := TimerFires(e1, 1);          // t + 50 ms: write of document 1 starts
      var e3 := ScheduleFlush(e2);          // set(...) while writing
      var e4 := TimerFires(e3, 2);          // t' + 50 ms: write still in flight, no-op
      var e5 := WriteDoneAsWritten(e4, true);
      Live(e0) && e5.dirty && e5.timers == 0 && e5.write.Idle? && !Live(e5)
  {
  }

  /** The corrected completion re-arms the timer in the same trace, and the
      next timer writes the latest document. */
  lemma FollowUpFlush()
    ensures
      var e0: Engine<int> := Fresh();
      var e1 := ScheduleFlush(e0);
      var e2 := TimerFires(e1, 1);
      var e3 := ScheduleFlush(e2);
      var e4 := TimerFires(e3, 2);
      var e5 := WriteDone(e4, true);
      Live(e5) && e5.timers == 1 && TimerFires(e5, 2).write == Writing(2)
  {
  }
}
