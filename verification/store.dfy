/** SecureStore: an in-memory document addressed by dotted paths, with
    debounced write-behind persistence. Encryption and the file are outside
    the model; a physical write is the engine's write event. */
module SecureStore {
  import opened Wrappers
  import opened Json
  import opened Path
  import FE = FlushEngine

  type Doc = map<string, J>

  datatype Store = Store(data: Doc, engine: FE.Engine<Doc>)
  {
    function Root(): J {
      JObj(data)
    }
  }

  /** The store after `_init`. With no backing file (or an empty one), a fresh
      store is written once, forced, before it becomes ready; a failure of that
      write fails initialisation. With a file, its decrypted document is loaded. */
  function Open(existing: Option<Doc>, writeOk: bool): (r: Result<Store, string>)
    ensures existing.Some? ==> r == Success(Store(existing.value, FE.Engine(false, 0, FE.Idle, existing)))
    ensures existing.None? && writeOk ==> r == Success(Store(map[], FE.Engine(false, 0, FE.Idle, Some(map[]))))
    ensures existing.None? && !writeOk ==> r.Failure?
  {
    match existing
    case Some(d) => Success(Store(d, FE.Engine(false, 0, FE.Idle, Some(d))))
    case None =>
      var writing := FE.Close(FE.Fresh<Doc>(), map[]);
      if writeOk then Success(Store(map[], FE.WriteDone(writing, true)))
      else Failure("initial write failed")
  }

  /** `get(path)`. A path without a dot reads a top-level key of the document. */
  function Get(st: Store, path: string): (r: Option<J>)
    ensures NoDot(path) ==> r == if path in st.data then Some(st.data[path]) else None
  {
    GetPathOne(st.Root(), path);
    GetPath(st.Root(), Split(path))
  }

  /** `has(path)`: whether `get(path)` is defined. */
  function Has(st: Store, path: string): (r: bool)
    ensures r <==> Get(st, path).Some?
  {
    GetPath(st.Root(), Split(path)) != None
  }

  /** Whether a write to `path` lands in the JSON form of the document. */
  predicate CanWrite(st: Store, path: string) {
    Writable(st.Root(), Split(path))
  }

  /** `setByPath` on the root object. */
  function Write(st: Store, path: string, v: J): (r: Store)
    ensures r.engine == st.engine
    ensures CanWrite(st, path) ==> Get(r, path) == Some(v)
  {
    var root := SetPath(st.Root(), Split(path), v);
    WriteLands(st, path, v);
    st.(data := root.fields)
  }

  lemma WriteLands(st: Store, path: string, v: J)
    ensures CanWrite(st, path) ==> GetPath(SetPath(st.Root(), Split(path), v), Split(path)) == Some(v)
  {
    if CanWrite(st, path) {
      GetAfterSet(st.Root(), Split(path), v);
    }
  }

  /** `set(path, value)`: write, schedule a flush, return the value. */
  function Set(st: Store, path: string, v: J): (r: (Store, J))
    ensures r.1 == v
    ensures r.0.engine == FE.ScheduleFlush(st.engine)
    ensures CanWrite(st, path) ==> Get(r.0, path) == Some(v)
  {
    (Write(st, path, v).(engine := FE.ScheduleFlush(st.engine)), v)
  }

  /** `delete(path)`: report whether deleteByPath succeeded, and schedule a
      flush only then. */
  function Delete(st: Store, path: string): (r: (Store, bool))
    ensures r.1 <==> !Blocked(st.Root(), Split(path))
    ensures !r.1 ==> r.0 == st
    ensures r.1 ==> r.0.engine == FE.ScheduleFlush(st.engine)
    ensures r.1 && !LastIsArray(st, path) ==> Get(r.0, path) == None
  {
    var p := Split(path);
    var (root, ok) := DeletePath(st.Root(), p);
    DeleteFalseIffBlocked(st.Root(), p);
    GetAfterDeleteHelper(st, path);
    if ok then
      (Store(root.fields, FE.ScheduleFlush(st.engine)), true)
    else (st, false)
  }

  /** The container holding the last segment of `path` is an array. */
  predicate LastIsArray(st: Store, path: string) {
    var p := Split(path);
    var c := GetPath(st.Root(), p[..|p| - 1]);
    c.Some? && c.value.JArr?
  }

  lemma GetAfterDeleteHelper(st: Store, path: string)
    ensures DeletePath(st.Root(), Split(path)).1 && !LastIsArray(st, path) ==>
      GetPath(DeletePath(st.Root(), Split(path)).0, Split(path)) == None
  {
    if DeletePath(st.Root(), Split(path)).1 && !LastIsArray(st, path) {
      GetAfterDelete(st.Root(), Split(path));
    }
  }

  /** The number stored at `path`, or 0 for anything else (`typeof current === "number"`). */
  function NumberAt(st: Store, path: string): int {
    match Get(st, path)
    case Some(JNum(n)) => n
    case _ => 0
  }

  /** The array stored at `path`, or `[]` for anything else (`Array.isArray`). */
  function ArrayAt(st: Store, path: string): seq<J> {
    match Get(st, path)
    case Some(JArr(s)) => s
    case _ => []
  }

  /** `add(path, amount)`: store and return the current number plus `amount`. */
  function Add(st: Store, path: string, amount: int): (r: (Store, int))
    ensures r.1 == NumberAt(st, path) + amount
    ensures r.0.engine == FE.ScheduleFlush(st.engine)
    ensures CanWrite(st, path) ==> Get(r.0, path) == Some(JNum(r.1))
  {
    var next := NumberAt(st, path) + amount;
    (Set(st, path, JNum(next)).0, next)
  }

  /** `subtract(path, amount)`, which is `add(path, -amount)`. */
  function Subtract(st: Store, path: string, amount: int): (r: (Store, int))
    ensures r.1 == NumberAt(st, path) - amount
    ensures r.0.engine == FE.ScheduleFlush(st.engine)
    ensures CanWrite(st, path) ==> Get(r.0, path) == Some(JNum(r.1))
  {
    Add(st, path, -amount)
  }

  /** `push(path, value)`: append to the array at `path` (a fresh one for
      anything else), store it and return it. */
  function Push(st: Store, path: string, v: J): (r: (Store, seq<J>))
    ensures |r.1| == |ArrayAt(st, path)| + 1
    ensures r.1[..|r.1| - 1] == ArrayAt(st, path) && r.1[|r.1| - 1] == v
    ensures r.0.engine == FE.ScheduleFlush(st.engine)
    ensures CanWrite(st, path) ==> Get(r.0, path) == Some(JArr(r.1))
  {
    var next := ArrayAt(st, path) + [v];
    (Set(st, path, JArr(next)).0, next)
  }

  /** The debounce timer fires and flushes the current document if dirty. */
  function TimerFires(st: Store): (r: Store)
    requires st.engine.timers > 0
    ensures r.data == st.data
    ensures r.engine.timers == st.engine.timers - 1
    ensures !st.engine.WriteInProgress() && st.engine.dirty ==>
      r.engine.write == FE.Writing(st.data) && !r.engine.dirty
  {
    st.(engine := FE.TimerFires(st.engine, st.data))
  }

  /** The in-flight physical write completes, with the corrected follow-up
      flush of the engine: a success makes the snapshot durable and re-arms
      the timer for changes made meanwhile; a failure leaves the store stuck. */
  function WriteDone(st: Store, ok: bool): (r: Store)
    requires st.engine.write.Writing?
    ensures r.data == st.data
    ensures ok ==> r.engine.durable == Some(st.engine.write.snapshot) && r.engine.write.Idle?
    ensures ok && st.engine.dirty ==> r.engine.timers >= 1
    ensures !ok ==> r.engine.write.Stuck? && r.engine.durable == st.engine.durable
  {
    st.(engine := FE.WriteDone(st.engine, ok))
  }

  /** `close()`: a forced flush, which does nothing while a write is in flight. */
  function Close(st: Store): (r: Store)
    ensures st.engine.WriteInProgress() ==> r == st
    ensures !st.engine.WriteInProgress() ==> r.engine.write == FE.Writing(st.data)
  {
    st.(engine := FE.Close(st.engine, st.data))
  }

  /* ---------------- Properties ---------------- */

  /** The persistence invariant: the engine is live, and a clean store's
      document is the one durably written (when idle) or being written. */
  predicate Consistent(st: Store) {
    && FE.Live(st.engine)
    && (st.engine.write.Idle? && !st.engine.dirty ==> st.engine.durable == Some(st.data))
    && (st.engine.write.Writing? && !st.engine.dirty ==> st.engine.write.snapshot == st.data)
  }

  /** Every operation keeps a store that is not stuck consistent, with the
      corrected completion of a successful write. */
  lemma ConsistentIsPreserved(st: Store, path: string, v: J, amount: int, ok: bool)
    requires Consistent(st) && !st.engine.write.Stuck?
    ensures Consistent(Set(st, path, v).0)
    ensures Consistent(Delete(st, path).0)
    ensures Consistent(Add(st, path, amount).0)
    ensures Consistent(Subtract(st, path, amount).0)
    ensures Consistent(Push(st, path, v).0)
    ensures st.engine.timers > 0 ==> Consistent(TimerFires(st))
    ensures st.engine.write.Writing? && ok ==> Consistent(WriteDone(st, ok))
    ensures Consistent(Close(st))
  {
  }

  /** Opening yields a consistent store. */
  lemma OpenIsConsistent(existing: Option<Doc>, writeOk: bool)
    requires Open(existing, writeOk).Success?
    ensures Consistent(Open(existing, writeOk).value)
  {
  }

  /** Eventual durability: a consistent store with no timer pending and no
      write in flight has its whole document on disk. */
  lemma QuiescentIsDurable(st: Store)
    requires Consistent(st) && st.engine.timers == 0 && st.engine.write.Idle?
    ensures st.engine.durable == Some(st.data)
  {
  }

  /** `set`, then `close` on a store with no write in flight, then reopening
      from what was written, reads the value back. */
  lemma {:induction false} SetCloseReopen(st: Store, path: string, v: J)
    requires !st.engine.WriteInProgress() && CanWrite(st, path)
    ensures
      var closed := Close(Set(st, path, v).0);
      var written := WriteDone(closed, true);
      written.engine.durable.Some? &&
      Open(written.engine.durable, true).Success? &&
      Get(Open(written.engine.durable, true).value, path) == Some(v)
  {
    var s1 := Set(st, path, v).0;
    assert Get(s1, path) == Some(v);
  }

  /** `close()` while a write is in flight writes nothing: the value set just
      before is only in memory and in no write. */
  lemma CloseDuringWrite(st: Store, path: string, v: J)
    requires st.engine.write.Writing?
    ensures Close(Set(st, path, v).0) == Set(st, path, v).0
  {
  }

  /** A `set` changes nothing reachable by a path that parts from it, except
      that an undefined path may now read a `null` hole of an array the write
      extended past its end. */
  lemma {:induction false} SetLeavesOtherPaths(st: Store, path: string, v: J, other: string)
    requires Diverge(Split(path), Split(other))
    ensures Get(Set(st, path, v).0, other) == Get(st, other) ||
      (Get(st, other) == None && Get(Set(st, path, v).0, other) == Some(JNull))
    ensures NoPadding(st.Root(), Split(path)) ==> Get(Set(st, path, v).0, other) == Get(st, other)
  {
    SetLeavesOthers(st.Root(), Split(path), v, Split(other));
  }

  /** A delete leaves every path that parts from it as it was. */
  lemma {:induction false} DeleteLeavesOtherPaths(st: Store, path: string, other: string)
    requires Diverge(Split(path), Split(other))
    ensures Get(Delete(st, path).0, other) == Get(st, other)
  {
    DeleteLeavesOthers(st.Root(), Split(path), Split(other));
  }

  /** A second `delete` of a path that was deleted also reports true. */
  lemma {:induction false} DeleteTwice(st: Store, path: string)
    requires Delete(st, path).1
    ensures Delete(Delete(st, path).0, path).1
  {
    DeleteTwiceTrue(st.Root(), Split(path));
    DeleteFalseIffBlocked(Delete(st, path).0.Root(), Split(path));
  }
}
