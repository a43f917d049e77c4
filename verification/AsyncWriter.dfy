/** The asynchronous chunk writer: a bounded queue of requests, workers that write them, cancellation and
    shutdown, one atomic operation or mutex section per step, in any interleaving
    (src/storage/AsyncWriter.cpp). */
module AsyncWriter {
  import opened CheckpointTypes
  import opened NodeLifecycle

  // ---------- the lifecycle of one request ----------

  function BeginWriting(s: AsyncWriteState): (bool, AsyncWriteState) {
    if s == Queued then (true, Writing) else (false, s)
  }

  function CompleteStored(s: AsyncWriteState): (bool, AsyncWriteState) {
    if s == Writing then (true, WriteStored) else (false, s)
  }

  function Fail(s: AsyncWriteState): (bool, AsyncWriteState) {
    if s == Queued || s == Writing then (true, WriteFailed) else (false, s)
  }

  function Cancel(s: AsyncWriteState): (bool, AsyncWriteState) {
    if s == Queued then (true, WriteCancelled) else (false, s)
  }

  predicate Terminal(s: AsyncWriteState) {
    s == WriteStored || s == WriteFailed || s == WriteCancelled
  }

  // ---------- the workers ----------

  /** Where a worker's loop is, and the request it holds. */
  datatype Phase =
    | Idle
    | Popped(id: nat)
    | Active(id: nat)
    | InStore(id: nat)
    | Settled(id: nat, stored: bool)
    | Counted(id: nat)
    | Exited
  {
    predicate Holds() { !Idle? && !Exited? }
  }

  /** `activeCount_` counts the worker. */
  predicate IsActive(p: Phase) { p.Active? || p.InStore? || p.Settled? || p.Counted? }

  /** The request in hand is not terminal yet. */
  predicate HoldsOpen(p: Phase) { p.Popped? || p.Active? || p.InStore? }

  /** The request has settled and is not in the counters yet. */
  predicate SettledStored(p: Phase) { p.Settled? && p.stored }
  predicate SettledFailed(p: Phase) { p.Settled? && !p.stored }

  predicate IsOpen(s: AsyncWriteState) { !Terminal(s) }
  predicate IsStored(s: AsyncWriteState) { s == WriteStored }
  predicate IsFailed(s: AsyncWriteState) { s == WriteFailed }
  predicate IsCancelled(s: AsyncWriteState) { s == WriteCancelled }

  // ---------- counting ----------

  function Count<T>(s: seq<T>, p: T -> bool): nat {
    if s == [] then 0 else Count(s[..|s| - 1], p) + if p(s[|s| - 1]) then 1 else 0
  }

  lemma {:induction false} CountUpdate<T>(s: seq<T>, p: T -> bool, i: nat, x: T)
    requires i < |s|
    ensures Count(s[i := x], p) + (if p(s[i]) then 1 else 0) == Count(s, p) + (if p(x) then 1 else 0)
  {
    var last := |s| - 1;
    if i == last {
      assert s[i := x][..last] == s[..last];
    } else {
      CountUpdate(s[..last], p, i, x);
      assert s[i := x][..last] == s[..last][i := x];
    }
  }

  lemma CountAppend<T>(s: seq<T>, p: T -> bool, x: T)
    ensures Count(s + [x], p) == Count(s, p) + (if p(x) then 1 else 0)
  {
    assert (s + [x])[..|s|] == s;
  }

  lemma {:induction false} CountNone<T>(s: seq<T>, p: T -> bool)
    requires forall i | 0 <= i < |s| :: !p(s[i])
    ensures Count(s, p) == 0
  {
    if s != [] { CountNone(s[..|s| - 1], p); }
  }

  lemma {:induction false} CountAny<T>(s: seq<T>, p: T -> bool, i: nat)
    requires i < |s| && p(s[i])
    ensures Count(s, p) > 0
  {
    if i < |s| - 1 { CountAny(s[..|s| - 1], p, i); }
  }

  // ---------- the state, and what is always so ----------

  datatype View = View(capacity: nat, queue: seq<nat>, states: seq<AsyncWriteState>, payload: seq<bool>, workers: seq<Phase>,
                       activeCount: nat, completedCount: nat, failedCount: nat, stopping: bool)
  {
    ghost predicate Shape() {
      |payload| == |states| && |queue| <= capacity
    }

    /** A request in hand is in the state its phase says; a worker leaves only a stopped, empty queue. */
    ghost predicate WorkerOk(w: nat)
      requires Shape() && w < |workers|
    {
      && (workers[w].Holds() ==> workers[w].id < |states| && workers[w].id !in queue)
      && match workers[w]
         case Popped(id) => states[id] == Queued
         case Active(id) => states[id] == Queued
         case InStore(id) => states[id] == Writing
         case Settled(id, stored) => states[id] == if stored then WriteStored else WriteFailed
         case Counted(id) => states[id] == WriteStored || states[id] == WriteFailed
         case Exited => stopping && queue == []
         case Idle => true
    }

    ghost predicate HeldOpen(w: int, id: nat) {
      0 <= w < |workers| && HoldsOpen(workers[w]) && workers[w].id == id
    }

    /** A request that is not terminal keeps its chunk, and is in the queue or in a worker's hands. */
    ghost predicate RequestOk(id: nat)
      requires Shape() && id < |states|
    {
      && (payload[id] <==> !Terminal(states[id]))
      && (!Terminal(states[id]) && id !in queue ==> exists w :: HeldOpen(w, id))
    }

    ghost predicate HeldOnce() {
      forall v, w | 0 <= v < w < |workers| && workers[v].Holds() && workers[w].Holds() :: workers[v].id != workers[w].id
    }

    /** First in, first out. */
    ghost predicate Ascending() {
      forall i, j | 0 <= i < j < |queue| :: queue[i] < queue[j]
    }

    ghost predicate Counters() {
      && activeCount == Count(workers, IsActive)
      && completedCount + Count(workers, SettledStored) == Count(states, IsStored)
      && failedCount + Count(workers, SettledFailed) == Count(states, IsFailed)
      && Count(states, IsOpen) == |queue| + Count(workers, HoldsOpen)
    }

    ghost predicate Inv() {
      && Shape() && Ascending() && HeldOnce() && Counters()
      && (forall id | id in queue :: id < |states| && states[id] == Queued)
      && (forall w | 0 <= w < |workers| :: WorkerOk(w))
      && (forall id | 0 <= id < |states| :: RequestOk(id))
    }
  }

  lemma {:induction false} StatesPartition(states: seq<AsyncWriteState>)
    ensures |states| == Count(states, IsOpen) + Count(states, IsStored) + Count(states, IsFailed) + Count(states, IsCancelled)
  {
    if states != [] {
      StatesPartition(states[..|states| - 1]);
    }
  }

  /** Accepted requests = queued + in workers' hands + stored + failed + cancelled. */
  lemma Conservation(v: View)
    requires v.Inv()
    ensures |v.states| == |v.queue| + Count(v.workers, HoldsOpen) + Count(v.states, IsStored) + Count(v.states, IsFailed)
                          + Count(v.states, IsCancelled)
  {
    StatesPartition(v.states);
  }

  /** When every worker has left, every accepted request is terminal, and the counters are exact. */
  lemma AllLeft(v: View)
    requires v.Inv() && |v.workers| > 0 && forall w | 0 <= w < |v.workers| :: v.workers[w].Exited?
    ensures v.queue == [] && forall id | 0 <= id < |v.states| :: Terminal(v.states[id])
    ensures v.activeCount == 0 && v.completedCount == Count(v.states, IsStored) && v.failedCount == Count(v.states, IsFailed)
  {
    assert v.WorkerOk(0);
    CountNone(v.workers, IsActive);
    CountNone(v.workers, SettledStored);
    CountNone(v.workers, SettledFailed);
    forall id | 0 <= id < |v.states| ensures Terminal(v.states[id]) {
      assert v.RequestOk(id);
      assert forall w :: !v.HeldOpen(w, id);
    }
  }

  // ---------- steps of a worker with a request in hand ----------

  function InHand(v: View, w: nat, next: Phase, id: nat, s: AsyncWriteState): View
    requires w < |v.workers| && id < |v.states| == |v.payload|
  {
    v.(workers := v.workers[w := next], states := v.states[id := s], payload := v.payload[id := !Terminal(s)])
  }

  /** The phase and the state of a request in hand go together. */
  predicate PhaseFits(p: Phase, s: AsyncWriteState) {
    match p
    case Popped(_) => s == Queued
    case Active(_) => s == Queued
    case InStore(_) => s == Writing
    case Settled(_, stored) => s == if stored then WriteStored else WriteFailed
    case Counted(_) => s == WriteStored || s == WriteFailed
    case _ => false
  }

  /** Everything but the counters survives a step on the request in hand. */
  lemma InHandKeeps(v: View, w: nat, next: Phase, s: AsyncWriteState)
    requires v.Inv() && w < |v.workers| && v.workers[w].Holds() && next.Holds() && next.id == v.workers[w].id
    requires PhaseFits(next, s)
    requires v.WorkerOk(w) && (Terminal(v.states[next.id]) ==> s == v.states[next.id])
    ensures var u := InHand(v, w, next, next.id, s);
            && u.Shape() && u.Ascending() && u.HeldOnce()
            && (forall id | id in u.queue :: id < |u.states| && u.states[id] == Queued)
            && (forall i | 0 <= i < |u.workers| :: u.WorkerOk(i))
            && (forall id | 0 <= id < |u.states| :: u.RequestOk(id))
  {
    var u := InHand(v, w, next, next.id, s);
    forall i | 0 <= i < |u.workers| ensures u.WorkerOk(i) {
      assert v.WorkerOk(i);
      if i != w {
        assert u.workers[i] == v.workers[i];
      }
    }
    forall id | 0 <= id < |u.states| ensures u.RequestOk(id) {
      assert v.RequestOk(id);
      if !Terminal(u.states[id]) && id !in u.queue {
        if id == next.id {
          assert u.HeldOpen(w, id);
        } else {
          var i :| v.HeldOpen(i, id);
          assert u.HeldOpen(i, id);
        }
      }
    }
  }

  lemma InHandCounts(v: View, w: nat, next: Phase, id: nat, s: AsyncWriteState)
    requires w < |v.workers| && id < |v.states| == |v.payload|
    ensures var u := InHand(v, w, next, id, s); var was, old_ := v.workers[w], v.states[id];
      && Count(u.workers, IsActive) + (if IsActive(was) then 1 else 0) == Count(v.workers, IsActive) + (if IsActive(next) then 1 else 0)
      && Count(u.workers, HoldsOpen) + (if HoldsOpen(was) then 1 else 0) == Count(v.workers, HoldsOpen) + (if HoldsOpen(next) then 1 else 0)
      && Count(u.workers, SettledStored) + (if SettledStored(was) then 1 else 0) == Count(v.workers, SettledStored) + (if SettledStored(next) then 1 else 0)
      && Count(u.workers, SettledFailed) + (if SettledFailed(was) then 1 else 0) == Count(v.workers, SettledFailed) + (if SettledFailed(next) then 1 else 0)
      && Count(u.states, IsOpen) + (if IsOpen(old_) then 1 else 0) == Count(v.states, IsOpen) + (if IsOpen(s) then 1 else 0)
      && Count(u.states, IsStored) + (if IsStored(old_) then 1 else 0) == Count(v.states, IsStored) + (if IsStored(s) then 1 else 0)
      && Count(u.states, IsFailed) + (if IsFailed(old_) then 1 else 0) == Count(v.states, IsFailed) + (if IsFailed(s) then 1 else 0)
  {
    CountUpdate(v.workers, IsActive, w, next);
    CountUpdate(v.workers, HoldsOpen, w, next);
    CountUpdate(v.workers, SettledStored, w, next);
    CountUpdate(v.workers, SettledFailed, w, next);
    CountUpdate(v.states, IsOpen, id, s);
    CountUpdate(v.states, IsStored, id, s);
    CountUpdate(v.states, IsFailed, id, s);
  }

  /** `activeCount_` goes up. */
  lemma ActivatedKeeps(v: View, w: nat, id: nat)
    requires v.Inv() && w < |v.workers| && v.workers[w] == Popped(id)
    ensures id < |v.states| == |v.payload| && InHand(v, w, Active(id), id, Queued).(activeCount := v.activeCount + 1).Inv()
  {
    assert v.WorkerOk(w) && v.RequestOk(id);
    InHandKeeps(v, w, Active(id), Queued);
    InHandCounts(v, w, Active(id), id, Queued);
    SameButCounters(InHand(v, w, Active(id), id, Queued), InHand(v, w, Active(id), id, Queued).(activeCount := v.activeCount + 1));
  }

  /** `beginWriting` on a request in hand cannot be refused: only queued requests are cancelled. */
  lemma BegunKeeps(v: View, w: nat, id: nat)
    requires v.Inv() && w < |v.workers| && v.workers[w] == Active(id)
    ensures id < |v.states| == |v.payload| && BeginWriting(v.states[id]) == (true, Writing)
    ensures InHand(v, w, InStore(id), id, Writing).Inv()
  {
    assert v.WorkerOk(w) && v.RequestOk(id);
    InHandKeeps(v, w, InStore(id), Writing);
    InHandCounts(v, w, InStore(id), id, Writing);
  }

  /** The store succeeds or throws; the payload cannot be missing. */
  lemma SettledKeeps(v: View, w: nat, id: nat, stored: bool)
    requires v.Inv() && w < |v.workers| && v.workers[w] == InStore(id)
    ensures id < |v.states| == |v.payload| && v.payload[id]
    ensures CompleteStored(v.states[id]) == (true, WriteStored) && Fail(v.states[id]) == (true, WriteFailed)
    ensures InHand(v, w, Settled(id, stored), id, if stored then WriteStored else WriteFailed).Inv()
  {
    hide View.Counters;
    assert v.WorkerOk(w) && v.RequestOk(id) && v.states[id] == Writing;
    hide View.RequestOk, View.WorkerOk, View.HeldOnce, View.Ascending;
    InHandKeeps(v, w, Settled(id, stored), if stored then WriteStored else WriteFailed);
    SettledCounts(v, w, id, stored);
  }

  lemma SettledCounts(v: View, w: nat, id: nat, stored: bool)
    requires v.Counters() && w < |v.workers| && v.workers[w] == InStore(id)
    requires id < |v.states| == |v.payload| && v.states[id] == Writing
    ensures InHand(v, w, Settled(id, stored), id, if stored then WriteStored else WriteFailed).Counters()
  {
    InHandCounts(v, w, Settled(id, stored), id, if stored then WriteStored else WriteFailed);
  }

  /** The request enters one of the counters. */
  function CountedIn(v: View, w: nat, id: nat, stored: bool): View
    requires w < |v.workers|
  {
    v.(workers := v.workers[w := Counted(id)], completedCount := v.completedCount + (if stored then 1 else 0),
       failedCount := v.failedCount + (if stored then 0 else 1))
  }

  lemma CountedKeeps(v: View, w: nat, id: nat, stored: bool)
    requires v.Inv() && w < |v.workers| && v.workers[w] == Settled(id, stored)
    ensures CountedIn(v, w, id, stored).Inv()
  {
    assert v.WorkerOk(w) && v.RequestOk(id);
    var u := InHand(v, w, Counted(id), id, v.states[id]);
    InHandKeeps(v, w, Counted(id), v.states[id]);
    InHandCounts(v, w, Counted(id), id, v.states[id]);
    assert u.states == v.states && u.payload == v.payload;
    SameButCounters(u, CountedIn(v, w, id, stored));
  }

  lemma SameButCounters(v: View, u: View)
    requires u == v.(activeCount := u.activeCount, completedCount := u.completedCount, failedCount := u.failedCount)
    requires v.Shape() && v.Ascending() && v.HeldOnce()
    requires (forall i | 0 <= i < |v.workers| :: v.WorkerOk(i)) && (forall id | 0 <= id < |v.states| :: v.RequestOk(id))
    ensures u.Shape() && u.Ascending() && u.HeldOnce()
    ensures (forall i | 0 <= i < |u.workers| :: u.WorkerOk(i)) && (forall id | 0 <= id < |u.states| :: u.RequestOk(id))
  {
    forall i | 0 <= i < |u.workers| ensures u.WorkerOk(i) {
      assert v.WorkerOk(i);
    }
    forall id | 0 <= id < |u.states| ensures u.RequestOk(id) {
      assert v.RequestOk(id);
      if w :| v.HeldOpen(w, id) { assert u.HeldOpen(w, id); }
    }
  }

  // ---------- steps that take or give up a request ----------

  function Submitted(v: View): View {
    v.(queue := v.queue + [|v.states|], states := v.states + [Queued], payload := v.payload + [true])
  }

  lemma SubmittedKeeps(v: View)
    requires v.Inv() && !v.stopping && |v.queue| < v.capacity
    ensures Submitted(v).Inv()
  {
    var u := Submitted(v);
    assert forall i | 0 <= i < |v.queue| :: v.queue[i] in v.queue;
    CountAppend(v.states, IsOpen, Queued);
    CountAppend(v.states, IsStored, Queued);
    CountAppend(v.states, IsFailed, Queued);
    forall w | 0 <= w < |u.workers| ensures u.WorkerOk(w) {
      assert v.WorkerOk(w);
    }
    forall id | 0 <= id < |u.states| ensures u.RequestOk(id) {
      if id < |v.states| {
        assert v.RequestOk(id);
        if !Terminal(u.states[id]) && id !in u.queue {
          var w :| v.HeldOpen(w, id);
          assert u.HeldOpen(w, id);
        }
      } else {
        assert u.queue[|v.queue|] == id;
      }
    }
  }

  function PoppedBy(v: View, w: nat): View
    requires v.queue != [] && w < |v.workers|
  {
    v.(queue := v.queue[1..], workers := v.workers[w := Popped(v.queue[0])])
  }

  lemma PoppedWorker(v: View, w: nat, i: nat)
    requires v.Inv() && v.queue != [] && w < |v.workers| && v.workers[w].Idle? && i < |v.workers|
    ensures PoppedBy(v, w).WorkerOk(i)
  {
    var u, x := PoppedBy(v, w), v.queue[0];
    assert v.queue == [x] + u.queue && x !in u.queue;
    assert v.WorkerOk(i);
    if i != w { assert u.workers[i] == v.workers[i]; }
  }

  lemma PoppedRequest(v: View, w: nat, id: nat)
    requires v.Inv() && v.queue != [] && w < |v.workers| && v.workers[w].Idle? && id < |v.states|
    ensures PoppedBy(v, w).RequestOk(id)
  {
    var u, x := PoppedBy(v, w), v.queue[0];
    assert v.queue == [x] + u.queue;
    assert v.RequestOk(id);
    if !Terminal(u.states[id]) && id !in u.queue {
      if id == x {
        assert u.HeldOpen(w, id);
      } else {
        var i :| v.HeldOpen(i, id);
        assert u.HeldOpen(i, id);
      }
    }
  }

  lemma PoppedCounts(v: View, w: nat)
    requires v.Counters() && v.queue != [] && w < |v.workers| && v.workers[w].Idle?
    ensures PoppedBy(v, w).Counters()
  {
    var x := v.queue[0];
    CountUpdate(v.workers, IsActive, w, Popped(x));
    CountUpdate(v.workers, HoldsOpen, w, Popped(x));
    CountUpdate(v.workers, SettledStored, w, Popped(x));
    CountUpdate(v.workers, SettledFailed, w, Popped(x));
    assert !IsActive(Popped(x)) && !SettledStored(Popped(x)) && !SettledFailed(Popped(x)) && HoldsOpen(Popped(x));
  }

  lemma PoppedKeeps(v: View, w: nat)
    requires v.Inv() && v.queue != [] && w < |v.workers| && v.workers[w].Idle?
    ensures PoppedBy(v, w).Inv()
  {
    hide View.RequestOk, View.Counters;
    var u, x := PoppedBy(v, w), v.queue[0];
    assert v.queue == [x] + u.queue && x !in u.queue;
    forall i, j | 0 <= i < j < |u.queue| ensures u.queue[i] < u.queue[j] {
      assert u.queue[i] == v.queue[i + 1] && u.queue[j] == v.queue[j + 1];
    }
    assert u.Shape() && u.Ascending();
    PoppedCounts(v, w);
    forall id | id in u.queue ensures id < |u.states| && u.states[id] == Queued {
      assert id in v.queue;
    }
    forall i | 0 <= i < |u.workers| ensures u.WorkerOk(i) {
      PoppedWorker(v, w, i);
    }
    forall id | 0 <= id < |u.states| ensures u.RequestOk(id) {
      PoppedRequest(v, w, id);
    }
    forall i, j | 0 <= i < j < |u.workers| && u.workers[i].Holds() && u.workers[j].Holds()
      ensures u.workers[i].id != u.workers[j].id
    {
      assert v.WorkerOk(i) && v.WorkerOk(j);
    }
  }

  /** `activeCount_` goes down, and the worker looks for the next request. */
  function Released(v: View, w: nat): View
    requires w < |v.workers| && v.activeCount > 0
  {
    v.(workers := v.workers[w := Idle], activeCount := v.activeCount - 1)
  }

  lemma ReleasedKeeps(v: View, w: nat)
    requires v.Inv() && w < |v.workers| && v.workers[w].Counted?
    ensures v.activeCount > 0 && Released(v, w).Inv()
  {
    CountAny(v.workers, IsActive, w);
    CountUpdate(v.workers, IsActive, w, Idle);
    CountUpdate(v.workers, HoldsOpen, w, Idle);
    CountUpdate(v.workers, SettledStored, w, Idle);
    CountUpdate(v.workers, SettledFailed, w, Idle);
    LeavesHandsKeeps(v, Released(v, w), w);
  }

  function Left(v: View, w: nat): View
    requires w < |v.workers|
  {
    v.(workers := v.workers[w := Exited])
  }

  lemma LeftKeeps(v: View, w: nat)
    requires v.Inv() && w < |v.workers| && v.workers[w].Idle? && v.stopping && v.queue == []
    ensures Left(v, w).Inv()
  {
    CountUpdate(v.workers, IsActive, w, Exited);
    CountUpdate(v.workers, HoldsOpen, w, Exited);
    CountUpdate(v.workers, SettledStored, w, Exited);
    CountUpdate(v.workers, SettledFailed, w, Exited);
    LeavesHandsKeeps(v, Left(v, w), w);
  }

  /** A worker without an open request ends its round. */
  lemma LeavesHandsKeeps(v: View, u: View, w: nat)
    requires v.Inv() && w < |v.workers| && !HoldsOpen(v.workers[w]) && |u.workers| == |v.workers|
    requires u == v.(workers := u.workers, activeCount := u.activeCount) && u.workers == v.workers[w := u.workers[w]]
    requires u.workers[w].Idle? || (u.workers[w].Exited? && v.stopping && v.queue == [])
    ensures u.HeldOnce()
    ensures (forall i | 0 <= i < |u.workers| :: u.WorkerOk(i)) && (forall id | 0 <= id < |u.states| :: u.RequestOk(id))
  {
    forall i | 0 <= i < |u.workers| ensures u.WorkerOk(i) {
      assert v.WorkerOk(i);
      if i != w { assert u.workers[i] == v.workers[i]; }
    }
    forall id | 0 <= id < |u.states| ensures u.RequestOk(id) {
      assert v.RequestOk(id);
      if !Terminal(u.states[id]) && id !in u.queue {
        var i :| v.HeldOpen(i, id);
        assert u.HeldOpen(i, id);
      }
    }
  }

  /** The request at position k leaves the queue cancelled, without its chunk. */
  function Cancelled(v: View, k: nat): View
    requires k < |v.queue| && v.queue[k] < |v.states| == |v.payload|
  {
    v.(queue := v.queue[..k] + v.queue[k + 1..], states := v.states[v.queue[k] := WriteCancelled],
       payload := v.payload[v.queue[k] := false])
  }

  lemma DropAt(q: seq<nat>, k: nat)
    requires k < |q| && forall i, j | 0 <= i < j < |q| :: q[i] < q[j]
    ensures var r := q[..k] + q[k + 1..];
            && |r| == |q| - 1 && (forall i, j | 0 <= i < j < |r| :: r[i] < r[j])
            && (forall x :: x in r <==> x in q && x != q[k])
  {
    var r := q[..k] + q[k + 1..];
    assert q == q[..k] + [q[k]] + q[k + 1..];
    forall i | 0 <= i < |r| ensures r[i] == q[if i < k then i else i + 1] {
    }
    forall x | x in q && x != q[k] ensures x in r {
      var i :| 0 <= i < |q| && q[i] == x;
      assert r[if i < k then i else i - 1] == x;
    }
  }

  lemma CancelledKeeps(v: View, k: nat)
    requires v.Inv() && k < |v.queue|
    ensures v.queue[k] < |v.states| == |v.payload| && Cancel(v.states[v.queue[k]]) == (true, WriteCancelled)
    ensures Cancelled(v, k).Inv()
  {
    var x := v.queue[k];
    assert x in v.queue;
    var u := Cancelled(v, k);
    DropAt(v.queue, k);
    CountUpdate(v.states, IsOpen, x, WriteCancelled);
    CountUpdate(v.states, IsStored, x, WriteCancelled);
    CountUpdate(v.states, IsFailed, x, WriteCancelled);
    forall w | 0 <= w < |u.workers| ensures u.WorkerOk(w) {
      assert v.WorkerOk(w);
    }
    forall id | 0 <= id < |u.states| ensures u.RequestOk(id) {
      assert v.RequestOk(id);
      if !Terminal(u.states[id]) && id !in u.queue {
        var i :| v.HeldOpen(i, id);
        assert u.HeldOpen(i, id);
      }
    }
  }

  lemma StopsKeeps(v: View)
    requires v.Inv()
    ensures v.(stopping := true).Inv()
  {
    var u := v.(stopping := true);
    forall w | 0 <= w < |u.workers| ensures u.WorkerOk(w) {
      assert v.WorkerOk(w);
    }
    forall id | 0 <= id < |u.states| ensures u.RequestOk(id) {
      assert v.RequestOk(id);
      if w :| v.HeldOpen(w, id) { assert u.HeldOpen(w, id); }
    }
  }

  datatype SubmitResult = Accepted(requestId: nat) | WriterStopped | QueueFull

  class AsyncChunkWriter {
    const capacity: nat
    var queue: seq<nat>
    var states: seq<AsyncWriteState>
    var payload: seq<bool>
    var workers: seq<Phase>
    var activeCount: nat
    var completedCount: nat
    var failedCount: nat
    var stopping: bool

    ghost function Now(): View
      reads this
    {
      View(capacity, queue, states, payload, workers, activeCount, completedCount, failedCount, stopping)
    }

    ghost predicate Valid()
      reads this
    {
      Now().Inv() && |workers| > 0
    }

    constructor (capacity: nat, workerCount: nat)
      requires capacity > 0 && workerCount > 0
      ensures Valid() && this.capacity == capacity && |workers| == workerCount && states == [] && !stopping
    {
      this.capacity := capacity;
      queue, states, payload := [], [], [];
      workers := seq(workerCount, _ => Idle);
      activeCount, completedCount, failedCount, stopping := 0, 0, 0, false;
      new;
      CountNone(workers, IsActive);
      CountNone(workers, SettledStored);
      CountNone(workers, SettledFailed);
      CountNone(workers, HoldsOpen);
    }

    /** `submit`: refused when stopped or full, otherwise the next number. */
    method Submit() returns (result: SubmitResult)
      requires Valid()
      modifies this`queue, this`states, this`payload
      ensures Valid()
      ensures result == if stopping then WriterStopped else if |old(queue)| >= capacity then QueueFull
                        else Accepted(|old(states)|)
      ensures Now() == if result.Accepted? then Submitted(old(Now())) else old(Now())
    {
      if stopping {
        return WriterStopped;
      }
      if |queue| >= capacity {
        return QueueFull;
      }
      SubmittedKeeps(Now());
      result := Accepted(|states|);
      queue, states, payload := queue + [|states|], states + [Queued], payload + [true];
    }

    /** `cancel`: only a request still in the queue. */
    method CancelRequest(id: nat) returns (ok: bool)
      requires Valid()
      modifies this`queue, this`states, this`payload
      ensures Valid() && (ok <==> id in old(queue))
      ensures ok ==> id < |old(states)| && old(states)[id] == Queued && states == old(states)[id := WriteCancelled]
      ensures !ok ==> Now() == old(Now())
    {
      var k := 0;
      while k < |queue|
        invariant 0 <= k <= |queue| && forall j | 0 <= j < k :: queue[j] != id
      {
        if queue[k] == id {
          CancelledKeeps(Now(), k);
          states, payload := states[id := WriteCancelled], payload[id := false];
          queue := queue[..k] + queue[k + 1..];
          return true;
        }
        k := k + 1;
      }
      ok := false;
    }

    method CancelOldest()
      requires Valid() && queue != []
      modifies this`queue, this`states, this`payload
      ensures Valid() && queue == old(queue)[1..]
      ensures old(queue)[0] < |old(states)| && states == old(states)[old(queue)[0] := WriteCancelled]
    {
      ghost var v := Now();
      CancelledKeeps(v, 0);
      states, payload := states[queue[0] := WriteCancelled], payload[queue[0] := false];
      queue := queue[1..];
      assert v.queue[..0] + v.queue[1..] == queue;
      assert Now() == Cancelled(v, 0);
    }

    /** The first half of `shutdown`; without draining, everything still queued is cancelled, oldest first. */
    method BeginShutdown(drain: bool)
      requires Valid()
      modifies this`queue, this`states, this`payload, this`stopping
      ensures Valid() && stopping && |states| == |old(states)|
      ensures drain ==> queue == old(queue) && states == old(states)
      ensures !drain ==> queue == []
      ensures forall id | 0 <= id < |states| && states[id] != old(states)[id] ::
                !drain && id in old(queue) && states[id] == WriteCancelled
    {
      StopsKeeps(Now());
      stopping := true;
      if !drain {
        while queue != []
          invariant Valid() && stopping && |states| == |old(states)|
          invariant forall id | id in queue :: id in old(queue)
          invariant forall id | 0 <= id < |states| && states[id] != old(states)[id] ::
                      id in old(queue) && states[id] == WriteCancelled
          decreases |queue|
        {
          CancelOldest();
        }
      }
    }

    /** One step of worker w. */
    method WorkerStep(w: nat, storeSucceeds: bool)
      requires Valid() && w < |workers|
      modifies this`queue, this`states, this`payload, this`workers, this`activeCount, this`completedCount, this`failedCount
      ensures Valid() && |workers| == old(|workers|) && |states| == |old(states)|
      ensures forall id | 0 <= id < |states| && Terminal(old(states)[id]) :: states[id] == old(states)[id]
      ensures forall id | 0 <= id < |states| && states[id] == WriteCancelled :: old(states)[id] == WriteCancelled
    {
      match workers[w]
      case Idle => PopOrLeave(w);
      case Popped(id) => Activate(w);
      case Active(id) => Begin(w);
      case InStore(id) => Settle(w, storeSucceeds);
      case Settled(id, stored) => CountIn(w);
      case Counted(id) =>
        ReleasedKeeps(Now(), w);
        workers, activeCount := workers[w := Idle], activeCount - 1;
      case Exited =>
    }

    /** Under the queue mutex: the oldest request, or leave if stopped, or wait on. */
    method PopOrLeave(w: nat)
      requires Valid() && w < |workers| && workers[w].Idle?
      modifies this`queue, this`workers
      ensures Valid() && |workers| == old(|workers|)
    {
      if queue != [] {
        PoppedKeeps(Now(), w);
        workers, queue := workers[w := Popped(queue[0])], queue[1..];
      } else if stopping {
        LeftKeeps(Now(), w);
        workers := workers[w := Exited];
      }
    }

    method Activate(w: nat)
      requires Valid() && w < |workers| && workers[w].Popped?
      modifies this`workers, this`activeCount
      ensures Valid() && |workers| == old(|workers|)
    {
      ghost var v, id := Now(), workers[w].id;
      ActivatedKeeps(v, w, id);
      assert v.WorkerOk(w) && v.RequestOk(id);
      workers, activeCount := workers[w := Active(workers[w].id)], activeCount + 1;
      assert Now() == InHand(v, w, Active(id), id, Queued).(activeCount := v.activeCount + 1);
    }

    method Begin(w: nat)
      requires Valid() && w < |workers| && workers[w].Active?
      modifies this`workers, this`states
      ensures Valid() && |workers| == old(|workers|) && |states| == |old(states)|
      ensures workers[w].InStore? && old(workers)[w].id < |old(states)| && old(states)[old(workers)[w].id] == Queued
      ensures states == old(states)[old(workers)[w].id := Writing]
    {
      var id := workers[w].id;
      ghost var v := Now();
      BegunKeeps(v, w, id);
      assert v.WorkerOk(w) && v.RequestOk(id);
      var (ok, next) := BeginWriting(states[id]);
      workers, states := workers[w := InStore(id)], states[id := next];
      assert Now() == InHand(v, w, InStore(id), id, Writing);
    }

    method Settle(w: nat, storeSucceeds: bool)
      requires Valid() && w < |workers| && workers[w].InStore?
      modifies this`workers, this`states, this`payload
      ensures Valid() && |workers| == old(|workers|) && |states| == |old(states)|
      ensures old(workers)[w].id < |old(states)| && old(states)[old(workers)[w].id] == Writing
      ensures states == old(states)[old(workers)[w].id := if storeSucceeds then WriteStored else WriteFailed]
    {
      var id := workers[w].id;
      ghost var v := Now();
      SettledKeeps(v, w, id, storeSucceeds);
      assert v.WorkerOk(w) && v.RequestOk(id);
      var (ok, next) := if storeSucceeds then CompleteStored(states[id]) else Fail(states[id]);
      workers, states := workers[w := Settled(id, storeSucceeds)], states[id := next];
      payload := payload[id := false];
      assert Now() == InHand(v, w, Settled(id, storeSucceeds), id, if storeSucceeds then WriteStored else WriteFailed);
    }

    method CountIn(w: nat)
      requires Valid() && w < |workers| && workers[w].Settled?
      modifies this`workers, this`completedCount, this`failedCount
      ensures Valid() && |workers| == old(|workers|)
    {
      var id, stored := workers[w].id, workers[w].stored;
      ghost var next := CountedIn(Now(), w, id, stored);
      CountedKeeps(Now(), w, id, stored);
      workers := workers[w := Counted(id)];
      completedCount, failedCount := completedCount + (if stored then 1 else 0), failedCount + (if stored then 0 else 1);
      assert Now() == next;
    }

    /** Any interleaving of submitters, cancellers, workers and shutdowns. Nothing accepted is lost: whoever
        finds all workers gone finds every request terminal and the counters exact. */
    method Run(steps: nat)
      requires Valid()
      modifies this
      ensures Valid() && |workers| == old(|workers|) && |old(states)| <= |states| && |queue| <= capacity
      ensures |states| == |queue| + Count(workers, HoldsOpen) + Count(states, IsStored) + Count(states, IsFailed)
                          + Count(states, IsCancelled)
      ensures (forall w | 0 <= w < |workers| :: workers[w].Exited?) ==>
        queue == [] && (forall id | 0 <= id < |states| :: Terminal(states[id]))
        && completedCount == Count(states, IsStored) && failedCount == Count(states, IsFailed)
    {
      for step := 0 to steps
        invariant Valid() && |workers| == old(|workers|) && |old(states)| <= |states|
      {
        var choice: int, k: int, flag: bool := *, *, *;
        if choice == 0 {
          var result := Submit();
        } else if choice == 1 && k >= 0 {
          var ok := CancelRequest(k);
        } else if choice == 2 {
          BeginShutdown(flag);
        } else if 0 <= k < |workers| {
          WorkerStep(k, flag);
        }
      }
      Conservation(Now());
      if forall w | 0 <= w < |workers| :: workers[w].Exited? {
        AllLeft(Now());
      }
    }
  }
}
