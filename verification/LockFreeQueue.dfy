/** The bounded multi-producer multi-consumer ticket queue, one atomic operation per step, with any number
    of threads interleaved (src/scheduler/LockFreeQueue.cpp), and the mutex-guarded bounded queue it stands
    in for (src/scheduler/ReferenceQueue.cpp).

    Tickets are unbounded integers here. The source's are 64-bit; the two agree while the tickets handed
    out plus the capacity stay below 2^63, which `Valid` states. */
module LockFreeQueue {
  import opened CheckpointTypes
  import opened DivMod
  import opened Widths

  const PTRDIFF_MAX: nat := 0x7FFF_FFFF_FFFF_FFFF

  /** A task is known by a number. */
  type Task = nat

  // ---------- comparing a sequence with a ticket ----------

  datatype SequenceOrder = Behind | Equal | Ahead

  /** `compareSequence`, on 64-bit values. */
  function CompareSequence(sequence: nat, expected: nat): SequenceOrder {
    if sequence == expected then Equal
    else
      var forward := (sequence - expected) % (U64_MAX + 1);
      if forward <= PTRDIFF_MAX then Ahead else Behind
  }

  /** Up to a distance of PTRDIFF_MAX either way, the wrapping comparison is the order of the integers. */
  lemma CompareSequenceIsOrder(sequence: nat, expected: nat)
    requires sequence <= U64_MAX && expected <= U64_MAX
    requires -(PTRDIFF_MAX as int) <= sequence - expected <= PTRDIFF_MAX
    ensures CompareSequence(sequence, expected)
         == if sequence < expected then Behind else if sequence == expected then Equal else Ahead
  {
    if sequence < expected {
      assert (sequence - expected) % (U64_MAX + 1) == sequence - expected + U64_MAX + 1;
    }
  }

  // ---------- what the cells and the threads are about ----------

  /** Which ticket a cell serves, and how far that ticket is. */
  datatype Phase = Free | Pushing | Full | Popping
  datatype Cell = Cell(ticket: nat, phase: Phase)

  /** Where a thread is, and its locals. */
  datatype Local =
    | Idle
    | PushStart(task: Task)
    | PushCheck(task: Task, position: nat)
    | PushReady(task: Task, position: nat)
    | PushMove(task: Task, position: nat)
    | PushStore(task: Task, position: nat)
    | PushDone(ok: bool)
    | PopStart
    | PopCheck(position: nat)
    | PopReady(position: nat)
    | PopMove(position: nat)
    | PopStore(position: nat, taken: Task)
    | PopDone(result: Option<Task>)
    | EmptyStart
    | EmptyCheck(position: nat)
    | EmptyDone(empty: bool)
  {
    /** The thread has claimed a ticket and not yet given the cell on. */
    predicate HoldsPush(ticket: nat) {
      (PushMove? || PushStore?) && position == ticket
    }

    predicate HoldsPop(ticket: nat) {
      (PopMove? || PopStore?) && position == ticket
    }

    predicate InFlight() {
      PushMove? || PushStore? || PopMove? || PopStore?
    }
  }

  /** The whole state: atomics, cells, the tasks pushed so far by ticket, the threads, and what finished
      pops have returned, by ticket. */
  datatype View = View(capacity: nat, enqueuePos: nat, dequeuePos: nat, sequence: seq<nat>, data: seq<Option<Task>>,
                       cells: seq<Cell>, tasks: seq<Task>, threads: seq<Local>, returned: map<nat, Task>)
  {
    function At(ticket: nat): nat
      requires capacity > 0
    {
      ticket % capacity
    }

    ghost predicate Shape() {
      && capacity >= 2 && |sequence| == |data| == |cells| == capacity
      && |tasks| == enqueuePos && dequeuePos <= enqueuePos <= dequeuePos + capacity
    }

    /** The sequence number tells the ticket and the phase. */
    ghost predicate CellOk(i: nat)
      requires Shape() && i < capacity
    {
      var c := cells[i];
      && At(c.ticket) == i
      && match c.phase
         case Free => sequence[i] == c.ticket && enqueuePos <= c.ticket < enqueuePos + capacity
         case Pushing => sequence[i] == c.ticket && dequeuePos <= c.ticket < enqueuePos
         case Full => sequence[i] == c.ticket + 1 && dequeuePos <= c.ticket < enqueuePos && data[i] == Some(tasks[c.ticket])
         case Popping => sequence[i] == c.ticket + 1 && c.ticket < dequeuePos && enqueuePos <= c.ticket + capacity
    }

    /** A ticket between the positions has its cell. */
    ghost predicate TicketOk(p: nat)
      requires Shape()
    {
      cells[At(p)].ticket == p
    }

    ghost predicate ThreadOk(t: nat)
      requires Shape() && t < |threads|
    {
      match threads[t]
      case PushCheck(task, p) => p <= enqueuePos
      case PushReady(task, p) => p <= enqueuePos && (p == enqueuePos ==> cells[At(p)] == Cell(p, Free))
      case PushMove(task, p) => p < enqueuePos && tasks[p] == task && cells[At(p)] == Cell(p, Pushing)
      case PushStore(task, p) => p < enqueuePos && tasks[p] == task && cells[At(p)] == Cell(p, Pushing) && data[At(p)] == Some(task)
      case PopCheck(p) => p <= dequeuePos
      case EmptyCheck(p) => p <= dequeuePos
      case PopReady(p) => p <= dequeuePos && (p == dequeuePos ==> cells[At(p)] == Cell(p, Full))
      case PopMove(p) => p < dequeuePos && cells[At(p)] == Cell(p, Popping) && data[At(p)] == Some(tasks[p])
      case PopStore(p, taken) => p < dequeuePos && cells[At(p)] == Cell(p, Popping) && taken == tasks[p]
      case _ => true
    }

    /** A claimed cell has exactly one thread at work on it. */
    ghost predicate HeldOnce() {
      forall t, u, p | 0 <= t < |threads| && 0 <= u < |threads| && t != u ::
        && !(threads[t].HoldsPush(p) && threads[u].HoldsPush(p))
        && !(threads[t].HoldsPop(p) && threads[u].HoldsPop(p))
    }

    ghost predicate Attended(i: nat)
      requires Shape() && i < capacity
    {
      && (cells[i].phase == Pushing ==> exists t :: 0 <= t < |threads| && threads[t].HoldsPush(cells[i].ticket))
      && (cells[i].phase == Popping ==> exists t :: 0 <= t < |threads| && threads[t].HoldsPop(cells[i].ticket))
    }

    ghost predicate Inv() {
      && Shape()
      && (forall i | 0 <= i < capacity :: CellOk(i) && Attended(i))
      && (forall p | dequeuePos <= p < enqueuePos :: TicketOk(p))
      && (forall t | 0 <= t < |threads| :: ThreadOk(t))
      && HeldOnce()
    }

    /** A finished pop of ticket k returned the task pushed with ticket k, and no ticket is returned twice
        or lost: a claimed one is either returned or still held by one thread. */
    ghost predicate ReturnedOk()
      requires |tasks| == enqueuePos && dequeuePos <= enqueuePos
    {
      && (forall k | k in returned :: k < dequeuePos && returned[k] == tasks[k])
      && (forall t, k | 0 <= t < |threads| && threads[t].HoldsPop(k) :: k !in returned)
      && (forall k | 0 <= k < dequeuePos && k !in returned :: exists t :: 0 <= t < |threads| && threads[t].HoldsPop(k))
    }

    /** The queued tasks, oldest first. */
    function Contents(): seq<Task>
      requires dequeuePos <= enqueuePos <= |tasks|
    {
      tasks[dequeuePos..enqueuePos]
    }
  }

  // ---------- steps that touch no cell ----------

  /** A thread that holds no ticket moves on. */
  lemma ThreadMoves(v: View, t: nat, next: Local)
    requires v.Inv() && t < |v.threads| && !v.threads[t].InFlight() && !next.InFlight()
    requires v.(threads := v.threads[t := next]).ThreadOk(t)
    ensures v.(threads := v.threads[t := next]).Inv()
  {
    var w := v.(threads := v.threads[t := next]);
    forall i | 0 <= i < w.capacity ensures w.CellOk(i) && w.Attended(i) {
      assert v.CellOk(i) && v.Attended(i);
      StillAttended(v, w, t, i);
    }
    forall p | w.dequeuePos <= p < w.enqueuePos ensures w.TicketOk(p) {
      assert v.TicketOk(p);
    }
    forall u | 0 <= u < |w.threads| ensures w.ThreadOk(u) {
      if u != t { assert v.ThreadOk(u) && w.threads[u] == v.threads[u]; }
    }
  }

  /** A cell some other thread attends to stays attended. */
  lemma StillAttended(v: View, w: View, t: nat, i: nat)
    requires v.Shape() && w.Shape() && i < v.capacity == w.capacity && w.cells[i] == v.cells[i]
    requires |v.threads| == |w.threads| && t < |v.threads|
    requires forall u | 0 <= u < |v.threads| && u != t :: w.threads[u] == v.threads[u]
    requires !v.threads[t].HoldsPush(v.cells[i].ticket) && !v.threads[t].HoldsPop(v.cells[i].ticket)
    requires v.Attended(i)
    ensures w.Attended(i)
  {
    if v.cells[i].phase == Pushing {
      var u :| 0 <= u < |v.threads| && v.threads[u].HoldsPush(v.cells[i].ticket);
      assert w.threads[u].HoldsPush(w.cells[i].ticket);
    }
    if v.cells[i].phase == Popping {
      var u :| 0 <= u < |v.threads| && v.threads[u].HoldsPop(v.cells[i].ticket);
      assert w.threads[u].HoldsPop(w.cells[i].ticket);
    }
  }

  // ---------- the steps of a push ----------

  /** A push may claim only into a free cell, and never runs more than a lap ahead of the pops. */
  lemma RoomToClaim(v: View)
    requires v.Inv() && v.cells[v.At(v.enqueuePos)] == Cell(v.enqueuePos, Free)
    ensures v.enqueuePos < v.dequeuePos + v.capacity
  {
    NextLap(v.dequeuePos, v.capacity);
    assert v.dequeuePos < v.enqueuePos ==> v.TicketOk(v.dequeuePos);
  }

  lemma DistinctCells(v: View, i: nat, j: nat)
    requires v.Inv() && i < v.capacity && j < v.capacity && i != j
    ensures v.cells[i].ticket != v.cells[j].ticket
  {
    assert v.CellOk(i) && v.CellOk(j);
  }

  function ClaimedPush(v: View, t: nat, task: Task, p: nat): View
    requires v.capacity > 0 && |v.cells| == v.capacity && t < |v.threads|
  {
    v.(enqueuePos := v.enqueuePos + 1, tasks := v.tasks + [task], cells := v.cells[v.At(p) := Cell(p, Pushing)],
       threads := v.threads[t := PushMove(task, p)])
  }

  lemma ClaimPushCell(v: View, t: nat, task: Task, i: nat)
    requires v.Inv() && t < |v.threads| && v.threads[t] == PushReady(task, v.enqueuePos) && i < v.capacity
    requires v.enqueuePos < v.dequeuePos + v.capacity && v.cells[v.At(v.enqueuePos)] == Cell(v.enqueuePos, Free)
    ensures ClaimedPush(v, t, task, v.enqueuePos).CellOk(i) && ClaimedPush(v, t, task, v.enqueuePos).Attended(i)
  {
    var p := v.enqueuePos;
    var w, at := ClaimedPush(v, t, task, p), v.At(p);
    assert v.CellOk(i) && v.CellOk(at);
    if i == at {
      assert w.threads[t].HoldsPush(p);
    } else {
      DistinctCells(v, i, at);
      if v.cells[i].phase == Popping && v.cells[i].ticket + v.capacity == p {
        NextLap(v.cells[i].ticket, v.capacity);
        assert false;
      }
      StillAttended(v, w, t, i);
    }
  }

  lemma ClaimPushKeeps(v: View, t: nat, task: Task)
    requires v.Inv() && t < |v.threads| && v.threads[t] == PushReady(task, v.enqueuePos)
    ensures ClaimedPush(v, t, task, v.enqueuePos).Inv()
  {
    var p := v.enqueuePos;
    var w, at := ClaimedPush(v, t, task, p), v.At(p);
    assert v.ThreadOk(t);
    RoomToClaim(v);
    forall i | 0 <= i < w.capacity ensures w.CellOk(i) && w.Attended(i) {
      ClaimPushCell(v, t, task, i);
    }
    forall q | w.dequeuePos <= q < w.enqueuePos ensures w.TicketOk(q) {
      if q < p { assert v.TicketOk(q); }
    }
    forall u | 0 <= u < |w.threads| ensures w.ThreadOk(u) {
      ClaimPushThread(v, t, task, u);
    }
    ClaimPushHeldOnce(v, t, task);
  }

  lemma ClaimPushThread(v: View, t: nat, task: Task, u: nat)
    requires v.Inv() && t < |v.threads| && v.threads[t] == PushReady(task, v.enqueuePos) && u < |v.threads|
    requires v.enqueuePos < v.dequeuePos + v.capacity && v.cells[v.At(v.enqueuePos)] == Cell(v.enqueuePos, Free)
    ensures ClaimedPush(v, t, task, v.enqueuePos).ThreadOk(u)
  {
    var w := ClaimedPush(v, t, task, v.enqueuePos);
    assert v.ThreadOk(u);
    if u != t { assert w.threads[u] == v.threads[u]; }
  }

  lemma ClaimPushHeldOnce(v: View, t: nat, task: Task)
    requires v.Inv() && t < |v.threads| && v.threads[t] == PushReady(task, v.enqueuePos)
    ensures ClaimedPush(v, t, task, v.enqueuePos).HeldOnce()
  {
    var w, p := ClaimedPush(v, t, task, v.enqueuePos), v.enqueuePos;
    forall u | 0 <= u < |v.threads| && u != t ensures w.threads[u] == v.threads[u] && !w.threads[u].HoldsPush(p) {
      assert v.ThreadOk(u);
    }
  }

  function MovedIn(v: View, t: nat, task: Task, p: nat): View
    requires v.capacity > 0 && |v.data| == v.capacity && t < |v.threads|
  {
    v.(data := v.data[v.At(p) := Some(task)], threads := v.threads[t := PushStore(task, p)])
  }

  /** Moving the task in touches a cell only this thread looks at. */
  lemma MoveInKeeps(v: View, t: nat, task: Task, p: nat)
    requires v.Inv() && t < |v.threads| && v.threads[t] == PushMove(task, p)
    ensures MovedIn(v, t, task, p).Inv()
  {
    var w, at := MovedIn(v, t, task, p), v.At(p);
    assert v.ThreadOk(t);
    forall i | 0 <= i < w.capacity ensures w.CellOk(i) && w.Attended(i) {
      assert v.CellOk(i) && v.Attended(i);
      if i == at {
        assert w.threads[t].HoldsPush(p);
      } else {
        DistinctCells(v, i, at);
        StillAttended(v, w, t, i);
      }
    }
    forall q | w.dequeuePos <= q < w.enqueuePos ensures w.TicketOk(q) {
      assert v.TicketOk(q);
    }
    forall u | 0 <= u < |w.threads| ensures w.ThreadOk(u) {
      assert v.ThreadOk(u);
      if u != t { assert w.threads[u] == v.threads[u]; }
    }
    SameHoldings(v, w, t);
  }

  /** The tickets held are as before, but for what one thread gives up. */
  lemma SameHoldings(v: View, w: View, t: nat)
    requires v.HeldOnce() && |w.threads| == |v.threads| && t < |v.threads|
    requires forall u | 0 <= u < |v.threads| && u != t :: w.threads[u] == v.threads[u]
    requires forall p :: w.threads[t].HoldsPush(p) ==> v.threads[t].HoldsPush(p)
    requires forall p :: w.threads[t].HoldsPop(p) ==> v.threads[t].HoldsPop(p)
    ensures w.HeldOnce()
  {
    forall a, b, p | 0 <= a < |w.threads| && 0 <= b < |w.threads| && a != b
      ensures !(w.threads[a].HoldsPush(p) && w.threads[b].HoldsPush(p))
      ensures !(w.threads[a].HoldsPop(p) && w.threads[b].HoldsPop(p))
    {
      assert !(v.threads[a].HoldsPush(p) && v.threads[b].HoldsPush(p));
      assert !(v.threads[a].HoldsPop(p) && v.threads[b].HoldsPop(p));
    }
  }

  function PublishedPush(v: View, t: nat, p: nat): View
    requires v.capacity > 0 && |v.cells| == |v.sequence| == v.capacity && t < |v.threads|
  {
    v.(sequence := v.sequence[v.At(p) := p + 1], cells := v.cells[v.At(p) := Cell(p, Full)],
       threads := v.threads[t := PushDone(true)])
  }

  lemma PublishPushKeeps(v: View, t: nat, task: Task, p: nat)
    requires v.Inv() && t < |v.threads| && v.threads[t] == PushStore(task, p)
    ensures PublishedPush(v, t, p).Inv()
  {
    var w, at := PublishedPush(v, t, p), v.At(p);
    assert v.ThreadOk(t) && v.CellOk(at);
    forall i | 0 <= i < w.capacity ensures w.CellOk(i) && w.Attended(i) {
      assert v.CellOk(i) && v.Attended(i);
      if i != at {
        DistinctCells(v, i, at);
        StillAttended(v, w, t, i);
      }
    }
    forall q | w.dequeuePos <= q < w.enqueuePos ensures w.TicketOk(q) {
      assert v.TicketOk(q);
    }
    forall u | 0 <= u < |w.threads| ensures w.ThreadOk(u) {
      OtherThreadsPublished(v, w, t, p, u);
    }
    SameHoldings(v, w, t);
  }

  lemma OtherThreadsPublished(v: View, w: View, t: nat, p: nat, u: nat)
    requires v.Inv() && t < |v.threads| && v.threads[t].HoldsPush(p) && v.capacity > 0
    requires v.threads[t].PushStore? && w == PublishedPush(v, t, p) && u < |v.threads| && w.Shape()
    ensures w.ThreadOk(u)
  {
    assert v.ThreadOk(u) && v.ThreadOk(t);
    if u != t {
      assert w.threads[u] == v.threads[u];
      assert !v.threads[u].HoldsPush(p);
    }
  }

  // ---------- the steps of a pop ----------

  function ClaimedPop(v: View, t: nat, p: nat): View
    requires v.capacity > 0 && |v.cells| == v.capacity && t < |v.threads|
  {
    v.(dequeuePos := v.dequeuePos + 1, cells := v.cells[v.At(p) := Cell(p, Popping)], threads := v.threads[t := PopMove(p)])
  }

  lemma ClaimPopKeeps(v: View, t: nat)
    requires v.Inv() && t < |v.threads| && v.threads[t] == PopReady(v.dequeuePos)
    ensures ClaimedPop(v, t, v.dequeuePos).Inv()
  {
    var p := v.dequeuePos;
    var w, at := ClaimedPop(v, t, p), v.At(p);
    assert v.ThreadOk(t) && v.CellOk(at);
    forall i | 0 <= i < w.capacity ensures w.CellOk(i) && w.Attended(i) {
      assert v.CellOk(i) && v.Attended(i);
      if i == at {
        assert w.threads[t].HoldsPop(p);
      } else {
        DistinctCells(v, i, at);
        StillAttended(v, w, t, i);
      }
    }
    forall q | w.dequeuePos <= q < w.enqueuePos ensures w.TicketOk(q) {
      assert v.TicketOk(q);
    }
    forall u | 0 <= u < |w.threads| ensures w.ThreadOk(u) && (u != t ==> !w.threads[u].HoldsPop(p)) {
      ClaimPopThread(v, w, t, u);
    }
    ClaimPopHeldOnce(v, w, t);
  }

  lemma ClaimPopThread(v: View, w: View, t: nat, u: nat)
    requires v.Inv() && t < |v.threads| && v.threads[t] == PopReady(v.dequeuePos) && u < |v.threads|
    requires w == ClaimedPop(v, t, v.dequeuePos) && w.Shape()
    ensures w.ThreadOk(u) && (u != t ==> !w.threads[u].HoldsPop(v.dequeuePos))
  {
    assert v.ThreadOk(u) && v.ThreadOk(t) && v.CellOk(v.At(v.dequeuePos));
    if u != t { assert w.threads[u] == v.threads[u]; }
  }

  lemma ClaimPopHeldOnce(v: View, w: View, t: nat)
    requires v.Inv() && t < |v.threads| && v.threads[t] == PopReady(v.dequeuePos)
    requires w == ClaimedPop(v, t, v.dequeuePos)
    requires forall u | 0 <= u < |w.threads| && u != t :: !w.threads[u].HoldsPop(v.dequeuePos)
    ensures w.HeldOnce()
  {
    forall a, b, p | 0 <= a < |w.threads| && 0 <= b < |w.threads| && a != b
      ensures !(w.threads[a].HoldsPush(p) && w.threads[b].HoldsPush(p))
      ensures !(w.threads[a].HoldsPop(p) && w.threads[b].HoldsPop(p))
    {
      assert !(v.threads[a].HoldsPush(p) && v.threads[b].HoldsPush(p));
      assert !(v.threads[a].HoldsPop(p) && v.threads[b].HoldsPop(p));
      assert a != t ==> w.threads[a] == v.threads[a];
      assert b != t ==> w.threads[b] == v.threads[b];
    }
  }

  function MovedOut(v: View, t: nat, p: nat, taken: Task): View
    requires v.capacity > 0 && |v.data| == v.capacity && t < |v.threads|
  {
    v.(data := v.data[v.At(p) := None], threads := v.threads[t := PopStore(p, taken)])
  }

  lemma MoveOutKeeps(v: View, t: nat, p: nat)
    requires v.Inv() && t < |v.threads| && v.threads[t] == PopMove(p)
    ensures v.Shape() && v.data[v.At(p)].Some? && p < v.enqueuePos && v.data[v.At(p)].value == v.tasks[p]
    ensures MovedOut(v, t, p, v.data[v.At(p)].value).Inv()
  {
    assert v.ThreadOk(t);
    var w, at := MovedOut(v, t, p, v.data[v.At(p)].value), v.At(p);
    forall i | 0 <= i < w.capacity ensures w.CellOk(i) && w.Attended(i) {
      assert v.CellOk(i) && v.Attended(i);
      if i == at {
        assert w.threads[t].HoldsPop(p);
      } else {
        DistinctCells(v, i, at);
        StillAttended(v, w, t, i);
      }
    }
    forall q | w.dequeuePos <= q < w.enqueuePos ensures w.TicketOk(q) {
      assert v.TicketOk(q);
    }
    forall u | 0 <= u < |w.threads| ensures w.ThreadOk(u) {
      MoveOutThread(v, w, t, p, u);
    }
    SameHoldings(v, w, t);
  }

  lemma MoveOutThread(v: View, w: View, t: nat, p: nat, u: nat)
    requires v.Inv() && t < |v.threads| && v.threads[t] == PopMove(p) && u < |v.threads|
    requires v.data[v.At(p)].Some? && w == MovedOut(v, t, p, v.data[v.At(p)].value) && w.Shape()
    ensures w.ThreadOk(u)
  {
    assert v.ThreadOk(u) && v.ThreadOk(t);
    if u != t {
      assert w.threads[u] == v.threads[u];
      assert !v.threads[u].HoldsPop(p);
    }
  }

  function ReleasedPop(v: View, t: nat, p: nat, taken: Task): View
    requires v.capacity > 0 && |v.cells| == |v.sequence| == v.capacity && t < |v.threads|
  {
    v.(sequence := v.sequence[v.At(p) := p + v.capacity], cells := v.cells[v.At(p) := Cell(p + v.capacity, Free)],
       threads := v.threads[t := PopDone(Some(taken))], returned := v.returned[p := taken])
  }

  lemma ReleasePopKeeps(v: View, t: nat, p: nat, taken: Task)
    requires v.Inv() && t < |v.threads| && v.threads[t] == PopStore(p, taken)
    ensures p < v.dequeuePos <= v.enqueuePos && taken == v.tasks[p]
    ensures ReleasedPop(v, t, p, taken).Inv()
  {
    assert v.ThreadOk(t);
    var w, at := ReleasedPop(v, t, p, taken), v.At(p);
    assert v.CellOk(at);
    NextLap(p, v.capacity);
    forall i | 0 <= i < w.capacity ensures w.CellOk(i) && w.Attended(i) {
      assert v.CellOk(i) && v.Attended(i);
      if i != at {
        DistinctCells(v, i, at);
        StillAttended(v, w, t, i);
      }
    }
    forall q | w.dequeuePos <= q < w.enqueuePos ensures w.TicketOk(q) {
      assert v.TicketOk(q);
    }
    forall u | 0 <= u < |w.threads| ensures w.ThreadOk(u) {
      ReleasePopThread(v, w, t, p, taken, u);
    }
    SameHoldings(v, w, t);
  }

  lemma ReleasePopThread(v: View, w: View, t: nat, p: nat, taken: Task, u: nat)
    requires v.Inv() && t < |v.threads| && v.threads[t] == PopStore(p, taken) && u < |v.threads|
    requires w == ReleasedPop(v, t, p, taken) && w.Shape()
    ensures w.ThreadOk(u)
  {
    assert v.ThreadOk(u) && v.ThreadOk(t) && v.CellOk(v.At(p));
    if u != t {
      assert w.threads[u] == v.threads[u];
      assert !v.threads[u].HoldsPop(p);
    }
  }

  // ---------- what a refusal means ----------

  /** A push finds its cell behind exactly when its position is current and the ticket one lap earlier has
      not been fully removed. */
  lemma BehindPush(v: View, p: nat)
    requires v.Inv() && p <= v.enqueuePos
    ensures v.sequence[v.At(p)] < p <==>
      p == v.enqueuePos && v.cells[v.At(p)].ticket + v.capacity == p && v.cells[v.At(p)].phase != Free
  {
    var c := v.cells[v.At(p)].ticket;
    assert v.CellOk(v.At(p));
    if v.sequence[v.At(p)] < p {
      NextLap(c, v.capacity);
      SameRemainder(p, c + v.capacity, v.capacity);
    }
  }

  /** Whether the queue is full then is a question of who holds that ticket: it is full exactly when no pop
      has claimed it. */
  lemma RefusedAndNotFull(v: View)
    requires v.Inv() && v.sequence[v.At(v.enqueuePos)] < v.enqueuePos
    ensures |v.Contents()| < v.capacity <==> v.cells[v.At(v.enqueuePos)].phase == Popping
  {
    BehindPush(v, v.enqueuePos);
    assert v.CellOk(v.At(v.enqueuePos));
  }

  /** A pop finds its cell behind exactly when its position is current and the queue is empty, or the next
      ticket is claimed but its task is not published yet. */
  lemma BehindPop(v: View, p: nat)
    requires v.Inv() && p <= v.dequeuePos
    ensures v.sequence[v.At(p)] < p + 1 <==>
      p == v.dequeuePos && (v.dequeuePos == v.enqueuePos || v.cells[v.At(p)] == Cell(p, Pushing))
  {
    var c := v.cells[v.At(p)];
    assert v.CellOk(v.At(p));
    if c.phase == Popping {
      NextLap(c.ticket, v.capacity);
      if v.sequence[v.At(p)] < p + 1 || p == v.dequeuePos == v.enqueuePos {
        SameRemainder(p, c.ticket + v.capacity, v.capacity);
      }
    } else if p == v.dequeuePos == v.enqueuePos {
      SameRemainder(p, c.ticket, v.capacity);
    }
  }

  ghost predicate Quiet(v: View) {
    forall t | 0 <= t < |v.threads| :: !v.threads[t].InFlight()
  }

  lemma QuietPhase(v: View, i: nat)
    requires v.Inv() && Quiet(v) && i < v.capacity
    ensures v.cells[i].phase == Free || v.cells[i].phase == Full
  {
    assert v.Attended(i);
  }

  /** With no operation in flight a push is refused exactly when the queue is full. */
  lemma QuietPush(v: View)
    requires v.Inv() && Quiet(v)
    ensures v.sequence[v.At(v.enqueuePos)] < v.enqueuePos <==> |v.Contents()| == v.capacity
    ensures v.sequence[v.At(v.enqueuePos)] >= v.enqueuePos ==> v.cells[v.At(v.enqueuePos)] == Cell(v.enqueuePos, Free)
  {
    var p, i := v.enqueuePos, v.At(v.enqueuePos);
    var c := v.cells[i];
    assert v.CellOk(i);
    QuietPhase(v, i);
    if v.sequence[i] < p {
      BehindPush(v, p);
    }
    if c.phase == Free {
      SameRemainder(p, c.ticket, v.capacity);
      RoomToClaim(v);
    } else if v.sequence[i] >= p {
      NextLap(c.ticket, v.capacity);
      SameRemainder(p, c.ticket + v.capacity, v.capacity);
    }
  }

  /** With no operation in flight a pop finds nothing exactly when the queue is empty. */
  lemma QuietPop(v: View)
    requires v.Inv() && Quiet(v)
    ensures v.sequence[v.At(v.dequeuePos)] < v.dequeuePos + 1 <==> |v.Contents()| == 0
    ensures v.sequence[v.At(v.dequeuePos)] >= v.dequeuePos + 1 ==> v.cells[v.At(v.dequeuePos)] == Cell(v.dequeuePos, Full)
  {
    var p, i := v.dequeuePos, v.At(v.dequeuePos);
    assert v.CellOk(i);
    QuietPhase(v, i);
    if v.sequence[i] < p + 1 {
      BehindPop(v, p);
    }
    if v.dequeuePos < v.enqueuePos {
      assert v.TicketOk(p);
    } else {
      SameRemainder(p, v.cells[i].ticket, v.capacity);
    }
  }

  // ---------- the queue ----------

  /** What the loaded sequence number tells a push, and a pop. */
  function CheckedPush(sequence: nat, task: Task, p: nat): Local {
    match CompareSequence(sequence, p)
    case Equal => PushReady(task, p)
    case Behind => PushDone(false)
    case Ahead => PushStart(task)
  }

  function CheckedPop(sequence: nat, p: nat): Local {
    match CompareSequence(sequence, p + 1)
    case Equal => PopReady(p)
    case Behind => PopDone(None)
    case Ahead => PopStart
  }

  function CheckedEmpty(sequence: nat, p: nat): Local {
    match CompareSequence(sequence, p + 1)
    case Equal => EmptyDone(false)
    case Behind => EmptyDone(true)
    case Ahead => EmptyStart
  }

  /** A cell that shows the oldest ticket as full is that ticket's: with at least two cells no other
      ticket of the cell is one off. */
  lemma OldestIsFull(v: View)
    requires v.Inv() && v.sequence[v.At(v.dequeuePos)] == v.dequeuePos + 1
    ensures v.cells[v.At(v.dequeuePos)] == Cell(v.dequeuePos, Full)
  {
    var p, c := v.dequeuePos, v.cells[v.At(v.dequeuePos)];
    assert v.CellOk(v.At(p));
    if c.ticket == p + 1 {
      SameRemainder(p, p + 1, v.capacity);
    }
  }

  /** Likewise, a cell that shows the next push ticket is free for it. */
  lemma NextIsFree(v: View)
    requires v.Inv() && v.sequence[v.At(v.enqueuePos)] == v.enqueuePos
    ensures v.cells[v.At(v.enqueuePos)] == Cell(v.enqueuePos, Free)
  {
    var p, c := v.enqueuePos, v.cells[v.At(v.enqueuePos)];
    assert v.CellOk(v.At(p));
    if c.ticket + 1 == p {
      SameRemainder(c.ticket, p, v.capacity);
    }
  }

  lemma CheckPushOk(v: View, t: nat, task: Task, p: nat)
    requires v.Inv() && v.enqueuePos + v.capacity <= PTRDIFF_MAX
    requires t < |v.threads| && v.threads[t] == PushCheck(task, p)
    ensures p <= v.enqueuePos
    ensures var next := CheckedPush(v.sequence[v.At(p)], task, p);
            && v.(threads := v.threads[t := next]).ThreadOk(t) && !next.InFlight()
            && (next.PushDone? <==> p == v.enqueuePos && LapBehind(v)) && (next.PushDone? ==> !next.ok)
  {
    assert v.ThreadOk(t) && v.CellOk(v.At(p));
    CompareSequenceIsOrder(v.sequence[v.At(p)], p);
    BehindPush(v, p);
    if LapBehind(v) {
      var i :| 0 <= i < |v.cells| && v.cells[i].ticket + v.capacity == v.enqueuePos && v.cells[i].phase != Free;
      assert v.CellOk(i);
      NextLap(v.cells[i].ticket, v.capacity);
    }
    if v.sequence[v.At(p)] == p && p == v.enqueuePos {
      NextIsFree(v);
    }
  }

  /** The ticket one lap before the next push has not been fully removed. */
  ghost predicate LapBehind(v: View) {
    exists i :: 0 <= i < |v.cells| && v.cells[i].ticket + v.capacity == v.enqueuePos && v.cells[i].phase != Free
  }

  lemma CheckPopOk(v: View, t: nat, p: nat)
    requires v.Inv() && v.enqueuePos + v.capacity <= PTRDIFF_MAX
    requires t < |v.threads| && v.threads[t] == PopCheck(p)
    ensures p <= v.dequeuePos
    ensures var next := CheckedPop(v.sequence[v.At(p)], p);
            && v.(threads := v.threads[t := next]).ThreadOk(t) && !next.InFlight()
            && (next.PopDone? <==> p == v.dequeuePos && NothingReady(v)) && (next.PopDone? ==> next.result.None?)
  {
    assert v.ThreadOk(t) && v.CellOk(v.At(p));
    CompareSequenceIsOrder(v.sequence[v.At(p)], p + 1);
    BehindPop(v, p);
    assert forall i | 0 <= i < |v.cells| && v.cells[i] == Cell(v.dequeuePos, Pushing) :: v.CellOk(i);
    if v.sequence[v.At(p)] == p + 1 && p == v.dequeuePos {
      OldestIsFull(v);
    }
  }

  /** `empty` answers yes exactly when there is nothing for a pop to take; if it answers no, the task it saw
      is queued or is being taken out at that moment. */
  lemma CheckEmptyOk(v: View, p: nat)
    requires v.Inv() && v.enqueuePos + v.capacity <= PTRDIFF_MAX && p <= v.dequeuePos
    ensures var next := CheckedEmpty(v.sequence[v.At(p)], p);
            && !next.InFlight()
            && (next == EmptyDone(true) <==> p == v.dequeuePos && NothingReady(v))
            && (next == EmptyDone(false) ==> v.cells[v.At(p)] == Cell(p, if p < v.dequeuePos then Popping else Full))
  {
    var c := v.cells[v.At(p)];
    assert v.CellOk(v.At(p));
    CompareSequenceIsOrder(v.sequence[v.At(p)], p + 1);
    BehindPop(v, p);
    assert forall i | 0 <= i < |v.cells| && v.cells[i] == Cell(v.dequeuePos, Pushing) :: v.CellOk(i);
    if v.sequence[v.At(p)] == p + 1 && c.ticket == p + 1 {
      SameRemainder(p, p + 1, v.capacity);
    }
  }

  /** The queue is empty, or the oldest claimed ticket is still being published. */
  ghost predicate NothingReady(v: View) {
    v.dequeuePos == v.enqueuePos || exists i :: 0 <= i < |v.cells| && v.cells[i] == Cell(v.dequeuePos, Pushing)
  }

  lemma StartIsOk(v: View)
    requires v.capacity >= 2 && |v.sequence| == |v.data| == |v.cells| == v.capacity
    requires v.enqueuePos == v.dequeuePos == 0 && v.tasks == [] && v.returned == map[]
    requires forall i | 0 <= i < v.capacity :: v.sequence[i] == i && v.cells[i] == Cell(i, Free)
    requires forall t | 0 <= t < |v.threads| :: v.threads[t].Idle?
    ensures v.Inv() && v.ReturnedOk()
  {
    forall i | 0 <= i < v.capacity ensures v.CellOk(i) && v.Attended(i) {
      ModUnique(i, v.capacity, 0, i);
    }
  }

  class LockFreeQueue {
    const capacity: nat
    const sequence: array<nat>
    const data: array<Option<Task>>
    var enqueuePos: nat
    var dequeuePos: nat

    /** The threads that use the queue. */
    var threads: seq<Local>

    ghost var cells: seq<Cell>
    ghost var tasks: seq<Task>
    ghost var returned: map<nat, Task>

    ghost function Now(): View
      reads this, sequence, data
    {
      View(capacity, enqueuePos, dequeuePos, sequence[..], data[..], cells, tasks, threads, returned)
    }

    ghost predicate Valid()
      reads this, sequence, data
    {
      && Now().Inv() && Now().ReturnedOk()
      && enqueuePos + capacity <= PTRDIFF_MAX
    }

    /** The constructor, for a capacity the source accepts. */
    constructor (capacity: nat, threadCount: nat)
      requires 2 <= capacity && capacity <= PTRDIFF_MAX
      ensures Valid() && this.capacity == capacity && |threads| == threadCount && Now().Contents() == [] && Quiet(Now())
      ensures enqueuePos == 0
      ensures forall t | 0 <= t < threadCount :: threads[t].Idle?
      ensures fresh(sequence) && fresh(data)
    {
      this.capacity := capacity;
      sequence := new nat[capacity](i => i);
      data := new Option<Task>[capacity](_ => None);
      enqueuePos, dequeuePos := 0, 0;
      threads := seq(threadCount, _ => Idle);
      cells := seq(capacity, i requires 0 <= i < capacity => Cell(i, Free));
      tasks, returned := [], map[];
      new;
      StartIsOk(Now());
    }

    /** A thread starts an operation, or one of its local steps. */
    method Move(t: nat, next: Local)
      requires Valid() && t < |threads| && !threads[t].InFlight() && !next.InFlight()
      requires Now().(threads := threads[t := next]).ThreadOk(t)
      modifies this`threads
      ensures Valid() && Now() == old(Now()).(threads := old(threads)[t := next])
    {
      ThreadMoves(Now(), t, next);
      SameReturns(Now(), Now().(threads := threads[t := next]), t);
      threads := threads[t := next];
    }

    method LoadEnqueuePos(t: nat)
      requires Valid() && t < |threads| && threads[t].PushStart?
      modifies this`threads
      ensures Valid() && Now() == old(Now()).(threads := old(threads)[t := PushCheck(old(threads)[t].task, enqueuePos)])
    {
      Move(t, PushCheck(threads[t].task, enqueuePos));
    }

    /** The sequence is loaded and compared. A refusal means that the ticket one lap earlier is still in
        its cell. */
    method CheckPush(t: nat)
      requires Valid() && t < |threads| && threads[t].PushCheck?
      modifies this`threads
      ensures Valid()
      ensures old(threads)[t].position <= enqueuePos
      ensures var p := old(threads)[t].position;
              Now() == old(Now()).(threads := old(threads)[t := CheckedPush(Now().sequence[Now().At(p)], old(threads)[t].task, p)])
      ensures threads[t].PushDone? <==> old(threads)[t].position == enqueuePos && LapBehind(Now())
      ensures threads[t].PushDone? ==> !threads[t].ok
    {
      var task, p := threads[t].task, threads[t].position;
      CheckPushOk(Now(), t, task, p);
      Move(t, CheckedPush(sequence[p % capacity], task, p));
    }

    /** compare_exchange_weak: it may fail for no reason, and a failure loads the current position. */
    method ClaimPush(t: nat, spurious: bool)
      requires Valid() && t < |threads| && threads[t].PushReady? && enqueuePos + 1 + capacity <= PTRDIFF_MAX
      modifies this
      ensures Valid()
      ensures Now() == if old(enqueuePos) == old(threads)[t].position && !spurious
                       then ClaimedPush(old(Now()), t, old(threads)[t].task, old(enqueuePos))
                       else old(Now()).(threads := old(threads)[t := PushCheck(old(threads)[t].task, enqueuePos)])
    {
      var task, p := threads[t].task, threads[t].position;
      if enqueuePos == p && !spurious {
        ClaimPushKeeps(Now(), t, task);
        SameReturns(Now(), ClaimedPush(Now(), t, task, p), t);
        cells := cells[p % capacity := Cell(p, Pushing)];
        tasks := tasks + [task];
        enqueuePos := enqueuePos + 1;
        threads := threads[t := PushMove(task, p)];
      } else {
        Move(t, PushCheck(task, enqueuePos));
      }
    }

    method MoveIn(t: nat)
      requires Valid() && t < |threads| && threads[t].PushMove?
      modifies this`threads, data
      ensures Valid() && Now() == MovedIn(old(Now()), t, old(threads)[t].task, old(threads)[t].position)
    {
      var task, p := threads[t].task, threads[t].position;
      ghost var v := Now();
      MoveInKeeps(v, t, task, p);
      SameReturns(v, MovedIn(v, t, task, p), t);
      data[p % capacity] := Some(task);
      threads := threads[t := PushStore(task, p)];
      assert Now() == MovedIn(v, t, task, p);
    }

    method StorePush(t: nat)
      requires Valid() && t < |threads| && threads[t].PushStore?
      modifies this, sequence
      ensures Valid() && Now() == PublishedPush(old(Now()), t, old(threads)[t].position)
    {
      var p := threads[t].position;
      ghost var v := Now();
      PublishPushKeeps(v, t, threads[t].task, p);
      SameReturns(v, PublishedPush(v, t, p), t);
      sequence[p % capacity] := p + 1;
      cells := cells[p % capacity := Cell(p, Full)];
      threads := threads[t := PushDone(true)];
      assert Now() == PublishedPush(v, t, p);
    }

    method LoadDequeuePos(t: nat)
      requires Valid() && t < |threads| && threads[t].PopStart?
      modifies this`threads
      ensures Valid() && Now() == old(Now()).(threads := old(threads)[t := PopCheck(dequeuePos)])
    {
      Move(t, PopCheck(dequeuePos));
    }

    /** A pop that gives up: the queue is empty, or the oldest claimed ticket is still being published. */
    method CheckPop(t: nat)
      requires Valid() && t < |threads| && threads[t].PopCheck?
      modifies this`threads
      ensures Valid()
      ensures old(threads)[t].position <= dequeuePos
      ensures var p := old(threads)[t].position;
              Now() == old(Now()).(threads := old(threads)[t := CheckedPop(Now().sequence[Now().At(p)], p)])
      ensures threads[t].PopDone? <==> old(threads)[t].position == dequeuePos && NothingReady(Now())
      ensures threads[t].PopDone? ==> threads[t].result.None?
    {
      var p := threads[t].position;
      CheckPopOk(Now(), t, p);
      Move(t, CheckedPop(sequence[p % capacity], p));
    }

    method ClaimPop(t: nat, spurious: bool)
      requires Valid() && t < |threads| && threads[t].PopReady?
      modifies this
      ensures Valid()
      ensures Now() == if old(dequeuePos) == old(threads)[t].position && !spurious
                       then ClaimedPop(old(Now()), t, old(dequeuePos))
                       else old(Now()).(threads := old(threads)[t := PopCheck(dequeuePos)])
    {
      var p := threads[t].position;
      if dequeuePos == p && !spurious {
        ClaimPopKeeps(Now(), t);
        ClaimReturns(Now(), t);
        cells := cells[p % capacity := Cell(p, Popping)];
        dequeuePos := dequeuePos + 1;
        threads := threads[t := PopMove(p)];
      } else {
        Move(t, PopCheck(dequeuePos));
      }
    }

    method MoveOut(t: nat)
      requires Valid() && t < |threads| && threads[t].PopMove?
      modifies this`threads, data
      ensures Valid() && old(threads)[t].position < |tasks|
      ensures Now() == MovedOut(old(Now()), t, old(threads)[t].position, tasks[old(threads)[t].position])
    {
      var p := threads[t].position;
      ghost var v := Now();
      MoveOutKeeps(v, t, p);
      var taken := data[p % capacity].value;
      SameReturns(v, MovedOut(v, t, p, taken), t);
      data[p % capacity] := None;
      threads := threads[t := PopStore(p, taken)];
      assert Now() == MovedOut(v, t, p, taken);
    }

    /** The pop of ticket p ends with the task that was pushed with ticket p, which nobody else gets. */
    method StorePop(t: nat)
      requires Valid() && t < |threads| && threads[t].PopStore?
      modifies this, sequence
      ensures Valid() && old(threads)[t].position < |tasks|
      ensures Now() == ReleasedPop(old(Now()), t, old(threads)[t].position, tasks[old(threads)[t].position])
      ensures old(threads)[t].position !in old(returned)
    {
      var p, taken := threads[t].position, threads[t].taken;
      ghost var v := Now();
      ReleasePopKeeps(v, t, p, taken);
      ReleaseReturns(v, t, p, taken);
      sequence[p % capacity] := p + capacity;
      cells := cells[p % capacity := Cell(p + capacity, Free)];
      threads := threads[t := PopDone(Some(taken))];
      returned := returned[p := taken];
      assert Now() == ReleasedPop(v, t, p, taken);
    }

    method LoadForEmpty(t: nat)
      requires Valid() && t < |threads| && threads[t].EmptyStart?
      modifies this`threads
      ensures Valid() && Now() == old(Now()).(threads := old(threads)[t := EmptyCheck(dequeuePos)])
    {
      Move(t, EmptyCheck(dequeuePos));
    }

    /** `empty` looks at the oldest cell. */
    method CheckEmpty(t: nat)
      requires Valid() && t < |threads| && threads[t].EmptyCheck?
      modifies this`threads
      ensures Valid() && old(threads)[t].position <= dequeuePos
      ensures var p := old(threads)[t].position;
              Now() == old(Now()).(threads := old(threads)[t := CheckedEmpty(Now().sequence[Now().At(p)], p)])
      ensures threads[t] == EmptyDone(true) <==> old(threads)[t].position == dequeuePos && NothingReady(Now())
    {
      var p := threads[t].position;
      assert Now().ThreadOk(t);
      CheckEmptyOk(Now(), p);
      Move(t, CheckedEmpty(sequence[p % capacity], p));
    }

    // ---------- any interleaving ----------

    /** Thread t takes its next step, whatever that is. */
    method Step(t: nat, spurious: bool)
      requires Valid() && t < |threads| && enqueuePos + 1 + capacity <= PTRDIFF_MAX
      modifies this, sequence, data
      ensures Valid() && |threads| == old(|threads|) && old(tasks) <= tasks
      ensures forall k | k in old(returned) :: k in returned && returned[k] == old(returned)[k]
    {
      hide View.CellOk, View.TicketOk, View.Attended, View.HeldOnce;
      match threads[t]
      case PushStart(_) => LoadEnqueuePos(t);
      case PushCheck(_, _) => CheckPush(t);
      case PushReady(_, _) => ClaimPush(t, spurious);
      case PushMove(_, _) => MoveIn(t);
      case PushStore(_, _) => StorePush(t);
      case PopStart => LoadDequeuePos(t);
      case PopCheck(_) => CheckPop(t);
      case PopReady(_) => ClaimPop(t, spurious);
      case PopMove(_) => MoveOut(t);
      case PopStore(_, _) => StorePop(t);
      case EmptyStart => LoadForEmpty(t);
      case EmptyCheck(_) => CheckEmpty(t);
      case _ =>
        var choice: int, task: int := *, *;
        Move(t, if choice == 0 then PushStart(if task < 0 then 0 else task) else if choice == 1 then PopStart else EmptyStart);
    }

    /** Any number of threads, any operations, any interleaving of their steps, any spurious failure. */
    method Run(steps: nat)
      requires Valid()
      modifies this, sequence, data
      ensures Valid() && |threads| == old(|threads|) && old(tasks) <= tasks
    {
      for i := 0 to steps
        invariant Valid() && |threads| == old(|threads|) && old(tasks) <= tasks
      {
        var t: int, spurious: bool := *, *;
        if 0 <= t < |threads| && enqueuePos + 1 + capacity <= PTRDIFF_MAX {
          Step(t, spurious);
        }
      }
    }

    // ---------- one operation at a time: the bounded queue ----------

    ghost function Contents(): seq<Task>
      requires Valid()
      reads this, sequence, data
    {
      Now().Contents()
    }

    /** The second half of a push that nobody disturbs. */
    method FinishPush(t: nat)
      requires Valid() && Quiet(Now()) && t < |threads| && enqueuePos + 1 + capacity <= PTRDIFF_MAX
      requires threads[t].PushReady? && threads[t].position == enqueuePos
      modifies this, sequence, data
      ensures Valid() && Quiet(Now()) && |threads| == old(|threads|) && enqueuePos == old(enqueuePos) + 1
      ensures Contents() == old(Contents()) + [old(threads)[t].task]
    {
      ghost var v, task := Now(), threads[t].task;
      ClaimPush(t, false);
      MoveIn(t);
      StorePush(t);
      assert Now() == PublishedPush(MovedIn(ClaimedPush(v, t, task, v.enqueuePos), t, task, v.enqueuePos), t, v.enqueuePos);
      PushedAlone(v, Now(), t, task);
    }

    /** `push` with nobody else at work. */
    method Push(t: nat, task: Task) returns (ok: bool)
      requires Valid() && Quiet(Now()) && t < |threads| && enqueuePos + 1 + capacity <= PTRDIFF_MAX
      modifies this, sequence, data
      ensures Valid() && Quiet(Now()) && |threads| == old(|threads|) && enqueuePos <= old(enqueuePos) + 1
      ensures ok <==> |old(Contents())| < capacity
      ensures Contents() == if ok then old(Contents()) + [task] else old(Contents())
    {
      Move(t, PushStart(task));
      LoadEnqueuePos(t);
      CheckPushAlone(Now(), task);
      CheckPush(t);
      if threads[t].PushDone? {
        return false;
      }
      FinishPush(t);
      ok := true;
    }

    /** The second half of a pop that nobody disturbs. */
    method FinishPop(t: nat) returns (result: Task)
      requires Valid() && Quiet(Now()) && t < |threads| && dequeuePos < enqueuePos
      requires threads[t].PopReady? && threads[t].position == dequeuePos
      modifies this, sequence, data
      ensures Valid() && Quiet(Now()) && |threads| == old(|threads|) && enqueuePos == old(enqueuePos)
      ensures old(Contents()) == [result] + Contents()
    {
      ghost var v, p := Now(), dequeuePos;
      ClaimPop(t, false);
      MoveOut(t);
      StorePop(t);
      assert Now() == ReleasedPop(MovedOut(ClaimedPop(v, t, p), t, p, v.tasks[p]), t, p, v.tasks[p]);
      PoppedAlone(v, Now(), t);
      result := threads[t].result.value;
    }

    /** `pop` with nobody else at work. */
    method Pop(t: nat) returns (result: Option<Task>)
      requires Valid() && Quiet(Now()) && t < |threads|
      modifies this, sequence, data
      ensures Valid() && Quiet(Now()) && |threads| == old(|threads|) && enqueuePos == old(enqueuePos)
      ensures result == if old(Contents()) == [] then None else Some(old(Contents())[0])
      ensures Contents() == if old(Contents()) == [] then [] else old(Contents())[1..]
    {
      Move(t, PopStart);
      LoadDequeuePos(t);
      CheckPopAlone(Now());
      CheckPop(t);
      if threads[t].PopDone? {
        return None;
      }
      var task := FinishPop(t);
      result := Some(task);
    }
  }

  lemma SameReturns(v: View, w: View, t: nat)
    requires v.Inv() && w.Inv() && v.ReturnedOk() && w.returned == v.returned && w.dequeuePos == v.dequeuePos
    requires v.tasks <= w.tasks && |w.threads| == |v.threads| && t < |v.threads|
    requires forall u | 0 <= u < |v.threads| && u != t :: w.threads[u] == v.threads[u]
    requires forall k :: w.threads[t].HoldsPop(k) <==> v.threads[t].HoldsPop(k)
    ensures w.ReturnedOk()
  {
    forall u, k | 0 <= u < |w.threads| && w.threads[u].HoldsPop(k) ensures k !in w.returned {
      assert v.threads[u].HoldsPop(k);
    }
    forall k | 0 <= k < w.dequeuePos && k !in w.returned ensures exists u :: 0 <= u < |w.threads| && w.threads[u].HoldsPop(k) {
      var u :| 0 <= u < |v.threads| && v.threads[u].HoldsPop(k);
      assert w.threads[u].HoldsPop(k);
    }
  }

  lemma ClaimReturns(v: View, t: nat)
    requires v.Inv() && v.ReturnedOk() && t < |v.threads| && v.threads[t] == PopReady(v.dequeuePos)
    requires ClaimedPop(v, t, v.dequeuePos).Inv()
    ensures ClaimedPop(v, t, v.dequeuePos).ReturnedOk()
  {
    var w := ClaimedPop(v, t, v.dequeuePos);
    forall u, k | 0 <= u < |w.threads| && w.threads[u].HoldsPop(k) ensures k !in w.returned {
      if u != t { assert v.threads[u].HoldsPop(k); }
    }
    forall k | 0 <= k < w.dequeuePos && k !in w.returned ensures exists u :: 0 <= u < |w.threads| && w.threads[u].HoldsPop(k) {
      if k == v.dequeuePos {
        assert w.threads[t].HoldsPop(k);
      } else {
        var u :| 0 <= u < |v.threads| && v.threads[u].HoldsPop(k);
        assert w.threads[u].HoldsPop(k);
      }
    }
  }

  lemma ReleaseReturns(v: View, t: nat, p: nat, taken: Task)
    requires v.Inv() && v.ReturnedOk() && t < |v.threads| && v.threads[t] == PopStore(p, taken)
    requires p < v.dequeuePos && taken == v.tasks[p] && ReleasedPop(v, t, p, taken).Inv()
    ensures p !in v.returned && ReleasedPop(v, t, p, taken).ReturnedOk()
  {
    var w := ReleasedPop(v, t, p, taken);
    assert v.threads[t].HoldsPop(p);
    forall u, k | 0 <= u < |w.threads| && w.threads[u].HoldsPop(k) ensures k !in w.returned {
      assert v.threads[u].HoldsPop(k) && u != t;
    }
    forall k | 0 <= k < w.dequeuePos && k !in w.returned ensures exists u :: 0 <= u < |w.threads| && w.threads[u].HoldsPop(k) {
      var u :| 0 <= u < |v.threads| && v.threads[u].HoldsPop(k);
      assert w.threads[u].HoldsPop(k);
    }
  }

  lemma PushedAlone(v: View, w: View, t: nat, task: Task)
    requires v.Inv() && Quiet(v) && t < |v.threads|
    requires w == PublishedPush(MovedIn(ClaimedPush(v, t, task, v.enqueuePos), t, task, v.enqueuePos), t, v.enqueuePos)
    ensures Quiet(w) && w.Contents() == v.Contents() + [task]
  {
    forall u | 0 <= u < |w.threads| ensures !w.threads[u].InFlight() {
      if u != t { assert w.threads[u] == v.threads[u]; }
    }
  }

  lemma PoppedAlone(v: View, w: View, t: nat)
    requires v.Inv() && Quiet(v) && t < |v.threads| && v.dequeuePos < v.enqueuePos
    requires var p := v.dequeuePos; w == ReleasedPop(MovedOut(ClaimedPop(v, t, p), t, p, v.tasks[p]), t, p, v.tasks[p])
    ensures Quiet(w) && v.Contents() == [v.tasks[v.dequeuePos]] + w.Contents()
    ensures w.threads[t] == PopDone(Some(v.tasks[v.dequeuePos]))
  {
    forall u | 0 <= u < |w.threads| ensures !w.threads[u].InFlight() {
      if u != t { assert w.threads[u] == v.threads[u]; }
    }
  }

  /** What the check tells a push, and a pop, that nobody disturbs. */
  lemma CheckPushAlone(v: View, task: Task)
    requires v.Inv() && Quiet(v) && v.enqueuePos + v.capacity <= PTRDIFF_MAX
    ensures CheckedPush(v.sequence[v.At(v.enqueuePos)], task, v.enqueuePos)
         == if |v.Contents()| < v.capacity then PushReady(task, v.enqueuePos) else PushDone(false)
  {
    QuietPush(v);
    assert v.CellOk(v.At(v.enqueuePos));
    CompareSequenceIsOrder(v.sequence[v.At(v.enqueuePos)], v.enqueuePos);
  }

  lemma CheckPopAlone(v: View)
    requires v.Inv() && Quiet(v) && v.enqueuePos + v.capacity <= PTRDIFF_MAX
    ensures CheckedPop(v.sequence[v.At(v.dequeuePos)], v.dequeuePos)
         == if |v.Contents()| > 0 then PopReady(v.dequeuePos) else PopDone(None)
  {
    QuietPop(v);
    assert v.CellOk(v.At(v.dequeuePos));
    CompareSequenceIsOrder(v.sequence[v.At(v.dequeuePos)], v.dequeuePos + 1);
  }

  /** The constructor's check. */
  method Create(capacity: nat, threadCount: nat) returns (queue: LockFreeQueue?)
    ensures queue != null <==> 2 <= capacity <= PTRDIFF_MAX
    ensures queue != null ==> fresh(queue) && fresh(queue.sequence) && fresh(queue.data)
    ensures queue != null ==> queue.Valid() && queue.capacity == capacity && |queue.threads| == threadCount
                              && queue.Contents() == [] && Quiet(queue.Now()) && queue.enqueuePos == 0
  {
    if capacity < 2 || capacity > PTRDIFF_MAX {
      return null;
    }
    queue := new LockFreeQueue(capacity, threadCount);
  }

  method PushTwo() returns (queue: LockFreeQueue)
    ensures fresh(queue) && fresh(queue.sequence) && fresh(queue.data)
    ensures queue.Valid() && queue.capacity == 2 == |queue.threads| && queue.enqueuePos <= 2
    ensures |queue.Contents()| == 2 && Quiet(queue.Now())
  {
    hide View.CellOk, View.TicketOk, View.Attended, View.HeldOnce;
    queue := new LockFreeQueue(2, 2);
    var first := queue.Push(0, 1);
    var second := queue.Push(0, 2);
  }

  /** Two pushes, and a pop that has claimed the first task. */
  method ClaimOneOfTwo() returns (queue: LockFreeQueue)
    ensures fresh(queue) && fresh(queue.sequence) && fresh(queue.data)
    ensures queue.Valid() && queue.capacity == 2 == |queue.threads| && queue.enqueuePos <= 2
    ensures |queue.Contents()| == 1 && !queue.threads[0].InFlight() && LapBehind(queue.Now())
  {
    queue := PushTwo();
    queue.Move(1, PopStart);
    queue.LoadDequeuePos(1);
    CheckPopAlone(queue.Now());
    queue.CheckPop(1);
    ghost var p := queue.dequeuePos;
    queue.ClaimPop(1, false);
    assert queue.cells[p % 2] == Cell(p, Popping);
  }

  /** The refusal with room is reached: a third push then gives up. */
  method RefusePushWithRoom() returns (queue: LockFreeQueue)
    ensures queue.Valid() && |queue.Contents()| < queue.capacity
    ensures |queue.threads| == 2 && queue.threads[0] == PushDone(false)
  {
    queue := ClaimOneOfTwo();
    ghost var v := queue.Now();
    queue.Move(0, PushStart(3));
    queue.LoadEnqueuePos(0);
    assert LapBehind(queue.Now());
    queue.CheckPush(0);
  }

  // ---------- the reference ----------

  class ReferenceQueue {
    const capacity: nat
    var queue: seq<Task>

    constructor (capacity: nat)
      ensures this.capacity == capacity && queue == []
    {
      this.capacity, queue := capacity, [];
    }

    method Push(task: Task) returns (ok: bool)
      modifies this
      ensures ok <==> |old(queue)| < capacity
      ensures queue == if ok then old(queue) + [task] else old(queue)
    {
      if |queue| >= capacity {
        return false;
      }
      queue := queue + [task];
      ok := true;
    }

    method Pop() returns (result: Option<Task>)
      modifies this
      ensures result == if old(queue) == [] then None else Some(old(queue)[0])
      ensures queue == if old(queue) == [] then [] else old(queue)[1..]
    {
      if queue == [] {
        return None;
      }
      result := Some(queue[0]);
      queue := queue[1..];
    }
  }

  datatype Operation = PushOp(task: Task) | PopOp
  datatype Answer = Pushed(ok: bool) | Popped(result: Option<Task>)

  /** Operations that do not overlap, by whichever threads: the ticket queue answers as the reference does. */
  method RunAlone(operations: seq<Operation>, thread: seq<nat>, capacity: nat, threadCount: nat)
    returns (answers: seq<Answer>, reference: seq<Answer>)
    requires 2 <= capacity && |operations| + capacity <= PTRDIFF_MAX
    requires |thread| == |operations| && forall i | 0 <= i < |thread| :: thread[i] < threadCount
    ensures answers == reference && |answers| == |operations|
  {
    var tickets := new LockFreeQueue(capacity, threadCount);
    var bounded := new ReferenceQueue(capacity);
    answers, reference := [], [];
    for i := 0 to |operations|
      invariant tickets.Valid() && Quiet(tickets.Now()) && |tickets.threads| == threadCount && tickets.enqueuePos <= i
      invariant fresh(tickets) && fresh(tickets.sequence) && fresh(tickets.data) && fresh(bounded)
      invariant tickets.capacity == capacity == bounded.capacity && tickets.Contents() == bounded.queue
      invariant answers == reference && |answers| == i
    {
      match operations[i]
      case PushOp(task) =>
        var ok := tickets.Push(thread[i], task);
        var expected := bounded.Push(task);
        answers, reference := answers + [Pushed(ok)], reference + [Pushed(expected)];
      case PopOp =>
        var result := tickets.Pop(thread[i]);
        var expected := bounded.Pop();
        answers, reference := answers + [Popped(result)], reference + [Popped(expected)];
    }
  }
}
