/** The work-stealing thread pool, one atomic operation or mutex section per step, with any number of
    workers and submitters interleaved (src/scheduler/ThreadPool.cpp, src/scheduler/Worker.cpp,
    src/scheduler/Task.cpp, src/scheduler/WorkStealingQueue.cpp). */
module ThreadPool {
  import opened CheckpointTypes
  import opened Sequences

  /** A task is move-only, so it is known by a number that is never used again. */
  type Task = nat

  datatype SchedulerState = Stopped | Running | Stopping
  datatype TaskState = Pending | Executing | Finished

  /** Where a worker's loop is. */
  datatype Phase =
    | NotStarted
    | TryLocal
    | TryGlobal
    | TrySteal(victim: nat)
    | CheckStop
    | CheckDrain
    | Holding(task: Task)
    | InTask(task: Task)
    | Completing(task: Task)
    | Exited
  {
    predicate Holds() { Holding? || InTask? || Completing? }

    /** The state a held task has by then. */
    function TaskPhase(): TaskState
      requires Holds()
    {
      if Holding? then Pending else if InTask? then Executing else Finished
    }
  }

  /** A call of submit that has counted its task; it holds the lifecycle mutex. */
  datatype Submission = Submission(task: Task, worker: Option<nat>, refused: bool)

  /** How far the stopping thread is. */
  datatype StopProgress = NotStopping | Requesting(next: nat) | Joining(next: nat)

  /** Where a counted task is. */
  datatype Place = InGlobal | InLocal(worker: nat) | HeldBy(worker: nat) | InSubmit

  lemma DistinctFront(s: seq<Task>)
    requires Distinct(s) && s != []
    ensures Distinct(s[1..]) && s[0] !in s[1..] && forall y :: y in s <==> y in s[1..] || y == s[0]
  {
    assert s == [s[0]] + s[1..];
  }

  lemma DistinctBack(s: seq<Task>)
    requires Distinct(s) && s != []
    ensures var last := |s| - 1;
            Distinct(s[..last]) && s[last] !in s[..last] && forall y :: y in s <==> y in s[..last] || y == s[last]
  {
    assert s == s[..|s| - 1] + [s[|s| - 1]];
  }

  /** The pool, with where every counted task is, which were accepted, and how often each was executed. */
  datatype View = View(state: SchedulerState, outstandingTasks: nat, global: seq<Task>, locals: seq<seq<Task>>,
                       workers: seq<Phase>, stopRequested: seq<bool>, submission: Option<Submission>, stopper: StopProgress,
                       taskState: map<Task, TaskState>, places: map<Task, Place>, accepted: set<Task>,
                       executions: map<Task, nat>)
  {
    ghost predicate Shape() {
      |locals| == |workers| == |stopRequested| && executions.Keys == taskState.Keys
    }

    ghost predicate PlacedAt(x: Task, place: Place) {
      x in places && places[x] == place
    }

    /** A worker's deque and hands hold exactly what is placed there, and it leaves only a drained pool. */
    ghost predicate WorkerOk(w: nat)
      requires Shape() && w < |workers|
    {
      && Distinct(locals[w]) && (forall x | x in locals[w] :: PlacedAt(x, InLocal(w)))
      && (workers[w].Holds() ==>
            && PlacedAt(workers[w].task, HeldBy(w))
            && workers[w].task in taskState && taskState[workers[w].task] == workers[w].TaskPhase())
      && (workers[w].CheckDrain? ==> stopRequested[w])
      && (stopRequested[w] ==> state == Stopping)
      && (workers[w].Exited? ==> state == Stopping && outstandingTasks == 0)
      && (workers[w].NotStarted? <==> state == Stopped)
    }

    /** A counted task is where it is said to be; queued ones are still pending. */
    ghost predicate TaskOk(x: Task)
      requires Shape() && x in places
    {
      && x in taskState
      && match places[x]
         case InGlobal => x in global && taskState[x] == Pending && x in accepted
         case InLocal(w) => w < |workers| && x in locals[w] && taskState[x] == Pending && x in accepted
         case HeldBy(w) => w < |workers| && workers[w].Holds() && workers[w].task == x && x in accepted
         case InSubmit => submission.Some? && submission.value.task == x && taskState[x] == Pending && x !in accepted
    }

    /** A task is executed when it leaves Pending, and once; an accepted one is counted or finished. */
    ghost predicate KnownOk(x: Task)
      requires Shape() && x in taskState
    {
      && executions[x] == (if taskState[x] == Pending then 0 else 1)
      && (x in accepted ==> x in places || taskState[x] == Finished)
    }

    ghost predicate SubmissionOk()
      requires Shape()
    {
      submission.Some? ==>
        && PlacedAt(submission.value.task, InSubmit) && state == Running && |workers| > 0
        && (submission.value.worker.Some? ==>
              submission.value.worker.value < |workers| && workers[submission.value.worker.value].InTask?)
    }

    ghost predicate StopOk()
      requires Shape()
    {
      && (stopper != NotStopping <==> state == Stopping)
      && (stopper.Joining? ==> stopper.next <= |workers| && forall w | 0 <= w < stopper.next :: workers[w].Exited?)
      && (stopper.Requesting? ==> stopper.next <= |workers|)
      && (state == Stopped ==> outstandingTasks == 0)
      && (|workers| == 0 ==> outstandingTasks == 0)
    }

    ghost predicate Inv() {
      && Shape()
      && outstandingTasks == |places|
      && Distinct(global) && (forall x | x in global :: PlacedAt(x, InGlobal))
      && (forall w | 0 <= w < |workers| :: WorkerOk(w))
      && (forall x | x in places :: TaskOk(x))
      && (forall x | x in taskState :: KnownOk(x)) && accepted <= taskState.Keys
      && SubmissionOk() && StopOk()
    }
  }

  /** One task is counted, and one is uncounted. */
  lemma CountOne(places: map<Task, Place>, x: Task, place: Place)
    requires x !in places
    ensures |places[x := place]| == |places| + 1
  {
    assert places[x := place].Keys == places.Keys + {x};
  }

  lemma UncountOne(places: map<Task, Place>, x: Task)
    requires x in places
    ensures |places - {x}| == |places| - 1
  {
    assert (places - {x}).Keys == places.Keys - {x};
  }

  lemma MovePlace(places: map<Task, Place>, x: Task, place: Place)
    requires x in places
    ensures |places[x := place]| == |places|
  {
    assert places[x := place].Keys == places.Keys;
  }

  // ---------- conservation ----------

  function DequeSize(deque: seq<Task>): int {
    |deque|
  }

  function InHand(p: Phase): int {
    if p.Holds() then 1 else 0
  }

  /** The counted tasks in the first n deques, and in the hands of the first n workers. */
  ghost function InDeques(v: View, n: nat): set<Task> {
    set x | x in v.places && v.places[x].InLocal? && v.places[x].worker < n
  }

  ghost function InHands(v: View, n: nat): set<Task> {
    set x | x in v.places && v.places[x].HeldBy? && v.places[x].worker < n
  }

  lemma DequeTasks(v: View, w: nat)
    requires v.Inv() && w < |v.locals|
    ensures Distinct(v.locals[w]) && forall x :: x in v.locals[w] <==> v.PlacedAt(x, InLocal(w))
  {
    assert v.WorkerOk(w);
    forall x | v.PlacedAt(x, InLocal(w)) ensures x in v.locals[w] {
      assert v.TaskOk(x);
    }
  }

  lemma HandTask(v: View, w: nat)
    requires v.Inv() && w < |v.workers|
    ensures forall x :: v.PlacedAt(x, HeldBy(w)) <==> v.workers[w].Holds() && v.workers[w].task == x
  {
    assert v.WorkerOk(w);
    forall x | v.PlacedAt(x, HeldBy(w)) ensures v.workers[w].Holds() && v.workers[w].task == x {
      assert v.TaskOk(x);
    }
  }

  lemma OtherTasks(v: View)
    requires v.Inv()
    ensures Distinct(v.global) && forall x :: x in v.global <==> v.PlacedAt(x, InGlobal)
    ensures forall x :: v.PlacedAt(x, InSubmit) <==> v.submission.Some? && v.submission.value.task == x
    ensures forall x | x in v.places && (v.places[x].InLocal? || v.places[x].HeldBy?) :: v.places[x].worker < |v.workers|
    ensures v.outstandingTasks == |v.places|
  {
    forall x | x in v.places ensures v.TaskOk(x) {
    }
  }

  lemma {:induction false} DequesSize(v: View, n: nat)
    requires v.Inv() && n <= |v.locals|
    ensures |InDeques(v, n)| == Sum(v.locals[..n], DequeSize)
  {
    if n > 0 {
      var deque := v.locals[n - 1];
      DequesSize(v, n - 1);
      DequeTasks(v, n - 1);
      hide View.Inv;
      assert v.locals[..n][..n - 1] == v.locals[..n - 1];
      DistinctSize(deque);
      SizeOfParts(InDeques(v, n - 1), (set x | x in deque), InDeques(v, n));
    }
  }

  lemma {:induction false} HandsSize(v: View, n: nat)
    requires v.Inv() && n <= |v.workers|
    ensures |InHands(v, n)| == Sum(v.workers[..n], InHand)
  {
    if n > 0 {
      var p := v.workers[n - 1];
      HandsSize(v, n - 1);
      HandTask(v, n - 1);
      hide View.Inv;
      assert v.workers[..n][..n - 1] == v.workers[..n - 1];
      assert forall x :: x in InHands(v, n) <==> x in InHands(v, n - 1) || v.PlacedAt(x, HeldBy(n - 1));
      assert p.Holds() ==> v.PlacedAt(p.task, HeldBy(n - 1)) && p.task !in InHands(v, n - 1);
      SizeOfParts(InHands(v, n - 1), if p.Holds() then {p.task} else {}, InHands(v, n));
    }
  }

  lemma SizeOfParts<T>(a: set<T>, b: set<T>, whole: set<T>)
    requires a !! b && forall x :: x in whole <==> x in a || x in b
    ensures |whole| == |a| + |b|
  {
    assert whole == a + b;
  }

  lemma SizeOfFour<T>(a: set<T>, b: set<T>, c: set<T>, d: set<T>, whole: set<T>)
    requires a !! b !! c !! d && forall x :: x in whole <==> x in a || x in b || x in c || x in d
    ensures |whole| == |a| + |b| + |c| + |d|
  {
    SizeOfParts(a, b, a + b);
    SizeOfParts(a + b, c, a + b + c);
    SizeOfParts(a + b + c, d, whole);
  }

  ghost function Queued(v: View): set<Task> {
    set x | x in v.global
  }

  ghost function Submitting(v: View): set<Task> {
    if v.submission.Some? then {v.submission.value.task} else {}
  }

  lemma EveryTaskSomewhere(v: View)
    requires v.Inv()
    ensures Queued(v) !! InDeques(v, |v.workers|) !! InHands(v, |v.workers|) !! Submitting(v)
    ensures forall x :: x in v.places.Keys <==>
              x in Queued(v) || x in InDeques(v, |v.workers|) || x in InHands(v, |v.workers|) || x in Submitting(v)
  {
    OtherTasks(v);
    hide View.Inv;
    assert forall x :: x in Queued(v) <==> v.PlacedAt(x, InGlobal);
    assert forall x :: x in Submitting(v) <==> v.PlacedAt(x, InSubmit);
  }

  /** Outstanding tasks = queued globally + queued in the deques + in workers' hands + being submitted. */
  lemma Conservation(v: View)
    requires v.Inv()
    ensures v.outstandingTasks == |v.global| + Sum(v.locals, DequeSize) + Sum(v.workers, InHand)
                                  + (if v.submission.Some? then 1 else 0)
  {
    var n := |v.workers|;
    DequesSize(v, n);
    HandsSize(v, n);
    OtherTasks(v);
    EveryTaskSomewhere(v);
    assert |v.locals| == n;
    hide View.Inv, InDeques, InHands;
    assert v.locals[..n] == v.locals && v.workers[..n] == v.workers;
    DistinctSize(v.global);
    SizeOfFour(Queued(v), InDeques(v, n), InHands(v, n), Submitting(v), v.places.Keys);
    assert |v.places| == |v.places.Keys|;
  }

  // ---------- submit ----------

  function Counted(v: View, task: Task, worker: Option<nat>): View {
    v.(outstandingTasks := v.outstandingTasks + 1, submission := Some(Submission(task, worker, false)),
       taskState := v.taskState[task := Pending], executions := v.executions[task := 0],
       places := v.places[task := InSubmit])
  }

  lemma CountedKeeps(v: View, task: Task, worker: Option<nat>)
    requires v.Inv() && v.state == Running && |v.workers| > 0 && v.submission.None? && task !in v.taskState
    requires worker.Some? ==> worker.value < |v.workers| && v.workers[worker.value].InTask?
    ensures Counted(v, task, worker).Inv()
  {
    var w := Counted(v, task, worker);
    assert task !in v.places by {
      assert task in v.places ==> v.TaskOk(task);
    }
    CountOne(v.places, task, InSubmit);
    forall x | x in w.global ensures w.PlacedAt(x, InGlobal) {
      assert v.PlacedAt(x, InGlobal);
    }
    forall i | 0 <= i < |w.workers| ensures w.WorkerOk(i) {
      assert v.WorkerOk(i);
      assert forall x | x in v.locals[i] :: v.PlacedAt(x, InLocal(i));
    }
    forall x | x in w.places ensures w.TaskOk(x) {
      if x != task { assert v.TaskOk(x); }
    }
    forall x | x in w.taskState ensures w.KnownOk(x) {
      if x != task { assert v.KnownOk(x); }
    }
  }

  function PushedLocal(v: View, task: Task, at: nat): View
    requires at < |v.locals|
  {
    v.(locals := v.locals[at := v.locals[at] + [task]], places := v.places[task := InLocal(at)],
       accepted := v.accepted + {task}, submission := None)
  }

  lemma PushedLocalKeeps(v: View, task: Task, at: nat)
    requires v.Inv() && v.submission == Some(Submission(task, Some(at), false))
    ensures at < |v.locals| && PushedLocal(v, task, at).Inv()
  {
    var w := PushedLocal(v, task, at);
    MovePlace(v.places, task, InLocal(at));
    assert v.TaskOk(task) && v.WorkerOk(at);
    DistinctAppend(v.locals[at], [task]);
    forall x | x in w.global ensures w.PlacedAt(x, InGlobal) {
      assert v.PlacedAt(x, InGlobal);
    }
    forall i | 0 <= i < |w.workers| ensures w.WorkerOk(i) {
      assert v.WorkerOk(i);
      forall x | x in w.locals[i] ensures w.PlacedAt(x, InLocal(i)) {
        assert x in v.locals[i] ==> v.PlacedAt(x, InLocal(i));
      }
    }
    forall x | x in w.places ensures w.TaskOk(x) {
      assert v.TaskOk(x);
    }
    forall x | x in w.taskState ensures w.KnownOk(x) {
      assert v.KnownOk(x);
    }
  }

  function PushedGlobal(v: View, task: Task): View {
    v.(global := v.global + [task], places := v.places[task := InGlobal], accepted := v.accepted + {task}, submission := None)
  }

  lemma PushedGlobalKeeps(v: View, task: Task)
    requires v.Inv() && v.submission.Some? && v.submission.value.task == task
    ensures PushedGlobal(v, task).Inv()
  {
    var w := PushedGlobal(v, task);
    MovePlace(v.places, task, InGlobal);
    assert v.TaskOk(task) && task !in v.global by {
      assert task in v.global ==> v.PlacedAt(task, InGlobal);
    }
    DistinctAppend(v.global, [task]);
    forall x | x in w.global ensures w.PlacedAt(x, InGlobal) {
      assert x in v.global ==> v.PlacedAt(x, InGlobal);
    }
    forall i | 0 <= i < |w.workers| ensures w.WorkerOk(i) {
      assert v.WorkerOk(i);
      assert forall x | x in v.locals[i] :: v.PlacedAt(x, InLocal(i));
    }
    forall x | x in w.places ensures w.TaskOk(x) {
      assert v.TaskOk(x);
    }
    forall x | x in w.taskState ensures w.KnownOk(x) {
      assert v.KnownOk(x);
    }
  }

  function Uncounted(v: View, task: Task): View
    requires v.outstandingTasks > 0
  {
    v.(outstandingTasks := v.outstandingTasks - 1, places := v.places - {task}, submission := None)
  }

  lemma UncountedKeeps(v: View, task: Task)
    requires v.Inv() && v.submission.Some? && v.submission.value.task == task
    ensures v.outstandingTasks > 0 && Uncounted(v, task).Inv()
  {
    UncountOne(v.places, task);
    var w := Uncounted(v, task);
    assert v.TaskOk(task);
    forall x | x in w.global ensures w.PlacedAt(x, InGlobal) {
      assert v.PlacedAt(x, InGlobal);
    }
    forall i | 0 <= i < |w.workers| ensures w.WorkerOk(i) {
      assert v.WorkerOk(i);
      assert forall x | x in v.locals[i] :: v.PlacedAt(x, InLocal(i));
    }
    forall x | x in w.places ensures w.TaskOk(x) {
      assert v.TaskOk(x);
    }
    forall x | x in w.taskState ensures w.KnownOk(x) {
      assert v.KnownOk(x);
    }
  }

  // ---------- a worker's steps ----------

  function Moved(v: View, w: nat, next: Phase): View
    requires w < |v.workers|
  {
    v.(workers := v.workers[w := next])
  }

  /** A worker without a task moves on in its loop. */
  lemma MovedKeeps(v: View, w: nat, next: Phase)
    requires v.Inv() && w < |v.workers| && !v.workers[w].Holds() && !next.Holds()
    requires !v.workers[w].NotStarted? && !v.workers[w].Exited? && !next.NotStarted?
    requires next.CheckDrain? || next.Exited? ==> v.stopRequested[w]
    requires next.Exited? ==> v.outstandingTasks == 0
    ensures Moved(v, w, next).Inv()
  {
    var u := Moved(v, w, next);
    assert v.WorkerOk(w);
    forall x | x in u.global ensures u.PlacedAt(x, InGlobal) {
      assert v.PlacedAt(x, InGlobal);
    }
    forall i | 0 <= i < |u.workers| ensures u.WorkerOk(i) {
      assert v.WorkerOk(i);
      assert forall x | x in v.locals[i] :: v.PlacedAt(x, InLocal(i));
    }
    forall x | x in u.places ensures u.TaskOk(x) {
      assert v.TaskOk(x);
    }
    forall x | x in u.taskState ensures u.KnownOk(x) {
      assert v.KnownOk(x);
    }
  }

  /** The task x goes from a queue into the hands of worker w. */
  function Taken(v: View, w: nat, x: Task, global: seq<Task>, locals: seq<seq<Task>>): View
    requires w < |v.workers|
  {
    v.(global := global, locals := locals, workers := v.workers[w := Holding(x)], places := v.places[x := HeldBy(w)])
  }

  /** Searching workers hold nothing and have not left. */
  predicate Searching(p: Phase) {
    p.TryLocal? || p.TryGlobal? || p.TrySteal?
  }

  /** Neither the submission nor the stop is touched. */
  lemma TakenBesides(v: View, w: nat, x: Task, global: seq<Task>, locals: seq<seq<Task>>)
    requires v.Shape() && v.SubmissionOk() && v.StopOk() && w < |v.workers| && Searching(v.workers[w])
    requires |locals| == |v.locals| && x in v.places && v.places[x] != InSubmit
    ensures var u := Taken(v, w, x, global, locals); u.Shape() && u.SubmissionOk() && u.StopOk()
  {
  }

  lemma TakenGlobalWorker(v: View, w: nat, i: nat)
    requires v.Inv() && w < |v.workers| && Searching(v.workers[w]) && v.global != [] && i < |v.workers|
    ensures Taken(v, w, v.global[0], v.global[1..], v.locals).WorkerOk(i)
  {
    var x, u := v.global[0], Taken(v, w, v.global[0], v.global[1..], v.locals);
    assert v.PlacedAt(x, InGlobal) && v.TaskOk(x) && v.WorkerOk(w) && v.WorkerOk(i);
    forall y | y in u.locals[i] ensures u.PlacedAt(y, InLocal(i)) {
      assert v.PlacedAt(y, InLocal(i));
    }
  }

  lemma TakenGlobalTask(v: View, w: nat, y: Task)
    requires v.Inv() && w < |v.workers| && Searching(v.workers[w]) && v.global != [] && y in v.places
    ensures Taken(v, w, v.global[0], v.global[1..], v.locals).TaskOk(y)
  {
    assert v.PlacedAt(v.global[0], InGlobal) && v.TaskOk(v.global[0]) && v.TaskOk(y) && v.WorkerOk(w);
    assert v.global == [v.global[0]] + v.global[1..];
  }

  lemma TakenGlobalKeeps(v: View, w: nat)
    requires v.Inv() && w < |v.workers| && Searching(v.workers[w]) && v.global != []
    ensures Taken(v, w, v.global[0], v.global[1..], v.locals).Inv()
  {
    var x := v.global[0];
    var u := Taken(v, w, x, v.global[1..], v.locals);
    assert v.PlacedAt(x, InGlobal);
    TakenBesides(v, w, x, v.global[1..], v.locals);
    MovePlace(v.places, x, HeldBy(w));
    DistinctFront(v.global);
    hide View.TaskOk, View.WorkerOk, View.SubmissionOk, View.StopOk;
    forall y | y in u.global ensures u.PlacedAt(y, InGlobal) {
      assert v.PlacedAt(y, InGlobal);
    }
    forall i | 0 <= i < |u.workers| ensures u.WorkerOk(i) {
      TakenGlobalWorker(v, w, i);
    }
    forall y | y in u.places ensures u.TaskOk(y) {
      TakenGlobalTask(v, w, y);
    }
    forall y | y in u.taskState ensures u.KnownOk(y) {
      assert v.KnownOk(y);
    }
  }

  /** The same from a deque: the owner takes its newest task, a thief the oldest. */
  lemma TakenLocalKeeps(v: View, w: nat, from: nat, x: Task, rest: seq<Task>)
    requires v.Inv() && w < |v.workers| && from < |v.workers| && Searching(v.workers[w])
    requires Distinct(rest) && x !in rest && x in v.locals[from]
    requires forall y :: y in v.locals[from] <==> y in rest || y == x
    ensures Taken(v, w, x, v.global, v.locals[from := rest]).Inv()
  {
    var u := Taken(v, w, x, v.global, v.locals[from := rest]);
    assert v.WorkerOk(from) && v.PlacedAt(x, InLocal(from)) && v.TaskOk(x) && v.WorkerOk(w);
    TakenBesides(v, w, x, v.global, v.locals[from := rest]);
    hide View.TaskOk, View.WorkerOk, View.SubmissionOk, View.StopOk;
    MovePlace(v.places, x, HeldBy(w));
    forall y | y in u.global ensures u.PlacedAt(y, InGlobal) {
      assert v.PlacedAt(y, InGlobal);
    }
    forall i | 0 <= i < |u.workers| ensures u.WorkerOk(i) {
      TakenLocalWorker(v, w, from, x, rest, i);
    }
    forall y | y in u.places ensures u.TaskOk(y) {
      TakenLocalTask(v, w, from, x, rest, y);
    }
    forall y | y in u.taskState ensures u.KnownOk(y) {
      assert v.KnownOk(y);
    }
  }

  lemma TakenLocalTask(v: View, w: nat, from: nat, x: Task, rest: seq<Task>, y: Task)
    requires v.Inv() && w < |v.workers| && from < |v.workers| && Searching(v.workers[w]) && y in v.places
    requires v.PlacedAt(x, InLocal(from)) && forall z :: z in v.locals[from] <==> z in rest || z == x
    ensures Taken(v, w, x, v.global, v.locals[from := rest]).TaskOk(y)
  {
    assert v.TaskOk(y) && v.TaskOk(x) && v.WorkerOk(w);
  }

  lemma TakenLocalWorker(v: View, w: nat, from: nat, x: Task, rest: seq<Task>, i: nat)
    requires v.Inv() && w < |v.workers| && from < |v.workers| && Searching(v.workers[w]) && i < |v.workers|
    requires Distinct(rest) && x !in rest && v.PlacedAt(x, InLocal(from)) && v.TaskOk(x)
    requires forall y :: y in v.locals[from] <==> y in rest || y == x
    ensures Taken(v, w, x, v.global, v.locals[from := rest]).WorkerOk(i)
  {
    var u := Taken(v, w, x, v.global, v.locals[from := rest]);
    assert v.WorkerOk(i) && v.WorkerOk(w);
    forall y | y in u.locals[i] ensures u.PlacedAt(y, InLocal(i)) {
      assert v.PlacedAt(y, InLocal(i));
    }
  }

  function Started(v: View, w: nat, x: Task): View
    requires w < |v.workers|
  {
    v.(workers := v.workers[w := InTask(x)], taskState := v.taskState[x := Executing], executions := v.executions[x := 1])
  }

  function Ended(v: View, w: nat, x: Task): View
    requires w < |v.workers|
  {
    v.(workers := v.workers[w := Completing(x)], taskState := v.taskState[x := Finished])
  }

  lemma HeldOnce(v: View, w: nat, i: nat)
    requires v.Inv() && w < |v.workers| && i < |v.workers| && v.workers[w].Holds() && v.workers[i].Holds() && i != w
    ensures v.workers[i].task != v.workers[w].task
  {
    assert v.WorkerOk(i) && v.WorkerOk(w);
  }

  /** The compare-and-swap from Pending succeeds, and only this once. */
  lemma StartedKeeps(v: View, w: nat, x: Task)
    requires v.Inv() && w < |v.workers| && v.workers[w] == Holding(x)
    ensures x in v.taskState && v.taskState[x] == Pending && v.executions[x] == 0
    ensures Started(v, w, x).Inv()
  {
    assert v.WorkerOk(w) && v.KnownOk(x) && v.TaskOk(x);
    var u := Started(v, w, x);
    HeldTaskChanges(v, u, w, x);
    forall y | y in u.taskState ensures u.KnownOk(y) {
      assert v.KnownOk(y);
    }
  }

  lemma EndedKeeps(v: View, w: nat, x: Task)
    requires v.Inv() && w < |v.workers| && v.workers[w] == InTask(x)
    requires v.submission.Some? ==> v.submission.value.worker != Some(w)
    ensures Ended(v, w, x).Inv()
  {
    assert v.WorkerOk(w) && v.KnownOk(x) && v.TaskOk(x);
    var u := Ended(v, w, x);
    HeldTaskChanges(v, u, w, x);
    forall y | y in u.taskState ensures u.KnownOk(y) {
      assert v.KnownOk(y);
    }
  }

  /** Only the state of the task in hand changes: nobody else looks at it. */
  lemma HeldTaskChanges(v: View, u: View, w: nat, x: Task)
    requires v.Inv() && u.Shape() && w < |v.workers| && v.workers[w].Holds() && v.workers[w].task == x
    requires u == v.(workers := u.workers, taskState := u.taskState, executions := u.executions)
    requires |u.workers| == |v.workers| && u.workers[w].Holds() && u.workers[w].task == x
    requires forall i | 0 <= i < |v.workers| && i != w :: u.workers[i] == v.workers[i]
    requires u.taskState.Keys == v.taskState.Keys && x in u.taskState && u.taskState[x] == u.workers[w].TaskPhase()
    requires forall y | y in v.taskState && y != x :: u.taskState[y] == v.taskState[y]
    ensures forall i | 0 <= i < |u.workers| :: u.WorkerOk(i)
    ensures forall y | y in u.places :: u.TaskOk(y)
    ensures forall y | y in u.global :: u.PlacedAt(y, InGlobal)
  {
    assert v.WorkerOk(w);
    forall i | 0 <= i < |u.workers| ensures u.WorkerOk(i) {
      assert v.WorkerOk(i);
      assert forall y | y in v.locals[i] :: v.PlacedAt(y, InLocal(i)) && u.PlacedAt(y, InLocal(i));
      if i != w && v.workers[i].Holds() { HeldOnce(v, w, i); }
    }
    forall y | y in u.places ensures u.TaskOk(y) {
      assert v.TaskOk(y);
    }
    forall y | y in u.global ensures u.PlacedAt(y, InGlobal) {
      assert v.PlacedAt(y, InGlobal);
    }
  }

  function Completed(v: View, w: nat, x: Task): View
    requires w < |v.workers| && v.outstandingTasks > 0
  {
    v.(workers := v.workers[w := TryLocal], outstandingTasks := v.outstandingTasks - 1, places := v.places - {x})
  }

  lemma CompletedKeeps(v: View, w: nat, x: Task)
    requires v.Inv() && w < |v.workers| && v.workers[w] == Completing(x)
    ensures v.outstandingTasks > 0 && Completed(v, w, x).Inv()
  {
    assert v.WorkerOk(w) && v.TaskOk(x) && v.KnownOk(x);
    UncountOne(v.places, x);
    var u := Completed(v, w, x);
    forall y | y in u.global ensures u.PlacedAt(y, InGlobal) {
      assert v.PlacedAt(y, InGlobal);
    }
    forall i | 0 <= i < |u.workers| ensures u.WorkerOk(i) {
      assert v.WorkerOk(i);
      assert forall y | y in v.locals[i] :: v.PlacedAt(y, InLocal(i)) && u.PlacedAt(y, InLocal(i));
      if i != w && v.workers[i].Holds() { HeldOnce(v, w, i); }
    }
    forall y | y in u.places ensures u.TaskOk(y) {
      assert v.TaskOk(y);
    }
    forall y | y in u.taskState ensures u.KnownOk(y) {
      assert v.KnownOk(y);
    }
  }

  // ---------- stopping and starting ----------

  lemma StopsKeeps(v: View, u: View)
    requires v.Inv() && u.Shape() && u == v.(state := u.state, stopRequested := u.stopRequested, stopper := u.stopper)
    requires v.submission.None? && v.state != Stopped && u.state == Stopping
    requires forall w | 0 <= w < |v.workers| :: v.stopRequested[w] ==> u.stopRequested[w]
    requires u.StopOk()
    ensures u.Inv()
  {
    forall x | x in u.global ensures u.PlacedAt(x, InGlobal) {
      assert v.PlacedAt(x, InGlobal);
    }
    forall i | 0 <= i < |u.workers| ensures u.WorkerOk(i) {
      assert v.WorkerOk(i);
      assert forall x | x in v.locals[i] :: v.PlacedAt(x, InLocal(i));
    }
    forall x | x in u.places ensures u.TaskOk(x) {
      assert v.TaskOk(x);
    }
    forall x | x in u.taskState ensures u.KnownOk(x) {
      assert v.KnownOk(x);
    }
  }

  /** Nothing is counted any more: every queue is empty, nobody holds a task, and every accepted task was
      executed exactly once. */
  ghost predicate Drained(v: View) {
    && v.global == [] && (forall w | 0 <= w < |v.locals| :: v.locals[w] == [])
    && (forall w | 0 <= w < |v.workers| :: !v.workers[w].Holds())
    && (forall x | x in v.accepted :: x in v.taskState && x in v.executions && v.taskState[x] == Finished && v.executions[x] == 1)
  }

  lemma FirstIn(s: seq<Task>)
    ensures s != [] ==> s[0] in s
  {
  }

  lemma NothingCounted(v: View)
    requires v.Inv() && v.outstandingTasks == 0
    ensures v.places == map[] && Drained(v)
  {
    assert |v.places| == 0;
    assert forall x :: x !in v.places;
    assert forall x :: !v.PlacedAt(x, InGlobal);
    FirstIn(v.global);
    forall w | 0 <= w < |v.locals| ensures v.locals[w] == [] && !v.workers[w].Holds() {
      assert v.WorkerOk(w);
      FirstIn(v.locals[w]);
    }
    forall x | x in v.accepted ensures x in v.taskState && v.taskState[x] == Finished && v.executions[x] == 1 {
      assert v.KnownOk(x);
    }
  }

  /** All workers have left: the last of them saw the pool drained, and it has stayed so. */
  lemma AllExited(v: View)
    requires v.Inv() && forall w | 0 <= w < |v.workers| :: v.workers[w].Exited?
    ensures v.outstandingTasks == 0
  {
    if |v.workers| > 0 { assert v.WorkerOk(0); }
  }

  /** A pool between runs: nothing counted, every worker in the same phase. */
  lemma RestKeeps(v: View, u: View)
    requires v.Inv() && v.outstandingTasks == 0 && u.Shape() && v.submission.None?
    requires u == v.(state := u.state, workers := u.workers, stopRequested := u.stopRequested, stopper := NotStopping)
    requires |u.workers| == |v.workers|
    requires (u.state == Stopped && forall w | 0 <= w < |u.workers| :: u.workers[w] == NotStarted && !u.stopRequested[w])
          || (u.state == Running && forall w | 0 <= w < |u.workers| :: u.workers[w] == TryLocal && !u.stopRequested[w])
    ensures u.Inv()
  {
    NothingCounted(v);
    forall i | 0 <= i < |u.workers| ensures u.WorkerOk(i) {
      assert v.WorkerOk(i);
    }
    forall x | x in u.taskState ensures u.KnownOk(x) {
      assert v.KnownOk(x);
    }
  }

  class ThreadPool {
    var state: SchedulerState
    var outstandingTasks: nat
    var global: seq<Task>
    var locals: seq<seq<Task>>
    var workers: seq<Phase>
    var stopRequested: seq<bool>
    var submission: Option<Submission>
    var stopper: StopProgress
    var stopGeneration: nat
    var taskState: map<Task, TaskState>

    ghost var places: map<Task, Place>
    ghost var accepted: set<Task>
    ghost var executions: map<Task, nat>

    ghost function Now(): View
      reads this
    {
      View(state, outstandingTasks, global, locals, workers, stopRequested, submission, stopper, taskState, places, accepted, executions)
    }

    ghost predicate Valid()
      reads this
    {
      Now().Inv()
    }

    constructor (workerCount: nat)
      ensures Valid() && state == Stopped && |workers| == workerCount && accepted == {} && submission.None?
    {
      state, outstandingTasks, global, stopGeneration := Stopped, 0, [], 0;
      locals := seq(workerCount, _ => []);
      workers := seq(workerCount, _ => NotStarted);
      stopRequested := seq(workerCount, _ => false);
      submission, stopper, taskState := None, NotStopping, map[];
      places, accepted, executions := map[], {}, map[];
    }

    /** `start`, under the lifecycle mutex; it waits while the pool is stopping. */
    method Start()
      requires Valid() && submission.None? && state != Stopping
      modifies this`state, this`workers, this`stopRequested
      ensures Valid() && state == Running && |workers| == old(|workers|)
    {
      if state == Running {
        return;
      }
      ghost var v := Now();
      stopRequested := seq(|workers|, _ => false);
      workers := seq(|workers|, _ => TryLocal);
      state := Running;
      RestKeeps(v, Now());
    }

    /** The task is counted before it can be found. */
    method CountSubmitted(task: Task, worker: Option<nat>)
      requires Valid() && submission.None? && task !in taskState && state == Running && |workers| > 0
      requires worker.Some? ==> worker.value < |workers| && workers[worker.value].InTask?
      modifies this`outstandingTasks, this`submission, this`taskState, this`places, this`executions
      ensures Valid() && Now() == Counted(old(Now()), task, worker)
    {
      hide View.Inv;
      CountedKeeps(Now(), task, worker);
      outstandingTasks := outstandingTasks + 1;
      submission := Some(Submission(task, worker, false));
      taskState, executions, places := taskState[task := Pending], executions[task := 0], places[task := InSubmit];
    }

    /** The first half of `submit`, under the lifecycle mutex: refuse, or count the task. A worker may
        submit from inside a task. */
    method BeginSubmit(task: Task, worker: Option<nat>) returns (counted: bool)
      requires Valid() && submission.None? && task !in taskState
      requires worker.Some? ==> worker.value < |workers| && workers[worker.value].InTask?
      modifies this`outstandingTasks, this`submission, this`taskState, this`places, this`executions
      ensures Valid() && (counted <==> state == Running && |workers| > 0)
      ensures Now() == if counted then Counted(old(Now()), task, worker) else old(Now())
    {
      if state != Running || |workers| == 0 {
        return false;
      }
      CountSubmitted(task, worker);
      counted := true;
    }

    method PushToDeque(task: Task, at: nat)
      requires Valid() && submission == Some(Submission(task, Some(at), false))
      modifies this`locals, this`submission, this`places, this`accepted
      ensures Valid() && at < |old(locals)| && Now() == PushedLocal(old(Now()), task, at)
    {
      hide View.Inv;
      PushedLocalKeeps(Now(), task, at);
      locals := locals[at := locals[at] + [task]];
      places, accepted := places[task := InLocal(at)], accepted + {task};
      submission := None;
    }

    method PushToGlobal(task: Task)
      requires Valid() && submission.Some? && submission.value.task == task
      modifies this`global, this`submission, this`places, this`accepted
      ensures Valid() && Now() == PushedGlobal(old(Now()), task)
    {
      hide View.Inv;
      PushedGlobalKeeps(Now(), task);
      global := global + [task];
      places, accepted := places[task := InGlobal], accepted + {task};
      submission := None;
    }

    /** The task goes to the worker's own deque, or to the global queue if that has room. */
    method PushSubmitted(room: bool)
      requires Valid() && submission.Some? && !submission.value.refused
      modifies this`global, this`locals, this`submission, this`places, this`accepted
      ensures Valid()
      ensures if submission.Some? then submission.value.refused && accepted == old(accepted)
              else accepted == old(accepted) + {old(submission).value.task}
    {
      var task, worker := submission.value.task, submission.value.worker;
      if worker.Some? {
        PushToDeque(task, worker.value);
      } else if room {
        PushToGlobal(task);
      } else {
        RefusedKeeps(Now());
        submission := Some(submission.value.(refused := true));
      }
    }

    /** A refused task is uncounted again. */
    method UncountSubmitted()
      requires Valid() && submission.Some? && submission.value.refused
      modifies this`outstandingTasks, this`submission, this`places
      ensures Valid() && submission.None?
    {
      UncountedKeeps(Now(), submission.value.task);
      outstandingTasks := outstandingTasks - 1;
      places := places - {submission.value.task};
      submission := None;
    }

    /** A worker is busy submitting from inside its task. */
    predicate Blocked(w: nat)
      reads this
    {
      submission.Some? && submission.value.worker == Some(w)
    }

    /** One step of worker w's loop. A pop of the global queue may find nothing although something is
        queued; a deque never does. */
    method WorkerStep(w: nat, found: bool)
      requires Valid() && w < |workers| && !Blocked(w)
      modifies this`workers, this`global, this`locals, this`taskState, this`outstandingTasks, this`places, this`executions
      ensures Valid() && |workers| == old(|workers|)
    {
      match workers[w]
      case NotStarted =>
      case Exited =>
      case TryLocal => TakeOwn(w);
      case TryGlobal => TakeGlobal(w, found);
      case TrySteal(victim) => StealFrom(w, victim);
      case CheckStop => MoveTo(w, if stopRequested[w] then CheckDrain else TryLocal);
      case CheckDrain => LeaveOrSearch(w);
      case Holding(x) => StartTask(w);
      case InTask(x) => EndTask(w);
      case Completing(x) => CompleteTask(w);
    }

    method MoveTo(w: nat, next: Phase)
      requires Valid() && w < |workers| && !workers[w].Holds() && !workers[w].NotStarted? && !workers[w].Exited?
      requires !next.Holds() && !next.NotStarted?
      requires next.CheckDrain? || next.Exited? ==> stopRequested[w]
      requires next.Exited? ==> outstandingTasks == 0
      modifies this`workers
      ensures Valid() && workers == old(workers)[w := next]
    {
      MovedKeeps(Now(), w, next);
      workers := workers[w := next];
    }

    /** A task leaves a deque for a worker's hands. */
    method TakeFrom(w: nat, from: nat, x: Task, rest: seq<Task>)
      requires Valid() && w < |workers| && from < |workers| && from < |locals| && Searching(workers[w])
      requires Distinct(rest) && x !in rest && x in locals[from]
      requires forall y :: y in locals[from] <==> y in rest || y == x
      modifies this`workers, this`locals, this`places
      ensures Valid() && workers == old(workers)[w := Holding(x)] && locals == old(locals)[from := rest]
    {
      TakenLocalKeeps(Now(), w, from, x, rest);
      locals, workers, places := locals[from := rest], workers[w := Holding(x)], places[x := HeldBy(w)];
    }

    /** `localQueue_.pop()`: the newest task. */
    method TakeOwn(w: nat)
      requires Valid() && w < |workers| && workers[w].TryLocal?
      modifies this`workers, this`locals, this`places
      ensures Valid() && |workers| == old(|workers|)
    {
      if locals[w] == [] {
        MoveTo(w, TryGlobal);
      } else {
        assert Now().WorkerOk(w);
        DistinctBack(locals[w]);
        TakeFrom(w, w, locals[w][|locals[w]| - 1], locals[w][..|locals[w]| - 1]);
      }
    }

    /** `globalQueue_->pop()` */
    method TakeGlobal(w: nat, found: bool)
      requires Valid() && w < |workers| && workers[w].TryGlobal?
      modifies this`workers, this`global, this`places
      ensures Valid() && |workers| == old(|workers|)
    {
      if global == [] || !found {
        MoveTo(w, TrySteal(0));
        return;
      }
      hide View.Inv;
      ghost var v := Now();
      TakenGlobalKeeps(v, w);
      var x := global[0];
      global, workers, places := global[1..], workers[w := Holding(x)], places[x := HeldBy(w)];
      assert Now() == Taken(v, w, x, v.global[1..], v.locals);
    }

    /** `steal()`: the oldest task of another worker. */
    method StealFrom(w: nat, victim: nat)
      requires Valid() && w < |workers| && workers[w] == TrySteal(victim)
      modifies this`workers, this`locals, this`places
      ensures Valid() && |workers| == old(|workers|)
    {
      if victim >= |workers| {
        MoveTo(w, CheckStop);
      } else if victim == w || locals[victim] == [] {
        MoveTo(w, TrySteal(victim + 1));
      } else {
        assert Now().WorkerOk(victim);
        DistinctFront(locals[victim]);
        TakeFrom(w, victim, locals[victim][0], locals[victim][1..]);
      }
    }

    /** `drainComplete()`: leave only if nothing is outstanding. */
    method LeaveOrSearch(w: nat)
      requires Valid() && w < |workers| && workers[w].CheckDrain?
      modifies this`workers
      ensures Valid() && workers == old(workers)[w := if outstandingTasks == 0 then Exited else TryLocal]
    {
      assert Now().WorkerOk(w);
      MoveTo(w, if outstandingTasks == 0 then Exited else TryLocal);
    }

    /** `execute`: Pending becomes Running by compare-and-swap, then the function runs. */
    method StartTask(w: nat)
      requires Valid() && w < |workers| && workers[w].Holding?
      modifies this`workers, this`taskState, this`executions
      ensures Valid() && Now() == Started(old(Now()), w, old(workers)[w].task)
    {
      hide View.Inv;
      var x := workers[w].task;
      ghost var v := Now();
      StartedKeeps(v, w, x);
      taskState, executions := taskState[x := Executing], executions[x := 1];
      workers := workers[w := InTask(x)];
      assert Now() == Started(v, w, x);
    }

    method EndTask(w: nat)
      requires Valid() && w < |workers| && workers[w].InTask? && !Blocked(w)
      modifies this`workers, this`taskState
      ensures Valid() && Now() == Ended(old(Now()), w, old(workers)[w].task)
    {
      var x := workers[w].task;
      EndedKeeps(Now(), w, x);
      taskState := taskState[x := Finished];
      workers := workers[w := Completing(x)];
    }

    method CompleteTask(w: nat)
      requires Valid() && w < |workers| && workers[w].Completing?
      modifies this`workers, this`outstandingTasks, this`places
      ensures Valid() && |workers| == old(|workers|)
    {
      hide View.Inv;
      var x := workers[w].task;
      ghost var v := Now();
      CompletedKeeps(v, w, x);
      outstandingTasks, places := outstandingTasks - 1, places - {x};
      workers := workers[w := TryLocal];
      assert Now() == Completed(v, w, x);
    }

    /** `stop` takes the mutex and closes the pool to submissions. */
    method BeginStop()
      requires Valid() && submission.None? && state == Running
      modifies this`state, this`stopper
      ensures Valid() && state == Stopping
    {
      ghost var v := Now();
      state, stopper := Stopping, Requesting(0);
      StopsKeeps(v, Now());
    }

    /** `stop` asks the workers one by one, then joins them one by one; when the last has left it is done:
        the queues are empty and every accepted task has been executed exactly once. */
    method StopStep()
      requires Valid() && state == Stopping
      modifies this`state, this`stopper, this`stopRequested, this`workers, this`stopGeneration
      ensures Valid() && |workers| == old(|workers|) && accepted == old(accepted)
      ensures state == Stopped ==> outstandingTasks == 0 && Drained(Now()) && stopGeneration == old(stopGeneration) + 1
    {
      hide View.WorkerOk, View.TaskOk, View.KnownOk;
      ghost var v := Now();
      NoSubmissionWhileStopping(v);
      match stopper
      case Requesting(next) =>
        if next < |workers| {
          stopRequested, stopper := stopRequested[next := true], Requesting(next + 1);
        } else {
          stopper := Joining(0);
        }
        StopsKeeps(v, Now());
      case Joining(next) =>
        if next == |workers| {
          AllExited(v);
          state, stopper, stopGeneration := Stopped, NotStopping, stopGeneration + 1;
          workers := seq(|workers|, _ => NotStarted);
          stopRequested := seq(|workers|, _ => false);
          RestKeeps(v, Now());
          NothingCounted(Now());
        } else if workers[next].Exited? {
          stopper := Joining(next + 1);
          StopsKeeps(v, Now());
        }
      case NotStopping =>
    }

    /** Whoever comes next: a call of start or stop, a submitter, or a worker. */
    method Step(choice: int, w: int, flag: bool)
      requires Valid()
      modifies this
      ensures Valid() && |workers| == old(|workers|) && old(accepted) <= accepted
    {
      if choice == 0 && submission.None? && state != Stopping {
        Start();
      } else if choice == 1 && submission.None? && state == Running {
        BeginStop();
      } else if choice == 2 && state == Stopping {
        StopStep();
      } else if 0 <= w < |workers| && !Blocked(w) {
        WorkerStep(w, flag);
      }
    }

    /** A submitter's next step; it may be a worker inside a task. */
    method SubmitterStep(w: int, task: int, flag: bool)
      requires Valid()
      modifies this
      ensures Valid() && |workers| == old(|workers|) && old(accepted) <= accepted
    {
      if submission.None? && task >= 0 && task !in taskState {
        var byWorker := 0 <= w < |workers| && workers[w].InTask? && flag;
        var counted := BeginSubmit(task, if byWorker then Some(w) else None);
      } else if submission.Some? && submission.value.refused {
        UncountSubmitted();
      } else if submission.Some? {
        PushSubmitted(flag);
      }
    }

    /** Any interleaving. Whenever the pool is stopped, every task it accepted has been executed exactly
        once, and none is left in any queue. */
    method Run(steps: nat)
      requires Valid()
      modifies this
      ensures Valid() && |workers| == old(|workers|) && old(accepted) <= accepted
      ensures outstandingTasks == |global| + Sum(locals, DequeSize) + Sum(workers, InHand)
                                  + (if submission.Some? then 1 else 0)
      ensures state == Stopped ==> Drained(Now())
    {
      for step := 0 to steps
        invariant Valid() && |workers| == old(|workers|) && old(accepted) <= accepted
      {
        var submitter: bool, choice: int, w: int, task: int, flag: bool := *, *, *, *, *;
        if submitter {
          SubmitterStep(w, task, flag);
        } else {
          Step(choice, w, flag);
        }
      }
      Conservation(Now());
      if state == Stopped {
        StoppedIsDrained(Now());
      }
    }
  }

  /** A stopped pool owes nothing. */
  lemma StoppedIsDrained(v: View)
    requires v.Inv() && v.state == Stopped
    ensures Drained(v)
  {
    NothingCounted(v);
  }

  lemma RefusedKeeps(v: View)
    requires v.Inv() && v.submission.Some?
    ensures v.(submission := Some(v.submission.value.(refused := true))).Inv()
  {
    var u := v.(submission := Some(v.submission.value.(refused := true)));
    forall x | x in u.global ensures u.PlacedAt(x, InGlobal) {
      assert v.PlacedAt(x, InGlobal);
    }
    forall i | 0 <= i < |u.workers| ensures u.WorkerOk(i) {
      assert v.WorkerOk(i);
      assert forall x | x in v.locals[i] :: v.PlacedAt(x, InLocal(i));
    }
    forall x | x in u.places ensures u.TaskOk(x) {
      assert v.TaskOk(x);
    }
    forall x | x in u.taskState ensures u.KnownOk(x) {
      assert v.KnownOk(x);
    }
  }

  lemma NoSubmissionWhileStopping(v: View)
    requires v.Inv() && v.state == Stopping
    ensures v.submission.None?
  {
  }
}
