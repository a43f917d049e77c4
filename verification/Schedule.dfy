/** The order in which a stage of independent tasks runs. The coordinator submits the tasks one by one;
    the executor accepts or refuses each. A refused task runs at once on the coordinator, an accepted one
    at any later moment on some worker; the stage ends when every accepted task has run. */
module Schedule {
  import opened Sequences

  /** Every task exactly once. */
  ghost predicate IsOrderOf(order: seq<nat>, n: nat) {
    && |order| == n
    && Distinct(order)
    && (forall k | k in order :: k < n)
    && (forall k | 0 <= k < n :: k in order)
  }

  /** Some accepted tasks run now, in any order. */
  method RunSome(waiting: set<nat>, all: bool) returns (ran: seq<nat>, left: set<nat>)
    ensures left <= waiting && (all ==> left == {})
    ensures forall k :: k in ran <==> k in waiting && k !in left
    ensures Distinct(ran)
    ensures |ran| + |left| == |waiting|
  {
    ran, left := [], waiting;
    while left != {}
      invariant left <= waiting
      invariant forall k :: k in ran <==> k in waiting && k !in left
      invariant Distinct(ran)
      invariant |ran| + |left| == |waiting|
      decreases left
    {
      var stop := *;
      if stop && !all {
        return;
      }
      var k :| k in left;
      ran, left := ran + [k], left - {k};
    }
  }

  /** After the first tasks were submitted each of them has run or waits. */
  ghost predicate Submitted(order: seq<nat>, waiting: set<nat>, task: nat) {
    && (forall k: nat :: k < task <==> k in order || k in waiting)
    && (forall k | k in order :: k !in waiting)
    && Distinct(order) && |order| + |waiting| == task
  }

  lemma NoneSubmitted()
    ensures Submitted([], {}, 0)
  {
  }

  lemma SomeRan(order: seq<nat>, waiting: set<nat>, task: nat, ran: seq<nat>, left: set<nat>)
    requires Submitted(order, waiting, task) && Distinct(ran)
    requires left <= waiting && |ran| + |left| == |waiting| && forall k :: k in ran <==> k in waiting && k !in left
    ensures Submitted(order + ran, left, task)
  {
    DistinctAppend(order, ran);
  }

  lemma OneSubmitted(order: seq<nat>, waiting: set<nat>, task: nat)
    requires Submitted(order, waiting, task)
    ensures Submitted(order, waiting + {task}, task + 1) && Submitted(order + [task], waiting, task + 1)
  {
    assert task !in order && task !in waiting;
    DistinctAppend(order, [task]);
  }

  /** One stage: whatever the executor accepts, and whenever the workers get to it, the tasks have run
      in some order, each of them once. */
  method StageOrder(n: nat, parallel: bool) returns (order: seq<nat>)
    ensures IsOrderOf(order, n)
  {
    hide Submitted, IsOrderOf;
    order := [];
    var waiting: set<nat> := {};
    NoneSubmitted();
    for task := 0 to n
      invariant Submitted(order, waiting, task)
    {
      ghost var order0, waiting0 := order, waiting;
      var ran;
      ran, waiting := RunSome(waiting, false);
      order := order + ran;
      SomeRan(order0, waiting0, task, ran, waiting);
      OneSubmitted(order, waiting, task);
      var accepted := *;
      if parallel && accepted {
        waiting := waiting + {task};
      } else {
        order := order + [task];
      }
    }
    ghost var order0, waiting0 := order, waiting;
    var ran;
    ran, waiting := RunSome(waiting, true);
    order := order + ran;
    SomeRan(order0, waiting0, n, ran, waiting);
    AllRan(order, waiting, n);
  }

  lemma AllRan(order: seq<nat>, waiting: set<nat>, n: nat)
    requires Submitted(order, waiting, n) && waiting == {}
    ensures IsOrderOf(order, n)
  {
  }
}
