/**
 * The in-memory task registry of one process (tasks.py without Redis): two dictionaries,
 * changed by creation, by stopping, and by clean-ups that may run more than once per task.
 */
module Tasks {
  import opened Basics

  /** A task's uuid; only equality of ids matters. */
  type TaskId = nat
  type ItemId = string

  /** `tasks` are the keys of the task dictionary; an item's id may be missing or empty. */
  datatype Registry = Registry(tasks: set<TaskId>, itemTasks: map<Option<ItemId>, seq<TaskId>>)

  predicate Truthy(id: Option<ItemId>) {
    id.Some? && id.value != ""
  }

  function ListOf(r: Registry, id: Option<ItemId>): seq<TaskId> {
    if id in r.itemTasks then r.itemTasks[id] else []
  }

  /** Python's list.remove: the first occurrence goes. */
  function RemoveFirst(s: seq<TaskId>, x: TaskId): seq<TaskId> {
    if s == [] then [] else if s[0] == x then s[1..] else [s[0]] + RemoveFirst(s[1..], x)
  }

  function Created(r: Registry, t: TaskId, id: Option<ItemId>): Registry {
    Registry(r.tasks + {t}, r.itemTasks[id := ListOf(r, id) + [t]])
  }

  function Cleaned(r: Registry, t: TaskId, id: Option<ItemId>): Registry {
    var rest := RemoveFirst(ListOf(r, id), t);
    Registry(r.tasks - {t},
             if Truthy(id) && t in ListOf(r, id)
             then if rest == [] then r.itemTasks - {id} else r.itemTasks[id := rest]
             else r.itemTasks)
  }

  function Popped(r: Registry, t: TaskId): Registry {
    r.(tasks := r.tasks - {t})
  }

  lemma {:induction false} RemoveFirstOfDistinct(s: seq<TaskId>, x: TaskId)
    requires Distinct(s)
    ensures Distinct(RemoveFirst(s, x))
    ensures forall y :: y in RemoveFirst(s, x) <==> y in s && y != x
  {
    if s != [] {
      var rest := s[1..];
      assert forall y :: y in s <==> y == s[0] || y in rest;
      assert s[0] !in rest;
      RemoveFirstOfDistinct(rest, x);
      if s[0] != x {
        var r := RemoveFirst(rest, x);
        forall i, j | 0 <= i < j < |[s[0]] + r| ensures ([s[0]] + r)[i] != ([s[0]] + r)[j] {
          if i == 0 { assert r[j - 1] in r; }
        }
      }
    }
  }

  class TaskRegistry {
    var tasks: set<TaskId>
    var itemTasks: map<Option<ItemId>, seq<TaskId>>

    function State(): Registry
      reads this
    {
      Registry(tasks, itemTasks)
    }

    constructor ()
      ensures State() == Registry({}, map[])
    {
      tasks, itemTasks := {}, map[];
    }

    /** `taskId` stands for the fresh uuid of the new task. */
    method CreateTask(taskId: TaskId, id: Option<ItemId>)
      modifies this
      ensures State() == Created(old(State()), taskId, id)
      ensures tasks == old(tasks) + {taskId} && itemTasks.Keys == old(itemTasks).Keys + {id}
      ensures itemTasks[id] == (if id in old(itemTasks) then old(itemTasks)[id] else []) + [taskId]
      ensures forall j :: j in itemTasks && j != id ==> itemTasks[j] == old(itemTasks)[j]
    {
      tasks := tasks + {taskId};
      if id in itemTasks && itemTasks[id] != [] {
        itemTasks := itemTasks[id := itemTasks[id] + [taskId]];
      } else {
        assert ListOf(State(), id) + [taskId] == [taskId];
        itemTasks := itemTasks[id := [taskId]];
      }
    }

    method CleanupTask(taskId: TaskId, id: Option<ItemId>)
      modifies this
      ensures State() == Cleaned(old(State()), taskId, id)
      ensures tasks == old(tasks) - {taskId}
      ensures id == None || id == Some("") ==> itemTasks == old(itemTasks)
      ensures forall j :: j != id ==>
                (j in itemTasks <==> j in old(itemTasks)) && (j in itemTasks ==> itemTasks[j] == old(itemTasks)[j])
    {
      tasks := tasks - {taskId};
      if id.Some? && id.value != "" && id in itemTasks && taskId in itemTasks[id] {
        itemTasks := itemTasks[id := RemoveFirst(itemTasks[id], taskId)];
        if itemTasks[id] == [] {
          itemTasks := itemTasks - {id};
        }
      }
    }

    /** Takes the task out of the dictionary and cancels it; its clean-up comes later. */
    method StopTask(taskId: TaskId) returns (found: bool)
      modifies this
      ensures found <==> taskId in old(tasks)
      ensures State() == Popped(old(State()), taskId)
      ensures tasks == old(tasks) - {taskId} && itemTasks == old(itemTasks)
    {
      found := taskId in tasks;
      tasks := tasks - {taskId};
    }

    /** The clean-ups of several tasks of one item. */
    method CleanupAll(gone: set<TaskId>, id: Option<ItemId>)
      requires Truthy(id) && Distinct(ListOf(State(), id))
      modifies this
      ensures tasks == old(tasks) - gone
      ensures ListOf(State(), id) == Without(old(ListOf(State(), id)), gone)
      ensures forall j :: j != id ==> ListOf(State(), j) == ListOf(old(State()), j)
    {
      hide Distinct, Cleaned, ListOf, Truthy;
      ghost var list := ListOf(State(), id);
      var left: set<TaskId>, done: set<TaskId> := gone, {};
      WithoutNone(list, {});
      while left != {}
        invariant left + done == gone && left !! done
        invariant tasks == old(tasks) - done
        invariant ListOf(State(), id) == Without(list, done)
        invariant forall j :: j != id ==> ListOf(State(), j) == ListOf(old(State()), j)
        decreases left
      {
        var t :| t in left;
        WithoutDistinct(list, done);
        CleanedList(State(), t, id);
        WithoutTwice(list, done, {t});
        CleanupTask(t, id);
        left, done := left - {t}, done + {t};
      }
    }

    /**
     * Stopping all tasks of an item walks the item's own list by position.  `leave(k)` says
     * which stopped tasks are cleaned up between the k-th stop and the next read: a chat task
     * cleans itself up while its own stop is awaited; any other task is cleaned up by its done
     * callback, which runs while the stop after its own is awaited.
     */
    method StopItemTasks(itemId: ItemId, leave: Schedule) returns (ok: bool, stopped: seq<TaskId>)
      requires itemId != "" && Distinct(ListOf(State(), Some(itemId)))
      modifies this
      ensures var walk := Start(old(ListOf(State(), Some(itemId))));
              var reached := Reached(walk, leave);
              && (ok <==> forall t :: t in reached ==> t in old(tasks))
              && (ok ==> stopped == reached && ListOf(State(), Some(itemId)) == StillListed(walk, leave))
              && (!ok ==> |stopped| < |reached| && stopped == reached[..|stopped|]
                          && reached[|stopped|] !in old(tasks))
      ensures tasks == old(tasks) - Elements(stopped)
    {
      hide Distinct, Elements, Reached, StillListed, Walking, Step, Without;
      ghost var all := ListOf(State(), Some(itemId));
      ghost var before := tasks;
      ghost var w := Start(all);
      var i := 0;
      var seen: set<TaskId> := {};
      stopped := [];
      WalkStarts(all, before, leave);
      while i < |ListOf(State(), Some(itemId))|
        invariant Walking(all, before, leave, ListOf(State(), Some(itemId)), tasks, w, stopped)
        invariant seen == w.stopped && i == w.k
        decreases |w.rest|
      {
        WalkGoesOn(all, before, leave, ListOf(State(), Some(itemId)), tasks, w, stopped);
        var taskId := ListOf(State(), Some(itemId))[i];
        var found := StopTask(taskId);
        if !found {
          return false, stopped;
        }
        seen := seen + {taskId};
        CleanupAll(leave(i) * seen, Some(itemId));
        stopped := stopped + [taskId];
        w := Step(w, leave);
        i := i + 1;
      }
      WalkFinishes(all, before, leave, ListOf(State(), Some(itemId)), tasks, w, stopped);
      ok := true;
    }
  }

  // ---- Lists that tasks leave ----

  /** A list less the tasks that have gone. */
  function Without(s: seq<TaskId>, gone: set<TaskId>): (rest: seq<TaskId>)
    ensures |rest| <= |s|
  {
    if s == [] then [] else (if s[0] in gone then [] else [s[0]]) + Without(s[1..], gone)
  }

  lemma WithoutCons(h: TaskId, s: seq<TaskId>, gone: set<TaskId>)
    ensures Without([h] + s, gone) == (if h in gone then [] else [h]) + Without(s, gone)
  {
    assert ([h] + s)[1..] == s;
  }

  lemma {:induction false} WithoutConcat(a: seq<TaskId>, b: seq<TaskId>, gone: set<TaskId>)
    ensures Without(a + b, gone) == Without(a, gone) + Without(b, gone)
  {
    hide Without;
    if a == [] {
      assert a + b == b;
      WithoutNone(a, gone);
      assert [] + Without(b, gone) == Without(b, gone);
    } else {
      var h, t := a[0], a[1..];
      var kept := if h in gone then [] else [h];
      assert a == [h] + t;
      ConcatAssociative([h], t, b);
      WithoutCons(h, t, gone);
      WithoutCons(h, t + b, gone);
      WithoutConcat(t, b, gone);
      ConcatAssociative(kept, Without(t, gone), Without(b, gone));
    }
  }

  lemma {:induction false} WithoutNone(s: seq<TaskId>, gone: set<TaskId>)
    requires forall t :: t in s ==> t !in gone
    ensures Without(s, gone) == s
  {
    if s != [] {
      WithoutNone(s[1..], gone);
    }
  }

  lemma {:induction false} WithoutElement(s: seq<TaskId>, gone: set<TaskId>)
    ensures forall t :: t in Without(s, gone) <==> t in s && t !in gone
  {
    if s != [] {
      WithoutElement(s[1..], gone);
      assert forall t :: t in s <==> t == s[0] || t in s[1..];
    }
  }

  lemma {:induction false} WithoutDistinct(s: seq<TaskId>, gone: set<TaskId>)
    requires Distinct(s)
    ensures Distinct(Without(s, gone))
  {
    if s != [] {
      var rest := Without(s[1..], gone);
      DistinctTail(s);
      WithoutDistinct(s[1..], gone);
      WithoutElement(s[1..], gone);
      if s[0] !in gone {
        InElements(rest);
        InElements([s[0]]);
        DistinctConcat([s[0]], rest);
      }
    }
  }

  lemma {:induction false} WithoutTwice(s: seq<TaskId>, a: set<TaskId>, b: set<TaskId>)
    ensures Without(Without(s, a), b) == Without(s, a + b)
  {
    if s != [] {
      var kept := Without(s[1..], a);
      WithoutTwice(s[1..], a, b);
      if s[0] in a {
        assert [] + kept == kept && [] + Without(kept, b) == Without(kept, b);
      } else {
        WithoutCons(s[0], kept, b);
      }
    }
  }

  /** Something that goes shortens the list. */
  lemma {:induction false} WithoutShrinks(s: seq<TaskId>, gone: set<TaskId>, t: TaskId)
    requires t in s && t in gone
    ensures |Without(s, gone)| < |s|
  {
    if s[0] !in gone {
      WithoutShrinks(s[1..], gone, t);
    }
  }

  lemma {:induction false} RemoveIsWithout(s: seq<TaskId>, t: TaskId)
    requires Distinct(s)
    ensures RemoveFirst(s, t) == Without(s, {t})
  {
    if s != [] {
      DistinctTail(s);
      if s[0] == t {
        WithoutNone(s[1..], {t});
      } else {
        RemoveIsWithout(s[1..], t);
      }
    }
  }

  lemma CleanedList(r: Registry, t: TaskId, id: Option<ItemId>)
    requires Truthy(id) && Distinct(ListOf(r, id))
    ensures Cleaned(r, t, id).tasks == r.tasks - {t}
    ensures ListOf(Cleaned(r, t, id), id) == Without(ListOf(r, id), {t})
    ensures forall j :: j != id ==> ListOf(Cleaned(r, t, id), j) == ListOf(r, j)
  {
    RemoveIsWithout(ListOf(r, id), t);
    if t !in ListOf(r, id) {
      WithoutNone(ListOf(r, id), {t});
    }
  }

  lemma ConcatAssociative<T>(a: seq<T>, b: seq<T>, c: seq<T>)
    ensures a + (b + c) == (a + b) + c
  {
  }

  // ---- What the walk over the live list reaches ----

  type Schedule = nat -> set<TaskId>

  /**
   * The walk before its k-th stop: the item's list is what lies before the walk's position,
   * stopped or passed over, and the rest that is still to be read.
   */
  datatype Walk = Walk(before: seq<TaskId>, rest: seq<TaskId>, stopped: set<TaskId>, k: nat)

  function Start(all: seq<TaskId>): Walk {
    Walk([], all, {}, 0)
  }

  /** The tasks that leave the list after the next stop. */
  function Gone(w: Walk, leave: Schedule): set<TaskId>
    requires w.rest != []
  {
    leave(w.k) * (w.stopped + {w.rest[0]})
  }

  /** How many tasks slip past the walk's position when stopped ones leave the list. */
  function Slipped(w: Walk, leave: Schedule): (n: nat)
    requires w.rest != []
    ensures n < |w.rest|
  {
    var n := |w.before| + 1 - |Without(w.before + [w.rest[0]], Gone(w, leave))|;
    if n < |w.rest| then n else |w.rest| - 1
  }

  /** Stop the next task, let tasks leave, move the position on by one. */
  function Step(w: Walk, leave: Schedule): (next: Walk)
    requires w.rest != []
    ensures |next.rest| < |w.rest| && next.stopped == w.stopped + {w.rest[0]} && next.k == w.k + 1
  {
    var n, behind := Slipped(w, leave), w.rest[1..];
    Walk(Without(w.before + [w.rest[0]], Gone(w, leave)) + behind[..n], behind[n..], w.stopped + {w.rest[0]}, w.k + 1)
  }

  /** The tasks that the walk stops, if all of them are registered. */
  function Reached(w: Walk, leave: Schedule): seq<TaskId>
    decreases |w.rest|
  {
    if w.rest == [] then [] else [w.rest[0]] + Reached(Step(w, leave), leave)
  }

  /** The tasks that are listed at the end of the walk. */
  function StillListed(w: Walk, leave: Schedule): seq<TaskId>
    decreases |w.rest|
  {
    if w.rest == [] then w.before else StillListed(Step(w, leave), leave)
  }

  /** What the loop keeps: the item's list, the registered tasks and what has been stopped fit the walk. */
  ghost predicate Walking(all: seq<TaskId>, registered: set<TaskId>, leave: Schedule, list: seq<TaskId>,
                          tasks: set<TaskId>, w: Walk, stopped: seq<TaskId>) {
    && list == w.before + w.rest && (if w.rest == [] then |w.before| <= w.k else |w.before| == w.k)
    && Distinct(list) && w.stopped == Elements(stopped) && (forall t :: t in w.rest ==> t !in w.stopped)
    && Reached(Start(all), leave) == stopped + Reached(w, leave)
    && StillListed(Start(all), leave) == StillListed(w, leave)
    && tasks == registered - w.stopped && w.stopped <= registered
  }

  lemma WalkStarts(all: seq<TaskId>, registered: set<TaskId>, leave: Schedule)
    requires Distinct(all)
    ensures Walking(all, registered, leave, all, registered, Start(all), [])
  {
    var reached := Reached(Start(all), leave);
    assert [] + all == all && [] + reached == reached;
  }

  /** A step splits what lies behind the stopped task into what slips past and what is still to be read. */
  lemma StepParts(w: Walk, leave: Schedule) returns (left: seq<TaskId>, past: seq<TaskId>, ahead: seq<TaskId>)
    requires w.rest != []
    ensures left == Without(w.before + [w.rest[0]], Gone(w, leave)) && |left| <= |w.before| + 1
    ensures Step(w, leave) == Walk(left + past, ahead, w.stopped + {w.rest[0]}, w.k + 1)
    ensures w.rest == [w.rest[0]] + (past + ahead)
    ensures if ahead == [] then |left| + |past| <= |w.before| + 1 else |left| + |past| == |w.before| + 1
  {
    var n, behind := Slipped(w, leave), w.rest[1..];
    left, past, ahead := Without(w.before + [w.rest[0]], Gone(w, leave)), behind[..n], behind[n..];
  }

  /** After a stop the list is the one that the next step of the walk describes. */
  lemma StepList(w: Walk, leave: Schedule)
    requires w.rest != [] && Distinct(w.before + w.rest) && forall t :: t in w.rest ==> t !in w.stopped
    ensures var next := Step(w, leave);
            && Without(w.before + w.rest, Gone(w, leave)) == next.before + next.rest
            && (if next.rest == [] then |next.before| <= |w.before| + 1 else |next.before| == |w.before| + 1)
    ensures forall u :: u in Step(w, leave).rest ==> u !in w.stopped + {w.rest[0]}
  {
    hide Step, Without, Distinct;
    var t, gone := w.rest[0], Gone(w, leave);
    var left, past, ahead := StepParts(w, leave);
    var behind := past + ahead;
    assert w.rest[1..] == behind;
    RestIsOther(w.before, w.rest);
    assert forall u :: u in ahead ==> u in behind;
    WithoutNone(behind, gone);
    ConcatAssociative(w.before, [t], behind);
    WithoutConcat(w.before + [t], behind, gone);
    ConcatAssociative(left, past, ahead);
  }

  lemma RestIsOther(before: seq<TaskId>, rest: seq<TaskId>)
    requires rest != [] && Distinct(before + rest)
    ensures forall u :: u in rest[1..] ==> u in rest && u != rest[0] && u !in before
  {
    forall i, j | 0 <= i < |before| && 0 <= j < |rest| ensures before[i] != rest[j] {
      assert (before + rest)[i] != (before + rest)[|before| + j];
    }
    forall j | 0 < j < |rest| ensures rest[j] != rest[0] {
      assert (before + rest)[|before|] != (before + rest)[|before| + j];
    }
  }

  /** The walk stands at the first task of the rest; it stops that task and goes on, or fails there. */
  lemma WalkGoesOn(all: seq<TaskId>, registered: set<TaskId>, leave: Schedule, list: seq<TaskId>,
                   tasks: set<TaskId>, w: Walk, stopped: seq<TaskId>)
    requires Walking(all, registered, leave, list, tasks, w, stopped) && w.k < |list|
    ensures w.rest != [] && list[w.k] == w.rest[0] && Distinct(list)
    ensures w.rest[0] in tasks ==>
              Walking(all, registered, leave, Without(list, Gone(w, leave)), tasks - {w.rest[0]} - Gone(w, leave),
                      Step(w, leave), stopped + [w.rest[0]])
    ensures w.rest[0] !in tasks ==>
              var reached := Reached(Start(all), leave);
              && |stopped| < |reached| && stopped == reached[..|stopped|] && reached[|stopped|] !in registered
              && reached[|stopped|] in reached && tasks - {w.rest[0]} == registered - Elements(stopped)
  {
    hide Reached, StillListed, Without, Step, Distinct, Elements;
    ReachedStep(w, leave);
    if w.rest[0] in tasks {
      WalkSteps(all, registered, leave, list, tasks, w, stopped);
    } else {
      FailsAt(stopped, w.rest[0], Reached(Step(w, leave), leave));
      ConcatAssociative(stopped, [w.rest[0]], Reached(Step(w, leave), leave));
    }
  }

  lemma WalkSteps(all: seq<TaskId>, registered: set<TaskId>, leave: Schedule, list: seq<TaskId>,
                  tasks: set<TaskId>, w: Walk, stopped: seq<TaskId>)
    requires Walking(all, registered, leave, list, tasks, w, stopped) && w.rest != [] && w.rest[0] in tasks
    ensures Walking(all, registered, leave, Without(list, Gone(w, leave)), tasks - {w.rest[0]} - Gone(w, leave),
                    Step(w, leave), stopped + [w.rest[0]])
  {
    hide Reached, StillListed, Without, Step, Distinct, Elements;
    ReachedStep(w, leave);
    StillListedStep(w, leave);
    StepList(w, leave);
    ConcatAssociative(stopped, [w.rest[0]], Reached(Step(w, leave), leave));
    WithoutDistinct(list, Gone(w, leave));
    Append(stopped, w.rest[0]);
  }

  lemma FailsAt(a: seq<TaskId>, t: TaskId, b: seq<TaskId>)
    ensures var s := (a + [t]) + b;
            |a| < |s| && s[..|a|] == a && s[|a|] == t && t in s
  {
  }

  lemma ReachedStep(w: Walk, leave: Schedule)
    ensures Reached(w, leave) == if w.rest == [] then [] else [w.rest[0]] + Reached(Step(w, leave), leave)
  {
  }

  lemma StillListedStep(w: Walk, leave: Schedule)
    requires w.rest != []
    ensures StillListed(w, leave) == StillListed(Step(w, leave), leave)
  {
  }

  lemma WalkFinishes(all: seq<TaskId>, registered: set<TaskId>, leave: Schedule, list: seq<TaskId>,
                     tasks: set<TaskId>, w: Walk, stopped: seq<TaskId>)
    requires Walking(all, registered, leave, list, tasks, w, stopped) && w.k >= |list|
    ensures stopped == Reached(Start(all), leave) && list == StillListed(Start(all), leave)
    ensures tasks == registered - Elements(stopped) && forall t :: t in stopped ==> t in registered
  {
    assert |list| == |w.before| + |w.rest|;
    assert w.before + [] == w.before && stopped + [] == stopped;
    InElements(stopped);
  }

  lemma {:induction false} ReachedIsPart(w: Walk, leave: Schedule)
    ensures forall t :: t in Reached(w, leave) ==> t in w.rest
    decreases |w.rest|
  {
    if w.rest != [] {
      ReachedIsPart(Step(w, leave), leave);
    }
  }

  /** The task leaves after a stop of the walk at which it has been stopped. */
  ghost predicate LeavesAt(w: Walk, leave: Schedule, t: TaskId, j: nat) {
    j < |Reached(w, leave)| && t in leave(w.k + j) && (t in w.stopped || t in Reached(w, leave)[..j + 1])
  }

  lemma LeavesAtStep(w: Walk, leave: Schedule, t: TaskId, j: nat)
    requires w.rest != []
    ensures LeavesAt(w, leave, t, j) <==>
            if j == 0 then t in Gone(w, leave) else LeavesAt(Step(w, leave), leave, t, j - 1)
  {
    ReachedStep(w, leave);
    hide Reached, Step;
    var reached, behind := Reached(w, leave), Reached(Step(w, leave), leave);
    if 0 < j <= |behind| {
      assert reached[..j + 1] == [w.rest[0]] + behind[..j];
    } else if j == 0 {
      assert reached[..1] == [w.rest[0]];
    }
  }

  /** A task never leaves the walk if it does not leave at the first stop nor in what follows. */
  lemma NeverLeavesStep(w: Walk, leave: Schedule, t: TaskId)
    requires w.rest != []
    ensures (forall j: nat :: !LeavesAt(w, leave, t, j)) <==>
            t !in Gone(w, leave) && forall j: nat :: !LeavesAt(Step(w, leave), leave, t, j)
  {
    hide LeavesAt, Step;
    LeavesAtStep(w, leave, t, 0);
    if j: nat :| LeavesAt(Step(w, leave), leave, t, j) {
      LeavesAtStep(w, leave, t, j + 1);
      assert LeavesAt(w, leave, t, j + 1);
    } else {
      forall j: nat | j > 0 ensures LeavesAt(w, leave, t, j) <==> LeavesAt(Step(w, leave), leave, t, j - 1) {
        LeavesAtStep(w, leave, t, j);
      }
    }
  }

  /** After the walk exactly those are listed that did not leave once they had been stopped. */
  lemma {:induction false} StillListedIff(w: Walk, leave: Schedule, t: TaskId)
    requires Distinct(w.before + w.rest) && forall u :: u in w.rest ==> u !in w.stopped
    ensures t in StillListed(w, leave) <==>
            (t in w.before || t in w.rest) && forall j: nat :: !LeavesAt(w, leave, t, j)
    decreases |w.rest|
  {
    if w.rest == [] {
      assert Reached(w, leave) == [];
    } else {
      hide StillListed, Step, Without, Distinct, Slipped, LeavesAt, Reached;
      var next := Step(w, leave);
      StillListedStep(w, leave);
      StepList(w, leave);
      WithoutDistinct(w.before + w.rest, Gone(w, leave));
      WithoutElement(w.before + w.rest, Gone(w, leave));
      StillListedIff(next, leave, t);
      InConcat(next.before, next.rest, t);
      InConcat(w.before, w.rest, t);
      NeverLeavesStep(w, leave, t);
    }
  }

  lemma InConcat(a: seq<TaskId>, b: seq<TaskId>, t: TaskId)
    ensures t in a + b <==> t in a || t in b
  {
  }

  /** While no stopped task leaves, the walk stops one task after the other. */
  lemma QuietStep(w: Walk, leave: Schedule)
    requires w.rest != [] && Gone(w, leave) == {}
    ensures Step(w, leave) == Walk(w.before + [w.rest[0]], w.rest[1..], w.stopped + {w.rest[0]}, w.k + 1)
  {
    hide Step, Without;
    var left, past, ahead := StepParts(w, leave);
    WithoutNone(w.before + [w.rest[0]], Gone(w, leave));
    assert past == [];
    assert left + past == left && past + ahead == ahead && w.rest[1..] == ahead;
  }

  /** When a stopped task leaves, the next one slips past the walk. */
  lemma LeavingHides(w: Walk, leave: Schedule)
    requires Distinct(w.before + w.rest) && |w.rest| > 1
    requires w.stopped == Elements(w.before) && Gone(w, leave) != {}
    ensures w.rest[1] !in Reached(w, leave)
  {
    hide Step, Without, Reached, Distinct, Elements;
    var left, past, ahead := StepParts(w, leave);
    var t :| t in Gone(w, leave);
    InElements(w.before);
    assert t in w.before + [w.rest[0]];
    WithoutShrinks(w.before + [w.rest[0]], Gone(w, leave), t);
    if ahead == [] {
      assert Step(w, leave).rest == [];
    }
    ReachedStep(w, leave);
    ReachedIsPart(Step(w, leave), leave);
    RestIsOther(w.before, w.rest);
    assert w.rest[1..] == past + ahead && w.rest[1] == w.rest[1..][0];
    HeadIsOther(w.before, w.rest, past, ahead);
  }

  lemma HeadIsOther(before: seq<TaskId>, rest: seq<TaskId>, past: seq<TaskId>, ahead: seq<TaskId>)
    requires Distinct(before + rest) && |rest| > 1 && rest == [rest[0]] + (past + ahead)
    requires past != [] || ahead == []
    ensures rest[1] !in ahead
  {
    forall j | 0 <= j < |ahead| ensures ahead[j] != rest[1] {
      var n := |before| + 1 + |past| + j;
      assert (before + rest)[n] == ahead[j] && (before + rest)[|before| + 1] == rest[1] && |before| + 1 < n;
    }
  }

  /** No task that is stopped by then leaves between the k-th stop and the next read. */
  ghost predicate Quiet(w: Walk, leave: Schedule, k: nat) {
    w.k <= k < w.k + |w.rest| - 1 ==> leave(k) !! w.stopped + Elements(w.rest[..k - w.k + 1])
  }

  lemma TakeCons(t: TaskId, s: seq<TaskId>, n: nat)
    requires n <= |s|
    ensures Elements(([t] + s)[..n + 1]) == {t} + Elements(s[..n])
  {
    assert ([t] + s)[..n + 1] == [t] + s[..n];
    ElementsOfConcat([t], s[..n]);
    assert Elements([t]) == {t};
  }

  lemma QuietAfter(w: Walk, leave: Schedule, k: nat)
    requires |w.rest| > 1 && Gone(w, leave) == {}
    ensures Quiet(w, leave, k) <==> Quiet(Step(w, leave), leave, k)
  {
    hide Step, Elements;
    var next, t := Step(w, leave), w.rest[0];
    QuietStep(w, leave);
    assert w.rest == [t] + next.rest;
    if w.k <= k < w.k + |w.rest| - 1 {
      TakeCons(t, next.rest, k - w.k);
      if k == w.k {
        assert Elements(next.rest[..0]) == {} by { InElements(next.rest[..0]); }
        assert forall u :: u in leave(k) ==> u !in Gone(w, leave) && u !in w.stopped + {t};
      }
    }
  }

  lemma NotQuiet(w: Walk, leave: Schedule)
    requires |w.rest| > 1 && Gone(w, leave) != {}
    ensures !Quiet(w, leave, w.k)
  {
    assert w.rest[..1] == [w.rest[0]] && Elements([w.rest[0]]) == {w.rest[0]};
  }

  lemma QuietReached(w: Walk, leave: Schedule)
    requires |w.rest| > 1 && Gone(w, leave) == {}
    requires Distinct(w.before + w.rest) && w.stopped == Elements(w.before)
    ensures var next := Step(w, leave);
            && Distinct(next.before + next.rest) && next.stopped == Elements(next.before)
            && ((forall t :: t in w.rest ==> t in Reached(w, leave)) <==>
                (forall t :: t in next.rest ==> t in Reached(next, leave)))
  {
    hide Distinct, Elements, Reached, Step;
    var h, next := w.rest[0], Step(w, leave);
    QuietStep(w, leave);
    Append(w.before, h);
    assert w.rest == [h] + next.rest;
    ConcatAssociative(w.before, [h], next.rest);
    RestIsOther(w.before, w.rest);
    ReachedStep(w, leave);
    InCons(h, next.rest);
    InCons(h, Reached(next, leave));
  }

  lemma InCons(h: TaskId, s: seq<TaskId>)
    ensures forall t :: t in [h] + s <==> t == h || t in s
  {
  }

  /** From a walk that has passed nothing over: the rest is reached exactly when all is quiet. */
  lemma {:induction false} RestReachedIff(w: Walk, leave: Schedule)
    requires Distinct(w.before + w.rest) && w.stopped == Elements(w.before)
    ensures (forall t :: t in w.rest ==> t in Reached(w, leave)) <==> forall k: nat :: Quiet(w, leave, k)
    decreases |w.rest|
  {
    if |w.rest| <= 1 {
      assert |w.rest| == 1 ==> Reached(w, leave)[0] == w.rest[0];
    } else if Gone(w, leave) != {} {
      LeavingHides(w, leave);
      NotQuiet(w, leave);
      assert w.rest[1] in w.rest;
    } else {
      hide Distinct, Elements, Reached, Quiet, Step, Gone;
      QuietReached(w, leave);
      RestReachedIff(Step(w, leave), leave);
      forall k: nat ensures Quiet(w, leave, k) <==> Quiet(Step(w, leave), leave, k) {
        QuietAfter(w, leave, k);
      }
    }
  }

  /** The live walk stops every task exactly when no stopped task leaves the list before the last read. */
  lemma LiveWalkStopsAllIff(all: seq<TaskId>, leave: Schedule)
    requires Distinct(all)
    ensures Elements(Reached(Start(all), leave)) == Elements(all) <==>
            forall k :: 0 <= k < |all| - 1 ==> leave(k) !! Elements(all[..k + 1])
  {
    var w := Start(all);
    assert w.before + w.rest == all && Elements(w.before) == {};
    forall k: nat
      ensures Quiet(w, leave, k) <==> (k < |all| - 1 ==> leave(k) !! Elements(all[..k + 1]))
    {
      assert k < |all| - 1 ==> w.rest[..k - w.k + 1] == all[..k + 1];
    }
    hide Quiet, Distinct, Reached, Elements;
    RestReachedIff(w, leave);
    ReachedIsPart(w, leave);
    InElements(all);
    InElements(Reached(w, leave));
  }

  /** Of two chat tasks only the first is stopped: it cleans itself up before the next read. */
  lemma ChatTasksMissed(a: TaskId, b: TaskId, leave: Schedule)
    requires a != b && a in leave(0)
    ensures Reached(Start([a, b]), leave) == [a]
  {
    var w := Start([a, b]);
    assert Gone(w, leave) == {a};
    assert Without([] + [a], {a}) == [];
    assert Step(w, leave).rest == [];
  }

  /** Of three other tasks the last is missed: the callback of the first runs while the second is being stopped. */
  lemma CallbackTasksMissed(a: TaskId, b: TaskId, c: TaskId, leave: Schedule)
    requires a != b && b != c && a != c
    requires leave(0) == {} && leave(1) == {a}
    ensures Reached(Start([a, b, c]), leave) == [a, b]
  {
    hide Without, Step, Reached;
    var w := Start([a, b, c]);
    QuietStep(w, leave);
    var next := Step(w, leave);
    assert next == Walk([a], [b, c], {a}, 1);
    assert Gone(next, leave) == {a};
    var left, past, ahead := StepParts(next, leave);
    assert [a] + [b] == [a, b];
    WithoutShrinks([a, b], {a}, a);
    assert |past + ahead| == 1 && |ahead| == 0;
    ReachedStep(w, leave);
    ReachedStep(next, leave);
    ReachedStep(Step(next, leave), leave);
    assert [a] + ([b] + []) == [a, b];
  }

  // ---- Stopping a snapshot of the list ----

  /** Several tasks of an item are cleaned up. */
  function CleanedAll(r: Registry, gone: set<TaskId>, id: Option<ItemId>): Registry {
    var rest := Without(ListOf(r, id), gone);
    Registry(r.tasks - gone,
             if id !in r.itemTasks then r.itemTasks
             else if rest == [] then r.itemTasks - {id}
             else r.itemTasks[id := rest])
  }

  /**
   * Stopping the tasks of a snapshot, one after the other, up to the first that is not
   * registered.  After the k-th stop the tasks of `leave(k)` are cleaned up, stopped ones or
   * ones that have ended by themselves.
   */
  function StopEach(r: Registry, ts: seq<TaskId>, id: Option<ItemId>, leave: Schedule, k: nat): (Registry, bool)
    decreases |ts|
  {
    if ts == [] then (r, true)
    else if ts[0] !in r.tasks then (r, false)
    else StopEach(CleanedAll(Popped(r, ts[0]), leave(k), id), ts[1..], id, leave, k + 1)
  }

  /** The task is cleaned up after one of the first `n` stops. */
  ghost predicate LeavesWithin(leave: Schedule, k: nat, n: nat, t: TaskId) {
    exists i :: k <= i < k + n && t in leave(i)
  }

  lemma LeavesNext(leave: Schedule, k: nat, n: nat, t: TaskId)
    ensures LeavesWithin(leave, k, n + 1, t) <==> t in leave(k) || LeavesWithin(leave, k + 1, n, t)
  {
  }

  /**
   * A walk over a snapshot stops all of it exactly when each task is registered and has not
   * ended by itself before its turn; then exactly what was not cleaned up stays listed.
   */
  lemma {:induction false} SnapshotStopsAllIff(r: Registry, ts: seq<TaskId>, id: Option<ItemId>, leave: Schedule,
                                               k: nat)
    requires Distinct(ts)
    ensures var (s, ok) := StopEach(r, ts, id, leave, k);
            && (ok <==> forall j :: 0 <= j < |ts| ==> ts[j] in r.tasks && !LeavesWithin(leave, k, j, ts[j]))
            && (ok ==> forall t :: t in s.tasks <==> t in r.tasks && t !in ts && !LeavesWithin(leave, k, |ts|, t))
            && (ok ==> forall t :: t in ListOf(s, id) <==> t in ListOf(r, id) && !LeavesWithin(leave, k, |ts|, t))
            && forall i :: i != id ==> ListOf(s, i) == ListOf(r, i)
    decreases |ts|
  {
    if ts != [] && ts[0] in r.tasks {
      var t, rest := ts[0], ts[1..];
      var next := CleanedAll(Popped(r, t), leave(k), id);
      DistinctTail(ts);
      AfterOneStop(r, t, leave(k), id);
      assert StopEach(r, ts, id, leave, k) == StopEach(next, rest, id, leave, k + 1);
      hide CleanedAll, LeavesWithin, Distinct, ListOf, StopEach;
      SnapshotStopsAllIff(next, rest, id, leave, k + 1);
      var (s, ok) := StopEach(next, rest, id, leave, k + 1);
      forall j | 0 <= j < |rest|
        ensures LeavesWithin(leave, k, j + 1, rest[j]) <==>
                rest[j] in leave(k) || LeavesWithin(leave, k + 1, j, rest[j])
      {
        LeavesNext(leave, k, j, rest[j]);
      }
      assert !LeavesWithin(leave, k, 0, t) by { LeavesNever(leave, k, t); }
      assert forall j :: 0 < j < |ts| ==> ts[j] == rest[j - 1];
      assert forall u :: u in ts <==> u == t || u in rest;
      forall u ensures LeavesWithin(leave, k, |ts|, u) <==> u in leave(k) || LeavesWithin(leave, k + 1, |rest|, u) {
        LeavesNext(leave, k, |rest|, u);
      }
    }
  }

  lemma LeavesNever(leave: Schedule, k: nat, t: TaskId)
    ensures !LeavesWithin(leave, k, 0, t)
  {
  }

  lemma AfterOneStop(r: Registry, t: TaskId, gone: set<TaskId>, id: Option<ItemId>)
    ensures var next := CleanedAll(Popped(r, t), gone, id);
            && next.tasks == r.tasks - {t} - gone
            && (forall u :: u in ListOf(next, id) <==> u in ListOf(r, id) && u !in gone)
            && forall i :: i != id ==> ListOf(next, i) == ListOf(r, i)
  {
    WithoutElement(ListOf(r, id), gone);
  }

  // ---- Every reachable state of the registry ----

  /**
   * `owner` is the id each created task was given, which its done callback remembers;
   * `stopped` are the tasks taken out by a stop, `drained` those whose done callback has run.
   */
  datatype World = World(r: Registry, owner: map<TaskId, Option<ItemId>>, stopped: set<TaskId>, drained: set<TaskId>)

  datatype Event =
    | Create(t: TaskId, id: Option<ItemId>)
    | Stop(t: TaskId)
    | CleanupItself(t: TaskId)
    | DoneCallback(t: TaskId)

  /** Task ids are fresh; clean-ups are those of created tasks. */
  predicate Possible(w: World, e: Event) {
    match e
    case Create(t, _) => t !in w.owner
    case Stop(_) => true
    case CleanupItself(t) => t in w.owner
    case DoneCallback(t) => t in w.owner
  }

  function Next(w: World, e: Event): World
    requires Possible(w, e)
  {
    match e
    case Create(t, id) => w.(r := Created(w.r, t, id), owner := w.owner[t := id])
    case Stop(t) => if t in w.r.tasks then w.(r := Popped(w.r, t), stopped := w.stopped + {t}) else w
    case CleanupItself(t) => w.(r := Cleaned(w.r, t, w.owner[t]))
    case DoneCallback(t) => w.(r := Cleaned(w.r, t, w.owner[t]), drained := w.drained + {t})
  }

  /** An item's list holds its own tasks, once each, and a real item's tasks are running or about to be cleaned up. */
  ghost predicate ItemInv(w: World, id: Option<ItemId>) {
    var list := ListOf(w.r, id);
    && (id in w.r.itemTasks ==> list != [])
    && Distinct(list)
    && forall t :: t in list ==>
         && t in w.owner && w.owner[t] == id
         && (Truthy(id) ==> t !in w.drained && (t in w.r.tasks || t in w.stopped))
  }

  /** A registered task is listed under its item; a task without a real item is listed for ever. */
  ghost predicate TaskInv(w: World, t: TaskId) {
    && (t in w.r.tasks ==> t in w.owner && t !in w.drained && t in ListOf(w.r, w.owner[t]))
    && (t in w.owner && !Truthy(w.owner[t]) ==> t in ListOf(w.r, w.owner[t]))
    && (t in w.stopped || t in w.drained ==> t in w.owner)
  }

  ghost predicate Inv(w: World) {
    (forall id :: ItemInv(w, id)) && (forall t :: TaskInv(w, t))
  }

  lemma StepKeepsInv(w: World, e: Event)
    requires Inv(w) && Possible(w, e)
    ensures Inv(Next(w, e))
  {
    var next := Next(w, e);
    forall id ensures ItemInv(next, id) {
      assert ItemInv(w, id);
      StepKeepsItemInv(w, e, id);
    }
    forall t ensures TaskInv(next, t) {
      StepKeepsTaskInv(w, e, t);
    }
  }

  lemma StepKeepsItemInv(w: World, e: Event, id: Option<ItemId>)
    requires Inv(w) && Possible(w, e)
    ensures ItemInv(Next(w, e), id)
  {
    assert ItemInv(w, id);
    match e
    case Create(t, i) =>
      if i == id {
        assert TaskInv(w, t);
        var list := ListOf(w.r, id);
        assert t !in list;
        assert ListOf(Next(w, e).r, id) == list + [t];
      }
    case Stop(t) =>
    case CleanupItself(t) =>
      RemoveFirstOfDistinct(ListOf(w.r, id), t);
    case DoneCallback(t) =>
      RemoveFirstOfDistinct(ListOf(w.r, id), t);
  }

  lemma StepKeepsTaskInv(w: World, e: Event, x: TaskId)
    requires Inv(w) && Possible(w, e)
    ensures TaskInv(Next(w, e), x)
  {
    assert TaskInv(w, x);
    match e
    case Create(t, i) =>
      assert t in ListOf(w.r, i) + [t];
      assert TaskInv(w, t);
    case Stop(t) =>
      assert TaskInv(w, t);
    case CleanupItself(t) =>
      assert ItemInv(w, w.owner[t]);
      RemoveFirstOfDistinct(ListOf(w.r, w.owner[t]), t);
    case DoneCallback(t) =>
      assert ItemInv(w, w.owner[t]);
      RemoveFirstOfDistinct(ListOf(w.r, w.owner[t]), t);
  }

  predicate AllPossible(w: World, es: seq<Event>)
    decreases |es|
  {
    es == [] || (Possible(w, es[0]) && AllPossible(Next(w, es[0]), es[1..]))
  }

  function Run(w: World, es: seq<Event>): World
    requires AllPossible(w, es)
    decreases |es|
  {
    if es == [] then w else Run(Next(w, es[0]), es[1..])
  }

  const START := World(Registry({}, map[]), map[], {}, {})

  lemma {:induction false} RunKeepsInv(w: World, es: seq<Event>)
    requires Inv(w) && AllPossible(w, es)
    ensures Inv(Run(w, es))
    decreases |es|
  {
    if es != [] {
      StepKeepsInv(w, es[0]);
      RunKeepsInv(Next(w, es[0]), es[1..]);
    }
  }

  lemma Reachable(es: seq<Event>)
    requires AllPossible(START, es)
    ensures Inv(Run(START, es))
  {
    RunKeepsInv(START, es);
  }

  /** In every reachable state no task is listed twice, in one list or in two. */
  lemma ListsAreDisjoint(es: seq<Event>, i: Option<ItemId>, j: Option<ItemId>, t: TaskId)
    requires AllPossible(START, es)
    requires t in ListOf(Run(START, es).r, i) && t in ListOf(Run(START, es).r, j)
    ensures i == j && Distinct(ListOf(Run(START, es).r, i))
  {
    var w := Run(START, es);
    Reachable(es);
    assert ItemInv(w, i) && ItemInv(w, j);
  }

  /** In every reachable state a task listed under a real item is registered, or stopped with its callback to come. */
  lemma ListedIsRegisteredOrPending(es: seq<Event>, t: TaskId, id: Option<ItemId>)
    requires AllPossible(START, es) && Truthy(id) && t in ListOf(Run(START, es).r, id)
    ensures var w := Run(START, es);
            t in w.r.tasks || (t in w.stopped && t !in w.drained)
  {
    Reachable(es);
    assert ItemInv(Run(START, es), id);
  }

  /** Once the callbacks of all stopped tasks have run, the index of real items is the inverse of task-to-item. */
  lemma DrainedIndexIsInverse(es: seq<Event>, t: TaskId, id: Option<ItemId>)
    requires AllPossible(START, es) && Truthy(id)
    requires Run(START, es).stopped <= Run(START, es).drained
    ensures var w := Run(START, es);
            t in ListOf(w.r, id) <==> t in w.r.tasks && t in w.owner && w.owner[t] == id
  {
    var w := Run(START, es);
    Reachable(es);
    assert ItemInv(w, id) && TaskInv(w, t);
  }

  /** After its done callback a task is still listed exactly when its item id was missing or empty. */
  lemma ListedAfterCallbackIff(es: seq<Event>, t: TaskId)
    requires AllPossible(START, es) && t in Run(START, es).drained && t in Run(START, es).owner
    ensures var w := Run(START, es);
            t in ListOf(w.r, w.owner[t]) <==> !Truthy(w.owner[t])
  {
    var w := Run(START, es);
    Reachable(es);
    assert ItemInv(w, w.owner[t]) && TaskInv(w, t);
  }
}
