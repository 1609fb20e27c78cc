/**
 * The task index shared by all processes (tasks.py with Redis): a hash from task to item and,
 * for each item, a set of its tasks.  A step of a run is one request: a pipeline, a lookup or
 * the deletion of a key; requests of different processes interleave freely.
 */
module RedisTasks {
  import opened Basics

  /** A task's uuid; only equality of ids matters. */
  type TaskId = nat
  type ItemId = string

  /** The hash stores the empty text for a task without an item; an absent set key is an empty set. */
  datatype Index = Index(hash: map<TaskId, ItemId>, sets: map<ItemId, set<TaskId>>)

  function Members(x: Index, i: ItemId): set<TaskId> {
    if i in x.sets then x.sets[i] else {}
  }

  function Saved(x: Index, t: TaskId, i: ItemId): Index {
    Index(x.hash[t := i], if i == "" then x.sets else x.sets[i := Members(x, i) + {t}])
  }

  /** The clean-up pipeline: hdel, and srem when there is an item. */
  function Removed(x: Index, t: TaskId, i: ItemId): Index {
    Index(x.hash - {t}, if i == "" then x.sets else x.sets[i := Members(x, i) - {t}])
  }

  /** Deleting an item's set key, whatever it holds. */
  function KeyDeleted(x: Index, i: ItemId): Index {
    x.(sets := x.sets - {i})
  }

  /** A whole clean-up that no other process interrupts. */
  function Cleaned(x: Index, t: TaskId, i: ItemId): Index {
    var y := Removed(x, t, i);
    if i != "" && Members(y, i) == {} then KeyDeleted(y, i) else y
  }

  /** A whole stop that no other process interrupts; a task that is not in the hash is cleaned up without an item. */
  function Stopped(x: Index, t: TaskId): Index {
    Cleaned(x, t, if t in x.hash then x.hash[t] else "")
  }

  class RedisIndex {
    var hash: map<TaskId, ItemId>
    var sets: map<ItemId, set<TaskId>>
    /** The stop commands sent to all processes so far. */
    var published: seq<TaskId>

    function State(): Index
      reads this
    {
      Index(hash, sets)
    }

    constructor ()
      ensures State() == Index(map[], map[]) && published == []
    {
      hash, sets, published := map[], map[], [];
    }

    method SaveTask(taskId: TaskId, itemId: ItemId)
      modifies this
      ensures State() == Saved(old(State()), taskId, itemId) && published == old(published)
      ensures hash == old(hash)[taskId := itemId]
      ensures forall j, t :: t in Members(State(), j) <==>
                t in Members(old(State()), j) || (t == taskId && j == itemId && itemId != "")
    {
      SavedMembers(State(), taskId, itemId);
      hash := hash[taskId := itemId];
      if itemId != "" {
        sets := sets[itemId := Members(State(), itemId) + {taskId}];
      }
    }

    method CleanupTask(taskId: TaskId, itemId: ItemId)
      modifies this
      ensures State() == Cleaned(old(State()), taskId, itemId) && published == old(published)
      ensures hash == old(hash) - {taskId}
      ensures forall j, t :: t in Members(State(), j) <==>
                t in Members(old(State()), j) && !(t == taskId && j == itemId && itemId != "")
    {
      CleanedMembers(State(), taskId, itemId);
      hash := hash - {taskId};
      if itemId != "" {
        sets := sets[itemId := Members(State(), itemId) - {taskId}];
        if Members(State(), itemId) == {} {
          sets := sets - {itemId};
        }
      }
    }

    method StopTask(taskId: TaskId)
      modifies this
      ensures State() == Stopped(old(State()), taskId)
      ensures published == old(published) + [taskId]
    {
      var itemId := if taskId in hash then hash[taskId] else "";
      published := published + [taskId];
      CleanupTask(taskId, itemId);
    }

    /** `taskIds` is the answer of smembers: a snapshot of the item's set in some order. */
    method StopItemTasks(itemId: ItemId, taskIds: seq<TaskId>)
      requires itemId != "" && Distinct(taskIds) && Elements(taskIds) == Members(State(), itemId)
      requires Agrees(State())
      modifies this
      ensures published == old(published) + taskIds
      ensures Agrees(State()) && Members(State(), itemId) == {}
      ensures hash == old(hash) - old(Members(State(), itemId))
      ensures forall j :: j != itemId ==> Members(State(), j) == old(Members(State(), j))
    {
      ghost var before := State();
      assert taskIds[..0] == [];
      for k := 0 to |taskIds|
        invariant published == old(published) + taskIds[..k]
        invariant Agrees(State())
        invariant Members(State(), itemId) == Members(before, itemId) - Elements(taskIds[..k])
        invariant hash == before.hash - Elements(taskIds[..k])
        invariant forall j :: j != itemId ==> Members(State(), j) == Members(before, j)
      {
        var t := taskIds[k];
        assert t in Elements(taskIds);
        assert taskIds[..k + 1] == taskIds[..k] + [t];
        ElementsOfConcat(taskIds[..k], [t]);
        assert Elements([t]) == {t};
        assert t !in taskIds[..k];
        StopKeepsAgrees(State(), t, itemId);
        StopTask(t);
      }
      assert taskIds[..|taskIds|] == taskIds;
    }
  }

  // ---- The two structures agree ----

  ghost predicate AgreesOn(x: Index, t: TaskId, i: ItemId) {
    i != "" ==> (t in Members(x, i) <==> t in x.hash && x.hash[t] == i)
  }

  /** The hash and the sets say the same of every task and item. */
  ghost predicate Agrees(x: Index) {
    forall t, i :: AgreesOn(x, t, i)
  }

  /** Saving a task keeps agreement exactly when it was not saved under another item. */
  lemma SaveAgreesIff(x: Index, t: TaskId, i: ItemId)
    requires Agrees(x)
    ensures Agrees(Saved(x, t, i)) <==> (t in x.hash && x.hash[t] != "" ==> x.hash[t] == i)
  {
    var y := Saved(x, t, i);
    assert forall u, j :: AgreesOn(x, u, j);
    if t in x.hash && x.hash[t] != "" && x.hash[t] != i {
      assert AgreesOn(x, t, x.hash[t]);
      assert !AgreesOn(y, t, x.hash[t]);
    } else {
      forall u, j ensures AgreesOn(y, u, j) {
        assert AgreesOn(x, u, j);
        assert AgreesOn(x, t, j);
      }
    }
  }

  /** The clean-up pipeline keeps agreement exactly when it names the item the task was saved under. */
  lemma RemoveAgreesIff(x: Index, t: TaskId, i: ItemId)
    requires Agrees(x)
    ensures Agrees(Removed(x, t, i)) <==> (t in x.hash && x.hash[t] != "" ==> x.hash[t] == i)
  {
    var y := Removed(x, t, i);
    RemovedMembers(x, t, i);
    if t in x.hash && x.hash[t] != "" && x.hash[t] != i {
      assert AgreesOn(x, t, x.hash[t]);
      assert !AgreesOn(y, t, x.hash[t]);
    } else {
      forall u, j ensures AgreesOn(y, u, j) {
        assert AgreesOn(x, u, j);
        assert AgreesOn(x, t, j);
      }
    }
  }

  /** So does the whole clean-up. */
  lemma CleanAgreesIff(x: Index, t: TaskId, i: ItemId)
    requires Agrees(x)
    ensures Agrees(Cleaned(x, t, i)) <==> (t in x.hash && x.hash[t] != "" ==> x.hash[t] == i)
  {
    var y, z := Removed(x, t, i), Cleaned(x, t, i);
    RemoveAgreesIff(x, t, i);
    CleanedMembers(x, t, i);
    RemovedMembers(x, t, i);
    forall u, j ensures AgreesOn(y, u, j) <==> AgreesOn(z, u, j) { }
  }

  lemma RemovedMembers(x: Index, t: TaskId, i: ItemId)
    ensures forall j :: Members(Removed(x, t, i), j) == Members(x, j) - if i != "" && i == j then {t} else {}
  {
  }

  lemma CleanedMembers(x: Index, t: TaskId, i: ItemId)
    ensures forall j :: Members(Cleaned(x, t, i), j) == Members(x, j) - if i != "" && i == j then {t} else {}
  {
  }

  lemma SavedMembers(x: Index, t: TaskId, i: ItemId)
    ensures forall j :: Members(Saved(x, t, i), j) == Members(x, j) + if i != "" && i == j then {t} else {}
  {
  }

  lemma StopKeepsAgrees(x: Index, t: TaskId, i: ItemId)
    requires Agrees(x) && i != "" && t in Members(x, i)
    ensures Agrees(Stopped(x, t)) && Stopped(x, t) == Cleaned(x, t, i)
    ensures forall j :: Members(Stopped(x, t), j) == Members(x, j) - if i == j then {t} else {}
  {
    assert AgreesOn(x, t, i);
    CleanAgreesIff(x, t, i);
    CleanedMembers(x, t, i);
  }

  /** Deleting the key as a step of its own is harmless exactly when the set is empty at that moment. */
  lemma KeyDeletionAgreesIff(x: Index, i: ItemId)
    requires Agrees(x) && i != ""
    ensures Agrees(KeyDeleted(x, i)) <==> Members(x, i) == {}
  {
    var y := KeyDeleted(x, i);
    assert forall j :: Members(y, j) == if i == j then {} else Members(x, j);
    if Members(x, i) == {} {
      forall u, j ensures AgreesOn(y, u, j) { assert AgreesOn(x, u, j); }
    } else {
      var t :| t in Members(x, i);
      assert AgreesOn(x, t, i);
      assert !AgreesOn(y, t, i);
    }
  }

  /**
   * The race: another process saves a task between the size check and the deletion, and the task
   * drops out of its set.
   */
  lemma LateDeletionLosesTask(x: Index, t: TaskId, late: TaskId, i: ItemId)
    requires Agrees(x) && i != "" && Members(x, i) == {t} && late !in x.hash
    ensures var checked := Removed(x, t, i);
            var after := KeyDeleted(Saved(checked, late, i), i);
            && Members(checked, i) == {}
            && late in after.hash && after.hash[late] == i && late !in Members(after, i) && !Agrees(after)
  {
    var after := KeyDeleted(Saved(Removed(x, t, i), late, i), i);
    assert !AgreesOn(after, late, i);
  }

  // ---- Every interleaving of the requests that processes send ----

  /** One call of stop_task, in any process. */
  type StopCall = nat

  /**
   * One request to Redis: a save's pipeline; a clean-up's pipeline; the deletion of an item's
   * key that ends a clean-up; a stop's lookup; the clean-up pipeline of that stop.  Each task has
   * one item, which its save and its own clean-ups name.
   */
  datatype Op =
    | Save(t: TaskId)
    | Remove(t: TaskId)
    | DropKey(i: ItemId)
    | Lookup(call: StopCall, t: TaskId)
    | StopRemove(call: StopCall, t: TaskId)

  type Owner = TaskId -> ItemId

  /** The index, and the items that stop calls have looked up and not used yet. */
  datatype World = World(index: Index, pending: map<(StopCall, TaskId), ItemId>)

  function Next(w: World, owner: Owner, op: Op): World {
    match op
    case Save(t) => w.(index := Saved(w.index, t, owner(t)))
    case Remove(t) => w.(index := Removed(w.index, t, owner(t)))
    case DropKey(i) => w.(index := KeyDeleted(w.index, i))
    case Lookup(call, t) =>
      w.(pending := w.pending[(call, t) := if t in w.index.hash then w.index.hash[t] else ""])
    case StopRemove(call, t) =>
      if (call, t) in w.pending
      then World(Removed(w.index, t, w.pending[(call, t)]), w.pending - {(call, t)})
      else w
  }

  function Run(owner: Owner, ops: seq<Op>): World {
    if ops == [] then World(Index(map[], map[]), map[])
    else Next(Run(owner, ops[..|ops| - 1]), owner, ops[|ops| - 1])
  }

  /** A stop looks the item up before it cleans up. */
  ghost predicate AllPossible(owner: Owner, ops: seq<Op>) {
    ops != [] ==>
      var front, last := ops[..|ops| - 1], ops[|ops| - 1];
      AllPossible(owner, front) && (last.StopRemove? ==> (last.call, last.t) in Run(owner, front).pending)
  }

  /** A request acts on what its process has seen: the set is still empty; the item is still the task's. */
  ghost predicate Fresh(w: World, op: Op) {
    match op
    case DropKey(i) => i != "" ==> Members(w.index, i) == {}
    case StopRemove(call, t) =>
      (call, t) in w.pending && t in w.index.hash && w.index.hash[t] != "" ==>
        w.pending[(call, t)] == w.index.hash[t]
    case _ => true
  }

  ghost predicate AllFresh(owner: Owner, ops: seq<Op>) {
    ops != [] ==> AllFresh(owner, ops[..|ops| - 1]) && Fresh(Run(owner, ops[..|ops| - 1]), ops[|ops| - 1])
  }

  ghost predicate AgreesThroughout(owner: Owner, ops: seq<Op>) {
    Agrees(Run(owner, ops).index) && (ops != [] ==> AgreesThroughout(owner, ops[..|ops| - 1]))
  }

  /** In every run, fresh or not, the hash names each task's item, and a lookup that item or none. */
  ghost predicate Owned(w: World, owner: Owner) {
    && (forall t :: t in w.index.hash ==> w.index.hash[t] == owner(t))
    && (forall k :: k in w.pending ==> w.pending[k] == owner(k.1) || w.pending[k] == "")
    && "" !in w.index.sets
  }

  lemma {:induction false} RunOwned(owner: Owner, ops: seq<Op>)
    ensures Owned(Run(owner, ops), owner)
  {
    if ops != [] {
      RunOwned(owner, ops[..|ops| - 1]);
    }
  }

  lemma NextAgreesIff(w: World, owner: Owner, op: Op)
    requires Owned(w, owner) && Agrees(w.index)
    ensures Agrees(Next(w, owner, op).index) <==> Fresh(w, op)
  {
    var x := w.index;
    match op
    case Save(t) => SaveAgreesIff(x, t, owner(t));
    case Remove(t) => RemoveAgreesIff(x, t, owner(t));
    case DropKey(i) =>
      if i == "" {
        assert x.sets - {i} == x.sets;
      } else {
        KeyDeletionAgreesIff(x, i);
      }
    case Lookup(_, _) =>
    case StopRemove(call, t) =>
      if (call, t) in w.pending {
        RemoveAgreesIff(x, t, w.pending[(call, t)]);
      }
  }

  /** Hash and sets agree after every request of a run exactly when every request of it is fresh. */
  lemma {:induction false} RunAgreesIff(owner: Owner, ops: seq<Op>)
    ensures AgreesThroughout(owner, ops) <==> AllFresh(owner, ops)
  {
    if ops == [] {
      forall t, i ensures AgreesOn(Run(owner, ops).index, t, i) { }
    } else {
      var front, last := ops[..|ops| - 1], ops[|ops| - 1];
      RunAgreesIff(owner, front);
      RunOwned(owner, front);
      if AllFresh(owner, front) {
        NextAgreesIff(Run(owner, front), owner, last);
      }
    }
  }

  /** The race: a stop finds nothing, the task is saved, and the stop cleans up without an item. */
  lemma StaleStopBreaksAgreement(owner: Owner, call: StopCall, t: TaskId)
    requires owner(t) != ""
    ensures var ops := [Lookup(call, t), Save(t), StopRemove(call, t)];
            && AllPossible(owner, ops) && !Agrees(Run(owner, ops).index)
            && t in Members(Run(owner, ops).index, owner(t)) && t !in Run(owner, ops).index.hash
  {
    var one: seq<Op> := [Lookup(call, t)];
    var two: seq<Op> := [Lookup(call, t), Save(t)];
    var ops: seq<Op> := [Lookup(call, t), Save(t), StopRemove(call, t)];
    assert one[..0] == [] && two[..1] == one && ops[..2] == two;
    assert Run(owner, one).pending == map[(call, t) := ""];
    assert Run(owner, two) == Next(Run(owner, one), owner, Save(t));
    assert AllPossible(owner, one) && AllPossible(owner, two);
    assert !AgreesOn(Run(owner, ops).index, t, owner(t));
  }

  // ---- Runs in the order that processes follow ----

  /** No save while a stop that has looked the task up in vain is under way; no key deleted that has members. */
  ghost predicate InOrder(w: World, owner: Owner, op: Op) {
    match op
    case Save(t) => forall call :: (call, t) in w.pending ==> w.pending[(call, t)] == owner(t)
    case DropKey(i) => i != "" ==> Members(w.index, i) == {}
    case _ => true
  }

  ghost predicate AllInOrder(owner: Owner, ops: seq<Op>) {
    ops != [] ==> AllInOrder(owner, ops[..|ops| - 1]) && InOrder(Run(owner, ops[..|ops| - 1]), owner, ops[|ops| - 1])
  }

  /** A looked-up item is the task's, or the task is not in the hash. */
  ghost predicate LookupsHold(w: World, owner: Owner) {
    forall k :: k in w.pending ==> w.pending[k] == owner(k.1) || k.1 !in w.index.hash
  }

  /** Runs in order are fresh. */
  lemma {:induction false} InOrderIsFresh(owner: Owner, ops: seq<Op>)
    requires AllInOrder(owner, ops)
    ensures AllFresh(owner, ops) && LookupsHold(Run(owner, ops), owner)
  {
    if ops != [] {
      var front, last := ops[..|ops| - 1], ops[|ops| - 1];
      InOrderIsFresh(owner, front);
      RunOwned(owner, front);
      var w := Run(owner, front);
      forall k | k in Next(w, owner, last).pending
        ensures Next(w, owner, last).pending[k] == owner(k.1) || k.1 !in Next(w, owner, last).index.hash
      {
        assert k == (k.0, k.1);
      }
    }
  }

  // ---- What a fresh run leaves behind ----

  predicate Touches(op: Op, t: TaskId) {
    !op.DropKey? && !op.Lookup? && op.t == t
  }

  /** The last request that changes the task's entries is its save. */
  predicate LastIsSave(ops: seq<Op>, t: TaskId) {
    ops != [] &&
    var last := ops[|ops| - 1];
    if Touches(last, t) then last.Save? else LastIsSave(ops[..|ops| - 1], t)
  }

  /** The index lists exactly the tasks whose last step was a save. */
  ghost predicate Reflects(x: Index, owner: Owner, ops: seq<Op>) {
    && (forall t :: t in x.hash <==> LastIsSave(ops, t))
    && (forall t :: t in x.hash ==> x.hash[t] == owner(t))
    && (forall t, i :: t in Members(x, i) <==> i != "" && LastIsSave(ops, t) && owner(t) == i)
  }

  /**
   * After any fresh interleaving the index depends only on each task's own last step: repeated
   * clean-ups change nothing, and steps on different tasks commute.
   */
  lemma {:induction false} RunReflects(owner: Owner, ops: seq<Op>)
    requires AllPossible(owner, ops) && AllFresh(owner, ops)
    ensures Reflects(Run(owner, ops).index, owner, ops)
  {
    if ops != [] {
      var front, last := ops[..|ops| - 1], ops[|ops| - 1];
      RunReflects(owner, front);
      RunOwned(owner, front);
      NextReflects(Run(owner, front), owner, front, last);
      assert front + [last] == ops;
    }
  }

  lemma NextReflects(w: World, owner: Owner, front: seq<Op>, op: Op)
    requires Owned(w, owner) && Reflects(w.index, owner, front) && Fresh(w, op)
    requires op.StopRemove? ==> (op.call, op.t) in w.pending
    ensures Reflects(Next(w, owner, op).index, owner, front + [op])
  {
    var x, ops := w.index, front + [op];
    assert ops[..|ops| - 1] == front;
    forall t ensures LastIsSave(ops, t) <==> if Touches(op, t) then op.Save? else LastIsSave(front, t) { }
    hide LastIsSave;
    match op
    case Save(t) => SavedMembers(x, t, owner(t));
    case Remove(t) => RemovedMembers(x, t, owner(t));
    case DropKey(i) =>
      assert forall j :: Members(KeyDeleted(x, i), j) == Members(x, j);
    case Lookup(_, _) =>
    case StopRemove(call, t) =>
      StopIsClean(x, owner, front, t, w.pending[(call, t)]);
      RemovedMembers(x, t, owner(t));
  }

  /** A stop with a fresh item lists the same as a clean-up with the right one, also when the task is already gone. */
  lemma StopIsClean(x: Index, owner: Owner, ops: seq<Op>, t: TaskId, i: ItemId)
    requires Reflects(x, owner, ops)
    requires i == owner(t) || (i == "" && t !in x.hash)
    ensures Removed(x, t, i).hash == Removed(x, t, owner(t)).hash
    ensures forall j :: Members(Removed(x, t, i), j) == Members(Removed(x, t, owner(t)), j)
  {
    RemovedMembers(x, t, i);
    RemovedMembers(x, t, owner(t));
  }

  /** Two fresh interleavings in which every task's own last step agrees list the same. */
  lemma SameLastStepsSameState(owner: Owner, a: seq<Op>, b: seq<Op>)
    requires AllPossible(owner, a) && AllFresh(owner, a) && AllPossible(owner, b) && AllFresh(owner, b)
    requires forall t :: LastIsSave(a, t) <==> LastIsSave(b, t)
    ensures var x, y := Run(owner, a).index, Run(owner, b).index;
            x.hash == y.hash && forall i :: Members(x, i) == Members(y, i)
  {
    hide LastIsSave, Members, Run, AllFresh, AllPossible;
    var x, y := Run(owner, a).index, Run(owner, b).index;
    RunReflects(owner, a);
    RunReflects(owner, b);
    assert x.hash.Keys == y.hash.Keys;
    assert x.hash == y.hash;
    forall i ensures Members(x, i) == Members(y, i) {
      forall t ensures t in Members(x, i) <==> t in Members(y, i) {
        assert t in Members(x, i) <==> i != "" && LastIsSave(a, t) && owner(t) == i;
        assert t in Members(y, i) <==> i != "" && LastIsSave(b, t) && owner(t) == i;
      }
    }
  }

  /** A task whose saves all come before one of its clean-ups or stops is listed nowhere. */
  lemma NoFinishedTaskListed(owner: Owner, ops: seq<Op>, t: TaskId, k: nat)
    requires AllPossible(owner, ops) && AllFresh(owner, ops)
    requires k < |ops| && Touches(ops[k], t) && !ops[k].Save?
    requires forall j :: k < j < |ops| && Touches(ops[j], t) ==> !ops[j].Save?
    ensures t !in Run(owner, ops).index.hash
    ensures forall i :: t !in Members(Run(owner, ops).index, i)
  {
    RunReflects(owner, ops);
    LaterCleanWins(ops, t, k);
  }

  lemma {:induction false} LaterCleanWins(ops: seq<Op>, t: TaskId, k: nat)
    requires k < |ops| && Touches(ops[k], t) && !ops[k].Save?
    requires forall j :: k < j < |ops| && Touches(ops[j], t) ==> !ops[j].Save?
    ensures !LastIsSave(ops, t)
    decreases |ops|
  {
    if k < |ops| - 1 && !Touches(ops[|ops| - 1], t) {
      LaterCleanWins(ops[..|ops| - 1], t, k);
    }
  }

  /** Without a save from `k` on, a last save lies before `k`. */
  lemma {:induction false} SavedBefore(ops: seq<Op>, t: TaskId, k: nat)
    requires k <= |ops| && LastIsSave(ops, t)
    requires forall j :: k <= j < |ops| && Touches(ops[j], t) ==> !ops[j].Save?
    ensures LastIsSave(ops[..k], t)
    decreases |ops|
  {
    if k == |ops| {
      assert ops[..k] == ops;
    } else {
      SavedBefore(ops[..|ops| - 1], t, k);
      assert ops[..|ops| - 1][..k] == ops[..k];
    }
  }

  lemma {:induction false} FreshPrefix(owner: Owner, ops: seq<Op>, k: nat)
    requires AllPossible(owner, ops) && AllFresh(owner, ops) && k <= |ops|
    ensures AllPossible(owner, ops[..k]) && AllFresh(owner, ops[..k])
    decreases |ops|
  {
    if k == |ops| {
      assert ops[..k] == ops;
    } else {
      FreshPrefix(owner, ops[..|ops| - 1], k);
      assert ops[..|ops| - 1][..k] == ops[..k];
    }
  }

  /**
   * Stopping all tasks of an item, with other processes at work: when each task that the set
   * held at `k` is stopped or cleaned up later and none of the item's is saved, the set ends empty.
   */
  lemma StopsEmptyItem(owner: Owner, ops: seq<Op>, i: ItemId, k: nat)
    requires AllPossible(owner, ops) && AllFresh(owner, ops) && k <= |ops|
    requires forall j :: k <= j < |ops| && ops[j].Save? ==> owner(ops[j].t) != i
    requires forall t :: t in Members(Run(owner, ops[..k]).index, i) ==>
               exists j :: k <= j < |ops| && Touches(ops[j], t)
    ensures Members(Run(owner, ops).index, i) == {}
  {
    RunReflects(owner, ops);
    FreshPrefix(owner, ops, k);
    RunReflects(owner, ops[..k]);
    forall t | t in Members(Run(owner, ops).index, i) ensures false {
      assert owner(t) == i;
      SavedBefore(ops, t, k);
      var j :| k <= j < |ops| && Touches(ops[j], t);
      LaterCleanWins(ops, t, j);
    }
  }

  /** A save that comes after all clean-ups leaves the task listed, finished or not. */
  lemma SaveAfterCleanStaysListed(owner: Owner, t: TaskId)
    ensures t in Run(owner, [Remove(t), Save(t)]).index.hash
  {
  }

  // ---- Delivering the stop commands ----

  /** What a process's listener cancels: the commanded tasks it has in its own dictionary. */
  method Listen(local: set<TaskId>, commands: seq<TaskId>) returns (cancelled: set<TaskId>)
    ensures cancelled == local * Elements(commands)
  {
    cancelled := {};
    for k := 0 to |commands|
      invariant cancelled == local * Elements(commands[..k])
    {
      assert commands[..k + 1] == commands[..k] + [commands[k]];
      ElementsOfConcat(commands[..k], [commands[k]]);
      if commands[k] in local {
        cancelled := cancelled + {commands[k]};
      }
    }
    assert commands[..|commands|] == commands;
  }
}
