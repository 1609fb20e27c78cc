/**
 * Scheduled automations (models/automations.py): workers claim due rows, and a claim moves
 * the row's next run past the claiming time before anyone else can see it.
 */
module Automations {
  import opened Basics

  type Id = string
  type Worker = nat

  /** Times are nanoseconds. */
  datatype Automation = Automation(userId: Id, name: string, rrule: string, isActive: bool,
                                   lastRunAt: Option<int>, nextRunAt: Option<int>)

  type Rows = map<Id, Automation>

  predicate Due(row: Automation, now: int) {
    row.isActive && row.nextRunAt.Some? && row.nextRunAt.value <= now
  }

  /** The due time of a row that has one. */
  function DueTime(row: Automation): int {
    if row.nextRunAt.Some? then row.nextRunAt.value else 0
  }

  /** What the query may answer: at most `limit` of the free due rows, the earliest ones, in order. */
  ghost predicate IsBatch(rows: Rows, free: set<Id>, now: int, limit: nat, ids: seq<Id>) {
    && Distinct(ids) && |ids| <= limit
    && (forall id :: id in ids ==> id in rows && id in free && Due(rows[id], now))
    && (forall j, k :: 0 <= j < k < |ids| ==> DueTime(rows[ids[j]]) <= DueTime(rows[ids[k]]))
    && (forall x :: x in rows && x in free && Due(rows[x], now) && x !in ids ==>
          |ids| == limit && forall id :: id in ids ==> DueTime(rows[id]) <= DueTime(rows[x]))
  }

  /** The query always has an answer. */
  lemma {:induction false} BatchExists(rows: Rows, free: set<Id>, now: int, limit: nat) returns (ids: seq<Id>)
    ensures IsBatch(rows, free, now, limit, ids)
    decreases limit
  {
    if limit == 0 {
      ids := [];
    } else {
      var front := BatchExists(rows, free, now, limit - 1);
      var rest := set x | x in rows && x in free && Due(rows[x], now) && x !in front;
      if rest == {} {
        ids := front;
      } else {
        var first := Earliest(rows, rest);
        ids := front + [first];
        assert forall x :: x in ids <==> x in front || x == first;
        forall x | x in rows && x in free && Due(rows[x], now) && x !in ids
          ensures |ids| == limit && forall id :: id in ids ==> DueTime(rows[id]) <= DueTime(rows[x])
        {
          assert x in rest;
        }
      }
      assert forall x :: x in rows && x in free && Due(rows[x], now) && x !in front ==> x in rest;
    }
  }

  lemma {:induction false} Earliest(rows: Rows, s: set<Id>) returns (first: Id)
    requires s != {} && s <= rows.Keys
    ensures first in s && forall x :: x in s ==> DueTime(rows[first]) <= DueTime(rows[x])
    decreases s
  {
    first :| first in s;
    assert forall x :: x in s ==> x == first || x in s - {first};
    if s - {first} != {} {
      var other := Earliest(rows, s - {first});
      if DueTime(rows[other]) < DueTime(rows[first]) {
        first := other;
      }
    }
  }

  /** The rows once a batch is claimed at time `now`, with the next runs computed for it. */
  function Rearmed(rows: Rows, ids: seq<Id>, now: int, next: map<Id, Option<int>>): Rows
    requires forall id :: id in ids ==> id in next
  {
    map x | x in rows ::
      if x in ids then rows[x].(lastRunAt := Some(now), nextRunAt := next[x]) else rows[x]
  }

  /** next_run_ns answers with no time or with a time after the moment it was asked. */
  ghost predicate NextRunsAfter(ids: seq<Id>, next: map<Id, Option<int>>, now: int) {
    forall id :: id in ids ==> id in next && (next[id].Some? ==> now < next[id].value)
  }

  class AutomationTable {
    var rows: Rows

    constructor ()
      ensures rows == map[]
    {
      rows := map[];
    }

    method Insert(id: Id, userId: Id, name: string, rrule: string, isActive: bool, nextRunAt: int)
      requires id !in rows
      modifies this
      ensures rows == old(rows)[id := Automation(userId, name, rrule, isActive, None, Some(nextRunAt))]
    {
      rows := rows[id := Automation(userId, name, rrule, isActive, None, Some(nextRunAt))];
    }

    method UpdateById(id: Id, name: string, rrule: string, isActive: Option<bool>, nextRunAt: int) returns (found: bool)
      modifies this
      ensures found <==> id in old(rows)
      ensures rows == if id in old(rows) then old(rows)[id := Updated(old(rows)[id], name, rrule, isActive, nextRunAt)]
                      else old(rows)
    {
      if id !in rows {
        return false;
      }
      var row := rows[id].(name := name, rrule := rrule);
      if isActive.Some? {
        row := row.(isActive := isActive.value);
      }
      rows := rows[id := row.(nextRunAt := Some(nextRunAt))];
      return true;
    }

    method Toggle(id: Id, nextRunAt: Option<int>) returns (found: bool)
      modifies this
      ensures found <==> id in old(rows)
      ensures rows == if id in old(rows) then old(rows)[id := Toggled(old(rows)[id], nextRunAt)] else old(rows)
    {
      if id !in rows {
        return false;
      }
      var active := !rows[id].isActive;
      rows := rows[id := rows[id].(isActive := active, nextRunAt := if active then nextRunAt else None)];
      return true;
    }

    method Delete(id: Id) returns (found: bool)
      modifies this
      ensures found <==> id in old(rows)
      ensures rows == old(rows) - {id}
    {
      found := id in rows;
      rows := rows - {id};
    }

    /**
     * Claims `ids`, the answer of the locking query.  The returned rows are the changed ones,
     * none of which is due any more at the claiming time.
     */
    method ClaimDue(now: int, limit: nat, free: set<Id>, ids: seq<Id>, next: map<Id, Option<int>>)
      returns (claimed: seq<Automation>)
      requires IsBatch(rows, free, now, limit, ids) && NextRunsAfter(ids, next, now)
      modifies this
      ensures rows == Rearmed(old(rows), ids, now, next)
      ensures |claimed| == |ids| <= limit
      ensures forall k :: 0 <= k < |ids| ==> ids[k] in rows && claimed[k] == rows[ids[k]]
      ensures forall id, t :: id in ids && t <= now ==> !Due(rows[id], t)
    {
      ghost var before := rows;
      claimed := [];
      assert ids[..0] == [];
      for k := 0 to |ids|
        invariant rows == Rearmed(before, ids[..k], now, next)
        invariant |claimed| == k
        invariant forall j :: 0 <= j < k ==>
                    claimed[j] == before[ids[j]].(lastRunAt := Some(now), nextRunAt := next[ids[j]])
      {
        assert ids[..k + 1] == ids[..k] + [ids[k]];
        assert ids[k] !in ids[..k] && ids[k] in ids;
        rows := rows[ids[k] := rows[ids[k]].(lastRunAt := Some(now), nextRunAt := next[ids[k]])];
        claimed := claimed + [rows[ids[k]]];
      }
      assert ids[..|ids|] == ids;
    }
  }

  function Updated(row: Automation, name: string, rrule: string, isActive: Option<bool>, nextRunAt: int): Automation {
    row.(name := name, rrule := rrule, nextRunAt := Some(nextRunAt),
         isActive := if isActive.Some? then isActive.value else row.isActive)
  }

  function Toggled(row: Automation, nextRunAt: Option<int>): Automation {
    row.(isActive := !row.isActive, nextRunAt := if row.isActive then None else nextRunAt)
  }

  // ---- What the operations say and leave alone ----

  /** A toggle flips the flag; an active automation gets the new time, an inactive one none; nothing else changes. */
  lemma ToggledRow(row: Automation, nextRunAt: Option<int>)
    ensures var after := Toggled(row, nextRunAt);
            && after.isActive == !row.isActive
            && (after.isActive ==> after.nextRunAt == nextRunAt) && (!after.isActive ==> after.nextRunAt == None)
            && after.(isActive := row.isActive, nextRunAt := row.nextRunAt) == row
  {
  }

  /** An update sets name, rule and next run, and the flag only when it is given. */
  lemma UpdatedRow(row: Automation, name: string, rrule: string, isActive: Option<bool>, nextRunAt: int)
    ensures var after := Updated(row, name, rrule, isActive, nextRunAt);
            && after.name == name && after.rrule == rrule && after.nextRunAt == Some(nextRunAt)
            && (isActive.Some? ==> after.isActive == isActive.value)
            && (isActive.None? ==> after.isActive == row.isActive)
            && after.userId == row.userId && after.lastRunAt == row.lastRunAt
  {
  }

  /** A claim notes its time and the next run on its rows, and changes nothing else. */
  lemma RearmedRow(rows: Rows, ids: seq<Id>, now: int, next: map<Id, Option<int>>, x: Id)
    requires x in rows && forall id :: id in ids ==> id in next
    ensures var after := Rearmed(rows, ids, now, next);
            && after.Keys == rows.Keys && (x !in ids ==> after[x] == rows[x])
            && (x in ids ==>
                  && after[x].lastRunAt == Some(now) && after[x].nextRunAt == next[x]
                  && after[x].(lastRunAt := rows[x].lastRunAt, nextRunAt := rows[x].nextRunAt) == rows[x])
  {
  }

  // ---- Workers and editors interleaved ----

  datatype Batch = Batch(now: int, ids: seq<Id>, due: map<Id, int>)

  /** A claim that has been committed; re-arming a row by an edit starts a new epoch. */
  datatype Claim = Claim(id: Id, epoch: nat, due: int, now: int)

  /** `locks` are the rows held by a worker between its query and its commit. */
  datatype World = World(rows: Rows, locks: map<Id, Worker>, batches: map<Worker, Batch>,
                         epoch: map<Id, nat>, log: seq<Claim>)

  datatype Event =
    | Select(w: Worker, now: int, limit: nat, ids: seq<Id>)
    | Commit(w: Worker, next: map<Id, Option<int>>)
    | InsertRow(id: Id, row: Automation)
    | Edit(id: Id, row: Automation)
    | DeleteRow(id: Id)

  /** With row locks the query skips locked rows; without them every row is free. */
  function Free(w: World, locking: bool): set<Id> {
    if locking then w.rows.Keys - w.locks.Keys else w.rows.Keys
  }

  /** An edit of a locked row waits for the lock, so it happens only on free rows. */
  ghost predicate Possible(w: World, locking: bool, e: Event) {
    match e
    case Select(k, now, limit, ids) => k !in w.batches && IsBatch(w.rows, Free(w, locking), now, limit, ids)
    case Commit(k, next) =>
      k in w.batches && NextRunsAfter(w.batches[k].ids, next, w.batches[k].now)
    case InsertRow(id, _) => id !in w.epoch
    case Edit(id, row) => id in w.rows && id in w.epoch && id !in w.locks
    case DeleteRow(id) => id !in w.locks
  }

  function Claims(w: World, b: Batch): seq<Claim> {
    seq(|b.ids|, i requires 0 <= i < |b.ids| =>
      Claim(b.ids[i], if b.ids[i] in w.epoch then w.epoch[b.ids[i]] else 0,
            if b.ids[i] in b.due then b.due[b.ids[i]] else 0, b.now))
  }

  ghost function Next(w: World, locking: bool, e: Event): World
    requires Possible(w, locking, e)
  {
    match e
    case Select(k, now, limit, ids) =>
      var due := map id | id in ids && id in w.rows :: DueTime(w.rows[id]);
      w.(locks := if locking then w.locks + map id | id in ids :: k else w.locks,
         batches := w.batches[k := Batch(now, ids, due)])
    case Commit(k, next) =>
      var b := w.batches[k];
      w.(rows := Rearmed(w.rows, b.ids, b.now, next),
         locks := w.locks - Elements(b.ids),
         batches := w.batches - {k},
         log := w.log + Claims(w, b))
    case InsertRow(id, row) => w.(rows := w.rows[id := row], epoch := w.epoch[id := 0])
    case Edit(id, row) => w.(rows := w.rows[id := row], epoch := w.epoch[id := w.epoch[id] + 1])
    case DeleteRow(id) => w.(rows := w.rows - {id})
  }

  /** A worker holds the locks of exactly its batch, and its rows are as it read them. */
  ghost predicate BatchInv(w: World, k: Worker) {
    k in w.batches ==>
      var b := w.batches[k];
      && Distinct(b.ids)
      && forall id :: id in b.ids ==>
           && id in w.locks && w.locks[id] == k && id in w.rows && id in w.epoch
           && Due(w.rows[id], b.now) && id in b.due && b.due[id] == DueTime(w.rows[id])
  }

  /** A claim lies in the past of its row: within its epoch, the row's next run is later. */
  ghost predicate ClaimInv(w: World, c: Claim) {
    && c.id in w.epoch && c.epoch <= w.epoch[c.id]
    && c.due <= c.now
    && (c.epoch == w.epoch[c.id] && c.id in w.rows && w.rows[c.id].nextRunAt.Some? ==>
          c.now < w.rows[c.id].nextRunAt.value)
  }

  /** Two claims of one row in one epoch: the later one is for a strictly later time. */
  ghost predicate Ordered(a: Claim, b: Claim) {
    a.id == b.id && a.epoch == b.epoch ==> a.due <= a.now < b.due
  }

  ghost predicate Inv(w: World) {
    && w.rows.Keys <= w.epoch.Keys
    && (forall id :: id in w.locks ==> w.locks[id] in w.batches && id in w.batches[w.locks[id]].ids)
    && (forall k :: BatchInv(w, k))
    && (forall i :: 0 <= i < |w.log| ==> ClaimInv(w, w.log[i]))
    && (forall i, j :: 0 <= i < j < |w.log| ==> Ordered(w.log[i], w.log[j]))
  }

  lemma SelectKeepsInv(w: World, k: Worker, now: int, limit: nat, ids: seq<Id>)
    requires Inv(w) && Possible(w, true, Select(k, now, limit, ids))
    ensures Inv(Next(w, true, Select(k, now, limit, ids)))
  {
    var t := Next(w, true, Select(k, now, limit, ids));
    forall x ensures BatchInv(t, x) {
      assert BatchInv(w, x);
    }
    forall i | 0 <= i < |t.log| ensures ClaimInv(t, t.log[i]) { assert ClaimInv(w, w.log[i]); }
  }

  lemma CommitKeepsInv(w: World, k: Worker, next: map<Id, Option<int>>)
    requires Inv(w) && Possible(w, true, Commit(k, next))
    ensures Inv(Next(w, true, Commit(k, next)))
  {
    var t := Next(w, true, Commit(k, next));
    var b := w.batches[k];
    assert BatchInv(w, k);
    forall x ensures BatchInv(t, x) {
      assert BatchInv(w, x);
    }
    forall i | 0 <= i < |t.log| ensures ClaimInv(t, t.log[i]) {
      if i < |w.log| {
        assert ClaimInv(w, w.log[i]);
      } else {
        var id := b.ids[i - |w.log|];
        assert id in b.ids;
      }
    }
    forall i, j | 0 <= i < j < |t.log| ensures Ordered(t.log[i], t.log[j]) {
      if i < |w.log| <= j {
        var id := b.ids[j - |w.log|];
        assert id in b.ids;
        assert ClaimInv(w, w.log[i]);
      }
    }
  }

  /** A commit logs one claim for each row of its batch, with the time that the row was due. */
  lemma CommitLogs(w: World, k: Worker, next: map<Id, Option<int>>, i: nat)
    requires Inv(w) && Possible(w, true, Commit(k, next)) && i < |w.batches[k].ids|
    ensures var log, id := Next(w, true, Commit(k, next)).log, w.batches[k].ids[i];
            && |log| == |w.log| + |w.batches[k].ids| && log[..|w.log|] == w.log
            && id in w.rows && id in w.epoch && Due(w.rows[id], w.batches[k].now)
            && log[|w.log| + i] == Claim(id, w.epoch[id], w.rows[id].nextRunAt.value, w.batches[k].now)
  {
    assert BatchInv(w, k) && w.batches[k].ids[i] in w.batches[k].ids;
  }

  lemma EditKeepsInv(w: World, e: Event)
    requires Inv(w) && Possible(w, true, e) && !e.Select? && !e.Commit?
    ensures Inv(Next(w, true, e))
  {
    var t := Next(w, true, e);
    forall x ensures BatchInv(t, x) {
      assert BatchInv(w, x);
    }
    forall i | 0 <= i < |t.log| ensures ClaimInv(t, t.log[i]) {
      assert ClaimInv(w, w.log[i]);
    }
  }

  lemma StepKeepsInv(w: World, e: Event)
    requires Inv(w) && Possible(w, true, e)
    ensures Inv(Next(w, true, e))
  {
    match e
    case Select(k, now, limit, ids) => SelectKeepsInv(w, k, now, limit, ids);
    case Commit(k, next) => CommitKeepsInv(w, k, next);
    case _ => EditKeepsInv(w, e);
  }

  ghost predicate AllPossible(w: World, locking: bool, es: seq<Event>)
    decreases |es|
  {
    es == [] || (Possible(w, locking, es[0]) && AllPossible(Next(w, locking, es[0]), locking, es[1..]))
  }

  ghost function Run(w: World, locking: bool, es: seq<Event>): World
    requires AllPossible(w, locking, es)
    decreases |es|
  {
    if es == [] then w else Run(Next(w, locking, es[0]), locking, es[1..])
  }

  const START := World(map[], map[], map[], map[], [])

  lemma {:induction false} RunKeepsInv(w: World, es: seq<Event>)
    requires Inv(w) && AllPossible(w, true, es)
    ensures Inv(Run(w, true, es))
    decreases |es|
  {
    if es != [] {
      StepKeepsInv(w, es[0]);
      RunKeepsInv(Next(w, true, es[0]), es[1..]);
    }
  }

  /** With row locks, in every interleaving, the due times claimed for one row in one epoch strictly increase. */
  lemma NoDoubleClaim(es: seq<Event>, i: nat, j: nat)
    requires AllPossible(START, true, es)
    requires i < j < |Run(START, true, es).log|
    ensures var log := Run(START, true, es).log;
            log[i].id == log[j].id && log[i].epoch == log[j].epoch ==> log[i].due <= log[i].now < log[j].due
  {
    RunKeepsInv(START, es);
    var log := Run(START, true, es).log;
    assert Ordered(log[i], log[j]);
  }

  /** No row is in the hands of two workers. */
  lemma OpenBatchesDisjoint(es: seq<Event>, k: Worker, l: Worker, id: Id)
    requires AllPossible(START, true, es)
    requires var w := Run(START, true, es);
             k in w.batches && l in w.batches && id in w.batches[k].ids && id in w.batches[l].ids
    ensures k == l
  {
    RunKeepsInv(START, es);
    var w := Run(START, true, es);
    assert BatchInv(w, k) && BatchInv(w, l);
  }

  // ---- Without row locks ----

  lemma SelectAlone(w: World, k: Worker, id: Id, row: Automation, now: int)
    requires w.rows == map[id := row] && Due(row, now) && k !in w.batches
    ensures var e := Select(k, now, 10, [id]);
            Possible(w, false, e) &&
            Next(w, false, e) == w.(batches := w.batches[k := Batch(now, [id], map[id := DueTime(row)])])
  {
    assert IsBatch(w.rows, Free(w, false), now, 10, [id]);
    assert (map x | x in [id] && x in w.rows :: DueTime(w.rows[x])) == map[id := DueTime(row)];
  }

  lemma CommitAlone(w: World, k: Worker, id: Id, now: int, due: int)
    requires k in w.batches && w.batches[k] == Batch(now, [id], map[id := due]) && w.epoch == map[id := 0]
    ensures var e := Commit(k, map[id := None]);
            Possible(w, false, e) &&
            var t := Next(w, false, e);
            t.log == w.log + [Claim(id, 0, due, now)] && t.batches == w.batches - {k} && t.epoch == w.epoch
  {
    assert Claims(w, w.batches[k]) == [Claim(id, 0, due, now)];
  }

  /** Without row locks two workers can claim the same due time of the same row. */
  lemma WithoutLocksDoubleClaim(id: Id, row: Automation, now: int)
    requires Due(row, now)
    ensures exists es :: AllPossible(START, false, es) &&
                         var log := Run(START, false, es).log;
                         |log| == 2 && log[0] == log[1] && log[0].id == id && log[0].due == DueTime(row)
  {
    var next: map<Id, Option<int>> := map[id := None];
    var e0, e1, e2 := InsertRow(id, row), Select(1, now, 10, [id]), Select(2, now, 10, [id]);
    var e3, e4 := Commit(1, next), Commit(2, next);
    var w1 := Next(START, false, e0);
    assert w1.rows == map[id := row] && w1.epoch == map[id := 0] && w1.batches == map[] && w1.log == [];
    hide Possible, Next, Due, DueTime;
    SelectAlone(w1, 1, id, row, now);
    var w2 := Next(w1, false, e1);
    SelectAlone(w2, 2, id, row, now);
    var w3 := Next(w2, false, e2);
    CommitAlone(w3, 1, id, now, DueTime(row));
    var w4 := Next(w3, false, e3);
    CommitAlone(w4, 2, id, now, DueTime(row));
    var w5 := Next(w4, false, e4);
    assert w5.log == [Claim(id, 0, DueTime(row), now), Claim(id, 0, DueTime(row), now)];
    RunOne(w4, e4, []);
    RunOne(w3, e3, [e4]);
    RunOne(w2, e2, [e3, e4]);
    RunOne(w1, e1, [e2, e3, e4]);
    RunOne(START, e0, [e1, e2, e3, e4]);
  }

  lemma RunOne(w: World, e: Event, rest: seq<Event>)
    requires Possible(w, false, e) && AllPossible(Next(w, false, e), false, rest)
    ensures AllPossible(w, false, [e] + rest)
    ensures Run(w, false, [e] + rest) == Run(Next(w, false, e), false, rest)
  {
    assert ([e] + rest)[1..] == rest;
  }
}
