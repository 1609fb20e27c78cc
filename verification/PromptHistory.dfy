/**
 * The version history of prompts (models/prompt_history.py): commits with a parent commit,
 * and the deletion of one commit, which hands its children to their grandparent.
 */
module PromptHistory {
  import opened Basics
  import opened Forest

  datatype Entry = Entry(promptId: Id, parentId: Option<Id>, snapshot: string,
                         userId: Id, commitMessage: Option<string>, createdAt: int)

  type Rows = map<Id, Entry>

  function ParentsOf(rows: Rows): Parents {
    map x | x in rows :: rows[x].parentId
  }

  // ---- What the operations do to the table ----

  function Deleted(rows: Rows, h: Id): Rows
    requires h in rows
  {
    map x | x in rows && x != h ::
      if rows[x].parentId == Some(h) then rows[x].(parentId := rows[h].parentId) else rows[x]
  }

  function WithoutPrompt(rows: Rows, promptId: Id): Rows {
    map x | x in rows && rows[x].promptId != promptId :: rows[x]
  }

  class PromptHistoryTable {
    var rows: Rows

    constructor ()
      ensures rows == map[]
    {
      rows := map[];
    }

    /** `id` stands for the fresh uuid and `createdAt` for the clock. */
    method CreateHistoryEntry(id: Id, promptId: Id, snapshot: string, userId: Id,
                              parentId: Option<Id>, commitMessage: Option<string>, createdAt: int)
      returns (entry: Entry)
      requires id !in rows
      modifies this
      ensures entry == Entry(promptId, parentId, snapshot, userId, commitMessage, createdAt)
      ensures rows == old(rows)[id := entry]
    {
      entry := Entry(promptId, parentId, snapshot, userId, commitMessage, createdAt);
      rows := rows[id := entry];
    }

    method DeleteHistoryEntry(historyId: Id) returns (found: bool)
      modifies this
      ensures found <==> historyId in old(rows)
      ensures rows == if historyId in old(rows) then Deleted(old(rows), historyId) else old(rows)
    {
      if historyId !in rows {
        return false;
      }
      var entry := rows[historyId];
      var children := set x | x in rows && rows[x].parentId == Some(historyId);
      ghost var done: set<Id> := {};
      while children != {}
        invariant children !! done
        invariant children + done == set x | x in old(rows) && old(rows)[x].parentId == Some(historyId)
        invariant rows == map x | x in old(rows) ::
                            if x in done then old(rows)[x].(parentId := entry.parentId) else old(rows)[x]
        decreases children
      {
        var child :| child in children;
        rows := rows[child := rows[child].(parentId := entry.parentId)];
        children, done := children - {child}, done + {child};
      }
      rows := map x | x in rows && x != historyId :: rows[x];
      return true;
    }

    method DeleteHistoryByPromptId(promptId: Id)
      modifies this
      ensures rows == WithoutPrompt(old(rows), promptId)
    {
      rows := map x | x in rows && rows[x].promptId != promptId :: rows[x];
    }
  }

  // ---- What the operations leave alone ----

  /** A deletion takes that one entry and changes nothing of the others but the parent of its children. */
  lemma DeletionFrame(rows: Rows, h: Id, x: Id)
    requires h in rows && x in rows && x != h
    ensures Deleted(rows, h).Keys == rows.Keys - {h}
    ensures var after := Deleted(rows, h)[x];
            && after.(parentId := rows[x].parentId) == rows[x]
            && after.parentId == if rows[x].parentId == Some(h) then rows[h].parentId else rows[x].parentId
  {
  }

  /** Removing a prompt's history takes exactly its entries and changes none of the others. */
  lemma PromptFrame(rows: Rows, promptId: Id, x: Id)
    ensures x in WithoutPrompt(rows, promptId) <==> x in rows && rows[x].promptId != promptId
    ensures x in WithoutPrompt(rows, promptId) ==> WithoutPrompt(rows, promptId)[x] == rows[x]
  {
  }

  // ---- Deleting one commit keeps the ancestry of all others ----

  lemma {:induction false} SelfParentReachesOnlyItself(p: Parents, h: Id, a: Id, n: nat)
    requires h in p && p[h] == Some(h)
    requires Climbs(p, h, a, n)
    ensures a == h
    decreases n
  {
    if n > 0 {
      SelfParentReachesOnlyItself(p, h, a, n - 1);
    }
  }

  lemma {:induction false} AncestorSurvives(rows: Rows, h: Id, x: Id, a: Id, n: nat)
    requires h in rows && x != h && a != h && 0 < n
    requires Climbs(ParentsOf(rows), x, a, n)
    ensures Below(ParentsOf(Deleted(rows, h)), x, a)
    decreases n
  {
    var p, q := ParentsOf(rows), ParentsOf(Deleted(rows, h));
    var y := p[x].value;
    if y == h {
      // x -> h -> g collapses to x -> g
      var g := p[h].value;
      if g == h {
        SelfParentReachesOnlyItself(p, h, a, n - 1);
      } else {
        assert Climbs(p, h, a, n - 1) && Climbs(p, g, a, n - 2);
        assert q[x] == Some(g);
        BelowStep(q, x, a);
        if g != a {
          AncestorSurvives(rows, h, g, a, n - 2);
        }
      }
    } else {
      assert q[x] == Some(y);
      BelowStep(q, x, a);
      if y != a {
        AncestorSurvives(rows, h, y, a, n - 1);
      }
    }
  }

  lemma {:induction false} AncestorWasThere(rows: Rows, h: Id, x: Id, a: Id, n: nat)
    requires h in rows && 0 < n
    requires Climbs(ParentsOf(Deleted(rows, h)), x, a, n)
    ensures Below(ParentsOf(rows), x, a)
    decreases n
  {
    var p, q := ParentsOf(rows), ParentsOf(Deleted(rows, h));
    var y := q[x].value;
    if p[x] == Some(h) {
      ParentIsAbove(p, x);
      ParentIsAbove(p, h);
      BelowTransitive(p, x, h, y);
    } else {
      ParentIsAbove(p, x);
    }
    if n > 1 {
      AncestorWasThere(rows, h, y, a, n - 1);
      BelowTransitive(p, x, y, a);
    }
  }

  /** For every table, cyclic or not: among the survivors, ancestry is exactly what it was. */
  lemma DeleteKeepsAncestry(rows: Rows, h: Id, x: Id, a: Id)
    requires h in rows && x != h && a != h
    ensures Below(ParentsOf(Deleted(rows, h)), x, a) <==> Below(ParentsOf(rows), x, a)
  {
    var p, q := ParentsOf(rows), ParentsOf(Deleted(rows, h));
    if Below(p, x, a) {
      var n :| 0 < n && Climbs(p, x, a, n);
      AncestorSurvives(rows, h, x, a, n);
    }
    if Below(q, x, a) {
      var n :| 0 < n && Climbs(q, x, a, n);
      AncestorWasThere(rows, h, x, a, n);
    }
  }

  /** A deletion leaves a dangling parent exactly when the entry was its own parent and had another child. */
  lemma DeleteDanglesIff(rows: Rows, h: Id)
    requires h in rows && NoDangling(ParentsOf(rows))
    ensures NoDangling(ParentsOf(Deleted(rows, h))) <==>
            !(rows[h].parentId == Some(h) && exists x :: x in rows && x != h && rows[x].parentId == Some(h))
  {
    var p, q := ParentsOf(rows), ParentsOf(Deleted(rows, h));
    if rows[h].parentId == Some(h) {
      forall x | x in rows && x != h && rows[x].parentId == Some(h) ensures !NoDangling(q) {
        assert q[x] == Some(h);
      }
    }
    forall x | x in q && q[x].Some? && q[x].value !in q
      ensures rows[h].parentId == Some(h) && rows[x].parentId == Some(h)
    {
      assert x in p;
    }
  }

  // ---- Whole runs ----

  datatype Op =
    | Create(id: Id, entry: Entry)
    | Delete(id: Id)
    | DeletePrompt(promptId: Id)

  /** A create uses a fresh id and names either no parent or a commit of the same prompt. */
  ghost predicate Allowed(rows: Rows, op: Op) {
    op.Create? ==>
      && op.id !in rows
      && (op.entry.parentId.Some? ==>
            op.entry.parentId.value in rows && rows[op.entry.parentId.value].promptId == op.entry.promptId)
  }

  function Apply(rows: Rows, op: Op): Rows {
    match op
    case Create(id, entry) => rows[id := entry]
    case Delete(id) => if id in rows then Deleted(rows, id) else rows
    case DeletePrompt(pid) => WithoutPrompt(rows, pid)
  }

  ghost predicate AllAllowed(rows: Rows, ops: seq<Op>)
    decreases |ops|
  {
    ops == [] || (Allowed(rows, ops[0]) && AllAllowed(Apply(rows, ops[0]), ops[1..]))
  }

  function Run(rows: Rows, ops: seq<Op>): Rows
    decreases |ops|
  {
    if ops == [] then rows else Run(Apply(rows, ops[0]), ops[1..])
  }

  /** Commits form a forest, no parent is missing, and no parent link leaves its prompt. */
  ghost predicate Sound(rows: Rows) {
    && Acyclic(ParentsOf(rows))
    && NoDangling(ParentsOf(rows))
    && forall x :: x in rows && rows[x].parentId.Some? && rows[x].parentId.value in rows ==>
         rows[rows[x].parentId.value].promptId == rows[x].promptId
  }

  lemma StepKeepsSound(rows: Rows, op: Op)
    requires Sound(rows) && Allowed(rows, op)
    ensures Sound(Apply(rows, op))
  {
    var next := Apply(rows, op);
    var p, q := ParentsOf(rows), ParentsOf(next);
    match op
    case Create(id, entry) =>
      forall y | y in rows ensures rows[y].parentId != Some(id) {
        assert p[y] == rows[y].parentId;
      }
      AddLeafKeepsAcyclic(p, id, entry.parentId);
      assert q == p[id := entry.parentId];
    case Delete(h) =>
      if h in rows {
        forall x | x in q ensures !Below(q, x, x) {
          DeleteKeepsAncestry(rows, h, x, x);
        }
        assert h in p;
        if rows[h].parentId == Some(h) {
          ParentIsAbove(p, h);
        }
        DeleteDanglesIff(rows, h);
      }
    case DeletePrompt(pid) =>
      SmallerTableAcyclic(p, q);
      forall x | x in q && q[x].Some? ensures q[x].value in q {
        assert x in p && p[x].value in p;
      }
  }

  /** A chain inside one prompt survives the removal of another. */
  lemma {:induction false} ChainOfOtherPrompt(rows: Rows, promptId: Id, x: Id, a: Id, n: nat)
    requires Sound(rows) && x in WithoutPrompt(rows, promptId)
    requires Climbs(ParentsOf(rows), x, a, n)
    ensures Climbs(ParentsOf(WithoutPrompt(rows, promptId)), x, a, n)
    decreases n
  {
    var p := ParentsOf(rows);
    if n > 0 {
      assert p[x].value in p && rows[x].parentId == p[x];
      ChainOfOtherPrompt(rows, promptId, p[x].value, a, n - 1);
    }
  }

  /** No step changes the ancestry of two commits that exist before and after it. */
  lemma StepKeepsAncestry(rows: Rows, op: Op, x: Id, a: Id)
    requires Sound(rows) && Allowed(rows, op)
    requires x in rows && a in rows && x in Apply(rows, op) && a in Apply(rows, op)
    ensures Below(ParentsOf(Apply(rows, op)), x, a) <==> Below(ParentsOf(rows), x, a)
  {
    var p, q := ParentsOf(rows), ParentsOf(Apply(rows, op));
    match op
    case Create(id, entry) =>
      assert q == p[id := entry.parentId];
      forall n: nat ensures Climbs(q, x, a, n) <==> Climbs(p, x, a, n) {
        ClimbsIgnoresLeaf(p, id, entry.parentId, x, a, n);
      }
    case Delete(h) =>
      if h in rows {
        DeleteKeepsAncestry(rows, h, x, a);
      }
    case DeletePrompt(pid) =>
      forall n: nat ensures Climbs(q, x, a, n) <==> Climbs(p, x, a, n) {
        if Climbs(q, x, a, n) {
          SmallerTableClimbs(p, q, x, a, n);
        }
        if Climbs(p, x, a, n) {
          ChainOfOtherPrompt(rows, pid, x, a, n);
        }
      }
  }

  /** The commit is there from the beginning of the run to its end. */
  ghost predicate Survives(rows: Rows, ops: seq<Op>, x: Id)
    decreases |ops|
  {
    x in rows && (ops == [] || Survives(Apply(rows, ops[0]), ops[1..], x))
  }

  /** A run keeps a sound forest, and the ancestry of the commits that live through it. */
  lemma {:induction false} RunKeepsSound(rows: Rows, ops: seq<Op>)
    requires Sound(rows) && AllAllowed(rows, ops)
    ensures Sound(Run(rows, ops))
    ensures forall x, a :: Survives(rows, ops, x) && Survives(rows, ops, a) ==>
              (Below(ParentsOf(Run(rows, ops)), x, a) <==> Below(ParentsOf(rows), x, a))
    decreases |ops|
  {
    if ops != [] {
      var next := Apply(rows, ops[0]);
      StepKeepsSound(rows, ops[0]);
      RunKeepsSound(next, ops[1..]);
      forall x, a | Survives(rows, ops, x) && Survives(rows, ops, a)
        ensures Below(ParentsOf(Run(rows, ops)), x, a) <==> Below(ParentsOf(rows), x, a)
      {
        assert Survives(next, ops[1..], x) && Survives(next, ops[1..], a);
        StepKeepsAncestry(rows, ops[0], x, a);
      }
    }
  }
}
