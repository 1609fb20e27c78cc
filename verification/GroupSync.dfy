/**
 * Bringing a user's groups in line with a list of names (models/groups.py,
 * sync_groups_by_group_names), as an identity provider reports them at login.
 */
module GroupSync {
  import opened Basics

  type Id = string

  datatype Group = Group(name: string, updatedAt: int)

  datatype Membership = Membership(groupId: Id, userId: Id)

  type Groups = map<Id, Group>

  /** The group_member rows. */
  type Rows = seq<Membership>

  /** The groups that should contain the user: those with one of the names. */
  function Named(groups: Groups, names: seq<string>): set<Id> {
    set g | g in groups && groups[g].name in names
  }

  /** The groups the user is in: the join of groups and memberships. */
  function GroupsOf(groups: Groups, rows: Rows, userId: Id): set<Id> {
    set g | g in groups && Membership(g, userId) in rows
  }

  /** The bulk delete. */
  function Deleted(rows: Rows, userId: Id, gone: set<Id>): Rows {
    if rows == [] then []
    else
      var front, last := Deleted(rows[..|rows| - 1], userId, gone), rows[|rows| - 1];
      if last.userId == userId && last.groupId in gone then front else front + [last]
  }

  /** The rows of all other users, in their order. */
  function RowsOfOthers(rows: Rows, userId: Id): Rows {
    if rows == [] then []
    else
      var front, last := RowsOfOthers(rows[..|rows| - 1], userId), rows[|rows| - 1];
      if last.userId == userId then front else front + [last]
  }

  function Touched(groups: Groups, changed: set<Id>, now: int): Groups {
    map g | g in groups :: if g in changed then groups[g].(updatedAt := now) else groups[g]
  }

  lemma {:induction false} DeletedElement(rows: Rows, userId: Id, gone: set<Id>, m: Membership)
    ensures m in Deleted(rows, userId, gone) <==> m in rows && !(m.userId == userId && m.groupId in gone)
  {
    if rows != [] {
      var front, last := rows[..|rows| - 1], rows[|rows| - 1];
      DeletedElement(front, userId, gone, m);
      assert rows == front + [last];
    }
  }

  lemma {:induction false} DeletedKeepsOthers(rows: Rows, userId: Id, gone: set<Id>)
    ensures RowsOfOthers(Deleted(rows, userId, gone), userId) == RowsOfOthers(rows, userId)
    ensures Distinct(rows) ==> Distinct(Deleted(rows, userId, gone))
    ensures gone == {} ==> Deleted(rows, userId, gone) == rows
  {
    if rows != [] {
      var front, last := rows[..|rows| - 1], rows[|rows| - 1];
      DeletedKeepsOthers(front, userId, gone);
      assert rows == front + [last];
      var kept := Deleted(front, userId, gone);
      assert (kept + [last])[..|kept|] == kept;
    }
    hide Distinct, Deleted, RowsOfOthers;
    DeletedDistinct(rows, userId, gone);
  }

  lemma {:induction false} DeletedDistinct(rows: Rows, userId: Id, gone: set<Id>)
    ensures Distinct(rows) ==> Distinct(Deleted(rows, userId, gone))
  {
    if rows != [] && Distinct(rows) {
      var front, last := rows[..|rows| - 1], rows[|rows| - 1];
      var kept := Deleted(front, userId, gone);
      DeletedDistinct(front, userId, gone);
      DeletedElement(front, userId, gone, last);
      assert Distinct(front) && last !in Elements(kept);
      hide Distinct, Elements;
      Append(kept, last);
    }
  }

  lemma TouchedTwice(groups: Groups, a: set<Id>, b: set<Id>, now: int)
    ensures Touched(Touched(groups, a, now), b, now) == Touched(groups, a + b, now)
    ensures a == {} ==> Touched(groups, a, now) == groups
  {
  }

  /** What the marks and memberships of a synchronization mean, group by group and row by row. */
  lemma SyncedRows(groups0: Groups, rows0: Rows, groups: Groups, rows: Rows, userId: Id, names: seq<string>, now: int)
    requires var target, before := Named(groups0, names), GroupsOf(groups0, rows0, userId);
             && groups == Touched(groups0, (before - target) + (target - before), now)
             && forall m: Membership :: m in rows <==>
                  if m.userId == userId && m.groupId in groups0 then m.groupId in target else m in rows0
    ensures groups.Keys == groups0.Keys && GroupsOf(groups, rows, userId) == Named(groups0, names)
    ensures forall g :: g in groups ==>
              && groups[g].name == groups0[g].name
              && (Membership(g, userId) in rows <==> groups[g].name in names)
              && groups[g].updatedAt ==
                 if Membership(g, userId) in rows <==> Membership(g, userId) in rows0
                 then groups0[g].updatedAt else now
  {
  }

  class GroupTable {
    var groups: Groups
    var members: Rows

    constructor ()
      ensures groups == map[] && members == []
    {
      groups, members := map[], [];
    }

    /**
     * Afterwards the user is in exactly the named groups that exist; every other user's rows
     * and all group names are as before, and only groups gained or lost are marked changed.
     */
    method SyncGroupsByGroupNames(userId: Id, groupNames: seq<string>, now: int)
      modifies this
      ensures GroupsOf(groups, members, userId) == Named(old(groups), groupNames)
      ensures RowsOfOthers(members, userId) == RowsOfOthers(old(members), userId)
      ensures Distinct(old(members)) ==> Distinct(members)
      ensures var before, target := old(GroupsOf(groups, members, userId)), Named(old(groups), groupNames);
              groups == Touched(old(groups), (before - target) + (target - before), now)
      ensures groups.Keys == old(groups).Keys
      ensures forall g :: g in groups ==>
                && groups[g].name == old(groups)[g].name
                && (Membership(g, userId) in members <==> groups[g].name in groupNames)
                && groups[g].updatedAt ==
                   if Membership(g, userId) in members <==> Membership(g, userId) in old(members)
                   then old(groups)[g].updatedAt else now
      ensures forall m: Membership :: m.userId != userId ==> (m in members <==> m in old(members))
      ensures forall m: Membership :: m.userId == userId && m.groupId !in groups ==>
                (m in members <==> m in old(members))
      ensures old(GroupsOf(groups, members, userId)) == Named(old(groups), groupNames) ==>
                members == old(members) && groups == old(groups)
    {
      ghost var groups0, rows0 := groups, members;
      var target := Named(groups, groupNames);
      var existing := GroupsOf(groups, members, userId);
      var toAdd := target - existing;
      var toRemove := existing - target;
      assert forall g :: g in existing <==> g in groups0 && Membership(g, userId) in rows0;
      assert target <= groups0.Keys;
      hide Deleted, RowsOfOthers, Touched, Distinct, Named, GroupsOf;
      DeletedKeepsOthers(members, userId, toRemove);
      TouchedTwice(groups, toRemove, {}, now);
      forall m
        ensures m in Deleted(rows0, userId, toRemove) <==> m in rows0 && !(m.userId == userId && m.groupId in toRemove)
      {
        DeletedElement(rows0, userId, toRemove, m);
      }
      if toRemove != {} {
        members := Deleted(members, userId, toRemove);
        groups := Touched(groups, toRemove, now);
      }
      assert groups == Touched(groups0, toRemove, now);
      assert members == Deleted(rows0, userId, toRemove);
      AddMissing(userId, toAdd);
      if toAdd != {} {
        groups := Touched(groups, toAdd, now);
      }
      TouchedTwice(groups0, toRemove, toAdd, now);
      TouchedTwice(Touched(groups0, toRemove, now), toAdd, {}, now);
      SyncedRows(groups0, rows0, groups, members, userId, groupNames, now);
      TouchedTwice(groups0, {}, {}, now);
    }

    /** One new row for each group the user is to join. */
    method AddMissing(userId: Id, toAdd: set<Id>)
      requires forall g :: g in toAdd ==> Membership(g, userId) !in members
      modifies this`members
      ensures forall m :: m in members <==> m in old(members) || (m.userId == userId && m.groupId in toAdd)
      ensures RowsOfOthers(members, userId) == RowsOfOthers(old(members), userId)
      ensures Distinct(old(members)) ==> Distinct(members)
      ensures toAdd == {} ==> members == old(members)
    {
      var left := toAdd;
      while left != {}
        invariant left <= toAdd
        invariant forall m :: m in members <==> m in old(members) || (m.userId == userId && m.groupId in toAdd - left)
        invariant RowsOfOthers(members, userId) == RowsOfOthers(old(members), userId)
        invariant Distinct(old(members)) ==> Distinct(members)
        invariant left == toAdd ==> members == old(members)
        decreases left
      {
        var g :| g in left;
        var row := Membership(g, userId);
        assert row !in members;
        assert (members + [row])[..|members|] == members;
        members := members + [row];
        left := left - {g};
      }
    }
  }
}
