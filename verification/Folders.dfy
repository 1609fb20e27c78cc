/**
 * The folder tree of each user (models/folders.py): recursive listing, recursive deletion,
 * search by name and moving.  A user's tree has only the folders that user owns.
 */
module Folders {
  import opened Basics
  import opened Forest

  datatype Folder = Folder(parentId: Option<Id>, userId: Id, name: string, updatedAt: int)

  type Rows = map<Id, Folder>

  /** The parent links among one user's folders. */
  function OwnedBy(rows: Rows, userId: Id): Parents {
    map x | x in rows && rows[x].userId == userId :: rows[x].parentId
  }

  predicate Owns(rows: Rows, userId: Id, id: Id) {
    id in rows && rows[id].userId == userId
  }

  function ChildrenOf(rows: Rows, userId: Id, parentId: Option<Id>): set<Id> {
    set x | x in rows && rows[x].userId == userId && rows[x].parentId == parentId
  }

  /** A folder and everything below it. */
  ghost function Subtree(rows: Rows, userId: Id, id: Id): set<Id> {
    {id} + Descendants(OwnedBy(rows, userId), id)
  }

  /** The user's folders that hang at or under one of the given folders. */
  ghost function Covered(p: Parents, roots: seq<Id>): set<Id> {
    set x | x in p && exists c :: c in roots && AtOrBelow(p, x, c)
  }

  function Without(rows: Rows, gone: set<Id>): (rest: Rows) {
    map x | x in rows && x !in gone :: rows[x]
  }

  /** Every chain of folders that ends at `f` has at most `depth` links. */
  ghost predicate Shallow(p: Parents, f: Id, depth: nat) {
    forall x, n: nat :: Climbs(p, x, f, n) ==> n <= depth
  }

  ghost predicate Closed(p: Parents, gone: set<Id>) {
    forall x, y :: x in gone && y in p && Below(p, y, x) ==> y in gone
  }

  ghost predicate OffCycles(p: Parents, gone: set<Id>) {
    forall x :: x in gone ==> !Below(p, x, x)
  }

  /** What an interrupted deletion may have removed: whole subtrees below the folder, none of them on a cycle. */
  ghost predicate PartOf(p: Parents, f: Id, gone: set<Id>) {
    gone <= Descendants(p, f) && Closed(p, gone) && OffCycles(p, gone)
  }

  ghost predicate PartlyDeleted(before: Rows, after: Rows, userId: Id, f: Id) {
    exists gone: set<Id> :: PartOf(OwnedBy(before, userId), f, gone) && after == Without(before, gone)
  }

  function Minus(p: Parents, gone: set<Id>): Parents {
    map x | x in p && x !in gone :: p[x]
  }

  // ---- Facts about subtrees ----

  /** Above a folder on a cycle there are only folders on that cycle. */
  lemma CycleAbove(p: Parents, x: Id, r: Id)
    requires Below(p, x, x) && AtOrBelow(p, x, r)
    ensures Below(p, r, r)
  {
    var n: nat :| Climbs(p, x, r, n);
    CycleNeverEnds(p, x, n + 1);
    var m: nat :| n + 1 <= m && Climbs(p, x, x, m);
    ClimbsSplit(p, x, r, x, n, m);
    ClimbsTransitive(p, r, x, r, m - n, n);
  }

  /** On a cycle the recursion would meet the same folder again beyond every depth. */
  lemma {:induction false} CycleNeverEnds(p: Parents, f: Id, k: nat)
    requires Below(p, f, f)
    ensures exists n: nat :: k <= n && Climbs(p, f, f, n)
    decreases k
  {
    var n: nat :| 0 < n && Climbs(p, f, f, n);
    if k > 0 {
      CycleNeverEnds(p, f, k - 1);
      var m: nat :| k - 1 <= m && Climbs(p, f, f, m);
      ClimbsTransitive(p, f, f, f, n, m);
    }
  }

  /** No depth is enough for a folder on a cycle. */
  lemma CycleIsNotShallow(p: Parents, f: Id, depth: nat)
    requires Below(p, f, f)
    ensures !Shallow(p, f, depth)
  {
    CycleNeverEnds(p, f, depth + 1);
  }

  /** Off cycles, as many nested calls as there are descendants are enough. */
  lemma OffCycleIsShallow(p: Parents, f: Id, depth: nat)
    requires !Below(p, f, f) && |Descendants(p, f)| <= depth
    ensures Shallow(p, f, depth)
  {
    forall x, n: nat | Climbs(p, x, f, n) ensures n <= depth {
      ChainFits(p, x, f, n);
    }
  }

  lemma {:induction false} ChainFits(p: Parents, x: Id, f: Id, n: nat)
    requires !Below(p, f, f) && Climbs(p, x, f, n)
    ensures n <= |Descendants(p, f)|
    decreases n
  {
    if n > 0 {
      LastStep(p, x, f, n);
      var c :| c in p && p[c] == Some(f) && Climbs(p, x, c, n - 1);
      ChildNotOnCycle(p, f, c);
      ChainFits(p, x, c, n - 1);
      ParentIsAbove(p, c);
      forall y | y in Descendants(p, c) ensures y in Descendants(p, f) { BelowTransitive(p, y, c, f); }
      assert c in Descendants(p, f) && c !in Descendants(p, c);
      SubsetSize(Descendants(p, c) + {c}, Descendants(p, f));
    }
  }

  lemma ChildNotOnCycle(p: Parents, f: Id, c: Id)
    requires !Below(p, f, f)
    requires c in p && p[c] == Some(f)
    ensures !Below(p, c, c)
  {
    if Below(p, c, c) {
      ParentIsAbove(p, c);
      AtOrBelowIff(p, c, f);
      CycleAbove(p, c, f);
    }
  }

  /** The subtrees of two children of one folder share nothing, unless one of the children is on a cycle. */
  lemma SiblingsDisjoint(p: Parents, f: Id, c: Id, d: Id, x: Id)
    requires !Below(p, c, c) && !Below(p, d, d)
    requires c in p && d in p && p[c] == Some(f) && p[d] == Some(f) && c != d
    requires AtOrBelow(p, x, c)
    ensures !AtOrBelow(p, x, d)
  {
    if AtOrBelow(p, x, d) {
      var n: nat :| Climbs(p, x, c, n);
      var m: nat :| Climbs(p, x, d, m);
      if n <= m {
        ClimbsSplit(p, x, c, d, n, m);
        OneAboveOther(p, f, c, d, m - n);
      } else {
        ClimbsSplit(p, x, d, c, m, n);
        OneAboveOther(p, f, d, c, n - m);
      }
    }
  }

  lemma OneAboveOther(p: Parents, f: Id, c: Id, d: Id, n: nat)
    requires c in p && d in p && p[c] == Some(f) && p[d] == Some(f) && c != d
    requires Climbs(p, c, d, n)
    ensures Below(p, d, d)
  {
    assert Climbs(p, f, d, n - 1);
    assert Climbs(p, d, f, 1) by { assert Climbs(p, f, f, 0); }
    ClimbsTransitive(p, d, f, d, 1, n - 1);
  }

  /** The descendants of a folder are its children and their descendants. */
  lemma DescendantsByChild(p: Parents, f: Id, children: seq<Id>)
    requires Elements(children) == set x | x in p && p[x] == Some(f)
    ensures Covered(p, children) == Descendants(p, f)
  {
    forall x | x in Covered(p, children) ensures Below(p, x, f) {
      var c :| c in children && AtOrBelow(p, x, c);
      assert c in Elements(children);
      ParentIsAbove(p, c);
      AtOrBelowIff(p, x, c);
      if x != c { BelowTransitive(p, x, c, f); }
    }
    forall x | x in Descendants(p, f) ensures x in Covered(p, children) {
      var n :| 0 < n && Climbs(p, x, f, n);
      LastStep(p, x, f, n);
      var c :| c in p && p[c] == Some(f) && Climbs(p, x, c, n - 1);
      assert c in Elements(children);
    }
  }

  lemma {:induction false} LastStep(p: Parents, x: Id, f: Id, n: nat)
    requires 0 < n && Climbs(p, x, f, n)
    ensures exists c :: c in p && p[c] == Some(f) && Climbs(p, x, c, n - 1)
    decreases n
  {
    if n == 1 {
      assert Climbs(p, p[x].value, f, 0) && Climbs(p, x, x, 0);
    } else {
      LastStep(p, p[x].value, f, n - 1);
      var c :| c in p && p[c] == Some(f) && Climbs(p, p[x].value, c, n - 2);
      assert Climbs(p, x, c, n - 1);
    }
  }

  /** The recursion stays within its depth exactly when it does so below every child. */
  lemma ShallowByChild(p: Parents, f: Id, children: seq<Id>, depth: nat)
    requires Elements(children) == set x | x in p && p[x] == Some(f)
    ensures Shallow(p, f, depth) <==>
            forall c :: c in children ==> depth > 0 && Shallow(p, c, depth - 1)
  {
    if Shallow(p, f, depth) {
      forall c, x, n: nat | c in children && Climbs(p, x, c, n) ensures n + 1 <= depth {
        ChildClimb(p, f, children, c, x, n);
      }
      forall c | c in children ensures depth > 0 {
        assert Climbs(p, c, c, 0);
      }
    }
    if forall c :: c in children ==> depth > 0 && Shallow(p, c, depth - 1) {
      forall x, n: nat | Climbs(p, x, f, n) ensures n <= depth {
        if n > 0 {
          LastStep(p, x, f, n);
          var c :| c in p && p[c] == Some(f) && Climbs(p, x, c, n - 1);
          assert c in Elements(children);
        }
      }
    }
  }

  lemma ChildClimb(p: Parents, f: Id, children: seq<Id>, c: Id, x: Id, n: nat)
    requires Elements(children) == set y | y in p && p[y] == Some(f)
    requires c in children && Climbs(p, x, c, n)
    ensures Climbs(p, x, f, n + 1)
  {
    assert c in Elements(children);
    assert Climbs(p, c, f, 1) by { assert Climbs(p, f, f, 0); }
    ClimbsTransitive(p, x, c, f, n, 1);
  }

  // ---- A subtree while others are being removed ----

  /** A chain either stays whole, or its start was removed with the folder where it breaks. */
  lemma {:induction false} ChainStaysOrGoes(p: Parents, gone: set<Id>, x: Id, c: Id, n: nat)
    requires Closed(p, gone) && c !in gone && Climbs(p, x, c, n)
    ensures Climbs(Minus(p, gone), x, c, n) || x in gone
    decreases n
  {
    if n > 0 && x !in gone {
      var y := p[x].value;
      ChainStaysOrGoes(p, gone, y, c, n - 1);
      if y in gone {
        ParentIsAbove(p, x);
      }
    }
  }

  /** A cycle survives the removal of folders that are on no cycle. */
  lemma {:induction false} CycleSurvives(p: Parents, gone: set<Id>, x: Id, y: Id, n: nat)
    requires OffCycles(p, gone) && Below(p, x, x) && Climbs(p, x, y, n)
    ensures Climbs(Minus(p, gone), x, y, n)
    decreases n
  {
    if n > 0 {
      ParentIsAbove(p, x);
      AtOrBelowIff(p, x, p[x].value);
      CycleAbove(p, x, p[x].value);
      CycleSurvives(p, gone, p[x].value, y, n - 1);
    }
  }

  lemma StillOnCycle(p: Parents, gone: set<Id>, x: Id)
    requires OffCycles(p, gone)
    ensures Below(Minus(p, gone), x, x) <==> Below(p, x, x)
  {
    var q := Minus(p, gone);
    if Below(p, x, x) {
      var n :| 0 < n && Climbs(p, x, x, n);
      CycleSurvives(p, gone, x, x, n);
    }
    if Below(q, x, x) {
      var n :| 0 < n && Climbs(q, x, x, n);
      SmallerTableClimbs(p, q, x, x, n);
    }
  }

  /** Removing closed sets of other folders leaves a subtree whole. */
  lemma SubtreeUntouched(p: Parents, gone: set<Id>, c: Id, x: Id, n: nat)
    requires Closed(p, gone) && gone !! {c} + Descendants(p, c)
    ensures Climbs(Minus(p, gone), x, c, n) <==> Climbs(p, x, c, n)
  {
    if Climbs(p, x, c, n) {
      ChainStaysOrGoes(p, gone, x, c, n);
      assert n > 0 ==> x in Descendants(p, c);
    }
    if Climbs(Minus(p, gone), x, c, n) {
      SmallerTableClimbs(p, Minus(p, gone), x, c, n);
    }
  }

  /** The subtrees of folders off cycles are closed and hold no cycle. */
  lemma CoveredIsClosed(p: Parents, roots: seq<Id>)
    requires forall c :: c in roots ==> !Below(p, c, c)
    ensures Closed(p, Covered(p, roots)) && OffCycles(p, Covered(p, roots))
  {
    var gone := Covered(p, roots);
    forall x, y | x in gone && y in p && Below(p, y, x) ensures y in gone {
      var c :| c in roots && AtOrBelow(p, x, c);
      AtOrBelowIff(p, x, c);
      AtOrBelowIff(p, y, c);
      if x != c { BelowTransitive(p, y, x, c); }
    }
    forall x | x in gone ensures !Below(p, x, x) {
      var c :| c in roots && AtOrBelow(p, x, c);
      if Below(p, x, x) { CycleAbove(p, x, c); }
    }
  }

  ghost predicate ChildrenAre(p: Parents, f: Id, children: seq<Id>) {
    Distinct(children) && Elements(children) == set x | x in p && p[x] == Some(f)
  }

  /** The children before the `i`-th are off cycles. */
  ghost predicate EarlierOff(p: Parents, children: seq<Id>, i: nat)
    requires i <= |children|
  {
    forall c :: c in children[..i] ==> !Below(p, c, c)
  }

  /** Removing the subtrees of earlier children keeps the next child; off cycles, its subtree is whole and separate. */
  lemma NextChildUntouched(p: Parents, f: Id, children: seq<Id>, i: nat)
    requires ChildrenAre(p, f, children) && i < |children| && EarlierOff(p, children, i)
    ensures var c, gone := children[i], Covered(p, children[..i]);
            && c in p && c !in gone && p[c] == Some(f)
            && Closed(p, gone) && OffCycles(p, gone)
            && Covered(p, children[..i + 1]) == gone + Descendants(p, c) + {c}
            && (!Below(p, c, c) ==> gone !! {c} + Descendants(p, c) && c !in Descendants(p, c))
  {
    var c, gone := children[i], Covered(p, children[..i]);
    assert c in Elements(children);
    CoveredIsClosed(p, children[..i]);
    forall x ensures AtOrBelow(p, x, c) <==> x == c || Below(p, x, c) { AtOrBelowIff(p, x, c); }
    assert children[..i + 1] == children[..i] + [c];
    forall d | d in children[..i] ensures d in Elements(children) && d != c {
      var j :| 0 <= j < i && children[j] == d;
    }
    forall d | d in children[..i] ensures !AtOrBelow(p, c, d) {
      if AtOrBelow(p, c, d) {
        var n: nat :| Climbs(p, c, d, n);
        OneAboveOther(p, f, c, d, n);
      }
    }
    if !Below(p, c, c) {
      forall x | x in p && AtOrBelow(p, x, c) ensures x !in gone {
        forall d | d in children[..i] ensures !AtOrBelow(p, x, d) {
          SiblingsDisjoint(p, f, c, d, x);
        }
      }
    }
  }

  /** How the next child's subtree looks once the earlier ones are gone. */
  lemma NextChildLooks(p: Parents, f: Id, children: seq<Id>, i: nat, depth: nat)
    requires ChildrenAre(p, f, children) && i < |children| && EarlierOff(p, children, i)
    ensures var c, q := children[i], Minus(p, Covered(p, children[..i]));
            && (Shallow(q, c, depth) <==> Shallow(p, c, depth))
            && (Shallow(p, c, depth) ==> !Below(p, c, c) && Descendants(q, c) == Descendants(p, c))
  {
    var c, gone := children[i], Covered(p, children[..i]);
    var q := Minus(p, gone);
    NextChildUntouched(p, f, children, i);
    if Below(p, c, c) {
      StillOnCycle(p, gone, c);
      CycleIsNotShallow(p, c, depth);
      CycleIsNotShallow(q, c, depth);
    } else {
      forall x, n: nat ensures Climbs(q, x, c, n) <==> Climbs(p, x, c, n) {
        SubtreeUntouched(p, gone, c, x, n);
      }
      forall x | x in Descendants(p, c) ensures x in Descendants(q, c) {
        assert x !in gone;
      }
    }
  }

  /** What was removed below earlier children and, in part, below the next one is a part of the folder's subtree. */
  lemma PartOfChild(p: Parents, f: Id, children: seq<Id>, i: nat, more: set<Id>)
    requires ChildrenAre(p, f, children) && i < |children| && EarlierOff(p, children, i)
    requires PartOf(Minus(p, Covered(p, children[..i])), children[i], more)
    ensures PartOf(p, f, Covered(p, children[..i]) + more)
  {
    var c, gone := children[i], Covered(p, children[..i]);
    var q := Minus(p, gone);
    NextChildUntouched(p, f, children, i);
    EarlierBelow(p, f, children, i);
    ParentIsAbove(p, c);
    forall x | x in more ensures x in Descendants(p, f) && !Below(p, x, x) {
      var n :| 0 < n && Climbs(q, x, c, n);
      SmallerTableClimbs(p, q, x, c, n);
      BelowTransitive(p, x, c, f);
      StillOnCycle(p, gone, x);
    }
    forall x, y | x in gone + more && y in p && Below(p, y, x) ensures y in gone + more {
      if x !in gone {
        var n :| 0 < n && Climbs(p, y, x, n);
        ChainStaysOrGoes(p, gone, y, x, n);
      }
    }
  }

  lemma EarlierBelow(p: Parents, f: Id, children: seq<Id>, i: nat)
    requires ChildrenAre(p, f, children) && i <= |children|
    ensures Covered(p, children[..i]) <= Descendants(p, f)
  {
    DescendantsByChild(p, f, children);
    assert forall c :: c in children[..i] ==> c in children;
  }

  lemma OwnedWithout(rows: Rows, userId: Id, gone: set<Id>)
    ensures OwnedBy(Without(rows, gone), userId) == Minus(OwnedBy(rows, userId), gone)
  {
  }

  lemma WithoutTwice(rows: Rows, a: set<Id>, b: set<Id>)
    ensures Without(Without(rows, a), b) == Without(rows, a + b)
  {
  }

  // ---- The table ----

  class FolderTable {
    var rows: Rows

    constructor ()
      ensures rows == map[]
    {
      rows := map[];
    }

    method InsertNewFolder(id: Id, userId: Id, name: string, parentId: Option<Id>, now: int)
      requires id !in rows
      modifies this
      ensures rows == old(rows)[id := Folder(parentId, userId, name, now)]
    {
      rows := rows[id := Folder(parentId, userId, name, now)];
    }

    /** One query: the ids of a user's folders under a parent, in no promised order. */
    method GetFoldersByParentIdAndUserId(parentId: Option<Id>, userId: Id) returns (found: seq<Id>)
      ensures Distinct(found)
      ensures Elements(found) == ChildrenOf(rows, userId, parentId)
    {
      found := [];
      var left := ChildrenOf(rows, userId, parentId);
      while left != {}
        invariant Distinct(found) && Elements(found) !! left
        invariant Elements(found) + left == ChildrenOf(rows, userId, parentId)
        decreases left
      {
        var x :| x in left;
        ElementsOfConcat(found, [x]);
        assert x !in Elements(found);
        found, left := found + [x], left - {x};
      }
    }

    /**
     * Depth first: the folders below `folder`.  `depth` is the number of nested calls that the
     * interpreter still allows; one call more raises an error that ends the whole listing.
     */
    method GetChildren(folder: Id, userId: Id, depth: nat) returns (r: Option<seq<Id>>)
      ensures r.Some? <==> Shallow(OwnedBy(rows, userId), folder, depth)
      ensures r.Some? ==> Distinct(r.value) && Elements(r.value) == Descendants(OwnedBy(rows, userId), folder)
      decreases depth
    {
      hide Shallow, OwnedBy, Descendants, Covered;
      ghost var p := OwnedBy(rows, userId);
      var children := ChildrenInSomeOrder(folder, userId);
      ShallowByChild(p, folder, children, depth);
      var folders: seq<Id> := [];
      NothingCovered(p);
      for i := 0 to |children|
        invariant forall c :: c in children[..i] ==> depth > 0 && Shallow(p, c, depth - 1)
        invariant EarlierOff(p, children, i)
        invariant Distinct(folders) && Elements(folders) == Covered(p, children[..i])
      {
        var c := children[i];
        assert c in children && children[..i + 1] == children[..i] + [c];
        if depth == 0 {
          return None;
        }
        var below := GetChildren(c, userId, depth - 1);
        if below.None? {
          return None;
        }
        NextChildUntouched(p, folder, children, i);
        NextChildLooks(p, folder, children, i, depth - 1);
        AppendSubtree(folders, below.value, c);
        folders := folders + below.value + [c];
      }
      assert children[..|children|] == children;
      DescendantsByChild(p, folder, children);
      return Some(folders);
    }

    method ChildrenInSomeOrder(folder: Id, userId: Id) returns (children: seq<Id>)
      ensures ChildrenAre(OwnedBy(rows, userId), folder, children)
    {
      children := GetFoldersByParentIdAndUserId(Some(folder), userId);
      assert ChildrenOf(rows, userId, Some(folder)) ==
             set x | x in OwnedBy(rows, userId) && OwnedBy(rows, userId)[x] == Some(folder);
    }

    /** The error of a listing that goes too deep is swallowed, and reads like a folder that is not there. */
    method GetChildrenFoldersByIdAndUserId(id: Id, userId: Id, depth: nat) returns (r: Option<seq<Id>>)
      ensures r.Some? <==> Owns(rows, userId, id) && Shallow(OwnedBy(rows, userId), id, depth)
      ensures r.Some? ==> Distinct(r.value) && Elements(r.value) == Descendants(OwnedBy(rows, userId), id)
    {
      if id !in rows || rows[id].userId != userId {
        return None;
      }
      r := GetChildren(id, userId, depth);
    }

    /**
     * Deletes what is below `folder`, row by row from the leaves, and lists the deleted ids.
     * Where the recursion goes too deep it stops, and what is deleted by then stays deleted.
     */
    method DeleteChildren(folder: Id, userId: Id, depth: nat) returns (r: Option<seq<Id>>)
      modifies this
      ensures r.Some? <==> Shallow(OwnedBy(old(rows), userId), folder, depth)
      ensures r.Some? ==> rows == Without(old(rows), Descendants(OwnedBy(old(rows), userId), folder))
      ensures r.Some? ==> Distinct(r.value) && Elements(r.value) == Descendants(OwnedBy(old(rows), userId), folder)
      ensures r.None? ==> PartlyDeleted(old(rows), rows, userId, folder)
      decreases depth
    {
      hide Shallow, OwnedBy, Descendants, Covered, PartOf, Without;
      ghost var before := rows;
      ghost var p := OwnedBy(rows, userId);
      var children := ChildrenInSomeOrder(folder, userId);
      ShallowByChild(p, folder, children, depth);
      var folderIds: seq<Id> := [];
      NothingCovered(p);
      WithoutNone(rows);
      for i := 0 to |children|
        invariant forall c :: c in children[..i] ==> depth > 0 && Shallow(p, c, depth - 1)
        invariant EarlierOff(p, children, i)
        invariant Distinct(folderIds) && Elements(folderIds) == Covered(p, children[..i])
        invariant rows == Without(before, Covered(p, children[..i]))
      {
        var c := children[i];
        ghost var gone := Covered(p, children[..i]);
        assert c in children && children[..i + 1] == children[..i] + [c];
        if depth == 0 {
          EarlierIsPart(p, folder, children, i);
          return None;
        }
        OwnedWithout(before, userId, gone);
        NextChildLooks(p, folder, children, i, depth - 1);
        var below := DeleteChildren(c, userId, depth - 1);
        if below.None? {
          ghost var more: set<Id> :| PartOf(Minus(p, gone), c, more) && rows == Without(Without(before, gone), more);
          PartOfChild(p, folder, children, i, more);
          WithoutTwice(before, gone, more);
          return None;
        }
        NextChildUntouched(p, folder, children, i);
        AppendSubtree(folderIds, below.value, c);
        folderIds := folderIds + below.value + [c];
        DeleteRow(c);
        WithoutTwice(before, gone, Descendants(p, c));
        WithoutTwice(before, gone + Descendants(p, c), {c});
      }
      assert children[..|children|] == children;
      DescendantsByChild(p, folder, children);
      return Some(folderIds);
    }

    method DeleteRow(id: Id)
      modifies this
      ensures rows == Without(old(rows), {id})
    {
      rows := map x | x in rows && x != id :: rows[x];
    }

    /** A deletion that goes too deep reports nothing deleted; the folder itself is still there. */
    method DeleteFolderByIdAndUserId(id: Id, userId: Id, depth: nat) returns (folderIds: seq<Id>)
      modifies this
      ensures !Owns(old(rows), userId, id) ==> folderIds == [] && rows == old(rows)
      ensures Owns(old(rows), userId, id) && Shallow(OwnedBy(old(rows), userId), id, depth) ==>
                && rows == Without(old(rows), Subtree(old(rows), userId, id))
                && Distinct(folderIds) && Elements(folderIds) == Subtree(old(rows), userId, id)
                && folderIds[0] == id
      ensures Owns(old(rows), userId, id) && !Shallow(OwnedBy(old(rows), userId), id, depth) ==>
                folderIds == [] && id in rows && PartlyDeleted(old(rows), rows, userId, id)
    {
      if id !in rows || rows[id].userId != userId {
        return [];
      }
      ghost var before := rows;
      ghost var p := OwnedBy(rows, userId);
      folderIds := [id];
      var below := DeleteChildren(id, userId, depth);
      if below.None? {
        PartLeavesTop(before, rows, userId, id);
        return [];
      }
      if Below(p, id, id) { CycleIsNotShallow(p, id, depth); }
      hide OwnedBy, Descendants;
      ElementsOfConcat([id], below.value);
      DistinctConcat([id], below.value);
      folderIds := folderIds + below.value;
      DeleteRow(id);
      WithoutTwice(before, Descendants(p, id), {id});
      assert Descendants(p, id) + {id} == {id} + Descendants(p, id);
    }

    method UpdateFolderParentIdByIdAndUserId(id: Id, userId: Id, parentId: Option<Id>, now: int)
      returns (found: bool)
      modifies this
      ensures found <==> Owns(old(rows), userId, id)
      ensures rows == if Owns(old(rows), userId, id) then Moved(old(rows), id, parentId, now) else old(rows)
    {
      if id !in rows || rows[id].userId != userId {
        return false;
      }
      rows := rows[id := rows[id].(parentId := parentId, updatedAt := now)];
      return true;
    }

    /** The part of the search that records one matching folder and what is below it. */
    method AddFolderAndChildren(known: seq<Id>, id: Id, userId: Id, depth: nat) returns (results: seq<Id>)
      requires Owns(rows, userId, id) && Distinct(known)
      ensures Distinct(results)
      ensures Elements(results) == Elements(known) + Listed(rows, userId, id, depth)
    {
      results := AddKey(known, id);
      var children := GetChildrenFoldersByIdAndUserId(id, userId, depth);
      if children.Some? {
        var below := children.value;
        for j := 0 to |below|
          invariant Distinct(results)
          invariant Elements(results) == Elements(known) + {id} + Elements(below[..j])
        {
          assert below[..j + 1] == below[..j] + [below[j]];
          ElementsOfConcat(below[..j], [below[j]]);
          results := AddKey(results, below[j]);
        }
        assert below[..|below|] == below;
      }
    }

    /**
     * `normalize` stands for the name folding; `all` is the query result over the user's
     * folders, in the order the database returns it.
     */
    method SearchFoldersByNames(userId: Id, queries: seq<string>, normalize: string -> string, all: seq<Id>, depth: nat)
      returns (results: seq<Id>)
      requires Distinct(all) && Elements(all) == OwnedBy(rows, userId).Keys
      ensures Distinct(results)
      ensures Elements(results) == Matching(rows, userId, queries, normalize, depth)
      ensures forall x :: x in results <==>
                exists f, q :: f in rows && rows[f].userId == userId && q in queries
                               && normalize(q) == normalize(rows[f].name) && x in Listed(rows, userId, f, depth)
    {
      results := [];
      if queries == [] {
        FoundWithoutQueries(rows, userId, normalize, all, depth);
        FoundIsMatching(rows, userId, [], normalize, all, depth);
        MatchingIff(rows, userId, queries, normalize, depth);
        return;
      }
      for i := 0 to |all|
        invariant Distinct(results) && Elements(results) == Found(rows, userId, queries, normalize, all[..i], depth)
      {
        assert all[..i + 1][..i] == all[..i];
        assert all[i] in Elements(all);
        if NameMatches(rows, queries, normalize, all[i]) {
          results := AddFolderAndChildren(results, all[i], userId, depth);
        }
      }
      assert all[..|all|] == all;
      FoundIsMatching(rows, userId, queries, normalize, all, depth);
      InElements(results);
      MatchingIff(rows, userId, queries, normalize, depth);
    }
  }

  lemma NothingCovered(p: Parents)
    ensures Covered(p, []) == {}
  {
  }

  lemma WithoutNone(rows: Rows)
    ensures Without(rows, {}) == rows
  {
  }

  lemma EarlierIsPart(p: Parents, f: Id, children: seq<Id>, i: nat)
    requires ChildrenAre(p, f, children) && i <= |children| && EarlierOff(p, children, i)
    ensures PartOf(p, f, Covered(p, children[..i]))
  {
    EarlierBelow(p, f, children, i);
    CoveredIsClosed(p, children[..i]);
  }

  /** One more subtree in a list that has none of it. */
  lemma AppendSubtree(known: seq<Id>, below: seq<Id>, c: Id)
    requires Distinct(known) && Distinct(below)
    requires Elements(known) !! {c} + Elements(below) && c !in Elements(below)
    ensures Distinct(known + below + [c])
    ensures Elements(known + below + [c]) == Elements(known) + Elements(below) + {c}
  {
    ElementsOfConcat(known, below);
    DistinctConcat(known, below);
    Append(known + below, c);
  }

  lemma PartLeavesTop(before: Rows, after: Rows, userId: Id, id: Id)
    requires id in before && PartlyDeleted(before, after, userId, id)
    ensures id in after
  {
    var p := OwnedBy(before, userId);
    var gone: set<Id> :| PartOf(p, id, gone) && after == Without(before, gone);
    assert id in gone ==> Below(p, id, id);
  }

  /** What a search lists for a matching folder: its subtree, or the folder alone when that is too deep. */
  ghost function Listed(rows: Rows, userId: Id, f: Id, depth: nat): set<Id> {
    if Shallow(OwnedBy(rows, userId), f, depth) then Subtree(rows, userId, f) else {f}
  }

  /** What the search has collected after a prefix of the folders. */
  ghost function Found(rows: Rows, userId: Id, queries: seq<string>, normalize: string -> string, seen: seq<Id>,
                       depth: nat): set<Id>
  {
    if seen == [] then {} else
      var f := seen[|seen| - 1];
      Found(rows, userId, queries, normalize, seen[..|seen| - 1], depth) +
      (if NameMatches(rows, queries, normalize, f) then Listed(rows, userId, f, depth) else {})
  }

  lemma {:induction false} FoundWithoutQueries(rows: Rows, userId: Id, normalize: string -> string, seen: seq<Id>,
                                               depth: nat)
    ensures Found(rows, userId, [], normalize, seen, depth) == {}
  {
    if seen != [] {
      FoundWithoutQueries(rows, userId, normalize, seen[..|seen| - 1], depth);
    }
  }

  lemma {:induction false} FoundElement(rows: Rows, userId: Id, queries: seq<string>, normalize: string -> string,
                                        seen: seq<Id>, depth: nat, x: Id)
    ensures x in Found(rows, userId, queries, normalize, seen, depth) <==>
            exists f :: f in seen && NameMatches(rows, queries, normalize, f) && x in Listed(rows, userId, f, depth)
  {
    if seen != [] {
      var front, last := seen[..|seen| - 1], seen[|seen| - 1];
      FoundElement(rows, userId, queries, normalize, front, depth, x);
      assert seen == front + [last];
    }
  }

  lemma FoundIsMatching(rows: Rows, userId: Id, queries: seq<string>, normalize: string -> string, all: seq<Id>,
                        depth: nat)
    requires Elements(all) == OwnedBy(rows, userId).Keys
    ensures Found(rows, userId, queries, normalize, all, depth) == Matching(rows, userId, queries, normalize, depth)
  {
    forall f ensures f in all <==> Owns(rows, userId, f) {
      assert f in all <==> f in Elements(all);
    }
    forall x
      ensures x in Found(rows, userId, queries, normalize, all, depth) <==>
              x in Matching(rows, userId, queries, normalize, depth)
    {
      FoundElement(rows, userId, queries, normalize, all, depth, x);
    }
  }

  /** Assigning a dictionary key that may already be there. */
  function AddKey(keys: seq<Id>, id: Id): (r: seq<Id>)
    ensures Elements(r) == Elements(keys) + {id}
    ensures Distinct(keys) ==> Distinct(r)
  {
    ElementsOfConcat(keys, [id]);
    assert id !in keys <==> id !in Elements(keys);
    if id in keys then keys else keys + [id]
  }

  predicate NameMatches(rows: Rows, queries: seq<string>, normalize: string -> string, f: Id) {
    f in rows && exists q :: q in queries && normalize(q) == normalize(rows[f].name)
  }

  /** The union of what is listed for the folders that have one of the names. */
  ghost function Matching(rows: Rows, userId: Id, queries: seq<string>, normalize: string -> string,
                          depth: nat): set<Id>
  {
    set x | x in rows && exists f :: Owns(rows, userId, f) && NameMatches(rows, queries, normalize, f)
                                     && x in Listed(rows, userId, f, depth)
  }

  /** What a search finds: each folder listed for a folder of the user whose folded name is a folded query. */
  lemma MatchingIff(rows: Rows, userId: Id, queries: seq<string>, normalize: string -> string, depth: nat)
    ensures forall x :: x in Matching(rows, userId, queries, normalize, depth) <==>
              exists f, q :: f in rows && rows[f].userId == userId && q in queries
                             && normalize(q) == normalize(rows[f].name) && x in Listed(rows, userId, f, depth)
  {
    hide Shallow;
    forall f, x | Owns(rows, userId, f) && x in Listed(rows, userId, f, depth) ensures x in rows { }
  }

  function Moved(rows: Rows, id: Id, parentId: Option<Id>, now: int): Rows
    requires id in rows
  {
    rows[id := rows[id].(parentId := parentId, updatedAt := now)]
  }

  /** What a move and a removal leave alone. */
  lemma MoveFrame(rows: Rows, id: Id, parentId: Option<Id>, now: int)
    requires id in rows
    ensures var after := Moved(rows, id, parentId, now);
            && after.Keys == rows.Keys && after[id].parentId == parentId && after[id].updatedAt == now
            && after[id].(parentId := rows[id].parentId, updatedAt := rows[id].updatedAt) == rows[id]
            && forall x :: x in rows && x != id ==> after[x] == rows[x]
  {
  }

  lemma RemovalFrame(rows: Rows, gone: set<Id>)
    ensures var after := Without(rows, gone);
            after.Keys == rows.Keys - gone && forall x :: x in after ==> after[x] == rows[x]
  {
  }

  // ---- Moving folders ----

  /** Moving is not checked: the tree stays a tree exactly when the target is outside the moved subtree. */
  lemma MoveKeepsTreeIff(rows: Rows, userId: Id, id: Id, parentId: Option<Id>, now: int)
    requires Acyclic(OwnedBy(rows, userId)) && Owns(rows, userId, id)
    ensures Acyclic(OwnedBy(Moved(rows, id, parentId, now), userId)) <==>
            !(parentId.Some? && parentId.value in Subtree(rows, userId, id))
  {
    var p := OwnedBy(rows, userId);
    assert OwnedBy(Moved(rows, id, parentId, now), userId) == p[id := parentId];
    MoveMakesCycle(p, id, parentId);
    if parentId.Some? && Below(p, parentId.value, id) {
      BelowStep(p, parentId.value, id);
    }
  }

  /** Two moves, each naming an existing folder of the same user, can close a cycle. */
  lemma TwoMovesMakeCycle()
    ensures var rows: Rows := map["a" := Folder(None, "u", "A", 0), "b" := Folder(None, "u", "B", 0)];
            var once := Moved(rows, "a", Some("b"), 1);
            Acyclic(OwnedBy(once, "u")) && !Acyclic(OwnedBy(Moved(once, "b", Some("a"), 2), "u"))
  {
    var rows: Rows := map["a" := Folder(None, "u", "A", 0), "b" := Folder(None, "u", "B", 0)];
    var p := OwnedBy(rows, "u");
    forall x | x in p ensures !Below(p, x, x) { BelowStep(p, x, x); }
    MoveKeepsTreeIff(rows, "u", "a", Some("b"), 1);
    BelowStep(p, "b", "a");
    var once := Moved(rows, "a", Some("b"), 1);
    MoveKeepsTreeIff(once, "u", "b", Some("a"), 2);
    ParentIsAbove(OwnedBy(once, "u"), "a");
  }

  // ---- Whole runs ----

  datatype Op =
    | Insert(id: Id, folder: Folder)
    | Move(id: Id, userId: Id, parentId: Option<Id>, now: int)
    | Delete(id: Id, userId: Id)
    | DeleteInPart(id: Id, userId: Id, gone: set<Id>)

  /** A deletion in part is one that the recursion limit has ended; `gone` is what it had removed. */
  ghost predicate Allowed(rows: Rows, op: Op) {
    match op
    case Insert(id, folder) =>
      id !in rows && (folder.parentId.Some? ==> Owns(rows, folder.userId, folder.parentId.value))
    case Move(id, userId, parentId, _) =>
      parentId.Some? ==> Owns(rows, userId, parentId.value) && parentId.value !in Subtree(rows, userId, id)
    case Delete(_, _) => true
    case DeleteInPart(id, userId, gone) => Owns(rows, userId, id) ==> PartOf(OwnedBy(rows, userId), id, gone)
  }

  ghost function Apply(rows: Rows, op: Op): Rows {
    match op
    case Insert(id, folder) => rows[id := folder]
    case Move(id, userId, parentId, now) =>
      if Owns(rows, userId, id) then Moved(rows, id, parentId, now) else rows
    case Delete(id, userId) =>
      if Owns(rows, userId, id) then Without(rows, Subtree(rows, userId, id)) else rows
    case DeleteInPart(id, userId, gone) =>
      if Owns(rows, userId, id) then Without(rows, gone) else rows
  }

  ghost predicate AllAllowed(rows: Rows, ops: seq<Op>)
    decreases |ops|
  {
    ops == [] || (Allowed(rows, ops[0]) && AllAllowed(Apply(rows, ops[0]), ops[1..]))
  }

  ghost function Run(rows: Rows, ops: seq<Op>): Rows
    decreases |ops|
  {
    if ops == [] then rows else Run(Apply(rows, ops[0]), ops[1..])
  }

  /** Every user's folders form a forest in which no parent is missing. */
  ghost predicate Sound(rows: Rows) {
    forall u :: SoundFor(rows, u)
  }

  ghost predicate SoundFor(rows: Rows, userId: Id) {
    Acyclic(OwnedBy(rows, userId)) && NoDangling(OwnedBy(rows, userId))
  }

  lemma RemovalKeepsSound(rows: Rows, userId: Id, gone: set<Id>, other: Id)
    requires Sound(rows) && Closed(OwnedBy(rows, userId), gone) && gone <= OwnedBy(rows, userId).Keys
    ensures SoundFor(Without(rows, gone), other)
  {
    var p, q := OwnedBy(rows, other), OwnedBy(Without(rows, gone), other);
    assert SoundFor(rows, other);
    SmallerTableAcyclic(p, q);
    forall x | x in q && q[x].Some? ensures q[x].value in q {
      ParentIsAbove(p, x);
    }
  }

  lemma SubtreeIsClosed(rows: Rows, userId: Id, id: Id)
    requires Owns(rows, userId, id)
    ensures Closed(OwnedBy(rows, userId), Subtree(rows, userId, id))
    ensures Subtree(rows, userId, id) <= OwnedBy(rows, userId).Keys
  {
    var p, gone := OwnedBy(rows, userId), Subtree(rows, userId, id);
    forall x, y | x in gone && y in p && Below(p, y, x) ensures y in gone {
      if x != id { BelowTransitive(p, y, x, id); }
    }
  }

  lemma InsertKeepsSound(rows: Rows, id: Id, folder: Folder, other: Id)
    requires Sound(rows) && Allowed(rows, Insert(id, folder))
    ensures SoundFor(rows[id := folder], other)
  {
    var p, q := OwnedBy(rows, other), OwnedBy(rows[id := folder], other);
    assert SoundFor(rows, other);
    if folder.userId == other {
      assert q == p[id := folder.parentId];
      AddLeafKeepsAcyclic(p, id, folder.parentId);
    } else {
      assert q == p;
    }
  }

  lemma MoveKeepsSound(rows: Rows, id: Id, userId: Id, parentId: Option<Id>, now: int, other: Id)
    requires Sound(rows) && Owns(rows, userId, id) && Allowed(rows, Move(id, userId, parentId, now))
    ensures SoundFor(Moved(rows, id, parentId, now), other)
  {
    var p, q := OwnedBy(rows, other), OwnedBy(Moved(rows, id, parentId, now), other);
    assert SoundFor(rows, other);
    if userId == other {
      MoveKeepsTreeIff(rows, userId, id, parentId, now);
      assert q == p[id := parentId];
    } else {
      assert q == p;
    }
  }

  lemma PartIsAllowed(rows: Rows, id: Id, userId: Id, gone: set<Id>)
    requires Owns(rows, userId, id) && Allowed(rows, DeleteInPart(id, userId, gone))
    ensures PartOf(OwnedBy(rows, userId), id, gone)
  {
  }

  lemma StepKeepsSound(rows: Rows, op: Op)
    requires Sound(rows) && Allowed(rows, op)
    ensures Sound(Apply(rows, op))
  {
    hide SoundFor, Allowed;
    forall u ensures SoundFor(Apply(rows, op), u) {
      assert SoundFor(rows, u);
      match op
      case Insert(id, folder) => InsertKeepsSound(rows, id, folder, u);
      case Move(id, userId, parentId, now) =>
        if Owns(rows, userId, id) {
          MoveKeepsSound(rows, id, userId, parentId, now, u);
        }
      case Delete(id, userId) =>
        if Owns(rows, userId, id) {
          SubtreeIsClosed(rows, userId, id);
          RemovalKeepsSound(rows, userId, Subtree(rows, userId, id), u);
        }
      case DeleteInPart(id, userId, gone) =>
        if Owns(rows, userId, id) {
          assert PartOf(OwnedBy(rows, userId), id, gone) by { PartIsAllowed(rows, id, userId, gone); }
          RemovalKeepsSound(rows, userId, gone, u);
        }
    }
  }

  lemma {:induction false} RunKeepsSound(rows: Rows, ops: seq<Op>)
    requires Sound(rows) && AllAllowed(rows, ops)
    ensures Sound(Run(rows, ops))
    decreases |ops|
  {
    if ops != [] {
      StepKeepsSound(rows, ops[0]);
      RunKeepsSound(Apply(rows, ops[0]), ops[1..]);
    }
  }
}
