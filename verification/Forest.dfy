/**
 * Trees stored as parent pointers.  A table maps each stored id to its parent, which may
 * be absent, or may name an id that is not stored (a dangling parent).
 */
module Forest {
  import opened Basics

  type Id = string

  type Parents = map<Id, Option<Id>>

  /** Following `n` parent pointers from `x` leads to `a`; every id left behind is stored. */
  ghost predicate Climbs(p: Parents, x: Id, a: Id, n: nat)
    decreases n
  {
    if n == 0 then x == a
    else x in p && p[x].Some? && Climbs(p, p[x].value, a, n - 1)
  }

  /** `a` is a proper ancestor of `x`. */
  ghost predicate Below(p: Parents, x: Id, a: Id) {
    exists n: nat :: 0 < n && Climbs(p, x, a, n)
  }

  ghost predicate AtOrBelow(p: Parents, x: Id, a: Id) {
    exists n: nat :: Climbs(p, x, a, n)
  }

  /** No stored id is its own ancestor. */
  ghost predicate Acyclic(p: Parents) {
    forall x :: x in p ==> !Below(p, x, x)
  }

  ghost predicate NoDangling(p: Parents) {
    forall x :: x in p && p[x].Some? ==> p[x].value in p
  }

  /** The stored proper descendants of `a`. */
  ghost function Descendants(p: Parents, a: Id): set<Id> {
    set x | x in p && Below(p, x, a)
  }

  lemma {:induction false} ClimbsTransitive(p: Parents, x: Id, y: Id, z: Id, n: nat, m: nat)
    requires Climbs(p, x, y, n) && Climbs(p, y, z, m)
    ensures Climbs(p, x, z, n + m)
    decreases n
  {
    if n > 0 {
      ClimbsTransitive(p, p[x].value, y, z, n - 1, m);
    }
  }

  /** Parent chains do not branch: a longer climb passes through the end of a shorter one. */
  lemma {:induction false} ClimbsSplit(p: Parents, x: Id, y: Id, z: Id, n: nat, m: nat)
    requires Climbs(p, x, y, n) && Climbs(p, x, z, m) && n <= m
    ensures Climbs(p, y, z, m - n)
    decreases n
  {
    if n > 0 {
      ClimbsSplit(p, p[x].value, y, z, n - 1, m - 1);
    }
  }

  lemma BelowTransitive(p: Parents, x: Id, y: Id, z: Id)
    requires Below(p, x, y) && Below(p, y, z)
    ensures Below(p, x, z)
  {
    var n :| 0 < n && Climbs(p, x, y, n);
    var m :| 0 < m && Climbs(p, y, z, m);
    ClimbsTransitive(p, x, y, z, n, m);
  }

  lemma ParentIsAbove(p: Parents, x: Id)
    requires x in p && p[x].Some?
    ensures Below(p, x, p[x].value)
  {
    assert Climbs(p, x, p[x].value, 1) by {
      assert Climbs(p, p[x].value, p[x].value, 0);
    }
  }

  /** An ancestor of `x` is its parent or an ancestor of its parent. */
  lemma BelowStep(p: Parents, x: Id, a: Id)
    ensures Below(p, x, a) <==> x in p && p[x].Some? && (p[x].value == a || Below(p, p[x].value, a))
  {
    if Below(p, x, a) {
      var n :| 0 < n && Climbs(p, x, a, n);
      assert Climbs(p, p[x].value, a, n - 1);
    }
    if x in p && p[x].Some? && (p[x].value == a || Below(p, p[x].value, a)) {
      var y := p[x].value;
      ParentIsAbove(p, x);
      if y != a {
        BelowTransitive(p, x, y, a);
      }
    }
  }

  lemma AtOrBelowIff(p: Parents, x: Id, a: Id)
    ensures AtOrBelow(p, x, a) <==> x == a || Below(p, x, a)
  {
    if x == a {
      assert Climbs(p, x, a, 0);
    }
  }

  lemma SubsetSize<T>(a: set<T>, b: set<T>)
    requires a <= b
    ensures |a| <= |b|
  {
    assert b == a + (b - a);
  }

  /** What can be climbed in part of a table can be climbed in the whole. */
  lemma {:induction false} SmallerTableClimbs(p: Parents, q: Parents, x: Id, a: Id, n: nat)
    requires forall y :: y in q ==> y in p && q[y] == p[y]
    requires Climbs(q, x, a, n)
    ensures Climbs(p, x, a, n)
    decreases n
  {
    if n > 0 {
      SmallerTableClimbs(p, q, p[x].value, a, n - 1);
    }
  }

  lemma SmallerTableAcyclic(p: Parents, q: Parents)
    requires forall y :: y in q ==> y in p && q[y] == p[y]
    requires Acyclic(p)
    ensures Acyclic(q)
  {
    forall x, n: nat | x in q && 0 < n ensures !Climbs(q, x, x, n) {
      assert x in p;
      if Climbs(q, x, x, n) {
        SmallerTableClimbs(p, q, x, x, n);
      }
    }
  }

  /** An id that nothing refers to cannot be reached by climbing. */
  lemma {:induction false} NoOnePointsTo(p: Parents, x: Id, a: Id, n: nat)
    requires forall y :: y in p ==> p[y] != Some(a)
    requires 0 < n
    ensures !Climbs(p, x, a, n)
    decreases n
  {
    if x in p && p[x].Some? && n > 1 {
      NoOnePointsTo(p, p[x].value, a, n - 1);
    }
  }

  lemma {:induction false} ClimbsIgnoresLeaf(p: Parents, leaf: Id, par: Option<Id>, x: Id, a: Id, n: nat)
    requires leaf !in p && x != leaf
    requires forall y :: y in p ==> p[y] != Some(leaf)
    ensures Climbs(p[leaf := par], x, a, n) <==> Climbs(p, x, a, n)
    decreases n
  {
    if n > 0 && x in p && p[x].Some? {
      ClimbsIgnoresLeaf(p, leaf, par, p[x].value, a, n - 1);
    }
  }

  /** Hanging a new id, which nothing refers to yet, under any other id keeps the table acyclic. */
  lemma AddLeafKeepsAcyclic(p: Parents, leaf: Id, par: Option<Id>)
    requires Acyclic(p) && leaf !in p && par != Some(leaf)
    requires forall y :: y in p ==> p[y] != Some(leaf)
    ensures Acyclic(p[leaf := par])
  {
    var q := p[leaf := par];
    forall x, n: nat | x in q && 0 < n ensures !Climbs(q, x, x, n) {
      if x == leaf {
        NoOnePointsTo(q, x, leaf, n);
      } else if Climbs(q, x, x, n) {
        ClimbsIgnoresLeaf(p, leaf, par, x, x, n);
      }
    }
  }

  /** Moving `x` under `par` makes a cycle exactly when `par` is `x` or lies below `x`. */
  lemma MoveMakesCycle(p: Parents, x: Id, par: Option<Id>)
    requires Acyclic(p) && x in p
    ensures Acyclic(p[x := par]) <==> !(par.Some? && (par.value == x || Below(p, par.value, x)))
  {
    var q := p[x := par];
    if par.Some? && par.value == x {
      ParentIsAbove(q, x);
    } else if par.Some? && Below(p, par.value, x) {
      ShortestClimb(p, par, x);
      BelowStep(q, x, x);
      assert Below(q, x, x);
    } else {
      forall y, n: nat | y in q && 0 < n ensures !Climbs(q, y, y, n) {
        if Climbs(q, y, y, n) {
          if !Climbs(p, y, y, n) {
            CycleMeets(p, x, par, y, y, n);
            CycleThrough(p, x, par, y, n);
          }
        }
      }
    }
  }

  /** The same for an id that may be new: giving `x` a parent makes a cycle exactly when that is `x` or below `x`. */
  lemma ParentMakesCycle(p: Parents, x: Id, par: Option<Id>)
    requires Acyclic(p)
    ensures Acyclic(p[x := par]) <==> !(par.Some? && (par.value == x || Below(p, par.value, x)))
  {
    if x in p {
      MoveMakesCycle(p, x, par);
    } else {
      var alone := p[x := None];
      assert alone[x := par] == p[x := par];
      forall y, n: nat | y in alone && 0 < n ensures !Climbs(alone, y, y, n) {
        if Climbs(alone, y, y, n) {
          RootEndsClimb(p, x, y, y, n);
        }
      }
      MoveMakesCycle(alone, x, par);
      if par.Some? {
        forall n: nat ensures Climbs(alone, par.value, x, n) <==> Climbs(p, par.value, x, n) {
          if Climbs(alone, par.value, x, n) { RootEndsClimb(p, x, par.value, x, n); }
          if Climbs(p, par.value, x, n) { SmallerTableClimbs(alone, p, par.value, x, n); }
        }
      }
    }
  }

  /** A climb in a table with a new root is one in the table without it. */
  lemma {:induction false} RootEndsClimb(p: Parents, root: Id, x: Id, a: Id, n: nat)
    requires root !in p && Climbs(p[root := None], x, a, n)
    ensures Climbs(p, x, a, n)
    decreases n
  {
    if n > 0 {
      RootEndsClimb(p, root, p[x].value, a, n - 1);
    }
  }

  lemma ShortestClimb(p: Parents, par: Option<Id>, x: Id)
    requires par.Some? && Below(p, par.value, x) && x in p && par.value != x
    ensures Below(p[x := par], par.value, x)
  {
    var n :| 0 < n && Climbs(p, par.value, x, n);
    FirstHit(p, par, par.value, x, n);
    var q := p[x := par];
    var m: nat :| Climbs(q, par.value, x, m);
    assert m > 0;
  }

  /** Changing what `x` points to does not affect how `x` is first reached. */
  lemma {:induction false} FirstHit(p: Parents, par: Option<Id>, y: Id, x: Id, n: nat)
    requires Climbs(p, y, x, n) && x in p
    ensures AtOrBelow(p[x := par], y, x)
    decreases n
  {
    var q := p[x := par];
    if y == x {
      assert Climbs(q, y, x, 0);
    } else {
      FirstHit(p, par, p[y].value, x, n - 1);
      var m: nat :| Climbs(q, p[y].value, x, m);
      assert Climbs(q, y, x, m + 1);
    }
  }

  /** A climb that is new after moving `x` passes through `x`. */
  lemma {:induction false} CycleMeets(p: Parents, x: Id, par: Option<Id>, y: Id, z: Id, n: nat)
    requires x in p && Climbs(p[x := par], y, z, n) && !Climbs(p, y, z, n)
    ensures exists m: nat :: m < n && Climbs(p, y, x, m) && Climbs(p[x := par], x, z, n - m)
    decreases n
  {
    var q := p[x := par];
    if y == x {
      assert Climbs(p, y, x, 0);
    } else {
      CycleMeets(p, x, par, p[y].value, z, n - 1);
      var m: nat :| m < n - 1 && Climbs(p, p[y].value, x, m) && Climbs(q, x, z, n - 1 - m);
      assert Climbs(p, y, x, m + 1) && Climbs(q, x, z, n - (m + 1));
    }
  }

  /** A cycle through the moved id shows that its new parent was already below it. */
  lemma CycleThrough(p: Parents, x: Id, par: Option<Id>, y: Id, n: nat)
    requires Acyclic(p) && x in p && 0 < n
    requires Climbs(p[x := par], y, y, n)
    requires exists m: nat :: m < n && Climbs(p, y, x, m) && Climbs(p[x := par], x, y, n - m)
    ensures par.Some? && (par.value == x || Below(p, par.value, x))
  {
    var q := p[x := par];
    var m: nat :| m < n && Climbs(p, y, x, m) && Climbs(q, x, y, n - m);
    assert par.Some? && Climbs(q, par.value, y, n - m - 1);
    if Climbs(p, par.value, y, n - m - 1) {
      ClimbsTransitive(p, par.value, y, x, n - m - 1, m);
    } else {
      CycleMeets(p, x, par, par.value, y, n - m - 1);
      var k: nat :| k < n - m - 1 && Climbs(p, par.value, x, k) && Climbs(q, x, y, n - m - 1 - k);
      assert k > 0 || par.value == x;
    }
  }
}
