/**
 * The list of messages from the root of a chat down to one message, found by following
 * parent links (utils/misc.py, get_message_list).
 */
module MessagePath {
  import opened Basics
  import opened Forest
  import opened ChatMessages
  import opened Chats
  import opened Healing

  /** Root first; the walk stops at a root, at a missing parent, or at a message met before. */
  function Walk(p: Parents, x: Id, visited: set<Id>): seq<Id>
    decreases p.Keys - visited
  {
    if x !in p || x in visited then []
    else (if p[x].Some? then Walk(p, p[x].value, visited + {x}) else []) + [x]
  }

  /** Every message of the list but the first is a child of the one before it; the last is `x`. */
  ghost predicate IsChain(p: Parents, path: seq<Id>, x: Id) {
    && path != [] && path[|path| - 1] == x
    && (forall i :: 0 <= i < |path| ==> path[i] in p)
    && (forall i :: 0 < i < |path| ==> p[path[i]] == Some(path[i - 1]))
  }

  lemma {:induction false} WalkIsChain(p: Parents, x: Id, visited: set<Id>)
    requires x in p && x !in visited
    ensures var path := Walk(p, x, visited);
            && IsChain(p, path, x) && Distinct(path)
            && (forall id :: id in path ==> id !in visited)
            && (p[path[0]].Some? ==> p[path[0]].value !in p || p[path[0]].value in visited || p[path[0]].value in path)
    decreases p.Keys - visited
  {
    if p[x].Some? && p[x].value in p && p[x].value !in visited + {x} {
      WalkIsChain(p, p[x].value, visited + {x});
    }
  }

  /** In a forest without missing parents the list runs from a root to the message. */
  lemma WalkReachesRoot(p: Parents, x: Id)
    requires Acyclic(p) && NoDangling(p) && x in p
    ensures var path := Walk(p, x, {});
            IsChain(p, path, x) && Distinct(path) && p[path[0]] == None
  {
    WalkIsChain(p, x, {});
    var path := Walk(p, x, {});
    if p[path[0]].Some? {
      var i :| 0 <= i < |path| && path[i] == p[path[0]].value;
      ChainClimbs(p, path, x, i);
      ParentIsAbove(p, path[0]);
      AtOrBelowIff(p, path[i], path[0]);
      if path[i] != path[0] {
        BelowTransitive(p, path[i], path[0], path[i]);
      }
    }
  }

  lemma {:induction false} ChainClimbs(p: Parents, path: seq<Id>, x: Id, i: nat)
    requires IsChain(p, path, x) && i < |path|
    ensures AtOrBelow(p, path[i], path[0])
    decreases i
  {
    if i == 0 {
      assert Climbs(p, path[0], path[0], 0);
    } else {
      ChainClimbs(p, path, x, i - 1);
      var n: nat :| Climbs(p, path[i - 1], path[0], n);
      assert Climbs(p, path[i], path[0], n + 1);
    }
  }

  function Reverse<T>(s: seq<T>): (r: seq<T>)
    ensures |r| == |s|
    ensures forall i :: 0 <= i < |s| ==> r[i] == s[|s| - 1 - i]
  {
    if s == [] then [] else Reverse(s[1..]) + [s[0]]
  }

  lemma ReverseAppend<T>(s: seq<T>, x: T)
    ensures Reverse(s + [x]) == [x] + Reverse(s)
  {
  }

  /** The part of the list still to come once the loop stands at `x`. */
  function WalkFrom(p: Parents, x: Option<Id>, visited: set<Id>): seq<Id> {
    if x.Some? then Walk(p, x.value, visited) else []
  }

  lemma WalkStep(p: Parents, x: Id, visited: set<Id>, below: seq<Id>)
    requires x in p && x !in visited
    ensures Walk(p, x, visited) + Reverse(below) == WalkFrom(p, p[x], visited + {x}) + Reverse(below + [x])
  {
    ReverseAppend(below, x);
  }

  lemma WalkEnds(p: Parents, x: Option<Id>, visited: set<Id>)
    requires x.Some? && x.value in p ==> x.value in visited
    ensures WalkFrom(p, x, visited) == []
  {
  }

  /** The `id` fields tell messages apart. */
  ghost predicate Identified(msgs: map<Id, Msg>) {
    && (forall k :: k in msgs ==> Get(msgs[k], IdKey) != Null)
    && (forall j, k :: j in msgs && k in msgs && Get(msgs[j], IdKey) == Get(msgs[k], IdKey) ==> j == k)
  }

  /**
   * The loop follows parent links upwards, remembers the `id` fields it has met, and turns the
   * list round at the end.
   */
  method GetMessageList(msgs: map<Id, Msg>, messageId: Id) returns (list: seq<Msg>)
    requires Identified(msgs)
    ensures var path := Walk(MessageParents(msgs), messageId, {});
            && |list| == |path|
            && forall i :: 0 <= i < |list| ==> path[i] in msgs && list[i] == msgs[path[i]]
  {
    hide ParentRef, Get, Walk;
    ghost var p := MessageParents(msgs);
    ghost var ids: seq<Id> := [];
    ghost var met: set<Id> := {};
    var up: seq<Msg> := [];
    var visited: set<Json> := {};
    var current := Some(messageId);
    while current.Some? && current.value in msgs && Get(msgs[current.value], IdKey) !in visited
      invariant Walk(p, messageId, {}) == WalkFrom(p, current, met) + Reverse(ids)
      invariant |up| == |ids| && forall i :: 0 <= i < |ids| ==> ids[i] in msgs && up[i] == msgs[ids[i]]
      invariant met <= msgs.Keys && visited == set k | k in met :: Get(msgs[k], IdKey)
      decreases msgs.Keys - met
    {
      var id := current.value;
      WalkStep(p, id, met, ids);
      met := met + {id};
      visited := visited + {Get(msgs[id], IdKey)};
      up := up + [msgs[id]];
      ids := ids + [id];
      current := ParentRef(msgs[id]);
    }
    WalkEnds(p, current, met);
    list := Reverse(up);
  }

  // ---- Healed rows give the same lists as the full history ----

  lemma {:induction false} WalkInPart(p: Parents, q: Parents, x: Id, visited: set<Id>)
    requires forall y :: y in q ==> y in p && q[y] == p[y]
    requires forall y :: y in q && p[y].Some? && p[y].value in p ==> p[y].value in q
    requires x in q || x !in p
    ensures Walk(q, x, visited) == Walk(p, x, visited)
    decreases p.Keys - visited
  {
    if x in q && x !in visited && q[x].Some? {
      WalkInPart(p, q, q[x].value, visited + {x});
    }
  }

  /** Once healing has settled, the list of every row is the one of rows and legacy history together. */
  lemma HealedPathIsComplete(rows: Parents, legacy: Parents, x: Id)
    requires x in rows
    ensures Walk(Closure(rows, legacy), x, {}) == Walk(legacy + rows, x, {})
  {
    var all, q := legacy + rows, Closure(rows, legacy);
    forall y | y in q && all[y].Some? && all[y].value in all ensures all[y].value in q {
      ParentIsAbove(all, y);
      if y !in rows {
        var r :| r in rows && Below(all, r, y);
        BelowTransitive(all, r, y, all[y].value);
      }
    }
    WalkInPart(all, q, x, {});
  }

  /** After enough lookups the list of every message with a row is drawn from rows and legacy history together. */
  lemma HealedListIsComplete(s: Store, c: Id, now: int, n: nat, x: Id)
    requires Keyed(s) && c in s.chats && x in RowIds(s.rows, c)
    requires |LegacyParents(s.chats[c].history.messages).Keys - RowIds(s.rows, c)| <= n
    ensures Walk(RowParents(HealedTimes(s, c, now, n).rows, c), x, {}) ==
            Walk(LegacyParents(s.chats[c].history.messages) + RowParents(s.rows, c), x, {})
  {
    hide Closure, Walk, HealedRows;
    RowParentsKeys(s.rows, c);
    SelfHealing(s, c, now, n);
    HealedPathIsComplete(RowParents(s.rows, c), LegacyParents(s.chats[c].history.messages), x);
  }
}
