/**
 * Repeated lookups of a chat whose rows lack ancestors (models/chats.py,
 * get_messages_map_by_chat_id): each call takes over one generation of missing parents from
 * the embedded history, and the calls settle on exactly the rows' ancestors.
 */
module Healing {
  import opened Basics
  import opened Forest
  import opened ChatMessages
  import opened Chats

  // ---- Healing seen as growth of a table of parent links ----

  /** One lookup: all of the legacy messages when there are no rows, else one generation of missing parents. */
  function HealStep(rows: Parents, legacy: Parents): Parents {
    if rows == map[] then legacy
    else rows + map x | x in UnresolvedRefs(rows) && x in legacy :: legacy[x]
  }

  function Iterate<T>(f: T -> T, x: T, n: nat): T {
    if n == 0 then x else f(Iterate(f, x, n - 1))
  }

  lemma {:induction false} IterateKeeps<T(!new)>(f: T -> T, x: T, n: nat, keeps: (T, nat) -> bool)
    requires keeps(x, 0)
    requires forall y, k: nat :: keeps(y, k) ==> keeps(f(y), k + 1)
    ensures keeps(Iterate(f, x, n), n)
    decreases n
  {
    if n > 0 {
      IterateKeeps(f, x, n - 1, keeps);
    }
  }

  function Healer(legacy: Parents): Parents -> Parents {
    rows => HealStep(rows, legacy)
  }

  function HealTimes(rows: Parents, legacy: Parents, n: nat): Parents {
    Iterate(Healer(legacy), rows, n)
  }

  /** No missing parent is to be found in the legacy history. */
  ghost predicate Settled(rows: Parents, legacy: Parents) {
    forall x :: x in rows && rows[x].Some? && rows[x].value !in rows ==> rows[x].value !in legacy
  }

  /** The rows and those legacy messages that are ancestors of a row. */
  ghost function Closure(rows: Parents, legacy: Parents): Parents {
    map x | x in legacy + rows && (x in rows || exists r :: r in rows && Below(legacy + rows, r, x)) ::
      (legacy + rows)[x]
  }

  lemma UnresolvedIff(p: Parents, x: Id)
    ensures x in UnresolvedRefs(p) <==> x !in p && exists y :: y in p && p[y] == Some(x)
  {
  }

  /** A lookup of a settled table writes nothing; any other lookup adds a row and changes none. */
  lemma HealStepProgress(rows: Parents, legacy: Parents)
    requires rows != map[]
    ensures var next := HealStep(rows, legacy);
            && (Settled(rows, legacy) <==> next == rows)
            && (forall x :: x in rows ==> x in next && next[x] == rows[x])
            && (!Settled(rows, legacy) ==> |legacy.Keys - next.Keys| < |legacy.Keys - rows.Keys|)
  {
    var next := HealStep(rows, legacy);
    if Settled(rows, legacy) {
      assert next.Keys == rows.Keys;
      SameMap(next, rows);
    } else {
      var y :| y in rows && rows[y].Some? && rows[y].value !in rows && rows[y].value in legacy;
      var x := rows[y].value;
      UnresolvedIff(rows, x);
      assert x in next && x !in rows;
      var rest := legacy.Keys - next.Keys;
      assert rest + {x} <= legacy.Keys - rows.Keys;
      SubsetSize(rest + {x}, legacy.Keys - rows.Keys);
    }
  }

  /** What every intermediate table keeps: it lies between the rows and their closure. */
  ghost predicate Between(rows: Parents, legacy: Parents, now: Parents) {
    && rows.Keys <= now.Keys <= Closure(rows, legacy).Keys
    && forall x :: x in now ==> now[x] == (legacy + rows)[x]
  }

  lemma HealStepStaysBetween(rows: Parents, legacy: Parents, now: Parents)
    requires rows != map[] && Between(rows, legacy, now)
    ensures Between(rows, legacy, HealStep(now, legacy))
  {
    var all := legacy + rows;
    var r0 :| r0 in rows;
    assert r0 in now;
    forall x | x in UnresolvedRefs(now) && x in legacy
      ensures x in Closure(rows, legacy) && legacy[x] == all[x]
    {
      UnresolvedIff(now, x);
      var y :| y in now && now[y] == Some(x);
      ParentIsAbove(all, y);
      if y !in rows {
        var r :| r in rows && Below(all, r, y);
        BelowTransitive(all, r, y, x);
      }
    }
  }

  lemma SettledIsClosure(rows: Parents, legacy: Parents, now: Parents)
    requires Between(rows, legacy, now) && Settled(now, legacy)
    ensures now == Closure(rows, legacy)
  {
    var all := legacy + rows;
    forall x | x in Closure(rows, legacy) ensures x in now {
      if x !in rows {
        var r :| r in rows && Below(all, r, x);
        var n :| 0 < n && Climbs(all, r, x, n);
        ClimbStaysInside(rows, legacy, now, r, x, n);
      }
    }
  }

  lemma {:induction false} ClimbStaysInside(rows: Parents, legacy: Parents, now: Parents, y: Id, x: Id, n: nat)
    requires Between(rows, legacy, now) && Settled(now, legacy)
    requires y in now && x in legacy && Climbs(legacy + rows, y, x, n)
    ensures x in now
    decreases n
  {
    if n > 0 {
      var all := legacy + rows;
      var z := all[y].value;
      assert now[y] == Some(z);
      if z in now {
        ClimbStaysInside(rows, legacy, now, z, x, n - 1);
      } else {
        UnresolvedIff(now, z);
      }
    }
  }

  /** The bound that every lookup keeps: settled, or one more legacy message has got its row. */
  ghost predicate Bounded(rows: Parents, legacy: Parents, now: Parents, n: nat) {
    Settled(now, legacy) || |legacy.Keys - now.Keys| + n <= |legacy.Keys - rows.Keys|
  }

  lemma HealStepKeepsBound(rows: Parents, legacy: Parents, now: Parents, n: nat)
    requires rows != map[] && Between(rows, legacy, now) && Bounded(rows, legacy, now, n)
    ensures Bounded(rows, legacy, HealStep(now, legacy), n + 1)
  {
    var r :| r in rows;
    assert r in now.Keys;
    HealStepProgress(now, legacy);
  }

  lemma StartsBetween(rows: Parents, legacy: Parents)
    ensures Between(rows, legacy, rows) && Bounded(rows, legacy, rows, 0)
  {
  }

  ghost predicate Progressing(rows: Parents, legacy: Parents, now: Parents, n: nat) {
    Between(rows, legacy, now) && Bounded(rows, legacy, now, n)
  }

  lemma HealStepProgresses(rows: Parents, legacy: Parents, now: Parents, n: nat)
    requires rows != map[] && Progressing(rows, legacy, now, n)
    ensures Progressing(rows, legacy, Healer(legacy)(now), n + 1)
  {
    HealStepStaysBetween(rows, legacy, now);
    HealStepKeepsBound(rows, legacy, now, n);
  }

  ghost function Progress(rows: Parents, legacy: Parents): (Parents, nat) -> bool {
    (now: Parents, n: nat) => Progressing(rows, legacy, now, n)
  }

  lemma HealTimesProgresses(rows: Parents, legacy: Parents, n: nat)
    requires rows != map[]
    ensures Progressing(rows, legacy, HealTimes(rows, legacy, n), n)
  {
    var keeps := Progress(rows, legacy);
    StartsBetween(rows, legacy);
    forall now, k: nat | keeps(now, k) ensures keeps(Healer(legacy)(now), k + 1) {
      HealStepProgresses(rows, legacy, now, k);
    }
    IterateKeeps(Healer(legacy), rows, n, keeps);
  }

  lemma BoundReached(rows: Parents, legacy: Parents, now: Parents, n: nat)
    requires Bounded(rows, legacy, now, n) && |legacy.Keys - rows.Keys| <= n
    ensures Settled(now, legacy)
  {
    if |legacy.Keys - now.Keys| == 0 {
      forall x | x in legacy ensures x in now {
        assert x !in legacy.Keys - now.Keys;
      }
    }
  }

  /**
   * After at most as many lookups as legacy messages lack a row, the table is settled and
   * holds exactly the rows and their legacy ancestors.
   */
  lemma HealingConverges(rows: Parents, legacy: Parents, n: nat)
    requires rows != map[] && |legacy.Keys - rows.Keys| <= n
    ensures HealTimes(rows, legacy, n) == Closure(rows, legacy)
    ensures Settled(Closure(rows, legacy), legacy)
  {
    var now := HealTimes(rows, legacy, n);
    HealTimesProgresses(rows, legacy, n);
    BoundReached(rows, legacy, now, n);
    SettledIsClosure(rows, legacy, now);
  }

  /** Without rows one lookup writes the whole legacy history, and that is settled. */
  lemma EmptyTableHealsAtOnce(legacy: Parents)
    ensures HealStep(map[], legacy) == legacy && Settled(legacy, legacy)
  {
  }

  /** A gap of two generations outlives one lookup. */
  lemma OneLookupIsNotEnough()
    ensures var legacy: Parents := map["a" := None, "b" := Some("a"), "c" := Some("b")];
            var rows: Parents := map["c" := Some("b")];
            !Settled(HealStep(rows, legacy), legacy)
  {
    var legacy: Parents := map["a" := None, "b" := Some("a"), "c" := Some("b")];
    var rows: Parents := map["c" := Some("b")];
    UnresolvedIff(rows, "b");
    UnresolvedIff(rows, "a");
    assert rows["c"] == Some("b") && "a" != "b" && "a" != "c";
    var next := HealStep(rows, legacy);
    assert next["b"] == Some("a") && "a" !in next;
  }

  /**
   * One lookup is enough exactly when the parents of the messages it takes over are there, or
   * taken over too, or lost.
   */
  lemma OneLookupIsEnoughIff(rows: Parents, legacy: Parents)
    requires rows != map[]
    ensures Settled(HealStep(rows, legacy), legacy) <==>
            forall x :: x in UnresolvedRefs(rows) && x in legacy && legacy[x].Some? && legacy[x].value in legacy ==>
                          legacy[x].value in rows || legacy[x].value in UnresolvedRefs(rows)
  {
    var next := HealStep(rows, legacy);
    forall x | x in rows && rows[x].Some? && rows[x].value !in next ensures rows[x].value !in legacy {
      UnresolvedIff(rows, rows[x].value);
    }
    forall x | x in UnresolvedRefs(rows) && x in legacy ensures x in next && next[x] == legacy[x] {
      UnresolvedIff(rows, x);
    }
  }

  // ---- The lookups of the chat table do exactly this ----

  /** The legacy messages that can be written: those with a role and fields that fit the columns. */
  function LegacyParents(msgs: map<Id, Msg>): Parents {
    map id | id in Storables(msgs) :: Ref(EffectiveParent(msgs[id]))
  }

  /** A lookup leaves other chats and existing rows alone and adds the rows of one healing step. */
  lemma LookupIsHealStep(s: Store, c: Id, now: int)
    requires Keyed(s) && c in s.chats
    ensures var rows := HealedRows(s, c, now);
            && RowParents(rows, c) == HealStep(RowParents(s.rows, c), LegacyParents(s.chats[c].history.messages))
            && (forall key :: key in s.rows ==> key in rows && rows[key] == s.rows[key])
            && (forall key :: key in rows && key !in s.rows ==> rows[key].chatId == c)
            && Keyed(s.(rows := rows))
  {
    var missing := Missing(s.rows, c, s.chats[c].history.messages);
    BackfillFrame(s, c, s.chats[c].userId, missing, now);
    HealedParents(s, c, now);
    hide Backfilled, Missing, LegacyParents, HealStep, RowParents, WellKeyed, Accepted;
    forall key | key in s.rows ensures key in HealedRows(s, c, now) && HealedRows(s, c, now)[key] == s.rows[key] {
      ExistingRowStays(s, c, now, key);
    }
  }

  lemma ExistingRowStays(s: Store, c: Id, now: int, key: string)
    requires Keyed(s) && c in s.chats && key in s.rows
    ensures key in HealedRows(s, c, now) && HealedRows(s, c, now)[key] == s.rows[key]
  {
    var chat := s.chats[c];
    var missing := Missing(s.rows, c, chat.history.messages);
    MissingAreNew(s, c);
    BackfilledAt(s.rows, c, chat.userId, missing, now, key);
    WrittenAreThere(s.rows, c, chat.userId, missing, now);
  }

  /** What is taken over has no row yet, so exactly the storable messages of it are written. */
  lemma MissingAreNew(s: Store, c: Id)
    requires Keyed(s) && c in s.chats
    ensures var missing := Missing(s.rows, c, s.chats[c].history.messages);
            && (forall m :: m in missing ==> m !in RowIds(s.rows, c) && CompositeId(c, m) !in s.rows)
            && forall userId, now :: Written(s.rows, c, userId, missing, now) == Storables(missing)
  {
    var p := RowParents(s.rows, c);
    var missing := Missing(s.rows, c, s.chats[c].history.messages);
    RowParentsKeys(s.rows, c);
    forall m | m in UnresolvedRefs(p) ensures m !in p { UnresolvedIff(p, m); }
    hide CompositeId, RowIds, Written, Storables, RowParents, UnresolvedRefs;
    forall m | m in missing ensures CompositeId(c, m) !in s.rows {
      if CompositeId(c, m) in s.rows {
        KeyBelongsToChat(s, c, m);
        RowIdHasRow(s.rows, c, m);
      }
    }
    forall userId, now ensures Written(s.rows, c, userId, missing, now) == Storables(missing) {
      WrittenNew(s.rows, c, userId, missing, now);
    }
  }

  lemma RowParentsKeys(rows: Rows, c: Id)
    requires WellKeyed(rows)
    ensures RowParents(rows, c).Keys == RowIds(rows, c)
  {
    forall id | id in RowIds(rows, c) ensures CompositeId(c, id) in rows { RowIdHasRow(rows, c, id); }
  }

  /** The messages that a lookup writes. */
  lemma WrittenByLookup(s: Store, c: Id)
    requires Keyed(s) && c in s.chats
    ensures var before, legacy := RowParents(s.rows, c), LegacyParents(s.chats[c].history.messages);
            Storables(Missing(s.rows, c, s.chats[c].history.messages)) ==
            if before == map[] then legacy.Keys else UnresolvedRefs(before) * legacy.Keys
  {
    var before := RowParents(s.rows, c);
    RowParentsKeys(s.rows, c);
    assert before == map[] <==> before.Keys == {};
  }

  /** The messages that have a row after a lookup. */
  ghost function HealedIds(s: Store, c: Id): set<Id>
    requires c in s.chats
  {
    RowIds(s.rows, c) + Storables(Missing(s.rows, c, s.chats[c].history.messages))
  }

  lemma HealedRowKeys(s: Store, c: Id, now: int)
    requires Keyed(s) && c in s.chats
    ensures RowParents(HealedRows(s, c, now), c).Keys == HealedIds(s, c)
  {
    var chat := s.chats[c];
    var missing := Missing(s.rows, c, chat.history.messages);
    BackfillFrame(s, c, chat.userId, missing, now);
    BackfillRowIds(s, c, chat.userId, missing, now);
    MissingAreNew(s, c);
    RowParentsKeys(HealedRows(s, c, now), c);
  }

  lemma HealStepKeys(s: Store, c: Id)
    requires Keyed(s) && c in s.chats
    ensures HealStep(RowParents(s.rows, c), LegacyParents(s.chats[c].history.messages)).Keys == HealedIds(s, c)
  {
    hide Storables, Missing, UnresolvedRefs, LegacyParents, RowParents;
    RowParentsKeys(s.rows, c);
    WrittenByLookup(s, c);
    assert RowParents(s.rows, c) == map[] ==> RowParents(s.rows, c).Keys == {};
  }

  lemma HealedParents(s: Store, c: Id, now: int)
    requires Keyed(s) && c in s.chats
    ensures RowParents(HealedRows(s, c, now), c) ==
            HealStep(RowParents(s.rows, c), LegacyParents(s.chats[c].history.messages))
  {
    var after := RowParents(HealedRows(s, c, now), c);
    var step := HealStep(RowParents(s.rows, c), LegacyParents(s.chats[c].history.messages));
    HealedRowKeys(s, c, now);
    HealStepKeys(s, c);
    forall id | id in after ensures after[id] == step[id] {
      HealedParentOf(s, c, now, id);
    }
    SameMap(after, step);
  }

  lemma HealedParentOf(s: Store, c: Id, now: int, id: Id)
    requires Keyed(s) && c in s.chats
    requires id in HealedIds(s, c)
    ensures var rows := HealedRows(s, c, now);
            var step := HealStep(RowParents(s.rows, c), LegacyParents(s.chats[c].history.messages));
            && CompositeId(c, id) in rows && id in step
            && Ref(rows[CompositeId(c, id)].parentId) == step[id]
  {
    hide CompositeId, Backfilled, RowIds;
    var chat := s.chats[c];
    var missing := Missing(s.rows, c, chat.history.messages);
    BackfillRow(s.rows, c, chat.userId, missing, now, id);
    RowIdHasRow(s.rows, c, id);
    RowParentsKeys(s.rows, c);
    MissingAreNew(s, c);
    WrittenByLookup(s, c);
    assert RowParents(s.rows, c) == map[] ==> RowParents(s.rows, c).Keys == {};
    if CompositeId(c, id) in s.rows {
      KeyBelongsToChat(s, c, id);
    }
  }

  function HealedTimes(s: Store, c: Id, now: int, n: nat): Store
    decreases n
  {
    if n == 0 then s else
      var before := HealedTimes(s, c, now, n - 1);
      before.(rows := HealedRows(before, c, now))
  }

  lemma {:induction false} LookupsAreHealTimes(s: Store, c: Id, now: int, n: nat)
    returns (rows: Rows, parents: Parents)
    requires Keyed(s) && c in s.chats
    ensures HealedTimes(s, c, now, n) == s.(rows := rows) && Keyed(s.(rows := rows))
    ensures parents == RowParents(rows, c)
    ensures parents == HealTimes(RowParents(s.rows, c), LegacyParents(s.chats[c].history.messages), n)
    decreases n
  {
    if n == 0 {
      rows, parents := s.rows, RowParents(s.rows, c);
    } else {
      var before, p := LookupsAreHealTimes(s, c, now, n - 1);
      LookupIsHealStep(s.(rows := before), c, now);
      rows := HealedRows(s.(rows := before), c, now);
      parents := HealStep(p, LegacyParents(s.chats[c].history.messages));
    }
  }

  /**
   * Self-healing of a chat with rows: enough lookups give every row all its legacy ancestors
   * that can be stored, nothing else, and further lookups write nothing.
   */
  lemma SelfHealing(s: Store, c: Id, now: int, n: nat)
    requires Keyed(s) && c in s.chats && RowIds(s.rows, c) != {}
    requires var legacy := LegacyParents(s.chats[c].history.messages);
             |legacy.Keys - RowIds(s.rows, c)| <= n
    ensures var legacy := LegacyParents(s.chats[c].history.messages);
            var t := HealedTimes(s, c, now, n);
            && RowParents(t.rows, c) == Closure(RowParents(s.rows, c), legacy)
            && HealedRows(t, c, now) == t.rows
  {
    var legacy := LegacyParents(s.chats[c].history.messages);
    var t := HealedTimes(s, c, now, n);
    RowParentsKeys(s.rows, c);
    var rows, parents := LookupsAreHealTimes(s, c, now, n);
    HealingConverges(RowParents(s.rows, c), legacy, n);
    assert RowIds(t.rows, c) != {} by {
      RowParentsKeys(t.rows, c);
      var r :| r in RowIds(s.rows, c);
      assert r in Closure(RowParents(s.rows, c), legacy);
    }
    SettledWritesNothing(t, c, now);
  }

  /** On a settled chat a lookup changes no row at all. */
  lemma SettledWritesNothing(s: Store, c: Id, now: int)
    requires Keyed(s) && c in s.chats && RowIds(s.rows, c) != {}
    requires Settled(RowParents(s.rows, c), LegacyParents(s.chats[c].history.messages))
    ensures HealedRows(s, c, now) == s.rows
  {
    var msgs := s.chats[c].history.messages;
    var missing := Missing(s.rows, c, msgs);
    assert RowParents(s.rows, c) != map[] by { RowParentsKeys(s.rows, c); }
    forall m | m in missing ensures !Storable(missing[m]) {
      assert Storable(msgs[m]) ==> m in LegacyParents(msgs).Keys;
    }
    MissingAreNew(s, c);
    assert Storables(missing) == {};
    hide Missing, Written, Storable, RowParents, LegacyParents, CompositeId, RowIds, Keyed;
    NothingWritten(s.rows, c, s.chats[c].userId, missing, now);
  }

  lemma NothingWritten(rows: Rows, c: Id, userId: Id, msgs: map<Id, Msg>, now: int)
    requires Written(rows, c, userId, msgs, now) == {}
    ensures Backfilled(rows, c, userId, msgs, now) == rows
  {
    hide Written, RowAfter;
    assert WrittenKeys(rows, c, userId, msgs, now) == {};
    SameMap(Backfilled(rows, c, userId, msgs, now), rows);
  }

  /** Where dual writing has kept the representations in agreement, a lookup repairs nothing. */
  lemma InSyncNeedsNoHealing(s: Store, c: Id, now: int)
    requires InSync(s) && c in s.chats
    ensures HealedRows(s, c, now) == s.rows
  {
    hide FieldsAgree, CompositeId;
    assert ChatInSync(s, c);
    var chat := s.chats[c];
    if RowIds(s.rows, c) == {} {
      assert chat.history.messages == map[] by { assert chat.history.messages.Keys == {}; }
      NothingToBackfill(s.rows, c, chat.userId, now);
    } else {
      RowParentsKeys(s.rows, c);
      SettledWritesNothing(s, c, now);
    }
  }
}
