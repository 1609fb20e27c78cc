/**
 * What the messages say after the operations on chats: which fields an upsert, a lookup, a new
 * chat and a turn leave in the embedded history and in the rows.
 */
module ChatContent {
  import opened Basics
  import opened Forest
  import opened ChatMessages
  import opened Chats
  import opened Healing
  import opened ChatEndpoint
  import opened ChatForest

  // ---- Upserts ----

  /** The fields of the upserted message win, its other fields stay, and nothing else in any chat changes. */
  lemma UpsertedFields(s: Store, c: Id, id: Id, message: Msg, now: int)
    requires c in s.chats
    ensures var t := UpsertedToChat(s, c, id, message, now);
            var before, after := s.chats[c].history.messages, t.chats[c].history.messages;
            && after.Keys == before.Keys + {id}
            && (forall k :: k in message ==> k in after[id] && after[id][k] == message[k])
            && (forall k :: k !in message ==>
                  && (k in after[id] <==> id in before && k in before[id])
                  && (k in after[id] ==> after[id][k] == before[id][k]))
            && (forall m :: m in before && m != id ==> after[m] == before[m])
            && t.chats.Keys == s.chats.Keys && (forall d :: d in s.chats && d != c ==> t.chats[d] == s.chats[d])
            && t.chats[c].userId == s.chats[c].userId && t.chats[c].history.currentId == Str(id)
  {
  }

  /** A new row belongs to the chat and its owner, says what the message says, and has the message's time. */
  lemma NewRowShows(c: Id, userId: Id, m: Msg, now: int)
    ensures var row := NewRow(c, userId, m, now);
            && row.chatId == c && row.userId == userId && row.updatedAt == now
            && (if Timestamp in m then row.createdAt == m[Timestamp] else row.createdAt == Num(now))
            && (if Role in m then FieldsAgree(m, row)
                else row.role == Str("user") && FieldsAgree(m[Role := row.role], row))
  {
    assert Role !in m ==> m[Role := Str("user")].Keys == m.Keys + {Role};
  }

  /**
   * An existing row takes over the values that the data have under its columns' own keys and keeps
   * the others, its chat, its owner and its time; a parent is taken over under its snake-case key only.
   */
  lemma ExistingRowShows(row: Row, data: Msg, now: int)
    ensures var after := UpdatedRow(row, data, now);
            && after.chatId == row.chatId && after.userId == row.userId
            && after.createdAt == row.createdAt && after.updatedAt == now
            && (forall k :: k in {Role, Content, Output, Files, Sources, Embeds, Done, Error} ==>
                  Column(after, k) == if k in data then data[k] else Column(row, k))
            && (ParentIdSnake !in data ==> after.parentId == row.parentId)
            && (ModelIdSnake !in data ==> after.modelId == if Model in data then data[Model] else row.modelId)
            && (StatusHistorySnake !in data ==>
                  after.statusHistory == if StatusHistory in data then data[StatusHistory] else row.statusHistory)
  {
  }

  /** A written message without a row so far gets a row that says the same. */
  lemma WrittenRowShows(rows: Rows, c: Id, userId: Id, msgs: map<Id, Msg>, now: int, m: Id)
    requires m in msgs && Storable(msgs[m]) && CompositeId(c, m) !in rows
    ensures var after := Backfilled(rows, c, userId, msgs, now);
            && CompositeId(c, m) in after && FieldsAgree(msgs[m], after[CompositeId(c, m)])
            && after[CompositeId(c, m)].chatId == c && after[CompositeId(c, m)].userId == userId
  {
    NewRowAccepted(c, userId, msgs[m], now);
    NewRowShows(c, userId, msgs[m], now);
    assert m in Written(rows, c, userId, msgs, now);
    BackfillRow(rows, c, userId, msgs, now, m);
  }

  // ---- Lookups ----

  /**
   * A lookup of a chat with rows answers the rebuilt messages and every unresolved parent that
   * the embedded history has, each as it stands there.
   */
  lemma LookupAnswers(s: Store, c: Id, rebuilt: map<Id, Msg>, answer: map<Id, Msg>)
    requires Keyed(s) && c in s.chats && RowIds(s.rows, c) != {}
    requires Completes(answer, rebuilt, s, c)
    ensures var msgs, gaps := s.chats[c].history.messages, UnresolvedRefs(RowParents(s.rows, c));
            && answer.Keys == RowIds(s.rows, c) + gaps * msgs.Keys
            && (forall m :: m in RowIds(s.rows, c) ==> m in rebuilt && answer[m] == rebuilt[m])
            && (forall m :: m in gaps && m in msgs ==> answer[m] == msgs[m])
  {
    MissingAreNew(s, c);
    MissingIs(s, c);
    RebuiltKeys(s, c, rebuilt);
    hide Missing, RowParents, UnresolvedRefs, RowIds, RebuiltFrom, Keyed, CompositeId, Written, Storables;
  }

  /** Each of those parents that is storable gets a row that says all it says. */
  lemma LookupPersists(s: Store, c: Id, now: int, m: Id)
    requires Keyed(s) && c in s.chats && RowIds(s.rows, c) != {}
    requires m in UnresolvedRefs(RowParents(s.rows, c)) && m in s.chats[c].history.messages
    requires Storable(s.chats[c].history.messages[m])
    ensures var row := CompositeId(c, m);
            && row in HealedRows(s, c, now) && row !in s.rows
            && FieldsAgree(s.chats[c].history.messages[m], HealedRows(s, c, now)[row])
  {
    MissingAreNew(s, c);
    MissingIs(s, c);
    hide Missing, RowParents, UnresolvedRefs, RowIds, Keyed, CompositeId, Written, Storables, Storable, FieldsAgree;
    WrittenRowShows(s.rows, c, s.chats[c].userId, Missing(s.rows, c, s.chats[c].history.messages), now, m);
  }

  lemma MissingIs(s: Store, c: Id)
    requires c in s.chats && RowIds(s.rows, c) != {}
    ensures var msgs := s.chats[c].history.messages;
            var missing := Missing(s.rows, c, msgs);
            && missing.Keys == UnresolvedRefs(RowParents(s.rows, c)) * msgs.Keys
            && forall m :: m in missing ==> missing[m] == msgs[m]
  {
    hide RowParents, UnresolvedRefs, RowIds;
  }

  lemma RebuiltKeys(s: Store, c: Id, rebuilt: map<Id, Msg>)
    requires RebuiltFrom(rebuilt, s.rows, c)
    ensures rebuilt.Keys == RowIds(s.rows, c)
  {
  }

  /** The lookup of a chat without rows persists each storable message of the embedded history with all it says. */
  lemma FirstLookupPersists(s: Store, c: Id, now: int, m: Id)
    requires Keyed(s) && c in s.chats && RowIds(s.rows, c) == {}
    requires m in s.chats[c].history.messages && Storable(s.chats[c].history.messages[m])
    ensures CompositeId(c, m) in HealedRows(s, c, now)
    ensures FieldsAgree(s.chats[c].history.messages[m], HealedRows(s, c, now)[CompositeId(c, m)])
  {
    MissingAreNew(s, c);
    WrittenRowShows(s.rows, c, s.chats[c].userId, s.chats[c].history.messages, now, m);
  }

  /** In agreement, a message that uses the usual keys is shown with the fields it has itself. */
  lemma RebuiltShowsPlain(s: Store, c: Id, rebuilt: map<Id, Msg>, id: Id)
    requires InSync(s) && c in s.chats && RebuiltFrom(rebuilt, s.rows, c) && id in s.chats[c].history.messages
    ensures var m := s.chats[c].history.messages[id];
            && id in rebuilt && Get(rebuilt[id], IdKey) == Str(id)
            && (ParentIdSnake !in m ==> Get(rebuilt[id], ParentId) == Get(m, ParentId))
            && (ModelIdSnake !in m ==> Get(rebuilt[id], Model) == Get(m, Model))
            && (StatusHistorySnake !in m ==> Get(rebuilt[id], StatusHistory) == Get(m, StatusHistory))
            && (forall k :: k in {Role, Output, Files, Sources, Embeds, Error} ==> Get(rebuilt[id], k) == Get(m, k))
            && (Content in m && m[Content] != Null ==> Get(rebuilt[id], Content) == m[Content])
            && (Done in m ==> Get(rebuilt[id], Done) == m[Done])
  {
    RebuiltAgrees(s, c, rebuilt);
    RebuiltRow(rebuilt, s.rows, c, id);
    RowMsgFields(id, s.rows[CompositeId(c, id)]);
    assert ShowsFields(rebuilt[id], s.chats[c].history.messages[id]);
    hide RowMsg, Keyed, ChatInSync, RebuiltFrom, CompositeId;
  }

  // ---- New chats ----

  /** Some message at or before position `i` is refused. */
  ghost predicate RefusedBy(msgs: map<Id, Msg>, order: seq<Id>, i: nat)
    requires i < |order| && forall m :: m in order ==> m in msgs
  {
    exists j :: 0 <= j <= i && HasRole(msgs[order[j]]) && !TypedFields(msgs[order[j]])
  }

  /** The insertion goes through the messages in order up to the first refused one. */
  lemma {:induction false} BeforeRefusalIff(rows: Rows, c: Id, userId: Id, msgs: map<Id, Msg>, order: seq<Id>, now: int,
                                            i: nat)
    requires Distinct(order) && (forall m :: m in order ==> m in msgs) && i < |order|
    requires forall m :: CompositeId(c, m) !in rows
    ensures order[i] in BeforeRefusal(rows, c, userId, msgs, order, now) <==> !RefusedBy(msgs, order, i)
    decreases |order|
  {
    hide CompositeId, HasRole, TypedFields, Accepted, NewRow, RefusedBy;
    var m, rest := order[0], order[1..];
    assert m in order && forall x :: x in rest ==> x in order;
    DistinctTail(order);
    if HasRole(msgs[m]) { NewRowAccepted(c, userId, msgs[m], now); }
    RefusedByStep(msgs, order, i);
    if i > 0 {
      assert rest[i - 1] == order[i] && order[i] in rest && order[i] != m;
      if !Refused(rows, c, userId, m, msgs[m], now) {
        BeforeRefusalIff(rows, c, userId, msgs, rest, now, i - 1);
      }
    }
  }

  lemma RefusedByStep(msgs: map<Id, Msg>, order: seq<Id>, i: nat)
    requires i < |order| && forall m :: m in order ==> m in msgs
    ensures forall m :: m in order[1..] ==> m in msgs
    ensures RefusedBy(msgs, order, i) <==>
            || (HasRole(msgs[order[0]]) && !TypedFields(msgs[order[0]]))
            || (i > 0 && RefusedBy(msgs, order[1..], i - 1))
  {
    hide HasRole, TypedFields;
    var rest := order[1..];
    assert forall m :: m in rest ==> m in order;
    assert forall j :: 0 <= j < |rest| ==> rest[j] == order[j + 1];
    if RefusedBy(msgs, order, i) {
      var j :| 0 <= j <= i && HasRole(msgs[order[j]]) && !TypedFields(msgs[order[j]]);
      assert j > 0 ==> rest[j - 1] == order[j];
    }
    if i > 0 && RefusedBy(msgs, rest, i - 1) {
      var j :| 0 <= j <= i - 1 && HasRole(msgs[rest[j]]) && !TypedFields(msgs[rest[j]]);
      assert order[j + 1] == rest[j];
    }
  }

  /**
   * Inserting a chat stores the given history under the given user and changes no other chat; a
   * message gets a row exactly when it is storable and none before it is refused, and the row
   * says what the message says.
   */
  lemma NewChatStored(s: Store, c: Id, userId: Id, history: History, order: seq<Id>, now: int, i: nat)
    requires Keyed(s) && c !in s.chats && |c| == UUID_LENGTH && IsOrderOf(order, history.messages) && i < |order|
    ensures forall m :: m in order ==> m in history.messages
    ensures var t, m := WithNewChat(s, c, userId, history, order, now), order[i];
            && c in t.chats && t.chats[c].history == history && t.chats[c].userId == userId
            && t.chats.Keys == s.chats.Keys + {c} && (forall d :: d in s.chats ==> t.chats[d] == s.chats[d])
            && (CompositeId(c, m) in t.rows <==>
                Storable(history.messages[m]) && !RefusedBy(history.messages, order, i))
            && (CompositeId(c, m) in t.rows ==>
                  && FieldsAgree(history.messages[m], t.rows[CompositeId(c, m)])
                  && t.rows[CompositeId(c, m)].userId == userId)
  {
    var msgs, m := history.messages, order[i];
    InElements(order);
    NewChatHasNoRows(s, c);
    var before := BeforeRefusal(s.rows, c, userId, msgs, order, now);
    var part := Only(msgs, before);
    BeforeRefusalIff(s.rows, c, userId, msgs, order, now, i);
    WrittenNew(s.rows, c, userId, part, now);
    BackfillRow(s.rows, c, userId, part, now, m);
    hide CompositeId, FieldsAgree, BeforeRefusal, HasRole, TypedFields, RowAfter, Backfilled, Written;
    if m in part && Storable(part[m]) {
      WrittenRowShows(s.rows, c, userId, part, now, m);
    }
  }

  // ---- Turns ----

  /** The two messages differ at most in their lists of children. */
  ghost predicate SameButChildren(a: Msg, b: Msg) {
    forall k :: k != ChildrenIds ==> (k in a <==> k in b) && (k in a ==> a[k] == b[k])
  }

  /** The answer of a slot: an unfinished, empty message of the assistant under the user message. */
  ghost predicate IsAnswer(m: Msg, slot: Slot, id: Id, userMessageId: Json, time: int) {
    && Get(m, IdKey) == Str(id) && Get(m, Role) == Str("assistant") && Get(m, Model) == Str(slot.model)
    && Get(m, Content) == Str("") && Get(m, Done) == Bool(false) && Get(m, ParentId) == userMessageId
    && Get(m, ChildrenIds) == List([]) && Get(m, Timestamp) == Num(time)
  }

  lemma PlaceholderIsAnswer(slot: Slot, id: Id, userMessageId: Json, time: int)
    ensures IsAnswer(Placeholder(slot.model, id, userMessageId, time), slot, id, userMessageId, time)
  {
  }

  /** Each slot with an id is among the answer ids, and with distinct ids no other slot has its id. */
  lemma {:induction false} SlotIsAnswer(slots: seq<Slot>, i: nat)
    requires i < |slots| && AnswerId(slots[i]).Some?
    ensures AnswerId(slots[i]).value in AnswerIds(slots)
  {
    var front := slots[..|slots| - 1];
    if i < |front| {
      SlotIsAnswer(front, i);
    }
  }

  /** Compared with `msgs`, exactly the answers of the slots are new. */
  ghost predicate AnswersAdded(msgs: map<Id, Msg>, final: map<Id, Msg>, slots: seq<Slot>, userMessageId: Json,
                               time: int) {
    && (forall m :: m in msgs ==> m in final && final[m] == msgs[m])
    && (forall m :: m in final ==> m in msgs || m in AnswerIds(slots))
    && (forall i :: 0 <= i < |slots| && AnswerId(slots[i]).Some? ==>
          var a := AnswerId(slots[i]).value; a in final && IsAnswer(final[a], slots[i], a, userMessageId, time))
  }

  lemma OneAnswerAdded(msgs: map<Id, Msg>, before: map<Id, Msg>, slots: seq<Slot>, userMessageId: Json, time: int)
    requires slots != [] && Distinct(AnswerIds(slots)) && forall a :: a in AnswerIds(slots) ==> a !in msgs
    requires AnswersAdded(msgs, before, slots[..|slots| - 1], userMessageId, time)
    ensures var last := slots[|slots| - 1];
            if AnswerId(last).Some? then
              var a := AnswerId(last).value;
              var message := Placeholder(last.model, a, userMessageId, time);
              a !in before && AnswersAdded(msgs, before[a := message], slots, userMessageId, time)
            else AnswersAdded(msgs, before, slots, userMessageId, time)
  {
    hide AnswerId, AnswerIds, Placeholder, IsAnswer, Distinct, AnswersAdded;
    var k := |slots| - 1;
    var front, last := slots[..k], slots[k];
    FrontIds(slots);
    NothingElse(msgs, before, front, userMessageId, time);
    var after := if AnswerId(last).Some?
                 then before[AnswerId(last).value := Placeholder(last.model, AnswerId(last).value, userMessageId, time)]
                 else before;
    forall i | 0 <= i < |slots| && AnswerId(slots[i]).Some?
      ensures var a := AnswerId(slots[i]).value; a in after && IsAnswer(after[a], slots[i], a, userMessageId, time)
    {
      if i < k {
        assert front[i] == slots[i];
        SlotIsAnswer(front, i);
        SlotIsThere(msgs, before, front, userMessageId, time, i);
      } else {
        PlaceholderIsAnswer(last, AnswerId(last).value, userMessageId, time);
      }
    }
    AreAdded(msgs, after, slots, userMessageId, time);
  }

  lemma NothingElse(msgs: map<Id, Msg>, final: map<Id, Msg>, slots: seq<Slot>, userMessageId: Json, time: int)
    requires AnswersAdded(msgs, final, slots, userMessageId, time)
    ensures forall m :: m in msgs ==> m in final && final[m] == msgs[m]
    ensures forall m :: m in final ==> m in msgs || m in AnswerIds(slots)
  {
  }

  lemma SlotIsThere(msgs: map<Id, Msg>, final: map<Id, Msg>, slots: seq<Slot>, userMessageId: Json, time: int, i: nat)
    requires AnswersAdded(msgs, final, slots, userMessageId, time) && i < |slots| && AnswerId(slots[i]).Some?
    ensures var a := AnswerId(slots[i]).value; a in final && IsAnswer(final[a], slots[i], a, userMessageId, time)
  {
    hide IsAnswer, AnswerId, AnswerIds;
  }

  lemma AreAdded(msgs: map<Id, Msg>, final: map<Id, Msg>, slots: seq<Slot>, userMessageId: Json, time: int)
    requires forall m :: m in msgs ==> m in final && final[m] == msgs[m]
    requires forall m :: m in final ==> m in msgs || m in AnswerIds(slots)
    requires forall i :: 0 <= i < |slots| && AnswerId(slots[i]).Some? ==>
               var a := AnswerId(slots[i]).value; a in final && IsAnswer(final[a], slots[i], a, userMessageId, time)
    ensures AnswersAdded(msgs, final, slots, userMessageId, time)
  {
    hide IsAnswer, AnswerId, AnswerIds;
  }

  /** Saving the placeholders stores exactly the answers of the slots. */
  lemma {:induction false} PlaceholdersSaved(msgs: map<Id, Msg>, slots: seq<Slot>, userMessageId: Json, time: int)
    requires Distinct(AnswerIds(slots)) && forall a :: a in AnswerIds(slots) ==> a !in msgs
    ensures AnswersAdded(msgs, MergeAll(msgs, SavePlaceholders(slots, userMessageId, time)), slots, userMessageId, time)
    decreases |slots|
  {
    if slots != [] {
      var frontSlots, last := slots[..|slots| - 1], slots[|slots| - 1];
      var writes := SavePlaceholders(slots, userMessageId, time);
      var front := SavePlaceholders(frontSlots, userMessageId, time);
      LastPlaceholder(slots, userMessageId, time);
      FrontIds(slots);
      LastMerge(msgs, writes);
      hide MergeAll, SavePlaceholders, AnswerIds, Distinct, AnswersAdded, Placeholder;
      PlaceholdersSaved(msgs, frontSlots, userMessageId, time);
      OneAnswerAdded(msgs, MergeAll(msgs, front), slots, userMessageId, time);
      if AnswerId(last).Some? {
        var message := Placeholder(last.model, AnswerId(last).value, userMessageId, time);
        assert map[] + message == message;
      }
    }
  }

  lemma LastMerge(msgs: map<Id, Msg>, writes: seq<Write>)
    ensures writes != [] ==>
              var last := writes[|writes| - 1];
              MergeAll(msgs, writes) == Merged(MergeAll(msgs, writes[..|writes| - 1]), last.id, last.message)
  {
  }

  lemma FrontIds(slots: seq<Slot>)
    requires slots != [] && Distinct(AnswerIds(slots))
    ensures var front, last := AnswerIds(slots[..|slots| - 1]), AnswerId(slots[|slots| - 1]);
            && Distinct(front) && (forall a :: a in front ==> a in AnswerIds(slots))
            && (last.Some? ==> last.value in AnswerIds(slots) && last.value !in front)
  {
    var front, last := AnswerIds(slots[..|slots| - 1]), AnswerId(slots[|slots| - 1]);
    if last.Some? {
      assert AnswerIds(slots) == front + [last.value];
      DistinctFront(AnswerIds(slots));
    }
  }

  /** Writing a list of children changes no other field of any message. */
  lemma ChildrenOnly(msgs: map<Id, Msg>, id: Id, kids: Json)
    requires id in msgs
    ensures var next := MergeAll(msgs, [Write(id, map[ChildrenIds := kids])]);
            next.Keys == msgs.Keys && forall m :: m in msgs ==> SameButChildren(next[m], msgs[m])
  {
    var message: Msg := map[ChildrenIds := kids];
    assert [Write(id, message)][..0] == [] && MergeAll(msgs, []) == msgs;
    assert MergeAll(msgs, [Write(id, message)]) == Merged(msgs, id, message);
  }

  lemma GrandparentOnly(msgs: map<Id, Msg>, user: Msg)
    ensures var next := MergeAll(msgs, LinkGrandparent(msgs, user));
            next.Keys == msgs.Keys && forall m :: m in msgs ==> SameButChildren(next[m], msgs[m])
  {
    var u, g := UserId(user), ParentRef(user);
    if u.Some? && g.Some? && g.value in msgs {
      ChildrenOnly(msgs, g.value, List(ChildIds(msgs[g.value]) + [Str(u.value)]));
    }
  }

  lemma AnswersOnly(msgs: map<Id, Msg>, user: Msg, answers: seq<Id>)
    ensures var next := MergeAll(msgs, LinkAnswers(msgs, user, answers));
            next.Keys == msgs.Keys && forall m :: m in msgs ==> SameButChildren(next[m], msgs[m])
  {
    var u := UserId(user);
    if u.Some? && u.value in msgs {
      ChildrenOnly(msgs, u.value, List(AppendMissing(ChildIds(msgs[u.value]), answers)));
    }
  }

  /** The message says what the request says, and keeps what it said besides. */
  ghost predicate SaysRequest(m: Msg, stored: Msg, user: Msg) {
    forall k :: k != ChildrenIds ==>
      if k in user then k in m && m[k] == user[k]
      else (k in m <==> k in stored) && (k in m ==> m[k] == stored[k])
  }

  /** The messages before the placeholders are saved. */
  lemma FirstWrites(msgs: map<Id, Msg>, user: Msg, answers: seq<Id>)
    ensures var m2 := MergeAll(msgs, UserWrites(msgs, user));
            var m3 := MergeAll(m2, LinkAnswers(m2, user, answers));
            && m3.Keys == msgs.Keys + (if UserId(user).Some? then {UserId(user).value} else {})
            && (forall m :: m in msgs && UserId(user) != Some(m) ==> SameButChildren(m3[m], msgs[m]))
            && (UserId(user).Some? ==>
                  SaysRequest(m3[UserId(user).value], MessageOrEmpty(msgs, UserId(user).value), user))
  {
    var saved := SaveUser(user);
    var m1 := MergeAll(msgs, saved);
    var link := LinkGrandparent(m1, user);
    if UserId(user).Some? {
      var w := Write(UserId(user).value, user);
      assert saved == [w] && [w][..0] == [] && MergeAll(msgs, []) == msgs;
      assert m1 == Merged(msgs, w.id, user);
    }
    GrandparentOnly(m1, user);
    MergeAllConcat(msgs, saved, link);
    var m2 := MergeAll(m1, link);
    AnswersOnly(m2, user, answers);
  }

  /**
   * After a turn every answer is an empty, unfinished message of the assistant under the user
   * message, with the model of its slot; the user message says what the request says; and every
   * other message keeps all it said.
   */
  lemma TurnContent(msgs: map<Id, Msg>, user: Msg, slots: seq<Slot>, time: int)
    requires var answers := AnswerIds(slots);
             && Distinct(answers) && (forall a :: a in answers ==> a !in msgs && UserId(user) != Some(a))
    ensures var final := MergeAll(msgs, TurnWrites(msgs, user, slots, time));
            && (forall i :: 0 <= i < |slots| && slots[i].answerId.Some? && slots[i].answerId.value != "" ==>
                  var a := slots[i].answerId.value;
                  a in final && IsAnswer(final[a], slots[i], a, Get(user, IdKey), time))
            && (UserId(user).Some? ==>
                  var u := UserId(user).value;
                  u in final && SaysRequest(final[u], MessageOrEmpty(msgs, u), user))
            && (forall m :: m in msgs && UserId(user) != Some(m) ==> m in final && SameButChildren(final[m], msgs[m]))
  {
    hide SameButChildren, SaysRequest, IsAnswer, UserWrites, LinkAnswers;
    var answers, uid, first := AnswerIds(slots), Get(user, IdKey), UserWrites(msgs, user);
    var m2 := MergeAll(msgs, first);
    var links, placeholders := LinkAnswers(m2, user, answers), SavePlaceholders(slots, uid, time);
    var m3 := MergeAll(m2, links);
    FirstWrites(msgs, user, answers);
    PlaceholdersSaved(m3, slots, uid, time);
    MergeAllConcat(m2, links, placeholders);
    MergeAllConcat(msgs, first, links + placeholders);
  }

  /** New children come after the ones listed already, in the order of the answers; listed ones stay in place. */
  lemma {:induction false} AppendedInOrder(childIds: seq<Json>, ids: seq<Id>)
    ensures childIds <= AppendMissing(childIds, ids)
    ensures Distinct(ids) && (forall id :: id in ids ==> Str(id) !in childIds) ==>
              AppendMissing(childIds, ids) == childIds + Strs(ids)
  {
    if ids != [] {
      var front, last := ids[..|ids| - 1], ids[|ids| - 1];
      AppendedInOrder(childIds, front);
      if Distinct(ids) && forall id :: id in ids ==> Str(id) !in childIds {
        DistinctFront(ids);
        assert forall id :: id in front ==> id in ids;
        assert Strs(ids) == Strs(front) + [Str(last)];
        assert childIds + Strs(ids) == (childIds + Strs(front)) + [Str(last)];
        assert forall i :: 0 <= i < |front| ==> Strs(front)[i] == Str(front[i]) && front[i] in front;
        assert Str(last) !in Strs(front);
      }
    }
  }

  // ---- New chats of the endpoint ----

  lemma {:induction false} PlaceholdersAssigned(start: map<Id, Msg>, slots: seq<Slot>, userMessageId: Json, time: int)
    requires Distinct(AnswerIds(slots)) && forall a :: a in AnswerIds(slots) ==> a !in start
    ensures var final := Assigned(start, SavePlaceholders(slots, userMessageId, time));
            AnswersAdded(start, final, slots, userMessageId, time)
    decreases |slots|
  {
    if slots != [] {
      var frontSlots := slots[..|slots| - 1];
      LastPlaceholder(slots, userMessageId, time);
      FrontIds(slots);
      hide Placeholder, AnswersAdded, AnswerIds, Distinct;
      PlaceholdersAssigned(start, frontSlots, userMessageId, time);
      var before := Assigned(start, SavePlaceholders(frontSlots, userMessageId, time));
      OneAnswerAdded(start, before, slots, userMessageId, time);
    }
  }

  /**
   * In a new chat every answer is an empty, unfinished message of the assistant under the user
   * message, with the model of its slot, and the user message says what the request says.
   */
  lemma NewChatContent(user: Msg, slots: seq<Slot>, time: int)
    requires var answers := AnswerIds(slots);
             Distinct(answers) && forall a :: a in answers ==> UserId(user) != Some(a)
    ensures var final := NewChatHistory(user, slots, time).messages;
            && (forall i :: 0 <= i < |slots| && slots[i].answerId.Some? && slots[i].answerId.value != "" ==>
                  var a := slots[i].answerId.value;
                  a in final && IsAnswer(final[a], slots[i], a, Get(user, IdKey), time))
            && (UserId(user).Some? ==>
                  var u := UserId(user).value; u in final && SaysRequest(final[u], map[], user))
  {
    StartSays(user, slots);
    hide IsAnswer, StartMessages, SavePlaceholders, AnswersAdded, SaysRequest, AnswerIds;
    var start, uid := StartMessages(user, slots), Get(user, IdKey);
    var final := NewChatMessages(user, slots, time);
    PlaceholdersAssigned(start, slots, uid, time);
    NothingElse(start, final, slots, uid, time);
    forall i | 0 <= i < |slots| && slots[i].answerId.Some? && slots[i].answerId.value != ""
      ensures var a := slots[i].answerId.value; a in final && IsAnswer(final[a], slots[i], a, uid, time)
    {
      SlotIsThere(start, final, slots, uid, time, i);
    }
  }

  lemma StartSays(user: Msg, slots: seq<Slot>)
    ensures var start := StartMessages(user, slots);
            && start.Keys == (if UserId(user).Some? then {UserId(user).value} else {})
            && (UserId(user).Some? ==> SaysRequest(start[UserId(user).value], map[], user))
  {
  }

  /** The current message of a new chat is the answer of the first slot that has an id, or else the user message. */
  lemma NewChatCurrent(user: Msg, slots: seq<Slot>, time: int, i: nat)
    requires i <= |slots| && forall j :: 0 <= j < i ==> slots[j].answerId == None || slots[j].answerId == Some("")
    requires i < |slots| ==> slots[i].answerId.Some? && slots[i].answerId.value != ""
    ensures NewChatHistory(user, slots, time).currentId ==
            if i < |slots| then Str(slots[i].answerId.value) else Get(user, IdKey)
  {
    FirstAnswer(slots, i);
  }

  lemma {:induction false} FirstAnswer(slots: seq<Slot>, i: nat)
    requires i <= |slots| && forall j :: 0 <= j < i ==> AnswerId(slots[j]).None?
    requires i < |slots| ==> AnswerId(slots[i]).Some?
    ensures if i < |slots| then AnswerIds(slots) != [] && AnswerIds(slots)[0] == AnswerId(slots[i]).value
            else AnswerIds(slots) == []
    decreases |slots|
  {
    if slots != [] {
      var front := slots[..|slots| - 1];
      FirstAnswer(front, if i < |slots| then i else |front|);
    }
  }
}
