/**
 * Chats with their embedded message history (models/chats.py).  Every message is written
 * twice, into the embedded history and into the chat_message table, and the lookup repairs
 * a table that lacks ancestors from the embedded history.
 */
module Chats {
  import opened Basics
  import opened Forest
  import opened ChatMessages

  datatype History = History(messages: map<Id, Msg>, currentId: Json)

  datatype Chat = Chat(userId: Id, history: History)

  /** Both representations side by side. */
  datatype Store = Store(chats: map<Id, Chat>, rows: Rows)

  predicate HasRole(m: Msg) {
    Truthy(Get(m, Role))
  }

  /** The fields fit the columns of a row. */
  predicate TypedFields(m: Msg) {
    && Get(m, Role).Str? && IsText(EffectiveParent(m)) && IsText(EffectiveModel(m))
    && IsFlag(Get(m, Done)) && IsTime(Get(m, Timestamp))
  }

  /** A message that is written, and whose new row the database takes. */
  predicate Storable(m: Msg) {
    HasRole(m) && TypedFields(m)
  }

  function Storables(msgs: map<Id, Msg>): set<Id> {
    set id | id in msgs && Storable(msgs[id])
  }

  function MessageOrEmpty(msgs: map<Id, Msg>, id: Id): Msg {
    if id in msgs then msgs[id] else map[]
  }

  /** The new fields win over the stored ones; a message that is not stored starts empty. */
  function Merged(msgs: map<Id, Msg>, id: Id, message: Msg): map<Id, Msg> {
    msgs[id := MessageOrEmpty(msgs, id) + message]
  }

  // ---- What the operations do to the two representations ----

  function UpsertedToChat(s: Store, chatId: Id, messageId: Id, message: Msg, now: int): Store {
    if chatId !in s.chats then s
    else
      var chat := s.chats[chatId];
      var msgs := Merged(chat.history.messages, messageId, message);
      Store(s.chats[chatId := chat.(history := History(msgs, Str(messageId)))],
            Upserted(s.rows, messageId, chatId, chat.userId, msgs[messageId], now))
  }

  /** The messages of a batch that end up in the table: those with a role whose row is accepted. */
  function Written(rows: Rows, chatId: Id, userId: Id, msgs: map<Id, Msg>, now: int): set<Id> {
    set id | id in msgs && HasRole(msgs[id])
             && Accepted(RowAfter(rows, CompositeId(chatId, id), chatId, userId, msgs[id], now))
  }

  function WrittenKeys(rows: Rows, chatId: Id, userId: Id, msgs: map<Id, Msg>, now: int): set<string> {
    set id | id in Written(rows, chatId, userId, msgs, now) :: CompositeId(chatId, id)
  }

  function Backfilled(rows: Rows, chatId: Id, userId: Id, msgs: map<Id, Msg>, now: int): Rows {
    var written := WrittenKeys(rows, chatId, userId, msgs, now);
    map key | key in rows.Keys + written ::
      if key in written then RowAfter(rows, key, chatId, userId, MessageOrEmpty(msgs, StripPrefix(chatId, key)), now)
      else rows[key]
  }

  /** A message with a role whose row the database refuses. */
  predicate Refused(rows: Rows, chatId: Id, userId: Id, id: Id, m: Msg, now: int) {
    HasRole(m) && !Accepted(RowAfter(rows, CompositeId(chatId, id), chatId, userId, m, now))
  }

  /** The messages before the first refused one, where the insertion of a chat breaks off. */
  function BeforeRefusal(rows: Rows, chatId: Id, userId: Id, msgs: map<Id, Msg>, order: seq<Id>, now: int)
    : (ids: set<Id>)
    ensures ids <= msgs.Keys
  {
    if order == [] || order[0] !in msgs || Refused(rows, chatId, userId, order[0], msgs[order[0]], now) then {}
    else {order[0]} + BeforeRefusal(rows, chatId, userId, msgs, order[1..], now)
  }

  /** `order` is the order of the dictionary of messages. */
  function WithNewChat(s: Store, id: Id, userId: Id, history: History, order: seq<Id>, now: int): Store {
    var msgs := history.messages;
    var before := BeforeRefusal(s.rows, id, userId, msgs, order, now);
    Store(s.chats[id := Chat(userId, history)], Backfilled(s.rows, id, userId, Only(msgs, before), now))
  }

  ghost predicate IsOrderOf(order: seq<Id>, msgs: map<Id, Msg>) {
    Distinct(order) && Elements(order) == msgs.Keys
  }

  /** The messages written so far in the backfill loop. */
  function Only(msgs: map<Id, Msg>, done: set<Id>): map<Id, Msg>
    requires done <= msgs.Keys
  {
    map m | m in done :: msgs[m]
  }

  lemma WrittenOne(rows: Rows, chatId: Id, userId: Id, msgs: map<Id, Msg>, done: set<Id>, id: Id, now: int)
    requires id in msgs && id !in done && done <= msgs.Keys
    ensures Written(rows, chatId, userId, Only(msgs, done + {id}), now) ==
            Written(rows, chatId, userId, Only(msgs, done), now) +
            if HasRole(msgs[id]) && !Refused(rows, chatId, userId, id, msgs[id], now) then {id} else {}
    ensures id !in Written(rows, chatId, userId, Only(msgs, done), now)
  {
    hide CompositeId, RowAfter, HasRole, Accepted;
  }

  /** The row that a batch leaves under a key. */
  lemma BackfilledAt(rows: Rows, chatId: Id, userId: Id, msgs: map<Id, Msg>, now: int, key: string)
    ensures var next, written := Backfilled(rows, chatId, userId, msgs, now), Written(rows, chatId, userId, msgs, now);
            var id := StripPrefix(chatId, key);
            if id in written && CompositeId(chatId, id) == key
            then key in next && next[key] == RowAfter(rows, key, chatId, userId, msgs[id], now)
            else (key in next <==> key in rows) && (key in rows ==> next[key] == rows[key])
  {
    hide RowAfter, HasRole, Accepted;
    forall id ensures StripPrefix(chatId, CompositeId(chatId, id)) == id { StripIsInverse(chatId, id); }
    hide CompositeId, StripPrefix;
  }

  /** One more message changes nothing under the keys of others. */
  lemma OtherKeysSame(rows: Rows, chatId: Id, userId: Id, msgs: map<Id, Msg>, done: set<Id>, id: Id, now: int,
                      k: string)
    requires id in msgs && id !in done && done <= msgs.Keys && k != CompositeId(chatId, id)
    ensures var a := Backfilled(rows, chatId, userId, Only(msgs, done + {id}), now);
            var b := Backfilled(rows, chatId, userId, Only(msgs, done), now);
            (k in a <==> k in b) && (k in a ==> a[k] == b[k])
  {
    hide CompositeId, StripPrefix, RowAfter, HasRole, Accepted, Written, Backfilled;
    var part, more := Only(msgs, done), Only(msgs, done + {id});
    WrittenOne(rows, chatId, userId, msgs, done, id, now);
    WrittenAreThere(rows, chatId, userId, part, now);
    BackfilledAt(rows, chatId, userId, part, now, k);
    BackfilledAt(rows, chatId, userId, more, now, k);
  }

  lemma BackfillOne(rows: Rows, chatId: Id, userId: Id, msgs: map<Id, Msg>, done: set<Id>, id: Id, now: int)
    requires id in msgs && id !in done && done <= msgs.Keys
    ensures var sofar := Backfilled(rows, chatId, userId, Only(msgs, done), now);
            && Backfilled(rows, chatId, userId, Only(msgs, done + {id}), now) ==
               (if HasRole(msgs[id]) then Upserted(sofar, id, chatId, userId, msgs[id], now) else sofar)
            && RowAfter(sofar, CompositeId(chatId, id), chatId, userId, msgs[id], now) ==
               RowAfter(rows, CompositeId(chatId, id), chatId, userId, msgs[id], now)
  {
    StripIsInverse(chatId, id);
    hide CompositeId, StripPrefix, RowAfter, HasRole, Accepted, Written, Backfilled;
    var key := CompositeId(chatId, id);
    var a := Backfilled(rows, chatId, userId, Only(msgs, done + {id}), now);
    var b := Backfilled(rows, chatId, userId, Only(msgs, done), now);
    WrittenOne(rows, chatId, userId, msgs, done, id, now);
    BackfilledAt(rows, chatId, userId, Only(msgs, done), now, key);
    BackfilledAt(rows, chatId, userId, Only(msgs, done + {id}), now, key);
    RowAfterSame(b, rows, key, chatId, userId, msgs[id], now);
    forall k | k != key ensures (k in a <==> k in b) && (k in a ==> a[k] == b[k]) {
      OtherKeysSame(rows, chatId, userId, msgs, done, id, now, k);
    }
    hide Only;
    SameMap(a, if HasRole(msgs[id]) then Upserted(b, id, chatId, userId, msgs[id], now) else b);
  }

  lemma WrittenAreThere(rows: Rows, chatId: Id, userId: Id, msgs: map<Id, Msg>, now: int)
    ensures Written(rows, chatId, userId, msgs, now) <= msgs.Keys
  {
    hide CompositeId, RowAfter, HasRole, Accepted;
  }

  lemma OrderStep(order: seq<Id>, msgs: map<Id, Msg>, i: nat)
    requires IsOrderOf(order, msgs) && i < |order|
    ensures order[i] in msgs && order[i] !in Elements(order[..i])
    ensures Elements(order[..i + 1]) == Elements(order[..i]) + {order[i]}
    ensures order[i..] != [] && order[i..][0] == order[i] && order[i..][1..] == order[i + 1..]
  {
    assert order[i] in Elements(order);
    assert order[..i + 1] == order[..i] + [order[i]];
    Append(order[..i], order[i]);
    InElements(order[..i]);
  }

  lemma RowAfterSame(a: Rows, b: Rows, key: string, chatId: Id, userId: Id, data: Msg, now: int)
    requires (key in a <==> key in b) && (key in a ==> a[key] == b[key])
    ensures RowAfter(a, key, chatId, userId, data, now) == RowAfter(b, key, chatId, userId, data, now)
  {
  }

  lemma SameMap<K, V>(a: map<K, V>, b: map<K, V>)
    requires a.Keys == b.Keys
    requires forall k :: k in a ==> a[k] == b[k]
    ensures a == b
  {
  }

  lemma NothingAdded<K, V>(m: map<K, V>)
    ensures m + map[] == m
  {
  }

  // ---- Gaps ----

  /** The parents that are referred to but not there. */
  function UnresolvedRefs(p: Parents): set<Id> {
    set x | x in p && p[x].Some? && p[x].value !in p :: p[x].value
  }

  function MessageParents(msgs: map<Id, Msg>): Parents {
    map id | id in msgs :: ParentRef(msgs[id])
  }

  function GetUnresolvedParentIds(msgs: map<Id, Msg>): (ids: set<Id>)
    ensures ids == UnresolvedRefs(MessageParents(msgs))
  {
    var p := MessageParents(msgs);
    assert forall x :: x in UnresolvedRefs(p) ==> exists id :: id in p && p[id] == Some(x) && x !in p;
    assert forall id :: id in msgs ==> p[id] == ParentRef(msgs[id]);
    set id | id in msgs && ParentRef(msgs[id]).Some? && ParentRef(msgs[id]).value !in msgs :: ParentRef(msgs[id]).value
  }

  function RowParents(rows: Rows, chatId: Id): Parents {
    map id | id in RowIds(rows, chatId) && CompositeId(chatId, id) in rows ::
      Ref(rows[CompositeId(chatId, id)].parentId)
  }

  /** The messages that a lookup takes over from the embedded history. */
  function Missing(rows: Rows, chatId: Id, msgs: map<Id, Msg>): map<Id, Msg> {
    if RowIds(rows, chatId) == {} then msgs
    else map id | id in UnresolvedRefs(RowParents(rows, chatId)) && id in msgs :: msgs[id]
  }

  /** The table after a lookup. */
  function HealedRows(s: Store, chatId: Id, now: int): Rows {
    if chatId !in s.chats then s.rows
    else
      var chat := s.chats[chatId];
      Backfilled(s.rows, chatId, chat.userId, Missing(s.rows, chatId, chat.history.messages), now)
  }

  /** `result` is the map rebuilt from the rows, completed by the missing legacy messages. */
  ghost predicate Completes(result: map<Id, Msg>, rebuilt: map<Id, Msg>, s: Store, id: Id) {
    && RebuiltFrom(rebuilt, s.rows, id)
    && result == if id in s.chats then rebuilt + Missing(s.rows, id, s.chats[id].history.messages) else rebuilt
  }

  lemma RebuiltParent(msgs: map<Id, Msg>, rows: Rows, chatId: Id, id: Id)
    requires WellKeyed(rows) && RebuiltFrom(msgs, rows, chatId) && id in msgs
    ensures CompositeId(chatId, id) in rows
    ensures ParentRef(msgs[id]) == Ref(rows[CompositeId(chatId, id)].parentId)
  {
    hide RowMsg, CompositeId, RebuiltFrom, WellKeyed;
    RebuiltRow(msgs, rows, chatId, id);
    RowMsgFields(id, rows[CompositeId(chatId, id)]);
  }

  lemma ParentTables(msgs: map<Id, Msg>, rows: Rows, chatId: Id)
    ensures MessageParents(msgs).Keys == msgs.Keys
            && forall id :: id in msgs ==> MessageParents(msgs)[id] == ParentRef(msgs[id])
    ensures RowParents(rows, chatId).Keys <= RowIds(rows, chatId)
    ensures forall id :: id in RowIds(rows, chatId) && CompositeId(chatId, id) in rows ==>
              id in RowParents(rows, chatId)
              && RowParents(rows, chatId)[id] == Ref(rows[CompositeId(chatId, id)].parentId)
  {
    hide RowIds, CompositeId, ParentRef, Ref;
  }

  lemma RebuiltParents(msgs: map<Id, Msg>, rows: Rows, chatId: Id)
    requires WellKeyed(rows) && RebuiltFrom(msgs, rows, chatId)
    ensures MessageParents(msgs) == RowParents(rows, chatId)
  {
    hide WellKeyed, MessageParents, RowParents, CompositeId, RowIds, RowMsg, WithChildren, DoublyLinked,
         IsRowOf, ParentRef, Ref;
    assert msgs.Keys == RowIds(rows, chatId);
    hide RebuiltFrom;
    var a, b := MessageParents(msgs), RowParents(rows, chatId);
    ParentTables(msgs, rows, chatId);
    forall id | id in msgs ensures id in b && a[id] == b[id] {
      RebuiltParent(msgs, rows, chatId, id);
    }
    SameMap(a, b);
  }

  lemma NothingToBackfill(rows: Rows, chatId: Id, userId: Id, now: int)
    ensures Backfilled(rows, chatId, userId, map[], now) == rows
  {
  }

  lemma NoGaps(s: Store, id: Id, now: int, found: map<Id, Msg>)
    requires WellKeyed(s.rows) && RebuiltFrom(found, s.rows, id) && RowIds(s.rows, id) != {}
    requires UnresolvedRefs(MessageParents(found)) == {}
    ensures HealedRows(s, id, now) == s.rows
    ensures Completes(found, found, s, id)
  {
    RebuiltParents(found, s.rows, id);
    if id in s.chats {
      assert Missing(s.rows, id, s.chats[id].history.messages) == map[];
      NothingToBackfill(s.rows, id, s.chats[id].userId, now);
      NothingAdded(found);
    }
  }

  class ChatTable {
    var chats: map<Id, Chat>
    const messages: ChatMessageTable

    ghost function Now(): Store
      reads this, messages
    {
      Store(chats, messages.rows)
    }

    constructor (table: ChatMessageTable)
      ensures chats == map[] && messages == table
    {
      chats, messages := map[], table;
    }

    /** Writes the messages with a role in order; the first that the table refuses ends the writing. */
    method InsertNewChat(id: Id, userId: Id, history: History, order: seq<Id>, now: int)
      requires IsOrderOf(order, history.messages)
      modifies this, messages
      ensures Now() == WithNewChat(old(Now()), id, userId, history, order, now)
    {
      hide Backfilled, Upserted, RowAfter, HasRole, Accepted;
      chats := chats[id := Chat(userId, history)];
      var msgs := history.messages;
      ghost var before := messages.rows;
      ghost var done: set<Id> := {};
      NothingToBackfill(before, id, userId, now);
      assert Only(msgs, {}) == map[] && order[0..] == order;
      for i := 0 to |order|
        invariant chats == old(chats)[id := Chat(userId, history)]
        invariant done == Elements(order[..i]) && done <= msgs.Keys
        invariant messages.rows == Backfilled(before, id, userId, Only(msgs, done), now)
        invariant BeforeRefusal(before, id, userId, msgs, order, now) ==
                  done + BeforeRefusal(before, id, userId, msgs, order[i..], now)
      {
        var m := order[i];
        OrderStep(order, msgs, i);
        BackfillOne(before, id, userId, msgs, done, m, now);
        if HasRole(msgs[m]) {
          var written := messages.UpsertMessage(m, id, userId, msgs[m], now);
          if !written {
            assert BeforeRefusal(before, id, userId, msgs, order[i..], now) == {};
            assert done + {} == done;
            return;
          }
        }
        done := done + {m};
      }
      assert order[|order|..] == [] && BeforeRefusal(before, id, userId, msgs, [], now) == {} && done + {} == done;
    }

    /** Writes every message with a role to the table; refusals are logged one by one. */
    method BackfillMessagesByChatId(chatId: Id, userId: Id, msgs: map<Id, Msg>, now: int)
      modifies messages
      ensures messages.rows == Backfilled(old(messages.rows), chatId, userId, msgs, now)
    {
      var left := msgs.Keys;
      ghost var before := messages.rows;
      ghost var sofar: map<Id, Msg> := map[];
      NothingToBackfill(before, chatId, userId, now);
      while left != {}
        invariant left <= msgs.Keys
        invariant sofar == Only(msgs, msgs.Keys - left)
        invariant messages.rows == Backfilled(before, chatId, userId, sofar, now)
        decreases left
      {
        var id :| id in left;
        BackfillOne(before, chatId, userId, msgs, msgs.Keys - left, id, now);
        assert msgs.Keys - (left - {id}) == msgs.Keys - left + {id};
        if HasRole(msgs[id]) {
          var _ := messages.UpsertMessage(id, chatId, userId, msgs[id], now);
        }
        left := left - {id};
        sofar := Only(msgs, msgs.Keys - left);
      }
      assert sofar == msgs;
    }

    method GetMessageByIdAndMessageId(id: Id, messageId: Id) returns (message: Option<Msg>)
      ensures message == if id in chats then Some(MessageOrEmpty(chats[id].history.messages, messageId)) else None
    {
      if id !in chats {
        return None;
      }
      return Some(MessageOrEmpty(chats[id].history.messages, messageId));
    }

    method UpsertMessageToChatByIdAndMessageId(id: Id, messageId: Id, message: Msg, now: int)
      modifies this, messages
      ensures Now() == UpsertedToChat(old(Now()), id, messageId, message, now)
    {
      if id !in chats {
        return;
      }
      var chat := chats[id];
      var msgs := chat.history.messages;
      if messageId in msgs {
        msgs := msgs[messageId := msgs[messageId] + message];
      } else {
        assert map[] + message == message;
        msgs := msgs[messageId := message];
      }
      var _ := messages.UpsertMessage(messageId, id, chat.userId, msgs[messageId], now);
      chats := chats[id := chat.(history := History(msgs, Str(messageId)))];
    }

    /** The lookup's repair branch: take missing parents over from the embedded history and persist them. */
    method Enrich(id: Id, found: map<Id, Msg>, now: int) returns (messagesMap: map<Id, Msg>)
      requires WellKeyed(messages.rows)
      requires RebuiltFrom(found, messages.rows, id) && RowIds(messages.rows, id) != {}
      modifies messages
      ensures messages.rows == HealedRows(old(Now()), id, now)
      ensures Completes(messagesMap, found, old(Now()), id)
    {
      hide RebuiltFrom, WellKeyed, RowParents, MessageParents;
      messagesMap := found;
      RebuiltParents(found, messages.rows, id);
      if id in chats {
        var history := chats[id].history.messages;
        var unresolved := GetUnresolvedParentIds(found);
        var missing := map m | m in unresolved && m in history :: history[m];
        assert missing == Missing(messages.rows, id, history);
        if missing != map[] {
          messagesMap := found + missing;
          BackfillMessagesByChatId(id, chats[id].userId, missing, now);
        } else {
          NothingToBackfill(messages.rows, id, chats[id].userId, now);
          NothingAdded(found);
        }
      }
    }

    /** The message map for walking the history; gaps in the table are repaired on the way. */
    method GetMessagesMapByChatId(id: Id, now: int) returns (r: Option<map<Id, Msg>>)
      requires WellKeyed(messages.rows)
      modifies messages
      ensures messages.rows == HealedRows(old(Now()), id, now)
      ensures r.None? <==> id !in chats && RowIds(old(messages.rows), id) == {}
      ensures r.Some? && RowIds(old(messages.rows), id) != {} ==>
                exists rebuilt :: Completes(r.value, rebuilt, old(Now()), id)
      ensures r.Some? && RowIds(old(messages.rows), id) == {} ==> r.value == chats[id].history.messages
    {
      var found := messages.GetMessagesMapByChatId(id);
      if found.Some? {
        var messagesMap := found.value;
        var unresolved := GetUnresolvedParentIds(messagesMap);
        if unresolved == {} {
          NoGaps(old(Now()), id, now, messagesMap);
          return found;
        }
        messagesMap := Enrich(id, messagesMap, now);
        return Some(messagesMap);
      }
      if id !in chats {
        return None;
      }
      var history := chats[id].history.messages;
      if history != map[] {
        BackfillMessagesByChatId(id, chats[id].userId, history, now);
      } else {
        NothingToBackfill(messages.rows, id, chats[id].userId, now);
      }
      return Some(history);
    }
  }

  // ---- Dual writing keeps the two representations in agreement ----

  /** Chat ids are uuids in their 36-character text form. */
  const UUID_LENGTH := 36

  /** Every column but the times says what the message says. */
  ghost predicate FieldsAgree(m: Msg, row: Row) {
    && Role in m
    && row.role == m[Role]
    && row.content == Get(m, Content)
    && row.modelId == EffectiveModel(m)
    && row.parentId == EffectiveParent(m)
    && row.statusHistory == EffectiveStatusHistory(m)
    && row.done == GetOr(m, Done, Bool(true))
    && row.output == Get(m, Output) && row.files == Get(m, Files) && row.sources == Get(m, Sources)
    && row.embeds == Get(m, Embeds) && row.error == Get(m, Error)
  }

  ghost predicate ChatInSync(s: Store, c: Id)
    requires c in s.chats
  {
    var msgs := s.chats[c].history.messages;
    && RowIds(s.rows, c) == msgs.Keys
    && forall id :: id in msgs ==>
         CompositeId(c, id) in s.rows && FieldsAgree(msgs[id], s.rows[CompositeId(c, id)])
  }

  /** Rows belong to known chats, and every chat's rows say what its embedded history says. */
  ghost predicate Keyed(s: Store) {
    && WellKeyed(s.rows)
    && (forall key :: key in s.rows ==> s.rows[key].chatId in s.chats && Accepted(s.rows[key]))
    && (forall c :: c in s.chats ==> |c| == UUID_LENGTH)
  }

  ghost predicate InSync(s: Store) {
    Keyed(s) && forall c :: c in s.chats ==> ChatInSync(s, c)
  }

  /** With known chat ids of one length, a composite key belongs to the chat it is built from. */
  lemma KeyBelongsToChat(s: Store, c: Id, id: Id)
    requires Keyed(s) && |c| == UUID_LENGTH && CompositeId(c, id) in s.rows
    ensures s.rows[CompositeId(c, id)].chatId == c
  {
    var key := CompositeId(c, id);
    var d := s.rows[key].chatId;
    CompositeIsInverse(d, key);
    CompositeIdsInjective(c, id, d, StripPrefix(d, key));
  }

  /** The row that an upsert offers to the database. */
  function OfferedRow(s: Store, c: Id, id: Id, message: Msg, now: int): Row
    requires c in s.chats
  {
    var data := MessageOrEmpty(s.chats[c].history.messages, id) + message;
    RowAfter(s.rows, CompositeId(c, id), c, s.chats[c].userId, data, now)
  }

  /** Writing one row of a chat under its composite key. */
  lemma RowWritten(s: Store, c: Id, id: Id, row: Row)
    requires Keyed(s) && c in s.chats && row.chatId == c && Accepted(row)
    ensures var rows := s.rows[CompositeId(c, id) := row];
            && Keyed(s.(rows := rows))
            && RowIds(rows, c) == RowIds(s.rows, c) + {id}
            && (forall d :: d in s.chats && d != c ==> RowIds(rows, d) == RowIds(s.rows, d))
            && (forall d, m :: d in s.chats && (d != c || m != id) ==> CompositeId(d, m) != CompositeId(c, id))
  {
    var key := CompositeId(c, id);
    var rows := s.rows[key := row];
    if key in s.rows {
      KeyBelongsToChat(s, c, id);
    }
    assert Prefix(c) <= key;
    hide CompositeId, Prefix, RowIds;
    assert WellKeyed(rows);
    forall d, m | d in s.chats && (d != c || m != id) ensures CompositeId(d, m) != key {
      CompositeIdsInjective(d, m, c, id);
    }
    forall d, x | d in s.chats
      ensures x in RowIds(rows, d) <==> x in RowIds(s.rows, d) || (d == c && x == id)
    {
      RowIdHasRow(rows, d, x);
      RowIdHasRow(s.rows, d, x);
      CompositeIdsInjective(d, x, c, id);
    }
  }

  /** An upsert touches at most one row, of its own chat. */
  lemma UpsertRowIds(s: Store, c: Id, id: Id, message: Msg, now: int)
    requires Keyed(s) && c in s.chats
    ensures var t := UpsertedToChat(s, c, id, message, now);
            && Keyed(t)
            && RowIds(t.rows, c) == RowIds(s.rows, c) +
                                     (if Accepted(OfferedRow(s, c, id, message, now)) then {id} else {})
            && (forall d :: d in s.chats && d != c ==> RowIds(t.rows, d) == RowIds(s.rows, d))
            && (forall d, m :: d in s.chats && (d != c || m != id) ==>
                  (CompositeId(d, m) in t.rows <==> CompositeId(d, m) in s.rows)
                  && (CompositeId(d, m) in s.rows ==> t.rows[CompositeId(d, m)] == s.rows[CompositeId(d, m)]))
  {
    var t := UpsertedToChat(s, c, id, message, now);
    var row := OfferedRow(s, c, id, message, now);
    assert t.chats.Keys == s.chats.Keys;
    assert t.rows == if Accepted(row) then s.rows[CompositeId(c, id) := row] else s.rows;
    assert row.chatId == if CompositeId(c, id) in s.rows then s.rows[CompositeId(c, id)].chatId else c;
    if CompositeId(c, id) in s.rows {
      KeyBelongsToChat(s, c, id);
    }
    hide UpsertedToChat, OfferedRow, RowAfter, CompositeId, WellKeyed, RowIds, Accepted;
    if Accepted(row) {
      RowWritten(s, c, id, row);
    }
  }

  /**
   * The parent of an existing row follows the message only when the caller uses the snake-case
   * key or does not move it.
   */
  ghost predicate ParentKept(msgs: map<Id, Msg>, id: Id, message: Msg) {
    id in msgs ==>
      ParentIdSnake in msgs[id] + message || EffectiveParent(msgs[id] + message) == EffectiveParent(msgs[id])
  }

  lemma UpsertChatInSync(s: Store, c: Id, id: Id, message: Msg, now: int, d: Id)
    requires InSync(s) && c in s.chats && d in s.chats
    requires Accepted(OfferedRow(s, c, id, message, now))
    requires FieldsAgree(MessageOrEmpty(s.chats[c].history.messages, id) + message, OfferedRow(s, c, id, message, now))
    ensures ChatInSync(UpsertedToChat(s, c, id, message, now), d)
  {
    hide FieldsAgree, CompositeId, RowIds, WellKeyed, RowAfter;
    var t := UpsertedToChat(s, c, id, message, now);
    UpsertRowIds(s, c, id, message, now);
    assert ChatInSync(s, d);
    if d == c {
      var before, msgs := s.chats[c].history.messages, t.chats[c].history.messages;
      forall m | m in msgs ensures CompositeId(c, m) in t.rows && FieldsAgree(msgs[m], t.rows[CompositeId(c, m)]) {
        if m != id {
          assert m in before && CompositeId(c, m) in s.rows;
        }
      }
    } else {
      forall m | m in RowIds(s.rows, d) ensures CompositeId(d, m) in s.rows {
        RowHere(s.rows, d, m);
      }
      OtherChatInSync(s, t, d);
    }
  }

  lemma RowHere(rows: Rows, d: Id, m: Id)
    requires WellKeyed(rows) && m in RowIds(rows, d)
    ensures CompositeId(d, m) in rows
  {
    RowIdHasRow(rows, d, m);
  }

  /**
   * After an upsert the two representations agree exactly when the message has a role, its row
   * is accepted, and its parent is kept.
   */
  lemma UpsertInSyncIff(s: Store, c: Id, id: Id, message: Msg, now: int)
    requires InSync(s) && c in s.chats
    ensures var msgs := s.chats[c].history.messages;
            InSync(UpsertedToChat(s, c, id, message, now)) <==>
            Role in MessageOrEmpty(msgs, id) + message
            && Accepted(OfferedRow(s, c, id, message, now)) && ParentKept(msgs, id, message)
  {
    var t := UpsertedToChat(s, c, id, message, now);
    var msgs := s.chats[c].history.messages;
    var m := MessageOrEmpty(msgs, id) + message;
    var key := CompositeId(c, id);
    UpsertRowIds(s, c, id, message, now);
    assert ChatInSync(s, c);
    RowIdHasRow(s.rows, c, id);
    if key in s.rows {
      KeyBelongsToChat(s, c, id);
    }
    UpsertedRowAgreesIff(MessageOrEmpty(msgs, id), s.rows, key, c, s.chats[c].userId, message, now, id in msgs);
    var row := OfferedRow(s, c, id, message, now);
    assert t.chats[c].history.messages[id] == m;
    if !Accepted(row) {
      if key in s.rows {
        RefusedDisagrees(s.rows[key], m, now);
      }
      assert !ChatInSync(t, c);
    } else if FieldsAgree(m, row) {
      forall d | d in t.chats ensures ChatInSync(t, d) {
        UpsertChatInSync(s, c, id, message, now, d);
      }
    } else {
      assert t.rows[key] == row;
      assert !ChatInSync(t, c);
    }
  }

  /** A row that the database would refuse is not what an accepted one says. */
  lemma RefusedDisagrees(row: Row, m: Msg, now: int)
    requires Accepted(row) && !Accepted(UpdatedRow(row, m, now))
    ensures !FieldsAgree(m, row)
  {
  }

  /** A role of null is refused by the table and kept in the embedded history. */
  lemma NullRoleIsLost(s: Store, c: Id, id: Id, now: int)
    requires InSync(s) && c in s.chats
    ensures var t := UpsertedToChat(s, c, id, map[Role := Null], now);
            && t.rows == s.rows && id in t.chats[c].history.messages
            && Get(t.chats[c].history.messages[id], Role) == Null && !InSync(t)
  {
    UpsertInSyncIff(s, c, id, map[Role := Null], now);
  }

  lemma UpsertedRowAgreesIff(stored: Msg, rows: Rows, key: string, c: Id, userId: Id, message: Msg, now: int,
                             known: bool)
    requires known <==> key in rows
    requires known ==> FieldsAgree(stored, rows[key])
    requires !known ==> stored == map[]
    ensures FieldsAgree(stored + message, RowAfter(rows, key, c, userId, stored + message, now)) <==>
            Role in stored + message
            && (known ==> ParentIdSnake in stored + message ||
                          EffectiveParent(stored + message) == EffectiveParent(stored))
  {
  }

  /** What reparenting an existing message by its usual key does: the row keeps the old parent. */
  lemma ReparentIsLost(s: Store, c: Id, id: Id, parent: Id, now: int)
    requires InSync(s) && c in s.chats && id in s.chats[c].history.messages
    requires ParentIdSnake !in s.chats[c].history.messages[id]
    requires Get(s.chats[c].history.messages[id], ParentId) != Str(parent)
    ensures var t := UpsertedToChat(s, c, id, map[ParentId := Str(parent)], now);
            && Get(t.chats[c].history.messages[id], ParentId) == Str(parent)
            && CompositeId(c, id) in s.rows && CompositeId(c, id) in t.rows
            && t.rows[CompositeId(c, id)].parentId == s.rows[CompositeId(c, id)].parentId
            && !InSync(t)
  {
    hide CompositeId, RowIds, WellKeyed, Keyed, FieldsAgree;
    assert ChatInSync(s, c);
    UpsertInSyncIff(s, c, id, map[ParentId := Str(parent)], now);
  }

  /** Which keys are written: one for each written message. */
  lemma WrittenKeyIff(rows: Rows, c: Id, userId: Id, msgs: map<Id, Msg>, now: int, id: Id)
    ensures CompositeId(c, id) in WrittenKeys(rows, c, userId, msgs, now) <==> id in Written(rows, c, userId, msgs, now)
  {
    var key := CompositeId(c, id);
    if key in WrittenKeys(rows, c, userId, msgs, now) {
      var m :| m in Written(rows, c, userId, msgs, now) && CompositeId(c, m) == key;
      StripIsInverse(c, m);
      StripIsInverse(c, id);
    }
  }

  /** The row of one message after a backfill. */
  lemma BackfillRow(rows: Rows, c: Id, userId: Id, msgs: map<Id, Msg>, now: int, id: Id)
    ensures var key, next := CompositeId(c, id), Backfilled(rows, c, userId, msgs, now);
            var written := Written(rows, c, userId, msgs, now);
            && (id in written ==> key in next && next[key] == RowAfter(rows, key, c, userId, msgs[id], now))
            && (id !in written ==> (key in next <==> key in rows) && (key in rows ==> next[key] == rows[key]))
  {
    WrittenKeyIff(rows, c, userId, msgs, now, id);
    StripIsInverse(c, id);
    assert id in Written(rows, c, userId, msgs, now) ==> id in msgs;
    hide CompositeId, StripPrefix, RowAfter, Written, WrittenKeys;
  }

  /** Where no message of the batch has a row yet, exactly the storable ones are written. */
  lemma WrittenNew(rows: Rows, c: Id, userId: Id, msgs: map<Id, Msg>, now: int)
    requires forall m :: m in msgs ==> CompositeId(c, m) !in rows
    ensures Written(rows, c, userId, msgs, now) == Storables(msgs)
  {
    forall m | m in msgs
      ensures HasRole(msgs[m]) && Accepted(RowAfter(rows, CompositeId(c, m), c, userId, msgs[m], now)) <==>
              Storable(msgs[m])
    {
      if HasRole(msgs[m]) {
        NewRowAccepted(c, userId, msgs[m], now);
      }
    }
  }

  lemma NewRowAccepted(c: Id, userId: Id, m: Msg, now: int)
    requires HasRole(m)
    ensures Accepted(NewRow(c, userId, m, now)) <==> TypedFields(m)
  {
    hide EffectiveParent, EffectiveModel, EffectiveStatusHistory;
  }

  /** A backfill writes rows of its own chat only. */
  lemma BackfillFrame(s: Store, c: Id, userId: Id, msgs: map<Id, Msg>, now: int)
    requires Keyed(s) && |c| == UUID_LENGTH
    ensures OnlyChat(s.rows, Backfilled(s.rows, c, userId, msgs, now), c)
    ensures var rows := Backfilled(s.rows, c, userId, msgs, now);
            WellKeyed(rows) && forall key :: key in rows ==> Accepted(rows[key])
  {
    var rows := Backfilled(s.rows, c, userId, msgs, now);
    forall key | key in WrittenKeys(s.rows, c, userId, msgs, now)
      ensures Accepted(rows[key]) && rows[key].chatId == c && Prefix(c) <= key
      ensures key in s.rows ==> s.rows[key].chatId == c
    {
      var m :| m in Written(s.rows, c, userId, msgs, now) && CompositeId(c, m) == key;
      BackfillRow(s.rows, c, userId, msgs, now, m);
      assert Prefix(c) <= key;
      if key in s.rows {
        KeyBelongsToChat(s, c, m);
      }
      hide Accepted;
    }
  }

  /** No row disappears or changes its chat, and only rows of chat `c` are added or changed. */
  ghost predicate OnlyChat(before: Rows, after: Rows, c: Id) {
    && (forall key :: key in before ==> key in after && after[key].chatId == before[key].chatId)
    && (forall key :: key in after && key !in before ==> after[key].chatId == c)
    && (forall key :: key in before && before[key].chatId != c ==> after[key] == before[key])
  }

  lemma BackfillRowIds(s: Store, c: Id, userId: Id, msgs: map<Id, Msg>, now: int)
    requires Keyed(s) && |c| == UUID_LENGTH
    ensures RowIds(Backfilled(s.rows, c, userId, msgs, now), c) ==
            RowIds(s.rows, c) + Written(s.rows, c, userId, msgs, now)
  {
    var rows, written := Backfilled(s.rows, c, userId, msgs, now), Written(s.rows, c, userId, msgs, now);
    BackfillFrame(s, c, userId, msgs, now);
    hide Backfilled, Written, CompositeId, RowIds, RowAfter, Accepted;
    forall id ensures id in RowIds(rows, c) <==> id in RowIds(s.rows, c) + written {
      RowIdHasRow(rows, c, id);
      RowIdHasRow(s.rows, c, id);
      BackfillRow(s.rows, c, userId, msgs, now, id);
      if CompositeId(c, id) in s.rows {
        KeyBelongsToChat(s, c, id);
      }
      if CompositeId(c, id) in rows && CompositeId(c, id) !in s.rows {
        assert rows[CompositeId(c, id)].chatId == c;
      }
    }
  }

  /** A chat that is not stored has no rows under any composite key. */
  lemma NewChatHasNoRows(s: Store, c: Id)
    requires Keyed(s) && c !in s.chats && |c| == UUID_LENGTH
    ensures RowIds(s.rows, c) == {} && forall m :: CompositeId(c, m) !in s.rows
  {
    forall m ensures CompositeId(c, m) !in s.rows {
      if CompositeId(c, m) in s.rows {
        KeyBelongsToChat(s, c, m);
      }
    }
  }

  /** When all messages are storable the insertion does not break off. */
  lemma {:induction false} NothingRefused(rows: Rows, c: Id, userId: Id, msgs: map<Id, Msg>, order: seq<Id>, now: int)
    requires forall m :: m in msgs ==> Storable(msgs[m]) && CompositeId(c, m) !in rows
    requires forall m :: m in order ==> m in msgs
    ensures BeforeRefusal(rows, c, userId, msgs, order, now) == Elements(order)
  {
    if order != [] {
      hide Accepted, TypedFields, CompositeId, NewRow, HasRole;
      var m, rest := order[0], order[1..];
      assert m in order && forall x :: x in rest ==> x in order;
      NewRowAccepted(c, userId, msgs[m], now);
      NothingRefused(rows, c, userId, msgs, rest, now);
      assert order == [m] + rest;
      ElementsOfConcat([m], rest);
      assert Elements([m]) == {m};
    }
  }

  /** One refused message keeps all later ones out of the table; here it is the first. */
  lemma RefusalEndsWriting(s: Store, c: Id, userId: Id, history: History, order: seq<Id>, now: int)
    requires Keyed(s) && c !in s.chats && |c| == UUID_LENGTH && IsOrderOf(order, history.messages)
    requires order != [] && order[0] in history.messages
    requires HasRole(history.messages[order[0]]) && !TypedFields(history.messages[order[0]])
    ensures WithNewChat(s, c, userId, history, order, now).rows == s.rows
  {
    var msgs := history.messages;
    NewChatHasNoRows(s, c);
    NewRowAccepted(c, userId, msgs[order[0]], now);
    assert Only(msgs, {}) == map[];
    NothingToBackfill(s.rows, c, userId, now);
  }

  /** A new chat is in agreement exactly when all its initial messages have a role and fields of the right types. */
  lemma NewChatInSyncIff(s: Store, c: Id, userId: Id, history: History, order: seq<Id>, now: int)
    requires InSync(s) && c !in s.chats && |c| == UUID_LENGTH && IsOrderOf(order, history.messages)
    ensures InSync(WithNewChat(s, c, userId, history, order, now)) <==>
            forall id :: id in history.messages ==> Storable(history.messages[id])
  {
    hide Backfilled, FieldsAgree, RowIds, Storable, IsOrderOf, BeforeRefusal;
    var t := WithNewChat(s, c, userId, history, order, now);
    var msgs := history.messages;
    forall d | d in s.chats ensures ChatInSync(t, d) {
      OldChatInSync(s, c, userId, history, order, now, d);
    }
    NewChatKeyed(s, c, userId, history, order, now);
    if forall id :: id in msgs ==> Storable(msgs[id]) {
      NewChatAgrees(s, c, userId, history, order, now);
    } else {
      var id :| id in msgs && !Storable(msgs[id]);
      assert !ChatInSync(t, c);
    }
  }

  lemma NewChatKeyed(s: Store, c: Id, userId: Id, history: History, order: seq<Id>, now: int)
    requires Keyed(s) && c !in s.chats && |c| == UUID_LENGTH && IsOrderOf(order, history.messages)
    ensures Keyed(WithNewChat(s, c, userId, history, order, now))
    ensures RowIds(WithNewChat(s, c, userId, history, order, now).rows, c) <= Storables(history.messages)
  {
    hide CompositeId, RowIds, Storable, Accepted;
    var msgs := history.messages;
    var part := Only(msgs, BeforeRefusal(s.rows, c, userId, msgs, order, now));
    NewChatHasNoRows(s, c);
    BackfillFrame(s, c, userId, part, now);
    BackfillRowIds(s, c, userId, part, now);
    WrittenNew(s.rows, c, userId, part, now);
    hide Backfilled, BeforeRefusal, Written;
    assert Storables(part) <= Storables(msgs);
  }

  lemma OldChatInSync(s: Store, c: Id, userId: Id, history: History, order: seq<Id>, now: int, d: Id)
    requires InSync(s) && c !in s.chats && |c| == UUID_LENGTH && d in s.chats
    ensures ChatInSync(WithNewChat(s, c, userId, history, order, now), d)
  {
    hide Backfilled, FieldsAgree, BeforeRefusal, Accepted;
    var t := WithNewChat(s, c, userId, history, order, now);
    var part := Only(history.messages, BeforeRefusal(s.rows, c, userId, history.messages, order, now));
    BackfillFrame(s, c, userId, part, now);
    OtherChatUntouched(s, t.rows, c, d);
    OtherChatInSync(s, t, d);
  }

  lemma NewChatAgrees(s: Store, c: Id, userId: Id, history: History, order: seq<Id>, now: int)
    requires Keyed(s) && c !in s.chats && |c| == UUID_LENGTH && IsOrderOf(order, history.messages)
    requires forall id :: id in history.messages ==> Storable(history.messages[id])
    ensures ChatInSync(WithNewChat(s, c, userId, history, order, now), c)
  {
    hide Backfilled, RowAfter, FieldsAgree, CompositeId, RowIds, TypedFields, Written, BeforeRefusal, Accepted;
    var msgs := history.messages;
    var rows := Backfilled(s.rows, c, userId, msgs, now);
    NewChatHasNoRows(s, c);
    InElements(order);
    NothingRefused(s.rows, c, userId, msgs, order, now);
    assert Only(msgs, msgs.Keys) == msgs;
    BackfillRowIds(s, c, userId, msgs, now);
    WrittenNew(s.rows, c, userId, msgs, now);
    assert Storables(msgs) == msgs.Keys;
    forall id | id in msgs ensures CompositeId(c, id) in rows && FieldsAgree(msgs[id], rows[CompositeId(c, id)]) {
      BackfillRow(s.rows, c, userId, msgs, now, id);
      UpsertedRowAgreesIff(map[], s.rows, CompositeId(c, id), c, userId, msgs[id], now, false);
      assert map[] + msgs[id] == msgs[id];
    }
  }

  lemma OtherChatUntouched(s: Store, rows: Rows, c: Id, d: Id)
    requires Keyed(s) && WellKeyed(rows) && d in s.chats && d != c
    requires OnlyChat(s.rows, rows, c)
    ensures RowIds(rows, d) == RowIds(s.rows, d)
    ensures forall id :: id in RowIds(s.rows, d) ==>
              CompositeId(d, id) in s.rows && CompositeId(d, id) in rows
              && rows[CompositeId(d, id)] == s.rows[CompositeId(d, id)]
  {
    forall id ensures id in RowIds(rows, d) <==> id in RowIds(s.rows, d) {
      RowIdHasRow(rows, d, id);
      RowIdHasRow(s.rows, d, id);
    }
    forall id | id in RowIds(s.rows, d) ensures CompositeId(d, id) in s.rows && s.rows[CompositeId(d, id)].chatId == d {
      RowIdHasRow(s.rows, d, id);
    }
  }

  lemma OtherChatInSync(s: Store, t: Store, d: Id)
    requires d in s.chats && d in t.chats && t.chats[d] == s.chats[d] && ChatInSync(s, d)
    requires RowIds(t.rows, d) == RowIds(s.rows, d)
    requires forall id :: id in RowIds(s.rows, d) ==>
               CompositeId(d, id) in s.rows && CompositeId(d, id) in t.rows
               && t.rows[CompositeId(d, id)] == s.rows[CompositeId(d, id)]
    ensures ChatInSync(t, d)
  {
  }

  /** What a rebuilt message shows of an embedded one: every field but its time. */
  ghost predicate ShowsFields(shown: Msg, m: Msg) {
    && Get(shown, Role) == Get(m, Role)
    && Get(shown, Content) == (if Get(m, Content) == Null then Str("") else Get(m, Content))
    && Get(shown, Model) == EffectiveModel(m)
    && Get(shown, ParentId) == EffectiveParent(m)
    && Get(shown, StatusHistory) == EffectiveStatusHistory(m)
    && Get(shown, Done) == GetOr(m, Done, Bool(true))
    && Get(shown, Output) == Get(m, Output) && Get(shown, Files) == Get(m, Files)
    && Get(shown, Sources) == Get(m, Sources) && Get(shown, Embeds) == Get(m, Embeds)
    && Get(shown, Error) == Get(m, Error)
  }

  /** What a caller of the rebuilt map sees is what the embedded history says. */
  lemma RebuiltAgrees(s: Store, c: Id, rebuilt: map<Id, Msg>)
    requires InSync(s) && c in s.chats && RebuiltFrom(rebuilt, s.rows, c)
    ensures var msgs := s.chats[c].history.messages;
            rebuilt.Keys == msgs.Keys && forall id :: id in msgs ==> ShowsFields(rebuilt[id], msgs[id])
  {
    assert WellKeyed(s.rows) && rebuilt.Keys == RowIds(s.rows, c);
    hide CompositeId, RowIds, Keyed, WellKeyed, RowMsg, DoublyLinked, RebuiltFrom;
    var msgs := s.chats[c].history.messages;
    assert ChatInSync(s, c);
    forall id | id in msgs ensures ShowsFields(rebuilt[id], msgs[id]) {
      var row := s.rows[CompositeId(c, id)];
      RebuiltRow(rebuilt, s.rows, c, id);
      RowMsgFields(id, row);
      ShownColumns(RowMsg(id, row), rebuilt[id], row);
      ColumnsAreShown(rebuilt[id], row);
      RowShowsFields(rebuilt[id], row, msgs[id]);
    }
  }

  /** Adding the list of children hides no column. */
  lemma ShownColumns(plain: Msg, shown: Msg, row: Row)
    requires shown == WithChildren(plain, ChildIds(shown))
    requires forall k :: IsColumn(k) && k != Content ==> Get(plain, k) == Column(row, k)
    ensures forall k :: IsColumn(k) && k != Content ==> Get(shown, k) == Column(row, k)
    ensures Get(shown, Content) == Get(plain, Content)
  {
  }

  /** What a message shows of a row, field by field. */
  ghost predicate ShowsRow(shown: Msg, row: Row) {
    && Get(shown, Role) == row.role && Get(shown, Model) == row.modelId && Get(shown, ParentId) == row.parentId
    && Get(shown, StatusHistory) == row.statusHistory && Get(shown, Done) == row.done
    && Get(shown, Timestamp) == row.createdAt
    && Get(shown, Output) == row.output && Get(shown, Files) == row.files && Get(shown, Sources) == row.sources
    && Get(shown, Embeds) == row.embeds && Get(shown, Error) == row.error
    && Get(shown, Content) == if row.content == Null then Str("") else row.content
  }

  lemma ColumnsAreShown(shown: Msg, row: Row)
    requires forall k :: IsColumn(k) && k != Content ==> Get(shown, k) == Column(row, k)
    requires Get(shown, Content) == if row.content == Null then Str("") else row.content
    ensures ShowsRow(shown, row)
  {
    hide Get;
    assert Get(shown, Role) == Column(row, Role) && Get(shown, Model) == Column(row, Model);
    assert Get(shown, ParentId) == Column(row, ParentId) && Get(shown, StatusHistory) == Column(row, StatusHistory);
    assert Get(shown, Done) == Column(row, Done) && Get(shown, Output) == Column(row, Output);
    assert Get(shown, Timestamp) == Column(row, Timestamp);
    assert Get(shown, Files) == Column(row, Files) && Get(shown, Sources) == Column(row, Sources);
    assert Get(shown, Embeds) == Column(row, Embeds) && Get(shown, Error) == Column(row, Error);
  }

  lemma RowShowsFields(shown: Msg, row: Row, m: Msg)
    requires FieldsAgree(m, row) && ShowsRow(shown, row)
    ensures ShowsFields(shown, m)
  {
    assert Get(m, Role) == row.role;
    hide Get, GetOr, EffectiveModel, EffectiveParent, EffectiveStatusHistory;
  }

  // ---- Whole runs of dual writes ----

  datatype Op =
    | NewChat(id: Id, userId: Id, history: History, order: seq<Id>, now: int)
    | Upsert(chatId: Id, messageId: Id, message: Msg, now: int)

  function Apply(s: Store, op: Op): Store {
    match op
    case NewChat(id, userId, history, order, now) => WithNewChat(s, id, userId, history, order, now)
    case Upsert(c, id, message, now) => UpsertedToChat(s, c, id, message, now)
  }

  ghost predicate Allowed(s: Store, op: Op) {
    match op
    case NewChat(id, _, history, order, _) =>
      && id !in s.chats && |id| == UUID_LENGTH && IsOrderOf(order, history.messages)
      && forall m :: m in history.messages ==> Storable(history.messages[m])
    case Upsert(c, id, message, now) =>
      c in s.chats ==>
        var msgs := s.chats[c].history.messages;
        && Role in MessageOrEmpty(msgs, id) + message && Accepted(OfferedRow(s, c, id, message, now))
        && ParentKept(msgs, id, message)
  }

  ghost predicate AllAllowed(s: Store, ops: seq<Op>)
    decreases |ops|
  {
    ops == [] || (Allowed(s, ops[0]) && AllAllowed(Apply(s, ops[0]), ops[1..]))
  }

  function Run(s: Store, ops: seq<Op>): Store
    decreases |ops|
  {
    if ops == [] then s else Run(Apply(s, ops[0]), ops[1..])
  }

  lemma {:induction false} RunKeepsInSync(s: Store, ops: seq<Op>)
    requires InSync(s) && AllAllowed(s, ops)
    ensures InSync(Run(s, ops))
    decreases |ops|
  {
    if ops != [] {
      match ops[0] {
        case NewChat(id, userId, history, order, now) =>
          NewChatInSyncIff(s, id, userId, history, order, now);
        case Upsert(c, id, message, now) =>
          if c in s.chats {
            UpsertInSyncIff(s, c, id, message, now);
          }
      }
      RunKeepsInSync(Apply(s, ops[0]), ops[1..]);
    }
  }
}
