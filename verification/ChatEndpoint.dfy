/**
 * How the chat endpoint grows a chat (main.py, chat_completion): it starts a chat with a user
 * message and one placeholder per model, or adds such a turn to an existing chat.
 */
module ChatEndpoint {
  import opened Basics
  import opened Forest
  import opened ChatMessages
  import opened Chats

  /** One entry of the request's message_ids: a model and the id of its answer, if given. */
  datatype Slot = Slot(model: string, answerId: Option<Id>)

  function AnswerId(slot: Slot): Option<Id> {
    if slot.answerId.Some? && slot.answerId.value != "" then slot.answerId else None
  }

  /** The answer ids that are present, in order. */
  function AnswerIds(slots: seq<Slot>): seq<Id> {
    if slots == [] then []
    else
      var front := AnswerIds(slots[..|slots| - 1]);
      var last := AnswerId(slots[|slots| - 1]);
      if last.Some? then front + [last.value] else front
  }

  function Strs(ids: seq<Id>): seq<Json> {
    seq(|ids|, i requires 0 <= i < |ids| => Str(ids[i]))
  }

  function Placeholder(model: string, answerId: Id, userMessageId: Json, time: int): Msg {
    map[IdKey := Str(answerId), ParentId := userMessageId, ChildrenIds := List([]), Role := Str("assistant"),
        Content := Str(""), Done := Bool(false), Model := Str(model), Timestamp := Num(time)]
  }

  /** `child_ids` with every id of `ids` that it lacks appended. */
  function AppendMissing(childIds: seq<Json>, ids: seq<Id>): seq<Json> {
    if ids == [] then childIds
    else
      var front := AppendMissing(childIds, ids[..|ids| - 1]);
      var last := Str(ids[|ids| - 1]);
      if last in front then front else front + [last]
  }

  // ---- A turn as a list of upserts ----

  datatype Write = Write(id: Id, message: Msg)

  function MergeAll(msgs: map<Id, Msg>, writes: seq<Write>): map<Id, Msg>
    decreases |writes|
  {
    if writes == [] then msgs
    else
      var last := writes[|writes| - 1];
      Merged(MergeAll(msgs, writes[..|writes| - 1]), last.id, last.message)
  }

  function UpsertAll(s: Store, chatId: Id, writes: seq<Write>, now: int): Store
    decreases |writes|
  {
    if writes == [] then s
    else
      var last := writes[|writes| - 1];
      UpsertedToChat(UpsertAll(s, chatId, writes[..|writes| - 1], now), chatId, last.id, last.message, now)
  }

  /** The user message is saved when it has an id. */
  function SaveUser(user: Msg): seq<Write> {
    var u := Ref(Get(user, IdKey));
    if u.Some? then [Write(u.value, user)] else []
  }

  /** The message's parent gets it as a child, unless the parent is unknown or lists it already. */
  function LinkGrandparent(msgs: map<Id, Msg>, user: Msg): seq<Write> {
    var u, g := Ref(Get(user, IdKey)), ParentRef(user);
    if u.Some? && g.Some? && g.value in msgs && msgs[g.value] != map[] && Str(u.value) !in ChildIds(msgs[g.value])
    then [Write(g.value, map[ChildrenIds := List(ChildIds(msgs[g.value]) + [Str(u.value)])])]
    else []
  }

  /** The user message gets the answers as children. */
  function LinkAnswers(msgs: map<Id, Msg>, user: Msg, answers: seq<Id>): seq<Write> {
    var u := Ref(Get(user, IdKey));
    if u.Some? && answers != [] && u.value in msgs && msgs[u.value] != map[]
    then [Write(u.value, map[ChildrenIds := List(AppendMissing(ChildIds(msgs[u.value]), answers))])]
    else []
  }

  function SavePlaceholders(slots: seq<Slot>, userMessageId: Json, time: int): seq<Write> {
    if slots == [] then []
    else
      var front := SavePlaceholders(slots[..|slots| - 1], userMessageId, time);
      var last := slots[|slots| - 1];
      if AnswerId(last).Some?
      then front + [Write(AnswerId(last).value, Placeholder(last.model, AnswerId(last).value, userMessageId, time))]
      else front
  }

  function UserWrites(msgs: map<Id, Msg>, user: Msg): seq<Write> {
    SaveUser(user) + LinkGrandparent(MergeAll(msgs, SaveUser(user)), user)
  }

  function AnswerWrites(msgs: map<Id, Msg>, user: Msg, slots: seq<Slot>, time: int): seq<Write> {
    LinkAnswers(msgs, user, AnswerIds(slots)) + SavePlaceholders(slots, Get(user, IdKey), time)
  }

  function TurnWrites(msgs: map<Id, Msg>, user: Msg, slots: seq<Slot>, time: int): seq<Write> {
    var first := UserWrites(msgs, user);
    first + AnswerWrites(MergeAll(msgs, first), user, slots, time)
  }

  // ---- A new chat ----

  /** The history before the placeholders are assigned: the user message with its answers as children. */
  function StartMessages(user: Msg, slots: seq<Slot>): map<Id, Msg> {
    var u := Ref(Get(user, IdKey));
    if u.Some? then map[u.value := WithChildren(user, Strs(AnswerIds(slots)))] else map[]
  }

  function NewChatMessages(user: Msg, slots: seq<Slot>, time: int): map<Id, Msg> {
    Assigned(StartMessages(user, slots), SavePlaceholders(slots, Get(user, IdKey), time))
  }

  function Assigned(msgs: map<Id, Msg>, writes: seq<Write>): map<Id, Msg> {
    if writes == [] then msgs
    else Assigned(msgs, writes[..|writes| - 1])[writes[|writes| - 1].id := writes[|writes| - 1].message]
  }

  function NewChatHistory(user: Msg, slots: seq<Slot>, time: int): History {
    var answers := AnswerIds(slots);
    History(NewChatMessages(user, slots, time), if answers != [] then Str(answers[0]) else Get(user, IdKey))
  }

  // ---- The endpoint's statements ----

  /** Builds the whole history up front, then inserts the chat; `order` is the order of that dictionary. */
  method StartChat(chats: ChatTable, chatId: Id, userId: Id, user: Msg, slots: seq<Slot>, order: seq<Id>, time: int)
    requires IsOrderOf(order, NewChatMessages(user, slots, time))
    modifies chats, chats.messages
    ensures chats.Now() ==
            WithNewChat(old(chats.Now()), chatId, userId, NewChatHistory(user, slots, time), order, time)
  {
    var historyMessages: map<Id, Msg> := map[];
    var answers := CollectAnswerIds(slots);
    var u := Ref(Get(user, IdKey));
    if u.Some? {
      historyMessages := historyMessages[u.value := WithChildren(user, Strs(answers))];
    }
    ghost var start := historyMessages;
    for i := 0 to |slots|
      invariant historyMessages == Assigned(start, SavePlaceholders(slots[..i], Get(user, IdKey), time))
    {
      assert slots[..i + 1][..i] == slots[..i];
      var id := AnswerId(slots[i]);
      if id.Some? {
        ghost var front := SavePlaceholders(slots[..i], Get(user, IdKey), time);
        var placeholder := Placeholder(slots[i].model, id.value, Get(user, IdKey), time);
        assert (front + [Write(id.value, placeholder)])[..|front|] == front;
        historyMessages := historyMessages[id.value := placeholder];
      }
    }
    assert slots[..|slots|] == slots;
    var currentId := if answers != [] then Str(answers[0]) else Get(user, IdKey);
    chats.InsertNewChat(chatId, userId, History(historyMessages, currentId), order, time);
  }

  method CollectAnswerIds(slots: seq<Slot>) returns (answers: seq<Id>)
    ensures answers == AnswerIds(slots)
  {
    answers := [];
    for i := 0 to |slots|
      invariant answers == AnswerIds(slots[..i])
    {
      assert slots[..i + 1][..i] == slots[..i];
      if AnswerId(slots[i]).Some? {
        answers := answers + [AnswerId(slots[i]).value];
      }
    }
    assert slots[..|slots|] == slots;
  }

  method AppendMissingIds(childIds: seq<Json>, ids: seq<Id>) returns (r: seq<Json>)
    ensures r == AppendMissing(childIds, ids)
  {
    r := childIds;
    for i := 0 to |ids|
      invariant r == AppendMissing(childIds, ids[..i])
    {
      assert ids[..i + 1][..i] == ids[..i];
      if Str(ids[i]) !in r {
        r := r + [Str(ids[i])];
      }
    }
    assert ids[..|ids|] == ids;
  }

  /** The stored messages of a chat; none when the chat is missing. */
  function MessagesOf(s: Store, chatId: Id): map<Id, Msg> {
    if chatId in s.chats then s.chats[chatId].history.messages else map[]
  }

  /** The upserts of a turn, in the endpoint's order; without the chat they do nothing. */
  method SaveTurn(chats: ChatTable, chatId: Id, user: Msg, slots: seq<Slot>, time: int)
    modifies chats, chats.messages
    ensures chats.Now() ==
            UpsertAll(old(chats.Now()), chatId,
                      TurnWrites(MessagesOf(old(chats.Now()), chatId), user, slots, time), time)
    ensures chatId !in old(chats.chats) ==> chats.Now() == old(chats.Now())
  {
    ghost var s0 := chats.Now();
    ghost var msgs0 := MessagesOf(s0, chatId);
    ghost var first := UserWrites(msgs0, user);
    ghost var rest := AnswerWrites(MergeAll(msgs0, first), user, slots, time);
    SaveUserMessage(chats, chatId, user, time);
    if chatId in s0.chats {
      UpsertAllMessages(s0, chatId, first, time);
    } else {
      NoChatNoWrites(s0, chatId, first, time);
      NoChatNoWrites(s0, chatId, rest, time);
      NoChatNoWrites(s0, chatId, AnswerWrites(map[], user, slots, time), time);
    }
    SaveAnswers(chats, chatId, user, slots, time);
    UpsertAllConcat(s0, chatId, first, rest, time);
  }

  /** The first half of a turn: save the user message and link it from its parent. */
  method SaveUserMessage(chats: ChatTable, chatId: Id, user: Msg, time: int)
    modifies chats, chats.messages
    ensures chats.Now() ==
            UpsertAll(old(chats.Now()), chatId, UserWrites(MessagesOf(old(chats.Now()), chatId), user), time)
  {
    ghost var s0 := chats.Now();
    ghost var saved := SaveUser(user);
    ghost var m1 := MergeAll(MessagesOf(s0, chatId), saved);
    var u := Ref(Get(user, IdKey));
    if u.Some? {
      chats.UpsertMessageToChatByIdAndMessageId(chatId, u.value, user, time);
      OneWrite(s0, chatId, u.value, user, time);
    }
    ghost var s1 := chats.Now();
    if chatId in s0.chats {
      UpsertAllMessages(s0, chatId, saved, time);
    } else {
      NoChatNoWrites(s0, chatId, UserWrites(map[], user), time);
    }
    var g := ParentRef(user);
    if u.Some? && g.Some? {
      var grandparent := chats.GetMessageByIdAndMessageId(chatId, g.value);
      if grandparent.Some? && grandparent.value != map[] {
        var childIds := ChildIds(grandparent.value);
        if Str(u.value) !in childIds {
          var link: Msg := map[ChildrenIds := List(childIds + [Str(u.value)])];
          chats.UpsertMessageToChatByIdAndMessageId(chatId, g.value, link, time);
          OneWrite(s1, chatId, g.value, link, time);
        }
      }
    }
    UpsertAllConcat(s0, chatId, saved, LinkGrandparent(m1, user), time);
  }

  /** The second half of a turn: link the answers, then save one placeholder for each. */
  method SaveAnswers(chats: ChatTable, chatId: Id, user: Msg, slots: seq<Slot>, time: int)
    modifies chats, chats.messages
    ensures chats.Now() ==
            UpsertAll(old(chats.Now()), chatId,
                      AnswerWrites(MessagesOf(old(chats.Now()), chatId), user, slots, time), time)
  {
    ghost var s0 := chats.Now();
    var u := Ref(Get(user, IdKey));
    var answers := CollectAnswerIds(slots);
    ghost var links := LinkAnswers(MessagesOf(s0, chatId), user, answers);
    if u.Some? && answers != [] {
      var existing := chats.GetMessageByIdAndMessageId(chatId, u.value);
      if existing.Some? && existing.value != map[] {
        var childIds := AppendMissingIds(ChildIds(existing.value), answers);
        var link: Msg := map[ChildrenIds := List(childIds)];
        chats.UpsertMessageToChatByIdAndMessageId(chatId, u.value, link, time);
        OneWrite(s0, chatId, u.value, link, time);
      }
    }
    SavePlaceholderMessages(chats, chatId, slots, Get(user, IdKey), time);
    UpsertAllConcat(s0, chatId, links, SavePlaceholders(slots, Get(user, IdKey), time), time);
  }

  /** One upsert for each answer that has an id. */
  method SavePlaceholderMessages(chats: ChatTable, chatId: Id, slots: seq<Slot>, userMessageId: Json, time: int)
    modifies chats, chats.messages
    ensures chats.Now() == UpsertAll(old(chats.Now()), chatId, SavePlaceholders(slots, userMessageId, time), time)
  {
    ghost var s0 := chats.Now();
    for i := 0 to |slots|
      invariant chats.Now() == UpsertAll(s0, chatId, SavePlaceholders(slots[..i], userMessageId, time), time)
    {
      assert slots[..i + 1][..i] == slots[..i];
      var id := AnswerId(slots[i]);
      if id.Some? {
        ghost var front := SavePlaceholders(slots[..i], userMessageId, time);
        var placeholder := Placeholder(slots[i].model, id.value, userMessageId, time);
        assert (front + [Write(id.value, placeholder)])[..|front|] == front;
        chats.UpsertMessageToChatByIdAndMessageId(chatId, id.value, placeholder, time);
      }
    }
    assert slots[..|slots|] == slots;
  }

  /** Upserts to a missing chat change nothing. */
  lemma {:induction false} NoChatNoWrites(s: Store, c: Id, writes: seq<Write>, now: int)
    requires c !in s.chats
    ensures UpsertAll(s, c, writes, now) == s
    decreases |writes|
  {
    if writes != [] {
      NoChatNoWrites(s, c, writes[..|writes| - 1], now);
    }
  }

  lemma OneWrite(s: Store, chatId: Id, id: Id, message: Msg, now: int)
    ensures UpsertAll(s, chatId, [Write(id, message)], now) == UpsertedToChat(s, chatId, id, message, now)
  {
  }

  lemma {:induction false} UpsertAllConcat(s: Store, c: Id, a: seq<Write>, b: seq<Write>, now: int)
    ensures UpsertAll(s, c, a + b, now) == UpsertAll(UpsertAll(s, c, a, now), c, b, now)
    decreases |b|
  {
    if b == [] {
      assert a + b == a;
    } else {
      UpsertAllConcat(s, c, a, b[..|b| - 1], now);
      assert (a + b)[..|a + b| - 1] == a + b[..|b| - 1];
    }
  }

  lemma {:induction false} MergeAllConcat(msgs: map<Id, Msg>, a: seq<Write>, b: seq<Write>)
    ensures MergeAll(msgs, a + b) == MergeAll(MergeAll(msgs, a), b)
    decreases |b|
  {
    if b == [] {
      assert a + b == a;
    } else {
      MergeAllConcat(msgs, a, b[..|b| - 1]);
      assert (a + b)[..|a + b| - 1] == a + b[..|b| - 1];
    }
  }

  /** What the upserts do to the embedded history. */
  lemma {:induction false} UpsertAllMessages(s: Store, c: Id, writes: seq<Write>, now: int)
    requires c in s.chats
    ensures var t := UpsertAll(s, c, writes, now);
            && c in t.chats && t.chats.Keys == s.chats.Keys
            && t.chats[c].history.messages == MergeAll(s.chats[c].history.messages, writes)
            && (forall d :: d in s.chats && d != c ==> t.chats[d] == s.chats[d])
            && t.chats[c].history.currentId ==
               (if writes == [] then s.chats[c].history.currentId else Str(writes[|writes| - 1].id))
    decreases |writes|
  {
    if writes != [] {
      UpsertAllMessages(s, c, writes[..|writes| - 1], now);
    }
  }
}
