/**
 * The chat_message table (models/chat_messages.py): one row per message, written field by
 * field from message dictionaries, and the map of dictionaries rebuilt from the rows.
 */
module ChatMessages {
  import opened Basics
  import opened Forest

  // ---- JSON dictionaries ----

  datatype Json =
    | Null
    | Bool(b: bool)
    | Num(n: int)
    | Str(s: string)
    | List(items: seq<Json>)
    | Obj(fields: map<string, Json>)

  /** The dictionary keys the table looks at; both spellings of a key are different keys. */
  datatype Key =
    | IdKey | Role | ParentId | ParentIdSnake | ChildrenIds | Content | Output
    | Model | ModelIdSnake | Files | Sources | Embeds | Done
    | StatusHistory | StatusHistorySnake | Error | Timestamp | OtherKey(name: string)

  type Msg = map<Key, Json>

  function Get(m: Msg, k: Key): Json {
    if k in m then m[k] else Null
  }

  function GetOr(m: Msg, k: Key, default: Json): Json {
    if k in m then m[k] else default
  }

  predicate Truthy(j: Json) {
    match j
    case Null => false
    case Bool(b) => b
    case Num(n) => n != 0
    case Str(s) => s != ""
    case List(items) => items != []
    case Obj(fields) => fields != map[]
  }

  function Or(a: Json, b: Json): Json {
    if Truthy(a) then a else b
  }

  /** The id a parent field refers to; an absent, null or empty field refers to nothing. */
  function Ref(j: Json): Option<Id> {
    if j.Str? && j.s != "" then Some(j.s) else None
  }

  function EffectiveParent(m: Msg): Json {
    Or(Get(m, ParentIdSnake), Get(m, ParentId))
  }

  function EffectiveModel(m: Msg): Json {
    Or(Get(m, ModelIdSnake), Get(m, Model))
  }

  function EffectiveStatusHistory(m: Msg): Json {
    Or(Get(m, StatusHistorySnake), Get(m, StatusHistory))
  }

  // ---- Rows ----

  datatype Row = Row(chatId: Id, userId: Id, role: Json, parentId: Json, content: Json, output: Json,
                     modelId: Json, files: Json, sources: Json, embeds: Json, done: Json,
                     statusHistory: Json, error: Json, createdAt: Json, updatedAt: int)

  type Rows = map<string, Row>

  function Prefix(chatId: Id): string {
    chatId + "-"
  }

  /** The primary key of a message row. */
  function CompositeId(chatId: Id, messageId: Id): string {
    Prefix(chatId) + messageId
  }

  function StripPrefix(chatId: Id, key: string): Id {
    if Prefix(chatId) <= key then key[|Prefix(chatId)|..] else key
  }

  function NewRow(chatId: Id, userId: Id, data: Msg, now: int): Row {
    Row(chatId, userId, GetOr(data, Role, Str("user")), EffectiveParent(data), Get(data, Content),
        Get(data, Output), EffectiveModel(data), Get(data, Files), Get(data, Sources), Get(data, Embeds),
        GetOr(data, Done, Bool(true)), EffectiveStatusHistory(data), Get(data, Error),
        GetOr(data, Timestamp, Num(now)), now)
  }

  /** Only fields present in the data are written; the parent only under its snake-case spelling. */
  function UpdatedRow(row: Row, data: Msg, now: int): Row {
    row.(
      role := if Role in data then data[Role] else row.role,
      parentId := if ParentIdSnake in data then EffectiveParent(data) else row.parentId,
      content := if Content in data then data[Content] else row.content,
      output := if Output in data then data[Output] else row.output,
      modelId := if ModelIdSnake in data || Model in data then EffectiveModel(data) else row.modelId,
      files := if Files in data then data[Files] else row.files,
      sources := if Sources in data then data[Sources] else row.sources,
      embeds := if Embeds in data then data[Embeds] else row.embeds,
      done := if Done in data then data[Done] else row.done,
      statusHistory := if StatusHistorySnake in data || StatusHistory in data
                       then EffectiveStatusHistory(data) else row.statusHistory,
      error := if Error in data then data[Error] else row.error,
      updatedAt := now)
  }

  function RowAfter(rows: Rows, key: string, chatId: Id, userId: Id, data: Msg, now: int): Row {
    if key in rows then UpdatedRow(rows[key], data, now) else NewRow(chatId, userId, data, now)
  }

  /** What a nullable text, boolean or time column takes; booleans may come as 0 and 1. */
  predicate IsText(j: Json) {
    j == Null || j.Str?
  }

  predicate IsFlag(j: Json) {
    j == Null || j.Bool? || j == Num(0) || j == Num(1)
  }

  predicate IsTime(j: Json) {
    j == Null || j.Num?
  }

  /** The database refuses a row with a value of another type, or without a role. */
  predicate Accepted(row: Row) {
    row.role.Str? && IsText(row.parentId) && IsText(row.modelId) && IsFlag(row.done) && IsTime(row.createdAt)
  }

  /** The table after an upsert; a refused row changes nothing. */
  function Upserted(rows: Rows, messageId: Id, chatId: Id, userId: Id, data: Msg, now: int): Rows {
    var key := CompositeId(chatId, messageId);
    var row := RowAfter(rows, key, chatId, userId, data, now);
    if Accepted(row) then rows[key := row] else rows
  }

  /** Every row of a chat is stored under that chat's prefix. */
  ghost predicate WellKeyed(rows: Rows) {
    forall key :: key in rows ==> Prefix(rows[key].chatId) <= key
  }

  /** The message ids that have a row in the chat. */
  function RowIds(rows: Rows, chatId: Id): set<Id> {
    set key | key in rows && rows[key].chatId == chatId :: StripPrefix(chatId, key)
  }

  lemma StripIsInverse(chatId: Id, messageId: Id)
    ensures StripPrefix(chatId, CompositeId(chatId, messageId)) == messageId
  {
  }

  lemma CompositeIsInverse(chatId: Id, key: string)
    requires Prefix(chatId) <= key
    ensures CompositeId(chatId, StripPrefix(chatId, key)) == key
  {
  }

  /** The key belongs to a row of the chat and stands for the message, with the prefix or, in a stray row, without. */
  predicate IsRowOf(rows: Rows, chatId: Id, id: Id, key: string) {
    key in rows && rows[key].chatId == chatId && StripPrefix(chatId, key) == id
  }

  /** A message has a row under its composite key, or a stray row under an id that does not look like one. */
  lemma RowIdIff(rows: Rows, chatId: Id, id: Id)
    ensures id in RowIds(rows, chatId) <==>
            || (CompositeId(chatId, id) in rows && rows[CompositeId(chatId, id)].chatId == chatId)
            || (id in rows && rows[id].chatId == chatId && !(Prefix(chatId) <= id))
  {
    if id in RowIds(rows, chatId) {
      var key :| key in rows && rows[key].chatId == chatId && StripPrefix(chatId, key) == id;
      if Prefix(chatId) <= key {
        CompositeIsInverse(chatId, key);
      }
    }
    StripIsInverse(chatId, id);
  }

  /** Where all rows have their chat's prefix, that is the composite key. */
  lemma RowIdHasRow(rows: Rows, chatId: Id, id: Id)
    requires WellKeyed(rows)
    ensures id in RowIds(rows, chatId) <==>
            CompositeId(chatId, id) in rows && rows[CompositeId(chatId, id)].chatId == chatId
  {
    RowIdIff(rows, chatId, id);
  }

  /** Chat ids of one length, as uuids are, never share a row key. */
  lemma CompositeIdsInjective(c1: Id, m1: Id, c2: Id, m2: Id)
    requires |c1| == |c2|
    ensures CompositeId(c1, m1) == CompositeId(c2, m2) <==> c1 == c2 && m1 == m2
  {
    var k1, k2 := CompositeId(c1, m1), CompositeId(c2, m2);
    assert k1[..|c1|] == c1 && k2[..|c2|] == c2;
    StripIsInverse(c1, m1);
    StripIsInverse(c2, m2);
  }

  /** Two chats have messages that share a row key exactly when one chat's prefix begins the other's. */
  lemma CompositeIdsCollideIff(c1: Id, c2: Id)
    requires c1 != c2
    ensures (exists m1, m2 :: CompositeId(c1, m1) == CompositeId(c2, m2)) <==>
            Prefix(c1) <= Prefix(c2) || Prefix(c2) <= Prefix(c1)
  {
    forall m1, m2 | CompositeId(c1, m1) == CompositeId(c2, m2)
      ensures Prefix(c1) <= Prefix(c2) || Prefix(c2) <= Prefix(c1)
    {
      var key, n1, n2 := CompositeId(c1, m1), |Prefix(c1)|, |Prefix(c2)|;
      assert key[..n1] == Prefix(c1) && key[..n2] == Prefix(c2);
      if n1 <= n2 {
        assert key[..n2][..n1] == key[..n1];
      } else {
        assert key[..n1][..n2] == key[..n2];
      }
    }
    if Prefix(c1) <= Prefix(c2) {
      assert CompositeId(c1, Prefix(c2)[|Prefix(c1)|..]) == CompositeId(c2, "");
    } else if Prefix(c2) <= Prefix(c1) {
      assert CompositeId(c1, "") == CompositeId(c2, Prefix(c1)[|Prefix(c2)|..]);
    }
  }

  /** With chat ids of different lengths two messages of two chats can share a row. */
  lemma CompositeIdsCollide()
    ensures CompositeId("a", "b-c") == CompositeId("a-b", "c")
  {
  }

  // ---- The map rebuilt from rows ----

  /** The columns that become dictionary fields, under their dictionary names. */
  const COLUMNS: seq<Key> :=
    [Role, ParentId, Content, Output, Model, Files, Sources, Embeds, Done, StatusHistory, Error, Timestamp]

  function Column(row: Row, k: Key): Json {
    match k
    case Role => row.role
    case ParentId => row.parentId
    case Content => row.content
    case Output => row.output
    case Model => row.modelId
    case Files => row.files
    case Sources => row.sources
    case Embeds => row.embeds
    case Done => row.done
    case StatusHistory => row.statusHistory
    case Error => row.error
    case Timestamp => row.createdAt
    case _ => Null
  }

  predicate IsColumn(k: Key) {
    match k
    case Role | ParentId | Content | Output | Model | Files
         | Sources | Embeds | Done | StatusHistory | Error | Timestamp => true
    case _ => false
  }

  lemma ColumnsAre(k: Key)
    ensures k in COLUMNS <==> IsColumn(k)
  {
  }

  /** The dictionary of one row, before children are linked: no field for a null column, but always a content. */
  function RowMsg(id: Id, row: Row): Msg {
    var fields := map k | k in COLUMNS && Column(row, k) != Null :: Column(row, k);
    var m := fields[IdKey := Str(id)];
    if Content in m then m else m[Content := Str("")]
  }

  /** The dictionary of a row shows every column, and a content in any case. */
  lemma RowMsgFields(id: Id, row: Row)
    ensures var m := RowMsg(id, row);
            && Get(m, IdKey) == Str(id) && ChildrenIds !in m
            && (forall k :: IsColumn(k) && k != Content ==> Get(m, k) == Column(row, k))
            && Get(m, ParentId) == row.parentId
            && Get(m, Content) == if row.content == Null then Str("") else row.content
  {
    forall k ensures k in COLUMNS <==> IsColumn(k) { ColumnsAre(k); }
    var m := RowMsg(id, row);
    assert Column(row, ParentId) == row.parentId && Column(row, Content) == row.content;
    assert IsColumn(ParentId) && IsColumn(Content) && !IsColumn(IdKey) && !IsColumn(ChildrenIds);
  }

  function ParentRef(m: Msg): Option<Id> {
    Ref(Get(m, ParentId))
  }

  function ChildIds(m: Msg): seq<Json> {
    if ChildrenIds in m && m[ChildrenIds].List? then m[ChildrenIds].items else []
  }

  /** The stored messages whose parent link names `p`. */
  ghost function ChildrenOf(msgs: map<Id, Msg>, p: Id): set<Json> {
    set c | c in msgs && ParentRef(msgs[c]) == Some(p) :: Str(c)
  }

  ghost predicate ListsChildren(msgs: map<Id, Msg>, p: Id)
    requires p in msgs
  {
    Distinct(ChildIds(msgs[p])) && Elements(ChildIds(msgs[p])) == ChildrenOf(msgs, p)
  }

  /** Each message lists exactly the messages that name it as parent, once each. */
  ghost predicate DoublyLinked(msgs: map<Id, Msg>) {
    forall p :: p in msgs ==> ListsChildren(msgs, p)
  }

  /** `msgs` is the map rebuilt from the chat's rows; only the order of children is left open. */
  ghost predicate RebuiltFrom(msgs: map<Id, Msg>, rows: Rows, chatId: Id) {
    && msgs.Keys == RowIds(rows, chatId)
    && (forall id :: id in msgs ==>
          exists key :: IsRowOf(rows, chatId, id, key)
                        && msgs[id] == WithChildren(RowMsg(id, rows[key]), ChildIds(msgs[id])))
    && DoublyLinked(msgs)
  }

  /** Where all rows have their chat's prefix, each message shows the row under its composite key. */
  lemma RebuiltRow(msgs: map<Id, Msg>, rows: Rows, chatId: Id, id: Id)
    requires WellKeyed(rows) && RebuiltFrom(msgs, rows, chatId) && id in msgs
    ensures CompositeId(chatId, id) in rows
    ensures msgs[id] == WithChildren(RowMsg(id, rows[CompositeId(chatId, id)]), ChildIds(msgs[id]))
  {
    var key :| IsRowOf(rows, chatId, id, key) && msgs[id] == WithChildren(RowMsg(id, rows[key]), ChildIds(msgs[id]));
    CompositeIsInverse(chatId, key);
  }

  // ---- Counting children ----

  lemma ChildInOneList(msgs: map<Id, Msg>, p: Id, q: Id, child: Json)
    requires DoublyLinked(msgs) && p in msgs && q in msgs
    requires child in ChildIds(msgs[p]) && child in ChildIds(msgs[q])
    ensures p == q
  {
    assert child in Elements(ChildIds(msgs[p])) && child in Elements(ChildIds(msgs[q]));
    assert ListsChildren(msgs, p) && ListsChildren(msgs, q);
  }

  function TotalChildren(msgs: map<Id, Msg>, parents: seq<Id>): nat
    requires forall p :: p in parents ==> p in msgs
  {
    if parents == [] then 0
    else TotalChildren(msgs, parents[..|parents| - 1]) + |ChildIds(msgs[parents[|parents| - 1]])|
  }

  /** The messages whose parent is one of the given messages. */
  ghost function WithParentIn(msgs: map<Id, Msg>, parents: set<Id>): set<Json> {
    set c | c in msgs && ParentRef(msgs[c]).Some? && ParentRef(msgs[c]).value in parents :: Str(c)
  }

  /** The lists together hold each message with a stored parent once: nothing is lost or doubled. */
  lemma {:induction false} ListLengthsSum(msgs: map<Id, Msg>, parents: seq<Id>)
    requires DoublyLinked(msgs) && Distinct(parents)
    requires forall p :: p in parents ==> p in msgs
    ensures TotalChildren(msgs, parents) == |WithParentIn(msgs, Elements(parents))|
  {
    if parents == [] {
      assert WithParentIn(msgs, Elements(parents)) == {};
    } else {
      var front, last := parents[..|parents| - 1], parents[|parents| - 1];
      ListLengthsSum(msgs, front);
      assert parents == front + [last];
      ElementsOfConcat(front, [last]);
      assert last !in Elements(front);
      assert ListsChildren(msgs, last);
      DistinctLength(ChildIds(msgs[last]));
      assert Elements(parents) == Elements(front) + {last};
      OneMoreParent(msgs, Elements(front), last);
    }
  }

  lemma OneMoreParent(msgs: map<Id, Msg>, parents: set<Id>, p: Id)
    requires p !in parents
    ensures |WithParentIn(msgs, parents + {p})| == |WithParentIn(msgs, parents)| + |ChildrenOf(msgs, p)|
  {
    assert WithParentIn(msgs, parents + {p}) == WithParentIn(msgs, parents) + ChildrenOf(msgs, p);
    assert WithParentIn(msgs, parents) !! ChildrenOf(msgs, p);
  }

  // ---- The linking loop, seen as lists of children kept beside the dictionaries ----

  type Kids = map<Id, seq<Json>>

  function WithChildren(m: Msg, kids: seq<Json>): Msg {
    m[ChildrenIds := List(kids)]
  }

  /** While linking, a message has a list of children only once it has a child. */
  function Linked(base: map<Id, Msg>, kids: Kids): map<Id, Msg>
    requires kids.Keys == base.Keys
  {
    map id | id in base :: if kids[id] == [] then base[id] else WithChildren(base[id], kids[id])
  }

  ghost function KidSet(base: map<Id, Msg>, p: Id, done: set<Id>): set<Json> {
    set c | c in base && c in done && ParentRef(base[c]) == Some(p) :: Str(c)
  }

  /** `done` are the messages already handed to their parent. */
  ghost predicate Linking(base: map<Id, Msg>, kids: Kids, done: set<Id>) {
    && kids.Keys == base.Keys
    && forall p :: p in base ==> Distinct(kids[p]) && Elements(kids[p]) == KidSet(base, p, done)
  }

  /** Appending one message to its parent's list unless it is there already. */
  function Handed(msgs: map<Id, Msg>, id: Id): map<Id, Msg>
    requires id in msgs
  {
    var parent := ParentRef(msgs[id]);
    if parent.Some? && parent.value in msgs && Str(id) !in ChildIds(msgs[parent.value])
    then msgs[parent.value := WithChildren(msgs[parent.value], ChildIds(msgs[parent.value]) + [Str(id)])]
    else msgs
  }

  function NextKids(base: map<Id, Msg>, kids: Kids, id: Id): Kids
    requires id in base && kids.Keys == base.Keys
  {
    var parent := ParentRef(base[id]);
    if parent.Some? && parent.value in base then kids[parent.value := kids[parent.value] + [Str(id)]] else kids
  }

  lemma LinkOne(base: map<Id, Msg>, kids: Kids, left: set<Id>, id: Id)
    requires Linking(base, kids, base.Keys - left) && id in base && id in left
    requires forall x :: x in base ==> ChildrenIds !in base[x]
    ensures Linking(base, NextKids(base, kids, id), base.Keys - (left - {id}))
    ensures Handed(Linked(base, kids), id) == Linked(base, NextKids(base, kids, id))
  {
    var done := base.Keys - left;
    assert base.Keys - (left - {id}) == done + {id};
    var next := NextKids(base, kids, id);
    forall p | p in base ensures Distinct(next[p]) && Elements(next[p]) == KidSet(base, p, done + {id}) {
      if ParentRef(base[id]) == Some(p) {
        assert KidSet(base, p, done + {id}) == KidSet(base, p, done) + {Str(id)};
        assert Str(id) !in KidSet(base, p, done);
        ElementsOfConcat(kids[p], [Str(id)]);
        DistinctConcat(kids[p], [Str(id)]);
      } else {
        assert KidSet(base, p, done + {id}) == KidSet(base, p, done);
      }
    }
    var msgs := Linked(base, kids);
    assert ParentRef(msgs[id]) == ParentRef(base[id]);
    var parent := ParentRef(base[id]);
    if parent.Some? && parent.value in base {
      var p := parent.value;
      assert ChildIds(msgs[p]) == kids[p];
      assert Str(id) !in KidSet(base, p, done);
      assert Str(id) !in Elements(kids[p]);
      assert WithChildren(msgs[p], next[p]) == WithChildren(base[p], next[p]);
    }
  }

  /** The inner loop over the columns of one row. */
  method RowDict(id: Id, row: Row) returns (m: Msg)
    ensures m == RowMsg(id, row)
  {
    m := map[];
    for i := 0 to |COLUMNS|
      invariant m == map k | k in COLUMNS[..i] && Column(row, k) != Null :: Column(row, k)
    {
      assert COLUMNS[..i + 1] == COLUMNS[..i] + [COLUMNS[i]];
      if Column(row, COLUMNS[i]) != Null {
        m := m[COLUMNS[i] := Column(row, COLUMNS[i])];
      }
    }
    assert COLUMNS[..|COLUMNS|] == COLUMNS;
    m := m[IdKey := Str(id)];
    if Content !in m {
      m := m[Content := Str("")];
    }
  }

  /** The update branch: each field present in the data is assigned. */
  method UpdateExisting(row: Row, data: Msg, now: int) returns (r: Row)
    ensures r == UpdatedRow(row, data, now)
  {
    hide EffectiveParent, EffectiveModel, EffectiveStatusHistory;
    var role, parentId, content, output, modelId := UpdateText(row, data);
    var files, sources, embeds, done, statusHistory, error := UpdateAttachments(row, data);
    r := Row(row.chatId, row.userId, role, parentId, content, output, modelId, files, sources,
           embeds, done, statusHistory, error, row.createdAt, now);
  }

  /** The first five assignments. */
  method UpdateText(row: Row, data: Msg)
    returns (role: Json, parentId: Json, content: Json, output: Json, modelId: Json)
    ensures role == if Role in data then data[Role] else row.role
    ensures parentId == if ParentIdSnake in data then EffectiveParent(data) else row.parentId
    ensures content == if Content in data then data[Content] else row.content
    ensures output == if Output in data then data[Output] else row.output
    ensures modelId == if ModelIdSnake in data || Model in data then EffectiveModel(data) else row.modelId
  {
    role, parentId, content, output, modelId := row.role, row.parentId, row.content, row.output, row.modelId;
    if Role in data { role := data[Role]; }
    if ParentIdSnake in data { parentId := Or(Get(data, ParentIdSnake), Get(data, ParentId)); }
    if Content in data { content := data[Content]; }
    if Output in data { output := data[Output]; }
    if ModelIdSnake in data || Model in data { modelId := Or(Get(data, ModelIdSnake), Get(data, Model)); }
  }

  /** The other six. */
  method UpdateAttachments(row: Row, data: Msg)
    returns (files: Json, sources: Json, embeds: Json, done: Json, statusHistory: Json, error: Json)
    ensures files == if Files in data then data[Files] else row.files
    ensures sources == if Sources in data then data[Sources] else row.sources
    ensures embeds == if Embeds in data then data[Embeds] else row.embeds
    ensures done == if Done in data then data[Done] else row.done
    ensures statusHistory ==
            if StatusHistorySnake in data || StatusHistory in data
            then EffectiveStatusHistory(data) else row.statusHistory
    ensures error == if Error in data then data[Error] else row.error
  {
    files, sources, embeds, done := row.files, row.sources, row.embeds, row.done;
    statusHistory, error := row.statusHistory, row.error;
    if Files in data { files := data[Files]; }
    if Sources in data { sources := data[Sources]; }
    if Embeds in data { embeds := data[Embeds]; }
    if Done in data { done := data[Done]; }
    if StatusHistorySnake in data || StatusHistory in data {
      statusHistory := Or(Get(data, StatusHistorySnake), Get(data, StatusHistory));
    }
    if Error in data { error := data[Error]; }
  }

  class ChatMessageTable {
    var rows: Rows

    constructor ()
      ensures rows == map[]
    {
      rows := map[];
    }

    /** The answer says whether the database took the row; callers log a refusal and go on. */
    method UpsertMessage(messageId: Id, chatId: Id, userId: Id, data: Msg, now: int) returns (written: bool)
      modifies this
      ensures rows == Upserted(old(rows), messageId, chatId, userId, data, now)
      ensures written <==> Accepted(RowAfter(old(rows), CompositeId(chatId, messageId), chatId, userId, data, now))
      ensures !written ==> rows == old(rows)
    {
      var key := CompositeId(chatId, messageId);
      var row: Row;
      if key in rows {
        row := UpdateExisting(rows[key], data, now);
      } else {
        row := NewRow(chatId, userId, data, now);
      }
      written := Accepted(row);
      if written {
        rows := rows[key := row];
      }
    }

    method GetMessagesMapByChatId(chatId: Id) returns (r: Option<map<Id, Msg>>)
      ensures r.Some? <==> RowIds(rows, chatId) != {}
      ensures r.Some? ==> RebuiltFrom(r.value, rows, chatId)
    {
      var keys := set key | key in rows && rows[key].chatId == chatId;
      assert RowIds(rows, chatId) == set key | key in keys :: StripPrefix(chatId, key);
      if keys == {} {
        return None;
      }
      var base := BaseMap(chatId, keys);
      forall id | id in base ensures ChildrenIds !in base[id] {
        var key :| IsRowOf(rows, chatId, id, key) && base[id] == RowMsg(id, rows[key]);
        RowMsgFields(id, rows[key]);
      }
      var msgs := LinkChildren(base);
      ghost var key :| key in keys;
      assert StripPrefix(chatId, key) in RowIds(rows, chatId);
      return Some(msgs);
    }

    /** First loop: one dictionary per row. */
    method BaseMap(chatId: Id, keys: set<string>) returns (base: map<Id, Msg>)
      requires keys == set key | key in rows && rows[key].chatId == chatId
      ensures base.Keys == RowIds(rows, chatId)
      ensures forall id :: id in base ==>
                exists key :: IsRowOf(rows, chatId, id, key) && base[id] == RowMsg(id, rows[key])
    {
      hide RowMsg, StripPrefix;
      base := map[];
      var left := keys;
      while left != {}
        invariant left <= keys
        invariant base.Keys == set key | key in keys - left :: StripPrefix(chatId, key)
        invariant forall id :: id in base ==>
                    exists key :: IsRowOf(rows, chatId, id, key) && base[id] == RowMsg(id, rows[key])
        decreases left
      {
        var key :| key in left;
        var id := StripPrefix(chatId, key);
        ghost var before := base.Keys;
        var m := RowDict(id, rows[key]);
        assert IsRowOf(rows, chatId, id, key) && m == RowMsg(id, rows[key]);
        base := base[id := m];
        assert (set k | k in keys - (left - {key}) :: StripPrefix(chatId, k)) == before + {id} by {
          assert keys - (left - {key}) == (keys - left) + {key};
        }
        left := left - {key};
      }
      assert RowIds(rows, chatId) == set key | key in keys :: StripPrefix(chatId, key);
    }
  }

  /** One step of the second loop: append the message to its parent's list unless it is there. */
  method HandToParent(msgs: map<Id, Msg>, id: Id) returns (r: map<Id, Msg>)
    requires id in msgs
    ensures r == Handed(msgs, id)
  {
    r := msgs;
    var parent := ParentRef(msgs[id]);
    if parent.Some? && parent.value in msgs {
      var p := parent.value;
      if ChildrenIds !in msgs[p] {
        assert [] + [Str(id)] == [Str(id)];
        r := msgs[p := WithChildren(msgs[p], [Str(id)])];
      } else if Str(id) !in ChildIds(msgs[p]) {
        r := msgs[p := WithChildren(msgs[p], ChildIds(msgs[p]) + [Str(id)])];
      }
    }
  }

  /** Second and third loop: hand each message to its parent, then give the others an empty list. */
  method LinkChildren(base: map<Id, Msg>) returns (msgs: map<Id, Msg>)
    requires forall id :: id in base ==> ChildrenIds !in base[id]
    ensures msgs.Keys == base.Keys
    ensures forall id :: id in msgs ==> msgs[id] == WithChildren(base[id], ChildIds(msgs[id]))
    ensures DoublyLinked(msgs)
  {
    msgs := base;
    ghost var kids: Kids := map id | id in base :: [];
    var left := base.Keys;
    while left != {}
      invariant left <= base.Keys
      invariant Linking(base, kids, base.Keys - left)
      invariant msgs == Linked(base, kids)
      decreases left
    {
      var id :| id in left;
      LinkOne(base, kids, left, id);
      msgs := HandToParent(msgs, id);
      kids := NextKids(base, kids, id);
      left := left - {id};
    }
    assert base.Keys - left == base.Keys;
    LinkingDone(base, kids);
    msgs := Filled(msgs);
  }

  /** The third loop: a message without a list gets an empty one. */
  function Filled(msgs: map<Id, Msg>): map<Id, Msg> {
    map id | id in msgs :: if ChildrenIds in msgs[id] then msgs[id] else WithChildren(msgs[id], [])
  }

  lemma LinkingDone(base: map<Id, Msg>, kids: Kids)
    requires Linking(base, kids, base.Keys)
    requires forall id :: id in base ==> ChildrenIds !in base[id]
    ensures var msgs := Filled(Linked(base, kids));
            && msgs.Keys == base.Keys
            && (forall id :: id in msgs ==> msgs[id] == WithChildren(base[id], ChildIds(msgs[id])))
            && DoublyLinked(msgs)
  {
    var msgs := Filled(Linked(base, kids));
    forall id | id in base ensures msgs[id] == WithChildren(base[id], kids[id]) { }
    forall p | p in msgs ensures ListsChildren(msgs, p) {
      assert ChildIds(msgs[p]) == kids[p];
      forall id | id in base ensures ParentRef(msgs[id]) == ParentRef(base[id]) { }
      assert ChildrenOf(msgs, p) == KidSet(base, p, base.Keys);
    }
  }
}
