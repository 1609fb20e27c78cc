/**
 * Channel membership (models/channels.py): rows of a table without a uniqueness constraint,
 * kept free of repetition by the operations, and the direct-message lookup that compares
 * member sets by counting rows.
 */
module Channels {
  import opened Basics

  type Id = string

  datatype Member = Member(channelId: Id, userId: Id)

  /** The channel_member rows, in no particular order. */
  type Rows = seq<Member>

  /** The users of a channel's rows, one entry per row. */
  function UsersIn(rows: Rows, channelId: Id): seq<Id> {
    if rows == [] then []
    else
      var front, last := UsersIn(rows[..|rows| - 1], channelId), rows[|rows| - 1];
      if last.channelId == channelId then front + [last.userId] else front
  }

  /** At most one row for each channel and user. */
  ghost predicate NoRepetition(rows: Rows) {
    Distinct(rows)
  }

  function MemberSet(rows: Rows, channelId: Id): set<Id> {
    Elements(UsersIn(rows, channelId))
  }

  // ---- The lookup's two counts ----

  /** How many entries of the list are among the wanted users: the sum over the case expression. */
  function CountIn(users: seq<Id>, wanted: set<Id>): nat {
    if users == [] then 0
    else CountIn(users[..|users| - 1], wanted) + if users[|users| - 1] in wanted then 1 else 0
  }

  /** Grouping yields only channels that have rows; both counts must equal the number of wanted users. */
  predicate CountsMatch(rows: Rows, channelId: Id, wanted: set<Id>) {
    var users := UsersIn(rows, channelId);
    users != [] && |users| == |wanted| && CountIn(users, wanted) == |wanted|
  }

  lemma {:induction false} CountInBounds(users: seq<Id>, wanted: set<Id>)
    ensures CountIn(users, wanted) <= |users|
    ensures CountIn(users, wanted) == |users| <==> forall u :: u in users ==> u in wanted
  {
    if users != [] {
      var front, last := users[..|users| - 1], users[|users| - 1];
      CountInBounds(front, wanted);
      assert users == front + [last];
    }
  }

  lemma {:induction false} UsersInElement(rows: Rows, channelId: Id, userId: Id)
    ensures userId in UsersIn(rows, channelId) <==> Member(channelId, userId) in rows
  {
    if rows != [] {
      var front, last := rows[..|rows| - 1], rows[|rows| - 1];
      UsersInElement(front, channelId, userId);
      assert rows == front + [last];
      assert last == Member(last.channelId, last.userId);
    }
  }

  /** Without repeated rows a channel's users are listed once each. */
  lemma {:induction false} UsersInDistinct(rows: Rows, channelId: Id)
    requires NoRepetition(rows)
    ensures Distinct(UsersIn(rows, channelId))
  {
    if rows != [] {
      var front, last := rows[..|rows| - 1], rows[|rows| - 1];
      assert rows == front + [last];
      UsersInDistinct(front, channelId);
      if last.channelId == channelId {
        UsersInElement(front, channelId, last.userId);
        assert last !in front;
        DistinctConcat(UsersIn(front, channelId), [last.userId]);
      }
    }
  }

  /** For a channel without repeated users the counts hold exactly when its member set is the wanted one. */
  lemma CountsMatchIff(rows: Rows, channelId: Id, wanted: set<Id>)
    requires Distinct(UsersIn(rows, channelId))
    ensures CountsMatch(rows, channelId, wanted) <==> wanted != {} && MemberSet(rows, channelId) == wanted
  {
    var users := UsersIn(rows, channelId);
    DistinctLength(users);
    CountInBounds(users, wanted);
    if CountsMatch(rows, channelId, wanted) {
      assert Elements(users) <= wanted;
      SubsetOfSameSize(Elements(users), wanted);
    }
    if wanted != {} && Elements(users) == wanted {
      assert forall u :: u in users ==> u in Elements(users);
    }
  }

  /** Counting means equality for a channel, whoever is wanted, exactly when none of its users is repeated. */
  lemma CountingIsEqualityIff(rows: Rows, channelId: Id)
    ensures (forall wanted: set<Id> :: wanted != {} ==>
               (CountsMatch(rows, channelId, wanted) <==> MemberSet(rows, channelId) == wanted)) <==>
            Distinct(UsersIn(rows, channelId))
  {
    var users := UsersIn(rows, channelId);
    if Distinct(users) {
      forall wanted: set<Id> | wanted != {}
        ensures CountsMatch(rows, channelId, wanted) <==> MemberSet(rows, channelId) == wanted
      {
        CountsMatchIff(rows, channelId, wanted);
      }
    } else {
      RepetitionLosesLength(users);
      assert users[0] in Elements(users);
      assert !CountsMatch(rows, channelId, Elements(users));
    }
  }

  /** A list with a repetition is longer than the set of its values. */
  lemma {:induction false} RepetitionLosesLength(s: seq<Id>)
    ensures |Elements(s)| <= |s|
    ensures !Distinct(s) ==> |Elements(s)| < |s|
  {
    if s != [] {
      var front, last := s[..|s| - 1], s[|s| - 1];
      assert s == front + [last];
      RepetitionLosesLength(front);
      Append(front, last);
    }
  }

  /** Also with repeated rows, a match has only wanted users. */
  lemma OnlyWanted(rows: Rows, channelId: Id, wanted: set<Id>)
    requires CountsMatch(rows, channelId, wanted)
    ensures wanted != {} && MemberSet(rows, channelId) <= wanted
  {
    CountInBounds(UsersIn(rows, channelId), wanted);
  }

  lemma SubsetOfSameSize<T>(a: set<T>, b: set<T>)
    requires a <= b && |a| == |b|
    ensures a == b
  {
    assert b == a + (b - a);
    assert |b| == |a| + |b - a|;
  }

  /** A repeated row makes the counts match a channel that lacks a wanted user. */
  lemma RepetitionFoolsCounts(c: Id, a: Id, b: Id)
    requires a != b
    ensures var rows := [Member(c, a), Member(c, a)];
            CountsMatch(rows, c, {a, b}) && MemberSet(rows, c) != {a, b}
  {
    var rows := [Member(c, a), Member(c, a)];
    assert rows[..1] == [Member(c, a)];
    assert UsersIn(rows[..1], c) == [a];
    assert UsersIn(rows, c) == [a, a];
    assert [a, a][..1] == [a];
    assert CountIn([a], {a, b}) == 1;
    assert b !in [a, a];
  }

  // ---- Operations ----

  /** The inviter, the invited users, and the users of the invited groups. */
  function Collected(invitedBy: Id, userIds: seq<Id>, groups: seq<seq<Id>>): set<Id> {
    {invitedBy} + Elements(userIds) + InAny(groups)
  }

  function InAny(groups: seq<seq<Id>>): set<Id> {
    if groups == [] then {} else InAny(groups[..|groups| - 1]) + Elements(groups[|groups| - 1])
  }

  lemma {:induction false} InAnyIff(groups: seq<seq<Id>>, x: Id)
    ensures x in InAny(groups) <==> exists g :: g in groups && x in g
  {
    if groups != [] {
      var front, last := groups[..|groups| - 1], groups[|groups| - 1];
      InAnyIff(front, x);
      assert groups == front + [last];
    }
  }

  /** The inviter is among the collected users, and so is every named user and every member of a named group. */
  lemma CollectedIff(invitedBy: Id, userIds: seq<Id>, groups: seq<seq<Id>>)
    ensures forall x :: x in Collected(invitedBy, userIds, groups) <==>
              x == invitedBy || x in userIds || exists g :: g in groups && x in g
  {
    forall x ensures x in InAny(groups) <==> exists g :: g in groups && x in g { InAnyIff(groups, x); }
  }

  class ChannelTable {
    var members: Rows
    /** Channel ids and types. */
    var channels: map<Id, string>

    constructor ()
      ensures members == [] && channels == map[]
    {
      members, channels := [], map[];
    }

    /** `groups` are the member lists of the invited groups. */
    method CollectUniqueUserIds(invitedBy: Id, userIds: seq<Id>, groups: seq<seq<Id>>) returns (users: set<Id>)
      ensures users == Collected(invitedBy, userIds, groups)
      ensures forall x :: x in users <==> x == invitedBy || x in userIds || exists g :: g in groups && x in g
    {
      CollectedIff(invitedBy, userIds, groups);
      users := Elements(userIds);
      users := users + {invitedBy};
      for i := 0 to |groups|
        invariant users == {invitedBy} + Elements(userIds) + InAny(groups[..i])
      {
        assert groups[..i + 1][..i] == groups[..i];
        users := users + Elements(groups[i]);
      }
      assert groups[..|groups|] == groups;
    }

    method AddMemberships(channelId: Id, users: set<Id>)
      requires NoRepetition(members) && users !! MemberSet(members, channelId)
      modifies this`members
      ensures NoRepetition(members)
      ensures MemberSet(members, channelId) == old(MemberSet(members, channelId)) + users
      ensures forall c :: c != channelId ==> MemberSet(members, c) == old(MemberSet(members, c))
    {
      hide UsersIn;
      var left := users;
      ghost var before := members;
      while left != {}
        invariant left <= users && NoRepetition(members)
        invariant MemberSet(members, channelId) == MemberSet(before, channelId) + (users - left)
        invariant forall c :: c != channelId ==> MemberSet(members, c) == MemberSet(before, c)
        decreases left
      {
        var u :| u in left;
        AddOne(members, channelId, u);
        members := members + [Member(channelId, u)];
        left := left - {u};
      }
    }

    method InsertNewChannel(channelId: Id, kind: string, invitedBy: Id, userIds: seq<Id>, groups: seq<seq<Id>>)
      requires NoRepetition(members) && channelId !in channels && MemberSet(members, channelId) == {}
      modifies this
      ensures NoRepetition(members) && channels == old(channels)[channelId := kind]
      ensures MemberSet(members, channelId) ==
              if kind == "group" || kind == "dm" then Collected(invitedBy, userIds, groups) else {}
      ensures forall x :: Member(channelId, x) in members <==>
                (kind == "group" || kind == "dm")
                && (x == invitedBy || x in userIds || exists g :: g in groups && x in g)
      ensures forall c :: c != channelId ==> MemberSet(members, c) == old(MemberSet(members, c))
    {
      if kind == "group" || kind == "dm" {
        var users := CollectUniqueUserIds(invitedBy, userIds, groups);
        AddMemberships(channelId, users);
      }
      channels := channels[channelId := kind];
      MembersAre(members, channelId);
      CollectedIff(invitedBy, userIds, groups);
    }

    method AddMembersToChannel(channelId: Id, invitedBy: Id, userIds: seq<Id>, groups: seq<seq<Id>>)
      returns (added: set<Id>)
      requires NoRepetition(members)
      modifies this`members
      ensures NoRepetition(members)
      ensures added == Collected(invitedBy, userIds, groups) - old(MemberSet(members, channelId))
      ensures MemberSet(members, channelId) ==
              old(MemberSet(members, channelId)) + Collected(invitedBy, userIds, groups)
      ensures forall x :: Member(channelId, x) in members <==>
                || Member(channelId, x) in old(members)
                || x == invitedBy || x in userIds || exists g :: g in groups && x in g
      ensures forall c :: c != channelId ==> MemberSet(members, c) == old(MemberSet(members, c))
    {
      hide UsersIn, Collected;
      var requested := CollectUniqueUserIds(invitedBy, userIds, groups);
      ghost var before := MemberSet(members, channelId);
      added := requested - MemberSet(members, channelId);
      assert before + added == before + requested;
      if added != {} {
        AddMemberships(channelId, added);
      } else {
        assert before + added == before;
      }
      MembersAre(members, channelId);
      MembersAre(old(members), channelId);
      CollectedIff(invitedBy, userIds, groups);
    }

    method JoinChannel(channelId: Id, userId: Id)
      requires NoRepetition(members)
      modifies this`members
      ensures NoRepetition(members)
      ensures MemberSet(members, channelId) == old(MemberSet(members, channelId)) + {userId}
      ensures forall c :: c != channelId ==> MemberSet(members, c) == old(MemberSet(members, c))
    {
      hide UsersIn;
      UsersInElement(members, channelId, userId);
      assert userId in MemberSet(members, channelId) <==> Member(channelId, userId) in members;
      if Member(channelId, userId) !in members {
        AddMemberships(channelId, {userId});
      }
    }

    /** A bulk delete; the count is the number of rows that went. */
    method RemoveMembersFromChannel(channelId: Id, userIds: seq<Id>) returns (count: nat)
      requires NoRepetition(members)
      modifies this`members
      ensures NoRepetition(members)
      ensures MemberSet(members, channelId) == old(MemberSet(members, channelId)) - Elements(userIds)
      ensures forall c :: c != channelId ==> MemberSet(members, c) == old(MemberSet(members, c))
      ensures count == |old(members)| - |members|
    {
      hide UsersIn;
      RemovedRows(members, channelId, userIds);
      ghost var before := members;
      var rest := Removed(members, channelId, userIds);
      count := |members| - |rest|;
      members := rest;
      forall c ensures MemberSet(rest, c) == MemberSet(before, c) - if c == channelId then Elements(userIds) else {} {
        RemovedMembers(before, channelId, userIds, c);
      }
    }

    /** The first direct-message channel whose counts match, in some order of the channels. */
    method GetDmChannelByUserIds(userIds: seq<Id>, order: seq<Id>) returns (found: Option<Id>)
      requires Elements(order) == channels.Keys
      ensures found.Some? ==> found.value in channels && channels[found.value] == "dm"
                              && MemberSet(members, found.value) <= Elements(userIds)
      ensures found.Some? && Distinct(UsersIn(members, found.value)) ==>
                MemberSet(members, found.value) == Elements(userIds)
      ensures userIds == [] ==> found.None?
      ensures found.None? && userIds != [] ==>
                forall c :: c in channels && channels[c] == "dm" && Distinct(UsersIn(members, c)) ==>
                              MemberSet(members, c) != Elements(userIds)
    {
      hide UsersIn, CountsMatch, MemberSet;
      var wanted := Elements(userIds);
      for i := 0 to |order|
        invariant forall j :: 0 <= j < i && channels[order[j]] == "dm" ==> !CountsMatch(members, order[j], wanted)
        invariant forall j :: 0 <= j < |order| ==> order[j] in channels
      {
        if channels[order[i]] == "dm" && CountsMatch(members, order[i], wanted) {
          OnlyWanted(members, order[i], wanted);
          if Distinct(UsersIn(members, order[i])) {
            CountsMatchIff(members, order[i], wanted);
          }
          return Some(order[i]);
        }
      }
      forall c | c in channels && channels[c] == "dm" && Distinct(UsersIn(members, c)) && userIds != []
        ensures MemberSet(members, c) != wanted
      {
        assert c in Elements(order);
        CountsMatchIff(members, c, wanted);
        assert userIds[0] in wanted;
      }
      return None;
    }
  }

  function Removed(rows: Rows, channelId: Id, userIds: seq<Id>): Rows {
    if rows == [] then []
    else
      var front, last := Removed(rows[..|rows| - 1], channelId, userIds), rows[|rows| - 1];
      if last.channelId == channelId && last.userId in userIds then front else front + [last]
  }

  lemma {:induction false} RemovedRows(rows: Rows, channelId: Id, userIds: seq<Id>)
    ensures |Removed(rows, channelId, userIds)| <= |rows|
    ensures forall m :: m in Removed(rows, channelId, userIds) <==>
                        m in rows && !(m.channelId == channelId && m.userId in userIds)
    ensures Distinct(rows) ==> Distinct(Removed(rows, channelId, userIds))
  {
    if rows != [] {
      var front, last := rows[..|rows| - 1], rows[|rows| - 1];
      assert rows == front + [last];
      RemovedRows(front, channelId, userIds);
      if Distinct(rows) {
        assert last !in front;
        assert forall i, j :: 0 <= i < j < |front| ==> rows[i] != rows[j];
      }
    }
  }

  lemma MembersAre(rows: Rows, channelId: Id)
    ensures forall x :: x in MemberSet(rows, channelId) <==> Member(channelId, x) in rows
  {
    forall x ensures x in MemberSet(rows, channelId) <==> Member(channelId, x) in rows {
      UsersInElement(rows, channelId, x);
    }
  }

  lemma RemovedMembers(rows: Rows, channelId: Id, userIds: seq<Id>, c: Id)
    ensures MemberSet(Removed(rows, channelId, userIds), c) ==
            MemberSet(rows, c) - if c == channelId then Elements(userIds) else {}
  {
    var rest := Removed(rows, channelId, userIds);
    RemovedRows(rows, channelId, userIds);
    forall u ensures u in MemberSet(rest, c) <==> u in MemberSet(rows, c) && !(c == channelId && u in userIds) {
      UsersInElement(rest, c, u);
      UsersInElement(rows, c, u);
    }
  }

  lemma AddOne(rows: Rows, channelId: Id, u: Id)
    requires NoRepetition(rows) && u !in MemberSet(rows, channelId)
    ensures NoRepetition(rows + [Member(channelId, u)])
    ensures MemberSet(rows + [Member(channelId, u)], channelId) == MemberSet(rows, channelId) + {u}
    ensures forall c :: c != channelId ==> MemberSet(rows + [Member(channelId, u)], c) == MemberSet(rows, c)
  {
    var more := rows + [Member(channelId, u)];
    UsersInElement(rows, channelId, u);
    assert more[..|more| - 1] == rows;
    assert forall c :: UsersIn(more, c) == if c == channelId then UsersIn(rows, c) + [u] else UsersIn(rows, c);
    assert Member(channelId, u) !in Elements(rows);
    hide UsersIn, Elements, Distinct;
    Append(UsersIn(rows, channelId), u);
    Append(rows, Member(channelId, u));
  }

  // ---- Runs in which processes read first and insert later ----

  type Call = nat

  /**
   * A joining or adding call reads the channel's rows, for the users it is to add, and inserts
   * the missing ones in a later step; removals are one statement.
   */
  datatype Op =
    | Read(call: Call, channelId: Id, users: seq<Id>)
    | Insert(call: Call)
    | Remove(channelId: Id, userIds: seq<Id>)

  /** `pending` holds the rows that calls have found missing. */
  datatype World = World(rows: Rows, pending: map<Call, Rows>)

  const START := World([], map[])

  function MissingRows(rows: Rows, channelId: Id, users: seq<Id>): Rows {
    if users == [] then []
    else
      var front, last := MissingRows(rows, channelId, users[..|users| - 1]), Member(channelId, users[|users| - 1]);
      if last in rows || last in front then front else front + [last]
  }

  /** A call finds exactly the requested users of the channel missing that have no row. */
  lemma {:induction false} MissingRowsIff(rows: Rows, channelId: Id, users: seq<Id>, m: Member)
    ensures m in MissingRows(rows, channelId, users) <==> m.channelId == channelId && m.userId in users && m !in rows
  {
    if users != [] {
      var front, last := users[..|users| - 1], users[|users| - 1];
      MissingRowsIff(rows, channelId, front, m);
      assert users == front + [last];
      assert m == Member(channelId, last) <==> m.channelId == channelId && m.userId == last;
    }
  }

  lemma {:induction false} MissingRowsDistinct(rows: Rows, channelId: Id, users: seq<Id>)
    ensures Distinct(MissingRows(rows, channelId, users))
    ensures forall m :: m in MissingRows(rows, channelId, users) ==> m !in rows
  {
    if users != [] {
      var front, last := MissingRows(rows, channelId, users[..|users| - 1]), Member(channelId, users[|users| - 1]);
      MissingRowsDistinct(rows, channelId, users[..|users| - 1]);
      Append(front, last);
    }
  }

  function Next(w: World, op: Op): World {
    match op
    case Read(call, channelId, users) => w.(pending := w.pending[call := MissingRows(w.rows, channelId, users)])
    case Insert(call) =>
      if call in w.pending then World(w.rows + w.pending[call], w.pending - {call}) else w
    case Remove(channelId, userIds) => w.(rows := Removed(w.rows, channelId, userIds))
  }

  function Run(ops: seq<Op>): World {
    if ops == [] then START else Next(Run(ops[..|ops| - 1]), ops[|ops| - 1])
  }

  /** What an insertion adds is still missing. */
  ghost predicate Fresh(w: World, op: Op) {
    op.Insert? && op.call in w.pending ==> forall m :: m in w.pending[op.call] ==> m !in w.rows
  }

  ghost predicate AllFresh(ops: seq<Op>) {
    ops != [] ==> AllFresh(ops[..|ops| - 1]) && Fresh(Run(ops[..|ops| - 1]), ops[|ops| - 1])
  }

  ghost predicate UniqueThroughout(ops: seq<Op>) {
    NoRepetition(Run(ops).rows) && (ops != [] ==> UniqueThroughout(ops[..|ops| - 1]))
  }

  ghost predicate PendingDistinct(w: World) {
    forall call :: call in w.pending ==> Distinct(w.pending[call])
  }

  lemma {:induction false} RunPendingDistinct(ops: seq<Op>)
    ensures PendingDistinct(Run(ops))
  {
    if ops != [] {
      var last := ops[|ops| - 1];
      RunPendingDistinct(ops[..|ops| - 1]);
      if last.Read? {
        MissingRowsDistinct(Run(ops[..|ops| - 1]).rows, last.channelId, last.users);
      }
    }
  }

  lemma NextUniqueIff(w: World, op: Op)
    requires NoRepetition(w.rows) && PendingDistinct(w)
    ensures NoRepetition(Next(w, op).rows) <==> Fresh(w, op)
  {
    if op.Remove? {
      RemovedRows(w.rows, op.channelId, op.userIds);
    }
    if op.Insert? && op.call in w.pending {
      var rows, more := w.rows, w.pending[op.call];
      if Fresh(w, op) {
        DistinctConcat(rows, more);
      } else {
        var m :| m in more && m in rows;
        var i :| 0 <= i < |rows| && rows[i] == m;
        var j :| 0 <= j < |more| && more[j] == m;
        assert (rows + more)[i] == (rows + more)[|rows| + j];
      }
    }
  }

  /** No membership is ever repeated in a run exactly when every insertion adds rows that are still missing. */
  lemma {:induction false} RunUniqueIff(ops: seq<Op>)
    ensures UniqueThroughout(ops) <==> AllFresh(ops)
  {
    if ops != [] {
      var front, last := ops[..|ops| - 1], ops[|ops| - 1];
      RunUniqueIff(front);
      RunPendingDistinct(front);
      if AllFresh(front) {
        NextUniqueIff(Run(front), last);
      }
    }
  }

  /** After a fresh run the counts of every channel mean equality with its member set. */
  lemma FreshRunCountsRight(ops: seq<Op>, channelId: Id, wanted: set<Id>)
    requires AllFresh(ops)
    ensures CountsMatch(Run(ops).rows, channelId, wanted) <==>
            wanted != {} && MemberSet(Run(ops).rows, channelId) == wanted
  {
    RunUniqueIff(ops);
    UsersInDistinct(Run(ops).rows, channelId);
    CountsMatchIff(Run(ops).rows, channelId, wanted);
  }

  /** Two concurrent joins of one user leave that user's row twice. */
  lemma TwoJoinsRepeat(c: Id, u: Id)
    ensures Run([Read(1, c, [u]), Read(2, c, [u]), Insert(1), Insert(2)]).rows == [Member(c, u), Member(c, u)]
  {
    var ops: seq<Op> := [Read(1, c, [u]), Read(2, c, [u]), Insert(1), Insert(2)];
    assert ops[..4] == ops && ops[..3][..2] == ops[..2] && ops[..2][..1] == ops[..1] && ops[..1][..0] == [];
    assert [u][..0] == [];
    assert MissingRows([], c, [u]) == [Member(c, u)];
    assert Run(ops[..1]) == World([], map[1 := [Member(c, u)]]);
    assert Run(ops[..2]).pending[2] == [Member(c, u)];
    assert Run(ops[..3]).rows == [Member(c, u)];
  }
}
