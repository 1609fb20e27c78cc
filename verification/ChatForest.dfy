/**
 * What the endpoint's turns keep: the embedded history stays a forest in which parents and
 * children name each other, and the table of rows keeps agreeing with it.
 */
module ChatForest {
  import opened Basics
  import opened Forest
  import opened ChatMessages
  import opened Chats
  import opened ChatEndpoint

  // ---- The links of a history, without the other fields ----

  datatype Links = Links(parent: Option<Id>, kids: seq<Json>)

  type Shape = map<Id, Links>

  function LinksOf(m: Msg): Links {
    Links(ParentRef(m), ChildIds(m))
  }

  function ShapeOf(msgs: map<Id, Msg>): Shape {
    map id | id in msgs :: LinksOf(msgs[id])
  }

  function Up(s: Shape): Parents {
    map id | id in s :: s[id].parent
  }

  /** The ids whose parent is `p`. */
  ghost function KidsOf(up: Parents, p: Id): set<Json> {
    set c | c in up && up[c] == Some(p) :: Str(c)
  }

  lemma KidsAfterAdding(up: Parents, c: Id, parent: Option<Id>, p: Id)
    requires c !in up
    ensures KidsOf(up[c := parent], p) == KidsOf(up, p) + if parent == Some(p) then {Str(c)} else {}
  {
  }

  function StrSet(ids: seq<Id>): set<Json> {
    Elements(Strs(ids))
  }

  /**
   * A doubly linked forest, except that `u` may also list some messages that are not stored
   * yet: the answers of the turn being saved.
   */
  ghost predicate Tree(s: Shape, u: Option<Id>, answers: set<Json>) {
    Acyclic(Up(s)) && forall p :: p in s ==> Lists(s, u, answers, p)
  }

  /** `p` lists its stored children once each, and those still to come if it is `u`. */
  ghost predicate Lists(s: Shape, u: Option<Id>, answers: set<Json>, p: Id)
    requires p in s
  {
    Distinct(s[p].kids) && Elements(s[p].kids) == KidsOf(Up(s), p) + if u == Some(p) then answers else {}
  }

  ghost predicate NoOneRefersTo(s: Shape, id: Id) {
    forall m :: m in s ==> s[m].parent != Some(id)
  }

  lemma DoublyLinkedIsTree(msgs: map<Id, Msg>)
    ensures DoublyLinked(msgs) && Acyclic(MessageParents(msgs)) <==> Tree(ShapeOf(msgs), None, {})
  {
    var s := ShapeOf(msgs);
    assert Up(s) == MessageParents(msgs);
    forall p ensures KidsOf(Up(s), p) == ChildrenOf(msgs, p) { }
    if DoublyLinked(msgs) {
      forall p | p in s ensures Lists(s, None, {}, p) { assert ListsChildren(msgs, p); }
    }
    if Tree(s, None, {}) {
      forall p | p in msgs ensures ListsChildren(msgs, p) { assert p in s && Lists(s, None, {}, p); }
    }
  }

  // ---- Answers ----

  /** Placeholders under `u`, whatever was stored under their ids. */
  function WithAnswers(s: Shape, u: Option<Id>, answers: seq<Id>): Shape {
    if answers == [] then s
    else WithAnswers(s, u, answers[..|answers| - 1])[answers[|answers| - 1] := Links(u, [])]
  }

  lemma {:induction false} WithAnswersAt(s: Shape, u: Option<Id>, answers: seq<Id>)
    ensures var t := WithAnswers(s, u, answers);
            && t.Keys == s.Keys + Elements(answers)
            && (forall id :: id in s && id !in answers ==> t[id] == s[id])
            && (forall a :: a in answers ==> t[a] == Links(u, []))
  {
    if answers != [] {
      var front, last := answers[..|answers| - 1], answers[|answers| - 1];
      WithAnswersAt(s, u, front);
      assert answers == front + [last];
    }
  }

  lemma AddAnswer(s: Shape, u: Option<Id>, answers: set<Json>, a: Id)
    requires Tree(s, u, answers)
    requires a !in s && NoOneRefersTo(s, a) && u != Some(a) && Str(a) in answers
    ensures Tree(s[a := Links(u, [])], u, answers)
  {
    var t := s[a := Links(u, [])];
    assert Up(t) == Up(s)[a := u];
    AddLeafKeepsAcyclic(Up(s), a, u);
    forall p | p in t ensures Lists(t, u, answers, p) {
      KidsAfterAdding(Up(s), a, u, p);
      assert p != a ==> Lists(s, u, answers, p);
      if p == a {
        assert KidsOf(Up(s), a) == {};
      }
    }
  }

  lemma {:induction false} AddAnswers(s: Shape, u: Option<Id>, answers: set<Json>, ids: seq<Id>)
    requires Tree(s, u, answers) && Distinct(ids)
    requires forall a :: a in ids ==> a !in s && NoOneRefersTo(s, a) && u != Some(a) && Str(a) in answers
    ensures Tree(WithAnswers(s, u, ids), u, answers)
  {
    if ids != [] {
      var front, last := ids[..|ids| - 1], ids[|ids| - 1];
      assert ids == front + [last];
      AddAnswers(s, u, answers, front);
      WithAnswersAt(s, u, front);
      AddAnswer(WithAnswers(s, u, front), u, answers, last);
    }
  }

  lemma StrSetIff(ids: seq<Id>, j: Json)
    ensures j in StrSet(ids) <==> j.Str? && j.s in ids
  {
    if j.Str? && j.s in ids {
      var i :| 0 <= i < |ids| && ids[i] == j.s;
      assert Strs(ids)[i] == j;
    }
    if j in StrSet(ids) {
      var i :| 0 <= i < |ids| && Strs(ids)[i] == j;
      assert ids[i] == j.s;
    }
  }

  /** Once the answers that `u` lists are stored under it, nothing is pending. */
  lemma AnswersStored(s: Shape, u: Option<Id>, ids: seq<Id>)
    requires Tree(s, u, StrSet(ids))
    requires forall a :: a in ids ==> a in s && s[a].parent == u
    ensures Tree(s, None, {})
  {
    if u.Some? {
      forall j | j in StrSet(ids) ensures j in KidsOf(Up(s), u.value) { StrSetIff(ids, j); }
    }
  }

  lemma {:induction false} AppendMissingAdds(childIds: seq<Json>, ids: seq<Id>)
    ensures Distinct(AppendMissing(childIds, ids)) <==> Distinct(childIds)
    ensures Elements(AppendMissing(childIds, ids)) == Elements(childIds) + StrSet(ids)
    decreases |ids|
  {
    if ids == [] {
      assert Strs(ids) == [];
    } else {
      var front, last := ids[..|ids| - 1], Str(ids[|ids| - 1]);
      AppendMissingAdds(childIds, front);
      assert Strs(ids) == Strs(front) + [last];
      var r := AppendMissing(childIds, front);
      hide Distinct, Elements, AppendMissing;
      Append(Strs(front), last);
      Append(r, last);
      InElements(r);
      assert AppendMissing(childIds, ids) == if last in r then r else r + [last] by { LastMissing(childIds, ids); }
      if last !in r {
        AppendDistinct(r, last);
      }
    }
  }

  lemma LastMissing(childIds: seq<Json>, ids: seq<Id>)
    requires ids != []
    ensures var r, last := AppendMissing(childIds, ids[..|ids| - 1]), Str(ids[|ids| - 1]);
            AppendMissing(childIds, ids) == if last in r then r else r + [last]
  {
  }

  lemma AppendDistinct(s: seq<Json>, x: Json)
    requires x !in s
    ensures Distinct(s + [x]) <==> Distinct(s)
  {
    InElements(s);
    Append(s, x);
    if Distinct(s + [x]) {
      assert forall i :: 0 <= i < |s| ==> s[i] == (s + [x])[i];
    }
  }

  // ---- The user message ----

  /** The links once `g` lists `u` as a child. */
  function WithLink(s: Shape, u: Id, g: Option<Id>): Shape {
    if g.Some? && g.value in s && Str(u) !in s[g.value].kids
    then s[g.value := Links(s[g.value].parent, s[g.value].kids + [Str(u)])]
    else s
  }

  /** The links once a user message with links `user` is saved, linked from `g` and given its answers. */
  function WithUser(s: Shape, u: Id, user: Links, g: Option<Id>, answers: seq<Id>): Shape {
    var linked := WithLink(s[u := user], u, g);
    linked[u := Links(linked[u].parent, AppendMissing(linked[u].kids, answers))]
  }

  lemma ParentsWithUser(s: Shape, u: Id, user: Links, g: Option<Id>, answers: seq<Id>)
    ensures var t := WithUser(s, u, user, g, answers);
            && t.Keys == s.Keys + {u} && t[u].parent == user.parent
            && forall m :: m in s && m != u ==> t[m].parent == s[m].parent
  {
  }

  lemma UpWithUser(s: Shape, u: Id, user: Links, g: Option<Id>, answers: seq<Id>)
    ensures Up(WithUser(s, u, user, g, answers)) == Up(s)[u := user.parent]
  {
    ParentsWithUser(s, u, user, g, answers);
    hide WithUser;
  }

  /** What the endpoint sees to: the message is linked from the parent that it names, or keeps the one it had. */
  ghost predicate LinkedFrom(s: Shape, u: Id, user: Links, g: Option<Id>) {
    if g.Some? then user.parent == g else user.parent == None || (u in s && user.parent == s[u].parent)
  }

  /**
   * A message fits a forest at its new place: it is none of the answers and not under one; it
   * does not leave a stored parent; it is not below itself; and it lists its stored children
   * once each, and besides them at most the answers.
   */
  ghost predicate Fits(s: Shape, u: Id, user: Links, answers: seq<Id>) {
    && u !in answers
    && (user.parent.Some? ==> user.parent.value !in answers)
    && (u in s && s[u].parent.Some? && s[u].parent.value in s ==> user.parent == s[u].parent)
    && (user.parent.Some? ==> user.parent.value != u && !Below(Up(s), user.parent.value, u))
    && Distinct(user.kids)
    && KidsOf(Up(s), u) <= Elements(user.kids) <= KidsOf(Up(s), u) + StrSet(answers)
  }

  /** A message that fits leaves a tree that waits for the answers. */
  lemma UserTree(s: Shape, u: Id, user: Links, g: Option<Id>, answers: seq<Id>)
    requires Tree(s, None, {}) && LinkedFrom(s, u, user, g) && Fits(s, u, user, answers)
    ensures Tree(WithUser(s, u, user, g, answers), Some(u), StrSet(answers))
  {
    var t := WithUser(s, u, user, g, answers);
    ParentsWithUser(s, u, user, g, answers);
    UpWithUser(s, u, user, g, answers);
    ParentMakesCycle(Up(s), u, user.parent);
    hide WithUser, Acyclic, Distinct, Elements, StrSet, KidsOf, Lists, Up, Fits, LinkedFrom;
    forall p | p in t ensures Lists(t, Some(u), StrSet(answers), p) {
      if p == u {
        UserLists(s, u, user, g, answers);
      } else {
        OtherLists(s, u, user, g, answers, p);
      }
    }
  }

  lemma UserLists(s: Shape, u: Id, user: Links, g: Option<Id>, answers: seq<Id>)
    requires Tree(s, None, {}) && LinkedFrom(s, u, user, g) && Fits(s, u, user, answers)
    ensures var t := WithUser(s, u, user, g, answers); u in t && Lists(t, Some(u), StrSet(answers), u)
  {
    var t := WithUser(s, u, user, g, answers);
    ParentsWithUser(s, u, user, g, answers);
    assert t[u].kids == AppendMissing(user.kids, answers);
    AppendMissingAdds(user.kids, answers);
    KidsOfUser(s, u, user, g, answers);
  }

  /** Giving `u` another parent than itself does not change who its children are. */
  lemma KidsOfUser(s: Shape, u: Id, user: Links, g: Option<Id>, answers: seq<Id>)
    requires Acyclic(Up(s)) && user.parent != Some(u)
    ensures KidsOf(Up(WithUser(s, u, user, g, answers)), u) == KidsOf(Up(s), u)
  {
    ParentsWithUser(s, u, user, g, answers);
    if u in s && s[u].parent == Some(u) { ParentIsAbove(Up(s), u); }
  }

  /** The children of another message change only by `u` itself, which does not leave a stored parent. */
  lemma KidsOfOther(s: Shape, u: Id, user: Links, g: Option<Id>, answers: seq<Id>, p: Id)
    requires p != u && (u in s && s[u].parent == Some(p) ==> user.parent == Some(p))
    ensures KidsOf(Up(WithUser(s, u, user, g, answers)), p) ==
            KidsOf(Up(s), p) + if user.parent == Some(p) then {Str(u)} else {}
  {
    ParentsWithUser(s, u, user, g, answers);
    hide WithUser;
    var t := WithUser(s, u, user, g, answers);
    forall c ensures Str(c) in KidsOf(Up(t), p) <==>
                     Str(c) in KidsOf(Up(s), p) || (c == u && user.parent == Some(p)) { }
  }

  lemma ListOfOther(s: Shape, u: Id, user: Links, g: Option<Id>, answers: seq<Id>, p: Id)
    requires p != u && p in s
    ensures var t := WithUser(s, u, user, g, answers);
            p in t && t[p].kids == if g == Some(p) && Str(u) !in s[p].kids then s[p].kids + [Str(u)] else s[p].kids
  {
    hide AppendMissing;
  }

  lemma OtherLists(s: Shape, u: Id, user: Links, g: Option<Id>, answers: seq<Id>, p: Id)
    requires Tree(s, None, {}) && LinkedFrom(s, u, user, g) && Fits(s, u, user, answers)
    requires p != u && p in s
    ensures var t := WithUser(s, u, user, g, answers); p in t && Lists(t, Some(u), StrSet(answers), p)
  {
    assert Lists(s, None, {}, p);
    assert Str(u) in KidsOf(Up(s), p) <==> u in s && s[u].parent == Some(p);
    KidsOfOther(s, u, user, g, answers, p);
    ListOfOther(s, u, user, g, answers, p);
    hide WithUser, Distinct, Elements, KidsOf, Up, StrSet, Acyclic;
    InElements(s[p].kids);
    Append(s[p].kids, Str(u));
  }

  /** Only a message that fits leaves a forest, whatever the answers add. */
  lemma MustFit(s: Shape, u: Id, user: Links, g: Option<Id>, answers: seq<Id>)
    requires Tree(s, None, {}) && LinkedFrom(s, u, user, g)
    requires forall a :: a in answers ==> a !in s && NoOneRefersTo(s, a)
    requires Tree(WithAnswers(WithUser(s, u, user, g, answers), Some(u), answers), None, {})
    ensures Fits(s, u, user, answers)
  {
    var t := WithUser(s, u, user, g, answers);
    var f := WithAnswers(t, Some(u), answers);
    hide WithUser, WithAnswers, KidsOf, Distinct, StrSet, AppendMissing, Lists, Acyclic, Up, LinkedFrom;
    ParentsWithUser(s, u, user, g, answers);
    UpWithUser(s, u, user, g, answers);
    WithAnswersAt(t, Some(u), answers);
    InElements(answers);
    MustNotCycle(s, u, user, t, f, answers);
    if user.parent.Some? && user.parent.value in answers {
      UnderNewMessage(f, u, user.parent.value);
    }
    MustStay(s, u, user, g, answers);
    MustListKids(s, u, user, g, answers);
  }

  lemma MustStay(s: Shape, u: Id, user: Links, g: Option<Id>, answers: seq<Id>)
    requires Tree(s, None, {}) && LinkedFrom(s, u, user, g) && u !in answers
    requires forall a :: a in answers ==> a !in s
    requires Tree(WithAnswers(WithUser(s, u, user, g, answers), Some(u), answers), None, {})
    ensures u in s && s[u].parent.Some? && s[u].parent.value in s ==> user.parent == s[u].parent
  {
    var t := WithUser(s, u, user, g, answers);
    var f := WithAnswers(t, Some(u), answers);
    if u in s && s[u].parent.Some? && s[u].parent.value in s && user.parent != s[u].parent {
      var p := s[u].parent.value;
      if p == u { ParentIsAbove(Up(s), u); }
      ParentsWithUser(s, u, user, g, answers);
      ListOfOther(s, u, user, g, answers, p);
      WithAnswersAt(t, Some(u), answers);
      hide WithUser, WithAnswers, KidsOf, Acyclic;
      LeftBehind(s, f, u, p);
    }
  }

  lemma MustNotCycle(s: Shape, u: Id, user: Links, t: Shape, f: Shape, answers: seq<Id>)
    requires Tree(s, None, {}) && Acyclic(Up(f))
    requires Up(t) == Up(s)[u := user.parent]
    requires u in f && (u in answers ==> f[u] == Links(Some(u), []))
    requires forall m :: m in t && m !in answers ==> m in f && f[m] == t[m]
    requires forall a :: a in answers ==> a !in s
    ensures u !in answers
    ensures user.parent.Some? ==> user.parent.value != u && !Below(Up(s), user.parent.value, u)
  {
    if u in answers {
      ParentIsAbove(Up(f), u);
    } else {
      assert forall m :: m in Up(t) ==> m in Up(f) && Up(f)[m] == Up(t)[m];
      SmallerTableAcyclic(Up(f), Up(t));
      ParentMakesCycle(Up(s), u, user.parent);
    }
  }

  /** A parent that the message has left still lists it. */
  lemma LeftBehind(s: Shape, f: Shape, u: Id, p: Id)
    requires Tree(s, None, {}) && u in s && s[u].parent == Some(p) && p in s
    requires u in f && p in f && f[p].kids == s[p].kids && f[u].parent != Some(p)
    ensures !Tree(f, None, {})
  {
    assert Lists(s, None, {}, p);
    assert Str(u) in KidsOf(Up(s), p) && Str(u) !in KidsOf(Up(f), p);
    assert !Lists(f, None, {}, p);
  }

  /** With the answers stored, the message's children are those it had and the answers. */
  lemma FinalKids(t: Shape, u: Id, answers: seq<Id>)
    requires u !in answers && forall a :: a in answers ==> a !in t
    ensures KidsOf(Up(WithAnswers(t, Some(u), answers)), u) == KidsOf(Up(t), u) + StrSet(answers)
  {
    var f := WithAnswers(t, Some(u), answers);
    WithAnswersAt(t, Some(u), answers);
    InElements(answers);
    hide WithAnswers, StrSet;
    forall j ensures j in KidsOf(Up(f), u) <==> j in KidsOf(Up(t), u) || j in StrSet(answers) {
      StrSetIff(answers, j);
    }
  }

  lemma MustListKids(s: Shape, u: Id, user: Links, g: Option<Id>, answers: seq<Id>)
    requires Tree(s, None, {}) && LinkedFrom(s, u, user, g) && user.parent != Some(u) && u !in answers
    requires forall a :: a in answers ==> a !in s
    requires Tree(WithAnswers(WithUser(s, u, user, g, answers), Some(u), answers), None, {})
    ensures Distinct(user.kids)
    ensures KidsOf(Up(s), u) <= Elements(user.kids) <= KidsOf(Up(s), u) + StrSet(answers)
  {
    var t := WithUser(s, u, user, g, answers);
    var f := WithAnswers(t, Some(u), answers);
    ParentsWithUser(s, u, user, g, answers);
    WithAnswersAt(t, Some(u), answers);
    assert f[u].kids == AppendMissing(user.kids, answers);
    assert Lists(f, None, {}, u);
    forall j | j in KidsOf(Up(s), u) ensures j !in StrSet(answers) {
      StrSetIff(answers, j);
    }
    hide WithUser, WithAnswers, KidsOf, Distinct, Elements, StrSet, AppendMissing, Up, Acyclic;
    AppendMissingAdds(user.kids, answers);
    KidsOfUser(s, u, user, g, answers);
    FinalKids(t, u, answers);
  }

  // ---- Messages ----

  /** The messages form a doubly linked forest; all have a role and use the camel-case parent key. */
  ghost predicate GoodMessages(msgs: map<Id, Msg>) {
    DoublyLinked(msgs) && Acyclic(MessageParents(msgs)) && Typed(msgs)
  }

  ghost predicate Typed(msgs: map<Id, Msg>) {
    forall id :: id in msgs ==> TypedFields(msgs[id]) && ParentIdSnake !in msgs[id]
  }

  /** A history with messages has a current one, and a current message is stored. */
  ghost predicate GoodHistory(h: History) {
    && GoodMessages(h.messages)
    && (h.messages != map[] ==> Ref(h.currentId).Some?)
    && (Ref(h.currentId).Some? ==> Ref(h.currentId).value in h.messages)
  }

  function UserId(user: Msg): Option<Id> {
    Ref(Get(user, IdKey))
  }

  /**
   * A turn comes with fresh distinct answer ids.  Its user message is either new, or stored
   * already and then neither moved nor stripped of children; it may list the answers in advance.
   */
  ghost predicate AllowedTurn(msgs: map<Id, Msg>, user: Msg, slots: seq<Slot>) {
    && FreshAnswers(msgs, AnswerIds(slots)) && IsText(Get(user, IdKey))
    && (UserId(user).Some? ==> AllowedUser(msgs, UserId(user).value, user, AnswerIds(slots)))
  }

  ghost predicate FreshAnswers(msgs: map<Id, Msg>, answers: seq<Id>) {
    Distinct(answers) && forall a :: a in answers ==> a !in msgs && NoOneRefersTo(ShapeOf(msgs), a)
  }

  ghost predicate AllowedUser(msgs: map<Id, Msg>, u: Id, user: Msg, answers: seq<Id>) {
    var merged := MessageOrEmpty(msgs, u) + user;
    && TypedFields(merged) && ParentIdSnake !in user
    && u !in answers
    && (ParentRef(merged).Some? ==> ParentRef(merged).value !in answers)
    && (if u in msgs then Get(merged, ParentId) == Get(msgs[u], ParentId)
        else ParentRef(merged) != Some(u) && NoOneRefersTo(ShapeOf(msgs), u))
    && Distinct(ChildIds(merged))
    && ChildrenOf(msgs, u) <= Elements(ChildIds(merged)) <= ChildrenOf(msgs, u) + StrSet(answers)
  }

  // ---- Writes that keep the rows in agreement ----

  /** A write that gives no snake-case parent, keeps the parent of a stored message and leaves a role. */
  ghost predicate Harmless(msgs: map<Id, Msg>, w: Write) {
    var merged := MessageOrEmpty(msgs, w.id) + w.message;
    && TypedFields(merged) && ParentIdSnake !in w.message
    && (w.id in msgs ==> Get(merged, ParentId) == Get(msgs[w.id], ParentId))
  }

  ghost predicate AllHarmless(msgs: map<Id, Msg>, writes: seq<Write>)
    decreases |writes|
  {
    writes == [] ||
    var front := writes[..|writes| - 1];
    AllHarmless(msgs, front) && Harmless(MergeAll(msgs, front), writes[|writes| - 1])
  }

  lemma {:induction false} AllHarmlessConcat(msgs: map<Id, Msg>, a: seq<Write>, b: seq<Write>)
    requires AllHarmless(msgs, a) && AllHarmless(MergeAll(msgs, a), b)
    ensures AllHarmless(msgs, a + b)
    decreases |b|
  {
    hide Harmless, Merged;
    if b == [] {
      assert a + b == a;
    } else {
      var front := b[..|b| - 1];
      AllHarmlessConcat(msgs, a, front);
      MergeAllConcat(msgs, a, front);
      var all := a + b;
      assert all[..|all| - 1] == a + front && all[|all| - 1] == b[|b| - 1];
    }
  }

  lemma HarmlessOne(msgs: map<Id, Msg>, w: Write)
    requires Harmless(msgs, w)
    ensures AllHarmless(msgs, [w]) && MergeAll(msgs, [w]) == Merged(msgs, w.id, w.message)
  {
    hide Harmless, Merged;
    assert [w][..0] == [] && MergeAll(msgs, []) == msgs && AllHarmless(msgs, []);
  }

  lemma HarmlessKeepsTyped(msgs: map<Id, Msg>, w: Write)
    requires Typed(msgs) && Harmless(msgs, w)
    ensures Typed(Merged(msgs, w.id, w.message)) && ParentKept(msgs, w.id, w.message)
  {
  }

  lemma {:induction false} HarmlessKeepInSync(s: Store, c: Id, writes: seq<Write>, now: int)
    requires InSync(s) && c in s.chats
    requires Typed(s.chats[c].history.messages) && AllHarmless(s.chats[c].history.messages, writes)
    ensures InSync(UpsertAll(s, c, writes, now))
    ensures Typed(MergeAll(s.chats[c].history.messages, writes))
    decreases |writes|
  {
    hide Typed, Harmless, Merged, InSync, UpsertedToChat;
    if writes != [] {
      var front, w := writes[..|writes| - 1], writes[|writes| - 1];
      HarmlessKeepInSync(s, c, front, now);
      UpsertAllMessages(s, c, front, now);
      var t := UpsertAll(s, c, front, now);
      LastHarmless(t, c, w, now);
    }
  }

  lemma LastHarmless(s: Store, c: Id, w: Write, now: int)
    requires InSync(s) && c in s.chats
    requires Typed(s.chats[c].history.messages) && Harmless(s.chats[c].history.messages, w)
    ensures InSync(UpsertedToChat(s, c, w.id, w.message, now))
    ensures Typed(Merged(s.chats[c].history.messages, w.id, w.message))
  {
    HarmlessKeepsTyped(s.chats[c].history.messages, w);
    UpsertInSyncIff(s, c, w.id, w.message, now);
  }

  // ---- The writes of a turn, seen on the links ----

  lemma ShapeOfMerged(msgs: map<Id, Msg>, id: Id, message: Msg)
    ensures ShapeOf(Merged(msgs, id, message)) == ShapeOf(msgs)[id := LinksOf(MessageOrEmpty(msgs, id) + message)]
  {
  }

  /** Replacing a message's list of children. */
  lemma WriteChildren(msgs: map<Id, Msg>, id: Id, kids: seq<Json>)
    requires id in msgs && Typed(msgs)
    ensures var w := Write(id, map[ChildrenIds := List(kids)]);
            AllHarmless(msgs, [w]) && Typed(MergeAll(msgs, [w])) && MergeAll(msgs, [w]).Keys == msgs.Keys
  {
    var w := Write(id, map[ChildrenIds := List(kids)]);
    HarmlessOne(msgs, w);
    HarmlessKeepsTyped(msgs, w);
  }

  lemma PlaceholderLinks(stored: Msg, model: string, a: Id, userMessageId: Json, time: int)
    ensures var m := Placeholder(model, a, userMessageId, time);
            && LinksOf(stored + m) == LinksOf(m) == Links(Ref(userMessageId), [])
            && ParentIdSnake !in m && (IsText(userMessageId) ==> Storable(m))
  {
  }

  lemma LastPlaceholder(slots: seq<Slot>, userMessageId: Json, time: int)
    requires slots != []
    ensures var frontSlots, last := slots[..|slots| - 1], slots[|slots| - 1];
            var front, writes := SavePlaceholders(frontSlots, userMessageId, time),
                                 SavePlaceholders(slots, userMessageId, time);
            if AnswerId(last).Some? then
              var a := AnswerId(last).value;
              && writes != [] && writes[..|writes| - 1] == front
              && writes[|writes| - 1] == Write(a, Placeholder(last.model, a, userMessageId, time))
              && AnswerIds(slots) == AnswerIds(frontSlots) + [a]
            else writes == front && AnswerIds(slots) == AnswerIds(frontSlots)
  {
  }

  lemma {:induction false} PlaceholderShape(msgs: map<Id, Msg>, slots: seq<Slot>, userMessageId: Json, time: int)
    ensures ShapeOf(MergeAll(msgs, SavePlaceholders(slots, userMessageId, time))) ==
            WithAnswers(ShapeOf(msgs), Ref(userMessageId), AnswerIds(slots))
    decreases |slots|
  {
    hide Placeholder, LinksOf, Ref, ShapeOf, Merged;
    if slots != [] {
      var frontSlots, last := slots[..|slots| - 1], slots[|slots| - 1];
      PlaceholderShape(msgs, frontSlots, userMessageId, time);
      LastPlaceholder(slots, userMessageId, time);
      if AnswerId(last).Some? {
        var a := AnswerId(last).value;
        var before := MergeAll(msgs, SavePlaceholders(frontSlots, userMessageId, time));
        PlaceholderLinks(MessageOrEmpty(before, a), last.model, a, userMessageId, time);
        ShapeOfMerged(before, a, Placeholder(last.model, a, userMessageId, time));
        assert AnswerIds(slots)[..|AnswerIds(slots)| - 1] == AnswerIds(frontSlots);
      }
    }
  }

  lemma {:induction false} AssignedShape(msgs: map<Id, Msg>, slots: seq<Slot>, userMessageId: Json, time: int)
    ensures ShapeOf(Assigned(msgs, SavePlaceholders(slots, userMessageId, time))) ==
            WithAnswers(ShapeOf(msgs), Ref(userMessageId), AnswerIds(slots))
    decreases |slots|
  {
    hide Placeholder, LinksOf, Ref;
    if slots != [] {
      var frontSlots, last := slots[..|slots| - 1], slots[|slots| - 1];
      AssignedShape(msgs, frontSlots, userMessageId, time);
      LastPlaceholder(slots, userMessageId, time);
      if AnswerId(last).Some? {
        PlaceholderLinks(map[], last.model, AnswerId(last).value, userMessageId, time);
        assert AnswerIds(slots)[..|AnswerIds(slots)| - 1] == AnswerIds(frontSlots);
      }
    }
  }

  lemma {:induction false} PlaceholdersHarmless(msgs: map<Id, Msg>, slots: seq<Slot>, userMessageId: Json, time: int)
    requires IsText(userMessageId)
    requires Distinct(AnswerIds(slots)) && forall a :: a in AnswerIds(slots) ==> a !in msgs
    ensures AllHarmless(msgs, SavePlaceholders(slots, userMessageId, time))
    decreases |slots|
  {
    hide Placeholder, Ref, Get;
    if slots != [] {
      var frontSlots, last := slots[..|slots| - 1], slots[|slots| - 1];
      var ids, front := AnswerIds(slots), AnswerIds(frontSlots);
      LastPlaceholder(slots, userMessageId, time);
      assert forall i :: 0 <= i < |front| ==> front[i] == ids[i];
      PlaceholdersHarmless(msgs, frontSlots, userMessageId, time);
      if AnswerId(last).Some? {
        var a := AnswerId(last).value;
        var before := MergeAll(msgs, SavePlaceholders(frontSlots, userMessageId, time));
        assert ids[|ids| - 1] == a;
        assert a !in before by {
          PlaceholderShape(msgs, frontSlots, userMessageId, time);
          WithAnswersAt(ShapeOf(msgs), Ref(userMessageId), front);
          assert before.Keys == ShapeOf(before).Keys;
        }
        PlaceholderLinks(map[], last.model, a, userMessageId, time);
        assert map[] + Placeholder(last.model, a, userMessageId, time) ==
               Placeholder(last.model, a, userMessageId, time);
      }
    }
  }

  lemma GrandparentStage(msgs: map<Id, Msg>, user: Msg, u: Id)
    requires Typed(msgs) && UserId(user) == Some(u)
    ensures var links := LinkGrandparent(msgs, user);
            AllHarmless(msgs, links) && Typed(MergeAll(msgs, links)) && MergeAll(msgs, links).Keys == msgs.Keys
  {
    var g := ParentRef(user);
    if g.Some? && g.value in msgs {
      WriteChildren(msgs, g.value, ChildIds(msgs[g.value]) + [Str(u)]);
    }
  }

  lemma AnswersStage(msgs: map<Id, Msg>, user: Msg, u: Id, answers: seq<Id>)
    requires Typed(msgs) && UserId(user) == Some(u) && u in msgs
    ensures var links := LinkAnswers(msgs, user, answers);
            AllHarmless(msgs, links) && Typed(MergeAll(msgs, links))
  {
    if answers != [] {
      WriteChildren(msgs, u, AppendMissing(ChildIds(msgs[u]), answers));
    }
  }

  /** Saving the user message and linking it, up to the point where its answers are to be stored. */
  lemma UserStage(msgs: map<Id, Msg>, user: Msg, u: Id, answers: seq<Id>)
    requires GoodMessages(msgs) && UserId(user) == Some(u) && AllowedUser(msgs, u, user, answers)
    ensures var first := UserWrites(msgs, user);
            var m2 := MergeAll(msgs, first);
            && AllHarmless(msgs, first) && Typed(m2) && u in m2
            && var links := LinkAnswers(m2, user, answers);
               && AllHarmless(m2, links) && Typed(MergeAll(m2, links))
               && ShapeOf(MergeAll(m2, links)) ==
                  WithUser(ShapeOf(msgs), u, LinksOf(MessageOrEmpty(msgs, u) + user), ParentRef(user), answers)
  {
    assert Typed(msgs);
    hide Merged, LinkGrandparent, LinkAnswers, ParentRef, ChildIds, AllowedUser, GoodMessages, WithUser, LinksOf, Typed;
    var w := Write(u, user);
    var m1 := Merged(msgs, u, user);
    UserWriteStage(msgs, user, u, answers);
    var link := LinkGrandparent(m1, user);
    GrandparentStage(m1, user, u);
    MergeAllConcat(msgs, [w], link);
    AllHarmlessConcat(msgs, [w], link);
    var m2 := MergeAll(m1, link);
    assert UserWrites(msgs, user) == [w] + link;
    assert u in m2;
    AnswersStage(m2, user, u, answers);
    TypedIsNonempty(msgs);
    UserShape(msgs, user, u, answers);
  }

  lemma UserWriteStage(msgs: map<Id, Msg>, user: Msg, u: Id, answers: seq<Id>)
    requires GoodMessages(msgs) && UserId(user) == Some(u) && AllowedUser(msgs, u, user, answers)
    ensures var m1 := Merged(msgs, u, user);
            && SaveUser(user) == [Write(u, user)] && AllHarmless(msgs, SaveUser(user))
            && MergeAll(msgs, SaveUser(user)) == m1 && Typed(m1) && u in m1
  {
    var w := Write(u, user);
    HarmlessOne(msgs, w);
    HarmlessKeepsTyped(msgs, w);
  }

  /** The links after the user stage are a tree that waits for the answers. */
  lemma UserStageTree(msgs: map<Id, Msg>, user: Msg, u: Id, answers: seq<Id>)
    requires GoodMessages(msgs) && UserId(user) == Some(u) && AllowedUser(msgs, u, user, answers)
    ensures Tree(WithUser(ShapeOf(msgs), u, LinksOf(MessageOrEmpty(msgs, u) + user), ParentRef(user), answers),
                 Some(u), StrSet(answers))
  {
    AllowedFits(msgs, user, u, answers);
    IsLinkedFrom(msgs, user, u);
    DoublyLinkedIsTree(msgs);
    hide WithUser, Acyclic, Distinct, Elements, StrSet, Tree, Fits, LinkedFrom, AllowedUser, DoublyLinked;
    UserTree(ShapeOf(msgs), u, LinksOf(MessageOrEmpty(msgs, u) + user), ParentRef(user), answers);
  }

  lemma IsLinkedFrom(msgs: map<Id, Msg>, user: Msg, u: Id)
    ensures LinkedFrom(ShapeOf(msgs), u, LinksOf(MessageOrEmpty(msgs, u) + user), ParentRef(user))
  {
    var merged := MessageOrEmpty(msgs, u) + user;
    assert Get(merged, ParentId) == if ParentId in user then user[ParentId] else Get(MessageOrEmpty(msgs, u), ParentId);
  }

  lemma AllowedFits(msgs: map<Id, Msg>, user: Msg, u: Id, answers: seq<Id>)
    requires GoodMessages(msgs) && UserId(user) == Some(u) && AllowedUser(msgs, u, user, answers)
    ensures Fits(ShapeOf(msgs), u, LinksOf(MessageOrEmpty(msgs, u) + user), answers)
  {
    hide Distinct, Elements, StrSet, DoublyLinked;
    var s, links := ShapeOf(msgs), LinksOf(MessageOrEmpty(msgs, u) + user);
    assert Up(s) == MessageParents(msgs);
    assert KidsOf(Up(s), u) == ChildrenOf(msgs, u);
    if links.parent.Some? {
      var p := links.parent.value;
      if u in msgs {
        ParentIsAbove(Up(s), u);
        if Below(Up(s), p, u) { BelowTransitive(Up(s), p, u, p); }
        assert u in Up(s) && !Below(Up(s), u, u);
        if Below(Up(s), p, u) { BelowTransitive(Up(s), u, p, u); }
      } else {
        forall n: nat | 0 < n ensures !Climbs(Up(s), p, u, n) {
          NoOnePointsTo(Up(s), p, u, n);
        }
      }
    }
  }

  // ---- The turn ----

  /** A turn keeps the doubly linked forest and adds exactly the user message and the answers. */
  lemma TurnKeepsForest(msgs: map<Id, Msg>, user: Msg, slots: seq<Slot>, time: int)
    requires GoodMessages(msgs) && AllowedTurn(msgs, user, slots)
    ensures var writes := TurnWrites(msgs, user, slots, time);
            && AllHarmless(msgs, writes)
            && GoodMessages(MergeAll(msgs, writes))
            && MergeAll(msgs, writes).Keys ==
               msgs.Keys + Elements(AnswerIds(slots)) + (if UserId(user).Some? then {UserId(user).value} else {})
  {
    hide AllowedUser, DoublyLinked, Acyclic, Typed, WithUser, LinkAnswers, UserWrites, LinksOf, NoOneRefersTo, Tree;
    var answers, uid := AnswerIds(slots), Get(user, IdKey);
    var u := UserId(user);
    var first := UserWrites(msgs, user);
    var m2 := MergeAll(msgs, first);
    var links := LinkAnswers(m2, user, answers);
    var m3 := MergeAll(m2, links);
    var placeholders := SavePlaceholders(slots, uid, time);
    FirstHalf(msgs, user, slots);
    PlaceholdersHarmless(m3, slots, uid, time);
    MergeAllConcat(m2, links, placeholders);
    AllHarmlessConcat(m2, links, placeholders);
    MergeAllConcat(msgs, first, links + placeholders);
    AllHarmlessConcat(msgs, first, links + placeholders);
    PlaceholderShape(m3, slots, uid, time);
    SecondHalf(m3, u, slots, MergeAll(m3, placeholders));
    PlaceholdersTyped(m3, placeholders);
  }

  /** The user message of a turn, at the place where it ends up, fits the forest. */
  ghost predicate UserFits(msgs: map<Id, Msg>, user: Msg, answers: seq<Id>) {
    UserId(user).Some? ==>
      var u := UserId(user).value;
      Fits(ShapeOf(msgs), u, LinksOf(MessageOrEmpty(msgs, u) + user), answers)
  }

  /** With fresh answers a turn leaves a doubly linked forest exactly when its user message fits. */
  lemma TurnForestIff(msgs: map<Id, Msg>, user: Msg, slots: seq<Slot>, time: int)
    requires GoodMessages(msgs) && FreshAnswers(msgs, AnswerIds(slots))
    ensures var final := MergeAll(msgs, TurnWrites(msgs, user, slots, time));
            DoublyLinked(final) && Acyclic(MessageParents(final)) <==> UserFits(msgs, user, AnswerIds(slots))
  {
    if UserId(user).None? {
      var placeholders := SavePlaceholders(slots, Get(user, IdKey), time);
      NoUserHalf(msgs, user, AnswerIds(slots));
      assert TurnWrites(msgs, user, slots, time) == placeholders;
      PlaceholderShape(msgs, slots, Get(user, IdKey), time);
      SecondHalf(msgs, None, slots, MergeAll(msgs, placeholders));
    } else {
      hide DoublyLinked, Acyclic, TurnWrites, UserWrites, LinkAnswers, WithUser, WithAnswers, Fits, LinksOf,
           NoOneRefersTo, Tree;
      var answers, u := AnswerIds(slots), UserId(user).value;
      var links, g := LinksOf(MessageOrEmpty(msgs, u) + user), ParentRef(user);
      var final := MergeAll(msgs, TurnWrites(msgs, user, slots, time));
      var s := ShapeOf(msgs);
      TurnShape(msgs, user, u, slots, time);
      DoublyLinkedIsTree(msgs);
      DoublyLinkedIsTree(final);
      IsLinkedFrom(msgs, user, u);
      if Fits(s, u, links, answers) {
        FittingTurn(s, u, links, g, answers);
      } else if Tree(ShapeOf(final), None, {}) {
        MustFit(s, u, links, g, answers);
      }
    }
  }

  lemma FittingTurn(s: Shape, u: Id, user: Links, g: Option<Id>, answers: seq<Id>)
    requires Tree(s, None, {}) && LinkedFrom(s, u, user, g) && Fits(s, u, user, answers)
    requires Distinct(answers) && forall a :: a in answers ==> a !in s && NoOneRefersTo(s, a)
    ensures Tree(WithAnswers(WithUser(s, u, user, g, answers), Some(u), answers), None, {})
  {
    var t := WithUser(s, u, user, g, answers);
    UserTree(s, u, user, g, answers);
    AnswersStillFresh(s, u, user, g, answers);
    forall a | a in answers ensures Str(a) in StrSet(answers) { StrSetIff(answers, Str(a)); }
    hide Tree, WithUser, StrSet;
    AddAnswers(t, Some(u), StrSet(answers), answers);
    WithAnswersAt(t, Some(u), answers);
    InElements(answers);
    AnswersStored(WithAnswers(t, Some(u), answers), Some(u), answers);
  }

  ghost predicate Nonempty(msgs: map<Id, Msg>) {
    forall id :: id in msgs ==> msgs[id] != map[]
  }

  lemma TypedIsNonempty(msgs: map<Id, Msg>)
    requires Typed(msgs)
    ensures Nonempty(msgs)
  {
    forall id | id in msgs ensures msgs[id] != map[] {
      assert Get(msgs[id], Role) != Null;
    }
  }

  /** Saving the message and linking it writes the links that `WithUser` describes. */
  lemma UserShape(msgs: map<Id, Msg>, user: Msg, u: Id, answers: seq<Id>)
    requires Nonempty(msgs) && UserId(user) == Some(u)
    ensures var m2 := MergeAll(msgs, UserWrites(msgs, user));
            ShapeOf(MergeAll(m2, LinkAnswers(m2, user, answers))) ==
            WithUser(ShapeOf(msgs), u, LinksOf(MessageOrEmpty(msgs, u) + user), ParentRef(user), answers)
  {
    var w := Write(u, user);
    var m1 := Merged(msgs, u, user);
    assert SaveUser(user) == [w] && MergeAll(msgs, [w]) == m1;
    ShapeOfMerged(msgs, u, user);
    assert IdKey in user && m1[u] != map[] by { assert IdKey in MessageOrEmpty(msgs, u) + user; }
    var link := LinkGrandparent(m1, user);
    GrandparentShape(m1, user, u);
    MergeAllConcat(msgs, [w], link);
    var m2 := MergeAll(m1, link);
    AnswersShape(m2, user, u, answers);
  }

  lemma GrandparentShape(msgs: map<Id, Msg>, user: Msg, u: Id)
    requires Nonempty(msgs) && UserId(user) == Some(u)
    ensures var next := MergeAll(msgs, LinkGrandparent(msgs, user));
            && Nonempty(next) && next.Keys == msgs.Keys
            && ShapeOf(next) == WithLink(ShapeOf(msgs), u, ParentRef(user))
  {
    var g := ParentRef(user);
    if g.Some? && g.value in msgs {
      ChildrenShape(msgs, g.value, ChildIds(msgs[g.value]) + [Str(u)]);
    }
  }

  lemma AnswersShape(msgs: map<Id, Msg>, user: Msg, u: Id, answers: seq<Id>)
    requires Nonempty(msgs) && UserId(user) == Some(u) && u in msgs
    ensures ShapeOf(MergeAll(msgs, LinkAnswers(msgs, user, answers))) ==
            ShapeOf(msgs)[u := Links(ParentRef(msgs[u]), AppendMissing(ChildIds(msgs[u]), answers))]
  {
    if answers != [] {
      ChildrenShape(msgs, u, AppendMissing(ChildIds(msgs[u]), answers));
    }
  }

  lemma ChildrenShape(msgs: map<Id, Msg>, id: Id, kids: seq<Json>)
    requires id in msgs && Nonempty(msgs)
    ensures var next := MergeAll(msgs, [Write(id, map[ChildrenIds := List(kids)])]);
            && Nonempty(next) && next.Keys == msgs.Keys
            && ShapeOf(next) == ShapeOf(msgs)[id := Links(ParentRef(msgs[id]), kids)]
  {
    var message: Msg := map[ChildrenIds := List(kids)];
    assert MergeAll(msgs, [Write(id, message)]) == Merged(msgs, id, message);
    ShapeOfMerged(msgs, id, message);
    assert LinksOf(msgs[id] + message) == Links(ParentRef(msgs[id]), kids);
    assert ChildrenIds in msgs[id] + message;
  }

  /** The links after a whole turn. */
  lemma TurnShape(msgs: map<Id, Msg>, user: Msg, u: Id, slots: seq<Slot>, time: int)
    requires Typed(msgs) && UserId(user) == Some(u)
    ensures ShapeOf(MergeAll(msgs, TurnWrites(msgs, user, slots, time))) ==
            WithAnswers(WithUser(ShapeOf(msgs), u, LinksOf(MessageOrEmpty(msgs, u) + user), ParentRef(user),
                                 AnswerIds(slots)),
                        Some(u), AnswerIds(slots))
  {
    TypedIsNonempty(msgs);
    hide WithUser, UserWrites, LinkAnswers, LinksOf, Typed, ShapeOf, WithAnswers;
    var answers, uid, first := AnswerIds(slots), Get(user, IdKey), UserWrites(msgs, user);
    var m2 := MergeAll(msgs, first);
    var links, placeholders := LinkAnswers(m2, user, answers), SavePlaceholders(slots, uid, time);
    UserShape(msgs, user, u, answers);
    MergeAllConcat(m2, links, placeholders);
    MergeAllConcat(msgs, first, links + placeholders);
    PlaceholderShape(MergeAll(m2, links), slots, uid, time);
  }

  lemma FirstHalf(msgs: map<Id, Msg>, user: Msg, slots: seq<Slot>)
    requires GoodMessages(msgs) && AllowedTurn(msgs, user, slots)
    ensures var answers, first := AnswerIds(slots), UserWrites(msgs, user);
            var m2 := MergeAll(msgs, first);
            var links := LinkAnswers(m2, user, answers);
            var m3 := MergeAll(m2, links);
            && AllHarmless(msgs, first) && AllHarmless(m2, links) && Typed(m3)
            && Tree(ShapeOf(m3), UserId(user), StrSet(answers))
            && m3.Keys == msgs.Keys + (if UserId(user).Some? then {UserId(user).value} else {})
            && forall a :: a in answers ==> a !in m3 && NoOneRefersTo(ShapeOf(m3), a) && UserId(user) != Some(a)
  {
    hide WithUser, Typed, Tree, UserWrites, LinkAnswers, DoublyLinked, Acyclic, AllHarmless, MergeAll,
         StrSet, NoOneRefersTo;
    var answers := AnswerIds(slots);
    if UserId(user).Some? {
      var u := UserId(user).value;
      UserStage(msgs, user, u, answers);
      UserStageTree(msgs, user, u, answers);
      var m2 := MergeAll(msgs, UserWrites(msgs, user));
      var m3 := MergeAll(m2, LinkAnswers(m2, user, answers));
      AnswersStillFresh(ShapeOf(msgs), u, LinksOf(MessageOrEmpty(msgs, u) + user), ParentRef(user), answers);
      assert m3.Keys == ShapeOf(m3).Keys && msgs.Keys == ShapeOf(msgs).Keys;
    } else {
      NoUserHalf(msgs, user, answers);
    }
  }

  lemma AnswersStillFresh(s: Shape, u: Id, user: Links, g: Option<Id>, answers: seq<Id>)
    requires u !in answers && (user.parent.Some? ==> user.parent.value !in answers)
    requires forall a :: a in answers ==> a !in s && NoOneRefersTo(s, a)
    ensures var t := WithUser(s, u, user, g, answers);
            && t.Keys == s.Keys + {u}
            && forall a :: a in answers ==> a !in t && NoOneRefersTo(t, a)
  {
    ParentsWithUser(s, u, user, g, answers);
  }

  lemma NoUserHalf(msgs: map<Id, Msg>, user: Msg, answers: seq<Id>)
    requires GoodMessages(msgs) && UserId(user).None?
    ensures UserWrites(msgs, user) == [] && LinkAnswers(msgs, user, answers) == []
    ensures MergeAll(msgs, []) == msgs && AllHarmless(msgs, [])
    ensures Typed(msgs) && Tree(ShapeOf(msgs), None, StrSet(answers))
  {
    DoublyLinkedIsTree(msgs);
  }

  lemma SecondHalf(m3: map<Id, Msg>, u: Option<Id>, slots: seq<Slot>, final: map<Id, Msg>)
    requires Distinct(AnswerIds(slots)) && Tree(ShapeOf(m3), u, StrSet(AnswerIds(slots)))
    requires forall a :: a in AnswerIds(slots) ==> a !in m3 && NoOneRefersTo(ShapeOf(m3), a) && u != Some(a)
    requires ShapeOf(final) == WithAnswers(ShapeOf(m3), u, AnswerIds(slots))
    ensures DoublyLinked(final) && Acyclic(MessageParents(final))
    ensures final.Keys == m3.Keys + Elements(AnswerIds(slots))
  {
    var answers := AnswerIds(slots);
    forall a | a in answers ensures Str(a) in StrSet(answers) { StrSetIff(answers, Str(a)); }
    AddAnswers(ShapeOf(m3), u, StrSet(answers), answers);
    WithAnswersAt(ShapeOf(m3), u, answers);
    AnswersStored(ShapeOf(final), u, answers);
    DoublyLinkedIsTree(final);
    assert final.Keys == ShapeOf(final).Keys && m3.Keys == ShapeOf(m3).Keys;
  }

  lemma {:induction false} PlaceholdersTyped(msgs: map<Id, Msg>, writes: seq<Write>)
    requires Typed(msgs) && AllHarmless(msgs, writes)
    ensures Typed(MergeAll(msgs, writes))
    decreases |writes|
  {
    hide Typed, Harmless, Merged;
    if writes != [] {
      PlaceholdersTyped(msgs, writes[..|writes| - 1]);
      HarmlessKeepsTyped(MergeAll(msgs, writes[..|writes| - 1]), writes[|writes| - 1]);
    }
  }

  // ---- A new chat ----

  /** The first message has a role and names its parent by the usual key. */
  ghost predicate KnownSender(user: Msg) {
    IsText(Get(user, IdKey)) && (UserId(user).Some? ==> Storable(user) && ParentIdSnake !in user)
  }

  /** With a first message: the answer ids are distinct and new, and its parent is none of the new messages. */
  ghost predicate ForestStart(user: Msg, slots: seq<Slot>) {
    UserId(user).Some? ==>
      && Distinct(AnswerIds(slots)) && UserId(user).value !in AnswerIds(slots)
      && (ParentRef(user).Some? ==> ParentRef(user) != UserId(user) && ParentRef(user).value !in AnswerIds(slots))
  }

  lemma StrsDistinct(ids: seq<Id>)
    requires Distinct(ids)
    ensures Distinct(Strs(ids))
  {
  }

  /** The links of a new chat, from the two loops that build it. */
  lemma NewChatShape(user: Msg, slots: seq<Slot>, time: int)
    ensures var msgs := NewChatMessages(user, slots, time);
            && ShapeOf(msgs) == WithAnswers(ShapeOf(StartMessages(user, slots)), UserId(user), AnswerIds(slots))
            && msgs.Keys == StartMessages(user, slots).Keys + Elements(AnswerIds(slots))
  {
    AssignedShape(StartMessages(user, slots), slots, Get(user, IdKey), time);
    WithAnswersAt(ShapeOf(StartMessages(user, slots)), UserId(user), AnswerIds(slots));
    var msgs := NewChatMessages(user, slots, time);
    assert msgs.Keys == ShapeOf(msgs).Keys;
    assert StartMessages(user, slots).Keys == ShapeOf(StartMessages(user, slots)).Keys;
  }

  ghost predicate AllRoles(msgs: map<Id, Msg>) {
    forall id :: id in msgs ==> Storable(msgs[id]) && ParentIdSnake !in msgs[id]
  }

  lemma {:induction false} AssignedRoles(start: map<Id, Msg>, slots: seq<Slot>, userMessageId: Json, time: int)
    requires AllRoles(start) && IsText(userMessageId)
    ensures AllRoles(Assigned(start, SavePlaceholders(slots, userMessageId, time)))
    decreases |slots|
  {
    hide Placeholder;
    if slots != [] {
      var frontSlots, last := slots[..|slots| - 1], slots[|slots| - 1];
      AssignedRoles(start, frontSlots, userMessageId, time);
      LastPlaceholder(slots, userMessageId, time);
      if AnswerId(last).Some? {
        PlaceholderLinks(map[], last.model, AnswerId(last).value, userMessageId, time);
      }
    }
  }

  lemma AllRolesTyped(msgs: map<Id, Msg>)
    requires AllRoles(msgs)
    ensures Typed(msgs)
  {
  }

  lemma StartTree(user: Msg, slots: seq<Slot>)
    requires UserId(user).Some? && ForestStart(user, slots)
    ensures var s := ShapeOf(StartMessages(user, slots));
            && Tree(s, UserId(user), StrSet(AnswerIds(slots)))
            && forall a :: a in AnswerIds(slots) ==> a !in s && NoOneRefersTo(s, a)
  {
    var start := StartMessages(user, slots);
    var s := ShapeOf(start);
    var u := UserId(user).value;
    assert ParentRef(start[u]) == ParentRef(user);
    assert s == map[u := Links(ParentRef(user), Strs(AnswerIds(slots)))];
    StrsDistinct(AnswerIds(slots));
    assert KidsOf(Up(s), u) == {};
    BelowStep(Up(s), u, u);
    if s[u].parent.Some? { BelowStep(Up(s), s[u].parent.value, u); }
  }

  /**
   * The history of a new chat is a doubly linked forest exactly when its ids are new and
   * distinct and its first message is not under a new one.
   */
  lemma NewChatForestIff(user: Msg, slots: seq<Slot>, time: int)
    ensures var msgs := NewChatMessages(user, slots, time);
            DoublyLinked(msgs) && Acyclic(MessageParents(msgs)) <==> ForestStart(user, slots)
  {
    var start, msgs := StartMessages(user, slots), NewChatMessages(user, slots, time);
    NewChatShape(user, slots, time);
    if UserId(user).None? {
      assert ShapeOf(start) == map[];
      LooseAnswers(ShapeOf(msgs), AnswerIds(slots));
      DoublyLinkedIsTree(msgs);
    } else if ForestStart(user, slots) {
      StartTree(user, slots);
      SecondHalf(start, UserId(user), slots, msgs);
    } else {
      BadStart(user, slots, time);
      DoublyLinkedIsTree(msgs);
    }
  }

  /** Without a first message the answers stand alone. */
  lemma LooseAnswers(s: Shape, answers: seq<Id>)
    requires s == WithAnswers(map[], None, answers)
    ensures Tree(s, None, {})
  {
    WithAnswersAt(map[], None, answers);
    InElements(answers);
    forall p | p in s ensures s[p] == Links(None, []) && !Below(Up(s), p, p) && Lists(s, None, {}, p) {
      BelowStep(Up(s), p, p);
      assert KidsOf(Up(s), p) == {};
    }
  }

  lemma BadStart(user: Msg, slots: seq<Slot>, time: int)
    requires !ForestStart(user, slots)
    ensures !Tree(ShapeOf(NewChatMessages(user, slots, time)), None, {})
  {
    var answers, u := AnswerIds(slots), UserId(user).value;
    var start, s := StartMessages(user, slots), ShapeOf(NewChatMessages(user, slots, time));
    NewChatShape(user, slots, time);
    WithAnswersAt(ShapeOf(start), UserId(user), answers);
    assert ShapeOf(start)[u] == LinksOf(start[u]) == Links(ParentRef(user), Strs(answers));
    InElements(answers);
    if u in answers {
      UnderNewMessage(s, u, u);
    } else if !Distinct(answers) {
      StrsNotDistinct(answers);
      assert s[u].kids == Strs(answers) && !Lists(s, None, {}, u);
    } else {
      UnderNewMessage(s, u, ParentRef(user).value);
    }
  }

  lemma StrsNotDistinct(ids: seq<Id>)
    requires !Distinct(ids)
    ensures !Distinct(Strs(ids))
  {
    var i, j :| 0 <= i < j < |ids| && ids[i] == ids[j];
    assert Strs(ids)[i] == Strs(ids)[j];
  }

  /** A first message placed under itself makes a cycle; under an answer, it is missing from that answer's list. */
  lemma UnderNewMessage(s: Shape, u: Id, g: Id)
    requires u in s && s[u].parent == Some(g)
    requires g == u || (g in s && s[g].kids == [])
    ensures !Tree(s, None, {})
  {
    if g == u {
      ParentIsAbove(Up(s), u);
    } else {
      assert Str(u) in KidsOf(Up(s), g);
      assert Elements(s[g].kids) == {} && !Lists(s, None, {}, g);
    }
  }

  /** A repeated answer id, as a client may send it, makes the first message list it twice. */
  lemma RepeatedAnswerBreaksForest(user: Msg, time: int)
    requires UserId(user).Some?
    ensures !DoublyLinked(NewChatMessages(user, [Slot("m1", Some("a")), Slot("m2", Some("a"))], time))
            || !Acyclic(MessageParents(NewChatMessages(user, [Slot("m1", Some("a")), Slot("m2", Some("a"))], time)))
  {
    var slots := [Slot("m1", Some("a")), Slot("m2", Some("a"))];
    assert slots[..1] == [Slot("m1", Some("a"))] && slots[..1][..0] == [];
    assert AnswerIds(slots[..1]) == ["a"] && AnswerIds(slots) == ["a", "a"];
    assert AnswerIds(slots)[0] == AnswerIds(slots)[1];
    NewChatForestIff(user, slots, time);
  }

  /** Answers, placeholders and all writes of a turn go under ids that are not empty. */
  lemma {:induction false} AnswerIdsNamed(slots: seq<Slot>)
    ensures forall a :: a in AnswerIds(slots) ==> a != ""
  {
    if slots != [] {
      AnswerIdsNamed(slots[..|slots| - 1]);
    }
  }

  lemma {:induction false} PlaceholdersNamed(slots: seq<Slot>, userMessageId: Json, time: int)
    ensures forall w :: w in SavePlaceholders(slots, userMessageId, time) ==> w.id != ""
  {
    if slots != [] {
      PlaceholdersNamed(slots[..|slots| - 1], userMessageId, time);
    }
  }

  lemma TurnWritesNamed(msgs: map<Id, Msg>, user: Msg, slots: seq<Slot>, time: int)
    ensures forall w :: w in TurnWrites(msgs, user, slots, time) ==> w.id != ""
  {
    PlaceholdersNamed(slots, Get(user, IdKey), time);
  }

  lemma StartRoles(user: Msg, slots: seq<Slot>)
    requires KnownSender(user)
    ensures AllRoles(StartMessages(user, slots))
  {
  }

  lemma CurrentIsStored(user: Msg, slots: seq<Slot>, time: int)
    ensures var h := NewChatHistory(user, slots, time);
            && (h.messages != map[] ==> Ref(h.currentId).Some?)
            && (Ref(h.currentId).Some? ==> Ref(h.currentId).value in h.messages)
  {
    NewChatShape(user, slots, time);
    AnswerIdsNamed(slots);
    InElements(AnswerIds(slots));
    hide NewChatMessages;
    var h, answers := NewChatHistory(user, slots, time), AnswerIds(slots);
    assert h.messages == map[] <==> h.messages.Keys == {};
    if answers != [] {
      assert answers[0] in answers;
    } else {
      assert Elements(answers) == {};
    }
  }

  lemma NewChatIsGood(user: Msg, slots: seq<Slot>, time: int)
    requires KnownSender(user) && ForestStart(user, slots)
    ensures GoodHistory(NewChatHistory(user, slots, time))
    ensures AllRoles(NewChatMessages(user, slots, time))
  {
    StartRoles(user, slots);
    hide Storable, DoublyLinked, Acyclic, ForestStart, AllRoles, StartMessages;
    NewChatForestIff(user, slots, time);
    CurrentIsStored(user, slots, time);
    AssignedRoles(StartMessages(user, slots), slots, Get(user, IdKey), time);
    AllRolesTyped(NewChatMessages(user, slots, time));
  }

  // ---- Whole runs of the endpoint ----

  datatype Request =
    | Start(chatId: Id, userId: Id, user: Msg, slots: seq<Slot>, order: seq<Id>, time: int)
    | Turn(chatId: Id, user: Msg, slots: seq<Slot>, time: int)
    | Edit(chatId: Id, messageId: Id, message: Msg, time: int)

  /** Edits stand for the later upserts of an answer: content, status, error, but no links. */
  ghost predicate AllowedRequest(s: Store, r: Request) {
    match r
    case Start(c, _, user, slots, order, time) =>
      && c !in s.chats && |c| == UUID_LENGTH && KnownSender(user) && ForestStart(user, slots)
      && IsOrderOf(order, NewChatMessages(user, slots, time))
    case Turn(c, user, slots, _) =>
      c in s.chats && AllowedTurn(s.chats[c].history.messages, user, slots)
    case Edit(c, id, message, _) =>
      && c in s.chats && id in s.chats[c].history.messages && id != ""
      && ParentId !in message && ParentIdSnake !in message && ChildrenIds !in message
      && TypedFields(s.chats[c].history.messages[id] + message)
  }

  function Serve(s: Store, r: Request): Store {
    match r
    case Start(c, userId, user, slots, order, time) =>
      WithNewChat(s, c, userId, NewChatHistory(user, slots, time), order, time)
    case Turn(c, user, slots, time) =>
      if c in s.chats then UpsertAll(s, c, TurnWrites(s.chats[c].history.messages, user, slots, time), time) else s
    case Edit(c, id, message, time) => UpsertedToChat(s, c, id, message, time)
  }

  ghost predicate AllAllowed(s: Store, rs: seq<Request>)
    decreases |rs|
  {
    rs == [] || (AllowedRequest(s, rs[0]) && AllAllowed(Serve(s, rs[0]), rs[1..]))
  }

  function ServeAll(s: Store, rs: seq<Request>): Store
    decreases |rs|
  {
    if rs == [] then s else ServeAll(Serve(s, rs[0]), rs[1..])
  }

  ghost predicate Whole(s: Store) {
    InSync(s) && forall c :: c in s.chats ==> GoodHistory(s.chats[c].history)
  }

  lemma EditIsHarmless(msgs: map<Id, Msg>, id: Id, message: Msg)
    requires GoodMessages(msgs) && id in msgs
    requires ParentId !in message && ParentIdSnake !in message && ChildrenIds !in message
    requires TypedFields(msgs[id] + message)
    ensures GoodMessages(Merged(msgs, id, message)) && Harmless(msgs, Write(id, message))
  {
    EditKeepsLinks(msgs[id], message);
    assert Harmless(msgs, Write(id, message));
    hide Harmless, DoublyLinked, Acyclic, Typed, TypedFields, LinksOf, Tree;
    HarmlessKeepsTyped(msgs, Write(id, message));
    DoublyLinkedIsTree(msgs);
    ShapeOfMerged(msgs, id, message);
    assert ShapeOf(Merged(msgs, id, message)) == ShapeOf(msgs);
    DoublyLinkedIsTree(Merged(msgs, id, message));
  }

  lemma EditKeepsLinks(stored: Msg, message: Msg)
    requires ParentId !in message && ChildrenIds !in message
    ensures LinksOf(stored + message) == LinksOf(stored) && Get(stored + message, ParentId) == Get(stored, ParentId)
  {
  }

  lemma StartKeepsWhole(s: Store, c: Id, userId: Id, user: Msg, slots: seq<Slot>, order: seq<Id>, time: int)
    requires Whole(s) && AllowedRequest(s, Start(c, userId, user, slots, order, time))
    ensures Whole(WithNewChat(s, c, userId, NewChatHistory(user, slots, time), order, time))
  {
    hide InSync, GoodHistory, KnownSender, ForestStart, NewChatMessages, Storable, IsOrderOf;
    NewChatIsGood(user, slots, time);
    NewChatInSyncIff(s, c, userId, NewChatHistory(user, slots, time), order, time);
  }

  lemma TurnKeepsWhole(s: Store, c: Id, user: Msg, slots: seq<Slot>, time: int)
    requires Whole(s) && AllowedRequest(s, Turn(c, user, slots, time))
    ensures Whole(Serve(s, Turn(c, user, slots, time)))
  {
    hide InSync, AllowedTurn, DoublyLinked, Acyclic, TurnWrites, UpsertedToChat, Typed;
    var h := s.chats[c].history;
    var writes := TurnWrites(h.messages, user, slots, time);
    var t := UpsertAll(s, c, writes, time);
    assert GoodHistory(h);
    TurnKeepsForest(h.messages, user, slots, time);
    HarmlessKeepInSync(s, c, writes, time);
    UpsertAllMessages(s, c, writes, time);
    TurnWritesNamed(h.messages, user, slots, time);
    assert writes != [] ==> writes[|writes| - 1] in writes && writes[|writes| - 1].id in MergeAll(h.messages, writes);
    assert writes == [] ==> MergeAll(h.messages, writes) == h.messages;
    assert GoodHistory(t.chats[c].history);
  }

  lemma EditKeepsWhole(s: Store, c: Id, id: Id, message: Msg, time: int)
    requires Whole(s) && AllowedRequest(s, Edit(c, id, message, time))
    ensures Whole(UpsertedToChat(s, c, id, message, time))
  {
    hide InSync, GoodMessages, Harmless, Upserted;
    var h := s.chats[c].history;
    assert GoodHistory(h);
    EditIsHarmless(h.messages, id, message);
    LastHarmlessWhole(s, c, id, message, time);
    assert GoodHistory(UpsertedToChat(s, c, id, message, time).chats[c].history);
  }

  lemma LastHarmlessWhole(s: Store, c: Id, id: Id, message: Msg, time: int)
    requires InSync(s) && c in s.chats && GoodMessages(s.chats[c].history.messages)
    requires Harmless(s.chats[c].history.messages, Write(id, message))
    ensures InSync(UpsertedToChat(s, c, id, message, time))
  {
    LastHarmless(s, c, Write(id, message), time);
  }

  lemma RequestKeepsWhole(s: Store, r: Request)
    requires Whole(s) && AllowedRequest(s, r)
    ensures Whole(Serve(s, r))
  {
    hide Whole, AllowedRequest;
    match r
    case Start(c, userId, user, slots, order, time) => StartKeepsWhole(s, c, userId, user, slots, order, time);
    case Turn(c, user, slots, time) => TurnKeepsWhole(s, c, user, slots, time);
    case Edit(c, id, message, time) => EditKeepsWhole(s, c, id, message, time);
  }

  lemma {:induction false} RunKeepsWhole(s: Store, rs: seq<Request>)
    requires Whole(s) && AllAllowed(s, rs)
    ensures Whole(ServeAll(s, rs))
    decreases |rs|
  {
    if rs != [] {
      RequestKeepsWhole(s, rs[0]);
      RunKeepsWhole(Serve(s, rs[0]), rs[1..]);
    }
  }

  /** After any run, the tree rebuilt from the rows is the embedded tree, up to the order of siblings. */
  lemma RebuiltTreeAgrees(s: Store, c: Id, rebuilt: map<Id, Msg>)
    requires InSync(s) && c in s.chats && GoodMessages(s.chats[c].history.messages)
    requires RebuiltFrom(rebuilt, s.rows, c)
    ensures var msgs := s.chats[c].history.messages;
            && rebuilt.Keys == msgs.Keys
            && MessageParents(rebuilt) == MessageParents(msgs)
            && forall id :: id in msgs ==> multiset(ChildIds(rebuilt[id])) == multiset(ChildIds(msgs[id]))
  {
    var msgs := s.chats[c].history.messages;
    RebuiltAgrees(s, c, rebuilt);
    forall id | id in msgs ensures ParentRef(rebuilt[id]) == ParentRef(msgs[id]) {
      assert EffectiveParent(msgs[id]) == Get(msgs[id], ParentId);
    }
    SameTree(rebuilt, msgs);
  }

  /** The parent links fix the children of every message, up to their order. */
  lemma SameTree(a: map<Id, Msg>, b: map<Id, Msg>)
    requires a.Keys == b.Keys && DoublyLinked(a) && DoublyLinked(b)
    requires forall id :: id in a ==> ParentRef(a[id]) == ParentRef(b[id])
    ensures MessageParents(a) == MessageParents(b)
    ensures forall id :: id in a ==> multiset(ChildIds(a[id])) == multiset(ChildIds(b[id]))
  {
    forall id | id in a ensures multiset(ChildIds(a[id])) == multiset(ChildIds(b[id])) {
      assert ListsChildren(a, id) && ListsChildren(b, id);
      assert ChildrenOf(a, id) == ChildrenOf(b, id);
      DistinctMultiset(ChildIds(a[id]));
      DistinctMultiset(ChildIds(b[id]));
    }
  }

  lemma {:induction false} DistinctMultiset(s: seq<Json>)
    requires Distinct(s)
    ensures multiset(s) == multiset(Elements(s))
  {
    if s != [] {
      var front, last := s[..|s| - 1], s[|s| - 1];
      DistinctMultiset(front);
      assert s == front + [last];
      ElementsOfConcat(front, [last]);
      assert last !in Elements(front);
    }
  }
}
