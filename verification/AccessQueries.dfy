/**
 * Who may use a resource (models/access_grants.py, models/knowledge.py, models/groups.py):
 * the single check, the batch check, the query filters, the reverse query and the knowledge
 * loop, all measured against one predicate.
 */
module AccessQueries {
  import opened Basics

  type Id = string

  datatype PrincipalType = User | Group | OtherPrincipal(name: string)

  datatype Permission = Read | Write | OtherPermission(name: string)

  datatype Principal = Principal(kind: PrincipalType, id: Id)

  datatype Resource = Resource(kind: string, id: Id)

  datatype Grant = Grant(resource: Resource, principal: Principal, permission: Permission)

  /** A user of the system; pending users have registered but are not admitted. */
  datatype Account = Account(id: Id, pending: bool)

  datatype Membership = Membership(groupId: Id, userId: Id)

  datatype Database = Database(grants: set<Grant>, groups: set<Id>, members: set<Membership>, users: set<Account>)

  datatype Document = Document(id: Id, ownerId: Id)

  const EVERYONE := Principal(User, "*")

  /** The user id of a filter; an absent or empty one stands for no user. */
  function Known(userId: Option<Id>): Option<Id> {
    if userId == Some("") then None else userId
  }

  // ---- The reference predicate ----

  /** Everyone a request speaks for: the public, the user if there is one, and the user's groups. */
  function Principals(user: Option<Id>, groupIds: set<Id>): set<Principal> {
    {EVERYONE} +
    (if user.Some? then {Principal(User, user.value)} else {}) +
    (set g | g in groupIds :: Principal(Group, g))
  }

  /** One of the principals has been granted the permission on the resource. */
  ghost predicate Allowed(grants: set<Grant>, principals: set<Principal>, r: Resource, permission: Permission) {
    exists p :: p in principals && Grant(r, p, permission) in grants
  }

  // ---- Group membership ----

  /** The join of groups and memberships. */
  function GroupsOf(db: Database, userId: Id): set<Id> {
    set g | g in db.groups && Membership(g, userId) in db.members
  }

  function UserIdsOf(db: Database, groupId: Id): set<Id> {
    set m | m in db.members && m.groupId == groupId :: m.userId
  }

  // ---- The queries ----

  /** The disjunction of conditions that the check and the batch check build. */
  predicate Matches(g: Grant, userId: Id, groupIds: set<Id>) {
    || (g.principal.kind == User && g.principal.id == "*")
    || (g.principal.kind == User && g.principal.id == userId)
    || (groupIds != {} && g.principal.kind == Group && g.principal.id in groupIds)
  }

  function GroupIdsFor(db: Database, userId: Id, given: Option<set<Id>>): set<Id> {
    if given.Some? then given.value else GroupsOf(db, userId)
  }

  predicate HasAccess(db: Database, userId: Id, r: Resource, permission: Permission, given: Option<set<Id>>) {
    var groupIds := GroupIdsFor(db, userId, given);
    exists g :: g in db.grants && g.resource == r && g.permission == permission && Matches(g, userId, groupIds)
  }

  function GetAccessibleResourceIds(db: Database, userId: Id, resourceType: string, resourceIds: seq<Id>,
                                    permission: Permission, given: Option<set<Id>>): set<Id>
  {
    if resourceIds == [] then {}
    else
      var groupIds := GroupIdsFor(db, userId, given);
      set g | g in db.grants && g.resource.kind == resourceType && g.resource.id in resourceIds
              && g.permission == permission && Matches(g, userId, groupIds) :: g.resource.id
  }

  /** A request names a user or a group. */
  predicate NamesRequester(userId: Option<Id>, groupIds: set<Id>) {
    Known(userId).Some? || groupIds != {}
  }

  /**
   * The correlated subquery of the filters; `public` says whether the wildcard counts.  Without
   * any alternative the database library drops the empty disjunction, and every grant counts.
   */
  predicate GrantExists(db: Database, r: Resource, permission: Permission, userId: Option<Id>, groupIds: set<Id>,
                        public: bool)
  {
    exists g :: g in db.grants && g.resource == r && g.permission == permission &&
      (|| (!public && !NamesRequester(userId, groupIds))
       || (public && g.principal == EVERYONE)
       || (Known(userId).Some? && g.principal == Principal(User, Known(userId).value))
       || (groupIds != {} && g.principal.kind == Group && g.principal.id in groupIds))
  }

  predicate Owns(d: Document, userId: Option<Id>) {
    Known(userId).Some? && d.ownerId == Known(userId).value
  }

  /** A request that names neither a user nor a group is not filtered at all. */
  predicate PermissionFilter(db: Database, d: Document, resourceType: string, userId: Option<Id>, groupIds: set<Id>,
                             permission: Permission)
  {
    (Known(userId).None? && groupIds == {}) ||
    GrantExists(db, Resource(resourceType, d.id), permission, userId, groupIds, true) || Owns(d, userId)
  }

  predicate ReadOnlyFilter(db: Database, d: Document, resourceType: string, userId: Option<Id>, groupIds: set<Id>) {
    var r := Resource(resourceType, d.id);
    && GrantExists(db, r, Read, userId, groupIds, false)
    && !GrantExists(db, r, Write, userId, groupIds, false)
    && Grant(r, EVERYONE, Read) !in db.grants
    && !Owns(d, userId)
  }

  // ---- They refine the predicate ----

  lemma HasAccessIffAllowed(db: Database, userId: Id, r: Resource, permission: Permission, given: Option<set<Id>>)
    ensures HasAccess(db, userId, r, permission, given) <==>
            Allowed(db.grants, Principals(Some(userId), GroupIdsFor(db, userId, given)), r, permission)
  {
  }

  /** The batch check is the single check on each of the ids. */
  lemma BatchIsFilter(db: Database, userId: Id, resourceType: string, resourceIds: seq<Id>,
                      permission: Permission, given: Option<set<Id>>, id: Id)
    ensures id in GetAccessibleResourceIds(db, userId, resourceType, resourceIds, permission, given) <==>
            id in resourceIds && HasAccess(db, userId, Resource(resourceType, id), permission, given)
  {
  }

  /** The query filter selects owner-or-allowed documents, and everything for a request without user and groups. */
  lemma FilterSelectsIff(db: Database, d: Document, resourceType: string, userId: Option<Id>, groupIds: set<Id>,
                         permission: Permission)
    ensures PermissionFilter(db, d, resourceType, userId, groupIds, permission) <==>
            || (Known(userId).None? && groupIds == {})
            || Owns(d, userId)
            || Allowed(db.grants, Principals(Known(userId), groupIds), Resource(resourceType, d.id), permission)
  {
  }

  /**
   * What read-only promises: the user may read and may not write, and the document is neither
   * public nor the user's own.
   */
  ghost predicate ReadableNotWritable(db: Database, d: Document, resourceType: string, userId: Option<Id>,
                                      groupIds: set<Id>) {
    var r := Resource(resourceType, d.id);
    && Allowed(db.grants, Principals(Known(userId), groupIds), r, Read)
    && !Allowed(db.grants, Principals(Known(userId), groupIds), r, Write)
    && Grant(r, EVERYONE, Read) !in db.grants
    && !Owns(d, userId)
  }

  /** The filter keeps that promise exactly for requests that name someone and documents that not everyone may write. */
  lemma ReadOnlyIff(db: Database, d: Document, resourceType: string, userId: Option<Id>, groupIds: set<Id>)
    ensures ReadableNotWritable(db, d, resourceType, userId, groupIds) <==>
            && ReadOnlyFilter(db, d, resourceType, userId, groupIds)
            && NamesRequester(userId, groupIds)
            && Grant(Resource(resourceType, d.id), EVERYONE, Write) !in db.grants
  {
    var r := Resource(resourceType, d.id);
    if NamesRequester(userId, groupIds) {
      WithoutEveryone(db, r, Read, userId, groupIds);
      WithoutEveryone(db, r, Write, userId, groupIds);
    }
  }

  lemma WithoutEveryone(db: Database, r: Resource, permission: Permission, userId: Option<Id>, groupIds: set<Id>)
    requires NamesRequester(userId, groupIds)
    ensures Allowed(db.grants, Principals(Known(userId), groupIds), r, permission) <==>
            Grant(r, EVERYONE, permission) in db.grants || GrantExists(db, r, permission, userId, groupIds, false)
  {
  }

  /** A document that its reader may write as one of everyone passes as read-only. */
  lemma ReadOnlyShowsWritable()
    ensures var r := Resource("knowledge", "k");
            var db := Database({Grant(r, Principal(User, "u"), Read), Grant(r, EVERYONE, Write)}, {}, {},
                               {Account("u", false)});
            && ReadOnlyFilter(db, Document("k", "o"), "knowledge", Some("u"), {})
            && HasAccess(db, "u", r, Write, None)
  {
    var r := Resource("knowledge", "k");
    var read, write := Grant(r, Principal(User, "u"), Read), Grant(r, EVERYONE, Write);
    var db := Database({read, write}, {}, {}, {Account("u", false)});
    assert read in db.grants && write in db.grants;
    assert Matches(write, "u", {});
  }

  /** A request that names nobody is shown a document that one user may read. */
  lemma AnonymousIsShown()
    ensures var r := Resource("knowledge", "k");
            var db := Database({Grant(r, Principal(User, "u"), Read)}, {}, {}, {Account("u", false)});
            && ReadOnlyFilter(db, Document("k", "o"), "knowledge", None, {})
            && !ReadableNotWritable(db, Document("k", "o"), "knowledge", None, {})
  {
    var r := Resource("knowledge", "k");
    var read := Grant(r, Principal(User, "u"), Read);
    var db := Database({read}, {}, {}, {Account("u", false)});
    assert read in db.grants;
  }

  // ---- The reverse query ----

  function Admitted(db: Database): set<Account> {
    set u | u in db.users && !u.pending
  }

  /** The ids named by the grants, directly or through a group. */
  ghost function NamedUsers(db: Database, r: Resource, permission: Permission): set<Id> {
    set u | u in (set a | a in db.users :: a.id) &&
            (|| Grant(r, Principal(User, u), permission) in db.grants
             || exists m :: m in db.members && m.userId == u
                            && Grant(r, Principal(Group, m.groupId), permission) in db.grants)
  }

  /** `grants` are the rows for the resource and permission, in any order. */
  method GetUsersWithAccess(db: Database, r: Resource, permission: Permission, grants: seq<Grant>)
    returns (users: set<Account>)
    requires Elements(grants) == set g | g in db.grants && g.resource == r && g.permission == permission
    ensures users == if Grant(r, EVERYONE, permission) in db.grants then Admitted(db)
                     else set a | a in db.users && a.id in NamedUsers(db, r, permission)
  {
    forall g ensures g in grants <==> g in db.grants && g.resource == r && g.permission == permission {
      assert g in grants <==> g in Elements(grants);
    }
    for i := 0 to |grants|
      invariant forall j :: 0 <= j < i ==> grants[j].principal != EVERYONE
    {
      if grants[i].principal.kind == User && grants[i].principal.id == "*" {
        assert grants[i] == Grant(r, EVERYONE, permission);
        return set u | u in db.users && !u.pending;
      }
    }
    var ids: set<Id> := {};
    for i := 0 to |grants|
      invariant forall u :: u in ids <==> exists j :: 0 <= j < i && Names(db, grants[j], u)
    {
      ghost var before := ids;
      if grants[i].principal.kind == User {
        ids := ids + {grants[i].principal.id};
      } else if grants[i].principal.kind == Group {
        ids := ids + UserIdsOf(db, grants[i].principal.id);
      }
      assert forall u :: u in ids <==> u in before || Names(db, grants[i], u);
    }
    users := set a | a in db.users && a.id in ids;
    forall a | a in db.users ensures a.id in ids <==> a.id in NamedUsers(db, r, permission) {
      NamedIff(db, r, permission, grants, a.id);
    }
  }

  /** A grant names a user, or a group the user is in. */
  ghost predicate Names(db: Database, g: Grant, u: Id) {
    g.principal == Principal(User, u) || (g.principal.kind == Group && u in UserIdsOf(db, g.principal.id))
  }

  lemma NamedIff(db: Database, r: Resource, permission: Permission, grants: seq<Grant>, u: Id)
    requires forall g :: g in grants <==> g in db.grants && g.resource == r && g.permission == permission
    requires u in (set a | a in db.users :: a.id)
    ensures (exists j :: 0 <= j < |grants| && Names(db, grants[j], u)) <==> u in NamedUsers(db, r, permission)
  {
    if exists j :: 0 <= j < |grants| && Names(db, grants[j], u) {
      var j :| 0 <= j < |grants| && Names(db, grants[j], u);
      var g := grants[j];
      assert g in grants;
      assert g == Grant(r, g.principal, permission);
      if g.principal != Principal(User, u) {
        assert g.principal == Principal(Group, g.principal.id);
        var m :| m in db.members && m.groupId == g.principal.id && m.userId == u;
      }
    }
    if u in NamedUsers(db, r, permission) {
      if Grant(r, Principal(User, u), permission) in db.grants {
        var g := Grant(r, Principal(User, u), permission);
        assert g in grants;
      } else {
        var m :| m in db.members && m.userId == u && Grant(r, Principal(Group, m.groupId), permission) in db.grants;
        var g := Grant(r, Principal(Group, m.groupId), permission);
        assert g in grants;
      }
    }
  }

  /** Every membership belongs to a group, as the foreign key demands. */
  ghost predicate MembersHaveGroups(db: Database) {
    forall m :: m in db.members ==> m.groupId in db.groups
  }

  /** Without a wildcard grant, the reverse query finds a user exactly when the check admits that user. */
  lemma ReverseIsConverse(db: Database, r: Resource, permission: Permission, a: Account)
    requires MembersHaveGroups(db) && a in db.users && a.id != ""
    requires Grant(r, EVERYONE, permission) !in db.grants
    ensures a.id in NamedUsers(db, r, permission) <==> HasAccess(db, a.id, r, permission, None)
  {
    HasAccessIffAllowed(db, a.id, r, permission, None);
    var principals := Principals(Some(a.id), GroupsOf(db, a.id));
    if a.id in NamedUsers(db, r, permission) && Grant(r, Principal(User, a.id), permission) !in db.grants {
      var m :| m in db.members && m.userId == a.id && Grant(r, Principal(Group, m.groupId), permission) in db.grants;
      assert m == Membership(m.groupId, a.id);
      assert m.groupId in GroupsOf(db, a.id);
      assert Principal(Group, m.groupId) in principals;
    }
    if Allowed(db.grants, principals, r, permission) {
      var p :| p in principals && Grant(r, p, permission) in db.grants;
      if p.kind == Group {
        assert Membership(p.id, a.id) in db.members;
      }
    }
  }

  /** With a wildcard grant the check admits everyone, while the reverse query leaves out exactly the pending users. */
  lemma WildcardAdmitsPending(db: Database, r: Resource, permission: Permission, a: Account)
    requires Grant(r, EVERYONE, permission) in db.grants && a in db.users
    ensures HasAccess(db, a.id, r, permission, None)
    ensures a in Admitted(db) <==> !a.pending
  {
  }

  // ---- Knowledge bases ----

  /** The base's own check; an id without a base is refused. */
  function CheckAccessByUserId(db: Database, base: Option<Document>, userId: Id, permission: Permission): bool {
    base.Some? &&
    (base.value.ownerId == userId ||
     HasAccess(db, userId, Resource("knowledge", base.value.id), permission, Some(GroupsOf(db, userId))))
  }

  /** The selected elements of a list, in order. */
  function Selected(db: Database, bases: seq<Document>, userId: Id, permission: Permission): seq<Document> {
    if bases == [] then []
    else
      var front, last := Selected(db, bases[..|bases| - 1], userId, permission), bases[|bases| - 1];
      if CheckAccessByUserId(db, Some(last), userId, permission) then front + [last] else front
  }

  method GetKnowledgeBasesByUserId(db: Database, bases: seq<Document>, userId: Id, permission: Permission)
    returns (result: seq<Document>)
    ensures result == Selected(db, bases, userId, permission)
  {
    var groupIds := GroupsOf(db, userId);
    result := [];
    for i := 0 to |bases|
      invariant result == Selected(db, bases[..i], userId, permission)
    {
      assert bases[..i + 1][..i] == bases[..i];
      if bases[i].ownerId == userId {
        result := result + [bases[i]];
      } else if HasAccess(db, userId, Resource("knowledge", bases[i].id), permission, Some(groupIds)) {
        result := result + [bases[i]];
      }
    }
    assert bases[..|bases|] == bases;
  }

  /** The selected bases come in the order of the list: their positions in it increase. */
  lemma {:induction false} SelectedInOrder(db: Database, bases: seq<Document>, userId: Id, permission: Permission)
    returns (at: seq<nat>)
    ensures |at| == |Selected(db, bases, userId, permission)|
    ensures forall i :: 0 <= i < |at| ==> at[i] < |bases| && bases[at[i]] == Selected(db, bases, userId, permission)[i]
    ensures forall i, j :: 0 <= i < j < |at| ==> at[i] < at[j]
    decreases |bases|
  {
    at := [];
    if bases != [] {
      hide CheckAccessByUserId;
      at := SelectedInOrder(db, bases[..|bases| - 1], userId, permission);
      if CheckAccessByUserId(db, Some(bases[|bases| - 1]), userId, permission) {
        at := at + [|bases| - 1];
      }
    }
  }

  /** The loop selects exactly owned or allowed bases, for every user id. */
  lemma {:induction false} SelectedIff(db: Database, bases: seq<Document>, userId: Id, permission: Permission,
                                       d: Document)
    ensures d in Selected(db, bases, userId, permission) <==>
            && d in bases
            && (|| d.ownerId == userId
                || Allowed(db.grants, Principals(Some(userId), GroupsOf(db, userId)), Resource("knowledge", d.id),
                           permission))
    decreases |bases|
  {
    if bases != [] {
      var front, last := bases[..|bases| - 1], bases[|bases| - 1];
      assert bases == front + [last];
      SelectedIff(db, front, userId, permission, d);
      HasAccessIffAllowed(db, userId, Resource("knowledge", last.id), permission, Some(GroupsOf(db, userId)));
    }
  }

  /**
   * The loop over knowledge bases selects what the query filter selects, unless the filter takes
   * the id for no user.
   */
  lemma LoopAgreesWithFilter(db: Database, bases: seq<Document>, userId: Id, permission: Permission, d: Document)
    requires userId != ""
    ensures d in Selected(db, bases, userId, permission) <==>
            d in bases && PermissionFilter(db, d, "knowledge", Some(userId), GroupsOf(db, userId), permission)
  {
    SelectedIff(db, bases, userId, permission, d);
    FilterSelectsIff(db, d, "knowledge", Some(userId), GroupsOf(db, userId), permission);
  }
}
