/**
 * The old structured form of access rights and its conversion to grants and back
 * (models/access_grants.py, access_control_to_grants and grants_to_access_control).
 */
module AccessControl {
  import opened Basics
  import opened AccessQueries

  /** The ids allowed one permission; either list may be left out. */
  datatype PermissionData = PermissionData(groupIds: Option<seq<Id>>, userIds: Option<seq<Id>>)

  datatype Structured = Structured(read: Option<PermissionData>, write: Option<PermissionData>)

  /** `{}`: owner only. */
  const PRIVATE := Structured(None, None)

  function OrEmpty(ids: Option<seq<Id>>): seq<Id> {
    if ids.Some? then ids.value else []
  }

  function Groups(data: Option<PermissionData>): seq<Id> {
    if data.Some? then OrEmpty(data.value.groupIds) else []
  }

  function Users(data: Option<PermissionData>): seq<Id> {
    if data.Some? then OrEmpty(data.value.userIds) else []
  }

  function Block(r: Resource, kind: PrincipalType, permission: Permission, ids: seq<Id>): seq<Grant> {
    seq(|ids|, i requires 0 <= i < |ids| => Grant(r, Principal(kind, ids[i]), permission))
  }

  /** Null means public reading, except for files; `{}` means no grants. */
  function ToGrants(r: Resource, access: Option<Structured>): seq<Grant> {
    match access
    case None => if r.kind != "file" then [Grant(r, EVERYONE, Read)] else []
    case Some(a) =>
      Block(r, Group, Read, Groups(a.read)) + Block(r, User, Read, Users(a.read)) +
      Block(r, Group, Write, Groups(a.write)) + Block(r, User, Write, Users(a.write))
  }

  /** The ids granted a permission as the given kind of principal, each once, in order of first mention. */
  function Ids(grants: seq<Grant>, kind: PrincipalType, permission: Permission): seq<Id> {
    if grants == [] then []
    else
      var front, last := Ids(grants[..|grants| - 1], kind, permission), grants[|grants| - 1];
      if last.principal.kind == kind && last.permission == permission && last.principal.id !in front
      then front + [last.principal.id] else front
  }

  predicate IsPublicRead(g: Grant) {
    g.principal == EVERYONE && g.permission == Read
  }

  /** No grants mean private, a public read grant means null, anything else the four lists. */
  function FromGrants(grants: seq<Grant>): Option<Structured> {
    if grants == [] then Some(PRIVATE)
    else if exists g :: g in grants && IsPublicRead(g) then None
    else Some(Structured(Some(PermissionData(Some(Ids(grants, Group, Read)), Some(Ids(grants, User, Read)))),
                         Some(PermissionData(Some(Ids(grants, Group, Write)), Some(Ids(grants, User, Write))))))
  }

  // ---- The conversions as they are written ----

  method AccessControlToGrants(r: Resource, access: Option<Structured>) returns (grants: seq<Grant>)
    ensures grants == ToGrants(r, access)
  {
    grants := [];
    if access.None? {
      if r.kind != "file" {
        grants := grants + [Grant(r, EVERYONE, Read)];
      }
      return;
    }
    if access.value == PRIVATE {
      return;
    }
    var permissions := [Read, Write];
    ghost var reading := Block(r, Group, Read, Groups(access.value.read)) +
      Block(r, User, Read, Users(access.value.read));
    for p := 0 to |permissions|
      invariant p == 0 ==> grants == []
      invariant p == 1 ==> grants == reading
      invariant p == 2 ==> grants == ToGrants(r, access)
    {
      var data := if permissions[p] == Read then access.value.read else access.value.write;
      ghost var before := grants;
      if data.Some? && data.value != PermissionData(None, None) {
        var groupIds := OrEmpty(data.value.groupIds);
        for i := 0 to |groupIds|
          invariant grants == before + Block(r, Group, permissions[p], groupIds[..i])
        {
          grants := grants + [Grant(r, Principal(Group, groupIds[i]), permissions[p])];
        }
        var userIds := OrEmpty(data.value.userIds);
        assert groupIds[..|groupIds|] == groupIds;
        for i := 0 to |userIds|
          invariant grants == before + Block(r, Group, permissions[p], groupIds) +
                    Block(r, User, permissions[p], userIds[..i])
        {
          grants := grants + [Grant(r, Principal(User, userIds[i]), permissions[p])];
        }
        assert userIds[..|userIds|] == userIds;
      }
      assert grants == before + Block(r, Group, permissions[p], Groups(data)) +
             Block(r, User, permissions[p], Users(data));
    }
  }

  method GrantsToAccessControl(grants: seq<Grant>) returns (access: Option<Structured>)
    ensures access == FromGrants(grants)
  {
    if grants == [] {
      return Some(PRIVATE);
    }
    var readGroups: seq<Id>, readUsers: seq<Id>, writeGroups: seq<Id>, writeUsers: seq<Id> := [], [], [], [];
    var isPublic := false;
    for i := 0 to |grants|
      invariant isPublic <==> exists g :: g in grants[..i] && IsPublicRead(g)
      invariant readGroups == Ids(grants[..i], Group, Read) && writeGroups == Ids(grants[..i], Group, Write)
      invariant !isPublic ==> readUsers == Ids(grants[..i], User, Read)
      invariant writeUsers == Ids(grants[..i], User, Write)
    {
      var g := grants[i];
      assert grants[..i + 1][..i] == grants[..i];
      assert grants[..i + 1] == grants[..i] + [g];
      if g.principal.kind == User && g.principal.id == "*" && g.permission == Read {
        isPublic := true;
        assert IsPublicRead(g);
        continue;
      }
      if g.permission != Read && g.permission != Write {
        continue;
      }
      if g.principal.kind == Group {
        if g.permission == Read {
          if g.principal.id !in readGroups { readGroups := readGroups + [g.principal.id]; }
        } else {
          if g.principal.id !in writeGroups { writeGroups := writeGroups + [g.principal.id]; }
        }
      } else if g.principal.kind == User {
        if g.permission == Read {
          if g.principal.id !in readUsers { readUsers := readUsers + [g.principal.id]; }
        } else {
          if g.principal.id !in writeUsers { writeUsers := writeUsers + [g.principal.id]; }
        }
      }
    }
    assert grants[..|grants|] == grants;
    if isPublic {
      return None;
    }
    return Some(Structured(Some(PermissionData(Some(readGroups), Some(readUsers))),
                           Some(PermissionData(Some(writeGroups), Some(writeUsers)))));
  }

  // ---- Structured form to grants and back ----

  function Dedup(ids: seq<Id>): seq<Id> {
    if ids == [] then []
    else
      var front, last := Dedup(ids[..|ids| - 1]), ids[|ids| - 1];
      if last in front then front else front + [last]
  }

  lemma {:induction false} DedupIsIdentityIff(ids: seq<Id>)
    ensures Dedup(ids) == ids <==> Distinct(ids)
    ensures |Dedup(ids)| <= |ids| && Elements(Dedup(ids)) == Elements(ids)
    ensures (Dedup(ids) == []) <==> (ids == [])
  {
    if ids != [] {
      var front, last := ids[..|ids| - 1], ids[|ids| - 1];
      DedupIsIdentityIff(front);
      assert ids == front + [last];
      ElementsOfConcat(front, [last]);
      ElementsOfConcat(Dedup(front), [last]);
      assert last in Dedup(front) <==> last in Elements(Dedup(front));
      assert last in front <==> last in Elements(front);
      if Distinct(ids) {
        assert forall i :: 0 <= i < |front| ==> ids[i] != ids[|ids| - 1];
        assert last !in front;
      }
      if Dedup(ids) == ids {
        assert Dedup(front) == front;
        DistinctConcat(front, [last]);
      }
    }
  }

  /** A list of grants without the kind and permission asked for adds no ids. */
  lemma {:induction false} IdsSkip(a: seq<Grant>, b: seq<Grant>, kind: PrincipalType, permission: Permission)
    requires forall g :: g in b ==> g.principal.kind != kind || g.permission != permission
    ensures Ids(a + b, kind, permission) == Ids(a, kind, permission)
    decreases |b|
  {
    if b == [] {
      assert a + b == a;
    } else {
      var front := b[..|b| - 1];
      assert b[|b| - 1] in b;
      assert (a + b)[..|a + b| - 1] == a + front;
      IdsSkip(a, front, kind, permission);
    }
  }

  lemma {:induction false} IdsOfBlock(a: seq<Grant>, r: Resource, kind: PrincipalType, permission: Permission,
                                      ids: seq<Id>)
    requires forall g :: g in a ==> g.principal.kind != kind || g.permission != permission
    ensures Ids(a + Block(r, kind, permission, ids), kind, permission) == Dedup(ids)
    decreases |ids|
  {
    if ids == [] {
      assert a + Block(r, kind, permission, ids) == [] + a;
      IdsSkip([], a, kind, permission);
    } else {
      var front := ids[..|ids| - 1];
      var all := a + Block(r, kind, permission, ids);
      assert all[..|all| - 1] == a + Block(r, kind, permission, front);
      IdsOfBlock(a, r, kind, permission, front);
    }
  }

  /** The four lists come back as they were, less repetitions. */
  lemma IdsOfStructured(r: Resource, a: Structured)
    ensures var grants := ToGrants(r, Some(a));
            && Ids(grants, Group, Read) == Dedup(Groups(a.read)) && Ids(grants, User, Read) == Dedup(Users(a.read))
            && Ids(grants, Group, Write) == Dedup(Groups(a.write)) && Ids(grants, User, Write) == Dedup(Users(a.write))
  {
    var b1, b2 := Block(r, Group, Read, Groups(a.read)), Block(r, User, Read, Users(a.read));
    var b3, b4 := Block(r, Group, Write, Groups(a.write)), Block(r, User, Write, Users(a.write));
    IdsOfBlock([], r, Group, Read, Groups(a.read));
    assert [] + b1 == b1;
    IdsSkip(b1, b2, Group, Read);
    IdsSkip(b1 + b2, b3, Group, Read);
    IdsSkip(b1 + b2 + b3, b4, Group, Read);
    IdsOfBlock(b1, r, User, Read, Users(a.read));
    IdsSkip(b1 + b2, b3, User, Read);
    IdsSkip(b1 + b2 + b3, b4, User, Read);
    IdsOfBlock(b1 + b2, r, Group, Write, Groups(a.write));
    IdsSkip(b1 + b2 + b3, b4, Group, Write);
    IdsOfBlock(b1 + b2 + b3, r, User, Write, Users(a.write));
  }

  predicate BothLists(data: Option<PermissionData>) {
    data.Some? && data.value.groupIds.Some? && data.value.userIds.Some?
  }

  ghost predicate NoRepetition(data: Option<PermissionData>) {
    Distinct(Groups(data)) && Distinct(Users(data))
  }

  predicate NamesSomeone(a: Structured) {
    Groups(a.read) != [] || Users(a.read) != [] || Groups(a.write) != [] || Users(a.write) != []
  }

  lemma PublicReadIff(r: Resource, a: Structured)
    ensures (exists g :: g in ToGrants(r, Some(a)) && IsPublicRead(g)) <==> "*" in Users(a.read)
    ensures ToGrants(r, Some(a)) == [] <==> !NamesSomeone(a)
  {
    var grants, users := ToGrants(r, Some(a)), Users(a.read);
    var b1, b2 := Block(r, Group, Read, Groups(a.read)), Block(r, User, Read, users);
    var b3, b4 := Block(r, Group, Write, Groups(a.write)), Block(r, User, Write, Users(a.write));
    assert forall g :: g in grants <==> g in b1 || g in b2 || g in b3 || g in b4;
    if "*" in users {
      var i :| 0 <= i < |users| && users[i] == "*";
      assert b2[i] in b2 && IsPublicRead(b2[i]);
    }
  }

  /** The form survives the way to grants and back exactly when it has the shape that the way back produces. */
  lemma StructuredRoundTripIff(r: Resource, access: Option<Structured>)
    ensures FromGrants(ToGrants(r, access)) == access <==>
            match access
            case None => r.kind != "file"
            case Some(a) =>
              || a == PRIVATE
              || (&& BothLists(a.read) && BothLists(a.write) && NamesSomeone(a) && "*" !in Users(a.read)
                  && NoRepetition(a.read) && NoRepetition(a.write))
  {
    match access
    case None =>
      if r.kind != "file" {
        var g := Grant(r, EVERYONE, Read);
        assert g in ToGrants(r, access) && IsPublicRead(g);
      }
    case Some(a) =>
      IdsOfStructured(r, a);
      PublicReadIff(r, a);
      DedupIsIdentityIff(Groups(a.read));
      DedupIsIdentityIff(Users(a.read));
      DedupIsIdentityIff(Groups(a.write));
      DedupIsIdentityIff(Users(a.write));
  }

  // ---- Grants to structured form and back ----

  /** The kinds and permissions that the structured form has room for. */
  predicate Expressible(g: Grant) {
    (g.principal.kind == User || g.principal.kind == Group) && (g.permission == Read || g.permission == Write)
  }

  lemma {:induction false} IdsElement(grants: seq<Grant>, r: Resource, kind: PrincipalType, permission: Permission,
                                      id: Id)
    requires forall g :: g in grants ==> g.resource == r
    ensures id in Ids(grants, kind, permission) <==> Grant(r, Principal(kind, id), permission) in grants
    decreases |grants|
  {
    if grants != [] {
      var front, last := grants[..|grants| - 1], grants[|grants| - 1];
      assert grants == front + [last];
      IdsElement(front, r, kind, permission, id);
      assert last in grants && last == Grant(r, last.principal, last.permission);
      assert last.principal == Principal(last.principal.kind, last.principal.id);
    }
  }

  lemma BlockElement(r: Resource, kind: PrincipalType, permission: Permission, ids: seq<Id>, g: Grant)
    ensures g in Block(r, kind, permission, ids) <==>
            g.resource == r && g.principal.kind == kind && g.permission == permission && g.principal.id in ids
  {
    var block := Block(r, kind, permission, ids);
    if g.resource == r && g.principal.kind == kind && g.permission == permission && g.principal.id in ids {
      var i :| 0 <= i < |ids| && ids[i] == g.principal.id;
      assert block[i] == g;
    }
  }

  /** A list names the id under the given kind of principal. */
  predicate Lists(data: Option<PermissionData>, kind: PrincipalType, id: Id) {
    && data.Some?
    && (|| (kind == Group && data.value.groupIds.Some? && id in data.value.groupIds.value)
        || (kind == User && data.value.userIds.Some? && id in data.value.userIds.value))
  }

  /** The grants of a structured form: for each permission the listed groups and users, and no others. */
  lemma GrantedIff(r: Resource, a: Structured, g: Grant)
    ensures g in ToGrants(r, Some(a)) <==>
            && g.resource == r
            && (|| (g.permission == Read && Lists(a.read, g.principal.kind, g.principal.id))
                || (g.permission == Write && Lists(a.write, g.principal.kind, g.principal.id)))
  {
    BlockElement(r, Group, Read, Groups(a.read), g);
    BlockElement(r, User, Read, Users(a.read), g);
    BlockElement(r, Group, Write, Groups(a.write), g);
    BlockElement(r, User, Write, Users(a.write), g);
    hide Block;
  }

  lemma {:induction false} IdsMember(grants: seq<Grant>, kind: PrincipalType, permission: Permission, id: Id)
    ensures id in Ids(grants, kind, permission) <==>
            exists g :: g in grants && g.principal == Principal(kind, id) && g.permission == permission
    decreases |grants|
  {
    if grants != [] {
      var front, last := grants[..|grants| - 1], grants[|grants| - 1];
      assert grants == front + [last];
      IdsMember(front, kind, permission, id);
    }
  }

  /** The structured form of grants without public reading lists exactly the granted groups and users. */
  lemma ListedIff(grants: seq<Grant>, kind: PrincipalType, id: Id)
    requires grants != [] && (forall g :: g in grants ==> !IsPublicRead(g)) && (kind == Group || kind == User)
    ensures FromGrants(grants).Some?
    ensures var a := FromGrants(grants).value;
            && (Lists(a.read, kind, id) <==>
                exists g :: g in grants && g.principal == Principal(kind, id) && g.permission == Read)
            && (Lists(a.write, kind, id) <==>
                exists g :: g in grants && g.principal == Principal(kind, id) && g.permission == Write)
  {
    IdsMember(grants, kind, Read, id);
    IdsMember(grants, kind, Write, id);
  }

  /** Without public reading, what comes back is what the structured form has room for. */
  lemma BackWithoutPublic(r: Resource, grants: seq<Grant>, g: Grant)
    requires grants != [] && forall h :: h in grants ==> h.resource == r && !IsPublicRead(h)
    ensures g in ToGrants(r, FromGrants(grants)) <==> g in grants && Expressible(g)
  {
    var a := FromGrants(grants).value;
    BlockElement(r, Group, Read, Groups(a.read), g);
    BlockElement(r, User, Read, Users(a.read), g);
    BlockElement(r, Group, Write, Groups(a.write), g);
    BlockElement(r, User, Write, Users(a.write), g);
    IdsElement(grants, r, g.principal.kind, g.permission, g.principal.id);
    if g.resource == r {
      assert g == Grant(r, Principal(g.principal.kind, g.principal.id), g.permission);
    }
  }

  /**
   * A resource's grants survive the way to the structured form and back, as a set, exactly
   * when all fit it and none is public reading, or public reading is all there is.
   */
  lemma GrantsRoundTripIff(r: Resource, grants: seq<Grant>)
    requires forall g :: g in grants ==> g.resource == r
    ensures Elements(ToGrants(r, FromGrants(grants))) == Elements(grants) <==>
            if exists g :: g in grants && IsPublicRead(g)
            then r.kind != "file" && forall g :: g in grants ==> IsPublicRead(g)
            else forall g :: g in grants ==> Expressible(g)
  {
    var back := ToGrants(r, FromGrants(grants));
    if exists g :: g in grants && IsPublicRead(g) {
      var w :| w in grants && IsPublicRead(w);
      assert w == Grant(r, EVERYONE, Read) && w in Elements(grants);
      if forall g :: g in grants ==> IsPublicRead(g) {
        forall g | g in Elements(grants) ensures g == w { assert g in grants; }
        assert Elements(grants) == {w};
        if r.kind != "file" { assert Elements(back) == {w}; }
      } else {
        var g :| g in grants && !IsPublicRead(g);
        assert g in Elements(grants) && g !in Elements(back);
      }
    } else if grants == [] {
      assert FromGrants(grants) == Some(PRIVATE);
      assert back == [];
    } else {
      forall g ensures g in Elements(back) <==> g in Elements(grants) && Expressible(g) {
        BackWithoutPublic(r, grants, g);
      }
      if forall g :: g in grants ==> Expressible(g) {
        assert Elements(back) == Elements(grants);
      } else {
        var g :| g in grants && !Expressible(g);
        assert g in Elements(grants) && g !in Elements(back);
      }
    }
  }
}
