/**
 * The access_grant table (models/access_grants.py): granting, revoking and replacing, with
 * at most one row for each resource, principal and permission.
 */
module GrantTable {
  import opened Basics
  import opened AccessQueries
  import opened AccessControl

  type RowId = string

  type Rows = map<RowId, Grant>

  /** No grant has two rows. */
  ghost predicate Unique(rows: Rows) {
    forall x, y :: x in rows && y in rows && x != y ==> rows[x] != rows[y]
  }

  // ---- Normalizing a submitted list ----

  /** One element of a submitted list; fields may be missing or of the wrong type. */
  datatype Submitted =
    | NotAGrant
    | Fields(id: Option<string>, kind: Option<PrincipalType>, principalId: Option<string>,
             permission: Option<Permission>)

  datatype Key = Key(principal: Principal, permission: Permission)

  datatype Normal = Normal(id: string, key: Key)

  predicate Valid(s: Submitted) {
    && s.Fields?
    && (s.kind == Some(User) || s.kind == Some(Group))
    && (s.permission == Some(Read) || s.permission == Some(Write))
    && s.principalId.Some? && s.principalId.value != ""
  }

  function KeyOf(s: Submitted): Key
    requires Valid(s)
  {
    Key(Principal(s.kind.value, s.principalId.value), s.permission.value)
  }

  /** The given id, or a new one; `uuid` stands for the generator, asked once per element. */
  function NormalOf(s: Submitted, uuid: string): Normal
    requires Valid(s)
  {
    Normal(if s.id.Some? && s.id.value != "" then s.id.value else uuid, KeyOf(s))
  }

  /** A dictionary in insertion order: assigning a key that is there keeps its place. */
  function Assign(dict: seq<Normal>, n: Normal): seq<Normal> {
    if dict == [] then [n]
    else if dict[0].key == n.key then [n] + dict[1..]
    else [dict[0]] + Assign(dict[1..], n)
  }

  function Normalized(list: seq<Submitted>, uuid: nat -> string): seq<Normal> {
    if list == [] then []
    else
      var front, k := Normalized(list[..|list| - 1], uuid), |list| - 1;
      if Valid(list[k]) then Assign(front, NormalOf(list[k], uuid(k))) else front
  }

  method NormalizeAccessGrants(list: Option<seq<Submitted>>, uuid: nat -> string) returns (deduped: seq<Normal>)
    ensures deduped == Normalized(if list.Some? then list.value else [], uuid)
  {
    deduped := [];
    if list.None? || list.value == [] {
      return;
    }
    for i := 0 to |list.value|
      invariant deduped == Normalized(list.value[..i], uuid)
    {
      var s := list.value[i];
      assert list.value[..i + 1][..i] == list.value[..i];
      if !s.Fields? { continue; }
      if s.kind != Some(User) && s.kind != Some(Group) { continue; }
      if s.permission != Some(Read) && s.permission != Some(Write) { continue; }
      if s.principalId.None? || s.principalId.value == "" { continue; }
      deduped := Assign(deduped, NormalOf(s, uuid(i)));
    }
    assert list.value[..|list.value|] == list.value;
  }

  function KeysOf(dict: seq<Normal>): seq<Key> {
    seq(|dict|, i requires 0 <= i < |dict| => dict[i].key)
  }

  ghost function ValidKeys(list: seq<Submitted>): set<Key> {
    set s | s in list && Valid(s) :: KeyOf(s)
  }

  lemma KeysOfCons(n: Normal, dict: seq<Normal>)
    ensures KeysOf([n] + dict) == [n.key] + KeysOf(dict)
  {
  }

  lemma {:induction false} AssignedKeys(dict: seq<Normal>, n: Normal)
    ensures KeysOf(Assign(dict, n)) == if n.key in KeysOf(dict) then KeysOf(dict) else KeysOf(dict) + [n.key]
    decreases |dict|
  {
    if dict == [] {
      assert KeysOf([n]) == [n.key];
    } else {
      hide KeysOf;
      var rest := dict[1..];
      assert dict == [dict[0]] + rest;
      KeysOfCons(dict[0], rest);
      AssignedKeys(rest, n);
      if dict[0].key == n.key {
        KeysOfCons(n, rest);
      } else {
        KeysOfCons(dict[0], Assign(rest, n));
        assert [dict[0].key] + (KeysOf(rest) + [n.key]) == [dict[0].key] + KeysOf(rest) + [n.key];
      }
    }
  }

  lemma {:induction false} AssignElements(dict: seq<Normal>, n: Normal)
    ensures n in Assign(dict, n)
    ensures forall m :: m in Assign(dict, n) ==> m == n || m in dict
    decreases |dict|
  {
    if dict != [] {
      AssignElements(dict[1..], n);
    }
  }

  lemma AssignKeys(dict: seq<Normal>, n: Normal)
    requires Distinct(KeysOf(dict))
    ensures Distinct(KeysOf(Assign(dict, n)))
    ensures KeysOf(Assign(dict, n)) == if n.key in KeysOf(dict) then KeysOf(dict) else KeysOf(dict) + [n.key]
    ensures forall m :: m in Assign(dict, n) ==> m == n || m in dict
  {
    AssignedKeys(dict, n);
    AssignElements(dict, n);
    if n.key !in KeysOf(dict) {
      assert Elements([n.key]) == {n.key} && n.key !in Elements(KeysOf(dict));
      DistinctConcat(KeysOf(dict), [n.key]);
    }
  }

  /** Normalizing keeps exactly the valid keys, each once. */
  lemma {:induction false} NormalizedKeys(list: seq<Submitted>, uuid: nat -> string)
    ensures Distinct(KeysOf(Normalized(list, uuid)))
    ensures Elements(KeysOf(Normalized(list, uuid))) == ValidKeys(list)
    decreases |list|
  {
    if list == [] {
      assert ValidKeys(list) == {};
    } else {
      var front, last := list[..|list| - 1], list[|list| - 1];
      NormalizedKeys(front, uuid);
      assert list == front + [last];
      if Valid(last) {
        var n, keys := NormalOf(last, uuid(|list| - 1)), KeysOf(Normalized(front, uuid));
        AssignKeys(Normalized(front, uuid), n);
        ElementsOfConcat(keys, [n.key]);
        assert n.key in keys <==> n.key in Elements(keys);
        assert ValidKeys(list) == ValidKeys(front) + {KeyOf(last)};
      } else {
        assert ValidKeys(list) == ValidKeys(front);
      }
    }
  }

  function Resubmitted(dict: seq<Normal>): seq<Submitted> {
    seq(|dict|, i requires 0 <= i < |dict| =>
      Fields(Some(dict[i].id), Some(dict[i].key.principal.kind), Some(dict[i].key.principal.id),
             Some(dict[i].key.permission)))
  }

  /** What normalizing produces: valid entries under their own non-empty ids. */
  ghost predicate IsNormal(n: Normal) {
    && n.id != "" && n.key.principal.id != ""
    && (n.key.principal.kind == User || n.key.principal.kind == Group)
    && (n.key.permission == Read || n.key.permission == Write)
  }

  /** The submitted grant at `k` is the last valid one with its key. */
  ghost predicate IsLastOf(list: seq<Submitted>, k: nat, key: Key) {
    && k < |list| && Valid(list[k]) && KeyOf(list[k]) == key
    && forall j :: k < j < |list| && Valid(list[j]) ==> KeyOf(list[j]) != key
  }

  /** Of several submissions of one key the last gives the id, and one without an id a new one. */
  lemma {:induction false} LastSubmissionWins(list: seq<Submitted>, uuid: nat -> string, n: Normal)
    requires n in Normalized(list, uuid)
    ensures exists k: nat :: IsLastOf(list, k, n.key) &&
                             n.id == if list[k].id.Some? && list[k].id.value != "" then list[k].id.value else uuid(k)
    decreases |list|
  {
    var k, front := |list| - 1, list[..|list| - 1];
    NormalizedKeys(front, uuid);
    if Valid(list[k]) {
      var added := NormalOf(list[k], uuid(k));
      AssignReplaces(Normalized(front, uuid), added);
      if n.key == added.key {
        assert n == added && IsLastOf(list, k, n.key);
      } else {
        LastSubmissionWins(front, uuid, n);
        var i: nat :| IsLastOf(front, i, n.key) &&
                      n.id == if front[i].id.Some? && front[i].id.value != "" then front[i].id.value else uuid(i);
        assert IsLastOf(list, i, n.key);
      }
    } else {
      LastSubmissionWins(front, uuid, n);
      var i: nat :| IsLastOf(front, i, n.key) &&
                    n.id == if front[i].id.Some? && front[i].id.value != "" then front[i].id.value else uuid(i);
      assert IsLastOf(list, i, n.key);
    }
  }

  /** Assigning a key leaves no other entry under it. */
  lemma {:induction false} AssignReplaces(dict: seq<Normal>, n: Normal)
    requires Distinct(KeysOf(dict))
    ensures forall m :: m in Assign(dict, n) ==> m == n || (m in dict && m.key != n.key)
    decreases |dict|
  {
    if dict != [] {
      var rest := dict[1..];
      assert KeysOf(dict)[1..] == KeysOf(rest);
      DistinctTail(KeysOf(dict));
      assert forall m :: m in dict <==> m == dict[0] || m in rest;
      if dict[0].key == n.key {
        NewKey(rest, n);
      } else {
        AssignReplaces(rest, n);
      }
    }
  }

  lemma {:induction false} NormalizedIsNormal(list: seq<Submitted>, uuid: nat -> string)
    requires forall k: nat :: uuid(k) != ""
    ensures forall n :: n in Normalized(list, uuid) ==> IsNormal(n)
    decreases |list|
  {
    if list != [] {
      var front, last := list[..|list| - 1], list[|list| - 1];
      NormalizedIsNormal(front, uuid);
      NormalizedKeys(front, uuid);
      if Valid(last) {
        AssignKeys(Normalized(front, uuid), NormalOf(last, uuid(|list| - 1)));
      }
    }
  }

  /** A normal list with distinct keys normalizes to itself, ids and order included. */
  lemma {:induction false} NormalListUnchanged(dict: seq<Normal>, uuid: nat -> string)
    requires Distinct(KeysOf(dict)) && forall n :: n in dict ==> IsNormal(n)
    ensures Normalized(Resubmitted(dict), uuid) == dict
    decreases |dict|
  {
    if dict != [] {
      var front, last := dict[..|dict| - 1], dict[|dict| - 1];
      FrontFields(dict);
      assert last in dict && forall n :: n in front ==> n in dict;
      DistinctFront(KeysOf(dict));
      NormalAgain(last, uuid(|dict| - 1));
      NewKey(front, last);
      hide Distinct, Assign, IsNormal, NormalOf, KeysOf, Resubmitted;
      NormalListUnchanged(front, uuid);
      AssignNew(front, last);
      FrontAndLast(dict);
    }
  }

  lemma FrontFields(dict: seq<Normal>)
    requires dict != []
    ensures var k, last := |dict| - 1, dict[|dict| - 1];
            && |KeysOf(dict)| == k + 1 && |Resubmitted(dict)| == k + 1
            && KeysOf(dict)[..k] == KeysOf(dict[..k]) && KeysOf(dict)[k] == last.key
            && Resubmitted(dict)[..k] == Resubmitted(dict[..k])
            && Resubmitted(dict)[k] ==
               Fields(Some(last.id), Some(last.key.principal.kind), Some(last.key.principal.id),
                      Some(last.key.permission))
  {
  }

  lemma NormalAgain(n: Normal, uuid: string)
    requires IsNormal(n)
    ensures var s := Fields(Some(n.id), Some(n.key.principal.kind), Some(n.key.principal.id), Some(n.key.permission));
            Valid(s) && NormalOf(s, uuid) == n
  {
  }

  lemma NewKey(dict: seq<Normal>, n: Normal)
    requires n.key !in KeysOf(dict)
    ensures forall i :: 0 <= i < |dict| ==> dict[i].key != n.key
  {
    forall i | 0 <= i < |dict| ensures dict[i].key != n.key {
      assert KeysOf(dict)[i] in KeysOf(dict);
    }
  }

  lemma {:induction false} AssignNew(dict: seq<Normal>, n: Normal)
    requires forall i :: 0 <= i < |dict| ==> dict[i].key != n.key
    ensures Assign(dict, n) == dict + [n]
    decreases |dict|
  {
    if dict != [] {
      AssignNew(dict[1..], n);
    }
  }

  /** Normalizing twice is normalizing once. */
  lemma NormalizeIdempotent(list: seq<Submitted>, uuid: nat -> string, uuid': nat -> string)
    requires forall k: nat :: uuid(k) != ""
    ensures Normalized(Resubmitted(Normalized(list, uuid)), uuid') == Normalized(list, uuid)
  {
    NormalizedKeys(list, uuid);
    NormalizedIsNormal(list, uuid);
    NormalListUnchanged(Normalized(list, uuid), uuid');
  }

  // ---- What the operations do to the rows ----

  function Without(rows: Rows, g: Grant): Rows {
    map x | x in rows && rows[x] != g :: rows[x]
  }

  function WithoutResource(rows: Rows, r: Resource): Rows {
    map x | x in rows && rows[x].resource != r :: rows[x]
  }

  function Inserted(rows: Rows, ids: seq<RowId>, grants: seq<Grant>): Rows
    requires |ids| == |grants|
  {
    if ids == [] then rows
    else Inserted(rows, ids[..|ids| - 1], grants[..|grants| - 1])[ids[|ids| - 1] := grants[|grants| - 1]]
  }

  function GrantsFor(r: Resource, keys: seq<Key>): seq<Grant> {
    seq(|keys|, i requires 0 <= i < |keys| => Grant(r, keys[i].principal, keys[i].permission))
  }

  /** The resource's rows give way to rows for the grants. */
  function Replaced(rows: Rows, r: Resource, ids: seq<RowId>, grants: seq<Grant>): Rows
    requires |ids| == |grants|
  {
    Inserted(WithoutResource(rows, r), ids, grants)
  }

  /** The grants for a submitted list. */
  function SubmittedGrants(r: Resource, list: seq<Submitted>, uuid: nat -> string): seq<Grant> {
    GrantsFor(r, KeysOf(Normalized(list, uuid)))
  }

  /** Row ids that a generator may hand out: new and all different. */
  ghost predicate FreshIds(rows: Rows, ids: seq<RowId>) {
    Distinct(ids) && forall x :: x in ids ==> x !in rows
  }

  class AccessGrantsTable {
    var rows: Rows

    constructor ()
      ensures rows == map[] && Unique(rows)
    {
      rows := map[];
    }

    method GrantAccess(g: Grant, newId: RowId) returns (id: RowId)
      requires Unique(rows) && newId !in rows
      modifies this
      ensures Unique(rows) && rows.Values == old(rows).Values + {g}
      ensures id in rows && rows[id] == g
      ensures rows == if g in old(rows).Values then old(rows) else old(rows)[newId := g]
    {
      if x :| x in rows && rows[x] == g {
        return x;
      }
      rows := rows[newId := g];
      assert rows[newId] == g;
      assert forall x :: x in old(rows) ==> rows[x] == old(rows)[x];
      return newId;
    }

    method RevokeAccess(g: Grant) returns (found: bool)
      requires Unique(rows)
      modifies this
      ensures Unique(rows) && rows == Without(old(rows), g)
      ensures forall x :: x in rows <==> x in old(rows) && old(rows)[x] != g
      ensures forall x :: x in rows ==> rows[x] == old(rows)[x]
      ensures found <==> g in old(rows).Values
      ensures rows.Values == old(rows).Values - {g}
    {
      found := exists x :: x in rows && rows[x] == g;
      WithoutValues(rows, g);
      rows := map x | x in rows && rows[x] != g :: rows[x];
    }

    method RevokeAllAccess(r: Resource) returns (count: nat)
      requires Unique(rows)
      modifies this
      ensures Unique(rows) && rows == WithoutResource(old(rows), r)
      ensures forall x :: x in rows <==> x in old(rows) && old(rows)[x].resource != r
      ensures forall x :: x in rows ==> rows[x] == old(rows)[x]
      ensures count == |old(rows)| - |rows|
    {
      ghost var before := rows;
      var gone := set x | x in rows && rows[x].resource == r;
      count := |gone|;
      rows := map x | x in rows && rows[x].resource != r :: rows[x];
      assert before.Keys == rows.Keys + gone;
      assert |before.Keys| == |rows.Keys| + |gone|;
    }

    /** Replaces a resource's grants by the valid ones of a submitted list; `ids` are the new row ids. */
    method SetAccessGrants(r: Resource, list: Option<seq<Submitted>>, uuid: nat -> string, ids: seq<RowId>)
      returns (created: seq<Grant>)
      requires Unique(rows) && FreshIds(rows, ids)
      requires |ids| == |Normalized(if list.Some? then list.value else [], uuid)|
      modifies this
      ensures Unique(rows)
      ensures rows.Values == (set g | g in old(rows).Values && g.resource != r) +
                             set k | k in ValidKeys(if list.Some? then list.value else []) ::
                               Grant(r, k.principal, k.permission)
      ensures forall x :: x in old(rows) && old(rows)[x].resource != r ==> x in rows && rows[x] == old(rows)[x]
      ensures Elements(created) == set g | g in rows.Values && g.resource == r
      ensures created == SubmittedGrants(r, if list.Some? then list.value else [], uuid)
      ensures rows == Replaced(old(rows), r, ids, created)
    {
      ghost var before := rows;
      rows := map x | x in rows && rows[x].resource != r :: rows[x];
      var normalized := NormalizeAccessGrants(list, uuid);
      NormalizedKeys(if list.Some? then list.value else [], uuid);
      var keys := KeysOf(normalized);
      created := GrantsFor(r, keys);
      GrantsForKeys(r, keys);
      WithoutResourceValues(before, r);
      InsertedRows(rows, ids, created);
      rows := InsertAll(rows, ids, created);
    }

    /**
     * Replaces a resource's grants from the structured form.  A repeated id violates the
     * table's uniqueness constraint, and the transaction leaves the table as it was.
     */
    method SetAccessControl(r: Resource, access: Option<Structured>, ids: seq<RowId>) returns (ok: bool)
      requires Unique(rows) && FreshIds(rows, ids) && |ids| == |ToGrants(r, access)|
      modifies this
      ensures Unique(rows)
      ensures ok <==> Distinct(ToGrants(r, access))
      ensures !ok ==> rows == old(rows)
      ensures ok ==> rows.Values == (set g | g in old(rows).Values && g.resource != r) + Elements(ToGrants(r, access))
      ensures ok ==> rows == Replaced(old(rows), r, ids, ToGrants(r, access))
      ensures forall x :: x in old(rows) && old(rows)[x].resource != r ==> x in rows && rows[x] == old(rows)[x]
    {
      ghost var before := rows;
      var grants := AccessControlToGrants(r, access);
      ToGrantsResource(r, access);
      ok := NoRepeats(grants);
      if ok {
        rows := map x | x in rows && rows[x].resource != r :: rows[x];
        WithoutResourceValues(before, r);
        InsertedRows(rows, ids, grants);
        rows := InsertAll(rows, ids, grants);
      }
    }
  }

  method InsertAll(rows: Rows, ids: seq<RowId>, grants: seq<Grant>) returns (r: Rows)
    requires |ids| == |grants|
    ensures r == Inserted(rows, ids, grants)
  {
    r := rows;
    for i := 0 to |ids|
      invariant r == Inserted(rows, ids[..i], grants[..i])
    {
      assert ids[..i + 1][..i] == ids[..i] && grants[..i + 1][..i] == grants[..i];
      r := r[ids[i] := grants[i]];
    }
    assert ids[..|ids|] == ids && grants[..|grants|] == grants;
  }

  /** The constraint check of the database. */
  method NoRepeats(grants: seq<Grant>) returns (ok: bool)
    ensures ok <==> Distinct(grants)
  {
    for i := 0 to |grants|
      invariant Distinct(grants[..i])
    {
      if grants[i] in grants[..i] {
        assert exists j :: 0 <= j < i && grants[j] == grants[i];
        return false;
      }
      assert grants[..i + 1] == grants[..i] + [grants[i]];
    }
    assert grants[..|grants|] == grants;
    return true;
  }

  lemma WithoutValues(rows: Rows, g: Grant)
    ensures Without(rows, g).Values == rows.Values - {g}
  {
    var rest := Without(rows, g);
    forall h | h in rows.Values && h != g ensures h in rest.Values {
      var x :| x in rows && rows[x] == h;
      assert rest[x] == h;
    }
  }

  lemma WithoutResourceValues(rows: Rows, r: Resource)
    ensures WithoutResource(rows, r).Values == set g | g in rows.Values && g.resource != r
  {
    var rest := WithoutResource(rows, r);
    forall h | h in rows.Values && h.resource != r ensures h in rest.Values {
      var x :| x in rows && rows[x] == h;
      assert rest[x] == h;
    }
  }

  lemma GrantsForKeys(r: Resource, keys: seq<Key>)
    requires Distinct(keys)
    ensures Distinct(GrantsFor(r, keys))
    ensures Elements(GrantsFor(r, keys)) == set k | k in Elements(keys) :: Grant(r, k.principal, k.permission)
    ensures forall g :: g in GrantsFor(r, keys) ==> g.resource == r
  {
    var grants := GrantsFor(r, keys);
    forall i, j | 0 <= i < j < |grants| ensures grants[i] != grants[j] {
      assert keys[i] != keys[j];
    }
    forall k | k in Elements(keys) ensures Grant(r, k.principal, k.permission) in Elements(grants) {
      var i :| 0 <= i < |keys| && keys[i] == k;
      assert grants[i] in grants;
    }
    forall g | g in Elements(grants)
      ensures exists k :: k in Elements(keys) && g == Grant(r, k.principal, k.permission)
    {
      var i :| 0 <= i < |grants| && grants[i] == g;
      assert keys[i] in Elements(keys);
    }
  }

  lemma ToGrantsResource(r: Resource, access: Option<Structured>)
    ensures forall g :: g in ToGrants(r, access) ==> g.resource == r
  {
  }

  /** `t` has the old rows and, under the new ids, rows for the new grants, none twice. */
  ghost predicate Extends(rows: Rows, t: Rows, ids: seq<RowId>, grants: seq<Grant>) {
    && Unique(t) && t.Values == rows.Values + Elements(grants) && t.Keys == rows.Keys + Elements(ids)
    && forall x :: x in rows ==> t[x] == rows[x]
  }

  /** New rows with distinct grants that no old row has keep the table free of repetition. */
  lemma {:induction false} InsertedRows(rows: Rows, ids: seq<RowId>, grants: seq<Grant>)
    requires |ids| == |grants| && Unique(rows) && FreshIds(rows, ids) && Distinct(grants)
    requires Elements(grants) !! rows.Values
    ensures Extends(rows, Inserted(rows, ids, grants), ids, grants)
    decreases |ids|
  {
    hide FreshIds, Distinct, Elements, Unique, Extends;
    if ids == [] {
      NothingInserted(rows, ids, grants);
    } else {
      var k := |ids| - 1;
      var front := Inserted(rows, ids[..k], grants[..k]);
      assert Inserted(rows, ids, grants) == front[ids[k] := grants[k]];
      hide Inserted;
      FreshFront(rows, ids);
      GrantsFront(grants);
      InsertedRows(rows, ids[..k], grants[..k]);
      ExtendsOne(rows, front, ids[..k], grants[..k], ids[k], grants[k]);
      FrontAndLast(ids);
      FrontAndLast(grants);
    }
  }

  lemma FrontAndLast<T>(s: seq<T>)
    requires s != []
    ensures s == s[..|s| - 1] + [s[|s| - 1]]
  {
  }

  lemma NothingInserted(rows: Rows, ids: seq<RowId>, grants: seq<Grant>)
    requires ids == [] && grants == [] && Unique(rows)
    ensures Extends(rows, Inserted(rows, ids, grants), ids, grants)
  {
    assert Elements(grants) == {} && Elements(ids) == {};
  }

  lemma ExtendsOne(rows: Rows, front: Rows, ids: seq<RowId>, grants: seq<Grant>, id: RowId, g: Grant)
    requires Extends(rows, front, ids, grants)
    requires id !in rows && id !in Elements(ids) && g !in rows.Values && g !in Elements(grants)
    ensures Extends(rows, front[id := g], ids + [id], grants + [g])
  {
    hide Elements, Distinct, Unique;
    Append(ids, id);
    Append(grants, g);
    InsertOne(front, id, g);
  }

  lemma GrantsFront(grants: seq<Grant>)
    requires Distinct(grants) && grants != []
    ensures var k := |grants| - 1;
            && Distinct(grants[..k]) && grants[k] !in Elements(grants[..k])
            && grants[k] in Elements(grants) && Elements(grants[..k]) <= Elements(grants)
  {
    DistinctFront(grants);
    InElements(grants);
    InElements(grants[..|grants| - 1]);
  }

  lemma FreshFront(rows: Rows, ids: seq<RowId>)
    requires FreshIds(rows, ids) && ids != []
    ensures var k := |ids| - 1;
            FreshIds(rows, ids[..k]) && ids[k] !in rows && ids[k] !in Elements(ids[..k])
  {
    DistinctFront(ids);
    InElements(ids[..|ids| - 1]);
    assert ids[|ids| - 1] in ids;
  }

  lemma InsertOne(rows: Rows, id: RowId, g: Grant)
    requires Unique(rows) && id !in rows && g !in rows.Values
    ensures Unique(rows[id := g]) && rows[id := g].Values == rows.Values + {g}
  {
    var t := rows[id := g];
    assert t[id] == g;
    forall h | h in rows.Values ensures h in t.Values {
      var x :| x in rows && rows[x] == h;
      assert t[x] == h;
    }
    forall x | x in rows ensures rows[x] != g { assert rows[x] in rows.Values; }
  }

  // ---- Whole runs ----

  /** `ids` stands for the generator of row ids. */
  datatype Op =
    | Granting(g: Grant, id: RowId)
    | Revoking(g: Grant)
    | RevokingAll(r: Resource)
    | Setting(r: Resource, list: seq<Submitted>, uuid: nat -> string, ids: nat -> RowId)
    | SettingControl(r: Resource, access: Option<Structured>, ids: nat -> RowId)

  function FirstIds(ids: nat -> RowId, n: nat): (r: seq<RowId>)
    ensures |r| == n
  {
    seq(n, i requires 0 <= i < n => ids(i))
  }

  /** New rows get new ids. */
  ghost predicate Allowed(rows: Rows, op: Op) {
    match op
    case Granting(_, id) => id !in rows
    case Setting(r, list, uuid, ids) => FreshIds(rows, FirstIds(ids, |SubmittedGrants(r, list, uuid)|))
    case SettingControl(r, access, ids) => FreshIds(rows, FirstIds(ids, |ToGrants(r, access)|))
    case _ => true
  }

  ghost function Apply(rows: Rows, op: Op): Rows {
    match op
    case Granting(g, id) => if g in rows.Values then rows else rows[id := g]
    case Revoking(g) => Without(rows, g)
    case RevokingAll(r) => WithoutResource(rows, r)
    case Setting(r, list, uuid, ids) =>
      var grants := SubmittedGrants(r, list, uuid);
      Replaced(rows, r, FirstIds(ids, |grants|), grants)
    case SettingControl(r, access, ids) =>
      var grants := ToGrants(r, access);
      if Distinct(grants) then Replaced(rows, r, FirstIds(ids, |grants|), grants) else rows
  }

  /** The same on plain sets of grants. */
  ghost function Meant(grants: set<Grant>, op: Op): set<Grant> {
    match op
    case Granting(g, _) => grants + {g}
    case Revoking(g) => grants - {g}
    case RevokingAll(r) => set g | g in grants && g.resource != r
    case Setting(r, list, _, _) =>
      (set g | g in grants && g.resource != r) + set k | k in ValidKeys(list) :: Grant(r, k.principal, k.permission)
    case SettingControl(r, access, _) =>
      if Distinct(ToGrants(r, access)) then (set g | g in grants && g.resource != r) + Elements(ToGrants(r, access))
      else grants
  }

  ghost function Run(ops: seq<Op>): Rows {
    if ops == [] then map[] else Apply(Run(ops[..|ops| - 1]), ops[|ops| - 1])
  }

  ghost function MeantRun(ops: seq<Op>): set<Grant> {
    if ops == [] then {} else Meant(MeantRun(ops[..|ops| - 1]), ops[|ops| - 1])
  }

  ghost predicate AllAllowed(ops: seq<Op>) {
    ops != [] ==> AllAllowed(ops[..|ops| - 1]) && Allowed(Run(ops[..|ops| - 1]), ops[|ops| - 1])
  }

  lemma ReplacedRows(rows: Rows, r: Resource, ids: seq<RowId>, grants: seq<Grant>)
    requires |ids| == |grants| && Unique(rows) && FreshIds(rows, ids) && Distinct(grants)
    requires forall g :: g in grants ==> g.resource == r
    ensures Unique(Replaced(rows, r, ids, grants))
    ensures Replaced(rows, r, ids, grants).Values == (set g | g in rows.Values && g.resource != r) + Elements(grants)
  {
    WithoutResourceValues(rows, r);
    InsertedRows(WithoutResource(rows, r), ids, grants);
  }

  lemma ApplyIsMeant(rows: Rows, op: Op)
    requires Unique(rows) && Allowed(rows, op)
    ensures Unique(Apply(rows, op)) && Apply(rows, op).Values == Meant(rows.Values, op)
  {
    hide Inserted, Normalized, ToGrants, FirstIds, ValidKeys;
    match op
    case Granting(g, id) =>
      if g !in rows.Values {
        InsertOne(rows, id, g);
      }
    case Revoking(g) => WithoutValues(rows, g);
    case RevokingAll(r) => WithoutResourceValues(rows, r);
    case Setting(r, list, uuid, ids) =>
      NormalizedKeys(list, uuid);
      GrantsForKeys(r, KeysOf(Normalized(list, uuid)));
      var grants := SubmittedGrants(r, list, uuid);
      ReplacedRows(rows, r, FirstIds(ids, |grants|), grants);
    case SettingControl(r, access, ids) =>
      ToGrantsResource(r, access);
      if Distinct(ToGrants(r, access)) {
        ReplacedRows(rows, r, FirstIds(ids, |ToGrants(r, access)|), ToGrants(r, access));
      }
  }

  /** In every reachable state each grant has one row, and the rows are the set that the run describes. */
  lemma {:induction false} RunIsMeant(ops: seq<Op>)
    requires AllAllowed(ops)
    ensures Unique(Run(ops)) && Run(ops).Values == MeantRun(ops)
  {
    if ops != [] {
      RunIsMeant(ops[..|ops| - 1]);
      ApplyIsMeant(Run(ops[..|ops| - 1]), ops[|ops| - 1]);
    }
  }
}
