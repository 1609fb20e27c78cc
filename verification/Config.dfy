/**
 * Persistent configuration (config.py): one nested dictionary, changed in place, whose
 * entries are named by dotted paths.
 */
module Config {
  import opened Basics

  datatype Value = Null | Text(s: string) | Number(n: int)

  /** A configuration as a value: a scalar, or a dictionary of configurations. */
  datatype Node = Leaf(v: Value) | Dict(entries: map<string, Node>)

  type Path = seq<string>

  /** A lookup finds a node, meets a missing key, or asks a scalar for a key in a way that raises. */
  datatype Lookup = Found(node: Node) | Missing | TypeError

  function Contains(s: string, part: string): bool {
    exists i :: 0 <= i <= |s| && part <= s[i..]
  }

  /** The test `key in cur_config` and the step into it. */
  function Get(n: Node, path: Path): Lookup
    decreases |path|
  {
    if path == [] then Found(n)
    else match n
      case Dict(entries) => if path[0] in entries then Get(entries[path[0]], path[1..]) else Missing
      case Leaf(Text(s)) => if Contains(s, path[0]) then TypeError else Missing
      case Leaf(_) => TypeError
  }

  /** Saving makes missing dictionaries on the way; a scalar on the way raises before anything is changed. */
  function Save(n: Node, path: Path, v: Node): Option<Node>
    requires path != []
    decreases |path|
  {
    match n
    case Leaf(_) => None
    case Dict(entries) =>
      if |path| == 1 then Some(Dict(entries[path[0] := v]))
      else
        var child := if path[0] in entries then entries[path[0]] else Dict(map[]);
        var saved := Save(child, path[1..], v);
        if saved.Some? then Some(Dict(entries[path[0] := saved.value])) else None
  }

  // ---- One save ----

  lemma {:induction false} SaveThenGet(n: Node, path: Path, v: Node)
    requires path != [] && Save(n, path, v).Some?
    ensures Get(Save(n, path, v).value, path) == Found(v)
    decreases |path|
  {
    if |path| > 1 {
      var child := if path[0] in n.entries then n.entries[path[0]] else Dict(map[]);
      SaveThenGet(child, path[1..], v);
    }
  }

  predicate Apart(p: Path, q: Path) {
    !(p <= q) && !(q <= p)
  }

  /** No other path is disturbed, as long as neither path leads through the other. */
  lemma {:induction false} SaveFrame(n: Node, p: Path, q: Path, v: Node)
    requires p != [] && Apart(p, q) && Save(n, p, v).Some?
    ensures Get(Save(n, p, v).value, q) == Get(n, q)
    decreases |p|
  {
    if p[0] == q[0] {
      assert |p| == 1 ==> p <= q;
      assert |q| == 1 ==> q <= p;
      var child := if p[0] in n.entries then n.entries[p[0]] else Dict(map[]);
      ApartTails(p, q);
      SaveFrame(child, p[1..], q[1..], v);
    }
  }

  lemma ApartTails(p: Path, q: Path)
    requires p != [] && q != [] && p[0] == q[0] && Apart(p, q)
    ensures Apart(p[1..], q[1..])
  {
  }

  /** A scalar stands on the way to the path's last key. */
  ghost predicate Blocked(n: Node, path: Path) {
    exists k :: 0 <= k < |path| && Get(n, path[..k]).Found? && Get(n, path[..k]).node.Leaf?
  }

  /** A save raises exactly when a scalar stands on the way. */
  lemma {:induction false} SaveFailsIff(n: Node, path: Path, v: Node)
    requires path != []
    ensures Save(n, path, v).None? <==> Blocked(n, path)
    decreases |path|
  {
    match n
    case Leaf(_) =>
      assert Get(n, path[..0]) == Found(n);
    case Dict(entries) =>
      if |path| > 1 {
        var rest := path[1..];
        var child := if path[0] in entries then entries[path[0]] else Dict(map[]);
        SaveFailsIff(child, rest, v);
        forall k | 0 < k < |path| ensures path[..k][0] == path[0] && path[..k][1..] == rest[..k - 1] { }
        if Blocked(child, rest) {
          var k :| 0 <= k < |rest| && Get(child, rest[..k]).Found? && Get(child, rest[..k]).node.Leaf?;
          assert path[0] in entries ==> Get(n, path[..k + 1]) == Get(child, rest[..k]);
        }
        if Blocked(n, path) {
          var k :| 0 <= k < |path| && Get(n, path[..k]).Found? && Get(n, path[..k]).node.Leaf?;
          assert k > 0 && Get(child, rest[..k - 1]) == Get(n, path[..k]);
        }
      } else {
        forall k | 0 <= k < |path| ensures Get(n, path[..k]) == Found(n) { assert path[..k] == []; }
      }
  }

  // ---- Whole runs of saves ----

  datatype Entry = Entry(path: Path, value: Node)

  /** Configuration paths of which none leads through another. */
  ghost predicate PrefixFree(paths: set<Path>) {
    && [] !in paths
    && forall p, q :: p in paths && q in paths && p != q ==> Apart(p, q)
  }

  function SaveAll(n: Node, saves: seq<Entry>): Option<Node>
    requires forall e :: e in saves ==> e.path != []
  {
    if saves == [] then Some(n)
    else
      var before := SaveAll(n, saves[..|saves| - 1]);
      if before.None? then None else Save(before.value, saves[|saves| - 1].path, saves[|saves| - 1].value)
  }

  /** The flat map that the saves describe. */
  function Flat(saves: seq<Entry>): map<Path, Node> {
    if saves == [] then map[]
    else Flat(saves[..|saves| - 1])[saves[|saves| - 1].path := saves[|saves| - 1].value]
  }

  /** Every path reads its last saved value, or what was there before. */
  ghost predicate Refines(n: Node, start: Node, flat: map<Path, Node>, paths: set<Path>) {
    forall p :: p in paths ==>
      !Blocked(n, p) && Get(n, p) == if p in flat then Found(flat[p]) else Get(start, p)
  }

  /** The nested store behaves like a flat map: no save fails, each path reads its own last save. */
  lemma {:induction false} NestedRefinesFlat(start: Node, saves: seq<Entry>, paths: set<Path>)
    requires PrefixFree(paths)
    requires forall e :: e in saves ==> e.path in paths
    requires forall p :: p in paths ==> !Blocked(start, p)
    ensures SaveAll(start, saves).Some? && Refines(SaveAll(start, saves).value, start, Flat(saves), paths)
    decreases |saves|
  {
    if saves != [] {
      var front, last := saves[..|saves| - 1], saves[|saves| - 1];
      assert saves == front + [last];
      NestedRefinesFlat(start, front, paths);
      var before := SaveAll(start, front).value;
      SaveFailsIff(before, last.path, last.value);
      var after := Save(before, last.path, last.value).value;
      SaveThenGet(before, last.path, last.value);
      forall q | q in paths
        ensures !Blocked(after, q) && Get(after, q) == if q in Flat(saves) then Found(Flat(saves)[q]) else Get(start, q)
      {
        if q == last.path {
          StillOpen(before, last.path, last.value);
        } else {
          SaveFrame(before, last.path, q, last.value);
          OthersStillOpen(before, last.path, q, last.value);
        }
      }
    }
  }

  /** After a save every proper prefix of its path is a dictionary. */
  lemma {:induction false} OnTheWay(n: Node, p: Path, v: Node, k: nat)
    requires p != [] && k < |p| && Save(n, p, v).Some?
    ensures Get(Save(n, p, v).value, p[..k]).Found? && Get(Save(n, p, v).value, p[..k]).node.Dict?
    decreases |p|
  {
    if k > 0 {
      var child := if p[0] in n.entries then n.entries[p[0]] else Dict(map[]);
      OnTheWay(child, p[1..], v, k - 1);
      assert p[..k][1..] == p[1..][..k - 1];
    }
  }

  lemma StillOpen(n: Node, p: Path, v: Node)
    requires p != [] && Save(n, p, v).Some?
    ensures !Blocked(Save(n, p, v).value, p)
  {
    forall k | 0 <= k < |p|
      ensures Get(Save(n, p, v).value, p[..k]).Found? && Get(Save(n, p, v).value, p[..k]).node.Dict?
    {
      OnTheWay(n, p, v, k);
    }
  }

  /** A save blocks no path that does not lead through the saved one. */
  lemma OthersStillOpen(n: Node, p: Path, q: Path, v: Node)
    requires p != [] && Apart(p, q) && Save(n, p, v).Some? && !Blocked(n, q)
    ensures !Blocked(Save(n, p, v).value, q)
  {
    var after := Save(n, p, v).value;
    forall k | 0 <= k < |q| && Get(after, q[..k]).Found? ensures !Get(after, q[..k]).node.Leaf? {
      if q[..k] <= p {
        OnTheWay(n, p, v, k);
        assert q[..k] == p[..k];
      } else {
        assert !(p <= q[..k]);
        SaveFrame(n, p, q[..k], v);
      }
    }
  }

  lemma {:induction false} EmptyTakesAnyPath(path: Path, v: Node)
    requires path != []
    ensures Save(Dict(map[]), path, v).Some?
    decreases |path|
  {
    if |path| > 1 {
      EmptyTakesAnyPath(path[1..], v);
    }
  }

  // ---- The dictionaries as objects ----

  /** What a dictionary object holds under a key. */
  datatype Item = Scalar(v: Value) | Sub(dict: ConfigDict)

  /** How a lookup of an object ends. */
  datatype ItemLookup = FoundItem(item: Item) | MissingItem | Raised

  /** One dictionary object; its sub-dictionaries are objects of their own, shared with nothing else. */
  class ConfigDict {
    var items: map<string, Item>
    ghost var Repr: set<ConfigDict>

    ghost predicate Valid()
      reads this, Repr
      decreases Repr
    {
      && this in Repr
      && (forall k :: k in items && items[k].Sub? ==>
            var d := items[k].dict;
            d in Repr && d.Repr < Repr && this !in d.Repr && d.Valid())
      && (forall j, k :: j in items && k in items && j != k && items[j].Sub? && items[k].Sub? ==>
            items[j].dict.Repr !! items[k].dict.Repr)
    }

    /** The configuration that the object stands for. */
    ghost function Tree(): Node
      requires Valid()
      reads this, Repr
      decreases Repr
    {
      Dict(map k | k in items :: if items[k].Sub? then items[k].dict.Tree() else Leaf(items[k].v))
    }

    constructor ()
      ensures Valid() && fresh(Repr) && Tree() == Dict(map[])
    {
      items := map[];
      Repr := {this};
    }

    /** Changing one entry, and no object under another, changes the configuration at that key only. */
    twostate lemma OneEntryChanged(key: string)
      requires old(Valid()) && Valid() && items.Keys == old(items).Keys + {key}
      requires forall k :: k in old(items) && k != key ==>
                 items[k] == old(items)[k] &&
                 (items[k].Sub? ==> forall o :: o in old(items[k].dict.Repr) ==> unchanged(o))
      ensures Tree().entries == old(Tree()).entries[key := Tree().entries[key]]
    {
    }

    /** A key that is not there gets a new empty dictionary. */
    method MakeMissing(key: string)
      requires Valid()
      modifies this
      ensures Valid() && fresh(Repr - old(Repr))
      ensures key in items && forall k :: k in old(items) ==> k in items && items[k] == old(items)[k]
      ensures Tree() == if key in old(items) then old(Tree()) else Dict(old(Tree()).entries[key := Dict(map[])])
    {
      if key !in items {
        var made := new ConfigDict();
        items := items[key := Sub(made)];
        Repr := Repr + made.Repr;
        OneEntryChanged(key);
      }
    }

    /** Saving below a sub-dictionary changes that entry only. */
    method SaveBelow(key: string, rest: Path, v: Value) returns (ok: bool)
      requires Valid() && rest != [] && key in items && items[key].Sub?
      modifies Repr
      ensures Valid() && fresh(Repr - old(Repr))
      ensures ok <==> Save(old(Tree()).entries[key], rest, Leaf(v)).Some?
      ensures Tree().entries ==
              if ok then old(Tree()).entries[key := Save(old(Tree()).entries[key], rest, Leaf(v)).value]
                                else old(Tree()).entries
      decreases |rest|, 1
    {
      var child := items[key].dict;
      ok := child.SaveValue(rest, v);
      Repr := Repr + child.Repr;
      OneEntryChanged(key);
    }

    /** Walks down the path, making dictionaries as it goes, and assigns the last key. */
    method SaveValue(path: Path, v: Value) returns (ok: bool)
      requires Valid() && path != []
      modifies Repr
      ensures Valid() && fresh(Repr - old(Repr))
      ensures ok <==> Save(old(Tree()), path, Leaf(v)).Some?
      ensures Tree() == if ok then Save(old(Tree()), path, Leaf(v)).value else old(Tree())
      decreases |path|, 0
    {
      var key := path[0];
      if |path| == 1 {
        items := items[key := Scalar(v)];
        OneEntryChanged(key);
        return true;
      }
      EmptyTakesAnyPath(path[1..], Leaf(v));
      MakeMissing(key);
      if items[key].Scalar? {
        assert Tree().entries[key] == Leaf(items[key].v);
        return false;
      }
      ok := SaveBelow(key, path[1..], v);
    }

    /** get_config_value: advance a cursor until the path is used up; a missing key or a scalar ends it early. */
    method GetConfigValue(path: Path) returns (r: ItemLookup)
      requires Valid() && path != []
      ensures r.FoundItem? <==> Get(Tree(), path).Found?
      ensures r.MissingItem? <==> Get(Tree(), path).Missing?
      ensures r.FoundItem? && r.item.Scalar? ==> Get(Tree(), path) == Found(Leaf(r.item.v))
      ensures r.FoundItem? && r.item.Sub? ==>
                r.item.dict in Repr && r.item.dict.Valid() && Get(Tree(), path) == Found(r.item.dict.Tree())
    {
      var cursor := Sub(this);
      for i := 0 to |path|
        invariant cursor.Sub? ==> cursor.dict in Repr && cursor.dict.Repr <= Repr && cursor.dict.Valid()
        invariant Get(Tree(), path) == Get(if cursor.Sub? then cursor.dict.Tree() else Leaf(cursor.v), path[i..])
      {
        assert path[i..][0] == path[i] && path[i..][1..] == path[i + 1..];
        if cursor.Scalar? {
          return if cursor.v.Text? && !Contains(cursor.v.s, path[i]) then MissingItem else Raised;
        }
        if path[i] !in cursor.dict.items {
          return MissingItem;
        }
        cursor := cursor.dict.items[path[i]];
      }
      return FoundItem(cursor);
    }
  }

  /** A named setting with its own copy of the value. */
  class PersistentConfig {
    const path: Path
    var value: Item

    constructor (path: Path, value: Value)
      ensures this.path == path && this.value == Scalar(value)
    {
      this.path, this.value := path, Scalar(value);
    }

    /** Writes the setting's scalar value into the shared configuration. */
    method SaveTo(data: ConfigDict) returns (ok: bool)
      requires data.Valid() && path != [] && value.Scalar?
      modifies data.Repr
      ensures data.Valid()
      ensures ok <==> Save(old(data.Tree()), path, Leaf(old(value.v))).Some?
      ensures ok ==> Get(data.Tree(), path) == Found(Leaf(old(value.v)))
      ensures ok ==> forall q :: Apart(path, q) ==> Get(data.Tree(), q) == Get(old(data.Tree()), q)
      ensures !ok ==> data.Tree() == old(data.Tree())
    {
      ghost var before, v := data.Tree(), Leaf(value.v);
      ok := data.SaveValue(path, value.v);
      if ok {
        SaveThenGet(before, path, v);
        forall q | Apart(path, q) ensures Get(data.Tree(), q) == Get(before, q) {
          SaveFrame(before, path, q, v);
        }
      }
    }

    /** Takes over the configured value, unless there is none or it is null. */
    method UpdateFrom(data: ConfigDict)
      requires data.Valid() && path != []
      modifies this
      ensures Get(data.Tree(), path).Found? && Get(data.Tree(), path).node.Leaf? ==>
                value == if Get(data.Tree(), path).node.v == Null then old(value)
                         else Scalar(Get(data.Tree(), path).node.v)
      ensures Get(data.Tree(), path).Found? && Get(data.Tree(), path).node.Dict? ==>
                value.Sub? && value.dict in data.Repr && value.dict.Valid()
                && Get(data.Tree(), path) == Found(value.dict.Tree())
      ensures !Get(data.Tree(), path).Found? ==> value == old(value)
    {
      var found := data.GetConfigValue(path);
      if found.FoundItem? && found.item != Scalar(Null) {
        value := found.item;
      }
    }
  }
}
