/** Worked records: the naming rules of the flattener on small inputs. */
module FlattenExamples {
  import opened Wrappers
  import opened Dicts
  import opened Json
  import opened NestedToSimpleDict

  /** A write log without repeated keys is the flat record itself. */
  lemma FlattenOfFreshLog(data: Dict<Json>, out: Dict<Json>)
    requires Paths(data, None, "_") == out
    requires DistinctKeys(out)
    ensures Flatten(data, "_") == out
  {
    FlattenIsPutAll(data, "_");
    assert [] + out == out;
    PutAllFresh([], out);
  }

  lemma NestedDictPaths()
    ensures Paths([("a", Obj([("b", Int(1)), ("c", Int(2))]))], None, "_") == [("a_b", Int(1)), ("a_c", Int(2))]
  {
    var inner: Dict<Json> := [("b", Int(1)), ("c", Int(2))];
    var data: Dict<Json> := [("a", Obj(inner))];
    NestedDictExtendsPath("a", inner, None, "_");
    assert LeafKey(Some("a"), "b", "_") == "a_b";
    assert LeafKey(Some("a"), "c", "_") == "a_c";
    assert data[1..] == [];
  }

  /** `{"a": {"b": 1, "c": 2}}` flattens to `{"a_b": 1, "a_c": 2}`. */
  lemma NestedDictExample()
    ensures Flatten([("a", Obj([("b", Int(1)), ("c", Int(2))]))], "_") == [("a_b", Int(1)), ("a_c", Int(2))]
  {
    var data: Dict<Json> := [("a", Obj([("b", Int(1)), ("c", Int(2))]))];
    var out: Dict<Json> := [("a_b", Int(1)), ("a_c", Int(2))];
    NestedDictPaths();
    assert Keys(out) == ["a_b", "a_c"];
    FlattenOfFreshLog(data, out);
  }

  const disk0: Dict<Json> := [("name", Str("d0"))]
  const disk1: Dict<Json> := [("name", Str("d1"))]

  lemma DiskIndexPaths()
    ensures IndexPath("_", 0) == "_0" && IndexPath("_", 1) == "_0_1"
  {
    assert NatToString(0) == "0" && NatToString(1) == "1";
  }

  lemma DiskElementLogs()
    ensures Concat(ElementLogs([Obj(disk0), Obj(disk1)], "", "_"))
         == [("_0_name", Str("d0")), ("_0_1_name", Str("d1"))]
  {
    var logs := ElementLogs([Obj(disk0), Obj(disk1)], "", "_");
    DiskIndexPaths();
    assert "" + IndexPath("_", 0) == "_0";
    assert "" + IndexPath("_", 1) == "_0_1";
    LeavesKeepTheirKeys(disk0, Some("_0"), "_");
    LeavesKeepTheirKeys(disk1, Some("_0_1"), "_");
    assert LeafKey(Some("_0"), "name", "_") == "_0_name";
    assert LeafKey(Some("_0_1"), "name", "_") == "_0_1_name";
    assert Prefixed(disk0, Some("_0"), "_") == [("_0_name", Str("d0"))];
    assert Prefixed(disk1, Some("_0_1"), "_") == [("_0_1_name", Str("d1"))];
    assert logs[0] == [("_0_name", Str("d0"))];
    assert logs[1] == [("_0_1_name", Str("d1"))];
    assert logs[1..][1..] == [];
    assert Concat(logs[1..]) == logs[1] + Concat(logs[1..][1..]);
  }

  lemma DiskPaths()
    ensures Paths([("disks", Arr([Obj(disk0), Obj(disk1)]))], None, "_")
         == [("_0_name", Str("d0")), ("_0_1_name", Str("d1"))]
  {
    var items := [Obj(disk0), Obj(disk1)];
    var data: Dict<Json> := [("disks", Arr(items))];
    assert IsDictList(Arr(items));
    DictListDropsKey("disks", Arr(items), None, "_");
    DiskElementLogs();
    assert data[1..] == [];
    assert Paths(data, None, "_") == EntryPaths("disks", Arr(items), None, "_") + Paths([], None, "_");
  }

  /** `{"disks": [{"name": "d0"}, {"name": "d1"}]}` flattens to
      `{"_0_name": "d0", "_0_1_name": "d1"}`: the key `disks` is dropped and the
      second element's path carries both indices. */
  lemma DiskListExample()
    ensures Flatten([("disks", Arr([Obj(disk0), Obj(disk1)]))], "_")
         == [("_0_name", Str("d0")), ("_0_1_name", Str("d1"))]
  {
    var out: Dict<Json> := [("_0_name", Str("d0")), ("_0_1_name", Str("d1"))];
    DiskPaths();
    assert Keys(out) == ["_0_name", "_0_1_name"];
    FlattenOfFreshLog([("disks", Arr([Obj(disk0), Obj(disk1)]))], out);
  }

  /** `{"a_b": 1, "a": {"b": 2}}`: both entries write `a_b`; the later write wins
      and the key keeps the position of the first write. */
  lemma CollisionExample()
    ensures Flatten([("a_b", Int(1)), ("a", Obj([("b", Int(2))]))], "_") == [("a_b", Int(2))]
  {
    var data: Dict<Json> := [("a_b", Int(1)), ("a", Obj([("b", Int(2))]))];
    var ws: Dict<Json> := [("a_b", Int(1)), ("a_b", Int(2))];
    NestedDictExtendsPath("a", [("b", Int(2))], None, "_");
    assert LeafKey(Some("a"), "b", "_") == "a_b";
    assert Prefixed([("b", Int(2))], Some("a"), "_") == [("a_b", Int(2))];
    assert data[1..][1..] == [];
    assert Paths(data, None, "_") == ws;
    FlattenIsPutAll(data, "_");
    assert ws[1..][1..] == [];
  }
}
