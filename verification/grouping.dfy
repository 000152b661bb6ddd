/**
 `DataCollector.get_resoure_type`: files records into `res_by_type`, a dict from
 `str(type)` to the list of records of that type.

 Two variants exist. The Resource Graph collector groups the flattened records
 of one query (`GetResourceType`, `InventoryResourceType`); the resource-client
 collector walks a resource-group -> resources dict and stamps each typed record
 with its group's name before grouping it (`GetResourceTypeByGroup`).
 */
module Grouping {
  import opened Wrappers
  import opened Dicts
  import opened Json
  import opened Buckets
  import opened NestedToSimpleDict

  type Record = Dict<Json>
  type Groups = Dict<seq<Record>>

  /** `str(tp)` when `tp` can be a dict key. A list or dict cannot be hashed, so the
      membership test against the groups' keys raises a TypeError for it: `None` here. */
  function TypeKey(tp: Json): (k: Option<string>)
    ensures k.None? <==> tp.Obj? || tp.Arr?
    ensures tp.Str? ==> k == Some(tp.s)
  {
    match tp
    case Null => Some("None")
    case Bool(b) => Some(if b then "True" else "False")
    case Int(i) => Some(IntToString(i))
    case Float(repr) => Some(repr)
    case Str(s) => Some(s)
    case Obj(_) => None
    case Arr(_) => None
  }

  /** The group a record is filed under, or `None` when the loop skips it: no
      `type` entry (KeyError) or an unhashable one (TypeError). */
  function GroupKey(r: Record): Option<string> {
    match Get(r, "type")
    case None => None
    case Some(tp) => TypeKey(tp)
  }

  /** A record whose `type` is hashable but not a string. Its key `str(tp)` is a
      string, so the membership test of the value itself against those keys never
      succeeds. */
  predicate ResetsGroup(r: Record) {
    GroupKey(r).Some? && !Get(r, "type").value.Str?
  }

  /** One pass of the loop body over a record `r`. */
  function AddRecord(groups: Groups, r: Record): (g: Groups)
    ensures !ResetsGroup(r) ==> g == Add(groups, r, GroupKey)
    ensures ResetsGroup(r) ==> Get(g, GroupKey(r).value) == Some([r])
    ensures ResetsGroup(r) ==> forall t :: t != GroupKey(r).value ==> Get(g, t) == Get(groups, t)
    ensures DistinctKeys(groups) ==> DistinctKeys(g)
    ensures Keys(g) == if GroupKey(r).Some? && GroupKey(r).value !in Keys(groups)
                       then Keys(groups) + [GroupKey(r).value] else Keys(groups)
  {
    match Get(r, "type")
    case None => groups
    case Some(tp) =>
      match TypeKey(tp)
      case None => groups
      case Some(t) =>
        if tp.Str? && t in Keys(groups) then Put(groups, t, Get(groups, t).value + [r])
        else KeysAfterPut(groups, t, [r]); Put(groups, t, [r])
  }

  /** `res_by_type` after the loop over `rs`. */
  function GroupByType(rs: seq<Record>): (g: Groups)
    ensures DistinctKeys(g)
    ensures Keys(g) == FirstKeys(rs, GroupKey)
  {
    if |rs| == 0 then []
    else
      var p := rs[..|rs| - 1];
      assert forall i :: 0 <= i < |p| ==> p[i] == rs[i];
      AddRecord(GroupByType(p), rs[|rs| - 1])
  }

  /** The pair of type list and groups that `get_resoure_type` returns, over
      already flattened records:
      `all_type` is the keys of `res_by_type`, once each, in first-seen order. */
  function GetResourceType(dataList: seq<Record>): (result: (seq<string>, Groups))
    ensures result.0 == Keys(result.1) && Distinct(result.0)
    ensures result.0 == FirstKeys(dataList, GroupKey)
    ensures |dataList| == 0 ==> result.1 == []
  {
    var g := GroupByType(dataList);
    (Keys(g), g)
  }

  /** When no record resets a group, the loop is the append-or-create bucketing
      of the records by `GroupKey`. */
  lemma {:induction false} GroupByTypeIsBucketize(rs: seq<Record>)
    requires forall i :: 0 <= i < |rs| ==> !ResetsGroup(rs[i])
    ensures GroupByType(rs) == Bucketize(rs, GroupKey)
  {
    if |rs| > 0 {
      var p := rs[..|rs| - 1];
      assert forall i :: 0 <= i < |p| ==> p[i] == rs[i];
      GroupByTypeIsBucketize(p);
    }
  }

  /** With string types, every grouped record is in exactly the group of its type,
      groups appear in first-seen order and keep the input order inside. */
  lemma GroupByTypeIsBucketing(rs: seq<Record>, t: string)
    requires forall i :: 0 <= i < |rs| ==> !ResetsGroup(rs[i])
    ensures Keys(GroupByType(rs)) == FirstKeys(rs, GroupKey)
    ensures Get(GroupByType(rs), t) == if t in FirstKeys(rs, GroupKey) then Some(Bucket(rs, GroupKey, t)) else None
  {
    GroupByTypeIsBucketize(rs);
    BucketizeGet(rs, GroupKey, t);
  }

  /** The loop over `rs + [r]` is the loop over `rs` followed by one pass for `r`. */
  lemma GroupByTypeSnoc(rs: seq<Record>, r: Record)
    ensures GroupByType(rs + [r]) == AddRecord(GroupByType(rs), r)
  {
    assert (rs + [r])[..|rs|] == rs;
  }

  /** Every record in a group is an input record whose key is that group's. */
  lemma {:induction false} GroupedRecordsComeFromInput(rs: seq<Record>, t: string, x: Record)
    requires Get(GroupByType(rs), t).Some? && x in Get(GroupByType(rs), t).value
    ensures x in rs && GroupKey(x) == Some(t)
  {
    if |rs| > 0 {
      var p := rs[..|rs| - 1];
      var r := rs[|rs| - 1];
      var g := GroupByType(p);
      assert GroupByType(rs) == AddRecord(g, r);
      if Get(g, t).Some? && x in Get(g, t).value {
        GroupedRecordsComeFromInput(p, t, x);
      } else {
        AddRecordNewMember(g, r, t, x);
      }
    }
  }

  /** A record found in a group after one pass that was not there before is the
      record just filed, under its own key. */
  lemma AddRecordNewMember(g: Groups, r: Record, t: string, x: Record)
    requires Get(AddRecord(g, r), t).Some? && x in Get(AddRecord(g, r), t).value
    requires !(Get(g, t).Some? && x in Get(g, t).value)
    ensures x == r && GroupKey(r) == Some(t)
  {
  }

  /** A record without a usable `type` is skipped and the loop goes on. */
  lemma {:induction false} UntypedRecordSkipped(a: seq<Record>, r: Record, b: seq<Record>)
    requires GroupKey(r).None?
    ensures GroupByType(a + [r] + b) == GroupByType(a + b)
    decreases |b|
  {
    if |b| == 0 {
      assert a + [r] + b == a + [r];
      assert (a + [r])[..|a|] == a;
      assert a + b == a;
    } else {
      var b' := b[..|b| - 1];
      assert (a + [r] + b)[..|a + [r] + b| - 1] == a + [r] + b';
      assert (a + b)[..|a + b| - 1] == a + b';
      UntypedRecordSkipped(a, r, b');
    }
  }

  /** A hashable non-string `type` replaces its group by the record alone:
      earlier records filed under the same `str(type)` are lost. */
  lemma NonStringTypeResetsGroup(rs: seq<Record>, r: Record)
    requires ResetsGroup(r)
    ensures Get(GroupByType(rs + [r]), GroupKey(r).value) == Some([r])
  {
    assert (rs + [r])[..|rs|] == rs;
  }

  /** Every record flattened with `_`, in input order. */
  function FlattenAll(res: seq<Dict<Json>>): seq<Record> {
    seq(|res|, i requires 0 <= i < |res| => Flatten(res[i], "_"))
  }

  /** The Resource Graph collector: every record is flattened with `_` first, then
      grouped; `all_type` lists each group key of a flattened record once. */
  function InventoryResourceType(res: seq<Dict<Json>>): (result: (seq<string>, Groups))
    ensures result.0 == Keys(result.1) && Distinct(result.0)
    ensures forall t :: t in result.0 <==> exists i :: 0 <= i < |res| && GroupKey(Flatten(res[i], "_")) == Some(t)
  {
    var flat := FlattenAll(res);
    assert forall i :: 0 <= i < |res| ==> flat[i] == Flatten(res[i], "_");
    GetResourceType(flat)
  }

  /** When every record is a dict with a string `type`, the Resource Graph
      collector files each flattened record under the record's own `type`: the
      groups come in first-seen type order and each holds exactly its type's
      flattened records, in input order. */
  lemma InventoryGroupsByOwnType(res: seq<Dict<Json>>, t: string)
    requires forall i :: 0 <= i < |res| ==>
      DistinctKeys(res[i]) && Get(res[i], "type").Some? && Get(res[i], "type").value.Str?
    ensures forall i :: 0 <= i < |res| ==> GroupKey(FlattenAll(res)[i]) == Some(Get(res[i], "type").value.s)
    ensures InventoryResourceType(res).0 == FirstKeys(FlattenAll(res), GroupKey)
    ensures Get(InventoryResourceType(res).1, t) ==
      if t in FirstKeys(FlattenAll(res), GroupKey) then Some(Bucket(FlattenAll(res), GroupKey, t)) else None
  {
    var flat := FlattenAll(res);
    forall i | 0 <= i < |res|
      ensures GroupKey(flat[i]) == Some(Get(res[i], "type").value.s) && !ResetsGroup(flat[i])
    {
      FlattenKeepsTopLevelType(res[i], Get(res[i], "type").value.s);
    }
    GroupByTypeIsBucketing(flat, t);
  }

  /** A record's own string `type` survives flattening unchanged (every other
      write targets a key containing `_`), so the Resource Graph collector files
      the flattened record under that type. */
  lemma FlattenKeepsTopLevelType(r: Dict<Json>, t: string)
    requires DistinctKeys(r)
    requires Get(r, "type") == Some(Str(t))
    ensures Get(Flatten(r, "_"), "type") == Some(Str(t))
    ensures GroupKey(Flatten(r, "_")) == Some(t)
  {
    var ws := Paths(r, None, "_");
    TopLevelWrites(r, "_");
    var i :| 0 <= i < |r| && r[i] == ("type", Str(t));
    assert r[i] in ws;
    assert "type" in Keys(ws) by {
      var j :| 0 <= j < |ws| && ws[j] == r[i];
      assert Keys(ws)[j] == "type";
    }
    LastWriteIsLast(ws, "type");
    var v := LastWrite(ws, "type").value;
    assert ("type", v) in ws;
    assert '_' !in "type";
    assert ("type", v) in r;
    InDictUnique(r, "type", v, Str(t));
  }
}
