/**
 The resource-client collector's `get_resoure_type`: the input is a dict from
 resource-group name to the resources of that group, walked in order; every
 record that has a `type` gets `resource_group` set to its group's name before
 it is filed.
 */
module ResourceClient {
  import opened Wrappers
  import opened Dicts
  import opened Json
  import opened Buckets
  import opened Grouping

  /** Setting the record's `resource_group` entry to the group name: set or
      overwrite it, nothing else changes. */
  function Stamp(r: Record, rg: string): (s: Record)
    ensures Get(s, "resource_group") == Some(Str(rg))
    ensures forall k :: k != "resource_group" ==> Get(s, k) == Get(r, k)
    ensures "resource_group" in Keys(r) ==> Keys(s) == Keys(r)
    ensures DistinctKeys(r) ==> DistinctKeys(s)
  {
    Put(r, "resource_group", Str(rg))
  }

  function StampEach(rs: seq<Record>, rg: string): (out: seq<Record>)
    ensures |out| == |rs|
  {
    seq(|rs|, i requires 0 <= i < |rs| => Stamp(rs[i], rg))
  }

  /** All resources in resource-group order, then resource order, each stamped
      with the name of its group. */
  function StampAll(rgToRes: Dict<seq<Record>>): (out: seq<Record>)
    ensures forall i, j :: 0 <= i < |rgToRes| && 0 <= j < |rgToRes[i].1| ==>
      Stamp(rgToRes[i].1[j], rgToRes[i].0) in out
  {
    if |rgToRes| == 0 then []
    else
      var n := |rgToRes|;
      var last := rgToRes[n - 1];
      var prev := StampAll(rgToRes[..n - 1]);
      var tail := StampEach(last.1, last.0);
      assert forall i :: 0 <= i < n - 1 ==> rgToRes[..n - 1][i] == rgToRes[i];
      assert forall j :: 0 <= j < |last.1| ==> tail[j] == Stamp(last.1[j], last.0);
      prev + tail
  }

  /** One pass of the inner loop body: look up `type` (skip on KeyError), stamp the
      record, then test the type against the groups' keys (skip on TypeError). Filing the
      stamped record is the same as filing it unstamped and stamping afterwards,
      except that an untyped record is never stamped. */
  method FileResource(groups: Groups, res: Record, rg: string) returns (groups': Groups)
    ensures groups' == AddRecord(groups, Stamp(res, rg))
  {
    groups' := groups;
    match Get(res, "type") {
      case None =>
      case Some(tp) =>
        var stamped := Stamp(res, rg);
        match TypeKey(tp) {
          case None =>
          case Some(t) =>
            if tp.Str? && t in Keys(groups) {
              groups' := Put(groups, t, Get(groups, t).value + [stamped]);
            } else {
              groups' := Put(groups, t, [stamped]);
            }
        }
    }
  }

  lemma StampAllSnoc(rgToRes: Dict<seq<Record>>, i: nat)
    requires i < |rgToRes|
    ensures StampAll(rgToRes[..i + 1]) == StampAll(rgToRes[..i]) + StampEach(rgToRes[i].1, rgToRes[i].0)
  {
    assert rgToRes[..i + 1][..i] == rgToRes[..i];
  }

  lemma StampEachSnoc(done: seq<Record>, value: seq<Record>, j: nat, rg: string)
    requires j < |value|
    ensures done + StampEach(value[..j + 1], rg) == done + StampEach(value[..j], rg) + [Stamp(value[j], rg)]
  {
    var a := StampEach(value[..j + 1], rg);
    var b := StampEach(value[..j], rg) + [Stamp(value[j], rg)];
    forall k | 0 <= k < |a| ensures a[k] == b[k] {
      assert value[..j + 1][k] == value[k];
      if k < j {
        assert value[..j][k] == value[k];
      }
    }
    assert a == b;
  }

  /** The inner loop, over the resources `value` of the group `rg`. */
  method FileGroup(groups: Groups, ghost done: seq<Record>, value: seq<Record>, rg: string) returns (groups': Groups)
    requires groups == GroupByType(done)
    ensures groups' == GroupByType(done + StampEach(value, rg))
  {
    groups' := groups;
    var j := 0;
    assert done + StampEach(value[..0], rg) == done;
    while j < |value|
      invariant 0 <= j <= |value|
      invariant groups' == GroupByType(done + StampEach(value[..j], rg))
    {
      ghost var filed := done + StampEach(value[..j], rg);
      groups' := FileResource(groups', value[j], rg);
      StampEachSnoc(done, value, j, rg);
      GroupByTypeSnoc(filed, Stamp(value[j], rg));
      j := j + 1;
    }
    assert value[..j] == value;
  }

  /** The type list and groups `get_resoure_type` returns: the nested loop over
      groups and their resources files exactly the stamped records, in that order,
      and the type list is in first-seen order. */
  method GetResourceTypeByGroup(rgToRes: Dict<seq<Record>>) returns (allType: seq<string>, resByType: Groups)
    ensures resByType == GroupByType(StampAll(rgToRes))
    ensures allType == Keys(resByType) && Distinct(allType)
    ensures allType == FirstKeys(StampAll(rgToRes), GroupKey)
  {
    var groups: Groups := [];
    var i := 0;
    while i < |rgToRes|
      invariant 0 <= i <= |rgToRes|
      invariant groups == GroupByType(StampAll(rgToRes[..i]))
    {
      groups := FileGroup(groups, StampAll(rgToRes[..i]), rgToRes[i].1, rgToRes[i].0);
      StampAllSnoc(rgToRes, i);
      i := i + 1;
    }
    assert rgToRes[..i] == rgToRes;
    resByType := groups;
    allType := Keys(groups);
  }

  /** Every stamped record is a resource `y` of some group `i`, stamped with that
      group's name. */
  lemma {:induction false} StampAllCarriesGroup(rgToRes: Dict<seq<Record>>, x: Record) returns (i: nat, y: Record)
    requires x in StampAll(rgToRes)
    ensures i < |rgToRes| && y in rgToRes[i].1 && x == Stamp(y, rgToRes[i].0)
  {
    var n := |rgToRes|;
    var last := rgToRes[n - 1];
    if x in StampAll(rgToRes[..n - 1]) {
      i, y := StampAllCarriesGroup(rgToRes[..n - 1], x);
      assert rgToRes[..n - 1][i] == rgToRes[i];
    } else {
      var j :| 0 <= j < |last.1| && StampEach(last.1, last.0)[j] == x;
      i, y := n - 1, last.1[j];
    }
  }

  /** Every grouped record is a resource of some group whose own `type` is the
      group's, stamped with the name of the resource group it was listed under. */
  lemma GroupedRecordsAreStamped(rgToRes: Dict<seq<Record>>, t: string, x: Record)
    requires Get(GroupByType(StampAll(rgToRes)), t).Some?
    requires x in Get(GroupByType(StampAll(rgToRes)), t).value
    ensures exists i, y :: 0 <= i < |rgToRes| && y in rgToRes[i].1 && GroupKey(y) == Some(t) &&
                           x == Stamp(y, rgToRes[i].0)
  {
    GroupedRecordsComeFromInput(StampAll(rgToRes), t, x);
    var i, y := StampAllCarriesGroup(rgToRes, x);
    StampKeepsType(y, rgToRes[i].0, t);
  }

  lemma StampKeepsType(y: Record, rg: string, t: string)
    requires GroupKey(Stamp(y, rg)) == Some(t)
    ensures GroupKey(y) == Some(t)
  {
    assert Get(Stamp(y, rg), "type") == Get(y, "type");
  }
}
