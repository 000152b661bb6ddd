/**
 `NestedToSimpleDict`: turns one nested record into a single-level dict by
 walking it depth first and writing every leaf under a key built from its path.

 The Python class keeps one `simple_dict` and lets every recursive call write into
 it; here that dict is the accumulator `acc` threaded through the walk. The
 walk is also given as a write log (`Paths`), the sequence of `simple_dict[key] =
 value` assignments in the order they happen, and the contract of `Walk` says the two
 agree, so that what a flattened record holds follows from the write log alone.
 */
module NestedToSimpleDict {
  import opened Wrappers
  import opened Dicts
  import opened Json
  import opened Buckets

  /** A non-empty list whose every item is a dict: the values the walk descends into
      element by element. */
  predicate IsDictList(v: Json) {
    v.Arr? && |v.items| != 0 && forall i :: 0 <= i < |v.items| ==> v.items[i].Obj?
  }

  /** A value the flattener stores as it is: anything but a dict or a non-empty list of dicts. */
  predicate IsLeaf(v: Json) {
    !v.Obj? && !IsDictList(v)
  }

  predicate AllLeaves(d: Dict<Json>) {
    forall i :: 0 <= i < |d| ==> IsLeaf(d[i].1)
  }

  /** The key a leaf found under `key` is stored at. */
  function LeafKey(lastKey: Option<string>, key: string, sep: string): string {
    match lastKey
    case None => key
    case Some(p) => p + sep + key
  }

  /** The key built for entry `k` of a dict stored under `key`. */
  function InnerKey(lastKey: Option<string>, key: string, k: string, sep: string): string {
    match lastKey
    case None => key + sep + k
    case Some(p) => p + sep + key + sep + k
  }

  /** The write log of `Walk`: every `simple_dict[key] = value`, in order. */
  function Paths(d: Dict<Json>, lastKey: Option<string>, sep: string): (ws: Dict<Json>)
    ensures AllLeaves(ws)
    decreases d
  {
    if |d| == 0 then []
    else
      var p := d[0];
      assert p.1 < p;
      EntryPaths(p.0, p.1, lastKey, sep) + Paths(d[1..], lastKey, sep)
  }

  function EntryPaths(key: string, value: Json, lastKey: Option<string>, sep: string): (ws: Dict<Json>)
    ensures AllLeaves(ws)
    decreases value
  {
    if value.Obj? then InnerPaths(value.fields, key, lastKey, sep)
    else if IsDictList(value) then ListPaths(value.items, 0, lastKey.GetOr(""), sep)
    else [(LeafKey(lastKey, key, sep), value)]
  }

  function InnerPaths(fields: Dict<Json>, key: string, lastKey: Option<string>, sep: string): (ws: Dict<Json>)
    ensures AllLeaves(ws)
    decreases fields
  {
    if |fields| == 0 then []
    else
      var p := fields[0];
      assert p.1 < p;
      var newKey := InnerKey(lastKey, key, p.0, sep);
      var first :=
        if p.1.Obj? then Paths(p.1.fields, Some(newKey), sep)
        else if IsDictList(p.1) then ListPaths(p.1.items, 0, newKey, sep)
        else [(newKey, p.1)];
      first + InnerPaths(fields[1..], key, lastKey, sep)
  }

  function ListPaths(items: seq<Json>, i: nat, name: string, sep: string): (ws: Dict<Json>)
    requires i <= |items|
    requires forall j :: 0 <= j < |items| ==> items[j].Obj?
    ensures AllLeaves(ws)
    decreases items, |items| - i
  {
    if i == |items| then []
    else
      var name' := name + sep + NatToString(i);
      Paths(items[i].fields, Some(name'), sep) + ListPaths(items, i + 1, name', sep)
  }

  /** `_to_single_dict(d, last_key)`: the loop over `d.items()`. The shared dict
      after the loop is the dict before it with the loop's write log applied. */
  function Walk(d: Dict<Json>, lastKey: Option<string>, sep: string, acc: Dict<Json>): (r: Dict<Json>)
    ensures r == PutAll(acc, Paths(d, lastKey, sep))
    decreases d
  {
    if |d| == 0 then acc
    else
      var p := d[0];
      assert p.1 < p;
      var acc' := Entry(p.0, p.1, lastKey, sep, acc);
      PutAllAppend(acc, EntryPaths(p.0, p.1, lastKey, sep), Paths(d[1..], lastKey, sep));
      Walk(d[1..], lastKey, sep, acc')
  }

  /** One iteration of that loop, for the entry `key: value`: its writes applied. */
  function Entry(key: string, value: Json, lastKey: Option<string>, sep: string, acc: Dict<Json>): (r: Dict<Json>)
    ensures r == PutAll(acc, EntryPaths(key, value, lastKey, sep))
    decreases value
  {
    if value.Obj? then Inner(value.fields, key, lastKey, sep, acc)
    else if IsDictList(value) then IsList(value.items, 0, lastKey.GetOr(""), sep, acc)
    else Put(acc, LeafKey(lastKey, key, sep), value)
  }

  /** The loop over `value.items()` for a dict `value` stored under `key`: its
      writes applied. */
  function Inner(fields: Dict<Json>, key: string, lastKey: Option<string>, sep: string, acc: Dict<Json>): (r: Dict<Json>)
    ensures r == PutAll(acc, InnerPaths(fields, key, lastKey, sep))
    decreases fields
  {
    if |fields| == 0 then acc
    else
      var p := fields[0];
      assert p.1 < p;
      var newKey := InnerKey(lastKey, key, p.0, sep);
      var acc' :=
        if p.1.Obj? then Walk(p.1.fields, Some(newKey), sep, acc)
        else if IsDictList(p.1) then IsList(p.1.items, 0, newKey, sep, acc)
        else Put(acc, newKey, p.1);
      var first :=
        if p.1.Obj? then Paths(p.1.fields, Some(newKey), sep)
        else if IsDictList(p.1) then ListPaths(p.1.items, 0, newKey, sep)
        else [(newKey, p.1)];
      assert acc' == PutAll(acc, first);
      PutAllAppend(acc, first, InnerPaths(fields[1..], key, lastKey, sep));
      Inner(fields[1..], key, lastKey, sep, acc')
  }

  /** `_is_list(items, last_name)` from element `i` on, where `name` is `last_name`
      as it stands before element `i`: every element extends it by `sep + str(i)`.
      The elements' writes are applied in element order. */
  function IsList(items: seq<Json>, i: nat, name: string, sep: string, acc: Dict<Json>): (r: Dict<Json>)
    requires i <= |items|
    requires forall j :: 0 <= j < |items| ==> items[j].Obj?
    ensures r == PutAll(acc, ListPaths(items, i, name, sep))
    decreases items, |items| - i
  {
    if i == |items| then acc
    else
      var name' := name + sep + NatToString(i);
      PutAllAppend(acc, Paths(items[i].fields, Some(name'), sep), ListPaths(items, i + 1, name', sep));
      IsList(items, i + 1, name', sep, Walk(items[i].fields, Some(name'), sep, acc))
  }

  /** `NestedToSimpleDict(data, separator).simple_dict`. What the flat record holds
      is decided by the write log alone: a key is present exactly when some write
      targets it, and it holds the value of the LAST such write. */
  function Flatten(data: Dict<Json>, sep: string): (r: Dict<Json>)
    ensures DistinctKeys(r)
    ensures AllLeaves(r)
    ensures forall k :: Get(r, k) == LastWrite(Paths(data, None, sep), k)
    ensures Keys(r) == FirstKeys(Paths(data, None, sep), WriteKey)
  {
    var ws := Paths(data, None, sep);
    var r := Walk(data, None, sep, []);
    PutAllKeepsKeys([], ws);
    PutAllKeysInFirstWriteOrder(ws);
    forall k ensures Get(r, k) == LastWrite(ws, k) {
      PutAllGet([], ws, k);
    }
    forall i | 0 <= i < |r| ensures IsLeaf(r[i].1) {
      GetAt(r, i);
      LastWriteIsLast(ws, r[i].0);
    }
    r
  }

  lemma FlattenIsPutAll(data: Dict<Json>, sep: string)
    ensures Flatten(data, sep) == PutAll([], Paths(data, None, sep))
  {
  }

  /** Every entry of `d` written under the path `lastKey`, unchanged otherwise. */
  function Prefixed(d: Dict<Json>, lastKey: Option<string>, sep: string): (r: Dict<Json>)
    ensures |r| == |d|
  {
    seq(|d|, i requires 0 <= i < |d| => (LeafKey(lastKey, d[i].0, sep), d[i].1))
  }

  lemma {:induction false} PathsAppend(a: Dict<Json>, b: Dict<Json>, lastKey: Option<string>, sep: string)
    ensures Paths(a + b, lastKey, sep) == Paths(a, lastKey, sep) + Paths(b, lastKey, sep)
    decreases |a|
  {
    if |a| == 0 {
      assert a + b == b;
    } else {
      assert (a + b)[0] == a[0];
      assert (a + b)[1..] == a[1..] + b;
      PathsAppend(a[1..], b, lastKey, sep);
    }
  }

  /** A record whose values are all leaves is written entry by entry, each under
      its own key extended by the path. */
  lemma {:induction false} LeavesKeepTheirKeys(d: Dict<Json>, lastKey: Option<string>, sep: string)
    requires AllLeaves(d)
    ensures Paths(d, lastKey, sep) == Prefixed(d, lastKey, sep)
    decreases |d|
  {
    if |d| > 0 {
      LeavesKeepTheirKeys(d[1..], lastKey, sep);
      assert Prefixed(d, lastKey, sep) == [(LeafKey(lastKey, d[0].0, sep), d[0].1)] + Prefixed(d[1..], lastKey, sep);
    }
  }

  /** A record of scalars, empty lists and lists that are not all dicts flattens to itself. */
  lemma FlattenLeavesIsIdentity(data: Dict<Json>, sep: string)
    requires DistinctKeys(data)
    requires AllLeaves(data)
    ensures Flatten(data, sep) == data
  {
    LeavesKeepTheirKeys(data, None, sep);
    assert Prefixed(data, None, sep) == data;
    FlattenIsPutAll(data, sep);
    assert [] + data == data;
    PutAllFresh([], data);
  }

  /** A dict value under `key` extends the path by `key`: its leaf `k` lands at
      `key_k` at the top level and at `p_key_k` under an existing path `p`. */
  lemma {:induction false} NestedDictExtendsPath(key: string, inner: Dict<Json>, lastKey: Option<string>, sep: string)
    requires AllLeaves(inner)
    ensures EntryPaths(key, Obj(inner), lastKey, sep) == Prefixed(inner, Some(LeafKey(lastKey, key, sep)), sep)
    decreases |inner|
  {
    if |inner| > 0 {
      var p := inner[0];
      assert InnerKey(lastKey, key, p.0, sep) == LeafKey(lastKey, key, sep) + sep + p.0;
      NestedDictExtendsPath(key, inner[1..], lastKey, sep);
      assert Prefixed(inner, Some(LeafKey(lastKey, key, sep)), sep)
          == [(LeafKey(lastKey, key, sep) + sep + p.0, p.1)] + Prefixed(inner[1..], Some(LeafKey(lastKey, key, sep)), sep);
    }
  }

  /** `sep + "0" + sep + "1" + ... + sep + str(i)`: the index part of the path of
      element `i` of a list of dicts, since `_is_list` extends one name in place. */
  function IndexPath(sep: string, i: nat): string {
    if i == 0 then sep + NatToString(0) else IndexPath(sep, i - 1) + sep + NatToString(i)
  }

  /** The write log of each element of a list of dicts, element `j` walked under `base + IndexPath(sep, j)`. */
  function ElementLogs(items: seq<Json>, base: string, sep: string): (logs: seq<Dict<Json>>)
    requires forall j :: 0 <= j < |items| ==> items[j].Obj?
    ensures |logs| == |items|
  {
    seq(|items|, j requires 0 <= j < |items| => Paths(items[j].fields, Some(base + IndexPath(sep, j)), sep))
  }

  function Concat<T>(ss: seq<seq<T>>): seq<T> {
    if |ss| == 0 then [] else ss[0] + Concat(ss[1..])
  }

  lemma IndexPathStep(base: string, sep: string, i: nat)
    ensures (if i == 0 then base else base + IndexPath(sep, i - 1)) + sep + NatToString(i) == base + IndexPath(sep, i)
  {
  }

  /** `_is_list` walks the elements in order, element `j` under the cumulative name `base + IndexPath(sep, j)`. */
  lemma {:induction false} ListPathsAreCumulative(items: seq<Json>, i: nat, base: string, sep: string)
    requires i <= |items|
    requires forall j :: 0 <= j < |items| ==> items[j].Obj?
    ensures ListPaths(items, i, if i == 0 then base else base + IndexPath(sep, i - 1), sep)
         == Concat(ElementLogs(items, base, sep)[i..])
    decreases |items| - i
  {
    var name := if i == 0 then base else base + IndexPath(sep, i - 1);
    var logs := ElementLogs(items, base, sep);
    if i < |items| {
      var name' := name + sep + NatToString(i);
      IndexPathStep(base, sep, i);
      assert ListPaths(items, i, name, sep) == Paths(items[i].fields, Some(name'), sep) + ListPaths(items, i + 1, name', sep);
      ListPathsAreCumulative(items, i + 1, base, sep);
      assert logs[i..][1..] == logs[i + 1..];
      assert logs[i..][0] == Paths(items[i].fields, Some(name'), sep);
    } else {
      assert logs[i..] == [];
    }
  }

  /** A non-empty list of dicts found while walking a record drops its own key:
      its elements are walked under the record's path (or the empty path at the
      top level) followed by the cumulative indices. */
  lemma DictListDropsKey(key: string, value: Json, lastKey: Option<string>, sep: string)
    requires IsDictList(value)
    ensures EntryPaths(key, value, lastKey, sep) == Concat(ElementLogs(value.items, lastKey.GetOr(""), sep))
  {
    ListPathsAreCumulative(value.items, 0, lastKey.GetOr(""), sep);
  }

  /** A non-empty list of dicts stored under `k` inside a dict value under `key`
      keeps `k`: its elements are walked under the path of `k`. */
  lemma DictListInDictKeepsKey(key: string, k: string, value: Json, lastKey: Option<string>, sep: string)
    requires IsDictList(value)
    ensures EntryPaths(key, Obj([(k, value)]), lastKey, sep)
         == Concat(ElementLogs(value.items, InnerKey(lastKey, key, k, sep), sep))
  {
    ListPathsAreCumulative(value.items, 0, InnerKey(lastKey, key, k, sep), sep);
    assert [(k, value)][1..] == [];
    assert InnerPaths([(k, value)], key, lastKey, sep)
        == ListPaths(value.items, 0, InnerKey(lastKey, key, k, sep), sep) + InnerPaths([], key, lastKey, sep);
  }

  /** One level further down the rule flips back: a dict inside a dict value is
      walked as a record, so a list of dicts under `c` there drops `c` again. */
  lemma DictListTwoLevelsDownDropsKey(key: string, k: string, c: string, value: Json, lastKey: Option<string>, sep: string)
    requires IsDictList(value)
    ensures EntryPaths(key, Obj([(k, Obj([(c, value)]))]), lastKey, sep)
         == Concat(ElementLogs(value.items, InnerKey(lastKey, key, k, sep), sep))
  {
    var newKey := InnerKey(lastKey, key, k, sep);
    DictListDropsKey(c, value, Some(newKey), sep);
    assert [(k, Obj([(c, value)]))][1..] == [];
    assert [(c, value)][1..] == [];
    assert Paths([(c, value)], Some(newKey), sep) == EntryPaths(c, value, Some(newKey), sep) + Paths([], Some(newKey), sep);
    assert InnerPaths([(k, Obj([(c, value)]))], key, lastKey, sep)
        == Paths([(c, value)], Some(newKey), sep) + InnerPaths([], key, lastKey, sep);
  }

  /** An empty list, or a list holding anything that is not a dict, is stored as
      it is under its key, both at the record level and inside a dict value. */
  lemma ListStoredVerbatim(key: string, k: string, items: seq<Json>, lastKey: Option<string>, sep: string)
    requires |items| == 0 || exists j :: 0 <= j < |items| && !items[j].Obj?
    ensures EntryPaths(key, Arr(items), lastKey, sep) == [(LeafKey(lastKey, key, sep), Arr(items))]
    ensures EntryPaths(key, Obj([(k, Arr(items))]), lastKey, sep) == [(InnerKey(lastKey, key, k, sep), Arr(items))]
  {
    assert [(k, Arr(items))][1..] == [];
    assert InnerPaths([(k, Arr(items))], key, lastKey, sep)
        == [(InnerKey(lastKey, key, k, sep), Arr(items))] + InnerPaths([], key, lastKey, sep);
  }

  /** An empty dict value writes nothing, at any level of the walk: removing an
      entry whose value is `{}` from a dict being walked, under any path and
      into any shared dict, changes neither the writes nor the shared dict after
      the walk, and so not the flat record either. */
  lemma EmptyDictWritesNothing(pre: Dict<Json>, key: string, post: Dict<Json>, lastKey: Option<string>,
                               sep: string, acc: Dict<Json>)
    ensures Paths(pre + [(key, Obj([]))] + post, lastKey, sep) == Paths(pre + post, lastKey, sep)
    ensures Walk(pre + [(key, Obj([]))] + post, lastKey, sep, acc) == Walk(pre + post, lastKey, sep, acc)
    ensures Flatten(pre + [(key, Obj([]))] + post, sep) == Flatten(pre + post, sep)
  {
    EmptyEntryDropsOut(pre, key, post, lastKey, sep);
    EmptyEntryDropsOut(pre, key, post, None, sep);
    FlattenIsPutAll(pre + [(key, Obj([]))] + post, sep);
    FlattenIsPutAll(pre + post, sep);
  }

  lemma EmptyEntryDropsOut(pre: Dict<Json>, key: string, post: Dict<Json>, lastKey: Option<string>, sep: string)
    ensures Paths(pre + [(key, Obj([]))] + post, lastKey, sep) == Paths(pre + post, lastKey, sep)
  {
    var e: Dict<Json> := [(key, Obj([]))];
    PathsAppend(pre + e, post, lastKey, sep);
    PathsAppend(pre, e, lastKey, sep);
    PathsAppend(pre, post, lastKey, sep);
    assert e[1..] == [];
    assert Paths(e, lastKey, sep) == [];
  }

  lemma {:induction false} InnerPathsAppend(a: Dict<Json>, b: Dict<Json>, key: string, lastKey: Option<string>, sep: string)
    ensures InnerPaths(a + b, key, lastKey, sep) == InnerPaths(a, key, lastKey, sep) + InnerPaths(b, key, lastKey, sep)
    decreases |a|
  {
    if |a| == 0 {
      assert a + b == b;
    } else {
      assert (a + b)[0] == a[0];
      assert (a + b)[1..] == a[1..] + b;
      InnerPathsAppend(a[1..], b, key, lastKey, sep);
    }
  }

  /** The same inside a dict value: an entry `k: {}` of a dict stored under `key`
      writes nothing, so removing it leaves the writes and the shared dict as they
      were. */
  lemma EmptyInnerDictWritesNothing(pre: Dict<Json>, k: string, post: Dict<Json>, key: string,
                                    lastKey: Option<string>, sep: string, acc: Dict<Json>)
    ensures InnerPaths(pre + [(k, Obj([]))] + post, key, lastKey, sep) == InnerPaths(pre + post, key, lastKey, sep)
    ensures Inner(pre + [(k, Obj([]))] + post, key, lastKey, sep, acc) == Inner(pre + post, key, lastKey, sep, acc)
  {
    var e: Dict<Json> := [(k, Obj([]))];
    InnerPathsAppend(pre + e, post, key, lastKey, sep);
    InnerPathsAppend(pre, e, key, lastKey, sep);
    InnerPathsAppend(pre, post, key, lastKey, sep);
    assert e[1..] == [];
    assert InnerPaths(e, key, lastKey, sep) == Paths([], Some(InnerKey(lastKey, key, k, sep)), sep) + InnerPaths([], key, lastKey, sep);
  }

  predicate KeysContain(ws: Dict<Json>, c: char) {
    forall i :: 0 <= i < |ws| ==> c in ws[i].0
  }

  lemma KeysContainAppend(a: Dict<Json>, b: Dict<Json>, c: char)
    requires KeysContain(a, c) && KeysContain(b, c)
    ensures KeysContain(a + b, c)
  {
    forall i | 0 <= i < |a + b| ensures c in (a + b)[i].0 {
      if i >= |a| {
        assert (a + b)[i] == b[i - |a|];
      }
    }
  }

  lemma SepInJoin(a: string, sep: string, b: string)
    requires |sep| > 0
    ensures sep[0] in a + sep + b
  {
    assert (a + sep + b)[|a|] == sep[0];
  }

  /** Below the top level every key is a path: it contains the separator. */
  lemma {:induction false} NestedKeysContainSep(d: Dict<Json>, p: string, sep: string)
    requires |sep| > 0
    ensures KeysContain(Paths(d, Some(p), sep), sep[0])
    decreases d
  {
    if |d| > 0 {
      var q := d[0];
      assert q.1 < q;
      EntryKeysContainSep(q.0, q.1, p, sep);
      NestedKeysContainSep(d[1..], p, sep);
      KeysContainAppend(EntryPaths(q.0, q.1, Some(p), sep), Paths(d[1..], Some(p), sep), sep[0]);
    }
  }

  lemma {:induction false} EntryKeysContainSep(key: string, value: Json, p: string, sep: string)
    requires |sep| > 0
    ensures KeysContain(EntryPaths(key, value, Some(p), sep), sep[0])
    decreases value
  {
    if value.Obj? {
      InnerKeysContainSep(value.fields, key, Some(p), sep);
    } else if IsDictList(value) {
      ListKeysContainSep(value.items, 0, p, sep);
    } else {
      SepInJoin(p, sep, key);
    }
  }

  lemma {:induction false} InnerKeysContainSep(fields: Dict<Json>, key: string, lastKey: Option<string>, sep: string)
    requires |sep| > 0
    ensures KeysContain(InnerPaths(fields, key, lastKey, sep), sep[0])
    decreases fields
  {
    if |fields| > 0 {
      var q := fields[0];
      assert q.1 < q;
      var newKey := InnerKey(lastKey, key, q.0, sep);
      assert sep[0] in newKey by {
        match lastKey
        case None => SepInJoin(key, sep, q.0);
        case Some(p) => SepInJoin(p + sep + key, sep, q.0);
      }
      var first :=
        if q.1.Obj? then Paths(q.1.fields, Some(newKey), sep)
        else if IsDictList(q.1) then ListPaths(q.1.items, 0, newKey, sep)
        else [(newKey, q.1)];
      if q.1.Obj? {
        NestedKeysContainSep(q.1.fields, newKey, sep);
      } else if IsDictList(q.1) {
        ListKeysContainSep(q.1.items, 0, newKey, sep);
      }
      InnerKeysContainSep(fields[1..], key, lastKey, sep);
      KeysContainAppend(first, InnerPaths(fields[1..], key, lastKey, sep), sep[0]);
    }
  }

  lemma {:induction false} ListKeysContainSep(items: seq<Json>, i: nat, name: string, sep: string)
    requires |sep| > 0
    requires i <= |items|
    requires forall j :: 0 <= j < |items| ==> items[j].Obj?
    ensures KeysContain(ListPaths(items, i, name, sep), sep[0])
    decreases items, |items| - i
  {
    if i < |items| {
      var name' := name + sep + NatToString(i);
      NestedKeysContainSep(items[i].fields, name', sep);
      ListKeysContainSep(items, i + 1, name', sep);
      KeysContainAppend(Paths(items[i].fields, Some(name'), sep), ListPaths(items, i + 1, name', sep), sep[0]);
    }
  }

  /** At the top level, a write either targets a path containing the separator or
      is one of the record's own leaf entries, unchanged. */
  lemma {:induction false} TopLevelWrites(d: Dict<Json>, sep: string)
    requires |sep| > 0
    ensures forall w :: w in Paths(d, None, sep) ==> sep[0] in w.0 || (w in d && IsLeaf(w.1))
    ensures forall i :: 0 <= i < |d| && IsLeaf(d[i].1) ==> d[i] in Paths(d, None, sep)
  {
    if |d| > 0 {
      var q := d[0];
      var e := EntryPaths(q.0, q.1, None, sep);
      TopLevelWrites(d[1..], sep);
      if q.1.Obj? {
        InnerKeysContainSep(q.1.fields, q.0, None, sep);
      } else if IsDictList(q.1) {
        ListKeysContainSep(q.1.items, 0, "", sep);
      }
      assert forall w :: w in e ==> sep[0] in w.0 || (w in d && IsLeaf(w.1));
      forall i | 0 <= i < |d| && IsLeaf(d[i].1) ensures d[i] in Paths(d, None, sep) {
        if i > 0 {
          assert d[i] == d[1..][i - 1];
        }
      }
    }
  }
}
