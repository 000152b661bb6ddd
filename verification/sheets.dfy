/**
 The label logic of `save_to_excel`: each type in `res_by_type` gets as sheet
 label the text after the last `/` of its name; types sharing a label are
 listed under it in first-seen order (`all_df`), and only the first of them,
 `frame[0]`, is written to the workbook.
 */
module Sheets {
  import opened Wrappers
  import opened Dicts
  import opened Json
  import opened Buckets
  import opened Grouping

  /** The sheet label of a type: the text after its last `/`, or the whole type
      when it has none. */
  function SheetName(t: string): (r: string)
    ensures '/' !in r
  {
    if |t| == 0 then ""
    else if t[|t| - 1] == '/' then ""
    else SheetName(t[..|t| - 1]) + [t[|t| - 1]]
  }

  /** The label is the longest suffix of the type without a `/`: it is preceded
      by a `/` or is the whole type, which it is when the type has no `/`. */
  lemma {:induction false} SheetNameIsLastSegment(t: string)
    ensures var r := SheetName(t);
      '/' !in r && |r| <= |t| && t[|t| - |r|..] == r &&
      (|r| < |t| ==> t[|t| - |r| - 1] == '/') &&
      ('/' !in t ==> r == t)
  {
    if |t| > 0 && t[|t| - 1] != '/' {
      var p := t[..|t| - 1];
      SheetNameIsLastSegment(p);
      var r := SheetName(t);
      assert r == SheetName(p) + [t[|t| - 1]];
      assert p[|p| - (|r| - 1)..] == t[|t| - |r|..|t| - 1];
      assert t == p + [t[|t| - 1]];
    }
  }

  /** Whatever precedes it, the label is the text after the last `/`. */
  lemma SheetNameAfterLastSlash(p: string, s: string)
    requires '/' !in s
    ensures SheetName(p + "/" + s) == s
  {
    var t := p + "/" + s;
    SheetNameIsLastSegment(t);
    assert t[|t| - |s|..] == s;
    assert t[|t| - |s| - 1] == '/';
  }

  function SheetKey(t: string): Option<string> {
    Some(SheetName(t))
  }

  /** `all_df`, with each data frame named by the type it was built from: one
      entry per label in first-seen order, listing the types with that label in
      their order. */
  function SheetFrames(types: seq<string>): (r: Dict<seq<string>>)
    ensures Keys(r) == FirstKeys(types, SheetKey)
    ensures forall i :: 0 <= i < |r| ==> r[i].1 == Bucket(types, SheetKey, r[i].0) && |r[i].1| > 0
  {
    Bucketize(types, SheetKey)
  }

  /** `(sheet, frame[0])` for every entry of `all_df`: the sheets written, each with
      the type whose records fill it. */
  function ExportedTypes(types: seq<string>): (e: seq<(string, string)>)
    ensures |e| == |FirstKeys(types, SheetKey)|
    ensures forall i :: 0 <= i < |e| ==>
      e[i].0 == FirstKeys(types, SheetKey)[i] && e[i].1 in types && SheetName(e[i].1) == e[i].0
  {
    var frames := SheetFrames(types);
    var e := seq(|frames|, i requires 0 <= i < |frames| => (frames[i].0, frames[i].1[0]));
    assert forall i :: 0 <= i < |e| ==> e[i].1 in types && SheetName(e[i].1) == e[i].0 by {
      forall i | 0 <= i < |e| ensures e[i].1 in types && SheetName(e[i].1) == e[i].0 {
        FrameHead(types, i);
      }
    }
    e
  }

  lemma FrameHead(types: seq<string>, i: nat)
    requires i < |SheetFrames(types)|
    ensures var f := SheetFrames(types)[i]; |f.1| > 0 && f.1[0] in types && SheetName(f.1[0]) == f.0
  {
    var f := SheetFrames(types)[i];
    assert f.1[0] in f.1;
  }

  /** The one exported pair for a label that occurs: the label with the first
      type carrying it. */
  lemma ExportedFor(types: seq<string>, sheet: string) returns (m: nat)
    requires sheet in FirstKeys(types, SheetKey)
    ensures m < |ExportedTypes(types)|
    ensures ExportedTypes(types)[m] == (sheet, types[FirstIndex(types, SheetKey, sheet)])
    ensures forall n :: 0 <= n < |ExportedTypes(types)| && ExportedTypes(types)[n].0 == sheet ==> n == m
  {
    var frames := SheetFrames(types);
    var ks := FirstKeys(types, SheetKey);
    var e := ExportedTypes(types);
    m :| 0 <= m < |ks| && ks[m] == sheet;
    assert Keys(frames)[m] == sheet;
    var f := FirstIndex(types, SheetKey, sheet);
    assert frames[m].1 == Bucket(types, SheetKey, sheet);
    BucketHeadIsFirst(types, SheetKey, sheet, f);
    assert e[m] == (frames[m].0, frames[m].1[0]);
    forall n | 0 <= n < |e| && e[n].0 == sheet ensures n == m {
      assert ks[n] == ks[m];
    }
  }

  /** Of the distinct types sharing a label, exactly the first one seen is
      exported; later ones are dropped, not merged into the sheet. */
  lemma ExportedIffFirstOfLabel(types: seq<string>, i: nat)
    requires Distinct(types)
    requires i < |types|
    ensures (SheetName(types[i]), types[i]) in ExportedTypes(types) <==>
            forall j :: 0 <= j < i ==> SheetName(types[j]) != SheetName(types[i])
  {
    var sheet := SheetName(types[i]);
    var e := ExportedTypes(types);
    assert SheetKey(types[i]) == Some(sheet);
    var m := ExportedFor(types, sheet);
    var f := FirstIndex(types, SheetKey, sheet);
    assert f <= i;
    if (sheet, types[i]) in e {
      var n :| 0 <= n < |e| && e[n] == (sheet, types[i]);
      assert n == m;
      assert types[f] == types[i];
      assert f == i;
      forall j | 0 <= j < i ensures SheetName(types[j]) != sheet {
        assert SheetKey(types[j]) != Some(sheet);
      }
    } else {
      assert f != i;
      assert SheetKey(types[f]) == Some(sheet);
    }
  }

  /** The sheets `save_to_excel` writes: each label with the records of the first
      type carrying it. */
  function Export(groups: Groups): (sheets: seq<(string, seq<Record>)>)
    ensures |sheets| == |FirstKeys(Keys(groups), SheetKey)|
  {
    var e := ExportedTypes(Keys(groups));
    seq(|e|, i requires 0 <= i < |e| => (e[i].0, Get(groups, e[i].1).GetOr([])))
  }

  /** The sheet for a label holds the records of the first type with that label. */
  lemma ExportedSheetRecords(groups: Groups, i: nat)
    requires DistinctKeys(groups)
    requires i < |groups|
    requires forall j :: 0 <= j < i ==> SheetName(groups[j].0) != SheetName(groups[i].0)
    ensures (SheetName(groups[i].0), groups[i].1) in Export(groups)
  {
    var types := Keys(groups);
    ExportedIffFirstOfLabel(types, i);
    var e := ExportedTypes(types);
    var n :| 0 <= n < |e| && e[n] == (SheetName(types[i]), types[i]);
    GetAt(groups, i);
    assert Export(groups)[n] == (SheetName(groups[i].0), groups[i].1);
  }
}
