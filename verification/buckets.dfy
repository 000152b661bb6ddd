/**
 The append-or-create idiom (append to the key's list when the key is present,
 otherwise store a new one-element list under it), applied
 to a sequence in order, and its reference meaning: one bucket per key in
 first-seen order, each holding the elements with that key in input order.
 */
module Buckets {
  import opened Wrappers
  import opened Dicts

  /** The distinct keys of `xs`, in the order they first occur. */
  function FirstKeys<T>(xs: seq<T>, key: T -> Option<string>): (ks: seq<string>)
    ensures Distinct(ks)
    ensures forall k :: k in ks <==> exists i :: 0 <= i < |xs| && key(xs[i]) == Some(k)
  {
    if |xs| == 0 then []
    else
      var p := xs[..|xs| - 1];
      var prev := FirstKeys(p, key);
      assert forall i :: 0 <= i < |p| ==> p[i] == xs[i];
      match key(xs[|xs| - 1])
      case Some(k) => if k in prev then prev else prev + [k]
      case None => prev
  }

  /** The elements of `xs` whose key is `k`, in input order. */
  function Bucket<T>(xs: seq<T>, key: T -> Option<string>, k: string): (b: seq<T>)
    ensures |b| <= |xs|
    ensures forall y :: y in b ==> y in xs && key(y) == Some(k)
  {
    if |xs| == 0 then []
    else
      var last := xs[|xs| - 1];
      Bucket(xs[..|xs| - 1], key, k) + (if key(last) == Some(k) then [last] else [])
  }

  lemma {:induction false} BucketEmptyIffUnseen<T>(xs: seq<T>, key: T -> Option<string>, k: string)
    ensures Bucket(xs, key, k) == [] <==> k !in FirstKeys(xs, key)
  {
    if |xs| > 0 {
      BucketEmptyIffUnseen(xs[..|xs| - 1], key, k);
    }
  }

  /** The first element of a bucket is the first element of `xs` with that key. */
  lemma {:induction false} BucketHeadIsFirst<T>(xs: seq<T>, key: T -> Option<string>, k: string, i: nat)
    requires i < |xs| && key(xs[i]) == Some(k)
    requires forall j :: 0 <= j < i ==> key(xs[j]) != Some(k)
    ensures |Bucket(xs, key, k)| > 0 && Bucket(xs, key, k)[0] == xs[i]
  {
    var p := xs[..|xs| - 1];
    if i < |xs| - 1 {
      BucketHeadIsFirst(p, key, k, i);
    } else {
      assert Bucket(p, key, k) == [] by {
        BucketEmptyIffUnseen(p, key, k);
        forall j | 0 <= j < |p| ensures key(p[j]) != Some(k) {
          assert p[j] == xs[j];
        }
      }
    }
  }

  /** The position of the first element of `xs` whose key is `k`. */
  ghost function FirstIndex<T>(xs: seq<T>, key: T -> Option<string>, k: string): (i: nat)
    requires k in FirstKeys(xs, key)
    ensures i < |xs| && key(xs[i]) == Some(k)
    ensures forall j :: 0 <= j < i ==> key(xs[j]) != Some(k)
  {
    if key(xs[0]) == Some(k) then 0
    else
      var j :| 0 <= j < |xs| && key(xs[j]) == Some(k);
      assert xs[1..][j - 1] == xs[j];
      1 + FirstIndex(xs[1..], key, k)
  }

  /** One step of the idiom: file `x` under its key, if it has one. */
  function Add<T>(d: Dict<seq<T>>, x: T, key: T -> Option<string>): Dict<seq<T>> {
    match key(x)
    case None => d
    case Some(k) => if k in Keys(d) then Put(d, k, Get(d, k).value + [x]) else Put(d, k, [x])
  }

  /** The idiom applied to every element of `xs` in order, from an empty dict. */
  function Bucketize<T>(xs: seq<T>, key: T -> Option<string>): (d: Dict<seq<T>>)
    ensures Keys(d) == FirstKeys(xs, key)
    ensures forall i :: 0 <= i < |d| ==> d[i].1 == Bucket(xs, key, d[i].0) && |d[i].1| > 0
  {
    if |xs| == 0 then []
    else
      var p := xs[..|xs| - 1];
      var x := xs[|xs| - 1];
      var prev := Bucketize(p, key);
      var d := Add(prev, x, key);
      AddKeepsBuckets(prev, p, x, key);
      d
  }

  lemma BucketSnoc<T>(p: seq<T>, x: T, key: T -> Option<string>, c: string)
    ensures Bucket(p + [x], key, c) == Bucket(p, key, c) + (if key(x) == Some(c) then [x] else [])
  {
    assert (p + [x])[..|p|] == p;
  }

  /** One append-or-create step keeps entry `i` the bucket of its key. */
  lemma AddKeepsBucketAt<T>(prev: Dict<seq<T>>, p: seq<T>, x: T, key: T -> Option<string>, i: nat)
    requires Keys(prev) == FirstKeys(p, key)
    requires i < |prev| ==> prev[i].1 == Bucket(p, key, prev[i].0) && |prev[i].1| > 0
    requires i < |Add(prev, x, key)|
    ensures Add(prev, x, key)[i].1 == Bucket(p + [x], key, Add(prev, x, key)[i].0)
    ensures |Add(prev, x, key)[i].1| > 0
  {
    var d := Add(prev, x, key);
    BucketSnoc(p, x, key, d[i].0);
    match key(x)
    case None =>
    case Some(k) =>
      if k in Keys(prev) {
        assert Keys(d)[i] == Keys(prev)[i];
        GetAt(prev, i);
        GetAt(d, i);
      } else if i < |prev| {
        assert d[i] == prev[i];
        assert Keys(prev)[i] == prev[i].0;
      } else {
        assert d[i] == (k, [x]);
        BucketEmptyIffUnseen(p, key, k);
      }
  }

  lemma AddKeepsBuckets<T>(prev: Dict<seq<T>>, p: seq<T>, x: T, key: T -> Option<string>)
    requires Keys(prev) == FirstKeys(p, key)
    requires forall i :: 0 <= i < |prev| ==> prev[i].1 == Bucket(p, key, prev[i].0) && |prev[i].1| > 0
    ensures Keys(Add(prev, x, key)) == FirstKeys(p + [x], key)
    ensures forall i :: 0 <= i < |Add(prev, x, key)| ==>
      Add(prev, x, key)[i].1 == Bucket(p + [x], key, Add(prev, x, key)[i].0) && |Add(prev, x, key)[i].1| > 0
  {
    var xs := p + [x];
    assert xs[..|xs| - 1] == p;
    var d := Add(prev, x, key);
    forall i | 0 <= i < |d| ensures d[i].1 == Bucket(xs, key, d[i].0) && |d[i].1| > 0 {
      AddKeepsBucketAt(prev, p, x, key, i);
    }
  }

  /** The bucket found under a key by lookup is that key's elements, in order. */
  lemma BucketizeGet<T>(xs: seq<T>, key: T -> Option<string>, k: string)
    ensures Get(Bucketize(xs, key), k) == if k in FirstKeys(xs, key) then Some(Bucket(xs, key, k)) else None
  {
    var d := Bucketize(xs, key);
    if k in Keys(d) {
      var i :| 0 <= i < |d| && Keys(d)[i] == k;
      GetAt(d, i);
    }
  }

  /** The key of a write `d[k] = v`. */
  function WriteKey<V>(w: (string, V)): Option<string> {
    Some(w.0)
  }

  /** After a series of writes into an empty dict, the keys are in the order of
      their FIRST write: a key written again keeps its place. */
  lemma {:induction false} PutAllKeysInFirstWriteOrder<V>(ws: Dict<V>)
    ensures Keys(PutAll([], ws)) == FirstKeys(ws, WriteKey)
    decreases |ws|
  {
    if |ws| > 0 {
      var p := ws[..|ws| - 1];
      var w := ws[|ws| - 1];
      var prev := FirstKeys(p, WriteKey);
      assert FirstKeys(ws, WriteKey) == if w.0 in prev then prev else prev + [w.0];
      PutAllKeysInFirstWriteOrder(p);
      var d := PutAll([], p);
      assert Keys(d) == prev;
      PutAllLast([], ws);
      KeysAfterPut(d, w.0, w.1);
    }
  }
}
