/**
 A Python `dict` with string keys, modelled as an association list that keeps
 insertion order. Assigning to a key that is already present updates the value
 in place and keeps the key's position; assigning to a new key appends it.
 */
module Dicts {
  import opened Wrappers

  type Dict<V> = seq<(string, V)>

  /** The keys, in iteration (insertion) order. */
  function Keys<V>(d: Dict<V>): seq<string> {
    seq(|d|, i requires 0 <= i < |d| => d[i].0)
  }

  predicate Distinct<T(==)>(s: seq<T>) {
    forall i, j :: 0 <= i < j < |s| ==> s[i] != s[j]
  }

  lemma DistinctTail<T>(s: seq<T>)
    requires |s| > 0 && Distinct(s)
    ensures Distinct(s[1..]) && s[0] !in s[1..]
  {
    forall i | 0 <= i < |s[1..]| ensures s[1..][i] != s[0] {
      assert s[1..][i] == s[i + 1];
    }
  }

  /** The invariant every Python dict keeps: no key occurs twice. */
  predicate DistinctKeys<V>(d: Dict<V>) {
    Distinct(Keys(d))
  }

  /** `d.get(k)`: the value stored under `k`, if any. */
  function Get<V>(d: Dict<V>, k: string): (r: Option<V>)
    ensures r.None? <==> k !in Keys(d)
    ensures r.Some? ==> (k, r.value) in d
  {
    if |d| == 0 then None
    else
      assert Keys(d) == [d[0].0] + Keys(d[1..]);
      if d[0].0 == k then Some(d[0].1) else Get(d[1..], k)
  }

  /** In a dict, the entry at position `i` is what a lookup of its key finds. */
  lemma {:induction false} GetAt<V>(d: Dict<V>, i: nat)
    requires DistinctKeys(d)
    requires i < |d|
    ensures Get(d, d[i].0) == Some(d[i].1)
  {
    if i > 0 {
      assert Keys(d)[0] != Keys(d)[i];
      assert Keys(d[1..]) == Keys(d)[1..];
      GetAt(d[1..], i - 1);
    }
  }

  lemma KeysCons<V>(p: (string, V), d: Dict<V>)
    ensures Keys([p] + d) == [p.0] + Keys(d)
  {
    assert ([p] + d)[1..] == d;
  }

  lemma DistinctCons<T>(x: T, s: seq<T>)
    requires x !in s && Distinct(s)
    ensures Distinct([x] + s)
  {
    forall i, j | 0 <= i < j < |[x] + s| ensures ([x] + s)[i] != ([x] + s)[j] {
      if i > 0 {
        assert ([x] + s)[i] == s[i - 1];
      }
      assert ([x] + s)[j] == s[j - 1];
    }
  }

  /** `d[k] = v`: updates `k` in place when present, otherwise appends it. */
  function Put<V>(d: Dict<V>, k: string, v: V): (r: Dict<V>)
    ensures Get(r, k) == Some(v)
    ensures forall k' :: k' != k ==> Get(r, k') == Get(d, k')
    ensures k in Keys(d) ==> Keys(r) == Keys(d)
    ensures k !in Keys(d) ==> r == d + [(k, v)]
    ensures DistinctKeys(d) ==> DistinctKeys(r)
  {
    if |d| == 0 then [(k, v)]
    else if d[0].0 == k then
      KeysCons((k, v), d[1..]);
      KeysCons(d[0], d[1..]);
      assert d == [d[0]] + d[1..];
      [(k, v)] + d[1..]
    else
      var rest := Put(d[1..], k, v);
      PutBehindHead(d, k, v, rest);
      [d[0]] + rest
  }

  lemma GetCons<V>(p: (string, V), d: Dict<V>, k: string)
    ensures Get([p] + d, k) == if p.0 == k then Some(p.1) else Get(d, k)
  {
    assert ([p] + d)[1..] == d;
  }

  /** `Put` past a head entry with another key: the contract of the rest carries
      over to the whole. */
  lemma PutBehindHead<V>(d: Dict<V>, k: string, v: V, rest: Dict<V>)
    requires |d| > 0 && d[0].0 != k
    requires Get(rest, k) == Some(v)
    requires forall k' :: k' != k ==> Get(rest, k') == Get(d[1..], k')
    requires k in Keys(d[1..]) ==> Keys(rest) == Keys(d[1..])
    requires k !in Keys(d[1..]) ==> rest == d[1..] + [(k, v)]
    requires DistinctKeys(d[1..]) ==> DistinctKeys(rest)
    ensures Get([d[0]] + rest, k) == Some(v)
    ensures forall k' :: k' != k ==> Get([d[0]] + rest, k') == Get(d, k')
    ensures k in Keys(d) ==> Keys([d[0]] + rest) == Keys(d)
    ensures k !in Keys(d) ==> [d[0]] + rest == d + [(k, v)]
    ensures DistinctKeys(d) ==> DistinctKeys([d[0]] + rest)
  {
    assert d == [d[0]] + d[1..];
    GetCons(d[0], rest, k);
    forall k' | k' != k ensures Get([d[0]] + rest, k') == Get(d, k') {
      GetCons(d[0], rest, k');
      GetCons(d[0], d[1..], k');
    }
    KeysBehindHead(d, k, v, rest);
  }

  lemma KeysBehindHead<V>(d: Dict<V>, k: string, v: V, rest: Dict<V>)
    requires |d| > 0 && d[0].0 != k
    requires k in Keys(d[1..]) ==> Keys(rest) == Keys(d[1..])
    requires k !in Keys(d[1..]) ==> rest == d[1..] + [(k, v)]
    requires DistinctKeys(d[1..]) ==> DistinctKeys(rest)
    ensures k in Keys(d) ==> Keys([d[0]] + rest) == Keys(d)
    ensures k !in Keys(d) ==> [d[0]] + rest == d + [(k, v)]
    ensures DistinctKeys(d) ==> DistinctKeys([d[0]] + rest)
  {
    assert d == [d[0]] + d[1..];
    KeysCons(d[0], rest);
    KeysCons(d[0], d[1..]);
    if DistinctKeys(d) {
      DistinctTail(Keys(d));
      if k in Keys(d[1..]) {
        assert Keys(rest) == Keys(d[1..]);
      } else {
        assert Keys(rest) == Keys(d[1..]) + [k];
      }
      DistinctCons(d[0].0, Keys(rest));
    }
  }

  /** The value of the last pair in `ws` whose key is `k`. */
  function LastWrite<V>(ws: Dict<V>, k: string): (r: Option<V>)
    ensures r.None? <==> k !in Keys(ws)
  {
    if |ws| == 0 then None
    else
      assert Keys(ws) == [ws[0].0] + Keys(ws[1..]);
      match LastWrite(ws[1..], k)
      case Some(v) => Some(v)
      case None => if ws[0].0 == k then Some(ws[0].1) else None
  }

  /** `LastWrite` finds a pair with key `k` that no later pair of `ws` overrides. */
  lemma {:induction false} LastWriteIsLast<V>(ws: Dict<V>, k: string)
    requires k in Keys(ws)
    ensures exists i :: 0 <= i < |ws| && ws[i] == (k, LastWrite(ws, k).value) &&
                        forall j :: i < j < |ws| ==> ws[j].0 != k
  {
    assert Keys(ws[1..]) == Keys(ws)[1..];
    if k in Keys(ws[1..]) {
      LastWriteIsLast(ws[1..], k);
      var i :| 0 <= i < |ws[1..]| && ws[1..][i] == (k, LastWrite(ws[1..], k).value) &&
               forall j :: i < j < |ws[1..]| ==> ws[1..][j].0 != k;
      assert ws[i + 1] == (k, LastWrite(ws, k).value);
      assert forall j :: i + 1 < j < |ws| ==> ws[j].0 != k by {
        forall j | i + 1 < j < |ws| ensures ws[j].0 != k {
          assert ws[j] == ws[1..][j - 1];
        }
      }
    } else {
      assert forall j :: 0 < j < |ws| ==> ws[j].0 != k by {
        forall j | 0 < j < |ws| ensures ws[j].0 != k {
          assert Keys(ws[1..])[j - 1] == ws[j].0;
        }
      }
    }
  }

  /** The writes `d[k] = v` for every pair of `ws`, one after another. */
  function PutAll<V>(d: Dict<V>, ws: Dict<V>): Dict<V>
    decreases |ws|
  {
    if |ws| == 0 then d
    else PutAll(Put(d, ws[0].0, ws[0].1), ws[1..])
  }

  /** Later writes win: after the writes `ws`, a key holds the value of its last
      write, and a key never written keeps its old value. */
  lemma {:induction false} PutAllGet<V>(d: Dict<V>, ws: Dict<V>, k: string)
    ensures Get(PutAll(d, ws), k) == (if k in Keys(ws) then LastWrite(ws, k) else Get(d, k))
    decreases |ws|
  {
    if |ws| > 0 {
      assert Keys(ws) == [ws[0].0] + Keys(ws[1..]);
      PutAllGet(Put(d, ws[0].0, ws[0].1), ws[1..], k);
    }
  }

  /** Writes never move or remove a key: the old keys stay, in order, at the front,
      and the result is still a dict when `d` was. */
  lemma {:induction false} PutAllKeepsKeys<V>(d: Dict<V>, ws: Dict<V>)
    ensures |d| <= |PutAll(d, ws)| && Keys(PutAll(d, ws))[..|d|] == Keys(d)
    ensures DistinctKeys(d) ==> DistinctKeys(PutAll(d, ws))
    decreases |ws|
  {
    if |ws| > 0 {
      var d' := Put(d, ws[0].0, ws[0].1);
      var r := PutAll(d', ws[1..]);
      assert r == PutAll(d, ws);
      PutAllKeepsKeys(d', ws[1..]);
      PutKeepsKeyPrefix(d, ws[0].0, ws[0].1);
      var ks, ks' := Keys(r), Keys(d');
      assert ks[..|d'|] == ks';
      assert ks[..|d|] == ks[..|d'|][..|d|];
    }
  }

  lemma PutKeepsKeyPrefix<V>(d: Dict<V>, k: string, v: V)
    ensures |d| <= |Put(d, k, v)| && Keys(Put(d, k, v))[..|d|] == Keys(d)
  {
    if k !in Keys(d) {
      assert Keys(Put(d, k, v)) == Keys(d) + [k];
    }
  }

  lemma {:induction false} PutAllAppend<V>(d: Dict<V>, a: Dict<V>, b: Dict<V>)
    ensures PutAll(d, a + b) == PutAll(PutAll(d, a), b)
    decreases |a|
  {
    if |a| == 0 {
      assert a + b == b;
    } else {
      assert (a + b)[0] == a[0];
      assert (a + b)[1..] == a[1..] + b;
      PutAllAppend(Put(d, a[0].0, a[0].1), a[1..], b);
    }
  }

  lemma KeysAfterPut<V>(d: Dict<V>, k: string, v: V)
    ensures Keys(Put(d, k, v)) == if k in Keys(d) then Keys(d) else Keys(d) + [k]
  {
    if k !in Keys(d) {
      assert Keys(d + [(k, v)]) == Keys(d) + [k];
    }
  }

  /** The last write of a series comes last. */
  lemma PutAllLast<V>(d: Dict<V>, ws: Dict<V>)
    requires |ws| > 0
    ensures PutAll(d, ws) == Put(PutAll(d, ws[..|ws| - 1]), ws[|ws| - 1].0, ws[|ws| - 1].1)
  {
    var p, w := ws[..|ws| - 1], ws[|ws| - 1];
    assert p + [w] == ws;
    PutAllAppend(d, p, [w]);
    var d' := PutAll(d, p);
    assert PutAll(d', [w]) == PutAll(Put(d', w.0, w.1), [w][1..]);
    assert [w][1..] == [];
  }

  /** Writing pairs whose keys are all new, and distinct, just appends them. */
  lemma {:induction false} PutAllFresh<V>(d: Dict<V>, ws: Dict<V>)
    requires DistinctKeys(d + ws)
    ensures PutAll(d, ws) == d + ws
    decreases |ws|
  {
    if |ws| > 0 {
      var k := ws[0].0;
      var ks := Keys(d + ws);
      assert ks[|d|] == k;
      assert k !in Keys(d) by {
        forall i | 0 <= i < |d| ensures Keys(d)[i] != k {
          assert ks[i] == Keys(d)[i];
          assert ks[i] != ks[|d|];
        }
      }
      var d' := Put(d, k, ws[0].1);
      assert d' == d + [ws[0]];
      assert d' + ws[1..] == d + ws;
      PutAllFresh(d', ws[1..]);
    }
  }

  /** In a dict a key is paired with one value only. */
  lemma InDictUnique<V>(d: Dict<V>, k: string, v: V, v': V)
    requires DistinctKeys(d)
    requires (k, v) in d && (k, v') in d
    ensures v == v'
  {
    var i :| 0 <= i < |d| && d[i] == (k, v);
    var j :| 0 <= j < |d| && d[j] == (k, v');
    assert Keys(d)[i] == Keys(d)[j];
  }
}
