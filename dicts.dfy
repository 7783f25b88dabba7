/**
 * JavaScript objects with string keys, as the compiler builds them with spreads,
 * `Object.fromEntries` and assignment: a sequence of entries in insertion order.
 * Assigning an existing key replaces its value in place; a new key is appended.
 */
module Dicts {
  import opened Wrappers

  type Dict<V> = seq<(string, V)>

  function Keys<V>(d: Dict<V>): (ks: seq<string>)
    ensures |ks| == |d|
    ensures forall i :: 0 <= i < |d| ==> ks[i] == d[i].0
  {
    seq(|d|, i requires 0 <= i < |d| => d[i].0)
  }

  function Values<V>(d: Dict<V>): (vs: seq<V>)
    ensures |vs| == |d|
    ensures forall i :: 0 <= i < |d| ==> vs[i] == d[i].1
  {
    seq(|d|, i requires 0 <= i < |d| => d[i].1)
  }

  /** Every key occurs once, as in any JavaScript object. */
  ghost predicate DistinctKeys<V>(d: Dict<V>) {
    forall i, j :: 0 <= i < j < |d| ==> d[i].0 != d[j].0
  }

  /** Position of the first entry with key `k`. */
  function Find<V>(d: Dict<V>, k: string): (r: Option<nat>)
    ensures r.Some? ==> r.value < |d| && d[r.value].0 == k
    ensures r.Some? ==> forall j :: 0 <= j < r.value ==> d[j].0 != k
    ensures r.None? <==> k !in Keys(d)
  {
    if |d| == 0 then None
    else if d[0].0 == k then Some(0)
    else match Find(d[1..], k)
      case None => None
      case Some(i) => Some(i + 1)
  }

  /** `d[k]`, `undefined` when the key is absent. */
  function Get<V>(d: Dict<V>, k: string): (r: Option<V>)
    ensures r.Some? <==> k in Keys(d)
  {
    match Find(d, k)
    case None => None
    case Some(i) => Some(d[i].1)
  }

  /** `d[k] = v` on a copy. */
  function Put<V>(d: Dict<V>, k: string, v: V): (r: Dict<V>)
    ensures Get(r, k) == Some(v)
    ensures forall j {:trigger Get(r, j)} :: j != k ==> Get(r, j) == Get(d, j)
    ensures k in Keys(d) ==> |r| == |d| && Keys(r) == Keys(d)
    ensures k !in Keys(d) ==> r == d + [(k, v)]
  {
    match Find(d, k)
    case None =>
      assert forall j :: j != k ==> Find(d + [(k, v)], j) == Find(d, j) by {
        forall j | j != k ensures Find(d + [(k, v)], j) == Find(d, j) {
          FindAppend(d, (k, v), j);
        }
      }
      FindAppend(d, (k, v), k);
      d + [(k, v)]
    case Some(i) =>
      var r := d[i := (k, v)];
      assert Keys(r) == Keys(d);
      assert forall j :: j != k ==> Find(r, j) == Find(d, j) by {
        forall j | j != k ensures Find(r, j) == Find(d, j) {
          FindUpdate(d, i, v, j);
        }
      }
      FindUpdate(d, i, v, k);
      r
  }

  lemma {:induction false} FindAppend<V>(d: Dict<V>, e: (string, V), j: string)
    ensures Find(d + [e], j) == if j in Keys(d) then Find(d, j) else if e.0 == j then Some(|d|) else None
  {
    if |d| > 0 {
      assert (d + [e])[1..] == d[1..] + [e];
      FindAppend(d[1..], e, j);
      assert Keys(d) == [d[0].0] + Keys(d[1..]);
    }
  }

  lemma {:induction false} FindUpdate<V>(d: Dict<V>, i: nat, v: V, j: string)
    requires i < |d|
    requires Find(d, d[i].0) == Some(i)
    ensures Find(d[i := (d[i].0, v)], j) == Find(d, j)
  {
    var d' := d[i := (d[i].0, v)];
    assert d'[0].0 == d[0].0;
    if i == 0 {
      assert d'[1..] == d[1..];
    } else {
      var k := d[i].0;
      assert d[0].0 != k;
      assert Find(d[1..], k) == Some(i - 1) by {
        FindShift(d, k);
      }
      assert d'[1..] == d[1..][i - 1 := (k, v)];
      assert d[1..][i - 1].0 == k;
      FindUpdate(d[1..], i - 1, v, j);
    }
    if d[0].0 != j {
      FindShift(d, j);
      FindShift(d', j);
    }
  }

  /** A key no entry carries is not a key of the object. */
  lemma AbsentKey<V>(d: Dict<V>, k: string)
    requires forall i :: 0 <= i < |d| ==> d[i].0 != k
    ensures k !in Keys(d)
  {
    forall i | 0 <= i < |d| ensures Keys(d)[i] != k {
    }
  }

  /** Past a first entry with another key, the search goes on in the rest. */
  lemma FindShift<V>(d: Dict<V>, k: string)
    requires |d| > 0 && d[0].0 != k
    ensures Find(d, k) == if Find(d[1..], k).None? then None else Some(Find(d[1..], k).value + 1)
  {
  }

  /** `{...a, ...b}`. */
  function Spread<V>(a: Dict<V>, b: Dict<V>): Dict<V>
    decreases |b|
  {
    if |b| == 0 then a else Spread(Put(a, b[0].0, b[0].1), b[1..])
  }

  /** `Object.fromEntries(entries)`. */
  function FromEntries<V>(entries: Dict<V>): Dict<V> {
    Spread([], entries)
  }

  lemma PutKeepsDistinct<V>(d: Dict<V>, k: string, v: V)
    requires DistinctKeys(d)
    ensures DistinctKeys(Put(d, k, v))
  {
    if k in Keys(d) {
      var r := Put(d, k, v);
      assert forall i :: 0 <= i < |d| ==> r[i].0 == Keys(r)[i] == Keys(d)[i] == d[i].0;
    }
  }

  /** The lookup of `{...a, ...b}`: the value from `b` wins, otherwise that of `a`. */
  lemma {:induction false} SpreadGet<V>(a: Dict<V>, b: Dict<V>, k: string)
    requires DistinctKeys(b)
    ensures Get(Spread(a, b), k) == if k in Keys(b) then Get(b, k) else Get(a, k)
    decreases |b|
  {
    if |b| > 0 {
      var a' := Put(a, b[0].0, b[0].1);
      assert Spread(a, b) == Spread(a', b[1..]);
      assert DistinctKeys(b[1..]) by {
        assert forall i :: 0 <= i < |b[1..]| ==> b[1..][i] == b[i + 1];
      }
      SpreadGet(a', b[1..], k);
      KeysCons(b);
      if k == b[0].0 {
        assert k !in Keys(b[1..]) by {
          forall i | 0 <= i < |b[1..]| ensures Keys(b[1..])[i] != k {
            assert Keys(b[1..])[i] == b[i + 1].0;
          }
        }
        assert Get(b, k) == Some(b[0].1);
      } else {
        GetTail(b, k);
      }
    }
  }

  lemma KeysCons<V>(d: Dict<V>)
    requires |d| > 0
    ensures Keys(d) == [d[0].0] + Keys(d[1..])
  {
  }

  /** Past a first entry with another key, a lookup goes on in the rest. */
  lemma GetTail<V>(d: Dict<V>, k: string)
    requires |d| > 0 && d[0].0 != k
    ensures Get(d, k) == Get(d[1..], k)
  {
    FindShift(d, k);
  }

  lemma {:induction false} SpreadKeepsDistinct<V>(a: Dict<V>, b: Dict<V>)
    requires DistinctKeys(a)
    ensures DistinctKeys(Spread(a, b))
    decreases |b|
  {
    if |b| > 0 {
      PutKeepsDistinct(a, b[0].0, b[0].1);
      SpreadKeepsDistinct(Put(a, b[0].0, b[0].1), b[1..]);
    }
  }

  /** The keys of `{...a, ...b}` are those of `a` and of `b`. */
  lemma {:induction false} SpreadKeys<V>(a: Dict<V>, b: Dict<V>, k: string)
    ensures k in Keys(Spread(a, b)) <==> k in Keys(a) || k in Keys(b)
    decreases |b|
  {
    if |b| > 0 {
      var a' := Put(a, b[0].0, b[0].1);
      assert Spread(a, b) == Spread(a', b[1..]);
      SpreadKeys(a', b[1..], k);
      KeysCons(b);
      PutKeys(a, b[0].0, b[0].1, k);
    }
  }

  lemma PutKeys<V>(d: Dict<V>, k: string, v: V, j: string)
    ensures j in Keys(Put(d, k, v)) <==> j == k || j in Keys(d)
  {
    var r := Put(d, k, v);
    assert j in Keys(r) <==> Get(r, j).Some?;
    assert j in Keys(d) <==> Get(d, j).Some?;
  }

  /** Spreading one more entry is one more assignment. */
  lemma {:induction false} SpreadSnoc<V>(a: Dict<V>, b: Dict<V>, k: string, v: V)
    ensures Spread(a, b + [(k, v)]) == Put(Spread(a, b), k, v)
    decreases |b|
  {
    if |b| == 0 {
      assert Spread(Put(a, k, v), []) == Put(a, k, v);
      assert ([] + [(k, v)])[1..] == [];
    } else {
      assert (b + [(k, v)])[0] == b[0];
      assert (b + [(k, v)])[1..] == b[1..] + [(k, v)];
      SpreadSnoc(Put(a, b[0].0, b[0].1), b[1..], k, v);
    }
  }

  /** An object built by `Object.fromEntries` has each key once. */
  lemma FromEntriesDistinct<V>(entries: Dict<V>)
    ensures DistinctKeys(FromEntries(entries))
  {
    SpreadKeepsDistinct([], entries);
  }

  /** Lookup positions depend on the keys only. */
  lemma {:induction false} FindByKeys<V, W>(a: Dict<V>, b: Dict<W>, k: string)
    requires Keys(a) == Keys(b)
    ensures Find(a, k) == Find(b, k)
    decreases |a|
  {
    if |a| > 0 {
      assert a[0].0 == Keys(a)[0] == Keys(b)[0] == b[0].0;
      assert Keys(a[1..]) == Keys(a)[1..] == Keys(b)[1..] == Keys(b[1..]);
      FindByKeys(a[1..], b[1..], k);
    }
  }

  /** The reduce `(acc, i) => ({...acc, [keys[i]]: values[i]})` from `{}`. */
  function Assign<V>(keys: seq<string>, values: seq<V>): Dict<V>
    requires |keys| == |values|
    decreases |keys|
  {
    if |keys| == 0 then []
    else Put(Assign(keys[..|keys| - 1], values[..|keys| - 1]), keys[|keys| - 1], values[|keys| - 1])
  }

  lemma InSnoc<T>(s: seq<T>, x: T)
    requires |s| > 0
    ensures x in s <==> x in s[..|s| - 1] || x == s[|s| - 1]
  {
    assert s == s[..|s| - 1] + [s[|s| - 1]];
  }

  /** The keys assigned are the given keys. */
  lemma {:induction false} AssignKeys<V>(keys: seq<string>, values: seq<V>, k: string)
    requires |keys| == |values|
    ensures k in Keys(Assign(keys, values)) <==> k in keys
    decreases |keys|
  {
    if |keys| > 0 {
      var n := |keys| - 1;
      var prev := Assign(keys[..n], values[..n]);
      assert Assign(keys, values) == Put(prev, keys[n], values[n]);
      InSnoc(keys, k);
      AssignKeys(keys[..n], values[..n], k);
      PutKeys(prev, keys[n], values[n], k);
    }
  }

  /** A key that is not assigned again later keeps the value assigned to it. */
  lemma {:induction false} AssignLast<V>(keys: seq<string>, values: seq<V>, i: nat)
    requires |keys| == |values| && i < |keys|
    requires forall j :: i < j < |keys| ==> keys[j] != keys[i]
    ensures Get(Assign(keys, values), keys[i]) == Some(values[i])
    decreases |keys|, 1
  {
    if i < |keys| - 1 {
      AssignLastBefore(keys, values, i);
    }
  }

  /** A key assigned before the last assignment keeps its value past an assignment to another key. */
  lemma {:induction false} AssignLastBefore<V>(keys: seq<string>, values: seq<V>, i: nat)
    requires |keys| == |values| && i < |keys| - 1
    requires forall j :: i < j < |keys| ==> keys[j] != keys[i]
    ensures Get(Assign(keys, values), keys[i]) == Some(values[i])
    decreases |keys|, 0
  {
    var n := |keys| - 1;
    var ks, vs := keys[..n], values[..n];
    var prev := Assign(ks, vs);
    assert Assign(keys, values) == Put(prev, keys[n], values[n]);
    LaterInPrefix(keys, i, n);
    AssignLast(ks, vs, i);
    assert ks[i] == keys[i] && vs[i] == values[i];
    PutOther(prev, keys[n], values[n], keys[i]);
  }

  lemma LaterInPrefix<T>(s: seq<T>, i: nat, n: nat)
    requires i < n <= |s|
    requires forall j :: i < j < |s| ==> s[j] != s[i]
    ensures forall j :: i < j < n ==> s[..n][j] != s[..n][i]
  {
  }

  lemma PutOther<V>(d: Dict<V>, k: string, v: V, j: string)
    requires j != k
    ensures Get(Put(d, k, v), j) == Get(d, j)
  {
  }

  /** Every key holds the value of its last assignment. */
  lemma AssignValue<V>(keys: seq<string>, values: seq<V>, k: string)
    requires |keys| == |values| && k in keys
    ensures exists i :: 0 <= i < |keys| && keys[i] == k && Get(Assign(keys, values), k) == Some(values[i])
  {
    var i :| 0 <= i < |keys| && keys[i] == k;
    while exists j :: i < j < |keys| && keys[j] == k
      invariant 0 <= i < |keys| && keys[i] == k
      decreases |keys| - i
    {
      var i' :| i < i' < |keys| && keys[i'] == k;
      i := i';
    }
    AssignLast(keys, values, i);
  }

  /** Whatever the keys, the object built has each key once. */
  lemma {:induction false} AssignKeepsDistinct<V>(keys: seq<string>, values: seq<V>)
    requires |keys| == |values|
    ensures DistinctKeys(Assign(keys, values))
    decreases |keys|
  {
    if |keys| > 0 {
      var n := |keys| - 1;
      var prev := Assign(keys[..n], values[..n]);
      assert DistinctKeys(Put(prev, keys[n], values[n])) by {
        AssignKeepsDistinct(keys[..n], values[..n]);
        PutKeepsDistinct(prev, keys[n], values[n]);
      }
      assert Assign(keys, values) == Put(prev, keys[n], values[n]);
    }
  }

  /** Spreading entries whose keys are all new and distinct appends them. */
  lemma {:induction false} SpreadFresh<V>(a: Dict<V>, b: Dict<V>)
    requires DistinctKeys(a + b)
    ensures Spread(a, b) == a + b
    decreases |b|
  {
    if |b| > 0 {
      var a' := a + [b[0]];
      assert a' + b[1..] == a + b;
      assert Put(a, b[0].0, b[0].1) == a' by {
        FreshHead(a, b);
      }
      SpreadFresh(a', b[1..]);
    }
  }

  lemma FreshHead<V>(a: Dict<V>, b: Dict<V>)
    requires DistinctKeys(a + b) && |b| > 0
    ensures b[0].0 !in Keys(a)
  {
    forall i | 0 <= i < |a| ensures Keys(a)[i] != b[0].0 {
      assert (a + b)[i] == a[i] && (a + b)[|a|] == b[0];
    }
  }

  /** An object built from the entries of an object is that object. */
  lemma FromEntriesOfObject<V>(d: Dict<V>)
    requires DistinctKeys(d)
    ensures FromEntries(d) == d
  {
    assert [] + d == d;
    SpreadFresh([], d);
  }
}
