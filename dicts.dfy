/**
 * Python dictionaries from strings to strings, as the BOM exporter uses them
 * for components and line items: a sequence of entries in insertion order,
 * each key at most once.
 */
module Dicts {
  import opened Results

  type Entry = (string, string)

  /** A dictionary: its entries in insertion order. */
  type Dict = seq<Entry>

  predicate KeysDistinct(d: Dict)
  {
    forall i, j :: 0 <= i < j < |d| ==> d[i].0 != d[j].0
  }

  predicate HasKey(d: Dict, k: string)
  {
    exists i :: 0 <= i < |d| && d[i].0 == k
  }

  /** Where key `k` sits. */
  function Find(d: Dict, k: string): (r: Option<nat>)
    ensures r.Some? ==> r.value < |d| && d[r.value].0 == k && forall j :: 0 <= j < r.value ==> d[j].0 != k
    ensures r.None? <==> !HasKey(d, k)
    decreases |d|
  {
    if d == [] then None
    else if d[0].0 == k then Some(0)
    else
      match Find(d[1..], k)
      case None => None
      case Some(i) => Some(i + 1)
  }

  /** `d.get(k)`. */
  function Get(d: Dict, k: string): (r: Option<string>)
    ensures r.Some? <==> HasKey(d, k)
    ensures r.Some? ==> exists i :: 0 <= i < |d| && d[i] == (k, r.value)
  {
    match Find(d, k)
    case None => None
    case Some(i) => Some(d[i].1)
  }

  /** `d[k] = v`: an existing key keeps its place, a new one goes at the end. */
  function Set(d: Dict, k: string, v: string): (r: Dict)
    ensures KeysDistinct(d) ==> KeysDistinct(r)
    ensures Get(r, k) == Some(v)
    ensures forall k' :: k' != k ==> Get(r, k') == Get(d, k')
    ensures !HasKey(d, k) ==> r == d + [(k, v)]
    ensures HasKey(d, k) ==> |r| == |d|
  {
    match Find(d, k)
    case Some(i) =>
      var r := d[i := (k, v)];
      assert Find(r, k) == Some(i) by { FindAgrees(d, r, k, i); }
      forall k' | k' != k ensures Get(r, k') == Get(d, k') {
        FindOther(d, k, v, k', i);
      }
      r
    case None =>
      var r := d + [(k, v)];
      assert Find(r, k) == Some(|d|) by { FindAppend(d, k, v, k); }
      forall k' | k' != k ensures Get(r, k') == Get(d, k') {
        FindAppend(d, k, v, k');
      }
      r
  }

  lemma {:induction false} FindAgrees(d: Dict, r: Dict, k: string, i: nat)
    requires |r| == |d| && i < |d| && r[i].0 == k
    requires forall j :: 0 <= j < i ==> r[j] == d[j] && d[j].0 != k
    ensures Find(r, k) == Some(i)
    decreases i
  {
    if i > 0 {
      FindAgrees(d[1..], r[1..], k, i - 1);
    }
  }

  lemma {:induction false} FindOther(d: Dict, k: string, v: string, k': string, i: nat)
    requires i < |d| && d[i].0 == k && k' != k
    ensures Find(d[i := (k, v)], k') == Find(d, k')
    decreases |d|
  {
    var r := d[i := (k, v)];
    if i > 0 {
      assert r[1..] == d[1..][i - 1 := (k, v)];
      FindOther(d[1..], k, v, k', i - 1);
    } else {
      assert r[1..] == d[1..];
    }
  }

  lemma {:induction false} FindAppend(d: Dict, k: string, v: string, k': string)
    requires !HasKey(d, k)
    ensures Find(d + [(k, v)], k') == if HasKey(d, k') then Find(d, k') else if k' == k then Some(|d|) else None
    decreases |d|
  {
    if d != [] {
      assert (d + [(k, v)])[1..] == d[1..] + [(k, v)];
      assert !HasKey(d[1..], k) by {
        forall j | 0 <= j < |d[1..]| ensures d[1..][j].0 != k {
          assert d[1..][j] == d[j + 1];
        }
      }
      FindAppend(d[1..], k, v, k');
      if d[0].0 != k' {
        assert HasKey(d, k') <==> HasKey(d[1..], k') by {
          if HasKey(d, k') {
            var j :| 0 <= j < |d| && d[j].0 == k';
            assert d[1..][j - 1] == d[j];
          }
          if HasKey(d[1..], k') {
            var j :| 0 <= j < |d[1..]| && d[1..][j].0 == k';
            assert d[j + 1] == d[1..][j];
          }
        }
      }
    } else {
      assert d + [(k, v)] == [(k, v)];
    }
  }

  /** `d` without the entries of key `k`. */
  function Remove(d: Dict, k: string): (r: Dict)
    ensures !HasKey(r, k)
    ensures forall e :: e in r <==> e in d && e.0 != k
    ensures KeysDistinct(d) ==> KeysDistinct(r)
    decreases |d|
  {
    if d == [] then []
    else
      var rest := Remove(d[1..], k);
      assert forall e :: e in d <==> e == d[0] || e in d[1..];
      if d[0].0 == k then rest
      else
        ConsDistinct(d, rest);
        [d[0]] + rest
  }

  /** The first entry in front of entries taken from the others keeps the keys distinct. */
  lemma ConsDistinct(d: Dict, rest: Dict)
    requires d != [] && (KeysDistinct(d) ==> KeysDistinct(rest))
    requires forall e :: e in rest ==> e in d[1..]
    ensures KeysDistinct(d) ==> KeysDistinct([d[0]] + rest)
  {
    if KeysDistinct(d) {
      forall j | 0 <= j < |rest| ensures rest[j].0 != d[0].0 {
        assert rest[j] in d[1..];
        var m :| 0 <= m < |d[1..]| && d[1..][m] == rest[j];
        assert d[m + 1] == rest[j];
      }
    }
  }

  /** `d.pop(k)`: the value and what is left, or KeyError when the key is missing. */
  function Pop(d: Dict, k: string): (r: Result<(string, Dict)>)
    ensures r.Ok? <==> HasKey(d, k)
    ensures r.Err? ==> r.failure == KeyError
    ensures r.Ok? ==> Some(r.value.0) == Get(d, k) && r.value.1 == Remove(d, k)
  {
    match Get(d, k)
    case None => Err(KeyError)
    case Some(v) => Ok((v, Remove(d, k)))
  }

  /** With distinct keys, `d[k] == v` exactly when the entry `(k, v)` is present. */
  lemma GetIn(d: Dict, k: string, v: string)
    requires KeysDistinct(d)
    ensures Get(d, k) == Some(v) <==> (k, v) in d
  {
    if (k, v) in d {
      var j :| 0 <= j < |d| && d[j] == (k, v);
      var w := Get(d, k).value;
      var i :| 0 <= i < |d| && d[i] == (k, w);
      assert i == j;
    }
  }

  /** Dictionaries with the same entries, in any order, answer every lookup alike. */
  lemma GetPermutation(d: Dict, e: Dict, k: string)
    requires KeysDistinct(d) && KeysDistinct(e) && multiset(d) == multiset(e)
    ensures Get(d, k) == Get(e, k)
  {
    if Get(d, k).Some? {
      var v := Get(d, k).value;
      GetIn(d, k, v);
      assert (k, v) in multiset(e);
      GetIn(e, k, v);
    } else if Get(e, k).Some? {
      var v := Get(e, k).value;
      GetIn(e, k, v);
      assert (k, v) in multiset(d);
      GetIn(d, k, v);
    }
  }

  /** Removing one key leaves every other lookup as it was. */
  lemma GetRemove(d: Dict, r: string, k: string)
    requires KeysDistinct(d) && k != r
    ensures Get(Remove(d, r), k) == Get(d, k)
  {
    if Get(d, k).Some? {
      GetIn(d, k, Get(d, k).value);
      GetIn(Remove(d, r), k, Get(d, k).value);
    } else if Get(Remove(d, r), k).Some? {
      GetIn(Remove(d, r), k, Get(Remove(d, r), k).value);
      GetIn(d, k, Get(Remove(d, r), k).value);
    }
  }
}
