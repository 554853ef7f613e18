/**
 * Python's `sorted`: a stable sort by a total preorder. It is written as an
 * insertion sort; what the scripts rely on is proved about it: the result is
 * ordered, it is a permutation of the input, and elements that compare equal
 * keep their input order.
 */
module StableSort {

  /** `le` is total and transitive, as a sort key's `<=` is. */
  ghost predicate TotalPreorder<T(!new)>(le: (T, T) -> bool)
  {
    (forall a, b :: le(a, b) || le(b, a)) &&
    (forall a, b, c :: le(a, b) && le(b, c) ==> le(a, c))
  }

  /** Two elements whose keys compare equal. */
  predicate Equiv<T>(le: (T, T) -> bool, a: T, b: T) { le(a, b) && le(b, a) }

  ghost predicate Sorted<T>(s: seq<T>, le: (T, T) -> bool)
  {
    forall i, j :: 0 <= i < j < |s| ==> le(s[i], s[j])
  }

  /** Puts `x` in front of the first element that is not below it. */
  function Insert<T>(x: T, s: seq<T>, le: (T, T) -> bool): (r: seq<T>)
    ensures multiset(r) == multiset(s) + multiset{x}
    ensures |r| == |s| + 1
    decreases |s|
  {
    if s == [] then [x]
    else if le(x, s[0]) then [x] + s
    else
      assert s == [s[0]] + s[1..];
      [s[0]] + Insert(x, s[1..], le)
  }

  /** `sorted(s, key=...)`. */
  function SortBy<T>(s: seq<T>, le: (T, T) -> bool): (r: seq<T>)
    ensures multiset(r) == multiset(s)
    ensures |r| == |s|
    decreases |s|
  {
    if s == [] then []
    else
      assert s == [s[0]] + s[1..];
      Insert(s[0], SortBy(s[1..], le), le)
  }

  /** The elements of `s` whose key equals the key of `x`, in their order in `s`. */
  function Peers<T>(s: seq<T>, x: T, le: (T, T) -> bool): seq<T>
    decreases |s|
  {
    if s == [] then []
    else (if Equiv(le, x, s[0]) then [s[0]] else []) + Peers(s[1..], x, le)
  }

  lemma {:induction false} InsertSorted<T(!new)>(x: T, s: seq<T>, le: (T, T) -> bool)
    requires TotalPreorder(le) && Sorted(s, le)
    ensures Sorted(Insert(x, s, le), le)
    decreases |s|
  {
    if s != [] && !le(x, s[0]) {
      InsertSorted(x, s[1..], le);
      var r := Insert(x, s[1..], le);
      assert multiset(r) == multiset(s[1..]) + multiset{x};
      forall j | 0 <= j < |r| ensures le(s[0], r[j]) {
        assert r[j] in multiset(r);
        if r[j] != x {
          assert r[j] in multiset(s[1..]);
          var k :| 0 <= k < |s[1..]| && s[1..][k] == r[j];
          assert s[k + 1] == r[j];
        }
      }
    }
  }

  /** The result of `sorted` is ordered. */
  lemma {:induction false} SortBySorted<T(!new)>(s: seq<T>, le: (T, T) -> bool)
    requires TotalPreorder(le)
    ensures Sorted(SortBy(s, le), le)
    decreases |s|
  {
    if s != [] {
      SortBySorted(s[1..], le);
      InsertSorted(s[0], SortBy(s[1..], le), le);
    }
  }

  lemma {:induction false} PeersInsert<T(!new)>(x: T, s: seq<T>, z: T, le: (T, T) -> bool)
    requires TotalPreorder(le) && Sorted(s, le)
    ensures Peers(Insert(x, s, le), z, le)
         == if Equiv(le, z, x) then [x] + Peers(s, z, le) else Peers(s, z, le)
    decreases |s|
  {
    if s == [] {
    } else if le(x, s[0]) {
      assert Insert(x, s, le)[1..] == s;
    } else {
      var r := Insert(x, s, le);
      assert r[0] == s[0] && r[1..] == Insert(x, s[1..], le);
      PeersInsert(x, s[1..], z, le);
      if Equiv(le, z, x) {
        // s[0] is strictly below x, so it is no peer of z
        assert !Equiv(le, z, s[0]);
        assert s == [s[0]] + s[1..];
      }
    }
  }

  /** `sorted` is stable: the elements with equal keys come out in their input order. */
  lemma {:induction false} SortByStable<T(!new)>(s: seq<T>, z: T, le: (T, T) -> bool)
    requires TotalPreorder(le)
    ensures Peers(SortBy(s, le), z, le) == Peers(s, z, le)
    decreases |s|
  {
    if s != [] {
      SortByStable(s[1..], z, le);
      SortBySorted(s[1..], le);
      PeersInsert(s[0], SortBy(s[1..], le), z, le);
    }
  }

  /** `[f(x) for x in s]`. */
  function MapSeq<T, U>(f: T -> U, s: seq<T>): (r: seq<U>)
    ensures |r| == |s| && forall i :: 0 <= i < |s| ==> r[i] == f(s[i])
    decreases |s|
  {
    if s == [] then [] else [f(s[0])] + MapSeq(f, s[1..])
  }

  lemma MapSeqPrefix<T, U>(f: T -> U, s: seq<T>, n: nat)
    requires n <= |s|
    ensures MapSeq(f, s)[..n] == MapSeq(f, s[..n])
  {
  }

  lemma SplitLast<T>(s: seq<T>)
    requires s != []
    ensures s == s[..|s| - 1] + [s[|s| - 1]]
  {
  }

  lemma MapSeqSnoc<T, U>(f: T -> U, s: seq<T>, x: T)
    ensures MapSeq(f, s + [x]) == MapSeq(f, s) + [f(x)]
  {
    var l, r := MapSeq(f, s + [x]), MapSeq(f, s) + [f(x)];
    forall i | 0 <= i < |l| ensures l[i] == r[i] {
      if i < |s| {
        assert (s + [x])[i] == s[i];
      }
    }
  }

  lemma {:induction false} InsertMap<T(!new), U(!new)>(x: T, t: seq<T>, f: T -> U, le: (T, T) -> bool, leU: (U, U) -> bool)
    requires forall a, b :: leU(f(a), f(b)) == le(a, b)
    ensures Insert(f(x), MapSeq(f, t), leU) == MapSeq(f, Insert(x, t, le))
    decreases |t|
  {
    if t != [] {
      var r := Insert(x, t, le);
      if le(x, t[0]) {
        assert r == [x] + t;
        assert MapSeq(f, r) == [f(x)] + MapSeq(f, t);
      } else {
        InsertMap(x, t[1..], f, le, leU);
        assert r == [t[0]] + Insert(x, t[1..], le);
        assert MapSeq(f, r)[1..] == MapSeq(f, Insert(x, t[1..], le));
        assert MapSeq(f, t)[1..] == MapSeq(f, t[1..]);
      }
    }
  }

  /** Sorting depends only on the keys: a key-preserving map commutes with `sorted`. */
  lemma {:induction false} SortByMap<T(!new), U(!new)>(s: seq<T>, f: T -> U, le: (T, T) -> bool, leU: (U, U) -> bool)
    requires forall a, b :: leU(f(a), f(b)) == le(a, b)
    ensures SortBy(MapSeq(f, s), leU) == MapSeq(f, SortBy(s, le))
    decreases |s|
  {
    if s != [] {
      assert MapSeq(f, s)[1..] == MapSeq(f, s[1..]);
      SortByMap(s[1..], f, le, leU);
      InsertMap(s[0], SortBy(s[1..], le), f, le, leU);
    }
  }

  lemma SortedTail<T>(s: seq<T>, le: (T, T) -> bool)
    requires s != [] && Sorted(s, le)
    ensures Sorted(s[1..], le)
  {
    forall i, j | 0 <= i < j < |s[1..]| ensures le(s[1..][i], s[1..][j]) {
      assert s[1..][i] == s[i + 1] && s[1..][j] == s[j + 1];
    }
  }

  /** The first element of an ordered arrangement is below every element. */
  lemma SortedHead<T(!new)>(s: seq<T>, x: T, le: (T, T) -> bool)
    requires TotalPreorder(le) && Sorted(s, le) && x in s
    ensures le(s[0], x)
  {
    var i :| 0 <= i < |s| && s[i] == x;
    if i == 0 {
      assert le(x, x) || le(x, x);
    }
  }

  /** Two ordered arrangements of the same elements under an antisymmetric order are equal. */
  lemma {:induction false} SortedUnique<T(!new)>(s: seq<T>, t: seq<T>, le: (T, T) -> bool)
    requires TotalPreorder(le)
    requires forall a, b :: le(a, b) && le(b, a) ==> a == b
    requires Sorted(s, le) && Sorted(t, le) && multiset(s) == multiset(t)
    ensures s == t
    decreases |s|
  {
    assert |t| == |multiset(t)| == |multiset(s)| == |s|;
    if s != [] {
      assert s[0] in multiset(t) && t[0] in multiset(s);
      SortedHead(t, s[0], le);
      SortedHead(s, t[0], le);
      var x := s[0];
      assert t[0] == x;
      MultisetTail(s);
      MultisetTail(t);
      SortedTail(s, le);
      SortedTail(t, le);
      SortedUnique(s[1..], t[1..], le);
      HeadTail(s, t);
    }
  }

  lemma MultisetTail<T>(s: seq<T>)
    requires s != []
    ensures multiset(s[1..]) == multiset(s) - multiset{s[0]}
  {
    assert s == [s[0]] + s[1..];
  }

  lemma HeadTail<T>(s: seq<T>, t: seq<T>)
    requires s != [] && t != [] && s[0] == t[0] && s[1..] == t[1..]
    ensures s == t
  {
    assert s == [s[0]] + s[1..] && t == [t[0]] + t[1..];
  }
}
