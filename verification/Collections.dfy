/**
 The sequence operations the views are built from: Swift's `filter`, `sort(by:)`
 and `prefix(_:)`, each stated by what it guarantees rather than how it runs.
 */
module Collections {

  function Min(a: int, b: int): int
  {
    if a <= b then a else b
  }

  /** `a` is `b` with some elements left out, the rest kept in their original order. */
  predicate IsSubsequence<T(==)>(a: seq<T>, b: seq<T>)
    decreases |b|
  {
    |a| == 0 || (|b| > 0 && ((a[0] == b[0] && IsSubsequence(a[1..], b[1..])) || IsSubsequence(a, b[1..])))
  }

  lemma {:induction false} SubsequenceReflexive<T>(s: seq<T>)
    ensures IsSubsequence(s, s)
    decreases |s|
  {
    if |s| > 0 {
      SubsequenceReflexive(s[1..]);
    }
  }

  lemma {:induction false} SubsequenceTransitive<T>(a: seq<T>, b: seq<T>, c: seq<T>)
    requires IsSubsequence(a, b) && IsSubsequence(b, c)
    ensures IsSubsequence(a, c)
    decreases |c|
  {
    if |a| > 0 {
      if b[0] == c[0] && IsSubsequence(b[1..], c[1..]) {
        if a[0] == b[0] && IsSubsequence(a[1..], b[1..]) {
          SubsequenceTransitive(a[1..], b[1..], c[1..]);
        } else {
          SubsequenceTransitive(a, b[1..], c[1..]);
        }
      } else {
        SubsequenceTransitive(a, b, c[1..]);
      }
    }
  }

  /** Swift's `filter`: the elements satisfying `p`, in their original order. */
  function Filter<T(==,!new)>(s: seq<T>, p: T -> bool): (r: seq<T>)
    ensures forall i :: 0 <= i < |r| ==> p(r[i])
    ensures forall x :: multiset(r)[x] == if p(x) then multiset(s)[x] else 0
    ensures IsSubsequence(r, s)
    decreases |s|
  {
    if |s| == 0 then []
    else
      assert s == [s[0]] + s[1..];
      if p(s[0]) then [s[0]] + Filter(s[1..], p) else Filter(s[1..], p)
  }

  /** Filtering a sequence whose every element already passes changes nothing. */
  lemma {:induction false} FilterAllPass<T(!new)>(s: seq<T>, p: T -> bool)
    requires forall i :: 0 <= i < |s| ==> p(s[i])
    ensures Filter(s, p) == s
    decreases |s|
  {
    if |s| > 0 {
      FilterAllPass(s[1..], p);
    }
  }

  lemma {:induction false} FilterAppend<T(!new)>(a: seq<T>, b: seq<T>, p: T -> bool)
    ensures Filter(a + b, p) == Filter(a, p) + Filter(b, p)
    decreases |a|
  {
    if |a| > 0 {
      assert (a + b)[1..] == a[1..] + b;
      FilterAppend(a[1..], b, p);
    } else {
      assert a + b == b;
    }
  }

  /** `lt` is a strict "comes before" relation in the sense Swift's `sort(by:)`
      needs of its argument: never both ways round. */
  ghost predicate Asymmetric<T(!new)>(lt: (T, T) -> bool)
  {
    forall x, y :: lt(x, y) ==> !lt(y, x)
  }

  /** No element is strictly before its predecessor: adjacent pairs are in order. */
  predicate SortedBy<T>(s: seq<T>, lt: (T, T) -> bool)
  {
    forall i :: 0 < i < |s| ==> !lt(s[i], s[i - 1])
  }

  /** Puts `x` into sorted `s` ahead of the first element that is not strictly before it. */
  function Insert<T(!new)>(x: T, s: seq<T>, lt: (T, T) -> bool): (r: seq<T>)
    requires Asymmetric(lt)
    requires SortedBy(s, lt)
    ensures SortedBy(r, lt)
    ensures multiset(r) == multiset(s) + multiset{x}
    ensures |r| == |s| + 1
    ensures |r| > 0 && (r[0] == x || (|s| > 0 && r[0] == s[0]))
    decreases |s|
  {
    if |s| == 0 then [x]
    else if !lt(s[0], x) then [x] + s
    else
      assert s == [s[0]] + s[1..];
      [s[0]] + Insert(x, s[1..], lt)
  }

  /** Swift's `sort(by: lt)`, which is stable: elements neither of which is
      strictly before the other keep their input order (see `SortStable`). */
  function Sort<T(!new)>(s: seq<T>, lt: (T, T) -> bool): (r: seq<T>)
    requires Asymmetric(lt)
    ensures SortedBy(r, lt)
    ensures multiset(r) == multiset(s)
    ensures |r| == |s|
    decreases |s|
  {
    if |s| == 0 then []
    else
      assert s == [s[0]] + s[1..];
      Insert(s[0], Sort(s[1..], lt), lt)
  }

  /** Sorting a sequence that is already in order leaves it as it is. */
  lemma {:induction false} SortSorted<T(!new)>(s: seq<T>, lt: (T, T) -> bool)
    requires Asymmetric(lt)
    requires SortedBy(s, lt)
    ensures Sort(s, lt) == s
    decreases |s|
  {
    if |s| > 0 {
      SortSorted(s[1..], lt);
      assert s == [s[0]] + s[1..];
    }
  }

  /** The elements `p` picks out are ties for `lt`: none is strictly before another. */
  ghost predicate Ties<T(!new)>(lt: (T, T) -> bool, p: T -> bool)
  {
    forall a, b :: p(a) && p(b) ==> !lt(a, b)
  }

  /** Inserting `x` does not reorder `x` among elements it ties with. */
  lemma {:induction false} InsertStable<T(!new)>(x: T, s: seq<T>, lt: (T, T) -> bool, p: T -> bool)
    requires Asymmetric(lt) && SortedBy(s, lt) && Ties(lt, p)
    ensures Filter(Insert(x, s, lt), p) == Filter([x] + s, p)
    decreases |s|
  {
    assert ([x] + s)[1..] == s;
    if |s| > 0 && lt(s[0], x) {
      var rest := s[1..];
      assert s == [s[0]] + rest;
      assert ([x] + rest)[1..] == rest;
      assert ([s[0]] + Insert(x, rest, lt))[1..] == Insert(x, rest, lt);
      InsertStable(x, rest, lt, p);
      assert p(s[0]) ==> !p(x);
    }
  }

  /** Swift's `sort(by:)` is stable: among elements that tie, the input order is kept. */
  lemma {:induction false} SortStable<T(!new)>(s: seq<T>, lt: (T, T) -> bool, p: T -> bool)
    requires Asymmetric(lt) && Ties(lt, p)
    ensures Filter(Sort(s, lt), p) == Filter(s, p)
    decreases |s|
  {
    if |s| > 0 {
      var rest := Sort(s[1..], lt);
      assert s == [s[0]] + s[1..];
      assert ([s[0]] + rest)[1..] == rest;
      InsertStable(s[0], rest, lt, p);
      SortStable(s[1..], lt, p);
    }
  }

  /** What `p` picks from a prefix is a prefix of what it picks from the whole. */
  lemma {:induction false} FilterPrefix<T(!new)>(a: seq<T>, b: seq<T>, p: T -> bool)
    ensures |Filter(a, p)| <= |Filter(a + b, p)| && Filter(a + b, p)[..|Filter(a, p)|] == Filter(a, p)
  {
    var x, y := Filter(a, p), Filter(b, p);
    FilterAppend(a, b, p);
    assert (x + y)[..|x|] == x;
  }

  /** Swift's `Array(s.prefix(k))`: the first `k` elements, or all of them when there are fewer. */
  function Prefix<T>(s: seq<T>, k: nat): (r: seq<T>)
    ensures |r| == Min(k, |s|)
    ensures r == s[..|r|]
  {
    if k <= |s| then s[..k] else s
  }

  /** When `key` never increases along `s`, each of the first `k` elements has a
      key at least that of each element after them. */
  lemma {:induction false} NonIncreasingPrefixDominates<T>(s: seq<T>, key: T -> int, k: nat)
    requires forall i :: 0 < i < |s| ==> key(s[i]) <= key(s[i - 1])
    requires k <= |s|
    ensures forall x, y :: x in multiset(s[..k]) && y in multiset(s) - multiset(s[..k]) ==> key(x) >= key(y)
  {
    NonIncreasingAllPairs(s, key);
    assert s == s[..k] + s[k..];
    forall x, y | x in multiset(s[..k]) && y in multiset(s) - multiset(s[..k])
      ensures key(x) >= key(y)
    {
      assert x in s[..k];
      assert y in multiset(s[k..]);
      assert y in s[k..];
      var i :| 0 <= i < k && s[..k][i] == x;
      var j :| 0 <= j < |s| - k && s[k..][j] == y;
      assert s[i] == x && s[k + j] == y;
    }
  }

  lemma {:induction false} NonIncreasingAllPairs<T>(s: seq<T>, key: T -> int)
    requires forall i :: 0 < i < |s| ==> key(s[i]) <= key(s[i - 1])
    ensures forall i, j :: 0 <= i < j < |s| ==> key(s[j]) <= key(s[i])
    decreases |s|
  {
    if |s| > 1 {
      NonIncreasingAllPairs(s[1..], key);
      forall j | 0 < j < |s| ensures key(s[j]) <= key(s[0]) {
        if j > 1 {
          assert key(s[1..][j - 1]) <= key(s[1..][0]);
        }
      }
      forall i, j | 0 < i < j < |s| ensures key(s[j]) <= key(s[i]) {
        assert key(s[1..][j - 1]) <= key(s[1..][i - 1]);
      }
    }
  }

  /** No two elements share a key. */
  predicate DistinctBy<T, K(==)>(s: seq<T>, key: T -> K)
  {
    forall i, j :: 0 <= i < j < |s| ==> key(s[i]) != key(s[j])
  }

  /** Filtering never creates a key clash. */
  lemma {:induction false} FilterKeepsDistinct<T(!new), K>(s: seq<T>, p: T -> bool, key: T -> K)
    requires DistinctBy(s, key)
    ensures DistinctBy(Filter(s, p), key)
    decreases |s|
  {
    if |s| > 0 {
      assert DistinctBy(s[1..], key);
      FilterKeepsDistinct(s[1..], p, key);
      var rest := Filter(s[1..], p);
      forall x | x in rest ensures key(x) != key(s[0]) {
        assert x in multiset(rest);
        var m :| 0 <= m < |s[1..]| && s[1..][m] == x;
        assert s[m + 1] == x;
      }
    }
  }

  /** Reordering a sequence does not create or remove key clashes. */
  lemma {:induction false} PermutationKeepsDistinct<T, K>(a: seq<T>, b: seq<T>, key: T -> K)
    requires multiset(a) == multiset(b)
    requires DistinctBy(a, key)
    ensures DistinctBy(b, key)
    decreases |b|
  {
    if |b| > 0 {
      assert b[0] in multiset(a);
      var j :| 0 <= j < |a| && a[j] == b[0];
      var a' := RemoveAt(a, j);
      RemoveAtMultiset(a, j);
      RemoveAtDistinct(a, j, key);
      assert multiset(a') == multiset(b[1..]) by {
        assert b == [b[0]] + b[1..];
        MultisetCancel(multiset(a'), multiset(b[1..]), b[0]);
      }
      PermutationKeepsDistinct(a', b[1..], key);
      forall q | 0 < q < |b| ensures key(b[0]) != key(b[q]) {
        assert b[q] in multiset(a');
      }
    }
  }

  function RemoveAt<T>(a: seq<T>, j: nat): (r: seq<T>)
    requires j < |a|
    ensures |r| == |a| - 1
    ensures forall m :: 0 <= m < |r| ==> r[m] == if m < j then a[m] else a[m + 1]
  {
    a[..j] + a[j + 1..]
  }

  lemma RemoveAtMultiset<T>(a: seq<T>, j: nat)
    requires j < |a|
    ensures multiset(a) == multiset(RemoveAt(a, j)) + multiset{a[j]}
  {
    assert a == a[..j] + [a[j]] + a[j + 1..];
  }

  /** What is left of a key-distinct sequence after removing `a[j]` is key-distinct
      and holds no element with the key of `a[j]`. */
  lemma RemoveAtDistinct<T, K>(a: seq<T>, j: nat, key: T -> K)
    requires j < |a| && DistinctBy(a, key)
    ensures DistinctBy(RemoveAt(a, j), key)
    ensures forall x :: x in RemoveAt(a, j) ==> key(x) != key(a[j])
  {
    var r := RemoveAt(a, j);
    forall p, q | 0 <= p < q < |r| ensures key(r[p]) != key(r[q]) {
      var p' := if p < j then p else p + 1;
      var q' := if q < j then q else q + 1;
      assert r[p] == a[p'] && r[q] == a[q'];
    }
    forall x | x in r ensures key(x) != key(a[j]) {
      var m :| 0 <= m < |r| && r[m] == x;
      var m' := if m < j then m else m + 1;
      assert r[m] == a[m'] && m' != j;
    }
  }

  lemma MultisetCancel<T>(x: multiset<T>, y: multiset<T>, v: T)
    requires x + multiset{v} == y + multiset{v}
    ensures x == y
  {
    forall z ensures x[z] == y[z] {
      assert (x + multiset{v})[z] == (y + multiset{v})[z];
    }
  }
}
