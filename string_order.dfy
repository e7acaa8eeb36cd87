/**
 * Go's `<` / `>` on strings (byte-wise lexicographic order, here on ASCII
 * characters), the hand-written exchange sort of `mergeAidFiles`, and the
 * unique strictly ascending listing of a set of strings.
 */
module StringOrder {

  /** `s < t` in Go: `s` is a proper prefix of `t`, or the first difference is smaller in `s`. */
  predicate Less(s: string, t: string) {
    if s == [] then t != []
    else t != [] && (s[0] < t[0] || (s[0] == t[0] && Less(s[1..], t[1..])))
  }

  lemma {:induction false} LessIrreflexive(s: string)
    ensures !Less(s, s)
  {
    if s != [] {
      LessIrreflexive(s[1..]);
    }
  }

  lemma {:induction false} LessAsymmetric(s: string, t: string)
    ensures Less(s, t) ==> !Less(t, s)
  {
    if s != [] && t != [] && s[0] == t[0] {
      LessAsymmetric(s[1..], t[1..]);
    }
  }

  lemma {:induction false} LessTransitive(a: string, b: string, c: string)
    ensures Less(a, b) && Less(b, c) ==> Less(a, c)
  {
    if a != [] && b != [] && c != [] && a[0] == b[0] && b[0] == c[0] {
      LessTransitive(a[1..], b[1..], c[1..]);
    }
  }

  /** Two different strings are ordered one way or the other. */
  lemma {:induction false} LessTotal(s: string, t: string)
    ensures s == t || Less(s, t) || Less(t, s)
  {
    if s != [] && t != [] && s[0] == t[0] {
      LessTotal(s[1..], t[1..]);
      if s[1..] == t[1..] {
        assert s == [s[0]] + s[1..] && t == [t[0]] + t[1..];
      }
    }
  }

  /** Ascending order: no later element is smaller than an earlier one. */
  predicate Sorted(s: seq<string>) {
    forall i, j :: 0 <= i < j < |s| ==> !Less(s[j], s[i])
  }

  /** Strictly ascending order. */
  predicate StrictlySorted(s: seq<string>) {
    forall i, j :: 0 <= i < j < |s| ==> Less(s[i], s[j])
  }

  predicate Distinct(s: seq<string>) {
    forall i, j :: 0 <= i < j < |s| ==> s[i] != s[j]
  }

  /**
   * The nested-loop exchange sort of `mergeAidFiles`: for each position `i`,
   * swap in every later element that is smaller than the one at `i`.
   */
  method ExchangeSort(a: array<string>)
    modifies a
    ensures Sorted(a[..])
    ensures multiset(a[..]) == multiset(old(a[..]))
  {
    var i := 0;
    while i < a.Length - 1
      invariant 0 <= i
      invariant a.Length > 0 ==> i <= a.Length - 1
      invariant Settled(a[..], i)
      invariant multiset(a[..]) == multiset(old(a[..]))
    {
      var j := i + 1;
      while j < a.Length
        invariant i + 1 <= j <= a.Length
        invariant Settled(a[..], i) && LeastSoFar(a[..], i, j)
        invariant multiset(a[..]) == multiset(old(a[..]))
      {
        ghost var s := a[..];
        if Less(a[j], a[i]) {
          SwapKeepsOrder(s, i, j);
          a[i], a[j] := a[j], a[i];
          assert a[..] == s[i := s[j]][j := s[i]];
        } else {
          LeastSoFarStep(s, i, j);
        }
        j := j + 1;
      }
      SettledStep(a[..], i);
      i := i + 1;
    }
    SettledSorted(a[..]);
  }

  /** The first `i` positions hold their final values: none is larger than anything after it. */
  ghost predicate Settled(s: seq<string>, i: int) {
    forall p, q :: 0 <= p < i && p < q < |s| ==> !Less(s[q], s[p])
  }

  /** Position `i` holds the least of positions `i` to `j - 1`. */
  ghost predicate LeastSoFar(s: seq<string>, i: int, j: int)
    requires 0 <= i < |s|
  {
    forall q :: i < q < j && q < |s| ==> !Less(s[q], s[i])
  }

  /** Swapping in a smaller element keeps the settled prefix and the least-so-far fact. */
  lemma SwapKeepsOrder(s: seq<string>, i: int, j: int)
    requires 0 <= i < j < |s|
    requires Settled(s, i) && LeastSoFar(s, i, j) && Less(s[j], s[i])
    ensures var t := s[i := s[j]][j := s[i]];
            Settled(t, i) && LeastSoFar(t, i, j + 1) && multiset(t) == multiset(s)
  {
    var t := s[i := s[j]][j := s[i]];
    forall q | i < q < j + 1
      ensures !Less(t[q], t[i])
    {
      if q == j {
        LessAsymmetric(s[j], s[i]);
      } else {
        LessTransitive(s[q], s[j], s[i]);
      }
    }
    forall p, q | 0 <= p < i && p < q < |t|
      ensures !Less(t[q], t[p])
    {
      assert t[p] == s[p];
      if q == i {
        assert t[q] == s[j];
      } else if q == j {
        assert t[q] == s[i];
      } else {
        assert t[q] == s[q];
      }
    }
  }

  lemma LeastSoFarStep(s: seq<string>, i: int, j: int)
    requires 0 <= i < j < |s|
    requires LeastSoFar(s, i, j) && !Less(s[j], s[i])
    ensures LeastSoFar(s, i, j + 1)
  {
  }

  lemma SettledStep(s: seq<string>, i: int)
    requires 0 <= i < |s| && Settled(s, i) && LeastSoFar(s, i, |s|)
    ensures Settled(s, i + 1)
  {
  }

  lemma SettledSorted(s: seq<string>)
    requires |s| == 0 || Settled(s, |s| - 1)
    ensures Sorted(s)
  {
    forall i, j | 0 <= i < j < |s|
      ensures !Less(s[j], s[i])
    {
    }
  }

  /** A non-empty set of strings has a least element. */
  lemma {:induction false} MinimumExists(keys: set<string>)
    requires keys != {}
    ensures exists k :: k in keys && forall k' :: k' in keys ==> !Less(k', k)
    decreases |keys|
  {
    var x :| x in keys;
    if keys == {x} {
      LessIrreflexive(x);
      assert forall k' :: k' in keys ==> k' == x;
    } else {
      var rest := keys - {x};
      MinimumExists(rest);
      var m :| m in rest && forall k' :: k' in rest ==> !Less(k', m);
      if Less(x, m) {
        forall k' | k' in keys
          ensures !Less(k', x)
        {
          if k' == x {
            LessIrreflexive(x);
          } else {
            LessTransitive(k', x, m);
          }
        }
      } else {
        assert forall k' :: k' in keys ==> k' == x || k' in rest;
      }
    }
  }

  /** The elements of `keys` in strictly ascending order. */
  ghost function SortedKeys(keys: set<string>): (r: seq<string>)
    ensures r != [] ==> r[0] in keys && (forall k :: k in keys ==> !Less(k, r[0]))
                        && r[1..] == SortedKeys(keys - {r[0]})
    ensures r == [] <==> keys == {}
    decreases |keys|
  {
    if keys == {} then []
    else
      MinimumExists(keys);
      var k :| k in keys && forall k' :: k' in keys ==> !Less(k', k);
      [k] + SortedKeys(keys - {k})
  }

  /** `SortedKeys` lists each element of the set, and nothing else. */
  lemma {:induction false} SortedKeysMembers(keys: set<string>)
    ensures forall k :: k in SortedKeys(keys) <==> k in keys
    decreases |keys|
  {
    var r := SortedKeys(keys);
    if keys != {} {
      SortedKeysMembers(keys - {r[0]});
      assert r == [r[0]] + r[1..];
    }
  }

  /** `SortedKeys` is strictly ascending. */
  lemma {:induction false} SortedKeysStrict(keys: set<string>)
    ensures StrictlySorted(SortedKeys(keys))
    decreases |keys|
  {
    var r := SortedKeys(keys);
    if keys != {} {
      var rest := keys - {r[0]};
      SortedKeysStrict(rest);
      SortedKeysMembers(rest);
      forall j | 0 < j < |r|
        ensures Less(r[0], r[j])
      {
        assert r[j] == r[1..][j - 1];
        assert r[j] in rest;
        LessTotal(r[0], r[j]);
      }
      forall i, j | 0 < i < j < |r|
        ensures Less(r[i], r[j])
      {
        assert r[i] == r[1..][i - 1] && r[j] == r[1..][j - 1];
      }
    }
  }

  /** `SortedKeys` lists each element of the set once, in strictly ascending order. */
  lemma SortedKeysSpec(keys: set<string>)
    ensures forall k :: k in SortedKeys(keys) <==> k in keys
    ensures StrictlySorted(SortedKeys(keys))
    ensures |SortedKeys(keys)| == |keys|
  {
    SortedKeysMembers(keys);
    SortedKeysStrict(keys);
    StrictDistinct(SortedKeys(keys));
    DistinctCardinality(SortedKeys(keys), keys);
  }

  lemma StrictDistinct(s: seq<string>)
    requires StrictlySorted(s)
    ensures Distinct(s)
  {
    forall i, j | 0 <= i < j < |s|
      ensures s[i] != s[j]
    {
      LessIrreflexive(s[i]);
    }
  }

  /** A sequence without repeats is as long as the set of its elements. */
  lemma {:induction false} DistinctCardinality(s: seq<string>, keys: set<string>)
    requires Distinct(s)
    requires forall k :: k in s <==> k in keys
    ensures |s| == |keys|
    decreases |s|
  {
    if s != [] {
      var t := s[1..];
      assert Distinct(t) by {
        forall p, q | 0 <= p < q < |t|
          ensures t[p] != t[q]
        {
          assert t[p] == s[p + 1] && t[q] == s[q + 1];
        }
      }
      forall k
        ensures k in t <==> k in keys - {s[0]}
      {
        if k in t {
          var q :| 0 <= q < |t| && t[q] == k;
          assert s[q + 1] == k;
        }
        if k in keys - {s[0]} {
          var q :| 0 <= q < |s| && s[q] == k;
          assert q != 0;
          assert t[q - 1] == k;
        }
      }
      DistinctCardinality(t, keys - {s[0]});
    } else {
      assert keys == {};
    }
  }

  /** The head of a strictly ascending sequence is the least of its elements. */
  lemma StrictHeadIsLeast(s: seq<string>, keys: set<string>)
    requires StrictlySorted(s) && s != []
    requires forall k :: k in s <==> k in keys
    ensures keys != {} && SortedKeys(keys)[0] == s[0]
  {
    assert s[0] in keys;
    var m := SortedKeys(keys)[0];
    assert m in s;
    var j :| 0 <= j < |s| && s[j] == m;
    assert !Less(s[0], m);
    if j > 0 {
      assert false;
    }
  }

  /** The tail of a strictly ascending sequence is strictly ascending. */
  lemma StrictTail(s: seq<string>)
    requires StrictlySorted(s) && s != []
    ensures StrictlySorted(s[1..])
  {
    forall p, q | 0 <= p < q < |s[1..]|
      ensures Less(s[1..][p], s[1..][q])
    {
      assert s[1..][p] == s[p + 1] && s[1..][q] == s[q + 1];
    }
  }

  /** The tail of a strictly ascending sequence holds the other elements. */
  lemma StrictTailMembers(s: seq<string>, keys: set<string>)
    requires StrictlySorted(s) && s != []
    requires forall k :: k in s <==> k in keys
    ensures forall k :: k in s[1..] <==> k in keys - {s[0]}
  {
    forall k
      ensures k in s[1..] <==> k in keys - {s[0]}
    {
      if k in s[1..] {
        var q :| 0 <= q < |s[1..]| && s[1..][q] == k;
        assert Less(s[0], s[q + 1]);
        LessIrreflexive(s[0]);
      }
      if k in keys - {s[0]} {
        assert k in s;
        var q :| 0 <= q < |s| && s[q] == k;
        assert q != 0;
        assert s[1..][q - 1] == k;
      }
    }
  }

  /** A strictly ascending sequence is determined by its elements. */
  lemma {:induction false} StrictlySortedUnique(s: seq<string>, keys: set<string>)
    requires StrictlySorted(s)
    requires forall k :: k in s <==> k in keys
    ensures s == SortedKeys(keys)
    decreases |s|
  {
    if s == [] {
      assert keys == {};
    } else {
      StrictHeadIsLeast(s, keys);
      StrictTail(s);
      StrictTailMembers(s, keys);
      var r := SortedKeys(keys);
      StrictlySortedUnique(s[1..], keys - {s[0]});
      assert s == [s[0]] + s[1..];
      assert r == [r[0]] + r[1..];
    }
  }

  /** In a sequence without repeats every element occurs at most once. */
  lemma {:induction false} DistinctCount(s: seq<string>, x: string)
    requires Distinct(s)
    ensures multiset(s)[x] <= 1
  {
    if s != [] {
      assert s == [s[0]] + s[1..];
      assert Distinct(s[1..]) by {
        forall p, q | 0 <= p < q < |s[1..]|
          ensures s[1..][p] != s[1..][q]
        {
          assert s[1..][p] == s[p + 1] && s[1..][q] == s[q + 1];
        }
      }
      DistinctCount(s[1..], x);
      if x == s[0] {
        assert x !in s[1..] by {
          forall q | 0 <= q < |s[1..]|
            ensures s[1..][q] != x
          {
            assert s[1..][q] == s[q + 1];
          }
        }
      }
    }
  }

  /** A rearrangement of a sequence without repeats has no repeats. */
  lemma PermutationKeepsDistinct(s: seq<string>, t: seq<string>)
    requires Distinct(s) && multiset(s) == multiset(t)
    ensures Distinct(t)
  {
    forall i, j | 0 <= i < j < |t|
      ensures t[i] != t[j]
    {
      if t[i] == t[j] {
        var x := t[i];
        assert t == t[..j] + t[j..];
        assert x in t[..j] && t[j..][0] == x;
        assert multiset(t[..j])[x] >= 1 && multiset(t[j..])[x] >= 1;
        DistinctCount(s, x);
        assert false;
      }
    }
  }

  /** Sorted without repeats is strictly sorted. */
  lemma SortedDistinctIsStrict(s: seq<string>)
    requires Sorted(s) && Distinct(s)
    ensures StrictlySorted(s)
  {
    forall i, j | 0 <= i < j < |s|
      ensures Less(s[i], s[j])
    {
      LessTotal(s[i], s[j]);
    }
  }
}
