/** Order-preserving filter-map over sequences: what a Go `append` loop builds. */
module SeqUtil {

  import opened Wrappers

  /** The values `f` yields on `xs`, in order; elements mapped to None are dropped. */
  function FilterMap<A, B>(f: A -> Option<B>, xs: seq<A>): (r: seq<B>)
    ensures |r| <= |xs|
  {
    if xs == [] then []
    else FilterMap(f, xs[..|xs| - 1]) + OptionToSeq(f(xs[|xs| - 1]))
  }

  lemma AppendAssoc<T>(a: seq<T>, b: seq<T>, c: seq<T>)
    ensures (a + b) + c == a + (b + c)
  {
  }

  /** A prefix one longer is the prefix with the next element appended. */
  lemma PrefixSnoc<T>(s: seq<T>, i: nat)
    requires i < |s|
    ensures s[..i + 1] == s[..i] + [s[i]]
  {
  }

  /** A non-empty sequence is its head followed by its tail. */
  lemma HeadTail<T>(s: seq<T>)
    requires s != []
    ensures [s[0]] + s[1..] == s
  {
  }

  /** A slice splits at any point between its bounds. */
  lemma SliceSplit<T>(s: seq<T>, i: nat, j: nat, k: nat)
    requires i <= j <= k <= |s|
    ensures s[i..k] == s[i..j] + s[j..k]
  {
  }

  /** Inserting an element anywhere adds it once to the multiset. */
  lemma MultisetInsert<T>(a: seq<T>, b: seq<T>, x: T)
    ensures multiset((a + [x]) + b) == multiset(a + b) + multiset{x}
    ensures multiset(a + (b + [x])) == multiset(a + b) + multiset{x}
  {
  }

  /** A prefix holds no element more often than the whole. */
  lemma PrefixSubMultiset<T>(a: seq<T>, b: seq<T>)
    requires a <= b
    ensures multiset(a) <= multiset(b)
  {
    assert b == a + b[|a|..];
  }

  /** One more input element adds its value, if any, at the end. */
  lemma FilterMapSnoc<A, B>(f: A -> Option<B>, xs: seq<A>, x: A)
    ensures FilterMap(f, xs + [x]) == FilterMap(f, xs) + OptionToSeq(f(x))
  {
    assert (xs + [x])[..|xs|] == xs;
  }

  /** Concatenated inputs give concatenated outputs: input order is kept. */
  lemma {:induction false} FilterMapAppend<A, B>(f: A -> Option<B>, a: seq<A>, b: seq<A>)
    ensures FilterMap(f, a + b) == FilterMap(f, a) + FilterMap(f, b)
    decreases |b|
  {
    if b == [] {
      assert a + b == a;
    } else {
      var b' := b[..|b| - 1];
      assert (a + b)[..|a + b| - 1] == a + b';
      assert (a + b)[|a + b| - 1] == b[|b| - 1];
      FilterMapAppend(f, a, b');
    }
  }

  /** Every output value comes from some input element. */
  lemma {:induction false} FilterMapWitness<A, B>(f: A -> Option<B>, xs: seq<A>, y: B) returns (i: nat)
    requires y in FilterMap(f, xs)
    ensures i < |xs| && f(xs[i]) == Some(y)
    decreases |xs|
  {
    var n := |xs| - 1;
    var init := xs[..n];
    if y in FilterMap(f, init) {
      i := FilterMapWitness(f, init, y);
      assert xs[i] == init[i];
    } else {
      i := n;
    }
  }

  /** Every value an input element yields reaches the output. */
  lemma {:induction false} FilterMapHas<A, B>(f: A -> Option<B>, xs: seq<A>, i: nat, y: B)
    requires i < |xs| && f(xs[i]) == Some(y)
    ensures y in FilterMap(f, xs)
    decreases |xs|
  {
    var n := |xs| - 1;
    var init := xs[..n];
    if i < n {
      assert init[i] == xs[i];
      FilterMapHas(f, init, i, y);
    }
  }

  /** A value is in the output exactly when some input element yields it. */
  lemma FilterMapMembers<A, B>(f: A -> Option<B>, xs: seq<A>, y: B)
    ensures y in FilterMap(f, xs) <==> exists i :: 0 <= i < |xs| && f(xs[i]) == Some(y)
  {
    if y in FilterMap(f, xs) {
      var i := FilterMapWitness(f, xs, y);
    }
    if exists i :: 0 <= i < |xs| && f(xs[i]) == Some(y) {
      var i :| 0 <= i < |xs| && f(xs[i]) == Some(y);
      FilterMapHas(f, xs, i, y);
    }
  }
}
