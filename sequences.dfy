/**
 * List helpers shared by the form model: lookup by identity, removal and insertion,
 * and the "order-preserving subsequence" relation that ties a visible list to the full
 * list it is drawn from.
 */
module Sequences {

  /** No element occurs twice (the lists hold objects compared by identity). */
  predicate Distinct<T(==)>(s: seq<T>) {
    forall i, j :: 0 <= i < j < |s| ==> s[i] != s[j]
  }

  /** Position of the first occurrence of `x` (Swift `indexOf`, `NSArray.indexOfObject`). */
  function IndexOf<T(==)>(s: seq<T>, x: T): (i: nat)
    requires x in s
    ensures i < |s| && s[i] == x
    // no earlier occurrence: see IndexOfFirst
  {
    if s[0] == x then 0 else 1 + IndexOf(s[1..], x)
  }

  /** `s` with the element at `i` removed (Swift `removeAtIndex`). */
  function RemoveAt<T>(s: seq<T>, i: nat): (r: seq<T>)
    requires i < |s|
    ensures |r| == |s| - 1
    ensures forall k {:trigger r[k]} :: 0 <= k < i ==> r[k] == s[k]
    ensures forall k {:trigger r[k]} :: i <= k < |r| ==> r[k] == s[k + 1]
  {
    s[..i] + s[i + 1..]
  }

  /** `s` with `x` inserted so that it ends up at position `i` (`insertObject(_:atIndex:)`). */
  function InsertAt<T>(s: seq<T>, i: nat, x: T): (r: seq<T>)
    requires i <= |s|
    ensures |r| == |s| + 1 && r[i] == x
    ensures forall k {:trigger r[k]} :: 0 <= k < i ==> r[k] == s[k]
    ensures forall k {:trigger r[k]} :: i < k < |r| ==> r[k] == s[k - 1]
  {
    s[..i] + [x] + s[i..]
  }

  /** `s` with `xs` inserted as one block starting at position `i` (`insertContentsOf(_:at:)`). */
  function InsertAllAt<T>(s: seq<T>, i: nat, xs: seq<T>): (r: seq<T>)
    requires i <= |s|
    ensures |r| == |s| + |xs|
    ensures forall k {:trigger r[k]} :: 0 <= k < i ==> r[k] == s[k]
    ensures forall k :: 0 <= k < |xs| ==> r[i + k] == xs[k]
    ensures forall k {:trigger r[k]} :: i + |xs| <= k < |r| ==> r[k] == s[k - |xs|]
  {
    s[..i] + xs + s[i..]
  }

  /** `s` without any occurrence of `x` (`NSMutableArray.removeObject`). */
  function Without<T(==)>(s: seq<T>, x: T): (r: seq<T>)
    ensures forall k :: 0 <= k < |r| ==> r[k] in s && r[k] != x
    ensures |r| <= |s|
  {
    if s == [] then []
    else if s[0] == x then Without(s[1..], x)
    else [s[0]] + Without(s[1..], x)
  }

  /** What `Without` keeps: exactly the elements other than `x`. */
  lemma {:induction false} WithoutMembership<T>(s: seq<T>, x: T, y: T)
    ensures y in Without(s, x) <==> y in s && y != x
  {
    if s != [] {
      WithoutMembership(s[1..], x, y);
      assert s == [s[0]] + s[1..];
    }
  }

  /** `s` without the elements that occur in `gone`, the rest in order. */
  function Except<T(==)>(s: seq<T>, gone: seq<T>): (r: seq<T>)
    ensures forall x :: x in r ==> x in s && x !in gone
    ensures forall x :: x in s && x !in gone ==> x in r
    ensures |r| <= |s|
  {
    if s == [] then []
    else if s[0] in gone then Except(s[1..], gone)
    else [s[0]] + Except(s[1..], gone)
  }

  /**
   * `v` is drawn from `all` without changing the order: every element of `v` occurs in
   * `all`, and along `v` the positions in `all` strictly increase (so `v` has no duplicates).
   */
  predicate Subsequence<T(==)>(v: seq<T>, all: seq<T>) {
    && (forall k :: 0 <= k < |v| ==> v[k] in all)
    && (forall i, j :: 0 <= i < j < |v| ==> IndexOf(all, v[i]) < IndexOf(all, v[j]))
  }

  /** `IndexOf` finds the first occurrence. */
  lemma {:induction false} IndexOfFirst<T>(s: seq<T>, x: T)
    requires x in s
    ensures forall k :: 0 <= k < IndexOf(s, x) ==> s[k] != x
  {
    if s[0] != x {
      IndexOfFirst(s[1..], x);
      forall k | 0 < k < IndexOf(s, x) ensures s[k] != x { assert s[k] == s[1..][k - 1]; }
    }
  }

  /** Looking up in a concatenation looks in the first part first. */
  lemma {:induction false} IndexOfAppend<T>(a: seq<T>, b: seq<T>, x: T)
    requires x in a + b
    ensures x in a ==> IndexOf(a + b, x) == IndexOf(a, x)
    ensures x !in a ==> x in b && IndexOf(a + b, x) == |a| + IndexOf(b, x)
  {
    if a == [] {
      assert a + b == b;
    } else if a[0] != x {
      assert (a + b)[1..] == a[1..] + b;
      IndexOfAppend(a[1..], b, x);
    }
  }

  lemma IndexOfDistinct<T>(s: seq<T>, i: nat)
    requires Distinct(s) && i < |s|
    ensures IndexOf(s, s[i]) == i
  {
  }

  lemma SubsequenceIsDistinct<T>(v: seq<T>, all: seq<T>)
    requires Subsequence(v, all)
    ensures Distinct(v)
  {
    forall i, j | 0 <= i < j < |v| ensures v[i] != v[j] {
      assert IndexOf(all, v[i]) < IndexOf(all, v[j]);
    }
  }

  /** The tail of a distinct sequence is distinct and misses the head. */
  lemma DistinctTail<T>(s: seq<T>)
    requires Distinct(s) && s != []
    ensures Distinct(s[1..]) && s[0] !in s[1..]
  {
    var t := s[1..];
    forall i, j | 0 <= i < j < |t| ensures t[i] != t[j] {
      assert t[i] == s[i + 1] && t[j] == s[j + 1];
    }
    forall k | 0 <= k < |t| ensures t[k] != s[0] { assert t[k] == s[k + 1]; }
  }

  /** Removing occurrences of one element keeps the rest distinct. */
  lemma {:induction false} WithoutDistinct<T>(s: seq<T>, x: T)
    requires Distinct(s)
    ensures Distinct(Without(s, x))
  {
    if s != [] {
      DistinctTail(s);
      WithoutDistinct(s[1..], x);
      if s[0] != x {
        var t := Without(s[1..], x);
        WithoutMembership(s[1..], x, s[0]);
        var r := [s[0]] + t;
        forall i, j | 0 <= i < j < |r| ensures r[i] != r[j] {
          assert r[j] == t[j - 1];
          if i > 0 { assert r[i] == t[i - 1]; }
        }
      }
    }
  }

  /** Without a missing element is the identity. */
  lemma {:induction false} WithoutMissing<T>(s: seq<T>, x: T)
    requires x !in s
    ensures Without(s, x) == s
  {
    if s != [] {
      assert x !in s[1..];
      WithoutMissing(s[1..], x);
      assert [s[0]] + s[1..] == s;
    }
  }

  /** Without an element that occurs once is RemoveAt at its position. */
  lemma {:induction false} WithoutAsRemoveAt<T>(s: seq<T>, x: T)
    requires Distinct(s) && x in s
    ensures Without(s, x) == RemoveAt(s, IndexOf(s, x))
  {
    var t := s[1..];
    DistinctTail(s);
    if s[0] == x {
      WithoutMissing(t, x);
      assert Without(s, x) == t == RemoveAt(s, 0);
    } else {
      assert x in t;
      WithoutAsRemoveAt(t, x);
      var i := IndexOf(t, x);
      assert IndexOf(s, x) == i + 1;
      assert Without(s, x) == [s[0]] + RemoveAt(t, i);
      assert [s[0]] + RemoveAt(t, i) == RemoveAt(s, i + 1);
    }
  }

  /** Slices of a distinct sequence are distinct. */
  lemma DistinctSlice<T>(s: seq<T>, i: nat, j: nat)
    requires Distinct(s) && i <= j <= |s|
    ensures Distinct(s[i..j])
  {
    forall a, b | 0 <= a < b < j - i ensures s[i..j][a] != s[i..j][b] {
      assert s[i..j][a] == s[i + a] && s[i..j][b] == s[i + b];
    }
  }

  /** A distinct sequence is a subsequence of itself. */
  lemma SubsequenceSelf<T>(s: seq<T>)
    requires Distinct(s)
    ensures Subsequence(s, s)
  {
    forall k | 0 <= k < |s| ensures IndexOf(s, s[k]) == k { IndexOfDistinct(s, k); }
  }

  /** A subsequence of a subsequence is a subsequence. */
  lemma SubsequenceTrans<T>(a: seq<T>, b: seq<T>, c: seq<T>)
    requires Subsequence(a, b) && Subsequence(b, c)
    ensures Subsequence(a, c)
  {
    forall k | 0 <= k < |a| ensures a[k] in c {
      assert b[IndexOf(b, a[k])] == a[k];
    }
    forall i, j | 0 <= i < j < |a| ensures IndexOf(c, a[i]) < IndexOf(c, a[j]) {
      var p, q := IndexOf(b, a[i]), IndexOf(b, a[j]);
      assert b[p] == a[i] && b[q] == a[j];
    }
  }

  /** An element found before position `i` is found at the same place in the prefix. */
  lemma {:induction false} IndexOfPrefix<T>(s: seq<T>, i: nat, x: T)
    requires x in s && IndexOf(s, x) < i <= |s|
    ensures x in s[..i] && IndexOf(s[..i], x) == IndexOf(s, x)
  {
    if s[0] != x {
      assert s[..i][1..] == s[1..][..i - 1];
      IndexOfPrefix(s[1..], i - 1, x);
    }
  }

  /** An element first found at or after position `i` is found in the suffix, shifted by `i`. */
  lemma {:induction false} IndexOfSuffix<T>(s: seq<T>, i: nat, x: T)
    requires x in s && i <= IndexOf(s, x)
    ensures x in s[i..] && IndexOf(s[i..], x) == IndexOf(s, x) - i
  {
    if i == 0 {
      assert s[0..] == s;
    } else {
      assert s[1..][i - 1..] == s[i..];
      IndexOfSuffix(s[1..], i - 1, x);
    }
  }

  /** A subsequence lying in the first `i` positions is a subsequence of that prefix. */
  lemma SubsequencePrefix<T>(v: seq<T>, all: seq<T>, i: nat)
    requires Subsequence(v, all) && i <= |all|
    requires forall k :: 0 <= k < |v| ==> IndexOf(all, v[k]) < i
    ensures Subsequence(v, all[..i])
  {
    forall k | 0 <= k < |v| ensures v[k] in all[..i] && IndexOf(all[..i], v[k]) == IndexOf(all, v[k]) {
      IndexOfPrefix(all, i, v[k]);
    }
  }

  /** A subsequence lying from position `i` on is a subsequence of that suffix. */
  lemma SubsequenceSuffix<T>(v: seq<T>, all: seq<T>, i: nat)
    requires Subsequence(v, all) && i <= |all|
    requires forall k :: 0 <= k < |v| ==> IndexOf(all, v[k]) >= i
    ensures Subsequence(v, all[i..])
  {
    forall k | 0 <= k < |v| ensures v[k] in all[i..] && IndexOf(all[i..], v[k]) == IndexOf(all, v[k]) - i {
      IndexOfSuffix(all, i, v[k]);
    }
  }

  /** Both parts of a subsequence are subsequences. */
  lemma SubsequenceSplit<T>(a: seq<T>, b: seq<T>, all: seq<T>)
    requires Subsequence(a + b, all)
    ensures Subsequence(a, all) && Subsequence(b, all)
  {
    var u := a + b;
    assert forall k :: 0 <= k < |a| ==> a[k] == u[k];
    assert forall k :: 0 <= k < |b| ==> b[k] == u[|a| + k];
    forall x, y | 0 <= x < y < |b| ensures IndexOf(all, b[x]) < IndexOf(all, b[y]) {
      assert b[x] == u[|a| + x] && b[y] == u[|a| + y];
    }
  }

  /** Subsequences of two parts of a distinct list concatenate to a subsequence of the whole. */
  lemma ConcatSubsequence<T>(a: seq<T>, pa: seq<T>, b: seq<T>, pb: seq<T>)
    requires Subsequence(a, pa) && Subsequence(b, pb) && Distinct(pa + pb)
    ensures Subsequence(a + b, pa + pb)
  {
    var p := pa + pb;
    forall k | 0 <= k < |a| ensures a[k] in p && IndexOf(p, a[k]) == IndexOf(pa, a[k]) {
      IndexOfAppend(pa, pb, a[k]);
    }
    forall k | 0 <= k < |b| ensures b[k] in p && IndexOf(p, b[k]) == |pa| + IndexOf(pb, b[k]) {
      var j := IndexOf(pb, b[k]);
      assert p[|pa| + j] == b[k];
      assert b[k] !in pa by {
        forall g | 0 <= g < |pa| ensures pa[g] != b[k] { assert p[g] == pa[g]; }
      }
      IndexOfAppend(pa, pb, b[k]);
    }
    var r := a + b;
    forall x, y | 0 <= x < y < |r| ensures IndexOf(p, r[x]) < IndexOf(p, r[y]) {
      if y < |a| {
        assert r[x] == a[x] && r[y] == a[y];
      } else if x < |a| {
        assert r[x] == a[x] && r[y] == b[y - |a|];
      } else {
        assert r[x] == b[x - |a|] && r[y] == b[y - |a|];
      }
    }
  }

  /** Putting a removed element back where it was restores the sequence. */
  lemma InsertAtRemoveAt<T>(s: seq<T>, i: nat)
    requires i < |s|
    ensures InsertAt(RemoveAt(s, i), i, s[i]) == s
  {
    assert s == s[..i] + [s[i]] + s[i + 1..];
  }

  /** Removing an element just inserted restores the sequence. */
  lemma RemoveAtInsertAt<T>(s: seq<T>, i: nat, x: T)
    requires i <= |s|
    ensures RemoveAt(InsertAt(s, i, x), i) == s
  {
  }

  /** Removing elements from a subsequence keeps it a subsequence. */
  lemma RemoveAtKeepsSubsequence<T>(v: seq<T>, all: seq<T>, i: nat)
    requires Subsequence(v, all) && i < |v|
    ensures Subsequence(RemoveAt(v, i), all)
  {
    var r := RemoveAt(v, i);
    forall a, b | 0 <= a < b < |r| ensures IndexOf(all, r[a]) < IndexOf(all, r[b]) {
      var a' := if a < i then a else a + 1;
      var b' := if b < i then b else b + 1;
      assert r[a] == v[a'] && r[b] == v[b'] && a' < b';
    }
  }

  lemma WithoutKeepsSubsequence<T>(v: seq<T>, all: seq<T>, x: T)
    requires Subsequence(v, all)
    ensures Subsequence(Without(v, x), all)
  {
    if x in v {
      SubsequenceIsDistinct(v, all);
      WithoutAsRemoveAt(v, x);
      RemoveAtKeepsSubsequence(v, all, IndexOf(v, x));
    } else {
      WithoutMissing(v, x);
    }
  }

  /** Appending an element that is missing and then removing it gives back the original. */
  lemma {:induction false} WithoutAppend<T>(l: seq<T>, o: T)
    requires o !in l
    ensures Without(l + [o], o) == l
  {
    if l != [] {
      assert (l + [o])[1..] == l[1..] + [o];
      WithoutAppend(l[1..], o);
    }
  }

  /** Removing an element that occurs once, between `a` and `b`, leaves `a + b`. */
  lemma {:induction false} WithoutMiddle<T>(a: seq<T>, x: T, b: seq<T>)
    requires x !in a && x !in b
    ensures Without(a + [x] + b, x) == a + b
  {
    var s := a + [x] + b;
    if a == [] {
      assert s == [x] + b && s[1..] == b;
      WithoutMissing(b, x);
    } else {
      assert s[0] == a[0] && a[0] != x;
      assert s[1..] == a[1..] + [x] + b;
      WithoutMiddle(a[1..], x, b);
      assert Without(s, x) == [a[0]] + Without(s[1..], x);
      assert a + b == [a[0]] + (a[1..] + b);
    }
  }

  /** Appending a new element keeps a list free of duplicates. */
  lemma DistinctSnoc<T>(s: seq<T>, x: T)
    requires Distinct(s) && x !in s
    ensures Distinct(s + [x])
  {
    forall i, j | 0 <= i < j < |s + [x]| ensures (s + [x])[i] != (s + [x])[j] {
      assert (s + [x])[i] == s[i];
    }
  }

  /** Both halves of a duplicate-free concatenation are duplicate-free, and they share nothing. */
  lemma DistinctConcat<T>(a: seq<T>, b: seq<T>)
    requires Distinct(a + b)
    ensures Distinct(a) && Distinct(b)
    ensures forall x :: x in a ==> x !in b
  {
    forall i, j | 0 <= i < j < |b| ensures b[i] != b[j] {
      assert (a + b)[|a| + i] == b[i] && (a + b)[|a| + j] == b[j];
    }
    forall i, j | 0 <= i < j < |a| ensures a[i] != a[j] {
      assert (a + b)[i] == a[i] && (a + b)[j] == a[j];
    }
    forall i, j | 0 <= i < |a| && 0 <= j < |b| ensures a[i] != b[j] {
      assert (a + b)[i] == a[i] && (a + b)[|a| + j] == b[j];
    }
  }

  /** Appending the same new elements to both lists keeps the subsequence relation. */
  lemma AppendKeepsSubsequence<T>(v: seq<T>, all: seq<T>, xs: seq<T>)
    requires Subsequence(v, all) && Distinct(all + xs)
    ensures Subsequence(v + xs, all + xs)
  {
    DistinctSlice(all + xs, |all|, |all + xs|);
    assert (all + xs)[|all|..|all + xs|] == xs;
    SubsequenceSelf(xs);
    ConcatSubsequence(v, all, xs, xs);
  }

  /** Deleting nothing keeps the list. */
  lemma {:induction false} ExceptNothing<T>(s: seq<T>)
    ensures Except(s, []) == s
  {
    if s != [] {
      ExceptNothing(s[1..]);
      assert s == [s[0]] + s[1..];
    }
  }

  /** Deleting the elements of `g` and then `x` is deleting the elements of `g + [x]`. */
  lemma {:induction false} ExceptSnoc<T>(s: seq<T>, g: seq<T>, x: T)
    ensures Except(s, g + [x]) == Without(Except(s, g), x)
  {
    if s != [] {
      ExceptSnoc(s[1..], g, x);
    }
  }

  /**
   * One step of deleting the elements of a duplicate-free `gone` one by one from a
   * duplicate-free `all`: the next one is still there, and removing it at its position
   * deletes one more element of `gone`.
   */
  lemma ExceptStep<T>(all: seq<T>, gone: seq<T>, j: nat)
    requires j < |gone| && Distinct(all) && Distinct(gone) && gone[j] in all
    requires Distinct(Except(all, gone[..j]))
    ensures gone[j] in Except(all, gone[..j])
    ensures var rest := Except(all, gone[..j]);
      RemoveAt(rest, IndexOf(rest, gone[j])) == Except(all, gone[..j + 1])
    ensures Distinct(Except(all, gone[..j + 1]))
  {
    var x := gone[j];
    var rest := Except(all, gone[..j]);
    assert x !in gone[..j] by {
      forall k | 0 <= k < j ensures gone[..j][k] != x { assert gone[..j][k] == gone[k]; }
    }
    assert all[IndexOf(all, x)] == x;
    assert gone[..j + 1] == gone[..j] + [x];
    ExceptSnoc(all, gone[..j], x);
    WithoutAsRemoveAt(rest, x);
    WithoutDistinct(rest, x);
  }

  /** The elements of `s` whose flag in `keep` is set, in order. */
  function Select<T>(s: seq<T>, keep: seq<bool>): (r: seq<T>)
    requires |keep| == |s|
    ensures |r| <= |s|
    ensures forall k :: 0 <= k < |r| ==> r[k] in s
  {
    if s == [] then [] else
    Select(s[..|s| - 1], keep[..|s| - 1]) + (if keep[|s| - 1] then [s[|s| - 1]] else [])
  }

  /** Selecting from one more element adds it at the end when its flag is set. */
  lemma SelectSnoc<T>(s: seq<T>, keep: seq<bool>, x: T, b: bool)
    requires |keep| == |s|
    ensures Select(s + [x], keep + [b]) == Select(s, keep) + (if b then [x] else [])
  {
    assert (s + [x])[..|s|] == s && (keep + [b])[..|s|] == keep;
  }

  /** Element `i` of `xs`, which sits between `prefix` and `suffix`, occurs nowhere else. */
  ghost predicate Isolated<T>(prefix: seq<T>, xs: seq<T>, suffix: seq<T>, i: nat)
    requires i < |xs|
  {
    xs[i] !in prefix && xs[i] !in xs[..i] && xs[i] !in xs[i + 1..] + suffix
  }

  /** An element of a duplicate-free concatenation occurs nowhere else in it. */
  lemma DistinctAt<T>(prefix: seq<T>, xs: seq<T>, suffix: seq<T>, i: nat)
    requires i < |xs| && Distinct(prefix + xs + suffix)
    ensures Isolated(prefix, xs, suffix, i)
  {
    var all := prefix + xs + suffix;
    assert all[|prefix| + i] == xs[i];
    forall j | 0 <= j < |prefix| ensures prefix[j] != xs[i] {
      assert all[j] == prefix[j];
    }
    forall j | 0 <= j < i ensures xs[..i][j] != xs[i] {
      assert all[|prefix| + j] == xs[j];
    }
    var rest := xs[i + 1..] + suffix;
    forall j | 0 <= j < |rest| ensures rest[j] != xs[i] {
      assert all[|prefix| + i + 1 + j] == rest[j];
    }
  }

  /**
   * Each element of a block `xs` of a visible list, between `prefix` and `suffix`, occurs
   * nowhere else in the list.
   */
  lemma BlockIsolated<T>(v: seq<T>, all: seq<T>, prefix: seq<T>, xs: seq<T>, suffix: seq<T>)
    requires Distinct(all) && Subsequence(v, all) && v == prefix + xs + suffix
    ensures forall i {:trigger Isolated(prefix, xs, suffix, i)} :: 0 <= i < |xs| ==> Isolated(prefix, xs, suffix, i)
  {
    SubsequenceIsDistinct(v, all);
    assert v == prefix + (xs + suffix);
    DistinctConcat(prefix, xs + suffix);
    DistinctConcat(xs, suffix);
    forall i | 0 <= i < |xs| ensures Isolated(prefix, xs, suffix, i) {
      DistinctAt(prefix, xs, suffix, i);
    }
  }

  /** Before the walk through `xs` nothing is selected and all of `xs` is still ahead. */
  lemma SelectStart<T>(prefix: seq<T>, xs: seq<T>, suffix: seq<T>)
    ensures prefix + xs + suffix == prefix + Select(xs[..0], []) + xs[0..] + suffix
  {
    assert xs[..0] == [] && xs[0..] == xs;
  }

  /** During the walk through `xs` its next element is in the list, and not among those passed. */
  lemma SelectAt<T>(prefix: seq<T>, xs: seq<T>, suffix: seq<T>, keep: seq<bool>)
    requires |keep| < |xs| && Isolated(prefix, xs, suffix, |keep|)
    ensures xs[|keep|] in prefix + Select(xs[..|keep|], keep) + xs[|keep|..] + suffix
    ensures xs[|keep|] !in xs[..|keep|]
  {
    var i := |keep|;
    var l := prefix + Select(xs[..i], keep) + xs[i..] + suffix;
    assert l[|prefix| + |Select(xs[..i], keep)|] == xs[i];
  }

  /** After the walk through `xs` only the selection is left. */
  lemma SelectEnd<T>(prefix: seq<T>, xs: seq<T>, suffix: seq<T>, keep: seq<bool>)
    requires |keep| == |xs|
    ensures prefix + Select(xs[..|xs|], keep) + xs[|xs|..] + suffix == prefix + Select(xs, keep) + suffix
  {
    assert xs[..|xs|] == xs && xs[|xs|..] == [];
  }

  /**
   * One step of going through `xs`, which sits between `prefix` and `suffix`, and deciding
   * by `b` whether its next element `xs[i]` stays: it stays where it is, or it is removed.
   */
  lemma SelectStep<T>(prefix: seq<T>, xs: seq<T>, suffix: seq<T>, keep: seq<bool>, b: bool)
    requires |keep| < |xs| && Isolated(prefix, xs, suffix, |keep|)
    ensures var i := |keep|;
      prefix + Select(xs[..i + 1], keep + [b]) + xs[i + 1..] + suffix ==
      if b then prefix + Select(xs[..i], keep) + xs[i..] + suffix
      else Without(prefix + Select(xs[..i], keep) + xs[i..] + suffix, xs[i])
  {
    var i := |keep|;
    SelectSnoc(xs[..i], keep, xs[i], b);
    assert xs[..i] + [xs[i]] == xs[..i + 1];
    assert xs[i..] == [xs[i]] + xs[i + 1..];
    if b {
      ConcatRegroup(prefix, Select(xs[..i], keep), xs[i], xs[i + 1..], suffix);
    } else {
      SelectStepDropped(prefix, xs[..i], keep, xs[i], xs[i + 1..], suffix);
    }
  }

  /** Regrouping the concatenations `SelectStep` goes through. */
  lemma ConcatRegroup<T>(prefix: seq<T>, d: seq<T>, x: T, rest: seq<T>, suffix: seq<T>)
    ensures prefix + d + ([x] + rest) + suffix == (prefix + d) + [x] + (rest + suffix)
    ensures prefix + (d + []) + rest + suffix == (prefix + d) + (rest + suffix)
    ensures prefix + (d + [x]) + rest + suffix == prefix + d + ([x] + rest) + suffix
  {
  }

  lemma SelectStepDropped<T>(prefix: seq<T>, done: seq<T>, keep: seq<bool>, x: T, rest: seq<T>, suffix: seq<T>)
    requires |keep| == |done| && x !in prefix && x !in done && x !in rest + suffix
    ensures prefix + (Select(done, keep) + []) + rest + suffix ==
      Without(prefix + Select(done, keep) + ([x] + rest) + suffix, x)
  {
    var d := Select(done, keep);
    assert x !in d;
    WithoutMiddle(prefix + d, x, rest + suffix);
    ConcatRegroup(prefix, d, x, rest, suffix);
  }

}
