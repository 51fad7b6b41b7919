/**
 * The visible/all list pair kept by a Eureka `Form` (its sections) and by a `Section`
 * (its rows): hiding removes an item from the visible list only; showing puts it back
 * just after its nearest visible predecessor; a range replacement splices the visible list
 * and inserts the new items into the full list after the visible predecessor of the range.
 * The same shapes are written twice in the source (Form.swift and Section.swift), so the
 * specification is written once here, generically.
 */
module Visibility {
  import opened Wrappers
  import opened Sequences

  /**
   * The insertion point chosen by the `while` loop of `showSection`/`showRow`: walking back
   * from position `index` of `all`, the slot just after the first item found in `visible`,
   * or 0 when none is visible.
   */
  function SlotAfterVisiblePredecessor<T(==)>(visible: seq<T>, all: seq<T>, index: nat): (q: nat)
    requires index <= |all|
    ensures q <= |visible|
    ensures q > 0 ==> visible[q - 1] in all[..index]
    decreases index
  {
    if index == 0 then 0
    else if all[index - 1] in visible then IndexOf(visible, all[index - 1]) + 1
    else SlotAfterVisiblePredecessor(visible, all, index - 1)
  }

  /**
   * The `while` loop of `showSection`/`showRow`: walking back from position `start` of
   * `all`, the position in `visible` of the first visible item found, if any; the item is
   * then inserted just after that position, or first.
   */
  method FindVisiblePredecessor<T(==)>(visible: seq<T>, all: seq<T>, start: nat) returns (formIndex: Option<nat>)
    requires start < |all|
    ensures formIndex.None? ==> SlotAfterVisiblePredecessor(visible, all, start) == 0
    ensures formIndex.Some? ==>
      formIndex.value < |visible| && formIndex.value + 1 == SlotAfterVisiblePredecessor(visible, all, start)
  {
    var index: nat := start;
    formIndex := None;
    while formIndex.None? && index > 0
      invariant index <= start
      invariant formIndex.None? ==>
        SlotAfterVisiblePredecessor(visible, all, start) == SlotAfterVisiblePredecessor(visible, all, index)
      invariant formIndex.Some? ==>
        formIndex.value < |visible| && formIndex.value + 1 == SlotAfterVisiblePredecessor(visible, all, start)
      decreases index
    {
      index := index - 1;
      var previous := all[index];
      formIndex := if previous in visible then Some(IndexOf(visible, previous)) else None;
    }
  }

  /** `showSection`/`showRow`: a no-op for a visible or unknown item, else an insertion. */
  function Show<T(==)>(visible: seq<T>, all: seq<T>, x: T): seq<T> {
    if x in visible || x !in all then visible
    else InsertAt(visible, SlotAfterVisiblePredecessor(visible, all, IndexOf(all, x)), x)
  }

  /**
   * `indexForInsertionAtIndex`: 0 for index 0; otherwise just after the item that is visible
   * at `index - 1`, or the end of `all` when that item is not in `all`.
   */
  function InsertionIndex<T(==)>(visible: seq<T>, all: seq<T>, index: nat): (i: nat)
    requires index <= |visible|
    ensures i <= |all|
  {
    if index == 0 then 0
    else if visible[index - 1] in all then IndexOf(all, visible[index - 1]) + 1
    else |all|
  }

  /** The visible list after `replaceRange(start..<end, with: xs)`. */
  function ReplaceVisible<T>(visible: seq<T>, start: nat, end: nat, xs: seq<T>): (r: seq<T>)
    requires start <= end <= |visible|
    ensures |r| == |visible| - (end - start) + |xs|
  {
    visible[..start] + xs + visible[end..]
  }

  /**
   * The full list after `replaceRange(start..<end, with: xs)`: the replaced visible items are
   * deleted from it, then `xs` is inserted at the insertion index computed on the new visible list.
   */
  function ReplaceAll<T(==)>(visible: seq<T>, all: seq<T>, start: nat, end: nat, xs: seq<T>): seq<T>
    requires start <= end <= |visible|
  {
    var rest := Except(all, visible[start..end]);
    InsertAllAt(rest, InsertionIndex(ReplaceVisible(visible, start, end, xs), rest, start), xs)
  }

  // ---------------------------------------------------------------------------------------
  // Showing

  /** The slot splits the visible items into those placed before and after `index` in `all`. */
  lemma {:induction false} SlotBounds<T>(visible: seq<T>, all: seq<T>, index: nat)
    requires Distinct(all) && Subsequence(visible, all) && index <= |all|
    ensures forall k :: 0 <= k < SlotAfterVisiblePredecessor(visible, all, index) ==>
      IndexOf(all, visible[k]) < index
    ensures forall k :: SlotAfterVisiblePredecessor(visible, all, index) <= k < |visible| ==>
      IndexOf(all, visible[k]) >= index
    decreases index
  {
    if index > 0 {
      IndexOfDistinct(all, index - 1);
      if all[index - 1] in visible {
        var m := IndexOf(visible, all[index - 1]);
        assert IndexOf(all, visible[m]) == index - 1;
      } else {
        SlotBounds(visible, all, index - 1);
        forall k | SlotAfterVisiblePredecessor(visible, all, index - 1) <= k < |visible|
          ensures IndexOf(all, visible[k]) >= index
        {
          assert visible[k] != all[index - 1];
        }
      }
    }
  }

  /**
   * Showing a hidden item of `all` inserts it exactly where the visible order by position in
   * `all` requires: after every visible item that precedes it in `all`, before every one
   * that follows it. That makes its new neighbour on the left its nearest visible predecessor.
   */
  lemma ShowPlacement<T>(visible: seq<T>, all: seq<T>, x: T)
    requires Distinct(all) && Subsequence(visible, all) && x in all && x !in visible
    ensures var q := SlotAfterVisiblePredecessor(visible, all, IndexOf(all, x));
      && Show(visible, all, x) == InsertAt(visible, q, x)
      && (forall k :: 0 <= k < q ==> IndexOf(all, visible[k]) < IndexOf(all, x))
      && (forall k :: q <= k < |visible| ==> IndexOf(all, visible[k]) > IndexOf(all, x))
  {
    var p := IndexOf(all, x);
    SlotBounds(visible, all, p);
    forall k | 0 <= k < |visible| ensures IndexOf(all, visible[k]) != p {
      assert visible[k] != x;
    }
  }

  /** Showing keeps the visible list an order-preserving subsequence of the full list. */
  lemma ShowKeepsSubsequence<T>(visible: seq<T>, all: seq<T>, x: T)
    requires Distinct(all) && Subsequence(visible, all)
    ensures Subsequence(Show(visible, all, x), all)
  {
    if x !in visible && x in all {
      ShowPlacement(visible, all, x);
      var p := IndexOf(all, x);
      var q := SlotAfterVisiblePredecessor(visible, all, p);
      var r := InsertAt(visible, q, x);
      forall a, b | 0 <= a < b < |r| ensures IndexOf(all, r[a]) < IndexOf(all, r[b]) {
        if a < q && b > q {
          assert r[a] == visible[a] && r[b] == visible[b - 1];
        } else if a < q {
          assert r[a] == visible[a];
          if b < q { assert r[b] == visible[b]; }
        } else if a > q {
          assert r[a] == visible[a - 1] && r[b] == visible[b - 1];
        } else {
          assert r[b] == visible[b - 1];
        }
      }
    }
  }

  /** Exactly the item shown joins the visible list, if `all` has it. */
  lemma ShowMembership<T>(visible: seq<T>, all: seq<T>, x: T, y: T)
    ensures y in Show(visible, all, x) <==> y in visible || (y == x && x in all)
  {
    if x !in visible && x in all {
      var q := SlotAfterVisiblePredecessor(visible, all, IndexOf(all, x));
      var r := InsertAt(visible, q, x);
      assert r == visible[..q] + [x] + visible[q..];
      assert visible == visible[..q] + visible[q..];
    }
  }

  /** Hiding or showing `x` leaves every other item where it was, visible or not. */
  lemma HideShowOthers<T>(visible: seq<T>, all: seq<T>, x: T)
    ensures forall y :: y != x ==> (y in Without(visible, x) <==> y in visible)
    ensures forall y :: y != x ==> (y in Show(visible, all, x) <==> y in visible)
  {
    forall y | y != x ensures y in Show(visible, all, x) <==> y in visible {
      ShowMembership(visible, all, x, y);
    }
  }

  /** Any split point with the property of `SlotBounds` is the slot itself. */
  lemma SlotUnique<T>(visible: seq<T>, all: seq<T>, index: nat, q: nat)
    requires Distinct(all) && Subsequence(visible, all) && index <= |all| && q <= |visible|
    requires forall k :: 0 <= k < q ==> IndexOf(all, visible[k]) < index
    requires forall k :: q <= k < |visible| ==> IndexOf(all, visible[k]) >= index
    ensures SlotAfterVisiblePredecessor(visible, all, index) == q
  {
    SlotBounds(visible, all, index);
    var s := SlotAfterVisiblePredecessor(visible, all, index);
    assert s < |visible| ==> IndexOf(all, visible[s]) >= index;
    assert q < |visible| ==> IndexOf(all, visible[q]) >= index;
  }

  /** Removing the item at `m` leaves the items before it in `all` in front, the others behind. */
  lemma RemoveAtSplit<T>(visible: seq<T>, all: seq<T>, m: nat)
    requires Subsequence(visible, all) && m < |visible|
    ensures var w := RemoveAt(visible, m);
      forall k :: 0 <= k < |w| ==>
        && w[k] in all && w[k] != visible[m]
        && (k < m ==> IndexOf(all, w[k]) < IndexOf(all, visible[m]))
        && (k >= m ==> IndexOf(all, w[k]) > IndexOf(all, visible[m]))
  {
    SubsequenceIsDistinct(visible, all);
    var w := RemoveAt(visible, m);
    forall k | 0 <= k < |w| ensures w[k] in all && w[k] != visible[m] &&
      (k < m ==> IndexOf(all, w[k]) < IndexOf(all, visible[m])) &&
      (k >= m ==> IndexOf(all, w[k]) > IndexOf(all, visible[m]))
    {
      if k < m { assert w[k] == visible[k]; } else { assert w[k] == visible[k + 1]; }
    }
  }

  /** Hiding an item and showing it again restores the visible list. */
  lemma HideThenShow<T>(visible: seq<T>, all: seq<T>, x: T)
    requires Distinct(all) && Subsequence(visible, all) && x in visible
    ensures Show(Without(visible, x), all, x) == visible
  {
    var m := IndexOf(visible, x);
    var w := RemoveAt(visible, m);
    assert Without(visible, x) == w by {
      SubsequenceIsDistinct(visible, all);
      WithoutAsRemoveAt(visible, x);
    }
    assert x !in w && SlotAfterVisiblePredecessor(w, all, IndexOf(all, x)) == m by {
      RemoveAtKeepsSubsequence(visible, all, m);
      RemoveAtSplit(visible, all, m);
      SlotUnique(w, all, IndexOf(all, x), m);
    }
    InsertAtRemoveAt(visible, m);
  }

  /** Showing a hidden item and hiding it again restores the visible list. */
  lemma ShowThenHide<T>(visible: seq<T>, all: seq<T>, x: T)
    requires Distinct(all) && Subsequence(visible, all) && x !in visible
    ensures Without(Show(visible, all, x), x) == visible
  {
    if x in all {
      ShowKeepsSubsequence(visible, all, x);
      SubsequenceIsDistinct(Show(visible, all, x), all);
      var q := SlotAfterVisiblePredecessor(visible, all, IndexOf(all, x));
      var r := InsertAt(visible, q, x);
      WithoutAsRemoveAt(r, x);
      assert IndexOf(r, x) == q by { IndexOfDistinct(r, q); }
      assert RemoveAt(r, q) == visible;
    } else {
      WithoutMissing(visible, x);
    }
  }

  // ---------------------------------------------------------------------------------------
  // Replacing a range

  /** Deleting elements keeps the rest an order-preserving subsequence. */
  lemma {:induction false} ExceptIsSubsequence<T>(all: seq<T>, gone: seq<T>)
    requires Distinct(all)
    ensures Subsequence(Except(all, gone), all)
  {
    if all != [] {
      var tail := all[1..];
      assert Distinct(tail) by {
        forall i, j | 0 <= i < j < |tail| ensures tail[i] != tail[j] {
          assert tail[i] == all[i + 1] && tail[j] == all[j + 1];
        }
      }
      ExceptIsSubsequence(tail, gone);
      assert all[0] !in tail by {
        forall k | 0 <= k < |tail| ensures tail[k] != all[0] { assert tail[k] == all[k + 1]; }
      }
      SubsequenceCons(all, Except(tail, gone));
    }
  }

  /** A subsequence of the tail of `all` stays one of `all`, with or without the head in front. */
  lemma SubsequenceCons<T>(all: seq<T>, e: seq<T>)
    requires all != [] && all[0] !in all[1..] && Subsequence(e, all[1..])
    ensures Subsequence(e, all) && Subsequence([all[0]] + e, all)
  {
    var tail := all[1..];
    forall k | 0 <= k < |e| ensures e[k] in tail && IndexOf(all, e[k]) == IndexOf(tail, e[k]) + 1 {
      assert e[k] in tail;
      assert e[k] != all[0];
    }
    var r := [all[0]] + e;
    forall a, b | 0 <= a < b < |r| ensures IndexOf(all, r[a]) < IndexOf(all, r[b]) {
      assert r[b] == e[b - 1];
      if a > 0 { assert r[a] == e[a - 1]; }
    }
  }

  /** A subsequence of `all` lying inside a sub-list `mid` of `all` is a subsequence of `mid`. */
  lemma SubsequenceWithin<T>(v: seq<T>, mid: seq<T>, all: seq<T>)
    requires Subsequence(v, all) && Subsequence(mid, all)
    requires forall k :: 0 <= k < |v| ==> v[k] in mid
    ensures Subsequence(v, mid)
  {
    SubsequenceIsDistinct(v, all);
    forall i, j | 0 <= i < j < |v| ensures IndexOf(mid, v[i]) < IndexOf(mid, v[j]) {
      var a, b := IndexOf(mid, v[i]), IndexOf(mid, v[j]);
      assert a != b by { assert mid[a] == v[i] && mid[b] == v[j] && v[i] != v[j]; }
    }
  }

  /** The visible items outside a replaced range are among the items that stay. */
  lemma KeptInRest<T>(visible: seq<T>, all: seq<T>, start: nat, end: nat)
    requires Subsequence(visible, all) && start <= end <= |visible|
    ensures forall k :: 0 <= k < |visible[..start] + visible[end..]| ==>
      (visible[..start] + visible[end..])[k] in Except(all, visible[start..end])
  {
    SubsequenceIsDistinct(visible, all);
    var gone := visible[start..end];
    var kept := visible[..start] + visible[end..];
    forall k | 0 <= k < |kept| ensures kept[k] in Except(all, gone) {
      var k' := if k < start then k else k - start + end;
      assert kept[k] == visible[k'];
      forall g | 0 <= g < |gone| ensures gone[g] != visible[k'] {
        assert gone[g] == visible[start + g];
      }
    }
  }

  /** The visible items outside a replaced range keep their order in `all`. */
  lemma KeptInOrder<T>(visible: seq<T>, all: seq<T>, start: nat, end: nat)
    requires Subsequence(visible, all) && start <= end <= |visible|
    ensures Subsequence(visible[..start] + visible[end..], all)
  {
    var kept := visible[..start] + visible[end..];
    forall a, b | 0 <= a < b < |kept| ensures IndexOf(all, kept[a]) < IndexOf(all, kept[b]) {
      var a' := if a < start then a else a - start + end;
      var b' := if b < start then b else b - start + end;
      assert kept[a] == visible[a'] && kept[b] == visible[b'] && a' < b';
    }
  }

  /** The visible items left outside a replaced range stay in order among the remaining items. */
  lemma KeptIsSubsequence<T>(visible: seq<T>, all: seq<T>, start: nat, end: nat)
    requires Distinct(all) && Subsequence(visible, all) && start <= end <= |visible|
    ensures Subsequence(visible[..start] + visible[end..], Except(all, visible[start..end]))
  {
    ExceptIsSubsequence(all, visible[start..end]);
    KeptInRest(visible, all, start, end);
    KeptInOrder(visible, all, start, end);
    SubsequenceWithin(visible[..start] + visible[end..], Except(all, visible[start..end]), all);
  }

  /** Inserting a block of fresh, distinct items keeps a list distinct. */
  lemma InsertAllAtDistinct<T>(rest: seq<T>, i: nat, xs: seq<T>)
    requires i <= |rest| && Distinct(rest) && Distinct(xs)
    requires forall k :: 0 <= k < |xs| ==> xs[k] !in rest
    ensures Distinct(InsertAllAt(rest, i, xs))
  {
    var r := InsertAllAt(rest, i, xs);
    forall a, b | 0 <= a < b < |r| ensures r[a] != r[b] {
      if b < i {
      } else if a < i && b < i + |xs| {
        assert r[b] == xs[b - i];
      } else if a < i {
        assert r[b] == rest[b - |xs|];
      } else if b < i + |xs| {
        assert r[a] == xs[a - i] && r[b] == xs[b - i];
      } else if a < i + |xs| {
        assert r[a] == xs[a - i] && r[b] == rest[b - |xs|];
      } else {
        assert r[a] == rest[a - |xs|] && r[b] == rest[b - |xs|];
      }
    }
  }

  /** Where the items before and after the replaced range sit relative to the insertion index. */
  lemma InsertionIndexSplits<T>(pre: seq<T>, post: seq<T>, xs: seq<T>, rest: seq<T>)
    requires Subsequence(pre + post, rest) && Subsequence(pre, rest) && Subsequence(post, rest)
    ensures var i := InsertionIndex(pre + xs + post, rest, |pre|);
      && (forall k :: 0 <= k < |pre| ==> IndexOf(rest, pre[k]) < i)
      && (forall k :: 0 <= k < |post| ==> IndexOf(rest, post[k]) >= i)
  {
    var u := pre + post;
    var v1 := pre + xs + post;
    var i := InsertionIndex(v1, rest, |pre|);
    forall k | 0 <= k < |pre| ensures IndexOf(rest, pre[k]) < i {
      assert pre[k] == u[k] && v1[|pre| - 1] == u[|pre| - 1];
      assert k < |pre| - 1 ==> IndexOf(rest, u[k]) < IndexOf(rest, u[|pre| - 1]);
    }
    forall k | 0 <= k < |post| ensures IndexOf(rest, post[k]) >= i {
      assert post[k] == u[|pre| + k];
      if |pre| > 0 {
        assert v1[|pre| - 1] == u[|pre| - 1];
        assert IndexOf(rest, u[|pre| - 1]) < IndexOf(rest, u[|pre| + k]);
      }
    }
  }

  /**
   * A range replacement keeps the visible list an order-preserving subsequence of the full
   * list, provided the new items are distinct and not already among the items that stay.
   */
  lemma ReplaceKeepsSubsequence<T>(visible: seq<T>, all: seq<T>, start: nat, end: nat, xs: seq<T>)
    requires Distinct(all) && Subsequence(visible, all) && start <= end <= |visible|
    requires Distinct(xs)
    requires forall k :: 0 <= k < |xs| ==> xs[k] !in Except(all, visible[start..end])
    ensures Distinct(ReplaceAll(visible, all, start, end, xs))
    ensures Subsequence(ReplaceVisible(visible, start, end, xs), ReplaceAll(visible, all, start, end, xs))
  {
    var rest := Except(all, visible[start..end]);
    var pre, post := visible[..start], visible[end..];
    assert Distinct(rest) && Subsequence(pre + post, rest) by {
      ExceptIsSubsequence(all, visible[start..end]);
      SubsequenceIsDistinct(rest, all);
      KeptIsSubsequence(visible, all, start, end);
    }
    assert ReplaceVisible(visible, start, end, xs) == pre + xs + post;
    var i := InsertionIndex(pre + xs + post, rest, start);
    var all2 := InsertAllAt(rest, i, xs);
    assert Distinct(all2) by { InsertAllAtDistinct(rest, i, xs); }
    assert Subsequence(pre, rest[..i]) && Subsequence(post, rest[i..]) by {
      SubsequenceSplit(pre, post, rest);
      InsertionIndexSplits(pre, post, xs, rest);
      SubsequencePrefix(pre, rest, i);
      SubsequenceSuffix(post, rest, i);
    }
    assert all2 == (rest[..i] + xs) + rest[i..];
    assert Subsequence(pre + xs, rest[..i] + xs) by {
      SubsequenceSelf(xs);
      DistinctSlice(all2, 0, i + |xs|);
      assert all2[0..i + |xs|] == rest[..i] + xs;
      ConcatSubsequence(pre, rest[..i], xs, xs);
    }
    ConcatSubsequence(pre + xs, rest[..i] + xs, post, rest[i..]);
  }
}
