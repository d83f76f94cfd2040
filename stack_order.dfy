// Sequence-level specification of the window stack in
// src/scripts/window-manager.ts: index order is stacking order, index 0 is
// the bottom and the last element is the topmost window.

module StackOrder {

  /** No element occurs twice. */
  predicate Distinct<T(==)>(s: seq<T>) {
    forall i, j :: 0 <= i < j < |s| ==> s[i] != s[j]
  }

  /** JavaScript's `Array.prototype.indexOf`: the first position holding `x`
      (compared by identity), or -1 when there is none. */
  function IndexOf<T(==)>(s: seq<T>, x: T): (r: int)
    ensures -1 <= r < |s|
    ensures r == -1 <==> x !in s
    ensures r != -1 ==> s[r] == x && x !in s[..r]
  {
    if s == [] then -1
    else if s[0] == x then 0
    else
      var k := IndexOf(s[1..], x);
      assert k != -1 ==> s[..k + 1] == [s[0]] + s[1..][..k];
      if k == -1 then -1 else k + 1
  }

  /** The last position holding `x`, or -1 when there is none. This is the
      position whose write the stacking trap performs last, so it is the
      stacking value a window ends up with. */
  function LastIndexOf<T(==)>(s: seq<T>, x: T): (r: int)
    ensures -1 <= r < |s|
    ensures r == -1 <==> x !in s
    ensures r != -1 ==> s[r] == x && x !in s[r + 1..]
  {
    if s == [] then -1
    else if s[|s| - 1] == x then |s| - 1
    else
      var k := LastIndexOf(s[..|s| - 1], x);
      assert k != -1 ==> s[k + 1..] == s[..|s| - 1][k + 1..] + [s[|s| - 1]];
      assert s == s[..|s| - 1] + [s[|s| - 1]];
      k
  }

  /** The elements of `s` other than `x`, in their order in `s`. Two stacks
      with the same `Without(_, x)` agree on the relative order of every
      window except `x`. */
  function Without<T(==)>(s: seq<T>, x: T): (r: seq<T>)
    ensures x !in r
    ensures |r| <= |s|
  {
    if s == [] then []
    else (if s[0] == x then [] else [s[0]]) + Without(s[1..], x)
  }

  /** `indexOf` followed by `splice(index, 1)` when the index is not -1. */
  function RemoveFirst<T(==)>(s: seq<T>, x: T): (r: seq<T>)
    ensures x !in s ==> r == s
    ensures x in s ==> |r| == |s| - 1
  {
    var i := IndexOf(s, x);
    if i == -1 then s else s[..i] + s[i + 1..]
  }

  /** `indexOf`, then `splice(index, 1)` and `push(x)` when the index is not -1. */
  function Focused<T(==)>(s: seq<T>, x: T): (r: seq<T>)
    ensures x !in s ==> r == s
    ensures |r| == |s|
    ensures x in s ==> r[|r| - 1] == x
  {
    if x !in s then s else RemoveFirst(s, x) + [x]
  }

  lemma {:induction false} WithoutConcat<T>(a: seq<T>, b: seq<T>, x: T)
    ensures Without(a + b, x) == Without(a, x) + Without(b, x)
  {
    if a == [] {
      assert a + b == b;
    } else {
      assert (a + b)[1..] == a[1..] + b;
      WithoutConcat(a[1..], b, x);
    }
  }

  lemma WithoutSingleton<T>(y: T, x: T)
    ensures Without([y], x) == if y == x then [] else [y]
  {
    assert [y][1..] == [];
  }

  /** Removing the first occurrence of `x` deletes exactly one `x` and keeps
      every other element, in its order. */
  lemma RemoveFirstKeepsOthers<T>(s: seq<T>, x: T)
    ensures Without(RemoveFirst(s, x), x) == Without(s, x)
  {
    var i := IndexOf(s, x);
    if i != -1 {
      var a, b := s[..i], s[i + 1..];
      assert RemoveFirst(s, x) == a + b;
      assert s == (a + [x]) + b;
      WithoutAround(a, x, b);
    }
  }

  /** ... and exactly one occurrence of `x` goes. */
  lemma RemoveFirstDropsOne<T>(s: seq<T>, x: T)
    requires x in s
    ensures multiset(RemoveFirst(s, x)) + multiset{x} == multiset(s)
  {
    var i := IndexOf(s, x);
    var a, b := s[..i], s[i + 1..];
    assert RemoveFirst(s, x) == a + b;
    assert s == (a + [x]) + b;
  }

  lemma WithoutAround<T>(a: seq<T>, x: T, b: seq<T>)
    ensures Without((a + [x]) + b, x) == Without(a + b, x)
  {
    calc {
      Without((a + [x]) + b, x);
    == { WithoutConcat(a + [x], b, x); }
      Without(a + [x], x) + Without(b, x);
    == { WithoutConcat(a, [x], x); WithoutSingleton(x, x); }
      Without(a, x) + Without(b, x);
    == { WithoutConcat(a, b, x); }
      Without(a + b, x);
    }
  }

  /** The removed occurrence is the first: everything before it stays in place. */
  lemma RemoveFirstKeepsPrefix<T>(s: seq<T>, x: T)
    requires x in s
    ensures RemoveFirst(s, x)[..IndexOf(s, x)] == s[..IndexOf(s, x)]
    ensures forall j :: IndexOf(s, x) <= j < |s| - 1 ==> RemoveFirst(s, x)[j] == s[j + 1]
  {
  }

  /** On a stack without duplicates the removed window is gone entirely. */
  lemma RemoveFirstDistinct<T>(s: seq<T>, x: T)
    requires Distinct(s)
    ensures Distinct(RemoveFirst(s, x))
    ensures x !in RemoveFirst(s, x)
  {
    var i := IndexOf(s, x);
    if i != -1 {
      var r := s[..i] + s[i + 1..];
      assert RemoveFirst(s, x) == r;
      forall j | 0 <= j < |r| ensures r[j] == s[if j < i then j else j + 1] && r[j] != x {
      }
      forall j, k | 0 <= j < k < |r| ensures r[j] != r[k] {
        assert r[j] == s[if j < i then j else j + 1];
        assert r[k] == s[if k < i then k else k + 1];
      }
    }
  }

  /** Focusing keeps the same windows and the relative order of all but `x`. */
  lemma FocusedKeepsOthers<T>(s: seq<T>, x: T)
    ensures Without(Focused(s, x), x) == Without(s, x)
    ensures multiset(Focused(s, x)) == multiset(s)
  {
    if x in s {
      RemoveFirstKeepsOthers(s, x);
      RemoveFirstDropsOne(s, x);
      WithoutConcat(RemoveFirst(s, x), [x], x);
      WithoutSingleton(x, x);
    }
  }

  lemma FocusedDistinct<T>(s: seq<T>, x: T)
    requires Distinct(s)
    ensures Distinct(Focused(s, x))
  {
    if x in s {
      RemoveFirstDistinct(s, x);
    }
  }

  /** Focusing a window that is already the only topmost occurrence changes nothing. */
  lemma FocusedTopIdempotent<T>(s: seq<T>, x: T)
    requires |s| > 0 && s[|s| - 1] == x && x !in s[..|s| - 1]
    ensures Focused(s, x) == s
  {
    assert IndexOf(s, x) == |s| - 1;
    assert s == s[..|s| - 1] + [x];
  }

  lemma AppendDistinct<T>(s: seq<T>, x: T)
    requires Distinct(s) && x !in s
    ensures Distinct(s + [x])
  {
  }

  lemma LastIndexOfAppend<T>(s: seq<T>, y: T, x: T)
    ensures LastIndexOf(s + [y], x) == if x == y then |s| else LastIndexOf(s, x)
  {
    assert (s + [y])[..|s|] == s;
  }

  /** Extending a prefix by one element: that element is now its own last occurrence. */
  lemma LastIndexOfPrefixStep<T>(s: seq<T>, i: int, j: int)
    requires 0 <= j <= i < |s|
    ensures LastIndexOf(s[..i + 1], s[j]) == if s[j] == s[i] then i else LastIndexOf(s[..i], s[j])
  {
    assert s[..i + 1] == s[..i] + [s[i]];
    LastIndexOfAppend(s[..i], s[i], s[j]);
  }

  /** The last position of the element at each position. */
  function LastIndices<T(==)>(s: seq<T>): (r: seq<int>)
  {
    seq(|s|, i requires 0 <= i < |s| => LastIndexOf(s, s[i]))
  }

  /** Appending `y` makes it the last occurrence of `y` and leaves every other
      element's last position where it was. */
  lemma LastIndicesAppend<T>(s: seq<T>, y: T)
    ensures |LastIndices(s + [y])| == |s| + 1
    ensures LastIndices(s + [y])[|s|] == |s|
    ensures forall i :: 0 <= i < |s| && s[i] != y ==> LastIndices(s + [y])[i] == LastIndices(s)[i]
    ensures y !in s ==> LastIndices(s + [y]) == LastIndices(s) + [|s|]
  {
    LastIndexOfAppend(s, y, y);
    forall i | 0 <= i < |s| ensures LastIndices(s + [y])[i] == if s[i] == y then |s| else LastIndices(s)[i] {
      LastIndexOfAppend(s, y, s[i]);
    }
  }

  /** Without duplicates every element's last position is its own index. */
  lemma DistinctLastIndices<T>(s: seq<T>)
    requires Distinct(s)
    ensures forall i :: 0 <= i < |s| ==> LastIndices(s)[i] == i
  {
    forall i | 0 <= i < |s| ensures LastIndices(s)[i] == i {
      DistinctLastIndex(s, i);
    }
  }

  /** The stacking values after `splice(i, 1)` through the set-trap, when every
      window of `s` had its last index in `s` before: each window written at a
      position at or above the removal point carries the last such position,
      and every other window keeps its old value. */
  function SpliceStamps<T(==)>(s: seq<T>, x: T): (zs: seq<int>)
    requires x in s
    ensures |zs| == |RemoveFirst(s, x)|
  {
    var r, i := RemoveFirst(s, x), IndexOf(s, x);
    seq(|r|, k requires 0 <= k < |r| =>
      if LastIndexOf(r, r[k]) >= i then LastIndexOf(r, r[k]) else LastIndexOf(s, r[k]))
  }

  /** A position holding `e` with no later `e` is the last index of `e`. */
  lemma LastIndexOfUnique<T>(s: seq<T>, e: T, p: int)
    requires 0 <= p < |s| && s[p] == e && e !in s[p + 1..]
    ensures LastIndexOf(s, e) == p
  {
  }

  /** Stamping only the shifted positions, as the set-trap does during
      `splice`, leaves the same stacking values as stamping every position. */
  lemma SpliceStampsAgree<T>(s: seq<T>, x: T)
    requires x in s
    ensures SpliceStamps(s, x) == LastIndices(RemoveFirst(s, x))
  {
    var r, i := RemoveFirst(s, x), IndexOf(s, x);
    assert r == s[..i] + s[i + 1..];
    forall k | 0 <= k < |r| && LastIndexOf(r, r[k]) < i
      ensures LastIndexOf(s, r[k]) == LastIndexOf(r, r[k])
    {
      var e := r[k];
      assert e in r;
      var l := LastIndexOf(r, e);
      assert s[l] == e;
      assert e != x by {
        assert s[..i][l] == e;
      }
      forall p | l < p < |s| ensures s[p] != e {
        var q := if p < i then p else p - 1;
        if p != i {
          assert s[p] == r[q] && r[l + 1..][q - l - 1] == r[q];
        }
      }
      LastIndexOfUnique(s, e, l);
    }
  }

  /** Without duplicates, the last position of an element is its only position. */
  lemma DistinctLastIndex<T>(s: seq<T>, i: int)
    requires Distinct(s) && 0 <= i < |s|
    ensures LastIndexOf(s, s[i]) == i
  {
  }
}
