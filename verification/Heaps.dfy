/** BaseAndExponent of algebra.h and the standard heap operations on an array of
    them, ordered by exponent.  Callers use the contracts only: the root is a
    largest element, nothing is lost, and pop moves the root to the end. */
module Heaps {

  datatype BaseAndExponent<T> = BaseAndExponent(base: T, exponent: nat)

  function Parent(k: nat): (p: nat)
    requires k > 0
    ensures p < k
  {
    (k - 1) / 2
  }

  ghost predicate IsHeap<T>(s: seq<BaseAndExponent<T>>, n: nat)
  {
    n <= |s| && forall k :: 0 < k < n ==> s[k].exponent <= s[Parent(k)].exponent
  }

  lemma {:induction false} RootIsLargest<T>(s: seq<BaseAndExponent<T>>, n: nat, k: nat)
    requires IsHeap(s, n) && k < n
    ensures s[k].exponent <= s[0].exponent
  {
    if k > 0 {
      RootIsLargest(s, n, Parent(k));
    }
  }

  /** The elements of t are those of s rearranged, and from n on nothing moved. */
  ghost predicate Rearranged<T>(s: seq<T>, t: seq<T>, n: nat)
  {
    n <= |s| == |t| && multiset(s) == multiset(t) && s[n..] == t[n..]
  }

  method Swap<T>(a: array<T>, i: nat, j: nat)
    requires i < a.Length && j < a.Length
    modifies a
    ensures a[..] == old(a[..])[i := old(a[j])][j := old(a[i])]
  {
    a[i], a[j] := a[j], a[i];
  }

  /** The heap order holds except possibly between k and its parent. */
  ghost predicate HeapExceptUp<T>(s: seq<BaseAndExponent<T>>, n: nat, hole: nat)
  {
    && hole < n <= |s|
    && (forall k :: 0 < k < n && k != hole ==> s[k].exponent <= s[Parent(k)].exponent)
    && (hole > 0 ==> forall k :: 0 < k < n && Parent(k) == hole ==> s[k].exponent <= s[Parent(hole)].exponent)
  }

  lemma UpStart<T>(s: seq<BaseAndExponent<T>>, n: nat)
    requires 1 <= n <= |s| && IsHeap(s, n - 1)
    ensures HeapExceptUp(s, n, n - 1) && Rearranged(s, s, n)
  {
  }

  lemma UpStep<T>(s: seq<BaseAndExponent<T>>, n: nat, hole: nat)
    requires HeapExceptUp(s, n, hole) && hole > 0 && s[Parent(hole)].exponent < s[hole].exponent
    ensures HeapExceptUp(s[Parent(hole) := s[hole]][hole := s[Parent(hole)]], n, Parent(hole))
  {
    hide Parent;
    var p := Parent(hole);
    var t := s[p := s[hole]][hole := s[p]];
    forall k | 0 < k < n && k != p
      ensures t[k].exponent <= t[Parent(k)].exponent
    {
      assert k != hole ==> t[k] == s[k] && s[k].exponent <= s[Parent(k)].exponent;
    }
    forall k | p > 0 && 0 < k < n && Parent(k) == p
      ensures t[k].exponent <= t[Parent(p)].exponent
    {
      assert s[p].exponent <= s[Parent(p)].exponent == t[Parent(p)].exponent;
      assert k != hole ==> t[k] == s[k];
    }
  }

  lemma UpDone<T>(s: seq<BaseAndExponent<T>>, n: nat, hole: nat)
    requires HeapExceptUp(s, n, hole) && (hole > 0 ==> s[hole].exponent <= s[Parent(hole)].exponent)
    ensures IsHeap(s, n)
  {
  }

  lemma Rearrange<T>(s: seq<T>, t: seq<T>, n: nat, i: nat, j: nat)
    requires Rearranged(s, t, n) && i < n && j < n
    ensures Rearranged(s, t[i := t[j]][j := t[i]], n)
  {
    var u := t[i := t[j]][j := t[i]];
    assert u[n..] == t[n..];
    assert multiset(u) == multiset(t);
  }

  /** std::push_heap on the first n elements, the last of which is new. */
  method PushHeap<T>(a: array<BaseAndExponent<T>>, n: nat)
    requires 1 <= n <= a.Length && IsHeap(a[..], n - 1)
    modifies a
    ensures IsHeap(a[..], n) && Rearranged(old(a[..]), a[..], n)
  {
    hide HeapExceptUp, IsHeap, Rearranged;
    var hole: nat := n - 1;
    UpStart(a[..], n);
    while hole > 0 && a[Parent(hole)].exponent < a[hole].exponent
      invariant hole < n && HeapExceptUp(a[..], n, hole)
      invariant Rearranged(old(a[..]), a[..], n)
      decreases hole
    {
      ghost var s := a[..];
      UpStep(s, n, hole);
      Rearrange(old(a[..]), s, n, Parent(hole), hole);
      Swap(a, Parent(hole), hole);
      assert a[..] == s[Parent(hole) := s[hole]][hole := s[Parent(hole)]];
      hole := Parent(hole);
    }
    UpDone(a[..], n, hole);
  }

  /** The heap order holds except possibly between the hole and its children. */
  ghost predicate HeapExceptDown<T>(s: seq<BaseAndExponent<T>>, n: nat, hole: nat)
  {
    && n <= |s|
    && (forall k :: 0 < k < n && Parent(k) != hole ==> s[k].exponent <= s[Parent(k)].exponent)
    && (0 < hole < n ==> forall k :: 0 < k < n && Parent(k) == hole ==> s[k].exponent <= s[Parent(hole)].exponent)
  }

  lemma DownStart<T>(s: seq<BaseAndExponent<T>>, n: nat)
    requires 1 <= n <= |s| && IsHeap(s, n)
    ensures HeapExceptDown(s[0 := s[n - 1]][n - 1 := s[0]], n - 1, 0)
    ensures Rearranged(s, s[0 := s[n - 1]][n - 1 := s[0]], n)
  {
    var t := s[0 := s[n - 1]][n - 1 := s[0]];
    assert s[n..] == t[n..];
  }

  lemma Children(k: nat)
    requires k > 0
    ensures k == 2 * Parent(k) + 1 || k == 2 * Parent(k) + 2
  {
  }

  lemma DownStep<T>(s: seq<BaseAndExponent<T>>, m: nat, hole: nat, child: nat)
    requires HeapExceptDown(s, m, hole) && child < m && (child == 2 * hole + 1 || child == 2 * hole + 2)
    requires s[2 * hole + 1].exponent <= s[child].exponent
    requires 2 * hole + 2 < m ==> s[2 * hole + 2].exponent <= s[child].exponent
    requires s[hole].exponent < s[child].exponent
    ensures HeapExceptDown(s[hole := s[child]][child := s[hole]], m, child)
  {
    hide Parent;
    var t := s[hole := s[child]][child := s[hole]];
    forall k | 0 < k < m && Parent(k) != child
      ensures t[k].exponent <= t[Parent(k)].exponent
    {
      Children(k);
      Children(child);
    }
    forall k | 0 < k < m && Parent(k) == child
      ensures t[k].exponent <= t[Parent(child)].exponent
    {
      Children(k);
      Children(child);
    }
  }

  lemma DownDone<T>(s: seq<BaseAndExponent<T>>, m: nat, hole: nat)
    requires HeapExceptDown(s, m, hole)
    requires 2 * hole + 1 < m ==> s[2 * hole + 1].exponent <= s[hole].exponent
    requires 2 * hole + 2 < m ==> s[2 * hole + 2].exponent <= s[hole].exponent
    ensures IsHeap(s, m)
  {
  }

  /** Moves the root of a[..m] down to its place. */
  method SiftDown<T>(a: array<BaseAndExponent<T>>, m: nat)
    requires m <= a.Length && HeapExceptDown(a[..], m, 0)
    modifies a
    ensures IsHeap(a[..], m) && Rearranged(old(a[..]), a[..], m)
  {
    hide HeapExceptDown, IsHeap, Rearranged;
    var hole: nat := 0;
    Unmoved(a[..], m);
    while 2 * hole + 1 < m
      invariant HeapExceptDown(a[..], m, hole) && Rearranged(old(a[..]), a[..], m)
      decreases m - hole
    {
      var child := LargerChild(a, m, hole);
      if a[child].exponent <= a[hole].exponent {
        break;
      }
      ghost var s := a[..];
      DownStep(s, m, hole, child);
      Rearrange(old(a[..]), s, m, hole, child);
      Swap(a, hole, child);
      assert a[..] == s[hole := s[child]][child := s[hole]];
      hole := child;
    }
    DownDone(a[..], m, hole);
  }

  method LargerChild<T>(a: array<BaseAndExponent<T>>, m: nat, hole: nat) returns (child: nat)
    requires 2 * hole + 1 < m <= a.Length
    ensures child < m && (child == 2 * hole + 1 || child == 2 * hole + 2)
    ensures a[2 * hole + 1].exponent <= a[child].exponent
    ensures 2 * hole + 2 < m ==> a[2 * hole + 2].exponent <= a[child].exponent
  {
    child := 2 * hole + 1;
    if child + 1 < m && a[child].exponent < a[child + 1].exponent {
      child := child + 1;
    }
  }

  lemma Unmoved<T>(s: seq<T>, n: nat)
    requires n <= |s|
    ensures Rearranged(s, s, n)
  {
  }

  lemma RearrangedTrans<T>(s: seq<T>, t: seq<T>, u: seq<T>, n: nat)
    requires n > 0 && Rearranged(s, t, n) && Rearranged(t, u, n - 1)
    ensures Rearranged(s, u, n) && u[n - 1] == t[n - 1]
  {
    assert u[n - 1..][1..] == u[n..] && t[n - 1..][1..] == t[n..];
    assert u[n - 1] == u[n - 1..][0] && t[n - 1] == t[n - 1..][0];
  }

  /** std::pop_heap on the first n elements: the root goes to position n - 1 and
      the others become a heap of n - 1 elements. */
  method PopHeap<T>(a: array<BaseAndExponent<T>>, n: nat)
    requires 1 <= n <= a.Length && IsHeap(a[..], n)
    modifies a
    ensures IsHeap(a[..], n - 1) && Rearranged(old(a[..]), a[..], n)
    ensures a[n - 1] == old(a[0])
  {
    hide HeapExceptDown, IsHeap, Rearranged;
    ghost var s := a[..];
    DownStart(s, n);
    Swap(a, 0, n - 1);
    ghost var t := a[..];
    assert t == s[0 := s[n - 1]][n - 1 := s[0]];
    SiftDown(a, n - 1);
    RearrangedTrans(s, t, a[..], n);
  }

  /** std::make_heap, by pushing one element after the other. */
  method MakeHeap<T>(a: array<BaseAndExponent<T>>)
    modifies a
    ensures IsHeap(a[..], a.Length) && Rearranged(old(a[..]), a[..], a.Length)
  {
    for n := 0 to a.Length
      invariant IsHeap(a[..], n) && multiset(a[..]) == multiset(old(a[..]))
    {
      PushHeap(a, n + 1);
    }
  }
}
