/** The heap sort behind uls_quick_sort_vptr, and binary search (src/uls_misc.c). */
module HeapSort {
  import opened Numerals

  // ---------- what a comparison function promises ----------

  ghost predicate Antisymmetric<T>(cmp: (T, T) -> int, x: T, y: T) {
    cmp(x, y) < 0 <==> cmp(y, x) > 0
  }

  ghost predicate Transitive<T>(cmp: (T, T) -> int, x: T, y: T, z: T) {
    cmp(x, y) <= 0 && cmp(y, z) <= 0 ==> cmp(x, z) <= 0
  }

  /** Any total preorder, given by the sign of a comparison. */
  ghost predicate IsOrder<T(!new)>(cmp: (T, T) -> int) {
    && (forall x, y :: Antisymmetric(cmp, x, y))
    && (forall x, y, z :: Transitive(cmp, x, y, z))
  }

  lemma OrderAt<T(!new)>(cmp: (T, T) -> int, x: T, y: T, z: T)
    requires IsOrder(cmp)
    ensures cmp(x, x) == 0 && (cmp(x, y) < 0 <==> cmp(y, x) > 0)
    ensures cmp(x, y) <= 0 && cmp(y, z) <= 0 ==> cmp(x, z) <= 0
  {
    assert Antisymmetric(cmp, x, x) && Antisymmetric(cmp, x, y) && Antisymmetric(cmp, y, x);
    assert Transitive(cmp, x, y, z);
  }

  ghost predicate Sorted<T>(cmp: (T, T) -> int, s: seq<T>) {
    forall i, j :: 0 <= i < j < |s| ==> cmp(s[i], s[j]) <= 0
  }

  // ---------- the tree in an array ----------

  /** Node `i` is not below one of its children, among the first `n` slots. */
  ghost predicate HeapOk<T>(cmp: (T, T) -> int, s: seq<T>, n: nat, i: nat)
    requires i < n <= |s|
  {
    && (2 * i + 1 < n ==> cmp(s[i], s[2 * i + 1]) >= 0)
    && (2 * i + 2 < n ==> cmp(s[i], s[2 * i + 2]) >= 0)
  }

  /** Node `x` lies in the subtree of node `r`. */
  ghost predicate Below(r: nat, x: nat) {
    x == r || (x > r && Below(r, (x - 1) / 2))
  }

  lemma {:induction false} BelowChild(r: nat, k: nat, x: nat)
    requires (k == 2 * r + 1 || k == 2 * r + 2) && Below(k, x)
    ensures Below(r, x) && x != r
    decreases x
  {
    if x != k {
      BelowChild(r, k, (x - 1) / 2);
    } else {
      assert Below(r, (k - 1) / 2);
    }
  }

  /** A proper descendant lies in the subtree of one child. */
  lemma {:induction false} BelowSplit(r: nat, x: nat)
    requires Below(r, x) && x != r
    ensures Below(2 * r + 1, x) || Below(2 * r + 2, x)
    ensures x >= 2 * r + 1
    decreases x
  {
    if (x - 1) / 2 != r {
      BelowSplit(r, (x - 1) / 2);
    }
  }

  ghost predicate HeapFrom<T>(cmp: (T, T) -> int, s: seq<T>, n: nat, lo: nat) {
    n <= |s| && forall i :: lo <= i < n ==> HeapOk(cmp, s, n, i)
  }

  /** The subtrees strictly below `r` are heaps. */
  ghost predicate HeapUnder<T>(cmp: (T, T) -> int, s: seq<T>, n: nat, r: nat) {
    n <= |s| && forall i :: 0 <= i < n && Below(r, i) && i != r ==> HeapOk(cmp, s, n, i)
  }

  ghost predicate HeapAt<T>(cmp: (T, T) -> int, s: seq<T>, n: nat, r: nat) {
    n <= |s| && forall i :: 0 <= i < n && Below(r, i) ==> HeapOk(cmp, s, n, i)
  }

  /** The root of a heap is one of its greatest elements. */
  lemma {:induction false} RootIsGreatest<T(!new)>(cmp: (T, T) -> int, s: seq<T>, n: nat, x: nat)
    requires IsOrder(cmp) && HeapFrom(cmp, s, n, 0) && x < n
    ensures cmp(s[x], s[0]) <= 0
    decreases x
  {
    if x == 0 {
      OrderAt(cmp, s[0], s[0], s[0]);
    } else {
      var p := (x - 1) / 2;
      RootIsGreatest(cmp, s, n, p);
      assert HeapOk(cmp, s, n, p) && (x == 2 * p + 1 || x == 2 * p + 2);
      OrderAt(cmp, s[p], s[x], s[0]);
      OrderAt(cmp, s[x], s[p], s[0]);
    }
  }

  // ---------- sifting down ----------

  /** Outside the subtree of `r`, and behind the heap, nothing moved. */
  ghost predicate MovedOnlyBelow<T>(s: seq<T>, t: seq<T>, n: nat, r: nat) {
    |t| == |s| && forall x :: 0 <= x < |s| && (x >= n || !Below(r, x)) ==> t[x] == s[x]
  }

  /** The new occupant of `r` is the old one or one of its children. */
  ghost predicate TopFrom<T>(s: seq<T>, t: seq<T>, n: nat, r: nat)
    requires r < n <= |s| == |t|
  {
    || t[r] == s[r]
    || (2 * r + 1 < n && t[r] == s[2 * r + 1])
    || (2 * r + 2 < n && t[r] == s[2 * r + 2])
  }

  /** Another slot that holds the same element as `r` keeps it. */
  ghost predicate TwinsStay<T>(s: seq<T>, t: seq<T>, r: nat)
    requires r < |s| == |t|
  {
    forall q :: 0 <= q < |s| && q != r && s[q] == s[r] ==> t[q] == s[q]
  }

  ghost predicate Sifted<T(!new)>(cmp: (T, T) -> int, s: seq<T>, t: seq<T>, n: nat, r: nat)
    requires r < n <= |s|
  {
    && MovedOnlyBelow(s, t, n, r) && TopFrom(s, t, n, r) && TwinsStay(s, t, r)
    && multiset(t) == multiset(s) && HeapAt(cmp, t, n, r)
  }

  /** Child `k` of `r` is greater than `r` and not less than its sibling. */
  ghost predicate Promotes<T>(cmp: (T, T) -> int, s: seq<T>, n: nat, r: nat, k: nat) {
    && r < k < n <= |s| && (k == 2 * r + 1 || k == 2 * r + 2)
    && cmp(s[r], s[k]) < 0
    && (2 * r + 1 < n ==> cmp(s[k], s[2 * r + 1]) >= 0)
    && (2 * r + 2 < n ==> cmp(s[k], s[2 * r + 2]) >= 0)
  }

  ghost function Swap<T>(s: seq<T>, i: nat, j: nat): (t: seq<T>)
    requires i < |s| && j < |s|
    ensures |t| == |s| && multiset(t) == multiset(s)
  {
    s[i := s[j]][j := s[i]]
  }

  lemma NothingToSift<T(!new)>(cmp: (T, T) -> int, s: seq<T>, n: nat, r: nat)
    requires r < n <= |s| && HeapUnder(cmp, s, n, r) && HeapOk(cmp, s, n, r)
    ensures Sifted(cmp, s, s, n, r)
  {}

  lemma SwapKeepsUnder<T(!new)>(cmp: (T, T) -> int, s: seq<T>, n: nat, r: nat, k: nat)
    requires Promotes(cmp, s, n, r, k) && HeapUnder(cmp, s, n, r)
    ensures HeapUnder(cmp, Swap(s, r, k), n, k)
  {
    var t := Swap(s, r, k);
    forall i | 0 <= i < n && Below(k, i) && i != k ensures HeapOk(cmp, t, n, i) {
      BelowChild(r, k, i);
      BelowSplit(k, i);
      assert HeapOk(cmp, s, n, i);
    }
  }

  lemma SiftFrame<T(!new)>(cmp: (T, T) -> int, s: seq<T>, u: seq<T>, n: nat, r: nat, k: nat)
    requires IsOrder(cmp) && Promotes(cmp, s, n, r, k)
    requires Sifted(cmp, Swap(s, r, k), u, n, k)
    ensures MovedOnlyBelow(s, u, n, r) && TwinsStay(s, u, r) && multiset(u) == multiset(s)
    ensures u[r] == s[k]
  {
    var t := Swap(s, r, k);
    forall x | 0 <= x < |s| && (x >= n || !Below(r, x)) ensures u[x] == s[x] {
      if Below(k, x) {
        BelowChild(r, k, x);
      }
      assert Below(r, r) && Below(r, k);
    }
    assert !Below(k, r);
    forall q | 0 <= q < |s| && q != r && s[q] == s[r] ensures u[q] == s[q] {
      OrderAt(cmp, s[r], s[k], s[k]);
      assert t[q] == t[k];
    }
  }

  /** With the greater child promoted, the node is in order with its new children. */
  lemma PromotedOk<T(!new)>(cmp: (T, T) -> int, s: seq<T>, u: seq<T>, n: nat, r: nat, k: nat)
    requires IsOrder(cmp) && Promotes(cmp, s, n, r, k) && HeapUnder(cmp, s, n, r)
    requires Sifted(cmp, Swap(s, r, k), u, n, k) && u[r] == s[k]
    ensures HeapOk(cmp, u, n, r)
  {
    var t := Swap(s, r, k);
    var sibling: nat := if k == 2 * r + 1 then 2 * r + 2 else 2 * r + 1;
    assert !Below(k, sibling);
    assert sibling < n ==> u[sibling] == t[sibling] == s[sibling];
    assert HeapOk(cmp, s, n, k) by {
      assert Below(r, k);
    }
    assert 2 * k + 1 < n ==> t[2 * k + 1] == s[2 * k + 1];
    assert 2 * k + 2 < n ==> t[2 * k + 2] == s[2 * k + 2];
    OrderAt(cmp, s[r], s[k], s[k]);
    assert cmp(s[k], u[k]) >= 0;
  }

  lemma SiftedOnce<T(!new)>(cmp: (T, T) -> int, s: seq<T>, u: seq<T>, n: nat, r: nat, k: nat)
    requires IsOrder(cmp) && Promotes(cmp, s, n, r, k) && HeapUnder(cmp, s, n, r)
    requires Sifted(cmp, Swap(s, r, k), u, n, k)
    ensures Sifted(cmp, s, u, n, r)
  {
    SiftFrame(cmp, s, u, n, r, k);
    PromotedOk(cmp, s, u, n, r, k);
    var t := Swap(s, r, k);
    forall i | 0 <= i < n && Below(r, i) ensures HeapOk(cmp, u, n, i) {
      if i != r && !Below(k, i) {
        BelowSplit(r, i);
        SiblingUntouched(cmp, s, u, n, r, k, i);
      }
    }
  }

  lemma SiblingUntouched<T(!new)>(cmp: (T, T) -> int, s: seq<T>, u: seq<T>, n: nat, r: nat, k: nat, i: nat)
    requires Promotes(cmp, s, n, r, k) && HeapUnder(cmp, s, n, r) && i < n && Below(r, i) && i != r && !Below(k, i)
    requires MovedOnlyBelow(Swap(s, r, k), u, n, k)
    ensures HeapOk(cmp, u, n, i)
  {
    assert HeapOk(cmp, s, n, i);
    assert Below(k, k) && i != k;
    BelowSplit(r, i);
    forall c: nat | c < n && (c == 2 * i + 1 || c == 2 * i + 2) ensures u[c] == s[c] {
      assert (c - 1) / 2 == i && c != r;
      assert c != k;
      assert !Below(k, c);
    }
  }

  // ---------- the sort ----------

  /** The greatest elements stand sorted in the slots from `hn` on; the others form a heap. */
  ghost predicate Sorting<T(!new)>(cmp: (T, T) -> int, s: seq<T>, n: nat, hn: nat) {
    && hn <= n <= |s| && HeapFrom(cmp, s, hn, 0)
    && forall x, y :: 0 <= x < y < n && hn <= y ==> cmp(s[x], s[y]) <= 0
  }

  /** What one extraction does to the first `hn` slots. */
  ghost predicate Extracted<T(!new)>(cmp: (T, T) -> int, s: seq<T>, t: seq<T>, hn: nat) {
    && 0 < hn <= |s| == |t| && t[hn - 1] == s[0] && HeapFrom(cmp, t, hn - 1, 0)
    && multiset(t) == multiset(s) && t[hn..] == s[hn..]
  }

  lemma SamePrefixElements<T>(s: seq<T>, t: seq<T>, n: nat)
    requires n <= |s| == |t| && multiset(t) == multiset(s) && t[n..] == s[n..]
    ensures multiset(t[..n]) == multiset(s[..n])
  {
    assert s == s[..n] + s[n..] && t == t[..n] + t[n..];
    assert multiset(s) == multiset(s[..n]) + multiset(s[n..]);
    assert multiset(t) == multiset(t[..n]) + multiset(t[n..]);
    assert multiset(t[..n]) == multiset(t) - multiset(t[n..]);
    assert multiset(s[..n]) == multiset(s) - multiset(s[n..]);
  }

  lemma FromPrefix<T>(s: seq<T>, t: seq<T>, n: nat, x: nat) returns (x': nat)
    requires x < n <= |s| == |t| && multiset(t[..n]) == multiset(s[..n])
    ensures x' < n && s[x'] == t[x]
  {
    assert t[..n][x] in multiset(t[..n]);
    assert t[x] in s[..n];
    x' :| 0 <= x' < n && s[..n][x'] == t[x];
  }

  lemma SortingStep<T(!new)>(cmp: (T, T) -> int, s: seq<T>, t: seq<T>, n: nat, hn: nat)
    requires IsOrder(cmp) && Sorting(cmp, s, n, hn) && Extracted(cmp, s, t, hn)
    ensures Sorting(cmp, t, n, hn - 1) && multiset(t) == multiset(s) && t[n..] == s[n..]
  {
    SamePrefixElements(s, t, hn);
    assert forall y :: hn <= y < n ==> t[y] == t[hn..][y - hn] == s[y];
    assert t[n..] == t[hn..][n - hn..] && s[n..] == s[hn..][n - hn..];
    forall x, y | 0 <= x < y < n && hn - 1 <= y ensures cmp(t[x], t[y]) <= 0 {
      if x < hn {
        var x' := FromPrefix(s, t, hn, x);
        if y == hn - 1 {
          RootIsGreatest(cmp, s, hn, x');
        }
      }
    }
  }

  lemma TwoLeft<T(!new)>(cmp: (T, T) -> int, s: seq<T>, n: nat)
    requires IsOrder(cmp) && 2 <= n && Sorting(cmp, s, n, 2)
    ensures Sorted(cmp, Swap(s, 0, 1)[..n]) && Swap(s, 0, 1)[n..] == s[n..]
  {
    var t := Swap(s, 0, 1);
    assert HeapOk(cmp, s, 2, 0);
    OrderAt(cmp, s[0], s[1], s[1]);
    OrderAt(cmp, s[1], s[0], s[0]);
    forall x, y | 0 <= x < y < n ensures cmp(t[..n][x], t[..n][y]) <= 0 {
      if y >= 2 {
        assert t[y] == s[y] && t[x] == s[if x == 0 then 1 else if x == 1 then 0 else x];
      }
    }
  }

  const TWO_31: nat := 0x8000_0000

  lemma Pow31()
    ensures Pow(2, 31) == TWO_31
  {
    assert Pow(2, 7) == 128 && Pow(2, 8) == 256;
    PowAdd(2, 8, 8);
    PowAdd(2, 16, 8);
    PowAdd(2, 24, 7);
  }

  // uls_gauss_log2: the greatest power of two that is not above `n`, and its exponent; 1 and -1 for 0
  method GaussLog2(n: nat) returns (twoExp: nat, log: int)
    requires n < TWO_31
    ensures n == 0 ==> twoExp == 1 && log == -1
    ensures n > 0 ==> log >= 0 && twoExp == Pow(2, log) && twoExp <= n < 2 * twoExp
  {
    var mPrev, m, i: nat := 1, 1, 0;
    Pow31();
    while i < 32 && m <= n
      invariant i <= 31 && m == Pow(2, i)
      invariant i > 0 ==> mPrev == Pow(2, i - 1) && mPrev <= n && m == 2 * mPrev
      invariant i == 0 ==> mPrev == 1
    {
      if i == 31 {
        assert false;
      }
      mPrev := m;
      i, m := i + 1, 2 * m;
    }
    twoExp, log := mPrev, i - 1;
  }

  /** The heap sort's view of an array: `nAry` slots are still in the heap. */
  class HeapArray<T(!new)> {
    const ary: array<T>
    const cmpfunc: (T, T) -> int
    const arySiz: nat
    var nAry: nat

    constructor (ary: array<T>, n: nat, cmpfunc: (T, T) -> int)
      requires n <= ary.Length
      ensures this.ary == ary && this.cmpfunc == cmpfunc && arySiz == nAry == n
    {
      this.ary, this.cmpfunc, this.arySiz, this.nAry := ary, cmpfunc, n, n;
    }

    // downheap_vptr: the child to swap with, or `i0` itself
    method PickChild(i0: nat) returns (k: nat)
      requires i0 < nAry <= ary.Length && IsOrder(cmpfunc)
      ensures k == i0 ==> HeapOk(cmpfunc, ary[..], nAry, i0)
      ensures k != i0 ==> Promotes(cmpfunc, ary[..], nAry, i0, k)
    {
      k := i0;
      var m := ary[i0];
      var left := 2 * i0 + 1;
      if left >= nAry {
        return;
      }
      var m1 := ary[left];
      OrderAt(cmpfunc, m, m1, m1);
      OrderAt(cmpfunc, m1, m, m);
      var right := left + 1;
      if right >= nAry {
        if cmpfunc(m, m1) < 0 {
          k := left;
        }
      } else {
        var m2 := ary[right];
        OrderAt(cmpfunc, m1, m2, m2);
        OrderAt(cmpfunc, m2, m1, m2);
        if cmpfunc(m, m1) < 0 {
          OrderAt(cmpfunc, m, m1, m2);
          OrderAt(cmpfunc, m2, m, m1);
          OrderAt(cmpfunc, m1, m2, m);
          OrderAt(cmpfunc, m, m2, m2);
          if cmpfunc(m1, m2) < 0 {
            k := right;
          } else {
            k := left;
          }
        } else if cmpfunc(m, m2) < 0 {
          OrderAt(cmpfunc, m1, m, m2);
          k := right;
        }
      }
    }

    // downheap_vptr
    method DownHeap(i0: nat)
      requires i0 < nAry <= ary.Length && IsOrder(cmpfunc) && HeapUnder(cmpfunc, ary[..], nAry, i0)
      modifies ary
      ensures Sifted(cmpfunc, old(ary[..]), ary[..], nAry, i0)
      decreases nAry - i0
    {
      ghost var s := ary[..];
      var k := PickChild(i0);
      if k == i0 {
        NothingToSift(cmpfunc, s, nAry, i0);
        return;
      }
      var m := ary[i0];
      ary[i0] := ary[k];
      ary[k] := m;
      assert ary[..] == Swap(s, i0, k);
      SwapKeepsUnder(cmpfunc, s, nAry, i0, k);
      DownHeap(k);
      SiftedOnce(cmpfunc, s, ary[..], nAry, i0, k);
    }

    // extract_top_vptr: sifts with the last element in two places, the heap not yet shortened
    method ExtractTop()
      requires 2 <= nAry <= ary.Length && IsOrder(cmpfunc) && HeapFrom(cmpfunc, ary[..], nAry, 0)
      modifies ary
      ensures Extracted(cmpfunc, old(ary[..]), ary[..], nAry)
    {
      ghost var s0 := ary[..];
      var m := ary[0];
      var n2 := nAry - 1;
      ary[0] := ary[n2];
      ghost var s1 := ary[..];
      assert s1 == s0[0 := s0[n2]];
      TopReplaced(cmpfunc, s0, nAry);
      DownHeap(0);
      ghost var s2 := ary[..];
      ary[n2] := m;
      assert ary[..] == s2[n2 := m];
      TopExtracted(cmpfunc, s0, s2, nAry);
    }

    // the inner loop of build_heaptree_vptr: one level of the tree
    method BuildLevel(twoExp: nat, i2: nat)
      requires nAry <= ary.Length && IsOrder(cmpfunc) && i2 + 1 == 2 * twoExp && 0 < twoExp && i2 <= nAry
      requires HeapFrom(cmpfunc, ary[..], nAry, i2)
      modifies ary
      ensures HeapFrom(cmpfunc, ary[..], nAry, twoExp - 1)
      ensures multiset(ary[..]) == multiset(old(ary[..])) && ary[nAry..] == old(ary[nAry..])
    {
      var j := twoExp - 1;
      while j < i2
        invariant twoExp - 1 <= j <= i2
        invariant LevelDone(cmpfunc, ary[..], nAry, twoExp - 1, j, i2)
        invariant multiset(ary[..]) == multiset(old(ary[..])) && ary[nAry..] == old(ary[nAry..])
      {
        ghost var s := ary[..];
        LevelUnder(cmpfunc, s, nAry, twoExp - 1, j, i2);
        DownHeap(j);
        LevelStep(cmpfunc, s, ary[..], nAry, twoExp - 1, j, i2);
        assert ary[nAry..] == s[nAry..];
        j := j + 1;
      }
    }

    // build_heaptree_vptr
    method Build()
      requires 1 <= nAry <= ary.Length && nAry < TWO_31 && IsOrder(cmpfunc)
      modifies ary
      ensures HeapFrom(cmpfunc, ary[..], nAry, 0)
      ensures multiset(ary[..]) == multiset(old(ary[..])) && ary[nAry..] == old(ary[nAry..])
    {
      var twoExp, log := GaussLog2(nAry);
      ghost var top := log;
      var i2: nat := twoExp - 1;
      twoExp, log := GaussLog2(i2);
      var lvl := log + 1;
      LevelsMatch(nAry, i2, top, twoExp, log);
      LeavesOk(cmpfunc, ary[..], nAry, i2);
      while i2 > 0
        invariant 0 <= i2 <= nAry && HeapFrom(cmpfunc, ary[..], nAry, i2)
        invariant i2 > 0 ==> lvl >= 1 && twoExp == Pow(2, lvl - 1) && i2 + 1 == 2 * twoExp
        invariant multiset(ary[..]) == multiset(old(ary[..])) && ary[nAry..] == old(ary[nAry..])
        decreases i2
      {
        BuildLevel(twoExp, i2);
        i2 := twoExp - 1;
        twoExp := twoExp / 2;
        lvl := lvl - 1;
      }
    }
  }

  lemma TopReplaced<T(!new)>(cmp: (T, T) -> int, s: seq<T>, n: nat)
    requires 2 <= n <= |s| && HeapFrom(cmp, s, n, 0)
    ensures HeapUnder(cmp, s[0 := s[n - 1]], n, 0)
  {
    var t := s[0 := s[n - 1]];
    forall i: nat | 0 < i < n ensures HeapOk(cmp, t, n, i) {
      assert HeapOk(cmp, s, n, i);
    }
  }

  lemma {:induction false} AllBelowRoot(x: nat)
    ensures Below(0, x)
    decreases x
  {
    if x > 0 {
      AllBelowRoot((x - 1) / 2);
    }
  }

  lemma TopCounted<T>(s0: seq<T>, s2: seq<T>, n: nat)
    requires 2 <= n <= |s0| == |s2| && multiset(s2) == multiset(s0[0 := s0[n - 1]]) && s2[n - 1] == s0[n - 1]
    ensures multiset(s2[n - 1 := s0[0]]) == multiset(s0)
  {
    var s1, t := s0[0 := s0[n - 1]], s2[n - 1 := s0[0]];
    assert multiset(s1) == multiset(s0) - multiset{s0[0]} + multiset{s0[n - 1]};
    assert multiset(t) == multiset(s2) - multiset{s0[n - 1]} + multiset{s0[0]};
    assert s0[0] in multiset(s0) && s0[n - 1] in multiset(s1);
  }

  lemma TopExtracted<T(!new)>(cmp: (T, T) -> int, s0: seq<T>, s2: seq<T>, n: nat)
    requires 2 <= n <= |s0| && Sifted(cmp, s0[0 := s0[n - 1]], s2, n, 0)
    ensures Extracted(cmp, s0, s2[n - 1 := s0[0]], n)
  {
    var s1, t := s0[0 := s0[n - 1]], s2[n - 1 := s0[0]];
    assert s2[n - 1] == s1[n - 1] == s1[0];
    var shorter: nat := n - 1;
    forall i: nat | i < shorter ensures HeapOk(cmp, t, shorter, i) {
      AllBelowRoot(i);
      assert HeapOk(cmp, s2, n, i);
    }
    TopCounted(s0, s2, n);
    assert t[n..] == s0[n..];
  }

  /** Between `lo` and `i2` a level is done up to `j`; below it the tree is in order. */
  ghost predicate LevelDone<T(!new)>(cmp: (T, T) -> int, s: seq<T>, n: nat, lo: nat, j: nat, i2: nat) {
    && i2 <= n <= |s|
    && forall i :: 0 <= i < n && (lo <= i < j || i2 <= i) ==> HeapOk(cmp, s, n, i)
  }

  lemma LevelUnder<T(!new)>(cmp: (T, T) -> int, s: seq<T>, n: nat, lo: nat, j: nat, i2: nat)
    requires LevelDone(cmp, s, n, lo, j, i2) && i2 == 2 * lo + 1 && lo <= j < i2
    ensures HeapUnder(cmp, s, n, j)
  {
    forall i | 0 <= i < n && Below(j, i) && i != j ensures HeapOk(cmp, s, n, i) {
      BelowSplit(j, i);
    }
  }

  lemma LevelStep<T(!new)>(cmp: (T, T) -> int, s: seq<T>, t: seq<T>, n: nat, lo: nat, j: nat, i2: nat)
    requires LevelDone(cmp, s, n, lo, j, i2) && i2 == 2 * lo + 1 && lo <= j < i2
    requires Sifted(cmp, s, t, n, j)
    ensures LevelDone(cmp, t, n, lo, j + 1, i2)
  {
    forall i | 0 <= i < n && (lo <= i < j + 1 || i2 <= i) ensures HeapOk(cmp, t, n, i) {
      if !Below(j, i) {
        assert i != j && HeapOk(cmp, s, n, i);
        forall c: nat | c < n && (c == 2 * i + 1 || c == 2 * i + 2) ensures t[c] == s[c] {
          assert (c - 1) / 2 == i && c != j && !Below(j, c);
        }
      }
    }
  }

  lemma LevelsMatch(n: nat, i2: nat, top: int, twoExp: nat, log: int)
    requires n >= 1 && top >= 0 && i2 + 1 == Pow(2, top) <= n < 2 * (i2 + 1)
    requires i2 == 0 ==> twoExp == 1 && log == -1
    requires i2 > 0 ==> log >= 0 && twoExp == Pow(2, log) && twoExp <= i2 < 2 * twoExp
    ensures i2 > 0 ==> i2 + 1 == 2 * twoExp
  {
    if i2 > 0 {
      if top <= log {
        PowMonotone(2, 2, top, log);
      } else {
        PowMonotone(2, 2, log + 1, top);
        assert Pow(2, log + 1) == 2 * Pow(2, log);
        if top > log + 1 {
          PowMonotone(2, 2, log + 2, top);
          assert Pow(2, log + 2) == 2 * Pow(2, log + 1);
        }
      }
    }
  }

  lemma LeavesOk<T(!new)>(cmp: (T, T) -> int, s: seq<T>, n: nat, i2: nat)
    requires n <= |s| && n < 2 * (i2 + 1)
    ensures HeapFrom(cmp, s, n, i2)
  {}

  // uls_quick_sort_vptr
  method QuickSortVptr<T(!new)>(ary: array<T>, n: nat, cmpfunc: (T, T) -> int)
    requires n <= ary.Length && n < TWO_31 && IsOrder(cmpfunc)
    modifies ary
    ensures Sorted(cmpfunc, ary[..n])
    ensures multiset(ary[..n]) == multiset(old(ary[..n])) && ary[n..] == old(ary[n..])
  {
    if n <= 1 {
      return;
    }
    ghost var was := ary[..];
    var heapArray := new HeapArray(ary, n, cmpfunc);
    heapArray.Build();
    SortDown(heapArray);
    ghost var s := ary[..];
    TwoLeft(cmpfunc, s, n);
    var m := ary[0];
    ary[0] := ary[1];
    ary[1] := m;
    assert ary[..] == Swap(s, 0, 1);
    SamePrefixElements(was, ary[..], n);
    heapArray.nAry := heapArray.arySiz;
  }

  // the loop of uls_quick_sort_vptr
  method SortDown<T(!new)>(heapArray: HeapArray<T>)
    requires 2 <= heapArray.nAry <= heapArray.ary.Length && IsOrder(heapArray.cmpfunc)
    requires HeapFrom(heapArray.cmpfunc, heapArray.ary[..], heapArray.nAry, 0)
    modifies heapArray, heapArray.ary
    ensures Sorting(heapArray.cmpfunc, heapArray.ary[..], old(heapArray.nAry), 2)
    ensures multiset(heapArray.ary[..]) == multiset(old(heapArray.ary[..]))
    ensures heapArray.ary[old(heapArray.nAry)..] == old(heapArray.ary[heapArray.nAry..])
  {
    ghost var n := heapArray.nAry;
    while heapArray.nAry > 2
      invariant 2 <= heapArray.nAry <= n && Sorting(heapArray.cmpfunc, heapArray.ary[..], n, heapArray.nAry)
      invariant multiset(heapArray.ary[..]) == multiset(old(heapArray.ary[..]))
      invariant heapArray.ary[n..] == old(heapArray.ary[n..])
      decreases heapArray.nAry
    {
      ghost var s := heapArray.ary[..];
      heapArray.ExtractTop();
      SortingStep(heapArray.cmpfunc, s, heapArray.ary[..], n, heapArray.nAry);
      heapArray.nAry := heapArray.nAry - 1;
    }
  }

  // ---------- binary search ----------

  /** The elements before the key, the elements equal to it, the elements behind it, in this order. */
  ghost predicate Monotone<T>(s: seq<T>, position: T -> int) {
    forall i, j :: 0 <= i < j < |s| ==>
      (position(s[j]) < 0 ==> position(s[i]) < 0) && (position(s[i]) > 0 ==> position(s[j]) > 0)
  }

  // uls_bi_search_vptr: an index that holds the key, or -1
  method BiSearchVptr<T(!new)>(ary: seq<T>, position: T -> int) returns (at: int)
    requires Monotone(ary, position)
    ensures at == -1 || (0 <= at < |ary| && position(ary[at]) == 0)
    ensures at == -1 <==> forall i :: 0 <= i < |ary| ==> position(ary[i]) != 0
  {
    var low, high := 0, |ary| - 1;
    while low <= high
      invariant 0 <= low <= high + 1 <= |ary|
      invariant forall i :: 0 <= i < low ==> position(ary[i]) < 0
      invariant forall i :: high < i < |ary| ==> position(ary[i]) > 0
    {
      var mid := (low + high) / 2;
      var cond := position(ary[mid]);
      if cond < 0 {
        low := mid + 1;
      } else if cond > 0 {
        high := mid - 1;
      } else {
        return mid;
      }
    }
    at := -1;
  }
}
