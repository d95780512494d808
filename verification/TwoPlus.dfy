/** Punctuation tokens of several characters, and the longest one at the front of a line (src/twoplus.c). */
module TwoPlus {
  import opened Bytes
  import opened HeapSort
  import opened Utf8

  const WMAXLEN: nat := 15 // ULS_TWOPLUS_WMAXLEN == ULS_KWTABLE_TWOPLUS_SIZE
  const SYNTAX_TABLE_SIZE: nat := 128
  const CH_2PLUS: nat := 0x04

  datatype Option<T> = None | Some(value: T)

  /** A token definition: the keyword, the number of its characters, and the token it stands for. */
  datatype Tokdef = Tokdef(keyword: seq<Byte>, wlenKeyword: nat, view: int)

  // ---------- the two orders ----------

  // uls_strcmp, of strings without their terminators
  function StrCmp(a: seq<Byte>, b: seq<Byte>): int
    decreases |a|
  {
    var ch1 := if a == [] then NUL else a[0];
    var ch2 := if b == [] then NUL else b[0];
    if ch1 != ch2 then ch1 - ch2
    else if ch1 == NUL then 0
    else StrCmp(a[1..], b[1..])
  }

  /** The order of two texts is that of the first characters in which they differ, as C compares strings. */
  lemma {:induction false} StrCmpAt(a: seq<Byte>, b: seq<Byte>, i: nat)
    requires i <= |a| && i <= |b| && a[..i] == b[..i] && 0 !in a[..i]
    ensures i < |a| && i < |b| && a[i] != b[i] ==> StrCmp(a, b) == (a[i] as int) - b[i]
    ensures i == |a| < |b| && b[i] != 0 ==> StrCmp(a, b) == -(b[i] as int)
    ensures i == |b| < |a| && a[i] != 0 ==> StrCmp(a, b) == a[i] as int
    ensures i == |a| == |b| ==> StrCmp(a, b) == 0
    decreases i
  {
    if i > 0 {
      assert a[..i][0] == a[0] == b[..i][0] == b[0] && a[1..][..i - 1] == a[..i][1..] == b[1..][..i - 1];
      StrCmpAt(a[1..], b[1..], i - 1);
    }
  }

  // cmp_twoplus_by_length: the longest first
  function CmpByLength(e1: Tokdef, e2: Tokdef): (r: int)
    ensures r < 0 <==> e1.wlenKeyword > e2.wlenKeyword
    ensures r > 0 <==> e1.wlenKeyword < e2.wlenKeyword
  {
    if e1.wlenKeyword < e2.wlenKeyword then 1
    else if e1.wlenKeyword > e2.wlenKeyword then -1
    else 0
  }

  // cmp_twoplus_vx_by_keyword
  function CmpByKeyword(e1: Tokdef, e2: Tokdef): int {
    StrCmp(e1.keyword, e2.keyword)
  }

  lemma {:induction false} StrCmpFlips(a: seq<Byte>, b: seq<Byte>)
    ensures StrCmp(a, b) < 0 <==> StrCmp(b, a) > 0
    decreases |a|
  {
    if a != [] && b != [] && a[0] == b[0] {
      StrCmpFlips(a[1..], b[1..]);
    }
  }

  lemma {:induction false} StrCmpTransitive(a: seq<Byte>, b: seq<Byte>, c: seq<Byte>)
    requires StrCmp(a, b) <= 0 && StrCmp(b, c) <= 0
    ensures StrCmp(a, c) <= 0
    decreases |a|
  {
    if a != [] && b != [] && c != [] && a[0] == b[0] == c[0] != NUL {
      StrCmpTransitive(a[1..], b[1..], c[1..]);
    }
  }

  lemma LengthIsOrder()
    ensures IsOrder(CmpByLength)
  {
    forall x, y ensures Antisymmetric(CmpByLength, x, y) {}
    forall x, y, z ensures Transitive(CmpByLength, x, y, z) {}
  }

  lemma KeywordIsOrder()
    ensures IsOrder(CmpByKeyword)
  {
    forall x: Tokdef, y: Tokdef ensures Antisymmetric(CmpByKeyword, x, y) {
      StrCmpFlips(x.keyword, y.keyword);
    }
    forall x: Tokdef, y: Tokdef, z: Tokdef ensures Transitive(CmpByKeyword, x, y, z) {
      if CmpByKeyword(x, y) <= 0 && CmpByKeyword(y, z) <= 0 {
        StrCmpTransitive(x.keyword, y.keyword, z.keyword);
      }
    }
  }

  // ---------- searching one table by prefix ----------

  /** Keywords of `w` characters, well formed and without a terminator. */
  ghost predicate OfLength(s: seq<Tokdef>, w: nat) {
    forall i :: 0 <= i < |s| ==> WellFormed(s[i].keyword) && NumWchars(s[i].keyword) == w && NUL !in s[i].keyword
  }

  // the comparison inside __twoplus_bi_search: 0 when the keyword is a prefix of the line
  method PrefixCmp(line: seq<Byte>, keyword: seq<Byte>) returns (cmp: int, ghost at: nat)
    requires IsLine(line) && NUL !in keyword
    ensures cmp == 0 <==> keyword <= line
    ensures cmp != 0 ==> Differs(line, keyword, at) && (cmp < 0 <==> line[at] < keyword[at])
  {
    cmp := 0;
    at := 0;
    var k: nat := 0;
    while k < |keyword|
      invariant k <= |keyword| && k < |line| && line[..k] == keyword[..k] && at == k && cmp == 0
    {
      if line[k] != keyword[k] {
        cmp := (line[k] as int) - keyword[k];
        return;
      }
      assert keyword[k] in keyword && line[k] != NUL;
      k := k + 1;
      at := k;
    }
    assert keyword[..k] == keyword;
  }

  /** The first place where a keyword and the line are different. */
  ghost predicate Differs(line: seq<Byte>, keyword: seq<Byte>, at: nat) {
    at < |line| && at < |keyword| && line[..at] == keyword[..at] && line[at] != keyword[at]
  }

  /** A text that first differs from another by a smaller character is smaller. */
  lemma {:induction false} FirstDifferenceDecides(a: seq<Byte>, b: seq<Byte>, at: nat)
    requires at < |a| && at < |b| && a[..at] == b[..at] && a[at] != b[at] && NUL !in b
    ensures StrCmp(a, b) < 0 <==> a[at] < b[at]
    decreases at
  {
    assert b[at] in b;
    if at > 0 {
      assert a[0] == a[..at][0] == b[..at][0] == b[0] && b[0] in b;
      assert a[1..][..at - 1] == a[..at][1..] && b[1..][..at - 1] == b[..at][1..];
      FirstDifferenceDecides(a[1..], b[1..], at - 1);
    }
  }

  /** Where the line is smaller than a keyword, no later keyword is a prefix of the line. */
  lemma NoneAbove(line: seq<Byte>, mid: seq<Byte>, later: seq<Byte>, at: nat)
    requires Differs(line, mid, at) && line[at] < mid[at]
    requires StrCmp(mid, later) <= 0 && NUL !in mid && NUL !in later
    ensures !(later <= line)
  {
    if later <= line {
      StrCmpFlips(later, mid);
      if |later| > at {
        assert later[at] == line[at] && later[..at] == line[..at];
        FirstDifferenceDecides(later, mid, at);
      } else {
        assert later == line[..|later|] == line[..at][..|later|] == mid[..at][..|later|];
        assert |later| <= at < |mid| && later == mid[..|later|];
        ProperPrefixIsSmaller(later, mid);
      }
    }
  }

  lemma {:induction false} ProperPrefixIsSmaller(a: seq<Byte>, b: seq<Byte>)
    requires a < b && NUL !in b
    ensures StrCmp(a, b) < 0
    decreases |a|
  {
    assert b[0] in b;
    if a != [] {
      assert a[1..] < b[1..];
      ProperPrefixIsSmaller(a[1..], b[1..]);
    }
  }

  /** Where the line is greater than a keyword, no earlier keyword of equal width is a prefix of the line. */
  lemma NoneBelow(line: seq<Byte>, mid: seq<Byte>, earlier: seq<Byte>, at: nat)
    requires Differs(line, mid, at) && line[at] > mid[at]
    requires StrCmp(earlier, mid) <= 0 && NUL !in mid && NUL !in earlier
    requires WellFormed(earlier) && WellFormed(mid) && NumWchars(earlier) == NumWchars(mid)
    ensures !(earlier <= line)
  {
    if earlier <= line {
      if |earlier| > at {
        assert earlier[at] == line[at] && earlier[..at] == line[..at];
        StrCmpFlips(mid, earlier);
        FirstDifferenceDecides(mid, earlier, at);
      } else {
        assert earlier == line[..|earlier|] == line[..at][..|earlier|] == mid[..at][..|earlier|];
        PrefixHasFewerChars(earlier, mid);
      }
    }
  }

  // __twoplus_bi_search
  method TwoplusBiSearch(line: seq<Byte>, ary: seq<Tokdef>, ghost w: nat) returns (e: Option<Tokdef>)
    requires IsLine(line) && OfLength(ary, w) && Sorted(CmpByKeyword, ary)
    ensures e.Some? ==> e.value in ary && e.value.keyword <= line
    ensures e.None? <==> forall i :: 0 <= i < |ary| ==> !(ary[i].keyword <= line)
  {
    var low, high := 0, |ary| - 1;
    while low <= high
      invariant 0 <= low <= high + 1 <= |ary|
      invariant forall i :: 0 <= i < low || high < i < |ary| ==> !(ary[i].keyword <= line)
    {
      var mid := (low + high) / 2;
      var cmp, at := PrefixCmp(line, ary[mid].keyword);
      if cmp < 0 {
        forall i | mid < i < |ary| ensures !(ary[i].keyword <= line) {
          assert CmpByKeyword(ary[mid], ary[i]) <= 0;
          NoneAbove(line, ary[mid].keyword, ary[i].keyword, at);
        }
        high := mid - 1;
      } else if cmp > 0 {
        forall i | 0 <= i < mid ensures !(ary[i].keyword <= line) {
          assert CmpByKeyword(ary[i], ary[mid]) <= 0;
          NoneBelow(line, ary[mid].keyword, ary[i].keyword, at);
        }
        low := mid + 1;
      } else {
        return Some(ary[mid]);
      }
    }
    e := None;
  }

  // ---------- the tables and their chain ----------

  class TwoplusTree {
    var wlenKeyw: nat
    var sorted: seq<Tokdef>
    var prev: TwoplusTree?

    // uls_init_2char_tree
    constructor ()
      ensures wlenKeyw == 0 && sorted == [] && prev == null
    {
      wlenKeyw, sorted, prev := 0, [], null;
    }
  }

  /** What a tree holds: the keywords of `i + 1` characters, each as often as in the pool, in order. */
  ghost predicate Holds(sorted: seq<Tokdef>, wlen: nat, i: nat, pool: seq<Tokdef>) {
    && Sorted(CmpByKeyword, sorted)
    && (forall e :: multiset(sorted)[e] == if e.wlenKeyword == i + 1 then multiset(pool)[e] else 0)
    && wlen == if sorted == [] then 0 else i + 1
  }

  /** The greatest index below `i` of a tree that is not empty, or -1. */
  ghost function NearestBelow(lens: seq<nat>, i: nat): (k: int)
    requires i <= |lens|
    ensures -1 <= k < i
  {
    if i == 0 then -1 else if lens[i - 1] > 0 then i - 1 else NearestBelow(lens, i - 1)
  }

  ghost predicate IsNearest(lens: seq<nat>, i: nat, k: int)
    requires i <= |lens|
  {
    -1 <= k < i && (k >= 0 ==> lens[k] > 0) && forall j :: k < j < i ==> lens[j] == 0
  }

  lemma {:induction false} NearestIff(lens: seq<nat>, i: nat, k: int)
    requires i <= |lens|
    ensures IsNearest(lens, i, k) <==> k == NearestBelow(lens, i)
    decreases i
  {
    if i > 0 && lens[i - 1] == 0 {
      NearestIff(lens, i - 1, k);
    }
  }

  /** `pool` in descending order of length: the part of one length stands together. */
  lemma GroupCounts(pool: seq<Tokdef>, i0: nat, i: nat, w: nat, e: Tokdef)
    requires i0 <= i <= |pool| && Sorted(CmpByLength, pool)
    requires forall j :: i0 <= j < i ==> pool[j].wlenKeyword == w
    requires forall j :: 0 <= j < i0 ==> pool[j].wlenKeyword > w
    requires forall j :: i <= j < |pool| ==> pool[j].wlenKeyword < w
    ensures multiset(pool[i0..i])[e] == if e.wlenKeyword == w then multiset(pool)[e] else 0
  {
    var a, b, c := pool[..i0], pool[i0..i], pool[i..];
    assert pool == (a + b) + c;
    ThreeParts(a, b, c, e);
    if e.wlenKeyword == w {
      NotThere(a, e);
      NotThere(c, e);
    } else {
      NotThere(b, e);
    }
  }

  lemma ThreeParts(a: seq<Tokdef>, b: seq<Tokdef>, c: seq<Tokdef>, e: Tokdef)
    ensures multiset((a + b) + c)[e] == multiset(a)[e] + multiset(b)[e] + multiset(c)[e]
  {}

  lemma NotThere(s: seq<Tokdef>, e: Tokdef)
    requires forall j :: 0 <= j < |s| ==> s[j].wlenKeyword != e.wlenKeyword
    ensures multiset(s)[e] == 0
  {
    assert e !in s;
  }

  /** `p` is the tree of index `k`, or nil for -1. */
  ghost predicate At(trees: seq<TwoplusTree>, p: TwoplusTree?, k: int)
    requires k < |trees|
  {
    if k < 0 then p == null else p == trees[k]
  }

  lemma EmptyHolds(pool: seq<Tokdef>, i: nat, j: nat)
    requires i <= |pool| && Sorted(CmpByLength, pool)
    requires forall x :: 0 <= x < i ==> pool[x].wlenKeyword > j + 1
    requires forall x :: i <= x < |pool| ==> pool[x].wlenKeyword < j + 1
    ensures Holds([], 0, j, pool)
  {
    var none: seq<Tokdef> := [];
    forall e: Tokdef ensures multiset(none)[e] == if e.wlenKeyword == j + 1 then multiset(pool)[e] else 0 {
      GroupCounts(pool, i, i, j + 1, e);
      assert pool[i..i] == [];
    }
  }

  lemma GroupHolds(pool: seq<Tokdef>, i0: nat, i: nat, w: nat, sorted: seq<Tokdef>)
    requires i0 < i <= |pool| && Sorted(CmpByLength, pool) && w >= 1
    requires forall j :: i0 <= j < i ==> pool[j].wlenKeyword == w
    requires forall j :: 0 <= j < i0 ==> pool[j].wlenKeyword > w
    requires forall j :: i <= j < |pool| ==> pool[j].wlenKeyword < w
    requires multiset(sorted) == multiset(pool[i0..i]) && Sorted(CmpByKeyword, sorted)
    ensures Holds(sorted, w, w - 1, pool)
  {
    forall e: Tokdef ensures multiset(sorted)[e] == if e.wlenKeyword == w then multiset(pool)[e] else 0 {
      GroupCounts(pool, i0, i, w, e);
    }
    assert pool[i0] in pool[i0..i] && pool[i0] in multiset(sorted);
  }

  lemma HoldsPermuted(sorted: seq<Tokdef>, wlen: nat, i: nat, pool: seq<Tokdef>, pool': seq<Tokdef>)
    requires Holds(sorted, wlen, i, pool) && multiset(pool) == multiset(pool')
    ensures Holds(sorted, wlen, i, pool')
  {}

  /** A new shortest length changes the nearest one only where there was none. */
  lemma NearestExtended(lens: seq<nat>, lo: nat, m: nat, w: nat, j: nat)
    requires m < lo <= |lens| && j <= |lens| && w > 0 && (lo < |lens| ==> lens[lo] > 0)
    requires forall x :: 0 <= x < lo ==> lens[x] == 0
    ensures lo < j ==> NearestBelow(lens[m := w], j) == NearestBelow(lens, j) >= lo
    ensures m < j <= lo ==> NearestBelow(lens[m := w], j) == m
    ensures j <= m ==> NearestBelow(lens[m := w], j) == -1
  {
    var lens' := lens[m := w];
    var k := NearestBelow(lens, j);
    NearestIff(lens, j, k);
    var k' := if lo < j then k else if m < j then m else -1;
    assert IsNearest(lens', j, k');
    NearestIff(lens', j, k');
  }

  // distribute_twoplus_toks: one group goes into its tree
  method FillTree(tree: TwoplusTree, slots: array<Tokdef>, i0: nat, i: nat, w: nat)
    requires i0 < i <= slots.Length < TWO_31
    modifies tree`sorted, tree`wlenKeyw
    ensures tree.wlenKeyw == w
    ensures multiset(tree.sorted) == multiset(slots[i0..i]) && Sorted(CmpByKeyword, tree.sorted)
  {
    tree.wlenKeyw := w;
    var n := i - i0;
    var slotsTp := new Tokdef[n];
    for j := 0 to n
      invariant slotsTp[..j] == slots[i0..i0 + j]
      modifies slotsTp
    {
      slotsTp[j] := slots[i0 + j];
    }
    KeywordIsOrder();
    assert slotsTp[..] == slotsTp[..n] == slots[i0..i];
    QuickSortVptr(slotsTp, n, CmpByKeyword);
    assert slotsTp[..] == slotsTp[..n];
    tree.sorted := slotsTp[..];
  }

  // distribute_twoplus_toks: where the keywords of one length end
  method GroupEnd(slots: array<Tokdef>, i0: nat) returns (i: nat)
    requires i0 < slots.Length && Sorted(CmpByLength, slots[..])
    ensures i0 < i <= slots.Length
    ensures forall j :: i0 <= j < i ==> slots[j].wlenKeyword == slots[i0].wlenKeyword
    ensures forall j :: i <= j < slots.Length ==> slots[j].wlenKeyword < slots[i0].wlenKeyword
  {
    i := i0 + 1;
    while i < slots.Length && slots[i].wlenKeyword == slots[i0].wlenKeyword
      invariant i0 < i <= slots.Length
      invariant forall j :: i0 <= j < i ==> slots[j].wlenKeyword == slots[i0].wlenKeyword
    {
      i := i + 1;
    }
    forall j | i <= j < slots.Length ensures slots[j].wlenKeyword < slots[i0].wlenKeyword {
      assert CmpByLength(slots[..][i0], slots[..][i]) <= 0;
      assert j > i ==> CmpByLength(slots[..][i], slots[..][j]) <= 0;
    }
  }

  /** The trees from index `lo` on hold their keywords; the shorter ones are empty. */
  ghost predicate Contents(pool: seq<Tokdef>, lo: nat, lens: seq<nat>, sorteds: seq<seq<Tokdef>>) {
    && |lens| == |sorteds| == WMAXLEN && lo <= WMAXLEN
    && (forall j :: 0 <= j < lo ==> lens[j] == 0 && sorteds[j] == [])
    && (forall j :: lo <= j < WMAXLEN ==> Holds(sorteds[j], lens[j], j, pool))
  }

  /** From `head` and from every tree that is not empty the chain leads to the next shorter one. */
  ghost predicate Chain(trees: seq<TwoplusTree>, head: TwoplusTree?, lens: seq<nat>, prevs: seq<TwoplusTree?>) {
    && |trees| == |lens| == |prevs| == WMAXLEN
    && (forall j {:trigger prevs[j]} :: 0 <= j < WMAXLEN && lens[j] > 0 ==> At(trees, prevs[j], NearestBelow(lens, j)))
    && At(trees, head, NearestBelow(lens, WMAXLEN))
  }

  /** The chain ends in `tail`, at index `lo`. */
  ghost predicate Chained(trees: seq<TwoplusTree>, lo: nat, head: TwoplusTree?, tail: TwoplusTree?,
                          lens: seq<nat>, prevs: seq<TwoplusTree?>) {
    && Chain(trees, head, lens, prevs) && lo <= WMAXLEN
    && (forall j :: 0 <= j < lo ==> lens[j] == 0)
    && (if lo == WMAXLEN then tail == null else tail == trees[lo] && lens[lo] > 0)
  }

  lemma ContentsStep(pool: seq<Tokdef>, lo: nat, lens: seq<nat>, sorteds: seq<seq<Tokdef>>,
                     i0: nat, i: nat, sorted: seq<Tokdef>)
    requires Contents(pool, lo, lens, sorteds) && IsGroup(pool, lo, i0, i)
    requires multiset(sorted) == multiset(pool[i0..i]) && Sorted(CmpByKeyword, sorted)
    ensures var w := pool[i0].wlenKeyword;
            Contents(pool, w - 1, lens[w - 1 := w], sorteds[w - 1 := sorted])
  {
    var w := pool[i0].wlenKeyword;
    GroupHolds(pool, i0, i, w, sorted);
    forall j: nat | w <= j < lo ensures Holds([], 0, j, pool) {
      EmptyHolds(pool, i0, j);
    }
  }

  ghost function Linked(trees: seq<TwoplusTree>, lo: nat, m: nat, prevs: seq<TwoplusTree?>): (r: seq<TwoplusTree?>)
    requires |trees| == |prevs| == WMAXLEN && m < lo <= WMAXLEN
    ensures |r| == WMAXLEN
  {
    var prevs1 := prevs[m := null];
    if lo < WMAXLEN then prevs1[lo := trees[m]] else prevs1
  }

  /** A tree joins the chain at its end. */
  lemma ChainStep(trees: seq<TwoplusTree>, lo: nat, head: TwoplusTree?, tail: TwoplusTree?, lens: seq<nat>,
                  prevs: seq<TwoplusTree?>, m: nat)
    requires Chained(trees, lo, head, tail, lens, prevs) && m < lo
    ensures Chained(trees, m, if lo < WMAXLEN then head else trees[m], trees[m],
                    lens[m := m + 1], Linked(trees, lo, m, prevs))
  {
    var lens', prevs' := lens[m := m + 1], Linked(trees, lo, m, prevs);
    NearestExtended(lens, lo, m, m + 1, WMAXLEN);
    forall j: nat | j < WMAXLEN && lens'[j] > 0 ensures At(trees, prevs'[j], NearestBelow(lens', j)) {
      NearestExtended(lens, lo, m, m + 1, j);
      assert j == m || j == lo || (j > lo && prevs'[j] == prevs[j]);
    }
  }

  class KwtableTwoplus {
    const trees: seq<TwoplusTree>
    const mempool: array<Tokdef>
    var start: TwoplusTree?

    ghost predicate Shape()
    {
      && |trees| == WMAXLEN
      && (forall i, j :: 0 <= i < j < |trees| ==> trees[i] != trees[j])
    }

    ghost function Lens(): (s: seq<nat>)
      reads trees
      ensures |s| == |trees| && forall i :: 0 <= i < |s| ==> s[i] == trees[i].wlenKeyw
    {
      seq(|trees|, i requires 0 <= i < |trees| reads trees => trees[i].wlenKeyw)
    }

    ghost function Prevs(): (s: seq<TwoplusTree?>)
      reads trees
      ensures |s| == |trees| && forall i :: 0 <= i < |s| ==> s[i] == trees[i].prev
    {
      seq(|trees|, i requires 0 <= i < |trees| reads trees => trees[i].prev)
    }

    ghost function Sorteds(): (s: seq<seq<Tokdef>>)
      reads trees
      ensures |s| == |trees| && forall i :: 0 <= i < |s| ==> s[i] == trees[i].sorted
    {
      seq(|trees|, i requires 0 <= i < |trees| reads trees => trees[i].sorted)
    }

    /** After uls_init_2char_table: nothing is distributed yet. */
    ghost predicate Initial()
      reads this, trees
    {
      && Shape() && start == null
      && forall i :: 0 <= i < |trees| ==> trees[i].wlenKeyw == 0 && trees[i].prev == null && trees[i].sorted == []
    }

    ghost predicate Filled(pool: seq<Tokdef>, lo: nat, head: TwoplusTree?, tail: TwoplusTree?)
      reads trees
    {
      && Shape() && Contents(pool, lo, Lens(), Sorteds())
      && Chained(trees, lo, head, tail, Lens(), Prevs())
    }

    /** Every tree holds the keywords of its length, `prev` leads to the next shorter ones, `start` to the longest. */
    ghost predicate Distributed(pool: seq<Tokdef>)
      reads this, trees
    {
      && Shape() && Contents(pool, 0, Lens(), Sorteds()) && Chain(trees, start, Lens(), Prevs())
      && Fallbacks(trees, WMAXLEN, Lens(), Prevs())
    }

    // uls_init_2char_table, with the keywords already in the pool
    constructor (mempool: array<Tokdef>)
      ensures Initial() && this.mempool == mempool && fresh(trees) && |trees| == 15
    {
      this.mempool := mempool;
      var ts: seq<TwoplusTree> := [];
      for i := 0 to WMAXLEN
        invariant |ts| == i && fresh(ts) && (forall x, y :: 0 <= x < y < i ==> ts[x] != ts[y])
        invariant forall x :: 0 <= x < i ==> ts[x].wlenKeyw == 0 && ts[x].prev == null && ts[x].sorted == []
      {
        var tree := new TwoplusTree();
        ts := ts + [tree];
      }
      trees, start := ts, null;
    }

    // distribute_twoplus_toks: the group from `i0` to `i` goes into the tree of its length
    method FillGroup(i0: nat, i: nat) returns (ghost sorted: seq<Tokdef>)
      requires i0 < i <= mempool.Length < TWO_31 && Shape()
      requires 1 <= mempool[i0].wlenKeyword <= WMAXLEN
      modifies trees
      ensures var m := mempool[i0].wlenKeyword - 1;
              && Lens() == old(Lens())[m := m + 1] && Prevs() == old(Prevs())
              && Sorteds() == old(Sorteds())[m := sorted]
      ensures multiset(sorted) == multiset(mempool[i0..i]) && Sorted(CmpByKeyword, sorted)
      ensures mempool[..] == old(mempool[..])
    {
      var w := mempool[i0].wlenKeyword;
      FillTree(trees[w - 1], mempool, i0, i, w);
      sorted := trees[w - 1].sorted;
    }

    // distribute_twoplus_toks: the tree of index `m` becomes the new end of the list
    method LinkTree(m: nat, tail: TwoplusTree?, ghost lo: nat)
      requires m < lo <= WMAXLEN && Shape()
      requires if lo == WMAXLEN then tail == null else tail == trees[lo]
      modifies trees
      ensures Lens() == old(Lens()) && Sorteds() == old(Sorteds()) && mempool[..] == old(mempool[..])
      ensures Prevs() == Linked(trees, lo, m, old(Prevs()))
    {
      trees[m].prev := null;
      if tail != null {
        tail.prev := trees[m];
      }
    }

    method LinkGroup(i0: nat, i: nat, tail: TwoplusTree?, ghost lo: nat) returns (ghost sorted: seq<Tokdef>)
      requires i0 < i <= mempool.Length < TWO_31 && Shape()
      requires 1 <= mempool[i0].wlenKeyword <= lo <= WMAXLEN
      requires if lo == WMAXLEN then tail == null else tail == trees[lo]
      modifies trees
      ensures var m := mempool[i0].wlenKeyword - 1;
              && Lens() == old(Lens())[m := m + 1] && Prevs() == Linked(trees, lo, m, old(Prevs()))
              && Sorteds() == old(Sorteds())[m := sorted]
      ensures multiset(sorted) == multiset(mempool[..][i0..i]) && Sorted(CmpByKeyword, sorted)
      ensures mempool[..] == old(mempool[..])
    {
      sorted := FillGroup(i0, i);
      assert mempool[i0..i] == mempool[..][i0..i];
      LinkTree(mempool[i0].wlenKeyword - 1, tail, lo);
    }

    method AddGroup(ghost pool: seq<Tokdef>, i0: nat, i: nat, ghost lo: nat, head: TwoplusTree?, tail: TwoplusTree?)
      returns (head': TwoplusTree?, tail': TwoplusTree?, ghost lo': nat)
      requires mempool[..] == pool && mempool.Length < TWO_31 && IsGroup(pool, lo, i0, i)
      requires Filled(pool, lo, head, tail)
      modifies trees
      ensures mempool[..] == pool && lo' == pool[i0].wlenKeyword - 1 && Filled(pool, lo', head', tail')
    {
      ghost var lens, sorteds, prevs := Lens(), Sorteds(), Prevs();
      assert mempool[i0] == pool[i0];
      var m: nat := mempool[i0].wlenKeyword - 1;
      lo' := m;
      ghost var sorted := LinkGroup(i0, i, tail, lo);
      head', tail' := if tail != null then head else trees[m], trees[m];
      GroupFilled(this, pool, lo, head, tail, lens, sorteds, prevs, i0, i, lo', sorted, head', tail');
    }

    // distribute_twoplus_toks: one round of the group loop
    method NextGroup(ghost pool: seq<Tokdef>, i0: nat, ghost lo: nat, head: TwoplusTree?, tail: TwoplusTree?)
      returns (i: nat, head': TwoplusTree?, tail': TwoplusTree?, ghost lo': nat)
      requires mempool[..] == pool && i0 < mempool.Length < TWO_31 && Sorted(CmpByLength, pool)
      requires GroupsDone(pool, lo, i0) && Filled(pool, lo, head, tail)
      modifies trees
      ensures mempool[..] == pool && i0 < i && GroupsDone(pool, lo', i) && Filled(pool, lo', head', tail')
    {
      i := GroupEnd(mempool, i0);
      GroupFound(pool, lo, i0, i);
      head', tail', lo' := AddGroup(pool, i0, i, lo, head, tail);
    }

    // distribute_twoplus_toks: all groups, the longest first
    method AddGroups(ghost pool: seq<Tokdef>, ghost lo0: nat) returns (head: TwoplusTree?)
      requires mempool[..] == pool && mempool.Length < TWO_31 && Sorted(CmpByLength, pool)
      requires lo0 == WMAXLEN && Filled(pool, lo0, null, null) && GroupsDone(pool, lo0, 0)
      modifies trees
      ensures Contents(pool, 0, Lens(), Sorteds()) && Chain(trees, head, Lens(), Prevs()) && mempool[..] == pool
    {
      var tail: TwoplusTree?;
      head, tail := null, null;
      var i: nat := 0;
      ghost var lo: nat := lo0;
      while i < mempool.Length
        invariant i <= mempool.Length && mempool[..] == pool
        invariant Filled(pool, lo, head, tail) && GroupsDone(pool, lo, i)
      {
        i, head, tail, lo := NextGroup(pool, i, lo, head, tail);
      }
      AllGroupsDone(pool, lo, Lens(), Sorteds());
    }

    // distribute_twoplus_toks: one round of the last loop
    method LinkIfEmpty(i: nat, treePrev: TwoplusTree?) returns (treePrev': TwoplusTree?)
      requires i < WMAXLEN && Shape()
      modifies trees
      ensures Lens() == old(Lens()) && Sorteds() == old(Sorteds())
      ensures Lens()[i] == 0 ==> Prevs() == old(Prevs())[i := treePrev] && treePrev' == treePrev
      ensures Lens()[i] > 0 ==> Prevs() == old(Prevs()) && treePrev' == trees[i]
    {
      var tree := trees[i];
      treePrev' := treePrev;
      if tree.wlenKeyw <= 0 {
        tree.prev := treePrev;
      } else {
        treePrev' := tree;
      }
    }

    // distribute_twoplus_toks: an empty tree leads to the next shorter one that is not
    method LinkEmpty(ghost head: TwoplusTree?)
      requires Shape() && Chain(trees, head, Lens(), Prevs())
      modifies trees
      ensures Lens() == old(Lens()) && Sorteds() == old(Sorteds())
      ensures Chain(trees, head, Lens(), Prevs()) && Fallbacks(trees, WMAXLEN, Lens(), Prevs())
    {
      var treePrev: TwoplusTree? := null;
      ghost var lens, sorteds := Lens(), Sorteds();
      for i := 0 to WMAXLEN
        invariant Lens() == lens && Sorteds() == sorteds
        invariant Chain(trees, head, lens, Prevs()) && Fallbacks(trees, i, lens, Prevs())
        invariant At(trees, treePrev, NearestBelow(lens, i))
      {
        treePrev := LinkIfEmpty(i, treePrev);
      }
    }

    // distribute_twoplus_toks: the characters a keyword can start with
    method MarkFirst(chCtx: array<Byte>)
      requires chCtx.Length == SYNTAX_TABLE_SIZE && forall j :: 0 <= j < mempool.Length ==> mempool[j].keyword != []
      modifies chCtx
      ensures Marked(mempool[..], old(chCtx[..]), chCtx[..])
    {
      for i := 0 to mempool.Length
        invariant Marked(mempool[..i], old(chCtx[..]), chCtx[..])
      {
        StartsOneMore(mempool[..], i);
        var chKwd := mempool[i].keyword[0];
        if chKwd < SYNTAX_TABLE_SIZE {
          chCtx[chKwd] := WithTwoPlus(chCtx[chKwd]);
        }
      }
      assert mempool[..mempool.Length] == mempool[..];
    }

    // distribute_twoplus_toks: the sort by length
    method SortPool()
      requires mempool.Length < TWO_31
      modifies mempool
      ensures Sorted(CmpByLength, mempool[..]) && multiset(mempool[..]) == multiset(old(mempool[..]))
    {
      ghost var pool := mempool[..];
      LengthIsOrder();
      QuickSortVptr(mempool, mempool.Length, CmpByLength);
      assert mempool[..mempool.Length] == mempool[..] && pool[..mempool.Length] == pool;
    }

    // distribute_twoplus_toks, from the sorted pool on
    method DistributeSorted()
      requires Initial() && mempool.Length < TWO_31
      requires Sorted(CmpByLength, mempool[..]) && GroupsDone(mempool[..], WMAXLEN, 0)
      modifies this, trees
      ensures Distributed(mempool[..])
    {
      ghost var pool := mempool[..];
      NothingFilled(trees, pool, Lens(), Sorteds(), Prevs());
      var treeList := AddGroups(pool, WMAXLEN);
      ghost var sorteds := Sorteds();
      LinkEmpty(treeList);
      assert Contents(pool, 0, Lens(), sorteds);
      SetStart(treeList, pool);
    }

    method SetStart(treeList: TwoplusTree?, ghost pool: seq<Tokdef>)
      requires Shape() && Contents(pool, 0, Lens(), Sorteds()) && Chain(trees, treeList, Lens(), Prevs())
      requires Fallbacks(trees, WMAXLEN, Lens(), Prevs())
      modifies this
      ensures Distributed(pool)
    {
      ghost var lens, sorteds, prevs := Lens(), Sorteds(), Prevs();
      start := treeList;
      assert Lens() == lens && Sorteds() == sorteds && Prevs() == prevs;
    }

    // distribute_twoplus_toks
    method DistributeTwoplusToks(chCtx: array<Byte>)
      requires Initial() && mempool.Length < TWO_31 && chCtx.Length == SYNTAX_TABLE_SIZE
      requires forall j :: 0 <= j < mempool.Length ==>
        1 <= mempool[j].wlenKeyword <= WMAXLEN && mempool[j].keyword != []
      modifies this, mempool, trees, chCtx
      ensures Distributed(old(mempool[..])) && multiset(mempool[..]) == multiset(old(mempool[..]))
      ensures Marked(old(mempool[..]), old(chCtx[..]), chCtx[..])
    {
      ghost var pool := mempool[..];
      if mempool.Length <= 0 {
        NothingToDistribute(trees, Lens(), Sorteds(), Prevs());
        return;
      }
      SortPool();
      SameLengths(pool, mempool[..]);
      ghost var ordered := mempool[..];
      MarkFirst(chCtx);
      MarkedPermuted(mempool[..], pool, old(chCtx[..]), chCtx[..]);
      DistributeSorted();
      assert mempool[..] == ordered;
      ContentsPermuted(mempool[..], pool, Lens(), Sorteds());
    }
  }

  // `|= ULS_CH_2PLUS`
  function WithTwoPlus(bits: Byte): (r: Byte)
    ensures r / 4 % 2 == 1 && r % 4 == bits % 4 && r / 8 == bits / 8
  {
    if bits / CH_2PLUS % 2 == 1 then bits else bits + CH_2PLUS
  }

  ghost predicate StartsKeyword(pool: seq<Tokdef>, c: int) {
    exists j :: 0 <= j < |pool| && pool[j].keyword != [] && pool[j].keyword[0] == c
  }

  /** The characters that start a keyword carry the mark, the others are as they were. */
  ghost predicate Marked(pool: seq<Tokdef>, was: seq<Byte>, now: seq<Byte>) {
    && |was| == |now| == 128
    && forall c :: 0 <= c < 128 ==>
         if StartsKeyword(pool, c) then MarkSet(was[c], now[c]) else now[c] == was[c]
  }

  /** Of the eight bits of a character's class, the third is set and the others are as they were. */
  ghost predicate MarkSet(was: Byte, now: Byte) {
    now / 4 % 2 == 1 && now % 4 == was % 4 && now / 8 == was / 8
  }

  lemma MarkedPermuted(pool: seq<Tokdef>, pool': seq<Tokdef>, was: seq<Byte>, now: seq<Byte>)
    requires Marked(pool, was, now) && multiset(pool) == multiset(pool')
    ensures Marked(pool', was, now)
  {
    forall c ensures StartsKeyword(pool, c) <==> StartsKeyword(pool', c) {
      StartsPermuted(pool, pool', c);
      StartsPermuted(pool', pool, c);
    }
  }

  lemma StartsPermuted(pool: seq<Tokdef>, pool': seq<Tokdef>, c: int)
    requires multiset(pool) == multiset(pool')
    ensures StartsKeyword(pool, c) ==> StartsKeyword(pool', c)
  {
    if StartsKeyword(pool, c) {
      var j :| 0 <= j < |pool| && pool[j].keyword != [] && pool[j].keyword[0] == c;
      assert pool[j] in multiset(pool');
      var j' :| 0 <= j' < |pool'| && pool'[j'] == pool[j];
    }
  }

  lemma SameLengths(pool: seq<Tokdef>, pool': seq<Tokdef>)
    requires multiset(pool) == multiset(pool')
    requires forall j :: 0 <= j < |pool| ==> 1 <= pool[j].wlenKeyword <= WMAXLEN && pool[j].keyword != []
    ensures GroupsDone(pool', WMAXLEN, 0) && forall j :: 0 <= j < |pool'| ==> pool'[j].keyword != []
  {
    forall j | 0 <= j < |pool'| ensures 1 <= pool'[j].wlenKeyword <= WMAXLEN && pool'[j].keyword != [] {
      assert pool'[j] in multiset(pool);
    }
  }

  lemma NothingFilled(trees: seq<TwoplusTree>, pool: seq<Tokdef>, lens: seq<nat>, sorteds: seq<seq<Tokdef>>,
                      prevs: seq<TwoplusTree?>)
    requires |trees| == |lens| == |sorteds| == |prevs| == WMAXLEN
    requires forall j :: 0 <= j < WMAXLEN ==> lens[j] == 0 && sorteds[j] == []
    ensures Contents(pool, WMAXLEN, lens, sorteds) && Chained(trees, WMAXLEN, null, null, lens, prevs)
  {
    NearestIff(lens, WMAXLEN, -1);
  }

  lemma NothingToDistribute(trees: seq<TwoplusTree>, lens: seq<nat>, sorteds: seq<seq<Tokdef>>,
                            prevs: seq<TwoplusTree?>)
    requires |trees| == |lens| == |sorteds| == |prevs| == WMAXLEN
    requires forall j :: 0 <= j < WMAXLEN ==> lens[j] == 0 && sorteds[j] == [] && prevs[j] == null
    ensures Contents([], 0, lens, sorteds) && Chain(trees, null, lens, prevs) && Fallbacks(trees, WMAXLEN, lens, prevs)
  {
    NothingFilled(trees, [], lens, sorteds, prevs);
    AllGroupsDone([], WMAXLEN, lens, sorteds);
    forall j: nat | j <= WMAXLEN ensures NearestBelow(lens, j) == -1 {
      NearestIff(lens, j, -1);
    }
  }

  lemma ContentsPermuted(pool: seq<Tokdef>, pool': seq<Tokdef>, lens: seq<nat>, sorteds: seq<seq<Tokdef>>)
    requires Contents(pool, 0, lens, sorteds) && multiset(pool) == multiset(pool')
    ensures Contents(pool', 0, lens, sorteds)
  {
    forall j: nat | j < WMAXLEN ensures Holds(sorteds[j], lens[j], j, pool') {
      HoldsPermuted(sorteds[j], lens[j], j, pool, pool');
    }
  }

  lemma StartsOneMore(pool: seq<Tokdef>, i: nat)
    requires i < |pool| && pool[i].keyword != []
    ensures forall c :: StartsKeyword(pool[..i + 1], c) <==> StartsKeyword(pool[..i], c) || pool[i].keyword[0] == c
  {
    forall c ensures StartsKeyword(pool[..i + 1], c) <==> StartsKeyword(pool[..i], c) || pool[i].keyword[0] == c {
      assert pool[..i + 1][i] == pool[i];
      assert forall j :: 0 <= j < i ==> pool[..i + 1][j] == pool[..i][j];
    }
  }

  /** All keywords before `i` are longer than `lo`, the others are not. */
  ghost predicate GroupsDone(pool: seq<Tokdef>, lo: nat, i: nat) {
    && i <= |pool| && lo <= WMAXLEN
    && (forall j :: 0 <= j < i ==> pool[j].wlenKeyword > lo)
    && (forall j :: i <= j < |pool| ==> 1 <= pool[j].wlenKeyword <= lo)
  }

  lemma GroupFound(pool: seq<Tokdef>, lo: nat, i0: nat, i: nat)
    requires GroupsDone(pool, lo, i0) && i0 < i <= |pool| && Sorted(CmpByLength, pool)
    requires forall j :: i0 <= j < i ==> pool[j].wlenKeyword == pool[i0].wlenKeyword
    requires forall j :: i <= j < |pool| ==> pool[j].wlenKeyword < pool[i0].wlenKeyword
    ensures IsGroup(pool, lo, i0, i) && GroupsDone(pool, pool[i0].wlenKeyword - 1, i)
  {}

  lemma GroupStep(trees: seq<TwoplusTree>, pool: seq<Tokdef>, lo: nat, head: TwoplusTree?, tail: TwoplusTree?,
                  lens: seq<nat>, sorteds: seq<seq<Tokdef>>, prevs: seq<TwoplusTree?>, i0: nat, i: nat,
                  sorted: seq<Tokdef>)
    requires Contents(pool, lo, lens, sorteds) && Chained(trees, lo, head, tail, lens, prevs)
    requires IsGroup(pool, lo, i0, i) && multiset(sorted) == multiset(pool[i0..i]) && Sorted(CmpByKeyword, sorted)
    ensures var m := pool[i0].wlenKeyword - 1;
            && Contents(pool, m, lens[m := m + 1], sorteds[m := sorted])
            && Chained(trees, m, if tail != null then head else trees[m], trees[m],
                       lens[m := m + 1], Linked(trees, lo, m, prevs))
  {
    ContentsStep(pool, lo, lens, sorteds, i0, i, sorted);
    ChainStep(trees, lo, head, tail, lens, prevs, pool[i0].wlenKeyword - 1);
  }

  /** What the table holds once a group has been linked. */
  lemma GroupFilled(tbl: KwtableTwoplus, pool: seq<Tokdef>, lo: nat, head: TwoplusTree?, tail: TwoplusTree?,
                    lens: seq<nat>, sorteds: seq<seq<Tokdef>>, prevs: seq<TwoplusTree?>, i0: nat, i: nat, m: nat,
                    sorted: seq<Tokdef>, head': TwoplusTree?, tail': TwoplusTree?)
    requires Contents(pool, lo, lens, sorteds) && Chained(tbl.trees, lo, head, tail, lens, prevs)
    requires IsGroup(pool, lo, i0, i) && m == pool[i0].wlenKeyword - 1
    requires multiset(sorted) == multiset(pool[i0..i]) && Sorted(CmpByKeyword, sorted)
    requires tbl.Shape() && tbl.Lens() == lens[m := m + 1] && tbl.Sorteds() == sorteds[m := sorted]
    requires tbl.Prevs() == Linked(tbl.trees, lo, m, prevs)
    requires head' == (if tail != null then head else tbl.trees[m]) && tail' == tbl.trees[m]
    ensures tbl.Filled(pool, m, head', tail')
  {
    GroupStep(tbl.trees, pool, lo, head, tail, lens, sorteds, prevs, i0, i, sorted);
  }

  lemma AllGroupsDone(pool: seq<Tokdef>, lo: nat, lens: seq<nat>, sorteds: seq<seq<Tokdef>>)
    requires Contents(pool, lo, lens, sorteds) && GroupsDone(pool, lo, |pool|) && Sorted(CmpByLength, pool)
    ensures Contents(pool, 0, lens, sorteds)
  {
    forall j: nat | j < lo ensures Holds(sorteds[j], lens[j], j, pool) {
      EmptyHolds(pool, |pool|, j);
    }
  }

  /** Every empty tree up to index `n` leads to the next shorter one that is not empty. */
  ghost predicate Fallbacks(trees: seq<TwoplusTree>, n: nat, lens: seq<nat>, prevs: seq<TwoplusTree?>) {
    && n <= |trees| == |lens| == |prevs|
    && forall j {:trigger prevs[j]} :: 0 <= j < n && lens[j] == 0 ==> At(trees, prevs[j], NearestBelow(lens, j))
  }

  /** The keywords from `i0` to `i` are those of one length, below `lo`; longer ones stand before, shorter ones
      behind. */
  ghost predicate IsGroup(pool: seq<Tokdef>, lo: nat, i0: nat, i: nat) {
    && i0 < i <= |pool| && Sorted(CmpByLength, pool) && 1 <= pool[i0].wlenKeyword <= lo <= WMAXLEN
    && (forall j :: 0 <= j < i0 ==> pool[j].wlenKeyword > lo)
    && (forall j :: i0 <= j < i ==> pool[j].wlenKeyword == pool[i0].wlenKeyword)
    && (forall j :: i <= j < |pool| ==> pool[j].wlenKeyword < pool[i0].wlenKeyword)
  }


  // ---------- the longest keyword at the front of a line ----------

  // uls_canbe_ch_space
  predicate CanBeSpace(chCtx: seq<Byte>, ch: Byte)
    requires |chCtx| == SYNTAX_TABLE_SIZE
  {
    ch < SYNTAX_TABLE_SIZE && chCtx[ch] == 0
  }

  /** Where the first character stands that may be a space, or the length. */
  ghost function FirstSpace(chCtx: seq<Byte>, line: seq<Byte>): (i: nat)
    requires |chCtx| == SYNTAX_TABLE_SIZE
    ensures i <= |line|
  {
    if line == [] || CanBeSpace(chCtx, line[0]) then 0 else 1 + FirstSpace(chCtx, line[1..])
  }

  lemma {:induction false} FirstSpaceIs(chCtx: seq<Byte>, line: seq<Byte>, i: nat)
    requires |chCtx| == SYNTAX_TABLE_SIZE && i < |line| && CanBeSpace(chCtx, line[i])
    requires forall j :: 0 <= j < i ==> !CanBeSpace(chCtx, line[j])
    ensures FirstSpace(chCtx, line) == i
    decreases i
  {
    if i > 0 {
      FirstSpaceIs(chCtx, line[1..], i - 1);
    }
  }

  /** A keyword the tables can hold: one to fifteen characters, none of them a space. */
  ghost predicate GoodKeyword(chCtx: seq<Byte>, e: Tokdef)
    requires |chCtx| == SYNTAX_TABLE_SIZE
  {
    && WellFormed(e.keyword) && e.wlenKeyword == NumWchars(e.keyword) && 1 <= e.wlenKeyword <= WMAXLEN
    && forall i :: 0 <= i < |e.keyword| ==> !CanBeSpace(chCtx, e.keyword[i])
  }

  /** The configured keywords and the line a lexer asks about: it does not start with a space, and is
      well formed up to the first one. */
  ghost predicate Asked(chCtx: seq<Byte>, pool: seq<Tokdef>, line: seq<Byte>) {
    && |chCtx| == SYNTAX_TABLE_SIZE && chCtx[NUL] == 0 && IsLine(line) && !CanBeSpace(chCtx, line[0])
    && WellFormed(line[..FirstSpace(chCtx, line)])
    && forall e :: e in pool ==> GoodKeyword(chCtx, e)
  }

  /** `e` is a keyword at the front of the line, and none there has more characters. */
  ghost predicate IsLongest(pool: seq<Tokdef>, line: seq<Byte>, e: Tokdef) {
    && e in pool && e.keyword <= line
    && forall e' :: e' in pool && e'.keyword <= line ==> e'.wlenKeyword <= e.wlenKeyword
  }

  /** The longest keyword at the front of a line is one keyword, whatever the pool. */
  lemma LongestIsUnique(chCtx: seq<Byte>, pool: seq<Tokdef>, line: seq<Byte>, e1: Tokdef, e2: Tokdef)
    requires Asked(chCtx, pool, line) && IsLongest(pool, line, e1) && IsLongest(pool, line, e2)
    ensures e1.keyword == e2.keyword
  {
    if |e1.keyword| <= |e2.keyword| {
      assert e1.keyword == line[..|e1.keyword|] <= e2.keyword;
      PrefixHasFewerChars(e1.keyword, e2.keyword);
    } else {
      assert e2.keyword == line[..|e2.keyword|] <= e1.keyword;
      PrefixHasFewerChars(e2.keyword, e1.keyword);
    }
  }

  /** A keyword at the front of the line ends before the first space, so it has no more characters than that part. */
  lemma KeywordBeforeSpace(chCtx: seq<Byte>, pool: seq<Tokdef>, line: seq<Byte>, i: nat, e: Tokdef)
    requires Asked(chCtx, pool, line) && i == FirstSpace(chCtx, line) < |line| && CanBeSpace(chCtx, line[i])
    requires e in pool && e.keyword <= line
    ensures e.wlenKeyword <= NumWchars(line[..i])
  {
    assert GoodKeyword(chCtx, e);
    assert e.keyword == line[..|e.keyword|] <= line[..i];
    PrefixHasFewerChars(e.keyword, line[..i]);
  }

  // is_keyword_twoplus: the number of characters a keyword at the front of the line can have
  method SearchWidth(chCtx: seq<Byte>, line: seq<Byte>, n: nat, ghost pool: seq<Tokdef>) returns (wlen: nat)
    requires Asked(chCtx, pool, line)
    ensures 1 <= wlen <= WMAXLEN
    ensures forall e :: e in pool && e.keyword <= line ==> e.wlenKeyword <= wlen
  {
    var i: nat := 0;
    while i < n
      invariant i < |line| && forall j :: 0 <= j < i ==> !CanBeSpace(chCtx, line[j])
    {
      if CanBeSpace(chCtx, line[i]) {
        FirstSpaceIs(chCtx, line, i);
        var chars := UstrNumWchars(line[..i]);
        PrefixHasFewerChars([], line[..i]);
        forall e | e in pool && e.keyword <= line ensures e.wlenKeyword <= chars {
          KeywordBeforeSpace(chCtx, pool, line, i, e);
        }
        return if chars > WMAXLEN then WMAXLEN else chars;
      }
      i := i + 1;
    }
    wlen := WMAXLEN;
  }

  lemma TreeKeywords(pool: seq<Tokdef>, lens: seq<nat>, sorteds: seq<seq<Tokdef>>, j: nat, e: Tokdef)
    requires Contents(pool, 0, lens, sorteds) && j < WMAXLEN
    ensures e in sorteds[j] <==> e in pool && e.wlenKeyword == j + 1
  {
    assert Holds(sorteds[j], lens[j], j, pool);
    assert e in sorteds[j] <==> multiset(sorteds[j])[e] > 0;
    assert e in pool <==> multiset(pool)[e] > 0;
  }

  /** Every keyword at the front of the line is in one of the first `k` trees. */
  ghost predicate Left(pool: seq<Tokdef>, line: seq<Byte>, k: int) {
    forall e :: e in pool && e.keyword <= line ==> e.wlenKeyword <= k
  }

  lemma TreeOfLength(chCtx: seq<Byte>, pool: seq<Tokdef>, line: seq<Byte>, lens: seq<nat>, sorteds: seq<seq<Tokdef>>,
                     j: nat)
    requires Contents(pool, 0, lens, sorteds) && j < WMAXLEN && Asked(chCtx, pool, line)
    ensures OfLength(sorteds[j], j + 1) && Sorted(CmpByKeyword, sorteds[j])
  {
    forall i | 0 <= i < |sorteds[j]|
      ensures WellFormed(sorteds[j][i].keyword) && NumWchars(sorteds[j][i].keyword) == j + 1
      ensures NUL !in sorteds[j][i].keyword
    {
      var e := sorteds[j][i];
      TreeKeywords(pool, lens, sorteds, j, e);
      assert GoodKeyword(chCtx, e);
    }
    assert Holds(sorteds[j], lens[j], j, pool);
  }

  /** What the search in one tree tells about the pool. */
  lemma SearchedTree(pool: seq<Tokdef>, line: seq<Byte>, lens: seq<nat>, sorteds: seq<seq<Tokdef>>, k: nat,
                     r: Option<Tokdef>)
    requires Contents(pool, 0, lens, sorteds) && k < WMAXLEN && Left(pool, line, k + 1)
    requires r.Some? ==> r.value in sorteds[k] && r.value.keyword <= line
    requires r.None? ==> forall i :: 0 <= i < |sorteds[k]| ==> !(sorteds[k][i].keyword <= line)
    ensures r.Some? ==> IsLongest(pool, line, r.value)
    ensures r.None? ==> Left(pool, line, NearestBelow(lens, k) + 1)
  {
    if r.Some? {
      TreeKeywords(pool, lens, sorteds, k, r.value);
    } else {
      forall e | e in pool && e.keyword <= line ensures e.wlenKeyword <= k {
        TreeKeywords(pool, lens, sorteds, k, e);
      }
      SkipEmpty(pool, line, lens, sorteds, k);
    }
  }

  /** Empty trees can be passed over. */
  lemma SkipEmpty(pool: seq<Tokdef>, line: seq<Byte>, lens: seq<nat>, sorteds: seq<seq<Tokdef>>, k: nat)
    requires Contents(pool, 0, lens, sorteds) && k <= WMAXLEN && Left(pool, line, k)
    ensures Left(pool, line, NearestBelow(lens, k) + 1)
  {
    NearestIff(lens, k, NearestBelow(lens, k));
    forall e | e in pool && e.keyword <= line ensures e.wlenKeyword <= NearestBelow(lens, k) + 1 {
      if e.wlenKeyword > NearestBelow(lens, k) + 1 {
        var j: nat := e.wlenKeyword - 1;
        assert Holds(sorteds[j], lens[j], j, pool) && lens[j] == 0;
        TreeKeywords(pool, lens, sorteds, j, e);
      }
    }
  }

  // is_keyword_twoplus: the walk along the chain, from the tree of index `k0`
  method SearchChain(tbl: KwtableTwoplus, line: seq<Byte>, tree0: TwoplusTree?, ghost k0: int, ghost pool: seq<Tokdef>,
                     ghost chCtx: seq<Byte>)
    returns (r: Option<Tokdef>)
    requires tbl.Distributed(pool) && Asked(chCtx, pool, line)
    requires -1 <= k0 < WMAXLEN && At(tbl.trees, tree0, k0) && Left(pool, line, k0 + 1)
    requires k0 >= 0 ==> tbl.Lens()[k0] > 0
    ensures r.Some? ==> IsLongest(pool, line, r.value)
    ensures r.None? ==> Left(pool, line, 0)
  {
    ghost var lens, sorteds, prevs := tbl.Lens(), tbl.Sorteds(), tbl.Prevs();
    var tree := tree0;
    ghost var k := k0;
    while tree != null
      invariant -1 <= k < WMAXLEN && At(tbl.trees, tree, k) && Left(pool, line, k + 1) && (k >= 0 ==> lens[k] > 0)
      decreases k
    {
      TreeOfLength(chCtx, pool, line, lens, sorteds, k);
      assert tree.sorted == sorteds[k];
      r := TwoplusBiSearch(line, tree.sorted, k + 1);
      SearchedTree(pool, line, lens, sorteds, k, r);
      if r.Some? {
        return;
      }
      NearestIff(lens, k, NearestBelow(lens, k));
      assert prevs[k] == tree.prev;
      k := NearestBelow(lens, k);
      tree := tree.prev;
    }
    r := None;
  }

  // is_keyword_twoplus: the first tree to search
  method FirstTree(tbl: KwtableTwoplus, line: seq<Byte>, wlen: nat, ghost pool: seq<Tokdef>)
    returns (tree: TwoplusTree?, ghost k: int)
    requires tbl.Distributed(pool) && 1 <= wlen <= WMAXLEN && Left(pool, line, wlen)
    ensures -1 <= k < WMAXLEN && At(tbl.trees, tree, k) && Left(pool, line, k + 1) && (k >= 0 ==> tbl.Lens()[k] > 0)
  {
    ghost var lens, prevs := tbl.Lens(), tbl.Prevs();
    tree, k := tbl.trees[wlen - 1], wlen - 1;
    if tree.wlenKeyw <= 0 {
      SkipEmpty(pool, line, lens, tbl.Sorteds(), wlen);
      k := NearestBelow(lens, wlen - 1);
      NearestIff(lens, wlen - 1, k);
      assert prevs[wlen - 1] == tree.prev && lens[wlen - 1] == 0;
      tree := tree.prev;
    }
  }

  // is_keyword_twoplus
  method IsKeywordTwoplus(tbl: KwtableTwoplus, chCtx: seq<Byte>, line: seq<Byte>, ghost pool: seq<Tokdef>)
    returns (r: Option<Tokdef>)
    requires tbl.Distributed(pool) && Asked(chCtx, pool, line)
    ensures r.Some? ==> IsLongest(pool, line, r.value)
    ensures r.None? <==> forall e :: e in pool ==> !(e.keyword <= line)
  {
    if tbl.start == null {
      NobodyThere(pool, chCtx, line, tbl.Lens(), tbl.Sorteds());
      return None;
    }
    var n := tbl.start.wlenKeyw * UTF8_CH_MAXLEN;
    var wlen := SearchWidth(chCtx, line, n, pool);
    var tree, k := FirstTree(tbl, line, wlen, pool);
    r := SearchChain(tbl, line, tree, k, pool, chCtx);
    NoneIsLeft(chCtx, pool, line, r);
  }

  lemma NoneIsLeft(chCtx: seq<Byte>, pool: seq<Tokdef>, line: seq<Byte>, r: Option<Tokdef>)
    requires Asked(chCtx, pool, line) && (if r.Some? then IsLongest(pool, line, r.value) else Left(pool, line, 0))
    ensures r.None? <==> forall e :: e in pool ==> !(e.keyword <= line)
  {
    forall e | e in pool && r.None? ensures !(e.keyword <= line) {
      assert GoodKeyword(chCtx, e);
    }
  }

  lemma NobodyThere(pool: seq<Tokdef>, chCtx: seq<Byte>, line: seq<Byte>, lens: seq<nat>, sorteds: seq<seq<Tokdef>>)
    requires Contents(pool, 0, lens, sorteds) && Asked(chCtx, pool, line) && NearestBelow(lens, WMAXLEN) == -1
    ensures pool == []
  {
    NearestIff(lens, WMAXLEN, -1);
    if pool != [] {
      var e := pool[0];
      assert GoodKeyword(chCtx, e);
      var j: nat := e.wlenKeyword - 1;
      assert Holds(sorteds[j], lens[j], j, pool) && lens[j] == 0;
      TreeKeywords(pool, lens, sorteds, j, e);
    }
  }
}
