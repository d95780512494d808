/** Renaming tokens: the named definitions in front and in order, and the check that no two tokens share an id
    (src/uld_conf.c). */
module TokNames {
  import opened Bytes
  import opened HeapSort
  import opened TwoPlus

  /** A token as a user sees it: its name, empty for none, and its id. */
  datatype TokdefVx = TokdefVx(name: seq<Byte>, tokId: int)

  // comp_vx_by_toknam
  function CompByToknam(e1: TokdefVx, e2: TokdefVx): int {
    StrCmp(e1.name, e2.name)
  }

  // comp_vx_by_tokid
  function CompByTokid(e1: TokdefVx, e2: TokdefVx): (r: int)
    ensures r < 0 <==> e1.tokId < e2.tokId
    ensures r > 0 <==> e1.tokId > e2.tokId
  {
    if e1.tokId > e2.tokId then 1 else if e1.tokId < e2.tokId then -1 else 0
  }

  lemma NameIsOrder()
    ensures IsOrder(CompByToknam)
  {
    forall x: TokdefVx, y: TokdefVx ensures Antisymmetric(CompByToknam, x, y) {
      StrCmpFlips(x.name, y.name);
    }
    forall x: TokdefVx, y: TokdefVx, z: TokdefVx ensures Transitive(CompByToknam, x, y, z) {
      if CompByToknam(x, y) <= 0 && CompByToknam(y, z) <= 0 {
        StrCmpTransitive(x.name, y.name, z.name);
      }
    }
  }

  lemma TokidIsOrder()
    ensures IsOrder(CompByTokid)
  {
    forall x: TokdefVx, y: TokdefVx ensures Antisymmetric(CompByTokid, x, y) {}
    forall x: TokdefVx, y: TokdefVx, z: TokdefVx ensures Transitive(CompByTokid, x, y, z) {}
  }

  /** Names in front of position `i`, no names from position `n` on. */
  ghost predicate Partitioned(s: seq<TokdefVx>, i: nat, n: nat) {
    && i <= n <= |s| && (forall x :: 0 <= x < i ==> s[x].name != []) && (forall x :: n <= x < |s| ==> s[x].name == [])
  }

  // uld_prepare_names: the partition
  method Partition(slotsVx: array<TokdefVx>) returns (n: nat)
    modifies slotsVx
    ensures Partitioned(slotsVx[..], n, n) && multiset(slotsVx[..]) == multiset(old(slotsVx[..]))
  {
    var i: nat, k: nat := 0, 0;
    n := slotsVx.Length;
    while i < n
      invariant k == i && Partitioned(slotsVx[..], i, n) && multiset(slotsVx[..]) == multiset(old(slotsVx[..]))
      decreases n - i
    {
      ghost var was := slotsVx[..];
      var e := slotsVx[i];
      if e.name == [] {
        n := n - 1;
        var e2 := slotsVx[n];
        slotsVx[n] := e;
        slotsVx[i] := e2;
        UnnamedLast(was, i, n, slotsVx[..]);
      } else {
        slotsVx[k] := e;
        assert slotsVx[..] == was;
        k, i := k + 1, i + 1;
      }
    }
  }

  /** An unnamed token changes places with the last one that has not been looked at. */
  lemma UnnamedLast(s: seq<TokdefVx>, i: nat, n: nat, t: seq<TokdefVx>)
    requires i <= n < |s| && Partitioned(s, i, n + 1) && s[i].name == [] && t == s[n := s[i]][i := s[n]]
    ensures Partitioned(t, i, n) && multiset(t) == multiset(s)
  {}

  // uld_prepare_names
  method UldPrepareNames(slotsVx: array<TokdefVx>) returns (n: nat)
    requires slotsVx.Length < TWO_31
    modifies slotsVx
    ensures Partitioned(slotsVx[..], n, n) && Sorted(CompByToknam, slotsVx[..n])
    ensures multiset(slotsVx[..]) == multiset(old(slotsVx[..]))
  {
    n := Partition(slotsVx);
    ghost var s := slotsVx[..];
    NameIsOrder();
    QuickSortVptr(slotsVx, n, CompByToknam);
    PrefixSorted(s, slotsVx[..], n);
  }

  lemma PrefixSorted(s: seq<TokdefVx>, t: seq<TokdefVx>, n: nat)
    requires Partitioned(s, n, n) && |t| == |s| && multiset(t[..n]) == multiset(s[..n]) && t[n..] == s[n..]
    ensures Partitioned(t, n, n) && multiset(t) == multiset(s)
  {
    assert s == s[..n] + s[n..] && t == t[..n] + t[n..];
    forall x | 0 <= x < n ensures t[x].name != [] {
      var x' := FromPrefix(s, t, n, x);
    }
    forall x | n <= x < |t| ensures t[x].name == [] {
      assert t[x] == t[n..][x - n] == s[x];
    }
  }

  // uld_find_tokdef_vx: a named token by binary search, or -1
  method UldFindTokdefVx(slotsVx: array<TokdefVx>, n: nat, name: seq<Byte>) returns (at: int)
    requires n <= slotsVx.Length && Sorted(CompByToknam, slotsVx[..n])
    ensures at == -1 || (0 <= at < n && StrCmp(slotsVx[at].name, name) == 0)
    ensures at == -1 <==> forall i :: 0 <= i < n ==> StrCmp(slotsVx[i].name, name) != 0
  {
    NamesMonotone(slotsVx[..n], name);
    at := BiSearchVptr(slotsVx[..n], (e: TokdefVx) => StrCmp(e.name, name));
  }

  lemma NamesMonotone(s: seq<TokdefVx>, name: seq<Byte>)
    requires Sorted(CompByToknam, s)
    ensures Monotone(s, (e: TokdefVx) => StrCmp(e.name, name))
  {
    forall i, j | 0 <= i < j < |s|
      ensures StrCmp(s[j].name, name) < 0 ==> StrCmp(s[i].name, name) < 0
      ensures StrCmp(s[i].name, name) > 0 ==> StrCmp(s[j].name, name) > 0
    {
      assert CompByToknam(s[i], s[j]) <= 0;
      NamesInOrder(s[i].name, s[j].name, name);
    }
  }

  lemma NamesInOrder(a: seq<Byte>, b: seq<Byte>, name: seq<Byte>)
    requires StrCmp(a, b) <= 0
    ensures StrCmp(b, name) < 0 ==> StrCmp(a, name) < 0
    ensures StrCmp(a, name) > 0 ==> StrCmp(b, name) > 0
  {
    StrCmpFlips(a, name);
    StrCmpFlips(name, a);
    StrCmpFlips(b, name);
    StrCmpFlips(name, b);
    StrCmpFlips(b, a);
    if StrCmp(b, name) < 0 && StrCmp(a, name) >= 0 {
      StrCmpTransitive(name, a, b);
    }
    if StrCmp(a, name) > 0 && StrCmp(b, name) <= 0 {
      StrCmpTransitive(a, b, name);
    }
  }

  ghost predicate DistinctIds(s: seq<TokdefVx>) {
    forall i, j :: 0 <= i < j < |s| ==> s[i].tokId != s[j].tokId
  }

  // __uld_post_names: only neighbours are compared, after the sort
  method UldPostNames(slotsVx: array<TokdefVx>) returns (stat: int)
    requires 0 < slotsVx.Length < TWO_31
    modifies slotsVx
    ensures multiset(slotsVx[..]) == multiset(old(slotsVx[..]))
    ensures stat == 0 || stat == -1
    ensures stat == 0 <==> DistinctIds(old(slotsVx[..]))
  {
    ghost var was := slotsVx[..];
    TokidIsOrder();
    QuickSortVptr(slotsVx, slotsVx.Length, CompByTokid);
    assert slotsVx[..slotsVx.Length] == slotsVx[..] && was[..slotsVx.Length] == was;
    stat := CheckNeighbours(slotsVx);
    DistinctPermuted(was, slotsVx[..]);
  }

  method CheckNeighbours(slotsVx: array<TokdefVx>) returns (stat: int)
    requires slotsVx.Length > 0 && Sorted(CompByTokid, slotsVx[..])
    ensures stat == 0 || stat == -1
    ensures stat == 0 <==> DistinctIds(slotsVx[..])
  {
    stat := 0;
    var prevTokId := slotsVx[0].tokId;
    for i := 1 to slotsVx.Length
      invariant prevTokId == slotsVx[i - 1].tokId && DistinctIds(slotsVx[..i])
    {
      ghost var s := slotsVx[..];
      if slotsVx[i].tokId == prevTokId {
        assert s[i - 1].tokId == s[i].tokId;
        return -1;
      }
      OneMoreId(s, i);
      prevTokId := slotsVx[i].tokId;
    }
    assert slotsVx[..slotsVx.Length] == slotsVx[..];
  }

  lemma OneMoreId(s: seq<TokdefVx>, i: nat)
    requires 1 <= i < |s| && Sorted(CompByTokid, s) && DistinctIds(s[..i]) && s[i].tokId != s[i - 1].tokId
    ensures DistinctIds(s[..i + 1])
  {
    var t := s[..i + 1];
    forall x, y | 0 <= x < y <= i ensures t[x].tokId != t[y].tokId {
      if y < i {
        assert s[..i][x].tokId != s[..i][y].tokId;
      } else {
        assert CompByTokid(s[i - 1], s[i]) <= 0;
        assert x < i - 1 ==> CompByTokid(s[x], s[i - 1]) <= 0;
      }
    }
  }

  /** Whether ids are distinct does not depend on the order. */
  lemma DistinctPermuted(s: seq<TokdefVx>, t: seq<TokdefVx>)
    requires multiset(s) == multiset(t)
    ensures DistinctIds(s) <==> DistinctIds(t)
  {
    if DistinctIds(s) {
      StillDistinct(s, t);
    }
    if DistinctIds(t) {
      StillDistinct(t, s);
    }
  }

  lemma StillDistinct(s: seq<TokdefVx>, t: seq<TokdefVx>)
    requires multiset(s) == multiset(t) && DistinctIds(s)
    ensures DistinctIds(t)
  {
    forall x, y | 0 <= x < y < |t| ensures t[x].tokId != t[y].tokId {
      if t[x].tokId == t[y].tokId {
        TwoPlaces(t, x, y);
        assert t[x] in multiset(s) && t[y] in multiset(s);
        var i :| 0 <= i < |s| && s[i] == t[x];
        var j :| 0 <= j < |s| && s[j] == t[y];
        assert i == j;
        OnePlace(s, i);
      }
    }
  }

  lemma TwoPlaces(t: seq<TokdefVx>, x: nat, y: nat)
    requires x < y < |t|
    ensures t[x] == t[y] ==> multiset(t)[t[x]] >= 2
  {
    assert t == t[..y] + t[y..];
    assert t[x] in t[..y] && t[y] in t[y..];
  }

  lemma OnePlace(s: seq<TokdefVx>, i: nat)
    requires i < |s| && DistinctIds(s)
    ensures multiset(s)[s[i]] == 1
  {
    assert s == s[..i] + [s[i]] + s[i + 1..];
    assert s[i] !in s[..i] && s[i] !in s[i + 1..];
  }
}
