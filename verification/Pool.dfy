/** The pool of free character buffers: a fixed set of nodes on two linked lists (src/csz_stream.c). */
module Pool {
  import opened Bytes

  const N_LINES_IN_POOL: nat := 32

  class CszBufLine {
    var line: array?<Byte>
    var size: int
    var next: CszBufLine?

    constructor (next: CszBufLine?)
      ensures line == null && size == 0 && this.next == next
    {
      line, size, this.next := null, 0, next;
    }
  }

  /** What a node holds: a buffer and its size. */
  type Held = (array?<Byte>, int)

  ghost function NodeAt(s: seq<CszBufLine>, i: nat): CszBufLine? {
    if i < |s| then s[i] else null
  }

  /** From `head`, the links `nx` run through the nodes `s` in this order. */
  ghost predicate Linked(head: CszBufLine?, s: seq<CszBufLine>, nx: map<CszBufLine, CszBufLine?>) {
    && head == NodeAt(s, 0) && (forall i {:trigger s[i]} :: 0 <= i < |s| ==> s[i] in nx)
    && forall i {:trigger nx[s[i]]} :: 0 <= i < |s| ==> nx[s[i]] == NodeAt(s, i + 1)
  }

  ghost predicate NoTwice(s: seq<CszBufLine>) {
    forall i, j :: 0 <= i < j < |s| ==> s[i] != s[j]
  }

  /** The two lists have no node in common and none twice. */
  ghost predicate Apart(active: seq<CszBufLine>, inactive: seq<CszBufLine>) {
    && NoTwice(active) && NoTwice(inactive)
    && forall i, j :: 0 <= i < |active| && 0 <= j < |inactive| ==> active[i] != inactive[j]
  }

  /** Active buffers in descending order of size, inactive nodes without one. */
  ghost predicate Sized(active: seq<CszBufLine>, inactive: seq<CszBufLine>, held: map<CszBufLine, Held>) {
    && (forall i {:trigger active[i]} :: 0 <= i < |active| ==> active[i] in held && held[active[i]].1 > 0)
    && (forall i, j :: 0 <= i < j < |active| ==> held[active[i]].1 >= held[active[j]].1)
    && (forall j {:trigger inactive[j]} :: 0 <= j < |inactive| ==>
                                             inactive[j] in held && held[inactive[j]] == (null, 0))
  }

  /** The buffers of a list, which is what a client can see of it. */
  ghost function Buffers(s: seq<CszBufLine>, held: map<CszBufLine, Held>): (b: seq<Held>)
    requires forall i {:trigger s[i]} :: 0 <= i < |s| ==> s[i] in held
    ensures |b| == |s| && forall i {:trigger b[i]} {:trigger s[i]} :: 0 <= i < |s| ==> b[i] == held[s[i]]
  {
    seq(|s|, i requires 0 <= i < |s| => held[s[i]])
  }

  ghost function Without<T>(s: seq<T>, k: nat): (r: seq<T>)
    requires k < |s|
    ensures |r| == |s| - 1
    ensures forall i {:trigger r[i]} :: 0 <= i < |r| ==> r[i] == s[if i < k then i else i + 1]
  {
    s[..k] + s[k + 1..]
  }

  ghost function With<T>(s: seq<T>, k: nat, x: T): (r: seq<T>)
    requires k <= |s|
    ensures |r| == |s| + 1
    ensures forall i {:trigger r[i]} :: 0 <= i < |r| ==> r[i] == if i < k then s[i] else if i == k then x else s[i - 1]
  {
    s[..k] + [x] + s[k..]
  }

  /** The links after node `s[k]` has left its list and joined the front of the other one, whose head was `head2`. */
  ghost function Relinked(s: seq<CszBufLine>, k: nat, head2: CszBufLine?, nx: map<CszBufLine,
                          CszBufLine?>): map<CszBufLine, CszBufLine?>
    requires k < |s|
  {
    var nx1 := if k == 0 then nx else nx[s[k - 1] := NodeAt(s, k + 1)];
    nx1[s[k] := head2]
  }

  lemma ApartMoves(s: seq<CszBufLine>, k: nat, to: seq<CszBufLine>)
    requires Apart(s, to) && k < |s|
    ensures Apart(Without(s, k), With(to, 0, s[k]))
  {}

  lemma DetachFrom(s: seq<CszBufLine>, k: nat, head: CszBufLine?, head2: CszBufLine?, nx: map<CszBufLine, CszBufLine?>)
    requires Linked(head, s, nx) && NoTwice(s) && k < |s|
    ensures Linked(if k == 0 then NodeAt(s, 1) else head, Without(s, k), Relinked(s, k, head2, nx))
  {
    var rest, nx' := Without(s, k), Relinked(s, k, head2, nx);
    forall i | 0 <= i < |rest| ensures rest[i] in nx' && nx'[rest[i]] == NodeAt(rest, i + 1) {
      assert rest[i] == s[if i < k then i else i + 1];
      assert i != k - 1 && k > 0 ==> rest[i] != s[k - 1];
    }
  }

  lemma AttachTo(s: seq<CszBufLine>, k: nat, to: seq<CszBufLine>, head2: CszBufLine?, nx: map<CszBufLine, CszBufLine?>)
    requires Linked(head2, to, nx) && Apart(s, to) && k < |s|
    ensures Linked(s[k], With(to, 0, s[k]), Relinked(s, k, head2, nx))
  {
    var more, nx' := With(to, 0, s[k]), Relinked(s, k, head2, nx);
    forall i | 0 <= i < |more| ensures more[i] in nx' && nx'[more[i]] == NodeAt(more, i + 1) {
      assert i > 0 ==> more[i] == to[i - 1];
    }
  }

  lemma DetachSizes(s: seq<CszBufLine>, k: nat, to: seq<CszBufLine>, held: map<CszBufLine, Held>)
    requires Sized(s, to, held) && Apart(s, to) && k < |s|
    ensures Sized(Without(s, k), With(to, 0, s[k]), held[s[k] := (null, 0)])
    ensures Buffers(Without(s, k), held[s[k] := (null, 0)]) == Without(Buffers(s, held), k)
  {}

  /** The two lists as the pool keeps them. */
  ghost predicate Sound(activeList: CszBufLine?, active: seq<CszBufLine>, inactiveList: CszBufLine?,
                        inactive: seq<CszBufLine>, nx: map<CszBufLine, CszBufLine?>, held: map<CszBufLine, Held>) {
    && Linked(activeList, active, nx) && Linked(inactiveList, inactive, nx) && Apart(active, inactive)
    && |active| + |inactive| == N_LINES_IN_POOL && Sized(active, inactive, held)
  }

  lemma DetachKeeps(activeList: CszBufLine?, active: seq<CszBufLine>, inactiveList: CszBufLine?,
                    inactive: seq<CszBufLine>, nx: map<CszBufLine, CszBufLine?>, held: map<CszBufLine, Held>, k: nat)
    requires Sound(activeList, active, inactiveList, inactive, nx, held) && k < |active|
    ensures Sound(if k == 0 then NodeAt(active, 1) else activeList, Without(active, k),
                  active[k], With(inactive, 0, active[k]),
                  Relinked(active, k, inactiveList, nx), held[active[k] := (null, 0)])
  {
    ApartMoves(active, k, inactive);
    DetachFrom(active, k, activeList, inactiveList, nx);
    AttachTo(active, k, inactive, inactiveList, nx);
    DetachSizes(active, k, inactive, held);
  }

  ghost function Elements(s: seq<CszBufLine>): set<CszBufLine> {
    set e | e in s
  }

  lemma {:induction false} ElementsCount(s: seq<CszBufLine>)
    requires NoTwice(s)
    ensures |Elements(s)| == |s|
    decreases |s|
  {
    if s != [] {
      var n := |s| - 1;
      ElementsCount(s[..n]);
      assert s == s[..n] + [s[n]];
      assert Elements(s) == Elements(s[..n]) + {s[n]};
    }
  }

  lemma SameSize(a: set<CszBufLine>, b: set<CszBufLine>)
    requires a <= b && |a| == |b|
    ensures a == b
  {
    assert |b - a| == 0;
  }

  class CszGlobal {
    var activeList: CszBufLine?
    var inactiveList: CszBufLine?
    ghost var active: seq<CszBufLine>
    ghost var inactive: seq<CszBufLine>
    ghost const nodes: set<CszBufLine>

    ghost function Nexts(): (m: map<CszBufLine, CszBufLine?>)
      reads nodes
    {
      map e | e in nodes :: e.next
    }

    ghost function Holds(): (m: map<CszBufLine, Held>)
      reads nodes
    {
      map e | e in nodes :: (e.line, e.size)
    }

    ghost predicate Valid()
      reads this, nodes
    {
      |nodes| == N_LINES_IN_POOL && Sound(activeList, active, inactiveList, inactive, Nexts(), Holds())
    }

    /** Every node is on exactly one of the two lists. */
    lemma EveryNodeListed(e: CszBufLine)
      requires Valid() && e in nodes
      ensures e in active <==> e !in inactive
    {
      ElementsCount(active);
      ElementsCount(inactive);
      var a, i := Elements(active), Elements(inactive);
      assert a !! i && a + i <= nodes;
      assert |a + i| == |nodes|;
      SameSize(a + i, nodes);
    }

    // __init_csz_pool
    constructor ()
      ensures Valid() && active == [] && fresh(nodes) && |inactive| == |nodes| == 32
    {
      var head: CszBufLine? := null;
      ghost var s: seq<CszBufLine> := [];
      ghost var all: set<CszBufLine> := {};
      for i := 0 to N_LINES_IN_POOL
        invariant |s| == i == |all| && fresh(all) && NoTwice(s) && head == NodeAt(s, 0)
        invariant forall j {:trigger s[j]} :: 0 <= j < i ==> s[j] in all && s[j].next == NodeAt(s, j + 1)
        invariant forall j {:trigger s[j]} :: 0 <= j < i ==> s[j].size == 0 && s[j].line == null
      {
        var e := new CszBufLine(head);
        head, s, all := e, [e] + s, all + {e};
      }
      activeList, inactiveList, active, inactive, nodes := null, head, [], s, all;
    }

    // __find_in_pool: the pointers and the fields of a detached node
    method MoveNode(e: CszBufLine, ePrev: CszBufLine?, ghost s: seq<CszBufLine>, ghost k: nat)
      requires k < |s| && e == s[k] && ePrev == (if k == 0 then null else s[k - 1]) && e.next == NodeAt(s, k + 1)
      requires e in nodes && (ePrev != null ==> ePrev in nodes && ePrev != e)
      requires s == active
      modifies this, nodes
      ensures Nexts() == Relinked(s, k, old(inactiveList), old(Nexts())) && Holds() == old(Holds())[e := (null, 0)]
      ensures activeList == (if k == 0 then NodeAt(s, 1) else old(activeList)) && inactiveList == e
      ensures active == Without(s, k) && inactive == With(old(inactive), 0, e)
    {
      if ePrev != null {
        ePrev.next := e.next;
      } else {
        activeList := e.next;
      }
      e.line := null;
      e.size := 0;
      e.next := inactiveList;
      inactiveList := e;
      active, inactive := Without(active, k), With(inactive, 0, e);
    }

    // __find_in_pool: the node at position `k` leaves the active list and joins the inactive one
    method Detach(e: CszBufLine, ePrev: CszBufLine?, ghost k: nat)
      requires Valid() && k < |active| && e == active[k] && ePrev == (if k == 0 then null else active[k - 1])
      modifies this, nodes
      ensures Valid() && active == Without(old(active), k) && Holds() == old(Holds())[e := (null, 0)]
    {
      NextOf(k);
      if k > 0 {
        NextOf(k - 1);
      }
      DetachKeeps(activeList, active, inactiveList, inactive, Nexts(), Holds(), k);
      MoveNode(e, ePrev, active, k);
    }

    ghost function ActiveBuffers(): seq<Held>
      requires Valid()
      reads this, nodes
    {
      Buffers(active, Holds())
    }

    lemma NextOf(k: nat)
      requires Valid() && k < |active|
      ensures active[k] in nodes && active[k].next == NodeAt(active, k + 1)
    {
      assert Nexts()[active[k]] == NodeAt(active, k + 1);
    }

    lemma InOrder()
      requires Valid()
      ensures Descending(ActiveBuffers()) && Walkable(active, ActiveBuffers())
    {
      var b, held := ActiveBuffers(), Holds();
      forall i, j | 0 <= i < j < |b| ensures b[i].1 >= b[j].1 {
        assert b[i] == held[active[i]] && b[j] == held[active[j]];
      }
      forall i | 0 <= i < |b| ensures active[i].next == NodeAt(active, i + 1) && active[i].size == b[i].1 {
        NextOf(i);
      }
    }

    // __find_in_pool: where the buffer stands, and the node before it; nil when no buffer is large enough
    method Search(siz: int) returns (e: CszBufLine?, ePrev: CszBufLine?, ghost k: nat)
      requires Valid()
      ensures e == null <==> NoneFits(ActiveBuffers(), siz)
      ensures e != null ==> k < |active| && e == active[k] && ePrev == (if k == 0 then null else active[k - 1])
      ensures e != null ==> BestFit(ActiveBuffers(), siz, k)
    {
      InOrder();
      e, ePrev, k := activeList, null, 0;
      if e == null || siz > e.size {
        return null, null, 0;
      }
      e, ePrev, k := SearchOn(siz, e, active, ActiveBuffers());
    }

    // __find_in_pool: a smallest buffer of at least `siz` bytes leaves the pool, or nil and 0
    method FindInPool(siz: int) returns (line: array?<Byte>, size: int, ghost k: nat)
      requires Valid()
      modifies this, nodes
      ensures Valid()
      ensures NoneFits(old(ActiveBuffers()), siz) ==>
        line == null && size == 0 && ActiveBuffers() == old(ActiveBuffers())
      ensures !NoneFits(old(ActiveBuffers()), siz) ==>
        && BestFit(old(ActiveBuffers()), siz, k) && (line, size) == old(ActiveBuffers())[k]
        && ActiveBuffers() == Without(old(ActiveBuffers()), k)
    {
      var e, ePrev;
      e, ePrev, k := Search(siz);
      if e == null {
        return null, 0, 0;
      }
      NextOf(k);
      DetachSizes(active, k, inactive, Holds());
      line, size := e.line, e.size;
      Detach(e, ePrev, k);
    }

    // __release_in_pool: the pointers and the fields of the node that takes the buffer
    method InsertNode(e1: CszBufLine, ptr: array<Byte>, siz: int, e: CszBufLine?, ePrev: CszBufLine?, ghost k: nat)
      requires inactive != [] && e1 == inactive[0] == inactiveList && e1 in nodes && e1.next == NodeAt(inactive, 1)
      requires k <= |active| && e == NodeAt(active, k) && ePrev == (if k == 0 then null else active[k - 1])
      requires ePrev != null ==> ePrev in nodes && ePrev != e1
      requires activeList == NodeAt(active, 0)
      modifies this, nodes
      ensures Nexts() == Inserted(old(active), k, e1, old(Nexts())) && Holds() == old(Holds())[e1 := (ptr, siz)]
      ensures activeList == (if k == 0 then e1 else old(activeList)) && inactiveList == NodeAt(old(inactive), 1)
      ensures active == With(old(active), k, e1) && inactive == Without(old(inactive), 0)
    {
      inactiveList := e1.next;
      FillNode(e1, ptr, siz);
      LinkNode(e1, e, ePrev, active, k);
      active, inactive := With(active, k, e1), Without(inactive, 0);
    }

    method FillNode(e1: CszBufLine, ptr: array<Byte>, siz: int)
      requires e1 in nodes
      modifies e1`line, e1`size
      ensures Nexts() == old(Nexts()) && Holds() == old(Holds())[e1 := (ptr, siz)]
    {
      e1.line := ptr;
      e1.size := siz;
    }

    // __release_in_pool: the links of the node that takes the buffer
    method LinkNode(e1: CszBufLine, e: CszBufLine?, ePrev: CszBufLine?, ghost s: seq<CszBufLine>, ghost k: nat)
      requires e1 in nodes && (ePrev != null ==> ePrev in nodes && ePrev != e1)
      requires k <= |s| && e == NodeAt(s, k) && ePrev == (if k == 0 then null else s[k - 1])
      requires activeList == NodeAt(s, 0)
      modifies this`activeList, nodes`next
      ensures Nexts() == Inserted(s, k, e1, old(Nexts())) && Holds() == old(Holds())
      ensures activeList == if k == 0 then e1 else old(activeList)
    {
      if ePrev != null {
        e1.next := e;
        ePrev.next := e1;
      } else {
        e1.next := activeList;
        activeList := e1;
      }
    }

    // __release_in_pool: false when every node is in use, or for an empty buffer
    method ReleaseInPool(ptr: array<Byte>, siz: int) returns (ok: bool, ghost k: nat)
      requires Valid()
      modifies this, nodes
      ensures Valid() && (ok <==> siz > 0 && |old(active)| < N_LINES_IN_POOL)
      ensures !ok ==> ActiveBuffers() == old(ActiveBuffers())
      ensures ok ==>
        Belongs(old(ActiveBuffers()), siz, k) && ActiveBuffers() == With(old(ActiveBuffers()), k, (ptr, siz))
    {
      k := 0;
      if siz <= 0 || inactiveList == null {
        return false, 0;
      }
      var e1: CszBufLine := inactiveList;
      InOrder();
      var e, ePrev;
      e, ePrev, k := Place(siz, activeList, active, ActiveBuffers());
      ReadyToInsert(k);
      InsertKeeps(activeList, active, inactiveList, inactive, Nexts(), Holds(), k, ptr, siz);
      InsertSizes(active, inactive, Holds(), k, ptr, siz);
      InsertNode(e1, ptr, siz, e, ePrev, k);
      ok := true;
    }

    lemma ReadyToInsert(k: nat)
      requires Valid() && inactive != [] && k <= |active|
      ensures inactive[0] in nodes && inactive[0].next == NodeAt(inactive, 1)
      ensures k > 0 ==> active[k - 1] in nodes && active[k - 1] != inactive[0]
    {
      assert Nexts()[inactive[0]] == NodeAt(inactive, 1);
    }

    // __reset_csz_pool
    method ResetCszPool()
      requires Valid()
      modifies this, nodes
      ensures Valid() && active == []
    {
      var e := activeList;
      while e != null
        invariant Sound(e, active, inactiveList, inactive, Nexts(), Holds())
        decreases |active|
      {
        e := DropFirst(e);
      }
      activeList := null;
    }

    // one round of __reset_csz_pool
    method DropFirst(e: CszBufLine) returns (eNext: CszBufLine?)
      requires Sound(e, active, inactiveList, inactive, Nexts(), Holds())
      modifies this`active, this`inactive, this`inactiveList, nodes
      ensures Sound(eNext, active, inactiveList, inactive, Nexts(), Holds()) && |active| == |old(active)| - 1
    {
      DetachKeeps(e, active, inactiveList, inactive, Nexts(), Holds(), 0);
      assert Nexts()[active[0]] == NodeAt(active, 1);
      eNext := DropNode(e);
    }

    // the pointers and the fields of a node that is reset
    method DropNode(e: CszBufLine) returns (eNext: CszBufLine?)
      requires active != [] && e == active[0] && e in nodes && e.next == NodeAt(active, 1)
      modifies this`active, this`inactive, this`inactiveList, nodes
      ensures Nexts() == Relinked(old(active), 0, old(inactiveList), old(Nexts()))
      ensures Holds() == old(Holds())[e := (null, 0)]
      ensures eNext == NodeAt(old(active), 1) && inactiveList == e
      ensures active == Without(old(active), 0) && inactive == With(old(inactive), 0, e)
    {
      eNext := e.next;
      e.line := null;
      e.size := 0;
      e.next := inactiveList;
      inactiveList := e;
      active, inactive := Without(active, 0), With(inactive, 0, e);
    }
  }

  /** The links after node `e1` has joined the list at position `k`. */
  ghost function Inserted(s: seq<CszBufLine>, k: nat, e1: CszBufLine, nx: map<CszBufLine,
                          CszBufLine?>): map<CszBufLine, CszBufLine?>
    requires k <= |s|
  {
    var nx1 := nx[e1 := NodeAt(s, k)];
    if k == 0 then nx1 else nx1[s[k - 1] := e1]
  }

  lemma InsertInto(s: seq<CszBufLine>, k: nat, e1: CszBufLine, head: CszBufLine?, nx: map<CszBufLine, CszBufLine?>)
    requires Linked(head, s, nx) && NoTwice(s) && k <= |s| && (forall i :: 0 <= i < |s| ==> s[i] != e1)
    ensures Linked(if k == 0 then e1 else head, With(s, k, e1), Inserted(s, k, e1, nx))
  {
    var more, nx' := With(s, k, e1), Inserted(s, k, e1, nx);
    forall i | 0 <= i < |more| ensures more[i] in nx' && nx'[more[i]] == NodeAt(more, i + 1) {
      assert more[i] == if i < k then s[i] else if i == k then e1 else s[i - 1];
    }
  }

  lemma RemoveFront(s: seq<CszBufLine>, k: nat, t: seq<CszBufLine>, head2: CszBufLine?, nx: map<CszBufLine,
                    CszBufLine?>)
    requires Linked(head2, t, nx) && t != [] && Apart(s, t) && k <= |s|
    ensures Linked(NodeAt(t, 1), Without(t, 0), Inserted(s, k, t[0], nx))
  {
    var rest, nx' := Without(t, 0), Inserted(s, k, t[0], nx);
    forall i | 0 <= i < |rest| ensures rest[i] in nx' && nx'[rest[i]] == NodeAt(rest, i + 1) {
      assert rest[i] == t[i + 1];
    }
  }

  lemma ApartInsert(s: seq<CszBufLine>, k: nat, t: seq<CszBufLine>)
    requires Apart(s, t) && t != [] && k <= |s|
    ensures Apart(With(s, k, t[0]), Without(t, 0))
  {}

  lemma InsertSizes(s: seq<CszBufLine>, t: seq<CszBufLine>, held: map<CszBufLine, Held>, k: nat, ptr: array<Byte>,
                    siz: int)
    requires Sized(s, t, held) && Apart(s, t) && t != [] && siz > 0 && Belongs(Buffers(s, held), siz, k)
    ensures Sized(With(s, k, t[0]), Without(t, 0), held[t[0] := (ptr, siz)])
    ensures Buffers(With(s, k, t[0]), held[t[0] := (ptr, siz)]) == With(Buffers(s, held), k, (ptr, siz))
  {}

  lemma InsertKeeps(activeList: CszBufLine?, active: seq<CszBufLine>, inactiveList: CszBufLine?,
                    inactive: seq<CszBufLine>, nx: map<CszBufLine, CszBufLine?>, held: map<CszBufLine, Held>, k: nat,
                    ptr: array<Byte>, siz: int)
    requires Sound(activeList, active, inactiveList, inactive, nx, held) && inactive != []
    requires siz > 0 && Belongs(Buffers(active, held), siz, k)
    ensures Sound(if k == 0 then inactive[0] else activeList, With(active, k, inactive[0]),
                  NodeAt(inactive, 1), Without(inactive, 0),
                  Inserted(active, k, inactive[0], nx), held[inactive[0] := (ptr, siz)])
  {
    ApartInsert(active, k, inactive);
    InsertInto(active, k, inactive[0], activeList, nx);
    RemoveFront(active, k, inactive, inactiveList, nx);
    InsertSizes(active, inactive, held, k, ptr, siz);
  }

  // __release_in_pool: where a buffer of `siz` bytes belongs, and the node before it
  method Place(siz: int, head: CszBufLine?, ghost s: seq<CszBufLine>, ghost b: seq<Held>)
    returns (e: CszBufLine?, ePrev: CszBufLine?, ghost k: nat)
    requires Walkable(s, b) && Descending(b) && head == NodeAt(s, 0)
    ensures k <= |s| && e == NodeAt(s, k) && ePrev == (if k == 0 then null else s[k - 1])
    ensures Belongs(b, siz, k)
  {
    ePrev, e, k := null, head, 0;
    while e != null && siz < e.size
      invariant k <= |s| && e == NodeAt(s, k) && ePrev == (if k == 0 then null else s[k - 1])
      invariant forall j :: 0 <= j < k ==> b[j].1 > siz
      decreases |s| - k
    {
      assert s[k].next == NodeAt(s, k + 1);
      ePrev, e, k := e, e.next, k + 1;
    }
  }

  /** A buffer of this size can be put at position `k`. */
  ghost predicate Belongs(b: seq<Held>, siz: int, k: nat) {
    && k <= |b| && (forall j :: 0 <= j < k ==> b[j].1 >= siz) && (forall j :: k <= j < |b| ==> siz >= b[j].1)
  }

  /** The nodes `s` lead from one to the next and hold the buffers `b`. */
  ghost predicate Walkable(s: seq<CszBufLine>, b: seq<Held>)
    reads s
  {
    && |b| == |s| && (forall i {:trigger s[i].next} :: 0 <= i < |s| ==> s[i].next == NodeAt(s, i + 1))
    && forall i {:trigger s[i].size} :: 0 <= i < |s| ==> s[i].size == b[i].1
  }

  // the loop of __find_in_pool
  method SearchOn(siz: int, head: CszBufLine, ghost s: seq<CszBufLine>, ghost b: seq<Held>)
    returns (e: CszBufLine, ePrev: CszBufLine?, ghost k: nat)
    requires Walkable(s, b) && Descending(b) && s != [] && head == s[0] && head.size >= siz
    ensures k < |s| && e == s[k] && ePrev == (if k == 0 then null else s[k - 1])
    ensures BestFit(b, siz, k)
  {
    e, ePrev, k := head, null, 0;
    while e.size != siz && e.next != null && siz <= e.next.size
      invariant k < |s| && e == s[k] && e.size >= siz
      invariant ePrev == if k == 0 then null else s[k - 1]
      decreases |s| - k
    {
      assert s[k].next == NodeAt(s, k + 1);
      ePrev, e, k := e, e.next, k + 1;
    }
    assert s[k].next == NodeAt(s, k + 1);
    assert k + 1 < |s| ==> s[k + 1].size == b[k + 1].1;
    BestFitAt(b, siz, k);
  }

  ghost predicate Descending(b: seq<Held>) {
    forall i, j :: 0 <= i < j < |b| ==> b[i].1 >= b[j].1
  }

  ghost predicate NoneFits(b: seq<Held>, siz: int) {
    forall j :: 0 <= j < |b| ==> b[j].1 < siz
  }

  /** Position `k` holds a smallest buffer that is large enough. */
  ghost predicate BestFit(b: seq<Held>, siz: int, k: nat) {
    k < |b| && b[k].1 >= siz && forall j :: 0 <= j < |b| && b[j].1 >= siz ==> b[j].1 >= b[k].1
  }

  lemma BestFitAt(b: seq<Held>, siz: int, k: nat)
    requires Descending(b) && k < |b| && b[k].1 >= siz
    requires b[k].1 == siz || k + 1 == |b| || siz > b[k + 1].1
    ensures BestFit(b, siz, k)
  {}
}
