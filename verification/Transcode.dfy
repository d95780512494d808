/** Decoding a file of UTF-8, UTF-16 or UTF-32 through a buffer, and re-encoding it in place (src/utf8_enc.c). */
module Transcode {
  import opened Bytes
  import opened OutBufs
  import opened Utf8

  // ---------- encodings as sequences of units ----------

  function Word(b0: Byte, b1: Byte, b2: Byte, b3: Byte): nat {
    (b0 as int) + 256 * (b1 as int) + 65536 * (b2 as int) + 16777216 * (b3 as int)
  }

  datatype Encoding = Format8 | Format16 | Format32 {
    // the `wrdsiz` of the fill and decode functions
    function WrdSiz(): nat {
      match this
      case Format8 => 1
      case Format16 => 2
      case Format32 => 4
    }

    /** The bytes of `n` units. */
    function Size(n: nat): (m: nat)
      ensures m >= n
    {
      match this
      case Format8 => n
      case Format16 => 2 * n
      case Format32 => 4 * n
    }

    /** The whole units in `m` bytes. */
    function Count(m: nat): nat {
      match this
      case Format8 => m
      case Format16 => m / 2
      case Format32 => m / 4
    }

    predicate Whole(m: int) {
      match this
      case Format8 => true
      case Format16 => m % 2 == 0
      case Format32 => m % 4 == 0
    }

    /** Unit `k` of those that start at offset `p`, its low byte first, or last when `reverse`. */
    function UnitAt(reverse: bool, row: seq<Byte>, p: nat, k: nat): nat
      requires p + Size(k + 1) <= |row|
    {
      match this
      case Format8 => row[p + k]
      case Format16 =>
        var q := p + 2 * k;
        if reverse then Word(row[q + 1], row[q], 0, 0) else Word(row[q], row[q + 1], 0, 0)
      case Format32 =>
        var q := p + 4 * k;
        if reverse then Word(row[q + 3], row[q + 2], row[q + 1], row[q])
        else Word(row[q], row[q + 1], row[q + 2], row[q + 3])
    }

    /** The code points a text in this encoding can hold. */
    ghost predicate Holds(wch: CodePoint) {
      match this
      case Format8 => true
      case Format16 => wch <= UTF16_CODEPOINT_END && !(0xD800 <= wch <= 0xDFFF)
      case Format32 => true
    }

    ghost function Encoded(wch: CodePoint): (s: seq<nat>)
      ensures |s| <= 4 && (Holds(wch) ==> s != [])
    {
      match this
      case Format8 => Encoded8(wch)
      case Format16 => if Holds(wch) then Encoded16(wch) else []
      case Format32 => [wch]
    }
  }

  ghost predicate AllHeld(enc: Encoding, cps: seq<CodePoint>) {
    forall i {:trigger enc.Holds(cps[i])} :: 0 <= i < |cps| ==> enc.Holds(cps[i])
  }

  /** A text as units of its encoding. */
  ghost function Units(enc: Encoding, cps: seq<CodePoint>): seq<nat> {
    if cps == [] then [] else enc.Encoded(cps[0]) + Units(enc, cps[1..])
  }

  lemma {:induction false} TextAppend(enc: Encoding, a: seq<CodePoint>, b: seq<CodePoint>)
    ensures Units(enc, a + b) == Units(enc, a) + Units(enc, b)
    decreases |a|
  {
    if a == [] {
      assert a + b == b;
    } else {
      assert (a + b)[1..] == a[1..] + b;
      TextAppend(enc, a[1..], b);
      AssocUnits(enc.Encoded(a[0]), Units(enc, a[1..]), Units(enc, b));
    }
  }

  lemma AssocUnits(a: seq<nat>, b: seq<nat>, c: seq<nat>)
    ensures (a + b) + c == a + (b + c)
  {}

  ghost function FirstOf(enc: Encoding, s: seq<nat>): Decoded
    requires s != [] && (enc.Format8? ==> forall i :: 0 <= i < |s| ==> s[i] < 256)
  {
    match enc
    case Format8 => FirstChar8(s)
    case Format16 => FirstChar16(s)
    case Format32 => Char(1, s[0])
  }

  /** Two ways to cut one text. */
  lemma SameText(held: seq<nat>, ahead: seq<nat>, e: seq<nat>, rest: seq<nat>)
    requires held + ahead == e + rest
    ensures |held| >= |e| ==> held == e + held[|e|..] && held[|e|..] + ahead == rest
    ensures |held| < |e| ==> held == e[..|held|] && ahead != []
  {
    if |held| >= |e| {
      assert held[..|e|] == (held + ahead)[..|e|] == (e + rest)[..|e|] == e;
      assert held[|e|..] + ahead == (held + ahead)[|e|..] == (e + rest)[|e|..] == rest;
    } else {
      assert held == (held + ahead)[..|held|] == (e + rest)[..|held|] == e[..|held|];
    }
  }

  lemma WholeChar(enc: Encoding, wch: CodePoint, tail: seq<nat>)
    requires enc.Holds(wch) && (enc.Format8? ==> forall i :: 0 <= i < |tail| ==> tail[i] < 256)
    ensures FirstOf(enc, enc.Encoded(wch) + tail) == Char(|enc.Encoded(wch)|, wch)
  {
    match enc
    case Format8 => DecodesEncoded8(wch, tail);
    case Format16 => DecodesEncoded16(wch, tail);
    case Format32 =>
  }

  lemma PartOfChar(enc: Encoding, wch: CodePoint, n: nat)
    requires enc.Holds(wch) && 0 < n < |enc.Encoded(wch)|
    ensures FirstOf(enc, enc.Encoded(wch)[..n]) == Short(|enc.Encoded(wch)|)
  {
    match enc
    case Format8 => BeginsEncoded8(wch, n);
    case Format16 => BeginsEncoded16(wch, n);
    case Format32 =>
  }

  /** What the buffered units at the front of a text say: its first character, or the beginning of it. */
  lemma FrontChar(enc: Encoding, held: seq<nat>, ahead: seq<nat>, cps: seq<CodePoint>)
    requires AllHeld(enc, cps) && held != [] && held + ahead == Units(enc, cps)
    requires enc.Format8? ==> forall i :: 0 <= i < |held| ==> held[i] < 256
    ensures cps != []
    ensures var e := enc.Encoded(cps[0]);
            if |held| >= |e| then FirstOf(enc, held) == Char(|e|, cps[0]) && held[|e|..] + ahead == Units(enc, cps[1..])
            else FirstOf(enc, held) == Short(|e|) && ahead != []
  {
    var e, rest := enc.Encoded(cps[0]), Units(enc, cps[1..]);
    SameText(held, ahead, e, rest);
    if |held| >= |e| {
      WholeChar(enc, cps[0], held[|e|..]);
    } else {
      PartOfChar(enc, cps[0], |held|);
    }
  }

  // ---------- units in memory and in a file ----------

  /** The bytes from offset `p` on are these units. */
  ghost predicate InMemory(enc: Encoding, reverse: bool, row: seq<Byte>, p: nat, units: seq<nat>) {
    && p + enc.Size(|units|) <= |row|
    && forall k {:trigger enc.UnitAt(reverse, row, p, k)} :: 0 <= k < |units| ==>
                                                               enc.UnitAt(reverse, row, p, k) == units[k]
  }

  /** A file that consists of these units. */
  ghost predicate InFile(enc: Encoding, reverse: bool, content: seq<Byte>, units: seq<nat>) {
    |content| == enc.Size(|units|) && InMemory(enc, reverse, content, 0, units)
  }

  lemma UnitsDrop(enc: Encoding, reverse: bool, row: seq<Byte>, p: nat, units: seq<nat>, i: nat)
    requires InMemory(enc, reverse, row, p, units) && i <= |units|
    ensures InMemory(enc, reverse, row, p + enc.Size(i), units[i..])
  {
    forall k | 0 <= k < |units| - i ensures enc.UnitAt(reverse, row, p + enc.Size(i), k) == units[i..][k] {
      UnitFurther(enc, reverse, row, p, i, k);
    }
  }

  lemma UnitFurther(enc: Encoding, reverse: bool, row: seq<Byte>, p: nat, i: nat, k: nat)
    requires p + enc.Size(i + k + 1) <= |row|
    ensures p + enc.Size(i) + enc.Size(k + 1) <= |row|
    ensures enc.UnitAt(reverse, row, p + enc.Size(i), k) == enc.UnitAt(reverse, row, p, i + k)
  {
    match enc
    case Format8 =>
    case Format16 =>
    case Format32 =>
  }

  lemma UnitsMoved(enc: Encoding, reverse: bool, row: seq<Byte>, p: nat, row': seq<Byte>, q: nat, units: seq<nat>)
    requires InMemory(enc, reverse, row, p, units) && q + enc.Size(|units|) <= |row'|
    requires forall x {:trigger row'[x]} :: q <= x < q + enc.Size(|units|) ==> row'[x] == row[p + (x - q)]
    ensures InMemory(enc, reverse, row', q, units)
  {
    forall k | 0 <= k < |units| ensures enc.UnitAt(reverse, row', q, k) == units[k] {
      assert enc.UnitAt(reverse, row, p, k) == units[k];
    }
  }

  lemma UnitsJoin(enc: Encoding, reverse: bool, row: seq<Byte>, p: nat, a: seq<nat>, b: seq<nat>)
    requires InMemory(enc, reverse, row, p, a) && InMemory(enc, reverse, row, p + enc.Size(|a|), b)
    ensures InMemory(enc, reverse, row, p, a + b)
  {
    forall k | 0 <= k < |a + b| ensures enc.UnitAt(reverse, row, p, k) == (a + b)[k] {
      if k >= |a| {
        UnitFurther(enc, reverse, row, p, |a|, k - |a|);
      }
    }
  }

  lemma CountIs(enc: Encoding, n: nat, m: int)
    requires m == enc.Size(n)
    ensures enc.Whole(m) && enc.Count(m) == n
  {
    match enc
    case Format8 =>
    case Format16 =>
    case Format32 =>
  }

  /** An open file: the bytes that are still to come. Any read of a faulty one may fail. */
  class Descriptor {
    var rest: seq<Byte>
    const faulty: bool

    constructor (content: seq<Byte>, faulty: bool)
      ensures rest == content && this.faulty == faulty
    {
      rest, this.faulty := content, faulty;
    }

    // uls_readn: all `n` bytes unless the file ends before, or an error
    method Readn(buf: array<Byte>, at: nat, n: nat) returns (rc: int)
      requires n > 0 && at + n <= buf.Length
      modifies this, buf
      ensures rc >= 0 ==> rc == (if n <= |old(rest)| then n else |old(rest)|)
      ensures rc >= 0 ==> rest == old(rest)[rc..] && buf[at..at + rc] == old(rest)[..rc]
      ensures rc < 0 ==> faulty
      ensures forall x :: 0 <= x < at ==> buf[x] == old(buf[x])
    {
      if faulty {
        if * {
          return -1;
        }
      }
      rc := if n <= |rest| then n else |rest|;
      forall i | 0 <= i < rc {
        buf[at + i] := rest[i];
      }
      rest := rest[rc..];
    }
  }

  // ---------- byte order ----------

  lemma UnitSwapped(enc: Encoding, row: seq<Byte>, row': seq<Byte>, p: nat, k: nat)
    requires p + enc.Size(k + 1) <= |row| == |row'|
    requires var q := p + enc.Size(k); row'[q..q + enc.WrdSiz()] == Reversed(row[q..q + enc.WrdSiz()])
    ensures enc.UnitAt(false, row', p, k) == enc.UnitAt(true, row, p, k)
  {
    var q := p + enc.Size(k);
    var from, to := row[q..q + enc.WrdSiz()], row'[q..q + enc.WrdSiz()];
    match enc {
      case Format8 =>
        assert to[0] == from[0];
      case Format16 =>
        assert to[0] == from[1] && to[1] == from[0];
      case Format32 =>
        assert to[0] == from[3] && to[1] == from[2] && to[2] == from[1] && to[3] == from[0];
    }
  }

  /** Of the units from `p` on, the first `i` are in the order of the machine. */
  ghost predicate Reversing(enc: Encoding, was: seq<Byte>, row: seq<Byte>, p: nat, units: seq<nat>, i: nat) {
    && |row| == |was| && i <= |units| && InMemory(enc, true, was, p, units)
    && InMemory(enc, false, row, p, units[..i])
    && forall x :: 0 <= x < |row| && !(p <= x < p + enc.Size(i)) ==> row[x] == was[x]
  }

  lemma ReversedNext(enc: Encoding, was: seq<Byte>, row: seq<Byte>, row': seq<Byte>, p: nat, units: seq<nat>, i: nat)
    requires Reversing(enc, was, row, p, units, i) && i < |units| && |row'| == |row|
    requires var q := p + enc.Size(i); row'[q..q + enc.WrdSiz()] == Reversed(row[q..q + enc.WrdSiz()])
    requires var q := p + enc.Size(i);
             forall x :: 0 <= x < |row| && !(q <= x < q + enc.WrdSiz()) ==> row'[x] == row[x]
    ensures Reversing(enc, was, row', p, units, i + 1)
  {
    UnitSwapped(enc, row, row', p, i);
    UnitsMoved(enc, false, row, p, row', p, units[..i]);
    assert enc.UnitAt(true, row, p, i) == enc.UnitAt(true, was, p, i) == units[i];
    forall k | 0 <= k < i + 1 ensures enc.UnitAt(false, row', p, k) == units[..i + 1][k] {
      if k < i {
        assert enc.UnitAt(false, row', p, k) == units[..i][k];
      }
    }
  }

  // the byte-order loop of the fill functions
  method ReverseUnits(enc: Encoding, buf: array<Byte>, at: nat, ghost units: seq<nat>, n: nat)
    requires n == |units| && InMemory(enc, true, buf[..], at, units)
    modifies buf
    ensures InMemory(enc, false, buf[..], at, units) && buf[..at] == old(buf[..at])
  {
    ghost var was := buf[..];
    for i := 0 to n
      invariant Reversing(enc, was, buf[..], at, units, i)
    {
      ghost var row := buf[..];
      ReverseBytes(buf, at + enc.Size(i), enc.WrdSiz());
      ReversedNext(enc, was, row, buf[..], at, units, i);
    }
    assert units[..n] == units && buf[..at] == was[..at];
  }

  // ---------- the decoding buffer ----------

  /** Units in memory and units still in the file make up the text `cps`. */
  ghost predicate Splits(enc: Encoding, held: seq<nat>, ahead: seq<nat>, cps: seq<CodePoint>) {
    AllHeld(enc, cps) && held + ahead == Units(enc, cps)
  }

  lemma SplitFurther(enc: Encoding, held: seq<nat>, ahead: seq<nat>, cps: seq<CodePoint>, k: nat)
    requires Splits(enc, held, ahead, cps) && k <= |ahead|
    ensures Splits(enc, held + ahead[..k], ahead[k..], cps)
  {
    assert (held + ahead[..k]) + ahead[k..] == held + ahead;
  }

  lemma ByteUnits(row: seq<Byte>, p: nat, units: seq<nat>)
    requires InMemory(Format8, false, row, p, units)
    ensures units == row[p..p + |units|]
  {
    forall k | 0 <= k < |units| ensures row[p..p + |units|][k] == units[k] {
      assert Format8.UnitAt(false, row, p, k) == units[k];
    }
  }

  // the code units of a buffer that is cast to `uls_uint16 *`
  function Units16(row: seq<Byte>, p: nat, n: nat): (s: seq<nat>)
    requires p + 2 * n <= |row|
    ensures |s| == n && forall k {:trigger s[k]} :: 0 <= k < n ==> s[k] == Format16.UnitAt(false, row, p, k)
  {
    seq(n, k requires 0 <= k < n => Format16.UnitAt(false, row, p, k))
  }

  /** What the decoder of the encoding will find at the front of the units in memory. */
  lemma InFront(enc: Encoding, row: seq<Byte>, p: nat, units: seq<nat>, ahead: seq<nat>, cps: seq<CodePoint>)
    requires InMemory(enc, false, row, p, units) && units != [] && Splits(enc, units, ahead, cps)
    ensures cps != [] && enc.Holds(cps[0]) && (enc.Format8? ==> units == row[p..p + |units|])
    ensures enc.Format16? ==> units == Units16(row, p, |units|)
    ensures var e := enc.Encoded(cps[0]);
            if |units| >= |e| then
              FirstOf(enc, units) == Char(|e|, cps[0]) && Splits(enc, units[|e|..], ahead, cps[1..])
            else FirstOf(enc, units) == Short(|e|) && ahead != []
  {
    if enc.Format8? {
      ByteUnits(row, p, units);
    }
    FrontChar(enc, units, ahead, cps);
  }

  /** What one refill of fewer than four units does: a read that finds the end of the file marks it, and a file that
      fits is read whole. */
  ghost predicate ReadStep(cap: nat, isEof: int, nWrds: nat, ahead: seq<nat>, isEof': int, ahead': seq<nat>) {
    && (isEof' > 0 <==> isEof > 0 || (nWrds < 4 && ahead == []))
    && (nWrds < 4 && isEof == 0 && nWrds + |ahead| <= cap ==> ahead' == [])
  }

  class Inbuf {
    const bytesbuf: array<Byte>
    const enc: Encoding
    const reverse: bool
    const fd: Descriptor
    var wrdptr: nat
    var nWrds: nat
    var wchBuffered: CodePoint
    var isEof: int
    ghost var held: seq<nat>
    ghost var ahead: seq<nat>
    ghost var todo: seq<CodePoint>

    ghost predicate Valid()
      reads this, bytesbuf, fd
    {
      && bytesbuf.Length >= enc.Size(4) && |held| == nWrds
      && InMemory(enc, false, bytesbuf[..], wrdptr, held) && InFile(enc, reverse, fd.rest, ahead)
      && Splits(enc, held, ahead, todo)
      && (isEof > 0 ==> ahead == [])
      && (isEof < 0 ==> fd.faulty)
      && (wchBuffered != 0 ==> enc.Holds(wchBuffered))
    }

    // uls_utf_init_inbuf on a caller's buffer, uls_utf_reset_inbuf and uls_utf_set_inbuf
    constructor (buf: array<Byte>, enc: Encoding, reverse: bool, fd: Descriptor, ghost cps: seq<CodePoint>)
      requires buf.Length >= enc.Size(4) && AllHeld(enc, cps) && InFile(enc, reverse, fd.rest, Units(enc, cps))
      ensures Valid() && Pending() == cps && isEof == 0 && wchBuffered == 0 && nWrds == 0 && ahead == Units(enc, cps)
      ensures bytesbuf == buf && this.enc == enc && this.reverse == reverse && this.fd == fd
    {
      bytesbuf, this.enc, this.reverse, this.fd := buf, enc, reverse, fd;
      wrdptr, nWrds, wchBuffered, isEof := 0, 0, 0, 0;
      held, ahead, todo := [], Units(enc, cps), cps;
    }

    /** The code points that have not been delivered yet. */
    ghost function Pending(): seq<CodePoint>
      reads this
    {
      (if wchBuffered != 0 then [wchBuffered] else []) + todo
    }

    // uls_memmove of the unread units to the front
    method Compact()
      requires Valid()
      modifies this`wrdptr, bytesbuf
      ensures Valid() && wrdptr == 0
    {
      ghost var row := bytesbuf[..];
      if nWrds > 0 && wrdptr != 0 {
        var m := enc.Size(nWrds);
        forall i | 0 <= i < m {
          bytesbuf[i] := bytesbuf[wrdptr + i];
        }
      }
      UnitsMoved(enc, false, row, wrdptr, bytesbuf[..], 0, held);
      wrdptr := 0;
    }

    // the read of the fill functions: the number of units that came, or -1
    method ReadUnits(at: nat, nWrdsReq: nat) returns (rc: int)
      requires isEof == 0 && nWrdsReq > 0 && at + enc.Size(nWrdsReq) <= bytesbuf.Length
      requires InFile(enc, reverse, fd.rest, ahead)
      modifies this`isEof, bytesbuf, fd
      ensures rc < 0 ==> fd.faulty && isEof < 0
      ensures rc >= 0 ==> isEof >= 0 && bytesbuf[..at] == old(bytesbuf[..at]) && rc <= |ahead|
      ensures rc >= 0 ==>
        InMemory(enc, reverse, bytesbuf[..], at, ahead[..rc]) && InFile(enc, reverse, fd.rest, ahead[rc..])
      ensures rc >= 0 ==> rc == (if nWrdsReq <= |ahead| then nWrdsReq else |ahead|) && (isEof > 0 <==> ahead == [])
    {
      ghost var rest := fd.rest;
      ghost var k := if nWrdsReq <= |ahead| then nWrdsReq else |ahead|;
      rc := fd.Readn(bytesbuf, at, enc.Size(nWrdsReq));
      if rc >= 0 {
        CountIs(enc, k, rc);
      }
      if rc == 0 {
        isEof := 1;
      } else if rc < 0 || !enc.Whole(rc) {
        isEof := -1;
        return -1;
      }
      UnitsRead(enc, reverse, rest, bytesbuf[..], at, fd.rest, ahead, k);
      rc := enc.Count(rc);
    }

    // fill_utf8_buf, fill_utf16_buf, fill_utf32_buf
    method FillRawbuf() returns (rc: int)
      requires Valid() && isEof >= 0
      modifies this`wrdptr, this`nWrds, this`isEof, this`held, this`ahead, bytesbuf, fd
      ensures rc >= 0 ==> rc == nWrds && Valid() && isEof >= 0
      ensures rc >= 0 ==> nWrds >= 4 || ahead == []
      ensures rc >= 0 && old(nWrds) < 4 ==>
        ReadStep(enc.Count(bytesbuf.Length), old(isEof), old(nWrds), old(ahead), isEof, ahead)
      ensures rc < 0 ==> fd.faulty && isEof < 0
    {
      Compact();
      var nWrdsReq := enc.Count(bytesbuf.Length - enc.Size(nWrds));
      RoomForUnits(enc, bytesbuf.Length, nWrds);
      if isEof != 0 || nWrdsReq == 0 {
        return nWrds;
      }
      var at := enc.Size(nWrds);
      ghost var row := bytesbuf[..];
      rc := ReadUnits(at, nWrdsReq);
      if rc < 0 {
        return -1;
      }
      Take(at, rc, row);
      rc := nWrds;
    }

    // the fill functions: units that came, in the order of the file, join those in memory
    method Take(at: nat, rc: nat, ghost row: seq<Byte>)
      requires wrdptr == 0 && at == enc.Size(nWrds) && nWrds == |held| && rc <= |ahead| && |row| == bytesbuf.Length
      requires InMemory(enc, false, row, 0, held) && bytesbuf[..at] == row[..at] && Splits(enc, held, ahead, todo)
      requires InMemory(enc, reverse, bytesbuf[..], at, ahead[..rc])
      modifies this`nWrds, this`held, this`ahead, bytesbuf
      ensures nWrds == old(nWrds) + rc == |held| && ahead == old(ahead[rc..])
      ensures InMemory(enc, false, bytesbuf[..], 0, held) && Splits(enc, held, ahead, todo)
    {
      if reverse {
        ReverseUnits(enc, bytesbuf, at, ahead[..rc], rc);
      }
      assert forall x :: 0 <= x < at ==> bytesbuf[x] == bytesbuf[..at][x] == row[..at][x];
      UnitsMoved(enc, false, row, 0, bytesbuf[..], 0, held);
      UnitsJoin(enc, false, bytesbuf[..], 0, held, ahead[..rc]);
      SplitFurther(enc, held, ahead, todo, rc);
      nWrds := nWrds + rc;
      held, ahead := held + ahead[..rc], ahead[rc..];
    }

    // one call of the decoder of the encoding, for the `n` units from offset `p` on
    method DecodeAt(p: nat, n: nat, ghost units: seq<nat>, ghost cps: seq<CodePoint>) returns (rc: int, wch: nat)
      requires InMemory(enc, false, bytesbuf[..], p, units) && n == |units| > 0 && Splits(enc, units, ahead, cps)
      ensures cps != [] && enc.Holds(cps[0])
      ensures rc > 0 ==> rc <= n && wch == cps[0] && Splits(enc, units[rc..], ahead, cps[1..])
      ensures rc <= 0 ==> n < 4 && ahead != [] && rc == -|enc.Encoded(cps[0])|
    {
      InFront(enc, bytesbuf[..], p, units, ahead, cps);
      rc, wch := DecodeFirst(p, n, units);
    }

    // one call of the decoder of the encoding, as it reports what stands in front
    method DecodeFirst(p: nat, n: nat, ghost units: seq<nat>) returns (rc: int, wch: nat)
      requires InMemory(enc, false, bytesbuf[..], p, units) && n == |units| > 0
      requires enc.Format8? ==> units == bytesbuf[..][p..p + n]
      requires enc.Format16? ==> units == Units16(bytesbuf[..], p, n)
      ensures match FirstOf(enc, units)
              case Char(len, c) => rc == len && wch == c
              case Short(len) => rc == -(len as int)
              case Bad(_) => true
    {
      match enc
      case Format8 =>
        assert bytesbuf[p..p + n] == bytesbuf[..][p..p + n];
        rc, wch := DecodeUtf8(bytesbuf[p..p + n], true);
      case Format16 =>
        rc, wch := DecodeUtf16(Units16(bytesbuf[..], p, n), true);
      case Format32 =>
        rc, wch := 1, Format32.UnitAt(false, bytesbuf[..], p, 0);
    }

    ghost predicate Decoding(i: nat, nUchs: nat, row: seq<Byte>, at: nat, was: seq<Byte>)
      reads this, bytesbuf
    {
      && i <= |held| && nUchs <= |todo| && (nUchs == 0 ==> i == 0) && Splits(enc, held[i..], ahead, todo[nUchs..])
      && InMemory(enc, false, bytesbuf[..], wrdptr, held) && WordsAt(row, at, todo[..nUchs], was)
    }

    lemma StartDecoding(row: seq<Byte>, at: nat)
      requires Valid() && at <= |row|
      ensures Decoding(0, 0, row, at, row)
    {
      assert held[0..] == held && todo[0..] == todo;
    }

    // one round of the decode functions
    method DecodeNext(i: nat, nCodpnts: nat, nUchs: nat, out: array<Byte>, at: nat, ghost was: seq<Byte>)
      returns (rc: int)
      requires Decoding(i, nUchs, out[..], at, was) && i < nCodpnts == |held| && out != bytesbuf
      requires at + 4 * nUchs + 4 <= out.Length
      modifies out
      ensures rc > 0 ==> Decoding(i + rc, nUchs + 1, out[..], at, was)
      ensures rc <= 0 ==> Decoding(i, nUchs, out[..], at, was) && nCodpnts - i < 4 && ahead != []
    {
      ghost var units, cps, done := held[i..], todo[nUchs..], todo[..nUchs];
      UnitsDrop(enc, false, bytesbuf[..], wrdptr, held, i);
      var wch;
      rc, wch := DecodeAt(wrdptr + enc.Size(i), nCodpnts - i, units, cps);
      if rc > 0 {
        assert units[rc..] == held[i + rc..] && cps[1..] == todo[nUchs + 1..] && done + [wch] == todo[..nUchs + 1];
        StoreWord(out, at, nUchs, wch, done, was);
      }
    }

    // the loop of the decode functions
    method DecodeLoop(nCodpnts: nat, out: array<Byte>, at: nat, outBufsiz: nat) returns (i: nat, nUchs: nat)
      requires nCodpnts == |held| && Decoding(0, 0, out[..], at, out[..]) && out != bytesbuf
      requires at + 4 * outBufsiz <= out.Length
      modifies out
      ensures nUchs <= outBufsiz && Decoding(i, nUchs, out[..], at, old(out[..]))
      ensures nUchs < outBufsiz ==> i == nCodpnts || (nCodpnts - i < 4 && ahead != [])
    {
      i, nUchs := 0, 0;
      ghost var was := out[..];
      while i < nCodpnts && nUchs < outBufsiz
        invariant i <= nCodpnts && nUchs <= outBufsiz && Decoding(i, nUchs, out[..], at, was)
        decreases nCodpnts - i
      {
        var rc := DecodeNext(i, nCodpnts, nUchs, out, at, was);
        if rc <= 0 {
          break;
        }
        nUchs, i := nUchs + 1, i + rc;
      }
    }

    // dec_utf8_buf, dec_utf16_buf, dec_utf32_buf: decoded code points go to `out`, as words
    method DecRawbuf(out: array<Byte>, at: nat, outBufsiz: nat) returns (nUchs: nat, ghost done: seq<CodePoint>)
      requires Valid() && out != bytesbuf && at + 4 * outBufsiz <= out.Length
      modifies this`wrdptr, this`nWrds, this`held, this`todo, out
      ensures Valid() && |done| == nUchs <= outBufsiz && old(todo) == done + todo
      ensures WordsAt(out[..], at, done, old(out[..]))
      ensures nUchs < outBufsiz ==> nWrds == 0 || (nWrds < 4 && ahead != [])
      ensures outBufsiz > 0 && old(nWrds) > 0 && (old(nWrds) >= 4 || ahead == []) ==> nUchs > 0
    {
      var i;
      StartDecoding(out[..], at);
      i, nUchs := DecodeLoop(nWrds, out, at, outBufsiz);
      done := todo[..nUchs];
      Advance(i, nUchs);
    }

    // the end of the decode functions
    method Advance(i: nat, ghost nUchs: nat)
      requires Valid() && i <= nWrds && nUchs <= |todo| && Splits(enc, held[i..], ahead, todo[nUchs..])
      modifies this`wrdptr, this`nWrds, this`held, this`todo
      ensures Valid() && nWrds == old(nWrds) - i && todo == old(todo)[nUchs..]
    {
      UnitsDrop(enc, false, bytesbuf[..], wrdptr, held, i);
      wrdptr, nWrds := wrdptr + enc.Size(i), nWrds - i;
      held, todo := held[i..], todo[nUchs..];
    }

    // one round of uls_utf_drain_inbuf; 0 at the end of the text
    method DrainNext(out: array<Byte>, at: nat, room: nat) returns (rc: int, ghost done: seq<CodePoint>)
      requires room > 0 && out != bytesbuf && at + 4 * room <= out.Length && Valid() && isEof >= 0
      modifies this`wrdptr, this`nWrds, this`isEof, this`held, this`ahead, this`todo, bytesbuf, fd, out
      ensures -1 <= rc <= room && (rc < 0 ==> fd.faulty)
      ensures rc >= 0 ==> Valid() && isEof >= 0 && rc == |done| && old(todo) == done + todo
      ensures rc >= 0 ==> WordsAt(out[..], at, done, old(out[..]))
      ensures rc == 0 ==> todo == []
      ensures rc >= 0 ==> ReadStep(enc.Count(bytesbuf.Length), old(isEof), old(nWrds), old(ahead), isEof, ahead)
    {
      done := [];
      if nWrds < 4 {
        rc := FillRawbuf();
        if rc < 0 {
          return -1, [];
        }
      }
      if nWrds <= 0 {
        NothingHeld(enc, held, ahead, todo);
        return 0, [];
      }
      rc, done := DecRawbuf(out, at, room);
    }

    // uls_utf_drain_inbuf: a character kept back by the last call comes first
    method TakeBuffered(out: array<Byte>, at: nat) returns (buflen: nat, ghost given: seq<CodePoint>)
      requires Valid() && isEof >= 0 && out != bytesbuf && at + 4 <= out.Length
      modifies this`wchBuffered, out
      ensures Valid() && isEof >= 0 && wchBuffered == 0
      ensures Given(old(Pending()), given, todo, out[..], at, old(out[..]))
      ensures buflen == |given| == if old(wchBuffered) != 0 then 1 else 0
    {
      ghost var was := out[..];
      buflen, given := 0, [];
      if wchBuffered != 0 {
        StoreWord(out, at, 0, wchBuffered, [], was);
        given := [wchBuffered];
        assert [] + given == given;
        wchBuffered := 0;
        buflen := 1;
      }
    }

    // a round of uls_utf_drain_inbuf, behind what earlier rounds delivered
    method DrainRound(out: array<Byte>, at: nat, buflen: nat, room: nat, ghost cps: seq<CodePoint>,
                      ghost given: seq<CodePoint>, ghost was: seq<Byte>)
      returns (rc: int, ghost given': seq<CodePoint>)
      requires room > 0 && out != bytesbuf && at + 4 * buflen + 4 * room <= out.Length && Valid() && isEof >= 0
      requires buflen == |given| && Given(cps, given, todo, out[..], at, was)
      modifies this`wrdptr, this`nWrds, this`isEof, this`held, this`ahead, this`todo, bytesbuf, fd, out
      ensures -1 <= rc <= room && (rc < 0 ==> fd.faulty)
      ensures rc >= 0 ==> Valid() && isEof >= 0 && |given'| == buflen + rc && Given(cps, given', todo, out[..], at, was)
      ensures rc == 0 ==> todo == []
      ensures rc >= 0 ==> ReadStep(enc.Count(bytesbuf.Length), old(isEof), old(nWrds), old(ahead), isEof, ahead)
    {
      ghost var row, left := out[..], todo;
      ghost var done;
      rc, done := DrainNext(out, at + 4 * buflen, room);
      given' := given + done;
      if rc >= 0 {
        GivenMore(cps, given, left, row, at, was, done, todo, out[..]);
      }
    }

    // the loop of uls_utf_drain_inbuf
    method DrainLoop(out: array<Byte>, at: nat, buflen0: nat, bufsiz: nat, ghost cps: seq<CodePoint>,
                     ghost given0: seq<CodePoint>, ghost was: seq<Byte>)
      returns (buflen: int, ghost given: seq<CodePoint>)
      requires buflen0 <= bufsiz && out != bytesbuf && at + 4 * bufsiz <= out.Length && Valid() && isEof >= 0
      requires buflen0 == |given0| && Given(cps, given0, todo, out[..], at, was)
      modifies this`wrdptr, this`nWrds, this`isEof, this`held, this`ahead, this`todo, bytesbuf, fd, out
      ensures -1 <= buflen <= bufsiz && (buflen == -1 ==> fd.faulty)
      ensures buflen >= 0 ==> Valid() && isEof >= 0
      ensures buflen >= 0 ==> buflen == |given| && Given(cps, given, todo, out[..], at, was)
      ensures 0 <= buflen < bufsiz ==> todo == []
      ensures buflen >= 0 && bufsiz == buflen0 ==> isEof == old(isEof)
      ensures buflen >= 0 && bufsiz == buflen0 + 1 ==>
        ReadStep(enc.Count(bytesbuf.Length), old(isEof), old(nWrds), old(ahead), isEof, ahead)
    {
      buflen, given := buflen0, given0;
      while buflen < bufsiz
        invariant buflen == buflen0 ==> isEof == old(isEof) && nWrds == old(nWrds) && ahead == old(ahead)
        invariant buflen > buflen0 && bufsiz == buflen0 + 1 ==>
          ReadStep(enc.Count(bytesbuf.Length), old(isEof), old(nWrds), old(ahead), isEof, ahead)
        invariant buflen0 <= buflen <= bufsiz && Valid() && isEof >= 0
        invariant buflen == |given| && Given(cps, given, todo, out[..], at, was)
        decreases bufsiz - buflen
      {
        var rc;
        rc, given := DrainRound(out, at, buflen, bufsiz - buflen, cps, given, was);
        if rc < 0 {
          return -1, [];
        }
        if rc == 0 {
          return;
        }
        buflen := buflen + rc;
      }
    }

    /** What a drain of one code point reads, after a state with these fields. */
    ghost predicate OneRead(wchBuffered0: nat, isEof0: int, nWrds0: nat, ahead0: seq<nat>)
      reads this
    {
      if wchBuffered0 != 0 then isEof == isEof0
      else ReadStep(enc.Count(bytesbuf.Length), isEof0, nWrds0, ahead0, isEof, ahead)
    }

    // uls_utf_drain_inbuf; the source's error for a decoder that delivers nothing cannot occur
    method Drain(out: array<Byte>, at: nat, bufsiz: nat) returns (buflen: int, ghost given: seq<CodePoint>)
      requires Valid() && bufsiz >= 1 && out != bytesbuf && at + 4 * bufsiz <= out.Length
      modifies this, bytesbuf, fd, out
      ensures -1 <= buflen <= bufsiz && (buflen == -1 ==> fd.faulty)
      ensures buflen >= 0 ==> Valid() && isEof >= 0 && wchBuffered == 0
      ensures buflen >= 0 ==>
        buflen == |given| && Given(old(Pending()), given, todo, out[..], at, old(out[..])) && Pending() == todo
      ensures 0 <= buflen < bufsiz ==> todo == []
      ensures buflen >= 0 && bufsiz == 1 ==> OneRead(old(wchBuffered), old(isEof), old(nWrds), old(ahead))
    {
      if isEof < 0 {
        return -1, [];
      }
      ghost var cps, was := Pending(), out[..];
      buflen, given := TakeBuffered(out, at);
      buflen, given := DrainLoop(out, at, buflen, bufsiz, cps, given, was);
      assert [] + todo == todo;
    }
  }

  /** Of the code points `cps`, those in `given` are delivered as words into `row`, those in `todo` are still to be
      decoded. */
  ghost predicate Given(cps: seq<CodePoint>, given: seq<CodePoint>, todo: seq<CodePoint>, row: seq<Byte>, at: nat,
                        was: seq<Byte>) {
    cps == given + todo && WordsAt(row, at, given, was)
  }

  lemma AssocText(a: seq<CodePoint>, b: seq<CodePoint>, c: seq<CodePoint>)
    ensures (a + b) + c == a + (b + c)
  {}

  lemma GivenMore(cps: seq<CodePoint>, given: seq<CodePoint>, left: seq<CodePoint>, row: seq<Byte>, at: nat,
                  was: seq<Byte>, done: seq<CodePoint>, todo: seq<CodePoint>, row': seq<Byte>)
    requires Given(cps, given, left, row, at, was) && left == done + todo
    requires WordsAt(row', at + 4 * |given|, done, row)
    ensures Given(cps, given + done, todo, row', at, was)
  {
    AssocText(given, done, todo);
    WordsJoin(row, row', at, given, done, was);
  }

  lemma NothingHeld(enc: Encoding, held: seq<nat>, ahead: seq<nat>, cps: seq<CodePoint>)
    requires Splits(enc, held, ahead, cps) && held == [] && ahead == []
    ensures cps == []
  {}

  lemma WordsJoin(row: seq<Byte>, row': seq<Byte>, at: nat, given: seq<CodePoint>, done: seq<CodePoint>, was: seq<Byte>)
    requires WordsAt(row, at, given, was) && WordsAt(row', at + 4 * |given|, done, row)
    ensures WordsAt(row', at, given + done, was)
  {
    var p := at + 4 * |given|;
    assert forall x :: at <= x < p ==> row'[x] == row'[..p][x] == row[..p][x];
    UnitsMoved(Format32, false, row, at, row', at, given);
    UnitsJoin(Format32, false, row', at, given, done);
    PrefixKept(row, row', p, at);
  }

  // ---------- code points as 32-bit words in a byte buffer ----------

  /** The words from offset `p` on are `cps`, and what stands before them is as it was. */
  ghost predicate WordsAt(row: seq<Byte>, p: nat, cps: seq<CodePoint>, was: seq<Byte>) {
    InMemory(Format32, false, row, p, cps) && |row| == |was| && row[..p] == was[..p]
  }

  // a store through a `uls_wch_t` pointer, behind `n` words
  method StoreWord(out: array<Byte>, at: nat, n: nat, wch: nat, ghost cps: seq<CodePoint>, ghost was: seq<Byte>)
    requires WordsAt(out[..], at, cps, was) && n == |cps| && at + 4 * n + 4 <= out.Length && wch <= UTF8_CODEPOINT_END
    modifies out
    ensures WordsAt(out[..], at, cps + [wch], was)
  {
    ghost var row := out[..];
    var p := at + 4 * n;
    var q1 := wch / 256;
    var q2 := q1 / 256;
    out[p], out[p + 1], out[p + 2], out[p + 3] := wch % 256, q1 % 256, q2 % 256, q2 / 256;
    assert out[..at] == row[..at];
    UnitsMoved(Format32, false, row, at, out[..], at, cps);
    WordStored(out[..], at, cps, wch);
  }

  lemma WordStored(row: seq<Byte>, at: nat, cps: seq<CodePoint>, wch: nat)
    requires InMemory(Format32, false, row, at, cps) && at + 4 * |cps| + 4 <= |row|
    requires Format32.UnitAt(false, row, at, |cps|) == wch
    ensures InMemory(Format32, false, row, at, cps + [wch])
  {}

  /** A whole number of units fits behind those in memory, and makes at least four of them. */
  lemma RoomForUnits(enc: Encoding, size: nat, n: nat)
    requires enc.Size(n) <= size && size >= enc.Size(4)
    ensures var more := enc.Count(size - enc.Size(n));
            enc.Size(n) + enc.Size(more) <= size && n + more == enc.Count(size) >= 4
  {
    match enc
    case Format8 =>
    case Format16 =>
    case Format32 =>
  }

  lemma UnitsRead(enc: Encoding, reverse: bool, rest: seq<Byte>, row: seq<Byte>, at: nat, rest': seq<Byte>,
                  ahead: seq<nat>, k: nat)
    requires InFile(enc, reverse, rest, ahead) && k <= |ahead| && at + enc.Size(k) <= |row|
    requires row[at..at + enc.Size(k)] == rest[..enc.Size(k)] && rest' == rest[enc.Size(k)..]
    ensures InMemory(enc, reverse, row, at, ahead[..k]) && InFile(enc, reverse, rest', ahead[k..])
  {
    forall i | 0 <= i < k ensures enc.UnitAt(reverse, rest, 0, i) == ahead[..k][i] {}
    assert forall x :: at <= x < at + enc.Size(k) ==> row[x] == row[at..at + enc.Size(k)][x - at];
    UnitsMoved(enc, reverse, rest, 0, row, at, ahead[..k]);
    UnitsDrop(enc, reverse, rest, 0, ahead, k);
    UnitsMoved(enc, reverse, rest, enc.Size(k), rest', 0, ahead[k..]);
  }

  // ---------- re-encoding ----------

  /** The first `i` code points are written from `at` on; the words behind them are untouched and still to be read. */
  ghost predicate Encoding8(uchs: seq<Byte>, ua: nat, cps: seq<CodePoint>, i: nat, row: seq<Byte>, at: nat, len: nat,
                            was: seq<Byte>) {
    && i <= |cps| && len <= 4 * i && at + len <= |row| == |was|
    && InMemory(Format32, false, uchs, ua + 4 * i, cps[i..])
    && row[at..at + len] == Units(Format8, cps[..i])
    && forall x :: 0 <= x < |row| && !(at <= x < at + len) ==> row[x] == was[x]
  }

  lemma TextNext(cps: seq<CodePoint>, i: nat)
    requires i < |cps|
    ensures Units(Format8, cps[..i + 1]) == Units(Format8, cps[..i]) + Encoded8(cps[i])
  {
    assert cps[..i + 1] == cps[..i] + [cps[i]];
    TextAppend(Format8, cps[..i], [cps[i]]);
    assert Units(Format8, [cps[i]]) == Encoded8(cps[i]) + [];
  }

  /** Writing one character does not reach the words that are still to be read, even in one and the same buffer. */
  lemma UnreadUntouched(uchs: seq<Byte>, uchs': seq<Byte>, ua: nat, cps: seq<CodePoint>, i: nat, at: nat, len: nat,
                        n: nat)
    requires i < |cps| && InMemory(Format32, false, uchs, ua + 4 * i, cps[i..]) && |uchs'| == |uchs| && len <= 4 * i
    requires n <= 4
    requires uchs' == uchs || (at <= ua && forall x :: at + len + n <= x < |uchs| ==> uchs'[x] == uchs[x])
    ensures InMemory(Format32, false, uchs', ua + 4 * (i + 1), cps[i + 1..])
  {
    UnitsDrop(Format32, false, uchs, ua + 4 * i, cps[i..], 1);
    assert cps[i..][1..] == cps[i + 1..];
    UnitsMoved(Format32, false, uchs, ua + 4 * i + 4, uchs', ua + 4 * (i + 1), cps[i + 1..]);
  }

  lemma JoinWritten(row: seq<Byte>, row': seq<Byte>, at: nat, len: nat, e: seq<Byte>)
    requires at + len + |e| <= |row| == |row'| && row'[at + len..at + len + |e|] == e
    requires forall x :: at <= x < at + len ==> row'[x] == row[x]
    ensures row'[at..at + (len + |e|)] == row[at..at + len] + e
  {}

  lemma EncodedNext(uchs: seq<Byte>, uchs': seq<Byte>, ua: nat, cps: seq<CodePoint>, i: nat, row: seq<Byte>,
                    row': seq<Byte>, at: nat, len: nat, was: seq<Byte>, e: seq<Byte>)
    requires Encoding8(uchs, ua, cps, i, row, at, len, was) && i < |cps| && |row'| == |row| && e == Encoded8(cps[i])
    requires at + len + |e| <= |row| && row'[at + len..at + len + |e|] == e
    requires forall x :: 0 <= x < |row| && !(at + len <= x < at + len + |e|) ==> row'[x] == row[x]
    requires InMemory(Format32, false, uchs', ua + 4 * (i + 1), cps[i + 1..])
    ensures Encoding8(uchs', ua, cps, i + 1, row', at, len + |e|, was)
  {
    TextNext(cps, i);
    JoinWritten(row, row', at, len, e);
  }

  // one round of uls_fill_utf8str; 0 when the character does not fit
  method EncodeNext(uchs: array<Byte>, ua: nat, ghost cps: seq<CodePoint>, i: nat, utf8buf: array<Byte>, at: nat,
                    len: nat, siz: nat, ghost was: seq<Byte>)
    returns (rc: int)
    requires Encoding8(uchs[..], ua, cps, i, utf8buf[..], at, len, was) && i < |cps| && len <= siz
    requires at + siz <= utf8buf.Length
    requires uchs != utf8buf || at <= ua
    modifies utf8buf
    ensures 0 <= rc <= siz - len
    ensures rc > 0 ==> Encoding8(uchs[..], ua, cps, i + 1, utf8buf[..], at, len + rc, was)
    ensures rc == 0 ==> Encoding8(uchs[..], ua, cps, i, utf8buf[..], at, len, was) && len + |Encoded8(cps[i])| > siz
  {
    FrontWord(uchs[..], ua, cps, i);
    var wch := Format32.UnitAt(false, uchs[..], ua + 4 * i, 0);
    rc := |Encoded8(wch)|; // uls_encode_utf8 without a buffer
    if len + rc > siz {
      return 0;
    }
    EncodeHere(uchs, ua, cps, i, utf8buf, at, len, was, wch);
  }

  lemma FrontWord(row: seq<Byte>, ua: nat, cps: seq<CodePoint>, i: nat)
    requires i < |cps| && InMemory(Format32, false, row, ua + 4 * i, cps[i..])
    ensures ua + 4 * i + 4 <= |row| && Format32.UnitAt(false, row, ua + 4 * i, 0) == cps[i]
  {
    assert Format32.UnitAt(false, row, ua + 4 * i, 0) == cps[i..][0];
  }

  // uls_fill_utf8str: one word that fits
  method EncodeHere(uchs: array<Byte>, ghost ua: nat, ghost cps: seq<CodePoint>, ghost i: nat,
                    utf8buf: array<Byte>, at: nat, len: nat, ghost was: seq<Byte>, wch: CodePoint)
    requires Encoding8(uchs[..], ua, cps, i, utf8buf[..], at, len, was) && i < |cps| && wch == cps[i]
    requires at + len + |Encoded8(wch)| <= utf8buf.Length
    requires uchs != utf8buf || at <= ua
    modifies utf8buf
    ensures Encoding8(uchs[..], ua, cps, i + 1, utf8buf[..], at, len + |Encoded8(wch)|, was)
  {
    ghost var row, words := utf8buf[..], uchs[..];
    var rc := EncodeUtf8(wch, utf8buf, at + len, |Encoded8(wch)|);
    UnreadUntouched(words, uchs[..], ua, cps, i, at, len, rc);
    EncodedNext(words, uchs[..], ua, cps, i, row, utf8buf[..], at, len, was, Encoded8(wch));
  }

  lemma EncodingStart(uchs: seq<Byte>, ua: nat, cps: seq<CodePoint>, row: seq<Byte>, at: nat)
    requires InMemory(Format32, false, uchs, ua, cps) && at <= |row|
    ensures Encoding8(uchs, ua, cps, 0, row, at, 0, row)
  {
    assert cps[0..] == cps && row[at..at + 0] == [];
  }

  // the loop of uls_fill_utf8str
  method EncodeLoop(uchs: array<Byte>, ua: nat, nUchs: nat, utf8buf: array<Byte>, at: nat, siz: nat,
                    ghost cps: seq<CodePoint>)
    returns (i: nat, len: nat)
    requires nUchs == |cps| && Encoding8(uchs[..], ua, cps, 0, utf8buf[..], at, 0, utf8buf[..])
    requires at + siz <= utf8buf.Length
    requires uchs != utf8buf || at <= ua
    modifies utf8buf
    ensures len <= siz && Encoding8(uchs[..], ua, cps, i, utf8buf[..], at, len, old(utf8buf[..]))
    ensures i < |cps| ==> len + |Encoded8(cps[i])| > siz
  {
    i, len := 0, 0;
    ghost var was := utf8buf[..];
    while i < nUchs
      invariant i <= nUchs && len <= siz && Encoding8(uchs[..], ua, cps, i, utf8buf[..], at, len, was)
    {
      var rc := EncodeNext(uchs, ua, cps, i, utf8buf, at, len, siz, was);
      if rc == 0 {
        break;
      }
      len, i := len + rc, i + 1;
    }
  }

  // uls_fill_utf8str; the code points may stand in the tail of the buffer that is written
  method FillUtf8str(uchs: array<Byte>, ua: nat, nUchs: nat, utf8buf: array<Byte>, at: nat, siz: nat,
                     ghost cps: seq<CodePoint>)
    returns (i: nat, len: nat)
    requires nUchs == |cps| && InMemory(Format32, false, uchs[..], ua, cps) && at + siz <= utf8buf.Length
    requires uchs != utf8buf || at <= ua
    modifies utf8buf
    ensures i <= |cps| && len <= siz && len <= 4 * i && utf8buf[at..at + len] == Units(Format8, cps[..i])
    ensures i < |cps| ==> len + |Encoded8(cps[i])| > siz
    ensures forall x :: 0 <= x < utf8buf.Length && !(at <= x < at + len) ==> utf8buf[x] == old(utf8buf[x])
  {
    EncodingStart(uchs[..], ua, cps, utf8buf[..], at);
    i, len := EncodeLoop(uchs, ua, nUchs, utf8buf, at, siz, cps);
  }

  // ---------- filling an output buffer ----------

  /** How many code points fit into `n` bytes as words. */
  function WordsIn(n: nat): (k: nat)
    ensures 4 * k <= n && (n >= 4 ==> k >= 1)
  {
    n / 4
  }

  /** Of the code points `cps`, those in `done` are written from `len0` on, the others are pending. */
  ghost predicate Written(cps: seq<CodePoint>, done: seq<CodePoint>, pending: seq<CodePoint>, row: seq<Byte>,
                          len0: nat, len: nat, was: seq<Byte>) {
    && cps == done + pending && len0 <= len <= |row| == |was|
    && row[len0..len] == Units(Format8, done) && row[..len0] == was[..len0]
  }

  lemma NothingWritten(cps: seq<CodePoint>, row: seq<Byte>, len0: nat)
    requires len0 <= |row|
    ensures Written(cps, [], cps, row, len0, len0, row)
  {
    assert [] + cps == cps && row[len0..len0] == [];
  }

  /** Two calls write what one would. */
  lemma WrittenMore(cps: seq<CodePoint>, done: seq<CodePoint>, left: seq<CodePoint>, row: seq<Byte>, len0: nat,
                    len: nat, was: seq<Byte>, next: seq<CodePoint>, pending: seq<CodePoint>, row': seq<Byte>, len': nat)
    requires Written(cps, done, left, row, len0, len, was) && Written(left, next, pending, row', len, len', row)
    ensures Written(cps, done + next, pending, row', len0, len', was)
  {
    AssocText(done, next, pending);
    TextAppend(Format8, done, next);
    SlicesJoin(row, row', len0, len, len' - len);
  }

  lemma SlicesJoin(row: seq<Byte>, row': seq<Byte>, p: nat, q: nat, more: nat)
    requires p <= q && q + more <= |row'| == |row| && row'[..q] == row[..q]
    ensures row'[p..q + more] == row[p..q] + row'[q..q + more] && row'[..p] == row[..p]
  {
    PrefixKept(row, row', q, p);
    assert row'[p..q] == row'[..q][p..];
    assert row[p..q] == row[..q][p..];
  }

  lemma PrefixKept(row: seq<Byte>, row': seq<Byte>, q: nat, p: nat)
    requires p <= q <= |row| && q <= |row'| && row'[..q] == row[..q]
    ensures row'[..p] == row[..p]
  {
    assert row'[..p] == row'[..q][..p];
    assert row[..p] == row[..q][..p];
  }

  // uls_fill_utf8buf: one round with room for whole words behind the text; the number of code points, or -1
  method FillWords(inp: Inbuf, utf8buf: array<Byte>, len: nat, i: nat, siz: nat)
    returns (nWords: int, len': nat, ghost done: seq<CodePoint>)
    requires inp.Valid() && utf8buf != inp.bytesbuf && len <= i && i + 4 <= siz <= utf8buf.Length
    modifies inp, inp.bytesbuf, inp.fd, utf8buf
    ensures nWords < 0 ==> inp.fd.faulty
    ensures nWords >= 0 ==> inp.Valid() && len' <= siz && nWords == |done|
    ensures nWords >= 0 ==> Written(old(inp.Pending()), done, inp.Pending(), utf8buf[..], len, len', old(utf8buf[..]))
    ensures nWords == 0 ==> inp.Pending() == []
  {
    len' := len;
    ghost var cps, was := inp.Pending(), utf8buf[..];
    var nUchbuf := WordsIn(siz - i);
    nWords, done := inp.Drain(utf8buf, i, nUchbuf);
    if nWords >= 0 {
      PrefixKept(was, utf8buf[..], i, len);
      ghost var left := inp.Pending();
      len' := EncodeWords(utf8buf, i, nWords, len, siz, done);
      assert cps == done + left && inp.Pending() == left;
    }
  }

  // uls_fill_utf8buf: the words in the tail of the buffer become text behind what is there; the source's error for
  // words that do not fit cannot occur
  method EncodeWords(utf8buf: array<Byte>, i: nat, nWords: nat, len: nat, siz: nat, ghost cps: seq<CodePoint>)
    returns (len': nat)
    requires nWords == |cps| && InMemory(Format32, false, utf8buf[..], i, cps)
    requires len <= i && i + 4 * nWords <= siz <= utf8buf.Length
    modifies utf8buf
    ensures len <= len' <= siz && utf8buf[..len] == old(utf8buf[..len]) && utf8buf[len..len'] == Units(Format8, cps)
  {
    ghost var was := utf8buf[..];
    var n, nBytes := FillUtf8str(utf8buf, i, nWords, utf8buf, len, siz - len, cps);
    assert n == nWords && cps[..n] == cps;
    assert utf8buf[..len] == was[..len];
    len' := len + nBytes;
  }

  // uls_utf_drain_inbuf into a single code point
  method DrainOne(inp: Inbuf) returns (nWords: int, wch: array<Byte>, ghost c: CodePoint)
    requires inp.Valid()
    modifies inp, inp.bytesbuf, inp.fd
    ensures -1 <= nWords <= 1 && (nWords < 0 ==> inp.fd.faulty) && fresh(wch) && wch.Length == 4
    ensures nWords >= 0 ==> inp.Valid() && inp.wchBuffered == 0
    ensures nWords == 0 ==> old(inp.Pending()) == [] && inp.todo == []
    ensures nWords == 1 ==>
      old(inp.Pending()) == [c] + inp.todo && Format32.UnitAt(false, wch[..], 0, 0) == c && inp.enc.Holds(c)
    ensures nWords >= 0 ==> inp.OneRead(old(inp.wchBuffered), old(inp.isEof), old(inp.nWrds), old(inp.ahead))
  {
    ghost var cps := inp.Pending();
    assert forall k :: 0 <= k < |cps| ==> inp.enc.Holds(cps[k]);
    wch := new Byte[4];
    ghost var given;
    nWords, given := inp.Drain(wch, 0, 1);
    if nWords == 1 {
      c := given[0];
      assert given == [c] && cps[0] == c;
      assert Format32.UnitAt(false, wch[..], 0, 0) == given[0];
    } else {
      c := 0;
    }
  }

  lemma OneWord(row: seq<Byte>, c: CodePoint)
    requires |row| == 4 && Format32.UnitAt(false, row, 0, 0) == c
    ensures InMemory(Format32, false, row, 0, [c]) && Units(Format8, [c]) == Encoded8(c)
  {
    assert Units(Format8, [c]) == Encoded8(c) + [];
  }

  /** No room for one more character. */
  ghost predicate Full(left: seq<CodePoint>, len: nat, siz: nat) {
    left == [] || len + |Encoded8(left[0])| > siz
  }

  // uls_fill_utf8buf: one character near the end of the buffer; the number of code points that were written, or -1
  method FillOne(inp: Inbuf, utf8buf: array<Byte>, len: nat, siz: nat)
    returns (rc: int, len': nat, ghost done: seq<CodePoint>)
    requires inp.Valid() && utf8buf != inp.bytesbuf && len < siz <= utf8buf.Length
    modifies inp, inp.bytesbuf, inp.fd, utf8buf
    ensures -1 <= rc <= 1 && (rc < 0 ==> inp.fd.faulty)
    ensures rc >= 0 ==> inp.Valid() && len' <= siz && rc == |done|
    ensures rc >= 0 ==> Written(old(inp.Pending()), done, inp.Pending(), utf8buf[..], len, len', old(utf8buf[..]))
    ensures rc >= 0 ==> (rc == 0 <==> Full(old(inp.Pending()), len, siz))
    ensures rc == 0 ==> len' == len && inp.Pending() == old(inp.Pending())
    ensures rc >= 0 ==> inp.OneRead(old(inp.wchBuffered), old(inp.isEof), old(inp.nWrds), old(inp.ahead))
  {
    len', done := len, [];
    var nWords, wch, c := DrainOne(inp);
    if nWords < 0 {
      rc := -1;
    } else if nWords < 1 {
      rc := 0;
      NothingWritten([], utf8buf[..], len);
    } else {
      rc, len', done := PutOne(inp, wch, utf8buf, len, siz, c);
    }
  }

  // uls_fill_utf8buf: a character that was drained is written, or kept back
  method PutOne(inp: Inbuf, wch: array<Byte>, utf8buf: array<Byte>, len: nat, siz: nat, ghost c: CodePoint)
    returns (rc: int, len': nat, ghost done: seq<CodePoint>)
    requires inp.Valid() && inp.wchBuffered == 0 && inp.enc.Holds(c)
    requires wch.Length == 4 && Format32.UnitAt(false, wch[..], 0, 0) == c && wch != utf8buf && utf8buf != inp.bytesbuf
    requires len < siz <= utf8buf.Length
    modifies inp`wchBuffered, utf8buf
    ensures 0 <= rc <= 1 && inp.Valid() && len' <= siz && rc == |done|
    ensures Written([c] + inp.todo, done, inp.Pending(), utf8buf[..], len, len', old(utf8buf[..]))
    ensures rc == 0 <==> Full([c] + inp.todo, len, siz)
    ensures rc == 0 ==> len' == len && inp.Pending() == [c] + inp.todo
  {
    OneWord(wch[..], c);
    var i, nBytes := FillUtf8str(wch, 0, 1, utf8buf, len, siz - len, [c]);
    rc, len', done := i, len + nBytes, if i == 0 then [] else [c];
    assert [c][..0] == [] && [c][..1] == [c];
    assert utf8buf[..len] == old(utf8buf[..len]);
    if rc == 0 {
      inp.wchBuffered := Format32.UnitAt(false, wch[..], 0, 0);
    }
  }

  // uls_fill_utf8buf: a round of the fast loop, behind what earlier rounds wrote
  method FastRound(inp: Inbuf, utf8buf: array<Byte>, len: nat, i: nat, siz: nat, ghost cps: seq<CodePoint>,
                   ghost done: seq<CodePoint>, ghost len0: nat, ghost was: seq<Byte>)
    returns (nWords: int, len': nat, ghost done': seq<CodePoint>)
    requires inp.Valid() && utf8buf != inp.bytesbuf && len <= i && i + 4 <= siz <= utf8buf.Length
    requires Written(cps, done, inp.Pending(), utf8buf[..], len0, len, was)
    modifies inp, inp.bytesbuf, inp.fd, utf8buf
    ensures nWords < 0 ==> inp.fd.faulty
    ensures nWords >= 0 ==> inp.Valid() && len' <= siz && |done'| == |done| + nWords
    ensures nWords >= 0 ==> Written(cps, done', inp.Pending(), utf8buf[..], len0, len', was)
    ensures nWords == 0 ==> inp.Pending() == []
  {
    ghost var left, row := inp.Pending(), utf8buf[..];
    ghost var next;
    nWords, len', next := FillWords(inp, utf8buf, len, i, siz);
    done' := done + next;
    if nWords >= 0 {
      WrittenMore(cps, done, left, row, len0, len, was, next, inp.Pending(), utf8buf[..], len');
    }
  }

  // uls_fill_utf8buf: a round of the slow loop, behind what earlier rounds wrote
  method SlowRound(inp: Inbuf, utf8buf: array<Byte>, len: nat, siz: nat, ghost cps: seq<CodePoint>,
                   ghost done: seq<CodePoint>, ghost len0: nat, ghost was: seq<Byte>)
    returns (rc: int, len': nat, ghost done': seq<CodePoint>)
    requires inp.Valid() && utf8buf != inp.bytesbuf && len < siz <= utf8buf.Length
    requires Written(cps, done, inp.Pending(), utf8buf[..], len0, len, was)
    modifies inp, inp.bytesbuf, inp.fd, utf8buf
    ensures rc < 0 ==> inp.fd.faulty
    ensures rc >= 0 ==> inp.Valid() && len' <= siz && |done'| == |done| + rc
    ensures rc >= 0 ==> Written(cps, done', inp.Pending(), utf8buf[..], len0, len', was)
    ensures rc >= 0 ==> (rc == 0 <==> Full(old(inp.Pending()), len, siz))
    ensures rc == 0 ==> len' == len && inp.Pending() == old(inp.Pending())
    ensures rc >= 0 ==> inp.OneRead(old(inp.wchBuffered), old(inp.isEof), old(inp.nWrds), old(inp.ahead))
  {
    ghost var left, row := inp.Pending(), utf8buf[..];
    ghost var next;
    rc, len', next := FillOne(inp, utf8buf, len, siz);
    done' := done + next;
    if rc >= 0 {
      WrittenMore(cps, done, left, row, len0, len, was, next, inp.Pending(), utf8buf[..], len');
    }
  }

  // uls_fill_utf8buf: the rounds with room for whole words; `more` says whether the text may go on
  method FillFast(inp: Inbuf, utf8buf: array<Byte>, len0: nat, siz: nat, ghost cps: seq<CodePoint>,
                  ghost was: seq<Byte>)
    returns (rc: int, more: bool, ghost done: seq<CodePoint>)
    requires inp.Valid() && utf8buf != inp.bytesbuf && len0 <= siz <= utf8buf.Length
    requires Written(cps, [], inp.Pending(), utf8buf[..], len0, len0, was)
    modifies inp, inp.bytesbuf, inp.fd, utf8buf
    ensures rc < 0 ==> inp.fd.faulty
    ensures rc >= 0 ==> inp.Valid() && rc <= siz && Written(cps, done, inp.Pending(), utf8buf[..], len0, rc, was)
    ensures rc >= 0 && !more ==> inp.Pending() == []
  {
    done, rc, more := [], len0, true;
    var i := Roundup(len0, 4);
    while more && i + 4 <= siz
      invariant 0 <= rc <= siz && rc <= i && inp.Valid() && (!more ==> inp.Pending() == [])
      invariant Written(cps, done, inp.Pending(), utf8buf[..], len0, rc, was)
      decreases |cps| - |done|, more
    {
      var nWords;
      nWords, rc, done := FastRound(inp, utf8buf, rc, i, siz, cps, done, len0, was);
      if nWords < 0 {
        return -1, false, done;
      }
      i, more := Roundup(rc, 4), nWords > 0;
    }
  }

  ghost predicate SameState(inp: Inbuf, pending0: seq<CodePoint>, wchBuffered0: nat, isEof0: int, nWrds0: nat,
                            ahead0: seq<nat>)
    reads inp
  {
    && inp.Pending() == pending0 && inp.wchBuffered == wchBuffered0 && inp.isEof == isEof0
    && inp.nWrds == nWrds0 && inp.ahead == ahead0
  }

  /** What a call reads when the next character does not fit: nothing at all when the buffer is full. */
  ghost predicate KeptWaiting(inp: Inbuf, room: bool, wchBuffered0: nat, isEof0: int, nWrds0: nat, ahead0: seq<nat>)
    reads inp
  {
    if room then inp.OneRead(wchBuffered0, isEof0, nWrds0, ahead0) else inp.isEof == isEof0
  }

  // uls_fill_utf8buf: character by character up to the end of the buffer
  method FillSlow(inp: Inbuf, utf8buf: array<Byte>, len: nat, siz: nat, ghost cps: seq<CodePoint>,
                  ghost done0: seq<CodePoint>, ghost len0: nat, ghost was: seq<Byte>)
    returns (rc: int, ghost done: seq<CodePoint>)
    requires inp.Valid() && utf8buf != inp.bytesbuf && len <= siz <= utf8buf.Length
    requires Written(cps, done0, inp.Pending(), utf8buf[..], len0, len, was)
    modifies inp, inp.bytesbuf, inp.fd, utf8buf
    ensures rc < 0 ==> inp.fd.faulty
    ensures rc >= 0 ==> inp.Valid() && rc <= siz && Written(cps, done, inp.Pending(), utf8buf[..], len0, rc, was)
    ensures rc >= 0 ==> Full(inp.Pending(), rc, siz)
    ensures rc >= 0 && Full(old(inp.Pending()), len, siz) ==>
      && rc == len
      && KeptWaiting(inp, len < siz, old(inp.wchBuffered), old(inp.isEof), old(inp.nWrds), old(inp.ahead))
  {
    done, rc := done0, len;
    while rc < siz
      invariant inp.Valid() && 0 <= rc <= siz && Written(cps, done, inp.Pending(), utf8buf[..], len0, rc, was)
      invariant Full(old(inp.Pending()), len, siz) ==>
        && rc == len
        && SameState(inp, old(inp.Pending()), old(inp.wchBuffered), old(inp.isEof), old(inp.nWrds), old(inp.ahead))
      decreases |cps| - |done|
    {
      var one;
      one, rc, done := SlowRound(inp, utf8buf, rc, siz, cps, done, len0, was);
      if one < 0 {
        return -1, done;
      }
      if one == 0 {
        return;
      }
    }
  }

  lemma NoWordsWhenFull(left: seq<CodePoint>, len: nat, siz: nat)
    ensures left != [] && Full(left, len, siz) ==> Roundup(len, 4) + 4 > siz
  {}

  // uls_fill_utf8buf: the bytes written behind `len0`, or -1
  method FillUtf8buf(inp: Inbuf, utf8buf: array<Byte>, len0: nat, siz: nat)
    returns (rc: int, ghost done: seq<CodePoint>)
    requires inp.Valid() && utf8buf != inp.bytesbuf && len0 <= siz <= utf8buf.Length
    modifies inp, inp.bytesbuf, inp.fd, utf8buf
    ensures rc < 0 ==> inp.fd.faulty
    ensures rc >= 0 ==> inp.Valid() && len0 + rc <= siz
    ensures rc >= 0 ==> Written(old(inp.Pending()), done, inp.Pending(), utf8buf[..], len0, len0 + rc, old(utf8buf[..]))
    ensures rc >= 0 ==> Full(inp.Pending(), len0 + rc, siz)
    ensures rc >= 0 && old(inp.Pending()) != [] && Full(old(inp.Pending()), len0, siz) ==>
      rc == 0 && KeptWaiting(inp, len0 < siz, old(inp.wchBuffered), old(inp.isEof), old(inp.nWrds), old(inp.ahead))
  {
    ghost var cps, was := inp.Pending(), utf8buf[..];
    NothingWritten(cps, was, len0);
    NoWordsWhenFull(cps, len0, siz);
    var more := true;
    rc, done := len0, [];
    if Roundup(len0, 4) + 4 <= siz {
      rc, more, done := FillFast(inp, utf8buf, len0, siz, cps, was);
    }
    if rc >= 0 && more {
      rc, done := FillSlow(inp, utf8buf, rc, siz, cps, done, len0, was);
    }
    rc := if rc < 0 then -1 else rc - len0;
  }

  // ---------- any series of calls ----------

  /** What the calls have put out, and the encoding of what is pending, is the encoding of the text. */
  ghost predicate PutOut(cps: seq<CodePoint>, out: seq<Byte>, pending: seq<CodePoint>) {
    var bytes: seq<nat> := out;
    bytes + Units(Format8, pending) == Units(Format8, cps)
  }

  lemma PutOutMore(cps: seq<CodePoint>, out: seq<Byte>, left: seq<CodePoint>, done: seq<CodePoint>,
                   pending: seq<CodePoint>, row: seq<Byte>, n: nat, was: seq<Byte>)
    requires PutOut(cps, out, left) && Written(left, done, pending, row, 0, n, was)
    ensures PutOut(cps, out + row[..n], pending)
  {
    TextAppend(Format8, done, pending);
    assert row[0..n] == row[..n];
    AssocUnits(out, Units(Format8, done), Units(Format8, pending));
  }

  // one call, and what its caller takes out of the buffer
  method FillNext(inp: Inbuf, utf8buf: array<Byte>, siz: nat, out: seq<Byte>, ghost cps: seq<CodePoint>)
    returns (rc: int, out': seq<Byte>)
    requires inp.Valid() && utf8buf != inp.bytesbuf && siz <= utf8buf.Length && PutOut(cps, out, inp.Pending())
    modifies inp, inp.bytesbuf, inp.fd, utf8buf
    ensures rc < 0 ==> inp.fd.faulty
    ensures rc >= 0 ==> inp.Valid() && PutOut(cps, out', inp.Pending()) && |inp.Pending()| <= |old(inp.Pending())|
    ensures rc == 0 && siz >= UTF8_CH_MAXLEN ==> inp.Pending() == []
    ensures rc > 0 ==> |inp.Pending()| < |old(inp.Pending())|
  {
    ghost var left, was := inp.Pending(), utf8buf[..];
    ghost var done;
    rc, done := FillUtf8buf(inp, utf8buf, 0, siz);
    out' := out;
    if rc >= 0 {
      PutOutMore(cps, out, left, done, inp.Pending(), utf8buf[..], rc, was);
      out' := out + utf8buf[..rc];
    }
  }

  /** Whatever sizes the calls ask for, nothing is lost, repeated or moved between them. */
  method FillSeries(inp: Inbuf, utf8buf: array<Byte>, sizes: seq<nat>) returns (rc: int, out: seq<Byte>)
    requires inp.Valid() && utf8buf != inp.bytesbuf && forall i :: 0 <= i < |sizes| ==> sizes[i] <= utf8buf.Length
    modifies inp, inp.bytesbuf, inp.fd, utf8buf
    ensures rc < 0 ==> inp.fd.faulty
    ensures rc >= 0 ==> inp.Valid() && PutOut(old(inp.Pending()), out, inp.Pending())
  {
    rc, out := 0, [];
    for i := 0 to |sizes|
      invariant rc >= 0 && inp.Valid() && PutOut(old(inp.Pending()), out, inp.Pending())
    {
      rc, out := FillNext(inp, utf8buf, sizes[i], out, old(inp.Pending()));
      if rc < 0 {
        return;
      }
    }
  }

  /** Calls with room for any character, until one returns nothing, put out the whole text. */
  method FillToEnd(inp: Inbuf, utf8buf: array<Byte>) returns (rc: int, out: seq<Byte>)
    requires inp.Valid() && utf8buf != inp.bytesbuf && utf8buf.Length >= UTF8_CH_MAXLEN
    modifies inp, inp.bytesbuf, inp.fd, utf8buf
    ensures rc < 0 ==> inp.fd.faulty
    ensures rc >= 0 ==> inp.Valid() && inp.Pending() == [] && out == Units(Format8, old(inp.Pending()))
  {
    rc, out := 1, [];
    while rc > 0
      invariant rc >= 0 && inp.Valid() && PutOut(old(inp.Pending()), out, inp.Pending())
      invariant rc == 0 ==> inp.Pending() == []
      decreases |inp.Pending()|, rc > 0
    {
      rc, out := FillNext(inp, utf8buf, utf8buf.Length, out, old(inp.Pending()));
      if rc < 0 {
        return;
      }
    }
  }

  /** In a text in UTF-8 every code point counts as one character. */
  lemma {:induction false} CharsCounted(cps: seq<CodePoint>, text: seq<Byte>)
    requires text == Units(Format8, cps)
    ensures NumWchars(text) == |cps|
    decreases |cps|
  {
    CountOneMore(0, []);
    if cps != [] {
      var e: seq<Byte> := Encoded8(cps[0]);
      var rest: seq<Byte> := text[|e|..];
      assert text == e + rest;
      CountOneMore(cps[0], rest);
      CharsCounted(cps[1..], rest);
    }
  }

  /** The units of `A`, the euro sign, and a character beyond 16 bits. */
  lemma ThreeCharacters(enc: Encoding)
    ensures var units := Units(enc, [0x41, 0x20AC, 0x1F600]);
            match enc
            case Format8 => units == [0x41, 0xE2, 0x82, 0xAC, 0xF0, 0x9F, 0x98, 0x80]
            case Format16 => units == [0x41, 0x20AC, 0xD83D, 0xDE00]
            case Format32 => units == [0x41, 0x20AC, 0x1F600]
  {
    JoinThree(enc, 0x41, 0x20AC, 0x1F600);
    if enc.Format8? {
      InBytes();
    } else if enc.Format16? {
      assert Encoded16(0x1F600) == [0xD83D, 0xDE00];
    }
  }

  lemma InBytes()
    ensures Encoded8(0x41) == [0x41] && Encoded8(0x20AC) == [0xE2, 0x82, 0xAC]
    ensures Encoded8(0x1F600) == [0xF0, 0x9F, 0x98, 0x80]
  {
    Spelled(0x41);
    Spelled(0x20AC);
    Spelled(0x1F600);
  }

  lemma JoinThree(enc: Encoding, x: CodePoint, y: CodePoint, z: CodePoint)
    ensures Units(enc, [x, y, z]) == (enc.Encoded(x) + enc.Encoded(y)) + enc.Encoded(z)
  {
    OneCharacter(enc, x);
    OneCharacter(enc, y);
    OneCharacter(enc, z);
    TextAppend(enc, [x], [y]);
    TextAppend(enc, [x] + [y], [z]);
    assert ([x] + [y]) + [z] == [x, y, z];
  }

  lemma OneCharacter(enc: Encoding, c: CodePoint)
    ensures Units(enc, [c]) == enc.Encoded(c)
  {
    assert [c][1..] == [] && Units(enc, []) == [];
    assert enc.Encoded(c) + [] == enc.Encoded(c);
  }

  /** The bytes of one unit in a file: the low one first, or last. */
  lemma UnitBytes(b0: Byte, b1: Byte, b2: Byte, b3: Byte)
    ensures InFile(Format8, false, [b0], [b0])
    ensures InFile(Format16, false, [b0, b1], [b0 + 0x100 * b1]) && InFile(Format16, true, [b1, b0], [b0 + 0x100 * b1])
    ensures var u := b0 + 0x100 * b1 + 0x1_0000 * b2 + 0x100_0000 * b3;
            InFile(Format32, false, [b0, b1, b2, b3], [u]) && InFile(Format32, true, [b3, b2, b1, b0], [u])
  {}
}
