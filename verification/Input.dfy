/** The lexer's input buffer over a source that delivers its bytes in pieces of any size, and the search for the end
    of a comment across refills (src/uls_input.c). */
module Input {
  import opened Bytes
  import opened OutBufs
  import opened Utf8

  const INPUT_BUFSIZ: Positive := 4096
  const COMM_MARK_MAXSIZ: nat := 15

  /** A byte source: what is still to come, and its flags. */
  class Source {
    var rest: seq<Byte>
    var eof: bool
    var err: bool

    ghost predicate Valid()
      reads this
    {
      eof && !err ==> rest == []
    }

    constructor (content: seq<Byte>)
      ensures Valid() && rest == content && !err
    {
      rest, eof, err := content, false, false;
    }

    // usrc_fillbuff: some bytes; none at the end, or when the next character may not fit; an error at any time
    method Fillbuff(buf: array<Byte>, buflen: nat, bufsiz: nat) returns (rc: int)
      requires Valid() && !eof && !err && buflen <= bufsiz <= buf.Length
      modifies this, buf
      ensures rc >= 0 ==> Valid() && !err && buflen + rc <= bufsiz
      ensures rc >= 0 ==> buf[buflen..buflen + rc] + rest == old(rest) && buf[..buflen] == old(buf[..buflen])
      ensures rc == 0 ==> rest == [] || bufsiz - buflen < UTF8_CH_MAXLEN
    {
      if * {
        return -1;
      }
      var free := bufsiz - buflen;
      var n: nat :| n <= |rest| && n <= free && (n == 0 ==> rest == [] || free < UTF8_CH_MAXLEN);
      forall i | 0 <= i < n {
        buf[buflen + i] := rest[i];
      }
      assert buf[buflen..buflen + n] == rest[..n];
      rest := rest[n..];
      eof := rest == [] && n == 0;
      rc := n;
    }
  }

  // uls_input_read
  method InputRead(isrc: Source, buf: array<Byte>, buflen0: nat, bufsiz: nat) returns (rc: int)
    requires isrc.Valid() && buflen0 <= bufsiz <= buf.Length
    modifies isrc, buf
    ensures rc < 0 ==> isrc.err
    ensures rc >= 0 ==> isrc.Valid() && !isrc.err && buflen0 + rc <= bufsiz
    ensures rc >= 0 ==>
      buf[buflen0..buflen0 + rc] + isrc.rest == old(isrc.rest) && buf[..buflen0] == old(buf[..buflen0])
    ensures rc == 0 ==> isrc.rest == [] || bufsiz - buflen0 < UTF8_CH_MAXLEN
  {
    var buflen := buflen0;
    assert buf[buflen0..buflen0] + isrc.rest == isrc.rest;
    while true
      invariant buflen0 <= buflen <= bufsiz && isrc.Valid() && (buflen > buflen0 ==> !isrc.err)
      invariant buf[buflen0..buflen] + isrc.rest == old(isrc.rest) && buf[..buflen0] == old(buf[..buflen0])
      decreases bufsiz - buflen
    {
      if isrc.err {
        return -1;
      }
      if isrc.eof {
        break;
      }
      ghost var had, row := isrc.rest, buf[..];
      rc := isrc.Fillbuff(buf, buflen, bufsiz);
      if rc < 0 {
        isrc.eof, isrc.err := true, true;
        return -1;
      }
      ReadMore(row, buf[..], buflen0, buflen, rc, isrc.rest, had, old(isrc.rest));
      buflen := buflen + rc;
      if buflen >= bufsiz || rc == 0 {
        break;
      }
    }
    rc := buflen - buflen0;
  }

  lemma ReadMore(row: seq<Byte>, row': seq<Byte>, p: nat, q: nat, n: nat, rest: seq<Byte>, had: seq<Byte>,
                 all: seq<Byte>)
    requires p <= q && q + n <= |row| == |row'| && row'[..q] == row[..q]
    requires row'[q..q + n] + rest == had && row[p..q] + had == all
    ensures row'[p..q + n] + rest == all && row'[..p] == row[..p]
  {
    assert row'[p..q] == row'[..q][p..] == row[..q][p..] == row[p..q];
    assert row'[..p] == row'[..q][..p] == row[..q][..p];
    assert row'[p..q + n] == row'[p..q] + row'[q..q + n];
    Assoc(row'[p..q], row'[q..q + n], rest);
  }

  class InputBuf {
    const isource: Source
    var rawbuf: array<Byte>
    var rawbufPtr: nat
    var rawbufBytes: nat

    ghost predicate Valid()
      reads this, isource
    {
      isource.Valid() && rawbufPtr + rawbufBytes <= rawbuf.Length
    }

    // uls_input_reset with a buffer, and the source
    constructor (isource: Source, bufsiz: Positive)
      requires isource.Valid()
      ensures Valid() && Stream() == isource.rest && this.isource == isource && rawbuf.Length >= INPUT_BUFSIZ
      ensures bufsiz <= rawbuf.Length < bufsiz + 4096 && rawbuf.Length % 4096 == 0
      ensures fresh(rawbuf)
    {
      this.isource := isource;
      rawbuf := new Byte[Roundup(bufsiz, INPUT_BUFSIZ)];
      rawbufPtr, rawbufBytes := 0, 0;
    }

    ghost function Unread(): seq<Byte>
      requires rawbufPtr + rawbufBytes <= rawbuf.Length
      reads this, rawbuf
    {
      rawbuf[rawbufPtr..rawbufPtr + rawbufBytes]
    }

    /** Everything the lexer has not consumed: in the buffer, then in the source. */
    ghost function Stream(): seq<Byte>
      requires Valid()
      reads this, rawbuf, isource
    {
      Unread() + isource.rest
    }

    // uls_regulate_rawbuf
    method RegulateRawbuf()
      requires Valid()
      modifies this`rawbufPtr, rawbuf
      ensures Valid() && rawbufPtr == 0 && Unread() == old(Unread())
    {
      if 0 < rawbufPtr {
        forall i | 0 <= i < rawbufBytes {
          rawbuf[i] := rawbuf[rawbufPtr + i];
        }
        rawbufPtr := 0;
      }
    }

    // uls_resize_rawbuf, with the unread bytes at the front
    method ResizeRawbuf(delta0: int) returns (siz: nat)
      requires Valid() && rawbufPtr == 0
      modifies this`rawbuf
      ensures Valid() && Unread() == old(Unread()) && siz == rawbuf.Length && (rawbuf == old(rawbuf) || fresh(rawbuf))
      ensures delta0 > 0 ==> siz >= old(rawbuf.Length) + delta0 && siz >= INPUT_BUFSIZ
      ensures delta0 < 0 ==> siz >= old(rawbuf.Length) + delta0
    {
      var delta := delta0;
      if delta < 0 {
        var m := rawbuf.Length - rawbufBytes;
        if m < -delta {
          delta := -m;
        }
      }
      if delta != 0 {
        var m: nat := rawbuf.Length + delta;
        m := Roundup(m, if delta > 0 then INPUT_BUFSIZ else 4);
        var was := rawbuf;
        rawbuf := new Byte[m];
        forall i | 0 <= i < rawbufBytes {
          rawbuf[i] := was[i];
        }
      }
      siz := rawbuf.Length;
    }

    // uls_input_refill_buffer: room for at least one more character
    method MakeRoom() returns (rc: int)
      requires Valid() && rawbufPtr == 0 && (rawbuf.Length == 0 || rawbuf.Length >= INPUT_BUFSIZ)
      modifies this`rawbuf
      ensures Valid() && Unread() == old(Unread()) && (rawbuf == old(rawbuf) || fresh(rawbuf))
      ensures rawbuf.Length >= INPUT_BUFSIZ && rawbufBytes + UTF8_CH_MAXLEN <= rawbuf.Length && rc >= 0
    {
      var n := rawbufBytes + UTF8_CH_MAXLEN;
      rc := 0;
      if n > rawbuf.Length {
        rc := ResizeRawbuf(n - rawbuf.Length);
      }
    }

    // uls_input_refill_buffer: one read behind the unread bytes
    method ReadBehind() returns (rc: int)
      requires Valid() && rawbufPtr == 0
      modifies this`rawbufBytes, isource, rawbuf
      ensures rc < 0 ==> isource.err
      ensures rc >= 0 ==> Valid() && !isource.err && Stream() == old(Stream()) && rawbufBytes == old(rawbufBytes) + rc
      ensures rc == 0 ==> isource.rest == [] || old(rawbuf.Length - rawbufBytes) < UTF8_CH_MAXLEN
    {
      ghost var had, unread := isource.rest, Unread();
      rc := InputRead(isource, rawbuf, rawbufBytes, rawbuf.Length);
      if rc >= 0 {
        Appended(rawbuf[..], rawbufBytes, rc, unread, isource.rest, had);
        rawbufBytes := rawbufBytes + rc;
      }
    }

    // uls_input_refill_buffer: the loop; the pause between two reads is left out
    method ReadAtLeast(nReqBytes: nat) returns (rc: int)
      requires Valid() && rawbufPtr == 0 && rawbuf.Length >= INPUT_BUFSIZ && nReqBytes + UTF8_CH_MAXLEN <= INPUT_BUFSIZ
      requires rawbufBytes < nReqBytes
      modifies this`rawbufBytes, isource, rawbuf
      ensures rc < 0 ==> isource.err
      ensures rc >= 0 ==> Valid() && !isource.err && Stream() == old(Stream()) && rc == rawbufBytes
      ensures rc >= 0 ==> rc >= nReqBytes || isource.rest == []
    {
      while true
        invariant Valid() && Stream() == old(Stream()) && rawbufBytes < nReqBytes
        decreases rawbuf.Length - rawbufBytes
      {
        rc := ReadBehind();
        if rc < 0 {
          return -1;
        }
        if rc == 0 || rawbufBytes >= nReqBytes {
          break;
        }
      }
      rc := rawbufBytes;
    }

    // uls_input_refill_buffer
    method RefillBuffer(nReqBytes: nat) returns (rc: int)
      requires Valid() && nReqBytes + UTF8_CH_MAXLEN <= INPUT_BUFSIZ
      requires rawbuf.Length == 0 || rawbuf.Length >= INPUT_BUFSIZ
      modifies this, isource, rawbuf
      ensures rawbuf == old(rawbuf) || fresh(rawbuf)
      ensures rc < 0 ==> isource.err
      ensures rc >= 0 ==> Valid() && Stream() == old(Stream()) && rc == rawbufBytes
      ensures rc >= 0 ==> rawbuf.Length == old(rawbuf.Length) || rawbuf.Length >= INPUT_BUFSIZ
      ensures rc >= 0 ==> rc >= nReqBytes || (isource.rest == [] && !isource.err)
    {
      if nReqBytes <= rawbufBytes {
        return rawbufBytes;
      }
      RegulateRawbuf();
      rc := MakeRoom();
      rc := ReadAtLeast(nReqBytes);
    }
  }

  lemma Appended(row: seq<Byte>, n: nat, rc: nat, unread: seq<Byte>, rest: seq<Byte>, had: seq<Byte>)
    requires n + rc <= |row| && row[..n] == unread && row[n..n + rc] + rest == had
    ensures row[0..n + rc] + rest == unread + had
  {
    assert row[0..n + rc] == unread + row[n..n + rc];
    Assoc(unread, row[n..n + rc], rest);
  }

  // ---------- the end of a comment ----------

  /** The mark stands at offset `i`. */
  ghost predicate OccursAt(text: seq<Byte>, mark: seq<Byte>, i: nat) {
    i + |mark| <= |text| && text[i..i + |mark|] == mark
  }

  /** How many line feeds a text holds. */
  ghost function CountLf(s: seq<Byte>): nat {
    if s == [] then 0 else CountLf(s[..|s| - 1]) + if s[|s| - 1] == LF then 1 else 0
  }

  lemma {:induction false} CountsLineFeeds(s: seq<Byte>)
    ensures CountLf(s) == multiset(s)[10]
    decreases |s|
  {
    if s != [] {
      CountsLineFeeds(s[..|s| - 1]);
      assert s == s[..|s| - 1] + [s[|s| - 1]];
    }
  }

  /** `skipped` is what stands before the first place where the mark may start. */
  ghost predicate Skipped(text: seq<Byte>, mark: seq<Byte>, skipped: seq<Byte>, left: seq<Byte>) {
    text == skipped + left && forall i :: 0 <= i < |skipped| ==> !OccursAt(text, mark, i)
  }

  lemma MarkInFront(text: seq<Byte>, mark: seq<Byte>, skipped: seq<Byte>, left: seq<Byte>)
    requires Skipped(text, mark, skipped, left)
    ensures OccursAt(text, mark, |skipped|) <==> |mark| <= |left| && left[..|mark|] == mark
  {
    if |mark| <= |left| {
      assert text[|skipped|..|skipped| + |mark|] == left[..|mark|];
    }
  }

  /** One more byte is skipped. */
  lemma SkipOne(text: seq<Byte>, mark: seq<Byte>, skipped: seq<Byte>, left: seq<Byte>)
    requires Skipped(text, mark, skipped, left) && left != [] && !OccursAt(text, mark, |skipped|)
    ensures Skipped(text, mark, skipped + [left[0]], left[1..])
    ensures CountLf(skipped + [left[0]]) == CountLf(skipped) + if left[0] == LF then 1 else 0
  {
    assert left == [left[0]] + left[1..];
    Assoc(skipped, [left[0]], left[1..]);
    CountLfSnoc(skipped, left[0]);
    var more := skipped + [left[0]];
    forall i | 0 <= i < |more| ensures !OccursAt(text, mark, i) {
      assert i < |skipped| || i == |skipped|;
    }
  }

  lemma CountLfSnoc(s: seq<Byte>, ch: Byte)
    ensures CountLf(s + [ch]) == CountLf(s) + if ch == LF then 1 else 0
  {
    var t := s + [ch];
    assert t[..|t| - 1] == s;
  }

  /** What the call promises: it stops behind the first mark, or there is none. */
  ghost predicate StopsBehindMark(text: seq<Byte>, mark: seq<Byte>, left: seq<Byte>, nLfs: nat) {
    exists i :: 0 <= i && OccursAt(text, mark, i) && StopsBehind(text, mark, left, nLfs, i)
  }

  ghost predicate StopsBehind(text: seq<Byte>, mark: seq<Byte>, left: seq<Byte>, nLfs: nat, i: nat)
    requires OccursAt(text, mark, i)
  {
    && (forall j :: 0 <= j < i ==> !OccursAt(text, mark, j))
    && left == text[i + |mark|..] && nLfs == CountLf(text[..i])
  }

  lemma StoppedBehind(text: seq<Byte>, mark: seq<Byte>, skipped: seq<Byte>, left: seq<Byte>)
    requires Skipped(text, mark, skipped, left) && OccursAt(text, mark, |skipped|)
    ensures |mark| <= |left| && StopsBehindMark(text, mark, left[|mark|..], CountLf(skipped))
  {
    MarkInFront(text, mark, skipped, left);
    assert text[|skipped| + |mark|..] == left[|mark|..] && text[..|skipped|] == skipped;
    assert StopsBehind(text, mark, left[|mark|..], CountLf(skipped), |skipped|);
  }

  lemma NoMarkLeft(text: seq<Byte>, mark: seq<Byte>, skipped: seq<Byte>, left: seq<Byte>)
    requires Skipped(text, mark, skipped, left) && |left| < |mark|
    ensures forall i :: 0 <= i ==> !OccursAt(text, mark, i)
  {}

  // the comparison in input_skip_comment
  method MarkAt(buf: array<Byte>, lptr: nat, mark: seq<Byte>) returns (same: bool)
    requires mark != [] && lptr + |mark| <= buf.Length
    ensures same <==> buf[lptr..lptr + |mark|] == mark
  {
    var n: nat := 0;
    while n < |mark| && buf[lptr + n] == mark[n]
      invariant n <= |mark| && buf[lptr..lptr + n] == mark[..n]
    {
      n := n + 1;
    }
    same := n == |mark|;
    assert same ==> mark[..n] == mark;
    assert !same ==> buf[lptr..lptr + |mark|][n] != mark[n];
  }

  /** What stands between two cursors in the buffer, and then in the source. */
  ghost function From(inp: InputBuf, lptr: nat, lptrEnd: nat): seq<Byte>
    requires lptr <= lptrEnd <= inp.rawbuf.Length
    reads inp, inp.rawbuf, inp.isource
  {
    inp.rawbuf[lptr..lptrEnd] + inp.isource.rest
  }

  ghost predicate Window(inp: InputBuf, lptr: nat, lptrEnd: nat)
    reads inp, inp.isource
  {
    && inp.isource.Valid() && lptr <= lptrEnd <= inp.rawbuf.Length
    && (inp.rawbuf.Length == 0 || inp.rawbuf.Length >= INPUT_BUFSIZ)
  }

  // input_skip_comment: at least `lenMark` bytes to look at, or the number of those there are, or -1
  method LookAhead(inp: InputBuf, lptr: nat, lptrEnd: nat, lenMark: nat) returns (rc: int, lptr': nat, lptrEnd': nat)
    requires Window(inp, lptr, lptrEnd) && lenMark <= COMM_MARK_MAXSIZ
    modifies inp, inp.isource, inp.rawbuf
    ensures inp.rawbuf == old(inp.rawbuf) || fresh(inp.rawbuf)
    ensures rc < 0 ==> inp.isource.err
    ensures rc >= 0 ==> Window(inp, lptr', lptrEnd') && rc == lptrEnd' - lptr'
    ensures rc >= 0 ==> From(inp, lptr', lptrEnd') == old(From(inp, lptr, lptrEnd))
    ensures 0 <= rc < lenMark ==> inp.isource.rest == [] && !inp.isource.err
  {
    rc, lptr', lptrEnd' := lptrEnd - lptr, lptr, lptrEnd;
    if lptrEnd < lptr + lenMark {
      inp.rawbufPtr := lptr;
      inp.rawbufBytes := lptrEnd - lptr;
      rc := inp.RefillBuffer(lenMark);
      lptr' := inp.rawbufPtr;
      lptrEnd' := lptr' + inp.rawbufBytes;
    }
  }

  /** The first `n` bytes between two cursors, and what is left behind them. */
  lemma InWindow(row: seq<Byte>, lptr: nat, lptrEnd: nat, n: nat, rest: seq<Byte>)
    requires 0 < n && lptr + n <= lptrEnd <= |row|
    ensures var left := row[lptr..lptrEnd] + rest;
            left[..n] == row[lptr..lptr + n] && left[n..] == row[lptr + n..lptrEnd] + rest && left[0] == row[lptr]
  {}

  lemma FoundHere(row: seq<Byte>, lptr: nat, lptrEnd: nat, rest: seq<Byte>, text: seq<Byte>, mark: seq<Byte>,
                  skipped: seq<Byte>)
    requires mark != [] && lptr + |mark| <= lptrEnd <= |row| && row[lptr..lptr + |mark|] == mark
    requires Skipped(text, mark, skipped, row[lptr..lptrEnd] + rest)
    ensures StopsBehindMark(text, mark, row[lptr + |mark|..lptrEnd] + rest, CountLf(skipped))
  {
    InWindow(row, lptr, lptrEnd, |mark|, rest);
    MarkInFront(text, mark, skipped, row[lptr..lptrEnd] + rest);
    StoppedBehind(text, mark, skipped, row[lptr..lptrEnd] + rest);
  }

  lemma NotHere(row: seq<Byte>, lptr: nat, lptrEnd: nat, rest: seq<Byte>, text: seq<Byte>, mark: seq<Byte>,
                skipped: seq<Byte>)
    requires mark != [] && lptr + |mark| <= lptrEnd <= |row| && row[lptr..lptr + |mark|] != mark
    requires Skipped(text, mark, skipped, row[lptr..lptrEnd] + rest)
    ensures Skipped(text, mark, skipped + [row[lptr]], row[lptr + 1..lptrEnd] + rest)
    ensures CountLf(skipped + [row[lptr]]) == CountLf(skipped) + if row[lptr] == LF then 1 else 0
  {
    InWindow(row, lptr, lptrEnd, |mark|, rest);
    InWindow(row, lptr, lptrEnd, 1, rest);
    MarkInFront(text, mark, skipped, row[lptr..lptrEnd] + rest);
    SkipOne(text, mark, skipped, row[lptr..lptrEnd] + rest);
  }

  // input_skip_comment: the mark, or one more byte to skip
  method CompareMark(inp: InputBuf, mark: seq<Byte>, lptr: nat, lptrEnd: nat, nLfs: nat, ghost text: seq<Byte>,
                     ghost skipped: seq<Byte>)
    returns (found: bool, lptr': nat, nLfs': nat, ghost skipped': seq<Byte>)
    requires Window(inp, lptr, lptrEnd) && 1 <= |mark| <= lptrEnd - lptr
    requires Skipped(text, mark, skipped, From(inp, lptr, lptrEnd)) && nLfs == CountLf(skipped)
    ensures Window(inp, lptr', lptrEnd)
    ensures found ==> StopsBehindMark(text, mark, From(inp, lptr', lptrEnd), nLfs')
    ensures !found ==> Skipped(text, mark, skipped', From(inp, lptr', lptrEnd))
    ensures !found ==> nLfs' == CountLf(skipped') && |skipped'| == |skipped| + 1
  {
    nLfs', skipped' := nLfs, skipped;
    found := MarkAt(inp.rawbuf, lptr, mark);
    if found {
      FoundHere(inp.rawbuf[..], lptr, lptrEnd, inp.isource.rest, text, mark, skipped);
      lptr' := lptr + |mark|;
    } else {
      NotHere(inp.rawbuf[..], lptr, lptrEnd, inp.isource.rest, text, mark, skipped);
      if inp.rawbuf[lptr] == LF {
        nLfs' := nLfs' + 1;
      }
      lptr', skipped' := lptr + 1, skipped' + [inp.rawbuf[lptr]];
    }
  }

  // one round of input_skip_comment: 1 behind the mark, 0 behind one more byte, -1 when there is no mark, -2 for an
  // error
  method SkipRound(inp: InputBuf, mark: seq<Byte>, lptr: nat, lptrEnd: nat, nLfs: nat, ghost text: seq<Byte>,
                   ghost skipped: seq<Byte>)
    returns (st: int, lptr': nat, lptrEnd': nat, nLfs': nat, ghost skipped': seq<Byte>)
    requires Window(inp, lptr, lptrEnd) && 1 <= |mark| <= COMM_MARK_MAXSIZ
    requires Skipped(text, mark, skipped, From(inp, lptr, lptrEnd)) && nLfs == CountLf(skipped)
    modifies inp, inp.isource, inp.rawbuf
    ensures inp.rawbuf == old(inp.rawbuf) || fresh(inp.rawbuf)
    ensures -2 <= st <= 1
    ensures st == -2 ==> inp.isource.err
    ensures st == -1 ==> inp.isource.rest == [] && !inp.isource.err
    ensures st == -1 ==> forall i :: 0 <= i ==> !OccursAt(text, mark, i)
    ensures st >= -1 ==> Window(inp, lptr', lptrEnd')
    ensures st == 0 ==> Skipped(text, mark, skipped', From(inp, lptr', lptrEnd'))
    ensures st == 0 ==> nLfs' == CountLf(skipped') && |skipped'| == |skipped| + 1
    ensures st == 1 ==> StopsBehindMark(text, mark, From(inp, lptr', lptrEnd'), nLfs')
  {
    nLfs', skipped' := nLfs, skipped;
    var rc;
    rc, lptr', lptrEnd' := LookAhead(inp, lptr, lptrEnd, |mark|);
    if rc < 0 {
      st := -2;
    } else if rc < |mark| {
      NoMarkLeft(text, mark, skipped, From(inp, lptr', lptrEnd'));
      st := -1;
    } else {
      var found;
      found, lptr', nLfs', skipped' := CompareMark(inp, mark, lptr', lptrEnd', nLfs, text, skipped);
      st := if found then 1 else 0;
    }
  }

  // input_skip_comment: the loop; 1 behind the mark, -1 when there is no mark, -2 for an error
  method SkipToMark(inp: InputBuf, mark: seq<Byte>, lptr0: nat, lptrEnd0: nat)
    returns (st: int, lptr: nat, lptrEnd: nat, nLfs: nat)
    requires Window(inp, lptr0, lptrEnd0) && 1 <= |mark| <= COMM_MARK_MAXSIZ
    modifies inp, inp.isource, inp.rawbuf
    ensures inp.rawbuf == old(inp.rawbuf) || fresh(inp.rawbuf)
    ensures st in {-2, -1, 1} && (st == -2 ==> inp.isource.err)
    ensures st >= -1 ==> Window(inp, lptr, lptrEnd)
    ensures st == -1 ==>
      inp.isource.rest == [] && forall i :: 0 <= i ==> !OccursAt(old(From(inp, lptr0, lptrEnd0)), mark, i)
    ensures st == 1 ==> StopsBehindMark(old(From(inp, lptr0, lptrEnd0)), mark, From(inp, lptr, lptrEnd), nLfs)
  {
    lptr, lptrEnd, nLfs, st := lptr0, lptrEnd0, 0, 0;
    ghost var text, skipped: seq<Byte> := From(inp, lptr, lptrEnd), [];
    while st == 0
      invariant inp.rawbuf == old(inp.rawbuf) || fresh(inp.rawbuf)
      invariant -2 <= st <= 1 && (st == -2 ==> inp.isource.err) && (st >= -1 ==> Window(inp, lptr, lptrEnd))
      invariant st == 0 ==> Skipped(text, mark, skipped, From(inp, lptr, lptrEnd)) && nLfs == CountLf(skipped)
      invariant st == -1 ==> inp.isource.rest == [] && forall i :: 0 <= i ==> !OccursAt(text, mark, i)
      invariant st == 1 ==> StopsBehindMark(text, mark, From(inp, lptr, lptrEnd), nLfs)
      decreases if st == 0 then 1 else 0, |text| - |skipped|
    {
      st, lptr, lptrEnd, nLfs, skipped := SkipRound(inp, mark, lptr, lptrEnd, nLfs, text, skipped);
    }
  }

  // input_skip_comment: 1 behind the mark, 0 when the comment is not terminated, -1 for an error
  method InputSkipComment(inp: InputBuf, mark: seq<Byte>) returns (stat: int, nLfs: nat)
    requires inp.Valid() && (inp.rawbuf.Length == 0 || inp.rawbuf.Length >= INPUT_BUFSIZ)
    requires 1 <= |mark| <= COMM_MARK_MAXSIZ
    modifies inp, inp.isource, inp.rawbuf
    ensures stat == -1 || stat == 0 || stat == 1
    ensures stat == -1 ==> inp.isource.err
    ensures inp.rawbuf == old(inp.rawbuf) || fresh(inp.rawbuf)
    ensures stat >= 0 ==> inp.Valid() && (inp.rawbuf.Length == 0 || inp.rawbuf.Length >= INPUT_BUFSIZ)
    ensures stat == 1 ==> StopsBehindMark(old(inp.Stream()), mark, inp.Stream(), nLfs)
    ensures stat == 0 ==> inp.Stream() == [] && forall i :: 0 <= i ==> !OccursAt(old(inp.Stream()), mark, i)
  {
    ghost var text := inp.Stream();
    assert From(inp, inp.rawbufPtr, inp.rawbufPtr + inp.rawbufBytes) == text;
    var st, lptr, lptrEnd;
    st, lptr, lptrEnd, nLfs := SkipToMark(inp, mark, inp.rawbufPtr, inp.rawbufPtr + inp.rawbufBytes);
    assert st == -1 ==> forall i :: 0 <= i ==> !OccursAt(text, mark, i);
    if st < 0 {
      // uls_input_reset_cursor
      lptr, lptrEnd := 0, 0;
    }
    inp.rawbufPtr := lptr;
    inp.rawbufBytes := lptrEnd - lptr;
    stat := if st == 1 then 1 else if st == -2 then -1 else 0;
  }
}
