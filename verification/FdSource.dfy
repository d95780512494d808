/** The lexer's source that reads a file descriptor through a decoding buffer (src/uls_input.c,
    uls_fill_fd_isrc_utf8). */
module FdSource {
  import opened Bytes
  import opened Transcode
  import opened Utf8

  class Isrc {
    const usrc: Inbuf
    var eof: bool // ULS_ISRC_FL_EOF
    var err: bool // ULS_ISRC_FL_ERR

    constructor (usrc: Inbuf)
      ensures this.usrc == usrc && !eof && !err
    {
      this.usrc, eof, err := usrc, false, false;
    }
  }

  /** The next character does not fit into the free bytes, and the file is at its end or about to be found there. */
  ghost predicate Stuck(cps: seq<CodePoint>, buflen: nat, bufsiz: nat, wchBuffered: nat, isEof: int, nWrds: nat,
                        rest: seq<Byte>) {
    && cps != [] && Full(cps, buflen, bufsiz)
    && (isEof > 0 || (buflen < bufsiz && wchBuffered == 0 && nWrds < 4 && rest == []))
  }

  ghost predicate StuckAtEnd(inp: Inbuf, buflen: nat, bufsiz: nat)
    reads inp, inp.fd
  {
    Stuck(inp.Pending(), buflen, bufsiz, inp.wchBuffered, inp.isEof, inp.nWrds, inp.fd.rest)
  }

  // uls_fill_fd_isrc_utf8: the call, and what it means for the flag
  method FillKnown(inp: Inbuf, buf: array<Byte>, buflen: nat, bufsiz: nat) returns (rc: int, ghost done: seq<CodePoint>)
    requires inp.Valid() && buf != inp.bytesbuf && buflen <= bufsiz <= buf.Length
    modifies inp, inp.bytesbuf, inp.fd, buf
    ensures rc < 0 ==> inp.fd.faulty
    ensures rc >= 0 ==> inp.Valid() && buflen + rc <= bufsiz
    ensures rc >= 0 ==> Written(old(inp.Pending()), done, inp.Pending(), buf[..], buflen, buflen + rc, old(buf[..]))
    ensures rc >= 0 ==> Full(inp.Pending(), buflen + rc, bufsiz)
    ensures rc >= 0 ==> (rc == 0 && inp.isEof > 0 && inp.Pending() != [] <==> old(StuckAtEnd(inp, buflen, bufsiz)))
  {
    ghost var cps, was := inp.Pending(), buf[..];
    ghost var wchBuffered0, isEof0, nWrds0 := inp.wchBuffered, inp.isEof, inp.nWrds;
    ghost var ahead0, rest0 := inp.ahead, inp.fd.rest;
    rc, done := FillUtf8buf(inp, buf, buflen, bufsiz);
    if rc >= 0 {
      NothingDone(cps, done, inp.Pending(), buf[..], buflen, buflen + rc, was);
      WaitingAtEnd(inp, cps, buflen, bufsiz, rc, wchBuffered0, isEof0, nWrds0, ahead0, rest0);
    }
  }

  // uls_fill_fd_isrc_utf8
  method FillFdIsrcUtf8(isrc: Isrc, buf: array<Byte>, buflen: nat, bufsiz: nat)
    returns (rc: int, ghost done: seq<CodePoint>)
    requires isrc.usrc.Valid() && !isrc.eof && buf != isrc.usrc.bytesbuf && buflen <= bufsiz <= buf.Length
    modifies isrc`eof, isrc.usrc, isrc.usrc.bytesbuf, isrc.usrc.fd, buf
    ensures rc < 0 ==> isrc.usrc.fd.faulty
    ensures rc >= 0 ==> isrc.usrc.Valid() && buflen + rc <= bufsiz
    ensures rc >= 0 ==>
      Written(old(isrc.usrc.Pending()), done, isrc.usrc.Pending(), buf[..], buflen, buflen + rc, old(buf[..]))
    ensures rc >= 0 ==> Full(isrc.usrc.Pending(), buflen + rc, bufsiz)
    ensures rc > 0 ==> !isrc.eof
    ensures rc >= 0 ==> (isrc.eof && isrc.usrc.Pending() != [] <==> old(StuckAtEnd(isrc.usrc, buflen, bufsiz)))
  {
    rc, done := FillKnown(isrc.usrc, buf, buflen, bufsiz);
    if rc == 0 {
      if isrc.usrc.isEof > 0 {
        isrc.eof := true;
      } else if isrc.usrc.isEof < 0 {
        rc := -1;
      }
    }
  }

  lemma NothingDone(cps: seq<CodePoint>, done: seq<CodePoint>, pending: seq<CodePoint>, row: seq<Byte>, len0: nat,
                    len: nat, was: seq<Byte>)
    requires Written(cps, done, pending, row, len0, len, was)
    ensures len == len0 ==> pending == cps
  {
    if done != [] {
      assert Units(Format8, done) == Encoded8(done[0]) + Units(Format8, done[1..]);
    }
  }

  lemma WaitingAtEnd(inp: Inbuf, cps: seq<CodePoint>, buflen: nat, bufsiz: nat, rc: nat, wchBuffered0: nat,
                     isEof0: int, nWrds0: nat, ahead0: seq<nat>, rest0: seq<Byte>)
    requires inp.enc.Size(|ahead0|) == |rest0| && (rc == 0 ==> inp.Pending() == cps)
    requires Full(inp.Pending(), buflen + rc, bufsiz)
    requires cps != [] && Full(cps, buflen, bufsiz) ==>
      rc == 0 && KeptWaiting(inp, buflen < bufsiz, wchBuffered0, isEof0, nWrds0, ahead0)
    ensures rc == 0 && inp.isEof > 0 && inp.Pending() != [] <==>
            Stuck(cps, buflen, bufsiz, wchBuffered0, isEof0, nWrds0, rest0)
  {}

  /** With room for any character the end of the file is never flagged too early. */
  lemma RoomForAnyCharacter(inp: Inbuf, buflen: nat, bufsiz: nat)
    requires buflen + UTF8_CH_MAXLEN <= bufsiz
    ensures !StuckAtEnd(inp, buflen, bufsiz)
  {}

  /** What a call promises of the decoded text it promises of its bytes: those that came and those still to come are the
      bytes that were to come, and none come only at the end or where the next character may not fit. That is what the
      input buffer asks of any source. */
  lemma KeepsSourcePromise(cps: seq<CodePoint>, done: seq<CodePoint>, pending: seq<CodePoint>, row: seq<Byte>,
                           buflen: nat, rc: nat, bufsiz: nat, was: seq<Byte>)
    requires Written(cps, done, pending, row, buflen, buflen + rc, was) && Full(pending, buflen + rc, bufsiz)
    ensures PutOut(cps, row[buflen..buflen + rc], pending) && row[..buflen] == was[..buflen]
    ensures rc == 0 ==> Units(Format8, pending) == [] || bufsiz - buflen < UTF8_CH_MAXLEN
  {
    TextAppend(Format8, done, pending);
  }

  /** Behind its first `p` bytes, which are as they were, the buffer holds `out`. */
  ghost predicate Holds(row: seq<Byte>, p: nat, out: seq<Byte>, was: seq<Byte>) {
    p + |out| <= |row| == |was| && row[p..p + |out|] == out && row[..p] == was[..p]
  }

  lemma HoldsMore(row: seq<Byte>, p: nat, q: nat, out: seq<Byte>, was: seq<Byte>,
                  row': seq<Byte>, more: seq<Byte>, out': seq<Byte>)
    requires Holds(row, p, out, was) && q == p + |out| && Holds(row', q, more, row) && out' == out + more
    ensures Holds(row', p, out', was)
  {
    assert row'[p..q] == row'[..q][p..] == row[..q][p..] == row[p..q];
    assert row'[..p] == row'[..q][..p] == row[..q][..p];
    assert row'[p..q + |more|] == row'[p..q] + row'[q..q + |more|];
  }

  lemma WrittenHolds(cps: seq<CodePoint>, out0: seq<Byte>, left: seq<CodePoint>, done: seq<CodePoint>,
                     pending: seq<CodePoint>, row: seq<Byte>, q: nat, q': nat, was: seq<Byte>)
    returns (more: seq<Byte>, out: seq<Byte>)
    requires PutOut(cps, out0, left) && Written(left, done, pending, row, q, q', was)
    ensures q' - q == |more| && Holds(row, q, more, was) && out == out0 + more && PutOut(cps, out, pending)
  {
    more := row[q..q'];
    out := out0 + more;
    TextAppend(Format8, done, pending);
    AssocUnits(out0, Units(Format8, done), Units(Format8, pending));
  }

  // uls_input_read, one call of the source
  method ReadRound(isrc: Isrc, buf: array<Byte>, buflen: nat, bufsiz: nat, ghost cps: seq<CodePoint>,
                   ghost out0: seq<Byte>)
    returns (rc: int, ghost more: seq<Byte>, ghost out: seq<Byte>)
    requires isrc.usrc.Valid() && !isrc.eof && buf != isrc.usrc.bytesbuf && buflen <= bufsiz <= buf.Length
    requires PutOut(cps, out0, isrc.usrc.Pending())
    modifies isrc`eof, isrc.usrc, isrc.usrc.bytesbuf, isrc.usrc.fd, buf
    ensures rc < 0 ==> isrc.usrc.fd.faulty
    ensures rc >= 0 ==> isrc.usrc.Valid() && buflen + rc <= bufsiz && (rc > 0 ==> !isrc.eof)
    ensures rc >= 0 ==> PutOut(cps, out, isrc.usrc.Pending()) && out == out0 + more && |out| == |out0| + rc
    ensures rc >= 0 ==> |more| == rc && Holds(buf[..], buflen, more, old(buf[..]))
    ensures rc >= 0 ==> Full(isrc.usrc.Pending(), buflen + rc, bufsiz)
  {
    ghost var left, row := isrc.usrc.Pending(), buf[..];
    ghost var done;
    rc, done := FillFdIsrcUtf8(isrc, buf, buflen, bufsiz);
    more, out := [], out0;
    if rc >= 0 {
      more, out := WrittenHolds(cps, out0, left, done, isrc.usrc.Pending(), buf[..], buflen, buflen + rc, row);
    }
  }

  method ReadNext(isrc: Isrc, buf: array<Byte>, buflen: nat, bufsiz: nat,
                  ghost cps: seq<CodePoint>, ghost p: nat, ghost out0: seq<Byte>, ghost was: seq<Byte>)
    returns (rc: int, ghost out: seq<Byte>)
    requires isrc.usrc.Valid() && !isrc.eof && buf != isrc.usrc.bytesbuf && buflen <= bufsiz <= buf.Length
    requires PutOut(cps, out0, isrc.usrc.Pending()) && buflen == p + |out0| && Holds(buf[..], p, out0, was)
    modifies isrc`eof, isrc.usrc, isrc.usrc.bytesbuf, isrc.usrc.fd, buf
    ensures rc >= 0 ==> isrc.usrc.Valid() && buflen + rc == p + |out| <= bufsiz && (rc > 0 ==> !isrc.eof)
    ensures rc >= 0 ==> PutOut(cps, out, isrc.usrc.Pending()) && Holds(buf[..], p, out, was)
    ensures rc >= 0 ==> Full(isrc.usrc.Pending(), buflen + rc, bufsiz)
  {
    ghost var row := buf[..];
    ghost var more;
    rc, more, out := ReadRound(isrc, buf, buflen, bufsiz, cps, out0);
    if rc >= 0 {
      HoldsMore(row, p, buflen, out0, was, buf[..], more, out);
    }
  }

  // uls_input_read of this source
  method InputRead(isrc: Isrc, buf: array<Byte>, buflen0: nat, bufsiz: nat) returns (rc: int, ghost out: seq<Byte>)
    requires isrc.usrc.Valid() && buf != isrc.usrc.bytesbuf && buflen0 <= bufsiz <= buf.Length
    modifies isrc, isrc.usrc, isrc.usrc.bytesbuf, isrc.usrc.fd, buf
    ensures rc < 0 ==> isrc.err
    ensures rc >= 0 ==> isrc.usrc.Valid() && buflen0 + rc <= bufsiz && |out| == rc
    ensures rc >= 0 ==>
      PutOut(old(isrc.usrc.Pending()), out, isrc.usrc.Pending()) && Holds(buf[..], buflen0, out, old(buf[..]))
    ensures rc >= 0 && !old(isrc.eof) ==> Full(isrc.usrc.Pending(), buflen0 + rc, bufsiz)
  {
    ghost var cps, was := isrc.usrc.Pending(), buf[..];
    var buflen := buflen0;
    out := [];
    while true
      invariant buflen == buflen0 + |out| <= bufsiz && isrc.usrc.Valid()
      invariant PutOut(cps, out, isrc.usrc.Pending()) && Holds(buf[..], buflen0, out, was)
      invariant isrc.eof ==> old(isrc.eof)
      decreases bufsiz - buflen
    {
      if isrc.err {
        return -1, out;
      }
      if isrc.eof {
        break;
      }
      rc, out := ReadNext(isrc, buf, buflen, bufsiz, cps, buflen0, out, was);
      if rc < 0 {
        isrc.eof, isrc.err := true, true;
        return -1, out;
      }
      buflen := buflen + rc;
      if buflen >= bufsiz || rc == 0 {
        break;
      }
    }
    rc := buflen - buflen0;
  }

  /** Whatever pieces come and wherever the end is flagged, the read takes in the whole text exactly when all of it
      fits: the end can be flagged in front of a pending character only if the free bytes are too few for the text. */
  lemma WholeTextRead(cps: seq<CodePoint>, out: seq<Byte>, pending: seq<CodePoint>, buflen0: nat, bufsiz: nat)
    requires PutOut(cps, out, pending) && Full(pending, buflen0 + |out|, bufsiz) && buflen0 + |out| <= bufsiz
    ensures pending == [] <==> buflen0 + |Units(Format8, cps)| <= bufsiz
    ensures pending == [] ==> out == Units(Format8, cps)
  {
    if pending != [] {
      assert Units(Format8, pending) == Encoded8(pending[0]) + Units(Format8, pending[1..]);
    }
  }

  lemma TextUnits()
    ensures Units(Format8, [0x20AC]) == [0xE2, 0x82, 0xAC]
    ensures Units(Format8, [0x61, 0x20AC]) == [0x61, 0xE2, 0x82, 0xAC]
  {
    Spelled(0x20AC);
    Spelled(0x61);
    var euro: seq<CodePoint> := [0x20AC];
    assert Units(Format8, euro) == Encoded8(0x20AC) + Units(Format8, euro[1..]);
    var text: seq<CodePoint> := [0x61, 0x20AC];
    assert text[1..] == euro;
    assert Units(Format8, text) == Encoded8(0x61) + Units(Format8, text[1..]);
  }

  /** A file of two characters: after the first one is delivered, a call with one free byte flags the end of the source
      although the second character, three bytes long, is still pending. */
  method CharacterLost() returns (isrc: Isrc)
    ensures isrc.usrc.Valid() && isrc.eof && isrc.usrc.Pending() == [0x20AC]
  {
    TextUnits();
    var fd := new Descriptor([0x61, 0xE2, 0x82, 0xAC], false);
    var bytesbuf := new Byte[16];
    assert forall k :: 0 <= k < 4 ==> Format8.UnitAt(false, fd.rest, 0, k) == fd.rest[k];
    var inp := new Inbuf(bytesbuf, Format8, false, fd, [0x61, 0x20AC]);
    isrc := new Isrc(inp);
    DeliverFirst(inp);
    var buf := new Byte[1];
    var rc, done := FillFdIsrcUtf8(isrc, buf, 0, 1);
  }

  method DeliverFirst(inp: Inbuf)
    requires inp.Valid() && inp.Pending() == [0x61, 0x20AC] && inp.isEof == 0 && inp.wchBuffered == 0 && inp.nWrds == 0
    requires inp.enc == Format8 && inp.bytesbuf.Length == 16 && |inp.ahead| == 4 && !inp.fd.faulty
    modifies inp, inp.bytesbuf, inp.fd
    ensures inp.Valid() && inp.Pending() == [0x20AC] && StuckAtEnd(inp, 0, 1)
  {
    TextUnits();
    Spelled(0x20AC);
    var out := new Byte[4];
    var n, given := inp.Drain(out, 0, 1);
    if n >= 0 {
      assert n == 1 && given == [0x61] && inp.todo == [0x20AC];
      assert inp.ahead == [] && |inp.held| == 3;
    }
  }
}
