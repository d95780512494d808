/** Text records: a token id and a length in front of the text, printed (src/uls_ostream.c) and parsed
    (src/uls_context.c, get_txthdr_1; src/uls_misc.c, splitint; src/uls_prim.c, is_pure_integer). */
module TxtRecord {
  import opened Bytes
  import opened Numerals
  import opened OutBufs

  /** A decimal integer as printf's `%d` shows it. */
  ghost function Decimal(n: int): seq<Byte> {
    if n < 0 then [MINUS] + Text(10, -n) else Text(10, n)
  }

  ghost function Blanks(n: nat): (s: seq<Byte>)
    ensures |s| == n && forall i :: 0 <= i < n ==> s[i] == SPACE
  {
    seq(n, _ => SPACE)
  }

  /** `%5d` */
  ghost function Padded(n: int): seq<Byte> {
    Blanks(Missing(Decimal(n))) + Decimal(n)
  }

  ghost function Missing(digits: seq<Byte>): nat {
    if |digits| < 5 then 5 - |digits| else 0
  }

  /** An integer in a field of five characters: it stands at the end of at least five, and blanks fill what is left. */
  lemma FieldOfFive(n: int)
    ensures var s, d := Padded(n), Decimal(n);
            && |s| == (if |d| > 5 then |d| else 5) && s[|s| - |d|..] == d
            && forall i :: 0 <= i < |s| - |d| ==> s[i] == 32
  {}

  /** The digits of an integer are the canonical decimal of its size, behind a minus sign if it is negative. */
  lemma DecimalIs(n: int)
    ensures var d := Decimal(n);
            && d != [] && (d[0] == 45 <==> n < 0)
            && var ds := if n < 0 then d[1..] else d;
               Canonical(10, ds) && Val(10, ds) == if n < 0 then -n else n
  {
    TextIsCanonical(10, if n < 0 then -n else n);
    assert n >= 0 ==> IsNumRadix(Decimal(n)[0], 10) >= 0;
  }

  /** One record, character by character: the id, the length and the text, a blank behind each number, a line feed. */
  lemma RecordLaidOut(tokId: int, text: seq<Byte>)
    ensures var s, p, q := Record(tokId, text), |Padded(tokId)|, |Padded(|text|)|;
            && |s| == p + q + |text| + 3 && s[..p] == Padded(tokId) && s[p] == 32
            && s[p + 1..p + 1 + q] == Padded(|text|) && s[p + 1 + q] == 32
            && s[p + q + 2..|s| - 1] == text && s[|s| - 1] == 10
  {
    var s, p, q, h := Record(tokId, text), |Padded(tokId)|, |Padded(|text|)|, Header(tokId, |text|);
    HeaderLaidOut(tokId, |text|);
    assert h == s[..p + q + 2];
    assert s[..p] == h[..p] && s[p] == h[p];
    assert s[p + 1..p + 1 + q] == h[p + 1..p + 1 + q] && s[p + 1 + q] == h[p + 1 + q];
  }

  lemma HeaderLaidOut(tokId: int, len: nat)
    ensures var h, p, q := Header(tokId, len), |Padded(tokId)|, |Padded(len)|;
            && |h| == p + q + 2 && h[..p] == Padded(tokId) && h[p] == 32 && h[p + 1..p + 1 + q] == Padded(len)
            && h[p + 1 + q] == 32
  {}

  ghost function Header(tokId: int, len: nat): seq<Byte> {
    ((Padded(tokId) + [SPACE]) + Padded(len)) + [SPACE]
  }

  ghost function Record(tokId: int, text: seq<Byte>): seq<Byte> {
    (Header(tokId, |text|) + text) + [LF]
  }

  ghost function Records(recs: seq<(int, seq<Byte>)>): seq<Byte> {
    if recs == [] then [] else Record(recs[0].0, recs[0].1) + Records(recs[1..])
  }

  // ---------- printing ----------

  // uls_lf_number_u, decimal: the digits stand at the end of the buffer
  method LfNumberU(numstr: array<Byte>, num0: nat) returns (i: nat)
    requires |Text(10, num0)| < numstr.Length
    modifies numstr
    ensures i < numstr.Length && numstr[i..numstr.Length - 1] == Text(10, num0)
  {
    var num := num0;
    var end := numstr.Length - 1;
    i := end;
    numstr[end] := NUL;
    if num == 0 {
      i := i - 1;
      numstr[i] := ZERO;
      assert numstr[i..end] == [ZERO];
      return;
    }
    while num != 0
      invariant i <= end && DigitsLeft(num0, num, numstr[i..end], end - i)
    {
      DigitLeft(num0, num, numstr[i..end], end - i);
      ghost var was := numstr[i..end];
      i := i - 1;
      numstr[i] := ZERO + num % 10;
      assert numstr[i..end] == [numstr[i]] + was;
      num := num / 10;
    }
  }

  /** The last digits are written; the first ones are those of `num`. */
  ghost predicate DigitsLeft(num0: nat, num: nat, done: seq<Byte>, n: nat) {
    n == |done| && Text(10, num0) == (if num == 0 then [] else Text(10, num)) + done
  }

  lemma DigitLeft(num0: nat, num: nat, done: seq<Byte>, n: nat)
    requires DigitsLeft(num0, num, done, n) && num > 0
    ensures n < |Text(10, num0)| && DigitsLeft(num0, num / 10, [(ZERO + num % 10) as Byte] + done, n + 1)
  {
    var d: Byte := ZERO + num % 10;
    assert Text(10, num) == (if num / 10 == 0 then [] else Text(10, num / 10)) + [d];
    Assoc(if num / 10 == 0 then [] else Text(10, num / 10), [d], done);
  }

  const INT_MAX: int := 0x7FFF_FFFF
  const MAXSZ_NUMSTR: nat := 64 // ULS_MAXSZ_NUMSTR

  lemma ShortText(v: nat)
    requires v <= INT_MAX
    ensures |Text(10, v)| <= 10
  {
    TextIsCanonical(10, v);
    assert Pow(10, 5) == 100000;
    PowAdd(10, 5, 5);
    CanonicalLength(10, Text(10, v), 10);
  }

  // snprintf with `%5d`
  method Print5d(n: int) returns (s: seq<Byte>)
    requires -INT_MAX <= n <= INT_MAX
    ensures s == Padded(n) && |s| <= 11
  {
    var num: nat := if n < 0 then -n else n;
    ShortText(num);
    var numstr := new Byte[MAXSZ_NUMSTR + 1];
    var i := LfNumberU(numstr, num);
    s := numstr[i..MAXSZ_NUMSTR];
    if n < 0 {
      s := [MINUS] + s;
    }
    ghost var digits := s;
    s := Pad(s);
  }

  method Pad(digits: seq<Byte>) returns (s: seq<Byte>)
    ensures s == Blanks(Missing(digits)) + digits
  {
    s := digits;
    assert Blanks(0) + digits == digits;
    while |s| < 5
      invariant |s| >= |digits| && (|s| > 5 ==> s == digits) && s == Blanks(|s| - |digits|) + digits
      decreases 5 - |s|
    {
      assert Blanks(|s| - |digits| + 1) == [SPACE] + Blanks(|s| - |digits|);
      Assoc([SPACE], Blanks(|s| - |digits|), digits);
      s := [SPACE] + s;
    }
  }

  // uls_make_pkt__txt, behind the first `k0` bytes
  method MakePktTxt(tokId: int, tokstr: seq<Byte>, ssDst: OutBuf, k0: nat) returns (k: nat)
    requires -INT_MAX <= tokId <= INT_MAX && |tokstr| <= INT_MAX && k0 <= ssDst.buf.Length
    modifies ssDst, ssDst.buf
    ensures ssDst.buf == old(ssDst.buf) || fresh(ssDst.buf)
    ensures k <= ssDst.buf.Length && ssDst.buf[..k] == old(ssDst.buf[..k0]) + Record(tokId, tokstr)
  {
    ghost var head := ssDst.buf[..k0];
    var id := Print5d(tokId);
    var len := Print5d(|tokstr|);
    var hdr := (id + [SPACE]) + len;
    k := ssDst.Append(k0, hdr);
    ssDst.Putc(k, SPACE);
    k := ssDst.Append(k + 1, tokstr);
    ssDst.Putc(k, LF);
    k := k + 1;
    RecordParts(head, hdr, tokstr);
  }

  lemma RecordParts(head: seq<Byte>, hdr: seq<Byte>, text: seq<Byte>)
    ensures (((head + hdr) + [SPACE]) + text) + [LF] == head + (((hdr + [SPACE]) + text) + [LF])
  {
    Assoc(head, hdr, [SPACE]);
    Assoc(head, hdr + [SPACE], text);
    Assoc(head, (hdr + [SPACE]) + text, [LF]);
  }

  // ---------- parsing ----------

  /** From offset `p` there are the digits `ds`, and no digit behind them. */
  ghost predicate DigitsAt(line: seq<Byte>, p: nat, ds: seq<Byte>) {
    && p + |ds| < |line| && line[p..p + |ds|] == ds && (forall i :: 0 <= i < |ds| ==> IsDigit(ds[i]))
    && !IsDigit(line[p + |ds|])
  }

  // is_pure_integer: the characters of an integer, negative when something follows it, and its value; both zero
  // without a digit
  method IsPureInteger(line: array<Byte>, p: nat, ghost ds: seq<Byte>) returns (nBytes: int, num: int)
    requires p < line.Length
    requires DigitsAt(line[..], if line[p] == MINUS then p + 1 else p, ds)
    ensures var sign := if line[p] == MINUS then 1 else 0;
            && num == (if sign == 1 then -(Val(10, ds) as int) else Val(10, ds))
            && nBytes == if ds == [] then 0 else if line[p + sign + |ds|] == NUL then sign + |ds| else -(sign + |ds|)
  {
    var minus := line[p] == MINUS;
    var lptr1 := if minus then p + 1 else p;
    var lptr := lptr1;
    num := 0;
    DigitBytes(line[..], lptr1, ds);
    while IsDigit(line[lptr])
      invariant lptr1 <= lptr <= lptr1 + |ds| && num == Val(10, ds[..lptr - lptr1])
      decreases line.Length - lptr
    {
      ghost var i := lptr - lptr1;
      assert line[lptr] == ds[i];
      ValSnoc(10, 0, ds[..i], ds[i]);
      assert ds[..i + 1] == ds[..i] + [ds[i]];
      num := num * 10 + (line[lptr] - ZERO);
      lptr := lptr + 1;
    }
    assert ds[..|ds|] == ds;
    nBytes := lptr - lptr1;
    if nBytes > 0 {
      if minus {
        num := -num;
        nBytes := nBytes + 1;
      }
      if line[lptr] != NUL {
        nBytes := -nBytes;
      }
    }
  }

  lemma DigitBytes(line: seq<Byte>, p: nat, ds: seq<Byte>)
    requires DigitsAt(line, p, ds)
    ensures forall x :: p <= x < p + |ds| ==> line[x] == ds[x - p] && IsDigit(line[x])
  {
    forall x | p <= x < p + |ds| ensures line[x] == ds[x - p] && IsDigit(line[x]) {
      assert line[p..p + |ds|][x - p] == line[x];
    }
  }

  /** Behind blanks from `p` to `q` stands the integer written `d`, and no digit behind it. */
  ghost predicate NumberAt(line: seq<Byte>, p: nat, q: nat, d: seq<Byte>) {
    && p <= q && q + |d| < |line| && (forall x :: p <= x < q ==> line[x] == SPACE)
    && line[q..q + |d|] == d && !IsDigit(line[q + |d|])
  }

  lemma NumberDigits(line: seq<Byte>, p: nat, q: nat, n: int)
    requires NumberAt(line, p, q, Decimal(n))
    ensures line[q] != SPACE && line[q] != TAB && (line[q] == MINUS <==> n < 0)
    ensures var ds := Text(10, if n < 0 then -n else n);
            && ds != [] && Val(10, ds) == (if n < 0 then -n else n)
            && DigitsAt(line, if n < 0 then q + 1 else q, ds) && |Decimal(n)| == |ds| + if n < 0 then 1 else 0
  {
    var ds := Text(10, if n < 0 then -n else n);
    TextIsCanonical(10, if n < 0 then -n else n);
    forall i | 0 <= i < |ds| ensures IsDigit(ds[i]) {
      assert IsNumRadix(ds[i], 10) >= 0;
    }
    var d := line[q..q + |Decimal(n)|];
    assert line[q] == d[0];
    if n < 0 {
      assert line[q + 1..q + 1 + |ds|] == d[1..] == ds;
    }
  }

  // splitint: the integer behind blanks, and where it ends
  method Splitint(line: array<Byte>, n1: nat, ghost q: nat, ghost n: int) returns (value: int, n1': nat)
    requires NumberAt(line[..], n1, q, Decimal(n))
    ensures value == n && n1' == q + |Decimal(n)|
  {
    NumberDigits(line[..], n1, q, n);
    var i := n1;
    while line[i] == SPACE || line[i] == TAB
      invariant n1 <= i <= q
      decreases line.Length - i
    {
      i := i + 1;
    }
    assert i == q;
    var rc;
    rc, value := IsPureInteger(line, i, Text(10, if n < 0 then -n else n));
    if rc < 0 {
      rc := -rc;
    }
    n1' := i + rc;
  }

  /** A header from `p` to `h`: the id is written at `q1` and the length at `q2`, a blank behind each. */
  ghost predicate HeaderAt(line: seq<Byte>, p: nat, id: seq<Byte>, len: seq<Byte>, q1: nat, q2: nat, h: nat) {
    NumberAt(line, p, q1, id) && NumberAt(line, q1 + |id|, q2, len) && h == q2 + |len| + 1
  }

  // get_txthdr_1: 0 with the id, the text and the next record, or -1 when the record is not complete
  method GetTxthdr1(buf: array<Byte>, line: nat, lptrEnd: nat, ghost tokId: int, ghost len: nat, ghost q1: nat,
                    ghost q2: nat, ghost h: nat)
    returns (rc: int, n: int, txtlen: int, lptr: nat, line': nat)
    requires line <= lptrEnd <= buf.Length && HeaderAt(buf[..], line, Decimal(tokId), Decimal(len), q1, q2, h)
    modifies buf
    ensures n == tokId && txtlen == len && (rc == 0 || rc == -1)
    ensures rc == 0 <==> h + len < lptrEnd
    ensures rc == 0 ==> lptr == h && line' == h + len + 1 <= lptrEnd && buf[..] == old(buf[..])[h + len := NUL]
    ensures rc == -1 ==> line' == line && buf[..] == old(buf[..])
  {
    var i;
    n, txtlen, i := ParseHeader(buf, line, tokId, len, q1, q2, h);
    lptr, line', rc := i, line, 0;
    if i + txtlen >= lptrEnd {
      return -1, n, txtlen, lptr, line;
    }
    buf[i + txtlen] := NUL;
    line' := i + txtlen + 1;
  }

  // get_txthdr_1: the two numbers, and where the text starts
  method ParseHeader(buf: array<Byte>, line: nat, ghost tokId: int, ghost len: nat, ghost q1: nat, ghost q2: nat,
                     ghost h: nat)
    returns (n: int, txtlen: int, i: nat)
    requires HeaderAt(buf[..], line, Decimal(tokId), Decimal(len), q1, q2, h)
    ensures n == tokId && txtlen == len && i == h
  {
    i := SkipBlanks(buf, line, q1, tokId);
    var n1;
    n, n1 := Splitint(buf, i, q1, tokId);
    txtlen, n1 := Splitint(buf, n1, q2, len);
    i := n1 + 1;
  }

  method SkipBlanks(buf: array<Byte>, line: nat, ghost q: nat, ghost n: int) returns (i: nat)
    requires NumberAt(buf[..], line, q, Decimal(n))
    ensures i == q
  {
    i := line;
    NumberDigits(buf[..], line, q, n);
    while buf[i] == SPACE
      invariant line <= i <= q
      decreases buf.Length - i
    {
      i := i + 1;
    }
  }

  /** What stands behind offset `p` is `a` and then `b`. */
  lemma CutAt(line: seq<Byte>, p: nat, a: seq<Byte>, b: seq<Byte>)
    requires p <= |line| && line[p..] == a + b
    ensures p + |a| <= |line| && line[p..p + |a|] == a && line[p + |a|..] == b
  {
    var text := line[p..];
    assert line[p..p + |a|] == text[..|a|];
    assert line[p + |a|..] == text[|a|..];
  }

  lemma PaddedAt(line: seq<Byte>, p: nat, k: nat, d: seq<Byte>, tail: seq<Byte>)
    requires p <= |line| && line[p..] == (Blanks(k) + d) + tail && tail != [] && !IsDigit(tail[0])
    ensures NumberAt(line, p, p + k, d) && p + k + |d| <= |line| && line[p + k + |d|..] == tail
  {
    Assoc(Blanks(k), d, tail);
    CutAt(line, p, Blanks(k), d + tail);
    CutAt(line, p + k, d, tail);
    assert line[p + k + |d|..][0] == tail[0];
    forall x | p <= x < p + k ensures line[x] == SPACE {
      assert line[x] == line[p..p + k][x - p];
    }
  }

  lemma ByteAt(line: seq<Byte>, p: nat, ch: Byte, b: seq<Byte>)
    requires p <= |line| && line[p..] == [ch] + b
    ensures p < |line| && line[p] == ch && line[p + 1..] == b
  {
    CutAt(line, p, [ch], b);
    assert line[p..][0] == ch;
  }

  /** A printed header is one the parser reads. */
  lemma PrintedHeader(line: seq<Byte>, p: nat, k1: nat, id: seq<Byte>, k2: nat, len: seq<Byte>, rest: seq<Byte>)
    requires p <= |line| && line[p..] == (Blanks(k1) + id) + BehindId(Blanks(k2) + len, rest)
    ensures var h := p + k1 + |id| + 1 + k2 + |len| + 1;
            && HeaderAt(line, p, id, len, p + k1, p + k1 + |id| + 1 + k2, h) && h <= |line| && line[h..] == rest
  {
    PaddedAt(line, p, k1, id, BehindId(Blanks(k2) + len, rest));
    SecondNumber(line, p + k1 + |id|, k2, len, rest);
  }

  /** What a header holds behind its token id. */
  ghost function BehindId(len: seq<Byte>, rest: seq<Byte>): (s: seq<Byte>)
    ensures s != [] && s[0] == SPACE
  {
    [SPACE] + (len + ([SPACE] + rest))
  }

  lemma SecondNumber(line: seq<Byte>, p: nat, k: nat, len: seq<Byte>, rest: seq<Byte>)
    requires p <= |line| && line[p..] == BehindId(Blanks(k) + len, rest)
    ensures NumberAt(line, p, p + 1 + k, len)
    ensures var h := p + 1 + k + |len| + 1; h <= |line| && line[h..] == rest
  {
    ByteAt(line, p, SPACE, (Blanks(k) + len) + ([SPACE] + rest));
    PaddedAt(line, p + 1, k, len, [SPACE] + rest);
    ByteAt(line, p + 1 + k + |len|, SPACE, rest);
  }

  lemma HeaderParts(a: seq<Byte>, b: seq<Byte>, rest: seq<Byte>)
    ensures (((a + [SPACE]) + b) + [SPACE]) + rest == a + BehindId(b, rest)
  {
    Assoc((a + [SPACE]) + b, [SPACE], rest);
    Assoc(a + [SPACE], b, [SPACE] + rest);
    Assoc(a, [SPACE], b + ([SPACE] + rest));
  }

  // ---------- any sequence of records ----------

  lemma FirstRecord(line: seq<Byte>, p: nat, id: int, text: seq<Byte>, more: seq<Byte>)
    returns (q1: nat, q2: nat, h: nat)
    requires p <= |line| && line[p..] == Record(id, text) + more
    ensures HeaderAt(line, p, Decimal(id), Decimal(|text|), q1, q2, h) && h + |text| < |line|
    ensures line[h..h + |text|] == text && line[h + |text| + 1..] == more
  {
    var d1, d2 := Decimal(id), Decimal(|text|);
    RecordTail(Header(id, |text|), text, more);
    HeaderParts(Padded(id), Padded(|text|), text + ([LF] + more));
    PrintedHeader(line, p, Missing(d1), d1, Missing(d2), d2, text + ([LF] + more));
    q1 := p + Missing(d1);
    q2 := q1 + |d1| + 1 + Missing(d2);
    h := q2 + |d2| + 1;
    TextAt(line, h, text, more);
  }

  lemma TextAt(line: seq<Byte>, h: nat, text: seq<Byte>, more: seq<Byte>)
    requires h <= |line| && line[h..] == text + ([LF] + more)
    ensures h + |text| < |line| && line[h..h + |text|] == text && line[h + |text| + 1..] == more
  {
    CutAt(line, h, text, [LF] + more);
    ByteAt(line, h + |text|, LF, more);
  }

  lemma RecordTail(hdr: seq<Byte>, text: seq<Byte>, more: seq<Byte>)
    ensures ((hdr + text) + [LF]) + more == hdr + (text + ([LF] + more))
  {
    Assoc(hdr + text, [LF], more);
    Assoc(hdr, text, [LF] + more);
  }

  lemma NulBehind(was: seq<Byte>, now: seq<Byte>, h: nat, e: nat, text: seq<Byte>, more: seq<Byte>)
    requires h <= e < |was| && now == was[e := NUL] && was[h..e] == text && was[e + 1..] == more
    ensures now[h..e] == text && now[e + 1..] == more
  {}

  // one record is read
  method ReadRecord(buf: array<Byte>, lptr: nat, ghost id: int, ghost text: seq<Byte>, ghost more: seq<Byte>,
                    ghost q1: nat, ghost q2: nat, ghost h: nat)
    returns (rec: (int, seq<Byte>), next: nat)
    requires lptr <= buf.Length && HeaderAt(buf[..], lptr, Decimal(id), Decimal(|text|), q1, q2, h)
    requires h + |text| < buf.Length && buf[..][h..h + |text|] == text && buf[..][h + |text| + 1..] == more
    modifies buf
    ensures rec == (id, text) && next <= buf.Length && buf[..][next..] == more
  {
    ghost var was := buf[..];
    var rc, n, txtlen, txtptr, line' := GetTxthdr1(buf, lptr, buf.Length, id, |text|, q1, q2, h);
    NulBehind(was, buf[..], h, h + |text|, text, more);
    rec, next := (n, buf[txtptr..txtptr + txtlen]), line';
  }

  /** Whatever bytes the texts hold, repeated parsing gives back the records that were printed. */
  method ReadRecords(buf: array<Byte>, ghost recs: seq<(int, seq<Byte>)>) returns (read: seq<(int, seq<Byte>)>)
    requires buf[..] == Records(recs)
    modifies buf
    ensures read == recs
  {
    read := [];
    var lptr: nat := 0;
    ghost var left := recs;
    assert [] + recs == recs;
    while lptr < buf.Length
      invariant lptr <= buf.Length && buf[..][lptr..] == Records(left) && recs == read + left
      decreases |left|
    {
      var rec;
      rec, lptr := ReadNext(buf, lptr, left);
      NextRead(read, left, rec);
      read, left := read + [rec], left[1..];
    }
    MoreRecords(left);
    assert read + [] == read;
  }

  method ReadNext(buf: array<Byte>, lptr: nat, ghost left: seq<(int, seq<Byte>)>)
    returns (rec: (int, seq<Byte>), next: nat)
    requires lptr < buf.Length && buf[..][lptr..] == Records(left)
    modifies buf
    ensures left != [] && rec == (left[0].0, left[0].1)
    ensures next <= buf.Length && buf[..][next..] == Records(left[1..])
  {
    ghost var q1, q2, h := NextRecord(buf[..], lptr, left);
    rec, next := ReadRecord(buf, lptr, left[0].0, left[0].1, Records(left[1..]), q1, q2, h);
  }

  lemma NextRecord(line: seq<Byte>, p: nat, left: seq<(int, seq<Byte>)>) returns (q1: nat, q2: nat, h: nat)
    requires p < |line| && line[p..] == Records(left)
    ensures left != [] && h + |left[0].1| < |line|
    ensures HeaderAt(line, p, Decimal(left[0].0), Decimal(|left[0].1|), q1, q2, h)
    ensures line[h..h + |left[0].1|] == left[0].1 && line[h + |left[0].1| + 1..] == Records(left[1..])
  {
    MoreRecords(left);
    q1, q2, h := FirstRecord(line, p, left[0].0, left[0].1, Records(left[1..]));
  }

  lemma NextRead(read: seq<(int, seq<Byte>)>, left: seq<(int, seq<Byte>)>, rec: (int, seq<Byte>))
    requires left != [] && rec == (left[0].0, left[0].1)
    ensures read + left == (read + [rec]) + left[1..]
  {
    assert left == [rec] + left[1..];
  }

  lemma MoreRecords(recs: seq<(int, seq<Byte>)>)
    ensures recs == [] <==> Records(recs) == []
    ensures recs != [] ==> Records(recs) == Record(recs[0].0, recs[0].1) + Records(recs[1..])
  {}

  ghost predicate Printable(recs: seq<(int, seq<Byte>)>) {
    forall i :: 0 <= i < |recs| ==> -INT_MAX <= recs[i].0 <= INT_MAX && |recs[i].1| <= INT_MAX
  }

  lemma {:induction false} RecordsSnoc(recs: seq<(int, seq<Byte>)>, rec: (int, seq<Byte>))
    ensures Records(recs + [rec]) == Records(recs) + Record(rec.0, rec.1)
  {
    if recs == [] {
      assert recs + [rec] == [rec];
      assert [rec][1..] == [];
    } else {
      RecordsSnoc(recs[1..], rec);
      assert (recs + [rec])[1..] == recs[1..] + [rec];
      Assoc(Record(recs[0].0, recs[0].1), Records(recs[1..]), Record(rec.0, rec.1));
    }
  }

  lemma RecordsUpTo(recs: seq<(int, seq<Byte>)>, i: nat)
    requires i < |recs|
    ensures Records(recs[..i + 1]) == Records(recs[..i]) + Record(recs[i].0, recs[i].1)
  {
    RecordsSnoc(recs[..i], recs[i]);
    assert recs[..i + 1] == recs[..i] + [recs[i]];
  }

  // the records one after another into an empty stream
  method PrintRecords(recs: seq<(int, seq<Byte>)>, ssDst: OutBuf) returns (k: nat)
    requires Printable(recs)
    modifies ssDst, ssDst.buf
    ensures ssDst.buf == old(ssDst.buf) || fresh(ssDst.buf)
    ensures k <= ssDst.buf.Length && ssDst.buf[..k] == Records(recs)
  {
    k := 0;
    for i := 0 to |recs|
      invariant ssDst.buf == old(ssDst.buf) || fresh(ssDst.buf)
      invariant k <= ssDst.buf.Length && ssDst.buf[..k] == Records(recs[..i])
    {
      k := MakePktTxt(recs[i].0, recs[i].1, ssDst, k);
      RecordsUpTo(recs, i);
    }
    assert recs[..|recs|] == recs;
  }

  /** Printing any records and parsing what was printed returns the records. */
  method RoundTrip(recs: seq<(int, seq<Byte>)>) returns (read: seq<(int, seq<Byte>)>)
    requires Printable(recs)
    ensures read == recs
  {
    var ssDst := new OutBuf(0);
    var k := PrintRecords(recs, ssDst);
    var buf := new Byte[k];
    forall i | 0 <= i < k {
      buf[i] := ssDst.buf[i];
    }
    assert buf[..] == ssDst.buf[..k];
    read := ReadRecords(buf, recs);
  }
}
