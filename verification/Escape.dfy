/** Writing a string with the usual backslash escapes, and reading it back (src/uls_misc.c). */
module Escape {
  import opened Bytes
  import opened Numerals

  const BACKSLASH: Byte := 92
  const QUOTE: Byte := 34
  const APOSTROPHE: Byte := 39
  const QUESTION: Byte := 63

  // uls_get_simple_escape_char: what a character means behind a backslash, or -1
  function SimpleEscapeChar(ch: Byte): int {
    if ch == 110 then LF
    else if ch == 116 then TAB
    else if ch == 114 then 13
    else if ch == BACKSLASH || ch == APOSTROPHE || ch == QUOTE || ch == QUESTION then ch
    else if ch == 98 then 8
    else if ch == 97 then 7
    else if ch == 102 then 12
    else if ch == 118 then 11
    else -1
  }

  // uls_get_simple_unescape_char: the letter that stands for a character behind a backslash, or -1
  function SimpleUnescapeChar(ch: Byte): int {
    if ch == LF then 110
    else if ch == TAB then 116
    else if ch == 13 then 114
    else if ch == 8 then 98
    else if ch == 7 then 97
    else if ch == 12 then 102
    else if ch == 11 then 118
    else if ch == BACKSLASH || ch == APOSTROPHE || ch == QUOTE then ch
    else if ch == NUL then ZERO
    else -1
  }

  // the digit test of uls_skip_atox: the value, or -1
  function HexDigit(ch: Byte): (d: int)
    ensures d == IsNumRadix(ch, 16)
  {
    if IsDigit(ch) then ch - ZERO
    else if LOWER_A <= ch <= LOWER_A + 5 then 10 + ch - LOWER_A
    else if UPPER_A <= ch <= UPPER_A + 5 then 10 + ch - UPPER_A
    else -1
  }

  /** How many of the first `max` characters are hexadecimal digits. */
  function HexLength(s: seq<Byte>, max: nat): (n: nat)
    ensures n <= max && n <= |s|
  {
    if max == 0 || s == [] || HexDigit(s[0]) < 0 then 0 else 1 + HexLength(s[1..], max - 1)
  }

  lemma {:induction false} HexLengthDigits(s: seq<Byte>, max: nat)
    ensures forall i :: 0 <= i < HexLength(s, max) ==> HexDigit(s[i]) >= 0
    ensures HexLength(s, max) < max && HexLength(s, max) < |s| ==> HexDigit(s[HexLength(s, max)]) < 0
    decreases |s|
  {
    if max > 0 && s != [] && HexDigit(s[0]) >= 0 {
      HexLengthDigits(s[1..], max - 1);
    }
  }

  lemma HexRun(line: seq<Byte>, p: nat, max: nat, len: nat)
    requires p <= |line| && len == HexLength(line[p..], max)
    ensures p + len <= |line| && len <= max && forall i :: p <= i < p + len ==> HexDigit(line[i]) >= 0
    ensures len < max && p + len < |line| ==> HexDigit(line[p + len]) < 0
  {
    HexLengthDigits(line[p..], max);
    forall i | p <= i < p + len ensures HexDigit(line[i]) >= 0 {
      assert line[p..][i - p] == line[i];
    }
    assert p + len < |line| ==> line[p..][len] == line[p + len];
  }

  // uls_skip_atox, from offset `p` and at most `max` digits
  method SkipAtox(line: seq<Byte>, p: nat, max: nat) returns (n: nat, lptr: nat)
    requires p <= |line|
    ensures lptr == p + HexLength(line[p..], max) <= |line|
    ensures (forall i :: p <= i < lptr ==> HexDigit(line[i]) >= 0) && n == Val(16, line[p..lptr])
    ensures lptr < p + max && lptr < |line| ==> HexDigit(line[lptr]) < 0
  {
    n, lptr := 0, p;
    ghost var len := HexLength(line[p..], max);
    HexRun(line, p, max, len);
    assert line[p..p] == [];
    while lptr < p + max && lptr < |line| && HexDigit(line[lptr]) >= 0
      invariant p <= lptr <= p + len
      invariant n == Val(16, line[p..lptr])
    {
      ValSnoc(16, 0, line[p..lptr], line[lptr]);
      assert line[p..lptr + 1] == line[p..lptr] + [line[lptr]];
      n := 16 * n + HexDigit(line[lptr]);
      lptr := lptr + 1;
    }
  }

  // ---------- reading escapes ----------

  /** How a scan ends: the text and what is left, or the closing quote is missing, or the scan ran over the
      terminator. */
  datatype Scan = Done(out: seq<Byte>, left: seq<Byte>) | Unterminated(left: seq<Byte>) | Overrun

  function Prefixed(out: seq<Byte>, r: Scan): Scan {
    if r.Done? then Done(out + r.out, r.left) else r
  }

  /** What uls_get_simple_escape_str makes of a text that starts behind a backslash or not. */
  ghost function EscRun(quote: Byte, s: seq<Byte>, escape: bool): Scan
    decreases |s|
  {
    if s == [] then Overrun
    else if s[0] == NUL then
      if escape then Done([BACKSLASH], s) else if quote != NUL then Unterminated(s) else Done([], s)
    else if escape then
      if s[0] == LOWER_X then
        var n := HexLength(s[1..], 2);
        if 1 + n < |s| then Prefixed([HexByte(s[1..], n)], EscRun(quote, s[2 + n..], false)) else Overrun
      else Prefixed(EscapedChar(s[0]), EscRun(quote, s[1..], false))
    else if s[0] == quote then Done([], s[1..])
    else if s[0] == BACKSLASH then EscRun(quote, s[1..], true)
    else Prefixed([s[0]], EscRun(quote, s[1..], false))
  }

  ghost function HexByte(s: seq<Byte>, n: nat): Byte
    requires n == HexLength(s, 2)
  {
    Val(16, s[..n]) % 256
  }

  function EscapedChar(ch: Byte): seq<Byte> {
    if SimpleEscapeChar(ch) >= 0 then [SimpleEscapeChar(ch)] else [BACKSLASH, ch]
  }

  // ---------- writing escapes ----------

  function Unescaped(s: seq<Byte>): seq<Byte> {
    if s == [] then []
    else (if SimpleUnescapeChar(s[0]) < 0 then [s[0]] else [BACKSLASH, SimpleUnescapeChar(s[0])]) + Unescaped(s[1..])
  }

  lemma PlainStep(quote: Byte, ch: Byte, rest: seq<Byte>)
    requires ch != NUL && ch != BACKSLASH && ch != quote
    ensures EscRun(quote, [ch] + rest, false) == Prefixed([ch], EscRun(quote, rest, false))
  {
    assert ([ch] + rest)[1..] == rest;
  }

  lemma EscapeStep(quote: Byte, c: Byte, rest: seq<Byte>)
    requires c != NUL && c != LOWER_X && quote != BACKSLASH
    ensures EscRun(quote, [BACKSLASH, c] + rest, false) == Prefixed(EscapedChar(c), EscRun(quote, rest, false))
  {
    var text := [BACKSLASH, c] + rest;
    assert text[1..] == [c] + rest && text[1..][1..] == rest;
    assert EscRun(quote, text, false) == EscRun(quote, text[1..], true);
  }

  /** What the character behind a backslash makes of the two. */
  lemma EscapeMeans(quote: Byte, c: Byte, rest: seq<Byte>)
    requires c != 0 && c as char != 'x' && quote != 92
    ensures var more: seq<Byte> := match c as char
              case 'n' => [10]
              case 't' => [9]
              case 'r' => [13]
              case 'b' => [8]
              case 'a' => [7]
              case 'f' => [12]
              case 'v' => [11]
              case '\\' => [92]
              case '\'' => [39]
              case '\"' => [34]
              case '?' => [63]
              case _ => [92, c];
      EscRun(quote, [92, c] + rest, false) == Prefixed(more, EscRun(quote, rest, false))
  {
    EscapeStep(quote, c, rest);
  }

  /** Where a scan ends: at the closing quote, at a terminator, or beyond the text. */
  lemma ScanEnds(quote: Byte, rest: seq<Byte>)
    ensures quote != 0 ==> EscRun(quote, [quote] + rest, false) == Done([], rest)
    ensures EscRun(quote, [0] + rest, false) == if quote != 0 then Unterminated([0] + rest) else Done([], [0] + rest)
    ensures quote != 92 ==> EscRun(quote, [92, 0] + rest, false) == Done([92], [0] + rest)
    ensures EscRun(quote, [], false) == Overrun
  {
    assert ([quote] + rest)[1..] == rest && ([92, 0] + rest)[1..] == [0] + rest;
  }

  /** How a character is written. */
  lemma UnescapeMeans(ch: Byte)
    ensures Unescaped([ch]) == match ch
      case 10 => [92, 'n' as int]
      case 9 => [92, 't' as int]
      case 13 => [92, 'r' as int]
      case 8 => [92, 'b' as int]
      case 7 => [92, 'a' as int]
      case 12 => [92, 'f' as int]
      case 11 => [92, 'v' as int]
      case 92 => [92, 92]
      case 39 => [92, 39]
      case 34 => [92, 34]
      case 0 => [92, '0' as int]
      case _ => [ch]
  {
    assert [ch][1..] == [];
  }

  lemma UnescapedPair(ch: Byte)
    requires ch != NUL && SimpleUnescapeChar(ch) >= 0
    ensures var c := SimpleUnescapeChar(ch); c != NUL && c != LOWER_X && EscapedChar(c) == [ch]
  {}

  /** Whatever is written is read back: up to the terminator without a quote, or up to a quote that is written behind
      it. */
  lemma {:induction false} RoundTrip(quote: Byte, s: seq<Byte>, tail: seq<Byte>)
    requires NUL !in s && quote in {NUL, QUOTE, APOSTROPHE}
    requires if quote == NUL then tail != [] && tail[0] == NUL else tail != [] && tail[0] == quote
    ensures EscRun(quote, Unescaped(s) + tail, false) == Done(s, if quote == NUL then tail else tail[1..])
    decreases |s|
  {
    if s == [] {
      assert Unescaped(s) + tail == tail;
    } else {
      assert s[0] in s;
      RoundTrip(quote, s[1..], tail);
      var rest := Unescaped(s[1..]) + tail;
      if SimpleUnescapeChar(s[0]) < 0 {
        Assoc([s[0]], Unescaped(s[1..]), tail);
        PlainStep(quote, s[0], rest);
      } else {
        Assoc([BACKSLASH, SimpleUnescapeChar(s[0])], Unescaped(s[1..]), tail);
        UnescapedPair(s[0]);
        EscapeStep(quote, SimpleUnescapeChar(s[0]), rest);
      }
      assert [s[0]] + s[1..] == s;
    }
  }

  // ---------- the hexadecimal escape ----------

  /** The scan goes on one character too late behind a hexadecimal escape: whatever stands there is lost. */
  lemma HexSwallowsNext(quote: Byte, digits: seq<Byte>, ch: Byte, rest: seq<Byte>)
    requires quote != BACKSLASH && |digits| <= 2 && (forall i :: 0 <= i < |digits| ==> HexDigit(digits[i]) >= 0)
    requires |digits| == 2 || HexDigit(ch) < 0
    ensures EscRun(quote, [BACKSLASH, LOWER_X] + (digits + ([ch] + rest)), false)
            == Prefixed([Val(16, digits) % 256], EscRun(quote, rest, false))
  {
    var tail := digits + ([ch] + rest);
    var text := [BACKSLASH, LOWER_X] + tail;
    assert text[1..] == [LOWER_X] + tail && text[1..][1..] == tail;
    HexLengthIs(digits, [ch] + rest);
    assert tail[..|digits|] == digits && text[1..][2 + |digits|..] == rest;
    assert EscRun(quote, text, false) == EscRun(quote, text[1..], true);
  }

  lemma HexLengthIs(digits: seq<Byte>, more: seq<Byte>)
    requires |digits| <= 2 && (forall i :: 0 <= i < |digits| ==> HexDigit(digits[i]) >= 0) && more != []
    requires |digits| == 2 || HexDigit(more[0]) < 0
    ensures HexLength(digits + more, 2) == |digits|
  {
    var s := digits + more;
    if |digits| >= 1 {
      assert s[1..] == digits[1..] + more;
      if |digits| == 2 {
        assert s[1..][1..] == digits[1..][1..] + more;
      }
    }
  }

  /** The reading that goes on right behind the digits. */
  ghost function Standard(quote: Byte, s: seq<Byte>, escape: bool): Scan
    decreases |s|
  {
    if s == [] then Overrun
    else if s[0] == NUL then
      if escape then Done([BACKSLASH], s) else if quote != NUL then Unterminated(s) else Done([], s)
    else if escape then
      if s[0] == LOWER_X then
        var n := HexLength(s[1..], 2);
        Prefixed([HexByte(s[1..], n)], Standard(quote, s[1 + n..], false))
      else Prefixed(EscapedChar(s[0]), Standard(quote, s[1..], false))
    else if s[0] == quote then Done([], s[1..])
    else if s[0] == BACKSLASH then Standard(quote, s[1..], true)
    else Prefixed([s[0]], Standard(quote, s[1..], false))
  }

  /** No hexadecimal escape in front of the end of the string. */
  predicate NoHexEscape(quote: Byte, s: seq<Byte>, escape: bool)
    decreases |s|
  {
    s == [] || s[0] == NUL ||
    (if escape then s[0] != LOWER_X && NoHexEscape(quote, s[1..], false)
     else s[0] == quote || NoHexEscape(quote, s[1..], s[0] == BACKSLASH))
  }

  /** Without a hexadecimal escape the scan is the standard reading. */
  lemma {:induction false} StandardWithoutHex(quote: Byte, s: seq<Byte>, escape: bool)
    requires NoHexEscape(quote, s, escape)
    ensures EscRun(quote, s, escape) == Standard(quote, s, escape)
    decreases |s|
  {
    if s != [] && s[0] != NUL && (escape || s[0] != quote) {
      StandardWithoutHex(quote, s[1..], !escape && s[0] == BACKSLASH);
    }
  }

  /** How many characters are left whenever the scan looks at one. Behind a hexadecimal escape it skips `skip` of them:
      one in the source, none in the standard reading. */
  function Looks(quote: Byte, s: seq<Byte>, escape: bool, skip: nat): (l: seq<nat>)
    ensures l != [] && l[0] == |s|
    decreases |s|
  {
    [|s|] +
    if s == [] || s[0] == NUL || (!escape && s[0] == quote) then []
    else if escape && s[0] == LOWER_X then
      var n := HexLength(s[1..], 2);
      if 1 + n + skip <= |s| then Looks(quote, s[1 + n + skip..], false, skip) else []
    else Looks(quote, s[1..], !escape && s[0] == BACKSLASH, skip)
  }

  /** The scan ends where it looked last, or behind it if that was the closing quote. */
  lemma {:induction false} EndsAtLastLook(quote: Byte, s: seq<Byte>, escape: bool)
    ensures var r, l := EscRun(quote, s, escape), Looks(quote, s, escape, 1);
      var last := l[|l| - 1];
      && (r.Done? ==> |r.left| == last || |r.left| + 1 == last)
      && (r.Unterminated? ==> |r.left| == last)
    decreases |s|
  {
    if s != [] && s[0] != NUL && (escape || s[0] != quote) {
      if escape && s[0] == LOWER_X {
        var n := HexLength(s[1..], 2);
        if 2 + n <= |s| {
          EndsAtLastLook(quote, s[2 + n..], false);
        }
      } else {
        EndsAtLastLook(quote, s[1..], !escape && s[0] == BACKSLASH);
      }
    }
  }

  /** For every string, the scan looks at the characters the standard reading looks at if and only if the string holds
      no hexadecimal escape. */
  lemma {:induction false} LooksExactly(quote: Byte, s: seq<Byte>, escape: bool)
    ensures Looks(quote, s, escape, 1) == Looks(quote, s, escape, 0) <==> NoHexEscape(quote, s, escape)
    decreases |s|
  {
    if s != [] && s[0] != NUL && (escape || s[0] != quote) {
      if escape && s[0] == LOWER_X {
        var n := HexLength(s[1..], 2);
        assert Looks(quote, s, escape, 0)[1] == |s| - 1 - n;
        if 2 + n <= |s| {
          assert Looks(quote, s, escape, 1)[1] == |s| - 2 - n;
        }
      } else {
        var on := !escape && s[0] == BACKSLASH;
        LooksExactly(quote, s[1..], on);
        assert Looks(quote, s, escape, 1)[1..] == Looks(quote, s[1..], on, 1);
        assert Looks(quote, s, escape, 0)[1..] == Looks(quote, s[1..], on, 0);
      }
    }
  }

  /** No hexadecimal escape with a backslash directly behind it. There the two readings can meet again: what loses its
      backslash may be an escape that stands for itself. */
  predicate HexApart(quote: Byte, s: seq<Byte>, escape: bool)
    decreases |s|
  {
    s == [] || s[0] == NUL ||
    (if escape then
       if s[0] == LOWER_X then
         var n := HexLength(s[1..], 2);
         (1 + n < |s| ==> s[1 + n] != BACKSLASH) && HexApart(quote, s[1 + n..], false)
       else HexApart(quote, s[1..], false)
     else s[0] == quote || HexApart(quote, s[1..], s[0] == BACKSLASH))
  }

  /** A scan that ends has used up characters, the terminator excepted. */
  lemma {:induction false} LeftBehind(quote: Byte, s: seq<Byte>, escape: bool)
    ensures EscRun(quote, s, escape).Done? ==> |EscRun(quote, s, escape).left| <= |s|
    ensures EscRun(quote, s, false).Done? && quote != NUL ==> |EscRun(quote, s, false).left| < |s|
    decreases |s|, escape
  {
    if !escape && s != [] && s[0] == BACKSLASH {
      LeftBehind(quote, s[1..], true);
    } else if s != [] && s[0] != NUL {
      if !escape {
        LeftBehind(quote, s[1..], false);
      } else {
        LeftBehind(quote, s, false);
        if s[0] == LOWER_X {
          var n := HexLength(s[1..], 2);
          if 1 + n < |s| {
            LeftBehind(quote, s[2 + n..], false);
          }
        } else {
          LeftBehind(quote, s[1..], false);
        }
      }
    } else if escape {
      LeftBehind(quote, s, false);
    }
  }

  /** Where the standard reading ends with a text, the scan ends later, or with less text, or it met no hexadecimal
      escape. */
  lemma {:induction false} HexShortens(quote: Byte, s: seq<Byte>, escape: bool)
    requires quote != BACKSLASH && Standard(quote, s, escape).Done? && HexApart(quote, s, escape)
    ensures var a, b := EscRun(quote, s, escape), Standard(quote, s, escape);
      a.Done? && a.left == b.left ==> |a.out| <= |b.out| && (NoHexEscape(quote, s, escape) || |a.out| < |b.out|)
    decreases |s|
  {
    if s == [] || s[0] == NUL {
    } else if escape && s[0] == LOWER_X {
      var n := HexLength(s[1..], 2);
      var rest := s[1 + n..];
      if 1 + n < |s| {
        assert rest[1..] == s[2 + n..];
        LeftBehind(quote, rest[1..], false);
        if rest[0] != NUL && rest[0] != quote {
          HexShortens(quote, rest[1..], false);
        }
      }
    } else if escape || s[0] != quote {
      HexShortens(quote, s[1..], !escape && s[0] == BACKSLASH);
    }
  }

  /** A string is read as the standard reading has it exactly when it holds no hexadecimal escape. */
  lemma StandardExactly(quote: Byte, s: seq<Byte>)
    requires quote != BACKSLASH && Standard(quote, s, false).Done? && HexApart(quote, s, false)
    ensures EscRun(quote, s, false) == Standard(quote, s, false) <==> NoHexEscape(quote, s, false)
  {
    HexShortens(quote, s, false);
    if NoHexEscape(quote, s, false) {
      StandardWithoutHex(quote, s, false);
    }
  }

  /** In particular the closing quote: `"\x41"` is reported as a string without an end. */
  lemma ClosingQuoteLost()
    ensures EscRun(QUOTE, [BACKSLASH, LOWER_X, 52, 49, QUOTE, NUL], false) == Unterminated([NUL])
  {
    HexSwallowsNext(QUOTE, [52, 49], QUOTE, [NUL]);
    assert [BACKSLASH, LOWER_X] + ([52, 49] + ([QUOTE] + [NUL])) == [BACKSLASH, LOWER_X, 52, 49, QUOTE, NUL];
  }

  /** And the terminator: without a quote the scan of a text that ends in such an escape runs over its end. */
  lemma TerminatorLost(digits: seq<Byte>)
    requires |digits| <= 2 && forall i :: 0 <= i < |digits| ==> HexDigit(digits[i]) >= 0
    ensures EscRun(NUL, [BACKSLASH, LOWER_X] + (digits + ([NUL] + [])), false) == Overrun
  {
    HexSwallowsNext(NUL, digits, NUL, []);
  }

  // ---------- the loops ----------

  lemma PrefixedTwice(a: seq<Byte>, b: seq<Byte>, r: Scan)
    ensures Prefixed(a, Prefixed(b, r)) == Prefixed(a + b, r)
  {
    if r.Done? {
      Assoc(a, b, r.out);
    }
  }

  /** The scan so far: what is written, and what the rest will add to it. */
  ghost predicate Scanning(quote: Byte, line: seq<Byte>, p: nat, lptr: nat, escape: bool, out: seq<Byte>) {
    && p <= lptr <= |line| && |out| + (if escape then 1 else 0) <= lptr - p
    && EscRun(quote, line[p..], false) == Prefixed(out, EscRun(quote, line[lptr..], escape))
  }

  lemma ScanOn(quote: Byte, line: seq<Byte>, p: nat, lptr: nat, escape: bool, out: seq<Byte>, lptr': nat,
               escape': bool, more: seq<Byte>)
    requires Scanning(quote, line, p, lptr, escape, out) && lptr < lptr' <= |line|
    requires |more| + (if escape' then 1 else 0) <= lptr' - lptr + (if escape then 1 else 0)
    requires EscRun(quote, line[lptr..], escape) == Prefixed(more, EscRun(quote, line[lptr'..], escape'))
    ensures Scanning(quote, line, p, lptr', escape', out + more)
  {
    PrefixedTwice(out, more, EscRun(quote, line[lptr'..], escape'));
  }

  // one character into the output buffer
  method Put(outbuf: array<Byte>, k: nat, more: seq<Byte>) returns (k': nat)
    requires k + |more| <= outbuf.Length
    modifies outbuf
    ensures k' == k + |more| && outbuf[..k'] == old(outbuf[..k]) + more
  {
    ghost var was := outbuf[..k];
    for i := 0 to |more|
      invariant outbuf[..k + i] == was + more[..i]
    {
      outbuf[k + i] := more[i];
    }
    k' := k + |more|;
    assert more[..|more|] == more;
  }

  // uls_get_simple_escape_str behind a backslash: what the escape stands for, and where the scan goes on
  method ReadEscape(quote: Byte, line: seq<Byte>, lptr: nat) returns (over: bool, more: seq<Byte>, lptr': nat)
    requires lptr < |line| && line[lptr] != NUL
    ensures over ==> EscRun(quote, line[lptr..], true) == Overrun
    ensures !over ==> lptr < lptr' <= |line| && |more| <= lptr' - lptr + 1
    ensures !over ==> EscRun(quote, line[lptr..], true) == Prefixed(more, EscRun(quote, line[lptr'..], false))
  {
    over := false;
    var ch := line[lptr];
    assert line[lptr..][1..] == line[lptr + 1..];
    if ch == LOWER_X {
      var n, p := SkipAtox(line, lptr + 1, 2);
      more := [n % 256];
      lptr' := p + 1;
      ghost var len := HexLength(line[lptr + 1..], 2);
      assert line[lptr + 1..][..len] == line[lptr + 1..p];
      if lptr' > |line| {
        over := true;
      } else {
        assert line[lptr..][2 + len..] == line[lptr'..];
      }
    } else {
      var ch2 := SimpleEscapeChar(ch);
      more := if ch2 >= 0 then [ch2] else [BACKSLASH, ch];
      lptr' := lptr + 1;
    }
  }

  // uls_get_simple_escape_str: the length of the text, -1 when the closing quote is missing. The source has no
  // bound for its cursor: where it would run over the terminator the result is -2 here.
  method GetSimpleEscapeStr(quoteCh: Byte, line: seq<Byte>, p: nat, outbuf: array<Byte>) returns (k: int, lptr: nat)
    requires p < |line| && |line| - p < outbuf.Length
    modifies outbuf
    ensures match EscRun(quoteCh, line[p..], false) {
              case Done(out, left) =>
                k == |out| < outbuf.Length && outbuf[..k] == out && outbuf[k] == NUL
                && lptr <= |line| && line[lptr..] == left
              case Unterminated(left) => k == -1 && lptr <= |line| && line[lptr..] == left
              case Overrun => k == -2
            }
  {
    var n: nat, escape := 0, false;
    lptr := p;
    while lptr < |line| && line[lptr] != NUL && (escape || line[lptr] != quoteCh)
      invariant n <= outbuf.Length && Scanning(quoteCh, line, p, lptr, escape, outbuf[..n])
      decreases |line| - lptr
    {
      ghost var out := outbuf[..n];
      if escape {
        var over, more, lptr2 := ReadEscape(quoteCh, line, lptr);
        if over {
          return -2, lptr;
        }
        ScanOn(quoteCh, line, p, lptr, escape, out, lptr2, false, more);
        n := Put(outbuf, n, more);
        lptr, escape := lptr2, false;
      } else {
        n, escape := ReadPlain(quoteCh, line, p, lptr, outbuf, n);
        lptr := lptr + 1;
      }
    }
    k, lptr := Finish(quoteCh, line, p, lptr, escape, outbuf, n);
  }

  // uls_get_simple_escape_str: a character that no backslash precedes
  method ReadPlain(quoteCh: Byte, line: seq<Byte>, ghost p: nat, lptr: nat, outbuf: array<Byte>, n: nat)
    returns (n': nat, escape: bool)
    requires lptr < |line| && line[lptr] != NUL && line[lptr] != quoteCh && |line| - p < outbuf.Length
    requires n <= outbuf.Length && Scanning(quoteCh, line, p, lptr, false, outbuf[..n])
    modifies outbuf
    ensures n' <= outbuf.Length && Scanning(quoteCh, line, p, lptr + 1, escape, outbuf[..n'])
  {
    ghost var out := outbuf[..n];
    n' := n;
    escape := line[lptr] == BACKSLASH;
    assert line[lptr..][1..] == line[lptr + 1..];
    if escape {
      ghost var r := EscRun(quoteCh, line[lptr + 1..], true);
      assert r == Prefixed([], r);
      ScanOn(quoteCh, line, p, lptr, false, out, lptr + 1, true, []);
      assert out + [] == out;
    } else {
      ScanOn(quoteCh, line, p, lptr, false, out, lptr + 1, false, [line[lptr]]);
      n' := Put(outbuf, n, [line[lptr]]);
    }
  }

  // uls_get_simple_escape_str: the end of the scan
  method Finish(quoteCh: Byte, line: seq<Byte>, ghost p: nat, lptr0: nat, escape: bool, outbuf: array<Byte>, n0: nat)
    returns (k: int, lptr: nat)
    requires lptr0 < |line| ==> line[lptr0] == NUL || (!escape && line[lptr0] == quoteCh)
    requires n0 <= outbuf.Length && |line| - p < outbuf.Length
    requires Scanning(quoteCh, line, p, lptr0, escape, outbuf[..n0])
    modifies outbuf
    ensures match EscRun(quoteCh, line[p..], false) {
              case Done(out, left) =>
                k == |out| < outbuf.Length && outbuf[..k] == out && outbuf[k] == NUL
                && lptr <= |line| && line[lptr..] == left
              case Unterminated(left) => k == -1 && lptr <= |line| && line[lptr..] == left
              case Overrun => k == -2
            }
  {
    var n := n0;
    lptr := lptr0;
    if lptr >= |line| {
      return -2, lptr;
    }
    assert line[lptr..][0] == line[lptr];
    if line[lptr] == NUL {
      if escape {
        n := Put(outbuf, n, [BACKSLASH]);
      } else if quoteCh != NUL {
        return -1, lptr;
      }
    } else {
      assert line[lptr..][1..] == line[lptr + 1..];
      lptr := lptr + 1;
    }
    ghost var out := outbuf[..n];
    outbuf[n] := NUL;
    assert outbuf[..n] == out;
    k := n;
  }

  // uls_get_simple_unescape_str
  method GetSimpleUnescapeStr(line: seq<Byte>, p: nat, outbuf: array<Byte>, ghost text: seq<Byte>) returns (k: nat)
    requires p + |text| < |line| && text == line[p..p + |text|] && NUL !in text && line[p + |text|] == NUL
    requires 2 * |text| < outbuf.Length
    modifies outbuf
    ensures k == |Unescaped(text)| < outbuf.Length && outbuf[..k] == Unescaped(text) && outbuf[k] == NUL
  {
    k := 0;
    var lptr := p;
    forall x | p <= x < p + |text| ensures line[x] != NUL {
      assert line[x] == text[x - p] && text[x - p] in text;
    }
    while line[lptr] != NUL
      invariant p <= lptr <= p + |text| && k <= 2 * (lptr - p) && outbuf[..k] == Unescaped(text[..lptr - p])
      decreases |line| - lptr
    {
      var ch, ch2 := line[lptr], SimpleUnescapeChar(line[lptr]);
      ghost var i := lptr - p;
      assert text[..i + 1] == text[..i] + [ch];
      UnescapedSnoc(text[..i], ch);
      k := Put(outbuf, k, if ch2 < 0 then [ch] else [BACKSLASH, ch2]);
      lptr := lptr + 1;
    }
    assert text[..|text|] == text;
    outbuf[k] := NUL;
  }

  lemma {:induction false} UnescapedSnoc(s: seq<Byte>, ch: Byte)
    ensures Unescaped(s + [ch]) ==
            Unescaped(s) + if SimpleUnescapeChar(ch) < 0 then [ch] else [BACKSLASH, SimpleUnescapeChar(ch)]
    decreases |s|
  {
    var last := if SimpleUnescapeChar(ch) < 0 then [ch] else [BACKSLASH, SimpleUnescapeChar(ch)];
    if s == [] {
      assert s + [ch] == [ch] && Unescaped([]) == [] && last + [] == last && [] + last == last;
    } else {
      assert (s + [ch])[1..] == s[1..] + [ch];
      UnescapedSnoc(s[1..], ch);
      Assoc(if SimpleUnescapeChar(s[0]) < 0 then [s[0]] else [BACKSLASH, SimpleUnescapeChar(s[0])],
            Unescaped(s[1..]), last);
    }
  }
}
