/** The general expression of a token: a plain decimal or hexadecimal text (src/uls_num.c, uls_number_gexpr). */
module GExpr {
  import opened Bytes
  import opened HexConv
  import opened NumFormat
  import opened Numerals
  import opened OutBufs

  /** What uls_number fills in. Offsets count from the start of the token. */
  datatype NumInfo = NumInfo(isZero: bool, isFloat: bool, radix: nat, lptr: nat, len: nat, n1: nat, n2: nat, n: int)

  const LOWER_B: Byte := 98
  const LOWER_O: Byte := 111
  const LOWER_Q: Byte := 113
  const LOWER_T: Byte := 116

  // uls_find_standard_prefix_radix: the length of the prefix and the radix
  function FindStandardPrefixRadix(line: seq<Byte>): (r: (nat, nat)) {
    if |line| >= 2 && line[0] == ZERO then
      if line[1] == LOWER_X then (2, 16)
      else if line[1] == LOWER_O then (2, 8)
      else if line[1] == LOWER_B then (2, 2)
      else if line[1] == LOWER_T then (2, 3)
      else if line[1] == LOWER_Q then (2, 4)
      else (0, 10)
    else (0, 10)
  }

  /** The text begins with these characters. */
  ghost predicate Starts(text: seq<Byte>, front: string) {
    |front| <= |text| && forall i :: 0 <= i < |front| ==> text[i] as char == front[i]
  }

  /** A token with this prefix and at least one digit of this radix behind it. */
  ghost predicate PrefixedToken(tok: seq<Byte>, prefix: string, radix: nat) {
    Starts(tok, prefix) && |tok| > |prefix| && IsNumeral(radix, tok[|prefix|..])
  }

  /** Which prefix stands for which radix; any other text has none. */
  lemma StandardPrefixes(line: seq<Byte>)
    ensures Starts(line, "0x") ==> FindStandardPrefixRadix(line) == (2, 16)
    ensures Starts(line, "0o") ==> FindStandardPrefixRadix(line) == (2, 8)
    ensures Starts(line, "0b") ==> FindStandardPrefixRadix(line) == (2, 2)
    ensures Starts(line, "0t") ==> FindStandardPrefixRadix(line) == (2, 3)
    ensures Starts(line, "0q") ==> FindStandardPrefixRadix(line) == (2, 4)
    ensures FindStandardPrefixRadix(line) == (0, 10) ||
            Starts(line, "0x") || Starts(line, "0o") || Starts(line, "0b") || Starts(line, "0t") || Starts(line, "0q")
  {
    if |line| >= 2 {
      TwoCharacters(line, "0x");
      TwoCharacters(line, "0o");
      TwoCharacters(line, "0b");
      TwoCharacters(line, "0t");
      TwoCharacters(line, "0q");
    }
  }

  lemma TwoCharacters(line: seq<Byte>, front: string)
    requires |line| >= 2 == |front|
    ensures Starts(line, front) <==> line[0] as char == front[0] && line[1] as char == front[1]
  {}

  // uls_number
  function UlsNumber(numstr: seq<Byte>, nExpo: int): NumInfo
    requires numstr != []
  {
    var (lenPrefix, radix) := FindStandardPrefixRadix(numstr);
    if lenPrefix > 0 then
      NumInfo(false, false, radix, lenPrefix, |numstr| - lenPrefix, |numstr| - lenPrefix, 0, 0)
    else
      var isFloat := numstr[0] == DOT;
      var lptr := if isFloat then 1 else 0;
      var len := |numstr| - lptr;
      if lptr < |numstr| && numstr[lptr] == ZERO then
        NumInfo(true, isFloat || (lptr + 1 < |numstr| && numstr[lptr + 1] == DOT), 10, |numstr|, 0, 0, 0, 0)
      else if isFloat then
        if nExpo <= 0 then NumInfo(false, true, 10, lptr, len, 0, len, nExpo)
        else if nExpo <= len then NumInfo(false, true, 10, lptr, len, nExpo, len - nExpo, 0)
        else NumInfo(false, true, 10, lptr, len, len, 0, nExpo - len)
      else
        NumInfo(false, false, 10, lptr, len, len, 0, 0)
  }

  /** The significand, the fraction and the exponent of a ".D" token denote its value. */
  lemma UlsNumberDenotes(tok: seq<Byte>, dd: seq<Byte>, nExpo: int, v: real)
    requires tok == [DOT] + dd && Digits(dd) && dd != [] && dd[0] != ZERO && v == Scaled(Val(10, dd), nExpo - |dd|)
    ensures var p := UlsNumber(tok, nExpo);
            !p.isZero && p.isFloat && p.radix == 10 && p.lptr == 1 && p.len == |dd| == p.n1 + p.n2
            && v == Scaled(Val(10, dd), p.n - p.n2) && (p.n > 0 ==> p.n2 == 0) && (p.n < 0 ==> p.n1 == 0)
  {}

  /** The parts of a token with a prefix: its digits, all of them in front of the point. */
  lemma UlsNumberPrefixed(tok: seq<Byte>, nExpo: int)
    requires FindStandardPrefixRadix(tok).0 == 2
    ensures var p := UlsNumber(tok, nExpo);
            !p.isZero && !p.isFloat && p.lptr + p.len == |tok| && tok[p.lptr..] == tok[2..]
            && p.n1 == p.len && p.n2 == p.n == 0
    ensures PrefixedToken(tok, "0x", 16) ==> UlsNumber(tok, nExpo).radix == 16
    ensures PrefixedToken(tok, "0o", 8) ==> UlsNumber(tok, nExpo).radix == 8
    ensures PrefixedToken(tok, "0b", 2) ==> UlsNumber(tok, nExpo).radix == 2
    ensures PrefixedToken(tok, "0t", 3) ==> UlsNumber(tok, nExpo).radix == 3
    ensures PrefixedToken(tok, "0q", 4) ==> UlsNumber(tok, nExpo).radix == 4
  {
    StandardPrefixes(tok);
  }

  /** A zero token has no digits left; an integer token is its own digits. */
  lemma UlsNumberInteger(tok: seq<Byte>, nExpo: int)
    requires Canonical(10, tok) || tok == [48, 46]
    ensures var p := UlsNumber(tok, nExpo);
            && p.radix == 10 && p.n2 == p.n == 0 && p.n1 == p.len && (p.isZero <==> tok in {[48], [48, 46]})
            && (p.isFloat <==> tok == [48, 46]) && p.lptr + p.len == |tok|
            && (!p.isZero ==> tok[p.lptr..p.lptr + p.len] == tok)
  {
    assert tok[0..|tok|] == tok && (|tok| == 1 ==> tok == [tok[0]]);
  }

  /** A text with a point and no exponent, and what it denotes. */
  ghost predicate PlainDecimal(s: seq<Byte>, v: real) {
    exists ip, fp :: PlainParts(s, v, ip, fp)
  }

  ghost predicate PlainParts(s: seq<Byte>, v: real, ip: seq<Byte>, fp: seq<Byte>) {
    var d := Decimal(ip, true, fp, [], 0);
    d.Valid() && s == d.Spelling() && v == d.Value()
  }

  lemma DigitsThenZeros(dd: seq<Byte>, m: nat, v: real)
    requires Digits(dd) && dd != [] && v == Scaled(Val(10, dd), m)
    ensures PlainDecimal((dd + Zeros(m)) + [DOT], v)
  {
    TrailingZeros(dd, m, 0);
    assert (dd + Zeros(m)) + [] == dd + Zeros(m);
    assert [DOT] + ([] + []) == [DOT];
    assert PlainParts((dd + Zeros(m)) + [DOT], v, dd + Zeros(m), []);
  }

  lemma FractionOnly(fp: seq<Byte>)
    requires Digits(fp) && fp != []
    ensures var d := Decimal([], true, fp, [], 0);
            d.Valid() && d.Spelling() == [DOT] + fp && d.Value() == Scaled(Val(10, fp), -(|fp| as int))
  {
    assert [] + fp == fp && fp + [] == fp;
    assert [] + ([DOT] + fp) == [DOT] + fp;
  }

  lemma PlainFraction(fp: seq<Byte>, e: int, v: real)
    requires Digits(fp) && fp != [] && e == -(|fp| as int) && v == Scaled(Val(10, fp), e)
    ensures PlainDecimal([DOT] + fp, v)
  {
    FractionOnly(fp);
    assert PlainParts([DOT] + fp, v, [], fp);
  }

  lemma ZerosThenDigits(dd: seq<Byte>, m: nat, v: real)
    requires Digits(dd) && dd != [] && v == Scaled(Val(10, dd), -(m as int) - |dd|)
    ensures PlainDecimal(([DOT] + Zeros(m)) + dd, v)
  {
    var fp := Zeros(m) + dd;
    ZerosInFront(10, m, dd);
    Assoc([DOT], Zeros(m), dd);
    var e := -(m as int) - |dd|;
    assert e == -(|fp| as int);
    PlainFraction(fp, e, v);
  }

  lemma DigitsAroundPoint(dd: seq<Byte>, n1: nat, v: real)
    requires Digits(dd) && dd != [] && n1 <= |dd| && v == Scaled(Val(10, dd), n1 - |dd|)
    ensures PlainDecimal((dd[..n1] + [DOT]) + dd[n1..], v)
  {
    var ip, fp := dd[..n1], dd[n1..];
    assert ip + fp == dd && fp + [] == fp;
    assert (ip + [DOT]) + fp == ip + ([DOT] + (fp + []));
    assert PlainParts((ip + [DOT]) + fp, v, ip, fp);
  }


  /** What is appended behind `head` is the rest of the buffer. */
  lemma BehindHead(buf: seq<Byte>, k0: nat, k: nat, head: seq<Byte>, text: seq<Byte>)
    requires k0 == |head| <= k <= |buf| && buf[..k] == head + text
    ensures buf[..k0] == head && buf[k0..k] == text
  {
    assert buf[..k0] == buf[..k][..k0];
    assert buf[k0..k] == buf[..k][k0..];
  }

  // __make_decstr_gexpr with a positive exponent left: digits, zeros, point
  method PutScaledUp(radstr: seq<Byte>, m: nat, numbuf: OutBuf, k0: nat, ghost v: real) returns (k: nat)
    requires Digits(radstr) && radstr != [] && v == Scaled(Val(10, radstr), m) && k0 <= numbuf.buf.Length
    modifies numbuf, numbuf.buf
    ensures numbuf.buf == old(numbuf.buf) || fresh(numbuf.buf)
    ensures k0 < k <= numbuf.buf.Length && numbuf.buf[..k0] == old(numbuf.buf[..k0])
    ensures PlainDecimal(numbuf.buf[k0..k], v)
  {
    ghost var head := numbuf.buf[..k0];
    k := numbuf.Append(k0, radstr);
    k := PutZeros(numbuf, k, m);
    numbuf.Putc(k, DOT);
    k := k + 1;
    Assoc(head, radstr, Zeros(m));
    Assoc(head, radstr + Zeros(m), [DOT]);
    BehindHead(numbuf.buf[..], k0, k, head, (radstr + Zeros(m)) + [DOT]);
    DigitsThenZeros(radstr, m, v);
  }

  // __make_decstr_gexpr with a negative exponent left: point, zeros, digits
  method PutScaledDown(radstr: seq<Byte>, m: nat, numbuf: OutBuf, k0: nat, ghost v: real) returns (k: nat)
    requires Digits(radstr) && radstr != [] && k0 <= numbuf.buf.Length
    requires v == Scaled(Val(10, radstr), -(m as int) - |radstr|)
    modifies numbuf, numbuf.buf
    ensures numbuf.buf == old(numbuf.buf) || fresh(numbuf.buf)
    ensures k0 < k <= numbuf.buf.Length && numbuf.buf[..k0] == old(numbuf.buf[..k0])
    ensures PlainDecimal(numbuf.buf[k0..k], v)
  {
    ghost var head := numbuf.buf[..k0];
    numbuf.Putc(k0, DOT);
    k := PutZeros(numbuf, k0 + 1, m);
    k := numbuf.Append(k, radstr);
    Assoc(head, [DOT], Zeros(m));
    Assoc(head, [DOT] + Zeros(m), radstr);
    BehindHead(numbuf.buf[..], k0, k, head, ([DOT] + Zeros(m)) + radstr);
    ZerosThenDigits(radstr, m, v);
  }

  // __make_decstr_gexpr with no exponent left: the point goes between the digits
  method PutAroundPoint(radstr: seq<Byte>, n1: nat, numbuf: OutBuf, k0: nat, ghost v: real) returns (k: nat)
    requires Digits(radstr) && radstr != [] && n1 <= |radstr| && k0 <= numbuf.buf.Length
    requires v == Scaled(Val(10, radstr), n1 - |radstr|)
    modifies numbuf, numbuf.buf
    ensures numbuf.buf == old(numbuf.buf) || fresh(numbuf.buf)
    ensures k0 < k <= numbuf.buf.Length && numbuf.buf[..k0] == old(numbuf.buf[..k0])
    ensures PlainDecimal(numbuf.buf[k0..k], v)
  {
    ghost var head := numbuf.buf[..k0];
    k := numbuf.Append(k0, radstr[..n1]);
    numbuf.Putc(k, DOT);
    k := numbuf.Append(k + 1, radstr[n1..]);
    Assoc(head, radstr[..n1], [DOT]);
    Assoc(head, radstr[..n1] + [DOT], radstr[n1..]);
    BehindHead(numbuf.buf[..], k0, k, head, (radstr[..n1] + [DOT]) + radstr[n1..]);
    DigitsAroundPoint(radstr, n1, v);
  }

  // __make_decstr_gexpr; k is 0 when the plain text would be too long
  method MakeDecstrGExpr(tok: seq<Byte>, nExpo: int, numbuf: OutBuf, k0: nat, ghost dd: seq<Byte>, ghost v: real)
    returns (k: nat)
    requires tok == [DOT] + dd && Digits(dd) && dd != [] && dd[0] != ZERO && v == Scaled(Val(10, dd), nExpo - |dd|)
    requires k0 <= numbuf.buf.Length
    modifies numbuf, numbuf.buf
    ensures numbuf.buf == old(numbuf.buf) || fresh(numbuf.buf)
    ensures k == 0 <==> nExpo <= -6 || (nExpo > |dd| && nExpo > 6)
    ensures k > 0 ==> k0 < k <= numbuf.buf.Length && numbuf.buf[..k0] == old(numbuf.buf[..k0])
    ensures k > 0 ==> PlainDecimal(numbuf.buf[k0..k], v)
  {
    UlsNumberDenotes(tok, dd, nExpo, v);
    var parms1 := UlsNumber(tok, nExpo);
    var mExpo, radstr := parms1.n, tok[parms1.lptr..];
    assert radstr == dd;
    k := 0;
    if mExpo > 0 {
      if mExpo + parms1.len <= 6 {
        k := PutScaledUp(radstr, mExpo, numbuf, k0, v);
      }
    } else if mExpo < 0 {
      if mExpo > -6 {
        k := PutScaledDown(radstr, -mExpo, numbuf, k0, v);
      }
    } else {
      k := PutAroundPoint(radstr, parms1.n1, numbuf, k0, v);
    }
  }

  /** A text in hexadecimal with its standard prefix, for the digits of a prefixed token. */
  ghost predicate HexExpression(text: seq<Byte>, radix: nat, digits: seq<Byte>) {
    |text| > 2 && text[..2] == [ZERO, LOWER_X] && HexFrom(text[2..], radix, digits)
  }

  lemma HexBehindPrefix(buf: seq<Byte>, k0: nat, k: nat, radix: nat, digits: seq<Byte>)
    requires k0 + 2 < k <= |buf| && buf[k0..k0 + 2] == [ZERO, LOWER_X] && HexFrom(buf[k0 + 2..k], radix, digits)
    ensures HexExpression(buf[k0..k], radix, digits)
  {
    assert buf[k0..k][..2] == buf[k0..k0 + 2] && buf[k0..k][2..] == buf[k0 + 2..k];
  }

  // __make_radixint_str_gexpr, behind the prefix it has written
  method PutRadixDigits(radstr: seq<Byte>, radix: nat, numbuf: OutBuf, k0: nat) returns (k: nat)
    requires radix in {2, 3, 4, 8, 16} && IsNumeral(radix, radstr) && radstr != [] && k0 <= numbuf.buf.Length
    modifies numbuf, numbuf.buf
    ensures numbuf.buf == old(numbuf.buf) || fresh(numbuf.buf)
    ensures k0 < k <= numbuf.buf.Length && numbuf.buf[..k0] == old(numbuf.buf[..k0])
    ensures HexFrom(numbuf.buf[k0..k], radix, radstr)
  {
    ghost var head := numbuf.buf[..k0];
    numbuf.Reserve(k0 + |radstr| + 1);
    assert numbuf.buf[..k0] == head;
    if radix == 2 || radix == 4 || radix == 8 {
      var len := CvtBitGroups(radix, radstr, numbuf.buf, k0);
      k := k0 + len;
    } else if radix == 16 {
      k := AppendHex(radstr, numbuf, k0);
    } else {
      k := Radix2HexadecimalStr(radix, radstr, numbuf, k0);
    }
  }

  // __make_radixint_str_gexpr
  method MakeRadixintStrGExpr(radstr: seq<Byte>, radix: nat, numbuf: OutBuf, k0: nat) returns (k: nat)
    requires radix in {2, 3, 4, 8, 16} && IsNumeral(radix, radstr) && radstr != [] && k0 <= numbuf.buf.Length
    modifies numbuf, numbuf.buf
    ensures numbuf.buf == old(numbuf.buf) || fresh(numbuf.buf)
    ensures k0 < k <= numbuf.buf.Length && numbuf.buf[..k0] == old(numbuf.buf[..k0])
    ensures HexExpression(numbuf.buf[k0..k], radix, radstr)
  {
    ghost var head := numbuf.buf[..k0];
    numbuf.Putc(k0, ZERO);
    numbuf.Putc(k0 + 1, LOWER_X);
    ghost var prefixed := numbuf.buf[..k0 + 2];
    Assoc(head, [ZERO], [LOWER_X]);
    assert prefixed == head + [ZERO, LOWER_X];
    k := PutRadixDigits(radstr, radix, numbuf, k0 + 2);
    BehindHead(numbuf.buf[..], k0, k0 + 2, head, [ZERO, LOWER_X]);
    HexBehindPrefix(numbuf.buf[..], k0, k, radix, radstr);
  }

  /** The tokens the numeral reader produces, without a sign. */
  ghost predicate TokenBody(body: seq<Byte>, len: nat, nExpo: int, v: real) {
    || body == [ZERO, DOT]
    || Canonical(10, body)
    || FractionToken(body, len, nExpo, v)
    || PrefixedBody(body)
  }

  ghost predicate PrefixedBody(body: seq<Byte>) {
    var (lenPrefix, radix) := FindStandardPrefixRadix(body);
    lenPrefix == 2 && IsNumeral(radix, body[2..]) && |body| > 2
  }

  /** Every token the reader produces for a numeral, decimal or with a standard prefix, is one of them. */
  lemma ReaderTokens(tok: seq<Byte>, len: nat, n: int, v: real, srp: seq<Byte>, text: seq<Byte>, radix: nat)
    requires FindStandardPrefixRadix(srp) == (2, radix) && |srp| == 2
    requires Denotes(tok, len, n, v) || RadixToken(tok, srp, text, radix)
    ensures TokenBody(tok, len, n, v)
  {
    if RadixToken(tok, srp, text, radix) && tok != [ZERO] {
      assert tok[0] == tok[..2][0] && tok[1] == tok[..2][1];
      assert PrefixedBody(tok);
    }
  }

  function SignLength(tokstr: seq<Byte>): nat {
    if tokstr != [] && tokstr[0] == MINUS then 1 else 0
  }

  // uls_number_gexpr: where the digits of a fraction end
  method CutExponent(radstr: seq<Byte>, ghost len: nat, ghost nExpo: int, ghost v: real) returns (l: nat)
    requires FractionToken(radstr, len, nExpo, v)
    ensures l == 1 + len
  {
    DigitsUpToExponent(radstr, len, nExpo, v);
    l := 1;
    while l < |radstr| && radstr[l] != UPPER_E
      invariant 1 <= l <= 1 + len
    {
      l := l + 1;
    }
  }

  lemma DigitsUpToExponent(tok: seq<Byte>, len: nat, nExpo: int, v: real)
    requires FractionToken(tok, len, nExpo, v)
    ensures forall i :: 1 <= i < 1 + len ==> tok[i] != UPPER_E
    ensures |tok| > 1 + len ==> tok[1 + len] == UPPER_E
  {
    forall i | 1 <= i < 1 + len ensures tok[i] != UPPER_E {
      assert tok[i] == tok[1..1 + len][i - 1];
    }
    assert |tok| > 1 + len ==> tok[1 + len] == tok[1 + len..][0];
  }

  // uls_number_gexpr behind the sign; 0 when there is no general expression
  method UnsignedGexpr(radstr: seq<Byte>, nExpo: int, numbuf: OutBuf, k0: nat, ghost len: nat, ghost v: real)
    returns (k: nat)
    requires TokenBody(radstr, len, nExpo, v) && k0 <= numbuf.buf.Length
    modifies numbuf, numbuf.buf
    ensures numbuf.buf == old(numbuf.buf) || fresh(numbuf.buf)
    ensures radstr[0] == DOT ==> (k == 0 <==> nExpo <= -6 || (nExpo > len && nExpo > 6))
    ensures radstr[0] != DOT ==> (k == 0 <==> !PrefixedBody(radstr))
    ensures k > 0 ==> k0 < k <= numbuf.buf.Length && numbuf.buf[..k0] == old(numbuf.buf[..k0])
    ensures k > 0 && radstr[0] == DOT ==> PlainDecimal(numbuf.buf[k0..k], v)
    ensures k > 0 && radstr[0] != DOT ==>
      HexExpression(numbuf.buf[k0..k], FindStandardPrefixRadix(radstr).1, radstr[2..])
    ensures k <= numbuf.buf.Length
  {
    if radstr[0] == DOT {
      var lRadstr := CutExponent(radstr, len, nExpo, v);
      assert radstr[..lRadstr] == [DOT] + radstr[1..lRadstr];
      k := MakeDecstrGExpr(radstr[..lRadstr], nExpo, numbuf, k0, radstr[1..lRadstr], v);
    } else {
      var (lenPrefix, radix) := FindStandardPrefixRadix(radstr);
      if radix != 10 {
        NoDecimalHasPrefix(radstr);
        k := MakeRadixintStrGExpr(radstr[lenPrefix..], radix, numbuf, k0);
      } else {
        k := 0;
      }
    }
  }

  lemma NoDecimalHasPrefix(body: seq<Byte>)
    requires FindStandardPrefixRadix(body).1 != 10
    ensures !Canonical(10, body) && body != [ZERO, DOT]
  {}

  /** `text` is `0x` and a hexadecimal numeral of the value the digits have in their radix. */
  ghost predicate PrintedHex(text: seq<Byte>, radix: nat, digits: seq<Byte>) {
    |text| > 2 && Starts(text, "0x") && IsNumeral(16, text[2..]) && Val(16, text[2..]) == Val(radix, digits)
  }

  /** What a general expression in hexadecimal says, prefix by prefix. */
  ghost predicate PrintedAsPrefixed(body: seq<Byte>, text: seq<Byte>) {
    && (PrefixedToken(body, "0x", 16) ==> PrintedHex(text, 16, body[2..]))
    && (PrefixedToken(body, "0o", 8) ==> PrintedHex(text, 8, body[2..]))
    && (PrefixedToken(body, "0b", 2) ==> PrintedHex(text, 2, body[2..]))
    && (PrefixedToken(body, "0t", 3) ==> PrintedHex(text, 3, body[2..]))
    && (PrefixedToken(body, "0q", 4) ==> PrintedHex(text, 4, body[2..]))
  }

  lemma PrefixSaysRadix(body: seq<Byte>, text: seq<Byte>)
    requires |body| >= 2 && HexExpression(text, FindStandardPrefixRadix(body).1, body[2..])
    ensures PrintedAsPrefixed(body, text)
  {
    StandardPrefixes(body);
    assert text[0] == text[..2][0] && text[1] == text[..2][1];
    TwoCharacters(text, "0x");
  }

  ghost predicate HasPrefix(body: seq<Byte>) {
    || PrefixedToken(body, "0x", 16) || PrefixedToken(body, "0o", 8) || PrefixedToken(body, "0b", 2)
    || PrefixedToken(body, "0t", 3) || PrefixedToken(body, "0q", 4)
  }

  lemma PrefixIsBody(body: seq<Byte>)
    ensures HasPrefix(body) <==> PrefixedBody(body)
  {
    StandardPrefixes(body);
  }

  // uls_number_gexpr: 0 and an empty text, or the length of the general expression
  method NumberGexpr(tokstr: seq<Byte>, nExpo: int, numbuf: OutBuf, ghost len: nat, ghost v: real) returns (k: nat)
    requires TokenBody(tokstr[SignLength(tokstr)..], len, nExpo, v)
    modifies numbuf, numbuf.buf
    ensures numbuf.buf == old(numbuf.buf) || fresh(numbuf.buf)
    ensures k < numbuf.buf.Length && numbuf.buf[k] == NUL
    ensures var s := if tokstr != [] && tokstr[0] == 45 then 1 else 0;
            var body := tokstr[s..];
            && (body[0] == DOT ==> (k == 0 <==> nExpo <= -6 || (nExpo > len && nExpo > 6)))
            && (body[0] != DOT ==> (k == 0 <==> !HasPrefix(body)))
            && (k > 0 ==> s < k && numbuf.buf[..s] == tokstr[..s]
                          && if body[0] == DOT then PlainDecimal(numbuf.buf[s..k], v)
                             else HexExpression(numbuf.buf[s..k], FindStandardPrefixRadix(body).1, body[2..])
                                  && PrintedAsPrefixed(body, numbuf.buf[s..k]))
  {
    k := GeneralExpression(tokstr, nExpo, numbuf, len, v);
    ghost var s := SignLength(tokstr);
    PrefixIsBody(tokstr[s..]);
    if k > 0 && tokstr[s] != DOT {
      PrefixSaysRadix(tokstr[s..], numbuf.buf[s..k]);
    }
  }

  method GeneralExpression(tokstr: seq<Byte>, nExpo: int, numbuf: OutBuf, ghost len: nat, ghost v: real)
    returns (k: nat)
    requires TokenBody(tokstr[SignLength(tokstr)..], len, nExpo, v)
    modifies numbuf, numbuf.buf
    ensures numbuf.buf == old(numbuf.buf) || fresh(numbuf.buf)
    ensures k < numbuf.buf.Length && numbuf.buf[k] == NUL
    ensures var s := SignLength(tokstr);
            var body := tokstr[s..];
            && (body[0] == DOT ==> (k == 0 <==> nExpo <= -6 || (nExpo > len && nExpo > 6)))
            && (body[0] != DOT ==> (k == 0 <==> !PrefixedBody(body)))
            && (k > 0 ==> s < k && numbuf.buf[..s] == tokstr[..s]
                          && if body[0] == DOT then PlainDecimal(numbuf.buf[s..k], v)
                             else HexExpression(numbuf.buf[s..k], FindStandardPrefixRadix(body).1, body[2..]))
  {
    if tokstr == [ZERO] || tokstr == [ZERO, DOT] {
      numbuf.Putc(0, NUL);
      return 0;
    }
    var s := SignLength(tokstr);
    if s == 1 {
      numbuf.Putc(0, MINUS);
    }
    assert numbuf.buf[..s] == tokstr[..s];
    k := UnsignedGexpr(tokstr[s..], nExpo, numbuf, s, len, v);
    ghost var text := numbuf.buf[..k];
    numbuf.Putc(k, NUL);
    assert k > 0 ==> numbuf.buf[..s] == text[..s] && numbuf.buf[s..k] == text[s..];
  }
}
