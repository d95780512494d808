/** Reading a numeral into the canonical token text (src/uls_num.c, uls_extract_number and below). */
module NumFormat {
  import opened Bytes
  import opened Numerals
  import opened OutBufs

  // ---------- what a numeral denotes ----------

  /** m * 10^e */
  ghost function Scaled(m: int, e: int): real
    decreases if e < 0 then -e else e
  {
    if e == 0 then m as real
    else if e > 0 then Scaled(10 * m, e - 1)
    else Scaled(m, e + 1) / 10.0
  }

  lemma {:induction false} ScaleOnce(m: int, e: int)
    ensures Scaled(10 * m, e) == Scaled(m, e + 1)
    decreases if e < 0 then -e else 0
  {
    if e < -1 {
      ScaleOnce(m, e + 1);
    }
  }

  ghost function Pow10(e: int): (p: real)
    ensures p > 0.0
    decreases if e < 0 then -e else e
  {
    if e == 0 then 1.0 else if e > 0 then 10.0 * Pow10(e - 1) else Pow10(e + 1) / 10.0
  }

  /** What Scaled means: the significand times a power of ten. */
  lemma {:induction false} ScaledIsProduct(m: int, e: int)
    ensures Scaled(m, e) == m as real * Pow10(e)
    decreases if e < 0 then -e else e
  {
    if e > 0 {
      ScaledIsProduct(10 * m, e - 1);
      assert (10 * m) as real == 10.0 * m as real;
      RealAssociate(m as real, Pow10(e - 1));
    } else if e < 0 {
      ScaledIsProduct(m, e + 1);
      RealAssociate(m as real, Pow10(e));
    }
  }

  lemma RealAssociate(x: real, p: real)
    ensures (10.0 * x) * p == x * (10.0 * p) == 10.0 * (x * p)
  {}

  /** Every power of ten is ten times the one before it, upwards from 1. */
  lemma Pow10Step(e: int)
    ensures Pow10(0) == 1.0 && Pow10(e + 1) == 10.0 * Pow10(e)
  {}

  lemma {:induction false} ScaledZero(e: int)
    ensures Scaled(0, e) == 0.0
    decreases if e < 0 then -e else e
  {
    if e > 0 {
      ScaledZero(e - 1);
    } else if e < 0 {
      ScaledZero(e + 1);
    }
  }

  ghost function Zeros(n: nat): (s: seq<Byte>)
    ensures |s| == n && forall i :: 0 <= i < n ==> s[i] == ZERO
  {
    seq(n, _ => ZERO)
  }

  /** Trailing zeros trade places with the exponent. */
  lemma {:induction false} TrailingZeros(s: seq<Byte>, z: nat, e: int)
    ensures Scaled(Val(10, s + Zeros(z)), e) == Scaled(Val(10, s), e + z)
    decreases z
  {
    if z == 0 {
      assert s + Zeros(0) == s;
    } else {
      assert s + Zeros(z) == (s + Zeros(z - 1)) + [ZERO];
      ValSnoc(10, 0, s + Zeros(z - 1), ZERO);
      ScaleOnce(Val(10, s + Zeros(z - 1)), e);
      TrailingZeros(s, z - 1, e + 1);
    }
  }

  lemma {:induction false} ZerosInFront(radix: nat, z: nat, s: seq<Byte>)
    ensures Val(radix, Zeros(z) + s) == Val(radix, s)
    decreases z
  {
    if z == 0 {
      assert Zeros(0) + s == s;
    } else {
      assert (Zeros(z) + s)[1..] == Zeros(z - 1) + s;
      assert Val(radix, Zeros(z) + s) == ValFrom(radix, 0, Zeros(z - 1) + s);
      ZerosInFront(radix, z - 1, s);
    }
  }

  lemma AllZeros(z: nat)
    ensures Val(10, Zeros(z)) == 0
  {
    ZerosInFront(10, z, []);
    assert Zeros(z) + [] == Zeros(z);
  }

  ghost predicate Digits(s: seq<Byte>) {
    forall i :: 0 <= i < |s| ==> IsDigit(s[i])
  }

  /** `mark` spells the exponent `x`: a letter, an optional sign, digits. */
  ghost predicate ExpoMark(mark: seq<Byte>, x: int) {
    && |mark| >= 2 && (mark[0] == UPPER_E || mark[0] == LOWER_E)
    && var body := if mark[1] == PLUS || mark[1] == MINUS then mark[2..] else mark[1..];
       var v: int := Val(10, body);
       body != [] && Digits(body) && x == if mark[1] == MINUS then -v else v
  }

  /** `mark` is empty, or spells the exponent `x`. */
  ghost predicate ExpoText(mark: seq<Byte>, x: int) {
    if mark == [] then x == 0 else ExpoMark(mark, x)
  }

  /** A decimal numeral by its parts: digits, an optional point, digits, an optional exponent. */
  datatype Decimal = Decimal(ip: seq<Byte>, dot: bool, fp: seq<Byte>, mark: seq<Byte>, x: int) {

    ghost predicate Valid() {
      && Digits(ip) && Digits(fp) && (!dot ==> fp == []) && |ip| + |fp| > 0
      && ExpoText(mark, x)
    }

    ghost function AfterInteger(): seq<Byte> {
      if dot then [DOT] + (fp + mark) else mark
    }

    ghost function Spelling(): seq<Byte> {
      ip + AfterInteger()
    }

    /** The numeral in front of its exponent. */
    ghost function Front(): seq<Byte> {
      ip + if dot then [DOT] + fp else []
    }

    ghost function Value(): real {
      Scaled(Val(10, ip + fp), x - |fp|)
    }
  }

  /** What a numeral is worth: the number its digits write as one, times ten to its exponent less the number of digits
      of its fraction. */
  lemma ValueIs(d: Decimal)
    ensures d.Value() == (Val(10, d.ip) * Pow(10, |d.fp|) + Val(10, d.fp)) as real * Pow10(d.x - |d.fp|)
  {
    JoinedVal(d.ip, d.fp);
    ScaledIsProduct(Val(10, d.ip + d.fp), d.x - |d.fp|);
  }

  lemma JoinedVal(ip: seq<Byte>, fp: seq<Byte>)
    ensures Val(10, ip + fp) == Val(10, ip) * Pow(10, |fp|) + Val(10, fp)
  {
    ValAppend(10, 0, ip, fp);
    ValShift(10, Val(10, ip), fp);
  }

  /** What an exponent text means: `E` or `e`, then digits, or digits behind a sign. */
  lemma ExpoMeans(letter: Byte, ds: seq<Byte>)
    requires letter in {69, 101} && Digits(ds) && ds != []
    ensures ExpoText([letter] + ds, Val(10, ds)) && ExpoText([letter, 43] + ds, Val(10, ds))
    ensures ExpoText([letter, 45] + ds, -(Val(10, ds) as int)) && ExpoText([], 0)
  {
    assert ([letter] + ds)[1..] == ds && ([letter] + ds)[1] == ds[0];
    assert ([letter, 43] + ds)[2..] == ds && ([letter, 45] + ds)[2..] == ds;
  }

  /** And an exponent text means one exponent. */
  lemma ExpoMeansOne(mark: seq<Byte>, x1: int, x2: int)
    requires ExpoText(mark, x1) && ExpoText(mark, x2)
    ensures x1 == x2
  {}

  /** The digits in front of a text, up to the first character that is none, are determined by it. */
  lemma SameRun(a: seq<Byte>, u: seq<Byte>, b: seq<Byte>, w: seq<Byte>)
    requires a + u == b + w && Digits(a) && Digits(b)
    requires u != [] ==> !IsDigit(u[0])
    requires w != [] ==> !IsDigit(w[0])
    ensures a == b && u == w
  {
    var s := a + u;
    assert forall k :: 0 <= k < |b| ==> s[k] == b[k];
    assert u != [] ==> s[|a|] == u[0];
    assert w != [] ==> s[|b|] == w[0];
    assert |a| == |b|;
    assert a == s[..|a|] == b && u == s[|a|..] == w;
  }

  lemma FrontAndMark(d: Decimal)
    ensures d.Front() + d.mark == d.Spelling()
  {
    if d.dot {
      Assoc([DOT], d.fp, d.mark);
      Assoc(d.ip, [DOT] + d.fp, d.mark);
    }
  }

  lemma BehindInteger(d: Decimal)
    requires d.Valid()
    ensures d.AfterInteger() != [] ==> !IsDigit(d.AfterInteger()[0])
    ensures d.dot <==> d.AfterInteger() != [] && d.AfterInteger()[0] == DOT
    ensures d.dot ==> d.fp + d.mark == d.AfterInteger()[1..]
  {}

  /** A text spells at most one numeral. */
  lemma SpellingUnique(d1: Decimal, d2: Decimal)
    requires d1.Valid() && d2.Valid() && d1.Spelling() == d2.Spelling()
    ensures d1 == d2
  {
    BehindInteger(d1);
    BehindInteger(d2);
    SameRun(d1.ip, d1.AfterInteger(), d2.ip, d2.AfterInteger());
    SameRun(d1.fp, d1.mark, d2.fp, d2.mark);
  }

  // ---------- scanning, with an optional separator between digits ----------

  /** A text without its separators. */
  ghost function Strip(s: seq<Byte>, sep: Byte): (r: seq<Byte>)
    ensures sep !in r && |r| <= |s|
    decreases |s|
  {
    if s == [] then []
    else
      var last := s[|s| - 1];
      Strip(s[..|s| - 1], sep) + if last == sep then [] else [last]
  }

  lemma StripSnoc(s: seq<Byte>, ch: Byte, sep: Byte)
    ensures Strip(s + [ch], sep) == Strip(s, sep) + if ch == sep then [] else [ch]
  {
    assert (s + [ch])[..|s|] == s;
  }

  lemma {:induction false} StripAppend(a: seq<Byte>, b: seq<Byte>, sep: Byte)
    ensures Strip(a + b, sep) == Strip(a, sep) + Strip(b, sep)
    decreases |b|
  {
    if b == [] {
      assert a + b == a;
    } else {
      var front, ch := b[..|b| - 1], b[|b| - 1];
      assert b == front + [ch] && a + b == (a + front) + [ch];
      StripAppend(a, front, sep);
      StripSnoc(a + front, ch, sep);
      StripSnoc(front, ch, sep);
      Assoc(Strip(a, sep), Strip(front, sep), if ch == sep then [] else [ch]);
    }
  }

  lemma {:induction false} StripNothing(s: seq<Byte>, sep: Byte)
    requires sep !in s
    ensures Strip(s, sep) == s
    decreases |s|
  {
    if s != [] {
      StripNothing(s[..|s| - 1], sep);
      assert s == s[..|s| - 1] + [s[|s| - 1]];
    }
  }

  /** The next character joins the scanned part. */
  lemma StripNext(line: seq<Byte>, p: nat, i: nat, sep: Byte)
    requires p <= i < |line|
    ensures line[i] == sep ==> Strip(line[p..i + 1], sep) == Strip(line[p..i], sep)
    ensures line[i] != sep ==> Strip(line[p..i + 1], sep) == Strip(line[p..i], sep) + [line[i]]
  {
    var s := line[p..i + 1];
    assert s[..|s| - 1] == line[p..i] && s[|s| - 1] == line[i];
    assert Strip(line[p..i], sep) + [] == Strip(line[p..i], sep);
  }

  /** Two scanned parts that follow each other. */
  lemma StripJoin(line: seq<Byte>, p: nat, i: nat, j: nat, sep: Byte)
    requires p <= i <= j <= |line|
    ensures Strip(line[p..j], sep) == Strip(line[p..i], sep) + Strip(line[i..j], sep)
  {
    assert line[p..j] == line[p..i] + line[i..j];
    StripAppend(line[p..i], line[i..j], sep);
  }

  /** Back from `i` to `p`, or to a point, there are only zeros, and separators. */
  ghost predicate ZerosBack(line: seq<Byte>, p: nat, i: nat, sep: Byte) {
    i <= p || (i <= |line| && (line[i - 1] == DOT
                               || ((line[i - 1] == ZERO || line[i - 1] == sep) && ZerosBack(line, p, i - 1, sep))))
  }

  /** The separator at `i` stands behind zeros, and in front of no point that a digit follows. */
  ghost predicate Trailing(line: seq<Byte>, p: nat, q: nat, i: nat, sep: Byte) {
    ZerosBack(line, p, i, sep) && (i + 1 < q && i + 2 < |line| && line[i + 1] == DOT ==> !IsDigit(line[i + 2]))
  }

  /** Of the part from `p` to `q`: a separator at `i` stands directly behind a digit, and in front of another one unless
      all digits are zeros so far. */
  ghost predicate Apart(line: seq<Byte>, p: nat, q: nat, i: nat, sep: Byte) {
    && i < |line|
    && (line[i] == sep ==>
          && i > p && IsNumRadix(line[i - 1], 36) >= 0
          && ((i + 1 < q && i + 1 < |line| && IsNumRadix(line[i + 1], 36) >= 0) || Trailing(line, p, q, i, sep)))
  }

  /** From `p` to `q` stands `text`, with separators where they may stand. */
  ghost predicate Spells(line: seq<Byte>, p: nat, q: nat, sep: Byte, text: seq<Byte>) {
    && p <= q <= |line| && Strip(line[p..q], sep) == text
    && forall i: nat :: p <= i < q ==> Apart(line, p, q, i, sep)
  }

  /** What is read from `q` on may follow what is read from `p` to `q`. */
  ghost predicate Joint(line: seq<Byte>, p: nat, q: nat, sep: Byte) {
    p < q < |line| ==>
      && ((line[q] != ZERO && line[q] != sep) || line[q - 1] == DOT)
      && (line[q - 1] == sep ==> line[q] != DOT)
  }

  lemma {:induction false} ZerosBackJoin(line: seq<Byte>, p: nat, q: nat, i: nat, sep: Byte)
    requires p <= q < i && Joint(line, p, q, sep) && ZerosBack(line, q, i, sep)
    ensures ZerosBack(line, p, i, sep)
    decreases i
  {
    if line[i - 1] != DOT && i - 1 > q {
      ZerosBackJoin(line, p, q, i - 1, sep);
    }
  }

  lemma SpellsJoin(line: seq<Byte>, p: nat, q: nat, e: nat, sep: Byte, a: seq<Byte>, b: seq<Byte>)
    requires Spells(line, p, q, sep, a) && Spells(line, q, e, sep, b) && Joint(line, p, q, sep)
    ensures Spells(line, p, e, sep, a + b)
  {
    StripJoin(line, p, q, e, sep);
    ApartJoin(line, p, q, e, sep);
  }

  lemma ApartJoin(line: seq<Byte>, p: nat, q: nat, e: nat, sep: Byte)
    requires p <= q <= e <= |line| && Joint(line, p, q, sep)
    requires forall i: nat :: p <= i < q ==> Apart(line, p, q, i, sep)
    requires forall i: nat :: q <= i < e ==> Apart(line, q, e, i, sep)
    ensures forall i: nat :: p <= i < e ==> Apart(line, p, e, i, sep)
  {
    forall i: nat | p <= i < e ensures Apart(line, p, e, i, sep) {
      if i >= q {
        assert Apart(line, q, e, i, sep);
        if i > q && ZerosBack(line, q, i, sep) {
          ZerosBackJoin(line, p, q, i, sep);
        }
      } else {
        assert Apart(line, p, q, i, sep);
      }
    }
  }

  /** The part grows up to `q`, at most by one separator and a digit. */
  lemma ApartNext(line: seq<Byte>, p: nat, i: nat, q: nat, sep: Byte)
    requires p <= i <= q <= |line| && forall j: nat :: p <= j < i ==> Apart(line, p, i, j, sep)
    requires i > p && i + 1 < |line| && line[i] == DOT && line[i - 1] == sep ==> !IsDigit(line[i + 1])
    requires forall j: nat :: i <= j < q ==> Apart(line, p, q, j, sep)
    ensures forall j: nat :: p <= j < q ==> Apart(line, p, q, j, sep)
  {
    forall j: nat | p <= j < q ensures Apart(line, p, q, j, sep) {
      assert j < i ==> Apart(line, p, i, j, sep);
    }
  }

  lemma SpellsNext(line: seq<Byte>, p: nat, i: nat, sep: Byte, text: seq<Byte>)
    requires Spells(line, p, i, sep, text) && i < |line| && line[i] != sep
    requires line[i] == DOT && i > p && line[i - 1] == sep && i + 1 < |line| ==> !IsDigit(line[i + 1])
    ensures Spells(line, p, i + 1, sep, text + [line[i]])
  {
    StripNext(line, p, i, sep);
    var q: nat := i + 1;
    ApartNext(line, p, i, q, sep);
  }

  lemma SpellsTrailing(line: seq<Byte>, p: nat, i: nat, sep: Byte, text: seq<Byte>)
    requires Spells(line, p, i, sep, text) && i < |line| && line[i] == sep && IsSeparator(sep)
    requires i > p && IsNumRadix(line[i - 1], 36) >= 0 && ZerosBack(line, p, i, sep)
    ensures Spells(line, p, i + 1, sep, text)
  {
    StripNext(line, p, i, sep);
    var q: nat := i + 1;
    ApartNext(line, p, i, q, sep);
  }

  lemma SpellsOver(line: seq<Byte>, p: nat, i: nat, q: nat, sep: Byte, text: seq<Byte>)
    requires Spells(line, p, i, sep, text) && q == i + 2 <= |line| && line[i] == sep && IsSeparator(sep)
    requires i > p && IsNumRadix(line[i - 1], 36) >= 0 && IsNumRadix(line[i + 1], 36) >= 0
    ensures Spells(line, p, q, sep, text + [line[i + 1]])
  {
    StripOver(line, p, i, q, sep);
    ApartOver(line, p, i, q, sep);
  }

  lemma ApartOver(line: seq<Byte>, p: nat, i: nat, q: nat, sep: Byte)
    requires p < i && q == i + 2 <= |line| && line[i] == sep && IsSeparator(sep)
    requires IsNumRadix(line[i - 1], 36) >= 0 && IsNumRadix(line[i + 1], 36) >= 0
    requires forall j: nat :: p <= j < i ==> Apart(line, p, i, j, sep)
    ensures forall j: nat :: p <= j < q ==> Apart(line, p, q, j, sep)
  {
    forall j: nat | i <= j < q ensures Apart(line, p, q, j, sep) {
      assert j == i || j == i + 1;
    }
    ApartNext(line, p, i, q, sep);
  }

  lemma StripOver(line: seq<Byte>, p: nat, i: nat, q: nat, sep: Byte)
    requires p <= i && q == i + 2 <= |line| && line[i] == sep != line[i + 1]
    ensures Strip(line[p..q], sep) == Strip(line[p..i], sep) + [line[i + 1]]
  {
    var k: nat := i + 1;
    StripNext(line, p, i, sep);
    StripNext(line, p, k, sep);
    assert line[p..k + 1] == line[p..q];
  }

  lemma SpellsBack(line: seq<Byte>, p: nat, q: nat, sep: Byte, text: seq<Byte>)
    requires p < q && Spells(line, p, q, sep, text) && line[q - 1] == sep && IsSeparator(sep)
    ensures Spells(line, p, q - 1, sep, text) && q - 1 > p && IsNumRadix(line[q - 2], 36) >= 0
  {
    var e: nat := q - 1;
    StripBack(line, p, e, q, sep);
    ApartBack(line, p, e, q, sep);
  }

  lemma StripBack(line: seq<Byte>, p: nat, e: nat, q: nat, sep: Byte)
    requires p <= e && q == e + 1 <= |line| && line[e] == sep
    ensures Strip(line[p..q], sep) == Strip(line[p..e], sep)
  {
    StripNext(line, p, e, sep);
    assert line[p..e + 1] == line[p..q];
  }

  lemma ApartBack(line: seq<Byte>, p: nat, e: nat, q: nat, sep: Byte)
    requires p <= e && q == e + 1 <= |line| && line[e] == sep && IsSeparator(sep)
    requires forall j: nat :: p <= j < q ==> Apart(line, p, q, j, sep)
    ensures forall j: nat :: p <= j < e ==> Apart(line, p, e, j, sep)
    ensures e > p && IsNumRadix(line[e - 1], 36) >= 0
  {
    assert Apart(line, p, q, e, sep);
    forall j: nat | p <= j < e ensures Apart(line, p, e, j, sep) {
      assert Apart(line, p, q, j, sep);
    }
  }

  /** From `p` to `e` stands `text`, with separators, then `mark` as it is. */
  ghost predicate SpellsAnd(line: seq<Byte>, p: nat, e: nat, sep: Byte, text: seq<Byte>, mark: seq<Byte>) {
    && p + |mark| <= e <= |line| && Spells(line, p, e - |mark|, sep, text)
    && line[e - |mark|..e] == mark
  }

  lemma SpellsAndJoin(line: seq<Byte>, p: nat, q: nat, e: nat, sep: Byte, a: seq<Byte>, b: seq<Byte>, mark: seq<Byte>)
    requires Spells(line, p, q, sep, a) && SpellsAnd(line, q, e, sep, b, mark) && Joint(line, p, q, sep)
    ensures SpellsAnd(line, p, e, sep, a + b, mark)
  {
    SpellsJoin(line, p, q, e - |mark|, sep, a, b);
  }

  lemma MarkBehind(line: seq<Byte>, p: nat, e: nat, sep: Byte, text: seq<Byte>, mark: seq<Byte>)
    requires SpellsAnd(line, p, e, sep, text, mark)
    ensures line[p..e] == line[p..e - |mark|] + mark && Strip(line[p..e - |mark|], sep) == text
  {
    assert line[p..e] == line[p..e - |mark|] + line[e - |mark|..e];
  }

  /** What a lexer may have as its separator: no terminator, no letter, no digit, no minus sign or point. A lexer that
      configures none has the character 1. */
  predicate IsSeparator(sep: Byte) {
    sep != NUL && IsNumRadix(sep, 36) < 0 && sep != DOT && sep != MINUS
  }

  /** The parameter record `outparam`, as far as the numeral scanner uses it. */
  class NumParms {
    var lptr: nat
    var isZero: bool
    var isFloat: bool
    var prevIsSep: bool
    var n: int
    var len: nat
    const wch: Byte

    constructor (lptr: nat, wch: Byte, prevIsSep: bool)
      ensures this.lptr == lptr && this.wch == wch && this.prevIsSep == prevIsSep
      ensures !isZero && !isFloat && n == 0 && len == 0
    {
      this.lptr, this.wch, this.prevIsSep := lptr, wch, prevIsSep;
      isZero, isFloat, n, len := false, false, 0, 0;
    }
  }

  const LOWER_Z: Byte := 122

  /** From `p` to `lptr` there are `m` zeros, and separators. */
  ghost predicate ZeroRun(line: seq<Byte>, p: nat, lptr: nat, sep: Byte, m: nat) {
    p <= lptr < |line| && m <= lptr - p && Strip(line[p..lptr], sep) == Zeros(m)
  }

  lemma ZeroNext(line: seq<Byte>, p: nat, lptr: nat, sep: Byte, m: nat)
    requires ZeroRun(line, p, lptr, sep, m) && IsLine(line) && line[lptr] != NUL
    ensures line[lptr] == sep ==> ZeroRun(line, p, lptr + 1, sep, m)
    ensures line[lptr] == ZERO != sep ==> ZeroRun(line, p, lptr + 1, sep, m + 1)
  {
    StripNext(line, p, lptr, sep);
    assert Zeros(m + 1) == Zeros(m) + [ZERO];
  }

  lemma ZeroSpells(line: seq<Byte>, p: nat, lptr: nat, sep: Byte, m: nat, prev0: Byte)
    requires prev0 == sep ==> Spells(line, p, lptr, sep, Zeros(m)) && ZerosBack(line, p, lptr, sep)
    requires lptr < |line| && IsSeparator(sep)
    requires || line[lptr] == ZERO
             || (line[lptr] == sep && if lptr > p then line[lptr - 1] == ZERO else prev0 != sep)
    ensures prev0 == sep ==> Spells(line, p, lptr + 1, sep, Zeros(if line[lptr] == sep then m else m + 1))
    ensures prev0 == sep ==> ZerosBack(line, p, lptr + 1, sep)
  {
    if prev0 == sep {
      assert Zeros(m + 1) == Zeros(m) + [ZERO];
      if line[lptr] == sep {
        SpellsTrailing(line, p, lptr, sep, Zeros(m));
      } else {
        SpellsNext(line, p, lptr, sep, Zeros(m));
      }
    }
  }

  // The loop of skip_prefixed_zeros: `prev` is the character before, as far as it matters.
  method ScanZeros(line: seq<Byte>, p: nat, numsep: Byte, prev0: Byte) returns (m: nat, lptr: nat, prev: Byte)
    requires IsLine(line) && p < |line| && IsSeparator(numsep)
    ensures ZeroRun(line, p, lptr, numsep, m) && (prev0 == numsep ==> Spells(line, p, lptr, numsep, Zeros(m)))
    ensures line[lptr] != ZERO && (line[lptr] != numsep || prev == numsep)
    ensures prev == if lptr > p then line[lptr - 1] else prev0
    ensures line[p] == ZERO ==> m > 0
    ensures prev0 == numsep && line[p] != ZERO ==> m == 0 && lptr == p
  {
    lptr, prev, m := p, prev0, 0;
    assert line[p..p] == [];
    while line[lptr] == ZERO || (line[lptr] == numsep && prev != numsep)
      invariant ZeroRun(line, p, lptr, numsep, m) && (prev0 == numsep ==> Spells(line, p, lptr, numsep, Zeros(m)))
      invariant prev0 == numsep ==> ZerosBack(line, p, lptr, numsep)
      invariant lptr > p ==> line[lptr - 1] == ZERO || line[lptr - 1] == numsep
      invariant prev == if lptr > p then line[lptr - 1] else prev0
      invariant lptr > p && line[p] == ZERO ==> m > 0
      invariant prev0 == numsep && lptr > p ==> line[p] == ZERO
      decreases |line| - lptr
    {
      ZeroNext(line, p, lptr, numsep, m);
      ZeroSpells(line, p, lptr, numsep, m, prev0);
      if line[lptr] == ZERO {
        m := m + 1;
      }
      prev, lptr := line[lptr], lptr + 1;
    }
  }

  // skip_prefixed_zeros
  method SkipPrefixedZeros(line: seq<Byte>, parms: NumParms) returns (m: nat)
    requires IsLine(line) && parms.lptr < |line| && IsSeparator(parms.wch)
    modifies parms`lptr, parms`prevIsSep
    ensures ZeroRun(line, old(parms.lptr), parms.lptr, parms.wch, m) && line[parms.lptr] != ZERO
    ensures old(parms.prevIsSep) ==> Spells(line, old(parms.lptr), parms.lptr, parms.wch, Zeros(m))
    ensures parms.prevIsSep <==> m > 0 && line[parms.lptr - 1] == parms.wch
    ensures line[old(parms.lptr)] == ZERO ==> m > 0
    ensures old(parms.prevIsSep) && line[old(parms.lptr)] != ZERO ==> m == 0 && parms.lptr == old(parms.lptr)
    ensures line[parms.lptr] == parms.wch ==>
      parms.lptr == old(parms.lptr) || line[parms.lptr - 1] == parms.wch
  {
    var prev;
    var lptr;
    m, lptr, prev := ScanZeros(line, parms.lptr, parms.wch, if parms.prevIsSep then parms.wch else LOWER_Z);
    parms.prevIsSep := m > 0 && prev == parms.wch;
    parms.lptr := lptr;
  }

  ghost function Upper(s: seq<Byte>): (r: seq<Byte>)
    ensures |r| == |s| && forall i {:trigger r[i]} {:trigger s[i]} :: 0 <= i < |s| ==> r[i] == ToUpper(s[i])
  {
    seq(|s|, i requires 0 <= i < |s| => ToUpper(s[i]))
  }

  /** Scanned digits, in upper case, are in the buffer behind what was there. */
  ghost predicate Collected(data: seq<Byte>, kept: seq<Byte>, scanned: seq<Byte>, radix: nat) {
    IsNumeral(radix, scanned) && data == kept + Upper(scanned)
  }

  lemma CollectDigit(data: seq<Byte>, kept: seq<Byte>, scanned: seq<Byte>, radix: nat, ch: Byte)
    requires Collected(data, kept, scanned, radix) && IsNumRadix(ch, radix) >= 0
    ensures Collected(data + [ToUpper(ch)], kept, scanned + [ch], radix)
  {
    assert Upper(scanned + [ch]) == Upper(scanned) + [ToUpper(ch)];
  }

  // str_putc of one scanned digit
  method PutDigit(numbuf: OutBuf, k: nat, ch: Byte, radix: nat, ghost kept: seq<Byte>, ghost scanned: seq<Byte>)
    requires k <= numbuf.buf.Length && IsNumRadix(ch, radix) >= 0
    requires Collected(numbuf.buf[..k], kept, scanned, radix)
    modifies numbuf, numbuf.buf
    ensures numbuf.buf == old(numbuf.buf) || fresh(numbuf.buf)
    ensures k + 1 <= numbuf.buf.Length && Collected(numbuf.buf[..k + 1], kept, scanned + [ch], radix)
  {
    CollectDigit(numbuf.buf[..k], kept, scanned, radix, ch);
    numbuf.Putc(k, ToUpper(ch));
  }

  /** The digits and separators of `line` from `p` to `lptr` are scanned, the last one a separator or not. */
  ghost predicate Scanning(line: seq<Byte>, p: nat, lptr: nat, sep: Byte, prevIsSep: bool, scanned: seq<Byte>) {
    && var e: int := if prevIsSep then lptr - 1 else lptr;
       && p < e <= lptr < |line| && Spells(line, p, e, sep, scanned) && scanned != [] && scanned[0] == line[p]
       && IsNumRadix(line[e - 1], 36) >= 0 && (prevIsSep ==> line[e] == sep)
  }

  lemma ScanNext(line: seq<Byte>, p: nat, lptr: nat, sep: Byte, prevIsSep: bool, scanned: seq<Byte>)
    requires Scanning(line, p, lptr, sep, prevIsSep, scanned) && IsLine(line) && line[lptr] != NUL
    requires IsSeparator(sep) && if line[lptr] == sep then !prevIsSep else IsNumRadix(line[lptr], 36) >= 0
    ensures line[lptr] == sep ==> Scanning(line, p, lptr + 1, sep, true, scanned)
    ensures line[lptr] != sep ==> Scanning(line, p, lptr + 1, sep, false, scanned + [line[lptr]])
  {
    if prevIsSep {
      SpellsOver(line, p, lptr - 1, lptr + 1, sep, scanned);
    } else if line[lptr] != sep {
      SpellsNext(line, p, lptr, sep, scanned);
    }
  }

  lemma ScanFirst(line: seq<Byte>, p: nat, sep: Byte)
    requires IsLine(line) && p < |line| && line[p] != NUL && line[p] != sep && IsNumRadix(line[p], 36) >= 0
    ensures Scanning(line, p, p + 1, sep, false, [line[p]])
  {
    assert line[p..p] == [];
    SpellsNext(line, p, p, sep, []);
    assert [] + [line[p]] == [line[p]];
  }

  /** The digits in front of `lptr` go no further, neither at once nor behind a separator. */
  ghost predicate RunEnds(line: seq<Byte>, lptr: nat, sep: Byte, radix: nat) {
    && lptr < |line| && IsNumRadix(line[lptr], radix) < 0
    && !(lptr > 0 && IsNumRadix(line[lptr - 1], radix) >= 0 && line[lptr] == sep
         && lptr + 1 < |line| && IsNumRadix(line[lptr + 1], radix) >= 0)
  }

  /** Stepping back over a trailing separator. */
  lemma ScanBack(line: seq<Byte>, p: nat, lptr: nat, sep: Byte, scanned: seq<Byte>)
    requires Scanning(line, p, lptr, sep, true, scanned)
    ensures Scanning(line, p, lptr - 1, sep, false, scanned) && line[lptr - 1] == sep
  {}

  lemma DigitIsNoSeparator(ch: Byte, radix: nat, sep: Byte)
    requires IsSeparator(sep) && radix <= 36 && IsNumRadix(ch, radix) >= 0
    ensures ch != sep && ch != NUL && IsNumRadix(ch, 36) >= 0
  {}

  // __skip_radix_numstr, from its first digit on
  method CollectDigits(line: seq<Byte>, p: nat, numsep: Byte, radix: nat, numbuf: OutBuf, k0: nat)
    returns (lptr: nat, k: nat, prevIsSep: bool, ghost scanned: seq<Byte>)
    requires IsLine(line) && p < |line| && IsSeparator(numsep) && 2 <= radix <= 36
    requires IsNumRadix(line[p], radix) >= 0 && k0 <= numbuf.buf.Length
    modifies numbuf, numbuf.buf
    ensures numbuf.buf == old(numbuf.buf) || fresh(numbuf.buf)
    ensures Scanning(line, p, lptr, numsep, prevIsSep, scanned) && IsNumRadix(line[lptr], radix) < 0
    ensures line[lptr] == numsep ==> prevIsSep
    ensures k == k0 + |scanned| <= numbuf.buf.Length
    ensures Collected(numbuf.buf[..k], old(numbuf.buf[..k0]), scanned, radix)
  {
    DigitIsNoSeparator(line[p], radix, numsep);
    ScanFirst(line, p, numsep);
    PutDigit(numbuf, k0, line[p], radix, numbuf.buf[..k0], []);
    assert [] + [line[p]] == [line[p]];
    lptr, k, prevIsSep, scanned := CollectMore(line, p, numsep, radix, numbuf, k0, old(numbuf.buf[..k0]));
  }

  // __skip_radix_numstr, behind the first digit
  method CollectMore(line: seq<Byte>, p: nat, numsep: Byte, radix: nat, numbuf: OutBuf, k0: nat, ghost kept: seq<Byte>)
    returns (lptr: nat, k: nat, prevIsSep: bool, ghost scanned: seq<Byte>)
    requires IsLine(line) && p + 1 < |line| && IsSeparator(numsep) && 2 <= radix <= 36
    requires Scanning(line, p, p + 1, numsep, false, [line[p]])
    requires k0 + 1 <= numbuf.buf.Length && Collected(numbuf.buf[..k0 + 1], kept, [line[p]], radix)
    modifies numbuf, numbuf.buf
    ensures numbuf.buf == old(numbuf.buf) || fresh(numbuf.buf)
    ensures Scanning(line, p, lptr, numsep, prevIsSep, scanned) && IsNumRadix(line[lptr], radix) < 0
    ensures line[lptr] == numsep ==> prevIsSep
    ensures k == k0 + |scanned| <= numbuf.buf.Length && Collected(numbuf.buf[..k], kept, scanned, radix)
  {
    k, lptr, prevIsSep, scanned := k0 + 1, p + 1, false, [line[p]];
    while IsNumRadix(line[lptr], radix) >= 0 || (line[lptr] == numsep && !prevIsSep)
      invariant Scanning(line, p, lptr, numsep, prevIsSep, scanned)
      invariant k == k0 + |scanned| <= numbuf.buf.Length && (numbuf.buf == old(numbuf.buf) || fresh(numbuf.buf))
      invariant Collected(numbuf.buf[..k], kept, scanned, radix)
      decreases |line| - lptr
    {
      lptr, k, prevIsSep, scanned := CollectNext(line, p, lptr, numsep, radix, numbuf, k, prevIsSep, kept, scanned);
    }
  }

  // One round of that loop
  method CollectNext(line: seq<Byte>, ghost p: nat, lptr0: nat, numsep: Byte, radix: nat, numbuf: OutBuf, k0: nat,
                     prevIsSep0: bool, ghost kept: seq<Byte>, ghost scanned0: seq<Byte>)
    returns (lptr: nat, k: nat, prevIsSep: bool, ghost scanned: seq<Byte>)
    requires IsLine(line) && IsSeparator(numsep) && 2 <= radix <= 36 && lptr0 < |line|
    requires IsNumRadix(line[lptr0], radix) >= 0 || (line[lptr0] == numsep && !prevIsSep0)
    requires Scanning(line, p, lptr0, numsep, prevIsSep0, scanned0)
    requires k0 <= numbuf.buf.Length && Collected(numbuf.buf[..k0], kept, scanned0, radix)
    modifies numbuf, numbuf.buf
    ensures numbuf.buf == old(numbuf.buf) || fresh(numbuf.buf)
    ensures lptr == lptr0 + 1 && Scanning(line, p, lptr, numsep, prevIsSep, scanned) && k - |scanned| == k0 - |scanned0|
    ensures k <= numbuf.buf.Length && Collected(numbuf.buf[..k], kept, scanned, radix)
  {
    lptr := lptr0 + 1;
    if IsNumRadix(line[lptr0], radix) < 0 {
      ScanNext(line, p, lptr0, numsep, prevIsSep0, scanned0);
      k, prevIsSep, scanned := k0, true, scanned0;
    } else {
      DigitIsNoSeparator(line[lptr0], radix, numsep);
      ScanNext(line, p, lptr0, numsep, prevIsSep0, scanned0);
      PutDigit(numbuf, k0, line[lptr0], radix, kept, scanned0);
      k, prevIsSep, scanned := k0 + 1, false, scanned0 + [line[lptr0]];
    }
  }

  // __skip_radix_numstr: steps back over a trailing separator
  method CollectRun(line: seq<Byte>, p: nat, numsep: Byte, radix: nat, numbuf: OutBuf, k0: nat)
    returns (lptr: nat, k: nat, ghost scanned: seq<Byte>)
    requires IsLine(line) && p < |line| && IsSeparator(numsep) && 2 <= radix <= 36
    requires IsNumRadix(line[p], radix) >= 0 && k0 <= numbuf.buf.Length
    modifies numbuf, numbuf.buf
    ensures numbuf.buf == old(numbuf.buf) || fresh(numbuf.buf)
    ensures Scanning(line, p, lptr, numsep, false, scanned) && RunEnds(line, lptr, numsep, radix)
    ensures k == k0 + |scanned| <= numbuf.buf.Length
    ensures Collected(numbuf.buf[..k], old(numbuf.buf[..k0]), scanned, radix)
  {
    var prevIsSep;
    lptr, k, prevIsSep, scanned := CollectDigits(line, p, numsep, radix, numbuf, k0);
    if prevIsSep {
      ScanBack(line, p, lptr, numsep, scanned);
      lptr := lptr - 1;
    }
  }

  // __skip_radix_numstr: a trailing separator is left unread
  method SkipDigits(line: seq<Byte>, parms: NumParms, radix: nat, numbuf: OutBuf, k0: nat)
    returns (k: nat, ghost scanned: seq<Byte>)
    requires IsLine(line) && parms.lptr < |line| && IsSeparator(parms.wch) && 2 <= radix <= 36
    requires IsNumRadix(line[parms.lptr], radix) >= 0 && k0 <= numbuf.buf.Length
    modifies parms`lptr, parms`len, numbuf, numbuf.buf
    ensures numbuf.buf == old(numbuf.buf) || fresh(numbuf.buf)
    ensures Scanning(line, old(parms.lptr), parms.lptr, parms.wch, false, scanned)
    ensures RunEnds(line, parms.lptr, parms.wch, radix)
    ensures k == k0 + |scanned| <= numbuf.buf.Length && parms.len == |scanned|
    ensures Collected(numbuf.buf[..k], old(numbuf.buf[..k0]), scanned, radix)
  {
    var lptr;
    lptr, k, scanned := CollectRun(line, parms.lptr, parms.wch, radix, numbuf, k0);
    parms.len := k - k0;
    parms.lptr := lptr;
  }

  /** An exponent could be read at the start of `s`. */
  ghost predicate StartsExpo(s: seq<Byte>) {
    && |s| >= 2 && (s[0] == UPPER_E || s[0] == LOWER_E)
    && (IsDigit(s[1]) || (|s| >= 3 && (s[1] == PLUS || s[1] == MINUS) && IsDigit(s[2])))
  }

  // The digits of an exponent
  method ScanNumber(line: seq<Byte>, p: nat) returns (lptr: nat, num: nat)
    requires IsLine(line) && p < |line|
    ensures p <= lptr < |line| && Digits(line[p..lptr]) && num == Val(10, line[p..lptr]) && !IsDigit(line[lptr])
  {
    lptr, num := p, 0;
    while IsDigit(line[lptr])
      invariant p <= lptr < |line| && Digits(line[p..lptr]) && num == Val(10, line[p..lptr])
      decreases |line| - lptr
    {
      ValSnoc(10, 0, line[p..lptr], line[lptr]);
      assert line[p..lptr + 1] == line[p..lptr] + [line[lptr]];
      num := 10 * num + (line[lptr] - ZERO);
      lptr := lptr + 1;
    }
  }

  /** Nothing at `lptr` continues a numeral whose exponent text is `mark`. */
  ghost predicate Ends(line: seq<Byte>, lptr: nat, sep: Byte, mark: seq<Byte>) {
    && lptr < |line| && !IsDigit(line[lptr])
    && (mark == [] ==> RunEnds(line, lptr, sep, 10) && !StartsExpo(line[lptr..]))
  }

  lemma MarkRead(line: seq<Byte>, p: nat, lptr1: nat, lptr: nat, expo: nat)
    requires p + 1 < |line| && lptr1 < lptr <= |line| && (line[p] == UPPER_E || line[p] == LOWER_E)
    requires lptr1 == if line[p + 1] == MINUS || line[p + 1] == PLUS then p + 2 else p + 1
    requires Digits(line[lptr1..lptr]) && expo == Val(10, line[lptr1..lptr])
    ensures ExpoMark(line[p..lptr], if line[p + 1] == MINUS then -(expo as int) else expo)
  {
    var mark := line[p..lptr];
    assert mark[0] == line[p] && mark[1] == line[p + 1] && line[lptr1..lptr] == mark[lptr1 - p..];
  }

  // check_expo
  method CheckExpo(line: seq<Byte>, parms: NumParms) returns (stat: bool)
    requires IsLine(line) && parms.lptr < |line|
    modifies parms`lptr, parms`n
    ensures old(parms.lptr) <= parms.lptr < |line| && ExpoText(line[old(parms.lptr)..parms.lptr], parms.n)
    ensures stat <==> parms.lptr > old(parms.lptr)
    ensures stat ==> !IsDigit(line[parms.lptr])
    ensures !stat ==> !StartsExpo(line[parms.lptr..])
  {
    var p := parms.lptr;
    parms.n := 0;
    if line[p] != UPPER_E && line[p] != LOWER_E {
      assert line[p..p] == [];
      return false;
    }
    var lptr1 := p + 1;
    var minus := line[lptr1] == MINUS;
    if line[lptr1] == MINUS || line[lptr1] == PLUS {
      lptr1 := lptr1 + 1;
    }
    var lptr, expo := ScanNumber(line, lptr1);
    stat := lptr1 < lptr;
    if stat {
      MarkRead(line, p, lptr1, lptr, expo);
      parms.n := if minus then -(expo as int) else expo;
      parms.lptr := lptr;
    }
  }

  // check_expo behind the digits, or the point, of a numeral
  method ReadExpo(line: seq<Byte>, parms: NumParms, ghost p: nat, ghost text: seq<Byte>)
    returns (stat: bool, ghost mark: seq<Byte>)
    requires IsLine(line) && RunEnds(line, parms.lptr, parms.wch, 10) && Spells(line, p, parms.lptr, parms.wch, text)
    modifies parms`lptr, parms`n
    ensures old(parms.lptr) <= parms.lptr < |line| && ExpoText(mark, parms.n) && (stat <==> mark != [])
    ensures SpellsAnd(line, p, parms.lptr, parms.wch, text, mark) && Ends(line, parms.lptr, parms.wch, mark)
    ensures !stat ==> parms.lptr == old(parms.lptr)
  {
    ghost var q := parms.lptr;
    stat := CheckExpo(line, parms);
    mark := line[q..parms.lptr];
    ExpoBehind(line, p, q, parms.lptr, parms.wch, text, mark);
  }

  lemma ExpoBehind(line: seq<Byte>, p: nat, q: nat, e: nat, sep: Byte, text: seq<Byte>, mark: seq<Byte>)
    requires q <= e < |line| && mark == line[q..e] && RunEnds(line, q, sep, 10) && Spells(line, p, q, sep, text)
    requires if e == q then !StartsExpo(line[e..]) else !IsDigit(line[e])
    ensures SpellsAnd(line, p, e, sep, text, mark) && Ends(line, e, sep, mark) && (mark == [] <==> e == q)
  {
    assert e - |mark| == q;
  }

  /** How a token shows a nonzero exponent. */
  ghost function ExpoSuffix(n: int): seq<Byte> {
    if n == 0 then [] else (if n < 0 then [UPPER_E, MINUS] + Text(10, -n) else [UPPER_E] + Text(10, n))
  }

  /** The exponent of a token is an exponent text of that very exponent: nothing for zero, else `E`, a minus sign for a
      negative one, and the canonical decimal. */
  lemma ExpoSuffixSpells(n: int)
    ensures ExpoText(ExpoSuffix(n), n)
    ensures ExpoSuffix(n) == if n == 0 then [] else if n < 0 then [69, 45] + Text(10, -n) else [69] + Text(10, n)
  {
    if n != 0 {
      var ds := Text(10, if n < 0 then -n else n);
      TextIsCanonical(10, if n < 0 then -n else n);
      DigitsAreNumeral(ds);
      ExpoMeans(69, ds);
    }
  }

  // The digit loop of append_expo; its scratch array is as long as the number needs.
  method DecimalOf(num0: nat) returns (numstr: seq<Byte>)
    requires num0 > 0
    ensures numstr == Text(10, num0)
  {
    numstr := [];
    var num := num0;
    while num != 0
      invariant Text(10, num0) == (if num == 0 then [] else Text(10, num)) + numstr
      decreases num
    {
      numstr := [Num2CharRadix(num % 10)] + numstr;
      num := num / 10;
    }
  }

  // append_expo
  method AppendExpo(num: int, numbuf: OutBuf, k0: nat) returns (k: nat)
    requires k0 <= numbuf.buf.Length
    modifies numbuf, numbuf.buf
    ensures numbuf.buf == old(numbuf.buf) || fresh(numbuf.buf)
    ensures k < numbuf.buf.Length && numbuf.buf[..k] == old(numbuf.buf[..k0]) + ExpoSuffix(num)
    ensures numbuf.buf[k] == NUL && ExpoText(ExpoSuffix(num), num)
  {
    ExpoSuffixSpells(num);
    if num == 0 {
      numbuf.Putc(k0, NUL);
      return k0;
    }
    ghost var kept := numbuf.buf[..k0];
    k := PutMarkAndSign(num < 0, numbuf, k0);
    var numstr := DecimalOf(if num < 0 then -num else num);
    k := numbuf.Append(k, numstr);
    Assoc(kept, if num < 0 then [UPPER_E, MINUS] else [UPPER_E], numstr);
  }

  // append_expo, the letter and the sign
  method PutMarkAndSign(minus: bool, numbuf: OutBuf, k0: nat) returns (k: nat)
    requires k0 <= numbuf.buf.Length
    modifies numbuf, numbuf.buf
    ensures numbuf.buf == old(numbuf.buf) || fresh(numbuf.buf)
    ensures k <= numbuf.buf.Length
    ensures numbuf.buf[..k] == old(numbuf.buf[..k0]) + if minus then [UPPER_E, MINUS] else [UPPER_E]
  {
    numbuf.Putc(k0, UPPER_E);
    k := k0 + 1;
    if minus {
      numbuf.Putc(k, MINUS);
      k := k + 1;
    }
  }

  /** `digits` is `d` with `t` zeros behind it, and `d` ends in another digit. */
  ghost predicate Trimmed(digits: seq<Byte>, d: seq<Byte>, t: nat) {
    digits == d + Zeros(t) && d != [] && d[|d| - 1] != ZERO
  }

  // uls_num2stdfmt: cuts the zeros off the end of the digits, which start behind the point at 0
  method TrimZeros(numbuf: OutBuf, k0: nat) returns (k: nat, ghost t: nat)
    requires 1 < k0 <= numbuf.buf.Length && exists j :: 1 <= j < k0 && numbuf.buf[j] != ZERO
    modifies numbuf, numbuf.buf
    ensures numbuf.buf == old(numbuf.buf) || fresh(numbuf.buf)
    ensures 1 < k <= k0 && k <= numbuf.buf.Length && numbuf.buf[..k] == old(numbuf.buf[..k])
    ensures Trimmed(old(numbuf.buf[1..k0]), numbuf.buf[1..k], t)
  {
    ghost var j :| 1 <= j < k0 && numbuf.buf[j] != ZERO;
    ghost var digits := numbuf.buf[1..k0];
    k := k0;
    while numbuf.buf[k - 1] == ZERO
      decreases k
      invariant j < k <= k0 && digits == numbuf.buf[1..k] + Zeros(k0 - k)
    {
      assert numbuf.buf[1..k] == numbuf.buf[1..k - 1] + [ZERO];
      k := k - 1;
    }
    t := k0 - k;
    if k < k0 {
      numbuf.Putc(k, NUL);
    }
    assert numbuf.buf[1..k] == numbuf.buf[..k][1..];
    assert numbuf.buf[..k] == old(numbuf.buf[..k]);
  }

  lemma UpperDigits(s: seq<Byte>)
    requires IsNumeral(10, s)
    ensures Upper(s) == s && Digits(s)
  {
    forall i | 0 <= i < |s| ensures IsDigit(s[i]) && Upper(s)[i] == s[i] {
      assert IsNumRadix(s[i], 10) >= 0;
    }
  }

  // __skip_radix_numstr for decimal digits
  method ReadDigits(line: seq<Byte>, parms: NumParms, numbuf: OutBuf, k0: nat) returns (k: nat, ghost f: seq<Byte>)
    requires IsLine(line) && parms.lptr < |line| && IsSeparator(parms.wch) && IsDigit(line[parms.lptr])
    requires k0 <= numbuf.buf.Length
    modifies parms`lptr, parms`len, numbuf, numbuf.buf
    ensures numbuf.buf == old(numbuf.buf) || fresh(numbuf.buf)
    ensures old(parms.lptr) < parms.lptr && Spells(line, old(parms.lptr), parms.lptr, parms.wch, f)
    ensures Digits(f) && f != [] && f[0] == line[old(parms.lptr)] && parms.len == |f|
    ensures RunEnds(line, parms.lptr, parms.wch, 10) && line[parms.lptr - 1] != parms.wch
    ensures k == k0 + |f| <= numbuf.buf.Length && numbuf.buf[..k] == old(numbuf.buf[..k0]) + f
  {
    k, f := SkipDigits(line, parms, 10, numbuf, k0);
    UpperDigits(f);
  }

  /** The token so far: a point, then the digits `d0` and `f` without their `t` trailing zeros. */
  ghost predicate PointAnd(data: seq<Byte>, d0: seq<Byte>, f: seq<Byte>, t: nat) {
    data != [] && data[0] == DOT && Trimmed(d0 + f, data[1..], t)
  }

  // The end of uls_num2stdfmt: the rest of the digits
  method ReadTrimmed(line: seq<Byte>, parms: NumParms, numbuf: OutBuf, k0: nat)
    returns (k: nat, ghost f: seq<Byte>, ghost t: nat)
    requires IsLine(line) && parms.lptr < |line| && IsSeparator(parms.wch)
    requires IsDigit(line[parms.lptr]) && line[parms.lptr] != ZERO
    requires 1 <= k0 <= numbuf.buf.Length && numbuf.buf[0] == DOT
    modifies parms`lptr, parms`len, numbuf, numbuf.buf
    ensures numbuf.buf == old(numbuf.buf) || fresh(numbuf.buf)
    ensures old(parms.lptr) < parms.lptr && Spells(line, old(parms.lptr), parms.lptr, parms.wch, f)
    ensures Digits(f) && f != [] && f[0] == line[old(parms.lptr)] && RunEnds(line, parms.lptr, parms.wch, 10)
    ensures 1 <= k <= numbuf.buf.Length
    ensures PointAnd(numbuf.buf[..k], old(numbuf.buf[1..k0]), f, t)
  {
    ghost var head := numbuf.buf[..k0];
    assert numbuf.buf[1..k0] == head[1..];
    k, f := ReadDigits(line, parms, numbuf, k0);
    ghost var data := numbuf.buf[..k];
    assert data[k0] == f[0] && numbuf.buf[k0] == data[k0];
    assert numbuf.buf[1..k] == data[1..] == head[1..] + f;
    k, t := TrimZeros(numbuf, k);
    assert numbuf.buf[..k][1..] == numbuf.buf[1..k];
  }

  // The end of uls_num2stdfmt: the rest of the digits, then the exponent
  method ReadTail(line: seq<Byte>, p2: nat, numsep: Byte, numbuf: OutBuf, k0: nat)
    returns (parms1: NumParms, k: nat, ghost f: seq<Byte>, ghost mark: seq<Byte>, ghost t: nat)
    requires IsLine(line) && p2 < |line| && IsSeparator(numsep) && IsDigit(line[p2]) && line[p2] != ZERO
    requires 1 <= k0 <= numbuf.buf.Length && numbuf.buf[0] == DOT
    modifies numbuf, numbuf.buf
    ensures numbuf.buf == old(numbuf.buf) || fresh(numbuf.buf)
    ensures fresh(parms1) && p2 < parms1.lptr && 1 <= k <= numbuf.buf.Length
    ensures PointAnd(numbuf.buf[..k], old(numbuf.buf[1..k0]), f, t)
    ensures Digits(f) && f != [] && f[0] == line[p2] && ExpoText(mark, parms1.n)
    ensures SpellsAnd(line, p2, parms1.lptr, numsep, f, mark) && Ends(line, parms1.lptr, numsep, mark)
  {
    parms1 := new NumParms(p2, numsep, false);
    k, f, t := ReadTrimmed(line, parms1, numbuf, k0);
    ghost var tok := numbuf.buf[..k];
    var stat;
    stat, mark := ReadExpo(line, parms1, p2, f);
    assert numbuf.buf[..k] == tok;
  }

  // ---------- uls_num2stdfmt ----------

  /** From `p` to `lptr` stands `d`, its digits and point with separators, its exponent without, and it goes no
      further. */
  ghost predicate Reads(line: seq<Byte>, p: nat, lptr: nat, sep: Byte, d: Decimal) {
    && d.Valid() && SpellsAnd(line, p, lptr, sep, d.Front(), d.mark) && Ends(line, lptr, sep, d.mark)
    && (d.mark == [] ==> Passes(line, p, lptr, sep, d.dot))
  }

  /** A separator behind zeros only is not left unread, unless a point with a digit follows, or in a fraction another
      separator. */
  ghost predicate Passes(line: seq<Byte>, p: nat, lptr: nat, sep: Byte, dot: bool) {
    p < lptr < |line| && line[lptr] == sep && IsDigit(line[lptr - 1]) && ZerosBack(line, p, lptr, sep) ==>
      && lptr + 1 < |line|
      && if dot then line[lptr + 1] == sep else lptr + 2 < |line| && line[lptr + 1] == DOT && IsDigit(line[lptr + 2])
  }

  lemma {:induction false} ZerosBackFrom(line: seq<Byte>, p: nat, q: nat, i: nat, sep: Byte)
    requires p <= q && ZerosBack(line, p, i, sep)
    ensures ZerosBack(line, q, i, sep)
    decreases i
  {
    if i > q && line[i - 1] != DOT {
      ZerosBackFrom(line, p, q, i - 1, sep);
    }
  }

  lemma PassesFrom(line: seq<Byte>, p: nat, q: nat, lptr: nat, sep: Byte, dot: bool)
    requires p <= q < lptr && Passes(line, q, lptr, sep, dot)
    ensures Passes(line, p, lptr, sep, dot)
  {
    if ZerosBack(line, p, lptr, sep) {
      ZerosBackFrom(line, p, q, lptr, sep);
    }
  }

  lemma {:induction false} StripKeeps(s: seq<Byte>, i: nat, sep: Byte)
    requires i < |s| && s[i] != sep
    ensures s[i] in Strip(s, sep)
    decreases |s|
  {
    if i < |s| - 1 {
      StripKeeps(s[..|s| - 1], i, sep);
    }
  }

  lemma RunChar(line: seq<Byte>, s: nat, i: nat, b: nat, sep: Byte)
    requires s <= i < b <= |line| && Digits(Strip(line[s..b], sep))
    ensures IsDigit(line[i]) || line[i] == sep
  {
    var r := line[s..b];
    assert r[i - s] == line[i];
    if line[i] != sep {
      StripKeeps(r, i - s, sep);
    }
  }

  lemma {:induction false} NonzeroBack(line: seq<Byte>, p: nat, q: nat, i: nat, sep: Byte)
    requires p <= q < i <= |line| && line[q] != ZERO && line[q] != sep
    requires forall k :: q <= k < i ==> line[k] != DOT
    ensures !ZerosBack(line, p, i, sep)
    decreases i
  {
    if i - 1 > q {
      NonzeroBack(line, p, q, i - 1, sep);
    }
  }

  /** Behind digits of which the first is not zero there are not only zeros. */
  lemma NotOnlyZeros(line: seq<Byte>, p: nat, q: nat, i: nat, sep: Byte)
    requires p <= q < i <= |line| && IsDigit(line[q]) && line[q] != ZERO && Digits(Strip(line[q..i], sep))
    requires IsSeparator(sep)
    ensures !ZerosBack(line, p, i, sep)
  {
    forall k | q <= k < i ensures line[k] != DOT {
      RunChar(line, q, k, i, sep);
    }
    NonzeroBack(line, p, q, i, sep);
  }

  /** The canonical token text: "0" or "0." for zero, the digits of a positive integer, or a point and
      `len` digits, neither first nor last of them zero, with the exponent `n` shown behind them. */
  ghost predicate Denotes(tok: seq<Byte>, len: nat, n: int, v: real) {
    || (tok in {[ZERO], [ZERO, DOT]} && n == 0 && len == 1 && v == 0.0)
    || (Canonical(10, tok) && tok != [ZERO] && n == 0 && len == |tok| && v == Scaled(Val(10, tok), 0))
    || FractionToken(tok, len, n, v)
  }

  ghost predicate FractionToken(tok: seq<Byte>, len: nat, n: int, v: real) {
    && len >= 1 && |tok| >= 1 + len && tok[0] == DOT && tok[1 + len..] == ExpoSuffix(n)
    && Digits(tok[1..1 + len]) && tok[1] != ZERO && tok[len] != ZERO
    && v == Scaled(Val(10, tok[1..1 + len]), n - len)
  }

  /** The text is a decimal numeral of the value `v`, by itself. */
  ghost predicate Writes(tok: seq<Byte>, v: real) {
    exists d: Decimal :: IsWriting(d, tok, v)
  }

  ghost predicate IsWriting(d: Decimal, tok: seq<Byte>, v: real) {
    d.Valid() && d.Spelling() == tok && d.Value() == v
  }

  /** A token is itself a numeral of the value it denotes. */
  lemma TokenWrites(tok: seq<Byte>, len: nat, n: int, v: real)
    requires Denotes(tok, len, n, v)
    ensures Writes(tok, v)
  {
    if FractionToken(tok, len, n, v) {
      FractionTokenWrites(tok, len, n, v);
    } else if tok in {[ZERO], [ZERO, DOT]} {
      ZeroWrites(tok != [ZERO]);
    } else {
      IntegerWrites(tok, v);
    }
  }

  lemma ZeroWrites(dot: bool)
    ensures Writes(if dot then [ZERO, DOT] else [ZERO], 0.0)
  {
    var d, tok := Decimal([ZERO], dot, [], [], 0), if dot then [ZERO, DOT] else [ZERO];
    assert [ZERO] + [] == [ZERO] == Zeros(1) && d.Spelling() == tok;
    AllZeros(1);
    assert IsWriting(d, tok, 0.0);
  }

  lemma IntegerWrites(tok: seq<Byte>, v: real)
    requires Canonical(10, tok) && v == Scaled(Val(10, tok), 0)
    ensures Writes(tok, v)
  {
    DigitsAreNumeral(tok);
    var d := Decimal(tok, false, [], [], 0);
    assert tok + [] == tok;
    assert IsWriting(d, tok, v);
  }

  lemma FractionTokenWrites(tok: seq<Byte>, len: nat, n: int, v: real)
    requires FractionToken(tok, len, n, v)
    ensures Writes(tok, v)
  {
    ExpoSuffixSpells(n);
    CutTwice(tok, len);
    FractionWrites(tok, tok[1..1 + len], tok[1 + len..], n, v);
  }

  lemma CutTwice(tok: seq<Byte>, len: nat)
    requires 1 + len <= |tok|
    ensures tok[1..] == tok[1..1 + len] + tok[1 + len..] && |tok[1..1 + len]| == len
  {}

  lemma FractionWrites(tok: seq<Byte>, dd: seq<Byte>, mark: seq<Byte>, n: int, v: real)
    requires tok != [] && tok[0] == DOT && tok[1..] == dd + mark
    requires Digits(dd) && dd != [] && ExpoText(mark, n) && v == Scaled(Val(10, dd), n - |dd|)
    ensures Writes(tok, v)
  {
    var d := Decimal([], true, dd, mark, n);
    FractionValue(dd, mark, n);
    assert tok == [DOT] + tok[1..];
    assert IsWriting(d, tok, v);
  }

  lemma FractionValue(dd: seq<Byte>, mark: seq<Byte>, n: int)
    ensures var d := Decimal([], true, dd, mark, n);
      d.Spelling() == [DOT] + (dd + mark) && d.Value() == Scaled(Val(10, dd), n - |dd|)
  {
    var d := Decimal([], true, dd, mark, n);
    assert [] + dd == dd && [] + d.AfterInteger() == d.AfterInteger();
  }

  /** One text has one value. */
  lemma WritesOne(tok: seq<Byte>, v1: real, v2: real)
    requires Writes(tok, v1) && Writes(tok, v2)
    ensures v1 == v2
  {
    var d1: Decimal :| IsWriting(d1, tok, v1);
    var d2: Decimal :| IsWriting(d2, tok, v2);
    SpellingUnique(d1, d2);
  }

  /** Digits cut off at the end move into the exponent. */
  lemma TrimmedValue(d: Decimal, digits: seq<Byte>, dd: seq<Byte>, t: nat, n: int)
    requires Trimmed(digits, dd, t) && Val(10, d.ip + d.fp) == Val(10, digits)
    requires n - |dd| == d.x - |d.fp| + t
    ensures d.Value() == Scaled(Val(10, dd), n - |dd|)
  {
    TrailingZeros(dd, t, d.x - |d.fp|);
  }

  /** The printed token is the trimmed digits with their exponent. */
  lemma FractionPrints(head: seq<Byte>, dd: seq<Byte>, n: int, v: real)
    requires head == [DOT] + dd && dd != [] && Digits(dd) && dd[0] != ZERO && dd[|dd| - 1] != ZERO
    requires v == Scaled(Val(10, dd), n - |dd|)
    ensures FractionToken(head + ExpoSuffix(n), |dd|, n, v)
  {
    var tok := head + ExpoSuffix(n);
    assert tok[1..1 + |dd|] == dd && tok[1 + |dd|..] == ExpoSuffix(n);
  }

  /** Integer digits `ip`, then `z` zeros and `f` behind the point. */
  lemma FractionReads(ip: seq<Byte>, z: nat, f: seq<Byte>, mark: seq<Byte>, x: int, data: seq<Byte>, t: nat, n: int)
    requires Digits(ip) && (ip != [] ==> ip[0] != ZERO) && Digits(f) && f != [] && f[0] != ZERO && ExpoText(mark, x)
    requires PointAnd(data, if ip == [] then [] else ip + Zeros(z), f, t)
    requires n == x + |ip| - (if ip == [] then z else 0)
    ensures var d := Decimal(ip, true, Zeros(z) + f, mark, x);
      d.Valid() && FractionToken(data + ExpoSuffix(n), |data| - 1, n, d.Value())
  {
    var d := Decimal(ip, true, Zeros(z) + f, mark, x);
    var d0 := if ip == [] then [] else ip + Zeros(z);
    var dd := data[1..];
    var digits := d0 + f;
    assert digits == dd + Zeros(t);
    assert dd == digits[..|dd|] && data == [DOT] + dd;
    if ip == [] {
      assert ip + d.fp == Zeros(z) + f && digits == f;
      ZerosInFront(10, z, f);
    } else {
      assert ip + d.fp == digits;
    }
    assert digits[0] != ZERO;
    TrimmedValue(d, digits, dd, t, n);
    FractionPrints(data, dd, n, d.Value());
  }

  lemma FractionRead(ip: seq<Byte>, z: nat, f: seq<Byte>, mark: seq<Byte>, x: int, data: seq<Byte>, d0: seq<Byte>,
                     t: nat, n: int)
    returns (d: Decimal)
    requires Digits(ip) && (ip != [] ==> ip[0] != ZERO) && Digits(f) && f != [] && f[0] != ZERO && ExpoText(mark, x)
    requires d0 == (if ip == [] then [] else ip + Zeros(z)) && PointAnd(data, d0, f, t)
    requires n == x + |ip| - (if ip == [] then z else 0)
    ensures d == Decimal(ip, true, Zeros(z) + f, mark, x)
    ensures d.Valid() && FractionToken(data + ExpoSuffix(n), |data| - 1, n, d.Value())
  {
    FractionReads(ip, z, f, mark, x, data, t, n);
    d := Decimal(ip, true, Zeros(z) + f, mark, x);
  }

  // uls_num2stdfmt when the fraction has a nonzero digit, at `p2`: `n1` integer digits and `z` zeros
  // behind the point are read, and the digits worth keeping are in the buffer
  method ReadFraction(line: seq<Byte>, p2: nat, numsep: Byte, numbuf: OutBuf, k0: nat, n1: nat, expo: int,
                      ghost ip: seq<Byte>, ghost z: nat)
    returns (lptr: nat, n: int, k: nat, ghost d: Decimal, ghost f: seq<Byte>)
    requires IsLine(line) && p2 < |line| && IsSeparator(numsep) && IsDigit(line[p2]) && line[p2] != ZERO
    requires 1 <= k0 <= numbuf.buf.Length && numbuf.buf[0] == DOT
    requires Digits(ip) && n1 == |ip| && (ip != [] ==> ip[0] != ZERO) && expo == (if ip == [] then -(z as int) else 0)
    requires numbuf.buf[1..k0] == if ip == [] then [] else ip + Zeros(z)
    modifies numbuf, numbuf.buf
    ensures numbuf.buf == old(numbuf.buf) || fresh(numbuf.buf)
    ensures p2 < lptr < |line| && d.Valid() && Ends(line, lptr, numsep, d.mark)
    ensures d.ip == ip && d.dot && d.fp == Zeros(z) + f && SpellsAnd(line, p2, lptr, numsep, f, d.mark)
    ensures Digits(f) && f != [] && f[0] == line[p2]
    ensures 1 <= k <= numbuf.buf.Length && FractionToken(numbuf.buf[..k] + ExpoSuffix(n), k - 1, n, d.Value())
  {
    ghost var d0 := if ip == [] then [] else ip + Zeros(z);
    assert numbuf.buf[1..k0] == d0;
    var parms1;
    ghost var mark, t;
    parms1, k, f, mark, t := ReadTail(line, p2, numsep, numbuf, k0);
    lptr, n := parms1.lptr, expo + parms1.n + n1;
    d := FractionRead(ip, z, f, mark, parms1.n, numbuf.buf[..k], d0, t, n);
  }

  // uls_num2stdfmt: the results of the fraction
  method FinishFraction(line: seq<Byte>, parms: NumParms, p2: nat, numbuf: OutBuf, k0: nat, n1: nat, expo: int,
                        ghost ip: seq<Byte>, ghost z: nat)
    returns (k: nat, ghost d: Decimal, ghost f: seq<Byte>, lptr: nat)
    requires IsLine(line) && p2 < |line| && IsSeparator(parms.wch) && IsDigit(line[p2]) && line[p2] != ZERO
    requires 1 <= k0 <= numbuf.buf.Length && numbuf.buf[0] == DOT
    requires Digits(ip) && n1 == |ip| && (ip != [] ==> ip[0] != ZERO) && expo == (if ip == [] then -(z as int) else 0)
    requires numbuf.buf[1..k0] == if ip == [] then [] else ip + Zeros(z)
    modifies parms`lptr, parms`len, parms`n, numbuf, numbuf.buf
    ensures numbuf.buf == old(numbuf.buf) || fresh(numbuf.buf)
    ensures parms.lptr == lptr && p2 < lptr < |line| && d.Valid() && Ends(line, lptr, parms.wch, d.mark)
    ensures d.ip == ip && d.dot && d.fp == Zeros(z) + f && SpellsAnd(line, p2, lptr, parms.wch, f, d.mark)
    ensures Digits(f) && f != [] && f[0] == line[p2]
    ensures k <= numbuf.buf.Length && Denotes(numbuf.buf[..k], parms.len, parms.n, d.Value())
  {
    var n: int, k2: nat;
    lptr, n, k2, d, f := ReadFraction(line, p2, parms.wch, numbuf, k0, n1, expo, ip, z);
    k := StoreFraction(parms, lptr, n, numbuf, k2, d.Value());
  }

  // uls_num2stdfmt: the exponent of the token, and the fields of the record
  method StoreFraction(parms: NumParms, lptr: nat, n: int, numbuf: OutBuf, k0: nat, ghost v: real) returns (k: nat)
    requires 1 <= k0 <= numbuf.buf.Length && FractionToken(numbuf.buf[..k0] + ExpoSuffix(n), k0 - 1, n, v)
    modifies parms`lptr, parms`len, parms`n, numbuf, numbuf.buf
    ensures numbuf.buf == old(numbuf.buf) || fresh(numbuf.buf)
    ensures parms.lptr == lptr && k <= numbuf.buf.Length && Denotes(numbuf.buf[..k], parms.len, parms.n, v)
  {
    k := CloseFraction(n, numbuf, k0, v);
    ghost var tok := numbuf.buf[..k];
    parms.lptr, parms.len, parms.n := lptr, k0 - 1, n;
    assert numbuf.buf[..k] == tok;
  }

  // The exponent behind a point and its digits
  method CloseFraction(n: int, numbuf: OutBuf, k0: nat, ghost v: real) returns (k: nat)
    requires 1 <= k0 <= numbuf.buf.Length && FractionToken(numbuf.buf[..k0] + ExpoSuffix(n), k0 - 1, n, v)
    modifies numbuf, numbuf.buf
    ensures numbuf.buf == old(numbuf.buf) || fresh(numbuf.buf)
    ensures 0 < k <= numbuf.buf.Length && Denotes(numbuf.buf[..k], k0 - 1, n, v)
  {
    ghost var tok := numbuf.buf[..k0] + ExpoSuffix(n);
    k := AppendExpo(n, numbuf, k0);
    assert numbuf.buf[..k] == tok;
  }

  // A zero token: "0." or "0" at the start of the buffer
  method PutZeroToken(point: bool, parms: NumParms, numbuf: OutBuf, ghost v: real) returns (k: nat)
    requires v == 0.0
    modifies parms`n, parms`len, numbuf, numbuf.buf
    ensures numbuf.buf == old(numbuf.buf) || fresh(numbuf.buf)
    ensures 0 < k <= numbuf.buf.Length && parms.n == 0 && parms.len == 1
    ensures numbuf.buf[..k] == if point then [ZERO, DOT] else [ZERO]
    ensures Denotes(numbuf.buf[..k], parms.len, parms.n, v)
  {
    parms.n := 0;
    parms.len := 1;
    k := numbuf.Append(0, if point then [ZERO, DOT] else [ZERO]);
    assert numbuf.buf[..k] == if point then [ZERO, DOT] else [ZERO];
  }

  /** Zeros, with or without a point and an exponent, are zero. */
  lemma ZeroReads(m: nat, dot: bool, z: nat, mark: seq<Byte>, x: int)
    requires m + z > 0 && (!dot ==> z == 0) && ExpoText(mark, x)
    ensures var d := Decimal(Zeros(m), dot, Zeros(z), mark, x); d.Valid() && d.Value() == 0.0
  {
    assert Zeros(m) + Zeros(z) == Zeros(m + z);
    AllZeros(m + z);
    ScaledZero(x - z);
  }

  // uls_num2stdfmt, zeros only behind the point, read up to the cursor
  method PointZero(line: seq<Byte>, parms: NumParms, numbuf: OutBuf, ghost p: nat, ghost z: nat)
    returns (k: nat, ghost d: Decimal)
    requires IsLine(line) && p < parms.lptr && RunEnds(line, parms.lptr, parms.wch, 10)
    requires Passes(line, p, parms.lptr, parms.wch, true)
    requires z > 0 && Spells(line, p, parms.lptr, parms.wch, [DOT] + Zeros(z))
    modifies parms, numbuf, numbuf.buf
    ensures numbuf.buf == old(numbuf.buf) || fresh(numbuf.buf)
    ensures 0 < k <= numbuf.buf.Length && Denotes(numbuf.buf[..k], parms.len, parms.n, d.Value())
    ensures Reads(line, p, parms.lptr, parms.wch, d) && d.dot
  {
    parms.isZero := true;
    ghost var mark;
    var stat;
    stat, mark := ReadExpo(line, parms, p, [DOT] + Zeros(z));
    d := Decimal([], true, Zeros(z), mark, parms.n);
    ZeroReads(0, true, z, d.mark, d.x);
    assert Zeros(0) == [] && d.Front() == [DOT] + Zeros(z);
    k := PutZeroToken(true, parms, numbuf, d.Value());
  }

  // uls_num2stdfmt, a nonzero digit behind the zeros
  method PointDigits(line: seq<Byte>, parms: NumParms, numbuf: OutBuf, nZeros: nat, ghost p: nat)
    returns (k: nat, ghost d: Decimal)
    requires IsLine(line) && p < parms.lptr < |line| && IsSeparator(parms.wch)
    requires IsDigit(line[parms.lptr]) && line[parms.lptr] != ZERO
    requires Spells(line, p, parms.lptr, parms.wch, [DOT] + Zeros(nZeros))
    requires 1 <= numbuf.buf.Length && numbuf.buf[0] == DOT
    modifies parms, numbuf, numbuf.buf
    ensures numbuf.buf == old(numbuf.buf) || fresh(numbuf.buf)
    ensures 0 < k <= numbuf.buf.Length && Denotes(numbuf.buf[..k], parms.len, parms.n, d.Value())
    ensures Reads(line, p, parms.lptr, parms.wch, d) && d.dot
  {
    ghost var q := parms.lptr;
    assert numbuf.buf[1..1] == [];
    ghost var f;
    var lptr;
    k, d, f, lptr := FinishFraction(line, parms, parms.lptr, numbuf, 1, 0, -(nZeros as int), [], nZeros);
    assert d.ip + ([DOT] + Zeros(nZeros)) == [DOT] + Zeros(nZeros);
    FractionJoins(line, p, q, parms.lptr, parms.wch, nZeros, f, d);
  }

  // uls_num2stdfmt for ".xxxx": the point and the zeros behind it
  method ScanPoint(line: seq<Byte>, parms: NumParms) returns (nZeros: nat)
    requires IsLine(line) && parms.lptr < |line| && IsSeparator(parms.wch) && line[parms.lptr] == DOT
    modifies parms`lptr, parms`prevIsSep, parms`isFloat
    ensures old(parms.lptr) < parms.lptr < |line| && line[parms.lptr] != ZERO
    ensures Spells(line, old(parms.lptr), parms.lptr, parms.wch, [DOT] + Zeros(nZeros))
    ensures !IsDigit(line[parms.lptr]) ==>
      RunEnds(line, parms.lptr, parms.wch, 10) && Passes(line, old(parms.lptr), parms.lptr, parms.wch, true)
    ensures nZeros > 0 || IsDigit(line[parms.lptr]) <==> IsDigit(line[old(parms.lptr) + 1])
  {
    var p := parms.lptr;
    parms.isFloat := true;
    parms.lptr := p + 1;
    parms.prevIsSep := true;
    nZeros := SkipPrefixedZeros(line, parms);
    PointScanned(line, p, parms.lptr, parms.wch, nZeros);
  }

  // uls_num2stdfmt for ".xxxx"
  method PointBranch(line: seq<Byte>, parms: NumParms, numbuf: OutBuf) returns (k: nat, ghost d: Decimal)
    requires IsLine(line) && parms.lptr < |line| && IsSeparator(parms.wch) && line[parms.lptr] == DOT
    requires 1 <= numbuf.buf.Length && numbuf.buf[0] == DOT
    modifies parms, numbuf, numbuf.buf
    ensures numbuf.buf == old(numbuf.buf) || fresh(numbuf.buf)
    ensures k == 0 <==> !IsDigit(line[old(parms.lptr) + 1])
    ensures k > 0 ==> k <= numbuf.buf.Length && Denotes(numbuf.buf[..k], parms.len, parms.n, d.Value())
    ensures k > 0 ==> Reads(line, old(parms.lptr), parms.lptr, parms.wch, d) && d.dot
  {
    var p := parms.lptr;
    d := Decimal([ZERO], false, [], [], 0);
    var nZeros := ScanPoint(line, parms);
    if IsDigit(line[parms.lptr]) {
      k, d := PointDigits(line, parms, numbuf, nZeros, p);
    } else if nZeros > 0 {
      k, d := PointZero(line, parms, numbuf, p, nZeros);
    } else {
      parms.isZero := true;
      k := 0;
    }
  }

  // uls_num2stdfmt for "0.xxxx": the cursor stops on the point instead of behind it, so the token
  // is zero whatever the fraction. uls_extract_number has skipped all zeros and never comes here.
  method ZeroPointBranch(line: seq<Byte>, parms: NumParms, numbuf: OutBuf) returns (k: nat)
    requires IsLine(line) && parms.lptr + 1 < |line| && IsSeparator(parms.wch)
    requires line[parms.lptr] == ZERO && line[parms.lptr + 1] == DOT
    modifies parms, numbuf, numbuf.buf
    ensures numbuf.buf == old(numbuf.buf) || fresh(numbuf.buf)
    ensures k == 2 <= numbuf.buf.Length && numbuf.buf[..k] == [ZERO, DOT] && parms.len == 1 && parms.n == 0
    ensures parms.isZero && parms.lptr == old(parms.lptr) + 1
  {
    parms.isFloat := true;
    parms.lptr := parms.lptr + 1;
    parms.prevIsSep := true;
    var nZeros := SkipPrefixedZeros(line, parms);
    parms.isZero := true;
    var stat := CheckExpo(line, parms);
    k := PutZeroToken(true, parms, numbuf, 0.0);
  }

  lemma PointScanned(line: seq<Byte>, p: nat, q: nat, sep: Byte, z: nat)
    requires IsLine(line) && p < |line| && IsSeparator(sep) && line[p] == DOT
    requires Spells(line, p + 1, q, sep, Zeros(z))
    ensures Spells(line, p, q, sep, [DOT] + Zeros(z))
  {
    assert line[p..p] == [] && [] + [DOT] == [DOT];
    SpellsNext(line, p, p, sep, []);
    SpellsJoin(line, p, p + 1, q, sep, [DOT], Zeros(z));
  }

  /** Of the digits `ip` scanned from `p` on, all but the last `m`, which are zeros, lie before `i`. */
  ghost predicate BackOver(line: seq<Byte>, p: nat, i: nat, sep: Byte, ip: seq<Byte>, m: nat) {
    p < i <= |line| && Strip(line[p..i], sep) + Zeros(m) == ip
  }

  lemma BackNext(line: seq<Byte>, p: nat, i: nat, sep: Byte, ip: seq<Byte>, m: nat)
    requires p < i && BackOver(line, p, i + 1, sep, ip, m)
    ensures line[i] == sep ==> BackOver(line, p, i, sep, ip, m)
    ensures line[i] == ZERO != sep ==> BackOver(line, p, i, sep, ip, m + 1)
  {
    StripNext(line, p, i, sep);
    if line[i] == ZERO != sep {
      assert Zeros(m + 1) == [ZERO] + Zeros(m);
      Regroup(Strip(line[p..i], sep), [ZERO], Zeros(m), []);
    }
  }

  lemma BackDone(line: seq<Byte>, p: nat, i: nat, sep: Byte, ip: seq<Byte>, m: nat)
    requires p <= i && BackOver(line, p, i + 1, sep, ip, m) && line[i] != sep && line[i] != ZERO
    ensures m < |ip| && Trimmed(ip, ip[..|ip| - m], m)
  {
    StripNext(line, p, i, sep);
    var dd := Strip(line[p..i + 1], sep);
    assert ip[..|ip| - m] == dd && dd[|dd| - 1] == line[i];
  }

  // uls_num2stdfmt: counts the zeros at the end of the integer digits, backward from behind them
  method CountBack(line: seq<Byte>, p: nat, q: nat, numsep: Byte, ghost ip: seq<Byte>) returns (m: nat)
    requires p < q <= |line| && Strip(line[p..q], numsep) == ip
    requires line[p] != ZERO && line[p] != numsep && numsep != ZERO
    ensures m < |ip| && Trimmed(ip, ip[..|ip| - m], m)
  {
    var i := q - 1;
    m := 0;
    assert ip + Zeros(0) == ip;
    while line[i] == ZERO || line[i] == numsep
      invariant p <= i < q && BackOver(line, p, i + 1, numsep, ip, m)
      decreases i
    {
      BackNext(line, p, i, numsep, ip, m);
      if line[i] == ZERO {
        m := m + 1;
      }
      i := i - 1;
    }
    BackDone(line, p, i, numsep, ip, m);
  }

  // uls_num2stdfmt: the point behind the integer digits, and the zeros behind the point
  method SkipPoint(line: seq<Byte>, parms1: NumParms) returns (nZeros: nat)
    requires IsLine(line) && parms1.lptr < |line| && IsSeparator(parms1.wch) && line[parms1.lptr] == DOT
    modifies parms1`lptr, parms1`prevIsSep
    ensures old(parms1.lptr) < parms1.lptr < |line| && line[parms1.lptr] != ZERO
    ensures Spells(line, old(parms1.lptr), parms1.lptr, parms1.wch, [DOT] + Zeros(nZeros))
    ensures !IsDigit(line[parms1.lptr]) ==>
      RunEnds(line, parms1.lptr, parms1.wch, 10) && Passes(line, old(parms1.lptr), parms1.lptr, parms1.wch, true)
  {
    var p := parms1.lptr;
    parms1.lptr := p + 1;
    parms1.prevIsSep := true;
    nZeros := SkipPrefixedZeros(line, parms1);
    PointScanned(line, p, parms1.lptr, parms1.wch, nZeros);
    if line[parms1.lptr] == parms1.wch && parms1.prevIsSep {
      SpellsBack(line, p, parms1.lptr, parms1.wch, [DOT] + Zeros(nZeros));
      parms1.lptr := parms1.lptr - 1;
    }
  }

  /** Integer digits, perhaps a point with only zeros behind it, perhaps an exponent. */
  lemma IntegerReads(ip: seq<Byte>, dot: bool, z: nat, mark: seq<Byte>, x: int, m: nat)
    requires Digits(ip) && ip != [] && ip[0] != ZERO && (!dot ==> z == 0) && ExpoText(mark, x)
    requires m < |ip| && Trimmed(ip, ip[..|ip| - m], m)
    ensures var d, dd, n := Decimal(ip, dot, Zeros(z), mark, x), ip[..|ip| - m], x + |ip|;
            d.Value() == Scaled(Val(10, dd), n - |dd|)
  {
    var d, dd, n := Decimal(ip, dot, Zeros(z), mark, x), ip[..|ip| - m], x + |ip|;
    assert ip + Zeros(z) == dd + Zeros(m + z);
    TrimmedValue(d, ip + Zeros(z), dd, m + z, n);
  }

  lemma IntegerToken(ip: seq<Byte>)
    requires Digits(ip) && ip != [] && ip[0] != ZERO
    ensures var d := Decimal(ip, false, [], [], 0); d.Valid() && Denotes(ip, |ip|, 0, d.Value())
  {
    assert ip + [] == ip;
  }

  // uls_num2stdfmt for an integer: the digits move over the point to the front
  method MoveToFront(numbuf: OutBuf, k1: nat) returns (k: nat)
    requires 1 <= k1 <= numbuf.buf.Length
    modifies numbuf, numbuf.buf
    ensures numbuf.buf == old(numbuf.buf) || fresh(numbuf.buf)
    ensures k == k1 - 1 <= numbuf.buf.Length && numbuf.buf[..k] == old(numbuf.buf[1..k1])
  {
    k := k1 - 1;
    var buf := numbuf.buf;
    forall i | 0 <= i < k {
      buf[i] := buf[1 + i];
    }
    assert buf[..k] == old(numbuf.buf[1..k1]);
    numbuf.Putc(k, NUL);
  }

  // uls_num2stdfmt, an exponent that may follow the integer digits, or the zeros behind the point
  method ReadIntegerEnd(line: seq<Byte>, parms1: NumParms, ghost p: nat, ghost ip: seq<Byte>, ghost dot: bool,
                        ghost z: nat)
    returns (stat: bool, ghost d: Decimal)
    requires IsLine(line) && p < parms1.lptr && RunEnds(line, parms1.lptr, parms1.wch, 10)
    requires Spells(line, p, parms1.lptr, parms1.wch, if dot then ip + ([DOT] + Zeros(z)) else ip)
    requires Digits(ip) && ip != [] && (!dot ==> z == 0) && IsSeparator(parms1.wch)
    requires IsDigit(line[p]) && line[p] != ZERO
    requires dot ==> Passes(line, p, parms1.lptr, parms1.wch, true)
    modifies parms1`lptr, parms1`n
    ensures Reads(line, p, parms1.lptr, parms1.wch, d) && old(parms1.lptr) <= parms1.lptr
    ensures d == Decimal(ip, dot, Zeros(z), d.mark, parms1.n) && (stat <==> d.mark != [])
    ensures !stat ==> parms1.lptr == old(parms1.lptr)
  {
    ghost var mark;
    if !dot {
      NotOnlyZeros(line, p, p, parms1.lptr, parms1.wch);
    }
    stat, mark := ReadExpo(line, parms1, p, if dot then ip + ([DOT] + Zeros(z)) else ip);
    d := Decimal(ip, dot, Zeros(z), mark, parms1.n);
    assert Zeros(0) == [] && ip + [] == ip;
  }

  // uls_num2stdfmt: the integer digits as an integer token
  method PutInteger(parms: NumParms, numbuf: OutBuf, k1: nat, ghost d: Decimal) returns (k: nat)
    requires d == Decimal(d.ip, false, [], [], 0) && Digits(d.ip) && d.ip != [] && d.ip[0] != ZERO
    requires k1 <= numbuf.buf.Length && numbuf.buf[..k1] == [DOT] + d.ip
    modifies parms`len, parms`n, numbuf, numbuf.buf
    ensures numbuf.buf == old(numbuf.buf) || fresh(numbuf.buf)
    ensures 0 < k <= numbuf.buf.Length && Denotes(numbuf.buf[..k], parms.len, parms.n, d.Value())
    ensures numbuf.buf[..k] == d.ip
  {
    IntegerToken(d.ip);
    parms.n := 0;
    parms.len := k1 - 1;
    assert numbuf.buf[1..k1] == numbuf.buf[..k1][1..] == d.ip;
    k := MoveToFront(numbuf, k1);
  }

  lemma FrontOfRow(row: seq<Byte>, k1: nat, ip: seq<Byte>, m: nat)
    requires k1 <= |row| && row[..k1] == [DOT] + ip && m <= |ip|
    ensures k1 == 1 + |ip| && row[..k1 - m] == [DOT] + ip[..|ip| - m]
  {
    assert |row[..k1]| == 1 + |ip|;
    assert row[..k1 - m] == row[..k1][..k1 - m] == ([DOT] + ip)[..k1 - m];
  }

  /** The buffer without the last `m` zeros is the front of the token. */
  lemma ScaledToken(row: seq<Byte>, k1: nat, d: Decimal, m: nat, z: nat, x: int)
    requires d == Decimal(d.ip, d.dot, Zeros(z), d.mark, x) && d.Valid() && d.ip != [] && d.ip[0] != ZERO
    requires k1 <= |row| && row[..k1] == [DOT] + d.ip && m < |d.ip| && Trimmed(d.ip, d.ip[..|d.ip| - m], m)
    ensures k1 == 1 + |d.ip|
    ensures FractionToken(row[..k1 - m] + ExpoSuffix(x + |d.ip|), |d.ip| - m, x + |d.ip|, d.Value())
  {
    var dd := d.ip[..|d.ip| - m];
    FrontOfRow(row, k1, d.ip, m);
    IntegerReads(d.ip, d.dot, z, d.mark, x, m);
    FractionPrints(row[..k1 - m], dd, x + |d.ip|, d.Value());
  }

  // uls_num2stdfmt: the integer digits without their last `m` zeros, and an exponent
  method PutScaled(parms: NumParms, numbuf: OutBuf, k1: nat, n1: nat, m: nat, x: int, ghost v: real) returns (k: nat)
    requires m < n1 && k1 == 1 + n1 <= numbuf.buf.Length
    requires FractionToken(numbuf.buf[..k1 - m] + ExpoSuffix(x + n1), n1 - m, x + n1, v)
    modifies parms`len, parms`n, numbuf, numbuf.buf
    ensures numbuf.buf == old(numbuf.buf) || fresh(numbuf.buf)
    ensures 0 < k <= numbuf.buf.Length && Denotes(numbuf.buf[..k], parms.len, parms.n, v)
  {
    parms.len := n1 - m;
    parms.n := x + n1;
    k := CloseFraction(parms.n, numbuf, k1 - m, v);
  }

  method PutTrimmed(parms: NumParms, numbuf: OutBuf, k1: nat, n1: nat, m: nat, x: int, ghost d: Decimal, ghost z: nat)
    returns (k: nat)
    requires d == Decimal(d.ip, d.dot, Zeros(z), d.mark, x) && d.Valid() && d.ip != [] && d.ip[0] != ZERO
    requires k1 <= numbuf.buf.Length && numbuf.buf[..k1] == [DOT] + d.ip && n1 == |d.ip|
    requires m < n1 && Trimmed(d.ip, d.ip[..n1 - m], m)
    modifies parms`len, parms`n, numbuf, numbuf.buf
    ensures numbuf.buf == old(numbuf.buf) || fresh(numbuf.buf)
    ensures 0 < k <= numbuf.buf.Length && Denotes(numbuf.buf[..k], parms.len, parms.n, d.Value())
  {
    ghost var row := numbuf.buf[..];
    ScaledToken(row, k1, d, m, z, x);
    assert row[..k1 - m] == numbuf.buf[..k1 - m];
    k := PutScaled(parms, numbuf, k1, n1, m, x, d.Value());
  }

  // uls_num2stdfmt when no digit but zero stands behind the integer digits `ip`, which are in the
  // buffer: an exponent may follow at the cursor of parms1
  method FinishInteger(line: seq<Byte>, parms: NumParms, parms1: NumParms, numbuf: OutBuf, k1: nat, n1: nat, m: nat,
                       ghost p: nat, ghost ip: seq<Byte>, ghost dot: bool, ghost z: nat)
    returns (k: nat, ghost d: Decimal)
    requires parms != parms1 && IsLine(line) && p < parms1.lptr && RunEnds(line, parms1.lptr, parms1.wch, 10)
    requires (dot ==> parms.isFloat) && (!dot ==> z == 0) && IsSeparator(parms1.wch)
    requires IsDigit(line[p]) && line[p] != ZERO
    requires dot ==> Passes(line, p, parms1.lptr, parms1.wch, true)
    requires Spells(line, p, parms1.lptr, parms1.wch, if dot then ip + ([DOT] + Zeros(z)) else ip)
    requires k1 <= numbuf.buf.Length && numbuf.buf[..k1] == [DOT] + ip && n1 == |ip|
    requires Digits(ip) && ip != [] && ip[0] != ZERO && m < |ip| && Trimmed(ip, ip[..|ip| - m], m)
    modifies parms, parms1, numbuf, numbuf.buf
    ensures numbuf.buf == old(numbuf.buf) || fresh(numbuf.buf)
    ensures 0 < k <= numbuf.buf.Length && Denotes(numbuf.buf[..k], parms.len, parms.n, d.Value())
    ensures Reads(line, p, parms.lptr, parms1.wch, d) && d.ip == ip && d.dot == dot
    ensures d.mark == [] ==> parms.lptr == old(parms1.lptr)
  {
    var stat;
    stat, d := ReadIntegerEnd(line, parms1, p, ip, dot, z);
    parms.lptr := parms1.lptr;
    if stat {
      parms.isFloat := true;
    }
    k := PutIntegerToken(parms, numbuf, k1, n1, m, parms1.n, stat, d, z);
  }

  // uls_num2stdfmt: the token of integer digits, with an exponent if one was read or a point seen
  method PutIntegerToken(parms: NumParms, numbuf: OutBuf, k1: nat, n1: nat, m: nat, x: int, stat: bool,
                         ghost d: Decimal, ghost z: nat)
    returns (k: nat)
    requires d == Decimal(d.ip, d.dot, Zeros(z), d.mark, x) && d.Valid() && d.ip != [] && d.ip[0] != ZERO
    requires (d.dot ==> parms.isFloat) && (!d.dot ==> z == 0) && (stat <==> d.mark != [])
    requires k1 <= numbuf.buf.Length && numbuf.buf[..k1] == [DOT] + d.ip && n1 == |d.ip|
    requires m < n1 && Trimmed(d.ip, d.ip[..n1 - m], m)
    modifies parms`len, parms`n, numbuf, numbuf.buf
    ensures numbuf.buf == old(numbuf.buf) || fresh(numbuf.buf)
    ensures 0 < k <= numbuf.buf.Length && Denotes(numbuf.buf[..k], parms.len, parms.n, d.Value())
  {
    if stat || parms.isFloat {
      k := PutTrimmed(parms, numbuf, k1, n1, m, x, d, z);
    } else {
      assert Zeros(0) == [];
      k := PutInteger(parms, numbuf, k1, d);
    }
  }

  // str_putc of `z` zeros
  method PutZeros(numbuf: OutBuf, k0: nat, z: nat) returns (k: nat)
    requires k0 <= numbuf.buf.Length
    modifies numbuf, numbuf.buf
    ensures numbuf.buf == old(numbuf.buf) || fresh(numbuf.buf)
    ensures k == k0 + z <= numbuf.buf.Length && numbuf.buf[..k] == old(numbuf.buf[..k0]) + Zeros(z)
  {
    k := k0;
    ghost var head := numbuf.buf[..k0];
    for j := 0 to z
      invariant k == k0 + j <= numbuf.buf.Length && numbuf.buf[..k] == head + Zeros(j)
      invariant numbuf.buf == old(numbuf.buf) || fresh(numbuf.buf)
    {
      assert Zeros(j + 1) == Zeros(j) + [ZERO];
      numbuf.Putc(k, ZERO);
      k := k + 1;
    }
  }

  /** The text read before a nonzero digit of the fraction, and the rest of the numeral. */
  lemma FractionJoins(line: seq<Byte>, p: nat, q: nat, e: nat, sep: Byte, z: nat, f: seq<Byte>, d: Decimal)
    requires d.Valid() && Ends(line, e, sep, d.mark) && d.dot && d.fp == Zeros(z) + f && IsSeparator(sep)
    requires q < |line| && IsDigit(line[q]) && line[q] != ZERO && Digits(f) && f != [] && f[0] == line[q]
    requires Spells(line, p, q, sep, d.ip + ([DOT] + Zeros(z))) && SpellsAnd(line, q, e, sep, f, d.mark)
    ensures Reads(line, p, e, sep, d)
  {
    SpellsAndJoin(line, p, q, e, sep, d.ip + ([DOT] + Zeros(z)), f, d.mark);
    FractionFront(d, z, f);
    if d.mark == [] {
      FractionPasses(line, p, q, e, sep, f);
    }
  }

  lemma FractionFront(d: Decimal, z: nat, f: seq<Byte>)
    requires d.dot && d.fp == Zeros(z) + f
    ensures d.Front() == (d.ip + ([DOT] + Zeros(z))) + f
  {
    Assoc(d.ip, [DOT] + Zeros(z), f);
    Assoc([DOT], Zeros(z), f);
  }

  lemma FractionPasses(line: seq<Byte>, p: nat, q: nat, e: nat, sep: Byte, f: seq<Byte>)
    requires SpellsAnd(line, q, e, sep, f, []) && Digits(f) && f != [] && IsSeparator(sep)
    requires p <= q < |line| && IsDigit(line[q]) && line[q] != ZERO
    ensures Passes(line, p, e, sep, true)
  {
    assert q < e;
    NotOnlyZeros(line, p, q, e, sep);
  }

  // uls_num2stdfmt, a point and a fraction with a nonzero digit at `q` behind the integer digits
  method IntegerAndFraction(line: seq<Byte>, parms: NumParms, q: nat, numbuf: OutBuf, k1: nat, n1: nat, nZeros: nat,
                            ghost p: nat, ghost ip: seq<Byte>) returns (k: nat, ghost d: Decimal)
    requires IsLine(line) && p < q < |line| && IsSeparator(parms.wch) && IsDigit(line[q]) && line[q] != ZERO
    requires Spells(line, p, q, parms.wch, ip + ([DOT] + Zeros(nZeros)))
    requires k1 <= numbuf.buf.Length && numbuf.buf[..k1] == [DOT] + ip
    requires Digits(ip) && ip != [] && ip[0] != ZERO && n1 == |ip|
    modifies parms, numbuf, numbuf.buf
    ensures numbuf.buf == old(numbuf.buf) || fresh(numbuf.buf)
    ensures 0 < k <= numbuf.buf.Length && Denotes(numbuf.buf[..k], parms.len, parms.n, d.Value())
    ensures Reads(line, p, parms.lptr, parms.wch, d) && d.ip == ip && d.dot
  {
    var k2 := PutZeros(numbuf, k1, nZeros);
    ghost var data := numbuf.buf[..k2];
    assert data == ([DOT] + ip) + Zeros(nZeros) == [DOT] + (ip + Zeros(nZeros));
    assert numbuf.buf[0] == data[0] && numbuf.buf[1..k2] == data[1..];
    ghost var f;
    var lptr;
    k, d, f, lptr := FinishFraction(line, parms, q, numbuf, k2, n1, 0, ip, nZeros);
    FractionJoins(line, p, q, parms.lptr, parms.wch, nZeros, f, d);
  }

  // uls_num2stdfmt for a numeral that starts with a nonzero digit
  method IntegerBranch(line: seq<Byte>, parms: NumParms, numbuf: OutBuf) returns (k: nat, ghost d: Decimal)
    requires IsLine(line) && parms.lptr < |line| && IsSeparator(parms.wch)
    requires IsDigit(line[parms.lptr]) && line[parms.lptr] != ZERO
    requires 1 <= numbuf.buf.Length && numbuf.buf[0] == DOT
    modifies parms, numbuf, numbuf.buf
    ensures numbuf.buf == old(numbuf.buf) || fresh(numbuf.buf)
    ensures 0 < k <= numbuf.buf.Length && Denotes(numbuf.buf[..k], parms.len, parms.n, d.Value())
    ensures Reads(line, old(parms.lptr), parms.lptr, parms.wch, d)
    ensures d.mark == [] && !d.dot ==> line[parms.lptr] != DOT
  {
    var p := parms.lptr;
    var parms1 := new NumParms(p, parms.wch, false);
    assert numbuf.buf[..1] == [DOT];
    ghost var ip;
    var k1;
    k1, ip := ReadDigits(line, parms1, numbuf, 1);
    var n1, lptr2, nZeros := parms1.len, parms1.lptr, 0;
    var dot := line[lptr2] == DOT;
    if dot {
      parms.isFloat := true;
      nZeros := SkipPoint(line, parms1);
      SpellsJoin(line, p, lptr2, parms1.lptr, parms.wch, ip, [DOT] + Zeros(nZeros));
      PassesFrom(line, p, lptr2, parms1.lptr, parms.wch, true);
    }
    var q := parms1.lptr;
    if IsDigit(line[q]) {
      k, d := IntegerAndFraction(line, parms, q, numbuf, k1, n1, nZeros, p, ip);
    } else {
      var m := CountBack(line, p, lptr2, parms.wch, ip);
      k, d := FinishInteger(line, parms, parms1, numbuf, k1, n1, m, p, ip, dot, nZeros);
    }
  }

  // uls_num2stdfmt, writing at the start of the buffer. Its caller has skipped leading zeros.
  method Num2StdFmt(line: seq<Byte>, parms: NumParms, numbuf: OutBuf) returns (k: nat, ghost d: Decimal)
    requires IsLine(line) && parms.lptr < |line| && IsSeparator(parms.wch)
    requires line[parms.lptr] == ZERO ==> line[parms.lptr + 1] == DOT
    modifies parms, numbuf, numbuf.buf
    ensures numbuf.buf == old(numbuf.buf) || fresh(numbuf.buf)
    ensures k == 0 <==> !IsDigit(line[old(parms.lptr)])
                        && (line[old(parms.lptr)] == DOT ==> !IsDigit(line[old(parms.lptr) + 1]))
    ensures k > 0 && line[old(parms.lptr)] != ZERO ==>
      k <= numbuf.buf.Length && Denotes(numbuf.buf[..k], parms.len, parms.n, d.Value())
    ensures k > 0 && line[old(parms.lptr)] != ZERO ==>
      Reads(line, old(parms.lptr), parms.lptr, parms.wch, d) && (d.mark == [] && !d.dot ==> line[parms.lptr] != DOT)
    ensures line[old(parms.lptr)] == ZERO ==>
      k == 2 <= numbuf.buf.Length && numbuf.buf[..k] == [ZERO, DOT] && parms.isZero && parms.lptr == old(parms.lptr) + 1
  {
    parms.prevIsSep := true;
    numbuf.Putc(0, DOT);
    var ch := line[parms.lptr];
    k, d := 0, Decimal([], true, [], [], 0);
    if ch == DOT {
      k, d := PointBranch(line, parms, numbuf);
    } else if ch == ZERO {
      k := ZeroPointBranch(line, parms, numbuf);
    } else if IsDigit(ch) {
      k, d := IntegerBranch(line, parms, numbuf);
    }
  }

  // ---------- uls_extract_number ----------

  /** What is read of a numeral: all of it, with nothing behind it that would continue it. */
  ghost predicate ReadsAll(line: seq<Byte>, p: nat, lptr: nat, sep: Byte, d: Decimal) {
    Reads(line, p, lptr, sep, d) && (d.mark == [] && !d.dot ==> line[lptr] != DOT)
  }

  lemma FrontZeros(d: Decimal, m: nat)
    ensures d.(ip := Zeros(m) + d.ip).Front() == Zeros(m) + d.Front()
    ensures d.(ip := Zeros(m) + d.ip).Value() == d.Value()
  {
    Assoc(Zeros(m), d.ip, if d.dot then [DOT] + d.fp else []);
    Assoc(Zeros(m), d.ip, d.fp);
    ZerosInFront(10, m, d.ip + d.fp);
  }

  /** Zeros read first belong to the integer digits and leave the value alone. */
  lemma ZerosFirst(line: seq<Byte>, p: nat, q: nat, e: nat, sep: Byte, m: nat, d: Decimal)
    requires Spells(line, p, q, sep, Zeros(m)) && ReadsAll(line, q, e, sep, d) && Joint(line, p, q, sep) && q < e
    ensures ReadsAll(line, p, e, sep, d.(ip := Zeros(m) + d.ip)) && d.(ip := Zeros(m) + d.ip).Value() == d.Value()
  {
    FrontZeros(d, m);
    SpellsAndJoin(line, p, q, e, sep, Zeros(m), d.Front(), d.mark);
    if d.mark == [] {
      PassesFrom(line, p, q, e, sep, d.dot);
    }
  }

  lemma PointAfterZeros(line: seq<Byte>, p: nat, q: nat, sep: Byte, m: nat)
    requires IsLine(line) && p <= q < |line| && line[q] == DOT != sep && Strip(line[p..q], sep) == Zeros(m)
    ensures q + 1 < |line| && Strip(line[p..q + 1], sep) == Zeros(m) + [DOT]
  {
    StripNext(line, p, q, sep);
  }

  /** The zero numeral as read. */
  ghost function ZeroDecimal(m: nat, dot: bool, mark: seq<Byte>, x: int): Decimal {
    Decimal(Zeros(m), dot, [], mark, x)
  }

  lemma ZeroDecimalIs(m: nat, dot: bool, mark: seq<Byte>, x: int)
    requires m > 0 && ExpoText(mark, x)
    ensures var d := ZeroDecimal(m, dot, mark, x);
      d.Valid() && d.Value() == 0.0 && d.Front() == if dot then Zeros(m) + [DOT] else Zeros(m)
  {
    ZeroReads(m, dot, 0, mark, x);
    assert Zeros(0) == [] && [DOT] + [] == [DOT] && Zeros(m) + [] == Zeros(m);
  }

  // uls_extract_number, the exponent behind a zero
  method ReadZeroExpo(line: seq<Byte>, parms: NumParms, ghost p: nat, ghost m: nat, ghost dot: bool)
    returns (ghost d: Decimal)
    requires IsLine(line) && RunEnds(line, parms.lptr, parms.wch, 10) && m > 0
    requires Spells(line, p, parms.lptr, parms.wch, if dot then Zeros(m) + [DOT] else Zeros(m))
    requires (!dot ==> line[parms.lptr] != DOT) && Passes(line, p, parms.lptr, parms.wch, dot)
    modifies parms`lptr, parms`n
    ensures ReadsAll(line, p, parms.lptr, parms.wch, d) && d.Value() == 0.0
  {
    var stat;
    ghost var mark;
    stat, mark := ReadExpo(line, parms, p, if dot then Zeros(m) + [DOT] else Zeros(m));
    d := ZeroDecimal(m, dot, mark, parms.n);
    ZeroDecimalIs(m, dot, mark, parms.n);
  }

  // uls_extract_number: a point may follow the zeros
  method PassPoint(line: seq<Byte>, parms: NumParms, ghost p: nat, ghost m: nat) returns (dot: bool)
    requires IsLine(line) && IsSeparator(parms.wch) && RunEnds(line, parms.lptr, parms.wch, 10)
    requires m > 0 && Spells(line, p, parms.lptr, parms.wch, Zeros(m))
    requires line[parms.lptr] == DOT ==> !IsDigit(line[parms.lptr + 1])
    requires Passes(line, p, parms.lptr, parms.wch, false)
    modifies parms`lptr, parms`isFloat
    ensures RunEnds(line, parms.lptr, parms.wch, 10) && Passes(line, p, parms.lptr, parms.wch, dot)
    ensures !dot ==> line[parms.lptr] != DOT
    ensures Spells(line, p, parms.lptr, parms.wch, if dot then Zeros(m) + [DOT] else Zeros(m))
  {
    dot := line[parms.lptr] == DOT;
    if dot {
      SpellsNext(line, p, parms.lptr, parms.wch, Zeros(m));
      parms.lptr := parms.lptr + 1;
      parms.isFloat := true;
    }
  }

  // uls_extract_number: zeros up to the cursor, perhaps a point, perhaps an exponent
  method ReadZero(line: seq<Byte>, parms: NumParms, ghost p: nat, ghost m: nat)
    returns (dot: bool, lptr: nat, ghost d: Decimal)
    requires IsLine(line) && IsSeparator(parms.wch) && RunEnds(line, parms.lptr, parms.wch, 10)
    requires m > 0 && Spells(line, p, parms.lptr, parms.wch, Zeros(m))
    requires line[parms.lptr] == DOT ==> !IsDigit(line[parms.lptr + 1])
    requires Passes(line, p, parms.lptr, parms.wch, false)
    modifies parms`lptr, parms`isFloat, parms`n
    ensures parms.lptr == lptr && ReadsAll(line, p, lptr, parms.wch, d) && d.Value() == 0.0
  {
    dot := PassPoint(line, parms, p, m);
    d := ReadZeroExpo(line, parms, p, m, dot);
    lptr := parms.lptr;
  }

  // uls_extract_number: no digit but zeros
  method FinishZero(line: seq<Byte>, parms: NumParms, tokbuf: OutBuf, m: nat, ghost p: nat)
    returns (k: nat, ghost d: Decimal)
    requires IsLine(line) && IsSeparator(parms.wch) && RunEnds(line, parms.lptr, parms.wch, 10)
    requires m > 0 && Spells(line, p, parms.lptr, parms.wch, Zeros(m))
    requires line[parms.lptr] == DOT ==> !IsDigit(line[parms.lptr + 1])
    requires Passes(line, p, parms.lptr, parms.wch, false)
    modifies parms, tokbuf, tokbuf.buf
    ensures tokbuf.buf == old(tokbuf.buf) || fresh(tokbuf.buf)
    ensures 0 < k <= tokbuf.buf.Length && Denotes(tokbuf.buf[..k], parms.len, parms.n, d.Value())
    ensures ReadsAll(line, p, parms.lptr, parms.wch, d) && parms.isZero && d.Value() == 0.0
  {
    var dot, lptr;
    dot, lptr, d := ReadZero(line, parms, p, m);
    k := PutZeroToken(dot, parms, tokbuf, d.Value());
    parms.isZero := true;
    assert parms.lptr == lptr;
  }

  /** A decimal numeral starts at `p`: a digit, or a point and a digit. */
  predicate StartsDecimal(line: seq<Byte>, p: nat)
    requires IsLine(line) && p < |line|
  {
    IsDigit(line[p]) || (line[p] == DOT && IsDigit(line[p + 1]))
  }

  // uls_extract_number: zeros, a separator, a point: only the zeros are the numeral
  method ZerosBeforePoint(line: seq<Byte>, parms: NumParms, tokbuf: OutBuf, ghost p: nat, ghost m: nat)
    returns (k: nat, ghost d: Decimal)
    requires IsLine(line) && p < parms.lptr < |line| && IsSeparator(parms.wch) && line[parms.lptr - 1] == parms.wch
    requires m > 0 && Spells(line, p, parms.lptr, parms.wch, Zeros(m))
    requires line[parms.lptr] == DOT && IsDigit(line[parms.lptr + 1])
    modifies parms, tokbuf, tokbuf.buf
    ensures tokbuf.buf == old(tokbuf.buf) || fresh(tokbuf.buf)
    ensures 0 < k <= tokbuf.buf.Length && Denotes(tokbuf.buf[..k], parms.len, parms.n, d.Value())
    ensures ReadsAll(line, p, parms.lptr, parms.wch, d)
  {
    parms.lptr := parms.lptr - 1;
    ZerosOnly(line, p, parms.lptr, parms.wch, m);
    d := ZeroDecimal(m, false, [], 0);
    parms.isZero := true;
    k := PutZeroToken(false, parms, tokbuf, d.Value());
  }

  // uls_extract_number: what is left behind leading zeros
  method NumeralAfterZeros(line: seq<Byte>, parms: NumParms, tokbuf: OutBuf, ghost p: nat, ghost m: nat)
    returns (k: nat, ghost d: Decimal)
    requires IsLine(line) && p <= parms.lptr < |line| && IsSeparator(parms.wch) && line[parms.lptr] != ZERO
    requires IsDigit(line[parms.lptr]) || (line[parms.lptr] == DOT && IsDigit(line[parms.lptr + 1]))
    requires Spells(line, p, parms.lptr, parms.wch, Zeros(m)) && Joint(line, p, parms.lptr, parms.wch)
    modifies parms, tokbuf, tokbuf.buf
    ensures tokbuf.buf == old(tokbuf.buf) || fresh(tokbuf.buf)
    ensures 0 < k <= tokbuf.buf.Length && Denotes(tokbuf.buf[..k], parms.len, parms.n, d.Value())
    ensures ReadsAll(line, p, parms.lptr, parms.wch, d)
  {
    ghost var q := parms.lptr;
    ghost var d1;
    k, d1 := Num2StdFmt(line, parms, tokbuf);
    ZerosFirst(line, p, q, parms.lptr, parms.wch, m, d1);
    d := d1.(ip := Zeros(m) + d1.ip);
  }

  // uls_extract_number without a radix prefix; k is -1 when there is no numeral
  method ExtractDecimal(line: seq<Byte>, parms: NumParms, tokbuf: OutBuf) returns (k: int, ghost d: Decimal)
    requires IsLine(line) && parms.lptr < |line| && IsSeparator(parms.wch)
    modifies parms, tokbuf, tokbuf.buf
    ensures tokbuf.buf == old(tokbuf.buf) || fresh(tokbuf.buf)
    ensures k == -1 <==> !StartsDecimal(line, old(parms.lptr))
    ensures k == -1 ==> parms.lptr == old(parms.lptr)
    ensures k != -1 ==> 0 < k <= tokbuf.buf.Length && Denotes(tokbuf.buf[..k], parms.len, parms.n, d.Value())
    ensures k != -1 ==> ReadsAll(line, old(parms.lptr), parms.lptr, parms.wch, d)
    ensures k != -1 ==> Writes(tokbuf.buf[..k], d.Value())
  {
    k, d := ReadNumeral(line, parms, tokbuf);
    if k != -1 {
      TokenWrites(tokbuf.buf[..k], parms.len, parms.n, d.Value());
    }
  }

  // uls_extract_number, with what the record says of the token
  method ReadNumeral(line: seq<Byte>, parms: NumParms, tokbuf: OutBuf) returns (k: int, ghost d: Decimal)
    requires IsLine(line) && parms.lptr < |line| && IsSeparator(parms.wch)
    modifies parms, tokbuf, tokbuf.buf
    ensures tokbuf.buf == old(tokbuf.buf) || fresh(tokbuf.buf)
    ensures k == -1 <==> !StartsDecimal(line, old(parms.lptr))
    ensures k == -1 ==> parms.lptr == old(parms.lptr)
    ensures k != -1 ==> 0 < k <= tokbuf.buf.Length && Denotes(tokbuf.buf[..k], parms.len, parms.n, d.Value())
    ensures k != -1 ==> ReadsAll(line, old(parms.lptr), parms.lptr, parms.wch, d)
  {
    var p := parms.lptr;
    d := Decimal([], true, [], [], 0);
    parms.n := 0;
    parms.prevIsSep := true;
    var nZeros := SkipPrefixedZeros(line, parms);
    var q := parms.lptr;
    var ch := line[q];
    if IsDigit(ch) || (ch == DOT && IsDigit(line[q + 1])) {
      if ch == DOT && parms.prevIsSep {
        k, d := ZerosBeforePoint(line, parms, tokbuf, p, nZeros);
      } else {
        k, d := NumeralAfterZeros(line, parms, tokbuf, p, nZeros);
      }
    } else if nZeros > 0 {
      k, d := FinishZero(line, parms, tokbuf, nZeros, p);
    } else {
      parms.isZero, parms.isFloat, parms.prevIsSep, parms.len := false, false, false, 0;
      parms.lptr := p;
      k := -1;
    }
  }

  lemma ZerosOnly(line: seq<Byte>, p: nat, e: nat, sep: Byte, m: nat)
    requires IsLine(line) && p <= e && e + 1 < |line| && IsSeparator(sep) && line[e] == sep && line[e + 1] == DOT
    requires e + 2 < |line| && IsDigit(line[e + 2])
    requires m > 0 && Spells(line, p, e + 1, sep, Zeros(m))
    ensures ReadsAll(line, p, e, sep, ZeroDecimal(m, false, [], 0)) && ZeroDecimal(m, false, [], 0).Value() == 0.0
  {
    SpellsBack(line, p, e + 1, sep, Zeros(m));
    ZeroDecimalIs(m, false, [], 0);
    SeparatorEnds(line, p, e, sep, Zeros(m));
  }

  lemma SeparatorEnds(line: seq<Byte>, p: nat, e: nat, sep: Byte, text: seq<Byte>)
    requires Spells(line, p, e, sep, text) && IsSeparator(sep)
    requires e + 1 < |line| && line[e] == sep && !IsDigit(line[e + 1])
    ensures SpellsAnd(line, p, e, sep, text, []) && Ends(line, e, sep, []) && line[e] != DOT
  {
    assert line[e..e] == [];
  }

  // ---------- numerals with a radix prefix ----------

  lemma {:induction false} UpperSameValue(radix: nat, acc: nat, s: seq<Byte>)
    ensures ValFrom(radix, acc, Upper(s)) == ValFrom(radix, acc, s)
    decreases |s|
  {
    if s != [] {
      UpperSameValue(radix, acc * radix + DigitOf(s[0]), s[1..]);
      assert Upper(s)[1..] == Upper(s[1..]);
      assert DigitOf(ToUpper(s[0])) == DigitOf(s[0]);
    }
  }

  /** `digits` is the canonical upper-case numeral of the digits that were read as `text`. */
  ghost predicate CanonicalFor(digits: seq<Byte>, text: seq<Byte>, radix: nat) {
    && IsNumeral(radix, text) && text != []
    && Canonical(radix, digits) && UpperCase(digits) && Val(radix, digits) == Val(radix, text)
  }

  lemma CollectedCanonical(m: nat, u: seq<Byte>, radix: nat)
    requires 2 <= radix <= 36 && IsNumeral(radix, u) && u != [] && u[0] != ZERO
    ensures CanonicalFor(Upper(u), Zeros(m) + u, radix) && Upper(u)[0] != ZERO
  {
    var text := Zeros(m) + u;
    forall i | 0 <= i < |text| ensures IsNumRadix(text[i], radix) >= 0 {
      if i >= m {
        assert text[i] == u[i - m];
      }
    }
    forall i | 0 <= i < |u| ensures IsNumRadix(Upper(u)[i], radix) >= 0 {
      assert IsNumRadix(u[i], radix) >= 0;
    }
    ZerosInFront(radix, m, u);
    UpperSameValue(radix, 0, u);
  }

  lemma ZeroCanonical(m: nat, radix: nat)
    requires 2 <= radix <= 36 && m > 0
    ensures CanonicalFor([ZERO], Zeros(m), radix)
  {
    ZerosInFront(radix, m, []);
    assert Zeros(m) + [] == Zeros(m);
    CanonicalZero(radix, [ZERO]);
  }

  // skip_radix_numstr when only zeros stand there
  method PutRadixZero(line: seq<Byte>, parms: NumParms, numbuf: OutBuf, k0: nat, ghost p: nat, ghost m: nat)
    returns (k: nat)
    requires IsLine(line) && p < parms.lptr < |line| && k0 <= numbuf.buf.Length && m > 0
    requires Strip(line[p..parms.lptr], parms.wch) == Zeros(m)
    requires parms.prevIsSep ==> line[parms.lptr - 1] == parms.wch
    modifies parms, numbuf, numbuf.buf
    ensures numbuf.buf == old(numbuf.buf) || fresh(numbuf.buf)
    ensures p <= parms.lptr < |line| && Strip(line[p..parms.lptr], parms.wch) == Zeros(m)
    ensures parms.lptr == old(parms.lptr) || line[parms.lptr] == parms.wch
    ensures k == k0 + 1 <= numbuf.buf.Length && numbuf.buf[..k0] == old(numbuf.buf[..k0]) && numbuf.buf[k0..k] == [ZERO]
    ensures parms.len == 1
  {
    if parms.prevIsSep {
      var back: nat := parms.lptr - 1;
      StripNext(line, p, back, parms.wch);
      assert line[p..back + 1] == line[p..parms.lptr];
      parms.lptr := back;
    }
    parms.isZero, parms.prevIsSep := true, false;
    numbuf.Putc(k0, ZERO);
    k := k0 + 1;
    parms.len := 1;
  }

  lemma CollectedAt(row: seq<Byte>, k0: nat, k: nat, kept: seq<Byte>, u: seq<Byte>, radix: nat)
    requires k0 == |kept| <= k <= |row| && Collected(row[..k], kept, u, radix)
    ensures row[k0..k] == Upper(u) && row[..k0] == kept
  {
    assert row[k0..k] == row[..k][k0..] && row[..k0] == row[..k][..k0];
  }

  // skip_radix_numstr from a nonzero digit on
  method PutRadixDigits(line: seq<Byte>, parms: NumParms, radix: nat, numbuf: OutBuf, k0: nat, ghost p: nat,
                        ghost m: nat)
    returns (k: nat)
    requires IsLine(line) && p <= parms.lptr < |line| && IsSeparator(parms.wch) && 2 <= radix <= 36
    requires Strip(line[p..parms.lptr], parms.wch) == Zeros(m)
    requires IsNumRadix(line[parms.lptr], radix) >= 0 && line[parms.lptr] != ZERO && k0 <= numbuf.buf.Length
    modifies parms, numbuf, numbuf.buf
    ensures numbuf.buf == old(numbuf.buf) || fresh(numbuf.buf)
    ensures p < parms.lptr < |line| && IsNumRadix(line[parms.lptr], radix) < 0
    ensures k0 < k <= numbuf.buf.Length && numbuf.buf[..k0] == old(numbuf.buf[..k0]) && parms.len == k - k0
    ensures CanonicalFor(numbuf.buf[k0..k], Strip(line[p..parms.lptr], parms.wch), radix)
  {
    ghost var q, kept := parms.lptr, numbuf.buf[..k0];
    ghost var u;
    k, u := SkipDigits(line, parms, radix, numbuf, k0);
    CollectedCanonical(m, u, radix);
    StripJoin(line, p, q, parms.lptr, parms.wch);
    CollectedAt(numbuf.buf[..], k0, k, kept, u, radix);
    parms.prevIsSep := true;
  }

  // skip_radix_numstr; `k` is `k0` when there is no digit
  method SkipRadixNumstr(line: seq<Byte>, parms: NumParms, radix: nat, numbuf: OutBuf, k0: nat) returns (k: nat)
    requires IsLine(line) && parms.lptr < |line| && IsSeparator(parms.wch) && 2 <= radix <= 36
    requires k0 <= numbuf.buf.Length
    modifies parms, numbuf, numbuf.buf
    ensures numbuf.buf == old(numbuf.buf) || fresh(numbuf.buf)
    ensures old(parms.lptr) <= parms.lptr < |line| && k0 <= k <= numbuf.buf.Length
    ensures numbuf.buf[..k0] == old(numbuf.buf[..k0]) && parms.len == k - k0
    ensures k > k0 ==> CanonicalFor(numbuf.buf[k0..k], Strip(line[old(parms.lptr)..parms.lptr], parms.wch), radix)
    ensures IsNumRadix(line[parms.lptr], radix) < 0
    ensures old(parms.prevIsSep) ==> (k > k0 <==> IsNumRadix(line[old(parms.lptr)], radix) >= 0)
  {
    ghost var p := parms.lptr;
    var nZeros := SkipPrefixedZeros(line, parms);
    if IsNumRadix(line[parms.lptr], radix) >= 0 {
      k := PutRadixDigits(line, parms, radix, numbuf, k0, p, nZeros);
    } else if nZeros > 0 {
      ZeroCanonical(nZeros, radix);
      k := PutRadixZero(line, parms, numbuf, k0, p, nZeros);
    } else {
      k := k0;
      parms.prevIsSep := false;
      parms.len := 0;
    }
  }

  /** Zeros, perhaps a point and more zeros, perhaps an exponent, are a zero numeral. */
  lemma ZeroFront(m: nat, dot: bool, z: nat, mark: seq<Byte>, x: int) returns (d: Decimal)
    requires m > 0 && ExpoText(mark, x)
    ensures d.Valid() && d.Value() == 0.0 && d.mark == mark
    ensures d.Front() == (if dot then Zeros(m) + [DOT] else Zeros(m)) + Zeros(z)
  {
    if dot {
      d := Decimal(Zeros(m), true, Zeros(z), mark, x);
      ZeroReads(m, true, z, mark, x);
      Assoc(Zeros(m), [DOT], Zeros(z));
    } else {
      d := Decimal(Zeros(m + z), false, [], mark, x);
      ZeroReads(m + z, false, 0, mark, x);
      assert Zeros(0) == [] && Zeros(m) + Zeros(z) == Zeros(m + z) == Zeros(m + z) + [];
    }
  }

  lemma ZeroSpelled(line: seq<Byte>, p: nat, q: nat, r: nat, e: nat, sep: Byte, m: nat, dot: bool, z: nat,
                    mark: seq<Byte>, x: int)
    requires p <= q <= r <= e <= |line| && m > 0 && ExpoText(mark, x) && line[r..e] == mark
    requires Strip(line[p..q], sep) == (if dot then Zeros(m) + [DOT] else Zeros(m))
    requires Strip(line[q..r], sep) == Zeros(z)
    ensures ReadsZero(line, p, e, sep)
  {
    StripJoin(line, p, q, r, sep);
    var d := ZeroFront(m, dot, z, mark, x);
    ZeroAt(line, p, r, e, sep, d);
  }

  lemma ZeroAt(line: seq<Byte>, p: nat, r: nat, e: nat, sep: Byte, d: Decimal)
    requires p <= r <= e <= |line| && d.Valid() && d.Value() == 0.0
    requires Strip(line[p..r], sep) == d.Front() && line[r..e] == d.mark
    ensures IsZeroAt(line, p, e, sep, d)
  {
    assert |d.mark| == |line[r..e]| == e - r;
  }

  /** From `p` to `lptr` stands `d`, which is zero, freed of separators in front of its exponent. */
  ghost predicate IsZeroAt(line: seq<Byte>, p: nat, lptr: nat, sep: Byte, d: Decimal) {
    && d.Valid() && d.Value() == 0.0 && p + |d.mark| <= lptr <= |line|
    && Strip(line[p..lptr - |d.mark|], sep) == d.Front() && line[lptr - |d.mark|..lptr] == d.mark
  }

  /** A numeral of value zero is read from `p` to `lptr`. */
  ghost predicate ReadsZero(line: seq<Byte>, p: nat, lptr: nat, sep: Byte) {
    exists d: Decimal :: IsZeroAt(line, p, lptr, sep, d)
  }

  // uls_extract_number, a prefix without a digit behind it: a point may follow the `m` zeros it starts with
  method SkipZeroPoint(line: seq<Byte>, parms: NumParms, ghost p: nat, ghost m: nat) returns (ghost dot: bool)
    requires IsLine(line) && p <= parms.lptr < |line| && IsSeparator(parms.wch)
    requires m > 0 && Strip(line[p..parms.lptr], parms.wch) == Zeros(m)
    modifies parms`lptr, parms`isFloat
    ensures p <= parms.lptr < |line|
    ensures Strip(line[p..parms.lptr], parms.wch) == if dot then Zeros(m) + [DOT] else Zeros(m)
  {
    dot := line[parms.lptr] == DOT;
    if line[parms.lptr] == DOT {
      PointAfterZeros(line, p, parms.lptr, parms.wch, m);
      parms.lptr := parms.lptr + 1;
      parms.isFloat := true;
    }
  }

  // uls_extract_number, a prefix without a digit behind it: more zeros and an exponent may follow
  method SkipZeroRest(line: seq<Byte>, parms: NumParms, ghost p: nat, ghost m: nat, ghost dot: bool)
    requires IsLine(line) && p <= parms.lptr < |line| && IsSeparator(parms.wch)
    requires m > 0 && Strip(line[p..parms.lptr], parms.wch) == if dot then Zeros(m) + [DOT] else Zeros(m)
    modifies parms`lptr, parms`n, parms`prevIsSep
    ensures ReadsZero(line, p, parms.lptr, parms.wch)
  {
    ghost var q := parms.lptr;
    var more := SkipPrefixedZeros(line, parms);
    ghost var r := parms.lptr;
    var stat := CheckExpo(line, parms);
    ZeroSpelled(line, p, q, r, parms.lptr, parms.wch, m, dot, more, line[r..parms.lptr], parms.n);
  }

  // uls_extract_number, a prefix without a digit behind it that starts with `m` zeros
  method ZeroFallback(line: seq<Byte>, parms: NumParms, tokbuf: OutBuf, ghost p: nat, ghost m: nat) returns (k: nat)
    requires IsLine(line) && p <= parms.lptr < |line| && IsSeparator(parms.wch)
    requires m > 0 && Strip(line[p..parms.lptr], parms.wch) == Zeros(m)
    modifies parms, tokbuf, tokbuf.buf
    ensures tokbuf.buf == old(tokbuf.buf) || fresh(tokbuf.buf)
    ensures k <= tokbuf.buf.Length && parms.isZero && parms.n == 0
    ensures tokbuf.buf[..k] == if parms.isFloat then [ZERO, DOT] else [ZERO]
    ensures ReadsZero(line, p, parms.lptr, parms.wch)
  {
    parms.isZero := true;
    ghost var e := SkipZeroNumeral(line, parms, p, m);
    assert parms.isZero;
    k := PutFallbackZero(parms, tokbuf);
    assert parms.isZero && parms.lptr == e;
  }

  method SkipZeroNumeral(line: seq<Byte>, parms: NumParms, ghost p: nat, ghost m: nat) returns (ghost e: nat)
    requires IsLine(line) && p <= parms.lptr < |line| && IsSeparator(parms.wch)
    requires m > 0 && Strip(line[p..parms.lptr], parms.wch) == Zeros(m)
    modifies parms`lptr, parms`n, parms`prevIsSep, parms`isFloat
    ensures parms.lptr == e && ReadsZero(line, p, e, parms.wch) && parms.n == 0
  {
    ghost var dot := SkipZeroPoint(line, parms, p, m);
    SkipZeroRest(line, parms, p, m, dot);
    parms.n := 0;
    e := parms.lptr;
  }

  // uls_extract_number, a prefix without a digit behind it: the token of a zero
  method PutFallbackZero(parms: NumParms, tokbuf: OutBuf) returns (k: nat)
    modifies parms`len, tokbuf, tokbuf.buf
    ensures tokbuf.buf == old(tokbuf.buf) || fresh(tokbuf.buf)
    ensures k <= tokbuf.buf.Length && tokbuf.buf[..k] == if parms.isFloat then [ZERO, DOT] else [ZERO]
  {
    tokbuf.Putc(0, ZERO);
    k := 1;
    assert tokbuf.buf[..1] == [ZERO];
    if parms.isFloat {
      tokbuf.Putc(1, DOT);
      k := 2;
      parms.len := 1;
    }
  }

  // uls_extract_number, a prefix without a digit behind it
  method PrefixFallback(line: seq<Byte>, parms: NumParms, p: nat, tokbuf: OutBuf, k0: nat) returns (k: nat)
    requires IsLine(line) && p < |line| && IsSeparator(parms.wch) && k0 <= tokbuf.buf.Length
    modifies parms, tokbuf, tokbuf.buf
    ensures tokbuf.buf == old(tokbuf.buf) || fresh(tokbuf.buf)
    ensures k <= tokbuf.buf.Length
    ensures line[p] == ZERO ==> tokbuf.buf[..k] in {[ZERO], [ZERO, DOT]}
    ensures tokbuf.buf[..k] == old(tokbuf.buf[..k0]) ||
            (tokbuf.buf[..k] in {[ZERO], [ZERO, DOT]} && parms.n == 0 && ReadsZero(line, p, parms.lptr, parms.wch))
  {
    parms.lptr := p;
    var nZeros := SkipPrefixedZeros(line, parms);
    if nZeros > 0 {
      k := ZeroFallback(line, parms, tokbuf, p, nZeros);
    } else {
      k := k0;
    }
  }

  // uls_extract_number behind a radix prefix of `lenPrefix` characters, whose standard spelling is `srp`
  method ExtractPrefixed(line: seq<Byte>, parms: NumParms, lenPrefix: nat, radix: nat, srp: seq<Byte>, tokbuf: OutBuf)
    returns (k: nat)
    requires IsLine(line) && parms.lptr + lenPrefix < |line| && IsSeparator(parms.wch)
    requires 2 <= radix <= 36 && |srp| >= 2 && srp[0] == ZERO
    modifies parms, tokbuf, tokbuf.buf
    ensures tokbuf.buf == old(tokbuf.buf) || fresh(tokbuf.buf)
    ensures k < tokbuf.buf.Length && tokbuf.buf[k] == NUL
    ensures IsNumRadix(line[old(parms.lptr) + lenPrefix], radix) >= 0 ==>
      old(parms.lptr) + lenPrefix < parms.lptr < |line| && IsNumRadix(line[parms.lptr], radix) < 0
    ensures IsNumRadix(line[old(parms.lptr) + lenPrefix], radix) >= 0 ==>
      RadixToken(tokbuf.buf[..k], srp, Strip(line[old(parms.lptr) + lenPrefix..parms.lptr], parms.wch), radix)
    ensures IsNumRadix(line[old(parms.lptr) + lenPrefix], radix) < 0 ==>
      tokbuf.buf[..k] == srp ||
      (tokbuf.buf[..k] in {[ZERO], [ZERO, DOT]} && ReadsZero(line, old(parms.lptr), parms.lptr, parms.wch))
  {
    var p := parms.lptr;
    parms.n := 0;
    var k1 := tokbuf.Append(0, srp);
    assert tokbuf.buf[..k1] == srp;
    parms.lptr := parms.lptr + lenPrefix;
    parms.prevIsSep := true;
    k := SkipRadixNumstr(line, parms, radix, tokbuf, k1);
    if k > k1 {
      k := PutRadixToken(parms, srp, tokbuf, k1, k, Strip(line[p + lenPrefix..parms.lptr], parms.wch), radix);
    } else {
      k := PrefixFallback(line, parms, p, tokbuf, k);
    }
    tokbuf.Putc(k, NUL);
  }

  /** A token of the digits read as `text`: "0" for zero, else the prefix and the canonical digits. */
  ghost predicate RadixToken(tok: seq<Byte>, srp: seq<Byte>, text: seq<Byte>, radix: nat) {
    IsNumeral(radix, text) &&
    if Val(radix, text) == 0 then tok == [ZERO]
    else |tok| > |srp| && tok[..|srp|] == srp && CanonicalFor(tok[|srp|..], text, radix)
  }

  // uls_extract_number: a zero loses its prefix
  method PutRadixToken(parms: NumParms, srp: seq<Byte>, tokbuf: OutBuf, k1: nat, k0: nat, ghost text: seq<Byte>,
                       radix: nat)
    returns (k: nat)
    requires 2 <= radix <= 36 && 2 <= k1 == |srp| < k0 <= tokbuf.buf.Length && srp[0] == ZERO && tokbuf.buf[..k1] == srp
    requires CanonicalFor(tokbuf.buf[k1..k0], text, radix)
    modifies parms, tokbuf, tokbuf.buf
    ensures tokbuf.buf == old(tokbuf.buf) || fresh(tokbuf.buf)
    ensures k <= tokbuf.buf.Length && RadixToken(tokbuf.buf[..k], srp, text, radix) && parms.lptr == old(parms.lptr)
  {
    ghost var digits := tokbuf.buf[k1..k0];
    assert digits[0] == tokbuf.buf[k1];
    CanonicalZero(radix, digits);
    k := k0;
    if tokbuf.buf[k1] == ZERO {
      parms.isZero := true;
      tokbuf.Putc(0, ZERO);
      k := 1;
    } else {
      assert tokbuf.buf[..k0][..k1] == srp && tokbuf.buf[..k0][k1..] == digits;
    }
  }

  // ---------- what the token text says by itself ----------

  lemma {:induction false} ScaledSign(m: int, e: int)
    requires m > 0
    ensures Scaled(m, e) > 0.0
    decreases if e < 0 then -e else e
  {
    if e > 0 {
      ScaledSign(10 * m, e - 1);
    } else if e < 0 {
      ScaledSign(m, e + 1);
    }
  }

  lemma DigitsAreNumeral(s: seq<Byte>)
    ensures Digits(s) <==> IsNumeral(10, s)
  {
    forall i | 0 <= i < |s| ensures IsDigit(s[i]) <==> IsNumRadix(s[i], 10) >= 0 {}
  }

  /** A zero numeral, and no other, becomes "0" or "0.". */
  lemma ZeroToken(tok: seq<Byte>, len: nat, n: int, v: real)
    requires Denotes(tok, len, n, v)
    ensures v == 0.0 <==> tok in {[ZERO], [ZERO, DOT]}
  {
    if FractionToken(tok, len, n, v) {
      var dd := tok[1..1 + len];
      DigitsAreNumeral(dd);
      assert dd[0] == tok[1];
      ValAtLeast(10, dd);
      ScaledSign(Val(10, dd), n - len);
    } else if Canonical(10, tok) && tok != [ZERO] {
      CanonicalZero(10, tok);
      ScaledSign(Val(10, tok), 0);
    }
  }

  /** Without separators the numeral read is the text itself, character by character. */
  lemma ReadsVerbatim(line: seq<Byte>, p: nat, lptr: nat, sep: Byte, d: Decimal)
    requires Reads(line, p, lptr, sep, d) && sep !in line[p..lptr - |d.mark|]
    ensures line[p..lptr] == d.Spelling()
  {
    SpellsVerbatim(line, p, lptr, sep, d.Front(), d.mark);
    FrontAndMark(d);
  }

  lemma SpellsVerbatim(line: seq<Byte>, p: nat, e: nat, sep: Byte, text: seq<Byte>, mark: seq<Byte>)
    requires SpellsAnd(line, p, e, sep, text, mark) && sep !in line[p..e - |mark|]
    ensures line[p..e] == text + mark
  {
    MarkBehind(line, p, e, sep, text, mark);
    StripNothing(line[p..e - |mark|], sep);
  }

  // ---------- the numeral that is read is the one that is written ----------

  /** Nothing in `rest` continues the numeral `d` in front of it. */
  ghost predicate Closed(d: Decimal, rest: seq<Byte>) {
    && rest != [] && !IsDigit(rest[0]) && (d.mark == [] ==> !StartsExpo(rest))
    && (d.mark == [] && !d.dot ==> rest[0] != DOT)
  }

  lemma SameMark(m1: seq<Byte>, x1: int, rest1: seq<Byte>, m2: seq<Byte>, x2: int, rest2: seq<Byte>)
    requires ExpoMark(m1, x1) && ExpoMark(m2, x2) && m1 + rest1 == m2 + rest2
    requires rest1 != [] && !IsDigit(rest1[0]) && rest2 != [] && !IsDigit(rest2[0])
    ensures m1 == m2 && x1 == x2 && rest1 == rest2
  {
    var s := m1 + rest1;
    var n := if m1[1] == PLUS || m1[1] == MINUS then 2 else 1;
    assert m1[..n] == s[..n] && m2[1] == s[1] && m2[..n] == s[..n];
    assert s[n..] == m1[n..] + rest1 && s[n..] == m2[n..] + rest2;
    SameRun(m1[n..], rest1, m2[n..], rest2);
    assert m1 == m1[..n] + m1[n..] && m2 == m2[..n] + m2[n..];
  }

  lemma MarkStartsExpo(mark: seq<Byte>, x: int, rest: seq<Byte>)
    requires ExpoMark(mark, x)
    ensures StartsExpo(mark + rest)
  {
    var s := mark + rest;
    assert s[0] == mark[0] && s[1] == mark[1] && (|mark| >= 3 ==> s[2] == mark[2]);
    if mark[1] == PLUS || mark[1] == MINUS {
      assert IsDigit(mark[2..][0]);
    } else {
      assert IsDigit(mark[1..][0]);
    }
  }

  lemma SameExponent(d1: Decimal, rest1: seq<Byte>, d2: Decimal, rest2: seq<Byte>)
    requires d1.Valid() && d2.Valid() && Closed(d1, rest1) && Closed(d2, rest2) && d1.mark + rest1 == d2.mark + rest2
    ensures d1.mark == d2.mark && d1.x == d2.x && rest1 == rest2
  {
    assert d1.mark == [] ==> d1.mark + rest1 == rest1;
    assert d2.mark == [] ==> d2.mark + rest2 == rest2;
    if d1.mark != [] {
      MarkStartsExpo(d1.mark, d1.x, rest1);
    }
    if d2.mark != [] {
      MarkStartsExpo(d2.mark, d2.x, rest2);
    }
    if d1.mark != [] {
      SameMark(d1.mark, d1.x, rest1, d2.mark, d2.x, rest2);
    }
  }

  lemma BehindParts(d: Decimal, rest: seq<Byte>)
    requires d.Valid() && Closed(d, rest)
    ensures var u := d.AfterInteger() + rest; !IsDigit(u[0]) && (d.dot <==> u[0] == DOT)
    ensures !IsDigit((d.mark + rest)[0])
    ensures d.dot ==> (d.AfterInteger() + rest)[1..] == d.fp + (d.mark + rest)
  {
    BehindInteger(d);
    if d.dot {
      Assoc(d.fp, d.mark, rest);
      assert (d.AfterInteger() + rest)[1..] == d.AfterInteger()[1..] + rest;
    }
  }

  /** Of two numerals at the front of one text that nothing continues, both are the same. */
  lemma WrittenOnce(d1: Decimal, rest1: seq<Byte>, d2: Decimal, rest2: seq<Byte>)
    requires d1.Valid() && d2.Valid() && Closed(d1, rest1) && Closed(d2, rest2)
    requires d1.Spelling() + rest1 == d2.Spelling() + rest2
    ensures d1 == d2 && rest1 == rest2
  {
    BehindParts(d1, rest1);
    BehindParts(d2, rest2);
    Assoc(d1.ip, d1.AfterInteger(), rest1);
    Assoc(d2.ip, d2.AfterInteger(), rest2);
    SameRun(d1.ip, d1.AfterInteger() + rest1, d2.ip, d2.AfterInteger() + rest2);
    if d1.dot {
      SameRun(d1.fp, d1.mark + rest1, d2.fp, d2.mark + rest2);
    }
    SameExponent(d1, rest1, d2, rest2);
  }

  /** A separator at `i` stands between two digits. */
  ghost predicate Placed(g: seq<Byte>, i: nat, sep: Byte) {
    i < |g| && (IsDigit(g[i]) || (g[i] == sep && 0 < i < |g| - 1 && IsDigit(g[i - 1]) && IsDigit(g[i + 1])))
  }

  /** `g` is the digits of `run`, with single separators between some of them. */
  ghost predicate Grouped(g: seq<Byte>, run: seq<Byte>, sep: Byte) {
    Strip(g, sep) == run && forall i: nat :: i < |g| ==> Placed(g, i, sep)
  }

  /** Nothing continues the digits that end in front of `w`, neither at once nor behind a separator. */
  ghost predicate Stops(r: seq<Byte>, w: seq<Byte>, sep: Byte) {
    && w != [] && !IsDigit(w[0])
    && (w[0] == sep && |w| > 1 && r != [] && IsDigit(r[|r| - 1]) ==> !IsDigit(w[1]))
  }

  /** The digits read are no more than the group of digits that stands there. */
  lemma NotBeyond(g: seq<Byte>, u: seq<Byte>, r: seq<Byte>, w: seq<Byte>, sep: Byte)
    requires g + u == r + w && Digits(Strip(r, sep)) && u != [] && !IsDigit(u[0]) && u[0] != sep
    ensures |r| <= |g|
  {
    if |g| < |r| {
      assert r[|g|] == (r + w)[|g|] == u[0];
      StripKeeps(r, |g|, sep);
    }
  }

  /** The digits read are no fewer than the group of digits that stands there. */
  lemma NotBefore(g: seq<Byte>, u: seq<Byte>, r: seq<Byte>, w: seq<Byte>, sep: Byte)
    requires g + u == r + w && Grouped(g, Strip(g, sep), sep) && Stops(r, w, sep)
    ensures |g| <= |r|
  {
    var s := r + w;
    assert s[|r|] == w[0] && (|w| > 1 ==> s[|r| + 1] == w[1]) && (r != [] ==> s[|r| - 1] == r[|r| - 1]);
    assert forall i {:trigger g[i]} :: 0 <= i < |g| ==> s[i] == g[i];
    var k: nat := |r|;
    assert k < |g| ==> Placed(g, k, sep);
  }

  /** The digits read are those of the group of digits that stands there. */
  lemma SameGroup(g: seq<Byte>, u: seq<Byte>, r: seq<Byte>, w: seq<Byte>, sep: Byte)
    requires g + u == r + w && Grouped(g, Strip(g, sep), sep) && Digits(Strip(r, sep))
    requires u != [] && !IsDigit(u[0]) && u[0] != sep && Stops(r, w, sep)
    ensures g == r && u == w
  {
    var s := g + u;
    NotBeyond(g, u, r, w, sep);
    NotBefore(g, u, r, w, sep);
    assert g == s[..|g|] == r && u == s[|g|..] == w;
  }

  lemma {:induction false} StripOnly(s: seq<Byte>, ch: Byte, sep: Byte)
    requires ch in Strip(s, sep)
    ensures ch in s
    decreases |s|
  {
    var front, last := s[..|s| - 1], s[|s| - 1];
    if last == sep || last != ch {
      StripOnly(front, ch, sep);
      assert s == front + [last];
    }
  }

  /** Only one point stands in a text of digits and a point. */
  lemma SamePoint(a: seq<Byte>, b: seq<Byte>, ip: seq<Byte>, fp: seq<Byte>)
    requires a + ([DOT] + b) == ip + ([DOT] + fp) && Digits(ip) && Digits(fp)
    ensures a == ip && b == fp
  {
    var s := a + ([DOT] + b);
    assert s[|a|] == DOT && s[|a| + 1..] == b && s[|ip| + 1..] == fp;
    assert forall i :: 0 <= i < |ip| ==> s[i] == ip[i];
    assert forall i :: |ip| < i < |s| ==> s[i] == fp[i - |ip| - 1];
    assert |a| == |ip|;
    assert a == s[..|a|] && ip == s[..|ip|];
  }

  /** Where the point stands in a text that is spelled with one. */
  lemma PointAt(s: seq<Byte>, sep: Byte, ip: seq<Byte>, fp: seq<Byte>) returns (a: seq<Byte>, b: seq<Byte>)
    requires Strip(s, sep) == ip + ([DOT] + fp) && sep != DOT && Digits(ip) && Digits(fp)
    ensures s == a + ([DOT] + b) && Strip(a, sep) == ip && Strip(b, sep) == fp
  {
    assert Strip(s, sep)[|ip|] == DOT;
    StripOnly(s, DOT, sep);
    var c :| 0 <= c < |s| && s[c] == DOT;
    a, b := s[..c], s[c + 1..];
    assert s == a + ([DOT] + b);
    StripAppend(a, [DOT] + b, sep);
    StripAppend([DOT], b, sep);
    StripNothing([DOT], sep);
    SamePoint(Strip(a, sep), Strip(b, sep), ip, fp);
  }

  /** The parts of a numeral that is read, in the text. */
  lemma FrontParts(front: seq<Byte>, sep: Byte, d: Decimal) returns (ri: seq<Byte>, rf: seq<Byte>)
    requires d.Valid() && Strip(front, sep) == d.Front() && sep != DOT
    ensures Strip(ri, sep) == d.ip && Strip(rf, sep) == d.fp && front == FrontAs(ri, d.dot, rf)
  {
    if d.dot {
      ri, rf := PointAt(front, sep, d.ip, d.fp);
    } else {
      ri, rf := front, [];
      assert front + [] == front && d.ip + [] == d.ip;
    }
  }

  /** Integer digits and, with a point, fraction digits, grouped by separators or not. */
  ghost function FrontAs(gi: seq<Byte>, dot: bool, gf: seq<Byte>): seq<Byte> {
    gi + if dot then [DOT] + gf else []
  }

  /** What stands behind the integer digits of a numeral in front of `rest`. */
  ghost function Behind(dot: bool, gf: seq<Byte>, mark: seq<Byte>, rest: seq<Byte>): seq<Byte> {
    if dot then [DOT] + (gf + (mark + rest)) else mark + rest
  }

  lemma BehindFront(gi: seq<Byte>, dot: bool, gf: seq<Byte>, mark: seq<Byte>, rest: seq<Byte>)
    ensures (FrontAs(gi, dot, gf) + mark) + rest == gi + Behind(dot, gf, mark, rest)
  {
    assert FrontAs(gi, dot, gf) + mark + rest == gi + Behind(dot, gf, mark, rest);
  }

  /** What stands behind the digits of a numeral begins with no digit, and with no separator that continues them. */
  lemma BehindStops(d: Decimal, r: seq<Byte>, gf: seq<Byte>, rest: seq<Byte>, sep: Byte)
    requires d.Valid() && Closed(d, rest) && IsSeparator(sep)
    requires d.mark == [] ==> Stops(if d.dot then gf else r, rest, sep)
    ensures var u := Behind(d.dot, gf, d.mark, rest); Stops(r, u, sep) && (d.dot <==> u[0] == DOT)
    ensures d.dot ==> Stops(gf, d.mark + rest, sep) && Behind(d.dot, gf, d.mark, rest)[1..] == gf + (d.mark + rest)
  {
    assert d.mark == [] ==> d.mark + rest == rest;
  }

  lemma BehindNoSeparator(d: Decimal, gf: seq<Byte>, rest: seq<Byte>, sep: Byte)
    requires d.Valid() && Closed(d, rest) && IsSeparator(sep) && (d.mark == [] ==> rest[0] != sep)
    ensures var u := Behind(d.dot, gf, d.mark, rest); u != [] && u[0] != sep && (d.mark + rest)[0] != sep
  {}

  /** A numeral that is written with grouped digits, and one that is read from the same text, are the same. */
  lemma SameGroups(w: Decimal, gi: seq<Byte>, gf: seq<Byte>, rest: seq<Byte>,
                   d: Decimal, ri: seq<Byte>, rf: seq<Byte>, left: seq<Byte>, sep: Byte)
    requires w.Valid() && Grouped(gi, w.ip, sep) && Grouped(gf, w.fp, sep) && IsSeparator(sep)
    requires Closed(w, rest) && (w.mark == [] ==> rest[0] != sep)
    requires d.Valid() && Strip(ri, sep) == d.ip && Strip(rf, sep) == d.fp && Closed(d, left)
    requires d.mark == [] ==> Stops(if d.dot then rf else ri, left, sep)
    requires gi + Behind(w.dot, gf, w.mark, rest) == ri + Behind(d.dot, rf, d.mark, left)
    ensures d == w && left == rest
  {
    BehindStops(w, gi, gf, rest, sep);
    BehindNoSeparator(w, gf, rest, sep);
    BehindStops(d, ri, rf, left, sep);
    SameGroup(gi, Behind(w.dot, gf, w.mark, rest), ri, Behind(d.dot, rf, d.mark, left), sep);
    if d.dot {
      SameGroup(gf, w.mark + rest, rf, d.mark + left, sep);
    }
    SameExponent(d, left, w, rest);
  }

  /** The parts of a numeral that is read, in the text, and what follows them. */
  lemma ReadParts(line: seq<Byte>, p: nat, lptr: nat, sep: Byte, d: Decimal) returns (ri: seq<Byte>, rf: seq<Byte>)
    requires ReadsAll(line, p, lptr, sep, d) && sep != DOT
    ensures Strip(ri, sep) == d.ip && Strip(rf, sep) == d.fp && Closed(d, line[lptr..])
    ensures d.mark == [] ==> Stops(if d.dot then rf else ri, line[lptr..], sep)
    ensures line[p..] == (FrontAs(ri, d.dot, rf) + d.mark) + line[lptr..]
  {
    MarkBehind(line, p, lptr, sep, d.Front(), d.mark);
    ri, rf := FrontParts(line[p..lptr - |d.mark|], sep, d);
    StopsAt(line, p, lptr, sep, d, ri, rf);
    ClosedAt(line, p, lptr, sep, d);
  }

  lemma ClosedAt(line: seq<Byte>, p: nat, lptr: nat, sep: Byte, d: Decimal)
    requires ReadsAll(line, p, lptr, sep, d)
    ensures Closed(d, line[lptr..]) && line[p..] == line[p..lptr] + line[lptr..]
  {}

  lemma StopsAt(line: seq<Byte>, p: nat, lptr: nat, sep: Byte, d: Decimal, ri: seq<Byte>, rf: seq<Byte>)
    requires p <= lptr && Ends(line, lptr, sep, d.mark) && (d.mark == [] ==> line[p..lptr] == FrontAs(ri, d.dot, rf))
    ensures d.mark == [] ==> Stops(if d.dot then rf else ri, line[lptr..], sep)
  {
    if d.mark == [] {
      assert p < lptr ==> line[p..lptr][lptr - p - 1] == line[lptr - 1];
    }
  }

  /** The integer digits of a numeral that is read from `p` on end at `a`, where its point stands if it has one. */
  ghost predicate PartsAt(line: seq<Byte>, p: nat, a: nat, q: nat, sep: Byte, d: Decimal) {
    && p <= a <= q <= |line| && Strip(line[p..a], sep) == d.ip
    && if d.dot then a < q && line[a] == DOT && Strip(line[a + 1..q], sep) == d.fp else a == q
  }

  lemma PartsIn(line: seq<Byte>, p: nat, q: nat, sep: Byte, d: Decimal) returns (a: nat)
    requires d.Valid() && p <= q <= |line| && Strip(line[p..q], sep) == d.Front() && sep != DOT
    ensures PartsAt(line, p, a, q, sep, d)
  {
    var front := line[p..q];
    var ri, rf := FrontParts(front, sep, d);
    a := p + |ri|;
    PartsCut(line, p, a, q, d.dot, ri, rf);
  }

  lemma PartsCut(line: seq<Byte>, p: nat, a: nat, q: nat, dot: bool, ri: seq<Byte>, rf: seq<Byte>)
    requires p <= q <= |line| && line[p..q] == FrontAs(ri, dot, rf) && a == p + |ri|
    ensures a <= q && line[p..a] == ri
    ensures if dot then a < q && line[a] == DOT && line[a + 1..q] == rf else a == q
  {
    var s := line[p..q];
    assert line[p..a] == s[..|ri|];
    if dot {
      assert line[a] == s[|ri|] && line[a + 1..q] == s[|ri| + 1..];
    }
  }

  /** Behind a separator that ends a run stands neither a digit nor a separator. */
  lemma NothingGoesOn(line: seq<Byte>, p: nat, a: nat, q: nat, sep: Byte)
    requires p < a && a + 1 < q <= |line| && IsSeparator(sep) && line[a] == sep
    requires IsDigit(line[a - 1]) && RunEnds(line, a, sep, 10)
    requires forall i: nat :: p <= i < q ==> Apart(line, p, q, i, sep)
    ensures !IsDigit(line[a + 1]) && line[a + 1] != sep
  {
    var k: nat := a + 1;
    assert Apart(line, p, q, k, sep);
  }

  /** Of two runs of digits from `s` on, as they are read, the one goes on behind the other only by one separator behind
      zeros. */
  lemma RunOnce(line: seq<Byte>, p: nat, s: nat, a: nat, b: nat, q: nat, sep: Byte)
    requires p <= s <= a < b <= q <= |line| && IsSeparator(sep) && (s > p ==> line[s - 1] == DOT)
    requires Digits(Strip(line[s..b], sep)) && !IsDigit(line[a]) && (line[a] == sep ==> RunEnds(line, a, sep, 10))
    requires forall i: nat :: p <= i < q ==> Apart(line, p, q, i, sep)
    requires b < q ==> line[b] == DOT
    ensures b == a + 1 && line[a] == sep && a > p && IsDigit(line[a - 1]) && Trailing(line, p, q, a, sep)
  {
    RunChar(line, s, a, b, sep);
    assert Apart(line, p, q, a, sep);
    if a > s {
      RunChar(line, s, a - 1, b, sep);
    }
    if a + 1 < b {
      NothingGoesOn(line, p, a, q, sep);
      RunChar(line, s, a + 1, b, sep);
    }
  }

  /** What stands at `q` goes on with no digits in front of it. */
  ghost predicate Followed(line: seq<Byte>, p: nat, q: nat, sep: Byte, dot: bool) {
    && q < |line| && !IsDigit(line[q])
    && (line[q] == sep ==> RunEnds(line, q, sep, 10) && Passes(line, p, q, sep, dot))
  }

  /** What stands behind the integer digits of a numeral that is read. */
  lemma IntegerEnds(line: seq<Byte>, p: nat, a: nat, lptr: nat, sep: Byte, d: Decimal)
    requires ReadsAll(line, p, lptr, sep, d) && PartsAt(line, p, a, lptr - |d.mark|, sep, d) && IsSeparator(sep)
    ensures Followed(line, p, a, sep, false) && (d.dot <==> line[a] == DOT)
  {
    if !d.dot && d.mark != [] {
      assert line[a..lptr][0] == line[a];
    }
  }

  /** What stands behind the fraction digits of a numeral that is read. */
  lemma FractionEnds(line: seq<Byte>, p: nat, q: nat, lptr: nat, sep: Byte, d: Decimal)
    requires ReadsAll(line, p, lptr, sep, d) && q == lptr - |d.mark| && d.dot && IsSeparator(sep)
    ensures Followed(line, p, q, sep, true) && (line[q] == sep ==> d.mark == [])
  {
    if d.mark != [] {
      assert line[q..lptr][0] == line[q];
    }
  }

  lemma IntegerOnce(line: seq<Byte>, p: nat, sep: Byte, a1: nat, a2: nat, q2: nat)
    requires p <= a1 && Followed(line, p, a1, sep, false) && IsSeparator(sep)
    requires p <= a2 <= q2 <= |line| && Digits(Strip(line[p..a2], sep)) && a2 < |line|
    requires forall i: nat :: p <= i < q2 ==> Apart(line, p, q2, i, sep)
    requires a2 < q2 <==> line[a2] == DOT
    ensures a1 >= a2
  {
    if a1 < a2 {
      RunOnce(line, p, p, a1, a2, q2, sep);
    }
  }

  lemma FractionOnce(line: seq<Byte>, p: nat, sep: Byte, a: nat, q1: nat, q2: nat)
    requires p <= a < q1 < q2 < |line| && line[a] == DOT && IsSeparator(sep)
    requires Followed(line, p, q1, sep, true) && Digits(Strip(line[a + 1..q2], sep))
    requires forall i: nat :: p <= i < q2 ==> Apart(line, p, q2, i, sep)
    ensures q2 == q1 + 1 && line[q1] == line[q2] == sep && Strip(line[a + 1..q1], sep) == Strip(line[a + 1..q2], sep)
  {
    RunOnce(line, p, a + 1, q1, q2, q2, sep);
    StripBack(line, a + 1, q1, q2, sep);
  }

  lemma MarkOnce(rest: seq<Byte>, left1: seq<Byte>, d1: Decimal, left2: seq<Byte>, d2: Decimal)
    requires d1.Valid() && Closed(d1, left1) && d1.mark + left1 == rest
    requires d2.Valid() && Closed(d2, left2) && d2.mark + left2 == rest
    ensures d1.mark == d2.mark && d1.x == d2.x && |left1| == |left2|
  {
    SameExponent(d1, left1, d2, left2);
  }

  /** A numeral that is read by its parts: digits up to `a`, with a point there digits up to `q`, then the exponent. */
  ghost predicate Parsed(line: seq<Byte>, p: nat, a: nat, q: nat, lptr: nat, sep: Byte, d: Decimal) {
    && PartsAt(line, p, a, q, sep, d) && d.Valid() && a < |line| && q < |line| && q + |d.mark| == lptr
    && Followed(line, p, a, sep, false) && (d.dot <==> line[a] == DOT)
    && (d.dot ==> Followed(line, p, q, sep, true) && (line[q] == sep ==> d.mark == []))
    && lptr < |line| && Closed(d, line[lptr..]) && d.mark + line[lptr..] == line[q..]
    && forall i: nat :: p <= i < q ==> Apart(line, p, q, i, sep)
  }

  lemma MarkFollows(line: seq<Byte>, p: nat, q: nat, lptr: nat, sep: Byte, text: seq<Byte>, mark: seq<Byte>)
    requires SpellsAnd(line, p, lptr, sep, text, mark) && q == lptr - |mark|
    ensures p <= q <= lptr <= |line| && mark + line[lptr..] == line[q..] && Strip(line[p..q], sep) == text
    ensures forall i: nat :: p <= i < q ==> Apart(line, p, q, i, sep)
  {
    SplitAt(line, q, lptr, mark);
  }

  lemma SplitAt(line: seq<Byte>, q: nat, lptr: nat, mark: seq<Byte>)
    requires q <= lptr <= |line| && line[q..lptr] == mark
    ensures mark + line[lptr..] == line[q..]
  {}

  lemma Parse(line: seq<Byte>, p: nat, lptr: nat, sep: Byte, d: Decimal) returns (a: nat, q: nat)
    requires ReadsAll(line, p, lptr, sep, d) && IsSeparator(sep)
    ensures Parsed(line, p, a, q, lptr, sep, d)
  {
    q := lptr - |d.mark|;
    MarkFollows(line, p, q, lptr, sep, d.Front(), d.mark);
    a := PartsIn(line, p, q, sep, d);
    IntegerEnds(line, p, a, lptr, sep, d);
    if d.dot {
      FractionEnds(line, p, q, lptr, sep, d);
    }
    ClosedAt(line, p, lptr, sep, d);
  }

  lemma SameInteger(line: seq<Byte>, p: nat, sep: Byte, a1: nat, q1: nat, l1: nat, d1: Decimal,
                    a2: nat, q2: nat, l2: nat, d2: Decimal)
    requires Parsed(line, p, a1, q1, l1, sep, d1) && Parsed(line, p, a2, q2, l2, sep, d2) && IsSeparator(sep)
    ensures a1 == a2 && d1.ip == d2.ip && d1.dot == d2.dot
  {
    IntegerOnce(line, p, sep, a1, a2, q2);
    IntegerOnce(line, p, sep, a2, a1, q1);
  }

  /** Two separators stand at `l1`. */
  ghost predicate Doubled(line: seq<Byte>, l1: nat, l2: nat, sep: Byte) {
    l2 == l1 + 1 < |line| && line[l1] == line[l2] == sep
  }

  lemma SameTail(line: seq<Byte>, p: nat, sep: Byte, a: nat, q1: nat, l1: nat, d1: Decimal,
                 q2: nat, l2: nat, d2: Decimal)
    requires Parsed(line, p, a, q1, l1, sep, d1) && Parsed(line, p, a, q2, l2, sep, d2) && IsSeparator(sep)
    requires d1.ip == d2.ip && d1.dot == d2.dot && q1 <= q2
    ensures d1 == d2 && (l1 == l2 || (d1.dot && Doubled(line, l1, l2, sep)))
  {
    if q1 < q2 {
      FractionOnce(line, p, sep, a, q1, q2);
    } else {
      MarkOnce(line[q1..], line[l1..], d1, line[l2..], d2);
    }
  }

  /** At one place of a line one numeral only can be read, and up to one place, except that of two separators behind a
      fraction of zeros the first is passed or not. */
  lemma ReadOnce(line: seq<Byte>, p: nat, sep: Byte, l1: nat, d1: Decimal, l2: nat, d2: Decimal)
    requires ReadsAll(line, p, l1, sep, d1) && ReadsAll(line, p, l2, sep, d2) && IsSeparator(sep)
    ensures d1 == d2
    ensures l1 == l2 || (d1.dot && (Doubled(line, l1, l2, sep) || Doubled(line, l2, l1, sep)))
  {
    var a1, q1 := Parse(line, p, l1, sep, d1);
    var a2, q2 := Parse(line, p, l2, sep, d2);
    SameInteger(line, p, sep, a1, q1, l1, d1, a2, q2, l2, d2);
    if q1 <= q2 {
      SameTail(line, p, sep, a1, q1, l1, d1, q2, l2, d2);
    } else {
      SameTail(line, p, sep, a1, q2, l2, d2, q1, l1, d1);
    }
  }

  /** Where a numeral is written at `p`, with or without separators between its digits, and nothing behind it
      continues it, that numeral and no other is read, to its end. */
  lemma ReadsWhatIsWritten(line: seq<Byte>, p: nat, lptr: nat, sep: Byte, d: Decimal,
                           written: Decimal, gi: seq<Byte>, gf: seq<Byte>, rest: seq<Byte>)
    requires ReadsAll(line, p, lptr, sep, d) && IsSeparator(sep)
    requires written.Valid() && Grouped(gi, written.ip, sep) && Grouped(gf, written.fp, sep)
    requires Closed(written, rest) && (written.mark == [] ==> rest[0] != sep)
    requires line[p..] == (FrontAs(gi, written.dot, gf) + written.mark) + rest
    ensures d == written && line[lptr..] == rest
  {
    var ri, rf := ReadParts(line, p, lptr, sep, d);
    BehindFront(gi, written.dot, gf, written.mark, rest);
    BehindFront(ri, d.dot, rf, d.mark, line[lptr..]);
    SameGroups(written, gi, gf, rest, d, ri, rf, line[lptr..], sep);
  }
}
