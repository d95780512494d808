/** Conversion of radix numerals to hexadecimal and decimal text (src/uls_num.c). */
module HexConv {
  import opened Arith
  import opened Bytes
  import opened DecStr
  import opened Numerals
  import opened OutBufs

  // ---------- radixes whose digits are bit groups ----------

  /** `t` is the hexadecimal text printed so far, `rest` the digits still to read; together they stand for `v`. */
  ghost predicate Regrouping(base: nat, t: seq<Byte>, rest: seq<Byte>, v: int) {
    IsNumeral(16, t) && UpperCase(t) && v == ValFrom(base, Val(16, t), rest)
  }

  lemma PrintNibble(base: nat, t: seq<Byte>, g: seq<Byte>, rest: seq<Byte>, v: int, h: nat)
    requires Regrouping(base, t, g + rest, v) && h == Val(base, g) < 16
    requires Pow(base, |g|) == 16 || t == []
    ensures Regrouping(base, t + [Num2CharRadix(h)], rest, v)
    ensures h == 0 && t == [] ==> Regrouping(base, t, rest, v)
  {
    ValAppend(base, Val(16, t), g, rest);
    ValShift(base, Val(16, t), g);
    DigitRoundTrip(h, 36);
    DigitRoundTrip(h, 16);
    ValSnoc(16, 0, t, Num2CharRadix(h));
  }

  // binstr2hexval
  method Binstr2Hexval(s: seq<Byte>, at: nat, m: nat) returns (hexVal: nat)
    requires at + m <= |s| && m <= 4 && IsNumeral(2, s)
    ensures hexVal == Val(2, s[at..at + m]) && hexVal < 16
  {
    hexVal := 0;
    for j := 0 to m
      invariant hexVal == Val(2, s[at..at + j])
    {
      assert s[at..at + j + 1] == s[at..at + j] + [s[at + j]];
      ValSnoc(2, 0, s[at..at + j], s[at + j]);
      hexVal := 2 * hexVal + (s[at + j] - ZERO);
    }
    ValBelow(2, s[at..at + m]);
    PowMonotone(2, 2, m, 4);
  }

  lemma LeadingDigit(base: nat, g: seq<Byte>)
    requires base >= 2 && IsNumeral(base, g) && g != [] && g[0] != ZERO
    ensures Val(base, g) > 0
  {
    PowPositive(base, |g| - 1);
    ValBounds(base, DigitOf(g[0]), g[1..]);
    assert Val(base, g) == ValFrom(base, DigitOf(g[0]), g[1..]);
    MulMono(1, DigitOf(g[0]), Pow(base, |g| - 1), Pow(base, |g| - 1));
  }

  /** `k` hexadecimal digits at `q`, closed by a NUL, that denote `v`. */
  ghost predicate HexAt(row: seq<Byte>, q: nat, k: nat, v: int) {
    && k > 0 && q + k < |row| && row[q + k] == NUL
    && IsNumeral(16, row[q..q + k]) && UpperCase(row[q..q + k]) && Val(16, row[q..q + k]) == v
  }

  /** Hexadecimal digits without a leading zero are the canonical text. */
  lemma HexText(row: seq<Byte>, q: nat, k: nat, v: nat)
    requires HexAt(row, q, k, v) && (k > 1 ==> row[q] != ZERO)
    ensures row[q..q + k] == Text(16, v)
  {
    CanonicalIsText(16, row[q..q + k]);
  }

  // One group of four digits
  method PutGroup(numstr: seq<Byte>, lptr: nat, out: array<Byte>, q: nat, k: nat, ghost v: int)
    requires IsNumeral(2, numstr) && lptr + 4 <= |numstr| && q + k < out.Length
    requires Regrouping(2, out[q..q + k], numstr[lptr..], v)
    modifies out
    ensures Regrouping(2, out[q..q + (k + 1)], numstr[lptr + 4..], v) && (numstr[lptr] != ZERO ==> out[q + k] != ZERO)
    ensures forall x :: 0 <= x < out.Length && x != q + k ==> out[x] == old(out[x])
  {
    ghost var t, g := out[q..q + k], numstr[lptr..lptr + 4];
    var hVal := Binstr2Hexval(numstr, lptr, 4);
    assert numstr[lptr..] == g + numstr[lptr + 4..];
    PrintNibble(2, t, g, numstr[lptr + 4..], v, hVal);
    if g[0] != ZERO {
      LeadingDigit(2, g);
    }
    DigitRoundTrip(hVal, 16);
    out[q + k] := Num2CharRadix(hVal);
    assert out[q..q + (k + 1)] == t + [Num2CharRadix(hVal)];
  }

  // The group loop of uls_bin2hex_str: `n` groups of four digits, from digit `at` on.
  method BinGroups(numstr: seq<Byte>, at: nat, n: nat, out: array<Byte>, q: nat, k0: nat) returns (k: nat)
    requires IsNumeral(2, numstr) && |numstr| == at + 4 * n && q + k0 + n < out.Length
    requires Regrouping(2, out[q..q + k0], numstr[at..], Val(2, numstr)) && (k0 > 0 ==> out[q] != ZERO)
    modifies out
    ensures k == k0 + n && Regrouping(2, out[q..q + k], [], Val(2, numstr))
    ensures k > 0 && (k0 > 0 || numstr[at] != ZERO) ==> out[q] != ZERO
    ensures forall x :: 0 <= x < q || q + k <= x < out.Length ==> out[x] == old(out[x])
  {
    ghost var v := Val(2, numstr);
    var lptr := at;
    k := k0;
    for i := 0 to n
      invariant lptr == at + 4 * i && k == k0 + i
      invariant Regrouping(2, out[q..q + k], numstr[lptr..], v)
      invariant k > 0 && (k0 > 0 || numstr[at] != ZERO) ==> out[q] != ZERO
      invariant forall x :: 0 <= x < q || q + k <= x < out.Length ==> out[x] == old(out[x])
    {
      PutGroup(numstr, lptr, out, q, k, v);
      k, lptr := k + 1, lptr + 4;
    }
    assert numstr[lptr..] == [];
  }

  // uls_bin2hex_str, the digits in front of the groups
  method BinFront(numstr: seq<Byte>, m: nat, out: array<Byte>, q: nat) returns (k: nat)
    requires IsNumeral(2, numstr) && m < 4 && m <= |numstr| && q < out.Length
    modifies out
    ensures k <= 1 && k <= m && Regrouping(2, out[q..q + k], numstr[m..], Val(2, numstr)) && (k > 0 ==> out[q] != ZERO)
    ensures m > 0 && numstr[0] != ZERO ==> k > 0
    ensures forall x :: 0 <= x < out.Length && (x != q || k == 0) ==> out[x] == old(out[x])
  {
    k := 0;
    assert numstr == numstr[..m] + numstr[m..] && out[q..q + 0] == [];
    if m > 0 {
      var hVal := Binstr2Hexval(numstr, 0, m);
      assert numstr[0..m] == numstr[..m];
      PrintNibble(2, [], numstr[..m], numstr[m..], Val(2, numstr), hVal);
      DigitRoundTrip(hVal, 16);
      if hVal != 0 {
        out[q] := Num2CharRadix(hVal);
        k := 1;
        assert out[q..q + 1] == [] + [Num2CharRadix(hVal)];
      } else if numstr[0] != ZERO {
        LeadingDigit(2, numstr[..m]);
      }
    }
  }

  // A zero where no digit was printed, and the terminator
  method CloseHex(out: array<Byte>, q: nat, k0: nat, ghost base: nat, ghost v: int) returns (k: nat)
    requires q + k0 < out.Length && q + 1 < out.Length && Regrouping(base, out[q..q + k0], [], v)
    modifies out
    ensures k == (if k0 == 0 then 1 else k0) && HexAt(out[..], q, k, v) && (k0 > 0 ==> out[q] == old(out[q]))
    ensures forall x :: 0 <= x < q || q + k < x < out.Length ==> out[x] == old(out[x])
  {
    k := k0;
    if k <= 0 {
      out[q + k] := ZERO;
      k := k + 1;
      ValSnoc(16, 0, [], ZERO);
      assert out[q..q + 1] == [] + [ZERO];
    }
    ghost var t := out[q..q + k];
    out[q + k] := NUL;
    assert out[q..q + k] == t;
  }

  // uls_bin2hex_str
  method Bin2HexStr(numstr: seq<Byte>, out: array<Byte>, q: nat) returns (k: nat)
    requires IsNumeral(2, numstr) && q + 1 < out.Length && q + |numstr| < out.Length
    modifies out
    ensures HexAt(out[..], q, k, Val(2, numstr)) && k <= 1 + |numstr|
    ensures Canonical(2, numstr) ==> out[q..q + k] == Text(16, Val(2, numstr))
    ensures forall x :: 0 <= x < q || q + k < x < out.Length ==> out[x] == old(out[x])
  {
    var n, m := |numstr| / 4, |numstr| % 4;
    k := BinFront(numstr, m, out, q);
    k := BinGroups(numstr, m, n, out, q, k);
    k := CloseHex(out, q, k, 2, Val(2, numstr));
    if Canonical(2, numstr) {
      HexText(out[..], q, k, Val(2, numstr));
    }
  }

  lemma TwoQuats(a: Byte, b: Byte)
    requires IsNumRadix(a, 4) >= 0 && IsNumRadix(b, 4) >= 0
    ensures Val(4, [a]) == a - ZERO < 4 && Val(4, [a, b]) == 4 * (a - ZERO) + (b - ZERO) < 16
    ensures Pow(4, 2) == 16
  {
    ValSnoc(4, 0, [], a);
    ValSnoc(4, 0, [a], b);
    assert [] + [a] == [a] && [a] + [b] == [a, b];
    assert Pow(4, 1) == 4 * Pow(4, 0);
  }

  // One pair of digits
  method PutPair(numstr: seq<Byte>, lptr: nat, out: array<Byte>, q: nat, k: nat, ghost v: int)
    requires IsNumeral(4, numstr) && lptr + 2 <= |numstr| && q + k < out.Length
    requires Regrouping(4, out[q..q + k], numstr[lptr..], v)
    modifies out
    ensures Regrouping(4, out[q..q + (k + 1)], numstr[lptr + 2..], v) && (numstr[lptr] != ZERO ==> out[q + k] != ZERO)
    ensures forall x :: 0 <= x < out.Length && x != q + k ==> out[x] == old(out[x])
  {
    ghost var t := out[q..q + k];
    TwoQuats(numstr[lptr], numstr[lptr + 1]);
    var hVal := 4 * (numstr[lptr] - ZERO) + (numstr[lptr + 1] - ZERO);
    assert numstr[lptr..] == [numstr[lptr], numstr[lptr + 1]] + numstr[lptr + 2..];
    PrintNibble(4, t, [numstr[lptr], numstr[lptr + 1]], numstr[lptr + 2..], v, hVal);
    DigitRoundTrip(hVal, 16);
    out[q + k] := Num2CharRadix(hVal);
    assert out[q..q + (k + 1)] == t + [Num2CharRadix(hVal)];
  }

  // The pair loop of uls_quat2hex_str
  method QuatPairs(numstr: seq<Byte>, at: nat, n: nat, out: array<Byte>, q: nat, k0: nat) returns (k: nat)
    requires IsNumeral(4, numstr) && |numstr| == at + 2 * n && q + k0 + n < out.Length
    requires Regrouping(4, out[q..q + k0], numstr[at..], Val(4, numstr))
    requires k0 == at && (k0 > 0 && numstr[0] != ZERO ==> out[q] != ZERO)
    modifies out
    ensures k == k0 + n && Regrouping(4, out[q..q + k], [], Val(4, numstr))
    ensures k > 0 && numstr[0] != ZERO ==> out[q] != ZERO
    ensures forall x :: 0 <= x < q || q + k <= x < out.Length ==> out[x] == old(out[x])
  {
    var lptr: nat := at;
    k := k0;
    while k < k0 + n
      invariant k0 <= k <= k0 + n && lptr + 2 * (k0 + n - k) == |numstr|
      invariant Regrouping(4, out[q..q + k], numstr[lptr..], Val(4, numstr))
      invariant if k == 0 then lptr == 0 else numstr[0] != ZERO ==> out[q] != ZERO
      invariant forall x :: 0 <= x < q || q + k <= x < out.Length ==> out[x] == old(out[x])
    {
      PutPair(numstr, lptr, out, q, k, Val(4, numstr));
      k, lptr := k + 1, lptr + 2;
    }
    assert numstr[lptr..] == [];
  }

  // uls_quat2hex_str, the digit in front of the pairs
  method QuatFront(numstr: seq<Byte>, m: nat, out: array<Byte>, q: nat) returns (k: nat)
    requires IsNumeral(4, numstr) && m <= 1 && m <= |numstr| && q < out.Length
    modifies out
    ensures k == m && Regrouping(4, out[q..q + k], numstr[m..], Val(4, numstr))
    ensures k > 0 && numstr[0] != ZERO ==> out[q] != ZERO
    ensures forall x :: 0 <= x < out.Length && x != q ==> out[x] == old(out[x])
  {
    k := 0;
    assert out[q..q + 0] == [] && numstr == [] + numstr;
    if m > 0 {
      TwoQuats(numstr[0], numstr[0]);
      var hVal := numstr[0] - ZERO;
      assert numstr == [numstr[0]] + numstr[1..];
      PrintNibble(4, [], [numstr[0]], numstr[1..], Val(4, numstr), hVal);
      DigitRoundTrip(hVal, 16);
      out[q] := Num2CharRadix(hVal);
      k := 1;
      assert out[q..q + 1] == [] + [Num2CharRadix(hVal)];
    }
  }

  // uls_quat2hex_str
  method Quat2HexStr(numstr: seq<Byte>, out: array<Byte>, q: nat) returns (k: nat)
    requires IsNumeral(4, numstr) && q + 1 < out.Length && q + |numstr| < out.Length
    modifies out
    ensures HexAt(out[..], q, k, Val(4, numstr)) && k <= 1 + |numstr|
    ensures Canonical(4, numstr) ==> out[q..q + k] == Text(16, Val(4, numstr))
    ensures forall x :: 0 <= x < q || q + k < x < out.Length ==> out[x] == old(out[x])
  {
    var n, m := |numstr| / 2, |numstr| % 2;
    k := QuatFront(numstr, m, out, q);
    k := QuatPairs(numstr, m, n, out, q, k);
    k := CloseHex(out, q, k, 4, Val(4, numstr));
    if Canonical(4, numstr) {
      HexText(out[..], q, k, Val(4, numstr));
    }
  }

  // ---------- octal: three bits against four ----------

  function Pow2(n: nat): nat
    requires n <= 3
  {
    if n == 0 then 1 else if n == 1 then 2 else if n == 2 then 4 else 8
  }

  // get_hexanum_from_octal: of the bits of two octal digits, the four on top of the low `aBits - 1`
  function GetHexanumFromOctal(twoOctals: nat, aBits: nat): (hAndRest: (nat, nat))
    requires 1 <= aBits <= 3
    ensures twoOctals < Pow2(aBits) * 8 ==>
      hAndRest.0 < 16 && hAndRest.1 < Pow2(aBits - 1) && twoOctals == hAndRest.0 * Pow2(aBits - 1) + hAndRest.1
  {
    var n := aBits - 1;
    ((twoOctals / Pow2(n)) % 16, twoOctals % Pow2(n))
  }

  /** `o` holds the last `bits` bits read but not yet printed; with the unread digits they make whole nibbles. */
  ghost predicate Octal(t: seq<Byte>, o: nat, bits: nat, rest: seq<Byte>, v: int) {
    && IsNumeral(16, t) && UpperCase(t) && IsNumeral(8, rest)
    && bits <= 3 && o < Pow2(bits) && (bits + 3 * |rest|) % 4 == 0
    && v == ValFrom(8, Val(16, t) * Pow2(bits) + o, rest)
  }

  /** Reading a digit after a nibble boundary. */
  lemma OctalRead(t: seq<Byte>, rest: seq<Byte>, v: int)
    requires Octal(t, 0, 0, rest, v) && rest != []
    ensures Octal(t, rest[0] - ZERO, 3, rest[1..], v) && |rest| >= 4
  {
    assert IsNumRadix(rest[0], 8) >= 0;
  }

  /** Reading a digit and printing the nibble it completes. */
  lemma OctalPrint(t: seq<Byte>, o: nat, bits: nat, rest: seq<Byte>, v: int)
    requires Octal(t, o, bits, rest, v) && rest != [] && 1 <= bits
    ensures rest[0] >= ZERO
    ensures var (h, o') := GetHexanumFromOctal(8 * o + (rest[0] - ZERO), bits);
            h < 16 && Octal(t + [Num2CharRadix(h)], o', bits - 1, rest[1..], v) && (o > 0 ==> h > 0)
  {
    assert IsNumRadix(rest[0], 8) >= 0;
    var two := 8 * o + (rest[0] - ZERO);
    assert two < Pow2(bits) * 8;
    var (h, o') := GetHexanumFromOctal(two, bits);
    DigitRoundTrip(h, 36);
    DigitRoundTrip(h, 16);
    ValSnoc(16, 0, t, Num2CharRadix(h));
    OctalRegroup(Val(16, t), o, bits, rest[0] - ZERO, h, o');
  }

  lemma OctalRegroup(acc: nat, o: nat, bits: nat, d: nat, h: nat, o': nat)
    requires 1 <= bits <= 3 && 8 * o + d == h * Pow2(bits - 1) + o'
    ensures (acc * Pow2(bits) + o) * 8 + d == (acc * 16 + h) * Pow2(bits - 1) + o'
  {}

  /** All digits read: the alignment leaves no bit over. */
  lemma OctalDone(t: seq<Byte>, o: nat, bits: nat, v: int)
    requires Octal(t, o, bits, [], v)
    ensures bits == 0 && o == 0 && v == Val(16, t)
  {}

  // One turn of that loop: a digit in, a nibble out.
  method PutNibble(numstr: seq<Byte>, lptr: nat, oNum: nat, aBits: nat, out: array<Byte>, q: nat, k: nat, ghost v: int)
    returns (oRest: nat)
    requires lptr < |numstr| && aBits >= 1 && q + k < out.Length
    requires Octal(out[q..q + k], oNum, aBits, numstr[lptr..], v)
    modifies out
    ensures Octal(out[q..q + (k + 1)], oRest, aBits - 1, numstr[lptr + 1..], v)
    ensures k == 0 && oNum > 0 ==> out[q] != ZERO
    ensures forall x :: 0 <= x < out.Length && x != q + k ==> out[x] == old(out[x])
  {
    ghost var t := out[q..q + k];
    OctalPrint(t, oNum, aBits, numstr[lptr..], v);
    var (hVal, rest) := GetHexanumFromOctal(8 * oNum + (numstr[lptr] - ZERO), aBits);
    DigitRoundTrip(hVal, 16);
    assert numstr[lptr..][1..] == numstr[lptr + 1..];
    oRest := rest;
    out[q + k] := Num2CharRadix(hVal);
    assert out[q..q + (k + 1)] == t + [Num2CharRadix(hVal)];
  }

  lemma NextOctal(t: seq<Byte>, numstr: seq<Byte>, lptr: nat, o: nat, v: int)
    requires lptr < |numstr| && Octal(t, o, 0, numstr[lptr..], v)
    ensures numstr[lptr] >= ZERO && lptr + 1 < |numstr| && Octal(t, numstr[lptr] - ZERO, 3, numstr[lptr + 1..], v)
  {
    OctalRead(t, numstr[lptr..], v);
    assert numstr[lptr..][1..] == numstr[lptr + 1..];
  }

  // One round of uls_oct2hex_str: a nibble is printed, and another digit fetched when no bit is left
  method OctRound(numstr: seq<Byte>, lptr0: nat, o0: nat, bits0: nat, out: array<Byte>, q: nat, k: nat, ghost v: int)
    returns (lptr: nat, oNum: nat, aBits: nat)
    requires lptr0 < |numstr| && bits0 >= 1 && q + k < out.Length && Octal(out[q..q + k], o0, bits0, numstr[lptr0..], v)
    modifies out
    ensures lptr0 < lptr <= |numstr| && (k == 0 && o0 > 0 ==> out[q] != ZERO)
    ensures lptr < |numstr| ==> aBits >= 1 && Octal(out[q..q + (k + 1)], oNum, aBits, numstr[lptr..], v)
    ensures lptr == |numstr| ==> Octal(out[q..q + (k + 1)], 0, 0, [], v)
    ensures forall x :: 0 <= x < out.Length && x != q + k ==> out[x] == old(out[x])
  {
    oNum := PutNibble(numstr, lptr0, o0, bits0, out, q, k, v);
    lptr, aBits := lptr0 + 1, bits0 - 1;
    if lptr >= |numstr| {
      assert numstr[lptr..] == [];
      OctalDone(out[q..q + (k + 1)], oNum, aBits, v);
    } else if aBits == 0 {
      NextOctal(out[q..q + (k + 1)], numstr, lptr, oNum, v);
      oNum := numstr[lptr] - ZERO;
      lptr := lptr + 1;
      aBits := 3;
    }
  }

  // The endless loop of uls_oct2hex_str
  method OctLoop(numstr: seq<Byte>, lptr0: nat, o0: nat, bits0: nat, out: array<Byte>, q: nat, k0: nat, ghost v: int)
    returns (k: nat)
    requires lptr0 < |numstr| && bits0 >= 1 && q + k0 + (|numstr| - lptr0) < out.Length
    requires Octal(out[q..q + k0], o0, bits0, numstr[lptr0..], v) && (if k0 > 0 then out[q] != ZERO else o0 > 0)
    modifies out
    ensures k0 < k <= k0 + (|numstr| - lptr0) && out[q] != ZERO
    ensures Octal(out[q..q + k], 0, 0, [], v)
    ensures forall x :: 0 <= x < q || q + k <= x < out.Length ==> out[x] == old(out[x])
  {
    var lptr: nat, oNum: nat, aBits: nat := lptr0, o0, bits0;
    k := k0;
    while true
      invariant lptr0 <= lptr < |numstr| && 1 <= aBits && k0 <= k <= k0 + (lptr - lptr0)
      invariant Octal(out[q..q + k], oNum, aBits, numstr[lptr..], v) && (if k > 0 then out[q] != ZERO else oNum > 0)
      invariant forall x :: 0 <= x < q || q + k <= x < out.Length ==> out[x] == old(out[x])
      decreases |numstr| - lptr
    {
      lptr, oNum, aBits := OctRound(numstr, lptr, oNum, aBits, out, q, k, v);
      k := k + 1;
      if lptr >= |numstr| {
        break;
      }
    }
  }

  /** The first `bBits` bits of the first digit are the partial nibble in front. */
  lemma OctalFront(first: Byte, rest: seq<Byte>, bBits: nat)
    requires IsNumeral(8, [first] + rest) && first != ZERO && 1 <= bBits <= 3
    requires bBits == (3 * (1 + |rest|)) % 4
    ensures first > ZERO
    ensures var (h, o) := GetHexanumFromOctal(first - ZERO, 4 - bBits);
            var t := if h == 0 then [] else [Num2CharRadix(h)];
            h < 16 && Octal(t, o, 3 - bBits, rest, Val(8, [first] + rest)) && (h == 0 ==> o > 0)
  {
    assert IsNumRadix(([first] + rest)[0], 8) >= 0;
    assert forall i :: 0 <= i < |rest| ==> rest[i] == ([first] + rest)[i + 1];
    var (h, o) := GetHexanumFromOctal(first - ZERO, 4 - bBits);
    DigitRoundTrip(h, 36);
    DigitRoundTrip(h, 16);
    ValSnoc(16, 0, [], Num2CharRadix(h));
    assert [] + [Num2CharRadix(h)] == [Num2CharRadix(h)];
    assert ([first] + rest)[1..] == rest;
  }

  // uls_oct2hex_str, the first digit: prints the bits that stand in front of whole nibbles
  method OctFront(numstr: seq<Byte>, bBits: nat, out: array<Byte>, q: nat) returns (k: nat, oNum: nat)
    requires IsNumeral(8, numstr) && |numstr| >= 2 && numstr[0] != ZERO && q < out.Length
    requires bBits == (3 * |numstr|) % 4 && bBits > 0
    modifies out
    ensures k <= 1 && Octal(out[q..q + k], oNum, 3 - bBits, numstr[1..], Val(8, numstr))
    ensures if k > 0 then out[q] != ZERO else oNum > 0
    ensures forall x :: 0 <= x < out.Length && (x != q || k == 0) ==> out[x] == old(out[x])
  {
    assert numstr == [numstr[0]] + numstr[1..];
    OctalFront(numstr[0], numstr[1..], bBits);
    var (hVal, rest) := GetHexanumFromOctal(numstr[0] - ZERO, 4 - bBits);
    DigitRoundTrip(hVal, 16);
    k, oNum := 0, rest;
    if hVal != 0 {
      out[q] := Num2CharRadix(hVal);
      k := 1;
    }
    assert out[q..q + k] == if hVal == 0 then [] else [Num2CharRadix(hVal)];
  }

  lemma FrontBits(n: nat)
    ensures (3 * (n % 4)) % 4 == (3 * n) % 4 == (if n % 4 == 0 then 0 else 4 - n % 4)
  {}

  lemma OctalStart(numstr: seq<Byte>)
    requires IsNumeral(8, numstr) && numstr != [] && numstr[0] != ZERO && |numstr| % 4 == 0
    ensures numstr[0] > ZERO && Octal([], numstr[0] - ZERO, 3, numstr[1..], Val(8, numstr))
  {
    assert IsNumRadix(numstr[0], 8) >= 0;
  }

  // uls_oct2hex_str for at least two digits, the first not zero
  method OctLong(numstr: seq<Byte>, out: array<Byte>, q: nat) returns (k: nat)
    requires IsNumeral(8, numstr) && |numstr| >= 2 && numstr[0] != ZERO && q + |numstr| < out.Length
    modifies out
    ensures 0 < k <= |numstr| && out[q] != ZERO && Octal(out[q..q + k], 0, 0, [], Val(8, numstr))
    ensures forall x :: 0 <= x < q || q + k <= x < out.Length ==> out[x] == old(out[x])
  {
    var bBits := (3 * (|numstr| % 4)) % 4;
    FrontBits(|numstr|);
    var oNum: nat, lptr, aBits := 0, 1, 3;
    k := 0;
    if bBits == 0 {
      OctalStart(numstr);
      assert out[q..q + k] == [];
      oNum := numstr[0] - ZERO;
    } else {
      k, oNum := OctFront(numstr, bBits, out, q);
      aBits := 3 - bBits;
      if aBits == 0 {
        OctalRead(out[q..q + k], numstr[1..], Val(8, numstr));
        assert numstr[1..][1..] == numstr[2..];
        oNum, lptr, aBits := numstr[1] - ZERO, 2, 3;
      }
    }
    k := OctLoop(numstr, lptr, oNum, aBits, out, q, k, Val(8, numstr));
  }

  lemma {:induction false} LeadingZeros(base: nat, s: seq<Byte>, z: nat)
    requires z <= |s| && forall i :: 0 <= i < z ==> s[i] == ZERO
    ensures Val(base, s) == Val(base, s[z..])
  {
    if z > 0 {
      assert Val(base, s) == ValFrom(base, 0 * base + 0, s[1..]);
      LeadingZeros(base, s[1..], z - 1);
      assert s[1..][z - 1..] == s[z..];
    }
  }

  // uls_oct2hex_str: skips the zeros in front
  method SkipZeroDigits(numstr: seq<Byte>) returns (lptr: nat)
    requires IsNumeral(8, numstr)
    ensures lptr <= |numstr| && (lptr < |numstr| ==> numstr[lptr] != ZERO) && Val(8, numstr) == Val(8, numstr[lptr..])
  {
    lptr := 0;
    while lptr < |numstr|
      invariant lptr <= |numstr| && forall i :: 0 <= i < lptr ==> numstr[i] == ZERO
    {
      if numstr[lptr] != ZERO {
        break;
      }
      lptr := lptr + 1;
    }
    LeadingZeros(8, numstr, lptr);
  }

  // uls_oct2hex_str for at most one digit that counts
  method OctShort(octals: seq<Byte>, out: array<Byte>, q: nat)
    requires IsNumeral(8, octals) && |octals| <= 1 && q + 1 < out.Length
    modifies out
    ensures HexAt(out[..], q, 1, Val(8, octals))
    ensures forall x :: 0 <= x < q || q + 1 < x < out.Length ==> out[x] == old(out[x])
  {
    var digit := if |octals| == 0 then ZERO else octals[0];
    assert |octals| == 1 ==> IsNumRadix(octals[0], 8) >= 0;
    out[q], out[q + 1] := digit, NUL;
    ValSnoc(16, 0, [], digit);
    ValSnoc(8, 0, [], digit);
    assert out[q..q + 1] == [digit] == [] + [digit];
    assert |octals| == 1 ==> octals == [] + [digit];
  }

  // uls_oct2hex_str
  method Oct2HexStr(numstr: seq<Byte>, out: array<Byte>, q: nat) returns (k: nat)
    requires IsNumeral(8, numstr) && q + 1 < out.Length && q + |numstr| < out.Length
    modifies out
    ensures HexAt(out[..], q, k, Val(8, numstr)) && k <= 1 + |numstr|
    ensures out[q..q + k] == Text(16, Val(8, numstr))
    ensures forall x :: 0 <= x < q || q + k < x < out.Length ==> out[x] == old(out[x])
  {
    var lptr := SkipZeroDigits(numstr);
    var octals := numstr[lptr..];
    if |octals| <= 1 {
      OctShort(octals, out, q);
      k := 1;
    } else {
      k := OctLong(octals, out, q);
      OctalDone(out[q..q + k], 0, 0, Val(8, octals));
      ghost var t := out[q..q + k];
      out[q + k] := NUL;
      assert out[q..q + k] == t;
    }
    HexText(out[..], q, k, Val(8, numstr));
  }

  // ---------- any radix to decimal, in the two halves of one buffer ----------

  /** Decimal digits allotted to each digit of the radix. */
  function Allot(radix: nat): nat {
    if radix > 10 then 2 else 1
  }

  /** The decimal text of a number below radix^n fits in the digits allotted to n digits of the radix. */
  lemma DecimalFits(radix: nat, n: nat, t: seq<Byte>)
    requires 2 <= radix <= 36 && n >= 1 && Canonical(10, t) && Val(10, t) < Pow(radix, n)
    ensures |t| <= Allot(radix) * n
  {
    if radix > 10 {
      PowMonotone(radix, 100, n, n);
      assert Pow(10, 2) == 100;
      PowOfPow(10, 2, n);
    } else {
      PowMonotone(radix, 10, n, n);
    }
    CanonicalLength(10, t, Allot(radix) * n);
  }

  /** One digit more: the product and the sum stay below the next power. */
  lemma NextDigit(radix: nat, s: seq<Byte>, i: nat)
    requires 2 <= radix <= 36 && IsNumeral(radix, s) && i < |s|
    ensures Val(radix, s[..i + 1]) == radix * Val(radix, s[..i]) + DigitOf(s[i])
    ensures radix * Val(radix, s[..i]) < Pow(radix, i + 1) && Val(radix, s[..i + 1]) < Pow(radix, i + 1)
  {
    assert s[..i + 1] == s[..i] + [s[i]];
    ValSnoc(radix, 0, s[..i], s[i]);
    Commute(Val(radix, s[..i]), radix);
    ValBelow(radix, s[..i + 1]);
  }

  // One digit of uls_cvt_radix2dec_str: the product goes to the upper half, the sum back to the lower.
  method CvtDigit(radix: nat, numbuf1: seq<Byte>, i: nat, buf: array<Byte>, m: nat, n: nat) returns (n2: nat)
    requires 2 <= radix <= 36 && IsNumeral(radix, numbuf1) && i < |numbuf1|
    requires Allot(radix) * (i + 1) <= m && 2 * m + 1 <= buf.Length
    requires Printed(buf[..], 0, n, Val(radix, numbuf1[..i]))
    requires if i == 0 then n == 1 else n <= Allot(radix) * i
    modifies buf
    ensures Printed(buf[..], 0, n2, Val(radix, numbuf1[..i + 1])) && n2 <= Allot(radix) * (i + 1)
  {
    NextDigit(radix, numbuf1, i);
    assert numbuf1[..0] == [];
    assert buf[0..0 + n] == buf[..][0..0 + n];
    CanonicalZero(10, buf[0..0 + n]);
    n2 := MulDecstr(buf, 0, n, radix, buf, m);
    assert buf[m..m + n2] == buf[..][m..m + n2];
    DecimalFits(radix, i + 1, buf[m..m + n2]);
    n2 := AddDecstr(buf, m, n2, IsNumRadix(numbuf1[i], radix), buf, 0);
    assert buf[0..0 + n2] == buf[..][0..0 + n2];
    DecimalFits(radix, i + 1, buf[0..0 + n2]);
  }

  // uls_cvt_radix2dec_str
  method CvtRadix2DecStr(radix: nat, numbuf1: seq<Byte>, outbuf: OutBuf) returns (n2: nat)
    requires 2 <= radix <= 36 && IsNumeral(radix, numbuf1) && numbuf1 != []
    modifies outbuf, outbuf.buf
    ensures Printed(outbuf.buf[..], 0, n2, Val(radix, numbuf1)) && n2 <= Allot(radix) * |numbuf1|
    ensures outbuf.buf[..n2] == Text(10, Val(radix, numbuf1))
    ensures outbuf.buf == old(outbuf.buf) || fresh(outbuf.buf)
  {
    var m := if radix > 10 then 2 * |numbuf1| else |numbuf1|;
    outbuf.Reserve(2 * m + 1);
    var decbuf := outbuf.buf;
    decbuf[0], decbuf[1] := ZERO, NUL;
    n2 := 1;
    TwoDigitNumber(ZERO, ZERO);
    assert decbuf[0..0 + 1] == [ZERO];
    assert numbuf1[..0] == [];
    for i := 0 to |numbuf1|
      invariant Printed(decbuf[..], 0, n2, Val(radix, numbuf1[..i])) && decbuf == outbuf.buf
      invariant if i == 0 then n2 == 1 else n2 <= Allot(radix) * i
    {
      n2 := CvtDigit(radix, numbuf1, i, decbuf, m, n2);
    }
    assert numbuf1[..|numbuf1|] == numbuf1;
    assert decbuf[..n2] == decbuf[..][0..0 + n2];
    CanonicalIsText(10, decbuf[..n2]);
    decbuf[n2] := NUL;
    assert decbuf[..][0..0 + n2] == decbuf[..n2];
  }

  // ---------- low digit first, then reversed ----------

  /** The values of the digits in `t`. */
  ghost function Values(t: seq<Byte>): (ds: seq<int>)
    ensures |ds| == |t| && forall i {:trigger ds[i]} {:trigger t[i]} :: 0 <= i < |t| ==> ds[i] == DigitOf(t[i])
  {
    seq(|t|, i requires 0 <= i < |t| => DigitOf(t[i]))
  }

  /** `t` holds the low digits of `v`, least significant first, and `high` is what is left of it. */
  ghost predicate Emitting(base: nat, t: seq<Byte>, high: int, v: int) {
    high >= 0 && IsNumeral(base, t) && UpperCase(t) && v == Up(base, Values(t), high)
  }

  lemma EmitDigit(base: nat, t: seq<Byte>, high: int, v: int, d: nat, high': nat)
    requires 2 <= base <= 36 && Emitting(base, t, high, v) && d < base && high == d + base * high'
    ensures Emitting(base, t + [Num2CharRadix(d)], high', v)
  {
    DigitRoundTrip(d, base);
    DigitRoundTrip(d, 36);
    UpSnoc(base, Values(t), d, high');
    assert Values(t + [Num2CharRadix(d)]) == Values(t) + [d];
  }

  lemma ValuesPrint(t: seq<Byte>)
    ensures Prints(Values(t), Reversed(t))
  {}

  lemma ReversedNumeral(base: nat, t: seq<Byte>)
    requires IsNumeral(base, t) && UpperCase(t) && t != [] && (|t| > 1 ==> t[|t| - 1] != ZERO)
    ensures Canonical(base, Reversed(t)) && UpperCase(Reversed(t))
  {
    assert Reversed(t)[0] == t[|t| - 1];
  }

  /** Reversed, the emitted digits are the canonical text. */
  lemma EmittedText(base: nat, t: seq<Byte>, v: nat)
    requires 2 <= base <= 36 && Emitting(base, t, 0, v) && t != []
    requires |t| > 1 ==> t[|t| - 1] != ZERO
    ensures Reversed(t) == Text(base, v)
  {
    ValuesPrint(t);
    UpIsVal(base, Values(t), 0, Reversed(t));
    ReversedNumeral(base, t);
    CanonicalIsText(base, Reversed(t));
  }

  /** A quotient by 16 is at least one decimal digit shorter. */
  lemma QuotientShorter(s: seq<Byte>, t: seq<Byte>, r: nat)
    requires Canonical(10, s) && Canonical(10, t) && Val(10, s) == 16 * Val(10, t) + r && t != [ZERO]
    ensures |t| <= |s| - 1 && Val(10, t) < Val(10, s)
  {
    ValBelow(10, s);
    CanonicalZero(10, t);
    assert Pow(10, |s|) == 10 * Pow(10, |s| - 1);
    if |s| > 1 {
      CanonicalLength(10, t, |s| - 1);
    }
  }

  // The division loop of __cvt_radix2hexa_str_generic
  method HexDigitsUp(num: array<Byte>, n: nat, out: array<Byte>, k0: nat) returns (k: nat)
    requires num != out && n <= num.Length && Canonical(10, num[0..0 + n]) && k0 + n < out.Length
    modifies num, out
    ensures k0 < k <= k0 + n && Emitting(16, out[k0..k], 0, Val(10, old(num[0..0 + n])))
    ensures k > k0 + 1 ==> out[k - 1] != ZERO
    ensures forall x :: 0 <= x < k0 || k <= x < out.Length ==> out[x] == old(out[x])
  {
    ghost var v := Val(10, num[0..0 + n]);
    var len: nat := n;
    k := k0;
    assert out[k0..k] == [];
    while true
      invariant k0 <= k && k + len <= k0 + n && len <= num.Length && Canonical(10, num[0..0 + len])
      invariant Emitting(16, out[k0..k], Val(10, num[0..0 + len]), v)
      invariant k > k0 ==> Val(10, num[0..0 + len]) > 0
      invariant forall x :: 0 <= x < k0 || k <= x < out.Length ==> out[x] == old(out[x])
      decreases Val(10, num[0..0 + len])
    {
      ghost var t, s := out[k0..k], num[0..0 + len];
      var val;
      val, len := DivDecstrBy16(num, 0, len);
      ghost var s' := num[0..0 + len];
      EmitDigit(16, t, Val(10, s), v, val, Val(10, s'));
      DigitRoundTrip(val, 16);
      out[k] := Num2CharRadix(val);
      assert out[k0..k + 1] == t + [Num2CharRadix(val)];
      k := k + 1;
      CanonicalZero(10, s');
      assert num[0] == s'[0];
      if len == 1 && num[0] == ZERO {
        assert s' == [ZERO];
        break;
      }
      QuotientShorter(s, s', val);
    }
  }

  // __cvt_radix2hexa_str_generic, from the decimal text in `num` on
  method HexInto(num: array<Byte>, n2: nat, out: array<Byte>, k0: nat) returns (k: nat)
    requires num != out && n2 <= num.Length && Canonical(10, num[0..0 + n2]) && k0 + n2 < out.Length
    modifies num, out
    ensures k0 < k <= k0 + n2 && out[k0..k] == Text(16, Val(10, old(num[0..0 + n2])))
    ensures out[..k0] == old(out[..k0])
  {
    ghost var v := Val(10, num[0..0 + n2]);
    k := HexDigitsUp(num, n2, out, k0);
    var n := k - k0;
    ghost var t := out[k0..k];
    EmittedText(16, t, v);
    assert out[k0..k0 + n] == t;
    ReverseBytes(out, k0, n);
    assert out[k0..k] == out[k0..k0 + n] == Reversed(t);
  }

  // __cvt_radix2hexa_str_generic
  method CvtGeneric(radix: nat, numbuf: seq<Byte>, outbuf: OutBuf, k0: nat) returns (k: nat)
    requires 2 <= radix <= 36 && IsNumeral(radix, numbuf) && numbuf != [] && k0 <= outbuf.buf.Length
    modifies outbuf, outbuf.buf
    ensures k0 < k < outbuf.buf.Length && outbuf.buf[..k0] == old(outbuf.buf[..k0])
    ensures outbuf.buf[k0..k] == Text(16, Val(radix, numbuf))
    ensures outbuf.buf == old(outbuf.buf) || fresh(outbuf.buf)
  {
    ghost var kept := outbuf.buf[..k0];
    var outbuf1 := new OutBuf(64);
    var n2 := CvtRadix2DecStr(radix, numbuf, outbuf1);
    outbuf.Reserve(k0 + n2 + 1);
    assert outbuf.buf[..k0] == kept;
    assert outbuf1.buf[..][0..0 + n2] == outbuf1.buf[0..0 + n2];
    k := HexInto(outbuf1.buf, n2, outbuf.buf, k0);
  }

  /** What every conversion to hexadecimal promises about the text it puts at `k0`: the value of the numeral,
      in the numeral's own digits if they are hexadecimal, else canonically whenever it has no leading zero. */
  ghost predicate HexFrom(text: seq<Byte>, radix: nat, numeral: seq<Byte>) {
    && text != [] && IsNumeral(16, text) && Val(16, text) == Val(radix, numeral)
    && (if radix == 16 then text == numeral else Canonical(radix, numeral) ==> text == Text(16, Val(radix, numeral)))
  }

  lemma TextIsHexFrom(radix: nat, numeral: seq<Byte>)
    requires radix != 16
    ensures HexFrom(Text(16, Val(radix, numeral)), radix, numeral)
  {
    TextIsCanonical(16, Val(radix, numeral));
  }

  // A hexadecimal numeral is copied as it is.
  method AppendHex(numbuf: seq<Byte>, outbuf: OutBuf, k0: nat) returns (k: nat)
    requires IsNumeral(16, numbuf) && numbuf != [] && k0 <= outbuf.buf.Length
    modifies outbuf, outbuf.buf
    ensures k0 < k < outbuf.buf.Length && outbuf.buf[..k0] == old(outbuf.buf[..k0]) && outbuf.buf[k] == NUL
    ensures HexFrom(outbuf.buf[k0..k], 16, numbuf)
    ensures outbuf.buf == old(outbuf.buf) || fresh(outbuf.buf)
  {
    k := outbuf.Append(k0, numbuf);
    assert outbuf.buf[k0..k] == outbuf.buf[..k][k0..] == numbuf;
    assert outbuf.buf[..k0] == outbuf.buf[..k][..k0];
  }

  // Appends the terminator behind a text.
  method CloseText(outbuf: OutBuf, k0: nat, k: nat)
    requires k0 <= k <= outbuf.buf.Length
    modifies outbuf, outbuf.buf
    ensures k < outbuf.buf.Length && outbuf.buf[k] == NUL
    ensures outbuf.buf[..k0] == old(outbuf.buf[..k0]) && outbuf.buf[k0..k] == old(outbuf.buf[k0..k])
    ensures outbuf.buf == old(outbuf.buf) || fresh(outbuf.buf)
  {
    ghost var t := outbuf.buf[..k];
    assert t[k0..] == outbuf.buf[k0..k];
    outbuf.Putc(k, NUL);
    assert outbuf.buf[..k] == outbuf.buf[..k + 1][..k] == t;
    assert outbuf.buf[k0..k] == t[k0..] && outbuf.buf[..k0] == t[..k0];
    assert outbuf.buf[k] == outbuf.buf[..k + 1][k];
  }

  // uls_cvt_radix2hexa_str_generic
  method CvtRadix2HexaStrGeneric(radix: nat, numbuf: seq<Byte>, outbuf: OutBuf, k0: nat) returns (k: nat)
    requires 2 <= radix <= 36 && IsNumeral(radix, numbuf) && numbuf != [] && k0 <= outbuf.buf.Length
    modifies outbuf, outbuf.buf
    ensures k0 < k < outbuf.buf.Length && outbuf.buf[..k0] == old(outbuf.buf[..k0]) && outbuf.buf[k] == NUL
    ensures HexFrom(outbuf.buf[k0..k], radix, numbuf)
    ensures outbuf.buf == old(outbuf.buf) || fresh(outbuf.buf)
  {
    if radix == 16 {
      k := AppendHex(numbuf, outbuf, k0);
    } else {
      TextIsHexFrom(radix, numbuf);
      k := CvtGeneric(radix, numbuf, outbuf, k0);
      CloseText(outbuf, k0, k);
    }
  }

  // The bit-group branches of uls_cvt_radix_to_hexadecimal_str: they print straight into the buffer.
  method CvtBitGroups(radix: nat, numbuf1: seq<Byte>, out: array<Byte>, k0: nat) returns (n2: nat)
    requires radix == 2 || radix == 4 || radix == 8
    requires IsNumeral(radix, numbuf1) && numbuf1 != [] && k0 + |numbuf1| < out.Length
    modifies out
    ensures n2 > 0 && k0 + n2 < out.Length && out[k0 + n2] == NUL && HexFrom(out[k0..k0 + n2], radix, numbuf1)
    ensures forall x :: 0 <= x < k0 || k0 + n2 < x < out.Length ==> out[x] == old(out[x])
  {
    if radix == 2 {
      n2 := Bin2HexStr(numbuf1, out, k0);
    } else if radix == 4 {
      n2 := Quat2HexStr(numbuf1, out, k0);
    } else {
      n2 := Oct2HexStr(numbuf1, out, k0);
    }
  }

  // uls_cvt_radix_to_hexadecimal_str
  method CvtRadixToHexadecimalStr(radix: nat, numbuf1: seq<Byte>, outbuf: OutBuf, k0: nat) returns (k: nat)
    requires 2 <= radix <= 36 && IsNumeral(radix, numbuf1) && numbuf1 != [] && k0 <= outbuf.buf.Length
    modifies outbuf, outbuf.buf
    ensures k0 < k < outbuf.buf.Length && outbuf.buf[..k0] == old(outbuf.buf[..k0]) && outbuf.buf[k] == NUL
    ensures HexFrom(outbuf.buf[k0..k], radix, numbuf1)
    ensures outbuf.buf == old(outbuf.buf) || fresh(outbuf.buf)
  {
    outbuf.Reserve(k0 + |numbuf1| + 1);
    assert outbuf.buf[..k0] == old(outbuf.buf[..k0]);
    if radix == 2 || radix == 4 || radix == 8 {
      var n2 := CvtBitGroups(radix, numbuf1, outbuf.buf, k0);
      k := k0 + n2;
    } else if radix == 16 {
      k := AppendHex(numbuf1, outbuf, k0);
    } else {
      k := CvtRadix2HexaStrGeneric(radix, numbuf1, outbuf, k0);
    }
  }

  // ---------- the 64-bit register path ----------

  const TWO_64: nat := 0x1_0000_0000_0000_0000

  lemma WrapStep(v: nat, num: nat, radix: nat, d: nat)
    requires num == v % TWO_64
    ensures (num * radix + d) % TWO_64 == (v * radix + d) % TWO_64
  {
    var c, x, y := v / TWO_64, num * radix + d, v * radix + d;
    assert v == num + c * TWO_64;
    Distribute(num, c * TWO_64, radix);
    Associate(c, TWO_64, radix);
    assert y == x + (c * radix) * TWO_64;
    SameRemainder(x, c * radix, TWO_64);
  }

  lemma SameRemainder(x: nat, q: int, m: nat)
    requires m > 0 && x + q * m >= 0
    ensures (x + q * m) % m == x % m
  {
    var y := x + q * m;
    Distribute(x / m, q, m);
    QuotientUnique(m, x / m + q, x % m, y / m, y % m);
  }

  // get_uint64_from_radix_numstr: the multiplications wrap around at 2^64
  method GetUint64FromRadixNumstr(radix: nat, numbuf: seq<Byte>) returns (num: nat)
    requires 2 <= radix <= 36 && IsNumeral(radix, numbuf)
    ensures num == Val(radix, numbuf) % TWO_64
  {
    num := 0;
    for i := 0 to |numbuf|
      invariant num == Val(radix, numbuf[..i]) % TWO_64
    {
      var n := IsNumRadix(numbuf[i], radix);
      assert numbuf[..i + 1] == numbuf[..i] + [numbuf[i]];
      ValSnoc(radix, 0, numbuf[..i], numbuf[i]);
      WrapStep(Val(radix, numbuf[..i]), num, radix, n);
      num := (num * radix + n) % TWO_64;
    }
    assert numbuf[..|numbuf|] == numbuf;
  }

  // array_of_n_max_digits and the limits beyond it, in uls_radix2hexadecimal_str
  function MaxDigits(radix: nat): nat
    requires 2 <= radix <= 36
  {
    if radix <= 8 then [64, 32, 32, 21, 21, 21, 21][radix - 2]
    else if radix <= 16 then 16
    else if radix <= 32 then 12
    else 10
  }

  /** The digit limits keep the register from wrapping. */
  lemma LimitFits(radix: nat, s: seq<Byte>)
    requires 2 <= radix <= 36 && IsNumeral(radix, s) && |s| <= MaxDigits(radix)
    ensures Val(radix, s) < TWO_64
  {
    ValBelow(radix, s);
    var top := if radix <= 2 then 2 else if radix <= 4 then 4 else if radix <= 8 then 8
               else if radix <= 16 then 16 else if radix <= 32 then 32 else 36;
    PowMonotone(radix, top, |s|, MaxDigits(radix));
    LimitPowers(top);
  }

  lemma TwoTo64()
    ensures Pow(2, 64) == TWO_64
  {
    assert Pow(2, 8) == 256;
    PowAdd(2, 8, 8);
    PowAdd(2, 16, 16);
    PowAdd(2, 32, 32);
  }

  lemma LimitPowers(top: nat)
    requires top in {2, 4, 8, 16, 32, 36}
    ensures Pow(top, MaxDigits(top)) <= TWO_64
  {
    var bits := if top == 2 then 1 else if top == 4 then 2 else if top == 8 then 3
                else if top == 16 then 4 else if top == 32 then 5 else 6;
    TwoTo64();
    assert Pow(2, 1) == 2 && Pow(2, 2) == 4 && Pow(2, 3) == 8 && Pow(2, 4) == 16;
    assert Pow(2, 5) == 32 && Pow(2, 6) == 64;
    PowMonotone(top, Pow(2, bits), MaxDigits(top), MaxDigits(top));
    PowOfPow(2, bits, MaxDigits(top));
    PowMonotone(2, 2, bits * MaxDigits(top), 64);
  }

  // The digit loop of cvt_radix_simple_num, for a nonzero register
  method PutDigitsUp(num0: nat, outbuf: OutBuf, k0: nat) returns (k: nat)
    requires num0 > 0 && k0 <= outbuf.buf.Length
    modifies outbuf, outbuf.buf
    ensures k0 < k <= outbuf.buf.Length && outbuf.buf[..k0] == old(outbuf.buf[..k0])
    ensures Emitting(16, outbuf.buf[k0..k], 0, num0) && outbuf.buf[k - 1] != ZERO
    ensures outbuf.buf == old(outbuf.buf) || fresh(outbuf.buf)
  {
    ghost var kept, t := outbuf.buf[..k0], [];
    var num := num0;
    k := k0;
    while num != 0
      invariant k == k0 + |t| <= outbuf.buf.Length && outbuf.buf[..k] == kept + t
      invariant Emitting(16, t, num, num0)
      invariant num == 0 ==> k > k0 && outbuf.buf[k - 1] != ZERO
      invariant outbuf.buf == old(outbuf.buf) || fresh(outbuf.buf)
      decreases num
    {
      var ch := Num2CharRadix(num % 16);
      EmitDigit(16, t, num, num0, num % 16, num / 16);
      DigitRoundTrip(num % 16, 16);
      outbuf.Putc(k, ch);
      assert outbuf.buf[k] == outbuf.buf[..k + 1][k];
      t := t + [ch];
      k, num := k + 1, num / 16;
    }
    assert outbuf.buf[k0..k] == outbuf.buf[..k][k0..] == t;
    assert outbuf.buf[..k0] == outbuf.buf[..k][..k0];
  }

  // uls_reverse_bytes on the digits just printed
  method ReverseDigits(buf: array<Byte>, k0: nat, k: nat)
    requires k0 <= k < buf.Length
    modifies buf
    ensures buf[k0..k] == Reversed(old(buf[k0..k])) && buf[..k0] == old(buf[..k0]) && buf[k] == old(buf[k])
  {
    var n := k - k0;
    assert buf[k0..k0 + n] == buf[k0..k];
    ReverseBytes(buf, k0, n);
    assert buf[k0..k0 + n] == buf[k0..k];
  }

  // cvt_radix_simple_num for a zero register
  method PutZero(outbuf: OutBuf, k0: nat) returns (k: nat)
    requires k0 <= outbuf.buf.Length
    modifies outbuf, outbuf.buf
    ensures k0 < k < outbuf.buf.Length && outbuf.buf[..k0] == old(outbuf.buf[..k0]) && outbuf.buf[k] == NUL
    ensures outbuf.buf[k0..k] == Text(16, 0)
    ensures outbuf.buf == old(outbuf.buf) || fresh(outbuf.buf)
  {
    ghost var kept := outbuf.buf[..k0];
    outbuf.Putc(k0, ZERO);
    k := k0 + 1;
    assert outbuf.buf[..k] == kept + [ZERO];
    assert outbuf.buf[..k0] == outbuf.buf[..k][..k0] && outbuf.buf[k0..k] == outbuf.buf[..k][k0..] == [ZERO];
    CloseText(outbuf, k0, k);
  }

  // cvt_radix_simple_num for a nonzero register
  method PutRegister(num: nat, outbuf: OutBuf, k0: nat) returns (k: nat)
    requires num > 0 && k0 <= outbuf.buf.Length
    modifies outbuf, outbuf.buf
    ensures k0 < k < outbuf.buf.Length && outbuf.buf[..k0] == old(outbuf.buf[..k0]) && outbuf.buf[k] == NUL
    ensures outbuf.buf[k0..k] == Text(16, num)
    ensures outbuf.buf == old(outbuf.buf) || fresh(outbuf.buf)
  {
    k := PutDigitsUp(num, outbuf, k0);
    ghost var t := outbuf.buf[k0..k];
    assert t[|t| - 1] == outbuf.buf[k - 1];
    EmittedText(16, t, num);
    CloseText(outbuf, k0, k);
    ReverseDigits(outbuf.buf, k0, k);
  }

  // cvt_radix_simple_num, whose second radix is 16 in every call
  method CvtRadixSimpleNum(radix1: nat, numbuf1: seq<Byte>, outbuf: OutBuf, k0: nat) returns (k: nat)
    requires 2 <= radix1 <= 36 && IsNumeral(radix1, numbuf1) && numbuf1 != [] && k0 <= outbuf.buf.Length
    requires Val(radix1, numbuf1) < TWO_64
    modifies outbuf, outbuf.buf
    ensures k0 < k < outbuf.buf.Length && outbuf.buf[..k0] == old(outbuf.buf[..k0]) && outbuf.buf[k] == NUL
    ensures HexFrom(outbuf.buf[k0..k], radix1, numbuf1)
    ensures outbuf.buf == old(outbuf.buf) || fresh(outbuf.buf)
  {
    if radix1 == 16 {
      k := AppendHex(numbuf1, outbuf, k0);
      return;
    }
    TextIsHexFrom(radix1, numbuf1);
    var num := GetUint64FromRadixNumstr(radix1, numbuf1);
    if num == 0 {
      k := PutZero(outbuf, k0);
    } else {
      k := PutRegister(num, outbuf, k0);
    }
  }

  // uls_radix2hexadecimal_str: the register for short numerals, digit strings for long ones
  method Radix2HexadecimalStr(radix1: nat, numbuf1: seq<Byte>, outbuf: OutBuf, k0: nat) returns (k: nat)
    requires 2 <= radix1 <= 36 && IsNumeral(radix1, numbuf1) && numbuf1 != [] && k0 <= outbuf.buf.Length
    modifies outbuf, outbuf.buf
    ensures k0 < k < outbuf.buf.Length && outbuf.buf[..k0] == old(outbuf.buf[..k0]) && outbuf.buf[k] == NUL
    ensures HexFrom(outbuf.buf[k0..k], radix1, numbuf1)
    ensures outbuf.buf == old(outbuf.buf) || fresh(outbuf.buf)
  {
    if |numbuf1| <= MaxDigits(radix1) {
      LimitFits(radix1, numbuf1);
      k := CvtRadixSimpleNum(radix1, numbuf1, outbuf, k0);
    } else {
      k := CvtRadixToHexadecimalStr(radix1, numbuf1, outbuf, k0);
    }
  }

  /** Without leading zeros the register and the digit strings give the same text, whenever the register holds the
      value. */
  method FastRefinesSlow(radix: nat, numeral: seq<Byte>) returns (fast: seq<Byte>, slow: seq<Byte>)
    requires 2 <= radix <= 36 && Canonical(radix, numeral) && Val(radix, numeral) < TWO_64
    ensures fast == slow && Val(16, fast) == Val(radix, numeral)
    ensures radix != 16 ==> fast == Text(16, Val(radix, numeral))
  {
    var outbuf1 := new OutBuf(0);
    var outbuf2 := new OutBuf(0);
    var k1 := CvtRadixSimpleNum(radix, numeral, outbuf1, 0);
    var k2 := CvtRadixToHexadecimalStr(radix, numeral, outbuf2, 0);
    fast, slow := outbuf1.buf[..k1], outbuf2.buf[..k2];
    assert fast == outbuf1.buf[0..k1] && slow == outbuf2.buf[0..k2];
  }
}
