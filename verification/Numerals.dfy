/** What a digit string denotes, and when it is the one canonical string for its value.
    Everything the number engine prints is stated with these. */
module Numerals {
  import opened Bytes
  import opened Arith

  // is_num_radix: the value of a digit of either letter case, or -1
  function IsNumRadix(ch: Byte, radix: int): int {
    var num := if IsDigit(ch) then ch - ZERO
               else if UPPER_A <= ch < UPPER_A + 26 then 10 + (ch - UPPER_A)
               else if LOWER_A <= ch < LOWER_A + 26 then 10 + (ch - LOWER_A)
               else -1;
    if num >= radix then -1 else num
  }

  // num2char_radix
  function Num2CharRadix(val: nat): Byte {
    if val < 10 then ZERO + val
    else if val < 36 then val - 10 + UPPER_A
    else 94
  }

  lemma DigitRoundTrip(val: nat, radix: int)
    requires val < radix <= 36
    ensures IsNumRadix(Num2CharRadix(val), radix) == val
    ensures !(LOWER_A <= Num2CharRadix(val) < LOWER_A + 26)
    ensures Num2CharRadix(val) == ZERO <==> val == 0
  {}

  /** The digit characters in order; a letter counts in either case, and no digit is worth the radix. */
  lemma DigitLetters(val: nat, radix: int)
    requires val < 36
    ensures Num2CharRadix(val) as char == "0123456789ABCDEFGHIJKLMNOPQRSTUVWXYZ"[val]
    ensures IsNumRadix(Num2CharRadix(val), radix) == if val < radix then val else -1
    ensures val >= 10 ==> IsNumRadix(Num2CharRadix(val) + 32, radix) == if val < radix then val else -1
  {
    LettersFollow(val);
  }

  lemma LettersFollow(val: nat)
    requires val < 36
    ensures "0123456789ABCDEFGHIJKLMNOPQRSTUVWXYZ"[val] ==
            if val < 10 then (48 + val) as char else (55 + val) as char
  {
    assert val < 10 ==> "0123456789"[val] == (48 + val) as char;
  }

  /** The value of one digit character, whatever the radix; 0 for any other character. */
  function DigitOf(ch: Byte): nat {
    var num := IsNumRadix(ch, 36);
    if num < 0 then 0 else num
  }

  ghost predicate IsNumeral(base: int, s: seq<Byte>) {
    forall i :: 0 <= i < |s| ==> IsNumRadix(s[i], base) >= 0
  }

  /** The number whose high part is `acc` and whose remaining digits are `s`. */
  ghost function ValFrom(base: nat, acc: nat, s: seq<Byte>): nat
    decreases |s|
  {
    if s == [] then acc else ValFrom(base, acc * base + DigitOf(s[0]), s[1..])
  }

  ghost function Val(base: nat, s: seq<Byte>): nat {
    ValFrom(base, 0, s)
  }

  /** Not empty, only digits of the radix, no leading zero unless it is the numeral zero. */
  ghost predicate Canonical(base: int, s: seq<Byte>) {
    |s| > 0 && IsNumeral(base, s) && (|s| > 1 ==> s[0] != ZERO)
  }

  ghost predicate UpperCase(s: seq<Byte>) {
    forall i :: 0 <= i < |s| ==> !(LOWER_A <= s[i] < LOWER_A + 26)
  }

  ghost function Pow(base: nat, n: nat): nat {
    if n == 0 then 1 else base * Pow(base, n - 1)
  }

  lemma {:induction false} ValAppend(base: nat, acc: nat, s: seq<Byte>, t: seq<Byte>)
    ensures ValFrom(base, acc, s + t) == ValFrom(base, ValFrom(base, acc, s), t)
    decreases |s|
  {
    if s == [] {
      assert s + t == t;
    } else {
      assert (s + t)[1..] == s[1..] + t;
      ValAppend(base, acc * base + DigitOf(s[0]), s[1..], t);
    }
  }

  lemma ValSnoc(base: nat, acc: nat, s: seq<Byte>, ch: Byte)
    ensures ValFrom(base, acc, s + [ch]) == ValFrom(base, acc, s) * base + DigitOf(ch)
  {
    ValAppend(base, acc, s, [ch]);
    assert ValFrom(base, ValFrom(base, acc, s), [ch]) == ValFrom(base, ValFrom(base, acc, s) * base + DigitOf(ch), []);
  }

  lemma PowPositive(base: nat, n: nat)
    requires base >= 1
    ensures Pow(base, n) >= 1
  {}

  lemma {:induction false} PowMonotone(b: nat, c: nat, m: nat, n: nat)
    requires 1 <= b <= c && m <= n
    ensures Pow(b, m) <= Pow(c, n)
    decreases n
  {
    PowPositive(b, m);
    PowPositive(c, n);
    if m > 0 {
      PowMonotone(b, c, m - 1, n - 1);
      MulMono(b, c, Pow(b, m - 1), Pow(c, n - 1));
    }
  }

  lemma {:induction false} PowAdd(b: nat, m: nat, n: nat)
    ensures Pow(b, m + n) == Pow(b, m) * Pow(b, n)
    decreases m
  {
    if m > 0 {
      PowAdd(b, m - 1, n);
      Associate(b, Pow(b, m - 1), Pow(b, n));
    }
  }

  lemma {:induction false} PowOfPow(b: nat, a: nat, n: nat)
    ensures Pow(Pow(b, a), n) == Pow(b, a * n)
    decreases n
  {
    if n > 0 {
      PowOfPow(b, a, n - 1);
      Distribute(n, -1, a);
      PowAdd(b, a, a * (n - 1));
    }
  }

  lemma {:induction false} ValBounds(base: nat, acc: nat, s: seq<Byte>)
    requires base >= 1 && IsNumeral(base, s)
    ensures acc * Pow(base, |s|) <= ValFrom(base, acc, s) < (acc + 1) * Pow(base, |s|)
    decreases |s|
  {
    if s != [] {
      var d, p := DigitOf(s[0]), Pow(base, |s| - 1);
      ValBounds(base, acc * base + d, s[1..]);
      BoundStep(base, acc, d, p);
    }
  }

  lemma BoundStep(base: nat, acc: nat, d: nat, p: nat)
    requires d < base
    ensures acc * (base * p) <= (acc * base + d) * p
    ensures (acc * base + d + 1) * p <= (acc + 1) * (base * p)
  {
    Associate(acc, base, p);
    Associate(acc + 1, base, p);
    Distribute(acc, 1, base);
    MulMono(acc * base, acc * base + d, p, p);
    MulMono(acc * base + d + 1, (acc + 1) * base, p, p);
  }

  lemma ValBelow(base: nat, s: seq<Byte>)
    requires base >= 1 && IsNumeral(base, s)
    ensures Val(base, s) < Pow(base, |s|)
  {
    ValBounds(base, 0, s);
  }

  /** A numeral without a leading zero is at least the power its length names. */
  lemma ValAtLeast(base: nat, s: seq<Byte>)
    requires base >= 2 && Canonical(base, s) && (|s| > 1 || s[0] != ZERO)
    ensures Val(base, s) >= Pow(base, |s| - 1) >= 1
  {
    var p := Pow(base, |s| - 1);
    PowPositive(base, |s| - 1);
    assert DigitOf(s[0]) >= 1;
    ValBounds(base, DigitOf(s[0]), s[1..]);
    MulMono(1, DigitOf(s[0]), p, p);
    assert Val(base, s) == ValFrom(base, DigitOf(s[0]), s[1..]);
  }

  /** A canonical numeral is as short as its value allows. */
  lemma CanonicalLength(base: nat, s: seq<Byte>, c: nat)
    requires base >= 2 && Canonical(base, s) && Val(base, s) < Pow(base, c) && c >= 1
    ensures |s| <= c
  {
    if |s| > c {
      ValAtLeast(base, s);
      PowMonotone(base, base, c, |s| - 1);
    }
  }

  lemma CanonicalZero(base: nat, s: seq<Byte>)
    requires base >= 2 && Canonical(base, s)
    ensures Val(base, s) == 0 <==> s == [ZERO]
  {
    if s == [ZERO] {
      assert Val(base, s) == ValFrom(base, DigitOf(s[0]), s[1..]);
    } else {
      ValAtLeast(base, s);
    }
  }

  /** The canonical upper-case numeral of a value is unique. */
  lemma {:induction false} CanonicalUnique(base: nat, s: seq<Byte>, t: seq<Byte>)
    requires 2 <= base <= 36
    requires Canonical(base, s) && Canonical(base, t) && UpperCase(s) && UpperCase(t)
    requires Val(base, s) == Val(base, t)
    ensures s == t
  {
    CanonicalZero(base, s);
    CanonicalZero(base, t);
    if s != [ZERO] {
      ValAtLeast(base, s);
      ValAtLeast(base, t);
      ValBelow(base, s);
      ValBelow(base, t);
      if |s| < |t| {
        PowMonotone(base, base, |s|, |t| - 1);
      } else if |t| < |s| {
        PowMonotone(base, base, |t|, |s| - 1);
      }
      SameLengthUnique(base, s, t);
    }
  }

  lemma {:induction false} SameLengthUnique(base: nat, s: seq<Byte>, t: seq<Byte>)
    requires 2 <= base <= 36 && |s| == |t|
    requires IsNumeral(base, s) && IsNumeral(base, t) && UpperCase(s) && UpperCase(t)
    requires Val(base, s) == Val(base, t)
    ensures s == t
    decreases |s|
  {
    if s != [] {
      var n := |s| - 1;
      assert s == s[..n] + [s[n]] && t == t[..n] + [t[n]];
      ValSnoc(base, 0, s[..n], s[n]);
      ValSnoc(base, 0, t[..n], t[n]);
      QuotientUnique(base, Val(base, s[..n]), DigitOf(s[n]), Val(base, t[..n]), DigitOf(t[n]));
      SameLengthUnique(base, s[..n], t[..n]);
      UpperDigitUnique(s[n], t[n]);
    }
  }

  lemma UpperDigitUnique(a: Byte, b: Byte)
    requires IsNumRadix(a, 36) == IsNumRadix(b, 36) >= 0
    requires !(LOWER_A <= a < LOWER_A + 26) && !(LOWER_A <= b < LOWER_A + 26)
    ensures a == b
  {}

  // ---------- numbers written low digit first, as the loops produce them ----------

  /** The number whose low digits, least significant first, are `ds` and whose high part is `hi`. */
  ghost function Up(base: nat, ds: seq<int>, hi: int): int {
    if ds == [] then hi else ds[0] + base * Up(base, ds[1..], hi)
  }

  lemma {:induction false} UpAppend(base: nat, ds: seq<int>, es: seq<int>, hi: int)
    ensures Up(base, ds + es, hi) == Up(base, ds, Up(base, es, hi))
    decreases |ds|
  {
    if ds == [] {
      assert ds + es == es;
    } else {
      assert (ds + es)[1..] == ds[1..] + es;
      UpAppend(base, ds[1..], es, hi);
    }
  }

  lemma UpSnoc(base: nat, ds: seq<int>, d: int, hi: int)
    ensures Up(base, ds + [d], hi) == Up(base, ds, d + base * hi)
  {
    UpAppend(base, ds, [d], hi);
    assert Up(base, [d], hi) == d + base * Up(base, [], hi);
  }

  /** `s` is the printed form, most significant first, of the low-first digits `ds`. */
  ghost predicate Prints(ds: seq<int>, s: seq<Byte>) {
    |s| == |ds| && forall i {:trigger ds[i]} :: 0 <= i < |ds| ==> DigitOf(s[|s| - 1 - i]) == ds[i]
  }

  lemma {:induction false} UpIsVal(base: nat, ds: seq<int>, hi: nat, s: seq<Byte>)
    requires Prints(ds, s)
    ensures Up(base, ds, hi) == ValFrom(base, hi, s)
    decreases |ds|
  {
    if ds != [] {
      var n, rest := |s| - 1, ds[1..];
      assert Prints(rest, s[..n]) by {
        forall i {:trigger rest[i]} | 0 <= i < n ensures DigitOf(s[..n][n - 1 - i]) == rest[i] {
          assert rest[i] == ds[i + 1];
        }
      }
      UpIsVal(base, rest, hi, s[..n]);
      assert DigitOf(s[n]) == ds[0];
      ValSnoc(base, hi, s[..n], s[n]);
      assert s == s[..n] + [s[n]];
    }
  }

  // ---------- the canonical text of a number ----------

  /** The one canonical upper-case numeral of `v`. */
  ghost function Text(base: nat, v: nat): (s: seq<Byte>)
    requires 2 <= base <= 36
    decreases v
  {
    if v < base then [Num2CharRadix(v)]
    else
      QuotientShrinks(base, v);
      Text(base, v / base) + [Num2CharRadix(v % base)]
  }

  lemma QuotientShrinks(base: nat, v: nat)
    requires base >= 2 && v >= base
    ensures 1 <= v / base < v && 0 <= v % base < base && v == (v / base) * base + v % base
  {
    if v / base >= v {
      MulMono(v, v / base, 2, base);
    } else if v / base < 1 {
      MulMono(v / base, 0, base, base);
    }
  }

  lemma {:induction false} TextIsCanonical(base: nat, v: nat)
    requires 2 <= base <= 36
    ensures Canonical(base, Text(base, v)) && UpperCase(Text(base, v)) && Val(base, Text(base, v)) == v
    decreases v
  {
    if v < base {
      DigitRoundTrip(v, base);
      ValSnoc(base, 0, [], Num2CharRadix(v));
      assert [] + Text(base, v) == Text(base, v);
    } else {
      QuotientShrinks(base, v);
      TextIsCanonical(base, v / base);
      CanonicalZero(base, Text(base, v / base));
      DigitRoundTrip(v % base, base);
      ValSnoc(base, 0, Text(base, v / base), Num2CharRadix(v % base));
    }
  }

  /** A canonical upper-case numeral is the text of its value. */
  lemma CanonicalIsText(base: nat, s: seq<Byte>)
    requires 2 <= base <= 36 && Canonical(base, s) && UpperCase(s)
    ensures s == Text(base, Val(base, s))
  {
    TextIsCanonical(base, Val(base, s));
    CanonicalUnique(base, s, Text(base, Val(base, s)));
  }

  lemma {:induction false} ValShift(base: nat, acc: nat, s: seq<Byte>)
    ensures ValFrom(base, acc, s) == acc * Pow(base, |s|) + Val(base, s)
    decreases |s|
  {
    if s != [] {
      var d, p := DigitOf(s[0]), Pow(base, |s| - 1);
      ValShift(base, acc * base + d, s[1..]);
      ValShift(base, d, s[1..]);
      assert Val(base, s) == ValFrom(base, d, s[1..]);
      Distribute(acc * base, d, p);
      Associate(acc, base, p);
    }
  }

  /** A digit is worth itself times the power its place names. */
  lemma ValPlaces(base: nat, ch: Byte, s: seq<Byte>)
    ensures Val(base, []) == 0 && Val(base, [ch] + s) == DigitOf(ch) * Pow(base, |s|) + Val(base, s)
  {
    assert ([ch] + s)[1..] == s;
    ValShift(base, DigitOf(ch), s);
  }
}
