/** Arithmetic on decimal digit strings of any length, done inside character buffers
    (src/uls_num.c). A C pointer into a buffer is an array and an offset. */
module DecStr {
  import opened Arith
  import opened Bytes
  import opened Numerals

  /** The `n` bytes at the two pointers are the same bytes, or have none in common. */
  ghost predicate Apart(a: array<Byte>, p: nat, b: array<Byte>, q: nat, n: nat) {
    a != b || p == q || p + n <= q || q + n <= p
  }

  ghost predicate Binary(ds: seq<int>) {
    forall i :: 0 <= i < |ds| ==> 0 <= ds[i] < 10
  }

  // The first loop of add_decstr_by_xx: digits to numbers, least significant first.
  method CopyReversed(num: array<Byte>, p: nat, n: nat, out: array<Byte>, q: nat)
    requires p + n <= num.Length && q + n <= out.Length && Apart(num, p, out, q, n)
    requires forall x :: p <= x < p + n ==> IsDigit(num[x])
    modifies out
    ensures forall x :: q <= x < q + n ==> out[x] == old(num[..])[p + (q + n - 1 - x)] - ZERO
    ensures forall x :: 0 <= x < q || q + n <= x < out.Length ==> out[x] == old(out[x])
  {
    ghost var s := num[..];
    var i, k := 0, n - 1;
    while i < n / 2
      invariant 0 <= 2 * i <= n && k == n - 1 - i
      invariant forall x :: q <= x < q + i || q + n - i <= x < q + n ==> out[x] == s[p + (q + n - 1 - x)] - ZERO
      invariant forall x :: p + i <= x < p + n - i ==> num[x] == s[x]
      invariant forall x :: 0 <= x < q || q + n <= x < out.Length ==> out[x] == old(out[x])
    {
      var ch := num[p + i];
      out[q + i] := num[p + k] - ZERO;
      out[q + k] := ch - ZERO;
      i, k := i + 1, k - 1;
    }
    if n % 2 != 0 {
      out[q + i] := num[p + i] - ZERO;
    }
  }

  lemma CopiedPrints(s: seq<Byte>, ds: seq<Byte>)
    requires |s| == |ds|
    requires forall i :: 0 <= i < |s| ==> IsDigit(s[i])
    requires forall i :: 0 <= i < |s| ==> ds[i] == s[|s| - 1 - i] - ZERO
    ensures Binary(ds) && Prints(ds, s)
  {}

  // A canonical numeral of more than zero, as low-first digits
  method LoadDigits(num: array<Byte>, p: nat, n: nat, out: array<Byte>, q: nat)
    requires p + n <= num.Length && q + n <= out.Length && Canonical(10, num[p..p + n]) && Apart(num, p, out, q, n)
    modifies out
    ensures Binary(out[q..q + n]) && Prints(out[q..q + n], old(num[p..p + n])) && (n > 1 ==> out[q + n - 1] != 0)
    ensures forall x :: 0 <= x < q || q + n <= x < out.Length ==> out[x] == old(out[x])
  {
    ghost var s := num[p..p + n];
    assert forall x :: p <= x < p + n ==> num[x] == s[x - p];
    CopyReversed(num, p, n, out, q);
    CopiedPrints(s, out[q..q + n]);
    assert n > 1 ==> out[q + n - 1] == s[0] - ZERO;
  }

  /** Numbers below ten as digit characters. */
  ghost function Shown(ds: seq<Byte>): (s: seq<Byte>)
    requires Binary(ds)
    ensures |s| == |ds| && forall i {:trigger s[i]} :: 0 <= i < |ds| ==> s[i] == ZERO + ds[i]
  {
    seq(|ds|, i requires 0 <= i < |ds| => (ZERO + ds[i]) as Byte)
  }

  // The last loop of both routines: numbers to digits
  method ToDigits(out: array<Byte>, q: nat, k: nat)
    requires q + k <= out.Length && Binary(out[q..q + k])
    modifies out
    ensures out[q..q + k] == Shown(old(out[q..q + k]))
    ensures forall x :: 0 <= x < q || q + k <= x < out.Length ==> out[x] == old(out[x])
  {
    ghost var ds := out[q..q + k];
    for i := 0 to k
      invariant forall x :: q <= x < q + i ==> out[x] == ZERO + ds[x - q]
      invariant forall x :: q + i <= x < q + k ==> out[x] == ds[x - q]
      invariant forall x :: 0 <= x < q || q + k <= x < out.Length ==> out[x] == old(out[x])
    {
      out[q + i] := ZERO + out[q + i];
    }
    assert forall i :: 0 <= i < k ==> out[q..q + k][i] == Shown(ds)[i];
  }

  lemma ShownPrints(ds: seq<Byte>)
    requires Binary(ds) && ds != []
    ensures var s := Reversed(Shown(ds)); Prints(ds, s) && IsNumeral(10, s) && s[0] == ZERO + ds[|ds| - 1]
  {}

  lemma ShownAt(row: seq<Byte>, q: nat, k: nat, ds: seq<Byte>, top: Byte)
    requires q + k <= |row| && Binary(ds) && k == |ds| > 0 && row[q..q + k] == Reversed(Shown(ds)) && ds[k - 1] == top
    ensures Prints(ds, row[q..q + k]) && IsNumeral(10, row[q..q + k]) && row[q] == ZERO + top
  {
    ShownPrints(ds);
    assert row[q] == row[q..q + k][0];
  }

  // The end of both routines: numbers to digits, then most significant first.
  method PrintReversed(out: array<Byte>, q: nat, k: nat)
    requires q + k <= out.Length && k > 0 && Binary(out[q..q + k])
    modifies out
    ensures Prints(old(out[q..q + k]), out[q..q + k]) && IsNumeral(10, out[q..q + k])
    ensures out[q] == ZERO + old(out[q + k - 1])
    ensures forall x :: 0 <= x < q || q + k <= x < out.Length ==> out[x] == old(out[x])
  {
    ghost var ds, top := out[q..q + k], out[q + k - 1];
    ToDigits(out, q, k);
    ReverseBytes(out, q, k);
    ShownAt(out[..], q, k, ds, top);
  }

  // ---------- addition ----------

  /** The digits of `src` from place `i` up, as a number. */
  ghost function High(src: seq<int>, i: nat): int {
    if i <= |src| then Up(10, src[i..], 0) else 0
  }

  /** An addition to the `n` low-first digits at `q` of `was` has set `i` places of `row`
      and still owes `due` at place `i`. */
  ghost predicate Adding(was: seq<Byte>, row: seq<Byte>, q: nat, n: nat, i: nat, due: int, total: int) {
    && q + n <= |was| == |row| && q + i <= |row|
    && Binary(row[q..q + i])
    && total == Up(10, row[q..q + i], High(was[q..q + n], i) + due)
    && (forall x :: 0 <= x < q || q + i <= x < |row| ==> row[x] == was[x])
    && (i > 0 && i >= n && due == 0 ==> row[q + i - 1] != 0)
  }

  lemma HighSplits(src: seq<int>, i: nat)
    ensures i < |src| ==> High(src, i) == src[i] + 10 * High(src, i + 1)
    ensures i >= |src| ==> High(src, i) == High(src, i + 1) == 0
  {
    if i < |src| {
      assert src[i..][1..] == src[i + 1..];
    } else if i == |src| {
      assert src[i..] == [];
    }
  }

  lemma PlaceAppended(row: seq<Byte>, q: nat, i: nat, v: Byte)
    requires q + i < |row|
    ensures row[q + i := v][q..q + i + 1] == row[q..q + i] + [v]
  {}

  lemma AddPlace(was: seq<Byte>, row: seq<Byte>, q: nat, n: nat, i: nat, due: int, total: int, v: Byte, due': int)
    requires Adding(was, row, q, n, i, due, total) && q + i < |row|
    requires v < 10 && v + 10 * due' == due + (if i < n then was[q + i] else 0)
    requires i + 1 >= n && due' == 0 ==> v != 0
    ensures Adding(was, row[q + i := v], q, n, i + 1, due', total)
  {
    var src: seq<int> := was[q..q + n];
    HighSplits(src, i);
    UpSnoc(10, row[q..q + i], v, High(src, i + 1) + due');
    PlaceAppended(row, q, i, v);
  }

  // One place of the sum: keeps its last digit, returns the carry.
  method PutSum(out: array<Byte>, at: nat, sum: nat) returns (carry: nat)
    requires at < out.Length && sum < 20
    modifies out
    ensures carry == sum / 10 && out[..] == old(out[..])[at := sum % 10]
  {
    var val := sum;
    if val >= 10 {
      carry, val := 1, val - 10;
    } else {
      carry := 0;
    }
    out[at] := val;
  }

  // add_decstr_by_xx, the first two digits: where `nn` itself is added
  method AddTwoDigits(out: array<Byte>, q: nat, n: nat, nn: nat) returns (i: nat, carry: nat)
    requires 1 <= n && 0 < nn <= 99 && q + n + (if nn < 10 then 1 else 2) <= out.Length
    requires Binary(out[q..q + n]) && (n > 1 ==> out[q + n - 1] != 0)
    modifies out
    ensures carry <= 1 && i == (if nn < 10 then 1 else 2)
    ensures Adding(old(out[..]), out[..], q, n, i, carry, Up(10, old(out[q..q + n]), 0) + nn)
  {
    ghost var was := out[..];
    ghost var total := Up(10, was[q..q + n], 0) + nn;
    assert was[q..q + n][0..] == was[q..q + n];
    assert was[q] == was[q..q + n][0];
    carry := PutSum(out, q, nn % 10 + out[q]);
    AddPlace(was, was, q, n, 0, nn, total, out[q], carry + nn / 10);
    i := 1;

    if nn / 10 != 0 {
      carry := AddSecondDigit(out, q, n, nn / 10, carry, was, total);
      i := 2;
    }
  }

  // add_decstr_by_xx, the second digit of `nn`
  method AddSecondDigit(out: array<Byte>, q: nat, n: nat, a: nat, carry0: nat, ghost was: seq<Byte>, ghost total: int)
    returns (carry: nat)
    requires 1 <= n && 0 < a < 10 && carry0 <= 1 && q + n + 2 <= out.Length
    requires Adding(was, out[..], q, n, 1, carry0 + a, total)
    requires Binary(was[q..q + n]) && (n > 1 ==> was[q + n - 1] != 0)
    modifies out
    ensures carry <= 1 && Adding(was, out[..], q, n, 2, carry, total)
  {
    ghost var row := out[..];
    if n < 2 {
      out[q + 1] := 0;
    } else {
      assert out[q + 1] == was[q + 1] == was[q..q + n][1];
    }
    carry := PutSum(out, q + 1, carry0 + a + out[q + 1]);
    AddPlace(was, row, q, n, 1, carry0 + a, total, out[q + 1], carry);
    assert out[..] == row[q + 1 := out[q + 1]];
  }

  // add_decstr_by_xx, the remaining digits: the carry ripples up
  method AddRemainder(out: array<Byte>, q: nat, n: nat, i0: nat, carry0: nat, ghost was: seq<Byte>, ghost total: int)
    returns (k: nat)
    requires 1 <= i0 <= n + 1 && carry0 <= 1 && q + n < out.Length && q + i0 < out.Length
    requires Adding(was, out[..], q, n, i0, carry0, total)
    requires Binary(was[q..q + n]) && (n > 1 ==> was[q + n - 1] != 0)
    modifies out
    ensures n <= k && i0 <= k <= (if i0 <= n then n + 1 else i0 + 1)
    ensures Adding(was, out[..], q, n, k, 0, total)
  {
    var i, carry := i0, carry0;
    while i < n
      invariant i0 <= i && (i <= n || i == i0) && carry <= 1
      invariant Adding(was, out[..], q, n, i, carry, total)
    {
      carry := AddNextDigit(out, q, n, i, carry, was, total);
      i := i + 1;
    }
    if carry != 0 {
      ghost var row := out[..];
      AddPlace(was, row, q, n, i, carry, total, 1, 0);
      out[q + i] := 1;
      assert out[..] == row[q + i := 1];
      i := i + 1;
    }
    k := i;
  }

  // add_decstr_by_xx: the carry meets the digit at place `i`
  method AddNextDigit(out: array<Byte>, q: nat, n: nat, i: nat, carry0: nat, ghost was: seq<Byte>, ghost total: int)
    returns (carry: nat)
    requires 1 <= i < n && carry0 <= 1 && q + n < out.Length && Adding(was, out[..], q, n, i, carry0, total)
    requires Binary(was[q..q + n]) && (n > 1 ==> was[q + n - 1] != 0)
    modifies out
    ensures carry <= 1 && Adding(was, out[..], q, n, i + 1, carry, total)
  {
    ghost var row := out[..];
    assert row[q + i] == was[q + i] && was[q..q + n][i] == was[q + i];
    carry := PutSum(out, q + i, carry0 + out[q + i]);
    AddPlace(was, row, q, n, i, carry0, total, (carry0 + was[q + i]) % 10, carry);
  }

  /** `text` is the canonical decimal of `v` at offset `q`, closed by a NUL. */
  ghost predicate Printed(row: seq<Byte>, q: nat, k: nat, v: int) {
    q + k < |row| && Canonical(10, row[q..q + k]) && Val(10, row[q..q + k]) == v && row[q + k] == NUL
  }

  lemma AddedPrints(was: seq<Byte>, mid: seq<Byte>, text: seq<Byte>, q: nat, n: nat, k: nat, s: seq<Byte>, nn: nat)
    requires q + n <= |was| && 1 <= n <= k && Prints(was[q..q + n], s)
    requires Adding(was, mid, q, n, k, 0, Up(10, was[q..q + n], 0) + nn)
    requires Prints(mid[q..q + k], text) && IsNumeral(10, text) && text[0] == ZERO + mid[q + k - 1]
    ensures Canonical(10, text) && Val(10, text) == Val(10, s) + nn
  {
    assert High(was[q..q + n], k) == 0 by {
      assert k == n ==> was[q..q + n][k..] == [];
    }
    UpIsVal(10, was[q..q + n], 0, s);
    UpIsVal(10, mid[q..q + k], 0, text);
  }

  lemma TwoDigitNumber(hi: Byte, lo: Byte)
    requires IsDigit(hi) && IsDigit(lo)
    ensures Val(10, [lo]) == lo - ZERO && Val(10, [hi, lo]) == 10 * (hi - ZERO) + (lo - ZERO)
  {
    ValSnoc(10, 0, [], lo);
    ValSnoc(10, 0, [], hi);
    ValSnoc(10, 0, [hi], lo);
    assert [] + [lo] == [lo] && [] + [hi] == [hi] && [hi] + [lo] == [hi, lo];
  }

  // add_decstr_by_xx when numstr is "0": prints nn itself
  method PrintTwoDigits(nn: nat, out: array<Byte>, q: nat) returns (k: nat)
    requires nn <= 99 && q + (if nn < 10 then 1 else 2) < out.Length
    modifies out
    ensures Printed(out[..], q, k, nn)
    ensures forall x :: 0 <= x < q || q + k < x < out.Length ==> out[x] == old(out[x])
  {
    k := 0;
    var a := nn / 10;
    if a != 0 {
      out[q + k] := ZERO + a;
      k := k + 1;
    }
    a := nn % 10;
    out[q + k] := ZERO + a;
    k := k + 1;
    out[q + k] := NUL;
    TwoDigitNumber(ZERO + nn / 10, ZERO + a);
    assert out[q..q + k] == if nn < 10 then [ZERO + a] else [ZERO + nn / 10, ZERO + a];
  }

  // uls_memmove of a digit string, then its terminator
  method CopyDigits(num: array<Byte>, p: nat, n: nat, out: array<Byte>, q: nat)
    requires p + n <= num.Length && Canonical(10, num[p..p + n]) && q + n < out.Length
    modifies out
    ensures Printed(out[..], q, n, Val(10, old(num[p..p + n])))
    ensures forall x :: 0 <= x < q || q + n < x < out.Length ==> out[x] == old(out[x])
  {
    ghost var s := num[p..p + n];
    forall i | 0 <= i < n {
      out[q + i] := num[p + i];
    }
    assert forall i :: 0 <= i < n ==> out[q..q + n][i] == s[i];
    assert out[q..q + n] == s;
    out[q + n] := NUL;
    assert out[q..q + n] == s;
  }

  // add_decstr_by_xx for a nonzero numstr and a positive nn
  method AddNonZero(num: array<Byte>, p: nat, n: nat, nn: nat, out: array<Byte>, q: nat) returns (k: nat)
    requires p + n <= num.Length && Canonical(10, num[p..p + n]) && 0 < nn <= 99
    requires q + n + (if nn < 10 then 1 else 2) < out.Length && Apart(num, p, out, q, n)
    modifies out
    ensures Printed(out[..], q, k, Val(10, old(num[p..p + n])) + nn)
    ensures forall x :: 0 <= x < q || q + k < x < out.Length ==> out[x] == old(out[x])
  {
    ghost var s := num[p..p + n];
    LoadDigits(num, p, n, out, q);
    ghost var was := out[..];
    var i, carry := AddTwoDigits(out, q, n, nn);
    k := AddRemainder(out, q, n, i, carry, was, Up(10, was[q..q + n], 0) + nn);
    ghost var mid := out[..];
    PrintReversed(out, q, k);
    AddedPrints(was, mid, out[q..q + k], q, n, k, s, nn);
    out[q + k] := NUL;
  }

  // add_decstr_by_xx: numstr + nn --> outbuf
  method AddDecstr(num: array<Byte>, p: nat, n: nat, nn: nat, out: array<Byte>, q: nat) returns (k: nat)
    requires p + n <= num.Length && Canonical(10, num[p..p + n]) && nn <= 99
    requires q + n + (if nn < 10 then 1 else 2) < out.Length && Apart(num, p, out, q, n)
    modifies out
    ensures Printed(out[..], q, k, Val(10, old(num[p..p + n])) + nn)
    ensures forall x :: 0 <= x < q || q + k < x < out.Length ==> out[x] == old(out[x])
  {
    assert num[p] == num[p..p + n][0];
    if n == 1 && num[p] == ZERO {
      CanonicalZero(10, num[p..p + n]);
      k := PrintTwoDigits(nn, out, q);
    } else if nn == 0 {
      CopyDigits(num, p, n, out, q);
      k := n;
    } else {
      k := AddNonZero(num, p, n, nn, out, q);
    }
  }

  // ---------- multiplication ----------

  /** The `j` low-first digits at `q` are final, and `high` is what the places above them must hold. */
  ghost predicate Placing(row: seq<Byte>, q: nat, j: nat, total: int, high: int) {
    q + j <= |row| && Binary(row[q..q + j]) && total == Up(10, row[q..q + j], high)
  }

  lemma Place(row: seq<Byte>, q: nat, j: nat, total: int, high: int, v: Byte, high': int)
    requires Placing(row, q, j, total, high) && q + j < |row|
    requires v < 10 && high == v + 10 * high'
    ensures Placing(row[q + j := v], q, j + 1, total, high')
  {
    UpSnoc(10, row[q..q + j], v, high');
    PlaceAppended(row, q, j, v);
  }

  /** What the places above must still take in: the first `r` digits of `s` times `a`, and a carry. */
  ghost function Owed(s: seq<Byte>, r: nat, a: nat, carry: int): int {
    if r <= |s| then a * Val(10, s[..r]) + carry else carry
  }

  lemma OwedStep(s: seq<Byte>, r: nat, a: nat, carry: int, v: int, carry': int, here: int)
    requires r < |s| && IsDigit(s[r]) && here + carry + a * (s[r] - ZERO) == v + 10 * carry'
    ensures here + Owed(s, r + 1, a, carry) == v + 10 * Owed(s, r, a, carry')
  {
    assert s[..r + 1] == s[..r] + [s[r]];
    ValSnoc(10, 0, s[..r], s[r]);
    Distribute(Val(10, s[..r]) * 10, s[r] - ZERO, a);
    Associate(a, Val(10, s[..r]), 10);
  }

  lemma OwedEnds(s: seq<Byte>, a: nat)
    ensures Owed(s, |s|, a, 0) == a * Val(10, s)
    ensures forall c :: Owed(s, 0, a, c) == c
  {
    assert s[..|s|] == s && s[..0] == [];
  }

  ghost predicate Disjoint(num: array<Byte>, p: nat, n: nat, out: array<Byte>, q: nat, m: nat) {
    num != out || p + n <= q || q + m <= p
  }

  // One place of the product: keeps the last digit of `more + d * a`, returns the carry.
  method PutProduct(out: array<Byte>, at: nat, d: nat, a: nat, more: nat) returns (carry: nat, ghost v: Byte)
    requires at < out.Length && d < 10 && a < 10 && more < 19
    modifies out
    ensures carry < 10 && v < 10 && more + a * d == v + 10 * carry
    ensures out[..] == old(out[..])[at := v]
    ensures d > 0 && a > 0 && carry == 0 ==> v != 0
  {
    MulMono(d, 9, a, 9);
    if d > 0 && a > 0 {
      MulMono(1, d, 1, a);
    }
    var val := more + d * a;
    carry := val / 10;
    v := val % 10;
    out[at] := val % 10;
  }

  // What is left when the digits of the multiplicand are used up.
  method PutCarry(out: array<Byte>, q: nat, j: nat, carry: nat, ghost total: int) returns (k: nat)
    requires q + j < out.Length && carry < 10 && Placing(out[..], q, j, total, carry)
    modifies out
    ensures Placing(out[..], q, k, total, 0)
    ensures k == (if carry > 0 then j + 1 else j) && (carry > 0 ==> out[q + j] != 0)
    ensures forall x :: 0 <= x < out.Length && (x != q + j || carry == 0) ==> out[x] == old(out[x])
  {
    k := j;
    if carry > 0 {
      Place(out[..], q, j, total, carry, carry, 0);
      out[q + k] := carry;
      assert out[..] == old(out[..])[q + j := carry];
      k := k + 1;
    }
  }

  // One round of the first loop: the digit `d` of the multiplicand, at place `j` from the right.
  method UnitsRound(d: nat, a: nat, more: nat, out: array<Byte>, q: nat, j: nat, ghost s: seq<Byte>, ghost r: nat,
                    ghost total: int) returns (carry: nat)
    requires q + j < out.Length && r < |s| && IsDigit(s[r]) && d == s[r] - ZERO && a < 10 && more < 10
    requires Placing(out[..], q, j, total, Owed(s, r + 1, a, more))
    modifies out
    ensures carry < 10 && Placing(out[..], q, j + 1, total, Owed(s, r, a, carry))
    ensures d > 0 && a > 0 && carry == 0 ==> out[q + j] != 0
    ensures forall x :: 0 <= x < out.Length && x != q + j ==> out[x] == old(out[x])
  {
    ghost var row, v := out[..], 0;
    carry, v := PutProduct(out, q + j, d, a, more);
    OwedStep(s, r, a, more, v, carry, 0);
    Place(row, q, j, total, Owed(s, r + 1, a, more), v, Owed(s, r, a, carry));
  }

  // The first loop of mul_decstr_by_xx: the digits of a * numstr, for a digit a.
  method TimesUnits(num: array<Byte>, p: nat, n: nat, a: nat, out: array<Byte>, q: nat) returns (n1: nat)
    requires p + n <= num.Length && Canonical(10, num[p..p + n]) && num[p] != ZERO && 0 < a < 10
    requires q + n < out.Length && Disjoint(num, p, n, out, q, n + 1)
    modifies out
    ensures n <= n1 <= n + 1 && out[q + n1 - 1] != 0
    ensures Placing(out[..], q, n1, a * Val(10, old(num[p..p + n])), 0)
    ensures forall x :: 0 <= x < q || q + n1 <= x < out.Length ==> out[x] == old(out[x])
  {
    ghost var s, total := num[p..p + n], a * Val(10, num[p..p + n]);
    OwedEnds(s, a);
    var carry := 0;
    n1 := 0;
    while n1 < n
      invariant n1 <= n && carry < 10
      invariant Placing(out[..], q, n1, total, Owed(s, n - n1, a, carry))
      invariant n1 == n && carry == 0 ==> out[q + n - 1] != 0
      invariant forall x :: 0 <= x < q || q + n1 <= x < out.Length ==> out[x] == old(out[x])
    {
      assert num[p + n - 1 - n1] == s[n - 1 - n1];
      carry := UnitsRound(num[p + n - 1 - n1] - ZERO, a, carry, out, q, n1, s, n - 1 - n1, total);
      n1 := n1 + 1;
    }
    n1 := PutCarry(out, q, n1, carry, total);
  }

  // One round of the second loop: the digit `d` of the multiplicand meets place `k`.
  method TensRound(d: nat, b: nat, more: nat, out: array<Byte>, q: nat, n: nat, k: nat, ghost s: seq<Byte>,
                   ghost r: nat, ghost was: seq<Byte>, ghost total: int) returns (carry: nat)
    requires q + k < out.Length && k < n && r < |s| && IsDigit(s[r]) && d == s[r] - ZERO && b < 10 && more < 10
    requires Adding(was, out[..], q, n, k, Owed(s, r + 1, b, more), total) && Binary(was[q..q + n])
    requires k + 1 == n ==> d > 0 && b > 0
    modifies out
    ensures carry < 10 && Adding(was, out[..], q, n, k + 1, Owed(s, r, b, carry), total)
  {
    ghost var row, v := out[..], 0;
    assert row[q + k] == was[q + k] == was[q..q + n][k];
    carry, v := PutProduct(out, q + k, d, b, more + out[q + k]);
    OwedStep(s, r, b, more, v, carry, was[q + k]);
    AddPlace(was, row, q, n, k, Owed(s, r + 1, b, more), total, v, Owed(s, r, b, carry));
  }

  /** The digits at `q`, and ten times `b` times the multiplicand. */
  ghost function TensTotal(was: seq<Byte>, q: nat, n: nat, b: nat, s: seq<Byte>): int {
    if q + n <= |was| then Up(10, was[q..q + n], 0) + 10 * (b * Val(10, s)) else 0
  }

  // The second loop of mul_decstr_by_xx, up to its last carry
  method TensLoop(num: array<Byte>, p: nat, n: nat, b: nat, out: array<Byte>, q: nat, ghost s: seq<Byte>,
                  ghost was: seq<Byte>)
    returns (carry: nat)
    requires p + n <= num.Length && s == num[p..p + n] && Canonical(10, s) && s[0] != ZERO && 0 < b < 10
    requires q + n + 1 < out.Length && Disjoint(num, p, n, out, q, n + 2)
    requires was == out[..] && Binary(was[q..q + n + 1])
    modifies out
    ensures carry < 10 && Adding(was, out[..], q, n + 1, n + 1, carry, TensTotal(was, q, n + 1, b, s))
  {
    TensStart(was, q, n, b * Val(10, s));
    OwedEnds(s, b);
    carry := 0;
    var k: nat := 1;
    while k < n + 1
      invariant 1 <= k <= n + 1 && carry < 10
      invariant Adding(was, out[..], q, n + 1, k, Owed(s, n + 1 - k, b, carry), TensTotal(was, q, n + 1, b, s))
    {
      assert num[p + n - k] == s[n - k];
      carry := TensRound(num[p + n - k] - ZERO, b, carry, out, q, n + 1, k, s, n - k, was,
                         TensTotal(was, q, n + 1, b, s));
      k := k + 1;
    }
  }

  // The second loop of mul_decstr_by_xx: adds 10 * b * numstr to the n + 1 digits at `q`.
  method TimesTens(num: array<Byte>, p: nat, n: nat, b: nat, out: array<Byte>, q: nat) returns (k: nat)
    requires p + n <= num.Length && Canonical(10, num[p..p + n]) && num[p] != ZERO && 0 < b < 10
    requires q + n + 1 < out.Length && Disjoint(num, p, n, out, q, n + 2)
    requires Binary(out[q..q + n + 1])
    modifies out
    ensures n + 1 <= k <= n + 2
    ensures Adding(old(out[..]), out[..], q, n + 1, k, 0, TensTotal(old(out[..]), q, n + 1, b, old(num[p..p + n])))
  {
    ghost var s, was := num[p..p + n], out[..];
    assert s[0] == num[p] && was[q..q + n + 1] == out[q..q + n + 1];
    var carry := TensLoop(num, p, n, b, out, q, s, was);
    k := LastCarry(out, q, n + 1, carry, was, TensTotal(was, q, n + 1, b, s));
  }

  method LastCarry(out: array<Byte>, q: nat, n: nat, carry: nat, ghost was: seq<Byte>, ghost total: int)
    returns (k: nat)
    requires q + n < out.Length && carry < 10 && Adding(was, out[..], q, n, n, carry, total)
    modifies out
    ensures n <= k <= n + 1 && Adding(was, out[..], q, n, k, 0, total)
  {
    k := n;
    if carry > 0 {
      AddPlace(was, out[..], q, n, k, carry, total, carry, 0);
      ghost var row := out[..];
      out[q + k] := carry;
      assert out[..] == row[q + k := carry as Byte];
      k := k + 1;
    }
  }

  lemma TensStart(was: seq<Byte>, q: nat, n: nat, v: nat)
    requires n >= 1 && q + n + 1 <= |was| && Binary(was[q..q + n + 1])
    ensures Adding(was, was, q, n + 1, 1, v, Up(10, was[q..q + n + 1], 0) + 10 * v)
  {
    var src: seq<int> := was[q..q + n + 1];
    assert was[q..q + 1] == [src[0]];
    assert Up(10, src, 0) == src[0] + 10 * High(src, 1);
    UpSnoc(10, [], src[0], High(src, 1) + v);
    assert [] + [src[0]] == [src[0]];
  }

  // mul_decstr_by_xx, the digits of the multiplier's last digit times numstr
  method UnitsPass(num: array<Byte>, p: nat, n: nat, a: nat, out: array<Byte>, q: nat) returns (n1: nat)
    requires p + n <= num.Length && Canonical(10, num[p..p + n]) && num[p] != ZERO && a < 10
    requires q + n < out.Length && Disjoint(num, p, n, out, q, n + 1)
    modifies out
    ensures n <= n1 <= n + 1 && (a != 0 ==> out[q + n1 - 1] != 0)
    ensures Placing(out[..], q, n1, a * Val(10, old(num[p..p + n])), 0)
    ensures forall x :: 0 <= x < q || q + n1 <= x < out.Length ==> out[x] == old(out[x])
  {
    if a != 0 {
      n1 := TimesUnits(num, p, n, a, out, q);
    } else {
      forall i | 0 <= i < n {
        out[q + i] := 0;
      }
      n1 := n;
      UpZeros(out[q..q + n]);
    }
  }

  // mul_decstr_by_xx, adding the multiplier's first digit times numstr
  method TensPass(num: array<Byte>, p: nat, n: nat, b: nat, out: array<Byte>, q: nat, n1: nat, ghost total: int)
    returns (k: nat)
    requires p + n <= num.Length && Canonical(10, num[p..p + n]) && num[p] != ZERO && 0 < b < 10
    requires q + n + 1 < out.Length && Disjoint(num, p, n, out, q, n + 2)
    requires n <= n1 <= n + 1 && Placing(out[..], q, n1, total, 0)
    modifies out
    ensures n + 1 <= k <= n + 2 && out[q + k - 1] != 0
    ensures Placing(out[..], q, k, total + 10 * (b * Val(10, old(num[p..p + n]))), 0)
    ensures forall x :: 0 <= x < q || q + k < x < out.Length ==> out[x] == old(out[x])
  {
    ghost var row := out[..];
    out[q + n1] := 0;
    ProductSoFar(row, out[..], q, n, n1, total);
    assert num[p..p + n] == old(num[p..p + n]);
    k := TimesTens(num, p, n, b, out, q);
    AddedUp(row[q + n1 := 0], out[..], q, n + 1, k, total + 10 * (b * Val(10, old(num[p..p + n]))));
  }

  lemma TensAndUnits(m: nat, v: nat)
    ensures (m % 10) * v + 10 * ((m / 10) * v) == m * v
  {
    Associate(10, m / 10, v);
    Distribute(m % 10, 10 * (m / 10), v);
  }

  lemma {:induction false} UpZeros(ds: seq<int>)
    requires forall i :: 0 <= i < |ds| ==> ds[i] == 0
    ensures Up(10, ds, 0) == 0
    decreases |ds|
  {
    if ds != [] {
      UpZeros(ds[1..]);
    }
  }

  /** With a zero set above the first pass's digits, the n + 1 digits still hold its product. */
  lemma ProductSoFar(row: seq<Byte>, now: seq<Byte>, q: nat, n: nat, n1: nat, total: int)
    requires n <= n1 <= n + 1 && q + n + 1 < |row| && now == row[q + n1 := 0]
    requires Placing(row, q, n1, total, 0)
    ensures Binary(now[q..q + n + 1]) && Up(10, now[q..q + n + 1], 0) == total
  {
    if n1 == n {
      UpSnoc(10, row[q..q + n], 0, 0);
      assert now[q..q + n + 1] == row[q..q + n] + [0];
    } else {
      assert now[q..q + n + 1] == row[q..q + n1];
    }
  }

  /** An addition that has passed all `n` places and owes nothing is the number. */
  lemma AddedUp(was: seq<Byte>, row: seq<Byte>, q: nat, n: nat, k: nat, total: int)
    requires n <= k && Adding(was, row, q, n, k, 0, total)
    ensures Placing(row, q, k, total, 0)
  {
    assert k == n ==> was[q..q + n][k..] == [];
  }

  // mul_decstr_by_xx up to the printing of the digits: the low-first product
  method Multiply(num: array<Byte>, p: nat, n: nat, multiplier: nat, out: array<Byte>, q: nat) returns (k: nat)
    requires p + n <= num.Length && Canonical(10, num[p..p + n]) && num[p] != ZERO && 2 <= multiplier <= 99
    requires q + n + 1 < out.Length && Disjoint(num, p, n, out, q, n + 2)
    modifies out
    ensures n <= k <= n + 2 && (multiplier < 10 ==> k <= n + 1) && out[q + k - 1] != 0
    ensures Placing(out[..], q, k, multiplier * Val(10, old(num[p..p + n])), 0)
    ensures forall x :: 0 <= x < q || q + k < x < out.Length ==> out[x] == old(out[x])
  {
    ghost var v := Val(10, num[p..p + n]);
    TensAndUnits(multiplier, v);
    var a, b := multiplier % 10, multiplier / 10;
    var n1 := UnitsPass(num, p, n, a, out, q);
    if b != 0 {
      assert num[p..p + n] == old(num[p..p + n]);
      k := TensPass(num, p, n, b, out, q, n1, a * v);
    } else {
      k := n1;
    }
  }

  // mul_decstr_by_xx for a nonzero numstr and a multiplier above one, buffers apart
  method MulNonZero(num: array<Byte>, p: nat, n: nat, multiplier: nat, out: array<Byte>, q: nat) returns (k: nat)
    requires p + n <= num.Length && Canonical(10, num[p..p + n]) && num[p] != ZERO && 2 <= multiplier <= 99
    requires q + n + (if multiplier <= 10 then 1 else 2) < out.Length && Disjoint(num, p, n, out, q, n + 2)
    modifies out
    ensures Printed(out[..], q, k, multiplier * Val(10, old(num[p..p + n])))
    ensures forall x :: 0 <= x < q || q + k < x < out.Length ==> out[x] == old(out[x])
  {
    ghost var s := num[p..p + n];
    k := Multiply(num, p, n, multiplier, out, q);
    ghost var mid := out[..];
    PrintReversed(out, q, k);
    ghost var text := out[q..q + k];
    UpIsVal(10, mid[q..q + k], 0, text);
    assert text[0] == out[q];
    TimesTenFits(s, text, multiplier);
    out[q + k] := NUL;
    assert out[q..q + k] == text;
  }

  /** A product by at most ten has at most one digit more. */
  lemma TimesTenFits(s: seq<Byte>, text: seq<Byte>, m: nat)
    requires Canonical(10, s) && Canonical(10, text) && Val(10, text) == m * Val(10, s)
    ensures m <= 10 ==> |text| <= |s| + 1
  {
    if m <= 10 {
      ValBelow(10, s);
      MulMono(m, 10, Val(10, s), Val(10, s));
      assert Pow(10, |s| + 1) == 10 * Pow(10, |s|);
      CanonicalLength(10, text, |s| + 1);
    }
  }

  method PutZeroDigit(out: array<Byte>, q: nat) returns (k: nat)
    requires q + 1 < out.Length
    modifies out
    ensures Printed(out[..], q, k, 0) && k == 1
    ensures forall x :: 0 <= x < q || q + k < x < out.Length ==> out[x] == old(out[x])
  {
    TwoDigitNumber(ZERO, ZERO);
    out[q], out[q + 1] := ZERO, NUL;
    k := 1;
    assert out[q..q + k] == [ZERO];
  }

  // mul_decstr_by_xx when outbuf is numstr: works on a copy
  method MulInPlace(num: array<Byte>, p: nat, n: nat, multiplier: nat) returns (k: nat)
    requires p + n <= num.Length && Canonical(10, num[p..p + n]) && num[p] != ZERO && 2 <= multiplier <= 99
    requires p + n + (if multiplier <= 10 then 1 else 2) < num.Length
    modifies num
    ensures Printed(num[..], p, k, multiplier * Val(10, old(num[p..p + n])))
    ensures forall x :: 0 <= x < p || p + k < x < num.Length ==> num[x] == old(num[x])
  {
    var numTmp := new Byte[n](i requires 0 <= i < n && p + n <= num.Length reads num => num[p + i]);
    assert numTmp[0..0 + n] == num[p..p + n] && numTmp[0] == num[p];
    k := MulNonZero(numTmp, 0, n, multiplier, num, p);
  }

  // mul_decstr_by_xx: numstr * multiplier --> outbuf, which may be numstr itself
  method MulDecstr(num: array<Byte>, p: nat, n: nat, multiplier: nat, out: array<Byte>, q: nat) returns (k: nat)
    requires p + n <= num.Length && Canonical(10, num[p..p + n]) && multiplier <= 99
    requires q + (if num[p] == ZERO then 1 else n + (if multiplier <= 10 then 1 else 2)) < out.Length
    requires (num == out && p == q) || Disjoint(num, p, n, out, q, n + 2)
    modifies out
    ensures Printed(out[..], q, k, multiplier * Val(10, old(num[p..p + n])))
    ensures forall x :: 0 <= x < q || q + k < x < out.Length ==> out[x] == old(out[x])
  {
    assert num[p] == num[p..p + n][0];
    if (n == 1 && num[p] == ZERO) || multiplier == 0 {
      CanonicalZero(10, num[p..p + n]);
      k := PutZeroDigit(out, q);
    } else if multiplier == 1 {
      CopyDigits(num, p, n, out, q);
      k := n;
    } else if out == num && q == p {
      k := MulInPlace(num, p, n, multiplier);
    } else {
      k := MulNonZero(num, p, n, multiplier, out, q);
    }
  }

  // ---------- long division by 16, in place ----------

  /** `quot` and `rem` are the quotient and remainder of the digits read, `rest` the digits to come,
      and together they stand for the whole dividend `v`. */
  ghost predicate Dividing(quot: seq<Byte>, rem: int, rest: seq<Byte>, v: int) {
    0 <= rem < 16 && IsNumeral(10, quot) && IsNumeral(10, rest) && (|quot| > 1 ==> quot[0] != ZERO)
    && v == ValFrom(10, 16 * Val(10, quot) + rem, rest)
  }

  lemma DivideDigit(quot: seq<Byte>, rem: nat, rest: seq<Byte>, v: int)
    requires Dividing(quot, rem, rest, v) && rest != [] && (quot == [] ==> rem >= 10)
    requires quot != [] ==> quot[0] != ZERO
    ensures var a := 10 * rem + (rest[0] - ZERO);
      0 <= a < 160 && Dividing(quot + [ZERO + a / 16], a % 16, rest[1..], v) && (quot + [ZERO + a / 16])[0] != ZERO
  {
    var a := 10 * rem + (rest[0] - ZERO);
    assert IsDigit(rest[0]);
    ValSnoc(10, 0, quot, ZERO + a / 16);
    assert 16 * Val(10, quot + [ZERO + a / 16]) + a % 16 == (16 * Val(10, quot) + rem) * 10 + DigitOf(rest[0]);
  }

  // One round of div_decstr_by_16: the quotient's digit `o` overwrites a digit that has been read.
  method DivideNext(wrd: array<Byte>, p: nat, len: nat, o: nat, ptr: nat, rem0: nat, ghost v: int) returns (rem: nat)
    requires p + len <= wrd.Length && o < ptr < len && (o == 0 ==> rem0 >= 10) && (o > 0 ==> wrd[p] != ZERO)
    requires Dividing(wrd[p..p + o], rem0, wrd[p + ptr..p + len], v)
    modifies wrd
    ensures rem < 16 && wrd[p] != ZERO && Dividing(wrd[p..p + (o + 1)], rem, wrd[p + (ptr + 1)..p + len], v)
    ensures forall x :: 0 <= x < wrd.Length && x != p + o ==> wrd[x] == old(wrd[x])
  {
    ghost var quot, rest := wrd[p..p + o], wrd[p + ptr..p + len];
    DivideDigit(quot, rem0, rest, v);
    var a := 10 * rem0 + (wrd[p + ptr] - ZERO);
    wrd[p + o] := ZERO + a / 16;
    rem := a % 16;
    assert wrd[p..p + (o + 1)] == quot + [ZERO + a / 16];
    assert wrd[p + (ptr + 1)..p + len] == rest[1..];
  }

  // The loop of div_decstr_by_16: `o` quotient digits are written, `ptr` digits read.
  method DivideRest(wrd: array<Byte>, p: nat, len: nat, o0: nat, rem0: nat, ghost v: int) returns (o: nat, rem: nat)
    requires p + len <= wrd.Length && o0 <= 1 && 2 <= len
    requires o0 == 0 ==> rem0 >= 10 && 2 < len
    requires o0 == 1 ==> wrd[p] != ZERO
    requires Dividing(wrd[p..p + o0], rem0, wrd[p + 2..p + len], v)
    modifies wrd
    ensures o == o0 + len - 2 && rem < 16 && Canonical(10, wrd[p..p + o]) && v == 16 * Val(10, wrd[p..p + o]) + rem
    ensures forall x :: 0 <= x < p || p + o <= x < wrd.Length ==> wrd[x] == old(wrd[x])
  {
    o, rem := o0, rem0;
    var ptr := 2;
    while ptr < len
      invariant 2 <= ptr <= len && o == o0 + ptr - 2 && (o == 0 ==> rem >= 10) && (o > 0 ==> wrd[p] != ZERO)
      invariant Dividing(wrd[p..p + o], rem, wrd[p + ptr..p + len], v)
      invariant forall x :: 0 <= x < p || p + o <= x < wrd.Length ==> wrd[x] == old(wrd[x])
    {
      rem := DivideNext(wrd, p, len, o, ptr, rem, v);
      o, ptr := o + 1, ptr + 1;
    }
    assert wrd[p + ptr..p + len] == [];
  }

  lemma LeadingTwo(s: seq<Byte>)
    requires Canonical(10, s) && |s| >= 2
    ensures Val(10, s) == ValFrom(10, 10 * (s[0] - ZERO) + (s[1] - ZERO), s[2..]) && IsNumeral(10, s[2..])
  {
    TwoDigitNumber(s[0], s[1]);
    ValAppend(10, 0, s[..2], s[2..]);
    assert s[..2] == [s[0], s[1]] && s == s[..2] + s[2..];
  }

  // div_decstr_by_16 when the first two digits already reach 16 or more digits follow
  method DivideLong(wrd: array<Byte>, p: nat, len: nat) returns (rem: nat, len': nat)
    requires p + len <= wrd.Length && Canonical(10, wrd[p..p + len])
    requires len > 2 || (len == 2 && 10 * (wrd[p] - ZERO) + (wrd[p + 1] - ZERO) >= 16)
    modifies wrd
    ensures len' <= len && rem < 16 && Canonical(10, wrd[p..p + len'])
    ensures Val(10, old(wrd[p..p + len])) == 16 * Val(10, wrd[p..p + len']) + rem
    ensures forall x :: 0 <= x < p || p + len' <= x < wrd.Length ==> wrd[x] == old(wrd[x])
  {
    ghost var s := wrd[p..p + len];
    LeadingTwo(s);
    assert s[0] == wrd[p] && s[1] == wrd[p + 1] && s[2..] == wrd[p + 2..p + len];
    var a := 10 * (wrd[p] - ZERO) + (wrd[p + 1] - ZERO);
    rem, len' := a, 0;
    if a >= 16 {
      TwoDigitNumber(ZERO, ZERO + a / 16);
      wrd[p] := ZERO + a / 16;
      rem, len' := a % 16, 1;
    }
    assert wrd[p..p + len'] == if a >= 16 then [ZERO + a / 16] else [];
    assert wrd[p + 2..p + len] == s[2..];
    len', rem := DivideRest(wrd, p, len, len', rem, Val(10, s));
  }

  // div_decstr_by_16: leaves the quotient in `wrd`, returns its length and the remainder
  method DivDecstrBy16(wrd: array<Byte>, p: nat, len: nat) returns (rem: nat, len': nat)
    requires p + len <= wrd.Length && Canonical(10, wrd[p..p + len])
    modifies wrd
    ensures len' <= len && rem < 16 && Canonical(10, wrd[p..p + len'])
    ensures Val(10, old(wrd[p..p + len])) == 16 * Val(10, wrd[p..p + len']) + rem
    ensures forall x :: 0 <= x < p || p + len' <= x < wrd.Length ==> wrd[x] == old(wrd[x])
  {
    ghost var s := wrd[p..p + len];
    assert wrd[p] == s[0] && (len > 1 ==> wrd[p + 1] == s[1]);
    TwoDigitNumber(ZERO, ZERO);
    if len <= 1 {
      TwoDigitNumber(ZERO, wrd[p]);
      assert s == [wrd[p]];
      rem, len' := wrd[p] - ZERO, 1;
      wrd[p] := ZERO;
      assert wrd[p..p + 1] == [ZERO];
    } else if len == 2 && 10 * (wrd[p] - ZERO) + (wrd[p + 1] - ZERO) < 16 {
      LeadingTwo(s);
      rem, len' := 10 * (wrd[p] - ZERO) + (wrd[p + 1] - ZERO), 1;
      wrd[p] := ZERO;
      assert wrd[p..p + 1] == [ZERO] && s[2..] == [];
    } else {
      rem, len' := DivideLong(wrd, p, len);
    }
  }
}
