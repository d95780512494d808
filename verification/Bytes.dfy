/** The C program's `char`, which it compiles as an unsigned byte, and the character tests
    its prim layer builds on. A C string argument is a `seq<Byte>`, a buffer an `array<Byte>`. */
module Bytes {

  type Byte = b: int | 0 <= b < 256

  const NUL: Byte := 0
  const TAB: Byte := 9
  const LF: Byte := 10
  const SPACE: Byte := 32
  const PLUS: Byte := 43
  const MINUS: Byte := 45
  const DOT: Byte := 46
  const ZERO: Byte := 48
  const UPPER_A: Byte := 65
  const UPPER_E: Byte := 69
  const LOWER_A: Byte := 97
  const LOWER_E: Byte := 101
  const LOWER_X: Byte := 120

  predicate IsDigit(ch: Byte) {
    ZERO <= ch <= ZERO + 9
  }

  function ToUpper(ch: Byte): Byte {
    if LOWER_A <= ch <= LOWER_A + 25 then ch - 32 else ch
  }

  /** A text with its terminator at the end. */
  ghost predicate IsLine(line: seq<Byte>) {
    |line| > 0 && line[|line| - 1] == NUL
  }

  function Reversed<T>(s: seq<T>): (r: seq<T>)
    ensures |r| == |s|
    ensures forall i :: 0 <= i < |s| ==> r[i] == s[|s| - 1 - i]
  {
    seq(|s|, i requires 0 <= i < |s| => s[|s| - 1 - i])
  }

  lemma Regroup<T>(a: seq<T>, b: seq<T>, c: seq<T>, d: seq<T>)
    ensures (a + b) + (c + d) == (a + (b + c)) + d == a + ((b + c) + d)
  {}

  lemma Assoc<T>(a: seq<T>, b: seq<T>, c: seq<T>)
    ensures (a + b) + c == a + (b + c)
  {}

  // uls_reverse_bytes on the `n` bytes from offset `p`
  method ReverseBytes(ary: array<Byte>, p: nat, n: nat)
    requires p + n <= ary.Length
    modifies ary
    ensures ary[p..p + n] == Reversed(old(ary[p..p + n]))
    ensures forall x :: 0 <= x < p || p + n <= x < ary.Length ==> ary[x] == old(ary[x])
  {
    ghost var was := ary[..];
    var i, j := 0, n - 1;
    while i < n / 2
      invariant 0 <= 2 * i <= n && j == n - 1 - i
      invariant forall x :: p <= x < p + i ==> ary[x] == was[2 * p + n - 1 - x]
      invariant forall x :: p + n - i <= x < p + n ==> ary[x] == was[2 * p + n - 1 - x]
      invariant forall x :: p + i <= x < p + n - i ==> ary[x] == was[x]
      invariant forall x :: 0 <= x < p || p + n <= x < ary.Length ==> ary[x] == was[x]
    {
      var ch := ary[p + i];
      ary[p + i] := ary[p + j];
      ary[p + j] := ch;
      i, j := i + 1, j - 1;
    }
    MirroredIsReversed(was, ary[..], p, n);
  }

  lemma MirroredIsReversed(was: seq<Byte>, now: seq<Byte>, p: nat, n: nat)
    requires p + n <= |was| == |now|
    requires forall x :: p <= x < p + n ==> now[x] == was[2 * p + n - 1 - x]
    ensures now[p..p + n] == Reversed(was[p..p + n])
  {
    var mirror := now[p..p + n];
    assert forall k :: 0 <= k < n ==> mirror[k] == now[p + k];
  }
}
