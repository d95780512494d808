/** The growing character buffer (`outbuf`) of src/csz_stream.c. */
module OutBufs {
  import opened Arith
  import opened Bytes

  type Positive = x: int | 0 < x witness 1

  const CSZ_STREAM_DELTA_DFL: Positive := 64

  // uls_roundup: the least multiple of `d` that is at least `n`
  function Roundup(n: nat, d: Positive): (r: nat)
    ensures n <= r < n + d && r % d == 0
  {
    RoundupBounds(n, d);
    (n + d - 1) / d * d
  }

  lemma RoundupBounds(n: nat, d: Positive)
    ensures var r := (n + d - 1) / d * d; n <= r < n + d && r % d == 0
  {
    var m := n + d - 1;
    assert m == (m / d) * d + m % d;
    MultipleMod(m / d, d);
  }

  lemma MultipleMod(q: nat, d: Positive)
    ensures (q * d) % d == 0
  {
    var x := q * d;
    assert x == (x / d) * d + x % d;
    QuotientUnique(d, q, 0, x / d, x % d);
  }

  class OutBuf {
    var buf: array<Byte>
    const sizDelta: Positive

    // str_init
    constructor (siz: nat)
      ensures fresh(buf) && buf.Length == siz
    {
      buf := new Byte[siz];
      sizDelta := if siz == 0 then CSZ_STREAM_DELTA_DFL else siz;
    }

    // The growth step of __str_modify and __str_putc: room for `n` bytes, rounded up to `delta`.
    method Grow(n: nat, delta: Positive)
      modifies this
      ensures buf.Length >= n && (buf == old(buf) || fresh(buf))
      ensures old(buf.Length) <= buf.Length && buf[..old(buf.Length)] == old(buf[..])
    {
      if n > buf.Length {
        var was := buf;
        buf := new Byte[Roundup(n, delta)];
        forall i | 0 <= i < was.Length {
          buf[i] := was[i];
        }
      }
    }

    // str_modify without a string
    method Reserve(n: nat)
      modifies this
      ensures buf.Length >= n && (buf == old(buf) || fresh(buf))
      ensures old(buf.Length) <= buf.Length && buf[..old(buf.Length)] == old(buf[..])
    {
      Grow(n, sizDelta);
    }

    // __str_putc
    method Putc(k: nat, ch: Byte)
      requires k <= buf.Length
      modifies this, buf
      ensures buf.Length > k && (buf == old(buf) || fresh(buf))
      ensures buf[..k + 1] == old(buf[..k]) + [ch]
      ensures buf[..k] == old(buf[..k]) && buf[k] == ch
      ensures old(buf.Length) <= buf.Length
      ensures forall x :: k < x < old(buf.Length) ==> buf[x] == old(buf[x])
    {
      Grow(k + 1, CSZ_STREAM_DELTA_DFL);
      assert buf[..k] == old(buf[..k]);
      buf[k] := ch;
    }

    // str_append: the string and a terminator
    method Append(k: nat, str: seq<Byte>) returns (k2: nat)
      requires k <= buf.Length
      modifies this, buf
      ensures k2 == k + |str| < buf.Length && (buf == old(buf) || fresh(buf))
      ensures buf[..k2] == old(buf[..k]) + str && buf[k2] == NUL
      ensures old(buf.Length) <= buf.Length
      ensures forall x :: k2 < x < old(buf.Length) ==> buf[x] == old(buf[x])
    {
      Grow(k + |str| + 1, sizDelta);
      assert buf[..k] == old(buf[..k]);
      forall i | 0 <= i < |str| {
        buf[k + i] := str[i];
      }
      k2 := k + |str|;
      buf[k2] := NUL;
    }
  }
}
