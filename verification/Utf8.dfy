/** UTF-8 and UTF-16, one character at a time (src/uls_prim.c), and what a whole text encodes to. */
module Utf8 {
  import opened Bytes

  const UTF8_CH_MAXLEN: nat := 4
  const UTF16_CH_MAXLEN: nat := 2
  const UTF8_CODEPOINT_END: nat := 0x1F_FFFF
  const UTF16_CODEPOINT_END: nat := 0x10_FFFF

  type CodePoint = c: nat | c <= 0x1F_FFFF

  /** The bytes of one code point (RFC 3629, section 3): a lead byte, then six bits in every trail byte. */
  function Encoded8(wch: CodePoint): (s: seq<Byte>)
    ensures 1 <= |s| <= UTF8_CH_MAXLEN
  {
    Packed(wch, TrailCount(wch), LeadMark(TrailCount(wch)))
  }

  function TrailCount(wch: CodePoint): (n: nat)
    ensures n <= 3
  {
    if wch <= 0x7F then 0 else if wch <= 0x7FF then 1 else if wch <= 0xFFFF then 2 else 3
  }

  function LeadMark(n: nat): Byte {
    if n == 0 then 0 else if n == 1 then 0xC0 else if n == 2 then 0xE0 else 0xF0
  }

  function Packed(bits: nat, n: nat, mark: Byte): (s: seq<Byte>)
    ensures |s| == n + 1
    decreases n
  {
    if n == 0 then [(mark + bits) % 256] else Packed(bits / 64, n - 1, mark) + [Trail(bits)]
  }

  function Trail(bits: nat): (ch: Byte)
    ensures ch / 64 == 2 && ch % 64 == bits % 64
  {
    0x80 + bits % 64
  }

  /** The four lengths, written out. */
  lemma Spelled(wch: CodePoint)
    ensures wch <= 0x7F ==> Encoded8(wch) == [wch]
    ensures 0x7F < wch <= 0x7FF ==> Encoded8(wch) == [0xC0 + wch / 64, 0x80 + wch % 64]
    ensures 0x7FF < wch <= 0xFFFF ==> Encoded8(wch) == [0xE0 + wch / 4096, 0x80 + wch / 64 % 64, 0x80 + wch % 64]
    ensures 0xFFFF < wch ==>
      Encoded8(wch) == [0xF0 + wch / 262144, 0x80 + wch / 4096 % 64, 0x80 + wch / 64 % 64, 0x80 + wch % 64]
  {
    var n, mark := TrailCount(wch), LeadMark(TrailCount(wch));
    assert wch / 64 / 64 == wch / 4096 && wch / 4096 / 64 == wch / 262144;
    if n == 0 {
      assert (mark + wch) % 256 == wch;
    } else if n == 1 {
      assert Packed(wch / 64, 0, mark) == [0xC0 + wch / 64];
    } else if n == 2 {
      assert Packed(wch / 4096, 0, mark) == [0xE0 + wch / 4096];
      assert Packed(wch / 64, 1, mark) == [0xE0 + wch / 4096, Trail(wch / 64)];
    } else {
      assert Packed(wch / 262144, 0, mark) == [0xF0 + wch / 262144];
      assert Packed(wch / 4096, 1, mark) == [0xF0 + wch / 262144, Trail(wch / 4096)];
      assert Packed(wch / 64, 2, mark) == [0xF0 + wch / 262144, Trail(wch / 4096), Trail(wch / 64)];
    }
  }

  /** The 16-bit units of one code point (RFC 2781, section 2.1). */
  function Encoded16(wch: nat): (s: seq<nat>)
    requires wch <= UTF16_CODEPOINT_END
    ensures 1 <= |s| <= UTF16_CH_MAXLEN && forall i :: 0 <= i < |s| ==> s[i] < 0x1_0000
  {
    if wch <= 0xFFFF then [wch]
    else [0xD800 + (wch - 0x1_0000) / 1024, 0xDC00 + (wch - 0x1_0000) % 1024]
  }

  /** One unit stands for itself; of two, the first holds the upper ten bits of what exceeds 0x10000, the second the
      lower ten, each in a range of its own. */
  lemma Spelled16(wch: nat)
    requires wch <= UTF16_CODEPOINT_END
    ensures wch < 0x1_0000 ==> Encoded16(wch) == [wch]
    ensures wch >= 0x1_0000 ==>
      var s := Encoded16(wch);
      && |s| == 2 && 0xD800 <= s[0] < 0xDC00 <= s[1] < 0xE000
      && wch == 0x1_0000 + (s[0] - 0xD800) * 0x400 + (s[1] - 0xDC00)
  {
    var x := wch - 0x1_0000;
    assert x == x / 1024 * 1024 + x % 1024;
  }

  /** No code point takes more units than these bounds, and some take as many. */
  lemma BoundsAttained()
    ensures |Encoded8(0x1_0000)| == UTF8_CH_MAXLEN && |Encoded16(0x1_0000)| == UTF16_CH_MAXLEN
    ensures forall c: CodePoint :: |Encoded8(c)| <= UTF8_CH_MAXLEN
  {
    Spelled(0x1_0000);
    Spelled16(0x1_0000);
  }

  // ---------- decoding ----------

  /** What stands at the front of a text: a character of `len` units, the beginning of one, or neither. */
  datatype Decoded = Char(len: nat, wch: nat) | Short(len: nat) | Bad(code: int)

  /** How many bytes follow a lead byte. */
  function Following(lead: Byte): (n: nat)
    requires 0xC0 <= lead < 0xF8
    ensures 1 <= n <= 3
  {
    if lead < 0xE0 then 1 else if lead < 0xF0 then 2 else 3
  }

  function LeadBits(lead: Byte): nat
    requires 0xC0 <= lead < 0xF8
  {
    if lead < 0xE0 then lead - 0xC0 else if lead < 0xF0 then lead - 0xE0 else lead - 0xF0
  }

  predicate IsTrail(ch: Byte) {
    0x80 <= ch < 0xC0
  }

  /** The bits of the lead byte and of `n` trail bytes behind it. */
  function Payload(s: seq<Byte>, n: nat): nat
    requires n < |s| && 0xC0 <= s[0] < 0xF8
    decreases n
  {
    if n == 0 then LeadBits(s[0]) else 64 * Payload(s, n - 1) + s[n] % 64
  }

  function FirstChar8(s: seq<Byte>): (d: Decoded)
    requires s != []
    ensures d.Char? ==> 1 <= d.len <= |s|
  {
    if s[0] < 0xC0 then Char(1, s[0])
    else if s[0] >= 0xF8 then Bad(-6)
    else
      var n := Following(s[0]);
      if 1 + n > |s| then Short(1 + n)
      else if exists i :: 1 <= i < 1 + n && !IsTrail(s[i]) then Bad(-7)
      else Char(1 + n, Payload(s, n))
  }

  function FirstChar16(s: seq<nat>): (d: Decoded)
    requires s != []
    ensures d.Char? ==> 1 <= d.len <= |s|
  {
    if 0xD800 <= s[0] <= 0xDFFF then
      if |s| < 2 then Short(2)
      else if 0xDC00 <= s[1] <= 0xDFFF then Char(2, (s[0] - 0xD800) * 1024 + (s[1] - 0xDC00) + 0x1_0000)
      else Bad(-4)
    else Char(1, s[0])
  }

  /** When a text begins with no character: a lead byte of more than four bytes, or another byte than 10xxxxxx where a
      trail byte must be. A byte that is no lead byte counts as a character of its own. */
  lemma Malformed8(s: seq<Byte>)
    requires s != []
    ensures s[0] < 192 ==> FirstChar8(s) == Char(1, s[0])
    ensures s[0] >= 248 ==> FirstChar8(s) == Bad(-6)
    ensures 192 <= s[0] < 248 ==>
      var n := if s[0] < 224 then 2 else if s[0] < 240 then 3 else 4;
      match FirstChar8(s)
      case Short(len) => |s| < n == len
      case Bad(code) => code == -7 && n <= |s| && exists i :: 1 <= i < n && s[i] / 64 != 2
      case Char(len, _) => len == n <= |s| && forall i :: 1 <= i < n ==> s[i] / 64 == 2
  {}

  /** Likewise for 16-bit units: half a pair is malformed only if the unit behind it is no second half. */
  lemma Malformed16(s: seq<nat>)
    requires s != []
    ensures match FirstChar16(s)
            case Short(len) => len == 2 && |s| == 1 && s[0] / 0x800 == 27
            case Bad(code) => code == -4 && |s| > 1 && s[0] / 0x800 == 27 && s[1] / 0x400 != 55
            case Char(len, c) =>
              if s[0] / 0x800 == 27 then len == 2 <= |s| && s[1] / 0x400 == 55 else len == 1 && c == s[0]
  {}

  // uls_encode_utf8: the length, negative when `siz` is too small or the code point too large
  method EncodeUtf8(wch: nat, utf8buf: array<Byte>, at: nat, siz: nat) returns (rc: int)
    requires at + siz <= utf8buf.Length
    modifies utf8buf
    ensures wch > UTF8_CODEPOINT_END ==> rc == -5
    ensures wch <= UTF8_CODEPOINT_END ==> rc == if |Encoded8(wch)| <= siz then |Encoded8(wch)| else -|Encoded8(wch)|
    ensures rc > 0 ==> utf8buf[at..at + rc] == Encoded8(wch)
    ensures forall x :: 0 <= x < utf8buf.Length && !(at <= x < at + rc) ==> utf8buf[x] == old(utf8buf[x])
  {
    var tmpbuf: seq<Byte>;
    if wch <= UTF8_CODEPOINT_END {
      Spelled(wch);
    }
    if wch <= 0x7F {
      tmpbuf := [wch];
    } else if wch <= 0x7FF {
      tmpbuf := [0xC0 + wch / 64, 0x80 + wch % 64];
    } else if wch <= 0xFFFF {
      tmpbuf := [0xE0 + wch / 4096, 0x80 + wch / 64 % 64, 0x80 + wch % 64];
    } else if wch <= 0x1F_FFFF {
      tmpbuf := [0xF0 + wch / 262144, 0x80 + wch / 4096 % 64, 0x80 + wch / 64 % 64, 0x80 + wch % 64];
    } else {
      return -5;
    }
    rc := |tmpbuf|;
    if siz < rc {
      rc := -rc;
    } else {
      for i := 0 to rc
        invariant utf8buf[at..at + i] == tmpbuf[..i]
        invariant forall x :: 0 <= x < utf8buf.Length && !(at <= x < at + i) ==> utf8buf[x] == old(utf8buf[x])
      {
        utf8buf[at + i] := tmpbuf[i];
      }
      assert tmpbuf[..rc] == tmpbuf;
    }
  }

  // uls_decode_utf8 of a buffer whose length is given; `wanted` says whether the caller asks for the code point
  method DecodeUtf8(utf8buf: seq<Byte>, wanted: bool) returns (rc: int, wch: nat)
    ensures utf8buf == [] ==> rc == -5
    ensures utf8buf != [] ==> var d := FirstChar8(utf8buf);
              match d {
                case Char(len, c) => rc == len && wch == c
                case Short(len) => rc == (if wanted then -(len as int) else len)
                case Bad(code) => rc == code
              }
  {
    wch := 0;
    if |utf8buf| == 0 {
      return -5, 0;
    }
    var ch := utf8buf[0];
    if ch / 64 != 3 {
      return 1, ch;
    }
    var n := CountTrail(ch);
    if n >= 3 {
      return -6, 0;
    }
    n := n + 1;
    assert n == Following(ch);
    if 1 + n > |utf8buf| {
      return if wanted then -(1 + n) else 1 + n, 0;
    }
    rc, wch := DecodeTrail(utf8buf, n);
  }

  // uls_decode_utf8: how many of the bits behind the first two of a lead byte are set
  method CountTrail(ch: Byte) returns (n: nat)
    requires ch >= 0xC0
    ensures n <= 3 && (n == 3 <==> ch >= 0xF8) && (n < 3 ==> n + 1 == Following(ch))
  {
    n := 0;
    while n < 3 && ch / LeadMask(n) % 2 != 0
      invariant n <= 3 && (n >= 1 ==> ch >= 0xE0) && (n >= 2 ==> ch >= 0xF0) && (n >= 3 ==> ch >= 0xF8)
    {
      n := n + 1;
    }
  }

  // uls_decode_utf8: the bits of the lead byte and of `n` trail bytes
  method DecodeTrail(utf8buf: seq<Byte>, n: nat) returns (rc: int, wch: nat)
    requires utf8buf != [] && 0xC0 <= utf8buf[0] < 0xF8 && n == Following(utf8buf[0]) < |utf8buf|
    ensures (rc == 1 + n && wch == Payload(utf8buf, n) && forall j :: 1 <= j <= n ==> IsTrail(utf8buf[j])) ||
            (rc == -7 && wch == 0 && exists j :: 1 <= j <= n && !IsTrail(utf8buf[j]))
  {
    var ch := utf8buf[0];
    var val: nat := ch % LeadMask(n - 1);
    assert val == LeadBits(ch);
    for i := 0 to n
      invariant val == Payload(utf8buf, i) && forall j :: 1 <= j < 1 + i ==> IsTrail(utf8buf[j])
    {
      ch := utf8buf[i + 1];
      if ch / 64 != 2 {
        assert !IsTrail(utf8buf[i + 1]);
        return -7, 0;
      }
      val := val * 64 + ch % 64;
    }
    return 1 + n, val;
  }

  /** The bit that is clear in a lead byte with `n + 1` trail bytes and set in one with more. */
  function LeadMask(n: nat): (m: nat)
    requires n < 3
    ensures m > 0
  {
    if n == 0 then 0x20 else if n == 1 then 0x10 else 0x08
  }

  lemma Shifts(wch: nat)
    ensures wch == 64 * (wch / 64) + wch % 64
    ensures wch / 64 == 64 * (wch / 4096) + wch / 64 % 64
    ensures wch / 4096 == 64 * (wch / 262144) + wch / 4096 % 64
  {}

  /** The bytes at the front of a text are those of its first part. */
  lemma FrontOf(e: seq<Byte>, rest: seq<Byte>)
    ensures forall i :: 0 <= i < |e| ==> (e + rest)[i] == e[i]
  {}

  lemma TwoBytes(s: seq<Byte>, wch: nat)
    requires 0x7F < wch <= 0x7FF && |s| >= 2 && s[..2] == Encoded8(wch)
    ensures FirstChar8(s) == Char(2, wch)
  {
    Spelled(wch);
    Shifts(wch);
    assert s[0] == s[..2][0] && s[1] == s[..2][1];
    assert Payload(s, 0) == wch / 64;
    assert Payload(s, 1) == wch;
  }

  lemma ThreeBytes(s: seq<Byte>, wch: nat)
    requires 0x7FF < wch <= 0xFFFF && |s| >= 3 && s[..3] == Encoded8(wch)
    ensures FirstChar8(s) == Char(3, wch)
  {
    Spelled(wch);
    Shifts(wch);
    assert s[0] == s[..3][0] && s[1] == s[..3][1] && s[2] == s[..3][2];
    assert Payload(s, 0) == wch / 4096;
    assert Payload(s, 1) == wch / 64;
    assert Payload(s, 2) == wch;
  }

  lemma FourBytes(s: seq<Byte>, wch: nat)
    requires 0xFFFF < wch <= UTF8_CODEPOINT_END && |s| >= 4 && s[..4] == Encoded8(wch)
    ensures FirstChar8(s) == Char(4, wch)
  {
    Spelled(wch);
    Shifts(wch);
    assert s[0] == s[..4][0] && s[1] == s[..4][1] && s[2] == s[..4][2] && s[3] == s[..4][3];
    assert Payload(s, 0) == wch / 262144;
    assert Payload(s, 1) == wch / 4096;
    assert Payload(s, 2) == wch / 64;
    assert Payload(s, 3) == wch;
  }

  /** Decoding undoes encoding, whatever follows. */
  lemma DecodesEncoded8(wch: nat, rest: seq<Byte>)
    requires wch <= UTF8_CODEPOINT_END
    ensures FirstChar8(Encoded8(wch) + rest) == Char(|Encoded8(wch)|, wch)
  {
    var s := Encoded8(wch) + rest;
    Spelled(wch);
    FrontOf(Encoded8(wch), rest);
    assert s[..|Encoded8(wch)|] == Encoded8(wch);
    if wch > 0xFFFF {
      FourBytes(s, wch);
    } else if wch > 0x7FF {
      ThreeBytes(s, wch);
    } else if wch > 0x7F {
      TwoBytes(s, wch);
    }
  }

  /** A proper beginning of a character is recognised as one, not reported as malformed. */
  lemma BeginsEncoded8(wch: nat, n: nat)
    requires wch <= UTF8_CODEPOINT_END && 0 < n < |Encoded8(wch)|
    ensures FirstChar8(Encoded8(wch)[..n]) == Short(|Encoded8(wch)|)
  {
    Spelled(wch);
  }

  lemma DecodesEncoded16(wch: nat, rest: seq<nat>)
    requires wch <= UTF16_CODEPOINT_END && !(0xD800 <= wch <= 0xDFFF)
    ensures FirstChar16(Encoded16(wch) + rest) == Char(|Encoded16(wch)|, wch)
  {
    var s := Encoded16(wch) + rest;
    assert s[0] == Encoded16(wch)[0];
    assert wch > 0xFFFF ==> s[1] == Encoded16(wch)[1];
  }

  lemma BeginsEncoded16(wch: nat, n: nat)
    requires wch <= UTF16_CODEPOINT_END && !(0xD800 <= wch <= 0xDFFF) && 0 < n < |Encoded16(wch)|
    ensures FirstChar16(Encoded16(wch)[..n]) == Short(|Encoded16(wch)|)
  {}

  // uls_decode_utf16 of a buffer whose length is given
  method DecodeUtf16(utf16buf: seq<nat>, wanted: bool) returns (rc: int, wch: nat)
    ensures utf16buf == [] ==> rc == -3
    ensures utf16buf != [] ==> match FirstChar16(utf16buf) {
                                 case Char(len, c) => rc == len && wch == c
                                 case Short(len) => rc == (if wanted then -(len as int) else len)
                                 case Bad(code) => rc == code
                               }
  {
    wch := 0;
    if |utf16buf| == 0 {
      return -3, 0;
    }
    if 0xD800 <= utf16buf[0] <= 0xDFFF {
      rc := 2;
      if |utf16buf| >= 2 {
        if utf16buf[1] < 0xDC00 || utf16buf[1] > 0xDFFF {
          return -4, 0;
        }
        wch := (utf16buf[0] - 0xD800) * 1024;
        wch := wch + (utf16buf[1] - 0xDC00);
        wch := wch + 0x1_0000;
      } else if wanted {
        rc := -rc;
      }
    } else {
      wch := utf16buf[0];
      rc := 1;
    }
  }

  // uls_encode_utf16
  method EncodeUtf16(wch: nat, utf16buf: array<nat>, at: nat, siz: nat) returns (rc: int)
    requires at + siz <= utf16buf.Length
    modifies utf16buf
    ensures wch > UTF16_CODEPOINT_END ==> rc == -3
    ensures wch <= UTF16_CODEPOINT_END ==> rc == if |Encoded16(wch)| <= siz then |Encoded16(wch)| else -|Encoded16(wch)|
    ensures rc > 0 ==> utf16buf[at..at + rc] == Encoded16(wch)
    ensures forall x :: 0 <= x < utf16buf.Length && !(at <= x < at + rc) ==> utf16buf[x] == old(utf16buf[x])
  {
    if wch <= 0xFFFF {
      rc := 1;
      if siz < 1 {
        return -1;
      }
      utf16buf[at] := wch;
    } else if wch <= UTF16_CODEPOINT_END {
      rc := 2;
      if siz < 2 {
        return -2;
      }
      var wch2 := wch - 0x1_0000;
      utf16buf[at], utf16buf[at + 1] := 0xD800 + wch2 / 1024, 0xDC00 + wch2 % 1024;
    } else {
      rc := -3;
    }
  }

  // ---------- counting characters ----------

  /** The characters of a text, up to one that is cut off; -1 when one is malformed. */
  function NumWchars(s: seq<Byte>): int
    decreases |s|
  {
    if s == [] then 0
    else match FirstChar8(s) {
      case Char(len, _) => var n := NumWchars(s[len..]); if n < 0 then -1 else 1 + n
      case Short(_) => 0
      case Bad(_) => -1
    }
  }

  /** A character more counts one more, whatever number of bytes it takes; one that is cut off does not count, and a
      malformed one spoils the count. */
  lemma CountOneMore(c: CodePoint, rest: seq<Byte>)
    ensures NumWchars(Encoded8(c) + rest) == if NumWchars(rest) < 0 then -1 else 1 + NumWchars(rest)
    ensures rest != [] && FirstChar8(rest).Short? ==> NumWchars(rest) == 0
    ensures rest != [] && FirstChar8(rest).Bad? ==> NumWchars(rest) == -1
    ensures NumWchars([]) == 0
  {
    DecodesEncoded8(c, rest);
    assert (Encoded8(c) + rest)[|Encoded8(c)|..] == rest;
  }

  /** Every character is complete and accepted by the decoder. */
  predicate WellFormed(s: seq<Byte>)
    decreases |s|
  {
    s == [] || (FirstChar8(s).Char? && WellFormed(s[FirstChar8(s).len..]))
  }

  // ustr_num_wchars of a string whose length is given
  method UstrNumWchars(ustr: seq<Byte>) returns (wlen: int)
    ensures wlen == NumWchars(ustr)
  {
    wlen := 0;
    var cptr: nat := 0;
    while cptr < |ustr|
      invariant cptr <= |ustr| && wlen >= 0
      invariant NumWchars(ustr) == if NumWchars(ustr[cptr..]) < 0 then -1 else wlen + NumWchars(ustr[cptr..])
      decreases |ustr| - cptr
    {
      var len := CharLength(ustr[cptr..]);
      if len <= 0 {
        return if len < 0 then -1 else wlen;
      }
      assert ustr[cptr..][len..] == ustr[cptr + len..];
      cptr := cptr + len;
      wlen := wlen + 1;
    }
  }

  // ustr_num_wchars: the length of the first character, 0 when it is cut off, negative when it is malformed
  method CharLength(rest: seq<Byte>) returns (len: int)
    requires rest != []
    ensures len <= |rest|
    ensures len < 0 ==> NumWchars(rest) == -1
    ensures len == 0 ==> NumWchars(rest) == 0
    ensures len > 0 ==> NumWchars(rest) == if NumWchars(rest[len..]) < 0 then -1 else 1 + NumWchars(rest[len..])
  {
    var rc, _ := DecodeUtf8(rest, false);
    len := if rc <= 0 then -1 else if rc > |rest| then 0 else rc;
  }

  /** The first character of a text is that of any longer text, once it is complete. */
  lemma FirstCharOfPrefix(a: seq<Byte>, b: seq<Byte>)
    requires a != [] && a <= b && FirstChar8(a).Char?
    ensures FirstChar8(b) == FirstChar8(a)
  {
    if a[0] >= 0xC0 {
      SamePayload(a, b, Following(a[0]));
    }
  }

  lemma {:induction false} SamePayload(a: seq<Byte>, b: seq<Byte>, n: nat)
    requires n < |a| && a <= b && 0xC0 <= a[0] < 0xF8
    ensures Payload(a, n) == Payload(b, n)
    decreases n
  {
    if n > 0 {
      SamePayload(a, b, n - 1);
    }
  }

  /** A well-formed beginning has no more characters than the whole, and as many only if it is the whole. */
  lemma {:induction false} PrefixHasFewerChars(a: seq<Byte>, b: seq<Byte>)
    requires a <= b && WellFormed(a) && WellFormed(b)
    ensures 0 <= NumWchars(a) <= NumWchars(b)
    ensures NumWchars(a) == NumWchars(b) ==> a == b
    decreases |b|
  {
    if a != [] {
      FirstCharOfPrefix(a, b);
      var len := FirstChar8(a).len;
      PrefixHasFewerChars(a[len..], b[len..]);
      assert a == a[..len] + a[len..] && b == b[..len] + b[len..];
    } else if b != [] {
      PrefixHasFewerChars([], b[FirstChar8(b).len..]);
    }
  }

  /** A character takes at most four bytes. */
  lemma {:induction false} CharsBoundBytes(s: seq<Byte>)
    requires WellFormed(s)
    ensures |s| <= UTF8_CH_MAXLEN * NumWchars(s)
    decreases |s|
  {
    if s != [] {
      CharsBoundBytes(s[FirstChar8(s).len..]);
    }
  }
}
