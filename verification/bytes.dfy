/** Bytes, big-endian integer reads and UTF-8 (the encoding behind Rust's
    `str::as_bytes` and the validity test behind `std::str::from_utf8`). */
module Bytes {

  newtype byte = b: int | 0 <= b < 256

  /** Big-endian unsigned 16-bit integer at `b[i..i+2]` (`u16::from_be_bytes`). */
  function BE16(b: seq<byte>, i: nat): (r: nat)
    requires i + 2 <= |b|
    ensures r < 0x1_0000
    ensures r / 256 == b[i] as nat && r % 256 == b[i + 1] as nat
  {
    b[i] as nat * 256 + b[i + 1] as nat
  }

  /** Big-endian unsigned 32-bit integer at `b[i..i+4]` (`u32::from_be_bytes`). */
  function BE32(b: seq<byte>, i: nat): (r: nat)
    requires i + 4 <= |b|
    ensures r < 0x1_0000_0000
    ensures r / 0x1_0000 == BE16(b, i) && r % 0x1_0000 == BE16(b, i + 2)
  {
    BE16(b, i) * 0x1_0000 + BE16(b, i + 2)
  }

  // ---------------------------------------------------------------------
  // Encoding

  /** The UTF-8 encoding of one Unicode scalar value. */
  function EncodeChar(c: char): (r: seq<byte>)
    ensures 1 <= |r| <= 4
    ensures (|r| == 1) == (c as int < 0x80)
  {
    var n := c as int;
    if n < 0x80 then
      [n as byte]
    else if n < 0x800 then
      [(0xC0 + n / 64) as byte, (0x80 + n % 64) as byte]
    else if n < 0x1_0000 then
      [(0xE0 + n / 4096) as byte, (0x80 + (n / 64) % 64) as byte, (0x80 + n % 64) as byte]
    else
      [(0xF0 + n / 262144) as byte, (0x80 + (n / 4096) % 64) as byte,
       (0x80 + (n / 64) % 64) as byte, (0x80 + n % 64) as byte]
  }

  /** The UTF-8 encoding of a string (`str::as_bytes`). */
  function EncodeUtf8(s: string): (r: seq<byte>)
    ensures |r| >= |s|
  {
    if |s| == 0 then [] else EncodeChar(s[0]) + EncodeUtf8(s[1..])
  }

  /** Every character of `s` is ASCII. */
  predicate IsAscii(s: string) {
    forall i | 0 <= i < |s| :: s[i] as int < 0x80
  }

  lemma {:induction false} EncodeAscii(s: string)
    requires IsAscii(s)
    ensures |EncodeUtf8(s)| == |s|
    ensures forall i | 0 <= i < |s| :: EncodeUtf8(s)[i] as int == s[i] as int
  {
    if |s| > 0 {
      EncodeAscii(s[1..]);
    }
  }

  lemma {:induction false} EncodeConcat(s: string, t: string)
    ensures EncodeUtf8(s + t) == EncodeUtf8(s) + EncodeUtf8(t)
  {
    if |s| == 0 {
      assert s + t == t;
    } else {
      assert (s + t)[1..] == s[1..] + t;
      EncodeConcat(s[1..], t);
    }
  }

  // ---------------------------------------------------------------------
  // Validation

  predicate IsCont(b: byte) {
    0x80 <= b <= 0xBF
  }

  /** Length of the well-formed UTF-8 sequence that starts `b`, or 0 when
      `b` does not start with one (Table 3-7 of the Unicode Standard, the
      table `from_utf8` checks). */
  function LeadLen(b: seq<byte>): (n: nat)
    requires |b| > 0
    ensures n <= 4 && n <= |b|
    ensures n == 1 <==> b[0] < 0x80
  {
    var b0 := b[0];
    if b0 < 0x80 then 1
    else if 0xC2 <= b0 <= 0xDF then
      (if |b| >= 2 && IsCont(b[1]) then 2 else 0)
    else if b0 == 0xE0 then
      (if |b| >= 3 && 0xA0 <= b[1] <= 0xBF && IsCont(b[2]) then 3 else 0)
    else if (0xE1 <= b0 <= 0xEC) || (0xEE <= b0 <= 0xEF) then
      (if |b| >= 3 && IsCont(b[1]) && IsCont(b[2]) then 3 else 0)
    else if b0 == 0xED then
      (if |b| >= 3 && 0x80 <= b[1] <= 0x9F && IsCont(b[2]) then 3 else 0)
    else if b0 == 0xF0 then
      (if |b| >= 4 && 0x90 <= b[1] <= 0xBF && IsCont(b[2]) && IsCont(b[3]) then 4 else 0)
    else if 0xF1 <= b0 <= 0xF3 then
      (if |b| >= 4 && IsCont(b[1]) && IsCont(b[2]) && IsCont(b[3]) then 4 else 0)
    else if b0 == 0xF4 then
      (if |b| >= 4 && 0x80 <= b[1] <= 0x8F && IsCont(b[2]) && IsCont(b[3]) then 4 else 0)
    else 0
  }

  /** `std::str::from_utf8(b).is_ok()`. */
  predicate ValidUtf8(b: seq<byte>)
    decreases |b|
  {
    |b| == 0 || (LeadLen(b) > 0 && ValidUtf8(b[LeadLen(b)..]))
  }

  /** Bytes after the first in a multi-byte sequence are continuation bytes. */
  lemma LeadLenTail(b: seq<byte>, k: nat)
    requires |b| > 0 && 0 < k < LeadLen(b)
    ensures b[k] >= 0x80
  {
  }

  /** `LeadLen` only looks at the bytes of the sequence it accepts. */
  lemma LeadLenExtend(a: seq<byte>, b: seq<byte>)
    requires |a| > 0 && LeadLen(a) > 0
    ensures LeadLen(a + b) == LeadLen(a)
  {
    var n := LeadLen(a);
    assert forall i | 0 <= i < |a| :: (a + b)[i] == a[i];
  }

  /** The encoding of a character is accepted as one well-formed sequence
      of its own length, whatever follows it. */
  lemma EncodeCharLead(c: char, rest: seq<byte>)
    ensures LeadLen(EncodeChar(c) + rest) == |EncodeChar(c)|
  {
    var n := c as int;
    if n < 0x80 {
    } else if n < 0x800 {
      EncodeTwoAccepted(c);
    } else if n < 0x1_0000 {
      EncodeThreeAccepted(c);
    } else {
      EncodeFourAccepted(c);
    }
    LeadLenExtend(EncodeChar(c), rest);
  }

  lemma EncodeTwoAccepted(c: char)
    requires 0x80 <= c as int < 0x800
    ensures LeadLen(EncodeChar(c)) == 2
  {
    var e := EncodeChar(c);
    assert 0xC2 <= e[0] <= 0xDF;
  }

  lemma EncodeThreeAccepted(c: char)
    requires 0x800 <= c as int < 0x1_0000
    ensures LeadLen(EncodeChar(c)) == 3
  {
    var e := EncodeChar(c);
    var n := c as int;
    assert n < 0xD800 || 0xE000 <= n;
    assert e[0] as int == 0xE0 + n / 4096;
    if n < 0x1000 {
      assert (n / 64) % 64 >= 32;
    } else if 0xD000 <= n < 0xE000 {
      assert (n / 64) % 64 < 32;
    }
  }

  lemma EncodeFourAccepted(c: char)
    requires 0x1_0000 <= c as int
    ensures LeadLen(EncodeChar(c)) == 4
  {
    var e := EncodeChar(c);
    var n := c as int;
    assert n < 0x11_0000;
    assert e[0] as int == 0xF0 + n / 262144;
    if n < 0x4_0000 {
      assert (n / 4096) % 64 >= 16;
    } else if 0x10_0000 <= n {
      assert (n / 4096) % 64 < 16;
    }
  }

  /** Encoding a string always yields well-formed UTF-8. */
  lemma {:induction false} EncodeUtf8Valid(s: string)
    ensures ValidUtf8(EncodeUtf8(s))
  {
    if |s| > 0 {
      var e := EncodeChar(s[0]);
      var rest := EncodeUtf8(s[1..]);
      EncodeCharLead(s[0], rest);
      assert (e + rest)[|e|..] == rest;
      EncodeUtf8Valid(s[1..]);
    }
  }

  /** Concatenating well-formed UTF-8 keeps it well-formed. */
  lemma {:induction false} ValidConcat(a: seq<byte>, b: seq<byte>)
    requires ValidUtf8(a) && ValidUtf8(b)
    ensures ValidUtf8(a + b)
    decreases |a|
  {
    if |a| == 0 {
      assert a + b == b;
    } else {
      var n := LeadLen(a);
      LeadLenExtend(a, b);
      assert (a + b)[n..] == a[n..] + b;
      ValidConcat(a[n..], b);
    }
  }

  /** A prefix that still holds the leading sequence starts with the same sequence. */
  lemma LeadLenPrefix(b: seq<byte>, m: nat)
    requires |b| > 0 && 0 < LeadLen(b) <= m <= |b|
    ensures LeadLen(b[..m]) == LeadLen(b)
  {
    assert forall i | 0 <= i < m :: b[..m][i] == b[i];
  }

  /** Cutting well-formed UTF-8 just before an ASCII byte (or at its end)
      leaves two well-formed halves: an ASCII byte never sits inside a
      multi-byte sequence. */
  lemma {:induction false} ValidSplitAtAscii(b: seq<byte>, p: nat)
    requires ValidUtf8(b)
    requires p <= |b| && (p == |b| || b[p] < 0x80)
    ensures ValidUtf8(b[..p]) && ValidUtf8(b[p..])
    decreases |b|
  {
    if p == 0 {
      assert b[..p] == [];
      assert b[p..] == b;
    } else {
      var n := LeadLen(b);
      if p < n {
        LeadLenTail(b, p);
      } else {
        var rest := b[n..];
        assert ValidUtf8(rest);
        ValidSplitAtAscii(rest, p - n);
        assert rest[p - n..] == b[p..];
        LeadLenPrefix(b, p);
        assert b[..p][n..] == rest[..p - n];
      }
    }
  }
}
