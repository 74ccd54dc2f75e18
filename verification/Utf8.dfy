/** UTF-8 as the terminal's input side sees it: the encoding of code points, and the
    two library functions the key decoder relies on, `utf8.FullRune` and
    `utf8.DecodeRune`, with their acceptance ranges. */
module Utf8 {

  type Byte = b: int | 0 <= b < 256
  type Rune = nat

  /** U+FFFD, also the value that signals a decoding error. */
  const RuneError: Rune := 0xFFFD

  predicate IsScalar(r: Rune) {
    r < 0xD800 || 0xE000 <= r <= 0x10FFFF
  }

  /** The UTF-8 encoding of a code point. */
  function Encode(r: Rune): (bs: seq<Byte>)
    requires IsScalar(r)
    ensures 1 <= |bs| <= 4
  {
    if r < 0x80 then [r]
    else if r < 0x800 then [0xC0 + r / 64, 0x80 + r % 64]
    else if r < 0x10000 then [0xE0 + r / 4096, 0x80 + r / 64 % 64, 0x80 + r % 64]
    else [0xF0 + r / 262144, 0x80 + r / 4096 % 64, 0x80 + r / 64 % 64, 0x80 + r % 64]
  }

  /** Length announced by a leading byte; 1 for ASCII and for bytes that cannot lead. */
  function LeadSize(b: Byte): nat {
    if 0xC2 <= b <= 0xDF then 2
    else if 0xE0 <= b <= 0xEF then 3
    else if 0xF0 <= b <= 0xF4 then 4
    else 1
  }

  predicate IsContinuation(b: Byte) {
    0x80 <= b <= 0xBF
  }

  /** Whether `b` may follow the leading byte `lead`. */
  predicate AcceptsSecond(lead: Byte, b: Byte) {
    if lead == 0xE0 then 0xA0 <= b <= 0xBF
    else if lead == 0xED then 0x80 <= b <= 0x9F
    else if lead == 0xF0 then 0x90 <= b <= 0xBF
    else if lead == 0xF4 then 0x80 <= b <= 0x8F
    else IsContinuation(b)
  }

  /** The low bits of a byte that carry part of the code point. */
  function Payload(b: Byte, modulus: nat): nat
    requires modulus > 0
  {
    b % modulus
  }

  /** `utf8.FullRune`: the bytes start with a whole code point, or with an error. */
  predicate FullRune(b: seq<Byte>) {
    |b| > 0 &&
    (|b| >= LeadSize(b[0])
     || (|b| > 1 && !AcceptsSecond(b[0], b[1]))
     || (|b| > 2 && !IsContinuation(b[2])))
  }

  /** `utf8.DecodeRune`: the first code point and its width, or an error of width 1. */
  function DecodeRune(b: seq<Byte>): (d: (Rune, nat))
    requires |b| > 0
    ensures 1 <= d.1 <= 4 && d.1 <= |b|
  {
    var n := LeadSize(b[0]);
    if n == 1 then (if b[0] < 0x80 then b[0] else RuneError, 1)
    else if |b| < n || !AcceptsSecond(b[0], b[1]) then (RuneError, 1)
    else if n == 2 then (Payload(b[0], 32) * 64 + Payload(b[1], 64), 2)
    else if !IsContinuation(b[2]) then (RuneError, 1)
    else if n == 3 then
      (Payload(b[0], 16) * 4096 + Payload(b[1], 64) * 64 + Payload(b[2], 64), 3)
    else if !IsContinuation(b[3]) then (RuneError, 1)
    else
      (Payload(b[0], 8) * 262144 + Payload(b[1], 64) * 4096 + Payload(b[2], 64) * 64 + Payload(b[3], 64), 4)
  }

  /** What was decoded does not change when more input arrives. */
  lemma DecodeStable(b: seq<Byte>, more: seq<Byte>)
    requires FullRune(b)
    ensures FullRune(b + more)
    ensures DecodeRune(b + more) == DecodeRune(b)
  {
    var c := b + more;
    assert c[0] == b[0];
    assert |b| > 1 ==> c[1] == b[1];
    assert |b| > 2 ==> c[2] == b[2];
    assert |b| > 3 ==> c[3] == b[3];
  }

  lemma ThreeByteLead(r: Rune)
    requires IsScalar(r) && 0x800 <= r < 0x10000
    ensures AcceptsSecond(0xE0 + r / 4096, 0x80 + r / 64 % 64)
    ensures r == r / 4096 * 4096 + r / 64 % 64 * 64 + r % 64
  {
    assert r / 64 == r / 4096 * 64 + r / 64 % 64;
  }

  lemma FourByteLead(r: Rune)
    requires IsScalar(r) && 0x10000 <= r
    ensures AcceptsSecond(0xF0 + r / 262144, 0x80 + r / 4096 % 64)
    ensures r == r / 262144 * 262144 + r / 4096 % 64 * 4096 + r / 64 % 64 * 64 + r % 64
  {
    assert r / 64 == r / 4096 * 64 + r / 64 % 64;
    assert r / 4096 == r / 262144 * 64 + r / 4096 % 64;
  }

  lemma ThreeByteExact(r: Rune)
    requires IsScalar(r) && 0x800 <= r < 0x10000
    ensures FullRune(Encode(r)) && DecodeRune(Encode(r)) == (r, 3)
  {
    ThreeByteLead(r);
    var a, b, c := r / 4096, r / 64 % 64, r % 64;
    assert (0xE0 + a) % 16 == a && (0x80 + b) % 64 == b && (0x80 + c) % 64 == c;
  }

  lemma FourByteExact(r: Rune)
    requires IsScalar(r) && 0x10000 <= r
    ensures FullRune(Encode(r)) && DecodeRune(Encode(r)) == (r, 4)
  {
    FourByteLead(r);
    var a, b, c, d := r / 262144, r / 4096 % 64, r / 64 % 64, r % 64;
    assert (0xF0 + a) % 8 == a && (0x80 + b) % 64 == b && (0x80 + c) % 64 == c && (0x80 + d) % 64 == d;
  }

  /** Decoding inverts encoding, whatever follows. */
  lemma DecodeEncode(r: Rune, more: seq<Byte>)
    requires IsScalar(r)
    ensures FullRune(Encode(r) + more)
    ensures DecodeRune(Encode(r) + more) == (r, |Encode(r)|)
  {
    if 0x800 <= r < 0x10000 {
      ThreeByteExact(r);
    } else if 0x10000 <= r {
      FourByteExact(r);
    }
    DecodeStable(Encode(r), more);
  }

  /** A proper prefix of an encoding is recognised as incomplete, not as an error. */
  lemma PrefixIsPartial(r: Rune, n: nat)
    requires IsScalar(r) && 0 < n < |Encode(r)|
    ensures !FullRune(Encode(r)[..n])
  {
    var b := Encode(r)[..n];
    if 0x800 <= r < 0x10000 {
      ThreeByteLead(r);
    } else if 0x10000 <= r {
      FourByteLead(r);
    }
  }

  /** What was decoded without error is encoded to the bytes it came from. */
  lemma EncodeDecode(b: seq<Byte>)
    requires b != [] && DecodeRune(b) != (RuneError, 1)
    ensures var (r, n) := DecodeRune(b); IsScalar(r) && Encode(r) == b[..n]
  {
    var n := LeadSize(b[0]);
    if n == 2 {
      TwoBytes(b[0], b[1]);
      assert b[..2] == [b[0], b[1]];
    } else if n == 3 {
      ThreeBytes(b[0], b[1], b[2]);
      assert b[..3] == [b[0], b[1], b[2]];
    } else if n == 4 {
      FourBytes(b[0], b[1], b[2], b[3]);
      assert b[..4] == [b[0], b[1], b[2], b[3]];
    }
  }

  lemma TwoBytes(a: Byte, b: Byte)
    requires LeadSize(a) == 2 && IsContinuation(b)
    ensures var r := Payload(a, 32) * 64 + Payload(b, 64); IsScalar(r) && Encode(r) == [a, b]
  {
    assert Payload(a, 32) == a - 0xC0 && Payload(b, 64) == b - 0x80;
  }

  lemma ThreeBytes(a: Byte, b: Byte, c: Byte)
    requires LeadSize(a) == 3 && AcceptsSecond(a, b) && IsContinuation(c)
    ensures var r := Payload(a, 16) * 4096 + Payload(b, 64) * 64 + Payload(c, 64); IsScalar(r) && Encode(r) == [a, b, c]
  {
    var x, y, z := a - 0xE0, b - 0x80, c - 0x80;
    assert Payload(a, 16) == x && Payload(b, 64) == y && Payload(c, 64) == z;
    var r := x * 4096 + y * 64 + z;
    assert r / 4096 == x && r / 64 == x * 64 + y && r % 64 == z;
    assert (x * 64 + y) % 64 == y;
  }

  lemma FourBytes(a: Byte, b: Byte, c: Byte, d: Byte)
    requires LeadSize(a) == 4 && AcceptsSecond(a, b) && IsContinuation(c) && IsContinuation(d)
    ensures var r := Payload(a, 8) * 262144 + Payload(b, 64) * 4096 + Payload(c, 64) * 64 + Payload(d, 64);
      IsScalar(r) && Encode(r) == [a, b, c, d]
  {
    hide Payload;
    ContinuationBits(b);
    ContinuationBits(c);
    ContinuationBits(d);
    assert Payload(a, 8) == a - 0xF0 by {
      LeadBits(a);
    }
    FourDigits(a - 0xF0, b - 0x80, c - 0x80, d - 0x80);
  }

  lemma ContinuationBits(b: Byte)
    requires 0x80 <= b <= 0xBF
    ensures Payload(b, 64) == b - 0x80
  {
  }

  lemma LeadBits(b: Byte)
    requires 0xF0 <= b <= 0xF4
    ensures Payload(b, 8) == b - 0xF0
  {
  }

  lemma FourDigits(w: int, x: int, y: int, z: int)
    requires 0 <= w < 8 && 0 <= x < 64 && 0 <= y < 64 && 0 <= z < 64
    ensures var r := w * 262144 + x * 4096 + y * 64 + z;
      r / 262144 == w && r / 4096 % 64 == x && r / 64 % 64 == y && r % 64 == z
  {
    var r := w * 262144 + x * 4096 + y * 64 + z;
    LastDigit(w * 4096 + x * 64 + y, z);
    LastDigit(w * 64 + x, y);
    LastDigit(w, x);
    assert r / 4096 == w * 64 + x && r / 262144 == w;
  }

  lemma LastDigit(q: int, d: int)
    requires 0 <= d < 64
    ensures (q * 64 + d) / 64 == q && (q * 64 + d) % 64 == d
  {
  }

  function EncodeAll(rs: seq<Rune>): seq<Byte>
    requires forall r | r in rs :: IsScalar(r)
  {
    if rs == [] then [] else Encode(rs[0]) + EncodeAll(rs[1..])
  }
}
