/** The parsers of the channel requests that carry a terminal size, and the encodings of
    sections 6.2 and 6.7 of RFC 4254 that they invert. Lengths are 32-bit and wrap. */
module ChannelParsers {
  import opened Utf8

  const Word: nat := 0x1_0000_0000

  type Bytes = seq<Byte>

  /** A parse succeeds with a value and the rest, fails, or runs out of the slice's bounds. */
  datatype Parse<+T> = Parsed(value: T, rest: Bytes) | Refused | OutOfBounds

  datatype Window = Window(width: nat, height: nat)
  datatype Pty = Pty(term: Bytes, window: Window)

  function Uint32(b: Bytes): (n: nat)
    requires |b| >= 4
    ensures n < Word
  {
    var b0: nat, b1: nat, b2: nat, b3: nat := b[0], b[1], b[2], b[3];
    b0 * 0x100_0000 + b1 * 0x1_0000 + b2 * 0x100 + b3
  }

  function EncodeUint32(n: nat): (b: Bytes)
    requires n < Word
    ensures |b| == 4
  {
    [n / 0x100_0000, n / 0x1_0000 % 0x100, n / 0x100 % 0x100, n % 0x100]
  }

  function ParseUint32(b: Bytes): Parse<nat> {
    if |b| < 4 then Refused else Parsed(Uint32(b), b[4..])
  }

  /** The end of the string as the parser computes it, in 32 bits. */
  function StringEnd(b: Bytes): (e: nat)
    requires |b| >= 4
    ensures e < Word
  {
    (4 + Uint32(b)) % Word
  }

  function ParseString(b: Bytes): Parse<Bytes> {
    if |b| < 4 then Refused
    else if |b| % Word < StringEnd(b) then Refused
    else if StringEnd(b) < 4 || StringEnd(b) > |b| then OutOfBounds
    else Parsed(b[4..StringEnd(b)], b[StringEnd(b)..])
  }

  function ParsePtyRequest(b: Bytes): Parse<Pty> {
    match ParseString(b)
    case Refused => Refused
    case OutOfBounds => OutOfBounds
    case Parsed(term, b1) =>
      match ParseUint32(b1)
      case Refused => Refused
      case OutOfBounds => OutOfBounds
      case Parsed(width, b2) =>
        match ParseUint32(b2)
        case Refused => Refused
        case OutOfBounds => OutOfBounds
        case Parsed(height, b3) => Parsed(Pty(term, Window(width, height)), b3)
  }

  function ParseWinchRequest(b: Bytes): Parse<Window> {
    match ParseUint32(b)
    case Refused => Refused
    case OutOfBounds => OutOfBounds
    case Parsed(width, b1) =>
      if width < 1 then Refused
      else
        match ParseUint32(b1)
        case Refused => Refused
        case OutOfBounds => OutOfBounds
        case Parsed(height, b2) => if height < 1 then Refused else Parsed(Window(width, height), b2)
  }

  lemma ParseEncodedUint32(n: nat, rest: Bytes)
    requires n < Word
    ensures ParseUint32(EncodeUint32(n) + rest) == Parsed(n, rest)
  {
    var b := EncodeUint32(n) + rest;
    assert b[4..] == rest;
    assert n / 0x100 == n / 0x1_0000 * 0x100 + n / 0x100 % 0x100;
    assert n / 0x1_0000 == n / 0x100_0000 * 0x100 + n / 0x1_0000 % 0x100;
  }

  function EncodeString(s: Bytes): Bytes
    requires |s| < Word
  {
    EncodeUint32(|s|) + s
  }

  lemma EncodedLength(s: Bytes, rest: Bytes)
    requires |s| < Word
    ensures |EncodeString(s) + rest| >= 4 && Uint32(EncodeString(s) + rest) == |s|
  {
    assert EncodeString(s) + rest == EncodeUint32(|s|) + (s + rest);
    ParseEncodedUint32(|s|, s + rest);
  }

  /** Strings whose encoded payload is shorter than 2^32 bytes are read back. */
  lemma ParseEncodedString(s: Bytes, rest: Bytes)
    requires |s| + 4 + |rest| < Word
    ensures ParseString(EncodeString(s) + rest) == Parsed(s, rest)
  {
    var b := EncodeString(s) + rest;
    EncodedLength(s, rest);
    assert StringEnd(b) == 4 + |s|;
    assert b[4..4 + |s|] == s && b[4 + |s|..] == rest;
  }

  /** The payload of a pty request: terminal type, columns, rows, and what the server ignores. */
  function EncodePty(pty: Pty, more: Bytes): Bytes
    requires |pty.term| < Word && pty.window.width < Word && pty.window.height < Word
  {
    EncodeString(pty.term) + (EncodeUint32(pty.window.width) + (EncodeUint32(pty.window.height) + more))
  }

  lemma ParseEncodedPty(pty: Pty, more: Bytes)
    requires pty.window.width < Word && pty.window.height < Word && |pty.term| + 12 + |more| < Word
    ensures ParsePtyRequest(EncodePty(pty, more)) == Parsed(pty, more)
  {
    var tail := EncodeUint32(pty.window.height) + more;
    ParseEncodedString(pty.term, EncodeUint32(pty.window.width) + tail);
    ParseEncodedUint32(pty.window.width, tail);
    ParseEncodedUint32(pty.window.height, more);
  }

  /** Window changes are read back exactly when both dimensions are positive. */
  lemma ParseEncodedWinch(w: Window, more: Bytes)
    requires w.width < Word && w.height < Word
    ensures ParseWinchRequest(EncodeUint32(w.width) + (EncodeUint32(w.height) + more)) ==
            if w.width >= 1 && w.height >= 1 then Parsed(w, more) else Refused
  {
    ParseEncodedUint32(w.width, EncodeUint32(w.height) + more);
    ParseEncodedUint32(w.height, more);
  }

  /** The string parser leaves the bounds of its input exactly when the length field is so
      large that adding the four bytes of the field itself wraps around. */
  lemma OutOfBoundsExactly(b: Bytes)
    requires |b| < Word
    ensures ParseString(b).OutOfBounds? <==> |b| >= 4 && Uint32(b) >= Word - 4
    ensures ParsePtyRequest(b).OutOfBounds? <==> ParseString(b).OutOfBounds?
  {
    hide Uint32;
    if |b| >= 4 {
      var n := Uint32(b);
      assert StringEnd(b) == if n >= Word - 4 then n + 4 - Word else n + 4;
    }
  }

  /** The most significant byte comes first: the examples of section 5 of RFC 4251. */
  lemma BigEndian()
    ensures EncodeUint32(0x29b7f4aa) == [0x29, 0xb7, 0xf4, 0xaa]
    ensures EncodeString([116, 101, 115, 116, 105, 110, 103]) == [0, 0, 0, 7, 116, 101, 115, 116, 105, 110, 103]
  {
  }

  /** A pty request of section 6.2 of RFC 4254: the terminal, its width in columns, its height in
      rows; and a window change of section 6.7: columns, then rows. */
  lemma ColumnsThenRows(more: Bytes)
    requires |more| < 0x1000
    ensures ParsePtyRequest([0, 0, 0, 2, 118, 116, 0, 0, 0, 80, 0, 0, 0, 24] + more) == Parsed(Pty([118, 116], Window(80, 24)), more)
    ensures ParseWinchRequest([0, 0, 0, 80, 0, 0, 0, 24] + more) == Parsed(Window(80, 24), more)
  {
    hide ParsePtyRequest, ParseWinchRequest;
    assert EncodeUint32(2) == [0, 0, 0, 2] && EncodeUint32(80) == [0, 0, 0, 80] && EncodeUint32(24) == [0, 0, 0, 24];
    ParseEncodedPty(Pty([118, 116], Window(80, 24)), more);
    ParseEncodedWinch(Window(80, 24), more);
    assert EncodePty(Pty([118, 116], Window(80, 24)), more) == [0, 0, 0, 2, 118, 116, 0, 0, 0, 80, 0, 0, 0, 24] + more;
    assert EncodeUint32(80) + (EncodeUint32(24) + more) == [0, 0, 0, 80, 0, 0, 0, 24] + more;
  }

  lemma EncodeUint32Of(b: Bytes)
    requires |b| >= 4
    ensures EncodeUint32(Uint32(b)) == b[..4]
  {
    var b0: nat, b1: nat, b2: nat, b3: nat := b[0], b[1], b[2], b[3];
    LowByte(b0 * 0x1_0000 + b1 * 0x100 + b2, b3);
    LowByte(b0 * 0x100 + b1, b2);
    LowByte(b0, b1);
    var n := Uint32(b);
    assert n / 0x1_0000 == n / 0x100 / 0x100 && n / 0x100_0000 == n / 0x100 / 0x100 / 0x100;
    assert b[..4] == [b0, b1, b2, b3];
  }

  lemma LowByte(q: nat, r: nat)
    requires r < 0x100
    ensures (q * 0x100 + r) / 0x100 == q && (q * 0x100 + r) % 0x100 == r
  {
  }

  /** What a parser accepts is an encoding of what it returns. */
  lemma ParsedStringIsEncoded(b: Bytes)
    requires |b| < Word && ParseString(b).Parsed?
    ensures EncodeString(ParseString(b).value) + ParseString(b).rest == b
  {
    hide EncodeUint32;
    var e := StringEnd(b);
    EncodeUint32Of(b);
    assert Uint32(b) == e - 4;
    assert b == b[..4] + b[4..e] + b[e..];
  }

  lemma ParsedUint32IsEncoded(b: Bytes)
    requires ParseUint32(b).Parsed?
    ensures ParseUint32(b).value < Word && EncodeUint32(ParseUint32(b).value) + ParseUint32(b).rest == b
  {
    hide EncodeUint32;
    EncodeUint32Of(b);
    assert b == b[..4] + b[4..];
  }

  lemma ParsedPtyIsEncoded(b: Bytes)
    requires |b| < Word && ParsePtyRequest(b).Parsed?
    ensures var pty := ParsePtyRequest(b).value;
      && pty.window.width < Word && pty.window.height < Word && |pty.term| < Word
      && EncodePty(pty, ParsePtyRequest(b).rest) == b
  {
    hide ParseString, ParseUint32, EncodeString, EncodeUint32;
    ParsedStringIsEncoded(b);
    ShorterString(b);
    var b1 := ParseString(b).rest;
    ParsedUint32IsEncoded(b1);
    ParsedUint32IsEncoded(ParseUint32(b1).rest);
  }

  lemma ShorterString(b: Bytes)
    requires |b| < Word && ParseString(b).Parsed?
    ensures |ParseString(b).value| < Word && |ParseString(b).rest| < Word
  {
  }

  lemma ParsedWinchIsEncoded(b: Bytes)
    requires ParseWinchRequest(b).Parsed?
    ensures var w := ParseWinchRequest(b).value;
      && 1 <= w.width < Word && 1 <= w.height < Word
      && EncodeUint32(w.width) + (EncodeUint32(w.height) + ParseWinchRequest(b).rest) == b
  {
    hide ParseUint32, EncodeUint32;
    ParsedUint32IsEncoded(b);
    ParsedUint32IsEncoded(ParseUint32(b).rest);
  }
}
