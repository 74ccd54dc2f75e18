/** The incremental byte-to-key decoder of the terminal. */
module KeyDecoder {
  import opened Wrappers
  import opened Utf8

  const KeyCtrlC: Rune := 3
  const KeyCtrlD: Rune := 4
  const KeyCtrlU: Rune := 21
  const KeyEnter: Rune := 13
  const KeyEscape: Rune := 27
  const KeyBackspace: Rune := 127
  // Keys without a code point of their own live in the surrogate area.
  const KeyUnknown: Rune := 0xD806
  const KeyUp: Rune := 0xD807
  const KeyDown: Rune := 0xD808
  const KeyLeft: Rune := 0xD809
  const KeyRight: Rune := 0xD80A
  const KeyAltLeft: Rune := 0xD80B
  const KeyAltRight: Rune := 0xD80C
  const KeyHome: Rune := 0xD80D
  const KeyEnd: Rune := 0xD80E
  const KeyDeleteWord: Rune := 0xD80F
  const KeyDeleteLine: Rune := 0xD810
  const KeyClearScreen: Rune := 0xD811
  const KeyPasteStart: Rune := 0xD812
  const KeyPasteEnd: Rune := 0xD813

  const PasteStart: seq<Byte> := [27, 91, 50, 48, 48, 126]
  const PasteEnd: seq<Byte> := [27, 91, 50, 48, 49, 126]

  /** Control characters that act as editing keys outside a paste. */
  function ControlKey(b: Byte): Option<Rune> {
    match b
    case 1 => Some(KeyHome)
    case 5 => Some(KeyEnd)
    case 8 => Some(KeyBackspace)
    case 11 => Some(KeyDeleteLine)
    case 12 => Some(KeyClearScreen)
    case 23 => Some(KeyDeleteWord)
    case 14 => Some(KeyDown)
    case 16 => Some(KeyUp)
    case _ => None
  }

  /** Final byte of the three-byte cursor sequences `ESC [ x`. */
  function CursorKey(b: Byte): Option<Rune> {
    match b
    case 65 => Some(KeyUp)
    case 66 => Some(KeyDown)
    case 67 => Some(KeyRight)
    case 68 => Some(KeyLeft)
    case 72 => Some(KeyHome)
    case 70 => Some(KeyEnd)
    case _ => None
  }

  /** Final byte of the six-byte sequences `ESC [ 1 ; 3 x`. */
  function AltKey(b: Byte): Option<Rune> {
    match b
    case 67 => Some(KeyAltRight)
    case 68 => Some(KeyAltLeft)
    case _ => None
  }

  predicate IsFinal(b: Byte) {
    97 <= b <= 122 || 65 <= b <= 90 || b == 126
  }

  /** Position just after the first byte that can end an escape sequence, if any. */
  function SequenceEnd(b: seq<Byte>): (n: Option<nat>)
    ensures n.Some? ==> 0 < n.value <= |b| && IsFinal(b[n.value - 1])
    ensures n.Some? ==> forall i | 0 <= i < n.value - 1 :: !IsFinal(b[i])
    ensures n.None? ==> forall i | 0 <= i < |b| :: !IsFinal(b[i])
  {
    if b == [] then None
    else if IsFinal(b[0]) then Some(1)
    else
      match SequenceEnd(b[1..])
      case None => None
      case Some(k) =>
        assert forall i | 0 < i < k :: b[i] == b[1..][i - 1];
        Some(k + 1)
  }

  datatype Decoded = Decoded(key: Rune, rest: seq<Byte>)

  /** The escape sequences that stand for a key of their own. */
  function KnownSequence(b: seq<Byte>, paste: bool): (d: Option<Decoded>)
    requires |b| > 0 && b[0] == KeyEscape
    ensures d.Some? ==> |d.value.rest| < |b| && d.value.key != RuneError
  {
    if !paste && |b| >= 3 && b[1] == 91 && CursorKey(b[2]).Some? then
      Some(Decoded(CursorKey(b[2]).value, b[3..]))
    else if !paste && |b| >= 6 && b[1..5] == [91, 49, 59, 51] && AltKey(b[5]).Some? then
      Some(Decoded(AltKey(b[5]).value, b[6..]))
    else if !paste && |b| >= 6 && b[..6] == PasteStart then
      Some(Decoded(KeyPasteStart, b[6..]))
    else if paste && |b| >= 6 && b[..6] == PasteEnd then
      Some(Decoded(KeyPasteEnd, b[6..]))
    else
      None
  }

  /** Parses one key from the front of `b`. `RuneError` means that no key was decoded:
      the input is partial (`rest == b`), or starts with an undecodable code point,
      which `rest` no longer holds. A key that was decoded consumed some input. */
  function BytesToKey(b: seq<Byte>, paste: bool): (d: Decoded)
    ensures d.key != RuneError ==> |d.rest| < |b|
    ensures |d.rest| <= |b| && (|d.rest| == |b| ==> d.rest == b)
  {
    if b == [] then
      Decoded(RuneError, [])
    else if !paste && ControlKey(b[0]).Some? then
      Decoded(ControlKey(b[0]).value, b[1..])
    else if b[0] != KeyEscape then
      if !FullRune(b) then Decoded(RuneError, b)
      else var d := DecodeRune(b); Decoded(d.0, b[d.1..])
    else if KnownSequence(b, paste).Some? then
      KnownSequence(b, paste).value
    else
      match SequenceEnd(b)
      case None => Decoded(RuneError, b)
      case Some(n) => Decoded(KeyUnknown, b[n..])
  }

  /** No key can be decoded before more input arrives, and nothing has been dropped. */
  predicate Partial(b: seq<Byte>, paste: bool) {
    BytesToKey(b, paste) == Decoded(RuneError, b)
  }

  lemma Brackets()
    ensures BytesToKey(PasteStart, false) == Decoded(KeyPasteStart, [])
    ensures BytesToKey(PasteEnd, true) == Decoded(KeyPasteEnd, [])
  {
    hide SequenceEnd;
    assert PasteStart[1..5] == [91, 50, 48, 48] && PasteStart[..6] == PasteStart && PasteEnd[..6] == PasteEnd;
  }

  lemma {:induction false} SequenceEndStable(b: seq<Byte>, more: seq<Byte>)
    requires SequenceEnd(b).Some?
    ensures SequenceEnd(b + more) == SequenceEnd(b)
  {
    if !IsFinal(b[0]) {
      SequenceEndStable(b[1..], more);
      assert (b + more)[1..] == b[1..] + more;
    }
  }

  /** A recognised sequence is read off its first six bytes. */
  lemma KnownSequenceStable(b: seq<Byte>, more: seq<Byte>, paste: bool)
    requires |b| > 0 && b[0] == KeyEscape && KnownSequence(b, paste).Some?
    ensures KnownSequence(b + more, paste).Some?
    ensures KnownSequence(b + more, paste).value.key == KnownSequence(b, paste).value.key
    ensures KnownSequence(b + more, paste).value.rest == KnownSequence(b, paste).value.rest + more
  {
    var c := b + more;
    if |b| >= 6 {
      assert c[1..5] == b[1..5] && c[..6] == b[..6] && c[5] == b[5];
      assert c[6..] == b[6..] + more;
    }
    assert |b| >= 3 ==> c[2] == b[2] && c[1] == b[1] && c[3..] == b[3..] + more;
  }

  /** No recognised sequence has a terminating byte before its last position. */
  lemma KnownSequenceShape(b: seq<Byte>, paste: bool)
    requires |b| > 0 && b[0] == KeyEscape && KnownSequence(b, paste).Some?
    ensures var used := |b| - |KnownSequence(b, paste).value.rest|;
            forall i | 0 <= i < used - 1 :: !IsFinal(b[i])
  {
    if |b| >= 6 {
      assert b[1..5] == [b[1], b[2], b[3], b[4]];
      assert b[..6] == [b[0], b[1], b[2], b[3], b[4], b[5]];
    }
  }

  /** A recognised sequence is recognised from its own bytes. */
  lemma KnownSequencePrefix(b: seq<Byte>, more: seq<Byte>, paste: bool)
    requires |b| > 0 && b[0] == KeyEscape && KnownSequence(b + more, paste).Some?
    requires |b + more| - |KnownSequence(b + more, paste).value.rest| <= |b|
    ensures KnownSequence(b, paste).Some?
  {
    var c := b + more;
    assert forall i | 0 <= i < |b| :: c[i] == b[i];
    if |b| >= 6 {
      assert c[1..5] == b[1..5] && c[..6] == b[..6];
    }
  }

  /** A sequence that ended unrecognised stays unrecognised. */
  lemma UnknownSequenceStable(b: seq<Byte>, more: seq<Byte>, paste: bool)
    requires |b| > 0 && b[0] == KeyEscape
    requires KnownSequence(b, paste).None? && SequenceEnd(b).Some?
    ensures KnownSequence(b + more, paste).None?
  {
    hide KnownSequence, SequenceEnd;
    var c := b + more;
    if KnownSequence(c, paste).Some? {
      KnownSequenceShape(c, paste);
      var end := SequenceEnd(b).value - 1;
      assert c[end] == b[end];
      KnownSequencePrefix(b, more, paste);
    }
  }

  /** Decoding a key, or rejecting a code point, is stable under extension of the input. */
  lemma KeyStable(b: seq<Byte>, more: seq<Byte>, paste: bool)
    requires b != [] && !Partial(b, paste)
    ensures BytesToKey(b + more, paste) == Decoded(BytesToKey(b, paste).key, BytesToKey(b, paste).rest + more)
  {
    hide KnownSequence, SequenceEnd, FullRune, DecodeRune, ControlKey;
    var c := b + more;
    assert c[0] == b[0];
    if !paste && ControlKey(b[0]).Some? {
      assert c[1..] == b[1..] + more;
    } else if b[0] != KeyEscape {
      DecodeStable(b, more);
      var l := DecodeRune(b).1;
      assert c[l..] == b[l..] + more;
    } else if KnownSequence(b, paste).Some? {
      KnownSequenceStable(b, more, paste);
    } else {
      SequenceEndStable(b, more);
      UnknownSequenceStable(b, more, paste);
      var n := SequenceEnd(b).value;
      assert c[n..] == b[n..] + more;
    }
  }

  /** Being partial is inherited by every prefix. */
  lemma PartialPrefix(b: seq<Byte>, more: seq<Byte>, paste: bool)
    requires Partial(b + more, paste)
    ensures Partial(b, paste)
  {
    if b != [] && !Partial(b, paste) {
      KeyStable(b, more, paste);
    }
  }

  /** A byte that ends a sequence: a letter or a tilde. */
  predicate Ends(b: Byte) {
    var c := b as char;
    'a' <= c <= 'z' || 'A' <= c <= 'Z' || c == '~'
  }

  /** What starts with escape is one key up to the first letter or tilde, and no key before there is
      one. */
  lemma SequenceIsOneKey(b: seq<Byte>)
    requires |b| > 1 && b[0] == KeyEscape && forall i | 0 <= i < |b| - 1 :: !Ends(b[i])
    ensures Ends(b[|b| - 1]) <==> BytesToKey(b, false).key != RuneError && BytesToKey(b, false).rest == []
    ensures !Ends(b[|b| - 1]) <==> Partial(b, false)
  {
    if KnownSequence(b, false).Some? {
      assert |b| >= 6 ==> b[..6][5] == b[5];
    }
  }
}
