/** What a user sends: characters, escape sequences and pastes. Every such stream is decoded without
    loss and keeps the line displayable. */
module Keystrokes {
  import opened Utf8
  import opened KeyDecoder
  import opened Screen
  import opened LineEditor
  import opened ReadLoop

  datatype Stroke = Char(r: Rune) | Special(bytes: seq<Byte>) | Paste(text: seq<Rune>)

  /** Characters other than escape, C1 controls and U+FFFD; complete escape sequences; pastes of
      glyphs and line ends. */
  predicate IsStroke(s: Stroke) {
    match s
    case Char(r) => IsScalar(r) && r != RuneError && r != KeyEscape && !(0x80 <= r < 0xA0)
    case Special(b) =>
      b != [] && b[0] == KeyEscape && BytesToKey(b, false).rest == []
      && BytesToKey(b, false).key != RuneError && BytesToKey(b, false).key != KeyPasteStart
    case Paste(text) => Pasted(text)
  }

  predicate Pasted(text: seq<Rune>) {
    forall i | 0 <= i < |text| :: text[i] != RuneError && (text[i] == KeyEnter || IsGlyph(text[i]))
  }

  predicate IsClear(s: Stroke) {
    s.Char? && s.r == 12
  }

  function Sent(s: Stroke): seq<Byte>
    requires IsStroke(s)
  {
    match s
    case Char(r) => Encode(r)
    case Special(b) => b
    case Paste(text) => PasteStart + EncodeAll(text) + PasteEnd
  }

  function Stream(strokes: seq<Stroke>): seq<Byte>
    requires forall i | 0 <= i < |strokes| :: IsStroke(strokes[i])
  {
    if strokes == [] then [] else Sent(strokes[0]) + Stream(strokes[1..])
  }

  /** The key of a character. */
  lemma CharKey(r: Rune, more: seq<Byte>)
    requires IsStroke(Char(r))
    ensures var d := BytesToKey(Encode(r) + more, false);
      && d.rest == more && d.key != RuneError && d.key != KeyPasteStart
      && StaysDisplayable(d.key, false) && (r != 12 ==> d.key != KeyClearScreen)
  {
    var b := Encode(r) + more;
    if ControlKey(b[0]).Some? {
      assert Encode(r) == [r] && b[1..] == more;
    } else {
      FirstByte(r);
      DecodeEncode(r, more);
      assert b[|Encode(r)|..] == more;
    }
  }

  lemma FirstByte(r: Rune)
    requires IsScalar(r)
    ensures Encode(r)[0] < 0x80 <==> r < 0x80
    ensures r < 0x80 ==> Encode(r) == [r]
  {
  }

  /** The key of an escape sequence. */
  lemma SpecialKey(b: seq<Byte>, more: seq<Byte>)
    requires IsStroke(Special(b))
    ensures var d := BytesToKey(b + more, false);
      && d.rest == more && d.key != RuneError && d.key != KeyPasteStart
      && StaysDisplayable(d.key, false) && d.key != KeyClearScreen
  {
    SpecialKeyKind(b);
    hide BytesToKey;
    KeyStable(b, more, false);
    assert [] + more == more;
  }

  lemma SpecialKeyKind(b: seq<Byte>)
    requires IsStroke(Special(b))
    ensures var key := BytesToKey(b, false).key;
      StaysDisplayable(key, false) && key != KeyClearScreen && !Partial(b, false)
  {
  }

  /** The keys around a paste. */
  lemma BracketKeys(more: seq<Byte>)
    ensures BytesToKey(PasteStart + more, false) == Decoded(KeyPasteStart, more)
    ensures BytesToKey(PasteEnd + more, true) == Decoded(KeyPasteEnd, more)
  {
    hide BytesToKey;
    Brackets();
    KeyStable(PasteStart, more, false);
    KeyStable(PasteEnd, more, true);
    assert [] + more == more;
  }

  /** A character inside a paste. */
  lemma PastedKey(r: Rune, more: seq<Byte>)
    requires Pasted([r])
    ensures IsScalar(r) && BytesToKey(Encode(r) + more, true) == Decoded(r, more)
    ensures StaysDisplayable(r, true)
  {
    assert [r][0] == r;
    var b := Encode(r) + more;
    FirstByte(r);
    DecodeEncode(r, more);
    assert b[|Encode(r)|..] == more;
  }

  /** Only the brackets change whether a paste is going on. */
  lemma PasteGoesOn(r: Reader, key: Rune, complete: Completer)
    ensures key != KeyPasteStart && key != KeyPasteEnd ==> TakeKey(r, key, complete).ed.paste == r.ed.paste
    ensures !r.ed.paste ==> (key != KeyPasteStart ==> !TakeKey(r, key, complete).ed.paste)
    ensures !r.ed.paste && key == KeyPasteStart ==> TakeKey(r, key, complete).ed.paste
    ensures r.ed.paste && key == KeyPasteEnd ==> !TakeKey(r, key, complete).ed.paste
  {
  }

  predicate Calm(demand: Demand, strokes: seq<Stroke>) {
    && (forall i | 0 <= i < |strokes| :: IsStroke(strokes[i]))
    && (demand == Kept ==> forall i | 0 <= i < |strokes| :: !IsClear(strokes[i]))
  }

  /** Every stream of strokes is decoded without loss and keeps the line displayable; without a
      clear-screen character it also keeps what is above the line. */
  lemma {:induction false} StrokesSettle(r: Reader, strokes: seq<Stroke>, complete: Completer, demand: Demand)
    requires Calm(demand, strokes) && r.rest == Stream(strokes) && !r.ed.paste
    ensures Settles(r, complete) && AllMeet(r, complete, demand)
    decreases |r.rest|
  {
    hide BytesToKey, TakeKey, Encode, StaysDisplayable;
    if strokes == [] {
      EmptyIsPartial(false);
      return;
    }
    var stroke, more := strokes[0], Stream(strokes[1..]);
    var key := BytesToKey(r.rest, false).key;
    match stroke {
      case Char(c) => CharKey(c, more);
      case Special(b) => SpecialKey(b, more);
      case Paste(text) =>
        var next := StartPaste(r, text, more, complete);
        PasteSettles(next, text, strokes[1..], complete, demand);
        return;
    }
    PasteGoesOn(r.(rest := more), key, complete);
    StrokesSettle(Next(r, complete), strokes[1..], complete, demand);
  }

  lemma StartPaste(r: Reader, text: seq<Rune>, more: seq<Byte>, complete: Completer) returns (next: Reader)
    requires Pasted(text) && r.rest == PasteStart + EncodeAll(text) + PasteEnd + more && !r.ed.paste
    ensures BytesToKey(r.rest, false).key == KeyPasteStart != KeyClearScreen && StaysDisplayable(KeyPasteStart, false)
    ensures next == Next(r, complete) && next.ed.paste && next.rest == EncodeAll(text) + PasteEnd + more
  {
    hide BytesToKey, TakeKey, EncodeAll;
    var inside := EncodeAll(text) + PasteEnd + more;
    assert r.rest == PasteStart + inside;
    BracketKeys(inside);
    PasteGoesOn(r.(rest := inside), KeyPasteStart, complete);
    next := Next(r, complete);
  }

  lemma {:induction false} PasteSettles(r: Reader, text: seq<Rune>, strokes: seq<Stroke>, complete: Completer, demand: Demand)
    requires Pasted(text) && Calm(demand, strokes) && r.ed.paste
    requires r.rest == EncodeAll(text) + PasteEnd + Stream(strokes)
    ensures Settles(r, complete) && AllMeet(r, complete, demand)
    decreases |r.rest|
  {
    hide BytesToKey, TakeKey, Encode, StaysDisplayable;
    var more := Stream(strokes);
    if text == [] {
      assert r.rest == PasteEnd + more;
      BracketKeys(more);
      PasteGoesOn(r.(rest := more), KeyPasteEnd, complete);
      StrokesSettle(Next(r, complete), strokes, complete, demand);
    } else {
      var inside := EncodeAll(text[1..]) + PasteEnd + more;
      assert r.rest == Encode(text[0]) + inside;
      PastedKey(text[0], inside);
      PasteGoesOn(r.(rest := inside), text[0], complete);
      PasteSettles(Next(r, complete), text[1..], strokes, complete, demand);
    }
  }
}
