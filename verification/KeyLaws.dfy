/** What the keys do, told by the bytes that a user sends and by the line that comes of them, apart
    from how the editor computes it. */
module KeyLaws {
  import opened Wrappers
  import opened Utf8
  import opened KeyDecoder
  import opened Screen
  import opened LineEditor
  import opened ReadLoop

  /** The reader after these bytes, sent to an editor between two keys. */
  function Sends(e: Editor, bytes: seq<Byte>, complete: Completer): Reader {
    Pump(Reader(e, bytes, false, []), complete)
  }

  /** The bytes of one key take the reader one key further. */
  lemma PumpKey(r: Reader, bytes: seq<Byte>, key: Rune, more: seq<Byte>, complete: Completer)
    requires bytes != [] && BytesToKey(bytes, r.ed.paste) == Decoded(key, []) && key != RuneError
    requires r.rest == bytes + more
    ensures Pump(r, complete) == Pump(TakeKey(r.(rest := more), key, complete), complete)
  {
    hide BytesToKey, TakeKey;
    KeyStable(bytes, more, r.ed.paste);
    assert [] + more == more;
  }

  /** One key sent to an editor. */
  lemma SendsKey(e: Editor, bytes: seq<Byte>, key: Rune, complete: Completer)
    requires bytes != [] && BytesToKey(bytes, e.paste) == Decoded(key, []) && key != RuneError
    ensures Sends(e, bytes, complete) == TakeKey(Reader(e, [], false, []), key, complete)
  {
    hide BytesToKey, TakeKey, Pump;
    var r := Reader(e, bytes, false, []);
    assert bytes + [] == bytes;
    PumpKey(r, bytes, key, [], complete);
    PumpNothing(TakeKey(r.(rest := []), key, complete), complete);
  }

  /** An editing key leaves everything but the text alone and returns nothing. */
  lemma SendsEdit(e: Editor, bytes: seq<Byte>, key: Rune, complete: Completer)
    requires !e.paste && bytes != [] && BytesToKey(bytes, false) == Decoded(key, []) && key != RuneError
    requires IsEditKey(key) && (key == KeyCtrlD ==> e.text.Line() != [])
    ensures Sends(e, bytes, complete) == Reader(e.(text := EditText(e.text, key)), [], false, [])
  {
    hide BytesToKey, EditText;
    SendsKey(e, bytes, key, complete);
  }

  // The bytes of the keys ---------------------------------------------------------

  const LeftArrow: seq<Byte> := [27, 91, 68]
  const RightArrow: seq<Byte> := [27, 91, 67]
  const UpArrow: seq<Byte> := [27, 91, 65]
  const DownArrow: seq<Byte> := [27, 91, 66]
  const HomeKey: seq<Byte> := [27, 91, 72]
  const EndKey: seq<Byte> := [27, 91, 70]
  const AltLeft: seq<Byte> := [27, 91, 49, 59, 51, 68]
  const AltRight: seq<Byte> := [27, 91, 49, 59, 51, 67]

  /** Which key the bytes stand for. */
  lemma CursorBytes()
    ensures BytesToKey(LeftArrow, false) == Decoded(KeyLeft, []) && BytesToKey(RightArrow, false) == Decoded(KeyRight, [])
    ensures BytesToKey(UpArrow, false) == Decoded(KeyUp, []) && BytesToKey(DownArrow, false) == Decoded(KeyDown, [])
    ensures BytesToKey(HomeKey, false) == Decoded(KeyHome, []) && BytesToKey(EndKey, false) == Decoded(KeyEnd, [])
  {
  }

  lemma WordBytes()
    ensures BytesToKey(AltLeft, false) == Decoded(KeyAltLeft, []) && BytesToKey(AltRight, false) == Decoded(KeyAltRight, [])
  {
    assert AltLeft[1..5] == [91, 49, 59, 51] && AltRight[1..5] == [91, 49, 59, 51];
  }

  lemma ControlBytes()
    ensures BytesToKey([1], false) == Decoded(KeyHome, []) && BytesToKey([5], false) == Decoded(KeyEnd, [])
    ensures BytesToKey([8], false) == Decoded(KeyBackspace, []) && BytesToKey([127], false) == Decoded(KeyBackspace, [])
    ensures BytesToKey([11], false) == Decoded(KeyDeleteLine, []) && BytesToKey([12], false) == Decoded(KeyClearScreen, [])
    ensures BytesToKey([23], false) == Decoded(KeyDeleteWord, []) && BytesToKey([14], false) == Decoded(KeyDown, [])
    ensures BytesToKey([16], false) == Decoded(KeyUp, []) && BytesToKey([21], false) == Decoded(KeyCtrlU, [])
    ensures BytesToKey([3], false) == Decoded(KeyCtrlC, []) && BytesToKey([4], false) == Decoded(KeyCtrlD, [])
    ensures forall paste :: BytesToKey([13], paste) == Decoded(KeyEnter, [])
  {
  }

  // Keys that move ------------------------------------------------------------------

  /** Where the moving keys leave the cursor: the line stays as it is. */
  lemma MovingKeys(e: Editor, complete: Completer)
    requires !e.paste
    ensures Sends(e, [1], complete) == Sends(e, HomeKey, complete) == Reader(e.(text := Zipper([], e.text.Line())), [], false, [])
    ensures Sends(e, [5], complete) == Sends(e, EndKey, complete) == Reader(e.(text := Zipper(e.text.Line(), [])), [], false, [])
    ensures e.text.before != [] ==> var n := |e.text.before| - 1;
      Sends(e, LeftArrow, complete) == Reader(e.(text := Zipper(e.text.before[..n], [e.text.before[n]] + e.text.after)), [], false, [])
    ensures e.text.after != [] ==>
      Sends(e, RightArrow, complete) == Reader(e.(text := Zipper(e.text.before + [e.text.after[0]], e.text.after[1..])), [], false, [])
    ensures e.text.before == [] ==> Sends(e, LeftArrow, complete) == Reader(e, [], false, [])
    ensures e.text.after == [] ==> Sends(e, RightArrow, complete) == Reader(e, [], false, [])
    ensures Sends(e, [12], complete) == Reader(e, [], false, [])
  {
    hide BytesToKey, Pump;
    CursorBytes();
    ControlBytes();
    SendsEdit(e, [1], KeyHome, complete);
    SendsEdit(e, HomeKey, KeyHome, complete);
    SendsEdit(e, [5], KeyEnd, complete);
    SendsEdit(e, EndKey, KeyEnd, complete);
    SendsEdit(e, LeftArrow, KeyLeft, complete);
    SendsEdit(e, RightArrow, KeyRight, complete);
    SendsEdit(e, [12], KeyClearScreen, complete);
  }

  /** An arrow moves the cursor in the line as the same bytes move the cursor on a screen: one place,
      the same way, if there is room; and Home takes both to their first place. */
  lemma ArrowsMoveAsOnScreen(e: Editor, s: Screen, complete: Completer)
    requires !e.paste && s.mode.Ground?
    ensures var e' := Sends(e, RightArrow, complete).ed;
      && e'.text.Line() == e.text.Line()
      && (e.text.after != [] && s.col + 1 < s.width ==>
            |e'.text.before| - |e.text.before| == FeedAll(s, RightArrow).col - s.col)
      && (e.text.after == [] ==> e' == e)
    ensures var e' := Sends(e, LeftArrow, complete).ed;
      && e'.text.Line() == e.text.Line()
      && (e.text.before != [] && s.col > 0 ==>
            |e'.text.before| - |e.text.before| == FeedAll(s, LeftArrow).col - s.col)
      && (e.text.before == [] ==> e' == e)
    ensures var e' := Sends(e, HomeKey, complete).ed;
      e'.text.Line() == e.text.Line() && |e'.text.before| == FeedAll(s, HomeKey).col
  {
    hide *;
    MovingKeys(e, complete);
    ArrowsOnScreen(s);
    SameLine(e.text);
  }

  lemma SameLine(z: Zipper)
    ensures Zipper([], z.Line()).Line() == z.Line()
    ensures z.before != [] ==> var n := |z.before| - 1; Zipper(z.before[..n], [z.before[n]] + z.after).Line() == z.Line()
    ensures z.after != [] ==> Zipper(z.before + [z.after[0]], z.after[1..]).Line() == z.Line()
  {
  }

  lemma ArrowsOnScreen(s: Screen)
    requires s.mode.Ground?
    ensures s.col + 1 < s.width ==> FeedAll(s, RightArrow).col == s.col + 1
    ensures s.col > 0 ==> FeedAll(s, LeftArrow).col == s.col - 1
    ensures FeedAll(s, HomeKey).col == 0
  {
    hide FeedAll;
    ArrowOnScreen(s, 67);
    ArrowOnScreen(s, 68);
    ArrowOnScreen(s, 72);
  }

  lemma ArrowOnScreen(s: Screen, final: Rune)
    requires s.mode.Ground? && final in {67, 68, 72}
    ensures var col := FeedAll(s, [27, 91, final]).col;
      && (final == 67 && s.col + 1 < s.width ==> col == s.col + 1)
      && (final == 68 && s.col > 0 ==> col == s.col - 1)
      && (final == 72 ==> col == 0)
  {
    var t: Text := [27, 91, final];
    assert t[..2] == [27, 91];
    FeedIntroducer(s);
  }

  /** Left undoes Right, and Right undoes Left. */
  lemma ArrowsUndo(e: Editor, complete: Completer)
    requires !e.paste
    ensures e.text.after != [] ==> Sends(Sends(e, RightArrow, complete).ed, LeftArrow, complete).ed == e
    ensures e.text.before != [] ==> Sends(Sends(e, LeftArrow, complete).ed, RightArrow, complete).ed == e
  {
    hide Sends;
    MovingKeys(e, complete);
    if e.text.after != [] {
      MovingKeys(Sends(e, RightArrow, complete).ed, complete);
    }
    if e.text.before != [] {
      MovingKeys(Sends(e, LeftArrow, complete).ed, complete);
    }
  }

  // Keys that erase -----------------------------------------------------------------

  /** What the erasing keys leave. */
  lemma ErasingKeys(e: Editor, complete: Completer)
    requires !e.paste
    ensures Sends(e, [8], complete) == Sends(e, [127], complete) == Reader(
      if e.text.before == [] then e
      else e.(text := Zipper(e.text.before[..|e.text.before| - 1], e.text.after)), [], false, [])
    ensures Sends(e, [11], complete) == Reader(e.(text := Zipper(e.text.before, [])), [], false, [])
    ensures Sends(e, [21], complete) == Reader(e.(text := Zipper([], e.text.after)), [], false, [])
    ensures e.text.Line() != [] ==> Sends(e, [4], complete) == Reader(
      if e.text.after == [] then e else e.(text := Zipper(e.text.before, e.text.after[1..])), [], false, [])
  {
    hide BytesToKey, Pump;
    ControlBytes();
    SendsEdit(e, [8], KeyBackspace, complete);
    SendsEdit(e, [127], KeyBackspace, complete);
    SendsEdit(e, [11], KeyDeleteLine, complete);
    SendsEdit(e, [21], KeyCtrlU, complete);
    if e.text.Line() != [] {
      SendsEdit(e, [4], KeyCtrlD, complete);
    }
  }

  // Words ---------------------------------------------------------------------------

  predicate IsWord(t: Text) {
    t != [] && forall i | 0 <= i < |t| :: t[i] != Space
  }

  predicate IsGap(t: Text) {
    forall i | 0 <= i < |t| :: t[i] == Space
  }

  /** To the left: over the gap before the cursor and the word before that. */
  lemma PreviousWordIs(front: Text, word: Text, gap: Text)
    requires IsWord(word) && IsGap(gap)
    ensures |front| >= 2 && front[|front| - 1] == Space ==> PreviousWord(front + word + gap) == |front|
    ensures front == [] || front == [Space] ==> PreviousWord(front + word + gap) == 0
  {
    var t := front + word + gap;
    var f := |front|;
    assert forall k | f <= k < f + |word| :: t[k] != Space;
    assert forall k | f + |word| <= k < |t| :: t[k] == Space;
    assert f > 0 ==> t[f - 1] == front[f - 1];
    assert forall k: nat | f < k < |t| :: !IsWordStart(t, k);
    if f >= 2 && front[f - 1] == Space {
      assert IsWordStart(t, f) && f <= |t| - 1;
      assert !(PreviousWord(t) < f);
    }
  }

  /** To the right: over the rest of the word at the cursor and the gap behind it. */
  lemma NextWordIs(rest: Text, gap: Text, back: Text)
    requires (rest == [] || IsWord(rest)) && IsGap(gap) && gap != []
    requires back == [] || back[0] != Space
    ensures NextWord(rest + gap + back) == |rest| + |gap|
  {
    var t, n := rest + gap + back, |rest| + |gap|;
    assert forall k | 0 <= k < |rest| :: t[k] != Space;
    assert forall k | |rest| <= k < n :: t[k] == Space;
    assert back != [] ==> t[n] == back[0];
    assert forall k: nat | k < n :: !IsWordEnd(t, k);
    assert IsWordEnd(t, n);
  }

  /** Word moves and word deletion, from behind a word and the gap after it. */
  lemma WordKeys(e: Editor, front: Text, word: Text, gap: Text, complete: Completer)
    requires !e.paste && IsWord(word) && IsGap(gap) && e.text.before == front + word + gap
    requires front == [] || front == [Space] || (|front| >= 2 && front[|front| - 1] == Space)
    ensures var kept := if |front| == 1 then [] else front;
      && Sends(e, [23], complete) == Reader(e.(text := Zipper(kept, e.text.after)), [], false, [])
      && Sends(e, AltLeft, complete) == Reader(e.(text := Zipper(kept, e.text.Line()[|kept|..])), [], false, [])
  {
    hide BytesToKey, Pump, PreviousWord, IsWord, IsGap;
    ControlBytes();
    WordBytes();
    PreviousWordIs(front, word, gap);
    SendsEdit(e, [23], KeyDeleteWord, complete);
    SendsEdit(e, AltLeft, KeyAltLeft, complete);
    var kept := if |front| == 1 then [] else front;
    assert e.text.before[..|kept|] == kept && e.text.Line()[..|kept|] == kept;
  }

  lemma WordRightKey(e: Editor, rest: Text, gap: Text, back: Text, complete: Completer)
    requires !e.paste && (rest == [] || IsWord(rest)) && IsGap(gap) && gap != [] && (back == [] || back[0] != Space)
    requires e.text.after == rest + gap + back
    ensures Sends(e, AltRight, complete) == Reader(e.(text := Zipper(e.text.before + rest + gap, back)), [], false, [])
  {
    hide BytesToKey, Pump, NextWord, IsWord, IsGap;
    WordBytes();
    NextWordIs(rest, gap, back);
    SendsEdit(e, AltRight, KeyAltRight, complete);
    MovedRight(e.text.before, rest, gap, back);
  }

  lemma MovedRight(before: Text, rest: Text, gap: Text, back: Text)
    ensures MoveTo(Zipper(before, rest + gap + back), |before| + |rest + gap|) == Zipper(before + rest + gap, back)
  {
    var n := |before| + |rest + gap|;
    var line := Zipper(before, rest + gap + back).Line();
    assert line == before + rest + gap + back;
    assert line[..n] == before + rest + gap && line[n..] == back;
  }

  // Keys that end the line, and the history -------------------------------------------

  /** Enter returns the whole line, wherever the cursor is; Ctrl-C an empty one; Ctrl-D on an empty
      line ends the input. The line after it starts empty, and a returned line is the latest of the
      history if it was echoed. */
  lemma EndingKeys(e: Editor, complete: Completer)
    requires !e.paste && Glyphs(e.text.Line())
    ensures var r := Sends(e, [13], complete);
      && r.events == [Line(e.text.Line(), false)] && r.ed.text == Zipper([], [])
      && (e.echo ==> r.ed.index == -1 && r.ed.history != [] && r.ed.history[0] == e.text.Line())
      && (!e.echo ==> r.ed == e.(text := Zipper([], [])))
    ensures Sends(e, [3], complete).events == [Line([], false)] && Sends(e, [3], complete).ed.text == Zipper([], [])
    ensures e.text.Line() == [] ==> Sends(e, [4], complete) == Reader(e, [], false, [Eof])
  {
    hide BytesToKey, Pump;
    ControlBytes();
    SendsKey(e, [13], KeyEnter, complete);
    SendsKey(e, [3], KeyCtrlC, complete);
    SendsKey(e, [4], KeyCtrlD, complete);
  }

  /** The history keeps the last hundred lines, the latest first. */
  lemma HistoryKeeps(history: seq<Text>, line: Text)
    requires |history| <= 100
    ensures var now := Remember(history, line);
      && |now| == (if |history| < 100 then |history| + 1 else 100) && now[0] == line
      && forall i | 0 < i < |now| :: now[i] == history[i - 1]
  {
  }

  /** Up shows the entry before the one on display, Down the one after it, and the line that was being
      entered comes after the latest. */
  lemma HistoryKeys(e: Editor, complete: Completer)
    requires !e.paste && IndexInRange(e)
    ensures Sends(e, [16], complete) == Sends(e, UpArrow, complete) && Sends(e, [14], complete) == Sends(e, DownArrow, complete)
    ensures var up := Sends(e, UpArrow, complete);
      && up.events == []
      && (e.index + 1 == |e.history| ==> up.ed == e)
      && (e.index + 1 < |e.history| ==>
            && up.ed.text == Zipper(e.history[e.index + 1], []) && up.ed.index == e.index + 1
            && up.ed.history == e.history
            && up.ed.pending == if e.index == -1 then AsString(e.text.Line()) else e.pending)
    ensures var down := Sends(e, DownArrow, complete);
      && down.events == []
      && (e.index == -1 ==> down.ed == e)
      && (e.index >= 0 ==>
            && down.ed.text == Zipper(if e.index == 0 then e.pending else e.history[e.index - 1], [])
            && down.ed == e.(text := down.ed.text, index := e.index - 1))
  {
    hide BytesToKey, Pump;
    ControlBytes();
    CursorBytes();
    SendsKey(e, [16], KeyUp, complete);
    SendsKey(e, UpArrow, KeyUp, complete);
    SendsKey(e, [14], KeyDown, complete);
    SendsKey(e, DownArrow, KeyDown, complete);
  }

  // Typing --------------------------------------------------------------------------

  /** The callback never completes anything. */
  ghost predicate Silent(complete: Completer) {
    forall line: Text, pos: nat, key: Rune :: complete(line, pos, key).None?
  }

  /** Text that can be typed: glyphs that decode to themselves. */
  predicate Typable(t: Text) {
    forall i | 0 <= i < |t| :: IsGlyph(t[i]) && t[i] != RuneError
  }

  lemma GlyphKey(r: Rune, paste: bool)
    requires IsGlyph(r) && r != RuneError
    ensures Encode(r) != [] && BytesToKey(Encode(r), paste) == Decoded(r, [])
  {
    DecodeEncode(r, []);
    assert Encode(r) + [] == Encode(r);
    LeadByte(r);
  }

  lemma LeadByte(r: Rune)
    requires IsScalar(r)
    ensures Encode(r)[0] >= 0x80 || Encode(r)[0] == r
  {
  }

  /** One glyph is inserted before the cursor, if the line has room for it. */
  lemma TypeOne(r: Reader, key: Rune, complete: Completer)
    requires IsGlyph(key) && Silent(complete) && !r.ed.paste
    ensures TakeKey(r, key, complete) == r.(pasted := false,
      ed := if |r.ed.text.Line()| == 4096 then r.ed else r.ed.(text := Zipper(r.ed.text.before + [key], r.ed.text.after)))
  {
    NotAnEditKey(key);
    assert complete(r.ed.text.Line(), |r.ed.text.before|, key).None?;
  }

  lemma NotAnEditKey(key: Rune)
    requires IsGlyph(key)
    ensures !IsEditKey(key) && key != KeyUp && key != KeyDown && key != KeyCtrlC && key != KeyEnter && IsPrintable(key)
    ensures key != KeyCtrlD && key != KeyPasteStart && key != KeyPasteEnd
  {
  }

  /** A sequence that stands for no key changes nothing. */
  lemma UnknownSequence(e: Editor, bytes: seq<Byte>, complete: Completer)
    requires Silent(complete) && !e.paste && bytes != [] && BytesToKey(bytes, false) == Decoded(KeyUnknown, [])
    ensures Sends(e, bytes, complete) == Reader(e, [], false, [])
  {
    hide BytesToKey, Pump;
    SendsKey(e, bytes, KeyUnknown, complete);
    assert complete(e.text.Line(), |e.text.before|, KeyUnknown).None?;
  }

  /** A completion takes the place of the line, with the cursor where the callback puts it. The
      callback is shown the line, the position and the key. */
  lemma TabCompletes(e: Editor, complete: Completer, c: Completion)
    requires !e.paste && complete(e.text.Line(), |e.text.before|, 9) == Some(c) && c.pos <= |c.line|
    ensures var r := Sends(e, [9], complete);
      r.events == [] && r.ed.text.Line() == c.line && |r.ed.text.before| == c.pos && r.ed == e.(text := r.ed.text)
  {
    hide Pump;
    assert BytesToKey([9], false) == Decoded(9, []);
    hide BytesToKey;
    SendsKey(e, [9], 9, complete);
    MovingKeepsLine(Replace(c.line), c.pos);
  }

  /** The reader with this text in its editor, this input left and this mark. */
  function With(r: Reader, z: Zipper, rest: seq<Byte>, pasted: bool): Reader {
    r.(ed := r.ed.(text := z), rest := rest, pasted := pasted)
  }

  lemma {:induction false} TypeAll(r: Reader, t: Text, more: seq<Byte>, complete: Completer)
    requires Typable(t) && Silent(complete) && !r.ed.paste && |r.ed.text.Line()| + |t| <= 4096
    requires r.rest == EncodeAll(t) + more
    ensures Pump(r, complete) ==
      Pump(With(r, Zipper(r.ed.text.before + t, r.ed.text.after), more, t == [] && r.pasted), complete)
    decreases |t|
  {
    hide Pump, BytesToKey, TakeKey, Encode, Silent;
    var z := r.ed.text;
    if t == [] {
      assert z.before + t == z.before && EncodeAll(t) + more == more;
    } else {
      var rest := EncodeAll(t[1..]) + more;
      GlyphKey(t[0], false);
      assert r.rest == Encode(t[0]) + rest;
      PumpKey(r, Encode(t[0]), t[0], rest, complete);
      TypeOne(r.(rest := rest), t[0], complete);
      var next := With(r, Zipper(z.before + [t[0]], z.after), rest, false);
      TypeAll(next, t[1..], more, complete);
      assert z.before + [t[0]] + t[1..] == z.before + t;
    }
  }

  datatype Move = GoLeft | GoRight | GoHome | GoEnd | GoWordLeft | GoWordRight

  function MoveBytes(m: Move): seq<Byte> {
    match m
    case GoLeft => LeftArrow
    case GoRight => RightArrow
    case GoHome => [1]
    case GoEnd => [5]
    case GoWordLeft => AltLeft
    case GoWordRight => AltRight
  }

  function AllMoves(moves: seq<Move>): seq<Byte> {
    if moves == [] then [] else MoveBytes(moves[0]) + AllMoves(moves[1..])
  }

  lemma MoveOne(r: Reader, m: Move, more: seq<Byte>, complete: Completer) returns (z: Zipper)
    requires !r.ed.paste && r.rest == MoveBytes(m) + more
    ensures z.Line() == r.ed.text.Line()
    ensures Pump(r, complete) == Pump(With(r, z, more, false), complete)
  {
    hide BytesToKey, Pump, EditText, MoveBytes;
    var key := MoveKey(m);
    PumpKey(r, MoveBytes(m), key, more, complete);
    z := EditText(r.ed.text, key);
    MoveKeyKeepsLine(r.ed.text, m);
  }

  function MoveKey(m: Move): (key: Rune)
    ensures MoveBytes(m) != [] && BytesToKey(MoveBytes(m), false) == Decoded(key, []) && key != RuneError
    ensures IsEditKey(key) && key != KeyCtrlD
  {
    CursorBytes();
    ControlBytes();
    WordBytes();
    match m
    case GoLeft => KeyLeft
    case GoRight => KeyRight
    case GoHome => KeyHome
    case GoEnd => KeyEnd
    case GoWordLeft => KeyAltLeft
    case GoWordRight => KeyAltRight
  }

  lemma MoveKeyKeepsLine(z: Zipper, m: Move)
    ensures EditText(z, MoveKey(m)).Line() == z.Line()
  {
    hide PreviousWord, NextWord, BytesToKey;
    match m
    case GoLeft => if z.before != [] { MovingKeepsLine(z, |z.before| - 1); }
    case GoRight => if z.after != [] { MovingKeepsLine(z, |z.before| + 1); }
    case GoHome => MovingKeepsLine(z, 0);
    case GoEnd => MovingKeepsLine(z, |z.Line()|);
    case GoWordLeft => MovingKeepsLine(z, PreviousWord(z.before));
    case GoWordRight => MovingKeepsLine(z, |z.before| + NextWord(z.after));
  }

  lemma {:induction false} MoveAll(r: Reader, moves: seq<Move>, more: seq<Byte>, complete: Completer) returns (z: Zipper)
    requires !r.ed.paste && r.rest == AllMoves(moves) + more
    ensures z.Line() == r.ed.text.Line()
    ensures Pump(r, complete) == Pump(With(r, z, more, r.pasted && moves == []), complete)
    decreases |moves|
  {
    hide Pump, MoveBytes;
    if moves == [] {
      z := r.ed.text;
      assert AllMoves(moves) + more == more;
    } else {
      var rest := AllMoves(moves[1..]) + more;
      assert r.rest == MoveBytes(moves[0]) + rest;
      var y := MoveOne(r, moves[0], rest, complete);
      z := MoveAll(With(r, y, rest, false), moves[1..], more, complete);
    }
  }

  /** What is typed is what is returned: any text, followed by any moves within the line and Enter,
      gives that text as the line, whole and in order. */
  lemma TypedLineIsReturned(e: Editor, t: Text, moves: seq<Move>, complete: Completer)
    requires Typable(t) && |t| <= 4096 && Silent(complete) && !e.paste && e.text == Zipper([], [])
    ensures var r := Sends(e, EncodeAll(t) + AllMoves(moves) + [13], complete);
      && r.events == [Line(t, false)] && r.rest == [] && r.ed.text == Zipper([], [])
      && (e.echo ==> r.ed.history == Remember(e.history, t) && r.ed.index == -1)
  {
    hide Pump, BytesToKey, EncodeAll, AllMoves, Silent, Remember;
    var more := AllMoves(moves) + [13];
    var r := Reader(e, EncodeAll(t) + more, false, []);
    assert EncodeAll(t) + AllMoves(moves) + [13] == EncodeAll(t) + more;
    TypeAll(r, t, more, complete);
    var typed := With(r, Zipper([] + t, []), more, false);
    var z := MoveAll(typed, moves, [13], complete);
    EnterLine(With(typed, z, [13], false), t, complete);
  }

  /** Enter as the last key of the input. */
  lemma EnterLine(r: Reader, t: Text, complete: Completer)
    requires r.rest == [13] && Typable(t) && r.ed.text.Line() == t
    ensures var ed := r.ed.(text := Zipper([], []));
      Pump(r, complete) == Reader(Finish(ed, t), [], r.ed.paste, r.events + [Line(t, r.pasted && r.ed.paste)])
  {
    hide Pump, BytesToKey;
    ControlBytes();
    assert [13] + [] == [13];
    PumpKey(r, [13], KeyEnter, [], complete);
    PumpNothing(TakeKey(r.(rest := []), KeyEnter, complete), complete);
    assert AsString(t) == t;
  }

  // Pasting -------------------------------------------------------------------------

  /** A pasted glyph goes in before the cursor, however long the line is. */
  lemma {:induction false} PasteAll(r: Reader, t: Text, more: seq<Byte>, complete: Completer)
    requires Typable(t) && r.ed.paste && r.rest == EncodeAll(t) + more
    ensures Pump(r, complete) == Pump(With(r, Zipper(r.ed.text.before + t, r.ed.text.after), more, r.pasted), complete)
    decreases |t|
  {
    hide Pump, BytesToKey, Encode;
    var z := r.ed.text;
    if t == [] {
      assert z.before + t == z.before && EncodeAll(t) + more == more;
    } else {
      var rest := EncodeAll(t[1..]) + more;
      GlyphKey(t[0], true);
      NotAnEditKey(t[0]);
      assert r.rest == Encode(t[0]) + rest;
      PumpKey(r, Encode(t[0]), t[0], rest, complete);
      var next := With(r, Zipper(z.before + [t[0]], z.after), rest, r.pasted);
      assert TakeKey(r.(rest := rest), t[0], complete) == next;
      PasteAll(next, t[1..], more, complete);
      assert z.before + [t[0]] + t[1..] == z.before + t;
    }
  }

  lemma PasteBrackets(r: Reader, more: seq<Byte>, complete: Completer)
    ensures !r.ed.paste && r.rest == PasteStart + more ==> Pump(r, complete) == Pump(
      r.(rest := more, ed := r.ed.(paste := true), pasted := r.pasted || r.ed.text.Line() == []), complete)
    ensures r.ed.paste && r.rest == PasteEnd + more ==> Pump(r, complete) == Pump(
      r.(rest := more, ed := r.ed.(paste := false)), complete)
  {
    hide Pump, BytesToKey;
    Brackets();
    if !r.ed.paste && r.rest == PasteStart + more {
      PumpKey(r, PasteStart, KeyPasteStart, more, complete);
    }
    if r.ed.paste && r.rest == PasteEnd + more {
      PumpKey(r, PasteEnd, KeyPasteEnd, more, complete);
    }
  }

  /** A paste goes into the line as it is. A line that ends inside a paste is marked as pasted exactly
      if nothing was typed before it; one that is ended by a typed Enter is not. */
  lemma PastedLineIsReturned(e: Editor, typed: Text, t: Text, complete: Completer)
    requires Typable(typed) && |typed| <= 4096 && Typable(t) && Silent(complete) && !e.paste && e.text == Zipper([], [])
    ensures Sends(e, EncodeAll(typed) + PasteStart + EncodeAll(t) + [13], complete).events == [Line(typed + t, typed == [])]
    ensures Sends(e, EncodeAll(typed) + PasteStart + EncodeAll(t) + PasteEnd + [13], complete).events == [Line(typed + t, false)]
  {
    hide Sends;
    EndedInPaste(e, typed, t, complete);
    EndedAfterPaste(e, typed, t, complete);
  }

  lemma EndedInPaste(e: Editor, typed: Text, t: Text, complete: Completer)
    requires Typable(typed) && |typed| <= 4096 && Typable(t) && Silent(complete) && !e.paste && e.text == Zipper([], [])
    ensures Sends(e, EncodeAll(typed) + PasteStart + EncodeAll(t) + [13], complete).events == [Line(typed + t, typed == [])]
  {
    hide Pump, BytesToKey, EncodeAll, Silent, Finish;
    var tail := EncodeAll(t) + [13];
    assert EncodeAll(typed) + PasteStart + EncodeAll(t) + [13] == EncodeAll(typed) + (PasteStart + tail);
    var r := Reader(e, EncodeAll(typed) + (PasteStart + tail), false, []);
    PasteInto(r, typed, t, tail, [13], complete);
    EnterLine(Reader(e.(text := Zipper(typed + t, []), paste := true), [13], typed == [], []), typed + t, complete);
  }

  lemma EndedAfterPaste(e: Editor, typed: Text, t: Text, complete: Completer)
    requires Typable(typed) && |typed| <= 4096 && Typable(t) && Silent(complete) && !e.paste && e.text == Zipper([], [])
    ensures Sends(e, EncodeAll(typed) + PasteStart + EncodeAll(t) + PasteEnd + [13], complete).events == [Line(typed + t, false)]
  {
    hide Pump, BytesToKey, EncodeAll, Silent, Finish;
    var tail := EncodeAll(t) + (PasteEnd + [13]);
    assert EncodeAll(typed) + PasteStart + EncodeAll(t) + PasteEnd + [13] == EncodeAll(typed) + (PasteStart + tail);
    var r := Reader(e, EncodeAll(typed) + (PasteStart + tail), false, []);
    PasteInto(r, typed, t, tail, PasteEnd + [13], complete);
    var closing := Reader(e.(text := Zipper(typed + t, []), paste := true), PasteEnd + [13], typed == [], []);
    PasteBrackets(closing, [13], complete);
    EnterLine(closing.(rest := [13], ed := closing.ed.(paste := false)), typed + t, complete);
  }

  lemma PasteInto(r: Reader, typed: Text, t: Text, tail: seq<Byte>, end: seq<Byte>, complete: Completer)
    requires Typable(typed) && |typed| <= 4096 && Typable(t) && Silent(complete)
    requires !r.ed.paste && r.ed.text == Zipper([], []) && !r.pasted && tail == EncodeAll(t) + end
    requires r.rest == EncodeAll(typed) + (PasteStart + tail)
    ensures Pump(r, complete) ==
      Pump(r.(ed := r.ed.(text := Zipper(typed + t, []), paste := true), rest := end, pasted := typed == []), complete)
  {
    hide Pump, BytesToKey, EncodeAll, Silent;
    TypeAll(r, typed, PasteStart + tail, complete);
    assert [] + typed == typed && Zipper(typed, []).Line() == typed;
    var a := With(r, Zipper(typed, []), PasteStart + tail, false);
    PasteBrackets(a, tail, complete);
    PasteAll(a.(rest := tail, ed := a.ed.(paste := true), pasted := typed == []), t, end, complete);
  }

  function PastedBytes(ts: seq<Text>): seq<Byte>
    requires forall i | 0 <= i < |ts| :: Typable(ts[i])
  {
    if ts == [] then []
    else
      assert Typable(ts[0]);
      EncodeAll(ts[0]) + [13] + PastedBytes(ts[1..])
  }

  /** Every line of a paste is returned by itself, marked as pasted. */
  lemma PastedLinesAreReturned(e: Editor, ts: seq<Text>, complete: Completer)
    requires !e.paste && e.text == Zipper([], []) && forall i | 0 <= i < |ts| :: Typable(ts[i])
    ensures Sends(e, PasteStart + PastedBytes(ts), complete).events == seq(|ts|, i requires 0 <= i < |ts| => Line(ts[i], true))
  {
    hide Pump, PastedBytes;
    var r := Reader(e, PasteStart + PastedBytes(ts), false, []);
    PasteBrackets(r, PastedBytes(ts), complete);
    PasteLines(r.(rest := PastedBytes(ts), ed := e.(paste := true), pasted := true), ts, complete);
  }

  lemma {:induction false} PasteLines(r: Reader, ts: seq<Text>, complete: Completer)
    requires r.ed.paste && r.pasted && r.ed.text == Zipper([], []) && forall i | 0 <= i < |ts| :: Typable(ts[i])
    requires r.rest == PastedBytes(ts)
    ensures Pump(r, complete).events == r.events + seq(|ts|, i requires 0 <= i < |ts| => Line(ts[i], true))
    decreases |ts|
  {
    hide Pump, BytesToKey, EncodeAll;
    if ts == [] {
      PumpNothing(r, complete);
    } else {
      var t, rest := ts[0], PastedBytes(ts[1..]);
      assert r.rest == EncodeAll(t) + ([13] + rest);
      PasteAll(r, t, [13] + rest, complete);
      assert [] + t == t;
      var full := With(r, Zipper(t, []), [13] + rest, true);
      ControlBytes();
      PumpKey(full, [13], KeyEnter, rest, complete);
      var next := TakeKey(full.(rest := rest), KeyEnter, complete);
      assert AsString(t) == t && full.ed.text.Line() == t;
      assert next.events == r.events + [Line(t, true)];
      PasteLines(next, ts[1..], complete);
      assert next.events + seq(|ts| - 1, i requires 0 <= i < |ts| - 1 => Line(ts[1..][i], true))
        == r.events + seq(|ts|, i requires 0 <= i < |ts| => Line(ts[i], true));
    }
  }
}
