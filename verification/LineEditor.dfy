/** The line editor as an operation on a zipper: the text before the cursor and the text
    after it. This is the reference that the terminal's in-place buffer refines. */
module LineEditor {
  import opened Wrappers
  import opened Utf8
  import opened KeyDecoder
  import opened Screen

  const MaxLineLength: nat := 4096
  const HistorySize: nat := 100

  datatype Zipper = Zipper(before: Text, after: Text) {
    function Line(): Text { before + after }
  }

  /** The answer of the autocompletion callback: a replacement line and cursor position. */
  datatype Completion = Completion(line: Text, pos: nat)

  type Completer = (Text, nat, Rune) -> Option<Completion>

  /** Callbacks place the cursor inside the line they return. */
  ghost predicate PlacesCursorInside(complete: Completer) {
    forall line: Text, pos: nat, key: Rune ::
      complete(line, pos, key).Some? ==>
        complete(line, pos, key).value.pos <= |complete(line, pos, key).value.line|
  }

  /** `history` lists earlier lines, the most recent first. */
  datatype Editor = Editor(text: Zipper, paste: bool, echo: bool,
                           index: int, pending: Text, history: seq<Text>)

  predicate IsPrintable(key: Rune) {
    key >= 32 && !(0xD800 <= key <= 0xDBFF)
  }

  /** A line as a string: what is not a code point becomes U+FFFD. */
  function AsString(t: Text): (s: Text)
    ensures |s| == |t|
    ensures (forall i | 0 <= i < |t| :: IsScalar(t[i])) ==> s == t
  {
    seq(|t|, i requires 0 <= i < |t| => if IsScalar(t[i]) then t[i] else RuneError)
  }

  // Word boundaries -------------------------------------------------------

  /** A word starts at the front of the line, or at a glyph that follows a space.
      Position 1 is never a start: a space in front of everything belongs to the first word. */
  predicate IsWordStart(t: Text, i: nat) {
    i == 0 || (2 <= i < |t| && t[i] != Space && t[i - 1] == Space)
  }

  /** The last word start at or before `i`. */
  function WordStartFrom(t: Text, i: nat): (j: nat)
    ensures j <= i && IsWordStart(t, j)
    ensures forall k | j < k <= i :: !IsWordStart(t, k)
  {
    if IsWordStart(t, i) then i else WordStartFrom(t, i - 1)
  }

  /** Where a word move to the left of the end of `before` goes. */
  function PreviousWord(before: Text): (j: nat)
    ensures j <= |before| && (before != [] ==> j < |before|)
  {
    if before == [] then 0 else WordStartFrom(before, |before| - 1)
  }

  /** A word move to the right ends at the end of the line or at a glyph after a space. */
  predicate IsWordEnd(after: Text, n: nat) {
    n == |after| || (0 < n < |after| && after[n] != Space && after[n - 1] == Space)
  }

  function WordEndFrom(after: Text, n: nat): (m: nat)
    requires n <= |after|
    ensures n <= m <= |after| && IsWordEnd(after, m)
    ensures forall k | n <= k < m :: !IsWordEnd(after, k)
    decreases |after| - n
  {
    if IsWordEnd(after, n) then n else WordEndFrom(after, n + 1)
  }

  function NextWord(after: Text): (m: nat)
    ensures m <= |after| && (after != [] ==> m > 0)
  {
    WordEndFrom(after, 0)
  }

  // Operations ------------------------------------------------------------

  /** The line with the cursor moved to `p`. */
  function MoveTo(z: Zipper, p: nat): Zipper
    requires p <= |z.Line()|
  {
    Zipper(z.Line()[..p], z.Line()[p..])
  }

  function EraseLeft(z: Zipper, n: nat): Zipper
    requires n <= |z.before|
  {
    Zipper(z.before[..|z.before| - n], z.after)
  }

  function Insert(z: Zipper, key: Rune): Zipper {
    Zipper(z.before + [key], z.after)
  }

  function Replace(t: Text): Zipper {
    Zipper(t, [])
  }

  /** The text after a key that only edits or moves within the line. */
  function EditText(z: Zipper, key: Rune): Zipper {
    if key == KeyBackspace then (if z.before == [] then z else EraseLeft(z, 1))
    else if key == KeyAltLeft then MoveTo(z, PreviousWord(z.before))
    else if key == KeyAltRight then MoveTo(z, |z.before| + NextWord(z.after))
    else if key == KeyLeft then (if z.before == [] then z else MoveTo(z, |z.before| - 1))
    else if key == KeyRight then (if z.after == [] then z else MoveTo(z, |z.before| + 1))
    else if key == KeyHome then MoveTo(z, 0)
    else if key == KeyEnd then MoveTo(z, |z.Line()|)
    else if key == KeyDeleteWord then EraseLeft(z, |z.before| - PreviousWord(z.before))
    else if key == KeyDeleteLine then Zipper(z.before, [])
    else if key == KeyCtrlD then (if z.after == [] then z else Zipper(z.before, z.after[1..]))
    else if key == KeyCtrlU then Zipper([], z.after)
    else z
  }

  predicate IsEditKey(key: Rune) {
    key in {KeyBackspace, KeyAltLeft, KeyAltRight, KeyLeft, KeyRight, KeyHome, KeyEnd,
            KeyDeleteWord, KeyDeleteLine, KeyCtrlD, KeyCtrlU, KeyClearScreen}
  }

  function HistoryUp(e: Editor): Editor {
    if 0 <= e.index + 1 < |e.history| then
      e.(text := Replace(e.history[e.index + 1]), index := e.index + 1,
         pending := if e.index == -1 then AsString(e.text.Line()) else e.pending)
    else e
  }

  function HistoryDown(e: Editor): Editor {
    if e.index == 0 then e.(text := Replace(e.pending), index := -1)
    else if 0 < e.index <= |e.history| then
      e.(text := Replace(e.history[e.index - 1]), index := e.index - 1)
    else e
  }

  /** A key without an editing function: offered to the callback, then inserted. */
  function TypeKey(e: Editor, key: Rune, complete: Completer): Editor {
    var answer := complete(e.text.Line(), |e.text.before|, key);
    if answer.Some? && answer.value.pos <= |answer.value.line| then
      e.(text := MoveTo(Replace(answer.value.line), answer.value.pos))
    else if !IsPrintable(key) || |e.text.Line()| == MaxLineLength then e
    else e.(text := Insert(e.text, key))
  }

  /** One key press: the new editor, and the line if the key finished one. */
  function Press(e: Editor, key: Rune, complete: Completer): (Editor, Option<Text>) {
    if e.paste && key != KeyEnter then (e.(text := Insert(e.text, key)), None)
    else if IsEditKey(key) then (e.(text := EditText(e.text, key)), None)
    else if key == KeyUp then (HistoryUp(e), None)
    else if key == KeyDown then (HistoryDown(e), None)
    else if key == KeyCtrlC then (e.(text := Replace([])), Some([]))
    else if key == KeyEnter then (e.(text := Replace([])), Some(AsString(e.text.Line())))
    else (TypeKey(e, key, complete), None)
  }

  /** Keys whose insertion, if they are inserted, leaves the line displayable. */
  predicate StaysDisplayable(key: Rune, paste: bool) {
    if paste then key == KeyEnter || IsGlyph(key)
    else IsPrintable(key) ==> key == KeyBackspace || IsGlyph(key)
  }

  /** The last `HistorySize` lines. */
  function Remember(history: seq<Text>, line: Text): seq<Text> {
    var all := [line] + history;
    if |all| <= HistorySize then all else all[..HistorySize]
  }

  /** Bookkeeping when a line is returned to the caller. */
  function Finish(e: Editor, line: Text): Editor {
    if e.echo then e.(index := -1, history := Remember(e.history, line)) else e
  }

  predicate IndexInRange(e: Editor) {
    -1 <= e.index < |e.history| && |e.history| <= HistorySize
  }

  // Properties of the reference ------------------------------------------

  /** The history index never leaves `[-1, size)`, whatever is pressed or returned. */
  lemma IndexStaysInRange(e: Editor, key: Rune, complete: Completer)
    requires IndexInRange(e)
    ensures IndexInRange(Press(e, key, complete).0)
    ensures var (e', line) := Press(e, key, complete); line.Some? ==> IndexInRange(Finish(e', line.value))
  {
  }

  function PressMany(e: Editor, keys: seq<Rune>, complete: Completer): Editor {
    if keys == [] then e
    else Press(PressMany(e, keys[..|keys| - 1], complete), keys[|keys| - 1], complete).0
  }

  /** `k` presses of Up from the pending line stand on the `k`-th previous entry. */
  lemma {:induction false} UpMany(e: Editor, k: nat, complete: Completer)
    requires !e.paste && e.index == -1 && 0 < k <= |e.history|
    ensures PressMany(e, seq(k, _ => KeyUp), complete) ==
            e.(text := Replace(e.history[k - 1]), index := k - 1, pending := AsString(e.text.Line()))
  {
    var keys := seq(k, _ => KeyUp);
    assert keys[..k - 1] == seq(k - 1, _ => KeyUp);
    if k > 1 {
      UpMany(e, k - 1, complete);
    } else {
      assert PressMany(e, keys[..0], complete) == e;
    }
  }

  lemma {:induction false} DownMany(e: Editor, k: nat, complete: Completer)
    requires !e.paste && IndexInRange(e) && 0 < k <= e.index + 1
    ensures PressMany(e, seq(k, _ => KeyDown), complete) ==
            e.(index := e.index - k, text := Replace(if k == e.index + 1 then e.pending else e.history[e.index - k]))
  {
    var keys := seq(k, _ => KeyDown);
    assert keys[..k - 1] == seq(k - 1, _ => KeyDown);
    if k > 1 {
      DownMany(e, k - 1, complete);
    } else {
      assert PressMany(e, keys[..0], complete) == e;
    }
  }

  lemma {:induction false} PressManyConcat(e: Editor, a: seq<Rune>, b: seq<Rune>, complete: Completer)
    ensures PressMany(e, a + b, complete) == PressMany(PressMany(e, a, complete), b, complete)
  {
    if b == [] {
      assert a + b == a;
    } else {
      assert (a + b)[..|a + b| - 1] == a + b[..|b| - 1];
      PressManyConcat(e, a, b[..|b| - 1], complete);
    }
  }

  /** Browsing the history and coming back restores the pending line, with the cursor at
      its end and the index at -1; nothing else of the editor has changed but the copy
      kept of that line. */
  lemma HistoryRoundTrip(e: Editor, k: nat, complete: Completer)
    requires !e.paste && IndexInRange(e) && e.index == -1 && 0 < k <= |e.history|
    ensures PressMany(e, seq(k, _ => KeyUp) + seq(k, _ => KeyDown), complete) ==
            e.(text := Replace(AsString(e.text.Line())), pending := AsString(e.text.Line()))
  {
    UpMany(e, k, complete);
    PressManyConcat(e, seq(k, _ => KeyUp), seq(k, _ => KeyDown), complete);
    DownMany(PressMany(e, seq(k, _ => KeyUp), complete), k, complete);
  }

  /** A word move to the left followed by the erasure it bounds deletes exactly what a
      word deletion does, and a word move from inside the line always makes progress. */
  lemma WordMovesAndDeletionAgree(z: Zipper)
    ensures z.before != [] ==> |EditText(z, KeyAltLeft).before| < |z.before|
    ensures z.after != [] ==> |EditText(z, KeyAltRight).before| > |z.before|
    ensures EditText(z, KeyAltLeft).Line() == z.Line() == EditText(z, KeyAltRight).Line()
    ensures EditText(z, KeyDeleteWord).before == EditText(z, KeyAltLeft).before
    ensures EditText(z, KeyDeleteWord).after == z.after
  {
    hide PreviousWord, NextWord;
    var p, n := PreviousWord(z.before), NextWord(z.after);
    MovingKeepsLine(z, p);
    MovingKeepsLine(z, |z.before| + n);
    assert z.Line()[..p] == z.before[..p];
  }

  lemma MovingKeepsLine(z: Zipper, p: nat)
    requires p <= |z.Line()|
    ensures MoveTo(z, p).Line() == z.Line() && |MoveTo(z, p).before| == p
  {
  }
}
