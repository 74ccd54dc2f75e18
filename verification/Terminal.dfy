/** The terminal: an in-place line buffer, a logical cursor and the output that keeps a
    remote screen in step with both. */
module Terminals {
  import opened Wrappers
  import opened Utf8
  import opened KeyDecoder
  import opened Arithmetic
  import opened Screen
  import opened Display
  import opened LineEditor
  import opened History
  import opened ReadLoop

  type Positive = n: nat | n > 0 witness 1

  /** Number of visible glyphs: everything outside escape sequences. */
  function VisualLength(t: Text, inEscape: bool := false): nat {
    if t == [] then 0
    else if inEscape then VisualLength(t[1..], !(97 <= t[0] <= 122 || 65 <= t[0] <= 90))
    else if t[0] == Esc then VisualLength(t[1..], true)
    else 1 + VisualLength(t[1..], false)
  }

  lemma {:induction false} GlyphsAreVisible(t: Text)
    requires Glyphs(t)
    ensures VisualLength(t) == |t|
  {
    if t != [] {
      GlyphsAreVisible(t[1..]);
    }
  }

  predicate IsLetter(r: Rune) {
    97 <= r <= 122 || 65 <= r <= 90
  }

  /** An escape sequence, up to its first letter, is not visible. */
  lemma {:induction false} SequencesAreInvisible(body: Text, final: Rune, t: Text)
    requires IsLetter(final) && forall i | 0 <= i < |body| :: !IsLetter(body[i])
    ensures VisualLength([Esc] + body + [final] + t) == VisualLength(t)
  {
    InsideSequence(body, final, t);
    var all := [Esc] + body + [final] + t;
    assert all[0] == Esc && all[1..] == body + [final] + t;
  }

  lemma {:induction false} InsideSequence(body: Text, final: Rune, t: Text)
    requires IsLetter(final) && forall i | 0 <= i < |body| :: !IsLetter(body[i])
    ensures VisualLength(body + [final] + t, true) == VisualLength(t)
  {
    var all := body + [final] + t;
    if body == [] {
      assert all[0] == final && all[1..] == t;
    } else {
      assert all[0] == body[0] && all[1..] == body[1..] + [final] + t;
      InsideSequence(body[1..], final, t);
    }
  }

  predicate Scalars(t: Text) {
    forall i | 0 <= i < |t| :: IsScalar(t[i])
  }

  lemma {:induction false} ItoaScalars(n: nat)
    ensures Scalars(Itoa(n))
  {
    if n >= 10 {
      ItoaScalars(n / 10);
    }
  }

  lemma InsertedAt(was: Text, now: Text, p: nat, key: Rune)
    requires p <= |was| && |now| == |was| + 1 && now[p] == key
    requires forall k | 0 <= k < p :: now[k] == was[k]
    requires forall k | p < k < |now| :: now[k] == was[k - 1]
    ensures now == was[..p] + [key] + was[p..]
  {
  }

  lemma RememberedIsOld(history: seq<Text>, t: Text)
    ensures forall x | x in Remember(history, t) :: x == t || x in history
  {
  }

  lemma WithoutRune(was: Text, now: Text, p: nat)
    requires p < |was| && now == was[..p] + was[p + 1..]
    ensures Zipper(now[..p], now[p..]) == Zipper(was[..p], was[p..][1..])
    ensures Glyphs(was) ==> Glyphs(now)
  {
  }

  lemma WithoutRunes(was: Text, now: Text, p: nat, q: nat)
    requires p <= q <= |was| && now == was[..p] + was[q..]
    ensures Zipper(now[..p], now[p..]) == EraseLeft(Zipper(was[..q], was[q..]), q - p)
    ensures Glyphs(was) ==> Glyphs(now)
  {
  }

  /** Completions that keep the line displayable. */
  ghost predicate CompletesToGlyphs(complete: Completer) {
    forall line: Text, pos: nat, key: Rune ::
      complete(line, pos, key).Some? ==> Glyphs(complete(line, pos, key).value.line)
  }

  class Terminal {
    const width: Positive
    const complete: Completer
    const history: RingBuffer

    var prompt: Text
    // The line being entered: the first `len` elements of its backing array.
    var line: array<Rune>
    var len: nat
    var pos: nat
    var echo: bool
    var pasteActive: bool
    var cursorX: nat
    var cursorY: nat
    var maxLine: nat
    var outBuf: Text
    var remainder: seq<Byte>
    var historyIndex: int
    var historyPending: Text

    /** Everything written to the connection so far. */
    ghost var sent: Text
    /** The row of the remote screen where the current line starts. */
    ghost var base: nat
    /** The text being edited, and its row, when output was last written. */
    ghost var sentText: Zipper
    ghost var sentBase: nat

    // State -----------------------------------------------------------------

    ghost predicate Valid()
      reads this, history
    {
      && cursorX < width
      && pos <= len <= line.Length
      && history.Valid()
      && line as object != history.entries as object
      && -1 <= historyIndex < history.size
      && PlacesCursorInside(complete)
    }

    ghost function Line(): Text
      reads this, line
      requires len <= line.Length
    {
      line[..len]
    }

    /** The state of the reference editor that this terminal stands for. */
    ghost function Abs(): Editor
      reads this, line, history, history.entries
      requires Valid()
    {
      Editor(Zipper(Line()[..pos], Line()[pos..]), pasteActive, echo,
             historyIndex, historyPending, history.Contents())
    }

    /** The remote screen once the queued output has arrived. */
    ghost function Shown(): Screen
      reads this`sent, this`outBuf
    {
      FeedAll(Blank(width), sent + outBuf)
    }

    /** The logical and the real cursor are both on cell `i` of the current line. */
    ghost predicate Cursor(i: nat)
      reads this`sent, this`outBuf, this`base, this`cursorX, this`cursorY
    {
      cursorX == i % width && cursorY == i / width && Shown().width == width && At(Shown(), base, i)
    }

    /** Everything that can be brought onto the line is displayable. */
    ghost predicate Furnished()
      reads this`historyPending, history, history.entries
      requires history.Valid()
    {
      && Glyphs(historyPending)
      && (forall t | t in history.Contents() :: Glyphs(t))
      && CompletesToGlyphs(complete)
    }

    ghost predicate Displayable()
      reads this, line, history, history.entries
      requires Valid()
    {
      echo && Glyphs(prompt) && Glyphs(Line()) && Furnished()
    }

    /** The display refines the editor: from row `base` on the screen shows the prompt and
        the line and nothing else, and the real cursor is on the logical position. */
    ghost predicate Displays()
      reads this, line, history, history.entries
      requires Valid()
    {
      Displayable() && Cursor(|prompt| + pos) && Shows(Shown(), base, prompt + Line())
    }

    /** The remote screen as it is, without the queued output. */
    ghost function Sent(): Screen
      reads this`sent
    {
      FeedAll(Blank(width), sent)
    }

    /** What has been written shows the prompt and the text as it was then. */
    ghost predicate Delivered()
      reads this`sent, this`sentText, this`sentBase, this`prompt
    {
      && At(Sent(), sentBase, |prompt| + |sentText.before|)
      && Shows(Sent(), sentBase, prompt + sentText.Line())
    }

    /** What has been written shows the prompt and the line as they are now. */
    ghost predicate UpToDate()
      reads this, line
      requires pos <= len <= line.Length
    {
      At(Sent(), sentBase, |prompt| + pos) && Shows(Sent(), sentBase, prompt + Line())
    }

    /** Nothing of the next line is on the screen yet, not even the prompt. */
    ghost predicate Fresh()
      reads this, line, history, history.entries
      requires Valid()
    {
      Displayable() && len == 0 && Cursor(0) && Shows(Shown(), base, [])
    }

    constructor (width: Positive, prompt: Text, complete: Completer)
      requires PlacesCursorInside(complete)
      ensures Valid() && fresh(line) && fresh(history) && fresh(history.entries)
      ensures this.width == width && this.prompt == prompt && this.complete == complete
      ensures Abs() == Editor(Replace([]), false, true, -1, [], []) && remainder == []
      ensures Glyphs(prompt) && CompletesToGlyphs(complete) ==> Fresh()
    {
      this.width, this.prompt, this.complete := width, prompt, complete;
      var entries := new RingBuffer();
      history := entries;
      line := new Rune[0];
      len, pos, cursorX, cursorY, maxLine := 0, 0, 0, 0, 0;
      echo, pasteActive := true, false;
      outBuf, remainder, historyPending, historyIndex := [], [], [], -1;
      sent, base, sentText, sentBase := [], 0, Replace([]), 0;
      new;
      assert Shown() == Blank(width);
      assert forall k: nat :: CellAt(Blank(width), 0, k) == Space;
    }

    // Output ----------------------------------------------------------------

    lemma ShownAppend(was: Text, more: Text)
      requires outBuf == was + more
      ensures Shown() == FeedAll(FeedAll(Blank(width), sent + was), more)
    {
      assert sent + outBuf == (sent + was) + more;
      FeedConcat(Blank(width), sent + was, more);
    }

    method Queue(data: Text)
      modifies this`outBuf
      ensures outBuf == old(outBuf) + AsString(data)
      ensures Scalars(data) ==> Shown() == FeedAll(old(Shown()), data)
    {
      outBuf := outBuf + AsString(data);
      ShownAppend(old(outBuf), AsString(data));
    }

    method Flush()
      modifies this`outBuf, this`sent
      ensures outBuf == [] && sent == old(sent + outBuf) && Shown() == old(Shown())
    {
      sent := sent + outBuf;
      outBuf := [];
      assert sent + outBuf == old(sent + outBuf);
    }

    static function Steps(n: nat, final: Rune): (t: Text)
      requires IsScalar(final)
      ensures Scalars(t)
    {
      ItoaScalars(n);
      MoveText(n, final)
    }

    method Move(up: nat, down: nat, left: nat, right: nat)
      modifies this`outBuf
      ensures var s := old(Shown());
              s.mode.Ground? && !s.wrapPending && s.col + right < s.width ==>
                Shown() == Moved(s, up, down, left, right)
    {
      ghost var s := Shown();
      Queue(Steps(up, 65) + Steps(down, 66) + Steps(right, 67) + Steps(left, 68));
      if s.mode.Ground? && !s.wrapPending && s.col + right < s.width {
        FeedMoveSeq(s, up, down, left, right);
      }
    }

    /** Moves the real cursor to the cell of the logical position `p`. */
    method MoveCursorToPos(p: nat, ghost i: nat)
      modifies this`outBuf, this`cursorX, this`cursorY
      ensures old(cursorX) < width ==> cursorX < width
      ensures !echo ==> outBuf == old(outBuf) && cursorX == old(cursorX) && cursorY == old(cursorY)
      ensures echo && old(Cursor(i)) && Glyphs(prompt) ==>
                Cursor(|prompt| + p) && Shown().cells == old(Shown().cells)
    {
      hide FeedAll, VisualLength;
      if !echo {
        return;
      }
      var x := VisualLength(prompt) + p;
      var y := x / width;
      x := x % width;

      var up := if y < cursorY then cursorY - y else 0;
      var down := if y > cursorY then y - cursorY else 0;
      var left := if x < cursorX then cursorX - x else 0;
      var right := if x > cursorX then x - cursorX else 0;
      cursorX := x;
      cursorY := y;
      Move(up, down, left, right);
      if Glyphs(prompt) {
        GlyphsAreVisible(prompt);
      }
    }

    /** Advances the logical cursor over `places` glyphs, sending a line feed at a row end. */
    method AdvanceCursor(places: nat, ghost i: nat)
      modifies this`outBuf, this`cursorX, this`cursorY, this`maxLine
      ensures cursorX < width
      ensures old(cursorX == i % width && cursorY == i / width) ==>
                && cursorX == (i + places) % width && cursorY == (i + places) / width
                && Shown() == FeedAll(old(Shown()), RowEnd(places, i + places, width))
    {
      hide FeedAll;
      var reached := cursorX + places;
      cursorY := cursorY + reached / width;
      if cursorY > maxLine {
        maxLine := cursorY;
      }
      cursorX := reached % width;
      DivModAdd(i, places, width);
      if places > 0 && cursorX == 0 {
        outBuf := outBuf + CrLf;
        ShownAppend(old(outBuf), CrLf);
      } else {
        FeedNone(Shown());
      }
    }

    /** Queues a run of glyphs and advances over it; the run may cross row ends. */
    method WriteRun(t: Text, ghost i: nat)
      modifies this`outBuf, this`cursorX, this`cursorY, this`maxLine
      ensures cursorX < width
      ensures old(Cursor(i)) && Glyphs(t) ==>
                Cursor(i + |t|) && Wrote(old(Shown()), Shown(), base, i, t)
    {
      hide Wrote, FeedAll, At;
      Queue(t);
      AdvanceCursor(VisualLength(t), i);
      if old(Cursor(i)) && Glyphs(t) {
        GlyphsAreVisible(t);
        FeedRun(old(Shown()), base, i, t);
      }
    }

    /** Writes text row by row. */
    method WriteLine(text: Text, ghost i: nat)
      requires cursorX < width
      modifies this`outBuf, this`cursorX, this`cursorY, this`maxLine
      ensures cursorX < width
      ensures old(Cursor(i)) && Glyphs(text) ==>
                Cursor(i + |text|) && Wrote(old(Shown()), Shown(), base, i, text)
    {
      hide FeedAll, At, Wrote;
      ghost var good := Cursor(i) && Glyphs(text);
      var rest := text;
      ghost var done: Text := [];
      if good {
        WroteNothing(Shown(), base, i);
      }
      while rest != []
        invariant cursorX < width
        invariant done + rest == text
        invariant good ==> Cursor(i + |done|) && Wrote(old(Shown()), Shown(), base, i, done)
        decreases |rest|
      {
        var todo := |rest|;
        if todo > width - cursorX {
          todo := width - cursorX;
        }
        ghost var s := Shown();
        ghost var run := rest[..todo];
        assert good ==> Glyphs(run) by {
          assert forall k | 0 <= k < todo :: run[k] == text[|done| + k];
        }
        WriteRun(rest[..todo], i + |done|);
        if good {
          WroteConcat(old(Shown()), s, Shown(), base, i, done, run);
        }
        done := done + run;
        rest := rest[todo..];
      }
      assert done == text;
    }

    /** Blanks `n` cells, one at a time. */
    method WriteBlanks(n: nat, ghost i: nat)
      requires cursorX < width
      modifies this`outBuf, this`cursorX, this`cursorY, this`maxLine
      ensures cursorX < width
      ensures old(Cursor(i)) ==> Cursor(i + n) && Wrote(old(Shown()), Shown(), base, i, Spaces(n))
    {
      hide FeedAll, At;
      ghost var good := Cursor(i);
      if good {
        SameCells(Shown(), Shown(), base, []);
        assert Wrote(Shown(), Shown(), base, i, Spaces(0));
      }
      for k := 0 to n
        invariant cursorX < width
        invariant good ==> Cursor(i + k) && Wrote(old(Shown()), Shown(), base, i, Spaces(k))
      {
        ghost var s := Shown();
        WriteRun([Space], i + k);
        if good {
          WroteConcat(old(Shown()), s, Shown(), base, i, Spaces(k), [Space]);
          assert Spaces(k) + [Space] == Spaces(k + 1);
        }
      }
    }

    /** From row `base` on the screen shows the prompt followed by `t`; cursor on cell `i`. */
    ghost predicate Drawn(t: Text, i: nat)
      reads this`sent, this`outBuf, this`base, this`cursorX, this`cursorY, this`prompt, this`echo
    {
      echo && Glyphs(prompt) && Cursor(i) && Shows(Shown(), base, prompt + t)
    }

    /** Replaces the displayed text `was` by `now` and puts the cursor on position `p`. */
    method Redraw(now: Text, p: nat, blanks: nat, ghost was: Text, ghost i: nat)
      requires cursorX < width
      modifies this`outBuf, this`cursorX, this`cursorY, this`maxLine
      ensures cursorX < width
      ensures old(Drawn(was, i)) && Glyphs(now) && |was| <= |now| + blanks ==>
                Drawn(now, |prompt| + p) && KeepsAbove(old(Shown()), Shown(), base)
    {
      hide Shows, Wrote, At, KeepsAbove, FeedAll, Spaces;
      ghost var good := Drawn(was, i) && Glyphs(now) && |was| <= |now| + blanks;
      MoveCursorToPos(0, i);
      ghost var s1 := Shown();
      WriteLine(now, |prompt|);
      ghost var s2 := Shown();
      WriteBlanks(blanks, |prompt| + |now|);
      ghost var s3 := Shown();
      MoveCursorToPos(p, |prompt| + |now| + blanks);
      if good {
        WroteConcat(s1, s2, s3, base, |prompt|, now, Spaces(blanks));
        WroteBetweenMoves(old(Shown()), s1, s3, Shown(), base, |prompt|, now + Spaces(blanks));
        Overwrite(old(Shown()), Shown(), base, prompt, was, now, blanks);
      }
    }

    // Editing ---------------------------------------------------------------

    method SetLine(newLine: Text, newPos: nat, ghost was: Text, ghost i: nat)
      requires Valid() && newPos <= |newLine|
      modifies this`outBuf, this`cursorX, this`cursorY, this`maxLine, this`line, this`len, this`pos
      ensures Valid() && fresh(line) && Line() == newLine && pos == newPos
      ensures old(Drawn(was, i)) && Glyphs(newLine) && |was| <= old(len) ==>
                Drawn(newLine, |prompt| + newPos) && KeepsAbove(old(Shown()), Shown(), base)
    {
      hide Shows, Wrote, At, KeepsAbove, FeedAll, PlacesCursorInside;
      if echo {
        Redraw(newLine, newPos, if |newLine| < len then len - |newLine| else 0, was, i);
      }
      line := new Rune[|newLine|](k requires 0 <= k < |newLine| => newLine[k]);
      len, pos := |newLine|, newPos;
      assert line[..len] == newLine;
    }

    /** Shifts the text after the cursor left over the `n` runes at the cursor, in place. */
    method CutAtCursor(n: nat)
      requires pos + n <= len <= line.Length
      modifies this`len, line
      ensures len == old(len) - n && Line() == old(Line()[..pos] + Line()[pos + n..])
    {
      forall k | pos <= k < len - n {
        line[k] := line[k + n];
      }
      len := len - n;
    }

    method QueueSpaces(n: nat)
      modifies this`outBuf
      ensures Shown() == FeedAll(old(Shown()), Spaces(n))
    {
      hide FeedAll, Shown;
      FeedNone(Shown());
      assert Spaces(0) == [];
      for k := 0 to n
        invariant Shown() == FeedAll(old(Shown()), Spaces(k))
      {
        Queue([Space]);
        FeedConcat(old(Shown()), Spaces(k), [Space]);
        assert Spaces(k) + [Space] == Spaces(k + 1);
      }
    }

    /** Blanks `n` cells in one run, letting the screen wrap at row ends. */
    method WriteSpaces(n: nat, ghost i: nat)
      modifies this`outBuf, this`cursorX, this`cursorY, this`maxLine
      ensures cursorX < width
      ensures old(Cursor(i)) ==> Cursor(i + n) && Wrote(old(Shown()), Shown(), base, i, Spaces(n))
    {
      hide Wrote, FeedAll, At;
      QueueSpaces(n);
      AdvanceCursor(n, i);
      if old(Cursor(i)) {
        FeedRun(old(Shown()), base, i, Spaces(n));
      }
    }

    /** Rewrites the tail of the line from the cursor on, after `n` runes were cut before it. */
    method RedrawTail(tail: Text, n: nat, ghost i: nat)
      requires cursorX < width && echo
      modifies this`outBuf, this`cursorX, this`cursorY, this`maxLine
      ensures cursorX < width
      ensures old(Cursor(i)) && Glyphs(tail) && Glyphs(prompt) ==>
                Cursor(|prompt| + pos) && Wrote(old(Shown()), Shown(), base, i, tail + Spaces(n))
    {
      hide Shows, Wrote, At, FeedAll, Spaces;
      ghost var good := Cursor(i) && Glyphs(tail) && Glyphs(prompt);
      WriteLine(tail, i);
      ghost var s2 := Shown();
      WriteSpaces(n, i + |tail|);
      ghost var s3 := Shown();
      MoveCursorToPos(pos, i + |tail| + n);
      if good {
        WroteConcat(old(Shown()), s2, s3, base, i, tail, Spaces(n));
        WroteBetweenMoves(old(Shown()), old(Shown()), s3, Shown(), base, i, tail + Spaces(n));
      }
    }

    /** Redraws the line `was` with positions `pos` to `pos + m` cut out. */
    method RedrawCut(tail: Text, m: nat, ghost was: Text, ghost i: nat)
      requires cursorX < width
      requires pos + m <= |was| && tail == was[pos + m..]
      modifies this`outBuf, this`cursorX, this`cursorY, this`maxLine
      ensures cursorX < width
      ensures old(Drawn(was, i)) && Glyphs(was) ==>
                Drawn(was[..pos] + tail, |prompt| + pos) && KeepsAbove(old(Shown()), Shown(), base)
    {
      hide Shows, Wrote, At, KeepsAbove, FeedAll, Spaces;
      MoveCursorToPos(pos, i);
      if echo {
        ghost var s1 := Shown();
        RedrawTail(tail, m, |prompt| + pos);
        if old(Drawn(was, i)) && Glyphs(was) {
          WroteBetweenMoves(old(Shown()), s1, Shown(), Shown(), base, |prompt| + pos, tail + Spaces(m));
          CutRedrawn(old(Shown()), Shown(), base, prompt, was, pos, pos + m);
        }
      }
    }

    /** Moves the cursor back over `m` runes and deletes them. */
    method EraseBack(m: nat, ghost i: nat)
      requires Valid() && m <= pos
      modifies this`outBuf, this`cursorX, this`cursorY, this`maxLine, this`len, this`pos, line
      ensures Valid() && pos == old(pos) - m
      ensures Line() == old(Line())[..pos] + old(Line())[old(pos)..]
      ensures old(Drawn(Line(), i)) && old(Glyphs(Line())) ==>
                Drawn(Line(), |prompt| + pos) && KeepsAbove(old(Shown()), Shown(), base)
    {
      hide Shows, KeepsAbove, Shown, Cursor, PlacesCursorInside;
      ghost var was := Line();
      pos := pos - m;
      CutAtCursor(m);
      RedrawCut(line[pos..len], m, was, i);
    }

    /** Deletes up to `n` runes before the cursor. */
    method EraseNPreviousChars(n: nat, ghost i: nat)
      requires Valid()
      modifies this`outBuf, this`cursorX, this`cursorY, this`maxLine, this`len, this`pos, line
      ensures Valid() && pos == (if old(pos) < n then 0 else old(pos) - n)
      ensures Line() == old(Line())[..pos] + old(Line())[old(pos)..]
      ensures old(Drawn(Line(), i)) && old(Glyphs(Line())) ==>
                Drawn(Line(), if n == 0 then i else |prompt| + pos) && KeepsAbove(old(Shown()), Shown(), base)
    {
      if n == 0 {
        assert Line() == Line()[..pos] + Line()[pos..];
        return;
      }
      EraseBack(if pos < n then pos else n, i);
    }

    /** Doubles the backing array when it is full. */
    method Grow()
      requires len <= line.Length
      modifies this`line
      ensures len < line.Length && (line == old(line) || fresh(line)) && Line() == old(Line())
    {
      if len == line.Length {
        var newLine := new Rune[2 * (1 + len)];
        forall k | 0 <= k < len {
          newLine[k] := line[k];
        }
        line := newLine;
      }
    }

    /** Opens a gap at the cursor and puts `key` there, in place. */
    method InsertAtCursor(key: Rune)
      requires pos <= len < line.Length
      modifies this`len, line
      ensures len == old(len) + 1
      ensures Line() == old(Line())[..pos] + [key] + old(Line())[pos..]
    {
      ghost var was := Line();
      len := len + 1;
      forall k | pos < k < len {
        line[k] := line[k - 1];
      }
      line[pos] := key;
      InsertedAt(was, Line(), pos, key);
    }

    /** Inserts `key` at the cursor. */
    method InsertRune(key: Rune)
      requires pos <= len <= line.Length
      modifies this`line, this`len, line
      ensures len == old(len) + 1 <= line.Length && (line == old(line) || fresh(line))
      ensures Line() == old(Line())[..pos] + [key] + old(Line())[pos..]
    {
      Grow();
      InsertAtCursor(key);
    }

    /** Redraws the line `was` with `key` inserted at position `p`, and moves past it. */
    method RedrawInsert(tail: Text, p: nat, ghost was: Text, ghost key: Rune)
      requires cursorX < width
      requires p <= |was| && tail == [key] + was[p..]
      modifies this`outBuf, this`cursorX, this`cursorY, this`maxLine
      ensures cursorX < width
      ensures old(Drawn(was, |prompt| + p)) && Glyphs(was) && IsGlyph(key) ==>
                Drawn(was[..p] + [key] + was[p..], |prompt| + p + 1) && KeepsAbove(old(Shown()), Shown(), base)
    {
      hide Shows, Wrote, At, KeepsAbove, FeedAll;
      ghost var good := Drawn(was, |prompt| + p) && Glyphs(was) && IsGlyph(key);
      if echo {
        WriteLine(tail, |prompt| + p);
      }
      ghost var s := Shown();
      MoveCursorToPos(p + 1, |prompt| + p + |tail|);
      if good {
        InsertRedrawn(old(Shown()), s, base, prompt, was, p, key);
        CellsKept(old(Shown()), s, Shown(), base, prompt + (was[..p] + [key] + was[p..]));
      }
    }

    method AddKeyToLine(key: Rune)
      requires Valid()
      modifies this`outBuf, this`cursorX, this`cursorY, this`maxLine, this`line, this`len, this`pos, line
      ensures Valid() && (line == old(line) || fresh(line))
      ensures pos == old(pos) + 1 && Line() == old(Line())[..old(pos)] + [key] + old(Line())[old(pos)..]
      ensures old(Drawn(Line(), |prompt| + pos)) && old(Glyphs(Line())) && IsGlyph(key) ==>
                Drawn(Line(), |prompt| + pos) && KeepsAbove(old(Shown()), Shown(), base)
    {
      hide Shows, KeepsAbove, FeedAll, At, PlacesCursorInside, Cursor;
      ghost var was := Line();
      InsertRune(key);
      RedrawInsert(line[pos..len], pos, was, key);
      pos := pos + 1;
    }

    // Word boundaries -------------------------------------------------------

    /** Distance from the cursor back to the previous word start. */
    method CountToLeftWord() returns (n: nat)
      requires pos <= len <= line.Length
      ensures n == pos - PreviousWord(Line()[..pos])
    {
      if pos == 0 {
        return 0;
      }
      ghost var before := Line()[..pos];
      var p: nat := pos - 1;
      while p > 0
        invariant p < pos
        invariant forall k | p < k < pos :: before[k] == Space
      {
        if line[p] != Space {
          break;
        }
        p := p - 1;
      }
      ghost var stop := p;
      while p > 0
        invariant p <= stop && (stop == 0 || before[stop] != Space)
        invariant forall k | p < k <= stop :: before[k] != Space
      {
        if line[p] == Space {
          p := p + 1;
          break;
        }
        p := p - 1;
      }
      assert IsWordStart(before, p);
      assert forall k: nat | p < k < pos :: !IsWordStart(before, k);
      return pos - p;
    }

    /** Distance from the cursor to the start of the next word. */
    method CountToRightWord() returns (n: nat)
      requires pos <= len <= line.Length
      ensures n == NextWord(Line()[pos..])
    {
      ghost var after := Line()[pos..];
      var p := pos;
      while p < len
        invariant pos <= p <= len
        invariant forall k | 0 <= k < p - pos :: after[k] != Space
      {
        if line[p] == Space {
          break;
        }
        p := p + 1;
      }
      ghost var stop := p;
      while p < len
        invariant stop <= p <= len
        invariant forall k | stop - pos <= k < p - pos :: after[k] == Space
        invariant stop < len ==> after[stop - pos] == Space
      {
        if line[p] != Space {
          break;
        }
        p := p + 1;
      }
      assert IsWordEnd(after, p - pos);
      assert forall k: nat | k < p - pos :: !IsWordEnd(after, k);
      return p - pos;
    }

    // Keys ------------------------------------------------------------------

    /** Moves the cursor within the line. */
    method MoveLogical(p: nat)
      requires Valid() && p <= len
      modifies this`outBuf, this`cursorX, this`cursorY, this`pos
      ensures Valid() && pos == p && Abs() == old(Abs()).(text := MoveTo(old(Abs()).text, p))
      ensures old(Displays()) ==> Displays() && KeepsAbove(old(Shown()), Shown(), base)
    {
      hide Shows, FeedAll, At, KeepsAbove, PlacesCursorInside, Furnished;
      pos := p;
      MoveCursorToPos(pos, |prompt| + old(pos));
      assert Line() == Line()[..old(pos)] + Line()[old(pos)..];
      if old(Displays()) {
        AboveSelf(old(Shown()), base);
        CellsKept(old(Shown()), old(Shown()), Shown(), base, prompt + Line());
      }
    }

    /** Deletes `n` runes before the cursor. */
    method EraseKey(n: nat)
      requires Valid() && n <= pos
      modifies this`outBuf, this`cursorX, this`cursorY, this`maxLine, this`len, this`pos, line
      ensures Valid() && Abs() == old(Abs()).(text := EraseLeft(old(Abs()).text, n))
      ensures old(Displays()) ==> Displays() && KeepsAbove(old(Shown()), Shown(), base)
    {
      hide *;
      AbsIs();
      ghost var was := Line();
      DisplaysIs();
      EraseNPreviousChars(n, |prompt| + pos);
      AbsIs();
      WithoutRunes(was, Line(), pos, old(pos));
      DisplaysIs();
    }

    lemma AbsIs()
      requires Valid()
      ensures pos <= len <= line.Length && |Line()| == len
      ensures Abs() == Editor(Zipper(Line()[..pos], Line()[pos..]), pasteActive, echo, historyIndex, historyPending, history.Contents())
      ensures Abs().text.Line() == Line()
    {
    }

    lemma DisplaysIs()
      requires Valid()
      ensures Displays() <==> Furnished() && Glyphs(Line()) && Drawn(Line(), |prompt| + pos)
    {
      hide Shows, FeedAll, At, PlacesCursorInside, Furnished, Cursor, Glyphs;
    }

    /** Deletes the rune under the cursor, by stepping over it and erasing backwards. */
    method DeleteUnderCursor()
      requires Valid() && pos < len
      modifies this`outBuf, this`cursorX, this`cursorY, this`maxLine, this`len, this`pos, line
      ensures Valid()
      ensures Abs() == old(Abs()).(text := Zipper(old(Abs()).text.before, old(Abs()).text.after[1..]))
      ensures old(Displays()) ==> Displays() && KeepsAbove(old(Shown()), Shown(), base)
    {
      hide *;
      AbsIs();
      ghost var was := Line();
      DisplaysIs();
      StepAndErase();
      AbsIs();
      WithoutRune(was, Line(), pos);
      DisplaysIs();
    }

    method StepAndErase()
      requires Valid() && pos < len
      modifies this`outBuf, this`cursorX, this`cursorY, this`maxLine, this`len, this`pos, line
      ensures Valid() && pos == old(pos)
      ensures Line() == old(Line())[..pos] + old(Line())[pos + 1..]
      ensures old(Drawn(Line(), |prompt| + pos)) && old(Glyphs(Line())) ==>
                Drawn(Line(), |prompt| + pos) && KeepsAbove(old(Shown()), Shown(), base)
    {
      hide Shows, FeedAll, At, KeepsAbove, PlacesCursorInside, Cursor, Glyphs, Drawn, Shown;
      ghost var p := pos;
      pos := pos + 1;
      EraseNPreviousChars(1, |prompt| + p);
    }

    /** Blanks the displayed text after the cursor. */
    method BlankTail(ghost was: Text)
      requires cursorX < width && pos <= len == |was|
      modifies this`outBuf, this`cursorX, this`cursorY, this`maxLine
      ensures cursorX < width
      ensures old(Drawn(was, |prompt| + pos)) ==>
                Drawn(was[..pos], |prompt| + pos) && KeepsAbove(old(Shown()), Shown(), base)
    {
      hide Shows, Wrote, At, KeepsAbove, FeedAll, Spaces;
      WriteBlanks(len - pos, |prompt| + pos);
      ghost var s := Shown();
      MoveCursorToPos(pos, |prompt| + len);
      if old(Drawn(was, |prompt| + pos)) {
        assert [] + Spaces(len - pos) == Spaces(len - pos);
        CutRedrawn(old(Shown()), s, base, prompt, was, pos, len);
        assert was[..pos] + was[len..] == was[..pos];
        CellsKept(old(Shown()), s, Shown(), base, prompt + was[..pos]);
      }
    }

    /** Deletes everything from the cursor to the end of the line. */
    method DeleteLine()
      requires Valid()
      modifies this`outBuf, this`cursorX, this`cursorY, this`maxLine, this`len
      ensures Valid() && Abs() == old(Abs()).(text := Zipper(old(Abs()).text.before, []))
      ensures old(Displays()) ==> Displays() && KeepsAbove(old(Shown()), Shown(), base)
    {
      hide Shows, FeedAll, At, KeepsAbove, PlacesCursorInside, Furnished, Cursor;
      ghost var was := Line();
      BlankTail(was);
      len := pos;
      assert Line() == was[..pos] && Line()[..pos] == was[..pos];
    }

    /** Replaces the line by a stored one, with the cursor at its end. */
    method ReplaceLine(t: Text)
      requires Valid()
      modifies this`outBuf, this`cursorX, this`cursorY, this`maxLine, this`line, this`len, this`pos
      ensures Valid() && fresh(line) && Abs() == old(Abs()).(text := Replace(t))
      ensures old(Displays()) && Glyphs(t) ==> Displays() && KeepsAbove(old(Shown()), Shown(), base)
    {
      hide Shows, FeedAll, At, KeepsAbove, PlacesCursorInside, Furnished, Cursor;
      SetLine(t, |t|, Line(), |prompt| + pos);
      assert Line()[..pos] == t && Line()[pos..] == [];
    }

    /** Erases the screen and draws prompt and line again from its first row. */
    method ClearScreen()
      requires Valid()
      modifies this`outBuf, this`cursorX, this`cursorY, this`maxLine, this`line, this`len, this`pos, this`base
      ensures Valid() && fresh(line) && Abs() == old(Abs())
      ensures old(Displays()) ==> Displays() && base == 0
    {
      hide Shows, FeedAll, At, KeepsAbove, PlacesCursorInside, Furnished;
      ghost var good := Displays();
      EraseScreen(Line());
      SetLine(line[..len], pos, [], |prompt|);
      assert Line() == old(Line());
      if good {
        assert [] + Line() == Line();
      }
    }

    /** Erases the screen and writes the prompt at its top. */
    method EraseScreen(ghost was: Text)
      modifies this`outBuf, this`cursorX, this`cursorY, this`maxLine, this`base
      ensures cursorX < width
      ensures old(Drawn(was, |prompt| + pos)) ==> Drawn([], |prompt|) && base == 0
    {
      hide Wrote, FeedAll, Shows;
      ghost var good := Drawn(was, |prompt| + pos);
      Queue(ClearHome);
      if good {
        FeedClearHome(old(Shown()));
      }
      cursorX, cursorY := 0, 0;
      base := 0;
      ghost var s := Shown();
      WriteRun(prompt, 0);
      if good {
        assert [] + prompt == prompt && prompt + [] == prompt && prompt + Spaces(0) == prompt;
        Overwrite(s, Shown(), 0, [], [], prompt, 0);
      }
    }

    /** Sends the cursor to the start of the row below the line. */
    method NewRow(ghost was: Text)
      requires len == |was|
      modifies this`outBuf, this`cursorX, this`cursorY, this`maxLine, this`base
      ensures cursorX == 0 && cursorY == 0
      ensures old(Drawn(was, |prompt| + pos)) ==>
                Cursor(0) && Shows(Shown(), base, []) && old(base) < base && KeepsAbove(old(Shown()), Shown(), base)
    {
      hide FeedAll, Shows, KeepsAbove;
      ghost var good := Drawn(was, |prompt| + pos);
      MoveCursorToPos(len, |prompt| + pos);
      ghost var s := Shown();
      Queue(CrLf);
      if good {
        AboveSelf(old(Shown()), base);
        CellsKept(old(Shown()), old(Shown()), s, base, prompt + was);
        FeedNewLine(s, base, prompt + was);
        base := NextBase(base, |prompt + was|, width);
        AboveSelf(old(Shown()), base);
        CellsKept(old(Shown()), old(Shown()), Shown(), base, []);
      }
      cursorX, cursorY, maxLine := 0, 0, 0;
    }

    /** Ends the line: the next one starts empty on a fresh row. */
    method EndLine()
      requires Valid()
      modifies this`outBuf, this`cursorX, this`cursorY, this`maxLine, this`base, this`len, this`pos
      ensures Valid() && Abs() == old(Abs()).(text := Replace([]))
      ensures old(Displays()) ==> Fresh() && old(base) < base && KeepsAbove(old(Shown()), Shown(), base)
    {
      hide Shows, FeedAll, At, KeepsAbove, PlacesCursorInside, Furnished, Cursor;
      NewRow(Line());
      len, pos := 0, 0;
      assert Line() == [];
    }

    /** Keeps the line being entered when the history is first entered. */
    method SavePending()
      requires Valid()
      modifies this`historyPending
      ensures Valid() && Abs() == old(Abs()).(pending := if historyIndex == -1 then AsString(old(Abs()).text.Line()) else old(historyPending))
      ensures old(Displays()) ==> Displays()
    {
      hide Shows, FeedAll, At, PlacesCursorInside, CompletesToGlyphs, Cursor;
      assert Abs().text.Line() == Line();
      if historyIndex == -1 {
        historyPending := AsString(line[..len]);
      }
    }

    method SetIndex(i: int)
      requires Valid() && -1 <= i < |Abs().history|
      modifies this`historyIndex
      ensures Valid() && historyIndex == i && Abs() == old(Abs()).(index := i)
      ensures old(Displays()) ==> Displays()
    {
      hide Shows, FeedAll, At, PlacesCursorInside, Furnished, Cursor;
      historyIndex := i;
    }

    method Entry(n: nat) returns (entry: Option<Text>)
      requires Valid()
      ensures entry == if n < |Abs().history| then Some(Abs().history[n]) else None
      ensures -1 <= historyIndex == Abs().index < |Abs().history| && historyPending == Abs().pending
      ensures Displays() ==> (entry.Some? ==> Glyphs(entry.value)) && Glyphs(historyPending)
    {
      hide Shows, FeedAll, At, PlacesCursorInside, CompletesToGlyphs, Cursor, Glyphs;
      entry := history.NthPreviousEntry(n);
    }

    method KeyUpPressed()
      requires Valid()
      modifies this`outBuf, this`cursorX, this`cursorY, this`maxLine, this`line, this`len, this`pos,
               this`historyIndex, this`historyPending
      ensures Valid() && (line == old(line) || fresh(line)) && Abs() == HistoryUp(old(Abs()))
      ensures old(Displays()) ==> Displays() && KeepsAbove(old(Shown()), Shown(), base)
    {
      hide Valid, Abs, Shown, KeepsAbove, Displays, AsString, Glyphs;
      AboveSelf(Shown(), base);
      assert historyIndex >= -1 by {
        ValidIndex();
      }
      var entry := Entry(historyIndex + 1);
      if entry.None? {
        return;
      }
      SavePending();
      SetIndex(historyIndex + 1);
      ReplaceLine(entry.value);
    }

    lemma ValidIndex()
      requires Valid()
      ensures -1 <= historyIndex
    {
    }

    method KeyDownPressed()
      requires Valid()
      modifies this`outBuf, this`cursorX, this`cursorY, this`maxLine, this`line, this`len, this`pos,
               this`historyIndex
      ensures Valid() && (line == old(line) || fresh(line)) && Abs() == HistoryDown(old(Abs()))
      ensures old(Displays()) ==> Displays() && KeepsAbove(old(Shown()), Shown(), base)
    {
      hide Valid, Abs, Shown, KeepsAbove, Displays, Glyphs;
      AboveSelf(Shown(), base);
      var entry := Entry(if historyIndex > 0 then historyIndex - 1 else 0);
      if historyIndex == -1 {
        return;
      } else if historyIndex == 0 {
        ReplaceLine(historyPending);
        SetIndex(historyIndex - 1);
      } else if entry.Some? {
        SetIndex(historyIndex - 1);
        ReplaceLine(entry.value);
      }
    }

    /** Inserts a key at the cursor. */
    method InsertKey(key: Rune)
      requires Valid()
      modifies this`outBuf, this`cursorX, this`cursorY, this`maxLine, this`line, this`len, this`pos, line
      ensures Valid() && (line == old(line) || fresh(line))
      ensures Abs() == old(Abs()).(text := Insert(old(Abs()).text, key))
      ensures old(Displays()) && IsGlyph(key) ==> Displays() && KeepsAbove(old(Shown()), Shown(), base)
    {
      hide Shows, FeedAll, At, KeepsAbove, PlacesCursorInside, Furnished, Cursor;
      ghost var was, p := Line(), pos;
      AddKeyToLine(key);
      assert Line()[..pos] == was[..p] + [key] && Line()[pos..] == was[p..];
    }

    /** A key that is offered to the callback and otherwise inserted if printable. */
    method OtherKey(key: Rune)
      requires Valid()
      modifies this`outBuf, this`cursorX, this`cursorY, this`maxLine, this`line, this`len, this`pos, line
      ensures Valid() && (line == old(line) || fresh(line))
      ensures Abs() == TypeKey(old(Abs()), key, complete)
      ensures old(Displays()) && (IsPrintable(key) ==> IsGlyph(key)) ==>
                Displays() && KeepsAbove(old(Shown()), Shown(), base)
    {
      hide Shows, FeedAll, At, KeepsAbove, Cursor;
      AboveSelf(Shown(), base);
      assert Abs().text.Line() == Line();
      var answer := complete(line[..len], pos, key);
      if answer.Some? {
        SetLine(answer.value.line, answer.value.pos, Line(), |prompt| + pos);
        return;
      }
      if !IsPrintable(key) {
        return;
      }
      if len == MaxLineLength {
        return;
      }
      InsertKey(key);
    }

    /** Keys that move the cursor within the line. */
    method MoveKey(key: Rune)
      requires Valid() && key in {KeyAltLeft, KeyAltRight, KeyLeft, KeyRight, KeyHome, KeyEnd}
      modifies this`outBuf, this`cursorX, this`cursorY, this`pos
      ensures Valid() && Abs() == old(Abs()).(text := EditText(old(Abs()).text, key))
      ensures old(Displays()) ==> Displays() && KeepsAbove(old(Shown()), Shown(), base)
    {
      hide Shows, FeedAll, At, KeepsAbove, Cursor, Displays, PreviousWord, NextWord, PlacesCursorInside;
      AboveSelf(Shown(), base);
      assert Abs().text.Line() == Line();
      if key == KeyAltLeft {
        var n := CountToLeftWord();
        MoveLogical(pos - n);
      } else if key == KeyAltRight {
        var n := CountToRightWord();
        MoveLogical(pos + n);
      } else if key == KeyLeft {
        if pos > 0 {
          MoveLogical(pos - 1);
        }
      } else if key == KeyRight {
        if pos < len {
          MoveLogical(pos + 1);
        }
      } else if key == KeyHome {
        MoveLogical(0);
      } else {
        MoveLogical(len);
      }
    }

    /** Keys that move the cursor or erase within the line. */
    method EditKey(key: Rune)
      requires Valid() && IsEditKey(key)
      modifies this`outBuf, this`cursorX, this`cursorY, this`maxLine, this`line, this`len, this`pos, this`base, line
      ensures Valid() && (line == old(line) || fresh(line))
      ensures Abs() == old(Abs()).(text := EditText(old(Abs()).text, key))
      ensures old(Displays()) ==> Displays() && KeepsAbove(old(Shown()), Shown(), base)
      ensures key != KeyClearScreen ==> base == old(base)
    {
      hide Shows, FeedAll, At, KeepsAbove, Cursor, Displays, PreviousWord, PlacesCursorInside, MoveTo;
      AboveSelf(Shown(), base);
      if key == KeyBackspace {
        if pos > 0 {
          EraseKey(1);
        }
      } else if key == KeyDeleteWord {
        var n := CountToLeftWord();
        EraseKey(n);
      } else if key == KeyDeleteLine {
        DeleteLine();
      } else if key == KeyCtrlD {
        if pos < len {
          DeleteUnderCursor();
        }
      } else if key == KeyCtrlU {
        EraseKey(pos);
      } else if key == KeyClearScreen {
        ClearScreen();
        NothingAbove(old(Shown()), Shown());
      } else {
        MoveKey(key);
      }
    }

    lemma LineDisplayable()
      requires Valid() && Displays()
      ensures Glyphs(AsString(Line()))
    {
    }

    /** One key press refines the reference editor and keeps the display in step with it. Enter returns
        the whole line, wherever the cursor is. */
    method HandleKey(key: Rune) returns (r: Option<Text>)
      requires Valid()
      modifies this`outBuf, this`cursorX, this`cursorY, this`maxLine, this`line, this`len, this`pos, this`base,
               this`historyIndex, this`historyPending, line
      ensures Valid() && (line == old(line) || fresh(line))
      ensures (Abs(), r) == Press(old(Abs()), key, complete)
      ensures r.Some? <==> key == KeyEnter || (key == KeyCtrlC && !pasteActive)
      ensures r.Some? ==> r.value == (if key == KeyEnter then AsString(old(Line())) else []) && Line() == []
      ensures old(Displays()) && StaysDisplayable(key, pasteActive) ==>
                && (if r.None? then Displays() else Fresh() && Glyphs(r.value))
                && KeepsAbove(old(Shown()), Shown(), base)
                && (pasteActive || key != KeyClearScreen ==> old(base) <= base)
    {
      hide Shows, FeedAll, At, KeepsAbove, Cursor, Displays, PlacesCursorInside, EditText, TypeKey, HistoryUp, HistoryDown;
      AboveSelf(Shown(), base);
      r := None;
      if pasteActive && key != KeyEnter {
        InsertKey(key);
      } else if IsEditKey(key) {
        EditKey(key);
      } else if key == KeyUp {
        KeyUpPressed();
      } else if key == KeyDown {
        KeyDownPressed();
      } else if key == KeyCtrlC {
        EndLine();
        r := Some([]);
      } else if key == KeyEnter {
        assert Line() == Abs().text.Line();
        r := Some(AsString(line[..len]));
        if Displays() {
          LineDisplayable();
        }
        EndLine();
      } else {
        OtherKey(key);
      }
    }

    // Reading ---------------------------------------------------------------

    /** Writes the prompt at the start of the line. */
    method DrawPrompt()
      requires Valid() && cursorX == 0 && cursorY == 0
      modifies this`outBuf, this`cursorX, this`cursorY, this`maxLine
      ensures Valid() && Abs() == old(Abs())
      ensures old(Displays() || Fresh()) ==> Displays() && KeepsAbove(old(Shown()), Shown(), base)
    {
      hide FeedAll, Shows, KeepsAbove, PlacesCursorInside, Furnished, At, Wrote;
      WriteLine(prompt, 0);
      if old(Fresh()) {
        assert [] + prompt == prompt && prompt + Line() == prompt && prompt + Spaces(0) == prompt;
        Overwrite(old(Shown()), Shown(), base, [], [], prompt, 0);
      } else if old(Displays()) {
        PromptInvisible(|prompt| + pos, width);
        CellsUntouched(old(Shown()), Shown(), base, prompt + Line(), prompt);
      }
    }

    /** Writes the prompt if nothing of the line is on the screen yet. */
    method WritePrompt(ghost pasted: bool, ghost log: seq<Event>)
      requires Valid()
      modifies this`outBuf, this`cursorX, this`cursorY, this`maxLine, this`sent, this`sentText, this`sentBase
      ensures Valid() && Reading(pasted, log) == old(Reading(pasted, log))
      ensures old(cursorX == 0 && cursorY == 0) ==> outBuf == [] && sentText == old(Abs().text)
      ensures !old(cursorX == 0 && cursorY == 0) ==> outBuf == old(outBuf) && sent == old(sent) && sentText == old(sentText)
      ensures old(Displays() || Fresh()) ==> Displays() && KeepsAbove(old(Shown()), Shown(), base)
      ensures old(InStep()) ==> Displays() && Delivered()
    {
      hide FeedAll, Shows, KeepsAbove, PlacesCursorInside, Displayable, At, Displays, Delivered;
      AboveSelf(Shown(), base);
      if cursorX == 0 && cursorY == 0 {
        DrawPrompt();
        FlushOutput(pasted, log);
      }
    }

    /** The state of the reference read loop that this terminal stands for. */
    ghost function Reading(pasted: bool, log: seq<Event>): Reader
      reads this, line, history, history.entries
      requires Valid()
    {
      Reader(Abs(), remainder, pasted, log)
    }

    /** Between calls: nothing of the line is shown yet, or the display is in step and what has
        been written shows what there was when it was written. */
    ghost predicate InStep()
      reads this, line, history, history.entries
      requires Valid()
    {
      Fresh() || (Displays() && Delivered())
    }

    /** Stores a finished line in the history. */
    method StoreLine(t: Text)
      requires Valid()
      modifies this`historyIndex, history, history.entries
      ensures Valid() && (history.entries == old(history.entries) || fresh(history.entries))
      ensures Abs() == Finish(old(Abs()), t)
      ensures old(Fresh()) && Glyphs(t) ==> Fresh()
    {
      hide Shows, FeedAll, At, Cursor, PlacesCursorInside, CompletesToGlyphs, Glyphs, Remember;
      ghost var l, was := Line(), history.Contents();
      if echo {
        historyIndex := -1;
        history.Add(t);
        assert Line() == l;
        RememberedIsOld(was, t);
      }
    }

    method SetPaste(on: bool)
      requires Valid()
      modifies this`pasteActive
      ensures Valid() && Abs() == old(Abs()).(paste := on) && (old(Displays()) ==> Displays())
    {
      pasteActive := on;
    }

    static function Log(log: seq<Event>, event: Option<Event>): (l: seq<Event>)
      ensures event.None? ==> l == log
      ensures event.Some? ==> l == log + [event.value]
    {
      if event.Some? then log + [event.value] else log
    }

    /** The display after an event, or before one. */
    ghost predicate DisplaysAfter(event: Option<Event>)
      reads this, line, history, history.entries
      requires Valid()
    {
      if event.Some? && event.value.Line? then Fresh() else Displays()
    }

    lemma DisplayStates(event: Option<Event>)
      requires Valid()
      ensures DisplaysAfter(event) == if event.Some? && event.value.Line? then Fresh() else Displays()
      ensures InStep() == (Fresh() || (Displays() && Delivered()))
    {
      hide Displays, Fresh, Delivered;
    }

    /** Presses a key; a line that it finishes is stored and returned. */
    method PressKey(key: Rune) returns (t: Option<Text>)
      requires Valid()
      modifies this`outBuf, this`cursorX, this`cursorY, this`maxLine, this`line, this`len, this`pos, this`base,
               this`historyIndex, this`historyPending, line, history, history.entries
      ensures Valid() && (line == old(line) || fresh(line))
      ensures history.entries == old(history.entries) || fresh(history.entries)
      ensures var (e, l) := Press(old(Abs()), key, complete);
              t == l && Abs() == if l.Some? then Finish(e, l.value) else e
      ensures old(Displays()) && StaysDisplayable(key, pasteActive) ==>
                && (if t.None? then Displays() else Fresh())
                && (pasteActive || key != KeyClearScreen ==>
                      old(base) <= base && KeepsAbove(old(Shown()), Shown(), old(base)))
    {
      hide *;
      t := HandleKey(key);
      if KeepsAbove(old(Shown()), Shown(), base) && old(base) <= base {
        KeepsFewer(old(Shown()), Shown(), old(base), base);
      }
      if t.Some? {
        StoreLine(t.value);
      }
    }

    /** One decoded key: paste brackets and end of file are handled here, the rest is pressed. */
    method ProcessKey(key: Rune, pastedIn: bool, ghost log: seq<Event>, ghost demand: Demand)
      returns (event: Option<Event>, pasted: bool)
      requires Valid()
      modifies this`outBuf, this`cursorX, this`cursorY, this`maxLine, this`line, this`len, this`pos, this`base,
               this`historyIndex, this`historyPending, this`pasteActive, line, history, history.entries
      ensures Valid() && (line == old(line) || fresh(line))
      ensures history.entries == old(history.entries) || fresh(history.entries)
      ensures Reading(pasted, Log(log, event))
              == TakeKey(old(Reading(pastedIn, log)), key, complete)
      ensures event.Some? ==> pasted == pasteActive
      ensures event == Some(Eof) ==> len == 0
      ensures old(Displays()) && demand != Anything && Meets(demand, key, old(pasteActive)) ==>
                && DisplaysAfter(event)
                && (demand == Kept ==> old(base) <= base && KeepsAbove(old(Shown()), Shown(), old(base)))
    {
      hide Valid, Abs, Line, Reading, Displays, Fresh, Shown, KeepsAbove, Press, Remember, StaysDisplayable;
      AboveSelf(Shown(), base);
      AbsIs();
      ReadingIs(pastedIn, log);
      if !pasteActive && key == KeyCtrlD && len == 0 {
        event, pasted := Some(Eof), false;
        ReadingIs(pasted, Log(log, event));
        return;
      }
      if !pasteActive && key == KeyPasteStart {
        SetPaste(true);
        event, pasted := None, pastedIn || len == 0;
        ReadingIs(pasted, Log(log, event));
        return;
      }
      if pasteActive && key == KeyPasteEnd {
        SetPaste(false);
        event, pasted := None, pastedIn;
        ReadingIs(pasted, Log(log, event));
        return;
      }
      pasted := pastedIn && pasteActive;
      var t := PressKey(key);
      event := None;
      if t.Some? {
        event := Some(Event.Line(t.value, pasted));
        pasted := pasteActive;
      }
      AbsIs();
      ReadingIs(pasted, Log(log, event));
    }

    /** Replaces the undecoded input. */
    method Keep(rest: seq<Byte>)
      requires Valid()
      modifies this`remainder
      ensures Valid() && remainder == rest && Abs() == old(Abs())
      ensures old(Displays()) ==> Displays()
      ensures old(Fresh()) ==> Fresh()
    {
      remainder := rest;
    }

    /** Decodes and applies one key, if the input holds one. `more` is the input still to come. */
    method DecodeOne(pastedIn: bool, ghost more: seq<Byte>, ghost log: seq<Event>, ghost demand: Demand)
      returns (found: bool, event: Option<Event>, pasted: bool)
      requires Valid()
      modifies this`outBuf, this`cursorX, this`cursorY, this`maxLine, this`line, this`len, this`pos, this`base,
               this`historyIndex, this`historyPending, this`pasteActive, this`remainder,
               line, history, history.entries
      ensures Valid() && (line == old(line) || fresh(line))
      ensures history.entries == old(history.entries) || fresh(history.entries)
      ensures if found then |remainder| < old(|remainder|) else |remainder| <= old(|remainder|) && event.None?
      ensures event.Some? ==> pasted == pasteActive
      ensures event == Some(Eof) ==> len == 0
      ensures !found ==> Reading(pasted, log) == Pump(old(Reading(pastedIn, log)), complete)
      ensures !found ==> remainder == Pump(old(Reading(pastedIn, log)), complete).rest
      ensures var now := Reading(pasted, Log(log, event));
              var settles := old(Settles(Receive(Reading(pastedIn, log), more), complete));
              && (found || settles ==> Pump(now, complete) == Pump(old(Reading(pastedIn, log)), complete))
              && (settles ==> Settles(Receive(now, more), complete))
              && (old(AllMeet(Receive(Reading(pastedIn, log), more), complete, demand)) ==> AllMeet(Receive(now, more), complete, demand))
      ensures old(Displays()) && demand != Anything
              && old(AllMeet(Receive(Reading(pastedIn, log), more), complete, demand)) ==>
                && DisplaysAfter(event)
                && (demand == Kept ==> old(base) <= base && KeepsAbove(old(Shown()), Shown(), old(base)))
    {
      hide Shows, FeedAll, At, Cursor, PlacesCursorInside, Furnished, Displayable, Displays, Fresh, DisplaysAfter;
      hide TakeKey, BytesToKey, Partial, Settles, Meets, AllMeet, KeepsAbove;
      ghost var was := Reading(pastedIn, log);
      ghost var settles, meets := Settles(Receive(was, more), complete), AllMeet(Receive(was, more), complete, demand);
      AboveSelf(Shown(), base);
      event, pasted := None, pastedIn;
      var d := BytesToKey(remainder, pasteActive);
      Keep(d.rest);
      found := d.key != RuneError;
      if found {
        if settles {
          SettlesNext(was, more, complete);
        }
        if meets {
          AllMeetNext(was, more, complete, demand);
        }
        event, pasted := ProcessKey(d.key, pasted, log, demand);
      } else {
        if settles {
          PumpReceive(was, more, complete);
          PumpSettles(was, complete);
          PumpAgain(Reading(pasted, log), complete);
        }
        if meets {
          AllMeetStop(was, more, complete, demand);
        }
        DisplayStates(None);
      }
    }

    /** Decodes and applies keys until one returns to the caller or only a partial key is left. */
    method Drain(pastedIn: bool, ghost more: seq<Byte>, ghost log: seq<Event>, ghost demand: Demand)
      returns (event: Option<Event>, pasted: bool)
      requires Valid()
      modifies this`outBuf, this`cursorX, this`cursorY, this`maxLine, this`line, this`len, this`pos, this`base,
               this`historyIndex, this`historyPending, this`pasteActive, this`remainder,
               line, history, history.entries
      ensures Valid() && (line == old(line) || fresh(line))
      ensures history.entries == old(history.entries) || fresh(history.entries)
      ensures |remainder| <= old(|remainder|)
      ensures event.Some? ==> pasted == pasteActive && |remainder| < old(|remainder|)
      ensures event == Some(Eof) ==> len == 0
      ensures event.None? ==> Reading(pasted, log) == Pump(old(Reading(pastedIn, log)), complete)
      ensures event.None? ==> remainder == Pump(old(Reading(pastedIn, log)), complete).rest
      ensures var now := Reading(pasted, Log(log, event));
              old(Settles(Receive(Reading(pastedIn, log), more), complete)) ==>
                && Pump(now, complete) == Pump(old(Reading(pastedIn, log)), complete)
                && Settles(Receive(now, more), complete)
      ensures old(AllMeet(Receive(Reading(pastedIn, log), more), complete, demand)) ==>
                AllMeet(Receive(Reading(pasted, Log(log, event)), more), complete, demand)
      ensures old(Displays()) && demand != Anything
              && old(AllMeet(Receive(Reading(pastedIn, log), more), complete, demand)) ==>
                && DisplaysAfter(event)
                && (demand == Kept ==> old(base) <= base && KeepsAbove(old(Shown()), Shown(), old(base)))
    {
      hide *;
      ghost var start, was, row := Reading(pastedIn, log), Shown(), base;
      ghost var settles, meets := Settles(Receive(start, more), complete), AllMeet(Receive(start, more), complete, demand);
      ghost var display := Displays() && demand != Anything && meets;
      AboveSelf(Shown(), base);
      DisplayStates(None);
      event, pasted := None, pastedIn;
      var found := true;
      while found && event.None?
        invariant Valid() && (line == old(line) || fresh(line))
        invariant history.entries == old(history.entries) || fresh(history.entries)
        invariant |remainder| <= old(|remainder|)
        invariant event.Some? ==> found && pasted == pasteActive && |remainder| < old(|remainder|)
        invariant event == Some(Eof) ==> len == 0
        invariant !found ==> Reading(pasted, log) == Pump(start, complete) && remainder == Pump(start, complete).rest
        invariant var now := Reading(pasted, Log(log, event));
                  && (found || settles ==> Pump(now, complete) == Pump(start, complete))
                  && (settles ==> Settles(Receive(now, more), complete))
                  && (meets ==> AllMeet(Receive(now, more), complete, demand))
        invariant display ==> DisplaysAfter(event)
        invariant display && demand == Kept ==> row <= base && KeepsAbove(was, Shown(), row)
        decreases |remainder|, found
      {
        DisplayStates(event);
        ghost var mid, midRow := Shown(), base;
        found, event, pasted := DecodeOne(pasted, more, log, demand);
        if display && demand == Kept {
          KeepsOn(was, mid, Shown(), row, midRow);
        }
      }
    }

    method FlushOutput(ghost pasted: bool, ghost log: seq<Event>)
      requires Valid()
      modifies this`outBuf, this`sent, this`sentText, this`sentBase
      ensures Valid() && outBuf == [] && Reading(pasted, log) == old(Reading(pasted, log))
      ensures Shown() == old(Shown()) && sentText == Abs().text
      ensures old(Displays()) ==> Displays() && Delivered()
      ensures old(Fresh()) ==> Fresh()
    {
      hide FeedAll, Shows, At, PlacesCursorInside, Furnished, Glyphs, Delivered;
      Flush();
      sentText, sentBase := Zipper(Line()[..pos], Line()[pos..]), base;
      if Displays() {
        JustWritten();
      }
    }

    lemma JustWritten()
      requires Valid() && Displays() && outBuf == [] && sentText == Abs().text && sentBase == base
      ensures Delivered()
    {
      hide FeedAll, Shows, At, PlacesCursorInside, Furnished, Glyphs;
      assert sent + outBuf == sent && sentText.Line() == Line();
    }

    /** If that is asked for, what the screen `was` showed above row `row` is still there. */
    ghost predicate KeptSince(was: Screen, row: nat, demand: Demand)
      reads this`sent, this`outBuf, this`base
    {
      demand == Kept ==> row <= base && KeepsAbove(was, Shown(), row)
    }

    lemma KeptSinceIs(was: Screen, row: nat, demand: Demand)
      ensures KeptSince(was, row, demand) <==> (demand == Kept ==> row <= base && KeepsAbove(was, Shown(), row))
    {
    }

    /** Decodes what is there and writes the output, except at end of file. */
    method DrainAndWrite(pastedIn: bool, ghost start: Reader, ghost stream: seq<Byte>, ghost used: nat,
                         ghost log: seq<Event>, ghost demand: Demand, ghost was: Screen, ghost row: nat)
      returns (event: Option<Event>, pasted: bool)
      requires Valid()
      modifies this`outBuf, this`cursorX, this`cursorY, this`maxLine, this`line, this`len, this`pos, this`base,
               this`historyIndex, this`historyPending, this`pasteActive, this`remainder,
               this`sent, this`sentText, this`sentBase, line, history, history.entries
      ensures Valid() && (line == old(line) || fresh(line))
      ensures history.entries == old(history.entries) || fresh(history.entries)
      ensures |remainder| <= old(|remainder|)
      ensures event.Some? ==> pasted == pasteActive && |remainder| < old(|remainder|)
      ensures event == Some(Eof) ==> len == 0
      ensures event != Some(Eof) ==> outBuf == [] && sentText == Abs().text
      ensures event == Some(Eof) ==> sent == old(sent) && sentText == old(sentText) && sentBase == old(sentBase)
      ensures old(Agrees(start, Reading(pastedIn, log), stream, used, complete)) ==>
                Agrees(start, Reading(pasted, Log(log, event)), stream, used, complete)
      ensures event.None? ==> Reading(pasted, log) == Pump(old(Reading(pastedIn, log)), complete)
      ensures event.None? && old(Agrees(start, Reading(pastedIn, log), stream, used, complete)) ==>
                && Pump(Reading(pasted, log), complete) == Reading(pasted, log)
                && sentText == Pump(Receive(start, stream[..used]), complete).ed.text
      ensures old(Tame(Reading(pastedIn, log), stream, used, complete, demand)) ==>
                Tame(Reading(pasted, Log(log, event)), stream, used, complete, demand)
      ensures old(Displays() && Delivered()) && demand != Anything
              && old(Tame(Reading(pastedIn, log), stream, used, complete, demand)) ==>
                && DisplaysAfter(event) && InStep()
                && (event.None? || event.value.Eof? ==> Displays() && Delivered())
                && (old(KeptSince(was, row, demand)) ==> KeptSince(was, row, demand))
    {
      hide *;
      ghost var first, mid, midRow := Reading(pastedIn, log), Shown(), base;
      ghost var agrees := Agrees(start, first, stream, used, complete);
      ghost var more := if used <= |stream| then stream[used..] else [];
      if agrees {
        AgreesSettles(start, first, stream, used, complete);
      }
      TameIs(first, stream, used, complete, demand);
      KeptSinceIs(was, row, demand);
      event, pasted := Drain(pastedIn, more, log, demand);
      if agrees {
        DecodedAgrees(start, first, Reading(pasted, Log(log, event)), stream, used, complete);
      }
      TameIs(Reading(pasted, Log(log, event)), stream, used, complete, demand);
      if KeepsAbove(mid, Shown(), midRow) && KeepsAbove(was, mid, row) && row <= midRow {
        KeepsOn(was, mid, Shown(), row, midRow);
      }
      DisplayStates(event);
      if event != Some(Eof) {
        FlushOutput(pasted, Log(log, event));
        DisplayStates(event);
        ReadingIs(pasted, log);
      }
      KeptSinceIs(was, row, demand);
    }

    lemma ReadingIs(pasted: bool, log: seq<Event>)
      requires Valid()
      ensures Reading(pasted, log) == Reader(Abs(), remainder, pasted, log)
    {
    }

    /** One read from the connection into the free part of the input buffer. All output has been
        written before it. */
    method Fetch(stream: seq<Byte>, used: nat, size: nat, pasted: bool,
                 ghost start: Reader, ghost log: seq<Event>, ghost demand: Demand) returns (n: nat)
      requires Valid() && used <= |stream| && |remainder| <= BufferSize && outBuf == []
      modifies this`remainder
      ensures Valid() && |remainder| <= BufferSize && used + n <= |stream|
      ensures n == Amount(size, old(|remainder|), |stream| - used)
      ensures remainder == old(remainder) + stream[used..used + n] && Abs() == old(Abs())
      ensures old(Displays()) ==> Displays()
      ensures Settles(Receive(start, stream), complete)
              && Agrees(start, old(Reading(pasted, log)), stream, used, complete) ==>
                Agrees(start, Reading(pasted, log), stream, used + n, complete)
      ensures Tame(old(Reading(pasted, log)), stream, used, complete, demand) ==>
                Tame(Reading(pasted, log), stream, used + n, complete, demand)
    {
      hide Valid, Abs, Displays, Fresh, Settles, Pump, Agrees, Tame;
      n := Smallest(size, BufferSize - |remainder|, |stream| - used);
      ghost var now := Reading(pasted, log);
      Keep(remainder + stream[used..used + n]);
      if Settles(Receive(start, stream), complete) && Agrees(start, now, stream, used, complete) {
        ReadMore(start, now, stream, used, n, complete);
      }
      if Tame(now, stream, used, complete, demand) {
        TameMore(now, stream, used, n, complete, demand);
      }
    }

    /** The loop of `readLine`. */
    method ReadOn(stream: seq<Byte>, sizes: seq<nat>, ghost log: seq<Event>, ghost demand: Demand, ghost was: Screen, ghost row: nat)
      returns (event: Option<Event>, used: nat, calls: nat, pasted: bool, ghost seen: nat)
      requires Valid() && |remainder| <= BufferSize
      modifies this`outBuf, this`cursorX, this`cursorY, this`maxLine, this`line, this`len, this`pos, this`base,
               this`historyIndex, this`historyPending, this`pasteActive, this`remainder,
               this`sent, this`sentText, this`sentBase, line, history, history.entries
      ensures Valid() && (line == old(line) || fresh(line))
      ensures history.entries == old(history.entries) || fresh(history.entries)
      ensures |remainder| <= BufferSize && seen <= used <= |stream| && calls <= |sizes| && (calls == 0 ==> used == 0)
      ensures event.Some? ==> pasted == pasteActive && |remainder| < old(|remainder|) + used
      ensures event == Some(Eof) ==> len == 0
      ensures event.None? ==> calls == |sizes|
      ensures event != Some(Eof) ==> outBuf == [] && sentText == Abs().text
      ensures event == Some(Eof) && calls == 0 ==> sentText == old(sentText)
      ensures var start, now := old(Reading(pasteActive, log)), Reading(pasted, Log(log, event));
              Settles(Receive(start, stream), complete) ==>
                && Agrees(start, now, stream, used, complete)
                && SoFar(start, stream, sizes, calls, seen, used, complete)
                && (event.None? ==> Pump(now, complete) == now)
                && (event == Some(Eof) && calls > 0 ==> sentText == Pump(Receive(start, stream[..seen]), complete).ed.text)
      ensures AllMeet(Receive(old(Reading(pasteActive, log)), stream), complete, demand) ==>
                Tame(Reading(pasted, Log(log, event)), stream, used, complete, demand)
      ensures old(Displays() && Delivered() && KeptSince(was, row, demand)) && demand != Anything
              && AllMeet(Receive(old(Reading(pasteActive, log)), stream), complete, demand) ==>
                && DisplaysAfter(event) && InStep()
                && (event.None? || event.value.Eof? ==> Displays() && Delivered())
                && KeptSince(was, row, demand)
    {
      hide *;
      ghost var start := Reading(pasteActive, log);
      ghost var settles := Settles(Receive(start, stream), complete);
      ghost var tame := AllMeet(Receive(start, stream), complete, demand);
      ghost var display := Displays() && Delivered() && KeptSince(was, row, demand) && demand != Anything && tame;
      event, pasted, used, calls, seen := None, pasteActive, 0, 0, 0;
      if settles {
        StartAgrees(start, stream, sizes, complete);
      }
      TameStart(start, stream, complete, demand);
      while true
        invariant Valid() && (line == old(line) || fresh(line)) && event.None?
        invariant history.entries == old(history.entries) || fresh(history.entries)
        invariant |remainder| <= BufferSize && seen <= used <= |stream| && calls <= |sizes|
        invariant |remainder| <= old(|remainder|) + used
        invariant calls == 0 ==> used == 0 && sentText == old(sentText)
        invariant settles ==>
                    && Agrees(start, Reading(pasted, log), stream, used, complete)
                    && SoFar(start, stream, sizes, calls, seen, used, complete)
                    && (calls > 0 ==> sentText == Pump(Receive(start, stream[..seen]), complete).ed.text)
        invariant tame ==> Tame(Reading(pasted, log), stream, used, complete, demand)
        invariant display ==> Displays() && Delivered() && KeptSince(was, row, demand)
        decreases |sizes| - calls
      {
        event, pasted := DrainAndWrite(pasted, start, stream, used, log, demand, was, row);
        if event.Some? || calls == |sizes| {
          return;
        }
        ghost var now := Reading(pasted, log);
        ReadingIs(pasted, log);
        var n := Fetch(stream, used, sizes[calls], pasted, start, log, demand);
        if settles {
          SoFarNext(start, now, stream, sizes, calls, seen, used, n, complete);
        }
        seen, used, calls := used, used + n, calls + 1;
      }
    }

    /** One call of `readLine`. The connection delivers `stream`; its `i`-th read returns at most
        `sizes[i]` bytes, and never more than the input buffer has room for; when `sizes` is
        exhausted the next read fails. `used` bytes were read in `calls` reads, `seen` of them
        before the last one.

        Whatever the sizes, decoding what is left afterwards gives what decoding the bytes read
        would have given at once; and the display is in step when the call returns. All output has
        then been written, except at end of file: what is written then shows the text as it was
        when the last read began. */
    method ReadLine(stream: seq<Byte>, sizes: seq<nat>, ghost log: seq<Event>, ghost demand: Demand)
      returns (event: Option<Event>, used: nat, calls: nat, pasted: bool, ghost seen: nat)
      requires Valid() && |remainder| <= BufferSize
      modifies this`outBuf, this`cursorX, this`cursorY, this`maxLine, this`line, this`len, this`pos, this`base,
               this`historyIndex, this`historyPending, this`pasteActive, this`remainder,
               this`sent, this`sentText, this`sentBase, line, history, history.entries
      ensures Valid() && (line == old(line) || fresh(line))
      ensures history.entries == old(history.entries) || fresh(history.entries)
      ensures |remainder| <= BufferSize && seen <= used <= |stream| && calls <= |sizes| && (calls == 0 ==> used == 0)
      ensures event.Some? ==> pasted == pasteActive && |remainder| < old(|remainder|) + used
      ensures event == Some(Eof) ==> len == 0
      ensures event.None? ==> calls == |sizes|
      ensures event != Some(Eof) ==> outBuf == [] && sentText == Abs().text
      ensures event == Some(Eof) && calls == 0 ==>
                sentText == if old(cursorX == 0 && cursorY == 0) then old(Abs().text) else old(sentText)
      ensures var start, now := old(Reading(pasteActive, log)), Reading(pasted, Log(log, event));
              Settles(Receive(start, stream), complete) ==>
                && Agrees(start, now, stream, used, complete)
                && SoFar(start, stream, sizes, calls, seen, used, complete)
                && (event.None? ==> Pump(now, complete) == now)
                && (event == Some(Eof) && calls > 0 ==> sentText == Pump(Receive(start, stream[..seen]), complete).ed.text)
      ensures AllMeet(Receive(old(Reading(pasteActive, log)), stream), complete, demand) ==>
                Tame(Reading(pasted, Log(log, event)), stream, used, complete, demand)
      ensures old(InStep()) && demand != Anything && AllMeet(Receive(old(Reading(pasteActive, log)), stream), complete, demand) ==>
                && DisplaysAfter(event) && InStep()
                && (event.None? || event.value.Eof? ==> Displays() && Delivered())
                && (demand == Kept ==> old(base) <= base && KeepsAbove(old(Shown()), Shown(), old(base)))
    {
      hide *;
      ghost var start, was, row := Reading(pasteActive, log), Shown(), base;
      DisplayStates(None);
      WritePrompt(pasteActive, log);
      KeptSinceIs(was, row, demand);
      event, used, calls, pasted, seen := ReadOn(stream, sizes, log, demand, was, row);
      KeptSinceIs(was, row, demand);
    }

    /** When the user sees the line as it is: what was last written shows the text of then, so
        exactly if the cursor has not moved since and the glyphs are the same. At end of file the
        line is empty: exactly if only spaces after the cursor have been deleted since. */
    lemma UpToDateExactly()
      requires Valid() && Delivered()
      ensures UpToDate() <==> pos == |sentText.before| && SameGlyphs(sentText.Line(), Line())
      ensures len == 0 ==> (UpToDate() <==> sentText.before == [] && forall k | 0 <= k < |sentText.after| :: sentText.after[k] == Space)
    {
      hide FeedAll, Shows, At, PlacesCursorInside;
      ShownTwice(Sent(), sentBase, prompt, sentText.Line(), Line(), |sentText.before|, pos);
      if len == 0 {
        SameAsBlank(sentText.before, sentText.after);
      }
    }

    /** Calls of `readLine` one after another until a read fails. How much is read, what is
        returned, the editor and the partial key left over are functions of the stream and of the
        sizes of the reads, and the latter matter only to how much is read. */
    method ReadAll(stream: seq<Byte>, sizes: seq<nat>, ghost demand: Demand)
      returns (events: seq<Event>, used: nat, pasted: bool)
      requires Valid() && |remainder| <= BufferSize
      modifies this, line, history, history.entries
      ensures Valid() && (line == old(line) || fresh(line))
      ensures history.entries == old(history.entries) || fresh(history.entries)
      ensures used <= |stream| && outBuf == []
      ensures var start := old(Reading(pasteActive, []));
              Settles(Receive(start, stream), complete) ==>
                && used == Consumed(start, stream, sizes, complete)
                && Reading(pasted, events) == Pump(Receive(start, stream[..used]), complete)
      ensures old(InStep()) && demand != Anything && AllMeet(Receive(old(Reading(pasteActive, [])), stream), complete, demand) ==>
                && Displays()
                && (demand == Kept ==> old(base) <= base && KeepsAbove(old(Shown()), Shown(), old(base)))
    {
      hide *;
      ghost var start, was, row := Reading(pasteActive, []), Shown(), base;
      ghost var settles := Settles(Receive(start, stream), complete);
      ghost var tame := AllMeet(Receive(start, stream), complete, demand);
      ghost var display := InStep() && demand != Anything && tame;
      AboveSelf(was, row);
      events, used, pasted := [], 0, pasteActive;
      var calls: nat := 0;
      if settles {
        StartAgrees(start, stream, sizes, complete);
        NothingRead(start, stream, sizes, complete);
      }
      TameStart(start, stream, complete, demand);
      while true
        invariant Valid() && (line == old(line) || fresh(line)) && pasted == pasteActive
        invariant history.entries == old(history.entries) || fresh(history.entries)
        invariant |remainder| <= BufferSize && used <= |stream| && calls <= |sizes|
        invariant settles ==>
                    && Agrees(start, Reading(pasted, events), stream, used, complete)
                    && used == Consumed(start, stream, sizes[..calls], complete)
        invariant tame ==> Tame(Reading(pasted, events), stream, used, complete, demand)
        invariant display ==> InStep()
        invariant display && demand == Kept ==> row <= base && KeepsAbove(was, Shown(), row)
        decreases |stream| - used + |remainder|
      {
        ghost var now, mid, midRow := Reading(pasted, events), Shown(), base;
        if settles {
          AgreesSettles(start, now, stream, used, complete);
        }
        TameIs(now, stream, used, complete, demand);
        var event, u, c;
        ghost var seen;
        event, u, c, pasted, seen := ReadLine(stream[used..], sizes[calls..], events, demand);
        if settles {
          LaterAgrees(start, now, Reading(pasted, Log(events, event)), stream, used, u, sizes, calls, c, seen, complete);
          AgreesSettles(start, Reading(pasted, Log(events, event)), stream, used + u, complete);
        }
        if display && demand == Kept {
          KeepsOn(was, mid, Shown(), row, midRow);
        }
        TameLater(Reading(pasted, Log(events, event)), stream, used, u, complete, demand);
        DisplayStates(event);
        used, calls := used + u, calls + c;
        if event.None? {
          assert sizes[..calls] == sizes;
          return;
        }
        events := events + [event.value];
      }
    }
  }

  /** Two terminals in the same state, reading the same stream in reads of any sizes, return the
      same lines and end in the same state. */
  method ReadBoth(a: Terminal, b: Terminal, stream: seq<Byte>, sizesA: seq<nat>, sizesB: seq<nat>)
    returns (eventsA: seq<Event>, eventsB: seq<Event>)
    requires a.Valid() && b.Valid() && |a.remainder| <= BufferSize && a.complete == b.complete
    requires {a, a.line, a.history, a.history.entries} !! {b, b.line, b.history, b.history.entries}
    requires a.Reading(a.pasteActive, []) == b.Reading(b.pasteActive, [])
    requires Settles(Receive(a.Reading(a.pasteActive, []), stream), a.complete)
    requires FitsBuffer(a.Reading(a.pasteActive, []), stream, a.complete)
    requires |stream| <= |sizesA| && forall i | 0 <= i < |sizesA| :: sizesA[i] > 0
    requires |stream| <= |sizesB| && forall i | 0 <= i < |sizesB| :: sizesB[i] > 0
    modifies a, a.line, a.history, a.history.entries, b, b.line, b.history, b.history.entries
    ensures a.Valid() && b.Valid()
    ensures eventsA == eventsB && a.Abs() == b.Abs() && a.remainder == b.remainder
    ensures Reader(a.Abs(), a.remainder, false, eventsA).(pasted := false)
            == Pump(Receive(old(a.Reading(a.pasteActive, [])), stream), a.complete).(pasted := false)
  {
    hide *;
    ghost var start := a.Reading(a.pasteActive, []);
    a.ReadingIs(a.pasteActive, []);
    b.ReadingIs(b.pasteActive, []);
    ReadsProgress(start, stream, sizesA, a.complete);
    ReadsProgress(start, stream, sizesB, a.complete);
    var used, pasted;
    eventsA, used, pasted := a.ReadAll(stream, sizesA, Anything);
    a.ReadingIs(pasted, eventsA);
    assert stream[..used] == stream;
    label A:
    eventsB, used, pasted := b.ReadAll(stream, sizesB, Anything);
    b.ReadingIs(pasted, eventsB);
    assert stream[..used] == stream;
  }

  /** A terminal without completion. */
  const Plain: Completer := (line: Text, pos: nat, key: Rune) => None

  lemma PlainIsHarmless()
    ensures 2 <= BufferSize && Replace([]).Line() == [] && Replace([97]).before == [97]
    ensures Glyphs([]) && CompletesToGlyphs(Plain) && PlacesCursorInside(Plain)
  {
  }

  /** One read of a whole stream by a terminal that has decoded all it had. */
  lemma OneRead(start: Reader, now: Reader, stream: seq<Byte>, size: nat, calls: nat, seen: nat, used: nat, event: Option<Event>)
    requires start.rest == [] && start.events == [] && now.events == Terminal.Log([], event)
    requires 0 < |stream| <= size <= BufferSize
    requires Agrees(start, now, stream, used, Plain) && SoFar(start, stream, [size], calls, seen, used, Plain)
    requires event.None? ==> Pump(now, Plain) == now && calls == 1
    ensures calls == 1 && seen == 0 && used == |stream|
    ensures var all := Pump(Receive(start, stream), Plain);
      && Pump(now, Plain) == all
      && if event.None? then all.events == [] else |all.events| > 0 && all.events[0] == event.value
  {
    hide Settles, Pump, Consumed;
    PumpNothing(start, Plain);
    PumpEvents(now, Plain);
    assert stream[..0] == [] && [size][..0] == [] && Receive(start, []) == start && stream[..|stream|] == stream;
    NothingRead(start, stream, [size], Plain);
    if calls == 1 {
      OneSize(start, stream, size);
    }
  }

  lemma OneSize(start: Reader, stream: seq<Byte>, size: nat)
    requires start.rest == [] && |stream| <= size <= BufferSize
    ensures Consumed(start, stream, [size][..1], Plain) == |stream|
  {
    hide Pump;
    PumpNothing(start, Plain);
    assert [size][..1] == [size] && stream[..0] == [] && Receive(start, []) == start;
    assert [size][..0] == [];
  }

  lemma TypeA(start: Reader)
    requires !start.ed.paste && start.ed.text == Replace([]) && start.rest == []
    ensures Settles(Receive(start, [97]), Plain) && AllMeet(Receive(start, [97]), Plain, Displayed)
    ensures Pump(Receive(start, [97]), Plain) == start.(ed := start.ed.(text := Replace([97])), pasted := false)
  {
    var r := Receive(start, [97]);
    assert BytesToKey(r.rest, false) == Decoded(97, []);
    var next := Next(r, Plain);
    PumpNothing(next, Plain);
    EmptyIsPartial(false);
    assert [] + [97] == [97];
  }

  lemma EraseAndEnd(start: Reader)
    requires !start.ed.paste && start.ed.text == Replace([97]) && start.rest == []
    ensures Settles(Receive(start, [127, 4]), Plain) && AllMeet(Receive(start, [127, 4]), Plain, Displayed)
    ensures Pump(Receive(start, [127, 4]), Plain).events == start.events + [Eof]
  {
    var r := Receive(start, [127, 4]);
    assert r.rest == [127, 4];
    assert BytesToKey(r.rest, false) == Decoded(127, [4]);
    var one := Next(r, Plain);
    assert one.ed.text.Line() == [] && one.rest == [4] && !one.ed.paste && one.events == r.events;
    assert BytesToKey(one.rest, false) == Decoded(4, []);
    var two := Next(one, Plain);
    PumpNothing(two, Plain);
    EmptyIsPartial(false);
  }

  /** A run in which end of file leaves the user with a line that is no longer there: an "a" is
      shown, then a backspace and an end of file arrive in one read. */
  method EofHidesErasure(width: Positive) returns (t: Terminal, event: Option<Event>)
    ensures event == Some(Eof) && t.Valid() && t.len == 0 && !t.UpToDate()
  {
    hide *;
    PlainIsHarmless();
    t := new Terminal(width, [], Plain);
    var used, calls, pasted;
    ghost var seen;
    ghost var start := t.Reading(t.pasteActive, []);
    t.ReadingIs(t.pasteActive, []);
    t.DisplayStates(None);
    TypeA(start);
    event, used, calls, pasted, seen := t.ReadLine([97], [1], [], Displayed);
    t.ReadingIs(pasted, Terminal.Log([], event));
    OneRead(start, t.Reading(pasted, Terminal.Log([], event)), [97], 1, calls, seen, used, event);
    start := t.Reading(t.pasteActive, []);
    t.ReadingIs(t.pasteActive, []);
    EraseAndEnd(start);
    event, used, calls, pasted, seen := t.ReadLine([127, 4], [2], [], Displayed);
    t.ReadingIs(pasted, Terminal.Log([], event));
    OneRead(start, t.Reading(pasted, Terminal.Log([], event)), [127, 4], 2, calls, seen, used, event);
    PumpNothing(start, Plain);
    assert [127, 4][..seen] == [] && Receive(start, []) == start by {
      ReceiveNothing(start, [127, 4]);
    }
    t.UpToDateExactly();
  }
}
