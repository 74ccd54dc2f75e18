/** What the editor's output sequences do to the screen, for any width. */
module Display {
  import opened Wrappers
  import opened Utf8
  import opened Screen
  import opened Arithmetic

  function Spaces(n: nat): Text {
    seq(n, _ => Space)
  }

  /** The output of one relative cursor movement. */
  function MoveSeq(up: nat, down: nat, left: nat, right: nat): Text {
    MoveText(up, 65) + MoveText(down, 66) + MoveText(right, 67) + MoveText(left, 68)
  }

  /** The cursor after such a movement, as long as it stays within the row. */
  function Moved(s: Screen, up: nat, down: nat, left: nat, right: nat): Screen {
    s.(row := Minus(s.row, up) + down, col := Minus(s.col + right, left))
  }

  lemma FeedVertical(s: Screen, up: nat, down: nat)
    requires s.mode.Ground? && !s.wrapPending
    ensures FeedAll(s, MoveText(up, 65) + MoveText(down, 66)) == s.(row := Minus(s.row, up) + down)
  {
    FeedConcat(s, MoveText(up, 65), MoveText(down, 66));
    FeedMove(s, up, 65);
    FeedMove(FeedAll(s, MoveText(up, 65)), down, 66);
  }

  lemma FeedHorizontal(s: Screen, left: nat, right: nat)
    requires s.mode.Ground? && !s.wrapPending && s.col + right < s.width
    ensures FeedAll(s, MoveText(right, 67) + MoveText(left, 68)) == s.(col := Minus(s.col + right, left))
  {
    FeedConcat(s, MoveText(right, 67), MoveText(left, 68));
    FeedMove(s, right, 67);
    FeedMove(FeedAll(s, MoveText(right, 67)), left, 68);
  }

  lemma FeedMoveSeq(s: Screen, up: nat, down: nat, left: nat, right: nat)
    requires s.mode.Ground? && !s.wrapPending && s.col + right < s.width
    ensures FeedAll(s, MoveSeq(up, down, left, right)) == Moved(s, up, down, left, right)
  {
    var v, h := MoveText(up, 65) + MoveText(down, 66), MoveText(right, 67) + MoveText(left, 68);
    assert MoveSeq(up, down, left, right) == v + h;
    FeedConcat(s, v, h);
    FeedVertical(s, up, down);
    FeedHorizontal(s.(row := Minus(s.row, up) + down), left, right);
  }

  lemma SameCells(s: Screen, s': Screen, base: nat, t: Text)
    requires s'.cells == s.cells && s'.width == s.width
    ensures Shows(s, base, t) ==> Shows(s', base, t)
    ensures s.width > 0 ==> Wrote(s, s', base, 0, [])
  {
    if s.width > 0 {
      assert forall k: nat :: CellAt(s', base, k) == CellAt(s, base, k);
    }
  }

  /** The rows above the current line are left alone. */
  ghost predicate KeepsAbove(s: Screen, s': Screen, base: nat) {
    forall row: nat, col: nat | row < base :: Cell(s', row, col) == Cell(s, row, col)
  }

  /** Rewriting everything after a common front shows the new text, provided the text and
      the blanks written after it cover what was there. */
  lemma Overwrite(s: Screen, s': Screen, base: nat, front: Text, was: Text, now: Text, blanks: nat)
    requires Shows(s, base, front + was)
    requires Wrote(s, s', base, |front|, now + Spaces(blanks))
    requires |was| <= |now| + blanks
    ensures Shows(s', base, front + now) && KeepsAbove(s, s', base)
  {
    forall k: nat
      ensures CellAt(s', base, k) == if k < |front + now| then (front + now)[k] else Space
    {
      var before := CellAt(s, base, k);
      assert before == if k < |front + was| then (front + was)[k] else Space;
    }
  }

  /** Cursor movements before and after a write do not matter to what is shown. */
  lemma WroteBetweenMoves(s0: Screen, s1: Screen, s2: Screen, s3: Screen, base: nat, i: nat, t: Text)
    requires s1.cells == s0.cells && s1.width == s0.width
    requires Wrote(s1, s2, base, i, t)
    requires s3.cells == s2.cells && s3.width == s2.width
    ensures Wrote(s0, s3, base, i, t)
  {
    assert forall k: nat :: CellAt(s1, base, k) == CellAt(s0, base, k);
    assert forall k: nat :: CellAt(s3, base, k) == CellAt(s2, base, k);
    assert forall row: nat, col: nat :: Cell(s3, row, col) == Cell(s2, row, col);
    assert forall row: nat, col: nat :: Cell(s1, row, col) == Cell(s0, row, col);
  }

  /** The same glyphs, but for spaces at the end. */
  ghost predicate SameGlyphs(a: Text, b: Text) {
    forall k: nat :: Padded(a, k) == Padded(b, k)
  }

  function Padded(t: Text, k: nat): Rune {
    if k < |t| then t[k] else Space
  }

  /** A screen that shows one text after the prompt, with the cursor on position `i`, shows another
      with the cursor on `j` exactly if the glyphs and the positions are the same. */
  lemma ShownTwice(s: Screen, base: nat, prompt: Text, a: Text, b: Text, i: nat, j: nat)
    requires At(s, base, |prompt| + i) && Shows(s, base, prompt + a)
    ensures At(s, base, |prompt| + j) && Shows(s, base, prompt + b) <==> i == j && SameGlyphs(a, b)
  {
    if At(s, base, |prompt| + j) {
      PositionUnique(|prompt| + i, |prompt| + j, s.width);
    }
    if Shows(s, base, prompt + b) {
      forall k: nat
        ensures Padded(a, k) == Padded(b, k)
      {
        assert CellAt(s, base, |prompt| + k) == Padded(a, k);
      }
    }
    if SameGlyphs(a, b) {
      forall k: nat
        ensures CellAt(s, base, k) == if k < |prompt + b| then (prompt + b)[k] else Space
      {
        if k >= |prompt| {
          assert Padded(a, k - |prompt|) == Padded(b, k - |prompt|);
        }
      }
    }
  }

  lemma SameAsBlank(before: Text, after: Text)
    ensures before == [] ==> (SameGlyphs(before + after, []) <==> forall k | 0 <= k < |after| :: after[k] == Space)
  {
    if before == [] && SameGlyphs(before + after, []) {
      forall k | 0 <= k < |after|
        ensures after[k] == Space
      {
        assert Padded(before + after, k) == Padded([], k);
      }
    }
  }

  /** The redraw after cutting positions `p` to `q` out of the line. */
  lemma CutRedrawn(s: Screen, s': Screen, base: nat, prompt: Text, line: Text, p: nat, q: nat)
    requires p <= q <= |line|
    requires Shows(s, base, prompt + line)
    requires Wrote(s, s', base, |prompt| + p, line[q..] + Spaces(q - p))
    ensures Shows(s', base, prompt + (line[..p] + line[q..])) && KeepsAbove(s, s', base)
  {
    var front := prompt + line[..p];
    assert prompt + line == front + line[p..];
    assert prompt + (line[..p] + line[q..]) == front + line[q..];
    Overwrite(s, s', base, front, line[p..], line[q..], q - p);
  }

  /** The redraw after inserting `key` at position `p`. */
  lemma InsertRedrawn(s: Screen, s': Screen, base: nat, prompt: Text, line: Text, p: nat, key: Rune)
    requires p <= |line|
    requires Shows(s, base, prompt + line)
    requires Wrote(s, s', base, |prompt| + p, [key] + line[p..])
    ensures Shows(s', base, prompt + (line[..p] + [key] + line[p..])) && KeepsAbove(s, s', base)
  {
    var front := prompt + line[..p];
    var tail := [key] + line[p..];
    assert prompt + line == front + line[p..];
    assert prompt + (line[..p] + [key] + line[p..]) == front + tail;
    assert tail + Spaces(0) == tail;
    Overwrite(s, s', base, front, line[p..], tail, 0);
  }

  lemma AboveSelf(s: Screen, base: nat)
    ensures KeepsAbove(s, s, base)
  {
  }

  /** What is kept above a row is kept above every row before it. */
  lemma KeepsFewer(s: Screen, s': Screen, base: nat, later: nat)
    requires KeepsAbove(s, s', later) && base <= later
    ensures KeepsAbove(s, s', base)
  {
  }

  lemma KeepsOn(s0: Screen, s1: Screen, s2: Screen, base: nat, later: nat)
    requires KeepsAbove(s0, s1, base) && KeepsAbove(s1, s2, later) && base <= later
    ensures KeepsAbove(s0, s2, base)
  {
  }

  lemma NothingAbove(s: Screen, s': Screen)
    ensures KeepsAbove(s, s', 0)
  {
  }

  /** A cursor movement after a redraw. */
  lemma CellsKept(s0: Screen, s1: Screen, s2: Screen, base: nat, t: Text)
    requires s2.cells == s1.cells && s2.width == s1.width
    ensures Shows(s1, base, t) ==> Shows(s2, base, t)
    ensures KeepsAbove(s0, s1, base) ==> KeepsAbove(s0, s2, base)
  {
    SameCells(s1, s2, base, t);
    assert forall row: nat, col: nat :: Cell(s2, row, col) == Cell(s1, row, col);
  }

  /** On the first cell of the line there can be no prompt before the cursor. */
  lemma PromptInvisible(i: nat, w: nat)
    requires w > 0 && i % w == 0 && i / w == 0
    ensures i == 0
  {
    assert i == i / w * w + i % w;
  }

  /** Writing nothing changes nothing. */
  lemma CellsUntouched(s: Screen, s': Screen, base: nat, t: Text, nothing: Text)
    requires Wrote(s, s', base, 0, nothing) && nothing == []
    ensures Shows(s, base, t) ==> Shows(s', base, t)
    ensures KeepsAbove(s, s', base)
  {
  }

  /** The row where the next line starts once the cursor, at the end of the text on cell
      `i`, has been sent a line feed. */
  function NextBase(base: nat, i: nat, w: nat): nat
    requires w > 0
  {
    base + i / w + 1
  }

  lemma FeedNewLine(s: Screen, base: nat, t: Text)
    requires At(s, base, |t|) && Shows(s, base, t)
    ensures var s' := FeedAll(s, CrLf);
            var base' := NextBase(base, |t|, s.width);
            At(s', base', 0) && Shows(s', base', []) && s'.cells == s.cells && s'.width == s.width
  {
    var s' := FeedAll(s, CrLf);
    assert CrLf[..1] == [13] && CrLf[1] == 10;
    FeedOne(s, 13);
    assert s' == Feed(Feed(s, 13), 10);
    var w := s.width;
    var base' := NextBase(base, |t|, w);
    forall k: nat ensures CellAt(s', base', k) == Space {
      var rows := |t| / w + 1;
      var i := rows * w + k;
      RowsBelow(|t|, w, k);
      assert CellAt(s, base, i) == Space;
    }
  }

  lemma RowsBelow(n: nat, w: nat, k: nat)
    requires w > 0
    ensures var i := (n / w + 1) * w + k;
            i >= n && i / w == n / w + 1 + k / w && i % w == k % w
  {
    var q, rows := k / w, n / w + 1;
    assert n == n / w * w + n % w && k == q * w + k % w;
    Distribute(n / w, 1, w);
    Distribute(rows, q, w);
    QuotientIs(rows * w + k, w, rows + q, k % w);
  }

  /** Erase everything and go home. */
  const ClearHome: Text := [Esc, Bracket, 50, 74, Esc, Bracket, 72]

  lemma FeedErase(s: Screen)
    requires s.mode.Ground?
    ensures FeedAll(s, [Esc, Bracket, 50, 74]) == s.(cells := map[])
  {
    FeedIntroducer(s);
    FeedConcat(s, [Esc, Bracket], [50, 74]);
    assert [Esc, Bracket, 50, 74] == [Esc, Bracket] + [50, 74];
    var s0 := s.(mode := Sequence(None));
    assert [50, 74][..1] == [50];
    FeedOne(s0, 50);
    assert FeedAll(s0, [50, 74]) == Feed(s0.(mode := Sequence(Some(2))), 74);
  }

  lemma FeedClearHome(s: Screen)
    requires s.mode.Ground? && s.width > 0
    ensures var s' := FeedAll(s, ClearHome);
            At(s', 0, 0) && Shows(s', 0, []) && s'.width == s.width
  {
    var erase, home := [Esc, Bracket, 50, 74], [Esc, Bracket, 72];
    assert ClearHome == erase + home;
    FeedConcat(s, erase, home);
    FeedErase(s);
    var s1 := FeedAll(s, erase);
    FeedMove(s1, 1, 72);
    var s2 := FeedAll(s1, home);
    assert s2 == s1.(row := 0, col := 0, wrapPending := false);
    assert forall k: nat :: CellAt(s2, 0, k) == Space;
  }
}
