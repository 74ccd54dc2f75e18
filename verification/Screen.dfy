/** The far end of the terminal connection: a VT100 screen of fixed width and unbounded
    height. Writing the last column leaves the cursor there with a wrap pending; the
    next glyph goes to the start of the following row. */
module Screen {
  import opened Wrappers
  import opened Utf8
  import opened Arithmetic

  type Text = seq<Rune>

  const Space: Rune := 32
  const Esc: Rune := 27
  const Bracket: Rune := 91
  const CrLf: Text := [13, 10]

  /** Progress through a control sequence `ESC [ digits final`. */
  datatype Mode = Ground | Escaped | Sequence(arg: Option<nat>)

  datatype Screen = Screen(width: nat, cells: map<(nat, nat), Rune>, row: nat, col: nat,
                           wrapPending: bool, mode: Mode)

  function Blank(width: nat): Screen {
    Screen(width, map[], 0, 0, false, Ground)
  }

  function Cell(s: Screen, row: nat, col: nat): Rune {
    if (row, col) in s.cells then s.cells[(row, col)] else Space
  }

  /** Runes that occupy one cell: no C0 or C1 control, no DEL, no surrogate. */
  predicate IsGlyph(r: Rune) {
    32 <= r && r != 127 && !(0x80 <= r < 0xA0) && IsScalar(r)
  }

  predicate Glyphs(t: Text) {
    forall i | 0 <= i < |t| :: IsGlyph(t[i])
  }

  function PutAt(s: Screen, row: nat, col: nat, r: Rune): Screen {
    var written := s.(cells := s.cells[(row, col) := r], row := row);
    if col + 1 < s.width then written.(col := col + 1, wrapPending := false)
    else written.(col := col, wrapPending := true)
  }

  function Put(s: Screen, r: Rune): Screen {
    if s.wrapPending then PutAt(s, s.row + 1, 0, r) else PutAt(s, s.row, s.col, r)
  }

  function Minus(a: nat, b: nat): nat {
    if b <= a then a - b else 0
  }

  /** Effect of a control sequence with its final byte; cursor keys never leave the row. */
  function Control(s: Screen, arg: Option<nat>, final: Rune): Screen {
    var s := s.(mode := Ground);
    var n := if arg.None? || arg.value == 0 then 1 else arg.value;
    match final
    case 65 => s.(row := Minus(s.row, n), wrapPending := false)
    case 66 => s.(row := s.row + n, wrapPending := false)
    case 67 => s.(col := if s.col + n < s.width then s.col + n else Minus(s.width, 1), wrapPending := false)
    case 68 => s.(col := Minus(s.col, n), wrapPending := false)
    case 72 => s.(row := 0, col := 0, wrapPending := false)
    case 74 => if arg == Some(2) then s.(cells := map[]) else s
    case _ => s
  }

  function Digit(r: Rune): Option<nat> {
    if 48 <= r <= 57 then Some(r - 48) else None
  }

  function Feed(s: Screen, r: Rune): Screen {
    match s.mode
    case Ground =>
      if IsGlyph(r) then Put(s, r)
      else if r == Esc then s.(mode := Escaped)
      else if r == 13 then s.(col := 0, wrapPending := false)
      else if r == 10 then s.(row := s.row + 1, wrapPending := false)
      else s
    case Escaped =>
      s.(mode := if r == Bracket then Sequence(None) else Ground)
    case Sequence(arg) =>
      if Digit(r).Some? then
        s.(mode := Sequence(Some((if arg.None? then 0 else arg.value * 10) + Digit(r).value)))
      else
        Control(s, arg, r)
  }

  /** The screen after a whole output stream. */
  function FeedAll(s: Screen, t: Text): Screen {
    if t == [] then s else Feed(FeedAll(s, t[..|t| - 1]), t[|t| - 1])
  }

  lemma {:induction false} FeedConcat(s: Screen, a: Text, b: Text)
    ensures FeedAll(s, a + b) == FeedAll(FeedAll(s, a), b)
  {
    if b == [] {
      assert a + b == a;
    } else {
      var front := b[..|b| - 1];
      assert (a + b)[..|a + b| - 1] == a + front;
      FeedConcat(s, a, front);
    }
  }

  /** Decimal numerals, as the cursor movement sequences carry them. */
  function Itoa(n: nat): Text {
    if n < 10 then [48 + n] else Itoa(n / 10) + [48 + n % 10]
  }

  /** The output that moves the cursor `n` places: `ESC [ A` for one place up, `ESC [ 5 A` for five. */
  function MoveText(n: nat, final: Rune): Text {
    if n == 0 then []
    else if n == 1 then [Esc, Bracket, final]
    else [Esc, Bracket] + Itoa(n) + [final]
  }

  lemma {:induction false} FeedItoa(s: Screen, n: nat)
    requires s.mode == Sequence(None)
    ensures FeedAll(s, Itoa(n)) == s.(mode := Sequence(Some(n)))
  {
    if n < 10 {
      assert FeedAll(s, []) == s;
      assert Itoa(n)[..0] == [];
    } else {
      FeedItoa(s, n / 10);
      assert Itoa(n)[..|Itoa(n)| - 1] == Itoa(n / 10);
    }
  }

  lemma FeedIntroducer(s: Screen)
    requires s.mode.Ground?
    ensures FeedAll(s, [Esc, Bracket]) == s.(mode := Sequence(None))
  {
    var t := [Esc, Bracket];
    assert t[..1] == [Esc] && [Esc][..0] == [];
    assert FeedAll(s, [Esc]) == Feed(s, Esc);
  }

  /** The screen reads back exactly the distance the editor meant. */
  lemma FeedMove(s: Screen, n: nat, final: Rune)
    requires s.mode.Ground? && Digit(final).None?
    ensures FeedAll(s, MoveText(n, final)) == if n == 0 then s else Control(s, Some(n), final)
  {
    hide FeedAll, Itoa;
    if n == 0 {
      FeedNone(s);
    } else {
      var open := [Esc, Bracket];
      FeedIntroducer(s);
      if n == 1 {
        FeedConcat(s, open, [final]);
        assert open + [final] == MoveText(n, final);
        FeedOne(s.(mode := Sequence(None)), final);
      } else {
        FeedConcat(s, open, Itoa(n));
        FeedItoa(s.(mode := Sequence(None)), n);
        FeedConcat(s, open + Itoa(n), [final]);
        FeedOne(s.(mode := Sequence(Some(n))), final);
      }
    }
  }

  lemma FeedNone(s: Screen)
    ensures FeedAll(s, []) == s
  {
  }

  lemma FeedOne(s: Screen, r: Rune)
    ensures FeedAll(s, [r]) == Feed(s, r)
  {
    assert [r][..0] == [];
  }

  /** Where the `i`-th cell counted from the start of row `base` lies. */
  function CellAt(s: Screen, base: nat, i: nat): Rune
    requires s.width > 0
  {
    Cell(s, base + i / s.width, i % s.width)
  }

  /** The real cursor stands on the `i`-th cell counted from row `base`. */
  predicate At(s: Screen, base: nat, i: nat) {
    s.width > 0 && s.mode.Ground? && !s.wrapPending && s.row == base + i / s.width && s.col == i % s.width
  }

  /** `s'` shows what `s` showed, with `t` written from the `i`-th cell on. */
  ghost predicate Wrote(s: Screen, s': Screen, base: nat, i: nat, t: Text) {
    && s.width > 0 && s'.width == s.width
    && (forall k: nat :: CellAt(s', base, k) == if i <= k < i + |t| then t[k - i] else CellAt(s, base, k))
    && (forall row: nat, col: nat | row < base :: Cell(s', row, col) == Cell(s, row, col))
  }

  /** From row `base` on the screen shows `t` and nothing else. */
  ghost predicate Shows(s: Screen, base: nat, t: Text) {
    && s.width > 0
    && forall k: nat :: CellAt(s, base, k) == if k < |t| then t[k] else Space
  }

  lemma CellsDiffer(base: nat, i: nat, k: nat, w: nat)
    requires w > 0 && i != k
    ensures (base + i / w, i % w) != (base + k / w, k % w)
  {
    if k / w == i / w && k % w == i % w {
      PositionUnique(i, k, w);
    }
  }

  lemma OtherCell(s: Screen, s': Screen, base: nat, i: nat, r: Rune, k: nat)
    requires s.width > 0 && s'.width == s.width && k != i
    requires s'.cells == s.cells[(base + i / s.width, i % s.width) := r]
    ensures CellAt(s', base, k) == CellAt(s, base, k)
  {
    CellsDiffer(base, i, k, s.width);
  }

  lemma ChangedCell(s: Screen, s': Screen, base: nat, i: nat, r: Rune)
    requires s.width > 0 && s'.width == s.width
    requires s'.cells == s.cells[(base + i / s.width, i % s.width) := r]
    ensures CellAt(s', base, i) == r
    ensures forall row: nat, col: nat | row < base :: Cell(s', row, col) == Cell(s, row, col)
  {
    var below := i / s.width;
    assert below >= 0;
  }

  /** Writing one cell changes that cell only. */
  lemma PutWrites(s: Screen, s': Screen, base: nat, i: nat, r: Rune)
    requires s.width > 0 && s'.width == s.width
    requires s'.cells == s.cells[(base + i / s.width, i % s.width) := r]
    ensures Wrote(s, s', base, i, [r])
  {
    hide CellAt, Cell;
    ChangedCell(s, s', base, i, r);
    forall k: nat | k != i
      ensures CellAt(s', base, k) == CellAt(s, base, k)
    {
      OtherCell(s, s', base, i, r, k);
    }
  }

  lemma CellSame(s: Screen, s': Screen, base: nat, k: nat)
    requires s.width > 0 && s'.cells == s.cells && s'.width == s.width
    ensures CellAt(s', base, k) == CellAt(s, base, k)
  {
  }

  lemma WroteNothing(s: Screen, base: nat, i: nat)
    requires s.width > 0
    ensures Wrote(s, s, base, i, [])
  {
  }

  lemma WroteConcat(s0: Screen, s1: Screen, s2: Screen, base: nat, i: nat, a: Text, b: Text)
    requires Wrote(s0, s1, base, i, a) && Wrote(s1, s2, base, i + |a|, b)
    ensures Wrote(s0, s2, base, i, a + b)
  {
  }

  /** The cursor after writing up to cell `j`: on cell `j`, or still on the cell before it
      with a wrap pending if that one ends its row. */
  predicate Past(s: Screen, base: nat, j: nat) {
    if j > 0 && s.width > 0 && j % s.width == 0 then
      s.mode.Ground? && s.wrapPending && s.row == base + (j - 1) / s.width && s.col == s.width - 1
    else
      At(s, base, j)
  }

  /** One glyph, written at the cursor or across a pending wrap. */
  lemma FeedGlyph(s: Screen, base: nat, i: nat, r: Rune)
    requires IsGlyph(r) && (At(s, base, i) || (s.width > 0 && Past(s, base, i)))
    ensures Past(Feed(s, r), base, i + 1)
    ensures Wrote(s, Feed(s, r), base, i, [r])
  {
    var w := s.width;
    DivModStep(i, w);
    if i > 0 { DivModStep(i - 1, w); }
    assert Feed(s, r).cells == s.cells[(base + i / w, i % w) := r];
    PutWrites(s, Feed(s, r), base, i, r);
  }

  /** A run of glyphs lands on consecutive cells, wrapping at the right edge. */
  lemma {:induction false} FeedGlyphs(s: Screen, base: nat, i: nat, t: Text)
    requires At(s, base, i) && Glyphs(t)
    ensures Wrote(s, FeedAll(s, t), base, i, t)
    ensures if t == [] then FeedAll(s, t) == s else Past(FeedAll(s, t), base, i + |t|)
  {
    if t != [] {
      var front, last := t[..|t| - 1], t[|t| - 1];
      FeedGlyphs(s, base, i, front);
      var mid := FeedAll(s, front);
      FeedGlyph(mid, base, i + |front|, last);
      WroteConcat(s, mid, FeedAll(s, t), base, i, front, [last]);
      assert front + [last] == t;
    }
  }

  /** What the editor adds after writing `places` glyphs up to cell `j`. */
  function RowEnd(places: nat, j: nat, w: nat): Text
    requires w > 0
  {
    if places > 0 && j % w == 0 then CrLf else []
  }

  /** Glyphs followed by the editor's line feed at a row end: the cursor is where it belongs. */
  lemma FeedRun(s: Screen, base: nat, i: nat, t: Text)
    requires At(s, base, i) && Glyphs(t)
    ensures var s' := FeedAll(FeedAll(s, t), RowEnd(|t|, i + |t|, s.width));
            At(s', base, i + |t|) && Wrote(s, s', base, i, t) && s'.width == s.width
  {
    hide FeedAll, Wrote;
    FeedGlyphs(s, base, i, t);
    var mid := FeedAll(s, t);
    var j := i + |t|;
    if |t| > 0 && j % s.width == 0 {
      EndRow(mid, base, j);
      WroteSame(s, mid, FeedAll(mid, CrLf), base, i, t);
    } else {
      FeedNone(mid);
    }
    WroteWidth(s, mid, base, i, t);
  }

  lemma WroteWidth(s: Screen, s': Screen, base: nat, i: nat, t: Text)
    requires Wrote(s, s', base, i, t)
    ensures s'.width == s.width
  {
  }

  /** A line feed after a full row. */
  lemma EndRow(s: Screen, base: nat, j: nat)
    requires s.width > 0 && j > 0 && j % s.width == 0 && Past(s, base, j)
    ensures var s' := FeedAll(s, CrLf); At(s', base, j) && s'.cells == s.cells && s'.width == s.width
  {
    DivModStep(j - 1, s.width);
    assert CrLf[..1] == [13] && CrLf[1] == 10;
    FeedOne(s, 13);
    assert FeedAll(s, CrLf) == Feed(Feed(s, 13), 10);
  }

  lemma WroteSame(s0: Screen, s1: Screen, s2: Screen, base: nat, i: nat, t: Text)
    requires Wrote(s0, s1, base, i, t) && s2.cells == s1.cells && s2.width == s1.width
    ensures Wrote(s0, s2, base, i, t)
  {
    assert forall row: nat, col: nat :: Cell(s2, row, col) == Cell(s1, row, col);
    hide CellAt, Cell;
    forall k: nat
      ensures CellAt(s2, base, k) == CellAt(s1, base, k)
    {
      CellSame(s1, s2, base, k);
    }
  }
}
