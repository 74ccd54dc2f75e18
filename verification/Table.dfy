/** Column widths of a table that has to fit a terminal: every column starts from the width
    of its data, and what is missing or too much is dealt out one step per column and round. */
module Table {

  /** Fixed width if not 0, least width, greatest width if not 0. */
  datatype Limits = Limits(size: int, min: int, max: int)

  type Widths = map<string, int>

  /** Columns without an entry count as empty. */
  function Width(w: Widths, k: string): int {
    if k in w then w[k] else 0
  }

  /** Whether a column of width `w` may take one more step, growing (1) or shrinking (-1). */
  predicate CanStep(l: Limits, w: int, step: int) {
    l.size == 0 && (if step == 1 then l.max == 0 || w < l.max else w > l.min)
  }

  predicate InRange(l: Limits, w: int) {
    l.min <= w && (l.max == 0 || w <= l.max)
  }

  function Distance(a: int, b: int): nat {
    if a < b then b - a else a - b
  }

  /** Number of steps a column has taken. */
  function Moved(w0: Widths, w: Widths, step: int, k: string): int {
    if step == 1 then Width(w, k) - Width(w0, k) else Width(w0, k) - Width(w, k)
  }

  /** `b` is `a` or further on in the direction of `step`. */
  predicate Ahead(step: int, a: int, b: int) {
    if step == 1 then a <= b else b <= a
  }

  /** Only columns with limits move, only in the direction of `step`, and no step was taken
      that the limits forbid. */
  ghost predicate WithinLimits(limits: map<string, Limits>, w0: Widths, w: Widths, step: int) {
    && (forall k | k !in limits :: Width(w, k) == Width(w0, k))
    && (forall k | k in limits :: Moved(w0, w, step, k) >= 0)
    && (forall k | k in limits && Moved(w0, w, step, k) > 0 :: CanStep(limits[k], Width(w, k) - step, step))
  }

  /** No column is more than one step ahead of one that could still take a step. */
  ghost predicate Level(limits: map<string, Limits>, w0: Widths, w: Widths, step: int) {
    forall j, k | j in limits && k in limits && CanStep(limits[j], Width(w, j), step) ::
      Moved(w0, w, step, k) <= Moved(w0, w, step, j) + 1
  }

  /** Every column has taken all the steps it may. */
  ghost predicate Pinned(limits: map<string, Limits>, w: Widths, step: int) {
    forall k | k in limits :: !CanStep(limits[k], Width(w, k), step)
  }

  /** Total width of a set of columns. */
  ghost function Total(w: Widths, ks: set<string>): int {
    if ks == {} then 0 else var k :| k in ks; Width(w, k) + Total(w, ks - {k})
  }

  lemma {:induction false} TotalSplit(w: Widths, ks: set<string>, k: string)
    requires k in ks
    ensures Total(w, ks) == Width(w, k) + Total(w, ks - {k})
  {
    var j :| j in ks && Total(w, ks) == Width(w, j) + Total(w, ks - {j});
    if j != k {
      TotalSplit(w, ks - {j}, k);
      TotalSplit(w, ks - {k}, j);
      assert ks - {j} - {k} == ks - {k} - {j};
    }
  }

  lemma {:induction false} TotalSame(w: Widths, w': Widths, ks: set<string>)
    requires forall k | k in ks :: Width(w', k) == Width(w, k)
    ensures Total(w', ks) == Total(w, ks)
  {
    if ks != {} {
      var k :| k in ks;
      TotalSplit(w, ks, k);
      TotalSplit(w', ks, k);
      TotalSame(w, w', ks - {k});
    }
  }

  lemma TotalUpdate(w: Widths, ks: set<string>, k: string, v: int)
    requires k in ks
    ensures Total(w[k := v], ks) == Total(w, ks) - Width(w, k) + v
  {
    TotalSplit(w, ks, k);
    TotalSplit(w[k := v], ks, k);
    TotalSame(w, w[k := v], ks - {k});
  }

  lemma {:induction false} TotalOrder(w: Widths, w': Widths, ks: set<string>, step: int)
    requires forall k | k in ks :: Ahead(step, Width(w, k), Width(w', k))
    ensures Ahead(step, Total(w, ks), Total(w', ks))
  {
    if ks != {} {
      var k :| k in ks;
      TotalSplit(w, ks, k);
      TotalSplit(w', ks, k);
      TotalOrder(w, w', ks - {k}, step);
    }
  }

  /** The outcome of dealing out the difference between the data's width and the target. */
  ghost predicate Allocated(limits: map<string, Limits>, cols: set<string>, w0: Widths, w: Widths, target: int) {
    var step := if Total(w0, cols) <= target then 1 else -1;
    && WithinLimits(limits, w0, w, step)
    && Level(limits, w0, w, step)
    && Ahead(step, Total(w, cols), target)
    && (Total(w, cols) == target || Pinned(limits, w, step))
  }

  /** The target is met unless there is no room: every column that is not fixed is as wide, or as
      narrow, as its limits let it be. */
  lemma TargetMissedExactly(limits: map<string, Limits>, cols: set<string>, w0: Widths, w: Widths, target: int, k: string)
    requires Allocated(limits, cols, w0, w, target) && k in limits && limits[k].size == 0
    ensures Total(w, cols) < target ==> limits[k].max != 0 && Width(w, k) >= limits[k].max
    ensures Total(w, cols) > target ==> Width(w, k) <= limits[k].min
  {
  }

  /** A drawn row: a border, and for each column padding, the cell, padding and a border. */
  function RowWidth(widths: seq<int>): int {
    if widths == [] then 1 else RowWidth(widths[..|widths| - 1]) + 1 + widths[|widths| - 1] + 1 + 1
  }

  function SumOf(widths: seq<int>): int {
    if widths == [] then 0 else SumOf(widths[..|widths| - 1]) + widths[|widths| - 1]
  }

  /** Two allocations for the same data and target differ by at most one in every column: the
      order in which a round visits the columns decides no more than who gets the last steps. */
  lemma AllocationsAgree(limits: map<string, Limits>, cols: set<string>, w0: Widths, f: Widths, g: Widths, target: int, k: string)
    requires limits.Keys <= cols
    requires Allocated(limits, cols, w0, f, target) && Allocated(limits, cols, w0, g, target)
    ensures -1 <= Width(f, k) - Width(g, k) <= 1
  {
    var step := if Total(w0, cols) <= target then 1 else -1;
    if k in limits {
      NotAheadByTwo(limits, cols, w0, f, g, target, k, step);
      NotAheadByTwo(limits, cols, w0, g, f, target, k, step);
    }
  }

  /** A column two steps ahead would put every column ahead, and the total with them. */
  lemma NotAheadByTwo(limits: map<string, Limits>, cols: set<string>, w0: Widths, f: Widths, g: Widths, target: int, k: string, step: int)
    requires step == if Total(w0, cols) <= target then 1 else -1
    requires k in limits && limits.Keys <= cols
    requires Allocated(limits, cols, w0, f, target) && Allocated(limits, cols, w0, g, target)
    ensures Moved(w0, f, step, k) <= Moved(w0, g, step, k) + 1
  {
    if Moved(w0, f, step, k) >= Moved(w0, g, step, k) + 2 {
      assert CanStep(limits[k], Width(g, k), step);
      forall j | j in cols ensures Ahead(step, Width(g, j), Width(f, j)) {
        if j in limits && Moved(w0, f, step, j) < Moved(w0, g, step, j) {
          assert Moved(w0, g, step, j) <= Moved(w0, g, step, k) + 1;
          assert CanStep(limits[j], Width(f, j), step);
        }
      }
      TotalSplit(f, cols, k);
      TotalSplit(g, cols, k);
      TotalOrder(g, f, cols - {k}, step);
    }
  }

  /** Limits are kept by columns that start within them, and fixed columns never move. */
  lemma AllocationKeepsRange(limits: map<string, Limits>, cols: set<string>, w0: Widths, w: Widths, target: int, k: string)
    requires Allocated(limits, cols, w0, w, target) && k in limits
    ensures limits[k].size != 0 ==> Width(w, k) == Width(w0, k)
    ensures limits[k].size == 0 && InRange(limits[k], Width(w0, k)) ==> InRange(limits[k], Width(w, k))
  {
    var step := if Total(w0, cols) <= target then 1 else -1;
    assert Moved(w0, w, step, k) >= 0;
  }

  /** A column ends up within its limits for every target if and only if it starts within them.
      `Clamp` starts every column that has data within them; a column without data starts at 0. */
  lemma RangeKeptExactly(limits: map<string, Limits>, cols: set<string>, w0: Widths, k: string)
    requires k in limits && limits[k].size == 0
    ensures (forall w, target | Allocated(limits, cols, w0, w, target) :: InRange(limits[k], Width(w, k)))
            <==> InRange(limits[k], Width(w0, k))
  {
    if InRange(limits[k], Width(w0, k)) {
      forall w, target | Allocated(limits, cols, w0, w, target) ensures InRange(limits[k], Width(w, k)) {
        AllocationKeepsRange(limits, cols, w0, w, target, k);
      }
    } else {
      assert Allocated(limits, cols, w0, w0, Total(w0, cols));
    }
  }

  /** The state within round `r`: the columns of `todo` are still to take their step. */
  ghost predicate InRound(limits: map<string, Limits>, w0: Widths, w: Widths, step: int, r: nat, todo: set<string>) {
    && (forall k | k in todo :: k in limits && Moved(w0, w, step, k) == r && CanStep(limits[k], Width(w, k), step))
    && (forall k | k in limits :: Moved(w0, w, step, k) <= r + 1)
    && (forall k | k in limits && CanStep(limits[k], Width(w, k), step) && k !in todo :: Moved(w0, w, step, k) == r + 1)
  }

  /** One step changes the width of one column. */
  lemma StepEffect(w0: Widths, w: Widths, step: int, k: string)
    requires step == 1 || step == -1
    ensures var w' := w[k := Width(w, k) + step];
            && (forall j | j != k :: Width(w', j) == Width(w, j) && Moved(w0, w', step, j) == Moved(w0, w, step, j))
            && Width(w', k) == Width(w, k) + step
            && Moved(w0, w', step, k) == Moved(w0, w, step, k) + 1
  {
  }

  lemma TakeStep(limits: map<string, Limits>, w0: Widths, w: Widths, step: int, r: nat, todo: set<string>, k: string)
    requires step == 1 || step == -1
    requires InRound(limits, w0, w, step, r, todo) && k in todo && WithinLimits(limits, w0, w, step)
    ensures var w' := w[k := Width(w, k) + step];
            InRound(limits, w0, w', step, r, todo - {k}) && WithinLimits(limits, w0, w', step)
  {
    hide Width, Moved, CanStep;
    StepEffect(w0, w, step, k);
    var w' := w[k := Width(w, k) + step];
    assert forall j | j !in limits :: j != k && Width(w', j) == Width(w, j);
  }

  /** At the start of round `r` every column that may still move has moved `r` steps. */
  ghost predicate RoundStart(limits: map<string, Limits>, w0: Widths, w: Widths, step: int, r: nat) {
    && (forall k | k in limits :: Moved(w0, w, step, k) <= r)
    && (forall k | k in limits && CanStep(limits[k], Width(w, k), step) :: Moved(w0, w, step, k) == r)
  }

  lemma FirstRound(limits: map<string, Limits>, w0: Widths, step: int)
    ensures WithinLimits(limits, w0, w0, step) && Level(limits, w0, w0, step) && RoundStart(limits, w0, w0, step, 0)
  {
  }

  /** Columns without an entry add nothing to the total. */
  lemma {:induction false} EmptyColumns(w: Widths, ks: set<string>)
    requires w.Keys <= ks
    ensures Total(w, ks) == Total(w, w.Keys)
    decreases ks
  {
    if ks != w.Keys {
      var k :| k in ks && k !in w.Keys;
      TotalSplit(w, ks, k);
      EmptyColumns(w, ks - {k});
    }
  }

  lemma BeginRound(limits: map<string, Limits>, w0: Widths, w: Widths, step: int, r: nat, cols: seq<string>)
    requires RoundStart(limits, w0, w, step, r)
    requires forall k :: k in cols <==> k in limits && CanStep(limits[k], Width(w, k), step)
    ensures InRound(limits, w0, w, step, r, set k | k in cols)
    ensures cols == [] ==> Pinned(limits, w, step)
  {
    if cols == [] {
      forall k | k in limits ensures !CanStep(limits[k], Width(w, k), step) {
        assert k !in cols;
      }
    }
  }

  lemma EndRound(limits: map<string, Limits>, w0: Widths, w: Widths, step: int, r: nat, todo: set<string>)
    requires InRound(limits, w0, w, step, r, todo)
    ensures Level(limits, w0, w, step)
    ensures todo == {} ==> RoundStart(limits, w0, w, step, r + 1)
  {
  }

  lemma RoundColumns(limits: map<string, Limits>, w0: Widths, w: Widths, step: int, r: nat, todo: set<string>)
    requires InRound(limits, w0, w, step, r, todo)
    ensures todo <= limits.Keys
  {
  }

  class WrapperTable {
    const fields: seq<string>
    const limits: map<string, Limits>
    const data: seq<map<string, string>>
    /** Width the whole table may take; 0 for as wide as its data. */
    const totalSize: int

    /** The calculated widths of the columns and of all columns together. */
    var widths: Widths
    var contentSize: int

    constructor (fields: seq<string>, limits: map<string, Limits>, data: seq<map<string, string>>, totalSize: int)
      ensures this.fields == fields && this.limits == limits && this.data == data && this.totalSize == totalSize
    {
      this.fields, this.limits, this.data, this.totalSize := fields, limits, data, totalSize;
      widths, contentSize := map[], 0;
    }

    /** Padding on both sides of each column and a border around it. */
    function Frame(): nat {
      |fields| * 2 + (|fields| + 1)
    }

    /** A row whose cells take what is left beside the frame is as wide as the table may be. */
    lemma FrameIsTheRest(widths: seq<int>)
      requires |widths| == |fields| && SumOf(widths) == totalSize - Frame()
      ensures RowWidth(widths) == totalSize
    {
      RowIs(widths);
    }

    static lemma {:induction false} RowIs(widths: seq<int>)
      ensures RowWidth(widths) == SumOf(widths) + 3 * |widths| + 1
    {
      if widths != [] {
        RowIs(widths[..|widths| - 1]);
      }
    }

    /** Row `i` has a value in column `k`. */
    ghost predicate Filled(k: string, i: nat) {
      i < |data| && k in data[i] && k in fields
    }

    ghost predicate HasData(k: string) {
      exists i: nat :: Filled(k, i)
    }

    /** `v` is the width of the widest value in column `k`. */
    ghost predicate IsWidest(k: string, v: nat) {
      && (exists i: nat :: Filled(k, i) && |data[i][k]| == v)
      && (forall i: nat :: Filled(k, i) ==> |data[i][k]| <= v)
    }

    /** The width a column starts from: its fixed width, or the width within its limits that is
        nearest to that of its data. */
    static function Clamp(l: Limits, v: nat): (w: int)
      ensures l.size != 0 ==> w == l.size
      ensures l.size == 0 && (l.max == 0 || l.min <= l.max) ==> InRange(l, w)
      ensures l.size == 0 && (l.max == 0 || l.min <= l.max) ==> forall u | InRange(l, u) :: Distance(w, v) <= Distance(u, v)
    {
      if l.size != 0 then l.size
      else if l.max != 0 && v > l.max then l.max
      else if l.min != 0 && v < l.min then l.min
      else v
    }

    function LimitsOf(k: string): Limits {
      if k in limits then limits[k] else Limits(0, 0, 0)
    }

    /** Value (`r`, `k`) is among the first `i` rows, or the first `f` fields of row `i`. */
    ghost predicate Seen(k: string, r: nat, i: nat, f: nat)
      requires f <= |fields|
    {
      Filled(k, r) && (r < i || (r == i && k in fields[..f]))
    }

    /** `widest` holds the maxima of the values seen, `at` the rows where they are. */
    ghost predicate Measured(widest: map<string, nat>, at: map<string, nat>, i: nat, f: nat)
      requires f <= |fields|
    {
      && (forall k | k in widest :: k in at && Seen(k, at[k], i, f) && |data[at[k]][k]| == widest[k])
      && (forall k, r: nat :: Seen(k, r, i, f) ==> k in widest && |data[r][k]| <= widest[k])
    }

    method MeasureRow(i: nat, widest0: map<string, nat>, ghost at0: map<string, nat>)
      returns (widest: map<string, nat>, ghost at: map<string, nat>)
      requires i < |data| && Measured(widest0, at0, i, 0)
      ensures Measured(widest, at, i + 1, 0)
    {
      widest, at := widest0, at0;
      var row := data[i];
      for f := 0 to |fields|
        invariant Measured(widest, at, i, f)
      {
        var k := fields[f];
        assert fields[..f + 1] == fields[..f] + [k];
        if k in row {
          assert Seen(k, i, i, f + 1);
          if k !in widest || |row[k]| > widest[k] {
            widest, at := widest[k := |row[k]|], at[k := i];
          }
        }
        assert forall j, r: nat | Seen(j, r, i, f + 1) :: Seen(j, r, i, f) || (r == i && j == k);
      }
      assert fields[..|fields|] == fields;
      assert forall j, r: nat :: Seen(j, r, i + 1, 0) <==> Seen(j, r, i, |fields|);
    }

    /** The widest value of every column that has one. */
    method MeasureColumns() returns (widest: map<string, nat>)
      ensures forall k :: k in widest <==> HasData(k)
      ensures forall k | k in widest :: IsWidest(k, widest[k])
    {
      widest := map[];
      ghost var at: map<string, nat> := map[];
      for i := 0 to |data|
        invariant Measured(widest, at, i, 0)
      {
        widest, at := MeasureRow(i, widest, at);
      }
      assert forall k, i: nat | Filled(k, i) :: Seen(k, i, |data|, 0);
    }

    /** The columns that may take a step, in some order. */
    method Changeable(step: int) returns (cols: seq<string>)
      ensures forall i, j | 0 <= i < j < |cols| :: cols[i] != cols[j]
      ensures forall k :: k in cols <==> k in limits && CanStep(limits[k], Width(widths, k), step)
    {
      cols := [];
      var rest := limits.Keys;
      while rest != {}
        invariant rest <= limits.Keys
        invariant forall i, j | 0 <= i < j < |cols| :: cols[i] != cols[j]
        invariant forall k :: k in cols <==> k in limits && k !in rest && CanStep(limits[k], Width(widths, k), step)
      {
        var k :| k in rest;
        rest := rest - {k};
        if CanStep(limits[k], Width(widths, k), step) {
          cols := cols + [k];
        }
      }
    }

    /** The width of all columns together, summed in some order. */
    method Sum() returns (total: int)
      ensures total == Total(widths, widths.Keys)
    {
      total := 0;
      var rest := widths.Keys;
      while rest != {}
        invariant rest <= widths.Keys
        invariant total + Total(widths, rest) == Total(widths, widths.Keys)
      {
        var k :| k in rest;
        TotalSplit(widths, rest, k);
        total := total + widths[k];
        rest := rest - {k};
      }
    }

    /** Starts every column that has data from its data's width. */
    method StartWidths(widest: map<string, nat>)
      modifies this`widths
      ensures widths == map k | k in widest :: Clamp(LimitsOf(k), widest[k])
    {
      widths := map[];
      var rest := widest.Keys;
      while rest != {}
        invariant rest <= widest.Keys
        invariant widths == map k | k in widest && k !in rest :: Clamp(LimitsOf(k), widest[k])
      {
        var k :| k in rest;
        widths := widths[k := Clamp(LimitsOf(k), widest[k])];
        rest := rest - {k};
      }
    }

    /** One round: a step for every column that may take one, until nothing is left to deal out. */
    method Round(step: int, delta0: nat, cols: seq<string>, ghost w0: Widths, ghost all: set<string>, ghost r: nat)
      returns (delta: nat, ghost todo: set<string>)
      requires step == 1 || step == -1
      requires delta0 > 0 && cols != [] && (forall i, j | 0 <= i < j < |cols| :: cols[i] != cols[j])
      requires limits.Keys <= all
      requires WithinLimits(limits, w0, widths, step) && InRound(limits, w0, widths, step, r, set k | k in cols)
      modifies this`widths
      ensures WithinLimits(limits, w0, widths, step) && InRound(limits, w0, widths, step, r, todo)
      ensures delta < delta0 && (delta == 0 || todo == {})
      ensures Total(widths, all) + step * delta == old(Total(widths, all)) + step * delta0
    {
      hide Width, Moved, CanStep, WithinLimits, InRound;
      delta := delta0;
      todo := set k | k in cols;
      var i := 0;
      while i < |cols| && delta > 0
        invariant 0 <= i <= |cols| && delta + i == delta0
        invariant todo == set k | k in cols[i..]
        invariant WithinLimits(limits, w0, widths, step) && InRound(limits, w0, widths, step, r, todo)
        invariant Total(widths, all) + step * delta == old(Total(widths, all)) + step * delta0
      {
        var k := cols[i];
        assert k in cols[i..];
        RoundColumns(limits, w0, widths, step, r, todo);
        TakeStep(limits, w0, widths, step, r, todo, k);
        TotalUpdate(widths, all, k, Width(widths, k) + step);
        widths := widths[k := Width(widths, k) + step];
        assert cols[i..] == [k] + cols[i + 1..];
        todo := todo - {k};
        delta, i := delta - 1, i + 1;
      }
    }

    /** Deals out `delta0` steps in rounds, as long as some column can take one. */
    method Deal(step: int, delta0: nat, ghost w0: Widths, ghost all: set<string>)
      requires step == 1 || step == -1
      requires widths == w0 && limits.Keys <= all
      modifies this`widths
      ensures WithinLimits(limits, w0, widths, step) && Level(limits, w0, widths, step)
      ensures Ahead(step, Total(widths, all), Total(w0, all) + step * delta0)
      ensures Total(widths, all) == Total(w0, all) + step * delta0 || Pinned(limits, widths, step)
    {
      hide Total, Width, Moved, CanStep, WithinLimits, Level, RoundStart, InRound, Pinned;
      var delta := delta0;
      ghost var r, todo := 0, {};
      FirstRound(limits, w0, step);
      while delta > 0
        invariant WithinLimits(limits, w0, widths, step) && Level(limits, w0, widths, step)
        invariant delta > 0 ==> RoundStart(limits, w0, widths, step, r)
        invariant Total(widths, all) + step * delta == Total(w0, all) + step * delta0
      {
        var cols := Changeable(step);
        BeginRound(limits, w0, widths, step, r, cols);
        if cols == [] {
          break;
        }
        delta, todo := Round(step, delta, cols, w0, all, r);
        EndRound(limits, w0, widths, step, r, todo);
        r := r + 1;
      }
    }

    /** Calculates the column widths. `w0` are the widths the columns start from. */
    method CalculateColumnsSize() returns (ghost w0: Widths)
      modifies this`widths, this`contentSize
      ensures forall k :: k in w0 <==> HasData(k)
      ensures forall k | k in w0 :: exists v: nat :: IsWidest(k, v) && w0[k] == Clamp(LimitsOf(k), v)
      ensures totalSize == 0 ==> widths == w0 && contentSize == Total(w0, w0.Keys)
      ensures totalSize != 0 ==> contentSize == totalSize - Frame()
      ensures totalSize != 0 ==> Allocated(limits, limits.Keys + w0.Keys, w0, widths, contentSize)
    {
      hide Total, Clamp;
      var widest := MeasureColumns();
      StartWidths(widest);
      w0 := widths;
      ghost var all := limits.Keys + w0.Keys;
      var size := Sum();
      EmptyColumns(w0, all);
      if totalSize == 0 {
        contentSize := size;
        return;
      }
      contentSize := totalSize - Frame();
      var delta := contentSize - size;
      var step := if delta < 0 then -1 else 1;
      Deal(step, if delta < 0 then -delta else delta, w0, all);
    }
  }
}
