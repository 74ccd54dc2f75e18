/** Paging through search results by offsets: the page numbers are recomputed from the end
    offset of the window, and tell whether there is a next and a previous page. */
module Pager {
  import opened Arithmetic

  /** The part of the results on display. */
  datatype Window = Window(start: nat, end: nat)

  function Min(a: int, b: int): int {
    if a < b then a else b
  }

  function Max(a: int, b: int): int {
    if a > b then a else b
  }

  /** Pages needed for `n` items: the quotient, rounded up. */
  function Pages(n: nat, p: nat): nat
    requires p > 0
  {
    if n % p == 0 then n / p else n / p + 1
  }

  /** The window of at most `p` items from `start` on. */
  function WindowAt(start: nat, total: nat, p: nat): Window
    requires start <= total
  {
    Window(start, Min(start + p, total))
  }

  function NextWindow(w: Window, total: nat, p: nat): Window {
    if w.end < total then WindowAt(w.end, total, p) else w
  }

  function PreviousWindow(w: Window, total: nat, p: nat): Window {
    if w.start > 0 && w.end <= total then WindowAt(Max(0, w.end - 2 * p), total, p) else w
  }

  /** Windows that paging reaches: full unless they reach the end, and with an end offset that
      is aligned to the page size, or as far from alignment as the total is. */
  predicate Reachable(w: Window, total: nat, p: nat)
    requires p > 0
  {
    && w.start <= total && w == WindowAt(w.start, total, p)
    && (w.start > 0 ==> w.start < total && p < total)
    && (w.end % p == 0 || w.end % p == total % p)
  }

  // Arithmetic ----------------------------------------------------------------

  /** Each full page adds one to the number of pages. */
  lemma PagesStep(n: nat, p: nat)
    requires p > 0
    ensures Pages(n + p, p) == Pages(n, p) + 1
    ensures n < p ==> Pages(n, p) == if n == 0 then 0 else 1
  {
    ModShift(n, p);
    if n < p {
      QuotientIs(n, p, 0, n);
    }
  }

  /** `Pages` is the ceiling of the quotient: the least number of pages that hold all items. */
  lemma PagesIsCeiling(n: nat, p: nat)
    requires p > 0
    ensures n <= Pages(n, p) * p
    ensures n > 0 ==> (Pages(n, p) - 1) * p < n
  {
    var q, r := n / p, n % p;
    assert n == q * p + r;
    Distribute(q, 1, p);
  }

  lemma {:induction false} PagesMonotone(m: nat, n: nat, p: nat)
    requires p > 0 && m <= n
    ensures Pages(m, p) <= Pages(n, p)
    ensures m % p == n % p && m < n ==> Pages(m, p) < Pages(n, p)
    ensures m % p == 0 && m < n ==> Pages(m, p) < Pages(n, p)
    decreases n
  {
    if n < p {
      PagesStep(n, p);
      PagesStep(m, p);
      QuotientIs(m, p, 0, m);
      QuotientIs(n, p, 0, n);
    } else {
      PagesStep(n - p, p);
      ModShift(n - p, p);
      if m <= n - p {
        if m == n - p {
        } else {
          PagesMonotone(m, n - p, p);
        }
      } else if m >= p {
        PagesStep(m - p, p);
        ModShift(m - p, p);
        PagesMonotone(m - p, n - p, p);
      } else {
        PagesStep(m, p);
        QuotientIs(m, p, 0, m);
      }
    }
  }

  /** The page numbers tell the truth about a reachable window: a next page is offered exactly
      when items remain after it, a previous page exactly when items precede it. */
  lemma PageNumbersAreExact(w: Window, total: nat, p: nat)
    requires p > 0 && Reachable(w, total, p)
    ensures Pages(w.end, p) < Pages(total, p) <==> w.end < total
    ensures Pages(w.end, p) > 1 <==> w.start > 0
  {
    if w.end < total {
      PagesMonotone(w.end, total, p);
    }
    PagesStep(0, p);
    assert Pages(p, p) == 1;
    if w.start == 0 {
      PagesMonotone(w.end, p, p);
    } else {
      ModShift(0, p);
      PagesMonotone(p, w.end, p);
    }
  }

  // Moves ---------------------------------------------------------------------

  lemma FirstIsReachable(total: nat, p: nat)
    requires p > 0
    ensures Reachable(WindowAt(0, total, p), total, p)
  {
    ModShift(0, p);
  }

  lemma NextStaysReachable(w: Window, total: nat, p: nat)
    requires p > 0 && Reachable(w, total, p)
    ensures Reachable(NextWindow(w, total, p), total, p)
  {
    if w.end < total {
      assert w.end == w.start + p;
      ModShift(w.end, p);
    }
  }

  lemma PreviousStaysReachable(w: Window, total: nat, p: nat)
    requires p > 0 && Reachable(w, total, p)
    ensures Reachable(PreviousWindow(w, total, p), total, p)
  {
    if w.start > 0 && w.end <= 2 * p {
      ModShift(0, p);
    } else if w.start > 0 {
      var e := w.end - p;
      ModShift(e, p);
      assert PreviousWindow(w, total, p) == Window(e - p, e);
    }
  }

  /** Going back undoes going forward exactly when the page reached was full, or the page left
      was the first. */
  lemma PreviousUndoesNext(w: Window, total: nat, p: nat)
    requires p > 0 && Reachable(w, total, p) && w.end < total
    ensures PreviousWindow(NextWindow(w, total, p), total, p) == w
            <==> w.end + p <= total || w.start == 0
  {
  }

  /** Whatever window is shown, a next page is offered exactly when items remain if and only if the
      window ends with the items or no later than the last full page before them. */
  lemma NextFlagExactly(start: nat, total: nat, p: nat)
    requires p > 0 && start <= total
    ensures var w := WindowAt(start, total, p);
      (Pages(w.end, p) < Pages(total, p) <==> w.end < total) <==> w.end == total || w.end <= LastPage(total, p)
  {
    var e := WindowAt(start, total, p).end;
    if e < total {
      LastPageHolds(total, p);
      if e <= LastPage(total, p) {
        PagesMonotone(e, LastPage(total, p), p);
      } else {
        PagesMonotone(LastPage(total, p), e, p);
        PagesMonotone(e, total, p);
      }
    }
  }

  /** Where the last page starts. */
  function LastPage(total: nat, p: nat): nat
    requires p > 0
  {
    if total == 0 then 0 else (Pages(total, p) - 1) * p
  }

  lemma LastPageHolds(total: nat, p: nat)
    requires p > 0 && total > 0
    ensures LastPage(total, p) == (total - 1) / p * p
    ensures LastPage(total, p) < total && LastPage(total, p) % p == 0
    ensures Pages(LastPage(total, p), p) == Pages(total, p) - 1
  {
    PagesIsCeiling(total, p);
    var q := Pages(total, p) - 1;
    QuotientIs(q * p, p, q, 0);
    Distribute(q, 1, p);
    QuotientIs(total - 1, p, q, total - 1 - q * p);
  }

  /** A previous page is offered exactly when items precede if and only if the window is the first
      or the items do not fit one page. */
  lemma PreviousFlagExactly(start: nat, total: nat, p: nat)
    requires p > 0 && start <= total
    ensures var w := WindowAt(start, total, p);
      (Pages(w.end, p) > 1 <==> w.start > 0) <==> start == 0 || total > p
  {
    var e := WindowAt(start, total, p).end;
    PagesStep(0, p);
    assert Pages(p, p) == 1;
    if e <= p {
      PagesMonotone(e, p, p);
    } else {
      ModShift(0, p);
      PagesMonotone(p, e, p);
    }
  }

  // The handler ---------------------------------------------------------------

  /** The items that match, in order. */
  function Filter<T>(items: seq<T>, keep: T -> bool): seq<T> {
    if items == [] then []
    else Filter(items[..|items| - 1], keep) + if keep(items[|items| - 1]) then [items[|items| - 1]] else []
  }

  /** Exactly the matching items are kept, each as often as it is there. */
  lemma {:induction false} FilterKeeps<T>(items: seq<T>, keep: T -> bool, x: T)
    ensures multiset(Filter(items, keep))[x] == if keep(x) then multiset(items)[x] else 0
  {
    if items != [] {
      var front, last := items[..|items| - 1], items[|items| - 1];
      FilterKeeps(front, keep, x);
      assert items == front + [last];
    }
  }

  /** And in their order. */
  lemma {:induction false} FilterConcat<T>(a: seq<T>, b: seq<T>, keep: T -> bool)
    ensures Filter(a + b, keep) == Filter(a, keep) + Filter(b, keep)
  {
    if b == [] {
      assert a + b == a;
    } else {
      var front, last := b[..|b| - 1], b[|b| - 1];
      FilterConcat(a, front, keep);
      assert (a + b)[..|a + b| - 1] == a + front;
    }
  }

  function Flatten<T>(pages: seq<seq<T>>): seq<T> {
    if pages == [] then [] else Flatten(pages[..|pages| - 1]) + pages[|pages| - 1]
  }

  /** The pages shown so far hold the first `e` results; all are full but perhaps the last. */
  predicate Paged<T(==)>(found: seq<T>, pages: seq<seq<T>>, e: nat, p: nat)
    requires p > 0
  {
    && pages != [] && e <= |found| && Flatten(pages) == found[..e]
    && |pages| == Max(1, Pages(e, p))
    && (e < |found| ==> e % p == 0 && e > 0 && |pages[|pages| - 1]| == p)
    && (forall i | 0 <= i < |pages| - 1 :: |pages[i]| == p)
  }

  lemma PagedFirst<T>(found: seq<T>, p: nat)
    requires p > 0
    ensures var e := Min(p, |found|); Paged(found, [found[..e]], e, p)
  {
    var first := found[..Min(p, |found|)];
    assert [first][..0] == [];
    assert Flatten([first]) == [] + first == first;
    PagesStep(0, p);
    PagesStep(Min(p, |found|), p);
    ModShift(0, p);
  }

  lemma PagedNext<T>(found: seq<T>, pages: seq<seq<T>>, e: nat, p: nat)
    requires p > 0 && e < |found| && Paged(found, pages, e, p)
    ensures var e' := Min(e + p, |found|); Paged(found, pages + [found[e..e']], e', p)
  {
    var e' := Min(e + p, |found|);
    var next := pages + [found[e..e']];
    assert next[..|pages|] == pages;
    assert found[..e] + found[e..e'] == found[..e'];
    NextPageCount(e, e' - e, p);
    ModShift(e, p);
  }

  lemma AllPaged<T>(found: seq<T>, pages: seq<seq<T>>, e: nat, p: nat)
    requires p > 0 && Paged(found, pages, e, p) && e >= |found|
    ensures Flatten(pages) == found && |pages| == Max(1, Pages(|found|, p))
    ensures forall i | 0 <= i < |pages| - 1 :: |pages[i]| == p
  {
    assert found[..|found|] == found;
  }

  lemma NextPageCount(e: nat, r: nat, p: nat)
    requires p > 0 && e > 0 && e % p == 0 && 0 < r <= p
    ensures Pages(e + r, p) == Pages(e, p) + 1 && Pages(e, p) >= 1
  {
    var q := e / p;
    assert e == q * p;
    MulBound(q, p);
    if r < p {
      QuotientIs(e + r, p, q, r);
    } else {
      PagesStep(e, p);
    }
  }

  class SelectHandler<Item> {
    const data: seq<Item>
    /** Whether an item matches search keys. */
    const matches: (Item, seq<string>) -> bool

    var searchKeys: seq<string>
    var hasPre: bool
    var hasNext: bool
    var currentResult: seq<Item>
    var pageSize: nat
    var currentOffset: nat
    var totalPage: nat
    var currentPage: nat
    var totalCount: nat

    /** Where the displayed window starts. */
    ghost var windowStart: nat

    constructor (data: seq<Item>, matches: (Item, seq<string>) -> bool)
      ensures this.data == data && this.matches == matches
    {
      this.data, this.matches := data, matches;
      searchKeys, currentResult, hasPre, hasNext := [], [], false, false;
      pageSize, currentOffset, totalPage, currentPage, totalCount := 0, 0, 0, 0, 0;
      windowStart := 0;
    }

    ghost function Found(keys: seq<string>): seq<Item> {
      Filter(data, item => matches(item, keys))
    }

    ghost function View(): Window
      reads this
    {
      Window(windowStart, currentOffset)
    }

    /** The window on display is a part of the results, cut for the last page size in force, and the
        flags compare its page numbers. */
    ghost predicate Valid()
      reads this
    {
      var found := Found(searchKeys);
      && windowStart <= |found| && View() == WindowAt(windowStart, |found|, pageSize)
      && currentResult == found[windowStart..currentOffset]
      && (pageSize == 0 ==> currentOffset == |found|)
      && (hasNext <==> pageSize > 0 && Pages(currentOffset, pageSize) < Pages(|found|, pageSize))
      && (hasPre <==> pageSize > 0 && Pages(currentOffset, pageSize) > 1)
    }

    /** So far only the page size `p` has been in force. */
    ghost predicate Fixed(p: nat)
      reads this
    {
      p > 0 && pageSize == p && Reachable(View(), |Found(searchKeys)|, p)
    }

    /** With one page size the flags tell the truth: a next page is offered exactly when items
        remain, a previous one exactly when items precede. */
    lemma FlagsWithFixedSize(p: nat)
      requires Valid() && Fixed(p)
      ensures hasNext <==> View().end < |Found(searchKeys)|
      ensures hasPre <==> View().start > 0
    {
      PageNumbersAreExact(View(), |Found(searchKeys)|, p);
    }

    /** In every run, whatever the page sizes, each flag tells the truth exactly under a condition on
        the window. */
    lemma FlagsExactly()
      requires Valid()
      ensures var total, w := |Found(searchKeys)|, View();
        && ((hasNext <==> w.end < total) <==> w.end == total || (pageSize > 0 && w.end <= LastPage(total, pageSize)))
        && ((hasPre <==> w.start > 0) <==> w.start == 0 || (pageSize > 0 && total > pageSize))
    {
      if pageSize > 0 {
        NextFlagExactly(windowStart, |Found(searchKeys)|, pageSize);
        PreviousFlagExactly(windowStart, |Found(searchKeys)|, pageSize);
      }
    }

    method SearchLocal(keys: seq<string>) returns (items: seq<Item>)
      ensures items == Found(keys)
    {
      items := [];
      for i := 0 to |data|
        invariant items == Filter(data[..i], item => matches(item, keys))
      {
        assert data[..i + 1][..i] == data[..i];
        if matches(data[i], keys) {
          items := items + [data[i]];
        }
      }
      assert data[..|data|] == data;
    }

    /** Recomputes the page numbers: the window ends on the page shown, and the last item lies on
        the last page. */
    method UpdatePageInfo(size: nat, offset: nat, total: nat)
      modifies this`pageSize, this`currentOffset, this`totalCount, this`totalPage, this`currentPage
      ensures pageSize == size && currentOffset == offset && totalCount == total
      ensures size == 0 ==> totalPage == 1 && currentPage == 1
      ensures size > 0 ==> totalPage == Pages(total, size) && currentPage == Pages(offset, size)
      ensures size > 0 ==> total <= totalPage * size && offset <= currentPage * size
      ensures size > 0 && total > 0 ==> (totalPage - 1) * size < total
      ensures size > 0 && offset > 0 ==> (currentPage - 1) * size < offset
    {
      pageSize, currentOffset, totalCount := size, offset, total;
      if pageSize <= 0 {
        totalPage, currentPage := 1, 1;
        return;
      }
      totalPage := if totalCount % pageSize == 0 then totalCount / pageSize else totalCount / pageSize + 1;
      currentPage := if currentOffset % pageSize == 0 then currentOffset / pageSize else currentOffset / pageSize + 1;
      PagesIsCeiling(total, size);
      PagesIsCeiling(offset, size);
    }

    /** The page size that a request for `requested` items from `offset` on amounts to: 0 or less
        asks for all that are left. */
    static function SizeFor(requested: int, offset: nat, total: nat): (size: nat)
      ensures size == 0 ==> requested <= 0 && total <= offset
    {
      if requested > 0 then requested else if offset < total then total - offset else 0
    }

    /** Cuts the window of at most `requested` items from `offset0` on out of the results. */
    method Retrieve(requested: int, offset0: int, keys: seq<string>) returns (items: seq<Item>)
      modifies this`pageSize, this`currentOffset, this`totalCount, this`totalPage, this`currentPage, this`hasPre, this`hasNext
      ensures var found := Found(keys); var total := |found|;
              var offset := if offset0 < 0 then 0 else offset0;
              var size := SizeFor(requested, offset, total);
              && items == (if offset < total then found[offset..Min(offset + size, total)] else [])
              && pageSize == size && currentOffset == offset + |items|
              && (hasPre <==> size > 0 && Pages(offset + |items|, size) > 1)
              && (hasNext <==> size > 0 && Pages(offset + |items|, size) < Pages(total, size))
    {
      hide Pages;
      var offset := if offset0 < 0 then 0 else offset0;
      var found := SearchLocal(keys);
      var rest := if offset < |found| then found[offset..] else [];
      var size := if requested > 0 then requested else |rest|;
      items := rest;
      if |rest| > size {
        items := rest[..size];
      }
      UpdatePageInfo(size, offset + |items|, |found|);
      hasPre := currentPage > 1;
      hasNext := currentPage < totalPage;
    }

    /** Displays the page of size `p` that starts at `offset`. */
    method ShowFrom(p: nat, offset: nat, keys: seq<string>)
      requires offset <= |Found(keys)|
      modifies this
      ensures Valid() && searchKeys == keys && pageSize == SizeFor(p, offset, |Found(keys)|)
      ensures View() == WindowAt(offset, |Found(keys)|, pageSize)
    {
      hide Pages;
      currentResult := Retrieve(p, offset, keys);
      searchKeys := keys;
      windowStart := offset;
    }

    method Search(p: nat, key: string)
      modifies this
      ensures Valid() && searchKeys == [key] && pageSize == SizeFor(p, 0, |Found([key])|)
      ensures View() == WindowAt(0, |Found([key])|, pageSize)
      ensures p > 0 ==> Fixed(p)
    {
      hide Pages, Valid;
      ShowFrom(p, 0, [key]);
      if p > 0 {
        FirstIsReachable(|Found([key])|, p);
      }
    }

    /** The next page, cut with the page size of the moment. */
    method MoveNextPage(p: nat)
      requires Valid()
      modifies this
      ensures Valid() && searchKeys == old(searchKeys)
      ensures old(hasNext) ==>
                && pageSize == SizeFor(p, old(currentOffset), |Found(searchKeys)|)
                && View() == WindowAt(old(currentOffset), |Found(searchKeys)|, pageSize)
      ensures !old(hasNext) ==> View() == old(View()) && pageSize == old(pageSize)
      ensures old(Fixed(p)) ==> Fixed(p) && View() == NextWindow(old(View()), |Found(searchKeys)|, p)
    {
      hide Pages, Reachable;
      ghost var fixed := Fixed(p);
      if fixed {
        FlagsWithFixedSize(p);
        NextStaysReachable(View(), |Found(searchKeys)|, p);
      }
      if hasNext {
        ShowFrom(p, currentOffset, searchKeys);
      }
    }

    /** The page before, found by going back two pages of the size of the moment from the end of the
        one on display. */
    method MovePrePage(p: nat)
      requires Valid()
      modifies this
      ensures Valid() && searchKeys == old(searchKeys)
      ensures old(hasPre) ==>
                var start := Max(0, old(currentOffset) - 2 * p);
                && pageSize == SizeFor(p, start, |Found(searchKeys)|)
                && View() == WindowAt(start, |Found(searchKeys)|, pageSize)
      ensures !old(hasPre) ==> View() == old(View()) && pageSize == old(pageSize)
      ensures old(Fixed(p)) ==> Fixed(p) && View() == PreviousWindow(old(View()), |Found(searchKeys)|, p)
    {
      hide Pages, Reachable;
      ghost var fixed := Fixed(p);
      if fixed {
        FlagsWithFixedSize(p);
        PreviousStaysReachable(View(), |Found(searchKeys)|, p);
      }
      if hasPre {
        var start := currentOffset - p * 2;
        if start <= 0 {
          start := 0;
        }
        ShowFrom(p, start, searchKeys);
      }
    }

    /** Paging forward from a search shows every result once, in order, on as many pages as the
        results need. */
    method ShowAll(p: nat, key: string) returns (pages: seq<seq<Item>>)
      requires p > 0
      modifies this
      ensures Valid() && searchKeys == [key]
      ensures Flatten(pages) == Found([key])
      ensures |pages| == Max(1, Pages(|Found([key])|, p))
      ensures forall i | 0 <= i < |pages| - 1 :: |pages[i]| == p
    {
      hide Pages, Reachable, Filter, Flatten, Paged;
      Search(p, key);
      pages := [currentResult];
      ghost var found := Found([key]);
      PagedFirst(found, p);
      FlagsWithFixedSize(p);
      while hasNext
        invariant Valid() && Fixed(p) && searchKeys == [key]
        invariant hasNext <==> currentOffset < |found|
        invariant Paged(found, pages, currentOffset, p)
        decreases |found| - currentOffset
      {
        PagedNext(found, pages, currentOffset, p);
        MoveNextPage(p);
        FlagsWithFixedSize(p);
        pages := pages + [currentResult];
      }
      AllPaged(found, pages, currentOffset, p);
    }

    /** A run in which a changed page size hides items: with twenty results, a first page of ten and
        a next one of seven, three items remain and no next page is offered. */
    method ResizeHidesItems(key: string)
      requires |Found([key])| == 20
      modifies this
      ensures Valid() && searchKeys == [key] && View() == Window(10, 17) && !hasNext
    {
      Search(10, key);
      MoveNextPage(7);
    }

    /** A run in which the previous flag fails too: after a last page of ten, going back when the
        page size has been changed to all shows nothing at the end, and offers no way back although
        all twenty results precede. */
    method AllHidesItems(key: string)
      requires |Found([key])| == 20
      modifies this
      ensures Valid() && searchKeys == [key] && View() == Window(20, 20) && !hasPre
    {
      Search(10, key);
      MoveNextPage(10);
      MovePrePage(0);
    }
  }
}
