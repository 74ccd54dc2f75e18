/** The ring buffer that keeps the terminal's history. */
module History {
  import opened Wrappers
  import opened Screen
  import opened LineEditor

  class RingBuffer {
    var entries: array<Text>
    var max: nat
    var head: nat
    var size: nat

    ghost predicate Valid()
      reads this
    {
      && entries.Length == max
      && size <= max
      && (max == 0 || (max == HistorySize && head < max))
      && (max == 0 ==> head == 0)
    }

    /** The slot that holds the `n`-th previous entry. */
    static function Slot(head: nat, max: nat, n: nat): (i: nat)
      requires head < max && n < max
      ensures i < max
    {
      if n <= head then head - n else head - n + max
    }

    /** The stored lines, the most recent first. */
    ghost function Contents(): seq<Text>
      reads this, entries
      requires Valid()
    {
      seq(size, n requires 0 <= n < size && Valid() reads this, entries => entries[Slot(head, max, n)])
    }

    constructor ()
      ensures Valid() && fresh(entries) && Contents() == []
    {
      entries := new Text[0];
      max, head, size := 0, 0, 0;
    }

    /** Adding refines prepending to the list of the last `HistorySize` lines. */
    method Add(a: Text)
      requires Valid()
      modifies this, entries
      ensures Valid() && (entries == old(entries) || fresh(entries))
      ensures Contents() == Remember(old(Contents()), a)
    {
      if max == 0 {
        entries := new Text[HistorySize](_ => []);
        max := HistorySize;
      }
      ghost var was, head0 := old(Contents()), head;
      head := (head + 1) % max;
      entries[head] := a;
      assert forall n | 0 < n < max :: Slot(head, max, n) == Slot(head0, max, n - 1) != head;
      if size < max {
        size := size + 1;
      }
      Shifted(was, Contents(), a);
    }

    static lemma Shifted(was: seq<Text>, now: seq<Text>, a: Text)
      requires |now| == if |was| < HistorySize then |was| + 1 else |was|
      requires |was| <= HistorySize && now[0] == a
      requires forall n | 0 < n < |now| :: now[n] == was[n - 1]
      ensures now == Remember(was, a)
    {
      var all := [a] + was;
      assert forall n | 0 <= n < |now| :: now[n] == all[n];
    }

    method NthPreviousEntry(n: nat) returns (r: Option<Text>)
      requires Valid()
      ensures r == if n < |Contents()| then Some(Contents()[n]) else None
    {
      if n >= size {
        return None;
      }
      var index := head - n;
      if index < 0 {
        index := index + max;
      }
      return Some(entries[index]);
    }
  }
}
