/** Cutting a table cell to its column: only at character boundaries of its UTF-8 bytes. */
module Truncation {
  import opened Utf8

  type Bytes = seq<Byte>

  /** `utf8.ValidString`. */
  predicate ValidText(b: Bytes) {
    b == [] || (DecodeRune(b) != (RuneError, 1) && ValidText(b[DecodeRune(b).1..]))
  }

  /** `r` is the longest valid text among the first `position` bytes, taken from the front. */
  predicate LongestPrefix(s: Bytes, position: int, r: Bytes) {
    if 0 <= position <= |s| then
      && |r| <= position && r == s[..|r|] && ValidText(r)
      && forall n | |r| < n <= position :: !ValidText(s[..n])
    else r == []
  }

  /** `r` is the longest valid text that starts at `position` or later, up to the end. */
  predicate LongestSuffix(s: Bytes, position: int, r: Bytes) {
    if 0 <= position <= |s| then
      && |r| <= |s| - position && r == s[|s| - |r|..] && ValidText(r)
      && forall n | position <= n < |s| - |r| :: !ValidText(s[n..])
    else r == []
  }

  method GetValidString(s: Bytes, start: int, positive: bool) returns (r: Bytes)
    ensures if positive then LongestPrefix(s, start, r) else LongestSuffix(s, start, r)
  {
    hide ValidText;
    assert ValidText([]) by {
      EmptyIsValid();
    }
    var step := if positive then -1 else 1;
    var position := start;
    while 0 <= position <= |s|
      invariant 0 <= start <= |s| ==> if positive then 0 <= position <= start else start <= position <= |s|
      invariant !(0 <= start <= |s|) ==> position == start
      invariant positive && 0 <= start <= |s| ==> forall n | position < n <= start :: !ValidText(s[..n])
      invariant !positive && 0 <= start <= |s| ==> forall n | start <= n < position :: !ValidText(s[n..])
      decreases if positive then position else |s| - position
    {
      if positive {
        if ValidText(s[..position]) {
          return s[..position];
        }
        assert position != 0 by {
          assert s[..0] == [];
        }
      } else {
        if ValidText(s[position..]) {
          assert s[|s| - |s[position..]|..] == s[position..];
          return s[position..];
        }
        assert position != |s| by {
          assert s[|s|..] == [];
        }
      }
      position := position + step;
    }
    return [];
  }

  lemma EmptyIsValid()
    ensures ValidText([])
  {
  }

  // Characters ----------------------------------------------------------------

  predicate Characters(rs: seq<Rune>) {
    forall i | 0 <= i < |rs| :: IsScalar(rs[i])
  }

  lemma {:induction false} WholeIsValid(rs: seq<Rune>)
    requires Characters(rs)
    ensures ValidText(EncodeAll(rs))
  {
    if rs != [] {
      DecodeEncode(rs[0], EncodeAll(rs[1..]));
      WholeIsValid(rs[1..]);
      assert EncodeAll(rs)[|Encode(rs[0])|..] == EncodeAll(rs[1..]);
    }
  }

  lemma EncodeUnfold(rs: seq<Rune>)
    requires Characters(rs) && rs != []
    ensures EncodeAll(rs) == Encode(rs[0]) + EncodeAll(rs[1..])
  {
  }

  lemma {:induction false} EncodeConcat(a: seq<Rune>, b: seq<Rune>)
    requires Characters(a) && Characters(b)
    ensures EncodeAll(a + b) == EncodeAll(a) + EncodeAll(b)
  {
    if a == [] {
      assert a + b == b;
    } else {
      hide Encode, EncodeAll;
      var front, x, y := Encode(a[0]), EncodeAll(a[1..]), EncodeAll(b);
      assert (a + b)[0] == a[0] && (a + b)[1..] == a[1..] + b;
      EncodeUnfold(a + b);
      EncodeUnfold(a);
      EncodeConcat(a[1..], b);
      assert front + (x + y) == front + x + y;
    }
  }

  lemma EncodeSplit(rs: seq<Rune>, k: nat)
    requires Characters(rs) && k <= |rs|
    ensures EncodeAll(rs) == EncodeAll(rs[..k]) + EncodeAll(rs[k..])
  {
    hide EncodeAll;
    EncodeConcat(rs[..k], rs[k..]);
    assert rs[..k] + rs[k..] == rs;
  }

  lemma PartialIsInvalid(b: Bytes)
    requires b != [] && !FullRune(b)
    ensures !ValidText(b)
  {
  }

  lemma InnerByte(r: Rune, i: nat)
    requires IsScalar(r) && 0 < i < |Encode(r)|
    ensures IsContinuation(Encode(r)[i])
  {
  }

  lemma ContinuationIsInvalid(b: Bytes)
    requires b != [] && IsContinuation(b[0])
    ensures !ValidText(b)
  {
  }

  /** A front of a text is valid only if it ends between two characters. */
  lemma {:induction false} ValidFront(rs: seq<Rune>, n: nat) returns (k: nat)
    requires Characters(rs) && n <= |EncodeAll(rs)| && ValidText(EncodeAll(rs)[..n])
    ensures k <= |rs| && EncodeAll(rs)[..n] == EncodeAll(rs[..k])
  {
    hide Encode, DecodeRune, FullRune;
    var s := EncodeAll(rs);
    if n == 0 {
      assert rs[..0] == [];
      return 0;
    }
    var first, rest := Encode(rs[0]), EncodeAll(rs[1..]);
    if n < |first| {
      assert s[..n] == first[..n];
      PrefixIsPartial(rs[0], n);
      PartialIsInvalid(first[..n]);
      assert false;
    } else {
      var m := n - |first|;
      assert s[..n] == first + rest[..m];
      DecodeEncode(rs[0], rest[..m]);
      assert (first + rest[..m])[|first|..] == rest[..m];
      var j := ValidFront(rs[1..], m);
      k := j + 1;
      assert rs[..k][0] == rs[0] && rs[..k][1..] == rs[1..][..j];
    }
  }

  /** A tail of a text is valid only if it starts between two characters. */
  lemma {:induction false} ValidTail(rs: seq<Rune>, n: nat) returns (k: nat)
    requires Characters(rs) && n <= |EncodeAll(rs)| && ValidText(EncodeAll(rs)[n..])
    ensures k <= |rs| && EncodeAll(rs)[n..] == EncodeAll(rs[k..])
  {
    hide Encode, DecodeRune, ValidText;
    var s := EncodeAll(rs);
    if n == 0 {
      assert rs[0..] == rs;
      return 0;
    }
    var first, rest := Encode(rs[0]), EncodeAll(rs[1..]);
    if n < |first| {
      InnerByte(rs[0], n);
      ContinuationIsInvalid(s[n..]);
      assert false;
    } else {
      var m := n - |first|;
      assert s[n..] == rest[m..];
      var j := ValidTail(rs[1..], m);
      k := j + 1;
      assert rs[1..][j..] == rs[k..];
    }
  }

  /** Cutting a text keeps as many whole characters from its front as fit. */
  lemma KeepsFront(rs: seq<Rune>, position: nat, r: Bytes) returns (k: nat)
    requires Characters(rs) && position <= |EncodeAll(rs)| && LongestPrefix(EncodeAll(rs), position, r)
    ensures k <= |rs| && r == EncodeAll(rs[..k])
    ensures forall j | 0 <= j <= |rs| && |EncodeAll(rs[..j])| <= position :: |EncodeAll(rs[..j])| <= |r|
  {
    hide ValidText, EncodeAll;
    k := ValidFront(rs, |r|);
    forall j | 0 <= j <= |rs| && |EncodeAll(rs[..j])| <= position
      ensures |EncodeAll(rs[..j])| <= |r|
    {
      EncodeSplit(rs, j);
      WholeIsValid(rs[..j]);
      var n := |EncodeAll(rs[..j])|;
      assert EncodeAll(rs)[..n] == EncodeAll(rs[..j]);
    }
  }

  lemma KeepsBack(rs: seq<Rune>, position: nat, r: Bytes) returns (k: nat)
    requires Characters(rs) && position <= |EncodeAll(rs)| && LongestSuffix(EncodeAll(rs), position, r)
    ensures k <= |rs| && r == EncodeAll(rs[k..])
    ensures forall j | 0 <= j <= |rs| && |EncodeAll(rs[j..])| <= |EncodeAll(rs)| - position :: |EncodeAll(rs[j..])| <= |r|
  {
    hide ValidText, EncodeAll;
    var s := EncodeAll(rs);
    k := ValidTail(rs, |s| - |r|);
    forall j | 0 <= j <= |rs| && |EncodeAll(rs[j..])| <= |s| - position
      ensures |EncodeAll(rs[j..])| <= |r|
    {
      EncodeSplit(rs, j);
      WholeIsValid(rs[j..]);
      var n := |EncodeAll(rs[..j])|;
      assert s[n..] == EncodeAll(rs[j..]);
    }
  }

  // Cells ---------------------------------------------------------------------

  datatype Policy = KeepFront | KeepBack | KeepBoth

  const Dots: Bytes := [46, 46, 46]

  /** Division that rounds towards zero. */
  function Half(n: int): int {
    if n >= 0 then n / 2 else -(-n / 2)
  }

  /** The cell shows front and back parts of a value too long for its column, around dots. */
  predicate Cut(value: Bytes, size: int, policy: Policy, front: Bytes, back: Bytes) {
    match policy
    case KeepFront => LongestPrefix(value, size - 3, front) && back == []
    case KeepBack => front == [] && LongestSuffix(value, |value| - size - 3, back)
    case KeepBoth =>
      LongestPrefix(value, Half(size - 3), front) && LongestSuffix(value, |value| - Half(size - 3), back)
  }

  method FitCell(value: Bytes, size: int, policy: Policy) returns (cell: Bytes, ghost front: Bytes, ghost back: Bytes)
    ensures |value| <= size ==> cell == value
    ensures |value| > size ==> Cut(value, size, policy, front, back) && cell == front + Dots + back
  {
    hide LongestPrefix, LongestSuffix;
    front, back := [], [];
    if |value| <= size {
      return value, [], [];
    }
    match policy {
      case KeepFront =>
        var f := GetValidString(value, size - 3, true);
        front, cell := f, f + Dots;
      case KeepBack =>
        var b := GetValidString(value, |value| - size - 3, false);
        back, cell := b, Dots + b;
      case KeepBoth =>
        var mid := Half(size - 3);
        var f := GetValidString(value, mid, true);
        var b := GetValidString(value, |value| - mid, false);
        front, back, cell := f, b, f + Dots + b;
    }
    assert cell == front + Dots + back;
  }

  /** A cell cut at the end or in the middle fits its column exactly when the column has room for
      the dots; and the parts shown do not overlap. */
  lemma CutFits(value: Bytes, size: int, policy: Policy, front: Bytes, back: Bytes)
    requires |value| > size && policy != KeepBack && Cut(value, size, policy, front, back)
    ensures |front + Dots + back| <= size <==> size >= 3
    ensures |front| + |back| <= |value|
  {
    hide ValidText;
  }

  /** A character boundary is never more than three bytes back. */
  lemma {:induction false} BoundaryBefore(rs: seq<Rune>, position: nat) returns (k: nat)
    requires Characters(rs) && position <= |EncodeAll(rs)|
    ensures k <= |rs| && |EncodeAll(rs[..k])| <= position <= |EncodeAll(rs[..k])| + 3
  {
    hide Encode;
    if rs == [] || position < |Encode(rs[0])| {
      k := 0;
      assert rs[..0] == [];
    } else {
      var j := BoundaryBefore(rs[1..], position - |Encode(rs[0])|);
      k := j + 1;
      assert rs[..k][0] == rs[0] && rs[..k][1..] == rs[1..][..j];
    }
  }

  /** As much as fits is shown: of a text cut at its end at most three bytes of the column stay free,
      of one cut in its middle at most three on each side and one between. */
  lemma CutIsFull(rs: seq<Rune>, size: int, policy: Policy, front: Bytes, back: Bytes)
    requires Characters(rs) && |EncodeAll(rs)| > size >= 3 && policy != KeepBack
    requires Cut(EncodeAll(rs), size, policy, front, back)
    ensures size - |front + Dots + back| <= if policy == KeepFront then 3 else 7
    ensures policy == KeepBoth ==> -3 <= |front| - |back| <= 3
  {
    hide ValidText, EncodeAll;
    var s := EncodeAll(rs);
    var room := if policy == KeepFront then size - 3 else Half(size - 3);
    assert 0 <= room <= |s|;
    var k := BoundaryBefore(rs, room);
    var p := KeepsFront(rs, room, front);
    if policy == KeepBoth {
      var j := NextBoundary(rs, |s| - room);
      EncodeSplit(rs, j);
      var q := KeepsBack(rs, |s| - room, back);
    }
  }

  /** A character boundary is never more than three bytes away. */
  lemma {:induction false} NextBoundary(rs: seq<Rune>, position: nat) returns (k: nat)
    requires Characters(rs) && position <= |EncodeAll(rs)|
    ensures k <= |rs| && position <= |EncodeAll(rs[..k])| <= position + 3
  {
    hide Encode;
    if position == 0 {
      assert rs[..0] == [];
      return 0;
    }
    var first := |Encode(rs[0])|;
    var j := NextBoundary(rs[1..], if position <= first then 0 else position - first);
    if position <= first {
      k := 1;
      assert rs[..1] == [rs[0]] && [rs[0]][1..] == [];
      assert EncodeAll([rs[0]]) == Encode(rs[0]) + EncodeAll([]);
    } else {
      k := j + 1;
      assert rs[..k][0] == rs[0] && rs[..k][1..] == rs[1..][..j];
    }
  }

  /** Cutting at the front keeps up to six bytes too many: the cell of a text fits only where
      nothing but the dots is shown. */
  lemma FrontCutFits(rs: seq<Rune>, size: int, back: Bytes)
    requires Characters(rs) && |EncodeAll(rs)| > size && Cut(EncodeAll(rs), size, KeepBack, [], back)
    ensures |Dots + back| <= size <==> size >= 3 && |EncodeAll(rs)| < size + 3
  {
    hide ValidText, EncodeAll;
    var s := EncodeAll(rs);
    var position := |s| - size - 3;
    if 0 <= position <= |s| {
      var k := NextBoundary(rs, position);
      EncodeSplit(rs, k);
      WholeIsValid(rs[k..]);
      var n := |EncodeAll(rs[..k])|;
      assert s[n..] == EncodeAll(rs[k..]);
    }
  }

  /** Ten letters in a column of five are shown as eleven characters. */
  lemma FrontCutOverflows()
    ensures var value: Bytes := [97, 97, 97, 97, 97, 97, 97, 97, 97, 97];
      Cut(value, 5, KeepBack, [], value[2..]) && |Dots + value[2..]| == 11
  {
    var value: Bytes := [97, 97, 97, 97, 97, 97, 97, 97, 97, 97];
    var rs: seq<Rune> := [97, 97, 97, 97, 97, 97, 97, 97];
    AsciiIsItself(rs);
    WholeIsValid(rs);
    assert value[2..] == EncodeAll(rs);
  }

  lemma {:induction false} AsciiIsItself(rs: seq<Rune>)
    requires forall i | 0 <= i < |rs| :: rs[i] < 128
    ensures Characters(rs) && |EncodeAll(rs)| == |rs|
    ensures forall i | 0 <= i < |rs| :: EncodeAll(rs)[i] == rs[i]
  {
    if rs != [] {
      AsciiIsItself(rs[1..]);
    }
  }
}
