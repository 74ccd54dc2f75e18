/** Tab completion of the typed line against the host names. The completion works on bytes; the
    terminal turns its result into code points, and these into bytes for the next completion. */
module Completion {
  import opened Utf8
  import opened Wrappers
  import opened Truncation

  predicate IsCommonPrefix(strs: seq<Bytes>, p: Bytes) {
    forall i | 0 <= i < |strs| :: p <= strs[i]
  }

  /** Whether the first `length` bytes of all strings agree. */
  predicate AgreeUpTo(strs: seq<Bytes>, length: nat) {
    && (forall i | 0 <= i < |strs| :: length <= |strs[i]|)
    && (forall i | 0 <= i < |strs| :: strs[i][..length] == strs[0][..length])
  }

  method AllAgree(strs: seq<Bytes>, length: nat) returns (agree: bool)
    requires strs != [] && forall i | 0 <= i < |strs| :: length <= |strs[i]|
    ensures agree <==> AgreeUpTo(strs, length)
  {
    for i := 1 to |strs|
      invariant AgreeUpTo(strs[..i], length)
    {
      if strs[i][..length] != strs[0][..length] {
        return false;
      }
    }
    return true;
  }

  lemma AgreeIsCommon(strs: seq<Bytes>, p: Bytes)
    requires strs != []
    ensures IsCommonPrefix(strs, p) <==> |p| <= |strs[0]| && p == strs[0][..|p|] && AgreeUpTo(strs, |p|)
  {
    if IsCommonPrefix(strs, p) {
      assert p <= strs[0];
      assert forall i | 0 <= i < |strs| :: strs[i][..|p|] == p;
    }
  }

  lemma AgreeBelow(strs: seq<Bytes>, length: nat, shorter: nat)
    requires strs != [] && AgreeUpTo(strs, length) && shorter <= length
    ensures AgreeUpTo(strs, shorter)
  {
    forall i | 0 <= i < |strs|
      ensures strs[i][..shorter] == strs[0][..shorter]
    {
      assert strs[i][..shorter] == strs[i][..length][..shorter];
      assert strs[0][..shorter] == strs[0][..length][..shorter];
    }
  }

  /** The binary search finds the longest common prefix. */
  method LongestCommonPrefix(strs: seq<Bytes>) returns (p: Bytes)
    ensures strs == [] ==> p == []
    ensures strs != [] ==> forall q: Bytes :: IsCommonPrefix(strs, q) <==> q <= p
  {
    if strs == [] {
      return [];
    }
    var minLength := |strs[0]|;
    for i := 0 to |strs|
      invariant minLength <= |strs[0]|
      invariant forall k | 0 <= k < i :: minLength <= |strs[k]|
      invariant exists k | 0 <= k < |strs| :: minLength == |strs[k]|
    {
      if |strs[i]| < minLength {
        minLength := |strs[i]|;
      }
    }
    var low, high := 0, minLength;
    while low < high
      invariant 0 <= low <= high <= minLength
      invariant AgreeUpTo(strs, low)
      invariant forall n: nat | AgreeUpTo(strs, n) :: n <= high
    {
      var mid := (high - low + 1) / 2 + low;
      var agree := AllAgree(strs, mid);
      if agree {
        low := mid;
      } else {
        forall n: nat | AgreeUpTo(strs, n)
          ensures n < mid
        {
          if mid <= n {
            AgreeBelow(strs, n, mid);
          }
        }
        high := mid - 1;
      }
    }
    p := strs[0][..low];
    PrefixesOfLongest(strs, low);
  }

  lemma PrefixesOfLongest(strs: seq<Bytes>, length: nat)
    requires strs != [] && AgreeUpTo(strs, length)
    requires forall n: nat | AgreeUpTo(strs, n) :: n <= length
    ensures length <= |strs[0]|
    ensures forall q: Bytes :: IsCommonPrefix(strs, q) <==> q <= strs[0][..length]
  {
    forall q: Bytes
      ensures IsCommonPrefix(strs, q) <==> q <= strs[0][..length]
    {
      AgreeIsCommon(strs, q);
      if q <= strs[0][..length] {
        assert q == strs[0][..length][..|q|] == strs[0][..|q|];
        AgreeBelow(strs, length, |q|);
      }
    }
  }

  /** The candidates that start with `s`, in order. */
  function Filtered(strs: seq<Bytes>, s: Bytes): (r: seq<Bytes>)
    ensures forall i | 0 <= i < |r| :: s <= r[i]
  {
    if strs == [] then []
    else
      var rest := Filtered(strs[..|strs| - 1], s);
      if s <= strs[|strs| - 1] then rest + [strs[|strs| - 1]] else rest
  }

  method FilterPrefix(strs: seq<Bytes>, s: Bytes) returns (r: seq<Bytes>)
    ensures r == Filtered(strs, s)
  {
    r := [];
    for i := 0 to |strs|
      invariant r == Filtered(strs[..i], s)
    {
      var v := strs[i];
      assert strs[..i + 1][..i] == strs[..i];
      if |v| >= |s| {
        if v[..|s|] == s {
          r := r + [v];
        }
      }
    }
    assert strs[..|strs|] == strs;
  }

  const TabKey: Rune := 9

  /** What a completion yields: the longest string that every candidate for the line starts with. */
  ghost predicate Completes(suggests: seq<Bytes>, line: Bytes, newLine: Bytes) {
    && line != []
    && Filtered(suggests, line) != []
    && forall q: Bytes :: IsCommonPrefix(Filtered(suggests, line), q) <==> q <= newLine
  }

  method Complete(suggests: seq<Bytes>, line: Bytes, key: Rune) returns (r: Option<(Bytes, nat)>)
    ensures r.Some? <==> key == TabKey && line != [] && Filtered(suggests, line) != []
    ensures r.Some? ==> Completes(suggests, line, r.value.0) && r.value.1 == |r.value.0|
  {
    if key == TabKey && |line| >= 1 {
      var sugs := FilterPrefix(suggests, line);
      if |sugs| >= 1 {
        var p := LongestCommonPrefix(sugs);
        return Some((p, |p|));
      }
    }
    return None;
  }

  lemma {:induction false} FilteredTwice(strs: seq<Bytes>, line: Bytes, longer: Bytes)
    requires line <= longer && IsCommonPrefix(Filtered(strs, line), longer)
    ensures Filtered(strs, longer) == Filtered(strs, line)
  {
    if strs != [] {
      var init, last := strs[..|strs| - 1], strs[|strs| - 1];
      var all, fewer := Filtered(strs, line), Filtered(init, line);
      assert forall i | 0 <= i < |fewer| :: fewer[i] == all[i];
      FilteredTwice(init, line, longer);
      if line <= last {
        assert all[|all| - 1] == last;
      }
    }
  }

  /** On bytes, completing only adds to what was typed, loses no candidate, and completing again
      changes nothing. */
  lemma BytesAreStable(suggests: seq<Bytes>, line: Bytes, newLine: Bytes)
    requires Completes(suggests, line, newLine)
    ensures line <= newLine
    ensures Filtered(suggests, newLine) == Filtered(suggests, line)
    ensures forall again: Bytes :: Completes(suggests, newLine, again) <==> again == newLine
  {
    assert IsCommonPrefix(Filtered(suggests, line), line);
    assert IsCommonPrefix(Filtered(suggests, line), newLine);
    FilteredTwice(suggests, line, newLine);
    forall again: Bytes | Completes(suggests, newLine, again)
      ensures again == newLine
    {
      assert IsCommonPrefix(Filtered(suggests, line), again);
      assert again <= newLine <= again;
    }
  }

  // Through the terminal --------------------------------------------------------

  /** The code points of a string; a byte that is not part of one becomes U+FFFD. */
  function Runes(b: Bytes): (rs: seq<Rune>)
    ensures Characters(rs)
  {
    if b == [] then []
    else
      var (r, n) := DecodeRune(b);
      assert IsScalar(r) by {
        if (r, n) != (RuneError, 1) {
          EncodeDecode(b);
        }
      }
      [r] + Runes(b[n..])
  }

  /** The bytes of the line once the terminal has taken it over. */
  function Retyped(b: Bytes): Bytes {
    EncodeAll(Runes(b))
  }

  lemma EncodeFirst(r: Rune, rs: seq<Rune>)
    requires IsScalar(r) && Characters(rs)
    ensures EncodeAll([r] + rs) == Encode(r) + EncodeAll(rs)
  {
    assert ([r] + rs)[0] == r && ([r] + rs)[1..] == rs;
  }

  /** The terminal keeps a string exactly if it is valid text; otherwise it makes it longer. */
  lemma {:induction false} RetypedExactly(b: Bytes)
    ensures ValidText(b) ==> Retyped(b) == b
    ensures !ValidText(b) ==> |Retyped(b)| > |b|
  {
    hide DecodeRune, Encode, EncodeAll;
    if b == [] {
      NothingRetyped();
    } else {
      var (r, n) := DecodeRune(b);
      var rest := b[n..];
      RetypedExactly(rest);
      if (r, n) == (RuneError, 1) {
        EncodeFirst(r, Runes(rest));
        ReplacementIsLong();
      } else {
        EncodeDecode(b);
        EncodeFirst(r, Runes(rest));
        assert b == b[..n] + rest;
      }
    }
  }

  lemma NothingRetyped()
    ensures EncodeAll([]) == []
  {
  }

  lemma ReplacementIsLong()
    ensures |Encode(RuneError)| == 3
  {
  }

  /** In the terminal, a completed line keeps the candidates that it was completed from if and only
      if the completion is valid text: the candidates do not part inside a character. */
  lemma CandidatesKeptExactly(suggests: seq<Bytes>, line: Bytes, newLine: Bytes)
    requires Completes(suggests, line, newLine)
    ensures Filtered(suggests, Retyped(newLine)) == Filtered(suggests, line) <==> ValidText(newLine)
  {
    hide Retyped, ValidText, Filtered;
    var found, next := Filtered(suggests, line), Retyped(newLine);
    BytesAreStable(suggests, line, newLine);
    RetypedExactly(newLine);
    CandidatesShare(suggests, next);
    assert IsCommonPrefix(found, next) <==> next <= newLine;
    assert !ValidText(newLine) ==> !(next <= newLine);
  }

  /** The terminal's line after one Tab: the completion as the terminal takes it over or, if there is
      none, the line as it is, because Tab is not printable. */
  ghost predicate IsTab(suggests: seq<Bytes>, line: Bytes, after: Bytes) {
    if line != [] && Filtered(suggests, line) != [] then
      exists newLine: Bytes :: Completes(suggests, line, newLine) && after == Retyped(newLine)
    else after == line
  }

  method Tab(suggests: seq<Bytes>, line: Bytes) returns (after: Bytes)
    ensures IsTab(suggests, line, after)
  {
    hide Completes, Filtered, Retyped;
    var r := Complete(suggests, line, TabKey);
    after := if r.Some? then Retyped(r.value.0) else line;
  }

  /** There is one completion. */
  lemma CompletionIsUnique(suggests: seq<Bytes>, line: Bytes, a: Bytes, b: Bytes)
    requires Completes(suggests, line, a) && Completes(suggests, line, b)
    ensures a == b
  {
    hide Filtered;
    var found := Filtered(suggests, line);
    assert IsCommonPrefix(found, a) && IsCommonPrefix(found, b);
    assert a <= b <= a;
  }

  /** When a Tab leaves a line of the terminal, which is valid text, as it is: exactly if no candidate
      starts with it, or those that do have nothing more in common. */
  lemma TabKeepsExactly(suggests: seq<Bytes>, line: Bytes, after: Bytes)
    requires ValidText(line) && IsTab(suggests, line, after)
    ensures after == line <==> line == [] || Filtered(suggests, line) == [] || Completes(suggests, line, line)
  {
    hide Filtered, Retyped, ValidText;
    RetypedExactly(line);
    if line != [] && Filtered(suggests, line) != [] {
      var newLine: Bytes :| Completes(suggests, line, newLine) && after == Retyped(newLine);
      BytesAreStable(suggests, line, newLine);
      RetypedExactly(newLine);
      if Completes(suggests, line, line) {
        CompletionIsUnique(suggests, line, newLine, line);
      }
    }
  }

  /** Completing twice is completing once, exactly if the first completion is valid text, or no
      candidate starts with what the terminal makes of it, or those that do have nothing more in
      common. */
  lemma SecondTabExactly(suggests: seq<Bytes>, line: Bytes, newLine: Bytes, again: Bytes)
    requires Completes(suggests, line, newLine) && IsTab(suggests, Retyped(newLine), again)
    ensures var next := Retyped(newLine);
      again == next <==> ValidText(newLine) || Filtered(suggests, next) == [] || Completes(suggests, next, next)
  {
    hide Filtered, Retyped, ValidText;
    var next := Retyped(newLine);
    RetypedIsValid(newLine);
    TabKeepsExactly(suggests, next, again);
    BytesAreStable(suggests, line, newLine);
    RetypedExactly(newLine);
    if ValidText(newLine) {
      assert Completes(suggests, next, next);
    }
    assert |next| >= |newLine| >= |line| > 0;
  }

  lemma RetypedIsValid(b: Bytes)
    ensures ValidText(Retyped(b))
  {
    WholeIsValid(Runes(b));
  }

  lemma CandidatesShare(strs: seq<Bytes>, s: Bytes)
    ensures IsCommonPrefix(Filtered(strs, s), s)
  {
  }

  /** If the candidates are texts, a completion that is valid text consists of their common whole
      characters. */
  lemma CompletionIsWhole(suggests: seq<Bytes>, line: Bytes, newLine: Bytes, names: seq<seq<Rune>>, i: nat) returns (k: nat)
    requires Completes(suggests, line, newLine) && ValidText(newLine)
    requires i < |names| == |Filtered(suggests, line)|
    requires Characters(names[i]) && Filtered(suggests, line)[i] == EncodeAll(names[i])
    ensures k <= |names[i]| && newLine == EncodeAll(names[i][..k])
  {
    hide ValidText, EncodeAll;
    assert IsCommonPrefix(Filtered(suggests, line), newLine);
    assert newLine == EncodeAll(names[i])[..|newLine|];
    k := ValidFront(names[i], |newLine|);
  }

  /** Two hosts that part inside a character, U+00E9 and U+00E8 after an "a": completing "a" gives
      half of it, the terminal replaces that half, and the next Tab has no candidates. */
  lemma HalfACharacter()
    ensures var suggests: seq<Bytes> := [[97, 0xC3, 0xA9], [97, 0xC3, 0xA8]];
      && Completes(suggests, [97], [97, 0xC3])
      && Retyped([97, 0xC3]) == [97, 0xEF, 0xBF, 0xBD]
      && Filtered(suggests, Retyped([97, 0xC3])) == []
  {
    hide Retyped, Filtered, Completes;
    var e: Bytes, f: Bytes := [97, 0xC3, 0xA9], [97, 0xC3, 0xA8];
    HalfCompletes(e, f);
    HalfIsReplaced();
    var replaced: Bytes := [97, 0xEF, 0xBF, 0xBD];
    FilterTwo(e, f, replaced);
    assert e[1] != replaced[1] && f[1] != replaced[1];
  }

  /** Two hosts for which a second Tab does change the line: the half that the first one leaves is
      replaced by U+FFFD, with which one of the hosts goes on. */
  lemma SecondTabCompletes()
    ensures var e: Bytes, f: Bytes := [97, 0xEF, 0xBF, 0xBD, 98], [97, 0xEF, 0x80, 0x80];
      && IsTab([e, f], [97], [97, 0xEF, 0xBF, 0xBD])
      && IsTab([e, f], [97, 0xEF, 0xBF, 0xBD], e)
  {
    hide Retyped, Filtered, Completes, ValidText;
    var e: Bytes, f: Bytes := [97, 0xEF, 0xBF, 0xBD, 98], [97, 0xEF, 0x80, 0x80];
    FilterTwo(e, f, [97]);
    FirstHalf(e, f);
    ReplacedHalf();
    assert Completes([e, f], [97], [97, 0xEF]) && [97, 0xEF, 0xBF, 0xBD] == Retyped([97, 0xEF]);
    OneLeft(e, f);
    HostIsText();
    assert Completes([e, f], [97, 0xEF, 0xBF, 0xBD], e) && e == Retyped(e);
    FilterTwo(e, f, [97, 0xEF, 0xBF, 0xBD]);
  }

  lemma FirstHalf(e: Bytes, f: Bytes)
    requires e == [97, 0xEF, 0xBF, 0xBD, 98] && f == [97, 0xEF, 0x80, 0x80]
    ensures Completes([e, f], [97], [97, 0xEF])
  {
    hide Filtered;
    FilterTwo(e, f, [97]);
    assert [e] + [f] == [e, f];
    forall q: Bytes
      ensures IsCommonPrefix([e, f], q) <==> q <= [97, 0xEF]
    {
      assert [e, f][0] == e && [e, f][1] == f;
      if q <= e && |q| > 2 {
        assert q[2] == 0xBF;
      }
    }
  }

  lemma OneLeft(e: Bytes, f: Bytes)
    requires e == [97, 0xEF, 0xBF, 0xBD, 98] && f == [97, 0xEF, 0x80, 0x80]
    ensures Completes([e, f], [97, 0xEF, 0xBF, 0xBD], e)
  {
    hide Filtered;
    var line: Bytes := [97, 0xEF, 0xBF, 0xBD];
    FilterTwo(e, f, line);
    assert !(line <= f) by {
      assert line[2] != f[2];
    }
    assert Filtered([e, f], line) == [e];
    forall q: Bytes
      ensures IsCommonPrefix([e], q) <==> q <= e
    {
      assert [e][0] == e;
    }
  }

  lemma ReplacedHalf()
    ensures Retyped([97, 0xEF]) == [97, 0xEF, 0xBF, 0xBD]
  {
    assert DecodeRune([97, 0xEF]) == (97, 1) && [97, 0xEF][1..] == [0xEF];
    assert DecodeRune([0xEF]) == (RuneError, 1) && [0xEF][1..] == [];
    assert Runes([0xEF]) == [RuneError] + [];
    assert Runes([97, 0xEF]) == [97] + [RuneError];
    EncodeFirst(97, [RuneError]);
    EncodeFirst(RuneError, []);
    assert [RuneError] + [] == [RuneError];
  }

  lemma HostIsText()
    ensures Retyped([97, 0xEF, 0xBF, 0xBD, 98]) == [97, 0xEF, 0xBF, 0xBD, 98]
  {
    var b: Bytes := [97, 0xEF, 0xBF, 0xBD, 98];
    assert DecodeRune(b) == (97, 1) && b[1..] == [0xEF, 0xBF, 0xBD, 98];
    assert DecodeRune(b[1..]) == (RuneError, 3) && b[1..][3..] == [98];
    assert DecodeRune([98]) == (98, 1) && [98][1..] == [];
    assert ValidText([98]) && ValidText(b[1..]) && ValidText(b);
    RetypedExactly(b);
  }

  lemma HalfCompletes(e: Bytes, f: Bytes)
    requires e == [97, 0xC3, 0xA9] && f == [97, 0xC3, 0xA8]
    ensures Completes([e, f], [97], [97, 0xC3])
  {
    hide Filtered;
    FilterTwo(e, f, [97]);
    assert [e] + [f] == [e, f];
    forall q: Bytes
      ensures IsCommonPrefix([e, f], q) <==> q <= [97, 0xC3]
    {
      SharedHalf(q);
      assert [e, f][0] == e && [e, f][1] == f;
    }
  }

  lemma FilterTwo(e: Bytes, f: Bytes, s: Bytes)
    ensures Filtered([e, f], s) == (if s <= e then [e] else []) + (if s <= f then [f] else [])
  {
    assert [e, f][..1] == [e];
    var one: seq<Bytes> := [e];
    assert one[..0] == [];
    assert Filtered(one, s) == if s <= e then [e] else [];
  }

  lemma SharedHalf(q: Bytes)
    ensures q <= [97, 0xC3, 0xA9] && q <= [97, 0xC3, 0xA8] <==> q <= [97, 0xC3]
  {
    if q <= [97, 0xC3, 0xA9] && |q| == 3 {
      assert q[2] == 0xA9;
    }
  }

  lemma HalfIsReplaced()
    ensures Retyped([97, 0xC3]) == [97, 0xEF, 0xBF, 0xBD]
  {
    assert DecodeRune([97, 0xC3]) == (97, 1) && [97, 0xC3][1..] == [0xC3];
    assert DecodeRune([0xC3]) == (RuneError, 1) && [0xC3][1..] == [];
    assert Runes([0xC3]) == [RuneError] + [];
    assert Runes([97, 0xC3]) == [97] + [RuneError];
    EncodeFirst(97, [RuneError]);
    EncodeFirst(RuneError, []);
    assert [RuneError] + [] == [RuneError];
  }
}
