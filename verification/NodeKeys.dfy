/** The order of node keys such as `1:3:0`: component by component, by numeric value. */
module NodeKeys {
  import opened Wrappers

  /** The parts of a key between colons. */
  function Split(key: string): (parts: seq<string>)
    ensures parts != []
  {
    if key == "" then [""]
    else
      var rest := Split(key[1..]);
      if key[0] == ':' then [""] + rest else [[key[0]] + rest[0]] + rest[1..]
  }

  function Join(parts: seq<string>): string
    requires parts != []
  {
    if |parts| == 1 then parts[0] else parts[0] + ":" + Join(parts[1..])
  }

  lemma {:induction false} JoinSplit(key: string)
    ensures Join(Split(key)) == key
  {
    if key != "" {
      var rest := Split(key[1..]);
      JoinSplit(key[1..]);
      assert key == [key[0]] + key[1..];
      if key[0] == ':' {
        assert ([""] + rest)[1..] == rest;
      } else if |rest| > 1 {
        assert ([[key[0]] + rest[0]] + rest[1..])[1..] == rest[1..];
        assert [key[0]] + (rest[0] + ":" + Join(rest[1..])) == [key[0]] + rest[0] + ":" + Join(rest[1..]);
      }
    }
  }

  predicate IsDigit(c: char) {
    '0' <= c <= '9'
  }

  /** The value of a string of digits. */
  function Digits(s: string): Option<nat> {
    if s == "" || !IsDigit(s[|s| - 1]) then None
    else
      var d := (s[|s| - 1] - '0') as nat;
      if |s| == 1 then Some(d)
      else
        match Digits(s[..|s| - 1])
        case None => None
        case Some(n) => Some(n * 10 + d)
  }

  const IntLimit: nat := 0x8000_0000_0000_0000

  /** `strconv.Atoi`: an optional sign and digits within 64 bits. */
  function Atoi(s: string): Option<int> {
    var signed := s != "" && (s[0] == '+' || s[0] == '-');
    var digits := Digits(if signed then s[1..] else s);
    if digits.None? then None
    else
      var n: int := digits.value;
      if signed && s[0] == '-' then (if n <= IntLimit then Some(-n) else None)
      else if n < IntLimit then Some(n) else None
  }

  /** A decimal number as it is written: digits in range, no sign, no leading zero. */
  predicate IsCanonical(s: string) {
    Digits(s).Some? && Digits(s).value < IntLimit && (|s| > 1 ==> s[0] != '0')
  }

  lemma {:induction false} FirstIsDigit(s: string)
    requires Digits(s).Some?
    ensures s != "" && IsDigit(s[0])
  {
    if |s| > 1 {
      FirstIsDigit(s[..|s| - 1]);
    }
  }

  lemma CanonicalAtoi(s: string)
    requires IsCanonical(s)
    ensures Atoi(s) == Some(Digits(s).value)
  {
    FirstIsDigit(s);
  }

  /** The comparison loop: true also for equal keys. */
  function Less(a: seq<string>, b: seq<string>): bool {
    if a == [] then true
    else if b == [] then false
    else if a[0] == b[0] then Less(a[1..], b[1..])
    else if Atoi(a[0]).None? then true
    else if Atoi(b[0]).None? then false
    else Atoi(a[0]).value < Atoi(b[0]).value
  }

  function KeySort(key1: string, key2: string): bool {
    Less(Split(key1), Split(key2))
  }

  // Numbers and their numerals ------------------------------------------------

  /** A numeral without leading zero is positive unless it is "0". */
  lemma {:induction false} DigitsPositive(s: string)
    requires Digits(s).Some? && s[0] != '0'
    ensures Digits(s).value > 0
  {
    if |s| > 1 {
      DigitsPositive(s[..|s| - 1]);
    }
  }

  /** Canonical numerals are the same if their values are. */
  lemma {:induction false} CanonicalInjective(s: string, t: string)
    requires IsCanonical(s) && IsCanonical(t) && Digits(s) == Digits(t)
    ensures s == t
  {
    if |s| > 1 {
      DigitsPositive(s[..|s| - 1]);
    }
    if |t| > 1 {
      DigitsPositive(t[..|t| - 1]);
    }
    if |s| > 1 && |t| > 1 {
      var s', t' := s[..|s| - 1], t[..|t| - 1];
      CanonicalInjective(s', t');
      assert s == s' + [s[|s| - 1]] && t == t' + [t[|t| - 1]];
    }
  }

  lemma AtoiInjective(s: string, t: string)
    requires IsCanonical(s) && IsCanonical(t)
    ensures Atoi(s).Some? && Atoi(t).Some? && (Atoi(s) == Atoi(t) ==> s == t)
  {
    CanonicalAtoi(s);
    CanonicalAtoi(t);
    if Atoi(s) == Atoi(t) {
      CanonicalInjective(s, t);
    }
  }

  function DigitChar(d: nat): char
    requires d < 10
  {
    '0' + d as char
  }

  /** A number in decimal notation. */
  function Decimal(n: nat): (s: string)
    ensures s != ""
  {
    if n < 10 then [DigitChar(n)] else Decimal(n / 10) + [DigitChar(n % 10)]
  }

  /** Numerals are read as decimal numbers. */
  lemma {:induction false} DigitsOfDecimal(n: nat)
    ensures Digits(Decimal(n)) == Some(n)
  {
    var s := Decimal(n);
    if n >= 10 {
      DigitsOfDecimal(n / 10);
      assert s[..|s| - 1] == Decimal(n / 10);
      assert n == n / 10 * 10 + n % 10;
    }
  }

  /** Exactly the strings of digits are numerals. */
  lemma {:induction false} DigitsExactly(s: string)
    ensures Digits(s).Some? <==> s != "" && forall i | 0 <= i < |s| :: IsDigit(s[i])
  {
    if |s| > 1 {
      DigitsExactly(s[..|s| - 1]);
      assert forall i | 0 <= i < |s| - 1 :: s[..|s| - 1][i] == s[i];
    }
  }

  /** `Atoi` reads what is written in decimal, with or without a sign, as far as 64 bits go. */
  lemma AtoiReads(n: nat)
    ensures Atoi(Decimal(n)) == Atoi("+" + Decimal(n)) == if n < IntLimit then Some(n) else None
    ensures Atoi("-" + Decimal(n)) == if n <= IntLimit then Some(0 - n) else None
    ensures IntLimit == 9223372036854775808
  {
    var s := Decimal(n);
    DigitsOfDecimal(n);
    FirstIsDigit(s);
    assert ("+" + s)[1..] == s && ("-" + s)[1..] == s;
  }

  predicate Numeric(parts: seq<string>) {
    forall i | 0 <= i < |parts| :: IsCanonical(parts[i])
  }

  // The order -----------------------------------------------------------------

  /** On distinct numeric keys exactly one of the two comes first. */
  lemma {:induction false} LessTotal(a: seq<string>, b: seq<string>)
    requires Numeric(a) && Numeric(b) && a != b
    ensures Less(a, b) <==> !Less(b, a)
  {
    hide Atoi, IsCanonical;
    if a != [] && b != [] {
      AtoiInjective(a[0], b[0]);
      if a[0] == b[0] {
        assert a == [a[0]] + a[1..] && b == [b[0]] + b[1..];
        LessTotal(a[1..], b[1..]);
      }
    }
  }

  lemma {:induction false} LessTransitive(a: seq<string>, b: seq<string>, c: seq<string>)
    requires Numeric(a) && Numeric(b) && Numeric(c)
    requires Less(a, b) && Less(b, c)
    ensures Less(a, c)
  {
    hide Atoi, IsCanonical;
    if a != [] {
      AtoiInjective(a[0], b[0]);
      AtoiInjective(b[0], c[0]);
      if a[0] == b[0] && b[0] == c[0] {
        LessTransitive(a[1..], b[1..], c[1..]);
      }
    }
  }

  /** A key comes before the keys below it. */
  lemma {:induction false} AncestorFirst(a: seq<string>, below: seq<string>)
    requires below != []
    ensures Less(a, a + below) && !Less(a + below, a)
  {
    if a == [] {
      assert a + below == below;
    } else {
      assert (a + below)[1..] == a[1..] + below;
      AncestorFirst(a[1..], below);
    }
  }

  /** The first components that differ decide: the smaller number comes first; what is not a number
      comes before everything when it is on the left, and after when it is on the right. */
  lemma {:induction false} FirstDifferenceDecides(front: seq<string>, x: string, a: seq<string>, y: string, b: seq<string>)
    requires x != y
    ensures Less(front + [x] + a, front + [y] + b) <==>
      Atoi(x).None? || (Atoi(y).Some? && Atoi(x).value < Atoi(y).value)
  {
    hide Atoi;
    var l, r := front + [x] + a, front + [y] + b;
    if front == [] {
      assert l[0] == x && r[0] == y;
    } else {
      assert l[0] == front[0] == r[0] && l[1..] == front[1..] + [x] + a && r[1..] == front[1..] + [y] + b;
      FirstDifferenceDecides(front[1..], x, a, y, b);
    }
  }

  /** On distinct numeric keys the comparison is a strict total order: irreflexive where it
      matters, total, transitive. */
  lemma KeySortIsStrictOrder(x: string, y: string, z: string)
    requires Numeric(Split(x)) && Numeric(Split(y)) && Numeric(Split(z))
    ensures x != y ==> (KeySort(x, y) <==> !KeySort(y, x))
    ensures x != z && KeySort(x, y) && KeySort(y, z) ==> KeySort(x, z) && !KeySort(z, x)
  {
    JoinSplit(x);
    JoinSplit(y);
    JoinSplit(z);
    if x != y {
      LessTotal(Split(x), Split(y));
    }
    if x != z {
      LessTotal(Split(x), Split(z));
      if KeySort(x, y) && KeySort(y, z) {
        LessTransitive(Split(x), Split(y), Split(z));
      }
    }
  }

  // Parents -------------------------------------------------------------------

  /** Everything before the last colon, if there is one. */
  function Parent(key: string): (p: Option<string>)
    ensures p.Some? ==> |p.value| < |key|
  {
    if key == "" then None
    else if key[|key| - 1] == ':' then Some(key[..|key| - 1])
    else Parent(key[..|key| - 1])
  }

  /** A key has a parent exactly if it has a colon. */
  lemma {:induction false} ParentExactly(key: string)
    ensures Parent(key).Some? <==> ':' in key
  {
    if key != "" {
      var last := |key| - 1;
      ParentExactly(key[..last]);
      assert key == key[..last] + [key[last]];
    }
  }

  /** Nor is a colon left out. */
  lemma {:induction false} SplitParts(key: string, i: nat)
    requires i < |Split(key)|
    ensures ':' !in Split(key)[i]
  {
    if key != "" {
      var rest := Split(key[1..]);
      if key[0] == ':' {
        if i > 0 {
          SplitParts(key[1..], i - 1);
        }
      } else {
        SplitParts(key[1..], i);
      }
    }
  }

  lemma {:induction false} ParentTail(key: string) returns (tail: string)
    requires Parent(key).Some?
    ensures key == Parent(key).value + ":" + tail && ':' !in tail
  {
    var last := |key| - 1;
    if key[last] == ':' {
      tail := "";
    } else {
      var t := ParentTail(key[..last]);
      tail := t + [key[last]];
    }
    assert key == key[..last] + [key[last]];
  }

  /** Puts a character in front of a key given by its parts. */
  function Prepend(c: char, parts: seq<string>): (r: seq<string>)
    requires parts != []
    ensures r != []
  {
    if c == ':' then [""] + parts else [[c] + parts[0]] + parts[1..]
  }

  lemma SplitFirst(key: string)
    requires key != ""
    ensures Split(key) == Prepend(key[0], Split(key[1..]))
  {
  }

  lemma PrependTo(c: char, a: seq<string>, b: seq<string>)
    requires a != []
    ensures Prepend(c, a + b) == Prepend(c, a) + b
  {
    assert (a + b)[1..] == a[1..] + b;
  }

  lemma {:induction false} SplitColon(a: string, b: string)
    ensures Split(a + ":" + b) == Split(a) + Split(b)
  {
    hide Split, Prepend;
    var key := a + ":" + b;
    SplitFirst(key);
    if a == "" {
      assert key == ":" + b && key[1..] == b;
      ColonFirst(b);
    } else {
      SplitFirst(a);
      assert key[0] == a[0] && key[1..] == a[1..] + ":" + b;
      SplitColon(a[1..], b);
      PrependTo(a[0], Split(a[1..]), Split(b));
    }
  }

  lemma ColonFirst(b: string)
    ensures Prepend(':', Split(b)) == Split("") + Split(b)
  {
  }

  /** Sorting puts a parent before its children. */
  lemma ParentSortsFirst(key: string)
    requires Parent(key).Some?
    ensures KeySort(Parent(key).value, key) && !KeySort(key, Parent(key).value)
  {
    var tail := ParentTail(key);
    SplitColon(Parent(key).value, tail);
    AncestorFirst(Split(Parent(key).value), Split(tail));
  }
}
