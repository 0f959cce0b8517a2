// Dates as the pages handle them: ISO "YYYY-MM-DD" text, compared with
// JavaScript's `<` on strings and shown as "DD.MM.YYYY".

module Dates {
  import opened Common

  // ---------------------------------------------------------------------
  // String.prototype.split with a one-character separator.

  function Count(s: string, c: char): nat
  {
    if s == [] then 0 else (if s[0] == c then 1 else 0) + Count(s[1..], c)
  }

  /** `s.split(c)`: the pieces between the separators, always at least one. */
  function Split(s: string, c: char): (parts: seq<string>)
    ensures |parts| == Count(s, c) + 1
  {
    if s == [] then [[]]
    else
      var rest := Split(s[1..], c);
      if s[0] == c then [[]] + rest else [[s[0]] + rest[0]] + rest[1..]
  }

  /** `parts.join(c)`. */
  function Join(parts: seq<string>, c: char): string
    requires |parts| > 0
  {
    if |parts| == 1 then parts[0] else parts[0] + [c] + Join(parts[1..], c)
  }

  /** No piece of a split contains the separator ... */
  lemma {:induction false} SplitPiecesFree(s: string, c: char)
    ensures forall k :: 0 <= k < |Split(s, c)| ==> c !in Split(s, c)[k]
  {
    if s != [] {
      SplitPiecesFree(s[1..], c);
    }
  }

  lemma JoinCons(ch: char, parts: seq<string>, c: char)
    requires |parts| > 0
    ensures Join([[ch] + parts[0]] + parts[1..], c) == [ch] + Join(parts, c)
  {
    var q := [[ch] + parts[0]] + parts[1..];
    if |parts| > 1 {
      assert q[1..] == parts[1..];
    }
  }

  /** ... and joining the pieces again gives back the string. */
  lemma {:induction false} JoinSplit(s: string, c: char)
    ensures Join(Split(s, c), c) == s
  {
    if s != [] {
      var rest := Split(s[1..], c);
      JoinSplit(s[1..], c);
      if s[0] == c {
        assert Split(s, c) == [[]] + rest;
        assert ([[]] + rest)[1..] == rest;
      } else {
        assert Split(s, c) == [[s[0]] + rest[0]] + rest[1..];
        JoinCons(s[0], rest, c);
      }
      assert [s[0]] + s[1..] == s;
    }
  }

  lemma {:induction false} CountAppend(a: string, b: string, c: char)
    ensures Count(a + b, c) == Count(a, c) + Count(b, c)
  {
    if a != [] {
      assert (a + b)[1..] == a[1..] + b;
      CountAppend(a[1..], b, c);
    } else {
      assert a + b == b;
    }
  }

  lemma {:induction false} CountFree(s: string, c: char)
    requires c !in s
    ensures Count(s, c) == 0
  {
    if s != [] {
      CountFree(s[1..], c);
    }
  }

  /** Splitting `x + [c] + y` where `x` holds no separator starts with `x`. */
  lemma {:induction false} SplitAtFirst(x: string, y: string, c: char)
    requires c !in x
    ensures Split(x + [c] + y, c) == [x] + Split(y, c)
  {
    if x == [] {
      assert ([c] + y)[1..] == y;
    } else {
      assert (x + [c] + y)[1..] == x[1..] + [c] + y;
      SplitAtFirst(x[1..], y, c);
      assert [x[0]] + x[1..] == x;
    }
  }

  lemma SplitFree(s: string, c: char)
    requires c !in s
    ensures Split(s, c) == [s]
  {
    CountFree(s, c);
    SplitPiecesFree(s, c);
    JoinSplit(s, c);
  }

  // ---------------------------------------------------------------------
  // formatDate (GroupPage and PostPage define it identically).

  /** `s.slice(0, n)`. */
  function Take(s: string, n: nat): (r: string)
    ensures |r| == if |s| < n then |s| else n
  {
    if |s| < n then s else s[..n]
  }

  /**
   * An empty value gives ''; otherwise the first ten characters are split at
   * '-' and, when that yields exactly three pieces, shown in reverse order
   * joined by '.'; any other shape is returned unchanged.
   */
  function FormatDate(s: string): (r: string)
    ensures s == [] ==> r == []
    ensures s != [] && Count(Take(s, 10), '-') != 2 ==> r == s
  {
    if s == [] then []
    else
      var d := Split(Take(s, 10), '-');
      if |d| != 3 then s else d[2] + "." + d[1] + "." + d[0]
  }

  /** An ISO calendar date "YYYY-MM-DD": digits, with '-' at positions 4 and 7. */
  predicate IsIsoDate(s: string)
  {
    |s| == 10 && s[4] == '-' && s[7] == '-'
    && AllDigits(s[..4]) && AllDigits(s[5..7]) && AllDigits(s[8..10])
  }

  /**
   * A value starting with an ISO date (a date, or a timestamp such as
   * created_at) is shown as "DD.MM.YYYY", and the ISO date can be read back
   * from what is shown.
   */
  lemma FormatDateIso(s: string)
    requires |s| >= 10 && IsIsoDate(s[..10])
    ensures FormatDate(s) == s[8..10] + "." + s[5..7] + "." + s[..4]
    ensures var r := FormatDate(s);
      |r| == 10 && r[6..] + "-" + r[3..5] + "-" + r[..2] == s[..10]
  {
    var t := s[..10];
    var y, m, d := s[..4], s[5..7], s[8..10];
    assert Take(s, 10) == t;
    assert t[..4] == y && t[5..7] == m && t[8..10] == d;
    assert '-' !in y && '-' !in m && '-' !in d;
    assert t == y + ['-'] + (m + ['-'] + d);
    SplitAtFirst(y, m + ['-'] + d, '-');
    SplitAtFirst(m, d, '-');
    SplitFree(d, '-');
    assert Split(t, '-') == [y, m, d];
    var r := d + "." + m + "." + y;
    assert r[6..] == y && r[3..5] == m && r[..2] == d;
  }

  // ---------------------------------------------------------------------
  // Deadlines are compared as strings (`postDeadline < today`,
  // `deadline < current`). For ISO dates this is the calendar order.

  function Year(s: string): nat requires IsIsoDate(s) { DigitsValue(s[..4]) }
  function Month(s: string): nat requires IsIsoDate(s) { DigitsValue(s[5..7]) }
  function Day(s: string): nat requires IsIsoDate(s) { DigitsValue(s[8..10]) }

  /** (year, month, day) compared field by field. */
  predicate CalendarBefore(a: string, b: string)
    requires IsIsoDate(a) && IsIsoDate(b)
  {
    Year(a) < Year(b)
    || (Year(a) == Year(b) && (Month(a) < Month(b) || (Month(a) == Month(b) && Day(a) < Day(b))))
  }

  function Pow10(n: nat): (p: nat)
    ensures p >= 1
  {
    if n == 0 then 1 else 10 * Pow10(n - 1)
  }

  lemma {:induction false} DigitsValueBound(s: string)
    requires AllDigits(s)
    ensures DigitsValue(s) < Pow10(|s|)
  {
    if s != [] {
      DigitsValueBound(s[..|s| - 1]);
    }
  }

  /** The leading digit carries the highest weight. */
  lemma {:induction false} DigitsValueFront(s: string)
    requires AllDigits(s) && s != []
    ensures DigitsValue(s) == DigitValue(s[0]) * Pow10(|s| - 1) + DigitsValue(s[1..])
  {
    if |s| > 1 {
      var init := s[..|s| - 1];
      var t := s[1..];
      DigitsValueFront(init);
      assert init[1..] == t[..|t| - 1];
      assert init[0] == s[0];
      assert t[|t| - 1] == s[|s| - 1];
      assert DigitsValue(s) == DigitsValue(init) * 10 + DigitValue(s[|s| - 1]);
      assert DigitsValue(t) == DigitsValue(init[1..]) * 10 + DigitValue(s[|s| - 1]);
      FrontStep(DigitValue(s[0]), Pow10(|s| - 2), DigitsValue(init[1..]), DigitValue(s[|s| - 1]));
    } else {
      assert s[..0] == [];
      assert s[1..] == [];
    }
  }

  lemma FrontStep(d: int, p: int, m: int, last: int)
    ensures (d * p + m) * 10 + last == d * (10 * p) + (m * 10 + last)
  {
  }

  lemma WeightedLess(x: nat, y: nat, p: nat, u: nat, v: nat)
    requires x < y && u < p && v < p
    ensures x * p + u < y * p + v
  {
    assert (x + 1) * p <= y * p;
  }

  /** For digit strings of one length, string order is numeric order. */
  lemma {:induction false} DigitsLexOrder(a: string, b: string)
    requires AllDigits(a) && AllDigits(b) && |a| == |b|
    ensures LexLess(a, b) <==> DigitsValue(a) < DigitsValue(b)
    ensures a == b <==> DigitsValue(a) == DigitsValue(b)
  {
    if a != [] {
      DigitsValueFront(a);
      DigitsValueFront(b);
      DigitsValueBound(a[1..]);
      DigitsValueBound(b[1..]);
      var p := Pow10(|a| - 1);
      if a[0] == b[0] {
        DigitsLexOrder(a[1..], b[1..]);
        if a[1..] == b[1..] {
          assert a == [a[0]] + a[1..] && b == [b[0]] + b[1..];
        }
      } else if a[0] < b[0] {
        WeightedLess(DigitValue(a[0]), DigitValue(b[0]), p, DigitsValue(a[1..]), DigitsValue(b[1..]));
      } else {
        WeightedLess(DigitValue(b[0]), DigitValue(a[0]), p, DigitsValue(b[1..]), DigitsValue(a[1..]));
      }
    }
  }

  /** Comparing `x + y` with `x' + y'` for `|x| == |x'|` compares `x` first. */
  lemma {:induction false} LexLessConcat(x: string, y: string, x': string, y': string)
    requires |x| == |x'|
    ensures LexLess(x + y, x' + y') <==> LexLess(x, x') || (x == x' && LexLess(y, y'))
  {
    if x != [] {
      assert (x + y)[1..] == x[1..] + y && (x' + y')[1..] == x'[1..] + y';
      LexLessConcat(x[1..], y, x'[1..], y');
      if x[0] == x'[0] && x[1..] == x'[1..] {
        assert x == [x[0]] + x[1..] && x' == [x'[0]] + x'[1..];
      }
    } else {
      assert x' == [] && x + y == y && x' + y' == y';
    }
  }

  /**
   * Lexicographic order of ISO dates is the calendar order: this is why the
   * pages may compare deadlines with `<` on strings.
   */
  lemma IsoLexIsCalendarOrder(a: string, b: string)
    requires IsIsoDate(a) && IsIsoDate(b)
    ensures LexLess(a, b) <==> CalendarBefore(a, b)
  {
    IsoLexParts(a, b);
    DigitsLexOrder(a[..4], b[..4]);
    DigitsLexOrder(a[5..7], b[5..7]);
    DigitsLexOrder(a[8..10], b[8..10]);
  }

  /** `<` on two ISO dates compares the year text, then the month text, then the day text. */
  lemma IsoLexParts(a: string, b: string)
    requires IsIsoDate(a) && IsIsoDate(b)
    ensures LexLess(a, b) <==>
      LexLess(a[..4], b[..4]) || (a[..4] == b[..4] &&
        (LexLess(a[5..7], b[5..7]) || (a[5..7] == b[5..7] && LexLess(a[8..10], b[8..10]))))
  {
    var a1, a2, a3 := a[..4], a[5..7], a[8..10];
    var b1, b2, b3 := b[..4], b[5..7], b[8..10];
    var ta, tb := ['-'] + a3, ['-'] + b3;
    var ma, mb := ['-'] + a2 + ta, ['-'] + b2 + tb;
    assert a == a1 + ma && b == b1 + mb;
    LexLessConcat(a1, ma, b1, mb);
    assert ma == ['-'] + (a2 + ta) && mb == ['-'] + (b2 + tb);
    LexLessConcat(['-'], a2 + ta, ['-'], b2 + tb);
    LexLessIrreflexive(['-']);
    LexLessConcat(a2, ta, b2, tb);
    LexLessConcat(['-'], a3, ['-'], b3);
  }
}
