// backend/api/views.py, the PATCH branch of group_post_detail: how the
// 'file_ids_to_delete' form value is turned into the ids of the files to
// delete. The value is first read as JSON; if that fails, as one Python
// integer; only the entries whose decimal text is all digits are kept.

module FileIds {
  import opened Common
  import PostService

  // ---------------------------------------------------------------------
  // The part of Python's json.loads that an id list can reach: integer
  // literals and arrays of integer literals, with JSON white space.

  predicate IsJsonSpace(c: char)
  {
    c == ' ' || c == '\t' || c == '\n' || c == '\r'
  }

  /** The input after its leading JSON white space. */
  function SkipSpace(s: string): (r: string)
    ensures |r| <= |s| && r == s[|s| - |r|..]
    ensures r == [] || !IsJsonSpace(r[0])
  {
    if s != [] && IsJsonSpace(s[0]) then SkipSpace(s[1..]) else s
  }

  /** The longest run of decimal digits the input starts with. */
  function DigitRun(s: string): (d: string)
    ensures AllDigits(d) && d <= s
    ensures |d| < |s| ==> !IsDigit(s[|d|])
  {
    if s != [] && IsDigit(s[0]) then [s[0]] + DigitRun(s[1..]) else []
  }

  /** Unsigned digits `0|[1-9][0-9]*` not followed by a fraction or an exponent. */
  function ParseUnsigned(t: string): (r: Option<(nat, string)>)
    ensures r.Some? ==> |r.value.1| < |t|
  {
    var d := DigitRun(t);
    if d == [] || (|d| > 1 && d[0] == '0') then None
    else
      var rest := t[|d|..];
      if rest != [] && (rest[0] == '.' || rest[0] == 'e' || rest[0] == 'E') then None
      else Some((DigitsValue(d), rest))
  }

  /**
   * A JSON integer literal `-?(0|[1-9][0-9]*)` at the start of the input and
   * what follows it. A fraction or an exponent makes it a float, which an
   * id list never holds: None.
   */
  function ParseInt(s: string): (r: Option<(int, string)>)
    ensures r.Some? ==> |r.value.1| < |s|
  {
    if s != [] && s[0] == '-' then
      match ParseUnsigned(s[1..])
      case None => None
      case Some((v, rest)) => Some((-(v as int), rest))
    else
      match ParseUnsigned(s)
      case None => None
      case Some((v, rest)) => Some((v as int, rest))
  }

  /** The items of a non-empty array and its closing bracket; the input starts at an item. */
  function ParseItems(s: string): (r: Option<(seq<int>, string)>)
    ensures r.Some? ==> |r.value.1| < |s|
    decreases |s|
  {
    var p := ParseInt(s);
    if p.None? then None
    else
      var after := SkipSpace(p.value.1);
      if after != [] && after[0] == ']' then Some(([p.value.0], after[1..]))
      else if after != [] && after[0] == ',' then
        var more := ParseItems(SkipSpace(after[1..]));
        if more.None? then None else Some(([p.value.0] + more.value.0, more.value.1))
      else None
  }

  /** What json.loads makes of the text, as far as the model distinguishes. */
  datatype Json = IntArray(items: seq<int>) | Int(n: int) | NotJson

  function JsonLoads(s: string): Json
  {
    var t := SkipSpace(s);
    if t != [] && t[0] == '[' then
      var u := SkipSpace(t[1..]);
      if u != [] && u[0] == ']' then
        (if SkipSpace(u[1..]) == [] then IntArray([]) else NotJson)
      else
        match ParseItems(u)
        case Some((xs, tail)) => if SkipSpace(tail) == [] then IntArray(xs) else NotJson
        case None => NotJson
    else
      match ParseInt(t)
      case Some((n, tail)) => if SkipSpace(tail) == [] then Int(n) else NotJson
      case None => NotJson
  }

  /** Python's int(text) on an optionally signed run of ASCII digits. */
  function PyInt(s: string): (r: Option<int>)
    ensures r.Some? ==> |s| > 0
  {
    var neg := s != [] && s[0] == '-';
    var t := if s != [] && (s[0] == '-' || s[0] == '+') then s[1..] else s;
    if t != [] && AllDigits(t) then
      var v: int := DigitsValue(t);
      Some(if neg then -v else v)
    else None
  }

  // ---------------------------------------------------------------------
  // The handler's reading of the value.

  /** `str(fid)` for an integer. */
  function PyStr(x: int): string
  {
    PostService.IntText(x)
  }

  /** `[int(fid) for fid in ids if str(fid).isdigit()]`. */
  function KeepDigits(xs: seq<int>): (r: seq<nat>)
    ensures |r| <= |xs|
    ensures forall y :: y in r <==> y in xs && AllDigits(PyStr(y))
  {
    if xs == [] then []
    else
      PyStrDigits(xs[0]);
      (if AllDigits(PyStr(xs[0])) then [xs[0] as nat] else []) + KeepDigits(xs[1..])
  }

  /** The ids to delete, or the server error raised by iterating over a lone integer. */
  datatype IdsOutcome = Ids(ids: seq<nat>) | ServerError

  /**
   * An absent or empty value deletes nothing; a JSON array is filtered; a
   * JSON integer is not iterable; any other text is read with int(), and
   * failing that deletes nothing.
   */
  function ParseFileIds(raw: Option<string>): (r: IdsOutcome)
    ensures raw.None? || raw == Some([]) ==> r == Ids([])
    ensures r.Ids? ==> forall i :: 0 <= i < |r.ids| ==> AllDigits(PyStr(r.ids[i]))
  {
    if raw.None? || raw.value == [] then Ids([])
    else
      match JsonLoads(raw.value)
      case IntArray(xs) => Ids(KeepDigits(xs))
      case Int(_) => ServerError
      case NotJson =>
        match PyInt(raw.value)
        case Some(n) => Ids(KeepDigits([n]))
        case None => Ids([])
  }

  // ---------------------------------------------------------------------
  // Properties.

  /** `str(x).isdigit()` holds exactly for the non-negative integers. */
  lemma PyStrDigits(x: int)
    ensures AllDigits(PyStr(x)) <==> x >= 0
  {
    if x < 0 {
      assert PyStr(x)[0] == '-';
    }
  }

  /** The filter keeps the non-negative ids, in order. */
  lemma {:induction false} KeepDigitsNonNegative(xs: seq<int>)
    ensures KeepDigits(xs) == Filter(xs, (x: int) => x >= 0)
  {
    if xs != [] {
      PyStrDigits(xs[0]);
      KeepDigitsNonNegative(xs[1..]);
    }
  }

  lemma {:induction false} DigitRunStops(d: string, rest: string)
    requires AllDigits(d)
    requires rest == [] || !IsDigit(rest[0])
    ensures DigitRun(d + rest) == d
  {
    if d == [] {
      assert d + rest == rest;
    } else {
      assert (d + rest)[1..] == d[1..] + rest;
      DigitRunStops(d[1..], rest);
      assert [d[0]] + d[1..] == d;
    }
  }

  lemma ParseUnsignedText(n: nat, rest: string)
    requires rest == [] || !(IsDigit(rest[0]) || rest[0] == '.' || rest[0] == 'e' || rest[0] == 'E')
    ensures ParseUnsigned(NatToString(n) + rest) == Some((n, rest))
  {
    var d := NatToString(n);
    NatToStringValue(n);
    DigitRunStops(d, rest);
    assert (d + rest)[|d|..] == rest;
  }

  lemma ParseIntMinus(u: string, n: nat, rest: string)
    requires ParseUnsigned(u) == Some((n, rest))
    ensures ParseInt(['-'] + u) == Some((-(n as int), rest))
  {
    assert (['-'] + u)[1..] == u;
  }

  lemma ParseIntPlain(u: string, n: nat, rest: string)
    requires ParseUnsigned(u) == Some((n, rest)) && u != [] && u[0] != '-'
    ensures ParseInt(u) == Some((n as int, rest))
  {
  }

  /** JSON.stringify's text of an integer reads back as that integer. */
  lemma ParseIntText(x: int, rest: string)
    requires rest == [] || !(IsDigit(rest[0]) || rest[0] == '.' || rest[0] == 'e' || rest[0] == 'E')
    ensures ParseInt(PostService.IntText(x) + rest) == Some((x, rest))
  {
    if x < 0 {
      ParseNegativeText(-x, rest);
    } else {
      ParseNonNegativeText(x, rest);
    }
  }

  lemma ParseNegativeText(n: nat, rest: string)
    requires n > 0
    requires rest == [] || !(IsDigit(rest[0]) || rest[0] == '.' || rest[0] == 'e' || rest[0] == 'E')
    ensures ParseInt(PostService.IntText(-(n as int)) + rest) == Some((-(n as int), rest))
  {
    var u := NatToString(n) + rest;
    ParseUnsignedText(n, rest);
    ParseIntMinus(u, n, rest);
    assert PostService.IntText(-(n as int)) == "-" + NatToString(n);
    assert PostService.IntText(-(n as int)) + rest == ['-'] + u;
  }

  lemma ParseNonNegativeText(n: nat, rest: string)
    requires rest == [] || !(IsDigit(rest[0]) || rest[0] == '.' || rest[0] == 'e' || rest[0] == 'E')
    ensures ParseInt(PostService.IntText(n) + rest) == Some((n as int, rest))
  {
    var d := NatToString(n);
    assert PostService.IntText(n) == d;
    ParseUnsignedText(n, rest);
    assert (d + rest)[0] == d[0];
    ParseIntPlain(d + rest, n, rest);
  }

  /** The text of a non-empty id list starts with a sign or a digit. */
  lemma JoinIntsStart(xs: seq<int>)
    requires xs != []
    ensures PostService.JoinInts(xs) != []
    ensures PostService.JoinInts(xs)[0] == '-' || IsDigit(PostService.JoinInts(xs)[0])
  {
    var t := PostService.IntText(xs[0]);
    assert t != [] && (t[0] == '-' || IsDigit(t[0]));
    if |xs| > 1 {
      var j := PostService.JoinInts(xs);
      assert j == t + "," + PostService.JoinInts(xs[1..]);
      assert j[0] == t[0];
    }
  }

  /** The last item: the number, then the closing bracket. */
  lemma ParseLastItem(x: int, tail: string)
    ensures ParseItems(PostService.IntText(x) + ("]" + tail)) == Some(([x], tail))
  {
    var after := "]" + tail;
    ParseIntText(x, after);
    assert SkipSpace(after) == after;
    assert after[1..] == tail;
  }

  /** An item followed by a comma: the number, then the items after it. */
  lemma ParseNextItem(x: int, more: string)
    requires more != [] && !IsJsonSpace(more[0])
    ensures var r := ParseItems(more);
      ParseItems(PostService.IntText(x) + ("," + more)) ==
        if r.None? then None else Some(([x] + r.value.0, r.value.1))
  {
    ParseIntText(x, "," + more);
    ParseItemsComma(PostService.IntText(x) + ("," + more), x, more);
  }

  /** One step of the item loop: a number, a comma, and the items after it. */
  lemma ParseItemsComma(s: string, x: int, more: string)
    requires ParseInt(s) == Some((x, "," + more))
    requires more != [] && !IsJsonSpace(more[0])
    ensures var r := ParseItems(more);
      ParseItems(s) == if r.None? then None else Some(([x] + r.value.0, r.value.1))
  {
    var after := "," + more;
    assert after[0] == ',' && SkipSpace(after) == after;
    assert after[1..] == more && SkipSpace(more) == more;
  }

  lemma Regroup(t: string, j: string, tail: string)
    ensures t + "," + j + "]" + tail == t + ("," + (j + "]" + tail))
  {
  }

  /** The items of JSON.stringify(xs), then ']', read back as xs. */
  lemma {:induction false} ParseItemsText(xs: seq<int>, tail: string)
    requires xs != []
    ensures ParseItems(PostService.JoinInts(xs) + "]" + tail) == Some((xs, tail))
  {
    var t := PostService.IntText(xs[0]);
    if |xs| == 1 {
      assert PostService.JoinInts(xs) == t;
      assert t + "]" + tail == t + ("]" + tail);
      ParseLastItem(xs[0], tail);
      assert [xs[0]] == xs;
    } else {
      var j := PostService.JoinInts(xs[1..]);
      ParseItemsText(xs[1..], tail);
      ParseItemsCons(xs, t, j, tail);
    }
  }

  lemma ParseItemsCons(xs: seq<int>, t: string, j: string, tail: string)
    requires |xs| > 1 && t == PostService.IntText(xs[0]) && j == PostService.JoinInts(xs[1..])
    requires ParseItems(j + "]" + tail) == Some((xs[1..], tail))
    ensures ParseItems(PostService.JoinInts(xs) + "]" + tail) == Some((xs, tail))
  {
    var more := j + "]" + tail;
    JoinIntsCons(xs, t, j, tail);
    MoreStart(xs[1..], j, tail);
    ParseNextItem(xs[0], more);
    assert [xs[0]] + xs[1..] == xs;
  }

  lemma JoinIntsCons(xs: seq<int>, t: string, j: string, tail: string)
    requires |xs| > 1 && t == PostService.IntText(xs[0]) && j == PostService.JoinInts(xs[1..])
    ensures PostService.JoinInts(xs) + "]" + tail == t + ("," + (j + "]" + tail))
  {
    assert PostService.JoinInts(xs) == t + "," + j;
    Regroup(t, j, tail);
  }

  lemma MoreStart(xs: seq<int>, j: string, tail: string)
    requires xs != [] && j == PostService.JoinInts(xs)
    ensures j + "]" + tail != [] && !IsJsonSpace((j + "]" + tail)[0])
  {
    JoinIntsStart(xs);
    assert (j + "]" + tail)[0] == j[0];
  }

  /** json.loads reads JSON.stringify's text of a non-empty id list back. */
  lemma JsonLoadsText(xs: seq<int>)
    requires xs != []
    ensures JsonLoads(PostService.JsonInts(xs)) == IntArray(xs)
  {
    var j := PostService.JoinInts(xs);
    var body := j + "]" + [];
    var s := PostService.JsonInts(xs);
    assert s == ['['] + body;
    assert SkipSpace(s) == s;
    assert s[1..] == body;
    MoreStart(xs, j, []);
    JoinIntsStart(xs);
    assert body[0] == j[0];
    ParseItemsText(xs, []);
  }

  /**
   * The round trip between updatePost and the handler: the JSON array the
   * client sends for a non-empty list of ids is read back as that list
   * with the negative ids dropped; a list of non-negative ids comes back
   * whole.
   */
  lemma FileIdsRoundTrip(xs: seq<int>)
    requires xs != []
    ensures ParseFileIds(Some(PostService.JsonInts(xs))) == Ids(KeepDigits(xs))
    ensures KeepDigits(xs) == Filter(xs, (x: int) => x >= 0)
    ensures (forall i :: 0 <= i < |xs| ==> xs[i] >= 0) ==>
      var r := ParseFileIds(Some(PostService.JsonInts(xs)));
      r.Ids? && |r.ids| == |xs| && forall i :: 0 <= i < |xs| ==> r.ids[i] == xs[i]
  {
    JsonLoadsText(xs);
    KeepDigitsNonNegative(xs);
    if forall i :: 0 <= i < |xs| ==> xs[i] >= 0 {
      KeepDigitsWhole(xs);
    }
  }

  lemma {:induction false} KeepDigitsWhole(xs: seq<int>)
    requires forall i :: 0 <= i < |xs| ==> xs[i] >= 0
    ensures |KeepDigits(xs)| == |xs| && forall i :: 0 <= i < |xs| ==> KeepDigits(xs)[i] == xs[i]
  {
    if xs != [] {
      PyStrDigits(xs[0]);
      KeepDigitsWhole(xs[1..]);
    }
  }

  /** Text that starts with no white space, no '[' and no JSON integer is not JSON. */
  lemma NotJsonText(s: string)
    requires s != [] && !IsJsonSpace(s[0]) && s[0] != '['
    requires ParseInt(s) == None
    ensures JsonLoads(s) == NotJson
  {
    assert SkipSpace(s) == s;
  }

  /** Text that is one JSON integer and nothing more. */
  lemma IntJsonText(s: string, x: int)
    requires s != [] && !IsJsonSpace(s[0]) && s[0] != '['
    requires ParseInt(s) == Some((x, []))
    ensures JsonLoads(s) == Int(x)
  {
    assert SkipSpace(s) == s;
  }

  /** A minus sign before text that is no unsigned JSON integer is no JSON integer. */
  lemma MinusNoInt(s: string, d: string)
    requires s == "-" + d && ParseUnsigned(d) == None
    ensures s != [] && s[0] == '-' && ParseInt(s) == None
  {
    assert s[1..] == d;
  }

  /** int() on a minus sign and digits. */
  lemma PyIntMinus(s: string, d: string)
    requires d != [] && AllDigits(d) && s == "-" + d
    ensures PyInt(s) == Some(-(DigitsValue(d) as int))
  {
    assert s[0] == '-' && s[1..] == d;
  }

  /** Text that is not JSON but that int() reads keeps that one number if it is not negative. */
  lemma FallsBack(s: string, n: int)
    requires s != [] && JsonLoads(s) == NotJson && PyInt(s) == Some(n)
    ensures ParseFileIds(Some(s)) == Ids(if n >= 0 then [n] else [])
  {
    PyStrDigits(n);
    assert KeepDigits([n]) == (if n >= 0 then [n] else []) + KeepDigits([]);
  }

  /** Digits with a leading zero are no JSON integer. */
  lemma LeadingZeroUnsigned(d: string)
    requires |d| > 1 && AllDigits(d) && d[0] == '0'
    ensures ParseUnsigned(d) == None
  {
    DigitRunStops(d, []);
    assert d + [] == d;
  }

  /**
   * A lone JSON integer is a server error: json.loads returns an int and
   * the list comprehension cannot iterate over it.
   */
  lemma LoneIntIsError(x: int)
    ensures JsonLoads(PostService.IntText(x)) == Int(x)
    ensures ParseFileIds(Some(PostService.IntText(x))) == ServerError
  {
    var t := PostService.IntText(x);
    ParseIntText(x, []);
    assert t + [] == t;
    JoinIntsStart([x]);
    assert PostService.JoinInts([x]) == t;
    IntJsonText(t, x);
  }

  /**
   * A '+' in front of digits is not JSON, so int() reads the text: the one
   * id it denotes is deleted.
   */
  lemma SignedTextFallsBack(d: string)
    requires d != [] && AllDigits(d)
    ensures JsonLoads("+" + d) == NotJson
    ensures ParseFileIds(Some("+" + d)) == Ids([DigitsValue(d)])
  {
    var s := "+" + d;
    assert s[0] == '+' && s[1..] == d;
    assert DigitRun(s) == [];
    NotJsonText(s);
    assert PyInt(s) == Some(DigitsValue(d));
    FallsBack(s, DigitsValue(d));
  }

  /**
   * Digits with a leading zero are not JSON either: int() reads them, and
   * the id is deleted.
   */
  lemma LeadingZeroFallsBack(d: string)
    requires |d| > 1 && AllDigits(d) && d[0] == '0'
    ensures JsonLoads(d) == NotJson
    ensures ParseFileIds(Some(d)) == Ids([DigitsValue(d)])
  {
    LeadingZeroUnsigned(d);
    NotJsonText(d);
    assert PyInt(d) == Some(DigitsValue(d));
    FallsBack(d, DigitsValue(d));
  }

  /**
   * A minus sign before such digits: int() gives a negative number, which
   * str(fid).isdigit() drops, unless the digits are all zeros.
   */
  lemma NegativeLeadingZero(d: string)
    requires |d| > 1 && AllDigits(d) && d[0] == '0'
    ensures JsonLoads("-" + d) == NotJson
    ensures ParseFileIds(Some("-" + d)) == Ids(if DigitsValue(d) == 0 then [0] else [])
  {
    var s := "-" + d;
    var v: int := DigitsValue(d);
    LeadingZeroUnsigned(d);
    MinusNoInt(s, d);
    NotJsonText(s);
    PyIntMinus(s, d);
    FallsBack(s, -v);
    if v == 0 {
      assert ParseFileIds(Some(s)) == Ids([0]);
    } else {
      assert ParseFileIds(Some(s)) == Ids([]);
    }
  }

  /**
   * A printable ASCII character that opens no JSON value and no number: no
   * digit, sign, bracket, brace or quote, and not the first letter of
   * null, true, false, NaN or Infinity.
   */
  predicate OpensNothing(c: char)
  {
    '!' <= c <= '~' && !IsDigit(c) && c != '+' && c != '-' && c != '[' && c != '{' && c != '"'
    && c != 'n' && c != 't' && c != 'f' && c != 'N' && c != 'I'
  }

  /**
   * Text starting with such a character is neither JSON nor an integer for
   * Python, and nothing is deleted.
   */
  lemma OtherTextDeletesNothing(s: string)
    requires s != [] && OpensNothing(s[0])
    ensures JsonLoads(s) == NotJson && PyInt(s) == None
    ensures ParseFileIds(Some(s)) == Ids([])
  {
    assert SkipSpace(s) == s;
    assert DigitRun(s) == [];
  }
}
