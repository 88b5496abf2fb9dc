/**
 * The string operations the scheduling code relies on: the order used by
 * `localeCompare`, `sort()` and `>=` on date keys, `iso.split('T')[0]`,
 * `String(h).padStart(2, '0')`, and the `YYYY-MM-DD` pattern of the API.
 */
module JsText {

  // ---- Order on strings ----

  /** Lexicographic order on characters, a proper prefix coming first. */
  predicate Less(a: string, b: string)
  {
    if a == [] then b != []
    else if b == [] then false
    else a[0] < b[0] || (a[0] == b[0] && Less(a[1..], b[1..]))
  }

  lemma {:induction false} LessIrreflexive(a: string)
    ensures !Less(a, a)
  {
    if a != [] {
      LessIrreflexive(a[1..]);
    }
  }

  lemma {:induction false} LessTransitive(a: string, b: string, c: string)
    requires Less(a, b) && Less(b, c)
    ensures Less(a, c)
  {
    if a != [] && a[0] == b[0] && b[0] == c[0] {
      LessTransitive(a[1..], b[1..], c[1..]);
    }
  }

  lemma {:induction false} LessTotal(a: string, b: string)
    requires a != b
    ensures Less(a, b) || Less(b, a)
  {
    if a != [] && b != [] && a[0] == b[0] {
      assert a == [a[0]] + a[1..] && b == [b[0]] + b[1..];
      LessTotal(a[1..], b[1..]);
    }
  }

  lemma LessAsymmetric(a: string, b: string)
    requires Less(a, b)
    ensures !Less(b, a) && a != b
  {
    LessIrreflexive(a);
    if Less(b, a) {
      LessTransitive(a, b, a);
    }
  }

  /** A common prefix does not change the order. */
  lemma {:induction false} LessPrefix(p: string, a: string, b: string)
    requires Less(a, b)
    ensures Less(p + a, p + b)
  {
    if p == [] {
      assert p + a == a && p + b == b;
    } else {
      LessPrefix(p[1..], a, b);
      assert (p + a)[0] == p[0] == (p + b)[0];
      assert (p + a)[1..] == p[1..] + a && (p + b)[1..] == p[1..] + b;
    }
  }

  /** Two strings of the same length keep their order whatever follows them. */
  lemma {:induction false} LessSameLength(a: string, b: string, x: string, y: string)
    requires |a| == |b| && Less(a, b)
    ensures Less(a + x, b + y)
  {
    if a[0] == b[0] {
      LessSameLength(a[1..], b[1..], x, y);
      assert (a + x)[1..] == a[1..] + x && (b + y)[1..] == b[1..] + y;
    }
  }

  // ---- Date keys ----

  /** `iso.split('T')[0]`: the part of `iso` before its first `T`, or all of it. */
  function DateKeyOf(iso: string): (k: string)
    ensures |k| <= |iso| && k == iso[..|k|]
    ensures 'T' !in k
    ensures |k| < |iso| ==> iso[|k|] == 'T'
  {
    if iso == [] then []
    else if iso[0] == 'T' then []
    else [iso[0]] + DateKeyOf(iso[1..])
  }

  /** Whatever follows a `T` placed after a `T`-free key, the key is recovered. */
  lemma {:induction false} DateKeyOfJoin(key: string, rest: string)
    requires 'T' !in key
    ensures DateKeyOf(key + "T" + rest) == key
  {
    if key == [] {
      assert key + "T" + rest == "T" + rest;
    } else {
      assert (key + "T" + rest)[1..] == key[1..] + "T" + rest;
      DateKeyOfJoin(key[1..], rest);
    }
  }

  // ---- Numbers as text ----

  predicate IsDigit(c: char)
  {
    '0' <= c <= '9'
  }

  function Digit(n: nat): (c: char)
    requires n < 10
    ensures IsDigit(c)
  {
    ('0' as int + n) as char
  }

  /** `Number(t)` for a string of decimal digits. */
  function DigitsValue(t: string): int
    requires forall i :: 0 <= i < |t| ==> IsDigit(t[i])
  {
    if t == [] then 0
    else DigitsValue(t[..|t| - 1]) * 10 + (t[|t| - 1] as int - '0' as int)
  }

  /** `String(n)` for a non-negative integer. */
  function DecimalText(n: nat): string
  {
    if n < 10 then [Digit(n)] else DecimalText(n / 10) + [Digit(n % 10)]
  }

  /** `String(n)` is a non-empty run of decimal digits, without a leading zero, that reads back as `n`. */
  lemma {:induction false} DecimalTextSpec(n: nat)
    ensures var t := DecimalText(n);
            && 1 <= |t|
            && (forall i :: 0 <= i < |t| ==> IsDigit(t[i]))
            && DigitsValue(t) == n
            && (|t| > 1 ==> t[0] != '0')
  {
    if n >= 10 {
      DecimalTextSpec(n / 10);
      var t := DecimalText(n);
      assert t[..|t| - 1] == DecimalText(n / 10);
    }
  }

  /** `String(h)` for any integer `h`. */
  function NumberText(h: int): string
  {
    if h < 0 then "-" + DecimalText(-h) else DecimalText(h)
  }

  /**
   * `String(h).padStart(2, '0')`. `String(h)` is never empty, so padding to
   * two characters adds at most one leading zero.
   */
  function HourText(h: int): string
  {
    var t := NumberText(h);
    if |t| >= 2 then t else "0" + t
  }

  /** `${dateKey}T${String(h).padStart(2, '0')}:00:00`. */
  function HourDateTime(dateKey: string, h: int): string
  {
    (dateKey + "T") + (HourText(h) + ":00:00")
  }

  lemma HourTextHasNoT(h: int)
    ensures 'T' !in HourText(h)
  {
    var n := NumberText(h);
    DecimalTextSpec(if h < 0 then -h else h);
    assert 'T' !in n by {
      if h < 0 {
        assert n == "-" + DecimalText(-h);
      }
    }
  }

  /** Every datetime built for a `T`-free date key lands in that key's bucket. */
  lemma HourDateTimeKey(dateKey: string, h: int)
    requires 'T' !in dateKey
    ensures DateKeyOf(HourDateTime(dateKey, h)) == dateKey
  {
    DateKeyOfJoin(dateKey, HourText(h) + ":00:00");
  }

  /** The hours of a day are written with exactly two digits. */
  lemma HourTextTwoDigits(h: int)
    requires 0 <= h < 100
    ensures HourText(h) == [Digit(h / 10), Digit(h % 10)]
  {
    if h < 10 {
      var t := DecimalText(h);
      assert t == [Digit(h)];
      assert NumberText(h) == t;
      assert "0" == [Digit(0)];
    } else {
      var t := DecimalText(h);
      assert t == DecimalText(h / 10) + [Digit(h % 10)];
      assert DecimalText(h / 10) == [Digit(h / 10)];
      assert NumberText(h) == t;
    }
  }

  /** Two-digit numerals are ordered as the numbers they denote. */
  lemma TwoDigitLess(a: int, b: int)
    requires 0 <= a < b < 100
    ensures Less([Digit(a / 10), Digit(a % 10)], [Digit(b / 10), Digit(b % 10)])
  {
    var x, y := [Digit(a / 10), Digit(a % 10)], [Digit(b / 10), Digit(b % 10)];
    if a / 10 == b / 10 {
      assert a % 10 < b % 10;
      assert x[1..] == [Digit(a % 10)] && y[1..] == [Digit(b % 10)];
      assert Less(x[1..], y[1..]);
    } else {
      assert a / 10 < b / 10;
    }
  }

  /** For the hours 0..99 the text order is the numeric order. */
  lemma HourDateTimeOrdered(dateKey: string, a: int, b: int)
    requires 0 <= a < b < 100
    ensures Less(HourDateTime(dateKey, a), HourDateTime(dateKey, b))
  {
    HourTextTwoDigits(a);
    HourTextTwoDigits(b);
    TwoDigitLess(a, b);
    var ta, tb := HourText(a), HourText(b);
    LessSameLength(ta, tb, ":00:00", ":00:00");
    LessPrefix(dateKey + "T", ta + ":00:00", tb + ":00:00");
  }

  /** `/^\d{4}-\d{2}-\d{2}$/.test(s)`. */
  predicate IsDateKeyFormat(s: string)
  {
    |s| == 10 && s[4] == '-' && s[7] == '-' &&
    forall i :: 0 <= i < 10 && i != 4 && i != 7 ==> IsDigit(s[i])
  }

  /** A date accepted by the pattern is a bucket key of its own hour datetimes. */
  lemma DateKeyFormatKey(s: string, h: int)
    requires IsDateKeyFormat(s)
    ensures 'T' !in s
    ensures DateKeyOf(HourDateTime(s, h)) == s
  {
    assert forall i :: 0 <= i < |s| ==> s[i] != 'T';
    HourDateTimeKey(s, h);
  }

  // ---- Sorting distinct strings (`[...keys].sort()`) ----

  predicate StrictlySorted(s: seq<string>)
  {
    forall i, j :: 0 <= i < j < |s| ==> Less(s[i], s[j])
  }

  function InsertKey(s: seq<string>, k: string): (r: seq<string>)
    requires StrictlySorted(s) && k !in s
    ensures StrictlySorted(r)
    ensures forall x :: x in r <==> x in s || x == k
    ensures |r| == |s| + 1
  {
    if s == [] then [k]
    else if Less(k, s[0]) then
      assert forall j :: 0 < j < |s| ==> Less(k, s[j]) by {
        forall j | 0 < j < |s| ensures Less(k, s[j]) { LessTransitive(k, s[0], s[j]); }
      }
      [k] + s
    else
      LessTotal(k, s[0]);
      var t := InsertKey(s[1..], k);
      assert forall x :: x in t ==> Less(s[0], x);
      [s[0]] + t
  }

  lemma {:induction false} StrictlySortedCard(s: seq<string>)
    requires StrictlySorted(s)
    ensures |set x | x in s| == |s|
  {
    if s != [] {
      var tail := s[1..];
      StrictlySortedCard(tail);
      LessIrreflexive(s[0]);
      assert s[0] !in tail;
      assert (set x | x in s) == {s[0]} + (set x | x in tail);
    }
  }

  /**
   * Where `array.slice(0, limit)` stops on an array of `len` elements: a
   * negative limit counts back from the end, and both ends are clamped.
   */
  function SliceEnd(len: nat, limit: int): (n: nat)
    ensures n <= len
  {
    if limit < 0 then (if len + limit < 0 then 0 else len + limit)
    else if limit < len then limit else len
  }

  /** Sorts a finite set of strings into ascending order. */
  method SortKeys(keys: set<string>) returns (r: seq<string>)
    ensures StrictlySorted(r)
    ensures forall k :: k in r <==> k in keys
    ensures |r| == |keys|
  {
    r := [];
    var rest := keys;
    while rest != {}
      invariant StrictlySorted(r)
      invariant forall k :: k in r ==> k in keys && k !in rest
      invariant forall k :: k in keys ==> k in r || k in rest
      invariant rest <= keys
      decreases rest
    {
      var k :| k in rest;
      r := InsertKey(r, k);
      rest := rest - {k};
    }
    StrictlySortedCard(r);
    assert (set x | x in r) == keys;
  }
}
