/** The string operations that the file-name parsers use. */
module Strings {
  import opened Options

  predicate EndsWith(s: string, suffix: string) {
    |s| >= |suffix| && s[|s| - |suffix|..] == suffix
  }

  function StripSuffix(s: string, suffix: string): Option<string> {
    if EndsWith(s, suffix) then Some(s[..|s| - |suffix|]) else None
  }

  /** Removes the suffix as often as it is there. */
  function TrimEndMatches(s: string, suffix: string): string {
    if suffix != "" && EndsWith(s, suffix) then TrimEndMatches(s[..|s| - |suffix|], suffix) else s
  }

  function Split(s: string, separator: char): (parts: seq<string>)
    ensures |parts| >= 1
  {
    if s == "" then [""]
    else
      var rest := Split(s[1..], separator);
      if s[0] == separator then [""] + rest else [[s[0]] + rest[0]] + rest[1..]
  }

  /** What lies before and after the first separator. */
  function SplitOnce(s: string, separator: char): Option<(string, string)> {
    if s == "" then None
    else if s[0] == separator then Some(("", s[1..]))
    else
      match SplitOnce(s[1..], separator)
      case None => None
      case Some((first, rest)) => Some(([s[0]] + first, rest))
  }

  /** What lies before and after the last separator. */
  function RSplitOnce(s: string, separator: char): Option<(string, string)> {
    if s == "" then None
    else
      var front, last := s[..|s| - 1], s[|s| - 1];
      if last == separator then Some((front, ""))
      else
        match RSplitOnce(front, separator)
        case None => None
        case Some((first, rest)) => Some((first, rest + [last]))
  }

  lemma EndsWithOwn(s: string, suffix: string)
    ensures EndsWith(s + suffix, suffix) && (s + suffix)[..|s|] == s
  {
  }

  lemma OtherEnding(s: string, suffix: string, other: string)
    requires suffix != "" && other != "" && suffix[|suffix| - 1] != other[|other| - 1]
    ensures !EndsWith(s + suffix, other)
  {
  }

  /** A string without some character of the suffix does not end with it. */
  lemma LacksEnding(s: string, suffix: string, c: char)
    requires c in suffix && c !in s
    ensures !EndsWith(s, suffix)
  {
  }

  lemma TrimsOnce(s: string, suffix: string, c: char)
    requires c in suffix && c !in s
    ensures TrimEndMatches(s + suffix, suffix) == s
  {
    EndsWithOwn(s, suffix);
    LacksEnding(s, suffix, c);
  }

  lemma {:induction false} SplitWhole(s: string, separator: char)
    requires separator !in s
    ensures Split(s, separator) == [s]
  {
    if s != "" {
      SplitWhole(s[1..], separator);
      assert [s[0]] + s[1..] == s;
    }
  }

  lemma {:induction false} SplitFirst(a: string, separator: char, b: string)
    requires separator !in a
    ensures Split(a + [separator] + b, separator) == [a] + Split(b, separator)
  {
    var s := a + [separator] + b;
    if a == "" {
      assert s[1..] == b;
    } else {
      SplitFirst(a[1..], separator, b);
      assert s[1..] == a[1..] + [separator] + b;
      assert [a[0]] + a[1..] == a;
    }
  }

  /** Text without a separator in front stays with the first part. */
  lemma {:induction false} SplitGlue(a: string, s: string, separator: char)
    requires separator !in a
    ensures Split(a + s, separator) == [a + Split(s, separator)[0]] + Split(s, separator)[1..]
  {
    if a == "" {
      assert a + s == s && a + Split(s, separator)[0] == Split(s, separator)[0];
    } else {
      SplitGlue(a[1..], s, separator);
      assert (a + s)[1..] == a[1..] + s;
      assert [a[0]] + (a[1..] + Split(s, separator)[0]) == a + Split(s, separator)[0];
    }
  }

  lemma {:induction false} SplitOnceFirst(a: string, separator: char, b: string)
    requires separator !in a
    ensures SplitOnce(a + [separator] + b, separator) == Some((a, b))
  {
    var s := a + [separator] + b;
    if a == "" {
      assert s[1..] == b;
    } else {
      SplitOnceFirst(a[1..], separator, b);
      assert s[1..] == a[1..] + [separator] + b;
      assert [a[0]] + a[1..] == a;
    }
  }

  lemma {:induction false} SplitOnceNone(s: string, separator: char)
    requires separator !in s
    ensures SplitOnce(s, separator) == None
  {
    if s != "" {
      SplitOnceNone(s[1..], separator);
    }
  }

  lemma {:induction false} RSplitOnceLast(a: string, separator: char, b: string)
    requires separator !in b
    ensures RSplitOnce(a + [separator] + b, separator) == Some((a, b))
  {
    var s := a + [separator] + b;
    if b == "" {
      assert s[..|s| - 1] == a;
    } else {
      var front, last := b[..|b| - 1], b[|b| - 1];
      RSplitOnceLast(a, separator, front);
      assert s[..|s| - 1] == a + [separator] + front;
      assert front + [last] == b;
    }
  }

  // ---- numbers ----

  predicate IsDigit(c: char) {
    '0' <= c <= '9'
  }

  function Digit(d: nat): (c: char)
    requires d < 10
    ensures IsDigit(c) && c as nat - '0' as nat == d
  {
    ('0' as nat + d) as char
  }

  function Decimal(n: nat): (s: string)
    ensures s != "" && forall c <- s :: IsDigit(c)
  {
    if n < 10 then [Digit(n)] else Decimal(n / 10) + [Digit(n % 10)]
  }

  /** The number padded with zeros to three digits (`%03d`). */
  function Decimal3(n: nat): (s: string)
    ensures s != "" && forall c <- s :: IsDigit(c)
  {
    if n < 10 then "00" + Decimal(n) else if n < 100 then "0" + Decimal(n) else Decimal(n)
  }

  /** The value of a string of digits. */
  function DigitsValue(s: string): Option<nat> {
    if s == "" then Some(0)
    else
      match DigitsValue(s[..|s| - 1])
      case None => None
      case Some(value) =>
        var last := s[|s| - 1];
        if IsDigit(last) then Some(10 * value + (last as nat - '0' as nat)) else None
  }

  /** Reading an unsigned integer: digits after an optional plus sign, at most `max`. */
  function ParseUnsigned(s: string, max: nat): Option<nat> {
    var digits := if s != "" && s[0] == '+' then s[1..] else s;
    if digits == "" then None
    else
      match DigitsValue(digits)
      case None => None
      case Some(value) => if value <= max then Some(value) else None
  }

  lemma DigitsAppend(s: string, d: nat)
    requires d < 10 && DigitsValue(s).Some?
    ensures DigitsValue(s + [Digit(d)]) == Some(10 * DigitsValue(s).value + d)
  {
    assert (s + [Digit(d)])[..|s|] == s;
  }

  lemma {:induction false} DecimalValue(n: nat)
    ensures DigitsValue(Decimal(n)) == Some(n)
  {
    if n < 10 {
      DigitsAppend("", n);
      assert "" + [Digit(n)] == [Digit(n)];
    } else {
      DecimalValue(n / 10);
      DigitsAppend(Decimal(n / 10), n % 10);
    }
  }

  lemma {:induction false} LeadingZero(s: string)
    requires DigitsValue(s).Some?
    ensures DigitsValue("0" + s) == DigitsValue(s)
  {
    var t := "0" + s;
    if s == "" {
      assert t == "" + [Digit(0)];
      DigitsAppend("", 0);
    } else {
      LeadingZero(s[..|s| - 1]);
      assert t[..|t| - 1] == "0" + s[..|s| - 1];
    }
  }

  lemma Decimal3Value(n: nat)
    ensures DigitsValue(Decimal3(n)) == Some(n)
  {
    DecimalValue(n);
    LeadingZero(Decimal(n));
    if n < 10 {
      LeadingZero("0" + Decimal(n));
      assert "00" + Decimal(n) == "0" + ("0" + Decimal(n));
    }
  }

  lemma {:induction false} OnlyDigitsHaveValue(s: string)
    ensures DigitsValue(s).Some? <==> forall c <- s :: IsDigit(c)
  {
    if s != "" {
      var front, last := s[..|s| - 1], s[|s| - 1];
      OnlyDigitsHaveValue(front);
      assert s == front + [last];
    }
  }

  /** A written number is read back exactly if it is not above the maximum. */
  lemma DecimalIsParsed(n: nat, max: nat)
    ensures ParseUnsigned(Decimal(n), max) == if n <= max then Some(n) else None
    ensures ParseUnsigned(Decimal3(n), max) == if n <= max then Some(n) else None
  {
    DecimalValue(n);
    Decimal3Value(n);
    assert IsDigit(Decimal(n)[0]) && IsDigit(Decimal3(n)[0]);
  }
}
