/** The Python string built-ins the services rely on, over `string` = `seq<char>`:
    `str.strip()`, `str.split(sep)`, `sep.join(parts)` and `str(n)` for integers,
    each with the inverse or the independent characterisation that pins it down. */
module Text {
  import opened Wrappers

  /** The characters `str.isspace` accepts, which are the ones `str.strip()` removes. */
  predicate IsSpace(c: char) {
    var n := c as int;
    || n == 0x20
    || 0x09 <= n <= 0x0D
    || 0x1C <= n <= 0x1F
    || n == 0x85
    || n == 0xA0
    || n == 0x1680
    || 0x2000 <= n <= 0x200A
    || n == 0x2028
    || n == 0x2029
    || n == 0x202F
    || n == 0x205F
    || n == 0x3000
  }

  predicate AllSpace(s: string) {
    forall i :: 0 <= i < |s| ==> IsSpace(s[i])
  }

  function TrimStart(s: string): string {
    if |s| > 0 && IsSpace(s[0]) then TrimStart(s[1..]) else s
  }

  function TrimEnd(s: string): string {
    if |s| > 0 && IsSpace(s[|s| - 1]) then TrimEnd(s[..|s| - 1]) else s
  }

  /** `s.strip()` */
  function Strip(s: string): string {
    TrimEnd(TrimStart(s))
  }

  /** The services' emptiness test `not s or s.strip() == ""`. */
  predicate Blank(s: string) {
    |s| == 0 || Strip(s) == ""
  }

  lemma {:induction false} TrimEndEmpty(s: string)
    ensures TrimEnd(s) == "" <==> AllSpace(s)
    decreases |s|
  {
    if |s| > 0 && IsSpace(s[|s| - 1]) {
      var t := s[..|s| - 1];
      TrimEndEmpty(t);
      assert AllSpace(s) <==> AllSpace(t) by {
        if AllSpace(t) {
          forall i | 0 <= i < |s| ensures IsSpace(s[i]) {
            if i < |s| - 1 { assert s[i] == t[i]; }
          }
        }
        if AllSpace(s) {
          forall i | 0 <= i < |t| ensures IsSpace(t[i]) { assert t[i] == s[i]; }
        }
      }
    } else if |s| > 0 {
      assert !IsSpace(s[|s| - 1]);
    }
  }

  lemma {:induction false} TrimStartKeepsAllSpace(s: string)
    ensures AllSpace(TrimStart(s)) <==> AllSpace(s)
    decreases |s|
  {
    if |s| > 0 && IsSpace(s[0]) {
      var t := s[1..];
      TrimStartKeepsAllSpace(t);
      assert AllSpace(s) <==> AllSpace(t) by {
        if AllSpace(t) {
          forall i | 0 <= i < |s| ensures IsSpace(s[i]) {
            if i > 0 { assert s[i] == t[i - 1]; }
          }
        }
        if AllSpace(s) {
          forall i | 0 <= i < |t| ensures IsSpace(t[i]) { assert t[i] == s[i + 1]; }
        }
      }
    }
  }

  /** A text counts as empty exactly when every character in it is whitespace. */
  lemma BlankIffAllSpace(s: string)
    ensures Blank(s) <==> AllSpace(s)
  {
    TrimEndEmpty(TrimStart(s));
    TrimStartKeepsAllSpace(s);
  }

  // ---------------------------------------------------------------- split / join

  /** `s.split(sep)` for a one-character separator: the maximal separator-free
      segments, so the empty text splits into one empty segment. */
  function Split(s: string, sep: char): (parts: seq<string>)
    ensures |parts| >= 1
    decreases |s|
  {
    if |s| == 0 then [""]
    else
      var rest := Split(s[1..], sep);
      if s[0] == sep then [""] + rest else [[s[0]] + rest[0]] + rest[1..]
  }

  /** `sep.join(parts)` */
  function Join(parts: seq<string>, sep: char): string
    decreases |parts|
  {
    if |parts| == 0 then ""
    else if |parts| == 1 then parts[0]
    else parts[0] + [sep] + Join(parts[1..], sep)
  }

  function Last(parts: seq<string>): string
    requires |parts| >= 1
  {
    parts[|parts| - 1]
  }

  predicate SeparatorFree(parts: seq<string>, sep: char) {
    forall i :: 0 <= i < |parts| ==> sep !in parts[i]
  }

  lemma {:induction false} SplitWithoutSep(a: string, sep: char)
    requires sep !in a
    ensures Split(a, sep) == [a]
    decreases |a|
  {
    if |a| > 0 {
      SplitWithoutSep(a[1..], sep);
      assert [a[0]] + a[1..] == a;
    }
  }

  lemma {:induction false} SplitAtFirstSep(a: string, b: string, sep: char)
    requires sep !in a
    ensures Split(a + [sep] + b, sep) == [a] + Split(b, sep)
    decreases |a|
  {
    var s := a + [sep] + b;
    if |a| == 0 {
      assert s[1..] == b;
    } else {
      assert s[1..] == a[1..] + [sep] + b;
      SplitAtFirstSep(a[1..], b, sep);
      assert [a[0]] + a[1..] == a;
    }
  }

  /** Splitting a joined key gives back its parts, provided no part contains the separator. */
  lemma {:induction false} SplitJoin(parts: seq<string>, sep: char)
    requires |parts| >= 1 && SeparatorFree(parts, sep)
    ensures Split(Join(parts, sep), sep) == parts
    decreases |parts|
  {
    if |parts| == 1 {
      SplitWithoutSep(parts[0], sep);
    } else {
      SplitJoin(parts[1..], sep);
      SplitAtFirstSep(parts[0], Join(parts[1..], sep), sep);
      assert [parts[0]] + parts[1..] == parts;
    }
  }

  /** A character missing from every part and distinct from the separator is missing from the join. */
  lemma {:induction false} JoinKeepsOut(parts: seq<string>, sep: char, c: char)
    requires SeparatorFree(parts, c) && c != sep
    ensures c !in Join(parts, sep)
    decreases |parts|
  {
    if |parts| > 1 {
      JoinKeepsOut(parts[1..], sep, c);
    }
  }

  /** Joining the segments of a split gives back the text. */
  lemma {:induction false} JoinSplit(s: string, sep: char)
    ensures Join(Split(s, sep), sep) == s
    decreases |s|
  {
    if |s| > 0 {
      var rest := Split(s[1..], sep);
      JoinSplit(s[1..], sep);
      if s[0] == sep {
        assert ([""] + rest)[1..] == rest;
        assert [s[0]] + s[1..] == s;
      } else {
        var parts := [[s[0]] + rest[0]] + rest[1..];
        if |rest| == 1 {
          assert [s[0]] + rest[0] == s;
        } else {
          assert parts[1..] == rest[1..];
          assert Join(rest, sep) == rest[0] + [sep] + Join(rest[1..], sep);
          assert [s[0]] + s[1..] == s;
        }
      }
    }
  }

  /** The position of the last `c` in `s`, or -1 when there is none. */
  function LastIndex(s: string, c: char): (k: int)
    ensures -1 <= k < |s|
    ensures k >= 0 ==> s[k] == c
    ensures forall m :: k < m < |s| ==> s[m] != c
    decreases |s|
  {
    if |s| == 0 then -1
    else if s[|s| - 1] == c then |s| - 1
    else LastIndex(s[..|s| - 1], c)
  }

  /** The last segment of `s.split(sep)` is what follows the last separator,
      or all of `s` when it has none. */
  lemma LastSegment(s: string, sep: char)
    ensures Last(Split(s, sep)) == s[LastIndex(s, sep) + 1..]
  {
    var k := LastIndex(s, sep);
    if k < 0 {
      SplitWithoutSep(s, sep);
    } else {
      assert s == s[..k] + [sep] + s[k + 1..];
      LastAfterSep(s[..k], s[k + 1..], sep);
    }
  }

  lemma {:induction false} LastAfterSep(a: string, b: string, sep: char)
    requires sep !in b
    ensures |Split(a + [sep] + b, sep)| >= 2
    ensures Last(Split(a + [sep] + b, sep)) == b
    decreases |a|
  {
    var s := a + [sep] + b;
    if |a| == 0 {
      assert s[1..] == b;
      SplitWithoutSep(b, sep);
    } else {
      assert s[1..] == a[1..] + [sep] + b;
      LastAfterSep(a[1..], b, sep);
      var rest := Split(s[1..], sep);
      if a[0] == sep {
        assert Split(s, sep) == [""] + rest;
      } else {
        assert Split(s, sep) == [[a[0]] + rest[0]] + rest[1..];
      }
    }
  }

  // ---------------------------------------------------------------- integers

  predicate IsDigit(c: char) {
    '0' <= c <= '9'
  }

  predicate Digits(s: string) {
    forall i :: 0 <= i < |s| ==> IsDigit(s[i])
  }

  function DigitChar(d: int): (c: char)
    requires 0 <= d <= 9
    ensures IsDigit(c) && c as int - '0' as int == d
  {
    ('0' as int + d) as char
  }

  /** `str(n)` for a non-negative integer: decimal digits, no leading zero. */
  function NatToString(n: nat): (s: string)
    ensures |s| >= 1 && Digits(s)
  {
    if n < 10 then [DigitChar(n)] else NatToString(n / 10) + [DigitChar(n % 10)]
  }

  /** `str(n)` */
  function IntToString(n: int): (s: string)
    ensures |s| >= 1
  {
    if n < 0 then "-" + NatToString(-n) else NatToString(n)
  }

  /** The number a string of decimal digits denotes (leading zeros allowed). */
  function DecimalValue(s: string): nat
    requires Digits(s)
  {
    if |s| == 0 then 0
    else DecimalValue(s[..|s| - 1]) * 10 + (s[|s| - 1] as int - '0' as int)
  }

  /** Reads back what `IntToString` writes: an optional minus sign and at least one digit. */
  function ParseInt(s: string): Option<int> {
    if |s| > 0 && s[0] == '-' then
      if |s| > 1 && Digits(s[1..]) then Some(0 - DecimalValue(s[1..])) else None
    else if |s| > 0 && Digits(s) then Some(DecimalValue(s))
    else None
  }

  lemma {:induction false} NatToStringValue(n: nat)
    ensures DecimalValue(NatToString(n)) == n
  {
    if n >= 10 {
      var s := NatToString(n);
      NatToStringValue(n / 10);
      assert s[..|s| - 1] == NatToString(n / 10);
    }
  }

  lemma IntToStringRoundTrip(n: int)
    ensures ParseInt(IntToString(n)) == Some(n)
  {
    if n < 0 {
      NegativeRoundTrip(-n);
    } else {
      NatRoundTrip(n);
    }
  }

  lemma NatRoundTrip(n: nat)
    ensures ParseInt(NatToString(n)) == Some(n)
  {
    var s := NatToString(n);
    NatToStringValue(n);
    assert IsDigit(s[0]);
  }

  lemma NegativeRoundTrip(n: nat)
    requires n > 0
    ensures ParseInt("-" + NatToString(n)) == Some(-(n as int))
  {
    var digits := NatToString(n);
    var s := "-" + digits;
    assert s[1..] == digits;
    NatToStringValue(n);
  }

  /** Left-pads with zeros to at least `width` characters, as `%0<width>d` does. */
  function ZeroPad(s: string, width: nat): (r: string)
    requires Digits(s)
    ensures Digits(r) && |r| >= |s| && |r| >= width
    decreases width - |s|
  {
    if |s| >= width then s else ZeroPad("0" + s, width)
  }

  lemma {:induction false} LeadingZero(s: string)
    requires Digits(s)
    ensures DecimalValue("0" + s) == DecimalValue(s)
    decreases |s|
  {
    if |s| > 0 {
      var t := "0" + s;
      assert t[..|t| - 1] == "0" + s[..|s| - 1];
      LeadingZero(s[..|s| - 1]);
    }
  }

  /** Zero padding never changes the number a digit string denotes. */
  lemma {:induction false} ZeroPadValue(s: string, width: nat)
    requires Digits(s)
    ensures DecimalValue(ZeroPad(s, width)) == DecimalValue(s)
    decreases width - |s|
  {
    if |s| < width {
      LeadingZero(s);
      ZeroPadValue("0" + s, width);
    }
  }
}
