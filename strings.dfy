/** The JavaScript string primitives the CSV parser and the formatters use:
    `String.prototype.split` with a one-character separator,
    `String.prototype.trim`, `parseInt(s, 10)`, `toLowerCase` and a
    comparison standing in for `localeCompare`. */
module Strings {
  import opened JsValues

  /** ECMAScript WhiteSpace and LineTerminator code points: what `trim`
      strips from both ends and what `parseInt` skips before the sign. */
  predicate IsWhitespace(c: char) {
    var n := c as int;
    n == 0x09 || n == 0x0A || n == 0x0B || n == 0x0C || n == 0x0D
    || n == 0x20 || n == 0xA0 || n == 0x1680 || (0x2000 <= n <= 0x200A)
    || n == 0x2028 || n == 0x2029 || n == 0x202F || n == 0x205F
    || n == 0x3000 || n == 0xFEFF
  }

  predicate IsDigit(c: char) {
    '0' <= c <= '9'
  }

  predicate AllDigits(s: string) {
    forall i :: 0 <= i < |s| ==> IsDigit(s[i])
  }

  /** Neither end of `s` is whitespace: `trim` leaves `s` as it is. */
  predicate IsTrimmed(s: string) {
    s == [] || (!IsWhitespace(s[0]) && !IsWhitespace(s[|s| - 1]))
  }

  // ---------------------------------------------------------------------
  // split and join

  /** The number of occurrences of `c` in `s`. */
  function Count(s: string, c: char): (n: nat)
    ensures n == 0 <==> c !in s
    decreases |s|
  {
    if s == [] then 0 else (if s[0] == c then 1 else 0) + Count(s[1..], c)
  }

  /** `s.split(sep)`: the pieces between the occurrences of `sep`, so
      `"".split(",")` is `[""]` and `"a,".split(",")` is `["a", ""]`. */
  function Split(s: string, sep: char): (parts: seq<string>)
    ensures |parts| == Count(s, sep) + 1
    ensures forall i :: 0 <= i < |parts| ==> sep !in parts[i]
    decreases |s|
  {
    if s == [] then [[]]
    else
      var rest := Split(s[1..], sep);
      assert s == [s[0]] + s[1..];
      if s[0] == sep then [[]] + rest
      else
        assert sep !in [s[0]] + rest[0];
        [[s[0]] + rest[0]] + rest[1..]
  }

  /** `parts.join(sep)`. */
  function Join(parts: seq<string>, sep: char): string
    decreases |parts|
  {
    if |parts| == 0 then []
    else if |parts| == 1 then parts[0]
    else parts[0] + [sep] + Join(parts[1..], sep)
  }

  /** Splitting at one occurrence of the separator splits the two sides
      independently. */
  lemma {:induction false} SplitAt(a: string, b: string, sep: char)
    ensures Split(a + [sep] + b, sep) == Split(a, sep) + Split(b, sep)
    decreases |a|
  {
    if a == [] {
      assert a + [sep] + b == [sep] + b;
      assert ([sep] + b)[1..] == b;
    } else {
      var s := a + [sep] + b;
      assert s[0] == a[0];
      assert s[1..] == a[1..] + [sep] + b;
      SplitAt(a[1..], b, sep);
    }
  }

  /** A string without the separator is a single piece. */
  lemma {:induction false} SplitWithoutSeparator(s: string, sep: char)
    requires sep !in s
    ensures Split(s, sep) == [s]
  {
    assert |Split(s, sep)| == 1;
    if s != [] {
      SplitWithoutSeparator(s[1..], sep);
      assert s == [s[0]] + s[1..];
    }
  }

  /** Round trip: joining pieces that do not contain the separator and
      splitting again gives back the pieces. */
  lemma {:induction false} SplitJoin(parts: seq<string>, sep: char)
    requires |parts| >= 1
    requires forall i :: 0 <= i < |parts| ==> sep !in parts[i]
    ensures Split(Join(parts, sep), sep) == parts
    decreases |parts|
  {
    if |parts| == 1 {
      SplitWithoutSeparator(parts[0], sep);
    } else {
      SplitAt(parts[0], Join(parts[1..], sep), sep);
      SplitWithoutSeparator(parts[0], sep);
      SplitJoin(parts[1..], sep);
      assert parts == [parts[0]] + parts[1..];
    }
  }

  /** Joining a piece in front of at least one other. */
  lemma JoinCons(x: string, rest: seq<string>, sep: char)
    requires rest != []
    ensures Join([x] + rest, sep) == x + [sep] + Join(rest, sep)
  {
    assert ([x] + rest)[1..] == rest;
  }

  /** Prepending a character to the first piece prepends it to the join. */
  lemma JoinPrepend(c: char, parts: seq<string>, sep: char)
    requires parts != []
    ensures Join([[c] + parts[0]] + parts[1..], sep) == [c] + Join(parts, sep)
  {
    if |parts| > 1 {
      JoinCons([c] + parts[0], parts[1..], sep);
      JoinCons(parts[0], parts[1..], sep);
      assert parts == [parts[0]] + parts[1..];
    }
  }

  /** How a split begins: a leading separator closes an empty piece, any
      other character joins the first piece. */
  lemma SplitCons(c: char, t: string, sep: char)
    ensures var rest := Split(t, sep);
            Split([c] + t, sep)
            == if c == sep then [[]] + rest else [[c] + rest[0]] + rest[1..]
  {
    assert ([c] + t)[1..] == t;
  }

  /** Round trip the other way: the pieces of a split, joined again, give
      back the string. */
  lemma {:induction false} JoinSplit(s: string, sep: char)
    ensures Join(Split(s, sep), sep) == s
    decreases |s|
  {
    if s != [] {
      var c, t := s[0], s[1..];
      assert s == [c] + t;
      JoinSplit(t, sep);
      SplitCons(c, t, sep);
      if c == sep {
        JoinCons([], Split(t, sep), sep);
      } else {
        JoinPrepend(c, Split(t, sep), sep);
      }
    }
  }

  // ---------------------------------------------------------------------
  // trim

  /** Leading whitespace removed: the longest suffix of `s` that does not
      start with whitespace. */
  function TrimStart(s: string): (r: string)
    ensures |r| <= |s| && r == s[|s| - |r|..]
    ensures r == [] || !IsWhitespace(r[0])
    ensures forall i :: 0 <= i < |s| - |r| ==> IsWhitespace(s[i])
    decreases |s|
  {
    if s != [] && IsWhitespace(s[0]) then TrimStart(s[1..]) else s
  }

  /** Trailing whitespace removed: the longest prefix of `s` that does not
      end with whitespace. */
  function TrimEnd(s: string): (r: string)
    ensures |r| <= |s| && r == s[..|r|]
    ensures r == [] || !IsWhitespace(r[|r| - 1])
    ensures forall i :: |r| <= i < |s| ==> IsWhitespace(s[i])
    decreases |s|
  {
    if s != [] && IsWhitespace(s[|s| - 1]) then TrimEnd(s[..|s| - 1]) else s
  }

  /** `s.trim()`: `s` with whitespace removed at both ends. */
  function Trim(s: string): (r: string)
    ensures IsTrimmed(r)
    ensures IsTrimmed(s) ==> r == s
  {
    TrimEnd(TrimStart(s))
  }

  /** What `trim` keeps is a contiguous piece `s[lo..hi]` of its input, and
      what it drops on either side is whitespace. */
  lemma TrimInfix(s: string) returns (lo: nat, hi: nat)
    ensures lo <= hi <= |s| && Trim(s) == s[lo..hi]
    ensures forall i :: 0 <= i < lo ==> IsWhitespace(s[i])
    ensures forall i :: hi <= i < |s| ==> IsWhitespace(s[i])
  {
    var t := TrimStart(s);
    var r := TrimEnd(t);
    lo := |s| - |t|;
    hi := lo + |r|;
    SliceOfSlice(s, lo, |r|);
    forall i | hi <= i < |s|
      ensures IsWhitespace(s[i])
    {
      assert s[i] == t[i - lo];
    }
  }

  lemma SliceOfSlice(s: string, k: nat, n: nat)
    requires k + n <= |s|
    ensures s[k..][..n] == s[k..k + n]
  {
  }

  /** `trim` gives the empty string exactly for an all-whitespace input. */
  lemma TrimEmpty(s: string)
    ensures Trim(s) == [] <==> forall i :: 0 <= i < |s| ==> IsWhitespace(s[i])
  {
    var t := TrimStart(s);
    var k := |s| - |t|;
    if t != [] {
      assert t[0] == s[k];
      assert !IsWhitespace(t[0]);
    }
  }

  /** A character absent from `s` is absent from `trim(s)`. */
  lemma TrimKeepsAbsent(s: string, c: char)
    requires c !in s
    ensures c !in Trim(s)
  {
    var t := TrimStart(s);
    assert c !in t;
  }

  // ---------------------------------------------------------------------
  // parseInt(s, 10) and decimal digits

  function DigitValue(c: char): (d: nat)
    requires IsDigit(c)
    ensures d < 10
  {
    (c as int) - ('0' as int)
  }

  function DigitChar(d: nat): (c: char)
    requires d < 10
    ensures IsDigit(c) && DigitValue(c) == d
  {
    (('0' as int) + d) as char
  }

  /** The value of a string of decimal digits, most significant first. */
  function DecimalValue(ds: string): nat
    requires AllDigits(ds)
    decreases |ds|
  {
    if ds == [] then 0
    else DecimalValue(ds[..|ds| - 1]) * 10 + DigitValue(ds[|ds| - 1])
  }

  /** The longest prefix of `s` made of decimal digits. */
  function DigitPrefix(s: string): (r: string)
    ensures |r| <= |s| && r == s[..|r|]
    ensures AllDigits(r)
    ensures |r| == |s| || !IsDigit(s[|r|])
    decreases |s|
  {
    if s != [] && IsDigit(s[0]) then [s[0]] + DigitPrefix(s[1..]) else []
  }

  /** `parseInt(s, 10)`, with `NaN` as `None`: leading whitespace is
      skipped, then an optional `+` or `-`, then the longest run of decimal
      digits is read; anything after it is ignored. */
  function ParseInt(s: string): Option<int> {
    var t := TrimStart(s);
    if t != [] && t[0] == '-' then
      match ReadDigits(t[1..])
      case None => None
      case Some(v) => Some(0 - v)
    else if t != [] && t[0] == '+' then ReadDigits(t[1..])
    else ReadDigits(t)
  }

  /** The value of the leading run of digits of `s`, `None` when there is
      none. */
  function ReadDigits(s: string): Option<int> {
    var ds := DigitPrefix(s);
    if ds == [] then None else Some(DecimalValue(ds))
  }

  /** The decimal digits of `n`, without leading zeros. */
  function NatToDigits(n: nat): (ds: string)
    ensures ds != [] && AllDigits(ds)
    ensures DecimalValue(ds) == n
    ensures ds[0] == '0' ==> n == 0 && |ds| == 1
    decreases n
  {
    if n < 10 then [DigitChar(n)]
    else
      var ds := NatToDigits(n / 10) + [DigitChar(n % 10)];
      assert ds[..|ds| - 1] == NatToDigits(n / 10);
      ds
  }

  /** The text of an integer as `String(n)` writes it. */
  function IntToString(n: int): string {
    if n < 0 then "-" + NatToDigits(-n) else NatToDigits(n)
  }

  lemma {:induction false} DigitPrefixOfDigits(ds: string, rest: string)
    requires AllDigits(ds)
    requires rest == [] || !IsDigit(rest[0])
    ensures DigitPrefix(ds + rest) == ds
    decreases |ds|
  {
    if ds != [] {
      assert (ds + rest)[1..] == ds[1..] + rest;
      DigitPrefixOfDigits(ds[1..], rest);
      assert ds == [ds[0]] + ds[1..];
    } else {
      assert ds + rest == rest;
    }
  }

  /** Round trip: `parseInt` reads back the integer `String(n)` wrote, and
      ignores whatever follows it when that does not start with a digit
      (so `"123abc"` reads as 123). */
  lemma ParseIntOfIntToString(n: int, rest: string)
    requires rest == [] || !IsDigit(rest[0])
    ensures ParseInt(IntToString(n) + rest) == Some(n)
  {
    if n < 0 {
      var m: nat := -n;
      assert IntToString(n) + rest == ['-'] + (NatToDigits(m) + rest);
      ParseIntOfNegative(m, rest);
    } else {
      assert IntToString(n) == NatToDigits(n);
      ParseIntOfNat(n, rest);
    }
  }

  lemma ParseIntOfNat(m: nat, rest: string)
    requires rest == [] || !IsDigit(rest[0])
    ensures ParseInt(NatToDigits(m) + rest) == Some(m)
  {
    var ds := NatToDigits(m);
    var s := ds + rest;
    assert s[0] == ds[0] && IsDigit(s[0]);
    StartsWithDigit(s);
    assert ParseInt(s) == ReadDigits(s);
    ReadDigitsOf(ds, rest);
  }

  /** A run of digits followed by a non-digit reads as its value. */
  lemma ReadDigitsOf(ds: string, rest: string)
    requires ds != [] && AllDigits(ds)
    requires rest == [] || !IsDigit(rest[0])
    ensures ReadDigits(ds + rest) == Some(DecimalValue(ds))
  {
    DigitPrefixOfDigits(ds, rest);
  }

  lemma ParseIntOfNegative(m: nat, rest: string)
    requires rest == [] || !IsDigit(rest[0])
    ensures ParseInt(['-'] + (NatToDigits(m) + rest)) == Some(0 - (m as int))
  {
    var ds := NatToDigits(m);
    var s := ['-'] + (ds + rest);
    StartsWithSign(s);
    assert s[1..] == ds + rest;
    ReadDigitsOf(ds, rest);
  }

  lemma StartsWithSign(s: string)
    requires s != [] && s[0] == '-'
    ensures TrimStart(s) == s
  {
  }

  lemma StartsWithDigit(s: string)
    requires s != [] && IsDigit(s[0])
    ensures TrimStart(s) == s
  {
  }

  /** `parseInt` yields `NaN` exactly when no digit follows the optional
      sign (after leading whitespace). */
  lemma ParseIntNaN(s: string)
    ensures var t := TrimStart(s);
            var body := if t != [] && (t[0] == '-' || t[0] == '+') then t[1..] else t;
            ParseInt(s).None? <==> (body == [] || !IsDigit(body[0]))
  {
  }

  // ---------------------------------------------------------------------
  // toLowerCase and the string order used for sorting

  /** `toLowerCase` on the ASCII letters; other characters are kept. */
  function ToLower(s: string): (r: string)
    ensures |r| == |s|
    ensures forall i :: 0 <= i < |s| ==> ('A' <= s[i] <= 'Z' <==> r[i] != s[i])
    ensures forall i :: 0 <= i < |r| ==> !('A' <= r[i] <= 'Z')
    ensures forall i :: 0 <= i < |s| && 'A' <= s[i] <= 'Z' ==> r[i] as int == s[i] as int + 32
    ensures forall i :: 0 <= i < |s| && !('A' <= s[i] <= 'Z') ==> r[i] == s[i]
  {
    seq(|s|, i requires 0 <= i < |s| =>
      if 'A' <= s[i] <= 'Z' then ((s[i] as int) + 32) as char else s[i])
  }

  /** `x` and `y` are the same letter up to ASCII case, or the same
      character. */
  predicate SameIgnoringCase(x: char, y: char) {
    x == y
    || ('A' <= x <= 'Z' && y as int == x as int + 32)
    || ('A' <= y <= 'Z' && x as int == y as int + 32)
  }

  /** Two strings equal up to the case of their ASCII letters. */
  predicate EqualIgnoringCase(a: string, b: string) {
    |a| == |b| && forall i :: 0 <= i < |a| ==> SameIgnoringCase(a[i], b[i])
  }

  /** Lower-casing identifies exactly the strings that differ only in the
      case of their ASCII letters. */
  lemma ToLowerIgnoresCase(a: string, b: string)
    ensures ToLower(a) == ToLower(b) <==> EqualIgnoringCase(a, b)
  {
    var la, lb := ToLower(a), ToLower(b);
    if EqualIgnoringCase(a, b) {
      forall i | 0 <= i < |a|
        ensures la[i] == lb[i]
      {
        assert SameIgnoringCase(a[i], b[i]);
      }
    }
    if la == lb {
      forall i | 0 <= i < |a|
        ensures SameIgnoringCase(a[i], b[i])
      {
        assert la[i] == lb[i];
      }
    }
  }

  /** Three-way comparison of two strings by code points, first difference
      decides and a proper prefix comes first: the order standing in for
      `localeCompare`. */
  function CompareStrings(a: string, b: string): (r: int)
    ensures -1 <= r <= 1
    ensures r == 0 <==> a == b
    decreases |a|
  {
    if a == [] && b == [] then 0
    else if a == [] then -1
    else if b == [] then 1
    else if a[0] < b[0] then -1
    else if a[0] > b[0] then 1
    else
      var r := CompareStrings(a[1..], b[1..]);
      assert r == 0 ==> a == [a[0]] + a[1..] == [b[0]] + b[1..] == b;
      r
  }

  lemma {:induction false} CompareStringsFlip(a: string, b: string)
    ensures CompareStrings(a, b) == -CompareStrings(b, a)
    decreases |a|
  {
    if a != [] && b != [] && a[0] == b[0] {
      CompareStringsFlip(a[1..], b[1..]);
    }
  }

  lemma {:induction false} CompareStringsTransitive(a: string, b: string, c: string)
    requires CompareStrings(a, b) <= 0 && CompareStrings(b, c) <= 0
    ensures CompareStrings(a, c) <= 0
    decreases |a|
  {
    if a != [] && b != [] && c != [] && a[0] == b[0] == c[0] {
      CompareStringsTransitive(a[1..], b[1..], c[1..]);
    }
  }
}
