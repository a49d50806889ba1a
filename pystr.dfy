/** The parts of Python's `str` that the three handlers rely on, with
    Python's own semantics: `strip`, `split`, `join`, `lower`, `rfind`,
    `startswith`/`endswith` and the decimal and hexadecimal renderings of
    integers used by f-strings, `time.strftime` and `uuid.hex`. */
module PyStr {

  /** The characters for which Python's `str.isspace()` holds: the ones
      `str.strip()` without an argument removes. */
  predicate IsSpace(c: char) {
    c == ' ' || '\t' <= c <= '\r' || '\U{001C}' <= c <= '\U{001F}' || c == '\U{0085}' || c == '\U{00A0}' ||
    c == '\U{1680}' || '\U{2000}' <= c <= '\U{200A}' || c == '\U{2028}' || c == '\U{2029}' ||
    c == '\U{202F}' || c == '\U{205F}' || c == '\U{3000}'
  }

  const Whitespace: set<char> := set c: char | '\t' <= c <= '\U{3000}' && IsSpace(c)

  predicate StartsWith(s: string, prefix: string) {
    prefix <= s
  }

  predicate EndsWith(s: string, suffix: string) {
    |suffix| <= |s| && s[|s| - |suffix|..] == suffix
  }

  /** The index of the first character of `s` at or after `i` that is not
      in `cs` (or `|s|`): where `s.lstrip(chars)` starts. */
  function StripStart(s: string, cs: set<char>, i: nat): (n: nat)
    requires i <= |s|
    ensures i <= n <= |s|
    ensures n < |s| ==> s[n] !in cs
    ensures forall k :: i <= k < n ==> s[k] in cs
    decreases |s| - i
  {
    if i == |s| || s[i] !in cs then i else StripStart(s, cs, i + 1)
  }

  /** The index just past the last character of `s[lo..j]` that is not in
      `cs` (or `lo`): where `s.rstrip(chars)` ends. */
  function StripEnd(s: string, cs: set<char>, lo: nat, j: nat): (n: nat)
    requires lo <= j <= |s|
    ensures lo <= n <= j
    ensures n > lo ==> s[n - 1] !in cs
    ensures forall k :: n <= k < j ==> s[k] in cs
    decreases j
  {
    if j == lo || s[j - 1] !in cs then j else StripEnd(s, cs, lo, j - 1)
  }

  /** `StripStart` stops at the latest at a character outside `cs`. */
  lemma {:induction false} StripStartStops(s: string, cs: set<char>, i: nat, k: nat)
    requires i <= k < |s| && s[k] !in cs
    ensures StripStart(s, cs, i) <= k
    decreases |s| - i
  {
    if i < k && s[i] in cs {
      StripStartStops(s, cs, i + 1, k);
    }
  }

  /** `s.strip(chars)`; `Strip(s, Whitespace)` is `s.strip()`: the slice of
      `s` left once every leading and trailing character of `cs` is gone. */
  function Strip(s: string, cs: set<char>): (r: string)
    ensures |r| <= |s|
    ensures r != [] ==> r[0] !in cs && r[|r| - 1] !in cs
    ensures (forall k :: 0 <= k < |s| ==> s[k] in cs) ==> r == []
    ensures exists i :: 0 <= i <= |s| - |r| && r == s[i..][..|r|] &&
                        (forall k :: 0 <= k < i ==> s[k] in cs) &&
                        (forall k :: i + |r| <= k < |s| ==> s[k] in cs)
  {
    var lo := StripStart(s, cs, 0);
    var hi := StripEnd(s, cs, lo, |s|);
    assert s[lo..hi] == s[lo..][..hi - lo];
    s[lo..hi]
  }

  /** A string that neither starts nor ends with a character of `cs` is
      its own strip. */
  lemma {:induction false} StripUnchanged(s: string, cs: set<char>)
    requires s == [] || (s[0] !in cs && s[|s| - 1] !in cs)
    ensures Strip(s, cs) == s
  {
    if s != [] {
      assert StripStart(s, cs, 0) == 0;
      assert StripEnd(s, cs, 0, |s|) == |s|;
    }
  }

  /** Every character of the strip of `s` occurs in `s`. */
  lemma {:induction false} StripChars(s: string, cs: set<char>)
    ensures forall c :: c in Strip(s, cs) ==> c in s
  {
    var lo := StripStart(s, cs, 0);
    var t := Strip(s, cs);
    forall c | c in t ensures c in s {
      var k :| 0 <= k < |t| && t[k] == c;
      assert s[lo + k] == c;
    }
  }

  /** Stripping twice is stripping once. */
  lemma {:induction false} StripIdempotent(s: string, cs: set<char>)
    ensures Strip(Strip(s, cs), cs) == Strip(s, cs)
  {
    StripUnchanged(Strip(s, cs), cs);
  }

  /** Stripping keeps a non-empty tail made of characters outside `cs`:
      `(stem + tail).strip()` still ends with `tail`. */
  lemma {:induction false} StripKeepsTail(stem: string, tail: string, cs: set<char>)
    requires tail != []
    requires forall k :: 0 <= k < |tail| ==> tail[k] !in cs
    ensures EndsWith(Strip(stem + tail, cs), tail)
  {
    var s := stem + tail;
    assert s[|stem|] == tail[0];
    StripStartStops(s, cs, 0, |stem|);
    var lo := StripStart(s, cs, 0);
    assert s[|s| - 1] == tail[|tail| - 1];
    assert StripEnd(s, cs, lo, |s|) == |s|;
    assert Strip(s, cs) == s[lo..];
    assert s[lo..][|s| - lo - |tail|..] == tail;
  }

  function LowerChar(c: char): char {
    if 'A' <= c <= 'Z' then (c as int + 32) as char else c
  }

  /** `s.lower()` on ASCII letters; every other character is kept. */
  function Lower(s: string): (r: string)
    ensures |r| == |s|
  {
    seq(|s|, i requires 0 <= i < |s| => LowerChar(s[i]))
  }

  /** `s.split(sep)` for a one-character separator: the pieces between
      consecutive separators, empty pieces included; never an empty list. */
  function Split(s: string, sep: char): (parts: seq<string>)
    ensures |parts| >= 1
    ensures forall p :: p in parts ==> sep !in p
  {
    if s == [] then [[]]
    else
      var rest := Split(s[1..], sep);
      if s[0] == sep then [[]] + rest else [[s[0]] + rest[0]] + rest[1..]
  }

  /** `s.split(sep)` has one piece more than `s` has separators. */
  lemma {:induction false} SplitCount(s: string, sep: char)
    ensures |Split(s, sep)| == multiset(s)[sep] + 1
  {
    if s != [] {
      SplitCount(s[1..], sep);
      assert s == [s[0]] + s[1..];
      assert multiset(s) == multiset([s[0]]) + multiset(s[1..]);
    }
  }

  /** `sep.join(parts)`. */
  function Join(parts: seq<string>, sep: char): string {
    if parts == [] then []
    else if |parts| == 1 then parts[0]
    else parts[0] + [sep] + Join(parts[1..], sep)
  }

  /** Splitting and joining again gives back the string. */
  lemma {:induction false} JoinSplit(s: string, sep: char)
    ensures Join(Split(s, sep), sep) == s
  {
    if s != [] {
      JoinSplit(s[1..], sep);
      var rest := Split(s[1..], sep);
      if s[0] != sep {
        if |rest| > 1 {
          assert ([[s[0]] + rest[0]] + rest[1..])[1..] == rest[1..];
        }
      }
    }
  }

  /** Joining pieces free of the separator and splitting again gives back
      the pieces. */
  lemma {:induction false} SplitJoin(parts: seq<string>, sep: char)
    requires |parts| >= 1
    requires forall p :: p in parts ==> sep !in p
    ensures Split(Join(parts, sep), sep) == parts
  {
    if |parts| == 1 {
      SplitNoSeparator(parts[0], sep);
    } else {
      SplitJoin(parts[1..], sep);
      SplitAfterPiece(parts[0], Join(parts[1..], sep), sep);
      assert [parts[0]] + parts[1..] == parts;
    }
  }

  lemma {:induction false} SplitNoSeparator(s: string, sep: char)
    requires sep !in s
    ensures Split(s, sep) == [s]
  {
    if s != [] {
      SplitNoSeparator(s[1..], sep);
      assert [s[0]] + s[1..] == s;
    }
  }

  /** A separator-free piece followed by a separator is the first piece. */
  lemma {:induction false} SplitAfterPiece(a: string, b: string, sep: char)
    requires sep !in a
    ensures Split(a + [sep] + b, sep) == [a] + Split(b, sep)
  {
    if a == [] {
      assert ([sep] + b)[1..] == b;
    } else {
      assert (a + [sep] + b)[1..] == a[1..] + [sep] + b;
      SplitAfterPiece(a[1..], b, sep);
      assert [a[0]] + a[1..] == a;
    }
  }

  /** The last index below `j` holding `c`, or -1. */
  function RFindBelow(s: string, c: char, j: nat): (i: int)
    requires j <= |s|
    ensures -1 <= i < j
    ensures i >= 0 ==> s[i] == c
    ensures forall k :: i < k < j ==> s[k] != c
  {
    if j == 0 then -1
    else if s[j - 1] == c then j - 1
    else RFindBelow(s, c, j - 1)
  }

  /** `s.rfind(c)`: the last index holding `c`, or -1. */
  function RFind(s: string, c: char): (i: int)
    ensures -1 <= i < |s|
    ensures i >= 0 ==> s[i] == c
    ensures forall k :: i < k < |s| ==> s[k] != c
  {
    RFindBelow(s, c, |s|)
  }

  predicate IsDigit(c: char) {
    '0' <= c <= '9'
  }

  function DigitChar(d: nat): (c: char)
    requires d < 10
    ensures IsDigit(c)
  {
    "0123456789"[d]
  }

  /** `str(n)` (and `f"{n}"`) for a natural number. */
  function Decimal(n: nat): (r: string)
    ensures r != []
  {
    if n < 10 then [DigitChar(n)] else Decimal(n / 10) + [DigitChar(n % 10)]
  }

  /** `str(n)` is made of decimal digits. */
  lemma {:induction false} DecimalDigits(n: nat)
    ensures forall i :: 0 <= i < |Decimal(n)| ==> IsDigit(Decimal(n)[i])
  {
    if n >= 10 {
      DecimalDigits(n / 10);
    }
  }

  /** Different numbers render differently. */
  lemma {:induction false} DecimalInjective(n: nat, m: nat)
    requires Decimal(n) == Decimal(m)
    ensures n == m
  {
    if n >= 10 && m >= 10 {
      var dn, dm := Decimal(n), Decimal(m);
      assert dn[..|dn| - 1] == Decimal(n / 10);
      assert dm[..|dm| - 1] == Decimal(m / 10);
      DecimalInjective(n / 10, m / 10);
      assert DigitChar(n % 10) == DigitChar(m % 10);
    }
  }

  /** The `width` least significant decimal digits of `n`, zero-padded:
      `"%0*d" % (width, n)` when `n < 10^width`. */
  function Digits(n: nat, width: nat): (r: string)
    ensures |r| == width
  {
    if width == 0 then [] else Digits(n / 10, width - 1) + [DigitChar(n % 10)]
  }

  /** Zero-padded digits are all decimal digits. */
  lemma {:induction false} DigitsAreDigits(n: nat, width: nat)
    ensures forall i :: 0 <= i < width ==> IsDigit(Digits(n, width)[i])
  {
    if width > 0 {
      DigitsAreDigits(n / 10, width - 1);
    }
  }

  predicate IsHexDigit(c: char) {
    IsDigit(c) || 'a' <= c <= 'f'
  }
}
