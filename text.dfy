/**
 * The rules of Python's `str` that the scripts rely on: which characters
 * count as whitespace, `strip()`, `split()` with and without a separator,
 * `join`, the decimal rendering of a non-negative `int` (with the `:03`
 * zero padding of a format string) and the code-point order `sorted` uses.
 */
module Text {

  /** `str.isspace()` for one character: the separators of `split()` and `strip()`. */
  predicate IsSpace(c: char) {
    || c == ' '
    || ('\t' <= c <= '\r')
    || ('\U{1c}' <= c <= '\U{1f}')
    || c == '\U{85}' || c == '\U{a0}' || c == '\U{1680}'
    || ('\U{2000}' <= c <= '\U{200a}')
    || c == '\U{2028}' || c == '\U{2029}' || c == '\U{202f}'
    || c == '\U{205f}' || c == '\U{3000}'
  }

  /** A string with no whitespace at either end: what `strip()` leaves. */
  predicate Trimmed(s: string) {
    s == [] || (!IsSpace(s[0]) && !IsSpace(s[|s| - 1]))
  }

  /** A non-empty run of non-whitespace characters: one token of `split()`. */
  predicate IsWord(w: string) {
    w != [] && forall i :: 0 <= i < |w| ==> !IsSpace(w[i])
  }

  function StripLeft(s: string): (r: string)
    ensures |r| <= |s|
  {
    if s != [] && IsSpace(s[0]) then StripLeft(s[1..]) else s
  }

  function StripRight(s: string): (r: string)
    ensures |r| <= |s|
  {
    if s != [] && IsSpace(s[|s| - 1]) then StripRight(s[..|s| - 1]) else s
  }

  /** `s.strip()`: whitespace removed from both ends. */
  function Strip(s: string): (r: string)
    ensures |r| <= |s|
  {
    StripRight(StripLeft(s))
  }

  /** `lstrip()` leaves a suffix of its argument. */
  lemma {:induction false} StripLeftSuffix(s: string)
    ensures StripLeft(s) == s[|s| - |StripLeft(s)|..]
  {
    if s != [] && IsSpace(s[0]) {
      StripLeftSuffix(s[1..]);
      assert s[1..][|s| - 1 - |StripLeft(s)|..] == s[|s| - |StripLeft(s)|..];
    }
  }

  /** `rstrip()` leaves a prefix of its argument. */
  lemma {:induction false} StripRightPrefix(s: string)
    ensures StripRight(s) == s[..|StripRight(s)|]
  {
    if s != [] && IsSpace(s[|s| - 1]) {
      StripRightPrefix(s[..|s| - 1]);
      assert s[..|s| - 1][..|StripRight(s)|] == s[..|StripRight(s)|];
    }
  }

  /** `lstrip()` removes a leading run of whitespace and stops at the first other character. */
  lemma {:induction false} StripLeftSpec(s: string)
    ensures var r := StripLeft(s);
            && (r == [] || !IsSpace(r[0]))
            && forall i :: 0 <= i < |s| - |r| ==> IsSpace(s[i])
  {
    if s != [] && IsSpace(s[0]) {
      StripLeftSpec(s[1..]);
      forall i | 0 <= i < |s| - |StripLeft(s)| ensures IsSpace(s[i]) {
        if i > 0 {
          assert s[i] == s[1..][i - 1];
        }
      }
    }
  }

  /** `rstrip()` removes a trailing run of whitespace and stops at the last other character. */
  lemma {:induction false} StripRightSpec(s: string)
    ensures var r := StripRight(s);
            && (r == [] || !IsSpace(r[|r| - 1]))
            && forall i :: |r| <= i < |s| ==> IsSpace(s[i])
  {
    if s != [] && IsSpace(s[|s| - 1]) {
      StripRightSpec(s[..|s| - 1]);
      forall i | |StripRight(s)| <= i < |s| ensures IsSpace(s[i]) {
        if i < |s| - 1 {
          assert s[i] == s[..|s| - 1][i];
        }
      }
    }
  }

  /** What `strip()` returns is trimmed, and is the infix of its argument left
      once a whitespace prefix and a whitespace suffix are removed. */
  lemma StripIsTrimmedInfix(s: string)
    ensures Trimmed(Strip(s))
    ensures var k := |s| - |StripLeft(s)|;
            && k + |Strip(s)| <= |s| && Strip(s) == s[k..k + |Strip(s)|]
            && (forall i :: 0 <= i < k ==> IsSpace(s[i]))
            && (forall i :: k + |Strip(s)| <= i < |s| ==> IsSpace(s[i]))
  {
    StripIsTrimmed(s);
    StripIsInfix(s);
    StripRemovesSpaces(s);
  }

  lemma StripIsTrimmed(s: string)
    ensures Trimmed(Strip(s))
  {
    var l := StripLeft(s);
    StripLeftSpec(s);
    var r := StripRight(l);
    StripRightSpec(l);
    StripRightPrefix(l);
    if r != [] {
      assert r[0] == l[0];
    }
  }

  lemma StripIsInfix(s: string)
    ensures var k := |s| - |StripLeft(s)|;
            k + |Strip(s)| <= |s| && Strip(s) == s[k..k + |Strip(s)|]
  {
    var l := StripLeft(s);
    StripLeftSuffix(s);
    var r := StripRight(l);
    StripRightPrefix(l);
    var k := |s| - |l|;
    assert s[k..k + |r|] == l[..|r|];
  }

  lemma StripRemovesSpaces(s: string)
    ensures var k := |s| - |StripLeft(s)|;
            && (forall i :: 0 <= i < k ==> IsSpace(s[i]))
            && (forall i :: k + |Strip(s)| <= i < |s| ==> IsSpace(s[i]))
  {
    var l := StripLeft(s);
    StripLeftSpec(s);
    StripLeftSuffix(s);
    var r := StripRight(l);
    StripRightSpec(l);
    var k := |s| - |l|;
    forall i | k + |r| <= i < |s| ensures IsSpace(s[i]) {
      assert s[i] == l[i - k];
    }
  }

  lemma {:induction false} StripLeftKeeps(s: string, c: char)
    requires !IsSpace(c)
    ensures c in s <==> c in StripLeft(s)
  {
    if s != [] && IsSpace(s[0]) {
      assert s == [s[0]] + s[1..];
      StripLeftKeeps(s[1..], c);
    }
  }

  lemma {:induction false} StripRightKeeps(s: string, c: char)
    requires !IsSpace(c)
    ensures c in s <==> c in StripRight(s)
  {
    if s != [] && IsSpace(s[|s| - 1]) {
      assert s == s[..|s| - 1] + [s[|s| - 1]];
      StripRightKeeps(s[..|s| - 1], c);
    }
  }

  /** `strip()` removes only whitespace, so a non-whitespace character survives it. */
  lemma StripKeeps(s: string, c: char)
    requires !IsSpace(c)
    ensures c in s <==> c in Strip(s)
  {
    StripLeftKeeps(s, c);
    StripRightKeeps(StripLeft(s), c);
  }

  /** `strip()` leaves a trimmed string as it is. */
  lemma StripTrimmed(s: string)
    requires Trimmed(s)
    ensures Strip(s) == s
  {
  }

  /** A string of whitespace strips to the empty string. */
  lemma {:induction false} BlankStrip(s: string)
    requires forall i :: 0 <= i < |s| ==> IsSpace(s[i])
    ensures Strip(s) == ""
  {
    if s != [] {
      BlankStrip(s[1..]);
      assert StripLeft(s) == StripLeft(s[1..]);
    }
  }

  /** `strip()` removes the whitespace a line break adds to a trimmed string. */
  lemma StripTrailingBreak(s: string)
    requires Trimmed(s)
    ensures Strip(s + "\n") == s
  {
    if s == [] {
      assert StripLeft("\n") == "";
    } else {
      assert StripLeft(s + "\n") == s + "\n";
      assert (s + "\n")[..|s|] == s;
      assert StripRight(s) == s;
    }
  }

  /** Number of occurrences of `c` in `s`. */
  function CountChar(s: string, c: char): nat
  {
    if s == [] then 0 else (if s[0] == c then 1 else 0) + CountChar(s[1..], c)
  }

  /** `s.split(c)` for a one-character separator: the pieces between separators, empty ones included. */
  function SplitOn(s: string, c: char): (parts: seq<string>)
    ensures |parts| >= 1
    ensures forall i :: 0 <= i < |parts| ==> c !in parts[i]
  {
    if s == [] then [""]
    else
      var rest := SplitOn(s[1..], c);
      if s[0] == c then [""] + rest
      else [[s[0]] + rest[0]] + rest[1..]
  }

  /** `sep.join(parts)`. */
  function JoinWith(parts: seq<string>, sep: string): string
  {
    if parts == [] then ""
    else if |parts| == 1 then parts[0]
    else parts[0] + sep + JoinWith(parts[1..], sep)
  }

  /** `split(c)` yields one piece more than there are separators. */
  lemma {:induction false} SplitOnCount(s: string, c: char)
    ensures |SplitOn(s, c)| == CountChar(s, c) + 1
  {
    if s != [] {
      SplitOnCount(s[1..], c);
    }
  }

  /** Joining after extending the first piece by one character extends the join by it. */
  lemma JoinWithExtendFirst(a: char, parts: seq<string>, sep: string)
    requires |parts| >= 1
    ensures JoinWith([[a] + parts[0]] + parts[1..], sep) == [a] + JoinWith(parts, sep)
  {
    var q := [[a] + parts[0]] + parts[1..];
    assert q[1..] == parts[1..];
  }

  /** Joining after an empty first piece puts a separator in front. */
  lemma JoinWithEmptyFirst(parts: seq<string>, sep: string)
    requires |parts| >= 1
    ensures JoinWith([""] + parts, sep) == sep + JoinWith(parts, sep)
  {
    assert ([""] + parts)[1..] == parts;
  }

  /** Joining the pieces of a split with the same separator gives back the string. */
  lemma {:induction false} JoinSplitOn(s: string, c: char)
    ensures JoinWith(SplitOn(s, c), [c]) == s
  {
    if s != [] {
      var rest := SplitOn(s[1..], c);
      JoinSplitOn(s[1..], c);
      if s[0] == c {
        JoinWithEmptyFirst(rest, [c]);
      } else {
        JoinWithExtendFirst(s[0], rest, [c]);
      }
      assert s == [s[0]] + s[1..];
    }
  }

  lemma {:induction false} SplitOnNoSeparator(a: string, c: char)
    requires c !in a
    ensures SplitOn(a, c) == [a]
  {
    if a != [] {
      SplitOnNoSeparator(a[1..], c);
      assert a == [a[0]] + a[1..];
    }
  }

  lemma {:induction false} SplitOnAfterPiece(a: string, t: string, c: char)
    requires c !in a
    ensures SplitOn(a + [c] + t, c) == [a] + SplitOn(t, c)
  {
    if a == [] {
      assert [c] + t == a + [c] + t;
      assert ([c] + t)[1..] == t;
    } else {
      assert (a + [c] + t)[1..] == a[1..] + [c] + t;
      SplitOnAfterPiece(a[1..], t, c);
      assert a == [a[0]] + a[1..];
    }
  }

  /** Splitting a join of separator-free pieces gives back the pieces. */
  lemma {:induction false} SplitOnJoin(parts: seq<string>, c: char)
    requires |parts| >= 1
    requires forall i :: 0 <= i < |parts| ==> c !in parts[i]
    ensures SplitOn(JoinWith(parts, [c]), c) == parts
  {
    if |parts| == 1 {
      SplitOnNoSeparator(parts[0], c);
    } else {
      SplitOnJoin(parts[1..], c);
      SplitOnAfterPiece(parts[0], JoinWith(parts[1..], [c]), c);
      assert parts == [parts[0]] + parts[1..];
    }
  }

  /** Length of the leading run of non-whitespace characters. */
  function WordLength(s: string): (n: nat)
    ensures n <= |s|
    ensures forall i :: 0 <= i < n ==> !IsSpace(s[i])
    ensures n < |s| ==> IsSpace(s[n])
  {
    if s == [] || IsSpace(s[0]) then 0 else 1 + WordLength(s[1..])
  }

  /** `s.split()`: the maximal runs of non-whitespace characters, in order. */
  function SplitWhitespace(s: string): (words: seq<string>)
    decreases |s|
  {
    if s == [] then []
    else if IsSpace(s[0]) then SplitWhitespace(s[1..])
    else
      var n := WordLength(s);
      [s[..n]] + SplitWhitespace(s[n..])
  }

  /** Every token of `split()` is a word. */
  lemma {:induction false} SplitWhitespaceWords(s: string)
    ensures forall i :: 0 <= i < |SplitWhitespace(s)| ==> IsWord(SplitWhitespace(s)[i])
    decreases |s|
  {
    if s != [] {
      if IsSpace(s[0]) {
        SplitWhitespaceWords(s[1..]);
      } else {
        var n := WordLength(s);
        SplitWhitespaceWords(s[n..]);
        assert IsWord(s[..n]);
      }
    }
  }

  lemma {:induction false} WordLengthOfWord(w: string, t: string)
    requires IsWord(w)
    requires t == [] || IsSpace(t[0])
    ensures WordLength(w + t) == |w|
  {
    var s := w + t;
    if |w| > 1 {
      assert s[1..] == w[1..] + t;
      WordLengthOfWord(w[1..], t);
    } else {
      assert s[1..] == t;
    }
  }

  /** A word followed by a space is the first token of `split()`. */
  lemma SplitWhitespaceCons(w: string, j: string)
    requires IsWord(w)
    ensures SplitWhitespace(w + " " + j) == [w] + SplitWhitespace(j)
  {
    var s := w + " " + j;
    assert s == w + (" " + j);
    WordLengthOfWord(w, " " + j);
    assert s[..|w|] == w;
    assert s[|w|..] == " " + j;
    assert (" " + j)[1..] == j;
    assert SplitWhitespace(" " + j) == SplitWhitespace(j);
  }

  /** A word alone is the only token of `split()`. */
  lemma SplitWhitespaceWord(w: string)
    requires IsWord(w)
    ensures SplitWhitespace(w) == [w]
  {
    WordLengthOfWord(w, "");
    assert w + "" == w;
    assert w[|w|..] == [];
  }

  /** `split()` of words joined by single spaces gives back the words. */
  lemma {:induction false} SplitWhitespaceJoin(words: seq<string>)
    requires forall i :: 0 <= i < |words| ==> IsWord(words[i])
    ensures SplitWhitespace(JoinWith(words, " ")) == words
  {
    if |words| == 1 {
      SplitWhitespaceWord(words[0]);
    } else if |words| > 1 {
      SplitWhitespaceCons(words[0], JoinWith(words[1..], " "));
      SplitWhitespaceJoin(words[1..]);
      assert words == [words[0]] + words[1..];
    }
  }

  predicate IsDigit(c: char) {
    '0' <= c <= '9'
  }

  predicate AllDigits(s: string) {
    forall i :: 0 <= i < |s| ==> IsDigit(s[i])
  }

  function DigitChar(d: nat): (c: char)
    requires d < 10
    ensures IsDigit(c) && c as int - '0' as int == d
  {
    ('0' as int + d) as char
  }

  /** `str(n)` for a non-negative integer. */
  function Decimal(n: nat): (s: string)
    ensures |s| >= 1 && AllDigits(s)
  {
    if n < 10 then [DigitChar(n)] else Decimal(n / 10) + [DigitChar(n % 10)]
  }

  /** The value of a string of decimal digits (leading zeros allowed), as `int(s)` reads it. */
  function DecimalValue(s: string): nat
    requires AllDigits(s)
  {
    if s == [] then 0 else DecimalValue(s[..|s| - 1]) * 10 + (s[|s| - 1] as int - '0' as int)
  }

  /** Reading back the decimal rendering of `n` gives `n`. */
  lemma {:induction false} DecimalRoundTrip(n: nat)
    ensures DecimalValue(Decimal(n)) == n
  {
    if n >= 10 {
      DecimalRoundTrip(n / 10);
      var s := Decimal(n);
      assert s[..|s| - 1] == Decimal(n / 10);
    }
  }

  /** A number below 1000 renders in at most three digits. */
  lemma {:induction false} DecimalShort(n: nat)
    requires n < 1000
    ensures |Decimal(n)| <= 3
  {
    if n >= 10 {
      DecimalShort(n / 10);
      if n / 10 >= 10 {
        assert n / 10 / 10 < 10;
      }
    }
  }

  function Zeros(k: nat): (z: string)
    ensures |z| == k && AllDigits(z)
  {
    if k == 0 then "" else "0" + Zeros(k - 1)
  }

  /** The `{n:0w}` format of a non-negative integer rendered as `digits`. */
  function ZeroPad(digits: string, width: nat): (r: string)
  {
    if |digits| >= width then digits else Zeros(width - |digits|) + digits
  }

  lemma {:induction false} ZerosValue(k: nat)
    ensures DecimalValue(Zeros(k)) == 0
  {
    if k > 0 {
      var z := Zeros(k);
      assert z[..k - 1] == Zeros(k - 1) by {
        if k > 1 {
          assert Zeros(k - 1) == "0" + Zeros(k - 2);
          assert z[..k - 1] == "0" + Zeros(k - 1)[..k - 2];
          assert Zeros(k - 1)[..k - 2] == Zeros(k - 2) by {
            ZerosAllZero(k - 1);
            ZerosAllZero(k - 2);
          }
        }
      }
      ZerosAllZero(k);
      ZerosValue(k - 1);
    }
  }

  lemma {:induction false} ZerosAllZero(k: nat)
    ensures forall i :: 0 <= i < k ==> Zeros(k)[i] == '0'
  {
    if k > 0 {
      ZerosAllZero(k - 1);
    }
  }

  /** Leading zeros do not change the value read back. */
  lemma {:induction false} LeadingZerosValue(k: nat, s: string)
    requires AllDigits(s)
    ensures AllDigits(Zeros(k) + s)
    ensures DecimalValue(Zeros(k) + s) == DecimalValue(s)
  {
    var t := Zeros(k) + s;
    if s == [] {
      assert t == Zeros(k);
      ZerosValue(k);
    } else {
      assert t[..|t| - 1] == Zeros(k) + s[..|s| - 1];
      LeadingZerosValue(k, s[..|s| - 1]);
    }
  }

  /** `s.endswith(suffix)`. */
  predicate EndsWith(s: string, suffix: string) {
    |suffix| <= |s| && s[|s| - |suffix|..] == suffix
  }

  /** Python's `<` on `str`: lexicographic by code point, a proper prefix first. */
  predicate Less(a: string, b: string)
  {
    if a == [] then b != []
    else if b == [] then false
    else if a[0] != b[0] then a[0] < b[0]
    else Less(a[1..], b[1..])
  }

  lemma {:induction false} LessIrreflexive(a: string)
    ensures !Less(a, a)
  {
    if a != [] {
      LessIrreflexive(a[1..]);
    }
  }

  lemma {:induction false} LessTransitive(a: string, b: string, c: string)
    requires Less(a, b) && Less(b, c)
    ensures Less(a, c)
  {
    if a != [] && b != [] && c != [] && a[0] == b[0] && b[0] == c[0] {
      LessTransitive(a[1..], b[1..], c[1..]);
    }
  }

  lemma {:induction false} LessTotal(a: string, b: string)
    requires a != b
    ensures Less(a, b) || Less(b, a)
  {
    if a != [] && b != [] && a[0] == b[0] {
      assert a == [a[0]] + a[1..];
      assert b == [b[0]] + b[1..];
      LessTotal(a[1..], b[1..]);
    }
  }

  /** The order `sorted()` leaves a list of distinct strings in. */
  predicate StrictlySorted(s: seq<string>)
  {
    forall i, j :: 0 <= i < j < |s| ==> Less(s[i], s[j])
  }

  /** Inserts a new string at its place in a strictly sorted list. */
  function InsertSorted(s: seq<string>, x: string): (r: seq<string>)
    requires StrictlySorted(s) && x !in s
    ensures StrictlySorted(r)
    ensures |r| == |s| + 1
    ensures forall y :: y in r <==> y in s || y == x
  {
    if s == [] then [x]
    else if Less(x, s[0]) then
      assert forall j :: 0 < j < |s| ==> Less(x, s[j]) by {
        forall j | 0 < j < |s| ensures Less(x, s[j]) {
          LessTransitive(x, s[0], s[j]);
        }
      }
      [x] + s
    else
      LessTotal(x, s[0]);
      var r' := InsertSorted(s[1..], x);
      assert forall y :: y in r' ==> Less(s[0], y);
      [s[0]] + r'
  }

  /** A strictly sorted list is determined by its elements: `sorted` of a set has one possible result. */
  lemma {:induction false} StrictlySortedUnique(a: seq<string>, b: seq<string>)
    requires StrictlySorted(a) && StrictlySorted(b)
    requires forall y :: y in a <==> y in b
    ensures a == b
  {
    if a != [] { assert a[0] in b; }
    if b != [] { assert b[0] in a; }
    if a != [] && b != [] {
      if a[0] != b[0] {
        assert b[0] in a && a[0] in b;
        var j :| 0 <= j < |a| && a[j] == b[0];
        var k :| 0 <= k < |b| && b[k] == a[0];
        assert j > 0 && k > 0;
        LessTransitive(a[0], b[0], a[0]);
        LessIrreflexive(a[0]);
      }
      forall y ensures y in a[1..] <==> y in b[1..] {
        if y in a[1..] {
          var j :| 1 <= j < |a| && a[j] == y;
          assert Less(a[0], y);
          if y == b[0] { LessIrreflexive(y); }
          assert y in b;
        }
        if y in b[1..] {
          var k :| 1 <= k < |b| && b[k] == y;
          assert Less(b[0], y);
          if y == a[0] { LessIrreflexive(y); }
          assert y in a;
        }
      }
      StrictlySortedUnique(a[1..], b[1..]);
      assert a == [a[0]] + a[1..];
      assert b == [b[0]] + b[1..];
    }
  }
}
