/**
 * String primitives with Python's meaning: digit filtering (`re.sub(r"\D+", "", s)`),
 * `str.strip()`, `str.lower()`, `str.endswith`, `str.replace`, `sep.join`,
 * `str.split(sep)`, clamped slicing `s[i:j]` and `str(n)`.
 * Digits are the ASCII digits '0'..'9'.
 */
module Text {
  import opened Wrappers
  import Seqs

  /** Length of an NF-e access key. */
  const AccessKeyLength: nat := 44

  predicate IsDigit(c: char) {
    '0' <= c <= '9'
  }

  predicate AllDigits(s: string) {
    forall i :: 0 <= i < |s| ==> IsDigit(s[i])
  }

  /** Python's `str.isdigit()`: non-empty and digits only. */
  predicate IsDecimal(s: string) {
    |s| > 0 && AllDigits(s)
  }

  /** A well-formed NF-e access key: exactly 44 digits. */
  predicate IsAccessKey(s: string) {
    |s| == AccessKeyLength && AllDigits(s)
  }

  // ---------------------------------------------------------------------------
  // Digit filtering

  /** Removes every character that is not a digit. */
  function OnlyDigits(s: string): (r: string)
    ensures AllDigits(r)
    ensures |r| <= |s|
  {
    if s == [] then [] else (if IsDigit(s[0]) then [s[0]] else []) + OnlyDigits(s[1..])
  }

  /** `_only_digits(s or "")`: `None` and `""` both give `""`. */
  function OnlyDigitsOrEmpty(s: Option<string>): (r: string)
    ensures s.None? ==> r == []
    ensures s.Some? ==> r == OnlyDigits(s.value)
  {
    OnlyDigits(if s.Some? then s.value else "")
  }

  /** Filtering distributes over concatenation, so the digits keep their order. */
  lemma {:induction false} OnlyDigitsAppend(a: string, b: string)
    ensures OnlyDigits(a + b) == OnlyDigits(a) + OnlyDigits(b)
  {
    if a != [] {
      assert (a + b)[1..] == a[1..] + b;
      OnlyDigitsAppend(a[1..], b);
    } else {
      assert a + b == b;
    }
  }

  /** A separator between digits (a space, a dot, ...) does not change the digits. */
  lemma OnlyDigitsIgnoresSeparator(a: string, c: char, b: string)
    requires !IsDigit(c)
    ensures OnlyDigits(a + [c] + b) == OnlyDigits(a + b)
  {
    OnlyDigitsAppend(a + [c], b);
    OnlyDigitsAppend(a, [c]);
    OnlyDigitsAppend(a, b);
  }

  /** A digit string is its own digit form, and only a digit string is. */
  lemma {:induction false} OnlyDigitsFixpoint(s: string)
    ensures OnlyDigits(s) == s <==> AllDigits(s)
  {
    if s != [] {
      OnlyDigitsFixpoint(s[1..]);
      if !IsDigit(s[0]) {
        assert |OnlyDigits(s)| < |s| by { assert |OnlyDigits(s[1..])| <= |s[1..]|; }
      } else {
        assert AllDigits(s) <==> AllDigits(s[1..]) by {
          assert forall i :: 0 < i < |s| ==> s[i] == s[1..][i - 1];
        }
      }
    }
  }

  /** Normalising twice is normalising once. */
  lemma OnlyDigitsIdempotent(s: string)
    ensures OnlyDigits(OnlyDigits(s)) == OnlyDigits(s)
  {
    OnlyDigitsFixpoint(OnlyDigits(s));
  }

  /** Every digit of the input survives, as many times as it occurs. */
  lemma {:induction false} OnlyDigitsKeepsDigits(s: string, c: char)
    requires IsDigit(c)
    ensures multiset(OnlyDigits(s))[c] == multiset(s)[c]
  {
    if s != [] {
      OnlyDigitsKeepsDigits(s[1..], c);
      assert s == [s[0]] + s[1..];
    }
  }

  // ---------------------------------------------------------------------------
  // Whitespace stripping

  /**
   * The characters Python's `str.isspace()` accepts: tab to carriage return,
   * the four information separators, space, NEL, no-break space, the Ogham
   * space mark, the en quad to hair space range, the line and paragraph
   * separators, the narrow no-break and medium mathematical spaces, and the
   * ideographic space.
   */
  predicate IsSpace(c: char) {
    var n := c as int;
    (0x09 <= n <= 0x0d) || (0x1c <= n <= 0x20) || n == 0x85 || n == 0xa0 || n == 0x1680 ||
    (0x2000 <= n <= 0x200a) || n == 0x2028 || n == 0x2029 || n == 0x202f || n == 0x205f || n == 0x3000
  }

  function StripLeft(s: string): (r: string)
    ensures |r| <= |s|
    ensures r == [] || !IsSpace(r[0])
  {
    if s != [] && IsSpace(s[0]) then StripLeft(s[1..]) else s
  }

  function StripRight(s: string): (r: string)
    ensures |r| <= |s|
    ensures r == [] || !IsSpace(r[|r| - 1])
  {
    if s != [] && IsSpace(s[|s| - 1]) then StripRight(s[..|s| - 1]) else s
  }

  /** Python's `str.strip()`: drops leading and trailing whitespace, nothing else. */
  function Strip(s: string): (r: string)
    ensures |r| <= |s|
  {
    StripRight(StripLeft(s))
  }

  /** Text without whitespace at either end is left as it is. */
  lemma StripUnchanged(s: string)
    requires s == [] || (!IsSpace(s[0]) && !IsSpace(s[|s| - 1]))
    ensures Strip(s) == s
  {
    assert StripLeft(s) == s;
  }

  /** What `strip` returns neither starts nor ends with whitespace. */
  lemma StripEnds(s: string)
    ensures var r := Strip(s); r == [] || (!IsSpace(r[0]) && !IsSpace(r[|r| - 1]))
  {
    StripRightIsPrefix(StripLeft(s));
  }

  /** What `lstrip` keeps is a suffix of its input. */
  lemma {:induction false} StripLeftIsSuffix(s: string)
    ensures StripLeft(s) == s[|s| - |StripLeft(s)|..]
  {
    if s != [] && IsSpace(s[0]) {
      StripLeftIsSuffix(s[1..]);
    }
  }

  /** What `rstrip` keeps is a prefix of its input. */
  lemma {:induction false} StripRightIsPrefix(s: string)
    ensures StripRight(s) == s[..|StripRight(s)|]
  {
    if s != [] && IsSpace(s[|s| - 1]) {
      StripRightIsPrefix(s[..|s| - 1]);
    }
  }

  /** `lstrip` drops whitespace only. */
  lemma {:induction false} StripLeftOnlySpace(s: string)
    ensures forall i :: 0 <= i < |s| - |StripLeft(s)| ==> IsSpace(s[i])
  {
    if s != [] && IsSpace(s[0]) {
      StripLeftOnlySpace(s[1..]);
      forall i | 1 <= i < |s| - |StripLeft(s)| ensures IsSpace(s[i]) {
        assert s[i] == s[1..][i - 1];
      }
    }
  }

  /** `rstrip` drops whitespace only. */
  lemma {:induction false} StripRightOnlySpace(s: string)
    ensures forall i :: |StripRight(s)| <= i < |s| ==> IsSpace(s[i])
  {
    if s != [] && IsSpace(s[|s| - 1]) {
      StripRightOnlySpace(s[..|s| - 1]);
      forall i | |StripRight(s)| <= i < |s| - 1 ensures IsSpace(s[i]) {
        assert s[i] == s[..|s| - 1][i];
      }
    }
  }

  /**
   * `strip` keeps one contiguous stretch of its input and drops only the
   * whitespace before and after it.
   */
  lemma StripOnlySpace(s: string)
    ensures var r := Strip(s); var lead := |s| - |StripLeft(s)|;
      && lead + |r| <= |s|
      && r == s[lead..lead + |r|]
      && (forall i :: 0 <= i < lead ==> IsSpace(s[i]))
      && (forall i :: lead + |r| <= i < |s| ==> IsSpace(s[i]))
  {
    var l := StripLeft(s);
    var lead := |s| - |l|;
    StripLeftIsSuffix(s);
    StripLeftOnlySpace(s);
    StripRightIsPrefix(l);
    StripRightOnlySpace(l);
    var r := Strip(s);
    assert r == l[..|r|];
    assert l[..|r|] == s[lead..lead + |r|];
    forall i | lead + |r| <= i < |s| ensures IsSpace(s[i]) {
      assert s[i] == l[i - lead];
    }
  }

  /** Stripping adds no character. */
  lemma StripKeepsAbsent(s: string, c: char)
    requires c !in s
    ensures c !in Strip(s)
  {
    var l := StripLeft(s);
    StripLeftIsSuffix(s);
    assert forall i :: 0 <= i < |l| ==> l[i] == s[|s| - |l| + i];
    var r := StripRight(l);
    StripRightIsPrefix(l);
    assert forall i :: 0 <= i < |r| ==> r[i] == l[i];
  }

  lemma StripIdempotent(s: string)
    ensures Strip(Strip(s)) == Strip(s)
  {
    var r := Strip(s);
    StripEnds(s);
    assert StripLeft(r) == r;
    assert StripRight(r) == r;
  }

  // ---------------------------------------------------------------------------
  // Case and affixes

  /** Python's `str.lower()` on ASCII letters. */
  function LowerChar(c: char): char {
    if 'A' <= c <= 'Z' then (c as int + 32) as char else c
  }

  function Lower(s: string): (r: string)
    ensures |r| == |s|
    ensures forall i :: 0 <= i < |s| ==> r[i] == LowerChar(s[i])
  {
    if s == [] then [] else [LowerChar(s[0])] + Lower(s[1..])
  }

  predicate EndsWith(s: string, suffix: string) {
    |suffix| <= |s| && s[|s| - |suffix|..] == suffix
  }

  // ---------------------------------------------------------------------------
  // Replacement

  /** Python's `s.replace(pat, rep)`: non-overlapping occurrences, left to right. */
  function ReplaceAll(s: string, pat: string, rep: string): (r: string)
    requires pat != []
    ensures |rep| == |pat| ==> |r| == |s|
    ensures rep == [] ==> |r| <= |s|
    decreases |s|
  {
    if |s| >= |pat| && s[..|pat|] == pat then rep + ReplaceAll(s[|pat|..], pat, rep)
    else if s == [] then []
    else [s[0]] + ReplaceAll(s[1..], pat, rep)
  }

  /** Replacing one character by a string that lacks it leaves none of it. */
  lemma {:induction false} ReplaceAllRemovesChar(s: string, c: char, rep: string)
    requires c !in rep
    ensures c !in ReplaceAll(s, [c], rep)
  {
    if s != [] { ReplaceAllRemovesChar(s[1..], c, rep); }
  }

  /** Removing characters other than `c` keeps `c` absent. */
  lemma {:induction false} ReplaceAllKeepsAbsent(s: string, pat: string, rep: string, c: char)
    requires pat != [] && c !in s && c !in rep
    ensures c !in ReplaceAll(s, pat, rep)
    decreases |s|
  {
    if |s| >= |pat| && s[..|pat|] == pat {
      ReplaceAllKeepsAbsent(s[|pat|..], pat, rep, c);
    } else if s != [] {
      ReplaceAllKeepsAbsent(s[1..], pat, rep, c);
    }
  }

  /**
   * Replacing one character by another works position by position: each
   * occurrence becomes the replacement and every other character is kept.
   */
  lemma {:induction false} ReplaceCharPointwise(s: string, c: char, d: char)
    ensures |ReplaceAll(s, [c], [d])| == |s|
    ensures forall i :: 0 <= i < |s| ==> ReplaceAll(s, [c], [d])[i] == (if s[i] == c then d else s[i])
  {
    if s != [] {
      ReplaceCharPointwise(s[1..], c, d);
      var r := ReplaceAll(s, [c], [d]);
      var tail := ReplaceAll(s[1..], [c], [d]);
      if s[..1] == [c] {
        assert s[0] == c;
        assert r == [d] + tail;
      } else {
        assert s[0] != c by { assert s[..1] == [s[0]]; }
        assert r == [s[0]] + tail;
      }
      forall i | 1 <= i < |s| ensures r[i] == (if s[i] == c then d else s[i]) {
        assert r[i] == tail[i - 1] && s[i] == s[1..][i - 1];
      }
    }
  }

  /** A digit is not whitespace. */
  lemma DigitNotSpace(c: char)
    requires IsDigit(c)
    ensures !IsSpace(c)
  {
    assert 0x30 <= c as int <= 0x39;
  }

  /** A string without the pattern is left alone. */
  lemma {:induction false} ReplaceAllAbsent(s: string, c: char, rep: string)
    requires c !in s
    ensures ReplaceAll(s, [c], rep) == s
  {
    if s != [] {
      assert s[..1] != [c] by { assert s[..1][0] == s[0]; }
      ReplaceAllAbsent(s[1..], c, rep);
      assert s == [s[0]] + s[1..];
    }
  }

  /** The test "is not `c`", for filtering a text. */
  function NotChar(c: char): char -> bool {
    (x: char) => x != c
  }

  /**
   * Removing one character keeps every other character, in order: it is the
   * text filtered by "is not `c`".
   */
  lemma {:induction false} RemoveCharIsFilter(s: string, c: char)
    ensures ReplaceAll(s, [c], "") == Seqs.Filter(NotChar(c), s)
  {
    if s != [] {
      RemoveCharIsFilter(s[1..], c);
      if s[..1] == [c] {
        assert s[0] == c;
      } else {
        assert s[0] != c by { assert s[..1] == [s[0]]; }
      }
    }
  }

  /** A character outside the pattern, appended to the text, is carried through. */
  lemma {:induction false} ReplaceAllAppendChar(s: string, pat: string, rep: string, x: char)
    requires pat != [] && x !in pat
    ensures ReplaceAll(s + [x], pat, rep) == ReplaceAll(s, pat, rep) + [x]
    decreases |s|
  {
    var t := s + [x];
    if |s| >= |pat| && s[..|pat|] == pat {
      assert t[..|pat|] == pat;
      assert t[|pat|..] == s[|pat|..] + [x];
      ReplaceAllAppendChar(s[|pat|..], pat, rep, x);
    } else if s == [] {
      if |t| >= |pat| {
        assert t[..|pat|] == t && t[0] == x;
      }
      assert ReplaceAll(t[1..], pat, rep) == [];
    } else {
      if |s| >= |pat| {
        assert t[..|pat|] == s[..|pat|];
      } else if |t| >= |pat| {
        assert t[..|pat|] == t && t[|s|] == x;
      }
      assert t[1..] == s[1..] + [x];
      ReplaceAllAppendChar(s[1..], pat, rep, x);
    }
  }

  // ---------------------------------------------------------------------------
  // Joining and splitting

  /** Python's `sep.join(xs)`. */
  function Join(sep: string, xs: seq<string>): (r: string)
  {
    if xs == [] then ""
    else if |xs| == 1 then xs[0]
    else xs[0] + sep + Join(sep, xs[1..])
  }

  /** Python's `s.split(sep)` for a non-empty separator. */
  function Split(s: string, sep: string): (r: seq<string>)
    requires sep != []
    ensures |r| >= 1
    decreases |s|
  {
    if |s| >= |sep| && s[..|sep|] == sep then [""] + Split(s[|sep|..], sep)
    else if s == [] then [""]
    else
      var t := Split(s[1..], sep);
      [[s[0]] + t[0]] + t[1..]
  }

  lemma {:induction false} SplitWithoutSeparator(x: string, sep: string)
    requires sep != [] && sep[0] !in x
    ensures Split(x, sep) == [x]
  {
    if x != [] {
      SplitWithoutSeparator(x[1..], sep);
      assert x == [x[0]] + x[1..];
    }
  }

  lemma {:induction false} SplitAfterField(x: string, sep: string, y: string)
    requires sep != [] && sep[0] !in x
    ensures Split(x + sep + y, sep) == [x] + Split(y, sep)
  {
    var s := x + sep + y;
    if x == [] {
      assert s[..|sep|] == sep && s[|sep|..] == y;
    } else {
      assert s[..|sep|] != sep by { assert s[0] == x[0]; }
      assert s[1..] == x[1..] + sep + y;
      SplitAfterField(x[1..], sep, y);
      assert x == [x[0]] + x[1..];
    }
  }

  /**
   * Splitting a join gives the list back when no element contains the
   * separator's first character.
   */
  lemma {:induction false} SplitJoin(xs: seq<string>, sep: string)
    requires sep != [] && |xs| >= 1
    requires forall i :: 0 <= i < |xs| ==> sep[0] !in xs[i]
    ensures Split(Join(sep, xs), sep) == xs
  {
    if |xs| == 1 {
      SplitWithoutSeparator(xs[0], sep);
    } else {
      SplitJoin(xs[1..], sep);
      SplitAfterField(xs[0], sep, Join(sep, xs[1..]));
      assert xs == [xs[0]] + xs[1..];
    }
  }

  // ---------------------------------------------------------------------------
  // Slicing and numbers

  function Min(a: int, b: int): int { if a <= b then a else b }

  /** Python's `s[i:j]` for `0 <= i <= j`, clamped to the string. */
  function Slice(s: string, i: nat, j: nat): (r: string)
    requires i <= j
    ensures |r| == Min(j, |s|) - Min(i, |s|)
    ensures j <= |s| ==> r == s[i..j]
  {
    s[Min(i, |s|)..Min(j, |s|)]
  }

  function DigitChar(d: nat): (c: char)
    requires d < 10
    ensures IsDigit(c)
  {
    ('0' as int + d) as char
  }

  /** Python's `str(n)` for a natural number. */
  function NatToString(n: nat): (r: string)
    ensures |r| >= 1 && AllDigits(r)
    ensures n > 0 ==> r[0] != '0'
  {
    if n < 10 then [DigitChar(n)] else NatToString(n / 10) + [DigitChar(n % 10)]
  }

  /** Decimal value of a digit string. */
  function DigitsValue(s: string): nat
    requires AllDigits(s)
  {
    if s == [] then 0 else 10 * DigitsValue(s[..|s| - 1]) + (s[|s| - 1] as int - '0' as int)
  }

  /** `str(n)` reads back as `n`. */
  lemma {:induction false} NatToStringValue(n: nat)
    ensures DigitsValue(NatToString(n)) == n
  {
    if n >= 10 {
      NatToStringValue(n / 10);
      var s := NatToString(n);
      assert s[..|s| - 1] == NatToString(n / 10);
    }
  }
}
