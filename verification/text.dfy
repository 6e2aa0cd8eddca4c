/**
 * The handful of Python `str` operations the taxonomy reader and the phrase
 * collapser rely on: `find`, `split(sep)`, `sep.join(parts)`, `strip()` and
 * `int(token)`, together with the facts that connect them.
 */
module Text {
  import opened Wrappers

  /** `pat` occurs in `s` starting at index `i`. */
  predicate OccursAt(s: string, pat: string, i: int) {
    0 <= i && i + |pat| <= |s| && s[i..i + |pat|] == pat
  }

  /** `s` contains `pat` as a substring. */
  ghost predicate Contains(s: string, pat: string) {
    exists i :: OccursAt(s, pat, i)
  }

  /** Leftmost occurrence of `pat` in `s` at or after index `from`. */
  function FindFrom(s: string, pat: string, from: nat): (r: Option<nat>)
    decreases |s| - from
    ensures r.Some? ==> from <= r.value && OccursAt(s, pat, r.value)
    ensures r.Some? ==> forall j :: from <= j < r.value ==> !OccursAt(s, pat, j)
    ensures r.None? ==> forall j :: from <= j ==> !OccursAt(s, pat, j)
  {
    if from + |pat| > |s| then None
    else if s[from..from + |pat|] == pat then Some(from)
    else FindFrom(s, pat, from + 1)
  }

  /** Python's `s.find(pat)`, with `None` for -1. */
  function Find(s: string, pat: string): (r: Option<nat>)
    ensures r.Some? ==> OccursAt(s, pat, r.value)
    ensures r.Some? ==> forall j :: 0 <= j < r.value ==> !OccursAt(s, pat, j)
    ensures r.None? <==> !Contains(s, pat)
  {
    FindFrom(s, pat, 0)
  }

  /** Python's `s.split(sep)` for a non-empty separator. */
  function Split(s: string, sep: string): (parts: seq<string>)
    requires |sep| > 0
    decreases |s|
    ensures |parts| >= 1
  {
    match Find(s, sep)
    case None => [s]
    case Some(i) => [s[..i]] + Split(s[i + |sep|..], sep)
  }

  /** Python's `sep.join(parts)`. */
  function Join(parts: seq<string>, sep: string): string
  {
    if |parts| == 0 then ""
    else if |parts| == 1 then parts[0]
    else parts[0] + sep + Join(parts[1..], sep)
  }

  lemma OccursInPrefix(s: string, pat: string, i: nat, j: int)
    requires i <= |s| && OccursAt(s[..i], pat, j)
    ensures OccursAt(s, pat, j) && j + |pat| <= i
  {
    assert s[..i][j..j + |pat|] == s[j..j + |pat|];
  }

  lemma OccursInSuffix(s: string, pat: string, a: nat, j: int)
    requires a <= |s| && OccursAt(s[a..], pat, j)
    ensures OccursAt(s, pat, a + j)
  {
    assert s[a..][j..j + |pat|] == s[a + j..a + j + |pat|];
  }

  /** A one-character pattern occurs exactly where that character stands. */
  lemma OccursChar(s: string, c: char, j: int)
    ensures OccursAt(s, [c], j) <==> 0 <= j < |s| && s[j] == c
  {
    if 0 <= j < |s| {
      assert s[j..j + 1] == [s[j]];
    }
  }

  /** The text before the leftmost occurrence of `sep` does not contain it. */
  lemma BeforeFind(s: string, sep: string)
    requires |sep| > 0 && Find(s, sep).Some?
    ensures !Contains(s[..Find(s, sep).value], sep)
  {
    var i := Find(s, sep).value;
    forall j
      ensures !OccursAt(s[..i], sep, j)
    {
      if 0 <= j && j + |sep| <= i {
        assert !OccursAt(s, sep, j);
        assert s[..i][j..j + |sep|] == s[j..j + |sep|];
      }
    }
  }

  /** No piece produced by `split` still contains the separator. */
  lemma {:induction false} SplitPiecesAreFree(s: string, sep: string)
    requires |sep| > 0
    ensures forall k :: 0 <= k < |Split(s, sep)| ==> !Contains(Split(s, sep)[k], sep)
    decreases |s|
  {
    if Find(s, sep).Some? {
      var i := Find(s, sep).value;
      var tail := s[i + |sep|..];
      SplitPiecesAreFree(tail, sep);
      BeforeFind(s, sep);
      var parts := Split(s, sep);
      assert parts == [s[..i]] + Split(tail, sep);
      assert forall k :: 1 <= k < |parts| ==> parts[k] == Split(tail, sep)[k - 1];
    }
  }

  lemma JoinCons(a: string, rest: seq<string>, sep: string)
    requires |rest| >= 1
    ensures Join([a] + rest, sep) == a + sep + Join(rest, sep)
  {
    assert ([a] + rest)[1..] == rest;
  }

  /** Cutting `s` around an occurrence of `pat` and gluing it back gives `s`. */
  lemma CutAround(s: string, pat: string, i: nat)
    requires OccursAt(s, pat, i)
    ensures s == s[..i] + pat + s[i + |pat|..]
  {
    assert s == s[..i] + s[i..i + |pat|] + s[i + |pat|..];
  }

  /** `sep.join(s.split(sep)) == s`: splitting loses nothing. */
  lemma {:induction false} SplitThenJoin(s: string, sep: string)
    requires |sep| > 0
    ensures Join(Split(s, sep), sep) == s
    decreases |s|
  {
    var f := Find(s, sep);
    if f.Some? {
      var i := f.value;
      var tail := s[i + |sep|..];
      SplitThenJoin(tail, sep);
      JoinCons(s[..i], Split(tail, sep), sep);
      CutAround(s, sep, i);
    }
  }

  /** `split` returns the whole string exactly when the separator is absent. */
  lemma SplitWithoutSeparator(s: string, sep: string)
    requires |sep| > 0
    ensures Split(s, sep) == [s] <==> !Contains(s, sep)
    ensures |Split(s, sep)| == 1 <==> !Contains(s, sep)
  {
    match Find(s, sep)
    case None =>
    case Some(i) =>
      assert |Split(s, sep)| >= 2;
  }

  /**
   * For a one-character separator that no part contains, `split` undoes
   * `join`.
   */
  lemma {:induction false} JoinThenSplit(parts: seq<string>, c: char)
    requires |parts| >= 1
    requires forall k :: 0 <= k < |parts| ==> c !in parts[k]
    ensures Split(Join(parts, [c]), [c]) == parts
    decreases |parts|
  {
    var s := Join(parts, [c]);
    var p := parts[0];
    forall j | 0 <= j < |p|
      ensures !OccursAt(s, [c], j)
    {
      OccursChar(s, c, j);
      if |parts| > 1 {
        assert s == p + [c] + Join(parts[1..], [c]);
      }
      assert s[j] == p[j];
    }
    if |parts| == 1 {
      forall j | true
        ensures !OccursAt(s, [c], j)
      {
        OccursChar(s, c, j);
      }
      assert Find(s, [c]).None?;
    } else {
      var rest := Join(parts[1..], [c]);
      assert s == p + [c] + rest;
      OccursChar(s, c, |p|);
      assert Find(s, [c]) == Some(|p|);
      assert s[..|p|] == p;
      assert s[|p| + 1..] == rest;
      JoinThenSplit(parts[1..], c);
      assert parts == [p] + parts[1..];
    }
  }

  /** Python's `str.isspace()` on one character: the set `strip()` removes. */
  predicate IsSpace(c: char) {
    var n := c as int;
    || 9 <= n <= 13
    || 28 <= n <= 32
    || n == 0x85 || n == 0xA0 || n == 0x1680
    || 0x2000 <= n <= 0x200A
    || n == 0x2028 || n == 0x2029 || n == 0x202F || n == 0x205F || n == 0x3000
  }

  /** Length of the longest whitespace prefix of `s`. */
  function LeadingSpaces(s: string): (n: nat)
    ensures n <= |s|
    ensures forall k :: 0 <= k < n ==> IsSpace(s[k])
    ensures n < |s| ==> !IsSpace(s[n])
  {
    if |s| > 0 && IsSpace(s[0]) then 1 + LeadingSpaces(s[1..]) else 0
  }

  /** Length of the longest whitespace suffix of `s`. */
  function TrailingSpaces(s: string): (n: nat)
    ensures n <= |s|
    ensures forall k :: |s| - n <= k < |s| ==> IsSpace(s[k])
    ensures n < |s| ==> !IsSpace(s[|s| - 1 - n])
  {
    if |s| > 0 && IsSpace(s[|s| - 1]) then 1 + TrailingSpaces(s[..|s| - 1]) else 0
  }

  /**
   * `r` is `s` with the `a` characters before it and everything after it
   * removed, and all the removed characters are whitespace.
   */
  ghost predicate StrippedAt(s: string, a: int, r: string) {
    && 0 <= a && a + |r| <= |s|
    && r == s[a..a + |r|]
    && (forall k :: 0 <= k < a ==> IsSpace(s[k]))
    && (forall k :: a + |r| <= k < |s| ==> IsSpace(s[k]))
  }

  /** Python's `s.strip()`. */
  function Strip(s: string): (r: string)
    ensures |r| > 0 ==> !IsSpace(r[0]) && !IsSpace(r[|r| - 1])
    ensures exists a :: StrippedAt(s, a, r)
  {
    var a := LeadingSpaces(s);
    var rest := s[a..];
    var r := rest[..|rest| - TrailingSpaces(rest)];
    assert r == s[a..a + |r|];
    assert StrippedAt(s, a, r);
    r
  }

  /** Stripping only removes characters. */
  lemma StripKeepsOnlyOwn(s: string)
    ensures forall c :: c in Strip(s) ==> c in s
  {
    var r := Strip(s);
    var a :| StrippedAt(s, a, r);
    assert forall i :: 0 <= i < |r| ==> r[i] == s[a + i];
  }

  /** A string with no whitespace at either end is its own strip. */
  lemma StripKeeps(s: string)
    requires |s| == 0 || (!IsSpace(s[0]) && !IsSpace(s[|s| - 1]))
    ensures Strip(s) == s
  {
  }

  predicate IsDigit(c: char) {
    '0' <= c <= '9'
  }

  /**
   * The digit part accepted by Python's `int(str)` in base 10: ASCII digits,
   * where a single underscore may stand between two digits.
   */
  predicate IsDigitString(s: string) {
    && |s| > 0
    && IsDigit(s[0]) && IsDigit(s[|s| - 1])
    && (forall k :: 0 <= k < |s| ==> IsDigit(s[k]) || s[k] == '_')
    && (forall k :: 0 <= k < |s| - 1 ==> s[k] != '_' || s[k + 1] != '_')
  }

  /** Decimal value of the digits of `s`, skipping underscores. */
  function DigitsValue(s: string): nat
  {
    if |s| == 0 then 0
    else if IsDigit(s[|s| - 1]) then 10 * DigitsValue(s[..|s| - 1]) + (s[|s| - 1] as int - '0' as int)
    else DigitsValue(s[..|s| - 1])
  }

  /**
   * U+001C..U+001F, the information separators: whitespace to
   * `str.isspace()`, but not to `int()`, which trims only the ASCII characters
   * `\t\n\v\f\r` and space, and whitespace beyond ASCII.
   */
  predicate IsInfoSeparator(c: char) {
    28 <= c as int <= 31
  }

  /**
   * Python's `int(token)`: surrounding whitespace is ignored, an optional
   * sign may precede the digits; anything else raises `ValueError` (`None`).
   * An information separator is never trimmed and is no digit, so wherever
   * it stands the token is rejected; every other character `int()` trims is
   * one `strip()` removes as well.
   */
  function ParseInt(token: string): Option<int>
  {
    if exists k :: 0 <= k < |token| && IsInfoSeparator(token[k]) then None
    else
    var t := Strip(token);
    if |t| > 0 && (t[0] == '+' || t[0] == '-') then
      if IsDigitString(t[1..]) then
        var v: int := DigitsValue(t[1..]);
        Some(if t[0] == '-' then -v else v)
      else None
    else if IsDigitString(t) then Some(DigitsValue(t))
    else None
  }

  function DigitChar(d: nat): char
    requires d < 10
  {
    ('0' as int + d) as char
  }

  /** Python's `str(n)` for a natural number. */
  function ShowNat(n: nat): (s: string)
    decreases n
  {
    if n < 10 then [DigitChar(n)] else ShowNat(n / 10) + [DigitChar(n % 10)]
  }

  /** Python's `str(x)` for an integer. */
  function ShowInt(x: int): string
  {
    if x < 0 then "-" + ShowNat(-x) else ShowNat(x)
  }

  lemma {:induction false} ShowNatDigits(n: nat)
    ensures IsDigitString(ShowNat(n))
    ensures DigitsValue(ShowNat(n)) == n
    decreases n
  {
    if n >= 10 {
      ShowNatDigits(n / 10);
      var s := ShowNat(n);
      assert s[..|s| - 1] == ShowNat(n / 10);
    }
  }

  lemma ParseUnsigned(s: string)
    requires IsDigitString(s)
    ensures ParseInt(s) == Some(DigitsValue(s))
  {
    StripKeeps(s);
    var t := Strip(s);
    assert t == s && |t| > 0;
    assert forall k :: 0 <= k < |s| ==> !IsInfoSeparator(s[k]);
    assert t[0] != '+' && t[0] != '-';
  }

  lemma ParseNegative(digits: string)
    requires IsDigitString(digits)
    ensures ParseInt("-" + digits) == Some(0 - DigitsValue(digits) as int)
  {
    var s := "-" + digits;
    assert s[1..] == digits;
    assert s[|s| - 1] == digits[|digits| - 1];
    assert forall k :: 0 < k < |s| ==> s[k] == digits[k - 1];
    StripKeeps(s);
  }

  /** `strip()` removes a trailing information separator: `"0\u001C"` strips to `"0"`. */
  lemma StripDropsSeparator()
    ensures Strip("0\U{1C}") == "0"
  {
    var t := "0\U{1C}";
    assert LeadingSpaces(t) == 0;
    assert TrailingSpaces(t[..1]) == 0;
    assert TrailingSpaces(t) == 1;
  }

  /**
   * `int()` and `strip()` disagree on the information separators: `int`
   * rejects `"0\u001C"`, though `strip()` leaves just `"0"` of it.
   */
  lemma SeparatorRejected()
    ensures ParseInt("0\U{1C}") == None
  {
    var t := "0\U{1C}";
    assert IsInfoSeparator(t[1]);
  }

  lemma ParseShowNegative(x: int)
    requires x < 0
    ensures ParseInt(ShowInt(x)) == Some(x)
  {
    ShowNatDigits(-x);
    ParseNegative(ShowNat(-x));
  }

  lemma ParseShowNatural(x: int)
    requires x >= 0
    ensures ParseInt(ShowInt(x)) == Some(x)
  {
    ShowNatDigits(x);
    ParseUnsigned(ShowNat(x));
  }

  /** `int(str(x)) == x`: parsing inverts printing. */
  lemma ParseShow(x: int)
    ensures ParseInt(ShowInt(x)) == Some(x)
  {
    if x < 0 {
      ParseShowNegative(x);
    } else {
      ParseShowNatural(x);
    }
  }

  lemma {:induction false} ShowNatChars(n: nat)
    ensures |ShowNat(n)| > 0
    ensures forall i :: 0 <= i < |ShowNat(n)| ==> IsDigit(ShowNat(n)[i])
    decreases n
  {
    if n >= 10 {
      ShowNatChars(n / 10);
    }
  }

  /** A printed integer is non-empty and contains no whitespace. */
  lemma ShowIntNoSpace(x: int)
    ensures |ShowInt(x)| > 0
    ensures forall i :: 0 <= i < |ShowInt(x)| ==> !IsSpace(ShowInt(x)[i])
  {
    var n: nat := if x < 0 then -x else x;
    ShowNatChars(n);
    var s := ShowInt(x);
    forall i | 0 <= i < |s|
      ensures !IsSpace(s[i])
    {
      if x < 0 && i > 0 {
        assert s[i] == ShowNat(n)[i - 1];
      }
    }
  }
}
