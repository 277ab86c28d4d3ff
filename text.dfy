/**
 * The behaviour of the Rust standard-library string operations the core relies on:
 * substring search (`str::find`, `str::contains`, `str::split_once`), splitting at a
 * separator (`str::split`), integer parsing (`str::parse::<isize>` and `::<usize>`),
 * decimal formatting (`format!("{}", n)`) and the ordering of `String`.
 * Strings are sequences of Unicode scalar values.
 */
module Text {
  import opened Wrappers

  // ---------------------------------------------------------------- search

  /** `pat` occurs in `s` starting at index `j`. */
  predicate OccursAt(s: string, pat: string, j: int) {
    0 <= j && j + |pat| <= |s| && s[j..j + |pat|] == pat
  }

  /** The index of the leftmost occurrence of `pat` in `s` (`str::find`). */
  function FindFirst(s: string, pat: string): (r: Option<nat>)
    ensures r.Some? ==> OccursAt(s, pat, r.value)
    ensures r.Some? ==> forall j :: 0 <= j < r.value ==> !OccursAt(s, pat, j)
    ensures r.None? ==> forall j :: !OccursAt(s, pat, j)
    decreases |s|
  {
    if |pat| > |s| then None
    else if s[..|pat|] == pat then Some(0)
    else
      var rest := FindFirst(s[1..], pat);
      assert forall j :: 1 <= j ==> (OccursAt(s, pat, j) <==> OccursAt(s[1..], pat, j - 1)) by {
        forall j | 1 <= j ensures OccursAt(s, pat, j) <==> OccursAt(s[1..], pat, j - 1) {
          OccursShift(s, pat, j);
        }
      }
      match rest
      case None => None
      case Some(i) => Some(i + 1)
  }

  lemma OccursShift(s: string, pat: string, j: int)
    requires |s| > 0 && 1 <= j
    ensures OccursAt(s, pat, j) <==> OccursAt(s[1..], pat, j - 1)
  {
    if j + |pat| <= |s| {
      assert s[j..j + |pat|] == s[1..][j - 1..j - 1 + |pat|];
    }
  }

  /** `str::contains` with a string pattern. */
  predicate Contains(s: string, pat: string) {
    FindFirst(s, pat).Some?
  }

  lemma ContainsMeansOccurs(s: string, pat: string)
    ensures Contains(s, pat) <==> exists j :: OccursAt(s, pat, j)
  {
    if Contains(s, pat) {
      assert OccursAt(s, pat, FindFirst(s, pat).value);
    }
  }

  /** `str::split_once`: the text before and after the leftmost occurrence of `pat`. */
  function SplitOnce(s: string, pat: string): (r: Option<(string, string)>)
    ensures r.None? <==> !Contains(s, pat)
    ensures r.Some? ==> s == r.value.0 + pat + r.value.1
    ensures r.Some? && |pat| > 0 ==> !Contains(r.value.0, pat)
    ensures r.Some? ==> |r.value.0| == FindFirst(s, pat).value
  {
    match FindFirst(s, pat)
    case None => None
    case Some(i) =>
      var before := s[..i];
      assert s == before + pat + s[i + |pat|..];
      assert forall j :: OccursAt(before, pat, j) ==> OccursAt(s, pat, j) by {
        forall j | OccursAt(before, pat, j) ensures OccursAt(s, pat, j) {
          assert s[j..j + |pat|] == before[j..j + |pat|];
        }
      }
      Some((before, s[i + |pat|..]))
  }

  // ---------------------------------------------------------------- split / join

  /** Glue the parts together with `sep` between consecutive parts (`[T]::join`). */
  function Join(parts: seq<string>, sep: char): string
    requires |parts| >= 1
  {
    if |parts| == 1 then parts[0] else parts[0] + [sep] + Join(parts[1..], sep)
  }

  /**
   * `str::split` at every occurrence of the one-character separator `sep`: there is
   * always at least one part, no part holds `sep`, and joining the parts gives `s` back.
   */
  function Split(s: string, sep: char): (r: seq<string>)
    ensures |r| >= 1
    ensures forall k :: 0 <= k < |r| ==> sep !in r[k]
    ensures Join(r, sep) == s
  {
    if |s| == 0 then [[]]
    else
      var rest := Split(s[1..], sep);
      if s[0] == sep then
        assert [[]] + rest == [[]] + rest && ([[]] + rest)[1..] == rest;
        [[]] + rest
      else
        var r := [[s[0]] + rest[0]] + rest[1..];
        assert r[1..] == rest[1..];
        assert |rest| > 1 ==> rest == [rest[0]] + rest[1..];
        r
  }

  /** Splitting what `Join` built gives the parts back, when no part holds the separator. */
  lemma {:induction false} SplitJoin(parts: seq<string>, sep: char)
    requires |parts| >= 1
    requires forall k :: 0 <= k < |parts| ==> sep !in parts[k]
    ensures Split(Join(parts, sep), sep) == parts
  {
    if |parts| == 1 {
      SplitNoSep(parts[0], sep);
    } else {
      SplitJoin(parts[1..], sep);
      SplitPrefix(parts[0], Join(parts[1..], sep), sep);
      assert parts == [parts[0]] + parts[1..];
    }
  }

  /** A string without the separator splits into itself. */
  lemma {:induction false} SplitNoSep(s: string, sep: char)
    requires sep !in s
    ensures Split(s, sep) == [s]
  {
    if |s| > 0 {
      SplitNoSep(s[1..], sep);
      assert [s[0]] + s[1..] == s;
    }
  }

  /** Splitting `a + sep + b` for a separator-free `a` yields `a` followed by the parts of `b`. */
  lemma {:induction false} SplitPrefix(a: string, b: string, sep: char)
    requires sep !in a
    ensures Split(a + [sep] + b, sep) == [a] + Split(b, sep)
  {
    if |a| == 0 {
      assert a + [sep] + b == [sep] + b;
      assert ([sep] + b)[1..] == b;
    } else {
      SplitPrefix(a[1..], b, sep);
      assert (a + [sep] + b)[1..] == a[1..] + [sep] + b;
      assert [a[0]] + a[1..] == a;
    }
  }

  /** The last part of a split is the text after the last separator. */
  lemma SplitLastAfterSep(a: string, b: string, sep: char)
    requires sep !in b
    ensures var r := Split(a + [sep] + b, sep); r[|r| - 1] == b
  {
    var parts := Split(a, sep);
    var all := parts + [b];
    forall k | 0 <= k < |all| ensures sep !in all[k] {
      if k < |parts| { assert all[k] == parts[k]; }
    }
    JoinAppend(parts, b, sep);
    SplitJoin(all, sep);
  }

  lemma {:induction false} JoinAppend(parts: seq<string>, b: string, sep: char)
    requires |parts| >= 1
    ensures Join(parts + [b], sep) == Join(parts, sep) + [sep] + b
  {
    if |parts| == 1 {
      assert (parts + [b])[1..] == [b];
    } else {
      JoinAppend(parts[1..], b, sep);
      assert (parts + [b])[1..] == parts[1..] + [b];
    }
  }

  // ---------------------------------------------------------------- integers

  predicate IsDigit(c: char) {
    '0' <= c <= '9'
  }

  predicate AllDigits(s: string) {
    forall k :: 0 <= k < |s| ==> IsDigit(s[k])
  }

  /** A text of digits holds no character that is not a digit. */
  lemma DigitsOmit(digits: string, c: char)
    requires AllDigits(digits) && !IsDigit(c)
    ensures c !in digits
  {
    forall k | 0 <= k < |digits| ensures digits[k] != c {
      assert IsDigit(digits[k]);
    }
  }

  /** The value of a string of decimal digits, most significant first. */
  function DigitsValue(s: string): nat
    requires AllDigits(s)
  {
    if |s| == 0 then 0 else DigitsValue(s[..|s| - 1]) * 10 + (s[|s| - 1] as int - '0' as int)
  }

  /** At least one decimal digit, after an optional `+` or `-`. */
  predicate SignedDigits(s: string) {
    (|s| > 0 && AllDigits(s)) || (|s| > 1 && (s[0] == '+' || s[0] == '-') && AllDigits(s[1..]))
  }

  /** At least one decimal digit, after an optional `+`. */
  predicate UnsignedDigits(s: string) {
    (|s| > 0 && AllDigits(s)) || (|s| > 1 && s[0] == '+' && AllDigits(s[1..]))
  }

  /**
   * `str::parse::<isize>`: an optional `+` or `-` followed by at least one decimal digit.
   * The empty string, a lone sign and any other character are errors. The width of
   * `isize` is not modelled.
   */
  function ParseInt(s: string): (r: Option<int>)
    ensures r.Some? <==> SignedDigits(s)
  {
    if |s| == 0 then None
    else if (s[0] == '+' || s[0] == '-') && |s| == 1 then None
    else if s[0] == '+' || s[0] == '-' then
      if AllDigits(s[1..]) then
        var v: int := DigitsValue(s[1..]);
        Some(if s[0] == '-' then -v else v)
      else None
    else if AllDigits(s) then Some(DigitsValue(s))
    else None
  }

  /**
   * The unsigned reading of `str::parse`: an optional `+` followed by at least one decimal
   * digit; a `-` is always an error. It has no width: `ParseUsize` adds the bound of `usize`.
   */
  function ParseNat(s: string): (r: Option<nat>)
    ensures r.Some? <==> UnsignedDigits(s)
    ensures r.Some? ==> ParseInt(s) == Some(r.value as int)
  {
    if |s| == 0 then None
    else if s[0] == '+' && |s| == 1 then None
    else if s[0] == '+' then
      if AllDigits(s[1..]) then Some(DigitsValue(s[1..])) else None
    else if AllDigits(s) then Some(DigitsValue(s))
    else None
  }

  /** The largest `usize` on a 64-bit target. */
  const UsizeMax: nat := 0xFFFF_FFFF_FFFF_FFFF

  /** `str::parse::<usize>`: the unsigned reading, failing for a value above `usize::MAX`. */
  function ParseUsize(s: string): (r: Option<nat>)
    ensures r.Some? <==> ParseNat(s).Some? && ParseNat(s).value <= UsizeMax
    ensures r.Some? ==> r == ParseNat(s) && r.value <= UsizeMax
  {
    match ParseNat(s)
    case Some(v) => if v <= UsizeMax then Some(v) else None
    case None => None
  }

  /** Decimal digits of `n` without leading zeros (`format!("{}", n)` for an unsigned integer). */
  function NatToString(n: nat): (r: string)
    ensures |r| >= 1 && AllDigits(r)
  {
    var d := [('0' as int + n % 10) as char];
    if n < 10 then d else NatToString(n / 10) + d
  }

  /** Formatting a number and parsing it back gives the number. */
  lemma {:induction false} NatToStringValue(n: nat)
    ensures DigitsValue(NatToString(n)) == n
  {
    var s := NatToString(n);
    if n >= 10 {
      NatToStringValue(n / 10);
      assert s[..|s| - 1] == NatToString(n / 10);
    }
  }

  lemma NatToStringRoundTrip(n: nat)
    ensures ParseNat(NatToString(n)) == Some(n)
    ensures ParseInt(NatToString(n)) == Some(n)
  {
    NatToStringValue(n);
  }

  /** The digits of `n` are a `usize` exactly when `n` fits in one. */
  lemma UsizeRoundTrip(n: nat)
    ensures n <= UsizeMax ==> ParseUsize(NatToString(n)) == Some(n)
    ensures n > UsizeMax ==> ParseUsize(NatToString(n)) == None
  {
    NatToStringRoundTrip(n);
  }

  /** A sign before the digits of `n`: `-` parses to `-n` and `+` to `n`; only `+` is an unsigned number. */
  lemma SignedRoundTrip(n: nat)
    ensures ParseInt("-" + NatToString(n)) == Some(-(n as int))
    ensures ParseInt("+" + NatToString(n)) == Some(n)
    ensures ParseNat("+" + NatToString(n)) == Some(n)
    ensures ParseNat("-" + NatToString(n)) == None
  {
    var d := NatToString(n);
    NatToStringValue(n);
    assert ("-" + d)[1..] == d && ("+" + d)[1..] == d;
    assert ("-" + d)[0] == '-' && ("+" + d)[0] == '+';
    assert !IsDigit(("-" + d)[0]);
  }

  /** The empty text, a lone sign and a text with a character that is neither a digit nor a leading sign do not parse. */
  lemma ParseRejects(s: string, k: nat)
    requires k < |s| && !IsDigit(s[k]) && (k > 0 || (s[0] != '+' && s[0] != '-'))
    ensures ParseInt(s) == None && ParseNat(s) == None
    ensures ParseInt("") == None && ParseInt("+") == None && ParseInt("-") == None
    ensures ParseNat("") == None && ParseNat("+") == None && ParseNat("-") == None
  {
    if k > 0 {
      assert s[1..][k - 1] == s[k];
    }
    assert !IsDigit('-');
  }

  // ---------------------------------------------------------------- ordering

  /**
   * The order of Rust's `String`: lexicographic on the UTF-8 bytes, which is the
   * lexicographic order on code points.
   */
  predicate LexLe(a: string, b: string) {
    |a| == 0 || (|b| > 0 && (a[0] < b[0] || (a[0] == b[0] && LexLe(a[1..], b[1..]))))
  }

  lemma {:induction false} LexLeTotal(a: string, b: string)
    ensures LexLe(a, b) || LexLe(b, a)
  {
    if |a| > 0 && |b| > 0 && a[0] == b[0] {
      LexLeTotal(a[1..], b[1..]);
    }
  }

  lemma {:induction false} LexLeTransitive(a: string, b: string, c: string)
    requires LexLe(a, b) && LexLe(b, c)
    ensures LexLe(a, c)
  {
    if |a| > 0 && a[0] == b[0] && b[0] == c[0] {
      LexLeTransitive(a[1..], b[1..], c[1..]);
    }
  }
}
