/**
 * The pieces of the JavaScript string library that the site's logic leans on:
 * the `\s` character class and `String.prototype.trim`, `\w`, `split`,
 * `startsWith`, decimal number text (`${n}`) and `parseInt`.
 */
module Text {
  import opened Wrappers

  /** ECMAScript LineTerminator: what `.` refuses and what `^`/`$` see under the `m` flag. */
  predicate IsLineTerminator(c: char) {
    c == '\n' || c == '\r' || c == '\U{2028}' || c == '\U{2029}'
  }

  /** ECMAScript WhiteSpace or LineTerminator: the regex class `\s`, and what `trim` removes. */
  predicate IsSpace(c: char) {
    || c == ' ' || c == '\t' || c == '\U{B}' || c == '\U{C}' || c == '\U{A0}' || c == '\U{FEFF}'
    || c == '\U{1680}' || ('\U{2000}' <= c <= '\U{200A}') || c == '\U{202F}' || c == '\U{205F}'
    || c == '\U{3000}' || IsLineTerminator(c)
  }

  predicate IsDigit(c: char) { '0' <= c <= '9' }

  /** The regex class `\w`. */
  predicate IsWordChar(c: char) {
    ('a' <= c <= 'z') || ('A' <= c <= 'Z') || IsDigit(c) || c == '_'
  }

  predicate NoSpace(s: string) {
    forall k :: 0 <= k < |s| ==> !IsSpace(s[k])
  }

  predicate AllSpace(s: string) {
    forall k :: 0 <= k < |s| ==> IsSpace(s[k])
  }

  predicate AllDigits(s: string) {
    forall k :: 0 <= k < |s| ==> IsDigit(s[k])
  }

  function Min(a: int, b: int): int { if a <= b then a else b }

  /** `s.startsWith(prefix)`. */
  predicate StartsWith(s: string, prefix: string) {
    |prefix| <= |s| && s[..|prefix|] == prefix
  }

  /** Index of the first `c` in `s`, or `|s|` when there is none. */
  function IndexOf(s: string, c: char): (i: nat)
    ensures i <= |s|
    ensures forall k :: 0 <= k < i ==> s[k] != c
    ensures i < |s| ==> s[i] == c
  {
    if s == [] then 0
    else if s[0] == c then 0
    else 1 + IndexOf(s[1..], c)
  }

  // ---------------------------------------------------------------- trim

  /** `s.trimStart()`: the suffix left after dropping the leading whitespace run. */
  function TrimStart(s: string): (r: string)
    ensures |r| <= |s|
    ensures s != [] && IsSpace(s[0]) ==> |r| < |s|
  {
    if s != [] && IsSpace(s[0]) then TrimStart(s[1..]) else s
  }

  /** What `trimStart` leaves is a suffix, everything it dropped is whitespace, and it starts with a non-space. */
  lemma {:induction false} TrimStartShape(s: string)
    ensures var r := TrimStart(s);
      && r == s[|s| - |r|..]
      && (forall k :: 0 <= k < |s| - |r| ==> IsSpace(s[k]))
      && (r != [] ==> !IsSpace(r[0]))
  {
    if s != [] && IsSpace(s[0]) {
      TrimStartShape(s[1..]);
    }
  }

  /** `s.trimEnd()`: the prefix left after dropping the trailing whitespace run. */
  function TrimEnd(s: string): (r: string)
    ensures |r| <= |s|
  {
    if s != [] && IsSpace(s[|s| - 1]) then TrimEnd(s[..|s| - 1]) else s
  }

  /** What `trimEnd` leaves is a prefix, everything it dropped is whitespace, and it ends with a non-space. */
  lemma {:induction false} TrimEndShape(s: string)
    ensures var r := TrimEnd(s);
      && r == s[..|r|]
      && (forall k :: |r| <= k < |s| ==> IsSpace(s[k]))
      && (r != [] ==> !IsSpace(r[|r| - 1]))
  {
    if s != [] && IsSpace(s[|s| - 1]) {
      TrimEndShape(s[..|s| - 1]);
    }
  }

  /** `s.trim()`. */
  function Trim(s: string): (r: string)
    ensures |r| <= |s|
  {
    TrimEnd(TrimStart(s))
  }

  /** A trimmed string neither starts nor ends with whitespace. */
  lemma TrimEnds(s: string)
    ensures var r := Trim(s); r != [] ==> !IsSpace(r[0]) && !IsSpace(r[|r| - 1])
  {
    var t := TrimStart(s);
    TrimStartShape(s);
    TrimEndShape(t);
    var r := TrimEnd(t);
    if r != [] {
      assert r[0] == t[0];
    }
  }

  /** Trimming leaves nothing exactly when the string is all whitespace. */
  lemma TrimEmptyIffBlank(s: string)
    ensures Trim(s) == [] <==> AllSpace(s)
  {
    var t := TrimStart(s);
    TrimStartShape(s);
    TrimEndShape(t);
    if Trim(s) == [] {
      // a non-empty `t` would start with a non-space that `TrimEnd` cannot remove
      assert TrimEnd(t) == [];
      assert |t| == 0;
    } else {
      var r := Trim(s);
      assert r == t[..|r|];
      if |t| == |s| {
        assert t == s;
        assert !IsSpace(s[0]);
      } else {
        assert t[0] == s[|s| - |t|];
        assert !IsSpace(s[|s| - |t|]);
      }
    }
  }

  /** Trim keeps the string whole when both ends are already non-whitespace, and is idempotent. */
  lemma TrimOfTrimmed(s: string)
    requires s != [] ==> !IsSpace(s[0]) && !IsSpace(s[|s| - 1])
    ensures Trim(s) == s
  {
    assert TrimStart(s) == s;
    assert TrimEnd(s) == s;
  }

  lemma TrimIdempotent(s: string)
    ensures Trim(Trim(s)) == Trim(s)
  {
    TrimEnds(s);
    TrimOfTrimmed(Trim(s));
  }

  /** Trim returns a contiguous piece of its input, so any property of every character carries over. */
  lemma TrimKeepsChars(s: string, P: char -> bool)
    requires forall k :: 0 <= k < |s| ==> P(s[k])
    ensures forall k :: 0 <= k < |Trim(s)| ==> P(Trim(s)[k])
  {
    var t := TrimStart(s);
    var a := |s| - |t|;
    TrimStartShape(s);
    TrimEndShape(t);
    forall k | 0 <= k < |Trim(s)| ensures P(Trim(s)[k]) {
      assert Trim(s)[k] == t[k] == s[a + k];
    }
  }

  // ---------------------------------------------------------------- split

  /** `s.split(sep)` for a one-character separator: the pieces between separators, empty ones included. */
  function SplitOn(s: string, sep: char): (parts: seq<string>)
    ensures |parts| >= 1
    ensures forall i :: 0 <= i < |parts| ==> sep !in parts[i]
  {
    if s == [] then [""]
    else
      var rest := SplitOn(s[1..], sep);
      if s[0] == sep then [""] + rest
      else [[s[0]] + rest[0]] + rest[1..]
  }

  /** `parts.join(sep)`. */
  function Join(parts: seq<string>, sep: char): string
    requires |parts| >= 1
  {
    if |parts| == 1 then parts[0] else parts[0] + [sep] + Join(parts[1..], sep)
  }

  function Last<T>(xs: seq<T>): T
    requires |xs| >= 1
  {
    xs[|xs| - 1]
  }

  lemma {:induction false} JoinConsHead(c: char, parts: seq<string>, sep: char)
    requires |parts| >= 1
    ensures Join([[c] + parts[0]] + parts[1..], sep) == [c] + Join(parts, sep)
  {
    var ps := [[c] + parts[0]] + parts[1..];
    if |parts| > 1 {
      assert ps[1..] == parts[1..];
    }
  }

  /** Joining the pieces of a split gives back the original string. */
  lemma {:induction false} JoinSplit(s: string, sep: char)
    ensures Join(SplitOn(s, sep), sep) == s
  {
    if s != [] {
      var rest := SplitOn(s[1..], sep);
      JoinSplit(s[1..], sep);
      if s[0] == sep {
        assert ([""] + rest)[1..] == rest;
        assert s == [sep] + s[1..];
      } else {
        JoinConsHead(s[0], rest, sep);
        assert s == [s[0]] + s[1..];
      }
    }
  }

  /** A string without the separator splits into itself alone. */
  lemma {:induction false} SplitWithoutSep(s: string, sep: char)
    requires sep !in s
    ensures SplitOn(s, sep) == [s]
  {
    if s != [] {
      assert sep !in s[1..] by {
        forall k | 0 <= k < |s[1..]| ensures s[1..][k] != sep { assert s[1..][k] == s[k + 1]; }
      }
      SplitWithoutSep(s[1..], sep);
      assert s == [s[0]] + s[1..];
    }
  }

  /** Splitting distributes over a separator placed between two strings. */
  lemma {:induction false} SplitAround(a: string, b: string, sep: char)
    ensures SplitOn(a + [sep] + b, sep) == SplitOn(a, sep) + SplitOn(b, sep)
  {
    var s := a + [sep] + b;
    if a == [] {
      assert s[1..] == b;
    } else {
      assert s[1..] == a[1..] + [sep] + b;
      SplitAround(a[1..], b, sep);
    }
  }

  // ---------------------------------------------------------- split(/\s+/)

  /** `s.split(/\s+/)`: the pieces between maximal whitespace runs, an empty piece at a leading or trailing run. */
  function SplitOnSpaceRuns(s: string): (tokens: seq<string>)
    ensures |tokens| >= 1
    ensures forall i :: 0 <= i < |tokens| ==> NoSpace(tokens[i])
    decreases |s|
  {
    if s == [] then [""]
    else if IsSpace(s[0]) then
      [""] + SplitOnSpaceRuns(TrimStart(s))
    else
      var rest := SplitOnSpaceRuns(s[1..]);
      [[s[0]] + rest[0]] + rest[1..]
  }

  function Concat(ss: seq<string>): string {
    if ss == [] then [] else ss[0] + Concat(ss[1..])
  }

  /** The characters of `s` that are not whitespace, in order. */
  function NonSpaceChars(s: string): string {
    if s == [] then [] else (if IsSpace(s[0]) then [] else [s[0]]) + NonSpaceChars(s[1..])
  }

  lemma {:induction false} NonSpaceCharsOfSpaces(s: string)
    requires AllSpace(s)
    ensures NonSpaceChars(s) == []
  {
    if s != [] {
      NonSpaceCharsOfSpaces(s[1..]);
    }
  }

  lemma {:induction false} NonSpaceCharsAppend(a: string, b: string)
    ensures NonSpaceChars(a + b) == NonSpaceChars(a) + NonSpaceChars(b)
  {
    if a == [] {
      assert a + b == b;
    } else {
      assert (a + b)[0] == a[0];
      assert (a + b)[1..] == a[1..] + b;
      NonSpaceCharsAppend(a[1..], b);
    }
  }

  /** The tokens of a whitespace split, put back together, are exactly the non-whitespace characters. */
  lemma {:induction false} SplitOnSpaceRunsKeepsText(s: string)
    ensures Concat(SplitOnSpaceRuns(s)) == NonSpaceChars(s)
    decreases |s|
  {
    if s == [] {
    } else if IsSpace(s[0]) {
      var t := TrimStart(s);
      TrimStartShape(s);
      SplitOnSpaceRunsKeepsText(t);
      var d := |s| - |t|;
      assert s == s[..d] + t;
      NonSpaceCharsAppend(s[..d], t);
      NonSpaceCharsOfSpaces(s[..d]);
      assert ([""] + SplitOnSpaceRuns(t))[1..] == SplitOnSpaceRuns(t);
    } else {
      var rest := SplitOnSpaceRuns(s[1..]);
      SplitOnSpaceRunsKeepsText(s[1..]);
      var ts := [[s[0]] + rest[0]] + rest[1..];
      assert ts[1..] == rest[1..];
      assert Concat(rest) == rest[0] + Concat(rest[1..]);
    }
  }

  /** On trimmed text no token is empty, except the single token of the empty string. */
  lemma {:induction false} SplitTrimmedTokensNonEmpty(s: string)
    requires s != [] ==> !IsSpace(s[0]) && !IsSpace(s[|s| - 1])
    ensures s != [] ==> forall i :: 0 <= i < |SplitOnSpaceRuns(s)| ==> SplitOnSpaceRuns(s)[i] != []
  {
    if s != [] {
      InnerTokensNonEmpty(s);
    }
  }

  lemma {:induction false} InnerTokensNonEmpty(s: string)
    requires s != [] ==> !IsSpace(s[|s| - 1])
    ensures forall i :: 1 <= i < |SplitOnSpaceRuns(s)| ==> SplitOnSpaceRuns(s)[i] != []
    decreases |s|
  {
    if s == [] {
    } else if IsSpace(s[0]) {
      var t := TrimStart(s);
      TrimStartShape(s);
      assert t != [];
      assert t[|t| - 1] == s[|s| - 1];
      InnerTokensNonEmpty(t);
      var ts := [""] + SplitOnSpaceRuns(t);
      forall i | 1 <= i < |ts| ensures ts[i] != [] {
        if i > 1 { assert ts[i] == SplitOnSpaceRuns(t)[i - 1]; }
        else { assert SplitOnSpaceRuns(t)[0] != [] by { assert !IsSpace(t[0]); } }
      }
    } else {
      if |s| > 1 {
        assert s[1..][|s[1..]| - 1] == s[|s| - 1];
      }
      InnerTokensNonEmpty(s[1..]);
    }
  }

  /**
   * The number of maximal whitespace runs in `s`, counted by where they end: a
   * whitespace character that is last or followed by a non-whitespace one.
   */
  function SpaceRunCount(s: string): nat
    decreases |s|
  {
    if s == [] then 0
    else (if IsSpace(s[0]) && (|s| == 1 || !IsSpace(s[1])) then 1 else 0) + SpaceRunCount(s[1..])
  }

  /** Text that opens with whitespace has one run more than what follows that opening run. */
  lemma {:induction false} LeadingRunCounted(s: string)
    requires s != [] && IsSpace(s[0])
    ensures SpaceRunCount(s) == 1 + SpaceRunCount(TrimStart(s))
    decreases |s|
  {
    if |s| > 1 && IsSpace(s[1]) {
      LeadingRunCounted(s[1..]);
    }
  }

  /** The split yields one piece more than there are maximal whitespace runs: each run separates two pieces. */
  lemma {:induction false} SplitCountsSpaceRuns(s: string)
    ensures |SplitOnSpaceRuns(s)| == 1 + SpaceRunCount(s)
    decreases |s|
  {
    if s == [] {
    } else if IsSpace(s[0]) {
      LeadingRunCounted(s);
      SplitCountsSpaceRuns(TrimStart(s));
    } else {
      SplitCountsSpaceRuns(s[1..]);
    }
  }

  // ------------------------------------------------------------- numbers

  function DigitChar(d: nat): (c: char)
    requires d < 10
    ensures IsDigit(c) && c as int - '0' as int == d
  {
    "0123456789"[d]
  }

  /** `${n}` for a non-negative integer below 2^53: decimal digits, no leading zero. */
  function NatToString(n: nat): (r: string)
    ensures r != [] && AllDigits(r)
    ensures r[0] == '0' ==> n == 0 && r == "0"
  {
    if n < 10 then [DigitChar(n)] else NatToString(n / 10) + [DigitChar(n % 10)]
  }

  /** `${i}` for an integer of magnitude below 2^53. */
  function IntToString(i: int): string {
    if i < 0 then "-" + NatToString(-i) else NatToString(i)
  }

  /** The value of a decimal digit string, most significant digit first. */
  function DigitsValue(ds: string): nat
    requires AllDigits(ds)
  {
    if ds == [] then 0 else DigitsValue(ds[..|ds| - 1]) * 10 + (ds[|ds| - 1] as int - '0' as int)
  }

  /** Reading back the decimal text of `n` gives `n`. */
  lemma {:induction false} NatToStringRoundTrip(n: nat)
    ensures DigitsValue(NatToString(n)) == n
  {
    if n >= 10 {
      var p := NatToString(n / 10);
      var r := p + [DigitChar(n % 10)];
      assert r[..|r| - 1] == p;
      NatToStringRoundTrip(n / 10);
    } else {
      assert NatToString(n)[..0] == [];
    }
  }

  /** Number of decimal digits at the front of `s`. */
  function DigitRun(s: string): (n: nat)
    ensures n <= |s| && AllDigits(s[..n])
    ensures n < |s| ==> !IsDigit(s[n])
  {
    if s != [] && IsDigit(s[0]) then
      var n := 1 + DigitRun(s[1..]);
      assert forall k :: 1 <= k < n ==> s[..n][k] == s[1..][..n - 1][k - 1];
      n
    else 0
  }

  /**
   * `parseInt(s)` in base 10: skip leading whitespace, take an optional sign, then
   * the longest run of digits; `None` stands for `NaN` (no digit at all).
   */
  function ParseInt(s: string): Option<int> {
    var t := TrimStart(s);
    var signed := t != [] && (t[0] == '-' || t[0] == '+');
    var u := if signed then t[1..] else t;
    var n := DigitRun(u);
    if n == 0 then None
    else if signed && t[0] == '-' then Some(0 - DigitsValue(u[..n]))
    else Some(DigitsValue(u[..n]))
  }

  /** A plain digit string, leading zeros included, parses to its decimal value. */
  lemma ParseIntOfDigits(ds: string)
    requires ds != [] && AllDigits(ds)
    ensures ParseInt(ds) == Some(DigitsValue(ds))
  {
    assert TrimStart(ds) == ds by { assert !IsSpace(ds[0]); }
    assert DigitRun(ds) == |ds|;
    assert ds[..|ds|] == ds;
  }
}
