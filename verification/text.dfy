/** String helpers shared by every component: the subset of Python's `str` API the
    scraper relies on (`strip`, `lower`, `isdigit`, `in`, `split`, `replace`, `int`,
    `str(int)`), restricted to ASCII character classes. */
module Text {

  /** Python's `None`-or-value, for dictionary keys that may be missing. */
  datatype Option<+T> = None | Some(value: T) {
    function GetOr(default: T): T {
      match this
      case Some(v) => v
      case None => default
    }
  }

  // ---------------------------------------------------------------------------
  // Character classes

  predicate IsDigit(c: char) { '0' <= c <= '9' }

  /** `str.isdigit()`: non-empty and every character a digit. */
  predicate IsDigits(s: string) {
    |s| > 0 && forall i :: 0 <= i < |s| ==> IsDigit(s[i])
  }

  /** The ASCII characters `str.strip()`, `str.isspace()` and `int()` treat as
      whitespace: space, tab through carriage return (tab, newline, vertical
      tab, form feed, return), and the four information separators U+001C to
      U+001F. */
  predicate IsSpace(c: char) {
    c == ' ' || '\t' <= c <= '\r' || '\U{1C}' <= c <= '\U{1F}'
  }

  predicate IsBlank(s: string) {
    forall i :: 0 <= i < |s| ==> IsSpace(s[i])
  }

  function LowerChar(c: char): char {
    if 'A' <= c <= 'Z' then (c as int - 'A' as int + 'a' as int) as char else c
  }

  /** `str.lower()`. */
  function Lower(s: string): (r: string)
    ensures |r| == |s|
    ensures forall i :: 0 <= i < |s| ==> r[i] == LowerChar(s[i])
  {
    if s == [] then [] else [LowerChar(s[0])] + Lower(s[1..])
  }

  // ---------------------------------------------------------------------------
  // strip

  function TrimLeft(s: string): (r: string)
    ensures |r| <= |s| && r == s[|s| - |r|..]
    ensures IsBlank(s[..|s| - |r|])
    ensures r != [] ==> !IsSpace(r[0])
  {
    if s == [] then s
    else if IsSpace(s[0]) then
      var r := TrimLeft(s[1..]);
      BlankCons(s, r);
      r
    else s
  }

  function TrimRight(s: string): (r: string)
    ensures |r| <= |s| && r == s[..|r|]
    ensures IsBlank(s[|r|..])
    ensures r != [] ==> !IsSpace(r[|r| - 1])
  {
    if s == [] then s
    else if IsSpace(s[|s| - 1]) then
      var r := TrimRight(s[..|s| - 1]);
      BlankSnoc(s, r);
      r
    else s
  }

  /** A blank prefix of `s[1..]` after a leading space makes a blank prefix of `s`. */
  lemma BlankCons(s: string, r: string)
    requires |r| < |s| && IsSpace(s[0]) && IsBlank(s[1..][..|s[1..]| - |r|])
    ensures IsBlank(s[..|s| - |r|])
  {
    var n := |s| - |r|;
    forall j | 1 <= j < n ensures IsSpace(s[..n][j]) {
      assert s[1..][..|s[1..]| - |r|][j - 1] == s[j];
    }
  }

  /** A blank suffix of all but the last character, before a trailing space,
      makes a blank suffix of `s`. */
  lemma BlankSnoc(s: string, r: string)
    requires |r| < |s| && IsSpace(s[|s| - 1]) && IsBlank(s[..|s| - 1][|r|..])
    ensures IsBlank(s[|r|..])
  {
    forall j | 0 <= j < |s| - 1 - |r| ensures IsSpace(s[|r|..][j]) {
      assert s[..|s| - 1][|r|..][j] == s[|r| + j];
    }
  }

  /** `str.strip()`: remove leading and trailing whitespace. */
  function Strip(s: string): (r: string)
    ensures |r| <= |s|
  {
    TrimRight(TrimLeft(s))
  }

  /** What `Strip` leaves: the slice `r` of `s` starting at `a`, with only
      whitespace around it, neither starting nor ending in whitespace, and empty
      exactly when `s` is blank. */
  predicate IsStripped(s: string, a: int, r: string) {
    && 0 <= a <= |s| - |r| && r == s[a..a + |r|] && IsBlank(s[..a]) && IsBlank(s[a + |r|..])
    && (r != [] ==> !IsSpace(r[0]) && !IsSpace(r[|r| - 1]))
    && (r == [] <==> IsBlank(s))
  }

  /** `Strip` keeps the slice that starts where `TrimLeft` stops. */
  lemma StripSpec(s: string)
    ensures IsStripped(s, |s| - |TrimLeft(s)|, Strip(s))
  {
    MiddleSlice(s, TrimLeft(s), Strip(s));
  }

  /** `strip()` leaves nothing exactly when the text is all whitespace. */
  lemma StripEmpty(s: string)
    ensures Strip(s) == [] <==> IsBlank(s)
  {
    StripSpec(s);
  }

  /** Text made only of the information separators U+001C to U+001F strips to
      nothing, as it does in Python. */
  lemma SeparatorsStripAway(s: string)
    requires forall i :: 0 <= i < |s| ==> '\U{1C}' <= s[i] <= '\U{1F}'
    ensures Strip(s) == []
  {
    StripEmpty(s);
  }

  /** Trimming the blank prefix and then the blank suffix leaves the middle slice. */
  lemma MiddleSlice(s: string, l: string, r: string)
    requires |l| <= |s| && l == s[|s| - |l|..] && IsBlank(s[..|s| - |l|]) && (l != [] ==> !IsSpace(l[0]))
    requires |r| <= |l| && r == l[..|r|] && IsBlank(l[|r|..]) && (r != [] ==> !IsSpace(r[|r| - 1]))
    ensures IsStripped(s, |s| - |l|, r)
  {
    var a := |s| - |l|;
    assert s[a..a + |r|] == l[..|r|];
    assert s[a + |r|..] == l[|r|..];
    assert r != [] ==> r[0] == l[0];
    BlankAround(s, a, r);
  }

  /** A slice with blank surroundings is empty exactly when the whole is blank,
      provided it does not start with whitespace. */
  lemma BlankAround(s: string, a: int, r: string)
    requires 0 <= a <= |s| - |r| && r == s[a..a + |r|]
    requires IsBlank(s[..a]) && IsBlank(s[a + |r|..])
    requires r != [] ==> !IsSpace(r[0])
    ensures r == [] <==> IsBlank(s)
  {
    if r == [] {
      forall i | 0 <= i < |s| ensures IsSpace(s[i]) {
        if i < a {
          assert s[..a][i] == s[i];
        } else {
          assert s[a..][i - a] == s[i];
        }
      }
    } else {
      assert s[a] == r[0];
    }
  }

  // ---------------------------------------------------------------------------
  // Substrings

  predicate OccursAt(s: string, p: string, i: int) {
    0 <= i && i + |p| <= |s| && s[i..i + |p|] == p
  }

  predicate StartsWith(s: string, p: string) { OccursAt(s, p, 0) }

  predicate EndsWith(s: string, p: string) { OccursAt(s, p, |s| - |p|) }

  /** Python's `p in s`. */
  predicate Contains(s: string, p: string) {
    exists i :: 0 <= i <= |s| - |p| && OccursAt(s, p, i)
  }

  /** Index of the first occurrence of `p` in `s` at or after `from`, if any. */
  function FindFrom(s: string, p: string, from: nat): (r: Option<nat>)
    decreases |s| - from
    ensures r.Some? ==> from <= r.value && OccursAt(s, p, r.value)
    ensures r.Some? ==> forall j :: from <= j < r.value ==> !OccursAt(s, p, j)
    ensures r.None? ==> forall j :: from <= j ==> !OccursAt(s, p, j)
  {
    if from + |p| > |s| then None
    else if s[from..from + |p|] == p then Some(from)
    else FindFrom(s, p, from + 1)
  }

  function Find(s: string, p: string): (r: Option<nat>)
    ensures r.Some? ==> OccursAt(s, p, r.value)
    ensures r.Some? ==> forall j :: 0 <= j < r.value ==> !OccursAt(s, p, j)
    ensures r.None? <==> !Contains(s, p)
  {
    FindFrom(s, p, 0)
  }

  /** `s.split(sep)[-1]`: the piece after the last separator that Python's
      left-to-right, non-overlapping split finds; `s` itself when `sep` does not occur. */
  function LastPiece(s: string, sep: string): (r: string)
    requires |sep| > 0
    decreases |s|
    ensures |r| <= |s|
  {
    match Find(s, sep)
    case None => s
    case Some(i) => LastPiece(s[i + |sep|..], sep)
  }

  /** What `LastPiece` promises: a suffix of `s` holding no separator, which
      differs from `s` exactly when `s` holds one, and is then preceded by one. */
  predicate IsLastPiece(s: string, sep: string, r: string) {
    && |r| <= |s| && r == s[|s| - |r|..]
    && !Contains(r, sep)
    && (Contains(s, sep) <==> r != s)
    && (r != s ==> EndsWith(s[..|s| - |r|], sep))
  }

  lemma {:induction false} LastPieceSpec(s: string, sep: string)
    requires |sep| > 0
    decreases |s|
    ensures IsLastPiece(s, sep, LastPiece(s, sep))
  {
    LastPieceUnfold(s, sep);
    if Find(s, sep).None? {
      LastPieceWhole(s, sep);
    } else {
      var i := Find(s, sep).value;
      var rest := s[i + |sep|..];
      LastPieceSpec(rest, sep);
      LastPieceStep(s, sep, i, rest, LastPiece(rest, sep));
    }
  }

  /** Without a separator the whole string is the last piece. */
  lemma LastPieceWhole(s: string, sep: string)
    requires !Contains(s, sep)
    ensures IsLastPiece(s, sep, s)
  {
    assert s[|s| - |s|..] == s;
  }

  lemma LastPieceUnfold(s: string, sep: string)
    requires |sep| > 0
    ensures Find(s, sep).None? ==> LastPiece(s, sep) == s
    ensures Find(s, sep).Some? ==> LastPiece(s, sep) == LastPiece(s[Find(s, sep).value + |sep|..], sep)
  {
  }

  /** One step of `LastPiece`: the last piece of the text `rest` after an
      occurrence at `i` is the last piece of `s` too. */
  lemma LastPieceStep(s: string, sep: string, i: nat, rest: string, r: string)
    requires |sep| > 0 && OccursAt(s, sep, i) && rest == s[i + |sep|..]
    requires IsLastPiece(rest, sep, r)
    ensures IsLastPiece(s, sep, r)
  {
    LastPieceStepParts(s, sep, i, rest, r);
  }

  lemma LastPieceStepParts(s: string, sep: string, i: nat, rest: string, r: string)
    requires |sep| > 0 && OccursAt(s, sep, i) && rest == s[i + |sep|..]
    requires |r| <= |rest| && r == rest[|rest| - |r|..] && !Contains(r, sep)
    requires r != rest ==> EndsWith(rest[..|rest| - |r|], sep)
    ensures IsLastPiece(s, sep, r)
  {
    SuffixOfSuffix(s, i + |sep|, rest, r);
    ContainsAt(s, sep, i);
    PrecededBySeparator(s, sep, i, rest, r);
    CutPiece(s, sep, r);
  }

  lemma ContainsAt(s: string, p: string, i: int)
    requires OccursAt(s, p, i)
    ensures Contains(s, p)
  {
  }

  /** A separator-preceded, separator-free suffix of `s` is its last piece. */
  lemma CutPiece(s: string, sep: string, r: string)
    requires |sep| > 0 && |r| < |s| && r == s[|s| - |r|..]
    requires !Contains(r, sep) && Contains(s, sep)
    requires EndsWith(s[..|s| - |r|], sep)
    ensures IsLastPiece(s, sep, r)
  {
  }

  lemma PrecededBySeparator(s: string, sep: string, i: nat, rest: string, r: string)
    requires |sep| > 0 && OccursAt(s, sep, i) && rest == s[i + |sep|..]
    requires |r| <= |rest| && r == rest[|rest| - |r|..]
    requires r != rest ==> EndsWith(rest[..|rest| - |r|], sep)
    ensures EndsWith(s[..|s| - |r|], sep)
  {
    var k := i + |sep|;
    PrefixEndsWith(s, sep, i);
    PrefixSplit(s, k, rest, r);
    if r != rest {
      EndsWithAppend(s[..k], rest[..|rest| - |r|], sep);
    }
  }

  lemma PrefixEndsWith(s: string, sep: string, i: nat)
    requires OccursAt(s, sep, i)
    ensures EndsWith(s[..i + |sep|], sep)
  {
    assert s[..i + |sep|][i..i + |sep|] == s[i..i + |sep|];
  }

  lemma PrefixSplit(s: string, k: nat, rest: string, r: string)
    requires k <= |s| && rest == s[k..] && |r| <= |rest|
    ensures s[..|s| - |r|] == s[..k] + rest[..|rest| - |r|]
  {
  }

  lemma SuffixOfSuffix(s: string, k: nat, rest: string, r: string)
    requires k <= |s| && rest == s[k..]
    requires |r| <= |rest| && r == rest[|rest| - |r|..]
    ensures r == s[|s| - |r|..]
  {
  }

  lemma EndsWithAppend(a: string, b: string, p: string)
    requires EndsWith(b, p)
    ensures EndsWith(a + b, p)
  {
    assert (a + b)[|a + b| - |p|..] == b[|b| - |p|..];
  }

  /** When `pre` followed by all but the last character of `sep` holds no `sep`,
      the first occurrence of `sep` in `pre + sep + rest` is the appended one. */
  lemma FindAfterPrefix(pre: string, sep: string, rest: string)
    requires |sep| > 0
    requires !Contains(pre + sep[..|sep| - 1], sep)
    ensures Find(pre + sep + rest, sep) == Some(|pre|)
  {
    var s := pre + sep + rest;
    assert s[|pre|..|pre| + |sep|] == sep;
    assert OccursAt(s, sep, |pre|);
    NoEarlyOccurrence(pre, sep, rest, Find(s, sep).value);
  }

  /** No occurrence of `sep` in `pre + sep + rest` starts inside `pre`. */
  lemma NoEarlyOccurrence(pre: string, sep: string, rest: string, k: int)
    requires |sep| > 0 && 0 <= k
    requires !Contains(pre + sep[..|sep| - 1], sep)
    ensures k < |pre| ==> !OccursAt(pre + sep + rest, sep, k)
  {
    var s := pre + sep + rest;
    var t := pre + sep[..|sep| - 1];
    if k < |pre| && OccursAt(s, sep, k) {
      assert s[k..k + |sep|] == t[k..k + |sep|];
      assert OccursAt(t, sep, k);
    }
  }

  /** Python's split of `pre + sep + tail` ends in `tail` when the appended
      separator is the first occurrence and `tail` holds none. */
  lemma LastPieceAfterFirst(pre: string, sep: string, tail: string)
    requires |sep| > 0
    requires !Contains(pre + sep[..|sep| - 1], sep)
    requires !Contains(tail, sep)
    ensures LastPiece(pre + sep + tail, sep) == tail
  {
    var s := pre + sep + tail;
    FindAfterPrefix(pre, sep, tail);
    assert s[|pre| + |sep|..] == tail;
  }

  /** A string without `c` has no occurrence of any pattern that contains `c`. */
  lemma NoOccurrenceWithout(s: string, p: string, c: char)
    requires c in p && c !in s
    ensures !Contains(s, p)
  {
  }

  /** `s.split(c)[0]`: the prefix before the first `c`. */
  function BeforeFirst(s: string, c: char): (r: string)
    ensures |r| <= |s| && r == s[..|r|]
    ensures c !in r
    ensures r == s || s[|r|] == c
  {
    if s == [] || s[0] == c then [] else [s[0]] + BeforeFirst(s[1..], c)
  }

  /** The prefix before `c` of `a + b` is `a` when `a` has no `c` and `b` is empty
      or starts with `c`. */
  lemma {:induction false} BeforeFirstAppend(a: string, b: string, c: char)
    requires c !in a
    requires b == [] || b[0] == c
    ensures BeforeFirst(a + b, c) == a
  {
    if a == [] {
      assert a + b == b;
    } else {
      assert (a + b)[1..] == a[1..] + b;
      BeforeFirstAppend(a[1..], b, c);
    }
  }

  /** An occurrence in a suffix is an occurrence in the whole string, shifted. */
  lemma ShiftOccurs(s: string, p: string, a: nat, k: nat)
    requires a <= |s|
    ensures OccursAt(s[a..], p, k) <==> OccursAt(s, p, a + k)
  {
    if a + k + |p| <= |s| {
      assert s[a..][k..k + |p|] == s[a + k..a + k + |p|];
    }
  }

  /** `s.split(sep)[1]` when `sep` occurs: the text between the first occurrence
      and the next one (or the end). */
  function SecondPiece(s: string, sep: string): (r: Option<string>)
    requires |sep| > 0
    ensures r.Some? <==> Contains(s, sep)
    ensures r.Some? ==> !Contains(r.value, sep)
  {
    match Find(s, sep)
    case None => None
    case Some(i) =>
      var rest := s[i + |sep|..];
      match Find(rest, sep)
      case None => Some(rest)
      case Some(j) =>
        var piece := rest[..j];
        assert forall k :: 0 <= k <= |piece| - |sep| && OccursAt(piece, sep, k) ==> OccursAt(rest, sep, k) by {
          forall k | 0 <= k <= |piece| - |sep| && OccursAt(piece, sep, k) ensures OccursAt(rest, sep, k) {
            assert rest[k..k + |sep|] == piece[k..k + |sep|];
          }
        }
        Some(piece)
  }

  /** Where the second piece lies: it starts right after the first occurrence
      of `sep`, holds no occurrence start, and ends at the next occurrence or at
      the end of `s`. */
  predicate IsSecondPiece(s: string, sep: string, a: nat, r: string) {
    && a + |r| <= |s| && r == s[a..a + |r|]
    && (forall k :: a <= k < a + |r| ==> !OccursAt(s, sep, k))
    && (a + |r| == |s| || OccursAt(s, sep, a + |r|))
  }

  lemma SecondPieceSpec(s: string, sep: string)
    requires |sep| > 0 && Contains(s, sep)
    ensures IsSecondPiece(s, sep, Find(s, sep).value + |sep|, SecondPiece(s, sep).value)
  {
    var a := Find(s, sep).value + |sep|;
    var rest := s[a..];
    match Find(rest, sep)
    case None =>
      assert rest == s[a..a + |rest|];
      PieceSpec(s, sep, a, |rest|);
    case Some(j) =>
      assert rest[..j] == s[a..a + j];
      PieceSpec(s, sep, a, j);
  }

  /** The `n` characters after `a` form a piece when no occurrence starts among
      them and one starts right after them, or they run to the end. */
  lemma PieceSpec(s: string, sep: string, a: nat, n: nat)
    requires a + n <= |s|
    requires forall k :: 0 <= k < n ==> !OccursAt(s[a..], sep, k)
    requires a + n == |s| || OccursAt(s[a..], sep, n)
    ensures IsSecondPiece(s, sep, a, s[a..a + n])
  {
    if a + n < |s| {
      ShiftOccurs(s, sep, a, n);
    }
    forall k | a <= k < a + n ensures !OccursAt(s, sep, k) {
      ShiftOccurs(s, sep, a, k - a);
    }
  }

  // ---------------------------------------------------------------------------
  // replace

  /** `s.replace(a, b)` for single characters. */
  function ReplaceChar(s: string, a: char, b: char): (r: string)
    ensures |r| == |s|
    ensures forall i :: 0 <= i < |s| ==> r[i] == (if s[i] == a then b else s[i])
  {
    if s == [] then [] else [if s[0] == a then b else s[0]] + ReplaceChar(s[1..], a, b)
  }

  /** `s.replace(p, rep)`: every non-overlapping occurrence, scanning left to right. */
  function ReplaceAll(s: string, p: string, rep: string): string
    requires |p| > 0
    decreases |s|
  {
    if |s| < |p| then s
    else if s[..|p|] == p then rep + ReplaceAll(s[|p|..], p, rep)
    else [s[0]] + ReplaceAll(s[1..], p, rep)
  }

  // ---------------------------------------------------------------------------
  // Integers and their decimal text

  function DigitValue(c: char): nat
    requires IsDigit(c)
  {
    c as int - '0' as int
  }

  function DigitsValue(s: string): nat
    requires forall i :: 0 <= i < |s| ==> IsDigit(s[i])
  {
    if s == [] then 0 else DigitsValue(s[..|s| - 1]) * 10 + DigitValue(s[|s| - 1])
  }

  function NatToString(n: nat): (r: string)
    ensures IsDigits(r)
  {
    if n < 10 then ['0' + n as char]
    else NatToString(n / 10) + ['0' + (n % 10) as char]
  }

  /** `str(n)`. */
  function IntToString(n: int): (r: string)
    ensures |r| > 0
  {
    if n < 0 then "-" + NatToString(-n) else NatToString(n)
  }

  /** `int(s)` for decimal text: optional surrounding whitespace, an optional sign
      and at least one digit; anything else is a `ValueError` (None). */
  function ParseInt(s: string): (r: Option<int>)
    ensures r.Some? ==> exists d :: IsDigits(d) && (Strip(s) == d || Strip(s) == "-" + d || Strip(s) == "+" + d)
    ensures IsDigits(Strip(s)) ==> r == Some(DigitsValue(Strip(s)) as int)
  {
    var t := Strip(s);
    if IsDigits(t) then Some(DigitsValue(t) as int)
    else if |t| > 0 && (t[0] == '-' || t[0] == '+') && IsDigits(t[1..]) then
      assert t == [t[0]] + t[1..];
      Some(if t[0] == '-' then -(DigitsValue(t[1..]) as int) else DigitsValue(t[1..]) as int)
    else None
  }

  /** `int()` of a text that strips to a minus sign and digits. */
  lemma ParseMinus(s: string, d: string)
    requires IsDigits(d) && Strip(s) == "-" + d
    ensures ParseInt(s) == Some(-(DigitsValue(d) as int))
  {
    var t := Strip(s);
    assert !IsDigit(t[0]);
    assert t[1..] == d;
  }
}
