/**
 * The handful of Python `str` operations the filename parser relies on:
 * whitespace as `str.isspace` / the regular-expression class `\s` see it,
 * ASCII lower-casing, leftmost substring search, `split(sep)[0]`,
 * `replace`, `re.sub(r'\s+', ' ', ...)` and `strip()`.
 */
module Strings {
  import opened Wrappers

  /** The characters for which Python's `str.isspace()` holds; `\s` in a `str` pattern and `str.strip()` use the same set. */
  predicate IsSpace(c: char) {
    var n := c as int;
    (9 <= n <= 13) || (28 <= n <= 32) || n == 0x85 || n == 0xA0 || n == 0x1680
    || (0x2000 <= n <= 0x200A) || n == 0x2028 || n == 0x2029 || n == 0x202F
    || n == 0x205F || n == 0x3000
  }

  predicate IsAsciiDigit(c: char) {
    '0' <= c <= '9'
  }

  function LowerChar(c: char): char {
    if 'A' <= c <= 'Z' then (c as int - 'A' as int + 'a' as int) as char else c
  }

  /** `s.lower()`, restricted to ASCII letters. */
  function Lower(s: string): (r: string)
    ensures |r| == |s|
    ensures forall i :: 0 <= i < |s| ==> r[i] == LowerChar(s[i])
  {
    seq(|s|, i requires 0 <= i < |s| => LowerChar(s[i]))
  }

  /** `pat` occurs in `s` starting at index `i`. */
  predicate OccursAt(s: string, pat: string, i: nat) {
    i + |pat| <= |s| && s[i..i + |pat|] == pat
  }

  /** Leftmost occurrence of `pat` in `s` at or after `from`. */
  function IndexOfFrom(s: string, pat: string, from: nat): (r: Option<nat>)
    ensures r.Some? ==> from <= r.value && OccursAt(s, pat, r.value)
    ensures r.Some? ==> forall j :: from <= j < r.value ==> !OccursAt(s, pat, j)
    ensures r.None? ==> forall j :: from <= j ==> !OccursAt(s, pat, j)
    decreases |s| - from
  {
    if from + |pat| > |s| then None
    else if OccursAt(s, pat, from) then Some(from)
    else IndexOfFrom(s, pat, from + 1)
  }

  /** `s.find(pat)`, with "not found" as None. */
  function IndexOf(s: string, pat: string): (r: Option<nat>)
    ensures r.Some? ==> OccursAt(s, pat, r.value)
    ensures r.Some? ==> forall j :: 0 <= j < r.value ==> !OccursAt(s, pat, j)
    ensures r.None? ==> forall j :: 0 <= j ==> !OccursAt(s, pat, j)
  {
    IndexOfFrom(s, pat, 0)
  }

  /** `s.split(sep)[0]`: the text before the first `sep`, or all of `s` when there is none. */
  function Before(s: string, sep: string): (r: string)
    requires |sep| > 0
    ensures r <= s
    ensures r == s || OccursAt(s, sep, |r|)
    ensures forall j :: 0 <= j < |r| ==> !OccursAt(s, sep, j)
  {
    match IndexOf(s, sep)
    case Some(k) => s[..k]
    case None => s
  }

  /** `s.replace(a, b)` for single characters. */
  function ReplaceChar(s: string, a: char, b: char): (r: string)
    ensures |r| == |s|
    ensures forall i :: 0 <= i < |s| ==> r[i] == if s[i] == a then b else s[i]
  {
    seq(|s|, i requires 0 <= i < |s| => if s[i] == a then b else s[i])
  }

  /** `s.replace(pat, rep)`: a left-to-right scan replacing non-overlapping occurrences. */
  function Replace(s: string, pat: string, rep: string): (r: string)
    requires |pat| > 0
    ensures forall c :: c in r ==> c in s || c in rep
    decreases |s|
  {
    if |s| < |pat| then s
    else if s[..|pat|] == pat then rep + Replace(s[|pat|..], pat, rep)
    else [s[0]] + Replace(s[1..], pat, rep)
  }

  /** `s.lstrip()`. */
  function TrimStart(s: string): (r: string)
    ensures |r| <= |s| && r == s[|s| - |r|..]
    ensures forall i :: 0 <= i < |s| - |r| ==> IsSpace(s[i])
    ensures |r| > 0 ==> !IsSpace(r[0])
  {
    if |s| > 0 && IsSpace(s[0]) then
      var r := TrimStart(s[1..]);
      assert forall i :: 1 <= i < |s| - |r| ==> s[i] == s[1..][i - 1];
      r
    else s
  }

  /** `s.rstrip()`. */
  function TrimEnd(s: string): (r: string)
    ensures |r| <= |s| && r == s[..|r|]
    ensures forall i :: |r| <= i < |s| ==> IsSpace(s[i])
    ensures |r| > 0 ==> !IsSpace(r[|r| - 1])
  {
    if |s| > 0 && IsSpace(s[|s| - 1]) then TrimEnd(s[..|s| - 1]) else s
  }

  /** `s.strip()`. */
  function Strip(s: string): string {
    TrimEnd(TrimStart(s))
  }

  /** `re.sub(r'\s+', ' ', s)`: every maximal run of whitespace becomes one plain space. */
  function Collapse(s: string): string
    decreases |s|
  {
    if s == [] then []
    else if IsSpace(s[0]) then [' '] + Collapse(TrimStart(s[1..]))
    else [s[0]] + Collapse(s[1..])
  }

  /** The characters at `i - 1` and `i` are `a` and `b`. */
  predicate PairAt(s: string, i: int, a: char, b: char) {
    0 < i < |s| && s[i - 1] == a && s[i] == b
  }

  /** The characters at `i - 2`, `i - 1` and `i` are `a`, `b` and `c`. */
  predicate TripleAt(s: string, i: int, a: char, b: char, c: char) {
    1 < i < |s| && s[i - 2] == a && s[i - 1] == b && s[i] == c
  }

  /** The characters at `i - 1` and `i` are both whitespace. */
  predicate DoubleSpaceAt(t: string, i: int) {
    0 < i < |t| && IsSpace(t[i - 1]) && IsSpace(t[i])
  }

  /** No two adjacent characters are both whitespace. */
  predicate NoDoubleSpace(t: string) {
    forall i :: 0 < i < |t| ==> !DoubleSpaceAt(t, i)
  }

  /** The only whitespace character in `t` is the plain space. */
  predicate OnlyPlainSpaces(t: string) {
    forall i :: 0 <= i < |t| ==> IsSpace(t[i]) ==> t[i] == ' '
  }

  /**
   * `Collapse` leaves no two adjacent whitespace characters, turns every
   * whitespace character into a plain space, keeps every other character of
   * its input, and starts with whitespace exactly when its input does.
   */
  lemma {:induction false} CollapseShape(s: string)
    ensures NoDoubleSpace(Collapse(s))
    ensures OnlyPlainSpaces(Collapse(s))
    ensures forall c :: c in Collapse(s) ==> c in s || c == ' '
    ensures |Collapse(s)| == 0 <==> |s| == 0
    ensures |s| > 0 ==> (IsSpace(Collapse(s)[0]) <==> IsSpace(s[0]))
    decreases |s|
  {
    if s == [] {
    } else if IsSpace(s[0]) {
      var t := TrimStart(s[1..]);
      CollapseShape(t);
      assert Collapse(s) == [' '] + Collapse(t);
      ConsKeepsNoDoubleSpace(' ', Collapse(t));
      forall c | c in Collapse(t) ensures c in s || c == ' ' {
        if c in t {
          var k :| 0 <= k < |t| && t[k] == c;
          assert s[1..][|s| - 1 - |t| + k] == c;
        }
      }
    } else {
      CollapseShape(s[1..]);
      assert Collapse(s) == [s[0]] + Collapse(s[1..]);
      ConsKeepsNoDoubleSpace(s[0], Collapse(s[1..]));
      forall c | c in Collapse(s[1..]) ensures c in s || c == ' ' {
        if c in s[1..] {
          var k :| 0 <= k < |s[1..]| && s[1..][k] == c;
          assert s[k + 1] == c;
        }
      }
    }
  }

  /** Putting `c` in front keeps adjacent whitespace out, unless both `c` and the old first character are whitespace. */
  lemma ConsKeepsNoDoubleSpace(c: char, t: string)
    requires NoDoubleSpace(t)
    requires |t| > 0 && IsSpace(c) ==> !IsSpace(t[0])
    ensures NoDoubleSpace([c] + t)
  {
    var u := [c] + t;
    forall i | 0 < i < |u| ensures !DoubleSpaceAt(u, i) {
      if i > 1 {
        assert !DoubleSpaceAt(t, i - 1);
        assert u[i - 1] == t[i - 2] && u[i] == t[i - 1];
      }
    }
  }

  /** Stripping keeps a contiguous part of its input and leaves no whitespace at either end. */
  lemma StripShape(s: string)
    ensures exists a, b :: 0 <= a <= b <= |s| && Strip(s) == s[a..b]
    ensures |Strip(s)| > 0 ==> !IsSpace(Strip(s)[0]) && !IsSpace(Strip(s)[|Strip(s)| - 1])
  {
    var t := TrimStart(s);
    var r := TrimEnd(t);
    var a := |s| - |t|;
    assert Strip(s) == s[a..a + |r|] by {
      assert t == s[a..];
      assert r == t[..|r|];
    }
    assert |r| > 0 ==> !IsSpace(r[0]) by {
      if |r| > 0 {
        assert r[0] == t[0];
      }
    }
  }

  /** Adjacent-whitespace freedom, plain-space-only and the absence of a character all survive taking a slice. */
  lemma SliceKeepsShape(t: string, a: nat, b: nat, c: char)
    requires a <= b <= |t|
    ensures NoDoubleSpace(t) ==> NoDoubleSpace(t[a..b])
    ensures OnlyPlainSpaces(t) ==> OnlyPlainSpaces(t[a..b])
    ensures c !in t ==> c !in t[a..b]
  {
    if NoDoubleSpace(t) {
      forall i | 0 < i < b - a ensures !DoubleSpaceAt(t[a..b], i) {
        assert !DoubleSpaceAt(t, a + i);
        assert t[a..b][i - 1] == t[a + i - 1] && t[a..b][i] == t[a + i];
      }
    }
    if OnlyPlainSpaces(t) {
      forall i | 0 <= i < b - a ensures IsSpace(t[a..b][i]) ==> t[a..b][i] == ' ' {
        assert t[a..b][i] == t[a + i];
      }
    }
  }

  /** A pattern whose first two characters never stand side by side in `s` does not occur in `s`. */
  lemma NoOccurrenceByPair(s: string, pat: string)
    requires |pat| >= 2
    requires forall i :: 0 < i < |s| ==> !PairAt(s, i, pat[0], pat[1])
    ensures forall j :: 0 <= j ==> !OccursAt(s, pat, j)
  {
    forall j | 0 <= j ensures !OccursAt(s, pat, j) {
      if j + |pat| <= |s| {
        assert !PairAt(s, j + 1, pat[0], pat[1]);
        assert s[j..j + |pat|][0] == s[j];
        assert s[j..j + |pat|][1] == s[j + 1];
      }
    }
  }

  /** A pattern does not occur where its first two characters are not side by side. */
  lemma NotAtByPair(s: string, pat: string, j: nat)
    requires |pat| >= 2 && j + 1 < |s|
    requires !PairAt(s, j + 1, pat[0], pat[1])
    ensures !OccursAt(s, pat, j)
  {
    if j + |pat| <= |s| {
      assert s[j..j + |pat|][0] == s[j];
      assert s[j..j + |pat|][1] == s[j + 1];
    }
  }

  /** A pattern whose first three characters never stand side by side in `s` does not occur in `s`. */
  lemma NoOccurrenceByTriple(s: string, pat: string)
    requires |pat| >= 3
    requires forall i :: 1 < i < |s| ==> !TripleAt(s, i, pat[0], pat[1], pat[2])
    ensures forall j :: 0 <= j ==> !OccursAt(s, pat, j)
  {
    forall j | 0 <= j ensures !OccursAt(s, pat, j) {
      if j + |pat| <= |s| {
        assert !TripleAt(s, j + 2, pat[0], pat[1], pat[2]);
        assert s[j..j + |pat|][0] == s[j];
        assert s[j..j + |pat|][1] == s[j + 1];
        assert s[j..j + |pat|][2] == s[j + 2];
      }
    }
  }

  /** `Before` stops at the leftmost occurrence of the separator. */
  lemma BeforeLeftmost(s: string, sep: string, k: nat)
    requires |sep| > 0 && OccursAt(s, sep, k)
    requires forall j :: 0 <= j < k ==> !OccursAt(s, sep, j)
    ensures Before(s, sep) == s[..k]
  {
  }

  /** `Before` keeps the whole text when the separator's first character is not in it. */
  lemma BeforeAbsent(s: string, sep: string)
    requires |sep| > 0 && sep[0] !in s
    ensures Before(s, sep) == s
  {
    forall k | 0 <= k ensures !OccursAt(s, sep, k) {
      if k + |sep| <= |s| {
        assert s[k..k + |sep|][0] == s[k];
      }
    }
  }

  /** Replacing a pattern that does not occur changes nothing. */
  lemma {:induction false} ReplaceAbsent(s: string, pat: string, rep: string)
    requires |pat| > 0
    requires forall j :: 0 <= j ==> !OccursAt(s, pat, j)
    ensures Replace(s, pat, rep) == s
    decreases |s|
  {
    if |s| >= |pat| {
      assert !OccursAt(s, pat, 0);
      forall j | 0 <= j ensures !OccursAt(s[1..], pat, j) {
        assert !OccursAt(s, pat, j + 1);
        if j + |pat| <= |s[1..]| {
          assert s[1..][j..j + |pat|] == s[j + 1..j + 1 + |pat|];
        }
      }
      ReplaceAbsent(s[1..], pat, rep);
      assert s == [s[0]] + s[1..];
    }
  }

  /**
   * Replacement scans from the left: when the first occurrence of `pat` in
   * `x + pat + y` is the one right after `x`, the result is `x`, then `rep`,
   * then the replacement applied to the rest.
   */
  lemma {:induction false} ReplaceAfterPrefix(x: string, pat: string, y: string, rep: string)
    requires |pat| > 0
    requires forall j :: 0 <= j < |x| ==> !OccursAt(x + pat, pat, j)
    ensures Replace(x + pat + y, pat, rep) == x + rep + Replace(y, pat, rep)
    decreases |x|
  {
    var s := x + pat + y;
    if x == [] {
      assert s[..|pat|] == pat && s[|pat|..] == y;
    } else {
      ReplaceSkipsFirst(x, pat, y, rep);
      ShiftNoOccurrence(x, pat);
      ReplaceAfterPrefix(x[1..], pat, y, rep);
      ConsConcat(x, rep, Replace(y, pat, rep));
    }
  }

  /** Splitting off the first character of `x` in `x + a + b`. */
  lemma ConsConcat(x: string, a: string, b: string)
    requires |x| > 0
    ensures x + a + b == [x[0]] + (x[1..] + a + b)
  {
    assert x == [x[0]] + x[1..];
  }

  /** Replacement keeps the first character of `x + pat + y` when no occurrence starts there. */
  lemma ReplaceSkipsFirst(x: string, pat: string, y: string, rep: string)
    requires |pat| > 0 && |x| > 0 && !OccursAt(x + pat, pat, 0)
    ensures Replace(x + pat + y, pat, rep) == [x[0]] + Replace(x[1..] + pat + y, pat, rep)
  {
    var s := x + pat + y;
    assert s[..|pat|] == (x + pat)[..|pat|];
    assert s[1..] == x[1..] + pat + y;
  }

  /** Dropping the first character of `x` keeps `pat` from occurring inside the rest of `x + pat`. */
  lemma ShiftNoOccurrence(x: string, pat: string)
    requires |x| > 0
    requires forall j :: 0 <= j < |x| ==> !OccursAt(x + pat, pat, j)
    ensures forall j :: 0 <= j < |x| - 1 ==> !OccursAt(x[1..] + pat, pat, j)
  {
    forall j | 0 <= j < |x| - 1 ensures !OccursAt(x[1..] + pat, pat, j) {
      assert !OccursAt(x + pat, pat, j + 1);
      assert (x[1..] + pat)[j..j + |pat|] == (x + pat)[j + 1..j + 1 + |pat|];
    }
  }

  /** A text holding exactly one occurrence of `pat` has just that occurrence replaced. */
  lemma ReplaceOnce(s: string, x: string, pat: string, y: string, rep: string)
    requires |pat| > 0 && s == x + pat + y
    requires forall j :: 0 <= j < |x| ==> !OccursAt(x + pat, pat, j)
    requires forall j :: 0 <= j ==> !OccursAt(y, pat, j)
    ensures Replace(s, pat, rep) == x + rep + y
  {
    ReplaceAfterPrefix(x, pat, y, rep);
    ReplaceAbsent(y, pat, rep);
  }

  // ---------------------------------------------------------------------------
  // An index-wise reference for `Collapse`
  // ---------------------------------------------------------------------------

  /**
   * What the character at `i` contributes to the collapsed text: itself when
   * it is not whitespace, one plain space when it opens a run of whitespace,
   * and nothing when it continues one.
   */
  function Piece(s: string, i: nat): string
    requires i < |s|
  {
    if !IsSpace(s[i]) then [s[i]]
    else if i > 0 && IsSpace(s[i - 1]) then []
    else [' ']
  }

  /** The pieces of the characters from `i` on, in order. */
  function SqueezeFrom(s: string, i: nat): string
    decreases |s| - i
  {
    if i >= |s| then [] else Piece(s, i) + SqueezeFrom(s, i + 1)
  }

  /** The characters of `s` that are not whitespace, in order (the concatenation of `s.split()`). */
  function NonSpaces(s: string): (r: string)
    ensures forall i :: 0 <= i < |r| ==> !IsSpace(r[i])
    ensures |r| <= |s|
  {
    if s == [] then []
    else if IsSpace(s[0]) then NonSpaces(s[1..])
    else [s[0]] + NonSpaces(s[1..])
  }

  /** Continuation characters of a whitespace run contribute nothing. */
  lemma {:induction false} SkipRun(s: string, j: nat, m: nat)
    requires 0 < j <= m <= |s|
    requires forall i :: j - 1 <= i < m ==> IsSpace(s[i])
    ensures SqueezeFrom(s, j) == SqueezeFrom(s, m)
    decreases m - j
  {
    if j < m {
      assert Piece(s, j) == [];
      SkipRun(s, j + 1, m);
    }
  }

  /** `Collapse` of a suffix starting where no whitespace run is cut in two is the reference on that suffix. */
  lemma {:induction false} CollapseSuffix(s: string, k: nat)
    requires k <= |s|
    requires k == 0 || k == |s| || !IsSpace(s[k - 1]) || !IsSpace(s[k])
    ensures Collapse(s[k..]) == SqueezeFrom(s, k)
    decreases |s| - k, 1
  {
    if k < |s| {
      if !IsSpace(s[k]) {
        CollapseSuffix(s, k + 1);
        CollapseKeepsCharacter(s, k);
      } else {
        CollapseSuffixAtRun(s, k);
      }
    }
  }

  /** `CollapseSuffix` for a suffix that starts with a whitespace run. */
  lemma {:induction false} CollapseSuffixAtRun(s: string, k: nat)
    requires k < |s| && IsSpace(s[k])
    requires k == 0 || !IsSpace(s[k - 1])
    ensures Collapse(s[k..]) == SqueezeFrom(s, k)
    decreases |s| - k, 0
  {
    var m := RunAfter(s, k);
    CollapseSuffix(s, m);
    CollapseOpensRun(s, k, m);
  }

  /** A non-whitespace character at `k` extends the agreement of `Collapse` and the reference from `k + 1` to `k`. */
  lemma CollapseKeepsCharacter(s: string, k: nat)
    requires k < |s| && !IsSpace(s[k])
    requires Collapse(s[k + 1..]) == SqueezeFrom(s, k + 1)
    ensures Collapse(s[k..]) == SqueezeFrom(s, k)
  {
    var u := s[k..];
    assert u[0] == s[k] && u[1..] == s[k + 1..];
  }

  /** A whitespace run from `k` to `m` extends the agreement of `Collapse` and the reference from `m` to `k`. */
  lemma CollapseOpensRun(s: string, k: nat, m: nat)
    requires k < m <= |s| && IsSpace(s[k]) && TrimStart(s[k + 1..]) == s[m..]
    requires forall i :: k < i < m ==> IsSpace(s[i])
    requires k == 0 || !IsSpace(s[k - 1])
    requires Collapse(s[m..]) == SqueezeFrom(s, m)
    ensures Collapse(s[k..]) == SqueezeFrom(s, k)
  {
    CollapseAtRun(s, k, m);
    SqueezeAtRun(s, k, m);
  }

  /** `Collapse` turns a whitespace run from `k` to `m` into one space. */
  lemma CollapseAtRun(s: string, k: nat, m: nat)
    requires k < m <= |s| && IsSpace(s[k]) && TrimStart(s[k + 1..]) == s[m..]
    ensures Collapse(s[k..]) == [' '] + Collapse(s[m..])
  {
    var u := s[k..];
    assert u[0] == s[k] && u[1..] == s[k + 1..];
  }

  /** The reference turns a whitespace run from `k` to `m` that nothing precedes into one space. */
  lemma SqueezeAtRun(s: string, k: nat, m: nat)
    requires k < m <= |s| && IsSpace(s[k])
    requires forall i :: k < i < m ==> IsSpace(s[i])
    requires k == 0 || !IsSpace(s[k - 1])
    ensures SqueezeFrom(s, k) == [' '] + SqueezeFrom(s, m)
  {
    assert Piece(s, k) == [' '] by {
      assert !(k > 0 && IsSpace(s[k - 1]));
    }
    assert SqueezeFrom(s, k) == Piece(s, k) + SqueezeFrom(s, k + 1);
    SkipRun(s, k + 1, m);
  }

  /** The whitespace after `k` runs up to `m`, where `lstrip` of the text after `k` begins. */
  lemma RunAfter(s: string, k: nat) returns (m: nat)
    requires k < |s|
    ensures k < m <= |s| && TrimStart(s[k + 1..]) == s[m..]
    ensures forall i :: k < i < m ==> IsSpace(s[i])
    ensures m == |s| || !IsSpace(s[m])
  {
    m := |s| - |TrimStart(s[k + 1..])|;
    TrimSuffixIs(s, k + 1, m);
    TrimSuffixSkipsSpaces(s, k + 1, m);
    TrimSuffixStops(s, k + 1, m);
  }

  /** `lstrip` of the text from `j` on is the text from `m` on. */
  lemma TrimSuffixIs(s: string, j: nat, m: nat)
    requires j <= |s| && m == |s| - |TrimStart(s[j..])|
    ensures j <= m <= |s| && TrimStart(s[j..]) == s[m..]
  {
  }

  /** Every character `lstrip` drops from the text from `j` on is whitespace. */
  lemma TrimSuffixSkipsSpaces(s: string, j: nat, m: nat)
    requires j <= |s| && m == |s| - |TrimStart(s[j..])|
    ensures forall i :: j <= i < m ==> IsSpace(s[i])
  {
    var x := s[j..];
    forall i | j <= i < m ensures IsSpace(s[i]) {
      assert x[i - j] == s[i];
    }
  }

  /** `lstrip` of the text from `j` on stops at the end or at a character that is not whitespace. */
  lemma TrimSuffixStops(s: string, j: nat, m: nat)
    requires j <= |s| && m == |s| - |TrimStart(s[j..])|
    ensures m == |s| || !IsSpace(s[m])
  {
    var t := TrimStart(s[j..]);
    TrimSuffixIs(s, j, m);
    if |t| > 0 {
      assert t[0] == s[m];
    }
  }

  /**
   * `Collapse` agrees with the index-wise reference: every character that is
   * not whitespace is kept in place and order, the first character of every
   * maximal whitespace run becomes one plain space, and the rest of the run
   * disappears.
   */
  lemma CollapseIsSqueeze(s: string)
    ensures Collapse(s) == SqueezeFrom(s, 0)
  {
    CollapseSuffix(s, 0);
    assert s[0..] == s;
  }

  /** Whitespace that starts a text can be dropped without changing its non-whitespace characters. */
  lemma {:induction false} NonSpacesTrimStart(s: string)
    ensures NonSpaces(TrimStart(s)) == NonSpaces(s)
    decreases |s|
  {
    if |s| > 0 && IsSpace(s[0]) {
      NonSpacesTrimStart(s[1..]);
    }
  }

  /** Deleting the whitespace from `Collapse(s)` and from `s` gives the same text. */
  lemma {:induction false} CollapseKeepsNonSpaces(s: string)
    ensures NonSpaces(Collapse(s)) == NonSpaces(s)
    decreases |s|
  {
    if s != [] {
      var c := Collapse(s);
      if IsSpace(s[0]) {
        var t := TrimStart(s[1..]);
        CollapseKeepsNonSpaces(t);
        NonSpacesTrimStart(s[1..]);
        assert c[0] == ' ' && c[1..] == Collapse(t);
      } else {
        CollapseKeepsNonSpaces(s[1..]);
        assert c[0] == s[0] && c[1..] == Collapse(s[1..]);
      }
    }
  }

  /** `t` is non-empty and its last character is whitespace. */
  predicate EndsWithSpace(t: string) {
    |t| > 0 && IsSpace(t[|t| - 1])
  }

  /** A non-empty text collapses to a non-empty text, which ends with whitespace exactly when the input does. */
  lemma {:induction false} CollapseEnd(s: string)
    requires |s| > 0
    ensures |Collapse(s)| > 0
    ensures EndsWithSpace(Collapse(s)) <==> EndsWithSpace(s)
    decreases |s|
  {
    if IsSpace(s[0]) {
      var m := RunAfter(s, 0);
      assert Collapse(s) == [' '] + Collapse(s[m..]);
      if m == |s| {
        assert EndsWithSpace(s);
        assert Collapse(s) == [' '];
      } else {
        CollapseEnd(s[m..]);
        ConsKeepsEnd(' ', Collapse(s[m..]));
        SuffixKeepsEnd(s, m);
      }
    } else if |s| == 1 {
      assert Collapse(s) == [s[0]];
    } else {
      CollapseEnd(s[1..]);
      assert Collapse(s) == [s[0]] + Collapse(s[1..]);
      ConsKeepsEnd(s[0], Collapse(s[1..]));
      SuffixKeepsEnd(s, 1);
    }
  }

  /** Putting a character in front of a non-empty text does not change how it ends. */
  lemma ConsKeepsEnd(c: char, u: string)
    requires |u| > 0
    ensures EndsWithSpace([c] + u) <==> EndsWithSpace(u)
  {
    assert ([c] + u)[|u|] == u[|u| - 1];
  }

  /** A non-empty suffix ends as the whole text does. */
  lemma SuffixKeepsEnd(s: string, m: nat)
    requires m < |s|
    ensures EndsWithSpace(s[m..]) <==> EndsWithSpace(s)
  {
    assert s[m..][|s| - m - 1] == s[|s| - 1];
  }

  /** Text whose whitespace is already single plain spaces is left alone by `Collapse`. */
  lemma {:induction false} CollapseTidy(s: string)
    requires OnlyPlainSpaces(s) && NoDoubleSpace(s)
    ensures Collapse(s) == s
    decreases |s|
  {
    if s != [] {
      SliceKeepsShape(s, 1, |s|, ' ');
      assert s[1..|s|] == s[1..];
      CollapseTidy(s[1..]);
      if IsSpace(s[0]) {
        assert |s| > 1 ==> !DoubleSpaceAt(s, 1);
        assert TrimStart(s[1..]) == s[1..];
      }
      assert s == [s[0]] + s[1..];
    }
  }

  /** Text with no whitespace at either end is left alone by `Strip`. */
  lemma StripTidy(s: string)
    requires |s| > 0 ==> !IsSpace(s[0]) && !IsSpace(s[|s| - 1])
    ensures Strip(s) == s
  {
  }
}
