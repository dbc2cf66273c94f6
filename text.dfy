/**
 * Character classes and string helpers shared by the JSX rewriter model.
 * The regular-expression classes `\w` and `\s` are taken on ASCII
 * characters, and `Replace` is the literal substring replacement of Python's
 * `str.replace`.
 */
module Text {

  datatype Option<T> = None | Some(value: T)

  /** `\w`: ASCII letters, digits and the underscore. */
  predicate IsWordChar(c: char) {
    ('a' <= c <= 'z') || ('A' <= c <= 'Z') || ('0' <= c <= '9') || c == '_'
  }

  predicate IsDigit(c: char) {
    '0' <= c <= '9'
  }

  /**
   * `\s` and `str.strip()` on ASCII text: space, tab, newline, carriage
   * return, vertical tab, form feed and the separators U+001C to U+001F.
   */
  predicate IsSpace(c: char) {
    c == ' ' || c == '\t' || c == '\n' || c == '\r' || c == '\U{B}' || c == '\U{C}' || '\U{1C}' <= c <= '\U{1F}'
  }

  predicate AllSpace(s: string) {
    forall i :: 0 <= i < |s| ==> IsSpace(s[i])
  }

  predicate AllWord(s: string) {
    forall i :: 0 <= i < |s| ==> IsWordChar(s[i])
  }

  /** The number of word characters that start `s`. */
  function WordRun(s: string): (r: nat)
    ensures r <= |s|
    ensures r == |s| || !IsWordChar(s[r])
  {
    if s != [] && IsWordChar(s[0]) then 1 + WordRun(s[1..]) else 0
  }

  /** The word run is made of word characters. */
  lemma {:induction false} WordRunWord(s: string)
    ensures AllWord(s[..WordRun(s)])
    decreases |s|
  {
    if s != [] && IsWordChar(s[0]) {
      var r := WordRun(s);
      WordRunWord(s[1..]);
      assert s[..r] == [s[0]] + s[1..][..r - 1];
    }
  }

  lemma {:induction false} WordRunOf(w: string, rest: string)
    requires AllWord(w)
    requires rest == [] || !IsWordChar(rest[0])
    ensures WordRun(w + rest) == |w|
    decreases |w|
  {
    if w == [] {
      assert w + rest == rest;
    } else {
      assert (w + rest)[1..] == w[1..] + rest;
      WordRunOf(w[1..], rest);
    }
  }

  /** The word run of `s` ends at `n` when the first `n` characters are word characters and the next one is not. */
  lemma WordRunAt(s: string, n: nat)
    requires n <= |s| && AllWord(s[..n]) && (n == |s| || !IsWordChar(s[n]))
    ensures WordRun(s) == n
  {
    assert s == s[..n] + s[n..];
    WordRunOf(s[..n], s[n..]);
  }

  /** Drops the leading whitespace of `s`. */
  function TrimStart(s: string): (r: string)
    ensures |r| <= |s| && r == s[|s| - |r|..]
    ensures r == [] || !IsSpace(r[0])
  {
    if s != [] && IsSpace(s[0]) then TrimStart(s[1..]) else s
  }

  /** What `TrimStart` drops is whitespace. */
  lemma {:induction false} TrimStartSpace(s: string)
    ensures AllSpace(s[..|s| - |TrimStart(s)|])
    decreases |s|
  {
    if s != [] && IsSpace(s[0]) {
      TrimStartSpace(s[1..]);
      var k := |s| - |TrimStart(s)|;
      assert s[..k] == [s[0]] + s[1..][..k - 1];
    }
  }

  /** Drops the trailing whitespace of `s`. */
  function TrimEnd(s: string): (r: string)
    ensures |r| <= |s| && r == s[..|r|]
    ensures r == [] || !IsSpace(r[|r| - 1])
  {
    if s != [] && IsSpace(s[|s| - 1]) then TrimEnd(s[..|s| - 1]) else s
  }

  /** What `TrimEnd` drops is whitespace. */
  lemma {:induction false} TrimEndSpace(s: string)
    ensures AllSpace(s[|TrimEnd(s)|..])
    decreases |s|
  {
    if s != [] && IsSpace(s[|s| - 1]) {
      var t := s[..|s| - 1];
      TrimEndSpace(t);
      var k := |TrimEnd(s)|;
      assert s[k..] == t[k..] + [s[|s| - 1]];
    }
  }

  /** When everything after position `q` is whitespace and `s[q]` is not, trimming keeps exactly `s[..q + 1]`. */
  lemma {:induction false} TrimEndAt(s: string, q: nat)
    requires q < |s| && !IsSpace(s[q]) && AllSpace(s[q + 1..])
    ensures TrimEnd(s) == s[..q + 1]
    decreases |s|
  {
    if |s| > q + 1 {
      assert IsSpace(s[|s| - 1]) by { assert s[|s| - 1] == s[q + 1..][|s| - 1 - (q + 1)]; }
      var t := s[..|s| - 1];
      var u := t[q + 1..];
      assert AllSpace(u) by {
        forall k | 0 <= k < |u| ensures IsSpace(u[k]) {
          assert u[k] == s[q + 1..][k];
        }
      }
      TrimEndAt(t, q);
      assert t[..q + 1] == s[..q + 1];
    } else {
      assert s[..q + 1] == s;
    }
  }

  /** Python's `str.strip()`: `s` with the whitespace at both ends removed. */
  function Strip(s: string): (r: string)
    ensures |r| <= |s|
    ensures r == [] || (!IsSpace(r[0]) && !IsSpace(r[|r| - 1]))
  {
    TrimEnd(TrimStart(s))
  }

  /** Stripping leaves nothing exactly when the text is all whitespace. */
  lemma StripEmpty(s: string)
    ensures Strip(s) == [] <==> AllSpace(s)
  {
    var t := TrimStart(s);
    var i := |s| - |t|;
    TrimStartSpace(s);
    TrimEndSpace(t);
    assert t[0..] == t;
    assert s == s[..i] + t;
    AllSpaceConcat(s[..i], t);
  }

  lemma AllSpaceConcat(a: string, b: string)
    ensures AllSpace(a + b) <==> AllSpace(a) && AllSpace(b)
  {
    if AllSpace(a + b) {
      forall j | 0 <= j < |a| ensures IsSpace(a[j]) { assert a[j] == (a + b)[j]; }
      forall j | 0 <= j < |b| ensures IsSpace(b[j]) { assert b[j] == (a + b)[|a| + j]; }
    }
    if AllSpace(a) && AllSpace(b) {
      forall j | 0 <= j < |a + b| ensures IsSpace((a + b)[j]) {
        if j < |a| { assert (a + b)[j] == a[j]; } else { assert (a + b)[j] == b[j - |a|]; }
      }
    }
  }

  /** Stripping text that starts and ends with non-whitespace changes nothing. */
  lemma StripUnchanged(s: string)
    requires s != [] && !IsSpace(s[0]) && !IsSpace(s[|s| - 1])
    ensures Strip(s) == s
  {
  }

  /** `w` occurs in `s` at position `i`. */
  predicate OccursAt(s: string, w: string, i: int) {
    0 <= i && i + |w| <= |s| && s[i..i + |w|] == w
  }

  ghost predicate Occurs(s: string, w: string) {
    exists i :: OccursAt(s, w, i)
  }

  /** Text that does not contain `w` has no suffix that contains it. */
  lemma AbsentFromSuffix(s: string, w: string, k: nat)
    requires k <= |s| && !Occurs(s, w)
    ensures !Occurs(s[k..], w)
  {
    forall i ensures !OccursAt(s[k..], w, i) {
      OccursInSuffix(s, w, k, i);
    }
  }

  /** Text that does not contain `w` has no prefix that contains it. */
  lemma AbsentFromPrefix(s: string, w: string, k: nat)
    requires k <= |s| && !Occurs(s, w)
    ensures !Occurs(s[..k], w)
  {
    forall i ensures !OccursAt(s[..k], w, i) {
      OccursInPrefix(s, w, k, i);
    }
  }

  /** An occurrence in a prefix is an occurrence in the whole text. */
  lemma OccursInPrefix(s: string, w: string, k: nat, i: int)
    requires k <= |s|
    ensures OccursAt(s[..k], w, i) ==> OccursAt(s, w, i)
  {
    if OccursAt(s[..k], w, i) {
      assert s[..k][i..i + |w|] == s[i..i + |w|];
    }
  }

  /** An occurrence in a suffix is an occurrence in the whole text. */
  lemma OccursInSuffix(s: string, w: string, k: nat, i: int)
    requires k <= |s|
    ensures OccursAt(s[k..], w, i) ==> OccursAt(s, w, k + i)
  {
    if OccursAt(s[k..], w, i) {
      assert s[k..][i..i + |w|] == s[k + i..k + i + |w|];
    }
  }

  /** A slice that starts where the first part of a concatenation ends reads the second part. */
  lemma SliceAfter(a: string, b: string, k: nat)
    requires k <= |b|
    ensures (a + b)[|a|..|a| + k] == b[..k]
  {
  }

  /** A slice of a slice is a slice of the whole. */
  lemma SliceOfSlice(s: string, i: nat, j: nat, a: nat, b: nat)
    requires i <= j <= |s| && a <= b <= j - i
    ensures s[i..j][a..b] == s[i + a..i + b]
  {
    forall k | 0 <= k < b - a ensures s[i..j][a..b][k] == s[i + a..i + b][k] {
    }
  }

  /** A slice inside the first part of a concatenation. */
  lemma SliceLeft(a: string, b: string, i: nat, k: nat)
    requires i <= k <= |a|
    ensures (a + b)[i..k] == a[i..k]
  {
  }

  /** A slice inside the second part of a concatenation. */
  lemma SliceRight(a: string, b: string, i: nat, k: nat)
    requires |a| <= i <= k <= |a| + |b|
    ensures (a + b)[i..k] == b[i - |a|..k - |a|]
  {
  }

  /** The first index at or after `i` that holds `c`. */
  function IndexOf(s: string, c: char, i: nat): (r: Option<nat>)
    requires i <= |s|
    ensures r.Some? ==> i <= r.value < |s| && s[r.value] == c
    decreases |s| - i
  {
    if i == |s| then None
    else if s[i] == c then Some(i)
    else IndexOf(s, c, i + 1)
  }

  /** `IndexOf` finds the first `c`: none comes before it, and none at all when it finds nothing. */
  lemma {:induction false} IndexOfSound(s: string, c: char, i: nat)
    requires i <= |s|
    ensures IndexOf(s, c, i).Some? ==> c !in s[i..IndexOf(s, c, i).value]
    ensures IndexOf(s, c, i).None? ==> c !in s[i..]
    decreases |s| - i
  {
    if i < |s| && s[i] != c {
      IndexOfSound(s, c, i + 1);
      var r := IndexOf(s, c, i + 1);
      assert s[i..] == [s[i]] + s[i + 1..];
      if r.Some? {
        assert s[i..r.value] == [s[i]] + s[i + 1..r.value];
      }
    }
  }

  /** A `c` with no `c` before it from `i` on is the one `IndexOf` finds. */
  lemma {:induction false} IndexOfFirst(s: string, c: char, i: nat, j: nat)
    requires i <= j < |s| && s[j] == c && c !in s[i..j]
    ensures IndexOf(s, c, i) == Some(j)
    decreases j - i
  {
    if i < j {
      assert s[i] == s[i..j][0];
      assert s[i + 1..j] == s[i..j][1..];
      IndexOfFirst(s, c, i + 1, j);
    }
  }

  /** `", ".join(parts)` for an arbitrary separator. */
  function Join(parts: seq<string>, sep: string): string {
    if |parts| == 0 then []
    else if |parts| == 1 then parts[0]
    else parts[0] + sep + Join(parts[1..], sep)
  }

  /**
   * Python's `s.replace(pat, r)`: every non-overlapping occurrence of `pat`,
   * found left to right, is replaced by `r`; an empty `pat` matches before
   * every character and at the end.
   */
  function Replace(s: string, pat: string, r: string): string
    decreases |s|, |pat|
  {
    if pat == [] then (if s == [] then r else r + [s[0]] + Replace(s[1..], pat, r))
    else if |s| < |pat| then s
    else if s[..|pat|] == pat then r + Replace(s[|pat|..], pat, r)
    else [s[0]] + Replace(s[1..], pat, r)
  }

  /** A prefix that holds no occurrence of `pat` is copied unchanged. */
  lemma {:induction false} ReplaceSkip(h: string, rest: string, pat: string, r: string)
    requires pat != []
    requires forall q :: 0 <= q < |h| ==> !OccursAt(h + rest, pat, q)
    ensures Replace(h + rest, pat, r) == h + Replace(rest, pat, r)
    decreases |h|
  {
    if h == [] {
      assert h + rest == rest;
    } else if |h + rest| < |pat| {
      ReplaceShort(h, rest, pat, r);
    } else {
      assert !OccursAt(h + rest, pat, 0);
      forall q | 0 <= q < |h| - 1 ensures !OccursAt(h[1..] + rest, pat, q) {
        OccursAfterFirst(h, rest, pat, q);
      }
      ReplaceSkip(h[1..], rest, pat, r);
      ReplaceSkipStep(h, rest, pat, r);
    }
  }

  /** Text shorter than the pattern is copied. */
  lemma ReplaceShort(h: string, rest: string, pat: string, r: string)
    requires pat != [] && |h + rest| < |pat|
    ensures Replace(h + rest, pat, r) == h + Replace(rest, pat, r)
  {
    assert Replace(rest, pat, r) == rest;
  }

  /** One copied character in front of a copied prefix. */
  lemma ReplaceSkipStep(h: string, rest: string, pat: string, r: string)
    requires pat != [] && h != [] && |h + rest| >= |pat| && !OccursAt(h + rest, pat, 0)
    requires Replace(h[1..] + rest, pat, r) == h[1..] + Replace(rest, pat, r)
    ensures Replace(h + rest, pat, r) == h + Replace(rest, pat, r)
  {
    var s := h + rest;
    var tail := Replace(rest, pat, r);
    assert Replace(s, pat, r) == [h[0]] + Replace(h[1..] + rest, pat, r) by {
      assert s[1..] == h[1..] + rest && s[0] == h[0];
      assert s[0..|pat|] == s[..|pat|];
      ReplaceCopyFirst(s, pat, r);
    }
    assert [h[0]] + (h[1..] + tail) == h + tail by {
      assert h == [h[0]] + h[1..];
    }
  }

  /** Without an occurrence at the front, the first character is copied. */
  lemma ReplaceCopyFirst(s: string, pat: string, r: string)
    requires pat != [] && |s| >= |pat| && s[..|pat|] != pat
    ensures Replace(s, pat, r) == [s[0]] + Replace(s[1..], pat, r)
  {
  }

  lemma OccursAfterFirst(h: string, rest: string, pat: string, q: int)
    requires h != []
    ensures OccursAt(h[1..] + rest, pat, q) ==> OccursAt(h + rest, pat, q + 1)
  {
    if OccursAt(h[1..] + rest, pat, q) {
      assert (h + rest)[q + 1..q + 1 + |pat|] == (h[1..] + rest)[q..q + |pat|];
    }
  }

  /** An occurrence of `pat` at the front is replaced and the scan resumes after it. */
  lemma ReplaceHit(pat: string, rest: string, r: string)
    requires pat != []
    ensures Replace(pat + rest, pat, r) == r + Replace(rest, pat, r)
  {
    assert (pat + rest)[..|pat|] == pat;
    assert (pat + rest)[|pat|..] == rest;
  }

  /** Text without an occurrence of `pat` is left as it is. */
  lemma ReplaceAbsent(s: string, pat: string, r: string)
    requires pat != []
    requires forall q :: 0 <= q < |s| ==> !OccursAt(s, pat, q)
    ensures Replace(s, pat, r) == s
  {
    assert s + [] == s;
    ReplaceSkip(s, [], pat, r);
  }

  /** Text without the first character of `w` holds no occurrence of `w`. */
  lemma AbsentWithoutFirst(s: string, w: string)
    requires w != [] && w[0] !in s
    ensures forall i :: !OccursAt(s, w, i)
  {
    forall i
      ensures !OccursAt(s, w, i)
    {
      if 0 <= i && i + |w| <= |s| {
        assert s[i..i + |w|][0] == s[i];
      }
    }
  }

  /** `str.replace` copies a prefix without the first character of the pattern. */
  lemma ReplaceSkipPlain(h: string, rest: string, pat: string, r: string)
    requires pat != [] && pat[0] !in h
    ensures Replace(h + rest, pat, r) == h + Replace(rest, pat, r)
  {
    forall q | 0 <= q < |h|
      ensures !OccursAt(h + rest, pat, q)
    {
      assert (h + rest)[q] == h[q];
      if q + |pat| <= |h + rest| {
        assert (h + rest)[q..q + |pat|][0] == (h + rest)[q];
      }
    }
    ReplaceSkip(h, rest, pat, r);
  }

  /** The decimal digit for `d`. */
  function DigitChar(d: nat): (c: char)
    requires d < 10
    ensures IsDigit(c)
  {
    ('0' as int + d) as char
  }

  /** Python's `str(n)` for a natural number: its decimal digits, without leading zeros. */
  function NatToString(n: nat): (r: string)
    ensures r != []
    ensures forall i :: 0 <= i < |r| ==> IsDigit(r[i])
  {
    if n < 10 then [DigitChar(n)] else NatToString(n / 10) + [DigitChar(n % 10)]
  }

  /** The number a string of decimal digits denotes. */
  function DigitsValue(s: string): nat
    requires forall i :: 0 <= i < |s| ==> IsDigit(s[i])
  {
    if s == [] then 0
    else
      var c := s[|s| - 1];
      assert IsDigit(c);
      10 * DigitsValue(s[..|s| - 1]) + (c as int - '0' as int)
  }

  /** Reading back the digits of `n` gives `n`. */
  lemma {:induction false} NatToStringValue(n: nat)
    ensures DigitsValue(NatToString(n)) == n
  {
    var r := NatToString(n);
    if n >= 10 {
      assert r[..|r| - 1] == NatToString(n / 10);
      NatToStringValue(n / 10);
    }
  }

  /** Different numbers are written differently. */
  lemma NatToStringInjective(a: nat, b: nat)
    ensures NatToString(a) == NatToString(b) ==> a == b
  {
    NatToStringValue(a);
    NatToStringValue(b);
  }
}
