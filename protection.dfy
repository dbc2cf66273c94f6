/**
 * Expression protection and restoration (convert_jsx.py, lines 9-16 and
 * 45-46). Every span `{...}` without inner braces is replaced, left to
 * right, by `__PROTECTED_<n>__` and recorded in a table. Afterwards each
 * placeholder is replaced back with `str.replace`, in table order.
 */
module Protection {
  import opened Text

  /** The token that stands for the n-th protected expression. */
  function Placeholder(n: nat): (p: string)
    ensures |p| >= 15 && p[..12] == "__PROTECTED_" && p[|p| - 2..] == "__"
  {
    "__PROTECTED_" + NatToString(n) + "__"
  }

  predicate NoBraces(t: string) {
    forall i :: 0 <= i < |t| ==> t[i] != '{' && t[i] != '}'
  }

  /** `t` matches the pattern `\{[^{}]*\}` as a whole. */
  predicate IsBraceSpan(t: string) {
    |t| >= 2 && t[0] == '{' && t[|t| - 1] == '}' && NoBraces(t[1..|t| - 1])
  }

  /** Scans the characters `[^{}]*` from `i`; the end of the span when a `}` closes them. */
  function CloseBrace(s: string, i: nat): (r: Option<nat>)
    requires i <= |s|
    ensures r.Some? ==> i < r.value <= |s|
    decreases |s| - i
  {
    if i == |s| then None
    else if s[i] == '}' then Some(i + 1)
    else if s[i] == '{' then None
    else CloseBrace(s, i + 1)
  }

  /** What `CloseBrace` finds is a `}` after a run of non-brace characters. */
  lemma {:induction false} CloseBraceSound(s: string, i: nat)
    requires i <= |s|
    ensures CloseBrace(s, i).Some? ==>
              var e := CloseBrace(s, i).value; s[e - 1] == '}' && NoBraces(s[i..e - 1])
    decreases |s| - i
  {
    if i < |s| && s[i] != '}' && s[i] != '{' {
      CloseBraceSound(s, i + 1);
      var r := CloseBrace(s, i + 1);
      if r.Some? {
        assert s[i..r.value - 1] == [s[i]] + s[i + 1..r.value - 1];
      }
    }
  }

  /** A `}` after a run of non-brace characters is what `CloseBrace` finds. */
  lemma {:induction false} CloseBraceComplete(s: string, i: nat, j: nat)
    requires i <= j < |s| && s[j] == '}' && NoBraces(s[i..j])
    ensures CloseBrace(s, i) == Some(j + 1)
    decreases j - i
  {
    if i < j {
      assert s[i] == s[i..j][0];
      assert s[i + 1..j] == s[i..j][1..];
      CloseBraceComplete(s, i + 1, j);
    }
  }

  /** The length of the span `\{[^{}]*\}` that starts `s`, if there is one. */
  function BraceSpanAt(s: string): (r: Option<nat>)
    ensures r.Some? ==> 2 <= r.value <= |s|
  {
    if s != [] && s[0] == '{' then CloseBrace(s, 1) else None
  }

  /** `BraceSpanAt` finds exactly the prefixes that match `\{[^{}]*\}`. */
  lemma BraceSpanAtCorrect(s: string, len: nat)
    requires len <= |s|
    ensures IsBraceSpan(s[..len]) <==> BraceSpanAt(s) == Some(len)
  {
    if s != [] && s[0] == '{' {
      CloseBraceSound(s, 1);
      if len >= 2 {
        assert s[..len][1..len - 1] == s[1..len - 1];
        if IsBraceSpan(s[..len]) {
          CloseBraceComplete(s, 1, len - 1);
        }
      }
    } else if len > 0 {
      assert s[..len][0] == s[0];
    }
  }

  /**
   * The buffer after protection, for the spans of `s` numbered from `n` on,
   * in which the spans numbered `k` or later are still masked and the earlier
   * ones have been put back. `Mask(s, 0, 0)` is what protection produces.
   */
  function Mask(s: string, n: nat, k: nat): string
    decreases |s|
  {
    if s == [] then []
    else match BraceSpanAt(s)
      case Some(len) => (if n >= k then Placeholder(n) else s[..len]) + Mask(s[len..], n + 1, k)
      case None => [s[0]] + Mask(s[1..], n, k)
  }

  /** The protected expressions of `s`, in the order the scan meets them. */
  function Spans(s: string): seq<string>
    decreases |s|
  {
    if s == [] then []
    else match BraceSpanAt(s)
      case Some(len) => [s[..len]] + Spans(s[len..])
      case None => Spans(s[1..])
  }

  /** Every table entry is a whole `\{[^{}]*\}` span. */
  lemma {:induction false} SpansAreBraceSpans(s: string)
    ensures forall i :: 0 <= i < |Spans(s)| ==> IsBraceSpan(Spans(s)[i])
    decreases |s|
  {
    if s != [] {
      match BraceSpanAt(s)
      case Some(len) =>
        BraceSpanAtCorrect(s, len);
        SpansAreBraceSpans(s[len..]);
        assert Spans(s)[1..] == Spans(s[len..]);
      case None =>
        SpansAreBraceSpans(s[1..]);
    }
  }

  /** The text between the protected expressions: one more piece than there are spans. */
  function Gaps(s: string): (gaps: seq<string>)
    ensures |gaps| == |Spans(s)| + 1
    decreases |s|
  {
    if s == [] then [[]]
    else match BraceSpanAt(s)
      case Some(len) => [[]] + Gaps(s[len..])
      case None =>
        var g := Gaps(s[1..]);
        [[s[0]] + g[0]] + g[1..]
  }

  /** `gaps[0] + fills[0] + gaps[1] + ... + fills[m - 1] + gaps[m]`. */
  function Splice(gaps: seq<string>, fills: seq<string>): string
    requires |gaps| == |fills| + 1
  {
    if fills == [] then gaps[0] else gaps[0] + fills[0] + Splice(gaps[1..], fills[1..])
  }

  /** The placeholders numbered `n` to `n + count - 1`. */
  function Placeholders(n: nat, count: nat): (r: seq<string>)
    ensures |r| == count
    ensures forall i :: 0 <= i < count ==> r[i] == Placeholder(n + i)
    decreases count
  {
    if count == 0 then [] else [Placeholder(n)] + Placeholders(n + 1, count - 1)
  }

  lemma SpliceExtendFirst(c: char, g: seq<string>, fills: seq<string>)
    requires |g| == |fills| + 1
    ensures Splice([[c] + g[0]] + g[1..], fills) == [c] + Splice(g, fills)
  {
    var g' := [[c] + g[0]] + g[1..];
    assert g'[1..] == g[1..];
  }

  /**
   * The table layout: the buffer is its gaps with the table's entries in
   * between, and the protected buffer is the same gaps with the placeholders
   * `n`, `n + 1`, ... in their place, so entry `i` is exactly what placeholder
   * `n + i` stands for.
   */
  lemma TableLayout(s: string, n: nat)
    ensures s == Splice(Gaps(s), Spans(s))
    ensures Mask(s, n, 0) == Splice(Gaps(s), Placeholders(n, |Spans(s)|))
  {
    SourceLayout(s);
    MaskLayout(s, n);
  }

  lemma {:induction false} SourceLayout(s: string)
    ensures s == Splice(Gaps(s), Spans(s))
    decreases |s|
  {
    if s != [] {
      var found := BraceSpanAt(s);
      if found.Some? {
        SourceLayout(s[found.value..]);
        SourceLayoutSpan(s, found.value);
      } else {
        SourceLayout(s[1..]);
        SourceLayoutChar(s);
      }
    }
  }

  /** The layout step at a brace span, given the layout of the rest. */
  lemma SourceLayoutSpan(s: string, len: nat)
    requires BraceSpanAt(s) == Some(len) && s[len..] == Splice(Gaps(s[len..]), Spans(s[len..]))
    ensures s == Splice(Gaps(s), Spans(s))
  {
    var rest := s[len..];
    GapsSpansAtSpan(s);
    assert s == s[..len] + rest;
    SpliceSpanFirst(s, s[..len], rest, Gaps(s), Spans(s), Gaps(rest), Spans(rest));
  }

  /** A span in front of a laid-out text: the text is laid out with an empty first gap. */
  lemma SpliceSpanFirst(s: string, x: string, rest: string, g: seq<string>, fills: seq<string>,
                        g': seq<string>, fills': seq<string>)
    requires |g'| == |fills'| + 1 && g == [[]] + g' && fills == [x] + fills'
    requires s == x + rest && rest == Splice(g', fills')
    ensures s == Splice(g, fills)
  {
    assert g[1..] == g' && fills[1..] == fills';
  }

  /** The layout step at a copied character, given the layout of the rest. */
  lemma SourceLayoutChar(s: string)
    requires s != [] && BraceSpanAt(s).None? && s[1..] == Splice(Gaps(s[1..]), Spans(s[1..]))
    ensures s == Splice(Gaps(s), Spans(s))
  {
    var rest := s[1..];
    GapsSpansAtChar(s);
    SpliceExtendFirst(s[0], Gaps(rest), Spans(rest));
    assert s == [s[0]] + rest;
  }

  lemma {:induction false} MaskLayout(s: string, n: nat)
    ensures Mask(s, n, 0) == Splice(Gaps(s), Placeholders(n, |Spans(s)|))
    decreases |s|
  {
    if s != [] {
      var found := BraceSpanAt(s);
      if found.Some? {
        var rest := s[found.value..];
        MaskLayout(rest, n + 1);
        MaskLayoutSpan(s, n);
      } else {
        var rest := s[1..];
        MaskLayout(rest, n);
        MaskLayoutChar(s, n);
      }
    }
  }

  /** The layout step at a brace span, given the layout of the rest. */
  lemma MaskLayoutSpan(s: string, n: nat)
    requires BraceSpanAt(s).Some?
    requires var rest := s[BraceSpanAt(s).value..];
      Mask(rest, n + 1, 0) == Splice(Gaps(rest), Placeholders(n + 1, |Spans(rest)|))
    ensures Mask(s, n, 0) == Splice(Gaps(s), Placeholders(n, |Spans(s)|))
  {
    var len := BraceSpanAt(s).value;
    var rest := s[len..];
    var m := |Spans(rest)|;
    var tail := Splice(Gaps(rest), Placeholders(n + 1, m));
    GapsSpansAtSpan(s);
    MaskSpan(s, n, 0);
    assert Mask(s, n, 0) == Placeholder(n) + tail;
    var gaps, fills := Gaps(s), Placeholders(n, m + 1);
    assert gaps[1..] == Gaps(rest) && fills[1..] == Placeholders(n + 1, m);
    assert Splice(gaps, fills) == gaps[0] + fills[0] + tail;
    assert gaps[0] + fills[0] == Placeholder(n);
  }

  /** The layout step at a copied character, given the layout of the rest. */
  lemma MaskLayoutChar(s: string, n: nat)
    requires s != [] && BraceSpanAt(s).None?
    requires Mask(s[1..], n, 0) == Splice(Gaps(s[1..]), Placeholders(n, |Spans(s[1..])|))
    ensures Mask(s, n, 0) == Splice(Gaps(s), Placeholders(n, |Spans(s)|))
  {
    var rest := s[1..];
    GapsSpansAtChar(s);
    MaskChar(s, n, 0);
    SpliceExtendFirst(s[0], Gaps(rest), Placeholders(n, |Spans(rest)|));
  }

  lemma SpliceFirst(gaps: seq<string>, fills: seq<string>)
    requires |gaps| == |fills| + 1 && fills != []
    ensures Splice(gaps, fills) == gaps[0] + fills[0] + Splice(gaps[1..], fills[1..])
  {
  }

  lemma MaskChar(s: string, n: nat, k: nat)
    requires s != [] && BraceSpanAt(s).None?
    ensures Mask(s, n, k) == [s[0]] + Mask(s[1..], n, k)
  {
  }
  /** Unfolding at a span: an empty gap, then the span. */
  lemma GapsSpansAtSpan(s: string)
    requires BraceSpanAt(s).Some?
    ensures var len := BraceSpanAt(s).value;
      Gaps(s) == [[]] + Gaps(s[len..]) && Spans(s) == [s[..len]] + Spans(s[len..])
  {
  }

  /** Unfolding at a copied character: it joins the first gap. */
  lemma GapsSpansAtChar(s: string)
    requires s != [] && BraceSpanAt(s).None?
    ensures Gaps(s) == [[s[0]] + Gaps(s[1..])[0]] + Gaps(s[1..])[1..]
    ensures Spans(s) == Spans(s[1..])
  {
  }

  /**
   * Protection (convert_jsx.py, lines 9-16): the scan of `re.sub` appends each
   * matched span to the table and writes the placeholder numbered by the
   * table's length at that moment.
   */
  method Protect(content: string) returns (masked: string, table: seq<string>)
    ensures masked == Mask(content, 0, 0)
    ensures table == Spans(content)
  {
    masked, table := [], [];
    var rest := content;
    while rest != []
      invariant ProtectedUpTo(content, rest, masked, table)
      decreases |rest|
    {
      var found := BraceSpanAt(rest);
      if found.Some? {
        var len := found.value;
        ProtectSpanAdvance(content, rest, masked, table);
        masked := masked + Placeholder(|table|);
        table := table + [rest[..len]];
        rest := rest[len..];
      } else {
        ProtectCharAdvance(content, rest, masked, table);
        masked := masked + [rest[0]];
        rest := rest[1..];
      }
    }
  }

  /**
   * The loop invariant of `Protect`, where `rest` is the text not yet
   * scanned: the buffer and the table so far, followed by those of the rest,
   * are those of the whole text.
   */
  ghost predicate ProtectedUpTo(content: string, rest: string, masked: string, table: seq<string>) {
    Mask(content, 0, 0) == masked + Mask(rest, |table|, 0) &&
    Spans(content) == table + Spans(rest)
  }

  lemma ProtectSpanAdvance(content: string, rest: string, masked: string, table: seq<string>)
    requires ProtectedUpTo(content, rest, masked, table)
    requires BraceSpanAt(rest).Some?
    ensures var len := BraceSpanAt(rest).value;
      ProtectedUpTo(content, rest[len..], masked + Placeholder(|table|), table + [rest[..len]])
  {
    var len, n := BraceSpanAt(rest).value, |table|;
    MaskSpan(rest, n, 0);
    SpansSpan(rest);
    Regroup(masked, Placeholder(n), Mask(rest[len..], n + 1, 0));
    Regroup(table, [rest[..len]], Spans(rest[len..]));
  }

  lemma ProtectCharAdvance(content: string, rest: string, masked: string, table: seq<string>)
    requires ProtectedUpTo(content, rest, masked, table)
    requires rest != [] && BraceSpanAt(rest).None?
    ensures ProtectedUpTo(content, rest[1..], masked + [rest[0]], table)
  {
    MaskChar(rest, |table|, 0);
    Regroup(masked, [rest[0]], Mask(rest[1..], |table|, 0));
  }

  lemma Regroup<T>(a: seq<T>, b: seq<T>, c: seq<T>)
    ensures a + (b + c) == a + b + c
  {
  }

  lemma MaskSpan(s: string, n: nat, k: nat)
    requires BraceSpanAt(s).Some?
    ensures var len := BraceSpanAt(s).value;
      Mask(s, n, k) == (if n >= k then Placeholder(n) else s[..len]) + Mask(s[len..], n + 1, k)
  {
  }

  lemma SpansSpan(s: string)
    requires BraceSpanAt(s).Some?
    ensures Spans(s) == [s[..BraceSpanAt(s).value]] + Spans(s[BraceSpanAt(s).value..])
  {
  }

  /** Restoration from table entry `i` on: each placeholder is replaced, in table order. */
  function RestoreFrom(text: string, table: seq<string>, i: nat): string
    requires i <= |table|
    decreases |table| - i
  {
    if i == |table| then text
    else RestoreFrom(Replace(text, Placeholder(i), table[i]), table, i + 1)
  }

  /** Restoration (convert_jsx.py, lines 45-46). */
  method Restore(masked: string, table: seq<string>) returns (content: string)
    ensures content == RestoreFrom(masked, table, 0)
  {
    content := masked;
    for idx := 0 to |table|
      invariant RestoreFrom(content, table, idx) == RestoreFrom(masked, table, 0)
    {
      content := Replace(content, Placeholder(idx), table[idx]);
    }
  }

  /** Once every span has been put back, the buffer is the original text. */
  lemma {:induction false} MaskAllRestored(s: string, n: nat, k: nat)
    requires n + |Spans(s)| <= k
    ensures Mask(s, n, k) == s
    decreases |s|
  {
    if s != [] {
      match BraceSpanAt(s)
      case Some(len) =>
        MaskAllRestored(s[len..], n + 1, k);
        assert s == s[..len] + s[len..];
      case None =>
        MaskAllRestored(s[1..], n, k);
        assert s == [s[0]] + s[1..];
    }
  }

  /**
   * A prefix of the masked buffer without underscores was copied from the
   * original text: every placeholder starts with an underscore.
   */
  lemma {:induction false} CopiedPrefix(s: string, n: nat, k: nat, m: nat)
    requires m <= |Mask(s, n, k)|
    ensures NoUnderscore(Mask(s, n, k)[..m]) ==> m <= |s| && Mask(s, n, k)[..m] == s[..m]
    decreases |s|
  {
    var out := Mask(s, n, k);
    if s != [] && m > 0 {
      var found := BraceSpanAt(s);
      if found.Some? {
        var len := found.value;
        MaskSpan(s, n, k);
        if n >= k {
          assert out[..m][0] == Placeholder(n)[0] == '_';
        } else if NoUnderscore(out[..m]) {
          var rest := Mask(s[len..], n + 1, k);
          if m > len {
            NoUnderscoreAfter(s[..len], rest, m);
            CopiedPrefix(s[len..], n + 1, k, m - len);
          }
          CopiedAfter(s[..len], rest, s[len..], m);
        }
      } else if NoUnderscore(out[..m]) {
        var rest := Mask(s[1..], n, k);
        MaskChar(s, n, k);
        NoUnderscoreAfter([s[0]], rest, m);
        CopiedPrefix(s[1..], n, k, m - 1);
        CopiedAfter([s[0]], rest, s[1..], m);
      }
    }
  }

  predicate NoUnderscore(t: string) {
    forall i :: 0 <= i < |t| ==> t[i] != '_'
  }

  lemma NoUnderscoreAfter(h: string, r: string, m: nat)
    requires |h| <= m <= |h| + |r| && NoUnderscore((h + r)[..m])
    ensures NoUnderscore(r[..m - |h|])
  {
    assert r[..m - |h|] == (h + r)[..m][|h|..];
  }

  /** A copied head followed by a tail whose first characters were copied. */
  lemma CopiedAfter(h: string, r: string, t: string, m: nat)
    requires m <= |h| + |r|
    requires m > |h| ==> m - |h| <= |t| && r[..m - |h|] == t[..m - |h|]
    ensures m <= |h| + |t| && (h + r)[..m] == (h + t)[..m]
  {
    if m > |h| {
      assert (h + r)[..m] == h + r[..m - |h|];
      assert (h + t)[..m] == h + t[..m - |h|];
    } else {
      assert (h + r)[..m] == h[..m] == (h + t)[..m];
    }
  }

  /** Text without "PROTECTED" gives a masked buffer that does not start with it. */
  lemma NoForgedWord(s: string, n: nat, k: nat)
    requires !Occurs(s, "PROTECTED")
    ensures !OccursAt(Mask(s, n, k), "PROTECTED", 0)
  {
    var out := Mask(s, n, k);
    if |out| >= 9 && NoUnderscore(out[..9]) {
      CopiedPrefix(s, n, k, 9);
      assert !OccursAt(s, "PROTECTED", 0);
    }
  }

  /** Nor does such a buffer start with "_PROTECTED". */
  lemma NoForgedStart(s: string, n: nat, k: nat)
    requires !Occurs(s, "PROTECTED")
    ensures !OccursAt(Mask(s, n, k), "_PROTECTED", 0)
  {
    var out := Mask(s, n, k);
    if s != [] {
      match BraceSpanAt(s)
      case Some(len) =>
        if n >= k {
          assert out[1] == Placeholder(n)[1];
        } else {
          assert out[0] == s[..len][0];
        }
      case None =>
        var rest := Mask(s[1..], n, k);
        assert out == [s[0]] + rest;
        AbsentFromSuffix(s, "PROTECTED", 1);
        NoForgedWord(s[1..], n, k);
        if |out| >= 10 {
          assert out[1..10] == rest[..9];
        }
    }
  }

  /** A placeholder is made of word characters only. */
  lemma PlaceholderIsWord(n: nat)
    ensures AllWord(Placeholder(n))
  {
    var d := NatToString(n);
    var p := Placeholder(n);
    forall i | 0 <= i < |p| ensures IsWordChar(p[i]) {
      if i < 12 {
        assert p[i] == "__PROTECTED_"[i];
      } else if i < 12 + |d| {
        assert p[i] == d[i - 12];
      } else {
        assert p[i] == '_';
      }
    }
  }

  /** A placeholder holds no brace, and its only `P` is its third character. */
  lemma PlaceholderChars(n: nat)
    ensures forall i :: 0 <= i < |Placeholder(n)| ==> Placeholder(n)[i] != '{' && Placeholder(n)[i] != '}'
    ensures forall i :: 0 <= i < |Placeholder(n)| && Placeholder(n)[i] == 'P' ==> i == 2
    ensures Placeholder(n)[1..11] == "_PROTECTED" && Placeholder(n)[2..11] == "PROTECTED"
  {
    var d := NatToString(n);
    var p := Placeholder(n);
    forall i | 0 <= i < |p| ensures p[i] != '{' && p[i] != '}' && (p[i] == 'P' ==> i == 2) {
      if i < 12 {
        assert p[i] == "__PROTECTED_"[i];
      } else if i < 12 + |d| {
        assert p[i] == d[i - 12];
      } else {
        assert p[i] == "__"[i - 12 - |d|];
      }
    }
    assert p[1..11] == p[..12][1..11];
    assert p[2..11] == p[..12][2..11];
  }

  /** A placeholder is not a prefix of another one followed by anything: the trailing `__` keeps `1` apart from `10`. */
  lemma PlaceholderNotPrefix(n: nat, k: nat, rest: string)
    requires n != k
    ensures !OccursAt(Placeholder(n) + rest, Placeholder(k), 0)
  {
    var pn, pk := Placeholder(n), Placeholder(k);
    var dn, dk := NatToString(n), NatToString(k);
    var x := pn + rest;
    NatToStringInjective(n, k);
    if |pk| <= |x| {
      var j: nat;
      if |dn| == |dk| {
        j :| j < |dk| && dn[j] != dk[j];
        assert x[12 + j] == dn[j] && pk[12 + j] == dk[j];
      } else if |dk| < |dn| {
        j := |dk|;
        assert pk[12 + j] == '_' && x[12 + j] == dn[j];
      } else {
        j := |dn|;
        assert pk[12 + j] == dk[j] && x[12 + j] == '_';
      }
      assert x[..|pk|][12 + j] != pk[12 + j];
    }
  }

  /** No occurrence of another placeholder starts inside a placeholder, before its closing `__`. */
  lemma InsidePlaceholder(n: nat, k: nat, rest: string)
    requires n != k
    ensures forall q :: 0 <= q < |Placeholder(n)| - 2 ==> !OccursAt(Placeholder(n) + rest, Placeholder(k), q)
  {
    var pn, pk := Placeholder(n), Placeholder(k);
    var x := pn + rest;
    PlaceholderChars(n);
    PlaceholderChars(k);
    forall q | 0 <= q < |pn| - 2 ensures !OccursAt(x, pk, q) {
      if q == 0 {
        PlaceholderNotPrefix(n, k, rest);
      } else if q + |pk| <= |x| {
        assert pk[2] == pk[2..11][0] == 'P';
        assert x[q + 2] == pn[q + 2] != 'P';
        assert x[q..q + |pk|][2] == x[q + 2];
      }
    }
  }

  /**
   * After a placeholder, another one can only start in its closing `__` when
   * the text that follows spells "PROTECTED" or "_PROTECTED".
   */
  lemma AfterPlaceholder(n: nat, k: nat, rest: string)
    requires n != k
    requires !OccursAt(rest, "PROTECTED", 0) && !OccursAt(rest, "_PROTECTED", 0)
    ensures forall q :: 0 <= q < |Placeholder(n)| ==> !OccursAt(Placeholder(n) + rest, Placeholder(k), q)
  {
    var pn, pk := Placeholder(n), Placeholder(k);
    var x := pn + rest;
    InsidePlaceholder(n, k, rest);
    PlaceholderChars(k);
    var q := |pn| - 2;
    if q + |pk| <= |x| {
      SliceOfSlice(x, q, q + |pk|, 2, 11);
      SliceAfter(pn, rest, 9);
    }
    q := |pn| - 1;
    if q + |pk| <= |x| {
      SliceOfSlice(x, q, q + |pk|, 1, 11);
      SliceAfter(pn, rest, 10);
    }
  }

  /** No placeholder occurrence starts inside a brace span kept as text. */
  lemma AfterBraceSpan(t: string, rest: string, k: nat)
    requires IsBraceSpan(t) && !Occurs(t, "PROTECTED")
    ensures forall q :: 0 <= q < |t| ==> !OccursAt(t + rest, Placeholder(k), q)
  {
    var pk := Placeholder(k);
    var x := t + rest;
    PlaceholderChars(k);
    forall q | 0 <= q < |t| ensures !OccursAt(x, pk, q) {
      if q + |pk| <= |x| {
        if q + |pk| <= |t| {
          assert !OccursAt(t, "PROTECTED", q + 2);
          SliceOfSlice(x, 0, |t|, q + 2, q + 11);
          SliceOfSlice(x, q, q + |pk|, 2, 11);
          assert x[..|t|] == t;
        } else {
          assert x[|t| - 1] == t[|t| - 1] == '}';
          assert x[q..q + |pk|][|t| - 1 - q] == x[|t| - 1];
        }
      }
    }
  }

  /** No placeholder occurrence starts at a copied character followed by text without a forged start. */
  lemma AfterChar(c: char, rest: string, k: nat)
    requires !OccursAt(rest, "_PROTECTED", 0)
    ensures !OccursAt([c] + rest, Placeholder(k), 0)
  {
    var pk := Placeholder(k);
    PlaceholderChars(k);
    if |pk| <= 1 + |rest| {
      assert ([c] + rest)[..|pk|][1..11] == rest[..10];
    }
  }

  /**
   * One restoration step: replacing placeholder `k` in the buffer where spans
   * `k` and later are masked puts back span `k` and touches nothing else.
   */
  lemma {:induction false} RestoreStep(s: string, n: nat, k: nat, t: string)
    requires !Occurs(s, "PROTECTED")
    requires n <= k < n + |Spans(s)| ==> t == Spans(s)[k - n]
    ensures Replace(Mask(s, n, k), Placeholder(k), t) == Mask(s, n, k + 1)
    decreases |s|
  {
    var pk := Placeholder(k);
    if s != [] {
      match BraceSpanAt(s)
      case Some(len) =>
        var rest := s[len..];
        AbsentFromSuffix(s, "PROTECTED", len);
        RestoreStep(rest, n + 1, k, t);
        var r := Mask(rest, n + 1, k);
        if n == k {
          ReplaceHit(pk, r, t);
        } else if n > k {
          NoForgedWord(rest, n + 1, k);
          NoForgedStart(rest, n + 1, k);
          AfterPlaceholder(n, k, r);
          ReplaceSkip(Placeholder(n), r, pk, t);
        } else {
          AbsentFromPrefix(s, "PROTECTED", len);
          BraceSpanAtCorrect(s, len);
          AfterBraceSpan(s[..len], r, k);
          ReplaceSkip(s[..len], r, pk, t);
        }
      case None =>
        var rest := s[1..];
        AbsentFromSuffix(s, "PROTECTED", 1);
        RestoreStep(rest, n, k, t);
        var r := Mask(rest, n, k);
        NoForgedStart(rest, n, k);
        AfterChar(s[0], r, k);
        ReplaceSkip([s[0]], r, pk, t);
    }
  }

  /** Restoring from entry `k` on, when spans `k` and later are masked, gives back the text. */
  lemma {:induction false} RestoreMasked(s: string, k: nat)
    requires !Occurs(s, "PROTECTED")
    requires k <= |Spans(s)|
    ensures RestoreFrom(Mask(s, 0, k), Spans(s), k) == s
    decreases |Spans(s)| - k
  {
    if k == |Spans(s)| {
      MaskAllRestored(s, 0, k);
    } else {
      RestoreStep(s, 0, k, Spans(s)[k]);
      RestoreMasked(s, k + 1);
    }
  }

  /**
   * Round trip: protecting a buffer and restoring it with no change in between
   * gives the buffer back, when the buffer does not contain "PROTECTED".
   */
  lemma RoundTrip(s: string)
    requires !Occurs(s, "PROTECTED")
    ensures RestoreFrom(Mask(s, 0, 0), Spans(s), 0) == s
  {
    RestoreMasked(s, 0);
  }

  /** Text without an opening brace has nothing to protect. */
  lemma {:induction false} NothingToProtect(s: string, n: nat, k: nat)
    requires '{' !in s
    ensures Mask(s, n, k) == s && Spans(s) == []
    decreases |s|
  {
    if s != [] {
      assert '{' !in s[1..] && s == [s[0]] + s[1..];
      NothingToProtect(s[1..], n, k);
    }
  }

  /** A brace span at the front of the buffer is the next table entry. */
  lemma SpanFront(t: string, rest: string, n: nat, k: nat)
    requires IsBraceSpan(t)
    ensures Mask(t + rest, n, k) == (if n >= k then Placeholder(n) else t) + Mask(rest, n + 1, k)
    ensures Spans(t + rest) == [t] + Spans(rest)
  {
    var s := t + rest;
    assert s[..|t|] == t;
    BraceSpanAtCorrect(s, |t|);
    assert s[|t|..] == rest;
  }

  /** Text before the first brace is copied by masking and adds no table entry. */
  lemma {:induction false} PlainFront(u: string, rest: string, n: nat, k: nat)
    requires '{' !in u
    ensures Mask(u + rest, n, k) == u + Mask(rest, n, k)
    ensures Spans(u + rest) == Spans(rest)
    decreases |u|
  {
    if u == [] {
      assert u + rest == rest;
    } else {
      var s := u + rest;
      assert s[0] == u[0] && s[1..] == u[1..] + rest;
      assert '{' !in u[1..];
      PlainFront(u[1..], rest, n, k);
      assert u == [u[0]] + u[1..];
    }
  }

  /** The counterexample buffer: two brace spans, then the text `PROTECTED_0__`. */
  const CounterexampleInput: string := "{a}" + ("{b}" + "PROTECTED_0__")

  lemma TwoSpansThenText(a: string, b: string, tail: string)
    requires IsBraceSpan(a) && IsBraceSpan(b) && '{' !in tail
    ensures Mask(a + (b + tail), 0, 0) == Placeholder(0) + (Placeholder(1) + tail)
    ensures Spans(a + (b + tail)) == [a, b]
  {
    var r := b + tail;
    NothingToProtect(tail, 2, 0);
    SpanFront(b, tail, 1, 0);
    var m := Mask(r, 1, 0);
    assert m == Placeholder(1) + tail;
    assert Spans(r) == [b];
    SpanFront(a, r, 0, 0);
    assert Mask(a + r, 0, 0) == Placeholder(0) + m;
  }

  lemma CounterexampleText()
    ensures !Occurs(CounterexampleInput, "__PROTECTED_")
  {
    var s := CounterexampleInput;
    forall i ensures !OccursAt(s, "__PROTECTED_", i) {
      if 0 <= i <= 7 {
        assert i == 0 || i == 1 || i == 2 || i == 3 || i == 4 || i == 5 || i == 6 || i == 7;
        assert s[i] != '_';
        assert s[i..i + 12][0] == s[i];
      }
    }
  }

  /** Restoring placeholder 0 in the counterexample: the second hit straddles placeholder 1. */
  lemma CounterexampleFirstStep()
    ensures Replace(Placeholder(0) + (Placeholder(1) + "PROTECTED_0__"), Placeholder(0), "{a}")
            == "{a}" + ("__PROTECTED_1" + "{a}")
  {
    var p0, p1, tail := Placeholder(0), Placeholder(1), "PROTECTED_0__";
    assert p0 == "__PROTECTED_0__" && p1 == "__PROTECTED_1__";
    var h := "__PROTECTED_1";
    assert p1 + tail == h + p0;
    InsidePlaceholder(1, 0, tail);
    ReplaceSkip(h, p0, p0, "{a}");
    ReplaceHit(p0, [], "{a}");
    assert p0 + [] == p0;
    ReplaceHit(p0, p1 + tail, "{a}");
  }

  lemma CounterexampleSecondStep()
    ensures Replace("{a}" + ("__PROTECTED_1" + "{a}"), Placeholder(1), "{b}") == "{a}" + ("__PROTECTED_1" + "{a}")
  {
    var m1 := "{a}" + ("__PROTECTED_1" + "{a}");
    var p1 := Placeholder(1);
    assert p1 == "__PROTECTED_1__";
    PlaceholderChars(1);
    assert |m1| == 19 && m1[2] == '}' && m1[16] == '{';
    forall q | 0 <= q < |m1| ensures !OccursAt(m1, p1, q) {
      if q + |p1| <= |m1| {
        var b := if q < 3 then 2 else 16;
        assert m1[q..q + |p1|][b - q] == m1[b];
      }
    }
    ReplaceAbsent(m1, p1, "{b}");
  }

  /**
   * Excluding `__PROTECTED_` from the buffer is not enough for the round
   * trip: restoring placeholder 0 also replaces the `__` that ends
   * placeholder 1 together with the literal text `PROTECTED_0__` after it,
   * and placeholder 1 is then never found.
   */
  lemma RoundTripCounterexample()
    ensures !Occurs(CounterexampleInput, "__PROTECTED_")
    ensures RestoreFrom(Mask(CounterexampleInput, 0, 0), Spans(CounterexampleInput), 0)
            == "{a}" + ("__PROTECTED_1" + "{a}")
    ensures RestoreFrom(Mask(CounterexampleInput, 0, 0), Spans(CounterexampleInput), 0) != CounterexampleInput
  {
    CounterexampleText();
    var tail := "PROTECTED_0__";
    assert IsBraceSpan("{a}") && IsBraceSpan("{b}");
    TwoSpansThenText("{a}", "{b}", tail);
    var table := Spans(CounterexampleInput);
    var masked := Mask(CounterexampleInput, 0, 0);
    CounterexampleFirstStep();
    CounterexampleSecondStep();
    var out := "{a}" + ("__PROTECTED_1" + "{a}");
    assert RestoreFrom(masked, table, 0) == RestoreFrom(out, table, 1);
    assert RestoreFrom(out, table, 1) == RestoreFrom(out, table, 2) == out;
    assert out[3] != CounterexampleInput[3];
  }
}
