/**
 * Return-statement rewriting (convert_jsx.py, lines 19-42). Two passes of
 * `re.sub` in multi-line mode replace `return` statements whose body is
 * markup: first the parenthesized form
 *   `^(\s*)return\s+\(\s*\n?\s*(<[\s\S]*?>[\s\S]*?<\/[^>]+>)\s*\);`
 * then the inline form
 *   `^(\s*)return\s+(<[^;]+>);`
 * Each match becomes `indent + "return " + converted + ";"`, where `indent`
 * is group 1 and `converted` the element conversion of group 2, stripped,
 * with the indentation one level deeper. Everything else is copied.
 *
 * The patterns are matched by hand. What the regular-expression engine's
 * backtracking leaves for each group:
 *  - group 1 is the whole whitespace run at the line start (a shorter run
 *    would be followed by whitespace, not by `r`), so it can span blank lines;
 *  - `\s+` and `\s*\n?\s*` take whole whitespace runs for the same reason;
 *  - in the parenthesized form the markup starts at `<`, its first lazy span
 *    ends at the first `>`, and the second at the first `</` from which the
 *    first following `>` is followed by whitespace and `);`;
 *  - in the inline form `[^;]+` stops at the first `;`, which must come right
 *    after a `>`.
 */
module Returns {
  import opened Text
  import opened Attributes
  import opened Elements

  /** The two patterns, in the order the passes apply them. */
  datatype Pattern = Parenthesized | Inline

  /** One match: the position after it, the indentation (group 1) and the markup (group 2). */
  datatype Match = Match(end: nat, indent: string, jsx: string)

  /** Where group 1 ends (`k`) and where the text after `return\s+` starts (`p`). */
  datatype Head = Head(k: nat, p: nat)

  /** A closing part: its final `>` and the position after the `);` that follows. */
  datatype Closing = Closing(gt: nat, end: nat)

  /** The rest of the parenthesized form: where the markup starts, its final `>`, and the position after `);`. */
  datatype Markup = Markup(start: nat, gt: nat, end: nat)

  /** `^` in multi-line mode: the start of the text or the position after a newline. */
  predicate LineStart(s: string, i: nat) {
    i <= |s| && (i == 0 || s[i - 1] == '\n')
  }

  /** The length of the whitespace run that starts at `i`. */
  function SpaceRun(s: string, i: nat): (n: nat)
    requires i <= |s|
    ensures i + n <= |s| && (i + n == |s| || !IsSpace(s[i + n]))
    decreases |s| - i
  {
    if i < |s| && IsSpace(s[i]) then 1 + SpaceRun(s, i + 1) else 0
  }

  /** The run is whitespace. */
  lemma {:induction false} SpaceRunSpace(s: string, i: nat)
    requires i <= |s|
    ensures AllSpace(s[i..i + SpaceRun(s, i)])
    decreases |s| - i
  {
    if i < |s| && IsSpace(s[i]) {
      SpaceRunSpace(s, i + 1);
      var n := SpaceRun(s, i);
      assert s[i..i + n] == [s[i]] + s[i + 1..i + n];
    }
  }

  /** Whitespace followed by something else is the whole run. */
  lemma {:induction false} SpaceRunOf(s: string, i: nat, n: nat)
    requires i + n <= |s| && AllSpace(s[i..i + n]) && (i + n == |s| || !IsSpace(s[i + n]))
    ensures SpaceRun(s, i) == n
    decreases n
  {
    if n > 0 {
      assert IsSpace(s[i]) by { assert s[i] == s[i..i + n][0]; }
      var t, u := s[i + 1..i + n], s[i..i + n];
      assert AllSpace(t) by {
        forall k | 0 <= k < |t| ensures IsSpace(t[k]) {
          assert t[k] == u[k + 1];
        }
      }
      SpaceRunOf(s, i + 1, n - 1);
    }
  }

  /** The run from `i` stops at or before any non-whitespace character at `y`. */
  lemma {:induction false} SpaceRunStops(s: string, i: nat, y: nat)
    requires i <= y < |s| && !IsSpace(s[y])
    ensures i + SpaceRun(s, i) <= y
    decreases y - i
  {
    if i < y && IsSpace(s[i]) {
      SpaceRunStops(s, i + 1, y);
    }
  }

  /** `return` at `k` followed by a non-empty whitespace run; the position after the run. */
  function KeywordAt(s: string, k: nat): (r: Option<nat>)
    requires k <= |s|
    ensures r.Some? ==> k + 7 <= r.value <= |s|
  {
    if OccursAt(s, "return", k) then
      var w := SpaceRun(s, k + 6);
      if w > 0 then Some(k + 6 + w) else None
    else None
  }

  /**
   * The closing part tried at `c`: `</`, at least one character other than
   * `>`, the first `>` (at `e`), whitespace and `);`. The position of that
   * `>` and the position after `);`.
   */
  function CloseAt(s: string, c: nat): (r: Option<Closing>)
    requires c <= |s|
    ensures r.Some? ==> c + 2 < r.value.gt && r.value.gt + 3 <= r.value.end <= |s|
  {
    if c + 2 <= |s| && s[c] == '<' && s[c + 1] == '/' then
      match IndexOf(s, '>', c + 2)
      case Some(e) =>
        if e > c + 2 then
          var f := e + 1 + SpaceRun(s, e + 1);
          if f + 2 <= |s| && s[f] == ')' && s[f + 1] == ';' then Some(Closing(e, f + 2)) else None
        else None
      case None => None
    else None
  }

  /** The lazy span `[\s\S]*?` before `<\/`: the closing parts tried from `c` on, nearest first. */
  function FirstClose(s: string, c: nat): (r: Option<Closing>)
    requires c <= |s|
    ensures r.Some? ==> c + 2 < r.value.gt && r.value.gt + 3 <= r.value.end <= |s|
    decreases |s| - c
  {
    if c == |s| then None
    else match CloseAt(s, c)
      case Some(x) => Some(x)
      case None => FirstClose(s, c + 1)
  }

  /**
   * Group 1 and `return\s+` at `i`: the position `k` after the indentation
   * and the position `p` after the keyword's whitespace, which must not be
   * the end of the text.
   */
  function HeadAt(s: string, i: nat): (r: Option<Head>)
    requires i <= |s|
    ensures r.Some? ==> i <= r.value.k && r.value.k + 7 <= r.value.p < |s|
  {
    if !LineStart(s, i) then None
    else
      var k := i + SpaceRun(s, i);
      match KeywordAt(s, k)
      case None => None
      case Some(p) => if p == |s| then None else Some(Head(k, p))
  }

  /**
   * The rest of the parenthesized form from `p`: `\(`, whitespace, then the
   * markup from `a` to the `>` at `e`, whitespace and `);` ending before `end`.
   */
  function ParenthesizedAt(s: string, p: nat): (r: Option<Markup>)
    requires p < |s|
    ensures r.Some? ==> p < r.value.start && r.value.start + 3 < r.value.gt && r.value.gt + 3 <= r.value.end <= |s|
  {
    if s[p] != '(' then None
    else
      var a := p + 1 + SpaceRun(s, p + 1);
      match MarkupAt(s, a)
      case None => None
      case Some(close) => Some(Markup(a, close.gt, close.end))
  }

  /** Group 2 and what follows it, from `a`: `<`, up to the first `>`, then the first closing part. */
  function MarkupAt(s: string, a: nat): (r: Option<Closing>)
    requires a <= |s|
    ensures r.Some? ==> a + 3 < r.value.gt && r.value.gt + 3 <= r.value.end <= |s|
  {
    if a == |s| || s[a] != '<' then None
    else match IndexOf(s, '>', a + 1)
      case None => None
      case Some(gt) => FirstClose(s, gt + 1)
  }

  /** The rest of the inline form from `p`: `<`, then up to the first `;` at `q`, which follows a `>`. */
  function InlineAt(s: string, p: nat): (r: Option<nat>)
    requires p < |s|
    ensures r.Some? ==> p + 3 <= r.value < |s|
  {
    if s[p] != '<' then None
    else match IndexOf(s, ';', p + 1)
      case None => None
      case Some(q) => if q >= p + 3 && s[q - 1] == '>' then Some(q) else None
  }

  /** The match of `pat` at position `i` of `s`, if there is one. */
  function MatchAt(pat: Pattern, s: string, i: nat): (r: Option<Match>)
    requires i <= |s|
    ensures r.Some? ==> i < r.value.end <= |s|
  {
    match HeadAt(s, i)
    case None => None
    case Some(h) =>
      match pat
      case Parenthesized =>
        (match ParenthesizedAt(s, h.p)
         case None => None
         case Some(mk) => Some(Match(mk.end, s[i..h.k], s[mk.start..mk.gt + 1])))
      case Inline =>
        (match InlineAt(s, h.p)
         case None => None
         case Some(q) => Some(Match(q + 1, s[i..h.k], s[h.p..q])))
  }

  /** The text a match is replaced with (convert_jsx.py, lines 20-26 and 39). */
  function Replacement(m: Match): string {
    m.indent + "return " + ConvertElement(Strip(m.jsx), m.indent + "  ") + ";"
  }

  /** One step of a `re.sub` pass: a character copied, or a match replaced. */
  datatype Step = Copy(c: char) | Substitute(m: Match)

  /** The steps of a pass from position `i`: matches are found left to right, each resuming the scan after it. */
  function Scan(pat: Pattern, s: string, i: nat): seq<Step>
    requires i <= |s|
    decreases |s| - i
  {
    if i == |s| then []
    else match MatchAt(pat, s, i)
      case Some(m) => [Substitute(m)] + Scan(pat, s, m.end)
      case None => [Copy(s[i])] + Scan(pat, s, i + 1)
  }

  /** The text of one step, a match being replaced by `repl` as `re.sub` calls its replacement function. */
  function StepText(step: Step, repl: Match -> string): string {
    match step
    case Copy(c) => [c]
    case Substitute(m) => repl(m)
  }

  /** The output of a pass: the texts of its steps, joined. */
  function Render(steps: seq<Step>, repl: Match -> string): string
    decreases |steps|
  {
    if steps == [] then [] else StepText(steps[0], repl) + Render(steps[1..], repl)
  }

  /** One `re.sub` pass from position `i`. */
  function Rewrite(pat: Pattern, s: string, i: nat): string
    requires i <= |s|
  {
    Render(Scan(pat, s, i), Replacement)
  }

  /** The steps that copy `t`. */
  function Copies(t: string): (r: seq<Step>)
    ensures |r| == |t|
  {
    if t == [] then [] else [Copy(t[0])] + Copies(t[1..])
  }

  /** Both passes, parenthesized form first. */
  function RewriteReturns(s: string): string {
    var first := Rewrite(Parenthesized, s, 0);
    Rewrite(Inline, first, 0)
  }

  // ---------------------------------------------------------------------
  // The statements each pattern accepts

  /** `indent return ws1 ( ws2 jsx ws3 );` */
  function ParenthesizedText(indent: string, ws1: string, ws2: string, jsx: string, ws3: string): string {
    indent + "return" + ws1 + "(" + ws2 + jsx + ws3 + ");"
  }

  /** `indent return ws jsx;` */
  function InlineText(indent: string, ws: string, jsx: string): string {
    indent + "return" + ws + jsx + ";"
  }

  /** `<open>body</name>`: the markup the parenthesized form accepts. */
  function MarkupText(open: string, body: string, name: string): string {
    ("<" + open + ">") + body + ("</" + name + ">")
  }

  /** Joining two adjacent slices. */
  lemma Adjoin(s: string, x: nat, y: nat, z: nat, u: string, v: string)
    requires x <= y <= z <= |s| && s[x..y] == u && s[y..z] == v
    ensures s[x..z] == u + v
  {
    assert s[x..z] == s[x..y] + s[y..z];
  }

  /** Splitting a slice that reads `u + v` where `u` ends. */
  lemma Divide(s: string, x: nat, z: nat, u: string, v: string)
    requires x + |u| + |v| == z <= |s| && s[x..z] == u + v
    ensures s[x..x + |u|] == u && s[x + |u|..z] == v
  {
    assert s[x..x + |u|] == s[x..z][..|u|];
    assert s[x + |u|..z] == s[x..z][|u|..];
  }

  /** One character as a slice. */
  lemma Single(s: string, x: nat)
    requires x < |s|
    ensures s[x..x + 1] == [s[x]]
  {
  }

  // ---------------------------------------------------------------------
  // Soundness: what a match covers

  /** What precedes the pattern-specific part: group 1 and `return\s+`. */
  lemma HeadSound(s: string, i: nat) returns (k: nat, p: nat)
    requires i <= |s| && HeadAt(s, i).Some?
    ensures k == HeadAt(s, i).value.k && p == HeadAt(s, i).value.p
    ensures LineStart(s, i) && s[i..p] == s[i..k] + "return" + s[k + 6..p]
    ensures AllSpace(s[i..k]) && s[k + 6..p] != [] && AllSpace(s[k + 6..p])
  {
    k := i + SpaceRun(s, i);
    p := KeywordAt(s, k).value;
    SpaceRunSpace(s, i);
    SpaceRunSpace(s, k + 6);
    Adjoin(s, i, k, k + 6, s[i..k], "return");
    Adjoin(s, i, k + 6, p, s[i..k] + "return", s[k + 6..p]);
  }

  /** The position of the closing part `FirstClose` finds. */
  lemma {:induction false} FirstCloseAt(s: string, c: nat) returns (d: nat)
    requires c <= |s| && FirstClose(s, c).Some?
    ensures c <= d <= |s| && CloseAt(s, d) == FirstClose(s, c)
    decreases |s| - c
  {
    if CloseAt(s, c).Some? {
      d := c;
    } else {
      d := FirstCloseAt(s, c + 1);
    }
  }

  /** What `CloseAt` accepts: `</`, a name without `>`, `>`, whitespace and `);`. */
  lemma ClosingSound(s: string, c: nat) returns (name: string, ws3: string)
    requires c <= |s| && CloseAt(s, c).Some?
    ensures var e := CloseAt(s, c).value.gt;
      var end := CloseAt(s, c).value.end;
      s[c..c + 2] == "</" && s[c + 2..e] == name && s[e..e + 1] == ">" &&
      s[e + 1..end - 2] == ws3 && s[end - 2..end] == ");" &&
      name != [] && '>' !in name && AllSpace(ws3)
  {
    var e := IndexOf(s, '>', c + 2).value;
    var f := e + 1 + SpaceRun(s, e + 1);
    assert CloseAt(s, c) == Some(Closing(e, f + 2));
    IndexOfSound(s, '>', c + 2);
    SpaceRunSpace(s, e + 1);
    Single(s, e);
    name, ws3 := s[c + 2..e], s[e + 1..f];
  }

  /** What the first lazy span leaves before a closing part at `c`: `<open>body</name>`. */
  lemma MarkupSound(s: string, a: nat, gt: nat, c: nat) returns (open: string, body: string, name: string)
    requires a < |s| && s[a] == '<' && IndexOf(s, '>', a + 1) == Some(gt)
    requires gt + 1 <= c <= |s| && CloseAt(s, c).Some?
    ensures s[a..CloseAt(s, c).value.gt + 1] == MarkupText(open, body, name)
    ensures '>' !in open && name != [] && '>' !in name
  {
    var e := CloseAt(s, c).value.gt;
    var ws3;
    name, ws3 := ClosingSound(s, c);
    IndexOfSound(s, '>', a + 1);
    open, body := s[a + 1..gt], s[gt + 1..c];
    Single(s, a);
    AngleText(s, a, gt, "<", open);
    AngleText(s, c, e, "</", name);
    Adjoin(s, a, gt + 1, c, "<" + open + ">", body);
    Adjoin(s, a, c, e + 1, "<" + open + ">" + body, "</" + name + ">");
  }

  /** A prefix, text and `>` side by side. */
  lemma AngleText(s: string, x: nat, y: nat, l: string, mid: string)
    requires x + |l| <= y < |s| && s[x..x + |l|] == l && s[x + |l|..y] == mid && s[y] == '>'
    ensures s[x..y + 1] == l + mid + ">"
  {
    Single(s, y);
    Adjoin(s, x, x + |l|, y, l, mid);
    Adjoin(s, x, y, y + 1, l + mid, ">");
  }

  /** Where a prefix, text and `>` lie. */
  lemma AngleLayout(s: string, x: nat, z: nat, l: string, mid: string)
    requires x + |l| + |mid| + 1 == z <= |s| && s[x..z] == l + mid + ">"
    ensures s[x..x + |l|] == l && s[x + |l|..z - 1] == mid && s[z - 1] == '>' && s[x..z - 1] == l + mid
  {
    Divide(s, x, z, l + mid, ">");
    Divide(s, x, z - 1, l, mid);
    Single(s, z - 1);
  }

  /** The positions `ParenthesizedAt` goes through: the `<`, the first `>` after it and the closing part. */
  lemma ParenthesizedParts(s: string, p: nat) returns (a: nat, gt: nat, c: nat)
    requires p < |s| && ParenthesizedAt(s, p).Some?
    ensures a == p + 1 + SpaceRun(s, p + 1) && a < |s| && s[p] == '(' && s[a] == '<'
    ensures IndexOf(s, '>', a + 1) == Some(gt) && gt + 1 <= c <= |s| && CloseAt(s, c).Some?
    ensures ParenthesizedAt(s, p) == Some(Markup(a, CloseAt(s, c).value.gt, CloseAt(s, c).value.end))
  {
    a := p + 1 + SpaceRun(s, p + 1);
    gt := IndexOf(s, '>', a + 1).value;
    c := FirstCloseAt(s, gt + 1);
  }

  /** What `ParenthesizedAt` accepts: `(`, whitespace, the markup, whitespace and `);`. */
  lemma ParenthesizedAtSound(s: string, p: nat, a: nat, e: nat, end: nat)
    returns (ws2: string, open: string, body: string, name: string, ws3: string)
    requires p < |s| && ParenthesizedAt(s, p) == Some(Markup(a, e, end))
    ensures p < a < e && e + 3 <= end <= |s|
    ensures s[p..p + 1] == "(" && s[p + 1..a] == ws2 && AllSpace(ws2)
    ensures s[a..e + 1] == MarkupText(open, body, name) && '>' !in open && name != [] && '>' !in name
    ensures s[e + 1..end - 2] == ws3 && AllSpace(ws3) && s[end - 2..end] == ");"
  {
    var a, gt, c := ParenthesizedParts(s, p);
    ws2, open, body, name, ws3 := ParenthesizedPieces(s, p, a, gt, c);
  }

  /** The pieces of the parenthesized form between `(` and `);`, from the positions its scan found. */
  lemma ParenthesizedPieces(s: string, p: nat, a: nat, gt: nat, c: nat)
    returns (ws2: string, open: string, body: string, name: string, ws3: string)
    requires p < |s| && s[p] == '(' && a == p + 1 + SpaceRun(s, p + 1) && a < |s| && s[a] == '<'
    requires IndexOf(s, '>', a + 1) == Some(gt) && gt + 1 <= c <= |s| && CloseAt(s, c).Some?
    ensures var cl := CloseAt(s, c).value;
      s[p..p + 1] == "(" && s[p + 1..a] == ws2 && AllSpace(ws2) &&
      s[a..cl.gt + 1] == MarkupText(open, body, name) && '>' !in open && name != [] && '>' !in name &&
      s[cl.gt + 1..cl.end - 2] == ws3 && AllSpace(ws3) && s[cl.end - 2..cl.end] == ");"
  {
    SpaceRunSpace(s, p + 1);
    Single(s, p);
    ws2 := s[p + 1..a];
    var n;
    n, ws3 := ClosingSound(s, c);
    open, body, name := MarkupSound(s, a, gt, c);
  }

  /**
   * A parenthesized match is the statement `indent return ws1 ( ws2 jsx ws3 );`
   * at a line start, with `indent` group 1 and `jsx`, group 2, of the form
   * `<open>body</name>`.
   */
  lemma ParenthesizedSound(s: string, i: nat)
    returns (ws1: string, ws2: string, ws3: string, open: string, body: string, name: string)
    requires i <= |s| && MatchAt(Parenthesized, s, i).Some?
    ensures var m := MatchAt(Parenthesized, s, i).value;
      LineStart(s, i) && s[i..m.end] == ParenthesizedText(m.indent, ws1, ws2, m.jsx, ws3) &&
      AllSpace(m.indent) && ws1 != [] && AllSpace(ws1) && AllSpace(ws2) && AllSpace(ws3) &&
      m.jsx == MarkupText(open, body, name) && '>' !in open && name != [] && '>' !in name
  {
    var h := HeadAt(s, i).value;
    var r := ParenthesizedAt(s, h.p).value;
    ParenthesizedFromParts(s, i, h.k, h.p, r.start, r.gt, r.end);
    var m := MatchAt(Parenthesized, s, i).value;
    assert m.end == r.end && m.indent == s[i..h.k] && m.jsx == s[r.start..r.gt + 1];
    ws1, ws2, ws3, open, body, name := ParenthesizedShape(s, i, h.k, h.p, r.start, r.gt, r.end);
  }

  /** The statement a parenthesized match covers, from the positions its parts found. */
  lemma ParenthesizedShape(s: string, i: nat, k: nat, p: nat, a: nat, e: nat, end: nat)
    returns (ws1: string, ws2: string, ws3: string, open: string, body: string, name: string)
    requires i <= |s| && HeadAt(s, i) == Some(Head(k, p)) && ParenthesizedAt(s, p) == Some(Markup(a, e, end))
    ensures LineStart(s, i) && i <= k <= a <= e < end <= |s|
    ensures s[i..end] == ParenthesizedText(s[i..k], ws1, ws2, s[a..e + 1], ws3)
    ensures AllSpace(s[i..k]) && ws1 != [] && AllSpace(ws1) && AllSpace(ws2) && AllSpace(ws3)
    ensures s[a..e + 1] == MarkupText(open, body, name) && '>' !in open && name != [] && '>' !in name
  {
    var k', p' := HeadSound(s, i);
    ws2, open, body, name, ws3 := ParenthesizedAtSound(s, p, a, e, end);
    ws1 := s[k + 6..p];
    ParenthesizedAssembly(s, i, p, a, e, end, s[i..k], ws1, ws2, s[a..e + 1], ws3);
  }

  /** The parts of the parenthesized form, side by side, make the statement. */
  lemma ParenthesizedAssembly(s: string, i: nat, p: nat, a: nat, e: nat, end: nat,
                              indent: string, ws1: string, ws2: string, jsx: string, ws3: string)
    requires i <= p < a <= e && e + 3 <= end <= |s|
    requires s[i..p] == indent + "return" + ws1 && s[p..p + 1] == "(" && s[p + 1..a] == ws2
    requires s[a..e + 1] == jsx && s[e + 1..end - 2] == ws3 && s[end - 2..end] == ");"
    ensures s[i..end] == ParenthesizedText(indent, ws1, ws2, jsx, ws3)
  {
    var t := indent + "return" + ws1;
    Adjoin(s, i, p, p + 1, t, "(");
    Adjoin(s, i, p + 1, a, t + "(", ws2);
    Adjoin(s, i, a, e + 1, t + "(" + ws2, jsx);
    Adjoin(s, i, e + 1, end - 2, t + "(" + ws2 + jsx, ws3);
    Adjoin(s, i, end - 2, end, t + "(" + ws2 + jsx + ws3, ");");
  }

  /** The inline markup: `<`, text without `;`, and the `>` right before the first `;`. */
  lemma JsxSound(s: string, p: nat, q: nat) returns (mid: string)
    requires p < |s| && s[p] == '<' && IndexOf(s, ';', p + 1) == Some(q) && q >= p + 3 && s[q - 1] == '>'
    ensures s[p..q] == "<" + mid + ">" && mid != [] && ';' !in mid
  {
    IndexOfSound(s, ';', p + 1);
    mid := s[p + 1..q - 1];
    assert ';' !in mid by {
      assert mid == s[p + 1..q][..q - 1 - (p + 1)];
    }
    Single(s, p);
    Single(s, q - 1);
    Adjoin(s, p, p + 1, q - 1, "<", mid);
    Adjoin(s, p, q - 1, q, "<" + mid, ">");
  }

  /**
   * An inline match is the statement `indent return ws jsx;` at a line start,
   * with `indent` group 1 and `jsx`, group 2, of the form `<mid>` where `mid`
   * is not empty and holds no `;`.
   */
  lemma InlineSound(s: string, i: nat) returns (ws: string, mid: string)
    requires i <= |s| && MatchAt(Inline, s, i).Some?
    ensures var m := MatchAt(Inline, s, i).value;
      LineStart(s, i) && s[i..m.end] == InlineText(m.indent, ws, m.jsx) &&
      AllSpace(m.indent) && ws != [] && AllSpace(ws) &&
      m.jsx == "<" + mid + ">" && mid != [] && ';' !in mid
  {
    var m := MatchAt(Inline, s, i).value;
    var k, p := HeadSound(s, i);
    var q := InlineAt(s, p).value;
    assert m == Match(q + 1, s[i..k], s[p..q]);
    assert IndexOf(s, ';', p + 1) == Some(q);
    ws := s[k + 6..p];
    mid := JsxSound(s, p, q);
    Single(s, q);
    Adjoin(s, i, p, q, m.indent + "return" + ws, m.jsx);
    Adjoin(s, i, q, q + 1, m.indent + "return" + ws + m.jsx, ";");
  }

  // ---------------------------------------------------------------------
  // Completeness: every statement of the accepted shapes is matched

  /** The first `ch` from `x` on comes no later than one at `y`. */
  lemma IndexOfBound(s: string, ch: char, x: nat, y: nat)
    requires x <= y < |s| && s[y] == ch
    ensures IndexOf(s, ch, x).Some? && IndexOf(s, ch, x).value <= y
  {
    IndexOfSound(s, ch, x);
    assert ch in s[x..] by { assert s[x..][y - x] == ch; }
    var v := IndexOf(s, ch, x).value;
    forall t | x <= t < v
      ensures s[t] != ch
    {
      assert s[t] == s[x..v][t - x];
    }
  }

  /** Group 1 and `return\s+` are found where the text reads `indent return ws` followed by something other than whitespace. */
  lemma HeadComplete(s: string, i: nat, p: nat, indent: string, ws: string)
    requires LineStart(s, i) && i <= p < |s| && s[i..p] == indent + "return" + ws && !IsSpace(s[p])
    requires AllSpace(indent) && ws != [] && AllSpace(ws)
    ensures HeadAt(s, i) == Some(Head(i + |indent|, p)) && s[i..i + |indent|] == indent
  {
    var k := i + |indent|;
    HeadLayout(s, i, p, indent, ws);
    SpaceRunOf(s, i, |indent|);
    SpaceRunOf(s, k + 6, |ws|);
    HeadFromParts(s, i, k, p);
  }

  /** Where the indentation, the keyword and its whitespace lie. */
  lemma HeadLayout(s: string, i: nat, p: nat, indent: string, ws: string)
    requires i <= p <= |s| && s[i..p] == indent + "return" + ws
    ensures i + |indent| + 6 <= p && s[i..i + |indent|] == indent && OccursAt(s, "return", i + |indent|)
    ensures s[i + |indent| + 6..p] == ws && s[i + |indent|] == 'r'
  {
    var k := i + |indent|;
    Divide(s, i, p, indent + "return", ws);
    Divide(s, i, k + 6, indent, "return");
    assert s[k] == 'r' by { assert s[k] == s[k..k + 6][0]; }
  }

  /** The head from its parts. */
  lemma HeadFromParts(s: string, i: nat, k: nat, p: nat)
    requires LineStart(s, i) && k == i + SpaceRun(s, i) && k + 6 <= p < |s| && OccursAt(s, "return", k)
    requires p == k + 6 + SpaceRun(s, k + 6) && k + 6 < p
    ensures HeadAt(s, i) == Some(Head(k, p))
  {
  }

  /** `</name>`, whitespace and `);` at `c` make a closing part. */
  lemma CloseComplete(s: string, c: nat, e: nat, end: nat, name: string, ws3: string)
    requires c + 2 <= e && e + 3 <= end <= |s|
    requires s[c..e + 1] == "</" + name + ">" && s[e + 1..end - 2] == ws3 && s[end - 2..end] == ");"
    requires name != [] && '>' !in name && AllSpace(ws3)
    ensures CloseAt(s, c) == Some(Closing(e, end))
  {
    AngleLayout(s, c, e + 1, "</", name);
    assert s[c] == '<' && s[c + 1] == '/' by { assert s[c..c + 2] == "</"; }
    assert s[end - 2] == ')' && s[end - 1] == ';' by { assert s[end - 2..end] == ");"; }
    IndexOfFirst(s, '>', c + 2, e);
    SpaceRunOf(s, e + 1, |ws3|);
  }

  /** No `);` lies wholly between `c` and `c0`. */
  predicate NoCallEndBetween(s: string, c: nat, c0: nat) {
    forall t :: c <= t && t + 2 <= c0 ==> !OccursAt(s, ");", t)
  }

  /** A stretch without `);` has none at any position inside it. */
  lemma NoCallEndIn(s: string, c: nat, c0: nat, body: string)
    requires c <= c0 <= |s| && s[c..c0] == body && !Occurs(body, ");")
    ensures NoCallEndBetween(s, c, c0)
  {
    forall t | c <= t && t + 2 <= c0
      ensures !OccursAt(s, ");", t)
    {
      assert !OccursAt(body, ");", t - c);
      assert body[t - c] == s[t] && body[t - c + 1] == s[t + 1];
      assert body[t - c..t - c + 2] == [s[t], s[t + 1]] && s[t..t + 2] == [s[t], s[t + 1]];
    }
  }

  /**
   * A closing part tried at `c` before the one at `c0` fails or ends where
   * that one does, when no `);` lies between them.
   */
  lemma CloseBefore(s: string, c: nat, c0: nat)
    requires c < c0 <= |s| && CloseAt(s, c0).Some? && NoCallEndBetween(s, c, c0) && '>' !in s[c0..CloseAt(s, c0).value.gt]
    ensures CloseAt(s, c).Some? ==> CloseAt(s, c) == CloseAt(s, c0)
  {
    var e0 := CloseAt(s, c0).value.gt;
    assert s[c0] == '<' && s[e0] == '>';
    if c + 2 <= |s| && s[c] == '<' && s[c + 1] == '/' {
      IndexOfBound(s, '>', c + 2, e0);
      var e := IndexOf(s, '>', c + 2).value;
      if e < c0 {
        CloseBeforeEarly(s, c, c0, e);
      } else {
        forall t | c0 <= t < e0
          ensures s[t] != '>'
        {
          assert s[t] == s[c0..e0][t - c0];
        }
        assert e == e0;
        CloseBeforeLate(s, c, c0, e0);
      }
    }
  }

  /** A closing part whose `>` comes before `c0` fails: its `);` would have to lie before `c0`. */
  lemma CloseBeforeEarly(s: string, c: nat, c0: nat, e: nat)
    requires c + 2 <= |s| && s[c] == '<' && s[c + 1] == '/' && IndexOf(s, '>', c + 2) == Some(e)
    requires e < c0 < |s| && s[c0] == '<' && NoCallEndBetween(s, c, c0)
    ensures CloseAt(s, c).None?
  {
    SpaceRunStops(s, e + 1, c0);
    var f := e + 1 + SpaceRun(s, e + 1);
    if f + 1 < c0 {
      NoCallEndAt(s, c, c0, f);
    }
  }

  /** Inside a stretch without `);`, no `)` is followed by `;`. */
  lemma NoCallEndAt(s: string, c: nat, c0: nat, f: nat)
    requires NoCallEndBetween(s, c, c0) && c <= f && f + 2 <= c0 <= |s|
    ensures s[f] != ')' || s[f + 1] != ';'
  {
    assert !OccursAt(s, ");", f);
    assert s[f..f + 2] == [s[f], s[f + 1]];
  }

  /** A closing part that shares its `>` with the one at `c0` ends where that one does. */
  lemma CloseBeforeLate(s: string, c: nat, c0: nat, e0: nat)
    requires c < c0 <= |s| && c + 2 <= |s| && s[c] == '<' && s[c + 1] == '/' && IndexOf(s, '>', c + 2) == Some(e0)
    requires CloseAt(s, c0).Some? && CloseAt(s, c0).value.gt == e0
    ensures CloseAt(s, c) == CloseAt(s, c0)
  {
  }

  /** `FirstClose` from `c` reaches the closing part at `c0` when no `);` lies before it. */
  lemma {:induction false} FirstCloseFrom(s: string, c: nat, c0: nat)
    requires c <= c0 <= |s| && CloseAt(s, c0).Some? && NoCallEndBetween(s, c, c0) && '>' !in s[c0..CloseAt(s, c0).value.gt]
    ensures FirstClose(s, c) == CloseAt(s, c0)
    decreases c0 - c
  {
    if c < c0 {
      CloseBefore(s, c, c0);
      if CloseAt(s, c).None? {
        FirstCloseFrom(s, c + 1, c0);
      }
    }
  }

  /** Where the parts of `<open>body</name>` lie when it starts at `a` and ends at `e`. */
  lemma MarkupLayout(s: string, a: nat, e: nat, open: string, body: string, name: string) returns (gt: nat, c: nat)
    requires a <= e < |s| && s[a..e + 1] == MarkupText(open, body, name) && '>' !in open
    ensures IndexOf(s, '>', a + 1) == Some(gt) && gt + 1 <= c && c + 2 <= e
    ensures s[gt + 1..c] == body && s[c..e + 1] == "</" + name + ">" && s[c..e] == "</" + name
  {
    gt := a + 1 + |open|;
    c := gt + 1 + |body|;
    Divide(s, a, e + 1, ("<" + open + ">") + body, "</" + name + ">");
    Divide(s, a, c, "<" + open + ">", body);
    AngleLayout(s, a, gt + 1, "<", open);
    AngleLayout(s, c, e + 1, "</", name);
    IndexOfFirst(s, '>', a + 1, gt);
  }

  /** A parenthesized match assembled from its parts. */
  lemma ParenthesizedFromParts(s: string, i: nat, k: nat, p: nat, a: nat, e: nat, end: nat)
    requires i <= |s| && HeadAt(s, i) == Some(Head(k, p)) && ParenthesizedAt(s, p) == Some(Markup(a, e, end))
    ensures MatchAt(Parenthesized, s, i) == Some(Match(end, s[i..k], s[a..e + 1]))
  {
  }

  /** An inline match assembled from its parts. */
  lemma InlineFromParts(s: string, i: nat, k: nat, p: nat, q: nat)
    requires i <= |s| && HeadAt(s, i) == Some(Head(k, p)) && InlineAt(s, p) == Some(q)
    ensures MatchAt(Inline, s, i) == Some(Match(q + 1, s[i..k], s[p..q]))
  {
  }

  /** Where the parts of the parenthesized form lie. */
  lemma ParenthesizedLayout(s: string, i: nat, j: nat, indent: string, ws1: string, ws2: string, jsx: string, ws3: string)
    returns (p: nat, a: nat, e: nat)
    requires i <= j <= |s| && s[i..j] == ParenthesizedText(indent, ws1, ws2, jsx, ws3) && jsx != []
    ensures p == i + |indent| + 6 + |ws1| && a == p + 1 + |ws2| && a <= e && e + 3 <= j
    ensures s[i..p] == indent + "return" + ws1 && s[p] == '(' && s[p + 1..a] == ws2
    ensures s[a..e + 1] == jsx && s[e + 1..j - 2] == ws3 && s[j - 2..j] == ");"
  {
    var t := indent + "return" + ws1;
    p := i + |t|;
    a := p + 1 + |ws2|;
    e := a + |jsx| - 1;
    Divide(s, i, j, t + "(" + ws2 + jsx + ws3, ");");
    Divide(s, i, j - 2, t + "(" + ws2 + jsx, ws3);
    Divide(s, i, e + 1, t + "(" + ws2, jsx);
    Divide(s, i, a, t + "(", ws2);
    Divide(s, i, p + 1, t, "(");
    Single(s, p);
  }

  /** The rest of the parenthesized form is found from `p`. */
  lemma ParenthesizedAtComplete(s: string, p: nat, a: nat, e: nat, end: nat, ws2: string,
                                open: string, body: string, name: string, ws3: string)
    requires p < a <= e && e + 3 <= end <= |s| && s[p] == '(' && s[p + 1..a] == ws2 && AllSpace(ws2)
    requires s[a..e + 1] == MarkupText(open, body, name) && s[e + 1..end - 2] == ws3 && s[end - 2..end] == ");"
    requires AllSpace(ws3) && '>' !in open && name != [] && '>' !in name && !Occurs(body, ");")
    ensures ParenthesizedAt(s, p) == Some(Markup(a, e, end))
  {
    Single(s, a);
    SpaceRunOf(s, p + 1, |ws2|);
    var gt, c := MarkupLayout(s, a, e, open, body, name);
    CloseComplete(s, c, e, end, name, ws3);
    NoCallEndIn(s, gt + 1, c, body);
    assert '>' !in s[c..e] by {
      assert '>' !in "</" + name;
    }
    ParenthesizedAtFromLayout(s, p, a, gt, c, e, end);
  }

  /** The parenthesized form found from where its pieces were shown to lie. */
  lemma ParenthesizedAtFromLayout(s: string, p: nat, a: nat, gt: nat, c: nat, e: nat, end: nat)
    requires p < |s| && s[p] == '(' && a == p + 1 + SpaceRun(s, p + 1) && a < |s| && s[a] == '<'
    requires IndexOf(s, '>', a + 1) == Some(gt) && gt + 1 <= c <= |s| && CloseAt(s, c) == Some(Closing(e, end))
    requires NoCallEndBetween(s, gt + 1, c) && '>' !in s[c..e]
    ensures ParenthesizedAt(s, p) == Some(Markup(a, e, end))
  {
    FirstCloseFrom(s, gt + 1, c);
    MarkupAtFromParts(s, a, gt, e, end);
    ParenthesizedAtFromParts(s, p, a, e, end);
  }

  /** `ParenthesizedAt` assembled from the steps it takes. */
  lemma ParenthesizedAtFromParts(s: string, p: nat, a: nat, e: nat, end: nat)
    requires p < |s| && s[p] == '(' && a == p + 1 + SpaceRun(s, p + 1) && MarkupAt(s, a) == Some(Closing(e, end))
    ensures ParenthesizedAt(s, p) == Some(Markup(a, e, end))
  {
  }

  /** `MarkupAt` assembled from the steps it takes. */
  lemma MarkupAtFromParts(s: string, a: nat, gt: nat, e: nat, end: nat)
    requires a < |s| && s[a] == '<'
    requires IndexOf(s, '>', a + 1) == Some(gt) && gt < |s| && FirstClose(s, gt + 1) == Some(Closing(e, end))
    ensures MarkupAt(s, a) == Some(Closing(e, end))
  {
  }

  /**
   * Every statement `indent return ws1 ( ws2 <open>body</name> ws3 );` at a
   * line start is matched whole, with group 1 `indent` and group 2 the
   * markup, provided `body` does not contain `);` (a closing tag,
   * whitespace and `);` inside it would end the lazy match early).
   */
  lemma ParenthesizedComplete(s: string, i: nat, j: nat, indent: string, ws1: string, ws2: string,
                              open: string, body: string, name: string, ws3: string)
    requires LineStart(s, i) && i <= j <= |s|
    requires s[i..j] == ParenthesizedText(indent, ws1, ws2, MarkupText(open, body, name), ws3)
    requires AllSpace(indent) && ws1 != [] && AllSpace(ws1) && AllSpace(ws2) && AllSpace(ws3)
    requires '>' !in open && name != [] && '>' !in name && !Occurs(body, ");")
    ensures MatchAt(Parenthesized, s, i) == Some(Match(j, indent, MarkupText(open, body, name)))
  {
    var jsx := MarkupText(open, body, name);
    var p, a, e := ParenthesizedLayout(s, i, j, indent, ws1, ws2, jsx, ws3);
    HeadComplete(s, i, p, indent, ws1);
    ParenthesizedAtComplete(s, p, a, e, j, ws2, open, body, name, ws3);
    ParenthesizedFromParts(s, i, i + |indent|, p, a, e, j);
  }

  /** The inline form is found from `p` when `<mid>;` starts there. */
  lemma InlineAtComplete(s: string, p: nat, q: nat, mid: string)
    requires p < q < |s| && s[p..q] == "<" + mid + ">" && s[q] == ';' && mid != [] && ';' !in mid
    ensures InlineAt(s, p) == Some(q)
  {
    Divide(s, p, q, "<" + mid, ">");
    Divide(s, p, q - 1, "<", mid);
    Single(s, p);
    Single(s, q - 1);
    Adjoin(s, p + 1, q - 1, q, mid, ">");
    IndexOfFirst(s, ';', p + 1, q);
  }

  /** Every statement `indent return ws <mid>;` at a line start, with no `;` in `mid`, is matched whole. */
  lemma InlineComplete(s: string, i: nat, j: nat, indent: string, ws: string, mid: string)
    requires LineStart(s, i) && i <= j <= |s| && s[i..j] == InlineText(indent, ws, "<" + mid + ">")
    requires AllSpace(indent) && ws != [] && AllSpace(ws) && mid != [] && ';' !in mid
    ensures MatchAt(Inline, s, i) == Some(Match(j, indent, "<" + mid + ">"))
  {
    var p := InlineLayout(s, i, j, indent, ws, "<" + mid + ">");
    HeadComplete(s, i, p, indent, ws);
    InlineAtComplete(s, p, j - 1, mid);
    InlineFromParts(s, i, i + |indent|, p, j - 1);
  }

  /** Where the parts of the inline form lie. */
  lemma InlineLayout(s: string, i: nat, j: nat, indent: string, ws: string, jsx: string) returns (p: nat)
    requires i <= j <= |s| && s[i..j] == InlineText(indent, ws, jsx) && jsx != [] && jsx[0] == '<'
    ensures p == i + |indent| + 6 + |ws| && p < j && s[i..p] == indent + "return" + ws
    ensures s[p..j - 1] == jsx && s[j - 1] == ';' && s[p] == '<'
  {
    p := i + |indent| + 6 + |ws|;
    Divide(s, i, j, indent + "return" + ws + jsx, ";");
    Divide(s, i, j - 1, indent + "return" + ws, jsx);
    Single(s, j - 1);
    assert s[p] == jsx[0] by { assert s[p] == s[p..j - 1][0]; }
  }

  // ---------------------------------------------------------------------
  // The passes

  /** Joining steps joins their texts. */
  lemma {:induction false} RenderAppend(a: seq<Step>, b: seq<Step>, repl: Match -> string)
    ensures Render(a + b, repl) == Render(a, repl) + Render(b, repl)
    decreases |a|
  {
    if a != [] {
      assert (a + b)[0] == a[0] && (a + b)[1..] == a[1..] + b;
      RenderAppend(a[1..], b, repl);
      var h := StepText(a[0], repl);
      assert Render(a + b, repl) == h + (Render(a[1..], repl) + Render(b, repl));
    } else {
      assert a + b == b;
    }
  }

  /** Copy steps render as the text they copy. */
  lemma {:induction false} RenderCopies(t: string, repl: Match -> string)
    ensures Render(Copies(t), repl) == t
    decreases |t|
  {
    if t != [] {
      RenderCopies(t[1..], repl);
    }
  }

  /** A match is replaced and the scan resumes after it. */
  lemma RewriteMatch(pat: Pattern, s: string, i: nat)
    requires i <= |s| && MatchAt(pat, s, i).Some?
    ensures Rewrite(pat, s, i) == Replacement(MatchAt(pat, s, i).value) + Rewrite(pat, s, MatchAt(pat, s, i).value.end)
  {
    var m := MatchAt(pat, s, i).value;
    assert Scan(pat, s, i) == [Substitute(m)] + Scan(pat, s, m.end);
    RenderAppend([Substitute(m)], Scan(pat, s, m.end), Replacement);
    assert Render([Substitute(m)], Replacement) == Replacement(m) by {
      assert [Substitute(m)][1..] == [];
    }
  }

  /** A pass copies a stretch of one line where nothing matches at its start. */
  lemma RewriteWithinLine(pat: Pattern, s: string, i: nat, j: nat)
    requires i <= j <= |s| && '\n' !in s[i..j] && (i < j ==> MatchAt(pat, s, i).None?)
    ensures Rewrite(pat, s, i) == s[i..j] + Rewrite(pat, s, j)
  {
    ScanWithinLine(pat, s, i, j);
    RenderAppend(Copies(s[i..j]), Scan(pat, s, j), Replacement);
    RenderCopies(s[i..j], Replacement);
  }

  /** The steps of a stretch of one line where nothing matches at its start are copies. */
  lemma {:induction false} ScanWithinLine(pat: Pattern, s: string, i: nat, j: nat)
    requires i <= j <= |s| && '\n' !in s[i..j] && (i < j ==> MatchAt(pat, s, i).None?)
    ensures Scan(pat, s, i) == Copies(s[i..j]) + Scan(pat, s, j)
    decreases j - i
  {
    if i < j {
      assert s[i] != '\n' && '\n' !in s[i + 1..j] && Copies(s[i..j]) == [Copy(s[i])] + Copies(s[i + 1..j]) by {
        assert s[i] == s[i..j][0] && s[i + 1..j] == s[i..j][1..];
      }
      if i + 1 < j {
        NoMatchInsideLine(pat, s, i + 1);
      }
      ScanWithinLine(pat, s, i + 1, j);
    }
  }

  /** Nothing matches away from a line start. */
  lemma NoMatchInsideLine(pat: Pattern, s: string, i: nat)
    requires 0 < i <= |s| && s[i - 1] != '\n'
    ensures MatchAt(pat, s, i).None?
  {
  }

  /** A parenthesized return statement is replaced by `indent return <conversion>;`. */
  lemma ParenthesizedRewritten(s: string, i: nat, j: nat, indent: string, ws1: string, ws2: string,
                               open: string, body: string, name: string, ws3: string)
    requires LineStart(s, i) && i <= j <= |s|
    requires s[i..j] == ParenthesizedText(indent, ws1, ws2, MarkupText(open, body, name), ws3)
    requires AllSpace(indent) && ws1 != [] && AllSpace(ws1) && AllSpace(ws2) && AllSpace(ws3)
    requires '>' !in open && name != [] && '>' !in name && !Occurs(body, ");")
    ensures Rewrite(Parenthesized, s, i) ==
      indent + "return " + ConvertElement(Strip(MarkupText(open, body, name)), indent + "  ") + ";" +
      Rewrite(Parenthesized, s, j)
  {
    ParenthesizedComplete(s, i, j, indent, ws1, ws2, open, body, name, ws3);
    RewriteMatch(Parenthesized, s, i);
  }

  /** An inline return statement is replaced by `indent return <conversion>;`. */
  lemma InlineRewritten(s: string, i: nat, j: nat, indent: string, ws: string, mid: string)
    requires LineStart(s, i) && i <= j <= |s| && s[i..j] == InlineText(indent, ws, "<" + mid + ">")
    requires AllSpace(indent) && ws != [] && AllSpace(ws) && mid != [] && ';' !in mid
    ensures Rewrite(Inline, s, i) ==
      indent + "return " + ConvertElement(Strip("<" + mid + ">"), indent + "  ") + ";" + Rewrite(Inline, s, j)
  {
    InlineComplete(s, i, j, indent, ws, mid);
    RewriteMatch(Inline, s, i);
  }

  /** The expression opens with `(`, whitespace and `<`, as the parenthesized form does. */
  predicate OpensMarkup(expr: string) {
    |expr| > 0 && expr[0] == '(' && exists k :: 1 <= k < |expr| && AllSpace(expr[1..k]) && expr[k] == '<'
  }

  /**
   * A one-line return statement whose expression starts neither with `<` nor
   * with `(` and whitespace followed by `<`, such as `return x + 1;` or
   * `return (a + b);`, is copied by either pass.
   */
  lemma OtherReturnKept(pat: Pattern, s: string, i: nat, j: nat, indent: string, ws: string, expr: string)
    requires LineStart(s, i) && i <= j <= |s| && s[i..j] == InlineText(indent, ws, expr) && '\n' !in s[i..j]
    requires AllSpace(indent) && ws != [] && AllSpace(ws)
    requires expr != [] && !IsSpace(expr[0]) && expr[0] != '<' && !OpensMarkup(expr)
    ensures Rewrite(pat, s, i) == s[i..j] + Rewrite(pat, s, j)
  {
    var p := i + |indent| + 6 + |ws|;
    Divide(s, i, j, indent + "return" + ws + expr, ";");
    Divide(s, i, j - 1, indent + "return" + ws, expr);
    assert s[p] == expr[0] by { assert s[p] == s[p..j - 1][0]; }
    Single(s, j - 1);
    HeadComplete(s, i, p, indent, ws);
    if expr[0] == '(' {
      NoMarkupAfterParen(s, p, j, expr);
    }
    RewriteWithinLine(pat, s, i, j);
  }

  /** After `(` and whitespace the expression goes on with something other than `<`, so no markup starts. */
  lemma NoMarkupAfterParen(s: string, p: nat, j: nat, expr: string)
    requires p + 1 < j <= |s| && s[p..j - 1] == expr && s[j - 1] == ';' && expr[0] == '(' && !OpensMarkup(expr)
    ensures ParenthesizedAt(s, p).None?
  {
    var a := p + 1 + SpaceRun(s, p + 1);
    SpaceRunStops(s, p + 1, j - 1);
    if a < j - 1 {
      SpaceRunSpace(s, p + 1);
      SpaceThenOther(s, p, j, a, expr);
    }
    NoMarkupAt(s, p, a);
  }

  /** The character after the whitespace that follows `(` is not `<`. */
  lemma SpaceThenOther(s: string, p: nat, j: nat, a: nat, expr: string)
    requires p < a < j - 1 && j <= |s| && s[p..j - 1] == expr && expr[0] == '(' && AllSpace(s[p + 1..a]) && !OpensMarkup(expr)
    ensures s[a] != '<'
  {
    var k := a - p;
    assert expr[k] == s[a] by { assert s[a] == s[p..j - 1][k]; }
    SliceOfSlice(s, p, j - 1, 1, k);
    assert !(AllSpace(expr[1..k]) && expr[k] == '<');
  }

  /** The parenthesized form fails when no `<` follows `(` and its whitespace. */
  lemma NoMarkupAt(s: string, p: nat, a: nat)
    requires p < |s| && a == p + 1 + SpaceRun(s, p + 1) && a < |s| && s[a] != '<'
    ensures ParenthesizedAt(s, p).None?
  {
    assert MarkupAt(s, a).None?;
  }

  /** Without markup nothing matches. */
  lemma NoMarkupNoMatch(pat: Pattern, s: string, i: nat)
    requires i <= |s| && '<' !in s
    ensures MatchAt(pat, s, i).None?
  {
    if HeadAt(s, i).Some? {
      var p := HeadAt(s, i).value.p;
      if pat == Parenthesized && ParenthesizedAt(s, p).Some? {
        var a, gt, c := ParenthesizedParts(s, p);
      }
    }
  }

  /** Both passes leave text without markup unchanged. */
  lemma RewriteNoMarkup(pat: Pattern, s: string, i: nat)
    requires i <= |s| && '<' !in s
    ensures Rewrite(pat, s, i) == s[i..]
  {
    ScanNoMarkup(pat, s, i);
    RenderCopies(s[i..], Replacement);
  }

  /** Without markup every step copies. */
  lemma {:induction false} ScanNoMarkup(pat: Pattern, s: string, i: nat)
    requires i <= |s| && '<' !in s
    ensures Scan(pat, s, i) == Copies(s[i..])
    decreases |s| - i
  {
    if i < |s| {
      NoMarkupNoMatch(pat, s, i);
      ScanNoMarkup(pat, s, i + 1);
      assert s[i..][1..] == s[i + 1..];
    }
  }

  /** Text without markup passes both rewrites unchanged. */
  lemma ReturnsWithoutMarkup(s: string)
    requires '<' !in s
    ensures RewriteReturns(s) == s
  {
    RewriteNoMarkup(Parenthesized, s, 0);
    RewriteNoMarkup(Inline, s, 0);
  }
}
