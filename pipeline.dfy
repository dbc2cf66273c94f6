/**
 * The whole conversion, `convert_jsx_to_createElement` (convert_jsx.py,
 * lines 5-48): brace spans are masked, the two return rewrites run, and
 * the spans are put back.
 */
module Pipeline {
  import opened Text
  import opened Protection
  import opened Attributes
  import opened Elements
  import opened Returns

  /** What the conversion computes for `content`. */
  function Convert(content: string): string {
    RestoreFrom(RewriteReturns(Mask(content, 0, 0)), Spans(content), 0)
  }

  /** The conversion, step by step as the source performs it. */
  method ConvertJsxToCreateElement(content: string) returns (result: string)
    ensures result == Convert(content)
    ensures '<' !in content && !Occurs(content, "PROTECTED") ==> result == content
  {
    var masked, table := Protect(content);
    var text := Rewrite(Parenthesized, masked, 0);
    text := Rewrite(Inline, text, 0);
    result := Restore(text, table);
    if '<' !in content && !Occurs(content, "PROTECTED") {
      ConvertWithoutMarkup(content);
    }
  }

  /** Masking brings in no `<`: placeholders are word characters. */
  lemma {:induction false} MaskWithoutMarkup(s: string, n: nat, k: nat)
    requires '<' !in s
    ensures '<' !in Mask(s, n, k)
    decreases |s|
  {
    if s != [] {
      match BraceSpanAt(s)
      case Some(len) =>
        assert '<' !in s[..len] && '<' !in s[len..] by {
          assert s == s[..len] + s[len..];
        }
        PlaceholderIsWord(n);
        MaskWithoutMarkup(s[len..], n + 1, k);
      case None =>
        assert '<' !in s[1..] by {
          assert s == [s[0]] + s[1..];
        }
        MaskWithoutMarkup(s[1..], n, k);
    }
  }

  /** Text without markup and without the word `PROTECTED` comes out unchanged. */
  lemma ConvertWithoutMarkup(content: string)
    requires '<' !in content && !Occurs(content, "PROTECTED")
    ensures Convert(content) == content
  {
    MaskWithoutMarkup(content, 0, 0);
    ConvertMaskedWithoutMarkup(content);
  }

  /**
   * Markup that lies inside brace spans is masked before the rewrites run:
   * when the masked text has no `<`, the conversion changes nothing.
   */
  lemma ConvertMaskedWithoutMarkup(content: string)
    requires '<' !in Mask(content, 0, 0) && !Occurs(content, "PROTECTED")
    ensures Convert(content) == content
  {
    ReturnsWithoutMarkup(Mask(content, 0, 0));
    RoundTrip(content);
  }

  /**
   * Text without `{` and `<` followed by one brace span, such as a function
   * header and a body without inner braces, comes out unchanged, whatever
   * markup the span holds: the span is masked whole before the rewrites run.
   */
  lemma BodyMaskedWhole(head: string, body: string)
    requires '{' !in head && '<' !in head && IsBraceSpan(body) && !Occurs(head + body, "PROTECTED")
    ensures Convert(head + body) == head + body
  {
    assert body + [] == body;
    PlainFront(head, body, 0, 0);
    SpanFront(body, [], 0, 0);
    assert Mask(head + body, 0, 0) == head + Placeholder(0);
    PlaceholderIsWord(0);
    assert '<' !in head + Placeholder(0);
    ConvertMaskedWithoutMarkup(head + body);
  }

  /** `f() {\n  return <a/>;\n}` is returned as it is: its return statement is never converted. */
  lemma FunctionBodyKept(content: string)
    requires content == "f() {\n  return <a/>;\n}"
    ensures Convert(content) == content
  {
    var head, body := "f() ", "{\n  return <a/>;\n}";
    FunctionBodyParts(content, head, body);
    BodyMaskedWhole(head, body);
  }

  /** The function example is a brace-free header followed by one brace span. */
  lemma FunctionBodyParts(content: string, head: string, body: string)
    requires content == "f() {\n  return <a/>;\n}" && head == "f() " && body == "{\n  return <a/>;\n}"
    ensures content == head + body && '{' !in head && '<' !in head
    ensures IsBraceSpan(body) && !Occurs(head + body, "PROTECTED")
  {
    assert content == head + body;
    BodyIsSpan(body);
    assert 'P' !in content by { assert 'P' !in head && 'P' !in body; }
    AbsentWithoutFirst(content, "PROTECTED");
  }

  /** The body of the function example is one brace span. */
  lemma BodyIsSpan(body: string)
    requires body == "{\n  return <a/>;\n}"
    ensures IsBraceSpan(body)
  {
    assert body[1..|body| - 1] == "\n  return <a/>;\n";
  }

  /**
   * `return <a onClick={fn}/>;`: the span is masked before the inline pass
   * converts the element, so the attribute pattern reads two bare names, and
   * restoration puts the span back as the second key.
   */
  lemma BraceAttributeExample(content: string)
    requires content == "return <a onClick={fn}/>;"
    ensures Convert(content) == "return " + ShortCall("a", "{ onClick: true, " + ("{fn}" + ": true }")) + ";"
  {
    var u, t, v := "return <a onClick=", "{fn}", "/>;";
    var p := Placeholder(0);
    var masked := u + (p + v);
    AttributeContentMasked(content, u, t, v, p);
    MaskedAttributeExample(p, masked);
    var head, tail := "return " + CallHead + "'a', " + "{ onClick: true, ", ": true }" + ")" + ";";
    AttributeCallText(p, head, tail);
    AttributeCallText(t, head, tail);
    RestorePlaceholder(p, head, tail, t);
  }

  /** Masking the attribute example takes out its one span. */
  lemma AttributeContentMasked(content: string, u: string, t: string, v: string, p: string)
    requires content == "return <a onClick={fn}/>;" && u == "return <a onClick=" && t == "{fn}" && v == "/>;"
    requires p == Placeholder(0)
    ensures Mask(content, 0, 0) == u + (p + v) && Spans(content) == [t]
  {
    AttributeContentParts(content, u, t, v);
    MaskOneSpan(u, t, v, p);
  }

  /** The attribute example is brace-free text, one brace span and brace-free text. */
  lemma AttributeContentParts(content: string, u: string, t: string, v: string)
    requires content == "return <a onClick={fn}/>;" && u == "return <a onClick=" && t == "{fn}" && v == "/>;"
    ensures content == u + (t + v) && '{' !in u && '{' !in v && IsBraceSpan(t)
  {
    assert t[1..|t| - 1] == "fn";
  }

  /** Masking brace-free text, one brace span and brace-free text takes out the span alone. */
  lemma MaskOneSpan(u: string, t: string, v: string, p: string)
    requires '{' !in u && '{' !in v && IsBraceSpan(t) && p == Placeholder(0)
    ensures Mask(u + (t + v), 0, 0) == u + (p + v) && Spans(u + (t + v)) == [t]
  {
    PlainFront(u, t + v, 0, 0);
    SpanFront(t, v, 0, 0);
    NothingToProtect(v, 1, 0);
  }

  /** The converted statement around the second key `x`, and the text on either side of it, which holds no `_`. */
  lemma AttributeCallText(x: string, head: string, tail: string)
    requires head == "return " + CallHead + "'a', " + "{ onClick: true, " && tail == ": true }" + ")" + ";"
    ensures "return " + ShortCall("a", "{ onClick: true, " + (x + ": true }")) + ";" == head + (x + tail)
    ensures '_' !in head && '_' !in tail
  {
    assert '_' !in CallHead;
  }

  /** Both rewrites on the masked statement `return <a onClick=__PROTECTED_0__/>;`. */
  lemma MaskedAttributeExample(p: string, masked: string)
    requires p == Placeholder(0) && masked == "return <a onClick=" + (p + "/>;")
    ensures RewriteReturns(masked) == "return " + ShortCall("a", "{ onClick: true, " + (p + ": true }")) + ";"
  {
    var attrs := " onClick=" + p;
    var mid := "a" + attrs + "/";
    MaskedStatementShape(p, masked, attrs, mid);
    assert AllSpace("") && AllSpace(" ");
    assert "" + "  " == "  " && "" + "return " == "return ";
    var jsx := "<" + mid + ">";
    InlineStatementPasses(masked, "", " ", mid);
    MaskedElementExample(p, attrs, mid, jsx);
  }

  /** The masked statement is a one-line inline return statement. */
  lemma MaskedStatementShape(p: string, masked: string, attrs: string, mid: string)
    requires p == Placeholder(0) && masked == "return <a onClick=" + (p + "/>;")
    requires attrs == " onClick=" + p && mid == "a" + attrs + "/"
    ensures masked == InlineText("", " ", "<" + mid + ">") && '\n' !in masked && ';' !in mid
  {
    PlaceholderStops(p);
    assert '\n' !in masked && ';' !in mid by {
      assert '\n' !in "return <a onClick=" && '\n' !in "/>;";
    }
    MaskedStatementText(p, masked, attrs, mid);
  }

  /** The masked statement written as the inline form's parts. */
  lemma MaskedStatementText(p: string, masked: string, attrs: string, mid: string)
    requires masked == "return <a onClick=" + (p + "/>;") && attrs == " onClick=" + p && mid == "a" + attrs + "/"
    ensures masked == InlineText("", " ", "<" + mid + ">")
  {
    assert "<" + mid + ">" + ";" == "<a onClick=" + (p + "/>;");
  }

  /** A placeholder holds neither a newline nor a `;`, so it neither ends a line nor a statement. */
  lemma PlaceholderStops(p: string)
    requires p == Placeholder(0)
    ensures '\n' !in p && ';' !in p
  {
    PlaceholderIsWord(0);
  }

  /** The element `<a onClick=__PROTECTED_0__/>` becomes a call whose props hold two bare names. */
  lemma MaskedElementExample(p: string, attrs: string, mid: string, jsx: string)
    requires p == Placeholder(0) && attrs == " onClick=" + p && mid == "a" + attrs + "/" && jsx == "<" + mid + ">"
    ensures ConvertElement(Strip(jsx), "  ") == ShortCall("a", "{ onClick: true, " + (p + ": true }"))
  {
    assert TagParts("a", attrs) by {
      PlaceholderIsWord(0);
      assert '>' !in attrs && attrs[0] == ' ';
    }
    assert jsx == SelfClosingText("a", attrs);
    StripUnchanged(jsx);
    MaskedProps(0, p, attrs);
    ConvertSelfClosing("a", attrs, "  ");
  }

  /** The props of ` onClick=__PROTECTED_n__`. */
  lemma MaskedProps(n: nat, p: string, attrs: string)
    requires p == Placeholder(n) && attrs == " onClick=" + p
    ensures Props(attrs) == "{ onClick: true, " + (p + ": true }")
  {
    assert " onClick=" == " " + "onClick" + "=";
    PlaceholderValue("onClick", n);
    assert Key("onClick") == "onClick" by {
      assert '-' !in "onClick";
    }
    PropsText(p);
  }

  /** The object literal of `onClick` and a second bare name, written as one text around that name. */
  lemma PropsText(p: string)
    ensures "{ " + ("onClick" + ": true") + ", " + (p + ": true") + " }" == "{ onClick: true, " + (p + ": true }")
  {
    var x := "{ " + ("onClick" + ": true") + ", ";
    assert x == "{ onClick: true, ";
    assert x + (p + ": true") + " }" == x + (p + (": true" + " }"));
  }

  /** Restoring a table of one span puts it back where its placeholder stands, when `_` occurs nowhere else. */
  lemma RestorePlaceholder(p: string, head: string, tail: string, t: string)
    requires p == Placeholder(0) && '_' !in head && '_' !in tail
    ensures RestoreFrom(head + (p + tail), [t], 0) == head + (t + tail)
  {
    assert p[0] == '_' by { assert p[0] == p[..12][0]; }
    ReplaceSkipPlain(head, p + tail, p, t);
    ReplaceHit(p, tail, t);
    AbsentWithoutFirst(tail, p);
    ReplaceAbsent(tail, p, t);
  }

  /** The parenthesized pass copies a one-line inline statement; the inline pass converts it. */
  lemma InlineStatementPasses(s: string, indent: string, ws: string, mid: string)
    requires s == InlineText(indent, ws, "<" + mid + ">") && '\n' !in s
    requires AllSpace(indent) && ws != [] && AllSpace(ws) && mid != [] && ';' !in mid
    ensures RewriteReturns(s) == indent + "return " + ConvertElement(Strip("<" + mid + ">"), indent + "  ") + ";"
  {
    NoParenthesizedMatch(s, indent, ws, mid);
    RewriteWithinLine(Parenthesized, s, 0, |s|);
    assert Rewrite(Parenthesized, s, |s|) == [];
    assert Rewrite(Parenthesized, s, 0) == s by { assert s[0..|s|] == s; }
    InlineRewritten(s, 0, |s|, indent, ws, mid);
    assert Rewrite(Inline, s, |s|) == [];
  }

  /**
   * A file that is one brace-free inline return statement comes back as that
   * statement with its markup converted: nothing is masked, the inline pass
   * converts the element, and restoring an empty table changes nothing.
   */
  lemma ConvertInlineStatement(s: string, indent: string, ws: string, mid: string)
    requires s == InlineText(indent, ws, "<" + mid + ">") && '\n' !in s && '{' !in s
    requires AllSpace(indent) && ws != [] && AllSpace(ws) && mid != [] && ';' !in mid
    ensures Convert(s) == indent + "return " + ConvertElement(Strip("<" + mid + ">"), indent + "  ") + ";"
  {
    NothingToProtect(s, 0, 0);
    InlineStatementPasses(s, indent, ws, mid);
  }

  /** At the start of an inline statement the parenthesized form does not match. */
  lemma NoParenthesizedMatch(s: string, indent: string, ws: string, mid: string)
    requires s == InlineText(indent, ws, "<" + mid + ">")
    requires AllSpace(indent) && ws != [] && AllSpace(ws)
    ensures MatchAt(Parenthesized, s, 0).None?
  {
    var p := |indent| + 6 + |ws|;
    Divide(s, 0, |s|, indent + "return" + ws + ("<" + mid + ">"), ";");
    Divide(s, 0, |s| - 1, indent + "return" + ws, "<" + mid + ">");
    assert s[p] == '<' by { assert s[p] == s[p..|s| - 1][0]; }
    HeadComplete(s, 0, p, indent, ws);
  }
}
