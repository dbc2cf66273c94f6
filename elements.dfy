/**
 * Element conversion (`convert_jsx_element` and `convert_children`,
 * convert_jsx.py, lines 50-79 and 116-127). The stripped JSX text is
 * classified, in this order, as a self-closing tag `<tag attrs/>`, as an
 * element `<tag attrs>children</tag>` whose closing name repeats the opening
 * one, or as anything else, which is returned unchanged.
 */
module Elements {
  import opened Text
  import opened Attributes

  const CallHead: string := "React.createElement("

  /** Text of the form `React.createElement(...)`. */
  predicate IsCall(r: string) {
    |r| > |CallHead| && r[..|CallHead|] == CallHead && r[|r| - 1] == ')'
  }

  /** `convert_children`: the children text in single quotes, stripped unless it holds a `<`. */
  function ConvertChildren(children: string, indent: string): (r: string)
    ensures |r| >= 2 && r[0] == '\'' && r[|r| - 1] == '\''
    ensures '<' !in children ==> r[1..|r| - 1] == Strip(children)
    ensures '<' in children ==> r[1..|r| - 1] == children
  {
    if '<' !in children then "'" + Strip(children) + "'" else "'" + children + "'"
  }

  /**
   * `^<(\w+)([^>]*?)\/>\s*$` on `j`: the tag and the attribute text. The tag
   * is the whole word run after `<` (a shorter one leaves the rest of the
   * conditions as they are); the attribute text runs up to the first `>`,
   * which must close `/>` with only whitespace after it.
   */
  function SelfClosingMatch(j: string): (r: Option<(string, string)>)
  {
    if |j| >= 2 && j[0] == '<' && IsWordChar(j[1]) then
      var tagEnd := 1 + WordRun(j[1..]);
      match IndexOf(j, '>', tagEnd)
      case Some(q) =>
        if q - 1 >= tagEnd && j[q - 1] == '/' && AllSpace(j[q + 1..]) then Some((j[1..tagEnd], j[tagEnd..q - 1]))
        else None
      case None => None
    else None
  }

  /** The element closes with `</` + the first `len` characters of the word run + `>` ending at `end`, after the `>` at `x`. */
  predicate ClosesWith(j: string, x: nat, end: nat, len: nat)
    requires 1 + len <= |j| && end <= |j|
  {
    x + 1 + len + 3 <= end && j[end - len - 3..end] == "</" + j[1..1 + len] + ">"
  }

  /** The backreference `\1` tried with the word run shortened one character at a time, longest first. */
  function TagSearch(j: string, x: nat, end: nat, len: nat): (r: Option<nat>)
    requires 1 + len <= |j| && end <= |j|
    ensures r.Some? ==> 0 < r.value <= len && ClosesWith(j, x, end, r.value)
  {
    if len == 0 then None
    else if ClosesWith(j, x, end, len) then Some(len)
    else TagSearch(j, x, end, len - 1)
  }

  /** The length found is the longest that closes; when none is found, no length closes. */
  lemma {:induction false} TagSearchLongest(j: string, x: nat, end: nat, len: nat)
    requires 1 + len <= |j| && end <= |j|
    ensures TagSearch(j, x, end, len).Some? ==>
      forall k :: TagSearch(j, x, end, len).value < k <= len ==> !ClosesWith(j, x, end, k)
    ensures TagSearch(j, x, end, len).None? ==> forall k :: 0 < k <= len ==> !ClosesWith(j, x, end, k)
  {
    if len > 0 && !ClosesWith(j, x, end, len) {
      TagSearchLongest(j, x, end, len - 1);
    }
  }

  /**
   * The positions an element match fixes: the tag length `len`, the first
   * `>` at `x` and the end `end` of the text without its trailing whitespace.
   */
  function ElementSplit(j: string): (r: Option<(nat, nat, nat)>)
    ensures r.Some? ==> 0 < r.value.0 && 1 + r.value.0 <= r.value.1 && r.value.1 + 1 + r.value.0 + 3 <= r.value.2 <= |j|
  {
    if |j| >= 2 && j[0] == '<' && IsWordChar(j[1]) then
      var w := WordRun(j[1..]);
      match IndexOf(j, '>', 1)
      case Some(x) =>
        var end := |TrimEnd(j)|;
        (match TagSearch(j, x, end, w)
         case Some(len) =>
           assert 1 + len <= x by {
             WordRunWord(j[1..]);
             assert j[1 + len - 1] == j[1..][..w][len - 1];
           }
           Some((len, x, end))
         case None => None)
      case None => None
    else None
  }

  /**
   * `^<(\w+)([^>]*?)>([\s\S]*)<\/\1>\s*$` on `j`: the tag, the attribute text
   * and the children. The attribute text ends at the first `>`; the closing
   * tag is the last one, just before the trailing whitespace.
   */
  function ElementMatch(j: string): (r: Option<(string, string, string)>)
  {
    match ElementSplit(j)
    case Some((len, x, end)) => Some((j[1..1 + len], j[1 + len..x], j[x + 1..end - len - 3]))
    case None => None
  }

  /** The two-argument call for an element without children. */
  function ShortCall(tag: string, props: string): (r: string)
    ensures IsCall(r)
  {
    CallHead + "'" + tag + "', " + props + ")"
  }

  /** The three-argument call, one argument per line, for an element with children. */
  function LongCall(tag: string, props: string, children: string, indent: string): (r: string)
    ensures IsCall(r)
  {
    CallHead + "\n" + indent + "  '" + tag + "',\n" + indent + "  " + props + ",\n" + indent + "  " + children + "\n" + indent + ")"
  }

  /** `convert_jsx_element`: the `React.createElement` call for `jsx`, or `jsx` itself. */
  function ConvertElement(jsx: string, indent: string): (r: string)
    ensures r == jsx || IsCall(r)
  {
    var j := Strip(jsx);
    match SelfClosingMatch(j)
    case Some((tag, attrs)) => ShortCall(tag, Props(attrs))
    case None =>
      (match ElementMatch(j)
       case Some((tag, attrs, children)) =>
         var props := Props(attrs);
         if Strip(children) != [] then
           var converted := ConvertChildren(Strip(children), indent + "  ");
           if converted != [] then LongCall(tag, props, converted, indent) else ShortCall(tag, props)
         else ShortCall(tag, props)
       case None => jsx)
  }

  // ---------------------------------------------------------------------
  // What each pattern accepts

  /** `<tag attrs/>` */
  function SelfClosingText(tag: string, attrs: string): string {
    "<" + tag + attrs + "/>"
  }

  /** `<tag attrs>` */
  function OpeningTag(tag: string, attrs: string): string {
    "<" + tag + attrs + ">"
  }

  /** `</tag>` */
  function ClosingTag(tag: string): string {
    "</" + tag + ">"
  }

  /** `<tag attrs>children</tag>` */
  function ElementText(tag: string, attrs: string, children: string): string {
    OpeningTag(tag, attrs) + children + ClosingTag(tag)
  }

  /** A self-closing match is `<tag attrs/>` followed by whitespace, with `tag` the whole word run. */
  lemma SelfClosingSound(j: string)
    requires SelfClosingMatch(j).Some?
    ensures var (tag, attrs) := SelfClosingMatch(j).value;
      var n := |tag| + |attrs| + 3;
      n <= |j| && j[..n] == SelfClosingText(tag, attrs) && AllSpace(j[n..]) &&
      tag != [] && AllWord(tag) && '>' !in attrs && (attrs == [] || !IsWordChar(attrs[0]))
  {
    var tagEnd := 1 + WordRun(j[1..]);
    var q := IndexOf(j, '>', tagEnd).value;
    var (tag, attrs) := SelfClosingMatch(j).value;
    WordRunWord(j[1..]);
    IndexOfSound(j, '>', tagEnd);
    assert tag == j[1..tagEnd] && attrs == j[tagEnd..q - 1];
    assert AllWord(tag) by {
      forall k | 0 <= k < |tag| ensures IsWordChar(tag[k]) {
        assert tag[k] == j[1..][..tagEnd - 1][k];
      }
    }
    assert '>' !in attrs by {
      forall k | 0 <= k < |attrs| ensures attrs[k] != '>' {
        assert attrs[k] == j[tagEnd..q][k];
      }
    }
    if attrs != [] {
      assert attrs[0] == j[1..][tagEnd - 1];
    }
    assert j[..q + 1] == "<" + tag + attrs + "/>";
  }

  /**
   * What a text that starts with `<tag attrs` fixes, when the attribute text
   * does not continue the tag name and the next character is `c`: the word
   * run after `<` is `tag`, and no `>` comes before position `x`.
   */
  lemma OpeningFacts(j: string, tag: string, attrs: string, c: char)
    requires tag != [] && AllWord(tag) && '>' !in attrs && (attrs == [] || !IsWordChar(attrs[0]))
    requires !IsWordChar(c)
    requires |j| > 1 + |tag| + |attrs| && j[..1 + |tag| + |attrs| + 1] == "<" + tag + attrs + [c]
    ensures var x := 1 + |tag| + |attrs|;
      j[0] == '<' && IsWordChar(j[1]) && WordRun(j[1..]) == |tag| && j[1..1 + |tag|] == tag &&
      j[1 + |tag|..x] == attrs && '>' !in j[1 + |tag|..x] && j[x] == c
  {
    var x := 1 + |tag| + |attrs|;
    var o := "<" + tag + attrs + [c];
    var head := "<" + tag;
    assert j[0] == o[0] && j[x] == o[x];
    assert j[1..1 + |tag|] == tag by {
      SliceOfSlice(j, 0, x + 1, 1, 1 + |tag|);
      SliceLeft(head + attrs, [c], 1, 1 + |tag|);
      SliceLeft(head, attrs, 1, 1 + |tag|);
    }
    assert j[1 + |tag|..x] == attrs by {
      SliceOfSlice(j, 0, x + 1, 1 + |tag|, x);
      SliceLeft(head + attrs, [c], 1 + |tag|, x);
      SliceRight(head, attrs, 1 + |tag|, x);
    }
    assert j[1] == tag[0];
    assert j[1..][..|tag|] == j[1..1 + |tag|];
    assert j[1 + |tag|] == if attrs == [] then c else attrs[0];
    WordRunAt(j[1..], |tag|);
  }

  /** `<tag attrs/>` followed by whitespace is a self-closing match with that tag and attribute text. */
  lemma SelfClosingComplete(tag: string, attrs: string, tail: string)
    requires tag != [] && AllWord(tag) && '>' !in attrs && (attrs == [] || !IsWordChar(attrs[0]))
    requires AllSpace(tail)
    ensures SelfClosingMatch(SelfClosingText(tag, attrs) + tail) == Some((tag, attrs))
  {
    var t := SelfClosingText(tag, attrs);
    var j := t + tail;
    var tagEnd := 1 + |tag|;
    var q := tagEnd + |attrs| + 1;
    assert j[..q] == "<" + tag + attrs + "/" by {
      SliceLeft(t, tail, 0, q);
      assert t == ("<" + tag + attrs + "/") + ">";
    }
    OpeningFacts(j, tag, attrs, '/');
    assert j[q] == '>' && j[q + 1..] == tail by {
      assert t[q] == '>';
      SliceRight(t, tail, q + 1, |j|);
    }
    assert '>' !in j[tagEnd..q] by {
      assert j[tagEnd..q] == j[tagEnd..q - 1] + [j[q - 1]];
    }
    IndexOfFirst(j, '>', tagEnd, q);
  }

  /** The parts an element match takes out of `j`, by position. */
  lemma ElementPositions(j: string) returns (len: nat, x: nat, end: nat)
    requires ElementSplit(j).Some?
    ensures (len, x, end) == ElementSplit(j).value
    ensures j[0] == '<' && j[x] == '>' && '>' !in j[1..x] && AllWord(j[1..1 + len])
    ensures j[end - len - 3..end] == "</" + j[1..1 + len] + ">" && AllSpace(j[end..])
  {
    var w := WordRun(j[1..]);
    x := IndexOf(j, '>', 1).value;
    end := |TrimEnd(j)|;
    len := TagSearch(j, x, end, w).value;
    WordRunWord(j[1..]);
    IndexOfSound(j, '>', 1);
    TrimEndSpace(j);
    var tag := j[1..1 + len];
    forall k | 0 <= k < len ensures IsWordChar(tag[k]) {
      assert tag[k] == j[1..][..w][k];
    }
  }

  /**
   * An element match is `<tag attrs>children</tag>` followed by whitespace,
   * read off position by position: the closing name repeats the opening one
   * and the attribute text holds no `>`.
   */
  lemma ElementSound(j: string)
    requires ElementMatch(j).Some?
    ensures var (tag, attrs, children) := ElementMatch(j).value;
      var x := 1 + |tag| + |attrs|;
      var m := x + 1 + |children|;
      m + |tag| + 3 <= |j| &&
      j[0] == '<' && j[1..1 + |tag|] == tag && j[1 + |tag|..x] == attrs && j[x] == '>' &&
      j[x + 1..m] == children && j[m..m + |tag| + 3] == ClosingTag(tag) && AllSpace(j[m + |tag| + 3..]) &&
      tag != [] && AllWord(tag) && '>' !in attrs
  {
    var len, x, end := ElementPositions(j);
    var attrs := j[1 + len..x];
    assert '>' !in attrs by {
      forall k | 0 <= k < |attrs| ensures attrs[k] != '>' {
        assert attrs[k] == j[1..x][len + k];
      }
    }
  }

  lemma ClosesAt(j: string, x: nat, m: nat, tag: string)
    requires x + 1 <= m && m + |tag| + 3 <= |j| && 1 + |tag| <= |j|
    requires j[m..m + |tag| + 3] == ClosingTag(tag) && j[1..1 + |tag|] == tag
    ensures ClosesWith(j, x, m + |tag| + 3, |tag|)
  {
  }

  lemma SplitAt(j: string, tag: string, attrs: string, m: nat)
    requires OpeningAt(j, tag, attrs) && 1 + |tag| + |attrs| + 1 <= m && ClosingAt(j, tag, m)
    ensures ElementSplit(j) == Some((|tag|, 1 + |tag| + |attrs|, m + |tag| + 3))
  {
    ClosesAt(j, 1 + |tag| + |attrs|, m, tag);
  }

  lemma ElementMatchOf(j: string, len: nat, x: nat, end: nat, tag: string, attrs: string, children: string)
    requires ElementSplit(j) == Some((len, x, end))
    requires tag == j[1..1 + len] && attrs == j[1 + len..x] && children == j[x + 1..end - len - 3]
    ensures ElementMatch(j) == Some((tag, attrs, children))
  {
  }

  /** Where the opening tag `<tag attrs>` lies in `j`, and what the scan for the first `>` finds. */
  ghost predicate OpeningAt(j: string, tag: string, attrs: string) {
    1 + |tag| + |attrs| < |j| && j[0] == '<' && tag != [] && IsWordChar(j[1]) && WordRun(j[1..]) == |tag| &&
    j[1..1 + |tag|] == tag && j[1 + |tag|..1 + |tag| + |attrs|] == attrs &&
    IndexOf(j, '>', 1) == Some(1 + |tag| + |attrs|)
  }

  /** `</tag>` lies at `m` in `j`, and only whitespace follows it. */
  ghost predicate ClosingAt(j: string, tag: string, m: nat) {
    m + |tag| + 3 <= |j| && |TrimEnd(j)| == m + |tag| + 3 && j[m..m + |tag| + 3] == ClosingTag(tag)
  }

  /** The children lie right after the `>` at `x`. */
  ghost predicate ChildrenAt(j: string, x: nat, children: string) {
    x + 1 + |children| <= |j| && j[x + 1..x + 1 + |children|] == children
  }

  /** In `<tag attrs>children</tag>` followed by whitespace, the opening tag is read as in `OpeningFacts`. */
  lemma ElementOpening(j: string, tag: string, attrs: string, children: string, tail: string)
    requires tag != [] && AllWord(tag) && '>' !in attrs && (attrs == [] || !IsWordChar(attrs[0]))
    requires j == ElementText(tag, attrs, children) + tail
    ensures OpeningAt(j, tag, attrs)
  {
    var o, k := OpeningTag(tag, attrs), ClosingTag(tag);
    var pre := o + children;
    var x := 1 + |tag| + |attrs|;
    assert j[..x + 1] == o by {
      SliceLeft(pre + k, tail, 0, x + 1);
      SliceLeft(pre, k, 0, x + 1);
      SliceLeft(o, children, 0, x + 1);
    }
    OpeningFacts(j, tag, attrs, '>');
    var t := j[1..1 + |tag|];
    assert j[1..x] == t + j[1 + |tag|..x];
    assert '>' !in t by {
      forall i | 0 <= i < |t| ensures t[i] != '>' {
        assert IsWordChar(tag[i]);
      }
    }
    IndexOfFirst(j, '>', 1, x);
  }

  /** In `<tag attrs>children</tag>` followed by whitespace, the text without its trailing whitespace ends with `</tag>`. */
  lemma ElementClosing(j: string, tag: string, attrs: string, children: string, tail: string)
    requires AllSpace(tail)
    requires j == ElementText(tag, attrs, children) + tail
    ensures ClosingAt(j, tag, 1 + |tag| + |attrs| + 1 + |children|)
  {
    var o, k := OpeningTag(tag, attrs), ClosingTag(tag);
    var pre := o + children;
    var e := pre + k;
    var m := |pre|;
    var end := m + |k|;
    assert j[m..end] == k by {
      SliceLeft(e, tail, m, end);
      SliceRight(pre, k, m, end);
    }
    assert j[end..] == tail by {
      SliceRight(e, tail, end, |j|);
    }
    assert j[end - 1] == k[|k| - 1];
    TrimEndAt(j, end - 1);
  }

  /** In `<tag attrs>children</tag>` followed by whitespace, the children lie between the opening and the closing tag. */
  lemma ElementChildren(j: string, tag: string, attrs: string, children: string, tail: string)
    requires j == ElementText(tag, attrs, children) + tail
    ensures ChildrenAt(j, 1 + |tag| + |attrs|, children)
  {
    var o, k := OpeningTag(tag, attrs), ClosingTag(tag);
    var pre := o + children;
    var x := 1 + |tag| + |attrs|;
    var m := |pre|;
    SliceLeft(pre + k, tail, x + 1, m);
    SliceLeft(pre, k, x + 1, m);
    SliceRight(o, children, x + 1, m);
  }

  /** A text laid out as an opening tag, children and a closing tag with the same name is an element match with those parts. */
  lemma LaidOutMatch(j: string, tag: string, attrs: string, children: string)
    requires OpeningAt(j, tag, attrs)
    requires ClosingAt(j, tag, 1 + |tag| + |attrs| + 1 + |children|)
    requires ChildrenAt(j, 1 + |tag| + |attrs|, children)
    ensures ElementMatch(j) == Some((tag, attrs, children))
  {
    var x: nat := 1 + |tag| + |attrs|;
    var m: nat := x + 1 + |children|;
    LaidOutParts(j, tag, attrs, children, x, m);
    SplitAt(j, tag, attrs, m);
    ElementMatchOf(j, |tag|, x, m + |tag| + 3, tag, attrs, children);
  }

  /** The slices of a laid-out element that hold its tag, attribute text and children. */
  lemma LaidOutParts(j: string, tag: string, attrs: string, children: string, x: nat, m: nat)
    requires OpeningAt(j, tag, attrs) && ChildrenAt(j, 1 + |tag| + |attrs|, children)
    requires x == 1 + |tag| + |attrs| && m == x + 1 + |children|
    ensures m <= |j| && tag == j[1..1 + |tag|] && attrs == j[1 + |tag|..x] && children == j[x + 1..m]
  {
  }

  /**
   * `<tag attrs>children</tag>` followed by whitespace is an element match
   * with exactly those parts, when the attribute text does not continue the
   * tag name.
   */
  lemma ElementComplete(tag: string, attrs: string, children: string, tail: string)
    requires tag != [] && AllWord(tag) && '>' !in attrs && (attrs == [] || !IsWordChar(attrs[0]))
    requires AllSpace(tail)
    ensures ElementMatch(ElementText(tag, attrs, children) + tail) == Some((tag, attrs, children))
  {
    var j := ElementText(tag, attrs, children) + tail;
    ElementOpening(j, tag, attrs, children, tail);
    ElementClosing(j, tag, attrs, children, tail);
    ElementChildren(j, tag, attrs, children, tail);
    LaidOutMatch(j, tag, attrs, children);
  }

  // ---------------------------------------------------------------------
  // What the conversion produces for each case

  /** The conditions under which `<tag attrs` reads back as that tag and that attribute text. */
  predicate TagParts(tag: string, attrs: string) {
    tag != [] && AllWord(tag) && '>' !in attrs && (attrs == [] || !IsWordChar(attrs[0]))
  }

  /** An element with a closing tag is not self-closing: after its first `>` comes `</`, which is not whitespace. */
  lemma ElementNotSelfClosing(tag: string, attrs: string, children: string)
    requires TagParts(tag, attrs)
    ensures SelfClosingMatch(ElementText(tag, attrs, children)).None?
  {
    var j := ElementText(tag, attrs, children);
    assert j == ElementText(tag, attrs, children) + [];
    ElementOpening(j, tag, attrs, children, []);
    var x := 1 + |tag| + |attrs|;
    var tagEnd := 1 + |tag|;
    assert IndexOf(j, '>', tagEnd) == Some(x) by {
      assert j[tagEnd..x] == attrs;
      IndexOfFirst(j, '>', tagEnd, x);
    }
    var lt := |j| - |tag| - 3;
    assert j[lt] == '<' by {
      assert j[lt..] == ClosingTag(tag);
    }
    assert !AllSpace(j[x + 1..]) by {
      assert j[x + 1..][lt - x - 1] == j[lt];
    }
  }

  /** `<tag attrs/>` becomes the two-argument call with the translated attributes. */
  lemma ConvertSelfClosing(tag: string, attrs: string, indent: string)
    requires TagParts(tag, attrs)
    ensures ConvertElement(SelfClosingText(tag, attrs), indent) == ShortCall(tag, Props(attrs))
  {
    var t := SelfClosingText(tag, attrs);
    StripUnchanged(t);
    assert t + [] == t;
    SelfClosingComplete(tag, attrs, []);
  }

  /**
   * `<tag attrs>children</tag>` becomes the two-argument call when the
   * children are blank, and otherwise the three-argument call whose third
   * argument is the converted, stripped children.
   */
  lemma ConvertElementText(tag: string, attrs: string, children: string, indent: string)
    requires TagParts(tag, attrs)
    ensures AllSpace(children) ==>
      ConvertElement(ElementText(tag, attrs, children), indent) == ShortCall(tag, Props(attrs))
    ensures !AllSpace(children) ==>
      ConvertElement(ElementText(tag, attrs, children), indent) ==
      LongCall(tag, Props(attrs), ConvertChildren(Strip(children), indent + "  "), indent)
  {
    var t := ElementText(tag, attrs, children);
    StripUnchanged(t);
    ElementNotSelfClosing(tag, attrs, children);
    assert t + [] == t;
    ElementComplete(tag, attrs, children, []);
    ConvertMatchedElement(t, indent, tag, attrs, children);
  }

  /** The conversion of text that the element pattern matches, taken from the match. */
  lemma ConvertMatchedElement(t: string, indent: string, tag: string, attrs: string, children: string)
    requires Strip(t) == t && SelfClosingMatch(t).None? && ElementMatch(t) == Some((tag, attrs, children))
    ensures AllSpace(children) ==> ConvertElement(t, indent) == ShortCall(tag, Props(attrs))
    ensures !AllSpace(children) ==>
      ConvertElement(t, indent) == LongCall(tag, Props(attrs), ConvertChildren(Strip(children), indent + "  "), indent)
  {
    StripEmpty(children);
    var props := Props(attrs);
    if !AllSpace(children) {
      var converted := ConvertChildren(Strip(children), indent + "  ");
      assert converted != [];
      assert ConvertElement(t, indent) == LongCall(tag, props, converted, indent);
    } else {
      assert ConvertElement(t, indent) == ShortCall(tag, props);
    }
  }

  /** Text that does not start with `<` and a word character once stripped is returned as it was given. */
  lemma ConvertNotMarkup(jsx: string, indent: string)
    requires var j := Strip(jsx); !(|j| >= 2 && j[0] == '<' && IsWordChar(j[1]))
    ensures ConvertElement(jsx, indent) == jsx
  {
  }

  /** `<br/>` becomes `React.createElement('br', null)`. */
  lemma SelfClosingBreakExample(indent: string)
    ensures ConvertElement(SelfClosingText("br", ""), indent) == "React.createElement('br', null)"
  {
    assert ConvertElement(SelfClosingText("br", ""), indent) == ShortCall("br", Props("")) by {
      assert TagParts("br", "");
      ConvertSelfClosing("br", "", indent);
    }
    assert ShortCall("br", Props("")) == "React.createElement('br', null)" by {
      BreakCall();
    }
  }

  /** `<br></br>` becomes `React.createElement('br', null)` too. */
  lemma EmptyBreakExample(indent: string)
    ensures ConvertElement(ElementText("br", "", ""), indent) == "React.createElement('br', null)"
  {
    assert ConvertElement(ElementText("br", "", ""), indent) == ShortCall("br", Props("")) by {
      assert TagParts("br", "");
      ConvertElementText("br", "", "", indent);
    }
    assert ShortCall("br", Props("")) == "React.createElement('br', null)" by {
      BreakCall();
    }
  }

  lemma BreakCall()
    ensures ShortCall("br", Props("")) == "React.createElement('br', null)"
  {
  }

  /**
   * A text child such as `<div>Hello</div>` gives the three-argument call
   * whose third argument is the text in single quotes.
   */
  lemma TextChild(tag: string, text: string, indent: string)
    requires tag != [] && AllWord(tag)
    requires text != [] && !IsSpace(text[0]) && !IsSpace(text[|text| - 1]) && '<' !in text
    ensures ConvertElement(ElementText(tag, "", text), indent) == LongCall(tag, "null", "'" + text + "'", indent)
  {
    assert ConvertElement(ElementText(tag, "", text), indent) ==
      LongCall(tag, Props(""), ConvertChildren(Strip(text), indent + "  "), indent) by {
      assert TagParts(tag, "");
      assert !AllSpace(text);
      ConvertElementText(tag, "", text, indent);
    }
    StripUnchanged(text);
    assert Props("") == "null";
  }
}
