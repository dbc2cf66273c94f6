/**
 * Attribute translation (`parse_attributes`, convert_jsx.py, lines 81-114).
 * The attribute text between a tag name and `>` is scanned with the pattern
 * `(\w+(?:-\w+)*)(?:=(?:\{([^}]*)\}|"([^"]*)"|'([^']*)'))?`, one match after
 * another, and every match becomes one `key: value` entry of an object literal.
 */
module Attributes {
  import opened Text
  import opened Protection

  /** The value part of one attribute occurrence, by the pattern group that matched it. */
  datatype AttrValue =
    | NoValue                   // no `=...` part matched
    | Braced(expr: string)      // group 2: `{expr}`
    | DoubleQuoted(text: string) // group 3: `"text"`
    | SingleQuoted(text: string) // group 4: `'text'`

  datatype Attr = Attr(name: string, value: AttrValue)

  /** `\w+(?:-\w+)*` as a whole: word characters, each `-` between two of them. */
  predicate IsAttrName(n: string) {
    |n| > 0 && IsWordChar(n[0]) && forall i :: 0 <= i < |n| ==> NameCharOk(n, i)
  }

  /** The character at `i` is a word character, or a `-` with a word character after it. */
  predicate NameCharOk(n: string, i: nat)
    requires i < |n|
  {
    IsWordChar(n[i]) || (n[i] == '-' && i + 1 < |n| && IsWordChar(n[i + 1]))
  }

  /** After a name, the text cannot extend it: neither a word character nor `-` and a word character. */
  predicate NameStops(rest: string) {
    rest == [] || (!IsWordChar(rest[0]) && !(rest[0] == '-' && |rest| > 1 && IsWordChar(rest[1])))
  }

  lemma NameWithHyphen(a: string, b: string)
    requires |a| > 0 && AllWord(a) && IsAttrName(b)
    ensures IsAttrName(a + ['-'] + b)
  {
    var n := a + ['-'] + b;
    forall i | 0 <= i < |n| ensures NameCharOk(n, i) {
      if i < |a| {
        assert n[i] == a[i];
      } else if i == |a| {
        assert n[i] == '-' && n[i + 1] == b[0];
      } else {
        var j := i - |a| - 1;
        assert n[i] == b[j];
        assert NameCharOk(b, j);
        if j + 1 < |b| { assert n[i + 1] == b[j + 1]; }
      }
    }
  }

  /** The length of the name `\w+(?:-\w+)*` that starts `s`, taken as long as the pattern allows. */
  function NameLen(s: string): (n: nat)
    requires s != [] && IsWordChar(s[0])
    ensures 0 < n <= |s|
    decreases |s|
  {
    var w := WordRun(s);
    if w + 1 < |s| && s[w] == '-' && IsWordChar(s[w + 1]) then w + 1 + NameLen(s[w + 1..]) else w
  }

  /** What `NameLen` takes is a whole name, and the text after it cannot extend it. */
  lemma {:induction false} NameLenSound(s: string)
    requires s != [] && IsWordChar(s[0])
    ensures IsAttrName(s[..NameLen(s)]) && NameStops(s[NameLen(s)..])
    decreases |s|
  {
    var w := WordRun(s);
    if w + 1 < |s| && s[w] == '-' && IsWordChar(s[w + 1]) {
      NameLenSound(s[w + 1..]);
      var m := NameLen(s[w + 1..]);
      assert NameLen(s) == w + 1 + m;
      WordRunWord(s);
      NameLenHyphen(s, w, m);
    } else {
      NameLenWord(s, w);
    }
  }

  /** A name that goes on after a hyphen: the word run, `-`, and the name after it. */
  lemma NameLenHyphen(s: string, w: nat, m: nat)
    requires 0 < w && w + 1 + m <= |s| && AllWord(s[..w]) && s[w] == '-'
    requires IsAttrName(s[w + 1..][..m]) && NameStops(s[w + 1..][m..])
    ensures IsAttrName(s[..w + 1 + m]) && NameStops(s[w + 1 + m..])
  {
    NameWithHyphen(s[..w], s[w + 1..][..m]);
    HyphenSlices(s, w, m);
  }

  lemma HyphenSlices(s: string, w: nat, m: nat)
    requires w + 1 + m <= |s| && s[w] == '-'
    ensures s[..w + 1 + m] == s[..w] + ['-'] + s[w + 1..][..m] && s[w + 1 + m..] == s[w + 1..][m..]
  {
    assert s[..w + 1 + m] == s[..w] + s[w..w + 1] + s[w + 1..w + 1 + m];
  }

  /** A name that ends with its first word run. */
  lemma NameLenWord(s: string, w: nat)
    requires s != [] && IsWordChar(s[0]) && w == WordRun(s)
    requires !(w + 1 < |s| && s[w] == '-' && IsWordChar(s[w + 1]))
    ensures IsAttrName(s[..NameLen(s)]) && NameStops(s[NameLen(s)..])
  {
    WordRunWord(s);
    assert IsAttrName(s[..w]) by {
      forall i | 0 <= i < w ensures NameCharOk(s[..w], i) {
        assert s[..w][i] == s[i];
      }
    }
  }

  /** A whole name followed by text that stops it is read back in full. */
  lemma {:induction false} NameLenOf(name: string, rest: string)
    requires IsAttrName(name) && NameStops(rest)
    ensures NameLen(name + rest) == |name|
    decreases |name|
  {
    var s := name + rest;
    var w0 := WordRun(name);
    WordRunWord(name);
    if w0 == |name| {
      assert name[..w0] == name;
      WordRunOf(name, rest);
      if w0 < |s| { assert s[w0..] == rest; }
    } else {
      assert !IsWordChar(name[w0]);
      assert NameCharOk(name, w0);
      assert name == name[..w0] + name[w0..];
      assert s == name[..w0] + (name[w0..] + rest);
      WordRunOf(name[..w0], name[w0..] + rest);
      var tail := name[w0 + 1..];
      assert IsAttrName(tail) by {
        forall i | 0 <= i < |tail| ensures NameCharOk(tail, i) {
          var k := w0 + 1 + i;
          assert 0 <= k < |name|;
          assert tail[i] == name[k];
          assert NameCharOk(name, k);
          if i + 1 < |tail| { assert tail[i + 1] == name[k + 1]; }
        }
      }
      assert s[w0 + 1..] == tail + rest;
      NameLenOf(tail, rest);
    }
  }

  /** `open` text `close` right after the `=`: the text up to the first `close` and the length taken. */
  function Delimited(s: string, close: char): (r: Option<(string, nat)>)
    requires |s| >= 2
    ensures r.Some? ==> 3 <= r.value.1 <= |s|
  {
    match IndexOf(s, close, 2)
    case Some(j) => Some((s[2..j], j + 1))
    case None => None
  }

  /**
   * The optional part `=(?:\{([^}]*)\}|"([^"]*)"|'([^']*)')` at the start of
   * `s`, with the number of characters it takes; the alternatives are tried
   * in this order.
   */
  function ValueAt(s: string): (r: Option<(AttrValue, nat)>)
    ensures r.Some? ==> 3 <= r.value.1 <= |s|
  {
    if |s| < 2 || s[0] != '=' then None
    else if s[1] == '{' then
      match Delimited(s, '}') case Some((e, n)) => Some((Braced(e), n)) case None => None
    else if s[1] == '"' then
      match Delimited(s, '"') case Some((t, n)) => Some((DoubleQuoted(t), n)) case None => None
    else if s[1] == '\'' then
      match Delimited(s, '\'') case Some((t, n)) => Some((SingleQuoted(t), n)) case None => None
    else None
  }

  /** The attribute match that starts `s`, if `s` starts with a word character, and its length. */
  function AttrAt(s: string): (r: Option<(Attr, nat)>)
    ensures r.Some? ==> 0 < r.value.1 <= |s| && IsAttrName(r.value.0.name)
  {
    if s != [] && IsWordChar(s[0]) then
      var n := NameLen(s);
      NameLenSound(s);
      match ValueAt(s[n..])
      case Some((v, m)) => Some((Attr(s[..n], v), n + m))
      case None => Some((Attr(s[..n], NoValue), n))
    else None
  }

  /** A delimited value ends at the first closing character and holds none inside. */
  lemma DelimitedSound(s: string, close: char)
    requires |s| >= 2
    ensures Delimited(s, close).Some? ==>
      var (t, n) := Delimited(s, close).value;
      s[..n] == s[..2] + t + [close] && close !in t
  {
    IndexOfSound(s, close, 2);
    if IndexOf(s, close, 2).Some? {
      var j := IndexOf(s, close, 2).value;
      assert s[..j + 1] == s[..2] + s[2..j] + [s[j]];
    }
  }

  /** The value part takes exactly the spelling of the value it reads, and that value is well formed. */
  lemma ValueAtSound(s: string, name: string)
    requires IsAttrName(name)
    ensures ValueAt(s).Some? ==>
      var (v, m) := ValueAt(s).value;
      !v.NoValue? && s[..m] == ValueSource(v) && WellFormed(Attr(name, v))
  {
    if |s| >= 2 && s[0] == '=' {
      assert s[..2] == ['=', s[1]];
      DelimitedSound(s, '}');
      DelimitedSound(s, '"');
      DelimitedSound(s, '\'');
    }
  }

  /** An attribute match covers exactly the spelling of a well-formed attribute. */
  lemma AttrAtSound(s: string)
    ensures AttrAt(s).Some? ==>
      var (a, n) := AttrAt(s).value;
      s[..n] == Piece(a) && WellFormed(a)
  {
    if s != [] && IsWordChar(s[0]) {
      var n := NameLen(s);
      NameLenSound(s);
      ValueAtSound(s[n..], s[..n]);
      if ValueAt(s[n..]).Some? {
        var m := ValueAt(s[n..]).value.1;
        assert s[..n + m] == s[..n] + s[n..][..m];
      }
    }
  }

  /** The matches of `re.finditer` over `s`, in order. */
  function Attrs(s: string): (r: seq<Attr>)
    ensures forall i :: 0 <= i < |r| ==> IsAttrName(r[i].name)
    decreases |s|
  {
    if s == [] then []
    else match AttrAt(s)
      case Some((a, len)) => [a] + Attrs(s[len..])
      case None => Attrs(s[1..])
  }

  /** The emitted value: group 2 as it is, group 3 or 4 in single quotes, `true` otherwise (an empty group is falsy). */
  function ValueText(v: AttrValue): string {
    match v
    case Braced(e) => if e != [] then e else "true"
    case DoubleQuoted(t) => if t != [] then "'" + t + "'" else "true"
    case SingleQuoted(t) => if t != [] then "'" + t + "'" else "true"
    case NoValue => "true"
  }

  /** The emitted key: `class` and `for` renamed, hyphenated names quoted, other names as they are. */
  function Key(name: string): string {
    if name == "class" then "className"
    else if name == "for" then "htmlFor"
    else if '-' in name then "'" + name + "'"
    else name
  }

  function Entry(a: Attr): string {
    Key(a.name) + ": " + ValueText(a.value)
  }

  function Entries(attrs: seq<Attr>): seq<string> {
    seq(|attrs|, i requires 0 <= i < |attrs| => Entry(attrs[i]))
  }

  /** The object literal for a list of entries, or `null` when the list is empty. */
  function ObjectLiteral(entries: seq<string>): string {
    if entries == [] then "null" else "{ " + Join(entries, ", ") + " }"
  }

  /** The props argument the attribute text stands for. */
  function Props(attrsStr: string): string {
    ObjectLiteral(Entries(Attrs(attrsStr)))
  }

  /** The literal is `null` exactly when there are no entries. */
  lemma LiteralNull(entries: seq<string>)
    ensures ObjectLiteral(entries) == "null" <==> entries == []
  {
    if entries != [] {
      assert ObjectLiteral(entries)[..2] == "{ ";
    }
  }

  lemma {:induction false} BlankHasNoAttrs(s: string)
    requires AllSpace(s)
    ensures Attrs(s) == []
    decreases |s|
  {
    if s != [] {
      assert !IsWordChar(s[0]);
      BlankHasNoAttrs(s[1..]);
    }
  }

  lemma StrippedBlankHasNoAttrs(s: string)
    requires Strip(s) == []
    ensures Attrs(s) == []
  {
    StripEmpty(s);
    BlankHasNoAttrs(s);
  }

  /**
   * `parse_attributes`: blank text gives `null`; otherwise the matches are
   * visited in order and each appends one entry.
   */
  method ParseAttributes(attrsStr: string) returns (props: string)
    ensures props == Props(attrsStr)
    ensures props == "null" <==> Attrs(attrsStr) == []
  {
    if Strip(attrsStr) == [] {
      StrippedBlankHasNoAttrs(attrsStr);
      LiteralNull([]);
      return "null";
    }
    var attrs := CollectEntries(attrsStr);
    props := if attrs == [] then "null" else "{ " + Join(attrs, ", ") + " }";
    LiteralNull(attrs);
  }

  /** The `finditer` loop: one `key: value` entry per match, in the order of the matches. */
  method CollectEntries(attrsStr: string) returns (attrs: seq<string>)
    ensures attrs == Entries(Attrs(attrsStr))
  {
    attrs := [];
    ghost var seen: seq<Attr> := [];
    var rest := attrsStr;
    while rest != []
      invariant CollectedUpTo(attrsStr, rest, seen, attrs)
      decreases |rest|
    {
      var found := AttrAt(rest);
      if found.Some? {
        var (a, len) := found.value;
        CollectAdvance(attrsStr, rest, seen, attrs);
        attrs := attrs + [Entry(a)];
        seen := seen + [a];
        rest := rest[len..];
      } else {
        SkipAdvance(attrsStr, rest, seen, attrs);
        rest := rest[1..];
      }
    }
  }

  /**
   * The loop invariant of `CollectEntries`, where `rest` is the text not yet
   * scanned and `seen` the matches met so far: those matches and the ones of
   * the rest are the matches of the whole text, and there is one entry per
   * match seen.
   */
  ghost predicate CollectedUpTo(attrsStr: string, rest: string, seen: seq<Attr>, attrs: seq<string>) {
    Attrs(attrsStr) == seen + Attrs(rest) && attrs == Entries(seen)
  }

  lemma CollectAdvance(attrsStr: string, rest: string, seen: seq<Attr>, attrs: seq<string>)
    requires CollectedUpTo(attrsStr, rest, seen, attrs)
    requires rest != [] && AttrAt(rest).Some?
    ensures var (a, len) := AttrAt(rest).value;
      CollectedUpTo(attrsStr, rest[len..], seen + [a], attrs + [Entry(a)])
  {
    var (a, len) := AttrAt(rest).value;
    AttrsMatch(rest, a, len);
    assert seen + ([a] + Attrs(rest[len..])) == seen + [a] + Attrs(rest[len..]);
    assert Entries(seen + [a]) == Entries(seen) + [Entry(a)];
  }

  lemma SkipAdvance(attrsStr: string, rest: string, seen: seq<Attr>, attrs: seq<string>)
    requires CollectedUpTo(attrsStr, rest, seen, attrs)
    requires rest != [] && AttrAt(rest).None?
    ensures CollectedUpTo(attrsStr, rest[1..], seen, attrs)
  {
  }

  // ---------------------------------------------------------------------
  // Writing attributes back as JSX text, and reading them again

  /** An attribute that JSX text can spell: a pattern name and a value without its closing delimiter. */
  predicate WellFormed(a: Attr) {
    IsAttrName(a.name) &&
    match a.value
    case NoValue => true
    case Braced(e) => '}' !in e
    case DoubleQuoted(t) => '"' !in t
    case SingleQuoted(t) => '\'' !in t
  }

  /** The JSX spelling of a value: nothing, `={e}`, `="t"` or `='t'`. */
  function ValueSource(v: AttrValue): string {
    match v
    case NoValue => ""
    case Braced(e) => "={" + e + "}"
    case DoubleQuoted(t) => "=\"" + t + "\""
    case SingleQuoted(t) => "='" + t + "'"
  }

  /** The JSX spelling of one attribute. */
  function Piece(a: Attr): string {
    a.name + ValueSource(a.value)
  }

  /** Attribute text as it follows a tag name: each attribute preceded by one space. */
  function Source(attrs: seq<Attr>): string {
    if attrs == [] then [] else " " + Piece(attrs[0]) + Source(attrs[1..])
  }

  /** Text between delimiters that does not hold the closing one is read back whole. */
  lemma DelimitedSource(open: char, t: string, close: char, rest: string)
    requires close !in t
    ensures Delimited([ '=', open ] + t + [close] + rest, close) == Some((t, |t| + 3))
  {
    var x := [ '=', open ] + t + [close] + rest;
    assert x[2..2 + |t|] == t;
    assert x[2 + |t|] == close;
    IndexOfFirst(x, close, 2, 2 + |t|);
  }

  /** A well-formed value is read back by the value part of the pattern. */
  lemma ValueAtSource(v: AttrValue, rest: string)
    requires match v
      case NoValue => true
      case Braced(e) => '}' !in e
      case DoubleQuoted(t) => '"' !in t
      case SingleQuoted(t) => '\'' !in t
    requires rest == [] || IsSpace(rest[0])
    ensures v.NoValue? ==> ValueAt(ValueSource(v) + rest).None?
    ensures !v.NoValue? ==> ValueAt(ValueSource(v) + rest) == Some((v, |ValueSource(v)|))
  {
    match v
    case NoValue =>
      assert ValueSource(v) + rest == rest;
    case Braced(e) =>
      assert ValueSource(v) + rest == [ '=', '{' ] + e + ['}'] + rest;
      DelimitedSource('{', e, '}', rest);
    case DoubleQuoted(t) =>
      assert ValueSource(v) + rest == [ '=', '"' ] + t + ['"'] + rest;
      DelimitedSource('"', t, '"', rest);
    case SingleQuoted(t) =>
      assert ValueSource(v) + rest == [ '=', '\'' ] + t + ['\''] + rest;
      DelimitedSource('\'', t, '\'', rest);
  }

  /** A well-formed attribute at the front of the text is one whole match. */
  lemma AttrAtSource(a: Attr, rest: string)
    requires WellFormed(a)
    requires rest == [] || IsSpace(rest[0])
    ensures AttrAt(Piece(a) + rest) == Some((a, |Piece(a)|))
  {
    var tail := ValueSource(a.value) + rest;
    var s := a.name + tail;
    assert Piece(a) + rest == s;
    assert NameStops(tail) by {
      if a.value.NoValue? { assert tail == rest; } else { assert tail[0] == '='; }
    }
    NameLenOf(a.name, tail);
    ValueAtSource(a.value, rest);
    AttrAtOfPiece(s, a, tail);
  }

  /** The match at the front of `name + tail` when the value part reads back the attribute's value. */
  lemma AttrAtOfPiece(s: string, a: Attr, tail: string)
    requires s == a.name + tail && IsAttrName(a.name) && NameLen(s) == |a.name|
    requires a.value.NoValue? ==> ValueAt(tail).None?
    requires !a.value.NoValue? ==> ValueAt(tail) == Some((a.value, |ValueSource(a.value)|))
    ensures AttrAt(s) == Some((a, |Piece(a)|))
  {
    AttrAtOfName(s, a.name, tail);
  }

  /** The match at the front of `name + tail` when the name part takes exactly `name`. */
  lemma AttrAtOfName(s: string, name: string, tail: string)
    requires s == name + tail && IsAttrName(name) && NameLen(s) == |name|
    ensures ValueAt(tail).None? ==> AttrAt(s) == Some((Attr(name, NoValue), |name|))
    ensures ValueAt(tail).Some? ==>
      AttrAt(s) == Some((Attr(name, ValueAt(tail).value.0), |name| + ValueAt(tail).value.1))
  {
    assert s[0] == name[0];
    assert s[..|name|] == name && s[|name|..] == tail;
  }

  /** Text that starts with something other than a word character starts no match. */
  lemma AttrsSkip(s: string)
    requires s != [] && !IsWordChar(s[0])
    ensures Attrs(s) == Attrs(s[1..])
  {
  }

  lemma AttrsAfterSpace(s: string)
    ensures Attrs(" " + s) == Attrs(s)
  {
    assert (" " + s)[1..] == s;
  }

  lemma AttrsMatch(s: string, a: Attr, len: nat)
    requires s != [] && AttrAt(s) == Some((a, len))
    ensures Attrs(s) == [a] + Attrs(s[len..])
  {
  }

  /** The attributes after the first one are read from where the first one's text ends. */
  lemma AttrsFront(a: Attr, rest: string)
    requires WellFormed(a)
    requires rest == [] || IsSpace(rest[0])
    ensures Attrs(" " + Piece(a) + rest) == [a] + Attrs(rest)
  {
    var piece := Piece(a);
    var s := " " + piece + rest;
    assert s[1..] == piece + rest;
    AttrsSkip(s);
    AttrAtSource(a, rest);
    AttrsMatch(piece + rest, a, |piece|);
    assert (piece + rest)[|piece|..] == rest;
  }

  /**
   * Parsing the JSX spelling of well-formed attributes, followed by any
   * whitespace, gives them back, in order and without merging repeated names.
   */
  lemma {:induction false} AttrsRoundTrip(attrs: seq<Attr>, tail: string)
    requires forall i :: 0 <= i < |attrs| ==> WellFormed(attrs[i])
    requires AllSpace(tail)
    ensures Attrs(Source(attrs) + tail) == attrs
  {
    if attrs == [] {
      assert Source(attrs) + tail == tail;
      BlankHasNoAttrs(tail);
    } else {
      var rest := Source(attrs[1..]) + tail;
      SourceCons(attrs, tail);
      assert WellFormed(attrs[0]);
      AttrsFront(attrs[0], rest);
      AttrsRoundTrip(attrs[1..], tail);
      assert attrs == [attrs[0]] + attrs[1..];
    }
  }

  lemma SourceCons(attrs: seq<Attr>, tail: string)
    requires attrs != [] && AllSpace(tail)
    ensures var rest := Source(attrs[1..]) + tail;
      Source(attrs) + tail == " " + Piece(attrs[0]) + rest && (rest == [] || IsSpace(rest[0]))
  {
    var h := " " + Piece(attrs[0]);
    var src := Source(attrs[1..]);
    assert Source(attrs) == h + src;
    assert (h + src) + tail == h + (src + tail);
    SourceThenSpace(attrs[1..], tail);
  }

  /** Attribute text followed by whitespace is empty or starts with whitespace. */
  lemma SourceThenSpace(attrs: seq<Attr>, tail: string)
    requires AllSpace(tail)
    ensures var t := Source(attrs) + tail; t == [] || IsSpace(t[0])
  {
    if attrs != [] {
      assert (Source(attrs) + tail)[0] == Source(attrs)[0] == ' ';
    } else {
      assert Source(attrs) + tail == tail;
    }
  }

  /** The props of well-formed attribute text: one entry per attribute, in order. */
  lemma PropsOfSource(attrs: seq<Attr>, tail: string)
    requires forall i :: 0 <= i < |attrs| ==> WellFormed(attrs[i])
    requires AllSpace(tail)
    ensures Props(Source(attrs) + tail) == ObjectLiteral(Entries(attrs))
  {
    AttrsRoundTrip(attrs, tail);
  }

  /** The props of one well-formed attribute: a one-entry object literal. */
  lemma OneAttribute(a: Attr)
    requires WellFormed(a)
    ensures Props(Source([a])) == "{ " + Key(a.name) + ": " + ValueText(a.value) + " }"
  {
    assert Source([a]) + [] == Source([a]);
    AttrsRoundTrip([a], []);
  }

  /**
   * Keys are valid object-literal keys: a hyphenated name is quoted, any
   * other name stays a bare identifier, and only `class` and `for` are
   * renamed.
   */
  lemma KeyShape(name: string)
    requires IsAttrName(name)
    ensures '-' in name ==> Key(name) == "'" + name + "'"
    ensures '-' !in name ==> AllWord(Key(name))
    ensures name != "class" && name != "for" ==> Key(name) == name || Key(name) == "'" + name + "'"
  {
    if '-' !in name && name != "class" && name != "for" {
      forall i | 0 <= i < |name| ensures IsWordChar(name[i]) {
        assert NameCharOk(name, i);
      }
    }
  }

  /** `class` and an explicit `className` both become the key `className`. */
  lemma KeyCollision()
    ensures Key("class") == Key("className") == "className"
  {
    assert '-' !in "className";
  }

  /** An empty value, quoted or braced, is emitted as `true`, as a bare name is. */
  lemma EmptyValueIsTrue(name: string)
    requires IsAttrName(name)
    ensures Props(" " + name + "=\"\"") == "{ " + Key(name) + ": true }"
    ensures Props(" " + name + "={}") == "{ " + Key(name) + ": true }"
    ensures Props(" " + name) == "{ " + Key(name) + ": true }"
  {
    EmptySpelling(name, DoubleQuoted(""), "=\"\"");
    EmptySpelling(name, Braced(""), "={}");
    EmptySpelling(name, NoValue, "");
    assert " " + name + "" == " " + name;
  }

  lemma EmptySpelling(name: string, v: AttrValue, spelling: string)
    requires IsAttrName(name) && ValueText(v) == "true"
    requires WellFormed(Attr(name, v)) && ValueSource(v) == spelling
    ensures Props(" " + name + spelling) == "{ " + Key(name) + ": true }"
  {
    OneAttribute(Attr(name, v));
    assert Source([Attr(name, v)]) == " " + name + spelling;
  }

  /** A name made of word characters only is a pattern name. */
  lemma WordIsName(w: string)
    requires w != [] && AllWord(w)
    ensures IsAttrName(w)
  {
    forall i | 0 <= i < |w| ensures NameCharOk(w, i) {
    }
  }

  /** A bare name at the very end of the text is one match. */
  lemma AttrsBareName(w: string)
    requires w != [] && AllWord(w)
    ensures Attrs(w) == [Attr(w, NoValue)]
  {
    WordIsName(w);
    assert w + [] == w;
    NameLenOf(w, []);
    assert w[..|w|] == w;
    AttrsMatch(w, Attr(w, NoValue), |w|);
  }

  /** `name=word`: the name is matched alone, since no delimiter follows the `=`. */
  lemma UndelimitedFront(name: string, w: string)
    requires IsAttrName(name) && w != [] && AllWord(w)
    ensures AttrAt(name + ("=" + w)) == Some((Attr(name, NoValue), |name|))
  {
    var t := "=" + w;
    NameLenOf(name, t);
    assert (name + t)[..|name|] == name;
    assert (name + t)[|name|..] == t;
    assert ValueAt(t).None? by { assert IsWordChar(t[1]); }
  }

  /** After the `=` is skipped, the word is matched as a name of its own. */
  lemma UndelimitedRest(w: string)
    requires w != [] && AllWord(w)
    ensures Attrs("=" + w) == [Attr(w, NoValue)]
  {
    var t := "=" + w;
    AttrsSkip(t);
    assert t[1..] == w;
    AttrsBareName(w);
  }

  /** `name=word`, a value without delimiters, reads as two bare names. */
  lemma UndelimitedValue(name: string, w: string)
    requires IsAttrName(name) && w != [] && AllWord(w)
    ensures Attrs(" " + name + "=" + w) == [Attr(name, NoValue), Attr(w, NoValue)]
  {
    var t := "=" + w;
    var x := name + t;
    assert " " + name + "=" + w == " " + x;
    AttrsAfterSpace(x);
    UndelimitedPair(name, w);
  }

  lemma UndelimitedPair(name: string, w: string)
    requires IsAttrName(name) && w != [] && AllWord(w)
    ensures Attrs(name + ("=" + w)) == [Attr(name, NoValue), Attr(w, NoValue)]
  {
    var t := "=" + w;
    var x := name + t;
    UndelimitedFront(name, w);
    AttrsMatch(x, Attr(name, NoValue), |name|);
    assert x[|name|..] == t;
    UndelimitedRest(w);
  }

  /**
   * An attribute whose braced value was replaced by a placeholder,
   * `name=__PROTECTED_n__`, reads as two bare names: the attribute's own
   * name and the placeholder itself, both emitted with the value `true`.
   */
  lemma PlaceholderValue(name: string, n: nat)
    requires IsAttrName(name)
    ensures Attrs(" " + name + "=" + Placeholder(n)) == [Attr(name, NoValue), Attr(Placeholder(n), NoValue)]
    ensures Props(" " + name + "=" + Placeholder(n)) ==
      "{ " + (Key(name) + ": true") + ", " + (Placeholder(n) + ": true") + " }"
  {
    var p := Placeholder(n);
    PlaceholderIsWord(n);
    UndelimitedValue(name, p);
    TwoBareEntries(name, p);
  }

  lemma TwoBareEntries(name: string, w: string)
    requires w != [] && AllWord(w) && w[0] == '_'
    ensures ObjectLiteral(Entries([Attr(name, NoValue), Attr(w, NoValue)])) ==
      "{ " + (Key(name) + ": true") + ", " + (w + ": true") + " }"
  {
    assert Key(w) == w by {
      assert '-' !in w by { assert forall i :: 0 <= i < |w| ==> IsWordChar(w[i]); }
      assert w != "class" && w != "for" by { assert w[0] != "class"[0] && w[0] != "for"[0]; }
    }
    var x, y := Key(name) + ": true", w + ": true";
    var e := Entries([Attr(name, NoValue), Attr(w, NoValue)]);
    assert e == [x, y] by {
      assert ": " + "true" == ": true";
      assert e[0] == x;
      assert e[1] == y;
    }
    JoinTwo(x, y, ", ");
    assert "{ " + (x + ", " + y) + " }" == "{ " + x + ", " + y + " }";
  }

  lemma JoinTwo(x: string, y: string, sep: string)
    ensures Join([x, y], sep) == x + sep + y
  {
    assert [x, y][1..] == [y];
  }

  /** Whitespace-only attribute text gives `null`. */
  lemma BlankIsNull(s: string)
    requires AllSpace(s)
    ensures Props(s) == "null"
  {
    BlankHasNoAttrs(s);
  }

  /** The attributes of `class="a" data-x="y" onClick={fn}`. */
  function ExampleAttrs(): seq<Attr> {
    [Attr("class", DoubleQuoted("a")), Attr("data-x", DoubleQuoted("y")), Attr("onClick", Braced("fn"))]
  }

  lemma ExampleEntries()
    ensures Entries(ExampleAttrs()) == ["className: 'a'", "'data-x': 'y'", "onClick: fn"]
  {
    var e := Entries(ExampleAttrs());
    ExampleEntry();
    assert e[0] == "className: 'a'";
    assert e[1] == "'data-x': 'y'";
    assert e[2] == "onClick: fn";
  }

  lemma ExampleEntry()
    ensures Entry(Attr("class", DoubleQuoted("a"))) == "className: 'a'"
    ensures Entry(Attr("data-x", DoubleQuoted("y"))) == "'data-x': 'y'"
    ensures Entry(Attr("onClick", Braced("fn"))) == "onClick: fn"
  {
    assert Key("data-x") == "'data-x'" by { assert "data-x"[4] == '-'; }
    assert Key("onClick") == "onClick" by { assert forall k :: 0 <= k < 7 ==> "onClick"[k] != '-'; }
  }

  /**
   * ` class="a" data-x="y" onClick={fn}` translates to the object literal
   * `{ className: 'a', 'data-x': 'y', onClick: fn }`, in source order.
   */
  lemma TranslationExample()
    ensures Props(Source(ExampleAttrs())) == ObjectLiteral(["className: 'a'", "'data-x': 'y'", "onClick: fn"])
  {
    var attrs := ExampleAttrs();
    assert WellFormed(attrs[0]) by { WordIsName("class"); }
    assert WellFormed(attrs[1]) by { NameWithHyphen("data", "x"); assert "data" + ['-'] + "x" == "data-x"; }
    assert WellFormed(attrs[2]) by { WordIsName("onClick"); }
    assert Source(attrs) + [] == Source(attrs);
    PropsOfSource(attrs, []);
    ExampleEntries();
  }
}
