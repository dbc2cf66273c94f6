# A verified model of `convert_jsx.py`

`convert_jsx.py` rewrites React components written with JSX into plain
`React.createElement` calls, using regular expressions only. The model covers
its whole conversion function, `convert_jsx_to_createElement`, which works in
four steps:

1. **Protection.** Every brace span `{...}` that has no inner brace is
   replaced, from left to right, by a placeholder `__PROTECTED_<n>__`. The span
   itself is recorded in a table. This is `Protection.Protect`, a loop over the
   text, specified by the functions `Mask` and `Spans`.
2. **Parenthesized returns.** One `re.sub` pass replaces each statement
   `return ( <markup> );` that starts a line with `indent return <call>;`.
3. **Inline returns.** A second pass does the same for `return <markup>;`.
4. **Restoration.** Each placeholder is put back with `str.replace`, in table
   order. This is `Protection.Restore`, a loop specified by `RestoreFrom`.

The model matches each pattern by hand, in the module `Returns`:

- `HeadAt` matches `^(\s*)return\s+`.
- `ParenthesizedAt`, `MarkupAt`, `FirstClose` and `CloseAt` match the rest of
  the parenthesized pattern.
- `InlineAt` matches the rest of the inline pattern.

These functions say what the backtracking regular-expression engine leaves for
each group; the module's header comment gives that analysis. A `re.sub` pass is
split in two:

- `Scan` finds the matches from left to right.
- `Render` joins the copied characters and the replacement texts. The
  replacement is passed as a function, as `re.sub` receives its replacement
  callable.

The element conversion lives in the module `Elements`, and the attribute
translation in `Attributes`:

- `convert_jsx_element`: the self-closing pattern, the element pattern with
  its `\1` back-reference, and the two call layouts.
- `parse_attributes`: a loop over the `re.finditer` matches.
- `convert_children`.

The properties proved are:

- soundness of every pattern, and completeness of every pattern. For the
  parenthesized pattern, completeness holds when the element body does not
  contain `);`, because such a body can end the lazy match early.
- that each pass rewrites the statements it should and copies everything else;
- that attribute text is read back attribute by attribute;
- that protection is undone by restoration, when the text does not contain
  `PROTECTED`;
- that text without markup and without `PROTECTED` passes through the whole
  conversion unchanged.

Protection runs before the rewrites, and this has two visible effects:

- A brace span is any `{...}` without inner braces, so a function body
  without inner braces is masked whole. A `return <markup>;` inside such a
  body is never seen by the rewrites: `f() {\n  return <a/>;\n}` comes back
  unchanged (`Pipeline.BodyMaskedWhole`, `Pipeline.FunctionBodyKept`).
- An attribute written `name={expr}` inside a converted element reaches
  `parse_attributes` as `name=__PROTECTED_n__`. The attribute pattern reads
  that as two bare names, each with the value `true`
  (`Attributes.PlaceholderValue`). After restoration,
  `return <a onClick={fn}/>;` becomes
  `return React.createElement('a', { onClick: true, {fn}: true });`
  (`Pipeline.BraceAttributeExample`).

## Model

| member | source | states |
|---|---|---|
| Protection.Protect | convert_jsx.py:9-16 | the protected text is `Mask(content)`: each brace span replaced left to right by `__PROTECTED_<n>__` with n counting from 0. The table is `Spans(content)`, the spans in order. |
| Protection.SpansAreBraceSpans | convert_jsx.py:16 | every table entry is a whole `\{[^{}]*\}` span |
| Protection.BraceSpanAtCorrect | convert_jsx.py:16 | the span taken at the front of the text is exactly a prefix that the brace pattern matches whole |
| Protection.TableLayout | convert_jsx.py:9-16 | the text is its gaps interleaved with the table entries. The protected text is the same gaps with placeholders n, n+1, … in their place, so entry i is what placeholder i stands for. |
| Protection.NothingToProtect | convert_jsx.py:16 | text without `{` is left as it is and the table is empty |
| Protection.PlainFront | convert_jsx.py:16 | text before the first `{` is copied by protection and adds no table entry |
| Protection.PlaceholderIsWord | convert_jsx.py:13 | a placeholder consists of `\w` characters only |
| Protection.Restore | convert_jsx.py:44-46 | the loop's result is `RestoreFrom(masked, table, 0)`: placeholder i replaced everywhere by entry i, for i in table order |
| Protection.RoundTrip | convert_jsx.py:44-46 | restoring the protected text with its table gives back the original text, when the original does not contain `PROTECTED` |
| Protection.RoundTripCounterexample | convert_jsx.py:44-46 | for `{a}{b}PROTECTED_0__`, which does not contain `__PROTECTED_`, restoration yields `{a}__PROTECTED_1{a}` and not the original |
| Text.ReplaceSkip | convert_jsx.py:46 | `str.replace` copies a prefix in which the pattern does not start |
| Text.ReplaceHit | convert_jsx.py:46 | `str.replace` substitutes an occurrence at the front and resumes after it |
| Text.ReplaceAbsent | convert_jsx.py:46 | `str.replace` leaves text without an occurrence unchanged |
| Text.ReplaceSkipPlain | convert_jsx.py:46 | `str.replace` copies a prefix that does not hold the pattern's first character |
| Text.NatToStringInjective | convert_jsx.py:13 | different indices give different placeholders |
| Text.StripEmpty | convert_jsx.py:70 | a stripped text is empty exactly when the text is all whitespace (the truth test of `children.strip()`) |
| Attributes.ParseAttributes | convert_jsx.py:81-114 | the result is `Props(attrsStr)`. It is `null` exactly when the attribute pattern finds no match. |
| Attributes.CollectEntries | convert_jsx.py:86-112 | the loop collects one `key: value` entry per `re.finditer` match, in order |
| Attributes.NameLenSound | convert_jsx.py:89 | the name taken is a whole `\w+(?:-\w+)*` and the text after it cannot extend it |
| Attributes.NameLenOf | convert_jsx.py:89 | a whole name followed by text that stops it is taken in full |
| Attributes.DelimitedSound | convert_jsx.py:89 | a `{…}`, `"…"` or `'…'` value ends at the first closing character and holds none inside |
| Attributes.ValueAtSound | convert_jsx.py:89 | the value part takes exactly the spelling `={e}`, `="t"` or `='t'` of the value it reads, and that value holds no closing character |
| Attributes.AttrAtSound | convert_jsx.py:89 | an attribute match covers exactly the spelling of a well-formed attribute: a whole name, then nothing or a delimited value |
| Attributes.AttrsFront | convert_jsx.py:89-91 | a space and a well-formed attribute in front of the text are read as one match, and the scan goes on after it |
| Attributes.AttrsRoundTrip | convert_jsx.py:89-92 | the attribute text written for a list of well-formed attributes, followed by whitespace, is read back as exactly that list |
| Attributes.PropsOfSource | convert_jsx.py:81-114 | the props of such text are the object literal of the attributes' entries, in source order |
| Attributes.OneAttribute | convert_jsx.py:91-114 | one attribute gives `{ key: value }` |
| Attributes.KeyShape | convert_jsx.py:104-110 | a hyphenated name is quoted. Any other key is a bare word. Names other than `class` and `for` are kept, possibly quoted. |
| Attributes.KeyCollision | convert_jsx.py:105-106 | `class` and `className` give the same key |
| Attributes.EmptyValueIsTrue | convert_jsx.py:95-102 | `name=""`, `name={}` and a bare `name` all give `name: true` (an empty group is falsy) |
| Attributes.EmptySpelling | convert_jsx.py:95-102 | any spelling whose value text is `true` gives `{ key: true }` |
| Attributes.UndelimitedValue | convert_jsx.py:89 | `name=word`, a value without delimiters, reads as two bare names |
| Attributes.PlaceholderValue | convert_jsx.py:89-114 | `name=__PROTECTED_n__` gives `{ key: true, __PROTECTED_n__: true }` |
| Attributes.BlankIsNull | convert_jsx.py:83-84 | whitespace-only attribute text gives `null` |
| Attributes.LiteralNull | convert_jsx.py:114 | the literal is `null` exactly when there are no entries |
| Attributes.TranslationExample | convert_jsx.py:81-114 | ` class="a" data-x="y" onClick={fn}` gives `{ className: 'a', 'data-x': 'y', onClick: fn }` |
| Elements.ConvertElement | convert_jsx.py:50-79 | the result is the input itself or a `React.createElement(...)` call |
| Elements.SelfClosingSound | convert_jsx.py:54 | a self-closing match is `<tag attrs/>` followed only by whitespace, with a word tag and attribute text without `>` that does not continue the tag |
| Elements.SelfClosingComplete | convert_jsx.py:54 | every such text is matched, with exactly that tag and attribute text |
| Elements.ElementSound | convert_jsx.py:62 | an element match is `<tag attrs>children</tag>` followed only by whitespace, with `attrs` ending at the first `>` |
| Elements.ElementComplete | convert_jsx.py:62 | every such text whose attribute text does not continue the tag is matched, with exactly those parts |
| Elements.TagSearchLongest | convert_jsx.py:62 | the back-reference tries tag lengths from the longest down, so no longer tag closes the element |
| Elements.ElementNotSelfClosing | convert_jsx.py:53-62 | an element with a closing tag is not taken for a self-closing tag |
| Elements.ConvertSelfClosing | convert_jsx.py:53-59 | `<tag attrs/>` becomes `React.createElement('tag', props)` |
| Elements.ConvertElementText | convert_jsx.py:61-76 | an element with blank children gives the two-argument call. Otherwise it gives the three-argument call, one argument per line, with the converted stripped children. |
| Elements.ConvertNotMarkup | convert_jsx.py:78-79 | text that does not start with `<` and a word character is returned unchanged |
| Elements.ConvertChildren | convert_jsx.py:116-127 | the children argument is quoted text of length at least 2. Inside the quotes is the stripped text when there is no `<`, and the text as given otherwise. |
| Elements.SelfClosingBreakExample | convert_jsx.py:53-59 | `<br/>` becomes `React.createElement('br', null)` |
| Elements.EmptyBreakExample | convert_jsx.py:61-76 | `<br></br>` becomes `React.createElement('br', null)` |
| Elements.TextChild | convert_jsx.py:61-76 | `<tag>text</tag>` becomes the three-argument call whose third argument is `'text'` |
| Returns.ParenthesizedSound | convert_jsx.py:30 | a parenthesized match starts a line and covers `indent return ws1 ( ws2 <open>body</name> ws3 );`. Group 1 is the indentation and group 2 the markup. |
| Returns.ParenthesizedComplete | convert_jsx.py:30 | every such statement at a line start is matched whole, with those groups, when its body does not contain `);` |
| Returns.FirstCloseFrom | convert_jsx.py:30 | the lazy body ends at the first closing part, provided no `);` lies before it |
| Returns.InlineSound | convert_jsx.py:38 | an inline match starts a line and covers `indent return ws <mid>;`, with `mid` non-empty and free of `;` |
| Returns.InlineComplete | convert_jsx.py:38 | every such statement at a line start is matched whole, with those groups |
| Returns.NoMatchInsideLine | convert_jsx.py:30 | neither pattern matches away from a line start |
| Returns.RewriteMatch | convert_jsx.py:29-34 | a pass replaces a match with `indent return <conversion>;` and resumes after it |
| Returns.RewriteWithinLine | convert_jsx.py:29-42 | a pass copies a stretch of one line when nothing matches at its start |
| Returns.ParenthesizedRewritten | convert_jsx.py:19-34 | the first pass turns a parenthesized statement whose body does not contain `);` into `indent return <conversion of the stripped markup>;` |
| Returns.InlineRewritten | convert_jsx.py:36-42 | the second pass turns an inline statement into `indent return <conversion>;` |
| Returns.OtherReturnKept | convert_jsx.py:29-42 | a one-line `return` is copied by either pass when its expression starts neither with `<` nor with `(`, whitespace and `<`; `return (a + b);` is one |
| Returns.ReturnsWithoutMarkup | convert_jsx.py:28-42 | text without `<` passes both rewrites unchanged |
| Pipeline.ConvertJsxToCreateElement | convert_jsx.py:5-48 | the method computes `Convert(content)`, which is protection, both passes and restoration. Text without `<` and without `PROTECTED` comes back unchanged. |
| Pipeline.MaskWithoutMarkup | convert_jsx.py:10-16 | protection brings in no `<` |
| Pipeline.ConvertWithoutMarkup | convert_jsx.py:5-48 | text without markup and without `PROTECTED` is returned unchanged |
| Pipeline.ConvertMaskedWithoutMarkup | convert_jsx.py:5-48 | text without `PROTECTED` whose protected form has no `<` is returned unchanged, whatever markup its brace spans hold |
| Pipeline.BodyMaskedWhole | convert_jsx.py:9-48 | text without `{` and `<` followed by one brace span, the whole without `PROTECTED`, is returned unchanged, whatever markup the span holds |
| Pipeline.FunctionBodyKept | convert_jsx.py:9-48 | `f() {\n  return <a/>;\n}` is returned unchanged: the return inside the body is not converted |
| Pipeline.BraceAttributeExample | convert_jsx.py:5-48 | `return <a onClick={fn}/>;` becomes `return React.createElement('a', { onClick: true, {fn}: true });` |
| Pipeline.ConvertInlineStatement | convert_jsx.py:5-48 | a one-line file without `{` that is an inline statement `indent return ws <mid>;` becomes `indent return <conversion of the stripped markup>;` |

## Left out

- The command-line block (convert_jsx.py, lines 129-144) is not modelled: it reads and writes a file, prints and exits.
- `\w` and `\s` are modelled on ASCII characters: `\s` and `str.strip()` cover space, tab, newline, carriage return, vertical tab, form feed and the separators U+001C to U+001F. Python's non-ASCII letters, digits and whitespace are not modelled.
- The unused `elements` list in `convert_children` is not modelled. Its `indent` parameter is kept but, as in the source, not used.
- The default value `indent=""` of `convert_jsx_element` is not modelled: every call passes the indentation.
- The regular-expression engine is not modelled in general. Each pattern is matched by a hand-written function.
- Protection.RoundTrip: requires the text not to contain `PROTECTED`, a stronger condition than "no `__PROTECTED_`". With only the weaker condition the round trip fails, as `Protection.RoundTripCounterexample` shows.
- Returns.ParenthesizedComplete: requires that the element body not contain `);`. A closing tag, whitespace and `);` inside the body end the lazy match early, and such statements are left unspecified.
- Returns.ParenthesizedRewritten: requires, for the same reason, that the element body not contain `);`.
- Returns.OtherReturnKept: covers one-line statements only. A statement spread over several lines is not covered, and neither is an expression that opens with `(`, whitespace and `<`.
- Pipeline.ConvertInlineStatement: covers a file holding a single statement. Longer files are described through the pass lemmas.
