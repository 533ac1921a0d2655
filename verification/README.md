# Blade facade converter core, in Dafny

`script.py` rewrites Laravel Blade templates that use the Laravel Collective
HTML facade (`Form::...`, `HTML::link(...)`, ...) into calls on Spatie's
`html()` builder. This project models the text-level core of that rewrite
and proves properties of it:

- `split_args`, the splitter of an argument list on its top-level commas
  (module `Arguments`, with the lexical automaton it shares with the
  extractor in module `Scanner`);
- `extract_call_args`, which finds the parenthesis that closes a call
  (module `CallArgs`);
- `convert_attributes`, which turns a PHP attribute array into a chain of
  `->key('value')` calls; its `re.findall` is modelled as an explicit
  left-to-right matcher of `(['"])(\w+)\1\s*=>\s*(['"])(.*?)\3`
  (module `Attributes`);
- the replacement callbacks `replace_form_open`, `replace_form_close`, the
  `repl` of `replace_alias_generic`, and the anchor code built for one
  `link` / `linkRoute` call (module `Rules`);
- `extract_and_replace_calls`, the search-and-replace loop for one alias and
  one method, both as a recursive function and as the `while` loop of the
  source (module `Rewriter`);
- the pieces of Python's `str` the code relies on: `strip()`, `find`, and the
  `\s` and `\w` classes (module `Text`).

Strings are `seq<char>`. Python slices that may run backwards (an empty
result) are written out explicitly.

Behaviour of the code worth noting:

- `convert_attributes` always emits `->key('value')`; there is no
  `->attribute(...)` form and no `array(...)` syntax is recognised.
- `link` has no branch for an escape flag: a fourth argument is ignored.
- When a call never closes, `extract_call_args` returns the index of the
  last character, so the argument text loses that character, and the
  rewriter, resuming one past that index, never copies it: the text's final
  character is missing from the output.
- An empty third argument of `linkRoute` is not dropped as it is for
  `link`: it produces `->attributes()`.
- The searched prefix is `alias::method(` with the `(` immediately after the
  method name; `alias::method (` is not found.

## Model

| member | source | states |
|---|---|---|
| Text.Strip | script.py:96 | the result of `strip()` has no whitespace at either end, is the text that starts where the leading whitespace ends and is followed only by whitespace, and is empty exactly for blank input |
| Text.StripParts | script.py:96 | `strip()` removes exactly the whitespace runs at both ends: the input is the removed front run, the result and the removed back run, and every removed character is whitespace |
| Text.StripIdempotent | script.py:107 | stripping twice is the same as stripping once |
| Text.Find | script.py:197 | `str.find` gives the least index at or after the start where the pattern occurs, and -1 exactly when it occurs nowhere from there |
| Text.FindAt | script.py:197 | `str.find` returns an occurrence when no other occurrence lies between the start and it |
| Text.FindShift | script.py:197 | searching a suffix of the text finds the same occurrence, shifted by the suffix's offset |
| Arguments.Scan | script.py:20-51 | the splitter's loop keeps, for every prefix read, pieces that join back (with `,`) to that prefix and whose separators are exactly its top-level commas |
| Arguments.RawSegments | script.py:20-51 | the unstripped pieces join back to the whole input, and the commas between them are exactly the commas outside literals, `()` and `[]` and not escaped |
| Arguments.SplitArgs | script.py:8-55 | each returned part is the stripped piece at the same position; only the last piece is dropped when blank, earlier blank pieces stay as empty strings |
| Arguments.EscapeKeepsState | script.py:21-28 | a backslash outside an escape and the character after it, a comma included, never split and leave the whole state, literal and depth counters, as it was |
| Arguments.EscapeNeverSplits | script.py:21-28 | inside any text, a backslash read outside an escape and the character after it are no split points, and the state after the pair is the state before it |
| Arguments.LiteralNeverSplits | script.py:21-39 | no character of a string literal (escapes included) is a split point, and reading the literal leaves the depth counters and literal state as they were |
| Arguments.QuotedInert | script.py:21-39 | a lone string literal, escapes included, is a self-contained argument: it never splits and leaves the automaton where it started |
| Arguments.SegsUnique | script.py:47-51 | the pieces are determined by the text and its split points, so the splitter's answer is the only one consistent with them |
| Arguments.OneArgument | script.py:53-55 | text with no top-level comma yields its stripped self, or nothing when blank |
| Arguments.NoArguments | script.py:53-55 | empty argument text yields no arguments |
| Arguments.ArgsRoundTrip | script.py:8-55 | splitting `", ".join(xs)` gives back `xs` for non-empty, stripped, self-contained arguments |
| Arguments.CheckInertSound | script.py:20-51 | a front-to-back run of the automaton that ends in the initial state without splitting shows an argument is self-contained |
| Arguments.ArgsRoundTripChecked | script.py:8-55 | the round trip, with self-containment checked by the front-to-back run |
| Arguments.RunShift | script.py:20-51 | moving both depth counters by fixed amounts before a run moves them by the same amounts after it, and leaves the literal state alone |
| Arguments.GroupRun | script.py:41-47 | a `(x)` or `[x]` group whose inner text ends in the initial state without closing more than it opened leaves the automaton where it started |
| Arguments.NestedNeverSplits | script.py:41-47 | inside any text, no character of such a group is a split point when it starts outside literals at a non-negative depth, and the state after the group is the state before it |
| Arguments.GroupInert | script.py:41-47 | such a group is a self-contained argument, so the splitting round trip applies to it |
| Arguments.SplitNestedExample | script.py:41-47 | `a, b(c, d), [e, f]` splits into three arguments: commas inside `()` and `[]` do not split |
| Arguments.SplitQuotedExample | script.py:21-39 | `'it\'s, ok', $x` splits into two arguments: a comma inside a quoted string with an escaped quote does not split |
| CallArgs.Scan | script.py:67-82 | the loop never goes back and never reads past the end of the text |
| CallArgs.EscapeKeepsDepth | script.py:69-72 | a backslash and the character after it leave the state, depth included, as it was: an escaped `(` or `)` does not count |
| CallArgs.WalkInsideLiteral | script.py:69-75 | inside a literal, the rest of its body, escaped quotes included, changes neither depth nor literal state |
| CallArgs.QuotedKeepsDepth | script.py:69-77 | a whole string literal leaves depth and literal state as they were: parentheses inside quotes are not counted |
| CallArgs.ScanStops | script.py:67-82 | the loop stops at the first index at which the call has closed, or at the end of the text, and the call is open at every index before |
| CallArgs.ExtractCallArgs | script.py:58-83 | the returned index lies between one before the start and the end of the text; the argument text is the slice from the start to that index, and empty when that slice runs backwards |
| CallArgs.ExtractStops | script.py:67-83 | every index up to the returned one leaves the call open, and the index after it closes the call or is the end of the text |
| CallArgs.ClosedAtParen | script.py:78-83 | when the loop stopped early, the returned index holds a code `)` that takes the depth from one to zero, and the argument text is everything before it |
| CallArgs.DegradedAtEnd | script.py:67-83 | when the call never closes, the returned index is the last one of the text and the argument text lacks the final character |
| CallArgs.ExtractLocal | script.py:58-83 | a balanced argument list followed by `)` is extracted whole with the index of that `)`, whatever text surrounds the call |
| CallArgs.ExtractShift | script.py:58-83 | extraction on a suffix of the text gives the same argument text and the same closing index, shifted |
| CallArgs.CheckBalancedSound | script.py:67-82 | a front-to-back run that stays open and ends at depth one outside literals shows an argument list is balanced |
| CallArgs.BalancedConcat | script.py:67-82 | two balanced argument texts side by side are balanced: the call stays open throughout and the second starts where the first left the state |
| CallArgs.ExtractNestedExample | script.py:78-81 | in `foo(a, b(c, d), [e, f])` the nested call's `)` does not close the call, the last one does |
| CallArgs.ExtractQuotedExample | script.py:69-77 | in `f(')' . "(") + 1` the quoted `)` and `(` do not move the depth; the call closes at index 11 |
| CallArgs.ExtractUnclosed | script.py:67-83 | a call that never closes yields the rest of the text minus its last character and the index of that character |
| CallArgs.ExtractUnclosedExample | script.py:83 | `foo(a, b` with no closing parenthesis loses the `b` |
| Attributes.LazyValue | script.py:99 | `(.*?)q` stops at a quote character |
| Attributes.LazyValueOf | script.py:99 | the lazy group stops at the first closing quote not preceded by a newline |
| Attributes.MatchHere | script.py:99 | a match at the front of the text is at least six characters long and no longer than the text |
| Attributes.MatchHereComplete | script.py:99 | every text with the shape quote, word key, same quote, spaced `=>`, quote, one-line value, same quote is matched with exactly that key and value |
| Attributes.MatchHereSound | script.py:99 | every match has that shape: its parts rebuild the matched text |
| Attributes.MatchHereGroups | script.py:99 | a match's key is a word and its value has no newline |
| Attributes.FindPairs | script.py:99 | every pair `re.findall` returns has a word key and a one-line value |
| Attributes.FindPairsArrow | script.py:99 | text that yields any pair contains `=>` |
| Attributes.FindPairsEntries | script.py:99 | `re.findall` recovers exactly, and in order, the pairs of entries written each with its own key and value quotes, its own whitespace on either side of `=>`, and any quote-free text after it |
| Attributes.Render | script.py:100-102 | the chain is empty exactly when there are no pairs, otherwise it starts with `->` |
| Attributes.Unwrap | script.py:97-98 | outer brackets are removed exactly when the text both starts with `[` and ends with `]` |
| Attributes.ConvertAttributes | script.py:95-103 | the result is empty or starts with `->` |
| Attributes.ConvertIgnoresSpace | script.py:96-99 | whitespace around the attribute text does not change the chain |
| Attributes.ConvertNeedsArrow | script.py:95-103 | only text containing `=>` converts to a non-empty chain |
| Attributes.ConvertRoundTrip | script.py:95-103 | converting an array literal gives one `->key('value')` call per entry, in order, whatever quote each key and value uses, whatever whitespace each entry has around `=>`, and whatever quote-free text comes before the first entry or after any entry |
| Attributes.ConvertMixedExample | script.py:95-103 | `['class' => "btn",'id'=>'x']`, with mixed quotes and spacing and a bare comma, gives the calls for `class` and `id` in order |
| Rules.FormOpen | script.py:106-112 | the replacement always starts a new form builder and ends in a call |
| Rules.FormOpenBlank | script.py:110-112 | blank captured text opens a bare form |
| Rules.FormOpenArray | script.py:108-109 | an array becomes its attribute chain before `->open()` |
| Rules.FormOpenOther | script.py:110-111 | any other text is passed to `open(...)` stripped |
| Rules.FormOpenIgnoresSpace | script.py:107 | whitespace around the captured text makes no difference |
| Rules.FormOpenEmptyArray | script.py:108-112 | an empty array opens the same bare form as no argument |
| Rules.FormOpenKeepsArgument | script.py:110-111 | for a non-array argument the text inside `open(...)` reads back as the stripped argument |
| Rules.FormCloseIgnoresMatch | script.py:115-116 | the replacement does not depend on what was matched |
| Rules.AliasRepl | script.py:231-232 | `link` and `linkRoute` calls are put back exactly as matched |
| Rules.AliasReplDecodes | script.py:233 | any other method's replacement reads back as that method on `html()` with the captured arguments |
| Rules.CallCodeHead | script.py:205-221 | whatever the method and arguments, the replacement is an anchor on a new builder |
| Rules.LinkAttrs | script.py:214-221 | `link`'s third argument becomes the attribute chain when it starts with `[`, `->attributes(...)` when it is other non-empty text, and nothing when empty |
| Rules.LinkRouteAttrs | script.py:205-212 | `linkRoute`'s third argument becomes the attribute chain when it starts with `[`, and `->attributes(...)` for any other text, between the route and the title |
| Rules.LinkRouteEmptyAttrs | script.py:209-221 | an empty third argument gives `->attributes()` in `linkRoute` but nothing in `link` |
| Rules.LinkDefaults | script.py:214-216 | missing `link` arguments behave exactly as `''`, `''` and no attributes written out |
| Rules.LinkIgnoresExtra | script.py:214-221 | arguments after the third, such as an escape flag, do not change the code |
| Rules.LinkRouteDefaults | script.py:206-209 | missing `linkRoute` arguments behave exactly as `''`, `[]`, `[]`, `''` written out |
| Rules.LinkRouteIgnoresExtra | script.py:206-212 | arguments after the fourth do not change the code |
| Rules.LinkKeepsArguments | script.py:214-217 | a two-argument link becomes `html()->a(href, title)`, whose argument list splits back into the same two arguments |
| Rules.LinkExample | script.py:214-221 | `link($url, $title, [], false)`: the empty array adds nothing and the flag is dropped |
| Rules.LinkRouteBare | script.py:205-212 | `linkRoute(name)` is completed with no parameters, an empty attribute chain and an empty title |
| Rewriter.RewriteOne | script.py:196-224 | with a single call site, the text before and after it are copied and only the call is replaced |
| Rewriter.CallPattern | script.py:193-197 | the searched text is the alias, `::`, the method and `(` |
| Rewriter.NextCall | script.py:197-203 | a reported call lies at an occurrence of the pattern at or after the index and resumes after it; none is reported exactly when the pattern occurs nowhere from the index |
| Rewriter.NextCallAt | script.py:197-203 | after a stretch without the pattern, the search reports the call at the next occurrence with its balanced argument list, and resumes right after the closing `)` |
| Rewriter.CallSearchAdvances | script.py:197-223 | every search result moves the loop forward, so it terminates |
| Rewriter.NoCallUnchanged | script.py:197-200 | text without a call comes back unchanged |
| Rewriter.ReplaceOnlyCall | script.py:192-224 | a text with one call with balanced arguments keeps the text around the call and replaces the call by the code for its split arguments |
| Rewriter.RewriteShowsCode | script.py:201-222 | the code for the first call appears in the output where the call started |
| Rewriter.PatternIsNotAnchor | script.py:193-217 | for a word alias the searched text and the anchor code differ within their first ten characters |
| Rewriter.CallChangesText | script.py:192-224 | for a word alias, text holding a call always changes |
| Rewriter.UnchangedIffNoCall | script.py:192-224 | for a word alias, the text is left as it is if and only if it holds no call |
| Rewriter.LinkCallRewritten | script.py:192-224 | a lone `alias::link(href, title)` becomes `html()->a(href, title)` and the surrounding text is kept |
| Rewriter.LinkRouteCallRewritten | script.py:192-224 | a lone `alias::linkRoute(route)` becomes `html()->a()->route(route, [])->html('')` and the surrounding text is kept |
| Rewriter.ReplaceEveryCall | script.py:192-224 | a text made of call-free gaps and calls with balanced arguments becomes the same gaps, in order, with each call replaced by the code for its split arguments |
| Rewriter.RewriteUnclosed | script.py:196-224 | a call whose argument list never closes is replaced from its argument text minus the last character (the degraded result of `extract_call_args`), and that character is missing from the output: nothing follows the replacement |
| Rewriter.ReplaceCallsLoop | script.py:192-224 | the `while` loop computes the same text as the recursive rewrite |

## Left out

- Reading and writing files, walking directories and the command line
  (script.py:262-290): I/O, outside the text transformation.
- The regular-expression passes (`replace_simple_field`,
  `replace_single_arg_field`, `replace_form_select`, `replace_form_radio`,
  `replace_form_checkbox`, `replace_form_textarea`, `replace_form_number`,
  the patterns of `Form::open`/`Form::close` and of `replace_alias_generic`,
  script.py:119-189, 228, 234, 243-245): a general regular-expression engine is out
  of scope; only the callbacks that build the replacement text are modelled,
  as functions of the captured groups.
- `find_html_aliases` (script.py:86-92) and the order of passes in
  `convert_code` (script.py:237-259): the alias is a parameter of the
  rewriter.
- `\w` is restricted to ASCII letters, digits and `_`; Python's `str`
  patterns also accept other Unicode letters and digits.
- CallArgs.ExtractCallArgs: the start index is a natural number; Python's
  negative indexing of `content[start:...]` is not modelled (the rewriter
  always passes an index past a match).
- Rewriter.ReplaceOnlyCall: stated for a text with a single call whose
  argument list is balanced; Rewriter.ReplaceEveryCall covers any number of
  calls. Calls nested in the arguments of a call are not rewritten by the
  same pass, in the source or in the model.
- Rewriter.LinkCallRewritten: requires the joined arguments to be balanced,
  which the source does not check. A list that never closes is covered by
  Rewriter.RewriteUnclosed; an extra `)` closes the call early, at the
  index CallArgs.ClosedAtParen states, and the rewrite of such a text is
  not stated as a whole.
- Rules.LinkCode, Rules.LinkRouteCode and Rules.CallCode carry no contract
  of their own; what they build is stated by Rules.LinkAttrs,
  Rules.LinkRouteAttrs, Rules.LinkDefaults, Rules.LinkRouteDefaults and the
  other `Link*` lemmas, and Rules.CallCodeHead only states that the result
  is an anchor.
- Contract-free definitions whose properties are stated by the lemmas
  named here: Scanner.Step and Arguments.Next (the automaton, stated by
  Arguments.EscapeKeepsState, Arguments.EscapeNeverSplits,
  Arguments.LiteralNeverSplits, Arguments.NestedNeverSplits and
  Arguments.RunShift), CallArgs.Advance (stated by
  CallArgs.EscapeKeepsDepth and CallArgs.QuotedKeepsDepth),
  Attributes.Call (stated by Attributes.ConvertRoundTrip),
  Rewriter.Rewrite and Rewriter.ExtractAndReplaceCalls (stated by
  Rewriter.ReplaceEveryCall, Rewriter.NoCallUnchanged,
  Rewriter.UnchangedIffNoCall and Rewriter.ReplaceCallsLoop).
- Attributes.ConvertRoundTrip: the text between entries is quote-free;
  a separator holding a quote could start a match of its own, and that
  case is not stated.
- Rules.FormClose: the replacement is a constant; its only property is that
  it ignores the match (Rules.FormCloseIgnoresMatch).
- End-to-end examples on literal template text are stated with the text as
  parameters (`pre`, `post`) rather than as fixed strings.
