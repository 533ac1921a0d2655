/** `split_args` (script.py:8-55): split an argument string on the commas
    that sit at the top level, i.e. outside `()`, `[]` and string literals
    and not right after a backslash, then strip every piece. */
module Arguments {
  import opened Text
  import opened Scanner

  /** The splitter's automaton state: the lexical part plus the two depth
      counters, which may go negative on unbalanced input. */
  datatype ScanState = ScanState(lex: Lex, paren: int, bracket: int)

  const Init: ScanState := ScanState(Fresh, 0, 0)

  /** The state after one more character (script.py:21-44). */
  function Next(st: ScanState, c: char): ScanState {
    var rd := Step(st.lex, c);
    if !rd.code then st.(lex := rd.next)
    else if c == '(' then st.(paren := st.paren + 1)
    else if c == ')' then st.(paren := st.paren - 1)
    else if c == '[' then st.(bracket := st.bracket + 1)
    else if c == ']' then st.(bracket := st.bracket - 1)
    else st
  }

  /** Reading `c` in state `st` ends the current piece (script.py:47). */
  predicate SplitsOn(st: ScanState, c: char) {
    c == ',' && Step(st.lex, c).code && st.paren == 0 && st.bracket == 0
  }

  /** The state after reading all of `t`, starting from `st`. */
  function Run(st: ScanState, t: string): ScanState
    decreases |t|
  {
    if t == [] then st else Next(Run(st, t[..|t| - 1]), t[|t| - 1])
  }

  function StateAfter(s: string, i: nat): ScanState
    requires i <= |s|
  {
    Run(Init, s[..i])
  }

  /** The character at `p` is a comma the splitter splits on. */
  predicate SplitsAt(s: string, p: int) {
    0 <= p < |s| && SplitsOn(StateAfter(s, p), s[p])
  }

  /** The pieces joined back with `,`, the separator the splitter removes. */
  function Join(segs: seq<string>): string
    decreases |segs|
  {
    if |segs| == 0 then ""
    else if |segs| == 1 then segs[0]
    else Join(segs[..|segs| - 1]) + "," + segs[|segs| - 1]
  }

  /** The indices, in `Join(segs)`, of the separating commas. */
  function Seps(segs: seq<string>): set<int>
    decreases |segs|
  {
    if |segs| <= 1 then {}
    else Seps(segs[..|segs| - 1]) + {|Join(segs[..|segs| - 1])|}
  }

  lemma StateAfterNext(s: string, i: nat)
    requires i < |s|
    ensures StateAfter(s, i + 1) == Next(StateAfter(s, i), s[i])
  {
    assert s[..i + 1][..i] == s[..i];
  }

  /** Appending a character to the last piece appends it to the join and
      leaves the separators alone. */
  lemma JoinGrow(parts: seq<string>, cur: string, c: char)
    ensures Join(parts + [cur + [c]]) == Join(parts + [cur]) + [c]
    ensures Seps(parts + [cur + [c]]) == Seps(parts + [cur])
  {
    var a := parts + [cur + [c]];
    var b := parts + [cur];
    assert a[..|a| - 1] == parts;
    assert b[..|b| - 1] == parts;
  }

  /** Starting a new piece appends a separating comma at the end. */
  lemma JoinCut(segs: seq<string>)
    requires |segs| > 0
    ensures Join(segs + [""]) == Join(segs) + ","
    ensures Seps(segs + [""]) == Seps(segs) + {|Join(segs)|}
  {
    var a := segs + [""];
    assert a[..|a| - 1] == segs;
  }

  /** The splitter's loop (script.py:20-51), keeping the pieces unstripped.
      Whatever prefix has been read, the pieces so far join back to it and
      their separators are exactly the split points in it; at the end the
      same holds of the whole input. */
  function Scan(s: string, i: nat, st: ScanState, parts: seq<string>, cur: string): (segs: seq<string>)
    requires i <= |s|
    requires st == StateAfter(s, i)
    requires Join(parts + [cur]) == s[..i]
    requires forall p :: p in Seps(parts + [cur]) <==> p < i && SplitsAt(s, p)
    ensures |segs| > 0
    ensures Join(segs) == s
    ensures forall p :: p in Seps(segs) <==> SplitsAt(s, p)
    decreases |s| - i
  {
    if i == |s| then
      assert s[..i] == s;
      parts + [cur]
    else
      var c := s[i];
      if SplitsOn(st, c) then
        ScanCut(s, i, st, parts, cur);
        Scan(s, i + 1, Next(st, c), parts + [cur], "")
      else
        ScanGrow(s, i, st, parts, cur);
        Scan(s, i + 1, Next(st, c), parts, cur + [c])
  }

  /** A split point closes the current piece and starts an empty one. */
  lemma ScanCut(s: string, i: nat, st: ScanState, parts: seq<string>, cur: string)
    requires i < |s| && st == StateAfter(s, i)
    requires Join(parts + [cur]) == s[..i]
    requires forall p :: p in Seps(parts + [cur]) <==> p < i && SplitsAt(s, p)
    requires SplitsOn(st, s[i])
    ensures Next(st, s[i]) == StateAfter(s, i + 1)
    ensures Join(parts + [cur] + [""]) == s[..i + 1]
    ensures forall p :: p in Seps(parts + [cur] + [""]) <==> p < i + 1 && SplitsAt(s, p)
  {
    StateAfterNext(s, i);
    assert s[..i + 1] == s[..i] + [s[i]];
    JoinCut(parts + [cur]);
  }

  /** Any other character is appended to the current piece. */
  lemma ScanGrow(s: string, i: nat, st: ScanState, parts: seq<string>, cur: string)
    requires i < |s| && st == StateAfter(s, i)
    requires Join(parts + [cur]) == s[..i]
    requires forall p :: p in Seps(parts + [cur]) <==> p < i && SplitsAt(s, p)
    requires !SplitsOn(st, s[i])
    ensures Next(st, s[i]) == StateAfter(s, i + 1)
    ensures Join(parts + [cur + [s[i]]]) == s[..i + 1]
    ensures forall p :: p in Seps(parts + [cur + [s[i]]]) <==> p < i + 1 && SplitsAt(s, p)
  {
    StateAfterNext(s, i);
    assert s[..i + 1] == s[..i] + [s[i]];
    JoinGrow(parts, cur, s[i]);
  }

  /** The unstripped pieces of `s`: they join back to `s` with `,`, and the
      commas that separate them are exactly the top-level commas. */
  function RawSegments(s: string): (segs: seq<string>)
    ensures |segs| > 0
    ensures Join(segs) == s
    ensures forall p :: p in Seps(segs) <==> SplitsAt(s, p)
  {
    assert Seps([""]) == {};
    Scan(s, 0, Init, [], "")
  }

  function Last(xs: seq<string>): string
    requires |xs| > 0
  {
    xs[|xs| - 1]
  }

  function StripAll(xs: seq<string>): (ys: seq<string>)
    ensures |ys| == |xs|
    ensures forall j :: 0 <= j < |xs| ==> ys[j] == Strip(xs[j])
  {
    if xs == [] then [] else [Strip(xs[0])] + StripAll(xs[1..])
  }

  /** The pieces, each stripped, the last one dropped when blank. */
  function StripPieces(raw: seq<string>): (parts: seq<string>)
    requires |raw| > 0
    ensures AllSpace(Last(raw)) ==> |parts| == |raw| - 1
    ensures !AllSpace(Last(raw)) ==> |parts| == |raw|
    ensures forall j :: 0 <= j < |parts| ==> parts[j] == Strip(raw[j])
  {
    var all := StripAll(raw);
    if all[|raw| - 1] == [] then all[..|raw| - 1] else all
  }

  /** `split_args(s)`: the pieces of `s`, each stripped; the last piece is
      kept only when it is not blank, while earlier blank pieces remain as
      empty strings (script.py:47-55). */
  function SplitArgs(s: string): (parts: seq<string>)
    ensures AllSpace(Last(RawSegments(s))) ==> |parts| == |RawSegments(s)| - 1
    ensures !AllSpace(Last(RawSegments(s))) ==> |parts| == |RawSegments(s)|
    ensures forall j :: 0 <= j < |parts| ==> parts[j] == Strip(RawSegments(s)[j])
    ensures forall j :: 0 <= j < |parts| ==> IsStripped(parts[j])
  {
    StripPieces(RawSegments(s))
  }

  // ---------------------------------------------------------------------
  // Properties of the automaton

  lemma {:induction false} RunAppend(st: ScanState, a: string, b: string)
    ensures Run(st, a + b) == Run(Run(st, a), b)
    decreases |b|
  {
    if b == [] {
      assert a + b == a;
    } else {
      var b' := b[..|b| - 1];
      assert (a + b)[..|a + b| - 1] == a + b';
      RunAppend(st, a, b');
    }
  }

  /** Whether a position splits depends only on the text before it. */
  lemma SplitsAtPrefix(t: string, u: string, p: int)
    requires 0 <= p < |t|
    ensures SplitsAt(t + u, p) <==> SplitsAt(t, p)
  {
    assert (t + u)[..p] == t[..p];
  }

  /** Reading `t` from `st`, the character at `k` is code. */
  predicate CodeAt(st: ScanState, t: string, k: int) {
    0 <= k < |t| && Step(Run(st, t[..k]).lex, t[k]).code
  }

  lemma RunOne(st: ScanState, c: char)
    ensures Run(st, [c]) == Next(st, c)
  {
    assert [c][..0] == [];
  }

  lemma RunTwo(st: ScanState, c: char, d: char)
    ensures Run(st, [c, d]) == Next(Next(st, c), d)
  {
    assert [c, d][..1] == [c];
    RunOne(st, c);
  }

  /** Inside a string literal nothing is code, and the literal's body
      leaves the state as it found it. */
  lemma {:induction false} InsideLiteral(st: ScanState, q: char, body: string)
    requires st.lex == Lex(Some(q), false)
    requires LiteralBody(body, q)
    ensures Run(st, body) == st
    ensures forall k :: !CodeAt(st, body, k)
    decreases |body|
  {
    if body != [] {
      var n := if body[0] == '\\' then 2 else 1;
      var rest := body[n..];
      assert body == body[..n] + rest;
      if n == 2 {
        assert body[..n] == [body[0], body[1]];
        RunTwo(st, body[0], body[1]);
        RunOne(st, body[0]);
        assert body[..1] == [body[0]];
      } else {
        assert body[..n] == [body[0]];
        RunOne(st, body[0]);
      }
      assert body[..0] == [];
      InsideLiteral(st, q, rest);
      RunAppend(st, body[..n], rest);
      forall k | n <= k < |body|
        ensures !CodeAt(st, body, k)
      {
        assert body[..k] == body[..n] + rest[..k - n];
        RunAppend(st, body[..n], rest[..k - n]);
        assert body[k] == rest[k - n];
        assert !CodeAt(st, rest, k - n);
      }
    }
  }

  /** A whole literal, quotes included, is never code and leaves the state
      unchanged. */
  lemma RunLiteral(st: ScanState, q: char, body: string)
    requires st.lex == Fresh
    requires IsQuote(q) && LiteralBody(body, q)
    ensures Run(st, Quoted(q, body)) == st
    ensures forall k :: !CodeAt(st, Quoted(q, body), k)
  {
    var lit := [q] + body + [q];
    var inner := st.(lex := Lex(Some(q), false));
    RunOne(st, q);
    InsideLiteral(inner, q, body);
    RunAppend(st, [q], body);
    RunAppend(st, [q] + body, [q]);
    RunOne(inner, q);
    forall k | 0 <= k < |lit|
      ensures !CodeAt(st, lit, k)
    {
      if k == 0 {
        assert lit[..k] == [];
      } else {
        assert lit[..k] == [q] + body[..k - 1];
        RunAppend(st, [q], body[..k - 1]);
        if k - 1 < |body| {
          assert lit[k] == body[k - 1];
          assert !CodeAt(inner, body, k - 1);
        } else {
          assert body[..k - 1] == body;
        }
      }
    }
  }

  /** A span in which nothing is code contains no split point. */
  lemma NoCodeNoSplit(a: string, lit: string, b: string, p: int)
    requires forall k :: !CodeAt(Run(Init, a), lit, k)
    requires |a| <= p < |a| + |lit|
    ensures !SplitsAt(a + lit + b, p)
  {
    var k := p - |a|;
    SpanState(a, lit, b, k);
    assert !CodeAt(Run(Init, a), lit, k);
  }

  /** The state at a position inside the span, and the character there. */
  lemma SpanState(a: string, lit: string, b: string, k: nat)
    requires k < |lit|
    ensures StateAfter(a + lit + b, |a| + k) == Run(Run(Init, a), lit[..k])
    ensures (a + lit + b)[|a| + k] == lit[k]
  {
    InSpan(a, lit, b, k);
    RunAppend(Init, a, lit[..k]);
  }

  /** The text up to a position inside the span, and the character there. */
  lemma InSpan(a: string, lit: string, b: string, k: nat)
    requires k < |lit|
    ensures (a + lit + b)[..|a| + k] == a + lit[..k]
    ensures (a + lit + b)[|a| + k] == lit[k]
  {
  }

  /** A span that brings the automaton back to where it was leaves the
      state after it equal to the state before it. */
  lemma SpanPreserves(a: string, lit: string, b: string)
    requires Run(Run(Init, a), lit) == Run(Init, a)
    ensures StateAfter(a + lit + b, |a| + |lit|) == StateAfter(a + lit + b, |a|)
  {
    var s := a + lit + b;
    assert s[..|a|] == a;
    assert s[..|a| + |lit|] == a + lit;
    RunAppend(Init, a, lit);
  }

  /** A string literal, escapes included, never splits and is invisible to
      the depth counters: the state after it equals the state before it.
      This is how `'it\'s'` stays one unbroken argument. */
  lemma LiteralNeverSplits(a: string, q: char, body: string, b: string)
    requires Run(Init, a).lex == Fresh
    requires IsQuote(q) && LiteralBody(body, q)
    ensures var s := a + Quoted(q, body) + b;
      && (forall p :: |a| <= p < |a| + |body| + 2 ==> !SplitsAt(s, p))
      && StateAfter(s, |a| + |body| + 2) == StateAfter(s, |a|)
  {
    var lit := Quoted(q, body);
    RunLiteral(Run(Init, a), q, body);
    SpanPreserves(a, lit, b);
    forall p | |a| <= p < |a| + |lit|
      ensures !SplitsAt(a + lit + b, p)
    {
      NoCodeNoSplit(a, lit, b, p);
    }
  }

  /** A backslash arms the escape and the next character, a comma included,
      only disarms it: neither splits, and the pair leaves the whole state,
      literal and counters, as it was (script.py:22-28). */
  lemma EscapeKeepsState(st: ScanState, c: char)
    requires !st.lex.escape
    ensures Run(st, ['\\', c]) == st
    ensures !SplitsOn(st, '\\') && !SplitsOn(Next(st, '\\'), c)
  {
    RunTwo(st, '\\', c);
  }

  /** The same within a text: `\,` outside any escape is no split point at
      either position, and the state after the pair equals the state
      before it. */
  lemma EscapeNeverSplits(a: string, c: char, b: string)
    requires !Run(Init, a).lex.escape
    ensures var s := a + ['\\', c] + b;
      && !SplitsAt(s, |a|) && !SplitsAt(s, |a| + 1)
      && StateAfter(s, |a| + 2) == StateAfter(s, |a|)
  {
    var lit := ['\\', c];
    EscapeKeepsState(Run(Init, a), c);
    SpanPreserves(a, lit, b);
    assert lit[..0] == [];
    SpanNoSplit(a, lit, b, |a|);
    RunOne(Run(Init, a), '\\');
    assert lit[..1] == ['\\'];
    SpanNoSplit(a, lit, b, |a| + 1);
  }

  // ---------------------------------------------------------------------
  // Nesting: commas inside `()` and `[]` do not split

  /** The state with both counters moved by a fixed amount. */
  function Shifted(st: ScanState, dp: int, db: int): ScanState {
    st.(paren := st.paren + dp, bracket := st.bracket + db)
  }

  /** The counters never influence the literal state, and each character
      moves them by a fixed amount: reading from a shifted state gives the
      shifted result. */
  lemma {:induction false} RunShift(st: ScanState, dp: int, db: int, t: string)
    ensures Run(Shifted(st, dp, db), t) == Shifted(Run(st, t), dp, db)
    decreases |t|
  {
    if t != [] {
      RunShift(st, dp, db, t[..|t| - 1]);
    }
  }

  /** An opening bracket and its closing partner. */
  predicate Brackets(o: char, c: char) {
    (o == '(' && c == ')') || (o == '[' && c == ']')
  }

  /** The counter that the bracket `o` moves. */
  function Level(st: ScanState, o: char): int {
    if o == '(' then st.paren else st.bracket
  }

  /** Text that ends where it started and never closes more brackets of
      kind `o` than it opened. */
  predicate Nestable(x: string, o: char) {
    && Run(Init, x) == Init
    && forall k :: 0 <= k <= |x| ==> Level(Run(Init, x[..k]), o) >= 0
  }

  /** After the opening bracket, the state is that of the inner text
      shifted by the counters the bracket leaves open. */
  lemma GroupInside(st: ScanState, o: char, c: char, x: string, k: nat)
    requires st.lex == Fresh && Brackets(o, c) && k <= |x|
    ensures Run(st, [o] + x[..k])
      == Shifted(Run(Init, x[..k]), Level(st, '(') + (if o == '(' then 1 else 0), Level(st, '[') + (if o == '[' then 1 else 0))
  {
    var dp, db := if o == '(' then 1 else 0, if o == '[' then 1 else 0;
    RunAppend(st, [o], x[..k]);
    RunOne(st, o);
    assert Next(st, o) == Shifted(Init, st.paren + dp, st.bracket + db);
    RunShift(Init, st.paren + dp, st.bracket + db, x[..k]);
  }

  /** A bracketed group whose inner text is nestable leaves the state as
      it was. */
  lemma GroupRun(st: ScanState, o: char, c: char, x: string)
    requires st.lex == Fresh && Brackets(o, c) && Nestable(x, o)
    ensures Run(st, [o] + x + [c]) == st
  {
    GroupInside(st, o, c, x, |x|);
    assert x[..|x|] == x;
    RunAppend(st, [o] + x, [c]);
    RunOne(Run(st, [o] + x), c);
  }

  /** No character of the group is a split point when read from `st`. */
  lemma GroupNoSplit(st: ScanState, o: char, c: char, x: string, k: nat)
    requires st.lex == Fresh && Level(st, o) >= 0 && Brackets(o, c) && Nestable(x, o)
    requires k < |x| + 2
    ensures !SplitsOn(Run(st, ([o] + x + [c])[..k]), ([o] + x + [c])[k])
  {
    var lit := [o] + x + [c];
    if 1 <= k <= |x| {
      assert lit[..k] == [o] + x[..k - 1];
      assert lit[k] == x[k - 1];
      GroupInside(st, o, c, x, k - 1);
      assert Level(Run(Init, x[..k - 1]), o) >= 0;
    } else if k == 0 {
      assert lit[k] == o;
    } else {
      assert lit[k] == c;
    }
  }

  /** A character whose state and value do not split, inside a span, is no
      split point of the whole text. */
  lemma SpanNoSplit(a: string, lit: string, b: string, p: int)
    requires |a| <= p < |a| + |lit|
    requires !SplitsOn(Run(Run(Init, a), lit[..p - |a|]), lit[p - |a|])
    ensures !SplitsAt(a + lit + b, p)
  {
    SpanPrefix(a, lit, b, p);
    RunAppend(Init, a, lit[..p - |a|]);
  }

  lemma SpanPrefix(a: string, lit: string, b: string, p: int)
    requires |a| <= p < |a| + |lit|
    ensures (a + lit + b)[..p] == a + lit[..p - |a|]
    ensures (a + lit + b)[p] == lit[p - |a|]
  {
  }

  /** A bracketed group, `(x)` or `[x]`, whose inner text ends where it
      started and never closes more than it opened, contains no split point
      and leaves the state as it was, when it starts outside literals and
      at a non-negative depth. This is how `b(c, d)` and `[e, f]` stay one
      argument each. */
  lemma NestedNeverSplits(a: string, o: char, x: string, c: char, b: string)
    requires Run(Init, a).lex == Fresh && Level(Run(Init, a), o) >= 0
    requires Brackets(o, c) && Nestable(x, o)
    ensures var s := a + ([o] + x + [c]) + b;
      && (forall p :: |a| <= p < |a| + |x| + 2 ==> !SplitsAt(s, p))
      && StateAfter(s, |a| + |x| + 2) == StateAfter(s, |a|)
  {
    var s := a + ([o] + x + [c]) + b;
    forall p | |a| <= p < |a| + |x| + 2
      ensures !SplitsAt(s, p)
    {
      GroupNoSplit(Run(Init, a), o, c, x, p - |a|);
      SpanNoSplit(a, [o] + x + [c], b, p);
    }
    assert StateAfter(s, |a| + |x| + 2) == StateAfter(s, |a|) by {
      GroupRun(Run(Init, a), o, c, x);
      SpanPreserves(a, [o] + x + [c], b);
    }
  }

  /** A bracketed group with nestable inner text is a self-contained
      argument, so the round trip of `ArgsRoundTrip` applies to it. */
  lemma GroupInert(o: char, x: string, c: char)
    requires Brackets(o, c) && Nestable(x, o)
    ensures Inert([o] + x + [c])
  {
    var g := [o] + x + [c];
    GroupRun(Init, o, c, x);
    NestedNeverSplits([], o, x, c, []);
    assert [] + g + [] == g;
  }

  // ---------------------------------------------------------------------
  // The pieces are determined by their join and their separators

  lemma {:induction false} SepsBelow(segs: seq<string>)
    ensures forall p :: p in Seps(segs) ==> 0 <= p < |Join(segs)|
    decreases |segs|
  {
    if |segs| > 1 {
      SepsBelow(segs[..|segs| - 1]);
    }
  }

  lemma SepsEmpty(segs: seq<string>)
    requires |segs| > 0
    ensures Seps(segs) == {} <==> |segs| == 1
  {
    if |segs| > 1 {
      assert |Join(segs[..|segs| - 1])| in Seps(segs);
    }
  }

  /** Two piece lists with the same join and the same separator positions
      are equal. */
  lemma {:induction false} SegsUnique(a: seq<string>, b: seq<string>)
    requires |a| > 0 && |b| > 0
    requires Join(a) == Join(b) && Seps(a) == Seps(b)
    ensures a == b
    decreases |a|
  {
    SepsEmpty(a);
    SepsEmpty(b);
    if |a| > 1 {
      var ia, ib := a[..|a| - 1], b[..|b| - 1];
      var ma, mb := |Join(ia)|, |Join(ib)|;
      SepsBelow(ia);
      SepsBelow(ib);
      assert ma in Seps(b) && mb in Seps(a);
      assert ma == mb;
      assert Join(ia) == Join(a)[..ma];
      assert Join(ib) == Join(b)[..mb];
      assert a[|a| - 1] == Join(a)[ma + 1..];
      assert b[|b| - 1] == Join(b)[mb + 1..];
      assert Seps(ia) == Seps(a) - {ma};
      assert Seps(ib) == Seps(b) - {mb};
      SegsUnique(ia, ib);
      assert a == ia + [a[|a| - 1]];
      assert b == ib + [b[|b| - 1]];
    }
  }

  /** Text without any top-level comma is a single argument: the stripped
      text, or none at all when it is blank. */
  lemma OneArgument(s: string)
    requires forall p :: !SplitsAt(s, p)
    ensures AllSpace(s) ==> SplitArgs(s) == []
    ensures !AllSpace(s) ==> SplitArgs(s) == [Strip(s)]
  {
    var raw := RawSegments(s);
    assert Seps(raw) == {};
    SepsEmpty(raw);
  }

  // ---------------------------------------------------------------------
  // Splitting undoes joining

  /** `", ".join(xs)`. */
  function JoinArgs(xs: seq<string>): string
    decreases |xs|
  {
    if |xs| == 0 then ""
    else if |xs| == 1 then xs[0]
    else JoinArgs(xs[..|xs| - 1]) + ", " + xs[|xs| - 1]
  }

  /** An argument that is self-contained: it returns the automaton to its
      initial state (balanced brackets, closed literals, no dangling
      backslash) and has no top-level comma of its own. */
  predicate Inert(x: string) {
    && Run(Init, x) == Init
    && forall k :: 0 <= k < |x| ==> !SplitsAt(x, k)
  }

  /** The raw pieces of `JoinArgs(xs)`: the first argument, then each
      later argument behind the blank that followed its comma. */
  function Spaced(xs: seq<string>): (segs: seq<string>)
    requires |xs| > 0
    ensures |segs| == |xs| && segs[0] == xs[0]
    ensures forall j :: 0 < j < |xs| ==> segs[j] == " " + xs[j]
    decreases |xs|
  {
    if |xs| == 1 then xs
    else Spaced(xs[..|xs| - 1]) + [" " + xs[|xs| - 1]]
  }

  lemma SplitsInsideArg(t: string, x: string, p: int)
    requires Run(Init, t) == Init
    requires Inert(x)
    requires |t| + 2 <= p < |t| + 2 + |x|
    ensures !SplitsAt(t + ", " + x, p)
  {
    var s := t + ", " + x;
    var k := p - |t| - 2;
    assert s[..p] == (t + ", ") + x[..k];
    RunTwo(Init, ',', ' ');
    RunAppend(Init, t, ", ");
    RunAppend(Init, t + ", ", x[..k]);
    assert StateAfter(s, p) == StateAfter(x, k);
    assert s[p] == x[k];
    assert !SplitsAt(x, k);
  }

  /** The split points of `t + ", " + x`, when `t` leaves the automaton in
      its initial state and `x` is self-contained: those of `t`, plus the
      comma in between. */
  lemma SplitsOfJoin(t: string, x: string, p: int)
    requires Run(Init, t) == Init
    requires Inert(x)
    ensures SplitsAt(t + ", " + x, p) <==> SplitsAt(t, p) || p == |t|
  {
    if 0 <= p < |t| {
      assert t + ", " + x == t + (", " + x);
      SplitsAtPrefix(t, ", " + x, p);
    } else if p == |t| {
      SplitsAtSeparator(t, x);
    } else if p == |t| + 1 {
      assert (t + ", " + x)[p] == ' ';
    } else if |t| + 2 <= p < |t| + 2 + |x| {
      SplitsInsideArg(t, x, p);
    }
  }

  /** The comma of the separator splits. */
  lemma SplitsAtSeparator(t: string, x: string)
    requires Run(Init, t) == Init
    ensures SplitsAt(t + ", " + x, |t|)
  {
    var s := t + ", " + x;
    assert s[..|t|] == t;
    assert s[|t|] == ',';
  }

  lemma SpacedStep(xs: seq<string>)
    requires |xs| > 1
    ensures Join(Spaced(xs)) == Join(Spaced(xs[..|xs| - 1])) + ", " + xs[|xs| - 1]
    ensures Seps(Spaced(xs)) == Seps(Spaced(xs[..|xs| - 1])) + {|Join(Spaced(xs[..|xs| - 1]))|}
  {
    var c := Spaced(xs);
    assert c[..|c| - 1] == Spaced(xs[..|xs| - 1]);
  }

  lemma {:induction false} JoinedSplits(xs: seq<string>)
    requires |xs| > 0
    requires forall j :: 0 <= j < |xs| ==> Inert(xs[j])
    ensures Join(Spaced(xs)) == JoinArgs(xs)
    ensures Run(Init, JoinArgs(xs)) == Init
    ensures forall p :: p in Seps(Spaced(xs)) <==> SplitsAt(JoinArgs(xs), p)
    decreases |xs|
  {
    if |xs| == 1 {
      var x := xs[0];
      assert Inert(x);
      assert x[..|x|] == x;
    } else {
      var init := xs[..|xs| - 1];
      var x := xs[|xs| - 1];
      assert Inert(x);
      JoinedSplits(init);
      SpacedStep(xs);
      var t := JoinArgs(init);
      assert JoinArgs(xs) == t + ", " + x;
      forall p ensures p in Seps(Spaced(xs)) <==> SplitsAt(t + ", " + x, p) {
        SplitsOfJoin(t, x, p);
      }
      RunJoined(t, x);
    }
  }

  /** Two texts that each bring the automaton back to its start still do
      when joined with `, `. */
  lemma RunJoined(t: string, x: string)
    requires Run(Init, t) == Init && Run(Init, x) == Init
    ensures Run(Init, t + ", " + x) == Init
  {
    RunTwo(Init, ',', ' ');
    RunAppend(Init, t, ", ");
    RunAppend(Init, t + ", ", x);
  }

  /** The raw pieces are the only pieces that join back to the input with
      the top-level commas as separators. */
  lemma RawUnique(s: string, segs: seq<string>)
    requires |segs| > 0 && Join(segs) == s
    requires forall p :: p in Seps(segs) <==> SplitsAt(s, p)
    ensures RawSegments(s) == segs
  {
    var raw := RawSegments(s);
    forall p ensures p in Seps(raw) <==> p in Seps(segs) {
      assert p in Seps(raw) <==> SplitsAt(s, p);
      assert p in Seps(segs) <==> SplitsAt(s, p);
    }
    SegsUnique(raw, segs);
  }

  lemma RawOfJoin(xs: seq<string>)
    requires |xs| > 0
    requires forall j :: 0 <= j < |xs| ==> Inert(xs[j])
    ensures RawSegments(JoinArgs(xs)) == Spaced(xs)
  {
    JoinedSplits(xs);
    RawUnique(JoinArgs(xs), Spaced(xs));
  }

  lemma StripBlankFirst(x: string)
    requires x != [] && IsStripped(x)
    ensures Strip(" " + x) == x
  {
    StripAfterSpace(" ", x);
  }

  lemma StripSpaced(xs: seq<string>)
    requires |xs| > 0
    requires forall j :: 0 <= j < |xs| ==> xs[j] != [] && IsStripped(xs[j])
    ensures forall j :: 0 <= j < |xs| ==> Strip(Spaced(xs)[j]) == xs[j]
  {
    var segs := Spaced(xs);
    forall j | 0 <= j < |xs| ensures Strip(segs[j]) == xs[j] {
      if j == 0 {
        StripStripped(xs[0]);
      } else {
        StripBlankFirst(xs[j]);
      }
    }
  }

  /** `split_args` returns the stripped raw pieces, the last one being
      kept because it is not blank. */
  lemma SplitArgsOfPieces(s: string, ys: seq<string>)
    requires |RawSegments(s)| == |ys| > 0
    requires forall j :: 0 <= j < |ys| ==> Strip(RawSegments(s)[j]) == ys[j]
    requires ys[|ys| - 1] != []
    ensures SplitArgs(s) == ys
  {
    assert Strip(Last(RawSegments(s))) != [];
  }

  /** Empty argument text has no arguments. */
  lemma NoArguments()
    ensures SplitArgs("") == []
  {
    RawUnique("", [""]);
  }

  /** Splitting the comma-and-blank join of self-contained, stripped,
      non-empty arguments gives the arguments back. */
  lemma ArgsRoundTrip(xs: seq<string>)
    requires forall j :: 0 <= j < |xs| ==> xs[j] != [] && IsStripped(xs[j]) && Inert(xs[j])
    ensures SplitArgs(JoinArgs(xs)) == xs
  {
    if |xs| == 0 {
      NoArguments();
    } else {
      RawOfJoin(xs);
      StripSpaced(xs);
      SplitArgsOfPieces(JoinArgs(xs), xs);
    }
  }

  // ---------------------------------------------------------------------
  // A front-to-back reading of the same automaton, for concrete texts

  function RunFront(st: ScanState, t: string): ScanState
    decreases |t|
  {
    if t == [] then st else RunFront(Next(st, t[0]), t[1..])
  }

  /** No character of `t`, read from `st`, is a split point. */
  predicate QuietFront(st: ScanState, t: string)
    decreases |t|
  {
    t == [] || (!SplitsOn(st, t[0]) && QuietFront(Next(st, t[0]), t[1..]))
  }

  /** Reading `t` from `st`, the character at `k` is a split point. */
  predicate SplitsFrom(st: ScanState, t: string, k: int) {
    0 <= k < |t| && SplitsOn(Run(st, t[..k]), t[k])
  }

  lemma {:induction false} RunFrontIsRun(st: ScanState, t: string)
    ensures RunFront(st, t) == Run(st, t)
    decreases |t|
  {
    if t != [] {
      RunFrontIsRun(Next(st, t[0]), t[1..]);
      RunOne(st, t[0]);
      RunAppend(st, [t[0]], t[1..]);
      assert [t[0]] + t[1..] == t;
    }
  }

  lemma {:induction false} QuietFrontSound(st: ScanState, t: string)
    requires QuietFront(st, t)
    ensures forall k :: !SplitsFrom(st, t, k)
    decreases |t|
  {
    if t != [] {
      QuietFrontSound(Next(st, t[0]), t[1..]);
      forall k | 0 <= k < |t| ensures !SplitsFrom(st, t, k) {
        if k == 0 {
          assert t[..0] == [];
        } else {
          assert t[..k] == [t[0]] + t[1..][..k - 1];
          RunOne(st, t[0]);
          RunAppend(st, [t[0]], t[1..][..k - 1]);
          assert !SplitsFrom(Next(st, t[0]), t[1..], k - 1);
        }
      }
    }
  }

  /** A computable test for `Inert`. */
  predicate CheckInert(x: string) {
    RunFront(Init, x) == Init && QuietFront(Init, x)
  }

  lemma CheckInertSound(x: string)
    requires CheckInert(x)
    ensures Inert(x)
  {
    RunFrontIsRun(Init, x);
    QuietFrontSound(Init, x);
    forall k | 0 <= k < |x| ensures !SplitsAt(x, k) {
      assert !SplitsFrom(Init, x, k);
    }
  }

  /** `ArgsRoundTrip` with the computable test in place of `Inert`. */
  lemma ArgsRoundTripChecked(xs: seq<string>)
    requires forall j :: 0 <= j < |xs| ==> xs[j] != [] && IsStripped(xs[j]) && CheckInert(xs[j])
    ensures SplitArgs(JoinArgs(xs)) == xs
  {
    forall j | 0 <= j < |xs| ensures Inert(xs[j]) {
      CheckInertSound(xs[j]);
    }
    ArgsRoundTrip(xs);
  }

  lemma InertCall() ensures Inert("b(c, d)") { CheckInertSound("b(c, d)"); }
  lemma InertList() ensures Inert("[e, f]") { CheckInertSound("[e, f]"); }
  lemma InertName() ensures Inert("a") { CheckInertSound("a"); }

  /** A literal body grows by a plain character in front... */
  lemma LiteralPlain(c: char, rest: string, q: char)
    requires c != '\\' && c != q && LiteralBody(rest, q)
    ensures LiteralBody([c] + rest, q)
  {
    assert ([c] + rest)[1..] == rest;
  }

  /** ...or by an escape pair. */
  lemma LiteralEscaped(c: char, rest: string, q: char)
    requires LiteralBody(rest, q)
    ensures LiteralBody(['\\', c] + rest, q)
  {
    assert (['\\', c] + rest)[2..] == rest;
  }

  /** `it\'s, ok` is the body of a single-quoted literal. */
  lemma QuotedBody() ensures LiteralBody("it\\'s, ok", '\'') {
    var q := '\'';
    assert LiteralBody([], q);
    LiteralPlain('k', [], q);
    LiteralPlain('o', ['k'], q);
    LiteralPlain(' ', ['o', 'k'], q);
    LiteralPlain(',', [' ', 'o', 'k'], q);
    LiteralPlain('s', [',', ' ', 'o', 'k'], q);
    LiteralEscaped(q, ['s', ',', ' ', 'o', 'k'], q);
    LiteralPlain('t', ['\\', q, 's', ',', ' ', 'o', 'k'], q);
    LiteralPlain('i', ['t', '\\', q, 's', ',', ' ', 'o', 'k'], q);
    assert ['i'] + ['t', '\\', q, 's', ',', ' ', 'o', 'k'] == "it\\'s, ok";
  }

  /** A lone string literal is a self-contained argument. */
  lemma QuotedInert(q: char, body: string)
    requires IsQuote(q) && LiteralBody(body, q)
    ensures Inert(Quoted(q, body))
  {
    var x := Quoted(q, body);
    LiteralNeverSplits([], q, body, []);
    assert [] + x + [] == x;
    assert x[..|x|] == x;
  }

  lemma InertQuoted() ensures Inert("'it\\'s, ok'") {
    QuotedBody();
    QuotedInert('\'', "it\\'s, ok");
    assert Quoted('\'', "it\\'s, ok") == "'it\\'s, ok'";
  }

  /** The splitter on `a, b(c, d), [e, f]`: commas inside `()` and `[]` do
      not split. */
  lemma SplitNestedExample()
    ensures SplitArgs("a, b(c, d), [e, f]") == ["a", "b(c, d)", "[e, f]"]
  {
    NestedText();
    NestedPieces();
  }

  lemma NestedText()
    ensures JoinArgs(["a", "b(c, d)", "[e, f]"]) == "a, b(c, d), [e, f]"
  {
  }

  lemma NestedPieces()
    ensures SplitArgs(JoinArgs(["a", "b(c, d)", "[e, f]"])) == ["a", "b(c, d)", "[e, f]"]
  {
    InertName();
    InertCall();
    InertList();
    ArgsRoundTrip(["a", "b(c, d)", "[e, f]"]);
  }

  /** The splitter on `'it\'s, ok', $x`: a comma inside a quoted string,
      even one holding an escaped quote, does not split. */
  lemma SplitQuotedExample()
    ensures SplitArgs("'it\\'s, ok', $x") == ["'it\\'s, ok'", "$x"]
  {
    QuotedText();
    QuotedPieces();
  }

  lemma QuotedText()
    ensures JoinArgs(["'it\\'s, ok'", "$x"]) == "'it\\'s, ok', $x"
  {
  }

  lemma QuotedPieces()
    ensures SplitArgs(JoinArgs(["'it\\'s, ok'", "$x"])) == ["'it\\'s, ok'", "$x"]
  {
    InertQuoted();
    assert Inert("$x") by { CheckInertSound("$x"); }
    ArgsRoundTrip(["'it\\'s, ok'", "$x"]);
  }
}
