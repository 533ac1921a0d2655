/** `extract_call_args` (script.py:58-83): starting just after an opening
    parenthesis, find the parenthesis that closes it, skipping string
    literals and escaped characters. */
module CallArgs {
  import opened Text
  import opened Scanner

  /** Literal state plus the number of parentheses still open; the scan
      starts inside the call, so at depth one. */
  datatype Depth = Depth(lex: Lex, depth: int)

  const Inside: Depth := Depth(Fresh, 1)

  /** Only code parentheses move the depth. */
  function Advance(st: Depth, c: char): Depth {
    var rd := Step(st.lex, c);
    if rd.code && c == '(' then Depth(rd.next, st.depth + 1)
    else if rd.code && c == ')' then Depth(rd.next, st.depth - 1)
    else Depth(rd.next, st.depth)
  }

  /** The state after reading `t`, last character last. */
  function Walk(st: Depth, t: string): Depth
    decreases |t|
  {
    if t == [] then st else Advance(Walk(st, t[..|t| - 1]), t[|t| - 1])
  }

  /** Having read `content[start..k]`, the call is still open. */
  predicate Open(content: string, start: nat, k: nat)
    requires start <= k <= |content|
  {
    Walk(Inside, content[start..k]).depth > 0
  }

  lemma WalkOne(st: Depth, c: char)
    ensures Walk(st, [c]) == Advance(st, c)
  {
    assert [c][..0] == [];
  }

  /** Outside an escape, a backslash and the character after it leave the
      state, depth included, as it was: an escaped `(` or `)` does not
      count. */
  lemma EscapeKeepsDepth(st: Depth, c: char)
    requires !st.lex.escape
    ensures Walk(st, ['\\', c]) == st
  {
    WalkAppend(st, ['\\'], [c]);
    assert ['\\'] + [c] == ['\\', c];
    WalkOne(st, '\\');
    WalkOne(Advance(st, '\\'), c);
  }

  /** Inside a literal, reading the rest of its body changes nothing. */
  lemma {:induction false} WalkInsideLiteral(st: Depth, q: char, body: string)
    requires st.lex == Lex(Some(q), false)
    requires LiteralBody(body, q)
    ensures Walk(st, body) == st
    decreases |body|
  {
    if body != [] {
      var n := if body[0] == '\\' then 2 else 1;
      var rest := body[n..];
      assert body == body[..n] + rest;
      WalkAppend(st, body[..n], rest);
      if n == 2 {
        assert body[..n] == ['\\', body[1]];
        EscapeKeepsDepth(st, body[1]);
      } else {
        assert body[..n] == [body[0]];
        WalkOne(st, body[0]);
      }
      WalkInsideLiteral(st, q, rest);
    }
  }

  /** A whole string literal leaves the depth and the literal state as
      they were: parentheses inside quotes do not count. */
  lemma QuotedKeepsDepth(st: Depth, q: char, body: string)
    requires st.lex == Fresh && IsQuote(q) && LiteralBody(body, q)
    ensures Walk(st, Quoted(q, body)) == st
  {
    var inner := Depth(Lex(Some(q), false), st.depth);
    WalkOne(st, q);
    WalkInsideLiteral(inner, q, body);
    WalkAppend(st, [q], body);
    WalkAppend(st, [q] + body, [q]);
    WalkOne(inner, q);
  }

  /** The source's result: the argument text and the index of the closing
      parenthesis (or of where the text ran out). */
  datatype Extracted = Extracted(args: string, close: int)

  lemma WalkSnoc(content: string, start: nat, i: nat)
    requires start <= i < |content|
    ensures Walk(Inside, content[start..i + 1]) == Advance(Walk(Inside, content[start..i]), content[i])
  {
    assert content[start..i + 1][..i - start] == content[start..i];
  }

  /** The scanning loop: the index at which it stops reading. */
  function Scan(content: string, start: nat, i: nat, st: Depth): (stop: nat)
    requires start <= i <= |content|
    ensures i <= stop <= |content|
    decreases |content| - i
  {
    if i < |content| && st.depth > 0 then
      Scan(content, start, i + 1, Advance(st, content[i]))
    else i
  }

  /** Started in the state after `content[start..i]`, with the call open
      so far, the loop stops at the first index where the call has closed
      or at the end of the text. */
  lemma {:induction false} ScanStops(content: string, start: nat, i: nat, st: Depth)
    requires start <= i <= |content|
    requires st == Walk(Inside, content[start..i])
    requires forall k :: start <= k < i ==> Open(content, start, k)
    ensures var stop := Scan(content, start, i, st);
      && (forall k :: start <= k < stop ==> Open(content, start, k))
      && (stop == |content| || !Open(content, start, stop))
    decreases |content| - i
  {
    if i < |content| && st.depth > 0 {
      WalkSnoc(content, start, i);
      ScanStops(content, start, i + 1, Advance(st, content[i]));
    }
  }

  /** `extract_call_args(content, start)`. The loop stops at the first
      index where the call has closed, or at the end of the text; the
      returned index is one before the stop, and the argument text is the
      Python slice `content[start:stop-1]`, empty when it runs backwards
      (where it stops is stated by `ExtractStops`). */
  function ExtractCallArgs(content: string, start: nat): (r: Extracted)
    ensures start - 1 <= r.close
    ensures start <= |content| ==> r.close < |content|
    ensures start > |content| ==> r.close == start - 1 && r.args == []
    ensures start <= r.close ==> r.args == content[start..r.close]
    ensures r.close < start ==> r.args == []
  {
    if start > |content| then Extracted([], start - 1)
    else
      var stop := Scan(content, start, start, Inside);
      Extracted(if stop - 1 <= start then [] else content[start..stop - 1], stop - 1)
  }

  /** The call is open at every index up to the returned one, and closed
      right after it unless the text ran out there. */
  lemma ExtractStops(content: string, start: nat)
    requires start <= |content|
    ensures var r := ExtractCallArgs(content, start);
      && (forall k :: start <= k <= r.close ==> Open(content, start, k))
      && (r.close + 1 == |content| || !Open(content, start, r.close + 1))
  {
    assert content[start..start] == [];
    ScanStops(content, start, start, Inside);
  }

  /** Leaving the loop before the end means the call closed: the returned
      index holds a code `)`, and the depth went from one to zero there. */
  lemma {:induction false} ClosedAtParen(content: string, start: nat)
    requires start <= |content|
    requires !Open(content, start, ExtractCallArgs(content, start).close + 1)
    ensures var r := ExtractCallArgs(content, start);
      && start <= r.close < |content|
      && content[r.close] == ')'
      && r.args == content[start..r.close]
      && Walk(Inside, content[start..r.close]).depth == 1
      && Walk(Inside, content[start..r.close + 1]).depth == 0
  {
    var r := ExtractCallArgs(content, start);
    ExtractStops(content, start);
    assert content[start..start] == [];
    assert Open(content, start, start);
    var j := r.close;
    assert start <= j;
    WalkSnoc(content, start, j);
    assert Open(content, start, j);
  }

  /** Running out of text with the call still open is not an error: the
      returned index is the last one of the text, so the argument text
      loses its final character. */
  lemma DegradedAtEnd(content: string, start: nat)
    requires start <= |content|
    requires forall k :: start <= k <= |content| ==> Open(content, start, k)
    ensures ExtractCallArgs(content, start).close == |content| - 1
    ensures start < |content| ==> ExtractCallArgs(content, start).args == content[start..|content| - 1]
    ensures start == |content| ==> ExtractCallArgs(content, start).args == []
  {
    ExtractStops(content, start);
  }

  /** The text of a complete argument list: the call stays open throughout
      and ends at depth one outside any literal, so the next `)` closes
      it. */
  predicate Balanced(x: string) {
    Walk(Inside, x) == Inside && forall k :: 0 <= k <= |x| ==> Open(x, 0, k)
  }

  lemma OpenShift(pre: string, x: string, rest: string, k: nat)
    requires k <= |x|
    ensures Open(pre + x + rest, |pre|, |pre| + k) <==> Open(x, 0, k)
  {
    assert (pre + x + rest)[|pre|..|pre| + k] == x[..k] == x[0..k];
  }

  /** Extraction only looks at the call's own text: whatever comes before
      or after, a balanced argument list followed by `)` is returned whole,
      with the index of that `)`. */
  lemma {:induction false} ExtractLocal(pre: string, args: string, post: string)
    requires Balanced(args)
    ensures ExtractCallArgs(pre + args + ")" + post, |pre|) == Extracted(args, |pre| + |args|)
  {
    var content := pre + args + ")" + post;
    var s := |pre|;
    ArgsStayOpen(pre, args, post);
    ArgsCloseAfter(pre, args, post);
    ExtractStops(content, s);
  }

  lemma ArgsStayOpen(pre: string, args: string, post: string)
    requires Balanced(args)
    ensures forall k :: |pre| <= k <= |pre| + |args| ==> Open(pre + args + ")" + post, |pre|, k)
  {
    var content := pre + args + ")" + post;
    var s := |pre|;
    forall k | s <= k <= s + |args| ensures Open(content, s, k) {
      OpenShift(pre, args, ")" + post, k - s);
      assert pre + args + (")" + post) == content;
    }
  }

  lemma ArgsCloseAfter(pre: string, args: string, post: string)
    requires Balanced(args)
    ensures !Open(pre + args + ")" + post, |pre|, |pre| + |args| + 1)
    ensures (pre + args + ")" + post)[|pre|..|pre| + |args|] == args
  {
    var content := pre + args + ")" + post;
    var s := |pre|;
    var close := s + |args|;
    assert content[s..close + 1] == args + [')'];
    assert content[s..close + 1][..|args|] == args;
    assert content[s..close] == args;
  }

  /** The scanning loop's stop is the first index at which the call is
      closed or the text has run out: two indices with that property are
      the same. */
  lemma StopUnique(content: string, start: nat, a: nat, b: nat)
    requires start <= a <= |content| && start <= b <= |content|
    requires forall k :: start <= k < a ==> Open(content, start, k)
    requires a == |content| || !Open(content, start, a)
    requires forall k :: start <= k < b ==> Open(content, start, k)
    requires b == |content| || !Open(content, start, b)
    ensures a == b
  {
  }

  lemma OpenCut(content: string, i: nat, start: nat, k: nat)
    requires i <= start <= k <= |content|
    ensures Open(content[i..], start - i, k - i) <==> Open(content, start, k)
  {
    assert content[i..][start - i..k - i] == content[start..k];
  }

  lemma CloseShift(content: string, i: nat, start: nat)
    requires i <= start <= |content|
    ensures ExtractCallArgs(content[i..], start - i).close == ExtractCallArgs(content, start).close - i
  {
    var t := content[i..];
    var r := ExtractCallArgs(content, start);
    var q := ExtractCallArgs(t, start - i);
    ExtractStops(content, start);
    ExtractStops(t, start - i);
    var b := q.close + 1 + i;
    forall k | start <= k < b ensures Open(content, start, k) {
      OpenCut(content, i, start, k);
    }
    if b < |content| {
      OpenCut(content, i, start, b);
    }
    StopUnique(content, start, r.close + 1, b);
  }

  /** Extraction does not see anything before the call either: cutting
      off a prefix of the text shifts the returned index and keeps the
      argument text. */
  lemma ExtractShift(content: string, i: nat, start: nat)
    requires i <= start <= |content|
    ensures ExtractCallArgs(content[i..], start - i).args == ExtractCallArgs(content, start).args
    ensures ExtractCallArgs(content[i..], start - i).close == ExtractCallArgs(content, start).close - i
  {
    CloseShift(content, i, start);
    var r := ExtractCallArgs(content, start);
    var hi := if r.close < start then start else r.close;
    assert content[i..][start - i..hi - i] == content[start..hi];
  }

  // ---------------------------------------------------------------------
  // A front-to-back reading, for concrete texts

  function WalkFront(st: Depth, t: string): Depth
    decreases |t|
  {
    if t == [] then st else WalkFront(Advance(st, t[0]), t[1..])
  }

  /** The depth stays positive before and after every character of `t`. */
  predicate OpenFront(st: Depth, t: string)
    decreases |t|
  {
    st.depth > 0 && (t == [] || OpenFront(Advance(st, t[0]), t[1..]))
  }

  predicate OpenFrom(st: Depth, t: string, k: int) {
    0 <= k <= |t| && Walk(st, t[..k]).depth > 0
  }

  lemma {:induction false} WalkAppend(st: Depth, a: string, b: string)
    ensures Walk(st, a + b) == Walk(Walk(st, a), b)
    decreases |b|
  {
    if b == [] {
      assert a + b == a;
    } else {
      var b' := b[..|b| - 1];
      assert (a + b)[..|a + b| - 1] == a + b';
      WalkAppend(st, a, b');
    }
  }

  lemma {:induction false} WalkFrontIsWalk(st: Depth, t: string)
    ensures WalkFront(st, t) == Walk(st, t)
    decreases |t|
  {
    if t != [] {
      WalkFrontIsWalk(Advance(st, t[0]), t[1..]);
      assert [t[0]][..0] == [];
      WalkAppend(st, [t[0]], t[1..]);
      assert [t[0]] + t[1..] == t;
    }
  }

  lemma {:induction false} OpenFrontSound(st: Depth, t: string)
    requires OpenFront(st, t)
    ensures forall k :: 0 <= k <= |t| ==> OpenFrom(st, t, k)
    decreases |t|
  {
    assert t[..0] == [];
    if t != [] {
      OpenFrontSound(Advance(st, t[0]), t[1..]);
      forall k | 1 <= k <= |t| ensures OpenFrom(st, t, k) {
        assert OpenFrom(Advance(st, t[0]), t[1..], k - 1);
        assert t[..k] == [t[0]] + t[1..][..k - 1];
        assert [t[0]][..0] == [];
        WalkAppend(st, [t[0]], t[1..][..k - 1]);
      }
    }
  }

  /** A computable test for `Balanced`. */
  predicate CheckBalanced(x: string) {
    WalkFront(Inside, x) == Inside && OpenFront(Inside, x)
  }

  lemma CheckBalancedSound(x: string)
    requires CheckBalanced(x)
    ensures Balanced(x)
  {
    WalkFrontIsWalk(Inside, x);
    OpenFrontSound(Inside, x);
    forall k | 0 <= k <= |x| ensures Open(x, 0, k) {
      assert OpenFrom(Inside, x, k);
      assert x[0..k] == x[..k];
    }
  }

  /** Long texts are checked piecewise. */
  lemma {:induction false} FrontAppend(st: Depth, a: string, b: string)
    requires OpenFront(st, a) && OpenFront(WalkFront(st, a), b)
    ensures OpenFront(st, a + b)
    ensures WalkFront(st, a + b) == WalkFront(WalkFront(st, a), b)
    decreases |a|
  {
    if a == [] {
      assert a + b == b;
    } else {
      FrontAppend(Advance(st, a[0]), a[1..], b);
      assert (a + b)[1..] == a[1..] + b;
    }
  }

  /** Two balanced argument texts side by side are balanced: the call
      stays open through the first, which leaves the state where the
      second starts. */
  lemma BalancedConcat(a: string, b: string)
    requires Balanced(a) && Balanced(b)
    ensures Balanced(a + b)
  {
    WalkAppend(Inside, a, b);
    forall k | 0 <= k <= |a + b| ensures Open(a + b, 0, k) {
      if k <= |a| {
        assert Open(a, 0, k);
        assert (a + b)[0..k] == a[0..k];
      } else {
        var j := k - |a|;
        assert Open(b, 0, j);
        assert (a + b)[0..k] == a + b[0..j];
        WalkAppend(Inside, a, b[0..j]);
      }
    }
  }

  lemma CheckedCall() ensures CheckBalanced("a, b(c, d)") { }
  lemma CheckedList() ensures CheckBalanced(", [e, f]") { }

  lemma BalancedNested()
    ensures Balanced("a, b(c, d), [e, f]")
  {
    var t := "a, b(c, d)" + ", [e, f]";
    assert t == "a, b(c, d), [e, f]" by {
      assert |t| == 18;
      forall i | 0 <= i < 18 ensures t[i] == "a, b(c, d), [e, f]"[i] { }
    }
    CheckedCall();
    CheckBalancedSound("a, b(c, d)");
    CheckedList();
    CheckBalancedSound(", [e, f]");
    BalancedConcat("a, b(c, d)", ", [e, f]");
  }

  /** The call `foo(a, b(c, d), [e, f])`: the nested call's `)` does not
      close it; the last character does. */
  lemma ExtractNestedExample()
    ensures ExtractCallArgs("foo(a, b(c, d), [e, f])", 4) == Extracted("a, b(c, d), [e, f]", 22)
  {
    var t := "foo(" + "a, b(c, d), [e, f]" + ")" + "";
    assert t == "foo(a, b(c, d), [e, f])" by {
      assert |t| == 23;
      forall i | 0 <= i < 23 ensures t[i] == "foo(a, b(c, d), [e, f])"[i] { }
    }
    BalancedNested();
    ExtractLocal("foo(", "a, b(c, d), [e, f]", "");
  }

  lemma BalancedQuoted()
    ensures Balanced("')' . \"(\"")
  {
    CheckBalancedSound("')' . \"(\"");
  }

  /** Parentheses inside quotes do not move the depth. */
  lemma ExtractQuotedExample()
    ensures ExtractCallArgs("f(')' . \"(\") + 1", 2) == Extracted("')' . \"(\"", 11)
  {
    BalancedQuoted();
    ExtractLocal("f(", "')' . \"(\"", " + 1");
    assert "f(" + "')' . \"(\"" + ")" + " + 1" == "f(')' . \"(\") + 1";
  }

  lemma OpenThroughout(pre: string, x: string)
    requires OpenFront(Inside, x)
    ensures forall k :: |pre| <= k <= |pre + x| ==> Open(pre + x, |pre|, k)
  {
    OpenFrontSound(Inside, x);
    forall k | |pre| <= k <= |pre + x| ensures Open(pre + x, |pre|, k) {
      assert OpenFrom(Inside, x, k - |pre|);
      OpenShift(pre, x, [], k - |pre|);
      assert pre + x + [] == pre + x;
      assert x[0..k - |pre|] == x[..k - |pre|];
    }
  }

  /** A call whose text never closes: the result is the rest of the text
      minus its last character, and the index of that last character. */
  lemma ExtractUnclosed(pre: string, x: string)
    requires OpenFront(Inside, x)
    ensures ExtractCallArgs(pre + x, |pre|).close == |pre| + |x| - 1
    ensures x != [] ==> ExtractCallArgs(pre + x, |pre|).args == x[..|x| - 1]
    ensures x == [] ==> ExtractCallArgs(pre + x, |pre|).args == []
  {
    OpenThroughout(pre, x);
    DegradedAtEnd(pre + x, |pre|);
    if x != [] {
      DropLast(pre, x);
    }
  }

  lemma DropLast(pre: string, x: string)
    requires x != []
    ensures (pre + x)[|pre|..|pre + x| - 1] == x[..|x| - 1]
  {
  }

  /** `foo(a, b` runs out of text: the `b` is lost. */
  lemma ExtractUnclosedExample()
    ensures ExtractCallArgs("foo(" + "a, b", 4) == Extracted("a, ", 7)
  {
    ExtractUnclosed("foo(", "a, b");
  }
}
