/** `extract_and_replace_calls` (script.py:192-224): every call
    `alias::name(...)` is found by plain text search, its argument text is
    cut out with the call-boundary extractor, split into arguments, and the
    whole call is replaced by the anchor code for `link` or `linkRoute`;
    the search resumes just after the call.

    The loop is written once over two parameters, the search for the next
    call site and the replacement of a call's argument text, so that its
    properties are proved apart from the text search and the extractor. */
module Rewriter {
  import opened Text
  import opened Arguments
  import opened CallArgs
  import opened Rules

  /** A call site: where the call starts, its argument text, and the index
      after the call at which the search resumes. */
  datatype Site = Site(pos: nat, args: string, resume: nat)

  /** A search for the next call site from an index on. */
  type Search = (string, nat) -> Option<Site>

  /** Every site the search reports lies at or after the index it was
      asked about, and resuming after it moves forward. */
  ghost predicate Advances(next: Search) {
    forall s: string, i: nat :: i <= |s| && next(s, i).Some? ==>
      i <= next(s, i).value.pos < next(s, i).value.resume <= |s|
  }

  /** The loop from index `idx` on: copy the text up to the next call
      site, replace the call, and carry on where the site says. */
  function Rewrite(content: string, next: Search, code: string -> string, idx: nat): string
    requires Advances(next) && idx <= |content|
    decreases |content| - idx
  {
    match next(content, idx)
    case None => content[idx..]
    case Some(site) =>
      content[idx..site.pos] + code(site.args) + Rewrite(content, next, code, site.resume)
  }

  /** When no call site is left the rest of the text is copied. */
  lemma RewriteDone(content: string, next: Search, code: string -> string, idx: nat)
    requires Advances(next) && idx <= |content|
    requires next(content, idx) == None
    ensures Rewrite(content, next, code, idx) == content[idx..]
  {
  }

  /** At a call site the text before it is copied and the call replaced. */
  lemma RewriteAt(content: string, next: Search, code: string -> string, idx: nat, site: Site)
    requires Advances(next) && idx <= |content|
    requires next(content, idx) == Some(site)
    ensures site.pos <= |content| && site.resume <= |content|
    ensures Rewrite(content, next, code, idx)
      == content[idx..site.pos] + code(site.args) + Rewrite(content, next, code, site.resume)
  {
  }

  /** A text with exactly one call site: the text before it and the text
      after it are copied, the call is replaced. */
  lemma RewriteOne(pre: string, call: string, post: string, args: string, next: Search, code: string -> string)
    requires Advances(next)
    requires next(pre + call + post, 0) == Some(Site(|pre|, args, |pre| + |call|))
    requires next(pre + call + post, |pre| + |call|) == None
    ensures Rewrite(pre + call + post, next, code, 0) == pre + code(args) + post
  {
    var content := pre + call + post;
    Around(pre, call, post);
    RewriteAt(content, next, code, 0, Site(|pre|, args, |pre| + |call|));
    RewriteDone(content, next, code, |pre| + |call|);
  }

  lemma Around(pre: string, call: string, post: string)
    ensures (pre + call + post)[0..|pre|] == pre
    ensures (pre + call + post)[|pre| + |call|..] == post
  {
  }

  // ---------------------------------------------------------------------
  // The search of `extract_and_replace_calls`

  /** `alias::name(`, the text the rewriter searches for. */
  function CallPattern(alias: string, name: string): (pat: string)
    ensures |pat| == |alias| + |name| + 3
  {
    alias + "::" + name + "("
  }

  /** `content.find(pat, idx)`, then `extract_call_args` on the text after
      the match; the search resumes one past the returned index. */
  function NextCall(content: string, pat: string, idx: nat): (r: Option<Site>)
    requires pat != []
    ensures r.Some? && idx <= |content| ==> idx <= r.value.pos < r.value.resume <= |content|
    ensures r.Some? ==> OccursAt(content, pat, r.value.pos)
    ensures r == None <==> forall k :: idx <= k ==> !OccursAt(content, pat, k)
  {
    var pos := Find(content, pat, idx);
    if pos == -1 then None
    else
      var e := ExtractCallArgs(content, pos + |pat|);
      Some(Site(pos, e.args, e.close + 1))
  }

  /** The search for one pattern, as a search function. */
  function CallSearch(pat: string): Search
    requires pat != []
  {
    (s: string, i: nat) => NextCall(s, pat, i)
  }

  /** What the search reports: the next match and the extractor's
      result after it. */
  lemma SearchStep(content: string, pat: string, idx: nat)
    requires pat != []
    requires Find(content, pat, idx) != -1
    ensures var pos := Find(content, pat, idx);
      var e := ExtractCallArgs(content, pos + |pat|);
      CallSearch(pat)(content, idx) == Some(Site(pos, e.args, e.close + 1))
  {
    NextCallFirst(content, pat, idx, Find(content, pat, idx));
    assert CallSearch(pat)(content, idx) == NextCall(content, pat, idx);
  }

  /** The search for one pattern moves forward. */
  lemma CallSearchAdvances(pat: string)
    requires pat != []
    ensures Advances(CallSearch(pat))
  {
  }

  /** What one call becomes, given its argument text. */
  function Replacement(name: string, args: string): string {
    CallCode(name, SplitArgs(args))
  }

  /** The replacement for calls to method `name`. */
  function CallReplacement(name: string): string -> string {
    args => Replacement(name, args)
  }

  /** `extract_and_replace_calls(content, alias, name)`. */
  function ExtractAndReplaceCalls(content: string, alias: string, name: string): string {
    var pat := CallPattern(alias, name);
    CallSearchAdvances(pat);
    Rewrite(content, CallSearch(pat), CallReplacement(name), 0)
  }

  /** `NextCall` is `find` followed by extraction after the pattern. */
  lemma NextCallFrom(content: string, pat: string, idx: nat, at: nat, args: string, resume: nat)
    requires pat != [] && at + |pat| <= |content|
    requires Find(content, pat, idx) == at
    requires ExtractCallArgs(content, at + |pat|) == Extracted(args, resume - 1)
    ensures NextCall(content, pat, idx) == Some(Site(at, args, resume))
  {
  }

  /** The occurrence at `at` is the next call when no earlier occurrence
      lies between `idx` and it. */
  lemma NextCallIn(content: string, pat: string, idx: nat, at: nat, args: string)
    requires pat != [] && idx <= at && at + |pat| <= |content|
    requires OccursAt(content, pat, at)
    requires forall k :: idx <= k < at ==> !OccursAt(content, pat, k)
    requires ExtractCallArgs(content, at + |pat|) == Extracted(args, at + |pat| + |args|)
    ensures NextCall(content, pat, idx) == Some(Site(at, args, at + |pat| + |args| + 1))
  {
    FindAt(content, pat, idx, at);
    NextCallFrom(content, pat, idx, at, args, at + |pat| + |args| + 1);
  }

  /** Regrouping a call site around its pattern. */
  lemma CallShape(a: string, pat: string, args: string, post: string)
    ensures a + pat + args + ")" + post == a + pat + (args + ")" + post)
  {
  }

  /** From `idx` on, the next call starts after the text `mid`; its
      argument list is balanced and closed by `)`, so it is reported whole,
      and the search resumes just after that `)`. */
  lemma NextCallAt(pre: string, mid: string, pat: string, args: string, post: string)
    requires pat != [] && Balanced(args)
    requires forall k :: |pre| <= k < |pre| + |mid| ==> !OccursAt(pre + mid + pat + args + ")" + post, pat, k)
    ensures NextCall(pre + mid + pat + args + ")" + post, pat, |pre|)
      == Some(Site(|pre| + |mid|, args, |pre| + |mid| + |pat| + |args| + 1))
  {
    NextCallAfter(pre + mid, pat, args, post, |pre|);
  }

  /** The same with the text before the call as one piece. */
  lemma NextCallAfter(a: string, pat: string, args: string, post: string, idx: nat)
    requires pat != [] && Balanced(args) && idx <= |a|
    requires forall k :: idx <= k < |a| ==> !OccursAt(a + pat + args + ")" + post, pat, k)
    ensures NextCall(a + pat + args + ")" + post, pat, idx) == Some(Site(|a|, args, |a| + |pat| + |args| + 1))
  {
    var content := a + pat + args + ")" + post;
    assert OccursAt(content, pat, |a|) by {
      CallShape(a, pat, args, post);
      Middle(a, pat, args + ")" + post);
    }
    ExtractAfterPattern(a, pat, args, post);
    NextCallIn(content, pat, idx, |a|, args);
  }

  lemma ExtractAfterPattern(a: string, pat: string, args: string, post: string)
    requires Balanced(args)
    ensures ExtractCallArgs(a + pat + args + ")" + post, |a| + |pat|) == Extracted(args, |a| + |pat| + |args|)
  {
    ExtractLocal(a + pat, args, post);
  }

  /** No call is found in a tail without the pattern. */
  lemma NextCallNone(pre: string, post: string, pat: string)
    requires pat != []
    requires forall k :: !OccursAt(post, pat, k)
    ensures NextCall(pre + post, pat, |pre|) == None
  {
    var content := pre + post;
    forall k | |pre| <= k
      ensures !OccursAt(content, pat, k)
    {
      if k + |pat| <= |content| {
        assert content[k..k + |pat|] == post[k - |pre|..k - |pre| + |pat|];
        assert !OccursAt(post, pat, k - |pre|);
      }
    }
  }

  /** Text without any call is returned unchanged. */
  lemma NoCallUnchanged(content: string, alias: string, name: string)
    requires forall k :: !OccursAt(content, CallPattern(alias, name), k)
    ensures ExtractAndReplaceCalls(content, alias, name) == content
  {
    var pat := CallPattern(alias, name);
    CallSearchAdvances(pat);
    NextCallNone([], content, pat);
    assert [] + content == content;
    RewriteDone(content, CallSearch(pat), CallReplacement(name), 0);
  }

  /** A text with one call: the text around it is copied and the call
      becomes the anchor code for its arguments. */
  lemma ReplaceOnlyCall(pre: string, args: string, post: string, alias: string, name: string)
    requires Balanced(args)
    requires forall k :: 0 <= k < |pre| ==>
      !OccursAt(pre + CallPattern(alias, name) + args + ")" + post, CallPattern(alias, name), k)
    requires forall k :: !OccursAt(post, CallPattern(alias, name), k)
    ensures ExtractAndReplaceCalls(pre + CallPattern(alias, name) + args + ")" + post, alias, name)
      == pre + Replacement(name, args) + post
  {
    var pat := CallPattern(alias, name);
    CallSearchAdvances(pat);
    CallPiece(pre, pat, args, post);
    ReplaceOnlyMatch(pre, pat + args + ")", post, pat, args, CallReplacement(name));
    assert CallReplacement(name)(args) == Replacement(name, args);
  }

  /** The same for any pattern and any replacement, with the call as one
      piece. */
  lemma ReplaceOnlyMatch(pre: string, call: string, post: string, pat: string, args: string, code: string -> string)
    requires pat != [] && Advances(CallSearch(pat)) && Balanced(args) && call == pat + args + ")"
    requires forall k :: 0 <= k < |pre| ==> !OccursAt(pre + call + post, pat, k)
    requires forall k :: !OccursAt(post, pat, k)
    ensures Rewrite(pre + call + post, CallSearch(pat), code, 0) == pre + code(args) + post
  {
    OnlySite(pre, pat, args, post);
    OnlyEnd(pre, call, post, pat);
    RewriteOne(pre, call, post, args, CallSearch(pat), code);
  }

  /** The call after call-free text is the first one found. */
  lemma OnlySite(pre: string, pat: string, args: string, post: string)
    requires pat != [] && Balanced(args)
    requires forall k :: 0 <= k < |pre| ==> !OccursAt(pre + (pat + args + ")") + post, pat, k)
    ensures CallSearch(pat)(pre + (pat + args + ")") + post, 0) == Some(Site(|pre|, args, |pre| + |pat + args + ")"|))
  {
    CallPiece(pre, pat, args, post);
    NextCallAt([], pre, pat, args, post);
  }

  /** No call is found in call-free text after the call. */
  lemma OnlyEnd(pre: string, call: string, post: string, pat: string)
    requires pat != []
    requires forall k :: !OccursAt(post, pat, k)
    ensures CallSearch(pat)(pre + call + post, |pre| + |call|) == None
  {
    NextCallNone(pre + call, post, pat);
  }

  /** The call, taken as one piece of the text. */
  lemma CallPiece(pre: string, pat: string, args: string, post: string)
    ensures [] + pre + pat + args + ")" + post == pre + pat + args + ")" + post
    ensures pre + pat + args + ")" + post == pre + (pat + args + ")") + post
    ensures pre + (pat + args + ")") + post == (pre + (pat + args + ")")) + post
  {
  }

  /** The replaced call is found in the output where the call started. */
  lemma RewriteShowsCode(content: string, next: Search, code: string -> string, site: Site)
    requires Advances(next)
    requires next(content, 0) == Some(site)
    ensures var out := Rewrite(content, next, code, 0);
      site.pos + |code(site.args)| <= |out| && out[site.pos..site.pos + |code(site.args)|] == code(site.args)
  {
    RewriteAt(content, next, code, 0, site);
  }

  /** The anchor code and the call text part within their first ten
      characters: the call has `::` right after the alias, or a word
      character where the anchor code has `(`. */
  lemma PatternIsNotAnchor(alias: string, name: string, code: string) returns (m: nat)
    requires IsWord(alias)
    requires |code| >= 10 && code[..10] == "html()->a("
    ensures m < |CallPattern(alias, name)| && m < |code|
    ensures CallPattern(alias, name)[m] != code[m]
  {
    var pat := CallPattern(alias, name);
    m := if |alias| <= 4 then |alias| else 4;
    assert code[m] == "html()->a("[m];
    if |alias| <= 4 {
      assert pat[m] == ':';
    } else {
      assert pat[m] == alias[4];
    }
  }

  /** A `link` call with two plain arguments, alone in the text, becomes
      `html()->a(href, title)` and nothing else changes. */
  lemma LinkCallRewritten(pre: string, href: string, title: string, post: string, alias: string)
    requires href != [] && IsStripped(href) && Inert(href)
    requires title != [] && IsStripped(title) && Inert(title)
    requires Balanced(href + ", " + title)
    requires forall k :: 0 <= k < |pre| ==>
      !OccursAt(pre + CallPattern(alias, "link") + (href + ", " + title) + ")" + post, CallPattern(alias, "link"), k)
    requires forall k :: !OccursAt(post, CallPattern(alias, "link"), k)
    ensures ExtractAndReplaceCalls(pre + CallPattern(alias, "link") + (href + ", " + title) + ")" + post, alias, "link")
      == pre + ("html()->a(" + href + ", " + title + ")") + post
  {
    LinkKeepsArguments(href, title);
    assert Replacement("link", href + ", " + title) == LinkCode([href, title]);
    ReplaceOnlyCall(pre, href + ", " + title, post, alias, "link");
  }

  /** A `linkRoute` call with only a route name, alone in the text, is
      completed with the defaults. */
  lemma LinkRouteCallRewritten(pre: string, route: string, post: string, alias: string)
    requires route != [] && IsStripped(route) && Inert(route)
    requires Balanced(route)
    requires forall k :: 0 <= k < |pre| ==>
      !OccursAt(pre + CallPattern(alias, "linkRoute") + route + ")" + post, CallPattern(alias, "linkRoute"), k)
    requires forall k :: !OccursAt(post, CallPattern(alias, "linkRoute"), k)
    ensures ExtractAndReplaceCalls(pre + CallPattern(alias, "linkRoute") + route + ")" + post, alias, "linkRoute")
      == pre + ("html()->a()->route(" + route + ", [])->html('')") + post
  {
    ArgsRoundTrip([route]);
    assert JoinArgs([route]) == route;
    LinkRouteBare(route);
    ReplaceOnlyCall(pre, route, post, alias, "linkRoute");
  }

  /** A call is always rewritten into something else: the anchor code
      starts with `html()->a(`, which no `alias::` with a word alias
      matches. */
  lemma CallChangesText(content: string, alias: string, name: string, p: nat)
    requires IsWord(alias)
    requires OccursAt(content, CallPattern(alias, name), p)
    ensures ExtractAndReplaceCalls(content, alias, name) != content
  {
    var pat := CallPattern(alias, name);
    var next := CallSearch(pat);
    var code := CallReplacement(name);
    CallSearchAdvances(pat);
    var site := NextCall(content, pat, 0).value;
    RewriteShowsCode(content, next, code, site);
    var c := Replacement(name, site.args);
    CallCodeHead(name, SplitArgs(site.args));
    var m := PatternIsNotAnchor(alias, name, c);
    DiffersInside(content, Rewrite(content, next, code, 0), site.pos, pat, c, m);
  }

  /** A text holding `pat` at `i` differs from one holding `c` there when
      the two disagree at some offset. */
  lemma DiffersInside(content: string, out: string, i: nat, pat: string, c: string, m: nat)
    requires OccursAt(content, pat, i)
    requires i + |c| <= |out| && out[i..i + |c|] == c
    requires m < |pat| && m < |c| && pat[m] != c[m]
    ensures out != content
  {
    assert out[i + m] == c[m];
    assert content[i + m] == pat[m];
  }

  /** For a word alias, the rewrite leaves the text as it is exactly when
      the text holds no call. */
  lemma UnchangedIffNoCall(content: string, alias: string, name: string)
    requires IsWord(alias)
    ensures ExtractAndReplaceCalls(content, alias, name) == content
        <==> forall k :: !OccursAt(content, CallPattern(alias, name), k)
  {
    if forall k :: !OccursAt(content, CallPattern(alias, name), k) {
      NoCallUnchanged(content, alias, name);
    } else {
      var p :| OccursAt(content, CallPattern(alias, name), p);
      CallChangesText(content, alias, name, p);
    }
  }

  // ---------------------------------------------------------------------
  // Any number of calls

  /** Text laid out as gaps and calls:
      `gaps[0] + pat + argss[0] + ")" + gaps[1] + ... + gaps[n]`. */
  function Calls(gaps: seq<string>, argss: seq<string>, pat: string): string
    requires |gaps| == |argss| + 1
    decreases |argss|
  {
    if argss == [] then gaps[0]
    else gaps[0] + pat + argss[0] + ")" + Calls(gaps[1..], argss[1..], pat)
  }

  /** The same layout with every call replaced by its code. */
  function Replaced(gaps: seq<string>, argss: seq<string>, name: string): string
    requires |gaps| == |argss| + 1
    decreases |argss|
  {
    if argss == [] then gaps[0]
    else gaps[0] + Replacement(name, argss[0]) + Replaced(gaps[1..], argss[1..], name)
  }

  /** No occurrence of `pat` starts inside the gap `g` when the call's
      own pattern follows it (an occurrence may not even overlap into that
      pattern). */
  predicate GapBeforeCall(g: string, pat: string) {
    forall k :: 0 <= k < |g| ==> !OccursAt(g + pat, pat, k)
  }

  lemma GapNoCall(pre: string, g: string, pat: string, tail: string)
    requires GapBeforeCall(g, pat)
    ensures forall k :: |pre| <= k < |pre| + |g| ==> !OccursAt(pre + g + pat + tail, pat, k)
  {
    var content := pre + g + pat + tail;
    forall k | |pre| <= k < |pre| + |g|
      ensures !OccursAt(content, pat, k)
    {
      if k + |pat| <= |content| {
        assert content[k..k + |pat|] == (g + pat)[k - |pre|..k - |pre| + |pat|];
        assert !OccursAt(g + pat, pat, k - |pre|);
      }
    }
  }

  lemma LayoutStep(pre: string, g: string, pat: string, a: string, rest: string)
    ensures pre + (g + pat + a + ")" + rest) == pre + g + pat + a + ")" + rest
    ensures pre + g + pat + a + ")" + rest == pre + g + pat + (a + ")" + rest)
    ensures (pre + g + pat + a + ")" + rest)[|pre|..|pre| + |g|] == g
  {
  }

  /** The loop at a gap followed by nothing but text without the pattern. */
  lemma RewriteLastGap(pre: string, g: string, pat: string, name: string)
    requires pat != [] && Advances(CallSearch(pat))
    requires forall k :: !OccursAt(g, pat, k)
    ensures Rewrite(pre + g, CallSearch(pat), CallReplacement(name), |pre|) == g
  {
    var content := pre + g;
    NextCallNone(pre, g, pat);
    assert CallSearch(pat)(content, |pre|) == None;
    RewriteDone(content, CallSearch(pat), CallReplacement(name), |pre|);
    assert content[|pre|..] == g;
  }

  /** The loop at a gap followed by a call: the gap is copied, the call
      replaced, and the loop resumes after the call's `)`. */
  lemma RewriteGapCall(pre: string, g: string, pat: string, a: string, rest: string, name: string)
    requires pat != [] && Advances(CallSearch(pat))
    requires Balanced(a) && GapBeforeCall(g, pat)
    ensures Rewrite(pre + g + pat + a + ")" + rest, CallSearch(pat), CallReplacement(name), |pre|)
      == g + Replacement(name, a)
         + Rewrite(pre + g + pat + a + ")" + rest, CallSearch(pat), CallReplacement(name), |pre + g + pat + a + ")"|)
  {
    var next := CallSearch(pat);
    var code := CallReplacement(name);
    var content := pre + g + pat + a + ")" + rest;
    var r := |pre| + |g| + |pat| + |a| + 1;
    SearchAfterGap(pre, g, pat, a, rest);
    RewriteStepAt(content, next, code, |pre|, g, a, r);
    assert code(a) == Replacement(name, a);
    assert |pre + g + pat + a + ")"| == r;
  }

  /** After a gap, the search reports the call that follows it. */
  lemma SearchAfterGap(pre: string, g: string, pat: string, a: string, rest: string)
    requires pat != [] && Balanced(a) && GapBeforeCall(g, pat)
    ensures var content := pre + g + pat + a + ")" + rest;
      && CallSearch(pat)(content, |pre|) == Some(Site(|pre| + |g|, a, |pre| + |g| + |pat| + |a| + 1))
      && content[|pre|..|pre| + |g|] == g
  {
    LayoutStep(pre, g, pat, a, rest);
    GapNoCall(pre, g, pat, a + ")" + rest);
    NextCallAt(pre, g, pat, a, rest);
  }

  /** A search reporting a call right after the gap `g`: the gap is
      copied, the call replaced, and the loop resumes where the site
      ends. */
  lemma RewriteStepAt(content: string, next: Search, code: string -> string, idx: nat, g: string, a: string, r: nat)
    requires Advances(next) && idx + |g| <= |content|
    requires next(content, idx) == Some(Site(idx + |g|, a, r))
    requires content[idx..idx + |g|] == g
    ensures r <= |content|
    ensures Rewrite(content, next, code, idx) == g + code(a) + Rewrite(content, next, code, r)
  {
    RewriteAt(content, next, code, idx, Site(idx + |g|, a, r));
  }

  /** The loop from the end of `pre` on, over gaps and calls. */
  lemma {:induction false} RewriteCalls(pre: string, gaps: seq<string>, argss: seq<string>, pat: string, name: string)
    requires pat != [] && Advances(CallSearch(pat))
    requires |gaps| == |argss| + 1
    requires forall j :: 0 <= j < |argss| ==> Balanced(argss[j]) && GapBeforeCall(gaps[j], pat)
    requires forall k :: !OccursAt(gaps[|argss|], pat, k)
    ensures Rewrite(pre + Calls(gaps, argss, pat), CallSearch(pat), CallReplacement(name), |pre|)
      == Replaced(gaps, argss, name)
    decreases |argss|
  {
    if argss == [] {
      RewriteLastGap(pre, gaps[0], pat, name);
    } else {
      var g, a := gaps[0], argss[0];
      var rest := Calls(gaps[1..], argss[1..], pat);
      LayoutStep(pre, g, pat, a, rest);
      RewriteGapCall(pre, g, pat, a, rest, name);
      RewriteCalls(pre + g + pat + a + ")", gaps[1..], argss[1..], pat, name);
      assert Replaced(gaps, argss, name) == g + Replacement(name, a) + Replaced(gaps[1..], argss[1..], name);
    }
  }

  /** Every call in the text is replaced, in order, and the text between
      and around the calls is copied unchanged. */
  lemma ReplaceEveryCall(gaps: seq<string>, argss: seq<string>, alias: string, name: string)
    requires |gaps| == |argss| + 1
    requires forall j :: 0 <= j < |argss| ==> Balanced(argss[j])
    requires forall j :: 0 <= j < |argss| ==> GapBeforeCall(gaps[j], CallPattern(alias, name))
    requires forall k :: !OccursAt(gaps[|argss|], CallPattern(alias, name), k)
    ensures ExtractAndReplaceCalls(Calls(gaps, argss, CallPattern(alias, name)), alias, name)
      == Replaced(gaps, argss, name)
  {
    var pat := CallPattern(alias, name);
    CallSearchAdvances(pat);
    RewriteCalls([], gaps, argss, pat, name);
    assert [] + Calls(gaps, argss, pat) == Calls(gaps, argss, pat);
  }

  // ---------------------------------------------------------------------
  // A call whose argument list never closes

  /** The extractor's degraded result for a call still open at the end
      of the text: everything after the pattern but the final character,
      up to the last index (script.py:83). */
  lemma UnclosedExtract(pre: string, pat: string, x: string)
    requires OpenFront(Inside, x) && x != []
    ensures ExtractCallArgs(pre + pat + x, |pre| + |pat|) == Extracted(x[..|x| - 1], |pre| + |pat| + |x| - 1)
  {
    ExtractUnclosed(pre + pat, x);
  }

  /** The search reports the first match at or after `idx`, with
      whatever the extractor makes of the text after it. */
  lemma NextCallFirst(content: string, pat: string, idx: nat, at: nat)
    requires pat != [] && idx <= at && OccursAt(content, pat, at)
    requires forall k :: idx <= k < at ==> !OccursAt(content, pat, k)
    ensures var e := ExtractCallArgs(content, at + |pat|);
      NextCall(content, pat, idx) == Some(Site(at, e.args, e.close + 1))
  {
    FindAt(content, pat, idx, at);
  }

  /** The call right after a gap is the first occurrence of its pattern. */
  lemma UnclosedFirst(pre: string, pat: string, x: string)
    requires GapBeforeCall(pre, pat)
    ensures OccursAt(pre + pat + x, pat, |pre|)
    ensures forall k :: 0 <= k < |pre| ==> !OccursAt(pre + pat + x, pat, k)
  {
    GapNoCall([], pre, pat, x);
    assert [] + pre + pat + x == pre + pat + x;
    Middle(pre, pat, x);
  }

  /** A call after a gap whose argument text runs to the end of the text
      without closing: the search reports it with the extractor's result,
      and resumes at the end. */
  lemma LastSite(pre: string, pat: string, x: string)
    requires pat != [] && GapBeforeCall(pre, pat) && x != []
    requires ExtractCallArgs(pre + pat + x, |pre| + |pat|) == Extracted(x[..|x| - 1], |pre| + |pat| + |x| - 1)
    ensures NextCall(pre + pat + x, pat, 0) == Some(Site(|pre|, x[..|x| - 1], |pre| + |pat| + |x|))
  {
    UnclosedFirst(pre, pat, x);
    NextCallFirst(pre + pat + x, pat, 0, |pre|);
  }

  /** Such a call is replaced from that argument text, and the loop stops
      at the end of the text. */
  lemma RewriteLast(pre: string, pat: string, x: string, name: string)
    requires pat != [] && Advances(CallSearch(pat)) && GapBeforeCall(pre, pat) && x != []
    requires ExtractCallArgs(pre + pat + x, |pre| + |pat|) == Extracted(x[..|x| - 1], |pre| + |pat| + |x| - 1)
    ensures Rewrite(pre + pat + x, CallSearch(pat), CallReplacement(name), 0) == pre + Replacement(name, x[..|x| - 1])
  {
    LastSite(pre, pat, x);
    assert CallSearch(pat)(pre + pat + x, 0) == NextCall(pre + pat + x, pat, 0);
    RewriteFinalSite(pre, pat, x, x[..|x| - 1], name);
  }

  /** The loop when the search reports a call right after `pre` that
      reaches to the end of the text. */
  lemma RewriteFinalSite(pre: string, pat: string, x: string, a: string, name: string)
    requires pat != [] && Advances(CallSearch(pat))
    requires CallSearch(pat)(pre + pat + x, 0) == Some(Site(|pre|, a, |pre| + |pat| + |x|))
    ensures Rewrite(pre + pat + x, CallSearch(pat), CallReplacement(name), 0) == pre + Replacement(name, a)
  {
    var r := |pre| + |pat| + |x|;
    var code := CallReplacement(name);
    assert (pre + pat + x)[0..|pre|] == pre;
    assert CallSearch(pat)(pre + pat + x, 0) == Some(Site(0 + |pre|, a, r));
    RewriteStepAt(pre + pat + x, CallSearch(pat), code, 0, pre, a, r);
    RewriteAtEnd(pre, pat, x, name);
    assert code(a) == Replacement(name, a);
    assert pre + code(a) + [] == pre + code(a);
  }

  /** The loop started at the end of the text adds nothing. */
  lemma RewriteAtEnd(pre: string, pat: string, x: string, name: string)
    requires pat != [] && Advances(CallSearch(pat))
    ensures Rewrite(pre + pat + x, CallSearch(pat), CallReplacement(name), |pre| + |pat| + |x|) == []
  {
    var content := pre + pat + x;
    var r := |pre| + |pat| + |x|;
    assert r == |content|;
    assert CallSearch(pat)(content, r) == NextCall(content, pat, r);
    RewriteDone(content, CallSearch(pat), CallReplacement(name), r);
  }

  /** A call left open at the end of the text is still replaced, from the
      argument text short of its last character: that character, which
      belongs to no call's arguments, is missing from the output, and
      nothing follows the replacement (script.py:83, 199, 223). */
  lemma RewriteUnclosed(pre: string, x: string, alias: string, name: string)
    requires GapBeforeCall(pre, CallPattern(alias, name))
    requires OpenFront(Inside, x) && x != []
    ensures ExtractAndReplaceCalls(pre + CallPattern(alias, name) + x, alias, name)
      == pre + Replacement(name, x[..|x| - 1])
  {
    CallSearchAdvances(CallPattern(alias, name));
    RewriteOpenCall(pre, CallPattern(alias, name), x, name);
  }

  /** The same for any pattern. */
  lemma RewriteOpenCall(pre: string, pat: string, x: string, name: string)
    requires pat != [] && Advances(CallSearch(pat)) && GapBeforeCall(pre, pat)
    requires OpenFront(Inside, x) && x != []
    ensures Rewrite(pre + pat + x, CallSearch(pat), CallReplacement(name), 0) == pre + Replacement(name, x[..|x| - 1])
  {
    UnclosedExtract(pre, pat, x);
    RewriteLast(pre, pat, x, name);
  }

  /** One search of the loop: `content.find(pat, idx)` and, on a match,
      `extract_call_args` on the text after it. */
  method FindCall(content: string, pat: string, idx: nat) returns (r: Option<Site>)
    requires pat != [] && idx <= |content|
    ensures r == CallSearch(pat)(content, idx)
  {
    var pos := Find(content, pat, idx);
    if pos == -1 {
      return None;
    }
    var e := ExtractCallArgs(content, pos + |pat|);
    return Some(Site(pos, e.args, e.close + 1));
  }

  /** The code for one call: `split_args`, then the anchor code. */
  method ReplaceCall(name: string, args: string) returns (piece: string)
    ensures piece == CallReplacement(name)(args)
  {
    var parts := SplitArgs(args);
    piece := CallCode(name, parts);
  }

  lemma Regroup(a: string, b: string, c: string, d: string)
    ensures a + (b + c + d) == (a + b + c) + d
  {
  }

  /** The loop of `extract_and_replace_calls` as written: search from
      `idx`, copy up to the call, extract and split its arguments, append
      the anchor code, and resume one past the returned index. */
  method ReplaceCallsLoop(content: string, alias: string, name: string) returns (out: string)
    ensures out == ExtractAndReplaceCalls(content, alias, name)
  {
    var pat := CallPattern(alias, name);
    CallSearchAdvances(pat);
    var next := CallSearch(pat);
    var code := CallReplacement(name);
    out := "";
    var idx: nat := 0;
    while true
      invariant idx <= |content|
      invariant out + Rewrite(content, next, code, idx) == Rewrite(content, next, code, 0)
      decreases |content| - idx
    {
      var found := FindCall(content, pat, idx);
      if found == None {
        RewriteDone(content, next, code, idx);
        out := out + content[idx..];
        return;
      }
      var site := found.value;
      var piece := ReplaceCall(name, site.args);
      RewriteAt(content, next, code, idx, site);
      var rest := Rewrite(content, next, code, site.resume);
      Regroup(out, content[idx..site.pos], piece, rest);
      out := out + content[idx..site.pos] + piece;
      idx := site.resume;
    }
  }
}
