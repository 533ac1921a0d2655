/** `convert_attributes` (script.py:95-103): a PHP attribute array such as
    `['class' => 'btn']` becomes the method chain `->class('btn')`. The
    array is read with the regular expression
    `(['"])(\w+)\1\s*=>\s*(['"])(.*?)\3` through `re.findall`, modelled
    here as an explicit left-to-right matcher. */
module Attributes {
  import opened Text
  import opened Scanner

  /** The key and value groups of one match. */
  datatype Pair = Pair(key: string, value: string)

  /** A match at the front of the text: its groups and its length. */
  datatype Hit = Hit(pair: Pair, len: nat)

  /** Length of the run of word characters at the front of `t`. */
  function WordRun(t: string): (n: nat)
    ensures n <= |t|
    ensures n < |t| ==> !IsWordChar(t[n])
  {
    if |t| > 0 && IsWordChar(t[0]) then 1 + WordRun(t[1..]) else 0
  }

  lemma {:induction false} WordRunWord(t: string)
    ensures forall k :: 0 <= k < WordRun(t) ==> IsWordChar(t[k])
    decreases |t|
  {
    if |t| > 0 && IsWordChar(t[0]) {
      WordRunWord(t[1..]);
      assert forall k :: 1 <= k < |t| ==> t[k] == t[1..][k - 1];
    }
  }

  /** `(.*?)q`: the length of the shortest run before a `q`, which may not
      cross a newline (the pattern is compiled without DOTALL). */
  function LazyValue(t: string, q: char): (r: Option<nat>)
    requires q != '\n'
    ensures r.Some? ==> r.value < |t| && t[r.value] == q
  {
    if t == [] then None
    else if t[0] == q then Some(0)
    else if t[0] == '\n' then None
    else
      match LazyValue(t[1..], q)
      case None => None
      case Some(n) => Some(n + 1)
  }

  /** What the lazy run passes over holds neither the quote nor a
      newline. */
  lemma {:induction false} LazyValueBefore(t: string, q: char)
    requires q != '\n' && LazyValue(t, q).Some?
    ensures forall k :: 0 <= k < LazyValue(t, q).value ==> t[k] != q && t[k] != '\n'
    decreases |t|
  {
    if t[0] != q {
      LazyValueBefore(t[1..], q);
      assert forall k :: 1 <= k < |t| ==> t[k] == t[1..][k - 1];
    }
  }

  /** The lazy run stops at the first quote that no newline precedes. */
  lemma {:induction false} LazyValueOf(value: string, q: char, rest: string)
    requires q != '\n'
    requires forall k :: 0 <= k < |value| ==> value[k] != q && value[k] != '\n'
    ensures LazyValue(value + [q] + rest, q) == Some(|value|)
    decreases |value|
  {
    var t := value + [q] + rest;
    if value != [] {
      assert t[0] == value[0];
      LazyValueOf(value[1..], q, rest);
      assert t[1..] == value[1..] + [q] + rest;
    }
  }

  /** `(['"])(\w+)\1` at the front of `t`: the length of the key. */
  function QuotedKey(t: string): (r: Option<nat>)
    ensures r.Some? ==> 2 + r.value <= |t|
  {
    if |t| == 0 || !IsQuote(t[0]) then None
    else
      var w := WordRun(t[1..]);
      if w == 0 || 1 + w >= |t| || t[1 + w] != t[0] then None else Some(w)
  }

  /** `\s*=>\s*` at the front of `t`: its length. */
  function Arrow(t: string): (r: Option<nat>)
    ensures r.Some? ==> 2 <= r.value <= |t|
  {
    var a := LeadingSpace(t);
    if a + 2 > |t| || t[a] != '=' || t[a + 1] != '>' then None
    else Some(a + 2 + LeadingSpace(t[a + 2..]))
  }

  /** `(['"])(.*?)\3` at the front of `t`: the length of the value. */
  function QuotedValue(t: string): (r: Option<nat>)
    ensures r.Some? ==> 2 + r.value <= |t|
  {
    if |t| == 0 || !IsQuote(t[0]) then None
    else LazyValue(t[1..], t[0])
  }

  /** The pattern tried at the front of `t`. Every quantifier in it is
      forced: `\w+` and `\s*` are greedy and can only give characters
      back to a quote, `=` or quote that they could not have matched, and
      `.*?` takes the first closing quote; so there is at most one way to
      match, and backtracking never finds another. */
  function MatchHere(t: string): (r: Option<Hit>)
    ensures r.Some? ==> 6 <= r.value.len <= |t|
  {
    match QuotedKey(t)
    case None => None
    case Some(w) => AfterKey(t[1..1 + w], 2 + w, t[2 + w..])
  }

  /** The rest of the pattern, `consumed` characters into the match. */
  function AfterKey(key: string, consumed: nat, u: string): (r: Option<Hit>)
    ensures r.Some? ==> consumed + 4 <= r.value.len <= consumed + |u| && r.value.pair.key == key
  {
    match Arrow(u)
    case None => None
    case Some(a) => AfterArrow(key, consumed + a, u[a..])
  }

  function AfterArrow(key: string, consumed: nat, v: string): (r: Option<Hit>)
    ensures r.Some? ==> consumed + 2 <= r.value.len <= consumed + |v| && r.value.pair.key == key
  {
    match QuotedValue(v)
    case None => None
    case Some(n) => Some(Hit(Pair(key, v[1..1 + n]), consumed + 2 + n))
  }

  function KeyToken(q: char, key: string): string { [q] + key + [q] }
  function ArrowToken(s1: string, s2: string): string { s1 + "=>" + s2 }
  function ValueToken(q: char, value: string): string { [q] + value + [q] }

  /** The text one match covers, pieced together from its parts. */
  function Token(q1: char, key: string, s1: string, s2: string, q3: char, value: string): string {
    KeyToken(q1, key) + ArrowToken(s1, s2) + ValueToken(q3, value)
  }

  /** The conditions the pattern puts on the parts of a match. */
  predicate TokenParts(q1: char, key: string, s1: string, s2: string, q3: char, value: string) {
    && IsQuote(q1) && IsWord(key) && AllSpace(s1) && AllSpace(s2) && IsQuote(q3)
    && (forall k :: 0 <= k < |value| ==> value[k] != q3 && value[k] != '\n')
  }

  lemma {:induction false} WordRunOf(a: string, b: string)
    requires forall k :: 0 <= k < |a| ==> IsWordChar(a[k])
    requires b != [] && !IsWordChar(b[0])
    ensures WordRun(a + b) == |a|
    decreases |a|
  {
    if a == [] {
      assert a + b == b;
    } else {
      assert (a + b)[0] == a[0];
      WordRunOf(a[1..], b);
      assert (a + b)[1..] == a[1..] + b;
    }
  }

  lemma {:induction false} SpaceRunOf(a: string, b: string)
    requires AllSpace(a)
    requires b != [] && !IsSpace(b[0])
    ensures LeadingSpace(a + b) == |a|
    decreases |a|
  {
    if a == [] {
      assert a + b == b;
    } else {
      assert (a + b)[0] == a[0];
      SpaceRunOf(a[1..], b);
      assert (a + b)[1..] == a[1..] + b;
    }
  }

  lemma QuotedKeyOf(q: char, key: string, rest: string)
    requires IsQuote(q) && IsWord(key)
    ensures QuotedKey(KeyToken(q, key) + rest) == Some(|key|)
  {
    var t := KeyToken(q, key) + rest;
    assert t[1..] == key + ([q] + rest);
    WordRunOf(key, [q] + rest);
    assert t[1 + |key|] == q;
  }

  lemma ArrowOf(s1: string, s2: string, rest: string)
    requires AllSpace(s1) && AllSpace(s2)
    requires rest != [] && !IsSpace(rest[0])
    ensures Arrow(ArrowToken(s1, s2) + rest) == Some(|ArrowToken(s1, s2)|)
  {
    var x := "=>" + s2 + rest;
    var t := s1 + x;
    assert ArrowToken(s1, s2) + rest == t;
    SpaceRunOf(s1, x);
    assert t[|s1|] == '=' && t[|s1| + 1] == '>';
    assert t[|s1| + 2..] == s2 + rest;
    SpaceRunOf(s2, rest);
    ArrowFrom(t, |s1|, |s2|);
  }

  /** `\s*=>\s*` given where its parts end. */
  lemma ArrowFrom(t: string, a: nat, b: nat)
    requires LeadingSpace(t) == a && a + 2 <= |t| && t[a] == '=' && t[a + 1] == '>'
    requires LeadingSpace(t[a + 2..]) == b
    ensures Arrow(t) == Some(a + 2 + b)
  {
  }

  lemma QuotedValueOf(q: char, value: string, rest: string)
    requires IsQuote(q)
    requires forall k :: 0 <= k < |value| ==> value[k] != q && value[k] != '\n'
    ensures QuotedValue(ValueToken(q, value) + rest) == Some(|value|)
  {
    var t := ValueToken(q, value) + rest;
    assert t[1..] == value + [q] + rest;
    LazyValueOf(value, q, rest);
  }

  lemma AfterArrowOf(key: string, consumed: nat, q: char, value: string, rest: string)
    requires IsQuote(q)
    requires forall k :: 0 <= k < |value| ==> value[k] != q && value[k] != '\n'
    ensures AfterArrow(key, consumed, ValueToken(q, value) + rest)
         == Some(Hit(Pair(key, value), consumed + |ValueToken(q, value)|))
  {
    QuotedValueOf(q, value, rest);
    assert (ValueToken(q, value) + rest)[1..1 + |value|] == value;
  }

  lemma AfterKeyOf(key: string, consumed: nat, s1: string, s2: string, vt: string, rest: string)
    requires AllSpace(s1) && AllSpace(s2)
    requires vt + rest != [] && !IsSpace((vt + rest)[0])
    ensures AfterKey(key, consumed, ArrowToken(s1, s2) + (vt + rest))
         == AfterArrow(key, consumed + |ArrowToken(s1, s2)|, vt + rest)
  {
    ArrowOf(s1, s2, vt + rest);
    assert (ArrowToken(s1, s2) + (vt + rest))[|ArrowToken(s1, s2)|..] == vt + rest;
  }

  lemma MatchHereOfKey(q: char, key: string, rest: string)
    requires IsQuote(q) && IsWord(key)
    ensures MatchHere(KeyToken(q, key) + rest) == AfterKey(key, |KeyToken(q, key)|, rest)
  {
    QuotedKeyOf(q, key, rest);
    var t := KeyToken(q, key) + rest;
    assert t[1..1 + |key|] == key;
    assert t[2 + |key|..] == rest;
  }

  lemma AfterKeyComplete(key: string, c: nat, s1: string, s2: string, q3: char, value: string, rest: string)
    requires AllSpace(s1) && AllSpace(s2) && IsQuote(q3)
    requires forall k :: 0 <= k < |value| ==> value[k] != q3 && value[k] != '\n'
    ensures AfterKey(key, c, ArrowToken(s1, s2) + (ValueToken(q3, value) + rest))
         == Some(Hit(Pair(key, value), c + |ArrowToken(s1, s2)| + |ValueToken(q3, value)|))
  {
    ValueTokenFirst(q3, value, rest);
    AfterKeyOf(key, c, s1, s2, ValueToken(q3, value), rest);
    AfterArrowOf(key, c + |ArrowToken(s1, s2)|, q3, value, rest);
  }

  lemma ValueTokenFirst(q: char, value: string, rest: string)
    requires IsQuote(q)
    ensures ValueToken(q, value) + rest != [] && !IsSpace((ValueToken(q, value) + rest)[0])
  {
    assert (ValueToken(q, value) + rest)[0] == q;
  }

  lemma MatchKeyPart(q1: char, key: string, s1: string, s2: string, q3: char, value: string, rest: string)
    requires IsQuote(q1) && IsWord(key)
    ensures MatchHere(KeyToken(q1, key) + (ArrowToken(s1, s2) + (ValueToken(q3, value) + rest)))
         == AfterKey(key, |KeyToken(q1, key)|, ArrowToken(s1, s2) + (ValueToken(q3, value) + rest))
  {
    MatchHereOfKey(q1, key, ArrowToken(s1, s2) + (ValueToken(q3, value) + rest));
  }

  lemma MatchRestPart(q1: char, key: string, s1: string, s2: string, q3: char, value: string, rest: string)
    requires AllSpace(s1) && AllSpace(s2) && IsQuote(q3)
    requires forall k :: 0 <= k < |value| ==> value[k] != q3 && value[k] != '\n'
    ensures AfterKey(key, |KeyToken(q1, key)|, ArrowToken(s1, s2) + (ValueToken(q3, value) + rest))
         == Some(Hit(Pair(key, value), |KeyToken(q1, key)| + |ArrowToken(s1, s2)| + |ValueToken(q3, value)|))
  {
    AfterKeyComplete(key, |KeyToken(q1, key)|, s1, s2, q3, value, rest);
  }

  /** Every text that has the shape of the pattern is matched, with the
      groups it was built from: the matcher misses nothing. */
  lemma MatchHereComplete(q1: char, key: string, s1: string, s2: string, q3: char, value: string, rest: string)
    requires TokenParts(q1, key, s1, s2, q3, value)
    ensures MatchHere(KeyToken(q1, key) + (ArrowToken(s1, s2) + (ValueToken(q3, value) + rest)))
         == Some(Hit(Pair(key, value), |KeyToken(q1, key)| + |ArrowToken(s1, s2)| + |ValueToken(q3, value)|))
  {
    MatchKeyPart(q1, key, s1, s2, q3, value, rest);
    MatchRestPart(q1, key, s1, s2, q3, value, rest);
  }

  lemma KeySound(t: string) returns (q: char, key: string)
    requires QuotedKey(t).Some?
    ensures IsQuote(q) && IsWord(key) && key == t[1..1 + QuotedKey(t).value]
    ensures t[..2 + QuotedKey(t).value] == KeyToken(q, key)
  {
    var w := QuotedKey(t).value;
    q := t[0];
    key := t[1..1 + w];
    WordRunWord(t[1..]);
    assert WordRun(t[1..]) == w;
    forall k | 0 <= k < |key| ensures IsWordChar(key[k]) {
      assert key[k] == t[1..][k];
    }
  }

  lemma ArrowSound(u: string) returns (s1: string, s2: string)
    requires Arrow(u).Some?
    ensures AllSpace(s1) && AllSpace(s2)
    ensures u[..Arrow(u).value] == ArrowToken(s1, s2)
  {
    var a := Arrow(u).value;
    var b := LeadingSpace(u);
    s1 := u[..b];
    s2 := u[b + 2..a];
    assert u[b + 2..][..a - b - 2] == s2;
  }

  lemma ValueSound(v: string) returns (q: char, value: string)
    requires QuotedValue(v).Some?
    ensures IsQuote(q) && value == v[1..1 + QuotedValue(v).value]
    ensures forall k :: 0 <= k < |value| ==> value[k] != q && value[k] != '\n'
    ensures v[..2 + QuotedValue(v).value] == ValueToken(q, value)
  {
    q := v[0];
    value := v[1..1 + QuotedValue(v).value];
    LazyValueBefore(v[1..], q);
  }

  /** A match starts with a quoted key, then the rest of the pattern. */
  lemma KeyPart(t: string) returns (c: nat, q: char, key: string)
    requires MatchHere(t).Some?
    ensures c <= |t| && IsQuote(q) && IsWord(key)
    ensures t[..c] == KeyToken(q, key)
    ensures MatchHere(t) == AfterKey(key, c, t[c..])
  {
    c := 2 + QuotedKey(t).value;
    q, key := KeySound(t);
  }

  /** The rest starts with an arrow, then the value. */
  lemma ArrowPart(key: string, c: nat, u: string) returns (a: nat, s1: string, s2: string)
    requires AfterKey(key, c, u).Some?
    ensures a <= |u| && AllSpace(s1) && AllSpace(s2)
    ensures u[..a] == ArrowToken(s1, s2)
    ensures AfterKey(key, c, u) == AfterArrow(key, c + a, u[a..])
  {
    a := Arrow(u).value;
    s1, s2 := ArrowSound(u);
  }

  /** The value ends the match. */
  lemma ValuePart(key: string, c: nat, v: string) returns (n: nat, q: char, value: string)
    requires AfterArrow(key, c, v).Some?
    ensures n + 2 <= |v| && IsQuote(q)
    ensures forall k :: 0 <= k < |value| ==> value[k] != q && value[k] != '\n'
    ensures v[..n + 2] == ValueToken(q, value)
    ensures AfterArrow(key, c, v) == Some(Hit(Pair(key, value), c + 2 + n))
  {
    n := QuotedValue(v).value;
    q, value := ValueSound(v);
  }

  /** After the key: an arrow and a value, which make up the rest of the
      match. */
  lemma AfterKeySound(key: string, c: nat, u: string) returns (s1: string, s2: string, q: char, value: string)
    requires AfterKey(key, c, u).Some?
    ensures var h := AfterKey(key, c, u).value;
      && c <= h.len && h.len - c <= |u|
      && h.pair == Pair(key, value)
      && AllSpace(s1) && AllSpace(s2) && IsQuote(q)
      && (forall k :: 0 <= k < |value| ==> value[k] != q && value[k] != '\n')
      && u[..h.len - c] == ArrowToken(s1, s2) + ValueToken(q, value)
  {
    var a, n;
    a, s1, s2 := ArrowPart(key, c, u);
    n, q, value := ValuePart(key, c + a, u[a..]);
    TwoSlices(u, a, n + 2, ArrowToken(s1, s2), ValueToken(q, value));
  }

  lemma TwoSlices(t: string, i: nat, j: nat, x: string, y: string)
    requires i + j <= |t|
    requires t[..i] == x && t[i..][..j] == y
    ensures t[..i + j] == x + y
  {
    assert t[..i + j] == t[..i] + t[i..][..j];
  }

  /** Conversely every match has the shape of the pattern: the returned
      parts rebuild the matched text. */
  lemma MatchHereSound(t: string) returns (q1: char, s1: string, s2: string, q3: char)
    requires MatchHere(t).Some?
    ensures var h := MatchHere(t).value;
      && TokenParts(q1, h.pair.key, s1, s2, q3, h.pair.value)
      && t[..h.len] == Token(q1, h.pair.key, s1, s2, q3, h.pair.value)
  {
    var c, key;
    c, q1, key := KeyPart(t);
    s1, s2, q3 := SoundAfterKey(t, c, q1, key);
  }

  /** The same, once the key token has been read. */
  lemma SoundAfterKey(t: string, c: nat, q1: char, key: string) returns (s1: string, s2: string, q3: char)
    requires c <= |t| && IsQuote(q1) && IsWord(key)
    requires t[..c] == KeyToken(q1, key)
    requires AfterKey(key, c, t[c..]).Some?
    ensures var h := AfterKey(key, c, t[c..]).value;
      && TokenParts(q1, h.pair.key, s1, s2, q3, h.pair.value)
      && t[..h.len] == Token(q1, h.pair.key, s1, s2, q3, h.pair.value)
  {
    var value;
    s1, s2, q3, value := AfterKeySound(key, c, t[c..]);
    SoundFrom(t, c, q1, key, AfterKey(key, c, t[c..]).value, s1, s2, q3, value);
  }

  lemma SoundFrom(t: string, c: nat, q1: char, key: string, h: Hit, s1: string, s2: string, q3: char, value: string)
    requires c <= |t| && c <= h.len && h.len - c <= |t[c..]| && IsQuote(q1) && IsWord(key)
    requires t[..c] == KeyToken(q1, key)
    requires h.pair == Pair(key, value)
    requires AllSpace(s1) && AllSpace(s2) && IsQuote(q3)
    requires forall k :: 0 <= k < |value| ==> value[k] != q3 && value[k] != '\n'
    requires t[c..][..h.len - c] == ArrowToken(s1, s2) + ValueToken(q3, value)
    ensures TokenParts(q1, h.pair.key, s1, s2, q3, h.pair.value)
    ensures t[..h.len] == Token(q1, h.pair.key, s1, s2, q3, h.pair.value)
  {
    TwoSlices(t, c, h.len - c, KeyToken(q1, key), ArrowToken(s1, s2) + ValueToken(q3, value));
    Assoc(KeyToken(q1, key), ArrowToken(s1, s2), ValueToken(q3, value));
  }


  /** The key is a word and the value stays on one line. */
  lemma MatchHereGroups(t: string)
    requires MatchHere(t).Some?
    ensures IsWord(MatchHere(t).value.pair.key) && '\n' !in MatchHere(t).value.pair.value
  {
    var q1, s1, s2, q3 := MatchHereSound(t);
  }

  lemma ArrowAt(u: string)
    requires Arrow(u).Some?
    ensures OccursAt(u, "=>", LeadingSpace(u))
  {
  }

  lemma ArrowAfterKey(t: string)
    requires MatchHere(t).Some?
    ensures QuotedKey(t).Some? && Arrow(t[2 + QuotedKey(t).value..]).Some?
  {
  }

  lemma ArrowInside(t: string, w: nat)
    requires 2 + w <= |t| && Arrow(t[2 + w..]).Some?
    ensures OccursAt(t, "=>", 2 + w + LeadingSpace(t[2 + w..]))
  {
    var u := t[2 + w..];
    ArrowAt(u);
    assert t[2 + w..|t|] == u;
    OccursInSlice(t, 2 + w, |t|, "=>", LeadingSpace(u));
  }

  /** Every match contains `=>`. */
  lemma MatchArrow(t: string) returns (i: nat)
    requires MatchHere(t).Some?
    ensures OccursAt(t, "=>", i)
  {
    ArrowAfterKey(t);
    var w := QuotedKey(t).value;
    ArrowInside(t, w);
    i := 2 + w + LeadingSpace(t[2 + w..]);
  }

  /** An occurrence inside a slice is an occurrence in the whole. */
  lemma OccursInSlice(s: string, lo: nat, hi: nat, pat: string, i: nat)
    requires lo <= hi <= |s|
    requires OccursAt(s[lo..hi], pat, i)
    ensures OccursAt(s, pat, lo + i)
  {
    var t := s[lo..hi];
    assert forall k :: 0 <= k < |pat| ==> s[lo + i + k] == t[i + k] == pat[k];
    assert s[lo + i..lo + i + |pat|] == pat;
  }

  // ---------------------------------------------------------------------
  // `re.findall` and the chain it produces

  /** `re.findall` of the pattern: try it at each position from the left;
      after a match, carry on where it ended, otherwise one character
      further. */
  function FindPairs(t: string): (r: seq<Pair>)
    ensures forall j :: 0 <= j < |r| ==> IsWord(r[j].key) && '\n' !in r[j].value
    decreases |t|
  {
    if t == [] then []
    else
      match MatchHere(t)
      case Some(h) =>
        MatchHereGroups(t);
        [h.pair] + FindPairs(t[h.len..])
      case None => FindPairs(t[1..])
  }

  lemma FindPairsSkip(t: string)
    requires t != [] && MatchHere(t).None?
    ensures FindPairs(t) == FindPairs(t[1..])
  {
  }

  /** Every match contains `=>`, so a text that yields pairs has one. */
  lemma {:induction false} FindPairsArrow(t: string) returns (i: nat)
    requires FindPairs(t) != []
    ensures OccursAt(t, "=>", i)
    decreases |t|
  {
    if MatchHere(t).Some? {
      i := MatchArrow(t);
    } else {
      FindPairsSkip(t);
      var i' := FindPairsArrow(t[1..]);
      assert t[1..|t|] == t[1..];
      OccursInSlice(t, 1, |t|, "=>", i');
      i := i' + 1;
    }
  }

  /** One link of the chain: `->key('value')`. */
  function Call(p: Pair): string {
    "->" + p.key + "('" + p.value + "')"
  }

  /** The chain built by the loop, one call per pair in order. */
  function Render(pairs: seq<Pair>): (r: string)
    ensures r == [] <==> pairs == []
    ensures pairs != [] ==> |r| >= 2 && r[..2] == "->"
  {
    if pairs == [] then [] else Call(pairs[0]) + Render(pairs[1..])
  }

  /** Outer brackets are dropped when the stripped text has both. */
  function Unwrap(s: string): (r: string)
    ensures StartsWith(s, '[') && EndsWith(s, ']') ==> |r| + 2 == |s| && s == "[" + r + "]"
    ensures !(StartsWith(s, '[') && EndsWith(s, ']')) ==> r == s
  {
    if StartsWith(s, '[') && EndsWith(s, ']') then s[1..|s| - 1] else s
  }

  /** `convert_attributes(array_str)`: the chain of the pairs found in the
      stripped, unwrapped text. It is empty or a run of `->` calls. */
  function ConvertAttributes(a: string): (r: string)
    ensures r == [] || (|r| >= 2 && r[..2] == "->")
  {
    Render(FindPairs(Unwrap(Strip(a))))
  }

  /** Surrounding whitespace makes no difference to the conversion. */
  lemma ConvertIgnoresSpace(a: string)
    ensures ConvertAttributes(Strip(a)) == ConvertAttributes(a)
  {
    StripIdempotent(a);
  }

  lemma UnwrapArrow(s: string) returns (k: nat)
    requires FindPairs(Unwrap(s)) != []
    ensures OccursAt(s, "=>", k)
  {
    var j := FindPairsArrow(Unwrap(s));
    var inner := Unwrap(s);
    if inner != s {
      assert s[1..1 + |inner|] == inner;
      OccursInSlice(s, 1, 1 + |inner|, "=>", j);
      k := j + 1;
    } else {
      k := j;
    }
  }

  lemma StripArrow(a: string, j: nat) returns (i: nat)
    requires OccursAt(Strip(a), "=>", j)
    ensures OccursAt(a, "=>", i)
  {
    var lo := LeadingSpace(a);
    StripParts(a);
    OccursInSlice(a, lo, lo + |Strip(a)|, "=>", j);
    i := lo + j;
  }

  lemma ConvertFoundPairs(a: string)
    requires ConvertAttributes(a) != []
    ensures FindPairs(Unwrap(Strip(a))) != []
  {
  }

  /** Only text containing `=>` converts to something; in particular `[]`
      converts to nothing. */
  lemma ConvertNeedsArrow(a: string) returns (i: nat)
    requires ConvertAttributes(a) != []
    ensures OccursAt(a, "=>", i)
  {
    ConvertFoundPairs(a);
    var j := UnwrapArrow(Strip(a));
    i := StripArrow(a, j);
  }

  // ---------------------------------------------------------------------
  // Round trip: a PHP array literal, each entry with its own quotes and its
  // own whitespace around `=>`, and any quote-free text between entries

  /** How one entry is written: the quote around the key, the whitespace
      before and after `=>`, and the quote around the value. */
  datatype Style = Style(keyQuote: char, before: string, after: string, valueQuote: char)

  /** One entry of an array literal and the text that follows it up to the
      next entry: a comma, a line break, a trailing comma, or nothing. */
  datatype Entry = Entry(pair: Pair, style: Style, sep: string)

  /** Text without a quote character, where no match can start. */
  predicate Quiet(t: string) {
    forall k :: 0 <= k < |t| ==> !IsQuote(t[k])
  }

  /** An entry the pattern reads back: its parts meet the pattern's
      conditions (word key, whitespace around `=>`, a value free of its
      quote and of newlines) and the text after it is quiet. */
  predicate Writable(e: Entry) {
    && TokenParts(e.style.keyQuote, e.pair.key, e.style.before, e.style.after, e.style.valueQuote, e.pair.value)
    && Quiet(e.sep)
  }

  /** `'key' => 'value'` with quotes `q1` and `q3` and whitespace `s1`
      and `s2` around the arrow, followed by `rest`. */
  function EntryThen(p: Pair, q1: char, s1: string, s2: string, q3: char, rest: string): string {
    KeyToken(q1, p.key) + (ArrowToken(s1, s2) + (ValueToken(q3, p.value) + rest))
  }

  /** The entries of an array literal, each followed by its separator. */
  function Entries(es: seq<Entry>): string
    decreases |es|
  {
    if es == [] then []
    else
      var st := es[0].style;
      EntryThen(es[0].pair, st.keyQuote, st.before, st.after, st.valueQuote, es[0].sep + Entries(es[1..]))
  }

  /** The pairs the entries were written from, in order. */
  function PairsOf(es: seq<Entry>): (r: seq<Pair>)
    ensures |r| == |es| && forall j :: 0 <= j < |es| ==> r[j] == es[j].pair
    decreases |es|
  {
    if es == [] then [] else [es[0].pair] + PairsOf(es[1..])
  }

  /** The array literal: `[`, leading text, the entries, `]`. */
  function EncodeArray(lead: string, es: seq<Entry>): string {
    "[" + (lead + Entries(es)) + "]"
  }

  lemma FindPairsTake(t: string, h: Hit, rest: string)
    requires MatchHere(t) == Some(h) && t[h.len..] == rest
    ensures FindPairs(t) == [h.pair] + FindPairs(rest)
  {
  }

  lemma EntryRest(p: Pair, q1: char, s1: string, s2: string, q3: char, rest: string)
    ensures |KeyToken(q1, p.key)| + |ArrowToken(s1, s2)| + |ValueToken(q3, p.value)| <= |EntryThen(p, q1, s1, s2, q3, rest)|
    ensures EntryThen(p, q1, s1, s2, q3, rest)[|KeyToken(q1, p.key)| + |ArrowToken(s1, s2)| + |ValueToken(q3, p.value)|..] == rest
  {
  }

  lemma MatchEntry(p: Pair, q1: char, s1: string, s2: string, q3: char, rest: string)
    requires TokenParts(q1, p.key, s1, s2, q3, p.value)
    ensures MatchHere(EntryThen(p, q1, s1, s2, q3, rest)) == Some(Hit(p, |KeyToken(q1, p.key)| + |ArrowToken(s1, s2)| + |ValueToken(q3, p.value)|))
  {
    MatchHereComplete(q1, p.key, s1, s2, q3, p.value, rest);
  }

  /** An entry is matched whole, and the text after the match is what
      followed the entry. */
  lemma EntryMatch(p: Pair, q1: char, s1: string, s2: string, q3: char, rest: string) returns (h: Hit)
    requires TokenParts(q1, p.key, s1, s2, q3, p.value)
    ensures h.pair == p
    ensures MatchHere(EntryThen(p, q1, s1, s2, q3, rest)) == Some(h)
    ensures h.len <= |EntryThen(p, q1, s1, s2, q3, rest)| && EntryThen(p, q1, s1, s2, q3, rest)[h.len..] == rest
  {
    var n := |KeyToken(q1, p.key)| + |ArrowToken(s1, s2)| + |ValueToken(q3, p.value)|;
    h := Hit(p, n);
    assert EntryThen(p, q1, s1, s2, q3, rest)[n..] == rest by {
      EntryRest(p, q1, s1, s2, q3, rest);
    }
    assert MatchHere(EntryThen(p, q1, s1, s2, q3, rest)) == Some(h) by {
      MatchEntry(p, q1, s1, s2, q3, rest);
    }
  }

  lemma FindPairsEntry(p: Pair, q1: char, s1: string, s2: string, q3: char, rest: string)
    requires TokenParts(q1, p.key, s1, s2, q3, p.value)
    ensures FindPairs(EntryThen(p, q1, s1, s2, q3, rest)) == [p] + FindPairs(rest)
  {
    var h := EntryMatch(p, q1, s1, s2, q3, rest);
    FindPairsTake(EntryThen(p, q1, s1, s2, q3, rest), h, rest);
  }

  /** Every match starts with a quote. */
  lemma NoQuoteNoMatch(t: string)
    requires t != [] && !IsQuote(t[0])
    ensures MatchHere(t).None?
  {
  }

  /** Quiet text in front adds no pairs and hides none. */
  lemma {:induction false} FindPairsQuiet(sep: string, rest: string)
    requires Quiet(sep)
    ensures FindPairs(sep + rest) == FindPairs(rest)
    decreases |sep|
  {
    if sep != [] {
      var t := sep + rest;
      assert t[0] == sep[0] && !IsQuote(sep[0]);
      NoQuoteNoMatch(t);
      FindPairsSkip(t);
      assert t[1..] == sep[1..] + rest;
      assert Quiet(sep[1..]) by {
        forall k | 0 <= k < |sep| - 1 ensures !IsQuote(sep[1..][k]) {
          assert sep[1..][k] == sep[k + 1];
        }
      }
      FindPairsQuiet(sep[1..], rest);
    } else {
      assert sep + rest == rest;
    }
  }

  /** `re.findall` recovers exactly the pairs the entries were written
      from, in order, whatever quotes, spacing and separators each entry
      uses. */
  lemma {:induction false} FindPairsEntries(es: seq<Entry>)
    requires forall j :: 0 <= j < |es| ==> Writable(es[j])
    ensures FindPairs(Entries(es)) == PairsOf(es)
    decreases |es|
  {
    if es != [] {
      var e := es[0];
      var st := e.style;
      var tail := Entries(es[1..]);
      assert Writable(e);
      FindPairsEntries(es[1..]);
      FindPairsQuiet(e.sep, tail);
      FindPairsEntry(e.pair, st.keyQuote, st.before, st.after, st.valueQuote, e.sep + tail);
    }
  }

  /** Stripping and unwrapping text in brackets leaves what is inside. */
  lemma UnwrapBrackets(body: string)
    ensures Unwrap(Strip("[" + body + "]")) == body
  {
    var s := "[" + body + "]";
    assert s[0] == '[' && s[|s| - 1] == ']';
    StripStripped(s);
    assert s[1..|s| - 1] == body;
  }

  /** Stripping and unwrapping an array literal leaves its leading text
      and its entries. */
  lemma UnwrapEncoded(lead: string, es: seq<Entry>)
    ensures Unwrap(Strip(EncodeArray(lead, es))) == lead + Entries(es)
  {
    UnwrapBrackets(lead + Entries(es));
  }

  /** Converting an array literal gives one `->key('value')` per entry, in
      order, whatever quotes, spacing around `=>` and separators each entry
      is written with. */
  lemma ConvertRoundTrip(lead: string, es: seq<Entry>)
    requires Quiet(lead)
    requires forall j :: 0 <= j < |es| ==> Writable(es[j])
    ensures ConvertAttributes(EncodeArray(lead, es)) == Render(PairsOf(es))
  {
    UnwrapEncoded(lead, es);
    FindPairsQuiet(lead, Entries(es));
    FindPairsEntries(es);
  }

  /** `['class' => "btn",'id'=>'x']`: entries with different quotes and
      spacing, separated by a bare comma, convert call by call. */
  lemma ConvertMixedExample(es: seq<Entry>)
    requires es == [
      Entry(Pair("class", "btn"), Style('\'', " ", " ", '"'), ","),
      Entry(Pair("id", "x"), Style('\'', "", "", '\''), "")]
    ensures ConvertAttributes(EncodeArray("", es)) == Render([Pair("class", "btn"), Pair("id", "x")])
  {
    MixedWritable(es[0], es[1]);
    ConvertRoundTrip("", es);
    var ps := PairsOf(es);
    assert ps == [es[0].pair, es[1].pair];
  }

  lemma MixedWritable(e0: Entry, e1: Entry)
    requires e0 == Entry(Pair("class", "btn"), Style('\'', " ", " ", '"'), ",")
    requires e1 == Entry(Pair("id", "x"), Style('\'', "", "", '\''), "")
    ensures Writable(e0) && Writable(e1)
  {
    assert IsWord("class") by { assert forall k :: 0 <= k < 5 ==> IsWordChar("class"[k]); }
    assert IsWord("id") by { assert forall k :: 0 <= k < 2 ==> IsWordChar("id"[k]); }
  }
}
