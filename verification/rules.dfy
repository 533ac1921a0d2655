/** The replacement texts: the `replace_form_open` and `replace_form_close`
    callbacks (script.py:106-116), the `repl` callback of
    `replace_alias_generic` (script.py:229-233), and the code that
    `extract_and_replace_calls` builds for one `link` or `linkRoute` call
    (script.py:203-221). Each is a function of the captured text only; the
    regular expressions that capture it are not modelled. */
module Rules {
  import opened Text
  import opened Arguments
  import opened Attributes

  /** Both `startswith('[')` and `endswith(']')`. */
  predicate IsArray(s: string) {
    StartsWith(s, '[') && EndsWith(s, ']')
  }

  const FormPrefix: string := "html()->form()"

  /** A call chain on a new form builder. */
  function OnForm(chain: string): (r: string)
    ensures |r| == |FormPrefix| + |chain|
    ensures r[..|FormPrefix|] == FormPrefix && r[|FormPrefix|..] == chain
  {
    FormPrefix + chain
  }

  /** What follows the builder in the `open` replacement. */
  function OpenChain(args: string): (r: string)
    ensures |r| > 0 && r[|r| - 1] == ')'
  {
    if IsArray(args) then ConvertAttributes(args) + "->open()"
    else if args != [] then "->open(" + args + ")"
    else "->open()"
  }

  /** `replace_form_open`: the captured argument text, stripped, is an
      attribute array, some other argument, or nothing; the result is
      always a call chain on a new form builder ending in a call. */
  function FormOpen(group: string): (r: string)
    ensures |FormPrefix| < |r| && r[..|FormPrefix|] == FormPrefix && r[|r| - 1] == ')'
  {
    OnForm(OpenChain(Strip(group)))
  }

  /** Blank captured text opens a bare form. */
  lemma FormOpenBlank(group: string)
    requires AllSpace(group)
    ensures FormOpen(group) == "html()->form()->open()"
  {
    var args := Strip(group);
    assert args == [];
    assert OpenChain(args) == "->open()";
  }

  /** An array becomes a chain of attribute calls before `open()`. */
  lemma FormOpenArray(group: string)
    requires IsArray(Strip(group))
    ensures FormOpen(group) == "html()->form()" + ConvertAttributes(group) + "->open()"
  {
    ConvertIgnoresSpace(group);
    assert OpenChain(Strip(group)) == ConvertAttributes(group) + "->open()";
    Assoc(FormPrefix, ConvertAttributes(group), "->open()");
  }

  /** Any other text is passed to `open`, stripped. */
  lemma FormOpenOther(group: string)
    requires !AllSpace(group) && !IsArray(Strip(group))
    ensures FormOpen(group) == "html()->form()->open(" + Strip(group) + ")"
  {
    var args := Strip(group);
    assert OpenChain(args) == "->open(" + args + ")";
    Assoc(FormPrefix, "->open(" + args, ")");
    Assoc(FormPrefix, "->open(", args);
    assert FormPrefix + "->open(" == "html()->form()->open(";
  }

  /** Surrounding whitespace in the captured text makes no difference. */
  lemma FormOpenIgnoresSpace(group: string)
    ensures FormOpen(group) == FormOpen(Strip(group))
  {
    StripIdempotent(group);
  }

  /** An empty attribute array opens the same bare form as no argument. */
  lemma FormOpenEmptyArray()
    ensures FormOpen("[]") == FormOpen("")
  {
    StripStripped("[]");
    FormOpenArray("[]");
    assert ConvertAttributes("[]") == [];
    FormOpenBlank("");
  }

  /** The argument of `open(...)` read back from the replacement. */
  function OpenArgument(r: string): string
    requires |r| >= |"html()->form()->open("| + 1
  {
    r[|"html()->form()->open("|..|r| - 1]
  }

  /** For a non-array argument the replacement keeps it intact. */
  lemma FormOpenKeepsArgument(group: string)
    requires !IsArray(Strip(group))
    ensures |FormOpen(group)| >= |"html()->form()->open("| + 1
    ensures OpenArgument(FormOpen(group)) == Strip(group)
  {
    if AllSpace(group) {
      FormOpenBlank(group);
    } else {
      FormOpenOther(group);
      Middle("html()->form()->open(", Strip(group), ")");
    }
  }

  /** `replace_form_close`: the same text whatever was matched. */
  function FormClose(matched: string): (r: string)
    ensures r == "html()->form()->close()"
  {
    "html()->form()->close()"
  }

  lemma FormCloseIgnoresMatch(a: string, b: string)
    ensures FormClose(a) == FormClose(b)
  {
  }

  // ---------------------------------------------------------------------
  // `replace_alias_generic`

  /** The text `alias::name(args)` that the pattern matched. */
  function Matched(alias: string, name: string, args: string): string {
    alias + "::" + name + "(" + args + ")"
  }

  /** The `repl` callback: `link` and `linkRoute` calls are put back as
      matched (the dedicated pass handles them); any other name becomes
      the same call on `html()`. */
  function AliasRepl(alias: string, name: string, args: string): (r: string)
    ensures name == "link" || name == "linkRoute" ==> r == Matched(alias, name, args)
  {
    if name == "link" || name == "linkRoute" then Matched(alias, name, args)
    else "html()->" + name + "(" + args + ")"
  }

  /** Reads `html()->method(args)` back into its method and arguments:
      the method runs up to the first `(`, the arguments up to the final
      `)`. */
  function ParseHtmlCall(r: string): Option<(string, string)> {
    if |r| >= 10 && r[..8] == "html()->" && r[|r| - 1] == ')' then
      var i := Find(r, "(", 8);
      if i == -1 || i >= |r| - 1 then None else Some((r[8..i], r[i + 1..|r| - 1]))
    else None
  }

  /** Any other method's replacement reads back as that method with the
      captured arguments, whatever the alias was. */
  lemma AliasReplDecodes(alias: string, name: string, args: string)
    requires IsWord(name) && name != "link" && name != "linkRoute"
    ensures ParseHtmlCall(AliasRepl(alias, name, args)) == Some((name, args))
  {
    var r := "html()->" + name + "(" + args + ")";
    assert AliasRepl(alias, name, args) == r;
    HtmlCallParts(name, args);
    FirstParen(name, args);
  }

  lemma HtmlCallParts(name: string, args: string)
    requires name != []
    ensures var r := "html()->" + name + "(" + args + ")";
      && |r| >= 10 && r[..8] == "html()->" && r[|r| - 1] == ')'
      && r[8..8 + |name|] == name && r[8 + |name| + 1..|r| - 1] == args
  {
  }

  /** A word holds no `(`, so the first `(` after the prefix is the one
      that follows the method name. */
  lemma FirstParen(name: string, args: string)
    requires IsWord(name)
    ensures Find("html()->" + name + "(" + args + ")", "(", 8) == 8 + |name|
  {
    var r := "html()->" + name + "(" + args + ")";
    var j := 8 + |name|;
    assert r[j] == '(';
    assert OccursAt(r, "(", j);
    forall k | 8 <= k < j ensures !OccursAt(r, "(", k) {
      assert r[k] == name[k - 8];
      assert r[k..k + 1] == [r[k]];
    }
    FindAt(r, "(", 8, j);
  }

  // ---------------------------------------------------------------------
  // The code built for one `link` / `linkRoute` call

  /** `parts[i] if len(parts) > i else fallback`. */
  function Arg(parts: seq<string>, i: nat, fallback: string): (r: string)
    ensures i < |parts| ==> r == parts[i]
    ensures i >= |parts| ==> r == fallback
  {
    if |parts| > i then parts[i] else fallback
  }

  /** `HtmlFacade::link(href, title, attrs)`: an array goes through
      `convert_attributes`, other non-empty text becomes
      `->attributes(...)`. A fourth argument (the escape flag) is not
      looked at. */
  function LinkCode(parts: seq<string>): string {
    var href := Arg(parts, 0, "''");
    var title := Arg(parts, 1, "''");
    var attrs := Arg(parts, 2, "");
    "html()->a(" + href + ", " + title + ")"
      + (if StartsWith(attrs, '[') then ConvertAttributes(attrs)
         else if attrs != [] then "->attributes(" + attrs + ")"
         else "")
  }

  /** `HtmlFacade::linkRoute(name, params, attrs, title)`; the attributes
      default to `[]`, so they always produce a chain or an
      `->attributes(...)`. */
  function LinkRouteCode(parts: seq<string>): string {
    var route := Arg(parts, 0, "''");
    var params := Arg(parts, 1, "[]");
    var attrs := Arg(parts, 2, "[]");
    var title := Arg(parts, 3, "''");
    "html()->a()->route(" + route + ", " + params + ")"
      + (if StartsWith(attrs, '[') then ConvertAttributes(attrs) else "->attributes(" + attrs + ")")
      + "->html(" + title + ")"
  }

  /** The replacement for one call to method `name`; every method but
      `linkRoute` is treated as `link`. */
  function CallCode(name: string, parts: seq<string>): string {
    if name == "linkRoute" then LinkRouteCode(parts) else LinkCode(parts)
  }

  lemma HeadPrefix(head: string, tail: string)
    requires |head| >= 10 && head[..10] == "html()->a("
    ensures |head + tail| >= 10 && (head + tail)[..10] == "html()->a("
  {
    assert (head + tail)[..10] == head[..10];
  }

  lemma LinkCodeHead(parts: seq<string>)
    ensures |LinkCode(parts)| >= 10 && LinkCode(parts)[..10] == "html()->a("
  {
    var lit := "html()->a(";
    assert lit[..10] == "html()->a(";
    var href := Arg(parts, 0, "''");
    var title := Arg(parts, 1, "''");
    var attrs := Arg(parts, 2, "");
    var chain := if StartsWith(attrs, '[') then ConvertAttributes(attrs)
      else if attrs != [] then "->attributes(" + attrs + ")" else "";
    HeadPrefix(lit, href);
    HeadPrefix(lit + href, ", ");
    HeadPrefix(lit + href + ", ", title);
    HeadPrefix(lit + href + ", " + title, ")");
    HeadPrefix(lit + href + ", " + title + ")", chain);
  }

  lemma LinkRouteCodeHead(parts: seq<string>)
    ensures |LinkRouteCode(parts)| >= 10 && LinkRouteCode(parts)[..10] == "html()->a("
  {
    var lit := "html()->a()->route(";
    assert lit[..10] == "html()->a(";
    var route := Arg(parts, 0, "''");
    var params := Arg(parts, 1, "[]");
    var attrs := Arg(parts, 2, "[]");
    var chain := if StartsWith(attrs, '[') then ConvertAttributes(attrs) else "->attributes(" + attrs + ")";
    var tail := "->html(" + Arg(parts, 3, "''") + ")";
    HeadPrefix(lit, route);
    HeadPrefix(lit + route, ", ");
    HeadPrefix(lit + route + ", ", params);
    HeadPrefix(lit + route + ", " + params, ")");
    HeadPrefix(lit + route + ", " + params + ")", chain);
    HeadPrefix(lit + route + ", " + params + ")" + chain, tail);
  }

  /** Whatever the arguments, the replacement is an anchor built on a new
      HTML builder. */
  lemma CallCodeHead(name: string, parts: seq<string>)
    ensures |CallCode(name, parts)| >= 10 && CallCode(name, parts)[..10] == "html()->a("
  {
    if name == "linkRoute" {
      LinkRouteCodeHead(parts);
    } else {
      LinkCodeHead(parts);
    }
  }

  /** The three cases of `link`'s third argument: an array becomes an
      attribute chain, other non-empty text is passed to `attributes`, and
      empty text adds nothing. */
  lemma LinkAttrs(parts: seq<string>)
    requires |parts| >= 3
    ensures StartsWith(parts[2], '[') ==>
      LinkCode(parts) == "html()->a(" + parts[0] + ", " + parts[1] + ")" + ConvertAttributes(parts[2])
    ensures !StartsWith(parts[2], '[') && parts[2] != [] ==>
      LinkCode(parts) == "html()->a(" + parts[0] + ", " + parts[1] + ")->attributes(" + parts[2] + ")"
    ensures parts[2] == [] ==>
      LinkCode(parts) == "html()->a(" + parts[0] + ", " + parts[1] + ")"
  {
    var head := "html()->a(" + parts[0] + ", " + parts[1] + ")";
    if !StartsWith(parts[2], '[') && parts[2] != [] {
      Assoc(head, "->attributes(" + parts[2], ")");
      Assoc(head, "->attributes(", parts[2]);
      assert head + "->attributes(" == "html()->a(" + parts[0] + ", " + parts[1] + ")->attributes(";
    } else if parts[2] == [] {
      assert head + [] == head;
    }
  }

  /** `linkRoute` always follows the route with its attributes: an array
      becomes an attribute chain, and any other text, empty included, is
      passed to `attributes`. */
  lemma LinkRouteAttrs(parts: seq<string>)
    requires |parts| >= 4
    ensures StartsWith(parts[2], '[') ==>
      LinkRouteCode(parts) == "html()->a()->route(" + parts[0] + ", " + parts[1] + ")"
        + ConvertAttributes(parts[2]) + "->html(" + parts[3] + ")"
    ensures !StartsWith(parts[2], '[') ==>
      LinkRouteCode(parts) == "html()->a()->route(" + parts[0] + ", " + parts[1] + ")"
        + ("->attributes(" + parts[2] + ")") + "->html(" + parts[3] + ")"
  {
  }

  /** An empty third argument, which `link` drops, still produces
      `->attributes()` in `linkRoute`. */
  lemma LinkRouteEmptyAttrs(route: string, params: string, title: string)
    ensures LinkRouteCode([route, params, "", title])
      == "html()->a()->route(" + route + ", " + params + ")" + "->attributes()" + "->html(" + title + ")"
    ensures LinkCode([route, params, ""]) == "html()->a(" + route + ", " + params + ")"
  {
    LinkRouteAttrs([route, params, "", title]);
    LinkAttrs([route, params, ""]);
    assert "->attributes(" + "" + ")" == "->attributes()";
  }

  /** `parts`, filled up from `defaults` where it is shorter. */
  function Pad(parts: seq<string>, defaults: seq<string>): (r: seq<string>)
    ensures |r| == if |parts| < |defaults| then |defaults| else |parts|
    ensures forall i :: 0 <= i < |parts| ==> r[i] == parts[i]
    ensures forall i :: |parts| <= i < |defaults| ==> r[i] == defaults[i]
  {
    if |parts| < |defaults| then parts + defaults[|parts|..] else parts
  }

  /** Missing `link` arguments behave exactly like the defaults written
      out: `''`, `''` and no attributes. */
  lemma LinkDefaults(parts: seq<string>)
    ensures LinkCode(parts) == LinkCode(Pad(parts, ["''", "''", ""]))
  {
    var padded := Pad(parts, ["''", "''", ""]);
    assert Arg(padded, 0, "''") == Arg(parts, 0, "''");
    assert Arg(padded, 1, "''") == Arg(parts, 1, "''");
    assert Arg(padded, 2, "") == Arg(parts, 2, "");
  }

  /** Arguments after the third, such as an escape flag, are dropped. */
  lemma LinkIgnoresExtra(parts: seq<string>)
    requires |parts| > 3
    ensures LinkCode(parts) == LinkCode(parts[..3])
  {
    assert Arg(parts[..3], 2, "") == parts[2];
  }

  /** Missing `linkRoute` arguments behave like `''`, `[]`, `[]`, `''`. */
  lemma LinkRouteDefaults(parts: seq<string>)
    ensures LinkRouteCode(parts) == LinkRouteCode(Pad(parts, ["''", "[]", "[]", "''"]))
  {
    var padded := Pad(parts, ["''", "[]", "[]", "''"]);
    assert Arg(padded, 0, "''") == Arg(parts, 0, "''");
    assert Arg(padded, 1, "[]") == Arg(parts, 1, "[]");
    assert Arg(padded, 2, "[]") == Arg(parts, 2, "[]");
    assert Arg(padded, 3, "''") == Arg(parts, 3, "''");
  }

  /** Arguments after the fourth are dropped. */
  lemma LinkRouteIgnoresExtra(parts: seq<string>)
    requires |parts| > 4
    ensures LinkRouteCode(parts) == LinkRouteCode(parts[..4])
  {
    assert Arg(parts[..4], 3, "''") == parts[3];
  }

  lemma LinkPlain(href: string, title: string)
    ensures LinkCode([href, title]) == "html()->a(" + href + ", " + title + ")"
  {
    assert Arg([href, title], 2, "") == "";
  }

  lemma JoinTwo(href: string, title: string)
    ensures JoinArgs([href, title]) == href + ", " + title
  {
    assert [href, title][..1] == [href];
  }

  /** Two arguments joined by a comma split back into the same two. */
  lemma TwoArgumentsRoundTrip(href: string, title: string)
    requires href != [] && IsStripped(href) && Inert(href)
    requires title != [] && IsStripped(title) && Inert(title)
    ensures SplitArgs(href + ", " + title) == [href, title]
  {
    var xs := [href, title];
    forall j | 0 <= j < |xs|
      ensures xs[j] != [] && IsStripped(xs[j]) && Inert(xs[j])
    {
    }
    ArgsRoundTrip(xs);
    JoinTwo(href, title);
  }

  /** A two-argument link keeps its arguments as one argument list, which
      splits back into the same two arguments. */
  lemma LinkKeepsArguments(href: string, title: string)
    requires href != [] && IsStripped(href) && Inert(href)
    requires title != [] && IsStripped(title) && Inert(title)
    ensures LinkCode([href, title]) == "html()->a(" + href + ", " + title + ")"
    ensures SplitArgs(href + ", " + title) == [href, title]
  {
    LinkPlain(href, title);
    TwoArgumentsRoundTrip(href, title);
  }

  /** `link($url, $title, [], false)`: the empty array adds nothing and
      the escape flag is dropped. */
  lemma LinkExample()
    ensures LinkCode(["$url", "$title", "[]", "false"]) == "html()->a($url, $title)"
  {
    var parts := ["$url", "$title", "[]", "false"];
    assert Arg(parts, 0, "''") == "$url";
    assert Arg(parts, 1, "''") == "$title";
    assert Arg(parts, 2, "") == "[]";
    EmptyArrayAddsNothing();
    assert LinkCode(parts) == "html()->a(" + "$url" + ", " + "$title" + ")" + [];
  }

  /** An empty attribute array converts to no chain at all. */
  lemma EmptyArrayAddsNothing()
    ensures StartsWith("[]", '[') && ConvertAttributes("[]") == []
  {
  }

  /** `linkRoute(name)` is completed with the defaults: no parameters, an
      empty attribute array that adds nothing, and an empty title. */
  lemma LinkRouteBare(route: string)
    ensures LinkRouteCode([route]) == "html()->a()->route(" + route + ", [])->html('')"
  {
    var parts := [route];
    assert Arg(parts, 1, "[]") == "[]";
    assert Arg(parts, 2, "[]") == "[]";
    assert Arg(parts, 3, "''") == "''";
    EmptyArrayAddsNothing();
    var head := "html()->a()->route(" + route + ", " + "[]" + ")";
    assert LinkRouteCode(parts) == head + [] + ("->html(" + "''" + ")");
    BareRouteText(route);
  }

  lemma BareRouteText(route: string)
    ensures ("html()->a()->route(" + route + ", " + "[]" + ")") + [] + ("->html(" + "''" + ")")
      == "html()->a()->route(" + route + ", [])->html('')"
  {
  }
}
