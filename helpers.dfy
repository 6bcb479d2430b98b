/**
 * helpers.js: `escape`, the text rewriting that `apology` applies to its
 * message; `apology`'s choice of status code and page fields; and the
 * `loginRequired` guard.
 */
module Helpers {
  import opened Wrappers
  import opened RegExpEscape

  /** The argument of `escape`: a JavaScript string, or a value of any other type (kept opaque). */
  datatype JsValue = Str(s: string) | NonString(tag: nat)

  /**
   * The replacement list, in the order `escape` applies it. Each old text
   * of helpers.js is a one-character string; it is kept here as that
   * character.
   */
  const Replacements: seq<(char, string)> := [
    ('-', "--"), (' ', "-"), ('_', "__"), ('?', "~q"),
    ('%', "~p"), ('#', "~h"), ('/', "~s"), ('"', "''")
  ]

  /**
   * The character a one-atom pattern matches literally: an ordinary
   * character stands for itself, and so does a metacharacter behind a
   * backslash. Any other pattern is not a single literal.
   */
  function LiteralAtom(p: string): Option<char> {
    if |p| == 1 && !IsMeta(p[0]) then Some(p[0])
    else if |p| == 2 && p[0] == '\\' && IsMeta(p[1]) then Some(p[1])
    else None
  }

  /** `new RegExp(escapeRegExp(c), 'g')` matches the one character `c` and nothing else. */
  lemma EscapedCharIsLiteral(c: char)
    ensures LiteralAtom(EscapeRegExp([c])) == Some(c)
  {
    assert EscapeRegExp([c]) == (if IsMeta(c) then ['\\', c] else [c]) + EscapeRegExp([]);
  }

  /**
   * `s.replace(re, rep)` for a global regular expression `re` matching the
   * single character `c`: every occurrence is replaced by `rep`, left to
   * right, and the inserted text is not scanned again. (No replacement text
   * of `escape` holds a `$`, so no substitution pattern is expanded.)
   */
  function ReplaceAll(s: string, c: char, rep: string): (r: string)
    ensures c !in s ==> r == s
  {
    if s == [] then []
    else (if s[0] == c then rep else [s[0]]) + ReplaceAll(s[1..], c, rep)
  }

  /** The rules applied one after the other, each to the whole current string. */
  function ApplyRules(s: string, rules: seq<(char, string)>): string
    decreases |rules|
  {
    if rules == [] then s
    else ApplyRules(ReplaceAll(s, rules[0].0, rules[0].1), rules[1..])
  }

  /** Reference definition: what one character becomes when considered on its own. */
  function EscapeChar(c: char): string {
    if c == '-' then "--"
    else if c == ' ' then "-"
    else if c == '_' then "__"
    else if c == '?' then "~q"
    else if c == '%' then "~p"
    else if c == '#' then "~h"
    else if c == '/' then "~s"
    else if c == '"' then "''"
    else [c]
  }

  /** Every character mapped independently through `EscapeChar`. */
  function EscapeEach(s: string): (r: string)
    ensures |r| >= |s|
  {
    if s == [] then [] else EscapeChar(s[0]) + EscapeEach(s[1..])
  }

  /** The characters `escape` removes from a message. */
  predicate IsUnsafe(c: char) {
    c == '?' || c == '%' || c == '#' || c == '/' || c == '"' || c == ' '
  }

  /** `escape`: a non-string is returned as it is; a string goes through the eight rules. */
  method Escape(v: JsValue) returns (r: JsValue)
    ensures v.Str? ==> r == Str(EscapeEach(v.s))
    ensures !v.Str? ==> r == v
  {
    if !v.Str? {
      return v;
    }
    var s := v.s;
    for i := 0 to |Replacements|
      invariant ApplyRules(s, Replacements[i..]) == ApplyRules(v.s, Replacements)
    {
      var (oldChar, newChar) := Replacements[i];
      EscapedCharIsLiteral(oldChar);
      var atom := LiteralAtom(EscapeRegExp([oldChar]));
      assert Replacements[i..][1..] == Replacements[i + 1..];
      s := ReplaceAll(s, atom.value, newChar);
    }
    EscapeIsPerCharacter(v.s);
    return Str(s);
  }

  lemma {:induction false} ReplaceAllConcat(a: string, b: string, c: char, rep: string)
    ensures ReplaceAll(a + b, c, rep) == ReplaceAll(a, c, rep) + ReplaceAll(b, c, rep)
  {
    if a != [] {
      assert (a + b)[1..] == a[1..] + b;
      ReplaceAllConcat(a[1..], b, c, rep);
    } else {
      assert a + b == b;
    }
  }

  /** Each rule works on the characters one by one, so the whole list does too. */
  lemma {:induction false} ApplyRulesConcat(a: string, b: string, rules: seq<(char, string)>)
    ensures ApplyRules(a + b, rules) == ApplyRules(a, rules) + ApplyRules(b, rules)
    decreases |rules|
  {
    if rules != [] {
      var c, rep := rules[0].0, rules[0].1;
      ReplaceAllConcat(a, b, c, rep);
      ApplyRulesConcat(ReplaceAll(a, c, rep), ReplaceAll(b, c, rep), rules[1..]);
    }
  }

  lemma ReplaceOne(c: char, x: char, rep: string)
    ensures ReplaceAll([c], x, rep) == if c == x then rep else [c]
  {
    assert ReplaceAll([c], x, rep) == (if c == x then rep else [c]) + ReplaceAll([], x, rep);
  }

  /** The list applied to `s`, written out rule by rule. */
  lemma RulesInOrder(s: string)
    ensures ApplyRules(s, Replacements) ==
      ReplaceAll(ReplaceAll(ReplaceAll(ReplaceAll(ReplaceAll(ReplaceAll(ReplaceAll(ReplaceAll(
        s, '-', "--"), ' ', "-"), '_', "__"), '?', "~q"), '%', "~p"), '#', "~h"), '/', "~s"), '"', "''")
  {
    var rs := Replacements;
    assert rs[1..] == [(' ', "-"), ('_', "__"), ('?', "~q"), ('%', "~p"), ('#', "~h"), ('/', "~s"), ('"', "''")];
    assert rs[1..][1..] == [('_', "__"), ('?', "~q"), ('%', "~p"), ('#', "~h"), ('/', "~s"), ('"', "''")];
    assert rs[1..][1..][1..] == [('?', "~q"), ('%', "~p"), ('#', "~h"), ('/', "~s"), ('"', "''")];
    assert rs[1..][1..][1..][1..] == [('%', "~p"), ('#', "~h"), ('/', "~s"), ('"', "''")];
    assert rs[1..][1..][1..][1..][1..] == [('#', "~h"), ('/', "~s"), ('"', "''")];
    assert rs[1..][1..][1..][1..][1..][1..] == [('/', "~s"), ('"', "''")];
    assert rs[1..][1..][1..][1..][1..][1..][1..] == [('"', "''")];
    assert rs[1..][1..][1..][1..][1..][1..][1..][1..] == [];
  }

  /**
   * No rule's output is matched by a later rule: `-` is doubled before the
   * spaces become `-`, and `~`, `q`, `p`, `h`, `s`, `'` and `_` are not the
   * old text of any later rule. So one character goes through the list to
   * exactly `EscapeChar` of it.
   */
  lemma EscapeOneChar(c: char)
    ensures ApplyRules([c], Replacements) == EscapeChar(c)
  {
    if c == '-' { EscapeDash(); }
    else if c == ' ' { EscapeSpace(); }
    else if c == '_' { EscapeUnderscore(); }
    else if c == '?' { EscapeQuestion(); }
    else if c == '%' { EscapePercent(); }
    else if c == '#' { EscapeHash(); }
    else if c == '/' { EscapeSlash(); }
    else if c == '"' { EscapeQuote(); }
    else { EscapeOther(c); }
  }

  lemma EscapeDash()
    ensures ApplyRules("-", Replacements) == "--"
  {
    RulesInOrder("-");
    ReplaceOne('-', '-', "--");
    var t := "--";
    assert ReplaceAll(t, ' ', "-") == t;
    assert ReplaceAll(t, '_', "__") == t;
    assert ReplaceAll(t, '?', "~q") == t;
    assert ReplaceAll(t, '%', "~p") == t;
    assert ReplaceAll(t, '#', "~h") == t;
    assert ReplaceAll(t, '/', "~s") == t;
    assert ReplaceAll(t, '\"', "''") == t;
  }

  lemma EscapeSpace()
    ensures ApplyRules(" ", Replacements) == "-"
  {
    RulesInOrder(" ");
    var s := " ";
    assert ReplaceAll(s, '-', "--") == s;
    ReplaceOne(' ', ' ', "-");
    var t := "-";
    assert ReplaceAll(t, '_', "__") == t;
    assert ReplaceAll(t, '?', "~q") == t;
    assert ReplaceAll(t, '%', "~p") == t;
    assert ReplaceAll(t, '#', "~h") == t;
    assert ReplaceAll(t, '/', "~s") == t;
    assert ReplaceAll(t, '\"', "''") == t;
  }

  lemma EscapeUnderscore()
    ensures ApplyRules("_", Replacements) == "__"
  {
    RulesInOrder("_");
    var s := "_";
    assert ReplaceAll(s, '-', "--") == s;
    assert ReplaceAll(s, ' ', "-") == s;
    ReplaceOne('_', '_', "__");
    var t := "__";
    assert ReplaceAll(t, '?', "~q") == t;
    assert ReplaceAll(t, '%', "~p") == t;
    assert ReplaceAll(t, '#', "~h") == t;
    assert ReplaceAll(t, '/', "~s") == t;
    assert ReplaceAll(t, '\"', "''") == t;
  }

  lemma EscapeQuestion()
    ensures ApplyRules("?", Replacements) == "~q"
  {
    RulesInOrder("?");
    var s := "?";
    assert ReplaceAll(s, '-', "--") == s;
    assert ReplaceAll(s, ' ', "-") == s;
    assert ReplaceAll(s, '_', "__") == s;
    ReplaceOne('?', '?', "~q");
    var t := "~q";
    assert ReplaceAll(t, '%', "~p") == t;
    assert ReplaceAll(t, '#', "~h") == t;
    assert ReplaceAll(t, '/', "~s") == t;
    assert ReplaceAll(t, '\"', "''") == t;
  }

  lemma EscapePercent()
    ensures ApplyRules("%", Replacements) == "~p"
  {
    RulesInOrder("%");
    var s := "%";
    assert ReplaceAll(s, '-', "--") == s;
    assert ReplaceAll(s, ' ', "-") == s;
    assert ReplaceAll(s, '_', "__") == s;
    assert ReplaceAll(s, '?', "~q") == s;
    ReplaceOne('%', '%', "~p");
    var t := "~p";
    assert ReplaceAll(t, '#', "~h") == t;
    assert ReplaceAll(t, '/', "~s") == t;
    assert ReplaceAll(t, '\"', "''") == t;
  }

  lemma EscapeHash()
    ensures ApplyRules("#", Replacements) == "~h"
  {
    RulesInOrder("#");
    var s := "#";
    assert ReplaceAll(s, '-', "--") == s;
    assert ReplaceAll(s, ' ', "-") == s;
    assert ReplaceAll(s, '_', "__") == s;
    assert ReplaceAll(s, '?', "~q") == s;
    assert ReplaceAll(s, '%', "~p") == s;
    ReplaceOne('#', '#', "~h");
    var t := "~h";
    assert ReplaceAll(t, '/', "~s") == t;
    assert ReplaceAll(t, '\"', "''") == t;
  }

  lemma EscapeSlash()
    ensures ApplyRules("/", Replacements) == "~s"
  {
    RulesInOrder("/");
    var s := "/";
    assert ReplaceAll(s, '-', "--") == s;
    assert ReplaceAll(s, ' ', "-") == s;
    assert ReplaceAll(s, '_', "__") == s;
    assert ReplaceAll(s, '?', "~q") == s;
    assert ReplaceAll(s, '%', "~p") == s;
    assert ReplaceAll(s, '#', "~h") == s;
    ReplaceOne('/', '/', "~s");
    var t := "~s";
    assert ReplaceAll(t, '\"', "''") == t;
  }

  lemma EscapeQuote()
    ensures ApplyRules("\"", Replacements) == "''"
  {
    RulesInOrder("\"");
    var s := "\"";
    assert ReplaceAll(s, '-', "--") == s;
    assert ReplaceAll(s, ' ', "-") == s;
    assert ReplaceAll(s, '_', "__") == s;
    assert ReplaceAll(s, '?', "~q") == s;
    assert ReplaceAll(s, '%', "~p") == s;
    assert ReplaceAll(s, '#', "~h") == s;
    assert ReplaceAll(s, '/', "~s") == s;
    ReplaceOne('\"', '\"', "''");
  }

  lemma EscapeOther(c: char)
    requires c != '-' && c != ' ' && c != '_' && c != '?' && c != '%' && c != '#' && c != '/' && c != '"'
    ensures ApplyRules([c], Replacements) == [c]
  {
    RulesInOrder([c]);
    var s := [c];
    assert ReplaceAll(s, '-', "--") == s;
    assert ReplaceAll(s, ' ', "-") == s;
    assert ReplaceAll(s, '_', "__") == s;
    assert ReplaceAll(s, '?', "~q") == s;
    assert ReplaceAll(s, '%', "~p") == s;
    assert ReplaceAll(s, '#', "~h") == s;
    assert ReplaceAll(s, '/', "~s") == s;
    assert ReplaceAll(s, '\"', "''") == s;
  }

  /** The sequential rewriting of helpers.js equals the per-character map. */
  lemma {:induction false} EscapeIsPerCharacter(s: string)
    ensures ApplyRules(s, Replacements) == EscapeEach(s)
  {
    if s != [] {
      assert s == [s[0]] + s[1..];
      ApplyRulesConcat([s[0]], s[1..], Replacements);
      EscapeOneChar(s[0]);
      EscapeIsPerCharacter(s[1..]);
    }
  }

  /** Nothing `escape` produces holds `?`, `%`, `#`, `/`, `"` or a space. */
  lemma {:induction false} EscapeEachSafe(s: string)
    ensures forall k :: 0 <= k < |EscapeEach(s)| ==> !IsUnsafe(EscapeEach(s)[k])
  {
    if s != [] {
      EscapeEachSafe(s[1..]);
      var head := EscapeChar(s[0]);
      assert forall k :: 0 <= k < |head| ==> !IsUnsafe(head[k]);
      assert EscapeEach(s) == head + EscapeEach(s[1..]);
    }
  }

  /**
   * The order matters: with the space rule first, a space would come out
   * as `--`; in the order of helpers.js it comes out as a single `-`.
   */
  lemma DashRuleBeforeSpaceRule()
    ensures ApplyRules(" ", Replacements) == "-"
    ensures ApplyRules(" ", [(' ', "-"), ('-', "--")]) == "--"
  {
    EscapeSpace();
    assert [(' ', "-"), ('-', "--")][1..] == [('-', "--")];
    ReplaceOne(' ', ' ', "-");
    ReplaceOne('-', '-', "--");
  }

  /** Two messages can escape to the same text: `escape` cannot be undone. */
  lemma EscapeNotInjective()
    ensures EscapeEach("- ") == EscapeEach(" -") == "---"
  {
    assert "- "[1..] == " " && " "[1..] == [];
    assert " -"[1..] == "-" && "-"[1..] == [];
  }

  /**
   * The old texts as `escape` hands them to `escapeRegExp`: all pass
   * through unchanged except `?`, which becomes `\?`.
   */
  lemma RulePatterns()
    ensures forall k :: 0 <= k < |Replacements| && Replacements[k].0 != '?' ==>
      EscapeRegExp([Replacements[k].0]) == [Replacements[k].0]
    ensures EscapeRegExp("?") == "\\?"
  {
    forall k | 0 <= k < |Replacements| && Replacements[k].0 != '?'
      ensures EscapeRegExp([Replacements[k].0]) == [Replacements[k].0]
    {
      var oldText := [Replacements[k].0];
      assert !IsMeta(oldText[0]);
      EscapeRegExpIdentity(oldText);
    }
    assert EscapeRegExp("?") == ['\\', '?'] + EscapeRegExp([]);
  }

  /** The fields `apology` hands to the `apology` view, with the status it sets. */
  datatype ApologyPage = ApologyPage(status: int, top: int, bottom: JsValue, title: string)

  /** `apology(res, message, code = 400)`: status and top are `code`, bottom is `escape(message)`. */
  method Apology(message: JsValue, code: int := 400) returns (page: ApologyPage)
    ensures page.status == code && page.top == code && page.title == "Error"
    ensures message.Str? ==> page.bottom == Str(EscapeEach(message.s))
    ensures !message.Str? ==> page.bottom == message
  {
    var escaped := Escape(message);
    page := ApologyPage(code, code, escaped, "Error");
  }

  /** What `loginRequired` does with a request: redirect it, or call `next` once. */
  datatype Guard = RedirectTo(location: string) | Next

  /** `!req.session.user_id`: a missing id, and the id 0, are falsy. */
  predicate LoggedIn(userId: Option<nat>) {
    userId.Some? && userId.value != 0
  }

  /** `loginRequired`: without a session user the request goes to `/login` and `next` is not called. */
  function LoginRequired(userId: Option<nat>): (g: Guard)
    ensures g == Next <==> LoggedIn(userId)
    ensures g.RedirectTo? ==> g.location == "/login"
  {
    if !LoggedIn(userId) then RedirectTo("/login") else Next
  }
}
