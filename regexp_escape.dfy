/**
 * `escapeRegExp` of utils.js: one global regular-expression replacement,
 * `string.replace(/[.*+?^${}()|[\]\\]/g, '\\$&')`, that puts a backslash in
 * front of every regular-expression metacharacter and copies every other
 * character.
 */
module RegExpEscape {

  /** The fourteen characters of the class `[.*+?^${}()|[\]\\]`. */
  predicate IsMeta(c: char) {
    c == '.' || c == '*' || c == '+' || c == '?' || c == '^' || c == '$' || c == '{' ||
    c == '}' || c == '(' || c == ')' || c == '|' || c == '[' || c == ']' || c == '\\'
  }

  predicate NoMeta(s: string) {
    forall k :: 0 <= k < |s| ==> !IsMeta(s[k])
  }

  /** How many characters of `s` the class matches. */
  function CountMeta(s: string): nat {
    if s == [] then 0 else (if IsMeta(s[0]) then 1 else 0) + CountMeta(s[1..])
  }

  /** The replacement: every match `$&` becomes `\$&`; the scan never revisits its output. */
  function EscapeRegExp(s: string): (r: string)
    ensures |r| == |s| + CountMeta(s)
  {
    if s == [] then []
    else (if IsMeta(s[0]) then ['\\', s[0]] else [s[0]]) + EscapeRegExp(s[1..])
  }

  /** Where the image of input position `i` starts in the output. */
  function OutPos(s: string, i: nat): nat
    requires i <= |s|
  {
    i + CountMeta(s[..i])
  }

  /** Reads an escaped string back: a backslash is dropped and the character after it kept. */
  function Unescape(r: string): string {
    if r == [] then []
    else if r[0] == '\\' && |r| >= 2 then [r[1]] + Unescape(r[2..])
    else [r[0]] + Unescape(r[1..])
  }

  lemma {:induction false} CountMetaZero(s: string)
    ensures CountMeta(s) == 0 <==> NoMeta(s)
  {
    if s != [] {
      CountMetaZero(s[1..]);
      if NoMeta(s) {
        assert NoMeta(s[1..]) by {
          forall k | 0 <= k < |s[1..]| ensures !IsMeta(s[1..][k]) { assert s[1..][k] == s[k + 1]; }
        }
      } else if !IsMeta(s[0]) {
        var k :| 0 <= k < |s| && IsMeta(s[k]);
        assert s[1..][k - 1] == s[k];
      }
    }
  }

  /**
   * Per-character characterisation: a metacharacter at input position `i`
   * appears at output position `OutPos(s, i) + 1`, preceded by one backslash;
   * any other character appears unchanged at `OutPos(s, i)`. Since `OutPos`
   * grows with `i`, the input characters keep their order.
   */
  lemma {:induction false} EscapeRegExpAt(s: string, i: nat)
    requires i < |s|
    ensures OutPos(s, i) + (if IsMeta(s[i]) then 1 else 0) < |EscapeRegExp(s)|
    ensures IsMeta(s[i]) ==>
      EscapeRegExp(s)[OutPos(s, i)] == '\\' && EscapeRegExp(s)[OutPos(s, i) + 1] == s[i]
    ensures !IsMeta(s[i]) ==> EscapeRegExp(s)[OutPos(s, i)] == s[i]
  {
    var head: string := if IsMeta(s[0]) then ['\\', s[0]] else [s[0]];
    assert EscapeRegExp(s) == head + EscapeRegExp(s[1..]);
    if i == 0 {
      assert s[..0] == [];
    } else {
      EscapeRegExpAt(s[1..], i - 1);
      assert s[..i][1..] == s[1..][..i - 1];
      assert s[..i][0] == s[0];
      assert OutPos(s, i) == |head| + OutPos(s[1..], i - 1);
    }
  }

  /** Round trip: removing each inserted backslash gives the input back. */
  lemma {:induction false} UnescapeEscapeRegExp(s: string)
    ensures Unescape(EscapeRegExp(s)) == s
  {
    if s != [] {
      var r := EscapeRegExp(s);
      UnescapeEscapeRegExp(s[1..]);
      if IsMeta(s[0]) {
        assert r == ['\\', s[0]] + EscapeRegExp(s[1..]);
        assert r[2..] == EscapeRegExp(s[1..]);
      } else {
        assert r == [s[0]] + EscapeRegExp(s[1..]);
        assert r[1..] == EscapeRegExp(s[1..]);
      }
    }
  }

  /** The replacement changes nothing exactly when there is nothing to escape. */
  lemma {:induction false} EscapeRegExpIdentity(s: string)
    ensures EscapeRegExp(s) == s <==> NoMeta(s)
  {
    CountMetaZero(s);
    if NoMeta(s) {
      EscapeRegExpFixed(s);
    }
  }

  lemma {:induction false} EscapeRegExpFixed(s: string)
    requires NoMeta(s)
    ensures EscapeRegExp(s) == s
  {
    if s != [] {
      assert NoMeta(s[1..]) by {
        forall k | 0 <= k < |s[1..]| ensures !IsMeta(s[1..][k]) { assert s[1..][k] == s[k + 1]; }
      }
      EscapeRegExpFixed(s[1..]);
      assert s == [s[0]] + s[1..];
    }
  }
}
