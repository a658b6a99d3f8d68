/**
 * The value escape shared by both connection-string builders: a single-pass
 * replacer that turns a backslash into two backslashes and a single quote
 * into a backslash followed by a quote, and copies every other character.
 *
 * The source works on Go strings (bytes); the two replaced characters are
 * ASCII and never occur inside a multi-byte UTF-8 sequence, so replacing
 * per character is the same as replacing per byte.
 */
module Escaping {

  /** A character the replacer rewrites. */
  predicate IsSpecial(c: char) {
    c == '\\' || c == '\''
  }

  /** A string the replacer leaves alone: no backslash and no single quote. */
  predicate Plain(s: string) {
    forall i :: 0 <= i < |s| ==> !IsSpecial(s[i])
  }

  /** The replacement of one character. */
  function EscapeChar(c: char): (r: string)
    ensures IsSpecial(c) ==> r == ['\\', c]
    ensures !IsSpecial(c) ==> r == [c]
  {
    if c == '\\' then "\\\\"
    else if c == '\'' then "\\'"
    else [c]
  }

  /** The replacer applied to a whole value, in one left-to-right pass. */
  function Escape(s: string): (r: string)
    ensures |r| >= |s|
    ensures r == [] <==> s == []
    decreases |s|
  {
    if s == [] then [] else EscapeChar(s[0]) + Escape(s[1..])
  }

  /** The number of characters of `s` that the replacer rewrites. */
  function SpecialCount(s: string): nat {
    multiset(s)['\\'] + multiset(s)['\'']
  }

  /** Escaping works character by character, so it distributes over concatenation. */
  lemma {:induction false} EscapeConcat(a: string, b: string)
    ensures Escape(a + b) == Escape(a) + Escape(b)
    decreases |a|
  {
    if a == [] {
      assert a + b == b;
    } else {
      assert (a + b)[0] == a[0];
      assert (a + b)[1..] == a[1..] + b;
      EscapeConcat(a[1..], b);
    }
  }


  /**
   * A single pass: each backslash or quote gains exactly one character and the
   * backslash inserted before a quote is not doubled again.
   */
  lemma {:induction false} EscapeLength(s: string)
    ensures |Escape(s)| == |s| + SpecialCount(s)
    decreases |s|
  {
    if s != [] {
      EscapeLength(s[1..]);
      assert s == [s[0]] + s[1..];
      assert multiset(s) == multiset([s[0]]) + multiset(s[1..]);
    }
  }

  /** A value with no backslash and no quote passes through the replacer unchanged. */
  lemma {:induction false} EscapePlain(s: string)
    requires Plain(s)
    ensures Escape(s) == s
    decreases |s|
  {
    if s != [] {
      EscapePlain(s[1..]);
    }
  }

  /** Every quote in an escaped value is preceded by a backslash. */
  lemma {:induction false} EscapedQuotesAreEscaped(s: string, i: nat)
    requires i < |Escape(s)| && Escape(s)[i] == '\''
    ensures i > 0 && Escape(s)[i - 1] == '\\'
    decreases |s|
  {
    var head := EscapeChar(s[0]);
    if i >= |head| {
      assert Escape(s)[i] == Escape(s[1..])[i - |head|];
      EscapedQuotesAreEscaped(s[1..], i - |head|);
      if i - |head| > 0 {
        assert Escape(s)[i - 1] == Escape(s[1..])[i - 1 - |head|];
      }
    }
  }
}
