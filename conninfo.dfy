/**
 * The keyword/value connection string of PostgreSQL libpq (section 34.1.1.1,
 * "Keyword/Value Connection Strings", of the PostgreSQL 16 manual), from both
 * sides: how the builders assemble it (`QuotedPair`, `Join`) and how libpq
 * reads it back (`ParseSettings`). The reader is the reference against which
 * the builders are proved: what they emit reads back as exactly the values
 * they were given.
 */
module Conninfo {
  import Escaping

  datatype Option<T> = None | Some(value: T)

  /** One `keyword = value` setting, the value as the reader hands it on. */
  datatype Setting = Setting(key: string, value: string)

  // ---------------------------------------------------------------------------
  // Assembly

  /** Go's `strings.Join`: the parts with one separator between neighbours. */
  function Join(parts: seq<string>, sep: string): (r: string)
    ensures r == [] ==> |parts| <= 1 || sep == []
    decreases |parts|
  {
    if parts == [] then ""
    else if |parts| == 1 then parts[0]
    else parts[0] + sep + Join(parts[1..], sep)
  }

  function TotalLength(parts: seq<string>): nat
    decreases |parts|
  {
    if parts == [] then 0 else |parts[0]| + TotalLength(parts[1..])
  }

  /** `n` parts are held together by exactly `n - 1` separators and nothing else. */
  lemma {:induction false} JoinLength(parts: seq<string>, sep: string)
    requires parts != []
    ensures |Join(parts, sep)| == TotalLength(parts) + (|parts| - 1) * |sep|
    decreases |parts|
  {
    if |parts| > 1 {
      JoinLength(parts[1..], sep);
    }
  }

  /** The joined string starts with the first part and ends with the last: no separator before or after. */
  lemma JoinEnds(parts: seq<string>, sep: string)
    requires parts != []
    ensures Join(parts, sep)[..|parts[0]|] == parts[0]
    ensures |Join(parts, sep)| >= |parts[|parts| - 1]|
    ensures var j := Join(parts, sep); j[|j| - |parts[|parts| - 1]|..] == parts[|parts| - 1]
  {
    JoinLast(parts, sep);
  }

  /** Joining two non-empty lists puts one separator between their joins. */
  lemma {:induction false} JoinAppend(xs: seq<string>, ys: seq<string>, sep: string)
    requires xs != [] && ys != []
    ensures Join(xs + ys, sep) == Join(xs, sep) + sep + Join(ys, sep)
    decreases |xs|
  {
    var zs := xs + ys;
    assert zs[0] == xs[0];
    if |xs| == 1 {
      assert zs[1..] == ys;
    } else {
      assert zs[1..] == xs[1..] + ys;
      JoinAppend(xs[1..], ys, sep);
      assert Join(zs, sep) == xs[0] + sep + (Join(xs[1..], sep) + sep + Join(ys, sep));
    }
  }

  lemma {:induction false} JoinLast(parts: seq<string>, sep: string)
    requires parts != []
    ensures var last := parts[|parts| - 1];
      |Join(parts, sep)| >= |last| && Join(parts, sep)[|Join(parts, sep)| - |last|..] == last
    decreases |parts|
  {
    if |parts| > 1 {
      JoinLast(parts[1..], sep);
    }
  }

  /** A `key='text'` pair, the text put between single quotes as it is. */
  function Pair(key: string, text: string): (r: string)
    ensures |r| == |key| + |text| + 3
  {
    key + "='" + text + "'"
  }

  /** Where each part of a pair sits: the key, `='`, the text, and the closing quote last. */
  lemma PairLayout(key: string, text: string)
    ensures var r := Pair(key, text);
      && r[..|key|] == key && r[|key|..|key| + 2] == "='"
      && r[|key| + 2..|r| - 1] == text && r[|r| - 1] == '\''
  {
  }

  /** One pair as both builders print a text value: `key='escaped value'`. */
  function QuotedPair(s: Setting): string {
    Pair(s.key, Escaping.Escape(s.value))
  }

  function QuotedPairs(ss: seq<Setting>): (r: seq<string>)
    ensures |r| == |ss|
    ensures forall i :: 0 <= i < |ss| ==> r[i] == QuotedPair(ss[i])
    decreases |ss|
  {
    if ss == [] then [] else [QuotedPair(ss[0])] + QuotedPairs(ss[1..])
  }

  // ---------------------------------------------------------------------------
  // Reading back, following libpq's conninfo parser

  /** `isspace` in the C locale. */
  predicate IsSpace(c: char) {
    c == ' ' || '\t' <= c <= '\r'
  }

  /** A keyword that the reader takes back as a whole: non-empty, no `=` and no white space. */
  predicate WellFormedKeyword(k: string) {
    |k| > 0 && forall i :: 0 <= i < |k| ==> k[i] != '=' && !IsSpace(k[i])
  }

  /** A keyword checked character by character, as a set of characters. */
  lemma KeywordOfChars(k: string)
    requires |k| > 0 && '=' !in k && forall c :: c in k ==> !IsSpace(c)
    ensures WellFormedKeyword(k)
  {
    forall i | 0 <= i < |k| ensures k[i] != '=' && !IsSpace(k[i]) {
      assert k[i] in k;
    }
  }

  function SkipSpaces(s: string): (r: string)
    ensures |r| <= |s| && r == s[|s| - |r|..]
    ensures r == [] || !IsSpace(r[0])
    decreases |s|
  {
    if s != [] && IsSpace(s[0]) then SkipSpaces(s[1..]) else s
  }

  /** The keyword runs up to the first `=` or white space; returns it and the rest. */
  function ReadKeyword(s: string): (r: (string, string))
    ensures r.0 + r.1 == s
    ensures r.1 == [] || r.1[0] == '=' || IsSpace(r.1[0])
    decreases |s|
  {
    if s == [] || s[0] == '=' || IsSpace(s[0]) then ([], s)
    else
      var (k, rest) := ReadKeyword(s[1..]);
      ([s[0]] + k, rest)
  }

  /**
   * A value without quotes runs up to white space; a backslash takes the next
   * character literally (and a backslash at the very end is dropped).
   */
  function ReadUnquoted(s: string): (r: (string, string))
    ensures |r.1| <= |s|
    decreases |s|
  {
    if s == [] || IsSpace(s[0]) then ([], s)
    else if s[0] == '\\' then
      if |s| == 1 then ([], [])
      else
        var (v, rest) := ReadUnquoted(s[2..]);
        ([s[1]] + v, rest)
    else
      var (v, rest) := ReadUnquoted(s[1..]);
      ([s[0]] + v, rest)
  }

  /**
   * A quoted value, read from just after its opening quote: a backslash takes
   * the next character literally, an unescaped quote closes the value, and
   * running out of input first is the error "unterminated quoted string".
   */
  function ReadQuoted(s: string): (r: Option<(string, string)>)
    ensures r.Some? ==> |r.value.1| < |s|
    decreases |s|
  {
    if s == [] then None
    else if s[0] == '\\' then
      if |s| == 1 then None
      else
        match ReadQuoted(s[2..])
        case None => None
        case Some((v, rest)) => Some(([s[1]] + v, rest))
    else if s[0] == '\'' then Some(([], s[1..]))
    else
      match ReadQuoted(s[1..])
      case None => None
      case Some((v, rest)) => Some(([s[0]] + v, rest))
  }

  /** A value, quoted or not, read from its first character; returns it and the rest. */
  function ReadValue(v: string): (r: Option<(string, string)>)
    ensures r.Some? ==> |r.value.1| <= |v|
  {
    if v != [] && v[0] == '\'' then ReadQuoted(v[1..]) else Some(ReadUnquoted(v))
  }

  /**
   * One `keyword = value` setting, read from its keyword, with optional white
   * space around the `=`; None for a keyword that is not followed by `=` or a
   * quoted value that is not closed.
   */
  function ReadSetting(t: string): (r: Option<(Setting, string)>)
    ensures r.Some? ==> |r.value.1| < |t|
  {
    var (k, afterKey) := ReadKeyword(t);
    var eq := SkipSpaces(afterKey);
    if eq == [] || eq[0] != '=' then None
    else
      match ReadValue(SkipSpaces(eq[1..]))
      case None => None
      case Some((value, rest)) => Some((Setting(k, value), rest))
  }

  /**
   * The whole string as a sequence of settings, or None where libpq reports a
   * syntax error (a keyword without `=`, an unterminated quoted value).
   */
  function ParseSettings(s: string): Option<seq<Setting>>
    decreases |s|
  {
    var t := SkipSpaces(s);
    if t == [] then Some([])
    else
      match ReadSetting(t)
      case None => None
      case Some((st, rest)) =>
        match ParseSettings(rest)
        case None => None
        case Some(more) => Some([st] + more)
  }

  // ---------------------------------------------------------------------------
  // Round trips

  /**
   * The escaped value, followed by a closing quote, reads back as exactly the
   * original value: nothing in the value can end the quoted string early.
   */
  lemma {:induction false} QuotedRoundTrip(value: string, rest: string)
    ensures ReadQuoted(Escaping.Escape(value) + "'" + rest) == Some((value, rest))
    decreases |value|
  {
    var e := Escaping.Escape(value) + "'" + rest;
    if value == [] {
      assert e == "'" + rest;
    } else {
      QuotedRoundTrip(value[1..], rest);
      var tail := Escaping.Escape(value[1..]) + "'" + rest;
      assert e == Escaping.EscapeChar(value[0]) + tail;
      assert [value[0]] + value[1..] == value;
      if Escaping.IsSpecial(value[0]) {
        assert e[0] == '\\' && e[1] == value[0];
        assert e[2..] == tail;
      } else {
        assert e[0] == value[0];
        assert e[1..] == tail;
      }
    }
  }

  /** Escaping loses nothing: different values never escape to the same text. */
  lemma EscapeInjective(a: string, b: string)
    requires Escaping.Escape(a) == Escaping.Escape(b)
    ensures a == b
  {
    QuotedRoundTrip(a, "");
    QuotedRoundTrip(b, "");
  }

  lemma {:induction false} ReadKeywordOf(k: string, rest: string)
    requires WellFormedKeyword(k)
    requires rest != [] && (rest[0] == '=' || IsSpace(rest[0]))
    ensures ReadKeyword(k + rest) == (k, rest)
    decreases |k|
  {
    assert (k + rest)[0] == k[0];
    if |k| > 1 {
      assert (k + rest)[1..] == k[1..] + rest;
      ReadKeywordOf(k[1..], rest);
      assert [k[0]] + k[1..] == k;
    } else {
      assert (k + rest)[1..] == rest;
      assert [k[0]] == k;
    }
  }

  /**
   * A keyword is not escaped, so one holding white space followed by more
   * text is read as a keyword without `=`: the whole string is rejected.
   */
  lemma SpacedKeywordRejected(a: string, b: string, rest: string)
    requires WellFormedKeyword(a)
    requires b != [] && b[0] != '=' && !IsSpace(b[0])
    ensures ParseSettings(a + " " + b + rest) == None
  {
    var t := a + " " + b + rest;
    assert t[0] == a[0];
    assert SkipSpaces(t) == t;
    SpacedKeywordNoEquals(a, b, rest);
  }

  lemma SpacedKeywordNoEquals(a: string, b: string, rest: string)
    requires WellFormedKeyword(a)
    requires b != [] && b[0] != '=' && !IsSpace(b[0])
    ensures ReadSetting(a + " " + b + rest) == None
  {
    var afterKey := " " + b + rest;
    assert a + " " + b + rest == a + afterKey;
    ReadKeywordOf(a, afterKey);
    assert afterKey[1..] == b + rest;
    assert SkipSpaces(afterKey) == b + rest;
  }

  /** White space before a setting is skipped. */
  lemma ParseLeadingSpace(s: string)
    ensures ParseSettings(" " + s) == ParseSettings(s)
  {
    assert (" " + s)[1..] == s;
    assert SkipSpaces(" " + s) == SkipSpaces(s);
  }

  lemma JoinCons(ps: seq<string>, sep: string)
    requires |ps| > 1
    ensures Join(ps, sep) == ps[0] + (sep + Join(ps[1..], sep))
  {
  }

  /** One quoted pair reads back as its setting, leaving what follows it untouched. */
  lemma ReadQuotedPair(st: Setting, tail: string)
    requires WellFormedKeyword(st.key)
    ensures ReadSetting(QuotedPair(st) + tail) == Some((st, tail))
  {
    var esc := Escaping.Escape(st.value);
    var afterKey := "='" + esc + "'" + tail;
    assert QuotedPair(st) + tail == st.key + afterKey;
    ReadKeywordOf(st.key, afterKey);
    assert SkipSpaces(afterKey) == afterKey;
    var v := afterKey[1..];
    assert v == "'" + esc + "'" + tail;
    assert SkipSpaces(v) == v;
    assert v[1..] == esc + "'" + tail;
    QuotedRoundTrip(st.value, tail);
  }

  /** One pair followed by `tail` reads as its setting followed by whatever `tail` reads as. */
  lemma ParsePairThen(st: Setting, tail: string, more: seq<Setting>)
    requires WellFormedKeyword(st.key)
    requires ParseSettings(tail) == Some(more)
    ensures ParseSettings(QuotedPair(st) + tail) == Some([st] + more)
  {
    var s := QuotedPair(st) + tail;
    assert s[0] == st.key[0];
    assert SkipSpaces(s) == s;
    ReadQuotedPair(st, tail);
  }

  /** One pair in front of a string libpq rejects: the whole string is rejected. */
  lemma ParsePairThenFails(st: Setting, tail: string)
    requires WellFormedKeyword(st.key)
    requires ParseSettings(tail) == None
    ensures ParseSettings(QuotedPair(st) + tail) == None
  {
    var s := QuotedPair(st) + tail;
    assert s[0] == st.key[0];
    assert SkipSpaces(s) == s;
    ReadQuotedPair(st, tail);
  }

  /**
   * Well-formed quoted pairs, joined by spaces, in front of a string libpq
   * rejects (after one more space): the whole string is rejected.
   */
  lemma {:induction false} ParseJoinedThenFails(ss: seq<Setting>, t: string)
    requires forall i :: 0 <= i < |ss| ==> WellFormedKeyword(ss[i].key)
    requires ParseSettings(t) == None
    ensures ParseSettings(Join(QuotedPairs(ss), " ") + " " + t) == None
    decreases |ss|
  {
    if ss == [] {
      var ps := QuotedPairs(ss);
      assert ps == [] && Join(ps, " ") == "";
      assert Join(ps, " ") + " " + t == " " + t;
      ParseLeadingSpace(t);
    } else if |ss| == 1 {
      ParseSingleThenFails(ss[0], t);
      assert [ss[0]] == ss;
    } else {
      var rest := ss[1..];
      assert [ss[0]] + rest == ss;
      assert ParseSettings(Join(QuotedPairs(rest), " ") + " " + t) == None by {
        ParseJoinedThenFails(rest, t);
      }
      ParseStepThenFails(ss[0], rest, t);
    }
  }

  lemma ParseSingleThenFails(st: Setting, t: string)
    requires WellFormedKeyword(st.key)
    requires ParseSettings(t) == None
    ensures ParseSettings(Join(QuotedPairs([st]), " ") + " " + t) == None
  {
    ParseLeadingSpace(t);
    assert Join(QuotedPairs([st]), " ") == QuotedPair(st);
    assert QuotedPair(st) + " " + t == QuotedPair(st) + (" " + t);
    ParsePairThenFails(st, " " + t);
  }

  lemma ParseStepThenFails(st: Setting, tail: seq<Setting>, t: string)
    requires WellFormedKeyword(st.key) && tail != []
    requires ParseSettings(Join(QuotedPairs(tail), " ") + " " + t) == None
    ensures ParseSettings(Join(QuotedPairs([st] + tail), " ") + " " + t) == None
  {
    var j := Join(QuotedPairs(tail), " ");
    var x := j + " " + t;
    ParseLeadingSpace(x);
    ParsePairThenFails(st, " " + x);
    var ps := QuotedPairs([st] + tail);
    assert ([st] + tail)[1..] == tail;
    assert ps[1..] == QuotedPairs(tail);
    JoinCons(ps, " ");
    assert Join(ps, " ") == QuotedPair(st) + (" " + j);
    Regroup(QuotedPair(st), j, t);
  }

  /** `(q + " " + j) + " " + t`, regrouped around the first pair. */
  lemma Regroup(q: string, j: string, t: string)
    ensures q + (" " + j) + " " + t == q + (" " + (j + " " + t))
  {
  }


  /** A single pair reads back as its setting. */
  lemma ParseJoinedSingle(st: Setting)
    requires WellFormedKeyword(st.key)
    ensures ParseSettings(Join(QuotedPairs([st]), " ")) == Some([st])
  {
    assert ParseSettings("") == Some([]);
    ParsePairThen(st, "", []);
    assert QuotedPair(st) + "" == QuotedPair(st);
    assert [st] + [] == [st];
  }

  /** One more pair in front of a non-empty joined list that reads back. */
  lemma ParseJoinedStep(st: Setting, tail: seq<Setting>)
    requires WellFormedKeyword(st.key) && tail != []
    requires ParseSettings(Join(QuotedPairs(tail), " ")) == Some(tail)
    ensures ParseSettings(Join(QuotedPairs([st] + tail), " ")) == Some([st] + tail)
  {
    var ps := QuotedPairs([st] + tail);
    var rest := Join(QuotedPairs(tail), " ");
    assert ([st] + tail)[1..] == tail;
    assert ps[1..] == QuotedPairs(tail);
    JoinCons(ps, " ");
    ParseLeadingSpace(rest);
    ParsePairThen(st, " " + rest, tail);
  }

  /**
   * Joining quoted pairs with single spaces and reading the result back gives
   * the settings again, in order, provided every keyword is a single token.
   */
  lemma {:induction false} ParseJoinedPairs(ss: seq<Setting>)
    requires forall i :: 0 <= i < |ss| ==> WellFormedKeyword(ss[i].key)
    ensures ParseSettings(Join(QuotedPairs(ss), " ")) == Some(ss)
    decreases |ss|
  {
    if ss == [] {
      assert Join(QuotedPairs(ss), " ") == "";
    } else if |ss| == 1 {
      ParseJoinedSingle(ss[0]);
      assert [ss[0]] == ss;
    } else {
      ParseJoinedPairs(ss[1..]);
      ParseJoinedStep(ss[0], ss[1..]);
      assert [ss[0]] + ss[1..] == ss;
    }
  }

}
