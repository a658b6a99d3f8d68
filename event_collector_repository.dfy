/**
 * The connection-descriptor builder of the event collector's repository: one
 * `key='value'` pair per entry of a string map, the key copied verbatim and
 * the value escaped, joined by single spaces. The pairs come in the map's
 * iteration order, which Go leaves unspecified; the model picks each next key
 * nondeterministically and returns the order it took as a ghost result.
 */
module EventCollectorRepository {
  import Escaping
  import Conninfo

  /** `order` lists every key of `keys` exactly once: one possible iteration order. */
  predicate IsEnumeration(order: seq<string>, keys: set<string>) {
    && (forall i, j :: 0 <= i < j < |order| ==> order[i] != order[j])
    && (forall i :: 0 <= i < |order| ==> order[i] in keys)
    && (forall k :: k in keys ==> k in order)
  }

  /** The settings of the map, in the given order of its keys. */
  function EntriesInOrder(values: map<string, string>, order: seq<string>): (r: seq<Conninfo.Setting>)
    requires forall i :: 0 <= i < |order| ==> order[i] in values
    ensures |r| == |order|
    ensures forall i :: 0 <= i < |order| ==> r[i] == Conninfo.Setting(order[i], values[order[i]])
    decreases |order|
  {
    if order == [] then [] else [Conninfo.Setting(order[0], values[order[0]])] + EntriesInOrder(values, order[1..])
  }

  /** The pairs the builder emits when it visits the keys in `order`. */
  function MapPairs(values: map<string, string>, order: seq<string>): (r: seq<string>)
    requires forall i :: 0 <= i < |order| ==> order[i] in values
    ensures |r| == |order|
    ensures forall i :: 0 <= i < |order| ==>
      r[i] == Conninfo.QuotedPair(Conninfo.Setting(order[i], values[order[i]]))
    decreases |order|
  {
    if order == [] then []
    else [Conninfo.QuotedPair(Conninfo.Setting(order[0], values[order[0]]))] + MapPairs(values, order[1..])
  }

  /**
   * Builds the connection string from the map: visits every key once, in an
   * order it does not control, appends `key='escaped value'` for each, and
   * joins the pairs with single spaces.
   */
  method CreateConnectionString(values: map<string, string>) returns (s: string, ghost order: seq<string>)
    ensures IsEnumeration(order, values.Keys)
    ensures s == Conninfo.Join(MapPairs(values, order), " ")
  {
    var pairs: seq<string> := [];
    var remaining := values.Keys;
    order := [];
    while remaining != {}
      invariant remaining <= values.Keys
      invariant forall i, j :: 0 <= i < j < |order| ==> order[i] != order[j]
      invariant forall i :: 0 <= i < |order| ==> order[i] in values && order[i] !in remaining
      invariant forall k :: k in values && k !in remaining ==> k in order
      invariant pairs == MapPairs(values, order)
      decreases remaining
    {
      var k :| k in remaining;
      var v := values[k];
      MapPairsSnoc(values, order, k);
      pairs := pairs + [k + "='" + Escaping.Escape(v) + "'"];
      order := order + [k];
      remaining := remaining - {k};
    }
    s := Conninfo.Join(pairs, " ");
  }

  // ---------------------------------------------------------------------------
  // What the string contains

  /** An empty map gives the empty string. */
  lemma EmptyMap(values: map<string, string>, order: seq<string>)
    requires values == map[]
    requires IsEnumeration(order, values.Keys)
    ensures Conninfo.Join(MapPairs(values, order), " ") == ""
  {
    EnumerationLength(order, values.Keys);
  }

  /** Dropping the first key of an enumeration enumerates the other keys. */
  lemma EnumerationTail(order: seq<string>, keys: set<string>)
    requires IsEnumeration(order, keys) && order != []
    ensures IsEnumeration(order[1..], keys - {order[0]})
  {
    var rest := order[1..];
    forall i | 0 <= i < |rest| ensures rest[i] in keys - {order[0]} {
      assert rest[i] == order[i + 1];
    }
    forall x | x in keys - {order[0]} ensures x in rest {
      var j :| 0 <= j < |order| && order[j] == x;
      assert j > 0 && rest[j - 1] == x;
    }
  }

  /** Dropping the key at position `i` of an enumeration enumerates the other keys. */
  lemma EnumerationRemove(order: seq<string>, keys: set<string>, i: nat)
    requires IsEnumeration(order, keys) && i < |order|
    ensures IsEnumeration(order[..i] + order[i + 1..], keys - {order[i]})
  {
    var k := order[i];
    var rest := order[..i] + order[i + 1..];
    forall x | 0 <= x < |rest| ensures rest[x] == order[if x < i then x else x + 1] {
    }
    forall x | 0 <= x < |rest| ensures rest[x] in keys - {k} {
      assert rest[x] == order[if x < i then x else x + 1];
    }
    forall x, y | 0 <= x < y < |rest| ensures rest[x] != rest[y] {
      assert rest[x] == order[if x < i then x else x + 1];
      assert rest[y] == order[if y < i then y else y + 1];
    }
    forall z | z in keys - {k} ensures z in rest {
      var j :| 0 <= j < |order| && order[j] == z;
      if j < i { assert rest[j] == z; } else { assert rest[j - 1] == z; }
    }
  }

  /** An enumeration of a set has as many elements as the set. */
  lemma {:induction false} EnumerationLength(order: seq<string>, keys: set<string>)
    requires IsEnumeration(order, keys)
    ensures |order| == |keys|
    decreases |order|
  {
    if order == [] {
      assert keys == {};
    } else {
      EnumerationTail(order, keys);
      EnumerationLength(order[1..], keys - {order[0]});
    }
  }

  /** One pair per map entry. */
  lemma PairCount(values: map<string, string>, order: seq<string>)
    requires IsEnumeration(order, values.Keys)
    ensures |MapPairs(values, order)| == |values|
  {
    EnumerationLength(order, values.Keys);
  }

  /** A pair is emitted exactly when it is `key='escaped value'` for some entry of the map. */
  lemma PairsAreEntries(values: map<string, string>, order: seq<string>, p: string)
    requires IsEnumeration(order, values.Keys)
    ensures p in MapPairs(values, order) <==>
      exists k :: k in values && p == Conninfo.QuotedPair(Conninfo.Setting(k, values[k]))
  {
    var ps := MapPairs(values, order);
    if exists k :: k in values && p == Conninfo.QuotedPair(Conninfo.Setting(k, values[k])) {
      var k :| k in values && p == Conninfo.QuotedPair(Conninfo.Setting(k, values[k]));
      var i :| 0 <= i < |order| && order[i] == k;
      assert ps[i] == p;
    }
    if p in ps {
      var i :| 0 <= i < |ps| && ps[i] == p;
      assert order[i] in values;
    }
  }

  /** The pairs of two orders one after the other are the pairs of each, one after the other. */
  lemma {:induction false} MapPairsConcat(values: map<string, string>, a: seq<string>, b: seq<string>)
    requires forall i :: 0 <= i < |a| ==> a[i] in values
    requires forall i :: 0 <= i < |b| ==> b[i] in values
    ensures MapPairs(values, a + b) == MapPairs(values, a) + MapPairs(values, b)
    decreases |a|
  {
    if a == [] {
      assert a + b == b;
    } else {
      assert (a + b)[0] == a[0];
      assert (a + b)[1..] == a[1..] + b;
      MapPairsConcat(values, a[1..], b);
    }
  }

  /** Visiting one more key appends its pair. */
  lemma MapPairsSnoc(values: map<string, string>, order: seq<string>, k: string)
    requires forall i :: 0 <= i < |order| ==> order[i] in values
    requires k in values
    ensures MapPairs(values, order + [k]) ==
      MapPairs(values, order) + [Conninfo.QuotedPair(Conninfo.Setting(k, values[k]))]
  {
    MapPairsConcat(values, order, [k]);
    assert [k][1..] == [];
  }

  /**
   * Whatever order the map is visited in, the same pairs are emitted the same
   * number of times: only their order is left open.
   */
  lemma {:induction false} SamePairsAnyOrder(values: map<string, string>, o1: seq<string>, o2: seq<string>, keys: set<string>)
    requires keys <= values.Keys
    requires IsEnumeration(o1, keys) && IsEnumeration(o2, keys)
    ensures multiset(MapPairs(values, o1)) == multiset(MapPairs(values, o2))
    decreases |o1|
  {
    if o1 == [] {
      EnumerationLength(o1, keys);
      EnumerationLength(o2, keys);
    } else {
      var k := o1[0];
      var i :| 0 <= i < |o2| && o2[i] == k;
      EnumerationTail(o1, keys);
      EnumerationRemove(o2, keys, i);
      SamePairsAnyOrder(values, o1[1..], o2[..i] + o2[i + 1..], keys - {k});
      PairsAround(values, o1, 0);
      PairsAround(values, o2, i);
      assert o1[..0] + o1[1..] == o1[1..];
    }
  }

  /** The pairs of an order are those of the order without position `i`, plus the pair at `i`. */
  lemma PairsAround(values: map<string, string>, order: seq<string>, i: nat)
    requires forall j :: 0 <= j < |order| ==> order[j] in values
    requires i < |order|
    ensures multiset(MapPairs(values, order)) ==
      multiset(MapPairs(values, order[..i] + order[i + 1..])) +
      multiset{Conninfo.QuotedPair(Conninfo.Setting(order[i], values[order[i]]))}
  {
    var left, right := order[..i], order[i + 1..];
    assert order == left + [order[i]] + right;
    MapPairsConcat(values, left, [order[i]]);
    MapPairsConcat(values, left + [order[i]], right);
    MapPairsConcat(values, left, right);
  }

  // ---------------------------------------------------------------------------
  // Reading the string back

  /**
   * When every key is a single token, libpq reads the string back as the map's
   * entries in the visiting order: every value exactly as stored in the map.
   */
  lemma MapReadsBack(values: map<string, string>, order: seq<string>)
    requires IsEnumeration(order, values.Keys)
    requires forall k :: k in values ==> Conninfo.WellFormedKeyword(k)
    ensures Conninfo.ParseSettings(Conninfo.Join(MapPairs(values, order), " ")) ==
      Conninfo.Some(EntriesInOrder(values, order))
  {
    var es := EntriesInOrder(values, order);
    assert MapPairs(values, order) == Conninfo.QuotedPairs(es);
    Conninfo.ParseJoinedPairs(es);
  }

  /**
   * Keys are not escaped: a key holding a space before more text is copied
   * into the string as it is. If every key visited before it is a single
   * token, libpq reads those pairs, then reads the part of this key before
   * the space as a keyword with no `=` after it, and rejects the string.
   */
  lemma KeysAreNotEscaped(values: map<string, string>, order: seq<string>, i: nat, a: string, b: string)
    requires IsEnumeration(order, values.Keys)
    requires i < |order| && order[i] == a + " " + b
    requires Conninfo.WellFormedKeyword(a)
    requires b != [] && b[0] != '=' && !Conninfo.IsSpace(b[0])
    requires forall j :: 0 <= j < i ==> Conninfo.WellFormedKeyword(order[j])
    ensures Conninfo.ParseSettings(Conninfo.Join(MapPairs(values, order), " ")) == Conninfo.None
  {
    SpacedPairFirst(values, order[i..], a, b);
    RejectedAfter(values, order, i);
  }

  /** When the pairs from position `i` on are rejected and the keys before `i` are tokens, the whole string is rejected. */
  lemma RejectedAfter(values: map<string, string>, order: seq<string>, i: nat)
    requires forall j :: 0 <= j < |order| ==> order[j] in values
    requires i < |order|
    requires forall j :: 0 <= j < i ==> Conninfo.WellFormedKeyword(order[j])
    requires Conninfo.ParseSettings(Conninfo.Join(MapPairs(values, order[i..]), " ")) == Conninfo.None
    ensures Conninfo.ParseSettings(Conninfo.Join(MapPairs(values, order), " ")) == Conninfo.None
  {
    var pre, post := order[..i], order[i..];
    if i == 0 {
      assert post == order;
    } else {
      assert order == pre + post;
      MapPairsConcat(values, pre, post);
      TokensThenRejected(values, pre, post);
    }
  }

  /** Pairs with single-token keys in front of pairs libpq rejects: the whole string is rejected. */
  lemma TokensThenRejected(values: map<string, string>, pre: seq<string>, post: seq<string>)
    requires forall j :: 0 <= j < |pre| ==> pre[j] in values && Conninfo.WellFormedKeyword(pre[j])
    requires forall j :: 0 <= j < |post| ==> post[j] in values
    requires pre != [] && post != []
    requires Conninfo.ParseSettings(Conninfo.Join(MapPairs(values, post), " ")) == Conninfo.None
    ensures Conninfo.ParseSettings(Conninfo.Join(MapPairs(values, pre) + MapPairs(values, post), " ")) == Conninfo.None
  {
    var es := EntriesInOrder(values, pre);
    assert MapPairs(values, pre) == Conninfo.QuotedPairs(es);
    Conninfo.JoinAppend(MapPairs(values, pre), MapPairs(values, post), " ");
    Conninfo.ParseJoinedThenFails(es, Conninfo.Join(MapPairs(values, post), " "));
  }

  /**
   * Why `KeysAreNotEscaped` needs single-token keys before the spaced one: a
   * key ending in a quote opens a quoted value early, which then runs over the
   * next pair. With keys `k0='` (value `k1=`) and `key2`, visited in that
   * order, libpq reads `k0 = "="` and `k1 = " key2="`, and `key2`, spaces and
   * all, disappears into that value; the string is accepted.
   */
  lemma QuotedKeyHidesNextKey(k0: string, k1: string, key2: string, v2: string, more: seq<Conninfo.Setting>)
    requires Conninfo.WellFormedKeyword(k0) && Conninfo.WellFormedKeyword(k1)
    requires Escaping.Plain(k1) && Escaping.Plain(key2)
    requires Conninfo.ParseSettings(Escaping.Escape(v2) + "'") == Conninfo.Some(more)
    ensures var values := map[k0 + "='" := k1 + "=", key2 := v2];
      && IsEnumeration([k0 + "='", key2], values.Keys)
      && Conninfo.ParseSettings(Conninfo.Join(MapPairs(values, [k0 + "='", key2]), " ")) ==
           Conninfo.Some([Conninfo.Setting(k0, "=")] + ([Conninfo.Setting(k1, " " + key2 + "=")] + more))
  {
    var x := k0 + "='";
    var values := map[x := k1 + "=", key2 := v2];
    var p, q := Conninfo.Setting(k0, "="), Conninfo.Setting(k1, " " + key2 + "=");
    var tail := Escaping.Escape(v2) + "'";
    HidingKeysDistinct(k0, key2);
    TwoKeyOrder(x, key2, k1 + "=", v2);
    assert Conninfo.Join(MapPairs(values, [x, key2]), " ") ==
      Conninfo.QuotedPair(p) + (Conninfo.QuotedPair(q) + tail) by {
      HidingString(k0, k1, key2, v2);
    }
    HidingParse(p, q, tail, more);
  }

  /** Two different keys, listed once each, enumerate the two-entry map they key. */
  lemma TwoKeyOrder(x: string, y: string, a: string, b: string)
    requires x != y
    ensures IsEnumeration([x, y], map[x := a, y := b].Keys)
  {
    var keys := map[x := a, y := b].Keys;
    assert keys == {x, y};
  }

  /** A key holding a quote differs from a key that holds none. */
  lemma HidingKeysDistinct(k0: string, key2: string)
    requires Escaping.Plain(key2)
    ensures k0 + "='" != key2
  {
    var k := k0 + "='";
    assert k[|k0| + 1] == '\'';
  }

  /** The string the builder emits for the two keys, regrouped as two quoted pairs and a tail. */
  lemma HidingString(k0: string, k1: string, key2: string, v2: string)
    requires Escaping.Plain(k1) && Escaping.Plain(key2)
    requires k0 + "='" != key2
    ensures var values := map[k0 + "='" := k1 + "=", key2 := v2];
      Conninfo.Join(MapPairs(values, [k0 + "='", key2]), " ") ==
        Conninfo.QuotedPair(Conninfo.Setting(k0, "=")) +
        (Conninfo.QuotedPair(Conninfo.Setting(k1, " " + key2 + "=")) + (Escaping.Escape(v2) + "'"))
  {
    var values := map[k0 + "='" := k1 + "=", key2 := v2];
    TwoPairsJoined(values, k0 + "='", key2);
    PlainWith(k1, "", "=");
    PlainWith(key2, " ", "=");
    var eq, e1, e2 := "=", k1 + "=", " " + key2 + "=";
    Escaping.EscapePlain(eq);
    Escaping.EscapePlain(e1);
    Escaping.EscapePlain(e2);
    HidingShape(k0, k1, key2, Escaping.Escape(v2));
  }

  /** Two visited keys give their two pairs with one space between them. */
  lemma TwoPairsJoined(values: map<string, string>, x: string, y: string)
    requires x in values && y in values
    ensures Conninfo.Join(MapPairs(values, [x, y]), " ") ==
      Conninfo.QuotedPair(Conninfo.Setting(x, values[x])) + " " + Conninfo.QuotedPair(Conninfo.Setting(y, values[y]))
  {
    var ps := MapPairs(values, [x, y]);
    assert ps[1..] == [ps[1]];
  }

  /** The same characters, cut at the quotes libpq pairs up rather than at the spaces the builder puts in. */
  lemma HidingShape(k0: string, k1: string, key2: string, e: string)
    ensures Conninfo.Pair(k0 + "='", k1 + "=") + " " + Conninfo.Pair(key2, e) ==
      Conninfo.Pair(k0, "=") + (Conninfo.Pair(k1, " " + key2 + "=") + (e + "'"))
  {
  }

  /** A plain text with plain text before and after it is plain. */
  lemma PlainWith(t: string, before: string, after: string)
    requires Escaping.Plain(t)
    requires forall i :: 0 <= i < |before| ==> !Escaping.IsSpecial(before[i])
    requires forall i :: 0 <= i < |after| ==> !Escaping.IsSpecial(after[i])
    ensures Escaping.Plain(before + t + after)
  {
    var s := before + t + after;
    forall i | 0 <= i < |s| ensures !Escaping.IsSpecial(s[i]) {
      if i < |before| {
      } else if i < |before| + |t| {
        assert s[i] == t[i - |before|];
      } else {
        assert s[i] == after[i - |before| - |t|];
      }
    }
  }

  /** Two quoted pairs with single-token keys read back as their settings, then the tail as whatever it reads as. */
  lemma HidingParse(p: Conninfo.Setting, q: Conninfo.Setting, tail: string, more: seq<Conninfo.Setting>)
    requires Conninfo.WellFormedKeyword(p.key) && Conninfo.WellFormedKeyword(q.key)
    requires Conninfo.ParseSettings(tail) == Conninfo.Some(more)
    ensures Conninfo.ParseSettings(Conninfo.QuotedPair(p) + (Conninfo.QuotedPair(q) + tail)) ==
      Conninfo.Some([p] + ([q] + more))
  {
    Conninfo.ParsePairThen(q, tail, more);
    Conninfo.ParsePairThen(p, Conninfo.QuotedPair(q) + tail, [q] + more);
  }

  /** Visiting the spaced key first makes libpq reject the string, whatever follows. */
  lemma SpacedPairFirst(values: map<string, string>, order: seq<string>, a: string, b: string)
    requires forall j :: 0 <= j < |order| ==> order[j] in values
    requires order != [] && order[0] == a + " " + b
    requires Conninfo.WellFormedKeyword(a)
    requires b != [] && b[0] != '=' && !Conninfo.IsSpace(b[0])
    ensures Conninfo.ParseSettings(Conninfo.Join(MapPairs(values, order), " ")) == Conninfo.None
  {
    var ps := MapPairs(values, order);
    var rest := if |ps| == 1 then "" else " " + Conninfo.Join(ps[1..], " ");
    if |ps| > 1 {
      Conninfo.JoinCons(ps, " ");
    }
    assert Conninfo.Join(ps, " ") == ps[0] + rest;
    var v := values[order[0]];
    var after := "='" + Escaping.Escape(v) + "'" + rest;
    assert ps[0] + rest == a + " " + b + after;
    Conninfo.SpacedKeywordRejected(a, b, after);
  }

}
