/**
 * The connection-descriptor builder of the history server's repository: the
 * five connection settings of a Postgres configuration record, always, then
 * up to four pool-tuning settings, each only when its field is positive, all
 * joined by single spaces into a keyword/value connection string.
 */
module Repository {
  import Escaping
  import Decimal
  import Conninfo

  /**
   * The fields of the configuration record the builder reads. The two pool
   * durations are Go `time.Duration` values, that is, whole nanoseconds.
   */
  datatype PostgresConfig = PostgresConfig(
    host: string,
    port: int,
    username: string,
    password: string,
    dbName: string,
    poolMaxConns: int,
    poolMinConns: int,
    poolMaxConnLifetime: int,
    poolMaxConnIdleTime: int)

  /**
   * How a value is put between the quotes: text fields go through the
   * replacer; numbers and durations are printed by a formatting verb and
   * inserted as printed.
   */
  datatype Field = Escaped(text: string) | Formatted(text: string)

  /** One `key='value'` pair before it is printed. */
  datatype Entry = Entry(key: string, field: Field)

  /** A pool-tuning entry together with the field whose positivity switches it on. */
  datatype Knob = Knob(entry: Entry, amount: int)

  /** The printed pair. */
  function Render(e: Entry): string {
    match e.field
    case Escaped(t) => Conninfo.Pair(e.key, Escaping.Escape(t))
    case Formatted(t) => Conninfo.Pair(e.key, t)
  }

  function RenderAll(es: seq<Entry>): (r: seq<string>)
    ensures |r| == |es|
    ensures forall i :: 0 <= i < |es| ==> r[i] == Render(es[i])
    decreases |es|
  {
    if es == [] then [] else [Render(es[0])] + RenderAll(es[1..])
  }

  /** The key and the value a reader of the printed pair should get back. */
  function SettingOf(e: Entry): Conninfo.Setting {
    Conninfo.Setting(e.key, e.field.text)
  }

  function SettingsOf(es: seq<Entry>): (r: seq<Conninfo.Setting>)
    ensures |r| == |es|
    ensures forall i :: 0 <= i < |es| ==> r[i] == SettingOf(es[i])
    decreases |es|
  {
    if es == [] then [] else [SettingOf(es[0])] + SettingsOf(es[1..])
  }

  /** Every value printed verbatim is free of backslashes and quotes. */
  predicate FormattedPlain(es: seq<Entry>) {
    forall i :: 0 <= i < |es| ==> es[i].field.Formatted? ==> Escaping.Plain(es[i].field.text)
  }

  /** The five settings every descriptor starts with. */
  function BaseEntries(cfg: PostgresConfig): seq<Entry> {
    [ Entry("host", Escaped(cfg.host)),
      Entry("port", Formatted(Decimal.FormatInt(cfg.port))),
      Entry("user", Escaped(cfg.username)),
      Entry("password", Escaped(cfg.password)),
      Entry("dbname", Escaped(cfg.dbName)) ]
  }

  /**
   * The four pool-tuning settings in the order the builder considers them.
   * `durationText` stands for Go's `Duration.String`. The idle-time key is
   * spelled `pool_man_conn_idle_time`, as in the source.
   */
  function PoolKnobs(cfg: PostgresConfig, durationText: int -> string): seq<Knob> {
    [ Knob(Entry("pool_max_conns", Formatted(Decimal.FormatInt(cfg.poolMaxConns))), cfg.poolMaxConns),
      Knob(Entry("pool_min_conns", Formatted(Decimal.FormatInt(cfg.poolMinConns))), cfg.poolMinConns),
      Knob(Entry("pool_max_conn_lifetime", Formatted(durationText(cfg.poolMaxConnLifetime))), cfg.poolMaxConnLifetime),
      Knob(Entry("pool_man_conn_idle_time", Formatted(durationText(cfg.poolMaxConnIdleTime))), cfg.poolMaxConnIdleTime) ]
  }

  /** The entries of the knobs whose amount is positive, in the knobs' order. */
  function Enabled(knobs: seq<Knob>): (r: seq<Entry>)
    ensures |r| <= |knobs|
    decreases |knobs|
  {
    if knobs == [] then []
    else if knobs[0].amount > 0 then [knobs[0].entry] + Enabled(knobs[1..])
    else Enabled(knobs[1..])
  }

  /** The entries of the descriptor, in order. */
  function ConfigEntries(cfg: PostgresConfig, durationText: int -> string): seq<Entry> {
    BaseEntries(cfg) + Enabled(PoolKnobs(cfg, durationText))
  }

  /** The connection string: the printed entries joined by single spaces. */
  function ConnectionString(cfg: PostgresConfig, durationText: int -> string): string {
    Conninfo.Join(RenderAll(ConfigEntries(cfg, durationText)), " ")
  }

  /** The number of pool fields that are positive. */
  function PositivePoolFields(cfg: PostgresConfig): nat {
    (if cfg.poolMaxConns > 0 then 1 else 0) +
    (if cfg.poolMinConns > 0 then 1 else 0) +
    (if cfg.poolMaxConnLifetime > 0 then 1 else 0) +
    (if cfg.poolMaxConnIdleTime > 0 then 1 else 0)
  }

  /** The entries of the knobs, all of them, in order. */
  function KnobEntries(knobs: seq<Knob>): (r: seq<Entry>)
    ensures |r| == |knobs|
    ensures forall i :: 0 <= i < |knobs| ==> r[i] == knobs[i].entry
    decreases |knobs|
  {
    if knobs == [] then [] else [knobs[0].entry] + KnobEntries(knobs[1..])
  }

  /** `a` is `b` with some elements left out and the rest kept in order. */
  predicate IsSubsequence(a: seq<Entry>, b: seq<Entry>)
    decreases |b|
  {
    if a == [] then true
    else if b == [] then false
    else (a[0] == b[0] && IsSubsequence(a[1..], b[1..])) || IsSubsequence(a, b[1..])
  }

  /**
   * Builds the connection string: the five base pairs, then each pool pair
   * whose field is positive, joined by single spaces: the printed entries of
   * `ConfigEntries`, whose contents the lemmas below describe.
   */
  method CreateConnectionString(cfg: PostgresConfig, durationText: int -> string) returns (s: string)
    ensures s == ConnectionString(cfg, durationText)
  {
    var pairs := [
      Conninfo.Pair("host", Escaping.Escape(cfg.host)),
      Conninfo.Pair("port", Decimal.FormatInt(cfg.port)),
      Conninfo.Pair("user", Escaping.Escape(cfg.username)),
      Conninfo.Pair("password", Escaping.Escape(cfg.password)),
      Conninfo.Pair("dbname", Escaping.Escape(cfg.dbName))
    ];
    ghost var entries := BaseEntries(cfg);
    assert pairs == RenderAll(entries);
    ghost var e := Entry("pool_max_conns", Formatted(Decimal.FormatInt(cfg.poolMaxConns)));
    if cfg.poolMaxConns > 0 {
      pairs := pairs + [Conninfo.Pair("pool_max_conns", Decimal.FormatInt(cfg.poolMaxConns))];
    }
    RenderWhen(entries, cfg.poolMaxConns > 0, e);
    entries := entries + When(cfg.poolMaxConns > 0, e);
    assert pairs == RenderAll(entries);
    e := Entry("pool_min_conns", Formatted(Decimal.FormatInt(cfg.poolMinConns)));
    if cfg.poolMinConns > 0 {
      pairs := pairs + [Conninfo.Pair("pool_min_conns", Decimal.FormatInt(cfg.poolMinConns))];
    }
    RenderWhen(entries, cfg.poolMinConns > 0, e);
    entries := entries + When(cfg.poolMinConns > 0, e);
    assert pairs == RenderAll(entries);
    e := Entry("pool_max_conn_lifetime", Formatted(durationText(cfg.poolMaxConnLifetime)));
    if cfg.poolMaxConnLifetime > 0 {
      pairs := pairs + [Conninfo.Pair("pool_max_conn_lifetime", durationText(cfg.poolMaxConnLifetime))];
    }
    RenderWhen(entries, cfg.poolMaxConnLifetime > 0, e);
    entries := entries + When(cfg.poolMaxConnLifetime > 0, e);
    assert pairs == RenderAll(entries);
    e := Entry("pool_man_conn_idle_time", Formatted(durationText(cfg.poolMaxConnIdleTime)));
    if cfg.poolMaxConnIdleTime > 0 {
      pairs := pairs + [Conninfo.Pair("pool_man_conn_idle_time", durationText(cfg.poolMaxConnIdleTime))];
    }
    RenderWhen(entries, cfg.poolMaxConnIdleTime > 0, e);
    entries := entries + When(cfg.poolMaxConnIdleTime > 0, e);
    assert pairs == RenderAll(entries);
    ConfigEntriesUnrolled(cfg, durationText);
    assert entries == ConfigEntries(cfg, durationText);
    s := Conninfo.Join(pairs, " ");
  }

  /** `[e]` when `b` holds, nothing otherwise. */
  function When(b: bool, e: Entry): (r: seq<Entry>)
    ensures b ==> r == [e]
    ensures !b ==> r == []
  {
    if b then [e] else []
  }

  /** Printing entries distributes over concatenation. */
  lemma RenderAllConcat(a: seq<Entry>, b: seq<Entry>)
    ensures RenderAll(a + b) == RenderAll(a) + RenderAll(b)
  {
    var r := RenderAll(a + b);
    assert forall i :: 0 <= i < |a| ==> (a + b)[i] == a[i];
    assert forall i :: 0 <= i < |b| ==> (a + b)[|a| + i] == b[i];
  }

  /** One conditional append of the builder, on the printed side. */
  lemma RenderWhen(es: seq<Entry>, b: bool, e: Entry)
    ensures RenderAll(es + When(b, e)) == RenderAll(es) + (if b then [Render(e)] else [])
  {
    RenderAllConcat(es, When(b, e));
  }

  /** Filtering distributes over concatenation. */
  lemma {:induction false} EnabledConcat(a: seq<Knob>, b: seq<Knob>)
    ensures Enabled(a + b) == Enabled(a) + Enabled(b)
    decreases |a|
  {
    if a == [] {
      assert a + b == b;
    } else {
      assert (a + b)[0] == a[0];
      assert (a + b)[1..] == a[1..] + b;
      EnabledConcat(a[1..], b);
    }
  }

  /** The descriptor's entries with the pool-tuning conditions spelled out one by one. */
  lemma ConfigEntriesUnrolled(cfg: PostgresConfig, durationText: int -> string)
    ensures ConfigEntries(cfg, durationText) ==
      BaseEntries(cfg)
      + When(cfg.poolMaxConns > 0, Entry("pool_max_conns", Formatted(Decimal.FormatInt(cfg.poolMaxConns))))
      + When(cfg.poolMinConns > 0, Entry("pool_min_conns", Formatted(Decimal.FormatInt(cfg.poolMinConns))))
      + When(cfg.poolMaxConnLifetime > 0, Entry("pool_max_conn_lifetime", Formatted(durationText(cfg.poolMaxConnLifetime))))
      + When(cfg.poolMaxConnIdleTime > 0, Entry("pool_man_conn_idle_time", Formatted(durationText(cfg.poolMaxConnIdleTime))))
  {
    var a := Knob(Entry("pool_max_conns", Formatted(Decimal.FormatInt(cfg.poolMaxConns))), cfg.poolMaxConns);
    var b := Knob(Entry("pool_min_conns", Formatted(Decimal.FormatInt(cfg.poolMinConns))), cfg.poolMinConns);
    var c := Knob(Entry("pool_max_conn_lifetime", Formatted(durationText(cfg.poolMaxConnLifetime))), cfg.poolMaxConnLifetime);
    var d := Knob(Entry("pool_man_conn_idle_time", Formatted(durationText(cfg.poolMaxConnIdleTime))), cfg.poolMaxConnIdleTime);
    assert PoolKnobs(cfg, durationText) == [a] + [b] + [c] + [d];
    EnabledConcat([a] + [b] + [c], [d]);
    EnabledConcat([a] + [b], [c]);
    EnabledConcat([a], [b]);
    EnabledSingle(a);
    EnabledSingle(b);
    EnabledSingle(c);
    EnabledSingle(d);
    var base := BaseEntries(cfg);
    var wa, wb, wc, wd := Enabled([a]), Enabled([b]), Enabled([c]), Enabled([d]);
    calc {
      ConfigEntries(cfg, durationText);
      base + (((wa + wb) + wc) + wd);
      { Associative(base, (wa + wb) + wc, wd); }
      (base + ((wa + wb) + wc)) + wd;
      { Associative(base, wa + wb, wc); }
      ((base + (wa + wb)) + wc) + wd;
      { Associative(base, wa, wb); }
      (((base + wa) + wb) + wc) + wd;
    }
  }

  lemma Associative(x: seq<Entry>, y: seq<Entry>, z: seq<Entry>)
    ensures x + (y + z) == (x + y) + z
  {
  }


  /** A single knob contributes its entry exactly when its amount is positive. */
  lemma EnabledSingle(k: Knob)
    ensures Enabled([k]) == When(k.amount > 0, k.entry)
  {
    assert [k][1..] == [];
  }



  // ---------------------------------------------------------------------------
  // What the descriptor contains

  /** Considering one more knob appends its entry exactly when its amount is positive. */
  lemma {:induction false} EnabledPrefix(knobs: seq<Knob>, n: nat)
    requires n < |knobs|
    ensures Enabled(knobs[..n + 1]) ==
      Enabled(knobs[..n]) + (if knobs[n].amount > 0 then [knobs[n].entry] else [])
    decreases n
  {
    if n > 0 {
      EnabledPrefix(knobs[1..], n - 1);
      assert knobs[1..][..n] == knobs[..n + 1][1..];
      assert knobs[1..][..n - 1] == knobs[..n][1..];
    }
  }

  /** A knob's entry is emitted exactly when its amount is positive (the keys being distinct). */
  lemma {:induction false} EnabledMember(knobs: seq<Knob>, i: nat)
    requires i < |knobs|
    requires forall a, b :: 0 <= a < b < |knobs| ==> knobs[a].entry.key != knobs[b].entry.key
    ensures knobs[i].entry in Enabled(knobs) <==> knobs[i].amount > 0
    decreases |knobs|
  {
    if i > 0 {
      EnabledMember(knobs[1..], i - 1);
      if knobs[0].amount > 0 {
        assert knobs[0].entry != knobs[i].entry;
      }
    } else {
      EnabledFrom(knobs[1..], knobs[0].entry.key);
    }
  }

  /** Every entry `Enabled` emits comes from a knob, so a key no knob has is never emitted. */
  lemma {:induction false} EnabledFrom(knobs: seq<Knob>, key: string)
    requires forall a :: 0 <= a < |knobs| ==> knobs[a].entry.key != key
    ensures forall j :: 0 <= j < |Enabled(knobs)| ==> Enabled(knobs)[j].key != key
    decreases |knobs|
  {
    if knobs != [] {
      EnabledFrom(knobs[1..], key);
    }
  }

  /** The descriptor has the five base pairs plus one pair per positive pool field. */
  lemma ConfigEntriesCount(cfg: PostgresConfig, durationText: int -> string)
    ensures |ConfigEntries(cfg, durationText)| == 5 + PositivePoolFields(cfg)
  {
    var knobs := PoolKnobs(cfg, durationText);
    EnabledPrefix(knobs, 0);
    EnabledPrefix(knobs, 1);
    EnabledPrefix(knobs, 2);
    EnabledPrefix(knobs, 3);
    assert knobs[..4] == knobs;
  }

  /**
   * The descriptor always starts, in order, with host, port, user, password
   * and dbname; the text values go through the replacer and the port is its
   * decimal form, inserted as printed, which reads back as the port.
   */
  lemma BaseEntriesFirst(cfg: PostgresConfig, durationText: int -> string)
    ensures var es := ConfigEntries(cfg, durationText);
      |es| >= 5 &&
      es[0] == Entry("host", Escaped(cfg.host)) &&
      es[1].key == "port" && es[1].field.Formatted? &&
      Decimal.ParseInt(es[1].field.text) == cfg.port &&
      es[2] == Entry("user", Escaped(cfg.username)) &&
      es[3] == Entry("password", Escaped(cfg.password)) &&
      es[4] == Entry("dbname", Escaped(cfg.dbName))
  {
    Decimal.FormatIntRoundTrip(cfg.port);
  }

  /** Each pool-tuning pair is present exactly when its field is positive. */
  lemma PoolEntryPresent(cfg: PostgresConfig, durationText: int -> string, i: nat)
    requires i < 4
    ensures var knob := PoolKnobs(cfg, durationText)[i];
      knob.entry in ConfigEntries(cfg, durationText)[5..] <==> knob.amount > 0
  {
    var es := ConfigEntries(cfg, durationText);
    assert es[5..] == Enabled(PoolKnobs(cfg, durationText));
    EnabledMember(PoolKnobs(cfg, durationText), i);
  }

  /** With no positive pool field the descriptor is exactly the five base pairs. */
  lemma NoPoolFields(cfg: PostgresConfig, durationText: int -> string)
    requires cfg.poolMaxConns <= 0 && cfg.poolMinConns <= 0
    requires cfg.poolMaxConnLifetime <= 0 && cfg.poolMaxConnIdleTime <= 0
    ensures ConfigEntries(cfg, durationText) == BaseEntries(cfg)
  {
    var knobs := PoolKnobs(cfg, durationText);
    assert Enabled(knobs[3..]) == [];
    assert Enabled(knobs[2..]) == Enabled(knobs[3..]);
    assert Enabled(knobs[1..]) == Enabled(knobs[2..]);
  }

  /**
   * The pool-tuning pairs that are present keep the fixed order
   * pool_max_conns, pool_min_conns, pool_max_conn_lifetime, idle time.
   */
  lemma PoolEntriesOrdered(cfg: PostgresConfig, durationText: int -> string)
    ensures IsSubsequence(ConfigEntries(cfg, durationText)[5..], KnobEntries(PoolKnobs(cfg, durationText)))
  {
    var knobs := PoolKnobs(cfg, durationText);
    assert ConfigEntries(cfg, durationText)[5..] == Enabled(knobs);
    EnabledSubsequence(knobs);
  }

  lemma {:induction false} EnabledSubsequence(knobs: seq<Knob>)
    ensures IsSubsequence(Enabled(knobs), KnobEntries(knobs))
    decreases |knobs|
  {
    if knobs != [] {
      EnabledSubsequence(knobs[1..]);
      var all := KnobEntries(knobs);
      assert all[0] == knobs[0].entry && all[1..] == KnobEntries(knobs[1..]);
      if knobs[0].amount <= 0 {
        var en := Enabled(knobs[1..]);
        if en != [] {
          assert IsSubsequence(en, all) == ((en[0] == all[0] && IsSubsequence(en[1..], all[1..])) || IsSubsequence(en, all[1..]));
        }
      }
    }
  }

  /** When the idle time is positive, the last pair is keyed `pool_man_conn_idle_time`, literally. */
  lemma IdleTimeKey(cfg: PostgresConfig, durationText: int -> string)
    requires cfg.poolMaxConnIdleTime > 0
    ensures var es := ConfigEntries(cfg, durationText);
      es[|es| - 1] == Entry("pool_man_conn_idle_time", Formatted(durationText(cfg.poolMaxConnIdleTime)))
  {
    var knobs := PoolKnobs(cfg, durationText);
    EnabledPrefix(knobs, 3);
    assert knobs[..4] == knobs;
  }

  /** Whatever the configuration, no pair carries the key `pool_max_conn_idle_time`. */
  lemma NoMaxIdleTimeKey(cfg: PostgresConfig, durationText: int -> string)
    ensures forall e :: e in ConfigEntries(cfg, durationText) ==> e.key != "pool_max_conn_idle_time"
  {
    EnabledFrom(PoolKnobs(cfg, durationText), "pool_max_conn_idle_time");
  }


  // ---------------------------------------------------------------------------
  // Reading the descriptor back

  /** Where every verbatim value is plain, a printed pair is the quoted pair of its setting. */
  lemma RenderAllQuoted(es: seq<Entry>)
    requires FormattedPlain(es)
    ensures RenderAll(es) == Conninfo.QuotedPairs(SettingsOf(es))
  {
    forall i | 0 <= i < |es|
      ensures Render(es[i]) == Conninfo.QuotedPair(SettingOf(es[i]))
    {
      if es[i].field.Formatted? {
        Escaping.EscapePlain(es[i].field.text);
      }
    }
  }

  /**
   * When the durations print plainly, libpq reads the descriptor back as the
   * configured settings, in order: every text value exactly as configured.
   */
  lemma ConfigReadsBack(cfg: PostgresConfig, durationText: int -> string)
    requires Escaping.Plain(durationText(cfg.poolMaxConnLifetime))
    requires Escaping.Plain(durationText(cfg.poolMaxConnIdleTime))
    ensures Conninfo.ParseSettings(ConnectionString(cfg, durationText)) ==
      Conninfo.Some(SettingsOf(ConfigEntries(cfg, durationText)))
  {
    var es := ConfigEntries(cfg, durationText);
    ConfigEntriesReadable(cfg, durationText);
    RenderAllQuoted(es);
    Conninfo.ParseJoinedPairs(SettingsOf(es));
  }

  /** An entry libpq reads back as printed: a single-token key, and a verbatim value that is plain. */
  predicate Readable(e: Entry) {
    && Conninfo.WellFormedKeyword(e.key)
    && (e.field.Formatted? ==> Escaping.Plain(e.field.text))
  }

  /** The five base entries are readable: their keys are tokens and the port prints plainly. */
  lemma BaseReadable(cfg: PostgresConfig)
    ensures forall i :: 0 <= i < 5 ==> Readable(BaseEntries(cfg)[i])
  {
    Conninfo.KeywordOfChars("host");
    Conninfo.KeywordOfChars("port");
    Conninfo.KeywordOfChars("user");
    Conninfo.KeywordOfChars("password");
    Conninfo.KeywordOfChars("dbname");
  }

  /** The four pool entries are readable when the durations print plainly. */
  lemma KnobsReadable(cfg: PostgresConfig, durationText: int -> string)
    requires Escaping.Plain(durationText(cfg.poolMaxConnLifetime))
    requires Escaping.Plain(durationText(cfg.poolMaxConnIdleTime))
    ensures forall i :: 0 <= i < 4 ==> Readable(PoolKnobs(cfg, durationText)[i].entry)
  {
    Conninfo.KeywordOfChars("pool_max_conns");
    Conninfo.KeywordOfChars("pool_min_conns");
    Conninfo.KeywordOfChars("pool_max_conn_lifetime");
    Conninfo.KeywordOfChars("pool_man_conn_idle_time");
  }

  /** Every key of the descriptor is a single token, and every verbatim value is plain. */
  lemma ConfigEntriesReadable(cfg: PostgresConfig, durationText: int -> string)
    requires Escaping.Plain(durationText(cfg.poolMaxConnLifetime))
    requires Escaping.Plain(durationText(cfg.poolMaxConnIdleTime))
    ensures FormattedPlain(ConfigEntries(cfg, durationText))
    ensures var ss := SettingsOf(ConfigEntries(cfg, durationText));
      forall i :: 0 <= i < |ss| ==> Conninfo.WellFormedKeyword(ss[i].key)
  {
    var base := BaseEntries(cfg);
    var knobs := PoolKnobs(cfg, durationText);
    var es := base + Enabled(knobs);
    BaseReadable(cfg);
    KnobsReadable(cfg, durationText);
    EnabledWithin(knobs);
    forall i | 0 <= i < |es| ensures Readable(es[i]) {
      if i >= 5 {
        assert es[i] in Enabled(knobs);
      }
    }
  }

  /** Every entry `Enabled` emits is the entry of one of the knobs. */
  lemma {:induction false} EnabledWithin(knobs: seq<Knob>)
    ensures forall e :: e in Enabled(knobs) ==> exists i :: 0 <= i < |knobs| && knobs[i].entry == e
    decreases |knobs|
  {
    if knobs != [] {
      EnabledWithin(knobs[1..]);
      forall e | e in Enabled(knobs[1..])
        ensures exists i :: 0 <= i < |knobs| && knobs[i].entry == e
      {
        var i :| 0 <= i < |knobs[1..]| && knobs[1..][i].entry == e;
        assert knobs[i + 1].entry == e;
      }
    }
  }
}
