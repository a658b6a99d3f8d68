# Connection-descriptor builders of the Postgres repositories

The persistence layer opens its Postgres pool from a keyword/value
connection string (the libpq syntax of section 34.1.1.1, "Keyword/Value
Connection Strings", of the PostgreSQL 16 manual). Two versions of
`CreateConnectionString` build that string:

- The history-server repository builds it from a configuration record.
  - It always emits `host`, `port`, `user`, `password` and `dbname`.
  - It then emits up to four pool-tuning pairs, each only when its field is positive.
- The event-collector repository builds it from a `map[string]string`.
  - It emits one pair per entry, in Go's unspecified map-iteration order.

Both put every value between single quotes. Both escape text values with
the same replacer: a backslash becomes two backslashes, and a single quote
becomes a backslash and a quote. They join the pairs with single spaces.

The project has five modules:

- `Escaping`: the replacer, as a character-by-character function.
- `Decimal`: Go's `%d`, with a reader for what it prints.
- `Conninfo`: the assembly helpers (`Pair`, `Join`) and a libpq-style reader `ParseSettings`.
  - The reader is the reference the builders are proved against: what they emit reads back as the values they were given.
- `Repository`: the configuration-record builder.
  - It is written as a method that appends pairs step by step.
  - It is proved equal to `ConnectionString`, a function that filters the four pool knobs.
- `EventCollectorRepository`: the map builder.
  - It is written as a method whose loop takes each next key nondeterministically.
  - It returns the order it took as a ghost result.

## Model

| member | source | states |
|---|---|---|
| Escaping.EscapeChar | internal/repository/postgres.go:153 | a backslash or a quote becomes a backslash followed by that character; every other character is copied |
| Escaping.Escape | internal/repository/postgres.go:153 | escaping never shortens a value, and the empty value escapes to the empty string (and only it) |
| Escaping.EscapeConcat | internal/repository/postgres.go:153 | escaping works per character, so escape(a + b) == escape(a) + escape(b) |
| Escaping.EscapeLength | internal/repository/postgres.go:153 | a single pass: the escaped length is the original length plus the number of backslashes and quotes |
| Escaping.EscapePlain | internal/repository/postgres.go:153 | a value with no backslash and no quote passes through unchanged |
| Escaping.EscapedQuotesAreEscaped | internal/repository/postgres.go:153 | every quote in an escaped value is preceded by a backslash |
| Decimal.NatDigits | internal/repository/postgres.go:157 | `%d` of a natural number is a non-empty run of decimal digits without a leading zero |
| Decimal.FormatInt | internal/repository/postgres.go:157 | `%d` output contains no backslash and no quote, so it needs no escaping |
| Decimal.FormatIntRoundTrip | internal/repository/postgres.go:157 | the printed port or pool size reads back as the same integer |
| Conninfo.Join | internal/repository/postgres.go:175 | `strings.Join` with one space between neighbouring pairs; two or more parts joined by a non-empty separator never give the empty string |
| Conninfo.JoinAppend | internal/event-collector/repository/postgres.go:133 | joining two non-empty lists of pairs puts exactly one separator between their two joins |
| Conninfo.JoinLength | internal/repository/postgres.go:175 | n pairs joined by one space have exactly n - 1 separators and nothing else |
| Conninfo.JoinEnds | internal/event-collector/repository/postgres.go:133 | the joined string starts with the first pair and ends with the last one: no leading or trailing separator |
| Conninfo.Pair | internal/repository/postgres.go:156-160 | a `key='text'` pair is exactly three characters longer than its key and text: `=` and the two quotes |
| Conninfo.PairLayout | internal/event-collector/repository/postgres.go:130 | in a pair the key comes first, then `='`, then the text, and the closing quote is the last character |
| Conninfo.QuotedRoundTrip | internal/repository/postgres.go:153-160 | an escaped value followed by the closing quote reads back, under libpq's quoted-value rules, as exactly the original value, and the rest is left unread |
| Conninfo.EscapeInjective | internal/repository/postgres.go:153 | two different values never escape to the same text |
| Conninfo.ParseJoinedPairs | internal/repository/postgres.go:155-175 | quoted pairs with single-token keys, joined by spaces, read back as the same settings in the same order |
| Conninfo.ParseJoinedThenFails | internal/event-collector/repository/postgres.go:128-133 | quoted pairs with single-token keys, a space and then text libpq rejects are rejected as a whole |
| Conninfo.SpacedKeywordRejected | internal/event-collector/repository/postgres.go:130 | a keyword holding white space followed by more text is read as a keyword without `=`, so the whole string is rejected |
| Repository.CreateConnectionString | internal/repository/postgres.go:152-176 | the five base pairs and the conditional pool pairs, appended step by step, give `ConnectionString`: the printed `ConfigEntries` joined by single spaces |
| Repository.ConfigEntriesUnrolled | internal/repository/postgres.go:162-173 | the filtered pool entries are the four conditional appends, in source order, each present only when its field is positive |
| Repository.ConfigEntriesCount | internal/repository/postgres.go:155-175 | the descriptor has 5 pairs plus one per positive pool field |
| Repository.BaseEntriesFirst | internal/repository/postgres.go:155-161 | the first five pairs are host, port, user, password, dbname in that order; the four text values are escaped; the port is its decimal form, unescaped, and reads back as the port |
| Repository.PoolEntryPresent | internal/repository/postgres.go:162-173 | each pool pair appears after the base pairs exactly when its field is positive |
| Repository.NoPoolFields | internal/repository/postgres.go:162-173 | with no positive pool field the descriptor is exactly the five base pairs |
| Repository.PoolEntriesOrdered | internal/repository/postgres.go:162-173 | the pool pairs that are present keep the order pool_max_conns, pool_min_conns, pool_max_conn_lifetime, idle time |
| Repository.IdleTimeKey | internal/repository/postgres.go:171-173 | when the idle time is positive the last pair has the key `pool_man_conn_idle_time`, with the printed duration as its value |
| Repository.NoMaxIdleTimeKey | internal/repository/postgres.go:162-173 | whatever the configuration, no pair has the key `pool_max_conn_idle_time` |
| Repository.ConfigReadsBack | internal/repository/postgres.go:152-176 | when the durations print without backslashes or quotes, libpq reads the descriptor back as the configured settings, in order, each text value exactly as configured |
| EventCollectorRepository.CreateConnectionString | internal/event-collector/repository/postgres.go:125-134 | the loop visits every key exactly once, in some order; the result is the pair of each visited key, in that order, joined by single spaces |
| EventCollectorRepository.EmptyMap | internal/event-collector/repository/postgres.go:126-133 | an empty map gives the empty string |
| EventCollectorRepository.PairCount | internal/event-collector/repository/postgres.go:129-131 | there are as many pairs as map entries |
| EventCollectorRepository.PairsAreEntries | internal/event-collector/repository/postgres.go:129-131 | a string is an emitted pair exactly when it is `k='escape(v)'` for some entry (k, v) of the map |
| EventCollectorRepository.MapPairsSnoc | internal/event-collector/repository/postgres.go:130 | visiting one more key appends exactly that key's pair |
| EventCollectorRepository.SamePairsAnyOrder | internal/event-collector/repository/postgres.go:129-133 | any two iteration orders emit the same multiset of pairs: only their order is left open |
| EventCollectorRepository.MapReadsBack | internal/event-collector/repository/postgres.go:128-133 | when every key is a single token, libpq reads the string back as the map's entries in the visiting order, each value exactly as stored |
| EventCollectorRepository.KeysAreNotEscaped | internal/event-collector/repository/postgres.go:130 | keys are copied verbatim: if a key is a single token, a space, and more text that starts with neither `=` nor white space, and every key visited before it is a single token, libpq reads the earlier pairs and then rejects the whole string at that key |
| EventCollectorRepository.QuotedKeyHidesNextKey | internal/event-collector/repository/postgres.go:129-133 | the earlier keys must be single tokens for that rejection: a key ending in `='` opens a quoted value early, and the next pair, a spaced key included, is read into that value, so the string is accepted |

## Left out

- `Setup` in both files is not modelled. It sends fixed DDL statements to the database and panics on the first error, which is database I/O.
- `NewECRepo` in both files is not modelled. It hands the string to the pgxpool library, which is not part of this model.
- internal/yunikorn/stream_test.go is not modelled. It is test code for a stream service that is not part of this model.
- Go's `time.Duration.String()` is not modelled. Durations are whole nanoseconds, and their printed form is the function parameter `durationText`.
  - The source inserts that text unescaped (`%s`). The model does the same.
  - Repository.ConfigReadsBack therefore requires the two printed durations to hold no backslash and no quote. Go's duration format never produces either.
- Go strings are byte sequences; the model uses sequences of characters. The replacer only touches the ASCII characters `\` and `'`, which never occur inside a multi-byte UTF-8 sequence, so the two views agree.
- Integer widths are not modelled. The port and pool sizes are unbounded integers, and `%d` is modelled as exact decimal printing.
- The reader `ParseSettings` covers libpq's keyword/value syntax only. It does not check that a keyword is a known option, and it does not read URI-form connection strings.
- Repository.CreateConnectionString states its result through `ConnectionString`. The read-back property is the separate lemma Repository.ConfigReadsBack, not an ensures clause of the method.
- The idle-time key `pool_man_conn_idle_time` is modelled exactly as written. How pgxpool treats a key it does not know is inside the library, so the model does not claim what happens to the setting.
- EventCollectorRepository.CreateConnectionString does not model the actual order of Go's map iteration. It states only that some order visiting every key once is taken.
