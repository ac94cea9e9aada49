# AndroidKeyValueStore: the key-value manager, modelled in Dafny

`KVManagerImpl` keeps a string-to-string store in one SQLite table,
`KVStore (Key TEXT PRIMARY KEY NOT NULL, Value TEXT NOT NULL)`. It makes sure
the table exists when it is constructed. It builds SQL text by splicing
arguments into `?` markers. On top of that it offers exact lookup, insert,
update, insert-or-update, delete, prefix search, substring search and
clearing the table. `StringUtils` supplies the null tests that the argument
checks use.

The model has six modules:

- `StringUtils` (`string_utils.dfy`): a Java `String` reference is
  `JString = Null | Str(chars)`. It holds `isNull`, `isNotNull`, `isBlank`
  and `isNotBlank`, with their characterisations.
- `Templater` (`templater.dfy`): the substitution loop of `execQuery` and
  `execNonQuery`. The method `BuildStatement` runs the loop. The pure
  function `Substitute` is what the loop computes. `Fill` is an independent
  one-pass reading of a template, in which the j-th marker receives the j-th
  argument. The lemmas prove that `Substitute` and `Fill` agree whenever no
  argument before the last contains a marker. They also prove how many
  markers are left, that trailing markers stay unresolved, and that surplus
  arguments are ignored.
- `LikeMatch` (`like_match.dfy`): what SQLite's `LIKE` does with the two
  patterns the manager builds, `'p%'` and `'%s%'`. Matching ignores case for
  ASCII letters only. Each predicate is proved equal to a reference
  definition on case-folded text: a sequence prefix, or an occurrence at
  some offset.
- `KVSql` (`kv_sql.dfy`): the table name, the column names and the six
  statement templates, with a lemma per template. Each lemma gives the exact
  SQL text the templater makes of that template and shows that the template
  holds one marker per argument.
- `KVManager` (`kv_manager.dfy`): the class `KVManagerImpl`. The database is
  abstracted to three fields: `table` (Key column to Value column), the
  `tableExists` flag, and `nextRowId` (the row id the next insert receives).
  A ghost field `statements` records the SQL text handed to `rawQuery` and
  `execSQL`, in order. Exceptions are `Result.Err(KeyNull | ValueNull)`.
  Every method states the whole new state in terms of the old one.
- `KVScenarios` (`kv_scenarios.dfy`): client call sequences proved from the
  contracts alone. Examples: insert then get, a second insert rejected,
  two upserts where the later value wins, delete then look up, clear then
  insert, and searching three rows.

Three points where the code does less than its names suggest; the model
follows the code:

- Only `null` is refused as a key, value, prefix or search text. `checkKey`
  and `checkValue` call `isNull`, not `isBlank`, so the empty string is
  accepted (KVManagerImpl.java:136-144).
- `clearTable` runs `DELETE FROM` and then `CREATE TABLE IF NOT EXISTS`. The
  rows are deleted but the table is never dropped, so the second step is a
  no-op (KVManagerImpl.java:65-69 and 288-291).
- `insertOrUpdate` is documented as returning a row id
  (KVManagerImpl.java:181), but when the key is present it returns the
  number of rows `doUpdate` affected, 1 (KVManagerImpl.java:187-188).

## Model

| member | source | states |
|---|---|---|
| `StringUtils.NullMeansNoString` | library/src/main/java/com/lusfold/androidkeyvaluestore/utils/StringUtils.java:25-35 | `isNull` holds exactly for the null reference; `isNotNull` exactly for a present string |
| `StringUtils.BlankMeansNoCharacters` | library/src/main/java/com/lusfold/androidkeyvaluestore/utils/StringUtils.java:41-55 | `isBlank` holds exactly for null and `""`; `isNotBlank` exactly for a string with at least one character |
| `StringUtils.NullIsBlankButNotConversely` | library/src/main/java/com/lusfold/androidkeyvaluestore/utils/StringUtils.java:41-45 | null is blank; `""` is blank but not null |
| `Templater.BuildStatement` | library/src/main/java/com/lusfold/androidkeyvaluestore/core/KVManagerImpl.java:94-99 | the loop's result is `Substitute(sql, args)`, and equals the left-to-right filling `Fill(sql, args)` when no argument before the last holds a `?` |
| `Templater.ReplaceFirstNoMarker` | library/src/main/java/com/lusfold/androidkeyvaluestore/core/KVManagerImpl.java:96 | `replaceFirst` leaves text without `?` unchanged |
| `Templater.ReplaceFirstAtFirstMarker` | library/src/main/java/com/lusfold/androidkeyvaluestore/core/KVManagerImpl.java:96 | `replaceFirst` replaces exactly the first `?` by the argument and keeps the text on both sides |
| `Templater.FillWithoutArgs` | library/src/main/java/com/lusfold/androidkeyvaluestore/core/KVManagerImpl.java:95 | with no arguments the template is returned unchanged |
| `Templater.FillAfterReplaceFirst` | library/src/main/java/com/lusfold/androidkeyvaluestore/core/KVManagerImpl.java:95-96 | one loop step followed by filling the remaining arguments equals filling all of them, unless the argument brings in a `?` that a later argument would consume |
| `Templater.SubstituteIsFill` | library/src/main/java/com/lusfold/androidkeyvaluestore/core/KVManagerImpl.java:95-96 | the repeated `replaceFirst` equals the one-pass left-to-right filling when no argument before the last contains `?` |
| `Templater.FillResolvesMarkers` | library/src/main/java/com/lusfold/androidkeyvaluestore/core/KVManagerImpl.java:95-96 | with `?`-free arguments, `max(0, markers - arguments)` markers remain |
| `Templater.FillLeavesTailUnresolved` | library/src/main/java/com/lusfold/androidkeyvaluestore/core/KVManagerImpl.java:95-96 | after the last argument is used, the rest of the template, markers included, is copied unchanged |
| `Templater.FillIgnoresSurplus` | library/src/main/java/com/lusfold/androidkeyvaluestore/core/KVManagerImpl.java:95-96 | arguments beyond the number of markers do not affect the result |
| `Templater.SubstituteExactArgs` | library/src/main/java/com/lusfold/androidkeyvaluestore/core/KVManagerImpl.java:95-96 | with exactly one `?`-free argument per marker, no `?` is left and the result is the template filled left to right |
| `KVSql.CreateTableText` | library/src/main/java/com/lusfold/androidkeyvaluestore/core/KVManagerImpl.java:34-40 | the create template has 3 markers and becomes `CREATE TABLE IF NOT EXISTS KVStore (Key TEXT PRIMARY KEY NOT NULL,Value TEXT NOT NULL)` |
| `KVSql.QueryTableText` | library/src/main/java/com/lusfold/androidkeyvaluestore/core/KVManagerImpl.java:41 | the catalog query has 1 marker, and the table name lands inside its quoted literal |
| `KVSql.DeleteTableText` | library/src/main/java/com/lusfold/androidkeyvaluestore/core/KVManagerImpl.java:42 | the delete template has 1 marker and becomes `DELETE FROM KVStore` |
| `KVSql.QueryDataText` | library/src/main/java/com/lusfold/androidkeyvaluestore/core/KVManagerImpl.java:44 | the lookup has 3 markers, and the key lands verbatim in `WHERE Key = '<key>'` |
| `KVSql.QueryPrefixText` | library/src/main/java/com/lusfold/androidkeyvaluestore/core/KVManagerImpl.java:45 | the prefix query has 3 markers, and the prefix lands in `LIKE '<prefix>%'` |
| `KVSql.QueryContainsText` | library/src/main/java/com/lusfold/androidkeyvaluestore/core/KVManagerImpl.java:46 | the substring query has 3 markers, and the text lands in `LIKE '%<text>%'` |
| `LikeMatch.StartsWithIsFoldedPrefix` | library/src/main/java/com/lusfold/androidkeyvaluestore/core/KVManagerImpl.java:45 | `k LIKE 'p%'` holds iff ASCII-folded `p` is a prefix of ASCII-folded `k` |
| `LikeMatch.ContainsIsFoldedOccurrence` | library/src/main/java/com/lusfold/androidkeyvaluestore/core/KVManagerImpl.java:46 | `k LIKE '%s%'` holds iff ASCII-folded `s` occurs at some offset of ASCII-folded `k` |
| `LikeMatch.CaseOfKeyIsIgnored` | library/src/main/java/com/lusfold/androidkeyvaluestore/core/KVManagerImpl.java:45 | keys equal up to ASCII case match the same prefixes |
| `KVManager.CheckKeyValue` | library/src/main/java/com/lusfold/androidkeyvaluestore/core/KVManagerImpl.java:136-144 | only null is refused; a null key is reported first even when the value is null too; `""` passes |
| `KVManager.KVManagerImpl.constructor` | library/src/main/java/com/lusfold/androidkeyvaluestore/core/KVManagerImpl.java:50-55 | afterwards the table exists; existing rows are kept; the create statement is issued only when the catalog query found no table |
| `KVManager.KVManagerImpl.ExecQuery` | library/src/main/java/com/lusfold/androidkeyvaluestore/core/KVManagerImpl.java:94-99 | the statement run is the template with the arguments substituted, and it is appended to the statement record |
| `KVManager.KVManagerImpl.ExecNonQuery` | library/src/main/java/com/lusfold/androidkeyvaluestore/core/KVManagerImpl.java:107-112 | the statement executed is the template with the arguments substituted |
| `KVManager.KVManagerImpl.IsTableExist` | library/src/main/java/com/lusfold/androidkeyvaluestore/core/KVManagerImpl.java:74-85 | the answer is whether the table exists; it issues the catalog query and changes nothing else |
| `KVManager.KVManagerImpl.CreateKVTable` | library/src/main/java/com/lusfold/androidkeyvaluestore/core/KVManagerImpl.java:60-62 | afterwards the table exists; an existing table keeps its rows, so a second call changes nothing |
| `KVManager.KVManagerImpl.DeleteKVTable` | library/src/main/java/com/lusfold/androidkeyvaluestore/core/KVManagerImpl.java:67-69 | removes every row and keeps the table |
| `KVManager.KVManagerImpl.KeyExists` | library/src/main/java/com/lusfold/androidkeyvaluestore/core/KVManagerImpl.java:121-134 | null key: `KeyNull` with no query issued; otherwise the answer is whether the key is stored; the rows are never changed |
| `KVManager.KVManagerImpl.DoInsert` | library/src/main/java/com/lusfold/androidkeyvaluestore/core/KVManagerImpl.java:146-151 | on a key conflict returns -1 and changes nothing; otherwise adds exactly the pair and returns a new positive row id |
| `KVManager.KVManagerImpl.DoUpdate` | library/src/main/java/com/lusfold/androidkeyvaluestore/core/KVManagerImpl.java:153-157 | overwrites only the key's value and returns 1 when the key is present; returns 0 and changes nothing when it is absent |
| `KVManager.KVManagerImpl.Insert` | library/src/main/java/com/lusfold/androidkeyvaluestore/core/KVManagerImpl.java:168-174 | null key, then null value, fail with nothing changed; a present key gives -1 with nothing changed; otherwise the store becomes `old[k := v]` and a row id other than -1 is returned |
| `KVManager.KVManagerImpl.InsertOrUpdate` | library/src/main/java/com/lusfold/androidkeyvaluestore/core/KVManagerImpl.java:184-190 | after the null checks the store becomes `old[k := v]` in both branches; the result is 1 if the key was present, else the new row id |
| `KVManager.KVManagerImpl.Update` | library/src/main/java/com/lusfold/androidkeyvaluestore/core/KVManagerImpl.java:200-206 | after the null checks, an absent key gives -1 with the store unchanged; a present key gets the new value, and 1 is returned |
| `KVManager.KVManagerImpl.Delete` | library/src/main/java/com/lusfold/androidkeyvaluestore/core/KVManagerImpl.java:215-218 | null key: `KeyNull`; otherwise the key is removed, every other row is kept, and the result is 1 if it was present, else 0 |
| `KVManager.KVManagerImpl.Get` | library/src/main/java/com/lusfold/androidkeyvaluestore/core/KVManagerImpl.java:228-239 | null key: `KeyNull`; otherwise the stored value, or null when the key is absent; the rows are never changed |
| `KVManager.KVManagerImpl.CollectRows` | library/src/main/java/com/lusfold/androidkeyvaluestore/core/KVManagerImpl.java:254-256 | the map filled from the cursor holds exactly the selected keys, each with its stored value |
| `KVManager.KVManagerImpl.GetByPrefix` | library/src/main/java/com/lusfold/androidkeyvaluestore/core/KVManagerImpl.java:248-260 | null: `KeyNull`; otherwise exactly the stored rows whose key starts with the prefix, ignoring ASCII case, with their values |
| `KVManager.KVManagerImpl.GetByContains` | library/src/main/java/com/lusfold/androidkeyvaluestore/core/KVManagerImpl.java:269-281 | null: `KeyNull`; otherwise exactly the stored rows whose key contains the text, ignoring ASCII case, with their values |
| `KVManager.KVManagerImpl.ClearTable` | library/src/main/java/com/lusfold/androidkeyvaluestore/core/KVManagerImpl.java:288-291 | afterwards the table exists and is empty; the delete and create statements are issued in that order |
| `KVScenarios.InsertThenRead` | library/src/main/java/com/lusfold/androidkeyvaluestore/core/KVManagerImpl.java:168-174 | after `insert(k, v)`, `get(k)` returns v when k was new (the old value otherwise), and `keyExists(k)` holds |
| `KVScenarios.InsertTwice` | library/src/main/java/com/lusfold/androidkeyvaluestore/core/KVManagerImpl.java:168-174 | a second `insert` of one key returns -1, and the first value stays |
| `KVScenarios.UpsertTwice` | library/src/main/java/com/lusfold/androidkeyvaluestore/core/KVManagerImpl.java:184-190 | after two `insertOrUpdate` calls on one key, `get` returns the later value |
| `KVScenarios.DeleteThenLookUp` | library/src/main/java/com/lusfold/androidkeyvaluestore/core/KVManagerImpl.java:215-218 | `delete` returns 0 for an absent key and 1 for a present one; afterwards `keyExists` is false |
| `KVScenarios.ClearThenInsert` | library/src/main/java/com/lusfold/androidkeyvaluestore/core/KVManagerImpl.java:288-291 | after `clearTable` no key exists, and an insert succeeds |
| `KVScenarios.EmptyKeyAccepted` | library/src/main/java/com/lusfold/androidkeyvaluestore/core/KVManagerImpl.java:136-139 | `""` is accepted as a key: it can be inserted and read back |
| `KVScenarios.PrefixWithinContains` | library/src/main/java/com/lusfold/androidkeyvaluestore/core/KVManagerImpl.java:248-281 | every row `getByPrefix(p)` returns is also returned, with the same value, by `getByContains(p)` |
| `KVScenarios.SearchExample` | library/src/main/java/com/lusfold/androidkeyvaluestore/core/KVManagerImpl.java:248-281 | over the rows apple, apricot and banana, prefix `a` finds apple and apricot, and `pp` finds only apple |

## Left out

- SQLite and the Android database API (`rawQuery`, `execSQL`, `insert`, `update` and `delete` with `ContentValues`, `sqlite_master`) are replaced by the abstract table, the existence flag and a row-id counter. The model does not parse the SQL text. Each operation's effect on the rows is written out from what its statement does.
- The rows are abstracted to a map, so the model does not capture the row order a cursor returns. `CollectRows` takes the selected rows in any order.
- KVManager.KVManagerImpl.Insert: the returned row id is the counter's current value, and the counter then advances by one. SQLite's would be `max(rowid) + 1`, which may reuse the ids of deleted rows; the model does not capture that reuse.
- KVManager.KVManagerImpl.ExecQuery: modelled as a statement builder. It records the SQL text it runs and leaves the rows unchanged; the manager's own callers write the effect of each of their statements on the rows. SQL that a client passes to this public method directly is outside the model.
- KVManager.KVManagerImpl.ExecNonQuery: modelled as a statement builder, as `ExecQuery` is. Its frame keeps the rows, the existence flag and the counter; `CreateKVTable` and `DeleteKVTable` write the effect of the manager's own statements. Arbitrary SQL a client executes through this public method is outside the model.
- KVManager.KVManagerImpl.constructor: the open database handle is replaced by its content: the rows when the table exists (`None` when it does not) and the largest row id in use.
- Text-splicing hazards are stated as preconditions, not modelled. A key passed to `keyExists`, `get`, `insert`, `update` or `insertOrUpdate` holds no `'` (it would end the SQL literal). A spliced argument holds no `$` or `\` (Java's `replaceFirst` reads them as regex replacement syntax). Prefix and substring arguments also hold no `%` or `_` (SQLite `LIKE` wildcards). `delete`, `doInsert` and `doUpdate` bind their arguments, so they need none of these.
- A `?` inside an argument is allowed. The templater lemmas show that such a `?` changes the result only when a later argument follows it, which never happens in the manager's own statements.
- SQLite's `case_sensitive_like` pragma and case folding beyond ASCII are not modelled. `LIKE` is taken with its default, ASCII-only case-insensitivity.
- Errors raised by SQLite (I/O failure, malformed statement) are not modelled. Neither is the case where `rawQuery` returns a null cursor, which makes `isTableExist`, `keyExists` and `get` answer false or null and the searches return null.
- KVManager.KVManagerImpl.DeleteKVTable: requires the table to exist. Its only caller, `clearTable`, runs after construction has created it. Without the table, SQLite would raise an error.
- Logging (`LogUtils`, `setDebug`), cursor cleanup (`CursorUtils`) and `getDatabase` are side channels or foreign calls.
- The process-wide singleton in `KVStore.java` (double-checked locking, opening and closing the database file) and the Android `Application` glue are not part of this model. The `KVManger` interface only declares the operations modelled here.
- The model is sequential. The read-then-write race between the existence check and the write in `insert`, `update` and `insertOrUpdate` is not captured.
