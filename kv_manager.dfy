/**
  The key-value manager: a string-to-string store kept in the one table
  `KVStore (Key TEXT PRIMARY KEY NOT NULL, Value TEXT NOT NULL)`.

  The database is abstracted to the table's rows (`table`, a map from the Key
  column to the Value column, whose keys are unique because Key is the primary
  key), whether the table exists (`tableExists`), and the row id the next
  inserted row receives (`nextRowId`). The ghost field `statements` records the
  SQL text that the templater builds and hands to the database, in order.
 */
module KVManager {
  import opened StringUtils
  import opened Templater
  import opened LikeMatch
  import opened KVSql

  datatype Option<T> = None | Some(value: T)

  /** `KVStoreKeyNullException` and `KVStoreValueNullException`. */
  datatype KVError = KeyNull | ValueNull

  /** The value a call returns, or the exception it throws. */
  datatype Result<T> = Ok(value: T) | Err(error: KVError)

  /** What `insert` and `update` return when the key's presence or absence forbids the write. */
  const REJECTED := -1

  /** `checkKey`. */
  function CheckKey(key: JString): Option<KVError>
  {
    if IsNull(key) then Some(KeyNull) else None
  }

  /** `checkValue`. */
  function CheckValue(value: JString): Option<KVError>
  {
    if IsNull(value) then Some(ValueNull) else None
  }

  /** `checkKey(key)` followed by `checkValue(value)`: only null is refused (the
      empty string passes), and a null key is reported even when the value is null too. */
  function CheckKeyValue(key: JString, value: JString): (e: Option<KVError>)
    ensures e == None <==> key.Str? && value.Str?
    ensures e == Some(KeyNull) <==> key == Null
    ensures e == Some(ValueNull) <==> key.Str? && value == Null
  {
    if CheckKey(key).Some? then CheckKey(key) else CheckValue(value)
  }

  /** A key spliced into a quoted SQL literal: no quote to end the literal early,
      and no `$` or `\` for `replaceFirst` to interpret. */
  predicate SplicesAsLiteral(s: string)
  {
    NoRegexEscapes(s) && '\'' !in s
  }

  /** An argument spliced into a `LIKE` pattern: in addition, no wildcard. */
  predicate SplicesAsPattern(s: string)
  {
    SplicesAsLiteral(s) && '%' !in s && '_' !in s
  }

  class KVManagerImpl {
    var table: map<string, string>
    var tableExists: bool
    var nextRowId: int
    ghost var statements: seq<string>

    /** Once constructed, the table exists and row ids are positive. */
    ghost predicate Valid()
      reads this
    {
      tableExists && nextRowId >= 1
    }

    /** Wraps an open database: `existing` holds the rows of `KVStore` when that
        table is already there, and `lastRowId` the largest row id in use. The
        table is created only when the catalog query finds it missing. */
    constructor (existing: Option<map<string, string>>, lastRowId: nat)
      ensures Valid()
      ensures table == if existing.Some? then existing.value else map[]
      ensures nextRowId == lastRowId + 1
      ensures statements == [QueryTableSql()] + if existing.Some? then [] else [CreateTableSql()]
    {
      table := if existing.Some? then existing.value else map[];
      tableExists := existing.Some?;
      nextRowId := lastRowId + 1;
      statements := [];
      new;
      var present := IsTableExist();
      if !present {
        CreateKVTable();
      }
    }

    /** `execQuery`: builds the statement and runs it; the statement text stands for the cursor. */
    method ExecQuery(sql: string, selectionArgs: seq<string>) returns (statement: string)
      requires forall i :: 0 <= i < |selectionArgs| ==> NoRegexEscapes(selectionArgs[i])
      modifies this`statements
      ensures statement == Substitute(sql, selectionArgs)
      ensures statements == old(statements) + [statement]
    {
      statement := BuildStatement(sql, selectionArgs);
      statements := statements + [statement];
    }

    /** `execNonQuery`: builds the statement and executes it. */
    method ExecNonQuery(sql: string, selectionArgs: seq<string>)
      requires forall i :: 0 <= i < |selectionArgs| ==> NoRegexEscapes(selectionArgs[i])
      modifies this`statements
      ensures statements == old(statements) + [Substitute(sql, selectionArgs)]
    {
      var statement := BuildStatement(sql, selectionArgs);
      statements := statements + [statement];
    }

    /** `isTableExist`: asks the catalog whether `KVStore` is there. */
    method IsTableExist() returns (present: bool)
      modifies this`statements
      ensures present == tableExists
      ensures statements == old(statements) + [QueryTableSql()]
    {
      var cursor := ExecQuery(SQL_QUERY_TABLE, [TABLE_NAME]);
      present := tableExists;
    }

    /** `createKVTable`: `CREATE TABLE IF NOT EXISTS` creates an empty table when
        there is none and otherwise changes nothing, so a second call is a no-op. */
    method CreateKVTable()
      modifies this`table, this`tableExists, this`statements
      ensures tableExists
      ensures table == if old(tableExists) then old(table) else map[]
      ensures statements == old(statements) + [CreateTableSql()]
    {
      ExecNonQuery(SQL_CREATE_TABLE, [TABLE_NAME, COLUMN_KEY, COLUMN_VALUE]);
      if !tableExists {
        tableExists := true;
        table := map[];
      }
    }

    /** `deleteKVTable`: `DELETE FROM` removes every row and keeps the table. */
    method DeleteKVTable()
      requires tableExists
      modifies this`table, this`statements
      ensures tableExists && table == map[]
      ensures statements == old(statements) + [DeleteTableSql()]
    {
      ExecNonQuery(SQL_DELETE_TABLE, [TABLE_NAME]);
      table := map[];
    }

    /** `keyExists`: exact-match lookup. */
    method KeyExists(key: JString) returns (r: Result<bool>)
      requires Valid()
      requires key.Str? ==> SplicesAsLiteral(key.chars)
      modifies this`statements
      ensures key.Null? ==> r == Err(KeyNull) && statements == old(statements)
      ensures key.Str? ==> r == Ok(key.chars in table)
      ensures key.Str? ==> statements == old(statements) + [QueryDataSql(key.chars)]
    {
      if IsNull(key) {
        return Err(KeyNull);
      }
      var cursor := ExecQuery(SQL_QUERY_DATA, [TABLE_NAME, COLUMN_KEY, key.chars]);
      r := Ok(key.chars in table);
    }

    /** `doInsert`: `SQLiteDatabase.insert` with the key and value bound as
        parameters; a primary-key conflict makes it return -1. */
    method DoInsert(key: string, value: string) returns (rowId: int)
      requires Valid()
      modifies this`table, this`nextRowId
      ensures Valid()
      ensures key in old(table) ==> rowId == REJECTED && table == old(table) && nextRowId == old(nextRowId)
      ensures key !in old(table) ==>
        && rowId == old(nextRowId) && nextRowId == old(nextRowId) + 1
        && table == old(table)[key := value]
    {
      if key in table {
        return REJECTED;
      }
      table := table[key := value];
      rowId := nextRowId;
      nextRowId := nextRowId + 1;
    }

    /** `doUpdate`: `SQLiteDatabase.update ... WHERE Key = ?`, returning the number of rows affected. */
    method DoUpdate(key: string, value: string) returns (affected: int)
      modifies this`table
      ensures affected == if key in old(table) then 1 else 0
      ensures table == if key in old(table) then old(table)[key := value] else old(table)
    {
      if key in table {
        table := table[key := value];
        affected := 1;
      } else {
        affected := 0;
      }
    }

    /** `insert`: adds the pair when the key is absent and returns its row id;
        returns -1 and changes nothing when the key is present. */
    method Insert(key: JString, value: JString) returns (r: Result<int>)
      requires Valid()
      requires key.Str? ==> SplicesAsLiteral(key.chars)
      modifies this
      ensures Valid()
      ensures key.Null? ==> r == Err(KeyNull) && unchanged(this)
      ensures key.Str? && value.Null? ==> r == Err(ValueNull) && unchanged(this)
      ensures key.Str? && value.Str? ==> statements == old(statements) + [QueryDataSql(key.chars)]
      ensures key.Str? && value.Str? && key.chars in old(table) ==>
        r == Ok(REJECTED) && table == old(table) && nextRowId == old(nextRowId)
      ensures key.Str? && value.Str? && key.chars !in old(table) ==>
        && r == Ok(old(nextRowId)) && r.value != REJECTED && nextRowId == old(nextRowId) + 1
        && table == old(table)[key.chars := value.chars]
    {
      var e := CheckKeyValue(key, value);
      if e.Some? {
        return Err(e.value);
      }
      var present := KeyExists(key);
      if present.value {
        return Ok(REJECTED);
      }
      var rowId := DoInsert(key.chars, value.chars);
      r := Ok(rowId);
    }

    /** `insertOrUpdate`: the store becomes `old(table)[key := value]` either way;
        the result is 1 (rows affected) when the key was present, else the new row id. */
    method InsertOrUpdate(key: JString, value: JString) returns (r: Result<int>)
      requires Valid()
      requires key.Str? ==> SplicesAsLiteral(key.chars)
      modifies this
      ensures Valid()
      ensures key.Null? ==> r == Err(KeyNull) && unchanged(this)
      ensures key.Str? && value.Null? ==> r == Err(ValueNull) && unchanged(this)
      ensures key.Str? && value.Str? ==>
        && statements == old(statements) + [QueryDataSql(key.chars)]
        && table == old(table)[key.chars := value.chars]
        && r == Ok(if key.chars in old(table) then 1 else old(nextRowId))
        && nextRowId == if key.chars in old(table) then old(nextRowId) else old(nextRowId) + 1
    {
      var e := CheckKeyValue(key, value);
      if e.Some? {
        return Err(e.value);
      }
      var present := KeyExists(key);
      if present.value {
        var affected := DoUpdate(key.chars, value.chars);
        return Ok(affected);
      }
      var rowId := DoInsert(key.chars, value.chars);
      r := Ok(rowId);
    }

    /** `update`: overwrites the value of a present key and returns 1; returns -1
        and changes nothing when the key is absent. */
    method Update(key: JString, value: JString) returns (r: Result<int>)
      requires Valid()
      requires key.Str? ==> SplicesAsLiteral(key.chars)
      modifies this
      ensures Valid()
      ensures key.Null? ==> r == Err(KeyNull) && unchanged(this)
      ensures key.Str? && value.Null? ==> r == Err(ValueNull) && unchanged(this)
      ensures key.Str? && value.Str? ==>
        && statements == old(statements) + [QueryDataSql(key.chars)]
        && nextRowId == old(nextRowId)
      ensures key.Str? && value.Str? && key.chars !in old(table) ==>
        r == Ok(REJECTED) && table == old(table)
      ensures key.Str? && value.Str? && key.chars in old(table) ==>
        r == Ok(1) && table == old(table)[key.chars := value.chars]
    {
      var e := CheckKeyValue(key, value);
      if e.Some? {
        return Err(e.value);
      }
      var present := KeyExists(key);
      if !present.value {
        return Ok(REJECTED);
      }
      var affected := DoUpdate(key.chars, value.chars);
      r := Ok(affected);
    }

    /** `delete`: removes the key's row if there is one; returns the number of rows removed. */
    method Delete(key: JString) returns (r: Result<int>)
      requires Valid()
      modifies this`table
      ensures key.Null? ==> r == Err(KeyNull) && table == old(table)
      ensures key.Str? ==> r == Ok(if key.chars in old(table) then 1 else 0)
      ensures key.Str? ==> table == old(table) - {key.chars}
    {
      if CheckKey(key).Some? {
        return Err(KeyNull);
      }
      if key.chars in table {
        table := table - {key.chars};
        r := Ok(1);
      } else {
        r := Ok(0);
      }
    }

    /** `get`: the stored value, or null when the key is absent. */
    method Get(key: JString) returns (r: Result<JString>)
      requires Valid()
      requires key.Str? ==> SplicesAsLiteral(key.chars)
      modifies this`statements
      ensures key.Null? ==> r == Err(KeyNull) && statements == old(statements)
      ensures key.Str? ==> r == Ok(if key.chars in table then Str(table[key.chars]) else Null)
      ensures key.Str? ==> statements == old(statements) + [QueryDataSql(key.chars)]
    {
      if CheckKey(key).Some? {
        return Err(KeyNull);
      }
      var cursor := ExecQuery(SQL_QUERY_DATA, [TABLE_NAME, COLUMN_KEY, key.chars]);
      if key.chars in table {
        r := Ok(Str(table[key.chars]));
      } else {
        r := Ok(Null);
      }
    }

    /** The `while (cursor.moveToNext())` loop of `getByPrefix` / `getByContains`:
        copies every row the query selected into a fresh map, in whatever order
        the cursor yields them. */
    method CollectRows(cursor: set<string>) returns (result: map<string, string>)
      requires cursor <= table.Keys
      ensures result.Keys == cursor
      ensures forall k :: k in result ==> result[k] == table[k]
    {
      result := map[];
      var rest := cursor;
      while rest != {}
        invariant rest <= cursor
        invariant result.Keys == cursor - rest
        invariant forall k :: k in result ==> result[k] == table[k]
        decreases rest
      {
        var k :| k in rest;
        result := result[k := table[k]];
        rest := rest - {k};
      }
    }

    /** `getByPrefix`: exactly the rows whose key starts with `keyPrefix`, ASCII case ignored. */
    method GetByPrefix(keyPrefix: JString) returns (r: Result<map<string, string>>)
      requires Valid()
      requires keyPrefix.Str? ==> SplicesAsPattern(keyPrefix.chars)
      modifies this`statements
      ensures keyPrefix.Null? ==> r == Err(KeyNull) && statements == old(statements)
      ensures keyPrefix.Str? ==> r.Ok? && statements == old(statements) + [QueryPrefixSql(keyPrefix.chars)]
      ensures keyPrefix.Str? ==> forall k :: k in r.value <==> k in table && StartsWithIgnoringCase(keyPrefix.chars, k)
      ensures keyPrefix.Str? ==> forall k :: k in r.value ==> r.value[k] == table[k]
    {
      if CheckKey(keyPrefix).Some? {
        return Err(KeyNull);
      }
      var statement := ExecQuery(SQL_QUERY_DATA_PREFIX, [TABLE_NAME, COLUMN_KEY, keyPrefix.chars]);
      var cursor := set k | k in table && StartsWithIgnoringCase(keyPrefix.chars, k);
      var rows := CollectRows(cursor);
      r := Ok(rows);
    }

    /** `getByContains`: exactly the rows whose key contains `keyContains`, ASCII case ignored. */
    method GetByContains(keyContains: JString) returns (r: Result<map<string, string>>)
      requires Valid()
      requires keyContains.Str? ==> SplicesAsPattern(keyContains.chars)
      modifies this`statements
      ensures keyContains.Null? ==> r == Err(KeyNull) && statements == old(statements)
      ensures keyContains.Str? ==> r.Ok? && statements == old(statements) + [QueryContainsSql(keyContains.chars)]
      ensures keyContains.Str? ==> forall k :: k in r.value <==> k in table && ContainsIgnoringCase(keyContains.chars, k)
      ensures keyContains.Str? ==> forall k :: k in r.value ==> r.value[k] == table[k]
    {
      if CheckKey(keyContains).Some? {
        return Err(KeyNull);
      }
      var statement := ExecQuery(SQL_QUERY_DATA_CONTAINS, [TABLE_NAME, COLUMN_KEY, keyContains.chars]);
      var cursor := set k | k in table && ContainsIgnoringCase(keyContains.chars, k);
      var rows := CollectRows(cursor);
      r := Ok(rows);
    }

    /** `clearTable`: empties the table and re-runs the create step; the table stays. */
    method ClearTable()
      requires Valid()
      modifies this`table, this`tableExists, this`statements
      ensures Valid()
      ensures table == map[]
      ensures statements == old(statements) + [DeleteTableSql(), CreateTableSql()]
    {
      DeleteKVTable();
      CreateKVTable();
    }
  }
}
