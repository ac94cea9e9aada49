/**
  The table layout and statement templates of the key-value store, and the SQL
  text the templater makes of each of them.
 */
module KVSql {
  import opened Templater

  const TABLE_NAME := "KVStore"
  const COLUMN_KEY := "Key"
  const COLUMN_VALUE := "Value"

  // The templates are written as concatenations cut at each marker, so that
  // the pieces between markers can be named in the proofs below.
  const SQL_CREATE_TABLE := "CREATE TABLE IF NOT EXISTS " + "?" + " (" + "?" + " TEXT PRIMARY KEY NOT NULL," + "?" + " TEXT NOT NULL)"
  const SQL_QUERY_TABLE := "SELECT COUNT(*) AS c FROM sqlite_master " + "WHERE type='table' AND name= '" + "?" + "'"
  const SQL_DELETE_TABLE := "DELETE FROM " + "?"
  const SQL_QUERY_DATA := "SELECT * FROM " + "?" + " WHERE " + "?" + " = '" + "?" + "'"
  const SQL_QUERY_DATA_PREFIX := "SELECT * FROM " + "?" + " WHERE " + "?" + " LIKE '" + "?" + "%'"
  const SQL_QUERY_DATA_CONTAINS := "SELECT * FROM " + "?" + " WHERE " + "?" + " LIKE '%" + "?" + "%'"

  function CreateTableSql(): string
  {
    Substitute(SQL_CREATE_TABLE, [TABLE_NAME, COLUMN_KEY, COLUMN_VALUE])
  }

  function QueryTableSql(): string
  {
    Substitute(SQL_QUERY_TABLE, [TABLE_NAME])
  }

  function DeleteTableSql(): string
  {
    Substitute(SQL_DELETE_TABLE, [TABLE_NAME])
  }

  function QueryDataSql(key: string): string
  {
    Substitute(SQL_QUERY_DATA, [TABLE_NAME, COLUMN_KEY, key])
  }

  function QueryPrefixSql(keyPrefix: string): string
  {
    Substitute(SQL_QUERY_DATA_PREFIX, [TABLE_NAME, COLUMN_KEY, keyPrefix])
  }

  function QueryContainsSql(keyContains: string): string
  {
    Substitute(SQL_QUERY_DATA_CONTAINS, [TABLE_NAME, COLUMN_KEY, keyContains])
  }

  lemma CountMarkersSplit1(p0: string, p1: string)
    requires MARKER !in p0 && MARKER !in p1
    ensures CountMarkers(p0 + [MARKER] + p1) == 1
  {
    CountMarkersZero(p0);
    CountMarkersZero(p1);
    CountMarkersAppend(p0, [MARKER]);
    CountMarkersAppend(p0 + [MARKER], p1);
  }

  lemma CountMarkersPiece(p: string, s: string)
    requires MARKER !in p
    ensures CountMarkers(p + [MARKER] + s) == 1 + CountMarkers(s)
  {
    CountMarkersZero(p);
    CountMarkersAppend(p, [MARKER] + s);
    CountMarkersAppend([MARKER], s);
    assert p + [MARKER] + s == p + ([MARKER] + s);
  }

  lemma CountMarkersSplit3(p0: string, p1: string, p2: string, p3: string)
    requires MARKER !in p0 && MARKER !in p1 && MARKER !in p2 && MARKER !in p3
    ensures CountMarkers(p0 + [MARKER] + p1 + [MARKER] + p2 + [MARKER] + p3) == 3
  {
    CountMarkersZero(p3);
    CountMarkersPiece(p2, p3);
    CountMarkersPiece(p1, p2 + [MARKER] + p3);
    CountMarkersPiece(p0, p1 + [MARKER] + (p2 + [MARKER] + p3));
    Regroup(p0, [MARKER], p1, [MARKER], p2, [MARKER], p3);
  }

  /** A three-marker template filled with three arguments, the first two marker-free. */
  lemma Fill3Nested(p0: string, p1: string, p2: string, p3: string, a0: string, a1: string, a2: string)
    requires MARKER !in p0 && MARKER !in p1 && MARKER !in p2 && MARKER !in p3
    requires MARKER !in a0 && MARKER !in a1
    ensures Substitute(p0 + [MARKER] + (p1 + [MARKER] + (p2 + [MARKER] + p3)), [a0, a1, a2])
         == p0 + a0 + (p1 + a1 + (p2 + a2 + p3))
  {
    var s2 := p2 + [MARKER] + p3;
    var s1 := p1 + [MARKER] + s2;
    var t := p0 + [MARKER] + s1;
    assert NoStrayMarkers([a0, a1, a2]);
    SubstituteIsFill(t, [a0, a1, a2]);
    assert [a0, a1, a2] == [a0] + [a1, a2];
    FillAtFirstMarker(p0, a0, s1, [a1, a2]);
    assert [a1, a2] == [a1] + [a2];
    FillAtFirstMarker(p1, a1, s2, [a2]);
    assert [a2] == [a2] + [];
    FillAtFirstMarker(p2, a2, p3, []);
    FillWithoutArgs(p3);
  }

  /** `Fill3Nested` for the left-nested concatenations the templates are written as;
      the template then holds exactly three markers. */
  lemma Fill3(p0: string, p1: string, p2: string, p3: string, a0: string, a1: string, a2: string)
    requires MARKER !in p0 && MARKER !in p1 && MARKER !in p2 && MARKER !in p3
    requires MARKER !in a0 && MARKER !in a1
    ensures Substitute(p0 + [MARKER] + p1 + [MARKER] + p2 + [MARKER] + p3, [a0, a1, a2])
         == p0 + a0 + p1 + a1 + p2 + a2 + p3
    ensures CountMarkers(p0 + [MARKER] + p1 + [MARKER] + p2 + [MARKER] + p3) == 3
  {
    Fill3Nested(p0, p1, p2, p3, a0, a1, a2);
    Regroup(p0, [MARKER], p1, [MARKER], p2, [MARKER], p3);
    Regroup(p0, a0, p1, a1, p2, a2, p3);
    CountMarkersSplit3(p0, p1, p2, p3);
  }

  lemma Regroup(x0: string, x1: string, x2: string, x3: string, x4: string, x5: string, x6: string)
    ensures x0 + x1 + x2 + x3 + x4 + x5 + x6 == x0 + x1 + (x2 + x3 + (x4 + x5 + x6))
  {
    var tail := x4 + x5 + x6;
    assert x2 + x3 + x4 + x5 + x6 == x2 + x3 + tail;
    assert x0 + x1 + x2 + x3 + x4 + x5 + x6 == x0 + x1 + (x2 + x3 + x4 + x5 + x6);
  }

  /** A one-marker template filled with one argument. */
  lemma Fill1(p0: string, p1: string, a0: string)
    requires MARKER !in p0 && MARKER !in p1
    ensures Substitute(p0 + [MARKER] + p1, [a0]) == p0 + a0 + p1
    ensures CountMarkers(p0 + [MARKER] + p1) == 1
  {
    CountMarkersSplit1(p0, p1);
    SubstituteIsFill(p0 + [MARKER] + p1, [a0]);
    FillAtFirstMarker(p0, a0, p1, []);
    FillWithoutArgs(p1);
    assert [a0] == [a0] + [];
  }

  lemma CreateTableText()
    ensures CountMarkers(SQL_CREATE_TABLE) == 3
    ensures CreateTableSql() == "CREATE TABLE IF NOT EXISTS " + TABLE_NAME + " (" + COLUMN_KEY
      + " TEXT PRIMARY KEY NOT NULL," + COLUMN_VALUE + " TEXT NOT NULL)"
  {
    Fill3("CREATE TABLE IF NOT EXISTS ", " (", " TEXT PRIMARY KEY NOT NULL,", " TEXT NOT NULL)",
          TABLE_NAME, COLUMN_KEY, COLUMN_VALUE);
  }

  lemma QueryTableText()
    ensures CountMarkers(SQL_QUERY_TABLE) == 1
    ensures QueryTableSql()
         == "SELECT COUNT(*) AS c FROM sqlite_master " + "WHERE type='table' AND name= '" + TABLE_NAME + "'"
  {
    Fill1("SELECT COUNT(*) AS c FROM sqlite_master " + "WHERE type='table' AND name= '", "'", TABLE_NAME);
  }

  lemma DeleteTableText()
    ensures CountMarkers(SQL_DELETE_TABLE) == 1
    ensures DeleteTableSql() == "DELETE FROM " + TABLE_NAME
  {
    assert SQL_DELETE_TABLE == "DELETE FROM " + [MARKER] + "";
    Fill1("DELETE FROM ", "", TABLE_NAME);
  }

  /** The three row queries share their first two pieces. */
  lemma SelectText(p2: string, p3: string, arg: string)
    requires MARKER !in p2 && MARKER !in p3
    ensures CountMarkers("SELECT * FROM " + "?" + " WHERE " + "?" + p2 + "?" + p3) == 3
    ensures Substitute("SELECT * FROM " + "?" + " WHERE " + "?" + p2 + "?" + p3, [TABLE_NAME, COLUMN_KEY, arg])
         == "SELECT * FROM " + TABLE_NAME + " WHERE " + COLUMN_KEY + p2 + arg + p3
  {
    assert MARKER !in "SELECT * FROM " && MARKER !in " WHERE ";
    assert MARKER !in TABLE_NAME && MARKER !in COLUMN_KEY;
    assert "?" == [MARKER];
    Fill3("SELECT * FROM ", " WHERE ", p2, p3, TABLE_NAME, COLUMN_KEY, arg);
  }

  /** The key lands verbatim inside the quoted literal of the lookup, whatever it holds. */
  lemma QueryDataText(key: string)
    ensures CountMarkers(SQL_QUERY_DATA) == 3
    ensures QueryDataSql(key) == "SELECT * FROM " + TABLE_NAME + " WHERE " + COLUMN_KEY + " = '" + key + "'"
  {
    SelectText(" = '", "'", key);
  }

  /** The prefix lands before the `%` wildcard of the `LIKE` pattern. */
  lemma QueryPrefixText(keyPrefix: string)
    ensures CountMarkers(SQL_QUERY_DATA_PREFIX) == 3
    ensures QueryPrefixSql(keyPrefix)
         == "SELECT * FROM " + TABLE_NAME + " WHERE " + COLUMN_KEY + " LIKE '" + keyPrefix + "%'"
  {
    SelectText(" LIKE '", "%'", keyPrefix);
  }

  /** The searched text lands between two `%` wildcards of the `LIKE` pattern. */
  lemma QueryContainsText(keyContains: string)
    ensures CountMarkers(SQL_QUERY_DATA_CONTAINS) == 3
    ensures QueryContainsSql(keyContains)
         == "SELECT * FROM " + TABLE_NAME + " WHERE " + COLUMN_KEY + " LIKE '%" + keyContains + "%'"
  {
    SelectText(" LIKE '%", "%'", keyContains);
  }
}
