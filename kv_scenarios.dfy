/**
  Call sequences of a client of the manager, proved from the operations'
  contracts alone: what a later call observes after an earlier one.
 */
module KVScenarios {
  import opened StringUtils
  import opened LikeMatch
  import opened KVManager

  /** After a successful `insert(k, v)`, `get(k)` returns v and `keyExists(k)` holds. */
  method InsertThenRead(m: KVManagerImpl, k: string, v: string)
      returns (inserted: Result<int>, read: Result<JString>, present: Result<bool>)
    requires m.Valid() && SplicesAsLiteral(k)
    modifies m
    ensures m.Valid()
    ensures k !in old(m.table) ==> inserted.Ok? && inserted.value != REJECTED
    ensures k in old(m.table) ==> inserted == Ok(REJECTED)
    ensures read == Ok(Str(if k in old(m.table) then old(m.table)[k] else v))
    ensures present == Ok(true)
  {
    inserted := m.Insert(Str(k), Str(v));
    read := m.Get(Str(k));
    present := m.KeyExists(Str(k));
  }

  /** A second `insert` of the same key is rejected and leaves the first value in place. */
  method InsertTwice(m: KVManagerImpl, k: string, v1: string, v2: string)
      returns (second: Result<int>, read: Result<JString>)
    requires m.Valid() && SplicesAsLiteral(k)
    modifies m
    ensures m.Valid()
    ensures second == Ok(REJECTED)
    ensures k !in old(m.table) ==> read == Ok(Str(v1))
  {
    var first := m.Insert(Str(k), Str(v1));
    second := m.Insert(Str(k), Str(v2));
    read := m.Get(Str(k));
  }

  /** Two `insertOrUpdate` calls on one key: the later value wins, whatever was stored before. */
  method UpsertTwice(m: KVManagerImpl, k: string, v1: string, v2: string) returns (read: Result<JString>)
    requires m.Valid() && SplicesAsLiteral(k)
    modifies m
    ensures m.Valid()
    ensures read == Ok(Str(v2))
    ensures m.table == old(m.table)[k := v2]
  {
    var first := m.InsertOrUpdate(Str(k), Str(v1));
    var second := m.InsertOrUpdate(Str(k), Str(v2));
    read := m.Get(Str(k));
  }

  /** `delete` reports 0 for an absent key and 1 for a present one; afterwards the key is gone. */
  method DeleteThenLookUp(m: KVManagerImpl, k: string) returns (removed: Result<int>, present: Result<bool>)
    requires m.Valid() && SplicesAsLiteral(k)
    modifies m
    ensures m.Valid()
    ensures removed == Ok(if k in old(m.table) then 1 else 0)
    ensures present == Ok(false)
  {
    removed := m.Delete(Str(k));
    present := m.KeyExists(Str(k));
  }

  /** After `clearTable` no key is present, and the table still accepts inserts. */
  method ClearThenInsert(m: KVManagerImpl, k: string, v: string) returns (present: Result<bool>, inserted: Result<int>)
    requires m.Valid() && SplicesAsLiteral(k)
    modifies m
    ensures m.Valid()
    ensures present == Ok(false)
    ensures inserted.Ok? && inserted.value != REJECTED
    ensures m.table == map[k := v]
  {
    m.ClearTable();
    present := m.KeyExists(Str(k));
    inserted := m.Insert(Str(k), Str(v));
  }

  /** The empty string is a key like any other: only null is refused. */
  method EmptyKeyAccepted(m: KVManagerImpl, v: string) returns (inserted: Result<int>, read: Result<JString>)
    requires m.Valid() && "" !in m.table
    modifies m
    ensures m.Valid()
    ensures inserted.Ok? && inserted.value != REJECTED
    ensures read == Ok(Str(v))
  {
    inserted := m.Insert(Str(""), Str(v));
    read := m.Get(Str(""));
  }

  /** Empties the store and inserts three rows. */
  method LoadFruit(m: KVManagerImpl)
    requires m.Valid()
    modifies m
    ensures m.Valid()
    ensures m.table == FRUIT
  {
    m.ClearTable();
    var a := m.Insert(Str("apple"), Str("1"));
    var b := m.Insert(Str("apricot"), Str("2"));
    var c := m.Insert(Str("banana"), Str("3"));
  }

  lemma FruitMatches()
    ensures StartsWithIgnoringCase("a", "apple") && StartsWithIgnoringCase("a", "apricot")
    ensures !StartsWithIgnoringCase("a", "banana")
    ensures ContainsIgnoringCase("pp", "apple")
    ensures !ContainsIgnoringCase("pp", "apricot") && !ContainsIgnoringCase("pp", "banana")
  {
    assert !ContainsIgnoringCase("pp", "ot");
    assert !ContainsIgnoringCase("pp", "anana");
  }

  const FRUIT := map["apple" := "1", "apricot" := "2", "banana" := "3"]

  lemma PrefixOfFruit(r: map<string, string>)
    requires forall k :: k in r <==> k in FRUIT && StartsWithIgnoringCase("a", k)
    requires forall k :: k in r ==> r[k] == FRUIT[k]
    ensures r == map["apple" := "1", "apricot" := "2"]
  {
    FruitMatches();
    assert "apple" in r && "apricot" in r;
    assert r.Keys == {"apple", "apricot"};
  }

  lemma ContainsInFruit(r: map<string, string>)
    requires forall k :: k in r <==> k in FRUIT && ContainsIgnoringCase("pp", k)
    requires forall k :: k in r ==> r[k] == FRUIT[k]
    ensures r == map["apple" := "1"]
  {
    FruitMatches();
    assert "apple" in r;
    assert r.Keys == {"apple"};
  }

  /** Whatever `getByPrefix(p)` returns, `getByContains(p)` returns too, with the same values. */
  method PrefixWithinContains(m: KVManagerImpl, p: string)
      returns (byPrefix: Result<map<string, string>>, byContains: Result<map<string, string>>)
    requires m.Valid() && SplicesAsPattern(p)
    modifies m
    ensures byPrefix.Ok? && byContains.Ok?
    ensures byPrefix.value.Keys <= byContains.value.Keys
    ensures forall k :: k in byPrefix.value ==> byContains.value[k] == byPrefix.value[k]
  {
    byPrefix := m.GetByPrefix(Str(p));
    byContains := m.GetByContains(Str(p));
  }

  /** Prefix and substring search over three rows. */
  method SearchExample(m: KVManagerImpl) returns (byPrefix: Result<map<string, string>>, byContains: Result<map<string, string>>)
    requires m.Valid()
    modifies m
    ensures m.Valid()
    ensures byPrefix == Ok(map["apple" := "1", "apricot" := "2"])
    ensures byContains == Ok(map["apple" := "1"])
  {
    LoadFruit(m);
    byPrefix := m.GetByPrefix(Str("a"));
    PrefixOfFruit(byPrefix.value);
    byContains := m.GetByContains(Str("pp"));
    ContainsInFruit(byContains.value);
  }
}
