/**
 * DataProvider: turns the stored entries of an entity type into entities
 * (readAll) and finds one entity by its key predicates (read).
 */
module Provider {
  import opened Outcomes
  import Text
  import Store
  import Filter

  /** Olingo's JSON deserializer for the entity type: a stored payload to an entity. */
  type Decoder = Store.Payload -> Filter.Entity

  /**
   * EdmPrimitiveType.valueToString of a key property's value, by property
   * name (the facets come from the property's declaration); None where it
   * throws EdmPrimitiveTypeException.
   */
  type Formatter = (string, Filter.Value) -> Option<string>

  /** A key predicate of the request URL: the property name and the literal text as written. */
  datatype KeyParam = KeyParam(name: string, text: string)

  /** The entities readAll builds from `entries`: one per entry, in order. */
  function Decoded(entries: seq<Store.Entry>, decode: Decoder): (r: seq<Filter.Entity>)
    ensures |r| == |entries|
    ensures forall i :: 0 <= i < |entries| ==> r[i] == decode(entries[i].data)
  {
    seq(|entries|, i requires 0 <= i < |entries| => decode(entries[i].data))
  }

  /** readAll: decodes every stored entry the store lists under the entity type's name. */
  method ReadAll(store: Store.DataContainer, typeName: string, decode: Decoder) returns (r: seq<Filter.Entity>)
    ensures r == Decoded(store.GetEntries(Some(typeName)), decode)
  {
    var entries := store.GetEntries(Some(typeName));
    r := [];
    for i := 0 to |entries|
      invariant |r| == i
      invariant forall k :: 0 <= k < i ==> r[k] == decode(entries[k].data)
    {
      r := r + [decode(entries[i].data)];
    }
  }

  /** The test of read: the formatted value, wrapped in single quotes, is the key's text. */
  predicate KeyHit(value: string, key: KeyParam)
  {
    "'" + value + "'" == key.text
  }

  /**
   * read raises no NullPointerException on `entity`: every key it reaches
   * names a property the entity has (it stops at a format failure or a hit).
   */
  predicate KeysDefined(entity: Filter.Entity, keys: seq<KeyParam>, format: Formatter)
  {
    keys == [] ||
    (keys[0].name in entity &&
     (format(keys[0].name, entity[keys[0].name]).Some? &&
      !KeyHit(format(keys[0].name, entity[keys[0].name]).value, keys[0])
      ==> KeysDefined(entity, keys[1..], format)))
  }

  /**
   * The inner loop of read: whether some key hits; its only failure is
   * "Wrong key!", raised when a key's value does not format.
   */
  function MatchKeys(entity: Filter.Entity, keys: seq<KeyParam>, format: Formatter): (r: Result<bool>)
    requires KeysDefined(entity, keys, format)
    ensures r.Err? ==> r.error == WrongKey
  {
    if keys == [] then Ok(false)
    else
      var value := format(keys[0].name, entity[keys[0].name]);
      if value.None? then Err(WrongKey)
      else if KeyHit(value.value, keys[0]) then Ok(true)
      else MatchKeys(entity, keys[1..], format)
  }

  /** KeysDefined for every entity read reaches. */
  predicate ScanDefined(entities: seq<Filter.Entity>, keys: seq<KeyParam>, format: Formatter)
  {
    entities == [] ||
    (KeysDefined(entities[0], keys, format) &&
     (MatchKeys(entities[0], keys, format) == Ok(false) ==> ScanDefined(entities[1..], keys, format)))
  }

  /**
   * The outer loop of read: the first entity some key hits, None (null)
   * when there is none; what it finds is one of the entities, and its only
   * failure is "Wrong key!".
   */
  function Scan(entities: seq<Filter.Entity>, keys: seq<KeyParam>, format: Formatter): (r: Result<Option<Filter.Entity>>)
    requires ScanDefined(entities, keys, format)
    ensures r.Err? ==> r.error == WrongKey
    ensures r.Ok? && r.value.Some? ==> r.value.value in entities
  {
    if entities == [] then Ok(None)
    else
      var m := MatchKeys(entities[0], keys, format);
      if m.Err? then Err(m.error)
      else if m.value then Ok(Some(entities[0]))
      else Scan(entities[1..], keys, format)
  }

  /** read: the nested search over readAll's entities and the key predicates. */
  method Read(store: Store.DataContainer, typeName: string, keys: seq<KeyParam>, decode: Decoder, format: Formatter)
    returns (r: Result<Option<Filter.Entity>>)
    requires ScanDefined(Decoded(store.GetEntries(Some(typeName)), decode), keys, format)
    ensures r == Scan(Decoded(store.GetEntries(Some(typeName)), decode), keys, format)
  {
    var entities := ReadAll(store, typeName, decode);
    for i := 0 to |entities|
      invariant ScanDefined(entities[i..], keys, format)
      invariant Scan(entities, keys, format) == Scan(entities[i..], keys, format)
    {
      var entity := entities[i];
      assert entities[i..][0] == entity && entities[i..][1..] == entities[i + 1..];
      for j := 0 to |keys|
        invariant KeysDefined(entity, keys[j..], format)
        invariant MatchKeys(entity, keys, format) == MatchKeys(entity, keys[j..], format)
      {
        var key := keys[j];
        assert keys[j..][0] == key && keys[j..][1..] == keys[j + 1..];
        var value := format(key.name, entity[key.name]);
        if value.None? {
          return Err(WrongKey);
        }
        if "'" + value.value + "'" == key.text {
          return Ok(Some(entity));
        }
      }
      assert keys[|keys|..] == [];
    }
    assert entities[|entities|..] == [];
    return Ok(None);
  }

  // ---- what read finds ----

  /** Every key's value formats (no EdmPrimitiveTypeException on this entity). */
  predicate AllFormat(entity: Filter.Entity, keys: seq<KeyParam>, format: Formatter)
  {
    forall k :: 0 <= k < |keys| ==> keys[k].name in entity && format(keys[k].name, entity[keys[k].name]).Some?
  }

  /**
   * A hit on any one key is enough: when every key formats, the entity
   * matches exactly when some key hits (not all keys have to).
   */
  lemma {:induction false} MatchAnyKey(entity: Filter.Entity, keys: seq<KeyParam>, format: Formatter)
    requires AllFormat(entity, keys, format)
    ensures KeysDefined(entity, keys, format)
    ensures MatchKeys(entity, keys, format) ==
      Ok(exists k :: 0 <= k < |keys| && KeyHit(format(keys[k].name, entity[keys[k].name]).value, keys[k]))
  {
    if keys != [] {
      var rest := keys[1..];
      assert AllFormat(entity, rest, format) by {
        forall k | 0 <= k < |rest| ensures rest[k].name in entity && format(rest[k].name, entity[rest[k].name]).Some? {
          assert rest[k] == keys[k + 1];
        }
      }
      MatchAnyKey(entity, rest, format);
      if !KeyHit(format(keys[0].name, entity[keys[0].name]).value, keys[0]) {
        if exists k :: 0 <= k < |keys| && KeyHit(format(keys[k].name, entity[keys[k].name]).value, keys[k]) {
          var k :| 0 <= k < |keys| && KeyHit(format(keys[k].name, entity[keys[k].name]).value, keys[k]);
          assert k > 0 && rest[k - 1] == keys[k];
        }
        if exists k :: 0 <= k < |rest| && KeyHit(format(rest[k].name, entity[rest[k].name]).value, rest[k]) {
          var k :| 0 <= k < |rest| && KeyHit(format(rest[k].name, entity[rest[k].name]).value, rest[k]);
          assert rest[k] == keys[k + 1];
        }
      }
    }
  }

  /** read's result is the first entity, in readAll order, that some key matches. */
  lemma {:induction false} ScanFindsFirst(entities: seq<Filter.Entity>, keys: seq<KeyParam>, format: Formatter)
    requires ScanDefined(entities, keys, format)
    ensures Scan(entities, keys, format).Ok? && Scan(entities, keys, format).value.Some? ==>
      exists i ::
        && 0 <= i < |entities| && entities[i] == Scan(entities, keys, format).value.value
        && KeysDefined(entities[i], keys, format) && MatchKeys(entities[i], keys, format) == Ok(true)
        && (forall j :: 0 <= j < i ==> KeysDefined(entities[j], keys, format) && MatchKeys(entities[j], keys, format) == Ok(false))
  {
    if entities != [] && MatchKeys(entities[0], keys, format) == Ok(false) {
      var rest := entities[1..];
      ScanFindsFirst(rest, keys, format);
      var r := Scan(entities, keys, format);
      if r.Ok? && r.value.Some? {
        var i :|
          && 0 <= i < |rest| && rest[i] == r.value.value
          && KeysDefined(rest[i], keys, format) && MatchKeys(rest[i], keys, format) == Ok(true)
          && (forall j :: 0 <= j < i ==> KeysDefined(rest[j], keys, format) && MatchKeys(rest[j], keys, format) == Ok(false));
        assert entities[i + 1] == rest[i];
        forall j | 0 <= j < i + 1
          ensures KeysDefined(entities[j], keys, format) && MatchKeys(entities[j], keys, format) == Ok(false)
        {
          if j > 0 {
            assert entities[j] == rest[j - 1];
          }
        }
      }
    }
  }

  /** read returns null exactly when no entity matches and no formatting fails. */
  lemma {:induction false} ScanNotFound(entities: seq<Filter.Entity>, keys: seq<KeyParam>, format: Formatter)
    requires ScanDefined(entities, keys, format)
    ensures Scan(entities, keys, format) == Ok(None) <==>
      forall i :: 0 <= i < |entities| ==> KeysDefined(entities[i], keys, format) && MatchKeys(entities[i], keys, format) == Ok(false)
  {
    if entities != [] {
      var rest := entities[1..];
      if MatchKeys(entities[0], keys, format) == Ok(false) {
        ScanNotFound(rest, keys, format);
        assert forall i :: 1 <= i < |entities| ==> entities[i] == rest[i - 1];
      }
    }
  }

  /** Key text that does not start with a single quote (an integer key such as `5`, say) never hits. */
  lemma UnquotedKeyNeverHits(value: string, key: KeyParam)
    requires key.text == [] || key.text[0] != '\''
    ensures !KeyHit(value, key)
  {
    assert ("'" + value + "'")[0] == '\'';
  }

  /** The text Olingo gives an integer key is never quoted, so an integer key never hits. */
  lemma IntegerKeyNeverHits(value: string, name: string, n: int)
    ensures !KeyHit(value, KeyParam(name, Text.ShowInt(n)))
  {
    var t := Text.ShowInt(n);
    assert t[0] == '-' || Text.IsDigit(t[0]);
    UnquotedKeyNeverHits(value, KeyParam(name, t));
  }

  /** With only unquoted key texts, read never finds an entity. */
  lemma {:induction false} UnquotedKeysFindNothing(entities: seq<Filter.Entity>, keys: seq<KeyParam>, format: Formatter)
    requires ScanDefined(entities, keys, format)
    requires forall k :: 0 <= k < |keys| ==> keys[k].text == [] || keys[k].text[0] != '\''
    ensures Scan(entities, keys, format).Ok? ==> Scan(entities, keys, format).value.None?
  {
    if entities != [] {
      NoHitNoMatch(entities[0], keys, format);
      if MatchKeys(entities[0], keys, format) == Ok(false) {
        UnquotedKeysFindNothing(entities[1..], keys, format);
      }
    }
  }

  lemma {:induction false} NoHitNoMatch(entity: Filter.Entity, keys: seq<KeyParam>, format: Formatter)
    requires KeysDefined(entity, keys, format)
    requires forall k :: 0 <= k < |keys| ==> keys[k].text == [] || keys[k].text[0] != '\''
    ensures MatchKeys(entity, keys, format) != Ok(true)
  {
    if keys != [] {
      var value := format(keys[0].name, entity[keys[0].name]);
      if value.Some? {
        UnquotedKeyNeverHits(value.value, keys[0]);
        assert forall k :: 0 <= k < |keys[1..]| ==> keys[1..][k] == keys[k + 1];
        NoHitNoMatch(entity, keys[1..], format);
      }
    }
  }
}
