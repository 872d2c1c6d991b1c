/**
 * DataContainer: the process-wide list of stored entries. Each entry has
 * an id (a random UUID given to it when it is added), the name of the
 * entity type or set it belongs to and its JSON payload.
 */
module Store {
  import opened Outcomes
  import Text
  import Seqs
  import Filter

  /** A UUID, by its canonical text (the code compares ids by `toString`). */
  type Uuid = string

  /**
   * The JSON values a stored payload holds (a Jackson JsonNode): integral
   * numbers, strings, Booleans and null, and any other node (a fractional
   * number, an object, an array) by its toString() text.
   */
  datatype Json = JNum(n: int) | JStr(s: string) | JBool(b: bool) | JNull | JOther(text: string)

  /** A stored payload: a JSON object (Jackson ObjectNode). */
  type Payload = map<string, Json>

  /** The Entry record: id, entity name, data. */
  datatype Entry = Entry(id: Option<Uuid>, name: string, data: Payload)

  /** JsonNode.toString: numbers and literals as written, strings in double quotes. */
  function JsonText(j: Json): string
  {
    match j
    case JNum(n) => Text.ShowInt(n)
    case JStr(s) => "\"" + s + "\""
    case JBool(b) => if b then "true" else "false"
    case JNull => "null"
    case JOther(text) => text
  }

  /** `"${entry.get(propertyName)}"`: the property's JSON text, "null" when it is missing. */
  function StoredKeyText(data: Payload, property: string): string
  {
    if property in data then JsonText(data[property]) else "null"
  }

  /**
   * The removeEntryByKey test: the entry has the given name and its
   * property's text equals the value's text once every leading and
   * trailing double quote is trimmed from both.
   */
  predicate KeyMatches(e: Entry, entryName: string, property: string, value: Filter.Value)
  {
    e.name == entryName &&
    Text.Trim(StoredKeyText(e.data, property), '"') == Text.Trim(Filter.ValueText(value), '"')
  }

  function IdIsNot(id: Uuid): Entry -> bool
  {
    (e: Entry) => e.id != Some(id)
  }

  function NameIs(name: string): Entry -> bool
  {
    (e: Entry) => e.name == name
  }

  function NameIsNot(name: string): Entry -> bool
  {
    (e: Entry) => e.name != name
  }

  function KeyDiffers(entryName: string, property: string, value: Filter.Value): Entry -> bool
  {
    (e: Entry) => !KeyMatches(e, entryName, property, value)
  }

  /** The entries without the ones whose id is `id` (removeEntry's `removeIf`). */
  function WithoutId(s: seq<Entry>, id: Uuid): seq<Entry>
  {
    Seqs.Filter(s, IdIsNot(id))
  }

  /** The entries named `name`, in order (getEntries' `filter`). */
  function Named(s: seq<Entry>, name: string): seq<Entry>
  {
    Seqs.Filter(s, NameIs(name))
  }

  /** The entries not named `name`, in order (removeEntries' `removeIf`). */
  function WithoutName(s: seq<Entry>, name: string): seq<Entry>
  {
    Seqs.Filter(s, NameIsNot(name))
  }

  /** The entries removeEntryByKey keeps, in order. */
  function WithoutKey(s: seq<Entry>, entryName: string, property: string, value: Filter.Value): seq<Entry>
  {
    Seqs.Filter(s, KeyDiffers(entryName, property, value))
  }

  function HasIdOf(id: Uuid): Entry -> bool
  {
    (e: Entry) => e.id == Some(id)
  }

  /** Every entry has an id and no two entries share one. */
  predicate IdsUnique(s: seq<Entry>)
  {
    s == [] ||
    (s[0].id.Some? && (forall e <- s[1..] :: e.id != s[0].id) && IdsUnique(s[1..]))
  }

  /** Kotlin's `isNullOrEmpty` on the optional name argument. */
  predicate NoName(name: Option<string>)
  {
    name.None? || name.value == ""
  }

  class DataContainer {
    var entries: seq<Entry>

    predicate Valid()
      reads this
    {
      IdsUnique(entries)
    }

    predicate HasId(id: Uuid)
      reads this
    {
      exists e <- entries :: e.id == Some(id)
    }

    constructor()
      ensures entries == [] && Valid()
    {
      entries := [];
    }

    /** addEntry: stores a copy of `entry` with the new id and returns that copy. */
    method AddEntry(entry: Entry, newId: Uuid) returns (r: Entry)
      requires Valid() && !HasId(newId)
      modifies this
      ensures r == entry.(id := Some(newId))
      ensures entries == old(entries) + [r]
      ensures Valid()
      ensures GetEntry(newId) == Some(r)
      ensures forall id :: HasId(id) <==> old(HasId(id)) || id == newId
    {
      r := entry.(id := Some(newId));
      AppendKeepsIdsUnique(entries, r);
      FindAppended(entries, r);
      entries := entries + [r];
    }

    /** getEntry: the first entry with the id, None (null) when there is none. */
    function GetEntry(id: Uuid): (r: Option<Entry>)
      reads this
      ensures r.Some? ==>
        exists i ::
          && 0 <= i < |entries| && entries[i] == r.value && r.value.id == Some(id)
          && (forall j :: 0 <= j < i ==> entries[j].id != Some(id))
      ensures r.None? <==> !HasId(id)
    {
      Seqs.Find(entries, HasIdOf(id))
    }

    /** getEntries: a copy of all entries for a null or empty name, else those with the name. */
    function GetEntries(name: Option<string>): (r: seq<Entry>)
      reads this
      ensures NoName(name) ==> r == entries
      ensures !NoName(name) ==> forall e <- r :: e in entries && e.name == name.value
      ensures !NoName(name) ==> forall e <- entries :: e.name == name.value ==> e in r
    {
      if NoName(name) then entries else Named(entries, name.value)
    }

    /** removeEntry: removes every entry with the id. */
    method RemoveEntry(id: Uuid)
      requires Valid()
      modifies this
      ensures entries == WithoutId(old(entries), id)
      ensures Valid() && !HasId(id)
    {
      FilterKeepsIdsUnique(entries, IdIsNot(id));
      entries := WithoutId(entries, id);
    }

    /** removeEntryByKey: removes the entries of the name whose key property matches the value. */
    method RemoveEntryByKey(entryName: string, property: string, value: Filter.Value)
      requires Valid()
      modifies this
      ensures entries == WithoutKey(old(entries), entryName, property, value)
      ensures Valid()
      ensures forall id :: HasId(id) ==> old(HasId(id))
    {
      FilterKeepsIdsUnique(entries, KeyDiffers(entryName, property, value));
      entries := WithoutKey(entries, entryName, property, value);
    }

    /** removeEntries: clears the store for a null or empty name, else removes the entries with the name. */
    method RemoveEntries(name: Option<string>)
      requires Valid()
      modifies this
      ensures entries == if NoName(name) then [] else WithoutName(old(entries), name.value)
      ensures Valid()
      ensures !NoName(name) ==> GetEntries(name) == []
    {
      if NoName(name) {
        entries := [];
      } else {
        FilterKeepsIdsUnique(entries, NameIsNot(name.value));
        WithoutNameKeepsOthers(entries, name.value, name.value);
        entries := WithoutName(entries, name.value);
      }
    }
  }

  // ---- the id invariant ----

  lemma {:induction false} AppendKeepsIdsUnique(s: seq<Entry>, r: Entry)
    requires IdsUnique(s) && r.id.Some? && forall e <- s :: e.id != r.id
    ensures IdsUnique(s + [r])
  {
    if s != [] {
      assert (s + [r])[1..] == s[1..] + [r];
      AppendKeepsIdsUnique(s[1..], r);
    } else {
      assert s + [r] == [r];
    }
  }

  lemma {:induction false} FilterKeepsIdsUnique(s: seq<Entry>, p: Entry -> bool)
    requires IdsUnique(s)
    ensures IdsUnique(Seqs.Filter(s, p))
  {
    if s != [] {
      var x, t := s[0], s[1..];
      assert s == [x] + t;
      FilterKeepsIdsUnique(t, p);
      Seqs.FilterCons(x, t, p);
      if p(x) {
        var r := Seqs.Filter(s, p);
        assert r[0] == x && r[1..] == Seqs.Filter(t, p);
        assert x.id.Some? && forall e <- t :: e.id != x.id;
        assert forall e <- r[1..] :: e in t;
      } else {
        assert Seqs.Filter(s, p) == Seqs.Filter(t, p);
      }
    }
  }

  /** After appending an entry with a fresh id, looking that id up finds the new entry. */
  lemma FindAppended(s: seq<Entry>, r: Entry)
    requires r.id.Some? && forall e <- s :: e.id != r.id
    ensures Seqs.Find(s + [r], HasIdOf(r.id.value)) == Some(r)
  {
    var t := s + [r];
    assert HasIdOf(r.id.value)(t[|s|]);
    assert forall j :: 0 <= j < |s| ==> t[j] == s[j];
  }

  // ---- what the removals keep ----

  /** removeEntries(n) leaves no entry named n and every other name's entries as they were. */
  lemma WithoutNameKeepsOthers(s: seq<Entry>, n: string, m: string)
    ensures Named(WithoutName(s, n), m) == if m == n then [] else Named(s, m)
  {
    Seqs.FilterCommute(s, NameIsNot(n), NameIs(m));
    if m == n {
      Seqs.FilterKeepsNone(WithoutName(s, n), NameIs(m));
    } else {
      Seqs.FilterKeepsAll(Named(s, m), NameIsNot(n));
    }
  }

  /** removeEntryByKey never touches entries of another name, nor their order. */
  lemma WithoutKeyKeepsOtherNames(s: seq<Entry>, n: string, property: string, value: Filter.Value, m: string)
    requires m != n
    ensures Named(WithoutKey(s, n, property, value), m) == Named(s, m)
  {
    Seqs.FilterCommute(s, KeyDiffers(n, property, value), NameIs(m));
    Seqs.FilterKeepsAll(Named(s, m), KeyDiffers(n, property, value));
  }

  /** removeEntryByKey removes an entry of the store exactly when the key matches. */
  lemma WithoutKeyRemovesMatches(s: seq<Entry>, n: string, property: string, value: Filter.Value)
    ensures forall e <- s :: e in WithoutKey(s, n, property, value) <==> !KeyMatches(e, n, property, value)
  {
  }

  /** removeEntry of an id no entry has changes nothing. */
  lemma WithoutAbsentId(s: seq<Entry>, id: Uuid)
    requires forall e <- s :: e.id != Some(id)
    ensures WithoutId(s, id) == s
  {
    Seqs.FilterKeepsAll(s, IdIsNot(id));
  }

  // ---- the quote-trimming key comparison ----

  /** A string key stored as a JSON string matches the same string: the JSON quotes are trimmed away. */
  lemma StringKeyMatches(e: Entry, property: string, s: string)
    requires property in e.data && e.data[property] == JStr(s)
    ensures KeyMatches(e, e.name, property, Filter.VStr(s))
  {
    var stored := StoredKeyText(e.data, property);
    assert Text.Trim(stored, '"') == Text.Trim(s, '"') by {
      assert stored == ['"'] + s + ['"'];
      Text.TrimEnclosed(s, '"');
    }
    assert Filter.ValueText(Filter.VStr(s)) == s;
  }

  /** A numeric key stored as a JSON number matches an integral value exactly when the numbers are equal. */
  lemma NumberKeyMatches(e: Entry, property: string, n: int, v: Filter.Value)
    requires property in e.data && e.data[property] == JNum(n)
    requires v.VInt? || v.VNumber?
    ensures KeyMatches(e, e.name, property, v) <==> n == (if v.VInt? then v.i else v.n)
  {
    var m := if v.VInt? then v.i else v.n;
    var stored, given := Text.ShowInt(n), Text.ShowInt(m);
    assert StoredKeyText(e.data, property) == stored;
    assert Filter.ValueText(v) == given;
    assert Text.Trim(stored, '"') == stored by {
      Text.ShowIntAvoids(n, '"');
      Text.TrimAbsent(stored, '"');
    }
    assert Text.Trim(given, '"') == given by {
      Text.ShowIntAvoids(m, '"');
      Text.TrimAbsent(given, '"');
    }
    Text.ShowIntInjective(n, m);
  }

  /** The text comparison does not see types: the JSON string "5" matches the Int 5. */
  lemma StringKeyMatchesNumber(e: Entry, property: string)
    requires property in e.data && e.data[property] == JStr("5")
    ensures KeyMatches(e, e.name, property, Filter.VInt(5))
  {
    StringKeyMatches(e, property, "5");
    assert Filter.ValueText(Filter.VInt(5)) == Filter.ValueText(Filter.VStr("5")) by {
      assert Text.ShowInt(5) == "5";
    }
  }
}
