/**
 * ODataProcessor: the collection read ($filter, then $skip, then $top or
 * the odata.maxpagesize preference), key generation on create, key copying
 * on update, and the operations it rejects as not implemented.
 */
module Processor {
  import opened Outcomes
  import opened JvmInt
  import Text
  import Seqs
  import Store
  import Filter
  import Provider

  type Entity = Filter.Entity

  // ---- $filter ----

  /**
   * Evaluating the filter raises no exception outside the typed model on
   * any entity the loop reaches: it stops at the first failure or
   * non-Boolean result, and a null result would fail the non-null `Any`.
   */
  predicate FilterDefined(entities: seq<Entity>, filter: Filter.Expr, parse: Filter.DateParser)
  {
    entities == [] ||
    (Filter.Defined(filter, entities[0], parse) &&
     Filter.Eval(filter, entities[0], parse) != Ok(Filter.VNull) &&
     (Filter.Eval(filter, entities[0], parse).Ok? && Filter.Eval(filter, entities[0], parse).value.VBool?
      ==> FilterDefined(entities[1..], filter, parse)))
  }

  /** The filter loop: keeps the entities whose result is true; a non-Boolean result is BAD_REQUEST. */
  function FilterEntities(entities: seq<Entity>, filter: Filter.Expr, parse: Filter.DateParser): (r: Result<seq<Entity>>)
    requires FilterDefined(entities, filter, parse)
    ensures r.Ok? ==> |r.value| <= |entities|
    ensures r.Err? ==> Filter.IsVisitorError(r.error)
  {
    if entities == [] then Ok([])
    else
      var v := Filter.Eval(filter, entities[0], parse);
      if v.Err? then Err(v.error)
      else if !v.value.VBool? then Fail(BadRequest)
      else
        var rest := FilterEntities(entities[1..], filter, parse);
        if rest.Err? then rest else Ok((if v.value.b then [entities[0]] else []) + rest.value)
  }

  /** Whether the filter is true of the entity. */
  function IsTrueOf(filter: Filter.Expr, parse: Filter.DateParser): Entity -> bool
  {
    (e: Entity) => Filter.Defined(filter, e, parse) && Filter.Eval(filter, e, parse) == Ok(Filter.VBool(true))
  }

  /** Whether the filter evaluates to a Boolean on the entity. */
  predicate IsBooleanOn(filter: Filter.Expr, parse: Filter.DateParser, e: Entity)
  {
    Filter.Defined(filter, e, parse) && Filter.Eval(filter, e, parse).Ok? && Filter.Eval(filter, e, parse).value.VBool?
  }

  /** The filter succeeds exactly when it yields a Boolean on every entity. */
  lemma {:induction false} FilterSucceedsOnBooleans(entities: seq<Entity>, filter: Filter.Expr, parse: Filter.DateParser)
    requires FilterDefined(entities, filter, parse)
    ensures FilterEntities(entities, filter, parse).Ok? <==>
      forall i :: 0 <= i < |entities| ==> IsBooleanOn(filter, parse, entities[i])
  {
    if entities != [] && IsBooleanOn(filter, parse, entities[0]) {
      var rest := entities[1..];
      FilterSucceedsOnBooleans(rest, filter, parse);
      assert forall i :: 1 <= i < |entities| ==> entities[i] == rest[i - 1];
    }
  }

  /**
   * What the filter keeps: exactly the entities, in their original order,
   * on which the filter is true.
   */
  lemma {:induction false} FilterKeepsTrueInOrder(entities: seq<Entity>, filter: Filter.Expr, parse: Filter.DateParser)
    requires FilterDefined(entities, filter, parse)
    ensures FilterEntities(entities, filter, parse).Ok? ==>
      FilterEntities(entities, filter, parse).value == Seqs.Filter(entities, IsTrueOf(filter, parse))
  {
    if entities != [] {
      var v := Filter.Eval(filter, entities[0], parse);
      if v.Ok? && v.value.VBool? {
        FilterKeepsTrueInOrder(entities[1..], filter, parse);
      }
    }
  }

  /**
   * How the filter fails: at the first entity that does not yield a
   * Boolean, with that entity's error or BAD_REQUEST for a non-Boolean value.
   */
  lemma {:induction false} FilterFailsAtFirstNonBoolean(entities: seq<Entity>, filter: Filter.Expr, parse: Filter.DateParser)
    requires FilterDefined(entities, filter, parse)
    ensures FilterEntities(entities, filter, parse).Err? ==>
      exists i ::
        && 0 <= i < |entities|
        && (forall j :: 0 <= j < i ==> IsBooleanOn(filter, parse, entities[j]))
        && Filter.Defined(filter, entities[i], parse)
        && var v := Filter.Eval(filter, entities[i], parse);
           FilterEntities(entities, filter, parse).error == (if v.Err? then v.error else AppError(BadRequest))
  {
    if entities != [] && IsBooleanOn(filter, parse, entities[0]) {
      var rest := entities[1..];
      FilterFailsAtFirstNonBoolean(rest, filter, parse);
      if FilterEntities(entities, filter, parse).Err? {
        var i :|
          && 0 <= i < |rest|
          && (forall j :: 0 <= j < i ==> IsBooleanOn(filter, parse, rest[j]))
          && Filter.Defined(filter, rest[i], parse)
          && var v := Filter.Eval(filter, rest[i], parse);
             FilterEntities(rest, filter, parse).error == (if v.Err? then v.error else AppError(BadRequest));
        assert entities[i + 1] == rest[i];
        forall j | 0 <= j < i + 1 ensures IsBooleanOn(filter, parse, entities[j]) {
          if j > 0 {
            assert entities[j] == rest[j - 1];
          }
        }
      }
    }
  }

  // ---- $skip and $top ----

  /** The $skip step: a negative count is BAD_REQUEST; skipping past the end leaves nothing. */
  function Skip(list: seq<Entity>, skip: Option<int>): (r: Result<seq<Entity>>)
    ensures r.Err? <==> skip.Some? && skip.value < 0
    ensures r.Err? ==> r == Fail(BadRequest)
    ensures r.Ok? ==> |r.value| <= |list| && r.value == list[|list| - |r.value|..]
    ensures r.Ok? && skip.Some? ==> |r.value| == |list| - Min(skip.value, |list|)
  {
    if skip.None? then Ok(list)
    else if skip.value < 0 then Fail(BadRequest)
    else if skip.value <= |list| then Ok(list[skip.value..])
    else Ok([])
  }

  /** The page size in force: the odata.maxpagesize preference when given, else $top. */
  function EffectiveTop(top: Option<int>, maxPageSize: Option<int>): Option<int>
  {
    if maxPageSize.Some? then maxPageSize else top
  }

  /** The $top step: a negative count is BAD_REQUEST; a count past the end changes nothing. */
  function Top(list: seq<Entity>, top: Option<int>): (r: Result<seq<Entity>>)
    ensures r.Err? <==> top.Some? && top.value < 0
    ensures r.Err? ==> r == Fail(BadRequest)
    ensures r.Ok? ==> |r.value| <= |list| && r.value == list[..|r.value|]
    ensures r.Ok? && top.Some? ==> |r.value| == Min(top.value, |list|)
  {
    if top.None? then Ok(list)
    else if top.value < 0 then Fail(BadRequest)
    else if top.value <= |list| then Ok(list[..top.value])
    else Ok(list)
  }

  function Min(a: int, b: int): int
  {
    if a <= b then a else b
  }

  /** $skip s then $top t leaves the window f[min(s, |f|) .. min(s + t, |f|)], in order. */
  lemma PagingWindow(f: seq<Entity>, s: nat, t: nat)
    ensures Skip(f, Some(s)).Ok?
    ensures Top(Skip(f, Some(s)).value, Some(t)) == Ok(f[Min(s, |f|)..Min(s + t, |f|)])
  {
    if s <= |f| {
      var g := f[s..];
      if t <= |g| {
        assert g[..t] == f[s..s + t];
      } else {
        assert g == f[s..|f|];
      }
    } else {
      assert f[|f|..|f|] == [];
    }
  }

  /** The odata.maxpagesize preference wins over $top, even over a smaller $top. */
  lemma MaxPageSizeOverridesTop(list: seq<Entity>, top: Option<int>, maxPageSize: int)
    requires maxPageSize >= 0
    ensures Top(list, EffectiveTop(top, Some(maxPageSize))) == Ok(list[..Min(maxPageSize, |list|)])
  {
    assert list[..|list|] == list;
  }

  /** The whole collection read, from readAll's entities to the page it returns. */
  function ReadPipeline(entities: seq<Entity>, filter: Option<Filter.Expr>, skip: Option<int>, top: Option<int>,
                        maxPageSize: Option<int>, parse: Filter.DateParser): Result<seq<Entity>>
    requires filter.Some? ==> FilterDefined(entities, filter.value, parse)
  {
    var skipped := FilterAndSkip(entities, filter, skip, parse);
    if skipped.Err? then skipped else Top(skipped.value, EffectiveTop(top, maxPageSize))
  }

  /** The collection read up to $skip: the steps that run before the Prefer header is read. */
  function FilterAndSkip(entities: seq<Entity>, filter: Option<Filter.Expr>, skip: Option<int>,
                         parse: Filter.DateParser): Result<seq<Entity>>
    requires filter.Some? ==> FilterDefined(entities, filter.value, parse)
  {
    var filtered := if filter.None? then Ok(entities) else FilterEntities(entities, filter.value, parse);
    if filtered.Err? then filtered else Skip(filtered.value, skip)
  }

  /**
   * What a page holds: entities of the collection, each one the filter is
   * true of, and no more of them than odata.maxpagesize allows.
   */
  lemma PageComesFromFilter(entities: seq<Entity>, filter: Option<Filter.Expr>, skip: Option<int>, top: Option<int>,
                            maxPageSize: Option<int>, parse: Filter.DateParser)
    requires filter.Some? ==> FilterDefined(entities, filter.value, parse)
    ensures var page := ReadPipeline(entities, filter, skip, top, maxPageSize, parse);
      page.Ok? ==>
        && (forall e <- page.value :: e in entities && (filter.Some? ==> IsTrueOf(filter.value, parse)(e)))
        && (maxPageSize.Some? ==> |page.value| <= maxPageSize.value)
  {
    var filtered := if filter.None? then Ok(entities) else FilterEntities(entities, filter.value, parse);
    if filter.Some? {
      FilterKeepsTrueInOrder(entities, filter.value, parse);
    }
    if filtered.Ok? && Skip(filtered.value, skip).Ok? {
      PageWithin(filtered.value, skip, EffectiveTop(top, maxPageSize));
    }
  }

  /** $skip then $top only ever pick elements of the list, at most $top of them. */
  lemma PageWithin(f: seq<Entity>, skip: Option<int>, top: Option<int>)
    requires Skip(f, skip).Ok?
    ensures var page := Top(Skip(f, skip).value, top);
      page.Ok? ==> (forall e <- page.value :: e in f) && (top.Some? ==> |page.value| <= top.value)
  {
    var g := Skip(f, skip).value;
    assert forall e <- g :: e in f;
    var page := Top(g, top);
    assert page.Ok? ==> forall e <- page.value :: e in g;
  }

  // ---- odata.maxpagesize ----

  const MaxPageSizeMarker: string := "odata.maxpagesize="

  /** getMaxPageSize raises no NumberFormatException: the text after `=` is an Int when it is read. */
  predicate MaxPageSizeDefined(prefer: Option<string>)
  {
    (prefer.Some? && Text.Contains(prefer.value, MaxPageSizeMarker) && |Text.Split(prefer.value, '=')| == 2) ==>
      ParseInt(Text.Split(prefer.value, '=')[1]).Some?
  }

  /** getMaxPageSize: the Int after `=` in the Prefer header, when it names odata.maxpagesize and has one `=`. */
  function GetMaxPageSize(prefer: Option<string>): (r: Option<int>)
    requires MaxPageSizeDefined(prefer)
    ensures r.Some? ==> prefer.Some? && Text.Contains(prefer.value, MaxPageSizeMarker) && IsInt(r.value)
  {
    if prefer.Some? && Text.Contains(prefer.value, MaxPageSizeMarker) then
      var parts := Text.Split(prefer.value, '=');
      if |parts| == 2 then ParseInt(parts[1]) else None
    else None
  }

  /**
   * A page size is read exactly when the header names odata.maxpagesize and
   * holds a single `=`: any other preference with a value hides it.
   */
  lemma MaxPageSizePresent(prefer: Option<string>)
    requires MaxPageSizeDefined(prefer)
    ensures GetMaxPageSize(prefer).Some? <==>
      prefer.Some? && Text.Contains(prefer.value, MaxPageSizeMarker) && Text.Count(prefer.value, '=') == 1
    ensures GetMaxPageSize(prefer).Some? ==> IsInt(GetMaxPageSize(prefer).value)
  {
  }

  /** The header `odata.maxpagesize=N` gives back N for every Int N. */
  lemma MaxPageSizeRoundTrip(n: int)
    requires IsInt(n)
    ensures MaxPageSizeDefined(Some(MaxPageSizeMarker + Text.ShowInt(n)))
    ensures GetMaxPageSize(Some(MaxPageSizeMarker + Text.ShowInt(n))) == Some(n)
  {
    var name := "odata.maxpagesize";
    var h := MaxPageSizeMarker + Text.ShowInt(n);
    assert h == name + ['='] + Text.ShowInt(n);
    assert h[..|MaxPageSizeMarker|] == MaxPageSizeMarker;
    Text.ShowIntAvoids(n, '=');
    Text.SplitAround(name, Text.ShowInt(n), '=');
    ParseIntShowInt(n);
  }

  // ---- getNextId ----

  /** `value.toString().toLong()` of an entity's key property, None where it throws. */
  function KeyNumber(e: Entity, idProperty: string): Option<int>
    requires idProperty in e
  {
    ParseLong(Filter.ValueText(e[idProperty]))
  }

  /** getNextId raises no exception: every entity has the key property, written as a Long. */
  predicate NextIdDefined(entities: seq<Entity>, idProperty: string)
  {
    forall e <- entities :: idProperty in e && KeyNumber(e, idProperty).Some?
  }

  /** The largest number of a non-empty list. */
  function Max(s: seq<int>): (m: int)
    requires s != []
    ensures m in s && forall x <- s :: x <= m
  {
    if |s| == 1 then s[0]
    else
      var rest := Max(s[1..]);
      assert forall x <- s :: x == s[0] || x in s[1..];
      if s[0] >= rest then s[0] else rest
  }

  /** The key numbers of the entities, in order. */
  function KeyNumbers(entities: seq<Entity>, idProperty: string): (r: seq<int>)
    requires NextIdDefined(entities, idProperty)
    ensures |r| == |entities|
  {
    seq(|entities|, i requires 0 <= i < |entities| => KeyNumber(entities[i], idProperty).value)
  }

  /** getNextId: (the largest key, or 0 when there is none) + 1, in Long arithmetic. */
  function GetNextId(entities: seq<Entity>, idProperty: string): (r: int)
    requires NextIdDefined(entities, idProperty)
    ensures IsLong(r)
    ensures entities == [] ==> r == 1
    ensures entities != [] ==> var ids := KeyNumbers(entities, idProperty);
      exists m :: m in ids && (forall x <- ids :: x <= m) && r == WrapLong(m + 1)
  {
    var ids := KeyNumbers(entities, idProperty);
    if ids == [] then
      LongSuccessor(0);
      WrapLong(1)
    else
      WrapLong(Max(ids) + 1)
  }


  /**
   * The next id is 1 for an empty collection and exceeds every existing key
   * by being one more than the largest, unless the largest is Long.MAX_VALUE,
   * where it wraps around to Long.MIN_VALUE.
   */
  lemma NextIdExceedsKeys(entities: seq<Entity>, idProperty: string)
    requires NextIdDefined(entities, idProperty)
    ensures entities == [] ==> GetNextId(entities, idProperty) == 1
    ensures (forall i :: 0 <= i < |entities| ==> KeyNumber(entities[i], idProperty).value < MaxLong) ==>
      forall i :: 0 <= i < |entities| ==> KeyNumber(entities[i], idProperty).value < GetNextId(entities, idProperty)
    ensures (exists i :: 0 <= i < |entities| && KeyNumber(entities[i], idProperty).value == MaxLong) ==>
      GetNextId(entities, idProperty) == MinLong
    ensures entities != [] && (forall i :: 0 <= i < |entities| ==> KeyNumber(entities[i], idProperty).value < MaxLong) ==>
      exists i :: 0 <= i < |entities| && KeyNumber(entities[i], idProperty).value + 1 == GetNextId(entities, idProperty)
  {
    var ids := KeyNumbers(entities, idProperty);
    if ids == [] {
      LongSuccessor(0);
    } else {
      var m := Max(ids);
      LongSuccessor(m);
      assert GetNextId(entities, idProperty) == WrapLong(m + 1);
      var i :| 0 <= i < |ids| && ids[i] == m;
      assert KeyNumber(entities[i], idProperty).value == m;
      forall j | 0 <= j < |entities| ensures KeyNumber(entities[j], idProperty).value <= m {
        var x := ids[j];
        assert x in ids;
        assert x == KeyNumber(entities[j], idProperty).value;
      }
    }
  }

  // ---- readEntityCollection ----

  /**
   * The state of the filter loop: the iterator stands at `list[i]`, which
   * is `entities[n]`; what is left to visit is `entities[n..]`; and the
   * result is the entities kept so far followed by the result on the rest.
   */
  predicate FilterLoop(entities: seq<Entity>, list: seq<Entity>, i: nat, n: nat, filter: Filter.Expr, parse: Filter.DateParser)
    requires FilterDefined(entities, filter, parse)
  {
    && i <= |list| && n <= |entities| && |list| - i == |entities| - n
    && list[i..] == entities[n..]
    && FilterDefined(entities[n..], filter, parse)
    && FilterEntities(entities, filter, parse) == Prepend(list[..i], FilterEntities(entities[n..], filter, parse))
  }

  /** A prefix already kept in front of the rest of the filter's result. */
  function Prepend(kept: seq<Entity>, rest: Result<seq<Entity>>): Result<seq<Entity>>
  {
    if rest.Err? then rest else Ok(kept + rest.value)
  }

  lemma FilterLoopStarts(entities: seq<Entity>, filter: Filter.Expr, parse: Filter.DateParser)
    requires FilterDefined(entities, filter, parse)
    ensures FilterLoop(entities, entities, 0, 0, filter, parse)
  {
    assert entities[0..] == entities;
    var whole := FilterEntities(entities, filter, parse);
    assert whole.Ok? ==> [] + whole.value == whole.value;
  }

  /** At the end of the list the kept entities are the filter's result. */
  lemma FilterLoopEnds(entities: seq<Entity>, list: seq<Entity>, i: nat, n: nat, filter: Filter.Expr, parse: Filter.DateParser)
    requires FilterDefined(entities, filter, parse)
    requires FilterLoop(entities, list, i, n, filter, parse) && i == |list|
    ensures FilterEntities(entities, filter, parse) == Ok(list)
  {
    assert entities[n..] == [] && list[..i] == list;
    assert list + [] == list;
  }

  /** The entity at the iterator fails: that is the filter's result. */
  lemma FilterLoopFails(entities: seq<Entity>, list: seq<Entity>, i: nat, n: nat, filter: Filter.Expr, parse: Filter.DateParser)
    requires FilterDefined(entities, filter, parse)
    requires FilterLoop(entities, list, i, n, filter, parse) && i < |list|
    requires !IsBooleanOn(filter, parse, list[i])
    ensures Filter.Defined(filter, list[i], parse)
    ensures var v := Filter.Eval(filter, list[i], parse);
      FilterEntities(entities, filter, parse) == if v.Err? then Err(v.error) else Fail(BadRequest)
  {
    assert list[i] == entities[n..][0];
  }

  /** The entity at the iterator is true: the iterator moves past it. */
  lemma FilterLoopKeeps(entities: seq<Entity>, list: seq<Entity>, i: nat, n: nat, filter: Filter.Expr, parse: Filter.DateParser)
    requires FilterDefined(entities, filter, parse)
    requires FilterLoop(entities, list, i, n, filter, parse) && i < |list|
    requires IsBooleanOn(filter, parse, list[i]) && Filter.Eval(filter, list[i], parse).value.b
    ensures FilterLoop(entities, list, i + 1, n + 1, filter, parse)
  {
    var x := list[i];
    FilterStep(entities[n..], filter, parse);
    assert entities[n..][0] == x && entities[n..][1..] == entities[n + 1..];
    var rest := FilterEntities(entities[n + 1..], filter, parse);
    PrependTwice(list[..i], [x], rest);
    assert list[..i + 1] == list[..i] + [x];
    assert list[i + 1..] == list[i..][1..];
  }

  /** One step of the filter on a nonempty list whose head yields a Boolean. */
  lemma FilterStep(entities: seq<Entity>, filter: Filter.Expr, parse: Filter.DateParser)
    requires FilterDefined(entities, filter, parse) && entities != []
    requires IsBooleanOn(filter, parse, entities[0])
    ensures FilterDefined(entities[1..], filter, parse)
    ensures FilterEntities(entities, filter, parse) ==
      var rest := FilterEntities(entities[1..], filter, parse);
      if Filter.Eval(filter, entities[0], parse).value.b then Prepend([entities[0]], rest) else rest
  {
    var rest := FilterEntities(entities[1..], filter, parse);
    assert rest.Ok? ==> [] + rest.value == rest.value;
  }

  lemma PrependTwice(a: seq<Entity>, b: seq<Entity>, rest: Result<seq<Entity>>)
    ensures Prepend(a, Prepend(b, rest)) == Prepend(a + b, rest)
  {
    if rest.Ok? {
      assert a + (b + rest.value) == (a + b) + rest.value;
    }
  }

  /** The entity at the iterator is false: the iterator removes it. */
  lemma FilterLoopDrops(entities: seq<Entity>, list: seq<Entity>, i: nat, n: nat, filter: Filter.Expr, parse: Filter.DateParser)
    requires FilterDefined(entities, filter, parse)
    requires FilterLoop(entities, list, i, n, filter, parse) && i < |list|
    requires IsBooleanOn(filter, parse, list[i]) && !Filter.Eval(filter, list[i], parse).value.b
    ensures FilterLoop(entities, list[..i] + list[i + 1..], i, n + 1, filter, parse)
  {
    var x := list[i];
    var after := list[..i] + list[i + 1..];
    FilterStep(entities[n..], filter, parse);
    assert entities[n..][0] == x && entities[n..][1..] == entities[n + 1..];
    assert |list[..i]| == i;
    assert after[..i] == list[..i];
    assert after[i..] == list[i + 1..];
    assert list[i + 1..] == list[i..][1..];
  }

  /**
   * The filter loop of readEntityCollection: walks the list with an
   * iterator and removes every entity the filter is not true of; a
   * failure or a non-Boolean result ends the request.
   */
  method ApplyFilter(entities: seq<Entity>, filter: Filter.Expr, parse: Filter.DateParser)
    returns (r: Result<seq<Entity>>)
    requires FilterDefined(entities, filter, parse)
    ensures r == FilterEntities(entities, filter, parse)
  {
    var list := entities;
    var i, n := 0, 0;
    FilterLoopStarts(entities, filter, parse);
    while i < |list|
      invariant FilterLoop(entities, list, i, n, filter, parse)
      decreases |list| - i
    {
      var current := list[i];
      if !IsBooleanOn(filter, parse, current) {
        FilterLoopFails(entities, list, i, n, filter, parse);
      }
      var result := Filter.Eval(filter, current, parse);
      if result.Err? {
        return Err(result.error);
      }
      if !result.value.VBool? {
        return Fail(BadRequest);
      }
      if !result.value.b {
        FilterLoopDrops(entities, list, i, n, filter, parse);
        list := list[..i] + list[i + 1..];
      } else {
        FilterLoopKeeps(entities, list, i, n, filter, parse);
        i := i + 1;
      }
      n := n + 1;
    }
    FilterLoopEnds(entities, list, i, n, filter, parse);
    return Ok(list);
  }

  /**
   * readEntityCollection from readAll to the page: the filter loop; then
   * the first entity removed `skip` times (or the list cleared when skip
   * exceeds it); then the last entity removed until `top` remain.
   */
  method ReadEntityCollection(store: Store.DataContainer, typeName: string, decode: Provider.Decoder,
                              filter: Option<Filter.Expr>, skip: Option<int>, top: Option<int>,
                              prefer: Option<string>, parse: Filter.DateParser)
    returns (r: Result<seq<Entity>>)
    requires filter.Some? ==> FilterDefined(Provider.Decoded(store.GetEntries(Some(typeName)), decode), filter.value, parse)
    requires FilterAndSkip(Provider.Decoded(store.GetEntries(Some(typeName)), decode), filter, skip, parse).Ok? ==>
      MaxPageSizeDefined(prefer)
    ensures var skipped := FilterAndSkip(Provider.Decoded(store.GetEntries(Some(typeName)), decode), filter, skip, parse);
      skipped.Err? ==> r == skipped
    ensures var skipped := FilterAndSkip(Provider.Decoded(store.GetEntries(Some(typeName)), decode), filter, skip, parse);
      skipped.Ok? ==> r == ReadPipeline(Provider.Decoded(store.GetEntries(Some(typeName)), decode), filter, skip, top,
                                        GetMaxPageSize(prefer), parse)
  {
    var entities := Provider.ReadAll(store, typeName, decode);
    var list := entities;
    if filter.Some? {
      var filtered := ApplyFilter(entities, filter.value, parse);
      if filtered.Err? {
        return filtered;
      }
      list := filtered.value;
    }
    var skipped := SkipEntities(list, skip);
    if skipped.Err? {
      return skipped;
    }
    var maxPageSize := GetMaxPageSize(prefer);
    r := TopEntities(skipped.value, top, maxPageSize);
  }

  /**
   * The $skip step of readEntityCollection: removes the first entity
   * `skip` times, clears the list when skip exceeds its size, and rejects
   * a negative count.
   */
  method SkipEntities(entities: seq<Entity>, skip: Option<int>) returns (r: Result<seq<Entity>>)
    ensures r == Skip(entities, skip)
  {
    var list := entities;
    if skip.Some? {
      var skipNumber := skip.value;
      if skipNumber >= 0 {
        if skipNumber <= |list| {
          var i := skipNumber;
          while i > 0
            invariant 0 <= i <= skipNumber
            invariant list == entities[skipNumber - i..]
          {
            list := list[1..];
            i := i - 1;
          }
        } else {
          list := [];
        }
      } else {
        return Fail(BadRequest);
      }
    }
    return Ok(list);
  }

  /**
   * The $top step of readEntityCollection: the odata.maxpagesize
   * preference, else $top, is the page size; removes the last entity until
   * that many remain, and rejects a negative size.
   */
  method TopEntities(entities: seq<Entity>, top: Option<int>, maxPageSize: Option<int>) returns (r: Result<seq<Entity>>)
    ensures r == Top(entities, EffectiveTop(top, maxPageSize))
  {
    var list := entities;
    if top.Some? || maxPageSize.Some? {
      var topNumber := if maxPageSize.Some? then maxPageSize.value else top.value;
      if topNumber >= 0 {
        if topNumber <= |list| {
          while |list| > topNumber
            invariant topNumber <= |list| <= |entities| && list == entities[..|list|]
          {
            list := list[..|list| - 1];
          }
        }
      } else {
        return Fail(BadRequest);
      }
    }
    return Ok(list);
  }

  // ---- readEntity ----

  /**
   * readEntity: the entity the key predicates find; a formatting failure
   * surfaces as status 500 and a missing entity as NOT_FOUND.
   */
  method ReadEntity(store: Store.DataContainer, typeName: string, keys: seq<Provider.KeyParam>,
                    decode: Provider.Decoder, format: Provider.Formatter)
    returns (r: Result<Entity>)
    requires Provider.ScanDefined(Provider.Decoded(store.GetEntries(Some(typeName)), decode), keys, format)
    ensures var found := Provider.Scan(Provider.Decoded(store.GetEntries(Some(typeName)), decode), keys, format);
      r == if found.Err? then Fail(InternalServerError)
           else if found.value.None? then Fail(NotFound)
           else Ok(found.value.value)
  {
    var found := Provider.Read(store, typeName, keys, decode, format);
    if found.Err? {
      return Fail(InternalServerError);
    }
    if found.value.None? {
      return Fail(NotFound);
    }
    return Ok(found.value.value);
  }

  // ---- createEntity ----

  /** getNextId can be computed for every declared key. */
  predicate NextIdsDefined(collection: seq<Entity>, keyNames: seq<string>)
  {
    forall k <- keyNames :: NextIdDefined(collection, k)
  }

  /** The payload after `entry.put(keyName, getNextId(collection, keyName))` for each key in turn. */
  function PutNextIds(body: Store.Payload, keyNames: seq<string>, collection: seq<Entity>): (r: Store.Payload)
    requires NextIdsDefined(collection, keyNames)
    ensures r.Keys == body.Keys + set k <- keyNames
  {
    if keyNames == [] then body
    else
      var init, last := keyNames[..|keyNames| - 1], keyNames[|keyNames| - 1];
      assert keyNames == init + [last];
      assert (set k <- keyNames) == (set k <- init) + {last};
      PutNextIds(body, init, collection)[last := Store.JNum(GetNextId(collection, last))]
  }

  /**
   * Every declared key is set to its next id, as a JSON number; every
   * other property of the request body stays as it was.
   */
  lemma {:induction false} PutNextIdsSetsKeys(body: Store.Payload, keyNames: seq<string>, collection: seq<Entity>)
    requires NextIdsDefined(collection, keyNames)
    ensures PutNextIds(body, keyNames, collection).Keys == body.Keys + set k <- keyNames
    ensures forall k <- keyNames :: PutNextIds(body, keyNames, collection)[k] == Store.JNum(GetNextId(collection, k))
    ensures forall p <- body.Keys :: p !in keyNames ==> PutNextIds(body, keyNames, collection)[p] == body[p]
  {
    forall k <- keyNames ensures PutNextIds(body, keyNames, collection)[k] == Store.JNum(GetNextId(collection, k)) {
      PutNextIdsValue(body, keyNames, collection, k);
    }
    forall p <- body.Keys | p !in keyNames ensures PutNextIds(body, keyNames, collection)[p] == body[p] {
      PutNextIdsOther(body, keyNames, collection, p);
    }
  }

  lemma {:induction false} PutNextIdsValue(body: Store.Payload, keyNames: seq<string>, collection: seq<Entity>, k: string)
    requires NextIdsDefined(collection, keyNames) && k in keyNames
    ensures k in PutNextIds(body, keyNames, collection) && PutNextIds(body, keyNames, collection)[k] == Store.JNum(GetNextId(collection, k))
  {
    var init, last := keyNames[..|keyNames| - 1], keyNames[|keyNames| - 1];
    if k != last {
      assert keyNames == init + [last];
      PutNextIdsValue(body, init, collection, k);
    }
  }

  lemma {:induction false} PutNextIdsOther(body: Store.Payload, keyNames: seq<string>, collection: seq<Entity>, p: string)
    requires NextIdsDefined(collection, keyNames) && p in body && p !in keyNames
    ensures p in PutNextIds(body, keyNames, collection) && PutNextIds(body, keyNames, collection)[p] == body[p]
  {
    if keyNames != [] {
      var init := keyNames[..|keyNames| - 1];
      assert forall k <- init :: k in keyNames;
      PutNextIdsOther(body, init, collection, p);
    }
  }

  /**
   * Keys a created entry receives are new: each exceeds the same key of
   * every entity already stored (unless some key is Long.MAX_VALUE).
   */
  lemma CreatedKeysExceedExisting(body: Store.Payload, keyNames: seq<string>, collection: seq<Entity>, k: string)
    requires NextIdsDefined(collection, keyNames) && k in keyNames
    requires forall i :: 0 <= i < |collection| ==> KeyNumber(collection[i], k).value < MaxLong
    ensures k in PutNextIds(body, keyNames, collection) && PutNextIds(body, keyNames, collection)[k].JNum?
    ensures forall i :: 0 <= i < |collection| ==> KeyNumber(collection[i], k).value < PutNextIds(body, keyNames, collection)[k].n
  {
    PutNextIdsSetsKeys(body, keyNames, collection);
    NextIdExceedsKeys(collection, k);
  }

  /**
   * createEntity: reads the collection, sets every key to its next id, and
   * stores the result under the entity SET's name twice: once as built and
   * once as the serializer renders it, which is also the response.
   */
  method CreateEntity(store: Store.DataContainer, setName: string, typeName: string, keyNames: seq<string>,
                      body: Store.Payload, decode: Provider.Decoder, serialize: Store.Payload -> Store.Payload,
                      firstId: Store.Uuid, secondId: Store.Uuid)
    returns (r: Store.Payload)
    requires store.Valid() && !store.HasId(firstId) && !store.HasId(secondId) && firstId != secondId
    requires NextIdsDefined(Provider.Decoded(store.GetEntries(Some(typeName)), decode), keyNames)
    modifies store
    ensures var built := PutNextIds(body, keyNames, Provider.Decoded(old(store.GetEntries(Some(typeName))), decode));
      && r == serialize(built)
      && store.entries == old(store.entries) + [Store.Entry(Some(firstId), setName, built), Store.Entry(Some(secondId), setName, r)]
    ensures store.Valid()
  {
    var collection := Provider.ReadAll(store, typeName, decode);
    var data := SetNextIds(body, keyNames, collection);
    r := CreateSerializedEntity(store, Store.Entry(None, setName, data), serialize, firstId);
    var stored := store.AddEntry(Store.Entry(None, setName, r), secondId);
  }

  /** The forEach over the key properties in createEntity: `entry.put(keyName, getNextId(...))`. */
  method SetNextIds(body: Store.Payload, keyNames: seq<string>, collection: seq<Entity>) returns (data: Store.Payload)
    requires NextIdsDefined(collection, keyNames)
    ensures data == PutNextIds(body, keyNames, collection)
  {
    data := body;
    for i := 0 to |keyNames|
      invariant NextIdsDefined(collection, keyNames[..i])
      invariant data == PutNextIds(body, keyNames[..i], collection)
    {
      assert keyNames[..i + 1][..i] == keyNames[..i];
      data := data[keyNames[i] := Store.JNum(GetNextId(collection, keyNames[i]))];
    }
    assert keyNames[..|keyNames|] == keyNames;
  }

  /**
   * createSerializedEntity: stores the entry under a new id, reads it back
   * and serializes it; `serialize` stands for that read-back and the
   * serializer.
   */
  method CreateSerializedEntity(store: Store.DataContainer, entry: Store.Entry,
                                serialize: Store.Payload -> Store.Payload, newId: Store.Uuid)
    returns (r: Store.Payload)
    requires store.Valid() && !store.HasId(newId)
    modifies store
    ensures r == serialize(entry.data)
    ensures store.entries == old(store.entries) + [entry.(id := Some(newId))]
    ensures store.Valid()
    ensures forall id :: store.HasId(id) <==> old(store.HasId(id)) || id == newId
  {
    var stored := store.AddEntry(entry, newId);
    r := serialize(stored.data);
  }

  // ---- updateEntity ----

  /**
   * A key value as updateEntity copies it: every java.lang.Number (Int,
   * Long, BigDecimal, Double, ...) as its toLong(), anything else as its
   * toString().
   */
  function KeyJson(v: Filter.Value): (r: Store.Json)
    ensures r.JNum? <==> Filter.IsJavaNumber(v)
    ensures r.JNum? ==> r.n == Filter.ToLong(v)
    ensures !(v.VOther? && v.asLong.Some?) ==>
      Text.Trim(Store.JsonText(r), '"') == Text.Trim(Filter.ValueText(v), '"')
  {
    if Filter.IsJavaNumber(v) then Store.JNum(Filter.ToLong(v))
    else
      var t := Filter.ValueText(v);
      assert Store.JsonText(Store.JStr(t)) == ['"'] + t + ['"'];
      Text.TrimEnclosed(t, '"');
      Store.JStr(t)
  }

  /** The old entity has every declared key, none of them null. */
  predicate HasKeys(old_: Entity, keyNames: seq<string>)
  {
    forall k <- keyNames :: k in old_ && old_[k] != Filter.VNull
  }

  /** The new payload after copying each key property of the old entity onto it, in turn. */
  function CopyKeys(body: Store.Payload, keyNames: seq<string>, old_: Entity): (r: Store.Payload)
    requires HasKeys(old_, keyNames)
    ensures r.Keys == body.Keys + set k <- keyNames
  {
    if keyNames == [] then body
    else
      var init, last := keyNames[..|keyNames| - 1], keyNames[|keyNames| - 1];
      assert keyNames == init + [last];
      assert (set k <- keyNames) == (set k <- init) + {last};
      CopyKeys(body, init, old_)[last := KeyJson(old_[last])]
  }

  /**
   * Update keeps every key of the old entity, whatever the request body
   * says: numeric keys as numbers, the others as their text; the body's
   * other properties stay.
   */
  lemma {:induction false} CopyKeysKeepsOldKeys(body: Store.Payload, keyNames: seq<string>, old_: Entity)
    requires HasKeys(old_, keyNames)
    ensures CopyKeys(body, keyNames, old_).Keys == body.Keys + set k <- keyNames
    ensures forall k <- keyNames :: CopyKeys(body, keyNames, old_)[k] == KeyJson(old_[k])
    ensures forall p <- body.Keys :: p !in keyNames ==> CopyKeys(body, keyNames, old_)[p] == body[p]
  {
    forall k <- keyNames ensures CopyKeys(body, keyNames, old_)[k] == KeyJson(old_[k]) {
      CopyKeysValue(body, keyNames, old_, k);
    }
    forall p <- body.Keys | p !in keyNames ensures CopyKeys(body, keyNames, old_)[p] == body[p] {
      CopyKeysOther(body, keyNames, old_, p);
    }
  }

  lemma {:induction false} CopyKeysValue(body: Store.Payload, keyNames: seq<string>, old_: Entity, k: string)
    requires HasKeys(old_, keyNames) && k in keyNames
    ensures k in CopyKeys(body, keyNames, old_) && CopyKeys(body, keyNames, old_)[k] == KeyJson(old_[k])
  {
    var init, last := keyNames[..|keyNames| - 1], keyNames[|keyNames| - 1];
    if k != last {
      assert keyNames == init + [last];
      CopyKeysValue(body, init, old_, k);
    }
  }

  lemma {:induction false} CopyKeysOther(body: Store.Payload, keyNames: seq<string>, old_: Entity, p: string)
    requires HasKeys(old_, keyNames) && p in body && p !in keyNames
    ensures p in CopyKeys(body, keyNames, old_) && CopyKeys(body, keyNames, old_)[p] == body[p]
  {
    if keyNames != [] {
      var init := keyNames[..|keyNames| - 1];
      assert forall k <- init :: k in keyNames;
      CopyKeysOther(body, init, old_, p);
    }
  }

  /**
   * The updated entry can be found again by the value it was removed by:
   * its first key is carried over with the same text, which holds for every
   * key value except a java.lang.Number of a non-integral class such as
   * BigDecimal or Double, whose toLong() replaces it.
   */
  lemma UpdatedEntryKeepsKey(body: Store.Payload, keyNames: seq<string>, old_: Entity, id: Option<Store.Uuid>, typeName: string)
    requires |keyNames| >= 1 && HasKeys(old_, keyNames)
    requires !(old_[keyNames[0]].VOther? && old_[keyNames[0]].asLong.Some?)
    ensures Store.KeyMatches(Store.Entry(id, typeName, CopyKeys(body, keyNames, old_)), typeName, keyNames[0], old_[keyNames[0]])
  {
    var k := keyNames[0];
    var e := Store.Entry(id, typeName, CopyKeys(body, keyNames, old_));
    CopyKeysKeepsOldKeys(body, keyNames, old_);
    assert Store.StoredKeyText(e.data, k) == Store.JsonText(KeyJson(old_[k]));
  }

  /**
   * updateEntity: finds the old entity by the key predicates (NOT_FOUND
   * when there is none), removes the stored entries matching its first
   * key, copies the old keys onto the request body, and stores the result
   * under the entity TYPE's name twice, as createEntity does.
   */
  method UpdateEntity(store: Store.DataContainer, typeName: string, keyNames: seq<string>,
                      keys: seq<Provider.KeyParam>, body: Store.Payload,
                      decode: Provider.Decoder, format: Provider.Formatter,
                      serialize: Store.Payload -> Store.Payload, firstId: Store.Uuid, secondId: Store.Uuid)
    returns (r: Result<Store.Payload>)
    requires store.Valid() && !store.HasId(firstId) && !store.HasId(secondId) && firstId != secondId
    requires |keyNames| >= 1
    requires Provider.ScanDefined(Provider.Decoded(store.GetEntries(Some(typeName)), decode), keys, format)
    requires var found := Provider.Scan(Provider.Decoded(store.GetEntries(Some(typeName)), decode), keys, format);
      found.Ok? && found.value.Some? ==> HasKeys(found.value.value, keyNames)
    modifies store
    ensures store.Valid()
    ensures var found := Provider.Scan(Provider.Decoded(old(store.GetEntries(Some(typeName))), decode), keys, format);
      if found.Err? then r == Err(found.error) && store.entries == old(store.entries)
      else if found.value.None? then r == Fail(NotFound) && store.entries == old(store.entries)
      else
        var old_ := found.value.value;
        var built := CopyKeys(body, keyNames, old_);
        && r == Ok(serialize(built))
        && store.entries ==
             Store.WithoutKey(old(store.entries), typeName, keyNames[0], old_[keyNames[0]]) +
             [Store.Entry(Some(firstId), typeName, built), Store.Entry(Some(secondId), typeName, serialize(built))]
  {
    var found := Provider.Read(store, typeName, keys, decode, format);
    if found.Err? {
      return Err(found.error);
    }
    if found.value.None? {
      return Fail(NotFound);
    }
    var serialized := ReplaceEntity(store, typeName, keyNames, body, found.value.value, serialize, firstId, secondId);
    return Ok(serialized);
  }

  /**
   * The found branch of updateEntity: every stored entry of the type whose
   * first key matches the old entity's goes, then the body with the old key
   * values copied in is stored twice, as it is and serialized.
   */
  method ReplaceEntity(store: Store.DataContainer, typeName: string, keyNames: seq<string>,
                       body: Store.Payload, oldEntity: Entity,
                       serialize: Store.Payload -> Store.Payload, firstId: Store.Uuid, secondId: Store.Uuid)
    returns (r: Store.Payload)
    requires store.Valid() && !store.HasId(firstId) && !store.HasId(secondId) && firstId != secondId
    requires |keyNames| >= 1 && HasKeys(oldEntity, keyNames)
    modifies store
    ensures store.Valid()
    ensures var built := CopyKeys(body, keyNames, oldEntity);
      && r == serialize(built)
      && store.entries ==
           Store.WithoutKey(old(store.entries), typeName, keyNames[0], oldEntity[keyNames[0]]) +
           [Store.Entry(Some(firstId), typeName, built), Store.Entry(Some(secondId), typeName, r)]
  {
    var idPropertyName := keyNames[0];
    store.RemoveEntryByKey(typeName, idPropertyName, oldEntity[idPropertyName]);
    ghost var kept := store.entries;
    var data := CopyOldKeys(body, keyNames, oldEntity);
    r := CreateSerializedEntity(store, Store.Entry(None, typeName, data), serialize, firstId);
    assert !store.HasId(secondId);
    var stored := store.AddEntry(Store.Entry(None, typeName, r), secondId);
    assert store.entries == kept + [Store.Entry(Some(firstId), typeName, data)] + [stored];
  }

  /**
   * The forEach over the key properties in updateEntity: a Number key is
   * put as a Long, any other key as its toString.
   */
  method CopyOldKeys(body: Store.Payload, keyNames: seq<string>, oldEntity: Entity) returns (data: Store.Payload)
    requires HasKeys(oldEntity, keyNames)
    ensures data == CopyKeys(body, keyNames, oldEntity)
  {
    data := body;
    for i := 0 to |keyNames|
      invariant HasKeys(oldEntity, keyNames[..i])
      invariant data == CopyKeys(body, keyNames[..i], oldEntity)
    {
      assert keyNames[..i + 1][..i] == keyNames[..i];
      var keyValue := oldEntity[keyNames[i]];
      if Filter.IsJavaNumber(keyValue) {
        data := data[keyNames[i] := Store.JNum(Filter.ToLong(keyValue))];
      } else {
        data := data[keyNames[i] := Store.JStr(Filter.ValueText(keyValue))];
      }
    }
    assert keyNames[..|keyNames|] == keyNames;
  }

  // ---- operations that are not implemented ----

  /** The entity and property operations the processor always rejects. */
  datatype Unsupported =
    | DeleteEntity | UpdatePrimitive | UpdatePrimitiveValue | DeletePrimitive
    | DeletePrimitiveValue | UpdateComplex | DeleteComplex

  /** Each of them fails with NOT_IMPLEMENTED (HTTP 501) and changes nothing. */
  function Reject(op: Unsupported): (r: Result<()>)
    ensures r.Err? && r.error.AppError? && Code(r.error.status) == 501
  {
    Fail(NotImplemented)
  }
}
