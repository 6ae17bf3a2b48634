/**
 * Sorting the recogniser's entity objects into four tuple lists
 * (`get_entities` in src/twitIE_amica.py). Each entity-type key is matched by
 * substring tests in the order Location, Person, UserID, URL, Organization;
 * Organization entities share the URL list, and an absent `locType` or
 * `gender` attribute reads as `'na'`.
 */
module TwitieEntities {
  import opened Wrappers
  import opened PyStr

  /** A JSON attribute value as the service returns it. */
  datatype AttrValue = Null | Str(s: string)

  /** One entity object of the response: its `indices` list and its other attributes. */
  datatype Entity = Entity(indices: seq<int>, attrs: map<string, AttrValue>)

  /** The tuple `(start, end)`. */
  datatype Span = Span(start: int, end: int)

  /** The tuple `(start, end, attribute)`. */
  datatype AttrSpan = AttrSpan(start: int, end: int, attr: AttrValue)

  /** The four lists `get_entities` returns, in the tuple order of the response record. */
  datatype EntityLists = EntityLists(urls: seq<Span>, userIds: seq<Span>, persons: seq<AttrSpan>, locations: seq<AttrSpan>)

  const NoEntities := EntityLists([], [], [], [])

  /**
   * What `get_entities` raises: `KeyError` when a recognised key is not a key
   * of the response, `IndexError` when an entity's `indices` list is empty.
   */
  datatype EntityError = MissingKey(key: string) | EmptyIndices(key: string)

  /** The branch of the `if`/`elif` chain a key takes. */
  datatype Kind = Location | Person | UserId | Url | Organization | Ignored

  function KindOf(key: string): Kind
  {
    if Contains(key, "Location") then Location
    else if Contains(key, "Person") then Person
    else if Contains(key, "UserID") then UserId
    else if Contains(key, "URL") then Url
    else if Contains(key, "Organization") then Organization
    else Ignored
  }

  /** An attribute of the entity, `'na'` when the entity lacks it. */
  function AttrOr(e: Entity, name: string): AttrValue
  {
    if name in e.attrs then e.attrs[name] else Str("na")
  }

  function SpanOf(e: Entity): Span
    requires e.indices != []
  {
    Span(e.indices[0], e.indices[|e.indices| - 1])
  }

  function AttrSpanOf(e: Entity, name: string): AttrSpan
    requires e.indices != []
  {
    AttrSpan(e.indices[0], e.indices[|e.indices| - 1], AttrOr(e, name))
  }

  /** Appends the tuple of one entity to the list its kind selects. */
  function AddEntity(acc: EntityLists, kind: Kind, e: Entity): EntityLists
    requires e.indices != []
  {
    match kind
    case Location => acc.(locations := acc.locations + [AttrSpanOf(e, "locType")])
    case Person => acc.(persons := acc.persons + [AttrSpanOf(e, "gender")])
    case UserId => acc.(userIds := acc.userIds + [SpanOf(e)])
    case Url => acc.(urls := acc.urls + [SpanOf(e)])
    case Organization => acc.(urls := acc.urls + [SpanOf(e)])
    case Ignored => acc
  }

  /** The inner loop over the entities of one key; the first empty `indices` raises. */
  function AddEntities(acc: EntityLists, key: string, kind: Kind, es: seq<Entity>): Result<EntityLists, EntityError>
    decreases |es|
  {
    if es == [] then Success(acc)
    else
      match AddEntities(acc, key, kind, es[..|es| - 1])
      case Failure(err) => Failure(err)
      case Success(a) =>
        var e := es[|es| - 1];
        if e.indices == [] then Failure(EmptyIndices(key)) else Success(AddEntity(a, kind, e))
  }

  /** One iteration of the loop over the keys. */
  function AddKey(acc: EntityLists, entities: map<string, seq<Entity>>, key: string): Result<EntityLists, EntityError>
  {
    var kind := KindOf(key);
    if kind == Ignored then Success(acc)
    else if key !in entities then Failure(MissingKey(key))
    else AddEntities(acc, key, kind, entities[key])
  }

  /** The result of `get_entities(entities, keys)`: the keys in order, the first exception ending it. */
  function EntitiesSpec(entities: map<string, seq<Entity>>, keys: seq<string>): Result<EntityLists, EntityError>
    decreases |keys|
  {
    if keys == [] then Success(NoEntities)
    else
      match EntitiesSpec(entities, keys[..|keys| - 1])
      case Failure(err) => Failure(err)
      case Success(a) => AddKey(a, entities, keys[|keys| - 1])
  }

  method GetEntities(entities: map<string, seq<Entity>>, entityKeys: seq<string>) returns (r: Result<EntityLists, EntityError>)
    ensures r == EntitiesSpec(entities, entityKeys)
  {
    var urls, userIds, persons, locations := [], [], [], [];
    for i := 0 to |entityKeys|
      invariant EntitiesSpec(entities, entityKeys[..i]) == Success(EntityLists(urls, userIds, persons, locations))
    {
      var key := entityKeys[i];
      assert entityKeys[..i + 1][..i] == entityKeys[..i];
      var kind := KindOf(key);
      if kind != Ignored {
        if key !in entities {
          FailureSticks(entities, entityKeys, i + 1);
          return Failure(MissingKey(key));
        }
        var es := entities[key];
        ghost var before := EntityLists(urls, userIds, persons, locations);
        for j := 0 to |es|
          invariant AddEntities(before, key, kind, es[..j]) == Success(EntityLists(urls, userIds, persons, locations))
        {
          var e := es[j];
          assert es[..j + 1][..j] == es[..j];
          if e.indices == [] {
            AddEntitiesFailureSticks(before, key, kind, es, j + 1);
            FailureSticks(entities, entityKeys, i + 1);
            return Failure(EmptyIndices(key));
          }
          var start, end := e.indices[0], e.indices[|e.indices| - 1];
          match kind {
            case Location =>
              var locType := if "locType" in e.attrs then e.attrs["locType"] else Str("na");
              locations := locations + [AttrSpan(start, end, locType)];
            case Person =>
              var gender := if "gender" in e.attrs then e.attrs["gender"] else Str("na");
              persons := persons + [AttrSpan(start, end, gender)];
            case UserId =>
              userIds := userIds + [Span(start, end)];
            case Url =>
              urls := urls + [Span(start, end)];
            case Organization =>
              urls := urls + [Span(start, end)];
          }
        }
        assert es[..|es|] == es;
      }
    }
    assert entityKeys[..|entityKeys|] == entityKeys;
    r := Success(EntityLists(urls, userIds, persons, locations));
  }

  lemma {:induction false} AddEntitiesFailureSticks(acc: EntityLists, key: string, kind: Kind, es: seq<Entity>, n: nat)
    requires n <= |es|
    requires AddEntities(acc, key, kind, es[..n]).Failure?
    ensures AddEntities(acc, key, kind, es) == AddEntities(acc, key, kind, es[..n])
    decreases |es| - n
  {
    if n < |es| {
      assert es[..n + 1][..n] == es[..n];
      AddEntitiesFailureSticks(acc, key, kind, es, n + 1);
    } else {
      assert es[..n] == es;
    }
  }

  /** Once an exception is raised, later keys are never looked at. */
  lemma {:induction false} FailureSticks(entities: map<string, seq<Entity>>, keys: seq<string>, n: nat)
    requires n <= |keys|
    requires EntitiesSpec(entities, keys[..n]).Failure?
    ensures EntitiesSpec(entities, keys) == EntitiesSpec(entities, keys[..n])
    decreases |keys| - n
  {
    if n < |keys| {
      assert keys[..n + 1][..n] == keys[..n];
      FailureSticks(entities, keys, n + 1);
    } else {
      assert keys[..n] == keys;
    }
  }

  // ---------------------------------------------------------------------
  // An independent description: the lists grouped by kind
  // ---------------------------------------------------------------------

  predicate Indexed(es: seq<Entity>)
  {
    forall i :: 0 <= i < |es| ==> es[i].indices != []
  }

  /** The entity objects of the keys whose branch is one of `kinds`, in key order and then entity order. */
  function OfKinds(entities: map<string, seq<Entity>>, keys: seq<string>, kinds: set<Kind>): seq<Entity>
    decreases |keys|
  {
    if keys == [] then []
    else
      var k := keys[|keys| - 1];
      OfKinds(entities, keys[..|keys| - 1], kinds)
        + (if KindOf(k) in kinds && k in entities then entities[k] else [])
  }

  lemma OfKindsLast(entities: map<string, seq<Entity>>, keys: seq<string>, kinds: set<Kind>)
    requires keys != []
    ensures var k := keys[|keys| - 1];
      OfKinds(entities, keys, kinds)
        == OfKinds(entities, keys[..|keys| - 1], kinds) + (if KindOf(k) in kinds && k in entities then entities[k] else [])
  {
  }

  function Spans(es: seq<Entity>): seq<Span>
    requires Indexed(es)
    decreases |es|
  {
    if es == [] then [] else Spans(es[..|es| - 1]) + [SpanOf(es[|es| - 1])]
  }

  function AttrSpans(es: seq<Entity>, name: string): seq<AttrSpan>
    requires Indexed(es)
    decreases |es|
  {
    if es == [] then [] else AttrSpans(es[..|es| - 1], name) + [AttrSpanOf(es[|es| - 1], name)]
  }

  lemma {:induction false} TuplesAppend(a: seq<Entity>, b: seq<Entity>, name: string)
    requires Indexed(a) && Indexed(b)
    ensures Indexed(a + b)
    ensures Spans(a + b) == Spans(a) + Spans(b)
    ensures AttrSpans(a + b, name) == AttrSpans(a, name) + AttrSpans(b, name)
    decreases |b|
  {
    if b == [] {
      assert a + b == a;
    } else {
      var b' := b[..|b| - 1];
      assert (a + b)[..|a + b| - 1] == a + b';
      TuplesAppend(a, b', name);
    }
  }

  /** What the inner loop adds: the tuples of all the key's entities, to the one list its kind selects. */
  lemma {:induction false} AddEntitiesEffect(acc: EntityLists, key: string, kind: Kind, es: seq<Entity>)
    requires AddEntities(acc, key, kind, es).Success?
    ensures Indexed(es)
    ensures var a := AddEntities(acc, key, kind, es).value;
      && a.locations == acc.locations + (if kind == Location then AttrSpans(es, "locType") else [])
      && a.persons == acc.persons + (if kind == Person then AttrSpans(es, "gender") else [])
      && a.userIds == acc.userIds + (if kind == UserId then Spans(es) else [])
      && a.urls == acc.urls + (if kind == Url || kind == Organization then Spans(es) else [])
    decreases |es|
  {
    if es == [] {
      assert acc.locations + [] == acc.locations;
      assert acc.persons + [] == acc.persons;
      assert acc.userIds + [] == acc.userIds;
      assert acc.urls + [] == acc.urls;
    } else {
      var es' := es[..|es| - 1];
      AddEntitiesEffect(acc, key, kind, es');
      assert Indexed(es) by {
        assert forall i :: 0 <= i < |es'| ==> es'[i] == es[i];
      }
      var e := es[|es| - 1];
      assert AddEntities(acc, key, kind, es).value == AddEntity(AddEntities(acc, key, kind, es').value, kind, e);
      assert Spans(es) == Spans(es') + [SpanOf(e)];
      assert AttrSpans(es, "locType") == AttrSpans(es', "locType") + [AttrSpanOf(e, "locType")];
      assert AttrSpans(es, "gender") == AttrSpans(es', "gender") + [AttrSpanOf(e, "gender")];
    }
  }

  /**
   * Location entities become `(indices[0], indices[-1], locType or 'na')`,
   * Person entities `(indices[0], indices[-1], gender or 'na')`, UserID
   * entities `(indices[0], indices[-1])` and both URL and Organization
   * entities `(indices[0], indices[-1])` in the URL list; all in key order and
   * then entity order. A key whose branch is none of these contributes nothing.
   */
  lemma GetEntitiesGrouped(entities: map<string, seq<Entity>>, keys: seq<string>)
    requires EntitiesSpec(entities, keys).Success?
    ensures Indexed(OfKinds(entities, keys, {Location}))
    ensures Indexed(OfKinds(entities, keys, {Person}))
    ensures Indexed(OfKinds(entities, keys, {UserId}))
    ensures Indexed(OfKinds(entities, keys, {Url, Organization}))
    ensures var l := EntitiesSpec(entities, keys).value;
      && l.locations == AttrSpans(OfKinds(entities, keys, {Location}), "locType")
      && l.persons == AttrSpans(OfKinds(entities, keys, {Person}), "gender")
      && l.userIds == Spans(OfKinds(entities, keys, {UserId}))
      && l.urls == Spans(OfKinds(entities, keys, {Url, Organization}))
  {
    GroupedLocations(entities, keys);
    GroupedPersons(entities, keys);
    GroupedUserIds(entities, keys);
    GroupedUrls(entities, keys);
  }

  /** The entities a key contributes when the key does not raise. */
  function KeyEntities(entities: map<string, seq<Entity>>, key: string): seq<Entity>
  {
    if KindOf(key) != Ignored && key in entities then entities[key] else []
  }

  /** What the last key adds to each list. */
  lemma SpecStep(entities: map<string, seq<Entity>>, keys: seq<string>)
    requires keys != [] && EntitiesSpec(entities, keys).Success?
    ensures EntitiesSpec(entities, keys[..|keys| - 1]).Success?
    ensures Indexed(KeyEntities(entities, keys[|keys| - 1]))
    ensures var kind, es := KindOf(keys[|keys| - 1]), KeyEntities(entities, keys[|keys| - 1]);
      var acc, l := EntitiesSpec(entities, keys[..|keys| - 1]).value, EntitiesSpec(entities, keys).value;
      && l.locations == acc.locations + (if kind == Location then AttrSpans(es, "locType") else [])
      && l.persons == acc.persons + (if kind == Person then AttrSpans(es, "gender") else [])
      && l.userIds == acc.userIds + (if kind == UserId then Spans(es) else [])
      && l.urls == acc.urls + (if kind == Url || kind == Organization then Spans(es) else [])
  {
    var k := keys[|keys| - 1];
    var acc := EntitiesSpec(entities, keys[..|keys| - 1]).value;
    if KindOf(k) != Ignored {
      AddEntitiesEffect(acc, k, KindOf(k), entities[k]);
    } else {
      assert acc.locations + [] == acc.locations && acc.persons + [] == acc.persons;
      assert acc.userIds + [] == acc.userIds && acc.urls + [] == acc.urls;
    }
  }

  lemma {:induction false} GroupedLocations(entities: map<string, seq<Entity>>, keys: seq<string>)
    requires EntitiesSpec(entities, keys).Success?
    ensures Indexed(OfKinds(entities, keys, {Location}))
    ensures EntitiesSpec(entities, keys).value.locations == AttrSpans(OfKinds(entities, keys, {Location}), "locType")
    decreases |keys|
  {
    if keys != [] {
      var prefix, k := keys[..|keys| - 1], keys[|keys| - 1];
      SpecStep(entities, keys);
      GroupedLocations(entities, prefix);
      OfKindsLast(entities, keys, {Location});
      var x := if KindOf(k) == Location then KeyEntities(entities, k) else [];
      assert OfKinds(entities, keys, {Location}) == OfKinds(entities, prefix, {Location}) + x;
      TuplesAppend(OfKinds(entities, prefix, {Location}), x, "locType");
    }
  }

  lemma {:induction false} GroupedPersons(entities: map<string, seq<Entity>>, keys: seq<string>)
    requires EntitiesSpec(entities, keys).Success?
    ensures Indexed(OfKinds(entities, keys, {Person}))
    ensures EntitiesSpec(entities, keys).value.persons == AttrSpans(OfKinds(entities, keys, {Person}), "gender")
    decreases |keys|
  {
    if keys != [] {
      var prefix, k := keys[..|keys| - 1], keys[|keys| - 1];
      SpecStep(entities, keys);
      GroupedPersons(entities, prefix);
      OfKindsLast(entities, keys, {Person});
      var x := if KindOf(k) == Person then KeyEntities(entities, k) else [];
      assert OfKinds(entities, keys, {Person}) == OfKinds(entities, prefix, {Person}) + x;
      TuplesAppend(OfKinds(entities, prefix, {Person}), x, "gender");
    }
  }

  lemma {:induction false} GroupedUserIds(entities: map<string, seq<Entity>>, keys: seq<string>)
    requires EntitiesSpec(entities, keys).Success?
    ensures Indexed(OfKinds(entities, keys, {UserId}))
    ensures EntitiesSpec(entities, keys).value.userIds == Spans(OfKinds(entities, keys, {UserId}))
    decreases |keys|
  {
    if keys != [] {
      var prefix, k := keys[..|keys| - 1], keys[|keys| - 1];
      SpecStep(entities, keys);
      GroupedUserIds(entities, prefix);
      OfKindsLast(entities, keys, {UserId});
      var x := if KindOf(k) == UserId then KeyEntities(entities, k) else [];
      assert OfKinds(entities, keys, {UserId}) == OfKinds(entities, prefix, {UserId}) + x;
      TuplesAppend(OfKinds(entities, prefix, {UserId}), x, "");
    }
  }

  lemma {:induction false} GroupedUrls(entities: map<string, seq<Entity>>, keys: seq<string>)
    requires EntitiesSpec(entities, keys).Success?
    ensures Indexed(OfKinds(entities, keys, {Url, Organization}))
    ensures EntitiesSpec(entities, keys).value.urls == Spans(OfKinds(entities, keys, {Url, Organization}))
    decreases |keys|
  {
    if keys != [] {
      var prefix, k := keys[..|keys| - 1], keys[|keys| - 1];
      SpecStep(entities, keys);
      GroupedUrls(entities, prefix);
      OfKindsLast(entities, keys, {Url, Organization});
      var x := if KindOf(k) == Url || KindOf(k) == Organization then KeyEntities(entities, k) else [];
      assert OfKinds(entities, keys, {Url, Organization}) == OfKinds(entities, prefix, {Url, Organization}) + x;
      TuplesAppend(OfKinds(entities, prefix, {Url, Organization}), x, "");
    }
  }

  // ---------------------------------------------------------------------
  // When get_entities raises
  // ---------------------------------------------------------------------

  /** The key takes a branch and its lookup or one of its entities raises. */
  predicate KeyFails(entities: map<string, seq<Entity>>, key: string)
  {
    KindOf(key) != Ignored
    && (key !in entities || exists i :: 0 <= i < |entities[key]| && entities[key][i].indices == [])
  }

  lemma {:induction false} AddEntitiesFails(acc: EntityLists, key: string, kind: Kind, es: seq<Entity>)
    ensures AddEntities(acc, key, kind, es).Failure? <==> exists i :: 0 <= i < |es| && es[i].indices == []
    ensures AddEntities(acc, key, kind, es).Failure? ==> AddEntities(acc, key, kind, es).error == EmptyIndices(key)
    decreases |es|
  {
    if es != [] {
      var es' := es[..|es| - 1];
      AddEntitiesFails(acc, key, kind, es');
      if i :| 0 <= i < |es'| && es'[i].indices == [] {
        assert es[i].indices == [];
      }
      if i :| 0 <= i < |es| && es[i].indices == [] {
        if i < |es'| {
          assert es'[i].indices == [];
        }
      }
    }
  }

  /**
   * `get_entities` raises exactly when some key takes a branch and is missing
   * from the response or has an entity with an empty `indices` list; the
   * exception is the one of the first such key: `KeyError` when it is missing,
   * `IndexError` otherwise.
   */
  lemma {:induction false} GetEntitiesFails(entities: map<string, seq<Entity>>, keys: seq<string>)
    ensures EntitiesSpec(entities, keys).Failure? <==> exists i :: 0 <= i < |keys| && KeyFails(entities, keys[i])
    ensures EntitiesSpec(entities, keys).Failure? ==>
      exists i :: 0 <= i < |keys| && KeyFails(entities, keys[i])
        && EntitiesSpec(entities, keys).error
             == (if keys[i] !in entities then MissingKey(keys[i]) else EmptyIndices(keys[i]))
        && forall j :: 0 <= j < i ==> !KeyFails(entities, keys[j])
    decreases |keys|
  {
    if keys != [] {
      var prefix, k := keys[..|keys| - 1], keys[|keys| - 1];
      GetEntitiesFails(entities, prefix);
      assert forall i :: 0 <= i < |prefix| ==> prefix[i] == keys[i];
      match EntitiesSpec(entities, prefix)
      case Failure(err) =>
        var i :| 0 <= i < |prefix| && KeyFails(entities, prefix[i])
          && err == (if prefix[i] !in entities then MissingKey(prefix[i]) else EmptyIndices(prefix[i]))
          && forall j :: 0 <= j < i ==> !KeyFails(entities, prefix[j]);
        assert KeyFails(entities, keys[i]);
      case Success(acc) =>
        assert forall i :: 0 <= i < |prefix| ==> !KeyFails(entities, keys[i]);
        if KindOf(k) != Ignored && k in entities {
          AddEntitiesFails(acc, k, KindOf(k), entities[k]);
        }
        assert KeyFails(entities, k) <==> EntitiesSpec(entities, keys).Failure?;
    }
  }
}
