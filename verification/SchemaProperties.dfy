/**
 * What a resolved schema looks like: which references can be left in it, and which properties of
 * its parts a schema has.
 */
module SchemaProperties {
  import opened Basics
  import opened SchemaResolver

  // ---------------------------------------------------------------- predicates on resolved schemas

  /** No reference is left anywhere below s. */
  predicate NoRefBelow(s: Schema)
    decreases s, 0
  {
    && (forall k :: k in s.properties ==> NoRefAt(s.properties[k]))
    && (s.items.Some? ==> NoRefAt(s.items.value))
    && (forall i :: 0 <= i < |s.allOf| ==> NoRefAt(s.allOf[i]))
    && (forall i :: 0 <= i < |s.oneOf| ==> NoRefAt(s.oneOf[i]))
    && (s.additional.Some? ==> NoRefAt(s.additional.value))
  }

  predicate NoRefAt(c: Schema)
    decreases c, 1
  {
    c.ref == "" && NoRefBelow(c)
  }

  /** At every depth, a schema has all property keys of the parts it lists. */
  predicate Composed(s: Schema) {
    && (forall k :: k in s.properties ==> Composed(s.properties[k]))
    && (s.items.Some? ==> Composed(s.items.value))
    && (forall i :: 0 <= i < |s.allOf| ==> s.allOf[i].properties.Keys <= s.properties.Keys && Composed(s.allOf[i]))
    && (forall i :: 0 <= i < |s.oneOf| ==> s.oneOf[i].properties.Keys <= s.properties.Keys && Composed(s.oneOf[i]))
    && (s.additional.Some? ==> Composed(s.additional.value))
  }

  /** The property keys of a schema, of its parts, of their parts, and so on. */
  function TransitiveKeys(s: Schema): set<string> {
    s.properties.Keys
    + (set i, k | 0 <= i < |s.allOf| && k in TransitiveKeys(s.allOf[i]) :: k)
    + (set i, k | 0 <= i < |s.oneOf| && k in TransitiveKeys(s.oneOf[i]) :: k)
  }

  /** In a composed schema the keys of transitive parts are keys of the schema itself. */
  lemma {:induction false} ComposedHasTransitiveKeys(s: Schema)
    requires Composed(s)
    ensures TransitiveKeys(s) == s.properties.Keys
  {
    forall i | 0 <= i < |s.allOf| ensures TransitiveKeys(s.allOf[i]) <= s.properties.Keys {
      ComposedHasTransitiveKeys(s.allOf[i]);
    }
    forall i | 0 <= i < |s.oneOf| ensures TransitiveKeys(s.oneOf[i]) <= s.properties.Keys {
      ComposedHasTransitiveKeys(s.oneOf[i]);
    }
  }

  // ---------------------------------------------------------------- merging

  /** The last part that has a property, or -1. */
  function LastWith(parts: seq<Part>, k: string): (i: int)
    ensures -1 <= i < |parts| && (i >= 0 ==> k in parts[i].resolved.properties)
    ensures forall j :: i < j < |parts| ==> k !in parts[j].resolved.properties
  {
    if parts == [] then -1
    else if k in parts[|parts| - 1].resolved.properties then |parts| - 1
    else LastWith(parts[..|parts| - 1], k)
  }

  /** After merging, a property comes from the last part that has it, and is marked as inherited from it. */
  lemma {:induction false} MergedProperty(props: map<string, Schema>, parts: seq<Part>, k: string)
    ensures k in MergeAll(props, parts) <==> k in props || LastWith(parts, k) >= 0
    ensures LastWith(parts, k) >= 0 ==>
      var part := parts[LastWith(parts, k)].resolved;
      MergeAll(props, parts)[k] == part.properties[k].(inheritedFrom := part.title)
    ensures LastWith(parts, k) < 0 && k in props ==> MergeAll(props, parts)[k] == props[k]
  {
    if parts != [] {
      MergedProperty(props, parts[..|parts| - 1], k);
    }
  }

  /** A property of a composed schema: from the last oneOf part, else the last allOf part, else its own. */
  lemma ComposedProperty(own: Schema, all: seq<Part>, one: seq<Part>, k: string)
    ensures
      var r := Compose(own, all, one).properties;
      && (k in r <==> k in own.properties || LastWith(all, k) >= 0 || LastWith(one, k) >= 0)
      && (LastWith(one, k) >= 0 ==> r[k] == Inherited(one[LastWith(one, k)].resolved)[k])
      && (LastWith(one, k) < 0 && LastWith(all, k) >= 0 ==> r[k] == Inherited(all[LastWith(all, k)].resolved)[k])
      && (LastWith(one, k) < 0 && LastWith(all, k) < 0 && k in own.properties ==> r[k] == own.properties[k])
  {
    MergedProperty(own.properties, all, k);
    MergedProperty(MergeAll(own.properties, all), one, k);
  }

  lemma InheritedUnchanged(c: Schema, from: string)
    ensures NoRefAt(c.(inheritedFrom := from)) == NoRefAt(c)
    ensures Composed(c.(inheritedFrom := from)) == Composed(c)
  {
  }

  // ---------------------------------------------------------------- composition

  /** Composing parts that are themselves composed gives a composed schema. */
  lemma ComposeComposed(own: Schema, all: seq<Part>, one: seq<Part>, additional: Option<Schema>)
    requires forall k :: k in own.properties ==> Composed(own.properties[k])
    requires own.items.Some? ==> Composed(own.items.value)
    requires forall i :: 0 <= i < |all| ==> Composed(all[i].resolved)
    requires forall i :: 0 <= i < |one| ==> Composed(one[i].resolved)
    requires additional.Some? ==> Composed(additional.value)
    ensures Composed(Compose(own, all, one).(additional := additional))
  {
    var r := Compose(own, all, one).(additional := additional);
    forall k | k in r.properties ensures Composed(r.properties[k]) {
      ComposedProperty(own, all, one, k);
      if LastWith(one, k) >= 0 {
        var part := one[LastWith(one, k)].resolved;
        InheritedUnchanged(part.properties[k], part.title);
      } else if LastWith(all, k) >= 0 {
        var part := all[LastWith(all, k)].resolved;
        InheritedUnchanged(part.properties[k], part.title);
      }
    }
    forall i | 0 <= i < |r.allOf| ensures r.allOf[i].properties.Keys <= r.properties.Keys {
      forall k | k in r.allOf[i].properties ensures k in r.properties { ComposedProperty(own, all, one, k); }
    }
    forall i | 0 <= i < |r.oneOf| ensures r.oneOf[i].properties.Keys <= r.properties.Keys {
      forall k | k in r.oneOf[i].properties ensures k in r.properties { ComposedProperty(own, all, one, k); }
    }
  }

  lemma PropertyPlaces(root: Root, rank: map<string, nat>, h: nat, s: Schema, p: Places)
    requires Ranked(root, rank) && RefsBelow(root, rank, s, h) && p == PlacesOf(root, rank, h, s) && p.OwnComplete()
    ensures p.properties.Keys == s.properties.Keys
    ensures forall k :: k in s.properties ==> Place(root, rank, h, s.properties[k]) == Some(p.properties[k].value)
  {
  }

  /** cs are places of s, and references below them stay below h. */
  ghost predicate PartsOf(root: Root, rank: map<string, nat>, h: nat, s: Schema, cs: seq<Schema>)
    requires Ranked(root, rank)
  {
    forall i :: 0 <= i < |cs| ==> cs[i] < s && PlaceBelow(root, rank, cs[i], h)
  }

  /** The places cs of s hold the resolved parts. */
  ghost predicate StandAt(root: Root, rank: map<string, nat>, h: nat, s: Schema, cs: seq<Schema>, parts: seq<Part>)
    requires Ranked(root, rank)
  {
    && PartsOf(root, rank, h, s, cs) && |parts| == |cs|
    && forall i :: 0 <= i < |cs| ==> Place(root, rank, h, cs[i]) == Some(parts[i])
  }

  lemma PartPlaces(root: Root, rank: map<string, nat>, h: nat, s: Schema, p: Places)
    requires Ranked(root, rank) && RefsBelow(root, rank, s, h) && p == PlacesOf(root, rank, h, s) && AllSome(p.allOf) && AllSome(p.oneOf)
    ensures StandAt(root, rank, h, s, s.allOf, Values(p.allOf)) && StandAt(root, rank, h, s, s.oneOf, Values(p.oneOf))
  {
    forall i | 0 <= i < |s.allOf| ensures Place(root, rank, h, s.allOf[i]) == Some(Values(p.allOf)[i]) {
      assert p.allOf[i] == Place(root, rank, h, s.allOf[i]);
    }
    forall i | 0 <= i < |s.oneOf| ensures Place(root, rank, h, s.oneOf[i]) == Some(Values(p.oneOf)[i]) {
      assert p.oneOf[i] == Place(root, rank, h, s.oneOf[i]);
    }
  }

  lemma OptionPlaces(root: Root, rank: map<string, nat>, h: nat, s: Schema, p: Places)
    requires Ranked(root, rank) && RefsBelow(root, rank, s, h) && p == PlacesOf(root, rank, h, s) && p.items.Some? && p.additional.Some?
    ensures s.items.Some? <==> p.items.value.Some?
    ensures s.items.Some? ==> Place(root, rank, h, s.items.value).Some?
    ensures s.items.Some? ==> p.items.value.value == Place(root, rank, h, s.items.value).value.resolved
    ensures s.additional.Some? <==> p.additional.value.Some?
    ensures s.additional.Some? ==> Place(root, rank, h, s.additional.value).Some?
    ensures s.additional.Some? ==> p.additional.value.value == Place(root, rank, h, s.additional.value).value.resolved
  {
  }

  lemma CompletePlaces(root: Root, rank: map<string, nat>, h: nat, s: Schema) returns (p: Places)
    requires Ranked(root, rank) && RefsBelow(root, rank, s, h) && Resolve(root, rank, h, s).Some?
    ensures p == PlacesOf(root, rank, h, s) && p.Complete()
    ensures Resolve(root, rank, h, s).value == Compose(Own(s, p), Values(p.allOf), Values(p.oneOf)).(additional := p.additional.value)
  {
    p := PlacesOf(root, rank, h, s);
    assert Resolve(root, rank, h, s) == Finish(s, p);
  }

  lemma {:induction false} PlaceComposed(root: Root, rank: map<string, nat>, h: nat, c: Schema)
    requires Ranked(root, rank) && PlaceBelow(root, rank, c, h) && Place(root, rank, h, c).Some?
    ensures Composed(Place(root, rank, h, c).value.resolved)
    decreases h, c, 2
  {
    if c.ref == "" {
      ResolvedComposed(root, rank, h, c);
    } else {
      ResolvedComposed(root, rank, rank[c.ref[1..]], ResolveReference(c.ref, root).value);
    }
  }

  lemma {:induction false} PartsComposed(root: Root, rank: map<string, nat>, h: nat, s: Schema, cs: seq<Schema>, parts: seq<Part>)
    requires Ranked(root, rank) && StandAt(root, rank, h, s, cs, parts)
    ensures forall i :: 0 <= i < |parts| ==> Composed(parts[i].resolved)
    decreases h, s, 0
  {
    forall i | 0 <= i < |cs| ensures Composed(parts[i].resolved) {
      PlaceComposed(root, rank, h, cs[i]);
    }
  }

  lemma {:induction false} OwnComposed(root: Root, rank: map<string, nat>, h: nat, s: Schema, p: Places)
    requires Ranked(root, rank) && RefsBelow(root, rank, s, h) && p == PlacesOf(root, rank, h, s) && p.Complete()
    ensures forall k :: k in Own(s, p).properties ==> Composed(Own(s, p).properties[k])
    ensures Own(s, p).items.Some? ==> Composed(Own(s, p).items.value)
    ensures p.additional.value.Some? ==> Composed(p.additional.value.value)
    decreases h, s, 0
  {
    PropertyPlaces(root, rank, h, s, p);
    OptionPlaces(root, rank, h, s, p);
    forall k | k in s.properties ensures Composed(Own(s, p).properties[k]) {
      PlaceComposed(root, rank, h, s.properties[k]);
    }
    if s.items.Some? { PlaceComposed(root, rank, h, s.items.value); }
    if s.additional.Some? { PlaceComposed(root, rank, h, s.additional.value); }
  }

  /** Composition closure: every resolved schema is composed, at every depth. */
  lemma {:induction false} ResolvedComposed(root: Root, rank: map<string, nat>, h: nat, s: Schema)
    requires Ranked(root, rank) && RefsBelow(root, rank, s, h) && Resolve(root, rank, h, s).Some?
    ensures Composed(Resolve(root, rank, h, s).value)
    decreases h, s, 1
  {
    var p := CompletePlaces(root, rank, h, s);
    PartPlaces(root, rank, h, s, p);
    OwnComposed(root, rank, h, s, p);
    PartsComposed(root, rank, h, s, s.allOf, Values(p.allOf));
    PartsComposed(root, rank, h, s, s.oneOf, Values(p.oneOf));
    ComposeComposed(Own(s, p), Values(p.allOf), Values(p.oneOf), p.additional.value);
  }

  // ---------------------------------------------------------------- required names

  /** c is a reference into the document, and leads to a definition. */
  predicate Points(root: Root, c: Schema) {
    c.ref != "" && c.ref[0] == '#' && c.ref[1..] in root
  }

  /** What the definitions or schemas at the given places require as they are in the document. */
  function RequiredAt(root: Root, cs: seq<Schema>): seq<string> {
    if cs == [] then []
    else
      var last := cs[|cs| - 1];
      RequiredAt(root, cs[..|cs| - 1]) +
      if last.ref == "" then last.required else if Points(root, last) then root[last.ref[1..]].required else []
  }

  lemma PlaceLoads(root: Root, rank: map<string, nat>, h: nat, c: Schema, part: Part)
    requires Ranked(root, rank) && PlaceBelow(root, rank, c, h) && Place(root, rank, h, c) == Some(part)
    ensures Loaded(c, root) == Ok(part.loaded)
  {
  }

  lemma PartsLoad(root: Root, rank: map<string, nat>, h: nat, s: Schema, cs: seq<Schema>, parts: seq<Part>)
    requires Ranked(root, rank) && StandAt(root, rank, h, s, cs, parts)
    ensures RequiredOf(parts) == RequiredAt(root, cs)
  {
    forall i | 0 <= i < |cs| ensures Loaded(cs[i], root) == Ok(parts[i].loaded) {
      PlaceLoads(root, rank, h, cs[i], parts[i]);
    }
    RequiredOfLoaded(root, cs, parts);
  }

  lemma {:induction false} RequiredOfLoaded(root: Root, cs: seq<Schema>, parts: seq<Part>)
    requires |parts| == |cs| && forall i :: 0 <= i < |cs| ==> Loaded(cs[i], root) == Ok(parts[i].loaded)
    ensures RequiredOf(parts) == RequiredAt(root, cs)
  {
    if cs != [] {
      RequiredOfLoaded(root, cs[..|cs| - 1], parts[..|parts| - 1]);
    }
  }

  /**
   * Required names rise one level only: a resolved schema requires what it required itself and
   * what its direct parts require, but nothing that only a part of a part requires.
   */
  lemma RequiredRisesOneLevel(root: Root, rank: map<string, nat>, h: nat, s: Schema)
    requires Ranked(root, rank) && RefsBelow(root, rank, s, h) && Resolve(root, rank, h, s).Some?
    ensures Resolve(root, rank, h, s).value.required == s.required + RequiredAt(root, s.allOf) + RequiredAt(root, s.oneOf)
  {
    var p := CompletePlaces(root, rank, h, s);
    PartPlaces(root, rank, h, s, p);
    PartsLoad(root, rank, h, s, s.allOf, Values(p.allOf));
    PartsLoad(root, rank, h, s, s.oneOf, Values(p.oneOf));
  }

  // ---------------------------------------------------------------- references that stay

  /** The keys of the properties that the parts of a schema bring along. */
  function PartKeys(root: Root, rank: map<string, nat>, h: nat, s: Schema): set<string>
    requires Ranked(root, rank) && RefsBelow(root, rank, s, h)
    decreases h, s, 1
  {
    KeysOf(root, rank, h, s, s.allOf) + KeysOf(root, rank, h, s, s.oneOf)
  }

  function KeysOf(root: Root, rank: map<string, nat>, h: nat, s: Schema, cs: seq<Schema>): set<string>
    requires Ranked(root, rank) && PartsOf(root, rank, h, s, cs)
    decreases h, s, 0
  {
    set i, k | 0 <= i < |cs| && k in KeysAt(root, rank, h, cs[i]) :: k
  }

  function KeysAt(root: Root, rank: map<string, nat>, h: nat, c: Schema): set<string>
    requires Ranked(root, rank) && PlaceBelow(root, rank, c, h)
    decreases h, c, 2
  {
    if c.ref == "" then c.properties.Keys + PartKeys(root, rank, h, c)
    else if Points(root, c) then
      var definition := root[c.ref[1..]];
      definition.properties.Keys + PartKeys(root, rank, rank[c.ref[1..]], definition)
    else {}
  }

  /** The title that a copy of a definition gets matters neither to its keys nor to the references below it. */
  lemma TitleLeavesKeys(root: Root, rank: map<string, nat>, h: nat, s: Schema, title: string)
    requires Ranked(root, rank) && RefsBelow(root, rank, s, h)
    ensures RefsBelow(root, rank, s.(title := title), h)
    ensures PartKeys(root, rank, h, s.(title := title)) == PartKeys(root, rank, h, s)
  {
    var t := s.(title := title);
    assert KeysOf(root, rank, h, t, t.allOf) == KeysOf(root, rank, h, s, s.allOf);
    assert KeysOf(root, rank, h, t, t.oneOf) == KeysOf(root, rank, h, s, s.oneOf);
  }

  lemma TitleLeavesReferences(root: Root, rank: map<string, nat>, h: nat, s: Schema, title: string)
    requires Ranked(root, rank) && RefsBelow(root, rank, s, h)
    ensures RefsBelow(root, rank, s.(title := title), h)
    ensures Chased(root, rank, h, s.(title := title)) == Chased(root, rank, h, s)
  {
    var t := s.(title := title);
    TitleLeavesKeys(root, rank, h, s, title);
    assert PropertiesAreChased(root, rank, h, t) == PropertiesAreChased(root, rank, h, s);
    assert PartsAreChased(root, rank, h, t, t.allOf) == PartsAreChased(root, rank, h, s, s.allOf);
    assert PartsAreChased(root, rank, h, t, t.oneOf) == PartsAreChased(root, rank, h, s, s.oneOf);
  }

  /**
   * No reference that resolving follows and that leaves a trace leads to a definition that is
   * itself a bare reference. A property that some part brings along leaves no trace.
   */
  predicate Chased(root: Root, rank: map<string, nat>, h: nat, s: Schema)
    requires Ranked(root, rank) && RefsBelow(root, rank, s, h)
    decreases h, s, 1
  {
    && PropertiesAreChased(root, rank, h, s)
    && PartsAreChased(root, rank, h, s, s.allOf) && PartsAreChased(root, rank, h, s, s.oneOf)
    && (s.items.Some? ==> ChasedAt(root, rank, h, s.items.value))
    && (s.additional.Some? ==> ChasedAt(root, rank, h, s.additional.value))
  }

  predicate PropertiesAreChased(root: Root, rank: map<string, nat>, h: nat, s: Schema)
    requires Ranked(root, rank) && RefsBelow(root, rank, s, h)
    decreases h, s, 0
  {
    forall k :: k in s.properties && k !in PartKeys(root, rank, h, s) ==> ChasedAt(root, rank, h, s.properties[k])
  }

  predicate PartsAreChased(root: Root, rank: map<string, nat>, h: nat, s: Schema, cs: seq<Schema>)
    requires Ranked(root, rank) && PartsOf(root, rank, h, s, cs)
    decreases h, s, 0
  {
    forall i :: 0 <= i < |cs| ==> ChasedAt(root, rank, h, cs[i])
  }

  predicate ChasedAt(root: Root, rank: map<string, nat>, h: nat, c: Schema)
    requires Ranked(root, rank) && PlaceBelow(root, rank, c, h)
    decreases h, c, 2
  {
    if c.ref == "" then Chased(root, rank, h, c)
    else Points(root, c) ==> root[c.ref[1..]].ref == "" && Chased(root, rank, rank[c.ref[1..]], root[c.ref[1..]])
  }

  lemma {:induction false} PlaceKeys(root: Root, rank: map<string, nat>, h: nat, c: Schema)
    requires Ranked(root, rank) && PlaceBelow(root, rank, c, h) && Place(root, rank, h, c).Some?
    ensures Place(root, rank, h, c).value.resolved.properties.Keys == KeysAt(root, rank, h, c)
    decreases h, c, 3
  {
    if c.ref == "" {
      ResolvedKeys(root, rank, h, c);
    } else {
      ResolvedKeys(root, rank, rank[c.ref[1..]], ResolveReference(c.ref, root).value);
      TitleLeavesKeys(root, rank, rank[c.ref[1..]], root[c.ref[1..]], Base(c.ref[1..]));
    }
  }

  lemma ComposedKeys(own: Schema, all: seq<Part>, one: seq<Part>, parts: set<string>)
    requires forall k :: k in parts <==> LastWith(all, k) >= 0 || LastWith(one, k) >= 0
    ensures Compose(own, all, one).properties.Keys == own.properties.Keys + parts
  {
    forall k ensures k in Compose(own, all, one).properties <==> k in own.properties || k in parts {
      ComposedProperty(own, all, one, k);
    }
  }

  /** A resolved schema has its own property keys and those of its parts, and no others. */
  lemma {:induction false} ResolvedKeys(root: Root, rank: map<string, nat>, h: nat, s: Schema)
    requires Ranked(root, rank) && RefsBelow(root, rank, s, h) && Resolve(root, rank, h, s).Some?
    ensures Resolve(root, rank, h, s).value.properties.Keys == s.properties.Keys + PartKeys(root, rank, h, s)
    decreases h, s, 2
  {
    var p := CompletePlaces(root, rank, h, s);
    PropertyPlaces(root, rank, h, s, p);
    PartsWithKey(root, rank, h, s, p);
    ComposedKeys(Own(s, p), Values(p.allOf), Values(p.oneOf), PartKeys(root, rank, h, s));
  }

  /** The resolved parts cs of s have the keys of their places. */
  lemma {:induction false} KeysOfParts(root: Root, rank: map<string, nat>, h: nat, s: Schema, cs: seq<Schema>, parts: seq<Part>)
    requires Ranked(root, rank) && StandAt(root, rank, h, s, cs, parts)
    ensures forall k :: k in KeysOf(root, rank, h, s, cs) <==> LastWith(parts, k) >= 0
    decreases h, s, 0
  {
    forall i | 0 <= i < |cs| ensures parts[i].resolved.properties.Keys == KeysAt(root, rank, h, cs[i]) {
      PlaceKeys(root, rank, h, cs[i]);
    }
    forall k ensures k in KeysOf(root, rank, h, s, cs) <==> LastWith(parts, k) >= 0 {
      SomePartHas(parts, k);
    }
  }

  /** A key comes from a part exactly when some resolved part has it. */
  lemma {:induction false} PartsWithKey(root: Root, rank: map<string, nat>, h: nat, s: Schema, p: Places)
    requires Ranked(root, rank) && RefsBelow(root, rank, s, h) && p == PlacesOf(root, rank, h, s) && p.Complete()
    ensures forall k :: k in PartKeys(root, rank, h, s) <==> LastWith(Values(p.allOf), k) >= 0 || LastWith(Values(p.oneOf), k) >= 0
    decreases h, s, 1
  {
    PartPlaces(root, rank, h, s, p);
    KeysOfParts(root, rank, h, s, s.allOf, Values(p.allOf));
    KeysOfParts(root, rank, h, s, s.oneOf, Values(p.oneOf));
  }

  lemma SomePartHas(parts: seq<Part>, k: string)
    ensures LastWith(parts, k) >= 0 <==> exists i :: 0 <= i < |parts| && k in parts[i].resolved.properties.Keys
  {
  }

  lemma {:induction false} PlaceChased(root: Root, rank: map<string, nat>, h: nat, c: Schema)
    requires Ranked(root, rank) && PlaceBelow(root, rank, c, h) && Place(root, rank, h, c).Some?
    ensures NoRefAt(Place(root, rank, h, c).value.resolved) <==> ChasedAt(root, rank, h, c)
    decreases h, c, 4
  {
    if c.ref == "" {
      NoRefExactlyWhenChased(root, rank, h, c);
    } else {
      NoRefExactlyWhenChased(root, rank, rank[c.ref[1..]], ResolveReference(c.ref, root).value);
      TitleLeavesReferences(root, rank, rank[c.ref[1..]], root[c.ref[1..]], Base(c.ref[1..]));
    }
  }

  ghost predicate OwnNoRef(own: Schema, all: seq<Part>, one: seq<Part>) {
    forall k :: k in own.properties && LastWith(all, k) < 0 && LastWith(one, k) < 0 ==> NoRefAt(own.properties[k])
  }

  ghost predicate PartsNoRef(parts: seq<Part>) {
    forall i :: 0 <= i < |parts| ==> NoRefAt(parts[i].resolved)
  }

  lemma InheritedNoRef(parts: seq<Part>, k: string)
    requires PartsNoRef(parts) && LastWith(parts, k) >= 0
    ensures NoRefAt(Inherited(parts[LastWith(parts, k)].resolved)[k])
  {
    var part := parts[LastWith(parts, k)].resolved;
    assert NoRefAt(part) && NoRefBelow(part) && NoRefAt(part.properties[k]);
    InheritedUnchanged(part.properties[k], part.title);
  }

  lemma MergedNoRef(own: Schema, all: seq<Part>, one: seq<Part>)
    requires PartsNoRef(all) && PartsNoRef(one)
    ensures OwnNoRef(own, all, one) <==>
      forall k :: k in Compose(own, all, one).properties ==> NoRefAt(Compose(own, all, one).properties[k])
  {
    var r := Compose(own, all, one).properties;
    forall k ensures k in own.properties && LastWith(all, k) < 0 && LastWith(one, k) < 0 ==> k in r && r[k] == own.properties[k] {
      ComposedProperty(own, all, one, k);
    }
    if OwnNoRef(own, all, one) {
      forall k | k in r ensures NoRefAt(r[k]) {
        ComposedProperty(own, all, one, k);
        if LastWith(one, k) >= 0 {
          InheritedNoRef(one, k);
        } else if LastWith(all, k) >= 0 {
          InheritedNoRef(all, k);
        }
      }
    }
  }

  /** Merging leaves a reference exactly when the parts, the items or an own property not replaced has one. */
  lemma ComposeNoRef(own: Schema, all: seq<Part>, one: seq<Part>, additional: Option<Schema>)
    ensures NoRefBelow(Compose(own, all, one).(additional := additional)) <==> PiecesNoRef(own, all, one, additional)
  {
    var r := Compose(own, all, one).(additional := additional);
    assert (forall i :: 0 <= i < |all| ==> r.allOf[i] == all[i].resolved) && forall i :: 0 <= i < |one| ==> r.oneOf[i] == one[i].resolved;
    if PartsNoRef(all) && PartsNoRef(one) {
      MergedNoRef(own, all, one);
    }
  }

  lemma {:induction false} PropertiesChased(root: Root, rank: map<string, nat>, h: nat, s: Schema, p: Places)
    requires Ranked(root, rank) && RefsBelow(root, rank, s, h) && Resolve(root, rank, h, s).Some? && p == PlacesOf(root, rank, h, s)
    ensures p.Complete()
    ensures OwnNoRef(Own(s, p), Values(p.allOf), Values(p.oneOf)) <==> PropertiesAreChased(root, rank, h, s)
    decreases h, s, 0
  {
    var _ := CompletePlaces(root, rank, h, s);
    PropertyPlaces(root, rank, h, s, p);
    PartsWithKey(root, rank, h, s, p);
    forall k | k in s.properties
      ensures NoRefAt(Own(s, p).properties[k]) <==> ChasedAt(root, rank, h, s.properties[k])
    {
      PlaceChased(root, rank, h, s.properties[k]);
    }
  }

  /** The resolved parts cs of s are free of references exactly when their places are chased. */
  lemma {:induction false} PartsChased(root: Root, rank: map<string, nat>, h: nat, s: Schema, cs: seq<Schema>, parts: seq<Part>)
    requires Ranked(root, rank) && StandAt(root, rank, h, s, cs, parts)
    ensures PartsNoRef(parts) <==> PartsAreChased(root, rank, h, s, cs)
    decreases h, s, 0
  {
    forall i | 0 <= i < |cs| ensures NoRefAt(parts[i].resolved) <==> ChasedAt(root, rank, h, cs[i]) {
      PlaceChased(root, rank, h, cs[i]);
    }
  }

  lemma {:induction false} OptionsChased(root: Root, rank: map<string, nat>, h: nat, s: Schema, p: Places)
    requires Ranked(root, rank) && RefsBelow(root, rank, s, h) && Resolve(root, rank, h, s).Some? && p == PlacesOf(root, rank, h, s)
    ensures p.Complete()
    ensures (Own(s, p).items.Some? ==> NoRefAt(Own(s, p).items.value)) <==> (s.items.Some? ==> ChasedAt(root, rank, h, s.items.value))
    ensures (p.additional.value.Some? ==> NoRefAt(p.additional.value.value)) <==>
            (s.additional.Some? ==> ChasedAt(root, rank, h, s.additional.value))
    decreases h, s, 0
  {
    var _ := CompletePlaces(root, rank, h, s);
    OptionPlaces(root, rank, h, s, p);
    if s.items.Some? { PlaceChased(root, rank, h, s.items.value); }
    if s.additional.Some? { PlaceChased(root, rank, h, s.additional.value); }
  }

  /** Nothing that is merged into a schema holds a reference exactly when the schema is chased. */
  ghost predicate PiecesNoRef(own: Schema, all: seq<Part>, one: seq<Part>, additional: Option<Schema>) {
    && OwnNoRef(own, all, one) && PartsNoRef(all) && PartsNoRef(one)
    && (own.items.Some? ==> NoRefAt(own.items.value))
    && (additional.Some? ==> NoRefAt(additional.value))
  }

  lemma {:induction false} PiecesChased(root: Root, rank: map<string, nat>, h: nat, s: Schema, p: Places)
    requires Ranked(root, rank) && RefsBelow(root, rank, s, h) && Resolve(root, rank, h, s).Some? && p == PlacesOf(root, rank, h, s)
    ensures p.Complete()
    ensures PiecesNoRef(Own(s, p), Values(p.allOf), Values(p.oneOf), p.additional.value) <==> Chased(root, rank, h, s)
    decreases h, s, 2
  {
    PropertiesChased(root, rank, h, s, p);
    var _ := CompletePlaces(root, rank, h, s);
    PartPlaces(root, rank, h, s, p);
    PartsChased(root, rank, h, s, s.allOf, Values(p.allOf));
    PartsChased(root, rank, h, s, s.oneOf, Values(p.oneOf));
    OptionsChased(root, rank, h, s, p);
  }

  /**
   * Completeness of resolving: the result holds no reference below it if and only if no followed
   * reference leads to a bare reference, own properties that a part replaces left aside.
   */
  lemma {:induction false} NoRefExactlyWhenChased(root: Root, rank: map<string, nat>, h: nat, s: Schema)
    requires Ranked(root, rank) && RefsBelow(root, rank, s, h) && Resolve(root, rank, h, s).Some?
    ensures NoRefBelow(Resolve(root, rank, h, s).value) <==> Chased(root, rank, h, s)
    decreases h, s, 3
  {
    var p := PlacesOf(root, rank, h, s);
    PiecesChased(root, rank, h, s, p);
    ComposeNoRef(Own(s, p), Values(p.allOf), Values(p.oneOf), p.additional.value);
  }

  /** No ranked definition of the document is itself a bare reference. */
  ghost predicate PlainDefinitions(root: Root, rank: map<string, nat>) {
    forall p :: p in root && p in rank ==> root[p].ref == ""
  }

  lemma {:induction false} PlainIsChasedAt(root: Root, rank: map<string, nat>, h: nat, c: Schema)
    requires Ranked(root, rank) && PlaceBelow(root, rank, c, h) && PlainDefinitions(root, rank)
    ensures ChasedAt(root, rank, h, c)
    decreases h, c, 1
  {
    if c.ref == "" {
      PlainIsChased(root, rank, h, c);
    } else if ResolveReference(c.ref, root).Ok? {
      PlainIsChased(root, rank, rank[c.ref[1..]], root[c.ref[1..]]);
    }
  }

  lemma {:induction false} PlainIsChased(root: Root, rank: map<string, nat>, h: nat, s: Schema)
    requires Ranked(root, rank) && RefsBelow(root, rank, s, h) && PlainDefinitions(root, rank)
    ensures Chased(root, rank, h, s)
    decreases h, s, 0
  {
    forall k | k in s.properties ensures ChasedAt(root, rank, h, s.properties[k]) { PlainIsChasedAt(root, rank, h, s.properties[k]); }
    if s.items.Some? { PlainIsChasedAt(root, rank, h, s.items.value); }
    forall i | 0 <= i < |s.allOf| ensures ChasedAt(root, rank, h, s.allOf[i]) { PlainIsChasedAt(root, rank, h, s.allOf[i]); }
    forall i | 0 <= i < |s.oneOf| ensures ChasedAt(root, rank, h, s.oneOf[i]) { PlainIsChasedAt(root, rank, h, s.oneOf[i]); }
    if s.additional.Some? { PlainIsChasedAt(root, rank, h, s.additional.value); }
  }

  /** With plain definitions nothing of a reference is left, at any depth. */
  lemma PlainDefinitionsResolveCompletely(root: Root, rank: map<string, nat>, h: nat, s: Schema)
    requires Ranked(root, rank) && RefsBelow(root, rank, s, h) && PlainDefinitions(root, rank)
    requires Resolve(root, rank, h, s).Some?
    ensures NoRefBelow(Resolve(root, rank, h, s).value)
  {
    PlainIsChased(root, rank, h, s);
    NoRefExactlyWhenChased(root, rank, h, s);
  }

  /** A reference to a definition that is a bare reference is not chased: it is replaced by that other reference. */
  lemma BareReferenceStays(root: Root, rank: map<string, nat>, h: nat, s: Schema, ref: string)
    requires Ranked(root, rank) && RefsBelow(root, rank, s, h) && Resolve(root, rank, h, s).Some?
    requires s.items.Some? && s.items.value.ref == ref != "" && Points(root, s.items.value)
    ensures Resolve(root, rank, h, s).value.items.Some?
    ensures Resolve(root, rank, h, s).value.items.value.ref == root[ref[1..]].ref
    ensures root[ref[1..]].ref != "" ==> !NoRefBelow(Resolve(root, rank, h, s).value)
  {
    var p := CompletePlaces(root, rank, h, s);
    OptionPlaces(root, rank, h, s, p);
  }

  // ---------------------------------------------------------------- independence of the ranking

  lemma {:induction false} PlaceIgnoresRank(root: Root, rank: map<string, nat>, h: nat, rank': map<string, nat>, h': nat, c: Schema)
    requires Ranked(root, rank) && PlaceBelow(root, rank, c, h) && Ranked(root, rank') && PlaceBelow(root, rank', c, h')
    ensures Place(root, rank, h, c) == Place(root, rank', h', c)
    decreases h, c, 2
  {
    if c.ref == "" {
      ResolveIgnoresRank(root, rank, h, rank', h', c);
    } else if ResolveReference(c.ref, root).Ok? {
      var n := c.ref[1..];
      ResolveIgnoresRank(root, rank, rank[n], rank', rank'[n], ResolveReference(c.ref, root).value);
    }
  }

  function PlacesAt(root: Root, rank: map<string, nat>, h: nat, cs: seq<Schema>): seq<Option<Part>>
    requires Ranked(root, rank) && forall i :: 0 <= i < |cs| ==> PlaceBelow(root, rank, cs[i], h)
  {
    seq(|cs|, i requires 0 <= i < |cs| => Place(root, rank, h, cs[i]))
  }

  lemma {:induction false} PartsIgnoreRank(
    root: Root, rank: map<string, nat>, h: nat, rank': map<string, nat>, h': nat, s: Schema, cs: seq<Schema>)
    requires Ranked(root, rank) && Ranked(root, rank')
    requires forall i :: 0 <= i < |cs| ==> cs[i] < s && PlaceBelow(root, rank, cs[i], h) && PlaceBelow(root, rank', cs[i], h')
    ensures PlacesAt(root, rank, h, cs) == PlacesAt(root, rank', h', cs)
    decreases h, s, 0
  {
    forall i | 0 <= i < |cs| ensures Place(root, rank, h, cs[i]) == Place(root, rank', h', cs[i]) {
      PlaceIgnoresRank(root, rank, h, rank', h', cs[i]);
    }
  }

  lemma {:induction false} OptionIgnoresRank(
    root: Root, rank: map<string, nat>, h: nat, rank': map<string, nat>, h': nat, s: Schema, c: Option<Schema>)
    requires Ranked(root, rank) && Ranked(root, rank')
    requires c.Some? ==> c.value < s && PlaceBelow(root, rank, c.value, h) && PlaceBelow(root, rank', c.value, h')
    ensures OptionalPlace(root, rank, h, c) == OptionalPlace(root, rank', h', c)
    decreases h, s, 0
  {
    if c.Some? {
      PlaceIgnoresRank(root, rank, h, rank', h', c.value);
    }
  }

  /** The outcome does not depend on the ranking that shows the document to be acyclic. */
  lemma {:induction false} ResolveIgnoresRank(root: Root, rank: map<string, nat>, h: nat, rank': map<string, nat>, h': nat, s: Schema)
    requires Ranked(root, rank) && RefsBelow(root, rank, s, h) && Ranked(root, rank') && RefsBelow(root, rank', s, h')
    ensures Resolve(root, rank, h, s) == Resolve(root, rank', h', s)
    decreases h, s, 1
  {
    var p, p' := PlacesOf(root, rank, h, s), PlacesOf(root, rank', h', s);
    forall k | k in s.properties ensures p.properties[k] == p'.properties[k] {
      PlaceIgnoresRank(root, rank, h, rank', h', s.properties[k]);
    }
    assert p.properties == p'.properties;
    PartsIgnoreRank(root, rank, h, rank', h', s, s.allOf);
    PartsIgnoreRank(root, rank, h, rank', h', s, s.oneOf);
    assert p.allOf == PlacesAt(root, rank, h, s.allOf) && p'.allOf == PlacesAt(root, rank', h', s.allOf);
    assert p.oneOf == PlacesAt(root, rank, h, s.oneOf) && p'.oneOf == PlacesAt(root, rank', h', s.oneOf);
    OptionIgnoresRank(root, rank, h, rank', h', s, s.items);
    OptionIgnoresRank(root, rank, h, rank', h', s, s.additional);
  }
}
