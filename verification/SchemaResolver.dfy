/**
 * Resolving the references of a JSON schema (pkg/codegen/jenny_docs.go): every "#..." reference
 * below a schema is replaced by a fresh copy of the definition it points to, and the parts of an
 * allOf or oneOf are merged into the schema that lists them.
 */
module SchemaResolver {
  import opened Basics

  datatype Schema = Schema(
    ref: string, title: string, required: seq<string>,
    properties: map<string, Schema>, items: Option<Schema>,
    allOf: seq<Schema>, oneOf: seq<Schema>, additional: Option<Schema>,
    bases: seq<string>, inheritedFrom: string)

  datatype ResolveError = NotInSchema(ref: string) | DanglingPointer(pointer: string)

  /** The document, by JSON pointer: what loading each pointer that leads somewhere yields. */
  type Root = map<string, Schema>

  // ---------------------------------------------------------------- loading a reference

  /** path.Base: the last element of a slash-separated path. */
  function Base(path: string): string {
    if path == "" then "."
    else if path[|path| - 1] == '/' then if |path| == 1 then "/" else Base(path[..|path| - 1])
    else LastElement(path)
  }

  function LastElement(path: string): string {
    if path == "" || path[|path| - 1] == '/' then "" else LastElement(path[..|path| - 1]) + [path[|path| - 1]]
  }

  /** resolveReference: only references that start with '#' are followed; the copy is titled after the pointer. */
  function ResolveReference(ref: string, root: Root): Result<Schema, ResolveError> {
    if ref == "" || ref[0] != '#' then Err(NotInSchema(ref))
    else if ref[1..] !in root then Err(DanglingPointer(ref[1..]))
    else Ok(root[ref[1..]].(title := Base(ref[1..])))
  }

  /** The schema that stands at a place once its own reference, if it has one, is replaced. */
  function Loaded(c: Schema, root: Root): Result<Schema, ResolveError> {
    if c.ref == "" then Ok(c) else ResolveReference(c.ref, root)
  }

  // ---------------------------------------------------------------- acyclic documents

  /** Every reference below s that leads somewhere leads to a definition ranked below h. */
  predicate RefsBelow(root: Root, rank: map<string, nat>, s: Schema, h: nat)
    decreases s, 0
  {
    && (forall k :: k in s.properties ==> PlaceBelow(root, rank, s.properties[k], h))
    && (s.items.Some? ==> PlaceBelow(root, rank, s.items.value, h))
    && (forall i :: 0 <= i < |s.allOf| ==> PlaceBelow(root, rank, s.allOf[i], h))
    && (forall i :: 0 <= i < |s.oneOf| ==> PlaceBelow(root, rank, s.oneOf[i], h))
    && (s.additional.Some? ==> PlaceBelow(root, rank, s.additional.value, h))
  }

  predicate PlaceBelow(root: Root, rank: map<string, nat>, c: Schema, h: nat)
    decreases c, 1
  {
    if c.ref == "" then RefsBelow(root, rank, c, h)
    else c.ref[0] == '#' && c.ref[1..] in root ==> c.ref[1..] in rank && rank[c.ref[1..]] < h
  }

  /**
   * Ranked definitions refer only to definitions of a lower rank: no chain of references from them
   * is endless. Definitions that are never reached need no rank.
   */
  ghost predicate Ranked(root: Root, rank: map<string, nat>) {
    forall p :: p in root && p in rank ==> RefsBelow(root, rank, root[p], rank[p])
  }

  // ---------------------------------------------------------------- the resolved schema

  /** A part of an allOf or oneOf: as loaded, and as resolved. */
  datatype Part = Part(loaded: Schema, resolved: Schema)

  /** None if some reference cannot be loaded. */
  function Place(root: Root, ghost rank: map<string, nat>, ghost h: nat, c: Schema): Option<Part>
    requires Ranked(root, rank) && PlaceBelow(root, rank, c, h)
    decreases h, c, 2
  {
    if c.ref == "" then
      var r := Resolve(root, rank, h, c);
      if r.None? then None else Some(Part(c, r.value))
    else
      match ResolveReference(c.ref, root)
      case Err(_) => None
      case Ok(loaded) =>
        var r := Resolve(root, rank, rank[c.ref[1..]], loaded);
        if r.None? then None else Some(Part(loaded, r.value))
  }

  function OptionalPlace(root: Root, ghost rank: map<string, nat>, ghost h: nat, c: Option<Schema>): Option<Option<Schema>>
    requires Ranked(root, rank) && (c.Some? ==> PlaceBelow(root, rank, c.value, h))
    decreases h, c, 3
  {
    match c
    case None => Some(None)
    case Some(s) =>
      var p := Place(root, rank, h, s);
      if p.None? then None else Some(Some(p.value.resolved))
  }

  /** The resolved places of a schema; None where a reference could not be loaded. */
  datatype Places = Places(
    properties: map<string, Option<Part>>, items: Option<Option<Schema>>,
    allOf: seq<Option<Part>>, oneOf: seq<Option<Part>>, additional: Option<Option<Schema>>)
  {
    predicate OwnComplete() {
      items.Some? && forall k :: k in properties ==> properties[k].Some?
    }

    predicate Complete() {
      OwnComplete() && AllSome(allOf) && AllSome(oneOf) && additional.Some?
    }
  }

  predicate AllSome(ps: seq<Option<Part>>) {
    forall i :: 0 <= i < |ps| ==> ps[i].Some?
  }

  function Values(ps: seq<Option<Part>>): (r: seq<Part>)
    requires AllSome(ps)
    ensures |r| == |ps| && forall i :: 0 <= i < |ps| ==> r[i] == ps[i].value
  {
    seq(|ps|, i requires 0 <= i < |ps| => ps[i].value)
  }

  /** What resolveSchema makes of a schema. */
  function Resolve(root: Root, ghost rank: map<string, nat>, ghost h: nat, s: Schema): Option<Schema>
    requires Ranked(root, rank) && RefsBelow(root, rank, s, h)
    decreases h, s, 1
  {
    Finish(s, PlacesOf(root, rank, h, s))
  }

  function PlacesOf(root: Root, ghost rank: map<string, nat>, ghost h: nat, s: Schema): Places
    requires Ranked(root, rank) && RefsBelow(root, rank, s, h)
    decreases h, s, 0
  {
    Places(
      map k | k in s.properties :: Place(root, rank, h, s.properties[k]),
      OptionalPlace(root, rank, h, s.items),
      seq(|s.allOf|, i requires 0 <= i < |s.allOf| => Place(root, rank, h, s.allOf[i])),
      seq(|s.oneOf|, i requires 0 <= i < |s.oneOf| => Place(root, rank, h, s.oneOf[i])),
      OptionalPlace(root, rank, h, s.additional))
  }

  function Finish(s: Schema, p: Places): Option<Schema> {
    if !p.Complete() then None
    else Some(Compose(Own(s, p), Values(p.allOf), Values(p.oneOf)).(additional := p.additional.value))
  }

  /** The schema with its own properties and items resolved, before any part is merged. */
  function Own(s: Schema, p: Places): Schema
    requires p.OwnComplete()
  {
    s.(properties := map k | k in p.properties :: p.properties[k].value.resolved, items := p.items.value)
  }

  /** The parts merged into their parent, one after the other. */
  function Compose(own: Schema, all: seq<Part>, one: seq<Part>): Schema {
    own.(
      required := own.required + RequiredOf(all) + RequiredOf(one),
      properties := MergeAll(MergeAll(own.properties, all), one),
      allOf := ResolvedParts(all), oneOf := ResolvedParts(one),
      bases := own.bases + TitlesOf(all))
  }

  function ResolvedParts(parts: seq<Part>): (r: seq<Schema>)
    ensures |r| == |parts|
  {
    seq(|parts|, i requires 0 <= i < |parts| => parts[i].resolved)
  }

  /** The required names of the parts as loaded: what their own parts require is not among them. */
  function RequiredOf(parts: seq<Part>): seq<string> {
    if parts == [] then [] else RequiredOf(parts[..|parts| - 1]) + parts[|parts| - 1].loaded.required
  }

  function TitlesOf(parts: seq<Part>): seq<string> {
    if parts == [] then []
    else
      var front := TitlesOf(parts[..|parts| - 1]);
      var title := parts[|parts| - 1].resolved.title;
      if |title| > 0 then front + [title] else front
  }

  /** The properties of a part as its parent takes them over. */
  function Inherited(part: Schema): map<string, Schema> {
    map k | k in part.properties :: part.properties[k].(inheritedFrom := part.title)
  }

  function MergeAll(props: map<string, Schema>, parts: seq<Part>): map<string, Schema> {
    if parts == [] then props
    else MergeAll(props, parts[..|parts| - 1]) + Inherited(parts[|parts| - 1].resolved)
  }

  // ---------------------------------------------------------------- the resolver

  /** Replaces the schema at a place by its definition, if it is a reference, and resolves it. */
  method ResolvePlace(c: Schema, root: Root, ghost rank: map<string, nat>, ghost h: nat) returns (r: Result<Schema, ResolveError>)
    requires Ranked(root, rank) && PlaceBelow(root, rank, c, h)
    ensures r.Ok? <==> Place(root, rank, h, c).Some?
    ensures r.Ok? ==> r.value == Place(root, rank, h, c).value.resolved
    decreases h, c, 6
  {
    var prop := c;
    if prop.ref != "" {
      var tmp := ResolveReference(prop.ref, root);
      if tmp.Err? {
        return Err(tmp.error);
      }
      prop := tmp.value;
      r := ResolveSchema(prop, root, rank, rank[c.ref[1..]]);
    } else {
      r := ResolveSchema(prop, root, rank, h);
    }
  }

  /**
   * resolveSubSchema: the part is loaded, its required names go to the parent, it is resolved,
   * and its properties go to the parent.
   */
  method ResolveSubSchema(parent: Schema, c: Schema, root: Root, ghost rank: map<string, nat>, ghost h: nat)
    returns (r: Result<(Schema, Schema), ResolveError>)
    requires Ranked(root, rank) && PlaceBelow(root, rank, c, h)
    ensures r.Ok? <==> Place(root, rank, h, c).Some?
    ensures r.Ok? ==>
      var part := Place(root, rank, h, c).value;
      && r.value.0 == parent.(required := parent.required + part.loaded.required,
                              properties := parent.properties + Inherited(part.resolved))
      && r.value.1 == part.resolved
    decreases h, c, 6
  {
    var child := c;
    var merged := parent;
    var resolved: Result<Schema, ResolveError>;
    if child.ref != "" {
      var tmp := ResolveReference(child.ref, root);
      if tmp.Err? {
        return Err(tmp.error);
      }
      child := tmp.value;
      resolved := ResolveSchema(child, root, rank, rank[c.ref[1..]]);
    } else {
      resolved := ResolveSchema(child, root, rank, h);
    }
    if |child.required| > 0 {
      merged := merged.(required := merged.required + child.required);
    }
    if resolved.Err? {
      return Err(resolved.error);
    }
    child := resolved.value;
    var props := InheritProperties(merged.properties, child);
    return Ok((merged.(properties := props), child));
  }

  /** The copying loop of resolveSubSchema, in an arbitrary order. */
  method InheritProperties(properties: map<string, Schema>, child: Schema) returns (props: map<string, Schema>)
    ensures props == properties + Inherited(child)
  {
    props := properties;
    var rest := child.properties.Keys;
    while rest != {}
      invariant rest <= child.properties.Keys
      invariant props.Keys == properties.Keys + (child.properties.Keys - rest)
      invariant forall k :: k in props ==>
        props[k] == if k in child.properties && k !in rest then child.properties[k].(inheritedFrom := child.title) else properties[k]
      decreases rest
    {
      var k :| k in rest;
      props := props[k := child.properties[k].(inheritedFrom := child.title)];
      rest := rest - {k};
    }
  }

  /** The loop over the properties, in an arbitrary order: each is loaded and resolved. */
  method ResolveProperties(s: Schema, root: Root, ghost rank: map<string, nat>, ghost h: nat) returns (r: Result<map<string, Schema>, ResolveError>)
    requires Ranked(root, rank) && RefsBelow(root, rank, s, h)
    ensures r.Ok? ==> forall k :: k in s.properties ==> Place(root, rank, h, s.properties[k]).Some?
    ensures r.Err? ==> exists k :: k in s.properties && Place(root, rank, h, s.properties[k]) == None
    ensures r.Ok? ==> r.value.Keys == s.properties.Keys
    ensures r.Ok? ==> forall k :: k in s.properties ==> r.value[k] == Place(root, rank, h, s.properties[k]).value.resolved
    decreases h, s, 3
  {
    var properties := s.properties;
    var rest := s.properties.Keys;
    while rest != {}
      invariant rest <= s.properties.Keys && properties.Keys == s.properties.Keys
      invariant forall k :: k in rest ==> properties[k] == s.properties[k]
      invariant forall k :: k in s.properties && k !in rest ==>
        Place(root, rank, h, s.properties[k]).Some? && properties[k] == Place(root, rank, h, s.properties[k]).value.resolved
      decreases rest
    {
      var k :| k in rest;
      assert PlaceBelow(root, rank, s.properties[k], h);
      var foo := ResolvePlace(properties[k], root, rank, h);
      if foo.Err? {
        return Err(foo.error);
      }
      properties := properties[k := foo.value];
      rest := rest - {k};
    }
    return Ok(properties);
  }

  /** A parent that took over its parts. */
  function WithParts(parent: Schema, ps: seq<Part>, recordBases: bool): Schema {
    parent.(required := parent.required + RequiredOf(ps), properties := MergeAll(parent.properties, ps),
            bases := if recordBases then parent.bases + TitlesOf(ps) else parent.bases)
  }

  /** A parent that took over one part. */
  function WithPart(parent: Schema, part: Part, recordBases: bool): Schema {
    parent.(required := parent.required + part.loaded.required,
            properties := parent.properties + Inherited(part.resolved),
            bases := if recordBases && |part.resolved.title| > 0 then parent.bases + [part.resolved.title] else parent.bases)
  }

  lemma WithOnePartMore(parent: Schema, ps: seq<Part>, part: Part, recordBases: bool)
    ensures WithParts(parent, ps + [part], recordBases) == WithPart(WithParts(parent, ps, recordBases), part, recordBases)
  {
    assert (ps + [part])[..|ps|] == ps;
    assert parent.required + (RequiredOf(ps) + part.loaded.required) == parent.required + RequiredOf(ps) + part.loaded.required;
    assert parent.bases + (TitlesOf(ps) + [part.resolved.title]) == parent.bases + TitlesOf(ps) + [part.resolved.title];
  }

  /** One turn of that loop: the part is resolved into its parent, and its title recorded for an allOf. */
  method ResolvePart(schem: Schema, c: Schema, recordBases: bool, root: Root, ghost rank: map<string, nat>, ghost h: nat)
    returns (r: Result<(Schema, Schema), ResolveError>, ghost part: Part)
    requires Ranked(root, rank) && PlaceBelow(root, rank, c, h)
    ensures r.Ok? ==> Place(root, rank, h, c) == Some(part)
    ensures r.Err? ==> Place(root, rank, h, c) == None
    ensures r.Ok? ==> r.value.0 == WithPart(schem, part, recordBases) && r.value.1 == part.resolved
    decreases h, c, 7
  {
    part := Part(c, c);
    r := ResolveSubSchema(schem, c, root, rank, h);
    if r.Ok? {
      part := Place(root, rank, h, c).value;
      var tmp := r.value.1;
      if recordBases && |tmp.title| > 0 {
        r := Ok((r.value.0.(bases := r.value.0.bases + [tmp.title]), tmp));
      }
    }
  }

  lemma ResolvedOneMore(ps: seq<Part>, part: Part, parts: seq<Schema>)
    requires |ps| < |parts|
    ensures (ResolvedParts(ps) + parts[|ps|..])[|ps| := part.resolved] == ResolvedParts(ps + [part]) + parts[|ps| + 1..]
  {
  }

  /** The loop over the parts of an allOf or oneOf; bases are recorded for an allOf only. */
  method ResolveParts(parent: Schema, parts: seq<Schema>, recordBases: bool, root: Root, ghost rank: map<string, nat>, ghost h: nat, ghost s: Schema)
    returns (r: Result<(Schema, seq<Schema>), ResolveError>, ghost ps: seq<Part>)
    requires Ranked(root, rank) && forall i :: 0 <= i < |parts| ==> parts[i] < s && PlaceBelow(root, rank, parts[i], h)
    ensures r.Ok? ==> |ps| == |parts| && forall i :: 0 <= i < |parts| ==> Place(root, rank, h, parts[i]) == Some(ps[i])
    ensures r.Err? ==> exists i :: 0 <= i < |parts| && Place(root, rank, h, parts[i]) == None
    ensures r.Ok? ==> r.value.1 == ResolvedParts(ps) && r.value.0 == WithParts(parent, ps, recordBases)
    decreases h, s, 3
  {
    var schem := parent;
    var resolved := parts;
    ps := [];
    for idx := 0 to |parts|
      invariant |ps| == idx && resolved == ResolvedParts(ps) + parts[idx..]
      invariant forall i :: 0 <= i < idx ==> Place(root, rank, h, parts[i]) == Some(ps[i])
      invariant schem == WithParts(parent, ps, recordBases)
    {
      var sub, part := ResolvePart(schem, parts[idx], recordBases, root, rank, h);
      if sub.Err? {
        r := Err(sub.error);
        return;
      }
      WithOnePartMore(parent, ps, part, recordBases);
      ResolvedOneMore(ps, part, parts);
      schem := sub.value.0;
      resolved := resolved[idx := sub.value.1];
      ps := ps + [part];
    }
    r := Ok((schem, resolved));
  }

  /** The steps for items and for additional properties. */
  method ResolveOptional(c: Option<Schema>, root: Root, ghost rank: map<string, nat>, ghost h: nat) returns (r: Result<Option<Schema>, ResolveError>)
    requires Ranked(root, rank) && (c.Some? ==> PlaceBelow(root, rank, c.value, h))
    ensures OptionalPlace(root, rank, h, c) == if r.Ok? then Some(r.value) else None
    decreases h, c, 7
  {
    if c.None? {
      return Ok(None);
    }
    var foo := ResolvePlace(c.value, root, rank, h);
    if foo.Err? {
      return Err(foo.error);
    }
    return Ok(Some(foo.value));
  }

  /** The first steps of resolveSchema: properties, then items. */
  method ResolveOwn(s: Schema, root: Root, ghost rank: map<string, nat>, ghost h: nat) returns (r: Result<Schema, ResolveError>)
    requires Ranked(root, rank) && RefsBelow(root, rank, s, h)
    ensures r.Ok? <==> PlacesOf(root, rank, h, s).OwnComplete()
    ensures r.Ok? ==> r.value == Own(s, PlacesOf(root, rank, h, s))
    decreases h, s, 4
  {
    ghost var p := PlacesOf(root, rank, h, s);
    var props := ResolveProperties(s, root, rank, h);
    if props.Err? {
      FailedProperty(root, rank, h, s, p);
      return Err(props.error);
    }
    var items := ResolveOptional(s.items, root, rank, h);
    if items.Err? {
      assert p.items == None;
      return Err(items.error);
    }
    assert p.items == Some(items.value);
    ResolvedProperties(root, rank, h, s, p, props.value);
    return Ok(s.(properties := props.value, items := items.value));
  }

  /** The middle steps of resolveSchema: the parts of allOf, then those of oneOf. */
  method ResolveComposition(own: Schema, s: Schema, root: Root, ghost rank: map<string, nat>, ghost h: nat) returns (r: Result<Schema, ResolveError>)
    requires Ranked(root, rank) && RefsBelow(root, rank, s, h)
    ensures
      var p := PlacesOf(root, rank, h, s);
      && (r.Ok? <==> AllSome(p.allOf) && AllSome(p.oneOf))
      && (r.Ok? ==> r.value == Compose(own, Values(p.allOf), Values(p.oneOf)))
    decreases h, s, 4
  {
    ghost var p := PlacesOf(root, rank, h, s);
    var all, allParts := ResolveParts(own, s.allOf, true, root, rank, h, s);
    if all.Err? {
      FailedPart(root, rank, h, s.allOf, p.allOf);
      return Err(all.error);
    }
    SomeParts(p.allOf, allParts);
    var schem := all.value.0.(allOf := all.value.1);
    var one, oneParts := ResolveParts(schem, s.oneOf, false, root, rank, h, s);
    if one.Err? {
      FailedPart(root, rank, h, s.oneOf, p.oneOf);
      return Err(one.error);
    }
    SomeParts(p.oneOf, oneParts);
    return Ok(one.value.0.(oneOf := one.value.1));
  }

  /** resolveSchema: properties, items, allOf, oneOf and additional properties, in this order. */
  method ResolveSchema(s: Schema, root: Root, ghost rank: map<string, nat>, ghost h: nat) returns (r: Result<Schema, ResolveError>)
    requires Ranked(root, rank) && RefsBelow(root, rank, s, h)
    ensures r.Ok? <==> Resolve(root, rank, h, s).Some?
    ensures r.Ok? ==> r.value == Resolve(root, rank, h, s).value
    decreases h, s, 5
  {
    var schem := ResolveOwn(s, root, rank, h);
    if schem.Err? {
      return schem;
    }
    schem := ResolveComposition(schem.value, s, root, rank, h);
    if schem.Err? {
      return schem;
    }
    var additional := ResolveOptional(s.additional, root, rank, h);
    assert PlacesOf(root, rank, h, s).additional == OptionalPlace(root, rank, h, s.additional);
    if additional.Err? {
      return Err(additional.error);
    }
    return Ok(schem.value.(additional := additional.value));
  }

  lemma FailedProperty(root: Root, rank: map<string, nat>, h: nat, s: Schema, p: Places)
    requires Ranked(root, rank) && RefsBelow(root, rank, s, h) && p == PlacesOf(root, rank, h, s)
    requires exists k :: k in s.properties && Place(root, rank, h, s.properties[k]) == None
    ensures !p.OwnComplete()
  {
    var k :| k in s.properties && Place(root, rank, h, s.properties[k]) == None;
    assert p.properties[k] == None;
  }

  lemma ResolvedProperties(root: Root, rank: map<string, nat>, h: nat, s: Schema, p: Places, props: map<string, Schema>)
    requires Ranked(root, rank) && RefsBelow(root, rank, s, h) && p == PlacesOf(root, rank, h, s)
    requires p.items.Some? && props.Keys == s.properties.Keys
    requires forall k :: k in s.properties ==>
      Place(root, rank, h, s.properties[k]).Some? && props[k] == Place(root, rank, h, s.properties[k]).value.resolved
    ensures p.OwnComplete() && Own(s, p).properties == props
  {
  }

  lemma FailedPart(root: Root, rank: map<string, nat>, h: nat, parts: seq<Schema>, ps: seq<Option<Part>>)
    requires Ranked(root, rank) && forall i :: 0 <= i < |parts| ==> PlaceBelow(root, rank, parts[i], h)
    requires |ps| == |parts| && forall i :: 0 <= i < |parts| ==> ps[i] == Place(root, rank, h, parts[i])
    requires exists i :: 0 <= i < |parts| && Place(root, rank, h, parts[i]) == None
    ensures !AllSome(ps)
  {
  }

  lemma SomeParts(ps: seq<Option<Part>>, parts: seq<Part>)
    requires |ps| == |parts| && forall i :: 0 <= i < |ps| ==> ps[i] == Some(parts[i])
    ensures AllSome(ps) && Values(ps) == parts
  {
  }
}
