/**
 * What a resolved schema stands for, read off the document: a relation between a schema and its
 * resolved form that speaks of definitions, parts and places only, and the condition under which
 * there is a resolved form (pkg/codegen/jenny_docs.go).
 */
module SchemaMeaning {
  import opened Basics
  import opened SchemaResolver
  import opened SchemaProperties

  // ---------------------------------------------------------------- the name of a definition

  ghost predicate NoSlash(name: string) {
    forall i :: 0 <= i < |name| ==> name[i] != '/'
  }

  ghost predicate AllSlashes(path: string) {
    forall i :: 0 <= i < |path| ==> path[i] == '/'
  }

  /** The last element of a path is what stands behind the last slash that is not at the end. */
  lemma {:induction false} LastElementOfPath(prefix: string, name: string)
    requires NoSlash(name) && (prefix == "" || prefix[|prefix| - 1] == '/')
    ensures LastElement(prefix + name) == name
  {
    if name == "" {
      assert prefix + name == prefix;
    } else {
      var front := name[..|name| - 1];
      assert (prefix + name)[..|prefix + name| - 1] == prefix + front;
      LastElementOfPath(prefix, front);
    }
  }

  /** A definition is titled by the last element of its pointer, slashes at the end left aside. */
  lemma {:induction false} BaseOfPath(prefix: string, name: string, slashes: string)
    requires name != "" && NoSlash(name) && (prefix == "" || prefix[|prefix| - 1] == '/') && AllSlashes(slashes)
    ensures Base(prefix + name + slashes) == name
  {
    var path := prefix + name + slashes;
    if slashes == "" {
      assert path == prefix + name && path[|path| - 1] == name[|name| - 1];
      LastElementOfPath(prefix, name);
    } else {
      assert path[..|path| - 1] == prefix + name + slashes[..|slashes| - 1];
      BaseOfPath(prefix, name, slashes[..|slashes| - 1]);
    }
  }

  lemma {:induction false} BaseOfSlashes(path: string)
    requires AllSlashes(path)
    ensures Base(path) == if path == "" then "." else "/"
  {
    if |path| > 1 {
      BaseOfSlashes(path[..|path| - 1]);
    }
  }

  // ---------------------------------------------------------------- what stands at a place

  /** The titles of resolved parts, those without title left out. */
  function Titles(parts: seq<Schema>): seq<string> {
    if parts == [] then []
    else
      var front, title := Titles(parts[..|parts| - 1]), parts[|parts| - 1].title;
      if title == "" then front else front + [title]
  }

  /** part is the last of the parts that has property k. */
  ghost predicate LastHolder(parts: seq<Schema>, k: string, i: nat) {
    && i < |parts| && k in parts[i].properties
    && forall j :: i < j < |parts| ==> k !in parts[j].properties
  }

  ghost predicate NoHolder(parts: seq<Schema>, k: string) {
    forall j :: 0 <= j < |parts| ==> k !in parts[j].properties
  }

  /** Property k of r was taken over from part i, and says so. */
  ghost predicate TakenFrom(r: Schema, parts: seq<Schema>, k: string, i: nat) {
    LastHolder(parts, k, i) && k in r.properties && r.properties[k] == parts[i].properties[k].(inheritedFrom := parts[i].title)
  }

  /** r is the resolved form of the schema s. */
  ghost predicate Means(root: Root, rank: map<string, nat>, h: nat, s: Schema, r: Schema)
    requires Ranked(root, rank) && RefsBelow(root, rank, s, h)
    decreases h, s, 1
  {
    && r.ref == s.ref && r.title == s.title && r.inheritedFrom == s.inheritedFrom
    && PartsMean(root, rank, h, s, s.allOf, r.allOf) && PartsMean(root, rank, h, s, s.oneOf, r.oneOf)
    && OptionMeans(root, rank, h, s, s.items, r.items) && OptionMeans(root, rank, h, s, s.additional, r.additional)
    && PropertiesMean(root, rank, h, s, r)
    && r.bases == s.bases + Titles(r.allOf)
    && r.required == s.required + RequiredAt(root, s.allOf) + RequiredAt(root, s.oneOf)
  }

  /** r is what is left at a place: the resolved form of what stands there, or of a copy of the definition referred to. */
  ghost predicate MeansAt(root: Root, rank: map<string, nat>, h: nat, c: Schema, r: Schema)
    requires Ranked(root, rank) && PlaceBelow(root, rank, c, h)
    decreases h, c, 2
  {
    if c.ref == "" then Means(root, rank, h, c, r)
    else Points(root, c) && Means(root, rank, rank[c.ref[1..]], root[c.ref[1..]].(title := Base(c.ref[1..])), r)
  }

  ghost predicate PartsMean(root: Root, rank: map<string, nat>, h: nat, s: Schema, cs: seq<Schema>, rs: seq<Schema>)
    requires Ranked(root, rank) && PartsOf(root, rank, h, s, cs)
    decreases h, s, 0
  {
    |rs| == |cs| && forall i :: 0 <= i < |cs| ==> MeansAt(root, rank, h, cs[i], rs[i])
  }

  ghost predicate OptionMeans(root: Root, rank: map<string, nat>, h: nat, s: Schema, c: Option<Schema>, r: Option<Schema>)
    requires Ranked(root, rank) && (c.Some? ==> c.value < s && PlaceBelow(root, rank, c.value, h))
    decreases h, s, 0
  {
    (r.Some? <==> c.Some?) && (c.Some? ==> r.Some? && MeansAt(root, rank, h, c.value, r.value))
  }

  /** Each property is taken over from the last oneOf part that has it, else from the last allOf part, else it is the schema's own. */
  ghost predicate PropertiesMean(root: Root, rank: map<string, nat>, h: nat, s: Schema, r: Schema)
    requires Ranked(root, rank) && RefsBelow(root, rank, s, h)
    decreases h, s, 0
  {
    && (forall k :: k in r.properties <==> k in s.properties || !NoHolder(r.allOf, k) || !NoHolder(r.oneOf, k))
    && (forall k, i :: LastHolder(r.oneOf, k, i) ==> TakenFrom(r, r.oneOf, k, i))
    && (forall k, i :: NoHolder(r.oneOf, k) && LastHolder(r.allOf, k, i) ==> TakenFrom(r, r.allOf, k, i))
    && (forall k :: k in s.properties && NoHolder(r.oneOf, k) && NoHolder(r.allOf, k) ==>
          k in r.properties && MeansAt(root, rank, h, s.properties[k], r.properties[k]))
  }

  // ---------------------------------------------------------------- the resolver meets it

  lemma {:induction false} TitlesMeaning(parts: seq<Part>)
    ensures Titles(ResolvedParts(parts)) == TitlesOf(parts)
  {
    if parts != [] {
      TitlesMeaning(parts[..|parts| - 1]);
      assert ResolvedParts(parts)[..|parts| - 1] == ResolvedParts(parts[..|parts| - 1]);
    }
  }

  lemma HolderMeaning(parts: seq<Part>, k: string)
    ensures LastWith(parts, k) < 0 <==> NoHolder(ResolvedParts(parts), k)
    ensures forall i: nat :: LastHolder(ResolvedParts(parts), k, i) <==> LastWith(parts, k) == i
  {
    forall j | 0 <= j < |parts| ensures ResolvedParts(parts)[j] == parts[j].resolved {}
  }

  lemma {:induction false} PlaceMeans(root: Root, rank: map<string, nat>, h: nat, c: Schema)
    requires Ranked(root, rank) && PlaceBelow(root, rank, c, h) && Place(root, rank, h, c).Some?
    ensures MeansAt(root, rank, h, c, Place(root, rank, h, c).value.resolved)
    decreases h, c, 4
  {
    if c.ref == "" {
      ResolvedMeans(root, rank, h, c);
    } else {
      ResolvedMeans(root, rank, rank[c.ref[1..]], ResolveReference(c.ref, root).value);
    }
  }

  lemma {:induction false} PartsMeanPlaces(root: Root, rank: map<string, nat>, h: nat, s: Schema, cs: seq<Schema>, parts: seq<Part>)
    requires Ranked(root, rank) && StandAt(root, rank, h, s, cs, parts)
    ensures PartsMean(root, rank, h, s, cs, ResolvedParts(parts))
    decreases h, s, 0
  {
    forall i | 0 <= i < |cs| ensures MeansAt(root, rank, h, cs[i], ResolvedParts(parts)[i]) {
      PlaceMeans(root, rank, h, cs[i]);
    }
  }

  lemma {:induction false} OptionsMeanPlaces(root: Root, rank: map<string, nat>, h: nat, s: Schema, p: Places)
    requires Ranked(root, rank) && RefsBelow(root, rank, s, h) && p == PlacesOf(root, rank, h, s) && p.items.Some? && p.additional.Some?
    ensures OptionMeans(root, rank, h, s, s.items, p.items.value) && OptionMeans(root, rank, h, s, s.additional, p.additional.value)
    decreases h, s, 0
  {
    OptionPlaces(root, rank, h, s, p);
    if s.items.Some? { PlaceMeans(root, rank, h, s.items.value); }
    if s.additional.Some? { PlaceMeans(root, rank, h, s.additional.value); }
  }

  lemma {:induction false} OwnPropertiesMean(root: Root, rank: map<string, nat>, h: nat, s: Schema, p: Places)
    requires Ranked(root, rank) && RefsBelow(root, rank, s, h) && p == PlacesOf(root, rank, h, s) && p.OwnComplete()
    ensures Own(s, p).properties.Keys == s.properties.Keys
    ensures forall k :: k in s.properties ==> MeansAt(root, rank, h, s.properties[k], Own(s, p).properties[k])
    decreases h, s, 0
  {
    PropertyPlaces(root, rank, h, s, p);
    forall k | k in s.properties ensures MeansAt(root, rank, h, s.properties[k], Own(s, p).properties[k]) {
      PlaceMeans(root, rank, h, s.properties[k]);
    }
  }

  /** The properties of a composed schema, by the resolved parts. */
  lemma ComposedProperties(own: Schema, all: seq<Part>, one: seq<Part>, k: string)
    ensures
      var r := Compose(own, all, one);
      && (k in r.properties <==> k in own.properties || !NoHolder(r.allOf, k) || !NoHolder(r.oneOf, k))
      && (forall i: nat :: LastHolder(r.oneOf, k, i) ==> TakenFrom(r, r.oneOf, k, i))
      && (forall i: nat :: NoHolder(r.oneOf, k) && LastHolder(r.allOf, k, i) ==> TakenFrom(r, r.allOf, k, i))
      && (k in own.properties && NoHolder(r.oneOf, k) && NoHolder(r.allOf, k) ==> k in r.properties && r.properties[k] == own.properties[k])
  {
    HolderMeaning(all, k);
    HolderMeaning(one, k);
    MergedProperty(own.properties, all, k);
    MergedProperty(MergeAll(own.properties, all), one, k);
  }

  /** Resolving a schema yields its resolved form. */
  lemma {:induction false} ResolvedMeans(root: Root, rank: map<string, nat>, h: nat, s: Schema)
    requires Ranked(root, rank) && RefsBelow(root, rank, s, h) && Resolve(root, rank, h, s).Some?
    ensures Means(root, rank, h, s, Resolve(root, rank, h, s).value)
    decreases h, s, 3
  {
    var p := CompletePlaces(root, rank, h, s);
    var r := Resolve(root, rank, h, s).value;
    PartPlaces(root, rank, h, s, p);
    PartsMeanPlaces(root, rank, h, s, s.allOf, Values(p.allOf));
    PartsMeanPlaces(root, rank, h, s, s.oneOf, Values(p.oneOf));
    OptionsMeanPlaces(root, rank, h, s, p);
    ResolvedPropertiesMean(root, rank, h, s, p, r);
    TitlesMeaning(Values(p.allOf));
    RequiredRisesOneLevel(root, rank, h, s);
  }

  lemma {:induction false} ResolvedPropertiesMean(root: Root, rank: map<string, nat>, h: nat, s: Schema, p: Places, r: Schema)
    requires Ranked(root, rank) && RefsBelow(root, rank, s, h) && p == PlacesOf(root, rank, h, s) && p.Complete()
    requires r == Compose(Own(s, p), Values(p.allOf), Values(p.oneOf)).(additional := p.additional.value)
    ensures PropertiesMean(root, rank, h, s, r)
    decreases h, s, 2
  {
    OwnPropertiesMean(root, rank, h, s, p);
    forall k
      ensures k in r.properties <==> k in s.properties || !NoHolder(r.allOf, k) || !NoHolder(r.oneOf, k)
      ensures forall i: nat :: LastHolder(r.oneOf, k, i) ==> TakenFrom(r, r.oneOf, k, i)
      ensures forall i: nat :: NoHolder(r.oneOf, k) && LastHolder(r.allOf, k, i) ==> TakenFrom(r, r.allOf, k, i)
      ensures k in s.properties && NoHolder(r.oneOf, k) && NoHolder(r.allOf, k) ==>
        k in r.properties && MeansAt(root, rank, h, s.properties[k], r.properties[k])
    {
      ComposedProperties(Own(s, p), Values(p.allOf), Values(p.oneOf), k);
    }
  }

  // ---------------------------------------------------------------- there is no other resolved form

  lemma {:induction false} SomeLastHolder(parts: seq<Schema>, k: string)
    ensures NoHolder(parts, k) || exists i: nat :: LastHolder(parts, k, i)
  {
    if parts != [] {
      var front := parts[..|parts| - 1];
      SomeLastHolder(front, k);
      if k in parts[|parts| - 1].properties {
        assert LastHolder(parts, k, |parts| - 1);
      } else if i: nat :| LastHolder(front, k, i) {
        assert LastHolder(parts, k, i);
      }
    }
  }

  lemma {:induction false} MeansAtUnique(root: Root, rank: map<string, nat>, h: nat, c: Schema, a: Schema, b: Schema)
    requires Ranked(root, rank) && PlaceBelow(root, rank, c, h) && MeansAt(root, rank, h, c, a) && MeansAt(root, rank, h, c, b)
    ensures a == b
    decreases h, c, 3
  {
    if c.ref == "" {
      MeansUnique(root, rank, h, c, a, b);
    } else {
      MeansUnique(root, rank, rank[c.ref[1..]], root[c.ref[1..]].(title := Base(c.ref[1..])), a, b);
    }
  }

  lemma {:induction false} PartsUnique(root: Root, rank: map<string, nat>, h: nat, s: Schema, cs: seq<Schema>, a: seq<Schema>, b: seq<Schema>)
    requires Ranked(root, rank) && PartsOf(root, rank, h, s, cs)
    requires PartsMean(root, rank, h, s, cs, a) && PartsMean(root, rank, h, s, cs, b)
    ensures a == b
    decreases h, s, 0
  {
    forall i | 0 <= i < |cs| ensures a[i] == b[i] {
      MeansAtUnique(root, rank, h, cs[i], a[i], b[i]);
    }
  }

  lemma {:induction false} OptionUnique(
    root: Root, rank: map<string, nat>, h: nat, s: Schema, c: Option<Schema>, a: Option<Schema>, b: Option<Schema>)
    requires Ranked(root, rank) && (c.Some? ==> c.value < s && PlaceBelow(root, rank, c.value, h))
    requires OptionMeans(root, rank, h, s, c, a) && OptionMeans(root, rank, h, s, c, b)
    ensures a == b
    decreases h, s, 0
  {
    if c.Some? {
      MeansAtUnique(root, rank, h, c.value, a.value, b.value);
    }
  }

  lemma {:induction false} PropertiesUnique(root: Root, rank: map<string, nat>, h: nat, s: Schema, a: Schema, b: Schema)
    requires Ranked(root, rank) && RefsBelow(root, rank, s, h)
    requires PropertiesMean(root, rank, h, s, a) && PropertiesMean(root, rank, h, s, b) && a.allOf == b.allOf && a.oneOf == b.oneOf
    ensures a.properties == b.properties
    decreases h, s, 0
  {
    forall k | k in a.properties ensures k in b.properties && a.properties[k] == b.properties[k] {
      SomeLastHolder(a.oneOf, k);
      SomeLastHolder(a.allOf, k);
      if i: nat :| LastHolder(a.oneOf, k, i) {
        assert TakenFrom(a, a.oneOf, k, i) && TakenFrom(b, b.oneOf, k, i);
      } else if i: nat :| LastHolder(a.allOf, k, i) {
        assert TakenFrom(a, a.allOf, k, i) && TakenFrom(b, b.allOf, k, i);
      } else {
        MeansAtUnique(root, rank, h, s.properties[k], a.properties[k], b.properties[k]);
      }
    }
    forall k | k in b.properties ensures k in a.properties {}
  }

  /** The resolved form of a schema is determined by the document. */
  lemma {:induction false} MeansUnique(root: Root, rank: map<string, nat>, h: nat, s: Schema, a: Schema, b: Schema)
    requires Ranked(root, rank) && RefsBelow(root, rank, s, h) && Means(root, rank, h, s, a) && Means(root, rank, h, s, b)
    ensures a == b
    decreases h, s, 2
  {
    PartsUnique(root, rank, h, s, s.allOf, a.allOf, b.allOf);
    PartsUnique(root, rank, h, s, s.oneOf, a.oneOf, b.oneOf);
    OptionUnique(root, rank, h, s, s.items, a.items, b.items);
    OptionUnique(root, rank, h, s, s.additional, a.additional, b.additional);
    PropertiesUnique(root, rank, h, s, a, b);
  }

  // ---------------------------------------------------------------- when there is one

  /** Every reference that is followed from s leads to a definition of the document. */
  ghost predicate Loadable(root: Root, rank: map<string, nat>, h: nat, s: Schema)
    requires Ranked(root, rank) && RefsBelow(root, rank, s, h)
    decreases h, s, 1
  {
    && (forall k :: k in s.properties ==> LoadableAt(root, rank, h, s.properties[k]))
    && PartsLoadable(root, rank, h, s, s.allOf) && PartsLoadable(root, rank, h, s, s.oneOf)
    && (s.items.Some? ==> LoadableAt(root, rank, h, s.items.value))
    && (s.additional.Some? ==> LoadableAt(root, rank, h, s.additional.value))
  }

  ghost predicate PartsLoadable(root: Root, rank: map<string, nat>, h: nat, s: Schema, cs: seq<Schema>)
    requires Ranked(root, rank) && PartsOf(root, rank, h, s, cs)
    decreases h, s, 0
  {
    forall i :: 0 <= i < |cs| ==> LoadableAt(root, rank, h, cs[i])
  }

  ghost predicate LoadableAt(root: Root, rank: map<string, nat>, h: nat, c: Schema)
    requires Ranked(root, rank) && PlaceBelow(root, rank, c, h)
    decreases h, c, 2
  {
    if c.ref == "" then Loadable(root, rank, h, c)
    else Points(root, c) && Loadable(root, rank, rank[c.ref[1..]], root[c.ref[1..]].(title := Base(c.ref[1..])))
  }

  lemma {:induction false} PlaceExactlyWhenLoadable(root: Root, rank: map<string, nat>, h: nat, c: Schema)
    requires Ranked(root, rank) && PlaceBelow(root, rank, c, h)
    ensures Place(root, rank, h, c).Some? <==> LoadableAt(root, rank, h, c)
    decreases h, c, 3
  {
    if c.ref == "" {
      ResolvesExactlyWhenLoadable(root, rank, h, c);
    } else if ResolveReference(c.ref, root).Ok? {
      ResolvesExactlyWhenLoadable(root, rank, rank[c.ref[1..]], ResolveReference(c.ref, root).value);
    }
  }

  lemma {:induction false} PartsExactlyWhenLoadable(root: Root, rank: map<string, nat>, h: nat, s: Schema, cs: seq<Schema>, ps: seq<Option<Part>>)
    requires Ranked(root, rank) && PartsOf(root, rank, h, s, cs)
    requires |ps| == |cs| && forall i :: 0 <= i < |cs| ==> ps[i] == Place(root, rank, h, cs[i])
    ensures AllSome(ps) <==> PartsLoadable(root, rank, h, s, cs)
    decreases h, s, 0
  {
    forall i | 0 <= i < |cs| ensures ps[i].Some? <==> LoadableAt(root, rank, h, cs[i]) {
      PlaceExactlyWhenLoadable(root, rank, h, cs[i]);
    }
  }

  lemma {:induction false} OwnExactlyWhenLoadable(root: Root, rank: map<string, nat>, h: nat, s: Schema, p: Places)
    requires Ranked(root, rank) && RefsBelow(root, rank, s, h) && p == PlacesOf(root, rank, h, s)
    ensures (forall k :: k in p.properties ==> p.properties[k].Some?) <==> forall k :: k in s.properties ==> LoadableAt(root, rank, h, s.properties[k])
    ensures p.items.Some? <==> (s.items.Some? ==> LoadableAt(root, rank, h, s.items.value))
    ensures p.additional.Some? <==> (s.additional.Some? ==> LoadableAt(root, rank, h, s.additional.value))
    decreases h, s, 0
  {
    assert p.properties.Keys == s.properties.Keys;
    forall k | k in s.properties ensures p.properties[k].Some? <==> LoadableAt(root, rank, h, s.properties[k]) {
      PlaceExactlyWhenLoadable(root, rank, h, s.properties[k]);
    }
    if s.items.Some? { PlaceExactlyWhenLoadable(root, rank, h, s.items.value); }
    if s.additional.Some? { PlaceExactlyWhenLoadable(root, rank, h, s.additional.value); }
    assert p.items == OptionalPlace(root, rank, h, s.items) && p.additional == OptionalPlace(root, rank, h, s.additional);
  }

  /** Resolving succeeds if and only if every reference that is followed leads to a definition of the document. */
  lemma {:induction false} ResolvesExactlyWhenLoadable(root: Root, rank: map<string, nat>, h: nat, s: Schema)
    requires Ranked(root, rank) && RefsBelow(root, rank, s, h)
    ensures Resolve(root, rank, h, s).Some? <==> Loadable(root, rank, h, s)
    decreases h, s, 2
  {
    var p := PlacesOf(root, rank, h, s);
    OwnExactlyWhenLoadable(root, rank, h, s, p);
    PartsExactlyWhenLoadable(root, rank, h, s, s.allOf, p.allOf);
    PartsExactlyWhenLoadable(root, rank, h, s, s.oneOf, p.oneOf);
    assert Resolve(root, rank, h, s) == Finish(s, p);
  }
}
