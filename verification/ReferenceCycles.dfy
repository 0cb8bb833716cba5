/**
 * When resolving ends (pkg/codegen/jenny_docs.go): a schema can be resolved by rank exactly when
 * no reference reached from it lies on a cycle of references.
 */
module ReferenceCycles {
  import opened Basics
  import opened Chains
  import opened SchemaResolver
  import opened SchemaProperties

  // ---------------------------------------------------------------- references

  /** The definitions that the places below s refer to. */
  function RefsIn(root: Root, s: Schema): (refs: set<string>)
    ensures refs <= root.Keys
    decreases s, 1
  {
    PropertyRefs(root, s) + PartRefs(root, s, s.allOf) + PartRefs(root, s, s.oneOf)
    + OptionRefs(root, s, s.items) + OptionRefs(root, s, s.additional)
  }

  function OptionRefs(root: Root, s: Schema, c: Option<Schema>): (refs: set<string>)
    requires c.Some? ==> c.value < s
    ensures refs <= root.Keys
    decreases s, 0
  {
    if c.Some? then RefsAt(root, c.value) else {}
  }

  function PropertyRefs(root: Root, s: Schema): (refs: set<string>)
    ensures refs <= root.Keys
    decreases s, 0
  {
    set k, q | k in s.properties && q in RefsAt(root, s.properties[k]) :: q
  }

  function PartRefs(root: Root, s: Schema, cs: seq<Schema>): (refs: set<string>)
    requires forall i :: 0 <= i < |cs| ==> cs[i] < s
    ensures refs <= root.Keys
    decreases s, 0
  {
    set i, q | 0 <= i < |cs| && q in RefsAt(root, cs[i]) :: q
  }

  function RefsAt(root: Root, c: Schema): (refs: set<string>)
    ensures refs <= root.Keys
    decreases c, 2
  {
    if c.ref == "" then RefsIn(root, c)
    else if c.ref[0] == '#' && c.ref[1..] in root then {c.ref[1..]}
    else {}
  }

  lemma {:induction false} PropertiesBelow(root: Root, rank: map<string, nat>, s: Schema, h: nat)
    ensures AllBelow(rank, PropertyRefs(root, s), h) <==> forall k :: k in s.properties ==> PlaceBelow(root, rank, s.properties[k], h)
    decreases s, 0
  {
    forall k | k in s.properties ensures PlaceBelow(root, rank, s.properties[k], h) <==> AllBelow(rank, RefsAt(root, s.properties[k]), h) {
      PlaceBelowMeaning(root, rank, s.properties[k], h);
    }
  }

  lemma {:induction false} PartsBelow(root: Root, rank: map<string, nat>, s: Schema, cs: seq<Schema>, h: nat)
    requires forall i :: 0 <= i < |cs| ==> cs[i] < s
    ensures AllBelow(rank, PartRefs(root, s, cs), h) <==> forall i :: 0 <= i < |cs| ==> PlaceBelow(root, rank, cs[i], h)
    decreases s, 0
  {
    forall i | 0 <= i < |cs| ensures PlaceBelow(root, rank, cs[i], h) <==> AllBelow(rank, RefsAt(root, cs[i]), h) {
      PlaceBelowMeaning(root, rank, cs[i], h);
    }
  }

  /** References stay below a bound exactly when all definitions referred to do. */
  lemma {:induction false} RefsBelowMeaning(root: Root, rank: map<string, nat>, s: Schema, h: nat)
    ensures RefsBelow(root, rank, s, h) <==> AllBelow(rank, RefsIn(root, s), h)
    decreases s, 1
  {
    PropertiesBelow(root, rank, s, h);
    PartsBelow(root, rank, s, s.allOf, h);
    PartsBelow(root, rank, s, s.oneOf, h);
    OptionBelow(root, rank, s, s.items, h);
    OptionBelow(root, rank, s, s.additional, h);
    AllBelowUnion(rank, [PropertyRefs(root, s), PartRefs(root, s, s.allOf), PartRefs(root, s, s.oneOf),
                         OptionRefs(root, s, s.items), OptionRefs(root, s, s.additional)], RefsIn(root, s), h);
  }

  lemma {:induction false} OptionBelow(root: Root, rank: map<string, nat>, s: Schema, c: Option<Schema>, h: nat)
    requires c.Some? ==> c.value < s
    ensures AllBelow(rank, OptionRefs(root, s, c), h) <==> (c.Some? ==> PlaceBelow(root, rank, c.value, h))
    decreases s, 0
  {
    if c.Some? { PlaceBelowMeaning(root, rank, c.value, h); }
  }

  lemma AllBelowUnion(rank: map<string, nat>, parts: seq<set<string>>, whole: set<string>, h: nat)
    requires |parts| == 5 && whole == parts[0] + parts[1] + parts[2] + parts[3] + parts[4]
    ensures AllBelow(rank, whole, h) <==>
            AllBelow(rank, parts[0], h) && AllBelow(rank, parts[1], h) && AllBelow(rank, parts[2], h) &&
            AllBelow(rank, parts[3], h) && AllBelow(rank, parts[4], h)
  {
  }

  lemma {:induction false} PlaceBelowMeaning(root: Root, rank: map<string, nat>, c: Schema, h: nat)
    ensures PlaceBelow(root, rank, c, h) <==> AllBelow(rank, RefsAt(root, c), h)
    decreases c, 2
  {
    if c.ref == "" {
      RefsBelowMeaning(root, rank, c, h);
    }
  }

  /** Which definitions each definition refers to. */
  function LinksOf(root: Root): Links {
    map p | p in root :: RefsIn(root, root[p])
  }

  lemma RankedMeaning(root: Root, rank: map<string, nat>)
    ensures Ranked(root, rank) <==> Descending(LinksOf(root), rank)
  {
    forall p | p in root && p in rank ensures RefsBelow(root, rank, root[p], rank[p]) <==> AllBelow(rank, LinksOf(root)[p], rank[p]) {
      RefsBelowMeaning(root, rank, root[p], rank[p]);
    }
  }

  // ---------------------------------------------------------------- which schemas can be resolved

  /** Some definition that s reaches, through any number of references, lies on a cycle of references. */
  ghost predicate Endless(root: Root, s: Schema) {
    ReachesCycle(LinksOf(root), RefsIn(root, s))
  }

  /** The document can be ranked as far as s reaches into it. */
  ghost predicate Rankable(root: Root, s: Schema) {
    exists rank, h :: Ranked(root, rank) && RefsBelow(root, rank, s, h)
  }

  /** A schema is rankable, and so resolved in finitely many steps, if and only if it reaches no cycle of references. */
  lemma RankableExactlyWhenNotEndless(root: Root, s: Schema)
    ensures Rankable(root, s) <==> !Endless(root, s)
  {
    if Rankable(root, s) {
      var rank, h :| Ranked(root, rank) && RefsBelow(root, rank, s, h);
      RankedMeaning(root, rank);
      RefsBelowMeaning(root, rank, s, h);
      DescendingIsAcyclic(LinksOf(root), rank, RefsIn(root, s), h);
    }
    if !Endless(root, s) {
      var rank, h := AcyclicIsRanked(LinksOf(root), RefsIn(root, s));
      RankedMeaning(root, rank);
      RefsBelowMeaning(root, rank, s, h);
    }
  }

  /** What resolving a schema yields, whichever ranking shows that it ends. */
  ghost predicate ResolvesTo(root: Root, s: Schema, r: Option<Schema>) {
    forall rank, h :: Ranked(root, rank) && RefsBelow(root, rank, s, h) ==> Resolve(root, rank, h, s) == r
  }

  /** Resolving any schema that reaches no cycle; what else the document holds does not matter. */
  method ResolveDocument(s: Schema, root: Root) returns (r: Result<Schema, ResolveError>)
    requires !Endless(root, s)
    ensures Rankable(root, s) && ResolvesTo(root, s, if r.Ok? then Some(r.value) else None)
  {
    RankableExactlyWhenNotEndless(root, s);
    ghost var rank, h :| Ranked(root, rank) && RefsBelow(root, rank, s, h);
    r := ResolveSchema(s, root, rank, h);
    forall rank', h' | Ranked(root, rank') && RefsBelow(root, rank', s, h') ensures Resolve(root, rank', h', s) == Resolve(root, rank, h, s) {
      ResolveIgnoresRank(root, rank', h', rank, h, s);
    }
  }
}
