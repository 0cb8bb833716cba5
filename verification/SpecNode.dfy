/**
 * Renaming and moving the "spec" declarations of a generated TypeScript file
 * (pkg/codegen/jenny_ts_resources.go): two remove-and-append steps on one list, with an index
 * correction between them.
 */
module SpecNode {
  import opened Basics

  /** The type of a variable; a transform such as Partial<spec> names another type. */
  datatype VarType = Transform(transform: string, expr: string) | OtherType(text: string)

  datatype Decl =
    | TypeDecl(name: string, definition: string)
    | VarDecl(idents: seq<string>, varType: VarType, value: string)
    | OtherDecl(text: string)

  /** A top-level node: a declaration, possibly behind the export keyword. */
  datatype Node = Exported(decl: Decl) | Bare(decl: Decl)

  const SPEC := "spec"
  const DEFAULT_SPEC := "defaultspec"
  const DEFAULT := "default"

  class File {
    var nodes: seq<Node>

    constructor (nodes: seq<Node>)
      ensures this.nodes == nodes
    {
      this.nodes := nodes;
    }
  }

  predicate IsSpec(n: Node) {
    n.decl.TypeDecl? && n.decl.name == SPEC
  }

  predicate IsDefault(n: Node) {
    n.decl.VarDecl? && |n.decl.idents| > 0 && n.decl.idents[0] == DEFAULT_SPEC
  }

  /** Declarations on which the renaming does not panic: variables have a name, and the type of a default is a transform. */
  ghost predicate Renamable(nodes: seq<Node>) {
    forall i :: 0 <= i < |nodes| && nodes[i].decl.VarDecl? ==>
      |nodes[i].decl.idents| > 0 && (IsDefault(nodes[i]) ==> nodes[i].decl.varType.Transform?)
  }

  /** The renamed node; a renamed declaration loses the export keyword. */
  function Rename(name: string, n: Node): Node {
    if IsSpec(n) then Bare(n.decl.(name := name))
    else if IsDefault(n) && n.decl.varType.Transform? then
      Bare(n.decl.(idents := n.decl.idents[0 := DEFAULT + name], varType := n.decl.varType.(expr := name)))
    else n
  }

  /** Which nodes are renamed, and how: spec gets the new name, its default the new name in both places, all others nothing. */
  lemma RenameMeaning(name: string, n: Node)
    ensures IsSpec(n) <==> n.decl.TypeDecl? && n.decl.name == "spec"
    ensures IsDefault(n) <==> n.decl.VarDecl? && |n.decl.idents| > 0 && n.decl.idents[0] == "defaultspec"
    ensures IsSpec(n) ==> Rename(name, n) == Bare(TypeDecl(name, n.decl.definition))
    ensures IsDefault(n) && n.decl.varType.Transform? ==>
      Rename(name, n) == Bare(VarDecl(["default" + name] + n.decl.idents[1..], Transform(n.decl.varType.transform, name), n.decl.value))
    ensures !IsSpec(n) && !IsDefault(n) ==> Rename(name, n) == n
  {
    if IsDefault(n) {
      assert n.decl.idents[0 := "default" + name] == ["default" + name] + n.decl.idents[1..];
    }
  }

  function RenameAll(name: string, nodes: seq<Node>): (r: seq<Node>)
    ensures |r| == |nodes|
  {
    seq(|nodes|, i requires 0 <= i < |nodes| => Rename(name, nodes[i]))
  }

  /** The position of the last spec, or default, declaration; -1 if there is none. */
  function LastSpec(nodes: seq<Node>): (i: int)
    ensures -1 <= i < |nodes| && (i >= 0 ==> IsSpec(nodes[i]))
    ensures forall j :: i < j < |nodes| ==> !IsSpec(nodes[j])
  {
    if nodes == [] then -1
    else if IsSpec(nodes[|nodes| - 1]) then |nodes| - 1
    else LastSpec(nodes[..|nodes| - 1])
  }

  function LastDefault(nodes: seq<Node>): (i: int)
    ensures -1 <= i < |nodes| && (i >= 0 ==> IsDefault(nodes[i]))
    ensures forall j :: i < j < |nodes| ==> !IsDefault(nodes[j])
  {
    if nodes == [] then -1
    else if IsDefault(nodes[|nodes| - 1]) then |nodes| - 1
    else LastDefault(nodes[..|nodes| - 1])
  }

  function Without<T>(s: seq<T>, i: nat): seq<T>
    requires i < |s|
  {
    s[..i] + s[i + 1..]
  }

  /** s without its elements at two different positions; all others in their order. */
  function WithoutBoth<T>(s: seq<T>, i: nat, j: nat): seq<T>
    requires i < |s| && j < |s| && i != j
  {
    var lo, hi := if i < j then i else j, if i < j then j else i;
    s[..lo] + s[lo + 1..hi] + s[hi + 1..]
  }

  /** The arrangement the code aims at: the other nodes in their order, then spec, then its default. */
  function Intended(name: string, nodes: seq<Node>): seq<Node> {
    var s, d, renamed := LastSpec(nodes), LastDefault(nodes), RenameAll(name, nodes);
    if s >= 0 && d >= 0 && s != d then WithoutBoth(renamed, s, d) + [renamed[s], renamed[d]]
    else if s >= 0 then Without(renamed, s) + [renamed[s]]
    else if d >= 0 then Without(renamed, d) + [renamed[d]]
    else renamed
  }

  /** The index -1 is reached, and the code panics, when the default leads a file without spec. */
  predicate Movable(nodes: seq<Node>) {
    LastSpec(nodes) >= 0 || LastDefault(nodes) != 0
  }

  /** What the code leaves: without a spec declaration the node before the default is moved. */
  function Actual(name: string, nodes: seq<Node>): seq<Node>
    requires Movable(nodes)
  {
    var s, d, renamed := LastSpec(nodes), LastDefault(nodes), RenameAll(name, nodes);
    if s < 0 && d >= 0 then Without(renamed, d - 1) + [renamed[d - 1]] else Intended(name, nodes)
  }

  /** The loop of renameSpecNode: renames in place and reports where it did so last. */
  method RenameNodes(name: string, tf: File) returns (panics: bool, specidx: int, specdefidx: int)
    modifies tf
    ensures panics <==> !Renamable(old(tf.nodes))
    ensures !panics ==> tf.nodes == RenameAll(name, old(tf.nodes))
    ensures !panics ==> specidx == LastSpec(old(tf.nodes)) && specdefidx == LastDefault(old(tf.nodes))
  {
    panics, specidx, specdefidx := false, -1, -1;
    ghost var nodes := tf.nodes;
    for idx := 0 to |tf.nodes|
      invariant |tf.nodes| == |nodes| && !panics && Renamable(nodes[..idx])
      invariant forall k :: 0 <= k < |nodes| ==> tf.nodes[k] == if k < idx then Rename(name, nodes[k]) else nodes[k]
      invariant specidx == LastSpec(nodes[..idx]) && specdefidx == LastDefault(nodes[..idx])
    {
      OneNodeMore(nodes, idx);
      var def := tf.nodes[idx].decl;
      match def {
        case TypeDecl(declName, _) =>
          if declName == SPEC {
            specidx := idx;
            tf.nodes := tf.nodes[idx := Bare(def.(name := name))];
          }
        case VarDecl(idents, varType, _) =>
          if |idents| == 0 {
            return true, specidx, specdefidx;
          }
          if idents[0] == DEFAULT_SPEC {
            if !varType.Transform? {
              return true, specidx, specdefidx;
            }
            specdefidx := idx;
            tf.nodes := tf.nodes[idx := Bare(def.(idents := idents[0 := DEFAULT + name], varType := varType.(expr := name)))];
          }
        case OtherDecl(_) =>
      }
    }
    assert nodes[..|nodes|] == nodes;
  }

  lemma OneNodeMore(nodes: seq<Node>, idx: nat)
    requires idx < |nodes|
    ensures LastSpec(nodes[..idx + 1]) == if IsSpec(nodes[idx]) then idx else LastSpec(nodes[..idx])
    ensures LastDefault(nodes[..idx + 1]) == if IsDefault(nodes[idx]) then idx else LastDefault(nodes[..idx])
    ensures Renamable(nodes[..idx + 1]) <==> Renamable(nodes[..idx]) && Renamable([nodes[idx]])
  {
    assert nodes[..idx + 1] == nodes[..idx] + [nodes[idx]] && nodes[..idx + 1][..idx] == nodes[..idx];
  }

  /** The two moves of renameSpecNode, on the nodes of the file. */
  method MoveNodes(tf: File, specidx: int, defaultidx: int) returns (panics: bool)
    requires -1 <= specidx < |tf.nodes| && -1 <= defaultidx < |tf.nodes|
    requires specidx >= 0 ==> specidx != defaultidx
    modifies tf
    ensures panics <==> specidx < 0 && defaultidx == 0
    ensures !panics ==>
      var s := old(tf.nodes);
      tf.nodes ==
        if specidx >= 0 && defaultidx >= 0 then WithoutBoth(s, specidx, defaultidx) + [s[specidx], s[defaultidx]]
        else if specidx >= 0 then Without(s, specidx) + [s[specidx]]
        else if defaultidx >= 0 then Without(s, defaultidx - 1) + [s[defaultidx - 1]]
        else s
  {
    var specdefidx := defaultidx;
    MovesCompose(tf.nodes, specidx, defaultidx);
    if specidx != -1 {
      var decl := tf.nodes[specidx];
      tf.nodes := Without(tf.nodes, specidx) + [decl];
    }
    if specdefidx != -1 {
      if specdefidx > specidx {
        specdefidx := specdefidx - 1;
      }
      if specdefidx < 0 {
        return true;
      }
      var decl := tf.nodes[specdefidx];
      tf.nodes := Without(tf.nodes, specdefidx) + [decl];
    }
    panics := false;
  }

  /** The moves of the last spec and default of a list are what the code leaves of it. */
  lemma MovedIsActual(name: string, nodes: seq<Node>, s: int, d: int)
    requires s == LastSpec(nodes) && d == LastDefault(nodes)
    ensures s >= 0 ==> s != d
    ensures Movable(nodes) <==> s >= 0 || d != 0
    ensures Movable(nodes) ==>
      var renamed := RenameAll(name, nodes);
      Actual(name, nodes) ==
        if s >= 0 && d >= 0 then WithoutBoth(renamed, s, d) + [renamed[s], renamed[d]]
        else if s >= 0 then Without(renamed, s) + [renamed[s]]
        else if d >= 0 then Without(renamed, d - 1) + [renamed[d - 1]]
        else renamed
  {
    assert s >= 0 ==> IsSpec(nodes[s]);
    assert d >= 0 ==> IsDefault(nodes[d]);
  }

  /** renameSpecNode, in place on the file. After a panic nothing is promised of it. */
  method RenameSpecNode(name: string, tf: File) returns (panics: bool)
    modifies tf
    ensures panics <==> !Renamable(old(tf.nodes)) || !Movable(old(tf.nodes))
    ensures !panics ==> tf.nodes == Actual(name, old(tf.nodes))
  {
    ghost var nodes := tf.nodes;
    var fails, specidx, specdefidx := RenameNodes(name, tf);
    if fails {
      return true;
    }
    MovedIsActual(name, nodes, specidx, specdefidx);
    panics := MoveNodes(tf, specidx, specdefidx);
  }

  /** Removing and appending one position, then the corrected other one, keeps all other elements in order. */
  lemma MovesCompose<T>(s: seq<T>, i: int, j: int)
    requires -1 <= i < |s| && -1 <= j < |s|
    ensures i >= 0 && j >= 0 && i != j ==>
      var moved := Without(s, i) + [s[i]];
      var k := if j > i then j - 1 else j;
      Without(moved, k) + [moved[k]] == WithoutBoth(s, i, j) + [s[i], s[j]]
  {
  }

  lemma RemovedMultiset<T>(s: seq<T>, i: nat)
    requires i < |s|
    ensures multiset(Without(s, i) + [s[i]]) == multiset(s)
  {
    assert s == s[..i] + [s[i]] + s[i + 1..];
  }

  lemma BothRemovedMultiset<T>(s: seq<T>, i: nat, j: nat)
    requires i < |s| && j < |s| && i != j
    ensures multiset(WithoutBoth(s, i, j) + [s[i], s[j]]) == multiset(s)
  {
    var moved := Without(s, i) + [s[i]];
    MovesCompose(s, i, j);
    RemovedMultiset(s, i);
    RemovedMultiset(moved, if j > i then j - 1 else j);
  }

  /** The code only permutes the renamed nodes, whichever of the two declarations exist. */
  lemma ActualIsPermutation(name: string, nodes: seq<Node>)
    requires Movable(nodes)
    ensures multiset(Actual(name, nodes)) == multiset(RenameAll(name, nodes))
  {
    var s, d, renamed := LastSpec(nodes), LastDefault(nodes), RenameAll(name, nodes);
    if s >= 0 && d >= 0 && s != d {
      BothRemovedMultiset(renamed, s, d);
    } else if s >= 0 {
      RemovedMultiset(renamed, s);
    } else if d >= 0 {
      RemovedMultiset(renamed, d - 1);
    }
  }

  /**
   * The code leaves the intended arrangement if and only if a spec declaration exists, or there
   * is no default to move, or the node before the default is its equal.
   */
  lemma IntendedExactlyWithSpec(name: string, nodes: seq<Node>)
    requires Movable(nodes)
    ensures Actual(name, nodes) == Intended(name, nodes) <==>
      LastSpec(nodes) >= 0 || LastDefault(nodes) < 0 ||
      Rename(name, nodes[LastDefault(nodes) - 1]) == Rename(name, nodes[LastDefault(nodes)])
  {
    if LastSpec(nodes) < 0 && LastDefault(nodes) >= 0 {
      NeighboursMoved(RenameAll(name, nodes), LastDefault(nodes));
    }
  }

  /** Moving an element to the end or moving the one before it differ unless the two are equal. */
  lemma NeighboursMoved<T>(s: seq<T>, d: nat)
    requires 0 < d < |s|
    ensures Without(s, d - 1) + [s[d - 1]] == Without(s, d) + [s[d]] <==> s[d - 1] == s[d]
  {
    var a, b := Without(s, d - 1) + [s[d - 1]], Without(s, d) + [s[d]];
    assert a[|a| - 1] == s[d - 1] && b[|b| - 1] == s[d];
  }

  /** Where an element that is not moved ends up. */
  function Position(i: nat, j: nat, k: nat): int {
    k - (if i < k then 1 else 0) - (if j < k then 1 else 0)
  }

  lemma WithoutBothAt<T>(s: seq<T>, i: nat, j: nat, k: nat)
    requires i < |s| && j < |s| && i != j && k < |s| && k != i && k != j
    ensures 0 <= Position(i, j, k) < |WithoutBoth(s, i, j)| == |s| - 2
    ensures WithoutBoth(s, i, j)[Position(i, j, k)] == s[k]
  {
  }

  /** With both declarations present, spec and its default come last, and the others keep their order. */
  lemma StableDoubleMove(name: string, nodes: seq<Node>)
    requires LastSpec(nodes) >= 0 && LastDefault(nodes) >= 0
    ensures
      var s, d, out, n := LastSpec(nodes), LastDefault(nodes), Actual(name, nodes), |nodes|;
      && s != d && |out| == n
      && out[n - 2] == Rename(name, nodes[s]) && out[n - 1] == Rename(name, nodes[d])
      && (forall k :: 0 <= k < n && k != s && k != d ==>
            0 <= Position(s, d, k) < n - 2 && out[Position(s, d, k)] == Rename(name, nodes[k]))
      && (forall k, l :: 0 <= k < l < n && k != s && k != d && l != s && l != d ==> Position(s, d, k) < Position(s, d, l))
  {
    var s, d, renamed := LastSpec(nodes), LastDefault(nodes), RenameAll(name, nodes);
    forall k | 0 <= k < |nodes| && k != s && k != d
      ensures 0 <= Position(s, d, k) < |nodes| - 2 && Actual(name, nodes)[Position(s, d, k)] == Rename(name, nodes[k])
    {
      WithoutBothAt(renamed, s, d, k);
    }
  }
}
