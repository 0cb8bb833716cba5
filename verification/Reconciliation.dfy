/**
 * What the store holds after a permission update: the levels of the requested list and of the hidden
 * entries that the caller is not allowed to see, and what grantees that were not listed had before.
 */
module Reconciliation {
  import opened Basics
  import opened Permissions

  /** An entry of the current list is about exactly one user, team or role. */
  predicate EntryWellFormed(o: Entry) {
    || (o.userID > 0 && o.teamID == 0 && o.role.None?)
    || (o.userID == 0 && o.teamID > 0 && o.role.None?)
    || (o.userID == 0 && o.teamID == 0 && o.role.Some? && o.role.value != "")
  }

  /** The current list is read from the store: at most one entry per grantee that holds an action of some level, with the name of what it holds. */
  ghost predicate Mirrors(levels: Levels, acl: seq<Entry>, grants: Grants) {
    && (forall k :: 0 <= k < |acl| ==> EntryWellFormed(acl[k]))
    && (forall k, l :: 0 <= k < l < |acl| ==> EntryGrantee(acl[k]) != EntryGrantee(acl[l]))
    && (forall k :: 0 <= k < |acl| ==> Held(grants, EntryGrantee(acl[k])) * levels.admin != {})
    && (forall k :: 0 <= k < |acl| ==> acl[k].permission == Number(levels.NameOf(Held(grants, EntryGrantee(acl[k])))))
  }

  ghost predicate Listed(acl: seq<Entry>, g: Grantee) {
    exists k :: 0 <= k < |acl| && EntryGrantee(acl[k]) == g
  }

  /** The list is complete: it leaves out nobody who holds an action of some level. */
  ghost predicate Complete(levels: Levels, acl: seq<Entry>, grants: Grants) {
    forall g :: g in grants && grants[g] * levels.admin != {} ==> Listed(acl, g)
  }

  /** The permission of the last item about a grantee. */
  function LastPermission(items: seq<Item>, g: Grantee): Option<Permission> {
    if items == [] then None
    else if ItemGrantee(items[|items| - 1]) == g then Some(items[|items| - 1].permission)
    else LastPermission(items[..|items| - 1], g)
  }

  /** The actions that the last item about g asks for; `otherwise` if there is no such item. */
  function Asked(levels: Levels, items: seq<Item>, g: Grantee, otherwise: Actions): Actions {
    match LastPermission(items, g)
    case None => otherwise
    case Some(p) => levels.Of(Name(p))
  }

  /** The permission of an item is the one asked for exactly when no later item is about the same grantee. */
  lemma {:induction false} LastPermissionMeaning(items: seq<Item>, g: Grantee, i: nat)
    requires i < |items| && ItemGrantee(items[i]) == g
    requires forall j :: i < j < |items| ==> ItemGrantee(items[j]) != g
    ensures LastPermission(items, g) == Some(items[i].permission)
  {
    if i < |items| - 1 {
      LastPermissionMeaning(items[..|items| - 1], g, i);
    }
  }

  ghost predicate AllAdmissible(dir: Directory, cs: seq<Command>) {
    forall c :: c in cs ==> Admissible(dir, c)
  }

  // ---------------------------------------------------------------- commands in order

  lemma {:induction false} ApplyAllConcat(levels: Levels, grants: Grants, a: seq<Command>, b: seq<Command>)
    ensures ApplyAll(levels, grants, a + b) == ApplyAll(levels, ApplyAll(levels, grants, a), b)
  {
    if b == [] {
      assert a + b == a;
    } else {
      assert (a + b)[..|a + b| - 1] == a + b[..|b| - 1];
      ApplyAllConcat(levels, grants, a, b[..|b| - 1]);
    }
  }

  /** One command more changes what its grantee holds, and nothing else. */
  lemma ApplyOneMore(levels: Levels, grants: Grants, cs: seq<Command>, c: Command, g: Grantee)
    ensures Held(ApplyAll(levels, grants, cs + [c]), g) ==
            if CommandGrantee(c) == g then levels.Of(c.permission) else Held(ApplyAll(levels, grants, cs), g)
  {
    assert (cs + [c])[..|cs|] == cs;
  }

  lemma {:induction false} AfterSets(levels: Levels, grants: Grants, items: seq<Item>, g: Grantee)
    ensures Held(ApplyAll(levels, grants, SetCommands(items)), g) == Asked(levels, items, g, Held(grants, g))
  {
    if items != [] {
      var front, last := items[..|items| - 1], items[|items| - 1];
      assert SetCommands(items) == SetCommands(front) + [SetCommand(last)];
      AfterSets(levels, grants, front, g);
      ApplyOneMore(levels, grants, SetCommands(front), SetCommand(last), g);
    }
  }

  /** Some current entry about g matches no item. */
  ghost predicate Unmatched(items: seq<Item>, current: seq<Entry>, g: Grantee) {
    exists k :: 0 <= k < |current| && EntryGrantee(current[k]) == g && !Kept(items, current[k])
  }

  lemma UnmatchedAppend(items: seq<Item>, front: seq<Entry>, last: Entry, g: Grantee)
    ensures Unmatched(items, front + [last], g) <==> Unmatched(items, front, g) || (EntryGrantee(last) == g && !Kept(items, last))
  {
    var current := front + [last];
    if k :| 0 <= k < |front| && EntryGrantee(front[k]) == g && !Kept(items, front[k]) {
      assert current[k] == front[k];
    }
    assert current[|front|] == last;
  }

  lemma {:induction false} AfterRemoves(levels: Levels, grants: Grants, items: seq<Item>, current: seq<Entry>, g: Grantee)
    ensures Held(ApplyAll(levels, grants, RemoveCommands(items, current)), g) == if Unmatched(items, current, g) then {} else Held(grants, g)
  {
    if current != [] {
      var front, last := current[..|current| - 1], current[|current| - 1];
      AfterRemoves(levels, grants, items, front, g);
      UnmatchedAppend(items, front, last, g);
      assert current == front + [last];
      ApplyOneMore(levels, grants, RemoveCommands(items, front), RemoveCommand(last), g);
    }
  }

  // ---------------------------------------------------------------- matching

  /** For admissible items the three comparisons of the inner loop amount to comparing grantees. */
  lemma MatchesIsSameGrantee(dir: Directory, item: Item, o: Entry)
    requires Sound(dir) && ItemValid(item) && Admissible(dir, SetCommand(item)) && EntryWellFormed(o)
    ensures Matches(item, o) <==> ItemGrantee(item) == EntryGrantee(o)
  {
  }

  lemma {:induction false} LastPermissionExists(items: seq<Item>, g: Grantee)
    ensures LastPermission(items, g).Some? <==> exists i :: 0 <= i < |items| && ItemGrantee(items[i]) == g
  {
    if items != [] {
      LastPermissionExists(items[..|items| - 1], g);
      if i :| 0 <= i < |items| && ItemGrantee(items[i]) == g && i < |items| - 1 {
        assert items[..|items| - 1][i] == items[i];
      }
    }
  }

  lemma KeptIsListed(dir: Directory, items: seq<Item>, o: Entry)
    requires Sound(dir) && AllValid(items) && AllAdmissible(dir, SetCommands(items)) && EntryWellFormed(o)
    ensures Kept(items, o) <==> LastPermission(items, EntryGrantee(o)).Some?
  {
    forall i | 0 <= i < |items| ensures Matches(items[i], o) <==> ItemGrantee(items[i]) == EntryGrantee(o) {
      assert SetCommands(items)[i] in SetCommands(items);
      MatchesIsSameGrantee(dir, items[i], o);
    }
    LastPermissionExists(items, EntryGrantee(o));
  }

  /**
   * Reconciliation: the commands leave each grantee exactly the actions of its last item; a listed
   * grantee without item keeps nothing, and one that is not listed keeps what it had.
   */
  lemma StoreHoldsExactlyTheItems(dir: Directory, grants: Grants, items: seq<Item>, acl: seq<Entry>, g: Grantee)
    requires Sound(dir) && (forall k :: 0 <= k < |acl| ==> EntryWellFormed(acl[k])) && AllValid(items)
    requires AllAdmissible(dir, SetCommands(items) + RemoveCommands(items, acl))
    ensures Held(ApplyAll(dir.levels, grants, SetCommands(items) + RemoveCommands(items, acl)), g) ==
            Asked(dir.levels, items, g, if Listed(acl, g) then {} else Held(grants, g))
  {
    var listed := ApplyAll(dir.levels, grants, SetCommands(items));
    assert AllAdmissible(dir, SetCommands(items)) by {
      assert forall c :: c in SetCommands(items) ==> c in SetCommands(items) + RemoveCommands(items, acl);
    }
    ApplyAllConcat(dir.levels, grants, SetCommands(items), RemoveCommands(items, acl));
    AfterSets(dir.levels, grants, items, g);
    AfterRemoves(dir.levels, listed, items, acl, g);
    forall k | 0 <= k < |acl| ensures Kept(items, acl[k]) <==> LastPermission(items, EntryGrantee(acl[k])).Some? {
      KeptIsListed(dir, items, acl[k]);
    }
  }

  /** Against a complete list nobody but the grantees of the items is left with an action of any level. */
  lemma NobodyElseHoldsAnything(dir: Directory, grants: Grants, items: seq<Item>, acl: seq<Entry>, g: Grantee)
    requires Sound(dir) && Mirrors(dir.levels, acl, grants) && Complete(dir.levels, acl, grants) && AllValid(items)
    requires AllAdmissible(dir, SetCommands(items) + RemoveCommands(items, acl))
    ensures Held(ApplyAll(dir.levels, grants, SetCommands(items) + RemoveCommands(items, acl)), g) * dir.levels.admin ==
            Asked(dir.levels, items, g, {})
  {
    StoreHoldsExactlyTheItems(dir, grants, items, acl, g);
  }

  // ---------------------------------------------------------------- hidden entries

  lemma {:induction false} HiddenItemsValid(caller: Caller, hiddenUsers: set<string>, acl: seq<Entry>)
    requires forall k :: 0 <= k < |acl| ==> EntryWellFormed(acl[k])
    ensures AllValid(HiddenItems(caller, hiddenUsers, acl))
  {
    if !caller.isGrafanaAdmin && acl != [] {
      HiddenItemsValid(caller, hiddenUsers, acl[..|acl| - 1]);
    }
  }

  /** The items appended for hidden entries are about hidden entries only, and about all of them. */
  lemma {:induction false} HiddenPermission(caller: Caller, hiddenUsers: set<string>, acl: seq<Entry>, g: Grantee)
    requires forall k, l :: 0 <= k < l < |acl| ==> EntryGrantee(acl[k]) != EntryGrantee(acl[l])
    requires !caller.isGrafanaAdmin
    ensures forall k :: 0 <= k < |acl| && EntryGrantee(acl[k]) == g && IsHidden(caller, hiddenUsers, acl[k]) ==>
      LastPermission(HiddenItems(caller, hiddenUsers, acl), g) == Some(acl[k].permission)
    ensures LastPermission(HiddenItems(caller, hiddenUsers, acl), g).Some? ==>
      exists k :: 0 <= k < |acl| && EntryGrantee(acl[k]) == g && IsHidden(caller, hiddenUsers, acl[k])
  {
    if acl != [] {
      var front, last := acl[..|acl| - 1], acl[|acl| - 1];
      HiddenPermission(caller, hiddenUsers, front, g);
      var hs := HiddenItems(caller, hiddenUsers, front);
      LastPermissionConcat(hs, [HiddenItem(last)], g);
      assert LastPermission([HiddenItem(last)], g) == if EntryGrantee(last) == g then Some(last.permission) else None;
      if k :| 0 <= k < |front| && EntryGrantee(front[k]) == g && IsHidden(caller, hiddenUsers, front[k]) {
        assert acl[k] == front[k];
      }
    }
  }

  lemma {:induction false} LastPermissionConcat(a: seq<Item>, b: seq<Item>, g: Grantee)
    ensures LastPermission(a + b, g) == if LastPermission(b, g).Some? then LastPermission(b, g) else LastPermission(a, g)
  {
    if b == [] {
      assert a + b == a;
    } else {
      assert (a + b)[..|a + b| - 1] == a + b[..|b| - 1];
      LastPermissionConcat(a, b[..|b| - 1], g);
    }
  }

  /** A permission update that went through, with the list that was read from the store. */
  ghost predicate Carried(
    dir: Directory, before: Grants, after: Grants, caller: Caller, hiddenUsers: set<string>, requested: seq<Item>, acl: seq<Entry>)
  {
    var items := requested + HiddenItems(caller, hiddenUsers, acl);
    && Sound(dir) && Mirrors(dir.levels, acl, before) && AllValid(requested)
    && AllAdmissible(dir, SetCommands(items) + RemoveCommands(items, acl))
    && after == ApplyAll(dir.levels, before, SetCommands(items) + RemoveCommands(items, acl))
  }

  lemma CarriedHoldsItems(
    dir: Directory, before: Grants, after: Grants, caller: Caller, hiddenUsers: set<string>, requested: seq<Item>, acl: seq<Entry>, g: Grantee)
    requires Carried(dir, before, after, caller, hiddenUsers, requested, acl)
    ensures Held(after, g) ==
            Asked(dir.levels, requested + HiddenItems(caller, hiddenUsers, acl), g, if Listed(acl, g) then {} else Held(before, g))
  {
    HiddenItemsValid(caller, hiddenUsers, acl);
    StoreHoldsExactlyTheItems(dir, before, requested + HiddenItems(caller, hiddenUsers, acl), acl, g);
  }

  /** A hidden entry is set to the level it is named by. */
  lemma HiddenEntriesAreReset(
    dir: Directory, before: Grants, after: Grants, caller: Caller, hiddenUsers: set<string>, requested: seq<Item>, acl: seq<Entry>, k: nat)
    requires Carried(dir, before, after, caller, hiddenUsers, requested, acl)
    requires !caller.isGrafanaAdmin && k < |acl| && IsHidden(caller, hiddenUsers, acl[k])
    ensures Held(after, EntryGrantee(acl[k])) == dir.levels.Of(dir.levels.NameOf(Held(before, EntryGrantee(acl[k]))))
  {
    var g := EntryGrantee(acl[k]);
    var hidden := HiddenItems(caller, hiddenUsers, acl);
    CarriedHoldsItems(dir, before, after, caller, hiddenUsers, requested, acl, g);
    HiddenPermission(caller, hiddenUsers, acl, g);
    LastPermissionConcat(requested, hidden, g);
    assert LastPermission(hidden, g) == Some(acl[k].permission);
  }

  /**
   * Hidden entries survive: whatever a caller who is not a Grafana admin requests, every hidden
   * entry other than the caller's own keeps its permission name, but it keeps all its actions if
   * and only if they are exactly those of a level. It never gains an action.
   */
  lemma HiddenEntriesSurvive(
    dir: Directory, before: Grants, after: Grants, caller: Caller, hiddenUsers: set<string>, requested: seq<Item>, acl: seq<Entry>, k: nat)
    requires Carried(dir, before, after, caller, hiddenUsers, requested, acl)
    requires !caller.isGrafanaAdmin && k < |acl|
    requires !acl[k].inherited && acl[k].userLogin != caller.login && acl[k].userLogin in hiddenUsers
    ensures
      var was, now := Held(before, EntryGrantee(acl[k])), Held(after, EntryGrantee(acl[k]));
      && now <= was && dir.levels.NameOf(now) == dir.levels.NameOf(was)
      && (now == was <==> was in {dir.levels.view, dir.levels.edit, dir.levels.admin})
      && (now == {} <==> dir.levels.NameOf(was) == "")
  {
    HiddenEntriesAreReset(dir, before, after, caller, hiddenUsers, requested, acl, k);
    NameOfLevel(dir.levels, Held(before, EntryGrantee(acl[k])));
  }

  /** Cut down: an entry that holds the actions of Edit and one more that does not make it Admin is named Edit, and loses that one. */
  lemma ExtraActionIsLost(
    dir: Directory, before: Grants, after: Grants, caller: Caller, hiddenUsers: set<string>, requested: seq<Item>, acl: seq<Entry>, k: nat, extra: string)
    requires Carried(dir, before, after, caller, hiddenUsers, requested, acl)
    requires !caller.isGrafanaAdmin && k < |acl|
    requires !acl[k].inherited && acl[k].userLogin != caller.login && acl[k].userLogin in hiddenUsers
    requires Held(before, EntryGrantee(acl[k])) == dir.levels.edit + {extra} && extra !in dir.levels.edit
    requires !(dir.levels.admin <= dir.levels.edit + {extra})
    ensures acl[k].permission == PERMISSION_EDIT && Held(after, EntryGrantee(acl[k])) == dir.levels.edit
  {
    HiddenEntriesAreReset(dir, before, after, caller, hiddenUsers, requested, acl, k);
  }

  /** Everyone else ends up as the last requested item says; without one, listed grantees end up with nothing. */
  lemma OthersAreAsRequested(
    dir: Directory, before: Grants, after: Grants, caller: Caller, hiddenUsers: set<string>, requested: seq<Item>, acl: seq<Entry>, g: Grantee)
    requires Carried(dir, before, after, caller, hiddenUsers, requested, acl)
    requires caller.isGrafanaAdmin ||
      forall k :: 0 <= k < |acl| && EntryGrantee(acl[k]) == g ==>
        acl[k].inherited || acl[k].userLogin == caller.login || acl[k].userLogin !in hiddenUsers
    ensures Held(after, g) == Asked(dir.levels, requested, g, if Listed(acl, g) then {} else Held(before, g))
  {
    var hidden := HiddenItems(caller, hiddenUsers, acl);
    CarriedHoldsItems(dir, before, after, caller, hiddenUsers, requested, acl, g);
    LastPermissionConcat(requested, hidden, g);
    if !caller.isGrafanaAdmin {
      HiddenPermission(caller, hiddenUsers, acl, g);
    }
  }

  /** An update on a live store: what it leaves is described by the lemmas above. */
  method Update(
    dir: Directory, store: Store, caller: Caller, hiddenUsers: set<string>, requested: seq<Item>, acl: seq<Entry>)
    returns (r: Response)
    requires Sound(dir) && Mirrors(dir.levels, acl, store.grants)
    modifies store
    ensures r == Updated ==> Carried(dir, old(store.grants), store.grants, caller, hiddenUsers, requested, acl)
    ensures r != Updated ==> store.grants == old(store.grants)
  {
    r := UpdatePermissions(dir, store, caller, hiddenUsers, requested, acl);
  }
}
