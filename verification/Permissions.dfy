/**
 * Replacing the permissions of a dashboard by a requested list (pkg/api/dashboard_permission.go):
 * the list is turned into set and remove commands, and the commands are applied to the store of
 * managed permissions (pkg/services/accesscontrol/resourcepermissions).
 */
module Permissions {
  import opened Basics

  /** A permission number; View, Edit and Admin are the three that have a name. */
  type Permission = int

  const PERMISSION_VIEW: Permission := 1
  const PERMISSION_EDIT: Permission := 2
  const PERMISSION_ADMIN: Permission := 4

  function Name(p: Permission): string {
    if p == PERMISSION_VIEW then "View"
    else if p == PERMISSION_EDIT then "Edit"
    else if p == PERMISSION_ADMIN then "Admin"
    else ""
  }

  /** The number of a permission name; zero for a set of actions that no name covers. */
  function Number(name: string): Permission {
    if name == "View" then PERMISSION_VIEW
    else if name == "Edit" then PERMISSION_EDIT
    else if name == "Admin" then PERMISSION_ADMIN
    else 0
  }

  /** The three names and their numbers; every other number has no name, every other name no number. */
  lemma NamesAndNumbers(p: Permission, name: string)
    ensures Name(p) == "View" <==> p == 1
    ensures Name(p) == "Edit" <==> p == 2
    ensures Name(p) == "Admin" <==> p == 4
    ensures Name(p) == "" <==> p !in {1, 2, 4}
    ensures Number(Name(p)) == if p in {1, 2, 4} then p else 0
    ensures Number(name) == 0 <==> name !in {"View", "Edit", "Admin"}
  {
  }

  /** An entry of the requested list. */
  datatype Item = Item(userID: int, teamID: int, role: Option<string>, permission: Permission)

  /** An entry of the current list, as it is read from the store. */
  datatype Entry = Entry(
    userID: int, userLogin: string, teamID: int, role: Option<string>, permission: Permission, inherited: bool)

  datatype Command = Command(userID: int, teamID: int, builtinRole: string, permission: string)

  datatype Grantee = User(id: int) | Team(id: int) | Role(name: string)

  /** Whom a command is about. */
  function CommandGrantee(c: Command): Grantee {
    if c.userID != 0 then User(c.userID) else if c.teamID != 0 then Team(c.teamID) else Role(c.builtinRole)
  }

  function RoleName(role: Option<string>): string {
    if role.Some? then role.value else ""
  }

  function SetCommand(item: Item): Command {
    Command(item.userID, item.teamID, RoleName(item.role), Name(item.permission))
  }

  function RemoveCommand(o: Entry): Command {
    Command(o.userID, o.teamID, RoleName(o.role), "")
  }

  function ItemGrantee(item: Item): Grantee { CommandGrantee(SetCommand(item)) }

  function EntryGrantee(o: Entry): Grantee { CommandGrantee(RemoveCommand(o)) }

  /** Whom items and entries are about: the user if there is one, else the team, else the role. */
  lemma GranteeMeaning(item: Item, o: Entry)
    ensures item.userID != 0 ==> ItemGrantee(item) == User(item.userID)
    ensures item.userID == 0 && item.teamID != 0 ==> ItemGrantee(item) == Team(item.teamID)
    ensures item.userID == 0 && item.teamID == 0 ==> ItemGrantee(item) == Role(if item.role.Some? then item.role.value else "")
    ensures o.userID != 0 ==> EntryGrantee(o) == User(o.userID)
    ensures o.userID == 0 && o.teamID != 0 ==> EntryGrantee(o) == Team(o.teamID)
    ensures o.userID == 0 && o.teamID == 0 ==> EntryGrantee(o) == Role(if o.role.Some? then o.role.value else "")
  {
  }

  // ---------------------------------------------------------------- the store

  type Actions = set<string>

  /** The actions on one dashboard that the managed role of each grantee has. */
  type Grants = map<Grantee, Actions>

  function Held(grants: Grants, g: Grantee): Actions {
    if g in grants then grants[g] else {}
  }

  /** The actions that the three permission names stand for. */
  datatype Levels = Levels(view: Actions, edit: Actions, admin: Actions) {
    /** Each level adds actions to the one below. */
    predicate Sound() {
      {} < view < edit < admin
    }

    /** mapPermission; the empty name stands for no action. */
    function Of(name: string): Actions {
      if name == "View" then view
      else if name == "Edit" then edit
      else if name == "Admin" then admin
      else {}
    }

    /** MapActions: the name of the largest level that a set of actions contains. */
    function NameOf(actions: Actions): string {
      if admin <= actions then "Admin"
      else if edit <= actions then "Edit"
      else if view <= actions then "View"
      else ""
    }
  }

  /** The level a set of actions is named by is the largest one it contains, and has the same name. */
  lemma NameOfLevel(levels: Levels, actions: Actions)
    requires levels.Sound()
    ensures levels.Of("View") == levels.view && levels.Of("Edit") == levels.edit && levels.Of("Admin") == levels.admin && levels.Of("") == {}
    ensures levels.NameOf(actions) in {"View", "Edit", "Admin", ""}
    ensures levels.Of(levels.NameOf(actions)) <= actions
    ensures forall level :: level in {levels.view, levels.edit, levels.admin} && level <= actions ==> level <= levels.Of(levels.NameOf(actions))
    ensures levels.Of(levels.NameOf(actions)) == actions <==> actions in {{}, levels.view, levels.edit, levels.admin}
    ensures levels.NameOf(levels.Of(levels.NameOf(actions))) == levels.NameOf(actions)
  {
  }

  /** The users, teams and roles that may be given permissions, and what the permissions are. */
  datatype Directory = Directory(users: int -> bool, teams: int -> bool, roles: string -> bool, levels: Levels)

  /** Ids of users and teams are positive, no role has an empty name, and the levels are sound. */
  ghost predicate Sound(dir: Directory) {
    && (forall id :: dir.users(id) ==> id > 0)
    && (forall id :: dir.teams(id) ==> id > 0)
    && !dir.roles("") && dir.levels.Sound()
  }

  predicate KnownName(permission: string) {
    permission == "" || permission == "View" || permission == "Edit" || permission == "Admin"
  }

  predicate Admissible(dir: Directory, c: Command) {
    && (match CommandGrantee(c)
        case User(id) => dir.users(id)
        case Team(id) => dir.teams(id)
        case Role(name) => dir.roles(name))
    && KnownName(c.permission)
  }

  /** A command is carried out when its user, team or role is known; the commands for items and entries never name an unknown permission. */
  lemma AdmissibleMeaning(dir: Directory, item: Item, o: Entry)
    ensures Admissible(dir, SetCommand(item)) <==> Known(dir, ItemGrantee(item))
    ensures Admissible(dir, RemoveCommand(o)) <==> Known(dir, EntryGrantee(o))
  {
  }

  predicate Known(dir: Directory, g: Grantee) {
    match g
    case User(id) => dir.users(id)
    case Team(id) => dir.teams(id)
    case Role(name) => dir.roles(name)
  }

  /** A command leaves its grantee exactly the actions of its level; the empty permission leaves none. */
  function Apply(levels: Levels, grants: Grants, c: Command): Grants {
    Put(grants, CommandGrantee(c), levels.Of(c.permission))
  }

  function Put(grants: Grants, g: Grantee, actions: Actions): Grants {
    if actions == {} then grants - {g} else grants[g := actions]
  }

  function ApplyAll(levels: Levels, grants: Grants, cs: seq<Command>): Grants {
    if cs == [] then grants else Apply(levels, ApplyAll(levels, grants, cs[..|cs| - 1]), cs[|cs| - 1])
  }

  class Store {
    var grants: Grants

    constructor (grants: Grants)
      ensures this.grants == grants
    {
      this.grants := grants;
    }

    /**
     * setResourcePermission: actions that are there already stay, all others of the grantee are
     * deleted, also those no level knows, and the missing ones are inserted.
     */
    method SetResourcePermission(g: Grantee, actions: Actions)
      modifies this
      ensures grants == Put(old(grants), g, actions)
    {
      var missing, remove := actions, {};
      var current := Held(grants, g);
      var rest := current;
      while rest != {}
        invariant rest <= current
        invariant missing == actions - (current - rest)
        invariant remove == (current - rest) - actions
        decreases rest
      {
        var p :| p in rest;
        if p in missing {
          missing := missing - {p};
        } else {
          remove := remove + {p};
        }
        rest := rest - {p};
      }
      var now := current - remove + missing;
      assert now == actions;
      grants := if now == {} then grants - {g} else grants[g := now];
    }

    /** SetPermissions: all commands are checked before the first one is applied. */
    method SetPermissions(dir: Directory, commands: seq<Command>) returns (ok: bool)
      modifies this
      ensures ok <==> forall c :: c in commands ==> Admissible(dir, c)
      ensures grants == if ok then ApplyAll(dir.levels, old(grants), commands) else old(grants)
    {
      for i := 0 to |commands|
        invariant forall c :: c in commands[..i] ==> Admissible(dir, c)
      {
        assert commands[i] in commands;
        if !Admissible(dir, commands[i]) {
          return false;
        }
      }
      assert commands[..|commands|] == commands;
      for i := 0 to |commands|
        invariant grants == ApplyAll(dir.levels, old(grants), commands[..i])
      {
        assert commands[..i + 1][..i] == commands[..i];
        SetResourcePermission(CommandGrantee(commands[i]), dir.levels.Of(commands[i].permission));
      }
      return true;
    }
  }

  // ---------------------------------------------------------------- the reconciler

  /** The comparison of the inner loop: the item is about the same user, team or role. */
  predicate Matches(item: Item, o: Entry) {
    || (item.userID != 0 && item.userID == o.userID)
    || (item.teamID != 0 && item.teamID == o.teamID)
    || (item.role.Some? && o.role.Some? && item.role.value == o.role.value)
  }

  predicate Kept(items: seq<Item>, o: Entry) {
    exists i :: 0 <= i < |items| && Matches(items[i], o)
  }

  function SetCommands(items: seq<Item>): seq<Command> {
    seq(|items|, i requires 0 <= i < |items| => SetCommand(items[i]))
  }

  function RemoveCommands(items: seq<Item>, current: seq<Entry>): seq<Command> {
    if current == [] then []
    else
      var front := RemoveCommands(items, current[..|current| - 1]);
      if Kept(items, current[|current| - 1]) then front else front + [RemoveCommand(current[|current| - 1])]
  }

  /** updateDashboardAccessControl: one set command per item, one remove command per unmatched old entry. */
  method UpdateAccessControl(dir: Directory, store: Store, items: seq<Item>, current: seq<Entry>) returns (ok: bool)
    modifies store
    ensures ok <==> forall c :: c in SetCommands(items) + RemoveCommands(items, current) ==> Admissible(dir, c)
    ensures store.grants ==
      if ok then ApplyAll(dir.levels, old(store.grants), SetCommands(items) + RemoveCommands(items, current)) else old(store.grants)
  {
    var commands: seq<Command> := [];
    for i := 0 to |items|
      invariant commands == SetCommands(items[..i])
    {
      var item := items[i];
      var role := "";
      if item.role.Some? {
        role := item.role.value;
      }
      commands := commands + [Command(item.userID, item.teamID, role, Name(item.permission))];
    }
    assert items[..|items|] == items;
    for k := 0 to |current|
      invariant commands == SetCommands(items) + RemoveCommands(items, current[..k])
    {
      var o := current[k];
      var shouldRemove := true;
      for i := 0 to |items|
        invariant shouldRemove && forall j :: 0 <= j < i ==> !Matches(items[j], o)
      {
        var item := items[i];
        if item.userID != 0 && item.userID == o.userID {
          shouldRemove := false;
          break;
        }
        if item.teamID != 0 && item.teamID == o.teamID {
          shouldRemove := false;
          break;
        }
        if item.role.Some? && o.role.Some? && item.role.value == o.role.value {
          shouldRemove := false;
          break;
        }
      }
      assert shouldRemove <==> !Kept(items, o);
      assert current[..k + 1][..k] == current[..k];
      if shouldRemove {
        var role := "";
        if o.role.Some? {
          role := o.role.value;
        }
        commands := commands + [Command(o.userID, o.teamID, role, "")];
      }
    }
    assert current[..|current|] == current;
    ok := store.SetPermissions(dir, commands);
  }

  datatype Caller = Caller(login: string, isGrafanaAdmin: bool)

  predicate IsHidden(caller: Caller, hiddenUsers: set<string>, o: Entry) {
    !o.inherited && o.userLogin != caller.login && o.userLogin in hiddenUsers
  }

  function HiddenItem(o: Entry): Item {
    Item(o.userID, o.teamID, o.role, o.permission)
  }

  function HiddenItems(caller: Caller, hiddenUsers: set<string>, acl: seq<Entry>): seq<Item> {
    if caller.isGrafanaAdmin || acl == [] then []
    else
      var front := HiddenItems(caller, hiddenUsers, acl[..|acl| - 1]);
      if IsHidden(caller, hiddenUsers, acl[|acl| - 1]) then front + [HiddenItem(acl[|acl| - 1])] else front
  }

  /** Of each entry in turn it is decided whether it is hidden: set directly, not the caller's own, and of a hidden user. */
  lemma HiddenItemsOneMore(caller: Caller, hiddenUsers: set<string>, front: seq<Entry>, o: Entry)
    ensures HiddenItems(caller, hiddenUsers, []) == []
    ensures HiddenItems(caller, hiddenUsers, front + [o]) ==
            HiddenItems(caller, hiddenUsers, front) +
            if !caller.isGrafanaAdmin && !o.inherited && o.userLogin != caller.login && o.userLogin in hiddenUsers
            then [Item(o.userID, o.teamID, o.role, o.permission)] else []
  {
    assert (front + [o])[..|front|] == front;
  }

  method FilterHiddenACL(caller: Caller, hiddenUsers: set<string>, acl: seq<Entry>) returns (hiddenACL: seq<Item>)
    ensures hiddenACL == HiddenItems(caller, hiddenUsers, acl)
    ensures caller.isGrafanaAdmin ==> hiddenACL == []
    ensures !caller.isGrafanaAdmin ==> forall item :: item in hiddenACL <==>
      exists o :: o in acl && !o.inherited && o.userLogin != caller.login && o.userLogin in hiddenUsers &&
        item == Item(o.userID, o.teamID, o.role, o.permission)
  {
    HiddenItemsMembers(caller, hiddenUsers, acl);
    hiddenACL := [];
    if caller.isGrafanaAdmin {
      return;
    }
    for k := 0 to |acl|
      invariant hiddenACL == HiddenItems(caller, hiddenUsers, acl[..k])
    {
      var item := acl[k];
      assert acl[..k + 1][..k] == acl[..k];
      if item.inherited || item.userLogin == caller.login {
        continue;
      }
      if item.userLogin in hiddenUsers {
        hiddenACL := hiddenACL + [HiddenItem(item)];
      }
    }
    assert acl[..|acl|] == acl;
  }

  lemma {:induction false} HiddenItemsMembers(caller: Caller, hiddenUsers: set<string>, acl: seq<Entry>)
    ensures !caller.isGrafanaAdmin ==> forall item :: item in HiddenItems(caller, hiddenUsers, acl) <==>
      exists o :: o in acl && !o.inherited && o.userLogin != caller.login && o.userLogin in hiddenUsers &&
        item == Item(o.userID, o.teamID, o.role, o.permission)
  {
    if acl != [] {
      var front, last := acl[..|acl| - 1], acl[|acl| - 1];
      HiddenItemsMembers(caller, hiddenUsers, front);
      HiddenItemsOneMore(caller, hiddenUsers, front, last);
      assert acl == front + [last];
    }
  }

  datatype Rejection = UserAndTeam | RoleWithGrantee

  predicate ItemValid(item: Item) {
    !(item.userID > 0 && item.teamID > 0) && !((item.userID > 0 || item.teamID > 0) && item.role.Some?)
  }

  ghost predicate AllValid(items: seq<Item>) {
    forall i :: 0 <= i < |items| ==> ItemValid(items[i])
  }

  method ValidatePermissionsUpdate(items: seq<Item>) returns (r: Option<Rejection>)
    ensures r.None? <==> AllValid(items)
    ensures r.None? ==> forall i :: 0 <= i < |items| ==>
      (items[i].userID <= 0 || items[i].teamID <= 0) && (items[i].role.Some? ==> items[i].userID <= 0 && items[i].teamID <= 0)
    ensures r == Some(UserAndTeam) ==>
      exists i :: 0 <= i < |items| && AllValid(items[..i]) && items[i].userID > 0 && items[i].teamID > 0
    ensures r == Some(RoleWithGrantee) ==>
      exists i :: 0 <= i < |items| && AllValid(items[..i]) && items[i].role.Some? && (items[i].userID > 0 <==> items[i].teamID <= 0)
  {
    for i := 0 to |items|
      invariant AllValid(items[..i])
    {
      var item := items[i];
      if item.userID > 0 && item.teamID > 0 {
        return Some(UserAndTeam);
      }
      if (item.userID > 0 || item.teamID > 0) && item.role.Some? {
        return Some(RoleWithGrantee);
      }
    }
    assert items[..|items|] == items;
    return None;
  }

  datatype Response = BadRequest(rejection: Rejection) | Failed | Updated

  /** UpdateDashboardPermissions: hidden entries are appended behind the requested ones. */
  method UpdatePermissions(dir: Directory, store: Store, caller: Caller, hiddenUsers: set<string>, requested: seq<Item>, acl: seq<Entry>)
    returns (r: Response)
    modifies store
    ensures r.BadRequest? <==> !AllValid(requested)
    ensures r != Updated ==> store.grants == old(store.grants)
    ensures r == Failed <==>
      var items := requested + HiddenItems(caller, hiddenUsers, acl);
      AllValid(requested) && exists c :: c in SetCommands(items) + RemoveCommands(items, acl) && !Admissible(dir, c)
    ensures r == Updated ==>
      var items := requested + HiddenItems(caller, hiddenUsers, acl);
      && (forall c :: c in SetCommands(items) + RemoveCommands(items, acl) ==> Admissible(dir, c))
      && store.grants == ApplyAll(dir.levels, old(store.grants), SetCommands(items) + RemoveCommands(items, acl))
  {
    var rejection := ValidatePermissionsUpdate(requested);
    if rejection.Some? {
      return BadRequest(rejection.value);
    }
    var hidden := FilterHiddenACL(caller, hiddenUsers, acl);
    var ok := UpdateAccessControl(dir, store, requested + hidden, acl);
    return if ok then Updated else Failed;
  }
}
