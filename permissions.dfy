/**
 * The `Permissions` adapter: every principal, a user or a group keyed by its
 * identifier and its type, owns a permission tree. `check` resolves a request to
 * a path and matches it against the default trees, then the principal's own
 * tree, then (for an unmatched user) the trees of its groups. `add` merges paths
 * into a tree and `remove` walks them out of it; the rest are thin wrappers.
 *
 * A reply of `check` is PHP's `false` or an array: `false` and the empty array
 * grant, and the caller's `$options` (when not empty) deny.
 */
module Access {
  import opened Php
  import opened Matcher
  import opened Dedup
  import opened Library
  import opened Removal

  const PathRoute: string := "route"
  const PathCustom: string := "custom"
  const PathGroups: string := "groups"
  const PathUsers: string := "users"
  const ForUser: string := "forUser"

  /** `TYPE_USER` (0) and `TYPE_GROUP` (1). */
  datatype PType = User | Group

  /** The `$type` argument: null and `TYPE_USER` both select users. */
  function TypeOrUser(t: Option<PType>): PType
  {
    if t == Some(Group) then Group else User
  }

  /** The persisted records, one serialized tree per identifier and type. */
  type Store = map<(string, PType), Entries>

  /** The configuration `check` and `add` read: the two default trees and the identifier key. */
  datatype Config = Config(defaultNoUser: Val, defaultUser: Val, userIdentifier: string)

  /** The request shapes `check` recognises: a request object, a dotted string, an array of segments; anything else. */
  datatype Request = Route(controller: string, action: string) | Custom(name: string) | Segments(path: seq<string>) | Other

  /** What `check` returns: `false`, or an array (`array()` on a match, `$options` otherwise). */
  datatype Reply = FalseReply | ArrayReply(entries: Entries)

  /** What a write returns: the save's result, or the `ConfigException` it throws. */
  datatype Outcome = Done(ok: bool) | ConfigError(message: string)

  /** A write's outcome together with the records afterwards. */
  datatype Effect = Effect(outcome: Outcome, store: Store)

  /** A reply the caller reads as access granted: a falsy one. */
  predicate Granted(r: Reply)
  {
    r.FalseReply? || r.entries == []
  }

  /** The path `check` matches for a request. */
  function ResolvePath(request: Request): seq<string>
  {
    match request
    case Route(controller, action) => [PathRoute, controller, action]
    case Custom(name) => [PathCustom] + Explode(name, Separator)
    case Segments(path) => path
    case Other => []
  }

  /** A caller `check` treats as not logged in: falsy, or an array without the identifier. */
  predicate Anonymous(user: Val, idKey: Key)
  {
    Falsy(user) || (user.Arr? && !IsSet(user, idKey))
  }

  /** A scalar principal is wrapped as `array($userId => $user)`. */
  function Principal(user: Val, idKey: Key): Val
  {
    if user.Str? then Arr([(idKey, user)]) else user
  }

  /** `find('first')` by identifier and type; an array identifier (an `IN` query) finds nothing here. */
  function FindRecord(store: Store, id: Val, kind: PType): Option<Entries>
  {
    if id.Str? && (id.s, kind) in store then Some(store[(id.s, kind)]) else None
  }

  /** The message of the `ConfigException` thrown for a principal without the identifier. */
  function NotAvailable(userIdentifier: string): string
  {
    "The user identifier '" + userIdentifier + "' is not available."
  }

  // ---------------------------------------------------------------------------
  // check

  /** The reply of `check($user, $request, $options, $type)` on the records `store`, with the path already resolved. */
  function Decide(store: Store, config: Config, user: Val, path: seq<string>, options: Entries, kind: PType): Reply
    decreases if kind == User then 2 else 0, 0
  {
    var idKey := KeyOf(config.userIdentifier);
    if Anonymous(user, idKey) then
      if Walk(path, config.defaultNoUser).granted then FalseReply else ArrayReply(options)
    else if Walk(path, config.defaultUser).granted then FalseReply
    else
      var principal := Principal(user, idKey);
      match FindRecord(store, Get(principal, idKey), kind)
      case None => ArrayReply(options)
      case Some(tree) =>
        var m := Walk(path, Arr(tree));
        if m.granted || kind == Group || !IsSet(m.tree, S(PathGroups)) then
          Finalised(m, kind, options, idKey)
        else
          GroupLoop(store, config, Values(Get(m.tree, S(PathGroups))), path, Assign(options, S(ForUser), principal), FalseReply)
  }

  /**
   * The reply once the principal's own tree has decided: a match grants and a miss
   * denies, except that a group grants only a user on its `users` roster.
   */
  function Finalised(m: Matched, kind: PType, options: Entries, idKey: Key): Reply
  {
    var result := if m.granted then [] else options;
    if kind != Group || result != [] then ArrayReply(result)
    else if !InArray(Get(Get(Arr(options), S(ForUser)), idKey), Get(m.tree, S(PathUsers))) then ArrayReply(options)
    else ArrayReply(result)
  }

  /** The loop over the user's groups: each is checked as a group in turn, stopping at the first grant. */
  function GroupLoop(store: Store, config: Config, groups: seq<Val>, path: seq<string>, options: Entries, last: Reply): Reply
    decreases 1, |groups|
  {
    if groups == [] then last
    else
      var r := Decide(store, config, groups[0], path, options, Group);
      if Granted(r) then r else GroupLoop(store, config, groups[1..], path, options, r)
  }

  // ---------------------------------------------------------------------------
  // Paths the wrappers build

  /** `array('route' => array($controller => array($action)))`. */
  function ActionPaths(controller: string, action: string): Entries
  {
    [(S(PathRoute), Arr([(KeyOf(controller), Arr([(I(0), Str(action))]))]))]
  }

  /** `Set::expand` of `custom.<all but the last part>.0 => <last part>` for a dotted custom route. */
  function CustomPaths(customRoute: string): Entries
  {
    var parts := Explode(customRoute, Separator);
    var value := parts[|parts| - 1];
    Expand(Implode([PathCustom] + parts[..|parts| - 1] + ["0"], Separator), Str(value))
  }

  /** `array($root => array($member))`, as `addUserToGroup` builds for either side. */
  function MemberPaths(root: string, member: Val): Entries
  {
    [(S(root), Arr([(I(0), member)]))]
  }

  // ---------------------------------------------------------------------------
  // Writes

  /** The tree `add` saves: the paths as given for a new record, else merged and deduplicated. */
  function AddTo(stored: Option<Entries>, paths: Entries): Entries
  {
    match stored
    case None => paths
    case Some(tree) => Deduplicated(MergeRecursive(tree, paths))
  }

  /** `add($user, $paths, $type)`. */
  function AddEffect(store: Store, config: Config, user: Val, paths: Entries, kind: PType): Effect
  {
    var idKey := KeyOf(config.userIdentifier);
    var principal := Principal(user, idKey);
    if !IsSet(principal, idKey) then Effect(ConfigError(NotAvailable(config.userIdentifier)), store)
    else
      var id := Get(principal, idKey);
      Effect(Done(true), store[(CastString(id), kind) := AddTo(FindRecord(store, id, kind), paths)])
  }

  /** `remove($user, $paths, $type)`: the record is looked up by the identifier cast to a string. */
  function RemoveEffect(store: Store, config: Config, user: Val, paths: Entries, kind: PType): Effect
  {
    var idKey := KeyOf(config.userIdentifier);
    var principal := Principal(user, idKey);
    if !IsSet(principal, idKey) then Effect(ConfigError(NotAvailable(config.userIdentifier)), store)
    else
      var key := (CastString(Get(principal, idKey)), kind);
      if key !in store then Effect(Done(true), store)
      else Effect(Done(true), store[key := Removed(store[key], paths)])
  }

  /** `addCustomPath` and `removeCustomPath` refuse a route that is not a string. */
  function CustomEffect(store: Store, config: Config, user: Val, customRoute: Val, kind: PType, adding: bool): Effect
  {
    if !customRoute.Str? then Effect(Done(false), store)
    else if adding then AddEffect(store, config, user, CustomPaths(customRoute.s), kind)
    else RemoveEffect(store, config, user, CustomPaths(customRoute.s), kind)
  }

  /**
   * `addUserToGroup` and `removeUserFromGroup`: the group goes under the user's
   * `groups`, then the user's identifier under the group's `users`; an exception
   * from either write propagates, and the results are ANDed.
   */
  function MembershipEffect(store: Store, config: Config, user: Val, group: Val, adding: bool): Effect
  {
    var userId := Get(user, KeyOf(config.userIdentifier));
    var first :=
      if adding then AddEffect(store, config, user, MemberPaths(PathGroups, group), User)
      else RemoveEffect(store, config, user, MemberPaths(PathGroups, group), User);
    if first.outcome.ConfigError? then first
    else
      var second :=
        if adding then AddEffect(first.store, config, group, MemberPaths(PathUsers, userId), Group)
        else RemoveEffect(first.store, config, group, MemberPaths(PathUsers, userId), Group);
      if second.outcome.ConfigError? then second
      else Effect(Done(first.outcome.ok && second.outcome.ok), second.store)
  }

  /** `removeRow($id, $type)`: false for a null type or a missing record, else the record is deleted. */
  function RemoveRowEffect(store: Store, id: Val, t: Option<PType>): (bool, Store)
  {
    if t.None? then (false, store)
    else match FindRecord(store, id, t.value)
      case None => (false, store)
      case Some(_) => (true, store - {(id.s, t.value)})
  }

  /** `listPerms($user, $type)`: the stored tree, or an empty one. */
  function Listed(store: Store, config: Config, user: Val, kind: PType): Entries
  {
    match FindRecord(store, Get(user, KeyOf(config.userIdentifier)), kind)
    case None => []
    case Some(tree) => tree
  }

  // ---------------------------------------------------------------------------
  // The adapter

  class Permissions {
    const config: Config
    var store: Store

    /** The configuration given, completed by the defaults: empty default trees and the identifier `id`. */
    constructor(records: Store, defaultNoUser: Option<Val>, defaultUser: Option<Val>, userIdentifier: Option<string>)
      ensures config.defaultNoUser == if defaultNoUser.Some? then defaultNoUser.value else Arr([])
      ensures config.defaultUser == if defaultUser.Some? then defaultUser.value else Arr([])
      ensures config.userIdentifier == if userIdentifier.Some? then userIdentifier.value else "id"
      ensures store == records
    {
      config := Config(
        if defaultNoUser.Some? then defaultNoUser.value else Arr([]),
        if defaultUser.Some? then defaultUser.value else Arr([]),
        if userIdentifier.Some? then userIdentifier.value else "id");
      store := records;
    }

    /** `check`: the loop over the groups calls `check` again with the resolved path and `TYPE_GROUP`. */
    method Check(user: Val, request: Request, options: Entries, t: Option<PType>) returns (r: Reply)
      ensures r == Decide(store, config, user, ResolvePath(request), options, TypeOrUser(t))
      decreases if TypeOrUser(t) == User then 2 else 0
    {
      var kind := TypeOrUser(t);
      var path := ResolvePath(request);
      var idKey := KeyOf(config.userIdentifier);
      if Anonymous(user, idKey) {
        var hasAccess, _ := ProcessPath(path, config.defaultNoUser);
        return if hasAccess then FalseReply else ArrayReply(options);
      }
      var result, _ := ProcessPath(path, config.defaultUser);
      if result {
        return FalseReply;
      }
      var principal := Principal(user, idKey);
      var perms := FindRecord(store, Get(principal, idKey), kind);
      if perms.None? {
        return ArrayReply(options);
      }
      var matched, userPath := ProcessPath(path, Arr(perms.value));
      var userHasGroups := IsSet(userPath, S(PathGroups));
      if matched || kind == Group || !userHasGroups {
        var own := if matched then [] else options;
        if kind != Group || own != [] {
          return ArrayReply(own);
        }
        if !InArray(Get(Get(Arr(options), S(ForUser)), idKey), Get(userPath, S(PathUsers))) {
          return ArrayReply(options);
        }
        return ArrayReply(own);
      }
      var forUser := Assign(options, S(ForUser), principal);
      r := CheckGroups(Values(Get(userPath, S(PathGroups))), path, forUser);
    }

    /** The loop of `check` over a user's groups: each is checked as a group, and the first grant is returned. */
    method CheckGroups(groups: seq<Val>, path: seq<string>, forUser: Entries) returns (r: Reply)
      ensures r == GroupLoop(store, config, groups, path, forUser, FalseReply)
      decreases 1
    {
      r := FalseReply;
      var i := 0;
      while i < |groups|
        invariant 0 <= i <= |groups|
        invariant GroupLoop(store, config, groups[i..], path, forUser, r) == GroupLoop(store, config, groups, path, forUser, FalseReply)
      {
        assert groups[i..][0] == groups[i] && groups[i..][1..] == groups[i + 1..];
        r := Check(groups[i], Segments(path), forUser, Some(Group));
        if Granted(r) {
          return;
        }
        i := i + 1;
      }
    }

    /** `add`: a new record holds the paths as given; an existing one the merged, deduplicated tree. */
    method Add(user: Val, paths: Entries, t: Option<PType>) returns (outcome: Outcome)
      modifies this
      ensures Effect(outcome, store) == AddEffect(old(store), config, user, paths, TypeOrUser(t))
    {
      var kind := TypeOrUser(t);
      var idKey := KeyOf(config.userIdentifier);
      var principal := Principal(user, idKey);
      if !IsSet(principal, idKey) {
        return ConfigError(NotAvailable(config.userIdentifier));
      }
      var id := Get(principal, idKey);
      var found := FindRecord(store, id, kind);
      if found.None? {
        store := store[(CastString(id), kind) := paths];
      } else {
        var allowedPaths := MergeRecursive(found.value, paths);
        allowedPaths := Unique(allowedPaths);
        store := store[(CastString(id), kind) := allowedPaths];
      }
      return Done(true);
    }

    /** `remove`: the removal walk over the flattened paths, then `_cleanPaths`, saved back. */
    method Remove(user: Val, paths: Entries, t: Option<PType>) returns (outcome: Outcome)
      modifies this
      ensures Effect(outcome, store) == RemoveEffect(old(store), config, user, paths, TypeOrUser(t))
    {
      var kind := TypeOrUser(t);
      var idKey := KeyOf(config.userIdentifier);
      var principal := Principal(user, idKey);
      if !IsSet(principal, idKey) {
        return ConfigError(NotAvailable(config.userIdentifier));
      }
      var key := (CastString(Get(principal, idKey)), kind);
      if key !in store {
        return Done(true);
      }
      var cleaned := RemovePaths(store[key], paths);
      store := store[key := cleaned];
      return Done(true);
    }

    method AddAction(user: Val, controller: string, action: string, t: Option<PType>) returns (outcome: Outcome)
      modifies this
      ensures Effect(outcome, store) == AddEffect(old(store), config, user, ActionPaths(controller, action), TypeOrUser(t))
    {
      outcome := Add(user, ActionPaths(controller, action), t);
    }

    method RemoveAction(user: Val, controller: string, action: string, t: Option<PType>) returns (outcome: Outcome)
      modifies this
      ensures Effect(outcome, store) == RemoveEffect(old(store), config, user, ActionPaths(controller, action), TypeOrUser(t))
    {
      outcome := Remove(user, ActionPaths(controller, action), t);
    }

    method AddCustomPath(user: Val, customRoute: Val, t: Option<PType>) returns (outcome: Outcome)
      modifies this
      ensures Effect(outcome, store) == CustomEffect(old(store), config, user, customRoute, TypeOrUser(t), true)
    {
      if !customRoute.Str? {
        return Done(false);
      }
      outcome := Add(user, CustomPaths(customRoute.s), t);
    }

    method RemoveCustomPath(user: Val, customRoute: Val, t: Option<PType>) returns (outcome: Outcome)
      modifies this
      ensures Effect(outcome, store) == CustomEffect(old(store), config, user, customRoute, TypeOrUser(t), false)
    {
      if !customRoute.Str? {
        return Done(false);
      }
      outcome := Remove(user, CustomPaths(customRoute.s), t);
    }

    method AddUserToGroup(user: Val, group: Val) returns (outcome: Outcome)
      modifies this
      ensures Effect(outcome, store) == MembershipEffect(old(store), config, user, group, true)
    {
      var userId := Get(user, KeyOf(config.userIdentifier));
      var added := Add(user, MemberPaths(PathGroups, group), Some(User));
      if added.ConfigError? {
        return added;
      }
      var grp := Add(group, MemberPaths(PathUsers, userId), Some(Group));
      if grp.ConfigError? {
        return grp;
      }
      return Done(added.ok && grp.ok);
    }

    method RemoveUserFromGroup(user: Val, group: Val) returns (outcome: Outcome)
      modifies this
      ensures Effect(outcome, store) == MembershipEffect(old(store), config, user, group, false)
    {
      var userId := Get(user, KeyOf(config.userIdentifier));
      var removed := Remove(user, MemberPaths(PathGroups, group), Some(User));
      if removed.ConfigError? {
        return removed;
      }
      var grp := Remove(group, MemberPaths(PathUsers, userId), Some(Group));
      if grp.ConfigError? {
        return grp;
      }
      return Done(removed.ok && grp.ok);
    }

    /** `createGroup`: a group record with an empty tree. */
    method CreateGroup(name: string) returns (ok: bool)
      modifies this
      ensures ok && store == old(store)[(name, Group) := []]
    {
      store := store[(name, Group) := []];
      ok := true;
    }

    method RemoveRow(id: Val, t: Option<PType>) returns (ok: bool)
      modifies this
      ensures (ok, store) == RemoveRowEffect(old(store), id, t)
    {
      if t.None? {
        return false;
      }
      var result := FindRecord(store, id, t.value);
      if result.None? {
        return false;
      }
      store := store - {(id.s, t.value)};
      return true;
    }

    method RemoveGroup(name: Val) returns (ok: bool)
      modifies this
      ensures (ok, store) == RemoveRowEffect(old(store), name, Some(Group))
    {
      ok := RemoveRow(name, Some(Group));
    }

    /** `removeUser`: false for a principal without the identifier, else its user record is removed. */
    method RemoveUser(user: Val) returns (ok: bool)
      modifies this
      ensures !IsSet(user, KeyOf(config.userIdentifier)) ==> !ok && store == old(store)
      ensures IsSet(user, KeyOf(config.userIdentifier)) ==>
        (ok, store) == RemoveRowEffect(old(store), Get(user, KeyOf(config.userIdentifier)), Some(User))
    {
      var userId := KeyOf(config.userIdentifier);
      if !IsSet(user, userId) {
        return false;
      }
      ok := RemoveRow(Get(user, userId), Some(User));
    }

    method ListPerms(user: Val, t: Option<PType>) returns (perms: Entries)
      ensures perms == Listed(store, config, user, TypeOrUser(t))
    {
      var userId := Get(user, KeyOf(config.userIdentifier));
      var result := FindRecord(store, userId, TypeOrUser(t));
      perms := if result.Some? then result.value else [];
    }

    method GroupAddAction(name: Val, controller: string, action: string) returns (outcome: Outcome)
      modifies this
      ensures Effect(outcome, store) == AddEffect(old(store), config, name, ActionPaths(controller, action), Group)
    {
      outcome := AddAction(name, controller, action, Some(Group));
    }

    method GroupAddCustomPath(name: Val, customRoute: Val) returns (outcome: Outcome)
      modifies this
      ensures Effect(outcome, store) == CustomEffect(old(store), config, name, customRoute, Group, true)
    {
      outcome := AddCustomPath(name, customRoute, Some(Group));
    }

    method GroupAdd(name: Val, paths: Entries) returns (outcome: Outcome)
      modifies this
      ensures Effect(outcome, store) == AddEffect(old(store), config, name, paths, Group)
    {
      outcome := Add(name, paths, Some(Group));
    }

    method GroupRemoveAction(name: Val, controller: string, action: string) returns (outcome: Outcome)
      modifies this
      ensures Effect(outcome, store) == RemoveEffect(old(store), config, name, ActionPaths(controller, action), Group)
    {
      outcome := RemoveAction(name, controller, action, Some(Group));
    }

    method GroupRemoveCustomPath(name: Val, customRoute: Val) returns (outcome: Outcome)
      modifies this
      ensures Effect(outcome, store) == CustomEffect(old(store), config, name, customRoute, Group, false)
    {
      outcome := RemoveCustomPath(name, customRoute, Some(Group));
    }

    method GroupRemove(name: Val, paths: Entries) returns (outcome: Outcome)
      modifies this
      ensures Effect(outcome, store) == RemoveEffect(old(store), config, name, paths, Group)
    {
      outcome := Remove(name, paths, Some(Group));
    }
  }
}
