/**
 * What `check` decides: the default trees come first, then the principal's own
 * tree, then (for an unmatched user with groups) the trees of its groups, each
 * of which grants only a user on its roster.
 */
module CheckFacts {
  import opened Php
  import opened Matcher
  import opened Library
  import opened Access

  /** The group `g`, checked for `path` on behalf of the caller recorded in `options`, grants. */
  predicate GroupGrants(store: Store, config: Config, g: Val, path: seq<string>, options: Entries)
  {
    Granted(Decide(store, config, g, path, options, Group))
  }

  // ---------------------------------------------------------------------------
  // Before the records are read

  /** A falsy caller, or an array without the identifier, is decided by `defaultNoUser` alone. */
  lemma AnonymousUsesDefaultNoUser(s1: Store, s2: Store, config: Config, user: Val, path: seq<string>, options: Entries, kind: PType)
    requires Anonymous(user, KeyOf(config.userIdentifier))
    ensures Decide(s1, config, user, path, options, kind) == Decide(s2, config, user, path, options, kind)
    ensures Granted(Decide(s1, config, user, path, options, kind)) <==> Walk(path, config.defaultNoUser).granted || options == []
  {
  }

  /** An identified caller whose path `defaultUser` matches is granted without any record being read. */
  lemma DefaultUserGrants(store: Store, config: Config, user: Val, path: seq<string>, options: Entries, kind: PType)
    requires !Anonymous(user, KeyOf(config.userIdentifier)) && Walk(path, config.defaultUser).granted
    ensures Decide(store, config, user, path, options, kind) == FalseReply
  {
  }

  /** Past the defaults, a principal without a record is refused with `$options`. */
  lemma MissingRecordDenies(store: Store, config: Config, user: Val, path: seq<string>, options: Entries, kind: PType)
    requires !Anonymous(user, KeyOf(config.userIdentifier)) && !Walk(path, config.defaultUser).granted
    requires FindRecord(store, Get(Principal(user, KeyOf(config.userIdentifier)), KeyOf(config.userIdentifier)), kind).None?
    ensures Decide(store, config, user, path, options, kind) == ArrayReply(options)
  {
  }

  /** A request of no recognised shape leaves the path empty, which every tree matches: it is always granted. */
  lemma UnrecognisedRequestGranted(store: Store, config: Config, user: Val, options: Entries, kind: PType)
    ensures ResolvePath(Other) == []
    ensures Decide(store, config, user, ResolvePath(Other), options, kind) == FalseReply
  {
  }

  /** A dotted custom request is `custom` followed by the dot-separated parts, which join back to the request. */
  lemma CustomRequestPath(name: string)
    ensures ResolvePath(Custom(name))[0] == PathCustom
    ensures Implode(ResolvePath(Custom(name))[1..], Separator) == name
    ensures NoSeparator(ResolvePath(Custom(name))[1..], Separator)
  {
    assert ResolvePath(Custom(name))[1..] == Explode(name, Separator);
    ImplodeExplode(name, Separator);
    ExplodeNoSeparator(name, Separator);
  }

  // ---------------------------------------------------------------------------
  // The principal's own tree

  /** A user whose own tree matches is granted. */
  lemma OwnMatchGrantsUser(store: Store, config: Config, user: Val, path: seq<string>, options: Entries, tree: Entries)
    requires !Anonymous(user, KeyOf(config.userIdentifier))
    requires FindRecord(store, Get(Principal(user, KeyOf(config.userIdentifier)), KeyOf(config.userIdentifier)), User) == Some(tree)
    requires Walk(path, Arr(tree)).granted
    ensures Granted(Decide(store, config, user, path, options, User))
  {
  }

  /** A user whose own tree does not match and holds no `groups` is refused with `$options`. */
  lemma NoGroupsDenies(store: Store, config: Config, user: Val, path: seq<string>, options: Entries, tree: Entries)
    requires !Anonymous(user, KeyOf(config.userIdentifier)) && !Walk(path, config.defaultUser).granted
    requires FindRecord(store, Get(Principal(user, KeyOf(config.userIdentifier)), KeyOf(config.userIdentifier)), User) == Some(tree)
    requires !Walk(path, Arr(tree)).granted && !IsSet(Walk(path, Arr(tree)).tree, S(PathGroups))
    ensures Decide(store, config, user, path, options, User) == ArrayReply(options)
  {
  }

  /**
   * A group grants exactly when its tree matches and the caller's identifier in
   * `options.forUser` is on its `users` roster (or when `$options` is empty, as
   * then a refusal reads as a grant); a group never replies `false` here.
   */
  lemma GroupGrantsOnlyRoster(store: Store, config: Config, group: Val, path: seq<string>, options: Entries, tree: Entries)
    requires !Anonymous(group, KeyOf(config.userIdentifier)) && !Walk(path, config.defaultUser).granted
    requires FindRecord(store, Get(Principal(group, KeyOf(config.userIdentifier)), KeyOf(config.userIdentifier)), Group) == Some(tree)
    ensures var m := Walk(path, Arr(tree));
      Granted(Decide(store, config, group, path, options, Group)) <==>
        options == [] ||
        (m.granted && InArray(Get(Get(Arr(options), S(ForUser)), KeyOf(config.userIdentifier)), Get(m.tree, S(PathUsers))))
    ensures Decide(store, config, group, path, options, Group) in {ArrayReply([]), ArrayReply(options)}
  {
  }

  /** A group check never follows groups: it reads the group's own record and nothing else. */
  lemma GroupCheckReadsOwnRecord(s1: Store, s2: Store, config: Config, group: Val, path: seq<string>, options: Entries)
    requires var idKey := KeyOf(config.userIdentifier);
      FindRecord(s1, Get(Principal(group, idKey), idKey), Group) == FindRecord(s2, Get(Principal(group, idKey), idKey), Group)
    ensures Decide(s1, config, group, path, options, Group) == Decide(s2, config, group, path, options, Group)
  {
  }

  // ---------------------------------------------------------------------------
  // The loop over the groups

  /**
   * The loop grants as soon as one group grants, and returns that group's reply;
   * when none grants it returns the last group's reply, and with no group at all
   * the reply it started from.
   */
  lemma {:induction false} GroupLoopStops(store: Store, config: Config, groups: seq<Val>, path: seq<string>, options: Entries, last: Reply)
    ensures Granted(GroupLoop(store, config, groups, path, options, last)) <==>
      (groups == [] && Granted(last)) || exists i | 0 <= i < |groups| :: GroupGrants(store, config, groups[i], path, options)
    ensures forall i | 0 <= i < |groups| && GroupGrants(store, config, groups[i], path, options) ::
      (forall j | 0 <= j < i :: !GroupGrants(store, config, groups[j], path, options)) ==>
        GroupLoop(store, config, groups, path, options, last) == Decide(store, config, groups[i], path, options, Group)
    ensures groups != [] && (forall i | 0 <= i < |groups| :: !GroupGrants(store, config, groups[i], path, options)) ==>
      GroupLoop(store, config, groups, path, options, last) == Decide(store, config, groups[|groups| - 1], path, options, Group)
    decreases |groups|
  {
    if groups != [] {
      var r := Decide(store, config, groups[0], path, options, Group);
      if !Granted(r) {
        var rest := groups[1..];
        GroupLoopStops(store, config, rest, path, options, r);
        assert forall i | 0 <= i < |rest| :: rest[i] == groups[i + 1];
        if exists i | 0 <= i < |groups| :: GroupGrants(store, config, groups[i], path, options) {
          var i :| 0 <= i < |groups| && GroupGrants(store, config, groups[i], path, options);
          assert GroupGrants(store, config, rest[i - 1], path, options);
        }
        forall i | 0 <= i < |groups| && GroupGrants(store, config, groups[i], path, options) &&
            (forall j | 0 <= j < i :: !GroupGrants(store, config, groups[j], path, options))
          ensures GroupLoop(store, config, groups, path, options, last) == Decide(store, config, groups[i], path, options, Group)
        {
          assert i > 0 && rest[i - 1] == groups[i];
          assert forall j | 0 <= j < i - 1 :: rest[j] == groups[j + 1];
        }
        if |rest| > 0 {
          assert rest[|rest| - 1] == groups[|groups| - 1];
        }
      }
    }
  }

  /**
   * An identified user whose own tree does not match but holds `groups` is granted
   * exactly when the group list is empty or one of its groups grants; each group
   * is asked with the user recorded under `options.forUser`.
   */
  lemma UnmatchedUserAsksGroups(store: Store, config: Config, user: Val, path: seq<string>, options: Entries, tree: Entries)
    requires !Anonymous(user, KeyOf(config.userIdentifier)) && !Walk(path, config.defaultUser).granted
    requires FindRecord(store, Get(Principal(user, KeyOf(config.userIdentifier)), KeyOf(config.userIdentifier)), User) == Some(tree)
    requires !Walk(path, Arr(tree)).granted && IsSet(Walk(path, Arr(tree)).tree, S(PathGroups))
    ensures var groups := Values(Get(Walk(path, Arr(tree)).tree, S(PathGroups)));
      var forUser := Assign(options, S(ForUser), Principal(user, KeyOf(config.userIdentifier)));
      Granted(Decide(store, config, user, path, options, User)) <==>
        groups == [] || exists i | 0 <= i < |groups| :: GroupGrants(store, config, groups[i], path, forUser)
  {
    var groups := Values(Get(Walk(path, Arr(tree)).tree, S(PathGroups)));
    var forUser := Assign(options, S(ForUser), Principal(user, KeyOf(config.userIdentifier)));
    GroupLoopStops(store, config, groups, path, forUser, FalseReply);
  }

  /**
   * Group permissions reach the members on the roster: an unmatched user, known
   * by the identifier `uid`, whose only group `g` matches the path and lists `uid`
   * under `users` is granted.
   */
  lemma MemberInheritsGroupGrant(store: Store, config: Config, user: Val, uid: string, path: seq<string>, options: Entries, tree: Entries, g: string, groupTree: Entries)
    requires var idKey := KeyOf(config.userIdentifier);
      !Walk(path, config.defaultUser).granted && !Anonymous(user, idKey) && Get(Principal(user, idKey), idKey) == Str(uid)
    requires (uid, User) in store && store[(uid, User)] == tree
    requires !Walk(path, Arr(tree)).granted && Get(Walk(path, Arr(tree)).tree, S(PathGroups)) == Arr([(I(0), Str(g))])
    requires !Falsy(Str(g)) && (g, Group) in store && store[(g, Group)] == groupTree
    requires Walk(path, Arr(groupTree)).granted && InArray(Str(uid), Get(Walk(path, Arr(groupTree)).tree, S(PathUsers)))
    ensures Granted(Decide(store, config, user, path, options, User))
  {
    var idKey := KeyOf(config.userIdentifier);
    var principal := Principal(user, idKey);
    var forUser := Assign(options, S(ForUser), principal);
    LookupAssign(options, S(ForUser), principal, S(ForUser));
    assert Get(Get(Arr(forUser), S(ForUser)), idKey) == Str(uid);
    assert GroupGrants(store, config, Str(g), path, forUser);
    UnmatchedUserAsksGroups(store, config, user, path, options, tree);
    assert Values(Arr([(I(0), Str(g))]))[0] == Str(g);
  }

  // ---------------------------------------------------------------------------
  // The matcher's side effect reaches the decision

  /** A user tree with the list member `route` beside its `groups`. */
  function RouteMemberTree(): Entries
  {
    [(I(0), Str(PathRoute)), (S(PathGroups), Arr([(I(0), Str("editors"))]))]
  }

  /**
   * `check` reads `groups` from the tree the matcher has rewritten: when the first
   * segment is a list member of the top level, that level is replaced and the
   * user's groups are never consulted, whatever they grant.
   */
  lemma ListMemberHidesGroups(store: Store, config: Config, uid: string, controller: string, action: string, options: Entries)
    requires !Walk(ResolvePath(Route(controller, action)), config.defaultUser).granted && !Falsy(Str(uid))
    requires (uid, User) in store && store[(uid, User)] == RouteMemberTree()
    ensures Decide(store, config, Str(uid), ResolvePath(Route(controller, action)), options, User) == ArrayReply(options)
  {
    var path := ResolvePath(Route(controller, action));
    var top := Arr(RouteMemberTree());
    assert !InArray(Str(Wildcard), top) by {
      assert !LooseEquals(Str(Wildcard), top.entries[0].1);
    }
    assert InArray(Str(PathRoute), top) by {
      assert LooseEquals(Str(PathRoute), top.entries[0].1);
    }
    assert !IsDigit(PathRoute[0]) && KeyOf(PathRoute) == S(PathRoute);
    assert Walk(path[1..], Null) == Matched(false, Null);
    assert Walk(path, top) == Matched(false, Arr([(S(PathRoute), Null)]));
  }
}
