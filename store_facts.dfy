/**
 * What the writes do to the records, and how they meet `check`: an action or a
 * custom route added to a new principal is granted afterwards; adding what is
 * already stored changes nothing; removing walks one level deeper than the
 * wrappers intend.
 */
module StoreFacts {
  import opened Php
  import opened Matcher
  import opened Library
  import opened Dedup
  import opened Prune
  import opened MergeFacts
  import opened AddFacts
  import opened Removal
  import opened Access
  import opened CheckFacts

  /** The record key a write uses for a principal whose identifier is the string `id`. */
  predicate IdentifiedBy(config: Config, user: Val, id: string)
  {
    var idKey := KeyOf(config.userIdentifier);
    IsSet(Principal(user, idKey), idKey) && Get(Principal(user, idKey), idKey) == Str(id)
  }

  // ---------------------------------------------------------------------------
  // add

  /** Without the identifier, `add` and `remove` throw the configuration error and write nothing. */
  lemma WritesNeedIdentifier(store: Store, config: Config, user: Val, paths: Entries, kind: PType)
    requires !IsSet(Principal(user, KeyOf(config.userIdentifier)), KeyOf(config.userIdentifier))
    ensures AddEffect(store, config, user, paths, kind) == Effect(ConfigError(NotAvailable(config.userIdentifier)), store)
    ensures RemoveEffect(store, config, user, paths, kind) == Effect(ConfigError(NotAvailable(config.userIdentifier)), store)
  {
  }

  /**
   * `add` touches only the principal's record: a new one holds the paths exactly
   * as given; an existing one holds both its stored paths and the added ones, with
   * no repeated scalar on any level; `listPerms` then returns that tree.
   */
  lemma AddWritesOneRecord(store: Store, config: Config, user: Val, id: string, paths: Entries, kind: PType)
    requires IdentifiedBy(config, user, id)
    ensures var e := AddEffect(store, config, user, paths, kind);
      e.outcome == Done(true) && (id, kind) in e.store &&
      (forall k | k in store && k != (id, kind) :: k in e.store && e.store[k] == store[k]) &&
      (forall k | k in e.store :: k in store || k == (id, kind))
    ensures (id, kind) !in store ==> AddEffect(store, config, user, paths, kind).store[(id, kind)] == paths
    ensures (id, kind) in store && WellFormed(store[(id, kind)]) && WellFormed(paths) ==>
      UniqueDeep(AddEffect(store, config, user, paths, kind).store[(id, kind)])
    ensures user.Arr? ==>
      Listed(AddEffect(store, config, user, paths, kind).store, config, user, kind) == AddEffect(store, config, user, paths, kind).store[(id, kind)]
    ensures WellFormed(paths) && PathTree(paths) && ((id, kind) in store ==> WellFormed(store[(id, kind)])) ==>
      Absorbs(AddEffect(store, config, user, paths, kind).store[(id, kind)], paths)
    ensures (id, kind) in store && WellFormed(store[(id, kind)]) && PathTree(store[(id, kind)]) && WellFormed(paths) ==>
      Absorbs(AddEffect(store, config, user, paths, kind).store[(id, kind)], store[(id, kind)])
  {
    if (id, kind) in store && WellFormed(store[(id, kind)]) && WellFormed(paths) {
      AddLeavesNoRepeats(store[(id, kind)], paths);
      if PathTree(store[(id, kind)]) {
        AddKeepsOld(store[(id, kind)], paths);
      }
      if PathTree(paths) {
        AddKeepsPaths(store[(id, kind)], paths);
      }
    }
    if (id, kind) !in store && WellFormed(paths) && PathTree(paths) {
      PathsAbsorbThemselves(paths);
    }
  }

  /**
   * Re-adding paths a duplicate-free record already holds (string keys at the
   * top, as `route`, `custom`, `groups` and `users` are) leaves every record as it was.
   */
  lemma ReaddLeavesStore(store: Store, config: Config, user: Val, id: string, paths: Entries, kind: PType)
    requires IdentifiedBy(config, user, id) && (id, kind) in store
    requires UniqueDeep(store[(id, kind)]) && PathTree(paths) && Absorbs(store[(id, kind)], paths)
    requires forall i | 0 <= i < |store[(id, kind)]| :: store[(id, kind)][i].0.S?
    ensures AddEffect(store, config, user, paths, kind) == Effect(Done(true), store)
  {
    ReaddIsNoOp(store[(id, kind)], paths);
    assert store[(id, kind) := store[(id, kind)]] == store;
  }

  /**
   * Adding the same paths twice is adding them once, for a record and paths
   * keyed by strings at the top: the first `add` leaves a record that holds the
   * paths and repeats no scalar, which the second then leaves as it is.
   */
  lemma AddTwiceIsAddOnce(store: Store, config: Config, user: Val, id: string, paths: Entries, kind: PType)
    requires IdentifiedBy(config, user, id) && (id, kind) in store
    requires WellFormed(store[(id, kind)]) && StringKeys(store[(id, kind)])
    requires WellFormed(paths) && PathTree(paths) && StringKeys(paths)
    ensures var once := AddEffect(store, config, user, paths, kind);
      AddEffect(once.store, config, user, paths, kind) == once
  {
    var once := AddEffect(store, config, user, paths, kind);
    AddWritesOneRecord(store, config, user, id, paths, kind);
    AddKeepsStringKeys(store[(id, kind)], paths);
    ReaddLeavesStore(once.store, config, user, id, paths, kind);
  }

  // ---------------------------------------------------------------------------
  // The paths the wrappers build grant the requests they stand for

  lemma KeyOfZero()
    ensures KeyOf("0") == I(0)
  {
    assert IsCanonicalNat("0") && DecimalValue("0") == 0;
  }

  /** Below the keys of `parts`, the walk reaches the one-element list the chain ends in. */
  lemma {:induction false} NestCursor(parts: seq<string>, v: Val)
    ensures Cursor(Arr(Nest(KeysOf(parts + ["0"]), v)), parts) == Some(Arr([(I(0), v)]))
    decreases |parts|
  {
    KeyOfZero();
    if parts != [] {
      var level := Arr(Nest(KeysOf(parts + ["0"]), v));
      assert (parts + ["0"])[1..] == parts[1..] + ["0"];
      assert KeysOf(parts + ["0"])[1..] == KeysOf(parts[1..] + ["0"]);
      assert level.entries == [(KeyOf(parts[0]), Arr(Nest(KeysOf(parts[1..] + ["0"]), v)))];
      assert !InArray(Str(Wildcard), level) && !InArray(Str(parts[0]), level);
      NestCursor(parts[1..], v);
    } else {
      assert KeysOf(parts + ["0"]) == [I(0)];
    }
  }

  /** A chain of keys ending in a one-element list grants the keys followed by the list's value. */
  lemma NestGrants(parts: seq<string>, value: string)
    ensures Walk(parts + [value], Arr(Nest(KeysOf(parts + ["0"]), Str(value)))).granted
  {
    NestCursor(parts, Str(value));
    var list := Arr([(I(0), Str(value))]);
    WalkCompose(Arr(Nest(KeysOf(parts + ["0"]), Str(value))), parts, [value]);
    assert LooseEquals(Str(value), list.entries[0].1);
    assert [value][1..] == [];
  }

  /**
   * The list index is itself a key the matcher descends through: the stored chain
   * followed by `0` is granted too, whatever the list holds.
   */
  lemma IndexSegmentGrants(parts: seq<string>, value: string)
    ensures Walk(parts + ["0"], Arr(Nest(KeysOf(parts + ["0"]), Str(value)))).granted
  {
    KeyOfZero();
    NestCursor(parts, Str(value));
    WalkCompose(Arr(Nest(KeysOf(parts + ["0"]), Str(value))), parts, ["0"]);
    assert ["0"][1..] == [];
  }

  /** `addAction` builds the chain `route`, controller, index 0 holding the action. */
  lemma ActionPathsNest(controller: string, action: string)
    ensures ActionPaths(controller, action) == Nest(KeysOf([PathRoute, controller, "0"]), Str(action))
  {
    KeyOfZero();
    assert !IsDigit(PathRoute[0]) && KeyOf(PathRoute) == S(PathRoute);
    var ks := KeysOf([PathRoute, controller, "0"]);
    assert ks == [S(PathRoute), KeyOf(controller), I(0)];
    assert ks[1..][1..] == [I(0)] && ks[1..] == [KeyOf(controller), I(0)];
    assert Nest(ks[1..][1..], Str(action)) == [(I(0), Str(action))];
    assert Nest(ks[1..], Str(action)) == [(KeyOf(controller), Arr([(I(0), Str(action))]))];
  }

  /** The key chain `addCustomPath` implodes holds no dot, so `Set::expand` splits it back into the same parts. */
  lemma CustomKeyParts(customRoute: string)
    ensures var parts := Explode(customRoute, Separator);
      var keyParts := [PathCustom] + parts[..|parts| - 1] + ["0"];
      Explode(Implode(keyParts, Separator), Separator) == keyParts
  {
    var parts := Explode(customRoute, Separator);
    var keyParts := [PathCustom] + parts[..|parts| - 1] + ["0"];
    ExplodeNoSeparator(customRoute, Separator);
    forall i | 0 <= i < |keyParts|
      ensures Separator !in keyParts[i]
    {
      if 0 < i < |keyParts| - 1 {
        assert keyParts[i] == parts[i - 1];
      }
    }
    ExplodeImplode(keyParts, Separator);
  }

  /** `addCustomPath` builds the chain `custom`, every part but the last, index 0 holding the last part. */
  lemma CustomPathsNest(customRoute: string)
    ensures var parts := Explode(customRoute, Separator);
      CustomPaths(customRoute) == Nest(KeysOf([PathCustom] + parts[..|parts| - 1] + ["0"]), Str(parts[|parts| - 1]))
  {
    var parts := Explode(customRoute, Separator);
    var keyParts := [PathCustom] + parts[..|parts| - 1] + ["0"];
    var key := Implode(keyParts, Separator);
    var value := Str(parts[|parts| - 1]);
    CustomKeyParts(customRoute);
    assert CustomPaths(customRoute) == Expand(key, value);
    assert KeysOf(Explode(key, Separator)) == KeysOf(keyParts);
  }

  /** The custom request the route stands for: `custom`, every part but the last, then the last part. */
  lemma CustomRequestSegments(customRoute: string)
    ensures var parts := Explode(customRoute, Separator);
      ResolvePath(Custom(customRoute)) == [PathCustom] + parts[..|parts| - 1] + [parts[|parts| - 1]]
  {
    var parts := Explode(customRoute, Separator);
    assert parts == parts[..|parts| - 1] + [parts[|parts| - 1]];
  }

  /** After `add`, `check` answers by the tree `add` saved: a path that tree matches is granted. */
  lemma AddedTreeGrants(store: Store, config: Config, user: Val, id: string, paths: Entries, path: seq<string>, options: Entries)
    requires IdentifiedBy(config, user, id) && !Anonymous(user, KeyOf(config.userIdentifier))
    requires Walk(path, Arr(AddTo(FindRecord(store, Str(id), User), paths))).granted
    ensures Granted(Decide(AddEffect(store, config, user, paths, User).store, config, user, path, options, User))
  {
    AddWritesOneRecord(store, config, user, id, paths, User);
  }

  /**
   * An identified user without a record is granted the route
   * `addAction` gives it, on every later `check` of that route.
   */
  lemma AddedActionGranted(store: Store, config: Config, user: Val, id: string, controller: string, action: string, options: Entries)
    requires IdentifiedBy(config, user, id) && !Anonymous(user, KeyOf(config.userIdentifier)) && (id, User) !in store
    ensures var added := AddEffect(store, config, user, ActionPaths(controller, action), User).store;
      Granted(Decide(added, config, user, ResolvePath(Route(controller, action)), options, User))
  {
    ActionPathsNest(controller, action);
    NestGrants([PathRoute, controller], action);
    assert [PathRoute, controller] + ["0"] == [PathRoute, controller, "0"];
    assert [PathRoute, controller] + [action] == ResolvePath(Route(controller, action));
    AddedTreeGrants(store, config, user, id, ActionPaths(controller, action), ResolvePath(Route(controller, action)), options);
  }

  /** For a controller that is not an integer string, the paths `addAction` builds are of the merged shape. */
  lemma ActionPathsShape(controller: string, action: string)
    requires KeyOf(controller).S?
    ensures WellFormed(ActionPaths(controller, action)) && PathTree(ActionPaths(controller, action))
  {
    var list := [(I(0), Str(action))];
    var inner := [(KeyOf(controller), Arr(list))];
    assert WellFormedEntry(list[0]) && PathTreeEntry(list[0]);
    assert WellFormed(list) && PathTree(list);
    assert WellFormedEntry(inner[0]) && PathTreeEntry(inner[0]);
    assert WellFormed(inner) && PathTree(inner);
    assert WellFormedEntry(ActionPaths(controller, action)[0]) && PathTreeEntry(ActionPaths(controller, action)[0]);
  }

  /** The merged route level `AddedActionWalk` descends into, and the top level it passes. */
  lemma AddedActionTop(t: Entries, controller: string, action: string, r: Entries)
    requires WellFormed(t) && KeyOf(controller).S? && Lookup(t, S(PathRoute)) == Some(Arr(r))
    ensures var added := AddTo(Some(t), ActionPaths(controller, action));
      Lookup(added, S(PathRoute)) == Some(Arr(Deduplicated(MergeInto(r, ActionPaths(controller, action)[0].1.entries)))) &&
      forall s: string :: InArray(Str(s), Arr(added)) ==> InArray(Str(s), Arr(t))
  {
    var ap := ActionPaths(controller, action);
    var d0 := MergeInto([], t);
    assert MergeRecursive(t, ap) == MergeEntry(d0, ap[0]) by {
      assert ap[1..] == [];
      assert MergeInto(d0, ap) == MergeInto(MergeEntry(d0, ap[0]), []);
    }
    ActionPathsShape(controller, action);
    MergeWellFormed([], t);
    MergeWellFormed(d0, ap);
    MergeIntoEmpty(t);
    RenumberedKeeps(d0, t, "", PathRoute);
    DedupMergeNested(d0, ap[0], r);
    forall s: string
      ensures InArray(Str(s), Arr(d0)) ==> InArray(Str(s), Arr(t))
    {
      RenumberedKeeps(d0, t, s, PathRoute);
    }
  }

  /** A tree that holds `addAction`'s paths has the action in the controller's list under `route`. */
  lemma AbsorbsAction(t: Entries, controller: string, action: string)
    requires KeyOf(controller).S? && Absorbs(t, ActionPaths(controller, action))
    ensures Lookup(t, S(PathRoute)).Some? && Lookup(t, S(PathRoute)).value.Arr?
    ensures var rt := Lookup(t, S(PathRoute)).value.entries;
      Lookup(rt, KeyOf(controller)).Some? && Lookup(rt, KeyOf(controller)).value.Arr? &&
      InArray(Str(action), Lookup(rt, KeyOf(controller)).value)
  {
    var list := [(I(0), Str(action))];
    var inner := [(KeyOf(controller), Arr(list))];
    var ap := ActionPaths(controller, action);
    assert ap[0] == (S(PathRoute), Arr(inner));
    assert AbsorbsEntry(t, ap[0]);
    var rt := Lookup(t, S(PathRoute)).value.entries;
    assert Absorbs(rt, inner);
    assert AbsorbsEntry(rt, inner[0]);
    var held := Lookup(rt, KeyOf(controller)).value.entries;
    assert Absorbs(held, list);
    assert AbsorbsEntry(held, list[0]);
  }

  /** Merging the controller's list into the route level brings in no list member there. */
  lemma AddedActionRouteLevel(r: Entries, controller: string, action: string)
    requires WellFormed(r) && KeyOf(controller).S?
    ensures var rm := MergeInto(r, ActionPaths(controller, action)[0].1.entries);
      (InArray(Str(Wildcard), Arr(Deduplicated(rm))) ==> InArray(Str(Wildcard), Arr(r))) &&
      (InArray(Str(controller), Arr(Deduplicated(rm))) ==> InArray(Str(controller), Arr(r)))
  {
    var ap := ActionPaths(controller, action);
    var inner := ap[0].1.entries;
    ActionPathsShape(controller, action);
    assert WellFormed(inner) by {
      assert WellFormedEntry(ap[0]);
    }
    MergeWellFormed(r, inner);
    var rm := MergeInto(r, inner);
    assert rm == MergeEntry(r, inner[0]) by {
      assert inner[1..] == [];
      assert MergeInto(r, inner) == MergeInto(MergeEntry(r, inner[0]), []);
    }
    MergeEntryAddsNoScalar(r, inner[0], Wildcard);
    MergeEntryAddsNoScalar(r, inner[0], controller);
    UniqueAddsNoScalar(rm, Wildcard);
    UniqueAddsNoScalar(rm, controller);
  }

  /**
   * Merging `addAction`'s paths into a stored tree whose `route` and controller
   * are reached through keys only: the walk still reaches the controller's list
   * through keys, and the list holds the action.
   */
  lemma AddedActionReach(t: Entries, controller: string, action: string)
    requires WellFormed(t) && KeyOf(controller).S?
    requires Cursor(Arr(t), [PathRoute, controller]).Some?
    ensures var added := AddTo(Some(t), ActionPaths(controller, action));
      Cursor(Arr(added), [PathRoute, controller]).Some? &&
      InArray(Str(action), Cursor(Arr(added), [PathRoute, controller]).value)
  {
    var ap := ActionPaths(controller, action);
    var route := S(PathRoute);
    var added := AddTo(Some(t), ap);
    assert !IsDigit(PathRoute[0]) && KeyOf(PathRoute) == route;
    ActionPathsShape(controller, action);
    AddKeepsPaths(t, ap);
    AbsorbsAction(added, controller, action);
    // What the cursor passed on the stored tree
    assert [PathRoute, controller][1..] == [controller];
    var r := Get(Arr(t), route).entries;
    assert !InArray(Str(Wildcard), Arr(t)) && !InArray(Str(PathRoute), Arr(t)) && Lookup(t, route) == Some(Arr(r));
    assert !InArray(Str(Wildcard), Arr(r)) && !InArray(Str(controller), Arr(r));
    // It passes the same on the merged tree
    AddedActionTop(t, controller, action, r);
    var i :| 0 <= i < |t| && t[i] == (route, Arr(r));
    assert WellFormedEntry(t[i]);
    AddedActionRouteLevel(r, controller, action);
    var rd := Get(Arr(added), route);
    assert !InArray(Str(Wildcard), Arr(added)) && !InArray(Str(PathRoute), Arr(added));
    assert Cursor(Arr(added), [PathRoute, controller]) == Cursor(rd, [controller]);
    assert !InArray(Str(Wildcard), rd) && !InArray(Str(controller), rd);
    assert Cursor(rd, [controller]) == Some(Get(rd, KeyOf(controller)));
  }

  /** Hence the action is granted on the merged tree, whether the list holds `*` or not. */
  lemma AddedActionWalk(t: Entries, controller: string, action: string)
    requires WellFormed(t) && KeyOf(controller).S?
    requires Cursor(Arr(t), [PathRoute, controller]).Some?
    ensures Walk([PathRoute, controller, action], Arr(AddTo(Some(t), ActionPaths(controller, action)))).granted
  {
    var added := Arr(AddTo(Some(t), ActionPaths(controller, action)));
    AddedActionReach(t, controller, action);
    if InArray(Str(Wildcard), Cursor(added, [PathRoute, controller]).value) {
      WildcardGrants(added, [PathRoute, controller], [action]);
    } else {
      ListMemberEndsPath(added, [PathRoute, controller], action, []);
      assert [PathRoute, controller] + [action] + [] == [PathRoute, controller] + [action];
    }
    assert [PathRoute, controller] + [action] == [PathRoute, controller, action];
  }

  /**
   * A user whose record already reaches a controller's list through keys only is
   * granted the action `addAction` adds there. A controller that is an integer
   * string is excluded: `array_merge_recursive` renumbers it and appends the new
   * list beside the stored one, which the walk then does not reach.
   */
  lemma AddedActionGrantedOnRecord(store: Store, config: Config, user: Val, id: string, controller: string, action: string, options: Entries)
    requires IdentifiedBy(config, user, id) && !Anonymous(user, KeyOf(config.userIdentifier)) && (id, User) in store
    requires WellFormed(store[(id, User)]) && KeyOf(controller).S?
    requires Cursor(Arr(store[(id, User)]), [PathRoute, controller]).Some?
    ensures var added := AddEffect(store, config, user, ActionPaths(controller, action), User).store;
      Granted(Decide(added, config, user, ResolvePath(Route(controller, action)), options, User))
  {
    AddedActionWalk(store[(id, User)], controller, action);
    AddedTreeGrants(store, config, user, id, ActionPaths(controller, action), ResolvePath(Route(controller, action)), options);
  }

  /** `{route: {Posts: {edit: [x]}}}`: a record that keeps a custom level below the action `edit`. */
  function EditBranch(): Entries
  {
    [(S(PathRoute), Arr([(S("Posts"), Arr([(S("edit"), Arr([(I(0), Str("x"))]))]))]))]
  }

  /** `EditBranch` after `addAction('Posts', 'edit')`: the list member `edit` sits beside the key `edit`. */
  function EditBranchAdded(): Entries
  {
    [(S(PathRoute), Arr([(S("Posts"), Arr([(S("edit"), Arr([(I(0), Str("x"))])), (I(0), Str("edit"))]))]))]
  }

  lemma EditBranchMerge()
    ensures MergeRecursive(EditBranch(), ActionPaths("Posts", "edit")) == EditBranchAdded()
  {
    var before := EditBranch();
    var ap := ActionPaths("Posts", "edit");
    assert KeyOf("Posts") == S("Posts");
    assert MergeInto([], before) == MergeInto(MergeEntry([], before[0]), []);
    assert MergeInto([], before) == before;
    var postsOld := [(S("edit"), Arr([(I(0), Str("x"))]))];
    assert NextIndex(postsOld) == 0;
    var postsNew := MergeInto(postsOld, [(I(0), Str("edit"))]);
    assert postsNew == MergeInto(MergeEntry(postsOld, (I(0), Str("edit"))), []);
    assert postsNew == postsOld + [(I(0), Str("edit"))];
    assert postsNew == [(S("edit"), Arr([(I(0), Str("x"))])), (I(0), Str("edit"))];
    var routeOld := [(S("Posts"), Arr(postsOld))];
    var routeNew := [(S("Posts"), Arr([(I(0), Str("edit"))]))];
    assert Lookup(routeOld, S("Posts")) == Some(Arr(postsOld));
    assert MergeEntry(routeOld, routeNew[0]) == Assign(routeOld, S("Posts"), Arr(postsNew));
    assert MergeInto(routeOld, routeNew) == MergeInto(MergeEntry(routeOld, routeNew[0]), []);
    assert MergeInto(routeOld, routeNew) == [(S("Posts"), Arr(postsNew))];
    assert ap == [(S(PathRoute), Arr(routeNew))];
    assert Lookup(before, S(PathRoute)) == Some(Arr(routeOld));
    assert MergeEntry(before, ap[0]) == Assign(before, S(PathRoute), Arr(MergeInto(routeOld, routeNew)));
    assert MergeInto(before, ap) == MergeInto(MergeEntry(before, ap[0]), []);
    assert MergeInto(before, ap) == [(S(PathRoute), Arr([(S("Posts"), Arr(postsNew))]))];
    assert MergeRecursive(before, ap) == MergeInto(before, ap);
    assert EditBranchAdded() == [(S(PathRoute), Arr([(S("Posts"), Arr(postsNew))]))];
  }

  lemma EditBranchAddedUnique()
    ensures Deduplicated(EditBranchAdded()) == EditBranchAdded()
  {
    var xs := [(I(0), Str("x"))];
    var posts := [(S("edit"), Arr(xs)), (I(0), Str("edit"))];
    var route := [(S("Posts"), Arr(posts))];
    assert UniqueDeep(xs) by {
      assert UniqueDeepEntry(xs[0]);
    }
    assert UniqueDeep(posts) by {
      assert UniqueDeepEntry(posts[0]) && UniqueDeepEntry(posts[1]);
    }
    assert UniqueDeep(route) by {
      assert UniqueDeepEntry(route[0]);
    }
    assert UniqueDeepEntry(EditBranchAdded()[0]);
    UniqueFixpoint(EditBranchAdded());
  }

  /** Before the add, `[route, Posts, edit, x]` descends by keys to the list `[x]` and matches its member. */
  lemma EditBranchGrants()
    ensures Walk([PathRoute, "Posts", "edit", "x"], Arr(EditBranch())).granted
  {
    var xs := Arr([(I(0), Str("x"))]);
    var posts := Arr([(S("edit"), xs)]);
    var route := Arr([(S("Posts"), posts)]);
    assert KeyOf(PathRoute) == S(PathRoute) && KeyOf("Posts") == S("Posts") && KeyOf("edit") == S("edit");
    assert Cursor(posts, ["edit"]) == Cursor(xs, []);
    assert Cursor(route, ["Posts", "edit"]) == Cursor(posts, ["edit"]);
    assert Cursor(Arr(EditBranch()), [PathRoute, "Posts", "edit"]) == Cursor(route, ["Posts", "edit"]);
    assert InArray(Str("x"), xs) by {
      assert LooseEquals(Str("x"), xs.entries[0].1);
    }
    ListMemberEndsPath(Arr(EditBranch()), [PathRoute, "Posts", "edit"], "x", []);
    assert [PathRoute, "Posts", "edit"] + ["x"] + [] == [PathRoute, "Posts", "edit", "x"];
  }

  /** After the add, the member `edit` of the `Posts` level ends the same walk one segment early. */
  lemma EditBranchAddedDenies()
    ensures !Walk([PathRoute, "Posts", "edit", "x"], Arr(EditBranchAdded())).granted
  {
    var posts := Arr([(S("edit"), Arr([(I(0), Str("x"))])), (I(0), Str("edit"))]);
    var route := Arr([(S("Posts"), posts)]);
    assert KeyOf(PathRoute) == S(PathRoute) && KeyOf("Posts") == S("Posts");
    assert Cursor(route, ["Posts"]) == Cursor(posts, []);
    assert Cursor(Arr(EditBranchAdded()), [PathRoute, "Posts"]) == Cursor(route, ["Posts"]);
    assert InArray(Str("edit"), posts) by {
      assert LooseEquals(Str("edit"), posts.entries[1].1);
    }
    ListMemberEndsPath(Arr(EditBranchAdded()), [PathRoute, "Posts"], "edit", ["x"]);
    assert [PathRoute, "Posts"] + ["edit"] + ["x"] == [PathRoute, "Posts", "edit", "x"];
  }

  /**
   * `add` keeps the stored paths but not always their grants: on
   * `{route: {Posts: {edit: [x]}}}`, `addAction('Posts', 'edit')` appends the list
   * member `edit` beside the key `edit`. The matcher tests list members before keys,
   * so `[route, Posts, edit, x]`, granted before, is denied after, although the
   * saved tree still holds `edit => [x]`.
   */
  lemma AddActionCanRevoke()
    ensures var before := EditBranch();
      var after := AddTo(Some(before), ActionPaths("Posts", "edit"));
      var path := [PathRoute, "Posts", "edit", "x"];
      Walk(path, Arr(before)).granted && !Walk(path, Arr(after)).granted &&
      Absorbs(after, before)
  {
    var before := EditBranch();
    assert WellFormedEntry(before[0]) && PathTreeEntry(before[0]);
    AddKeepsOld(before, ActionPaths("Posts", "edit"));
    EditBranchMerge();
    EditBranchAddedUnique();
    EditBranchGrants();
    EditBranchAddedDenies();
  }

  /**
   * With `defaultNoUser` holding `*` for a controller (`{route: {Home: ['*']}}`),
   * a caller who is not logged in is granted every action of that controller.
   */
  lemma DefaultNoUserWildcard(store: Store, config: Config, controller: string, action: string, options: Entries)
    requires config.defaultNoUser == Arr(ActionPaths(controller, Wildcard))
    ensures Decide(store, config, Null, ResolvePath(Route(controller, action)), options, User) == FalseReply
  {
    var tree := Arr(ActionPaths(controller, Wildcard));
    ActionPathsNest(controller, Wildcard);
    NestCursor([PathRoute, controller], Str(Wildcard));
    assert [PathRoute, controller] + ["0"] == [PathRoute, controller, "0"];
    var list := Arr([(I(0), Str(Wildcard))]);
    assert InArray(Str(Wildcard), list) by {
      assert LooseEquals(Str(Wildcard), list.entries[0].1);
    }
    WildcardGrants(tree, [PathRoute, controller], [action]);
    assert [PathRoute, controller] + [action] == ResolvePath(Route(controller, action));
  }

  /**
   * The same for a dotted custom route and `addCustomPath`. This rests on `CustomPaths`, the
   * model's reading of `Set::expand`, which turns every part into a key with `KeyOf`. It describes
   * PHP only for routes whose parts are not numeric strings in a form `Set::expand` treats
   * differently; that numeric handling is not modelled.
   */
  lemma AddedCustomPathGranted(store: Store, config: Config, user: Val, id: string, customRoute: string, options: Entries)
    requires IdentifiedBy(config, user, id) && !Anonymous(user, KeyOf(config.userIdentifier)) && (id, User) !in store
    ensures var added := CustomEffect(store, config, user, Str(customRoute), User, true).store;
      Granted(Decide(added, config, user, ResolvePath(Custom(customRoute)), options, User))
  {
    var parts := Explode(customRoute, Separator);
    var init := [PathCustom] + parts[..|parts| - 1];
    CustomPathsNest(customRoute);
    CustomRequestSegments(customRoute);
    NestGrants(init, parts[|parts| - 1]);
    AddedTreeGrants(store, config, user, id, CustomPaths(customRoute), ResolvePath(Custom(customRoute)), options);
  }

  // ---------------------------------------------------------------------------
  // remove

  /** `remove` touches only the principal's record, which is left with no falsy entry; without a record it writes nothing. */
  lemma RemoveWritesOneRecord(store: Store, config: Config, user: Val, id: string, paths: Entries, kind: PType)
    requires IdentifiedBy(config, user, id)
    ensures var e := RemoveEffect(store, config, user, paths, kind);
      e.outcome == Done(true) && e.store.Keys == store.Keys &&
      forall k | k in store && k != (id, kind) :: e.store[k] == store[k]
    ensures (id, kind) !in store ==> RemoveEffect(store, config, user, paths, kind).store == store
    ensures (id, kind) in store ==> RemoveEffect(store, config, user, paths, kind).store[(id, kind)] == Removed(store[(id, kind)], paths)
    ensures (id, kind) in store ==> Tidy(RemoveEffect(store, config, user, paths, kind).store[(id, kind)])
  {
    if (id, kind) in store {
      RemovedIsTidy(store[(id, kind)], paths);
    }
  }

  /** `{route: {Posts: <list>}}`: the running example keeps its actions under `route.Posts`. */
  function PostsWith(list: Entries): Entries
  {
    [(S(PathRoute), Arr([(S("Posts"), Arr(list))]))]
  }

  /** The segments `route`, `Posts` and `0` are the keys `S(route)`, `S(Posts)` and `I(0)`. */
  lemma PostsKeys()
    ensures KeyOf(PathRoute) == S(PathRoute) && KeyOf("Posts") == S("Posts") && KeyOf("0") == I(0)
    ensures KeysOf([PathRoute, "Posts", "0"]) == [S(PathRoute), S("Posts"), I(0)]
    ensures NoSeparator([PathRoute, "Posts", "0"], Separator)
  {
    KeyOfZero();
    assert !IsDigit(PathRoute[0]) && KeyOf(PathRoute) == S(PathRoute);
    assert !IsDigit("Posts"[0]) && KeyOf("Posts") == S("Posts");
  }

  /** The walk of `removeAction('Posts', ...)` finds index 0 of the `Posts` list. */
  lemma PostsWalk(list: Entries, held: string)
    requires |list| >= 1 && list[0] == (I(0), Str(held))
    ensures KeysOf([PathRoute, "Posts", "0"]) == [S(PathRoute), S("Posts"), I(0)]
    ensures NoSeparator([PathRoute, "Posts", "0"], Separator)
    ensures Located(Arr(PostsWith(list)), [PathRoute, "Posts", "0"])
    ensures At(Arr(PostsWith(list)), [S(PathRoute), S("Posts"), I(0)]) == Str(held)
  {
    PostsKeys();
    var posts := Arr([(S("Posts"), Arr(list))]);
    assert Get(Arr(PostsWith(list)), S(PathRoute)) == posts;
    assert Get(posts, S("Posts")) == Arr(list);
    assert Get(Arr(list), I(0)) == Str(held);
    assert Located(Arr(list), ["0"]) by {
      assert ["0"][1..] == [];
    }
    assert Located(posts, ["Posts", "0"]) by {
      assert ["Posts", "0"][1..] == ["0"];
    }
    assert [PathRoute, "Posts", "0"][1..] == ["Posts", "0"];
    assert At(Arr(list), [I(0)]) == Str(held) by {
      assert [I(0)][1..] == [];
    }
    assert At(posts, [S("Posts"), I(0)]) == Str(held) by {
      assert [S("Posts"), I(0)][1..] == [I(0)];
    }
    assert [S(PathRoute), S("Posts"), I(0)][1..] == [S("Posts"), I(0)];
  }

  /** Replacing index 0 of the `Posts` list, seen from the root. */
  lemma PutAtPosts(list: Entries, x: Val)
    requires |list| >= 1 && list[0].0 == I(0)
    ensures PutAt(Arr(PostsWith(list)), [S(PathRoute), S("Posts"), I(0)], x) == Arr(PostsWith(list[0 := (I(0), x)]))
  {
    var ks := [S(PathRoute), S("Posts"), I(0)];
    assert ks[1..] == [S("Posts"), I(0)] && ks[1..][1..] == [I(0)] && ks[1..][1..][1..] == [];
    assert Assign(list, I(0), x) == list[0 := (I(0), x)];
    assert PutAt(Arr(list), [I(0)], x) == Arr(list[0 := (I(0), x)]);
    var posts := Arr([(S("Posts"), Arr(list))]);
    assert PutAt(posts, [S("Posts"), I(0)], x) == Arr([(S("Posts"), Arr(list[0 := (I(0), x)]))]);
  }

  /**
   * `removeAction('Posts', $action)` on `{route: {Posts: <list>}}` whose index 0
   * holds `held`: only that entry is touched, whatever the rest of the list holds.
   */
  lemma RemoveFromPosts(list: Entries, held: string, action: string)
    requires |list| >= 1 && list[0] == (I(0), Str(held))
    ensures RemoveEach(Arr(PostsWith(list)), Flatten(ActionPaths("Posts", action))) ==
      Arr(PostsWith(list[0 := (I(0), if action == Wildcard then Null else if action == held then Arr([]) else Arr([(I(0), Str(held))]))]))
  {
    PostsWalk(list, held);
    ActionPathsNest("Posts", action);
    RemoveAtFirstIndex(Arr(PostsWith(list)), [PathRoute, "Posts", "0"], held, action);
    PutAtPosts(list, if action == Wildcard then Null else if action == held then Arr([]) else Arr([(I(0), Str(held))]));
  }

  /** `_cleanPaths` on the example: the `Posts` list is cleaned, and the branch disappears if nothing is left. */
  lemma PrunedPosts(list: Entries)
    ensures Pruned(PostsWith(list)) == if Pruned(list) == [] then [] else PostsWith(Pruned(list))
  {
    var mid := [(S("Posts"), Arr(list))];
    assert PruneChildren(mid) == [(S("Posts"), Arr(Pruned(list)))];
    var midPruned := if Pruned(list) == [] then [] else [(S("Posts"), Arr(Pruned(list)))];
    assert Pruned(mid) == midPruned;
    assert PruneChildren(PostsWith(list)) == [(S(PathRoute), Arr(midPruned))];
  }

  /** `_cleanPaths` keeps `[[view], edit]`: nothing in it is falsy. */
  lemma NestedViewKept()
    ensures var after := [(I(0), Arr([(I(0), Str("view"))])), (I(1), Str("edit"))];
      Pruned(after) == after
  {
    var inner := [(I(0), Str("view"))];
    assert Tidy(inner);
    TidyFixpoint(inner);
    assert PruneChildren([(I(0), Arr(inner)), (I(1), Str("edit"))]) == [(I(0), Arr(inner)), (I(1), Str("edit"))];
  }

  /**
   * `removeAction('Posts', 'edit')` on `{route: {Posts: [view, edit]}}` leaves
   * `edit` in place and turns `view` into the one-element list `[view]`.
   */
  lemma RemoveSecondActionNests(store: Store, config: Config, user: Val, id: string)
    requires IdentifiedBy(config, user, id) && (id, User) in store
    requires store[(id, User)] == PostsWith([(I(0), Str("view")), (I(1), Str("edit"))])
    ensures RemoveEffect(store, config, user, ActionPaths("Posts", "edit"), User).store[(id, User)] ==
      PostsWith([(I(0), Arr([(I(0), Str("view"))])), (I(1), Str("edit"))])
  {
    var list := [(I(0), Str("view")), (I(1), Str("edit"))];
    var after := [(I(0), Arr([(I(0), Str("view"))])), (I(1), Str("edit"))];
    RemoveWritesOneRecord(store, config, user, id, ActionPaths("Posts", "edit"), User);
    assert RemoveEach(Arr(PostsWith(list)), Flatten(ActionPaths("Posts", "edit"))) == Arr(PostsWith(after)) by {
      RemoveFromPosts(list, "view", "edit");
      assert list[0 := (I(0), Arr([(I(0), Str("view"))]))] == after;
    }
    NestedViewKept();
    PrunedPosts(after);
  }

  /**
   * `removeAction('Posts', 'view')` and `removeAction('Posts', '*')` on
   * `{route: {Posts: [view, edit]}}` both remove only `view`: the wildcard nulls
   * the entry at index 0, not the controller.
   */
  lemma RemoveFirstOrWildcard(store: Store, config: Config, user: Val, id: string, action: string)
    requires IdentifiedBy(config, user, id) && (id, User) in store
    requires store[(id, User)] == PostsWith([(I(0), Str("view")), (I(1), Str("edit"))])
    requires action == "view" || action == Wildcard
    ensures RemoveEffect(store, config, user, ActionPaths("Posts", action), User).store[(id, User)] ==
      PostsWith([(I(1), Str("edit"))])
  {
    var list := [(I(0), Str("view")), (I(1), Str("edit"))];
    RemoveWritesOneRecord(store, config, user, id, ActionPaths("Posts", action), User);
    RemoveFromPosts(list, "view", action);
    var first := if action == Wildcard then Null else Arr([]);
    var after := [(I(0), first), (I(1), Str("edit"))];
    assert list[0 := (I(0), first)] == after;
    assert Pruned([]) == [] by {
      assert PruneChildren([]) == [];
    }
    assert PruneChildren(after) == after;
    assert Pruned(after) == [(I(1), Str("edit"))];
    PrunedPosts(after);
  }

  /** With a single action stored, `removeAction('Posts', '*')` does remove the controller, and the emptied `route` with it. */
  lemma WildcardRemovesSoleAction(store: Store, config: Config, user: Val, id: string)
    requires IdentifiedBy(config, user, id) && (id, User) in store && store[(id, User)] == PostsWith([(I(0), Str("view"))])
    ensures RemoveEffect(store, config, user, ActionPaths("Posts", Wildcard), User).store[(id, User)] == []
  {
    var list := [(I(0), Str("view"))];
    RemoveWritesOneRecord(store, config, user, id, ActionPaths("Posts", Wildcard), User);
    RemoveFromPosts(list, "view", Wildcard);
    var after := [(I(0), Null)];
    assert list[0 := (I(0), Null)] == after;
    assert PruneChildren(after) == after;
    assert Pruned(after) == [];
    PrunedPosts(after);
  }

  // ---------------------------------------------------------------------------
  // addUserToGroup and removeUserFromGroup

  /** For a scalar member, `array($root => array($member))` is of the merged shape. */
  lemma MemberPathsShape(root: string, member: Val)
    requires !member.Arr?
    ensures WellFormed(MemberPaths(root, member)) && PathTree(MemberPaths(root, member))
    ensures StringKeys(MemberPaths(root, member))
  {
    var list := [(I(0), member)];
    assert WellFormedEntry(list[0]) && PathTreeEntry(list[0]);
    assert WellFormed(list) && PathTree(list);
    assert WellFormedEntry(MemberPaths(root, member)[0]) && PathTreeEntry(MemberPaths(root, member)[0]);
  }

  /**
   * `addUserToGroup` writes the two records and no other: the user's lists the
   * group under `groups` and the group's lists the user's identifier under
   * `users`. A record that did not exist holds exactly that one-element list.
   */
  lemma AddUserToGroupWrites(store: Store, config: Config, user: Val, uid: string, group: Val, gid: string)
    requires user.Arr? && IdentifiedBy(config, user, uid) && IdentifiedBy(config, group, gid)
    ensures var e := MembershipEffect(store, config, user, group, true);
      e.outcome == Done(true) && (uid, User) in e.store && (gid, Group) in e.store &&
      (forall k | k in store && k != (uid, User) && k != (gid, Group) :: k in e.store && e.store[k] == store[k]) &&
      (forall k | k in e.store :: k in store || k == (uid, User) || k == (gid, Group))
    ensures (uid, User) !in store ==>
      MembershipEffect(store, config, user, group, true).store[(uid, User)] == MemberPaths(PathGroups, group)
    ensures (gid, Group) !in store ==>
      MembershipEffect(store, config, user, group, true).store[(gid, Group)] == MemberPaths(PathUsers, Str(uid))
    ensures !group.Arr? && ((uid, User) in store ==> WellFormed(store[(uid, User)])) ==>
      Absorbs(MembershipEffect(store, config, user, group, true).store[(uid, User)], MemberPaths(PathGroups, group))
    ensures ((gid, Group) in store ==> WellFormed(store[(gid, Group)])) ==>
      Absorbs(MembershipEffect(store, config, user, group, true).store[(gid, Group)], MemberPaths(PathUsers, Str(uid)))
  {
    var first := AddEffect(store, config, user, MemberPaths(PathGroups, group), User);
    AddWritesOneRecord(store, config, user, uid, MemberPaths(PathGroups, group), User);
    AddWritesOneRecord(first.store, config, group, gid, MemberPaths(PathUsers, Str(uid)), Group);
    MemberPathsShape(PathUsers, Str(uid));
    if !group.Arr? {
      MemberPathsShape(PathGroups, group);
    }
  }

  lemma RosterKeys(root: string)
    requires root == PathGroups || root == PathUsers
    ensures KeysOf([root, "0"]) == [S(root), I(0)] && NoSeparator([root, "0"], Separator)
  {
    KeyOfZero();
    assert !IsDigit(root[0]) && KeyOf(root) == S(root);
  }

  lemma PutAtRoster(root: string, held: string, x: Val)
    ensures PutAt(Arr(MemberPaths(root, Str(held))), [S(root), I(0)], x) == Arr([(S(root), Arr([(I(0), x)]))])
  {
    var list := [(I(0), Str(held))];
    assert PutAt(Arr(list), [I(0)], x) == Arr([(I(0), x)]) by {
      assert [I(0)][1..] == [];
    }
    assert [S(root), I(0)][1..] == [I(0)];
  }

  /** The removal walk empties the slot the roster's only member sits in (nulls it for `*`). */
  lemma RemoveOnlyMemberWalk(root: string, held: string)
    requires root == PathGroups || root == PathUsers
    ensures RemoveEach(Arr(MemberPaths(root, Str(held))), Flatten(MemberPaths(root, Str(held)))) ==
      Arr([(S(root), Arr([(I(0), if held == Wildcard then Null else Arr([]))]))])
  {
    var mp := MemberPaths(root, Str(held));
    var parts := [root, "0"];
    RosterKeys(root);
    assert Nest(KeysOf(parts), Str(held)) == mp;
    assert Located(Arr(mp), parts) by {
      assert parts[1..] == ["0"];
    }
    RemoveAtFirstIndex(Arr(mp), parts, held, held);
    PutAtRoster(root, held, if held == Wildcard then Null else Arr([]));
  }

  /** A roster whose only slot is falsy is pruned away, root and all. */
  lemma PrunedEmptiedRoster(root: string, x: Val)
    requires x == Null || x == Arr([])
    ensures Pruned([(S(root), Arr([(I(0), x)]))]) == []
  {
    var inner := [(I(0), x)];
    assert Pruned([]) == [] by {
      assert PruneChildren([]) == [];
    }
    assert PruneChildren(inner) == inner;
    assert Pruned(inner) == [];
    assert PruneChildren([(S(root), Arr(inner))]) == [(S(root), Arr([]))];
  }

  /** Removing the one member a roster list was created with leaves nothing: the list and its root are pruned. */
  lemma RemoveOnlyMember(root: string, held: string)
    requires root == PathGroups || root == PathUsers
    ensures Removed(MemberPaths(root, Str(held)), MemberPaths(root, Str(held))) == []
  {
    RemoveOnlyMemberWalk(root, held);
    PrunedEmptiedRoster(root, if held == Wildcard then Null else Arr([]));
  }

  /** `add` for a principal without a record stores the paths as given. */
  lemma AddFresh(store: Store, config: Config, user: Val, id: string, paths: Entries, kind: PType)
    requires IdentifiedBy(config, user, id) && (id, kind) !in store
    ensures AddEffect(store, config, user, paths, kind) == Effect(Done(true), store[(id, kind) := paths])
  {
  }

  /** `remove` for a principal with a record stores what the removal leaves. */
  lemma RemoveExisting(store: Store, config: Config, user: Val, id: string, paths: Entries, kind: PType)
    requires IdentifiedBy(config, user, id) && (id, kind) in store
    ensures RemoveEffect(store, config, user, paths, kind) == Effect(Done(true), store[(id, kind) := Removed(store[(id, kind)], paths)])
  {
  }

  /** `add` for a principal with a record stores the merged, deduplicated tree. */
  lemma AddExisting(store: Store, config: Config, user: Val, id: string, paths: Entries, kind: PType)
    requires IdentifiedBy(config, user, id) && (id, kind) in store
    ensures AddEffect(store, config, user, paths, kind) == Effect(Done(true), store[(id, kind) := AddTo(Some(store[(id, kind)]), paths)])
  {
  }

  /**
   * `removeUserFromGroup` undoes `addUserToGroup` for a user and a group that had
   * no records: both records remain, emptied.
   */
  lemma MembershipRoundTrip(store: Store, config: Config, user: Val, uid: string, g: string)
    requires user.Arr? && IdentifiedBy(config, user, uid) && (uid, User) !in store && (g, Group) !in store
    ensures var added := MembershipEffect(store, config, user, Str(g), true).store;
      MembershipEffect(added, config, user, Str(g), false) == Effect(Done(true), store[(uid, User) := []][(g, Group) := []])
  {
    var idKey := KeyOf(config.userIdentifier);
    var mpG := MemberPaths(PathGroups, Str(g));
    var mpU := MemberPaths(PathUsers, Str(uid));
    assert IdentifiedBy(config, Str(g), g);
    assert Get(user, idKey) == Str(uid);
    var s1 := store[(uid, User) := mpG];
    var s2 := s1[(g, Group) := mpU];
    AddFresh(store, config, user, uid, mpG, User);
    AddFresh(s1, config, Str(g), g, mpU, Group);
    assert MembershipEffect(store, config, user, Str(g), true).store == s2;
    var s3 := s2[(uid, User) := []];
    RemoveExisting(s2, config, user, uid, mpG, User);
    RemoveOnlyMember(PathGroups, g);
    RemoveExisting(s3, config, Str(g), g, mpU, Group);
    RemoveOnlyMember(PathUsers, uid);
    assert s3[(g, Group) := []] == store[(uid, User) := []][(g, Group) := []];
  }

  /** A group created by `addAction` and then given a member has the roster beside the route, both left as built. */
  lemma ActionThenRoster(controller: string, action: string, uid: string)
    requires KeyOf(controller).S?
    ensures AddTo(Some(ActionPaths(controller, action)), MemberPaths(PathUsers, Str(uid))) ==
      ActionPaths(controller, action) + MemberPaths(PathUsers, Str(uid))
  {
    var ap := ActionPaths(controller, action);
    var mu := MemberPaths(PathUsers, Str(uid));
    var list := [(I(0), Str(action))];
    var inner := [(KeyOf(controller), Arr(list))];
    MergeIntoEmptyStringKeys(ap);
    assert MergeInto(ap, mu) == MergeInto(MergeEntry(ap, mu[0]), []);
    assert Lookup(ap, S(PathUsers)).None?;
    assert MergeEntry(ap, mu[0]) == ap + mu;
    assert UniqueDeep(list) && UniqueDeep([(I(0), Str(uid))]);
    assert UniqueDeepEntry(inner[0]) && UniqueDeep(inner);
    var gt := ap + mu;
    assert UniqueDeepEntry(gt[0]) && UniqueDeepEntry(gt[1]);
    assert UniqueDeep(gt);
    UniqueFixpoint(gt);
  }

  /** A user record holding only its `groups` list matches no route, and the walk leaves it as it was. */
  lemma RosterOnlyWalk(g: string, controller: string, action: string)
    ensures Walk([PathRoute, controller, action], Arr(MemberPaths(PathGroups, Str(g)))) ==
      Matched(false, Arr(MemberPaths(PathGroups, Str(g))))
  {
    var mp := MemberPaths(PathGroups, Str(g));
    assert !IsDigit(PathRoute[0]) && KeyOf(PathRoute) == S(PathRoute);
    assert !InArray(Str(Wildcard), Arr(mp)) && !InArray(Str(PathRoute), Arr(mp));
    assert Lookup(mp, S(PathRoute)).None?;
  }

  /** The group's tree grants the route `addAction` gave it, and the walk leaves its roster in place. */
  lemma GroupTreeWalk(controller: string, action: string, uid: string)
    requires KeyOf(controller).S?
    ensures var m := Walk([PathRoute, controller, action], Arr(ActionPaths(controller, action) + MemberPaths(PathUsers, Str(uid))));
      m.granted && Get(m.tree, S(PathUsers)) == Arr([(I(0), Str(uid))])
  {
    var ap := ActionPaths(controller, action);
    var gt := ap + MemberPaths(PathUsers, Str(uid));
    var list := Arr([(I(0), Str(action))]);
    var inner := [(KeyOf(controller), list)];
    assert !IsDigit(PathRoute[0]) && KeyOf(PathRoute) == S(PathRoute);
    assert gt[0] == (S(PathRoute), Arr(inner));
    assert !InArray(Str(Wildcard), Arr(gt)) && !InArray(Str(PathRoute), Arr(gt));
    assert Lookup(gt, S(PathRoute)) == Some(Arr(inner));
    assert !InArray(Str(Wildcard), Arr(inner)) && !InArray(Str(controller), Arr(inner));
    assert [PathRoute, controller][1..] == [controller];
    assert Cursor(Arr(gt), [PathRoute, controller]) == Cursor(Arr(inner), [controller]);
    assert Lookup(inner, KeyOf(controller)) == Some(list);
    assert Cursor(Arr(inner), [controller]) == Cursor(list, []);
    WalkCompose(Arr(gt), [PathRoute, controller], [action]);
    assert [PathRoute, controller] + [action] == [PathRoute, controller, action];
    assert InArray(Str(action), list) by {
      assert LooseEquals(Str(action), list.entries[0].1);
    }
    assert Walk([action], list).granted by {
      assert [action][1..] == [];
    }
    var x := Walk([action], list).tree;
    assert KeysOf([PathRoute, controller]) == [S(PathRoute), KeyOf(controller)];
    var below := PutAt(Arr(inner), [KeyOf(controller)], x);
    assert PutAt(Arr(gt), [S(PathRoute), KeyOf(controller)], x) == Arr(Assign(gt, S(PathRoute), below)) by {
      assert [S(PathRoute), KeyOf(controller)][1..] == [KeyOf(controller)];
    }
    LookupAssign(gt, S(PathRoute), below, S(PathUsers));
    assert Lookup(gt, S(PathUsers)) == Some(Arr([(I(0), Str(uid))]));
  }

  /** The records after `addAction` on a new group, then `addUserToGroup` of a user without a record. */
  lemma GroupThenMemberStore(store: Store, config: Config, user: Val, uid: string, g: string, controller: string, action: string)
    requires user.Arr? && IdentifiedBy(config, user, uid)
    requires (uid, User) !in store && (g, Group) !in store && KeyOf(controller).S?
    ensures var s1 := AddEffect(store, config, Str(g), ActionPaths(controller, action), Group).store;
      MembershipEffect(s1, config, user, Str(g), true).store ==
        store[(g, Group) := ActionPaths(controller, action)][(uid, User) := MemberPaths(PathGroups, Str(g))]
          [(g, Group) := ActionPaths(controller, action) + MemberPaths(PathUsers, Str(uid))]
  {
    var ap := ActionPaths(controller, action);
    var mpG := MemberPaths(PathGroups, Str(g));
    var mpU := MemberPaths(PathUsers, Str(uid));
    assert IdentifiedBy(config, Str(g), g);
    assert Get(user, KeyOf(config.userIdentifier)) == Str(uid);
    var s1 := store[(g, Group) := ap];
    AddFresh(store, config, Str(g), g, ap, Group);
    var sa := s1[(uid, User) := mpG];
    AddFresh(s1, config, user, uid, mpG, User);
    AddExisting(sa, config, Str(g), g, mpU, Group);
    ActionThenRoster(controller, action, uid);
  }

  /** A user whose record lists only the group `g`, which holds the route and lists the user, is granted the route. */
  lemma RosterGrant(s: Store, config: Config, user: Val, uid: string, g: string, controller: string, action: string, options: Entries)
    requires user.Arr? && IdentifiedBy(config, user, uid) && !Anonymous(user, KeyOf(config.userIdentifier))
    requires !Falsy(Str(g)) && KeyOf(controller).S?
    requires (uid, User) in s && s[(uid, User)] == MemberPaths(PathGroups, Str(g))
    requires (g, Group) in s && s[(g, Group)] == ActionPaths(controller, action) + MemberPaths(PathUsers, Str(uid))
    ensures Granted(Decide(s, config, user, ResolvePath(Route(controller, action)), options, User))
  {
    var path := [PathRoute, controller, action];
    assert ResolvePath(Route(controller, action)) == path;
    if Walk(path, config.defaultUser).granted {
      DefaultUserGrants(s, config, user, path, options, User);
    } else {
      RosterOnlyWalk(g, controller, action);
      GroupTreeWalk(controller, action, uid);
      var roster := [(I(0), Str(uid))];
      assert InArray(Str(uid), Arr(roster)) by {
        assert LooseEquals(Str(uid), roster[0].1);
      }
      MemberInheritsGroupGrant(s, config, user, uid, path, options, s[(uid, User)], g, s[(g, Group)]);
    }
  }

  /**
   * Group grants reach members added later: after `addAction` on a new group and
   * `addUserToGroup` of a user without a record, the user is granted that route.
   */
  lemma GroupActionReachesMember(store: Store, config: Config, user: Val, uid: string, g: string, controller: string, action: string, options: Entries)
    requires user.Arr? && IdentifiedBy(config, user, uid) && !Anonymous(user, KeyOf(config.userIdentifier))
    requires (uid, User) !in store && (g, Group) !in store && !Falsy(Str(g)) && KeyOf(controller).S?
    ensures var s1 := AddEffect(store, config, Str(g), ActionPaths(controller, action), Group).store;
      var s2 := MembershipEffect(s1, config, user, Str(g), true).store;
      Granted(Decide(s2, config, user, ResolvePath(Route(controller, action)), options, User))
  {
    GroupThenMemberStore(store, config, user, uid, g, controller, action);
    var s2 := store[(g, Group) := ActionPaths(controller, action)][(uid, User) := MemberPaths(PathGroups, Str(g))]
      [(g, Group) := ActionPaths(controller, action) + MemberPaths(PathUsers, Str(uid))];
    RosterGrant(s2, config, user, uid, g, controller, action, options);
  }
}
