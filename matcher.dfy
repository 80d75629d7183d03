/**
 * The tree matcher `_processPath`: walks a path's segments down a permission
 * tree. A `*` among the values of the current level grants the rest of the
 * path; a segment found among the values (a list member) ends the walk; a
 * segment found among the keys descends one level; anything else denies.
 * The matcher takes the tree by reference and overwrites the level where a
 * list member matched, so the walk also yields the tree as it leaves it.
 */
module Matcher {
  import opened Php

  const Wildcard: string := "*"

  /** What `_processPath` returns, together with the tree it leaves behind in the caller's variable. */
  datatype Matched = Matched(granted: bool, tree: Val)

  /** The matcher's verdict on `path` and its effect on the tree, level by level from `level`. */
  function Walk(path: seq<string>, level: Val): Matched
    decreases |path|
  {
    if path == [] then Matched(true, level)
    else if InArray(Str(Wildcard), level) then Matched(true, level)
    else if InArray(Str(path[0]), level) then
      // The level is overwritten with array() and the reference step creates a null entry.
      var r := Walk(path[1..], Null);
      Matched(r.granted, Arr([(KeyOf(path[0]), r.tree)]))
    else if !IsSet(level, KeyOf(path[0])) then Matched(false, level)
    else
      var r := Walk(path[1..], Get(level, KeyOf(path[0])));
      Matched(r.granted, Arr(Assign(level.entries, KeyOf(path[0]), r.tree)))
  }

  /** The outcome of walking the rest of the path from the level at `pointer`, seen from the root. */
  function Lift(root: Val, pointer: seq<Key>, m: Matched): Matched
  {
    Matched(m.granted, PutAt(root, pointer, m.tree))
  }

  /**
   * `_processPath`: the loop keeps the reference `$pointer` as the chain of keys
   * from the root. In PHP a `continue` inside `switch` leaves only the switch,
   * so after a list-member match the reference step still runs.
   */
  method ProcessPath(path: seq<string>, allowedPaths: Val) returns (granted: bool, tree: Val)
    ensures Matched(granted, tree) == Walk(path, allowedPaths)
  {
    tree := allowedPaths;
    var pointer: seq<Key> := [];
    var i := 0;
    while i < |path|
      invariant 0 <= i <= |path|
      invariant HasPath(tree, pointer)
      invariant Walk(path, allowedPaths) == Lift(tree, pointer, Walk(path[i..], At(tree, pointer)))
    {
      var level := At(tree, pointer);
      var item := path[i];
      var k := KeyOf(item);
      WalkAt(path, i, level);
      if InArray(Str(Wildcard), level) {
        PutAtAt(tree, pointer);
        return true, tree;
      } else if InArray(Str(item), level) {
        ClearStep(tree, pointer, k, Walk(path[i + 1..], Null));
        tree := PutAt(tree, pointer, Arr([(k, Null)]));
      } else if !IsSet(level, k) {
        PutAtAt(tree, pointer);
        return false, tree;
      } else {
        DescendStep(tree, pointer, k, Walk(path[i + 1..], Get(level, k)));
      }
      pointer := pointer + [k];
      i := i + 1;
    }
    assert Walk([], At(tree, pointer)) == Matched(true, At(tree, pointer));
    PutAtAt(tree, pointer);
    granted := true;
  }

  /** The walk of the rest of the path from segment `i`, one step unfolded. */
  lemma WalkAt(path: seq<string>, i: nat, level: Val)
    requires i < |path|
    ensures var k := KeyOf(path[i]);
      Walk(path[i..], level) ==
        if InArray(Str(Wildcard), level) then Matched(true, level)
        else if InArray(Str(path[i]), level) then
          Matched(Walk(path[i + 1..], Null).granted, Arr([(k, Walk(path[i + 1..], Null).tree)]))
        else if !IsSet(level, k) then Matched(false, level)
        else
          Matched(Walk(path[i + 1..], Get(level, k)).granted, Arr(Assign(level.entries, k, Walk(path[i + 1..], Get(level, k)).tree)))
  {
    assert path[i..][0] == path[i] && path[i..][1..] == path[i + 1..];
  }

  /** One reference step through a present key, seen from the root. */
  lemma DescendStep(root: Val, pointer: seq<Key>, k: Key, m: Matched)
    requires HasPath(root, pointer) && At(root, pointer).Arr? && Lookup(At(root, pointer).entries, k).Some?
    ensures HasPath(root, pointer + [k]) && At(root, pointer + [k]) == Get(At(root, pointer), k)
    ensures Lift(root, pointer + [k], m) == Lift(root, pointer, Matched(m.granted, Arr(Assign(At(root, pointer).entries, k, m.tree))))
  {
    HasPathExtend(root, pointer, k);
    PutAtExtend(root, pointer, k, m.tree);
  }

  /** The level at `pointer` overwritten with `array()`, then one reference step that creates a null entry. */
  lemma ClearStep(root: Val, pointer: seq<Key>, k: Key, m: Matched)
    requires HasPath(root, pointer)
    ensures HasPath(PutAt(root, pointer, Arr([(k, Null)])), pointer + [k])
    ensures At(PutAt(root, pointer, Arr([(k, Null)])), pointer + [k]) == Null
    ensures Lift(PutAt(root, pointer, Arr([(k, Null)])), pointer + [k], m) == Lift(root, pointer, Matched(m.granted, Arr([(k, m.tree)])))
  {
    var cleared := PutAt(root, pointer, Arr([(k, Null)]));
    AtPutAt(root, pointer, Arr([(k, Null)]));
    HasPathExtend(cleared, pointer, k);
    PutAtExtend(cleared, pointer, k, m.tree);
    assert Assign([(k, Null)], k, m.tree) == [(k, m.tree)];
    PutAtPutAt(root, pointer, Arr([(k, m.tree)]), Arr([(k, Null)]));
  }

  /**
   * Where the matcher's cursor stands after consuming `prefix` by descending
   * through keys only: None if the walk would already have decided (a `*`, a
   * list-member match or a missing segment on the way).
   */
  function Cursor(level: Val, prefix: seq<string>): Option<Val>
    decreases |prefix|
  {
    if prefix == [] then Some(level)
    else if InArray(Str(Wildcard), level) || InArray(Str(prefix[0]), level) || !IsSet(level, KeyOf(prefix[0])) then None
    else Cursor(Get(level, KeyOf(prefix[0])), prefix[1..])
  }

  /** The walk composes: after a key-only prefix, the verdict is the rest's verdict from the level reached. */
  lemma {:induction false} WalkCompose(tree: Val, prefix: seq<string>, rest: seq<string>)
    requires Cursor(tree, prefix).Some?
    ensures HasPath(tree, KeysOf(prefix)) && At(tree, KeysOf(prefix)) == Cursor(tree, prefix).value
    ensures Walk(prefix + rest, tree) == Lift(tree, KeysOf(prefix), Walk(rest, Cursor(tree, prefix).value))
    decreases |prefix|
  {
    if prefix == [] {
      assert prefix + rest == rest;
    } else {
      var k := KeyOf(prefix[0]);
      var p := prefix + rest;
      assert p[0] == prefix[0] && p[1..] == prefix[1..] + rest;
      var child := Lookup(tree.entries, k).value;
      assert Get(tree, k) == child;
      WalkCompose(child, prefix[1..], rest);
      var m := Walk(prefix[1..] + rest, child);
      assert Walk(p, tree) == Matched(m.granted, Arr(Assign(tree.entries, k, m.tree)));
      assert KeysOf(prefix) == [k] + KeysOf(prefix[1..]);
    }
  }

  /** Wildcard dominance: a `*` at the level the cursor reached grants every continuation. */
  lemma WildcardGrants(tree: Val, prefix: seq<string>, rest: seq<string>)
    requires Cursor(tree, prefix).Some? && InArray(Str(Wildcard), Cursor(tree, prefix).value)
    ensures Walk(prefix + rest, tree).granted
  {
    WalkCompose(tree, prefix, rest);
  }

  /** A segment that is neither a value nor a key of the level reached denies, whatever follows. */
  lemma UnknownSegmentDenies(tree: Val, prefix: seq<string>, segment: string, rest: seq<string>)
    requires Cursor(tree, prefix).Some?
    requires !InArray(Str(Wildcard), Cursor(tree, prefix).value)
    requires !InArray(Str(segment), Cursor(tree, prefix).value)
    requires !IsSet(Cursor(tree, prefix).value, KeyOf(segment))
    ensures !Walk(prefix + [segment] + rest, tree).granted
  {
    WalkCompose(tree, prefix, [segment] + rest);
    assert prefix + [segment] + rest == prefix + ([segment] + rest);
  }

  /**
   * A list member grants exactly the path that ends on it: one more segment is
   * denied, because the cursor is left on a null. Either way the matched level
   * is overwritten with a single null entry under that segment.
   */
  lemma ListMemberEndsPath(tree: Val, prefix: seq<string>, segment: string, rest: seq<string>)
    requires Cursor(tree, prefix).Some?
    requires !InArray(Str(Wildcard), Cursor(tree, prefix).value)
    requires InArray(Str(segment), Cursor(tree, prefix).value)
    ensures Walk(prefix + [segment] + rest, tree).granted <==> rest == []
    ensures Walk(prefix + [segment] + rest, tree).tree == PutAt(tree, KeysOf(prefix), Arr([(KeyOf(segment), Null)]))
  {
    WalkCompose(tree, prefix, [segment] + rest);
    assert prefix + [segment] + rest == prefix + ([segment] + rest);
    assert ([segment] + rest)[1..] == rest;
    if rest != [] {
      assert Walk(rest, Null) == Matched(false, Null);
    }
  }

  /** A path that descends through keys all the way is granted and leaves the tree as it was. */
  lemma KeyChainGrants(tree: Val, path: seq<string>)
    requires Cursor(tree, path).Some?
    ensures Walk(path, tree) == Matched(true, tree)
  {
    WalkCompose(tree, path, []);
    assert path + [] == path;
    PutAtAt(tree, KeysOf(path));
  }

  /** The running example: `{route: {Posts: [view, edit]}}`. */
  function PostsTree(): Val
  {
    Arr([(S("route"), Arr([(S("Posts"), Arr([(I(0), Str("view")), (I(1), Str("edit"))]))]))])
  }

  function PostsList(): Val
  {
    Arr([(I(0), Str("view")), (I(1), Str("edit"))])
  }

  /** The walk down `route` and `Posts` reaches the list by keys alone. */
  lemma PostsCursor()
    ensures Cursor(PostsTree(), ["route", "Posts"]) == Some(PostsList())
  {
    var inner := Arr([(S("Posts"), PostsList())]);
    assert !IsDigit("route"[0]) && !IsDigit("Posts"[0]);
    assert KeyOf("route") == S("route") && KeyOf("Posts") == S("Posts");
    assert !InArray(Str(Wildcard), PostsTree()) && !InArray(Str("route"), PostsTree());
    assert !InArray(Str(Wildcard), inner) && !InArray(Str("Posts"), inner);
  }

  /** `{route: {Posts: [view, edit]}}` grants the edit action of `Posts`. */
  lemma PostsEditGranted()
    ensures Walk(["route", "Posts", "edit"], PostsTree()).granted
  {
    PostsCursor();
    var posts := PostsList();
    assert !InArray(Str(Wildcard), posts);
    assert LooseEquals(Str("edit"), posts.entries[1].1);
    ListMemberEndsPath(PostsTree(), ["route", "Posts"], "edit", []);
    assert ["route", "Posts"] + ["edit"] + [] == ["route", "Posts", "edit"];
  }

  /** The same tree denies the delete action, which it does not list. */
  lemma PostsDeleteDenied()
    ensures !Walk(["route", "Posts", "delete"], PostsTree()).granted
  {
    PostsCursor();
    var posts := PostsList();
    assert !IsDigit("delete"[0]);
    assert !InArray(Str(Wildcard), posts) && !InArray(Str("delete"), posts) && !IsSet(posts, KeyOf("delete"));
    UnknownSegmentDenies(PostsTree(), ["route", "Posts"], "delete", []);
    assert ["route", "Posts"] + ["delete"] + [] == ["route", "Posts", "delete"];
  }
}
