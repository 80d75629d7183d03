/**
 * The removal walk of `remove`: the paths to remove are flattened to
 * `dotted.key => value` entries; for each, a reference walks the stored tree
 * along every segment of the dotted key (the trailing list index included),
 * casts the slot it reaches to an array and writes that back, then nulls the
 * slot when the value is `*`, or unsets the first entry equal to the value.
 * `_cleanPaths` runs last.
 */
module Removal {
  import opened Php
  import opened Library
  import opened Prune
  import opened Matcher

  /** Every segment passes the walk's `isset` test, level by level. */
  predicate Located(v: Val, parts: seq<string>)
    decreases |parts|
  {
    parts == [] || (IsSet(v, KeyOf(parts[0])) && Located(Get(v, KeyOf(parts[0])), parts[1..]))
  }

  /** The `switch` of `remove` on the slot, already cast to an array. */
  function Cleared(slot: Entries, value: Val): Val
  {
    if slot == [] then Arr(slot)
    else if LooseEquals(value, Str(Wildcard)) then Null
    else match Search(value, slot)
      case None => Arr(slot)
      case Some(i) => Arr(slot[..i] + slot[i + 1..])
  }

  /** One flattened entry `path => value` removed from the tree. */
  function RemoveValue(tree: Val, path: string, value: Val): (r: Val)
    ensures tree.Arr? ==> r.Arr?
  {
    var parts := Explode(path, Separator);
    if !Located(tree, parts) then tree
    else PutAt(tree, KeysOf(parts), Cleared(AsArray(At(tree, KeysOf(parts))), value))
  }

  /** Every flattened entry removed in turn. */
  function RemoveEach(tree: Val, flat: Entries): (r: Val)
    ensures tree.Arr? ==> r.Arr?
    decreases |flat|
  {
    if flat == [] then tree else RemoveEach(RemoveValue(tree, KeyString(flat[0].0), flat[0].1), flat[1..])
  }

  /** The tree `remove` stores back: the flattened paths removed, then `_cleanPaths`. */
  function Removed(tree: Entries, paths: Entries): Entries
  {
    Pruned(RemoveEach(Arr(tree), Flatten(paths)).entries)
  }

  lemma {:induction false} LocatedStep(tree: Val, pointer: seq<Key>, parts: seq<string>, i: nat)
    requires i < |parts| && pointer == KeysOf(parts[..i]) && HasPath(tree, pointer)
    requires IsSet(At(tree, pointer), KeyOf(parts[i]))
    ensures pointer + [KeyOf(parts[i])] == KeysOf(parts[..i + 1])
    ensures HasPath(tree, pointer + [KeyOf(parts[i])])
    ensures Located(At(tree, pointer), parts[i..]) <==> Located(At(tree, pointer + [KeyOf(parts[i])]), parts[i + 1..])
  {
    KeysOfStep(parts, i);
    HasPathExtend(tree, pointer, KeyOf(parts[i]));
    assert parts[i..][0] == parts[i] && parts[i..][1..] == parts[i + 1..];
  }

  lemma KeysOfStep(parts: seq<string>, i: nat)
    requires i < |parts|
    ensures KeysOf(parts[..i]) + [KeyOf(parts[i])] == KeysOf(parts[..i + 1])
  {
    var a := KeysOf(parts[..i]) + [KeyOf(parts[i])];
    var b := KeysOf(parts[..i + 1]);
    assert |a| == |b|;
    forall j | 0 <= j < |a|
      ensures a[j] == b[j]
    {
      if j < i {
        assert parts[..i][j] == parts[..i + 1][j];
      }
    }
  }

  /**
   * The reference walk of `remove`: it stops at the first segment that is not set
   * (the reference is then dropped), otherwise it reaches the slot the whole path names.
   */
  method Locate(tree: Val, pathParts: seq<string>) returns (located: bool, pointer: seq<Key>)
    ensures located == Located(tree, pathParts)
    ensures located ==> pointer == KeysOf(pathParts) && HasPath(tree, pointer)
  {
    pointer := [];
    var i := 0;
    while i < |pathParts|
      invariant 0 <= i <= |pathParts|
      invariant pointer == KeysOf(pathParts[..i]) && HasPath(tree, pointer)
      invariant Located(tree, pathParts) <==> Located(At(tree, pointer), pathParts[i..])
    {
      var k := KeyOf(pathParts[i]);
      if !IsSet(At(tree, pointer), k) {
        // unset($pointer); $pointer = null; break;
        assert pathParts[i..][0] == pathParts[i];
        return false, pointer;
      }
      LocatedStep(tree, pointer, pathParts, i);
      pointer := pointer + [k];
      i := i + 1;
    }
    assert pathParts[..i] == pathParts;
    located := true;
  }

  /** The inner loop of `remove` for one flattened entry: the reference walk and the `switch`. */
  method RemoveFlat(allowedPaths: Val, path: string, value: Val) returns (tree: Val)
    ensures tree == RemoveValue(allowedPaths, path, value)
  {
    tree := allowedPaths;
    var located, pointer := Locate(allowedPaths, Explode(path, Separator));
    if located {
      // $pointer = (array)$pointer; writes the cast back through the reference
      var slot := AsArray(At(tree, pointer));
      tree := PutAt(tree, pointer, Arr(slot));
      if slot == [] {
      } else if LooseEquals(value, Str(Wildcard)) {
        PutAtPutAt(allowedPaths, pointer, Null, Arr(slot));
        tree := PutAt(tree, pointer, Null);
      } else {
        var index := Search(value, slot);
        if index.Some? {
          var rest := slot[..index.value] + slot[index.value + 1..];
          PutAtPutAt(allowedPaths, pointer, Arr(rest), Arr(slot));
          tree := PutAt(tree, pointer, Arr(rest));
        }
      }
    }
  }

  /** `remove` from the flattening to `_cleanPaths`, on the tree of an existing record. */
  method RemovePaths(allowedPaths: Entries, paths: Entries) returns (cleaned: Entries)
    ensures cleaned == Removed(allowedPaths, paths)
  {
    var pathsFlat := Flatten(paths);
    var tree := Arr(allowedPaths);
    for i := 0 to |pathsFlat|
      invariant tree.Arr?
      invariant RemoveEach(tree, pathsFlat[i..]) == RemoveEach(Arr(allowedPaths), pathsFlat)
    {
      assert pathsFlat[i..][0] == pathsFlat[i] && pathsFlat[i..][1..] == pathsFlat[i + 1..];
      var (path, value) := pathsFlat[i];
      tree := RemoveFlat(tree, KeyString(path), value);
    }
    assert pathsFlat[|pathsFlat|..] == [];
    cleaned := CleanPaths(tree.entries);
  }

  // ---------------------------------------------------------------------------
  // What a removal does

  /** `remove` always stores a tree with no falsy entry at any level. */
  lemma RemovedIsTidy(tree: Entries, paths: Entries)
    ensures Tidy(Removed(tree, paths))
  {
    PrunedIsTidy(RemoveEach(Arr(tree), Flatten(paths)).entries);
  }

  /** Removing a single nested path walks exactly the keys it was built from (when none of them holds a dot). */
  lemma RemoveNested(tree: Val, parts: seq<string>, value: Val)
    requires |parts| >= 1 && NoSeparator(parts, Separator) && !value.Arr?
    ensures RemoveEach(tree, Flatten(Nest(KeysOf(parts), value))) == RemoveValue(tree, Implode(parts, Separator), value)
    ensures Explode(Implode(parts, Separator), Separator) == parts
  {
    FlattenNest(parts, value, "");
    assert "" + Implode(parts, Separator) == Implode(parts, Separator);
    KeyStringOfKeyOf(Implode(parts, Separator));
    ExplodeImplode(parts, Separator);
  }

  /** A missing segment anywhere on the way makes the removal of that entry a no-op. */
  lemma MissingSegmentIsNoOp(tree: Val, parts: seq<string>, value: Val)
    requires |parts| >= 1 && NoSeparator(parts, Separator) && !value.Arr?
    requires !Located(tree, parts)
    ensures RemoveEach(tree, Flatten(Nest(KeysOf(parts), value))) == tree
  {
    RemoveNested(tree, parts, value);
  }

  /**
   * A scalar at the end of the path (`remove($p, array('route' => array($c => 'a')))`)
   * unsets the first entry of the list reached that equals it, unless it is `*`,
   * which nulls the whole list.
   */
  lemma RemoveFromList(tree: Val, parts: seq<string>, list: Entries, value: string)
    requires |parts| >= 1 && NoSeparator(parts, Separator)
    requires Located(tree, parts) && At(tree, KeysOf(parts)) == Arr(list) && list != []
    ensures value == Wildcard ==>
      RemoveEach(tree, Flatten(Nest(KeysOf(parts), Str(value)))) == PutAt(tree, KeysOf(parts), Null)
    ensures value != Wildcard && Search(Str(value), list).Some? ==>
      var i := Search(Str(value), list).value;
      RemoveEach(tree, Flatten(Nest(KeysOf(parts), Str(value)))) == PutAt(tree, KeysOf(parts), Arr(list[..i] + list[i + 1..]))
    ensures value != Wildcard && Search(Str(value), list).None? ==>
      RemoveEach(tree, Flatten(Nest(KeysOf(parts), Str(value)))) == tree
  {
    RemoveNested(tree, parts, Str(value));
    LocatedHasPath(tree, parts);
    PutAtAt(tree, KeysOf(parts));
  }

  /**
   * The walk of `removeAction`, `removeCustomPath` and `removeUserFromGroup` ends on the
   * list's index 0, which holds the string `held`: the value is removed only when it
   * is that string; `*` nulls that one entry; any other value turns it into the
   * one-element list `[held]`.
   */
  lemma RemoveAtFirstIndex(tree: Val, parts: seq<string>, held: string, value: string)
    requires |parts| >= 1 && NoSeparator(parts, Separator)
    requires Located(tree, parts) && At(tree, KeysOf(parts)) == Str(held)
    ensures RemoveEach(tree, Flatten(Nest(KeysOf(parts), Str(value)))) ==
      PutAt(tree, KeysOf(parts),
        if value == Wildcard then Null
        else if value == held then Arr([])
        else Arr([(I(0), Str(held))]))
  {
    RemoveNested(tree, parts, Str(value));
    var slot := [(I(0), Str(held))];
    if value != Wildcard && value == held {
      assert Search(Str(value), slot) == Some(0);
      assert slot[..0] + slot[1..] == [];
    }
  }

  lemma {:induction false} LocatedHasPath(tree: Val, parts: seq<string>)
    requires Located(tree, parts)
    ensures HasPath(tree, KeysOf(parts))
    decreases |parts|
  {
    if parts != [] {
      LocatedHasPath(Get(tree, KeyOf(parts[0])), parts[1..]);
      assert KeysOf(parts)[1..] == KeysOf(parts[1..]);
    }
  }
}
