/**
 * What `add` does to a stored tree: `unique(array_merge_recursive($old, $paths))`.
 * The merge keeps the stored entries first and never breaks PHP's one-key-per-entry
 * rule; re-adding paths that are already stored changes nothing but the integer
 * keys that `array_merge_recursive` renumbers at the top level.
 */
module MergeFacts {
  import opened Php
  import opened Library
  import opened Dedup

  // ---------------------------------------------------------------------------
  // The merge keeps the stored entries first

  lemma {:induction false} MergeEntryKeepsKeys(dest: Entries, p: (Key, Val))
    ensures |MergeEntry(dest, p)| >= |dest|
    ensures forall i | 0 <= i < |dest| :: MergeEntry(dest, p)[i].0 == dest[i].0
  {
    if p.0.S? && Lookup(dest, p.0).Some? {
      var base := MergeBase(Lookup(dest, p.0).value);
      var merged := if p.1.Arr? then MergeInto(base, p.1.entries) else Append(base, p.1);
      AssignInPlace(dest, p.0, Arr(merged));
    }
  }

  /** The keys of the destination stay at the front, in their order. */
  lemma {:induction false} MergeKeepsKeys(dest: Entries, src: Entries)
    ensures |MergeInto(dest, src)| >= |dest|
    ensures forall i | 0 <= i < |dest| :: MergeInto(dest, src)[i].0 == dest[i].0
    decreases |src|
  {
    if src != [] {
      MergeEntryKeepsKeys(dest, src[0]);
      MergeKeepsKeys(MergeEntry(dest, src[0]), src[1..]);
    }
  }

  /** `array_merge_recursive($old, $paths)` lists the stored top-level keys first, in their order, renumbering integer keys. */
  lemma OldEntriesFirst(stored: Entries, paths: Entries)
    requires DistinctKeys(stored)
    ensures |MergeRecursive(stored, paths)| >= |stored|
    ensures forall i | 0 <= i < |stored| ::
      MergeRecursive(stored, paths)[i].0.S? == stored[i].0.S? &&
      (stored[i].0.S? ==> MergeRecursive(stored, paths)[i].0 == stored[i].0)
  {
    MergeIntoEmpty(stored);
    MergeKeepsKeys(MergeInto([], stored), paths);
  }

  // ---------------------------------------------------------------------------
  // The merge keeps keys distinct at every level

  lemma {:induction false} MergeEntryWellFormed(dest: Entries, p: (Key, Val))
    requires WellFormed(dest) && WellFormedEntry(p)
    ensures WellFormed(MergeEntry(dest, p))
    decreases p
  {
    if p.0.I? {
      AppendKeepsDistinct(dest, p.1);
      var r := Append(dest, p.1);
      assert forall i | 0 <= i < |r| :: WellFormedEntry(r[i]) by {
        forall i | 0 <= i < |r|
          ensures WellFormedEntry(r[i])
        {
          if i < |dest| { assert r[i] == dest[i]; }
        }
      }
    } else if Lookup(dest, p.0).None? {
      var r := dest + [p];
      forall i | 0 <= i < |r|
        ensures WellFormedEntry(r[i])
      {
        if i < |dest| { assert r[i] == dest[i]; }
      }
    } else {
      var existing := Lookup(dest, p.0).value;
      var t :| 0 <= t < |dest| && dest[t] == (p.0, existing);
      assert WellFormedEntry(dest[t]);
      var base := MergeBase(existing);
      assert WellFormed(base);
      var merged := if p.1.Arr? then MergeInto(base, p.1.entries) else Append(base, p.1);
      if p.1.Arr? {
        MergeWellFormed(base, p.1.entries);
      } else {
        AppendKeepsDistinct(base, p.1);
        var r := Append(base, p.1);
        forall i | 0 <= i < |r|
          ensures WellFormedEntry(r[i])
        {
          if i < |base| { assert r[i] == base[i]; }
        }
      }
      AssignKeepsDistinct(dest, p.0, Arr(merged));
      AssignInPlace(dest, p.0, Arr(merged));
    }
  }

  /** Merging two well-formed arrays gives a well-formed array. */
  lemma {:induction false} MergeWellFormed(dest: Entries, src: Entries)
    requires WellFormed(dest) && WellFormed(src)
    ensures WellFormed(MergeInto(dest, src))
    decreases src, 0
  {
    if src != [] {
      assert WellFormedEntry(src[0]);
      MergeEntryWellFormed(dest, src[0]);
      forall i | 0 <= i < |src[1..]|
        ensures WellFormedEntry(src[1..][i])
      {
        assert src[1..][i] == src[i + 1];
      }
      MergeWellFormed(MergeEntry(dest, src[0]), src[1..]);
    }
  }

  /** After `add` merges into an existing record, no level holds a repeated scalar and every level has distinct keys. */
  lemma AddLeavesNoRepeats(stored: Entries, paths: Entries)
    requires WellFormed(stored) && WellFormed(paths)
    ensures UniqueDeep(Deduplicated(MergeRecursive(stored, paths)))
  {
    MergeWellFormed([], stored);
    MergeWellFormed(MergeInto([], stored), paths);
    UniqueIsUniqueDeep(MergeRecursive(stored, paths));
  }

  // ---------------------------------------------------------------------------
  // The top level is renumbered

  /** `d` is `u` with its integer keys replaced by other, distinct integer keys. */
  predicate Renumbered(d: Entries, u: Entries)
  {
    |d| == |u| && DistinctKeys(d) &&
    forall i | 0 <= i < |u| :: d[i].1 == u[i].1 && d[i].0.S? == u[i].0.S? && (u[i].0.S? ==> d[i].0 == u[i].0)
  }

  lemma {:induction false} MergeIntoFresh(d: Entries, u: Entries, i: nat)
    requires DistinctKeys(u) && i <= |u| && Renumbered(d, u[..i])
    ensures Renumbered(MergeInto(d, u[i..]), u)
    decreases |u| - i
  {
    if i == |u| {
      assert u[..i] == u && u[i..] == [];
    } else {
      var p := u[i];
      assert u[i..][0] == p && u[i..][1..] == u[i + 1..];
      assert u[..i + 1] == u[..i] + [p];
      var d' := MergeEntry(d, p);
      if p.0.I? {
        AppendKeepsDistinct(d, p.1);
      } else {
        forall j | 0 <= j < |d|
          ensures d[j].0 != p.0
        {
          assert u[..i][j] == u[j];
        }
        assert Lookup(d, p.0).None?;
        assert d' == d + [p];
      }
      assert Renumbered(d', u[..i + 1]);
      MergeIntoFresh(d', u, i + 1);
    }
  }

  /** `array_merge_recursive` of a single array keeps every entry and every string key, and renumbers the integer keys. */
  lemma MergeIntoEmpty(u: Entries)
    requires DistinctKeys(u)
    ensures Renumbered(MergeInto([], u), u)
  {
    MergeIntoFresh([], u, 0);
    assert u[0..] == u;
  }

  /** With string keys only, the renumbering changes nothing. */
  lemma MergeIntoEmptyStringKeys(u: Entries)
    requires DistinctKeys(u) && forall i | 0 <= i < |u| :: u[i].0.S?
    ensures MergeInto([], u) == u
  {
    MergeIntoEmpty(u);
  }

  // ---------------------------------------------------------------------------
  // Re-adding stored paths

  /**
   * The shape `addAction`, `addCustomPath` and `addUserToGroup` build: a string
   * key leads to a nested array, an integer key holds a scalar list member.
   */
  predicate PathTree(e: Entries)
    decreases e
  {
    forall i | 0 <= i < |e| :: PathTreeEntry(e[i])
  }

  predicate PathTreeEntry(p: (Key, Val))
    decreases p
  {
    if p.0.S? then p.1.Arr? && PathTree(p.1.entries) else !p.1.Arr?
  }

  /** Every path of `paths` is stored in `tree`: its string keys lead to arrays there, and each list member loosely equals a value there. */
  predicate Absorbs(tree: Entries, paths: Entries)
    decreases paths
  {
    forall i | 0 <= i < |paths| :: AbsorbsEntry(tree, paths[i])
  }

  predicate AbsorbsEntry(tree: Entries, p: (Key, Val))
    decreases p
  {
    if p.0.S? then
      Lookup(tree, p.0).Some? && Lookup(tree, p.0).value.Arr? && p.1.Arr? &&
      Absorbs(Lookup(tree, p.0).value.entries, p.1.entries)
    else
      InArray(p.1, Arr(tree))
  }

  /**
   * `m` is the stored level `d` after merging absorbed paths into it: the same
   * entries first, nested arrays merged in turn, then only integer-keyed
   * scalars that loosely equal a value `d` already holds.
   */
  predicate Covers(m: Entries, d: Entries)
    decreases d
  {
    |d| <= |m| &&
    (forall i | 0 <= i < |d| :: CoversEntry(m[i], d[i])) &&
    (forall i | |d| <= i < |m| :: m[i].0.I? && !m[i].1.Arr? && InArray(m[i].1, Arr(d)))
  }

  predicate CoversEntry(x: (Key, Val), y: (Key, Val))
    decreases y
  {
    x.0 == y.0 && if y.1.Arr? then x.1.Arr? && Covers(x.1.entries, y.1.entries) else x == y
  }

  lemma {:induction false} CoversItself(d: Entries)
    ensures Covers(d, d)
    decreases d
  {
    forall i | 0 <= i < |d|
      ensures CoversEntry(d[i], d[i])
    {
      CoversEntryItself(d[i]);
    }
  }

  lemma {:induction false} CoversEntryItself(p: (Key, Val))
    ensures CoversEntry(p, p)
    decreases p
  {
    if p.1.Arr? {
      CoversItself(p.1.entries);
    }
  }

  lemma {:induction false} MergeEntryCovers(m: Entries, d: Entries, p: (Key, Val))
    requires UniqueDeep(d) && Covers(m, d) && PathTreeEntry(p) && AbsorbsEntry(d, p)
    ensures Covers(MergeEntry(m, p), d)
    decreases p
  {
    if p.0.I? {
      var r := Append(m, p.1);
      forall i | 0 <= i < |d|
        ensures CoversEntry(r[i], d[i])
      {
        assert r[i] == m[i];
      }
      forall i | |d| <= i < |r|
        ensures r[i].0.I? && !r[i].1.Arr? && InArray(r[i].1, Arr(d))
      {
        if i < |m| {
          assert r[i] == m[i];
        }
      }
    } else {
      var k := p.0;
      var u := Lookup(d, k).value;
      var t :| 0 <= t < |d| && d[t] == (k, u);
      forall i | 0 <= i < |m| && i != t
        ensures m[i].0 != k
      {
        if i < |d| {
          assert CoversEntry(m[i], d[i]);
        }
      }
      assert CoversEntry(m[t], d[t]);
      var sub := m[t].1.entries;
      assert UniqueDeepEntry(d[t]);
      MergeCovers(sub, u.entries, p.1.entries);
      var merged := MergeInto(sub, p.1.entries);
      OnlyKeyAt(m, t, k, Arr(merged));
      var r := m[t := (k, Arr(merged))];
      assert MergeEntry(m, p) == r;
      forall i | 0 <= i < |d|
        ensures CoversEntry(r[i], d[i])
      {
        if i != t {
          assert r[i] == m[i];
        }
      }
      forall i | |d| <= i < |r|
        ensures r[i].0.I? && !r[i].1.Arr? && InArray(r[i].1, Arr(d))
      {
        assert r[i] == m[i];
      }
    }
  }

  /** Merging absorbed paths into a covering level keeps it covering. */
  lemma {:induction false} MergeCovers(m: Entries, d: Entries, src: Entries)
    requires UniqueDeep(d) && Covers(m, d) && PathTree(src) && Absorbs(d, src)
    ensures Covers(MergeInto(m, src), d)
    decreases src, 0
  {
    if src != [] {
      assert PathTreeEntry(src[0]) && AbsorbsEntry(d, src[0]);
      MergeEntryCovers(m, d, src[0]);
      assert src[1..] == src[1..];
      forall i | 0 <= i < |src[1..]|
        ensures PathTreeEntry(src[1..][i]) && AbsorbsEntry(d, src[1..][i])
      {
        assert src[1..][i] == src[i + 1];
      }
      MergeCovers(MergeEntry(m, src[0]), d, src[1..]);
    }
  }

  lemma {:induction false} CollapseEntry(x: (Key, Val), y: (Key, Val), out: Entries)
    requires UniqueDeepEntry(y) && CoversEntry(x, y) && Lookup(out, y.0).None?
    requires !y.1.Arr? ==> !InArray(y.1, Arr(out))
    ensures DedupStep(x, out) == out + [y]
    decreases y
  {
    if y.1.Arr? {
      Collapse(x.1.entries, y.1.entries);
      AssignFresh(out, x.0, Arr(Deduplicated(x.1.entries)));
    } else {
      AssignFresh(out, x.0, x.1);
    }
  }

  /** One step of the loop of `unique` over a covering level: it appends the next stored entry or drops a repeat. */
  lemma {:induction false} CollapseStep(m: Entries, d: Entries, i: nat)
    requires UniqueDeep(d) && Covers(m, d) && i < |m|
    ensures DedupStep(m[i], if i <= |d| then d[..i] else d) == if i + 1 <= |d| then d[..i + 1] else d
    decreases d, 0, 0
  {
    if i < |d| {
      assert Lookup(d[..i], d[i].0).None?;
      assert !d[i].1.Arr? ==> !InArray(d[i].1, Arr(d[..i]));
      assert CoversEntry(m[i], d[i]) && UniqueDeepEntry(d[i]);
      CollapseEntry(m[i], d[i], d[..i]);
      assert d[..i] + [d[i]] == d[..i + 1];
    } else {
      if i == |d| {
        assert d[..i] == d;
      }
    }
  }

  lemma {:induction false} CollapseFrom(m: Entries, d: Entries, i: nat)
    requires UniqueDeep(d) && Covers(m, d) && i <= |m|
    ensures DedupInto(m[i..], if i <= |d| then d[..i] else d) == d
    decreases d, 0, |m| - i
  {
    if i == |m| {
      if i <= |d| {
        assert d[..i] == d;
      }
    } else {
      assert m[i..][0] == m[i] && m[i..][1..] == m[i + 1..];
      CollapseStep(m, d, i);
      CollapseFrom(m, d, i + 1);
    }
  }

  /** `unique` turns a covering level back into the stored level. */
  lemma {:induction false} Collapse(m: Entries, d: Entries)
    requires UniqueDeep(d) && Covers(m, d)
    ensures Deduplicated(m) == d
    decreases d, 1, 0
  {
    CollapseFrom(m, d, 0);
    assert m[0..] == m && d[..0] == [];
  }

  /**
   * Re-adding paths a duplicate-free tree already holds: `unique` after
   * `array_merge_recursive` gives back the tree with its top-level integer keys
   * renumbered, exactly as merging it with nothing would.
   */
  lemma ReaddChangesOnlyNumbering(tree: Entries, paths: Entries)
    requires UniqueDeep(tree) && PathTree(paths) && Absorbs(tree, paths)
    ensures Deduplicated(MergeRecursive(tree, paths)) == MergeRecursive(tree, [])
    ensures Renumbered(MergeRecursive(tree, []), tree)
  {
    var d := MergeInto([], tree);
    MergeIntoEmpty(tree);
    assert MergeRecursive(tree, []) == d;
    assert UniqueDeep(d) by {
      forall i | 0 <= i < |d|
        ensures UniqueDeepEntry(d[i])
      {
        assert UniqueDeepEntry(tree[i]);
      }
    }
    forall i | 0 <= i < |paths|
      ensures AbsorbsEntry(d, paths[i])
    {
      var p := paths[i];
      assert AbsorbsEntry(tree, p);
      if p.0.S? {
        var v := Lookup(tree, p.0).value;
        var t :| 0 <= t < |tree| && tree[t] == (p.0, v);
        OnlyKeyAt(d, t, p.0, v);
      } else {
        var j :| 0 <= j < |tree| && LooseEquals(p.1, tree[j].1);
        assert d[j].1 == tree[j].1;
      }
    }
    CoversItself(d);
    MergeCovers(d, d, paths);
    Collapse(MergeInto(d, paths), d);
  }

  /** With string keys only at the top, as the route, custom, groups and users roots are, re-adding leaves the tree unchanged. */
  lemma ReaddIsNoOp(tree: Entries, paths: Entries)
    requires UniqueDeep(tree) && PathTree(paths) && Absorbs(tree, paths)
    requires forall i | 0 <= i < |tree| :: tree[i].0.S?
    ensures Deduplicated(MergeRecursive(tree, paths)) == tree
  {
    ReaddChangesOnlyNumbering(tree, paths);
    MergeIntoEmptyStringKeys(tree);
  }
}
