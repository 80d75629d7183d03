/**
 * What `add` keeps: every path of the shape the wrappers build is in the record
 * afterwards. `array_merge_recursive` keeps each path exactly, with every list
 * member under an integer key that later merges never overwrite; `unique` then
 * keeps each list member up to PHP's loose comparison.
 */
module AddFacts {
  import opened Php
  import opened Library
  import opened Dedup
  import opened MergeFacts

  /** As `Absorbs`, but every list member is held exactly, under an integer key. */
  predicate Keeps(tree: Entries, paths: Entries)
    decreases paths
  {
    forall i | 0 <= i < |paths| :: KeepsEntry(tree, paths[i])
  }

  predicate KeepsEntry(tree: Entries, p: (Key, Val))
    decreases p
  {
    if p.0.S? then
      Lookup(tree, p.0).Some? && Lookup(tree, p.0).value.Arr? && p.1.Arr? &&
      Keeps(Lookup(tree, p.0).value.entries, p.1.entries)
    else
      exists j | 0 <= j < |tree| :: tree[j].0.I? && tree[j].1 == p.1
  }

  // ---------------------------------------------------------------------------
  // Merging never loses what a level keeps

  /** Appending an entry keeps every path: lookups find the earlier entries first. */
  lemma KeepsAfterSnoc(e: Entries, y: (Key, Val), q: Entries)
    requires Keeps(e, q)
    ensures Keeps(e + [y], q)
  {
    forall i | 0 <= i < |q|
      ensures KeepsEntry(e + [y], q[i])
    {
      assert KeepsEntry(e, q[i]);
      if q[i].0.S? {
        LookupAppended(e, y.0, y.1, q[i].0);
      } else {
        var j :| 0 <= j < |e| && e[j].0.I? && e[j].1 == q[i].1;
        assert (e + [y])[j] == e[j];
      }
    }
  }

  lemma {:induction false} KeepsAfterMergeEntry(dest: Entries, p: (Key, Val), q: Entries)
    requires Keeps(dest, q)
    ensures Keeps(MergeEntry(dest, p), q)
    decreases p
  {
    if p.0.I? || Lookup(dest, p.0).None? {
      var y := if p.0.I? then (I(NextIndex(dest)), p.1) else p;
      KeepsAfterSnoc(dest, y, q);
    } else {
      var k := p.0;
      var existing := Lookup(dest, k).value;
      var base := MergeBase(existing);
      var merged := if p.1.Arr? then MergeInto(base, p.1.entries) else Append(base, p.1);
      var r := Assign(dest, k, Arr(merged));
      AssignInPlace(dest, k, Arr(merged));
      forall i | 0 <= i < |q|
        ensures KeepsEntry(r, q[i])
      {
        var x := q[i];
        assert KeepsEntry(dest, x);
        LookupAssign(dest, k, Arr(merged), x.0);
        if x.0 == k {
          if p.1.Arr? {
            KeepsAfterMergeInto(base, p.1.entries, x.1.entries);
          } else {
            KeepsAfterSnoc(base, (I(NextIndex(base)), p.1), x.1.entries);
          }
        } else if x.0.I? {
          var j :| 0 <= j < |dest| && dest[j].0.I? && dest[j].1 == x.1;
          assert r[j] == dest[j];
        }
      }
    }
  }

  lemma {:induction false} KeepsAfterMergeInto(dest: Entries, src: Entries, q: Entries)
    requires Keeps(dest, q)
    ensures Keeps(MergeInto(dest, src), q)
    decreases src, 0
  {
    if src != [] {
      KeepsAfterMergeEntry(dest, src[0], q);
      KeepsAfterMergeInto(MergeEntry(dest, src[0]), src[1..], q);
    }
  }

  // ---------------------------------------------------------------------------
  // Merging keeps the merged paths

  lemma {:induction false} KeepsItself(e: Entries)
    requires WellFormed(e) && PathTree(e)
    ensures Keeps(e, e)
    decreases e, 1
  {
    forall i | 0 <= i < |e|
      ensures KeepsEntry(e, e[i])
    {
      assert WellFormedEntry(e[i]) && PathTreeEntry(e[i]);
      if e[i].0.S? {
        OnlyKeyAt(e, i, e[i].0, e[i].1);
        KeepsItselfEntry(e[i]);
      }
    }
  }

  lemma {:induction false} KeepsItselfEntry(p: (Key, Val))
    requires WellFormedEntry(p) && PathTreeEntry(p) && p.0.S?
    ensures Keeps(p.1.entries, p.1.entries)
    decreases p
  {
    KeepsItself(p.1.entries);
  }

  lemma {:induction false} MergeEntryKeepsIt(dest: Entries, p: (Key, Val))
    requires WellFormedEntry(p) && PathTreeEntry(p)
    ensures KeepsEntry(MergeEntry(dest, p), p)
    decreases p
  {
    if p.0.I? {
      assert Append(dest, p.1)[|dest|] == (I(NextIndex(dest)), p.1);
    } else if Lookup(dest, p.0).None? {
      LookupAppended(dest, p.0, p.1, p.0);
      KeepsItself(p.1.entries);
    } else {
      var base := MergeBase(Lookup(dest, p.0).value);
      var merged := MergeInto(base, p.1.entries);
      LookupAssign(dest, p.0, Arr(merged), p.0);
      MergeIntoKeepsAll(base, p.1.entries);
    }
  }

  /** `array_merge_recursive` into any level keeps every merged path, list members under integer keys. */
  lemma {:induction false} MergeIntoKeepsAll(dest: Entries, src: Entries)
    requires WellFormed(src) && PathTree(src)
    ensures Keeps(MergeInto(dest, src), src)
    decreases src, 0
  {
    if src != [] {
      var d1 := MergeEntry(dest, src[0]);
      assert WellFormedEntry(src[0]) && PathTreeEntry(src[0]);
      MergeEntryKeepsIt(dest, src[0]);
      assert Keeps(d1, [src[0]]);
      KeepsAfterMergeInto(d1, src[1..], [src[0]]);
      assert KeepsEntry(MergeInto(d1, src[1..]), [src[0]][0]);
      forall i | 0 <= i < |src[1..]|
        ensures WellFormedEntry(src[1..][i]) && PathTreeEntry(src[1..][i])
      {
        assert src[1..][i] == src[i + 1];
      }
      MergeIntoKeepsAll(d1, src[1..]);
      forall i | 0 <= i < |src|
        ensures KeepsEntry(MergeInto(d1, src[1..]), src[i])
      {
        if i > 0 {
          assert src[i] == src[1..][i - 1];
        }
      }
    }
  }

  // ---------------------------------------------------------------------------
  // `unique` keeps the paths up to loose comparison

  lemma {:induction false} DedupIntoLookupArr(e: Entries, out: Entries, k: Key, sub: Entries)
    requires DistinctKeys(e) && FreshKeys(e, out) && Lookup(e, k) == Some(Arr(sub))
    ensures Lookup(DedupInto(e, out), k) == Some(Arr(Deduplicated(sub)))
    decreases |e|
  {
    FreshAfterStep(e, out);
    var out' := DedupStep(e[0], out);
    if e[0].0 == k {
      assert Lookup(out, k).None?;
      LookupAppended(out, k, Arr(Deduplicated(sub)), k);
      DedupIntoShape(e[1..], out');
      PrefixLookup(DedupInto(e[1..], out'), |out'|, k);
    } else {
      DedupIntoLookupArr(e[1..], out', k, sub);
    }
  }

  /** `unique` keeps a nested array under its key, deduplicated in turn. */
  lemma DedupLookupArr(e: Entries, k: Key, sub: Entries)
    requires DistinctKeys(e) && Lookup(e, k) == Some(Arr(sub))
    ensures Lookup(Deduplicated(e), k) == Some(Arr(Deduplicated(sub)))
  {
    DedupIntoLookupArr(e, [], k, sub);
  }

  lemma {:induction false} DedupAbsorbs(m: Entries, q: Entries)
    requires WellFormed(m) && PathTree(q) && Keeps(m, q)
    ensures Absorbs(Deduplicated(m), q)
    decreases q, 1
  {
    forall i | 0 <= i < |q|
      ensures AbsorbsEntry(Deduplicated(m), q[i])
    {
      assert KeepsEntry(m, q[i]) && PathTreeEntry(q[i]);
      DedupAbsorbsEntry(m, q[i]);
    }
  }

  lemma {:induction false} DedupAbsorbsEntry(m: Entries, x: (Key, Val))
    requires WellFormed(m) && PathTreeEntry(x) && KeepsEntry(m, x)
    ensures AbsorbsEntry(Deduplicated(m), x)
    decreases x
  {
    if x.0.S? {
      var sub := Lookup(m, x.0).value.entries;
      var t :| 0 <= t < |m| && m[t] == (x.0, Arr(sub));
      assert WellFormedEntry(m[t]);
      DedupLookupArr(m, x.0, sub);
      DedupAbsorbs(sub, x.1.entries);
    } else {
      var j :| 0 <= j < |m| && m[j].0.I? && m[j].1 == x.1;
      UniqueCovers(m);
      assert m[j].1.Arr? || InArray(m[j].1, Arr(Deduplicated(m)));
    }
  }

  // ---------------------------------------------------------------------------
  // What `add` stores

  /**
   * `add` on an existing record: every added path of the wrappers' shape is in
   * the saved tree, each list member up to loose comparison (a `""` that meets a
   * stored null is dropped by `unique`).
   */
  lemma AddKeepsPaths(tree: Entries, paths: Entries)
    requires WellFormed(tree) && WellFormed(paths) && PathTree(paths)
    ensures Absorbs(Deduplicated(MergeRecursive(tree, paths)), paths)
  {
    MergeIntoKeepsAll(MergeInto([], tree), paths);
    MergeWellFormed([], tree);
    MergeWellFormed(MergeInto([], tree), paths);
    DedupAbsorbs(MergeRecursive(tree, paths), paths);
  }

  /** `add` on a new record stores the paths as given, which hold themselves. */
  lemma PathsAbsorbThemselves(paths: Entries)
    requires WellFormed(paths) && PathTree(paths)
    ensures Absorbs(paths, paths)
  {
    KeepsItself(paths);
    KeepsAbsorbs(paths, paths);
  }

  /**
   * `add` on an existing record keeps what the record held: every stored path of
   * the merged shape is in the saved tree, each list member up to loose comparison.
   * The paths stay in the tree; whether they still grant is another matter, since
   * a list member added beside a key ends the matcher's walk there.
   */
  lemma AddKeepsOld(tree: Entries, paths: Entries)
    requires WellFormed(tree) && PathTree(tree) && WellFormed(paths)
    ensures Absorbs(Deduplicated(MergeRecursive(tree, paths)), tree)
  {
    MergeIntoKeepsAll([], tree);
    KeepsAfterMergeInto(MergeInto([], tree), paths, tree);
    MergeWellFormed([], tree);
    MergeWellFormed(MergeInto([], tree), paths);
    DedupAbsorbs(MergeRecursive(tree, paths), tree);
  }

  lemma {:induction false} KeepsAbsorbs(tree: Entries, q: Entries)
    requires Keeps(tree, q)
    ensures Absorbs(tree, q)
    decreases q, 1
  {
    forall i | 0 <= i < |q|
      ensures AbsorbsEntry(tree, q[i])
    {
      assert KeepsEntry(tree, q[i]);
      KeepsAbsorbsEntry(tree, q[i]);
    }
  }

  lemma {:induction false} KeepsAbsorbsEntry(tree: Entries, x: (Key, Val))
    requires KeepsEntry(tree, x)
    ensures AbsorbsEntry(tree, x)
    decreases x
  {
    if x.0.S? {
      KeepsAbsorbs(Lookup(tree, x.0).value.entries, x.1.entries);
    } else {
      var j :| 0 <= j < |tree| && tree[j].0.I? && tree[j].1 == x.1;
      assert LooseEquals(x.1, tree[j].1) by {
        match x.1
        case Null =>
        case Str(_) =>
        case Arr(_) =>
      }
    }
  }

  // ---------------------------------------------------------------------------
  // Merging a nested path brings in no new list member

  /** Merging a string key that leads to an array adds or replaces only an array entry. */
  lemma MergeEntryAddsNoScalar(dest: Entries, p: (Key, Val), s: string)
    requires p.0.S? && p.1.Arr?
    ensures InArray(Str(s), Arr(MergeEntry(dest, p))) ==> InArray(Str(s), Arr(dest))
  {
    var r := MergeEntry(dest, p);
    if InArray(Str(s), Arr(r)) {
      var i :| 0 <= i < |r| && LooseEquals(Str(s), r[i].1);
      if Lookup(dest, p.0).None? {
        assert i < |dest| && r[i] == dest[i];
      } else {
        var merged := MergeInto(MergeBase(Lookup(dest, p.0).value), p.1.entries);
        AssignInPlace(dest, p.0, Arr(merged));
        assert r[i] == dest[i];
      }
    }
  }

  /** Renumbering keeps the values, and the entries under string keys. */
  lemma RenumberedKeeps(d: Entries, u: Entries, s: string, k: string)
    requires Renumbered(d, u)
    ensures InArray(Str(s), Arr(d)) ==> InArray(Str(s), Arr(u))
    ensures Lookup(u, S(k)).Some? ==> Lookup(d, S(k)) == Lookup(u, S(k))
  {
    if InArray(Str(s), Arr(d)) {
      var i :| 0 <= i < |d| && LooseEquals(Str(s), d[i].1);
      assert d[i].1 == u[i].1;
    }
    if Lookup(u, S(k)).Some? {
      var i :| 0 <= i < |u| && u[i] == (S(k), Lookup(u, S(k)).value);
      OnlyKeyAt(d, i, S(k), d[i].1);
    }
  }

  /**
   * Merging a string key into the nested array it already holds, then `unique`:
   * the key leads to the merged level deduplicated, and the level itself gains
   * no list member.
   */
  lemma DedupMergeNested(d: Entries, p: (Key, Val), r: Entries)
    requires p.0.S? && p.1.Arr? && Lookup(d, p.0) == Some(Arr(r)) && DistinctKeys(MergeEntry(d, p))
    ensures Lookup(Deduplicated(MergeEntry(d, p)), p.0) == Some(Arr(Deduplicated(MergeInto(r, p.1.entries))))
    ensures forall s: string :: InArray(Str(s), Arr(Deduplicated(MergeEntry(d, p)))) ==> InArray(Str(s), Arr(d))
  {
    var rm := MergeInto(r, p.1.entries);
    assert MergeEntry(d, p) == Assign(d, p.0, Arr(rm));
    LookupAssign(d, p.0, Arr(rm), p.0);
    DedupLookupArr(MergeEntry(d, p), p.0, rm);
    forall s: string
      ensures InArray(Str(s), Arr(Deduplicated(MergeEntry(d, p)))) ==> InArray(Str(s), Arr(d))
    {
      UniqueAddsNoScalar(MergeEntry(d, p), s);
      MergeEntryAddsNoScalar(d, p, s);
    }
  }

  // ---------------------------------------------------------------------------
  // String keys at the top stay string keys

  predicate StringKeys(e: Entries)
  {
    forall i | 0 <= i < |e| :: e[i].0.S?
  }

  lemma {:induction false} MergeEntryStringKeys(dest: Entries, p: (Key, Val))
    requires StringKeys(dest) && p.0.S?
    ensures StringKeys(MergeEntry(dest, p))
  {
    if Lookup(dest, p.0).Some? {
      var base := MergeBase(Lookup(dest, p.0).value);
      var merged := if p.1.Arr? then MergeInto(base, p.1.entries) else Append(base, p.1);
      AssignInPlace(dest, p.0, Arr(merged));
    }
  }

  /** Merging string keys into a level with string keys only adds or merges string keys. */
  lemma {:induction false} MergeStringKeys(dest: Entries, src: Entries)
    requires StringKeys(dest) && StringKeys(src)
    ensures StringKeys(MergeInto(dest, src))
    decreases |src|
  {
    if src != [] {
      MergeEntryStringKeys(dest, src[0]);
      assert StringKeys(src[1..]) by {
        forall i | 0 <= i < |src[1..]|
          ensures src[1..][i].0.S?
        {
          assert src[1..][i] == src[i + 1];
        }
      }
      MergeStringKeys(MergeEntry(dest, src[0]), src[1..]);
    }
  }

  /** `add` into a record keyed by strings at the top, with paths keyed so too, keeps it so. */
  lemma AddKeepsStringKeys(tree: Entries, paths: Entries)
    requires WellFormed(tree) && WellFormed(paths) && StringKeys(tree) && StringKeys(paths)
    ensures StringKeys(Deduplicated(MergeRecursive(tree, paths)))
  {
    MergeIntoEmptyStringKeys(tree);
    MergeStringKeys(tree, paths);
    MergeWellFormed(tree, paths);
    var m := MergeRecursive(tree, paths);
    var r := Deduplicated(m);
    UniqueThins(m);
    forall i | 0 <= i < |r|
      ensures r[i].0.S?
    {
      ThinsFrom(r, m, i);
    }
  }
}
