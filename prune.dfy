/**
 * `_cleanPaths`: prunes a permission tree bottom-up. Every nested array is
 * cleaned first, then `array_filter` drops each falsy entry (null, "", "0"
 * and the empty array), so a branch emptied by a removal disappears too.
 */
module Prune {
  import opened Php

  /** What `_cleanPaths($e)` returns. */
  function Pruned(e: Entries): Entries
    decreases e, 1
  {
    FilterTruthy(PruneChildren(e))
  }

  /** The array after the by-reference loop of `_cleanPaths` has cleaned each nested array in place. */
  function PruneChildren(e: Entries): (r: Entries)
    ensures |r| == |e|
    decreases e, 0
  {
    seq(|e|, i requires 0 <= i < |e| => PruneEntry(e[i]))
  }

  function PruneEntry(p: (Key, Val)): (Key, Val)
    decreases p
  {
    if p.1.Arr? then (p.0, Arr(Pruned(p.1.entries))) else p
  }

  /** `_cleanPaths`: the loop rewrites each nested array through the reference `$path`, then filters. */
  method CleanPaths(paths: Entries) returns (r: Entries)
    ensures r == Pruned(paths)
    decreases paths, 1
  {
    var cleaned := paths;
    for i := 0 to |paths|
      invariant |cleaned| == |paths|
      invariant forall j | 0 <= j < |paths| :: cleaned[j] == if j < i then PruneEntry(paths[j]) else paths[j]
    {
      var path := CleanEntry(cleaned[i]);
      cleaned := cleaned[i := path];
    }
    assert cleaned == PruneChildren(paths);
    r := FilterTruthy(cleaned);
  }

  /** The body of that loop for one `&$path`: a nested array is replaced by its cleaned copy. */
  method CleanEntry(p: (Key, Val)) returns (q: (Key, Val))
    ensures q == PruneEntry(p)
    decreases p
  {
    q := p;
    if p.1.Arr? {
      var nested := CleanPaths(p.1.entries);
      q := (p.0, Arr(nested));
    }
  }

  // ---------------------------------------------------------------------------
  // What the result looks like

  /** No falsy entry at any level. */
  predicate Tidy(e: Entries)
    decreases e
  {
    forall i | 0 <= i < |e| :: !Falsy(e[i].1) && TidyEntry(e[i])
  }

  predicate TidyEntry(p: (Key, Val))
    decreases p
  {
    p.1.Arr? ==> Tidy(p.1.entries)
  }

  /** After `_cleanPaths` no falsy entry survives at any level, so no emptied branch is left. */
  lemma {:induction false} PrunedIsTidy(e: Entries)
    ensures Tidy(Pruned(e))
    decreases e, 1
  {
    var r := Pruned(e);
    forall i | 0 <= i < |r|
      ensures !Falsy(r[i].1) && TidyEntry(r[i])
    {
      var j :| 0 <= j < |e| && PruneChildren(e)[j] == r[i];
      PruneEntryIsTidy(e[j]);
    }
  }

  lemma {:induction false} PruneEntryIsTidy(p: (Key, Val))
    ensures TidyEntry(PruneEntry(p))
    decreases p
  {
    if p.1.Arr? {
      PrunedIsTidy(p.1.entries);
    }
  }

  /** A tree with no falsy entry anywhere is left exactly as it is. */
  lemma {:induction false} TidyFixpoint(e: Entries)
    requires Tidy(e)
    ensures Pruned(e) == e
    decreases e, 1
  {
    forall i | 0 <= i < |e|
      ensures PruneChildren(e)[i] == e[i]
    {
      TidyEntryFixpoint(e[i]);
    }
    assert PruneChildren(e) == e;
  }

  lemma {:induction false} TidyEntryFixpoint(p: (Key, Val))
    requires TidyEntry(p)
    ensures PruneEntry(p) == p
    decreases p
  {
    if p.1.Arr? {
      TidyFixpoint(p.1.entries);
    }
  }

  /** `_cleanPaths` is idempotent. */
  lemma CleanPathsIdempotent(e: Entries)
    ensures Pruned(Pruned(e)) == Pruned(e)
  {
    PrunedIsTidy(e);
    TidyFixpoint(Pruned(e));
  }

  /** The scalar entries of an array, with their keys, in order. */
  function Scalars(e: Entries): (r: Entries)
    ensures forall i | 0 <= i < |r| :: !r[i].1.Arr?
  {
    if e == [] then [] else if e[0].1.Arr? then Scalars(e[1..]) else [e[0]] + Scalars(e[1..])
  }

  lemma {:induction false} ScalarsOfFilter(e: Entries)
    ensures Scalars(FilterTruthy(e)) == FilterTruthy(Scalars(e))
  {
    if e != [] {
      ScalarsOfFilter(e[1..]);
    }
  }

  lemma {:induction false} ScalarsOfPruneChildren(e: Entries)
    ensures Scalars(PruneChildren(e)) == Scalars(e)
  {
    if e != [] {
      assert PruneChildren(e) == [PruneEntry(e[0])] + PruneChildren(e[1..]);
      ScalarsOfPruneChildren(e[1..]);
    }
  }

  /** At the top level `_cleanPaths` keeps exactly the truthy scalars, with their keys and in their order; `PrunedPrunes` states every level. */
  lemma PrunedScalars(e: Entries)
    ensures Scalars(Pruned(e)) == FilterTruthy(Scalars(e))
  {
    ScalarsOfFilter(PruneChildren(e));
    ScalarsOfPruneChildren(e);
  }

  // ---------------------------------------------------------------------------
  // Entry by entry, at every level

  /**
   * `r` is `e` pruned entry by entry, keys and order kept: a scalar stays exactly
   * when it is truthy; a nested array is replaced by its pruned copy, which stays
   * exactly when it is not empty.
   */
  predicate Prunes(r: Entries, e: Entries)
    decreases |e|
  {
    if e == [] then r == []
    else if e[0].1.Arr? && Pruned(e[0].1.entries) == [] then Prunes(r, e[1..])
    else if e[0].1.Arr? then
      r != [] && r[0] == (e[0].0, Arr(Pruned(e[0].1.entries))) && Prunes(r[1..], e[1..])
    else if Falsy(e[0].1) then Prunes(r, e[1..])
    else r != [] && r[0] == e[0] && Prunes(r[1..], e[1..])
  }

  /** `_cleanPaths` prunes entry by entry: truthy scalars and non-empty cleaned branches survive in place. */
  lemma {:induction false} PrunedPrunes(e: Entries)
    ensures Prunes(Pruned(e), e)
    decreases |e|
  {
    if e != [] {
      var c := PruneChildren(e);
      assert c == [PruneEntry(e[0])] + PruneChildren(e[1..]);
      assert c[1..] == PruneChildren(e[1..]);
      assert Pruned(e) == if Falsy(c[0].1) then Pruned(e[1..]) else [c[0]] + Pruned(e[1..]);
      PrunedPrunes(e[1..]);
    }
  }

  /** What a value becomes under `_cleanPaths`: nothing when falsy or pruned to empty. */
  function PrunedValue(v: Val): Option<Val>
  {
    if v.Arr? then (if Pruned(v.entries) == [] then None else Some(Arr(Pruned(v.entries))))
    else if Falsy(v) then None
    else Some(v)
  }

  lemma {:induction false} PrunesLookup(r: Entries, e: Entries, k: Key)
    requires Prunes(r, e) && DistinctKeys(e)
    ensures Lookup(r, k) == if Lookup(e, k).None? then None else PrunedValue(Lookup(e, k).value)
    decreases |e|
  {
    if e != [] {
      assert DistinctKeys(e[1..]) by {
        forall a, b | 0 <= a < b < |e[1..]|
          ensures e[1..][a].0 != e[1..][b].0
        {
          assert e[1..][a] == e[a + 1] && e[1..][b] == e[b + 1];
        }
      }
      if e[0].0 == k {
        assert forall j | 0 <= j < |e[1..]| :: e[1..][j].0 != k by {
          forall j | 0 <= j < |e[1..]|
            ensures e[1..][j].0 != k
          {
            assert e[1..][j] == e[j + 1];
          }
        }
      }
      if PrunedValue(e[0].1).None? {
        PrunesLookup(r, e[1..], k);
      } else {
        PrunesLookup(r[1..], e[1..], k);
      }
    }
  }

  /**
   * Under distinct keys, `_cleanPaths` keeps every key whose entry is truthy or
   * prunes to a non-empty branch, with that pruned value, and drops the others:
   * branches a removal did not empty stay where they were.
   */
  lemma PrunedLookup(e: Entries, k: Key)
    requires DistinctKeys(e)
    ensures Lookup(Pruned(e), k) == if Lookup(e, k).None? then None else PrunedValue(Lookup(e, k).value)
  {
    PrunedPrunes(e);
    PrunesLookup(Pruned(e), e, k);
  }
}
