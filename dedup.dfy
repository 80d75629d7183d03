/**
 * `unique`: removes repeated scalars level by level. A scalar is copied to the
 * output under its own key unless it already loosely equals a value there;
 * a nested entries is always copied, deduplicated in turn, under its key.
 */
module Dedup {
  import opened Php

  /** What `unique($e)` returns. */
  function Deduplicated(e: Entries): Entries
    decreases e, 1
  {
    DedupInto(e, [])
  }

  /** The loop of `unique` over the entries `e` still to visit, with `out` built so far. */
  function DedupInto(e: Entries, out: Entries): Entries
    decreases e, 0
  {
    if e == [] then out else DedupInto(e[1..], DedupStep(e[0], out))
  }

  /** One iteration of that loop. */
  function DedupStep(p: (Key, Val), out: Entries): Entries
    decreases p
  {
    if p.1.Arr? then Assign(out, p.0, Arr(Deduplicated(p.1.entries)))
    else if InArray(p.1, Arr(out)) then out
    else Assign(out, p.0, p.1)
  }

  /** `unique`: the loop builds `$output` entry by entry and recurses into nested arrays. */
  method Unique(entries: Entries) returns (output: Entries)
    ensures output == Deduplicated(entries)
    decreases entries
  {
    output := [];
    for i := 0 to |entries|
      invariant DedupInto(entries[i..], output) == Deduplicated(entries)
    {
      assert entries[i..][1..] == entries[i + 1..];
      var inner := UniqueElement(entries[i], output);
      output := inner;
    }
    assert entries[|entries|..] == [];
  }

  /** The body of the loop of `unique` for one `$key => $element`. */
  method UniqueElement(entry: (Key, Val), output: Entries) returns (r: Entries)
    ensures r == DedupStep(entry, output)
    decreases entry
  {
    var (key, element) := entry;
    if element.Arr? {
      var nested := Unique(element.entries);
      r := Assign(output, key, Arr(nested));
    } else if !InArray(element, Arr(output)) {
      r := Assign(output, key, element);
    } else {
      r := output;
    }
  }

  // ---------------------------------------------------------------------------
  // What the result looks like

  /**
   * `r` is `e` thinned: every nested entries is kept, deduplicated, under its key;
   * each scalar is either kept as it is or dropped; the order is that of `e`.
   */
  predicate Thins(r: Entries, e: Entries)
    decreases |e|
  {
    if e == [] then r == []
    else if e[0].1.Arr? then
      r != [] && r[0] == (e[0].0, Arr(Deduplicated(e[0].1.entries))) && Thins(r[1..], e[1..])
    else
      (r != [] && r[0] == e[0] && Thins(r[1..], e[1..])) || Thins(r, e[1..])
  }

  /** No scalar loosely equals a value that comes before it. */
  predicate NoRepeats(e: Entries)
  {
    forall i, j | 0 <= i < j < |e| :: e[j].1.Arr? || !LooseEquals(e[j].1, e[i].1)
  }

  /** A fixpoint of `unique`: distinct keys and no repeated scalar, at every level. */
  predicate UniqueDeep(e: Entries)
    decreases e
  {
    DistinctKeys(e) && NoRepeats(e) && forall i | 0 <= i < |e| :: UniqueDeepEntry(e[i])
  }

  predicate UniqueDeepEntry(p: (Key, Val))
    decreases p
  {
    p.1.Arr? ==> UniqueDeep(p.1.entries)
  }

  /** No key still to visit is already in the output. */
  predicate FreshKeys(e: Entries, out: Entries)
  {
    forall i | 0 <= i < |e| :: Lookup(out, e[i].0).None?
  }

  lemma FreshAfterStep(e: Entries, out: Entries)
    requires e != [] && DistinctKeys(e) && FreshKeys(e, out)
    ensures DistinctKeys(e[1..])
    ensures FreshKeys(e[1..], DedupStep(e[0], out))
    ensures DedupStep(e[0], out) ==
      if e[0].1.Arr? then out + [(e[0].0, Arr(Deduplicated(e[0].1.entries)))]
      else if InArray(e[0].1, Arr(out)) then out
      else out + [e[0]]
  {
    var p := e[0];
    var v := if p.1.Arr? then Arr(Deduplicated(p.1.entries)) else p.1;
    AssignFresh(out, p.0, v);
    forall i | 0 <= i < |e[1..]|
      ensures Lookup(DedupStep(e[0], out), e[1..][i].0).None?
    {
      LookupAppended(out, p.0, v, e[1..][i].0);
      assert e[1..][i] == e[i + 1];
    }
  }

  /** The loop only ever appends; what it appends thins the entries it visited. */
  lemma {:induction false} DedupIntoShape(e: Entries, out: Entries)
    requires DistinctKeys(e) && FreshKeys(e, out)
    ensures |out| <= |DedupInto(e, out)| && DedupInto(e, out)[..|out|] == out
    ensures Thins(DedupInto(e, out)[|out|..], e)
    decreases |e|
  {
    if e != [] {
      var out' := DedupStep(e[0], out);
      FreshAfterStep(e, out);
      DedupIntoShape(e[1..], out');
      var r := DedupInto(e, out);
      assert r == DedupInto(e[1..], out');
      if e[0].1.Arr? || !InArray(e[0].1, Arr(out)) {
        assert r[..|out'|] == out';
        assert r[|out|..][0] == out'[|out|];
        assert r[|out|..][1..] == r[|out'|..];
      }
    }
  }

  /** `unique` keeps nested arrays and the order of entries, and only drops scalars. */
  lemma UniqueThins(e: Entries)
    requires DistinctKeys(e)
    ensures Thins(Deduplicated(e), e)
  {
    DedupIntoShape(e, []);
  }

  lemma AppendKeepsNoRepeats(out: Entries, p: (Key, Val))
    requires NoRepeats(out) && (!p.1.Arr? ==> !InArray(p.1, Arr(out)))
    ensures NoRepeats(out + [p])
  {
    var out' := out + [p];
    forall i, j | 0 <= i < j < |out'|
      ensures out'[j].1.Arr? || !LooseEquals(out'[j].1, out'[i].1)
    {
      if j == |out| {
        assert out'[j] == p && out'[i] == out[i];
      }
    }
  }

  lemma {:induction false} DedupIntoNoRepeats(e: Entries, out: Entries)
    requires DistinctKeys(e) && FreshKeys(e, out) && NoRepeats(out)
    ensures NoRepeats(DedupInto(e, out))
    decreases |e|
  {
    if e != [] {
      FreshAfterStep(e, out);
      var out' := DedupStep(e[0], out);
      if e[0].1.Arr? {
        AppendKeepsNoRepeats(out, (e[0].0, Arr(Deduplicated(e[0].1.entries))));
      } else if !InArray(e[0].1, Arr(out)) {
        AppendKeepsNoRepeats(out, e[0]);
      }
      DedupIntoNoRepeats(e[1..], out');
    }
  }

  /** After `unique`, no scalar at the top level repeats a value kept before it. */
  lemma UniqueNoRepeats(e: Entries)
    requires DistinctKeys(e)
    ensures NoRepeats(Deduplicated(e))
  {
    DedupIntoNoRepeats(e, []);
  }

  lemma {:induction false} DedupIntoCovers(e: Entries, out: Entries)
    requires DistinctKeys(e) && FreshKeys(e, out)
    ensures forall j | 0 <= j < |e| :: e[j].1.Arr? || InArray(e[j].1, Arr(DedupInto(e, out)))
    decreases |e|
  {
    if e != [] {
      FreshAfterStep(e, out);
      var out' := DedupStep(e[0], out);
      DedupIntoCovers(e[1..], out');
      DedupIntoShape(e[1..], out');
      var r := DedupInto(e, out);
      assert r[..|out'|] == out';
      if !e[0].1.Arr? {
        if InArray(e[0].1, Arr(out)) {
          var i :| 0 <= i < |out| && LooseEquals(e[0].1, out[i].1);
          assert r[i] == out[i];
        } else {
          assert r[|out|] == out'[|out|] == e[0];
        }
      }
      forall j | 1 <= j < |e|
        ensures e[j].1.Arr? || InArray(e[j].1, Arr(r))
      {
        assert e[j] == e[1..][j - 1];
      }
    }
  }

  /** `unique` drops a scalar only when an equal value is kept. */
  lemma UniqueCovers(e: Entries)
    requires DistinctKeys(e)
    ensures forall j | 0 <= j < |e| :: e[j].1.Arr? || InArray(e[j].1, Arr(Deduplicated(e)))
  {
    DedupIntoCovers(e, []);
  }

  /** Each entry of a thinned array comes from the entry of `e` under the same key: unchanged, or both nested arrays. */
  lemma {:induction false} ThinsFrom(r: Entries, e: Entries, i: nat)
    requires Thins(r, e) && i < |r|
    ensures exists m | 0 <= m < |e| :: r[i].0 == e[m].0 && (r[i] == e[m] || (e[m].1.Arr? && r[i].1.Arr?))
    decreases |e|
  {
    if e[0].1.Arr? || (r != [] && r[0] == e[0] && Thins(r[1..], e[1..])) {
      if i > 0 {
        ThinsFrom(r[1..], e[1..], i - 1);
        var m :| 0 <= m < |e[1..]| && r[1..][i - 1].0 == e[1..][m].0 && (r[1..][i - 1] == e[1..][m] || (e[1..][m].1.Arr? && r[1..][i - 1].1.Arr?));
        assert e[1..][m] == e[m + 1];
      }
    } else {
      ThinsFrom(r, e[1..], i);
      var m :| 0 <= m < |e[1..]| && r[i].0 == e[1..][m].0 && (r[i] == e[1..][m] || (e[1..][m].1.Arr? && r[i].1.Arr?));
      assert e[1..][m] == e[m + 1];
    }
  }

  /** `unique` brings in no new scalar: a string it keeps was among the values. */
  lemma UniqueAddsNoScalar(e: Entries, s: string)
    requires DistinctKeys(e)
    ensures InArray(Str(s), Arr(Deduplicated(e))) ==> InArray(Str(s), Arr(e))
  {
    var r := Deduplicated(e);
    if InArray(Str(s), Arr(r)) {
      UniqueThins(e);
      var i :| 0 <= i < |r| && LooseEquals(Str(s), r[i].1);
      ThinsFrom(r, e, i);
      assert !r[i].1.Arr?;
      var m :| 0 <= m < |e| && r[i] == e[m];
      assert LooseEquals(Str(s), e[m].1);
    }
  }

  /** The loop can be split anywhere: the output for a prefix is the state the rest starts from. */
  lemma {:induction false} DedupIntoSplit(e: Entries, out: Entries, j: nat)
    requires j <= |e|
    ensures DedupInto(e, out) == DedupInto(e[j..], DedupInto(e[..j], out))
    decreases j
  {
    if j == 0 {
      assert e[..0] == [] && e[0..] == e;
    } else {
      DedupIntoSplit(e[1..], DedupStep(e[0], out), j - 1);
      assert e[1..][j - 1..] == e[j..];
      assert e[..j][0] == e[0] && e[..j][1..] == e[1..][..j - 1];
    }
  }

  /** Visiting entries whose keys are not among those of `e2` keeps `e2`'s keys out of the output. */
  lemma {:induction false} FreshKeysAfter(e1: Entries, e2: Entries, out: Entries)
    requires FreshKeys(e2, out)
    requires forall a, b | 0 <= a < |e1| && 0 <= b < |e2| :: e1[a].0 != e2[b].0
    ensures FreshKeys(e2, DedupInto(e1, out))
    decreases |e1|
  {
    if e1 != [] {
      var v := if e1[0].1.Arr? then Arr(Deduplicated(e1[0].1.entries)) else e1[0].1;
      forall b | 0 <= b < |e2|
        ensures Lookup(DedupStep(e1[0], out), e2[b].0).None?
      {
        LookupAssign(out, e1[0].0, v, e2[b].0);
      }
      forall a, b | 0 <= a < |e1[1..]| && 0 <= b < |e2|
        ensures e1[1..][a].0 != e2[b].0
      {
        assert e1[1..][a] == e1[a + 1];
      }
      FreshKeysAfter(e1[1..], e2, DedupStep(e1[0], out));
    }
  }

  /** The loop at index `j`: the output so far lacks `e[j]`'s key, and the rest thins `e[j + 1..]`. */
  lemma DedupAt(e: Entries, j: nat)
    requires DistinctKeys(e) && j < |e|
    ensures var out0 := Deduplicated(e[..j]);
      var step := DedupStep(e[j], out0);
      var r := Deduplicated(e);
      Lookup(out0, e[j].0).None? && |step| <= |r| && r[..|step|] == step &&
      Thins(r[|step|..], e[j + 1..]) &&
      step == if e[j].1.Arr? then out0 + [(e[j].0, Arr(Deduplicated(e[j].1.entries)))]
        else if InArray(e[j].1, Arr(out0)) then out0
        else out0 + [e[j]]
  {
    var out0 := Deduplicated(e[..j]);
    var rest := e[j..];
    DedupIntoSplit(e, [], j);
    forall a, b | 0 <= a < |e[..j]| && 0 <= b < |rest|
      ensures e[..j][a].0 != rest[b].0
    {
      assert e[..j][a] == e[a] && rest[b] == e[j + b];
    }
    FreshKeysAfter(e[..j], rest, []);
    forall a, b | 0 <= a < b < |rest|
      ensures rest[a].0 != rest[b].0
    {
      assert rest[a] == e[j + a] && rest[b] == e[j + b];
    }
    assert rest[0] == e[j] && rest[1..] == e[j + 1..];
    FreshAfterStep(rest, out0);
    DedupIntoShape(rest[1..], DedupStep(e[j], out0));
  }

  /** A thinned list holds no key its source lacks. */
  lemma ThinsAvoidsKey(t: Entries, tail: Entries, k: Key)
    requires Thins(t, tail) && forall m | 0 <= m < |tail| :: tail[m].0 != k
    ensures forall i | 0 <= i < |t| :: t[i].0 != k
  {
    forall i | 0 <= i < |t|
      ensures t[i].0 != k
    {
      ThinsFrom(t, tail, i);
    }
  }

  /**
   * `unique` keeps the first of loosely equal scalars: the scalar at index `j`
   * survives exactly when no value kept from the entries before it loosely equals it.
   */
  lemma UniqueKeepsFirst(e: Entries, j: nat)
    requires DistinctKeys(e) && j < |e| && !e[j].1.Arr?
    ensures e[j] in Deduplicated(e) <==> !InArray(e[j].1, Arr(Deduplicated(e[..j])))
  {
    var out0 := Deduplicated(e[..j]);
    var step := DedupStep(e[j], out0);
    var r := Deduplicated(e);
    DedupAt(e, j);
    if InArray(e[j].1, Arr(out0)) {
      var tail := e[j + 1..];
      forall m | 0 <= m < |tail|
        ensures tail[m].0 != e[j].0
      {
        assert tail[m] == e[j + 1 + m];
      }
      ThinsAvoidsKey(r[|step|..], tail, e[j].0);
      forall i | 0 <= i < |r|
        ensures r[i].0 != e[j].0
      {
        if i < |out0| {
          assert r[i] == out0[i];
        } else {
          assert r[i] == r[|step|..][i - |step|];
        }
      }
    } else {
      assert r[|out0|] == step[|out0|] == e[j];
    }
  }

  // ---------------------------------------------------------------------------
  // Fixpoints and idempotence

  lemma {:induction false} DedupIntoFixpoint(e: Entries, i: nat)
    requires UniqueDeep(e) && i <= |e|
    ensures DedupInto(e[i..], e[..i]) == e
    decreases e, |e| - i
  {
    if i < |e| {
      assert e[i..][0] == e[i] && e[i..][1..] == e[i + 1..];
      assert Lookup(e[..i], e[i].0).None?;
      DedupStepFixpoint(e[i], e[..i]);
      assert e[..i] + [e[i]] == e[..i + 1];
      DedupIntoFixpoint(e, i + 1);
    } else {
      assert e[..i] == e;
    }
  }

  lemma {:induction false} DedupStepFixpoint(p: (Key, Val), out: Entries)
    requires UniqueDeepEntry(p) && Lookup(out, p.0).None?
    requires !p.1.Arr? ==> !InArray(p.1, Arr(out))
    ensures DedupStep(p, out) == out + [p]
    decreases p
  {
    if p.1.Arr? {
      UniqueFixpoint(p.1.entries);
      AssignFresh(out, p.0, Arr(Deduplicated(p.1.entries)));
    } else {
      AssignFresh(out, p.0, p.1);
    }
  }

  /** A tree that is already duplicate-free at every level is left exactly as it is. */
  lemma {:induction false} UniqueFixpoint(e: Entries)
    requires UniqueDeep(e)
    ensures Deduplicated(e) == e
    decreases e, |e| + 1
  {
    DedupIntoFixpoint(e, 0);
    assert e[0..] == e && e[..0] == [];
  }

  lemma AppendKeepsUniqueDeep(out: Entries, p: (Key, Val))
    requires UniqueDeep(out) && UniqueDeepEntry(p) && Lookup(out, p.0).None?
    requires !p.1.Arr? ==> !InArray(p.1, Arr(out))
    ensures UniqueDeep(out + [p])
  {
    AppendKeepsNoRepeats(out, p);
    var out' := out + [p];
    forall i | 0 <= i < |out'|
      ensures UniqueDeepEntry(out'[i])
    {
      if i < |out| {
        assert out'[i] == out[i];
      }
    }
  }

  lemma {:induction false} DedupIntoUniqueDeep(e: Entries, out: Entries)
    requires WellFormed(e) && FreshKeys(e, out) && UniqueDeep(out)
    ensures UniqueDeep(DedupInto(e, out))
    decreases e, 0
  {
    if e != [] {
      FreshAfterStep(e, out);
      assert WellFormedEntry(e[0]);
      if e[0].1.Arr? {
        NestedUniqueDeep(e[0]);
        AppendKeepsUniqueDeep(out, (e[0].0, Arr(Deduplicated(e[0].1.entries))));
      } else if !InArray(e[0].1, Arr(out)) {
        AppendKeepsUniqueDeep(out, e[0]);
      }
      forall i | 0 <= i < |e[1..]|
        ensures WellFormedEntry(e[1..][i])
      {
        assert e[1..][i] == e[i + 1];
      }
      DedupIntoUniqueDeep(e[1..], DedupStep(e[0], out));
    }
  }

  lemma {:induction false} NestedUniqueDeep(p: (Key, Val))
    requires WellFormedEntry(p) && p.1.Arr?
    ensures UniqueDeep(Deduplicated(p.1.entries))
    decreases p
  {
    UniqueIsUniqueDeep(p.1.entries);
  }

  /** On a well-formed array, `unique` yields a fixpoint of itself. */
  lemma {:induction false} UniqueIsUniqueDeep(e: Entries)
    requires WellFormed(e)
    ensures UniqueDeep(Deduplicated(e))
    decreases e, 1
  {
    DedupIntoUniqueDeep(e, []);
  }

  /** `unique` is idempotent. */
  lemma UniqueIdempotent(e: Entries)
    requires WellFormed(e)
    ensures Deduplicated(Deduplicated(e)) == Deduplicated(e)
  {
    UniqueIsUniqueDeep(e);
    UniqueFixpoint(Deduplicated(e));
  }
}
