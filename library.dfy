/**
 * The library routines the permission code calls on its trees:
 * PHP's `array_merge_recursive` and array union `+=`, and lithium's
 * `Set::flatten` and `Set::expand` with the default `.` separator.
 */
module Library {
  import opened Php

  const Separator: char := '.'

  // ---------------------------------------------------------------------------
  // array_merge_recursive

  /** What an existing value under a shared string key becomes before merging: null and scalars turn into one-element lists. */
  function MergeBase(existing: Val): (r: Entries)
    ensures existing.Arr? ==> r == existing.entries
    ensures !existing.Arr? ==> r == [(I(0), existing)]
  {
    match existing
    case Arr(e) => e
    case _ => [(I(0), existing)]
  }

  /**
   * Merging one entry of the source into the destination: an integer key is
   * appended under the next index; a string key new to the destination is added
   * as it is; a string key already there merges both values into a list, and
   * two arrays merge recursively.
   */
  function MergeEntry(dest: Entries, p: (Key, Val)): Entries
    decreases p
  {
    if p.0.I? then Append(dest, p.1)
    else match Lookup(dest, p.0)
      case None => dest + [p]
      case Some(existing) =>
        var base := MergeBase(existing);
        var merged := if p.1.Arr? then MergeInto(base, p.1.entries) else Append(base, p.1);
        Assign(dest, p.0, Arr(merged))
  }

  /** Merges every entry of `src`, in order, into `dest`. */
  function MergeInto(dest: Entries, src: Entries): Entries
    decreases src, 0
  {
    if src == [] then dest else MergeInto(MergeEntry(dest, src[0]), src[1..])
  }

  /** `array_merge_recursive($a, $b)`: both arrays merged, in order, into a new empty one. */
  function MergeRecursive(a: Entries, b: Entries): Entries
  {
    MergeInto(MergeInto([], a), b)
  }

  // ---------------------------------------------------------------------------
  // Array union `$a += $b`

  /** `$a += $b`: each entry of `b` whose key `a` lacks is appended; the others are ignored. */
  function Union(a: Entries, b: Entries): (r: Entries)
    ensures |r| >= |a| && r[..|a|] == a
    ensures forall i | 0 <= i < |b| :: Lookup(r, b[i].0).Some?
    decreases |b|
  {
    if b == [] then a
    else
      var a' := if Lookup(a, b[0].0).Some? then a else a + [b[0]];
      LookupAppended(a, b[0].0, b[0].1, b[0].0);
      assert Lookup(a', b[0].0).Some?;
      var r := Union(a', b[1..]);
      assert r[..|a'|] == a';
      PrefixLookup(r, |a'|, b[0].0);
      forall i | 1 <= i < |b|
        ensures Lookup(r, b[i].0).Some?
      {
        assert b[i] == b[1..][i - 1];
      }
      r
  }

  lemma {:induction false} PrefixLookup(r: Entries, n: nat, k: Key)
    requires n <= |r| && Lookup(r[..n], k).Some?
    ensures Lookup(r, k) == Lookup(r[..n], k)
  {
    if r[0].0 != k {
      assert r[..n][1..] == r[1..][..n - 1];
      PrefixLookup(r[1..], n - 1, k);
    }
  }

  // ---------------------------------------------------------------------------
  // Set::flatten

  /** `Set::flatten($data)`: one entry per scalar leaf, keyed by the dot-joined keys leading to it. */
  function Flatten(data: Entries): Entries
  {
    FlattenInto([], data, "")
  }

  /** The loop of `Set::flatten` under the dotted prefix `prefix`, adding to `result`. */
  function FlattenInto(result: Entries, data: Entries, prefix: string): Entries
    decreases data, 0
  {
    if data == [] then result else FlattenInto(FlattenEntry(result, data[0], prefix), data[1..], prefix)
  }

  /** A scalar is stored under its full dotted key; a nested array is flattened and added with `+=`. */
  function FlattenEntry(result: Entries, p: (Key, Val), prefix: string): Entries
    decreases p
  {
    if !p.1.Arr? then Assign(result, KeyOf(prefix + KeyString(p.0)), p.1)
    else Union(result, FlattenInto([], p.1.entries, prefix + KeyString(p.0) + [Separator]))
  }

  // ---------------------------------------------------------------------------
  // Set::expand of a single dotted key

  /** The array that holds `v` at the end of the key chain `ks`. */
  function Nest(ks: seq<Key>, v: Val): (r: Entries)
    requires |ks| >= 1
    ensures HasPath(Arr(r), ks) && At(Arr(r), ks) == v
    decreases |ks|
  {
    if |ks| == 1 then [(ks[0], v)] else [(ks[0], Arr(Nest(ks[1..], v)))]
  }

  /** `Set::expand(array($key => $v))`: the dotted key split on `.` into a chain of nested keys. */
  function Expand(key: string, v: Val): Entries
  {
    Nest(KeysOf(Explode(key, Separator)), v)
  }

  /** Flattening a chain of nested keys joins them with dots again. */
  lemma {:induction false} FlattenNest(parts: seq<string>, v: Val, prefix: string)
    requires |parts| >= 1 && !v.Arr?
    ensures FlattenInto([], Nest(KeysOf(parts), v), prefix) == [(KeyOf(prefix + Implode(parts, Separator)), v)]
    decreases |parts|
  {
    var ks := KeysOf(parts);
    KeyStringOfKeyOf(parts[0]);
    if |parts| > 1 {
      assert ks[1..] == KeysOf(parts[1..]);
      var prefix' := prefix + parts[0] + [Separator];
      FlattenNest(parts[1..], v, prefix');
      assert prefix' + Implode(parts[1..], Separator) == prefix + Implode(parts, Separator);
      var inner := [(KeyOf(prefix' + Implode(parts[1..], Separator)), v)];
      assert Union([], inner) == inner;
    }
  }

  /** `Set::flatten` undoes `Set::expand` on a single dotted key with a scalar value. */
  lemma FlattenExpand(key: string, v: Val)
    requires !v.Arr?
    ensures Flatten(Expand(key, v)) == [(KeyOf(key), v)]
  {
    FlattenNest(Explode(key, Separator), v, "");
    ImplodeExplode(key, Separator);
    assert "" + key == key;
  }

  /** `Set::expand` undoes `Set::flatten` on a chain of keys none of which holds a dot. */
  lemma ExpandFlatten(parts: seq<string>, v: Val)
    requires |parts| >= 1 && NoSeparator(parts, Separator) && !v.Arr?
    ensures |Flatten(Nest(KeysOf(parts), v))| == 1
    ensures Expand(KeyString(Flatten(Nest(KeysOf(parts), v))[0].0), v) == Nest(KeysOf(parts), v)
  {
    FlattenNest(parts, v, "");
    assert "" + Implode(parts, Separator) == Implode(parts, Separator);
    KeyStringOfKeyOf(Implode(parts, Separator));
    ExplodeImplode(parts, Separator);
  }
}
