/**
 * The slice of PHP's runtime that the permission engine relies on: values
 * (null, strings and ordered arrays), array keys with PHP's integer-string
 * normalisation, loose comparison (`==`, `in_array`, `array_search`),
 * truthiness, and reads and writes through a chain of keys.
 */
module Php {

  datatype Option<T> = None | Some(value: T)

  /** An array key: PHP stores a string that spells a canonical decimal integer as that integer. */
  datatype Key = I(n: int) | S(s: string)

  /** A PHP value as the permission code sees it. Leaves are strings (or null); arrays are ordered. */
  datatype Val = Null | Str(s: string) | Arr(entries: seq<(Key, Val)>)

  type Entries = seq<(Key, Val)>

  // ---------------------------------------------------------------------------
  // Decimal integers and array keys

  predicate IsDigit(c: char) { '0' <= c <= '9' }

  predicate AllDigits(s: string) { forall i | 0 <= i < |s| :: IsDigit(s[i]) }

  /** Digits with no superfluous leading zero: "0", "7", "120", but not "", "07" or "-1". */
  predicate IsCanonicalNat(s: string) { |s| > 0 && AllDigits(s) && (s[0] != '0' || s == "0") }

  function DigitChar(d: nat): char
    requires d < 10
  {
    (d + '0' as int) as char
  }

  function DecimalValue(s: string): nat
    requires AllDigits(s)
  {
    if s == [] then 0 else 10 * DecimalValue(s[..|s| - 1]) + (s[|s| - 1] as int - '0' as int)
  }

  function NatToDecimal(n: nat): string
  {
    if n < 10 then [DigitChar(n)] else NatToDecimal(n / 10) + [DigitChar(n % 10)]
  }

  predicate IsNegativeKey(s: string) { |s| > 1 && s[0] == '-' && IsCanonicalNat(s[1..]) && s[1..] != "0" }

  /** True when PHP stores the string `s`, used as an array key, as an integer key. */
  predicate IsIntegerKey(s: string) { IsCanonicalNat(s) || IsNegativeKey(s) }

  /** The key PHP uses for `$a[$s]`. */
  function KeyOf(s: string): Key
  {
    if IsCanonicalNat(s) then I(DecimalValue(s))
    else if IsNegativeKey(s) then I(0 - DecimalValue(s[1..]) as int)
    else S(s)
  }

  /** The key as a string, as string concatenation and `implode` write it. */
  function KeyString(k: Key): string
  {
    match k
    case I(n) => if n >= 0 then NatToDecimal(n) else "-" + NatToDecimal(-n)
    case S(s) => s
  }

  /** Keys PHP can produce: a string key never spells a canonical integer. */
  predicate ValidKey(k: Key) { k.S? ==> !IsIntegerKey(k.s) }

  lemma {:induction false} NatToDecimalCanonical(n: nat)
    ensures IsCanonicalNat(NatToDecimal(n)) && DecimalValue(NatToDecimal(n)) == n
  {
    if n >= 10 {
      NatToDecimalCanonical(n / 10);
      var s := NatToDecimal(n);
      assert s[..|s| - 1] == NatToDecimal(n / 10);
    }
  }

  lemma {:induction false} LeadingDigitPositive(s: string)
    requires IsCanonicalNat(s) && s != "0"
    ensures DecimalValue(s) >= 1
  {
    if |s| > 1 {
      var p := s[..|s| - 1];
      assert p[0] == s[0];
      LeadingDigitPositive(p);
    }
  }

  lemma {:induction false} DecimalToNatToDecimal(s: string)
    requires IsCanonicalNat(s)
    ensures NatToDecimal(DecimalValue(s)) == s
  {
    if |s| > 1 {
      var p := s[..|s| - 1];
      assert p[0] == s[0];
      LeadingDigitPositive(p);
      DecimalToNatToDecimal(p);
      assert s == p + [s[|s| - 1]];
    }
  }

  /** Writing a key back as a string gives the string it came from, so `KeyOf` is injective. */
  lemma KeyStringOfKeyOf(s: string)
    ensures KeyString(KeyOf(s)) == s
  {
    if IsCanonicalNat(s) {
      DecimalToNatToDecimal(s);
    } else if IsNegativeKey(s) {
      DecimalToNatToDecimal(s[1..]);
      LeadingDigitPositive(s[1..]);
    }
  }

  /** Reading a key's string form as a key gives the key back. */
  lemma KeyOfKeyString(k: Key)
    requires ValidKey(k)
    ensures KeyOf(KeyString(k)) == k
  {
    if k.I? {
      if k.n >= 0 {
        NatToDecimalCanonical(k.n);
      } else {
        NatToDecimalCanonical(-k.n);
        var s := KeyString(k);
        assert s[1..] == NatToDecimal(-k.n);
        assert !IsCanonicalNat(s);
      }
    }
  }

  lemma KeyOfIsValid(s: string)
    ensures ValidKey(KeyOf(s))
  {
  }

  // ---------------------------------------------------------------------------
  // explode / implode on a one-character separator

  /** `explode(sep, s)`: never empty; "" gives [""]. */
  function Explode(s: string, sep: char): (parts: seq<string>)
    ensures |parts| >= 1
  {
    if s == [] then [""]
    else
      var rest := Explode(s[1..], sep);
      if s[0] == sep then [""] + rest else [[s[0]] + rest[0]] + rest[1..]
  }

  /** `implode(sep, parts)`. */
  function Implode(parts: seq<string>, sep: char): string
  {
    if parts == [] then "" else if |parts| == 1 then parts[0] else parts[0] + [sep] + Implode(parts[1..], sep)
  }

  predicate NoSeparator(parts: seq<string>, sep: char)
  {
    forall i | 0 <= i < |parts| :: sep !in parts[i]
  }

  lemma {:induction false} ImplodeExplode(s: string, sep: char)
    ensures Implode(Explode(s, sep), sep) == s
  {
    if s != [] {
      ImplodeExplode(s[1..], sep);
      var rest := Explode(s[1..], sep);
      if s[0] != sep {
        if |rest| > 1 {
          assert ([[s[0]] + rest[0]] + rest[1..])[1..] == rest[1..];
        }
      }
    }
  }

  lemma {:induction false} ExplodeNoSeparator(s: string, sep: char)
    ensures NoSeparator(Explode(s, sep), sep)
  {
    if s != [] {
      ExplodeNoSeparator(s[1..], sep);
    }
  }

  lemma {:induction false} ExplodePrefix(a: string, sep: char, b: string)
    requires sep !in a
    ensures Explode(a + [sep] + b, sep) == [a] + Explode(b, sep)
  {
    if a == [] {
      assert (a + [sep] + b)[1..] == b;
    } else {
      assert (a + [sep] + b)[1..] == a[1..] + [sep] + b;
      ExplodePrefix(a[1..], sep, b);
      assert [a[0]] + a[1..] == a;
    }
  }

  lemma {:induction false} ExplodeWhole(a: string, sep: char)
    requires sep !in a
    ensures Explode(a, sep) == [a]
  {
    if a != [] {
      ExplodeWhole(a[1..], sep);
      assert [a[0]] + a[1..] == a;
    }
  }

  lemma {:induction false} ExplodeImplode(parts: seq<string>, sep: char)
    requires |parts| >= 1 && NoSeparator(parts, sep)
    ensures Explode(Implode(parts, sep), sep) == parts
  {
    if |parts| == 1 {
      ExplodeWhole(parts[0], sep);
    } else {
      ExplodeImplode(parts[1..], sep);
      ExplodePrefix(parts[0], sep, Implode(parts[1..], sep));
    }
  }

  // ---------------------------------------------------------------------------
  // Truthiness and loose comparison

  /** PHP truthiness: null, "", "0" and the empty array are falsy. */
  predicate Falsy(v: Val)
  {
    match v
    case Null => true
    case Str(s) => s == "" || s == "0"
    case Arr(e) => e == []
  }

  /**
   * PHP's loose `==` on the values the engine compares. Strings compare as strings
   * (a numeric string is not read as a number); null equals null, "" and the empty
   * array; an array never equals a string; two arrays compare as identical.
   */
  predicate LooseEquals(a: Val, b: Val)
  {
    match (a, b)
    case (Str(x), Str(y)) => x == y
    case (Null, Null) => true
    case (Null, Str(y)) => y == ""
    case (Str(x), Null) => x == ""
    case (Null, Arr(e)) => e == []
    case (Arr(e), Null) => e == []
    case (Arr(_), Arr(_)) => a == b
    case (_, _) => false
  }

  /** `in_array($x, $hay)`; when `$hay` is not an array PHP warns and yields a falsy null. */
  predicate InArray(x: Val, hay: Val)
  {
    hay.Arr? && exists i | 0 <= i < |hay.entries| :: LooseEquals(x, hay.entries[i].1)
  }

  /** `array_search($x, $e)`, as the position of the entry whose key it returns. */
  function Search(x: Val, e: Entries): (r: Option<nat>)
    ensures r.Some? ==> r.value < |e| && LooseEquals(x, e[r.value].1)
    ensures r.Some? ==> forall j | 0 <= j < r.value :: !LooseEquals(x, e[j].1)
    ensures r.None? <==> !InArray(x, Arr(e))
  {
    if e == [] then None
    else if LooseEquals(x, e[0].1) then Some(0)
    else match Search(x, e[1..])
      case None => None
      case Some(i) => Some(i + 1)
  }

  // ---------------------------------------------------------------------------
  // Reading and writing array entries

  /** The value stored under `k`, if the key is present (PHP keys are distinct; the first entry wins). */
  function Lookup(e: Entries, k: Key): (r: Option<Val>)
    ensures r.Some? ==> exists i | 0 <= i < |e| :: e[i] == (k, r.value)
    ensures r.None? <==> forall i | 0 <= i < |e| :: e[i].0 != k
  {
    if e == [] then None else if e[0].0 == k then Some(e[0].1) else Lookup(e[1..], k)
  }

  /** `isset($v[$k])`: `$v` is an array holding a non-null value under `k`. */
  predicate IsSet(v: Val, k: Key)
  {
    v.Arr? && Lookup(v.entries, k).Some? && Lookup(v.entries, k).value != Null
  }

  /** `$v[$k]` as an rvalue: null when `$v` is not an array or lacks the key. */
  function Get(v: Val, k: Key): Val
  {
    if v.Arr? && Lookup(v.entries, k).Some? then Lookup(v.entries, k).value else Null
  }

  /** `$a[$k] = $x`: replaces the value in place when the key is present, appends otherwise. */
  function Assign(e: Entries, k: Key, x: Val): Entries
  {
    if e == [] then [(k, x)]
    else if e[0].0 == k then [(k, x)] + e[1..]
    else [e[0]] + Assign(e[1..], k, x)
  }

  /** The index `$a[] = ...` uses: one past the largest integer key, and never below 0. */
  function NextIndex(e: Entries): int
  {
    if e == [] then 0
    else
      var rest := NextIndex(e[1..]);
      if e[0].0.I? && e[0].0.n + 1 > rest then e[0].0.n + 1 else rest
  }

  /** `$a[] = $x`. */
  function Append(e: Entries, x: Val): Entries
  {
    e + [(I(NextIndex(e)), x)]
  }

  /** The `(array)` cast. */
  function AsArray(v: Val): Entries
  {
    match v
    case Null => []
    case Str(_) => [(I(0), v)]
    case Arr(e) => e
  }

  /** The `(string)` cast (an array becomes "Array"). */
  function CastString(v: Val): string
  {
    match v
    case Null => ""
    case Str(s) => s
    case Arr(_) => "Array"
  }

  /** `array_filter($e)` with no callback: keeps the truthy entries, with their keys, in order. */
  function FilterTruthy(e: Entries): (r: Entries)
    ensures forall i | 0 <= i < |r| :: !Falsy(r[i].1) && r[i] in e
    ensures forall i | 0 <= i < |e| :: !Falsy(e[i].1) ==> e[i] in r
    ensures (forall i | 0 <= i < |e| :: !Falsy(e[i].1)) ==> r == e
  {
    if e == [] then []
    else if Falsy(e[0].1) then FilterTruthy(e[1..])
    else [e[0]] + FilterTruthy(e[1..])
  }

  /** What `foreach ($v as $x)` visits: the values of an array, nothing for anything else. */
  function Values(v: Val): seq<Val>
  {
    if v.Arr? then seq(|v.entries|, i requires 0 <= i < |v.entries| => v.entries[i].1) else []
  }

  // ---------------------------------------------------------------------------
  // Key chains: where a reference into a nested array points

  /** The keys `$a[$s]` uses for each string of a path. */
  function KeysOf(path: seq<string>): (ks: seq<Key>)
    ensures |ks| == |path| && forall i | 0 <= i < |path| :: ks[i] == KeyOf(path[i])
  {
    if path == [] then [] else [KeyOf(path[0])] + KeysOf(path[1..])
  }

  /** Every key of the chain is present, level by level. */
  predicate HasPath(v: Val, ks: seq<Key>)
    decreases |ks|
  {
    ks == [] || (v.Arr? && Lookup(v.entries, ks[0]).Some? && HasPath(Lookup(v.entries, ks[0]).value, ks[1..]))
  }

  /** The value reached by following `ks` (null once a key is missing). */
  function At(v: Val, ks: seq<Key>): Val
    decreases |ks|
  {
    if ks == [] then v else At(Get(v, ks[0]), ks[1..])
  }

  /** `v` with the value at the end of the chain `ks` replaced by `x` (unchanged when the chain is missing). */
  function PutAt(v: Val, ks: seq<Key>, x: Val): Val
    decreases |ks|
  {
    if ks == [] then x
    else if v.Arr? && Lookup(v.entries, ks[0]).Some? then
      Arr(Assign(v.entries, ks[0], PutAt(Lookup(v.entries, ks[0]).value, ks[1..], x)))
    else v
  }

  lemma {:induction false} LookupAssign(e: Entries, k: Key, x: Val, k': Key)
    ensures Lookup(Assign(e, k, x), k') == if k' == k then Some(x) else Lookup(e, k')
  {
    if e != [] && e[0].0 != k {
      LookupAssign(e[1..], k, x, k');
    }
  }

  lemma {:induction false} AssignLookup(e: Entries, k: Key)
    requires Lookup(e, k).Some?
    ensures Assign(e, k, Lookup(e, k).value) == e
  {
    if e[0].0 != k {
      AssignLookup(e[1..], k);
    }
  }

  lemma {:induction false} AssignAssign(e: Entries, k: Key, x: Val, y: Val)
    ensures Assign(Assign(e, k, y), k, x) == Assign(e, k, x)
  {
    if e != [] && e[0].0 != k {
      AssignAssign(e[1..], k, x, y);
    }
  }

  lemma {:induction false} AtPutAt(v: Val, ks: seq<Key>, x: Val)
    requires HasPath(v, ks)
    ensures At(PutAt(v, ks, x), ks) == x && HasPath(PutAt(v, ks, x), ks)
    decreases |ks|
  {
    if ks != [] {
      var c := Lookup(v.entries, ks[0]).value;
      LookupAssign(v.entries, ks[0], PutAt(c, ks[1..], x), ks[0]);
      AtPutAt(c, ks[1..], x);
    }
  }

  lemma {:induction false} PutAtAt(v: Val, ks: seq<Key>)
    requires HasPath(v, ks)
    ensures PutAt(v, ks, At(v, ks)) == v
    decreases |ks|
  {
    if ks != [] {
      var c := Lookup(v.entries, ks[0]).value;
      PutAtAt(c, ks[1..]);
      AssignLookup(v.entries, ks[0]);
    }
  }

  lemma {:induction false} PutAtPutAt(v: Val, ks: seq<Key>, x: Val, y: Val)
    requires HasPath(v, ks)
    ensures PutAt(PutAt(v, ks, y), ks, x) == PutAt(v, ks, x)
    decreases |ks|
  {
    if ks != [] {
      var c := Lookup(v.entries, ks[0]).value;
      LookupAssign(v.entries, ks[0], PutAt(c, ks[1..], y), ks[0]);
      PutAtPutAt(c, ks[1..], x, y);
      AssignAssign(v.entries, ks[0], PutAt(c, ks[1..], x), PutAt(c, ks[1..], y));
    }
  }

  /** Extending a chain by one present key: the chain exists and leads to that key's value. */
  lemma {:induction false} HasPathExtend(v: Val, ks: seq<Key>, k: Key)
    requires HasPath(v, ks) && At(v, ks).Arr? && Lookup(At(v, ks).entries, k).Some?
    ensures HasPath(v, ks + [k]) && At(v, ks + [k]) == Lookup(At(v, ks).entries, k).value
    decreases |ks|
  {
    if ks != [] {
      assert (ks + [k])[1..] == ks[1..] + [k];
      HasPathExtend(Lookup(v.entries, ks[0]).value, ks[1..], k);
    }
  }

  /** Writing below a chain is writing the updated level at the chain. */
  lemma {:induction false} PutAtExtend(v: Val, ks: seq<Key>, k: Key, x: Val)
    requires HasPath(v, ks) && At(v, ks).Arr? && Lookup(At(v, ks).entries, k).Some?
    ensures PutAt(v, ks + [k], x) == PutAt(v, ks, Arr(Assign(At(v, ks).entries, k, x)))
    decreases |ks|
  {
    if ks != [] {
      assert (ks + [k])[1..] == ks[1..] + [k];
      PutAtExtend(Lookup(v.entries, ks[0]).value, ks[1..], k, x);
    }
  }

  // ---------------------------------------------------------------------------
  // Distinct keys: every PHP array holds each key at most once

  predicate DistinctKeys(e: Entries)
  {
    forall i, j | 0 <= i < j < |e| :: e[i].0 != e[j].0
  }

  /** Distinct keys at every level of nesting. */
  predicate WellFormed(e: Entries)
    decreases e
  {
    DistinctKeys(e) && forall i | 0 <= i < |e| :: WellFormedEntry(e[i])
  }

  predicate WellFormedEntry(p: (Key, Val))
    decreases p
  {
    p.1.Arr? ==> WellFormed(p.1.entries)
  }

  lemma {:induction false} AssignFresh(e: Entries, k: Key, x: Val)
    requires Lookup(e, k).None?
    ensures Assign(e, k, x) == e + [(k, x)]
  {
    if e != [] {
      AssignFresh(e[1..], k, x);
    }
  }

  /** Assignment replaces in place: the keys stay where they were, and only the entry under `k` changes. */
  lemma {:induction false} AssignInPlace(e: Entries, k: Key, x: Val)
    requires Lookup(e, k).Some?
    ensures |Assign(e, k, x)| == |e|
    ensures forall i | 0 <= i < |e| :: Assign(e, k, x)[i] == if e[i].0 == k && Lookup(e[..i], k).None? then (k, x) else e[i]
  {
    if e[0].0 != k {
      AssignInPlace(e[1..], k, x);
      forall i | 0 < i < |e|
        ensures Lookup(e[..i], k).None? <==> Lookup(e[1..][..i - 1], k).None?
      {
        assert e[..i][1..] == e[1..][..i - 1];
      }
    } else {
      forall i | 0 < i < |e|
        ensures Lookup(e[..i], k).Some?
      {
      }
    }
  }

  lemma {:induction false} AssignKeepsDistinct(e: Entries, k: Key, x: Val)
    requires DistinctKeys(e)
    ensures DistinctKeys(Assign(e, k, x))
  {
    if Lookup(e, k).None? {
      AssignFresh(e, k, x);
    } else {
      AssignInPlace(e, k, x);
    }
  }

  lemma LookupAppended(e: Entries, k: Key, x: Val, k': Key)
    ensures Lookup(e + [(k, x)], k') == if Lookup(e, k').Some? then Lookup(e, k') else if k == k' then Some(x) else None
  {
    if e != [] {
      assert (e + [(k, x)])[1..] == e[1..] + [(k, x)];
      LookupAppended(e[1..], k, x, k');
    }
  }

  /** `$a[] = ...` never reuses an integer key. */
  lemma {:induction false} NextIndexAbove(e: Entries)
    ensures NextIndex(e) >= 0
    ensures forall i | 0 <= i < |e| :: e[i].0.I? ==> e[i].0.n < NextIndex(e)
  {
    if e != [] {
      NextIndexAbove(e[1..]);
      forall i | 1 <= i < |e|
        ensures e[i].0.I? ==> e[i].0.n < NextIndex(e)
      {
        assert e[i] == e[1..][i - 1];
      }
    }
  }

  lemma AppendKeepsDistinct(e: Entries, x: Val)
    requires DistinctKeys(e)
    ensures DistinctKeys(Append(e, x))
  {
    NextIndexAbove(e);
  }

  /** When `k` occurs exactly once, at position `t`, reads and writes under `k` go to that position. */
  lemma OnlyKeyAt(e: Entries, t: nat, k: Key, x: Val)
    requires t < |e| && e[t].0 == k && forall i | 0 <= i < |e| && i != t :: e[i].0 != k
    ensures Lookup(e, k) == Some(e[t].1)
    ensures Assign(e, k, x) == e[t := (k, x)]
  {
    AssignInPlace(e, k, x);
    assert Lookup(e[..t], k).None?;
  }
}
