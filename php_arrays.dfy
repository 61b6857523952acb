/**
 * PHP arrays as the object model uses them: insertion-ordered maps with
 * insert-or-replace assignment (`$a[$k] = $v` keeps an existing key's slot),
 * and `array_merge`, which renumbers integer keys and appends their values
 * while a string key already present is overwritten in its first slot.
 *
 * A map is a sequence of (key, value) pairs; every map the model builds
 * keeps its keys distinct.
 */
module PhpArrays {
  import opened Results

  type OrderedMap<K, V> = seq<(K, V)>

  function Keys<K, V>(m: OrderedMap<K, V>): (ks: seq<K>)
    ensures |ks| == |m|
    ensures forall i :: 0 <= i < |m| ==> ks[i] == m[i].0
  {
    if m == [] then [] else [m[0].0] + Keys(m[1..])
  }

  predicate HasKey<K(==), V>(m: OrderedMap<K, V>, k: K) {
    exists i :: 0 <= i < |m| && m[i].0 == k
  }

  predicate DistinctKeys<K(==), V>(m: OrderedMap<K, V>) {
    forall i, j :: 0 <= i < j < |m| ==> m[i].0 != m[j].0
  }

  /** `$m[$k] ?? null`: the value stored under `k`. */
  function Get<K(==), V>(m: OrderedMap<K, V>, k: K): (r: Option<V>)
    ensures r.None? <==> !HasKey(m, k)
    ensures r.Some? ==> exists i :: 0 <= i < |m| && m[i] == (k, r.value)
  {
    if m == [] then None
    else if m[0].0 == k then Some(m[0].1)
    else
      var r := Get(m[1..], k);
      assert forall i :: 0 < i < |m| ==> m[i] == m[1..][i - 1];
      r
  }

  /**
   * `$m[$k] = $v`: the entry for `k` is replaced where it stands, or the
   * pair is appended when `k` is new.
   */
  function Put<K(==), V>(m: OrderedMap<K, V>, k: K, v: V): (r: OrderedMap<K, V>)
    ensures |r| == if HasKey(m, k) then |m| else |m| + 1
    ensures forall i :: 0 <= i < |r| ==> r[i] == (k, v) || (i < |m| && r[i] == m[i])
  {
    if m == [] then [(k, v)]
    else if m[0].0 == k then [(k, v)] + m[1..]
    else
      assert forall i :: 0 < i < |m| ==> m[i] == m[1..][i - 1];
      [m[0]] + Put(m[1..], k, v)
  }

  /** Putting a key the map does not hold appends the pair at the end. */
  lemma {:induction false} PutAppends<K, V>(m: OrderedMap<K, V>, k: K, v: V)
    requires !HasKey(m, k)
    ensures Put(m, k, v) == m + [(k, v)]
  {
    if m != [] {
      var tail := m[1..];
      assert forall i :: 0 <= i < |tail| ==> tail[i] == m[i + 1];
      PutAppends(tail, k, v);
      assert [m[0]] + (tail + [(k, v)]) == m + [(k, v)];
    }
  }

  /** Putting a key overwrites the first slot holding it and nothing else. */
  lemma {:induction false} PutInPlace<K, V>(m: OrderedMap<K, V>, k: K, v: V, i: nat)
    requires i < |m| && m[i].0 == k
    requires forall j :: 0 <= j < i ==> m[j].0 != k
    ensures Put(m, k, v) == m[i := (k, v)]
  {
    if i > 0 {
      var tail := m[1..];
      assert m[0].0 != k;
      PutInPlace(tail, k, v, i - 1);
      assert [m[0]] + tail[i - 1 := (k, v)] == m[i := (k, v)];
    }
  }

  /** In a map with distinct keys, `$m[$k] = $v` overwrites the slot of `k` or appends. */
  lemma PutPlacement<K, V>(m: OrderedMap<K, V>, k: K, v: V)
    requires DistinctKeys(m)
    ensures !HasKey(m, k) ==> Put(m, k, v) == m + [(k, v)]
    ensures forall i :: 0 <= i < |m| && m[i].0 == k ==> Put(m, k, v) == m[i := (k, v)]
  {
    if !HasKey(m, k) {
      PutAppends(m, k, v);
    }
    forall i | 0 <= i < |m| && m[i].0 == k ensures Put(m, k, v) == m[i := (k, v)] {
      PutInPlace(m, k, v, i);
    }
  }

  /** After `$m[$k] = $v`, `$m[$k]` is `v`. */
  lemma PutGetSame<K, V>(m: OrderedMap<K, V>, k: K, v: V)
    requires DistinctKeys(m)
    ensures Get(Put(m, k, v), k) == Some(v)
  {
    PutPlacement(m, k, v);
    PutKeepsDistinct(m, k, v);
    var r := Put(m, k, v);
    if HasKey(m, k) {
      var i :| 0 <= i < |m| && m[i].0 == k;
      assert r[i] == (k, v);
    } else {
      assert r[|m|] == (k, v);
    }
    GetFirstMatch(r, k, v);
  }

  /** After `$m[$k] = $v`, every other key maps to what it mapped to before. */
  lemma PutGetOther<K, V>(m: OrderedMap<K, V>, k: K, v: V, other: K)
    requires DistinctKeys(m) && other != k
    ensures Get(Put(m, k, v), other) == Get(m, other)
  {
    PutPlacement(m, k, v);
    PutKeepsDistinct(m, k, v);
    var r := Put(m, k, v);
    match Get(m, other)
    case None =>
      assert forall i :: 0 <= i < |r| ==> r[i].0 != other;
    case Some(w) =>
      var i :| 0 <= i < |m| && m[i] == (other, w);
      assert r[i] == m[i];
      GetFirstMatch(r, other, w);
  }

  /** In a map with distinct keys, the value at any slot holding `k` is the one `Get` finds. */
  lemma {:induction false} GetFirstMatch<K, V>(m: OrderedMap<K, V>, k: K, v: V)
    requires DistinctKeys(m) && (exists i :: 0 <= i < |m| && m[i] == (k, v))
    ensures Get(m, k) == Some(v)
  {
    var i :| 0 <= i < |m| && m[i] == (k, v);
    if m[0].0 != k {
      var tail := m[1..];
      assert tail[i - 1] == (k, v);
      assert DistinctKeys(tail) by {
        forall a, b | 0 <= a < b < |tail| ensures tail[a].0 != tail[b].0 {
          assert tail[a] == m[a + 1] && tail[b] == m[b + 1];
        }
      }
      GetFirstMatch(tail, k, v);
    }
  }

  /** `$m[$k] = $v` keeps the keys distinct. */
  lemma PutKeepsDistinct<K, V>(m: OrderedMap<K, V>, k: K, v: V)
    requires DistinctKeys(m)
    ensures DistinctKeys(Put(m, k, v))
  {
    PutPlacement(m, k, v);
    if HasKey(m, k) {
      var i :| 0 <= i < |m| && m[i].0 == k;
      assert Put(m, k, v) == m[i := (k, v)];
    } else {
      var r := m + [(k, v)];
      assert Put(m, k, v) == r;
      forall a, b | 0 <= a < b < |r| ensures r[a].0 != r[b].0 {
        if b == |m| {
          assert r[a] == m[a];
        }
      }
    }
  }

  /**
   * The key an array gets for a string index: PHP stores a string written
   * as a canonical decimal integer in the 64-bit range ("0", "17", "-3",
   * not "007", "-0" or "+1") as an integer key.
   */
  predicate IsIntegerKey(s: string) {
    && |s| > 0
    && var digits := if s[0] == '-' then s[1..] else s;
    && IsDigits(digits)
    && !(digits[0] == '0' && |s| > 1)
    && if s[0] == '-' then DigitsValue(digits) <= 0x8000_0000_0000_0000
       else DigitsValue(digits) <= 0x7FFF_FFFF_FFFF_FFFF
  }

  predicate IsDigits(s: string) {
    |s| > 0 && forall i :: 0 <= i < |s| ==> '0' <= s[i] <= '9'
  }

  function DigitsValue(s: string): nat
    requires IsDigits(s)
  {
    if |s| == 1 then s[0] as nat - '0' as nat
    else 10 * DigitsValue(s[..|s| - 1]) + (s[|s| - 1] as nat - '0' as nat)
  }

  /**
   * The key an element keeps in `array_merge`: `None` for an integer key
   * (renumbered and appended, so it never collides), `Some(s)` for a string key.
   */
  function MergeKey(s: string): (k: Option<string>)
    ensures k.Some? <==> !IsIntegerKey(s)
    ensures k.Some? ==> k.value == s
  {
    if IsIntegerKey(s) then None else Some(s)
  }

  /** A map whose keys are the `array_merge` keys of its string keys. */
  function WithMergeKeys<V>(m: OrderedMap<string, V>): (r: OrderedMap<Option<string>, V>)
    ensures |r| == |m|
    ensures forall i :: 0 <= i < |m| ==> r[i] == (MergeKey(m[i].0), m[i].1)
  {
    if m == [] then [] else [(MergeKey(m[0].0), m[0].1)] + WithMergeKeys(m[1..])
  }

  /** A list, such as `$edges`, seen as an array: every key is an integer. */
  function AsList<V>(vs: seq<V>): (r: OrderedMap<Option<string>, V>)
    ensures |r| == |vs|
    ensures forall i :: 0 <= i < |vs| ==> r[i] == (None, vs[i])
  {
    if vs == [] then [] else [(None, vs[0])] + AsList(vs[1..])
  }

  /** One element of `array_merge`: an integer key appends, a string key is put. */
  function MergeOne<V>(acc: OrderedMap<Option<string>, V>, k: Option<string>, v: V): OrderedMap<Option<string>, V>
  {
    if k.None? then acc + [(None, v)] else Put(acc, k, v)
  }

  /** `array_merge` of `acc` (already merged) with the elements of `items`, in order. */
  function Merge<V>(acc: OrderedMap<Option<string>, V>, items: OrderedMap<Option<string>, V>): OrderedMap<Option<string>, V>
    decreases |items|
  {
    if items == [] then acc else Merge(MergeOne(acc, items[0].0, items[0].1), items[1..])
  }

  function Values<K, V>(m: OrderedMap<K, V>): (vs: seq<V>)
    ensures |vs| == |m|
    ensures forall i :: 0 <= i < |m| ==> vs[i] == m[i].1
  {
    if m == [] then [] else [m[0].1] + Values(m[1..])
  }

  /** No string key occurs twice in `m`. */
  predicate DistinctStringKeys<V>(m: OrderedMap<Option<string>, V>) {
    forall i, j :: 0 <= i < j < |m| && m[i].0.Some? ==> m[i].0 != m[j].0
  }

  /**
   * When no string key repeats across everything merged, `array_merge`
   * only concatenates: every element keeps its place and nothing is lost.
   */
  lemma {:induction false} MergeWithoutCollisions<V>(acc: OrderedMap<Option<string>, V>, items: OrderedMap<Option<string>, V>)
    requires DistinctStringKeys(acc + items)
    ensures Merge(acc, items) == acc + items
    decreases |items|
  {
    if items != [] {
      var (k, v) := items[0];
      var next := MergeOne(acc, k, v);
      if k.Some? {
        forall i | 0 <= i < |acc| ensures acc[i].0 != k {
          assert (acc + items)[i] == acc[i] && (acc + items)[|acc|] == items[0];
        }
        PutAppends(acc, k, v);
      }
      assert next == acc + [items[0]];
      assert acc + items == next + items[1..];
      MergeWithoutCollisions(next, items[1..]);
    }
  }

  lemma ValuesAppend<K, V>(a: OrderedMap<K, V>, b: OrderedMap<K, V>)
    ensures Values(a + b) == Values(a) + Values(b)
  {
    var r := Values(a + b);
    assert forall i :: 0 <= i < |a| ==> r[i] == (a + b)[i].1 == a[i].1;
  }

  /**
   * A string key already merged is overwritten where it stands: the later
   * element's value takes the earlier element's slot, and the earlier value
   * is gone.
   */
  lemma MergeOneCollides<V>(acc: OrderedMap<Option<string>, V>, k: string, v: V, i: nat)
    requires DistinctStringKeys(acc) && i < |acc| && acc[i].0 == Some(k)
    ensures MergeOne(acc, Some(k), v) == acc[i := (Some(k), v)]
  {
    forall j | 0 <= j < i ensures acc[j].0 != Some(k) {
      if acc[j].0.Some? {
        assert acc[j].0 != acc[i].0;
      }
    }
    PutInPlace(acc, Some(k), v, i);
  }
}
