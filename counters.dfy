/** `collections.Counter` as the report generator uses it: `c[k] += 1` on hashable keys,
    iteration in insertion order. */
module Counters {
  import opened Values

  /** One key with its count. The key is the value first counted under it: Python keeps
      the first-inserted key object when an equal key is counted again. */
  datatype Entry = Entry(key: Json, count: nat)

  /** A Counter's entries in insertion order. */
  type Counter = seq<Entry>

  /** The key identities a counter holds. */
  function KeySet(c: Counter): set<Key> {
    if c == [] then {}
    else (if Hashable(c[0].key) then {KeyOf(c[0].key)} else {}) + KeySet(c[1..])
  }

  /** Keys are hashable and pairwise distinct as dict keys, and every count is positive. */
  predicate Valid(c: Counter) {
    c == [] ||
    (Hashable(c[0].key) && c[0].count > 0 && KeyOf(c[0].key) !in KeySet(c[1..]) && Valid(c[1..]))
  }

  /** `c[k]`: the count of key `k`, 0 when it was never counted. */
  function Get(c: Counter, k: Key): nat {
    if c == [] then 0
    else if Hashable(c[0].key) && KeyOf(c[0].key) == k then c[0].count
    else Get(c[1..], k)
  }

  /** The sum of the counts. */
  function Total(c: Counter): nat {
    if c == [] then 0 else c[0].count + Total(c[1..])
  }

  /** The keys in insertion order (`c.keys()`). */
  function Keys(c: Counter): seq<Json> {
    if c == [] then [] else [c[0].key] + Keys(c[1..])
  }

  lemma {:induction false} GetPositive(c: Counter, k: Key)
    requires Valid(c)
    ensures Get(c, k) > 0 <==> k in KeySet(c)
  {
    if c != [] {
      GetPositive(c[1..], k);
    }
  }

  /** Every key of `c` can be formatted with `str`. */
  predicate KeysHashable(c: Counter) {
    forall i :: 0 <= i < |c| ==> Hashable(c[i].key)
  }

  lemma {:induction false} ValidKeysHashable(c: Counter)
    requires Valid(c)
    ensures KeysHashable(c)
  {
    if c != [] {
      ValidKeysHashable(c[1..]);
      assert forall i :: 1 <= i < |c| ==> c[i] == c[1..][i - 1];
    }
  }

  /** `c[v] += 1`: the counter stays well formed and holds `v`'s key afterwards. */
  function Increment(c: Counter, v: Json): (r: Counter)
    requires Valid(c) && Hashable(v)
    ensures Valid(r)
    ensures KeySet(r) == KeySet(c) + {KeyOf(v)}
  {
    if c == [] then [Entry(v, 1)]
    else if KeyOf(c[0].key) == KeyOf(v) then [Entry(c[0].key, c[0].count + 1)] + c[1..]
    else
      var r := [c[0]] + Increment(c[1..], v);
      assert r[1..] == Increment(c[1..], v);
      r
  }

  /** `c[v] += 1` raises the count of `v`'s key by one and changes no other count; a new
      key goes last, an existing one keeps its place and its first-inserted key object. */
  lemma {:induction false} IncrementCounts(c: Counter, v: Json)
    requires Valid(c) && Hashable(v)
    ensures forall k :: Get(Increment(c, v), k) == Get(c, k) + (if k == KeyOf(v) then 1 else 0)
    ensures Total(Increment(c, v)) == Total(c) + 1
    ensures Keys(Increment(c, v)) == if Get(c, KeyOf(v)) > 0 then Keys(c) else Keys(c) + [v]
  {
    var r := Increment(c, v);
    if c != [] {
      assert r[1..] == if KeyOf(c[0].key) == KeyOf(v) then c[1..] else Increment(c[1..], v);
      if KeyOf(c[0].key) != KeyOf(v) {
        IncrementCounts(c[1..], v);
      }
    }
  }

  /** How many elements of `vs` are the key `k`. */
  function Occurrences(vs: seq<Json>, k: Key): nat {
    if vs == [] then 0
    else
      var v := vs[|vs| - 1];
      Occurrences(vs[..|vs| - 1], k) + (if Hashable(v) && KeyOf(v) == k then 1 else 0)
  }

  /** The elements of `vs` that are the first of their key, in order. */
  function FirstSeen(vs: seq<Json>): seq<Json> {
    if vs == [] then []
    else
      var p, v := vs[..|vs| - 1], vs[|vs| - 1];
      if Hashable(v) && Occurrences(p, KeyOf(v)) > 0 then FirstSeen(p) else FirstSeen(p) + [v]
  }

  predicate AllHashable(vs: seq<Json>) {
    forall i :: 0 <= i < |vs| ==> Hashable(vs[i])
  }

  /** The counter that `c[v] += 1` for each `v` of `vs` in turn builds from an empty one. */
  function Tally(vs: seq<Json>): (c: Counter)
    requires AllHashable(vs)
    ensures Valid(c)
  {
    if vs == [] then []
    else Increment(Tally(vs[..|vs| - 1]), vs[|vs| - 1])
  }

  /** A tally counts each key as often as it occurs, its counts sum to `|vs|`, and its
      keys are in first-seen order. */
  lemma {:induction false} TallyCounts(vs: seq<Json>)
    requires AllHashable(vs)
    ensures forall k :: Get(Tally(vs), k) == Occurrences(vs, k)
    ensures Total(Tally(vs)) == |vs|
    ensures Keys(Tally(vs)) == FirstSeen(vs)
  {
    if vs != [] {
      var p := vs[..|vs| - 1];
      TallyCounts(p);
      IncrementCounts(Tally(p), vs[|vs| - 1]);
    }
  }

  /** Counting one more value is one more `c[v] += 1`. */
  lemma TallyAppend(vs: seq<Json>, v: Json)
    requires AllHashable(vs) && Hashable(v)
    ensures AllHashable(vs + [v])
    ensures Tally(vs + [v]) == Increment(Tally(vs), v)
  {
    assert (vs + [v])[..|vs|] == vs;
  }

  /** Counting is additive over concatenation. */
  lemma {:induction false} OccurrencesAppend(a: seq<Json>, b: seq<Json>, k: Key)
    ensures Occurrences(a + b, k) == Occurrences(a, k) + Occurrences(b, k)
  {
    if b != [] {
      var n := |b| - 1;
      OccurrencesAppend(a, b[..n], k);
      assert (a + b)[..|a + b| - 1] == a + b[..n];
    } else {
      assert a + b == a;
    }
  }
}
