/**
 * src/util.js: frequency counting, ranking by frequency, and random
 * selection of seed elements.
 */
module Util {
  import opened Sequences

  // ---------------------------------------------------------------------------
  // countFrequencies
  // ---------------------------------------------------------------------------

  /**
   * The plain object `countFrequencies` builds: its own keys in insertion
   * order (the order `Object.keys` reports for non-numeric keys) and the
   * number stored under each.
   */
  datatype Table = Table(keys: seq<string>, counts: map<string, nat>)

  /** What every such object satisfies: each key listed once, and listed keys are exactly the stored ones. */
  ghost predicate WellFormed(t: Table)
  {
    (forall k :: k in t.keys <==> k in t.counts) && NoDuplicates(t.keys)
  }

  /** The sum of the counts stored under `keys`. */
  function Total(keys: seq<string>, counts: map<string, nat>): nat
    requires forall k :: k in keys ==> k in counts
  {
    if keys == [] then 0 else Total(keys[..|keys| - 1], counts) + counts[keys[|keys| - 1]]
  }

  lemma {:induction false} TotalFrame(keys: seq<string>, c1: map<string, nat>, c2: map<string, nat>)
    requires forall k :: k in keys ==> k in c1 && k in c2 && c1[k] == c2[k]
    ensures Total(keys, c1) == Total(keys, c2)
  {
    if keys != [] {
      TotalFrame(keys[..|keys| - 1], c1, c2);
    }
  }

  /** Storing 1 under a key not yet present adds one to the total. */
  lemma TotalAppendNew(keys: seq<string>, counts: map<string, nat>, v: string)
    requires forall k :: k in keys ==> k in counts
    requires v !in keys
    ensures Total(keys + [v], counts[v := 1]) == Total(keys, counts) + 1
  {
    assert (keys + [v])[..|keys|] == keys;
    TotalFrame(keys, counts, counts[v := 1]);
  }

  /** Incrementing the count of a key listed once adds one to the total. */
  lemma {:induction false} TotalIncrement(keys: seq<string>, counts: map<string, nat>, v: string)
    requires forall k :: k in keys ==> k in counts
    requires v in keys && NoDuplicates(keys)
    ensures Total(keys, counts[v := counts[v] + 1]) == Total(keys, counts) + 1
  {
    var init, last := keys[..|keys| - 1], keys[|keys| - 1];
    assert keys == init + [last];
    if last == v {
      assert v !in init;
      TotalFrame(init, counts, counts[v := counts[v] + 1]);
    } else {
      TotalIncrement(init, counts, v);
    }
  }

  /** The state of the counting loop once it has consumed `prefix`. */
  ghost predicate Counted(prefix: seq<string>, keys: seq<string>, counts: map<string, nat>)
  {
    && keys == Distinct(prefix)
    && (forall k :: k in keys <==> k in counts)
    && (forall k :: k in counts <==> k in prefix)
    && (forall k :: k in counts ==> counts[k] == multiset(prefix)[k])
    && NoDuplicates(keys)
    && Total(keys, counts) == |prefix|
  }

  /** Gathers the six facts of `Counted` into the predicate. */
  lemma CountedIntro(prefix: seq<string>, keys: seq<string>, counts: map<string, nat>)
    requires keys == Distinct(prefix)
    requires forall k :: k in keys <==> k in counts
    requires forall k :: k in counts <==> k in prefix
    requires forall k :: k in counts ==> counts[k] == multiset(prefix)[k]
    requires NoDuplicates(keys)
    requires Total(keys, counts) == |prefix|
    ensures Counted(prefix, keys, counts)
  {
  }

  /** Counting one more occurrence of `v` keeps every count equal to the value's multiplicity. */
  lemma CountsSnoc(prefix: seq<string>, counts: map<string, nat>, v: string, n: nat)
    requires forall k :: k in counts ==> counts[k] == multiset(prefix)[k]
    requires n == multiset(prefix)[v] + 1
    ensures forall k :: k in counts[v := n] ==> counts[v := n][k] == multiset(prefix + [v])[k]
  {
    assert multiset(prefix + [v]) == multiset(prefix) + multiset{v};
  }

  /** A value seen before: its count goes up by one and the key order stays. */
  lemma CountedRepeat(prefix: seq<string>, keys: seq<string>, counts: map<string, nat>, v: string)
    requires Counted(prefix, keys, counts)
    requires v in counts
    ensures Counted(prefix + [v], keys, counts[v := counts[v] + 1])
  {
    var p, cs := prefix + [v], counts[v := counts[v] + 1];
    assert v in prefix;
    assert keys == Distinct(p) by {
      DistinctSnoc(prefix, v);
    }
    assert forall k :: k in cs ==> cs[k] == multiset(p)[k] by {
      CountsSnoc(prefix, counts, v, counts[v] + 1);
    }
    assert Total(keys, cs) == |p| by {
      TotalIncrement(keys, counts, v);
    }
    CountedIntro(p, keys, cs);
  }

  /** A value not seen before: it becomes the last key, with count 1. */
  lemma CountedNew(prefix: seq<string>, keys: seq<string>, counts: map<string, nat>, v: string)
    requires Counted(prefix, keys, counts)
    requires v !in counts
    ensures Counted(prefix + [v], keys + [v], counts[v := 1])
  {
    var p, ks, cs := prefix + [v], keys + [v], counts[v := 1];
    assert v !in prefix && v !in keys;
    assert ks == Distinct(p) by {
      DistinctSnoc(prefix, v);
    }
    assert forall k :: k in cs ==> cs[k] == multiset(p)[k] by {
      CountsSnoc(prefix, counts, v, 1);
    }
    assert NoDuplicates(ks) by {
      NoDuplicatesSnoc(keys, v);
    }
    assert Total(ks, cs) == |p| by {
      TotalAppendNew(keys, counts, v);
    }
    CountedIntro(p, ks, cs);
  }

  /** `CountedRepeat` at position `i` of the input: the table then describes `values[..i + 1]`. */
  lemma CountedRepeatAt(values: seq<string>, i: nat, keys: seq<string>, counts: map<string, nat>)
    requires i < |values| && Counted(values[..i], keys, counts)
    requires values[i] in counts
    ensures Counted(values[..i + 1], keys, counts[values[i] := counts[values[i]] + 1])
  {
    assert values[..i + 1] == values[..i] + [values[i]];
    CountedRepeat(values[..i], keys, counts, values[i]);
  }

  /** `CountedNew` at position `i` of the input: the table then describes `values[..i + 1]`. */
  lemma CountedNewAt(values: seq<string>, i: nat, keys: seq<string>, counts: map<string, nat>)
    requires i < |values| && Counted(values[..i], keys, counts)
    requires values[i] !in counts
    ensures Counted(values[..i + 1], keys + [values[i]], counts[values[i] := 1])
  {
    assert values[..i + 1] == values[..i] + [values[i]];
    CountedNew(values[..i], keys, counts, values[i]);
  }

  /** What the counting loop's final state says about the table it leaves. */
  lemma CountedTable(values: seq<string>, t: Table)
    requires Counted(values, t.keys, t.counts)
    ensures WellFormed(t)
    ensures t.keys == Distinct(values)
    ensures forall k :: k in t.counts <==> k in values
    ensures forall k :: k in t.counts ==> t.counts[k] == multiset(values)[k] >= 1
    ensures Total(t.keys, t.counts) == |values|
  {
  }

  /**
   * `countFrequencies(array)`: one pass over the values, bumping the count
   * of a key already present and adding a new key with count 1 otherwise.
   */
  method CountFrequencies(values: seq<string>) returns (t: Table)
    ensures WellFormed(t)
    ensures t.keys == Distinct(values)
    ensures forall k :: k in t.counts <==> k in values
    ensures forall k :: k in t.counts ==> t.counts[k] == multiset(values)[k] >= 1
    ensures Total(t.keys, t.counts) == |values|
  {
    var keys: seq<string> := [];
    var counts: map<string, nat> := map[];
    for i := 0 to |values|
      invariant Counted(values[..i], keys, counts)
    {
      var v := values[i];
      if v in counts {
        CountedRepeatAt(values, i, keys, counts);
        counts := counts[v := counts[v] + 1];
      } else {
        CountedNewAt(values, i, keys, counts);
        keys := keys + [v];
        counts := counts[v := 1];
      }
    }
    t := Table(keys, counts);
    assert Counted(values, t.keys, t.counts) by {
      assert values[..|values|] == values;
    }
    CountedTable(values, t);
  }

  // ---------------------------------------------------------------------------
  // sortFrequencies
  // ---------------------------------------------------------------------------

  /** One `{key, value}` element of the ranked list. */
  datatype Entry = Entry(key: string, value: nat)

  function EntryKey(e: Entry): string { e.key }

  /** The list the `reduce` builds: one entry per key, in key order. */
  function Entries(t: Table): (es: seq<Entry>)
    requires forall k :: k in t.keys ==> k in t.counts
    ensures |es| == |t.keys|
  {
    seq(|t.keys|, i requires 0 <= i < |t.keys| => Entry(t.keys[i], t.counts[t.keys[i]]))
  }

  ghost predicate NonIncreasing(s: seq<Entry>)
  {
    forall i, j :: 0 <= i < j < |s| ==> s[i].value >= s[j].value
  }

  /** The entries of `s` whose value is `v`, in their order in `s`. */
  function WithValue(s: seq<Entry>, v: nat): seq<Entry>
  {
    if s == [] then []
    else WithValue(s[..|s| - 1], v) + (if s[|s| - 1].value == v then [s[|s| - 1]] else [])
  }

  /**
   * Inserts `e` into `s` the way a stable sort by descending value places a
   * later element: after every element whose value is at least its own.
   */
  function Insert(s: seq<Entry>, e: Entry): (r: seq<Entry>)
    ensures |r| == |s| + 1
  {
    if s == [] || s[|s| - 1].value >= e.value then s + [e]
    else Insert(s[..|s| - 1], e) + [s[|s| - 1]]
  }

  /** The stable sort by descending value: the result of `arr.sort((a, b) => b.value - a.value)`. */
  function SortDesc(s: seq<Entry>): (r: seq<Entry>)
    ensures |r| == |s|
  {
    if s == [] then [] else Insert(SortDesc(s[..|s| - 1]), s[|s| - 1])
  }

  lemma {:induction false} InsertMultiset(s: seq<Entry>, e: Entry)
    ensures multiset(Insert(s, e)) == multiset(s) + multiset{e}
  {
    if !(s == [] || s[|s| - 1].value >= e.value) {
      var init := s[..|s| - 1];
      assert s == init + [s[|s| - 1]];
      InsertMultiset(init, e);
    }
  }

  lemma {:induction false} InsertNonIncreasing(s: seq<Entry>, e: Entry)
    requires NonIncreasing(s)
    ensures NonIncreasing(Insert(s, e))
  {
    if !(s == [] || s[|s| - 1].value >= e.value) {
      var init, last := s[..|s| - 1], s[|s| - 1];
      InsertNonIncreasing(init, e);
      InsertMultiset(init, e);
      var r := Insert(init, e);
      assert forall k :: 0 <= k < |init| ==> init[k].value >= last.value;
      forall k | 0 <= k < |r| ensures r[k].value >= last.value {
        assert r[k] in multiset(r);
        if r[k] != e {
          assert r[k] in multiset(init);
        }
      }
      assert Insert(s, e) == r + [last];
    }
  }

  lemma WithValueSnoc(s: seq<Entry>, e: Entry, v: nat)
    ensures WithValue(s + [e], v) == WithValue(s, v) + (if e.value == v then [e] else [])
  {
    assert (s + [e])[..|s|] == s;
  }

  /** Inserting `e` leaves every other value's entries in place and puts `e` after all entries of its own value. */
  lemma {:induction false} InsertWithValue(s: seq<Entry>, e: Entry, v: nat)
    ensures WithValue(Insert(s, e), v) == WithValue(s, v) + (if e.value == v then [e] else [])
  {
    if s == [] || s[|s| - 1].value >= e.value {
      WithValueSnoc(s, e, v);
    } else {
      var init, last := s[..|s| - 1], s[|s| - 1];
      assert s == init + [last];
      InsertWithValue(init, e, v);
      WithValueSnoc(Insert(init, e), last, v);
      WithValueSnoc(init, last, v);
    }
  }

  /**
   * `SortDesc` is a stable sort by descending value: the result is
   * non-increasing, a permutation of the input, and the entries sharing a
   * value keep their input order.
   */
  lemma {:induction false} SortDescCorrect(s: seq<Entry>)
    ensures NonIncreasing(SortDesc(s))
    ensures multiset(SortDesc(s)) == multiset(s)
    ensures forall v :: WithValue(SortDesc(s), v) == WithValue(s, v)
  {
    if s != [] {
      var init, last := s[..|s| - 1], s[|s| - 1];
      assert s == init + [last];
      SortDescCorrect(init);
      InsertNonIncreasing(SortDesc(init), last);
      InsertMultiset(SortDesc(init), last);
      forall v ensures WithValue(SortDesc(s), v) == WithValue(s, v) {
        InsertWithValue(SortDesc(init), last, v);
        WithValueSnoc(init, last, v);
      }
    }
  }

  /**
   * Where the inner loop of the insertion sort stops: `e` goes at `j` when
   * everything from `j` on is smaller and the element before `j` is not.
   */
  lemma {:induction false} InsertAt(p: seq<Entry>, e: Entry, j: nat)
    requires j <= |p|
    requires forall k :: j <= k < |p| ==> p[k].value < e.value
    requires j == 0 || p[j - 1].value >= e.value
    ensures Insert(p, e) == p[..j] + [e] + p[j..]
  {
    if j < |p| {
      var init := p[..|p| - 1];
      InsertAt(init, e, j);
      assert init[..j] == p[..j];
      assert init[j..] + [p[|p| - 1]] == p[j..];
    } else {
      assert p[..j] == p;
    }
  }

  /**
   * The inner loop of one insertion step: moves the entries of `a[..i]`
   * that are smaller than `x`, found from the right, one slot right, and
   * returns the slot `j` they leave free.
   */
  method ShiftSmaller(a: array<Entry>, i: nat, x: Entry) returns (j: nat)
    requires i < a.Length
    modifies a
    ensures j <= i
    ensures forall k :: 0 <= k < j ==> a[k] == old(a[k])
    ensures forall k :: j < k <= i ==> a[k] == old(a[k - 1])
    ensures forall k :: i < k < a.Length ==> a[k] == old(a[k])
    ensures forall k :: j <= k < i ==> old(a[k]).value < x.value
    ensures j == 0 || old(a[j - 1]).value >= x.value
  {
    j := i;
    while j > 0 && a[j - 1].value < x.value
      invariant 0 <= j <= i
      invariant forall k :: 0 <= k < j ==> a[k] == old(a[k])
      invariant forall k :: j < k <= i ==> a[k] == old(a[k - 1])
      invariant forall k :: i < k < a.Length ==> a[k] == old(a[k])
      invariant forall k :: j <= k < i ==> old(a[k]).value < x.value
    {
      a[j] := a[j - 1];
      j := j - 1;
    }
  }

  /**
   * One step of the in-place sort: shifts the entries of the sorted prefix
   * `a[..i]` that are smaller than `a[i]` one slot right and drops `a[i]`
   * into the gap.
   */
  method InsertNext(a: array<Entry>, i: nat)
    requires i < a.Length
    modifies a
    ensures a[..i + 1] == Insert(old(a[..i]), old(a[i]))
    ensures a[i + 1..] == old(a[i + 1..])
  {
    ghost var p := a[..i];
    ghost var rest := a[i + 1..];
    var x := a[i];
    var j := ShiftSmaller(a, i, x);
    a[j] := x;
    assert a[..i + 1] == p[..j] + [x] + p[j..] by {
      forall k | 0 <= k <= i ensures a[k] == (p[..j] + [x] + p[j..])[k] {
      }
    }
    assert Insert(p, x) == p[..j] + [x] + p[j..] by {
      InsertAt(p, x, j);
    }
    assert a[i + 1..] == rest by {
      forall k | 0 <= k < |rest| ensures a[i + 1..][k] == rest[k] {
        assert a[i + 1 + k] == old(a[i + 1 + k]);
      }
    }
  }

  /** The in-place `arr.sort((a, b) => b.value - a.value)` as a stable insertion sort. */
  method SortByValueDesc(a: array<Entry>)
    modifies a
    ensures a[..] == SortDesc(old(a[..]))
  {
    ghost var s := a[..];
    for i := 0 to a.Length
      invariant a[..i] == SortDesc(s[..i])
      invariant a[i..] == s[i..]
    {
      ghost var x := a[i];
      assert s[..i + 1][..i] == s[..i] && s[..i + 1][i] == x;
      InsertNext(a, i);
      assert a[..i + 1] == SortDesc(s[..i + 1]);
    }
    assert s[..a.Length] == s;
  }

  /** A permutation of the entries of a well-formed table holds each key once, with its count. */
  lemma EntriesPerKey(t: Table, r: seq<Entry>)
    requires WellFormed(t)
    requires multiset(r) == multiset(Entries(t))
    ensures |r| == |t.keys|
    ensures forall i :: 0 <= i < |r| ==> r[i].key in t.counts && r[i].value == t.counts[r[i].key]
    ensures NoDuplicateKeys(r, EntryKey)
    ensures forall k :: k in t.counts ==> 0 <= FindIndex(r, EntryKey, k)
  {
    var es := Entries(t);
    assert |r| == |multiset(r)| == |multiset(es)| == |es|;
    forall i | 0 <= i < |r| ensures r[i].key in t.counts && r[i].value == t.counts[r[i].key] {
      assert r[i] in multiset(es);
    }
    assert NoDuplicates(es) by {
      forall i, j | 0 <= i < j < |es| ensures es[i] != es[j] {
        assert es[i].key == t.keys[i];
      }
    }
    SubMultisetNoDuplicates(r, es);
    forall i, j | 0 <= i < j < |r| ensures EntryKey(r[i]) != EntryKey(r[j]) {
      assert r[i] != r[j];
    }
    forall k | k in t.counts ensures 0 <= FindIndex(r, EntryKey, k) {
      var j :| 0 <= j < |t.keys| && t.keys[j] == k;
      assert es[j] in multiset(r);
      var i :| 0 <= i < |r| && r[i] == es[j];
      assert EntryKey(r[i]) == k;
    }
  }

  /**
   * `sortFrequencies(freqObj)`: lists the table's entries in key order, then
   * sorts that list in place by descending count.
   */
  method SortFrequencies(t: Table) returns (r: seq<Entry>)
    requires WellFormed(t)
    ensures r == SortDesc(Entries(t))
    ensures NonIncreasing(r)
    ensures multiset(r) == multiset(Entries(t))
    ensures forall v :: WithValue(r, v) == WithValue(Entries(t), v)
    ensures |r| == |t.keys|
    ensures forall i :: 0 <= i < |r| ==> r[i].key in t.counts && r[i].value == t.counts[r[i].key]
    ensures NoDuplicateKeys(r, EntryKey)
    ensures forall k :: k in t.counts ==> 0 <= FindIndex(r, EntryKey, k)
  {
    var a := new Entry[|t.keys|];
    for i := 0 to |t.keys|
      invariant a[..i] == Entries(t)[..i]
    {
      var key := t.keys[i];
      a[i] := Entry(key, t.counts[key]);
    }
    assert a[..] == Entries(t);
    SortByValueDesc(a);
    r := a[..];
    SortDescCorrect(Entries(t));
    EntriesPerKey(t, r);
  }

  // ---------------------------------------------------------------------------
  // getRandomElements
  // ---------------------------------------------------------------------------

  /**
   * `getRandomElements(array, count)`: reorders the caller's array in place
   * (a sort with a random comparator, which yields some permutation) and
   * returns its first `count` elements.
   */
  method GetRandomElements<T>(a: array<T>, count: nat) returns (r: seq<T>)
    modifies a
    ensures multiset(a[..]) == multiset(old(a[..]))
    ensures r == a[..Min(count, a.Length)]
    ensures |r| == Min(count, a.Length)
    ensures multiset(r) <= multiset(old(a[..]))
  {
    var i := 0;
    while i < a.Length
      invariant 0 <= i <= a.Length
      invariant multiset(a[..]) == multiset(old(a[..]))
    {
      var j :| i <= j < a.Length;
      a[i], a[j] := a[j], a[i];
      i := i + 1;
    }
    r := JsSlice(a[..], 0, count);
    assert a[..] == r + a[Min(count, a.Length)..];
  }
}
