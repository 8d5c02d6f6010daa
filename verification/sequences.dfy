/**
 * The array primitives the playlist tool is built from: `findIndex`, the
 * `filter`/`findIndex` idiom that keeps the first element of each key,
 * `map`, `flat` and `slice`, each stated over Dafny sequences.
 */
module Sequences {

  function Min(a: int, b: int): int { if a <= b then a else b }

  function Identity<T>(x: T): T { x }

  /** `s.slice(start, end)` for non-negative bounds: both bounds are clamped to the length. */
  function JsSlice<T>(s: seq<T>, start: nat, end: nat): (r: seq<T>)
    ensures Min(end, |s|) <= start ==> r == []
    ensures start < Min(end, |s|) ==> |r| == Min(end, |s|) - start
    ensures forall i :: 0 <= i < |r| ==> r[i] == s[start + i]
  {
    var lo := Min(start, |s|);
    var hi := Min(end, |s|);
    if lo < hi then s[lo..hi] else []
  }

  /** `s.map(f)` */
  function Map<A, B>(s: seq<A>, f: A -> B): (r: seq<B>)
    ensures |r| == |s|
    ensures forall i :: 0 <= i < |s| ==> r[i] == f(s[i])
  {
    seq(|s|, i requires 0 <= i < |s| => f(s[i]))
  }

  /** Mapping a slice is slicing the mapped list. */
  lemma MapSlice<A, B>(s: seq<A>, f: A -> B, start: nat, end: nat)
    ensures Map(JsSlice(s, start, end), f) == JsSlice(Map(s, f), start, end)
  {
  }

  /** `ss.flat()`: the lists one after the other. */
  function Flatten<T>(ss: seq<seq<T>>): (r: seq<T>)
    ensures |r| == SumLengths(ss)
  {
    if ss == [] then [] else ss[0] + Flatten(ss[1..])
  }

  function SumLengths<T>(ss: seq<seq<T>>): nat
  {
    if ss == [] then 0 else |ss[0]| + SumLengths(ss[1..])
  }

  /** Flattening keeps the outer order, then the inner order: it turns `+` into `+`. */
  lemma {:induction false} FlattenAppend<T>(a: seq<seq<T>>, b: seq<seq<T>>)
    ensures Flatten(a + b) == Flatten(a) + Flatten(b)
  {
    if a == [] {
      assert a + b == b;
    } else {
      assert (a + b)[1..] == a[1..] + b;
      FlattenAppend(a[1..], b);
    }
  }

  /** A value occurs in the flattened list exactly when it occurs in one of the inner lists. */
  lemma {:induction false} FlattenMember<T>(ss: seq<seq<T>>, x: T)
    ensures x in Flatten(ss) <==> exists i :: 0 <= i < |ss| && x in ss[i]
  {
    if ss != [] {
      FlattenMember(ss[1..], x);
      assert Flatten(ss) == ss[0] + Flatten(ss[1..]);
      if x in Flatten(ss[1..]) {
        var i :| 0 <= i < |ss[1..]| && x in ss[1..][i];
        assert x in ss[i + 1];
      }
      if exists i :: 0 <= i < |ss| && x in ss[i] {
        var i :| 0 <= i < |ss| && x in ss[i];
        if i > 0 {
          assert x in ss[1..][i - 1];
        }
      }
    }
  }

  /**
   * `s.findIndex(o => key(o) === k)`: the first position whose key is `k`,
   * or -1 when there is none.
   */
  function FindIndex<T, K(==)>(s: seq<T>, key: T -> K, k: K): (r: int)
    ensures -1 <= r < |s|
    ensures 0 <= r ==> key(s[r]) == k
    ensures forall i :: 0 <= i < |s| && key(s[i]) == k ==> 0 <= r <= i
  {
    if s == [] then -1
    else if key(s[0]) == k then 0
    else
      var r := FindIndex(s[1..], key, k);
      assert forall i :: 1 <= i < |s| ==> s[i] == s[1..][i - 1];
      if r < 0 then -1 else r + 1
  }

  /** Appending an element does not move a key's first position; it only adds the new one. */
  lemma FindIndexSnoc<T, K>(s: seq<T>, x: T, key: T -> K, k: K)
    ensures FindIndex(s + [x], key, k)
         == if 0 <= FindIndex(s, key, k) then FindIndex(s, key, k)
            else if key(x) == k then |s| else -1
  {
    var t := s + [x];
    var r, r' := FindIndex(s, key, k), FindIndex(t, key, k);
    assert forall i :: 0 <= i < |s| ==> t[i] == s[i];
    if 0 <= r {
      assert key(t[r]) == k;
    } else if key(x) == k {
      assert key(t[|s|]) == k;
    }
  }

  /** With the identity key, `findIndex` fails exactly on values absent from the list. */
  lemma FindIndexIdentity<T>(s: seq<T>, v: T)
    ensures FindIndex(s, Identity, v) == -1 <==> v !in s
  {
    if v in s {
      var i :| 0 <= i < |s| && s[i] == v;
      assert Identity(s[i]) == v;
    }
  }

  /** The filter of `DistinctBy` restricted to the positions below `n`. */
  function FirstsBelow<T, K(==)>(s: seq<T>, key: T -> K, n: nat): (r: seq<T>)
    requires n <= |s|
    ensures |r| <= n
  {
    if n == 0 then []
    else FirstsBelow(s, key, n - 1) + (if FindIndex(s, key, key(s[n - 1])) == n - 1 then [s[n - 1]] else [])
  }

  /**
   * `s.filter((v, i, arr) => arr.findIndex(o => key(o) === key(v)) === i)`:
   * keep each element whose key first occurs at its own position.
   */
  function DistinctBy<T, K(==)>(s: seq<T>, key: T -> K): (r: seq<T>)
    ensures |r| <= |s|
  {
    FirstsBelow(s, key, |s|)
  }

  /** First-seen deduplication by equality (`arr.findIndex(o => o === v) === i`). */
  function Distinct<T(==)>(s: seq<T>): (r: seq<T>)
    ensures |r| <= |s|
  {
    DistinctBy(s, Identity)
  }

  ghost predicate NoDuplicateKeys<T, K>(r: seq<T>, key: T -> K)
  {
    forall i, j :: 0 <= i < j < |r| ==> key(r[i]) != key(r[j])
  }

  ghost predicate NoDuplicates<T>(r: seq<T>)
  {
    forall i, j :: 0 <= i < j < |r| ==> r[i] != r[j]
  }

  /** Each element of `r` is the first element of `s` with its key. */
  ghost predicate AreFirsts<T, K>(s: seq<T>, key: T -> K, r: seq<T>)
  {
    forall i :: 0 <= i < |r| ==>
      0 <= FindIndex(s, key, key(r[i])) && r[i] == s[FindIndex(s, key, key(r[i]))]
  }

  /** The elements of `r` come in the order of their keys' first positions in `s`. */
  ghost predicate InFirstSeenOrder<T, K>(s: seq<T>, key: T -> K, r: seq<T>)
  {
    forall i, j :: 0 <= i < j < |r| ==>
      FindIndex(s, key, key(r[i])) < FindIndex(s, key, key(r[j]))
  }

  /** Every key occurring in `s` is the key of some element of `r`. */
  ghost predicate CoversKeys<T, K>(s: seq<T>, key: T -> K, r: seq<T>)
  {
    forall j :: 0 <= j < |s| ==> 0 <= FindIndex(r, key, key(s[j]))
  }

  /**
   * `r` holds, for every key occurring in `s`, the first element of `s` with
   * that key, and lists them in the order of those first positions.
   */
  ghost predicate FirstOccurrences<T, K>(s: seq<T>, key: T -> K, r: seq<T>)
  {
    AreFirsts(s, key, r) && InFirstSeenOrder(s, key, r) && CoversKeys(s, key, r)
  }

  lemma {:induction false} FirstsBelowSnoc<T, K>(s: seq<T>, x: T, key: T -> K, n: nat)
    requires n <= |s|
    ensures FirstsBelow(s + [x], key, n) == FirstsBelow(s, key, n)
  {
    if n > 0 {
      FirstsBelowSnoc(s, x, key, n - 1);
      assert (s + [x])[n - 1] == s[n - 1];
      FindIndexSnoc(s, x, key, key(s[n - 1]));
    }
  }

  /** Deduplicating one more element appends it exactly when its key is new. */
  lemma DistinctBySnoc<T, K>(s: seq<T>, x: T, key: T -> K)
    ensures DistinctBy(s + [x], key)
         == DistinctBy(s, key) + (if FindIndex(s, key, key(x)) == -1 then [x] else [])
  {
    var t := s + [x];
    assert FirstsBelow(t, key, |s|) == FirstsBelow(s, key, |s|) by {
      FirstsBelowSnoc(s, x, key, |s|);
    }
    assert FindIndex(t, key, key(x)) == |s| <==> FindIndex(s, key, key(x)) == -1 by {
      FindIndexSnoc(s, x, key, key(x));
    }
    assert t[|s|] == x;
  }

  /** Deduplicating one more value appends it exactly when it is new. */
  lemma DistinctSnoc<T>(s: seq<T>, x: T)
    ensures Distinct(s + [x]) == Distinct(s) + (if x in s then [] else [x])
  {
    FindIndexIdentity(s, x);
    DistinctBySnoc(s, x, Identity);
  }

  /** A new value appended to a sequence without repetitions keeps it without repetitions. */
  lemma NoDuplicatesSnoc<T>(s: seq<T>, x: T)
    requires NoDuplicates(s) && x !in s
    ensures NoDuplicates(s + [x])
  {
    var t := s + [x];
    forall i, j | 0 <= i < j < |t| ensures t[i] != t[j] {
      assert t[i] == s[i];
    }
  }

  lemma FindIndexSnocFound<T, K>(init: seq<T>, x: T, key: T -> K)
    ensures forall k :: 0 <= FindIndex(init, key, k) ==> FindIndex(init + [x], key, k) == FindIndex(init, key, k)
    ensures FindIndex(init + [x], key, key(x)) == if FindIndex(init, key, key(x)) == -1 then |init| else FindIndex(init, key, key(x))
  {
    forall k | 0 <= FindIndex(init, key, k)
      ensures FindIndex(init + [x], key, k) == FindIndex(init, key, k)
    {
      FindIndexSnoc(init, x, key, k);
    }
    FindIndexSnoc(init, x, key, key(x));
  }

  /** The new entry, if any, is the first occurrence of its key and comes after all earlier ones. */
  lemma FirstOccurrencesSnocPositions<T, K>(init: seq<T>, x: T, key: T -> K, r0: seq<T>, s: seq<T>, r: seq<T>)
    requires AreFirsts(init, key, r0) && InFirstSeenOrder(init, key, r0)
    requires s == init + [x]
    requires r == r0 + (if FindIndex(init, key, key(x)) == -1 then [x] else [])
    ensures AreFirsts(s, key, r) && InFirstSeenOrder(s, key, r)
  {
    FindIndexSnocFound(init, x, key);
    forall i | 0 <= i < |r|
      ensures 0 <= FindIndex(s, key, key(r[i])) && r[i] == s[FindIndex(s, key, key(r[i]))]
    {
      if i < |r0| {
        var p := FindIndex(init, key, key(r0[i]));
        assert 0 <= p && r0[i] == init[p];
        assert r[i] == r0[i] && s[p] == init[p];
      } else {
        assert FindIndex(init, key, key(x)) == -1;
        assert r[i] == x && s[|init|] == x;
      }
    }
    forall i, j | 0 <= i < j < |r|
      ensures FindIndex(s, key, key(r[i])) < FindIndex(s, key, key(r[j]))
    {
      assert r[i] == r0[i];
      assert 0 <= FindIndex(init, key, key(r0[i])) < |init|;
      if j < |r0| {
        assert r[j] == r0[j];
      } else {
        assert r[j] == x;
      }
    }
  }

  /** Every key of the extended input still has its entry. */
  lemma FirstOccurrencesSnocCover<T, K>(init: seq<T>, x: T, key: T -> K, r0: seq<T>, s: seq<T>, r: seq<T>)
    requires AreFirsts(init, key, r0) && CoversKeys(init, key, r0)
    requires s == init + [x]
    requires r == r0 + (if FindIndex(init, key, key(x)) == -1 then [x] else [])
    ensures CoversKeys(s, key, r)
  {
    forall j | 0 <= j < |s| ensures 0 <= FindIndex(r, key, key(s[j])) {
      var i: nat;
      if j < |init| {
        assert s[j] == init[j];
        i := FindIndex(r0, key, key(init[j]));
        assert r[i] == r0[i];
      } else if FindIndex(init, key, key(x)) == -1 {
        assert s[j] == x;
        i := |r0|;
      } else {
        assert s[j] == x;
        i := FindIndex(r0, key, key(init[FindIndex(init, key, key(x))]));
        assert r[i] == r0[i];
      }
      assert key(r[i]) == key(s[j]);
    }
  }

  /** Extending the input by one element extends its list of first occurrences as `DistinctBySnoc` does. */
  lemma FirstOccurrencesSnoc<T, K>(init: seq<T>, x: T, key: T -> K, r0: seq<T>)
    requires FirstOccurrences(init, key, r0)
    ensures FirstOccurrences(init + [x], key,
                             r0 + (if FindIndex(init, key, key(x)) == -1 then [x] else []))
  {
    var s, r := init + [x], r0 + (if FindIndex(init, key, key(x)) == -1 then [x] else []);
    FirstOccurrencesSnocPositions(init, x, key, r0, s, r);
    FirstOccurrencesSnocCover(init, x, key, r0, s, r);
  }

  /** `DistinctBy` keeps exactly the first occurrence of every key, in first-seen order, and no key twice. */
  lemma {:induction false} DistinctByFacts<T, K>(s: seq<T>, key: T -> K)
    ensures FirstOccurrences(s, key, DistinctBy(s, key))
    ensures NoDuplicateKeys(DistinctBy(s, key), key)
  {
    var r := DistinctBy(s, key);
    if s != [] {
      var init, x := s[..|s| - 1], s[|s| - 1];
      assert s == init + [x];
      DistinctByFacts(init, key);
      DistinctBySnoc(init, x, key);
      FirstOccurrencesSnoc(init, x, key, DistinctBy(init, key));
    }
    forall i, j | 0 <= i < j < |r| ensures key(r[i]) != key(r[j]) {
      assert FindIndex(s, key, key(r[i])) < FindIndex(s, key, key(r[j]));
    }
  }

  /** A list whose keys are already distinct is left as it is. */
  lemma {:induction false} DistinctByOfDistinct<T, K>(t: seq<T>, key: T -> K)
    requires NoDuplicateKeys(t, key)
    ensures DistinctBy(t, key) == t
  {
    if t != [] {
      var init, x := t[..|t| - 1], t[|t| - 1];
      assert t == init + [x];
      DistinctByOfDistinct(init, key);
      DistinctBySnoc(init, x, key);
      forall i | 0 <= i < |init| ensures key(init[i]) != key(x) {
        assert init[i] == t[i];
      }
    }
  }

  /** Deduplicating twice is deduplicating once. */
  lemma DistinctByIdempotent<T, K>(s: seq<T>, key: T -> K)
    ensures DistinctBy(DistinctBy(s, key), key) == DistinctBy(s, key)
  {
    DistinctByFacts(s, key);
    DistinctByOfDistinct(DistinctBy(s, key), key);
  }

  /** `Distinct` by equality: a duplicate-free list of exactly the input's values, in first-seen order. */
  lemma DistinctFacts<T>(s: seq<T>)
    ensures NoDuplicates(Distinct(s))
    ensures forall v :: v in Distinct(s) <==> v in s
    ensures FirstOccurrences(s, Identity, Distinct(s))
  {
    var r := Distinct(s);
    DistinctByFacts(s, Identity);
    assert forall i :: 0 <= i < |r| ==> Identity(r[i]) == r[i];
    forall v | v in s ensures v in r {
      var j :| 0 <= j < |s| && s[j] == v;
      assert Identity(s[j]) == v;
    }
  }

  /** A sequence without repetitions holds each value at most once. */
  lemma {:induction false} NoDuplicatesCount<T>(s: seq<T>, v: T)
    requires NoDuplicates(s)
    ensures multiset(s)[v] <= 1
  {
    if s != [] {
      assert s == [s[0]] + s[1..];
      NoDuplicatesCount(s[1..], v);
      if s[0] == v {
        assert v !in s[1..];
      }
    }
  }

  /** Drawing without replacement from a list without repetitions yields no repetitions. */
  lemma SubMultisetNoDuplicates<T>(s: seq<T>, pool: seq<T>)
    requires NoDuplicates(pool)
    requires multiset(s) <= multiset(pool)
    ensures NoDuplicates(s)
  {
    forall i, j | 0 <= i < j < |s| ensures s[i] != s[j] {
      if s[i] == s[j] {
        assert s == s[..i] + [s[i]] + s[i + 1..j] + [s[j]] + s[j + 1..];
        assert multiset(s)[s[i]] >= 2;
        NoDuplicatesCount(pool, s[i]);
        assert false;
      }
    }
  }

  lemma MapAppend<A, B>(a: seq<A>, b: seq<A>, f: A -> B)
    ensures Map(a + b, f) == Map(a, f) + Map(b, f)
  {
  }

  /** Mapping every element keeps "drawn without replacement from". */
  lemma {:induction false} MapSubMultiset<A, B>(a: seq<A>, b: seq<A>, f: A -> B)
    requires multiset(a) <= multiset(b)
    ensures multiset(Map(a, f)) <= multiset(Map(b, f))
  {
    if a != [] {
      var x := a[0];
      assert a == [x] + a[1..];
      assert x in multiset(b);
      var k :| 0 <= k < |b| && b[k] == x;
      var front, back := b[..k], b[k + 1..];
      assert b == front + [x] + back;
      assert multiset(front + back) == multiset(b) - multiset{x};
      MapSubMultiset(a[1..], front + back, f);
      MapAppend([x], a[1..], f);
      MapAppend(front, [x], f);
      MapAppend(front + [x], back, f);
      MapAppend(front, back, f);
    }
  }
}
