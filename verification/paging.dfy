/**
 * `fetchAll` in src/helper.js: the paging driver that asks the service for
 * fixed windows of 50 items, one after the other, and concatenates the
 * pages; and the id batches `fetchArtistsDetails` sends through it.
 */
module Paging {
  import opened Wrappers
  import opened Sequences

  const PageSize: nat := 50

  /** The `(offset, limit)` pair handed to the page function. */
  datatype Window = Window(offset: nat, limit: nat)

  /** `Math.ceil(total / 50)`: the fewest pages of 50 that hold `total` items. */
  function PageCount(total: nat): (n: nat)
    ensures n * PageSize >= total
    ensures n == 0 || (n - 1) * PageSize < total
  {
    (total + PageSize - 1) / PageSize
  }

  /** The windows `fetchAll` requests, in call order: call `i` gets `(i * 50, 50)`. */
  function Windows(total: nat): (ws: seq<Window>)
    ensures |ws| == PageCount(total)
  {
    seq(PageCount(total), i requires 0 <= i < PageCount(total) => Window(i * PageSize, PageSize))
  }

  /**
   * The windows start strictly increasing and never overlap, each starts
   * inside `[0, total)`, and every index below `total` lies in the window
   * numbered `x / 50`.
   */
  lemma WindowsPartition(total: nat)
    ensures forall i, j :: 0 <= i < j < |Windows(total)| ==>
      Windows(total)[i].offset + Windows(total)[i].limit <= Windows(total)[j].offset
    ensures forall i :: 0 <= i < |Windows(total)| ==> Windows(total)[i].offset < total
    ensures forall x :: 0 <= x < total ==>
      x / PageSize < |Windows(total)| &&
      Windows(total)[x / PageSize].offset <= x < Windows(total)[x / PageSize].offset + Windows(total)[x / PageSize].limit
  {
    var ws := Windows(total);
    forall i | 0 <= i < |ws| ensures ws[i].offset < total {
      assert i * PageSize <= (|ws| - 1) * PageSize;
    }
    forall x | 0 <= x < total
      ensures x / PageSize < |ws| && ws[x / PageSize].offset <= x < ws[x / PageSize].offset + ws[x / PageSize].limit
    {
      var q := x / PageSize;
      assert q * PageSize <= x < q * PageSize + PageSize;
    }
  }

  /** A total of 120 asks for the windows at offsets 0, 50 and 100, each with limit 50. */
  lemma WindowsOf120()
    ensures Windows(120) == [Window(0, 50), Window(50, 50), Window(100, 50)]
  {
  }

  /**
   * The result of issuing `call` on each request in order: the first
   * rejection is the result, otherwise the pages concatenated in call order.
   */
  function Sequential<Q, T, E>(qs: seq<Q>, call: Q -> Result<seq<T>, E>): (r: Result<seq<T>, E>)
    ensures r.Success? ==> forall i :: 0 <= i < |qs| ==> call(qs[i]).Success?
    ensures qs != [] && call(qs[0]).Failure? ==> r == Failure(call(qs[0]).error)
  {
    assert forall i :: 1 <= i < |qs| ==> qs[1..][i - 1] == qs[i];
    if qs == [] then Success([])
    else match call(qs[0])
      case Failure(e) => Failure(e)
      case Success(page) =>
        match Sequential(qs[1..], call)
        case Failure(e) => Failure(e)
        case Success(rest) => Success(page + rest)
  }

  /** Runs `first`, then `second` unless `first` failed. */
  function Chain<T, E>(first: Result<seq<T>, E>, second: Result<seq<T>, E>): Result<seq<T>, E>
  {
    match first
    case Failure(e) => Failure(e)
    case Success(a) =>
      match second
      case Failure(e) => Failure(e)
      case Success(b) => Success(a + b)
  }

  /** Running two request lists back to back is running their concatenation. */
  lemma {:induction false} SequentialAppend<Q, T, E>(a: seq<Q>, b: seq<Q>, call: Q -> Result<seq<T>, E>)
    ensures Sequential(a + b, call) == Chain(Sequential(a, call), Sequential(b, call))
  {
    if a == [] {
      assert a + b == b;
      match Sequential(b, call) {
        case Failure(e) =>
        case Success(r) => assert [] + r == r;
      }
    } else {
      assert (a + b)[1..] == a[1..] + b;
      SequentialAppend(a[1..], b, call);
      match call(a[0]) {
        case Failure(e) =>
        case Success(p) =>
          match Sequential(a[1..], call) {
            case Failure(e) =>
            case Success(r1) =>
              match Sequential(b, call) {
                case Failure(e) =>
                case Success(r2) => assert p + (r1 + r2) == (p + r1) + r2;
              }
          }
      }
    }
  }

  lemma SequentialSingle<Q, T, E>(q: Q, call: Q -> Result<seq<T>, E>)
    ensures Sequential([q], call) == call(q)
  {
    assert [q][1..] == [];
    match call(q) {
      case Failure(e) =>
      case Success(p) => assert p + [] == p;
    }
  }

  /**
   * Sequential calls succeed exactly when every call succeeds, and then
   * yield the pages in call order; otherwise they fail with the error of the
   * first call that failed.
   */
  lemma {:induction false} SequentialFacts<Q, T, E>(qs: seq<Q>, call: Q -> Result<seq<T>, E>)
    ensures Sequential(qs, call).Success? <==> forall i :: 0 <= i < |qs| ==> call(qs[i]).Success?
    ensures Sequential(qs, call).Success? ==>
      Sequential(qs, call).value == Flatten(seq(|qs|, i requires 0 <= i < |qs| => call(qs[i]).value))
    ensures Sequential(qs, call).Failure? ==>
      exists f :: 0 <= f < |qs| && call(qs[f]) == Failure(Sequential(qs, call).error)
        && forall i :: 0 <= i < f ==> call(qs[i]).Success?
  {
    if qs != [] {
      SequentialFacts(qs[1..], call);
      assert forall i :: 1 <= i < |qs| ==> qs[1..][i - 1] == qs[i];
      match call(qs[0]) {
        case Failure(e) =>
          assert call(qs[0]) == Failure(Sequential(qs, call).error);
        case Success(p) =>
          if Sequential(qs[1..], call).Success? {
            var pages := seq(|qs|, i requires 0 <= i < |qs| => call(qs[i]).value);
            assert pages[1..] == seq(|qs[1..]|, i requires 0 <= i < |qs[1..]| => call(qs[1..][i]).value);
          } else {
            var f :| 0 <= f < |qs[1..]| && call(qs[1..][f]) == Failure(Sequential(qs[1..], call).error)
              && forall i :: 0 <= i < f ==> call(qs[1..][i]).Success?;
            assert call(qs[f + 1]) == Failure(Sequential(qs, call).error);
            assert forall i :: 0 <= i < f + 1 ==> call(qs[i]).Success?;
          }
      }
    }
  }

  /**
   * `fetchAll(total, fetchFunction)`: `ceil(total / 50)` calls, one after
   * the other, call `i` with `(i * 50, 50)`, each page appended to `data`.
   * A rejected call rejects the whole fetch at once and no later window is
   * requested. `requested` records the windows asked for, in order.
   */
  method FetchAll<T, E>(total: nat, fetch: Window -> Result<seq<T>, E>)
    returns (res: Result<seq<T>, E>, ghost requested: seq<Window>)
    ensures res == Sequential(Windows(total), fetch)
    ensures requested <= Windows(total)
    ensures forall i :: 0 <= i < |requested| - 1 ==> fetch(requested[i]).Success?
    ensures res.Success? ==> requested == Windows(total)
    ensures res.Failure? ==> |requested| > 0 && fetch(requested[|requested| - 1]) == Failure(res.error)
    ensures total == 0 ==> requested == [] && res == Success([])
  {
    var data: seq<T> := [];
    requested := [];
    var loopTotal := PageCount(total);
    var i := 0;
    while i < loopTotal
      invariant 0 <= i <= loopTotal
      invariant requested == Windows(total)[..i]
      invariant forall k :: 0 <= k < i ==> fetch(requested[k]).Success?
      invariant Sequential(Windows(total)[..i], fetch) == Success(data)
    {
      var w := Window(i * PageSize, PageSize);
      assert Windows(total)[..i + 1] == Windows(total)[..i] + [w];
      SequentialAppend(Windows(total)[..i], [w], fetch);
      SequentialSingle(w, fetch);
      requested := requested + [w];
      var dataSlice := fetch(w);
      if dataSlice.Failure? {
        res := Failure(dataSlice.error);
        assert Windows(total) == Windows(total)[..i + 1] + Windows(total)[i + 1..];
        SequentialAppend(Windows(total)[..i + 1], Windows(total)[i + 1..], fetch);
        return;
      }
      data := data + dataSlice.value;
      i := i + 1;
    }
    assert Windows(total)[..i] == Windows(total);
    res := Success(data);
  }

  /** Items left for the windows from number `i` on. */
  function Remaining(total: nat, i: nat): nat
  {
    if i * PageSize >= total then 0 else total - i * PageSize
  }

  lemma {:induction false} FetchSuffixLength<T, E>(total: nat, fetch: Window -> Result<seq<T>, E>, i: nat)
    requires i <= PageCount(total)
    requires forall k :: 0 <= k < PageCount(total) ==>
      fetch(Window(k * PageSize, PageSize)).Success? &&
      |fetch(Window(k * PageSize, PageSize)).value| == Min(PageSize, total - k * PageSize)
    ensures Sequential(Windows(total)[i..], fetch).Success?
    ensures |Sequential(Windows(total)[i..], fetch).value| == Remaining(total, i)
    decreases PageCount(total) - i
  {
    var ws := Windows(total);
    if i < PageCount(total) {
      FetchSuffixLength(total, fetch, i + 1);
      assert ws[i..][1..] == ws[i + 1..];
      assert ws[i..][0] == Window(i * PageSize, PageSize);
      if i + 1 == PageCount(total) {
        assert (i + 1) * PageSize >= total;
      }
    } else {
      assert i * PageSize >= total;
    }
  }

  /**
   * When the service returns full pages of the remaining items, the fetch
   * succeeds with exactly `total` items (for 120 items: 50, 50 and 20).
   */
  lemma FetchAllLength<T, E>(total: nat, fetch: Window -> Result<seq<T>, E>)
    requires forall k :: 0 <= k < PageCount(total) ==>
      fetch(Window(k * PageSize, PageSize)).Success? &&
      |fetch(Window(k * PageSize, PageSize)).value| == Min(PageSize, total - k * PageSize)
    ensures Sequential(Windows(total), fetch).Success?
    ensures |Sequential(Windows(total), fetch).value| == total
  {
    FetchSuffixLength(total, fetch, 0);
    assert Windows(total)[0..] == Windows(total);
  }

  /** `s.slice(offset, offset + limit)` for each window: the batches `fetchArtistsDetails` sends. */
  function Batches<T>(s: seq<T>): (bs: seq<seq<T>>)
    ensures |bs| == PageCount(|s|)
    ensures forall i :: 0 <= i < |bs| ==> |bs[i]| <= PageSize
  {
    seq(PageCount(|s|), i requires 0 <= i < PageCount(|s|) => JsSlice(s, i * PageSize, i * PageSize + PageSize))
  }

  lemma {:induction false} BatchesSuffix<T>(s: seq<T>, i: nat)
    requires i <= PageCount(|s|)
    ensures Flatten(Batches(s)[i..]) == s[Min(i * PageSize, |s|)..]
    decreases PageCount(|s|) - i
  {
    var bs := Batches(s);
    if i < PageCount(|s|) {
      var lo, hi := i * PageSize, Min(i * PageSize + PageSize, |s|);
      assert lo < |s|;
      assert (i + 1) * PageSize == lo + PageSize;
      BatchesSuffix(s, i + 1);
      assert Flatten(bs[i..]) == bs[i] + Flatten(bs[i + 1..]) by {
        assert bs[i..][1..] == bs[i + 1..];
      }
      assert bs[i] == s[lo..hi];
      assert s[lo..] == s[lo..hi] + s[hi..];
    } else {
      assert i * PageSize >= |s|;
    }
  }

  /**
   * The batches hold between 1 and 50 ids each and, concatenated, give back
   * the whole list in order.
   */
  lemma BatchesPartition<T>(s: seq<T>)
    ensures forall i :: 0 <= i < |Batches(s)| ==> 0 < |Batches(s)[i]| <= PageSize
    ensures Flatten(Batches(s)) == s
  {
    var bs := Batches(s);
    forall i | 0 <= i < |bs| ensures 0 < |bs[i]| <= PageSize {
      assert i * PageSize < |s|;
    }
    BatchesSuffix(s, 0);
    assert bs[0..] == bs;
  }
}
