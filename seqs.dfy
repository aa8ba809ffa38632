/** Stream idioms over sequences: `distinct()` keeps the first occurrence of each element. */
module Seqs {
  import opened Wrappers

  predicate NoDuplicates<T(==)>(xs: seq<T>) {
    forall i, j :: 0 <= i < j < |xs| ==> xs[i] != xs[j]
  }

  /** The position of the first occurrence of `x`. */
  function FirstIndex<T(==)>(xs: seq<T>, x: T): (k: nat)
    requires x in xs
    ensures k < |xs| && xs[k] == x && x !in xs[..k]
  {
    if xs[0] == x then 0
    else
      var k := FirstIndex(xs[1..], x);
      assert xs[..k + 1] == [xs[0]] + xs[1..][..k];
      k + 1
  }

  /** Stream.distinct() on an ordered stream. */
  function Distinct<T(==,!new)>(xs: seq<T>): (r: seq<T>)
    ensures forall x :: x in r <==> x in xs
    ensures NoDuplicates(r)
    decreases |xs|
  {
    if xs == [] then []
    else
      var init := xs[..|xs| - 1];
      var last := xs[|xs| - 1];
      var r := Distinct(init);
      assert forall x :: x in xs <==> x in init || x == last;
      if last in r then r else r + [last]
  }

  lemma {:induction false} FirstIndexOfPrefix<T>(xs: seq<T>, n: nat, x: T)
    requires n <= |xs| && x in xs[..n]
    ensures FirstIndex(xs, x) == FirstIndex(xs[..n], x)
    decreases |xs|
  {
    if xs[0] != x {
      assert xs[1..][..n - 1] == xs[..n][1..];
      FirstIndexOfPrefix(xs[1..], n - 1, x);
    }
  }

  /** distinct() keeps the elements in the order of their first occurrence. */
  lemma {:induction false} DistinctKeepsFirstOccurrenceOrder<T(!new)>(xs: seq<T>)
    ensures forall i, j :: 0 <= i < j < |Distinct(xs)| ==>
              FirstIndex(xs, Distinct(xs)[i]) < FirstIndex(xs, Distinct(xs)[j])
    decreases |xs|
  {
    if xs != [] {
      var n := |xs| - 1;
      var init := xs[..n];
      var last := xs[n];
      var r0 := Distinct(init);
      DistinctKeepsFirstOccurrenceOrder(init);
      forall x | x in r0 ensures FirstIndex(xs, x) == FirstIndex(init, x) && FirstIndex(init, x) < n {
        FirstIndexOfPrefix(xs, n, x);
      }
      if last !in r0 {
        assert last !in init;
        assert xs[..n] == init;
        assert FirstIndex(xs, last) == n;
      }
    }
  }

  /** A sequence that already has no duplicates is left as it is. */
  lemma {:induction false} DistinctOfNoDuplicates<T(!new)>(xs: seq<T>)
    requires NoDuplicates(xs)
    ensures Distinct(xs) == xs
    decreases |xs|
  {
    if xs != [] {
      var init := xs[..|xs| - 1];
      DistinctOfNoDuplicates(init);
      assert xs[|xs| - 1] !in init;
      assert init + [xs[|xs| - 1]] == xs;
    }
  }

  /** Stream.filter: the elements `keep` accepts, in their order. */
  function Filter<T(!new)>(xs: seq<T>, keep: T -> bool): (r: seq<T>)
    ensures |r| <= |xs|
    ensures forall x :: x in r <==> x in xs && keep(x)
  {
    if xs == [] then []
    else (if keep(xs[0]) then [xs[0]] else []) + Filter(xs[1..], keep)
  }

  /** Filtering keeps the elements it lets through in the order of their first occurrence. */
  lemma {:induction false} FilterKeepsFirstOccurrenceOrder<T(!new)>(xs: seq<T>, keep: T -> bool, x: T, y: T)
    requires x in Filter(xs, keep) && y in Filter(xs, keep)
    requires FirstIndex(Filter(xs, keep), x) < FirstIndex(Filter(xs, keep), y)
    ensures FirstIndex(xs, x) < FirstIndex(xs, y)
    decreases |xs|
  {
    var r := Filter(xs, keep);
    var t := Filter(xs[1..], keep);
    if keep(xs[0]) {
      assert r == [xs[0]] + t && r[1..] == t;
      if x != xs[0] {
        assert y != xs[0];
        FilterKeepsFirstOccurrenceOrder(xs[1..], keep, x, y);
      }
    } else {
      assert r == t;
      FilterKeepsFirstOccurrenceOrder(xs[1..], keep, x, y);
    }
  }

  /** A filter that keeps every element changes nothing. */
  lemma {:induction false} FilterKeepsAll<T(!new)>(xs: seq<T>, keep: T -> bool)
    requires forall i :: 0 <= i < |xs| ==> keep(xs[i])
    ensures Filter(xs, keep) == xs
    decreases |xs|
  {
    if xs != [] {
      FilterKeepsAll(xs[1..], keep);
    }
  }

  /** In a list without duplicates, a filter that refuses exactly one present element removes
      just that element and keeps the rest in order. */
  lemma {:induction false} FilterOutOne<T(!new)>(xs: seq<T>, x: T, keep: T -> bool)
    requires NoDuplicates(xs) && x in xs
    requires forall y :: keep(y) <==> y != x
    ensures Filter(xs, keep) == xs[..FirstIndex(xs, x)] + xs[FirstIndex(xs, x) + 1..]
    decreases |xs|
  {
    var k := FirstIndex(xs, x);
    if xs[0] == x {
      FilterKeepsAll(xs[1..], keep);
      assert xs[..k] == [] && xs[k + 1..] == xs[1..];
    } else {
      var tail := xs[1..];
      assert x in tail && NoDuplicates(tail);
      assert k == FirstIndex(tail, x) + 1;
      FilterOutOne(tail, x, keep);
      assert Filter(xs, keep) == [xs[0]] + Filter(tail, keep);
      var front, back := tail[..k - 1], tail[k..];
      assert xs[..k] == [xs[0]] + front;
      assert xs[k + 1..] == back;
      assert [xs[0]] + (front + back) == ([xs[0]] + front) + back;
    }
  }

  /** Stream.filter with a predicate that may throw (None): the kept elements, or None when the
      predicate throws on an element it reaches. */
  function FilterOrThrow<T>(xs: seq<T>, keep: T -> Option<bool>): Option<seq<T>> {
    if xs == [] then Some([])
    else
      match keep(xs[0])
      case None => None
      case Some(k) =>
        match FilterOrThrow(xs[1..], keep)
        case None => None
        case Some(rest) => Some((if k then [xs[0]] else []) + rest)
  }

  /** Elements the predicate keeps at the front pass through unchanged. */
  lemma {:induction false} FilterOrThrowKeepsPrefix<T>(xs: seq<T>, n: nat, keep: T -> Option<bool>)
    requires n <= |xs|
    requires forall i :: 0 <= i < n ==> keep(xs[i]) == Some(true)
    ensures FilterOrThrow(xs[n..], keep).None? ==> FilterOrThrow(xs, keep).None?
    ensures FilterOrThrow(xs[n..], keep).Some? ==> FilterOrThrow(xs, keep) == Some(xs[..n] + FilterOrThrow(xs[n..], keep).value)
    decreases n
  {
    if n == 0 {
      assert xs[0..] == xs;
      if FilterOrThrow(xs, keep).Some? {
        assert xs[..0] + FilterOrThrow(xs, keep).value == FilterOrThrow(xs, keep).value;
      }
    } else {
      assert xs[1..][n - 1..] == xs[n..];
      FilterOrThrowKeepsPrefix(xs[1..], n - 1, keep);
      if FilterOrThrow(xs[n..], keep).Some? {
        assert [xs[0]] + (xs[1..][..n - 1] + FilterOrThrow(xs[n..], keep).value) == xs[..n] + FilterOrThrow(xs[n..], keep).value;
      }
    }
  }

  /** The filter over two elements the predicate decides without throwing. */
  lemma FilterOrThrowPair<T>(xs: seq<T>, keep: T -> Option<bool>, a: bool, b: bool)
    requires |xs| == 2 && keep(xs[0]) == Some(a) && keep(xs[1]) == Some(b)
    ensures FilterOrThrow(xs, keep) == Some((if a then [xs[0]] else []) + (if b then [xs[1]] else []))
  {
    var tail := xs[1..];
    assert tail[0] == xs[1] && tail[1..] == [];
    assert FilterOrThrow(tail[1..], keep) == Some([]);
    var sb := if b then [xs[1]] else [];
    assert FilterOrThrow(tail, keep) == Some(sb + []);
    assert sb + [] == sb;
    assert FilterOrThrow(xs, keep) == Some((if a then [xs[0]] else []) + sb);
  }

  /** Applies `f` to every element in order and collects the results, stopping at the first
      failure. */
  function MapOrFail<T, U(==), E(==)>(xs: seq<T>, f: T -> Result<U, E>): (r: Result<seq<U>, E>)
    ensures r.Ok? <==> forall k :: 0 <= k < |xs| ==> f(xs[k]).Ok?
    ensures r.Ok? ==> |r.value| == |xs| && forall k :: 0 <= k < |xs| ==> f(xs[k]) == Ok(r.value[k])
    ensures r.Err? ==> exists k :: 0 <= k < |xs| && f(xs[k]) == Err(r.error)
                                   && forall j :: 0 <= j < k ==> f(xs[j]).Ok?
  {
    if xs == [] then Ok([])
    else
      match f(xs[0])
      case Err(e) => Err(e)
      case Ok(y) =>
        var rest := MapOrFail(xs[1..], f);
        assert forall k :: 1 <= k < |xs| ==> xs[k] == xs[1..][k - 1];
        if rest.Err? then
          var k :| 0 <= k < |xs[1..]| && f(xs[1..][k]) == Err(rest.error)
                   && forall j :: 0 <= j < k ==> f(xs[1..][j]).Ok?;
          assert f(xs[k + 1]) == Err(rest.error);
          Err(rest.error)
        else Ok([y] + rest.value)
  }

  /** When the first `i` results succeed and the next fails, the whole map fails with that
      failure. */
  lemma MapOrFailStops<T, U, E>(xs: seq<T>, f: T -> Result<U, E>, i: nat)
    requires i < |xs| && f(xs[i]).Err?
    requires forall k :: 0 <= k < i ==> f(xs[k]).Ok?
    ensures MapOrFail(xs, f) == Err(f(xs[i]).error)
  {
    var r := MapOrFail(xs, f);
    var k :| 0 <= k < |xs| && f(xs[k]) == Err(r.error) && forall j :: 0 <= j < k ==> f(xs[j]).Ok?;
    assert k == i;
  }

  /** One more successful result extends the successful prefix by its value. */
  lemma MapOrFailStep<T, U, E>(xs: seq<T>, f: T -> Result<U, E>, ys: seq<U>, i: nat)
    requires i < |xs| && |ys| == i && f(xs[i]).Ok?
    requires forall k :: 0 <= k < i ==> f(xs[k]) == Ok(ys[k])
    ensures forall k :: 0 <= k < i + 1 ==> f(xs[k]) == Ok((ys + [f(xs[i]).value])[k])
  {
    var next := ys + [f(xs[i]).value];
    forall k | 0 <= k < i + 1 ensures f(xs[k]) == Ok(next[k]) {
      if k < i {
        assert next[k] == ys[k];
      }
    }
  }

  /** When every result succeeds, the map holds them in order. */
  lemma MapOrFailAllOk<T, U, E>(xs: seq<T>, f: T -> Result<U, E>, ys: seq<U>)
    requires |ys| == |xs| && forall k :: 0 <= k < |xs| ==> f(xs[k]) == Ok(ys[k])
    ensures MapOrFail(xs, f) == Ok(ys)
  {
    var r := MapOrFail(xs, f);
    assert r.Ok?;
    assert forall k :: 0 <= k < |xs| ==> r.value[k] == ys[k];
    assert r.value == ys;
  }
}
