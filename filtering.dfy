/** The pattern shared by both account listings: walk the accounts of the
    configuration in order, skip those a filter rejects, and compute a token
    for each of the others, stopping at the first computation that raises. */
module Filtering {

  import opened Common

  /** The elements of `xs` that `keep` accepts, in the order of `xs`. */
  function Kept<T>(xs: seq<T>, keep: T -> bool): (r: seq<T>)
    ensures |r| <= |xs|
  {
    if |xs| == 0 then []
    else
      var init, x := xs[..|xs| - 1], xs[|xs| - 1];
      if keep(x) then Kept(init, keep) + [x] else Kept(init, keep)
  }

  /** Looking at one more element keeps it or not. */
  lemma KeptStep<T>(xs: seq<T>, k: nat, keep: T -> bool)
    requires k < |xs|
    ensures Kept(xs[..k + 1], keep) == if keep(xs[k]) then Kept(xs[..k], keep) + [xs[k]] else Kept(xs[..k], keep)
  {
    assert xs[..k + 1][..k] == xs[..k];
  }

  /** What is kept is what `xs` holds and `keep` accepts. */
  lemma {:induction false} KeptMembers<T>(xs: seq<T>, keep: T -> bool, x: T)
    ensures x in Kept(xs, keep) <==> x in xs && keep(x)
  {
    if |xs| > 0 {
      var init := xs[..|xs| - 1];
      assert xs == init + [xs[|xs| - 1]];
      KeptMembers(init, keep, x);
    }
  }

  /** Filtering keeps the order: the kept elements of two runs follow each other. */
  lemma {:induction false} KeptAppend<T>(a: seq<T>, b: seq<T>, keep: T -> bool)
    ensures Kept(a + b, keep) == Kept(a, keep) + Kept(b, keep)
    decreases |b|
  {
    if |b| == 0 {
      assert a + b == a;
    } else {
      var init := b[..|b| - 1];
      KeptAppend(a, init, keep);
      assert (a + b)[..|a + b| - 1] == a + init;
    }
  }

  /** A filter that accepts everything keeps everything. */
  lemma {:induction false} KeptAll<T>(xs: seq<T>, keep: T -> bool)
    requires forall i :: 0 <= i < |xs| ==> keep(xs[i])
    ensures Kept(xs, keep) == xs
  {
    if |xs| > 0 {
      assert xs == xs[..|xs| - 1] + [xs[|xs| - 1]];
      KeptAll(xs[..|xs| - 1], keep);
    }
  }

  /** No element's computation raises. */
  predicate AllOk<T, U>(xs: seq<T>, f: T -> Result<U>) {
    forall i :: 0 <= i < |xs| ==> f(xs[i]).Ok?
  }

  /** The index of the first element whose computation raises, or the length
      of `xs` when none does. */
  function FirstFailure<T, U>(xs: seq<T>, f: T -> Result<U>): (j: nat)
    ensures j <= |xs|
    ensures forall i :: 0 <= i < j ==> f(xs[i]).Ok?
    ensures j < |xs| ==> f(xs[j]).Err?
  {
    if |xs| == 0 then 0
    else if f(xs[0]).Err? then 0
    else 1 + FirstFailure(xs[1..], f)
  }

  /** An index with the property of `FirstFailure` is the one it finds. */
  lemma FirstFailureIs<T, U>(xs: seq<T>, f: T -> Result<U>, j: nat)
    requires j <= |xs|
    requires forall i :: 0 <= i < j ==> f(xs[i]).Ok?
    requires j < |xs| ==> f(xs[j]).Err?
    ensures FirstFailure(xs, f) == j
  {
  }

  /** Stopping at a failure of the last element of `kept + [x]` is stopping
      at the same place among all the kept elements of a longer sequence. */
  lemma FailureInPrefix<T, U>(xs: seq<T>, k: nat, keep: T -> bool, f: T -> Result<U>)
    requires k < |xs| && keep(xs[k]) && f(xs[k]).Err?
    requires AllOk(Kept(xs[..k], keep), f)
    ensures FirstFailure(Kept(xs, keep), f) == |Kept(xs[..k], keep)|
    ensures var p := Kept(xs[..k], keep);
      |p| < |Kept(xs, keep)| && Kept(xs, keep)[..|p|] == p && Kept(xs, keep)[|p|] == xs[k]
  {
    var p := Kept(xs[..k], keep);
    assert xs[..k + 1][..k] == xs[..k];
    KeptAppend(xs[..k + 1], xs[k + 1..], keep);
    assert xs == xs[..k + 1] + xs[k + 1..];
    var all := Kept(xs, keep);
    assert all == p + [xs[k]] + Kept(xs[k + 1..], keep);
    assert all[..|p|] == p && all[|p|] == xs[k];
    forall i | 0 <= i < |p|
      ensures f(all[i]).Ok?
    {
      assert all[i] == p[i] && f(p[i]).Ok?;
    }
    FirstFailureIs(all, f, |p|);
  }

  /** The rows made from the elements of `ks`, numbered from 0, when none of
      their computations raises. */
  function Rows<T, U, R>(ks: seq<T>, f: T -> Result<U>, row: (nat, T, U) -> R): (rows: seq<R>)
    requires AllOk(ks, f)
    ensures |rows| == |ks|
  {
    if |ks| == 0 then []
    else
      var n := |ks| - 1;
      assert AllOk(ks[..n], f) by {
        forall i | 0 <= i < n
          ensures f(ks[..n][i]).Ok?
        {
          assert ks[..n][i] == ks[i];
        }
      }
      Rows(ks[..n], f, row) + [row(n, ks[n], f(ks[n]).value)]
  }

  /** One more element gives one more row. */
  lemma RowsStep<T, U, R>(ks: seq<T>, x: T, f: T -> Result<U>, row: (nat, T, U) -> R)
    requires AllOk(ks, f) && f(x).Ok?
    ensures AllOk(ks + [x], f)
    ensures Rows(ks + [x], f, row) == Rows(ks, f, row) + [row(|ks|, x, f(x).value)]
  {
    var xs := ks + [x];
    forall i | 0 <= i < |xs|
      ensures f(xs[i]).Ok?
    {
      if i < |ks| {
        assert xs[i] == ks[i];
      }
    }
    assert xs[..|ks|] == ks;
  }

  /** Row `i` is the row of element `i`. */
  lemma {:induction false} RowsAt<T, U, R>(ks: seq<T>, f: T -> Result<U>, row: (nat, T, U) -> R, i: nat)
    requires AllOk(ks, f) && i < |ks|
    ensures Rows(ks, f, row)[i] == row(i, ks[i], f(ks[i]).value)
  {
    var n := |ks| - 1;
    if i < n {
      assert ks[..n][i] == ks[i];
      RowsAt(ks[..n], f, row, i);
    }
  }

  /** What a walk over a sequence produces: its rows and, when it stops early,
      the exception that stopped it. */
  datatype Walked<R> = Walked(rows: seq<R>, failure: Option<Error>)

  /** Walk `xs` in order, skip what `keep` rejects, and make a row of each
      other element and its computation, until a computation raises. */
  function Walk<T, U, R>(xs: seq<T>, keep: T -> bool, f: T -> Result<U>, row: (nat, T, U) -> R): (w: Walked<R>)
    ensures |w.rows| <= |Kept(xs, keep)|
    ensures w.failure.None? <==> AllOk(Kept(xs, keep), f)
    ensures w.failure.None? ==> |w.rows| == |Kept(xs, keep)|
  {
    var kept := Kept(xs, keep);
    var j := FirstFailure(kept, f);
    assert AllOk(kept[..j], f) by {
      forall i | 0 <= i < j
        ensures f(kept[..j][i]).Ok?
      {
        assert kept[..j][i] == kept[i];
      }
    }
    assert j < |kept| ==> !AllOk(kept, f);
    Walked(Rows(kept[..j], f, row), if j < |kept| then Some(f(kept[j]).error) else None)
  }

  /** The walk when the computation of the kept element `xs[k]` is the first
      to raise. */
  lemma WalkStopsAt<T, U, R>(xs: seq<T>, k: nat, keep: T -> bool, f: T -> Result<U>, row: (nat, T, U) -> R)
    requires k < |xs| && keep(xs[k]) && f(xs[k]).Err?
    requires AllOk(Kept(xs[..k], keep), f)
    ensures Walk(xs, keep, f, row) == Walked(Rows(Kept(xs[..k], keep), f, row), Some(f(xs[k]).error))
  {
    FailureInPrefix(xs, k, keep, f);
  }

  /** The walk when no kept element's computation raises. */
  lemma WalkCompletes<T, U, R>(xs: seq<T>, keep: T -> bool, f: T -> Result<U>, row: (nat, T, U) -> R)
    requires AllOk(Kept(xs, keep), f)
    ensures Walk(xs, keep, f, row) == Walked(Rows(Kept(xs, keep), f, row), None)
  {
    var p := Kept(xs, keep);
    assert forall i :: 0 <= i < |p| ==> f(p[i]).Ok?;
    FirstFailureIs(p, f, |p|);
    assert p[..|p|] == p;
  }

  /** Row `i` of a walk is made from the `i`-th kept element, an element of
      `xs` that `keep` accepts and whose computation succeeds. */
  lemma WalkRowAt<T, U, R>(xs: seq<T>, keep: T -> bool, f: T -> Result<U>, row: (nat, T, U) -> R, i: nat)
    requires i < |Walk(xs, keep, f, row).rows|
    ensures var kept := Kept(xs, keep);
      i < |kept| && kept[i] in xs && keep(kept[i]) && f(kept[i]).Ok?
      && Walk(xs, keep, f, row).rows[i] == row(i, kept[i], f(kept[i]).value)
  {
    var kept := Kept(xs, keep);
    var j := FirstFailure(kept, f);
    assert AllOk(kept[..j], f) by {
      forall n | 0 <= n < j
        ensures f(kept[..j][n]).Ok?
      {
        assert kept[..j][n] == kept[n];
      }
    }
    RowsAt(kept[..j], f, row, i);
    KeptMembers(xs, keep, kept[i]);
  }

  /** When everything is kept and nothing raises, there is a row for each
      element, in order. */
  lemma WalkAll<T, U, R>(xs: seq<T>, keep: T -> bool, f: T -> Result<U>, row: (nat, T, U) -> R)
    requires forall i :: 0 <= i < |xs| ==> keep(xs[i])
    requires AllOk(xs, f)
    ensures Walk(xs, keep, f, row) == Walked(Rows(xs, f, row), None)
  {
    KeptAll(xs, keep);
    WalkCompletes(xs, keep, f, row);
  }
}
