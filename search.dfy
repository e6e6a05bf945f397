/** Scans over sequences, driven by a two-place test `p(u, x)` on the elements x. */
module Search {
  import opened Values

  /** The position of the first element passing the test, if any. */
  function FirstWhere<T, U>(xs: seq<T>, p: (U, T) -> bool, u: U): (r: Option<nat>)
    ensures r.Some? ==> r.value < |xs| && p(u, xs[r.value])
    ensures r.Some? ==> forall j :: 0 <= j < r.value ==> !p(u, xs[j])
    ensures r.None? <==> forall j :: 0 <= j < |xs| ==> !p(u, xs[j])
  {
    if xs == [] then None
    else if p(u, xs[0]) then Some(0)
    else
      match FirstWhere(xs[1..], p, u)
      case None => None
      case Some(k) => Some(k + 1)
  }

  /** The first element passing the test is the one FirstWhere finds. */
  lemma FirstWhereAt<T, U>(xs: seq<T>, p: (U, T) -> bool, u: U, i: nat)
    requires i < |xs| && p(u, xs[i])
    requires forall j :: 0 <= j < i ==> !p(u, xs[j])
    ensures FirstWhere(xs, p, u) == Some(i)
  {
    var r := FirstWhere(xs, p, u);
    assert r.Some?;
    assert r.value >= i;
  }

  /**
   * The positions among the first n elements that pass the test, in
   * increasing order: what a boolean mask over a column selects.
   */
  function Indices<T, U>(xs: seq<T>, p: (U, T) -> bool, u: U, n: nat): (r: seq<nat>)
    requires n <= |xs|
    ensures forall k :: 0 <= k < |r| ==> r[k] < n && p(u, xs[r[k]])
    ensures forall i :: 0 <= i < n && p(u, xs[i]) ==> i in r
    ensures forall k, l :: 0 <= k < l < |r| ==> r[k] < r[l]
  {
    if n == 0 then []
    else Indices(xs, p, u, n - 1) + (if p(u, xs[n - 1]) then [n - 1] else [])
  }

  /** Boolean-mask selection, `frame[frame[column] <op> value]`, as a scan over the column. */
  method MaskRows<T, U>(xs: seq<T>, p: (U, T) -> bool, u: U) returns (rows: seq<nat>)
    ensures rows == Indices(xs, p, u, |xs|)
  {
    rows := [];
    for i := 0 to |xs|
      invariant rows == Indices(xs, p, u, i)
    {
      if p(u, xs[i]) {
        rows := rows + [i];
      }
    }
  }

  /** A position is selected exactly when its element passes the test. */
  lemma IndicesMembership<T, U>(xs: seq<T>, p: (U, T) -> bool, u: U)
    ensures var r := Indices(xs, p, u, |xs|);
      && (r != [] <==> exists i :: 0 <= i < |xs| && p(u, xs[i]))
      && forall i :: 0 <= i < |xs| ==> (p(u, xs[i]) <==> i in r)
  {
    var r := Indices(xs, p, u, |xs|);
    if r != [] {
      assert p(u, xs[r[0]]);
    }
  }

  /** The first selected position is the first element passing the test. */
  lemma FirstOfIndices<T, U>(xs: seq<T>, p: (U, T) -> bool, u: U)
    ensures var r := Indices(xs, p, u, |xs|);
            (r == [] <==> FirstWhere(xs, p, u).None?)
            && (r != [] ==> r[0] == FirstWhere(xs, p, u).value)
  {
    var r := Indices(xs, p, u, |xs|);
    var f := FirstWhere(xs, p, u);
    if f.Some? {
      assert f.value in r;
    }
  }

  /** The first selected position passes the test and no earlier position does. */
  lemma FirstIndexPasses<T, U>(xs: seq<T>, p: (U, T) -> bool, u: U)
    ensures var r := Indices(xs, p, u, |xs|);
      r != [] ==> p(u, xs[r[0]]) && forall j :: 0 <= j < r[0] ==> !p(u, xs[j])
  {
    FirstOfIndices(xs, p, u);
  }

  /** Slicing a concatenation inside its first part. */
  lemma SliceAppend<T>(a: seq<T>, b: seq<T>, n: nat)
    requires n <= |a|
    ensures (a + b)[..n] == a[..n] && (a + b)[n..] == a[n..] + b
  {
  }

  /** A sequence is its prefix, the element at n, and its suffix. */
  lemma SplitAround<T>(s: seq<T>, n: nat)
    requires n < |s|
    ensures s == s[..n] + [s[n]] + s[n + 1..]
  {
  }
}
