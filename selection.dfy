/**
 * Keeping the present entries of a sequence of optional values, in order:
 * the shape of every loop in the source that appends to a list only for
 * some of the items it visits.
 */
module Selection {
  import opened Wrappers

  /** The values of the `Some` entries of `xs`, in their order. */
  function Present<T>(xs: seq<Option<T>>): seq<T>
    decreases |xs|
  {
    if xs == [] then []
    else Present(xs[..|xs| - 1]) + (if xs[|xs| - 1].Some? then [xs[|xs| - 1].value] else [])
  }

  /** Visiting one more entry appends its value, if any: the step of an appending loop. */
  lemma PresentSnoc<T>(xs: seq<Option<T>>, x: Option<T>)
    ensures Present(xs + [x]) == Present(xs) + (if x.Some? then [x.value] else [])
  {
    assert (xs + [x])[..|xs|] == xs;
  }

  /** `ys[k]` is the value at position `idx[k]` of `xs`. */
  ghost predicate ValuesAt<T>(xs: seq<Option<T>>, ys: seq<T>, idx: seq<int>) {
    |idx| == |ys| &&
    forall k :: 0 <= k < |idx| ==> 0 <= idx[k] < |xs| && xs[idx[k]] == Some(ys[k])
  }

  ghost predicate Increasing(idx: seq<int>) {
    forall k, l :: 0 <= k < l < |idx| ==> idx[k] < idx[l]
  }

  ghost predicate IndexesAllPresent<T>(xs: seq<Option<T>>, idx: seq<int>) {
    forall j :: 0 <= j < |xs| && xs[j].Some? ==> j in idx
  }

  /**
   * `idx` is the strictly increasing list of the positions of all the `Some`
   * entries of `xs`, and `ys` holds their values in that order.
   */
  ghost predicate ListsPresent<T>(xs: seq<Option<T>>, ys: seq<T>, idx: seq<int>) {
    ValuesAt(xs, ys, idx) && Increasing(idx) && IndexesAllPresent(xs, idx)
  }

  lemma ValuesAtWiden<T>(xs: seq<Option<T>>, x: Option<T>, ys: seq<T>, idx: seq<int>)
    requires ValuesAt(xs, ys, idx)
    ensures ValuesAt(xs + [x], ys, idx)
    ensures forall k :: 0 <= k < |idx| ==> idx[k] < |xs|
  {
    forall k | 0 <= k < |idx| ensures (xs + [x])[idx[k]] == xs[idx[k]] { }
  }

  lemma ValuesAtSnoc<T>(xs: seq<Option<T>>, v: T, ys: seq<T>, idx: seq<int>)
    requires ValuesAt(xs, ys, idx)
    ensures ValuesAt(xs + [Some(v)], ys + [v], idx + [|xs|])
  {
    var xs1, ys1, idx1 := xs + [Some(v)], ys + [v], idx + [|xs|];
    forall k | 0 <= k < |idx1| ensures 0 <= idx1[k] < |xs1| && xs1[idx1[k]] == Some(ys1[k]) {
      if k < |idx| {
        assert idx1[k] == idx[k] && ys1[k] == ys[k] && xs1[idx[k]] == xs[idx[k]];
      }
    }
  }

  lemma IncreasingSnoc(idx: seq<int>, n: int)
    requires Increasing(idx) && forall k :: 0 <= k < |idx| ==> idx[k] < n
    ensures Increasing(idx + [n])
  {
    var idx1 := idx + [n];
    forall k, l | 0 <= k < l < |idx1| ensures idx1[k] < idx1[l] {
      assert idx1[k] == idx[k];
    }
  }

  lemma IndexesSnoc<T>(xs: seq<Option<T>>, x: Option<T>, idx: seq<int>)
    requires IndexesAllPresent(xs, idx)
    ensures IndexesAllPresent(xs + [x], idx + [|xs|])
    ensures x.None? ==> IndexesAllPresent(xs + [x], idx)
  {
    forall j | 0 <= j < |xs| && (xs + [x])[j].Some? ensures j in idx {
      assert (xs + [x])[j] == xs[j];
    }
  }

  /** `Present` keeps exactly the present values, in the order of their positions. */
  lemma {:induction false} PresentInOrder<T>(xs: seq<Option<T>>)
    ensures exists idx :: ListsPresent(xs, Present(xs), idx)
    decreases |xs|
  {
    if xs == [] {
      assert ListsPresent(xs, Present(xs), []);
    } else {
      var n := |xs| - 1;
      var front, x := xs[..n], xs[n];
      assert xs == front + [x];
      PresentInOrder(front);
      var idx0 :| ListsPresent(front, Present(front), idx0);
      PresentSnoc(front, x);
      ValuesAtWiden(front, x, Present(front), idx0);
      IndexesSnoc(front, x, idx0);
      if x.Some? {
        ValuesAtSnoc(front, x.value, Present(front), idx0);
        IncreasingSnoc(idx0, n);
        assert ListsPresent(xs, Present(xs), idx0 + [n]);
      } else {
        assert ListsPresent(xs, Present(xs), idx0);
      }
    }
  }

  /** At most one value per entry; none exactly when no entry is present; a value is kept exactly when some entry holds it. */
  lemma {:induction false} PresentBounds<T>(xs: seq<Option<T>>)
    ensures |Present(xs)| <= |xs|
    ensures Present(xs) == [] <==> forall j :: 0 <= j < |xs| ==> xs[j].None?
    ensures forall y :: y in Present(xs) <==> Some(y) in xs
    decreases |xs|
  {
    if xs != [] {
      var n := |xs| - 1;
      var front, x := xs[..n], xs[n];
      assert xs == front + [x];
      PresentBounds(front);
      assert forall j :: 0 <= j < n ==> xs[j] == front[j];
      assert forall y :: Some(y) in xs <==> Some(y) in front || x == Some(y);
    }
  }

  /** When every entry is present, every value is kept, position for position. */
  lemma {:induction false} PresentAllSome<T>(xs: seq<Option<T>>)
    requires forall j :: 0 <= j < |xs| ==> xs[j].Some?
    ensures |Present(xs)| == |xs|
    ensures forall k :: 0 <= k < |xs| ==> Present(xs)[k] == xs[k].value
    decreases |xs|
  {
    if xs != [] {
      var n := |xs| - 1;
      PresentAllSome(xs[..n]);
      assert forall k :: 0 <= k < n ==> xs[..n][k] == xs[k];
    }
  }
}
