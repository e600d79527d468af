/**
 * The order-preserving selection a scan makes when it appends the row each
 * element yields, if any: `Select` is the list built, `Positions` the
 * indices of the elements that yielded a row.
 */
module Selection {
  import opened Options

  /** The rows one element contributes: its row, or none. */
  function Row<U>(o: Option<U>): seq<U> {
    match o
    case Some(y) => [y]
    case None => []
  }

  function Select<T, U>(xs: seq<T>, f: T -> Option<U>): seq<U> {
    if xs == [] then [] else Select(xs[..|xs| - 1], f) + Row(f(xs[|xs| - 1]))
  }

  function Positions<T, U>(xs: seq<T>, f: T -> Option<U>): seq<nat> {
    if xs == [] then []
    else
      Positions(xs[..|xs| - 1], f)
      + (if f(xs[|xs| - 1]).Some? then [|xs| - 1] else [])
  }

  /** Extending the scanned prefix by one element appends that element's
      row, if it yields one. */
  lemma SelectStep<T, U>(xs: seq<T>, i: nat, f: T -> Option<U>)
    requires i < |xs|
    ensures Select(xs[..i + 1], f) == Select(xs[..i], f) + Row(f(xs[i]))
  {
    assert xs[..i + 1][..i] == xs[..i];
  }

  /** The selection can equally be read from the front: the first
      element's row, then the selection of the rest. */
  lemma {:induction false} SelectFront<T, U>(xs: seq<T>, f: T -> Option<U>)
    requires xs != []
    ensures Select(xs, f) == Row(f(xs[0])) + Select(xs[1..], f)
  {
    var n := |xs| - 1;
    if n == 0 {
      assert xs[..n] == [] && xs[1..] == [];
    } else {
      var init, tail := xs[..n], xs[1..];
      SelectFront(init, f);
      assert init[0] == xs[0] && init[1..] == tail[..n - 1] && tail[n - 1] == xs[n];
      calc {
        Select(xs, f);
        Select(init, f) + Row(f(xs[n]));
        Row(f(xs[0])) + Select(init[1..], f) + Row(f(xs[n]));
        Row(f(xs[0])) + (Select(tail[..n - 1], f) + Row(f(tail[n - 1])));
        Row(f(xs[0])) + Select(tail, f);
      }
    }
  }

  /** The scan itself: walks the elements in order and appends the row each
      one yields. */
  method Collect<T, U>(xs: seq<T>, f: T -> Option<U>) returns (ys: seq<U>)
    ensures ys == Select(xs, f)
  {
    ys := [];
    var i := 0;
    while i < |xs|
      invariant i <= |xs|
      invariant ys == Select(xs[..i], f)
    {
      match f(xs[i]) {
        case Some(y) => ys := ys + [y];
        case None =>
      }
      SelectStep(xs, i, f);
      i := i + 1;
    }
    assert xs[..i] == xs;
  }

  /** The selection keeps exactly the elements that yield a row, in their
      order and each once, and row `k` is what element `Positions[k]`
      yields. */
  lemma {:induction false} SelectPositions<T, U>(xs: seq<T>, f: T -> Option<U>)
    ensures |Positions(xs, f)| == |Select(xs, f)| <= |xs|
    ensures forall k :: 0 <= k < |Positions(xs, f)| ==>
              Positions(xs, f)[k] < |xs| && f(xs[Positions(xs, f)[k]]) == Some(Select(xs, f)[k])
    ensures forall k, l :: 0 <= k < l < |Positions(xs, f)| ==> Positions(xs, f)[k] < Positions(xs, f)[l]
    ensures forall i :: 0 <= i < |xs| ==> (i in Positions(xs, f) <==> f(xs[i]).Some?)
  {
    if xs != [] {
      var n := |xs| - 1;
      var init := xs[..n];
      SelectPositions(init, f);
      var idx, ys := Positions(init, f), Select(init, f);
      assert forall i :: 0 <= i < n ==> init[i] == xs[i];
      match f(xs[n])
      case None =>
        assert Positions(xs, f) == idx;
        assert Select(xs, f) == ys;
      case Some(y) =>
        assert Positions(xs, f) == idx + [n];
        assert Select(xs, f) == ys + [y];
    }
  }
}
