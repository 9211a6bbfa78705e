/** `load_unit_order` of GenericFigure.py: the order in which the raster's
    units are drawn, taken from the experiment's stored metrics or else the
    identity, and its inverse, built by numpy's scatter assignment
    `inverse_unit_order[unit_order] = np.arange(N)` into an array of zeros. */
module UnitOrder {
  import opened Wrappers

  // ---------------------------------------------------------------------
  // The ordering itself
  // ---------------------------------------------------------------------

  /** numpy's `np.int32` cast of an integer: wraps it modulo 2^32 into the
      32-bit signed range, and leaves a value already in that range alone. */
  function ToInt32(x: int): (r: int)
    ensures -0x8000_0000 <= r < 0x8000_0000
    ensures (x - r) % 0x1_0000_0000 == 0
    ensures -0x8000_0000 <= x < 0x8000_0000 ==> r == x
  {
    (x + 0x8000_0000) % 0x1_0000_0000 - 0x8000_0000
  }

  /** The `unit_order` half of the result. `metrics` is the stored
      one-based `mean_rate_ordering`, already flattened, or `None` when no
      metrics were found; `units` is the raster's unit count N. */
  function UnitOrderOf(metrics: Option<seq<int>>, units: nat): (order: seq<int>)
    // With metrics: each stored entry shifted down by one, in stored order.
    ensures metrics.Some? ==>
      |order| == |metrics.value| &&
      forall i :: 0 <= i < |order| ==> order[i] == ToInt32(metrics.value[i] - 1)
    // Without: the identity ordering 0, 1, ..., N - 1.
    ensures metrics.None? ==> |order| == units && forall i :: 0 <= i < units ==> order[i] == i
  {
    match metrics
    case Some(stored) => seq(|stored|, i requires 0 <= i < |stored| => ToInt32(stored[i] - 1))
    case None => Arange(0, units)
  }

  /** order lists each of 0, ..., |order| - 1 exactly once. */
  predicate IsPermutation(order: seq<int>)
  {
    && (forall i :: 0 <= i < |order| ==> 0 <= order[i] < |order|)
    && (forall i, j :: 0 <= i < j < |order| ==> order[i] != order[j])
  }

  /** A stored ordering that lists each of 1, ..., N exactly once becomes a
      zero-based permutation. */
  lemma StoredPermutation(stored: seq<int>)
    requires |stored| <= 0x8000_0000
    requires forall i :: 0 <= i < |stored| ==> 1 <= stored[i] <= |stored|
    requires forall i, j :: 0 <= i < j < |stored| ==> stored[i] != stored[j]
    ensures IsPermutation(UnitOrderOf(Some(stored), |stored|))
  {
    var order := UnitOrderOf(Some(stored), |stored|);
    forall i | 0 <= i < |order| ensures order[i] == stored[i] - 1 {
      assert 0 <= stored[i] - 1 < 0x8000_0000;
    }
  }

  /** The fallback ordering is a permutation. */
  lemma IdentityPermutation(units: nat)
    ensures IsPermutation(UnitOrderOf(None, units))
  {
  }

  // ---------------------------------------------------------------------
  // numpy scatter assignment, `dst[idx] = vals`
  // ---------------------------------------------------------------------

  /** Whether numpy accepts i as an index into an axis of length len
      (otherwise it raises IndexError). */
  predicate InBounds(i: int, len: nat) { -(len as int) <= i < len }

  /** The position an accepted index selects: a negative one counts back
      from the end of the axis. */
  function Position(i: int, len: nat): (p: nat)
    requires InBounds(i, len)
    ensures p < len && (i >= 0 ==> p == i)
  {
    if i < 0 then i + len else i
  }

  predicate AllInBounds(idx: seq<int>, len: nat)
  {
    forall k :: 0 <= k < |idx| ==> InBounds(idx[k], len)
  }

  /** `dst` after `dst[idx] = vals`, the pairs written in index order so
      that of two pairs naming one position the later one stays. */
  function Scatter(dst: seq<int>, idx: seq<int>, vals: seq<int>): (r: seq<int>)
    requires |idx| == |vals| && AllInBounds(idx, |dst|)
    ensures |r| == |dst|
  {
    if idx == [] then dst
    else
      var n := |idx| - 1;
      Scatter(dst, idx[..n], vals[..n])[Position(idx[n], |dst|) := vals[n]]
  }

  /** A position written by pair k and by no later pair holds vals[k]. */
  lemma {:induction false} ScatterLastWriteWins(dst: seq<int>, idx: seq<int>, vals: seq<int>, k: nat)
    requires |idx| == |vals| && AllInBounds(idx, |dst|) && k < |idx|
    requires forall j :: k < j < |idx| ==> Position(idx[j], |dst|) != Position(idx[k], |dst|)
    ensures Scatter(dst, idx, vals)[Position(idx[k], |dst|)] == vals[k]
  {
    var n := |idx| - 1;
    if k < n {
      ScatterLastWriteWins(dst, idx[..n], vals[..n], k);
    }
  }

  /** A position no pair writes keeps its old value. */
  lemma {:induction false} ScatterUntouched(dst: seq<int>, idx: seq<int>, vals: seq<int>, p: nat)
    requires |idx| == |vals| && AllInBounds(idx, |dst|) && p < |dst|
    requires forall j :: 0 <= j < |idx| ==> Position(idx[j], |dst|) != p
    ensures Scatter(dst, idx, vals)[p] == dst[p]
  {
    if idx != [] {
      var n := |idx| - 1;
      ScatterUntouched(dst, idx[..n], vals[..n], p);
    }
  }

  function Zeros(len: nat): (z: seq<int>)
    ensures |z| == len && forall i :: 0 <= i < len ==> z[i] == 0
  {
    seq(len, _ => 0)
  }

  /** Whether numpy can broadcast `np.arange(units)` onto `len` selected
      positions: equal lengths, or a single value repeated. */
  predicate Broadcasts(units: nat, len: nat) { units == len || units == 1 }

  /** The values actually written: `np.arange(units)`, or its one value 0
      repeated when it is broadcast. */
  function ScatterValues(len: nat, units: nat): (vals: seq<int>)
    requires Broadcasts(units, len)
    ensures |vals| == len
  {
    if len == units then Arange(0, units) else Zeros(len)
  }

  // ---------------------------------------------------------------------
  // The inverse of a permutation
  // ---------------------------------------------------------------------

  lemma {:induction false} ImageSize(order: seq<int>, k: nat)
    requires IsPermutation(order) && k <= |order|
    ensures |set i | 0 <= i < k :: order[i]| == k
  {
    if k > 0 {
      ImageSize(order, k - 1);
      var before := set i | 0 <= i < k - 1 :: order[i];
      assert (set i | 0 <= i < k :: order[i]) == before + {order[k - 1]};
      assert order[k - 1] !in before;
    }
  }

  lemma {:induction false} SubsetSize<T>(a: set<T>, b: set<T>)
    requires a <= b
    ensures |a| <= |b|
  {
    if a != {} {
      var x :| x in a;
      SubsetSize(a - {x}, b - {x});
    }
  }

  /** Every unit 0 <= v < N appears somewhere in a permutation of length N
      (a pigeonhole argument over the image of the ordering). */
  lemma PermutationCovers(order: seq<int>, v: int)
    requires IsPermutation(order) && 0 <= v < |order|
    ensures exists i :: 0 <= i < |order| && order[i] == v
  {
    var n := |order|;
    var image := set i | 0 <= i < n :: order[i];
    var identity := Arange(0, n);
    var interval := set i | 0 <= i < n :: identity[i];
    ImageSize(order, n);
    ImageSize(identity, n);
    forall i | 0 <= i < n ensures order[i] in interval {
      assert identity[order[i]] == order[i];
    }
    assert identity[v] == v;
    if v !in image {
      assert image <= interval - {v};
      SubsetSize(image, interval - {v});
      assert false;
    }
  }

  /** For a permutation, the scatter yields its inverse: position order[i]
      holds i, and every entry j of the result points back at j. */
  lemma InverseOfPermutation(order: seq<int>)
    requires IsPermutation(order)
    ensures AllInBounds(order, |order|)
    ensures var n := |order|;
      var inverse := Scatter(Zeros(n), order, Arange(0, n));
      && |inverse| == n
      && (forall i :: 0 <= i < n ==> inverse[order[i]] == i)
      && (forall j :: 0 <= j < n ==> 0 <= inverse[j] < n && order[inverse[j]] == j)
  {
    var n := |order|;
    var inverse := Scatter(Zeros(n), order, Arange(0, n));
    forall i | 0 <= i < n ensures inverse[order[i]] == i {
      ScatterLastWriteWins(Zeros(n), order, Arange(0, n), i);
    }
    forall j | 0 <= j < n ensures 0 <= inverse[j] < n && order[inverse[j]] == j {
      PermutationCovers(order, j);
      var i :| 0 <= i < n && order[i] == j;
      assert inverse[order[i]] == i;
    }
  }

  // ---------------------------------------------------------------------
  // The imperative core of load_unit_order
  // ---------------------------------------------------------------------

  /** What numpy raises from the scatter: ValueError when the values do not
      broadcast onto the selected positions, IndexError for an index outside
      the array. */
  datatype UnitOrderError =
    | ShapeMismatch(values: nat, positions: nat)
    | IndexOutOfBounds(index: int, size: nat)

  /** `inverse = np.zeros_like(order); inverse[order] = np.arange(units)`. */
  method InverseUnitOrder(order: seq<int>, units: nat) returns (r: Result<array<int>, UnitOrderError>)
    ensures r.Ok? <==> Broadcasts(units, |order|) && AllInBounds(order, |order|)
    ensures r.Err? && !Broadcasts(units, |order|) ==> r.error == ShapeMismatch(units, |order|)
    // The IndexError names the first index outside the array.
    ensures r.Err? && Broadcasts(units, |order|) ==>
      exists k :: 0 <= k < |order| && r.error == IndexOutOfBounds(order[k], |order|) &&
        !InBounds(order[k], |order|) && AllInBounds(order[..k], |order|)
    // The array has the ordering's length and holds the scatter's result.
    ensures r.Ok? ==>
      r.value.Length == |order| &&
      r.value[..] == Scatter(Zeros(|order|), order, ScatterValues(|order|, units))
  {
    var len := |order|;
    if !Broadcasts(units, len) {
      return Err(ShapeMismatch(units, len));
    }
    var k := 0;
    while k < len
      invariant 0 <= k <= len
      invariant AllInBounds(order[..k], len)
    {
      if !InBounds(order[k], len) {
        return Err(IndexOutOfBounds(order[k], len));
      }
      assert order[..k + 1] == order[..k] + [order[k]];
      k := k + 1;
    }
    assert order[..len] == order;
    var values := ScatterValues(len, units);
    var inverse := new int[len](_ => 0);
    var i := 0;
    while i < len
      invariant 0 <= i <= len
      invariant inverse[..] == Scatter(Zeros(len), order[..i], values[..i])
    {
      assert order[..i + 1][..i] == order[..i];
      assert values[..i + 1][..i] == values[..i];
      inverse[Position(order[i], len)] := values[i];
      i := i + 1;
    }
    assert values[..len] == values;
    return Ok(inverse);
  }

  /** `load_unit_order(exp)`: the ordering, its inverse, and whether the
      "Metrics not found" warning was printed. */
  method LoadUnitOrder(metrics: Option<seq<int>>, units: nat)
    returns (order: seq<int>, inverse: Result<array<int>, UnitOrderError>, warned: bool)
    ensures order == UnitOrderOf(metrics, units)
    ensures warned <==> metrics.None?
    // The scatter raises exactly when the values do not broadcast or an
    // index of the ordering lies outside the array ...
    ensures inverse.Ok? <==> Broadcasts(units, |order|) && AllInBounds(order, |order|)
    ensures inverse.Err? && !Broadcasts(units, |order|) ==> inverse.error == ShapeMismatch(units, |order|)
    ensures inverse.Err? && Broadcasts(units, |order|) ==>
      exists k :: 0 <= k < |order| && inverse.error == IndexOutOfBounds(order[k], |order|) &&
        !InBounds(order[k], |order|) && AllInBounds(order[..k], |order|)
    // ... and otherwise holds the scatter's result, whatever the ordering.
    ensures inverse.Ok? ==>
      inverse.value.Length == |order| &&
      inverse.value[..] == Scatter(Zeros(|order|), order, ScatterValues(|order|, units))
    // The identity fallback is its own inverse.
    ensures metrics.None? ==> inverse.Ok? && inverse.value[..] == order
    // A permutation of the raster's N units gets its two-sided inverse.
    ensures IsPermutation(order) && |order| == units ==>
      && inverse.Ok?
      && (forall i :: 0 <= i < |order| ==> inverse.value[order[i]] == i)
      && (forall j :: 0 <= j < |order| ==> 0 <= inverse.value[j] < |order| && order[inverse.value[j]] == j)
  {
    warned := metrics.None?;
    order := UnitOrderOf(metrics, units);
    inverse := InverseUnitOrder(order, units);
    if IsPermutation(order) && |order| == units {
      InverseOfPermutation(order);
      assert ScatterValues(|order|, units) == Arange(0, units);
      if metrics.None? {
        assert inverse.value[..] == order;
      }
    }
    if metrics.None? {
      IdentityPermutation(units);
    }
  }
}
