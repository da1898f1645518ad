/** The sampled series shared by both fill passes of lab2/main.py: integer
    positions, values that are either known or missing (the source marks a
    missing value with NaN and tests it with `v != v`), the provenance
    record kept per filled index, and the neighbour search. */
module Series {

  /** One value of the series: a known real, or missing. */
  datatype Cell = Known(v: real) | Missing

  datatype Option<T> = None | Some(value: T)

  /** Coefficients of `a*x^2 + b*x + c`. */
  datatype Coefficients = Coefficients(a: real, b: real, c: real)

  /** The provenance kept for a filled index: its position, the points the
      method consulted, the value written, and for the quadratic method the
      fitted coefficients. */
  datatype FillRecord =
    | LinearRecord(x: int, linearPoints: seq<(int, Cell)>, interpolated: real)
    | QuadraticRecord(x: int, quadraticPoints: seq<(int, real)>, interpolated: real,
                      coefficients: Coefficients)

  predicate StrictlyIncreasing(s: seq<int>) {
    forall p, q :: 0 <= p < q < |s| ==> s[p] < s[q]
  }

  /** No value occurs twice. */
  predicate Distinct(s: seq<int>) {
    forall p, q :: 0 <= p < q < |s| ==> s[p] != s[q]
  }

  /** The greatest index below `i` holding a known value, or -1. */
  function PrevKnown(s: seq<Cell>, i: int): (r: int)
    requires 0 <= i <= |s|
    ensures -1 <= r < i
    ensures r >= 0 ==> s[r].Known?
    ensures forall j :: r < j < i ==> s[j].Missing?
    decreases i
  {
    if i == 0 then -1
    else if s[i - 1].Known? then i - 1
    else PrevKnown(s, i - 1)
  }

  /** The least index above `i` holding a known value, or `|s|`. */
  function NextKnown(s: seq<Cell>, i: int): (r: int)
    requires -1 <= i < |s|
    ensures i < r <= |s|
    ensures r < |s| ==> s[r].Known?
    ensures forall j :: i < j < r ==> s[j].Missing?
    decreases |s| - i
  {
    if i + 1 == |s| then |s|
    else if s[i + 1].Known? then i + 1
    else NextKnown(s, i + 1)
  }

  /** `find_nearest_valid_indices`: walk left, then right, over missing
      values. */
  method FindNearestValidIndices(data: seq<Cell>, index: int) returns (left: int, right: int)
    requires 0 <= index < |data|
    ensures left == PrevKnown(data, index)
    ensures right == NextKnown(data, index)
  {
    left := index - 1;
    while left >= 0 && data[left].Missing?
      invariant -1 <= left < index
      invariant PrevKnown(data, left + 1) == PrevKnown(data, index)
    {
      left := left - 1;
    }
    right := index + 1;
    while right < |data| && data[right].Missing?
      invariant index < right <= |data|
      invariant NextKnown(data, right - 1) == NextKnown(data, index)
    {
      right := right + 1;
    }
  }

  /** A known value lies below `i` iff the left search finds one. */
  lemma PrevKnownFound(s: seq<Cell>, i: int)
    requires 0 <= i <= |s|
    ensures PrevKnown(s, i) >= 0 <==> exists j :: 0 <= j < i && s[j].Known?
  {
    if PrevKnown(s, i) >= 0 {
      assert s[PrevKnown(s, i)].Known?;
    }
  }

  /** A known value lies above `i` iff the right search finds one. */
  lemma NextKnownFound(s: seq<Cell>, i: int)
    requires 0 <= i < |s|
    ensures NextKnown(s, i) < |s| <==> exists k :: i < k < |s| && s[k].Known?
  {
    if NextKnown(s, i) < |s| {
      assert s[NextKnown(s, i)].Known?;
    }
  }
}
