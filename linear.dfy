/** The linear pass of lab2/main.py (`linear_interpolation`): gaps are
    visited left to right and each one is filled from its nearest known
    neighbours in the working copy, so a gap filled earlier serves as the
    left neighbour of the next one. */
module LinearFill {
  import opened Series

  /** The point at position `xi` on the line through `(xl, yl)` and `(xr, yr)`,
      in the operation order of the source. */
  function Chord(xl: int, yl: real, xr: int, yr: real, xi: int): (v: real)
    requires xl != xr
    ensures xi == xl ==> v == yl
    ensures xi == xr ==> v == yr
  {
    yl + (yr - yl) * (xi - xl) as real / (xr - xl) as real
  }

  /** Gap `i` has a known value somewhere to its left and to its right. */
  predicate Bracketed(y: seq<Cell>, i: int)
    requires 0 <= i < |y|
  {
    PrevKnown(y, i) >= 0 && NextKnown(y, i) < |y|
  }

  /** Reference definition of the pass: a known value stays; a bracketed
      gap gets the chord through its nearest ORIGINAL known neighbours;
      anything else stays missing. */
  function LinearAt(x: seq<int>, y: seq<Cell>, i: int): (c: Cell)
    requires |x| == |y| && Distinct(x) && 0 <= i < |y|
    ensures y[i].Known? ==> c == y[i]
    ensures y[i].Missing? ==> (c.Known? <==> Bracketed(y, i))
  {
    if y[i].Known? then y[i]
    else if Bracketed(y, i) then
      var l, r := PrevKnown(y, i), NextKnown(y, i);
      Known(Chord(x[l], y[l].v, x[r], y[r].v, x[i]))
    else Missing
  }

  /** The record the pass keeps for a filled gap: the left point it names is
      always index `i - 1`, with the ORIGINAL (possibly missing) value there. */
  function LinearRecordAt(x: seq<int>, y: seq<Cell>, i: int): (rec: FillRecord)
    requires |x| == |y| && Distinct(x) && 0 <= i < |y|
    requires y[i].Missing? && Bracketed(y, i)
    ensures rec.LinearRecord? && rec.x == x[i] && |rec.linearPoints| == 2
    ensures rec.linearPoints[0] == (x[i - 1], y[i - 1])
    ensures rec.linearPoints[0].1.Known? <==> PrevKnown(y, i) == i - 1
    ensures rec.linearPoints[1] == (x[NextKnown(y, i)], y[NextKnown(y, i)]) && rec.linearPoints[1].1.Known?
    ensures Known(rec.interpolated) == LinearAt(x, y, i)
  {
    var r := NextKnown(y, i);
    LinearRecord(x[i], [(x[i - 1], y[i - 1]), (x[r], y[r])], LinearAt(x, y, i).v)
  }

  /** The body of the loop of `linear_interpolation` for one gap `i`: the
      neighbour search on the working copy `work` and the chord through the
      two neighbours it finds. While the gaps before `i` already hold their
      final values, this is the reference definition of the gap. */
  method LinearGap(x: seq<int>, y: seq<Cell>, work: seq<Cell>, i: int) returns (r: Option<FillRecord>)
    requires |x| == |y| == |work| && Distinct(x) && 0 <= i < |y| && y[i].Missing?
    requires forall j :: 0 <= j < i ==> work[j] == LinearAt(x, y, j)
    requires forall j :: i <= j < |y| ==> work[j] == y[j]
    ensures r.Some? <==> Bracketed(y, i)
    ensures r.Some? ==> r.value == LinearRecordAt(x, y, i)
  {
    var left, right := FindNearestValidIndices(work, i);
    LiveNeighbours(x, y, work, i);
    if left >= 0 && right < |work| {
      var v := Chord(x[left], work[left].v, x[right], work[right].v, x[i]);
      r := Some(LinearRecord(x[i], [(x[left], y[left]), (x[right], y[right])], v));
    } else {
      r := None;
    }
  }

  /** `linear_interpolation`. */
  method LinearInterpolation(x: seq<int>, y: seq<Cell>) returns (filled: seq<Cell>, info: map<int, FillRecord>)
    requires |x| == |y| && Distinct(x)
    ensures |filled| == |y|
    ensures forall i :: 0 <= i < |y| ==> filled[i] == LinearAt(x, y, i)
    ensures forall i :: i in info <==> 0 <= i < |y| && y[i].Missing? && Bracketed(y, i)
    ensures forall i :: i in info ==> info[i] == LinearRecordAt(x, y, i)
  {
    filled := y;
    info := map[];
    for i := 0 to |y|
      invariant |filled| == |y|
      invariant forall j :: 0 <= j < i ==> filled[j] == LinearAt(x, y, j)
      invariant forall j :: i <= j < |y| ==> filled[j] == y[j]
      invariant forall j :: j in info <==> 0 <= j < i && y[j].Missing? && Bracketed(y, j)
      invariant forall j :: j in info ==> info[j] == LinearRecordAt(x, y, j)
    {
      ghost var before := filled;
      if filled[i].Missing? {
        var r := LinearGap(x, y, filled, i);
        if r.Some? {
          filled := filled[i := Known(r.value.interpolated)];
          info := info[i := r.value];
        }
      }
      assert forall j :: 0 <= j < |y| && j != i ==> filled[j] == before[j];
    }
  }

  /** At step `i` of the pass, the searches on the working copy find the
      original right neighbour, find a left neighbour iff the original series
      has one, and, when the gap is bracketed, find index `i - 1` holding
      the chord value. */
  lemma LiveNeighbours(x: seq<int>, y: seq<Cell>, s: seq<Cell>, i: int)
    requires |x| == |y| == |s| && Distinct(x) && 0 <= i < |y|
    requires y[i].Missing?
    requires forall j :: 0 <= j < i ==> s[j] == LinearAt(x, y, j)
    requires forall j :: i <= j < |y| ==> s[j] == y[j]
    ensures NextKnown(s, i) == NextKnown(y, i)
    ensures PrevKnown(s, i) >= 0 <==> PrevKnown(y, i) >= 0
    ensures Bracketed(y, i) ==>
      && PrevKnown(s, i) == i - 1
      && Chord(x[i - 1], s[i - 1].v, x[NextKnown(s, i)], s[NextKnown(s, i)].v, x[i]) == LinearAt(x, y, i).v
  {
    var r := NextKnown(y, i);
    var l := PrevKnown(y, i);
    if l >= 0 {
      assert s[l] == y[l];
    } else {
      forall k | 0 <= k < i ensures s[k].Missing? {
        assert PrevKnown(y, k) == -1;
      }
    }
    if Bracketed(y, i) {
      assert i >= 1;
      if y[i - 1].Known? {
        assert s[i - 1] == y[i - 1];
        assert l == i - 1;
      } else {
        assert PrevKnown(y, i - 1) == l;
        assert NextKnown(y, i - 1) == r;
        assert Bracketed(y, i - 1);
        assert s[i - 1] == Known(Chord(x[l], y[l].v, x[r], y[r].v, x[i - 1]));
        assert s[r] == y[r];
        ChordCollinear(x[l], y[l].v, x[r], y[r].v, x[i - 1], x[i]);
      }
      assert s[i - 1].Known?;
    }
  }

  /** The chord written as its intercept plus slope times offset. */
  lemma ChordSlope(xl: int, yl: real, xr: int, yr: real, xi: int)
    requires xl != xr
    ensures Chord(xl, yl, xr, yr, xi) == yl + ((yr - yl) / (xr - xl) as real) * (xi - xl) as real
  {
    var d := (xr - xl) as real;
    var t := (xi - xl) as real;
    assert (yr - yl) * t / d == ((yr - yl) / d) * t;
  }

  /** Interpolating again between a point of the chord and the right end
      stays on the same chord, so filling a run of gaps left to right from
      the previously filled gap gives the values of the chord through the
      run's original ends. */
  lemma ChordCollinear(xl: int, yl: real, xr: int, yr: real, xm: int, xi: int)
    requires xl != xr && xm != xr
    ensures Chord(xm, Chord(xl, yl, xr, yr, xm), xr, yr, xi) == Chord(xl, yl, xr, yr, xi)
  {
    var s := (yr - yl) / (xr - xl) as real;
    var ym := Chord(xl, yl, xr, yr, xm);
    ChordSlope(xl, yl, xr, yr, xm);
    ChordSlope(xl, yl, xr, yr, xi);
    ChordSlope(xl, yl, xr, yr, xr);
    assert yr == yl + s * (xr - xl) as real;
    assert yr - ym == s * (xr - xm) as real;
    ChordSlope(xm, ym, xr, yr, xi);
    var sm := (yr - ym) / (xr - xm) as real;
    DivCancel(s, (xr - xm) as real);
    assert sm == s;
    assert Chord(xm, ym, xr, yr, xi) == ym + s * (xi - xm) as real;
  }

  /** Multiplying and then dividing by a non-zero `d` cancels. */
  lemma DivCancel(a: real, d: real)
    requires d != 0.0
    ensures (a * d) / d == a
  {
  }

  /** With `xl < xi < xr` the chord value lies between the two end values. */
  lemma ChordBetween(xl: int, yl: real, xr: int, yr: real, xi: int)
    requires xl < xi < xr
    ensures yl <= yr ==> yl <= Chord(xl, yl, xr, yr, xi) <= yr
    ensures yr <= yl ==> yr <= Chord(xl, yl, xr, yr, xi) <= yl
  {
    var d := (xr - xl) as real;
    var t := (xi - xl) as real / d;
    assert 0.0 < t < 1.0;
    assert Chord(xl, yl, xr, yr, xi) == yl + (yr - yl) * t;
    assert (yr - yl) * t - (yr - yl) == (yr - yl) * (t - 1.0);
    if yl <= yr {
      ProductSigns(yr - yl, t, t - 1.0);
    } else {
      ProductSigns(yl - yr, t, t - 1.0);
    }
  }

  lemma ProductSigns(d: real, p: real, q: real)
    requires d >= 0.0 && p > 0.0 && q < 0.0
    ensures d * p >= 0.0 && d * q <= 0.0
  {
  }

  /** A gap is filled by the pass iff the original series has a known value
      both below and above it; leading and trailing gaps stay missing. */
  lemma LinearFilledIff(x: seq<int>, y: seq<Cell>, i: int)
    requires |x| == |y| && Distinct(x) && 0 <= i < |y| && y[i].Missing?
    ensures LinearAt(x, y, i).Known? <==>
      (exists j :: 0 <= j < i && y[j].Known?) && (exists k :: i < k < |y| && y[k].Known?)
  {
    PrevKnownFound(y, i);
    NextKnownFound(y, i);
  }

  /** A filled value lies between the original values of the known
      neighbours that bracket the gap. */
  lemma LinearValueBetween(x: seq<int>, y: seq<Cell>, i: int)
    requires |x| == |y| && StrictlyIncreasing(x) && 0 <= i < |y|
    requires y[i].Missing? && Bracketed(y, i)
    ensures var l, r := PrevKnown(y, i), NextKnown(y, i);
      var v := LinearAt(x, y, i).v;
      && (y[l].v <= y[r].v ==> y[l].v <= v <= y[r].v)
      && (y[r].v <= y[l].v ==> y[r].v <= v <= y[l].v)
  {
    var l, r := PrevKnown(y, i), NextKnown(y, i);
    ChordBetween(x[l], y[l].v, x[r], y[r].v, x[i]);
  }
}
