/**
 * The shape both front ends share: a series of loosely typed records is
 * filtered, and each surviving record is mapped to a point, in order.
 */
module Extraction {
  import opened Calendar
  import opened Engine

  /** A point whose date, when valid, lies in the range `new Date` produces. */
  predicate ClippedPoint(p: Point) {
    p.date.At? ==> -MaxTimeValue <= p.date.ms <= MaxTimeValue
  }

  /** The map is defined on every record the filter keeps, and gives it a clipped date. */
  ghost predicate Admissible<E(!new)>(kept: E -> bool, point: E --> Point) {
    forall e :: kept(e) ==> point.requires(e) && ClippedPoint(point(e))
  }

  /**
   * `filter(kept).map(point)`: the points of the kept records, in order.
   * Nothing survives exactly when no record is kept.
   */
  function Points<E(!new)>(data: seq<E>, kept: E -> bool, point: E --> Point): (r: seq<Point>)
    requires Admissible(kept, point)
    ensures |r| <= |data|
    ensures |r| == 0 <==> forall i :: 0 <= i < |data| ==> !kept(data[i])
    ensures Clipped(r)
    decreases |data|
  {
    if |data| == 0 then []
    else
      var init, last := data[..|data| - 1], data[|data| - 1];
      assert forall i :: 0 <= i < |init| ==> init[i] == data[i];
      Points(init, kept, point) + (if kept(last) then [point(last)] else [])
  }

  /** The positions of the kept records, in increasing order. */
  function KeptPositions<E>(data: seq<E>, kept: E -> bool): (r: seq<int>)
    ensures forall j :: 0 <= j < |r| ==> 0 <= r[j] < |data| && kept(data[r[j]])
    ensures forall j, k :: 0 <= j < k < |r| ==> r[j] < r[k]
    decreases |data|
  {
    if |data| == 0 then []
    else
      var n := |data| - 1;
      var init := KeptPositions(data[..n], kept);
      assert forall j :: 0 <= j < |init| ==> data[..n][init[j]] == data[init[j]];
      init + (if kept(data[n]) then [n] else [])
  }

  /** The `j`-th point comes from the `j`-th kept position. */
  lemma {:induction false} PointsOfKeptPositions<E(!new)>(data: seq<E>, kept: E -> bool, point: E --> Point)
    requires Admissible(kept, point)
    ensures |Points(data, kept, point)| == |KeptPositions(data, kept)|
    ensures forall j :: 0 <= j < |KeptPositions(data, kept)| ==>
      Points(data, kept, point)[j] == point(data[KeptPositions(data, kept)[j]])
    decreases |data|
  {
    if |data| > 0 {
      var n := |data| - 1;
      var init := data[..n];
      PointsOfKeptPositions(init, kept, point);
      var ps0, pts0 := KeptPositions(init, kept), Points(init, kept, point);
      assert forall j :: 0 <= j < |ps0| ==> init[ps0[j]] == data[ps0[j]];
      var tail := if kept(data[n]) then [n] else [];
      assert KeptPositions(data, kept) == ps0 + tail;
      assert Points(data, kept, point) == pts0 + (if kept(data[n]) then [point(data[n])] else []);
    }
  }

  /** Every kept record has its position listed. */
  lemma {:induction false} KeptPositionsComplete<E>(data: seq<E>, kept: E -> bool)
    ensures forall i :: 0 <= i < |data| && kept(data[i]) ==> i in KeptPositions(data, kept)
    decreases |data|
  {
    if |data| > 0 {
      var n := |data| - 1;
      var init := data[..n];
      KeptPositionsComplete(init, kept);
      assert forall i :: 0 <= i < n ==> init[i] == data[i];
      assert KeptPositions(data, kept) == KeptPositions(init, kept) + (if kept(data[n]) then [n] else []);
    }
  }

  /** Appending a record that the filter drops changes nothing. */
  lemma DroppedIgnored<E(!new)>(data: seq<E>, e: E, kept: E -> bool, point: E --> Point)
    requires Admissible(kept, point)
    requires !kept(e)
    ensures Points(data + [e], kept, point) == Points(data, kept, point)
  {
    assert (data + [e])[..|data|] == data;
  }
}
