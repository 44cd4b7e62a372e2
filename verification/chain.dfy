/**
 * The chain front end, `ProtocolAnalyzer.analyzeChainTVLData`: the filtering
 * of a chain's historical TVL points and the hand-off to the engine.
 */
module ChainAnalysis {
  import opened Wrappers
  import opened JsValues
  import opened Calendar
  import opened Engine
  import opened Extraction

  /** An element of the chain's series: `null` (or another falsy value), or a point record. */
  datatype ChainPoint = NullPoint | ChainPoint(date: Reading, tvl: Reading)

  /**
   * A point survives the filter: it is present, its date is a number (NaN
   * included), and `isNaN(tvl)` is false, which lets `null` through.
   */
  predicate Kept(p: ChainPoint) {
    p.ChainPoint? && p.date.IsNumber() && !p.tvl.IsNaN()
  }

  /** The point built from a kept record; a `null` TVL counts as 0 in every later step. */
  function PointOf(p: ChainPoint): (r: Point)
    requires Kept(p)
    ensures p.tvl.Num? ==> r.tvl == p.tvl.amount
    ensures p.tvl.Null? ==> r.tvl == 0.0
  {
    Point(FromSeconds(p.date), if p.tvl.Num? then p.tvl.amount else 0.0)
  }

  lemma AdmissiblePoints()
    ensures Admissible(Kept, PointOf)
  {
    forall p | Kept(p)
      ensures ClippedPoint(PointOf(p))
    {
      var d := FromSeconds(p.date);
    }
  }

  /** `filter` then `map`: the points of the kept records, in order. */
  function ExtractPoints(data: seq<ChainPoint>): (r: seq<Point>)
    ensures |r| == 0 <==> forall i :: 0 <= i < |data| ==> !Kept(data[i])
    ensures |r| == |KeptPositions(data, Kept)|
    ensures forall j :: 0 <= j < |r| ==> r[j] == PointOf(data[KeptPositions(data, Kept)[j]])
  {
    AdmissiblePoints();
    PointsOfKeptPositions(data, Kept, PointOf);
    Points(data, Kept, PointOf)
  }

  const NoValidDataMessage: string := "No valid TVL data found for chain"

  /**
   * `analyzeChainTVLData`. It throws when no record survives the filter,
   * then when a surviving date is invalid; otherwise it returns the
   * analysis of the points.
   */
  function AnalyzeChain(data: seq<ChainPoint>, offset: int -> int): (r: Result<TvlAnalysis, AnalysisError>)
    ensures (r.Err? && r.error.NoValidData?) <==> forall i :: 0 <= i < |data| ==> !Kept(data[i])
    ensures r.Err? && r.error.NoValidData? ==> r.error.message == NoValidDataMessage
    ensures (r.Err? && r.error == InvalidTimeValue) <==> |ExtractPoints(data)| > 0 && !AllValid(ExtractPoints(data))
    ensures r.Err? ==> r.error.NoValidData? || r.error == InvalidTimeValue
    ensures r.Ok? ==> |ExtractPoints(data)| > 0 && AllValid(ExtractPoints(data))
    ensures r.Ok? ==> r.value == Analysis(ExtractPoints(data), offset)
  {
    var points := ExtractPoints(data);
    if |points| == 0 then Err(NoValidData(NoValidDataMessage))
    else Analyze(points, offset)
  }

  /** A `null` TVL passes the filter and enters the analysis as 0. */
  lemma NullTvlCountsAsZero(seconds: real)
    ensures ExtractPoints([ChainPoint(Num(seconds), Null)]) == [Point(FromSeconds(Num(seconds)), 0.0)]
  {
    var data := [ChainPoint(Num(seconds), Null)];
    assert data[..0] == [];
  }

  /** A missing TVL is dropped: `isNaN(undefined)` holds. */
  lemma MissingTvlDropped(data: seq<ChainPoint>, date: Reading)
    ensures ExtractPoints(data + [ChainPoint(date, Undefined)]) == ExtractPoints(data)
  {
    assert (data + [ChainPoint(date, Undefined)])[..|data|] == data;
  }
}
