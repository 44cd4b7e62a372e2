/**
 * The protocol front end, `ProtocolAnalyzer.analyzeProtocolData`: the
 * protocol's descriptive fields with their defaults, the choice of the TVL
 * series, the filtering of its raw entries into points, and the hand-off to
 * the engine.
 */
module ProtocolAnalysis {
  import opened Wrappers
  import opened JsValues
  import opened Calendar
  import opened Strings
  import opened Digits
  import opened NumberParsing
  import opened Engine
  import opened Extraction

  /** An element of a raw TVL series: `null` (or another falsy value), or an entry record. */
  datatype RawEntry =
    | NullEntry
    | RawEntry(date: Reading, totalLiquidityUSD: Reading, tokens: Option<seq<Reading>>)
    // `tokens`: None when the field is falsy, otherwise the values of the
    // object in `Object.values` order

  /** A TVL series field: falsy, truthy but not an array, or an array of entries. */
  datatype TvlField = Missing | NotAnArray | Entries(entries: seq<RawEntry>)

  /**
   * `currentChainTvls`: not of type object, `null` (whose `typeof` is
   * "object" too), or an object given by its entries in `Object.entries` order.
   */
  datatype ChainTable = NotAnObject | NullTable | Table(entries: seq<(string, Number)>)

  /** The response of the protocol endpoint, as far as the analysis reads it. */
  datatype ProtocolResponse = ProtocolResponse(
    name: Text,
    address: Text,
    symbol: Text,
    url: Text,
    description: Text,
    chains: Option<seq<string>>,       // None: not an array
    logo: Text,
    audits: Text,                      // Str exactly when `typeof audits === "string"`
    audit_note: Text,
    category: Text,
    oracles: Option<seq<string>>,
    forkedFrom: Option<seq<string>>,
    twitter: Text,
    audit_links: Option<seq<string>>,
    listedAt: Reading,
    github: Option<seq<string>>,
    currentChainTvls: ChainTable,
    chain: Text,
    chainTvls: map<string, TvlField>,  // the `tvl` field of each `chainTvls` entry
    tvl: TvlField)

  /** `listedAt` of the info: the listing date, or the current date when there is none. */
  datatype Listing = ListedOn(date: Instant) | ListedNow

  /** `ProtocolInfo`. */
  datatype ProtocolInfo = ProtocolInfo(
    name: string,
    address: Text,
    symbol: string,
    url: string,
    description: string,
    chains: seq<string>,
    logo: string,
    audits: Number,
    audit_note: Text,
    category: string,
    oracles: seq<string>,
    forkedFrom: seq<string>,
    twitter: string,
    audit_links: seq<string>,
    listedAt: Listing,
    github: seq<string>,
    currentChainTvls: ChainTable)

  /** What `analyzeProtocolData` returns. */
  datatype ProtocolReport = ProtocolReport(info: ProtocolInfo, tvlAnalysis: TvlAnalysis)

  const XPrefix: string := "https://x.com/"
  const GithubPrefix: string := "https://github.com/"

  /** `Array.isArray(x) ? x : []`. */
  function ArrayOrEmpty(x: Option<seq<string>>): (r: seq<string>)
    ensures x.Some? ==> r == x.value
    ensures x.None? ==> r == []
  {
    if x.Some? then x.value else []
  }

  /** `address.split(":")[1]`: the part after the first colon, up to the next one; undefined without a colon. */
  function AfterChainPrefix(address: string): (r: Text)
    ensures r.Absent? <==> ':' !in address
    ensures r.Str? ==> ':' !in r.s
  {
    var pieces := Split(address, ':');
    if |pieces| >= 2 then Str(pieces[1]) else Absent
  }

  /** The repository links: the GitHub prefix before each repository name, in order. */
  function GithubLinks(repos: seq<string>): (r: seq<string>)
    ensures |r| == |repos|
    ensures forall i :: 0 <= i < |r| ==> r[i] == GithubPrefix + repos[i]
  {
    seq(|repos|, i requires 0 <= i < |repos| => GithubPrefix + repos[i])
  }

  /**
   * The info record: every field of the response, or its default when the
   * field is falsy or mistyped. Names and categories are never empty, an
   * address has no chain prefix left, a note is a non-empty string or `null`,
   * each repository gets one link, and the chain table is always an object or
   * `null`.
   */
  function ExtractInfo(data: ProtocolResponse): (info: ProtocolInfo)
    ensures info.name != "" && info.category != ""
    ensures data.name.Truthy() ==> info.name == data.name.s
    ensures data.category.Truthy() ==> info.category == data.category.s
    ensures info.address.Str? ==> ':' !in info.address.s
    ensures info.address.Absent? <==> data.address.Truthy() && ':' !in data.address.s
    ensures info.audit_note.Truthy() || info.audit_note.NullText?
    ensures data.audit_note.Truthy() ==> info.audit_note == data.audit_note
    ensures info.twitter != "" <==> data.twitter.Truthy()
    ensures data.twitter.Truthy() ==> info.twitter == XPrefix + data.twitter.s
    ensures info.listedAt.ListedOn? <==> data.listedAt.Truthy()
    ensures data.github.Some? ==> |info.github| == |data.github.value|
    ensures !info.currentChainTvls.NotAnObject?
  {
    ProtocolInfo(
      name := data.name.Or("Unknown"),
      address := if data.address.Truthy() then AfterChainPrefix(data.address.s) else Str(""),
      symbol := data.symbol.Or(""),
      url := data.url.Or(""),
      description := data.description.Or(""),
      chains := ArrayOrEmpty(data.chains),
      logo := data.logo.Or(""),
      audits := if data.audits.Str? then ParseInt(data.audits.s) else Finite(0.0),
      audit_note := if data.audit_note.Truthy() then data.audit_note else NullText,
      category := data.category.Or("Unknown"),
      oracles := ArrayOrEmpty(data.oracles),
      forkedFrom := ArrayOrEmpty(data.forkedFrom),
      twitter := if data.twitter.Truthy() then XPrefix + data.twitter.s else "",
      audit_links := ArrayOrEmpty(data.audit_links),
      listedAt := if data.listedAt.Truthy() then ListedOn(FromSeconds(data.listedAt)) else ListedNow,
      github := if data.github.Some? then GithubLinks(data.github.value) else [],
      currentChainTvls := if data.currentChainTvls.NotAnObject? then Table([]) else data.currentChainTvls)
  }

  /** A contract address qualified by its chain, `chain:address`, yields the bare address. */
  lemma AddressOfQualified(chain: string, address: string)
    requires ':' !in chain && ':' !in address
    ensures AfterChainPrefix(chain + ":" + address) == Str(address)
  {
    SplitPrefix(chain, address, ':');
    SplitOfPiece(address, ':');
    assert chain + ":" + address == chain + [':'] + address;
  }

  /** A decimal audit count is read back as that count. */
  lemma AuditCountOfDecimal(data: ProtocolResponse, n: nat)
    requires data.audits == Str(Decimal(n))
    ensures ExtractInfo(data).audits == Finite(n as real)
  {
    ParseIntOfDecimal(n, "");
    assert Decimal(n) + "" == Decimal(n);
  }

  /** `data.chainTvls?.[data.chain]?.tvl`: the per-chain series under the chain's name. */
  function ChainSeries(data: ProtocolResponse): (r: TvlField)
    ensures data.chain.Interpolate() !in data.chainTvls ==> r == Missing
  {
    var key := data.chain.Interpolate();
    if key in data.chainTvls then data.chainTvls[key] else Missing
  }

  /**
   * The series analysed: the chain's own series when it is truthy, else the
   * protocol-wide `tvl` when that is truthy, else an empty array. It is never
   * missing.
   */
  function SelectSeries(data: ProtocolResponse): (r: TvlField)
    ensures r != Missing
    ensures ChainSeries(data) != Missing ==> r == ChainSeries(data)
    ensures ChainSeries(data) == Missing && data.tvl != Missing ==> r == data.tvl
    ensures ChainSeries(data) == Missing && data.tvl == Missing ==> r == Entries([])
  {
    if ChainSeries(data) != Missing then ChainSeries(data)
    else if data.tvl != Missing then data.tvl
    else Entries([])
  }

  /**
   * The value read from an entry: its `totalLiquidityUSD` when that is truthy,
   * else the first token value when there are tokens (undefined when the
   * token object is empty), else 0.
   */
  function EntryValue(e: RawEntry): Reading
    requires e.RawEntry?
  {
    if e.totalLiquidityUSD.Truthy() then e.totalLiquidityUSD
    else if e.tokens.Some? then (if |e.tokens.value| > 0 then e.tokens.value[0] else Undefined)
    else Num(0.0)
  }

  /**
   * An entry survives both filters: it is present with a numeric date (NaN
   * included), and the value read from it is neither undefined, null nor NaN.
   */
  predicate Kept(e: RawEntry) {
    e.RawEntry? && e.date.IsNumber() && EntryValue(e).Num?
  }

  /** The point built from a kept entry. */
  function PointOf(e: RawEntry): Point
    requires Kept(e)
  {
    Point(FromSeconds(e.date), EntryValue(e).amount)
  }

  lemma AdmissibleEntries()
    ensures Admissible(Kept, PointOf)
  {
    forall e | Kept(e)
      ensures ClippedPoint(PointOf(e))
    {
      var d := FromSeconds(e.date);
    }
  }

  /**
   * `filter`, `map`, `filter` over the raw series: the points of the kept
   * entries, in order.
   */
  function ExtractPoints(raw: seq<RawEntry>): (r: seq<Point>)
    ensures |r| == 0 <==> forall i :: 0 <= i < |raw| ==> !Kept(raw[i])
    ensures |r| == |KeptPositions(raw, Kept)|
    ensures forall j :: 0 <= j < |r| ==> r[j] == PointOf(raw[KeptPositions(raw, Kept)[j]])
  {
    AdmissibleEntries();
    PointsOfKeptPositions(raw, Kept, PointOf);
    Points(raw, Kept, PointOf)
  }

  /** Appending an entry that a filter drops changes nothing. */
  lemma DroppedEntryIgnored(raw: seq<RawEntry>, e: RawEntry)
    requires !Kept(e)
    ensures ExtractPoints(raw + [e]) == ExtractPoints(raw)
  {
    AdmissibleEntries();
    DroppedIgnored(raw, e, Kept, PointOf);
  }

  /** A zero `totalLiquidityUSD` is falsy, so the first token value is read instead. */
  lemma ZeroLiquidityReadsTokens(date: real, first: real, rest: seq<Reading>)
    ensures ExtractPoints([RawEntry(Num(date), Num(0.0), Some([Num(first)] + rest))]) ==
      [Point(FromSeconds(Num(date)), first)]
  {
    var raw := [RawEntry(Num(date), Num(0.0), Some([Num(first)] + rest))];
    assert raw[..0] == [];
  }

  /** The points of the selected series; a series that is not an array has none. */
  function SeriesPoints(data: ProtocolResponse): (r: seq<Point>)
    ensures SelectSeries(data).Entries? ==> r == ExtractPoints(SelectSeries(data).entries)
  {
    var series := SelectSeries(data);
    if series.Entries? then ExtractPoints(series.entries) else []
  }

  function InvalidStructureMessage(name: Text): string {
    "Invalid TVL data structure for protocol " + name.Interpolate()
  }

  function NoValidDataMessage(name: Text): string {
    "No valid TVL data found for protocol " + name.Interpolate()
  }

  /**
   * `analyzeProtocolData`. It throws when the selected series is not an array,
   * then when no entry survives the filters, then when a surviving date is
   * invalid; otherwise it reports the info and the analysis of the points.
   */
  function AnalyzeProtocol(data: ProtocolResponse, offset: int -> int): (r: Result<ProtocolReport, AnalysisError>)
    ensures (r.Err? && r.error.InvalidStructure?) <==> SelectSeries(data).NotAnArray?
    ensures r.Err? && r.error.InvalidStructure? ==> r.error.message == InvalidStructureMessage(data.name)
    ensures (r.Err? && r.error.NoValidData?) <==>
      SelectSeries(data).Entries? && forall i :: 0 <= i < |SelectSeries(data).entries| ==> !Kept(SelectSeries(data).entries[i])
    ensures r.Err? && r.error.NoValidData? ==> r.error.message == NoValidDataMessage(data.name)
    ensures (r.Err? && r.error == InvalidTimeValue) <==>
      SelectSeries(data).Entries? && |SeriesPoints(data)| > 0 && !AllValid(SeriesPoints(data))
    ensures r.Err? ==> !r.error.NullToObject?
    ensures r.Ok? ==> |SeriesPoints(data)| > 0 && AllValid(SeriesPoints(data))
    ensures r.Ok? ==> r.value.info == ExtractInfo(data)
    ensures r.Ok? ==> r.value.tvlAnalysis == Analysis(SeriesPoints(data), offset)
  {
    var info := ExtractInfo(data);
    var series := SelectSeries(data);
    if series.NotAnArray? then Err(InvalidStructure(InvalidStructureMessage(data.name)))
    else
      var points := SeriesPoints(data);
      if |points| == 0 then Err(NoValidData(NoValidDataMessage(data.name)))
      else
        match Analyze(points, offset)
        case Err(e) => Err(e)
        case Ok(analysis) => Ok(ProtocolReport(info, analysis))
  }
}
