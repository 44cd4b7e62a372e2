/**
 * `formatProtocolAnalysis` and `formatChainTVLAnalysis`: the analysis
 * results turned into display strings, and the month labels of the monthly
 * rows.
 */
module Formatted {
  import opened Wrappers
  import opened JsValues
  import opened Digits
  import opened Calendar
  import opened Bucketing
  import opened EntryOrder
  import opened Engine
  import opened FormatUtils
  import ProtocolAnalysis
  import ChainAnalysis

  /*
   * Month labels
   */

  /** What `monthYear` shows: a month of a year (its spelling in the host's locale is not modelled), or "Invalid Date". */
  datatype MonthLabel = MonthLabel(year: int, month: int) | InvalidDate

  /** The label of an instant, shown in local time on a host with the given offset. */
  function LocalLabel(ms: int, offset: int -> int): (l: MonthLabel)
    ensures l.MonthLabel? && l.year == LocalYear(ms, offset)
  {
    var c := LocalMonth(ms, offset);
    MonthLabel(c.year, c.month)
  }

  /** A month key of the form `YYYY-MM`. */
  predicate IsPlainKey(key: string) {
    |key| == 7 && key[4] == '-' && AllDigits(key[..4]) && AllDigits(key[5..])
  }

  /** A month key of the expanded form `+YYYYYY` or `-YYYYYY`, which names only a year. */
  predicate IsExpandedKey(key: string) {
    |key| == 7 && (key[0] == '+' || key[0] == '-') && AllDigits(key[1..])
  }

  /**
   * `new Date(key)` for a month key: a date-only string, read as the first
   * instant of the month (or of the year, for the expanded form) in UTC.
   * Month 0 or above 12, the year "-000000" and instants out of range give
   * an invalid date.
   */
  function KeyDate(key: string): Instant
  {
    if IsPlainKey(key) then
      var year, month := Value(key[..4]), Value(key[5..]);
      if 1 <= month <= 12 then At(DaysFromCivil(year, month) * MsPerDay) else Invalid
    else if IsExpandedKey(key) && key != "-000000" then
      var ms := DaysFromCivil(KeyYear(key), 1) * MsPerDay;
      if -MaxTimeValue <= ms <= MaxTimeValue then At(ms) else Invalid
    else Invalid
  }

  /**
   * The month label of a monthly row as the formatter computes it: the key,
   * read as a UTC instant, shown in local time.
   */
  function LabelAsWritten(key: string, offset: int -> int): (l: MonthLabel)
    ensures l.InvalidDate? <==> KeyDate(key).Invalid?
  {
    match KeyDate(key)
    case At(ms) => LocalLabel(ms, offset)
    case Invalid => InvalidDate
  }

  /**
   * The month label of a monthly row as intended: the month the key names,
   * whatever the host's offset. An expanded key names only a year and is
   * labelled with its January.
   */
  function KeyLabel(key: string): (l: MonthLabel)
    ensures IsPlainKey(key) ==> (l.MonthLabel? <==> 1 <= Value(key[5..]) <= 12)
    ensures l.MonthLabel? ==> 1 <= l.month <= 12
  {
    if IsPlainKey(key) then
      var year, month := Value(key[..4]), Value(key[5..]);
      if 1 <= month <= 12 then MonthLabel(year, month) else InvalidDate
    else if IsExpandedKey(key) then MonthLabel(KeyYear(key), 1)
    else InvalidDate
  }

  /** The key of a month of the years 0 to 9999 is labelled with that month. */
  lemma KeyLabelOfMonthKey(c: CivilMonth)
    requires 0 <= c.year <= 9999 && 1 <= c.month <= 12
    ensures KeyLabel(MonthKeyOf(c)) == MonthLabel(c.year, c.month)
  {
    var key := MonthKeyOf(c);
    assert key[..4] == Padded(c.year, 4) && key[5..] == Padded(c.month, 2);
    assert key[4] == '-';
    PaddedValue(c.year, 4);
    assert Pow10(2) == 100;
    PaddedValue(c.month, 2);
  }

  /** The key of a month outside the years 0 to 9999 is labelled with the January of its year. */
  lemma KeyLabelOfExpandedKey(c: CivilMonth)
    requires -1_000_000 < c.year < 0 || 9999 < c.year < 1_000_000
    ensures KeyLabel(MonthKeyOf(c)) == MonthLabel(c.year, 1)
  {
    var key := MonthKeyOf(c);
    assert key[1..] == Padded(if c.year < 0 then -c.year else c.year, 6);
    assert key[4] == key[1..][3];
    KeyYearOfMonthKey(c);
  }

  /**
   * West of UTC the formatter labels a month with the month before: on a
   * host five hours behind UTC, the bucket "2020-01", which holds the points
   * of January 2020 (UTC), is shown as December 2019.
   */
  lemma MonthLabelShiftsWestOfUtc(offset: int -> int)
    requires offset(1_577_836_800_000) == -18_000_000
    ensures LabelAsWritten("2020-01", offset) == MonthLabel(2019, 12)
    ensures KeyLabel("2020-01") == MonthLabel(2020, 1)
  {
    KeyDateOf2020();
    assert (1_577_836_800_000 + offset(1_577_836_800_000)) / MsPerDay == 18_261;
    CivilFromDaysExample2();
  }

  /** The host's clock reads UTC at the instant a key parses to, if it parses at all. */
  predicate UtcAt(key: string, offset: int -> int) {
    KeyDate(key).At? ==> offset(KeyDate(key).ms) == 0
  }

  /** An expanded-year key whose January 1 lies outside the range of valid dates. */
  predicate ExpandedOutOfRange(key: string) {
    IsExpandedKey(key) && KeyDate(key).Invalid?
  }

  /**
   * On a host whose clock reads UTC there, the formatter's label is the
   * intended one, save for an expanded key whose January 1 is not a valid date.
   */
  lemma MonthLabelOnUtcHost(key: string, offset: int -> int)
    requires UtcAt(key, offset)
    ensures !ExpandedOutOfRange(key) ==> LabelAsWritten(key, offset) == KeyLabel(key)
  {
    if IsPlainKey(key) {
      var year, month := Value(key[..4]), Value(key[5..]);
      if 1 <= month <= 12 {
        FirstInstantLabel(year, month, offset);
      }
    } else if IsExpandedKey(key) && KeyDate(key).At? {
      FirstInstantLabel(KeyYear(key), 1, offset);
    }
  }

  /** The first instant of a month, shown on a host whose clock reads UTC then, is labelled with that month. */
  lemma FirstInstantLabel(year: int, month: int, offset: int -> int)
    requires 1 <= month <= 12
    requires offset(DaysFromCivil(year, month) * MsPerDay) == 0
    ensures LocalLabel(DaysFromCivil(year, month) * MsPerDay, offset) == MonthLabel(year, month)
  {
    var days := DaysFromCivil(year, month);
    DivModUnique(days * MsPerDay, MsPerDay, days, 0);
    CivilFromDaysOfFirst(year, month);
  }

  lemma KeyDateOf2020()
    ensures KeyDate("2020-01") == At(1_577_836_800_000)
    ensures KeyLabel("2020-01") == MonthLabel(2020, 1)
  {
    KeyOf2020();
    DaysOf2020();
  }

  lemma DaysOf2020()
    ensures DaysFromCivil(2020, 1) == 18_262
  {
    assert 2019 / 400 == 5;
    assert (153 * 10 + 2) / 5 == 306;
  }

  lemma KeyOf2020()
    ensures IsPlainKey("2020-01") && Value("2020-01"[..4]) == 2020 && Value("2020-01"[5..]) == 1
  {
    var key := "2020-01";
    assert key[..4] == "2020" && key[5..] == "01";
    assert Value("2") == 2 && Value("20") == 20 && Value("202") == 202;
    assert "2020"[..3] == "202" && "202"[..2] == "20" && "20"[..1] == "2";
    assert "01"[..1] == "0";
  }

  /**
   * The intended label names the month of its key: writing the labelled
   * month back as a key gives the key again.
   */
  lemma KeyLabelRekeys(key: string)
    requires IsPlainKey(key) && 1 <= Value(key[5..]) <= 12
    ensures KeyLabel(key).MonthLabel?
    ensures MonthKeyOf(CivilMonth(KeyLabel(key).year, KeyLabel(key).month)) == key
  {
    var year, month := Value(key[..4]), Value(key[5..]);
    assert KeyLabel(key) == MonthLabel(year, month);
    YearOfPlainKey(key);
    ValuePadded(key[..4]);
    ValuePadded(key[5..]);
    assert month % 100 == month;
    Rejoin(key);
  }

  lemma YearOfPlainKey(key: string)
    requires IsPlainKey(key)
    ensures 0 <= Value(key[..4]) <= 9999
  {
    ValueBound(key[..4]);
    assert Pow10(4) == 10_000;
  }

  lemma Rejoin(key: string)
    requires |key| == 7 && key[4] == '-'
    ensures key == key[..4] + "-" + key[5..]
  {
  }

  /**
   * A label names a month key: for a `YYYY-MM` key, a month exactly when the
   * key's month is 1 to 12, and then the month the key is written back from;
   * for an expanded key, a month of the key's year.
   */
  predicate NamesKey(l: MonthLabel, key: string) {
    && (IsPlainKey(key) ==>
         (l.MonthLabel? <==> 1 <= Value(key[5..]) <= 12) &&
         (l.MonthLabel? ==> MonthKeyOf(CivilMonth(l.year, l.month)) == key))
    && (IsExpandedKey(key) && !IsPlainKey(key) ==> l.MonthLabel? && l.year == KeyYear(key))
  }

  lemma KeyLabelNamesKey(key: string)
    ensures NamesKey(KeyLabel(key), key)
  {
    if IsPlainKey(key) && 1 <= Value(key[5..]) <= 12 {
      KeyLabelRekeys(key);
    }
  }

  /** `formatUtils.monthYear(info.listedAt)`: the listing date, or the current time `now`, in local time. */
  function ListingLabel(listing: ProtocolAnalysis.Listing, now: int, offset: int -> int): (l: MonthLabel)
    ensures listing.ListedNow? ==> l == LocalLabel(now, offset)
    ensures l.InvalidDate? <==> listing == ProtocolAnalysis.ListedOn(Invalid)
  {
    match listing
    case ListedNow => LocalLabel(now, offset)
    case ListedOn(d) => if d.At? then LocalLabel(d.ms, offset) else InvalidDate
  }

  /*
   * Formatted records
   */

  datatype FormattedOverall = FormattedOverall(
    currentTVL: string,
    startingTVL: string,
    averageTVL: string,
    minimumTVL: string,
    maximumTVL: string,
    totalChange: string,
    volatility: real)

  datatype FormattedYear = FormattedYear(
    year: int,
    average: string,
    minimum: string,
    maximum: string,
    startingTVL: string,
    endingTVL: string,
    percentageChange: string)

  datatype FormattedMonth = FormattedMonth(
    month: MonthLabel,
    average: string,
    minimum: string,
    maximum: string,
    startingTVL: string,
    endingTVL: string,
    percentageChange: string)

  datatype FormattedAnalysis = FormattedAnalysis(
    overall: FormattedOverall,
    yearlyAnalysis: seq<FormattedYear>,
    monthlyAnalysis: seq<FormattedMonth>)

  datatype FormattedInfo = FormattedInfo(
    name: string,
    address: Text,
    symbol: string,
    url: string,
    description: string,
    chains: seq<string>,
    logo: string,
    audits: Number,
    audit_note: Text,
    category: string,
    oracles: seq<string>,
    forkedFrom: seq<string>,
    twitter: string,
    audit_links: seq<string>,
    listedAt: MonthLabel,
    github: seq<string>,
    currentChainTvls: seq<(string, string)>)

  /** What `formatProtocolAnalysis` returns. */
  datatype FormattedProtocol = FormattedProtocol(protocolInfo: FormattedInfo, tvlAnalysis: FormattedAnalysis)

  /** An amount of US dollars as every figure of the output shows it. */
  function Money(v: real): string {
    CompactCurrency(Finite(v))
  }

  function FormatOverall(o: OverallSummary): FormattedOverall {
    FormattedOverall(
      currentTVL := Money(o.currentTVL),
      startingTVL := Money(o.startTVL),
      averageTVL := Money(o.avgTVL),
      minimumTVL := Money(o.minTVL),
      maximumTVL := Money(o.maxTVL),
      totalChange := ChangePercent(o.totalChangePercent),
      volatility := o.variance)
  }

  function FormatYear(s: PeriodSummary<int>): FormattedYear {
    FormattedYear(s.period, Money(s.avgTVL), Money(s.minTVL), Money(s.maxTVL),
                  Money(s.startTVL), Money(s.endTVL), ChangePercent(s.changePercent))
  }

  /** A monthly row as the formatter builds it, labelled with `monthYear(new Date(key))`. */
  function FormatMonth(s: PeriodSummary<string>, offset: int -> int): FormattedMonth {
    FormattedMonth(LabelAsWritten(s.period, offset), Money(s.avgTVL), Money(s.minTVL), Money(s.maxTVL),
                   Money(s.startTVL), Money(s.endTVL), ChangePercent(s.changePercent))
  }

  /**
   * A monthly row as intended: the same figures as the formatter's row, with
   * a label that names the bucket's key on every host.
   */
  function IntendedMonth(s: PeriodSummary<string>, offset: int -> int): (f: FormattedMonth)
    ensures f == FormatMonth(s, offset).(month := f.month)
    ensures NamesKey(f.month, s.period)
  {
    KeyLabelNamesKey(s.period);
    FormatMonth(s, offset).(month := KeyLabel(s.period))
  }

  /** On a host whose clock reads UTC at the key's instant, the formatter's row is the intended row. */
  lemma IntendedMonthOnUtcHost(s: PeriodSummary<string>, offset: int -> int)
    requires UtcAt(s.period, offset) && !ExpandedOutOfRange(s.period)
    ensures FormatMonth(s, offset) == IntendedMonth(s, offset)
  {
    MonthLabelOnUtcHost(s.period, offset);
  }

  /**
   * The formatted analysis: one row per year and per month, in the order of
   * the analysis, each keeping its year or labelled with its month.
   */
  function FormatAnalysis(a: TvlAnalysis, offset: int -> int): (f: FormattedAnalysis)
    ensures |f.yearlyAnalysis| == |a.byYear| && |f.monthlyAnalysis| == |a.byMonth|
    ensures forall i :: 0 <= i < |a.byYear| ==> f.yearlyAnalysis[i] == FormatYear(a.byYear[i])
    ensures forall i :: 0 <= i < |a.byMonth| ==> f.monthlyAnalysis[i] == FormatMonth(a.byMonth[i], offset)
    ensures f.overall == FormatOverall(a.overall)
  {
    FormattedAnalysis(
      FormatOverall(a.overall),
      seq(|a.byYear|, i requires 0 <= i < |a.byYear| => FormatYear(a.byYear[i])),
      seq(|a.byMonth|, i requires 0 <= i < |a.byMonth| => FormatMonth(a.byMonth[i], offset)))
  }

  /** The chain table with every amount in compact form, in the same order. */
  function FormatChainTable(entries: seq<(string, Number)>): (r: seq<(string, string)>)
    ensures |r| == |entries|
    ensures forall i :: 0 <= i < |r| ==> r[i].0 == entries[i].0 && r[i].1 == CompactCurrency(entries[i].1)
  {
    seq(|entries|, i requires 0 <= i < |entries| => (entries[i].0, CompactCurrency(entries[i].1)))
  }

  function FormatInfo(info: ProtocolAnalysis.ProtocolInfo, table: seq<(string, string)>, now: int, offset: int -> int): FormattedInfo {
    FormattedInfo(
      info.name, info.address, info.symbol, info.url, info.description, info.chains, info.logo,
      info.audits, info.audit_note, info.category, info.oracles, info.forkedFrom, info.twitter,
      info.audit_links, ListingLabel(info.listedAt, now, offset), info.github, table)
  }

  /**
   * `formatProtocolAnalysis`, on a host with the given offset at time `now`.
   * It fails as the analysis fails, and otherwise exactly when the chain
   * table is `null` (`Object.entries(null)` throws); the rows follow the
   * analysis one for one.
   */
  function FormatProtocol(data: ProtocolAnalysis.ProtocolResponse, now: int, offset: int -> int): (r: Result<FormattedProtocol, AnalysisError>)
    ensures var a := ProtocolAnalysis.AnalyzeProtocol(data, offset);
      && (a.Err? ==> r == Err(a.error))
      && (a.Ok? ==> (r.Err? <==> data.currentChainTvls.NullTable?) && (r.Err? ==> r.error == NullToObject))
      && (r.Ok? ==> a.Ok? && r.value.tvlAnalysis == FormatAnalysis(a.value.tvlAnalysis, offset))
    ensures r.Ok? ==> r.value.protocolInfo.name != "" && r.value.protocolInfo.category != ""
  {
    match ProtocolAnalysis.AnalyzeProtocol(data, offset)
    case Err(e) => Err(e)
    case Ok(report) => FormatReport(report, now, offset)
  }

  /** The formatting of a successful analysis: it throws only on a `null` chain table. */
  function FormatReport(report: ProtocolAnalysis.ProtocolReport, now: int, offset: int -> int): (r: Result<FormattedProtocol, AnalysisError>)
    requires !report.info.currentChainTvls.NotAnObject?
    ensures r.Err? <==> report.info.currentChainTvls.NullTable?
    ensures r.Err? ==> r.error == NullToObject
    ensures r.Ok? ==> r.value.tvlAnalysis == FormatAnalysis(report.tvlAnalysis, offset)
    ensures r.Ok? ==> r.value.protocolInfo.name == report.info.name && r.value.protocolInfo.category == report.info.category
    ensures r.Ok? ==> r.value.protocolInfo.listedAt == ListingLabel(report.info.listedAt, now, offset)
    ensures r.Ok? ==>
      var entries := report.info.currentChainTvls.entries;
      var shown := r.value.protocolInfo.currentChainTvls;
      |shown| == |entries| &&
      forall i :: 0 <= i < |shown| ==> shown[i].0 == entries[i].0 && shown[i].1 == CompactCurrency(entries[i].1)
  {
    var table := report.info.currentChainTvls;
    if table.NullTable? then Err(NullToObject)
    else Ok(FormattedProtocol(FormatInfo(report.info, FormatChainTable(table.entries), now, offset), FormatAnalysis(report.tvlAnalysis, offset)))
  }

  /** What `formatChainTVLAnalysis` returns. */
  datatype FormattedChain = FormattedChain(chainAnalysis: FormattedAnalysis)

  /** `formatChainTVLAnalysis`: it fails exactly as the analysis fails. */
  function FormatChain(data: seq<ChainAnalysis.ChainPoint>, offset: int -> int): (r: Result<FormattedChain, AnalysisError>)
    ensures r.Ok? <==> ChainAnalysis.AnalyzeChain(data, offset).Ok?
    ensures r.Err? ==> r.error == ChainAnalysis.AnalyzeChain(data, offset).error
    ensures r.Ok? ==> r.value.chainAnalysis == FormatAnalysis(ChainAnalysis.AnalyzeChain(data, offset).value, offset)
  {
    match ChainAnalysis.AnalyzeChain(data, offset)
    case Err(e) => Err(e)
    case Ok(a) => Ok(FormattedChain(FormatAnalysis(a, offset)))
  }

  /*
   * What a reader can take from the formatted output
   */

  /**
   * An amount as `Money` shows it: "$0" for zero, and otherwise a figure that
   * reads back as the amount up to rounding in its unit.
   */
  predicate ShowsAmount(s: string, v: real) {
    && (v == 0.0 ==> s == "$0")
    && (v != 0.0 ==> ReadsBackAs(s, MagnitudeOf(Finite(v)), v))
  }

  /**
   * A percentage change as `changePercent` shows it: signed as the value is,
   * ending in '%', and for a finite value a figure within half a hundredth
   * of it.
   */
  predicate ShowsChange(s: string, c: Number) {
    && |s| >= 4 && s[|s| - 1] == '%'
    && (s[0] == '+' <==> c.AtLeastZero())
    && (s[0] == '-' <==> c.Negative())
    && (c.Finite? ==>
          var start := if c.value >= 0.0 then 1 else 0;
          ReadFixed(s[start..|s| - 1]).Some? &&
          -0.005 <= ReadFixed(s[start..|s| - 1]).value - c.value <= 0.005)
  }

  lemma MoneyShowsAmount(v: real)
    ensures ShowsAmount(Money(v), v)
  {
    if v == 0.0 {
      CompactCurrencyOfZero();
    } else {
      CompactCurrencyReadsBack(v);
    }
  }

  lemma ChangeShown(c: Number)
    ensures ShowsChange(ChangePercent(c), c)
  {
    if c.Finite? {
      ChangePercentReadsBack(c.value);
    }
  }

  predicate OverallShows(f: FormattedOverall, o: OverallSummary) {
    && ShowsAmount(f.currentTVL, o.currentTVL)
    && ShowsAmount(f.startingTVL, o.startTVL)
    && ShowsAmount(f.averageTVL, o.avgTVL)
    && ShowsAmount(f.minimumTVL, o.minTVL)
    && ShowsAmount(f.maximumTVL, o.maxTVL)
    && ShowsChange(f.totalChange, o.totalChangePercent)
    && f.volatility == o.variance
  }

  predicate YearRowShows(f: FormattedYear, s: PeriodSummary<int>) {
    && f.year == s.period
    && ShowsAmount(f.average, s.avgTVL)
    && ShowsAmount(f.minimum, s.minTVL)
    && ShowsAmount(f.maximum, s.maxTVL)
    && ShowsAmount(f.startingTVL, s.startTVL)
    && ShowsAmount(f.endingTVL, s.endTVL)
    && ShowsChange(f.percentageChange, s.changePercent)
  }

  /**
   * A monthly row shows its bucket's figures; its label names the bucket's
   * key when the host's clock reads UTC at the key's instant.
   */
  predicate MonthRowShows(f: FormattedMonth, s: PeriodSummary<string>, offset: int -> int) {
    && (UtcAt(s.period, offset) && !ExpandedOutOfRange(s.period) ==> NamesKey(f.month, s.period))
    && ShowsAmount(f.average, s.avgTVL)
    && ShowsAmount(f.minimum, s.minTVL)
    && ShowsAmount(f.maximum, s.maxTVL)
    && ShowsAmount(f.startingTVL, s.startTVL)
    && ShowsAmount(f.endingTVL, s.endTVL)
    && ShowsChange(f.percentageChange, s.changePercent)
  }

  lemma OverallShown(o: OverallSummary)
    ensures OverallShows(FormatOverall(o), o)
  {
    MoneyShowsAmount(o.currentTVL);
    MoneyShowsAmount(o.startTVL);
    MoneyShowsAmount(o.avgTVL);
    MoneyShowsAmount(o.minTVL);
    MoneyShowsAmount(o.maxTVL);
    ChangeShown(o.totalChangePercent);
  }

  lemma YearRowShown(s: PeriodSummary<int>)
    ensures YearRowShows(FormatYear(s), s)
  {
    MoneyShowsAmount(s.avgTVL);
    MoneyShowsAmount(s.minTVL);
    MoneyShowsAmount(s.maxTVL);
    MoneyShowsAmount(s.startTVL);
    MoneyShowsAmount(s.endTVL);
    ChangeShown(s.changePercent);
  }

  lemma MonthRowShown(s: PeriodSummary<string>, offset: int -> int)
    ensures MonthRowShows(FormatMonth(s, offset), s, offset)
  {
    if UtcAt(s.period, offset) {
      MonthLabelOnUtcHost(s.period, offset);
      KeyLabelNamesKey(s.period);
    }
    MoneyShowsAmount(s.avgTVL);
    MoneyShowsAmount(s.minTVL);
    MoneyShowsAmount(s.maxTVL);
    MoneyShowsAmount(s.startTVL);
    MoneyShowsAmount(s.endTVL);
    ChangeShown(s.changePercent);
  }

  /**
   * Every figure of the formatted analysis shows the figure of the analysis
   * it comes from, row for row; on a host whose clock reads UTC, each month
   * row names its bucket's key.
   */
  lemma FormattedAnalysisShows(a: TvlAnalysis, offset: int -> int)
    ensures OverallShows(FormatAnalysis(a, offset).overall, a.overall)
    ensures forall i :: 0 <= i < |a.byYear| ==> YearRowShows(FormatAnalysis(a, offset).yearlyAnalysis[i], a.byYear[i])
    ensures forall i :: 0 <= i < |a.byMonth| ==> MonthRowShows(FormatAnalysis(a, offset).monthlyAnalysis[i], a.byMonth[i], offset)
  {
    var f := FormatAnalysis(a, offset);
    OverallShown(a.overall);
    forall i | 0 <= i < |a.byYear|
      ensures YearRowShows(f.yearlyAnalysis[i], a.byYear[i])
    {
      YearRowShown(a.byYear[i]);
    }
    forall i | 0 <= i < |a.byMonth|
      ensures MonthRowShows(f.monthlyAnalysis[i], a.byMonth[i], offset)
    {
      MonthRowShown(a.byMonth[i], offset);
    }
  }

  /** The years of the yearly rows, in order. */
  function RowYears(rows: seq<FormattedYear>): (r: seq<int>)
    ensures |r| == |rows|
    ensures forall i :: 0 <= i < |rows| ==> r[i] == rows[i].year
  {
    seq(|rows|, i requires 0 <= i < |rows| => rows[i].year)
  }

  /**
   * The overall figures of a valid series: the current and starting figures
   * show the last and the first TVL, and the total change carries a plus
   * sign exactly when the TVL did not move against the sign of the first
   * value (from zero it is "NaN%" exactly when the TVL stayed at zero).
   */
  lemma OverallOfSeries(points: seq<Point>, offset: int -> int)
    requires |points| > 0 && AllValid(points)
    ensures var f := FormatAnalysis(Analysis(points, offset), offset).overall;
      var first, last := points[0].tvl, points[|points| - 1].tvl;
      && ShowsAmount(f.currentTVL, last)
      && ShowsAmount(f.startingTVL, first)
      && (first > 0.0 ==> (f.totalChange[0] == '+' <==> last >= first))
      && (first < 0.0 ==> (f.totalChange[0] == '+' <==> last <= first))
      && (first == 0.0 ==> (f.totalChange == "NaN%" <==> last == 0.0))
  {
    var a := Analysis(points, offset);
    var f := FormatAnalysis(a, offset).overall;
    OverallShown(a.overall);
    assert f == FormatOverall(a.overall);
    var first, last := points[0].tvl, points[|points| - 1].tvl;
    if first == 0.0 && last != 0.0 {
      assert !a.overall.totalChangePercent.NaN?;
      assert f.totalChange[0] == '+' || f.totalChange[0] == '-';
    }
  }

  /**
   * The yearly rows of a valid series list each local year of the series
   * once, with non-negative years ascending and ahead of the others.
   */
  lemma YearRowsOfSeries(points: seq<Point>, offset: int -> int)
    requires |points| > 0 && AllValid(points)
    ensures var years := RowYears(FormatAnalysis(Analysis(points, offset), offset).yearlyAnalysis);
      && Distinct(years)
      && (forall y :: y in years <==> y in YearKeys(points, offset))
      && AscendingIndices(years)
  {
    var a := Analysis(points, offset);
    YearlySummaries(points, offset);
    RowYearsArePeriods(a, offset);
  }

  lemma RowYearsArePeriods(a: TvlAnalysis, offset: int -> int)
    ensures RowYears(FormatAnalysis(a, offset).yearlyAnalysis) == Periods(a.byYear)
  {
  }

  /**
   * Each monthly row of a valid series belongs to the month key of some point
   * of the series, and on a host whose clock reads UTC it is labelled with
   * that key.
   */
  lemma MonthRowsOfSeries(points: seq<Point>, offset: int -> int)
    requires |points| > 0 && AllValid(points)
    ensures var a := Analysis(points, offset);
      var rows := FormatAnalysis(a, offset).monthlyAnalysis;
      forall j :: 0 <= j < |rows| ==>
        && a.byMonth[j].period in MonthKeys(points)
        && (UtcAt(a.byMonth[j].period, offset) && !ExpandedOutOfRange(a.byMonth[j].period) ==>
              NamesKey(rows[j].month, a.byMonth[j].period))
  {
    var a := Analysis(points, offset);
    MonthPeriodsAreKeys(points, offset);
    MonthRowsNameKeys(a, offset);
  }

  lemma MonthPeriodsAreKeys(points: seq<Point>, offset: int -> int)
    requires |points| > 0 && AllValid(points)
    ensures forall j :: 0 <= j < |Analysis(points, offset).byMonth| ==> Analysis(points, offset).byMonth[j].period in MonthKeys(points)
  {
    var s := MonthSummaries(points);
    MonthlySummaries(points, offset);
    forall j | 0 <= j < |s|
      ensures s[j].period in MonthKeys(points)
    {
      assert s[j].period == Periods(s)[j];
    }
  }

  lemma MonthRowsNameKeys(a: TvlAnalysis, offset: int -> int)
    ensures forall j :: 0 <= j < |a.byMonth| ==>
      var key := a.byMonth[j].period;
      UtcAt(key, offset) && !ExpandedOutOfRange(key) ==> NamesKey(FormatAnalysis(a, offset).monthlyAnalysis[j].month, key)
  {
    forall j | 0 <= j < |a.byMonth| && UtcAt(a.byMonth[j].period, offset) && !ExpandedOutOfRange(a.byMonth[j].period)
      ensures NamesKey(FormatAnalysis(a, offset).monthlyAnalysis[j].month, a.byMonth[j].period)
    {
      MonthLabelOnUtcHost(a.byMonth[j].period, offset);
      KeyLabelNamesKey(a.byMonth[j].period);
    }
  }
}
