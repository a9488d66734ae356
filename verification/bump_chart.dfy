/**
 * The data behind the bump chart of final rankings: the swimming events of
 * the selected gender and stroke style, their distance labels, the ranked
 * individual final results, the countries among them, one rank series per
 * athlete, the country filter and the largest rank on the y axis. The
 * selection state, whose country is reset when the gender or the style
 * changes, is a class whose methods update it in place.
 */
module BumpChart {
  import opened Seqs
  import opened Text
  import opened Rows

  // ----- The event list ---------------------------------------------------

  /** A catalogue row is listed for the selection: a swimming event of that style and gender, not a relay. */
  predicate SelectsEvent(row: EventRow, style: string, gender: string) {
    && row.sport == "Swimming"
    && Contains(row.event, style)
    && Contains(row.event, gender)
    && !Contains(row.event, "Relay")
  }

  function EventName(row: EventRow): string {
    row.event
  }

  /** The selected events, in catalogue order. */
  function EventList(catalogue: seq<EventRow>, style: string, gender: string): seq<string> {
    Map(Filter(catalogue, (row: EventRow) => SelectsEvent(row, style, gender)), EventName)
  }

  /**
   * Every listed event is the name of a catalogue row that passes the
   * selection, every such row's name is listed, and the list keeps the
   * order of the catalogue's event column.
   */
  lemma EventListSpec(catalogue: seq<EventRow>, style: string, gender: string)
    ensures var list := EventList(catalogue, style, gender);
      && (forall e :: e in list <==> exists row :: row in catalogue && SelectsEvent(row, style, gender) && row.event == e)
      && IsSubseq(list, Map(catalogue, EventName))
  {
    var p := (row: EventRow) => SelectsEvent(row, style, gender);
    var kept := Filter(catalogue, p);
    forall e ensures e in Map(kept, EventName) <==>
      exists row :: row in catalogue && SelectsEvent(row, style, gender) && row.event == e
    {
      MapMember(kept, EventName, e);
    }
    FilterMapSubseq(catalogue, p, EventName);
  }

  /** A listed event contains the style and the gender and is not a relay. */
  lemma EventListMember(catalogue: seq<EventRow>, style: string, gender: string, e: string)
    requires e in EventList(catalogue, style, gender)
    ensures Contains(e, style) && Contains(e, gender) && !Contains(e, "Relay")
  {
    EventListSpec(catalogue, style, gender);
  }

  // ----- Distance labels: the leftmost match of /\d+m/ ----------------------

  /** The end of the run of digits that starts at `i`: the first non-digit position at or after `i`. */
  function DigitRunEnd(s: string, i: nat): (j: nat)
    requires i <= |s|
    ensures i <= j <= |s|
    ensures forall k :: i <= k < j ==> IsDigit(s[k])
    ensures j == |s| || !IsDigit(s[j])
    decreases |s| - i
  {
    if i < |s| && IsDigit(s[i]) then DigitRunEnd(s, i + 1) else i
  }

  /** The pattern matches at `i`: a digit there, and the digit run ends on an `m`. */
  predicate MatchStartsAt(s: string, i: nat) {
    && i < |s|
    && IsDigit(s[i])
    && DigitRunEnd(s, i) < |s|
    && s[DigitRunEnd(s, i)] == 'm'
  }

  /** The first position at or after `i` where the pattern matches. */
  function LeftmostMatch(s: string, i: nat): (r: Option<nat>)
    requires i <= |s|
    ensures r.Some? ==> i <= r.value < |s| && MatchStartsAt(s, r.value)
    ensures r.Some? ==> forall k :: i <= k < r.value ==> !MatchStartsAt(s, k)
    ensures r.None? ==> forall k :: i <= k < |s| ==> !MatchStartsAt(s, k)
    decreases |s| - i
  {
    if i == |s| then None
    else if MatchStartsAt(s, i) then Some(i)
    else LeftmostMatch(s, i + 1)
  }

  /** The label of an event: the matched text `digits + "m"`, or the whole name without a match. */
  function Label(e: string): string {
    match LeftmostMatch(e, 0)
    case Some(a) => e[a..DigitRunEnd(e, a) + 1]
    case None => e
  }

  function EventLabels(events: seq<string>): seq<string> {
    Map(events, Label)
  }

  /** `e[i..j+1]` is one or more digits followed by `m`: a match of /\d+m/. */
  predicate DigitsThenM(e: string, i: int, j: int) {
    && 0 <= i < j < |e|
    && (forall k :: i <= k < j ==> IsDigit(e[k]))
    && e[j] == 'm'
  }

  /** `e[i..j+1]` is the leftmost match: no match starts before `i`. */
  ghost predicate IsLeftmostMatch(e: string, i: int, j: int) {
    DigitsThenM(e, i, j) && forall i', j' :: DigitsThenM(e, i', j') ==> i <= i'
  }

  /** A match of the pattern at `i` ends where the digit run from `i` ends. */
  lemma {:induction false} MatchEnd(e: string, i: nat, j: nat)
    requires DigitsThenM(e, i, j)
    ensures j == DigitRunEnd(e, i) && MatchStartsAt(e, i)
    decreases j - i
  {
    if i + 1 < j {
      MatchEnd(e, i + 1, j);
    } else {
      assert !IsDigit(e[j]);
    }
  }

  /**
   * The label is the leftmost match of one or more digits followed by `m`,
   * with the digits taken greedily, and the whole name when there is none;
   * either way one label per event.
   */
  lemma LabelIsLeftmostMatch(e: string)
    ensures (forall i, j :: !DigitsThenM(e, i, j)) ==> Label(e) == e
    ensures forall i, j :: IsLeftmostMatch(e, i, j) ==> Label(e) == e[i..j + 1]
  {
    match LeftmostMatch(e, 0)
    case Some(a) =>
      var b := DigitRunEnd(e, a);
      assert DigitsThenM(e, a, b);
      forall i, j | IsLeftmostMatch(e, i, j)
        ensures Label(e) == e[i..j + 1]
      {
        MatchEnd(e, i, j);
      }
    case None =>
      forall i, j | DigitsThenM(e, i, j) ensures false {
        MatchEnd(e, i, j);
      }
  }

  /** One label per listed event, in the same order. */
  lemma EventLabelsSpec(events: seq<string>)
    ensures |EventLabels(events)| == |events|
    ensures forall i :: 0 <= i < |events| ==> EventLabels(events)[i] == Label(events[i])
  {
  }

  /** The label of a typical event name is its distance. */
  lemma LabelExample()
    ensures Label("Men 100m") == "100m"
  {
    var e := "Men 100m";
    assert !MatchStartsAt(e, 0) && !MatchStartsAt(e, 1) && !MatchStartsAt(e, 2) && !MatchStartsAt(e, 3);
    assert DigitRunEnd(e, 4) == 7;
    assert MatchStartsAt(e, 4);
  }

  const RELAY_NAME := "Women's 4x100m Freestyle"

  /** No match starts in "Women's 4x": the run `4` ends on `x`, not `m`. */
  lemma RelayNoEarlyMatch()
    ensures forall k :: 0 <= k < 10 ==> !MatchStartsAt(RELAY_NAME, k)
  {
    var e := RELAY_NAME;
    assert e[9] == 'x' && DigitRunEnd(e, 9) == 9 && DigitRunEnd(e, 8) == 9;
    forall k | 0 <= k < 10 && k != 8 ensures !IsDigit(e[k]) {}
  }

  /** The run `100` from position 10 ends on the `m` at 13. */
  lemma RelayMatch()
    ensures MatchStartsAt(RELAY_NAME, 10) && DigitRunEnd(RELAY_NAME, 10) == 13
  {
    var e := RELAY_NAME;
    assert e[13] == 'm' && DigitRunEnd(e, 13) == 13;
    assert DigitRunEnd(e, 12) == 13 && DigitRunEnd(e, 11) == 13;
  }

  /**
   * A relay-style name: the first digit run, `4`, is followed by `x` and so
   * does not match; the leftmost match is `100m`.
   */
  lemma RelayLabelExample()
    ensures Label(RELAY_NAME) == "100m"
  {
    RelayNoEarlyMatch();
    RelayMatch();
    assert LeftmostMatch(RELAY_NAME, 0) == Some(10);
    assert RELAY_NAME[10..14] == "100m";
  }

  // ----- Ranked final results ------------------------------------------------

  /** One kept final result; its rank is the rank cell under unary `+`. */
  datatype FinalRecord = FinalRecord(event: string, athlete: string, rank: Number, country: string)

  /** A result row is kept: an individual final of a listed event with a non-empty rank. */
  predicate KeepsResult(row: ResultRow, events: seq<string>) {
    && row.stage == "Final"
    && row.eventName in events
    && row.participantType == "Person"
    && row.rank != ""
  }

  function ToRecord(row: ResultRow): FinalRecord {
    FinalRecord(row.eventName, row.participantName, ToNumber(row.rank), row.participantCountry)
  }

  function FinalRecords(results: seq<ResultRow>, events: seq<string>): seq<FinalRecord> {
    Map(Filter(results, (row: ResultRow) => KeepsResult(row, events)), ToRecord)
  }

  /**
   * Every record comes from a kept row, with the rank cell converted to a
   * number, every kept row gives a record, and the records keep the order
   * of the result rows.
   */
  lemma FinalRecordsSpec(results: seq<ResultRow>, events: seq<string>)
    ensures var records := FinalRecords(results, events);
      && (forall r :: r in records <==> exists row :: row in results && KeepsResult(row, events) && ToRecord(row) == r)
      && (forall r :: r in records ==> r.event in events)
      && IsSubseq(records, Map(results, ToRecord))
  {
    var p := (row: ResultRow) => KeepsResult(row, events);
    var kept := Filter(results, p);
    forall r ensures r in Map(kept, ToRecord) <==>
      exists row :: row in results && KeepsResult(row, events) && ToRecord(row) == r
    {
      MapMember(kept, ToRecord, r);
    }
    FilterMapSubseq(results, p, ToRecord);
  }

  function CountryOf(r: FinalRecord): string {
    r.country
  }

  /** The countries of the records, each once: `Array.from(new Set(...))`. */
  function Countries(records: seq<FinalRecord>): seq<string> {
    Distinct(Map(records, CountryOf))
  }

  /** Each country of a record exactly once, in order of first appearance. */
  lemma CountriesSpec(records: seq<FinalRecord>)
    ensures var cs, column := Countries(records), Map(records, CountryOf);
      && NoDup(cs)
      && (forall c :: c in cs <==> exists r :: r in records && r.country == c)
      && (forall i, j :: 0 <= i < j < |cs| ==> FirstIndex(column, cs[i]) < FirstIndex(column, cs[j]))
  {
    forall c ensures c in Countries(records) <==> exists r :: r in records && r.country == c {
      MapMember(records, CountryOf, c);
    }
    DistinctOrder(Map(records, CountryOf));
  }

  // ----- One rank series per athlete -----------------------------------------

  /** A plotted athlete: a rank (or null) per listed event, and a country. */
  datatype RankSeries = RankSeries(athlete: string, ranks: map<string, Option<Number>>, country: string)

  function AthleteOf(r: FinalRecord): string {
    r.athlete
  }

  /** The athletes in order of first appearance: the key order of `d3.group`. */
  function Athletes(records: seq<FinalRecord>): seq<string> {
    Distinct(Map(records, AthleteOf))
  }

  /** The group of one athlete: that athlete's records, in order. */
  function RecordsOf(records: seq<FinalRecord>, athlete: string): seq<FinalRecord> {
    Filter(records, (r: FinalRecord) => r.athlete == athlete)
  }

  /** Record `k` is the first one of event `e`. */
  predicate IsFirstOfEvent(records: seq<FinalRecord>, k: int, e: string) {
    && 0 <= k < |records|
    && records[k].event == e
    && forall j :: 0 <= j < k ==> records[j].event != e
  }

  /** `records.find(r => r.event === e)`, giving its rank, or null when no record matches. */
  function FirstRank(records: seq<FinalRecord>, e: string): (r: Option<Number>)
    ensures r.None? <==> forall k :: 0 <= k < |records| ==> records[k].event != e
    ensures forall k :: IsFirstOfEvent(records, k, e) ==> r == Some(records[k].rank)
  {
    if |records| == 0 then None
    else if records[0].event == e then Some(records[0].rank)
    else
      var r := FirstRank(records[1..], e);
      assert forall k :: IsFirstOfEvent(records, k, e) ==> k > 0 && IsFirstOfEvent(records[1..], k - 1, e);
      r
  }

  /** The `ranks` object of one athlete: every listed event, mapped to its first rank. */
  function Ranks(events: seq<string>, records: seq<FinalRecord>): map<string, Option<Number>> {
    map e | e in events :: FirstRank(records, e)
  }

  /** The `forEach` over the events that fills one athlete's `ranks`. */
  method FillRanks(events: seq<string>, records: seq<FinalRecord>) returns (ranks: map<string, Option<Number>>)
    ensures ranks == Ranks(events, records)
  {
    ranks := map[];
    for i := 0 to |events|
      invariant ranks == Ranks(events[..i], records)
    {
      var e := events[i];
      assert events[..i + 1] == events[..i] + [e];
      var m := Ranks(events[..i + 1], records);
      assert m.Keys == ranks.Keys + {e};
      ranks := ranks[e := FirstRank(records, e)];
    }
    assert events[..|events|] == events;
  }

  /** The series of one athlete; the country is that of the athlete's first record. */
  function SeriesOf(events: seq<string>, records: seq<FinalRecord>, athlete: string): RankSeries {
    var group := RecordsOf(records, athlete);
    // A grouped athlete always has a first record; the empty case does not arise.
    RankSeries(athlete, Ranks(events, group), if |group| == 0 then "" else group[0].country)
  }

  /** `Array.from(groupedData, ...)`: one series per athlete, in group order. */
  function Series(events: seq<string>, records: seq<FinalRecord>): seq<RankSeries> {
    Map(Athletes(records), (a: string) => SeriesOf(events, records, a))
  }

  /** The mapping over the groups, one `FillRanks` per athlete. */
  method FormatSeries(events: seq<string>, records: seq<FinalRecord>) returns (data: seq<RankSeries>)
    ensures data == Series(events, records)
  {
    var athletes := Athletes(records);
    data := [];
    for i := 0 to |athletes|
      invariant |data| == i
      invariant forall j :: 0 <= j < i ==> data[j] == SeriesOf(events, records, athletes[j])
    {
      var a := athletes[i];
      var group := RecordsOf(records, a);
      var ranks := FillRanks(events, group);
      var country := if |group| == 0 then "" else group[0].country;
      var series := RankSeries(a, ranks, country);
      assert series == SeriesOf(events, records, a);
      data := data + [series];
    }
    var spec := Series(events, records);
    assert |data| == |spec|;
    assert forall j :: 0 <= j < |data| ==> data[j] == spec[j];
  }

  /** The first record of an athlete's group is the athlete's first record overall. */
  lemma GroupFirst(records: seq<FinalRecord>, athlete: string)
    requires athlete in Map(records, AthleteOf)
    ensures var group, k := RecordsOf(records, athlete), FirstIndex(Map(records, AthleteOf), athlete);
      |group| > 0 && group[0] == records[k]
  {
    var k := FirstIndex(Map(records, AthleteOf), athlete);
    FilterFirst(records, (r: FinalRecord) => r.athlete == athlete, k);
  }

  /**
   * One series per distinct athlete, in order of first appearance; the keys
   * of each `ranks` are exactly the listed events, each mapped to the rank
   * of the athlete's first record for it or null; the country is that of
   * the athlete's first record.
   */
  lemma SeriesSpec(events: seq<string>, records: seq<FinalRecord>)
    ensures var data, column := Series(events, records), Map(records, AthleteOf);
      && |data| == |Distinct(column)|
      && (forall i :: 0 <= i < |data| ==> data[i].athlete == Distinct(column)[i])
      && (forall i, j :: 0 <= i < j < |data| ==> FirstIndex(column, data[i].athlete) < FirstIndex(column, data[j].athlete))
      && (forall s :: s in data ==> s.ranks.Keys == set e | e in events)
      && (forall s, e :: s in data && e in events ==> s.ranks[e] == FirstRank(RecordsOf(records, s.athlete), e))
      && (forall s :: s in data ==> s.athlete in column && s.country == records[FirstIndex(column, s.athlete)].country)
  {
    var data, column := Series(events, records), Map(records, AthleteOf);
    DistinctOrder(column);
    forall s | s in data
      ensures s.athlete in column && s.country == records[FirstIndex(column, s.athlete)].country
    {
      var i :| 0 <= i < |data| && data[i] == s;
      assert s.athlete in Distinct(column);
      GroupFirst(records, s.athlete);
    }
  }

  /** When every record's event is listed, every athlete has at least one non-null rank. */
  lemma SeriesHaveRank(events: seq<string>, records: seq<FinalRecord>)
    requires forall r :: r in records ==> r.event in events
    ensures forall s :: s in Series(events, records) ==> exists e :: e in events && s.ranks[e].Some?
  {
    var column := Map(records, AthleteOf);
    forall s | s in Series(events, records)
      ensures exists e :: e in events && s.ranks[e].Some?
    {
      SeriesSpec(events, records);
      var group := RecordsOf(records, s.athlete);
      GroupFirst(records, s.athlete);
      assert group[0] in records;
      var e := group[0].event;
      assert IsFirstOfEvent(group, 0, e);
      assert s.ranks[e] == FirstRank(group, e);
    }
  }

  /** Every athlete of the derived data has a rank for some listed event. */
  lemma DerivedSeriesHaveRank(results: seq<ResultRow>, events: seq<string>)
    ensures forall s :: s in Series(events, FinalRecords(results, events)) ==>
      exists e :: e in events && s.ranks[e].Some?
  {
    FinalRecordsSpec(results, events);
    SeriesHaveRank(events, FinalRecords(results, events));
  }

  /** With no listed event no result is kept, so there is no series either. */
  lemma NoEventsNoSeries(results: seq<ResultRow>, events: seq<string>)
    requires |events| == 0
    ensures FinalRecords(results, events) == []
    ensures Series(events, FinalRecords(results, events)) == []
  {
    FilterNone(results, (row: ResultRow) => KeepsResult(row, events));
  }

  // ----- The country filter and the largest rank ------------------------------

  /** The series shown: all of them with no country selected, else those of the selected country. */
  function CountryFilter(data: seq<RankSeries>, selected: string): seq<RankSeries> {
    if selected == "" then data else Filter(data, (d: RankSeries) => d.country == selected)
  }

  /**
   * With no selection nothing is removed; otherwise exactly the series of
   * the selected country remain, in order.
   */
  lemma CountryFilterSpec(data: seq<RankSeries>, selected: string)
    ensures selected == "" ==> CountryFilter(data, selected) == data
    ensures selected != "" ==>
      forall d :: d in CountryFilter(data, selected) <==> d in data && d.country == selected
    ensures IsSubseq(CountryFilter(data, selected), data)
  {
    if selected == "" {
      FilterAll(data, (d: RankSeries) => true);
      FilterSubseq(data, (d: RankSeries) => true);
    } else {
      FilterSubseq(data, (d: RankSeries) => d.country == selected);
    }
  }

  /** `d.ranks[e]` as `d3.max` sees it: a number, or nothing for null, NaN or an absent key. */
  function CellValue(ranks: map<string, Option<Number>>, e: string): Option<int> {
    if e in ranks && ranks[e].Some? && ranks[e].value.Int? then Some(ranks[e].value.value) else None
  }

  function MaxOpt(a: Option<int>, b: Option<int>): (r: Option<int>)
    ensures r.None? <==> a.None? && b.None?
    ensures r == a || r == b
    ensures a.Some? ==> r.Some? && a.value <= r.value
    ensures b.Some? ==> r.Some? && b.value <= r.value
  {
    match (a, b)
    case (Some(x), Some(y)) => if x >= y then a else b
    case (Some(_), None) => a
    case (None, _) => b
  }

  /** `d3.max(events.map(e => d.ranks[e]))`. */
  function RowMax(ranks: map<string, Option<Number>>, events: seq<string>): Option<int> {
    if |events| == 0 then None
    else MaxOpt(RowMax(ranks, events[..|events| - 1]), CellValue(ranks, events[|events| - 1]))
  }

  /** `maxRank`: the outer `d3.max` over the shown series. */
  function MaxRank(data: seq<RankSeries>, events: seq<string>): Option<int> {
    if |data| == 0 then None
    else MaxOpt(MaxRank(data[..|data| - 1], events), RowMax(data[|data| - 1].ranks, events))
  }

  /** Rank `n` is plotted: some shown series has it for some listed event. */
  ghost predicate Plotted(data: seq<RankSeries>, events: seq<string>, n: int) {
    exists i, j :: 0 <= i < |data| && 0 <= j < |events| && CellValue(data[i].ranks, events[j]) == Some(n)
  }

  /** The row maximum is a value of the row that no value of the row exceeds. */
  lemma {:induction false} RowMaxSpec(ranks: map<string, Option<Number>>, events: seq<string>)
    ensures var r := RowMax(ranks, events);
      && (r.None? <==> forall j :: 0 <= j < |events| ==> CellValue(ranks, events[j]).None?)
      && (r.Some? ==> exists j :: 0 <= j < |events| && CellValue(ranks, events[j]) == r)
      && (forall j :: 0 <= j < |events| && CellValue(ranks, events[j]).Some? ==>
            r.Some? && CellValue(ranks, events[j]).value <= r.value)
  {
    if |events| > 0 {
      var n := |events| - 1;
      var init := events[..n];
      RowMaxSpec(ranks, init);
      assert forall j :: 0 <= j < n ==> events[j] == init[j];
    }
  }

  /**
   * The largest rank is a plotted rank that no plotted rank exceeds, and
   * there is none exactly when nothing is plotted.
   */
  lemma {:induction false} MaxRankSpec(data: seq<RankSeries>, events: seq<string>)
    ensures var r := MaxRank(data, events);
      && (r.None? <==> forall n :: !Plotted(data, events, n))
      && (r.Some? ==> Plotted(data, events, r.value))
      && (forall n :: Plotted(data, events, n) ==> r.Some? && n <= r.value)
  {
    if |data| > 0 {
      var m := |data| - 1;
      var init, last := data[..m], data[m];
      MaxRankSpec(init, events);
      RowMaxSpec(last.ranks, events);
      PlottedSnoc(data, events);
    }
  }

  /** A rank is plotted in `data` iff it is plotted before the last series or in the last one. */
  lemma PlottedSnoc(data: seq<RankSeries>, events: seq<string>)
    requires |data| > 0
    ensures forall n :: Plotted(data, events, n) <==>
      Plotted(data[..|data| - 1], events, n)
      || exists j :: 0 <= j < |events| && CellValue(data[|data| - 1].ranks, events[j]) == Some(n)
  {
    var m := |data| - 1;
    var init := data[..m];
    forall n ensures Plotted(data, events, n) <==>
      Plotted(init, events, n) || exists j :: 0 <= j < |events| && CellValue(data[m].ranks, events[j]) == Some(n)
    {
      if Plotted(data, events, n) {
        var i, j :| 0 <= i < |data| && 0 <= j < |events| && CellValue(data[i].ranks, events[j]) == Some(n);
        if i < m {
          assert init[i] == data[i];
        }
      }
      if Plotted(init, events, n) {
        var i, j :| 0 <= i < |init| && 0 <= j < |events| && CellValue(init[i].ranks, events[j]) == Some(n);
        assert data[i] == init[i];
      }
    }
  }

  /**
   * Everything the load effect derives for one selection: one label per
   * listed event, each country once, and one series per athlete whose
   * ranks are keyed by exactly the listed events and have at least one
   * ranked event.
   */
  method Derive(catalogue: seq<EventRow>, results: seq<ResultRow>, style: string, gender: string)
    returns (events: seq<string>, labels: seq<string>, countries: seq<string>, data: seq<RankSeries>)
    ensures events == EventList(catalogue, style, gender)
    ensures labels == EventLabels(events)
    ensures countries == Countries(FinalRecords(results, events))
    ensures data == Series(events, FinalRecords(results, events))
    ensures |labels| == |events| && forall i :: 0 <= i < |events| ==> labels[i] == Label(events[i])
    ensures NoDup(countries)
    ensures forall s :: s in data ==> s.ranks.Keys == set e | e in events
    ensures forall s :: s in data ==> exists e :: e in events && s.ranks[e].Some?
  {
    events := EventList(catalogue, style, gender);
    labels := EventLabels(events);
    EventLabelsSpec(events);
    var records := FinalRecords(results, events);
    countries := Countries(records);
    CountriesSpec(records);
    data := FormatSeries(events, records);
    SeriesSpec(events, records);
    DerivedSeriesHaveRank(results, events);
  }

  // ----- The selection state ----------------------------------------------------

  /**
   * The chart's state: the selected gender, style and country, and what the
   * load effect derived from the CSV rows for the current gender and style.
   */
  class BumpChartView {
    const catalogue: seq<EventRow>
    const results: seq<ResultRow>
    var gender: string
    var style: string
    var country: string
    var events: seq<string>
    var labels: seq<string>
    var countries: seq<string>
    var data: seq<RankSeries>

    /** The derived state belongs to the current gender and style. */
    predicate Valid()
      reads this
    {
      && events == EventList(catalogue, style, gender)
      && labels == EventLabels(events)
      && countries == Countries(FinalRecords(results, events))
      && data == Series(events, FinalRecords(results, events))
    }

    /** The first render: style Freestyle, all countries. */
    constructor(catalogue: seq<EventRow>, results: seq<ResultRow>, gender: string)
      ensures Valid()
      ensures this.catalogue == catalogue && this.results == results
      ensures this.gender == gender && style == "Freestyle" && country == ""
    {
      this.catalogue := catalogue;
      this.results := results;
      this.gender := gender;
      style := "Freestyle";
      country := "";
      new;
      events, labels, countries, data := Derive(catalogue, results, style, gender);
    }

    /** The load effect: re-derives everything for the current gender and style. */
    method Reload()
      modifies this
      ensures Valid()
      ensures gender == old(gender) && style == old(style) && country == old(country)
    {
      events, labels, countries, data := Derive(catalogue, results, style, gender);
    }

    /** The gender selector; a different gender resets the country to all countries and reloads. */
    method SelectGender(g: string)
      modifies this
      ensures Valid()
      ensures gender == g && style == old(style)
      ensures country == if g == old(gender) then old(country) else ""
    {
      if g != gender {
        gender := g;
        country := "";
      }
      Reload();
    }

    /** The style selector; a different style resets the country to all countries and reloads. */
    method SelectStyle(s: string)
      modifies this
      ensures Valid()
      ensures style == s && gender == old(gender)
      ensures country == if s == old(style) then old(country) else ""
    {
      if s != style {
        style := s;
        country := "";
      }
      Reload();
    }

    /** The country selector: changes only the filter. */
    method SelectCountry(c: string)
      modifies this
      requires Valid()
      ensures Valid()
      ensures country == c && gender == old(gender) && style == old(style)
      ensures events == old(events) && data == old(data)
    {
      country := c;
    }

    /** The series the chart draws: all of them, or those of the selected country. */
    function Visible(): (r: seq<RankSeries>)
      reads this
      ensures country == "" ==> r == data
      ensures country != "" ==> forall d :: d in r <==> d in data && d.country == country
      ensures IsSubseq(r, data)
    {
      CountryFilterSpec(data, country);
      CountryFilter(data, country)
    }

    /** The draw effect returns early when the data or the event list is empty. */
    predicate Draws()
      reads this
    {
      |data| > 0 && |events| > 0
    }

    /**
     * The chart is drawn exactly when some result row is kept for the
     * current gender and style; with no listed event it is never drawn.
     */
    lemma DrawsSpec()
      requires Valid()
      ensures |events| == 0 ==> !Draws()
      ensures Draws() <==> exists row :: row in results && KeepsResult(row, events)
    {
      var records := FinalRecords(results, events);
      if |events| == 0 {
        NoEventsNoSeries(results, events);
      }
      FinalRecordsSpec(results, events);
      SeriesSpec(events, records);
      var column := Map(records, AthleteOf);
      if |records| > 0 {
        assert column[0] in Distinct(column);
        assert records[0] in records;
      }
    }

    /**
     * The top of the y axis: a rank plotted for a visible series and a
     * listed event that no plotted rank exceeds, and none when nothing is
     * plotted.
     */
    function TopRank(): (r: Option<int>)
      reads this
      ensures r.None? <==> forall n :: !Plotted(Visible(), events, n)
      ensures r.Some? ==> Plotted(Visible(), events, r.value)
      ensures forall n :: Plotted(Visible(), events, n) ==> r.Some? && n <= r.value
    {
      MaxRankSpec(Visible(), events);
      MaxRank(Visible(), events)
    }
  }
}
