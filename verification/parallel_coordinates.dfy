/**
 * The data behind the parallel-coordinates plot: the events whose
 * individual results cover heats, semifinals and a final (the selectable
 * events), one heats/semifinals/finals rank record per swimmer of the
 * selected event, and the performance group that colours each swimmer.
 */
module ParallelCoordinates {
  import opened Seqs
  import opened Text
  import opened Rows

  datatype Stage = Heats | Semifinals | Finals

  /** The order of the plot's axes. */
  const STAGE_AXIS: seq<Stage> := [Heats, Semifinals, Finals]

  /** Every stage has exactly one axis, and the axes are in competition order. */
  lemma StageAxisSpec(st: Stage)
    ensures NoDup(STAGE_AXIS) && |STAGE_AXIS| == 3
    ensures st in STAGE_AXIS
    ensures STAGE_AXIS[0] == Heats && STAGE_AXIS[1] == Semifinals && STAGE_AXIS[2] == Finals
  {
  }

  /**
   * The stage a result row adds to its event's stage set, read from the
   * lower-cased stage: "heat" anywhere, else "semifinal" anywhere, else
   * exactly "final"; any other stage adds nothing.
   */
  function StageOfRow(stage: string): (r: Option<Stage>)
    ensures var s := ToLower(stage);
      && (r == Some(Heats) <==> Contains(s, "heat"))
      && (r == Some(Semifinals) <==> !Contains(s, "heat") && Contains(s, "semifinal"))
      && (r == Some(Finals) <==> !Contains(s, "heat") && !Contains(s, "semifinal") && s == "final")
  {
    var s := ToLower(stage);
    if Contains(s, "heat") then Some(Heats)
    else if Contains(s, "semifinal") then Some(Semifinals)
    else if s == "final" then Some(Finals)
    else None
  }

  /** The classification ignores the case of ASCII letters. */
  lemma StageOfRowIgnoresCase(stage: string)
    ensures StageOfRow(ToLower(stage)) == StageOfRow(stage)
  {
    ToLowerIdempotent(stage);
  }

  predicate IsPerson(row: ResultRow) {
    row.participantType == "Person"
  }

  function PersonRows(rows: seq<ResultRow>): seq<ResultRow> {
    Filter(rows, IsPerson)
  }

  function EventNames(rows: seq<ResultRow>): seq<string> {
    Map(rows, (row: ResultRow) => row.eventName)
  }

  /** The stages that the rows of `event` add to its stage set. */
  function StagesOf(rows: seq<ResultRow>, event: string): set<Stage> {
    if |rows| == 0 then {}
    else
      var row := rows[|rows| - 1];
      var added := if row.eventName == event && StageOfRow(row.stage).Some? then {StageOfRow(row.stage).value} else {};
      StagesOf(rows[..|rows| - 1], event) + added
  }

  /** A stage is in an event's set exactly when some row of the event classifies as that stage. */
  lemma {:induction false} StagesOfMember(rows: seq<ResultRow>, event: string, st: Stage)
    ensures st in StagesOf(rows, event) <==>
      exists row :: row in rows && row.eventName == event && StageOfRow(row.stage) == Some(st)
  {
    if |rows| > 0 {
      var init := rows[..|rows| - 1];
      StagesOfMember(init, event, st);
      assert forall r :: r in rows <==> r in init || r == rows[|rows| - 1];
    }
  }

  /** The dictionary of stage sets the reduce builds: one entry per event of `rows`. */
  function StageSets(rows: seq<ResultRow>): map<string, set<Stage>> {
    map e | e in EventNames(rows) :: StagesOf(rows, e)
  }

  /**
   * The reduce over the individual rows: creates an empty set the first
   * time an event is met, then adds the row's stage, if any. The keys come
   * out in insertion order.
   */
  method CollectStageSets(persons: seq<ResultRow>) returns (keys: seq<string>, sets: map<string, set<Stage>>)
    ensures keys == Distinct(EventNames(persons))
    ensures sets == StageSets(persons)
  {
    keys, sets := [], map[];
    for i := 0 to |persons|
      invariant keys == Distinct(EventNames(persons[..i]))
      invariant sets == StageSets(persons[..i])
    {
      var row := persons[i];
      assert persons[..i + 1] == persons[..i] + [row];
      EventNamesStep(persons[..i], row);
      StageSetsStep(persons[..i], row);
      if row.eventName !in sets {
        sets := sets[row.eventName := {}];
        keys := keys + [row.eventName];
      }
      match StageOfRow(row.stage)
      case Some(st) =>
        sets := sets[row.eventName := sets[row.eventName] + {st}];
      case None =>
    }
    assert persons[..|persons|] == persons;
  }

  lemma EventNamesStep(rows: seq<ResultRow>, row: ResultRow)
    ensures Distinct(EventNames(rows + [row]))
         == Distinct(EventNames(rows)) + (if row.eventName in StageSets(rows) then [] else [row.eventName])
  {
    var after := rows + [row];
    assert EventNames(after) == EventNames(rows) + [row.eventName];
    assert EventNames(after)[..|rows|] == EventNames(rows);
  }

  /** One more row creates its event's entry when absent, then adds the row's stage. */
  lemma StageSetsStep(rows: seq<ResultRow>, row: ResultRow)
    ensures var e, sets := row.eventName, StageSets(rows);
      var created := if e in sets then sets else sets[e := {}];
      StageSets(rows + [row]) == match StageOfRow(row.stage)
        case Some(st) => created[e := created[e] + {st}]
        case None => created
  {
    var e, sets := row.eventName, StageSets(rows);
    var created := if e in sets then sets else sets[e := {}];
    StageSetsAdd(rows, row);
    if StageOfRow(row.stage).None? {
      assert e in created && created[e] + {} == created[e];
      assert created[e := created[e]] == created;
    }
  }

  /** The stage a row adds: its classified stage, or none. */
  function Added(stage: string): set<Stage> {
    match StageOfRow(stage)
    case Some(st) => {st}
    case None => {}
  }

  lemma StageSetsAdd(rows: seq<ResultRow>, row: ResultRow)
    ensures var e, sets := row.eventName, StageSets(rows);
      var created := if e in sets then sets else sets[e := {}];
      StageSets(rows + [row]) == created[e := created[e] + Added(row.stage)]
  {
    var after := rows + [row];
    var e, sets := row.eventName, StageSets(rows);
    var created := if e in sets then sets else sets[e := {}];
    var m := created[e := created[e] + Added(row.stage)];
    StageSetsKeys(rows, row);
    assert m.Keys == StageSets(after).Keys;
    forall x | x in m ensures StageSets(after)[x] == m[x] {
      StageSetsAt(rows, row, x);
    }
  }

  /** The entry of one event after one more row. */
  lemma StageSetsAt(rows: seq<ResultRow>, row: ResultRow, x: string)
    requires x in StageSets(rows) || x == row.eventName
    ensures x in StageSets(rows + [row])
    ensures StageSets(rows + [row])[x]
         == (if x in StageSets(rows) then StageSets(rows)[x] else {}) + (if x == row.eventName then Added(row.stage) else {})
  {
    StageSetsKeys(rows, row);
    StagesOfStep(rows, row, x);
    if x !in EventNames(rows) {
      StagesOfAbsent(rows, x);
    }
  }

  lemma StageSetsKeys(rows: seq<ResultRow>, row: ResultRow)
    ensures StageSets(rows + [row]).Keys == StageSets(rows).Keys + {row.eventName}
  {
    var after := rows + [row];
    assert EventNames(after) == EventNames(rows) + [row.eventName];
    assert forall x :: x in EventNames(after) <==> x in EventNames(rows) || x == row.eventName;
  }

  lemma StagesOfStep(rows: seq<ResultRow>, row: ResultRow, event: string)
    ensures StagesOf(rows + [row], event) == StagesOf(rows, event) + (if row.eventName == event then Added(row.stage) else {})
  {
    var after := rows + [row];
    assert after[..|after| - 1] == rows;
  }

  lemma StagesOfAbsent(rows: seq<ResultRow>, event: string)
    requires event !in EventNames(rows)
    ensures StagesOf(rows, event) == {}
  {
    MapMember(rows, (r: ResultRow) => r.eventName, event);
    forall st ensures st !in StagesOf(rows, event) {
      StagesOfMember(rows, event, st);
    }
  }

  /** `Object.entries(...).filter(size === 3).map(event)`: the selectable events. */
  function ValidEvents(keys: seq<string>, sets: map<string, set<Stage>>): seq<string> {
    Filter(keys, (e: string) => e in sets && |sets[e]| == 3)
  }

  /** A set of stages has three elements exactly when it holds all three stages. */
  lemma {:induction false} FullStageSet(s: set<Stage>)
    ensures |s| == 3 <==> s == {Heats, Semifinals, Finals}
    ensures |s| == 3 <==> Heats in s && Semifinals in s && Finals in s
  {
    var all := {Heats, Semifinals, Finals};
    forall x | x in s ensures x in all {
      match x
      case Heats =>
      case Semifinals =>
      case Finals =>
    }
    if Heats in s && Semifinals in s && Finals in s {
      assert s == all;
    }
    if s != all {
      var missing :| missing in all && missing !in s;
      var rest := all - {missing};
      assert s <= rest;
      assert |rest| == 2 by {
        match missing
        case Heats => assert rest == {Semifinals, Finals};
        case Semifinals => assert rest == {Heats, Finals};
        case Finals => assert rest == {Heats, Semifinals};
      }
      SubsetSize(s, rest);
    }
  }

  lemma SubsetSize<T>(a: set<T>, b: set<T>)
    requires a <= b
    ensures |a| <= |b|
  {
    assert b == a + (b - a);
  }

  /** Some individual row of `event` has a stage that classifies as `st`. */
  ghost predicate HasStageRow(rows: seq<ResultRow>, event: string, st: Stage) {
    exists row :: row in rows && IsPerson(row) && row.eventName == event && StageOfRow(row.stage) == Some(st)
  }

  /** An event is selectable exactly when its individual rows include a heat, a semifinal and a final. */
  lemma ValidEventMember(rows: seq<ResultRow>, e: string)
    ensures var persons := PersonRows(rows);
      e in ValidEvents(Distinct(EventNames(persons)), StageSets(persons)) <==>
        HasStageRow(rows, e, Heats) && HasStageRow(rows, e, Semifinals) && HasStageRow(rows, e, Finals)
  {
    var persons := PersonRows(rows);
    var s := StagesOf(persons, e);
    ValidIffFull(persons, e);
    FullStageSet(s);
    HasStageRowIff(rows, e, Heats);
    HasStageRowIff(rows, e, Semifinals);
    HasStageRowIff(rows, e, Finals);
    if HasStageRow(rows, e, Heats) {
      HasStageRowEvent(rows, e, Heats);
    }
  }

  /** An event is selectable exactly when it is the event of an individual row and its set is full. */
  lemma ValidIffFull(persons: seq<ResultRow>, e: string)
    ensures e in ValidEvents(Distinct(EventNames(persons)), StageSets(persons)) <==>
      e in EventNames(persons) && |StagesOf(persons, e)| == 3
  {
  }

  lemma HasStageRowIff(rows: seq<ResultRow>, e: string, st: Stage)
    ensures HasStageRow(rows, e, st) <==> st in StagesOf(PersonRows(rows), e)
  {
    var persons := PersonRows(rows);
    StagesOfMember(persons, e, st);
    if HasStageRow(rows, e, st) {
      var row :| row in rows && IsPerson(row) && row.eventName == e && StageOfRow(row.stage) == Some(st);
      assert row in persons;
    }
    if st in StagesOf(persons, e) {
      var row :| row in persons && row.eventName == e && StageOfRow(row.stage) == Some(st);
      assert row in rows && IsPerson(row);
    }
  }

  lemma HasStageRowEvent(rows: seq<ResultRow>, e: string, st: Stage)
    requires HasStageRow(rows, e, st)
    ensures e in EventNames(PersonRows(rows))
  {
    var persons := PersonRows(rows);
    var row :| row in rows && IsPerson(row) && row.eventName == e && StageOfRow(row.stage) == Some(st);
    assert row in persons;
    MapMember(persons, (r: ResultRow) => r.eventName, e);
  }

  /**
   * The selectable events: exactly those whose individual rows cover the
   * three stages, each listed once, in order of first appearance among the
   * individual rows.
   */
  lemma ValidEventsSpec(rows: seq<ResultRow>)
    ensures var persons := PersonRows(rows);
      var valid := ValidEvents(Distinct(EventNames(persons)), StageSets(persons));
      && (forall e :: e in valid <==>
            HasStageRow(rows, e, Heats) && HasStageRow(rows, e, Semifinals) && HasStageRow(rows, e, Finals))
      && NoDup(valid)
      && IsSubseq(valid, Distinct(EventNames(persons)))
  {
    var persons := PersonRows(rows);
    var keys := Distinct(EventNames(persons));
    var sets := StageSets(persons);
    var valid := ValidEvents(keys, sets);
    forall e ensures e in valid <==>
      HasStageRow(rows, e, Heats) && HasStageRow(rows, e, Semifinals) && HasStageRow(rows, e, Finals)
    {
      ValidEventMember(rows, e);
    }
    FilterSubseq(keys, (e: string) => e in sets && |sets[e]| == 3);
    SubseqNoDup(valid, keys);
  }

  /** Heats, semifinals and finals ranks of one swimmer; None is a missing rank. */
  datatype StageRanks = StageRanks(swimmer: string, heats: Option<int>, semifinals: Option<int>, finals: Option<int>)

  /** The field a row sets, by the case-sensitive prefix of its stage. */
  function StageByPrefix(stage: string): Option<Stage> {
    if StartsWith(stage, "Heat") then Some(Heats)
    else if StartsWith(stage, "Semifinal") then Some(Semifinals)
    else if StartsWith(stage, "Final") then Some(Finals)
    else None
  }

  /** `+rank || null`: a rank that is empty, not a number or zero is missing. */
  function RankOrNull(rank: string): (r: Option<int>)
    ensures r.Some? ==> r.value >= 1
    ensures r == None <==> (ToNumber(rank) == NaN || ToNumber(rank) == Int(0))
    ensures ToNumber(rank).Int? && ToNumber(rank).value != 0 ==> r == Some(ToNumber(rank).value)
  {
    match ToNumber(rank)
    case Int(n) => if n != 0 then Some(n) else None
    case NaN => None
  }

  /** A row's stage sets field `st`. */
  predicate SetsField(row: ResultRow, st: Stage) {
    StageByPrefix(row.stage) == Some(st)
  }

  /** Row `k` is the last row whose stage sets field `st`. */
  predicate IsLastOfStage(rows: seq<ResultRow>, k: int, st: Stage) {
    && 0 <= k < |rows|
    && SetsField(rows[k], st)
    && forall j :: k < j < |rows| ==> !SetsField(rows[j], st)
  }

  /** The rank of the last row whose stage sets field `st`; None when no row does. */
  function LastRank(rows: seq<ResultRow>, st: Stage): (r: Option<int>)
    ensures (forall k :: 0 <= k < |rows| ==> !SetsField(rows[k], st)) ==> r == None
    ensures forall k :: IsLastOfStage(rows, k, st) ==> r == RankOrNull(rows[k].rank)
  {
    if |rows| == 0 then None
    else
      var n := |rows| - 1;
      if SetsField(rows[n], st) then
        assert forall k :: IsLastOfStage(rows, k, st) ==> k == n;
        RankOrNull(rows[n].rank)
      else
        LastOfStageInit(rows, st);
        LastRank(rows[..n], st)
  }

  /** When the final row does not set field `st`, the last row that does lies before it. */
  lemma LastOfStageInit(rows: seq<ResultRow>, st: Stage)
    requires |rows| > 0 && !SetsField(rows[|rows| - 1], st)
    ensures forall k :: IsLastOfStage(rows, k, st) ==> IsLastOfStage(rows[..|rows| - 1], k, st)
  {
    var init := rows[..|rows| - 1];
    forall k | IsLastOfStage(rows, k, st) ensures IsLastOfStage(init, k, st) {
      assert k < |init|;
      assert forall j :: k < j < |init| ==> init[j] == rows[j];
    }
  }

  /**
   * The forEach over one swimmer's rows: every field starts missing, and a
   * row whose stage starts with "Heat", "Semifinal" or "Final" overwrites
   * the matching field.
   */
  method SwimmerRanks(swimmer: string, rows: seq<ResultRow>) returns (r: StageRanks)
    ensures r == StageRanks(swimmer, LastRank(rows, Heats), LastRank(rows, Semifinals), LastRank(rows, Finals))
  {
    r := StageRanks(swimmer, None, None, None);
    for i := 0 to |rows|
      invariant r == StageRanks(swimmer, LastRank(rows[..i], Heats), LastRank(rows[..i], Semifinals), LastRank(rows[..i], Finals))
    {
      var d := rows[i];
      assert rows[..i + 1][..i] == rows[..i];
      if StartsWith(d.stage, "Heat") {
        r := r.(heats := RankOrNull(d.rank));
      } else if StartsWith(d.stage, "Semifinal") {
        r := r.(semifinals := RankOrNull(d.rank));
      } else if StartsWith(d.stage, "Final") {
        r := r.(finals := RankOrNull(d.rank));
      }
    }
    assert rows[..|rows|] == rows;
  }

  /** The record of one swimmer, from that swimmer's rows. */
  function RanksOf(swimmer: string, rows: seq<ResultRow>): StageRanks {
    StageRanks(swimmer, LastRank(rows, Heats), LastRank(rows, Semifinals), LastRank(rows, Finals))
  }

  function Participants(rows: seq<ResultRow>): seq<string> {
    Map(rows, (row: ResultRow) => row.participantName)
  }

  function RowsOfEvent(rows: seq<ResultRow>, event: string): seq<ResultRow> {
    Filter(rows, (row: ResultRow) => row.eventName == event)
  }

  function RowsOfSwimmer(rows: seq<ResultRow>, swimmer: string): seq<ResultRow> {
    Filter(rows, (row: ResultRow) => row.participantName == swimmer)
  }

  /** The plotted records of an event: `d3.group` by swimmer, then one record per group. */
  function SwimmerRecords(rows: seq<ResultRow>, event: string): seq<StageRanks> {
    var eventRows := RowsOfEvent(rows, event);
    Map(Distinct(Participants(eventRows)), (s: string) => RanksOf(s, RowsOfSwimmer(eventRows, s)))
  }

  /**
   * One record per distinct participant of the event, individual or not,
   * in order of first appearance; each rank is a positive number taken
   * from that participant's last row of the stage.
   */
  lemma SwimmerRecordsSpec(rows: seq<ResultRow>, event: string)
    ensures var eventRows := RowsOfEvent(rows, event);
      var records := SwimmerRecords(rows, event);
      && |records| == |Distinct(Participants(eventRows))|
      && (forall i :: 0 <= i < |records| ==> records[i].swimmer == Distinct(Participants(eventRows))[i])
      && (forall i, j :: 0 <= i < j < |records| ==>
            FirstIndex(Participants(eventRows), records[i].swimmer) < FirstIndex(Participants(eventRows), records[j].swimmer))
      && (forall r :: r in records ==> r == RanksOf(r.swimmer, RowsOfSwimmer(eventRows, r.swimmer)))
  {
    DistinctOrder(Participants(RowsOfEvent(rows, event)));
  }

  datatype Performance = Top | Middle | Low

  /** `performanceGroup`: no final rank is Low, a final rank above 3 is Middle, any other is Top. */
  function PerformanceGroup(r: StageRanks): Performance {
    match r.finals
    case None => Low
    case Some(f) => if f > 3 then Middle else Top
  }

  /**
   * For a plotted swimmer: Top means a final rank from 1 to 3, Middle a
   * final rank of 4 or more, and Low that no row of the final stage gave a
   * non-zero numeric rank as the swimmer's last final row.
   */
  lemma PerformanceGroupSpec(rows: seq<ResultRow>, event: string, r: StageRanks)
    requires r in SwimmerRecords(rows, event)
    ensures PerformanceGroup(r) == Top <==> r.finals.Some? && 1 <= r.finals.value <= 3
    ensures PerformanceGroup(r) == Middle <==> r.finals.Some? && r.finals.value >= 4
    ensures PerformanceGroup(r) == Low <==> r.finals == None
  {
    SwimmerRecordsSpec(rows, event);
    var group := RowsOfSwimmer(RowsOfEvent(rows, event), r.swimmer);
    FinalsPositive(group);
  }

  lemma {:induction false} FinalsPositive(rows: seq<ResultRow>)
    ensures LastRank(rows, Finals).Some? ==> LastRank(rows, Finals).value >= 1
  {
    if |rows| > 0 && !SetsField(rows[|rows| - 1], Finals) {
      FinalsPositive(rows[..|rows| - 1]);
    }
  }
}
