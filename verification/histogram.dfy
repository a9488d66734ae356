/**
 * The medal tally behind the stacked-bar histogram: the swimming medallists
 * of the selected gender, rolled up per country into gold, silver and bronze
 * counts with their total, then sorted by total, largest first, with a
 * stable sort.
 */
module Histogram {
  import opened Seqs
  import opened Rows

  const GOLD := "Gold Medal"
  const SILVER := "Silver Medal"
  const BRONZE := "Bronze Medal"

  /** The `gender` column value that a gender label selects. */
  function GenderValue(gender: string): (g: string)
    ensures g == "Female" || g == "Male"
    ensures g == "Female" <==> gender == "Women"
  {
    if gender == "Women" then "Female" else "Male"
  }

  /** Whether a medallist row enters the tally for the selected gender. */
  predicate Counted(row: MedallistRow, gender: string) {
    row.discipline == "Swimming" && row.gender == GenderValue(gender)
  }

  function SwimmingMedallists(rows: seq<MedallistRow>, gender: string): seq<MedallistRow> {
    Filter(rows, row => Counted(row, gender))
  }

  datatype Tally = Tally(country: string, gold: nat, silver: nat, bronze: nat, total: nat)

  /** The country cell of every row, repeats included. */
  function CountryColumn(rows: seq<MedallistRow>): seq<string> {
    Map(rows, (row: MedallistRow) => row.country)
  }

  /** The rows of one country, in input order: the group `d3.rollup` reduces. */
  function RowsOf(rows: seq<MedallistRow>, country: string): seq<MedallistRow> {
    Filter(rows, (row: MedallistRow) => row.country == country)
  }

  /** `v.filter(d => d.medal_type === medal).length`. */
  function MedalCount(group: seq<MedallistRow>, medal: string): nat {
    |Filter(group, (row: MedallistRow) => row.medalType == medal)|
  }

  predicate IsMedal(medalType: string) {
    medalType == GOLD || medalType == SILVER || medalType == BRONZE
  }

  /** The reducer applied to one country's group, with the total added. */
  function TallyOf(country: string, group: seq<MedallistRow>): Tally {
    var gold, silver, bronze := MedalCount(group, GOLD), MedalCount(group, SILVER), MedalCount(group, BRONZE);
    Tally(country, gold, silver, bronze, gold + silver + bronze)
  }

  /** One tally per country, in order of first appearance (`d3.rollup` then `Array.from`). */
  function Rollup(rows: seq<MedallistRow>): seq<Tally> {
    Map(Distinct(CountryColumn(rows)), (c: string) => TallyOf(c, RowsOf(rows, c)))
  }

  /** Places `t` before the first tally whose total is not larger. */
  function Insert(t: Tally, s: seq<Tally>): seq<Tally> {
    if |s| == 0 then [t]
    else if s[0].total <= t.total then [t] + s
    else [s[0]] + Insert(t, s[1..])
  }

  /** `sort((a, b) => b.total - a.total)`: a stable sort, largest total first. */
  function SortByTotal(s: seq<Tally>): seq<Tally> {
    if |s| == 0 then [] else Insert(s[0], SortByTotal(s[1..]))
  }

  /** `filterDataByDiscipline`: the data the histogram draws. */
  function Process(rows: seq<MedallistRow>, gender: string): seq<Tally> {
    SortByTotal(Rollup(SwimmingMedallists(rows, gender)))
  }

  /** The histogram is drawn only for a non-empty tally. */
  predicate Draws(data: seq<Tally>) {
    |data| > 0
  }

  predicate SortedByTotal(s: seq<Tally>) {
    forall i, j :: 0 <= i < j < |s| ==> s[i].total >= s[j].total
  }

  /** The tallies of `s` whose total is `v`, in their order in `s`. */
  function WithTotal(s: seq<Tally>, v: nat): seq<Tally> {
    Filter(s, (t: Tally) => t.total == v)
  }

  lemma {:induction false} InsertPermutes(t: Tally, s: seq<Tally>)
    ensures multiset(Insert(t, s)) == multiset(s) + multiset{t}
  {
    if |s| > 0 && s[0].total > t.total {
      InsertPermutes(t, s[1..]);
      assert s == [s[0]] + s[1..];
    }
  }

  lemma {:induction false} InsertSorted(t: Tally, s: seq<Tally>)
    requires SortedByTotal(s)
    ensures SortedByTotal(Insert(t, s))
  {
    if |s| > 0 && s[0].total > t.total {
      var rest := s[1..];
      InsertSorted(t, rest);
      InsertPermutes(t, rest);
      var r, r' := Insert(t, s), Insert(t, rest);
      assert r == [s[0]] + r';
      forall i, j | 0 <= i < j < |r| ensures r[i].total >= r[j].total {
        if i == 0 {
          assert r[j] == r'[j - 1];
          assert r'[j - 1] in multiset(r');
          assert r[j] == t || r[j] in rest;
        }
      }
    }
  }

  /** Inserting `t` puts it ahead of every tally of equal total. */
  lemma {:induction false} InsertStable(t: Tally, s: seq<Tally>, v: nat)
    ensures WithTotal(Insert(t, s), v) == (if t.total == v then [t] else []) + WithTotal(s, v)
  {
    var p := (x: Tally) => x.total == v;
    if |s| == 0 || s[0].total <= t.total {
      assert Insert(t, s) == [t] + s;
      FilterCons(t, s, p);
      assert WithTotal(Insert(t, s), v) == Filter([t] + s, p);
    } else {
      var x, rest := s[0], s[1..];
      assert s == [x] + rest;
      assert Insert(t, s) == [x] + Insert(t, rest);
      InsertStable(t, rest, v);
      FilterCons(x, Insert(t, rest), p);
      FilterCons(x, rest, p);
      var head, mine := if x.total == v then [x] else [], if t.total == v then [t] else [];
      assert WithTotal(Insert(t, s), v) == head + (mine + WithTotal(rest, v));
      assert WithTotal(s, v) == head + WithTotal(rest, v);
      var tail := WithTotal(rest, v);
      if x.total == v {
        assert mine == [];
        assert mine + tail == tail;
        assert mine + WithTotal(s, v) == WithTotal(s, v);
      } else {
        assert head == [];
        assert head + (mine + tail) == mine + tail;
        assert head + tail == tail;
      }
    }
  }

  /**
   * The sort yields a non-increasing sequence of totals, is a permutation,
   * and keeps the relative order of tallies with equal totals.
   */
  lemma {:induction false} SortSpec(s: seq<Tally>)
    ensures SortedByTotal(SortByTotal(s))
    ensures multiset(SortByTotal(s)) == multiset(s)
    ensures forall v :: WithTotal(SortByTotal(s), v) == WithTotal(s, v)
  {
    if |s| > 0 {
      SortSpec(s[1..]);
      InsertSorted(s[0], SortByTotal(s[1..]));
      InsertPermutes(s[0], SortByTotal(s[1..]));
      assert s == [s[0]] + s[1..];
      forall v ensures WithTotal(SortByTotal(s), v) == WithTotal(s, v) {
        InsertStable(s[0], SortByTotal(s[1..]), v);
        FilterCons(s[0], s[1..], (x: Tally) => x.total == v);
      }
    }
  }

  /** Every row counts in at most one medal bucket; rows of any other medal type count in none. */
  lemma {:induction false} MedalPartition(group: seq<MedallistRow>)
    ensures MedalCount(group, GOLD) + MedalCount(group, SILVER) + MedalCount(group, BRONZE)
         == |Filter(group, (row: MedallistRow) => IsMedal(row.medalType))|
  {
    if |group| > 0 {
      MedalPartition(group[..|group| - 1]);
    }
  }

  /** A country's count of one medal type is the number of input rows with that country and medal type. */
  lemma {:induction false} MedalCountPairs(rows: seq<MedallistRow>, country: string, medal: string)
    ensures MedalCount(RowsOf(rows, country), medal)
         == Count(Map(rows, (row: MedallistRow) => (row.country, row.medalType)), (country, medal))
  {
    if |rows| > 0 {
      var n := |rows| - 1;
      MedalCountPairs(rows[..n], country, medal);
      var f := (row: MedallistRow) => (row.country, row.medalType);
      assert Map(rows, f)[..n] == Map(rows[..n], f);
      if rows[n].country == country {
        assert RowsOf(rows, country) == RowsOf(rows[..n], country) + [rows[n]];
        var g := RowsOf(rows, country);
        assert g[..|g| - 1] == RowsOf(rows[..n], country);
      } else {
        assert RowsOf(rows, country) == RowsOf(rows[..n], country);
      }
    }
  }

  /**
   * The rollup has one tally per distinct country, in order of first
   * appearance; each count is the number of rows of that country and medal
   * type, and the total is their sum, at most the country's row count.
   */
  lemma RollupSpec(rows: seq<MedallistRow>)
    ensures |Rollup(rows)| == |Distinct(CountryColumn(rows))|
    ensures forall i :: 0 <= i < |Rollup(rows)| ==> Rollup(rows)[i].country == Distinct(CountryColumn(rows))[i]
    ensures forall t :: t in Rollup(rows) ==>
      var pairs := Map(rows, (row: MedallistRow) => (row.country, row.medalType));
      && t.gold == Count(pairs, (t.country, GOLD))
      && t.silver == Count(pairs, (t.country, SILVER))
      && t.bronze == Count(pairs, (t.country, BRONZE))
      && t.total == t.gold + t.silver + t.bronze
      && t.total <= Count(CountryColumn(rows), t.country)
  {
    var pairs := Map(rows, (row: MedallistRow) => (row.country, row.medalType));
    forall t | t in Rollup(rows)
      ensures t.gold == Count(pairs, (t.country, GOLD))
      ensures t.silver == Count(pairs, (t.country, SILVER))
      ensures t.bronze == Count(pairs, (t.country, BRONZE))
      ensures t.total == t.gold + t.silver + t.bronze
      ensures t.total <= Count(CountryColumn(rows), t.country)
    {
      var c := t.country;
      MedalCountPairs(rows, c, GOLD);
      MedalCountPairs(rows, c, SILVER);
      MedalCountPairs(rows, c, BRONZE);
      MedalPartition(RowsOf(rows, c));
      CountIsGroupSize(rows, c);
    }
  }

  lemma {:induction false} CountIsGroupSize(rows: seq<MedallistRow>, country: string)
    ensures |RowsOf(rows, country)| == Count(CountryColumn(rows), country)
  {
    if |rows| > 0 {
      var n := |rows| - 1;
      CountIsGroupSize(rows[..n], country);
      assert CountryColumn(rows)[..n] == CountryColumn(rows[..n]);
    }
  }

  /**
   * The drawn data: sorted by total, largest first, and a stable permutation
   * of the rollup of the selected medallists, with exactly the countries of
   * those medallists, each once and with its own tally.
   */
  lemma ProcessSpec(rows: seq<MedallistRow>, gender: string)
    ensures var out, medallists := Process(rows, gender), SwimmingMedallists(rows, gender);
      && SortedByTotal(out)
      && multiset(out) == multiset(Rollup(medallists))
      && (forall v :: WithTotal(out, v) == WithTotal(Rollup(medallists), v))
      && |out| == |Distinct(CountryColumn(medallists))|
      && (forall c :: c in Map(out, (t: Tally) => t.country) <==> c in CountryColumn(medallists))
      && (forall t :: t in out ==> t == TallyOf(t.country, RowsOf(medallists, t.country)))
  {
    var medallists := SwimmingMedallists(rows, gender);
    var rolled := Rollup(medallists);
    SortSpec(rolled);
    SortedRollup(SortByTotal(rolled), medallists);
  }

  /** A permutation of the rollup has its length, its countries and its tallies. */
  lemma SortedRollup(out: seq<Tally>, medallists: seq<MedallistRow>)
    requires multiset(out) == multiset(Rollup(medallists))
    ensures |out| == |Distinct(CountryColumn(medallists))|
    ensures forall c :: c in Map(out, (t: Tally) => t.country) <==> c in CountryColumn(medallists)
    ensures forall t :: t in out ==> t == TallyOf(t.country, RowsOf(medallists, t.country))
  {
    var rolled := Rollup(medallists);
    assert |out| == |multiset(out)| == |multiset(rolled)| == |rolled|;
    RollupCountries(medallists);
    MapPermutation(out, rolled, (t: Tally) => t.country);
    RollupTallies(medallists);
    forall t | t in out ensures t in rolled {
      assert t in multiset(rolled);
    }
  }

  /** The rollup lists the distinct countries, one tally each. */
  lemma RollupCountries(medallists: seq<MedallistRow>)
    ensures Map(Rollup(medallists), (t: Tally) => t.country) == Distinct(CountryColumn(medallists))
  {
  }

  lemma RollupTallies(medallists: seq<MedallistRow>)
    ensures forall t :: t in Rollup(medallists) ==> t == TallyOf(t.country, RowsOf(medallists, t.country))
  {
  }

  /** The histogram is drawn exactly when some row is a swimming medal of the selected gender. */
  lemma DrawsSpec(rows: seq<MedallistRow>, gender: string)
    ensures Draws(Process(rows, gender)) <==> exists row :: row in rows && Counted(row, gender)
  {
    ProcessSpec(rows, gender);
    var medallists := SwimmingMedallists(rows, gender);
    if exists row :: row in rows && Counted(row, gender) {
      var row :| row in rows && Counted(row, gender);
      assert row.country in CountryColumn(medallists);
    }
  }

  /**
   * Three women's swimming golds and one silver for the USA, mixed with a
   * men's row, a row of another discipline and a row whose medal type is
   * none of the three.
   */
  function ExampleRows(): seq<MedallistRow> {
    var usaGold := MedallistRow("Swimming", "Female", "USA", GOLD);
    [ usaGold,
      MedallistRow("Swimming", "Male", "USA", GOLD),
      usaGold,
      MedallistRow("Athletics", "Female", "USA", GOLD),
      usaGold,
      MedallistRow("Swimming", "Female", "USA", SILVER),
      MedallistRow("Swimming", "Female", "USA", "Participation") ]
  }

  /** The rows of the example that the women's tally keeps. */
  function ExampleMedallists(): seq<MedallistRow> {
    var usaGold := MedallistRow("Swimming", "Female", "USA", GOLD);
    [ usaGold, usaGold, usaGold,
      MedallistRow("Swimming", "Female", "USA", SILVER),
      MedallistRow("Swimming", "Female", "USA", "Participation") ]
  }

  /** Filtering one more row appends it exactly when it is counted. */
  lemma MedallistsStep(rows: seq<MedallistRow>, gender: string, k: nat)
    requires 0 < k <= |rows|
    ensures SwimmingMedallists(rows[..k], gender)
         == SwimmingMedallists(rows[..k - 1], gender) + (if Counted(rows[k - 1], gender) then [rows[k - 1]] else [])
  {
    assert rows[..k][..k - 1] == rows[..k - 1];
  }

  lemma ExampleFilterHead()
    ensures SwimmingMedallists(ExampleRows()[..3], "Women") == ExampleMedallists()[..2]
  {
    var rows := ExampleRows();
    assert rows[..0] == [];
    MedallistsStep(rows, "Women", 1);
    MedallistsStep(rows, "Women", 2);
    MedallistsStep(rows, "Women", 3);
  }

  lemma ExampleFilterMiddle()
    ensures SwimmingMedallists(ExampleRows()[..5], "Women") == ExampleMedallists()[..3]
  {
    var rows, kept := ExampleRows(), ExampleMedallists();
    ExampleFilterHead();
    MedallistsStep(rows, "Women", 4);
    MedallistsStep(rows, "Women", 5);
    assert kept[..3] == kept[..2] + [rows[4]];
  }

  lemma ExampleFilter()
    ensures SwimmingMedallists(ExampleRows(), "Women") == ExampleMedallists()
  {
    var rows, kept := ExampleRows(), ExampleMedallists();
    ExampleFilterMiddle();
    MedallistsStep(rows, "Women", 6);
    MedallistsStep(rows, "Women", 7);
    assert kept == kept[..3] + [rows[5], rows[6]];
    assert rows[..7] == rows;
  }

  lemma ExampleGolds()
    ensures MedalCount(ExampleMedallists(), GOLD) == 3
  {
    var rows := ExampleMedallists();
    var isGold := (row: MedallistRow) => row.medalType == GOLD;
    FilterAll(rows[..3], isGold);
    assert rows[..4][..3] == rows[..3];
    assert rows[..5][..4] == rows[..4];
    assert Filter(rows[..4], isGold) == rows[..3];
    assert rows[..5] == rows;
  }

  lemma ExampleSilvers()
    ensures MedalCount(ExampleMedallists(), SILVER) == 1
  {
    var rows := ExampleMedallists();
    var isSilver := (row: MedallistRow) => row.medalType == SILVER;
    FilterNone(rows[..3], isSilver);
    assert rows[..4][..3] == rows[..3];
    assert rows[..5][..4] == rows[..4];
    assert Filter(rows[..4], isSilver) == [rows[3]];
    assert rows[..5] == rows;
  }

  lemma ExampleCounts()
    ensures MedalCount(ExampleMedallists(), GOLD) == 3
    ensures MedalCount(ExampleMedallists(), SILVER) == 1
    ensures MedalCount(ExampleMedallists(), BRONZE) == 0
  {
    ExampleGolds();
    ExampleSilvers();
    FilterNone(ExampleMedallists(), (row: MedallistRow) => row.medalType == BRONZE);
  }

  lemma ExampleCountries()
    ensures Distinct(CountryColumn(ExampleMedallists())) == ["USA"]
  {
    var countries := CountryColumn(ExampleMedallists());
    assert forall i :: 0 <= i < |countries| ==> countries[i] == "USA";
    DistinctConst(countries, "USA");
  }

  lemma RollupOneCountry(rows: seq<MedallistRow>, c: string)
    requires Distinct(CountryColumn(rows)) == [c]
    ensures Rollup(rows) == [TallyOf(c, RowsOf(rows, c))]
  {
  }

  lemma ExampleRollup()
    ensures Rollup(ExampleMedallists()) == [Tally("USA", 3, 1, 0, 4)]
  {
    var rows := ExampleMedallists();
    ExampleCountries();
    RollupOneCountry(rows, "USA");
    assert Rollup(rows) == [TallyOf("USA", RowsOf(rows, "USA"))];
    ExampleGroup();
    assert RowsOf(rows, "USA") == rows;
    ExampleCounts();
    assert TallyOf("USA", rows) == Tally("USA", 3, 1, 0, 4);
  }

  lemma ExampleGroup()
    ensures RowsOf(ExampleMedallists(), "USA") == ExampleMedallists()
  {
    FilterAll(ExampleMedallists(), (row: MedallistRow) => row.country == "USA");
  }

  /**
   * Only the women's swimming rows are tallied, and the row with an unknown
   * medal type counts in no bucket: the USA's group has five rows but its
   * tally is 3 gold, 1 silver, 0 bronze, total 4.
   */
  lemma TallyExample()
    ensures |RowsOf(SwimmingMedallists(ExampleRows(), "Women"), "USA")| == 5
    ensures Process(ExampleRows(), "Women") == [Tally("USA", 3, 1, 0, 4)]
  {
    ExampleFilter();
    ExampleGroup();
    ExampleRollup();
  }
}
