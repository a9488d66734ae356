/**
 * The per-country athlete count behind the world map: the athletes whose
 * disciplines mention swimming, counted per country code in a dictionary
 * that a loop fills in place, the largest count for the colour scale, and
 * the lookup that gives 0 for a country without athletes.
 */
module WorldMap {
  import opened Seqs
  import opened Text
  import opened Rows

  /** Whether an athlete row is counted: its disciplines mention swimming. */
  predicate IsSwimmer(row: AthleteRow) {
    Contains(row.disciplines, "Swimming")
  }

  function Swimmers(rows: seq<AthleteRow>): seq<AthleteRow> {
    Filter(rows, IsSwimmer)
  }

  /** The country code of every counted athlete, in input order. */
  function SwimmerCodes(rows: seq<AthleteRow>): seq<string> {
    Map(Swimmers(rows), (row: AthleteRow) => row.countryCode)
  }

  /** The dictionary the counting loop builds from a list of country codes. */
  function CountMap(codes: seq<string>): map<string, nat> {
    map c | c in codes :: Count(codes, c)
  }

  /**
   * The counting loop: one pass over the counted athletes, each adding one
   * to its country's entry, which starts from 0 when absent. The keys come
   * out in insertion order.
   */
  method CountByCountry(rows: seq<AthleteRow>) returns (keys: seq<string>, counts: map<string, nat>)
    ensures keys == Distinct(SwimmerCodes(rows))
    ensures counts == CountMap(SwimmerCodes(rows))
  {
    var swimmers := Swimmers(rows);
    ghost var codes := SwimmerCodes(rows);
    keys, counts := [], map[];
    for i := 0 to |swimmers|
      invariant keys == Distinct(codes[..i])
      invariant counts == CountMap(codes[..i])
    {
      var code := swimmers[i].countryCode;
      assert codes[..i + 1] == codes[..i] + [code];
      DistinctStep(codes[..i], code);
      CountMapStep(codes[..i], code);
      var previous := if code in counts then counts[code] else 0;
      if code !in counts {
        keys := keys + [code];
      }
      counts := counts[code := previous + 1];
    }
    assert codes[..|swimmers|] == codes;
  }

  /** A code not seen before becomes the next key; a code seen before adds none. */
  lemma DistinctStep(codes: seq<string>, x: string)
    ensures Distinct(codes + [x]) == Distinct(codes) + (if x in codes then [] else [x])
  {
    assert (codes + [x])[..|codes|] == codes;
  }

  /** Counting one more code adds one to its entry, which starts from 0 when absent. */
  lemma CountMapStep(codes: seq<string>, x: string)
    ensures CountMap(codes + [x]) == CountMap(codes)[x := Lookup(CountMap(codes), x) + 1]
  {
    var after := codes + [x];
    assert after[..|after| - 1] == codes;
    var m1, m2 := CountMap(after), CountMap(codes)[x := Lookup(CountMap(codes), x) + 1];
    CountMapKeys(codes, x);
    forall c | c in m1 ensures m1[c] == m2[c] {
      assert Count(after, c) == Count(codes, c) + (if c == x then 1 else 0);
    }
  }

  lemma CountMapKeys(codes: seq<string>, x: string)
    ensures CountMap(codes + [x]).Keys == CountMap(codes).Keys + {x}
  {
    assert forall c :: c in codes + [x] <==> c in codes || c == x;
  }

  /** `athleteCountByCountry[code] || 0`. */
  function Lookup(counts: map<string, nat>, code: string): nat {
    if code in counts then counts[code] else 0
  }

  /** `d3.max` over the values of the dictionary: None for an empty dictionary. */
  function LargestCount(keys: seq<string>, counts: map<string, nat>): (r: Option<nat>)
    requires forall k :: k in keys ==> k in counts
    ensures r == None <==> |keys| == 0
    ensures r.Some? ==> (exists k :: k in keys && counts[k] == r.value)
    ensures r.Some? ==> (forall k :: k in keys ==> counts[k] <= r.value)
  {
    if |keys| == 0 then None
    else
      var k := keys[|keys| - 1];
      var rest := LargestCount(keys[..|keys| - 1], counts);
      assert forall k' :: k' in keys ==> k' in keys[..|keys| - 1] || k' == k;
      if rest.Some? && rest.value >= counts[k] then rest else Some(counts[k])
  }

  /** `d3.max(Object.values(...)) || 1`: the top of the colour scale's domain. */
  function MaxCount(keys: seq<string>, counts: map<string, nat>): nat
    requires forall k :: k in keys ==> k in counts
  {
    match LargestCount(keys, counts)
    case Some(m) => if m == 0 then 1 else m
    case None => 1
  }

  /**
   * Looking a code up gives the number of counted athletes with that code:
   * 0 when the code is absent, and at least 1 for every key present. The
   * empty code is a key like any other.
   */
  lemma LookupSpec(codes: seq<string>, code: string)
    ensures Lookup(CountMap(codes), code) == Count(codes, code)
    ensures code in CountMap(codes) <==> code in codes
    ensures code in CountMap(codes) ==> CountMap(codes)[code] >= 1
  {
  }

  /** The counts of the distinct codes add up to the number of counted athletes. */
  lemma {:induction false} CountsSum(codes: seq<string>)
    ensures forall k :: k in Distinct(codes) ==> k in CountMap(codes)
    ensures SumOver(Distinct(codes), CountMap(codes)) == |codes|
  {
    if |codes| > 0 {
      var n := |codes| - 1;
      var init, x := codes[..n], codes[n];
      assert codes == init + [x];
      CountsSum(init);
      var d := Distinct(init);
      SumAfterAppend(d, init, x);
      if x !in init {
        assert Distinct(codes) == d + [x];
        assert (d + [x])[..|d|] == d;
        assert Count(codes, x) == 1;
      }
    }
  }

  /** Appending `x` to the codes adds one to the sum exactly when `x` is among the keys. */
  lemma {:induction false} SumAfterAppend(keys: seq<string>, codes: seq<string>, x: string)
    requires NoDup(keys) && forall k :: k in keys ==> k in codes
    ensures forall k :: k in keys ==> k in CountMap(codes + [x])
    ensures SumOver(keys, CountMap(codes + [x]))
         == SumOver(keys, CountMap(codes)) + (if x in keys then 1 else 0)
  {
    var after := codes + [x];
    assert after[..|after| - 1] == codes;
    if |keys| > 0 {
      var init := keys[..|keys| - 1];
      assert forall k :: k in init ==> k in keys;
      SumAfterAppend(init, codes, x);
      assert x in keys <==> x in init || x == keys[|keys| - 1];
      assert keys[|keys| - 1] !in init;
    }
  }

  /**
   * The largest count is at least 1; with no counted athlete it is 1, and
   * otherwise it is the count of some code and no code has more.
   */
  lemma MaxCountSpec(codes: seq<string>)
    ensures forall k :: k in Distinct(codes) ==> k in CountMap(codes)
    ensures MaxCount(Distinct(codes), CountMap(codes)) >= 1
    ensures |codes| == 0 ==> MaxCount(Distinct(codes), CountMap(codes)) == 1
    ensures |codes| > 0 ==>
      (exists c :: c in codes && MaxCount(Distinct(codes), CountMap(codes)) == Count(codes, c))
      && (forall c :: Count(codes, c) <= MaxCount(Distinct(codes), CountMap(codes)))
  {
    var keys, counts := Distinct(codes), CountMap(codes);
    if |codes| > 0 {
      assert codes[0] in keys;
      var m := LargestCount(keys, counts).value;
      assert m >= counts[codes[0]] >= 1;
      forall c ensures Count(codes, c) <= m {
        if c in codes {
          assert c in keys;
        }
      }
    }
  }
}
