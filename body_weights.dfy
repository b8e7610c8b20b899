/** calculate_body_weights: the mean body mass of every (species, island, sex)
    group, built in two passes as the source does. */
module BodyWeights {
  import opened Rounding
  import opened Records
  import opened Counting

  /** A record contributes when species, island and sex are non-empty and its
      body mass is not None. */
  predicate Weighed(r: Record) {
    Species(r) != "" && Island(r) != "" && Sex(r) != "" && BodyMass(r).Some?
  }

  /** r contributes to the group (species, island, sex); sex is compared as it is, without case folding. */
  predicate InGroup(r: Record, species: string, island: string, sex: string) {
    Weighed(r) && Species(r) == species && Island(r) == island && Sex(r) == sex
  }

  function InGroupOf(species: string, island: string, sex: string): Record -> bool {
    r => InGroup(r, species, island, sex)
  }

  /** The masses of a group, in record order. */
  function Masses(s: seq<Record>, species: string, island: string, sex: string): seq<real> {
    if s == [] then []
    else
      var r := s[|s| - 1];
      Masses(s[..|s| - 1], species, island, sex)
        + (if InGroup(r, species, island, sex) then [BodyMass(r).value] else [])
  }

  ghost function WeighedSpecies(s: seq<Record>): set<string> {
    set r | r in s && Weighed(r) :: Species(r)
  }

  ghost function WeighedIslands(s: seq<Record>, species: string): set<string> {
    set r | r in s && Weighed(r) && Species(r) == species :: Island(r)
  }

  ghost function WeighedSexes(s: seq<Record>, species: string, island: string): set<string> {
    set r | r in s && Weighed(r) && Species(r) == species && Island(r) == island :: Sex(r)
  }

  /** weights_data: species -> island -> sex -> masses. */
  type Groups = map<string, map<string, map<string, seq<real>>>>

  /** groups is weights_data after the first pass over s: exactly the groups
      some record contributes to, each with the masses of its records. */
  ghost predicate Grouped(s: seq<Record>, groups: Groups) {
    && groups.Keys == WeighedSpecies(s)
    && (forall sp :: sp in groups ==> groups[sp].Keys == WeighedIslands(s, sp))
    && (forall sp, isl :: sp in groups && isl in groups[sp] ==>
          groups[sp][isl].Keys == WeighedSexes(s, sp, isl))
    && (forall sp, isl, sex :: sp in groups && isl in groups[sp] && sex in groups[sp][isl] ==>
          groups[sp][isl][sex] == Masses(s, sp, isl, sex))
  }

  /** The three "create if absent" steps followed by the append. */
  function AddMass(groups: Groups, species: string, island: string, sex: string, mass: real): Groups {
    var islands := if species in groups then groups[species] else map[];
    var sexes := if island in islands then islands[island] else map[];
    var masses := if sex in sexes then sexes[sex] else [];
    groups[species := islands[island := sexes[sex := masses + [mass]]]]
  }

  /** One more record adds its species exactly when it contributes. */
  lemma WeighedSpeciesSnoc(s: seq<Record>, r: Record)
    ensures WeighedSpecies(s + [r]) == WeighedSpecies(s) + (if Weighed(r) then {Species(r)} else {})
  {
    assert forall x :: x in s + [r] <==> x in s || x == r;
  }

  /** One more record adds its island to its own species' islands exactly when it contributes. */
  lemma WeighedIslandsSnoc(s: seq<Record>, r: Record, sp: string)
    ensures WeighedIslands(s + [r], sp) ==
              WeighedIslands(s, sp) + (if Weighed(r) && Species(r) == sp then {Island(r)} else {})
  {
    assert forall x :: x in s + [r] <==> x in s || x == r;
  }

  /** One more record adds its sex to its own island's sexes exactly when it contributes. */
  lemma WeighedSexesSnoc(s: seq<Record>, r: Record, sp: string, isl: string)
    ensures WeighedSexes(s + [r], sp, isl) ==
              WeighedSexes(s, sp, isl) + (if Weighed(r) && Species(r) == sp && Island(r) == isl then {Sex(r)} else {})
  {
    assert forall x :: x in s + [r] <==> x in s || x == r;
  }

  /** A species no record contributes to has no islands, and an island no
      record of the species contributes to has no sexes. */
  lemma WeighedNested(s: seq<Record>, sp: string, isl: string)
    ensures sp !in WeighedSpecies(s) ==> WeighedIslands(s, sp) == {}
    ensures isl !in WeighedIslands(s, sp) ==> WeighedSexes(s, sp, isl) == {}
  {
    if WeighedIslands(s, sp) != {} {
      var i :| i in WeighedIslands(s, sp);
      var r :| r in s && Weighed(r) && Species(r) == sp && Island(r) == i;
      assert sp in WeighedSpecies(s);
    }
    if WeighedSexes(s, sp, isl) != {} {
      var x :| x in WeighedSexes(s, sp, isl);
      var r :| r in s && Weighed(r) && Species(r) == sp && Island(r) == isl && Sex(r) == x;
      assert isl in WeighedIslands(s, sp);
    }
  }

  lemma MassesSnoc(s: seq<Record>, r: Record, species: string, island: string, sex: string)
    ensures Masses(s + [r], species, island, sex) ==
              Masses(s, species, island, sex) + (if InGroup(r, species, island, sex) then [BodyMass(r).value] else [])
  {
    assert (s + [r])[..|s|] == s;
  }

  /** A group no record has contributed to yet has no masses. */
  lemma MassesAbsent(s: seq<Record>, species: string, island: string, sex: string)
    requires forall i :: 0 <= i < |s| ==> !InGroup(s[i], species, island, sex)
    ensures Masses(s, species, island, sex) == []
  {
    if s != [] {
      var s' := s[..|s| - 1];
      assert forall i :: 0 <= i < |s'| ==> s'[i] == s[i];
      MassesAbsent(s', species, island, sex);
    }
  }

  /** A record that does not contribute changes nothing. */
  lemma GroupedSkip(s: seq<Record>, r: Record, groups: Groups)
    requires Grouped(s, groups) && !Weighed(r)
    ensures Grouped(s + [r], groups)
  {
    WeighedSpeciesSnoc(s, r);
    forall sp | sp in groups ensures groups[sp].Keys == WeighedIslands(s + [r], sp) {
      WeighedIslandsSnoc(s, r, sp);
    }
    forall sp, isl | sp in groups && isl in groups[sp]
      ensures groups[sp][isl].Keys == WeighedSexes(s + [r], sp, isl)
    {
      SkippedSexes(s, r, groups, sp, isl);
    }
    forall sp, isl, sex | sp in groups && isl in groups[sp] && sex in groups[sp][isl]
      ensures groups[sp][isl][sex] == Masses(s + [r], sp, isl, sex)
    {
      SkippedMasses(s, r, groups, sp, isl, sex);
    }
  }

  lemma SkippedSexes(s: seq<Record>, r: Record, groups: Groups, sp: string, isl: string)
    requires Grouped(s, groups) && !Weighed(r)
    requires sp in groups && isl in groups[sp]
    ensures groups[sp][isl].Keys == WeighedSexes(s + [r], sp, isl)
  {
    WeighedSexesSnoc(s, r, sp, isl);
  }

  lemma SkippedMasses(s: seq<Record>, r: Record, groups: Groups, sp: string, isl: string, sex: string)
    requires Grouped(s, groups) && !Weighed(r)
    requires sp in groups && isl in groups[sp] && sex in groups[sp][isl]
    ensures groups[sp][isl][sex] == Masses(s + [r], sp, isl, sex)
  {
    MassesSnoc(s, r, sp, isl, sex);
  }

  /** A contributing record appends its mass to its own group, creating the
      species, island and sex entries on first sight, and changes nothing else. */
  lemma GroupedAdd(s: seq<Record>, r: Record, groups: Groups)
    requires Grouped(s, groups) && Weighed(r)
    ensures Grouped(s + [r], AddMass(groups, Species(r), Island(r), Sex(r), BodyMass(r).value))
  {
    var next := AddMass(groups, Species(r), Island(r), Sex(r), BodyMass(r).value);
    WeighedSpeciesSnoc(s, r);
    forall sp | sp in next
      ensures next[sp].Keys == WeighedIslands(s + [r], sp)
    {
      AddedIslands(s, r, groups, sp);
    }
    forall sp, isl | sp in next && isl in next[sp]
      ensures next[sp][isl].Keys == WeighedSexes(s + [r], sp, isl)
    {
      AddedSexes(s, r, groups, sp, isl);
    }
    forall sp, isl, sex | sp in next && isl in next[sp] && sex in next[sp][isl]
      ensures next[sp][isl][sex] == Masses(s + [r], sp, isl, sex)
    {
      AddedMasses(s, r, groups, sp, isl, sex);
    }
  }

  lemma AddedIslands(s: seq<Record>, r: Record, groups: Groups, sp: string)
    requires Grouped(s, groups) && Weighed(r)
    requires sp in AddMass(groups, Species(r), Island(r), Sex(r), BodyMass(r).value)
    ensures AddMass(groups, Species(r), Island(r), Sex(r), BodyMass(r).value)[sp].Keys == WeighedIslands(s + [r], sp)
  {
    WeighedIslandsSnoc(s, r, sp);
    WeighedNested(s, sp, Island(r));
  }

  lemma AddedSexes(s: seq<Record>, r: Record, groups: Groups, sp: string, isl: string)
    requires Grouped(s, groups) && Weighed(r)
    requires sp in AddMass(groups, Species(r), Island(r), Sex(r), BodyMass(r).value)
    requires isl in AddMass(groups, Species(r), Island(r), Sex(r), BodyMass(r).value)[sp]
    ensures AddMass(groups, Species(r), Island(r), Sex(r), BodyMass(r).value)[sp][isl].Keys == WeighedSexes(s + [r], sp, isl)
  {
    WeighedSexesSnoc(s, r, sp, isl);
    WeighedNested(s, sp, isl);
  }

  lemma AddedMasses(s: seq<Record>, r: Record, groups: Groups, sp: string, isl: string, sex: string)
    requires Grouped(s, groups) && Weighed(r)
    requires sp in AddMass(groups, Species(r), Island(r), Sex(r), BodyMass(r).value)
    requires isl in AddMass(groups, Species(r), Island(r), Sex(r), BodyMass(r).value)[sp]
    requires sex in AddMass(groups, Species(r), Island(r), Sex(r), BodyMass(r).value)[sp][isl]
    ensures AddMass(groups, Species(r), Island(r), Sex(r), BodyMass(r).value)[sp][isl][sex] == Masses(s + [r], sp, isl, sex)
  {
    MassesSnoc(s, r, sp, isl, sex);
    if sp == Species(r) && isl == Island(r) && sex == Sex(r) && !(sp in groups && isl in groups[sp] && sex in groups[sp][isl]) {
      forall i | 0 <= i < |s| ensures !InGroup(s[i], sp, isl, sex) {
        assert s[i] in s;
      }
      MassesAbsent(s, sp, isl, sex);
    }
  }

  /** weights_data after the first pass over s, as a fold over the records. */
  function GroupsOf(s: seq<Record>): Groups {
    if s == [] then map[]
    else
      var r := s[|s| - 1];
      var prev := GroupsOf(s[..|s| - 1]);
      if Weighed(r) then AddMass(prev, Species(r), Island(r), Sex(r), BodyMass(r).value) else prev
  }

  /** The fold builds exactly the groups, each with its masses. */
  lemma {:induction false} GroupsOfGrouped(s: seq<Record>)
    ensures Grouped(s, GroupsOf(s))
  {
    if s != [] {
      var s', r := s[..|s| - 1], s[|s| - 1];
      assert s == s' + [r];
      GroupsOfGrouped(s');
      if Weighed(r) {
        GroupedAdd(s', r, GroupsOf(s'));
      } else {
        GroupedSkip(s', r, GroupsOf(s'));
      }
    }
  }

  /** The first pass: the loop over penguins filling weights_data. */
  method GroupMasses(penguins: seq<Record>) returns (weightsData: Groups)
    ensures weightsData == GroupsOf(penguins)
    ensures Grouped(penguins, weightsData)
  {
    weightsData := map[];
    var i := 0;
    while i < |penguins|
      invariant 0 <= i <= |penguins|
      invariant weightsData == GroupsOf(penguins[..i])
    {
      var penguin := penguins[i];
      var species := Species(penguin);
      var island := Island(penguin);
      var sex := Sex(penguin);
      var bodyMass := BodyMass(penguin);
      if species != "" && island != "" && sex != "" && bodyMass.Some? {
        // The three "create if absent" steps, then the append, on values.
        var islands := if species in weightsData then weightsData[species] else map[];
        var sexes := if island in islands then islands[island] else map[];
        var masses := if sex in sexes then sexes[sex] else [];
        weightsData := weightsData[species := islands[island := sexes[sex := masses + [bodyMass.value]]]];
      }
      assert penguins[..i + 1][..i] == penguins[..i];
      i := i + 1;
    }
    assert penguins[..i] == penguins;
    GroupsOfGrouped(penguins);
  }

  /** sum(weights) */
  function Sum(ws: seq<real>): real {
    if ws == [] then 0.0 else Sum(ws[..|ws| - 1]) + ws[|ws| - 1]
  }

  /** A leaf of weights_stats: the rounded mean, or "No data" for an empty list. */
  datatype Average = Mean(grams: real) | NoData

  /** weights_stats: species -> island -> sex -> average. */
  type Stats = map<string, map<string, map<string, Average>>>

  /** The second pass over one list of masses. */
  function AverageOf(ws: seq<real>): Average {
    if |ws| > 0 then Mean(Round2(Sum(ws) / |ws| as real)) else NoData
  }

  ghost predicate SexesAveraged(genders: map<string, seq<real>>, st: map<string, Average>) {
    && st.Keys == genders.Keys
    && forall sex :: sex in genders ==> st[sex] == AverageOf(genders[sex])
  }

  ghost predicate IslandsAveraged(islands: map<string, map<string, seq<real>>>, st: map<string, map<string, Average>>) {
    && st.Keys == islands.Keys
    && forall isl :: isl in islands ==> SexesAveraged(islands[isl], st[isl])
  }

  /** stats has the shape of groups, with every list of masses replaced by its average. */
  ghost predicate Averaged(groups: Groups, stats: Stats) {
    && stats.Keys == groups.Keys
    && forall sp :: sp in groups ==> IslandsAveraged(groups[sp], stats[sp])
  }

  /** The innermost loop of the second pass: one island's sexes. */
  method AverageSexes(genders: map<string, seq<real>>) returns (genderStats: map<string, Average>)
    ensures SexesAveraged(genders, genderStats)
  {
    genderStats := map[];
    var gendersLeft := genders.Keys;
    while gendersLeft != {}
      invariant gendersLeft <= genders.Keys
      invariant genderStats.Keys == genders.Keys - gendersLeft
      invariant forall sex :: sex in genderStats ==> genderStats[sex] == AverageOf(genders[sex])
      decreases gendersLeft
    {
      var gender :| gender in gendersLeft;
      var weights := genders[gender];
      if |weights| > 0 {
        var avgWeight := Sum(weights) / |weights| as real;
        genderStats := genderStats[gender := Mean(Round2(avgWeight))];
      } else {
        genderStats := genderStats[gender := NoData];
      }
      gendersLeft := gendersLeft - {gender};
    }
  }

  /** The middle loop of the second pass: one species' islands. */
  method AverageIslands(islands: map<string, map<string, seq<real>>>) returns (islandStats: map<string, map<string, Average>>)
    ensures IslandsAveraged(islands, islandStats)
  {
    islandStats := map[];
    var islandsLeft := islands.Keys;
    while islandsLeft != {}
      invariant islandsLeft <= islands.Keys
      invariant islandStats.Keys == islands.Keys - islandsLeft
      invariant forall isl :: isl in islandStats ==> SexesAveraged(islands[isl], islandStats[isl])
      decreases islandsLeft
    {
      var island :| island in islandsLeft;
      var genderStats := AverageSexes(islands[island]);
      islandStats := islandStats[island := genderStats];
      islandsLeft := islandsLeft - {island};
    }
  }

  /** The second pass: the outer loop filling weights_stats. */
  method AverageGroups(groups: Groups) returns (weightsStats: Stats)
    ensures Averaged(groups, weightsStats)
  {
    weightsStats := map[];
    var speciesLeft := groups.Keys;
    while speciesLeft != {}
      invariant speciesLeft <= groups.Keys
      invariant weightsStats.Keys == groups.Keys - speciesLeft
      invariant forall sp :: sp in weightsStats ==> IslandsAveraged(groups[sp], weightsStats[sp])
      decreases speciesLeft
    {
      var species :| species in speciesLeft;
      var islandStats := AverageIslands(groups[species]);
      weightsStats := weightsStats[species := islandStats];
      speciesLeft := speciesLeft - {species};
    }
  }

  /** What calculate_body_weights returns for s: an entry for exactly the
      groups some record contributes to, each holding the rounded mean of
      that group's masses (never "No data"). */
  ghost predicate WeightStats(s: seq<Record>, stats: Stats) {
    && stats.Keys == WeighedSpecies(s)
    && (forall sp :: sp in stats ==> stats[sp].Keys == WeighedIslands(s, sp))
    && (forall sp, isl :: sp in stats && isl in stats[sp] ==>
          stats[sp][isl].Keys == WeighedSexes(s, sp, isl))
    && (forall sp, isl, sex :: sp in stats && isl in stats[sp] && sex in stats[sp][isl] ==>
          && |Masses(s, sp, isl, sex)| > 0
          && stats[sp][isl][sex] == Mean(Round2(Sum(Masses(s, sp, isl, sex)) / |Masses(s, sp, isl, sex)| as real)))
  }

  /** Every group some record contributes to has at least one mass. */
  lemma MassesPresent(s: seq<Record>, species: string, island: string, sex: string)
    requires sex in WeighedSexes(s, species, island)
    ensures |Masses(s, species, island, sex)| == Count(s, InGroupOf(species, island, sex)) > 0
  {
    MassesLength(s, species, island, sex);
    var r :| r in s && Weighed(r) && Species(r) == species && Island(r) == island && Sex(r) == sex;
    var i :| 0 <= i < |s| && s[i] == r;
    CountZeroIff(s, InGroupOf(species, island, sex));
  }

  /** A group's list holds one mass per contributing record. */
  lemma {:induction false} MassesLength(s: seq<Record>, species: string, island: string, sex: string)
    ensures |Masses(s, species, island, sex)| == Count(s, InGroupOf(species, island, sex))
  {
    if s != [] {
      MassesLength(s[..|s| - 1], species, island, sex);
    }
  }

  /** A group's list holds the masses of exactly its contributing records. */
  lemma {:induction false} MassesContents(s: seq<Record>, species: string, island: string, sex: string)
    ensures forall x :: x in Masses(s, species, island, sex) <==>
              exists i :: 0 <= i < |s| && InGroup(s[i], species, island, sex) && BodyMass(s[i]).value == x
  {
    if s != [] {
      var s' := s[..|s| - 1];
      MassesContents(s', species, island, sex);
      assert forall i :: 0 <= i < |s'| ==> s'[i] == s[i];
    }
  }

  /** The body of calculate_body_weights: group, then average. */
  method CalculateBodyWeights(penguins: seq<Record>) returns (weightsStats: Stats)
    ensures WeightStats(penguins, weightsStats)
  {
    var weightsData := GroupMasses(penguins);
    weightsStats := AverageGroups(weightsData);
    forall sp, isl, sex | sp in weightsData && isl in weightsData[sp] && sex in weightsData[sp][isl]
      ensures |Masses(penguins, sp, isl, sex)| > 0
    {
      MassesPresent(penguins, sp, isl, sex);
    }
  }

  /** WeightStats pins the result down: two results for the same records are equal. */
  lemma WeightStatsUnique(s: seq<Record>, a: Stats, b: Stats)
    requires WeightStats(s, a) && WeightStats(s, b)
    ensures a == b
  {
    forall sp | sp in a ensures a[sp] == b[sp] {
      SpeciesStatsUnique(s, a, b, sp);
    }
  }

  lemma SpeciesStatsUnique(s: seq<Record>, a: Stats, b: Stats, sp: string)
    requires WeightStats(s, a) && WeightStats(s, b) && sp in a
    ensures a[sp] == b[sp]
  {
    forall isl | isl in a[sp] ensures a[sp][isl] == b[sp][isl] {
      IslandStatsUnique(s, a, b, sp, isl);
    }
  }

  lemma IslandStatsUnique(s: seq<Record>, a: Stats, b: Stats, sp: string, isl: string)
    requires WeightStats(s, a) && WeightStats(s, b) && sp in a && isl in a[sp]
    ensures a[sp][isl] == b[sp][isl]
  {
    assert a[sp][isl].Keys == b[sp][isl].Keys;
  }

  /** No records, no groups. */
  lemma WeightStatsEmpty(stats: Stats)
    requires WeightStats([], stats)
    ensures stats == map[]
  {
  }

  /** The mean of masses that all lie in [lo, hi] lies in [lo, hi]. */
  lemma MeanWithin(ws: seq<real>, lo: real, hi: real)
    requires |ws| > 0
    requires forall i :: 0 <= i < |ws| ==> lo <= ws[i] <= hi
    ensures lo <= Sum(ws) / |ws| as real <= hi
  {
    SumWithin(ws, lo, hi);
    QuotientWithin(Sum(ws), |ws| as real, lo, hi);
  }

  /** Rounding moves that mean by at most half a hundredth. */
  lemma AverageWithin(ws: seq<real>, lo: real, hi: real)
    requires |ws| > 0
    requires forall i :: 0 <= i < |ws| ==> lo <= ws[i] <= hi
    ensures lo - 0.005 <= AverageOf(ws).grams <= hi + 0.005
  {
    var mean := Sum(ws) / |ws| as real;
    MeanWithin(ws, lo, hi);
    RoundedWithin(mean, lo, hi);
  }

  lemma RoundedWithin(m: real, lo: real, hi: real)
    requires lo <= m <= hi
    ensures lo - 0.005 <= Round2(m) <= hi + 0.005
  {
    var r := Round2(m);
    assert -0.005 <= r - m <= 0.005;
  }

  lemma QuotientWithin(a: real, n: real, lo: real, hi: real)
    requires n > 0.0 && lo * n <= a <= hi * n
    ensures lo <= a / n <= hi
  {
    var q := a / n;
    assert q * n == a;
    assert (q - lo) * n == a - lo * n;
    assert (hi - q) * n == hi * n - a;
  }

  lemma {:induction false} SumWithin(ws: seq<real>, lo: real, hi: real)
    requires forall i :: 0 <= i < |ws| ==> lo <= ws[i] <= hi
    ensures lo * |ws| as real <= Sum(ws) <= hi * |ws| as real
  {
    if ws != [] {
      var ws' := ws[..|ws| - 1];
      assert forall i :: 0 <= i < |ws'| ==> ws'[i] == ws[i];
      SumWithin(ws', lo, hi);
      assert lo * |ws| as real == lo * |ws'| as real + lo;
      assert hi * |ws| as real == hi * |ws'| as real + hi;
    }
  }

  /** The averages the tests pin: 4000, 4100, 4200 give 4100.0; 5000, 5200 give 5100.0; a lone 3600 gives 3600.0. */
  lemma PinnedAverages()
    ensures AverageOf([4000.0, 4100.0, 4200.0]) == Mean(4100.0)
    ensures AverageOf([5000.0, 5200.0]) == Mean(5100.0)
    ensures AverageOf([3600.0]) == Mean(3600.0)
  {
    assert [4000.0, 4100.0, 4200.0][..2] == [4000.0, 4100.0];
    assert [4000.0, 4100.0][..1] == [4000.0];
    assert Sum([4000.0, 4100.0, 4200.0]) == 12300.0;
    assert [5000.0, 5200.0][..1] == [5000.0];
    assert Sum([5000.0, 5200.0]) == 10200.0;
    assert Sum([3600.0]) == 3600.0;
    Round2OfCents(4100.0);
    Round2OfCents(5100.0);
    Round2OfCents(3600.0);
  }
}
