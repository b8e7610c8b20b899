/** count_total_penguins and count_species_by_island: how many records there
    are, and how the located ones spread over species and islands. */
module Tallies {
  import opened Text
  import opened Records
  import opened Counting

  /** len(penguins) */
  function CountTotalPenguins(penguins: seq<Record>): nat {
    |penguins|
  }

  function Everything(): Record -> bool {
    r => true
  }

  /** The total is unfiltered: it counts every record, whatever it holds. */
  lemma {:induction false} TotalCountsEveryRecord(s: seq<Record>)
    ensures CountTotalPenguins(s) == Count(s, Everything())
  {
    if s != [] {
      TotalCountsEveryRecord(s[..|s| - 1]);
    }
  }

  /** One species' entry: {'total': n, 'islands': {island: n}}. */
  datatype SpeciesEntry = SpeciesEntry(total: nat, islands: map<string, nat>)

  /** The species and island names, with surrounding whitespace stripped. */
  function SpeciesName(r: Record): string { Strip(Species(r)) }

  function IslandName(r: Record): string { Strip(Island(r)) }

  /** A record is counted only when both stripped names are non-empty. */
  predicate Located(r: Record) {
    SpeciesName(r) != "" && IslandName(r) != ""
  }

  function AnyLocated(): Record -> bool {
    r => Located(r)
  }

  function OfSpecies(species: string): Record -> bool {
    r => Located(r) && SpeciesName(r) == species
  }

  function OfSpeciesOn(species: string, island: string): Record -> bool {
    r => Located(r) && SpeciesName(r) == species && IslandName(r) == island
  }

  ghost function LocatedSpecies(s: seq<Record>): set<string> {
    set r | r in s && Located(r) :: SpeciesName(r)
  }

  ghost function LocatedIslands(s: seq<Record>, species: string): set<string> {
    set r | r in s && Located(r) && SpeciesName(r) == species :: IslandName(r)
  }

  /** data is what count_species_by_island returns for s: an entry for every
      species a located record names, holding the number of its located
      records and, for every island they name, the number on that island. */
  ghost predicate Distributed(s: seq<Record>, data: map<string, SpeciesEntry>) {
    && data.Keys == LocatedSpecies(s)
    && (forall sp :: sp in data ==> data[sp].total == Count(s, OfSpecies(sp)))
    && (forall sp :: sp in data ==> data[sp].islands.Keys == LocatedIslands(s, sp))
    && (forall sp, isl :: sp in data && isl in data[sp].islands ==>
          data[sp].islands[isl] == Count(s, OfSpeciesOn(sp, isl)))
  }

  /** Counting one located record, the three statements of the loop body: its
      species entry is created as {'total': 0, 'islands': {}} on first sight,
      its total gains one, and its island's count (0 if absent) gains one. */
  function Tally(data: map<string, SpeciesEntry>, species: string, island: string): map<string, SpeciesEntry> {
    var entry := if species in data then data[species] else SpeciesEntry(0, map[]);
    var onIsland := if island in entry.islands then entry.islands[island] else 0;
    data[species := SpeciesEntry(entry.total + 1, entry.islands[island := onIsland + 1])]
  }

  /** species_data after the loop over s, as a fold over the records. */
  function DistributionOf(s: seq<Record>): map<string, SpeciesEntry> {
    if s == [] then map[]
    else
      var r := s[|s| - 1];
      var prev := DistributionOf(s[..|s| - 1]);
      if Located(r) then Tally(prev, SpeciesName(r), IslandName(r)) else prev
  }

  /** The loop of count_species_by_island. */
  method CountSpeciesByIsland(penguins: seq<Record>) returns (speciesData: map<string, SpeciesEntry>)
    ensures speciesData == DistributionOf(penguins)
    ensures Distributed(penguins, speciesData)
  {
    speciesData := map[];
    var i := 0;
    while i < |penguins|
      invariant 0 <= i <= |penguins|
      invariant speciesData == DistributionOf(penguins[..i])
    {
      var penguin := penguins[i];
      var species := SpeciesName(penguin);
      var island := IslandName(penguin);
      if species != "" && island != "" {
        speciesData := Tally(speciesData, species, island);
      }
      DistributionStep(penguins, i);
      i := i + 1;
    }
    assert penguins[..i] == penguins;
    DistributionOfDistributed(penguins);
  }

  lemma DistributionStep(s: seq<Record>, i: nat)
    requires i < |s|
    ensures DistributionOf(s[..i + 1]) ==
              if Located(s[i]) then Tally(DistributionOf(s[..i]), SpeciesName(s[i]), IslandName(s[i]))
              else DistributionOf(s[..i])
  {
    assert s[..i + 1][..i] == s[..i];
  }

  /** One more record adds its species exactly when it is located. */
  lemma LocatedSpeciesSnoc(s: seq<Record>, r: Record)
    ensures LocatedSpecies(s + [r]) == LocatedSpecies(s) + (if Located(r) then {SpeciesName(r)} else {})
  {
    assert forall x :: x in s + [r] <==> x in s || x == r;
  }

  /** One more record adds its island to its own species' islands exactly when it is located. */
  lemma LocatedIslandsSnoc(s: seq<Record>, r: Record, sp: string)
    ensures LocatedIslands(s + [r], sp) ==
              LocatedIslands(s, sp) + (if Located(r) && SpeciesName(r) == sp then {IslandName(r)} else {})
  {
    assert forall x :: x in s + [r] <==> x in s || x == r;
  }

  /** An unlocated record changes nothing. */
  lemma DistributedSkip(s: seq<Record>, r: Record, data: map<string, SpeciesEntry>)
    requires Distributed(s, data) && !Located(r)
    ensures Distributed(s + [r], data)
  {
    SkippedKeys(s, r, data);
    forall sp | sp in data ensures data[sp].total == Count(s + [r], OfSpecies(sp)) {
      SkippedTotal(s, r, data, sp);
    }
    forall sp, isl | sp in data && isl in data[sp].islands
      ensures data[sp].islands[isl] == Count(s + [r], OfSpeciesOn(sp, isl))
    {
      SkippedIsland(s, r, data, sp, isl);
    }
  }

  lemma SkippedKeys(s: seq<Record>, r: Record, data: map<string, SpeciesEntry>)
    requires Distributed(s, data) && !Located(r)
    ensures data.Keys == LocatedSpecies(s + [r])
    ensures forall sp :: sp in data ==> data[sp].islands.Keys == LocatedIslands(s + [r], sp)
  {
    LocatedSpeciesSnoc(s, r);
    forall sp | sp in data ensures data[sp].islands.Keys == LocatedIslands(s + [r], sp) {
      LocatedIslandsSnoc(s, r, sp);
    }
  }

  lemma SkippedTotal(s: seq<Record>, r: Record, data: map<string, SpeciesEntry>, sp: string)
    requires Distributed(s, data) && !Located(r)
    requires sp in data
    ensures data[sp].total == Count(s + [r], OfSpecies(sp))
  {
    CountSnoc(s, r, OfSpecies(sp));
  }

  lemma SkippedIsland(s: seq<Record>, r: Record, data: map<string, SpeciesEntry>, sp: string, isl: string)
    requires Distributed(s, data) && !Located(r)
    requires sp in data && isl in data[sp].islands
    ensures data[sp].islands[isl] == Count(s + [r], OfSpeciesOn(sp, isl))
  {
    CountSnoc(s, r, OfSpeciesOn(sp, isl));
  }

  /** A located record is tallied under its own species and island only. */
  lemma DistributedAdd(s: seq<Record>, r: Record, data: map<string, SpeciesEntry>)
    requires Distributed(s, data) && Located(r)
    ensures Distributed(s + [r], Tally(data, SpeciesName(r), IslandName(r)))
  {
    var next := Tally(data, SpeciesName(r), IslandName(r));
    TalliedKeys(s, r, data);
    forall sp | sp in next ensures next[sp].total == Count(s + [r], OfSpecies(sp)) {
      TalliedTotal(s, r, data, sp);
    }
    forall sp | sp in next ensures next[sp].islands.Keys == LocatedIslands(s + [r], sp) {
      TalliedIslands(s, r, data, sp);
    }
    forall sp, isl | sp in next && isl in next[sp].islands
      ensures next[sp].islands[isl] == Count(s + [r], OfSpeciesOn(sp, isl))
    {
      TalliedIsland(s, r, data, sp, isl);
    }
  }

  /** The species after the step are those before and the record's own. */
  lemma TalliedKeys(s: seq<Record>, r: Record, data: map<string, SpeciesEntry>)
    requires Distributed(s, data) && Located(r)
    ensures Tally(data, SpeciesName(r), IslandName(r)).Keys == LocatedSpecies(s + [r])
  {
    LocatedSpeciesSnoc(s, r);
  }

  /** After the step each species' total counts its located records. */
  lemma TalliedTotal(s: seq<Record>, r: Record, data: map<string, SpeciesEntry>, sp: string)
    requires Distributed(s, data) && Located(r)
    requires sp in Tally(data, SpeciesName(r), IslandName(r))
    ensures Tally(data, SpeciesName(r), IslandName(r))[sp].total == Count(s + [r], OfSpecies(sp))
  {
    CountSnoc(s, r, OfSpecies(sp));
    if sp == SpeciesName(r) && sp !in data {
      forall i | 0 <= i < |s| ensures !OfSpecies(sp)(s[i]) {
        assert s[i] in s;
      }
      CountZeroIff(s, OfSpecies(sp));
    }
  }

  /** After the step each species has an entry for exactly the islands of its located records. */
  lemma TalliedIslands(s: seq<Record>, r: Record, data: map<string, SpeciesEntry>, sp: string)
    requires Distributed(s, data) && Located(r)
    requires sp in Tally(data, SpeciesName(r), IslandName(r))
    ensures Tally(data, SpeciesName(r), IslandName(r))[sp].islands.Keys == LocatedIslands(s + [r], sp)
  {
    LocatedIslandsSnoc(s, r, sp);
    if sp == SpeciesName(r) && sp !in data {
      LocatedIslandsOfLocatedSpecies(s, sp);
    }
  }

  /** A species with a located island is a located species. */
  lemma LocatedIslandsOfLocatedSpecies(s: seq<Record>, sp: string)
    ensures sp !in LocatedSpecies(s) ==> LocatedIslands(s, sp) == {}
  {
    if LocatedIslands(s, sp) != {} {
      var isl :| isl in LocatedIslands(s, sp);
      var r :| r in s && Located(r) && SpeciesName(r) == sp && IslandName(r) == isl;
      assert sp in LocatedSpecies(s);
    }
  }

  lemma TalliedIsland(s: seq<Record>, r: Record, data: map<string, SpeciesEntry>, sp: string, isl: string)
    requires Distributed(s, data) && Located(r)
    requires sp in Tally(data, SpeciesName(r), IslandName(r))
    requires isl in Tally(data, SpeciesName(r), IslandName(r))[sp].islands
    ensures Tally(data, SpeciesName(r), IslandName(r))[sp].islands[isl] == Count(s + [r], OfSpeciesOn(sp, isl))
  {
    CountSnoc(s, r, OfSpeciesOn(sp, isl));
    if sp == SpeciesName(r) && isl == IslandName(r) && !(sp in data && isl in data[sp].islands) {
      forall i | 0 <= i < |s| ensures !OfSpeciesOn(sp, isl)(s[i]) {
        assert s[i] in s;
      }
      CountZeroIff(s, OfSpeciesOn(sp, isl));
    }
  }

  /** The fold counts each species and each of its islands. */
  lemma {:induction false} DistributionOfDistributed(s: seq<Record>)
    ensures Distributed(s, DistributionOf(s))
  {
    if s != [] {
      var s', r := s[..|s| - 1], s[|s| - 1];
      assert s == s' + [r];
      DistributionOfDistributed(s');
      if Located(r) {
        DistributedAdd(s', r, DistributionOf(s'));
      } else {
        DistributedSkip(s', r, DistributionOf(s'));
      }
    }
  }

  /** The sum of m's values under the given keys. */
  ghost function SumOver(m: map<string, nat>, keys: set<string>): nat
    requires keys <= m.Keys
    decreases keys
  {
    if keys == {} then 0
    else
      var k :| k in keys;
      m[k] + SumOver(m, keys - {k})
  }

  /** The sum of a map's values. */
  ghost function SumValues(m: map<string, nat>): nat {
    SumOver(m, m.Keys)
  }

  /** Any one key can be taken out first. */
  lemma SumOverRemove(m: map<string, nat>, keys: set<string>, k: string)
    requires keys <= m.Keys && k in keys
    ensures SumOver(m, keys) == m[k] + SumOver(m, keys - {k})
    decreases keys
  {
    var j :| j in keys && SumOver(m, keys) == m[j] + SumOver(m, keys - {j});
    if j != k {
      SumOverRemove(m, keys - {j}, k);
      SumOverRemove(m, keys - {k}, j);
      assert keys - {j} - {k} == keys - {k} - {j};
    }
  }

  /** Values outside the keys do not enter the sum. */
  lemma SumOverFrame(m: map<string, nat>, keys: set<string>, k: string, v: nat)
    requires keys <= m.Keys && k !in keys
    ensures SumOver(m[k := v], keys) == SumOver(m, keys)
    decreases keys
  {
    if keys != {} {
      var j :| j in keys && SumOver(m, keys) == m[j] + SumOver(m, keys - {j});
      SumOverRemove(m[k := v], keys, j);
      SumOverFrame(m, keys - {j}, k, v);
    }
  }

  /** Setting one key to v replaces its old value (0 if absent) in the sum. */
  lemma SumValuesUpdate(m: map<string, nat>, k: string, v: nat)
    ensures SumValues(m[k := v]) == SumValues(m) - (if k in m then m[k] else 0) + v
  {
    var rest := m.Keys - {k};
    SumOverRemove(m[k := v], m[k := v].Keys, k);
    assert m[k := v].Keys - {k} == rest;
    SumOverFrame(m, rest, k, v);
    if k in m {
      SumOverRemove(m, m.Keys, k);
    } else {
      assert m.Keys == rest;
    }
  }

  /** Every species' total is the sum of its island counts. */
  lemma {:induction false} TotalIsIslandSum(s: seq<Record>)
    ensures forall sp :: sp in DistributionOf(s) ==>
              DistributionOf(s)[sp].total == SumValues(DistributionOf(s)[sp].islands)
  {
    if s != [] {
      var s', r := s[..|s| - 1], s[|s| - 1];
      TotalIsIslandSum(s');
      if Located(r) {
        var prev := DistributionOf(s');
        var entry := if SpeciesName(r) in prev then prev[SpeciesName(r)] else SpeciesEntry(0, map[]);
        var onIsland := if IslandName(r) in entry.islands then entry.islands[IslandName(r)] else 0;
        SumValuesUpdate(entry.islands, IslandName(r), onIsland + 1);
      }
    }
  }

  /** The species totals, as a map of their own. */
  function Totals(data: map<string, SpeciesEntry>): map<string, nat> {
    map sp | sp in data :: data[sp].total
  }

  /** The totals together count every located record exactly once. */
  lemma {:induction false} TotalsCountLocated(s: seq<Record>)
    ensures SumValues(Totals(DistributionOf(s))) == Count(s, AnyLocated())
  {
    if s != [] {
      var s', r := s[..|s| - 1], s[|s| - 1];
      TotalsCountLocated(s');
      if Located(r) {
        var prev := DistributionOf(s');
        var sp := SpeciesName(r);
        var before := if sp in prev then prev[sp].total else 0;
        assert Totals(DistributionOf(s)) == Totals(prev)[sp := before + 1];
        SumValuesUpdate(Totals(prev), sp, before + 1);
      }
    }
  }

  /** The located records, tallied over all species, are at most all the records. */
  lemma LocatedWithinTotal(s: seq<Record>)
    ensures SumValues(Totals(DistributionOf(s))) <= CountTotalPenguins(s)
  {
    TotalsCountLocated(s);
  }
}
