/** count_island_gender: island -> (male, female) counts. */
module IslandGender {
  import opened Text
  import opened Records
  import opened Counting

  datatype GenderCount = GenderCount(male: nat, female: nat)

  /** A record is counted at all only when both island and sex are non-empty. */
  predicate Sexed(r: Record) {
    Island(r) != "" && Sex(r) != ""
  }

  /** sex.lower() == 'male' */
  predicate IsMale(r: Record) {
    Lower(Sex(r)) == "male"
  }

  /** sex.lower() == 'female' */
  predicate IsFemale(r: Record) {
    Lower(Sex(r)) == "female"
  }

  function OnIsland(island: string): Record -> bool {
    r => Sexed(r) && Island(r) == island
  }

  function MalesOn(island: string): Record -> bool {
    r => Sexed(r) && Island(r) == island && IsMale(r)
  }

  function FemalesOn(island: string): Record -> bool {
    r => Sexed(r) && Island(r) == island && IsFemale(r)
  }

  /** The islands of the counted records, whatever their sex. */
  ghost function SexedIslands(s: seq<Record>): set<string> {
    set r | r in s && Sexed(r) :: Island(r)
  }

  /** The male and female counts of one island. */
  function IslandCount(s: seq<Record>, island: string): GenderCount {
    GenderCount(Count(s, MalesOn(island)), Count(s, FemalesOn(island)))
  }

  /** counts is what count_island_gender returns for s: an entry for every
      island some counted record names, holding the number of counted records
      of that island of each sex. */
  ghost predicate Tallied(s: seq<Record>, counts: map<string, GenderCount>) {
    && counts.Keys == SexedIslands(s)
    && forall island :: island in counts ==> counts[island] == IslandCount(s, island)
  }

  lemma SexedIslandsSnoc(s: seq<Record>, r: Record)
    ensures SexedIslands(s + [r]) == SexedIslands(s) + (if Sexed(r) then {Island(r)} else {})
  {
    assert forall x :: x in s + [r] <==> x in s || x == r;
  }

  /** counts[island], created as {'male': 0, 'female': 0} on first sight. */
  function Entry(counts: map<string, GenderCount>, island: string): GenderCount {
    if island in counts then counts[island] else GenderCount(0, 0)
  }

  /** One record's increment of its island's entry. */
  function Bumped(c: GenderCount, r: Record): GenderCount {
    if IsMale(r) then c.(male := c.male + 1)
    else if IsFemale(r) then c.(female := c.female + 1)
    else c
  }

  /** One record's step of the loop: a counted record's island entry is
      created if absent and bumped; any other record changes nothing. */
  function Counted(counts: map<string, GenderCount>, r: Record): map<string, GenderCount> {
    if Sexed(r) then counts[Island(r) := Bumped(Entry(counts, Island(r)), r)] else counts
  }

  /** counts after the loop over s, as a fold over the records. */
  function TallyOf(s: seq<Record>): map<string, GenderCount> {
    if s == [] then map[] else Counted(TallyOf(s[..|s| - 1]), s[|s| - 1])
  }

  /** Counting one more record updates at most its own island's entry. */
  lemma TalliedSnoc(s: seq<Record>, r: Record, prev: map<string, GenderCount>)
    requires Tallied(s, prev)
    ensures Tallied(s + [r], Counted(prev, r))
  {
    var next := Counted(prev, r);
    CountedKeys(s, r, prev);
    forall isl | isl in next
      ensures next[isl] == IslandCount(s + [r], isl)
    {
      CountedAt(s, r, prev, isl);
    }
  }

  /** The islands after counting one more record are those before and, if
      it is counted, its own. */
  lemma CountedKeys(s: seq<Record>, r: Record, prev: map<string, GenderCount>)
    requires Tallied(s, prev)
    ensures Counted(prev, r).Keys == SexedIslands(s + [r])
  {
    SexedIslandsSnoc(s, r);
  }

  /** One island's entry after counting one more record. */
  lemma CountedAt(s: seq<Record>, r: Record, prev: map<string, GenderCount>, isl: string)
    requires Tallied(s, prev)
    requires isl in Counted(prev, r)
    ensures Counted(prev, r)[isl] == IslandCount(s + [r], isl)
  {
    CountSnoc(s, r, MalesOn(isl));
    CountSnoc(s, r, FemalesOn(isl));
    if Sexed(r) && isl == Island(r) && isl !in prev {
      forall i | 0 <= i < |s| ensures !MalesOn(isl)(s[i]) && !FemalesOn(isl)(s[i]) {
        assert s[i] in s;
      }
      CountZeroIff(s, MalesOn(isl));
      CountZeroIff(s, FemalesOn(isl));
    }
  }

  /** The fold tallies every island. */
  lemma {:induction false} TallyOfTallied(s: seq<Record>)
    ensures Tallied(s, TallyOf(s))
  {
    if s != [] {
      var s', r := s[..|s| - 1], s[|s| - 1];
      assert s == s' + [r];
      TallyOfTallied(s');
      TalliedSnoc(s', r, TallyOf(s'));
    }
  }

  lemma TallyStep(s: seq<Record>, i: nat)
    requires i < |s|
    ensures TallyOf(s[..i + 1]) == Counted(TallyOf(s[..i]), s[i])
  {
    assert s[..i + 1][..i] == s[..i];
  }

  lemma UpdateTwice(m: map<string, GenderCount>, k: string, a: GenderCount, b: GenderCount)
    ensures m[k := a][k := b] == m[k := b]
  {
  }

  /** The loop body of count_island_gender for one record. */
  method CountOne(counts: map<string, GenderCount>, penguin: Record) returns (next: map<string, GenderCount>)
    ensures next == Counted(counts, penguin)
  {
    next := counts;
    var island := Island(penguin);
    var sex := Sex(penguin);
    if island != "" && sex != "" {
      if island !in next {
        next := next[island := GenderCount(0, 0)];
      }
      ghost var entry := Entry(counts, island);
      assert next == counts[island := entry];
      ghost var bumped := Bumped(entry, penguin);
      if Lower(sex) == "male" {
        next := next[island := next[island].(male := next[island].male + 1)];
        assert bumped == entry.(male := entry.male + 1);
      } else if Lower(sex) == "female" {
        next := next[island := next[island].(female := next[island].female + 1)];
        assert bumped == entry.(female := entry.female + 1);
      } else {
        assert bumped == entry;
      }
      UpdateTwice(counts, island, entry, bumped);
    }
  }

  /** The loop of count_island_gender. */
  method CountIslandGender(penguins: seq<Record>) returns (counts: map<string, GenderCount>)
    ensures counts == TallyOf(penguins)
    ensures Tallied(penguins, counts)
  {
    counts := map[];
    var i := 0;
    while i < |penguins|
      invariant 0 <= i <= |penguins|
      invariant counts == TallyOf(penguins[..i])
    {
      counts := CountOne(counts, penguins[i]);
      TallyStep(penguins, i);
      i := i + 1;
    }
    assert penguins[..i] == penguins;
    TallyOfTallied(penguins);
  }

  /** Tallied pins the map down: two tallies of the same records are equal. */
  lemma TalliedUnique(s: seq<Record>, c1: map<string, GenderCount>, c2: map<string, GenderCount>)
    requires Tallied(s, c1) && Tallied(s, c2)
    ensures c1 == c2
  {
  }

  /** An island has an entry exactly when some record names it with a non-empty
      sex, even if that sex is neither male nor female. */
  lemma TalliedKeys(s: seq<Record>, counts: map<string, GenderCount>, island: string)
    requires Tallied(s, counts)
    ensures island in counts <==>
              exists i :: 0 <= i < |s| && Island(s[i]) == island && island != "" && Sex(s[i]) != ""
  {
    if island in counts {
      var r :| r in s && Sexed(r) && Island(r) == island;
      var i :| 0 <= i < |s| && s[i] == r;
    }
  }

  /** Every island's male and female counts together are at most its counted
      records, of which there is at least one. */
  lemma TalliedBound(s: seq<Record>, counts: map<string, GenderCount>, island: string)
    requires Tallied(s, counts) && island in counts
    ensures counts[island].male + counts[island].female <= Count(s, OnIsland(island))
    ensures Count(s, OnIsland(island)) >= 1
  {
    CountDisjointBound(s, MalesOn(island), FemalesOn(island), OnIsland(island));
    var r :| r in s && Sexed(r) && Island(r) == island;
    var i :| 0 <= i < |s| && s[i] == r;
    CountZeroIff(s, OnIsland(island));
  }

  /** The counts do not depend on the order of the records. */
  lemma TalliedPermutation(a: seq<Record>, b: seq<Record>, counts: map<string, GenderCount>)
    requires multiset(a) == multiset(b)
    requires Tallied(a, counts)
    ensures Tallied(b, counts)
  {
    forall r ensures r in a <==> r in b {
      assert r in a <==> r in multiset(a);
      assert r in b <==> r in multiset(b);
    }
    assert SexedIslands(a) == SexedIslands(b);
    forall island | island in counts
      ensures counts[island] == IslandCount(b, island)
    {
      CountPermutation(a, b, MalesOn(island));
      CountPermutation(a, b, FemalesOn(island));
    }
  }

  /** No records, no islands. */
  lemma TalliedEmpty(counts: map<string, GenderCount>)
    requires Tallied([], counts)
    ensures counts == map[]
  {
  }

  /** The spellings the tests pin as counted: "Male" and "male" are male,
      "FEMALE" is female. */
  lemma PinnedSexSpellings()
    ensures Lower("Male") == "male" && Lower("male") == "male"
    ensures Lower("FEMALE") == "female"
  {
    assert Lower("Male") == "male";
    assert Lower("male") == "male";
    assert Lower("FEMALE") == "female";
  }

  /** The spelling the tests pin as neither sex: "other". */
  lemma OtherIsNeitherSex()
    ensures Lower("other") != "male" && Lower("other") != "female"
  {
    assert Lower("other")[0] == 'o';
  }
}
