/** calculate_ratio: each island's male:female ratio, or a sentinel. */
module Ratio {
  import opened Rounding
  import opened Records
  import opened Counting
  import opened IslandGender

  /** "No data" (nobody counted), "No females", or the rounded quotient. */
  datatype Ratio = NoData | NoFemales | Quotient(value: real)

  /** The loop over counts.items(). */
  method CalculateRatio(counts: map<string, GenderCount>) returns (ratios: map<string, Ratio>)
    ensures ratios.Keys == counts.Keys
    ensures forall island :: island in counts ==>
              (ratios[island] == NoData <==> counts[island].female == 0 && counts[island].male == 0)
    ensures forall island :: island in counts ==>
              (ratios[island] == NoFemales <==> counts[island].female == 0 && counts[island].male > 0)
    ensures forall island :: island in counts && counts[island].female > 0 ==>
              ratios[island] == Quotient(Round2(counts[island].male as real / counts[island].female as real))
  {
    ratios := map[];
    var todo := counts.Keys;
    while todo != {}
      invariant todo <= counts.Keys
      invariant ratios.Keys == counts.Keys - todo
      invariant forall island :: island in ratios ==>
                  (ratios[island] == NoData <==> counts[island].female == 0 && counts[island].male == 0)
      invariant forall island :: island in ratios ==>
                  (ratios[island] == NoFemales <==> counts[island].female == 0 && counts[island].male > 0)
      invariant forall island :: island in ratios && counts[island].female > 0 ==>
                  ratios[island] == Quotient(Round2(counts[island].male as real / counts[island].female as real))
      decreases todo
    {
      var island :| island in todo;
      var maleCount := counts[island].male;
      var femaleCount := counts[island].female;
      if femaleCount == 0 {
        if maleCount == 0 {
          ratios := ratios[island := NoData];
        } else {
          ratios := ratios[island := NoFemales];
        }
      } else {
        var ratio := maleCount as real / femaleCount as real;
        ratios := ratios[island := Quotient(Round2(ratio))];
      }
      todo := todo - {island};
    }
  }

  /** The ratios the tests pin: 100:50, 30:40, 25:25, 1:1 and 0:100. */
  lemma PinnedRatios()
    ensures Round2(100.0 / 50.0) == 2.0
    ensures Round2(30.0 / 40.0) == 0.75
    ensures Round2(25.0 / 25.0) == 1.0
    ensures Round2(1.0 / 1.0) == 1.0
    ensures Round2(0.0 / 100.0) == 0.0
  {
    Round2OfCents(2.0);
    Round2OfCents(0.75);
    Round2OfCents(1.0);
    Round2OfCents(0.0);
  }

  /** Fed the island counts, "No data" marks exactly the islands whose counted
      records all have a sex that is neither male nor female. */
  lemma NoDataMeansUnrecognisedSex(s: seq<Record>, counts: map<string, GenderCount>, island: string)
    requires Tallied(s, counts) && island in counts
    ensures (counts[island].male == 0 && counts[island].female == 0) <==>
              forall i :: 0 <= i < |s| && Sexed(s[i]) && Island(s[i]) == island ==>
                !IsMale(s[i]) && !IsFemale(s[i])
  {
    CountZeroIff(s, MalesOn(island));
    CountZeroIff(s, FemalesOn(island));
  }
}
