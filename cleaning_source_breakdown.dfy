/**
 * The older source summary (cleaning/source_breakdown.py): the same
 * duplicate check and counting as the newer one, without rank or family
 * filters, then 'POWO' and 'Wiki' reset to 0 and set to the totals of the
 * keys containing 'POWO pages' and '_wiki'.  No key is deleted.  Reading
 * the CSV, writing the tables and plotting are left out.
 */
module CleaningSourceBreakdown {
  import opened Base
  import opened Strs
  import opened Dicts
  import SB = SourceBreakdown

  /** The fixed translation dictionary of line 20, in its order. */
  const FixedTranslations: SB.Translations := [("Wiki", "_wiki"), ("POWO", "POWO pages")]

  /** The targets in the order lines 44-47 reset them. */
  const ResetOrder: SB.Translations := [("POWO", "POWO pages"), ("Wiki", "_wiki")]

  /** The two fixed translations have distinct targets, and neither target contains a pattern. */
  lemma FixedTranslationsShape()
    ensures SB.DistinctTargets(FixedTranslations) && SB.NoTargetMatched(FixedTranslations)
    ensures SB.DistinctTargets(ResetOrder) && SB.NoTargetMatched(ResetOrder)
  {
  }

  /** `output_summary_of_hit_csv` up to writing and plotting: the two dictionaries it returns. */
  function OldSummary(rows: seq<SB.HitRow>, checkDuplicates: bool): Result<(Dict, Dict)>
  {
    if checkDuplicates && SB.HasDuplicateIds(rows) then Err("ValueError")
    else
      var srcs := SB.SourceLists(DistinctBy(rows, SB.AccId));
      var cu := SB.Tally(srcs, |srcs|);
      var c1 := SB.Reset(cu.0, ResetOrder, 2);
      var u1 := SB.Reset(cu.1, ResetOrder, 2);
      Ok((SB.RouteKeys(c1, c1.keys, |c1.keys|, FixedTranslations), SB.RouteKeys(u1, u1.keys, |u1.keys|, FixedTranslations)))
  }

  /** Lines 44-47 for one dictionary: 'POWO' set to 0, then 'Wiki'. */
  lemma ResetIsPowoThenWiki(d: Dict)
    ensures SB.Reset(d, ResetOrder, 2) == Put(Put(d, "POWO", 0), "Wiki", 0)
  {
    assert SB.Reset(d, ResetOrder, 1) == Put(d, "POWO", 0);
  }

  /** Lines 49-52 (and 54-57) for one dictionary: route every key in order. */
  method RouteEveryKey(d: Dict) returns (e: Dict)
    ensures e == SB.RouteKeys(d, d.keys, |d.keys|, FixedTranslations)
  {
    e := d;
    var ks := d.keys;
    var i := 0;
    while i < |ks|
      invariant i <= |ks| && e == SB.RouteKeys(d, ks, i, FixedTranslations)
    {
      var found;
      e, found := SB.RouteKey(e, ks[i], FixedTranslations);
      i := i + 1;
    }
  }

  method OutputSummaryOfHitCsv(rows: seq<SB.HitRow>, checkDuplicates: bool) returns (r: Result<(Dict, Dict)>)
    ensures r == OldSummary(rows, checkDuplicates)
  {
    if SB.HasDuplicateIds(rows) && checkDuplicates {
      return Err("ValueError");
    }
    var c0, u0 := SB.CountSources(SB.SourceLists(DistinctBy(rows, SB.AccId)));
    var c, u := Put(c0, "POWO", 0), Put(u0, "POWO", 0);
    c, u := Put(c, "Wiki", 0), Put(u, "Wiki", 0);
    ResetIsPowoThenWiki(c0);
    ResetIsPowoThenWiki(u0);
    c := RouteEveryKey(c);
    u := RouteEveryKey(u);
    return Ok((c, u));
  }

  /** Duplicate Accepted_IDs raise exactly when check_duplicates is set; nothing else raises. */
  lemma OldSummaryRaises(rows: seq<SB.HitRow>, checkDuplicates: bool)
    ensures OldSummary(rows, checkDuplicates).Err? <==> checkDuplicates && SB.HasDuplicateIds(rows)
  {
  }

  /**
   * 'POWO' and 'Wiki' count the sums over the tallied keys containing
   * 'POWO pages' and '_wiki', in both dictionaries.
   */
  lemma PowoAndWikiSums(rows: seq<SB.HitRow>, checkDuplicates: bool)
    requires OldSummary(rows, checkDuplicates).Ok?
    ensures var r := OldSummary(rows, checkDuplicates).value;
      var srcs := SB.SourceLists(DistinctBy(rows, SB.AccId));
      var cu := SB.Tally(srcs, |srcs|);
      var ks := SB.Reset(cu.0, ResetOrder, 2).keys; var us := SB.Reset(cu.1, ResetOrder, 2).keys;
      Get(r.0, "POWO") == SB.SumMatching(cu.0, ks, |ks|, "POWO pages")
      && Get(r.0, "Wiki") == SB.SumMatching(cu.0, ks, |ks|, "_wiki")
      && Get(r.1, "POWO") == SB.SumMatching(cu.1, us, |us|, "POWO pages")
      && Get(r.1, "Wiki") == SB.SumMatching(cu.1, us, |us|, "_wiki")
  {
    var srcs := SB.SourceLists(DistinctBy(rows, SB.AccId));
    var cu := SB.Tally(srcs, |srcs|);
    FixedTranslationsShape();
    PowoAndWikiOne(cu.0);
    PowoAndWikiOne(cu.1);
  }

  lemma PowoAndWikiOne(d: Dict)
    ensures var d1 := SB.Reset(d, ResetOrder, 2); var r := SB.RouteKeys(d1, d1.keys, |d1.keys|, FixedTranslations);
      Get(r, "POWO") == SB.SumMatching(d, d1.keys, |d1.keys|, "POWO pages")
      && Get(r, "Wiki") == SB.SumMatching(d, d1.keys, |d1.keys|, "_wiki")
  {
    var d1 := SB.Reset(d, ResetOrder, 2);
    FixedTranslationsShape();
    SB.ResetTargets(d, ResetOrder, 2);
    SB.RouteKeysSums(d1, d1.keys, |d1.keys|, FixedTranslations, 0);
    SB.RouteKeysSums(d1, d1.keys, |d1.keys|, FixedTranslations, 1);
    SB.SumUnchangedByReset(d, ResetOrder, d1.keys, |d1.keys|, 0);
    SB.SumUnchangedByReset(d, ResetOrder, d1.keys, |d1.keys|, 1);
  }

  /** Every tallied key is kept, and every key other than 'POWO' and 'Wiki' keeps its tally. */
  lemma OriginalKeysRetained(rows: seq<SB.HitRow>, checkDuplicates: bool, x: string)
    requires OldSummary(rows, checkDuplicates).Ok?
    ensures var r := OldSummary(rows, checkDuplicates).value;
      var srcs := SB.SourceLists(DistinctBy(rows, SB.AccId));
      var cu := SB.Tally(srcs, |srcs|);
      (x in cu.0.vals ==> x in r.0.vals) && (x in cu.1.vals ==> x in r.1.vals)
      && (x != "POWO" && x != "Wiki" ==> Get(r.0, x) == Get(cu.0, x) && Get(r.1, x) == Get(cu.1, x))
  {
    var srcs := SB.SourceLists(DistinctBy(rows, SB.AccId));
    var cu := SB.Tally(srcs, |srcs|);
    SB.TallyValid(srcs, |srcs|);
    RetainedOne(cu.0, x);
    RetainedOne(cu.1, x);
  }

  lemma RetainedOne(d: Dict, x: string)
    requires Valid(d)
    ensures var d1 := SB.Reset(d, ResetOrder, 2); var r := SB.RouteKeys(d1, d1.keys, |d1.keys|, FixedTranslations);
      (x in d.vals ==> x in r.vals) && (x != "POWO" && x != "Wiki" ==> Get(r, x) == Get(d, x))
  {
    var d1 := SB.Reset(d, ResetOrder, 2);
    SB.ResetValid(d, ResetOrder, 2);
    SB.ResetTargets(d, ResetOrder, 2);
    assert SB.TargetsPresent(d1, FixedTranslations) by {
      assert ResetOrder[0].0 in d1.vals && ResetOrder[1].0 in d1.vals;
    }
    SB.RouteKeysFrame(d1, d1.keys, |d1.keys|, FixedTranslations);
    if x != "POWO" && x != "Wiki" {
      SB.ResetOther(d, ResetOrder, 2, x);
      SB.RouteKeysOther(d1, d1.keys, |d1.keys|, FixedTranslations, x);
    }
  }

  /**
   * Both 'Total' entries equal the number of rows left after
   * de-duplication when no source is called 'Total'.
   */
  lemma OldTotalIsRowCount(rows: seq<SB.HitRow>, checkDuplicates: bool)
    requires OldSummary(rows, checkDuplicates).Ok?
    requires forall i :: 0 <= i < |DistinctBy(rows, SB.AccId)| ==> "Total" !in DistinctBy(rows, SB.AccId)[i].sources
    ensures var r := OldSummary(rows, checkDuplicates).value; var n := |DistinctBy(rows, SB.AccId)|;
      "Total" in r.0.vals && Get(r.0, "Total") == n && "Total" in r.1.vals && Get(r.1, "Total") == n
  {
    var kept := DistinctBy(rows, SB.AccId);
    var srcs := SB.SourceLists(kept);
    assert forall i :: 0 <= i < |srcs| ==> "Total" !in srcs[i];
    SB.TallyValid(srcs, |srcs|);
    SB.TallyMeaning(srcs, |srcs|, "Total");
    SB.CountInAbsent(srcs, |srcs|, "Total");
    OriginalKeysRetained(rows, checkDuplicates, "Total");
  }
}
