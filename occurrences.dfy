/**
 * Cleaning GBIF occurrences by the native and introduced regions of their
 * accepted taxa (clean_plant_occurrences/clean_by_tdwg_region.py).  The name
 * resolution, the point-in-region search over the TDWG shapefile and the
 * distribution lookup are left out: each occurrence arrives carrying their
 * results (its accepted names, its level-3 region and the region codes of
 * its taxon).
 */
module Occurrences {
  import opened Base
  import opened Strs

  /** An occurrence with the columns the cleaning reads. */
  datatype Occurrence = Occurrence(
    gbifId: string,
    acceptedName: Option<string>,
    acceptedSpecies: Option<string>,
    latitude: Cell,
    longitude: Cell,
    region: string,
    nativeCodes: Option<seq<string>>,
    introducedCodes: Option<seq<string>>)

  /** An occurrence with its 'within_native' and 'within_introduced' columns (None is NaN). */
  datatype Located = Located(occ: Occurrence, withinNative: Option<int>, withinIntroduced: Option<int>)

  /** The binary region test: missing without codes, else 1 inside them and 0 outside. */
  function Within(region: string, codes: Option<seq<string>>): (r: Option<int>)
    ensures r.None? <==> codes.None?
    ensures r == Some(1) <==> codes.Some? && region in codes.value
    ensures r == Some(0) <==> codes.Some? && region !in codes.value
  {
    match codes
    case None => None
    case Some(cs) => Some(if region in cs then 1 else 0)
  }

  /** `_find_whether_occurrences_in_native_or_introduced_regions` on the merged rows. */
  function Locate(occs: seq<Occurrence>): (r: seq<Located>)
    ensures |r| == |occs|
    ensures forall i :: 0 <= i < |occs| ==>
      (r[i].occ == occs[i]
        && r[i].withinNative == Within(occs[i].region, occs[i].nativeCodes)
        && r[i].withinIntroduced == Within(occs[i].region, occs[i].introducedCodes))
  {
    seq(|occs|, i requires 0 <= i < |occs| =>
      Located(occs[i], Within(occs[i].region, occs[i].nativeCodes), Within(occs[i].region, occs[i].introducedCodes)))
  }

  function HasAcceptedName(o: Occurrence): bool { o.acceptedName.Some? }

  function GbifKey(o: Occurrence): string { o.gbifId }

  function SpeciesPointKey(o: Occurrence): (Option<string>, Cell, Cell) { (o.acceptedSpecies, o.latitude, o.longitude) }

  function NamePointKey(o: Occurrence): (Option<string>, Cell, Cell) { (o.acceptedName, o.latitude, o.longitude) }

  /**
   * The rows left before the region test: named rows, first per gbifID when
   * asked, then first per species or per name and point when the rank
   * (case-insensitive) is 'species' or 'precise'; any other rank does nothing.
   */
  function Deduplicated(occs: seq<Occurrence>, removeDuplicateRecords: bool, rank: Option<string>): seq<Occurrence>
  {
    var named := Filter(occs, HasAcceptedName);
    var unique := if removeDuplicateRecords then DistinctBy(named, GbifKey) else named;
    if rank.Some? && Lower(rank.value) == "species" then DistinctBy(unique, SpeciesPointKey)
    else if rank.Some? && Lower(rank.value) == "precise" then DistinctBy(unique, NamePointKey)
    else unique
  }

  /** `within_native == 1 | within_native.isna()`. */
  function KeepNative(l: Located): bool
  {
    l.withinNative == Some(1) || l.withinNative.None?
  }

  /** `within_native == 1 | within_introduced == 1 | (both isna())`. */
  function KeepBoth(l: Located): bool
  {
    l.withinNative == Some(1) || l.withinIntroduced == Some(1) || (l.withinNative.None? && l.withinIntroduced.None?)
  }

  /** `clean_occurrences_by_tdwg_regions` up to writing the CSV. */
  function CleanOccurrences(occs: seq<Occurrence>, cleanBy: string, removeDuplicateRecords: bool, rank: Option<string>)
    : Result<seq<Located>>
  {
    var located := Locate(Deduplicated(occs, removeDuplicateRecords, rank));
    if cleanBy == "both" then Ok(Filter(located, KeepBoth))
    else if cleanBy == "native" then Ok(Filter(located, KeepNative))
    else Err("ValueError: clean_by must be one of 'native', 'both'")
  }

  /** The rows left come from the input and all have an accepted name. */
  lemma DeduplicatedRows(occs: seq<Occurrence>, removeDuplicateRecords: bool, rank: Option<string>)
    ensures forall i :: 0 <= i < |Deduplicated(occs, removeDuplicateRecords, rank)| ==>
      Deduplicated(occs, removeDuplicateRecords, rank)[i] in occs
      && Deduplicated(occs, removeDuplicateRecords, rank)[i].acceptedName.Some?
  {
  }

  /** With duplicate removal and no rank, the rows have distinct gbifIDs and every named gbifID survives. */
  lemma {:induction false} GbifIdsKept(occs: seq<Occurrence>, i: nat)
    requires i < |occs| && occs[i].acceptedName.Some?
    ensures var d := Deduplicated(occs, true, None);
      (forall a, b :: 0 <= a < b < |d| ==> d[a].gbifId != d[b].gbifId)
      && exists j :: 0 <= j < |d| && d[j].gbifId == occs[i].gbifId
  {
    var named := Filter(occs, HasAcceptedName);
    assert occs[i] in named;
    var k :| 0 <= k < |named| && named[k] == occs[i];
    DistinctByCovers(named, GbifKey, k);
  }

  /** With clean_by='native', a row is kept exactly when its taxon has no native codes or its region is one. */
  lemma NativeKeeps(occs: seq<Occurrence>, removeDuplicateRecords: bool, rank: Option<string>)
    ensures CleanOccurrences(occs, "native", removeDuplicateRecords, rank).Ok?
    ensures var located := Locate(Deduplicated(occs, removeDuplicateRecords, rank));
      forall l :: l in located ==>
        (l in CleanOccurrences(occs, "native", removeDuplicateRecords, rank).value <==>
          l.occ.nativeCodes.None? || l.occ.region in l.occ.nativeCodes.value)
  {
  }

  /**
   * With clean_by='both', a row is kept exactly when its region is native,
   * or introduced, or its taxon has neither kind of codes.
   */
  lemma BothKeeps(occs: seq<Occurrence>, removeDuplicateRecords: bool, rank: Option<string>)
    ensures CleanOccurrences(occs, "both", removeDuplicateRecords, rank).Ok?
    ensures var located := Locate(Deduplicated(occs, removeDuplicateRecords, rank));
      forall l :: l in located ==>
        (l in CleanOccurrences(occs, "both", removeDuplicateRecords, rank).value <==>
          (l.occ.nativeCodes.Some? && l.occ.region in l.occ.nativeCodes.value)
          || (l.occ.introducedCodes.Some? && l.occ.region in l.occ.introducedCodes.value)
          || (l.occ.nativeCodes.None? && l.occ.introducedCodes.None?))
  {
  }

  /** Any other clean_by value raises ValueError. */
  lemma OtherCleanByRaises(occs: seq<Occurrence>, cleanBy: string, removeDuplicateRecords: bool, rank: Option<string>)
    requires cleanBy != "both" && cleanBy != "native"
    ensures CleanOccurrences(occs, cleanBy, removeDuplicateRecords, rank) == Err("ValueError: clean_by must be one of 'native', 'both'")
  {
  }

  /** A row in a native region is kept under both settings. */
  lemma NativeRegionAlwaysKept(l: Located)
    requires l.withinNative == Within(l.occ.region, l.occ.nativeCodes)
    requires l.occ.nativeCodes.Some? && l.occ.region in l.occ.nativeCodes.value
    ensures KeepNative(l) && KeepBoth(l)
  {
  }

  /**
   * 'both' is not wider than 'native': a taxon without native codes whose
   * introduced codes miss the region is kept by 'native' and dropped by 'both'.
   */
  lemma BothCanDropWhatNativeKeeps()
    ensures var o := Occurrence("1", Some("Aa"), Some("Aa"), None, None, "BRA", None, Some(["ARG"]));
      var l := Located(o, Within(o.region, o.nativeCodes), Within(o.region, o.introducedCodes));
      KeepNative(l) && !KeepBoth(l)
  {
    var o := Occurrence("1", Some("Aa"), Some("Aa"), None, None, "BRA", None, Some(["ARG"]));
    assert o.region !in ["ARG"];
  }
}
