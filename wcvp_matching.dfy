/**
 * Exact lookups in the checklist: by submitted name, falling back to the
 * accepted-name column when a name is ambiguous, and by identifier, which
 * accepts only a unique match.  Each hit is turned into the accepted
 * information of the record (the record itself when Accepted, its accepted
 * taxon otherwise; the species is the record at rank Species or its parent).
 */
module WcvpMatching {
  import opened Base
  import opened Strs
  import opened Taxa
  import NameCleaning

  /** The accepted information one checklist record yields. */
  function InfoFromRecord(r: ChecklistRecord): (info: AcceptedInfo)
    ensures r.status == "Accepted" ==> info.name == Some(r.taxonName) && info.id == Some(r.kewId)
    ensures r.status != "Accepted" ==> info.name == r.acceptedName && info.id == r.acceptedKewId
    ensures info.rank == Some(r.rank) && info != NanInfo
    ensures r.rank == "Species" ==> info.species == info.name && info.speciesId == info.id
    ensures r.rank != "Species" ==> info.species == r.parentName && info.speciesId == r.parentKewId
  {
    var name := if r.status == "Accepted" then Some(r.taxonName) else r.acceptedName;
    var id := if r.status == "Accepted" then Some(r.kewId) else r.acceptedKewId;
    if r.rank == "Species" then AcceptedInfo(name, id, Some(r.rank), name, id)
    else AcceptedInfo(name, id, Some(r.rank), r.parentName, r.parentKewId)
  }

  function HasKewId(id: string): ChecklistRecord -> bool { (r: ChecklistRecord) => r.kewId == id }
  function HasTaxonName(n: string): ChecklistRecord -> bool { (r: ChecklistRecord) => r.taxonName == n }
  function HasAcceptedName(n: string): ChecklistRecord -> bool { (r: ChecklistRecord) => r.acceptedName == Some(n) }

  /** The identifier id_lookup_wcvp searches for: `str()` of the value, URN prefix stripped. */
  function LookupKey(given: Cell): string
  {
    var g := PyStr(given);
    if Contains(g, NameCleaning.UrnPattern) then
      NameCleaning.CleanUrnIdsOfLiteral(g);
      NameCleaning.CleanUrnIds(Some(g)).value
    else g
  }

  /** id_lookup_wcvp */
  function IdLookup(c: Checklist, given: Cell): (info: AcceptedInfo)
    ensures info != NanInfo ==>
      exists i :: 0 <= i < |c| && c[i].kewId == LookupKey(given) && info == InfoFromRecord(c[i])
    ensures info != NanInfo ==>
      forall i :: 0 <= i < |c| && c[i].kewId == LookupKey(given) ==> info == InfoFromRecord(c[i])
  {
    var rs := Filter(c, HasKewId(LookupKey(given)));
    if |rs| == 1 then
      assert rs[0] in rs;
      InfoFromRecord(rs[0])
    else NanInfo
  }

  /** _name_lookup_wcvp */
  function NameLookup(c: Checklist, given: Cell): (info: AcceptedInfo)
    ensures info != NanInfo ==>
      exists i :: 0 <= i < |c| && info == InfoFromRecord(c[i])
        && (c[i].taxonName == PyStr(given) || c[i].acceptedName == Some(PyStr(given)))
  {
    var g := PyStr(given);
    var rs := Filter(c, HasTaxonName(g));
    if |rs| == 0 then NanInfo
    else if |rs| > 1 then
      var acc := Filter(c, HasAcceptedName(g));
      if |acc| == 1 then
        assert acc[0] in acc;
        InfoFromRecord(acc[0])
      else NanInfo
    else
      assert rs[0] in rs;
      InfoFromRecord(rs[0])
  }

  /** Record i is the only one satisfying p. */
  predicate OnlyAt(c: Checklist, p: ChecklistRecord -> bool, i: int)
  {
    0 <= i < |c| && p(c[i]) && forall j :: 0 <= j < |c| && j != i ==> !p(c[j])
  }

  predicate NoneMatch(c: Checklist, p: ChecklistRecord -> bool)
  {
    forall j :: 0 <= j < |c| ==> !p(c[j])
  }

  // ---- identifier lookup ----

  /** An identifier held by exactly one record resolves to that record's accepted information. */
  lemma IdLookupUnique(c: Checklist, given: Cell, i: nat)
    requires OnlyAt(c, HasKewId(LookupKey(given)), i)
    ensures IdLookup(c, given) == InfoFromRecord(c[i])
  {
    FilterUnique(c, HasKewId(LookupKey(given)), i);
  }

  /** A duplicated identifier is not an error: it gives the all-missing answer. */
  lemma IdLookupDuplicate(c: Checklist, given: Cell, i: nat, j: nat)
    requires i < j < |c| && c[i].kewId == LookupKey(given) && c[j].kewId == LookupKey(given)
    ensures IdLookup(c, given) == NanInfo
  {
    FilterTwo(c, HasKewId(LookupKey(given)), i, j);
  }

  /** An identifier nobody holds (an unknown one, "", " ", or a missing value read as "nan") gives all-missing. */
  lemma IdLookupUnknown(c: Checklist, given: Cell)
    requires NoneMatch(c, HasKewId(LookupKey(given)))
    ensures IdLookup(c, given) == NanInfo
  {
    FilterNone(c, HasKewId(LookupKey(given)));
  }

  /** The key is the identifier itself when it holds no URN prefix, and the stripped rest when it starts with one. */
  lemma LookupKeyPlainOrPrefixed(id: string)
    ensures !Contains(id, NameCleaning.UrnPattern) ==> LookupKey(Some(id)) == id
    ensures LookupKey(Some(NameCleaning.UrnPattern + id)) == id
  {
    var s := NameCleaning.UrnPattern + id;
    ContainsPrefix(s, NameCleaning.UrnPattern);
    NameCleaning.CleanUrnIdsOfPrefixed(id);
  }

  /** A unique synonym's identifier resolves to its accepted taxon, even when given as an IPNI URN. */
  lemma IdLookupSynonym(c: Checklist, i: nat)
    requires i < |c| && OnlyAt(c, HasKewId(c[i].kewId), i) && c[i].status != "Accepted"
    ensures IdLookup(c, Some(NameCleaning.UrnPattern + c[i].kewId)).name == c[i].acceptedName
    ensures IdLookup(c, Some(NameCleaning.UrnPattern + c[i].kewId)).id == c[i].acceptedKewId
  {
    LookupKeyPlainOrPrefixed(c[i].kewId);
    IdLookupUnique(c, Some(NameCleaning.UrnPattern + c[i].kewId), i);
  }

  // ---- name lookup ----

  lemma NameLookupUnique(c: Checklist, given: Cell, i: nat)
    requires OnlyAt(c, HasTaxonName(PyStr(given)), i)
    ensures NameLookup(c, given) == InfoFromRecord(c[i])
  {
    FilterUnique(c, HasTaxonName(PyStr(given)), i);
  }

  lemma NameLookupUnknown(c: Checklist, given: Cell)
    requires NoneMatch(c, HasTaxonName(PyStr(given)))
    ensures NameLookup(c, given) == NanInfo
  {
    FilterNone(c, HasTaxonName(PyStr(given)));
  }

  /**
   * A name spelled by several records falls back on the accepted-name
   * column: a single record naming it as its accepted name decides, and
   * otherwise, with none or with two or more such records, the answer is
   * all-missing.
   */
  lemma NameLookupAmbiguous(c: Checklist, given: Cell, i: nat, j: nat)
    requires i < j < |c| && c[i].taxonName == PyStr(given) && c[j].taxonName == PyStr(given)
    ensures forall k :: OnlyAt(c, HasAcceptedName(PyStr(given)), k) ==> NameLookup(c, given) == InfoFromRecord(c[k])
    ensures NoneMatch(c, HasAcceptedName(PyStr(given))) ==> NameLookup(c, given) == NanInfo
    ensures forall k, l :: 0 <= k < l < |c| && c[k].acceptedName == Some(PyStr(given)) && c[l].acceptedName == Some(PyStr(given)) ==>
                             NameLookup(c, given) == NanInfo
  {
    FilterTwo(c, HasTaxonName(PyStr(given)), i, j);
    forall k, l | 0 <= k < l < |c| && c[k].acceptedName == Some(PyStr(given)) && c[l].acceptedName == Some(PyStr(given))
      ensures NameLookup(c, given) == NanInfo
    {
      FilterTwo(c, HasAcceptedName(PyStr(given)), k, l);
    }
    forall k | OnlyAt(c, HasAcceptedName(PyStr(given)), k)
      ensures NameLookup(c, given) == InfoFromRecord(c[k])
    {
      FilterUnique(c, HasAcceptedName(PyStr(given)), k);
    }
    if NoneMatch(c, HasAcceptedName(PyStr(given))) {
      FilterNone(c, HasAcceptedName(PyStr(given)));
    }
  }

  /**
   * Names that are already canonical come back unchanged: an Accepted
   * record whose name no other record spells resolves to itself, and its
   * identifier resolves to the same information.
   */
  lemma AcceptedNameRoundTrip(c: Checklist, i: nat)
    requires i < |c| && c[i].status == "Accepted"
    requires OnlyAt(c, HasTaxonName(c[i].taxonName), i)
    requires OnlyAt(c, HasKewId(c[i].kewId), i) && !Contains(c[i].kewId, NameCleaning.UrnPattern)
    ensures NameLookup(c, Some(c[i].taxonName)).name == Some(c[i].taxonName)
    ensures NameLookup(c, Some(c[i].taxonName)).id == Some(c[i].kewId)
    ensures IdLookup(c, Some(c[i].kewId)) == NameLookup(c, Some(c[i].taxonName))
  {
    NameLookupUnique(c, Some(c[i].taxonName), i);
    LookupKeyPlainOrPrefixed(c[i].kewId);
    IdLookupUnique(c, Some(c[i].kewId), i);
  }

  /**
   * get_wcvp_info_for_names_in_column: one lookup per row, in row order;
   * the rows themselves are kept and the five accepted columns appended.
   */
  method InfoForNames<R>(c: Checklist, rows: seq<R>, nameOf: R -> Cell) returns (out: seq<(R, AcceptedInfo)>)
    ensures |out| == |rows|
    ensures forall i :: 0 <= i < |rows| ==> out[i].0 == rows[i] && out[i].1 == NameLookup(c, nameOf(rows[i]))
  {
    var infos: seq<AcceptedInfo> := [];
    var k := 0;
    while k < |rows|
      invariant 0 <= k <= |rows|
      invariant |infos| == k
      invariant forall i :: 0 <= i < k ==> infos[i] == NameLookup(c, nameOf(rows[i]))
    {
      infos := infos + [NameLookup(c, nameOf(rows[k]))];
      k := k + 1;
    }
    out := seq(|rows|, i requires 0 <= i < |rows| => (rows[i], infos[i]));
  }
}
