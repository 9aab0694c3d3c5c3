/**
 * The last resolution stage of get_accepted_info.py: a submission that no
 * earlier stage resolved is matched against the accepted taxa whose names
 * it contains, keeping the most precise rank (Subspecies, Variety,
 * Species, Genus) and never a genus for a submission of several words.
 */
module AutoResolve {
  import opened Base
  import opened Strs
  import opened Taxa
  import opened WcvpMatching
  import opened GetAcceptedInfo
  import NameCleaning

  /** One candidate: a submission and the accepted information of a taxon named inside it. */
  datatype Match = Match(submitted: string, info: AcceptedInfo)

  function IsAcceptedRecord(): ChecklistRecord -> bool { (r: ChecklistRecord) => r.status == "Accepted" }

  predicate NamedInSome(names: seq<string>, r: ChecklistRecord)
  {
    exists k :: 0 <= k < |names| && Contains(names[k], r.taxonName)
  }

  function InSomeSubmission(names: seq<string>): ChecklistRecord -> bool
  {
    (r: ChecklistRecord) => NamedInSome(names, r)
  }

  /** accepted_name_containment: the accepted taxa whose name occurs in some submission. */
  function Containment(c: Checklist, names: seq<string>): (cont: Checklist)
    ensures forall i :: 0 <= i < |cont| ==> cont[i].status == "Accepted" && NamedInSome(names, cont[i]) && cont[i] in c
    ensures forall i :: 0 <= i < |c| && c[i].status == "Accepted" && NamedInSome(names, c[i]) ==> c[i] in cont
  {
    var acc := Filter(c, IsAcceptedRecord());
    var cont := Filter(acc, InSomeSubmission(names));
    forall i | 0 <= i < |c| && c[i].status == "Accepted" && NamedInSome(names, c[i]) ensures c[i] in cont {
      assert c[i] in acc;
      var a :| 0 <= a < |acc| && acc[a] == c[i];
      assert InSomeSubmission(names)(acc[a]);
    }
    cont
  }

  function FirstNameFrom(cont: Checklist, name: string, p: nat, t: nat): (k: nat)
    requires p <= t < |cont| && cont[t].taxonName == name
    requires forall j :: 0 <= j < p ==> cont[j].taxonName != name
    ensures p <= k <= t && cont[k].taxonName == name
    ensures forall j :: 0 <= j < k ==> cont[j].taxonName != name
    decreases t - p
  {
    if cont[p].taxonName == name then p else FirstNameFrom(cont, name, p + 1, t)
  }

  /** The first row carrying the taxon name of row t (`.loc[...].iloc[0]`). */
  function FirstWithName(cont: Checklist, t: nat): (k: nat)
    requires t < |cont|
    ensures k <= t && cont[k].taxonName == cont[t].taxonName
    ensures forall j :: 0 <= j < k ==> cont[j].taxonName != cont[t].taxonName
  {
    FirstNameFrom(cont, cont[t].taxonName, 0, t)
  }

  /** The accepted information for taxon row t: the identifier lookup of the first row of that name. */
  function CandidateInfo(cont: Checklist, t: nat): AcceptedInfo
    requires t < |cont|
  {
    IdLookup(cont, Some(cont[FirstWithName(cont, t)].kewId))
  }

  /** The candidates of submission s among the first t taxon rows. */
  function MatchesFor(cont: Checklist, s: string, t: nat): seq<Match>
    requires t <= |cont|
  {
    if t == 0 then []
    else MatchesFor(cont, s, t - 1) + (if Contains(s, cont[t - 1].taxonName) then [Match(s, CandidateInfo(cont, t - 1))] else [])
  }

  /** The candidate table dict_for_matches: per submission, per contained taxon row. */
  function AllMatches(cont: Checklist, names: seq<string>): seq<Match>
  {
    if |names| == 0 then []
    else AllMatches(cont, names[..|names| - 1]) + MatchesFor(cont, names[|names| - 1], |cont|)
  }

  function AutoCandidates(c: Checklist, names: seq<string>): seq<Match>
  {
    AllMatches(Containment(c, names), names)
  }

  /** The nested loops filling dict_for_matches. */
  method BuildMatches(cont: Checklist, names: seq<string>) returns (ms: seq<Match>)
    ensures ms == AllMatches(cont, names)
  {
    ms := [];
    var i := 0;
    while i < |names|
      invariant 0 <= i <= |names|
      invariant ms == AllMatches(cont, names[..i])
    {
      var s := names[i];
      var row: seq<Match> := [];
      var t := 0;
      while t < |cont|
        invariant 0 <= t <= |cont|
        invariant row == MatchesFor(cont, s, t)
      {
        if Contains(s, cont[t].taxonName) {
          row := row + [Match(s, CandidateInfo(cont, t))];
        }
        t := t + 1;
      }
      assert names[..i + 1][..i] == names[..i];
      ms := ms + row;
      i := i + 1;
    }
    assert names[..i] == names;
  }

  // ---- the table constructor as written ----

  /**
   * The lengths of the seven lists of dict_for_matches once filled: the
   * submissions and the five accepted columns grow by one per candidate,
   * while taxonomic_status_of_submitted_name, which the identifier lookup
   * does not return, stays empty.
   */
  function ColumnLengthsAsWritten(ms: seq<Match>): seq<nat>
  {
    [|ms|, |ms|, |ms|, |ms|, |ms|, |ms|, 0]
  }

  /** `pd.DataFrame(dict_for_matches)`, which refuses lists of different lengths. */
  function MatchTableAsWritten(ms: seq<Match>): (r: Result<seq<Match>>)
    ensures r.Ok? <==> |ms| == 0
  {
    var ls := ColumnLengthsAsWritten(ms);
    if forall l :: l in ls ==> l == ls[0] then
      assert ls[6] in ls;
      Ok(ms)
    else
      assert ls[6] != ls[0];
      Err("All arrays must be of the same length")
  }

  /** A candidate exists as soon as an accepted taxon is named inside a submission. */
  lemma {:induction false} AllMatchesNonEmpty(cont: Checklist, names: seq<string>, t: nat, k: nat)
    requires t < |cont| && k < |names| && Contains(names[k], cont[t].taxonName)
    ensures |AllMatches(cont, names)| > 0
  {
    var n := |names| - 1;
    if k < n {
      AllMatchesNonEmpty(cont, names[..n], t, k);
    } else {
      MatchesForNonEmpty(cont, names[n], t, |cont|);
    }
  }

  lemma {:induction false} MatchesForNonEmpty(cont: Checklist, s: string, t: nat, u: nat)
    requires t < u <= |cont| && Contains(s, cont[t].taxonName)
    ensures |MatchesFor(cont, s, u)| > 0
  {
    if t < u - 1 {
      MatchesForNonEmpty(cont, s, t, u - 1);
    }
  }

  /**
   * As written, the autoresolver fails on every input it could resolve:
   * one accepted taxon named inside one submission already makes the
   * table constructor raise.
   */
  lemma AutoresolveAsWrittenRaises(c: Checklist, names: seq<string>, i: nat, k: nat)
    requires i < |c| && c[i].status == "Accepted" && k < |names| && Contains(names[k], c[i].taxonName)
    ensures MatchTableAsWritten(AutoCandidates(c, names)).Err?
  {
    var cont := Containment(c, names);
    assert NamedInSome(names, c[i]);
    var t :| 0 <= t < |cont| && cont[t] == c[i];
    AllMatchesNonEmpty(cont, names, t, k);
  }

  // ---- rank priority ----

  const RankPriority: seq<string> := ["Subspecies", "Variety", "Species", "Genus"]

  /** The position of a rank in the priority list, or None when `r not in rank_priority` (a missing rank included). */
  function RankIndex(r: Cell): (k: Option<nat>)
    ensures k.Some? ==> k.value < |RankPriority| && r == Some(RankPriority[k.value])
    ensures k.None? <==> forall j :: 0 <= j < |RankPriority| ==> r != Some(RankPriority[j])
  {
    match r
    case None => None
    case Some(v) =>
      if v == "Subspecies" then Some(0)
      else if v == "Variety" then Some(1)
      else if v == "Species" then Some(2)
      else if v == "Genus" then Some(3)
      else None
  }

  /** The sort key: lower is more precise; a rank outside the list sorts last. */
  function Precision(r: Cell): nat
  {
    match RankIndex(r)
    case Some(k) => k
    case None => |RankPriority|
  }

  predicate GenusForMultiWord(m: Match)
  {
    m.info.rank == Some("Genus") && Contains(m.submitted, " ")
  }

  function NotGenusForMultiWord(): Match -> bool { (m: Match) => !GenusForMultiWord(m) }

  /** The candidates left after removing genera matched to submissions of several words. */
  function Kept(ms: seq<Match>): seq<Match>
  {
    Filter(ms, NotGenusForMultiWord())
  }

  predicate HasKept(kept: seq<Match>, s: string)
  {
    exists j :: 0 <= j < |kept| && kept[j].submitted == s
  }

  /** m is a candidate of its submission whose rank no other candidate of it beats. */
  predicate MostPrecise(kept: seq<Match>, m: Match)
  {
    m in kept && forall j :: 0 <= j < |kept| && kept[j].submitted == m.submitted ==> Precision(m.info.rank) <= Precision(kept[j].info.rank)
  }

  /** The resolution r is the submission of a most precise candidate, with its information. */
  predicate ChosenFrom(kept: seq<Match>, r: Resolved)
  {
    r.name.Some? && exists q :: 0 <= q < |kept| && MostPrecise(kept, kept[q]) && kept[q].submitted == r.name.value && kept[q].info == r.info
  }

  lemma {:induction false} MostPreciseExists(kept: seq<Match>, s: string)
    requires HasKept(kept, s)
    ensures exists m :: MostPrecise(kept, m) && m.submitted == s
  {
    var n := |kept| - 1;
    var pre := kept[..n];
    assert kept == pre + [kept[n]];
    if HasKept(pre, s) {
      MostPreciseExists(pre, s);
      var m :| MostPrecise(pre, m) && m.submitted == s;
      if kept[n].submitted == s && Precision(kept[n].info.rank) < Precision(m.info.rank) {
        assert MostPrecise(kept, kept[n]);
      } else {
        assert MostPrecise(kept, m);
      }
    } else {
      assert MostPrecise(kept, kept[n]);
    }
  }

  /**
   * Sort by rank, keep the first candidate per submission, and merge it
   * back onto the submissions in their order.  The sort is not stable, so
   * among candidates of equal rank any one may be kept.
   */
  method ChooseMostPrecise(kept: seq<Match>, names: seq<string>) returns (out: seq<Resolved>)
    ensures |out| <= |names|
    ensures forall j :: 0 <= j < |out| ==> ChosenFrom(kept, out[j]) && out[j].name.value in names
    ensures forall i :: 0 <= i < |names| && HasKept(kept, names[i]) ==> exists j :: 0 <= j < |out| && out[j].name == Some(names[i])
    ensures forall j1, j2 :: 0 <= j1 < |out| && 0 <= j2 < |out| && out[j1].name == out[j2].name ==> out[j1].info == out[j2].info
  {
    var best := MostPreciseByName(kept, names);
    out := MergedOnNames(best, names);
  }

  /** The first loop: the most precise kept candidate for each submission that has one. */
  method MostPreciseByName(kept: seq<Match>, names: seq<string>) returns (best: map<string, AcceptedInfo>)
    ensures forall s :: s in best ==> ChosenFrom(kept, Resolved(Some(s), best[s]))
    ensures forall k :: 0 <= k < |names| && HasKept(kept, names[k]) ==> names[k] in best
  {
    best := map[];
    var i := 0;
    while i < |names|
      invariant 0 <= i <= |names|
      invariant forall s :: s in best ==> ChosenFrom(kept, Resolved(Some(s), best[s]))
      invariant forall k :: 0 <= k < i && HasKept(kept, names[k]) ==> names[k] in best
    {
      var s := names[i];
      if s !in best && HasKept(kept, s) {
        MostPreciseExists(kept, s);
        var m :| MostPrecise(kept, m) && m.submitted == s;
        var q :| 0 <= q < |kept| && kept[q] == m;
        best := best[s := m.info];
      }
      i := i + 1;
    }
  }

  /** The second loop: the chosen candidates merged back onto the submissions, in their order. */
  method MergedOnNames(best: map<string, AcceptedInfo>, names: seq<string>) returns (out: seq<Resolved>)
    ensures |out| <= |names|
    ensures forall j :: 0 <= j < |out| ==>
      out[j].name.Some? && out[j].name.value in best && out[j].info == best[out[j].name.value] && out[j].name.value in names
    ensures forall k :: 0 <= k < |names| && names[k] in best ==> exists j :: 0 <= j < |out| && out[j].name == Some(names[k])
  {
    out := [];
    var i := 0;
    while i < |names|
      invariant 0 <= i <= |names|
      invariant |out| <= i
      invariant forall j :: 0 <= j < |out| ==>
        out[j].name.Some? && out[j].name.value in best && out[j].info == best[out[j].name.value] && out[j].name.value in names
      invariant forall k :: 0 <= k < i && names[k] in best ==> exists j :: 0 <= j < |out| && out[j].name == Some(names[k])
    {
      if names[i] in best {
        ghost var prev := out;
        out := out + [Resolved(Some(names[i]), best[names[i]])];
        assert forall j :: 0 <= j < |prev| ==> out[j] == prev[j];
        assert out[|prev|].name == Some(names[i]);
      }
      i := i + 1;
    }
  }

  function NamedResolution(): Resolved -> bool { (r: Resolved) => r.info.name.Some? }

  /** Every candidate with a rank comes from an accepted record, so it has an accepted name. */
  lemma {:induction false} RankedCandidateNamed(cont: Checklist, s: string, t: nat, j: nat)
    requires t <= |cont| && forall i :: 0 <= i < |cont| ==> cont[i].status == "Accepted"
    requires j < |MatchesFor(cont, s, t)| && MatchesFor(cont, s, t)[j].info.rank.Some?
    ensures MatchesFor(cont, s, t)[j].info.name.Some? && MatchesFor(cont, s, t)[j].submitted == s
  {
    var pre := MatchesFor(cont, s, t - 1);
    if j < |pre| {
      RankedCandidateNamed(cont, s, t - 1, j);
    }
  }

  lemma {:induction false} RankedMatchNamed(cont: Checklist, names: seq<string>, j: nat)
    requires forall i :: 0 <= i < |cont| ==> cont[i].status == "Accepted"
    requires j < |AllMatches(cont, names)| && AllMatches(cont, names)[j].info.rank.Some?
    ensures AllMatches(cont, names)[j].info.name.Some?
  {
    var n := |names| - 1;
    var pre := AllMatches(cont, names[..n]);
    if j < |pre| {
      RankedMatchNamed(cont, names[..n], j);
    } else {
      RankedCandidateNamed(cont, names[n], |cont|, j - |pre|);
    }
  }

  /** The loop looking up each candidate's rank in the priority list. */
  method CheckRanks(ms: seq<Match>) returns (ok: bool)
    ensures ok <==> forall k :: 0 <= k < |ms| ==> RankIndex(ms[k].info.rank).Some?
  {
    var i := 0;
    while i < |ms|
      invariant 0 <= i <= |ms|
      invariant forall k :: 0 <= k < i ==> RankIndex(ms[k].info.rank).Some?
    {
      if RankIndex(ms[i].info.rank).None? {
        return false;
      }
      i := i + 1;
    }
    return true;
  }

  /**
   * _autoresolve_missing_matches, with the table built from equal-length
   * columns.  No submissions: nothing to do.  A candidate of a rank outside
   * the priority list (a missing one included) raises.  Otherwise each
   * submission with a candidate left after the genus rule is resolved to a
   * most precise one, the same for every repetition of the submission.
   */
  method AutoresolveMissingMatches(c: Checklist, names: seq<string>) returns (res: Result<seq<Resolved>>)
    ensures |names| == 0 ==> res == Ok([])
    ensures res.Err? <==> |names| > 0 && exists j :: 0 <= j < |AutoCandidates(c, names)| && RankIndex(AutoCandidates(c, names)[j].info.rank).None?
    ensures res.Ok? ==> |res.value| <= |names|
    ensures res.Ok? ==> forall j :: 0 <= j < |res.value| ==>
      ChosenFrom(Kept(AutoCandidates(c, names)), res.value[j]) && res.value[j].info.name.Some? && res.value[j].name.value in names
    ensures res.Ok? ==> forall i :: 0 <= i < |names| && HasKept(Kept(AutoCandidates(c, names)), names[i]) ==>
      exists j :: 0 <= j < |res.value| && res.value[j].name == Some(names[i])
    ensures res.Ok? ==> forall j1, j2 :: 0 <= j1 < |res.value| && 0 <= j2 < |res.value| && res.value[j1].name == res.value[j2].name ==>
      res.value[j1].info == res.value[j2].info
  {
    if |names| == 0 {
      return Ok([]);
    }
    var cont := Containment(c, names);
    var ms := BuildMatches(cont, names);
    assert ms == AutoCandidates(c, names);
    var ranked := CheckRanks(ms);
    if !ranked {
      return Err("Rank priority list does not contain the rank and needs updating.");
    }
    var kept := Kept(ms);
    var chosen := ChooseMostPrecise(kept, names);
    ChosenAreNamed(cont, names, chosen);
    FilterAll(chosen, NamedResolution());
    res := Ok(Filter(chosen, NamedResolution()));
  }

  /** Every chosen resolution carries an accepted name, since every ranked candidate does. */
  lemma ChosenAreNamed(cont: Checklist, names: seq<string>, chosen: seq<Resolved>)
    requires forall i :: 0 <= i < |cont| ==> cont[i].status == "Accepted"
    requires forall k :: 0 <= k < |AllMatches(cont, names)| ==> RankIndex(AllMatches(cont, names)[k].info.rank).Some?
    requires forall j :: 0 <= j < |chosen| ==> ChosenFrom(Kept(AllMatches(cont, names)), chosen[j])
    ensures forall j :: 0 <= j < |chosen| ==> chosen[j].info.name.Some?
  {
    var ms := AllMatches(cont, names);
    var kept := Kept(ms);
    forall j | 0 <= j < |chosen| ensures chosen[j].info.name.Some? {
      var k :| 0 <= k < |kept| && MostPrecise(kept, kept[k]) && kept[k].submitted == chosen[j].name.value && kept[k].info == chosen[j].info;
      var q :| 0 <= q < |ms| && ms[q] == kept[k];
      RankedMatchNamed(cont, names, q);
    }
  }

  lemma ChosenNeverGenusForMultiWord(ms: seq<Match>, r: Resolved)
    requires ChosenFrom(Kept(ms), r)
    ensures r.info.rank == Some("Genus") ==> !Contains(r.name.value, " ")
  {
    var k :| 0 <= k < |Kept(ms)| && MostPrecise(Kept(ms), Kept(ms)[k]) && Kept(ms)[k].submitted == r.name.value && Kept(ms)[k].info == r.info;
    assert NotGenusForMultiWord()(Kept(ms)[k]);
  }

  /** No other candidate of the submission has a more precise rank than the one chosen. */
  lemma ChosenIsMostPrecise(ms: seq<Match>, r: Resolved, j: nat)
    requires ChosenFrom(Kept(ms), r) && j < |ms| && ms[j].submitted == r.name.value && !GenusForMultiWord(ms[j])
    ensures Precision(r.info.rank) <= Precision(ms[j].info.rank)
  {
    var k :| 0 <= k < |Kept(ms)| && MostPrecise(Kept(ms), Kept(ms)[k]) && Kept(ms)[k].submitted == r.name.value && Kept(ms)[k].info == r.info;
    assert NotGenusForMultiWord()(ms[j]);
    var q :| 0 <= q < |Kept(ms)| && Kept(ms)[q] == ms[j];
  }

  // ---- accepted names are spelled inside their submissions ----

  predicate UrnFree(c: Checklist)
  {
    forall i :: 0 <= i < |c| ==> !Contains(c[i].kewId, NameCleaning.UrnPattern)
  }

  lemma {:induction false} CandidateNameContained(cont: Checklist, s: string, t: nat, j: nat)
    requires t <= |cont| && UrnFree(cont) && forall i :: 0 <= i < |cont| ==> cont[i].status == "Accepted"
    requires j < |MatchesFor(cont, s, t)| && MatchesFor(cont, s, t)[j].info.name.Some?
    ensures Contains(s, MatchesFor(cont, s, t)[j].info.name.value)
  {
    var pre := MatchesFor(cont, s, t - 1);
    if j < |pre| {
      CandidateNameContained(cont, s, t - 1, j);
    } else {
      var f := FirstWithName(cont, t - 1);
      LookupKeyPlainOrPrefixed(cont[f].kewId);
      assert CandidateInfo(cont, t - 1) == InfoFromRecord(cont[f]);
    }
  }

  lemma {:induction false} MatchNameContained(cont: Checklist, names: seq<string>, j: nat)
    requires UrnFree(cont) && forall i :: 0 <= i < |cont| ==> cont[i].status == "Accepted"
    requires j < |AllMatches(cont, names)| && AllMatches(cont, names)[j].info.name.Some?
    ensures Contains(AllMatches(cont, names)[j].submitted, AllMatches(cont, names)[j].info.name.value)
  {
    var n := |names| - 1;
    var pre := AllMatches(cont, names[..n]);
    if j < |pre| {
      MatchNameContained(cont, names[..n], j);
    } else {
      CandidateNameContained(cont, names[n], |cont|, j - |pre|);
      MatchesForSubmitted(cont, names[n], |cont|, j - |pre|);
    }
  }

  lemma {:induction false} MatchesForSubmitted(cont: Checklist, s: string, t: nat, j: nat)
    requires t <= |cont| && j < |MatchesFor(cont, s, t)|
    ensures MatchesFor(cont, s, t)[j].submitted == s
  {
    if j < |MatchesFor(cont, s, t - 1)| {
      MatchesForSubmitted(cont, s, t - 1, j);
    }
  }

  /**
   * When no checklist identifier carries the IPNI URN prefix, every
   * autoresolved accepted name is a substring of the submission it resolves.
   */
  lemma AutoresolvedNameContained(c: Checklist, names: seq<string>, r: Resolved)
    requires UrnFree(c) && ChosenFrom(Kept(AutoCandidates(c, names)), r) && r.info.name.Some?
    ensures Contains(r.name.value, r.info.name.value)
  {
    var cont := Containment(c, names);
    var ms := AutoCandidates(c, names);
    var kept := Kept(ms);
    var k :| 0 <= k < |kept| && MostPrecise(kept, kept[k]) && kept[k].submitted == r.name.value && kept[k].info == r.info;
    var q :| 0 <= q < |ms| && ms[q] == kept[k];
    forall i | 0 <= i < |cont| ensures !Contains(cont[i].kewId, NameCleaning.UrnPattern) {
      var a :| 0 <= a < |c| && c[a] == cont[i];
    }
    MatchNameContained(cont, names, q);
  }
}
