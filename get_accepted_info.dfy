/**
 * The per-name and per-record steps of accepted-name resolution: the
 * normalisation of submitted names, the identifier lookup over a column,
 * the choice among several remote-matcher candidates for one submission,
 * and the split of the remote matcher's records into single and multiple
 * matches.
 */
module GetAcceptedInfo {
  import opened Base
  import opened Strs
  import opened Taxa
  import NameCleaning
  import opened WcvpMatching
  import opened KnmsMatching
  import opened ResolvingNames

  /** The hybrid sign and a space, kept in front of a normalised hybrid name. */
  const HybridPrefix: string := "\U{D7} "

  function HybridPart(s: string): (p: string)
    ensures p == HybridPrefix || p == ""
  {
    if StartsWith(s, HybridPrefix) then HybridPrefix else ""
  }

  function WithoutHybrid(s: string): (r: string)
    ensures HybridPart(s) + r == s
  {
    if StartsWith(s, HybridPrefix) then s[2..] else s
  }

  /** t spells body up to case, with only its first letter possibly upper case. */
  predicate CapitalisedForm(t: string, body: string)
  {
    Lower(t) == Lower(body)
    && (|t| > 0 ==> !IsLowerChar(t[0]))
    && forall k :: 1 <= k < |t| ==> !IsUpperChar(t[k])
  }

  /**
   * _capitalize_first_letter_of_taxon.  A missing value, and with the upper-case test
   * on a name that is not all upper case, come back unchanged.  Otherwise
   * the hybrid prefix is set aside; a name with more than one space is
   * returned without the prefix, any other is returned with the prefix and
   * capitalised.
   */
  function CapitalizeFirstLetterOfTaxon(g: Cell, checkUpper: bool): (r: Cell)
    ensures g.None? ==> r == g
    ensures g.Some? && checkUpper && !IsUpper(g.value) ==> r == g
    ensures g.Some? && (!checkUpper || IsUpper(g.value)) && CountChar(WithoutHybrid(g.value), ' ') > 1 ==>
      r == Some(WithoutHybrid(g.value))
    ensures g.Some? && (!checkUpper || IsUpper(g.value)) && CountChar(WithoutHybrid(g.value), ' ') <= 1 ==>
      r.Some? && |r.value| == |g.value| && HybridPart(g.value) <= r.value
      && CapitalisedForm(r.value[|HybridPart(g.value)|..], WithoutHybrid(g.value))
  {
    match g
    case None => g
    case Some(s) =>
      if checkUpper && !IsUpper(s) then g
      else
        var body := WithoutHybrid(s);
        if CountChar(body, ' ') > 1 then Some(body)
        else
          var t := Capitalize(Lower(body));
          CapitalizeLowerIsCapitalised(body);
          assert (HybridPart(s) + t)[|HybridPart(s)|..] == t;
          Some(HybridPart(s) + t)
  }

  lemma LowerCharIdempotent(c: char)
    ensures LowerChar(LowerChar(c)) == LowerChar(c)
    ensures LowerChar(UpperChar(c)) == LowerChar(c)
    ensures !IsUpperChar(LowerChar(c)) && !IsLowerChar(UpperChar(c))
  {
  }

  lemma CapitalizeLowerIsCapitalised(body: string)
    ensures |Capitalize(Lower(body))| == |body|
    ensures CapitalisedForm(Capitalize(Lower(body)), body)
  {
    var t := Capitalize(Lower(body));
    if |body| > 0 {
      LowerCharIdempotent(body[0]);
      forall k | 0 <= k < |body| ensures Lower(t)[k] == Lower(body)[k] {
        LowerCharIdempotent(body[k]);
        if k > 0 {
          assert t[k] == Lower(Lower(body)[1..])[k - 1];
        }
      }
      forall k | 1 <= k < |t| ensures !IsUpperChar(t[k]) {
        LowerCharIdempotent(body[k]);
        assert t[k] == Lower(Lower(body)[1..])[k - 1];
      }
    }
  }

  // ---- identifier lookup over a column ----

  /**
   * get_accepted_info_from_ids_in_column: one identifier lookup per row, in
   * row order, appended to the row.  The length check that would raise
   * "Generating accepted info is mismatched" never fails.
   */
  method AcceptedInfoFromIdsInColumn<R>(c: Checklist, rows: seq<R>, idOf: R -> Cell)
    returns (res: Result<seq<(R, AcceptedInfo)>>)
    ensures res.Ok? && |res.value| == |rows|
    ensures forall i :: 0 <= i < |rows| ==> res.value[i] == (rows[i], IdLookup(c, idOf(rows[i])))
  {
    var infos: seq<AcceptedInfo> := [];
    var k := 0;
    while k < |rows|
      invariant 0 <= k <= |rows|
      invariant |infos| == k
      invariant forall i :: 0 <= i < k ==> infos[i] == IdLookup(c, idOf(rows[i]))
    {
      infos := infos + [IdLookup(c, idOf(rows[k]))];
      k := k + 1;
    }
    if |infos| != |rows| {
      return Err("Generating accepted info is mismatched");
    }
    res := Ok(seq(|rows|, i requires 0 <= i < |rows| => (rows[i], infos[i])));
  }

  // ---- several candidates for one submission ----

  /** The records with their IPNI URNs stripped (a plain identifier becomes missing). */
  function CleanedIds(recs: seq<KnmsRecord>): (r: seq<KnmsRecord>)
    ensures |r| == |recs|
    ensures forall i :: 0 <= i < |recs| ==> r[i].submitted == recs[i].submitted
  {
    seq(|recs|, i requires 0 <= i < |recs| => recs[i].(ipniId := NameCleaning.CleanUrnIds(recs[i].ipniId)))
  }

  /** Each record with the accepted information of its identifier. */
  function WithIdInfo(c: Checklist, recs: seq<KnmsRecord>): (w: seq<Candidate>)
    ensures |w| == |recs|
    ensures forall i :: 0 <= i < |recs| ==> w[i].rec == recs[i]
  {
    seq(|recs|, i requires 0 <= i < |recs| => Candidate(recs[i], IdLookup(c, recs[i].ipniId)))
  }

  function SubmittedKey(): Candidate -> Cell { (x: Candidate) => x.rec.submitted }
  function SubmittedAndId(): Candidate -> (Cell, Cell) { (x: Candidate) => (x.rec.submitted, x.info.id) }
  function NameIsSubmitted(): Candidate -> bool { (x: Candidate) => PyEq(x.rec.submitted, x.info.name) }

  /** No two rows of u carry the submission of x (`drop_duplicates(keep=False)` keeps x). */
  predicate OnlyRowOf(u: seq<Candidate>, x: Candidate)
  {
    forall j, k :: 0 <= j < k < |u| ==> !(u[j].rec.submitted == x.rec.submitted && u[k].rec.submitted == x.rec.submitted)
  }

  function SingleAccepted(u: seq<Candidate>): Candidate -> bool { (x: Candidate) => OnlyRowOf(u, x) }

  predicate SubmittedAmong(b: seq<Candidate>, x: Candidate)
  {
    exists j :: 0 <= j < |b| && b[j].rec.submitted == x.rec.submitted
  }

  function NotSubmittedAmong(b: seq<Candidate>): Candidate -> bool { (x: Candidate) => !SubmittedAmong(b, x) }

  function RankColumn(u: seq<Candidate>): seq<Cell>
  {
    seq(|u|, i requires 0 <= i < |u| => u[i].info.rank)
  }

  /** The intermediate tables of _find_best_matches_from_multiples. */
  datatype BestParts = BestParts(
    w: seq<Candidate>,          // records with accepted information
    exact: seq<Candidate>,      // accepted name equals the submission
    unique: seq<Candidate>,     // first row per (submission, accepted id)
    single: seq<Candidate>,     // submissions with one distinct accepted id
    unresolved: seq<Candidate>, // the other rows of unique
    ranks: seq<Cell>)           // distinct ranks of unresolved, in order

  /** The candidate rows: each record, URN stripped, with the accepted information of its identifier. */
  function Candidates(c: Checklist, recs: seq<KnmsRecord>): (w: seq<Candidate>)
    ensures |w| == |recs|
    ensures forall i :: 0 <= i < |recs| ==> w[i].rec.submitted == recs[i].submitted
  {
    WithIdInfo(c, CleanedIds(recs))
  }

  /** The intermediate tables, computed from the candidate rows w. */
  function PartsOf(w: seq<Candidate>): BestParts
  {
    var unique := DistinctBy(w, SubmittedAndId());
    var single := Filter(unique, SingleAccepted(unique));
    var unresolved := Filter(unique, NotSubmittedAmong(single));
    BestParts(w, Filter(w, NameIsSubmitted()), unique, single, unresolved, Dedup(RankColumn(unresolved)))
  }

  /** The single-rank resolutions of each rank, in order, when none of them raises. */
  function RankResolutions(unresolved: seq<Candidate>, ranks: seq<Cell>): (rs: seq<seq<Candidate>>)
    ensures |rs| == |ranks|
  {
    seq(|ranks|, i requires 0 <= i < |ranks| => SingleRankRows(unresolved, ranks[i]))
  }

  /** The single-rank resolution of some rank raises. */
  predicate RanksRaise(unresolved: seq<Candidate>, ranks: seq<Cell>)
  {
    exists k :: 0 <= k < |ranks| && ResolutionsWithSingleRank(unresolved, ranks[k]).Err?
  }

  /** The best-match choice among the candidate rows w raises the containment test's TypeError. */
  predicate BestRaises(w: seq<Candidate>)
  {
    RanksRaise(PartsOf(w).unresolved, PartsOf(w).ranks)
  }

  /**
   * The choice raises exactly when an unresolved row with a missing
   * submission has an accepted name and every unresolved row with a missing
   * submission shares its rank.
   */
  lemma BestRaisesMeaning(w: seq<Candidate>)
    ensures BestRaises(w) <==>
      exists i :: 0 <= i < |PartsOf(w).unresolved| && MissingNamedRankRow(PartsOf(w).unresolved, i)
  {
    var p := PartsOf(w);
    RanksRaiseMeaning(p.unresolved, p.ranks);
  }

  /** Row i has a missing submission and an accepted name, and every row with a missing submission shares its rank. */
  predicate MissingNamedRankRow(u: seq<Candidate>, i: nat)
    requires i < |u|
  {
    u[i].rec.submitted.None? && u[i].info.name.Some? && AllOfRank(u, None, u[i].info.rank)
  }

  lemma RanksRaiseMeaning(u: seq<Candidate>, ranks: seq<Cell>)
    requires ranks == Dedup(RankColumn(u))
    ensures RanksRaise(u, ranks) <==> exists i :: 0 <= i < |u| && MissingNamedRankRow(u, i)
  {
    if RanksRaise(u, ranks) {
      var k :| 0 <= k < |ranks| && ResolutionsWithSingleRank(u, ranks[k]).Err?;
      var i :| 0 <= i < |u| && u[i].rec.submitted.None? && u[i].info.name.Some?;
      assert MissingNamedRankRow(u, i);
    }
    if exists i :: 0 <= i < |u| && MissingNamedRankRow(u, i) {
      var i :| 0 <= i < |u| && MissingNamedRankRow(u, i);
      assert RankColumn(u)[i] == u[i].info.rank;
      var k :| 0 <= k < |ranks| && ranks[k] == u[i].info.rank;
      assert ResolutionsWithSingleRank(u, ranks[k]).Err?;
    }
  }

  /** The concatenation whose first row per submission is kept. */
  function Ordered(p: BestParts): seq<Candidate>
  {
    p.exact + p.single + Flatten(RankResolutions(p.unresolved, p.ranks))
  }

  /** The choice made among the candidate rows w, when it does not raise. */
  function SelectBest(w: seq<Candidate>): seq<Candidate>
  {
    DistinctBy(Ordered(PartsOf(w)), SubmittedKey())
  }

  /** The loop over the distinct ranks, collecting each rank's single-rank resolutions. */
  method CollectByRank(unresolved: seq<Candidate>, ranks: seq<Cell>) returns (byRank: Result<seq<seq<Candidate>>>)
    ensures byRank.Err? <==> RanksRaise(unresolved, ranks)
    ensures byRank.Err? ==> byRank.error == NotIterableError
    ensures byRank.Ok? ==> byRank.value == RankResolutions(unresolved, ranks)
  {
    var found: seq<seq<Candidate>> := [];
    var k := 0;
    while k < |ranks|
      invariant 0 <= k <= |ranks|
      invariant found == RankResolutions(unresolved, ranks)[..k]
      invariant forall q :: 0 <= q < k ==> ResolutionsWithSingleRank(unresolved, ranks[q]).Ok?
    {
      var r := ResolutionsWithSingleRank(unresolved, ranks[k]);
      if r.Err? {
        return Err(r.error);
      }
      found := found + [r.value];
      k := k + 1;
    }
    byRank := Ok(found);
  }

  /**
   * _find_best_matches_from_multiples: for each submission, a candidate
   * whose accepted name is the submission; else the candidate of a
   * submission whose candidates share one accepted id; else a candidate
   * found by the single-rank containment rule, one rank at a time.
   */
  method FindBestMatchesFromMultiples(c: Checklist, recs: seq<KnmsRecord>) returns (out: Result<seq<Candidate>>)
    ensures out.Err? <==> BestRaises(Candidates(c, recs))
    ensures out.Err? ==> out.error == NotIterableError
    ensures out.Ok? ==> out.value == SelectBest(Candidates(c, recs))
  {
    var p := PartsOf(Candidates(c, recs));
    var byRank := CollectByRank(p.unresolved, p.ranks);
    if byRank.Err? {
      return Err(byRank.error);
    }
    out := Ok(DistinctBy(p.exact + p.single + Flatten(byRank.value), SubmittedKey()));
  }

  /** Every row of the concatenation is one of the candidate rows. */
  lemma OrderedFromCandidates(w: seq<Candidate>, x: Candidate)
    requires x in Ordered(PartsOf(w))
    ensures x in w
  {
    var p := PartsOf(w);
    PartsInCandidates(w);
    if x !in p.exact && x !in p.single {
      RankTierMember(p.unresolved, p.ranks, x);
    }
  }

  /** The exact, single-id and unresolved rows are all candidate rows. */
  lemma PartsInCandidates(w: seq<Candidate>)
    ensures forall x :: x in PartsOf(w).exact ==> x in w
    ensures forall x :: x in PartsOf(w).single ==> x in w
    ensures forall x :: x in PartsOf(w).unresolved ==> x in w
  {
  }

  /** Every row of the single-rank tier is an unresolved row. */
  lemma RankTierMember(unresolved: seq<Candidate>, ranks: seq<Cell>, x: Candidate)
    requires x in Flatten(RankResolutions(unresolved, ranks))
    ensures x in unresolved
  {
    var rr := RankResolutions(unresolved, ranks);
    FlattenMemberInv(rr, x);
    var k :| 0 <= k < |rr| && x in rr[k];
    assert rr[k] == SingleRankRows(unresolved, ranks[k]);
  }

  /** At most one row per submission, and only for submissions among the candidates. */
  lemma SelectBestPerSubmission(w: seq<Candidate>)
    ensures forall i, j :: 0 <= i < j < |SelectBest(w)| ==> SelectBest(w)[i].rec.submitted != SelectBest(w)[j].rec.submitted
    ensures forall i :: 0 <= i < |SelectBest(w)| ==> SelectBest(w)[i] in w
  {
    forall i | 0 <= i < |SelectBest(w)| ensures SelectBest(w)[i] in w {
      OrderedFromCandidates(w, SelectBest(w)[i]);
    }
  }

  /** Some candidate of submission s has the submission itself as accepted name. */
  predicate ExactCandidate(w: seq<Candidate>, s: Cell)
  {
    exists j :: 0 <= j < |w| && w[j].rec.submitted == s && PyEq(s, w[j].info.name)
  }

  /** A candidate whose accepted name is its submission wins over every other rule. */
  lemma SelectBestExactFirst(w: seq<Candidate>, i: nat)
    requires i < |SelectBest(w)|
    requires ExactCandidate(w, SelectBest(w)[i].rec.submitted)
    ensures PyEq(SelectBest(w)[i].rec.submitted, SelectBest(w)[i].info.name)
  {
    var p := PartsOf(w);
    var o := Ordered(p);
    var sub := SelectBest(w)[i].rec.submitted;
    DistinctByFirst(o, SubmittedKey(), i);
    var m :| 0 <= m < |o| && o[m] == SelectBest(w)[i] && FirstOfKey(o, SubmittedKey(), m);
    var j :| 0 <= j < |w| && w[j].rec.submitted == sub && PyEq(sub, w[j].info.name);
    var a := ExactRowAt(w, j);
    FirstOfKeyInPrefix(p.exact, p.single, Flatten(RankResolutions(p.unresolved, p.ranks)), SubmittedKey(), m, a);
    ExactRowsNamed(w, m);
  }

  /** A candidate whose accepted name is its submission is an exact row. */
  lemma ExactRowAt(w: seq<Candidate>, j: nat) returns (a: nat)
    requires j < |w| && PyEq(w[j].rec.submitted, w[j].info.name)
    ensures a < |PartsOf(w).exact| && PartsOf(w).exact[a] == w[j]
  {
    var e := Filter(w, NameIsSubmitted());
    assert NameIsSubmitted()(w[j]);
    a :| 0 <= a < |e| && e[a] == w[j];
  }

  /** Every exact row has its submission as accepted name. */
  lemma ExactRowsNamed(w: seq<Candidate>, m: nat)
    requires m < |PartsOf(w).exact|
    ensures PyEq(PartsOf(w).exact[m].rec.submitted, PartsOf(w).exact[m].info.name)
  {
    assert NameIsSubmitted()(PartsOf(w).exact[m]);
  }

  /** Every submission that has a row in the concatenation gets a row. */
  lemma SelectBestCovers(w: seq<Candidate>, x: Candidate)
    requires x in Ordered(PartsOf(w))
    ensures exists i :: 0 <= i < |SelectBest(w)| && SelectBest(w)[i].rec.submitted == x.rec.submitted
  {
    var o := Ordered(PartsOf(w));
    var m :| 0 <= m < |o| && o[m] == x;
    DistinctByCovers(o, SubmittedKey(), m);
    var i :| 0 <= i < |DistinctBy(o, SubmittedKey())| && SubmittedKey()(DistinctBy(o, SubmittedKey())[i]) == SubmittedKey()(o[m]);
    assert SelectBest(w)[i].rec.submitted == x.rec.submitted;
  }

  /** A submission whose candidates all share one accepted id is resolved to that id. */
  lemma SelectBestSingleAccepted(w: seq<Candidate>, j: nat)
    requires j < |w|
    requires forall k :: 0 <= k < |w| && w[k].rec.submitted == w[j].rec.submitted ==> w[k].info.id == w[j].info.id
    ensures exists i :: 0 <= i < |SelectBest(w)| && SelectBest(w)[i].rec.submitted == w[j].rec.submitted
    ensures forall i :: 0 <= i < |SelectBest(w)| && SelectBest(w)[i].rec.submitted == w[j].rec.submitted ==>
      SelectBest(w)[i].info.id == w[j].info.id
  {
    var p := PartsOf(w);
    var u := SingleRowOf(w, j);
    assert u in Ordered(p);
    SelectBestCovers(w, u);
    SelectBestPerSubmission(w);
  }

  /** Such a submission keeps exactly one distinct-id row, which is therefore a single-id row. */
  lemma SingleRowOf(w: seq<Candidate>, j: nat) returns (u: Candidate)
    requires j < |w|
    requires forall k :: 0 <= k < |w| && w[k].rec.submitted == w[j].rec.submitted ==> w[k].info.id == w[j].info.id
    ensures u in PartsOf(w).single && u.rec.submitted == w[j].rec.submitted
  {
    var unique := DistinctBy(w, SubmittedAndId());
    var a := OnlyDistinctRow(w, j);
    u := unique[a];
    assert SingleAccepted(unique)(u);
    assert u in Filter(unique, SingleAccepted(unique));
  }

  /** The distinct-id rows of such a submission are one row. */
  lemma OnlyDistinctRow(w: seq<Candidate>, j: nat) returns (a: nat)
    requires j < |w|
    requires forall k :: 0 <= k < |w| && w[k].rec.submitted == w[j].rec.submitted ==> w[k].info.id == w[j].info.id
    ensures a < |DistinctBy(w, SubmittedAndId())| && DistinctBy(w, SubmittedAndId())[a].rec.submitted == w[j].rec.submitted
    ensures forall b :: 0 <= b < |DistinctBy(w, SubmittedAndId())| && DistinctBy(w, SubmittedAndId())[b].rec.submitted == w[j].rec.submitted ==> b == a
  {
    var unique := DistinctBy(w, SubmittedAndId());
    DistinctByCovers(w, SubmittedAndId(), j);
    a :| 0 <= a < |unique| && SubmittedAndId()(unique[a]) == SubmittedAndId()(w[j]);
    forall b | 0 <= b < |unique| && unique[b].rec.submitted == w[j].rec.submitted
      ensures b == a
    {
      var k :| 0 <= k < |w| && w[k] == unique[b];
      assert SubmittedAndId()(unique[b]) == SubmittedAndId()(unique[a]);
    }
  }

  /** Two candidates of one submission with different accepted ids leave no single-id row for it. */
  lemma NoSingleForSplitSubmission(w: seq<Candidate>, j1: nat, j2: nat)
    requires j1 < |w| && j2 < |w| && w[j1].rec.submitted == w[j2].rec.submitted && w[j1].info.id != w[j2].info.id
    ensures forall y :: y in PartsOf(w).single ==> y.rec.submitted != w[j1].rec.submitted
  {
    var p := PartsOf(w);
    DistinctByCovers(w, SubmittedAndId(), j1);
    DistinctByCovers(w, SubmittedAndId(), j2);
    var a1 :| 0 <= a1 < |p.unique| && SubmittedAndId()(p.unique[a1]) == SubmittedAndId()(w[j1]);
    var a2 :| 0 <= a2 < |p.unique| && SubmittedAndId()(p.unique[a2]) == SubmittedAndId()(w[j2]);
    assert a1 != a2;
    forall y | y in p.single ensures y.rec.submitted != w[j1].rec.submitted {
      if y.rec.submitted == w[j1].rec.submitted {
        assert false;
      }
    }
  }

  /** A row of a single-rank submission has that rank. */
  lemma AllOfRankMember(rows: seq<Candidate>, s: Cell, rank: Cell, u: Candidate)
    requires AllOfRank(rows, s, rank) && u in rows && u.rec.submitted == s
    ensures PyEq(u.info.rank, rank)
  {
    var q :| 0 <= q < |rows| && rows[q] == u;
  }

  /** Every distinct-id row of such a submission stays among the unresolved rows. */
  lemma SplitRowUnresolved(w: seq<Candidate>, j1: nat, j2: nat, k: nat)
    requires j1 < |w| && j2 < |w| && w[j1].rec.submitted == w[j2].rec.submitted && w[j1].info.id != w[j2].info.id
    requires k < |PartsOf(w).unique| && PartsOf(w).unique[k].rec.submitted == w[j1].rec.submitted
    ensures PartsOf(w).unique[k] in PartsOf(w).unresolved
  {
    var p := PartsOf(w);
    NoSingleForSplitSubmission(w, j1, j2);
    if SubmittedAmong(p.single, p.unique[k]) {
      assert false;
    }
    assert NotSubmittedAmong(p.single)(p.unique[k]);
  }

  /** A row of a submission with no exact candidate and two accepted ids comes from the single-rank tier. */
  lemma SelectBestInRankTier(w: seq<Candidate>, i: nat, j1: nat, j2: nat)
    requires i < |SelectBest(w)| && !ExactCandidate(w, SelectBest(w)[i].rec.submitted)
    requires j1 < |w| && j2 < |w| && w[j1].info.id != w[j2].info.id
    requires w[j1].rec.submitted == SelectBest(w)[i].rec.submitted && w[j2].rec.submitted == SelectBest(w)[i].rec.submitted
    ensures SelectBest(w)[i] in Flatten(RankResolutions(PartsOf(w).unresolved, PartsOf(w).ranks))
  {
    var p := PartsOf(w);
    var x := SelectBest(w)[i];
    assert x in Ordered(p);
    NoSingleForSplitSubmission(w, j1, j2);
    if x in p.exact {
      assert false;
    }
    if x in p.single {
      assert false;
    }
  }

  /**
   * A submission with no exact candidate and at least two accepted ids is
   * resolved only by the single-rank rule: the chosen accepted name is
   * spelled inside the submission, and all its distinct-id candidates share
   * the chosen candidate's rank.
   */
  lemma SelectBestByRank(w: seq<Candidate>, i: nat, j1: nat, j2: nat)
    requires i < |SelectBest(w)| && !ExactCandidate(w, SelectBest(w)[i].rec.submitted)
    requires j1 < |w| && j2 < |w| && w[j1].info.id != w[j2].info.id
    requires w[j1].rec.submitted == SelectBest(w)[i].rec.submitted && w[j2].rec.submitted == SelectBest(w)[i].rec.submitted
    ensures NameInSubmitted(SelectBest(w)[i])
    ensures forall k :: (0 <= k < |DistinctBy(w, SubmittedAndId())|
      && DistinctBy(w, SubmittedAndId())[k].rec.submitted == SelectBest(w)[i].rec.submitted) ==>
        PyEq(DistinctBy(w, SubmittedAndId())[k].info.rank, SelectBest(w)[i].info.rank)
  {
    var p := PartsOf(w);
    var x := SelectBest(w)[i];
    var sub := x.rec.submitted;
    var rr := RankResolutions(p.unresolved, p.ranks);
    SelectBestInRankTier(w, i, j1, j2);
    FlattenMemberInv(rr, x);
    var k :| 0 <= k < |rr| && x in rr[k];
    var r := p.ranks[k];
    assert rr[k] == SingleRankRows(p.unresolved, r);
    assert PyEq(x.info.rank, r) && AllOfRank(p.unresolved, sub, r);
    forall k' | 0 <= k' < |p.unique| && p.unique[k'].rec.submitted == sub
      ensures PyEq(p.unique[k'].info.rank, x.info.rank)
    {
      SplitRowUnresolved(w, j1, j2, k');
      AllOfRankMember(p.unresolved, sub, r, p.unique[k']);
    }
  }

  // ---- the remote-matcher stage ----

  /** One resolved submission: the name it was submitted under and its accepted information. */
  datatype Resolved = Resolved(name: Cell, info: AcceptedInfo)

  function StateIs(state: string): KnmsRecord -> bool { (r: KnmsRecord) => r.matchState == Some(state) }

  function IpniOf(): KnmsRecord -> Cell { (r: KnmsRecord) => r.ipniId }

  /** The records matched once, each with the accepted information of its identifier as given. */
  function SingleCandidates(c: Checklist, recs: seq<KnmsRecord>): (w: seq<Candidate>)
    ensures |w| == |Filter(recs, StateIs("true"))|
  {
    var singles := Filter(recs, StateIs("true"));
    seq(|singles|, i requires 0 <= i < |singles| => Candidate(singles[i], IdLookup(c, singles[i].ipniId)))
  }

  function NamedCandidate(): Candidate -> bool { (x: Candidate) => x.info.name.Some? }

  /** Candidate rows with an accepted name, as resolutions of their submissions. */
  function AsResolved(w: seq<Candidate>): (out: seq<Resolved>)
    ensures |out| == |Filter(w, NamedCandidate())|
  {
    var named := Filter(w, NamedCandidate());
    seq(|named|, i requires 0 <= i < |named| => Resolved(named[i].rec.submitted, named[i].info))
  }

  /**
   * What the remote-matcher stage resolves, given the filled reply records:
   * single matches are looked up in the checklist of the families of
   * interest, c, while the best-match choice looks multiple matches up in
   * the whole checklist, full, since it is called without the families.
   */
  function KnmsResolutions(c: Checklist, full: Checklist, recs: seq<KnmsRecord>): seq<Resolved>
  {
    AsResolved(SingleCandidates(c, recs) + SelectBest(Candidates(full, Filter(recs, StateIs("multiple_matches")))))
  }

  /**
   * _get_knms_matches_and_accepted_info_from_names_in_column, with the
   * matcher's reply as input: records matched once are looked up by
   * identifier, records matched several times go through the best-match
   * choice, and the rows that end with an accepted name are the result.
   * The checklist c is that of the families of interest, full the whole
   * one.
   */
  method KnmsMatches(c: Checklist, full: Checklist, reply: seq<seq<string>>) returns (res: Result<seq<Resolved>>)
    ensures res.Err? <==> (exists i :: 0 <= i < |reply| && |reply[i]| > 4) || MultiplesRaise(full, reply)
    ensures MultiplesRaise(full, reply) ==> res == Err(NotIterableError)
    ensures res.Ok? ==> res.value == KnmsResolutions(c, full, ReplyRecords(reply))
  {
    var recs := RecordsFromReply(reply);
    if recs.Err? {
      return Err(recs.error);
    }
    var singleRows := SingleMatches(c, recs.value);
    var best := FindBestMatchesFromMultiples(full, Filter(recs.value, StateIs("multiple_matches")));
    if best.Err? {
      return Err(best.error);
    }
    var named := NamedRows(singleRows + best.value);
    res := Ok(named);
  }

  /** The reply is well formed and the best-match choice for its multiple matches raises. */
  predicate MultiplesRaise(full: Checklist, reply: seq<seq<string>>)
  {
    (forall i :: 0 <= i < |reply| ==> |reply[i]| <= 4)
    && BestRaises(Candidates(full, Filter(ReplyRecords(reply), StateIs("multiple_matches"))))
  }

  /** The records matched once, joined with the accepted information of their identifiers. */
  method SingleMatches(c: Checklist, rs: seq<KnmsRecord>) returns (w: seq<Candidate>)
    ensures w == SingleCandidates(c, rs)
  {
    var singles := Filter(rs, StateIs("true"));
    var withInfo := AcceptedInfoFromIdsInColumn(c, singles, IpniOf());
    w := seq(|singles|, i requires 0 <= i < |singles| => Candidate(withInfo.value[i].0, withInfo.value[i].1));
  }

  /** The rows with an accepted name, as resolutions of their submissions. */
  method NamedRows(all: seq<Candidate>) returns (out: seq<Resolved>)
    ensures out == AsResolved(all)
  {
    var named := Filter(all, NamedCandidate());
    out := seq(|named|, i requires 0 <= i < |named| => Resolved(named[i].rec.submitted, named[i].info));
  }

  /**
   * Every resolution has an accepted name and comes from a record matched
   * once, with the information of its identifier in the families'
   * checklist, or from one matched several times, with the information of
   * its stripped identifier in the whole checklist.
   */
  lemma KnmsResolutionsFromRecords(c: Checklist, full: Checklist, recs: seq<KnmsRecord>, i: nat)
    requires i < |KnmsResolutions(c, full, recs)|
    ensures KnmsResolutions(c, full, recs)[i].info.name.Some?
    ensures exists j :: 0 <= j < |recs| && recs[j].submitted == KnmsResolutions(c, full, recs)[i].name
                     && ((recs[j].matchState == Some("true") && KnmsResolutions(c, full, recs)[i].info == IdLookup(c, recs[j].ipniId))
                         || (recs[j].matchState == Some("multiple_matches")
                             && KnmsResolutions(c, full, recs)[i].info == IdLookup(full, NameCleaning.CleanUrnIds(recs[j].ipniId))))
  {
    var singles := SingleCandidates(c, recs);
    var multiples := Filter(recs, StateIs("multiple_matches"));
    var w := Candidates(full, multiples);
    var all := singles + SelectBest(w);
    var named := Filter(all, NamedCandidate());
    var x := named[i];
    assert KnmsResolutions(c, full, recs)[i] == Resolved(x.rec.submitted, x.info);
    assert x in all;
    if x in singles {
      var k :| 0 <= k < |singles| && singles[k] == x;
      var r := Filter(recs, StateIs("true"))[k];
      var j :| 0 <= j < |recs| && recs[j] == r;
    } else {
      assert x in SelectBest(w);
      SelectBestPerSubmission(w);
      var k :| 0 <= k < |w| && w[k] == x;
      var r := multiples[k];
      assert w[k] == Candidate(CleanedIds(multiples)[k], IdLookup(full, CleanedIds(multiples)[k].ipniId));
      var j :| 0 <= j < |recs| && recs[j] == r;
    }
  }

  /** A record matched once whose identifier resolves to an accepted name is resolved. */
  lemma KnmsSingleMatchResolved(c: Checklist, full: Checklist, recs: seq<KnmsRecord>, j: nat)
    requires j < |recs| && recs[j].matchState == Some("true") && IdLookup(c, recs[j].ipniId).name.Some?
    ensures Resolved(recs[j].submitted, IdLookup(c, recs[j].ipniId)) in KnmsResolutions(c, full, recs)
  {
    var w := SingleCandidates(c, recs);
    var k := SingleCandidateAt(c, recs, j);
    var all := w + SelectBest(Candidates(full, Filter(recs, StateIs("multiple_matches"))));
    assert all[k] == w[k];
    AsResolvedMember(all, k);
  }

  /** A record matched once has its candidate among the single candidates. */
  lemma SingleCandidateAt(c: Checklist, recs: seq<KnmsRecord>, j: nat) returns (k: nat)
    requires j < |recs| && recs[j].matchState == Some("true")
    ensures k < |SingleCandidates(c, recs)|
    ensures SingleCandidates(c, recs)[k] == Candidate(recs[j], IdLookup(c, recs[j].ipniId))
  {
    var singles := Filter(recs, StateIs("true"));
    assert StateIs("true")(recs[j]);
    k :| 0 <= k < |singles| && singles[k] == recs[j];
  }

  /** A candidate row with an accepted name is among the resolutions. */
  lemma AsResolvedMember(w: seq<Candidate>, k: nat)
    requires k < |w| && w[k].info.name.Some?
    ensures Resolved(w[k].rec.submitted, w[k].info) in AsResolved(w)
  {
    var named := Filter(w, NamedCandidate());
    assert NamedCandidate()(w[k]);
    var q :| 0 <= q < |named| && named[q] == w[k];
    assert AsResolved(w)[q] == Resolved(w[k].rec.submitted, w[k].info);
  }
}
