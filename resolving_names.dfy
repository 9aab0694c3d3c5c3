/**
 * Resolution of names the exact lookup or the remote matcher left open:
 * re-running the exact lookup on a list of unmatched names, and choosing,
 * among several candidate records of one submission, those whose accepted
 * name is spelled inside the submission when all candidates share a rank.
 */
module ResolvingNames {
  import opened Base
  import opened Strs
  import opened Taxa
  import opened WcvpMatching
  import opened KnmsMatching

  /** A remote-matcher record together with the accepted information found for its identifier. */
  datatype Candidate = Candidate(rec: KnmsRecord, info: AcceptedInfo)

  /** Some row of the submission s has the given rank (pandas `==`, so a missing rank never matches). */
  predicate HasRankRow(rows: seq<Candidate>, s: Cell, rank: Cell)
  {
    exists i :: 0 <= i < |rows| && rows[i].rec.submitted == s && PyEq(rows[i].info.rank, rank)
  }

  /** Some row of the submission s has another, or a missing, rank. */
  predicate HasOtherRankRow(rows: seq<Candidate>, s: Cell, rank: Cell)
  {
    exists i :: 0 <= i < |rows| && rows[i].rec.submitted == s && !PyEq(rows[i].info.rank, rank)
  }

  /** The accepted name is present and spelled inside the submitted name. */
  predicate NameInSubmitted(x: Candidate)
  {
    x.info.name.Some? && x.rec.submitted.Some? && Contains(x.rec.submitted.value, x.info.name.value)
  }

  /** Every row of the submission s has the given rank. */
  predicate AllOfRank(rows: seq<Candidate>, s: Cell, rank: Cell)
  {
    forall j :: 0 <= j < |rows| && rows[j].rec.submitted == s ==> PyEq(rows[j].info.rank, rank)
  }

  /** What `x['Accepted_Name'] in x['submitted']` raises on a row whose submission is missing (a float NaN). */
  const NotIterableError: string := "TypeError: argument of type " + "'float' is not iterable"

  /** A row that reaches the containment test: its submission has only rows of the rank, and it has an accepted name. */
  predicate ReachesTest(rows: seq<Candidate>, rank: Cell, x: Candidate)
  {
    HasRankRow(rows, x.rec.submitted, rank) && !HasOtherRankRow(rows, x.rec.submitted, rank) && x.info.name.Some?
  }

  /** Some row reaching the containment test has a missing submission, so the test raises. */
  predicate SingleRankRaises(rows: seq<Candidate>, rank: Cell)
  {
    exists i :: 0 <= i < |rows| && ReachesTest(rows, rank, rows[i]) && rows[i].rec.submitted.None?
  }

  function KeepSingleRank(rows: seq<Candidate>, rank: Cell): Candidate -> bool
  {
    (x: Candidate) => ReachesTest(rows, rank, x) && NameInSubmitted(x)
  }

  /** The rows _get_resolutions_with_single_rank returns when the containment test raises on none of them. */
  function SingleRankRows(rows: seq<Candidate>, rank: Cell): (out: seq<Candidate>)
    ensures |out| <= |rows|
    ensures forall i :: 0 <= i < |out| ==>
      out[i] in rows && NameInSubmitted(out[i]) && PyEq(out[i].info.rank, rank)
      && AllOfRank(rows, out[i].rec.submitted, rank)
    ensures forall i :: 0 <= i < |rows| ==>
      (NameInSubmitted(rows[i]) && PyEq(rows[i].info.rank, rank) && AllOfRank(rows, rows[i].rec.submitted, rank)
       ==> rows[i] in out)
  {
    var out := Filter(rows, KeepSingleRank(rows, rank));
    assert forall i :: 0 <= i < |out| ==> KeepSingleRank(rows, rank)(out[i]);
    out
  }

  /**
   * _get_resolutions_with_single_rank: the rows of submissions all of whose
   * rows have the given rank, restricted to rows whose accepted name occurs
   * in the submission.  The containment test raises TypeError when a row
   * with an accepted name but a missing submission reaches it, which
   * happens exactly when the rows of the missing submission all have the
   * rank (`isin` matches NaN with NaN) and one of them is named.
   */
  function ResolutionsWithSingleRank(rows: seq<Candidate>, rank: Cell): (r: Result<seq<Candidate>>)
    ensures r.Err? <==>
      AllOfRank(rows, None, rank) && exists i :: 0 <= i < |rows| && rows[i].rec.submitted.None? && rows[i].info.name.Some?
    ensures r.Err? ==> r.error == NotIterableError
    ensures r.Ok? ==> |r.value| <= |rows|
    ensures r.Ok? ==> forall i :: 0 <= i < |r.value| ==>
      r.value[i] in rows && NameInSubmitted(r.value[i]) && PyEq(r.value[i].info.rank, rank)
      && AllOfRank(rows, r.value[i].rec.submitted, rank)
    ensures r.Ok? ==> forall i :: 0 <= i < |rows| ==>
      (NameInSubmitted(rows[i]) && PyEq(rows[i].info.rank, rank) && AllOfRank(rows, rows[i].rec.submitted, rank)
       ==> rows[i] in r.value)
  {
    SingleRankRaisesMeaning(rows, rank);
    if SingleRankRaises(rows, rank) then Err(NotIterableError) else Ok(SingleRankRows(rows, rank))
  }

  /** The test raises exactly when the missing submission's rows all have the rank and one of them is named. */
  lemma SingleRankRaisesMeaning(rows: seq<Candidate>, rank: Cell)
    ensures SingleRankRaises(rows, rank) <==>
      AllOfRank(rows, None, rank) && exists i :: 0 <= i < |rows| && rows[i].rec.submitted.None? && rows[i].info.name.Some?
  {
    if AllOfRank(rows, None, rank) && exists i :: 0 <= i < |rows| && rows[i].rec.submitted.None? && rows[i].info.name.Some? {
      var i :| 0 <= i < |rows| && rows[i].rec.submitted.None? && rows[i].info.name.Some?;
      assert ReachesTest(rows, rank, rows[i]);
    }
  }

  /** A rank of NaN (as `unique()` may return) matches nothing, so nothing is resolved and nothing raises. */
  lemma SingleRankOfMissing(rows: seq<Candidate>)
    ensures ResolutionsWithSingleRank(rows, None) == Ok([])
  {
    FilterNone(rows, KeepSingleRank(rows, None));
  }

  /**
   * One row with a different or missing rank excludes every row of its
   * submission; when that submission is the missing one, the containment
   * test cannot raise.
   */
  lemma SingleRankExcludes(rows: seq<Candidate>, rank: Cell, j: nat)
    requires j < |rows| && !PyEq(rows[j].info.rank, rank)
    ensures rows[j].rec.submitted.None? ==> ResolutionsWithSingleRank(rows, rank).Ok?
    ensures ResolutionsWithSingleRank(rows, rank).Ok? ==>
      forall i :: 0 <= i < |ResolutionsWithSingleRank(rows, rank).value| ==>
        ResolutionsWithSingleRank(rows, rank).value[i].rec.submitted != rows[j].rec.submitted
  {
  }

  /** A single named record with a missing submission makes the containment test raise. */
  lemma MissingSubmissionRaises()
    ensures ResolutionsWithSingleRank(
      [Candidate(KnmsRecord(None, Some("multiple_matches"), None, None),
                 AcceptedInfo(Some("Aa"), Some("1"), Some("Species"), Some("Aa"), Some("1")))],
      Some("Species")) == Err(NotIterableError)
  {
  }

  function HasAcceptedName<R>(): ((R, AcceptedInfo)) -> bool
  {
    (m: (R, AcceptedInfo)) => m.1.name.Some?
  }

  /** `dropna(subset=['Accepted_Name'])` on the looked-up rows. */
  method DropMissingNames<R>(matches: seq<(R, AcceptedInfo)>) returns (kept: seq<(R, AcceptedInfo)>)
    ensures kept == Filter(matches, HasAcceptedName())
  {
    kept := [];
    var k := 0;
    while k < |matches|
      invariant 0 <= k <= |matches|
      invariant kept == Filter(matches[..k], HasAcceptedName())
    {
      assert matches[..k + 1] == matches[..k] + [matches[k]];
      FilterAppend(matches[..k], [matches[k]], HasAcceptedName());
      if matches[k].1.name.Some? {
        kept := kept + [matches[k]];
      }
      k := k + 1;
    }
    assert matches[..k] == matches;
  }

  /** The tail of resolve_unmatched: keep the rows only when none lost its accepted name, renamed. */
  method RenameWhenAllNamed<R>(matches: seq<(R, AcceptedInfo)>, setName: (R, Cell) -> R)
    returns (res: Option<seq<(R, AcceptedInfo)>>)
    ensures res.Some? <==> forall i :: 0 <= i < |matches| ==> matches[i].1.name.Some?
    ensures res.Some? ==> |res.value| == |matches| && forall i :: 0 <= i < |matches| ==>
      res.value[i] == (setName(matches[i].0, matches[i].1.name), matches[i].1)
  {
    var kept := DropMissingNames(matches);
    FilterAll(matches, HasAcceptedName());
    if |kept| == |matches| {
      var renamed: seq<(R, AcceptedInfo)> := [];
      var k := 0;
      while k < |kept|
        invariant 0 <= k <= |kept|
        invariant |renamed| == k
        invariant forall i :: 0 <= i < k ==> renamed[i] == (setName(kept[i].0, kept[i].1.name), kept[i].1)
      {
        renamed := renamed + [(setName(kept[k].0, kept[k].1.name), kept[k].1)];
        k := k + 1;
      }
      res := Some(renamed);
    } else {
      res := None;
    }
  }

  /**
   * resolve_unmatched: look every name up exactly; when each one has an
   * accepted name, return the rows with the name column overwritten by it,
   * and otherwise nothing (the manual fallback only prints).
   */
  method ResolveUnmatched<R>(c: Checklist, rows: seq<R>, nameOf: R -> Cell, setName: (R, Cell) -> R)
    returns (res: Option<seq<(R, AcceptedInfo)>>)
    ensures res.Some? <==> forall i :: 0 <= i < |rows| ==> NameLookup(c, nameOf(rows[i])).name.Some?
    ensures res.Some? ==> |res.value| == |rows| && forall i :: 0 <= i < |rows| ==>
      res.value[i].1 == NameLookup(c, nameOf(rows[i]))
      && res.value[i].0 == setName(rows[i], NameLookup(c, nameOf(rows[i])).name)
  {
    var matches := InfoForNames(c, rows, nameOf);
    res := RenameWhenAllNamed(matches, setName);
  }
}
