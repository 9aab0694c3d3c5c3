/**
 * get_accepted_info_from_names_in_column: the orchestration of the name
 * resolution stages.  The input names are de-duplicated, stripped of
 * missing values and normalised; then manual matches, exact checklist
 * matches, remote-matcher matches and autoresolved matches are tried in
 * turn, each on the names no earlier stage resolved; every name is finally
 * given the accepted fields of the first result row for it.  The three
 * later stages are parameters; the manual stage is concrete.
 */
module NameResolution {
  import opened Base
  import opened Strs
  import opened Taxa
  import opened WcvpMatching
  import opened GetAcceptedInfo

  /** One row of the manual match table. */
  datatype ManualMatch = ManualMatch(submitted: Cell, resolutionId: Cell)

  /** Some row of rs carries the name n. */
  predicate Resolves(rs: seq<Resolved>, n: string)
  {
    exists j :: 0 <= j < |rs| && rs[j].name == Some(n)
  }

  function NotResolvedIn(rs: seq<Resolved>): string -> bool { (n: string) => !Resolves(rs, n) }

  /** `df[~df[name_col].isin(resolved[name_col].values)]` on the names. */
  function Unmatched(names: seq<string>, rs: seq<Resolved>): seq<string>
  {
    Filter(names, NotResolvedIn(rs))
  }

  lemma UnmatchedExactly(names: seq<string>, rs: seq<Resolved>, n: string)
    ensures n in Unmatched(names, rs) <==> n in names && !Resolves(rs, n)
  {
    if n in names && !Resolves(rs, n) {
      var i :| 0 <= i < |names| && names[i] == n;
      assert NotResolvedIn(rs)(names[i]);
    }
    if n in Unmatched(names, rs) {
      var i :| 0 <= i < |Unmatched(names, rs)| && Unmatched(names, rs)[i] == n;
      assert NotResolvedIn(rs)(Unmatched(names, rs)[i]);
    }
  }

  /** The accepted information of the first row for n, if there is one. */
  function FirstInfo(rs: seq<Resolved>, n: string): (r: Option<AcceptedInfo>)
    ensures r.None? <==> !Resolves(rs, n)
    ensures r.Some? ==> exists j :: 0 <= j < |rs| && rs[j] == Resolved(Some(n), r.value)
    decreases |rs|
  {
    if |rs| == 0 then None
    else if rs[0].name == Some(n) then Some(rs[0].info)
    else
      var r := FirstInfo(rs[1..], n);
      assert forall j :: 0 <= j < |rs| - 1 ==> rs[1..][j] == rs[j + 1];
      assert Resolves(rs, n) ==> Resolves(rs[1..], n) by {
        if Resolves(rs, n) {
          var j :| 0 <= j < |rs| && rs[j].name == Some(n);
          assert rs[1..][j - 1] == rs[j];
        }
      }
      r
  }

  /** The first row for n in a concatenation is in the first part when that part has one. */
  lemma {:induction false} FirstInfoConcat(a: seq<Resolved>, b: seq<Resolved>, n: string)
    ensures FirstInfo(a + b, n) == if Resolves(a, n) then FirstInfo(a, n) else FirstInfo(b, n)
    decreases |a|
  {
    if |a| == 0 {
      assert a + b == b;
    } else {
      assert (a + b)[1..] == a[1..] + b;
      FirstInfoConcat(a[1..], b, n);
      if a[0].name != Some(n) {
        assert Resolves(a, n) == Resolves(a[1..], n) by {
          if Resolves(a, n) {
            var j :| 0 <= j < |a| && a[j].name == Some(n);
            assert a[1..][j - 1] == a[j];
          }
          if Resolves(a[1..], n) {
            var j :| 0 <= j < |a[1..]| && a[1..][j].name == Some(n);
            assert a[j + 1] == a[1..][j];
          }
        }
      }
    }
  }

  /** The unresolved names appended at the end, with every accepted field missing. */
  function NanRows(ns: seq<string>): (rs: seq<Resolved>)
    ensures forall n :: Resolves(rs, n) <==> n in ns
    ensures forall n :: n in ns ==> FirstInfo(rs, n) == Some(NanInfo)
  {
    var rs := seq(|ns|, i requires 0 <= i < |ns| => Resolved(Some(ns[i]), NanInfo));
    forall n | Resolves(rs, n) ensures n in ns {
      var j :| 0 <= j < |rs| && rs[j].name == Some(n);
    }
    forall n | n in ns ensures Resolves(rs, n) {
      var j :| 0 <= j < |ns| && ns[j] == n;
      assert rs[j].name == Some(n);
    }
    rs
  }

  // ---- the manual stage ----

  function SubmittedIn(names: seq<string>): ManualMatch -> bool
  {
    (m: ManualMatch) => m.submitted.Some? && m.submitted.value in names
  }

  function NamedRow(): Resolved -> bool { (r: Resolved) => r.info.name.Some? }

  /**
   * The manual table rows whose submission is among the names, each with
   * the accepted information of its resolution id, without those that have
   * no accepted name.
   */
  function ManualLookups(c: Checklist, manual: seq<ManualMatch>, names: seq<string>): (rs: seq<Resolved>)
    ensures forall j :: 0 <= j < |rs| ==> rs[j].info.name.Some? && rs[j].name.Some? && rs[j].name.value in names
  {
    var sel := Filter(manual, SubmittedIn(names));
    var looked := seq(|sel|, i requires 0 <= i < |sel| => Resolved(sel[i].submitted, IdLookup(c, sel[i].resolutionId)));
    var rs := Filter(looked, NamedRow());
    assert forall j :: 0 <= j < |rs| ==> rs[j] in looked;
    rs
  }

  function NameIs(n: string): Resolved -> bool { (r: Resolved) => r.name == Some(n) }

  /** `pd.merge(df, table, left_on=name_col, right_on='submitted', sort=False)`: per name, in order, its rows of rs. */
  function MergeOnNames(names: seq<string>, rs: seq<Resolved>): seq<Resolved>
  {
    if |names| == 0 then []
    else MergeOnNames(names[..|names| - 1], rs) + Filter(rs, NameIs(names[|names| - 1]))
  }

  function ManualStage(c: Checklist, manual: seq<ManualMatch>, names: seq<string>): seq<Resolved>
  {
    MergeOnNames(names, ManualLookups(c, manual, names))
  }

  /** Selecting the rows of one name keeps exactly that name's rows. */
  lemma FilterNameResolves(rs: seq<Resolved>, n: string, m: string)
    ensures Resolves(Filter(rs, NameIs(n)), m) <==> n == m && Resolves(rs, m)
  {
    var f := Filter(rs, NameIs(n));
    if Resolves(f, m) {
      var j :| 0 <= j < |f| && f[j].name == Some(m);
      assert NameIs(n)(f[j]);
    }
    if n == m && Resolves(rs, m) {
      var j :| 0 <= j < |rs| && rs[j].name == Some(m);
      assert NameIs(n)(rs[j]);
      var k :| 0 <= k < |f| && f[k] == rs[j];
    }
  }

  /** ... and so its first row. */
  lemma {:induction false} FilterNameFirstInfo(rs: seq<Resolved>, n: string)
    ensures FirstInfo(Filter(rs, NameIs(n)), n) == FirstInfo(rs, n)
  {
    if |rs| > 0 {
      var k := |rs| - 1;
      var pre := rs[..k];
      var last := Filter([rs[k]], NameIs(n));
      assert rs == pre + [rs[k]];
      FilterNameFirstInfo(pre, n);
      FilterAppend(pre, [rs[k]], NameIs(n));
      FirstInfoConcat(pre, [rs[k]], n);
      FirstInfoConcat(Filter(pre, NameIs(n)), last, n);
      FilterNameResolves(pre, n, n);
      assert last == (if rs[k].name == Some(n) then [rs[k]] else []);
    }
  }

  /** The merge resolves exactly the names that are both listed and in the table, with the table's first row. */
  lemma {:induction false} MergeOnNamesResolves(names: seq<string>, rs: seq<Resolved>, n: string)
    ensures Resolves(MergeOnNames(names, rs), n) <==> n in names && Resolves(rs, n)
    ensures n in names ==> FirstInfo(MergeOnNames(names, rs), n) == FirstInfo(rs, n)
  {
    if |names| > 0 {
      var k := |names| - 1;
      var pre := names[..k];
      var left := MergeOnNames(pre, rs);
      var right := Filter(rs, NameIs(names[k]));
      assert names == pre + [names[k]];
      MergeOnNamesResolves(pre, rs, n);
      FilterNameResolves(rs, names[k], n);
      FilterNameFirstInfo(rs, n);
      FirstInfoConcat(left, right, n);
      ResolvesConcat(left, right, n);
    }
  }

  /**
   * A name is resolved manually exactly when it is listed and some manual
   * row submitted under it has a resolution id with an accepted name; the
   * first such row decides.
   */
  lemma ManualStageResolves(c: Checklist, manual: seq<ManualMatch>, names: seq<string>, n: string)
    ensures Resolves(ManualStage(c, manual, names), n) <==> n in names && Resolves(ManualLookups(c, manual, names), n)
    ensures n in names ==> FirstInfo(ManualStage(c, manual, names), n) == FirstInfo(ManualLookups(c, manual, names), n)
  {
    MergeOnNamesResolves(names, ManualLookups(c, manual, names), n);
  }

  /** A manual row for a listed name whose resolution id has an accepted name resolves that name. */
  lemma ManualRowResolves(c: Checklist, manual: seq<ManualMatch>, names: seq<string>, i: nat)
    requires i < |manual| && manual[i].submitted.Some? && manual[i].submitted.value in names
    requires IdLookup(c, manual[i].resolutionId).name.Some?
    ensures Resolves(ManualStage(c, manual, names), manual[i].submitted.value)
  {
    var sel := Filter(manual, SubmittedIn(names));
    assert SubmittedIn(names)(manual[i]);
    var q :| 0 <= q < |sel| && sel[q] == manual[i];
    var looked := seq(|sel|, k requires 0 <= k < |sel| => Resolved(sel[k].submitted, IdLookup(c, sel[k].resolutionId)));
    assert NamedRow()(looked[q]);
    var rs := Filter(looked, NamedRow());
    assert rs == ManualLookups(c, manual, names);
    var j :| 0 <= j < |rs| && rs[j] == looked[q];
    assert Resolves(rs, manual[i].submitted.value);
    ManualStageResolves(c, manual, names, manual[i].submitted.value);
  }

  // ---- the exact stage of wcvp_matching ----

  /** get_wcvp_info_for_names_in_column on the names: one row per name, matched or not. */
  function ExactRows(c: Checklist, ns: seq<string>): (rs: seq<Resolved>)
    ensures |rs| == |ns|
    ensures forall i :: 0 <= i < |ns| ==> rs[i] == Resolved(Some(ns[i]), NameLookup(c, Some(ns[i])))
  {
    seq(|ns|, i requires 0 <= i < |ns| => Resolved(Some(ns[i]), NameLookup(c, Some(ns[i]))))
  }

  function ExactStageOf(c: Checklist): seq<string> -> seq<Resolved> { (ns: seq<string>) => ExactRows(c, ns) }

  // ---- the stages ----

  /** What each stage was given and returned, and the final result table. */
  datatype Stages = Stages(
    names: seq<string>,
    manualOut: seq<Resolved>,
    exactIn: seq<string>,
    exactOut: seq<Resolved>,
    knmsIn: seq<string>,
    knmsOut: seq<Resolved>,
    autoIn: seq<string>,
    autoOut: seq<Resolved>,
    unresolved: seq<string>,
    final: seq<Resolved>)

  /**
   * The stage sequence on the normalised names.  The exact, remote-matcher
   * and autoresolve stages are given as functions of the names they see;
   * the latter two may raise.
   */
  function RunStages(c: Checklist, manual: seq<ManualMatch>,
                     exact: seq<string> -> seq<Resolved>,
                     knms: seq<string> -> Result<seq<Resolved>>,
                     auto: seq<string> -> Result<seq<Resolved>>,
                     names: seq<string>): Result<Stages>
  {
    var manualOut := ManualStage(c, manual, names);
    var exactIn := Unmatched(names, manualOut);
    var exactOut := exact(exactIn);
    var knmsIn := Unmatched(names, exactOut + manualOut);
    match knms(knmsIn)
    case Err(e) => Err(e)
    case Ok(knmsOut) =>
      var autoIn := Unmatched(names, exactOut + manualOut + knmsOut);
      match auto(autoIn)
      case Err(e) => Err(e)
      case Ok(autoOut) =>
        var resolved := autoOut + (exactOut + manualOut + knmsOut);
        var unresolved := Unmatched(names, resolved);
        Ok(Stages(names, manualOut, exactIn, exactOut, knmsIn, knmsOut, autoIn, autoOut, unresolved,
                  resolved + NanRows(unresolved)))
  }

  /** The final table is the stage results followed by the all-missing rows of the names none of them resolved. */
  predicate Assembled(st: Stages)
  {
    && st.unresolved == Unmatched(st.names, st.autoOut + (st.exactOut + st.manualOut + st.knmsOut))
    && st.final == st.autoOut + (st.exactOut + st.manualOut + st.knmsOut) + NanRows(st.unresolved)
  }

  /** Every listed name has a row in the final table, so the per-name lookup never fails. */
  lemma FinalCoversAll(st: Stages, n: string)
    requires Assembled(st) && n in st.names
    ensures Resolves(st.final, n)
  {
    var resolved := st.autoOut + (st.exactOut + st.manualOut + st.knmsOut);
    UnmatchedExactly(st.names, resolved, n);
    FirstInfoConcat(resolved, NanRows(st.unresolved), n);
  }

  lemma RunStagesAssembled(c: Checklist, manual: seq<ManualMatch>, exact: seq<string> -> seq<Resolved>,
                           knms: seq<string> -> Result<seq<Resolved>>, auto: seq<string> -> Result<seq<Resolved>>,
                           names: seq<string>)
    requires RunStages(c, manual, exact, knms, auto, names).Ok?
    ensures Assembled(RunStages(c, manual, exact, knms, auto, names).value)
    ensures RunStages(c, manual, exact, knms, auto, names).value.names == names
  {
  }

  /**
   * The first row for a name in the final table: an autoresolved row
   * first, then an exact one, then a manual one, then a remote-matcher one,
   * and otherwise the all-missing row of an unresolved name.
   */
  lemma FinalPriority(st: Stages, n: string)
    requires Assembled(st) && n in st.names
    ensures Resolves(st.autoOut, n) ==> FirstInfo(st.final, n) == FirstInfo(st.autoOut, n)
    ensures !Resolves(st.autoOut, n) && Resolves(st.exactOut, n) ==> FirstInfo(st.final, n) == FirstInfo(st.exactOut, n)
    ensures !Resolves(st.autoOut, n) && !Resolves(st.exactOut, n) && Resolves(st.manualOut, n) ==>
      FirstInfo(st.final, n) == FirstInfo(st.manualOut, n)
    ensures !Resolves(st.autoOut, n) && !Resolves(st.exactOut, n) && !Resolves(st.manualOut, n) && Resolves(st.knmsOut, n) ==>
      FirstInfo(st.final, n) == FirstInfo(st.knmsOut, n)
    ensures !Resolves(st.autoOut, n) && !Resolves(st.exactOut, n) && !Resolves(st.manualOut, n) && !Resolves(st.knmsOut, n) ==>
      FirstInfo(st.final, n) == Some(NanInfo)
  {
    var em := st.exactOut + st.manualOut;
    var emk := em + st.knmsOut;
    var resolved := st.autoOut + emk;
    FirstInfoConcat(resolved, NanRows(st.unresolved), n);
    FirstInfoConcat(st.autoOut, emk, n);
    FirstInfoConcat(em, st.knmsOut, n);
    FirstInfoConcat(st.exactOut, st.manualOut, n);
    UnmatchedExactly(st.names, resolved, n);
  }

  /** Every row of rs is for one of the names ns. */
  predicate Within(rs: seq<Resolved>, ns: seq<string>)
  {
    forall j :: 0 <= j < |rs| ==> rs[j].name.Some? && rs[j].name.value in ns
  }

  lemma WithinNotResolves(rs: seq<Resolved>, ns: seq<string>, n: string)
    requires Within(rs, ns) && n !in ns
    ensures !Resolves(rs, n)
  {
  }

  /**
   * When every stage answers only for names it was given, the stages take
   * effect in the order they run: manual, exact, remote matcher, autoresolve.
   */
  lemma RunStagesOrder(c: Checklist, manual: seq<ManualMatch>, exact: seq<string> -> seq<Resolved>,
                       knms: seq<string> -> Result<seq<Resolved>>, auto: seq<string> -> Result<seq<Resolved>>,
                       names: seq<string>, n: string)
    requires RunStages(c, manual, exact, knms, auto, names).Ok? && n in names
    requires Within(RunStages(c, manual, exact, knms, auto, names).value.exactOut, RunStages(c, manual, exact, knms, auto, names).value.exactIn)
    requires Within(RunStages(c, manual, exact, knms, auto, names).value.knmsOut, RunStages(c, manual, exact, knms, auto, names).value.knmsIn)
    requires Within(RunStages(c, manual, exact, knms, auto, names).value.autoOut, RunStages(c, manual, exact, knms, auto, names).value.autoIn)
    ensures var st := RunStages(c, manual, exact, knms, auto, names).value;
      Resolves(st.manualOut, n) ==> FirstInfo(st.final, n) == FirstInfo(st.manualOut, n)
    ensures var st := RunStages(c, manual, exact, knms, auto, names).value;
      !Resolves(st.manualOut, n) && Resolves(st.exactOut, n) ==> FirstInfo(st.final, n) == FirstInfo(st.exactOut, n)
    ensures var st := RunStages(c, manual, exact, knms, auto, names).value;
      !Resolves(st.manualOut, n) && !Resolves(st.exactOut, n) && Resolves(st.knmsOut, n) ==> FirstInfo(st.final, n) == FirstInfo(st.knmsOut, n)
    ensures var st := RunStages(c, manual, exact, knms, auto, names).value;
      !Resolves(st.manualOut, n) && !Resolves(st.exactOut, n) && !Resolves(st.knmsOut, n) && Resolves(st.autoOut, n) ==>
        FirstInfo(st.final, n) == FirstInfo(st.autoOut, n)
  {
    var st := RunStages(c, manual, exact, knms, auto, names).value;
    RunStagesAssembled(c, manual, exact, knms, auto, names);
    FinalPriority(st, n);
    UnmatchedExactly(names, st.manualOut, n);
    UnmatchedExactly(names, st.exactOut + st.manualOut, n);
    UnmatchedExactly(names, st.exactOut + st.manualOut + st.knmsOut, n);
    ResolvesConcat(st.exactOut, st.manualOut, n);
    ResolvesConcat(st.exactOut + st.manualOut, st.knmsOut, n);
    if Resolves(st.manualOut, n) || Resolves(st.exactOut, n) || Resolves(st.knmsOut, n) {
      WithinNotResolves(st.autoOut, st.autoIn, n);
    }
    if Resolves(st.manualOut, n) {
      WithinNotResolves(st.exactOut, st.exactIn, n);
    }
  }

  lemma ResolvesConcat(a: seq<Resolved>, b: seq<Resolved>, n: string)
    ensures Resolves(a + b, n) <==> Resolves(a, n) || Resolves(b, n)
  {
    if Resolves(a + b, n) {
      var j :| 0 <= j < |a + b| && (a + b)[j].name == Some(n);
      if j < |a| {
        assert a[j] == (a + b)[j];
      } else {
        assert b[j - |a|] == (a + b)[j];
      }
    }
    if Resolves(a, n) {
      var j :| 0 <= j < |a| && a[j].name == Some(n);
      assert (a + b)[j] == a[j];
    }
    if Resolves(b, n) {
      var j :| 0 <= j < |b| && b[j].name == Some(n);
      assert (a + b)[|a| + j] == b[j];
    }
  }

  /** How the stage inputs of a run are derived from the names and the earlier stage outputs. */
  predicate Chained(st: Stages, exact: seq<string> -> seq<Resolved>)
  {
    && st.exactIn == Unmatched(st.names, st.manualOut)
    && st.exactOut == exact(st.exactIn)
    && st.knmsIn == Unmatched(st.names, st.exactOut + st.manualOut)
    && st.autoIn == Unmatched(st.names, st.exactOut + st.manualOut + st.knmsOut)
  }

  lemma RunStagesChained(c: Checklist, manual: seq<ManualMatch>, exact: seq<string> -> seq<Resolved>,
                         knms: seq<string> -> Result<seq<Resolved>>, auto: seq<string> -> Result<seq<Resolved>>,
                         names: seq<string>)
    requires RunStages(c, manual, exact, knms, auto, names).Ok?
    ensures Chained(RunStages(c, manual, exact, knms, auto, names).value, exact)
    ensures Assembled(RunStages(c, manual, exact, knms, auto, names).value)
    ensures RunStages(c, manual, exact, knms, auto, names).value.names == names
  {
  }

  /** The exact stage of wcvp_matching answers for every name it is given, so nothing is left for later stages. */
  lemma ExactLeavesNothing(taxa: Checklist, st: Stages)
    requires Chained(st, ExactStageOf(taxa))
    ensures st.knmsIn == [] && st.autoIn == []
  {
    var em := st.exactOut + st.manualOut;
    forall m | m in st.names ensures Resolves(em, m) {
      UnmatchedExactly(st.names, st.manualOut, m);
      ResolvesConcat(st.exactOut, st.manualOut, m);
      if !Resolves(st.manualOut, m) {
        var i :| 0 <= i < |st.exactIn| && st.exactIn[i] == m;
        assert st.exactOut[i].name == Some(m);
      }
    }
    NoneUnmatched(st.names, em);
    forall m | m in st.names ensures Resolves(em + st.knmsOut, m) {
      ResolvesConcat(em, st.knmsOut, m);
    }
    NoneUnmatched(st.names, em + st.knmsOut);
  }

  /** With the exact stage of wcvp_matching, a name the manual table and the autoresolver leave alone gets its exact lookup. */
  lemma ExactAnswers(taxa: Checklist, st: Stages, n: string)
    requires Chained(st, ExactStageOf(taxa)) && Assembled(st)
    requires n in st.names && st.autoOut == [] && !Resolves(st.manualOut, n)
    ensures FirstInfo(st.final, n) == Some(NameLookup(taxa, Some(n)))
  {
    FinalPriority(st, n);
    UnmatchedExactly(st.names, st.manualOut, n);
    ExactRowsFirst(taxa, st.exactIn, n);
    var i :| 0 <= i < |st.exactIn| && st.exactIn[i] == n;
    assert st.exactOut[i].name == Some(n);
  }

  /**
   * With the exact stage of wcvp_matching (on any checklist taxa, such as
   * the families of interest), which returns a row for every name it is
   * given, the remote matcher and the autoresolver are only ever given no
   * names, and (when the autoresolver then answers nothing) every name not
   * resolved manually gets its exact checklist lookup.
   */
  lemma ExactStageLeavesNothing(c: Checklist, taxa: Checklist, manual: seq<ManualMatch>,
                                knms: seq<string> -> Result<seq<Resolved>>, auto: seq<string> -> Result<seq<Resolved>>,
                                names: seq<string>, n: string)
    requires RunStages(c, manual, ExactStageOf(taxa), knms, auto, names).Ok?
    ensures RunStages(c, manual, ExactStageOf(taxa), knms, auto, names).value.knmsIn == []
    ensures RunStages(c, manual, ExactStageOf(taxa), knms, auto, names).value.autoIn == []
    ensures var st := RunStages(c, manual, ExactStageOf(taxa), knms, auto, names).value;
      n in names && st.autoOut == [] && !Resolves(st.manualOut, n) ==> FirstInfo(st.final, n) == Some(NameLookup(taxa, Some(n)))
  {
    var st := RunStages(c, manual, ExactStageOf(taxa), knms, auto, names).value;
    RunStagesChained(c, manual, ExactStageOf(taxa), knms, auto, names);
    ExactLeavesNothing(taxa, st);
    if n in names && st.autoOut == [] && !Resolves(st.manualOut, n) {
      ExactAnswers(taxa, st, n);
    }
  }

  lemma NoneUnmatched(names: seq<string>, rs: seq<Resolved>)
    requires forall m :: m in names ==> Resolves(rs, m)
    ensures Unmatched(names, rs) == []
  {
    FilterNone(names, NotResolvedIn(rs));
  }

  lemma {:induction false} ExactRowsFirst(c: Checklist, ns: seq<string>, n: string)
    requires n in ns
    ensures FirstInfo(ExactRows(c, ns), n) == Some(NameLookup(c, Some(n)))
  {
    if ns[0] != n {
      assert ExactRows(c, ns)[1..] == ExactRows(c, ns[1..]);
      ExactRowsFirst(c, ns[1..], n);
    }
  }

  // ---- the output table ----

  /** The accepted columns of COL_NAMES that the output carries. */
  datatype OutRow<R> = OutRow(row: R, name: string, accName: Cell, accSpecies: Cell, accId: Cell, accRank: Cell)

  function HasName<R>(nameOf: R -> Cell): R -> bool { (r: R) => nameOf(r).Some? }

  /** `drop_duplicates(subset=[name_col])` then `dropna(subset=[name_col])`. */
  function InputRows<R>(rows: seq<R>, nameOf: R -> Cell): (df: seq<R>)
    ensures forall i :: 0 <= i < |df| ==> nameOf(df[i]).Some?
  {
    Filter(DistinctBy(rows, nameOf), HasName(nameOf))
  }

  /** The name standardisation: capitalisation of all-capital names, then the whitespace clean-up. */
  function Normalised(n: string, removeWhitespace: string -> string): string
  {
    var cap := CapitalizeFirstLetterOfTaxon(Some(n), true);
    removeWhitespace(if cap.Some? then cap.value else n)
  }

  function NormalisedNames<R>(df: seq<R>, nameOf: R -> Cell, removeWhitespace: string -> string): (ns: seq<string>)
    requires forall i :: 0 <= i < |df| ==> nameOf(df[i]).Some?
    ensures |ns| == |df|
  {
    seq(|df|, i requires 0 <= i < |df| => Normalised(nameOf(df[i]).value, removeWhitespace))
  }

  function OutRowFor<R>(row: R, name: string, info: Option<AcceptedInfo>): OutRow<R>
  {
    match info
    case None => OutRow(row, name, None, None, None, None)
    case Some(a) => OutRow(row, name, a.name, a.species, a.id, a.rank)
  }

  /** The distinct non-missing input names: one row each, and every non-missing name has one. */
  lemma InputRowsDistinct<R>(rows: seq<R>, nameOf: R -> Cell)
    ensures forall i, j :: 0 <= i < j < |InputRows(rows, nameOf)| ==> nameOf(InputRows(rows, nameOf)[i]) != nameOf(InputRows(rows, nameOf)[j])
    ensures forall k :: 0 <= k < |rows| && nameOf(rows[k]).Some? ==>
      exists i :: 0 <= i < |InputRows(rows, nameOf)| && nameOf(InputRows(rows, nameOf)[i]) == nameOf(rows[k])
  {
    var d := DistinctBy(rows, nameOf);
    var df := InputRows(rows, nameOf);
    forall i, j | 0 <= i < j < |df| ensures nameOf(df[i]) != nameOf(df[j]) {
      var a, b := FilterOrder(d, HasName(nameOf), i, j);
    }
    forall k | 0 <= k < |rows| && nameOf(rows[k]).Some?
      ensures exists i :: 0 <= i < |df| && nameOf(df[i]) == nameOf(rows[k])
    {
      DistinctByCovers(rows, nameOf, k);
      var a :| 0 <= a < |d| && nameOf(d[a]) == nameOf(rows[k]);
      assert HasName(nameOf)(d[a]);
      var i :| 0 <= i < |df| && df[i] == d[a];
    }
  }

  /** Two positions of a selection come from two ordered positions of the input. */
  lemma {:induction false} FilterOrder<T>(s: seq<T>, p: T -> bool, i: nat, j: nat) returns (a: nat, b: nat)
    requires i < j < |Filter(s, p)|
    ensures a < b < |s| && s[a] == Filter(s, p)[i] && s[b] == Filter(s, p)[j]
  {
    var n := |s| - 1;
    var f := Filter(s[..n], p);
    assert Filter(s, p) == f + (if p(s[n]) then [s[n]] else []);
    if j < |f| {
      a, b := FilterOrder(s[..n], p, i, j);
      assert s[a] == s[..n][a] && s[b] == s[..n][b];
    } else {
      a :| 0 <= a < n && s[..n][a] == f[i];
      assert s[a] == s[..n][a];
      b := n;
    }
  }

  /**
   * The column-filling loop: every row gets the accepted name, species, id
   * and rank of the first result row for its name.
   */
  method FillAccepted<R>(df: seq<R>, names: seq<string>, final: seq<Resolved>) returns (out: seq<OutRow<R>>)
    requires |names| == |df|
    ensures |out| == |df|
    ensures forall k :: 0 <= k < |df| ==> out[k] == OutRowFor(df[k], names[k], FirstInfo(final, names[k]))
  {
    out := [];
    var i := 0;
    while i < |df|
      invariant 0 <= i <= |df|
      invariant |out| == i
      invariant forall k :: 0 <= k < i ==> out[k] == OutRowFor(df[k], names[k], FirstInfo(final, names[k]))
    {
      out := out + [OutRowFor(df[i], names[i], FirstInfo(final, names[i]))];
      i := i + 1;
    }
  }

  /**
   * The whole of get_accepted_info_from_names_in_column: the input table is
   * reduced to its distinct non-missing names, normalised; the stages run;
   * each remaining row gets the accepted name, species, id and rank of the
   * first final row for its normalised name.
   */
  method GetAcceptedInfoFromNamesInColumn<R>(c: Checklist, manual: seq<ManualMatch>,
                                             exact: seq<string> -> seq<Resolved>,
                                             knms: seq<string> -> Result<seq<Resolved>>,
                                             auto: seq<string> -> Result<seq<Resolved>>,
                                             removeWhitespace: string -> string,
                                             rows: seq<R>, nameOf: R -> Cell)
    returns (res: Result<(Stages, seq<OutRow<R>>)>)
    ensures var df := InputRows(rows, nameOf);
      res.Err? <==> RunStages(c, manual, exact, knms, auto, NormalisedNames(df, nameOf, removeWhitespace)).Err?
    ensures var df := InputRows(rows, nameOf);
      res.Ok? ==> res.value.0 == RunStages(c, manual, exact, knms, auto, NormalisedNames(df, nameOf, removeWhitespace)).value
    ensures var df := InputRows(rows, nameOf);
      res.Ok? ==> |res.value.1| == |df| && forall i :: 0 <= i < |df| ==>
        res.value.1[i] == OutRowFor(df[i], res.value.0.names[i], FirstInfo(res.value.0.final, res.value.0.names[i]))
        && Resolves(res.value.0.final, res.value.0.names[i])
  {
    var df := InputRows(rows, nameOf);
    var names := NormalisedNames(df, nameOf, removeWhitespace);
    var manualOut := ManualStage(c, manual, names);
    var exactIn := Unmatched(names, manualOut);
    var exactOut := exact(exactIn);
    var knmsIn := Unmatched(names, exactOut + manualOut);
    var knmsRes := knms(knmsIn);
    if knmsRes.Err? {
      return Err(knmsRes.error);
    }
    var knmsOut := knmsRes.value;
    var autoIn := Unmatched(names, exactOut + manualOut + knmsOut);
    var autoRes := auto(autoIn);
    if autoRes.Err? {
      return Err(autoRes.error);
    }
    var autoOut := autoRes.value;
    var resolved := autoOut + (exactOut + manualOut + knmsOut);
    var unresolved := Unmatched(names, resolved);
    var final := resolved + NanRows(unresolved);
    var st := Stages(names, manualOut, exactIn, exactOut, knmsIn, knmsOut, autoIn, autoOut, unresolved, final);
    assert Assembled(st);
    forall n | n in names
      ensures Resolves(final, n)
    {
      FinalCoversAll(st, n);
    }
    var out := FillAccepted(df, names, final);
    res := Ok((st, out));
  }

  /** Rows whose names normalise alike receive identical accepted fields. */
  lemma SameNameSameFields<R>(st: Stages, a: R, b: R, n: string)
    ensures var x := OutRowFor(a, n, FirstInfo(st.final, n));
            var y := OutRowFor(b, n, FirstInfo(st.final, n));
            x.accName == y.accName && x.accSpecies == y.accSpecies && x.accId == y.accId && x.accRank == y.accRank
  {
  }
}
