/**
 * Alkaloids and nitrogen-containing compounds among metabolites
 * (metabolite_properties/alkaloids.py).  The name test is the one of
 * KnapsackAlkaloids; the nitrogen test looks at several formula-like
 * values (molecular formula and SMILES) and skips the missing ones.
 */
module MetaboliteAlkaloids {
  import opened Base
  import opened Strs
  import opened Frames
  import opened KnapsackAlkaloids

  const SmilesColumn := "SMILES"
  const NameFormulaVerdictColumn := "is_alkaloid_from_name_and_formula"

  /** Some present value of the list contains an 'n' in either case. */
  predicate SomeFormulaHasNitrogen(formulae: seq<Cell>)
  {
    exists k :: 0 <= k < |formulae| && formulae[k].Some? && HasNitrogen(formulae[k].value)
  }

  /** The verdict `is_alkaloid_from_name_and_formulae` returns. */
  function NameAndFormulaeVerdict(name: Cell, formulae: seq<Cell>, kegg: seq<string>): (r: Result<Verdict>)
    ensures r.Err? <==> name.None?
    ensures r.Ok? && r.value == NAndEndsInIne ==> SomeFormulaHasNitrogen(formulae)
    ensures name.Some? && NamedInKnown(Strip(Lower(name.value)), KnownAlkaloids(kegg)) ==> r == Ok(InKnownAlkaloids)
  {
    match name
    case None => Err("AttributeError: name has no lower()")
    case Some(n) =>
      var stripped := Strip(Lower(n));
      if NamedInKnown(stripped, KnownAlkaloids(kegg)) then Ok(InKnownAlkaloids)
      else if HasIneEnding(stripped) && SomeFormulaHasNitrogen(formulae) then Ok(NAndEndsInIne)
      else Ok(NotAlkaloid)
  }

  /** `is_alkaloid_from_name_and_formulae`: the loop over the formulae returns at the first one with nitrogen. */
  method IsAlkaloidFromNameAndFormulae(name: Cell, formulae: seq<Cell>, kegg: seq<string>) returns (r: Result<Verdict>)
    ensures r == NameAndFormulaeVerdict(name, formulae, kegg)
  {
    if name.None? {
      return Err("AttributeError: name has no lower()");
    }
    var stripped := Strip(Lower(name.value));
    if NamedInKnown(stripped, KnownAlkaloids(kegg)) {
      return Ok(InKnownAlkaloids);
    }
    if HasIneEnding(stripped) {
      var i := 0;
      while i < |formulae|
        invariant i <= |formulae|
        invariant !SomeFormulaHasNitrogen(formulae[..i])
      {
        if formulae[i].Some? && HasNitrogen(formulae[i].value) {
          assert SomeFormulaHasNitrogen(formulae);
          return Ok(NAndEndsInIne);
        }
        assert formulae[..i + 1] == formulae[..i] + [formulae[i]];
        i := i + 1;
      }
      assert formulae[..i] == formulae;
    }
    return Ok(NotAlkaloid);
  }

  /** With one formula, the verdict agrees with KNApSAcK's `is_alkaloid` wherever that one does not raise. */
  lemma AgreesWithSingleFormula(name: string, formula: string, kegg: seq<string>)
    ensures NameAndFormulaeVerdict(Some(name), [Some(formula)], kegg) == IsAlkaloid(Some(name), Some(formula), kegg)
  {
    if SomeFormulaHasNitrogen([Some(formula)]) {
      var k :| 0 <= k < 1 && [Some(formula)][k].Some? && HasNitrogen([Some(formula)][k].value);
    }
  }

  /** Missing formulae are skipped: they change no verdict. */
  lemma MissingFormulaeIgnored(name: Cell, formulae: seq<Cell>, kegg: seq<string>)
    ensures NameAndFormulaeVerdict(name, formulae + [None], kegg) == NameAndFormulaeVerdict(name, formulae, kegg)
  {
    var f := formulae + [None];
    if SomeFormulaHasNitrogen(f) {
      var k :| 0 <= k < |f| && f[k].Some? && HasNitrogen(f[k].value);
      assert f[k] == formulae[k];
    }
    if SomeFormulaHasNitrogen(formulae) {
      var k :| 0 <= k < |formulae| && formulae[k].Some? && HasNitrogen(formulae[k].value);
      assert f[k] == formulae[k];
    }
  }

  // ---- tables ----

  /** The formula-like values of a row: molecular formula and SMILES. */
  function RowFormulae(df: Frame, i: nat): seq<Cell>
    requires i < |df.rows|
  {
    [Value(df.cols, df.rows[i], FormulaColumn), Value(df.cols, df.rows[i], SmilesColumn)]
  }

  function RowNameVerdict(df: Frame, nameCol: string, kegg: seq<string>, i: nat): Result<Verdict>
    requires i < |df.rows|
  {
    NameAndFormulaeVerdict(Value(df.cols, df.rows[i], nameCol), RowFormulae(df, i), kegg)
  }

  /** The verdict text of every row, or an error when some name is missing. */
  function NameVerdicts(df: Frame, nameCol: string, kegg: seq<string>, n: nat): (r: Result<seq<Cell>>)
    requires n <= |df.rows|
    ensures r.Ok? ==> |r.value| == n && forall i :: 0 <= i < n ==>
      RowNameVerdict(df, nameCol, kegg, i).Ok? && r.value[i] == Some(VerdictText(RowNameVerdict(df, nameCol, kegg, i).value))
    ensures r.Err? <==> exists i :: 0 <= i < n && RowNameVerdict(df, nameCol, kegg, i).Err?
  {
    if n == 0 then Ok([])
    else
      match NameVerdicts(df, nameCol, kegg, n - 1)
      case Err(e) => Err(e)
      case Ok(prev) =>
        match RowNameVerdict(df, nameCol, kegg, n - 1)
        case Err(e) => Err(e)
        case Ok(v) => Ok(prev + [Some(VerdictText(v))])
  }

  /**
   * `get_alkaloids_from_metabolites`: the table with the verdict column,
   * keeping the rows judged alkaloids; a missing name raises.
   */
  function AlkaloidsFromMetabolites(df: Frame, nameCol: string, kegg: seq<string>): (r: Result<Frame>)
    requires WellFormed(df)
    ensures r.Err? <==> exists i :: 0 <= i < |df.rows| && RowNameVerdict(df, nameCol, kegg, i).Err?
    ensures r.Ok? ==> WellFormed(r.value) && |r.value.rows| <= |df.rows|
    ensures r.Ok? ==> forall i :: 0 <= i < |r.value.rows| ==> IsAlkaloidVerdict(Value(r.value.cols, r.value.rows[i], NameFormulaVerdictColumn))
  {
    match NameVerdicts(df, nameCol, kegg, |df.rows|)
    case Err(e) => Err(e)
    case Ok(vs) =>
      var g := SetColumn(df, NameFormulaVerdictColumn, vs);
      VerdictsKept(g, NameFormulaVerdictColumn, vs);
      Ok(Frame(g.cols, Filter(g.rows, NotFalse(g.cols, NameFormulaVerdictColumn))))
  }

  /** The table raises exactly when some metabolite name is missing. */
  lemma AlkaloidsRaiseOnMissingName(df: Frame, nameCol: string, kegg: seq<string>)
    requires WellFormed(df)
    ensures AlkaloidsFromMetabolites(df, nameCol, kegg).Err? <==> exists i :: 0 <= i < |df.rows| && Value(df.cols, df.rows[i], nameCol).None?
  {
    if AlkaloidsFromMetabolites(df, nameCol, kegg).Err? {
      var i :| 0 <= i < |df.rows| && RowNameVerdict(df, nameCol, kegg, i).Err?;
      assert Value(df.cols, df.rows[i], nameCol).None?;
    } else {
      forall i | 0 <= i < |df.rows| ensures Value(df.cols, df.rows[i], nameCol).Some? {
        assert RowNameVerdict(df, nameCol, kegg, i).Ok?;
      }
    }
  }

  /** A row is kept exactly when its metabolite is judged an alkaloid. */
  lemma NameAlkaloidRowsKept(df: Frame, nameCol: string, kegg: seq<string>, i: nat)
    requires WellFormed(df) && i < |df.rows| && AlkaloidsFromMetabolites(df, nameCol, kegg).Ok?
    ensures var v := RowNameVerdict(df, nameCol, kegg, i);
      v.Ok? && (v.value != NotAlkaloid <==>
        SetColumn(df, NameFormulaVerdictColumn, NameVerdicts(df, nameCol, kegg, |df.rows|).value).rows[i] in AlkaloidsFromMetabolites(df, nameCol, kegg).value.rows)
  {
    var vs := NameVerdicts(df, nameCol, kegg, |df.rows|).value;
    var g := SetColumn(df, NameFormulaVerdictColumn, vs);
    assert Value(g.cols, g.rows[i], NameFormulaVerdictColumn) == vs[i];
  }

  /** `str.contains('n', flags=IGNORECASE, na=False)` on a cell. */
  predicate CellHasNitrogen(c: Cell)
  {
    c.Some? && HasNitrogen(c.value)
  }

  function FormulaOrSmilesHasNitrogen(cols: seq<string>): seq<Cell> -> bool
  {
    (row: seq<Cell>) => CellHasNitrogen(Value(cols, row, FormulaColumn)) || CellHasNitrogen(Value(cols, row, SmilesColumn))
  }

  /** `get_N_containing_from_metabolites`: the rows whose formula or SMILES has an 'n' in either case (KeyError without those columns). */
  function NContainingFromMetabolites(df: Frame): (r: Result<Frame>)
    requires WellFormed(df)
    ensures r.Err? <==> FormulaColumn !in df.cols || SmilesColumn !in df.cols
    ensures r.Ok? ==> WellFormed(r.value) && r.value.cols == df.cols
    ensures r.Ok? ==> forall i :: 0 <= i < |r.value.rows| ==>
      r.value.rows[i] in df.rows && FormulaOrSmilesHasNitrogen(df.cols)(r.value.rows[i])
    ensures r.Ok? ==> forall i :: 0 <= i < |df.rows| && SomeFormulaHasNitrogen(RowFormulae(df, i)) ==> df.rows[i] in r.value.rows
  {
    if FormulaColumn !in df.cols || SmilesColumn !in df.cols then Err("KeyError")
    else
      var rows := Filter(df.rows, FormulaOrSmilesHasNitrogen(df.cols));
      assert forall i :: 0 <= i < |df.rows| && SomeFormulaHasNitrogen(RowFormulae(df, i)) ==> df.rows[i] in rows by {
        forall i | 0 <= i < |df.rows| && SomeFormulaHasNitrogen(RowFormulae(df, i)) ensures df.rows[i] in rows {
          var k :| 0 <= k < 2 && RowFormulae(df, i)[k].Some? && HasNitrogen(RowFormulae(df, i)[k].value);
          assert FormulaOrSmilesHasNitrogen(df.cols)(df.rows[i]);
        }
      }
      Ok(Frame(df.cols, rows))
  }

  /** A row judged an alkaloid by the 'ine' rule is among the nitrogen-containing rows. */
  lemma IneAlkaloidsContainNitrogen(df: Frame, nameCol: string, kegg: seq<string>, i: nat)
    requires WellFormed(df) && i < |df.rows| && FormulaColumn in df.cols && SmilesColumn in df.cols
    requires RowNameVerdict(df, nameCol, kegg, i) == Ok(NAndEndsInIne)
    ensures df.rows[i] in NContainingFromMetabolites(df).value.rows
  {
  }

  /** The letter test also accepts formulas whose 'n' belongs to another element, such as zinc. */
  lemma ZincCountsAsNitrogen()
    ensures CellHasNitrogen(Some("ZnCl2"))
  {
    assert Lower("ZnCl2")[1..2] == "n";
    assert ContainsAt(Lower("ZnCl2"), "n", 1);
  }
}
