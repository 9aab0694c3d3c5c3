/**
 * Deciding whether a KNApSAcK metabolite is an alkaloid
 * (knapsack_metabolite_properties/alkaloids.py): a metabolite is an alkaloid
 * when its name matches a known alkaloid word for word, or when its name
 * ends in 'ine' and its formula contains nitrogen.  The known alkaloids are
 * the KEGG BRITE alkaloid names (see the KeggBrite module) plus three
 * manual names.
 */
module KnapsackAlkaloids {
  import opened Base
  import opened Strs
  import opened Frames

  const MetaboliteColumn := "Metabolite"
  const FormulaColumn := "Molecular formula"
  const VerdictColumn := "is_alkaloid"

  const AlkaloidsNotEndingInIne: seq<string> := ["Kopsanone", "Palicoside", "Strictosidinic acid"]
  const Suffixes: seq<string> := ["ine-", "ine ", "ine+", "ine("]

  /** The three answers: 'in_known_alkaloids', 'N_and_ends_in_ine' and 'False'. */
  datatype Verdict = InKnownAlkaloids | NAndEndsInIne | NotAlkaloid

  function VerdictText(v: Verdict): string
  {
    match v
    case InKnownAlkaloids => "in_known_alkaloids"
    case NAndEndsInIne => "N_and_ends_in_ine"
    case NotAlkaloid => "False"
  }

  lemma VerdictTextInjective(v: Verdict, w: Verdict)
    ensures VerdictText(v) == VerdictText(w) ==> v == w
  {
  }

  function KnownAlkaloids(kegg: seq<string>): seq<string>
  {
    kegg + AlkaloidsNotEndingInIne
  }

  /**
   * Some known alkaloid, lower-cased, is a word of the name; or the name is
   * a word of some lower-cased known alkaloid.
   */
  predicate NamedInKnown(stripped: string, known: seq<string>)
  {
    (exists k :: 0 <= k < |known| && Lower(known[k]) in SplitWs(stripped))
    || (exists k :: 0 <= k < |known| && stripped in SplitWs(Lower(known[k])))
  }

  /** The name contains 'ine-', 'ine ', 'ine+' or 'ine(', or ends in 'ine'. */
  predicate HasIneEnding(stripped: string)
  {
    (exists k :: 0 <= k < |Suffixes| && Contains(stripped, Suffixes[k])) || EndsWith(stripped, "ine")
  }

  /** `'n' in formula.lower()` */
  predicate HasNitrogen(formula: string)
  {
    Contains(Lower(formula), "n")
  }

  /**
   * `is_alkaloid`: the name is lower-cased and stripped; a missing name, or
   * a missing formula when the formula is consulted, raises.
   */
  function IsAlkaloid(name: Cell, formula: Cell, kegg: seq<string>): (r: Result<Verdict>)
    ensures name.None? ==> r.Err?
    ensures name.Some? && NamedInKnown(Strip(Lower(name.value)), KnownAlkaloids(kegg)) ==> r == Ok(InKnownAlkaloids)
    ensures name.Some? && !NamedInKnown(Strip(Lower(name.value)), KnownAlkaloids(kegg)) ==>
      if !HasIneEnding(Strip(Lower(name.value))) then r == Ok(NotAlkaloid)
      else if formula.None? then r.Err?
      else r == Ok(if HasNitrogen(formula.value) then NAndEndsInIne else NotAlkaloid)
  {
    match name
    case None => Err("AttributeError: name has no lower()")
    case Some(n) =>
      var stripped := Strip(Lower(n));
      if NamedInKnown(stripped, KnownAlkaloids(kegg)) then Ok(InKnownAlkaloids)
      else if HasIneEnding(stripped) then
        match formula
        case None => Err("AttributeError: formula has no lower()")
        case Some(f) => Ok(if HasNitrogen(f) then NAndEndsInIne else NotAlkaloid)
      else Ok(NotAlkaloid)
  }

  lemma LowerKeepsNonSpace(s: string)
    requires forall j :: 0 <= j < |s| ==> !IsSpace(s[j])
    ensures forall j :: 0 <= j < |Lower(s)| ==> !IsSpace(Lower(s)[j])
  {
  }

  /** A one-word known alkaloid is recognised by its own name, whatever its formula. */
  lemma OneWordKnownNameRecognised(kegg: seq<string>, k: nat, formula: Cell)
    requires k < |KnownAlkaloids(kegg)|
    requires var a := KnownAlkaloids(kegg)[k]; |a| > 0 && forall j :: 0 <= j < |a| ==> !IsSpace(a[j])
    ensures IsAlkaloid(Some(KnownAlkaloids(kegg)[k]), formula, kegg) == Ok(InKnownAlkaloids)
  {
    var a := KnownAlkaloids(kegg)[k];
    LowerKeepsNonSpace(a);
    var l := Lower(a);
    assert !IsSpace(l[0]) && !IsSpace(l[|l| - 1]);
    assert StripLeft(l) == l && StripRight(l) == l;
    SplitWsOfToken(l);
    assert Lower(KnownAlkaloids(kegg)[k]) in SplitWs(Strip(l));
  }

  /** 'Kopsanone' is an alkaloid by name alone. */
  lemma KopsanoneRecognised(kegg: seq<string>, formula: Cell)
    ensures IsAlkaloid(Some("Kopsanone"), formula, kegg) == Ok(InKnownAlkaloids)
  {
    var k := |kegg|;
    assert KnownAlkaloids(kegg)[k] == "Kopsanone";
    OneWordKnownNameRecognised(kegg, k, formula);
  }

  /**
   * The word-for-word comparison recognises every single word of a known
   * name: 'acid', a word of 'Strictosidinic acid', counts as a known alkaloid.
   */
  lemma WordOfKnownNameRecognised(kegg: seq<string>, k: nat, w: string, formula: Cell)
    requires k < |KnownAlkaloids(kegg)| && w in SplitWs(Lower(KnownAlkaloids(kegg)[k]))
    ensures IsAlkaloid(Some(w), formula, kegg) == Ok(InKnownAlkaloids)
  {
    var l := Lower(KnownAlkaloids(kegg)[k]);
    SplitWsHasNoEmptyToken(l);
    LowerIsNoUpper(KnownAlkaloids(kegg)[k]);
    SplitWsKeepsNoUpper(l, w);
    LowerOfLower(w);
    assert StripLeft(w) == w && StripRight(w) == w;
  }

  /** A name matched by no known alkaloid is an alkaloid exactly when it ends in 'ine' and its formula has nitrogen. */
  lemma IneRule(name: string, formula: string, kegg: seq<string>)
    requires !NamedInKnown(Strip(Lower(name)), KnownAlkaloids(kegg))
    ensures IsAlkaloid(Some(name), Some(formula), kegg) != Ok(NotAlkaloid)
      <==> HasIneEnding(Strip(Lower(name))) && HasNitrogen(formula)
    ensures IsAlkaloid(Some(name), Some(formula), kegg).Ok?
  {
  }

  /** Listing more KEGG alkaloids never withdraws a recognition by name. */
  lemma MoreKnownKeepsRecognition(name: string, formula: Cell, kegg: seq<string>, more: seq<string>)
    requires IsAlkaloid(Some(name), formula, kegg) == Ok(InKnownAlkaloids)
    ensures IsAlkaloid(Some(name), formula, more + kegg) == Ok(InKnownAlkaloids)
  {
    NamedFromVerdict(name, formula, kegg);
    KnownOfLonger(kegg, more);
    NamedInLonger(Strip(Lower(name)), KnownAlkaloids(kegg), more);
  }

  /** Only a name matched by the known alkaloids gets the verdict 'in the known alkaloids'. */
  lemma NamedFromVerdict(name: string, formula: Cell, kegg: seq<string>)
    requires IsAlkaloid(Some(name), formula, kegg) == Ok(InKnownAlkaloids)
    ensures NamedInKnown(Strip(Lower(name)), KnownAlkaloids(kegg))
  {
  }

  lemma KnownOfLonger(kegg: seq<string>, more: seq<string>)
    ensures KnownAlkaloids(more + kegg) == more + KnownAlkaloids(kegg)
  {
  }

  /** A name matched by a list of known alkaloids is matched by any longer list ending with it. */
  lemma NamedInLonger(s: string, known: seq<string>, more: seq<string>)
    requires NamedInKnown(s, known)
    ensures NamedInKnown(s, more + known)
  {
    var bigger := more + known;
    if exists k :: 0 <= k < |known| && Lower(known[k]) in SplitWs(s) {
      var k :| 0 <= k < |known| && Lower(known[k]) in SplitWs(s);
      assert bigger[|more| + k] == known[k];
    } else {
      var k :| 0 <= k < |known| && s in SplitWs(Lower(known[k]));
      assert bigger[|more| + k] == known[k];
    }
  }

  // ---- the table ----

  function RowVerdict(df: Frame, kegg: seq<string>, i: nat): Result<Verdict>
    requires i < |df.rows|
  {
    IsAlkaloid(Value(df.cols, df.rows[i], MetaboliteColumn), Value(df.cols, df.rows[i], FormulaColumn), kegg)
  }

  /** The verdict of every row, or the first error. */
  function Verdicts(df: Frame, kegg: seq<string>, n: nat): (r: Result<seq<Cell>>)
    requires n <= |df.rows|
    ensures r.Ok? ==> |r.value| == n && forall i :: 0 <= i < n ==>
      RowVerdict(df, kegg, i).Ok? && r.value[i] == Some(VerdictText(RowVerdict(df, kegg, i).value))
    ensures r.Err? <==> exists i :: 0 <= i < n && RowVerdict(df, kegg, i).Err?
  {
    if n == 0 then Ok([])
    else
      match Verdicts(df, kegg, n - 1)
      case Err(e) => Err(e)
      case Ok(prev) =>
        match RowVerdict(df, kegg, n - 1)
        case Err(e) => Err(e)
        case Ok(v) => Ok(prev + [Some(VerdictText(v))])
  }

  /** The rows whose verdict column `col` does not read 'False'. */
  function NotFalse(cols: seq<string>, col: string): seq<Cell> -> bool
  {
    (row: seq<Cell>) => Value(cols, row, col) != Some("False")
  }

  /** An alkaloid verdict: 'in_known_alkaloids' or 'N_and_ends_in_ine'. */
  predicate IsAlkaloidVerdict(c: Cell)
  {
    c == Some("in_known_alkaloids") || c == Some("N_and_ends_in_ine")
  }

  /** Filtering out the 'False' verdicts of column `col` leaves only alkaloid verdicts. */
  lemma VerdictsKept(g: Frame, col: string, vs: seq<Cell>)
    requires WellFormed(g) && |vs| == |g.rows|
    requires forall j :: 0 <= j < |g.rows| ==> Value(g.cols, g.rows[j], col) == vs[j]
    requires forall j :: 0 <= j < |vs| ==> vs[j] in {Some("in_known_alkaloids"), Some("N_and_ends_in_ine"), Some("False")}
    ensures forall i :: 0 <= i < |Filter(g.rows, NotFalse(g.cols, col))| ==> IsAlkaloidVerdict(Value(g.cols, Filter(g.rows, NotFalse(g.cols, col))[i], col))
  {
    var rs := Filter(g.rows, NotFalse(g.cols, col));
    forall i | 0 <= i < |rs| ensures IsAlkaloidVerdict(Value(g.cols, rs[i], col)) {
      var j :| 0 <= j < |g.rows| && g.rows[j] == rs[i];
      assert vs[j] in {Some("in_known_alkaloids"), Some("N_and_ends_in_ine"), Some("False")};
    }
  }

  /**
   * `get_alkaloids_from_metabolites`: the table with an `is_alkaloid` column,
   * keeping the rows whose verdict is not 'False'.
   */
  function AlkaloidsFromMetabolites(df: Frame, kegg: seq<string>): (r: Result<Frame>)
    requires WellFormed(df)
    ensures r.Ok? ==> WellFormed(r.value) && |r.value.rows| <= |df.rows|
    ensures r.Ok? ==> forall i :: 0 <= i < |r.value.rows| ==> IsAlkaloidVerdict(Value(r.value.cols, r.value.rows[i], VerdictColumn))
  {
    match Verdicts(df, kegg, |df.rows|)
    case Err(e) => Err(e)
    case Ok(vs) =>
      var g := SetColumn(df, VerdictColumn, vs);
      VerdictsKept(g, VerdictColumn, vs);
      Ok(Frame(g.cols, Filter(g.rows, NotFalse(g.cols, VerdictColumn))))
  }

  /** A row is kept exactly when its metabolite is judged an alkaloid. */
  lemma AlkaloidRowsKept(df: Frame, kegg: seq<string>, i: nat)
    requires WellFormed(df) && i < |df.rows| && AlkaloidsFromMetabolites(df, kegg).Ok?
    ensures var v := RowVerdict(df, kegg, i);
      v.Ok? && (v.value != NotAlkaloid <==> SetColumn(df, VerdictColumn, Verdicts(df, kegg, |df.rows|).value).rows[i] in AlkaloidsFromMetabolites(df, kegg).value.rows)
  {
    var vs := Verdicts(df, kegg, |df.rows|).value;
    var g := SetColumn(df, VerdictColumn, vs);
    assert Value(g.cols, g.rows[i], VerdictColumn) == vs[i];
  }
}
