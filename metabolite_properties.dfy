/**
 * The older alkaloid search over a list of metabolite names
 * (metabolite_searches/_get_metabolite_properties.py).  Each name is tested
 * in a fixed order: a manual list, the KEGG BRITE alkaloid names, then the
 * 'ine' shape with a nitrogen check on the formulas KNApSAcK lists for it.
 * The KEGG names and the formula lookup are parameters (file and web access
 * are left out).  The KEGG names, `known` below, stand for the list that
 * get_alkaloids_from_kegg_brite returns: the leaves below the first child
 * of the BRITE document, which KeggBrite.GetAlkaloidsFromKeggBrite
 * computes.  This module takes that list as an input.
 */
module MetaboliteProperties {
  import opened Base
  import opened Strs

  /** Names recognised as alkaloids although they do not end in 'ine'. */
  const AlkaloidsNotEndingInIne: seq<string> := ["Kopsanone"]
  /** Names never classified by the 'ine' rule (empty in the source). */
  const KnownNonAlkaloids: seq<string> := []
  const Suffixes: seq<string> := ["ine-", "ine ", "ine+", "ine("]

  /** Why a metabolite was kept. */
  datatype Reason = Manual | KeggBrite | NitrogenAndIne

  function ReasonText(r: Reason): string
  {
    match r
    case Manual => "manual"
    case KeggBrite => "Kegg Brite"
    case NitrogenAndIne => "Contains Nitrogen and ine at end of word"
  }

  /** The two parallel lists of the result dictionary: 'alks' and 'Reason'. */
  datatype AlkaloidHits = AlkaloidHits(alks: seq<string>, reasons: seq<string>)

  /** Some manual name occurs in m (case-sensitive). */
  predicate ContainsManualName(m: string)
  {
    exists k :: 0 <= k < |AlkaloidsNotEndingInIne| && Contains(m, AlkaloidsNotEndingInIne[k])
  }

  /** m occurs inside some KEGG alkaloid name. */
  predicate InKeggName(m: string, known: seq<string>)
  {
    exists k :: 0 <= k < |known| && Contains(known[k], m)
  }

  /** m contains one of the suffix forms anywhere, or ends in 'ine'. */
  predicate IneShaped(m: string)
  {
    (exists k :: 0 <= k < |Suffixes| && Contains(m, Suffixes[k])) || EndsWith(m, "ine")
  }

  /** A formula value with an upper-case 'N'. */
  predicate HasN(f: Cell)
  {
    f.Some? && Contains(f.value, "N")
  }

  /**
   * `all("N" in f for f in formulas)`: stops at the first formula without
   * 'N'; a missing (float NaN) formula reached before that raises TypeError.
   */
  function AllContainN(fs: seq<Cell>): (r: Result<bool>)
    ensures r == Ok(true) <==> forall k :: 0 <= k < |fs| ==> HasN(fs[k])
    ensures r == Ok(false) ==> exists k :: 0 <= k < |fs| && fs[k].Some? && !HasN(fs[k])
    ensures r.Err? ==> exists k :: 0 <= k < |fs| && fs[k].None?
  {
    if |fs| == 0 then Ok(true)
    else
      match fs[0]
      case None => Err("TypeError: argument of type 'float' is not iterable")
      case Some(f) =>
        if !Contains(f, "N") then Ok(false)
        else
          var rest := AllContainN(fs[1..]);
          assert forall k :: 1 <= k < |fs| ==> fs[k] == fs[1..][k - 1];
          rest
  }

  /** The branch the loop body takes for m: the reason it is kept, none, or the error raised. */
  function ReasonFor(m: string, known: seq<string>, formulasOf: string -> seq<Cell>): (r: Result<Option<Reason>>)
    ensures r.Err? ==> IneShaped(m) && AllContainN(formulasOf(m)).Err?
    ensures r == Ok(Some(NitrogenAndIne)) ==>
      IneShaped(m) && !ContainsManualName(m) && !InKeggName(m, known) && forall k :: 0 <= k < |formulasOf(m)| ==> HasN(formulasOf(m)[k])
  {
    if ContainsManualName(m) then Ok(Some(Manual))
    else if InKeggName(m, known) then Ok(Some(KeggBrite))
    else if m !in KnownNonAlkaloids then
      if IneShaped(m) then
        match AllContainN(formulasOf(m))
        case Err(e) => Err(e)
        case Ok(all) => if all then Ok(Some(NitrogenAndIne)) else Ok(None)
      else Ok(None)
    else Ok(None)
  }

  function IsHit(known: seq<string>, formulasOf: string -> seq<Cell>): string -> bool
  {
    (m: string) => ReasonFor(m, known, formulasOf).Ok? && ReasonFor(m, known, formulasOf).value.Some?
  }

  function ReasonOf(m: string, known: seq<string>, formulasOf: string -> seq<Cell>): string
  {
    var r := ReasonFor(m, known, formulasOf);
    if r.Ok? && r.value.Some? then ReasonText(r.value.value) else ""
  }

  /**
   * The dictionary the loop builds over ms: the kept names in input order,
   * each with its reason, or the first error raised.
   */
  function Hits(ms: seq<string>, known: seq<string>, formulasOf: string -> seq<Cell>): (r: Result<AlkaloidHits>)
    ensures r.Err? <==> exists i :: 0 <= i < |ms| && ReasonFor(ms[i], known, formulasOf).Err?
    ensures r.Ok? ==> r.value.alks == Filter(ms, IsHit(known, formulasOf))
    ensures r.Ok? ==> |r.value.reasons| == |r.value.alks|
  {
    if |ms| == 0 then Ok(AlkaloidHits([], []))
    else
      var n := |ms| - 1;
      assert ms == ms[..n] + [ms[n]];
      FilterAppend(ms[..n], [ms[n]], IsHit(known, formulasOf));
      match Hits(ms[..n], known, formulasOf)
      case Err(e) => Err(e)
      case Ok(h) =>
        match ReasonFor(ms[n], known, formulasOf)
        case Err(e) => Err(e)
        case Ok(None) => Ok(h)
        case Ok(Some(reason)) => Ok(AlkaloidHits(h.alks + [ms[n]], h.reasons + [ReasonText(reason)]))
  }

  /** Each kept name sits beside the reason it was kept for. */
  lemma {:induction false} HitsReasons(ms: seq<string>, known: seq<string>, formulasOf: string -> seq<Cell>, j: nat)
    requires Hits(ms, known, formulasOf).Ok? && j < |Hits(ms, known, formulasOf).value.alks|
    ensures var h := Hits(ms, known, formulasOf).value; h.reasons[j] == ReasonOf(h.alks[j], known, formulasOf)
  {
    var n := |ms| - 1;
    var h := Hits(ms[..n], known, formulasOf).value;
    if j < |h.alks| {
      HitsReasons(ms[..n], known, formulasOf, j);
    }
  }

  /** Once a prefix raises, the whole list raises the same error: the loop stops there. */
  lemma {:induction false} HitsErrorKept(ms: seq<string>, known: seq<string>, formulasOf: string -> seq<Cell>, j: nat)
    requires j <= |ms| && Hits(ms[..j], known, formulasOf).Err?
    ensures Hits(ms, known, formulasOf) == Hits(ms[..j], known, formulasOf)
  {
    if j < |ms| {
      var n := |ms| - 1;
      assert ms[..n][..j] == ms[..j];
      HitsErrorKept(ms[..n], known, formulasOf, j);
      HitsErrorLast(ms, known, formulasOf);
    } else {
      assert ms[..j] == ms;
    }
  }

  lemma HitsErrorLast(ms: seq<string>, known: seq<string>, formulasOf: string -> seq<Cell>)
    requires |ms| > 0 && Hits(ms[..|ms| - 1], known, formulasOf).Err?
    ensures Hits(ms, known, formulasOf) == Hits(ms[..|ms| - 1], known, formulasOf)
  {
  }

  /** The body of the loop for one metabolite: the branch it takes, or the error the nitrogen test raises. */
  method Classify(m: string, known: seq<string>, formulasOf: string -> seq<Cell>) returns (r: Result<Option<Reason>>)
    ensures r == ReasonFor(m, known, formulasOf)
  {
    if ContainsManualName(m) {
      return Ok(Some(Manual));
    } else if InKeggName(m, known) {
      return Ok(Some(KeggBrite));
    } else if m !in KnownNonAlkaloids && IneShaped(m) {
      var all := AllContainN(formulasOf(m));
      if all.Err? {
        return Err(all.error);
      }
      return if all.value then Ok(Some(NitrogenAndIne)) else Ok(None);
    }
    return Ok(None);
  }

  /** `get_alkaloids_from_metabolites`: the loop over the metabolites appending to both lists. */
  method GetAlkaloidsFromMetabolites(ms: seq<string>, known: seq<string>, formulasOf: string -> seq<Cell>)
    returns (r: Result<AlkaloidHits>)
    ensures r == Hits(ms, known, formulasOf)
  {
    var alks: seq<string> := [];
    var reasons: seq<string> := [];
    var i := 0;
    while i < |ms|
      invariant i <= |ms|
      invariant Hits(ms[..i], known, formulasOf) == Ok(AlkaloidHits(alks, reasons))
    {
      var reason := Classify(ms[i], known, formulasOf);
      HitsStep(ms, known, formulasOf, i);
      if reason.Err? {
        HitsErrorKept(ms, known, formulasOf, i + 1);
        return Err(reason.error);
      }
      if reason.value.Some? {
        alks, reasons := alks + [ms[i]], reasons + [ReasonText(reason.value.value)];
      }
      i := i + 1;
    }
    assert ms[..i] == ms;
    return Ok(AlkaloidHits(alks, reasons));
  }

  /** One metabolite more: the lists grow by its name and reason when it is kept, and its error ends the loop. */
  lemma HitsStep(ms: seq<string>, known: seq<string>, formulasOf: string -> seq<Cell>, i: nat)
    requires i < |ms| && Hits(ms[..i], known, formulasOf).Ok?
    ensures var h := Hits(ms[..i], known, formulasOf).value;
      Hits(ms[..i + 1], known, formulasOf) ==
        match ReasonFor(ms[i], known, formulasOf)
        case Err(e) => Err(e)
        case Ok(None) => Ok(h)
        case Ok(Some(reason)) => Ok(AlkaloidHits(h.alks + [ms[i]], h.reasons + [ReasonText(reason)]))
  {
    assert ms[..i + 1][..i] == ms[..i];
  }

  /** A name containing 'Kopsanone' is classified 'manual', whatever the other rules say. */
  lemma ManualRuleFirst(m: string, known: seq<string>, formulasOf: string -> seq<Cell>)
    requires Contains(m, "Kopsanone")
    ensures ReasonFor(m, known, formulasOf) == Ok(Some(Manual))
  {
    assert Contains(m, AlkaloidsNotEndingInIne[0]);
  }

  /** An 'ine'-shaped name with no formulas listed passes the nitrogen test vacuously. */
  lemma NoFormulasPass(m: string, known: seq<string>, formulasOf: string -> seq<Cell>)
    requires EndsWith(m, "ine") && !ContainsManualName(m) && !InKeggName(m, known) && formulasOf(m) == []
    ensures ReasonFor(m, known, formulasOf) == Ok(Some(NitrogenAndIne))
  {
  }

  /** The KEGG test is containment of the metabolite in a KEGG name, so a mere fragment of one is kept. */
  lemma KeggFragmentKept(formulasOf: string -> seq<Cell>)
    ensures ReasonFor("Caff", ["Caffeine"], formulasOf) == Ok(Some(KeggBrite))
  {
    assert ContainsAt("Caffeine", "Caff", 0);
    assert InKeggName("Caff", ["Caffeine"]) by {
      assert Contains(["Caffeine"][0], "Caff");
    }
    assert !ContainsManualName("Caff") by {
      assert |AlkaloidsNotEndingInIne| == 1 && !Contains("Caff", AlkaloidsNotEndingInIne[0]);
    }
  }
}
