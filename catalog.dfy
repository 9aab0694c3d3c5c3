/**
 * The checklist parser for the World Economic Plants catalogue
 * (read_wep/parse_catalog.py).  Its name test adds punctuation, headings,
 * known problem lines and a genus check to the book parser's test; the
 * compression, backward search and selection are the shared ones run with
 * that test.  The genus list (read from the checklist) and the catalogue's
 * text are parameters.
 */
module Catalog {
  import opened Base
  import opened Strs
  import P = PdfLines

  /**
   * The keyword list as written: a missing comma makes Python join
   * 'potential as soil improver' and 'vegetable' into one entry.
   */
  const FusedParenthesisedWords: seq<string> :=
    ["fiber", "wood", "sugar", "ornamental", "shade/shelter", "seed contam.", "folklore",
     "mammals", "flavoring", "erosion control", "potential as forage", "crop diseases",
     "also poss. seed contam.", "potential as soil improvervegetable"]

  /** The keyword list with the two entries kept apart, as the layout of the list intends. */
  const ParenthesisedWords: seq<string> :=
    ["fiber", "wood", "sugar", "ornamental", "shade/shelter", "seed contam.", "folklore",
     "mammals", "flavoring", "erosion control", "potential as forage", "crop diseases",
     "also poss. seed contam.", "potential as soil improver", "vegetable"]

  const Punctuation: seq<string> := [":", ";", "="]
  const Headings: seq<string> := ["Wiersema & León", "World Economic Plants"]
  const ProblemSnippets: seq<string> :=
    ["wallflower cottonbush", "touriga, beautyleaf, Borneo-mahogany", "weißer Mahagonibaum",
     "erva-das-lombrigas, erva-de-bic", "laurel fig,", "dry-whiskey,", "chamomile,", "Indian-mint,",
     "S. M. Almeida ex Sanjappa & Predeep", "East Indian rose bay,", "jequirity,"]

  /** Some entry of the list occurs in the line. */
  predicate ContainsAny(line: string, subs: seq<string>)
  {
    exists k :: 0 <= k < |subs| && Contains(line, subs[k])
  }

  /** The layout tests of the name check, which rule a non-empty line out before any genus is looked at. */
  predicate FormatExcludes(line: string, words: seq<string>)
    requires |line| > 0
  {
    IsLowerChar(line[0]) || ContainsAny(line, Punctuation) || P.HasCategoryTag(line) || Contains(line, "[")
      || P.HasParenthesised(line, words) || ContainsAny(line, Headings) || ContainsAny(line, ProblemSnippets)
  }

  /** Some genus of the list is one of the line's whitespace-separated tokens. */
  predicate HasGenusToken(line: string, genera: seq<string>)
  {
    exists k :: 0 <= k < |genera| && genera[k] in SplitWs(line)
  }

  /** `not_possible_name_check(line, genus_list)` with a given keyword list. */
  predicate NameCheck(line: string, genera: seq<string>, words: seq<string>)
  {
    if |line| == 0 then true
    else if FormatExcludes(line, words) then true
    else !HasGenusToken(line, genera)
  }

  /** The name test as written, with the fused keyword list. */
  predicate NotPossibleNameAsWritten(line: string, genera: seq<string>)
  {
    NameCheck(line, genera, FusedParenthesisedWords)
  }

  /** The name test with the keyword list as intended; the rest of the model uses this one. */
  predicate NotPossibleName(line: string, genera: seq<string>)
  {
    NameCheck(line, genera, ParenthesisedWords)
  }

  function NameTest(genera: seq<string>): string -> bool
  {
    (line: string) => NotPossibleName(line, genera)
  }

  /**
   * A line can be a name exactly when it is non-empty, passes every layout
   * test and has a genus of the list as one of its tokens.
   */
  lemma PossibleNameMeaning(line: string, genera: seq<string>)
    ensures !NotPossibleName(line, genera) <==>
      |line| > 0 && !FormatExcludes(line, ParenthesisedWords) && HasGenusToken(line, genera)
  {
  }

  /** With no genus list, no line can be a name. */
  lemma NoGeneraNoNames(line: string)
    ensures NotPossibleName(line, [])
  {
  }

  /** Every character of s is one of cs. */
  predicate OnlyChars(s: string, cs: set<char>)
  {
    forall i :: 0 <= i < |s| ==> s[i] in cs
  }

  /** A character of sub outside the characters of s rules sub out. */
  lemma AbsentChar(s: string, cs: set<char>, sub: string, j: nat)
    requires OnlyChars(s, cs) && j < |sub| && sub[j] !in cs
    ensures !Contains(s, sub)
  {
    forall i | 0 <= i <= |s| - |sub| ensures !ContainsAt(s, sub, i) {
      assert s[i..i + |sub|][j] == s[i + j];
    }
  }

  const VegetableLine := "Aa vegetable)"
  const VegetableChars := {'A', 'a', ' ', 'v', 'e', 'g', 't', 'b', 'l', ')'}

  lemma VegetableLineChars()
    ensures OnlyChars(VegetableLine, VegetableChars)
  {
  }

  /** The example line has no '(' and so no opening keyword. */
  lemma VegetableLineOpening()
    ensures forall k :: 0 <= k < |FusedParenthesisedWords| ==> !Contains(VegetableLine, "(" + FusedParenthesisedWords[k])
  {
    VegetableLineChars();
    forall k | 0 <= k < |FusedParenthesisedWords| ensures !Contains(VegetableLine, "(" + FusedParenthesisedWords[k]) {
      AbsentChar(VegetableLine, VegetableChars, "(" + FusedParenthesisedWords[k], 0);
    }
  }

  /** No keyword of the fused list ends the example line before its ')'. */
  lemma VegetableLineClosing()
    ensures forall k :: 0 <= k < |FusedParenthesisedWords| ==> !Contains(VegetableLine, FusedParenthesisedWords[k] + ")")
  {
    VegetableLineChars();
    forall k | 0 <= k < |FusedParenthesisedWords| ensures !Contains(VegetableLine, FusedParenthesisedWords[k] + ")") {
      var w := FusedParenthesisedWords[k];
      var j := if k == 9 then 1 else if k == 12 then 2 else 0;
      assert (w + ")")[j] == w[j];
      AbsentChar(VegetableLine, VegetableChars, w + ")", j);
    }
  }

  /** The example line has no bracketed keyword of the fused list. */
  lemma VegetableLineKeywords()
    ensures !P.HasParenthesised(VegetableLine, FusedParenthesisedWords)
  {
    VegetableLineOpening();
    VegetableLineClosing();
  }

  lemma VegetableLineMarks()
    ensures !ContainsAny(VegetableLine, Punctuation) && !P.HasCategoryTag(VegetableLine) && !Contains(VegetableLine, "[")
  {
    var s := VegetableLine;
    VegetableLineChars();
    forall k | 0 <= k < |Punctuation| ensures !Contains(s, Punctuation[k]) {
      AbsentChar(s, VegetableChars, Punctuation[k], 0);
    }
    forall k | 0 <= k < |P.Categories| ensures !Contains(s, P.Categories[k] + ":") {
      AbsentChar(s, VegetableChars, P.Categories[k] + ":", 0);
    }
    AbsentChar(s, VegetableChars, "[", 0);
  }

  lemma VegetableLineTexts()
    ensures !ContainsAny(VegetableLine, Headings) && !ContainsAny(VegetableLine, ProblemSnippets)
  {
    var s := VegetableLine;
    VegetableLineChars();
    forall k | 0 <= k < |Headings| ensures !Contains(s, Headings[k]) {
      AbsentChar(s, VegetableChars, Headings[k], 0);
    }
    forall k | 0 <= k < |ProblemSnippets| ensures !Contains(s, ProblemSnippets[k]) {
      AbsentChar(s, VegetableChars, ProblemSnippets[k], if k == 1 then 1 else if k == 3 then 1 else if k == 4 then 2 else 0);
    }
  }

  /** The example line passes every layout test of the as-written check. */
  lemma VegetableLinePassesLayout()
    ensures !FormatExcludes(VegetableLine, FusedParenthesisedWords)
  {
    VegetableLineKeywords();
    VegetableLineMarks();
    VegetableLineTexts();
  }

  /**
   * The missing comma: with the genus 'Aa' listed, the as-written check
   * takes 'Aa vegetable)' for a possible name although 'vegetable)' is one
   * of the keywords meant to rule a line out.
   */
  lemma FusedKeywordLetsVegetableThrough()
    ensures !NotPossibleNameAsWritten(VegetableLine, ["Aa"])
  {
    VegetableLinePassesLayout();
    var rest := " vegetable)";
    assert VegetableLine == "Aa" + rest;
    SplitWsLeadingToken("Aa", rest);
    assert ["Aa"][0] in SplitWs(VegetableLine);
  }

  /** With the list as intended, any line with '(vegetable' or 'vegetable)' is ruled out, whatever the genus list. */
  lemma VegetableRuledOut(line: string, genera: seq<string>)
    requires Contains(line, "(vegetable") || Contains(line, "vegetable)")
    ensures NotPossibleName(line, genera)
  {
    assert ParenthesisedWords[14] == "vegetable";
    assert "(" + ParenthesisedWords[14] == "(vegetable" && ParenthesisedWords[14] + ")" == "vegetable)";
    var i :| 0 <= i <= |line| - 10 && (ContainsAt(line, "(vegetable", i) || ContainsAt(line, "vegetable)", i));
    assert |line| > 0;
    assert P.HasParenthesised(line, ParenthesisedWords);
  }

  /** `compress_lines_into_categories(lines, genus_list)`. */
  method CompressLinesIntoCategories(ls: seq<string>, genera: seq<string>) returns (out: seq<string>)
    ensures out == P.Compressed(ls, P.HasCategoryTag, P.CategoryFollower(NameTest(genera)))
    ensures forall j :: 0 <= j < |out| ==> !P.IsBlank(out[j])
  {
    out := P.CompressLinesIntoCategories(ls, NameTest(genera));
  }

  /** `retrieve_name_from_property_line(idx, lines, genus_list)`. */
  method RetrieveNameFromPropertyLine(idx: nat, ls: seq<string>, genera: seq<string>) returns (r: Result<string>)
    ensures r == P.Retrieve(ls, idx, NameTest(genera))
    ensures r.Ok? ==> r.value in ls && !NotPossibleName(r.value, genera)
  {
    r := P.RetrieveNameFromPropertyLine(idx, ls, NameTest(genera));
    if r.Ok? {
      P.RetrievedIsName(ls, idx, NameTest(genera), 1);
    }
  }

  /** The ValueError the argument checks raise, if any. */
  function ArgumentError(category: string, property: Option<string>): Option<string>
  {
    if property.None? && category != "CN" then Some("ValueError: Need to provide property for category: " + category)
    else if category == "CN" && property.Some? then Some("ValueError: Cant provide property for category: " + category)
    else None
  }

  /** The arguments pass exactly when a property is given for every category but 'CN', and for 'CN' none is. */
  lemma ArgumentsAccepted(category: string, property: Option<string>)
    ensures ArgumentError(category, property).None? <==> (property.Some? <==> category != "CN")
  {
  }

  /** The selection test of the loop: property and tag, or for 'CN' the tag alone. */
  function Selected(category: string, property: Option<string>): string -> bool
  {
    (line: string) =>
      if property.Some? then Contains(line, property.value) && Contains(line, category + ":")
      else category == "CN" && Contains(line, category + ":")
  }

  /** `get_scientific_names_from_property` up to the accepted-name lookup. */
  function CatalogNames(allText: string, genera: seq<string>, category: string, property: Option<string>): Result<seq<string>>
  {
    match ArgumentError(category, property)
    case Some(e) => Err(e)
    case None =>
      match P.EconLines(allText)
      case Err(e) => Err(e)
      case Ok(split) =>
        var ls := P.Compressed(split, P.HasCategoryTag, P.CategoryFollower(NameTest(genera)));
        P.NamesFor(ls, Selected(category, property), NameTest(genera), |ls|)
  }

  /**
   * Bad arguments are refused before the text is read; otherwise there is
   * one name per selected compressed line, each a line that can be a name.
   */
  lemma CatalogNamesMeaning(allText: string, genera: seq<string>, category: string, property: Option<string>)
    ensures ArgumentError(category, property).Some? ==>
      CatalogNames(allText, genera, category, property) == Err(ArgumentError(category, property).value)
    ensures CatalogNames(allText, genera, category, property).Ok? ==>
      var ls := P.Compressed(P.EconLines(allText).value, P.HasCategoryTag, P.CategoryFollower(NameTest(genera)));
      var names := CatalogNames(allText, genera, category, property).value;
      |names| == |Filter(ls, Selected(category, property))| &&
      forall j :: 0 <= j < |names| ==> names[j] in ls && !NotPossibleName(names[j], genera)
  {
    if CatalogNames(allText, genera, category, property).Ok? {
      var ls := P.Compressed(P.EconLines(allText).value, P.HasCategoryTag, P.CategoryFollower(NameTest(genera)));
      P.NamesForMeaning(ls, Selected(category, property), NameTest(genera), |ls|);
      assert ls[..|ls|] == ls;
    }
  }

  /** For 'CN' the selected lines are exactly those with 'CN:'. */
  lemma CommonNameSelection(line: string)
    ensures Selected("CN", None)(line) <==> Contains(line, "CN:")
  {
    assert "CN" + ":" == "CN:";
  }

  /** `get_scientific_names_from_property`: argument checks, compression, then the selection loop. */
  method GetScientificNamesFromProperty(allText: string, genera: seq<string>, category: string, property: Option<string>)
    returns (r: Result<seq<string>>)
    ensures r == CatalogNames(allText, genera, category, property)
  {
    var bad := ArgumentError(category, property);
    if bad.Some? {
      return Err(bad.value);
    }
    var split := P.EconLines(allText);
    if split.Err? {
      return Err(split.error);
    }
    var ls := CompressLinesIntoCategories(split.value, genera);
    r := P.SelectNames(ls, Selected(category, property), NameTest(genera));
  }

  /** `poisons_from_wiersema`: the plants listed with 'Poison' under ECON. */
  method PoisonsFromCatalog(allText: string, genera: seq<string>) returns (r: Result<seq<string>>)
    ensures r == CatalogNames(allText, genera, "ECON", Some("Poison"))
    ensures r.Ok? ==> forall j :: 0 <= j < |r.value| ==> !NotPossibleName(r.value[j], genera)
  {
    r := GetScientificNamesFromProperty(allText, genera, "ECON", Some("Poison"));
    CatalogNamesMeaning(allText, genera, "ECON", Some("Poison"));
  }

  /** `get_traditional_medicines_from_wiersema`: the plants listed with 'Medic. (folklore)' under ECON. */
  method TraditionalMedicinesFromCatalog(allText: string, genera: seq<string>) returns (r: Result<seq<string>>)
    ensures r == CatalogNames(allText, genera, "ECON", Some("Medic. (folklore)"))
    ensures r.Ok? ==> forall j :: 0 <= j < |r.value| ==> !NotPossibleName(r.value[j], genera)
  {
    r := GetScientificNamesFromProperty(allText, genera, "ECON", Some("Medic. (folklore)"));
    CatalogNamesMeaning(allText, genera, "ECON", Some("Medic. (folklore)"));
  }

  /** `get_commonnames_from_catalog`: the plants with a 'CN:' line. */
  method CommonNamesFromCatalog(allText: string, genera: seq<string>) returns (r: Result<seq<string>>)
    ensures r == CatalogNames(allText, genera, "CN", None)
    ensures r.Ok? ==> forall j :: 0 <= j < |r.value| ==> !NotPossibleName(r.value[j], genera)
  {
    r := GetScientificNamesFromProperty(allText, genera, "CN", None);
    CatalogNamesMeaning(allText, genera, "CN", None);
  }
}
