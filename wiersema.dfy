/**
 * The World Economic Plants book parser (read_pdfs/parse_wiersema.py): the
 * name test for the book's lines, the category compression and backward
 * search built on it, and the property selection behind the poison and
 * folk-medicine lists.  The PDF extraction is left out: the book's text and
 * its pages arrive as strings.
 */
module Wiersema {
  import opened Base
  import opened Strs
  import P = PdfLines

  const ParenthesisedWords: seq<string> :=
    ["fiber", "wood", "sugar", "ornamental", "shade/shelter", "seed contam.", "folklore", "mammals", "vegetable"]

  /**
   * `not_possible_name_check`: a line cannot be a scientific name when it
   * has a ':', has no '.', carries a category tag, has a '[' or a bracketed
   * keyword.
   */
  predicate NotPossibleName(line: string)
  {
    Contains(line, ":") || !Contains(line, ".") || P.HasCategoryTag(line) || Contains(line, "[")
      || P.HasParenthesised(line, ParenthesisedWords)
  }

  /** A tagged line always has a ':', so the tag test never decides on its own. */
  lemma CategoryTagHasColon(line: string)
    requires P.HasCategoryTag(line)
    ensures Contains(line, ":")
  {
    var c :| 0 <= c < |P.Categories| && Contains(line, P.Categories[c] + ":");
    var p :| 0 <= p <= |line| - |P.Categories[c] + ":"| && ContainsAt(line, P.Categories[c] + ":", p);
    var q := p + |P.Categories[c]|;
    assert line[q] == (P.Categories[c] + ":")[|P.Categories[c]|];
    assert ContainsAt(line, ":", q);
  }

  /** A line that can be a name has a '.' and no ':', so a tagged line never is one. */
  lemma PossibleNameShape(line: string)
    requires !NotPossibleName(line)
    ensures Contains(line, ".") && !Contains(line, ":") && !P.HasCategoryTag(line)
  {
    if P.HasCategoryTag(line) {
      CategoryTagHasColon(line);
    }
  }

  /** `compress_lines_into_categories` with the book's name test. */
  method CompressLinesIntoCategories(ls: seq<string>) returns (out: seq<string>)
    ensures out == P.Compressed(ls, P.HasCategoryTag, P.CategoryFollower(NotPossibleName))
    ensures forall j :: 0 <= j < |out| ==> !P.IsBlank(out[j])
  {
    out := P.CompressLinesIntoCategories(ls, NotPossibleName);
  }

  /** `retrieve_name_from_property_line` with the book's name test. */
  method RetrieveNameFromPropertyLine(idx: nat, ls: seq<string>) returns (r: Result<string>)
    ensures r == P.Retrieve(ls, idx, NotPossibleName)
    ensures r.Ok? ==> r.value in ls && !NotPossibleName(r.value)
  {
    r := P.RetrieveNameFromPropertyLine(idx, ls, NotPossibleName);
    if r.Ok? {
      P.RetrievedIsName(ls, idx, NotPossibleName, 1);
    }
  }

  /** `property in line and category + ':' in line`. */
  function Selected(category: string, property: string): string -> bool
  {
    (line: string) => Contains(line, property) && Contains(line, category + ":")
  }

  /** The names `get_scientific_names_from_property` collects from the book's text. */
  function NamesWithProperty(allText: string, category: string, property: string): Result<seq<string>>
  {
    match P.EconLines(allText)
    case Err(e) => Err(e)
    case Ok(split) =>
      var ls := P.Compressed(split, P.HasCategoryTag, P.CategoryFollower(NotPossibleName));
      P.NamesFor(ls, Selected(category, property), NotPossibleName, |ls|)
  }

  /**
   * Without both intros the text is rejected; otherwise there is one name
   * per compressed line that mentions the property under the category, and
   * each name is a line that can be a name.
   */
  lemma NamesWithPropertyMeaning(allText: string, category: string, property: string)
    ensures NamesWithProperty(allText, category, property).Err? <==>
      (!Contains(allText, P.CommonNamesIntro) || !Contains(allText, P.EconIntro)
        || (var ls := P.Compressed(P.EconLines(allText).value, P.HasCategoryTag, P.CategoryFollower(NotPossibleName));
            P.NamesFor(ls, Selected(category, property), NotPossibleName, |ls|).Err?))
    ensures NamesWithProperty(allText, category, property).Ok? ==>
      var ls := P.Compressed(P.EconLines(allText).value, P.HasCategoryTag, P.CategoryFollower(NotPossibleName));
      var names := NamesWithProperty(allText, category, property).value;
      |names| == |Filter(ls, Selected(category, property))| &&
      forall j :: 0 <= j < |names| ==> names[j] in ls && !NotPossibleName(names[j])
  {
    if NamesWithProperty(allText, category, property).Ok? {
      var ls := P.Compressed(P.EconLines(allText).value, P.HasCategoryTag, P.CategoryFollower(NotPossibleName));
      P.NamesForMeaning(ls, Selected(category, property), NotPossibleName, |ls|);
      assert ls[..|ls|] == ls;
    }
  }

  /** `get_scientific_names_from_property`: compress the econ section, then trace each selected line to its name. */
  method GetScientificNamesFromProperty(allText: string, category: string, property: string)
    returns (r: Result<seq<string>>)
    ensures r == NamesWithProperty(allText, category, property)
  {
    var split := P.EconLines(allText);
    if split.Err? {
      return Err(split.error);
    }
    var ls := CompressLinesIntoCategories(split.value);
    r := P.SelectNames(ls, Selected(category, property), NotPossibleName);
  }

  /** `poisons_from_wiersema`: the plants listed with 'Poison' under ECON. */
  method PoisonsFromWiersema(allText: string) returns (r: Result<seq<string>>)
    ensures r == NamesWithProperty(allText, "ECON", "Poison")
    ensures r.Ok? ==> forall j :: 0 <= j < |r.value| ==> !NotPossibleName(r.value[j])
  {
    r := GetScientificNamesFromProperty(allText, "ECON", "Poison");
    NamesWithPropertyMeaning(allText, "ECON", "Poison");
  }

  /** `get_traditional_medicines_from_wiersema`: the plants listed with 'Medic. (folklore)' under ECON. */
  method TraditionalMedicinesFromWiersema(allText: string) returns (r: Result<seq<string>>)
    ensures r == NamesWithProperty(allText, "ECON", "Medic. (folklore)")
    ensures r.Ok? ==> forall j :: 0 <= j < |r.value| ==> !NotPossibleName(r.value[j])
  {
    r := GetScientificNamesFromProperty(allText, "ECON", "Medic. (folklore)");
    NamesWithPropertyMeaning(allText, "ECON", "Medic. (folklore)");
  }

  /** `common_names_from_wiersema` on the page texts, up to writing the CSV. */
  method CommonNamesFromWiersema(pages: seq<string>) returns (rows: seq<seq<Cell>>)
    ensures rows == P.WepTable(P.PairsUpTo(pages, |pages|))
    ensures |rows| <= |P.PairsUpTo(pages, |pages|)|
  {
    rows := P.CommonNamesTable(pages);
  }
}
