/**
 * The common-name index parser (read_wep/parse_common_name_index.py).  It
 * repeats the book parser's line compression and page loop; here they are
 * the shared ones, so the index parser inherits their proofs.  The page
 * texts arrive as strings and the accepted-name lookup at the end is not
 * part of this model.
 */
module CommonNameIndex {
  import opened Base
  import opened Strs
  import P = PdfLines

  /** `compress_lines_into_names`: the shared compression, whose output has no blank line. */
  method CompressLinesIntoNames(ls: seq<string>) returns (out: seq<string>)
    ensures out == P.Compressed(ls, P.HasDash, P.NoDash)
    ensures forall j :: 0 <= j < |out| ==> !P.IsBlank(out[j])
  {
    out := P.CompressLinesIntoNames(ls);
  }

  /** The split of one line: a pair only for a line with " -", from the right-hand side on right-to-left pages. */
  lemma IndexLineSplit(line: string, rtl: bool)
    ensures P.SplitNameLine(line, rtl).Some? <==> P.HasDash(line)
    ensures P.HasDash(line) && rtl ==>
      P.SplitNameLine(line, rtl).value.name == PySlice(line, 1, FirstIndex(line, P.Dash))
    ensures P.HasDash(line) && !rtl ==>
      P.SplitNameLine(line, rtl).value.common == PySlice(line, 0, FirstIndex(line, P.Dash))
  {
  }

  /**
   * `common_names_from_index` up to the accepted-name lookup: one row per
   * scientific name, holding all its common names.
   */
  method CommonNamesFromIndex(pages: seq<string>) returns (rows: seq<seq<Cell>>)
    ensures rows == P.WepTable(P.PairsUpTo(pages, |pages|))
    ensures forall r1, r2 :: 0 <= r1 < r2 < |rows| ==> rows[r1][0] != rows[r2][0]
  {
    rows := P.CommonNamesTable(pages);
    forall r1, r2 | 0 <= r1 < r2 < |rows| ensures rows[r1][0] != rows[r2][0] {
      P.WepTableDistinct(P.PairsUpTo(pages, |pages|), r1, r2);
    }
  }
}
