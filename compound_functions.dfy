/**
 * Generic compound helpers (metabolite_properties/generic_compound_functions.py):
 * shortening an InChIKey to its connectivity layer, and splitting a table of
 * compounds into the rows that mention a keyword, the rows whose inspected
 * cells are all blank, and the rest.
 */
module CompoundFunctions {
  import opened Base
  import opened Strs
  import opened Frames

  /** Length of the connectivity layer of an InChIKey. */
  const ConnectivityLength := 14

  /** `simplify_inchi_key`: a missing key stays missing; a present one keeps its first 14 characters. */
  function SimplifyInchiKey(inch: Cell): (r: Cell)
    ensures inch.None? <==> r.None?
    ensures inch.Some? ==> r.value <= inch.value
    ensures inch.Some? && |inch.value| <= ConnectivityLength ==> r == inch
    ensures inch.Some? && |inch.value| > ConnectivityLength ==> |r.value| == ConnectivityLength
  {
    match inch
    case None => None
    case Some(s) =>
      assert |s| <= ConnectivityLength ==> s[0..|s|] == s;
      Some(PySlice(s, 0, ConnectivityLength))
  }

  /** Simplifying twice is simplifying once. */
  lemma SimplifyInchiKeyIdempotent(inch: Cell)
    ensures SimplifyInchiKey(SimplifyInchiKey(inch)) == SimplifyInchiKey(inch)
  {
  }

  /** Two keys simplify to the same value exactly when they share their connectivity layer. */
  lemma SimplifyInchiKeySameLayer(a: string, b: string)
    requires |a| >= ConnectivityLength && |b| >= ConnectivityLength
    ensures SimplifyInchiKey(Some(a)) == SimplifyInchiKey(Some(b)) <==> a[..ConnectivityLength] == b[..ConnectivityLength]
  {
  }

  // ---- three-way split on a keyword ----

  /** Where a row goes: the keyword output, the negative output, or the blank output. */
  datatype Bin = Hit | Negative | Blank

  /** `keyword in str(row[col]).lower()` for some inspected column. */
  predicate MentionsKeyword(cols: seq<string>, row: seq<Cell>, names: seq<string>, keyword: string)
  {
    exists k :: 0 <= k < |names| && Contains(Lower(PyStr(Value(cols, row, names[k]))), keyword)
  }

  /** A cell that prints as '' or 'nan', or is missing. */
  predicate BlankCell(c: Cell)
  {
    PyStr(c) == "" || PyStr(c) == "nan" || c.None?
  }

  predicate AllBlank(cols: seq<string>, row: seq<Cell>, names: seq<string>)
  {
    forall k :: 0 <= k < |names| ==> BlankCell(Value(cols, row, names[k]))
  }

  /** The branch of the loop body a row takes. */
  function Classify(cols: seq<string>, row: seq<Cell>, names: seq<string>, keyword: string): Bin
  {
    if MentionsKeyword(cols, row, names, keyword) then Hit
    else if AllBlank(cols, row, names) then Blank
    else Negative
  }

  /** The classification as a value, so that proofs about the bins need not unfold it. */
  function Classifier(cols: seq<string>, names: seq<string>, keyword: string): seq<Cell> -> Bin
  {
    (row: seq<Cell>) => Classify(cols, row, names, keyword)
  }

  function InBin(cls: seq<Cell> -> Bin, b: Bin): seq<Cell> -> bool
  {
    (row: seq<Cell>) => cls(row) == b
  }

  /**
   * The frame `pd.concat` builds from an initially column-less `pd.DataFrame()`
   * and the selected rows: no columns at all when no row was selected.
   */
  function Stacked(cols: seq<string>, rows: seq<seq<Cell>>): (g: Frame)
    ensures g.rows == rows
    ensures |rows| > 0 ==> g.cols == cols
  {
    if |rows| == 0 then Frame([], []) else Frame(cols, rows)
  }

  /** The rows of one bin, in their original order. */
  function BinRows(f: Frame, names: seq<string>, keyword: string, b: Bin): seq<seq<Cell>>
  {
    Filter(f.rows, InBin(Classifier(f.cols, names, keyword), b))
  }

  /** The three outputs the loop accumulates over `rows`: each row appended to the output of its class. */
  function Bins(rows: seq<seq<Cell>>, cls: seq<Cell> -> Bin): (r: (seq<seq<Cell>>, seq<seq<Cell>>, seq<seq<Cell>>))
    ensures |r.0| + |r.1| + |r.2| == |rows|
  {
    if |rows| == 0 then ([], [], [])
    else
      var p := Bins(rows[..|rows| - 1], cls);
      var row := rows[|rows| - 1];
      match cls(row)
      case Hit => (p.0 + [row], p.1, p.2)
      case Negative => (p.0, p.1 + [row], p.2)
      case Blank => (p.0, p.1, p.2 + [row])
  }

  /** The output of bin b among the three. */
  function Part(t: (seq<seq<Cell>>, seq<seq<Cell>>, seq<seq<Cell>>), b: Bin): seq<seq<Cell>>
  {
    match b
    case Hit => t.0
    case Negative => t.1
    case Blank => t.2
  }

  /** Each accumulated output is the selection of the rows of its class, in order. */
  lemma {:induction false} BinsAreSelections(rows: seq<seq<Cell>>, cls: seq<Cell> -> Bin, b: Bin)
    ensures Part(Bins(rows, cls), b) == Filter(rows, InBin(cls, b))
  {
    if |rows| > 0 {
      var n := |rows| - 1;
      BinsAreSelections(rows[..n], cls, b);
      assert rows == rows[..n] + [rows[n]];
      FilterAppend(rows[..n], [rows[n]], InBin(cls, b));
    }
  }

  /** Every inspected column exists. */
  predicate HasColumns(f: Frame, names: seq<string>)
  {
    forall c :: c in names ==> c in f.cols
  }

  /** `keyword in str(row[col]).lower()` for one column. */
  predicate CellMentions(cols: seq<string>, row: seq<Cell>, name: string, keyword: string)
  {
    Contains(Lower(PyStr(Value(cols, row, name))), keyword)
  }

  /**
   * The `any(...)` test of the loop body, evaluated as Python does: the
   * columns are read in order until one mentions the keyword, and reading
   * an absent column raises KeyError. When it does not raise, every column
   * it has read is present, and once `any` is False the `all(...)` test
   * reads only present columns, so this is the only place the row raises.
   */
  function AnyMentions(cols: seq<string>, row: seq<Cell>, names: seq<string>, keyword: string): Result<bool>
  {
    if |names| == 0 then Ok(false)
    else if names[0] !in cols then Err("KeyError: " + names[0])
    else if CellMentions(cols, row, names[0], keyword) then Ok(true)
    else AnyMentions(cols, row, names[1..], keyword)
  }

  /**
   * Reading names in order reaches the absent column names[k]: every
   * column before it is present and does not mention the keyword.
   */
  predicate ReachesAbsent(cols: seq<string>, row: seq<Cell>, names: seq<string>, keyword: string, k: int)
  {
    0 <= k < |names| && names[k] !in cols
    && forall j :: 0 <= j < k ==> names[j] in cols && !CellMentions(cols, row, names[j], keyword)
  }

  /**
   * A row raises exactly when reading reaches an absent column; a row that
   * does not raise takes the branch Classify gives, and with every column
   * present no row raises.
   */
  lemma {:induction false} AnyMentionsMeaning(cols: seq<string>, row: seq<Cell>, names: seq<string>, keyword: string)
    ensures AnyMentions(cols, row, names, keyword).Err? <==> exists k :: ReachesAbsent(cols, row, names, keyword, k)
    ensures AnyMentions(cols, row, names, keyword).Ok? ==>
      AnyMentions(cols, row, names, keyword).value == MentionsKeyword(cols, row, names, keyword)
    ensures (forall c :: c in names ==> c in cols) ==> AnyMentions(cols, row, names, keyword).Ok?
  {
    if |names| > 0 {
      var t := names[1..];
      AnyMentionsMeaning(cols, row, t, keyword);
      if names[0] !in cols {
        assert ReachesAbsent(cols, row, names, keyword, 0);
      } else if CellMentions(cols, row, names[0], keyword) {
        assert Contains(Lower(PyStr(Value(cols, row, names[0]))), keyword);
      } else {
        ShiftedReach(cols, row, names, keyword);
        MentionsShifted(cols, row, names, keyword);
      }
    }
  }

  /** Past a present column without the keyword, reading names reaches an absent column exactly when reading names[1..] does. */
  lemma ShiftedReach(cols: seq<string>, row: seq<Cell>, names: seq<string>, keyword: string)
    requires |names| > 0 && names[0] in cols && !CellMentions(cols, row, names[0], keyword)
    ensures (exists k :: ReachesAbsent(cols, row, names, keyword, k)) <==> exists k :: ReachesAbsent(cols, row, names[1..], keyword, k)
  {
    var t := names[1..];
    if k :| ReachesAbsent(cols, row, names, keyword, k) {
      assert k > 0;
      assert forall j :: 0 <= j < k - 1 ==> t[j] == names[j + 1];
      assert ReachesAbsent(cols, row, t, keyword, k - 1);
    }
    if k :| ReachesAbsent(cols, row, t, keyword, k) {
      forall j | 0 <= j < k + 1 ensures names[j] in cols && !CellMentions(cols, row, names[j], keyword) {
        if j > 0 {
          assert names[j] == t[j - 1];
        }
      }
      assert ReachesAbsent(cols, row, names, keyword, k + 1);
    }
  }

  /** Past a column without the keyword, names mentions it exactly when names[1..] does. */
  lemma MentionsShifted(cols: seq<string>, row: seq<Cell>, names: seq<string>, keyword: string)
    requires |names| > 0 && !CellMentions(cols, row, names[0], keyword)
    ensures MentionsKeyword(cols, row, names, keyword) <==> MentionsKeyword(cols, row, names[1..], keyword)
  {
    var t := names[1..];
    if MentionsKeyword(cols, row, names, keyword) {
      var k :| 0 <= k < |names| && Contains(Lower(PyStr(Value(cols, row, names[k]))), keyword);
      assert k > 0;
      assert t[k - 1] == names[k];
    }
    if MentionsKeyword(cols, row, t, keyword) {
      var k :| 0 <= k < |t| && Contains(Lower(PyStr(Value(cols, row, t[k]))), keyword);
      assert names[k + 1] == t[k];
    }
  }

  predicate RowRaises(cols: seq<string>, row: seq<Cell>, names: seq<string>, keyword: string)
  {
    AnyMentions(cols, row, names, keyword).Err?
  }

  /** No row before row i raises. */
  predicate NoneRaiseBefore(df: Frame, names: seq<string>, keyword: string, i: int)
  {
    forall j :: 0 <= j < i && j < |df.rows| ==> !RowRaises(df.cols, df.rows[j], names, keyword)
  }

  /** Row i is the first row that raises. */
  predicate FirstRaising(df: Frame, names: seq<string>, keyword: string, i: int)
  {
    0 <= i < |df.rows| && RowRaises(df.cols, df.rows[i], names, keyword) && NoneRaiseBefore(df, names, keyword, i)
  }

  lemma NoneRaiseStep(df: Frame, names: seq<string>, keyword: string, i: nat)
    requires i < |df.rows| && NoneRaiseBefore(df, names, keyword, i) && !RowRaises(df.cols, df.rows[i], names, keyword)
    ensures NoneRaiseBefore(df, names, keyword, i + 1)
  {
  }

  /**
   * `filter_rows_containing_compound_keyword` on a frame with the default
   * index: the loop over the rows appends each to the output of its branch,
   * and the first row that reads an absent column raises its KeyError.
   */
  method FilterRowsContainingKeyword(df: Frame, names: seq<string>, keyword: string)
    returns (r: Result<(Frame, Frame, Frame)>)
    requires WellFormed(df)
    ensures r.Err? <==> exists i :: 0 <= i < |df.rows| && RowRaises(df.cols, df.rows[i], names, keyword)
    ensures r.Err? ==> exists i :: FirstRaising(df, names, keyword, i) && r.error == AnyMentions(df.cols, df.rows[i], names, keyword).error
    ensures r.Ok? ==> r.value.0 == Stacked(df.cols, BinRows(df, names, keyword, Hit))
    ensures r.Ok? ==> r.value.1 == Stacked(df.cols, BinRows(df, names, keyword, Negative))
    ensures r.Ok? ==> r.value.2 == Stacked(df.cols, BinRows(df, names, keyword, Blank))
    ensures r.Ok? ==> |r.value.0.rows| + |r.value.1.rows| + |r.value.2.rows| == |df.rows|
  {
    var cls := Classifier(df.cols, names, keyword);
    var h: seq<seq<Cell>> := [];
    var n: seq<seq<Cell>> := [];
    var e: seq<seq<Cell>> := [];
    for i := 0 to |df.rows|
      invariant (h, n, e) == Bins(df.rows[..i], cls)
      invariant NoneRaiseBefore(df, names, keyword, i)
    {
      var test := AnyMentions(df.cols, df.rows[i], names, keyword);
      if test.Err? {
        assert FirstRaising(df, names, keyword, i);
        return Err(test.error);
      }
      NoneRaiseStep(df, names, keyword, i);
      h, n, e := AppendToBin(df.rows, i, cls, h, n, e);
    }
    assert df.rows[..|df.rows|] == df.rows;
    assert NoneRaiseBefore(df, names, keyword, |df.rows|);
    BinsAreSelections(df.rows, cls, Hit);
    BinsAreSelections(df.rows, cls, Negative);
    BinsAreSelections(df.rows, cls, Blank);
    r := Ok((Stacked(df.cols, h), Stacked(df.cols, n), Stacked(df.cols, e)));
  }

  /**
   * Inspecting 'name' then the absent 'class': a row whose name mentions
   * the keyword stops before 'class', one whose name does not raises.
   */
  lemma AnyMentionsShortCircuits()
    ensures AnyMentions(["name"], [Some("alkaloid")], ["name", "class"], "alkaloid") == Ok(true)
    ensures AnyMentions(["name"], [Some("sugar")], ["name", "class"], "alkaloid") == Err("KeyError: class")
  {
    assert ContainsAt(Lower("alkaloid"), "alkaloid", 0);
    assert Value(["name"], [Some("alkaloid")], "name") == Some("alkaloid");
    assert Value(["name"], [Some("sugar")], "name") == Some("sugar");
    assert !Contains(Lower("sugar"), "alkaloid");
    assert ["name", "class"][1..] == ["class"];
  }

  /** With every inspected column present the split never raises (the empty frame never does either). */
  lemma FilterRowsNeverRaise(df: Frame, names: seq<string>, keyword: string)
    requires HasColumns(df, names) || |df.rows| == 0
    ensures forall i :: 0 <= i < |df.rows| ==> !RowRaises(df.cols, df.rows[i], names, keyword)
  {
    forall i | 0 <= i < |df.rows| ensures !RowRaises(df.cols, df.rows[i], names, keyword) {
      AnyMentionsMeaning(df.cols, df.rows[i], names, keyword);
    }
  }

  /** The loop body for row i: the row goes to the output of its class. */
  method AppendToBin(rows: seq<seq<Cell>>, i: nat, cls: seq<Cell> -> Bin, h: seq<seq<Cell>>, n: seq<seq<Cell>>, e: seq<seq<Cell>>)
    returns (h': seq<seq<Cell>>, n': seq<seq<Cell>>, e': seq<seq<Cell>>)
    requires i < |rows| && (h, n, e) == Bins(rows[..i], cls)
    ensures (h', n', e') == Bins(rows[..i + 1], cls)
  {
    var row := rows[i];
    assert rows[..i + 1][..i] == rows[..i];
    h', n', e' := h, n, e;
    match cls(row) {
      case Hit => h' := h + [row];
      case Blank => e' := e + [row];
      case Negative => n' := n + [row];
    }
  }

  /** A row in the keyword output mentions the keyword; one in the blank output has only blank cells. */
  lemma BinMeaning(df: Frame, names: seq<string>, keyword: string, i: nat)
    ensures i < |BinRows(df, names, keyword, Hit)| ==> MentionsKeyword(df.cols, BinRows(df, names, keyword, Hit)[i], names, keyword)
    ensures i < |BinRows(df, names, keyword, Blank)| ==> AllBlank(df.cols, BinRows(df, names, keyword, Blank)[i], names)
    ensures i < |BinRows(df, names, keyword, Negative)| ==>
      var row := BinRows(df, names, keyword, Negative)[i];
      !MentionsKeyword(df.cols, row, names, keyword) && !AllBlank(df.cols, row, names)
  {
  }

  // ---- the loop as written: `df.iloc[[index]]` with the row's label ----

  /**
   * The rows the loop appends when the frame's index labels are `labels`:
   * the row is classified from `iterrows`, but the row appended is
   * `df.iloc[[label]]`, the row at POSITION label (IndexError when out of range).
   */
  function AsWrittenBins(f: Frame, labels: seq<int>, n: nat, cls: seq<Cell> -> Bin)
    : (r: Result<(seq<seq<Cell>>, seq<seq<Cell>>, seq<seq<Cell>>)>)
    requires n <= |f.rows| && |labels| == |f.rows|
    ensures r.Ok? ==> |r.value.0| + |r.value.1| + |r.value.2| == n
  {
    if n == 0 then Ok(([], [], []))
    else
      match AsWrittenBins(f, labels, n - 1, cls)
      case Err(e) => Err(e)
      case Ok(prev) =>
        var lab := labels[n - 1];
        if !(-|f.rows| <= lab < |f.rows|) then Err("IndexError: positional indexers are out-of-bounds")
        else
          var picked := f.rows[PyIndex(lab, |f.rows|)];
          match cls(f.rows[n - 1])
          case Hit => Ok((prev.0 + [picked], prev.1, prev.2))
          case Negative => Ok((prev.0, prev.1 + [picked], prev.2))
          case Blank => Ok((prev.0, prev.1, prev.2 + [picked]))
  }

  /** With the default index 0, 1, ..., n-1 the code as written puts each row in its own bin. */
  lemma {:induction false} AsWrittenOnDefaultIndex(f: Frame, cls: seq<Cell> -> Bin, n: nat)
    requires n <= |f.rows|
    ensures AsWrittenBins(f, seq(|f.rows|, k => k), n, cls) == Ok(Bins(f.rows[..n], cls))
  {
    if n > 0 {
      AsWrittenOnDefaultIndex(f, cls, n - 1);
      assert f.rows[..n][..n - 1] == f.rows[..n - 1];
      assert seq(|f.rows|, k => k)[n - 1] == n - 1;
    }
  }

  /**
   * A frame whose index was reordered (labels 1, 0): the row mentioning the
   * keyword is classified as a hit, but the row appended to the keyword
   * output is the other one, which does not mention it.
   */
  lemma AsWrittenMisplacesRows()
    ensures var f := Frame(["name"], [[Some("alkaloid")], [Some("sugar")]]);
      var r := AsWrittenBins(f, [1, 0], 2, Classifier(f.cols, ["name"], "alkaloid"));
      r.Ok? && |r.value.0| == 1 && !MentionsKeyword(f.cols, r.value.0[0], ["name"], "alkaloid")
  {
    var f := Frame(["name"], [[Some("alkaloid")], [Some("sugar")]]);
    assert ContainsAt(Lower("alkaloid"), "alkaloid", 0);
    assert MentionsKeyword(f.cols, f.rows[0], ["name"], "alkaloid") by {
      assert Value(f.cols, f.rows[0], "name") == Some("alkaloid");
      assert Contains(Lower(PyStr(Value(f.cols, f.rows[0], ["name"][0]))), "alkaloid");
    }
    assert !MentionsKeyword(f.cols, f.rows[1], ["name"], "alkaloid") by {
      assert Value(f.cols, f.rows[1], "name") == Some("sugar");
    }
    assert !AllBlank(f.cols, f.rows[0], ["name"]) by {
      assert !BlankCell(Value(f.cols, f.rows[0], ["name"][1 - 1]));
    }
    assert !AllBlank(f.cols, f.rows[1], ["name"]) by {
      assert !BlankCell(Value(f.cols, f.rows[1], ["name"][1 - 1]));
    }
  }
}
