/**
 * Alkaloid classes from a manually curated table
 * (metabolite_properties/manual_alkaloid_classes.py).  Metabolite names are
 * normalised (lower case, stripped, stereo-descriptor prefixes removed); the
 * table maps each normalised alkaloid to the ';'-joined distinct classes
 * recorded for it, and a metabolite table gains the class of each row.
 */
module ManualAlkaloidClasses {
  import opened Base
  import opened Strs
  import opened Frames

  const CleanedColumn := "cleaned_metabolite_col"
  const ClassOutputColumn := "alkaloid_classes"

  /** `clean_metabolite_col`: lower, strip, then delete '(-)-', '(+)-' and '(+/-)-'. */
  function CleanMetaboliteName(s: string): (r: string)
    ensures NoUpper(r) && |r| <= |s|
  {
    var t := Strip(Lower(s));
    StrippedLowerHasNoUpper(s);
    DeleteDescriptorsKeepsChars(t);
    DeleteDescriptors(t)
  }

  /** The three `replace(..., '')` calls. */
  function DeleteDescriptors(t: string): string
  {
    ReplaceAll(ReplaceAll(ReplaceAll(t, "(-)-", ""), "(+)-", ""), "(+/-)-", "")
  }

  lemma DeleteDescriptorsKeepsChars(t: string)
    requires NoUpper(t)
    ensures NoUpper(DeleteDescriptors(t)) && |DeleteDescriptors(t)| <= |t|
  {
    var a := ReplaceAll(t, "(-)-", "");
    var b := ReplaceAll(a, "(+)-", "");
    var r := ReplaceAll(b, "(+/-)-", "");
    ReplaceAllDeletes(t, "(-)-");
    ReplaceAllDeletes(a, "(+)-");
    ReplaceAllDeletes(b, "(+/-)-");
    forall i | 0 <= i < |r| ensures !IsUpperChar(r[i]) {
      assert r[i] in r;
      var k :| 0 <= k < |t| && t[k] == r[i];
    }
    ReplaceAllLength(t, "(-)-");
    ReplaceAllLength(a, "(+)-");
    ReplaceAllLength(b, "(+/-)-");
  }

  /** Lower-casing and stripping leave a text without capitals or surrounding space as it is. */
  lemma NormalFormKept(s: string)
    requires NoUpper(s)
    requires |s| > 0 ==> !IsSpace(s[0]) && !IsSpace(s[|s| - 1])
    ensures Strip(Lower(s)) == s
  {
    LowerOfLower(s);
    assert StripLeft(s) == s;
    assert StripRight(s) == s;
  }

  lemma AbsentPattern(s: string, pat: string)
    requires |pat| > 0 && pat[0] == '(' && '(' !in s
    ensures ReplaceAll(s, pat, "") == s
  {
    if Contains(s, pat) {
      ContainsFirstChar(s, pat);
    }
    ReplaceAllAbsent(s, pat, "");
  }

  lemma DeleteDescriptorsWithoutParenthesis(s: string)
    requires '(' !in s
    ensures DeleteDescriptors(s) == s
  {
    AbsentPattern(s, "(-)-");
    AbsentPattern(s, "(+)-");
    AbsentPattern(s, "(+/-)-");
  }

  /** A name already in normal form (no capitals, no surrounding space, no parenthesis) is left as it is. */
  lemma CleanKeepsNormalName(s: string)
    requires NoUpper(s) && '(' !in s
    requires |s| > 0 ==> !IsSpace(s[0]) && !IsSpace(s[|s| - 1])
    ensures CleanMetaboliteName(s) == s
  {
    NormalFormKept(s);
    DeleteDescriptorsWithoutParenthesis(s);
  }

  /** Normalisation ignores case: a name and its lower-case form are cleaned alike. */
  lemma CleanIgnoresCase(s: string)
    ensures CleanMetaboliteName(Lower(s)) == CleanMetaboliteName(s)
  {
    LowerIdempotent(s);
  }

  /** A name in normal form with a '(-)-' prefix cleans to the name itself. */
  lemma CleanDropsMinusPrefix(s: string)
    requires NoUpper(s) && '(' !in s && |s| > 0 && !IsSpace(s[|s| - 1])
    ensures CleanMetaboliteName("(-)-" + s) == s
  {
    var m := "(-)-" + s;
    assert m[|m| - 1] == s[|s| - 1];
    NormalFormKept(m);
    assert m[4..] == s;
    assert ReplaceAll(m, "(-)-", "") == ReplaceAll(s, "(-)-", "");
    DeleteDescriptorsWithoutParenthesis(s);
  }

  lemma DeletePlusDescriptor(s: string)
    requires '(' !in s
    ensures DeleteDescriptors("(+)-" + s) == s
  {
    var p := "(+)-" + s;
    AbsentPattern(s, "(-)-");
    assert p == ['('] + (['+'] + ([')'] + (['-'] + s)));
    ReplaceAllSkipsChar('-', s, "(-)-", "");
    ReplaceAllSkipsChar(')', ['-'] + s, "(-)-", "");
    ReplaceAllSkipsChar('+', [')'] + (['-'] + s), "(-)-", "");
    assert p[1] == '+' && "(-)-"[1] == '-';
    ReplaceAllSkipsChar('(', ['+'] + ([')'] + (['-'] + s)), "(-)-", "");
    assert ReplaceAll(p, "(-)-", "") == p;
    assert p[4..] == s;
    assert ReplaceAll(p, "(+)-", "") == ReplaceAll(s, "(+)-", "");
    AbsentPattern(s, "(+)-");
    AbsentPattern(s, "(+/-)-");
  }

  /** A name in normal form with a '(+)-' prefix cleans to the name itself. */
  lemma CleanDropsPlusPrefix(s: string)
    requires NoUpper(s) && '(' !in s && |s| > 0 && !IsSpace(s[|s| - 1])
    ensures CleanMetaboliteName("(+)-" + s) == s
  {
    var p := "(+)-" + s;
    assert p[|p| - 1] == s[|s| - 1];
    NormalFormKept(p);
    DeletePlusDescriptor(s);
  }

  // ---- the class table ----

  /** A row of the curated table: an alkaloid name and one class of it. */
  datatype ClassRow = ClassRow(alkaloid: string, alkaloidClass: string)

  /** `Alkaloids.duplicated(keep=False)` is non-empty: some raw alkaloid name is listed twice. */
  predicate HasRepeatedAlkaloid(rows: seq<ClassRow>)
  {
    exists i, j :: 0 <= i < j < |rows| && rows[i].alkaloid == rows[j].alkaloid
  }

  function OfAlkaloid(a: string): ClassRow -> bool
  {
    (row: ClassRow) => CleanMetaboliteName(row.alkaloid) == a
  }

  /**
   * The distinct cleaned classes recorded for cleaned alkaloid a.  The source
   * joins a Python set, whose order is not specified; the model lists the
   * classes in order of first appearance.
   */
  function ClassesOf(rows: seq<ClassRow>, a: string): seq<string>
  {
    var rs := Filter(rows, OfAlkaloid(a));
    Dedup(seq(|rs|, k requires 0 <= k < |rs| => CleanMetaboliteName(rs[k].alkaloidClass)))
  }

  /** `';'.join(set(...))` of the classes of a. */
  function JoinedClasses(rows: seq<ClassRow>, a: string): string
  {
    Join(";", ClassesOf(rows, a))
  }

  /**
   * `get_class_information_dict`: a ValueError when a raw alkaloid name is
   * repeated, and otherwise each cleaned alkaloid mapped to the joined classes.
   */
  function ClassInformation(rows: seq<ClassRow>): (r: Result<map<string, string>>)
    ensures r.Err? <==> HasRepeatedAlkaloid(rows)
    ensures r.Ok? ==> forall a :: a in r.value <==> exists i :: 0 <= i < |rows| && CleanMetaboliteName(rows[i].alkaloid) == a
    ensures r.Ok? ==> forall a :: a in r.value ==> r.value[a] == JoinedClasses(rows, a)
  {
    if HasRepeatedAlkaloid(rows) then Err("ValueError: Repeated alkaloid class entries")
    else
      Ok(map i | 0 <= i < |rows| :: CleanMetaboliteName(rows[i].alkaloid) := JoinedClasses(rows, CleanMetaboliteName(rows[i].alkaloid)))
  }

  /** Every row's class is among those recorded for its alkaloid. */
  lemma ClassOfRowRecorded(rows: seq<ClassRow>, i: nat)
    requires i < |rows|
    ensures CleanMetaboliteName(rows[i].alkaloidClass) in ClassesOf(rows, CleanMetaboliteName(rows[i].alkaloid))
  {
    var a := CleanMetaboliteName(rows[i].alkaloid);
    var rs := Filter(rows, OfAlkaloid(a));
    var cs := seq(|rs|, k requires 0 <= k < |rs| => CleanMetaboliteName(rs[k].alkaloidClass));
    assert OfAlkaloid(a)(rows[i]);
    var k :| 0 <= k < |rs| && rs[k] == rows[i];
    assert cs[k] == CleanMetaboliteName(rows[i].alkaloidClass);
  }

  /** Every recorded class of an alkaloid comes from a row of that alkaloid. */
  lemma RecordedClassHasRow(rows: seq<ClassRow>, a: string, c: string)
    requires c in ClassesOf(rows, a)
    ensures exists i :: 0 <= i < |rows| && CleanMetaboliteName(rows[i].alkaloid) == a && CleanMetaboliteName(rows[i].alkaloidClass) == c
  {
    var rs := Filter(rows, OfAlkaloid(a));
    var cs := seq(|rs|, k requires 0 <= k < |rs| => CleanMetaboliteName(rs[k].alkaloidClass));
    var k :| 0 <= k < |cs| && cs[k] == c;
    assert OfAlkaloid(a)(rs[k]) && rs[k] in rows;
    var i :| 0 <= i < |rows| && rows[i] == rs[k];
  }

  /** `alkaloid_class_from_metabolite`: the joined classes of the cleaned name, a KeyError when it is not listed. */
  function AlkaloidClassFromMetabolite(rows: seq<ClassRow>, metabolite: string): (r: Result<string>)
    ensures r.Ok? <==> !HasRepeatedAlkaloid(rows) && exists i :: 0 <= i < |rows| && CleanMetaboliteName(rows[i].alkaloid) == CleanMetaboliteName(metabolite)
    ensures r.Ok? ==> r.value == JoinedClasses(rows, CleanMetaboliteName(metabolite))
  {
    match ClassInformation(rows)
    case Err(e) => Err(e)
    case Ok(d) =>
      var key := CleanMetaboliteName(metabolite);
      if key in d then Ok(d[key]) else Err("KeyError")
  }

  /** The class cell of one metabolite: '' when its cleaned name is not listed. */
  function ClassCell(d: map<string, string>, cleaned: Cell): Cell
  {
    match cleaned
    case None => None
    case Some(x) => if x in d then Some(d[x]) else Some("")
  }

  function CleanCell(c: Cell): Cell
  {
    match c
    case None => None
    case Some(x) => Some(CleanMetaboliteName(x))
  }

  /** The class text of a cleaned name: its joined classes, or '' when it is not listed. */
  function ClassText(rows: seq<ClassRow>, key: string): string
  {
    if exists j :: 0 <= j < |rows| && CleanMetaboliteName(rows[j].alkaloid) == key then JoinedClasses(rows, key) else ""
  }

  /** Looking a cleaned name up in the class dictionary gives its class text. */
  lemma LookupIsClassText(rows: seq<ClassRow>, key: string)
    requires !HasRepeatedAlkaloid(rows)
    ensures ClassCell(ClassInformation(rows).value, Some(key)) == Some(ClassText(rows, key))
  {
  }

  /** The two added columns: the cleaned name and its looked-up class. */
  function WithClassColumns(df: Frame, nameCol: string, d: map<string, string>): (h: Frame)
    requires WellFormed(df)
    ensures WellFormed(h) && |h.rows| == |df.rows|
    ensures forall i :: 0 <= i < |df.rows| ==>
      Value(h.cols, h.rows[i], CleanedColumn) == CleanCell(Value(df.cols, df.rows[i], nameCol))
      && Value(h.cols, h.rows[i], ClassOutputColumn) == ClassCell(d, CleanCell(Value(df.cols, df.rows[i], nameCol)))
  {
    var cleaned := seq(|df.rows|, i requires 0 <= i < |df.rows| => CleanCell(Value(df.cols, df.rows[i], nameCol)));
    var g := SetColumn(df, CleanedColumn, cleaned);
    var classes := seq(|df.rows|, i requires 0 <= i < |df.rows| => ClassCell(d, cleaned[i]));
    var h := SetColumn(g, ClassOutputColumn, classes);
    assert forall i :: 0 <= i < |df.rows| ==> Value(h.cols, h.rows[i], CleanedColumn) == cleaned[i] by {
      forall i | 0 <= i < |df.rows| ensures Value(h.cols, h.rows[i], CleanedColumn) == cleaned[i] {
        SetColumnKeepsOthers(g, ClassOutputColumn, classes, CleanedColumn, i);
      }
    }
    h
  }

  /** The name column holds a value in every row. */
  predicate NamesPresent(df: Frame, nameCol: string)
  {
    forall i :: 0 <= i < |df.rows| ==> Value(df.cols, df.rows[i], nameCol).Some?
  }

  /**
   * `get_alkaloid_classes_from_metabolites`: a copy of the table with the
   * cleaned names and their classes added.  The name column must exist
   * (KeyError) and hold no missing value (`.lower()` of NaN raises).
   */
  function AlkaloidClassesFromMetabolites(rows: seq<ClassRow>, df: Frame, nameCol: string): (r: Result<Frame>)
    requires WellFormed(df)
    ensures r.Ok? <==> !HasRepeatedAlkaloid(rows) && nameCol in df.cols && NamesPresent(df, nameCol)
    ensures r.Ok? ==> WellFormed(r.value) && |r.value.rows| == |df.rows|
    ensures r.Ok? ==> forall i :: 0 <= i < |df.rows| ==>
      var key := CleanMetaboliteName(Value(df.cols, df.rows[i], nameCol).value);
      Value(r.value.cols, r.value.rows[i], CleanedColumn) == Some(key)
      && Value(r.value.cols, r.value.rows[i], ClassOutputColumn) == Some(ClassText(rows, key))
  {
    match ClassInformation(rows)
    case Err(e) => Err(e)
    case Ok(d) =>
      if nameCol !in df.cols then Err("KeyError")
      else if !NamesPresent(df, nameCol) then Err("AttributeError")
      else
        var h := WithClassColumns(df, nameCol, d);
        assert forall i :: 0 <= i < |df.rows| ==>
          var key := CleanMetaboliteName(Value(df.cols, df.rows[i], nameCol).value);
          Value(h.cols, h.rows[i], ClassOutputColumn) == Some(ClassText(rows, key)) by {
          forall i | 0 <= i < |df.rows|
            ensures Value(h.cols, h.rows[i], ClassOutputColumn) == Some(ClassText(rows, CleanMetaboliteName(Value(df.cols, df.rows[i], nameCol).value)))
          {
            LookupIsClassText(rows, CleanMetaboliteName(Value(df.cols, df.rows[i], nameCol).value));
          }
        }
        Ok(h)
  }
}
