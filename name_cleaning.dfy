/**
 * Helpers of the name matching package: the column vocabulary, the rank
 * filter, temporary output paths, IPNI URN stripping, and the merging of
 * several result tables on their accepted identifier.
 */
module NameCleaning {
  import opened Base
  import opened Strs
  import opened Frames

  // ---- COL_NAMES ----

  const AccNameCol := "Accepted_Name"
  const AccSpeciesCol := "Accepted_Species"
  const AccIdCol := "Accepted_ID"
  const AccRankCol := "Accepted_Rank"
  const SourceCol := "Source"
  const SourcesCol := "Sources"
  const ColNames: seq<string> := [AccNameCol, AccSpeciesCol, AccIdCol, AccRankCol, SourceCol, SourcesCol]

  /** The prefix IPNI puts in front of its identifiers. */
  const UrnPattern := "urn:lsid:ipni.org:names:"

  /**
   * pat, read as a regular expression made of literal characters and '.',
   * matches s at position i ('.' stands for any character but a newline).
   */
  predicate PatternAt(s: string, pat: string, i: int)
  {
    0 <= i && i + |pat| <= |s|
    && forall k :: 0 <= k < |pat| ==> (if pat[k] == '.' then s[i + k] != '\n' else s[i + k] == pat[k])
  }

  predicate HasPattern(s: string, pat: string)
  {
    exists i :: 0 <= i <= |s| - |pat| && PatternAt(s, pat, i)
  }

  function FindPatternFrom(s: string, pat: string, p: nat): (k: nat)
    requires exists i :: p <= i <= |s| - |pat| && PatternAt(s, pat, i)
    ensures p <= k && PatternAt(s, pat, k)
    ensures forall j :: p <= j < k ==> !PatternAt(s, pat, j)
    decreases |s| - p
  {
    if PatternAt(s, pat, p) then p else FindPatternFrom(s, pat, p + 1)
  }

  /**
   * clean_urn_ids: the text after the first match of the URN pattern; a
   * string without a match gives a missing value; a missing (non-string)
   * value is returned unchanged.
   */
  function CleanUrnIds(v: Cell): (r: Cell)
    ensures v.None? ==> r.None?
    ensures v.Some? ==> (r.Some? <==> HasPattern(v.value, UrnPattern))
    ensures v.Some? && r.Some? ==>
      exists i :: 0 <= i <= |v.value| - |UrnPattern| && PatternAt(v.value, UrnPattern, i)
        && (forall j :: 0 <= j < i ==> !PatternAt(v.value, UrnPattern, j))
        && r.value == v.value[i + |UrnPattern|..]
  {
    match v
    case None => None
    case Some(s) =>
      if HasPattern(s, UrnPattern) then
        var i := FindPatternFrom(s, UrnPattern, 0);
        Some(s[i + |UrnPattern|..])
      else None
  }

  /** A literal occurrence of the prefix is a match of the pattern. */
  lemma LiteralMatches(s: string, i: int)
    requires ContainsAt(s, UrnPattern, i)
    ensures PatternAt(s, UrnPattern, i)
  {
    forall k | 0 <= k < |UrnPattern|
      ensures if UrnPattern[k] == '.' then s[i + k] != '\n' else s[i + k] == UrnPattern[k]
    {
      assert s[i + k] == s[i..i + |UrnPattern|][k];
    }
  }

  /** Every id containing the literal prefix has something stripped, so the result is a string. */
  lemma CleanUrnIdsOfLiteral(s: string)
    requires Contains(s, UrnPattern)
    ensures CleanUrnIds(Some(s)).Some?
  {
    var i :| 0 <= i <= |s| - |UrnPattern| && ContainsAt(s, UrnPattern, i);
    LiteralMatches(s, i);
  }

  /** Stripping is the inverse of prefixing an identifier with the URN. */
  lemma CleanUrnIdsOfPrefixed(id: string)
    ensures CleanUrnIds(Some(UrnPattern + id)) == Some(id)
  {
    var s := UrnPattern + id;
    assert s[..|UrnPattern|] == UrnPattern;
    assert ContainsAt(s, UrnPattern, 0);
    LiteralMatches(s, 0);
    assert s[|UrnPattern|..] == id;
  }

  // ---- filter_out_ranks ----

  function RankIsSpecies(cols: seq<string>): seq<Cell> -> bool
  {
    (row: seq<Cell>) => Value(cols, row, AccRankCol) == Some("Species")
  }

  /** filter_out_ranks: the rows whose accepted rank is Species, in order; a key error without the rank column. */
  function FilterOutRanks(f: Frame): (r: Result<Frame>)
    requires WellFormed(f)
    ensures r.Err? <==> AccRankCol !in f.cols
    ensures r.Ok? ==> WellFormed(r.value) && r.value.cols == f.cols
    ensures r.Ok? ==> forall i :: 0 <= i < |r.value.rows| ==>
      r.value.rows[i] in f.rows && Value(f.cols, r.value.rows[i], AccRankCol) == Some("Species")
    ensures r.Ok? ==> forall i :: 0 <= i < |f.rows| && Value(f.cols, f.rows[i], AccRankCol) == Some("Species") ==>
      f.rows[i] in r.value.rows
  {
    if AccRankCol !in f.cols then Err("KeyError: " + AccRankCol)
    else Ok(Frame(f.cols, Filter(f.rows, RankIsSpecies(f.cols))))
  }

  // ---- generate_temp_output_file_paths ----

  /** `os.path.join(a, b)` on POSIX paths: an absolute b replaces a; one separator is put between them. */
  function PathJoin(a: string, b: string): (p: string)
    ensures EndsWith(p, b)
    ensures StartsWith(b, "/") ==> p == b
    ensures !StartsWith(b, "/") ==> StartsWith(p, a) && |p| - |b| - |a| <= 1
    ensures !StartsWith(b, "/") && a != "" && !EndsWith(a, "/") ==> StartsWith(p, a + "/")
  {
    if StartsWith(b, "/") then b
    else if a == "" || EndsWith(a, "/") then a + b
    else a + "/" + b
  }

  lemma AbsoluteWithSuffix(tag: string, suffix: string)
    requires |suffix| > 0 && suffix[0] != '/'
    ensures StartsWith(tag + suffix, "/") <==> StartsWith(tag, "/")
  {
    if |tag| > 0 {
      assert (tag + suffix)[..1] == tag[..1];
    } else {
      assert tag + suffix == suffix;
      assert !StartsWith(tag, "/");
    }
  }

  const CleanedSuffix := "_cleaned.csv"
  const AcceptedSuffix := "_accepted.csv"

  /**
   * generate_temp_output_file_paths: the cleaned and the accepted file of
   * a tag, in one directory, which is the given one unless the tag is an
   * absolute path.
   */
  function TempOutputFilePaths(tag: string, dir: string): (r: (string, string))
    ensures EndsWith(r.0, tag + CleanedSuffix) && EndsWith(r.1, tag + AcceptedSuffix)
    ensures r.0[..|r.0| - |CleanedSuffix|] == r.1[..|r.1| - |AcceptedSuffix|]
    ensures !StartsWith(tag, "/") ==> StartsWith(r.0, dir) && StartsWith(r.1, dir)
    ensures StartsWith(tag, "/") ==> r == (tag + CleanedSuffix, tag + AcceptedSuffix)
  {
    var c := PathJoin(dir, tag + CleanedSuffix);
    var a := PathJoin(dir, tag + AcceptedSuffix);
    AbsoluteWithSuffix(tag, CleanedSuffix);
    AbsoluteWithSuffix(tag, AcceptedSuffix);
    (c, a)
  }

  // ---- merge_columns ----

  /** The texts merge_columns skips. */
  predicate IsBlankText(s: string) { s == "" || s == "nan" }

  /** `next((y for y in vals if y != '' and y != 'nan'), 'nan')` */
  function FirstText(vals: seq<string>): (r: string)
    ensures r == "nan" <==> forall k :: 0 <= k < |vals| ==> IsBlankText(vals[k])
    ensures r != "nan" ==> exists k :: 0 <= k < |vals| && vals[k] == r && forall j :: 0 <= j < k ==> IsBlankText(vals[j])
  {
    if |vals| == 0 then "nan"
    else if !IsBlankText(vals[0]) then vals[0]
    else
      var r := FirstText(vals[1..]);
      assert forall k :: 1 <= k < |vals| ==> vals[k] == vals[1..][k - 1];
      assert r != "nan" ==> exists k :: 0 <= k < |vals| && vals[k] == r && forall j :: 0 <= j < k ==> IsBlankText(vals[j]) by {
        if r != "nan" {
          var k :| 0 <= k < |vals[1..]| && vals[1..][k] == r && forall j :: 0 <= j < k ==> IsBlankText(vals[1..][j]);
          assert vals[k + 1] == r;
        }
      }
      r
  }

  /** `str()` of a cell, as `astype(str)` stores it. */
  function AsStr(v: Cell): Cell { Some(PyStr(v)) }

  /** The texts of the given columns in one row. */
  function Texts(cols: seq<string>, row: seq<Cell>, cs: seq<string>): (ts: seq<string>)
    ensures |ts| == |cs|
  {
    seq(|cs|, k requires 0 <= k < |cs| => PyStr(Value(cols, row, cs[k])))
  }

  function FirstTexts(f: Frame, cs: seq<string>): (vals: seq<Cell>)
    ensures |vals| == |f.rows|
  {
    seq(|f.rows|, i requires 0 <= i < |f.rows| => Some(FirstText(Texts(f.cols, f.rows[i], cs))))
  }

  /** The argument of merge_columns after its loop and assignment: old columns cast to text, the new column added. */
  function MergeColumnsState(f: Frame, newCol: string, olds: seq<string>): (g: Frame)
    requires WellFormed(f)
    ensures WellFormed(g) && |g.rows| == |f.rows|
  {
    var cast := MapFront(f, olds, AsStr);
    SetColumn(cast, newCol, FirstTexts(cast, olds))
  }

  /** The frame merge_columns returns when every old column exists. */
  function MergedColumns(f: Frame, newCol: string, olds: seq<string>): (g: Frame)
    requires WellFormed(f)
    ensures WellFormed(g) && |g.rows| == |f.rows|
  {
    DropColumns(MergeColumnsState(f, newCol, olds), olds)
  }

  /**
   * merge_columns: each row's new value is its first old-column text that
   * is neither '' nor 'nan' (else 'nan'); the old columns are removed, so
   * a new column named like an old one is removed as well; every other
   * column keeps its values.
   */
  lemma MergedColumnsMeaning(f: Frame, newCol: string, olds: seq<string>, i: nat)
    requires WellFormed(f) && AllIn(olds, f.cols) && i < |f.rows|
    ensures forall c :: c in MergedColumns(f, newCol, olds).cols <==> (c in f.cols || c == newCol) && c !in olds
    ensures newCol !in olds ==>
      Value(MergedColumns(f, newCol, olds).cols, MergedColumns(f, newCol, olds).rows[i], newCol)
        == Some(FirstText(Texts(f.cols, f.rows[i], olds)))
    ensures forall c :: c in MergedColumns(f, newCol, olds).cols && c != newCol ==>
      Value(MergedColumns(f, newCol, olds).cols, MergedColumns(f, newCol, olds).rows[i], c) == Value(f.cols, f.rows[i], c)
  {
    var cast := MapFront(f, olds, AsStr);
    var st := MergeColumnsState(f, newCol, olds);
    var g := MergedColumns(f, newCol, olds);
    assert Texts(cast.cols, cast.rows[i], olds) == Texts(f.cols, f.rows[i], olds) by {
      forall k | 0 <= k < |olds|
        ensures PyStr(Value(cast.cols, cast.rows[i], olds[k])) == PyStr(Value(f.cols, f.rows[i], olds[k]))
      {
        MapFrontIdempotent(f, olds, AsStr, PyStr, olds[k], i);
      }
    }
    forall c | c in g.cols && c != newCol
      ensures Value(g.cols, g.rows[i], c) == Value(f.cols, f.rows[i], c)
    {
      SetColumnKeepsOthers(cast, newCol, FirstTexts(cast, olds), c, i);
      MapFrontKeepsOthers(f, olds, AsStr, c, i);
    }
  }

  /**
   * merge_columns, changing its argument as the source does: the old
   * columns are cast to text one after another (a missing one raises a key
   * error, with the earlier ones already cast), then the new column is
   * added to the argument, and the returned frame lacks the old columns.
   */
  method MergeColumns(df: Table, newCol: string, olds: seq<string>) returns (r: Result<Frame>)
    requires WellFormed(df.Contents())
    modifies df
    ensures AllIn(olds, old(df.cols)) ==>
      r == Ok(MergedColumns(old(df.Contents()), newCol, olds)) && df.Contents() == MergeColumnsState(old(df.Contents()), newCol, olds)
    ensures !AllIn(olds, old(df.cols)) ==>
      r.Err? && df.Contents() == MapFront(old(df.Contents()), olds, AsStr)
  {
    var k := 0;
    while k < |olds|
      invariant 0 <= k <= |olds|
      invariant WellFormed(df.Contents()) && df.cols == old(df.cols)
      invariant MapFront(df.Contents(), olds[k..], AsStr) == MapFront(old(df.Contents()), olds, AsStr)
      invariant AllIn(olds[..k], df.cols)
    {
      if olds[k] !in df.cols {
        return Err("KeyError: " + olds[k]);
      }
      var g := MapColumn(df.Contents(), olds[k], AsStr);
      assert olds[k..][1..] == olds[k + 1..];
      df.rows := g.rows;
      k := k + 1;
      assert AllIn(olds[..k], df.cols) by {
        assert forall j :: 0 <= j < k ==> olds[..k][j] == olds[j];
      }
    }
    assert olds[..k] == olds;
    var st := SetColumn(df.Contents(), newCol, FirstTexts(df.Contents(), olds));
    df.cols, df.rows := st.cols, st.rows;
    r := Ok(DropColumns(st, olds));
  }

  // ---- merge_on_accepted_id ----

  function ContainsText(sub: string): string -> bool
  {
    (c: string) => Contains(c, sub)
  }

  /** A cell as `astype('string').fillna('')` leaves it. */
  function EmptyIfMissing(v: Cell): Cell { Some(if v.None? then "" else v.value) }

  /** The texts of the given columns, a missing cell read as ''. */
  function FilledTexts(cols: seq<string>, row: seq<Cell>, cs: seq<string>): (ts: seq<string>)
    ensures |ts| == |cs|
  {
    seq(|cs|, k requires 0 <= k < |cs| => if Value(cols, row, cs[k]).None? then "" else Value(cols, row, cs[k]).value)
  }

  function JoinedTexts(f: Frame, cs: seq<string>): (vals: seq<Cell>)
    ensures |vals| == |f.rows|
  {
    seq(|f.rows|, i requires 0 <= i < |f.rows| => Some(Join(":", Texts(f.cols, f.rows[i], cs))))
  }

  /** The source columns of the merged frame: every column whose name contains 'Source'. */
  function SourceColumns(m: Frame): (srcs: seq<string>)
    ensures AllIn(srcs, m.cols)
  {
    Filter(m.cols, ContainsText(SourceCol))
  }

  /** The merged frame after its source columns are joined into Sources and dropped. */
  function WithSources(m: Frame): (s: Frame)
    requires WellFormed(m)
    ensures WellFormed(s) && |s.rows| == |m.rows|
  {
    var srcs := SourceColumns(m);
    var filled := MapFront(m, srcs, EmptyIfMissing);
    DropColumns(SetColumn(filled, SourcesCol, JoinedTexts(filled, srcs)), Filter(srcs, NotIn([SourcesCol])))
  }

  /** The three merge_columns calls on the accepted name, species and rank columns. */
  function AcceptedMerged(s: Frame): (r: Frame)
    requires WellFormed(s)
    ensures WellFormed(r) && |r.rows| == |s.rows|
  {
    var f1 := MergedColumns(s, AccNameCol, Filter(s.cols, ContainsText(AccNameCol)));
    var f2 := MergedColumns(f1, AccSpeciesCol, Filter(f1.cols, ContainsText(AccSpeciesCol)));
    MergedColumns(f2, AccRankCol, Filter(f2.cols, ContainsText(AccRankCol)))
  }

  /** merge_on_accepted_id: a key error when either frame lacks Accepted_ID. */
  function MergeOnAcceptedIdOf(x: Frame, y: Frame): (r: Result<Frame>)
    requires WellFormed(x)
    ensures r.Err? <==> AccIdCol !in x.cols || AccIdCol !in y.cols
    ensures r.Ok? ==> WellFormed(r.value)
  {
    match OuterMerge(x, y, AccIdCol)
    case Err(e) => Err(e)
    case Ok(m) => Ok(AcceptedMerged(WithSources(m)))
  }

  /** The accepted column names contain no 'Source', and 'Sources' contains none of them. */
  lemma VocabularyApart(c: string)
    requires c == AccNameCol || c == AccSpeciesCol || c == AccRankCol
    ensures !Contains(c, SourceCol) && !Contains(SourcesCol, c)
  {
    forall i | 0 <= i <= |c| - |SourceCol| ensures !ContainsAt(c, SourceCol, i) {
      assert c[i..i + 6][0] == c[i] && c[i..i + 6][1] == c[i + 1];
      assert i == 0 || i == 1 || i == 2 || i == 3 || i == 4 || i == 5 || i == 6 || i == 7 || i == 8 || i == 9 || i == 10;
    }
  }

  /** The columns WithSources leaves: Sources, and the others of the merged frame without 'Source' in their names. */
  lemma WithSourcesColumns(m: Frame)
    requires WellFormed(m)
    ensures SourcesCol in WithSources(m).cols
    ensures forall c :: c in WithSources(m).cols && c != SourcesCol ==> c in m.cols && !Contains(c, SourceCol)
  {
    var srcs := SourceColumns(m);
    var filled := MapFront(m, srcs, EmptyIfMissing);
    var joined := SetColumn(filled, SourcesCol, JoinedTexts(filled, srcs));
    var dropped := Filter(srcs, NotIn([SourcesCol]));
    var s := WithSources(m);
    assert s == DropColumns(joined, dropped);
    assert SourcesCol !in dropped;
    forall c | c in s.cols && c != SourcesCol
      ensures c in m.cols && !Contains(c, SourceCol)
    {
      assert c in joined.cols && c !in dropped;
      assert c in m.cols;
      assert c !in srcs;
    }
  }

  /** Sources of each merged row is the ':'-join of its source cells, a missing cell counting as ''. */
  lemma WithSourcesValue(m: Frame, i: nat)
    requires WellFormed(m) && i < |m.rows|
    ensures SourcesCol in WithSources(m).cols
    ensures Value(WithSources(m).cols, WithSources(m).rows[i], SourcesCol) == Some(Join(":", FilledTexts(m.cols, m.rows[i], SourceColumns(m))))
  {
    WithSourcesColumns(m);
    var srcs := SourceColumns(m);
    var filled := MapFront(m, srcs, EmptyIfMissing);
    var joined := SetColumn(filled, SourcesCol, JoinedTexts(filled, srcs));
    var s := WithSources(m);
    assert s == DropColumns(joined, Filter(srcs, NotIn([SourcesCol])));
    assert Texts(filled.cols, filled.rows[i], srcs) == FilledTexts(m.cols, m.rows[i], srcs) by {
      forall k | 0 <= k < |srcs|
        ensures Texts(filled.cols, filled.rows[i], srcs)[k] == FilledTexts(m.cols, m.rows[i], srcs)[k]
      {
        assert srcs[k] in srcs;
        MapFrontMapped(m, srcs, EmptyIfMissing, srcs[k], i);
      }
    }
    assert Value(s.cols, s.rows[i], SourcesCol) == Value(joined.cols, joined.rows[i], SourcesCol);
  }

  /** Every other column WithSources leaves keeps its values. */
  lemma WithSourcesKeeps(m: Frame, i: nat, c: string)
    requires WellFormed(m) && i < |m.rows| && c in WithSources(m).cols && c != SourcesCol
    ensures Value(WithSources(m).cols, WithSources(m).rows[i], c) == Value(m.cols, m.rows[i], c)
  {
    WithSourcesColumns(m);
    var srcs := SourceColumns(m);
    var filled := MapFront(m, srcs, EmptyIfMissing);
    var joined := SetColumn(filled, SourcesCol, JoinedTexts(filled, srcs));
    var s := WithSources(m);
    assert s == DropColumns(joined, Filter(srcs, NotIn([SourcesCol])));
    assert c !in srcs;
    assert Value(s.cols, s.rows[i], c) == Value(joined.cols, joined.rows[i], c);
    SetColumnKeepsOthers(filled, SourcesCol, JoinedTexts(filled, srcs), c, i);
    MapFrontKeepsOthers(m, srcs, EmptyIfMissing, c, i);
  }

  /**
   * Sources of each merged row is the ':'-join of its source cells, a
   * missing cell counting as '', and it is the only column left whose name
   * contains 'Source'.
   */
  lemma WithSourcesMeaning(m: Frame, i: nat)
    requires WellFormed(m) && i < |m.rows|
    ensures SourcesCol in WithSources(m).cols
    ensures Value(WithSources(m).cols, WithSources(m).rows[i], SourcesCol) == Some(Join(":", FilledTexts(m.cols, m.rows[i], SourceColumns(m))))
    ensures forall c :: c in WithSources(m).cols && Contains(c, SourceCol) ==> c == SourcesCol
    ensures forall c :: c in WithSources(m).cols && c != SourcesCol ==> c in m.cols && !Contains(c, SourceCol)
    ensures forall c :: c in WithSources(m).cols && c != SourcesCol ==> Value(WithSources(m).cols, WithSources(m).rows[i], c) == Value(m.cols, m.rows[i], c)
  {
    WithSourcesColumns(m);
    WithSourcesValue(m, i);
    forall c | c in WithSources(m).cols && c != SourcesCol
      ensures Value(WithSources(m).cols, WithSources(m).rows[i], c) == Value(m.cols, m.rows[i], c)
    {
      WithSourcesKeeps(m, i, c);
    }
  }

  /** A column merge_on_accepted_id folds into one of the three accepted columns. */
  predicate IsAcceptedLike(c: string)
  {
    Contains(c, AccNameCol) || Contains(c, AccSpeciesCol) || Contains(c, AccRankCol)
  }

  /** One accepted-column merge keeps every column that is not folded into it. */
  lemma MergedColumnsKeeps(f: Frame, newCol: string, c: string, i: nat)
    requires WellFormed(f) && i < |f.rows| && c in f.cols && !Contains(c, newCol)
    ensures c in MergedColumns(f, newCol, Filter(f.cols, ContainsText(newCol))).cols
    ensures Value(MergedColumns(f, newCol, Filter(f.cols, ContainsText(newCol))).cols,
                  MergedColumns(f, newCol, Filter(f.cols, ContainsText(newCol))).rows[i], c) == Value(f.cols, f.rows[i], c)
  {
    ContainsSelf(c);
    MergedColumnsMeaning(f, newCol, Filter(f.cols, ContainsText(newCol)), i);
  }

  /**
   * The accepted-column merges keep every column whose name mentions none
   * of the accepted columns, with its values, and add only the three
   * accepted columns.
   */
  lemma AcceptedMergedMeaning(s: Frame, i: nat)
    requires WellFormed(s) && i < |s.rows|
    ensures forall c :: c in s.cols && !IsAcceptedLike(c) ==>
      c in AcceptedMerged(s).cols && Value(AcceptedMerged(s).cols, AcceptedMerged(s).rows[i], c) == Value(s.cols, s.rows[i], c)
    ensures forall c :: c in AcceptedMerged(s).cols ==>
      (c in s.cols && !IsAcceptedLike(c)) || c == AccNameCol || c == AccSpeciesCol || c == AccRankCol
  {
    var olds1 := Filter(s.cols, ContainsText(AccNameCol));
    var f1 := MergedColumns(s, AccNameCol, olds1);
    var olds2 := Filter(f1.cols, ContainsText(AccSpeciesCol));
    var f2 := MergedColumns(f1, AccSpeciesCol, olds2);
    var olds3 := Filter(f2.cols, ContainsText(AccRankCol));
    var r := AcceptedMerged(s);
    assert r == MergedColumns(f2, AccRankCol, olds3);
    forall c | c in s.cols && !IsAcceptedLike(c)
      ensures c in r.cols && Value(r.cols, r.rows[i], c) == Value(s.cols, s.rows[i], c)
    {
      MergedColumnsKeeps(s, AccNameCol, c, i);
      MergedColumnsKeeps(f1, AccSpeciesCol, c, i);
      MergedColumnsKeeps(f2, AccRankCol, c, i);
    }
    MergedColumnsMeaning(s, AccNameCol, olds1, i);
    MergedColumnsMeaning(f1, AccSpeciesCol, olds2, i);
    MergedColumnsMeaning(f2, AccRankCol, olds3, i);
  }

  /**
   * merge_on_accepted_id: the outer merge on Accepted_ID whose Sources is,
   * row by row, the ':'-join of all its 'Source' columns (missing as ''),
   * and which has no other column whose name contains 'Source'.
   */
  lemma MergeOnAcceptedIdMeaning(x: Frame, y: Frame, i: nat)
    requires WellFormed(x) && AccIdCol in x.cols && AccIdCol in y.cols
    requires i < |OuterMerge(x, y, AccIdCol).value.rows|
    ensures SourcesCol in MergeOnAcceptedIdOf(x, y).value.cols
    ensures Value(MergeOnAcceptedIdOf(x, y).value.cols, MergeOnAcceptedIdOf(x, y).value.rows[i], SourcesCol)
      == Some(Join(":", FilledTexts(OuterMerge(x, y, AccIdCol).value.cols, OuterMerge(x, y, AccIdCol).value.rows[i],
                                    SourceColumns(OuterMerge(x, y, AccIdCol).value))))
    ensures forall c :: c in MergeOnAcceptedIdOf(x, y).value.cols && Contains(c, SourceCol) ==> c == SourcesCol
  {
    MergeOnAcceptedIdSources(x, y, i);
    MergeOnAcceptedIdOnlySources(x, y, i);
  }

  /** The Sources column of merge_on_accepted_id and its value in row i. */
  lemma MergeOnAcceptedIdSources(x: Frame, y: Frame, i: nat)
    requires WellFormed(x) && AccIdCol in x.cols && AccIdCol in y.cols
    requires i < |OuterMerge(x, y, AccIdCol).value.rows|
    ensures SourcesCol in MergeOnAcceptedIdOf(x, y).value.cols
    ensures Value(MergeOnAcceptedIdOf(x, y).value.cols, MergeOnAcceptedIdOf(x, y).value.rows[i], SourcesCol)
      == Some(Join(":", FilledTexts(OuterMerge(x, y, AccIdCol).value.cols, OuterMerge(x, y, AccIdCol).value.rows[i],
                                    SourceColumns(OuterMerge(x, y, AccIdCol).value))))
  {
    var m := OuterMerge(x, y, AccIdCol).value;
    var s := WithSources(m);
    assert MergeOnAcceptedIdOf(x, y).value == AcceptedMerged(s);
    WithSourcesValue(m, i);
    VocabularyApart(AccNameCol);
    VocabularyApart(AccSpeciesCol);
    VocabularyApart(AccRankCol);
    assert !IsAcceptedLike(SourcesCol);
    AcceptedMergedMeaning(s, i);
  }

  /** No column of merge_on_accepted_id but Sources has 'Source' in its name. */
  lemma MergeOnAcceptedIdOnlySources(x: Frame, y: Frame, i: nat)
    requires WellFormed(x) && AccIdCol in x.cols && AccIdCol in y.cols
    requires i < |OuterMerge(x, y, AccIdCol).value.rows|
    ensures forall c :: c in MergeOnAcceptedIdOf(x, y).value.cols && Contains(c, SourceCol) ==> c == SourcesCol
  {
    var m := OuterMerge(x, y, AccIdCol).value;
    var s := WithSources(m);
    var r := AcceptedMerged(s);
    assert MergeOnAcceptedIdOf(x, y).value == r;
    WithSourcesColumns(m);
    VocabularyApart(AccNameCol);
    VocabularyApart(AccSpeciesCol);
    VocabularyApart(AccRankCol);
    AcceptedMergedColumns(s, i);
    forall c | c in r.cols && Contains(c, SourceCol) ensures c == SourcesCol {
      assert c != AccNameCol && c != AccSpeciesCol && c != AccRankCol;
      assert c in s.cols;
    }
  }

  /** Every column left by the accepted merges is an old non-accepted column or one of the three accepted ones. */
  lemma AcceptedMergedColumns(s: Frame, i: nat)
    requires WellFormed(s) && i < |s.rows|
    ensures forall c :: c in AcceptedMerged(s).cols ==>
      (c in s.cols && !IsAcceptedLike(c)) || c == AccNameCol || c == AccSpeciesCol || c == AccRankCol
  {
    AcceptedMergedMeaning(s, i);
  }

  /** merge_on_accepted_id, with its loop that fills the source columns. */
  method MergeOnAcceptedId(x: Frame, y: Frame) returns (r: Result<Frame>)
    requires WellFormed(x)
    ensures r == MergeOnAcceptedIdOf(x, y)
  {
    var merged := OuterMerge(x, y, AccIdCol);
    if merged.Err? {
      return Err(merged.error);
    }
    var m := merged.value;
    var srcs := SourceColumns(m);
    var cur := m;
    var k := 0;
    while k < |srcs|
      invariant 0 <= k <= |srcs|
      invariant WellFormed(cur) && cur.cols == m.cols && |cur.rows| == |m.rows|
      invariant MapFront(cur, srcs[k..], EmptyIfMissing) == MapFront(m, srcs, EmptyIfMissing)
    {
      assert srcs[k..][1..] == srcs[k + 1..];
      cur := MapColumn(cur, srcs[k], EmptyIfMissing);
      k := k + 1;
    }
    var withSources := SetColumn(cur, SourcesCol, JoinedTexts(cur, srcs));
    withSources := DropColumns(withSources, Filter(srcs, NotIn([SourcesCol])));
    r := Ok(AcceptedMerged(withSources));
  }

  // ---- compile_hits ----

  function LowerContains(word: string): string -> bool
  {
    (c: string) => Contains(Lower(c), word)
  }

  /** The column names of every frame whose lower-cased form contains word, frame by frame. */
  function ColumnsMentioning(fs: seq<Frame>, word: string): seq<string>
  {
    if |fs| == 0 then [] else ColumnsMentioning(fs[..|fs| - 1], word) + Filter(fs[|fs| - 1].cols, LowerContains(word))
  }

  /** cols_to_keep: the vocabulary, then every source and every snippet column. */
  function KeptColumns(fs: seq<Frame>): (keep: seq<string>)
    ensures AccNameCol in keep && AccIdCol in keep && SourceCol in keep
  {
    assert ColNames[0] == AccNameCol && ColNames[2] == AccIdCol && ColNames[4] == SourceCol;
    ColNames + ColumnsMentioning(fs, "source") + ColumnsMentioning(fs, "snippet")
  }

  /** The collecting loop of compile_hits: the source and the snippet columns, frame by frame. */
  method CollectMentions(fs: seq<Frame>) returns (sources: seq<string>, snippets: seq<string>)
    ensures sources == ColumnsMentioning(fs, "source") && snippets == ColumnsMentioning(fs, "snippet")
  {
    sources, snippets := [], [];
    var k := 0;
    while k < |fs|
      invariant 0 <= k <= |fs|
      invariant sources == ColumnsMentioning(fs[..k], "source")
      invariant snippets == ColumnsMentioning(fs[..k], "snippet")
    {
      assert fs[..k + 1][..k] == fs[..k];
      sources := sources + Filter(fs[k].cols, LowerContains("source"));
      snippets := snippets + Filter(fs[k].cols, LowerContains("snippet"));
      k := k + 1;
    }
    assert fs[..k] == fs;
  }

  /** A frame after the drop of the columns that are not kept. */
  function Trimmed(f: Frame, keep: seq<string>): (g: Frame)
    ensures WellFormed(g)
  {
    SelectColumns(f, InList(keep))
  }

  /** A frame after the drop and the `dropna` on the accepted name. */
  function Cleaned(f: Frame, keep: seq<string>): (g: Frame)
    ensures WellFormed(g)
  {
    DropNa(Trimmed(f, keep), AccNameCol)
  }

  /** A frame with an accepted-name column. */
  predicate HasName(f: Frame)
  {
    AccNameCol in f.cols
  }

  /** The first frame without an accepted-name column, where the cleaning loop raises. */
  function FirstLacking(fs: seq<Frame>): (b: Option<nat>)
    ensures b.None? <==> forall k :: 0 <= k < |fs| ==> HasName(fs[k])
    ensures b.Some? ==> b.value < |fs| && !HasName(fs[b.value]) && forall k :: 0 <= k < b.value ==> HasName(fs[k])
  {
    if |fs| == 0 then None
    else if !HasName(fs[0]) then Some(0)
    else
      match FirstLacking(fs[1..])
      case None => None
      case Some(b) => Some(b + 1)
  }

  /** The first cleaned frame with its Source column copied to Sources and dropped. */
  function SourceRenamed(f: Frame): (g: Frame)
    requires WellFormed(f) && SourceCol in f.cols
    ensures WellFormed(g) && |g.rows| == |f.rows| && SourcesCol in g.cols
  {
    MovedColumn(f, SourceCol, SourcesCol)
  }

  /** The fold of merge_on_accepted_id over the remaining frames. */
  function MergeAll(acc: Frame, rest: seq<Frame>): (r: Result<Frame>)
    requires WellFormed(acc)
    ensures r.Ok? ==> WellFormed(r.value)
    decreases |rest|
  {
    if |rest| == 0 then Ok(acc)
    else if !HasId(acc) || !HasId(rest[0]) then Err("KeyError: " + AccIdCol)
    else MergeAll(MergeOnAcceptedIdOf(acc, rest[0]).value, rest[1..])
  }

  /** The fold succeeds only when every remaining frame has an Accepted_ID column. */
  lemma {:induction false} MergeAllNeedsIds(acc: Frame, rest: seq<Frame>)
    requires WellFormed(acc) && MergeAll(acc, rest).Ok?
    ensures forall k :: 0 <= k < |rest| ==> HasId(rest[k])
    decreases |rest|
  {
    if |rest| > 0 {
      MergeAllNeedsIds(MergeOnAcceptedIdOf(acc, rest[0]).value, rest[1..]);
      AllHaveIdsCons(rest);
    }
  }

  predicate HasId(f: Frame) { AccIdCol in f.cols }

  lemma AllHaveIdsCons(fs: seq<Frame>)
    requires |fs| > 0 && HasId(fs[0]) && forall k :: 0 <= k < |fs[1..]| ==> HasId(fs[1..][k])
    ensures forall k :: 0 <= k < |fs| ==> HasId(fs[k])
  {
    forall k | 1 <= k < |fs| ensures HasId(fs[k]) {
      assert fs[k] == fs[1..][k - 1];
    }
  }

  const StartCols: seq<string> := [AccNameCol, AccIdCol, AccSpeciesCol, AccRankCol]

  function CleanedAll(fs: seq<Frame>, keep: seq<string>): (cs: seq<Frame>)
    ensures |cs| == |fs| && forall k :: 0 <= k < |fs| ==> cs[k] == Cleaned(fs[k], keep)
  {
    seq(|fs|, k requires 0 <= k < |fs| => Cleaned(fs[k], keep))
  }

  /** The last step of compile_hits: the name columns first, Sources last, no two identical rows. */
  function Finished(m: Result<Frame>): (r: Result<Frame>)
    requires m.Ok? ==> WellFormed(m.value)
    ensures m.Err? ==> r == m
    ensures r.Ok? ==> WellFormed(r.value) && NoDup(r.value.rows)
    ensures r.Ok? ==> |r.value.cols| > 0 && r.value.cols[|r.value.cols| - 1] == SourcesCol
    ensures r.Ok? ==> forall j1, j2 :: 0 <= j1 < j2 < |r.value.cols| - 1 && r.value.cols[j2] in StartCols ==> r.value.cols[j1] in StartCols
  {
    match m
    case Err(e) => Err(e)
    case Ok(f) =>
      if SourcesCol in f.cols then Ok(DropDuplicateRows(Arranged(f, StartCols, SourcesCol)))
      else Err("KeyError: " + SourcesCol)
  }

  /**
   * compile_hits: a key error when a frame lacks Accepted_Name or the
   * first lacks Source, an index error with no frames; otherwise the merge
   * of the cleaned frames, finished as above.
   */
  function Compiled(fs: seq<Frame>): (r: Result<Frame>)
  {
    var keep := KeptColumns(fs);
    if FirstLacking(fs).Some? then Err("KeyError: " + AccNameCol)
    else if |fs| == 0 then Err("IndexError: list index out of range")
    else if SourceCol !in fs[0].cols then Err("KeyError: " + SourceCol)
    else
      var cleaned := CleanedAll(fs, keep);
      assert SourceCol in cleaned[0].cols;
      Finished(MergeAll(SourceRenamed(cleaned[0]), cleaned[1..]))
  }

  /** The error cases of compile_hits, and the shape of its result otherwise. */
  lemma CompiledMeaning(fs: seq<Frame>)
    ensures |fs| == 0 ==> Compiled(fs).Err?
    ensures FirstLacking(fs).Some? ==> Compiled(fs).Err?
    ensures |fs| > 0 && SourceCol !in fs[0].cols ==> Compiled(fs).Err?
    ensures Compiled(fs).Ok? ==> WellFormed(Compiled(fs).value) && NoDup(Compiled(fs).value.rows)
    ensures Compiled(fs).Ok? ==> var c := Compiled(fs).value.cols; |c| > 0 && c[|c| - 1] == SourcesCol
  {
  }

  /** Each frame as the cleaning loop leaves it: cleaned up to the first without Accepted_Name, which is only dropped. */
  function CleanState(fs: seq<Frame>, keep: seq<string>, k: nat): Frame
    requires k < |fs|
  {
    match FirstLacking(fs)
    case Some(b) => if k < b then Cleaned(fs[k], keep) else if k == b then Trimmed(fs[k], keep) else fs[k]
    case None => Cleaned(fs[k], keep)
  }

  /** Each frame as compile_hits leaves it: the first one also renamed when its Source column exists. */
  function CompileHitsState(fs: seq<Frame>, k: nat): Frame
    requires k < |fs|
  {
    var keep := KeptColumns(fs);
    if FirstLacking(fs).None? && k == 0 && SourceCol in fs[0].cols then SourceRenamed(Cleaned(fs[0], keep))
    else CleanState(fs, keep, k)
  }

  /** The accepted-name column survives the drop exactly when the frame has it. */
  lemma TrimmedKeepsName(f: Frame, keep: seq<string>)
    requires AccNameCol in keep
    ensures AccNameCol in Trimmed(f, keep).cols <==> AccNameCol in f.cols
  {
  }

  /** The first frame lacking the name column is the one the loop stops at. */
  lemma {:induction false} FirstLackingAt(fs: seq<Frame>, k: nat)
    requires k < |fs| && !HasName(fs[k])
    requires forall j :: 0 <= j < k ==> HasName(fs[j])
    ensures FirstLacking(fs) == Some(k)
  {
    if k > 0 {
      assert HasName(fs[0]);
      assert forall j :: 0 <= j < k - 1 ==> fs[1..][j] == fs[j + 1];
      FirstLackingAt(fs[1..], k - 1);
    }
  }

  /** With every frame holding the name column the loop runs to the end. */
  lemma FirstLackingNone(fs: seq<Frame>)
    requires forall j :: 0 <= j < |fs| ==> HasName(fs[j])
    ensures FirstLacking(fs) == None
  {
  }

  /** The cleaning loop of compile_hits, changing each frame of the list in place. */
  method CleanTables(dfs: FrameList, keep: seq<string>) returns (ok: bool)
    requires AccNameCol in keep
    modifies dfs
    ensures ok <==> FirstLacking(old(dfs.frames)).None?
    ensures |dfs.frames| == |old(dfs.frames)|
    ensures forall k :: 0 <= k < |dfs.frames| ==> dfs.frames[k] == CleanState(old(dfs.frames), keep, k)
    ensures ok ==> dfs.frames == CleanedAll(old(dfs.frames), keep)
  {
    ghost var fs := dfs.frames;
    var k := 0;
    while k < |dfs.frames|
      invariant k <= |fs| && CleanedUpTo(fs, keep, k, dfs.frames)
    {
      ghost var before := dfs.frames;
      var named := CleanFrame(dfs, k, keep);
      if !named {
        StoppedStates(fs, keep, k, before, dfs.frames);
        return false;
      }
      CleanedOneMore(fs, keep, k, before, dfs.frames);
      k := k + 1;
    }
    CleanedThrough(fs, keep, dfs.frames);
    return true;
  }

  /** The loop invariant: the first k frames are cleaned and had the name column, the others are untouched. */
  ghost predicate CleanedUpTo(fs: seq<Frame>, keep: seq<string>, k: nat, gs: seq<Frame>)
  {
    k <= |fs| == |gs| &&
    (forall j :: 0 <= j < k ==> gs[j] == Cleaned(fs[j], keep) && HasName(fs[j])) &&
    (forall j :: k <= j < |fs| ==> gs[j] == fs[j])
  }

  lemma CleanedOneMore(fs: seq<Frame>, keep: seq<string>, k: nat, before: seq<Frame>, gs: seq<Frame>)
    requires k < |fs| && CleanedUpTo(fs, keep, k, before) && HasName(before[k])
    requires gs == before[k := Cleaned(before[k], keep)]
    ensures CleanedUpTo(fs, keep, k + 1, gs)
  {
  }

  lemma CleanedThrough(fs: seq<Frame>, keep: seq<string>, gs: seq<Frame>)
    requires CleanedUpTo(fs, keep, |fs|, gs)
    ensures FirstLacking(fs).None?
    ensures gs == CleanedAll(fs, keep)
    ensures forall j :: 0 <= j < |gs| ==> gs[j] == CleanState(fs, keep, j)
  {
    FirstLackingNone(fs);
    AllCleaned(fs, keep, gs);
  }

  /**
   * The loop body for frame k: the unkept columns are dropped, then, when
   * the accepted-name column is still there, the rows without a name.
   */
  method CleanFrame(dfs: FrameList, k: nat, keep: seq<string>) returns (named: bool)
    requires AccNameCol in keep && k < |dfs.frames|
    modifies dfs
    ensures named <==> HasName(old(dfs.frames)[k])
    ensures dfs.frames == old(dfs.frames)[k := if named then Cleaned(old(dfs.frames)[k], keep) else Trimmed(old(dfs.frames)[k], keep)]
  {
    TrimmedKeepsName(dfs.frames[k], keep);
    var g := Trimmed(dfs.frames[k], keep);
    dfs.frames := dfs.frames[k := g];
    if AccNameCol !in g.cols {
      return false;
    }
    dfs.frames := dfs.frames[k := DropNa(g, AccNameCol)];
    return true;
  }

  /** The frames as the loop leaves them when it stops at the first frame without the name column. */
  lemma StoppedStates(fs: seq<Frame>, keep: seq<string>, k: nat, before: seq<Frame>, gs: seq<Frame>)
    requires k < |fs| && CleanedUpTo(fs, keep, k, before) && !HasName(before[k])
    requires gs == before[k := Trimmed(before[k], keep)]
    ensures FirstLacking(fs).Some? && |gs| == |fs|
    ensures forall j :: 0 <= j < |gs| ==> gs[j] == CleanState(fs, keep, j)
  {
    FirstLackingAt(fs, k);
  }

  /** Frames each cleaned from the corresponding input are the cleaned inputs. */
  lemma AllCleaned(fs: seq<Frame>, keep: seq<string>, gs: seq<Frame>)
    requires |gs| == |fs| && forall k :: 0 <= k < |fs| ==> gs[k] == Cleaned(fs[k], keep)
    ensures gs == CleanedAll(fs, keep)
  {
  }

  /** The merge loop of compile_hits. */
  method MergeFrames(acc: Frame, rest: seq<Frame>) returns (r: Result<Frame>)
    requires WellFormed(acc)
    ensures r == MergeAll(acc, rest)
  {
    var merged := acc;
    var i := 0;
    while i < |rest|
      invariant 0 <= i <= |rest|
      invariant WellFormed(merged)
      invariant MergeAll(merged, rest[i..]) == MergeAll(acc, rest)
    {
      assert rest[i..][0] == rest[i] && rest[i..][1..] == rest[i + 1..];
      if !HasId(merged) || !HasId(rest[i]) {
        return Err("KeyError: " + AccIdCol);
      }
      var m := MergeOnAcceptedId(merged, rest[i]);
      merged := m.value;
      i := i + 1;
    }
    assert rest[i..] == [];
    r := Ok(merged);
  }

  /** Source survives the cleaning of the first frame exactly when the frame has it. */
  lemma CleanedKeepsSource(f: Frame, keep: seq<string>)
    requires SourceCol in keep
    ensures SourceCol in Cleaned(f, keep).cols <==> SourceCol in f.cols
  {
  }

  /** Past its error cases, compile_hits is the finished merge of the cleaned frames. */
  lemma CompiledFromMerge(fs: seq<Frame>)
    requires FirstLacking(fs).None? && |fs| > 0 && SourceCol in fs[0].cols
    ensures SourceCol in Cleaned(fs[0], KeptColumns(fs)).cols
    ensures Compiled(fs) == Finished(MergeAll(SourceRenamed(Cleaned(fs[0], KeptColumns(fs))), CleanedAll(fs, KeptColumns(fs))[1..]))
  {
  }

  /** The merges of compile_hits, after the first frame's Source column is renamed in place. */
  method MergeFromFirst(dfs: FrameList) returns (r: Result<Frame>)
    requires |dfs.frames| > 0 && WellFormed(dfs.frames[0]) && SourceCol in dfs.frames[0].cols
    modifies dfs
    ensures dfs.frames == old(dfs.frames)[0 := SourceRenamed(old(dfs.frames[0]))]
    ensures r == Finished(MergeAll(SourceRenamed(old(dfs.frames[0])), old(dfs.frames)[1..]))
  {
    var renamed := SourceRenamed(dfs.frames[0]);
    dfs.frames := dfs.frames[0 := renamed];
    var merged := MergeFrames(renamed, dfs.frames[1..]);
    if merged.Err? {
      return Err(merged.error);
    }
    if SourcesCol !in merged.value.cols {
      return Err("KeyError: " + SourcesCol);
    }
    r := Ok(DropDuplicateRows(Arranged(merged.value, StartCols, SourcesCol)));
  }

  /** Where compile_hits stops, and what it leaves in the frames other than the first. */
  lemma CompileHitsStops(fs: seq<Frame>)
    ensures FirstLacking(fs).Some? ==> Compiled(fs) == Err("KeyError: " + AccNameCol)
    ensures FirstLacking(fs).None? && |fs| == 0 ==> Compiled(fs) == Err("IndexError: list index out of range")
    ensures FirstLacking(fs).None? && |fs| > 0 && SourceCol !in fs[0].cols ==> Compiled(fs) == Err("KeyError: " + SourceCol)
    ensures forall k :: 0 < k < |fs| ==> CompileHitsState(fs, k) == CleanState(fs, KeptColumns(fs), k)
    ensures FirstLacking(fs).Some? || (|fs| > 0 && SourceCol !in fs[0].cols) ==>
      forall k :: 0 <= k < |fs| ==> CompileHitsState(fs, k) == CleanState(fs, KeptColumns(fs), k)
  {
  }

  /** The frames after the renaming of the first: the state compile_hits leaves them in. */
  lemma RenamedStates(fs: seq<Frame>)
    requires FirstLacking(fs).None? && |fs| > 0 && SourceCol in fs[0].cols
    ensures SourceCol in Cleaned(fs[0], KeptColumns(fs)).cols
    ensures forall k :: 0 <= k < |fs| ==>
      CleanedAll(fs, KeptColumns(fs))[0 := SourceRenamed(Cleaned(fs[0], KeptColumns(fs)))][k] == CompileHitsState(fs, k)
  {
    var keep := KeptColumns(fs);
    CleanedKeepsSource(fs[0], keep);
    var gs := CleanedAll(fs, keep)[0 := SourceRenamed(Cleaned(fs[0], keep))];
    forall k | 0 <= k < |fs| ensures gs[k] == CompileHitsState(fs, k) {
      if k > 0 {
        CleanedState(fs, k);
      }
    }
  }

  /** Past the first, compile_hits leaves each frame cleaned when no frame lacks the name column. */
  lemma CleanedState(fs: seq<Frame>, k: nat)
    requires FirstLacking(fs).None? && 0 < k < |fs|
    ensures CompileHitsState(fs, k) == Cleaned(fs[k], KeptColumns(fs))
  {
  }

  /** compile_hits once every frame is cleaned and the first has a Source column: the merges. */
  method CompileCleaned(dfs: FrameList, ghost fs: seq<Frame>) returns (r: Result<Frame>)
    requires FirstLacking(fs).None? && |fs| > 0 && SourceCol in fs[0].cols
    requires dfs.frames == CleanedAll(fs, KeptColumns(fs))
    modifies dfs
    ensures SourceCol in Cleaned(fs[0], KeptColumns(fs)).cols
    ensures r == Compiled(fs)
    ensures dfs.frames == CleanedAll(fs, KeptColumns(fs))[0 := SourceRenamed(Cleaned(fs[0], KeptColumns(fs)))]
  {
    CompiledFromMerge(fs);
    r := MergeFromFirst(dfs);
  }

  /**
   * compile_hits, changing the frames of its list in place as the source
   * does; writing the result to a file is left to the caller.
   */
  method CompileHits(dfs: FrameList) returns (r: Result<Frame>)
    modifies dfs
    ensures r == Compiled(old(dfs.frames))
    ensures |dfs.frames| == |old(dfs.frames)|
    ensures forall k :: 0 <= k < |dfs.frames| ==> dfs.frames[k] == CompileHitsState(old(dfs.frames), k)
  {
    ghost var fs := dfs.frames;
    var sources, snippets := CollectMentions(dfs.frames);
    var keep := ColNames + sources + snippets;
    assert keep == KeptColumns(fs);
    var ok := CleanTables(dfs, keep);
    CompileHitsStops(fs);
    if !ok {
      return Err("KeyError: " + AccNameCol);
    }
    if |dfs.frames| == 0 {
      return Err("IndexError: list index out of range");
    }
    CleanedKeepsSource(fs[0], keep);
    if SourceCol !in dfs.frames[0].cols {
      return Err("KeyError: " + SourceCol);
    }
    r := CompileCleaned(dfs, fs);
    RenamedStates(fs);
  }
}
