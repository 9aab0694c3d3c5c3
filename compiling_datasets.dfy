/**
 * The compilation helpers of the cleaning package
 * (cleaning/compiling_datasets.py).  They differ from the name-matching
 * package's copies (module NameCleaning) in four ways: merge_columns leaves
 * the frame alone when there are fewer than two old columns; source columns
 * are recognised case-insensitively; the merged Sources cell is the text of
 * the list of source cells with its first '' removed, and the accepted
 * species identifier is merged as well; compile_hits works on copies of its
 * frames and keeps the first row per Accepted_ID.  filter_out_ranks and
 * generate_temp_output_file_paths are the same functions as there
 * (NameCleaning.FilterOutRanks, NameCleaning.TempOutputFilePaths).
 */
module CompilingDatasets {
  import opened Base
  import opened Strs
  import opened Frames
  import NC = NameCleaning

  const AccSpeciesIdCol := "Accepted_Species_ID"

  /** COL_NAMES of the name-matching package: the six names of NameCleaning and the species identifier. */
  const ColNames: seq<string> := NC.ColNames + [AccSpeciesIdCol]

  // ---- merge_columns ----

  /** merge_columns when its old columns exist: with fewer than two nothing happens. */
  function MergedIfSeveral(f: Frame, newCol: string, olds: seq<string>): (g: Frame)
    requires WellFormed(f)
    ensures WellFormed(g) && |g.rows| == |f.rows|
  {
    if |olds| > 1 then NC.MergedColumns(f, newCol, olds) else f
  }

  /** A column outside the old ones and other than the new one keeps its place and its values. */
  lemma MergedKeeps(f: Frame, newCol: string, olds: seq<string>, c: string, i: nat)
    requires WellFormed(f) && i < |f.rows| && c in f.cols && c !in olds && c != newCol
    ensures c in MergedIfSeveral(f, newCol, olds).cols
    ensures Value(MergedIfSeveral(f, newCol, olds).cols, MergedIfSeveral(f, newCol, olds).rows[i], c) == Value(f.cols, f.rows[i], c)
  {
    if |olds| > 1 {
      var cast := MapFront(f, olds, NC.AsStr);
      SetColumnKeepsOthers(cast, newCol, NC.FirstTexts(cast, olds), c, i);
      MapFrontKeepsOthers(f, olds, NC.AsStr, c, i);
    }
  }

  /** The merge adds no column but the new one. */
  lemma MergedColumnsFrom(f: Frame, newCol: string, olds: seq<string>)
    requires WellFormed(f)
    ensures forall c :: c in MergedIfSeveral(f, newCol, olds).cols ==> c in f.cols || c == newCol
  {
  }

  /**
   * merge_columns: zero or one old column leaves the frame as it is;
   * otherwise each row's new value is its first old-column text that is
   * neither '' nor 'nan' (else 'nan'), the old columns are gone and every
   * other column keeps its values.
   */
  lemma MergeColumnsMeaning(f: Frame, newCol: string, olds: seq<string>, i: nat)
    requires WellFormed(f) && AllIn(olds, f.cols) && i < |f.rows|
    ensures |olds| <= 1 ==> MergedIfSeveral(f, newCol, olds) == f
    ensures |olds| > 1 ==> forall c :: c in MergedIfSeveral(f, newCol, olds).cols <==> (c in f.cols || c == newCol) && c !in olds
    ensures |olds| > 1 && newCol !in olds ==>
      Value(MergedIfSeveral(f, newCol, olds).cols, MergedIfSeveral(f, newCol, olds).rows[i], newCol)
        == Some(NC.FirstText(NC.Texts(f.cols, f.rows[i], olds)))
    ensures forall c :: c in MergedIfSeveral(f, newCol, olds).cols && c != newCol ==>
      Value(MergedIfSeveral(f, newCol, olds).cols, MergedIfSeveral(f, newCol, olds).rows[i], c) == Value(f.cols, f.rows[i], c)
  {
    if |olds| > 1 {
      NC.MergedColumnsMeaning(f, newCol, olds, i);
    }
  }

  /**
   * merge_columns, changing its argument as the source does when it has
   * two or more old columns, and returning the frame untouched otherwise.
   */
  method MergeColumns(df: Table, newCol: string, olds: seq<string>) returns (r: Result<Frame>)
    requires WellFormed(df.Contents())
    modifies df
    ensures |olds| <= 1 ==> r == Ok(old(df.Contents())) && df.Contents() == old(df.Contents())
    ensures |olds| > 1 && AllIn(olds, old(df.cols)) ==>
      r == Ok(MergedIfSeveral(old(df.Contents()), newCol, olds)) && df.Contents() == NC.MergeColumnsState(old(df.Contents()), newCol, olds)
    ensures |olds| > 1 && !AllIn(olds, old(df.cols)) ==>
      r.Err? && df.Contents() == MapFront(old(df.Contents()), olds, NC.AsStr)
  {
    if |olds| > 1 {
      r := NC.MergeColumns(df, newCol, olds);
    } else {
      r := Ok(df.Contents());
    }
  }

  // ---- merge_on_accepted_id ----

  /** `COL_NAMES['single_source'].lower()` */
  const SourceWord := "source"

  lemma SourceWordIsLower()
    ensures Lower(NC.SourceCol) == SourceWord
  {
  }

  /** A source column: its lower-cased name contains 'source'. */
  predicate IsSourceColumn(c: string)
  {
    Contains(Lower(c), SourceWord)
  }

  /** The source columns of the merged frame, in order. */
  function SourceColumns(m: Frame): (srcs: seq<string>)
    ensures AllIn(srcs, m.cols)
    ensures forall c :: c in srcs <==> c in m.cols && IsSourceColumn(c)
  {
    Filter(m.cols, IsSourceColumn)
  }

  /** `l.remove(x)` when x is in l: the first x goes; nothing happens otherwise. */
  function RemoveFirst(s: seq<string>, x: string): (r: seq<string>)
    ensures x !in s ==> r == s
    ensures |r| == if x in s then |s| - 1 else |s|
  {
    if |s| == 0 then s
    else if s[0] == x then s[1..]
    else
      assert x in s[1..] <==> x in s;
      [s[0]] + RemoveFirst(s[1..], x)
  }

  /** Only the first occurrence is removed: everything before it and after it stays. */
  lemma {:induction false} RemoveFirstAt(s: seq<string>, x: string, k: nat)
    requires k < |s| && s[k] == x && x !in s[..k]
    ensures RemoveFirst(s, x) == s[..k] + s[k + 1..]
  {
    if k > 0 {
      assert s[0] in s[..k];
      assert s[1..][..k - 1] == s[1..k];
      assert x !in s[1..][..k - 1];
      RemoveFirstAt(s[1..], x, k - 1);
      assert s[..k] == [s[0]] + s[1..k];
      assert s[1..][k..] == s[k + 1..];
    }
  }

  /** rmv_empty_sources on one row: the text of its list of sources without the first ''. */
  function SourcesText(vals: seq<string>): string
  {
    PyListRepr(RemoveFirst(vals, ""))
  }

  function ListedSources(f: Frame, cs: seq<string>): (vals: seq<Cell>)
    ensures |vals| == |f.rows|
  {
    seq(|f.rows|, i requires 0 <= i < |f.rows| => Some(SourcesText(NC.Texts(f.cols, f.rows[i], cs))))
  }

  /** The merged frame after its source columns are filled with '', listed into Sources and dropped. */
  function WithSources(m: Frame): (s: Frame)
    requires WellFormed(m)
    ensures WellFormed(s) && |s.rows| == |m.rows|
  {
    var srcs := SourceColumns(m);
    var filled := MapFront(m, srcs, NC.EmptyIfMissing);
    DropColumns(SetColumn(filled, NC.SourcesCol, ListedSources(filled, srcs)), Filter(srcs, NotIn([NC.SourcesCol])))
  }

  /** 'Sources' is itself a source column, so it is kept and overwritten. */
  lemma SourcesIsSourceColumn()
    ensures IsSourceColumn(NC.SourcesCol)
  {
    assert Lower(NC.SourcesCol)[..6] == SourceWord;
    ContainsPrefix(Lower(NC.SourcesCol), SourceWord);
  }

  /** The columns WithSources leaves: Sources, and the other columns of the merged frame that are not source columns. */
  lemma WithSourcesColumns(m: Frame)
    requires WellFormed(m)
    ensures NC.SourcesCol in WithSources(m).cols
    ensures forall c :: c in WithSources(m).cols && c != NC.SourcesCol ==> c in m.cols && !IsSourceColumn(c)
    ensures forall c :: c in m.cols && !IsSourceColumn(c) ==> c in WithSources(m).cols
  {
    var srcs := SourceColumns(m);
    var filled := MapFront(m, srcs, NC.EmptyIfMissing);
    var joined := SetColumn(filled, NC.SourcesCol, ListedSources(filled, srcs));
    var dropped := Filter(srcs, NotIn([NC.SourcesCol]));
    assert WithSources(m) == DropColumns(joined, dropped);
    assert NC.SourcesCol !in dropped;
    forall c | c in m.cols && !IsSourceColumn(c) ensures c !in dropped {
    }
    forall c | c in joined.cols && c !in dropped && c != NC.SourcesCol ensures c !in srcs {
      assert c in srcs ==> NotIn([NC.SourcesCol])(c);
    }
  }

  /** Sources of each merged row is the list text of its filled source cells without the first ''. */
  lemma WithSourcesValue(m: Frame, i: nat)
    requires WellFormed(m) && i < |m.rows|
    ensures NC.SourcesCol in WithSources(m).cols
    ensures Value(WithSources(m).cols, WithSources(m).rows[i], NC.SourcesCol)
      == Some(SourcesText(NC.FilledTexts(m.cols, m.rows[i], SourceColumns(m))))
  {
    WithSourcesColumns(m);
    var srcs := SourceColumns(m);
    var filled := MapFront(m, srcs, NC.EmptyIfMissing);
    var joined := SetColumn(filled, NC.SourcesCol, ListedSources(filled, srcs));
    var s := WithSources(m);
    assert s == DropColumns(joined, Filter(srcs, NotIn([NC.SourcesCol])));
    assert NC.Texts(filled.cols, filled.rows[i], srcs) == NC.FilledTexts(m.cols, m.rows[i], srcs) by {
      forall k | 0 <= k < |srcs|
        ensures NC.Texts(filled.cols, filled.rows[i], srcs)[k] == NC.FilledTexts(m.cols, m.rows[i], srcs)[k]
      {
        assert srcs[k] in srcs;
        MapFrontMapped(m, srcs, NC.EmptyIfMissing, srcs[k], i);
      }
    }
    assert Value(s.cols, s.rows[i], NC.SourcesCol) == Value(joined.cols, joined.rows[i], NC.SourcesCol);
  }

  /** Every other column WithSources leaves keeps its values. */
  lemma WithSourcesKeeps(m: Frame, i: nat, c: string)
    requires WellFormed(m) && i < |m.rows| && c in WithSources(m).cols && c != NC.SourcesCol
    ensures Value(WithSources(m).cols, WithSources(m).rows[i], c) == Value(m.cols, m.rows[i], c)
  {
    WithSourcesColumns(m);
    var srcs := SourceColumns(m);
    var filled := MapFront(m, srcs, NC.EmptyIfMissing);
    var joined := SetColumn(filled, NC.SourcesCol, ListedSources(filled, srcs));
    var s := WithSources(m);
    assert s == DropColumns(joined, Filter(srcs, NotIn([NC.SourcesCol])));
    assert c !in srcs;
    assert Value(s.cols, s.rows[i], c) == Value(joined.cols, joined.rows[i], c);
    SetColumnKeepsOthers(filled, NC.SourcesCol, ListedSources(filled, srcs), c, i);
    MapFrontKeepsOthers(m, srcs, NC.EmptyIfMissing, c, i);
  }

  /** A column named with an accepted identifier of the species, which the rank and name merges leave alone. */
  predicate IsSpeciesNotId(c: string)
  {
    Contains(c, NC.AccSpeciesCol) && !Contains(c, "_ID")
  }

  /** The accepted columns merge_on_accepted_id merges. */
  predicate IsAcceptedLike(c: string)
  {
    Contains(c, NC.AccNameCol) || Contains(c, NC.AccSpeciesCol) || Contains(c, AccSpeciesIdCol) || Contains(c, NC.AccRankCol)
  }

  /** The four merged accepted columns. */
  predicate IsAcceptedCol(c: string)
  {
    c == NC.AccNameCol || c == NC.AccSpeciesCol || c == AccSpeciesIdCol || c == NC.AccRankCol
  }

  /**
   * The four merge_columns calls: the accepted name, the species (without
   * its identifier columns), the species identifier (columns listed before
   * the species merge) and the rank.
   */
  function AcceptedMerged(s: Frame): (r: Frame)
    requires WellFormed(s)
    ensures WellFormed(r) && |r.rows| == |s.rows|
  {
    var f1 := MergedIfSeveral(s, NC.AccNameCol, Filter(s.cols, NC.ContainsText(NC.AccNameCol)));
    var idCols := Filter(f1.cols, NC.ContainsText(AccSpeciesIdCol));
    var f2 := MergedIfSeveral(f1, NC.AccSpeciesCol, Filter(f1.cols, IsSpeciesNotId));
    var f3 := MergedIfSeveral(f2, AccSpeciesIdCol, idCols);
    MergedIfSeveral(f3, NC.AccRankCol, Filter(f3.cols, NC.ContainsText(NC.AccRankCol)))
  }

  /** merge_on_accepted_id: a key error when either frame lacks Accepted_ID. */
  function MergeOnAcceptedIdOf(x: Frame, y: Frame): (r: Result<Frame>)
    requires WellFormed(x)
    ensures r.Err? <==> NC.AccIdCol !in x.cols || NC.AccIdCol !in y.cols
    ensures r.Ok? ==> WellFormed(r.value)
  {
    match OuterMerge(x, y, NC.AccIdCol)
    case Err(e) => Err(e)
    case Ok(m) => Ok(AcceptedMerged(WithSources(m)))
  }

  /**
   * The accepted merges keep every column that mentions none of the
   * accepted columns, with its values, and add no column but the four
   * accepted ones.
   */
  lemma AcceptedMergedMeaning(s: Frame, i: nat)
    requires WellFormed(s) && i < |s.rows|
    ensures forall c :: c in s.cols && !IsAcceptedLike(c) ==>
      c in AcceptedMerged(s).cols && Value(AcceptedMerged(s).cols, AcceptedMerged(s).rows[i], c) == Value(s.cols, s.rows[i], c)
    ensures forall c :: c in AcceptedMerged(s).cols ==> c in s.cols || IsAcceptedCol(c)
  {
    var f1 := MergedIfSeveral(s, NC.AccNameCol, Filter(s.cols, NC.ContainsText(NC.AccNameCol)));
    var idCols := Filter(f1.cols, NC.ContainsText(AccSpeciesIdCol));
    var f2 := MergedIfSeveral(f1, NC.AccSpeciesCol, Filter(f1.cols, IsSpeciesNotId));
    var f3 := MergedIfSeveral(f2, AccSpeciesIdCol, idCols);
    var r := AcceptedMerged(s);
    assert r == MergedIfSeveral(f3, NC.AccRankCol, Filter(f3.cols, NC.ContainsText(NC.AccRankCol)));
    forall c | c in s.cols && !IsAcceptedLike(c)
      ensures c in r.cols && Value(r.cols, r.rows[i], c) == Value(s.cols, s.rows[i], c)
    {
      ContainsSelf(NC.AccNameCol);
      ContainsSelf(NC.AccSpeciesCol);
      ContainsSelf(AccSpeciesIdCol);
      ContainsSelf(NC.AccRankCol);
      MergedKeeps(s, NC.AccNameCol, Filter(s.cols, NC.ContainsText(NC.AccNameCol)), c, i);
      MergedKeeps(f1, NC.AccSpeciesCol, Filter(f1.cols, IsSpeciesNotId), c, i);
      MergedKeeps(f2, AccSpeciesIdCol, idCols, c, i);
      MergedKeeps(f3, NC.AccRankCol, Filter(f3.cols, NC.ContainsText(NC.AccRankCol)), c, i);
    }
    MergedColumnsFrom(s, NC.AccNameCol, Filter(s.cols, NC.ContainsText(NC.AccNameCol)));
    MergedColumnsFrom(f1, NC.AccSpeciesCol, Filter(f1.cols, IsSpeciesNotId));
    MergedColumnsFrom(f2, AccSpeciesIdCol, idCols);
    MergedColumnsFrom(f3, NC.AccRankCol, Filter(f3.cols, NC.ContainsText(NC.AccRankCol)));
  }

  /** An occurrence of sub at k puts sub's j-th character at k + j. */
  lemma CharAt(s: string, sub: string, k: nat, j: nat)
    requires ContainsAt(s, sub, k) && j < |sub|
    ensures s[k + j] == sub[j]
  {
    assert s[k..k + |sub|][j] == s[k + j];
  }

  /** A name without 'u' or 'U' is not a source column. */
  lemma NoUNotSource(c: string)
    requires 'u' !in c && 'U' !in c
    ensures !IsSourceColumn(c)
  {
    if IsSourceColumn(c) {
      var k :| 0 <= k <= |Lower(c)| - |SourceWord| && ContainsAt(Lower(c), SourceWord, k);
      CharAt(Lower(c), SourceWord, k, 2);
      assert false;
    }
  }

  /** None of the accepted columns is a source column, and 'Sources' mentions none of them. */
  lemma AcceptedApartFromSources()
    ensures forall c :: IsAcceptedCol(c) ==> !IsSourceColumn(c)
    ensures !IsAcceptedLike(NC.SourcesCol)
  {
    NoUNotSource(NC.AccNameCol);
    NoUNotSource(NC.AccSpeciesCol);
    NoUNotSource(AccSpeciesIdCol);
    NoUNotSource(NC.AccRankCol);
  }

  /**
   * merge_on_accepted_id: the outer merge on Accepted_ID whose Sources
   * cell is, row by row, the list text of all its source columns (missing
   * read as '') without the first '', and which keeps no other source
   * column.
   */
  lemma MergeOnAcceptedIdMeaning(x: Frame, y: Frame, i: nat)
    requires WellFormed(x) && NC.AccIdCol in x.cols && NC.AccIdCol in y.cols
    requires i < |OuterMerge(x, y, NC.AccIdCol).value.rows|
    ensures NC.SourcesCol in MergeOnAcceptedIdOf(x, y).value.cols
    ensures Value(MergeOnAcceptedIdOf(x, y).value.cols, MergeOnAcceptedIdOf(x, y).value.rows[i], NC.SourcesCol)
      == Some(SourcesText(NC.FilledTexts(OuterMerge(x, y, NC.AccIdCol).value.cols, OuterMerge(x, y, NC.AccIdCol).value.rows[i],
                                         SourceColumns(OuterMerge(x, y, NC.AccIdCol).value))))
    ensures forall c :: c in MergeOnAcceptedIdOf(x, y).value.cols && IsSourceColumn(c) ==> c == NC.SourcesCol
  {
    var m := OuterMerge(x, y, NC.AccIdCol).value;
    var s := WithSources(m);
    var r := AcceptedMerged(s);
    assert MergeOnAcceptedIdOf(x, y).value == r;
    WithSourcesColumns(m);
    WithSourcesValue(m, i);
    AcceptedApartFromSources();
    AcceptedMergedMeaning(s, i);
  }

  /** merge_on_accepted_id, with its loop that fills the source columns. */
  method MergeOnAcceptedId(x: Frame, y: Frame) returns (r: Result<Frame>)
    requires WellFormed(x)
    ensures r == MergeOnAcceptedIdOf(x, y)
  {
    var merged := OuterMerge(x, y, NC.AccIdCol);
    if merged.Err? {
      return Err(merged.error);
    }
    var m := merged.value;
    var srcs := SourceColumns(m);
    var cur := m;
    var k := 0;
    while k < |srcs|
      invariant 0 <= k <= |srcs|
      invariant WellFormed(cur) && cur.cols == m.cols && |cur.rows| == |m.rows|
      invariant MapFront(cur, srcs[k..], NC.EmptyIfMissing) == MapFront(m, srcs, NC.EmptyIfMissing)
    {
      assert srcs[k..][1..] == srcs[k + 1..];
      cur := MapColumn(cur, srcs[k], NC.EmptyIfMissing);
      k := k + 1;
    }
    var withSources := SetColumn(cur, NC.SourcesCol, ListedSources(cur, srcs));
    withSources := DropColumns(withSources, Filter(srcs, NotIn([NC.SourcesCol])));
    r := Ok(AcceptedMerged(withSources));
  }

  // ---- compile_hits ----

  /** cols_to_keep: the vocabulary, then every source and every snippet column. */
  function KeptColumns(fs: seq<Frame>): (keep: seq<string>)
    ensures NC.AccNameCol in keep && NC.AccIdCol in keep && NC.SourceCol in keep
  {
    assert ColNames[0] == NC.AccNameCol && ColNames[2] == NC.AccIdCol && ColNames[4] == NC.SourceCol;
    ColNames + NC.ColumnsMentioning(fs, "source") + NC.ColumnsMentioning(fs, "snippet")
  }

  /** The fold of merge_on_accepted_id over the remaining frames. */
  function MergeAll(acc: Frame, rest: seq<Frame>): (r: Result<Frame>)
    requires WellFormed(acc)
    ensures r.Ok? ==> WellFormed(r.value)
    decreases |rest|
  {
    if |rest| == 0 then Ok(acc)
    else if NC.AccIdCol !in acc.cols || NC.AccIdCol !in rest[0].cols then Err("KeyError: " + NC.AccIdCol)
    else MergeAll(MergeOnAcceptedIdOf(acc, rest[0]).value, rest[1..])
  }

  const StartCols: seq<string> := [NC.AccNameCol, NC.AccIdCol, NC.AccRankCol, NC.AccSpeciesCol, AccSpeciesIdCol]

  /**
   * The last steps of compile_hits: the name columns first, Sources last,
   * then the first row of each Accepted_ID (a missing identifier counting
   * as one value).
   */
  function Finished(m: Result<Frame>): (r: Result<Frame>)
    requires m.Ok? ==> WellFormed(m.value)
    ensures m.Err? ==> r == m
    ensures r.Ok? ==> WellFormed(r.value) && forall i, j :: 0 <= i < j < |r.value.rows| ==>
      Value(r.value.cols, r.value.rows[i], NC.AccIdCol) != Value(r.value.cols, r.value.rows[j], NC.AccIdCol)
    ensures r.Ok? ==> |r.value.cols| > 0 && r.value.cols[|r.value.cols| - 1] == NC.SourcesCol
    ensures r.Ok? ==> forall j1, j2 :: 0 <= j1 < j2 < |r.value.cols| - 1 && r.value.cols[j2] in StartCols ==> r.value.cols[j1] in StartCols
  {
    match m
    case Err(e) => Err(e)
    case Ok(f) =>
      if NC.SourcesCol !in f.cols then Err("KeyError: " + NC.SourcesCol)
      else
        var a := Arranged(f, StartCols, NC.SourcesCol);
        if NC.AccIdCol !in a.cols then Err("KeyError: " + NC.AccIdCol)
        else Ok(DropDuplicatesOn(a, NC.AccIdCol))
  }

  /** Every Accepted_ID of the merged frame keeps a row, whose cells are those of a merged row. */
  lemma FinishedCovers(f: Frame, i: nat)
    requires WellFormed(f) && i < |f.rows| && Finished(Ok(f)).Ok?
    ensures exists j :: (0 <= j < |Finished(Ok(f)).value.rows| &&
      Value(Finished(Ok(f)).value.cols, Finished(Ok(f)).value.rows[j], NC.AccIdCol) == Value(f.cols, f.rows[i], NC.AccIdCol))
  {
    var a := Arranged(f, StartCols, NC.SourcesCol);
    DistinctByCovers(a.rows, KeyOf(a.cols, NC.AccIdCol), i);
  }

  function CleanedAll(fs: seq<Frame>, keep: seq<string>): (cs: seq<Frame>)
    ensures |cs| == |fs| && forall k :: 0 <= k < |fs| ==> cs[k] == NC.Cleaned(fs[k], keep)
  {
    seq(|fs|, k requires 0 <= k < |fs| => NC.Cleaned(fs[k], keep))
  }

  /** The merges and the last steps of compile_hits, from the cleaned copies. */
  function FromCleaned(cs: seq<Frame>): (r: Result<Frame>)
    requires |cs| > 0 && WellFormed(cs[0]) && NC.SourceCol in cs[0].cols
  {
    Finished(MergeAll(NC.SourceRenamed(cs[0]), cs[1..]))
  }

  /**
   * compile_hits up to writing the file: a key error when a frame lacks
   * Accepted_Name or the first lacks Source, an index error with no
   * frames; otherwise the merge of the cleaned copies, finished as above.
   */
  function Compiled(fs: seq<Frame>): (r: Result<Frame>)
  {
    var keep := KeptColumns(fs);
    if NC.FirstLacking(fs).Some? then Err("KeyError: " + NC.AccNameCol)
    else if |fs| == 0 then Err("IndexError: list index out of range")
    else if NC.SourceCol !in fs[0].cols then Err("KeyError: " + NC.SourceCol)
    else
      NC.CleanedKeepsSource(fs[0], keep);
      FromCleaned(CleanedAll(fs, keep))
  }

  /** The error cases of compile_hits. */
  lemma CompiledErrors(fs: seq<Frame>)
    ensures NC.FirstLacking(fs).Some? ==> Compiled(fs) == Err("KeyError: " + NC.AccNameCol)
    ensures NC.FirstLacking(fs).None? && |fs| == 0 ==> Compiled(fs) == Err("IndexError: list index out of range")
    ensures NC.FirstLacking(fs).None? && |fs| > 0 && NC.SourceCol !in fs[0].cols ==> Compiled(fs) == Err("KeyError: " + NC.SourceCol)
  {
  }

  /** The result of compile_hits: Sources last and at most one row per Accepted_ID. */
  lemma CompiledShape(fs: seq<Frame>)
    requires Compiled(fs).Ok?
    ensures WellFormed(Compiled(fs).value)
    ensures |Compiled(fs).value.cols| > 0 && Compiled(fs).value.cols[|Compiled(fs).value.cols| - 1] == NC.SourcesCol
    ensures forall i, j :: 0 <= i < j < |Compiled(fs).value.rows| ==>
      Value(Compiled(fs).value.cols, Compiled(fs).value.rows[i], NC.AccIdCol) != Value(Compiled(fs).value.cols, Compiled(fs).value.rows[j], NC.AccIdCol)
  {
    CompiledFromCleaned(fs);
  }

  /** Past its error cases, compile_hits is the merge of the cleaned copies. */
  lemma CompiledFromCleaned(fs: seq<Frame>)
    requires NC.FirstLacking(fs).None? && |fs| > 0 && NC.SourceCol in fs[0].cols
    ensures NC.SourceCol in NC.Cleaned(fs[0], KeptColumns(fs)).cols
    ensures Compiled(fs) == FromCleaned(CleanedAll(fs, KeptColumns(fs)))
  {
    NC.CleanedKeepsSource(fs[0], KeptColumns(fs));
  }

  /** One pass of the cleaning loop: the copy of f without the unkept columns and the rows without a name. */
  method CleanCopy(f: Frame, keep: seq<string>) returns (r: Result<Frame>)
    requires NC.AccNameCol in keep
    ensures r.Ok? <==> NC.HasName(f)
    ensures r.Ok? ==> r.value == NC.Cleaned(f, keep)
  {
    NC.TrimmedKeepsName(f, keep);
    var g := NC.Trimmed(f, keep);
    if NC.AccNameCol !in g.cols {
      return Err("KeyError: " + NC.AccNameCol);
    }
    r := Ok(DropNa(g, NC.AccNameCol));
  }

  /** The invariant of the cleaning loop: the first k frames are cleaned, and each had a name column. */
  ghost predicate CleanedPrefix(fs: seq<Frame>, keep: seq<string>, k: nat, cleaned: seq<Frame>)
  {
    k <= |fs| && cleaned == CleanedAll(fs[..k], keep) && forall j :: 0 <= j < k ==> NC.HasName(fs[j])
  }

  lemma CleanedPrefixStep(fs: seq<Frame>, keep: seq<string>, k: nat, cleaned: seq<Frame>, c: Frame)
    requires CleanedPrefix(fs, keep, k, cleaned) && k < |fs| && NC.HasName(fs[k]) && c == NC.Cleaned(fs[k], keep)
    ensures CleanedPrefix(fs, keep, k + 1, cleaned + [c])
  {
    assert fs[..k + 1][..k] == fs[..k];
  }

  /** The cleaning loop, on copies of the frames. */
  method CleanCopies(fs: seq<Frame>, keep: seq<string>) returns (r: Result<seq<Frame>>)
    requires NC.AccNameCol in keep
    ensures r.Err? <==> NC.FirstLacking(fs).Some?
    ensures r.Ok? ==> r.value == CleanedAll(fs, keep)
  {
    var cleaned: seq<Frame> := [];
    var k := 0;
    while k < |fs|
      invariant CleanedPrefix(fs, keep, k, cleaned)
    {
      var c := CleanCopy(fs[k], keep);
      if c.Err? {
        NC.FirstLackingAt(fs, k);
        return Err(c.error);
      }
      CleanedPrefixStep(fs, keep, k, cleaned, c.value);
      cleaned := cleaned + [c.value];
      k := k + 1;
    }
    assert fs[..k] == fs;
    NC.FirstLackingNone(fs);
    r := Ok(cleaned);
  }

  /** The merge loop of compile_hits. */
  method MergeFrames(acc: Frame, rest: seq<Frame>) returns (r: Result<Frame>)
    requires WellFormed(acc)
    ensures r == MergeAll(acc, rest)
  {
    var merged := acc;
    var i := 0;
    while i < |rest|
      invariant 0 <= i <= |rest|
      invariant WellFormed(merged)
      invariant MergeAll(merged, rest[i..]) == MergeAll(acc, rest)
    {
      assert rest[i..][0] == rest[i] && rest[i..][1..] == rest[i + 1..];
      if NC.AccIdCol !in merged.cols || NC.AccIdCol !in rest[i].cols {
        return Err("KeyError: " + NC.AccIdCol);
      }
      var m := MergeOnAcceptedId(merged, rest[i]);
      merged := m.value;
      i := i + 1;
    }
    assert rest[i..] == [];
    r := Ok(merged);
  }

  /** compile_hits after the cleaning loop: the merges, the arrangement and the de-duplication. */
  method CompileCleaned(cs: seq<Frame>) returns (r: Result<Frame>)
    requires |cs| > 0 && WellFormed(cs[0]) && NC.SourceCol in cs[0].cols
    ensures r == FromCleaned(cs)
  {
    var first := NC.SourceRenamed(cs[0]);
    var merged := MergeFrames(first, cs[1..]);
    if merged.Err? {
      return Err(merged.error);
    }
    if NC.SourcesCol !in merged.value.cols {
      return Err("KeyError: " + NC.SourcesCol);
    }
    var a := Arranged(merged.value, StartCols, NC.SourcesCol);
    if NC.AccIdCol !in a.cols {
      return Err("KeyError: " + NC.AccIdCol);
    }
    r := Ok(DropDuplicatesOn(a, NC.AccIdCol));
  }

  /**
   * compile_hits: it reads the frames of its list and changes none of
   * them (it works on cleaned copies); writing the result is left to the
   * caller.
   */
  method CompileHits(dfs: FrameList) returns (r: Result<Frame>)
    ensures r == Compiled(dfs.frames)
  {
    var fs := dfs.frames;
    var sources, snippets := NC.CollectMentions(fs);
    var keep := ColNames + sources + snippets;
    assert keep == KeptColumns(fs);
    var cleaned := CleanCopies(fs, keep);
    CompiledErrors(fs);
    if cleaned.Err? {
      return Err("KeyError: " + NC.AccNameCol);
    }
    if |fs| == 0 {
      return Err("IndexError: list index out of range");
    }
    if NC.SourceCol !in fs[0].cols {
      return Err("KeyError: " + NC.SourceCol);
    }
    CompiledFromCleaned(fs);
    r := CompileCleaned(cleaned.value);
  }
}
