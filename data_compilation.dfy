/**
 * Compiling the hits of several sources into one table
 * (data_compilation_methods/compiling_datasets.py).  Each input frame is
 * trimmed to the WCVP accepted-name columns and its source columns, its
 * rows without an accepted name-with-author are dropped, and its rows whose
 * (name-with-author, Source) pair already occurs in an earlier cleaned
 * frame are dropped.  The cleaned frames are concatenated, each
 * name-with-author gets the sorted list of its distinct sources, one row is
 * kept per name-with-author, the columns are arranged and the rows sorted
 * by accepted name.  Writing the CSV files is left out.
 */
module DataCompilation {
  import opened Base
  import opened Strs
  import opened Frames
  import NC = NameCleaning

  // The WCVP accepted-name columns (`wcvp_accepted_columns` of the wcvp_download package).
  const NameCol := "accepted_name"
  const NameWithAuthorCol := "accepted_name_w_author"
  const IpniIdCol := "accepted_ipni_id"
  const RankCol := "accepted_rank"
  const SpeciesCol := "accepted_species"
  const SpeciesWithAuthorCol := "accepted_species_w_author"
  const SpeciesIpniIdCol := "accepted_species_ipni_id"
  const FamilyCol := "accepted_family"

  const SingleSourceCol := "Source"
  const CompiledSourcesCol := "Compiled_Sources"

  /** The name columns put at the beginning of the output. */
  const StartCols := [NameCol, NameWithAuthorCol, IpniIdCol, RankCol, SpeciesCol, SpeciesWithAuthorCol, SpeciesIpniIdCol, FamilyCol]

  const OutputColNames := StartCols + [CompiledSourcesCol]

  const NoSourceError := "ValueError: No source given in dataframe"
  const NoNameWithAuthorError := "KeyError: " + NameWithAuthorCol
  const NoObjectsError := "ValueError: No objects to concatenate"
  const NoNameError := "KeyError: " + NameCol
  const DuplicateHitsError := "ValueError: Duplicate hits found these should have been merged"
  /** Sorting a group's sources that mixes a missing Source (a float NaN) with a text. */
  const MixedSourcesError := "TypeError: " + "'<' not supported between instances of 'float' and 'str'"
  /** `str([nan])`: the list of a group whose every Source is missing. */
  const NanList := "[nan]"

  // ---- Python's order on texts, and `sorted(set(xs))` ----

  /** Python's `<` on texts: character by character, a proper prefix first. */
  predicate StrLt(a: string, b: string)
  {
    if |a| == 0 then |b| > 0
    else |b| > 0 && (a[0] < b[0] || (a[0] == b[0] && StrLt(a[1..], b[1..])))
  }

  lemma {:induction false} StrLtIrreflexive(a: string)
    ensures !StrLt(a, a)
  {
    if |a| > 0 {
      StrLtIrreflexive(a[1..]);
    }
  }

  lemma {:induction false} StrLtTotal(a: string, b: string)
    ensures a == b || StrLt(a, b) || StrLt(b, a)
  {
    if |a| > 0 && |b| > 0 && a[0] == b[0] {
      StrLtTotal(a[1..], b[1..]);
      if a[1..] == b[1..] {
        assert a == [a[0]] + a[1..] && b == [b[0]] + b[1..];
      }
    }
  }

  lemma {:induction false} StrLtTrans(a: string, b: string, c: string)
    requires StrLt(a, b) && StrLt(b, c)
    ensures StrLt(a, c)
  {
    if |a| > 0 && a[0] == b[0] && b[0] == c[0] {
      StrLtTrans(a[1..], b[1..], c[1..]);
    }
  }

  predicate StrictlySorted(s: seq<string>)
  {
    forall i, j :: 0 <= i < j < |s| ==> StrLt(s[i], s[j])
  }

  /** The head of a strictly sorted list is below every later element, and the tail stays sorted. */
  lemma HeadBelowTail(s: seq<string>)
    requires StrictlySorted(s) && |s| > 0
    ensures StrictlySorted(s[1..])
    ensures forall y :: y in s[1..] ==> StrLt(s[0], y)
  {
    forall y | y in s[1..] ensures StrLt(s[0], y) {
      var m :| 0 <= m < |s[1..]| && s[1..][m] == y;
      assert s[m + 1] == y;
    }
  }

  /** A text below the head of a strictly sorted list is below all of it. */
  lemma BelowHead(x: string, s: seq<string>)
    requires StrictlySorted(s) && |s| > 0 && StrLt(x, s[0])
    ensures StrictlySorted([x] + s)
  {
    forall j | 0 < j < |s| ensures StrLt(x, s[j]) {
      StrLtTrans(x, s[0], s[j]);
    }
  }

  /** Adding a text to a strictly sorted list of distinct texts. */
  function InsertText(x: string, s: seq<string>): (r: seq<string>)
    requires StrictlySorted(s)
    ensures StrictlySorted(r)
    ensures forall y :: y in r <==> y == x || y in s
  {
    if |s| == 0 then [x]
    else if x == s[0] then s
    else if StrLt(x, s[0]) then
      BelowHead(x, s);
      [x] + s
    else
      StrLtTotal(x, s[0]);
      HeadBelowTail(s);
      assert s == [s[0]] + s[1..];
      var t := InsertText(x, s[1..]);
      assert forall y :: y in t ==> StrLt(s[0], y);
      [s[0]] + t
  }

  /** `out = list(set(xs)); out.sort()` (lines 13-16): the distinct texts of xs in increasing order. */
  function SortedDistinct(xs: seq<string>): (r: seq<string>)
    ensures StrictlySorted(r)
    ensures forall y :: y in r <==> y in xs
  {
    if |xs| == 0 then []
    else
      assert xs == xs[..|xs| - 1] + [xs[|xs| - 1]];
      InsertText(xs[|xs| - 1], SortedDistinct(xs[..|xs| - 1]))
  }

  lemma HeadMember(b: seq<string>)
    requires |b| > 0
    ensures b[0] in b
  {
  }

  /** Two strictly sorted lists with the same members are the same list. */
  lemma {:induction false} SortedUnique(a: seq<string>, b: seq<string>)
    requires StrictlySorted(a) && StrictlySorted(b)
    requires forall y :: y in a <==> y in b
    ensures a == b
  {
    if |a| > 0 {
      assert a[0] in a;
      assert |b| > 0 && b[0] in b;
      HeadBelowTail(a);
      HeadBelowTail(b);
      assert a == [a[0]] + a[1..] && b == [b[0]] + b[1..];
      if a[0] != b[0] {
        assert StrLt(a[0], b[0]) by {
          assert b[0] in a[1..];
        }
        assert StrLt(b[0], a[0]) by {
          assert a[0] in b[1..];
        }
        StrLtTrans(a[0], b[0], a[0]);
        StrLtIrreflexive(a[0]);
        assert false;
      }
      forall y ensures y in a[1..] <==> y in b[1..] {
        StrLtIrreflexive(y);
        if y in a[1..] {
          assert y in a && y != a[0];
          assert y in b && y != b[0];
        }
        if y in b[1..] {
          assert y in b && y != b[0];
          assert y in a && y != a[0];
        }
      }
      SortedUnique(a[1..], b[1..]);
    } else if |b| > 0 {
      HeadMember(b);
      assert false;
    }
  }

  // ---- removing the pairs already seen (lines 76-86) ----

  type Pair = (Cell, Cell)

  /** The (name-with-author, Source) pair of a row. */
  function PairOf(cols: seq<string>, row: seq<Cell>): Pair
  {
    (Value(cols, row, NameWithAuthorCol), Value(cols, row, SingleSourceCol))
  }

  function Pairs(c: Frame): (ps: seq<Pair>)
    ensures |ps| == |c.rows| && forall i :: 0 <= i < |c.rows| ==> ps[i] == PairOf(c.cols, c.rows[i])
  {
    seq(|c.rows|, i requires 0 <= i < |c.rows| => PairOf(c.cols, c.rows[i]))
  }

  function Unpaired(cols: seq<string>, ps: seq<Pair>): seq<Cell> -> bool
  {
    (row: seq<Cell>) => PairOf(cols, row) !in ps
  }

  /**
   * The outer merge with an earlier cleaned frame on the pair, keeping the
   * left-only rows: the rows whose pair that frame does not have.
   */
  function WithoutPairsOf(f: Frame, c: Frame): Frame
  {
    Frame(f.cols, Filter(f.rows, Unpaired(f.cols, Pairs(c))))
  }

  /** The anti-join with the first n earlier cleaned frames, one after the other. */
  function WithoutEarlier(f: Frame, cs: seq<Frame>, n: nat): Frame
    requires n <= |cs|
  {
    if n == 0 then f else WithoutPairsOf(WithoutEarlier(f, cs, n - 1), cs[n - 1])
  }

  /** Some frame of cs has a row with pair p. */
  predicate PairedIn(cs: seq<Frame>, p: Pair)
  {
    exists k :: 0 <= k < |cs| && p in Pairs(cs[k])
  }

  function Fresh(cols: seq<string>, cs: seq<Frame>): seq<Cell> -> bool
  {
    (row: seq<Cell>) => !PairedIn(cs, PairOf(cols, row))
  }

  /** A pair occurs in the frames and one more exactly when it occurs in the frames or in that one. */
  lemma PairedInSnoc(cs: seq<Frame>, c: Frame, p: Pair)
    ensures PairedIn(cs + [c], p) <==> PairedIn(cs, p) || p in Pairs(c)
  {
    if PairedIn(cs + [c], p) {
      var k :| 0 <= k < |cs| + 1 && p in Pairs((cs + [c])[k]);
      if k < |cs| {
        assert (cs + [c])[k] == cs[k];
      }
    }
    if PairedIn(cs, p) {
      var k :| 0 <= k < |cs| && p in Pairs(cs[k]);
      assert (cs + [c])[k] == cs[k];
    }
    if p in Pairs(c) {
      assert (cs + [c])[|cs|] == c;
    }
  }

  /** A row is fresh against n frames when it is fresh against n - 1 of them and unpaired in the last. */
  lemma FreshStep(cols: seq<string>, cs: seq<Frame>, n: nat, row: seq<Cell>)
    requires 0 < n <= |cs|
    ensures Fresh(cols, cs[..n])(row) <==> Fresh(cols, cs[..n - 1])(row) && Unpaired(cols, Pairs(cs[n - 1]))(row)
  {
    assert cs[..n] == cs[..n - 1] + [cs[n - 1]];
    PairedInSnoc(cs[..n - 1], cs[n - 1], PairOf(cols, row));
  }

  /** The repeated anti-join keeps, in order, exactly the rows whose pair no earlier frame has. */
  lemma {:induction false} WithoutEarlierIsFilter(f: Frame, cs: seq<Frame>, n: nat)
    requires n <= |cs|
    ensures WithoutEarlier(f, cs, n) == Frame(f.cols, Filter(f.rows, Fresh(f.cols, cs[..n])))
  {
    if n == 0 {
      FilterAll(f.rows, Fresh(f.cols, cs[..0]));
    } else {
      WithoutEarlierIsFilter(f, cs, n - 1);
      var p := Fresh(f.cols, cs[..n - 1]);
      var q := Unpaired(f.cols, Pairs(cs[n - 1]));
      forall row | row in f.rows ensures Fresh(f.cols, cs[..n])(row) <==> p(row) && q(row) {
        FreshStep(f.cols, cs, n, row);
      }
      FilterFilter(f.rows, p, q, Fresh(f.cols, cs[..n]));
    }
  }

  // ---- the cleaning loop (lines 67-89) ----

  predicate AllEmpty(fs: seq<Frame>)
  {
    forall k :: 0 <= k < |fs| ==> |fs[k].rows| == 0
  }

  /** cols_to_keep: the output columns, then every column mentioning 'source', frame by frame. */
  function Keep(fs: seq<Frame>): seq<string>
  {
    OutputColNames + NC.ColumnsMentioning(fs, "source")
  }

  /** A frame after the drop of the columns not kept and the `dropna` on the name-with-author. */
  function Cleaned(f: Frame, keep: seq<string>): Frame
    requires NameWithAuthorCol in f.cols && NameWithAuthorCol in keep
  {
    DropNa(NC.Trimmed(f, keep), NameWithAuthorCol)
  }

  /** A frame that passes both checks of the loop. */
  predicate Passes(f: Frame, keep: seq<string>)
  {
    SingleSourceCol in f.cols && NameWithAuthorCol in f.cols && NameWithAuthorCol in keep
  }

  /**
   * The first frame failing a check, where the loop raises.  The checks
   * look at the frame and the kept columns only, not at the frames cleaned
   * before it.
   */
  function FirstFailing(fs: seq<Frame>, keep: seq<string>): (b: Option<nat>)
    ensures b.None? <==> forall k :: 0 <= k < |fs| ==> Passes(fs[k], keep)
    ensures b.Some? ==> b.value < |fs| && !Passes(fs[b.value], keep) && forall k :: 0 <= k < b.value ==> Passes(fs[k], keep)
  {
    if |fs| == 0 then None
    else if !Passes(fs[0], keep) then Some(0)
    else
      match FirstFailing(fs[1..], keep)
      case None => None
      case Some(k) => Some(k + 1)
  }

  /**
   * The error of a frame failing the checks: the ValueError when it has no
   * Source column, otherwise the KeyError of the `dropna`.
   */
  function CheckError(f: Frame): string
  {
    if SingleSourceCol !in f.cols then NoSourceError else NoNameWithAuthorError
  }

  /**
   * One pass of the loop over a frame that passes: the trimming, the
   * `dropna`, the anti-join with every earlier cleaned frame, and the
   * append when rows are left.
   */
  function Step(f: Frame, keep: seq<string>, cs: seq<Frame>): seq<Frame>
    requires Passes(f, keep)
  {
    var g := WithoutEarlier(Cleaned(f, keep), cs, |cs|);
    if |g.rows| > 0 then cs + [g] else cs
  }

  /** `cleaned_dfs` after the loop over frames that all pass. */
  function Grown(fs: seq<Frame>, keep: seq<string>): seq<Frame>
    requires forall k :: 0 <= k < |fs| ==> Passes(fs[k], keep)
  {
    if |fs| == 0 then [] else Step(fs[|fs| - 1], keep, Grown(fs[..|fs| - 1], keep))
  }

  /** `cleaned_dfs` after the loop, or the error that stops it. */
  function CleanedFrames(fs: seq<Frame>, keep: seq<string>): Result<seq<Frame>>
  {
    match FirstFailing(fs, keep)
    case Some(k) => Err(CheckError(fs[k]))
    case None => Ok(Grown(fs, keep))
  }

  /** A frame the loop keeps: well formed, with both pair columns, every row with a name-with-author. */
  predicate Clean(g: Frame)
  {
    WellFormed(g) && NameWithAuthorCol in g.cols && SingleSourceCol in g.cols
    && forall i :: 0 <= i < |g.rows| ==> Value(g.cols, g.rows[i], NameWithAuthorCol).Some?
  }

  /** Dropping rows of a clean frame leaves it clean. */
  lemma WithoutEarlierClean(d: Frame, cs: seq<Frame>)
    requires Clean(d)
    ensures Clean(WithoutEarlier(d, cs, |cs|))
  {
    WithoutEarlierIsFilter(d, cs, |cs|);
    var g := WithoutEarlier(d, cs, |cs|);
    forall i | 0 <= i < |g.rows| ensures |g.rows[i]| == |g.cols| && Value(g.cols, g.rows[i], NameWithAuthorCol).Some? {
      var m :| 0 <= m < |d.rows| && d.rows[m] == g.rows[i];
    }
  }

  /** A cleaned frame is clean when Source is one of the kept columns. */
  lemma CleanedIsClean(f: Frame, keep: seq<string>)
    requires SingleSourceCol in f.cols && SingleSourceCol in keep && NameWithAuthorCol in f.cols && NameWithAuthorCol in keep
    ensures Clean(Cleaned(f, keep))
  {
  }

  /** With Source kept, every frame the loop keeps is clean and has rows. */
  lemma {:induction false} GrownClean(fs: seq<Frame>, keep: seq<string>, k: nat)
    requires (forall j :: 0 <= j < |fs| ==> Passes(fs[j], keep)) && SingleSourceCol in keep
    requires k < |Grown(fs, keep)|
    ensures Clean(Grown(fs, keep)[k]) && |Grown(fs, keep)[k].rows| > 0
  {
    var n := |fs| - 1;
    var cs := Grown(fs[..n], keep);
    if k < |cs| {
      GrownClean(fs[..n], keep, k);
    } else {
      CleanedIsClean(fs[n], keep);
      WithoutEarlierClean(Cleaned(fs[n], keep), cs);
    }
  }

  // ---- pd.concat (line 91) ----

  function ColumnLists(cs: seq<Frame>): (ls: seq<seq<string>>)
    ensures |ls| == |cs| && forall k :: 0 <= k < |cs| ==> ls[k] == cs[k].cols
  {
    seq(|cs|, k requires 0 <= k < |cs| => cs[k].cols)
  }

  /** The columns of the concatenation: every column of the frames, in order of first appearance. */
  function UnionCols(cs: seq<Frame>): seq<string>
  {
    Dedup(Flatten(ColumnLists(cs)))
  }

  /** The rows of a frame laid out on the given columns, missing where the frame lacks the column. */
  function Aligned(c: Frame, u: seq<string>): (rs: seq<seq<Cell>>)
    ensures |rs| == |c.rows| && forall i :: 0 <= i < |c.rows| ==> rs[i] == Project(c.cols, c.rows[i], u)
  {
    seq(|c.rows|, i requires 0 <= i < |c.rows| => Project(c.cols, c.rows[i], u))
  }

  function AlignedAll(cs: seq<Frame>, u: seq<string>): (ss: seq<seq<seq<Cell>>>)
    ensures |ss| == |cs| && forall k :: 0 <= k < |cs| ==> ss[k] == Aligned(cs[k], u)
  {
    seq(|cs|, k requires 0 <= k < |cs| => Aligned(cs[k], u))
  }

  /** The rows of the concatenation: the frames' rows one frame after another. */
  function ConcatRows(cs: seq<Frame>, u: seq<string>): seq<seq<Cell>>
  {
    Flatten(AlignedAll(cs, u))
  }

  /** Every row of the concatenation is a row of one of the frames. */
  lemma ConcatRowOrigin(cs: seq<Frame>, u: seq<string>, row: seq<Cell>)
    requires row in ConcatRows(cs, u)
    ensures exists k, i :: 0 <= k < |cs| && 0 <= i < |cs[k].rows| && row == Project(cs[k].cols, cs[k].rows[i], u)
  {
    FlattenMemberInv(AlignedAll(cs, u), row);
    var k :| 0 <= k < |cs| && row in AlignedAll(cs, u)[k];
    var i :| 0 <= i < |cs[k].rows| && Aligned(cs[k], u)[i] == row;
  }

  /** Every row of every frame is a row of the concatenation. */
  lemma ConcatRowKept(cs: seq<Frame>, u: seq<string>, k: nat, i: nat)
    requires k < |cs| && i < |cs[k].rows|
    ensures Project(cs[k].cols, cs[k].rows[i], u) in ConcatRows(cs, u)
  {
    assert Aligned(cs[k], u)[i] == Project(cs[k].cols, cs[k].rows[i], u);
    FlattenMember(AlignedAll(cs, u), k, Project(cs[k].cols, cs[k].rows[i], u));
  }

  /** Each column of each frame is a column of the concatenation. */
  lemma UnionColsCover(cs: seq<Frame>, k: nat, c: string)
    requires k < |cs| && c in cs[k].cols
    ensures c in UnionCols(cs)
  {
    FlattenMember(ColumnLists(cs), k, c);
    var j :| 0 <= j < |Flatten(ColumnLists(cs))| && Flatten(ColumnLists(cs))[j] == c;
  }

  /** Laying a row out on columns that include both pair columns keeps its pair. */
  lemma AlignedPair(cols: seq<string>, row: seq<Cell>, u: seq<string>)
    requires NameWithAuthorCol in u && SingleSourceCol in u
    ensures PairOf(u, Project(cols, row, u)) == PairOf(cols, row)
  {
  }

  lemma ConcatClean(cs: seq<Frame>)
    requires |cs| > 0 && forall k :: 0 <= k < |cs| ==> Clean(cs[k])
    ensures Clean(Frame(UnionCols(cs), ConcatRows(cs, UnionCols(cs))))
  {
    var u := UnionCols(cs);
    UnionColsCover(cs, 0, NameWithAuthorCol);
    UnionColsCover(cs, 0, SingleSourceCol);
    var rs := ConcatRows(cs, u);
    forall m | 0 <= m < |rs| ensures |rs[m]| == |u| && Value(u, rs[m], NameWithAuthorCol).Some? {
      ConcatRowOrigin(cs, u, rs[m]);
      var k, i :| 0 <= k < |cs| && 0 <= i < |cs[k].rows| && rs[m] == Project(cs[k].cols, cs[k].rows[i], u);
      AlignedPair(cs[k].cols, cs[k].rows[i], u);
    }
  }

  /** `pd.concat(cleaned_dfs)`, which raises on an empty list. */
  function Concat(cs: seq<Frame>): (r: Result<Frame>)
    requires forall k :: 0 <= k < |cs| ==> Clean(cs[k])
    ensures r.Err? <==> |cs| == 0
    ensures r.Ok? ==> Clean(r.value)
  {
    if |cs| == 0 then Err(NoObjectsError)
    else
      ConcatClean(cs);
      Ok(Frame(UnionCols(cs), ConcatRows(cs, UnionCols(cs))))
  }

  /** The pair of each row of the concatenation occurs in one of the frames. */
  lemma ConcatPairFrom(cs: seq<Frame>, m: nat)
    requires |cs| > 0 && forall k :: 0 <= k < |cs| ==> Clean(cs[k])
    requires m < |Concat(cs).value.rows|
    ensures PairedIn(cs, PairOf(Concat(cs).value.cols, Concat(cs).value.rows[m]))
  {
    var c := Concat(cs).value;
    var u := c.cols;
    UnionColsCover(cs, 0, NameWithAuthorCol);
    UnionColsCover(cs, 0, SingleSourceCol);
    ConcatRowOrigin(cs, u, c.rows[m]);
    var k, i :| 0 <= k < |cs| && 0 <= i < |cs[k].rows| && c.rows[m] == Project(cs[k].cols, cs[k].rows[i], u);
    AlignedPair(cs[k].cols, cs[k].rows[i], u);
    assert Pairs(cs[k])[i] == PairOf(u, c.rows[m]);
  }

  /** Every pair of one of the frames occurs in the concatenation. */
  lemma ConcatPairTo(cs: seq<Frame>, p: Pair)
    requires |cs| > 0 && forall k :: 0 <= k < |cs| ==> Clean(cs[k])
    requires PairedIn(cs, p)
    ensures exists m :: 0 <= m < |Concat(cs).value.rows| && PairOf(Concat(cs).value.cols, Concat(cs).value.rows[m]) == p
  {
    var c := Concat(cs).value;
    var u := c.cols;
    UnionColsCover(cs, 0, NameWithAuthorCol);
    UnionColsCover(cs, 0, SingleSourceCol);
    var k :| 0 <= k < |cs| && p in Pairs(cs[k]);
    var i :| 0 <= i < |cs[k].rows| && Pairs(cs[k])[i] == p;
    ConcatRowKept(cs, u, k, i);
    AlignedPair(cs[k].cols, cs[k].rows[i], u);
    var m :| 0 <= m < |c.rows| && c.rows[m] == Project(cs[k].cols, cs[k].rows[i], u);
  }

  // ---- _aggregate_data_on_accepted_names (lines 10-27) ----

  function KeyedSource(cols: seq<string>, key: Cell): seq<Cell> -> bool
  {
    (row: seq<Cell>) => Value(cols, row, NameWithAuthorCol) == key && Value(cols, row, SingleSourceCol).Some?
  }

  /** The Source texts of the rows with a given name-with-author, in row order. */
  function PresentSources(c: Frame, key: Cell): seq<string>
  {
    var rs := Filter(c.rows, KeyedSource(c.cols, key));
    seq(|rs|, i requires 0 <= i < |rs| => Value(c.cols, rs[i], SingleSourceCol).value)
  }

  /** The group's list: its distinct sources, sorted. */
  function SourcesOf(c: Frame, key: Cell): seq<string>
  {
    SortedDistinct(PresentSources(c, key))
  }

  /**
   * The list for a name-with-author is strictly increasing and holds
   * exactly the sources some row pairs with it.
   */
  lemma SourcesOfMeaning(c: Frame, key: Cell, x: string)
    ensures StrictlySorted(SourcesOf(c, key))
    ensures x in SourcesOf(c, key) <==> exists m :: 0 <= m < |c.rows| && PairOf(c.cols, c.rows[m]) == (key, Some(x))
  {
    var rs := Filter(c.rows, KeyedSource(c.cols, key));
    var ps := PresentSources(c, key);
    if x in ps {
      var i :| 0 <= i < |ps| && ps[i] == x;
      var m :| 0 <= m < |c.rows| && c.rows[m] == rs[i];
      assert PairOf(c.cols, c.rows[m]) == (key, Some(x));
    }
    if m :| 0 <= m < |c.rows| && PairOf(c.cols, c.rows[m]) == (key, Some(x)) {
      assert KeyedSource(c.cols, key)(c.rows[m]);
      var i :| 0 <= i < |rs| && rs[i] == c.rows[m];
      assert ps[i] == x;
    }
  }

  /**
   * The list `_unique_sources` gives a group, as written out: its sorted
   * texts, or a lone NaN when none of its rows has a Source.
   */
  function GroupList(c: Frame, key: Cell): string
  {
    if |PresentSources(c, key)| == 0 then NanList else PyListRepr(SourcesOf(c, key))
  }

  /**
   * A group some of whose rows have no Source and some a text: sorting
   * its set compares NaN with a text and raises.
   */
  predicate MixedSources(c: Frame)
  {
    exists m :: 0 <= m < |c.rows| && Value(c.cols, c.rows[m], SingleSourceCol).None?
      && |PresentSources(c, Value(c.cols, c.rows[m], NameWithAuthorCol))| > 0
  }

  /** A group has present sources exactly when some row pairs its name-with-author with a text. */
  lemma PresentSourcesExist(c: Frame, key: Cell)
    ensures |PresentSources(c, key)| > 0 <==> exists x, m :: 0 <= m < |c.rows| && PairOf(c.cols, c.rows[m]) == (key, Some(x))
  {
    if |PresentSources(c, key)| > 0 {
      var x := PresentSources(c, key)[0];
      assert x in SourcesOf(c, key);
      SourcesOfMeaning(c, key, x);
    }
    if exists x, m :: 0 <= m < |c.rows| && PairOf(c.cols, c.rows[m]) == (key, Some(x)) {
      var x, m :| 0 <= m < |c.rows| && PairOf(c.cols, c.rows[m]) == (key, Some(x));
      SourcesOfMeaning(c, key, x);
    }
  }

  /**
   * A group mixes missing and text sources exactly when one row pairs the
   * name-with-author with no Source and another with a text.
   */
  lemma MixedSourcesMeaning(c: Frame)
    requires Clean(c)
    ensures MixedSources(c) <==> exists key: Cell, x: string :: key.Some? && PairedInRows(c, (key, None)) && PairedInRows(c, (key, Some(x)))
  {
    if MixedSources(c) {
      var m :| 0 <= m < |c.rows| && Value(c.cols, c.rows[m], SingleSourceCol).None?
        && |PresentSources(c, Value(c.cols, c.rows[m], NameWithAuthorCol))| > 0;
      var x := MixedWitness(c, m);
    }
    if exists key: Cell, x: string :: key.Some? && PairedInRows(c, (key, None)) && PairedInRows(c, (key, Some(x))) {
      var key: Cell, x: string :| key.Some? && PairedInRows(c, (key, None)) && PairedInRows(c, (key, Some(x)));
      MixedFrom(c, key, x);
    }
  }

  /** A row without Source whose group has a text gives the two pairs. */
  lemma MixedWitness(c: Frame, m: nat) returns (x: string)
    requires Clean(c) && m < |c.rows| && Value(c.cols, c.rows[m], SingleSourceCol).None?
    requires |PresentSources(c, Value(c.cols, c.rows[m], NameWithAuthorCol))| > 0
    ensures var key := Value(c.cols, c.rows[m], NameWithAuthorCol);
      key.Some? && PairedInRows(c, (key, None)) && PairedInRows(c, (key, Some(x)))
  {
    var key := Value(c.cols, c.rows[m], NameWithAuthorCol);
    PresentSourcesExist(c, key);
    var y, n :| 0 <= n < |c.rows| && PairOf(c.cols, c.rows[n]) == (key, Some(y));
    x := y;
    assert PairOf(c.cols, c.rows[m]) == (key, None);
  }

  /** The two pairs make the group mixed. */
  lemma MixedFrom(c: Frame, key: Cell, x: string)
    requires PairedInRows(c, (key, None)) && PairedInRows(c, (key, Some(x)))
    ensures MixedSources(c)
  {
    var m :| 0 <= m < |c.rows| && PairOf(c.cols, c.rows[m]) == (key, None);
    PresentSourcesExist(c, key);
    assert Value(c.cols, c.rows[m], SingleSourceCol).None?;
  }

  /** Some row of the frame has pair p. */
  predicate PairedInRows(c: Frame, p: Pair)
  {
    exists m :: 0 <= m < |c.rows| && PairOf(c.cols, c.rows[m]) == p
  }

  function GroupedSources(c: Frame): (vals: seq<Cell>)
    ensures |vals| == |c.rows|
  {
    seq(|c.rows|, i requires 0 <= i < |c.rows| => Some(GroupList(c, Value(c.cols, c.rows[i], NameWithAuthorCol))))
  }

  /**
   * Source dropped, each row given its group's list (the left merge on the
   * name-with-author, the column renamed to Compiled_Sources), then the
   * first row of each name-with-author.
   */
  function Aggregated(c: Frame): (g: Frame)
    requires WellFormed(c)
    ensures WellFormed(g)
  {
    DropDuplicatesOn(SetColumn(DropColumns(c, [SingleSourceCol]), CompiledSourcesCol, GroupedSources(c)), NameWithAuthorCol)
  }

  /** The columns after aggregation: Source gone, Compiled_Sources present, the others kept. */
  lemma AggregatedCols(c: Frame)
    requires Clean(c)
    ensures var g := Aggregated(c);
      forall x :: x in g.cols <==> (x in c.cols && x != SingleSourceCol) || x == CompiledSourcesCol
  {
  }

  /**
   * Each aggregated row carries the list of its name-with-author, a
   * name-with-author of the concatenation.
   */
  lemma AggregatedRow(c: Frame, i: nat)
    requires Clean(c) && i < |Aggregated(c).rows|
    ensures var g := Aggregated(c); var key := Value(g.cols, g.rows[i], NameWithAuthorCol);
      Value(g.cols, g.rows[i], CompiledSourcesCol) == Some(GroupList(c, key))
      && exists m :: 0 <= m < |c.rows| && key == Value(c.cols, c.rows[m], NameWithAuthorCol)
  {
    var b := DropColumns(c, [SingleSourceCol]);
    var s := SetColumn(b, CompiledSourcesCol, GroupedSources(c));
    var g := Aggregated(c);
    assert g.rows[i] in s.rows;
    var m :| 0 <= m < |s.rows| && s.rows[m] == g.rows[i];
    SetColumnKeepsOthers(b, CompiledSourcesCol, GroupedSources(c), NameWithAuthorCol, m);
  }

  /** Every name-with-author of the concatenation has an aggregated row. */
  lemma AggregatedCovers(c: Frame, m: nat)
    requires Clean(c) && m < |c.rows|
    ensures var g := Aggregated(c);
      exists i :: 0 <= i < |g.rows| && Value(g.cols, g.rows[i], NameWithAuthorCol) == Value(c.cols, c.rows[m], NameWithAuthorCol)
  {
    var b := DropColumns(c, [SingleSourceCol]);
    var s := SetColumn(b, CompiledSourcesCol, GroupedSources(c));
    SetColumnKeepsOthers(b, CompiledSourcesCol, GroupedSources(c), NameWithAuthorCol, m);
    var key := KeyOf(s.cols, NameWithAuthorCol);
    DistinctByCovers(s.rows, key, m);
    var d := DistinctBy(s.rows, key);
    assert Aggregated(c) == Frame(s.cols, d);
    var j :| 0 <= j < |d| && key(d[j]) == key(s.rows[m]);
    assert Value(s.cols, d[j], NameWithAuthorCol) == Value(c.cols, c.rows[m], NameWithAuthorCol);
  }

  // ---- the column order (lines 94-98) ----

  /**
   * `[c for c in start_cols if c in df] + [c for c in df if c not in
   * start_cols]`, then Compiled_Sources moved to the end.
   */
  function OutCols(cols: seq<string>): seq<string>
  {
    Filter(Filter(StartCols, InList(cols)) + Filter(cols, NotIn(StartCols)), NotIn([CompiledSourcesCol])) + [CompiledSourcesCol]
  }

  lemma CompiledSourcesNotStart()
    ensures CompiledSourcesCol !in StartCols && SingleSourceCol !in StartCols
  {
    assert forall c :: c in StartCols ==> c[0] == 'a';
  }

  /**
   * The arranged columns: the name columns present, in their fixed order,
   * then the others, Compiled_Sources last; no column is lost or added.
   */
  lemma OutColsMeaning(cols: seq<string>)
    requires CompiledSourcesCol in cols
    ensures var oc := OutCols(cols); var lead := Filter(StartCols, InList(cols));
      |oc| > |lead| && oc[..|lead|] == lead && oc[|oc| - 1] == CompiledSourcesCol
      && forall c :: c in oc <==> c in cols
  {
    OutColsSplit(cols);
    OutColsCover(cols);
    var oc := OutCols(cols);
    var lead := Filter(StartCols, InList(cols));
    var tail := Filter(Filter(cols, NotIn(StartCols)), NotIn([CompiledSourcesCol]));
    assert oc[..|lead|] == lead;
    forall c | c in oc ensures c in cols {
      if c in tail {
        assert c in Filter(cols, NotIn(StartCols));
      }
    }
  }

  lemma OutColsSplit(cols: seq<string>)
    ensures OutCols(cols) == Filter(StartCols, InList(cols)) + Filter(Filter(cols, NotIn(StartCols)), NotIn([CompiledSourcesCol])) + [CompiledSourcesCol]
  {
    var lead := Filter(StartCols, InList(cols));
    var rest := Filter(cols, NotIn(StartCols));
    var notCs := NotIn([CompiledSourcesCol]);
    FilterAppend(lead, rest, notCs);
    CompiledSourcesNotStart();
    FilterAll(lead, notCs);
  }

  lemma OutColsCover(cols: seq<string>)
    ensures forall c :: c in cols ==> c in OutCols(cols)
  {
    var lead := Filter(StartCols, InList(cols));
    var rest := Filter(cols, NotIn(StartCols));
    var notCs := NotIn([CompiledSourcesCol]);
    var both := lead + rest;
    forall c | c in cols ensures c in OutCols(cols) {
      if c != CompiledSourcesCol {
        if c in StartCols {
          assert c in lead;
        } else {
          assert c in rest;
        }
        assert c in both && notCs(c);
        assert c in Filter(both, notCs);
      }
    }
  }

  /** `out_dfs[...]` with the arranged columns. */
  function ArrangedOut(f: Frame): (g: Frame)
  {
    ByNames(f, OutCols(f.cols))
  }

  // ---- sort_values by accepted name (line 100) ----

  /** The order `sort_values` uses: texts ascending, missing values last. */
  predicate CellLe(a: Cell, b: Cell)
  {
    b.None? || (a.Some? && (a.value == b.value || StrLt(a.value, b.value)))
  }

  lemma CellLeTotal(a: Cell, b: Cell)
    ensures CellLe(a, b) || CellLe(b, a)
  {
    if a.Some? && b.Some? {
      StrLtTotal(a.value, b.value);
    }
  }

  lemma CellLeTrans(a: Cell, b: Cell, c: Cell)
    requires CellLe(a, b) && CellLe(b, c)
    ensures CellLe(a, c)
  {
    if c.Some? && a.value != b.value && b.value != c.value {
      StrLtTrans(a.value, b.value, c.value);
    }
  }

  function NameOf(cols: seq<string>, row: seq<Cell>): Cell
  {
    Value(cols, row, NameCol)
  }

  predicate SortedByName(cols: seq<string>, rows: seq<seq<Cell>>)
  {
    forall i, j :: 0 <= i < j < |rows| ==> CellLe(NameOf(cols, rows[i]), NameOf(cols, rows[j]))
  }

  /** Rows with pairwise different cells in a column. */
  predicate DistinctOn(cols: seq<string>, rows: seq<seq<Cell>>, key: string)
  {
    forall i, j :: 0 <= i < j < |rows| ==> Value(cols, rows[i], key) != Value(cols, rows[j], key)
  }

  /** A row inserted before the first row whose name is greater. */
  function InsertRow(cols: seq<string>, x: seq<Cell>, rows: seq<seq<Cell>>): (r: seq<seq<Cell>>)
    ensures multiset(r) == multiset(rows) + multiset{x}
  {
    if |rows| == 0 then [x]
    else if CellLe(NameOf(cols, x), NameOf(cols, rows[0])) then [x] + rows
    else
      assert rows == [rows[0]] + rows[1..];
      [rows[0]] + InsertRow(cols, x, rows[1..])
  }

  /** The rows ordered by name (an insertion sort). */
  function SortRows(cols: seq<string>, rows: seq<seq<Cell>>): (r: seq<seq<Cell>>)
    ensures multiset(r) == multiset(rows)
  {
    if |rows| == 0 then []
    else
      assert rows == [rows[0]] + rows[1..];
      InsertRow(cols, rows[0], SortRows(cols, rows[1..]))
  }

  /** Every row of the insertion is the inserted row or one of the rows. */
  lemma InsertRowMember(cols: seq<string>, x: seq<Cell>, rows: seq<seq<Cell>>, y: seq<Cell>)
    requires y in InsertRow(cols, x, rows)
    ensures y == x || y in rows
  {
    assert y in multiset(InsertRow(cols, x, rows));
  }

  lemma TailMember(rows: seq<seq<Cell>>, y: seq<Cell>)
    requires |rows| > 0 && y in rows[1..]
    ensures exists m :: 1 <= m < |rows| && rows[m] == y
  {
    var m :| 0 <= m < |rows[1..]| && rows[1..][m] == y;
    assert rows[m + 1] == y;
  }

  /** A row whose name is at most every name of a sorted list can go in front. */
  lemma ConsSorted(cols: seq<string>, h: seq<Cell>, t: seq<seq<Cell>>)
    requires SortedByName(cols, t)
    requires forall y :: y in t ==> CellLe(NameOf(cols, h), NameOf(cols, y))
    ensures SortedByName(cols, [h] + t)
  {
    var r := [h] + t;
    forall i, j | 0 <= i < j < |r| ensures CellLe(NameOf(cols, r[i]), NameOf(cols, r[j])) {
      if i == 0 {
        assert r[j] == t[j - 1] && t[j - 1] in t;
      } else {
        assert r[i] == t[i - 1] && r[j] == t[j - 1];
      }
    }
  }

  /** A row whose key differs from every key of a list with distinct keys can go in front. */
  lemma ConsDistinct(cols: seq<string>, h: seq<Cell>, t: seq<seq<Cell>>, key: string)
    requires DistinctOn(cols, t, key)
    requires forall y :: y in t ==> Value(cols, y, key) != Value(cols, h, key)
    ensures DistinctOn(cols, [h] + t, key)
  {
    var r := [h] + t;
    forall i, j | 0 <= i < j < |r| ensures Value(cols, r[i], key) != Value(cols, r[j], key) {
      if i == 0 {
        assert r[j] == t[j - 1] && t[j - 1] in t;
      } else {
        assert r[i] == t[i - 1] && r[j] == t[j - 1];
      }
    }
  }

  lemma {:induction false} InsertRowSorted(cols: seq<string>, x: seq<Cell>, rows: seq<seq<Cell>>)
    requires SortedByName(cols, rows)
    ensures SortedByName(cols, InsertRow(cols, x, rows))
  {
    if |rows| > 0 {
      if CellLe(NameOf(cols, x), NameOf(cols, rows[0])) {
        forall y | y in rows ensures CellLe(NameOf(cols, x), NameOf(cols, y)) {
          var m :| 0 <= m < |rows| && rows[m] == y;
          if m > 0 {
            CellLeTrans(NameOf(cols, x), NameOf(cols, rows[0]), NameOf(cols, rows[m]));
          }
        }
        ConsSorted(cols, x, rows);
      } else {
        CellLeTotal(NameOf(cols, x), NameOf(cols, rows[0]));
        var t := InsertRow(cols, x, rows[1..]);
        InsertRowSorted(cols, x, rows[1..]);
        forall y | y in t ensures CellLe(NameOf(cols, rows[0]), NameOf(cols, y)) {
          InsertRowMember(cols, x, rows[1..], y);
          if y != x {
            TailMember(rows, y);
          }
        }
        ConsSorted(cols, rows[0], t);
      }
    }
  }

  lemma {:induction false} SortRowsSorted(cols: seq<string>, rows: seq<seq<Cell>>)
    ensures SortedByName(cols, SortRows(cols, rows))
  {
    if |rows| > 0 {
      SortRowsSorted(cols, rows[1..]);
      InsertRowSorted(cols, rows[0], SortRows(cols, rows[1..]));
    }
  }

  lemma {:induction false} InsertRowDistinct(cols: seq<string>, x: seq<Cell>, rows: seq<seq<Cell>>, key: string)
    requires DistinctOn(cols, rows, key)
    requires forall y :: y in rows ==> Value(cols, y, key) != Value(cols, x, key)
    ensures DistinctOn(cols, InsertRow(cols, x, rows), key)
  {
    if |rows| == 0 {
    } else if CellLe(NameOf(cols, x), NameOf(cols, rows[0])) {
      ConsDistinct(cols, x, rows, key);
    } else {
      var t := InsertRow(cols, x, rows[1..]);
      InsertRowDistinct(cols, x, rows[1..], key);
      forall y | y in t ensures Value(cols, y, key) != Value(cols, rows[0], key) {
        InsertRowMember(cols, x, rows[1..], y);
        if y != x {
          TailMember(rows, y);
        }
      }
      ConsDistinct(cols, rows[0], t, key);
    }
  }

  lemma {:induction false} SortRowsDistinct(cols: seq<string>, rows: seq<seq<Cell>>, key: string)
    requires DistinctOn(cols, rows, key)
    ensures DistinctOn(cols, SortRows(cols, rows), key)
  {
    if |rows| > 0 {
      SortRowsDistinct(cols, rows[1..], key);
      var t := SortRows(cols, rows[1..]);
      forall y | y in t ensures Value(cols, y, key) != Value(cols, rows[0], key) {
        assert y in multiset(t);
        TailMember(rows, y);
      }
      InsertRowDistinct(cols, rows[0], t, key);
    }
  }

  // ---- the whole of compile_hits (lines 30-111) ----

  /** A row of the sorted rows is one of the rows. */
  lemma SortedRowFrom(cols: seq<string>, rows: seq<seq<Cell>>, i: nat)
    requires i < |SortRows(cols, rows)|
    ensures exists j :: 0 <= j < |rows| && rows[j] == SortRows(cols, rows)[i]
  {
    var r := SortRows(cols, rows);
    assert r[i] in multiset(r);
    assert r[i] in rows;
  }

  /** Every row is one of the sorted rows. */
  lemma SortedRowTo(cols: seq<string>, rows: seq<seq<Cell>>, j: nat)
    requires j < |rows|
    ensures exists i :: 0 <= i < |SortRows(cols, rows)| && SortRows(cols, rows)[i] == rows[j]
  {
    assert rows[j] in multiset(rows);
    assert rows[j] in SortRows(cols, rows);
  }

  /** The arranged aggregate: the aggregate's rows with its columns reordered, one row per name-with-author. */
  lemma ArrangedAggregate(c: Frame)
    requires Clean(c)
    ensures var g := Aggregated(c); var a := ArrangedOut(g);
      WellFormed(a) && |a.rows| == |g.rows| && (forall x :: x in a.cols <==> x in g.cols)
      && DistinctOn(a.cols, a.rows, NameWithAuthorCol)
  {
    var g := Aggregated(c);
    AggregatedCols(c);
    OutColsMeaning(g.cols);
    var a := ArrangedOut(g);
    forall i, j | 0 <= i < j < |a.rows| ensures Value(a.cols, a.rows[i], NameWithAuthorCol) != Value(a.cols, a.rows[j], NameWithAuthorCol) {
      assert Value(a.cols, a.rows[i], NameWithAuthorCol) == Value(g.cols, g.rows[i], NameWithAuthorCol);
      assert Value(a.cols, a.rows[j], NameWithAuthorCol) == Value(g.cols, g.rows[j], NameWithAuthorCol);
    }
  }

  /** `duplicated(subset=[name_w_author], keep=False)` selects some row. */
  predicate HasDuplicateHits(f: Frame)
  {
    exists i, j :: 0 <= i < j < |f.rows| && Value(f.cols, f.rows[i], NameWithAuthorCol) == Value(f.cols, f.rows[j], NameWithAuthorCol)
  }

  /**
   * Aggregation, which raises on a group mixing missing and text sources,
   * column arrangement, the sort by name and the duplicate check (lines
   * 92-107).
   */
  function Finish(c: Frame): Result<Frame>
    requires WellFormed(c)
  {
    if MixedSources(c) then Err(MixedSourcesError)
    else
      var a := ArrangedOut(Aggregated(c));
      if NameCol !in a.cols then Err(NoNameError)
      else
        var s := Frame(a.cols, SortRows(a.cols, a.rows));
        if HasDuplicateHits(s) then Err(DuplicateHitsError) else Ok(s)
  }

  /** A column of any frame that mentions the word is among the collected ones. */
  lemma {:induction false} MentionedColumn(fs: seq<Frame>, word: string, k: nat, c: string)
    requires k < |fs| && c in fs[k].cols && NC.LowerContains(word)(c)
    ensures c in NC.ColumnsMentioning(fs, word)
  {
    var n := |fs| - 1;
    var f := NC.LowerContains(word);
    assert NC.ColumnsMentioning(fs, word) == NC.ColumnsMentioning(fs[..n], word) + Filter(fs[n].cols, f);
    if k < n {
      assert fs[..n][k] == fs[k];
      MentionedColumn(fs[..n], word, k, c);
    } else {
      assert c in Filter(fs[n].cols, f);
    }
  }

  /** Both name columns are kept, and Source whenever some frame has it. */
  predicate Keeps(fs: seq<Frame>, keep: seq<string>)
  {
    NameCol in keep && NameWithAuthorCol in keep
    && forall k :: 0 <= k < |fs| && SingleSourceCol in fs[k].cols ==> SingleSourceCol in keep
  }

  /** cols_to_keep keeps what the loop needs: 'Source' mentions 'source'. */
  lemma KeepKeeps(fs: seq<Frame>)
    ensures Keeps(fs, Keep(fs))
  {
    forall k | 0 <= k < |fs| && SingleSourceCol in fs[k].cols ensures SingleSourceCol in Keep(fs) {
      SourceMentioned(fs, k);
    }
  }

  lemma SourceMentioned(fs: seq<Frame>, k: nat)
    requires k < |fs| && SingleSourceCol in fs[k].cols
    ensures SingleSourceCol in NC.ColumnsMentioning(fs, "source")
  {
    SourceMentionsSource();
    MentionedColumn(fs, "source", k, SingleSourceCol);
  }

  /** 'Source' lowered contains 'source'. */
  lemma SourceMentionsSource()
    ensures NC.LowerContains("source")(SingleSourceCol)
  {
    assert Lower(SingleSourceCol) == "source";
    ContainsSelf("source");
  }

  /** When the loop runs to its end, its frames are clean and have rows. */
  lemma CleanedFramesAllClean(fs: seq<Frame>, keep: seq<string>)
    requires Keeps(fs, keep) && CleanedFrames(fs, keep).Ok?
    ensures var cs := CleanedFrames(fs, keep).value;
      forall k :: 0 <= k < |cs| ==> Clean(cs[k]) && |cs[k].rows| > 0
  {
    if |fs| > 0 {
      var cs := CleanedFrames(fs, keep).value;
      assert Passes(fs[0], keep);
      forall k | 0 <= k < |cs| ensures Clean(cs[k]) && |cs[k].rows| > 0 {
        GrownClean(fs, keep, k);
      }
    }
  }

  /** `pd.concat(cleaned_dfs)` after the cleaning loop with the given kept columns. */
  function ConcatenatedKeeping(fs: seq<Frame>, keep: seq<string>): (r: Result<Frame>)
    requires Keeps(fs, keep)
    ensures r.Ok? ==> Clean(r.value)
  {
    match CleanedFrames(fs, keep)
    case Err(e) => Err(e)
    case Ok(cs) =>
      CleanedFramesAllClean(fs, keep);
      Concat(cs)
  }

  /** `compile_hits` with the given kept columns, up to writing the CSV files. */
  function CompiledKeeping(fs: seq<Frame>, keep: seq<string>): Result<Frame>
    requires Keeps(fs, keep)
  {
    if |fs| == 0 || AllEmpty(fs) then Ok(Frame(OutputColNames, []))
    else
      match ConcatenatedKeeping(fs, keep)
      case Err(e) => Err(e)
      case Ok(c) => Finish(c)
  }

  /** `compile_hits` up to writing the CSV files. */
  function Compiled(fs: seq<Frame>): Result<Frame>
  {
    KeepKeeps(fs);
    CompiledKeeping(fs, Keep(fs))
  }

  // ---- what the last steps promise ----

  /**
   * On a clean concatenation the duplicate check never fires: only a group
   * mixing missing and text sources, and then a missing accepted_name,
   * raise.
   */
  lemma FinishOk(c: Frame)
    requires Clean(c)
    ensures Finish(c).Ok? <==> !MixedSources(c) && NameCol in c.cols
    ensures Finish(c).Err? ==> Finish(c).error == if MixedSources(c) then MixedSourcesError else NoNameError
  {
    var g := Aggregated(c);
    var a := ArrangedOut(g);
    var s := Frame(a.cols, SortRows(a.cols, a.rows));
    AggregatedCols(c);
    ArrangedAggregate(c);
    assert NameCol in a.cols <==> NameCol in c.cols;
    assert !HasDuplicateHits(s) by {
      SortRowsDistinct(a.cols, a.rows, NameWithAuthorCol);
    }
    assert !MixedSources(c) ==> Finish(c) == if NameCol !in a.cols then Err(NoNameError) else Ok(s);
  }

  /**
   * The output: the name columns present first in their fixed order,
   * Compiled_Sources last, Source gone, rows sorted by accepted name, one
   * row per name-with-author, each with a name-with-author.
   */
  lemma FinishShape(c: Frame)
    requires Clean(c) && !MixedSources(c) && NameCol in c.cols
    ensures Finish(c).Ok?
    ensures var r := Finish(c).value; var lead := Filter(StartCols, InList(r.cols));
      WellFormed(r) && |r.cols| > |lead| && r.cols[..|lead|] == lead && r.cols[|r.cols| - 1] == CompiledSourcesCol
      && (forall x :: x in r.cols <==> (x in c.cols && x != SingleSourceCol) || x == CompiledSourcesCol)
      && SortedByName(r.cols, r.rows) && DistinctOn(r.cols, r.rows, NameWithAuthorCol)
      && forall i :: 0 <= i < |r.rows| ==> Value(r.cols, r.rows[i], NameWithAuthorCol).Some?
  {
    FinishOk(c);
    var g := Aggregated(c);
    var a := ArrangedOut(g);
    var r := Finish(c).value;
    assert r == Frame(a.cols, SortRows(a.cols, a.rows));
    AggregatedCols(c);
    ArrangedAggregate(c);
    OutColsMeaning(g.cols);
    FilterSame(StartCols, InList(r.cols), InList(g.cols));
    SortRowsSorted(a.cols, a.rows);
    SortRowsDistinct(a.cols, a.rows, NameWithAuthorCol);
    forall i | 0 <= i < |r.rows| ensures |r.rows[i]| == |r.cols| && Value(r.cols, r.rows[i], NameWithAuthorCol).Some? {
      SortedRowFrom(a.cols, a.rows, i);
      var j :| 0 <= j < |a.rows| && a.rows[j] == r.rows[i];
      AggregatedRow(c, j);
      assert Value(a.cols, a.rows[j], NameWithAuthorCol) == Value(g.cols, g.rows[j], NameWithAuthorCol);
    }
  }

  /**
   * Each output row's Compiled_Sources is the list of the sources of its
   * name-with-author, which is one of the concatenation's.
   */
  lemma FinishRow(c: Frame, i: nat)
    requires Clean(c) && Finish(c).Ok? && i < |Finish(c).value.rows|
    ensures var r := Finish(c).value; var key := Value(r.cols, r.rows[i], NameWithAuthorCol);
      Value(r.cols, r.rows[i], CompiledSourcesCol) == Some(GroupList(c, key))
      && exists m :: 0 <= m < |c.rows| && key == Value(c.cols, c.rows[m], NameWithAuthorCol)
  {
    var g := Aggregated(c);
    var a := ArrangedOut(g);
    var r := Finish(c).value;
    assert !MixedSources(c);
    AggregatedCols(c);
    OutColsMeaning(g.cols);
    SortedRowFrom(a.cols, a.rows, i);
    var j :| 0 <= j < |a.rows| && a.rows[j] == r.rows[i];
    AggregatedRow(c, j);
    assert Value(a.cols, a.rows[j], NameWithAuthorCol) == Value(g.cols, g.rows[j], NameWithAuthorCol);
    assert Value(a.cols, a.rows[j], CompiledSourcesCol) == Value(g.cols, g.rows[j], CompiledSourcesCol);
  }

  /** Every name-with-author of the concatenation has an output row. */
  lemma FinishCovers(c: Frame, m: nat)
    requires Clean(c) && Finish(c).Ok? && m < |c.rows|
    ensures var r := Finish(c).value;
      exists i :: 0 <= i < |r.rows| && Value(r.cols, r.rows[i], NameWithAuthorCol) == Value(c.cols, c.rows[m], NameWithAuthorCol)
  {
    var a := ArrangedOut(Aggregated(c));
    var key := Value(c.cols, c.rows[m], NameWithAuthorCol);
    ArrangedCovers(c, m);
    var j :| 0 <= j < |a.rows| && Value(a.cols, a.rows[j], NameWithAuthorCol) == key;
    SortedRowTo(a.cols, a.rows, j);
    var r := Finish(c).value;
    FinishValue(c);
    var i :| 0 <= i < |r.rows| && r.rows[i] == a.rows[j];
    assert Value(r.cols, r.rows[i], NameWithAuthorCol) == key;
  }

  /** A finished table is the arranged aggregate with its rows sorted. */
  lemma FinishValue(c: Frame)
    requires WellFormed(c) && Finish(c).Ok?
    ensures var a := ArrangedOut(Aggregated(c)); Finish(c).value == Frame(a.cols, SortRows(a.cols, a.rows))
  {
  }

  /** Every name-with-author of the concatenation has a row of the arranged aggregate. */
  lemma ArrangedCovers(c: Frame, m: nat)
    requires Clean(c) && m < |c.rows|
    ensures var a := ArrangedOut(Aggregated(c));
      exists j :: 0 <= j < |a.rows| && Value(a.cols, a.rows[j], NameWithAuthorCol) == Value(c.cols, c.rows[m], NameWithAuthorCol)
  {
    var g := Aggregated(c);
    var a := ArrangedOut(g);
    AggregatedCols(c);
    OutColsMeaning(g.cols);
    AggregatedCovers(c, m);
    var j :| 0 <= j < |g.rows| && Value(g.cols, g.rows[j], NameWithAuthorCol) == Value(c.cols, c.rows[m], NameWithAuthorCol);
    assert Value(a.cols, a.rows[j], NameWithAuthorCol) == Value(g.cols, g.rows[j], NameWithAuthorCol);
  }

  // ---- what the cleaning loop keeps ----

  /** Some row of some input frame has pair p. */
  predicate PairedInInputs(fs: seq<Frame>, p: Pair)
  {
    exists j, m :: 0 <= j < |fs| && 0 <= m < |fs[j].rows| && PairOf(fs[j].cols, fs[j].rows[m]) == p
  }

  /** Trimming keeps the pair of every row when both pair columns are kept. */
  lemma TrimmedPair(f: Frame, keep: seq<string>, m: nat)
    requires Passes(f, keep) && SingleSourceCol in keep && m < |f.rows|
    ensures var t := NC.Trimmed(f, keep); |t.rows| == |f.rows| && PairOf(t.cols, t.rows[m]) == PairOf(f.cols, f.rows[m])
  {
    var t := NC.Trimmed(f, keep);
    assert t == SelectColumns(f, InList(keep));
    assert Value(t.cols, t.rows[m], NameWithAuthorCol) == Value(f.cols, f.rows[m], NameWithAuthorCol);
    assert Value(t.cols, t.rows[m], SingleSourceCol) == Value(f.cols, f.rows[m], SingleSourceCol);
  }

  /** A pair with a name-with-author is in a cleaned frame exactly when a row of the frame has it. */
  lemma CleanedPairs(f: Frame, keep: seq<string>, p: Pair)
    requires Passes(f, keep) && SingleSourceCol in keep && p.0.Some?
    ensures p in Pairs(Cleaned(f, keep)) <==> exists m :: 0 <= m < |f.rows| && PairOf(f.cols, f.rows[m]) == p
  {
    if p in Pairs(Cleaned(f, keep)) {
      CleanedPairFrom(f, keep, p);
    }
    if exists m :: 0 <= m < |f.rows| && PairOf(f.cols, f.rows[m]) == p {
      var m :| 0 <= m < |f.rows| && PairOf(f.cols, f.rows[m]) == p;
      CleanedPairTo(f, keep, m);
    }
  }

  lemma CleanedPairFrom(f: Frame, keep: seq<string>, p: Pair)
    requires Passes(f, keep) && SingleSourceCol in keep && p in Pairs(Cleaned(f, keep))
    ensures exists m :: 0 <= m < |f.rows| && PairOf(f.cols, f.rows[m]) == p
  {
    var t := NC.Trimmed(f, keep);
    var d := Cleaned(f, keep);
    assert d == DropNa(t, NameWithAuthorCol);
    var i :| 0 <= i < |d.rows| && Pairs(d)[i] == p;
    assert d.rows[i] in t.rows;
    var m :| 0 <= m < |t.rows| && t.rows[m] == d.rows[i];
    TrimmedPair(f, keep, m);
  }

  lemma CleanedPairTo(f: Frame, keep: seq<string>, m: nat)
    requires Passes(f, keep) && SingleSourceCol in keep && m < |f.rows| && Value(f.cols, f.rows[m], NameWithAuthorCol).Some?
    ensures PairOf(f.cols, f.rows[m]) in Pairs(Cleaned(f, keep))
  {
    var t := NC.Trimmed(f, keep);
    var d := Cleaned(f, keep);
    assert d == DropNa(t, NameWithAuthorCol);
    TrimmedPair(f, keep, m);
    assert t.rows[m] in d.rows;
    var i :| 0 <= i < |d.rows| && d.rows[i] == t.rows[m];
    assert Pairs(d)[i] == PairOf(f.cols, f.rows[m]);
  }

  /** One pass adds to the pairs of the kept frames exactly the pairs of the cleaned frame. */
  lemma StepPairs(f: Frame, keep: seq<string>, cs: seq<Frame>, p: Pair)
    requires Passes(f, keep)
    ensures PairedIn(Step(f, keep, cs), p) <==> PairedIn(cs, p) || p in Pairs(Cleaned(f, keep))
  {
    var d := Cleaned(f, keep);
    var g := WithoutEarlier(d, cs, |cs|);
    var fr := Fresh(d.cols, cs);
    WithoutEarlierIsFilter(d, cs, |cs|);
    assert cs[..|cs|] == cs;
    assert g == Frame(d.cols, Filter(d.rows, fr));
    assert Step(f, keep, cs) == if |g.rows| > 0 then cs + [g] else cs;
    if |g.rows| > 0 {
      PairedInSnoc(cs, g, p);
      if p in Pairs(g) {
        GrownFromCleaned(d, g, fr, p);
      }
    }
    if p in Pairs(d) && !PairedIn(cs, p) {
      FreshKept(d, g, fr, p);
      PairedInSnoc(cs, g, p);
    }
  }

  /** A pair of the rows left is a pair of the frame. */
  lemma GrownFromCleaned(d: Frame, g: Frame, fr: seq<Cell> -> bool, p: Pair)
    requires g == Frame(d.cols, Filter(d.rows, fr)) && p in Pairs(g)
    ensures p in Pairs(d)
  {
    var i :| 0 <= i < |g.rows| && Pairs(g)[i] == p;
    var m :| 0 <= m < |d.rows| && d.rows[m] == g.rows[i];
    assert Pairs(d)[m] == p;
  }

  /** A pair of the frame that no earlier frame has is a pair of the rows left. */
  lemma FreshKept(d: Frame, g: Frame, fr: seq<Cell> -> bool, p: Pair)
    requires g == Frame(d.cols, Filter(d.rows, fr)) && p in Pairs(d)
    requires forall row :: PairOf(d.cols, row) == p ==> fr(row)
    ensures p in Pairs(g)
  {
    var m :| 0 <= m < |d.rows| && Pairs(d)[m] == p;
    assert fr(d.rows[m]);
    assert d.rows[m] in g.rows;
    var i :| 0 <= i < |g.rows| && g.rows[i] == d.rows[m];
    assert Pairs(g)[i] == p;
  }

  lemma InputsSnoc(fs: seq<Frame>, p: Pair)
    requires |fs| > 0
    ensures var n := |fs| - 1;
      PairedInInputs(fs, p) <==> PairedInInputs(fs[..n], p) || exists m :: 0 <= m < |fs[n].rows| && PairOf(fs[n].cols, fs[n].rows[m]) == p
  {
    var n := |fs| - 1;
    if PairedInInputs(fs, p) {
      var j, m :| 0 <= j < |fs| && 0 <= m < |fs[j].rows| && PairOf(fs[j].cols, fs[j].rows[m]) == p;
      if j < n {
        assert fs[..n][j] == fs[j];
      }
    }
    if PairedInInputs(fs[..n], p) {
      var j, m :| 0 <= j < n && 0 <= m < |fs[..n][j].rows| && PairOf(fs[..n][j].cols, fs[..n][j].rows[m]) == p;
      assert fs[..n][j] == fs[j];
    }
  }

  lemma PrefixPasses(fs: seq<Frame>, keep: seq<string>, n: nat)
    requires n <= |fs| && forall k :: 0 <= k < |fs| ==> Passes(fs[k], keep)
    ensures forall k :: 0 <= k < n ==> Passes(fs[..n][k], keep)
  {
    assert forall k :: 0 <= k < n ==> fs[..n][k] == fs[k];
  }

  /**
   * The frames the loop keeps hold, between them, exactly the pairs with a
   * name-with-author of the input rows: the anti-join drops only pairs
   * already kept.
   */
  lemma {:induction false} GrownPairs(fs: seq<Frame>, keep: seq<string>, p: Pair)
    requires (forall j :: 0 <= j < |fs| ==> Passes(fs[j], keep)) && SingleSourceCol in keep && p.0.Some?
    ensures PairedIn(Grown(fs, keep), p) <==> PairedInInputs(fs, p)
  {
    if |fs| > 0 {
      var n := |fs| - 1;
      PrefixPasses(fs, keep, n);
      GrownPairs(fs[..n], keep, p);
      StepPairs(fs[n], keep, Grown(fs[..n], keep), p);
      CleanedPairs(fs[n], keep, p);
      InputsSnoc(fs, p);
    }
  }

  /** A cleaned frame has no rows exactly when no row of the frame has a name-with-author. */
  lemma CleanedEmpty(f: Frame, keep: seq<string>)
    requires Passes(f, keep)
    ensures |Cleaned(f, keep).rows| == 0 <==> forall m :: 0 <= m < |f.rows| ==> Value(f.cols, f.rows[m], NameWithAuthorCol).None?
  {
    var t := NC.Trimmed(f, keep);
    assert t == SelectColumns(f, InList(keep));
    var d := Cleaned(f, keep);
    if |d.rows| > 0 {
      assert d.rows[0] in t.rows;
      var m :| 0 <= m < |t.rows| && t.rows[m] == d.rows[0];
      assert Value(t.cols, t.rows[m], NameWithAuthorCol) == Value(f.cols, f.rows[m], NameWithAuthorCol);
    }
    if exists m :: 0 <= m < |f.rows| && Value(f.cols, f.rows[m], NameWithAuthorCol).Some? {
      var m :| 0 <= m < |f.rows| && Value(f.cols, f.rows[m], NameWithAuthorCol).Some?;
      assert Value(t.cols, t.rows[m], NameWithAuthorCol) == Value(f.cols, f.rows[m], NameWithAuthorCol);
      assert t.rows[m] in d.rows;
    }
  }

  /** When every cleaned frame is empty the loop keeps no frame. */
  lemma {:induction false} GrownAllEmpty(fs: seq<Frame>, keep: seq<string>)
    requires forall k :: 0 <= k < |fs| ==> Passes(fs[k], keep) && |Cleaned(fs[k], keep).rows| == 0
    ensures |Grown(fs, keep)| == 0
  {
    if |fs| > 0 {
      var n := |fs| - 1;
      assert forall k :: 0 <= k < n ==> fs[..n][k] == fs[k];
      GrownAllEmpty(fs[..n], keep);
      var cs := Grown(fs[..n], keep);
      var d := Cleaned(fs[n], keep);
      assert WithoutEarlier(d, cs, |cs|) == d;
    }
  }

  /** A cleaned frame with rows makes the loop keep some frame. */
  lemma {:induction false} GrownNonEmpty(fs: seq<Frame>, keep: seq<string>, j: nat)
    requires forall k :: 0 <= k < |fs| ==> Passes(fs[k], keep)
    requires j < |fs| && Passes(fs[j], keep) && |Cleaned(fs[j], keep).rows| > 0
    ensures |Grown(fs, keep)| > 0
  {
    var n := |fs| - 1;
    var cs := Grown(fs[..n], keep);
    var d := Cleaned(fs[n], keep);
    var g := WithoutEarlier(d, cs, |cs|);
    assert Grown(fs, keep) == if |g.rows| > 0 then cs + [g] else cs;
    if j < n {
      PrefixPasses(fs, keep, n);
      assert fs[..n][j] == fs[j];
      GrownNonEmpty(fs[..n], keep, j);
      assert |cs| > 0;
    } else if |cs| == 0 {
      assert j == n;
      assert |d.rows| > 0;
      assert g == d;
      assert |g.rows| > 0;
    } else {
      assert |cs| > 0;
    }
  }

  /** A kept column that every frame has is a column of every frame the loop keeps. */
  lemma {:induction false} GrownHasCol(fs: seq<Frame>, keep: seq<string>, k: nat, x: string)
    requires forall j :: 0 <= j < |fs| ==> Passes(fs[j], keep) && x in fs[j].cols
    requires x in keep && k < |Grown(fs, keep)|
    ensures x in Grown(fs, keep)[k].cols
  {
    var n := |fs| - 1;
    var cs := Grown(fs[..n], keep);
    var d := Cleaned(fs[n], keep);
    var g := WithoutEarlier(d, cs, |cs|);
    assert Grown(fs, keep) == if |g.rows| > 0 then cs + [g] else cs;
    if k < |cs| {
      assert forall j :: 0 <= j < n ==> fs[..n][j] == fs[j];
      GrownHasCol(fs[..n], keep, k, x);
    } else {
      KeptFrameHasCol(fs[n], keep, cs, x);
    }
  }

  /** A kept column of a frame is a column of what the loop keeps of it. */
  lemma KeptFrameHasCol(f: Frame, keep: seq<string>, cs: seq<Frame>, x: string)
    requires Passes(f, keep) && x in f.cols && x in keep
    ensures x in WithoutEarlier(Cleaned(f, keep), cs, |cs|).cols
  {
    var d := Cleaned(f, keep);
    WithoutEarlierIsFilter(d, cs, |cs|);
    assert NC.Trimmed(f, keep) == SelectColumns(f, InList(keep));
    assert x in d.cols;
  }

  // ---- what compile_hits promises ----
  // The lemmas hold for any kept columns that keep the name columns and
  // Source (KeepKeeps shows cols_to_keep does).

  /** No input, or only empty inputs: the empty frame with the output columns (lines 52-56). */
  lemma CompiledEmpty(fs: seq<Frame>, keep: seq<string>)
    requires Keeps(fs, keep) && (|fs| == 0 || AllEmpty(fs))
    ensures CompiledKeeping(fs, keep) == Ok(Frame(OutputColNames, []))
    ensures Filter(StartCols, InList(OutputColNames)) == StartCols && OutputColNames[..|StartCols|] == StartCols
  {
    FilterAll(StartCols, InList(OutputColNames));
  }

  /** The checks of the loop fail first at the first frame lacking Source or the name-with-author. */
  lemma FirstFailingAt(fs: seq<Frame>, keep: seq<string>, k: nat)
    requires NameWithAuthorCol in keep && k < |fs|
    requires forall j :: 0 <= j < k ==> SingleSourceCol in fs[j].cols && NameWithAuthorCol in fs[j].cols
    requires SingleSourceCol !in fs[k].cols || NameWithAuthorCol !in fs[k].cols
    ensures FirstFailing(fs, keep) == Some(k)
  {
    var b := FirstFailing(fs, keep);
    assert !Passes(fs[k], keep);
    assert b.Some?;
    assert !(b.value < k);
    assert !(b.value > k);
  }

  /**
   * A frame without Source raises the ValueError, a frame without the
   * name-with-author the KeyError, for the first such frame (lines 69-74).
   */
  lemma CompiledFails(fs: seq<Frame>, keep: seq<string>, k: nat)
    requires Keeps(fs, keep) && !AllEmpty(fs) && k < |fs|
    requires forall j :: 0 <= j < k ==> SingleSourceCol in fs[j].cols && NameWithAuthorCol in fs[j].cols
    requires SingleSourceCol !in fs[k].cols || NameWithAuthorCol !in fs[k].cols
    ensures CompiledKeeping(fs, keep) == Err(if SingleSourceCol !in fs[k].cols then NoSourceError else NoNameWithAuthorError)
  {
    FirstFailingAt(fs, keep, k);
  }

  /** Every frame passes the checks of the loop when each has Source and the name-with-author. */
  lemma AllPass(fs: seq<Frame>, keep: seq<string>)
    requires NameWithAuthorCol in keep
    requires forall j :: 0 <= j < |fs| ==> SingleSourceCol in fs[j].cols && NameWithAuthorCol in fs[j].cols
    ensures FirstFailing(fs, keep).None? && forall j :: 0 <= j < |fs| ==> Passes(fs[j], keep)
  {
  }

  /**
   * With every frame passing the checks, `pd.concat` raises exactly when no
   * input row has a name-with-author (line 91).
   */
  lemma CompiledNoObjects(fs: seq<Frame>, keep: seq<string>)
    requires Keeps(fs, keep) && !AllEmpty(fs)
    requires forall j :: 0 <= j < |fs| ==> SingleSourceCol in fs[j].cols && NameWithAuthorCol in fs[j].cols
    ensures CompiledKeeping(fs, keep) == Err(NoObjectsError) <==>
      forall j, m :: 0 <= j < |fs| && 0 <= m < |fs[j].rows| ==> Value(fs[j].cols, fs[j].rows[m], NameWithAuthorCol).None?
  {
    AllPass(fs, keep);
    if forall j, m :: 0 <= j < |fs| && 0 <= m < |fs[j].rows| ==> Value(fs[j].cols, fs[j].rows[m], NameWithAuthorCol).None? {
      forall j | 0 <= j < |fs| ensures Passes(fs[j], keep) && |Cleaned(fs[j], keep).rows| == 0 {
        CleanedEmpty(fs[j], keep);
      }
      GrownAllEmpty(fs, keep);
    } else {
      var j, m :| 0 <= j < |fs| && 0 <= m < |fs[j].rows| && Value(fs[j].cols, fs[j].rows[m], NameWithAuthorCol).Some?;
      CleanedEmpty(fs[j], keep);
      GrownNonEmpty(fs, keep, j);
      var c := ConcatenatedKeeping(fs, keep).value;
      FinishNotNoObjects(c);
    }
  }

  lemma FinishNotNoObjects(c: Frame)
    requires Clean(c)
    ensures Finish(c) != Err(NoObjectsError)
  {
    FinishOk(c);
    assert NoNameError[0] != NoObjectsError[0] && MixedSourcesError[0] != NoObjectsError[0];
  }

  /** Two rows of one taxon, one with Source 'X' and one without: sorting the group's sources raises. */
  lemma MixedGroupRaises()
    ensures var c := Frame([NameWithAuthorCol, SingleSourceCol, NameCol],
      [[Some("Aa b L."), Some("X"), Some("Aa b")], [Some("Aa b L."), None, Some("Aa b")]]);
      Finish(c) == Err(MixedSourcesError)
  {
    var c := Frame([NameWithAuthorCol, SingleSourceCol, NameCol],
      [[Some("Aa b L."), Some("X"), Some("Aa b")], [Some("Aa b L."), None, Some("Aa b")]]);
    SampleColumns(c.cols);
    assert PairOf(c.cols, c.rows[0]) == (Some("Aa b L."), Some("X"));
    assert PairOf(c.cols, c.rows[1]) == (Some("Aa b L."), None);
    MixedFrom(c, Some("Aa b L."), "X");
  }

  lemma SampleColumns(cols: seq<string>)
    requires cols == [NameWithAuthorCol, SingleSourceCol, NameCol]
    ensures ColIndex(cols, NameWithAuthorCol) == Some(0) && ColIndex(cols, SingleSourceCol) == Some(1)
  {
    assert NameWithAuthorCol[0] != SingleSourceCol[0];
  }

  /** A taxon none of whose rows has a Source is listed with a lone NaN. */
  lemma MissingGroupListsNan()
    ensures var c := Frame([NameWithAuthorCol, SingleSourceCol, NameCol],
      [[Some("Aa b L."), None, Some("Aa b")], [Some("Cc d L."), Some("X"), Some("Cc d")]]);
      GroupList(c, Some("Aa b L.")) == NanList
  {
    var c := Frame([NameWithAuthorCol, SingleSourceCol, NameCol],
      [[Some("Aa b L."), None, Some("Aa b")], [Some("Cc d L."), Some("X"), Some("Cc d")]]);
    SampleColumns(c.cols);
    assert PairOf(c.cols, c.rows[0]) == (Some("Aa b L."), None);
    assert PairOf(c.cols, c.rows[1]) == (Some("Cc d L."), Some("X"));
    PresentSourcesExist(c, Some("Aa b L."));
  }

  /** The last steps raise the TypeError exactly when a group mixes missing and text sources. */
  lemma FinishMixed(c: Frame)
    requires Clean(c)
    ensures Finish(c) == Err(MixedSourcesError) <==> MixedSources(c)
  {
    FinishOk(c);
    assert NoNameError[0] != MixedSourcesError[0];
  }

  /**
   * The only errors are those of the checks, the concatenation, the sort of
   * a group's sources and the sort by name: the duplicate check never fires.
   */
  lemma CompiledRaises(fs: seq<Frame>, keep: seq<string>)
    requires Keeps(fs, keep)
    ensures CompiledKeeping(fs, keep).Err? ==> CompiledKeeping(fs, keep).error in [NoSourceError, NoNameWithAuthorError, NoObjectsError, MixedSourcesError, NoNameError]
  {
    if !(|fs| == 0 || AllEmpty(fs)) && ConcatenatedKeeping(fs, keep).Ok? {
      FinishOk(ConcatenatedKeeping(fs, keep).value);
    }
  }

  /**
   * Inputs that all have Source, the name-with-author and the accepted name,
   * with some row naming a taxon, compile without error exactly when no
   * name-with-author is paired both with a missing Source and with a text.
   */
  lemma CompiledSucceeds(fs: seq<Frame>, keep: seq<string>, j: nat, m: nat)
    requires Keeps(fs, keep)
    requires forall k :: 0 <= k < |fs| ==> SingleSourceCol in fs[k].cols && NameWithAuthorCol in fs[k].cols && NameCol in fs[k].cols
    requires j < |fs| && m < |fs[j].rows| && Value(fs[j].cols, fs[j].rows[m], NameWithAuthorCol).Some?
    ensures CompiledKeeping(fs, keep).Ok? <==> !MixedInInputs(fs)
  {
    assert |fs[j].rows| > 0;
    ConcatenatedHasName(fs, keep, j, m);
    var c := ConcatenatedKeeping(fs, keep).value;
    FinishOk(c);
    ConcatenatedMixed(fs, keep, c);
  }

  /** Some name-with-author is paired in the inputs both with no Source and with a text. */
  ghost predicate MixedInInputs(fs: seq<Frame>)
  {
    exists key: Cell, x: string :: key.Some? && PairedInInputs(fs, (key, None)) && PairedInInputs(fs, (key, Some(x)))
  }

  /** The concatenation mixes missing and text sources in a group exactly when the inputs do. */
  lemma ConcatenatedMixed(fs: seq<Frame>, keep: seq<string>, c: Frame)
    requires Keeps(fs, keep) && ConcatenatedKeeping(fs, keep) == Ok(c)
    ensures MixedSources(c) <==> MixedInInputs(fs)
  {
    MixedSourcesMeaning(c);
    forall p: Pair | p.0.Some? ensures PairedInRows(c, p) <==> PairedInInputs(fs, p) {
      ConcatenatedPairs(fs, keep, p);
    }
  }

  /**
   * Past the checks and the concatenation, compiling raises the TypeError
   * exactly when some name-with-author is paired in the inputs both with no
   * Source and with a text (lines 13-20).
   */
  lemma CompiledMixed(fs: seq<Frame>, keep: seq<string>)
    requires Keeps(fs, keep) && ConcatenatedKeeping(fs, keep).Ok? && !AllEmpty(fs)
    ensures CompiledKeeping(fs, keep) == Err(MixedSourcesError) <==> MixedInInputs(fs)
  {
    var c := ConcatenatedKeeping(fs, keep).value;
    assert CompiledKeeping(fs, keep) == Finish(c);
    FinishMixed(c);
    ConcatenatedMixed(fs, keep, c);
  }

  /** Under the same conditions the concatenation exists and has the accepted-name column. */
  lemma ConcatenatedHasName(fs: seq<Frame>, keep: seq<string>, j: nat, m: nat)
    requires Keeps(fs, keep)
    requires forall k :: 0 <= k < |fs| ==> SingleSourceCol in fs[k].cols && NameWithAuthorCol in fs[k].cols && NameCol in fs[k].cols
    requires j < |fs| && m < |fs[j].rows| && Value(fs[j].cols, fs[j].rows[m], NameWithAuthorCol).Some?
    ensures ConcatenatedKeeping(fs, keep).Ok? && NameCol in ConcatenatedKeeping(fs, keep).value.cols
  {
    AllPass(fs, keep);
    CleanedEmpty(fs[j], keep);
    GrownNonEmpty(fs, keep, j);
    var cs := Grown(fs, keep);
    GrownHasCol(fs, keep, 0, NameCol);
    CleanedFramesAllClean(fs, keep);
    UnionColsCover(cs, 0, NameCol);
  }

  /**
   * The rows of the concatenation have, between them, exactly the pairs
   * with a name-with-author of the input rows.
   */
  lemma ConcatenatedPairs(fs: seq<Frame>, keep: seq<string>, p: Pair)
    requires Keeps(fs, keep) && ConcatenatedKeeping(fs, keep).Ok? && p.0.Some?
    ensures var c := ConcatenatedKeeping(fs, keep).value;
      (exists m :: 0 <= m < |c.rows| && PairOf(c.cols, c.rows[m]) == p) <==> PairedInInputs(fs, p)
  {
    var cs := CleanedFrames(fs, keep).value;
    CleanedFramesAllClean(fs, keep);
    var c := ConcatenatedKeeping(fs, keep).value;
    assert c == Concat(cs).value;
    assert |cs| > 0;
    assert Passes(fs[0], keep);
    assert cs == Grown(fs, keep);
    GrownPairs(fs, keep, p);
    if exists m :: 0 <= m < |c.rows| && PairOf(c.cols, c.rows[m]) == p {
      var m :| 0 <= m < |c.rows| && PairOf(c.cols, c.rows[m]) == p;
      ConcatPairFrom(cs, m);
    }
    if PairedInInputs(fs, p) {
      ConcatPairTo(cs, p);
    }
  }

  /**
   * The output's shape: the name columns present first in their fixed
   * order, Compiled_Sources last, no Source column, rows sorted by accepted
   * name, one row per name-with-author, each with a name-with-author.
   */
  lemma CompiledShape(fs: seq<Frame>, keep: seq<string>)
    requires Keeps(fs, keep) && CompiledKeeping(fs, keep).Ok?
    ensures OutputShaped(CompiledKeeping(fs, keep).value)
  {
    if |fs| == 0 || AllEmpty(fs) {
      CompiledEmpty(fs, keep);
      EmptyOutputShaped();
    } else {
      CompiledIsFinish(fs, keep);
      var c := ConcatenatedKeeping(fs, keep).value;
      FinishOk(c);
      FinishShaped(c);
    }
  }

  lemma EmptyOutputShaped()
    ensures OutputShaped(Frame(OutputColNames, []))
  {
    FilterAll(StartCols, InList(OutputColNames));
    CompiledSourcesNotStart();
  }

  lemma FinishShaped(c: Frame)
    requires Clean(c) && !MixedSources(c) && NameCol in c.cols
    ensures Finish(c).Ok? && OutputShaped(Finish(c).value)
  {
    FinishShape(c);
    assert SingleSourceCol !in Finish(c).value.cols;
  }

  /** The shape CompiledShape promises for an output table. */
  predicate OutputShaped(r: Frame)
  {
    var lead := Filter(StartCols, InList(r.cols));
    WellFormed(r) && |r.cols| > |lead| && r.cols[..|lead|] == lead && r.cols[|r.cols| - 1] == CompiledSourcesCol
    && SingleSourceCol !in r.cols
    && SortedByName(r.cols, r.rows) && DistinctOn(r.cols, r.rows, NameWithAuthorCol)
    && forall i :: 0 <= i < |r.rows| ==> Value(r.cols, r.rows[i], NameWithAuthorCol).Some?
  }

  /** Past the empty-input case the output is the last steps applied to the concatenation. */
  lemma CompiledIsFinish(fs: seq<Frame>, keep: seq<string>)
    requires Keeps(fs, keep) && CompiledKeeping(fs, keep).Ok? && !AllEmpty(fs)
    ensures ConcatenatedKeeping(fs, keep).Ok? && CompiledKeeping(fs, keep) == Finish(ConcatenatedKeeping(fs, keep).value)
  {
  }

  /** An output with rows is the last steps applied to the concatenation. */
  lemma CompiledRowsFinish(fs: seq<Frame>, keep: seq<string>)
    requires Keeps(fs, keep) && CompiledKeeping(fs, keep).Ok? && |CompiledKeeping(fs, keep).value.rows| > 0
    ensures ConcatenatedKeeping(fs, keep).Ok? && CompiledKeeping(fs, keep) == Finish(ConcatenatedKeeping(fs, keep).value)
  {
    assert !AllEmpty(fs);
  }

  lemma InputPaired(fs: seq<Frame>, j: nat, m: nat)
    requires j < |fs| && m < |fs[j].rows|
    ensures PairedInInputs(fs, PairOf(fs[j].cols, fs[j].rows[m]))
  {
  }

  /**
   * Each output row names a taxon of the inputs, and its Compiled_Sources
   * is the repr of the sorted list of exactly the sources the inputs pair
   * with its name-with-author, or `[nan]` when they pair it with none.
   */
  lemma CompiledRow(fs: seq<Frame>, keep: seq<string>, i: nat)
    requires Keeps(fs, keep) && CompiledKeeping(fs, keep).Ok? && i < |CompiledKeeping(fs, keep).value.rows|
    ensures var r := CompiledKeeping(fs, keep).value; ListsPairedSources(fs, r.cols, r.rows[i])
  {
    CompiledRowsFinish(fs, keep);
    FinishedRow(fs, keep, ConcatenatedKeeping(fs, keep).value, i);
  }

  /**
   * The row's name-with-author is paired in the inputs; when the inputs pair
   * it with some text, its Compiled_Sources is the repr of a strictly sorted
   * list holding exactly those texts, and otherwise `[nan]`.
   */
  ghost predicate ListsPairedSources(fs: seq<Frame>, cols: seq<string>, row: seq<Cell>)
  {
    var key := Value(cols, row, NameWithAuthorCol);
    key.Some? && (exists src :: PairedInInputs(fs, (key, src)))
    && if exists x :: PairedInInputs(fs, (key, Some(x))) then
      exists xs :: (Value(cols, row, CompiledSourcesCol) == Some(PyListRepr(xs)) && StrictlySorted(xs)
        && forall x :: x in xs <==> PairedInInputs(fs, (key, Some(x))))
    else Value(cols, row, CompiledSourcesCol) == Some(NanList)
  }

  /** CompiledRow stated for the last steps applied to the concatenation. */
  lemma FinishedRow(fs: seq<Frame>, keep: seq<string>, c: Frame, i: nat)
    requires Keeps(fs, keep) && ConcatenatedKeeping(fs, keep) == Ok(c) && Finish(c).Ok? && i < |Finish(c).value.rows|
    ensures var r := Finish(c).value; ListsPairedSources(fs, r.cols, r.rows[i])
  {
    var r := Finish(c).value;
    var key := Value(r.cols, r.rows[i], NameWithAuthorCol);
    FinishRow(c, i);
    ConcatenatedKey(fs, keep, c, key);
    GroupListOfInputs(fs, keep, c, key);
    if exists x :: PairedInInputs(fs, (key, Some(x))) {
      SourcesWitness(fs, r.cols, r.rows[i], SourcesOf(c, key));
    }
  }

  /** A group's list is its sorted texts when the inputs pair it with some text, and `[nan]` otherwise. */
  lemma GroupListOfInputs(fs: seq<Frame>, keep: seq<string>, c: Frame, key: Cell)
    requires Keeps(fs, keep) && ConcatenatedKeeping(fs, keep) == Ok(c)
    requires exists m :: 0 <= m < |c.rows| && key == Value(c.cols, c.rows[m], NameWithAuthorCol)
    ensures GroupList(c, key) == if exists x :: PairedInInputs(fs, (key, Some(x))) then PyListRepr(SourcesOf(c, key)) else NanList
  {
    ConcatenatedKey(fs, keep, c, key);
    PresentSourcesExist(c, key);
    if exists x :: PairedInInputs(fs, (key, Some(x))) {
      var x :| PairedInInputs(fs, (key, Some(x)));
      assert x in SourcesOf(c, key);
    }
  }

  lemma SourcesWitness(fs: seq<Frame>, cols: seq<string>, row: seq<Cell>, xs: seq<string>)
    requires Value(cols, row, NameWithAuthorCol).Some? && (exists src :: PairedInInputs(fs, (Value(cols, row, NameWithAuthorCol), src)))
    requires Value(cols, row, CompiledSourcesCol) == Some(PyListRepr(xs)) && StrictlySorted(xs)
    requires forall x :: x in xs <==> PairedInInputs(fs, (Value(cols, row, NameWithAuthorCol), Some(x)))
    requires exists x :: PairedInInputs(fs, (Value(cols, row, NameWithAuthorCol), Some(x)))
    ensures ListsPairedSources(fs, cols, row)
  {
  }

  /**
   * A name-with-author of the concatenation is paired in the inputs, and
   * the sources listed for it are exactly those the inputs pair with it.
   */
  lemma ConcatenatedKey(fs: seq<Frame>, keep: seq<string>, c: Frame, key: Cell)
    requires Keeps(fs, keep) && ConcatenatedKeeping(fs, keep) == Ok(c)
    requires exists m :: 0 <= m < |c.rows| && key == Value(c.cols, c.rows[m], NameWithAuthorCol)
    ensures key.Some? && (exists src :: PairedInInputs(fs, (key, src)))
    ensures StrictlySorted(SourcesOf(c, key))
    ensures forall x :: x in SourcesOf(c, key) <==> PairedInInputs(fs, (key, Some(x)))
  {
    var m :| 0 <= m < |c.rows| && key == Value(c.cols, c.rows[m], NameWithAuthorCol);
    ConcatenatedPairs(fs, keep, PairOf(c.cols, c.rows[m]));
    forall x ensures x in SourcesOf(c, key) <==> PairedInInputs(fs, (key, Some(x))) {
      SourcesOfMeaning(c, key, x);
      ConcatenatedPairs(fs, keep, (key, Some(x)));
    }
  }

  /** Every input row with a name-with-author has an output row with it. */
  lemma CompiledCovers(fs: seq<Frame>, keep: seq<string>, j: nat, m: nat)
    requires Keeps(fs, keep) && CompiledKeeping(fs, keep).Ok?
    requires j < |fs| && m < |fs[j].rows| && Value(fs[j].cols, fs[j].rows[m], NameWithAuthorCol).Some?
    ensures var r := CompiledKeeping(fs, keep).value;
      exists i :: 0 <= i < |r.rows| && Value(r.cols, r.rows[i], NameWithAuthorCol) == Value(fs[j].cols, fs[j].rows[m], NameWithAuthorCol)
  {
    assert |fs[j].rows| > 0;
    CompiledIsFinish(fs, keep);
    var c := ConcatenatedKeeping(fs, keep).value;
    ConcatenatedCovers(fs, keep, c, j, m);
    FinishCoversKey(c, Value(fs[j].cols, fs[j].rows[m], NameWithAuthorCol));
  }

  lemma ConcatenatedCovers(fs: seq<Frame>, keep: seq<string>, c: Frame, j: nat, m: nat)
    requires Keeps(fs, keep) && ConcatenatedKeeping(fs, keep) == Ok(c)
    requires j < |fs| && m < |fs[j].rows| && Value(fs[j].cols, fs[j].rows[m], NameWithAuthorCol).Some?
    ensures exists k :: 0 <= k < |c.rows| && Value(c.cols, c.rows[k], NameWithAuthorCol) == Value(fs[j].cols, fs[j].rows[m], NameWithAuthorCol)
  {
    var p := PairOf(fs[j].cols, fs[j].rows[m]);
    InputPaired(fs, j, m);
    ConcatenatedPairs(fs, keep, p);
    var k :| 0 <= k < |c.rows| && PairOf(c.cols, c.rows[k]) == p;
  }

  lemma FinishCoversKey(c: Frame, key: Cell)
    requires Clean(c) && Finish(c).Ok?
    requires exists k :: 0 <= k < |c.rows| && Value(c.cols, c.rows[k], NameWithAuthorCol) == key
    ensures var r := Finish(c).value;
      exists i :: 0 <= i < |r.rows| && Value(r.cols, r.rows[i], NameWithAuthorCol) == key
  {
    var k :| 0 <= k < |c.rows| && Value(c.cols, c.rows[k], NameWithAuthorCol) == key;
    FinishCovers(c, k);
  }

  // ---- repeating an input ----

  /** A frame each of whose pairs a kept frame already has adds no frame. */
  lemma StepCovered(f: Frame, keep: seq<string>, cs: seq<Frame>)
    requires Passes(f, keep) && SingleSourceCol in keep
    requires forall m :: 0 <= m < |f.rows| && Value(f.cols, f.rows[m], NameWithAuthorCol).Some? ==> PairedIn(cs, PairOf(f.cols, f.rows[m]))
    ensures Step(f, keep, cs) == cs
  {
    var d := Cleaned(f, keep);
    CleanedIsClean(f, keep);
    WithoutEarlierIsFilter(d, cs, |cs|);
    assert cs[..|cs|] == cs;
    forall i | 0 <= i < |d.rows| ensures !Fresh(d.cols, cs)(d.rows[i]) {
      var p := PairOf(d.cols, d.rows[i]);
      assert Pairs(d)[i] == p;
      CleanedPairFrom(f, keep, p);
    }
    FilterNone(d.rows, Fresh(d.cols, cs));
  }

  /** Cleaning an input list with one of its frames appended again gives the same frames or the same error. */
  lemma CleanedRepeated(fs: seq<Frame>, keep: seq<string>, j: nat)
    requires Keeps(fs, keep) && j < |fs|
    ensures CleanedFrames(fs + [fs[j]], keep) == CleanedFrames(fs, keep)
  {
    var gs := fs + [fs[j]];
    assert forall k :: 0 <= k < |fs| ==> gs[k] == fs[k];
    match FirstFailing(fs, keep)
    case Some(k) =>
      FirstFailingAt(gs, keep, k);
    case None =>
      assert SingleSourceCol in fs[j].cols;
      assert forall k :: 0 <= k < |gs| ==> Passes(gs[k], keep);
      assert gs[..|fs|] == fs;
      var cs := Grown(fs, keep);
      forall m | 0 <= m < |fs[j].rows| && Value(fs[j].cols, fs[j].rows[m], NameWithAuthorCol).Some?
        ensures PairedIn(cs, PairOf(fs[j].cols, fs[j].rows[m]))
      {
        InputPaired(fs, j, m);
        GrownPairs(fs, keep, PairOf(fs[j].cols, fs[j].rows[m]));
      }
      StepCovered(fs[j], keep, cs);
      assert Grown(gs, keep) == Step(fs[j], keep, cs);
  }

  /**
   * Appending again one of the input frames changes neither the output
   * nor the error: its pairs are all among the kept frames already.
   */
  lemma RepeatedFrame(fs: seq<Frame>, keep: seq<string>, j: nat)
    requires Keeps(fs, keep) && j < |fs|
    ensures Keeps(fs + [fs[j]], keep) && CompiledKeeping(fs + [fs[j]], keep) == CompiledKeeping(fs, keep)
  {
    var gs := fs + [fs[j]];
    assert forall k :: 0 <= k < |fs| ==> gs[k] == fs[k];
    assert gs[|fs|] == fs[j];
    assert Keeps(gs, keep);
    if !AllEmpty(fs) {
      CleanedRepeated(fs, keep, j);
    } else {
      assert AllEmpty(gs);
    }
  }

  // ---- the kept columns matter only as a set ----

  lemma TrimmedSameMembers(f: Frame, k1: seq<string>, k2: seq<string>)
    requires forall x :: x in k1 <==> x in k2
    ensures NC.Trimmed(f, k1) == NC.Trimmed(f, k2)
  {
    FilterSame(f.cols, InList(k1), InList(k2));
  }

  lemma {:induction false} FirstFailingSameMembers(fs: seq<Frame>, k1: seq<string>, k2: seq<string>)
    requires forall x :: x in k1 <==> x in k2
    ensures FirstFailing(fs, k1) == FirstFailing(fs, k2)
  {
    if |fs| > 0 {
      FirstFailingSameMembers(fs[1..], k1, k2);
    }
  }

  lemma {:induction false} GrownSameMembers(fs: seq<Frame>, k1: seq<string>, k2: seq<string>)
    requires forall x :: x in k1 <==> x in k2
    requires forall k :: 0 <= k < |fs| ==> Passes(fs[k], k1)
    ensures (forall k :: 0 <= k < |fs| ==> Passes(fs[k], k2)) && Grown(fs, k1) == Grown(fs, k2)
  {
    assert forall k :: 0 <= k < |fs| ==> Passes(fs[k], k2) by {
      assert NameWithAuthorCol in k2 <==> NameWithAuthorCol in k1;
    }
    if |fs| > 0 {
      var n := |fs| - 1;
      PrefixPasses(fs, k1, n);
      PrefixPasses(fs, k2, n);
      GrownSameMembers(fs[..n], k1, k2);
      TrimmedSameMembers(fs[n], k1, k2);
      assert Cleaned(fs[n], k1) == Cleaned(fs[n], k2);
    }
  }

  /** Two lists of kept columns with the same members give the same output or error. */
  lemma CompiledSameMembers(fs: seq<Frame>, k1: seq<string>, k2: seq<string>)
    requires Keeps(fs, k1) && Keeps(fs, k2) && forall x :: x in k1 <==> x in k2
    ensures CompiledKeeping(fs, k1) == CompiledKeeping(fs, k2)
  {
    FirstFailingSameMembers(fs, k1, k2);
    if FirstFailing(fs, k1).None? {
      GrownSameMembers(fs, k1, k2);
    }
    assert CleanedFrames(fs, k1) == CleanedFrames(fs, k2);
  }

  /** A frame appended again mentions no column the others do not. */
  lemma MentionsRepeated(fs: seq<Frame>, word: string, j: nat)
    requires j < |fs|
    ensures forall x :: x in NC.ColumnsMentioning(fs + [fs[j]], word) <==> x in NC.ColumnsMentioning(fs, word)
  {
    var gs := fs + [fs[j]];
    var f := NC.LowerContains(word);
    assert gs[..|fs|] == fs;
    assert NC.ColumnsMentioning(gs, word) == NC.ColumnsMentioning(fs, word) + Filter(fs[j].cols, f);
    forall x | x in Filter(fs[j].cols, f) ensures x in NC.ColumnsMentioning(fs, word) {
      MentionedColumn(fs, word, j, x);
    }
  }

  /**
   * `compile_hits` on a list with one of its frames appended again gives
   * the same table or the same error.
   */
  lemma RepeatedInput(fs: seq<Frame>, j: nat)
    requires j < |fs|
    ensures Compiled(fs + [fs[j]]) == Compiled(fs)
  {
    var gs := fs + [fs[j]];
    KeepKeeps(fs);
    KeepKeeps(gs);
    RepeatedFrame(fs, Keep(fs), j);
    MentionsRepeated(fs, "source", j);
    CompiledSameMembers(gs, Keep(gs), Keep(fs));
  }

  /** The inputs followed by the listed ones of them, in order. */
  function WithRepeats(fs: seq<Frame>, js: seq<nat>): (gs: seq<Frame>)
    requires forall i :: 0 <= i < |js| ==> js[i] < |fs|
    ensures |gs| == |fs| + |js| && gs[..|fs|] == fs
    ensures forall i :: 0 <= i < |js| ==> gs[|fs| + i] == fs[js[i]]
  {
    fs + seq(|js|, i requires 0 <= i < |js| => fs[js[i]])
  }

  lemma WithRepeatsSnoc(fs: seq<Frame>, js: seq<nat>)
    requires |js| > 0 && forall i :: 0 <= i < |js| ==> js[i] < |fs|
    ensures var n := |js| - 1; var hs := WithRepeats(fs, js[..n]);
      js[n] < |hs| && WithRepeats(fs, js) == hs + [hs[js[n]]]
  {
    var n := |js| - 1;
    var hs := WithRepeats(fs, js[..n]);
    assert hs[js[n]] == fs[js[n]] by { assert hs[..|fs|] == fs; }
  }

  /**
   * Any number of repeats of the inputs, in any order, leaves the output
   * unchanged (the list of five frames with the last two repeated is one
   * instance).
   */
  lemma {:induction false} RepeatedInputs(fs: seq<Frame>, js: seq<nat>)
    requires forall i :: 0 <= i < |js| ==> js[i] < |fs|
    ensures Compiled(WithRepeats(fs, js)) == Compiled(fs)
  {
    if |js| > 0 {
      RepeatedInputs(fs, js[..|js| - 1]);
      RepeatedLast(fs, js);
    } else {
      assert WithRepeats(fs, js) == fs;
    }
  }

  /** The last repeat leaves the output as the earlier ones made it. */
  lemma RepeatedLast(fs: seq<Frame>, js: seq<nat>)
    requires |js| > 0 && forall i :: 0 <= i < |js| ==> js[i] < |fs|
    ensures Compiled(WithRepeats(fs, js)) == Compiled(WithRepeats(fs, js[..|js| - 1]))
  {
    var n := |js| - 1;
    var hs := WithRepeats(fs, js[..n]);
    WithRepeatsSnoc(fs, js);
    RepeatedInput(hs, js[n]);
  }

  // ---- the loops of compile_hits ----

  /** Lines 78-86: one anti-join against each kept frame, in order (the unused sources list is left out). */
  method RemoveRepeats(d: Frame, cs: seq<Frame>) returns (g: Frame)
    ensures g == WithoutEarlier(d, cs, |cs|)
  {
    g := d;
    for k := 0 to |cs|
      invariant g == WithoutEarlier(d, cs, k)
    {
      g := WithoutPairsOf(g, cs[k]);
    }
  }

  /** One more frame of the loop: the kept frames of a prefix grow by one step. */
  lemma GrownPrefixStep(fs: seq<Frame>, keep: seq<string>, k: nat)
    requires k < |fs| && forall i :: 0 <= i <= k ==> Passes(fs[i], keep)
    ensures var pre, next := fs[..k], fs[..k + 1];
      (forall i :: 0 <= i < |pre| ==> Passes(pre[i], keep)) && (forall i :: 0 <= i < |next| ==> Passes(next[i], keep))
      && Grown(next, keep) == Step(fs[k], keep, Grown(pre, keep))
  {
    assert fs[..k + 1][..k] == fs[..k];
    assert forall i :: 0 <= i <= k ==> fs[..k + 1][i] == fs[i];
  }

  /**
   * Lines 67-89: check, trim and clean each frame in turn, drop the rows
   * an earlier kept frame has, and keep the frame if rows remain.
   */
  method CleanAll(fs: seq<Frame>, keep: seq<string>) returns (r: Result<seq<Frame>>)
    requires Keeps(fs, keep)
    ensures r == CleanedFrames(fs, keep)
  {
    var cleaned: seq<Frame> := [];
    var k := 0;
    while k < |fs|
      invariant k <= |fs| && forall i :: 0 <= i < k ==> Passes(fs[i], keep)
      invariant forall i :: 0 <= i < k ==> Passes(fs[..k][i], keep)
      invariant cleaned == Grown(fs[..k], keep)
    {
      var f := fs[k];
      if SingleSourceCol !in f.cols || NameWithAuthorCol !in f.cols {
        FirstFailingAt(fs, keep, k);
        return Err(CheckError(f));
      }
      var d := DropNa(NC.Trimmed(f, keep), NameWithAuthorCol);
      var g := RemoveRepeats(d, cleaned);
      if |g.rows| > 0 {
        cleaned := cleaned + [g];
      }
      GrownPrefixStep(fs, keep, k);
      k := k + 1;
    }
    assert fs[..k] == fs;
    return Ok(cleaned);
  }

  /** `compile_hits` up to writing the CSV files. */
  method CompileHits(fs: seq<Frame>) returns (r: Result<Frame>)
    ensures r == Compiled(fs)
  {
    KeepKeeps(fs);
    if |fs| == 0 || AllEmpty(fs) {
      CompiledEmpty(fs, Keep(fs));
      return Ok(Frame(OutputColNames, []));
    }
    var sources, snippets := NC.CollectMentions(fs);
    var keep := OutputColNames + sources;
    assert keep == Keep(fs);
    var cleaned := CleanAll(fs, keep);
    if cleaned.Err? {
      return Err(cleaned.error);
    }
    CleanedFramesAllClean(fs, keep);
    var c := Concat(cleaned.value);
    assert c == ConcatenatedKeeping(fs, keep);
    if c.Err? {
      return Err(c.error);
    }
    r := Finish(c.value);
  }
}
