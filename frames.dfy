/**
 * A table with named columns, as the compilation helpers use it: a list of
 * column names and rows of cells aligned with it.  A column is read by
 * name, from the first column of that name.  The operations are the pandas
 * ones the helpers call: selecting columns by a list of names, dropping
 * columns, selecting rows, assigning a column, an outer merge on one key
 * and duplicate removal.  `Table` is the mutable frame of the functions
 * that change their argument in place.
 */
module Frames {
  import opened Base
  import opened Strs

  datatype Frame = Frame(cols: seq<string>, rows: seq<seq<Cell>>)

  /** Every row has one cell per column. */
  predicate WellFormed(f: Frame)
  {
    forall i :: 0 <= i < |f.rows| ==> |f.rows[i]| == |f.cols|
  }

  /** The position of the first column named c. */
  function ColIndex(cols: seq<string>, c: string): (k: Option<nat>)
    ensures k.None? <==> c !in cols
    ensures k.Some? ==> k.value < |cols| && cols[k.value] == c && forall j :: 0 <= j < k.value ==> cols[j] != c
  {
    if |cols| == 0 then None
    else if cols[0] == c then Some(0)
    else
      match ColIndex(cols[1..], c)
      case None => None
      case Some(k) => Some(k + 1)
  }

  /** The cell of column c in a row (missing when there is no such column). */
  function Value(cols: seq<string>, row: seq<Cell>, c: string): Cell
  {
    match ColIndex(cols, c)
    case None => None
    case Some(k) => if k < |row| then row[k] else None
  }

  /** The cells of the named columns, in the order of the names. */
  function Project(cols: seq<string>, row: seq<Cell>, names: seq<string>): (r: seq<Cell>)
    ensures |r| == |names|
    ensures forall c :: c in names ==> Value(names, r, c) == Value(cols, row, c)
  {
    seq(|names|, k requires 0 <= k < |names| => Value(cols, row, names[k]))
  }

  /** `df[names]`: the named columns, in the order of the names. */
  function ByNames(f: Frame, names: seq<string>): (g: Frame)
    ensures WellFormed(g) && g.cols == names && |g.rows| == |f.rows|
    ensures forall i, c {:trigger Value(g.cols, g.rows[i], c)} :: 0 <= i < |f.rows| && c in names ==> Value(g.cols, g.rows[i], c) == Value(f.cols, f.rows[i], c)
  {
    Frame(names, seq(|f.rows|, i requires 0 <= i < |f.rows| => Project(f.cols, f.rows[i], names)))
  }

  /** `df[[c for c in df.columns if p(c)]]` */
  function SelectColumns(f: Frame, p: string -> bool): (g: Frame)
    ensures WellFormed(g) && |g.rows| == |f.rows|
    ensures forall c :: c in g.cols <==> c in f.cols && p(c)
    ensures forall i, c {:trigger Value(g.cols, g.rows[i], c)} :: 0 <= i < |f.rows| && c in g.cols ==> Value(g.cols, g.rows[i], c) == Value(f.cols, f.rows[i], c)
  {
    ByNames(f, Filter(f.cols, p))
  }

  function NotIn(cs: seq<string>): string -> bool { (c: string) => c !in cs }

  /** `df.drop(columns=cs)` on columns that exist. */
  function DropColumns(f: Frame, cs: seq<string>): (g: Frame)
    ensures WellFormed(g) && |g.rows| == |f.rows|
    ensures forall c :: c in g.cols <==> c in f.cols && c !in cs
    ensures forall i, c {:trigger Value(g.cols, g.rows[i], c)} :: 0 <= i < |f.rows| && c in g.cols ==> Value(g.cols, g.rows[i], c) == Value(f.cols, f.rows[i], c)
  {
    SelectColumns(f, NotIn(cs))
  }

  function ColumnPresent(cols: seq<string>, c: string): seq<Cell> -> bool
  {
    (row: seq<Cell>) => Value(cols, row, c).Some?
  }

  /** `df.dropna(subset=[c])`: the rows whose cell in c is present, in order. */
  function DropNa(f: Frame, c: string): (g: Frame)
    requires WellFormed(f)
    ensures WellFormed(g) && g.cols == f.cols
    ensures forall i :: 0 <= i < |g.rows| ==> g.rows[i] in f.rows && Value(g.cols, g.rows[i], c).Some?
    ensures forall i :: 0 <= i < |f.rows| && Value(f.cols, f.rows[i], c).Some? ==> f.rows[i] in g.rows
  {
    Frame(f.cols, Filter(f.rows, ColumnPresent(f.cols, c)))
  }

  lemma ColIndexAppend(cols: seq<string>, c: string)
    requires c !in cols
    ensures ColIndex(cols + [c], c) == Some(|cols|)
  {
    assert (cols + [c])[|cols|] == c;
  }

  /** `df[c] = vals`: the column is overwritten in place when it exists, and appended otherwise. */
  function SetColumn(f: Frame, c: string, vals: seq<Cell>): (g: Frame)
    requires WellFormed(f) && |vals| == |f.rows|
    ensures WellFormed(g) && |g.rows| == |f.rows|
    ensures c in f.cols ==> g.cols == f.cols
    ensures c !in f.cols ==> g.cols == f.cols + [c]
    ensures forall i :: 0 <= i < |g.rows| ==> Value(g.cols, g.rows[i], c) == vals[i]
  {
    match ColIndex(f.cols, c)
    case Some(k) =>
      Frame(f.cols, seq(|f.rows|, i requires 0 <= i < |f.rows| => f.rows[i][k := vals[i]]))
    case None =>
      ColIndexAppend(f.cols, c);
      Frame(f.cols + [c], seq(|f.rows|, i requires 0 <= i < |f.rows| => f.rows[i] + [vals[i]]))
  }

  lemma {:induction false} ColIndexPrefix(cols: seq<string>, more: seq<string>, d: string)
    requires d in cols
    ensures ColIndex(cols + more, d) == ColIndex(cols, d)
  {
    if cols[0] != d {
      assert (cols + more)[1..] == cols[1..] + more;
      ColIndexPrefix(cols[1..], more, d);
    }
  }

  /** Assigning one column leaves every other column as it was. */
  lemma SetColumnKeepsOthers(f: Frame, c: string, vals: seq<Cell>, d: string, i: nat)
    requires WellFormed(f) && |vals| == |f.rows| && i < |f.rows| && d != c
    ensures Value(SetColumn(f, c, vals).cols, SetColumn(f, c, vals).rows[i], d) == Value(f.cols, f.rows[i], d)
  {
    if c !in f.cols && d in f.cols {
      ColIndexPrefix(f.cols, [c], d);
    }
  }

  /** The values of a column, row by row. */
  function Column(f: Frame, c: string): (col: seq<Cell>)
    ensures |col| == |f.rows|
    ensures forall i :: 0 <= i < |f.rows| ==> col[i] == Value(f.cols, f.rows[i], c)
  {
    seq(|f.rows|, i requires 0 <= i < |f.rows| => Value(f.cols, f.rows[i], c))
  }

  /** `df[c] = df[c].map(g)` on an existing column. */
  function MapColumn(f: Frame, c: string, g: Cell -> Cell): (h: Frame)
    requires WellFormed(f) && c in f.cols
    ensures WellFormed(h) && h.cols == f.cols && |h.rows| == |f.rows|
    ensures forall i :: 0 <= i < |f.rows| ==> Value(h.cols, h.rows[i], c) == g(Value(f.cols, f.rows[i], c))
  {
    SetColumn(f, c, seq(|f.rows|, i requires 0 <= i < |f.rows| => g(Value(f.cols, f.rows[i], c))))
  }

  /**
   * A loop `for c in cs: df[c] = df[c].map(g)` that stops with a key error
   * at the first missing column: the frame as it stands at that point.
   */
  function MapFront(f: Frame, cs: seq<string>, g: Cell -> Cell): (h: Frame)
    requires WellFormed(f)
    ensures WellFormed(h) && h.cols == f.cols && |h.rows| == |f.rows|
    decreases |cs|
  {
    if |cs| == 0 || cs[0] !in f.cols then f else MapFront(MapColumn(f, cs[0], g), cs[1..], g)
  }

  /** Columns outside cs are untouched by the loop. */
  lemma {:induction false} MapFrontKeepsOthers(f: Frame, cs: seq<string>, g: Cell -> Cell, d: string, i: nat)
    requires WellFormed(f) && d !in cs && i < |f.rows|
    ensures Value(f.cols, MapFront(f, cs, g).rows[i], d) == Value(f.cols, f.rows[i], d)
    decreases |cs|
  {
    if |cs| > 0 && cs[0] in f.cols {
      var h := MapColumn(f, cs[0], g);
      SetColumnKeepsOthers(f, cs[0], Column(h, cs[0]), d, i);
      MapFrontKeepsOthers(h, cs[1..], g, d, i);
    }
  }

  /** When g keeps the text p of every cell, the loop keeps the text of every cell. */
  lemma {:induction false} MapFrontIdempotent(f: Frame, cs: seq<string>, g: Cell -> Cell, p: Cell -> string, d: string, i: nat)
    requires WellFormed(f) && i < |f.rows|
    requires forall v :: p(g(v)) == p(v)
    ensures p(Value(f.cols, MapFront(f, cs, g).rows[i], d)) == p(Value(f.cols, f.rows[i], d))
    decreases |cs|
  {
    if |cs| > 0 && cs[0] in f.cols {
      var h := MapColumn(f, cs[0], g);
      if d != cs[0] {
        SetColumnKeepsOthers(f, cs[0], Column(h, cs[0]), d, i);
      }
      MapFrontIdempotent(h, cs[1..], g, p, d, i);
    }
  }

  predicate AllIn(cs: seq<string>, cols: seq<string>)
  {
    forall k :: 0 <= k < |cs| ==> cs[k] in cols
  }

  /** With every column present and g idempotent, each listed column ends up mapped once. */
  lemma {:induction false} MapFrontMapped(f: Frame, cs: seq<string>, g: Cell -> Cell, d: string, i: nat)
    requires WellFormed(f) && AllIn(cs, f.cols) && d in cs && i < |f.rows|
    requires forall v :: g(g(v)) == g(v)
    ensures Value(f.cols, MapFront(f, cs, g).rows[i], d) == g(Value(f.cols, f.rows[i], d))
    decreases |cs|
  {
    var h := MapColumn(f, cs[0], g);
    assert AllIn(cs[1..], h.cols) by {
      forall k | 0 <= k < |cs[1..]| ensures cs[1..][k] in h.cols { assert cs[1..][k] == cs[k + 1]; }
    }
    if cs[0] == d {
      if d in cs[1..] {
        MapFrontMapped(h, cs[1..], g, d, i);
      } else {
        MapFrontKeepsOthers(h, cs[1..], g, d, i);
      }
    } else {
      SetColumnKeepsOthers(f, cs[0], Column(h, cs[0]), d, i);
      MapFrontMapped(h, cs[1..], g, d, i);
    }
  }

  function KeyOf(cols: seq<string>, key: string): seq<Cell> -> Cell
  {
    (row: seq<Cell>) => Value(cols, row, key)
  }

  /** `df.drop_duplicates(subset=[key])`: the first row of each key value. */
  function DropDuplicatesOn(f: Frame, key: string): (g: Frame)
    requires WellFormed(f)
    ensures WellFormed(g) && g.cols == f.cols
    ensures forall i, j :: 0 <= i < j < |g.rows| ==> Value(g.cols, g.rows[i], key) != Value(g.cols, g.rows[j], key)
    ensures forall i :: 0 <= i < |g.rows| ==> g.rows[i] in f.rows
  {
    var rs := DistinctBy(f.rows, KeyOf(f.cols, key));
    Frame(f.cols, rs)
  }

  /** `df.drop_duplicates()`: the first of each set of identical rows. */
  function DropDuplicateRows(f: Frame): (g: Frame)
    requires WellFormed(f)
    ensures WellFormed(g) && g.cols == f.cols && NoDup(g.rows)
    ensures forall i :: 0 <= i < |g.rows| ==> g.rows[i] in f.rows
    ensures forall i :: 0 <= i < |f.rows| ==> f.rows[i] in g.rows
  {
    Frame(f.cols, Dedup(f.rows))
  }

  // ---- outer merge on one key column ----

  function Renamed(c: string, other: seq<string>, key: string, suffix: string): string
  {
    if c != key && c in other then c + suffix else c
  }

  /** The right columns but the key. */
  function RightCols(y: seq<string>, key: string): seq<string>
  {
    Filter(y, NotIn([key]))
  }

  /** The merged columns: the left ones, then the right ones but the key; shared names get `_x` and `_y`. */
  function MergedCols(x: seq<string>, y: seq<string>, key: string): (cols: seq<string>)
    ensures |cols| == |x| + |RightCols(y, key)|
  {
    var ys := RightCols(y, key);
    seq(|x|, k requires 0 <= k < |x| => Renamed(x[k], y, key, "_x"))
      + seq(|ys|, j requires 0 <= j < |ys| => Renamed(ys[j], x, key, "_y"))
  }

  function NoneRow(n: nat): (r: seq<Cell>)
    ensures |r| == n && forall k :: 0 <= k < n ==> r[k].None?
  {
    seq(n, k => None)
  }

  function SameKey(x: Frame, y: Frame, key: string, xr: seq<Cell>): seq<Cell> -> bool
  {
    (yr: seq<Cell>) => Value(y.cols, yr, key) == Value(x.cols, xr, key)
  }

  /** The rows of one left row: joined with each right row of its key, or alone. */
  function LeftRows(x: Frame, y: Frame, key: string, xr: seq<Cell>): (rs: seq<seq<Cell>>)
    requires |xr| == |x.cols|
    ensures forall i :: 0 <= i < |rs| ==> |rs[i]| == |MergedCols(x.cols, y.cols, key)|
  {
    var ys := RightCols(y.cols, key);
    var ms := Filter(y.rows, SameKey(x, y, key, xr));
    if |ms| == 0 then [xr + NoneRow(|ys|)]
    else seq(|ms|, j requires 0 <= j < |ms| => xr + Project(y.cols, ms[j], ys))
  }

  function HasMatchIn(x: Frame, y: Frame, key: string): seq<Cell> -> bool
  {
    (yr: seq<Cell>) => exists i :: 0 <= i < |x.rows| && Value(x.cols, x.rows[i], key) == Value(y.cols, yr, key)
  }

  function NoMatchIn(x: Frame, y: Frame, key: string): seq<Cell> -> bool
  {
    (yr: seq<Cell>) => !HasMatchIn(x, y, key)(yr)
  }

  /** A right row without a left partner: the left cells missing but the key. */
  function RightOnly(x: Frame, y: Frame, key: string, yr: seq<Cell>): (r: seq<Cell>)
    ensures |r| == |MergedCols(x.cols, y.cols, key)|
  {
    var left := seq(|x.cols|, k requires 0 <= k < |x.cols| => if x.cols[k] == key then Value(y.cols, yr, key) else None);
    left + Project(y.cols, yr, RightCols(y.cols, key))
  }

  /**
   * `pd.merge(x, y, on=key, how='outer')`, a missing key matching a
   * missing key: the left rows in order, each with its right partners in
   * order, then the right rows that no left row matches.
   */
  function OuterMerge(x: Frame, y: Frame, key: string): (res: Result<Frame>)
    requires WellFormed(x)
    ensures res.Err? <==> key !in x.cols || key !in y.cols
    ensures res.Ok? ==> WellFormed(res.value) && res.value.cols == MergedCols(x.cols, y.cols, key)
  {
    if key !in x.cols || key !in y.cols then Err("KeyError: " + key)
    else
      var n := |MergedCols(x.cols, y.cols, key)|;
      var lefts := seq(|x.rows|, i requires 0 <= i < |x.rows| => LeftRows(x, y, key, x.rows[i]));
      var rights := Filter(y.rows, NoMatchIn(x, y, key));
      var rs := Flatten(lefts) + seq(|rights|, j requires 0 <= j < |rights| => RightOnly(x, y, key, rights[j]));
      FlattenRowLengths(lefts, n);
      Ok(Frame(MergedCols(x.cols, y.cols, key), rs))
  }

  lemma {:induction false} FlattenRowLengths(ss: seq<seq<seq<Cell>>>, n: nat)
    requires forall k, i :: 0 <= k < |ss| && 0 <= i < |ss[k]| ==> |ss[k][i]| == n
    ensures forall i :: 0 <= i < |Flatten(ss)| ==> |Flatten(ss)[i]| == n
  {
    if |ss| > 0 {
      FlattenRowLengths(ss[..|ss| - 1], n);
    }
  }

  function InList(cs: seq<string>): string -> bool { (c: string) => c in cs }

  /**
   * The columns of `df[[c for c in df if c in first] + [c for c in df if c
   * not in first]]` followed by moving column `last` to the end.
   */
  function ArrangedCols(cols: seq<string>, first: seq<string>, last: string): seq<string>
  {
    Filter(Filter(cols, InList(first)) + Filter(cols, NotIn(first)), NotIn([last])) + [last]
  }

  lemma ArrangedColsOrder(cols: seq<string>, first: seq<string>, last: string)
    ensures forall j1, j2 :: 0 <= j1 < j2 < |ArrangedCols(cols, first, last)| - 1 && ArrangedCols(cols, first, last)[j2] in first ==>
      ArrangedCols(cols, first, last)[j1] in first
  {
    var a := Filter(cols, InList(first));
    var b := Filter(cols, NotIn(first));
    var fa := Filter(a, NotIn([last]));
    var fb := Filter(b, NotIn([last]));
    FilterAppend(a, b, NotIn([last]));
    var r := ArrangedCols(cols, first, last);
    assert r == fa + fb + [last];
    forall j | 0 <= j < |fa| + |fb| ensures r[j] in first <==> j < |fa| {
      if j < |fa| {
        assert r[j] == fa[j] && fa[j] in a;
      } else {
        assert r[j] == fb[j - |fa|] && fb[j - |fa|] in b;
      }
    }
  }

  lemma ArrangedColsSame(cols: seq<string>, first: seq<string>, last: string)
    requires last in cols
    ensures forall c :: c in ArrangedCols(cols, first, last) <==> c in cols
  {
    var a := Filter(cols, InList(first));
    var b := Filter(cols, NotIn(first));
    forall c | c in cols ensures c in a + b {
      var k :| 0 <= k < |cols| && cols[k] == c;
    }
  }

  /** The frame with the columns so arranged, each keeping its values. */
  function Arranged(f: Frame, first: seq<string>, last: string): (g: Frame)
    requires last in f.cols
    ensures WellFormed(g) && |g.rows| == |f.rows| && |g.cols| > 0 && g.cols[|g.cols| - 1] == last
    ensures forall c :: c in g.cols <==> c in f.cols
    ensures forall i, c {:trigger Value(g.cols, g.rows[i], c)} :: 0 <= i < |f.rows| && c in g.cols ==> Value(g.cols, g.rows[i], c) == Value(f.cols, f.rows[i], c)
    ensures forall j1, j2 :: 0 <= j1 < j2 < |g.cols| - 1 && g.cols[j2] in first ==> g.cols[j1] in first
  {
    ArrangedColsOrder(f.cols, first, last);
    ArrangedColsSame(f.cols, first, last);
    ByNames(f, ArrangedCols(f.cols, first, last))
  }

  /** `df[dst] = df[src]` followed by dropping src. */
  function MovedColumn(f: Frame, src: string, dst: string): (g: Frame)
    requires WellFormed(f) && src in f.cols
    ensures WellFormed(g) && |g.rows| == |f.rows| && (dst != src ==> dst in g.cols)
  {
    DropColumns(SetColumn(f, dst, Column(f, src)), [src])
  }

  /** A list of frames whose frames are changed in place through it. */
  class FrameList {
    var frames: seq<Frame>

    constructor (fs: seq<Frame>)
      ensures frames == fs
    {
      frames := fs;
    }
  }

  /** A frame changed in place. */
  class Table {
    var cols: seq<string>
    var rows: seq<seq<Cell>>

    function Contents(): Frame
      reads this
    {
      Frame(cols, rows)
    }

    constructor (f: Frame)
      ensures Contents() == f
    {
      cols := f.cols;
      rows := f.rows;
    }
  }
}
