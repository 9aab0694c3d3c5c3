/**
 * The line handling shared by the parsers of the World Economic Plants
 * PDF (read_pdfs/parse_wiersema.py, read_wep/parse_catalog.py and
 * read_wep/parse_common_name_index.py).  The text of a page is a list of
 * lines; a line that opens an entry absorbs the lines after it, blank
 * lines are dropped, a property line is traced back to the nearest line
 * that can be a name, and index lines are split at " -" into a common name
 * and a scientific name.  What counts as "opens", "absorbed" and "can be a
 * name" is a parameter: each parser supplies its own test.
 */
module PdfLines {
  import opened Base
  import opened Strs

  const Categories: seq<string> := ["CN", "ECON", "DIST", "SYN"]
  const Dash := " -"
  const WepSource := "WEP (Wiersema 2013)"

  /** The lines the compressing loops skip: '' and ' '. */
  predicate IsBlank(line: string)
  {
    line == "" || line == " "
  }

  /** `' -' in line`: the line opens a common-name entry. */
  predicate HasDash(line: string)
  {
    Contains(line, Dash)
  }

  /** `any(c + ':' in line for c in categories)`: the line carries a category tag. */
  predicate HasCategoryTag(line: string)
  {
    exists k :: 0 <= k < |Categories| && Contains(line, Categories[k] + ":")
  }

  /** `any('(' + w in line ...) or any(w + ')' in line ...)`: a keyword with its bracket. */
  predicate HasParenthesised(line: string, words: seq<string>)
  {
    exists k :: 0 <= k < |words| && (Contains(line, "(" + words[k]) || Contains(line, words[k] + ")"))
  }

  const CommonNamesIntro := "Common names in the following languages are indexed here: Afrikaans, Czech, Danish, Dutch, English, French, German,"
  const EconIntro := "Dr. Takasi Yamazaki – Tokyo, JAPAN –"
  const NotFoundText := "ValueError: substring not found"

  /**
   * The lines of the economic-use section: the text from the econ intro up
   * to the common-names intro, split at newlines.  `str.index` raises
   * ValueError when either intro is missing (the common-names one is looked
   * up first).
   */
  function EconLines(allText: string): (r: Result<seq<string>>)
    ensures r.Err? <==> !Contains(allText, CommonNamesIntro) || !Contains(allText, EconIntro)
    ensures r.Ok? ==> Join("\n", r.value) == PySlice(allText, FirstIndex(allText, EconIntro), FirstIndex(allText, CommonNamesIntro))
  {
    if !Contains(allText, CommonNamesIntro) || !Contains(allText, EconIntro) then Err(NotFoundText)
    else
      var text := PySlice(allText, FirstIndex(allText, EconIntro), FirstIndex(allText, CommonNamesIntro));
      SplitOnJoin(text, '\n');
      Ok(SplitOn(text, '\n'))
  }

  // ---- compressing lines ----

  /** The input lines first..end-1 that make one output line. */
  datatype Span = Span(first: nat, end: nat)

  /** Lines a..b-1 run together. */
  function Joined(ls: seq<string>, a: nat, b: nat): string
    requires a <= b <= |ls|
    decreases b - a
  {
    if a == b then "" else Joined(ls, a, b - 1) + ls[b - 1]
  }

  /** The text of a span ("" for a span outside the lines). */
  function SpanText(ls: seq<string>, g: Span): string
  {
    if g.first <= g.end <= |ls| then Joined(ls, g.first, g.end) else ""
  }

  function Lines(ls: seq<string>, gs: seq<Span>): (r: seq<string>)
    ensures |r| == |gs|
  {
    seq(|gs|, j requires 0 <= j < |gs| => SpanText(ls, gs[j]))
  }

  /** The first position at or after j whose line is not absorbed, or |ls|. */
  function RunEnd(ls: seq<string>, j: nat, absorbs: string -> bool): (e: nat)
    requires j <= |ls|
    ensures j <= e <= |ls|
    ensures forall k :: j <= k < e ==> absorbs(ls[k])
    ensures e == |ls| || !absorbs(ls[e])
    decreases |ls| - j
  {
    if j == |ls| || !absorbs(ls[j]) then j else RunEnd(ls, j + 1, absorbs)
  }

  /**
   * The spans the compressing loop forms from position i on: a blank line
   * is skipped; a line that opens an entry takes the absorbed lines after it
   * (and the iterator skips them); any other line stands alone.
   */
  function Groups(ls: seq<string>, i: nat, opens: string -> bool, absorbs: string -> bool): seq<Span>
    requires i <= |ls|
    decreases |ls| - i
  {
    if i == |ls| then []
    else if IsBlank(ls[i]) then Groups(ls, i + 1, opens, absorbs)
    else if opens(ls[i]) then
      var e := RunEnd(ls, i + 1, absorbs);
      [Span(i, e)] + Groups(ls, e, opens, absorbs)
    else [Span(i, i + 1)] + Groups(ls, i + 1, opens, absorbs)
  }

  /** The output of a compressing loop. */
  function Compressed(ls: seq<string>, opens: string -> bool, absorbs: string -> bool): seq<string>
  {
    Lines(ls, Groups(ls, 0, opens, absorbs))
  }

  /** A span as the loop forms it: a non-blank first line, then only absorbed lines, as many as there are. */
  predicate GoodSpan(ls: seq<string>, g: Span, opens: string -> bool, absorbs: string -> bool)
  {
    g.first < g.end <= |ls| && !IsBlank(ls[g.first]) &&
    (forall k :: g.first < k < g.end ==> absorbs(ls[k])) &&
    (if opens(ls[g.first]) then g.end == |ls| || !absorbs(ls[g.end]) else g.end == g.first + 1)
  }

  predicate AllBlank(ls: seq<string>, a: nat, b: nat)
    requires a <= b <= |ls|
  {
    forall k :: a <= k < b ==> IsBlank(ls[k])
  }

  /** From position i on: blank lines, then a span as the loop forms it, then the same again, up to the end. */
  predicate Tiling(ls: seq<string>, i: nat, gs: seq<Span>, opens: string -> bool, absorbs: string -> bool)
    requires i <= |ls|
    decreases |gs|
  {
    if |gs| == 0 then AllBlank(ls, i, |ls|)
    else
      i <= gs[0].first && GoodSpan(ls, gs[0], opens, absorbs) && AllBlank(ls, i, gs[0].first) &&
      Tiling(ls, gs[0].end, gs[1..], opens, absorbs)
  }

  /**
   * The spans tile the lines: each is a non-blank line with the absorbed
   * lines after it, they come in order, and only blank lines fall between
   * or around them.
   */
  lemma {:induction false} GroupsTile(ls: seq<string>, i: nat, opens: string -> bool, absorbs: string -> bool)
    requires i <= |ls|
    ensures Tiling(ls, i, Groups(ls, i, opens, absorbs), opens, absorbs)
    decreases |ls| - i
  {
    var gs := Groups(ls, i, opens, absorbs);
    if i < |ls| {
      if IsBlank(ls[i]) {
        GroupsTile(ls, i + 1, opens, absorbs);
        BlankThenTiling(ls, i, gs, opens, absorbs);
      } else {
        var e := if opens(ls[i]) then RunEnd(ls, i + 1, absorbs) else i + 1;
        GroupsTile(ls, e, opens, absorbs);
        assert gs[1..] == Groups(ls, e, opens, absorbs);
      }
    }
  }

  lemma BlankThenTiling(ls: seq<string>, i: nat, gs: seq<Span>, opens: string -> bool, absorbs: string -> bool)
    requires i < |ls| && IsBlank(ls[i]) && Tiling(ls, i + 1, gs, opens, absorbs)
    ensures Tiling(ls, i, gs, opens, absorbs)
  {
  }

  /** Every span of a tiling is a span as the loop forms it. */
  lemma {:induction false} TilingSpan(ls: seq<string>, i: nat, gs: seq<Span>, opens: string -> bool, absorbs: string -> bool, j: nat)
    requires i <= |ls| && Tiling(ls, i, gs, opens, absorbs) && j < |gs|
    ensures GoodSpan(ls, gs[j], opens, absorbs)
    decreases |gs|
  {
    if j > 0 {
      TilingSpan(ls, gs[0].end, gs[1..], opens, absorbs, j - 1);
    }
  }

  /** A line that is neither blank nor absorbable opens a span of its own. */
  lemma {:induction false} LineStartsSpan(ls: seq<string>, i: nat, k: nat, opens: string -> bool, absorbs: string -> bool)
    requires i <= k < |ls| && !IsBlank(ls[k]) && !absorbs(ls[k])
    ensures exists j :: 0 <= j < |Groups(ls, i, opens, absorbs)| && Groups(ls, i, opens, absorbs)[j].first == k
    decreases |ls| - i
  {
    var gs := Groups(ls, i, opens, absorbs);
    if IsBlank(ls[i]) {
      LineStartsSpan(ls, i + 1, k, opens, absorbs);
    } else if k == i {
      assert gs[0].first == k;
    } else {
      var e := if opens(ls[i]) then RunEnd(ls, i + 1, absorbs) else i + 1;
      assert e <= k;
      LineStartsSpan(ls, e, k, opens, absorbs);
      var j :| 0 <= j < |Groups(ls, e, opens, absorbs)| && Groups(ls, e, opens, absorbs)[j].first == k;
      assert gs[j + 1].first == k;
    }
  }

  /** A span's text starts with its first line. */
  lemma {:induction false} JoinedStartsWithFirst(ls: seq<string>, a: nat, b: nat)
    requires a < b <= |ls|
    ensures Joined(ls, a, b) == ls[a] + Joined(ls, a + 1, b)
    decreases b - a
  {
    if b > a + 1 {
      JoinedStartsWithFirst(ls, a, b - 1);
    }
  }

  /** No compressed line is blank: each starts with a non-blank line. */
  lemma NoBlankOutput(ls: seq<string>, opens: string -> bool, absorbs: string -> bool, j: nat)
    requires j < |Compressed(ls, opens, absorbs)|
    ensures !IsBlank(Compressed(ls, opens, absorbs)[j])
  {
    var gs := Groups(ls, 0, opens, absorbs);
    GroupsTile(ls, 0, opens, absorbs);
    TilingSpan(ls, 0, gs, opens, absorbs, j);
    var g := gs[j];
    JoinedStartsWithFirst(ls, g.first, g.end);
    var t := Joined(ls, g.first, g.end);
    assert t == ls[g.first] + Joined(ls, g.first + 1, g.end);
    assert |t| >= |ls[g.first]| && t[..|ls[g.first]|] == ls[g.first];
  }

  /** Groups from a non-blank line: its own span first. */
  lemma GroupsAtLine(ls: seq<string>, i: nat, opens: string -> bool, absorbs: string -> bool)
    requires i < |ls| && !IsBlank(ls[i])
    ensures var e := if opens(ls[i]) then RunEnd(ls, i + 1, absorbs) else i + 1;
      Groups(ls, i, opens, absorbs) == [Span(i, e)] + Groups(ls, e, opens, absorbs)
  {
  }

  /** The inner loop: line i with the absorbed lines after it, counted, and the position after them. */
  method AbsorbRun(ls: seq<string>, i: nat, absorbs: string -> bool) returns (newLine: string, next: nat)
    requires i < |ls|
    ensures next == RunEnd(ls, i + 1, absorbs)
    ensures newLine == Joined(ls, i, next)
  {
    newLine := ls[i];
    assert Joined(ls, i, i + 1) == ls[i] by {
      assert Joined(ls, i, i) == "";
    }
    var count := 0;
    var l := i + 1;
    while l < |ls| && absorbs(ls[l])
      invariant i + 1 <= l <= |ls| && count == l - i - 1
      invariant newLine == Joined(ls, i, l)
      invariant RunEnd(ls, i + 1, absorbs) == RunEnd(ls, l, absorbs)
    {
      newLine := newLine + ls[l];
      count := count + 1;
      l := l + 1;
    }
    next := i + 1 + count;
  }

  /** One step of the loop from a non-blank line: the span it forms and where the iterator resumes. */
  method TakeSpan(ls: seq<string>, i: nat, opens: string -> bool, absorbs: string -> bool) returns (newLine: string, next: nat)
    requires i < |ls| && !IsBlank(ls[i])
    ensures i < next <= |ls|
    ensures Groups(ls, i, opens, absorbs) == [Span(i, next)] + Groups(ls, next, opens, absorbs)
    ensures newLine == SpanText(ls, Span(i, next))
  {
    if opens(ls[i]) {
      newLine, next := AbsorbRun(ls, i, absorbs);
    } else {
      newLine, next := ls[i], i + 1;
      assert Joined(ls, i, i) == "";
    }
    GroupsAtLine(ls, i, opens, absorbs);
  }

  /** Appending the span the loop just formed keeps its two invariants. */
  lemma SpanStep(ls: seq<string>, done: seq<Span>, i: nat, next: nat, newLine: string, opens: string -> bool, absorbs: string -> bool)
    requires i < next <= |ls|
    requires Groups(ls, i, opens, absorbs) == [Span(i, next)] + Groups(ls, next, opens, absorbs)
    requires done + Groups(ls, i, opens, absorbs) == Groups(ls, 0, opens, absorbs)
    requires newLine == SpanText(ls, Span(i, next))
    ensures (done + [Span(i, next)]) + Groups(ls, next, opens, absorbs) == Groups(ls, 0, opens, absorbs)
    ensures Lines(ls, done + [Span(i, next)]) == Lines(ls, done) + [newLine]
  {
    assert (done + [Span(i, next)]) + Groups(ls, next, opens, absorbs) == done + Groups(ls, i, opens, absorbs);
  }

  /**
   * The compressing loop (`compress_lines_into_names` and
   * `compress_lines_into_categories`): an iterator over the positions whose
   * absorbed lines are skipped.
   */
  method Compress(ls: seq<string>, opens: string -> bool, absorbs: string -> bool) returns (out: seq<string>)
    ensures out == Compressed(ls, opens, absorbs)
  {
    out := [];
    ghost var done: seq<Span> := [];
    var i := 0;
    while i < |ls|
      invariant i <= |ls|
      invariant done + Groups(ls, i, opens, absorbs) == Groups(ls, 0, opens, absorbs)
      invariant out == Lines(ls, done)
    {
      if IsBlank(ls[i]) {
        i := i + 1;
      } else {
        var newLine, next := TakeSpan(ls, i, opens, absorbs);
        SpanStep(ls, done, i, next, newLine, opens, absorbs);
        out := out + [newLine];
        done := done + [Span(i, next)];
        i := next;
      }
    }
  }

  function NoDash(line: string): bool { !HasDash(line) }

  /** `compress_lines_into_names`: a " -" line absorbs the lines without one that follow it. */
  method CompressLinesIntoNames(ls: seq<string>) returns (out: seq<string>)
    ensures out == Compressed(ls, HasDash, NoDash)
    ensures forall j :: 0 <= j < |out| ==> !IsBlank(out[j])
  {
    out := Compress(ls, HasDash, NoDash);
    forall j | 0 <= j < |out| ensures !IsBlank(out[j]) {
      NoBlankOutput(ls, HasDash, NoDash, j);
    }
  }

  /** Every " -" line opens exactly one output line of `compress_lines_into_names`. */
  lemma DashLineOpensEntry(ls: seq<string>, k: nat)
    requires k < |ls| && HasDash(ls[k])
    ensures exists j :: 0 <= j < |Groups(ls, 0, HasDash, NoDash)| && Groups(ls, 0, HasDash, NoDash)[j].first == k
  {
    var p :| 0 <= p <= |ls[k]| - |Dash| && ContainsAt(ls[k], Dash, p);
    assert |ls[k]| >= 2;
    LineStartsSpan(ls, 0, k, HasDash, NoDash);
  }

  /** The lines a category line absorbs: those that cannot be names and carry no category tag. */
  function CategoryFollower(notName: string -> bool): string -> bool
  {
    (line: string) => notName(line) && !HasCategoryTag(line)
  }

  /**
   * `compress_lines_into_categories`: a line with a category tag absorbs the
   * following lines until one that can be a name or has its own tag.
   */
  method CompressLinesIntoCategories(ls: seq<string>, notName: string -> bool) returns (out: seq<string>)
    ensures out == Compressed(ls, HasCategoryTag, CategoryFollower(notName))
    ensures forall j :: 0 <= j < |out| ==> !IsBlank(out[j])
  {
    out := Compress(ls, HasCategoryTag, CategoryFollower(notName));
    forall j | 0 <= j < |out| ensures !IsBlank(out[j]) {
      NoBlankOutput(ls, HasCategoryTag, CategoryFollower(notName), j);
    }
  }

  /** Every tagged line opens its own output line of `compress_lines_into_categories`. */
  lemma CategoryLineOpensEntry(ls: seq<string>, notName: string -> bool, k: nat)
    requires k < |ls| && HasCategoryTag(ls[k])
    ensures exists j :: (0 <= j < |Groups(ls, 0, HasCategoryTag, CategoryFollower(notName))| &&
      Groups(ls, 0, HasCategoryTag, CategoryFollower(notName))[j].first == k)
  {
    assert !IsBlank(ls[k]) by {
      var c :| 0 <= c < |Categories| && Contains(ls[k], Categories[c] + ":");
      var p :| 0 <= p <= |ls[k]| - |Categories[c] + ":"| && ContainsAt(ls[k], Categories[c] + ":", p);
    }
    LineStartsSpan(ls, 0, k, HasCategoryTag, CategoryFollower(notName));
  }

  // ---- tracing a property line back to its name ----

  const IndexErrorText := "IndexError: list index out of range"

  /** `lines[p]` for a position Python accepts, negative ones counting from the end. */
  function LineAt(ls: seq<string>, p: int): string
    requires -|ls| <= p < |ls|
  {
    if p < 0 then ls[p + |ls|] else ls[p]
  }

  /**
   * The loop of `retrieve_name_from_property_line` from step i on: it reads
   * position idx - i, then idx - i - 1, and so on, until a line that can be
   * a name.  Below position 0 the positions count from the end of the list;
   * past -len(lines) the read raises IndexError.
   */
  function RetrieveFrom(ls: seq<string>, idx: nat, notName: string -> bool, i: nat): Result<string>
    decreases idx + |ls| + 1 - i
  {
    if idx - i < -|ls| || idx - i >= |ls| then Err(IndexErrorText)
    else if notName(LineAt(ls, idx - i)) then RetrieveFrom(ls, idx, notName, i + 1)
    else Ok(LineAt(ls, idx - i))
  }

  /** `retrieve_name_from_property_line(idx, lines)`. */
  function Retrieve(ls: seq<string>, idx: nat, notName: string -> bool): Result<string>
  {
    RetrieveFrom(ls, idx, notName, 1)
  }

  /** Step t reads a line that cannot be a name. */
  predicate SkippedAt(ls: seq<string>, idx: nat, notName: string -> bool, t: nat)
  {
    -|ls| <= idx - t < |ls| && notName(LineAt(ls, idx - t))
  }

  lemma {:induction false} RetrieveSkips(ls: seq<string>, idx: nat, notName: string -> bool, i: nat, j: nat)
    requires i <= j && forall t :: i <= t < j ==> SkippedAt(ls, idx, notName, t)
    ensures RetrieveFrom(ls, idx, notName, i) == RetrieveFrom(ls, idx, notName, j)
    decreases j - i
  {
    if i < j {
      assert SkippedAt(ls, idx, notName, i);
      RetrieveSkips(ls, idx, notName, i + 1, j);
    }
  }

  /** The nearest line before idx that can be a name is the one returned. */
  lemma RetrieveNearest(ls: seq<string>, idx: nat, notName: string -> bool, k: nat)
    requires k < idx <= |ls| && !notName(ls[k])
    requires forall m :: k < m < idx ==> notName(ls[m])
    ensures Retrieve(ls, idx, notName) == Ok(ls[k])
  {
    forall t | 1 <= t < idx - k ensures SkippedAt(ls, idx, notName, t) {
      assert LineAt(ls, idx - t) == ls[idx - t];
    }
    RetrieveSkips(ls, idx, notName, 1, idx - k);
  }

  /**
   * With no line before idx that can be a name, the search wraps around to
   * the end of the list and returns the last line that can be a name, which
   * lies at or after the property line.
   */
  lemma RetrieveWraps(ls: seq<string>, idx: nat, notName: string -> bool, k: nat)
    requires idx <= k < |ls| && !notName(ls[k])
    requires forall m :: 0 <= m < idx ==> notName(ls[m])
    requires forall m :: k < m < |ls| ==> notName(ls[m])
    ensures Retrieve(ls, idx, notName) == Ok(ls[k])
  {
    forall t | 1 <= t < idx + |ls| - k ensures SkippedAt(ls, idx, notName, t) {
      if idx - t >= 0 {
        assert LineAt(ls, idx - t) == ls[idx - t];
      } else {
        assert LineAt(ls, idx - t) == ls[idx - t + |ls|];
      }
    }
    RetrieveSkips(ls, idx, notName, 1, idx + |ls| - k);
    assert LineAt(ls, k - |ls|) == ls[k];
  }

  /** With no line anywhere that can be a name, the search runs off the list. */
  lemma RetrieveFails(ls: seq<string>, idx: nat, notName: string -> bool)
    requires idx <= |ls|
    requires forall m :: 0 <= m < |ls| ==> notName(ls[m])
    ensures Retrieve(ls, idx, notName) == Err(IndexErrorText)
  {
    forall t | 1 <= t < idx + |ls| + 1 ensures SkippedAt(ls, idx, notName, t) {
      if idx - t >= 0 {
        assert LineAt(ls, idx - t) == ls[idx - t];
      } else {
        assert LineAt(ls, idx - t) == ls[idx - t + |ls|];
      }
    }
    RetrieveSkips(ls, idx, notName, 1, idx + |ls| + 1);
  }

  /** Whatever the search returns is a line of the list that can be a name. */
  lemma {:induction false} RetrievedIsName(ls: seq<string>, idx: nat, notName: string -> bool, i: nat)
    requires RetrieveFrom(ls, idx, notName, i).Ok?
    ensures var x := RetrieveFrom(ls, idx, notName, i).value; x in ls && !notName(x)
    decreases idx + |ls| + 1 - i
  {
    if notName(LineAt(ls, idx - i)) {
      RetrievedIsName(ls, idx, notName, i + 1);
    }
  }

  /** `retrieve_name_from_property_line`: the backward while loop. */
  method RetrieveNameFromPropertyLine(idx: nat, ls: seq<string>, notName: string -> bool) returns (r: Result<string>)
    ensures r == Retrieve(ls, idx, notName)
  {
    var i := 1;
    if idx - i < -|ls| || idx - i >= |ls| {
      return Err(IndexErrorText);
    }
    var previous := LineAt(ls, idx - i);
    while notName(previous)
      invariant 1 <= i && -|ls| <= idx - i < |ls| && previous == LineAt(ls, idx - i)
      invariant RetrieveFrom(ls, idx, notName, i) == Retrieve(ls, idx, notName)
      decreases idx + |ls| - i
    {
      i := i + 1;
      if idx - i < -|ls| {
        return Err(IndexErrorText);
      }
      previous := LineAt(ls, idx - i);
    }
    return Ok(previous);
  }

  // ---- selecting property lines ----

  /**
   * The names the selection loop collects from lines 0..n-1: for each
   * selected line, the name traced back from it; the first IndexError raised
   * ends the loop.
   */
  function NamesFor(ls: seq<string>, keep: string -> bool, notName: string -> bool, n: nat): Result<seq<string>>
    requires n <= |ls|
  {
    if n == 0 then Ok([])
    else
      match NamesFor(ls, keep, notName, n - 1)
      case Err(e) => Err(e)
      case Ok(prev) =>
        if keep(ls[n - 1]) then
          match Retrieve(ls, n - 1, notName)
          case Err(e) => Err(e)
          case Ok(x) => Ok(prev + [x])
        else Ok(prev)
  }

  /** One name per selected line, each a line of the list that can be a name. */
  lemma {:induction false} NamesForMeaning(ls: seq<string>, keep: string -> bool, notName: string -> bool, n: nat)
    requires n <= |ls| && NamesFor(ls, keep, notName, n).Ok?
    ensures |NamesFor(ls, keep, notName, n).value| == |Filter(ls[..n], keep)|
    ensures forall j :: 0 <= j < |NamesFor(ls, keep, notName, n).value| ==>
      NamesFor(ls, keep, notName, n).value[j] in ls && !notName(NamesFor(ls, keep, notName, n).value[j])
  {
    if n > 0 {
      NamesForMeaning(ls, keep, notName, n - 1);
      assert ls[..n] == ls[..n - 1] + [ls[n - 1]];
      FilterAppend(ls[..n - 1], [ls[n - 1]], keep);
      if keep(ls[n - 1]) {
        RetrievedIsName(ls, n - 1, notName, 1);
      }
    }
  }

  /** The loop body for line i of the selection. */
  method SelectLine(ls: seq<string>, keep: string -> bool, notName: string -> bool, i: nat, names: seq<string>)
    returns (r: Result<seq<string>>)
    requires i < |ls| && NamesFor(ls, keep, notName, i) == Ok(names)
    ensures r == NamesFor(ls, keep, notName, i + 1)
  {
    if keep(ls[i]) {
      var name := RetrieveNameFromPropertyLine(i, ls, notName);
      if name.Err? {
        return Err(name.error);
      }
      return Ok(names + [name.value]);
    }
    return Ok(names);
  }

  /** The loop over the compressed lines appending the name found for each selected one. */
  method SelectNames(ls: seq<string>, keep: string -> bool, notName: string -> bool) returns (r: Result<seq<string>>)
    ensures r == NamesFor(ls, keep, notName, |ls|)
  {
    var names: seq<string> := [];
    var i := 0;
    while i < |ls|
      invariant i <= |ls| && NamesFor(ls, keep, notName, i) == Ok(names)
    {
      var step := SelectLine(ls, keep, notName, i, names);
      if step.Err? {
        ErrorPersists(ls, keep, notName, i + 1, |ls|);
        return step;
      }
      names := step.value;
      i := i + 1;
    }
    return Ok(names);
  }

  /** Once the loop has raised, it has raised for the whole list. */
  lemma {:induction false} ErrorPersists(ls: seq<string>, keep: string -> bool, notName: string -> bool, i: nat, n: nat)
    requires i <= n <= |ls| && NamesFor(ls, keep, notName, i).Err?
    ensures NamesFor(ls, keep, notName, n) == NamesFor(ls, keep, notName, i)
    decreases n - i
  {
    if i < n {
      ErrorPersists(ls, keep, notName, i, n - 1);
    }
  }

  // ---- common-name index lines ----

  /** A scientific name with one of its common names. */
  datatype NamePair = NamePair(name: string, common: string)

  /**
   * One compressed line split at its first " -": on normal pages the common
   * name comes first and the scientific name runs from three characters
   * after the dash to the second-last character; on right-to-left pages the
   * scientific name comes first, from the second character.  A line without
   * " -" raises ValueError in `index` and is passed over.
   */
  function SplitNameLine(line: string, rtl: bool): Option<NamePair>
  {
    if !HasDash(line) then None
    else
      var d := FirstIndex(line, Dash);
      if rtl then Some(NamePair(PySlice(line, 1, d), PySlice(line, d + 3, -1)))
      else Some(NamePair(PySlice(line, d + 3, -1), PySlice(line, 0, d)))
  }

  /** The text before the first " -" holds no " -". */
  lemma NoDashBeforeFirst(line: string)
    requires HasDash(line)
    ensures !HasDash(line[..FirstIndex(line, Dash)])
  {
    var d := FirstIndex(line, Dash);
    if HasDash(line[..d]) {
      var q :| 0 <= q <= d - |Dash| && ContainsAt(line[..d], Dash, q);
      assert line[..d][q..q + |Dash|] == line[q..q + |Dash|];
      assert ContainsAt(line, Dash, q);
      assert false;
    }
  }

  /** On a normal page the line is the common name, the dash, one character, the scientific name and one last character. */
  lemma SplitNameLineRebuilds(line: string)
    requires HasDash(line) && FirstIndex(line, Dash) + 3 < |line|
    ensures var p := SplitNameLine(line, false).value; var d := FirstIndex(line, Dash);
      line == p.common + Dash + [line[d + 2]] + p.name + [line[|line| - 1]] && !HasDash(p.common)
  {
    var d := FirstIndex(line, Dash);
    var p := SplitNameLine(line, false).value;
    assert p.common == line[..d] && p.name == line[d + 3..|line| - 1];
    assert line[d..d + 2] == Dash;
    assert line == line[..d] + line[d..d + 2] + [line[d + 2]] + line[d + 3..|line| - 1] + [line[|line| - 1]];
    NoDashBeforeFirst(line);
  }

  const FirstPage := 775

  /** The pages whose common names are written right to left (Arabic and Hebrew scripts). */
  predicate RightToLeft(i: int)
  {
    1283 <= i < 1289 || 1309 <= i < 1313
  }

  /** The pairs of the lines of one page, in line order. */
  function PagePairs(lines: seq<string>, rtl: bool): seq<NamePair>
  {
    if |lines| == 0 then []
    else
      var n := |lines| - 1;
      var s := SplitNameLine(lines[n], rtl);
      PagePairs(lines[..n], rtl) + (if s.Some? then [s.value] else [])
  }

  /** Every pair comes from a line of the page that splits into it. */
  lemma {:induction false} PagePairsOrigin(lines: seq<string>, rtl: bool, j: nat)
    requires j < |PagePairs(lines, rtl)|
    ensures exists k :: 0 <= k < |lines| && SplitNameLine(lines[k], rtl) == Some(PagePairs(lines, rtl)[j])
  {
    var n := |lines| - 1;
    if j < |PagePairs(lines[..n], rtl)| {
      PagePairsOrigin(lines[..n], rtl, j);
      var k :| 0 <= k < n && SplitNameLine(lines[..n][k], rtl) == Some(PagePairs(lines[..n], rtl)[j]);
      assert lines[..n][k] == lines[k];
    } else {
      assert SplitNameLine(lines[n], rtl) == Some(PagePairs(lines, rtl)[j]);
    }
  }

  /** The compressed lines of a page's text. */
  function PageLines(page: string): seq<string>
  {
    Compressed(SplitOn(page, '\n'), HasDash, NoDash)
  }

  /** The pairs of pages 775..n-1, page by page. */
  function PairsUpTo(pages: seq<string>, n: nat): seq<NamePair>
    requires n <= |pages|
  {
    if n <= FirstPage then []
    else PairsUpTo(pages, n - 1) + PagePairs(PageLines(pages[n - 1]), RightToLeft(n - 1))
  }

  /** The inner loop over one page's lines. */
  method SplitPageLines(lines: seq<string>, rtl: bool) returns (pairs: seq<NamePair>)
    ensures pairs == PagePairs(lines, rtl)
  {
    pairs := [];
    var k := 0;
    while k < |lines|
      invariant k <= |lines| && pairs == PagePairs(lines[..k], rtl)
    {
      assert lines[..k + 1][..k] == lines[..k];
      var s := SplitNameLine(lines[k], rtl);
      if s.Some? {
        pairs := pairs + [s.value];
      }
      k := k + 1;
    }
    assert lines[..k] == lines;
  }

  /** The page loop of `common_names_from_wiersema` and `common_names_from_index`. */
  method CollectNamePairs(pages: seq<string>) returns (pairs: seq<NamePair>)
    ensures pairs == PairsUpTo(pages, |pages|)
  {
    pairs := [];
    var i := if |pages| < FirstPage then |pages| else FirstPage;
    while i < |pages|
      invariant i <= |pages| && pairs == PairsUpTo(pages, i)
    {
      var found := PagePairsOf(pages[i], RightToLeft(i));
      pairs := pairs + found;
      i := i + 1;
    }
  }

  /** One page of the page loop: compress its lines, then split each. */
  method PagePairsOf(page: string, rtl: bool) returns (found: seq<NamePair>)
    ensures found == PagePairs(PageLines(page), rtl)
  {
    var lines := CompressLinesIntoNames(SplitOn(page, '\n'));
    found := SplitPageLines(lines, rtl);
  }

  // ---- the output table ----

  function NameOf(p: NamePair): string { p.name }

  /** The common names listed with a scientific name, in row order. */
  function CommonNamesOf(pairs: seq<NamePair>, name: string): seq<string>
  {
    if |pairs| == 0 then []
    else
      var n := |pairs| - 1;
      CommonNamesOf(pairs[..n], name) + (if pairs[n].name == name then [pairs[n].common] else [])
  }

  /** A common name is listed with a scientific name exactly when some row pairs them. */
  lemma {:induction false} CommonNamesOfMembers(pairs: seq<NamePair>, name: string, c: string)
    ensures c in CommonNamesOf(pairs, name) <==> NamePair(name, c) in pairs
  {
    if |pairs| > 0 {
      var n := |pairs| - 1;
      CommonNamesOfMembers(pairs[..n], name, c);
      assert pairs == pairs[..n] + [pairs[n]];
    }
  }

  const WepColumns: seq<string> := ["name", "WEP_snippet", "Source"]

  function WepRow(pairs: seq<NamePair>, p: NamePair): seq<Cell>
  {
    [Some(p.name), Some(Join(":", CommonNamesOf(pairs, p.name))), Some(WepSource)]
  }

  /**
   * The groupby-transform, `dropna` and `drop_duplicates` steps: one row per
   * distinct scientific name in order of first appearance, with its common
   * names joined by ':'.  (The names are never missing, so `dropna` removes
   * nothing.)
   */
  function WepTable(pairs: seq<NamePair>): (rows: seq<seq<Cell>>)
    ensures |rows| <= |pairs|
  {
    var d := DistinctBy(pairs, NameOf);
    seq(|d|, r requires 0 <= r < |d| => WepRow(pairs, d[r]))
  }

  /** Each scientific name has exactly one row, and that row holds all its common names. */
  lemma WepTableRows(pairs: seq<NamePair>, i: nat)
    requires i < |pairs|
    ensures exists r :: 0 <= r < |WepTable(pairs)| && WepTable(pairs)[r][0] == Some(pairs[i].name)
    ensures forall r :: 0 <= r < |WepTable(pairs)| && WepTable(pairs)[r][0] == Some(pairs[i].name) ==>
      WepTable(pairs)[r][1] == Some(Join(":", CommonNamesOf(pairs, pairs[i].name)))
  {
    var d := DistinctBy(pairs, NameOf);
    var t := WepTable(pairs);
    DistinctByCovers(pairs, NameOf, i);
    var j :| 0 <= j < |d| && NameOf(d[j]) == NameOf(pairs[i]);
    assert t[j] == WepRow(pairs, d[j]);
    forall r | 0 <= r < |t| && t[r][0] == Some(pairs[i].name)
      ensures t[r][1] == Some(Join(":", CommonNamesOf(pairs, pairs[i].name)))
    {
      assert t[r] == WepRow(pairs, d[r]);
    }
  }

  /** No two rows share a scientific name. */
  lemma WepTableDistinct(pairs: seq<NamePair>, r1: nat, r2: nat)
    requires r1 < r2 < |WepTable(pairs)|
    ensures WepTable(pairs)[r1][0] != WepTable(pairs)[r2][0]
  {
    var d := DistinctBy(pairs, NameOf);
    assert NameOf(d[r1]) != NameOf(d[r2]);
  }

  /**
   * `common_names_from_wiersema` and `common_names_from_index` on the page
   * texts, up to the accepted-name lookup of the latter.
   */
  method CommonNamesTable(pages: seq<string>) returns (rows: seq<seq<Cell>>)
    ensures rows == WepTable(PairsUpTo(pages, |pages|))
  {
    var pairs := CollectNamePairs(pages);
    rows := WepTable(pairs);
  }
}
