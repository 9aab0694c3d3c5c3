/**
 * The source summary of a compiled-hits table
 * (data_compilation_methods/source_breakdown.py): after the duplicate check
 * and the rank and family filters, every source of every row is counted,
 * single-source rows are also counted as unique hits, sources are merged
 * into named groups by substring, and zero counts are dropped.  Reading the
 * CSV, parsing each 'Compiled_Sources' literal, writing the tables and
 * plotting are left out: the rows arrive with their source lists parsed.
 */
module SourceBreakdown {
  import opened Base
  import opened Strs
  import opened Dicts

  /** A row of the hits table: Accepted_ID, rank, family and its list of sources. */
  datatype HitRow = HitRow(accId: Cell, rank: Cell, family: Cell, sources: seq<string>)

  function AccId(r: HitRow): Cell { r.accId }

  /** `duplicated(subset=Accepted_ID)` flags some row; two missing IDs count as equal. */
  predicate HasDuplicateIds(rows: seq<HitRow>)
  {
    exists i, j :: 0 <= i < j < |rows| && rows[i].accId == rows[j].accId
  }

  /** `isin(values)` when a list is given: a missing cell is in no list. */
  function IsIn(values: Option<seq<string>>, c: Cell): bool
  {
    values.None? || (c.Some? && c.value in values.value)
  }

  function RankIn(ranks: Option<seq<string>>): HitRow -> bool
  {
    (r: HitRow) => IsIn(ranks, r.rank)
  }

  function FamilyIn(families: Option<seq<string>>): HitRow -> bool
  {
    (r: HitRow) => IsIn(families, r.family)
  }

  /** The rows counted: first per Accepted_ID, then those of the given ranks, then of the given families. */
  function SelectedRows(rows: seq<HitRow>, families: Option<seq<string>>, ranks: Option<seq<string>>): seq<HitRow>
  {
    Filter(Filter(DistinctBy(rows, AccId), RankIn(ranks)), FamilyIn(families))
  }

  function SourceLists(rows: seq<HitRow>): (r: seq<seq<string>>)
    ensures |r| == |rows| && forall i :: 0 <= i < |rows| ==> r[i] == rows[i].sources
  {
    seq(|rows|, i requires 0 <= i < |rows| => rows[i].sources)
  }

  // ---- counting ----

  /** Both dictionaries start with 'Total' set to the number of rows. */
  function Totals(n: nat): (d: Dict)
    ensures Valid(d)
  {
    Dict(["Total"], map["Total" := n])
  }

  /** The first j sources of a row counted into c. */
  function AddSources(c: Dict, srcs: seq<string>, j: nat): Dict
    requires j <= |srcs|
  {
    if j == 0 then c else Incr(AddSources(c, srcs, j - 1), srcs[j - 1])
  }

  /** A row with a single source counts once more for that source as a unique hit. */
  function AddUnique(u: Dict, srcs: seq<string>): Dict
  {
    if |srcs| == 1 then Incr(u, srcs[0]) else u
  }

  /** The two dictionaries after counting the first n rows. */
  function Tally(rows: seq<seq<string>>, n: nat): (Dict, Dict)
    requires n <= |rows|
  {
    if n == 0 then (Totals(|rows|), Totals(|rows|))
    else
      var cu := Tally(rows, n - 1);
      (AddSources(cu.0, rows[n - 1], |rows[n - 1]|), AddUnique(cu.1, rows[n - 1]))
  }

  /** How often s is listed in the first n rows. */
  function CountIn(rows: seq<seq<string>>, n: nat, s: string): nat
    requires n <= |rows|
  {
    if n == 0 then 0 else CountIn(rows, n - 1, s) + Count(rows[n - 1], s)
  }

  /** How many of the first n rows list s as their only source. */
  function UniqueIn(rows: seq<seq<string>>, n: nat, s: string): nat
    requires n <= |rows|
  {
    if n == 0 then 0 else UniqueIn(rows, n - 1, s) + (if rows[n - 1] == [s] then 1 else 0)
  }

  lemma {:induction false} AddSourcesValid(c: Dict, srcs: seq<string>, j: nat)
    requires Valid(c) && j <= |srcs|
    ensures Valid(AddSources(c, srcs, j))
    ensures forall x :: x in c.vals ==> x in AddSources(c, srcs, j).vals
  {
    if j > 0 {
      AddSourcesValid(c, srcs, j - 1);
    }
  }

  lemma {:induction false} AddSourcesGet(c: Dict, srcs: seq<string>, j: nat, x: string)
    requires j <= |srcs|
    ensures Get(AddSources(c, srcs, j), x) == Get(c, x) + Count(srcs[..j], x)
  {
    if j > 0 {
      AddSourcesGet(c, srcs, j - 1, x);
      assert srcs[..j][..j - 1] == srcs[..j - 1];
    }
  }

  lemma {:induction false} TallyValid(rows: seq<seq<string>>, n: nat)
    requires n <= |rows|
    ensures Valid(Tally(rows, n).0) && Valid(Tally(rows, n).1)
    ensures "Total" in Tally(rows, n).0.vals && "Total" in Tally(rows, n).1.vals
  {
    if n > 0 {
      TallyValid(rows, n - 1);
      AddSourcesValid(Tally(rows, n - 1).0, rows[n - 1], |rows[n - 1]|);
    }
  }

  /**
   * Each source counts once per listing, and once per single-source row as
   * a unique hit; 'Total' starts at the row count (a source named 'Total'
   * would add to it).
   */
  lemma {:induction false} TallyMeaning(rows: seq<seq<string>>, n: nat, x: string)
    requires n <= |rows|
    ensures Get(Tally(rows, n).0, x) == (if x == "Total" then |rows| else 0) + CountIn(rows, n, x)
    ensures Get(Tally(rows, n).1, x) == (if x == "Total" then |rows| else 0) + UniqueIn(rows, n, x)
  {
    if n > 0 {
      TallyMeaning(rows, n - 1, x);
      AddSourcesGet(Tally(rows, n - 1).0, rows[n - 1], |rows[n - 1]|, x);
      assert rows[n - 1][..|rows[n - 1]|] == rows[n - 1];
      if |rows[n - 1]| == 1 {
        assert rows[n - 1] == [x] <==> x == rows[n - 1][0];
      }
    }
  }

  /** A source is never a unique hit more often than it is listed. */
  lemma {:induction false} UniqueAtMostCount(rows: seq<seq<string>>, n: nat, s: string)
    requires n <= |rows|
    ensures UniqueIn(rows, n, s) <= CountIn(rows, n, s)
  {
    if n > 0 {
      UniqueAtMostCount(rows, n - 1, s);
      if rows[n - 1] == [s] {
        assert rows[n - 1][..0] == [];
      }
    }
  }

  /** The inner loop over one row's sources. */
  method CountRow(c: Dict, srcs: seq<string>) returns (c': Dict)
    ensures c' == AddSources(c, srcs, |srcs|)
  {
    c' := c;
    var j := 0;
    while j < |srcs|
      invariant j <= |srcs| && c' == AddSources(c, srcs, j)
    {
      c' := Incr(c', srcs[j]);
      j := j + 1;
    }
  }

  /** One row of the counting loop: its sources, and its unique hit when it has a single source. */
  method AddRowSources(c: Dict, u: Dict, srcs: seq<string>) returns (c': Dict, u': Dict)
    ensures c' == AddSources(c, srcs, |srcs|) && u' == AddUnique(u, srcs)
  {
    c' := CountRow(c, srcs);
    u' := u;
    if |srcs| == 1 {
      u' := Incr(u, srcs[0]);
    }
  }

  /** The counting loop over the rows' source lists. */
  method CountSources(rows: seq<seq<string>>) returns (c: Dict, u: Dict)
    ensures (c, u) == Tally(rows, |rows|)
  {
    c, u := Totals(|rows|), Totals(|rows|);
    var i := 0;
    while i < |rows|
      invariant i <= |rows| && (c, u) == Tally(rows, i)
    {
      c, u := AddRowSources(c, u, rows[i]);
      i := i + 1;
    }
  }

  // ---- translations ----

  /** The translation dictionary in order: each target name with the substring whose sources it gathers. */
  type Translations = seq<(string, string)>

  predicate IsTarget(x: string, t: Translations)
  {
    exists j :: 0 <= j < |t| && t[j].0 == x
  }

  /** Some pattern occurs in the key. */
  predicate Matched(k: string, t: Translations)
  {
    exists j :: 0 <= j < |t| && Contains(k, t[j].1)
  }

  predicate TargetsPresent(d: Dict, t: Translations)
  {
    forall j :: 0 <= j < |t| ==> t[j].0 in d.vals
  }

  /** The first j targets set to 0. */
  function Reset(d: Dict, t: Translations, j: nat): Dict
    requires j <= |t|
  {
    if j == 0 then d else Put(Reset(d, t, j - 1), t[j - 1].0, 0)
  }

  /** The inner loop for one key over the first j translations: each matching target gains the key's current count. */
  function Route(d: Dict, key: string, t: Translations, j: nat): Dict
    requires j <= |t|
  {
    if j == 0 then d
    else
      var e := Route(d, key, t, j - 1);
      if Contains(key, t[j - 1].1) then Put(e, t[j - 1].0, Get(e, t[j - 1].0) + Get(e, key)) else e
  }

  /** The outer loop over the first i keys. */
  function RouteKeys(d: Dict, ks: seq<string>, i: nat, t: Translations): Dict
    requires i <= |ks|
  {
    if i == 0 then d else Route(RouteKeys(d, ks, i - 1, t), ks[i - 1], t, |t|)
  }

  /** `keys_to_remove` after visiting the first i keys: each matched key once, in order of visit. */
  function Collect(l: seq<string>, ks: seq<string>, i: nat, t: Translations): seq<string>
    requires i <= |ks|
  {
    if i == 0 then l
    else
      var m := Collect(l, ks, i - 1, t);
      if Matched(ks[i - 1], t) && ks[i - 1] !in m then m + [ks[i - 1]] else m
  }

  /** Lines 58-82: reset the targets, add up the matched keys' counts into them, then delete the matched keys. */
  function Translate(c: Dict, u: Dict, t: Translations): (Dict, Dict)
  {
    var c1 := Reset(c, t, |t|);
    var u1 := Reset(u, t, |t|);
    var c2 := RouteKeys(c1, c1.keys, |c1.keys|, t);
    var u2 := RouteKeys(u1, u1.keys, |u1.keys|, t);
    var l := Collect(Collect([], c1.keys, |c1.keys|, t), u1.keys, |u1.keys|, t);
    (RemoveAll(c2, l, |l|), RemoveAll(u2, l, |l|))
  }

  /** The sum of the counts of the first i keys that contain p. */
  function SumMatching(d: Dict, ks: seq<string>, i: nat, p: string): int
    requires i <= |ks|
  {
    if i == 0 then 0 else SumMatching(d, ks, i - 1, p) + (if Contains(ks[i - 1], p) then Get(d, ks[i - 1]) else 0)
  }

  lemma {:induction false} ResetValid(d: Dict, t: Translations, j: nat)
    requires Valid(d) && j <= |t|
    ensures Valid(Reset(d, t, j))
    ensures forall x :: x in d.vals ==> x in Reset(d, t, j).vals
  {
    if j > 0 {
      ResetValid(d, t, j - 1);
    }
  }

  lemma {:induction false} ResetTargets(d: Dict, t: Translations, j: nat)
    requires j <= |t|
    ensures forall k :: 0 <= k < j ==> t[k].0 in Reset(d, t, j).vals && Reset(d, t, j).vals[t[k].0] == 0
  {
    if j > 0 {
      ResetTargets(d, t, j - 1);
    }
  }

  lemma {:induction false} ResetOther(d: Dict, t: Translations, j: nat, x: string)
    requires j <= |t| && !IsTarget(x, t)
    ensures Get(Reset(d, t, j), x) == Get(d, x) && (x in Reset(d, t, j).vals <==> x in d.vals)
  {
    if j > 0 {
      ResetOther(d, t, j - 1, x);
      assert t[j - 1].0 != x;
    }
  }

  /** Routing a key adds no key once the targets are present. */
  lemma {:induction false} RouteKeysKept(e: Dict, key: string, t: Translations, m: nat)
    requires m <= |t| && TargetsPresent(e, t)
    ensures Route(e, key, t, m).keys == e.keys && Route(e, key, t, m).vals.Keys == e.vals.Keys
  {
    if m > 0 {
      RouteKeysKept(e, key, t, m - 1);
    }
  }

  /** Routing a key only changes the targets' counts. */
  lemma {:induction false} RouteOther(e: Dict, key: string, t: Translations, m: nat, x: string)
    requires m <= |t| && !IsTarget(x, t)
    ensures Get(Route(e, key, t, m), x) == Get(e, x)
  {
    if m > 0 {
      RouteOther(e, key, t, m - 1, x);
      assert t[m - 1].0 != x;
    }
  }

  lemma {:induction false} RouteKeysFrame(d: Dict, ks: seq<string>, i: nat, t: Translations)
    requires i <= |ks| && TargetsPresent(d, t)
    ensures RouteKeys(d, ks, i, t).keys == d.keys && RouteKeys(d, ks, i, t).vals.Keys == d.vals.Keys
  {
    if i > 0 {
      RouteKeysFrame(d, ks, i - 1, t);
      RouteKeysKept(RouteKeys(d, ks, i - 1, t), ks[i - 1], t, |t|);
    }
  }

  lemma {:induction false} RouteKeysOther(d: Dict, ks: seq<string>, i: nat, t: Translations, x: string)
    requires i <= |ks| && !IsTarget(x, t)
    ensures Get(RouteKeys(d, ks, i, t), x) == Get(d, x)
  {
    if i > 0 {
      RouteKeysOther(d, ks, i - 1, t, x);
      RouteOther(RouteKeys(d, ks, i - 1, t), ks[i - 1], t, |t|, x);
    }
  }

  lemma {:induction false} RouteUnmatched(e: Dict, key: string, t: Translations, m: nat)
    requires m <= |t| && !Matched(key, t)
    ensures Route(e, key, t, m) == e
  {
    if m > 0 {
      RouteUnmatched(e, key, t, m - 1);
    }
  }

  predicate DistinctTargets(t: Translations)
  {
    forall j, k :: 0 <= j < k < |t| ==> t[j].0 != t[k].0
  }

  /** No target name contains a pattern, so no target feeds another (true of 'Wiki'/'_wiki' and 'POWO'/'POWO pages'). */
  predicate NoTargetMatched(t: Translations)
  {
    forall j, k :: 0 <= j < |t| && 0 <= k < |t| ==> !Contains(t[j].0, t[k].1)
  }

  lemma {:induction false} RouteTarget(e: Dict, key: string, t: Translations, m: nat, j: nat)
    requires m <= |t| && j < |t| && DistinctTargets(t) && !IsTarget(key, t)
    ensures Get(Route(e, key, t, m), t[j].0) == Get(e, t[j].0) + (if j < m && Contains(key, t[j].1) then Get(e, key) else 0)
  {
    if m > 0 {
      RouteTarget(e, key, t, m - 1, j);
      RouteOther(e, key, t, m - 1, key);
      if j != m - 1 {
        assert t[j].0 != t[m - 1].0;
      }
    }
  }

  /** After the outer loop each target holds its start value plus the counts of the keys containing its pattern. */
  lemma {:induction false} RouteKeysSums(d: Dict, ks: seq<string>, i: nat, t: Translations, j: nat)
    requires i <= |ks| && j < |t| && DistinctTargets(t) && NoTargetMatched(t)
    ensures Get(RouteKeys(d, ks, i, t), t[j].0) == Get(d, t[j].0) + SumMatching(d, ks, i, t[j].1)
  {
    if i > 0 {
      var e := RouteKeys(d, ks, i - 1, t);
      var key := ks[i - 1];
      RouteKeysSums(d, ks, i - 1, t, j);
      if IsTarget(key, t) {
        var k :| 0 <= k < |t| && t[k].0 == key;
        assert !Contains(t[k].0, t[j].1);
        assert !Matched(key, t) by {
          forall k' | 0 <= k' < |t| ensures !Contains(key, t[k'].1) {
            assert !Contains(t[k].0, t[k'].1);
          }
        }
        RouteUnmatched(e, key, t, |t|);
      } else {
        RouteTarget(e, key, t, |t|, j);
        RouteKeysOther(d, ks, i - 1, t, key);
      }
    }
  }

  /** The matched keys' counts are the same before and after the reset, since no target is matched. */
  lemma {:induction false} SumUnchangedByReset(d: Dict, t: Translations, ks: seq<string>, i: nat, k: nat)
    requires i <= |ks| && k < |t| && NoTargetMatched(t)
    ensures SumMatching(Reset(d, t, |t|), ks, i, t[k].1) == SumMatching(d, ks, i, t[k].1)
  {
    if i > 0 {
      SumUnchangedByReset(d, t, ks, i - 1, k);
      var key := ks[i - 1];
      if Contains(key, t[k].1) {
        assert !IsTarget(key, t);
        ResetOther(d, t, |t|, key);
      }
    }
  }

  lemma {:induction false} CollectMembers(l: seq<string>, ks: seq<string>, i: nat, t: Translations)
    requires i <= |ks|
    ensures forall x :: x in Collect(l, ks, i, t) <==> x in l || (x in ks[..i] && Matched(x, t))
  {
    if i > 0 {
      CollectMembers(l, ks, i - 1, t);
      assert ks[..i] == ks[..i - 1] + [ks[i - 1]];
    }
  }

  /** The dictionary after resetting and routing: valid, with the same keys as after the reset. */
  lemma Routed(d: Dict, t: Translations)
    requires Valid(d)
    ensures var d1 := Reset(d, t, |t|); var d2 := RouteKeys(d1, d1.keys, |d1.keys|, t);
      Valid(d1) && Valid(d2) && d2.vals.Keys == d1.vals.Keys
  {
    var d1 := Reset(d, t, |t|);
    ResetValid(d, t, |t|);
    ResetTargets(d, t, |t|);
    RouteKeysFrame(d1, d1.keys, |d1.keys|, t);
  }

  /** A key that matches no pattern and is no target keeps its entry through the translation. */
  lemma TranslateOther(d: Dict, t: Translations, l: seq<string>, x: string)
    requires Valid(d) && (forall y :: y in l ==> Matched(y, t)) && !Matched(x, t) && !IsTarget(x, t)
    ensures var d1 := Reset(d, t, |t|); var r := RemoveAll(RouteKeys(d1, d1.keys, |d1.keys|, t), l, |l|);
      (x in r.vals <==> x in d.vals) && Get(r, x) == Get(d, x)
  {
    var d1 := Reset(d, t, |t|);
    var d2 := RouteKeys(d1, d1.keys, |d1.keys|, t);
    Routed(d, t);
    ResetOther(d, t, |t|, x);
    RouteKeysOther(d1, d1.keys, |d1.keys|, t, x);
    RemoveAllMeaning(d2, l, |l|);
    assert l[..|l|] == l;
  }

  /** A key that matches a pattern is gone after the translation. */
  lemma TranslateMatched(d: Dict, t: Translations, l: seq<string>, x: string)
    requires Valid(d) && (forall y :: y in Reset(d, t, |t|).keys && Matched(y, t) ==> y in l) && Matched(x, t)
    ensures var d1 := Reset(d, t, |t|); x !in RemoveAll(RouteKeys(d1, d1.keys, |d1.keys|, t), l, |l|).vals
  {
    var d1 := Reset(d, t, |t|);
    var d2 := RouteKeys(d1, d1.keys, |d1.keys|, t);
    Routed(d, t);
    RemoveAllMeaning(d2, l, |l|);
    assert l[..|l|] == l;
  }

  /** With distinct targets containing no pattern, each target ends with the sum over the keys containing its pattern. */
  lemma TranslateTarget(d: Dict, t: Translations, l: seq<string>, j: nat)
    requires Valid(d) && (forall y :: y in l ==> Matched(y, t)) && j < |t| && DistinctTargets(t) && NoTargetMatched(t)
    ensures var d1 := Reset(d, t, |t|); var r := RemoveAll(RouteKeys(d1, d1.keys, |d1.keys|, t), l, |l|);
      t[j].0 in r.vals && Get(r, t[j].0) == SumMatching(d, d1.keys, |d1.keys|, t[j].1)
  {
    var d1 := Reset(d, t, |t|);
    var d2 := RouteKeys(d1, d1.keys, |d1.keys|, t);
    Routed(d, t);
    ResetTargets(d, t, |t|);
    RouteKeysSums(d1, d1.keys, |d1.keys|, t, j);
    SumUnchangedByReset(d, t, d1.keys, |d1.keys|, j);
    RemoveAllMeaning(d2, l, |l|);
    assert l[..|l|] == l;
    assert !Matched(t[j].0, t) by {
      forall k | 0 <= k < |t| ensures !Contains(t[j].0, t[k].1) {
      }
    }
  }

  /** The keys collected for deletion are the matched keys of either dictionary. */
  lemma CollectedKeys(c: Dict, u: Dict, t: Translations)
    ensures var c1 := Reset(c, t, |t|); var u1 := Reset(u, t, |t|);
      var l := Collect(Collect([], c1.keys, |c1.keys|, t), u1.keys, |u1.keys|, t);
      (forall y :: y in l ==> Matched(y, t))
      && (forall y :: y in c1.keys && Matched(y, t) ==> y in l)
      && (forall y :: y in u1.keys && Matched(y, t) ==> y in l)
  {
    var c1 := Reset(c, t, |t|);
    var u1 := Reset(u, t, |t|);
    var l0 := Collect([], c1.keys, |c1.keys|, t);
    CollectMembers([], c1.keys, |c1.keys|, t);
    CollectMembers(l0, u1.keys, |u1.keys|, t);
    assert c1.keys[..|c1.keys|] == c1.keys && u1.keys[..|u1.keys|] == u1.keys;
  }

  /**
   * The translation deletes every key containing a pattern and keeps every
   * other non-target key with its count; with distinct targets containing
   * no pattern, each target counts the sum over the keys containing its
   * pattern.
   */
  lemma TranslationSums(c: Dict, u: Dict, t: Translations)
    requires Valid(c) && Valid(u)
    ensures var r := Translate(c, u, t);
      (forall x :: Matched(x, t) ==> x !in r.0.vals && x !in r.1.vals)
      && (forall x :: !Matched(x, t) && !IsTarget(x, t) ==>
        (x in r.0.vals <==> x in c.vals) && Get(r.0, x) == Get(c, x) && (x in r.1.vals <==> x in u.vals) && Get(r.1, x) == Get(u, x))
    ensures DistinctTargets(t) && NoTargetMatched(t) ==>
      var c1 := Reset(c, t, |t|); var u1 := Reset(u, t, |t|); var r := Translate(c, u, t);
      forall j :: 0 <= j < |t| ==>
        t[j].0 in r.0.vals && Get(r.0, t[j].0) == SumMatching(c, c1.keys, |c1.keys|, t[j].1)
        && t[j].0 in r.1.vals && Get(r.1, t[j].0) == SumMatching(u, u1.keys, |u1.keys|, t[j].1)
  {
    var c1 := Reset(c, t, |t|);
    var u1 := Reset(u, t, |t|);
    var l := Collect(Collect([], c1.keys, |c1.keys|, t), u1.keys, |u1.keys|, t);
    CollectedKeys(c, u, t);
    forall x | Matched(x, t) ensures x !in Translate(c, u, t).0.vals && x !in Translate(c, u, t).1.vals {
      TranslateMatched(c, t, l, x);
      TranslateMatched(u, t, l, x);
    }
    forall x | !Matched(x, t) && !IsTarget(x, t)
      ensures (x in Translate(c, u, t).0.vals <==> x in c.vals) && Get(Translate(c, u, t).0, x) == Get(c, x)
      ensures (x in Translate(c, u, t).1.vals <==> x in u.vals) && Get(Translate(c, u, t).1, x) == Get(u, x)
    {
      TranslateOther(c, t, l, x);
      TranslateOther(u, t, l, x);
    }
    if DistinctTargets(t) && NoTargetMatched(t) {
      forall j | 0 <= j < |t|
        ensures t[j].0 in Translate(c, u, t).0.vals && Get(Translate(c, u, t).0, t[j].0) == SumMatching(c, c1.keys, |c1.keys|, t[j].1)
        ensures t[j].0 in Translate(c, u, t).1.vals && Get(Translate(c, u, t).1, t[j].0) == SumMatching(u, u1.keys, |u1.keys|, t[j].1)
      {
        TranslateTarget(c, t, l, j);
        TranslateTarget(u, t, l, j);
      }
    }
  }

  lemma TranslateValid(c: Dict, u: Dict, t: Translations)
    requires Valid(c) && Valid(u)
    ensures Valid(Translate(c, u, t).0) && Valid(Translate(c, u, t).1)
  {
    var c1 := Reset(c, t, |t|);
    var u1 := Reset(u, t, |t|);
    var l := Collect(Collect([], c1.keys, |c1.keys|, t), u1.keys, |u1.keys|, t);
    Routed(c, t);
    Routed(u, t);
    RemoveAllMeaning(RouteKeys(c1, c1.keys, |c1.keys|, t), l, |l|);
    RemoveAllMeaning(RouteKeys(u1, u1.keys, |u1.keys|, t), l, |l|);
  }

  /** The inner loop of lines 65-69 for one key: route its count and tell whether some pattern matched. */
  method RouteKey(d: Dict, key: string, t: Translations) returns (e: Dict, found: bool)
    ensures e == Route(d, key, t, |t|) && found == Matched(key, t)
  {
    e, found := d, false;
    var j := 0;
    while j < |t|
      invariant j <= |t| && e == Route(d, key, t, j)
      invariant found <==> exists k :: 0 <= k < j && Contains(key, t[k].1)
    {
      if Contains(key, t[j].1) {
        e := Put(e, t[j].0, Get(e, t[j].0) + Get(e, key));
        found := true;
      }
      j := j + 1;
    }
  }

  /** Lines 64-69 (and 71-76) for one dictionary: route every key in order, listing the matched keys not yet listed. */
  method RouteAllKeys(d: Dict, t: Translations, l: seq<string>) returns (e: Dict, l': seq<string>)
    ensures e == RouteKeys(d, d.keys, |d.keys|, t) && l' == Collect(l, d.keys, |d.keys|, t)
  {
    e, l' := d, l;
    var ks := d.keys;
    var i := 0;
    while i < |ks|
      invariant i <= |ks| && e == RouteKeys(d, ks, i, t) && l' == Collect(l, ks, i, t)
    {
      var found;
      e, found := RouteKey(e, ks[i], t);
      if found && ks[i] !in l' {
        l' := l' + [ks[i]];
      }
      i := i + 1;
    }
  }

  /** Lines 59-61: every target set to 0 in both dictionaries. */
  method ResetCounts(c: Dict, u: Dict, t: Translations) returns (c': Dict, u': Dict)
    ensures c' == Reset(c, t, |t|) && u' == Reset(u, t, |t|)
  {
    c', u' := c, u;
    var j := 0;
    while j < |t|
      invariant j <= |t| && c' == Reset(c, t, j) && u' == Reset(u, t, j)
    {
      c' := Put(c', t[j].0, 0);
      u' := Put(u', t[j].0, 0);
      j := j + 1;
    }
  }

  /** Lines 58-82: the translation of both dictionaries. */
  method TranslateCounts(c: Dict, u: Dict, t: Translations) returns (c': Dict, u': Dict)
    ensures (c', u') == Translate(c, u, t)
  {
    c', u' := ResetCounts(c, u, t);
    var l: seq<string>;
    c', l := RouteAllKeys(c', t, []);
    u', l := RouteAllKeys(u', t, l);
    c' := RemoveKeys(c', l);
    u' := RemoveKeys(u', l);
  }

  // ---- zero counts ----

  function IsZeroIn(d: Dict): string -> bool
  {
    (k: string) => Get(d, k) == 0
  }

  /** Lines 84-96 for one dictionary: collect the keys counting 0, then delete them. */
  function DropZeros(d: Dict): Dict
  {
    var zs := Filter(d.keys, IsZeroIn(d));
    RemoveAll(d, zs, |zs|)
  }

  /** Exactly the entries counting 0 are deleted; the rest keep their counts. */
  lemma DropZerosMeaning(d: Dict)
    requires Valid(d)
    ensures var r := DropZeros(d);
      Valid(r) && (forall k :: k in r.vals <==> k in d.vals && d.vals[k] != 0)
      && forall k :: k in r.vals ==> r.vals[k] == d.vals[k]
  {
    var zs := Filter(d.keys, IsZeroIn(d));
    RemoveAllMeaning(d, zs, |zs|);
    assert zs[..|zs|] == zs;
  }

  /** The collecting loop of lines 84-87 (and 91-94): the keys counting 0, in order. */
  method ZeroKeys(d: Dict) returns (zs: seq<string>)
    ensures zs == Filter(d.keys, IsZeroIn(d))
  {
    zs := [];
    var i := 0;
    while i < |d.keys|
      invariant i <= |d.keys| && zs == Filter(d.keys[..i], IsZeroIn(d))
    {
      assert d.keys[..i + 1][..i] == d.keys[..i];
      if Get(d, d.keys[i]) == 0 {
        zs := zs + [d.keys[i]];
      }
      i := i + 1;
    }
    assert d.keys[..i] == d.keys;
  }

  method DropZeroEntries(d: Dict) returns (r: Dict)
    ensures r == DropZeros(d)
  {
    var zs := ZeroKeys(d);
    r := RemoveKeys(d, zs);
  }

  // ---- the summary ----

  /** `output_summary_of_hit_csv` up to writing and plotting: the two dictionaries it returns. */
  function Summary(rows: seq<HitRow>, families: Option<seq<string>>, ranks: Option<seq<string>>,
                   translations: Option<Translations>, checkDuplicates: bool): Result<(Dict, Dict)>
  {
    if checkDuplicates && HasDuplicateIds(rows) then Err("ValueError")
    else
      var srcs := SourceLists(SelectedRows(rows, families, ranks));
      var cu := Tally(srcs, |srcs|);
      var tu := if translations.Some? then Translate(cu.0, cu.1, translations.value) else cu;
      Ok((DropZeros(tu.0), DropZeros(tu.1)))
  }

  /** `output_summary_of_hit_csv` up to writing the tables and plotting. */
  method OutputSummaryOfHitCsv(rows: seq<HitRow>, families: Option<seq<string>>, ranks: Option<seq<string>>,
                               translations: Option<Translations>, checkDuplicates: bool)
    returns (r: Result<(Dict, Dict)>)
    ensures r == Summary(rows, families, ranks, translations, checkDuplicates)
  {
    if HasDuplicateIds(rows) && checkDuplicates {
      return Err("ValueError");
    }
    var kept := SelectedRows(rows, families, ranks);
    var c, u := CountSources(SourceLists(kept));
    if translations.Some? {
      c, u := TranslateCounts(c, u, translations.value);
    }
    c := DropZeroEntries(c);
    u := DropZeroEntries(u);
    return Ok((c, u));
  }

  /** Duplicate Accepted_IDs raise exactly when check_duplicates is set; nothing else raises. */
  lemma SummaryRaises(rows: seq<HitRow>, families: Option<seq<string>>, ranks: Option<seq<string>>,
                      translations: Option<Translations>, checkDuplicates: bool)
    ensures Summary(rows, families, ranks, translations, checkDuplicates).Err? <==> checkDuplicates && HasDuplicateIds(rows)
  {
  }

  /** Dropping the zero entries changes no count. */
  lemma DropZerosGet(d: Dict, k: string)
    requires Valid(d)
    ensures Get(DropZeros(d), k) == Get(d, k)
  {
    DropZerosMeaning(d);
  }

  lemma {:induction false} CountInAbsent(rows: seq<seq<string>>, n: nat, s: string)
    requires n <= |rows| && forall i :: 0 <= i < n ==> s !in rows[i]
    ensures CountIn(rows, n, s) == 0 && UniqueIn(rows, n, s) == 0
  {
    if n > 0 {
      CountInAbsent(rows, n - 1, s);
      CountZero(rows[n - 1], s);
    }
  }

  /**
   * Both 'Total' entries equal the number of rows left after de-duplication
   * and the rank and family filters, when there is such a row, no source is
   * called 'Total' and no translation touches it.
   */
  lemma TotalIsRowCount(rows: seq<HitRow>, families: Option<seq<string>>, ranks: Option<seq<string>>,
                        translations: Option<Translations>, checkDuplicates: bool)
    requires Summary(rows, families, ranks, translations, checkDuplicates).Ok?
    requires var kept := SelectedRows(rows, families, ranks);
      |kept| > 0 && forall i :: 0 <= i < |kept| ==> "Total" !in kept[i].sources
    requires translations.Some? ==> !Matched("Total", translations.value) && !IsTarget("Total", translations.value)
    ensures var r := Summary(rows, families, ranks, translations, checkDuplicates).value;
      var n := |SelectedRows(rows, families, ranks)|;
      "Total" in r.0.vals && r.0.vals["Total"] == n && "Total" in r.1.vals && r.1.vals["Total"] == n
  {
    var srcs := SourceLists(SelectedRows(rows, families, ranks));
    var cu := Tally(srcs, |srcs|);
    TallyValid(srcs, |srcs|);
    TallyMeaning(srcs, |srcs|, "Total");
    CountInAbsent(srcs, |srcs|, "Total");
    var tu := if translations.Some? then Translate(cu.0, cu.1, translations.value) else cu;
    if translations.Some? {
      TranslationSums(cu.0, cu.1, translations.value);
      TranslateValid(cu.0, cu.1, translations.value);
    }
    DropZerosMeaning(tu.0);
    DropZerosMeaning(tu.1);
  }

  /**
   * Without translations, each source other than 'Total' counts its
   * listings, its unique count is its single-source rows, and so never
   * exceeds its count; an absent source reads 0.
   */
  lemma SourceCounts(rows: seq<HitRow>, families: Option<seq<string>>, ranks: Option<seq<string>>,
                     checkDuplicates: bool, s: string)
    requires Summary(rows, families, ranks, None, checkDuplicates).Ok? && s != "Total"
    ensures var r := Summary(rows, families, ranks, None, checkDuplicates).value;
      var srcs := SourceLists(SelectedRows(rows, families, ranks));
      Get(r.0, s) == CountIn(srcs, |srcs|, s) && Get(r.1, s) == UniqueIn(srcs, |srcs|, s) && Get(r.1, s) <= Get(r.0, s)
  {
    var srcs := SourceLists(SelectedRows(rows, families, ranks));
    var cu := Tally(srcs, |srcs|);
    TallyValid(srcs, |srcs|);
    TallyMeaning(srcs, |srcs|, s);
    UniqueAtMostCount(srcs, |srcs|, s);
    DropZerosGet(cu.0, s);
    DropZerosGet(cu.1, s);
  }

  /** No entry of either result counts 0. */
  lemma NoZeroEntries(rows: seq<HitRow>, families: Option<seq<string>>, ranks: Option<seq<string>>,
                      translations: Option<Translations>, checkDuplicates: bool)
    requires Summary(rows, families, ranks, translations, checkDuplicates).Ok?
    ensures var r := Summary(rows, families, ranks, translations, checkDuplicates).value;
      (forall k :: k in r.0.vals ==> r.0.vals[k] != 0) && forall k :: k in r.1.vals ==> r.1.vals[k] != 0
  {
    var srcs := SourceLists(SelectedRows(rows, families, ranks));
    var cu := Tally(srcs, |srcs|);
    TallyValid(srcs, |srcs|);
    var tu := if translations.Some? then Translate(cu.0, cu.1, translations.value) else cu;
    if translations.Some? {
      TranslateValid(cu.0, cu.1, translations.value);
    }
    DropZerosMeaning(tu.0);
    DropZerosMeaning(tu.1);
  }

  /**
   * With translations whose targets are distinct and contain no pattern,
   * no key containing a pattern is left, and each target's count is the sum
   * of the counts of the keys containing its pattern.
   */
  lemma SummaryTranslated(rows: seq<HitRow>, families: Option<seq<string>>, ranks: Option<seq<string>>,
                          t: Translations, checkDuplicates: bool, j: nat)
    requires Summary(rows, families, ranks, Some(t), checkDuplicates).Ok?
    requires j < |t| && DistinctTargets(t) && NoTargetMatched(t)
    ensures var r := Summary(rows, families, ranks, Some(t), checkDuplicates).value;
      var srcs := SourceLists(SelectedRows(rows, families, ranks));
      var cu := Tally(srcs, |srcs|);
      var c1 := Reset(cu.0, t, |t|); var u1 := Reset(cu.1, t, |t|);
      (forall x :: Matched(x, t) ==> x !in r.0.vals && x !in r.1.vals)
      && Get(r.0, t[j].0) == SumMatching(cu.0, c1.keys, |c1.keys|, t[j].1)
      && Get(r.1, t[j].0) == SumMatching(cu.1, u1.keys, |u1.keys|, t[j].1)
  {
    var srcs := SourceLists(SelectedRows(rows, families, ranks));
    var cu := Tally(srcs, |srcs|);
    TallyValid(srcs, |srcs|);
    var tu := Translate(cu.0, cu.1, t);
    TranslationSums(cu.0, cu.1, t);
    TranslateValid(cu.0, cu.1, t);
    DropZerosMeaning(tu.0);
    DropZerosMeaning(tu.1);
    DropZerosGet(tu.0, t[j].0);
    DropZerosGet(tu.1, t[j].0);
  }
}
