/**
 * Searching KNApSAcK (knapsack_search/knapsack_search.py, and the later
 * copy metabolite_searches/knapsack_search.py): URL forms of names, the
 * taxon-by-metabolite presence matrix built from the per-taxon searches,
 * the per-taxon hits against a compound list, and the 'ine' alkaloid rule.
 * The web searches are parameters: a taxon search returns the listed
 * metabolites or fails (None), as the request does on a timeout.
 */
module KnapsackSearch {
  import opened Base
  import opened Strs
  import opened Frames
  import opened MetaboliteProperties

  const KnapsackSource := "KNApSAcK"

  // ---- URL forms ----

  /** The taxon search's URL form of a name: spaces become '%20'. */
  function TaxonUrlName(name: string): (r: string)
    ensures ' ' !in r
  {
    ReplaceAllRemovesChar(name, ' ', "%20");
    ReplaceAll(name, " ", "%20")
  }

  /** The metabolite search's URL form: spaces become '%20', then '+' becomes 'plus'. */
  function MetaboliteUrlName(m: string): (r: string)
    ensures ' ' !in r && '+' !in r
  {
    var spaced := TaxonUrlName(m);
    ReplaceAllRemovesChar(spaced, '+', "plus");
    ReplaceAllKeepsOtherChar(spaced, '+', "plus", ' ');
    ReplaceAll(spaced, "+", "plus")
  }

  /** Characters other than those of ' +%20plus' are neither added nor lost. */
  lemma MetaboliteUrlNameKeepsChars(m: string, c: char)
    requires c !in " +%20plus"
    ensures c in MetaboliteUrlName(m) <==> c in m
  {
    ReplaceAllKeepsOtherChar(m, ' ', "%20", c);
    ReplaceAllKeepsOtherChar(TaxonUrlName(m), '+', "plus", c);
  }

  // ---- the presence matrix ----

  /** The table `get_metabolites_for_taxa` builds: one row per searched taxon, one column per metabolite. */
  datatype PresenceMatrix = PresenceMatrix(taxa: seq<string>, metabolites: seq<string>, presence: seq<seq<int>>)

  function Found(search: string -> Option<seq<string>>): string -> bool
  {
    (sp: string) => search(sp).Some?
  }

  function Failed(search: string -> Option<seq<string>>): string -> bool
  {
    (sp: string) => search(sp).None?
  }

  /** The taxa whose search succeeded, in input order, repeats included. */
  function Searched(taxa: seq<string>, search: string -> Option<seq<string>>): (r: seq<string>)
    ensures forall i :: 0 <= i < |r| ==> search(r[i]).Some?
  {
    Filter(taxa, Found(search))
  }

  /** The taxa whose search failed, in input order (`unchecked_taxa_due_to_timeout`). */
  function Unchecked(taxa: seq<string>, search: string -> Option<seq<string>>): seq<string>
  {
    Filter(taxa, Failed(search))
  }

  /** The metabolite lists of the successful searches, in order. */
  function Results(found: seq<string>, search: string -> Option<seq<string>>): seq<seq<string>>
    requires forall i :: 0 <= i < |found| ==> search(found[i]).Some?
  {
    seq(|found|, i requires 0 <= i < |found| => search(found[i]).value)
  }

  /** Every metabolite listed by a successful search, once, in order of first listing. */
  function AllMetabolites(taxa: seq<string>, search: string -> Option<seq<string>>): seq<string>
  {
    Dedup(Flatten(Results(Searched(taxa, search), search)))
  }

  /** 1 for each metabolite of `all` that `metas` lists, 0 for the others. */
  function PresenceRow(metas: seq<string>, all: seq<string>): (row: seq<int>)
    ensures |row| == |all|
    ensures forall j :: 0 <= j < |all| ==> (row[j] == 1 <==> all[j] in metas) && (row[j] == 0 <==> all[j] !in metas)
  {
    seq(|all|, j requires 0 <= j < |all| => if all[j] in metas then 1 else 0)
  }

  /** The matrix of the searches: each successful taxon once, in order of first success. */
  function Matrix(taxa: seq<string>, search: string -> Option<seq<string>>): PresenceMatrix
  {
    var keys := Dedup(Searched(taxa, search));
    var all := AllMetabolites(taxa, search);
    PresenceMatrix(keys, all, seq(|keys|, i requires 0 <= i < |keys| => PresenceRow(search(keys[i]).value, all)))
  }

  lemma SearchedStep(taxa: seq<string>, search: string -> Option<seq<string>>, i: nat)
    requires i < |taxa|
    ensures Searched(taxa[..i + 1], search) == Searched(taxa[..i], search) + (if search(taxa[i]).Some? then [taxa[i]] else [])
    ensures Unchecked(taxa[..i + 1], search) == Unchecked(taxa[..i], search) + (if search(taxa[i]).None? then [taxa[i]] else [])
  {
    assert taxa[..i + 1] == taxa[..i] + [taxa[i]];
    FilterAppend(taxa[..i], [taxa[i]], Found(search));
    FilterAppend(taxa[..i], [taxa[i]], Failed(search));
  }

  lemma FlattenResultsStep(found: seq<string>, sp: string, search: string -> Option<seq<string>>)
    requires forall i :: 0 <= i < |found| ==> search(found[i]).Some?
    requires search(sp).Some?
    ensures Flatten(Results(found + [sp], search)) == Flatten(Results(found, search)) + search(sp).value
  {
    var ss := Results(found + [sp], search);
    assert ss[..|found|] == Results(found, search);
  }

  lemma DedupStep(s: seq<string>, x: string)
    ensures Dedup(s + [x]) == if x in Dedup(s) then Dedup(s) else Dedup(s) + [x]
  {
    assert (s + [x])[..|s|] == s;
  }

  /** The inner loop: appends to `all` each metabolite of `metas` it does not hold yet. */
  method AppendUnseen(ghost seen: seq<string>, all: seq<string>, metas: seq<string>) returns (r: seq<string>)
    requires all == Dedup(seen)
    ensures r == Dedup(seen + metas)
  {
    r := all;
    var j := 0;
    assert seen + metas[..0] == seen;
    while j < |metas|
      invariant j <= |metas|
      invariant r == Dedup(seen + metas[..j])
    {
      DedupPrefixStep(seen, metas, j);
      if metas[j] !in r {
        r := r + [metas[j]];
      }
      j := j + 1;
    }
    assert metas[..j] == metas;
  }

  /** One more element of `metas` is appended exactly when it is new. */
  lemma DedupPrefixStep(seen: seq<string>, metas: seq<string>, j: nat)
    requires j < |metas|
    ensures var d := Dedup(seen + metas[..j]);
      Dedup(seen + metas[..j + 1]) == if metas[j] in d then d else d + [metas[j]]
  {
    assert seen + metas[..j + 1] == (seen + metas[..j]) + [metas[j]];
    DedupStep(seen + metas[..j], metas[j]);
  }

  /** The row of one taxon: the loop over the metabolites appending 1 or 0. */
  method BuildPresenceRow(metas: seq<string>, all: seq<string>) returns (row: seq<int>)
    ensures row == PresenceRow(metas, all)
  {
    row := [];
    var j := 0;
    while j < |all|
      invariant j <= |all|
      invariant row == PresenceRow(metas, all)[..j]
    {
      row := row + [if all[j] in metas then 1 else 0];
      j := j + 1;
    }
  }

  /** What the search loop leaves behind: the dictionary's keys and values, the metabolite list and the failures. */
  ghost predicate SearchState(taxa: seq<string>, search: string -> Option<seq<string>>,
                        keys: seq<string>, all: seq<string>, prelim: map<string, seq<string>>, unchecked: seq<string>)
  {
    && keys == Dedup(Searched(taxa, search))
    && all == AllMetabolites(taxa, search)
    && unchecked == Unchecked(taxa, search)
    && Keyed(keys, prelim, search)
  }

  /** The dictionary holds exactly the keys listed, each with its taxon's search result. */
  ghost predicate Keyed(keys: seq<string>, prelim: map<string, seq<string>>, search: string -> Option<seq<string>>)
  {
    && (forall k :: k in prelim <==> k in keys)
    && (forall k :: k in prelim ==> search(k) == Some(prelim[k]))
  }

  /** A successful search adds its taxon to the keys unless the dictionary already holds it. */
  lemma KeysStep(found: seq<string>, sp: string, keys: seq<string>, keys': seq<string>)
    requires keys == Dedup(found)
    requires keys' == if sp in keys then keys else keys + [sp]
    ensures keys' == Dedup(found + [sp])
  {
    DedupStep(found, sp);
  }

  /** Recording a successful search keeps the dictionary and its key list in step. */
  lemma KeyedStep(keys: seq<string>, prelim: map<string, seq<string>>, search: string -> Option<seq<string>>, sp: string, keys': seq<string>)
    requires Keyed(keys, prelim, search) && search(sp).Some?
    requires keys' == if sp in prelim then keys else keys + [sp]
    ensures Keyed(keys', prelim[sp := search(sp).value], search)
  {
  }

  /** A failed search only adds its taxon to the failures. */
  lemma SearchStepFailed(taxa: seq<string>, search: string -> Option<seq<string>>, i: nat,
                         keys: seq<string>, all: seq<string>, prelim: map<string, seq<string>>, unchecked: seq<string>)
    requires i < |taxa| && SearchState(taxa[..i], search, keys, all, prelim, unchecked)
    requires search(taxa[i]).None?
    ensures SearchState(taxa[..i + 1], search, keys, all, prelim, unchecked + [taxa[i]])
  {
    SearchedStep(taxa, search, i);
    var found := Searched(taxa[..i], search);
    assert Searched(taxa[..i + 1], search) == found;
    assert keys == Dedup(Searched(taxa[..i + 1], search));
    assert all == AllMetabolites(taxa[..i + 1], search);
    assert unchecked + [taxa[i]] == Unchecked(taxa[..i + 1], search);
  }

  /** A successful search records its result and extends the metabolite list. */
  lemma SearchStepFound(taxa: seq<string>, search: string -> Option<seq<string>>, i: nat,
                        keys: seq<string>, all: seq<string>, prelim: map<string, seq<string>>, unchecked: seq<string>,
                        keys': seq<string>, all': seq<string>)
    requires i < |taxa| && SearchState(taxa[..i], search, keys, all, prelim, unchecked)
    requires search(taxa[i]).Some?
    requires keys' == if taxa[i] in prelim then keys else keys + [taxa[i]]
    requires all' == Dedup(Flatten(Results(Searched(taxa[..i], search), search)) + search(taxa[i]).value)
    ensures SearchState(taxa[..i + 1], search, keys', all', prelim[taxa[i] := search(taxa[i]).value], unchecked)
  {
    KeysStepAt(taxa, search, i, keys, prelim, keys');
    AllMetabolitesStep(taxa, search, i, all');
    UncheckedStepFound(taxa, search, i);
  }

  lemma UncheckedStepFound(taxa: seq<string>, search: string -> Option<seq<string>>, i: nat)
    requires i < |taxa| && search(taxa[i]).Some?
    ensures Unchecked(taxa[..i + 1], search) == Unchecked(taxa[..i], search)
  {
    SearchedStep(taxa, search, i);
  }

  lemma KeysStepAt(taxa: seq<string>, search: string -> Option<seq<string>>, i: nat,
                   keys: seq<string>, prelim: map<string, seq<string>>, keys': seq<string>)
    requires i < |taxa| && search(taxa[i]).Some?
    requires keys == Dedup(Searched(taxa[..i], search)) && Keyed(keys, prelim, search)
    requires keys' == if taxa[i] in prelim then keys else keys + [taxa[i]]
    ensures keys' == Dedup(Searched(taxa[..i + 1], search))
    ensures Keyed(keys', prelim[taxa[i] := search(taxa[i]).value], search)
  {
    SearchedStep(taxa, search, i);
    assert taxa[i] in prelim <==> taxa[i] in keys;
    KeysStep(Searched(taxa[..i], search), taxa[i], keys, keys');
    KeyedStep(keys, prelim, search, taxa[i], keys');
  }

  /** A successful search extends the flattened results by its own list. */
  lemma AllMetabolitesStep(taxa: seq<string>, search: string -> Option<seq<string>>, i: nat, all': seq<string>)
    requires i < |taxa| && search(taxa[i]).Some?
    requires all' == Dedup(Flatten(Results(Searched(taxa[..i], search), search)) + search(taxa[i]).value)
    ensures all' == AllMetabolites(taxa[..i + 1], search)
  {
    SearchedStep(taxa, search, i);
    var found := Searched(taxa[..i], search);
    assert Searched(taxa[..i + 1], search) == found + [taxa[i]];
    FlattenResultsStep(found, taxa[i], search);
  }

  /** The first loop of `get_metabolites_for_taxa`: search each taxon, recording results and failures. */
  method SearchTaxa(taxa: seq<string>, search: string -> Option<seq<string>>)
    returns (keys: seq<string>, all: seq<string>, prelim: map<string, seq<string>>, unchecked: seq<string>)
    ensures SearchState(taxa, search, keys, all, prelim, unchecked)
  {
    keys, all, prelim, unchecked := [], [], map[], [];
    var i := 0;
    assert Searched(taxa[..0], search) == [] && Unchecked(taxa[..0], search) == [];
    assert Results([], search) == [];
    while i < |taxa|
      invariant i <= |taxa|
      invariant SearchState(taxa[..i], search, keys, all, prelim, unchecked)
    {
      var sp := taxa[i];
      var res := search(sp);
      if res.None? {
        SearchStepFailed(taxa, search, i, keys, all, prelim, unchecked);
        unchecked := unchecked + [sp];
      } else {
        var metas := res.value;
        var keys' := if sp in prelim then keys else keys + [sp];
        var all' := AppendUnseen(Flatten(Results(Searched(taxa[..i], search), search)), all, metas);
        SearchStepFound(taxa, search, i, keys, all, prelim, unchecked, keys', all');
        keys, all, prelim := keys', all', prelim[sp := metas];
      }
      i := i + 1;
      assert SearchState(taxa[..i], search, keys, all, prelim, unchecked);
    }
    assert taxa[..i] == taxa;
  }

  /**
   * `get_metabolites_for_taxa` after a fresh search: the searches fill an
   * insertion-ordered dictionary and the metabolite list, then the matrix
   * is read off them row by row; the failed taxa are returned for a later
   * re-check.
   */
  method GetMetabolitesForTaxa(taxa: seq<string>, search: string -> Option<seq<string>>)
    returns (m: PresenceMatrix, unchecked: seq<string>)
    ensures m == Matrix(taxa, search)
    ensures unchecked == Unchecked(taxa, search)
  {
    var keys, all, prelim;
    keys, all, prelim, unchecked := SearchTaxa(taxa, search);
    var rows := BuildRows(keys, all, prelim);
    MatrixFromSearch(taxa, search, keys, all, prelim, unchecked, rows);
    m := PresenceMatrix(keys, all, rows);
  }

  /** The second loop of `get_metabolites_for_taxa`: one presence row per dictionary key, in key order. */
  method BuildRows(keys: seq<string>, all: seq<string>, prelim: map<string, seq<string>>) returns (rows: seq<seq<int>>)
    requires forall k :: k in keys ==> k in prelim
    ensures |rows| == |keys| && forall r :: 0 <= r < |keys| ==> keys[r] in prelim && rows[r] == PresenceRow(prelim[keys[r]], all)
  {
    rows := [];
    var k := 0;
    while k < |keys|
      invariant k <= |keys|
      invariant |rows| == k
      invariant forall r :: 0 <= r < k ==> keys[r] in prelim && rows[r] == PresenceRow(prelim[keys[r]], all)
    {
      var row := BuildPresenceRow(prelim[keys[k]], all);
      rows := rows + [row];
      k := k + 1;
    }
  }

  /** The rows built from the dictionary are the matrix of the searches. */
  lemma MatrixFromSearch(taxa: seq<string>, search: string -> Option<seq<string>>, keys: seq<string>, all: seq<string>,
                         prelim: map<string, seq<string>>, unchecked: seq<string>, rows: seq<seq<int>>)
    requires SearchState(taxa, search, keys, all, prelim, unchecked)
    requires |rows| == |keys| && forall r :: 0 <= r < |keys| ==> keys[r] in prelim && rows[r] == PresenceRow(prelim[keys[r]], all)
    ensures PresenceMatrix(keys, all, rows) == Matrix(taxa, search)
  {
    var m := Matrix(taxa, search);
    assert m.taxa == keys && m.metabolites == all;
    forall r | 0 <= r < |keys| ensures m.presence[r] == rows[r] {
      assert search(keys[r]) == Some(prelim[keys[r]]);
    }
  }

  /** Each successful taxon has exactly one row, and the metabolite columns name no metabolite twice. */
  lemma MatrixShape(taxa: seq<string>, search: string -> Option<seq<string>>)
    ensures var m := Matrix(taxa, search);
      NoDup(m.taxa) && NoDup(m.metabolites) && |m.presence| == |m.taxa| &&
      (forall sp :: sp in m.taxa <==> sp in taxa && search(sp).Some?) &&
      (forall sp :: sp in Unchecked(taxa, search) <==> sp in taxa && search(sp).None?)
  {
  }

  /** A cell of the matrix is 1 exactly when that taxon's search listed that metabolite. */
  lemma MatrixCell(taxa: seq<string>, search: string -> Option<seq<string>>, i: nat, j: nat)
    requires i < |Matrix(taxa, search).taxa| && j < |Matrix(taxa, search).metabolites|
    ensures var m := Matrix(taxa, search);
      search(m.taxa[i]).Some? &&
      (m.presence[i][j] == 1 <==> m.metabolites[j] in search(m.taxa[i]).value) &&
      (m.presence[i][j] == 0 <==> m.metabolites[j] !in search(m.taxa[i]).value)
  {
  }

  /** Every metabolite some successful search listed is a column of the matrix. */
  lemma MatrixColumnsCover(taxa: seq<string>, search: string -> Option<seq<string>>, sp: string, x: string)
    requires sp in taxa && search(sp).Some? && x in search(sp).value
    ensures x in Matrix(taxa, search).metabolites
  {
    var found := Searched(taxa, search);
    var k :| 0 <= k < |found| && found[k] == sp;
    FlattenMember(Results(found, search), k, x);
  }

  // ---- hits per taxon ----

  /** A taxon-by-metabolite table read back: taxon names, metabolite columns and their 1/0 flags. */
  datatype PresenceTable = PresenceTable(taxa: seq<string>, cols: seq<string>, flags: seq<seq<int>>)

  predicate ValidTable(t: PresenceTable)
  {
    |t.flags| == |t.taxa| && forall i :: 0 <= i < |t.flags| ==> |t.flags[i]| == |t.cols|
  }

  /** The first row of the taxon named like row i (`taxa_record ... .iloc[0]`). */
  function FirstRowOf(taxa: seq<string>, i: nat): (j: nat)
    requires i < |taxa|
    ensures j <= i && taxa[j] == taxa[i] && forall k :: 0 <= k < j ==> taxa[k] != taxa[i]
  {
    if taxa[0] == taxa[i] then 0
    else
      var j := FirstRowOf(taxa[1..], i - 1);
      j + 1
  }

  /** The columns flagged 1 in a row, in column order. */
  function Present(cols: seq<string>, row: seq<int>): seq<string>
    requires |row| == |cols|
  {
    if |cols| == 0 then []
    else
      var n := |cols| - 1;
      Present(cols[..n], row[..n]) + (if row[n] == 1 then [cols[n]] else [])
  }

  /** A name is among the present columns exactly when some column of that name is flagged 1. */
  lemma {:induction false} PresentMembers(cols: seq<string>, row: seq<int>, x: string)
    requires |row| == |cols|
    ensures x in Present(cols, row) <==> exists k :: 0 <= k < |cols| && cols[k] == x && row[k] == 1
  {
    if |cols| > 0 {
      var n := |cols| - 1;
      PresentMembers(cols[..n], row[..n], x);
      assert forall k :: 0 <= k < n ==> cols[..n][k] == cols[k] && row[..n][k] == row[k];
    }
  }

  /** The compounds of the list present in the taxon of row i, in column order. */
  function RowHits(t: PresenceTable, compounds: seq<string>, i: nat): seq<string>
    requires ValidTable(t) && i < |t.taxa|
  {
    Filter(Present(t.cols, t.flags[FirstRowOf(t.taxa, i)]), InList(compounds))
  }

  /**
   * A compound is a hit of row i exactly when it is in the list and its
   * column is flagged 1 in the first row of that row's taxon.
   */
  lemma RowHitsMeaning(t: PresenceTable, compounds: seq<string>, i: nat, x: string)
    requires ValidTable(t) && i < |t.taxa|
    ensures x in RowHits(t, compounds, i) <==>
      x in compounds && exists k :: 0 <= k < |t.cols| && t.cols[k] == x && t.flags[FirstRowOf(t.taxa, i)][k] == 1
  {
    var present := Present(t.cols, t.flags[FirstRowOf(t.taxa, i)]);
    PresentMembers(t.cols, t.flags[FirstRowOf(t.taxa, i)], x);
  }

  /** The snippet text: the list's `str` in double quotes. */
  function Snippet(hits: seq<string>): string
  {
    "\"" + PyListRepr(hits) + "\""
  }

  const HitColumns: seq<string> := ["taxa", "knapsack_snippet", "Source"]

  /** The hits of every table row, in row order. */
  function AllRowHits(t: PresenceTable, compounds: seq<string>): (h: seq<seq<string>>)
    requires ValidTable(t)
    ensures |h| == |t.taxa|
  {
    seq(|t.taxa|, i requires 0 <= i < |t.taxa| => RowHits(t, compounds, i))
  }

  /** How many of the first n rows have hits. */
  function HitCount(hits: seq<seq<string>>, n: nat): nat
    requires n <= |hits|
  {
    if n == 0 then 0 else HitCount(hits, n - 1) + (if hits[n - 1] != [] then 1 else 0)
  }

  /** `out_dict['taxa']` after the first n rows: the taxa of the rows with at least one hit. */
  function HitTaxa(taxa: seq<string>, hits: seq<seq<string>>, n: nat): (r: seq<string>)
    requires |hits| == |taxa| && n <= |taxa|
    ensures |r| == HitCount(hits, n)
  {
    if n == 0 then []
    else HitTaxa(taxa, hits, n - 1) + (if hits[n - 1] != [] then [taxa[n - 1]] else [])
  }

  /** `out_dict['knapsack_snippet']` after the first n rows. */
  function HitSnippets(hits: seq<seq<string>>, n: nat): (r: seq<string>)
    requires n <= |hits|
    ensures |r| == HitCount(hits, n)
  {
    if n == 0 then []
    else HitSnippets(hits, n - 1) + (if hits[n - 1] != [] then [Snippet(hits[n - 1])] else [])
  }

  /** The data frame of the two lists with the constant 'Source' column added. */
  function HitFrame(taxa: seq<string>, snippets: seq<string>): (f: Frame)
    requires |taxa| == |snippets|
    ensures WellFormed(f) && f.cols == HitColumns && |f.rows| == |taxa|
  {
    Frame(HitColumns, seq(|taxa|, r requires 0 <= r < |taxa| => [Some(taxa[r]), Some(snippets[r]), Some(KnapsackSource)]))
  }

  /** Entry r of the output lists after n rows is row i's taxon and snippet, and row i has hits. */
  predicate EntryOf(taxa: seq<string>, hits: seq<seq<string>>, n: nat, r: nat, i: nat)
    requires |hits| == |taxa| && n <= |taxa|
  {
    i < n && r < HitCount(hits, n) && hits[i] != [] &&
    HitTaxa(taxa, hits, n)[r] == taxa[i] && HitSnippets(hits, n)[r] == Snippet(hits[i])
  }

  ghost predicate EntryFromSomeRow(taxa: seq<string>, hits: seq<seq<string>>, n: nat, r: nat)
    requires |hits| == |taxa| && n <= |taxa|
  {
    exists i: nat :: EntryOf(taxa, hits, n, r, i)
  }

  ghost predicate RowHasEntry(taxa: seq<string>, hits: seq<seq<string>>, n: nat, i: nat)
    requires |hits| == |taxa| && n <= |taxa|
  {
    exists r: nat :: EntryOf(taxa, hits, n, r, i)
  }

  /** Entries already in the lists keep their place when a row is processed. */
  lemma HitListsKeepPrefix(taxa: seq<string>, hits: seq<seq<string>>, n: nat, r: nat)
    requires |hits| == |taxa| && 0 < n <= |taxa| && r < HitCount(hits, n - 1)
    ensures HitTaxa(taxa, hits, n)[r] == HitTaxa(taxa, hits, n - 1)[r]
    ensures HitSnippets(hits, n)[r] == HitSnippets(hits, n - 1)[r]
  {
  }

  /** A row with hits adds its taxon and snippet at the end of the lists. */
  lemma HitListsAppendRow(taxa: seq<string>, hits: seq<seq<string>>, n: nat)
    requires |hits| == |taxa| && 0 < n <= |taxa| && hits[n - 1] != []
    ensures HitCount(hits, n) == HitCount(hits, n - 1) + 1
    ensures HitTaxa(taxa, hits, n)[HitCount(hits, n - 1)] == taxa[n - 1]
    ensures HitSnippets(hits, n)[HitCount(hits, n - 1)] == Snippet(hits[n - 1])
  {
  }

  /** Every entry of the output lists comes from a row with hits: its taxon and its snippet. */
  lemma {:induction false} EntryFromRow(taxa: seq<string>, hits: seq<seq<string>>, n: nat, r: nat)
    requires |hits| == |taxa| && n <= |taxa| && r < HitCount(hits, n)
    ensures EntryFromSomeRow(taxa, hits, n, r)
  {
    if r < HitCount(hits, n - 1) {
      EntryFromRow(taxa, hits, n - 1, r);
      var i: nat :| EntryOf(taxa, hits, n - 1, r, i);
      HitListsKeepPrefix(taxa, hits, n, r);
      assert EntryOf(taxa, hits, n, r, i);
    } else {
      HitListsAppendRow(taxa, hits, n);
      assert EntryOf(taxa, hits, n, r, n - 1);
    }
  }

  /** Every row with hits has an entry in the output lists. */
  lemma {:induction false} RowHasEntryAt(taxa: seq<string>, hits: seq<seq<string>>, n: nat, i: nat)
    requires |hits| == |taxa| && n <= |taxa| && i < n && hits[i] != []
    ensures RowHasEntry(taxa, hits, n, i)
  {
    if i < n - 1 {
      RowHasEntryAt(taxa, hits, n - 1, i);
      var r: nat :| EntryOf(taxa, hits, n - 1, r, i);
      HitListsKeepPrefix(taxa, hits, n, r);
      assert EntryOf(taxa, hits, n, r, i);
    } else {
      HitListsAppendRow(taxa, hits, n);
      assert EntryOf(taxa, hits, n, HitCount(hits, n - 1), i);
    }
  }

  /** The inner loop: the taxon's metabolites that are in the compound list, in order. */
  method CompoundsInTaxon(present: seq<string>, compounds: seq<string>) returns (hits: seq<string>)
    ensures hits == Filter(present, InList(compounds))
  {
    hits := [];
    var j := 0;
    while j < |present|
      invariant j <= |present|
      invariant hits == Filter(present[..j], InList(compounds))
    {
      assert present[..j + 1] == present[..j] + [present[j]];
      FilterAppend(present[..j], [present[j]], InList(compounds));
      if present[j] in compounds {
        hits := hits + [present[j]];
      }
      j := j + 1;
    }
    assert present[..j] == present;
  }

  /**
   * `get_antibac_metabolite_hits_for_taxa`, `get_alkaloid_hits_for_taxa` and
   * `get_compound_hits_for_taxa` before the accepted-name lookup: the loop
   * over the table's rows, collecting the taxa with hits and their snippets.
   */
  method CompoundHitsForTaxa(t: PresenceTable, compounds: seq<string>) returns (out: Frame)
    requires ValidTable(t)
    ensures var h := AllRowHits(t, compounds); out == HitFrame(HitTaxa(t.taxa, h, |t.taxa|), HitSnippets(h, |t.taxa|))
  {
    var taxaOut, snippets := CollectHits(t, compounds);
    out := HitFrame(taxaOut, snippets);
  }

  /** The compounds of the list among the metabolites of row i's taxon, read from that taxon's first row. */
  method TaxonHits(t: PresenceTable, compounds: seq<string>, i: nat) returns (hits: seq<string>)
    requires ValidTable(t) && i < |t.taxa|
    ensures hits == AllRowHits(t, compounds)[i]
  {
    var present := Present(t.cols, t.flags[FirstRowOf(t.taxa, i)]);
    hits := CompoundsInTaxon(present, compounds);
  }

  /** The loop over the table's rows filling `out_dict`. */
  method CollectHits(t: PresenceTable, compounds: seq<string>) returns (taxaOut: seq<string>, snippets: seq<string>)
    requires ValidTable(t)
    ensures taxaOut == HitTaxa(t.taxa, AllRowHits(t, compounds), |t.taxa|)
    ensures snippets == HitSnippets(AllRowHits(t, compounds), |t.taxa|)
  {
    taxaOut, snippets := [], [];
    var i := 0;
    while i < |t.taxa|
      invariant i <= |t.taxa|
      invariant taxaOut == HitTaxa(t.taxa, AllRowHits(t, compounds), i)
      invariant snippets == HitSnippets(AllRowHits(t, compounds), i)
    {
      taxaOut, snippets := CollectRow(t, compounds, i, taxaOut, snippets);
      i := i + 1;
    }
  }

  /** One pass of the loop body: row i's taxon and snippet are appended when it has hits. */
  method CollectRow(t: PresenceTable, compounds: seq<string>, i: nat, taxaOut: seq<string>, snippets: seq<string>)
    returns (taxaOut': seq<string>, snippets': seq<string>)
    requires ValidTable(t) && i < |t.taxa|
    requires taxaOut == HitTaxa(t.taxa, AllRowHits(t, compounds), i)
    requires snippets == HitSnippets(AllRowHits(t, compounds), i)
    ensures taxaOut' == HitTaxa(t.taxa, AllRowHits(t, compounds), i + 1)
    ensures snippets' == HitSnippets(AllRowHits(t, compounds), i + 1)
  {
    var hits := TaxonHits(t, compounds, i);
    HitListsStep(t.taxa, AllRowHits(t, compounds), i);
    if |hits| > 0 {
      taxaOut', snippets' := taxaOut + [t.taxa[i]], snippets + [Snippet(hits)];
    } else {
      taxaOut', snippets' := taxaOut, snippets;
    }
  }

  /** One row of the loop: the lists grow by the row's taxon and snippet exactly when it has hits. */
  lemma HitListsStep(taxa: seq<string>, h: seq<seq<string>>, i: nat)
    requires |h| == |taxa| && i < |taxa|
    ensures HitTaxa(taxa, h, i + 1) == HitTaxa(taxa, h, i) + (if |h[i]| > 0 then [taxa[i]] else [])
    ensures HitSnippets(h, i + 1) == HitSnippets(h, i) + (if |h[i]| > 0 then [Snippet(h[i])] else [])
  {
  }

  /** Rows of the same taxon get the same hits: every one of them is read from the first such row. */
  lemma RepeatedTaxonUsesFirstRow(t: PresenceTable, compounds: seq<string>, i: nat, j: nat)
    requires ValidTable(t) && i < |t.taxa| && j < |t.taxa| && t.taxa[i] == t.taxa[j]
    ensures RowHits(t, compounds, i) == RowHits(t, compounds, j)
  {
  }

  // ---- the 'ine' alkaloid rule ----

  function IneRuleHit(formulasOf: string -> seq<Cell>): string -> bool
  {
    (m: string) => m !in KnownNonAlkaloids && IneShaped(m) && AllContainN(formulasOf(m)) == Ok(true)
  }

  /** The error one metabolite raises in the rule's loop, if any. */
  predicate IneRuleRaises(m: string, formulasOf: string -> seq<Cell>)
  {
    m !in KnownNonAlkaloids && IneShaped(m) && AllContainN(formulasOf(m)).Err?
  }

  /** The metabolites the 'ine' rule keeps, in order, or the first error. */
  function IneRuleAlkaloids(ms: seq<string>, formulasOf: string -> seq<Cell>): (r: Result<seq<string>>)
    ensures r.Err? <==> exists i :: 0 <= i < |ms| && IneRuleRaises(ms[i], formulasOf)
    ensures r.Ok? ==> r.value == Filter(ms, IneRuleHit(formulasOf))
  {
    if |ms| == 0 then Ok([])
    else
      var n := |ms| - 1;
      assert ms == ms[..n] + [ms[n]];
      FilterAppend(ms[..n], [ms[n]], IneRuleHit(formulasOf));
      match IneRuleAlkaloids(ms[..n], formulasOf)
      case Err(e) => Err(e)
      case Ok(prev) =>
        var m := ms[n];
        if m !in KnownNonAlkaloids && IneShaped(m) then
          match AllContainN(formulasOf(m))
          case Err(e) => Err(e)
          case Ok(all) => if all then Ok(prev + [m]) else Ok(prev)
        else Ok(prev)
  }

  lemma {:induction false} IneRuleErrorKept(ms: seq<string>, formulasOf: string -> seq<Cell>, j: nat)
    requires j <= |ms| && IneRuleAlkaloids(ms[..j], formulasOf).Err?
    ensures IneRuleAlkaloids(ms, formulasOf) == IneRuleAlkaloids(ms[..j], formulasOf)
  {
    if j < |ms| {
      var n := |ms| - 1;
      assert ms[..n][..j] == ms[..j];
      IneRuleErrorKept(ms[..n], formulasOf, j);
      IneRuleErrorLast(ms, formulasOf);
    } else {
      assert ms[..j] == ms;
    }
  }

  lemma IneRuleErrorLast(ms: seq<string>, formulasOf: string -> seq<Cell>)
    requires |ms| > 0 && IneRuleAlkaloids(ms[..|ms| - 1], formulasOf).Err?
    ensures IneRuleAlkaloids(ms, formulasOf) == IneRuleAlkaloids(ms[..|ms| - 1], formulasOf)
  {
  }

  const AlkaloidColumns: seq<string> := ["alks", "Reason", "Source"]

  /** The output table of the rule: each kept metabolite with the fixed reason and source. */
  function AlkaloidFrame(alks: seq<string>): (f: Frame)
    ensures WellFormed(f) && f.cols == AlkaloidColumns && |f.rows| == |alks|
  {
    Frame(AlkaloidColumns, seq(|alks|, i requires 0 <= i < |alks| =>
      [Some(alks[i]), Some(ReasonText(NitrogenAndIne)), Some(KnapsackSource)]))
  }

  /** `get_alkaloids_from_metabolites` (without the CSV write): the loop over the metabolites. */
  method GetAlkaloidsFromMetabolites(ms: seq<string>, formulasOf: string -> seq<Cell>) returns (r: Result<Frame>)
    ensures r.Err? <==> IneRuleAlkaloids(ms, formulasOf).Err?
    ensures r.Ok? ==> r.value == AlkaloidFrame(IneRuleAlkaloids(ms, formulasOf).value)
  {
    var alks: seq<string> := [];
    var i := 0;
    while i < |ms|
      invariant i <= |ms|
      invariant IneRuleAlkaloids(ms[..i], formulasOf) == Ok(alks)
    {
      var m := ms[i];
      assert ms[..i + 1][..i] == ms[..i] && ms[..i + 1][i] == m;
      if m !in KnownNonAlkaloids {
        if IneShaped(m) {
          var all := AllContainN(formulasOf(m));
          if all.Err? {
            IneRuleErrorKept(ms, formulasOf, i + 1);
            return Err(all.error);
          }
          if all.value {
            alks := alks + [m];
          }
        }
      }
      i := i + 1;
    }
    assert ms[..i] == ms;
    return Ok(AlkaloidFrame(alks));
  }

  /** The later classifier keeps every metabolite this rule keeps: it only adds rules before it. */
  lemma IneRuleWithinLaterClassifier(ms: seq<string>, known: seq<string>, formulasOf: string -> seq<Cell>, x: string)
    requires IneRuleAlkaloids(ms, formulasOf).Ok? && Hits(ms, known, formulasOf).Ok?
    requires x in IneRuleAlkaloids(ms, formulasOf).value
    ensures x in Hits(ms, known, formulasOf).value.alks
  {
    var i :| 0 <= i < |ms| && ms[i] == x;
    assert IneRuleHit(formulasOf)(x);
    assert IsHit(known, formulasOf)(ms[i]);
  }
}
