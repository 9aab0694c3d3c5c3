/**
 * The TRY trait-database filters (morphological_vars/parse_try_data.py):
 * the split of the morphology export into emergence, latex and corolla
 * records with its lost-row check, the common cleaning of trait hits, and
 * the spine and hair drop tables that decide which records count as hits.
 * File reads and writes and the accepted-name lookup at the end of each
 * pipeline are not part of this model: the records arrive as values.
 */
module TryData {
  import opened Base
  import opened Strs

  /** An entry of a drop list: the Python lists mix texts such as '0' with the integers 0 and 1. */
  datatype DropValue = Text(s: string) | Int(n: int)

  /** Each trait name with the values that do not indicate the feature, in dictionary order. */
  type DropTable = seq<(string, seq<DropValue>)>

  const SpineValuesToDrop: DropTable := [
     ("Thorn / spine length", [Text("0"), Int(0)]),
     ("Spinescence / thorniness", [Text("spines absent"), Text("0"), Int(0), Text("no"), Text("Absence")]),
     ("Thorn density", [Text("0"), Int(0)]),
     ("Leaf spines: upper", [Text("no")]),
     ("Leaf Spines: lower", [Text("no")]),
     ("Leaf Spines: midrib/veins", [Text("no")]),
     ("Leaf Spines: marginal", [Text("no")]),
     ("Leaf Spines: terminal", [Text("no")]),
     ("Leaf thorn", [Text("no")]),
     ("Stem spiny", [Text("no")]),
     ("Stem thorny", [Text("no")]),
     ("Other spines/thorns", [Text("no")]),
     ("Leaf spines", [Text("no")]),
     ("Thorns elsewhere", [Text("no")])
  ]

  const HairValuesToDrop: DropTable := [
     ("Leaf trichome canopy height", []),
     ("Pubescence: presence and abundance of water-absorbing hairs on leaves (e.g., Bromeliaceae)", [Int(1), Text("1")]),
     ("Pubescence (cottony + - horizontal indumentum)", [Int(1), Text("1")]),
     ("Hairs orientation", []),
     ("Pruinose: above", [Text("no")]),
     ("Pruinose: below", [Text("no")]),
     ("Pruinose: midrib/veins", [Text("no")]),
     ("Pruinose: petiole", [Text("no")]),
     ("Leaf pruinose", [Text("no")]),
     ("Leaf hair length", [Int(0), Text("0")]),
     ("Leaf hairiness", [Text("no hairs"), Text("slightly hairy (few hairs or hairs only along veins)"), Text("only as young plant with hairs, old no hairs"), Text("no")]),
     ("Stem hair length", [Int(0), Text("0")]),
     ("Pubescence (ascending hairs or papillae)", [Int(1), Text("1")]),
     ("Leaf: trichome density", []),
     ("Leaf hairiness: top", [Text("no"), Text("no hairs"), Text("only as young plant with hairs"), Text("other")]),
     ("Leaf hairiness: bottom", [Text("no"), Text("no hairs"), Text("only as young plant with hairs"), Text("other")]),
     ("Lair hairiness: midrib/veins", [Text("no")]),
     ("Leaf hairiness: marginal", [Text("no")]),
     ("Leaf with basal hairs", [Text("no")]),
     ("Leaf pubescent: top", [Text("no")]),
     ("Leaf pubescent: bottom", [Text("no")]),
     ("Leaf pubescent: marginal", [Text("no")]),
     ("Leaf pubescent: midrib/veins", [Text("no")]),
     ("Stem hairy", [Text("no")]),
     ("Stem pubescent", [Text("no")]),
     ("Leaf pubescence", [Text("no")])
  ]

  function Keys(t: DropTable): seq<string>
  {
    seq(|t|, i requires 0 <= i < |t| => t[i].0)
  }

  /**
   * `series.isin(values)` for a text value: the values column is read as
   * text, so only a text entry can equal it.
   */
  predicate IsIn(v: string, vs: seq<DropValue>)
  {
    Text(v) in vs
  }

  /** The integer entries of the drop lists never match a value read as text. */
  lemma IntegerEntriesNeverMatch(v: string, vs: seq<DropValue>, n: int)
    ensures IsIn(v, vs + [Int(n)]) <==> IsIn(v, vs)
    ensures !IsIn(v, [Int(n)])
  {
    if Text(v) in vs + [Int(n)] {
      var k :| 0 <= k < |vs + [Int(n)]| && (vs + [Int(n)])[k] == Text(v);
      assert k < |vs| && vs[k] == Text(v);
    }
  }

  // ---- clean_try_db ----

  /** A record of the morphology export; only its trait name matters here. */
  datatype TraitRow = TraitRow(traitName: Option<string>, fields: seq<Cell>)

  datatype TraitSplit = TraitSplit(emergence: seq<TraitRow>, latex: seq<TraitRow>, corolla: seq<TraitRow>)

  function HasTraitName(r: TraitRow): bool { r.traitName.Some? }

  /** `TraitName.str.contains(word)` on a record with a trait name. */
  function Mentions(word: string): TraitRow -> bool
  {
    (r: TraitRow) => r.traitName.Some? && Contains(r.traitName.value, word)
  }

  /** How many of the three words a record's trait name mentions. */
  function Matches(r: TraitRow): nat
  {
    (if Mentions("emergence")(r) then 1 else 0) + (if Mentions("latex")(r) then 1 else 0)
      + (if Mentions("corolla")(r) then 1 else 0)
  }

  function MatchTotal(rows: seq<TraitRow>): nat
  {
    if |rows| == 0 then 0 else MatchTotal(rows[..|rows| - 1]) + Matches(rows[|rows| - 1])
  }

  /**
   * `clean_try_db` up to writing the three files: drop the records without a
   * trait name, select the three kinds by substring, and raise ValueError
   * when their sizes do not add up to the number of named records.
   */
  function CleanTryDb(rows: seq<TraitRow>): Result<TraitSplit>
  {
    var named := Filter(rows, HasTraitName);
    var e := Filter(named, Mentions("emergence"));
    var l := Filter(named, Mentions("latex"));
    var c := Filter(named, Mentions("corolla"));
    if |e| + |l| + |c| != |named| then Err("ValueError: Some items have been lost")
    else Ok(TraitSplit(e, l, c))
  }

  /** The three selections together hold one copy of a record per word its name mentions. */
  lemma {:induction false} MentionCounts(rows: seq<TraitRow>)
    ensures |Filter(rows, Mentions("emergence"))| + |Filter(rows, Mentions("latex"))| + |Filter(rows, Mentions("corolla"))|
      == MatchTotal(rows)
  {
    if |rows| > 0 {
      MentionCounts(rows[..|rows| - 1]);
      FilterLast(rows, Mentions("emergence"));
      FilterLast(rows, Mentions("latex"));
      FilterLast(rows, Mentions("corolla"));
    }
  }

  /** Selecting a word among the named records is selecting it among all records. */
  lemma MentionsNamed(rows: seq<TraitRow>, word: string)
    ensures Filter(Filter(rows, HasTraitName), Mentions(word)) == Filter(rows, Mentions(word))
  {
    FilterFilter(rows, HasTraitName, Mentions(word), Mentions(word));
  }

  /** The check passes exactly when the word matches, counted over the named records, equal their number. */
  lemma CleanTryDbChecks(rows: seq<TraitRow>)
    ensures CleanTryDb(rows).Ok? <==> MatchTotal(rows) == |Filter(rows, HasTraitName)|
  {
    MentionsNamed(rows, "emergence");
    MentionsNamed(rows, "latex");
    MentionsNamed(rows, "corolla");
    MentionCounts(rows);
  }

  /** Every named record mentioning exactly one of the words: no record is lost. */
  lemma {:induction false} EachMatchedOnce(rows: seq<TraitRow>)
    requires forall i :: 0 <= i < |rows| && HasTraitName(rows[i]) ==> Matches(rows[i]) == 1
    ensures CleanTryDb(rows).Ok?
  {
    MatchesNamedCount(rows);
    CleanTryDbChecks(rows);
  }

  lemma {:induction false} MatchesNamedCount(rows: seq<TraitRow>)
    requires forall i :: 0 <= i < |rows| && HasTraitName(rows[i]) ==> Matches(rows[i]) == 1
    ensures MatchTotal(rows) == |Filter(rows, HasTraitName)|
  {
    if |rows| > 0 {
      var n := |rows| - 1;
      assert forall i :: 0 <= i < n ==> rows[..n][i] == rows[i];
      MatchesNamedCount(rows[..n]);
      FilterLast(rows, HasTraitName);
    }
  }

  lemma UnnamedUnmatched(r: TraitRow)
    ensures !HasTraitName(r) ==> Matches(r) == 0
  {
  }

  /** A named record that mentions none of the words, with none mentioning two, makes the lost-row test raise. */
  lemma {:induction false} UnmatchedRecordLost(rows: seq<TraitRow>, k: nat)
    requires forall i :: 0 <= i < |rows| ==> Matches(rows[i]) <= 1
    requires k < |rows| && HasTraitName(rows[k]) && Matches(rows[k]) == 0
    ensures CleanTryDb(rows) == Err("ValueError: Some items have been lost")
  {
    MatchesBelowNamed(rows, k);
    CleanTryDbChecks(rows);
  }

  lemma {:induction false} MatchesAtMostNamed(rows: seq<TraitRow>)
    requires forall i :: 0 <= i < |rows| ==> Matches(rows[i]) <= 1
    ensures MatchTotal(rows) <= |Filter(rows, HasTraitName)|
  {
    if |rows| > 0 {
      var n := |rows| - 1;
      assert forall i :: 0 <= i < n ==> rows[..n][i] == rows[i];
      MatchesAtMostNamed(rows[..n]);
      FilterLast(rows, HasTraitName);
      UnnamedUnmatched(rows[n]);
    }
  }

  lemma {:induction false} MatchesBelowNamed(rows: seq<TraitRow>, k: nat)
    requires forall i :: 0 <= i < |rows| ==> Matches(rows[i]) <= 1
    requires k < |rows| && HasTraitName(rows[k]) && Matches(rows[k]) == 0
    ensures MatchTotal(rows) < |Filter(rows, HasTraitName)|
  {
    var n := |rows| - 1;
    assert forall i :: 0 <= i < n ==> rows[..n][i] == rows[i];
    FilterLast(rows, HasTraitName);
    if k == n {
      MatchesAtMostNamed(rows[..n]);
    } else {
      MatchesBelowNamed(rows[..n], k);
      UnnamedUnmatched(rows[n]);
    }
  }

  // ---- clean_try_hits ----

  /** A record of the emergence file. */
  datatype TryRow = TryRow(dataName: string, value: Option<string>, unit: Option<string>, reference: string, species: string)

  /** A cleaned record with its snippet and source columns (a missing value leaves the snippet missing). */
  datatype TryHit = TryHit(row: TryRow, snippet: Cell, source: string)

  function HasValue(r: TryRow): bool { r.value.Some? }

  /** The two new columns: 'DataName:ValueUnit' with a missing unit as '', and 'TRY (Reference)'. */
  function MakeHit(r: TryRow): TryHit
  {
    var unit := if r.unit.Some? then r.unit.value else "";
    TryHit(r, if r.value.Some? then Some(r.dataName + ":" + r.value.value + unit) else None, "TRY (" + r.reference + ")")
  }

  /** The records `clean_try_hits` keeps: trait not in the list, reference not 'unpub.'. */
  function Kept(drop: seq<string>): TryRow -> bool
  {
    (r: TryRow) => r.dataName !in drop && r.reference != "unpub."
  }

  /** `clean_try_hits(df, traits_to_drop)`, up to its diagnostic printing. */
  function CleanTryHits(rows: seq<TryRow>, drop: seq<string>): seq<TryHit>
  {
    if |rows| == 0 then []
    else
      var n := |rows| - 1;
      CleanTryHits(rows[..n], drop) + (if Kept(drop)(rows[n]) then [MakeHit(rows[n])] else [])
  }

  /** The cleaned records are the kept ones, in order, each with its two new columns. */
  lemma {:induction false} CleanTryHitsMeaning(rows: seq<TryRow>, drop: seq<string>)
    ensures |CleanTryHits(rows, drop)| == |Filter(rows, Kept(drop))|
    ensures forall i :: 0 <= i < |CleanTryHits(rows, drop)| ==> CleanTryHits(rows, drop)[i] == MakeHit(Filter(rows, Kept(drop))[i])
  {
    if |rows| > 0 {
      CleanTryHitsMeaning(rows[..|rows| - 1], drop);
      FilterLast(rows, Kept(drop));
    }
  }

  /** A snippet starts with the trait name and a ':' and ends with the unit; the source names the reference. */
  lemma HitColumns(r: TryRow)
    requires r.value.Some?
    ensures var h := MakeHit(r); h.snippet.Some? && StartsWith(h.snippet.value, r.dataName + ":")
    ensures r.unit.Some? ==> EndsWith(MakeHit(r).snippet.value, r.unit.value)
    ensures StartsWith(MakeHit(r).source, "TRY (") && EndsWith(MakeHit(r).source, ")")
  {
    var h := MakeHit(r);
    var unit := if r.unit.Some? then r.unit.value else "";
    assert h.snippet.value == (r.dataName + ":") + (r.value.value + unit);
    assert h.source == "TRY (" + (r.reference + ")");
  }

  // ---- drop tables ----

  /** `(DataName == k) & OrigValueStr.isin(table[k])` for some key k of the table. */
  predicate DroppedBy(h: TryHit, t: DropTable)
  {
    exists k :: 0 <= k < |t| && Listed(h, t[k])
  }

  predicate Listed(h: TryHit, e: (string, seq<DropValue>))
  {
    h.row.dataName == e.0 && h.row.value.Some? && IsIn(h.row.value.value, e.1)
  }

  function Dropped(t: DropTable): TryHit -> bool
  {
    (h: TryHit) => DroppedBy(h, t)
  }

  function NotListed(e: (string, seq<DropValue>)): TryHit -> bool
  {
    (h: TryHit) => !Listed(h, e)
  }

  /** One more key of the table: a record is dropped by it or by the keys before. */
  lemma DroppedStep(h: TryHit, t: DropTable, i: nat)
    requires i < |t|
    ensures DroppedBy(h, t[..i + 1]) <==> DroppedBy(h, t[..i]) || Listed(h, t[i])
  {
    if DroppedBy(h, t[..i + 1]) {
      var k :| 0 <= k < i + 1 && Listed(h, t[..i + 1][k]);
      if k < i {
        assert Listed(h, t[..i][k]);
      }
    }
    if DroppedBy(h, t[..i]) {
      var k :| 0 <= k < i && Listed(h, t[..i][k]);
      assert Listed(h, t[..i + 1][k]);
    }
    if Listed(h, t[i]) {
      assert Listed(h, t[..i + 1][i]);
    }
  }

  /** One pass of the drop loop: keep the records not listed under key i. */
  method DropKey(hits: seq<TryHit>, t: DropTable, i: nat, kept: seq<TryHit>) returns (kept': seq<TryHit>)
    requires i < |t| && kept == Filter(hits, Not(Dropped(t[..i])))
    ensures kept' == Filter(hits, Not(Dropped(t[..i + 1])))
  {
    kept' := Filter(kept, NotListed(t[i]));
    forall h | h in hits
      ensures Not(Dropped(t[..i + 1]))(h) <==> Not(Dropped(t[..i]))(h) && NotListed(t[i])(h)
    {
      DroppedStep(h, t, i);
    }
    FilterFilter(hits, Not(Dropped(t[..i])), NotListed(t[i]), Not(Dropped(t[..i + 1])));
  }

  /** Before the first key, every record is kept. */
  lemma NothingDroppedYet(hits: seq<TryHit>, t: DropTable)
    ensures Filter(hits, Not(Dropped(t[..0]))) == hits
  {
    FilterAll(hits, Not(Dropped(t[..0])));
  }

  /** The loop over a drop table removing, key by key, the records whose value is listed under their trait. */
  method DropListedValues(hits: seq<TryHit>, t: DropTable) returns (kept: seq<TryHit>)
    ensures kept == Filter(hits, Not(Dropped(t)))
  {
    kept := hits;
    NothingDroppedYet(hits, t);
    var i := 0;
    while i < |t|
      invariant i <= |t| && kept == Filter(hits, Not(Dropped(t[..i])))
    {
      kept := DropKey(hits, t, i, kept);
      i := i + 1;
    }
    assert t[..i] == t;
  }

  // ---- validations ----

  /** The first trait name, in order of appearance, that is not a key (the first raised by the loop over `unique()`). */
  function FirstUnknown(hs: seq<TryHit>, keys: seq<string>): (r: Option<string>)
    ensures r.None? <==> forall i :: 0 <= i < |hs| ==> hs[i].row.dataName in keys
    ensures r.Some? ==> r.value !in keys && exists i :: 0 <= i < |hs| && hs[i].row.dataName == r.value
  {
    if |hs| == 0 then None
    else if hs[0].row.dataName !in keys then Some(hs[0].row.dataName)
    else
      var r := FirstUnknown(hs[1..], keys);
      assert forall i :: 1 <= i < |hs| ==> hs[i] == hs[1..][i - 1];
      r
  }

  /** Some trait name contains the word. */
  predicate NameHas(hs: seq<TryHit>, w: string)
  {
    exists i :: 0 <= i < |hs| && Contains(hs[i].row.dataName, w)
  }

  /** The first word, in list order, found in a trait name of either record list. */
  function FirstWordFound(words: seq<string>, a: seq<TryHit>, b: seq<TryHit>): (r: Option<string>)
    ensures r.None? <==> forall k :: 0 <= k < |words| ==> !NameHas(a, words[k]) && !NameHas(b, words[k])
    ensures r.Some? ==> r.value in words && (NameHas(a, r.value) || NameHas(b, r.value))
  {
    if |words| == 0 then None
    else if NameHas(a, words[0]) || NameHas(b, words[0]) then Some(words[0])
    else
      var r := FirstWordFound(words[1..], a, b);
      assert forall k :: 1 <= k < |words| ==> words[k] == words[1..][k - 1];
      r
  }

  // ---- the hair pipeline ----

  /** `get_accepted_info_try_hair_hits` up to the accepted-name lookup. */
  function HairHits(records: seq<TryRow>): Result<seq<TryHit>>
  {
    var cleaned := CleanTryHits(Filter(records, HasValue), Keys(SpineValuesToDrop));
    var hits := Filter(cleaned, Not(Dropped(HairValuesToDrop)));
    match FirstUnknown(hits, Keys(HairValuesToDrop))
    case Some(n) => Err("ValueError: Unknown hair dataname: " + n)
    case None =>
      match FirstWordFound(["thorn", "spiny", "spine"], hits, [])
      case Some(y) => Err("ValueError: " + y + " found in Dataname column")
      case None => Ok(hits)
  }

  /**
   * A hair hit has a value, a hair trait that is not a spine trait, a
   * published reference and a value not listed for its trait.
   */
  lemma HairHitsMeaning(records: seq<TryRow>, j: nat)
    requires HairHits(records).Ok? && j < |HairHits(records).value|
    ensures var h := HairHits(records).value[j];
      h.row in records && h.row.value.Some? && h.row.dataName in Keys(HairValuesToDrop)
      && h.row.dataName !in Keys(SpineValuesToDrop) && h.row.reference != "unpub."
      && !DroppedBy(h, HairValuesToDrop) && h == MakeHit(h.row)
  {
    var withValues := Filter(records, HasValue);
    var cleaned := CleanTryHits(withValues, Keys(SpineValuesToDrop));
    var h := HairHits(records).value[j];
    assert h in cleaned;
    CleanTryHitsMeaning(withValues, Keys(SpineValuesToDrop));
    var i :| 0 <= i < |cleaned| && cleaned[i] == h;
    var r := Filter(withValues, Kept(Keys(SpineValuesToDrop)))[i];
    assert h == MakeHit(r) && r in withValues;
  }

  /** `get_accepted_info_try_hair_hits`: clean, drop the listed hair values key by key, then validate. */
  method GetAcceptedInfoTryHairHits(records: seq<TryRow>) returns (r: Result<seq<TryHit>>)
    ensures r == HairHits(records)
  {
    var cleaned := CleanTryHits(Filter(records, HasValue), Keys(SpineValuesToDrop));
    var hits := DropListedValues(cleaned, HairValuesToDrop);
    var unknown := FirstUnknown(hits, Keys(HairValuesToDrop));
    if unknown.Some? {
      return Err("ValueError: Unknown hair dataname: " + unknown.value);
    }
    var word := FirstWordFound(["thorn", "spiny", "spine"], hits, []);
    if word.Some? {
      return Err("ValueError: " + word.value + " found in Dataname column");
    }
    return Ok(hits);
  }

  // ---- the spine pipeline ----

  datatype SpineSplit = SpineSplit(hits: seq<TryHit>, noHits: seq<TryHit>)

  /** The cleaned records the spine pipeline starts from. */
  function SpineCleaned(records: seq<TryRow>): seq<TryHit>
  {
    CleanTryHits(Filter(records, HasValue), Keys(HairValuesToDrop))
  }

  /** `get_accepted_try_info_spine_hits` up to the accepted-name lookup. */
  function SpineHits(records: seq<TryRow>): Result<SpineSplit>
  {
    var cleaned := SpineCleaned(records);
    var hits := Filter(cleaned, Not(Dropped(SpineValuesToDrop)));
    var noHits := Filter(cleaned, Dropped(SpineValuesToDrop));
    match FirstUnknown(hits, Keys(SpineValuesToDrop))
    case Some(n) => Err("ValueError: Unknown spine dataname: " + n)
    case None =>
      match FirstWordFound(["hair", "pubescence", "trichome"], hits, noHits)
      case Some(y) => Err("ValueError: " + y + " found in Dataname column")
      case None => Ok(SpineSplit(hits, noHits))
  }

  /**
   * Hits and no-hits partition the cleaned records: a record is a no-hit
   * exactly when its value is listed under its trait, and the two lists
   * together are as long as the cleaned list.
   */
  lemma SpinePartition(records: seq<TryRow>)
    requires SpineHits(records).Ok?
    ensures var s := SpineHits(records).value; var cleaned := SpineCleaned(records);
      |s.hits| + |s.noHits| == |cleaned|
      && (forall h :: h in cleaned ==> (h in s.noHits <==> DroppedBy(h, SpineValuesToDrop)))
      && (forall h :: h in cleaned ==> (h in s.hits <==> !DroppedBy(h, SpineValuesToDrop)))
  {
    var cleaned := SpineCleaned(records);
    FilterSplit(cleaned, Dropped(SpineValuesToDrop));
  }

  /** Every spine hit and no-hit has a spine trait; no trait name of either mentions hairs. */
  lemma SpineHitsMeaning(records: seq<TryRow>)
    requires SpineHits(records).Ok?
    ensures var s := SpineHits(records).value;
      (forall j :: 0 <= j < |s.hits| ==> s.hits[j].row.dataName in Keys(SpineValuesToDrop))
      && (forall j :: 0 <= j < |s.noHits| ==> s.noHits[j].row.dataName in Keys(SpineValuesToDrop))
      && !NameHas(s.hits, "hair") && !NameHas(s.noHits, "hair")
  {
    var s := SpineHits(records).value;
    forall j | 0 <= j < |s.noHits| ensures s.noHits[j].row.dataName in Keys(SpineValuesToDrop) {
      assert DroppedBy(s.noHits[j], SpineValuesToDrop);
      var k :| 0 <= k < |SpineValuesToDrop| && Listed(s.noHits[j], SpineValuesToDrop[k]);
      assert Keys(SpineValuesToDrop)[k] == SpineValuesToDrop[k].0;
    }
    var words: seq<string> := ["hair", "pubescence", "trichome"];
    assert words[0] == "hair";
  }

  /** `get_accepted_try_info_spine_hits`: clean, split into hits and no-hits, then validate. */
  method GetAcceptedTryInfoSpineHits(records: seq<TryRow>) returns (r: Result<SpineSplit>)
    ensures r == SpineHits(records)
  {
    var cleaned := SpineCleaned(records);
    var hits := DropListedValues(cleaned, SpineValuesToDrop);
    var noHits := Filter(cleaned, Dropped(SpineValuesToDrop));
    var unknown := FirstUnknown(hits, Keys(SpineValuesToDrop));
    if unknown.Some? {
      return Err("ValueError: Unknown spine dataname: " + unknown.value);
    }
    var word := FirstWordFound(["hair", "pubescence", "trichome"], hits, noHits);
    if word.Some? {
      return Err("ValueError: " + word.value + " found in Dataname column");
    }
    return Ok(SpineSplit(hits, noHits));
  }
}
