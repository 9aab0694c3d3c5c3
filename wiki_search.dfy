/**
 * Common names from Wikipedia list pages
 * (wikipedia_searches/search_pages.py, `search_for_common_names`).  The
 * pages of plant common names in six languages are fetched once; each
 * species found in some page text is output with the pages that mention it
 * and a snippet around its first mention in each.  Fetching a page is a
 * parameter; writing the CSV is left out.
 */
module WikiSearch {
  import opened Base
  import opened Strs

  /** One fetched page: its label `lan + ": " + page` and its text. */
  datatype Page = Page(source: string, text: string)

  /** The three lists of `out_dict`: 'Name', 'Wiki_Snippet' and 'Source'. */
  datatype WikiTable = WikiTable(names: seq<string>, snippets: seq<string>, sources: seq<string>)

  // ---- the pages searched ----

  const SwedishRootPage := "Lista_över_växter"
  const SwedishAlphabet: seq<string> :=
    ["A", "B", "C", "D", "E", "F", "G", "H", "I", "J", "K", "L", "M", "N", "O", "P", "Q", "R", "S", "T",
     "U", "V", "W", "X", "Y", "Z", "Å", "Ä", "Ö"]

  function SwedishTitles(): (r: seq<string>)
    ensures |r| == |SwedishAlphabet|
  {
    seq(|SwedishAlphabet|, i requires 0 <= i < |SwedishAlphabet| => SwedishRootPage + "/" + SwedishAlphabet[i])
  }

  /** The languages and their list pages, in the dictionary's order. */
  function PageNames(): seq<(string, seq<string>)>
  {
    [("en", ["List_of_plants_by_common_name"]),
     ("als", ["Alemannische_Pflanzennamen_(Botanische_Namen)",
              "Alemannische_Pflanzennamen_(nach_Systematik)",
              "Alemannische_Pflanzennamen_(Deutsche_Namen)",
              "Alemannische_Pflanzennamen_(nach_Dialekten)"]),
     ("lb", ["Lëscht_vu_lëtzebuergesche_Planzennimm"]),
     ("sv", SwedishTitles()),
     ("te", ["పుష్పాల_జాబితా"]),
     ("chr", ["ᏗᎦᎪᏗ_ᏚᎾᏙᎥ_ᏙᎪᏪᎸ"])]
  }

  /** `get_all_page_text`: the page's text, or "" when the reply has no parsed text (the KeyError branch). */
  function PageText(reply: Option<string>): string
  {
    if reply.Some? then reply.value else ""
  }

  /** The pages of one language, each labelled with the language. */
  function LanguagePages(lan: string, titles: seq<string>, fetch: (string, string) -> Option<string>): (r: seq<Page>)
    ensures |r| == |titles|
    ensures forall k :: 0 <= k < |titles| ==> r[k] == Page(lan + ": " + titles[k], PageText(fetch(lan, titles[k])))
  {
    seq(|titles|, k requires 0 <= k < |titles| => Page(lan + ": " + titles[k], PageText(fetch(lan, titles[k]))))
  }

  /** `page_texts`: the pages of every language in order, each fetched once. */
  function PageTexts(names: seq<(string, seq<string>)>, fetch: (string, string) -> Option<string>): (r: seq<Page>)
  {
    if |names| == 0 then []
    else
      var n := |names| - 1;
      PageTexts(names[..n], fetch) + LanguagePages(names[n].0, names[n].1, fetch)
  }

  /** The number of pages is the number of titles listed over all languages. */
  function TitleCount(names: seq<(string, seq<string>)>): nat
  {
    if |names| == 0 then 0 else TitleCount(names[..|names| - 1]) + |names[|names| - 1].1|
  }

  lemma {:induction false} PageTextsLength(names: seq<(string, seq<string>)>, fetch: (string, string) -> Option<string>)
    ensures |PageTexts(names, fetch)| == TitleCount(names)
  {
    if |names| > 0 {
      PageTextsLength(names[..|names| - 1], fetch);
    }
  }

  /** Thirty-seven pages are searched: one English, four Alemannic, one Luxembourgish, 29 Swedish, one Telugu, one Cherokee. */
  lemma PagesSearched(fetch: (string, string) -> Option<string>)
    ensures |PageTexts(PageNames(), fetch)| == 37
  {
    PageTextsLength(PageNames(), fetch);
    var p := PageNames();
    assert TitleCount(p[..1]) == 1 by {
      assert p[..1][..0] == [];
    }
    assert TitleCount(p[..2]) == 5 by {
      assert p[..2][..1] == p[..1];
    }
    assert TitleCount(p[..3]) == 6 by {
      assert p[..3][..2] == p[..2];
    }
    assert TitleCount(p[..4]) == 35 by {
      assert p[..4][..3] == p[..3];
    }
    assert TitleCount(p[..5]) == 36 by {
      assert p[..5][..4] == p[..4];
    }
    assert p[..6][..5] == p[..5] && p[..6] == p;
  }

  // ---- the search ----

  /** `text[i - 1:i + len(sp) + 1]` for the first occurrence i of sp, with Python's slice bounds. */
  function SnippetAround(text: string, sp: string): string
    requires Contains(text, sp)
  {
    var i := FirstIndex(text, sp);
    PySlice(text, i - 1, i + |sp| + 1)
  }

  /** The labels of the pages whose text contains sp, in page order. */
  function HitSources(sp: string, pages: seq<Page>): (r: seq<string>)
    ensures |r| <= |pages|
  {
    if |pages| == 0 then []
    else
      var n := |pages| - 1;
      HitSources(sp, pages[..n]) + (if Contains(pages[n].text, sp) then [pages[n].source] else [])
  }

  /** The snippets of those pages, one for each. */
  function HitSnippets(sp: string, pages: seq<Page>): (r: seq<string>)
    ensures |r| == |HitSources(sp, pages)|
  {
    if |pages| == 0 then []
    else
      var n := |pages| - 1;
      HitSnippets(sp, pages[..n]) + (if Contains(pages[n].text, sp) then [SnippetAround(pages[n].text, sp)] else [])
  }

  function SourceText(hits: seq<string>): string
  {
    "Wiki (" + PyListRepr(hits) + ")"
  }

  /**
   * `out_dict` after the species: a species with at least one hitting page
   * adds its name, its snippets and its sources; a missing (non-string)
   * species raises TypeError on `sp in text` and is passed over.
   */
  function Entries(species: seq<Cell>, pages: seq<Page>): (t: WikiTable)
    ensures |t.names| == |t.snippets| == |t.sources| <= |species|
  {
    if |species| == 0 then WikiTable([], [], [])
    else
      var n := |species| - 1;
      var t := Entries(species[..n], pages);
      match species[n]
      case None => t
      case Some(sp) =>
        var hits := HitSources(sp, pages);
        if |hits| > 0 then
          WikiTable(t.names + [sp], t.snippets + [PyListRepr(HitSnippets(sp, pages))], t.sources + [SourceText(hits)])
        else t
  }

  /** A page label is among the hits of sp exactly when some page of that label contains sp. */
  lemma {:induction false} HitSourcesMembers(sp: string, pages: seq<Page>, x: string)
    ensures x in HitSources(sp, pages) <==> exists k :: 0 <= k < |pages| && pages[k].source == x && Contains(pages[k].text, sp)
  {
    if |pages| > 0 {
      var n := |pages| - 1;
      HitSourcesMembers(sp, pages[..n], x);
      assert forall k :: 0 <= k < n ==> pages[..n][k] == pages[k];
    }
  }

  /** A species has hits exactly when some page text contains it. */
  lemma {:induction false} HitsWhenMentioned(sp: string, pages: seq<Page>)
    ensures |HitSources(sp, pages)| > 0 <==> exists k :: 0 <= k < |pages| && Contains(pages[k].text, sp)
  {
    if |pages| > 0 {
      var n := |pages| - 1;
      HitsWhenMentioned(sp, pages[..n]);
      assert forall k :: 0 <= k < n ==> pages[..n][k] == pages[k];
    }
  }

  /** A name is output exactly when it is one of the (present) species and some page text contains it. */
  lemma {:induction false} NameOutput(species: seq<Cell>, pages: seq<Page>, x: string)
    ensures x in Entries(species, pages).names <==> Some(x) in species && |HitSources(x, pages)| > 0
  {
    if |species| > 0 {
      var n := |species| - 1;
      NameOutput(species[..n], pages, x);
      NamesSnoc(species, pages);
      CellInSnoc(species, Some(x));
    }
  }

  /** The last species adds its name when it is present and some page mentions it. */
  lemma NamesSnoc(species: seq<Cell>, pages: seq<Page>)
    requires |species| > 0
    ensures var n := |species| - 1; var sp := species[n];
      Entries(species, pages).names
      == Entries(species[..n], pages).names + (if sp.Some? && |HitSources(sp.value, pages)| > 0 then [sp.value] else [])
  {
  }

  lemma CellInSnoc(s: seq<Cell>, c: Cell)
    requires |s| > 0
    ensures c in s <==> c in s[..|s| - 1] || s[|s| - 1] == c
  {
    assert s == s[..|s| - 1] + [s[|s| - 1]];
  }

  /** Entry r holds its name's snippets and the labels of the pages that mention it. */
  lemma {:induction false} EntryContents(species: seq<Cell>, pages: seq<Page>, r: nat)
    requires r < |Entries(species, pages).names|
    ensures var t := Entries(species, pages);
      t.sources[r] == SourceText(HitSources(t.names[r], pages)) && t.snippets[r] == PyListRepr(HitSnippets(t.names[r], pages)) &&
      |HitSources(t.names[r], pages)| > 0
  {
    var n := |species| - 1;
    if r < |Entries(species[..n], pages).names| {
      EntryContents(species[..n], pages, r);
    }
  }

  /** A species not found anywhere, or missing, adds nothing. */
  lemma UnmatchedSpeciesAddsNothing(species: seq<Cell>, sp: Cell, pages: seq<Page>)
    requires sp.None? || |HitSources(sp.value, pages)| == 0
    ensures Entries(species + [sp], pages) == Entries(species, pages)
  {
    assert (species + [sp])[..|species|] == species;
  }

  /** Past the first character, the snippet is the name with at most one character on each side. */
  lemma SnippetHoldsName(text: string, sp: string)
    requires Contains(text, sp) && FirstIndex(text, sp) >= 1
    ensures ContainsAt(SnippetAround(text, sp), sp, 1)
    ensures |sp| + 1 <= |SnippetAround(text, sp)| <= |sp| + 2
  {
    var i := FirstIndex(text, sp);
    var s := SnippetAround(text, sp);
    var b := PyIndex(i + |sp| + 1, |text|);
    assert s == text[i - 1..b];
    assert text[i..i + |sp|] == sp;
    forall m | 0 <= m < |sp| ensures s[1..1 + |sp|][m] == sp[m] {
      assert s[1 + m] == text[i + m];
    }
  }

  /**
   * At the very start of a text the slice start -1 counts from the end: a
   * name that opens a text at least two characters longer gets an empty
   * snippet, and one that opens a text at most one character longer gets
   * the text's last character.
   */
  lemma SnippetAtStart(text: string, sp: string)
    requires Contains(text, sp) && FirstIndex(text, sp) == 0
    ensures |text| >= |sp| + 2 ==> SnippetAround(text, sp) == ""
    ensures 1 <= |text| < |sp| + 2 ==> SnippetAround(text, sp) == [text[|text| - 1]]
  {
    assert ContainsAt(text, sp, 0);
    if 1 <= |text| < |sp| + 2 {
      assert PyIndex(-1, |text|) == |text| - 1 && PyIndex(|sp| + 1, |text|) == |text|;
    }
  }

  /** "Rosa" opening "Rosa canina" gives an empty snippet, and "Rosa" alone gives "a". */
  lemma SnippetAtStartExamples()
    ensures Contains("Rosa canina", "Rosa") && SnippetAround("Rosa canina", "Rosa") == ""
    ensures Contains("Rosa", "Rosa") && SnippetAround("Rosa", "Rosa") == "a"
  {
    assert ContainsAt("Rosa canina", "Rosa", 0);
    assert ContainsAt("Rosa", "Rosa", 0);
    SnippetAtStart("Rosa canina", "Rosa");
    SnippetAtStart("Rosa", "Rosa");
  }

  // ---- the loops ----

  /** The inner loop over the pages for one species. */
  method PageHits(sp: string, pages: seq<Page>) returns (hits: seq<string>, snippets: seq<string>)
    ensures hits == HitSources(sp, pages) && snippets == HitSnippets(sp, pages)
  {
    hits, snippets := [], [];
    var k := 0;
    while k < |pages|
      invariant k <= |pages|
      invariant hits == HitSources(sp, pages[..k]) && snippets == HitSnippets(sp, pages[..k])
    {
      assert pages[..k + 1][..k] == pages[..k];
      if Contains(pages[k].text, sp) {
        hits := hits + [pages[k].source];
        var i := FirstIndex(pages[k].text, sp);
        snippets := snippets + [PySlice(pages[k].text, i - 1, i + |sp| + 1)];
      }
      k := k + 1;
    }
    assert pages[..k] == pages;
  }

  /** `search_for_common_names` on the fetched pages: the loop over the species filling `out_dict`. */
  method SearchForCommonNames(species: seq<Cell>, pages: seq<Page>) returns (t: WikiTable)
    ensures t == Entries(species, pages)
  {
    t := WikiTable([], [], []);
    var j := 0;
    while j < |species|
      invariant j <= |species|
      invariant t == Entries(species[..j], pages)
    {
      t := AddSpecies(species, pages, j, t);
      j := j + 1;
    }
    assert species[..j] == species;
  }

  /** The loop body for species j (the `try` block). */
  method AddSpecies(species: seq<Cell>, pages: seq<Page>, j: nat, t: WikiTable) returns (t': WikiTable)
    requires j < |species| && t == Entries(species[..j], pages)
    ensures t' == Entries(species[..j + 1], pages)
  {
    assert species[..j + 1][..j] == species[..j];
    t' := t;
    if species[j].Some? {
      var sp := species[j].value;
      var hits, snippets := PageHits(sp, pages);
      if |hits| > 0 {
        t' := WikiTable(t.names + [sp], t.snippets + [PyListRepr(snippets)], t.sources + [SourceText(hits)]);
      }
    }
  }
}
