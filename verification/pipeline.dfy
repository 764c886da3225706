/**
 * How the two halves meet: the staging rows written by scrape/scrape_lords.py
 * are read back by scripts/import_to_sqlite.py. Absent values travel as ""
 * and come back as NULL, numbers travel as `str(n)` and come back as `n`.
 */
module Pipeline {
  import opened Wrappers
  import opened Numbers
  import opened Ordering
  import opened Html
  import Infobox
  import Traits
  import opened Staging
  import opened Importer

  /** An optional age or level written by `main` is read back unchanged: "" as NULL, `str(n)` as `n`. */
  lemma NatCellRoundTrip(n: Option<nat>)
    ensures IntField(NatCell(n)) == Ok(if n.Some? then Some(n.value as int) else None)
  {
    if n.Some? {
      DecimalRoundTrip(n.value);
    }
  }

  /** An optional skill value written by `main` is read back unchanged. */
  lemma IntCellRoundTrip(n: Option<int>)
    ensures IntField(IntCell(n)) == Ok(n)
  {
    if n.Some? {
      DecimalRoundTrip(n.value);
    }
  }

  /**
   * The `lords` row of a scraped title: the number columns round-trip, a
   * missing or empty gender becomes NULL, and the name is never empty when
   * the title is not.
   */
  lemma LordRoundTrip(id: nat, title: string, info: Infobox.Fields, traits: seq<string>)
    ensures var r := RecordOf(id, LordRowOf(title, info, traits));
      && r.Ok?
      && r.value.lordId == id && r.value.extId == Slugify(title)
      && r.value.age == (if info.age.Some? then Some(info.age.value as int) else None)
      && r.value.level == (if info.level.Some? then Some(info.level.value as int) else None)
      && (r.value.gender.None? <==> info.gender.None? || info.gender.value == [])
      && (title != [] ==> r.value.name != [])
  {
    NatCellRoundTrip(info.age);
    NatCellRoundTrip(info.level);
  }

  /** The denormalised `traits` column of a scraped page is NULL exactly when the page yields no traits. */
  lemma TraitsColumnNullIffNone(title: string, info: Infobox.Fields, blocks: seq<Block>)
    ensures var traits := Traits.ExtractTraits(blocks);
      NonEmpty(LordRowOf(title, info, traits).traits).None? <==> traits == []
  {
    var traits := Traits.ExtractTraits(blocks);
    Traits.CleanTraitsShape(Traits.RawTraits(blocks));
    if |traits| == 1 {
      assert traits[0] in traits;
    }
  }

  /** Every number cell of the staging tables is blank or a decimal integer. */
  predicate CellsParse(s: Staged) {
    && (forall i :: 0 <= i < |s.lords| ==> IntField(s.lords[i].age).Ok? && IntField(s.lords[i].level).Ok?)
    && (forall j :: 0 <= j < |s.skills| ==> IntField(s.skills[j].value).Ok?)
  }

  /** Every number cell of the staging tables that parses is one SQLite can store. */
  predicate CellsFit(s: Staged) {
    && (forall i :: 0 <= i < |s.lords| ==> RowFits(s.lords[i]))
    && (forall j :: 0 <= j < |s.skills| ==> CellFits(s.skills[j].value))
  }

  lemma ScrapePageCellsParse(title: string, page: Page)
    ensures CellsParse(ScrapePage(title, page))
  {
    var s := ScrapePage(title, page);
    var info := Infobox.ParseInfobox(page);
    var traits := Traits.ExtractTraits(page.blocks);
    LordCellsParse(title, info, traits);
    PageCellsParse(s, LordRowOf(title, info, traits), Skills.ExtractSkills(page.tables));
  }

  /** A page's rows parse when its lords row does and its skill cells are written by `IntCell`. */
  lemma PageCellsParse(s: Staged, row: LordRow, skills: Skills.SkillMap)
    requires s.lords == [row] && IntField(row.age).Ok? && IntField(row.level).Ok?
    requires |s.skills| == |skills.order|
    requires forall k :: 0 <= k < |skills.order| ==>
      skills.order[k] in skills.values && s.skills[k].value == IntCell(skills.values[skills.order[k]])
    ensures CellsParse(s)
  {
    forall j | 0 <= j < |s.skills| ensures IntField(s.skills[j].value).Ok? {
      IntCellRoundTrip(skills.values[skills.order[j]]);
    }
  }

  lemma LordCellsParse(title: string, info: Infobox.Fields, traits: seq<string>)
    ensures IntField(LordRowOf(title, info, traits).age).Ok? && IntField(LordRowOf(title, info, traits).level).Ok?
  {
    NatCellRoundTrip(info.age);
    NatCellRoundTrip(info.level);
  }

  /** Every number cell the scraper writes is one the importer can read. */
  lemma {:induction false} ScrapeCellsParse(titles: seq<string>, pageOf: string -> Page)
    ensures CellsParse(ScrapeTitles(titles, pageOf))
    decreases |titles|
  {
    if |titles| > 0 {
      var head := ScrapePage(titles[0], pageOf(titles[0]));
      var rest := ScrapeTitles(titles[1..], pageOf);
      ScrapePageCellsParse(titles[0], pageOf(titles[0]));
      ScrapeCellsParse(titles[1..], pageOf);
      AppendCellsParse(head, rest);
    }
  }

  lemma AppendCellsParse(a: Staged, b: Staged)
    requires CellsParse(a) && CellsParse(b)
    ensures CellsParse(Append(a, b))
  {
    var s := Append(a, b);
    forall i | 0 <= i < |s.lords| ensures IntField(s.lords[i].age).Ok? && IntField(s.lords[i].level).Ok? {
      if i >= |a.lords| {
        assert s.lords[i] == b.lords[i - |a.lords|];
      }
    }
    forall j | 0 <= j < |s.skills| ensures IntField(s.skills[j].value).Ok? {
      if j >= |a.skills| {
        assert s.skills[j] == b.skills[j - |a.skills|];
      }
    }
  }

  /**
   * Importing staging tables whose number cells parse and fit in 64 bits,
   * whose ext_ids are distinct and whose trait rows all name a staged lord:
   * the import succeeds and drops no trait row.
   */
  lemma ImportAcceptsStaged(s: Staged, hash: string -> int)
    requires CellsParse(s) && CellsFit(s) && Distinct(ExtIds(s.lords))
    requires forall t :: t in s.traits ==> t.extId in ExtIds(s.lords)
    ensures var r := Run(s.lords, Some(s.traits), Some(s.skills), hash);
      && r.Ok?
      && |r.value.lords| == |s.lords|
      && forall t :: t in s.traits ==> exists i :: 0 <= i < |s.lords| && s.lords[i].extId == t.extId && (i + 1, t.text) in r.value.traits
  {
    RunOkIff(s.lords, Some(s.traits), Some(s.skills), hash);
    var r := Run(s.lords, Some(s.traits), Some(s.skills), hash);
    forall t | t in s.traits
      ensures exists i :: 0 <= i < |s.lords| && s.lords[i].extId == t.extId && (i + 1, t.text) in r.value.traits
    {
      var i :| 0 <= i < |s.lords| && ExtIds(s.lords)[i] == t.extId;
      var j :| 0 <= j < |s.traits| && s.traits[j] == t;
      TraitRowKept(s, hash, i, j);
    }
  }

  lemma TraitRowKept(s: Staged, hash: string -> int, i: nat, j: nat)
    requires Run(s.lords, Some(s.traits), Some(s.skills), hash).Ok?
    requires i < |s.lords| && j < |s.traits| && s.traits[j].extId == s.lords[i].extId
    ensures (i + 1, s.traits[j].text) in Run(s.lords, Some(s.traits), Some(s.skills), hash).value.traits
  {
    var ts := Some(s.traits).GetOr([]);
    assert ts == s.traits;
    TraitsResolved(s.lords, Some(s.traits), Some(s.skills), hash, (i + 1, s.traits[j].text));
    assert ts[j].extId == s.lords[i].extId;
  }

  /**
   * Importing what the scraper staged: as long as no two titles share an
   * ext_id and no scraped number exceeds SQLite's 64-bit range, the import
   * succeeds, creates one lord per title in order, and drops no trait row,
   * because every staged row names a staged lord.
   */
  lemma ImportAcceptsScrape(lines: seq<string>, pageOf: string -> Page, hash: string -> int)
    requires Distinct(ExtIds(Scrape(lines, pageOf).lords)) && CellsFit(Scrape(lines, pageOf))
    ensures var s := Scrape(lines, pageOf);
      var r := Run(s.lords, Some(s.traits), Some(s.skills), hash);
      && r.Ok?
      && |r.value.lords| == |Titles(lines)|
      && forall t :: t in s.traits ==> exists i :: 0 <= i < |s.lords| && s.lords[i].extId == t.extId && (i + 1, t.text) in r.value.traits
  {
    ScrapeCellsParse(Titles(lines), pageOf);
    ImportAcceptsStaged(Scrape(lines, pageOf), hash);
  }

  /**
   * The scraper keeps every digit of an age, so a scraped age beyond
   * SQLite's range reaches the importer, whose lords insert raises
   * OverflowError on it.
   */
  lemma ScrapedOverflowRejected(title: string, info: Infobox.Fields, traits: seq<string>,
                                hash: string -> int, ts: Option<seq<TraitRow>>, ss: Option<seq<SkillRow>>)
    requires info.age.Some? && info.age.value > SqliteMax
    ensures Run([LordRowOf(title, info, traits)], ts, ss, hash) == Err(Overflow)
  {
    var lords := [LordRowOf(title, info, traits)];
    LordCellsParse(title, info, traits);
    NatCellRoundTrip(info.age);
    assert RecordOf(1, lords[0]).Ok?;
    assert !RowFits(lords[0]);
    LordsInsertFailsAt(lords, 0);
  }
}
