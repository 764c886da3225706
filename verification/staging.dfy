/**
 * The per-title row construction of `main` (scrape/scrape_lords.py): from a
 * title and its extracted record, the staging rows written to lords.csv,
 * lord_traits.csv and lord_skills.csv. Every cell is the text the CSV writer
 * produces for it (`str(n)` for integers, "" for `None` and "").
 */
module Staging {
  import opened Wrappers
  import opened Text
  import opened Numbers
  import opened Html
  import Infobox
  import Traits
  import Skills

  /** A row of lords.csv, in its column order. */
  datatype LordRow = LordRow(
    extId: string, name: string, gender: string, age: string, cultureId: string,
    level: string, spPerLvl: string, sumStats: string, traits: string, sourceUrl: string)

  /** A row of lord_traits.csv. */
  datatype TraitRow = TraitRow(extId: string, text: string)

  /** A row of lord_skills.csv. */
  datatype SkillRow = SkillRow(extId: string, skillKey: string, value: string)

  /** The three staging tables. */
  datatype Staged = Staged(lords: seq<LordRow>, traits: seq<TraitRow>, skills: seq<SkillRow>)

  const WikiBase: string := "https://bannerlord.fandom.com/wiki/"

  /** The separator between traits in the denormalised `traits` column. */
  const TraitSeparator: string := "; "

  /** `slugify`: every space becomes an underscore, every other character stays. */
  function Slugify(title: string): (r: string)
    ensures |r| == |title|
    ensures forall i :: 0 <= i < |r| ==> r[i] != ' '
    ensures forall i :: 0 <= i < |r| && title[i] != ' ' ==> r[i] == title[i]
    ensures forall i :: 0 <= i < |r| && title[i] == ' ' ==> r[i] == '_'
  {
    ReplaceChar(title, ' ', '_')
  }

  /** Two different titles can share an ext_id. */
  lemma SlugifyNotInjective()
    ensures "A B" != "A_B" && Slugify("A B") == Slugify("A_B")
  {
    assert "A B"[1] != "A_B"[1];
    assert Slugify("A B") == "A_B";
  }

  /** `n if n is not None else ""` as the CSV writer prints it. */
  function NatCell(n: Option<nat>): (cell: string)
    ensures n.None? <==> cell == []
  {
    match n
    case None => []
    case Some(v) => NatToDecimal(v)
  }

  /** `v if v is not None else ""` for a skill value. */
  function IntCell(n: Option<int>): (cell: string)
    ensures n.None? <==> cell == []
  {
    match n
    case None => []
    case Some(v) => IntToDecimal(v)
  }

  /** The lords.csv row of one title. */
  function LordRowOf(title: string, info: Infobox.Fields, traits: seq<string>): (row: LordRow)
    ensures row.extId == Slugify(title)
    ensures row.name == (if info.name.Some? && info.name.value != [] then info.name.value else title)
    ensures row.gender == info.gender.GetOr([])
    ensures row.age == NatCell(info.age) && row.level == NatCell(info.level)
    ensures row.cultureId == [] && row.spPerLvl == [] && row.sumStats == []
    ensures row.traits == [] <==> traits == [] || (|traits| == 1 && traits[0] == [])
    ensures row.sourceUrl == WikiBase + row.extId
  {
    var extId := Slugify(title);
    var name := if info.name.Some? && info.name.value != [] then info.name.value else title;
    LordRow(extId, name, info.gender.GetOr([]), NatCell(info.age), [], NatCell(info.level),
            [], [], if |traits| > 0 then Join(TraitSeparator, traits) else [], WikiBase + extId)
  }

  function TraitRowsOf(extId: string, traits: seq<string>): (rows: seq<TraitRow>)
    ensures |rows| == |traits|
    ensures forall i :: 0 <= i < |rows| ==> rows[i] == TraitRow(extId, traits[i])
  {
    seq(|traits|, i requires 0 <= i < |traits| => TraitRow(extId, traits[i]))
  }

  /** `for k, v in skills.items()`: one row per key, in the dict's insertion order. */
  function SkillRowsOf(extId: string, skills: Skills.SkillMap): (rows: seq<SkillRow>)
    requires skills.Valid()
    ensures |rows| == |skills.order|
    ensures forall i :: 0 <= i < |rows| ==>
      rows[i] == SkillRow(extId, skills.order[i], IntCell(skills.values[skills.order[i]]))
  {
    seq(|skills.order|, i requires 0 <= i < |skills.order| =>
      assert skills.order[i] in skills.values;
      SkillRow(extId, skills.order[i], IntCell(skills.values[skills.order[i]])))
  }

  /** The lords.csv row of a title, from the infobox and the traits its page yields. */
  function LordOfPage(title: string, page: Page): LordRow {
    LordRowOf(title, Infobox.ParseInfobox(page), Traits.ExtractTraits(page.blocks))
  }

  /**
   * The rows one title adds to the three tables: its lords row from the
   * infobox and the traits, one trait row per extracted trait in order, and
   * one skill row per key of the extracted skills in the dict's order.
   */
  function ScrapePage(title: string, page: Page): (s: Staged)
    ensures |s.lords| == 1 && s.lords[0].extId == Slugify(title)
    ensures forall r :: r in s.traits ==> r.extId == Slugify(title)
    ensures forall r :: r in s.skills ==> r.extId == Slugify(title)
    ensures s.lords[0] == LordOfPage(title, page)
    ensures var traits := Traits.ExtractTraits(page.blocks);
      |s.traits| == |traits| && forall k :: 0 <= k < |traits| ==> s.traits[k].text == traits[k]
    ensures var skills := Skills.ExtractSkills(page.tables);
      && |s.skills| == |skills.order|
      && forall k :: 0 <= k < |skills.order| ==>
           && s.skills[k].skillKey == skills.order[k]
           && skills.order[k] in skills.values
           && s.skills[k].value == IntCell(skills.values[skills.order[k]])
  {
    var info := Infobox.ParseInfobox(page);
    var traits := Traits.ExtractTraits(page.blocks);
    var skills := Skills.ExtractSkills(page.tables);
    var extId := Slugify(title);
    Staged([LordRowOf(title, info, traits)], TraitRowsOf(extId, traits), SkillRowsOf(extId, skills))
  }

  /** The titles `main` processes: every line stripped, blank ones skipped. */
  function Titles(lines: seq<string>): (ts: seq<string>)
    ensures forall t :: t in ts ==> t != [] && Strip(t) == t
    ensures forall t :: t in ts ==> exists i :: 0 <= i < |lines| && Strip(lines[i]) == t
    ensures forall i :: 0 <= i < |lines| && Strip(lines[i]) != [] ==> Strip(lines[i]) in ts
    decreases |lines|
  {
    if |lines| == 0 then []
    else
      var rest := Titles(lines[1..]);
      TitlesStep(lines, rest);
      LineTitle(lines[0]) + rest
  }

  /** What one line contributes: its strip, unless that is empty. */
  function LineTitle(line: string): (ts: seq<string>)
    ensures |ts| <= 1
    ensures ts == [] <==> Strip(line) == []
    ensures forall t :: t in ts ==> t == Strip(line)
  {
    if Strip(line) != [] then [Strip(line)] else []
  }

  lemma TitlesStep(lines: seq<string>, rest: seq<string>)
    requires |lines| > 0
    requires forall t :: t in rest ==> t != [] && Strip(t) == t
    requires forall t :: t in rest ==> exists i :: 0 <= i < |lines| - 1 && Strip(lines[1..][i]) == t
    requires forall i :: 0 <= i < |lines| - 1 && Strip(lines[1..][i]) != [] ==> Strip(lines[1..][i]) in rest
    ensures var ts := LineTitle(lines[0]) + rest;
      && (forall t :: t in ts ==> t != [] && Strip(t) == t)
      && (forall t :: t in ts ==> exists i :: 0 <= i < |lines| && Strip(lines[i]) == t)
      && (forall i :: 0 <= i < |lines| && Strip(lines[i]) != [] ==> Strip(lines[i]) in ts)
  {
    StripIdempotent(lines[0]);
    var ts := LineTitle(lines[0]) + rest;
    forall t | t in rest ensures exists i :: 0 <= i < |lines| && Strip(lines[i]) == t {
      var i :| 0 <= i < |lines| - 1 && Strip(lines[1..][i]) == t;
      assert lines[1..][i] == lines[i + 1];
    }
    forall i | 1 <= i < |lines| && Strip(lines[i]) != [] ensures Strip(lines[i]) in ts {
      assert lines[i] == lines[1..][i - 1];
    }
  }

  /**
   * Titles are read line by line: the titles of two consecutive runs of
   * lines are the titles of the first followed by those of the second, so
   * the processed titles keep file order, one per non-blank line.
   */
  lemma {:induction false} TitlesAppend(a: seq<string>, b: seq<string>)
    ensures Titles(a + b) == Titles(a) + Titles(b)
    decreases |a|
  {
    if |a| == 0 {
      assert a + b == b;
    } else {
      assert (a + b)[0] == a[0];
      assert (a + b)[1..] == a[1..] + b;
      TitlesAppend(a[1..], b);
    }
  }

  /** A single line yields its strip as a title, or nothing when it is blank. */
  lemma TitlesOfLine(line: string)
    ensures Titles([line]) == LineTitle(line)
  {
    assert [line][1..] == [];
  }

  function ExtIds(lords: seq<LordRow>): (ids: seq<string>)
    ensures |ids| == |lords|
    ensures forall i :: 0 <= i < |lords| ==> ids[i] == lords[i].extId
  {
    seq(|lords|, i requires 0 <= i < |lords| => lords[i].extId)
  }

  /**
   * The loop of `main` over titles: one lords row per title in order, and
   * every trait and skill row names the ext_id of one of those lords.
   */
  function ScrapeTitles(titles: seq<string>, pageOf: string -> Page): (s: Staged)
    ensures |s.lords| == |titles|
    ensures forall i :: 0 <= i < |titles| ==> s.lords[i].extId == Slugify(titles[i])
    ensures s.lords == PageLords(titles, pageOf)
    ensures forall r :: r in s.traits ==> r.extId in ExtIds(s.lords)
    ensures forall r :: r in s.skills ==> r.extId in ExtIds(s.lords)
    decreases |titles|
  {
    if |titles| == 0 then Staged([], [], [])
    else
      var head := ScrapePage(titles[0], pageOf(titles[0]));
      var rest := ScrapeTitles(titles[1..], pageOf);
      AppendKeepsReferences(head, rest);
      AppendKeepsOrder(titles, head, rest);
      Append(head, rest)
  }

  /** The lords.csv rows of `titles`, one per title in order. */
  function PageLords(titles: seq<string>, pageOf: string -> Page): seq<LordRow> {
    MapTitles(titles, t => LordOfPage(t, pageOf(t)))
  }

  /** `[f(t) for t in titles]`. */
  function MapTitles<T>(titles: seq<string>, f: string -> T): seq<T>
    decreases |titles|
  {
    if |titles| == 0 then [] else [f(titles[0])] + MapTitles(titles[1..], f)
  }

  lemma {:induction false} MapTitlesAt<T>(titles: seq<string>, f: string -> T, i: nat)
    requires i < |titles|
    ensures |MapTitles(titles, f)| == |titles|
    ensures MapTitles(titles, f)[i] == f(titles[i])
    decreases i
  {
    MapTitlesLength(titles, f);
    if i > 0 {
      MapTitlesAt(titles[1..], f, i - 1);
      assert titles[1..][i - 1] == titles[i];
    }
  }

  lemma {:induction false} MapTitlesLength<T>(titles: seq<string>, f: string -> T)
    ensures |MapTitles(titles, f)| == |titles|
    decreases |titles|
  {
    if |titles| > 0 {
      MapTitlesLength(titles[1..], f);
    }
  }

  /** The `i`-th lords row belongs to the `i`-th title and its page. */
  lemma PageLordsAt(titles: seq<string>, pageOf: string -> Page, i: nat)
    requires i < |titles|
    ensures |PageLords(titles, pageOf)| == |titles|
    ensures PageLords(titles, pageOf)[i] == LordOfPage(titles[i], pageOf(titles[i]))
  {
    MapTitlesAt(titles, t => LordOfPage(t, pageOf(t)), i);
  }

  /**
   * The loop over titles is a concatenation: the tables for two runs of
   * titles are the tables for the first run followed by those for the second.
   * With `ScrapeTitlesOne`, every row of every table belongs to its title's
   * page, in title order.
   */
  lemma {:induction false} ScrapeTitlesAppend(a: seq<string>, b: seq<string>, pageOf: string -> Page)
    ensures ScrapeTitles(a + b, pageOf) == Append(ScrapeTitles(a, pageOf), ScrapeTitles(b, pageOf))
    decreases |a|
  {
    if |a| == 0 {
      assert a + b == b;
      var t := ScrapeTitles(b, pageOf);
      assert Append(Staged([], [], []), t) == Staged([] + t.lords, [] + t.traits, [] + t.skills);
      assert [] + t.lords == t.lords && [] + t.traits == t.traits && [] + t.skills == t.skills;
    } else {
      assert (a + b)[0] == a[0];
      assert (a + b)[1..] == a[1..] + b;
      ScrapeTitlesAppend(a[1..], b, pageOf);
      AppendAssoc(ScrapePage(a[0], pageOf(a[0])), ScrapeTitles(a[1..], pageOf), ScrapeTitles(b, pageOf));
    }
  }

  lemma AppendAssoc(x: Staged, y: Staged, z: Staged)
    ensures Append(x, Append(y, z)) == Append(Append(x, y), z)
  {
    assert x.lords + (y.lords + z.lords) == (x.lords + y.lords) + z.lords;
    assert x.traits + (y.traits + z.traits) == (x.traits + y.traits) + z.traits;
    assert x.skills + (y.skills + z.skills) == (x.skills + y.skills) + z.skills;
  }

  /** A single title yields exactly the rows of its own page. */
  lemma ScrapeTitlesOne(title: string, pageOf: string -> Page)
    ensures ScrapeTitles([title], pageOf) == ScrapePage(title, pageOf(title))
  {
    assert [title][1..] == [];
    AppendEmpty(ScrapePage(title, pageOf(title)));
  }

  lemma AppendEmpty(x: Staged)
    ensures Append(x, Staged([], [], [])) == x
  {
    assert x.lords + [] == x.lords && x.traits + [] == x.traits && x.skills + [] == x.skills;
  }

  lemma AppendKeepsOrder(titles: seq<string>, head: Staged, rest: Staged)
    requires |titles| > 0 && |head.lords| == 1 && head.lords[0].extId == Slugify(titles[0])
    requires |rest.lords| == |titles| - 1
    requires forall i :: 0 <= i < |titles| - 1 ==> rest.lords[i].extId == Slugify(titles[1..][i])
    ensures |Append(head, rest).lords| == |titles|
    ensures forall i :: 0 <= i < |titles| ==> Append(head, rest).lords[i].extId == Slugify(titles[i])
  {
    forall i | 1 <= i < |titles| ensures Append(head, rest).lords[i].extId == Slugify(titles[i]) {
      assert titles[i] == titles[1..][i - 1];
    }
  }

  /** The rows of `a` followed by the rows of `b`, table by table. */
  function Append(a: Staged, b: Staged): Staged {
    Staged(a.lords + b.lords, a.traits + b.traits, a.skills + b.skills)
  }

  lemma AppendKeepsReferences(a: Staged, b: Staged)
    requires forall r :: r in a.traits ==> r.extId in ExtIds(a.lords)
    requires forall r :: r in a.skills ==> r.extId in ExtIds(a.lords)
    requires forall r :: r in b.traits ==> r.extId in ExtIds(b.lords)
    requires forall r :: r in b.skills ==> r.extId in ExtIds(b.lords)
    ensures forall r :: r in Append(a, b).traits ==> r.extId in ExtIds(Append(a, b).lords)
    ensures forall r :: r in Append(a, b).skills ==> r.extId in ExtIds(Append(a, b).lords)
  {
    assert ExtIds(a.lords + b.lords) == ExtIds(a.lords) + ExtIds(b.lords);
  }

  /** `main` without the file I/O: `pageOf` stands for fetching and parsing a title's page. */
  function Scrape(lines: seq<string>, pageOf: string -> Page): (s: Staged)
    ensures |s.lords| == |Titles(lines)|
    ensures s.lords == PageLords(Titles(lines), pageOf)
    ensures forall r :: r in s.traits ==> r.extId in ExtIds(s.lords)
    ensures forall r :: r in s.skills ==> r.extId in ExtIds(s.lords)
  {
    ScrapeTitles(Titles(lines), pageOf)
  }
}
