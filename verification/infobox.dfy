/**
 * `parse_infobox` (scrape/scrape_lords.py): a ranked fallback over the page
 * heading, the `data-source` items of the chosen infobox container, and the
 * `<th>`/`<td>` rows of that same container.
 */
module Infobox {
  import opened Wrappers
  import opened Text
  import opened Numbers
  import opened Html

  /** The dict `parse_infobox` returns. */
  datatype Fields = Fields(name: Option<string>, age: Option<nat>, gender: Option<string>, level: Option<nat>)

  const Empty := Fields(None, None, None, None)

  /** The portable infobox if the page has one, else the classic infobox table. */
  function Chosen(page: Page): (c: Option<Container>)
    ensures page.portable.Some? ==> c == page.portable
    ensures page.portable.None? ==> c == page.classic
  {
    if page.portable.Some? then page.portable else page.classic
  }

  /** The key of a `data-source` item: the attribute stripped and lower-cased. */
  function ItemLabel(item: DataItem): string {
    Lower(Strip(item.source))
  }

  /** The field a `data-source` item feeds: none when its text is empty or its label unknown. */
  datatype Slot = AgeSlot | GenderSlot | LevelSlot | NoSlot

  function ItemSlot(item: DataItem): (slot: Slot)
    ensures slot == AgeSlot <==> item.text != [] && ItemLabel(item) == "age"
    ensures slot == GenderSlot <==> item.text != [] && ItemLabel(item) in {"gender", "sex"}
    ensures slot == LevelSlot <==> item.text != [] && ItemLabel(item) == "level"
  {
    var key := ItemLabel(item);
    if item.text == [] then NoSlot
    else if key == "age" then AgeSlot
    else if key == "gender" || key == "sex" then GenderSlot
    else if key == "level" then LevelSlot
    else NoSlot
  }

  /** One step of the `data-source` loop: a non-empty item with a known label overwrites its field. */
  function ApplyItem(f: Fields, item: DataItem): (g: Fields)
    ensures ItemSlot(item) == AgeSlot ==> g == f.(age := SearchNat(item.text))
    ensures ItemSlot(item) == GenderSlot ==> g == f.(gender := Some(item.text))
    ensures ItemSlot(item) == LevelSlot ==> g == f.(level := SearchNat(item.text))
    ensures ItemSlot(item) == NoSlot ==> g == f
  {
    match ItemSlot(item)
    case AgeSlot => f.(age := SearchNat(item.text))
    case GenderSlot => f.(gender := Some(item.text))
    case LevelSlot => f.(level := SearchNat(item.text))
    case NoSlot => f
  }

  /** The `data-source` loop over the container's items, in document order. */
  function ApplyItems(f: Fields, items: seq<DataItem>): Fields
    decreases |items|
  {
    if |items| == 0 then f else ApplyItems(ApplyItem(f, items[0]), items[1..])
  }

  /**
   * One step of the `<th>`/`<td>` fallback loop: a row with both cells fills
   * the first still-unset field, checked in the order age, gender, level, whose
   * name occurs in the lower-cased key.
   */
  function ApplyRow(f: Fields, row: Row): (g: Fields)
    ensures g.name == f.name
    ensures f.age.Some? ==> g.age == f.age
    ensures f.gender.Some? ==> g.gender == f.gender
    ensures f.level.Some? ==> g.level == f.level
    ensures row.th.None? || row.td.None? ==> g == f
    ensures (row.th.Some? && row.td.Some? && Contains(Lower(row.th.value), "age") && f.age.None?)
              ==> g == f.(age := SearchNat(row.td.value))
    ensures (row.th.Some? && row.td.Some? && !(Contains(Lower(row.th.value), "age") && f.age.None?)
             && Contains(Lower(row.th.value), "gender") && f.gender.None?)
              ==> g == f.(gender := Some(row.td.value))
    ensures (row.th.Some? && row.td.Some? && !(Contains(Lower(row.th.value), "age") && f.age.None?)
             && !(Contains(Lower(row.th.value), "gender") && f.gender.None?))
              ==> g == (if Contains(Lower(row.th.value), "level") && f.level.None?
                        then f.(level := SearchNat(row.td.value)) else f)
  {
    if row.th.None? || row.td.None? then f
    else
      var key := Lower(row.th.value);
      var val := row.td.value;
      if Contains(key, "age") && f.age.None? then f.(age := SearchNat(val))
      else if Contains(key, "gender") && f.gender.None? then f.(gender := Some(val))
      else if Contains(key, "level") && f.level.None? then f.(level := SearchNat(val))
      else f
  }

  function ApplyRows(f: Fields, rows: seq<Row>): (g: Fields)
    ensures g.name == f.name
    ensures f.age.Some? ==> g.age == f.age
    ensures f.gender.Some? ==> g.gender == f.gender
    ensures f.level.Some? ==> g.level == f.level
    decreases |rows|
  {
    if |rows| == 0 then f else ApplyRows(ApplyRow(f, rows[0]), rows[1..])
  }

  /**
   * The fallback loop runs only while some field is still unset. The guard
   * never changes the outcome: with every field set the loop would change
   * nothing anyway.
   */
  function Fallback(f: Fields, rows: seq<Row>): (g: Fields)
    ensures g == ApplyRows(f, rows)
    ensures g.name == f.name
    ensures f.age.Some? ==> g.age == f.age
    ensures f.gender.Some? ==> g.gender == f.gender
    ensures f.level.Some? ==> g.level == f.level
  {
    if f.age.None? || f.gender.None? || f.level.None? then ApplyRows(f, rows)
    else
      RowsKeepComplete(f, rows);
      f
  }

  lemma {:induction false} RowsKeepComplete(f: Fields, rows: seq<Row>)
    requires f.age.Some? && f.gender.Some? && f.level.Some?
    ensures ApplyRows(f, rows) == f
    decreases |rows|
  {
    if |rows| > 0 {
      RowsKeepComplete(ApplyRow(f, rows[0]), rows[1..]);
    }
  }

  /** `soup.select_one(a) or soup.select_one(b)` on the two heading texts. */
  function FirstOf(a: Option<string>, b: Option<string>): (r: Option<string>)
    ensures a.Some? ==> r == a
    ensures a.None? ==> r == b
  {
    if a.Some? then a else b
  }

  /**
   * `parse_infobox`: with no container only the name is looked up (the `<h1>`
   * first); otherwise the name comes from `#firstHeading` first, then the
   * `data-source` items and the row fallback of the chosen container fill the rest.
   */
  function ParseInfobox(page: Page): (f: Fields)
    ensures Chosen(page).None? ==> f == Fields(FirstOf(page.h1, page.firstHeading), None, None, None)
    ensures Chosen(page).Some? ==> f.name == FirstOf(page.firstHeading, page.h1)
    ensures Chosen(page).Some? ==>
      f == Fallback(ApplyItems(Empty.(name := FirstOf(page.firstHeading, page.h1)), Chosen(page).value.items),
                    Chosen(page).value.rows)
  {
    match Chosen(page)
    case None => Empty.(name := FirstOf(page.h1, page.firstHeading))
    case Some(ib) =>
      var named := Empty.(name := FirstOf(page.firstHeading, page.h1));
      ItemsKeepName(named, ib.items);
      Fallback(ApplyItems(named, ib.items), ib.rows)
  }

  // ---------------------------------------------------------------------------
  // Properties

  /** The `data-source` loop never changes the name. */
  lemma {:induction false} ItemsKeepName(f: Fields, items: seq<DataItem>)
    ensures ApplyItems(f, items).name == f.name
    decreases |items|
  {
    if |items| > 0 {
      ItemsKeepName(ApplyItem(f, items[0]), items[1..]);
    }
  }

  /** A field that no item feeds keeps its value through the `data-source` loop. */
  lemma {:induction false} ItemsUnfed(f: Fields, items: seq<DataItem>, slot: Slot)
    requires forall i :: 0 <= i < |items| ==> ItemSlot(items[i]) != slot
    ensures slot == AgeSlot ==> ApplyItems(f, items).age == f.age
    ensures slot == GenderSlot ==> ApplyItems(f, items).gender == f.gender
    ensures slot == LevelSlot ==> ApplyItems(f, items).level == f.level
    decreases |items|
  {
    if |items| > 0 {
      var rest := items[1..];
      assert ItemSlot(items[0]) != slot;
      forall j | 0 <= j < |rest| ensures ItemSlot(rest[j]) != slot {
        assert rest[j] == items[j + 1];
      }
      ItemsUnfed(ApplyItem(f, items[0]), rest, slot);
    }
  }

  /**
   * In the `data-source` loop the last item feeding a field decides it: for
   * "age" and "level" its leftmost digit run (unset when it has no digit),
   * for "gender"/"sex" its text verbatim.
   */
  lemma {:induction false} LastItemWins(f: Fields, items: seq<DataItem>, i: nat)
    requires i < |items| && ItemSlot(items[i]) != NoSlot
    requires forall j :: i < j < |items| ==> ItemSlot(items[j]) != ItemSlot(items[i])
    ensures ItemSlot(items[i]) == AgeSlot ==> ApplyItems(f, items).age == SearchNat(items[i].text)
    ensures ItemSlot(items[i]) == GenderSlot ==> ApplyItems(f, items).gender == Some(items[i].text)
    ensures ItemSlot(items[i]) == LevelSlot ==> ApplyItems(f, items).level == SearchNat(items[i].text)
    decreases |items|
  {
    var rest := items[1..];
    var slot := ItemSlot(items[i]);
    if i == 0 {
      forall j | 0 <= j < |rest| ensures ItemSlot(rest[j]) != slot {
        assert rest[j] == items[j + 1];
      }
      LastItemIsFirst(f, items);
    } else {
      assert rest[i - 1] == items[i];
      forall j | i - 1 < j < |rest| ensures ItemSlot(rest[j]) != slot {
        assert rest[j] == items[j + 1];
      }
      LastItemWins(ApplyItem(f, items[0]), rest, i - 1);
    }
  }

  lemma LastItemIsFirst(f: Fields, items: seq<DataItem>)
    requires |items| > 0 && ItemSlot(items[0]) != NoSlot
    requires forall j :: 0 <= j < |items[1..]| ==> ItemSlot(items[1..][j]) != ItemSlot(items[0])
    ensures ItemSlot(items[0]) == AgeSlot ==> ApplyItems(f, items).age == SearchNat(items[0].text)
    ensures ItemSlot(items[0]) == GenderSlot ==> ApplyItems(f, items).gender == Some(items[0].text)
    ensures ItemSlot(items[0]) == LevelSlot ==> ApplyItems(f, items).level == SearchNat(items[0].text)
  {
    var g := ApplyItem(f, items[0]);
    ItemsUnfed(g, items[1..], ItemSlot(items[0]));
  }

  /** The row fallback never touches the name and never replaces a field that is already set. */
  lemma FallbackKeepsSetFields(page: Page)
    requires Chosen(page).Some?
    ensures var named := Empty.(name := FirstOf(page.firstHeading, page.h1));
      var before := ApplyItems(named, Chosen(page).value.items);
      var after := ParseInfobox(page);
      && after.name == before.name
      && (before.age.Some? ==> after.age == before.age)
      && (before.gender.Some? ==> after.gender == before.gender)
      && (before.level.Some? ==> after.level == before.level)
  {
  }

  /** The row fallback looks inside the chosen container only: a classic table beside a portable infobox is never read. */
  lemma ClassicIgnoredBesidePortable(page: Page, classic: Option<Container>)
    requires page.portable.Some?
    ensures ParseInfobox(page.(classic := classic)) == ParseInfobox(page)
  {
  }

  // ---------------------------------------------------------------------------
  // What the row fallback fills

  /** A `<tr>` with both cells whose lower-cased `<th>` text contains `word`. */
  predicate LabelHas(row: Row, word: string) {
    row.th.Some? && row.td.Some? && Contains(Lower(row.th.value), word)
  }

  /** The row loop over `rows` is the loop over a prefix followed by the loop over the rest. */
  lemma {:induction false} ApplyRowsSplit(f: Fields, rows: seq<Row>, j: nat)
    requires j <= |rows|
    ensures ApplyRows(f, rows) == ApplyRows(ApplyRows(f, rows[..j]), rows[j..])
    decreases j
  {
    if j > 0 {
      assert rows[..j][0] == rows[0];
      assert rows[..j][1..] == rows[1..][..j - 1];
      assert rows[1..][j - 1..] == rows[j..];
      ApplyRowsSplit(ApplyRow(f, rows[0]), rows[1..], j - 1);
    }
  }

  /**
   * An unset age takes the leftmost digit run of the first row labelled
   * "age" whose value has a digit: an earlier "age" row without a digit
   * leaves the age unset and does not block a later one.
   */
  lemma {:induction false} AgeFromFirstDigitRow(f: Fields, rows: seq<Row>, j: nat)
    requires f.age.None? && j < |rows|
    requires LabelHas(rows[j], "age") && SearchNat(rows[j].td.value).Some?
    requires forall k :: 0 <= k < j && LabelHas(rows[k], "age") ==> SearchNat(rows[k].td.value).None?
    ensures ApplyRows(f, rows).age == SearchNat(rows[j].td.value)
    decreases j
  {
    var g := ApplyRow(f, rows[0]);
    if j == 0 {
      assert g.age == SearchNat(rows[0].td.value);
    } else {
      assert g.age.None?;
      forall k | 0 <= k < j - 1 && LabelHas(rows[1..][k], "age")
        ensures SearchNat(rows[1..][k].td.value).None?
      {
        assert rows[1..][k] == rows[k + 1];
      }
      assert rows[1..][j - 1] == rows[j];
      AgeFromFirstDigitRow(g, rows[1..], j - 1);
    }
  }

  /** When no row labelled "age" holds a digit, an unset age stays unset. */
  lemma {:induction false} AgeUnsetWithoutDigitRow(f: Fields, rows: seq<Row>)
    requires f.age.None?
    requires forall k :: 0 <= k < |rows| && LabelHas(rows[k], "age") ==> SearchNat(rows[k].td.value).None?
    ensures ApplyRows(f, rows).age.None?
    decreases |rows|
  {
    if |rows| > 0 {
      var g := ApplyRow(f, rows[0]);
      assert g.age.None?;
      forall k | 0 <= k < |rows| - 1 && LabelHas(rows[1..][k], "age")
        ensures SearchNat(rows[1..][k].td.value).None?
      {
        assert rows[1..][k] == rows[k + 1];
      }
      AgeUnsetWithoutDigitRow(g, rows[1..]);
    }
  }

  /**
   * Gender is decided by the first row labelled "gender" that the age test
   * does not claim (the age test wins while the age is unset and the label
   * also contains "age"): its text, even an empty one, is kept for good.
   */
  lemma GenderDecidedAt(f: Fields, rows: seq<Row>, j: nat)
    requires j < |rows|
    requires var g := ApplyRows(f, rows[..j]);
      && g.gender.None? && LabelHas(rows[j], "gender")
      && !(Contains(Lower(rows[j].th.value), "age") && g.age.None?)
    ensures ApplyRows(f, rows).gender == Some(rows[j].td.value)
  {
    var g := ApplyRows(f, rows[..j]);
    ApplyRowsSplit(f, rows, j);
    RowsStep(g, rows, j);
  }

  /**
   * Level is decided by the first row labelled "level" that neither the age
   * nor the gender test claims, provided its value has a digit; the leftmost
   * digit run is kept for good.
   */
  lemma LevelDecidedAt(f: Fields, rows: seq<Row>, j: nat)
    requires j < |rows|
    requires var g := ApplyRows(f, rows[..j]);
      && g.level.None? && LabelHas(rows[j], "level") && SearchNat(rows[j].td.value).Some?
      && !(Contains(Lower(rows[j].th.value), "age") && g.age.None?)
      && !(Contains(Lower(rows[j].th.value), "gender") && g.gender.None?)
    ensures ApplyRows(f, rows).level == SearchNat(rows[j].td.value)
  {
    var g := ApplyRows(f, rows[..j]);
    ApplyRowsSplit(f, rows, j);
    RowsStep(g, rows, j);
  }

  /**
   * Row `k` sets the gender: it is labelled "gender", the gender is still
   * unset when the loop reaches it, and the age test does not claim it.
   */
  predicate GenderTakenAt(f: Fields, rows: seq<Row>, k: nat)
    requires k < |rows|
  {
    var g := ApplyRows(f, rows[..k]);
    g.gender.None? && LabelHas(rows[k], "gender") && !(Contains(Lower(rows[k].th.value), "age") && g.age.None?)
  }

  /**
   * Row `k` sets the level to a number: it is labelled "level", its value has
   * a digit, the level is still unset when the loop reaches it, and neither
   * the age nor the gender test claims it.
   */
  predicate LevelTakenAt(f: Fields, rows: seq<Row>, k: nat)
    requires k < |rows|
  {
    var g := ApplyRows(f, rows[..k]);
    && g.level.None? && LabelHas(rows[k], "level") && SearchNat(rows[k].td.value).Some?
    && !(Contains(Lower(rows[k].th.value), "age") && g.age.None?)
    && !(Contains(Lower(rows[k].th.value), "gender") && g.gender.None?)
  }

  /** An unset gender stays unset exactly when no row takes it. */
  lemma {:induction false} GenderUnsetWithoutRow(f: Fields, rows: seq<Row>)
    requires f.gender.None?
    ensures ApplyRows(f, rows).gender.None? <==> forall k :: 0 <= k < |rows| ==> !GenderTakenAt(f, rows, k)
    decreases |rows|
  {
    if |rows| > 0 {
      var n := |rows| - 1;
      var p := rows[..n];
      GenderUnsetWithoutRow(f, p);
      RowsLast(f, rows);
      forall k | 0 <= k < n ensures GenderTakenAt(f, rows, k) == GenderTakenAt(f, p, k) {
        assert rows[..k] == p[..k];
      }
      var g := ApplyRows(f, p);
      assert rows[..n] == p;
      if g.gender.None? && rows[n].th.Some? && rows[n].td.Some? {
        assert ApplyRow(g, rows[n]).gender.None? <==> !GenderTakenAt(f, rows, n);
      }
    }
  }

  /** An unset level stays unset exactly when no row takes it with a number. */
  lemma {:induction false} LevelUnsetWithoutDigitRow(f: Fields, rows: seq<Row>)
    requires f.level.None?
    ensures ApplyRows(f, rows).level.None? <==> forall k :: 0 <= k < |rows| ==> !LevelTakenAt(f, rows, k)
    decreases |rows|
  {
    if |rows| > 0 {
      var n := |rows| - 1;
      var p := rows[..n];
      LevelUnsetWithoutDigitRow(f, p);
      RowsLast(f, rows);
      forall k | 0 <= k < n ensures LevelTakenAt(f, rows, k) == LevelTakenAt(f, p, k) {
        assert rows[..k] == p[..k];
      }
      var g := ApplyRows(f, p);
      assert rows[..n] == p;
      if g.level.None? && rows[n].th.Some? && rows[n].td.Some? {
        assert ApplyRow(g, rows[n]).level.None? <==> !LevelTakenAt(f, rows, n);
      }
    }
  }

  /** The row loop is the loop over all rows but the last, followed by the last row. */
  lemma RowsLast(f: Fields, rows: seq<Row>)
    requires |rows| > 0
    ensures ApplyRows(f, rows) == ApplyRow(ApplyRows(f, rows[..|rows| - 1]), rows[|rows| - 1])
  {
    var n := |rows| - 1;
    ApplyRowsSplit(f, rows, n);
    RowsStep(ApplyRows(f, rows[..n]), rows, n);
    assert rows[n + 1..] == [];
  }

  lemma RowsStep(g: Fields, rows: seq<Row>, j: nat)
    requires j < |rows|
    ensures ApplyRows(g, rows[j..]) == ApplyRows(ApplyRow(g, rows[j]), rows[j + 1..])
  {
    assert rows[j..][0] == rows[j];
    assert rows[j..][1..] == rows[j + 1..];
  }
}
