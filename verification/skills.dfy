/**
 * `extract_skills` (scrape/scrape_lords.py): rows of the tables whose headers
 * mention "skill" or "value", folded into an insertion-ordered dict where a
 * later row overwrites an earlier one with the same key.
 */
module Skills {
  import opened Wrappers
  import opened Text
  import opened Numbers
  import opened Ordering
  import opened Html

  /** One accepted row: its normalised key and the integer found in its value cell, if any. */
  datatype Entry = Entry(key: string, value: Option<int>)

  /**
   * A Python dict from skill key to optional integer: the keys in insertion
   * order beside the key-to-value map.
   */
  datatype SkillMap = SkillMap(order: seq<string>, values: map<string, Option<int>>) {
    ghost predicate Valid() {
      Distinct(order) && forall k :: k in values <==> k in order
    }
  }

  const EmptyMap := SkillMap([], map[])

  /** `d[k] = v`: an existing key keeps its position and takes the new value, a new key is appended. */
  function Put(d: SkillMap, k: string, v: Option<int>): (r: SkillMap)
    requires d.Valid()
    ensures r.Valid()
    ensures r.values == d.values[k := v]
    ensures k in d.values ==> r.order == d.order
    ensures k !in d.values ==> r.order == d.order + [k]
  {
    SkillMap(if k in d.values then d.order else d.order + [k], d.values[k := v])
  }

  /** The header words that make a table a skill table. */
  predicate IsSkillTable(t: Table) {
    var headers := seq(|t.headers|, i requires 0 <= i < |t.headers| => Lower(t.headers[i]));
    |headers| > 0 &&
    ((exists i :: 0 <= i < |headers| && Contains(headers[i], "skill")) ||
     (exists i :: 0 <= i < |headers| && Contains(headers[i], "value")))
  }

  /**
   * `re.sub(r"\s+", "_", k.strip().lower())`: the words of the lower-cased
   * cell joined by underscores.
   */
  function NormalizeKey(k: string): (key: string)
    ensures key == Join("_", Words(Lower(k)))
    ensures forall i :: 0 <= i < |key| ==> !IsSpace(key[i]) && !IsUpper(key[i])
  {
    NormalizedWords(k);
    NormalizedShape(k);
    SubSpaceRuns(Lower(Strip(k)), '_')
  }

  lemma NormalizedShape(k: string)
    ensures var r := SubSpaceRuns(Lower(Strip(k)), '_');
      forall i :: 0 <= i < |r| ==> !IsSpace(r[i]) && !IsUpper(r[i])
  {
    var s := Lower(Strip(k));
    var r := SubSpaceRuns(s, '_');
    NoUpperKept(s, '_');
    SubSpaceRunsShape(s, '_');
    assert !IsSpace('_');
    forall i | 0 <= i < |r| ensures !IsSpace(r[i]) && !IsUpper(r[i]) {
      NotSpaceBesidesRep(r[i], '_');
    }
  }

  lemma NotSpaceBesidesRep(c: char, rep: char)
    requires IsSpace(c) ==> c == rep
    requires !IsSpace(rep)
    ensures !IsSpace(c)
  {
  }

  lemma NormalizedWords(k: string)
    ensures SubSpaceRuns(Lower(Strip(k)), '_') == Join("_", Words(Lower(k)))
  {
    LowerStrip(k);
    SubSpaceRunsStripped(Strip(Lower(k)), '_');
    WordsStrip(Lower(k));
  }

  lemma {:induction false} NoUpperKept(s: string, rep: char)
    requires forall i :: 0 <= i < |s| ==> !IsUpper(s[i])
    requires !IsUpper(rep)
    ensures forall i :: 0 <= i < |SubSpaceRuns(s, rep)| ==> !IsUpper(SubSpaceRuns(s, rep)[i])
    decreases |s|
  {
    if |s| > 0 {
      var n := if IsSpace(s[0]) then SpaceRun(s) else 1;
      NoUpperKept(s[n..], rep);
    }
  }

  /** What one `<tr>` contributes: nothing unless it has two cells, a non-empty first one, and a key other than "skill" or "name". */
  function RowEntry(cells: seq<string>): (r: Option<Entry>)
    ensures r.Some? ==> |cells| >= 2 && cells[0] != [] && r.value.key !in {"skill", "name"}
    ensures r.Some? ==> r.value == Entry(NormalizeKey(cells[0]), SearchInt(cells[1]))
    ensures |cells| >= 2 && cells[0] != [] && NormalizeKey(cells[0]) !in {"skill", "name"} ==>
      r == Some(Entry(NormalizeKey(cells[0]), SearchInt(cells[1])))
  {
    if |cells| < 2 || cells[0] == [] then None
    else
      var key := NormalizeKey(cells[0]);
      if key == "skill" || key == "name" then None
      else Some(Entry(key, SearchInt(cells[1])))
  }

  /** The inner loop over a skill table's rows. */
  function PutRows(d: SkillMap, rows: seq<seq<string>>): (r: SkillMap)
    requires d.Valid()
    ensures r.Valid()
    decreases |rows|
  {
    if |rows| == 0 then d
    else
      var e := RowEntry(rows[0]);
      PutRows(if e.Some? then Put(d, e.value.key, e.value.value) else d, rows[1..])
  }

  /** The outer loop over every table of the page. */
  function PutTables(d: SkillMap, tables: seq<Table>): (r: SkillMap)
    requires d.Valid()
    ensures r.Valid()
    decreases |tables|
  {
    if |tables| == 0 then d
    else PutTables(if IsSkillTable(tables[0]) then PutRows(d, tables[0].rows) else d, tables[1..])
  }

  /** `extract_skills`. */
  function ExtractSkills(tables: seq<Table>): (r: SkillMap)
    ensures r.Valid()
  {
    PutTables(EmptyMap, tables)
  }

  // ---------------------------------------------------------------------------
  // Reference: the flat list of writes

  function RowEntries(rows: seq<seq<string>>): (es: seq<Entry>)
    decreases |rows|
  {
    if |rows| == 0 then []
    else (match RowEntry(rows[0]) case Some(e) => [e] case None => []) + RowEntries(rows[1..])
  }

  /** Every write the loops perform, in order: the accepted rows of the skill tables. */
  function Writes(tables: seq<Table>): (es: seq<Entry>)
    decreases |tables|
  {
    if |tables| == 0 then []
    else (if IsSkillTable(tables[0]) then RowEntries(tables[0].rows) else []) + Writes(tables[1..])
  }

  /** Applying a list of writes in order. */
  function PutAll(d: SkillMap, es: seq<Entry>): (r: SkillMap)
    requires d.Valid()
    ensures r.Valid()
    decreases |es|
  {
    if |es| == 0 then d else PutAll(Put(d, es[0].key, es[0].value), es[1..])
  }

  lemma {:induction false} PutAllAppend(d: SkillMap, a: seq<Entry>, b: seq<Entry>)
    requires d.Valid()
    ensures PutAll(d, a + b) == PutAll(PutAll(d, a), b)
    decreases |a|
  {
    if |a| > 0 {
      assert (a + b)[1..] == a[1..] + b;
      PutAllAppend(Put(d, a[0].key, a[0].value), a[1..], b);
    } else {
      assert a + b == b;
    }
  }

  lemma {:induction false} PutRowsIsPutAll(d: SkillMap, rows: seq<seq<string>>)
    requires d.Valid()
    ensures PutRows(d, rows) == PutAll(d, RowEntries(rows))
    decreases |rows|
  {
    if |rows| > 0 {
      var e := RowEntry(rows[0]);
      var head := match e case Some(x) => [x] case None => [];
      PutAllAppend(d, head, RowEntries(rows[1..]));
      PutRowsIsPutAll(if e.Some? then Put(d, e.value.key, e.value.value) else d, rows[1..]);
      if e.Some? {
        assert PutAll(d, head) == PutAll(Put(d, e.value.key, e.value.value), []);
      }
    }
  }

  /** The nested loops of `extract_skills` perform exactly the writes of `Writes`, in order. */
  lemma {:induction false} PutTablesIsPutAll(d: SkillMap, tables: seq<Table>)
    requires d.Valid()
    ensures PutTables(d, tables) == PutAll(d, Writes(tables))
    decreases |tables|
  {
    if |tables| > 0 {
      var head := if IsSkillTable(tables[0]) then RowEntries(tables[0].rows) else [];
      PutAllAppend(d, head, Writes(tables[1..]));
      if IsSkillTable(tables[0]) {
        PutRowsIsPutAll(d, tables[0].rows);
      }
      PutTablesIsPutAll(if IsSkillTable(tables[0]) then PutRows(d, tables[0].rows) else d, tables[1..]);
    }
  }

  /** A key no write touches keeps its prior state. */
  lemma {:induction false} PutAllUnwritten(d: SkillMap, es: seq<Entry>, k: string)
    requires d.Valid()
    requires forall j :: 0 <= j < |es| ==> es[j].key != k
    ensures k in PutAll(d, es).values <==> k in d.values
    ensures k in d.values ==> PutAll(d, es).values[k] == d.values[k]
    decreases |es|
  {
    if |es| > 0 {
      assert es[0].key != k;
      assert forall j :: 0 <= j < |es| - 1 ==> es[1..][j] == es[j + 1];
      PutAllUnwritten(Put(d, es[0].key, es[0].value), es[1..], k);
    }
  }

  /** After a list of writes a key holds the value of its last write. */
  lemma {:induction false} PutAllLastWins(d: SkillMap, es: seq<Entry>, i: nat)
    requires d.Valid()
    requires i < |es| && forall j :: i < j < |es| ==> es[j].key != es[i].key
    ensures es[i].key in PutAll(d, es).values && PutAll(d, es).values[es[i].key] == es[i].value
    decreases |es|
  {
    var k := es[i].key;
    assert forall j :: 0 <= j < |es| - 1 ==> es[1..][j] == es[j + 1];
    if i == 0 {
      PutAllUnwritten(Put(d, k, es[0].value), es[1..], k);
    } else {
      PutAllLastWins(Put(d, es[0].key, es[0].value), es[1..], i - 1);
    }
  }

  /**
   * `extract_skills` maps a key to the value of the last accepted row carrying
   * it, across all skill tables; a key no accepted row carries is absent.
   */
  lemma SkillsLastWriteWins(tables: seq<Table>, i: nat)
    requires i < |Writes(tables)|
    requires forall j :: i < j < |Writes(tables)| ==> Writes(tables)[j].key != Writes(tables)[i].key
    ensures var e := Writes(tables)[i];
      e.key in ExtractSkills(tables).values && ExtractSkills(tables).values[e.key] == e.value
  {
    PutTablesIsPutAll(EmptyMap, tables);
    PutAllLastWins(EmptyMap, Writes(tables), i);
  }

  /** A key that no accepted row carries is absent from the result. */
  lemma SkillsUnwrittenAbsent(tables: seq<Table>, k: string)
    requires forall j :: 0 <= j < |Writes(tables)| ==> Writes(tables)[j].key != k
    ensures k !in ExtractSkills(tables).values
  {
    PutTablesIsPutAll(EmptyMap, tables);
    PutAllUnwritten(EmptyMap, Writes(tables), k);
  }

  /** A key `extract_skills` can produce: lower-case, whitespace-free, and neither "skill" nor "name". */
  predicate WellFormedKey(key: string) {
    key !in {"skill", "name"} && forall i :: 0 <= i < |key| ==> !IsSpace(key[i]) && !IsUpper(key[i])
  }

  /** Every write has a whitespace-free, lower-case key other than "skill" and "name". */
  lemma {:induction false} WritesKeys(tables: seq<Table>)
    ensures forall j :: 0 <= j < |Writes(tables)| ==> WellFormedKey(Writes(tables)[j].key)
    decreases |tables|
  {
    if |tables| > 0 {
      var head := if IsSkillTable(tables[0]) then RowEntries(tables[0].rows) else [];
      WritesKeys(tables[1..]);
      if IsSkillTable(tables[0]) {
        RowEntriesKeys(tables[0].rows);
      }
      AppendKeys(head, Writes(tables[1..]));
    }
  }

  lemma {:induction false} RowEntriesKeys(rows: seq<seq<string>>)
    ensures forall j :: 0 <= j < |RowEntries(rows)| ==> WellFormedKey(RowEntries(rows)[j].key)
    decreases |rows|
  {
    if |rows| > 0 {
      var head := match RowEntry(rows[0]) case Some(e) => [e] case None => [];
      RowEntriesKeys(rows[1..]);
      if RowEntry(rows[0]).Some? {
        assert WellFormedKey(head[0].key);
      }
      AppendKeys(head, RowEntries(rows[1..]));
    }
  }

  lemma AppendKeys(a: seq<Entry>, b: seq<Entry>)
    requires forall j :: 0 <= j < |a| ==> WellFormedKey(a[j].key)
    requires forall j :: 0 <= j < |b| ==> WellFormedKey(b[j].key)
    ensures forall j :: 0 <= j < |a + b| ==> WellFormedKey((a + b)[j].key)
  {
    forall j | 0 <= j < |a + b| ensures WellFormedKey((a + b)[j].key) {
      if j >= |a| {
        assert (a + b)[j] == b[j - |a|];
      }
    }
  }

  /** Every key of `extract_skills`' result is lower-case, whitespace-free, and neither "skill" nor "name". */
  lemma SkillKeysWellFormed(tables: seq<Table>)
    ensures forall k :: k in ExtractSkills(tables).values ==> WellFormedKey(k)
  {
    WritesKeys(tables);
    forall k | k in ExtractSkills(tables).values ensures WellFormedKey(k) {
      if forall j :: 0 <= j < |Writes(tables)| ==> Writes(tables)[j].key != k {
        SkillsUnwrittenAbsent(tables, k);
      }
    }
  }
}
