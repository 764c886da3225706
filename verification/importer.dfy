/**
 * `run` (scripts/import_to_sqlite.py) as a pure function from the three
 * staging tables to the rows of the freshly created `lords`, `lord_traits`
 * and `lord_skills` tables. The script drops and recreates the tables first,
 * so nothing of an earlier database survives and no earlier state is a
 * parameter here.
 */
module Importer {
  import opened Wrappers
  import opened Text
  import opened Numbers
  import opened Ordering
  import opened Staging

  /** A row of the `lords` table; `lordId` is the AUTOINCREMENT key. */
  datatype LordRecord = LordRecord(
    lordId: nat, extId: string, clanId: Option<int>, name: string, gender: Option<string>,
    age: Option<int>, cultureId: Option<int>, level: Option<int>, spPerLvl: Option<int>,
    sumStats: Option<int>, traits: Option<string>, sourceUrl: string)

  /** A row handed to the `lord_skills` insert. */
  datatype SkillInsert = SkillInsert(lordId: nat, skillId: nat, value: Option<int>)

  /**
   * The three tables after a successful run: `lord_traits` has the primary
   * key (lord_id, trait), so it is a set; `lord_skills` has the primary key
   * (lord_id, skill_id), so it maps that pair to the stored value.
   */
  datatype Db = Db(lords: seq<LordRecord>, traits: set<(nat, string)>, skills: map<(nat, nat), Option<int>>)

  /**
   * What makes `run` raise: the UNIQUE constraint on `ext_id`, `int()` on a
   * malformed cell, or binding an integer SQLite cannot store.
   */
  datatype ImportError = DuplicateExtId | BadInteger(cell: string) | Overflow

  /** `abs(hash(sk)) % (10**9)`: skill ids are taken modulo this. */
  const SkillIdModulus: nat := 1000000000

  /** `cell or None`. */
  function NonEmpty(cell: string): (r: Option<string>)
    ensures r.None? <==> cell == []
    ensures r.Some? ==> r.value == cell
  {
    if cell == [] then None else Some(cell)
  }

  /** `int(cell) if cell else None`: an empty cell is NULL, a malformed one raises. */
  function IntField(cell: string): (r: Result<Option<int>, ImportError>)
    ensures cell == [] ==> r == Ok(None)
    ensures cell != [] && r.Ok? ==> r.value.Some? && ParseInt(cell) == r.value
    ensures cell != [] ==> (r.Err? <==> ParseInt(cell).None?)
    ensures r.Err? ==> r.error == BadInteger(cell)
  {
    if cell == [] then Ok(None)
    else match ParseInt(cell)
      case None => Err(BadInteger(cell))
      case Some(n) => Ok(Some(n))
  }

  /** SQLite's INTEGER is a signed 64-bit value: binding a Python `int` outside this range raises OverflowError. */
  const SqliteMin: int := -0x8000_0000_0000_0000
  const SqliteMax: int := 0x7FFF_FFFF_FFFF_FFFF

  /** A parameter SQLite can bind: NULL, or an integer in the 64-bit range. */
  predicate Fits(v: Option<int>) {
    v.None? || SqliteMin <= v.value <= SqliteMax
  }

  /** A cell that parses binds. */
  predicate CellFits(cell: string) {
    IntField(cell).Ok? ==> Fits(IntField(cell).value)
  }

  /** A cell that parses and binds. */
  predicate CellOk(cell: string) {
    IntField(cell).Ok? && Fits(IntField(cell).value)
  }

  /** Both numbers of a lords.csv row bind, as far as they parse. */
  predicate RowFits(row: LordRow) {
    CellFits(row.age) && CellFits(row.level)
  }

  /** The `lords` row built from one lords.csv row; clan, culture and the two stat columns stay NULL. */
  function RecordOf(id: nat, row: LordRow): (r: Result<LordRecord, ImportError>)
    ensures r.Ok? <==> IntField(row.age).Ok? && IntField(row.level).Ok?
    ensures r.Err? ==> r.error == (if IntField(row.age).Err? then IntField(row.age) else IntField(row.level)).error
    ensures r.Ok? ==> r.value.lordId == id && r.value.extId == row.extId && r.value.name == row.name
    ensures r.Ok? ==> r.value.age == IntField(row.age).value && r.value.level == IntField(row.level).value
    ensures r.Ok? ==> r.value.gender == NonEmpty(row.gender) && r.value.traits == NonEmpty(row.traits)
    ensures r.Ok? ==> r.value.clanId.None? && r.value.cultureId.None? && r.value.spPerLvl.None? && r.value.sumStats.None?
    ensures r.Ok? ==> r.value.sourceUrl == row.sourceUrl
  {
    match IntField(row.age)
    case Err(e) => Err(e)
    case Ok(age) =>
      match IntField(row.level)
      case Err(e) => Err(e)
      case Ok(level) =>
        Ok(LordRecord(id, row.extId, None, row.name, NonEmpty(row.gender), age, None, level,
                      None, None, NonEmpty(row.traits), row.sourceUrl))
  }

  /** The loop over lords.csv: the first row with a malformed number raises. */
  function Records(rows: seq<LordRow>, next: nat): (r: Result<seq<LordRecord>, ImportError>)
    ensures r.Ok? <==> forall i :: 0 <= i < |rows| ==> RecordOf(next + i, rows[i]).Ok?
    ensures r.Ok? ==> |r.value| == |rows|
    ensures r.Ok? ==> forall i :: 0 <= i < |rows| ==> r.value[i] == RecordOf(next + i, rows[i]).value
    ensures r.Err? ==> exists i :: 0 <= i < |rows| && RecordOf(next + i, rows[i]) == Err(r.error)
    decreases |rows|
  {
    if |rows| == 0 then Ok([])
    else
      assert forall i :: 1 <= i < |rows| ==> rows[i] == rows[1..][i - 1];
      match RecordOf(next, rows[0])
      case Err(e) => Err(e)
      case Ok(head) =>
        match Records(rows[1..], next + 1)
        case Err(e) => Err(e)
        case Ok(tail) => Ok([head] + tail)
  }

  /** The first row with a malformed number decides the error the loop raises. */
  lemma {:induction false} RecordsFirstError(rows: seq<LordRow>, next: nat, i: nat)
    requires i < |rows| && RecordOf(next + i, rows[i]).Err?
    requires forall k :: 0 <= k < i ==> RecordOf(next + k, rows[k]).Ok?
    ensures Records(rows, next) == Err(RecordOf(next + i, rows[i]).error)
    decreases i
  {
    if i > 0 {
      assert RecordOf(next, rows[0]).Ok?;
      forall k | 0 <= k < i - 1 ensures RecordOf(next + 1 + k, rows[1..][k]).Ok? {
        assert rows[1..][k] == rows[k + 1];
      }
      assert rows[1..][i - 1] == rows[i];
      RecordsFirstError(rows[1..], next + 1, i - 1);
    }
  }

  /** Row `k` of the lords insert raises: a number does not bind, or an earlier row holds its ext_id. */
  predicate RowFails(rows: seq<LordRow>, k: nat)
    requires k < |rows|
  {
    !RowFits(rows[k]) || exists j :: 0 <= j < k && rows[j].extId == rows[k].extId
  }

  /** What a failing row raises: its parameters are bound before the UNIQUE constraint is checked. */
  function FailureOf(row: LordRow): ImportError {
    if RowFits(row) then DuplicateExtId else Overflow
  }

  /**
   * `executemany` over the lords from row `k` on: each row is bound and then
   * inserted before the next one, so the first failing row decides what raises.
   */
  function InsertLords(rows: seq<LordRow>, k: nat): (r: Option<ImportError>)
    requires k <= |rows|
    decreases |rows| - k
  {
    if k == |rows| then None
    else if RowFails(rows, k) then Some(FailureOf(rows[k]))
    else InsertLords(rows, k + 1)
  }

  /** The insert from row `k` on succeeds exactly when no row from `k` on fails. */
  lemma {:induction false} InsertLordsNone(rows: seq<LordRow>, k: nat)
    requires k <= |rows|
    ensures InsertLords(rows, k).None? <==> forall i :: k <= i < |rows| ==> !RowFails(rows, i)
    decreases |rows| - k
  {
    if k < |rows| && !RowFails(rows, k) {
      InsertLordsNone(rows, k + 1);
    }
  }

  /** When the insert from row `k` on raises, it raises what the first failing row raises. */
  lemma {:induction false} InsertLordsFirst(rows: seq<LordRow>, k: nat, i: nat)
    requires k <= i < |rows| && RowFails(rows, i)
    requires forall j :: k <= j < i ==> !RowFails(rows, j)
    ensures InsertLords(rows, k) == Some(FailureOf(rows[i]))
    decreases i - k
  {
    if k < i {
      InsertLordsFirst(rows, k + 1, i);
    }
  }

  /** No row of the insert fails exactly when every number binds and no ext_id repeats. */
  lemma LordsInsertClean(rows: seq<LordRow>)
    ensures (forall i :: 0 <= i < |rows| ==> !RowFails(rows, i)) <==>
      Distinct(ExtIds(rows)) && forall i :: 0 <= i < |rows| ==> RowFits(rows[i])
  {
    if forall i :: 0 <= i < |rows| ==> !RowFails(rows, i) {
      forall i, j | 0 <= i < j < |rows| ensures ExtIds(rows)[i] != ExtIds(rows)[j] {
        assert !RowFails(rows, j);
      }
      forall i | 0 <= i < |rows| ensures RowFits(rows[i]) {
        assert !RowFails(rows, i);
      }
    }
    if Distinct(ExtIds(rows)) && forall i :: 0 <= i < |rows| ==> RowFits(rows[i]) {
      forall i | 0 <= i < |rows| ensures !RowFails(rows, i) {
        forall j | 0 <= j < i ensures rows[j].extId != rows[i].extId {
          assert ExtIds(rows)[j] != ExtIds(rows)[i];
        }
        assert RowFits(rows[i]);
      }
    }
  }

  /**
   * The `lords` insert: every row parsed first, then inserted with ids 1, 2, …
   * in file order. A number outside SQLite's range, or a repeated ext_id
   * (the UNIQUE constraint), raises at the first row where either happens.
   */
  function ImportLords(rows: seq<LordRow>): (r: Result<seq<LordRecord>, ImportError>)
    ensures Records(rows, 1).Err? ==> r == Err(Records(rows, 1).error)
    ensures r.Ok? <==> Records(rows, 1).Ok? && Distinct(ExtIds(rows)) && forall i :: 0 <= i < |rows| ==> RowFits(rows[i])
    ensures Records(rows, 1).Ok? && (forall i :: 0 <= i < |rows| ==> RowFits(rows[i])) && !Distinct(ExtIds(rows))
      ==> r == Err(DuplicateExtId)
    ensures r.Ok? ==> |r.value| == |rows|
    ensures r.Ok? ==> forall i :: 0 <= i < |rows| ==> r.value[i].lordId == i + 1 && r.value[i].extId == rows[i].extId
    ensures r.Ok? ==> forall i :: 0 <= i < |rows| ==> RecordOf(i + 1, rows[i]).Ok? && r.value[i] == RecordOf(i + 1, rows[i]).value
  {
    match Records(rows, 1)
    case Err(e) => Err(e)
    case Ok(recs) =>
      LordsInsertClean(rows);
      InsertLordsNone(rows, 0);
      DuplicateFitsFails(rows);
      match InsertLords(rows, 0)
      case Some(e) => Err(e)
      case None => Ok(recs)
  }

  /**
   * When every number parses, the first row whose numbers do not bind or
   * whose ext_id repeats an earlier one decides the error: OverflowError if
   * a number does not bind, the UNIQUE violation otherwise.
   */
  lemma LordsInsertFailsAt(rows: seq<LordRow>, i: nat)
    requires Records(rows, 1).Ok? && i < |rows| && RowFails(rows, i)
    requires forall k :: 0 <= k < i ==> !RowFails(rows, k)
    ensures ImportLords(rows) == Err(FailureOf(rows[i]))
  {
    InsertLordsFirst(rows, 0, i);
  }

  /** With every number in range, a repeated ext_id makes the insert raise the UNIQUE violation. */
  lemma DuplicateFitsFails(rows: seq<LordRow>)
    ensures (forall i :: 0 <= i < |rows| ==> RowFits(rows[i])) && InsertLords(rows, 0).Some?
      ==> InsertLords(rows, 0) == Some(DuplicateExtId)
  {
    if (forall i :: 0 <= i < |rows| ==> RowFits(rows[i])) && InsertLords(rows, 0).Some? {
      InsertLordsNone(rows, 0);
      var i :| 0 <= i < |rows| && RowFails(rows, i);
      var m := FirstFailing(rows, i);
      InsertLordsFirst(rows, 0, m);
    }
  }

  /** A failing row has a first failing row at or before it. */
  lemma {:induction false} FirstFailing(rows: seq<LordRow>, i: nat) returns (m: nat)
    requires i < |rows| && RowFails(rows, i)
    ensures m <= i && RowFails(rows, m) && forall j :: 0 <= j < m ==> !RowFails(rows, j)
    decreases i
  {
    if exists j :: 0 <= j < i && RowFails(rows, j) {
      var j :| 0 <= j < i && RowFails(rows, j);
      m := FirstFailing(rows, j);
    } else {
      m := i;
    }
  }

  /** `ext2id.get(ext_id)`. */
  function Lookup(lords: seq<LordRecord>, extId: string): (r: Option<nat>)
    ensures r.None? <==> forall i :: 0 <= i < |lords| ==> lords[i].extId != extId
    ensures r.Some? ==> exists i :: 0 <= i < |lords| && lords[i].extId == extId && lords[i].lordId == r.value
    decreases |lords|
  {
    if |lords| == 0 then None
    else if lords[0].extId == extId then Some(lords[0].lordId)
    else
      assert forall i :: 1 <= i < |lords| ==> lords[i] == lords[1..][i - 1];
      Lookup(lords[1..], extId)
  }

  /** The `lord_traits` insert: rows of unknown lords are dropped, repeated pairs ignored. */
  function ImportTraits(lords: seq<LordRecord>, rows: seq<TraitRow>): set<(nat, string)>
    decreases |rows|
  {
    if |rows| == 0 then {}
    else
      var head := match Lookup(lords, rows[0].extId)
        case None => {}
        case Some(lid) => {(lid, rows[0].text)};
      head + ImportTraits(lords, rows[1..])
  }

  /** `(row["skill_key"] or "").strip().lower()`. */
  function SkillKey(raw: string): string {
    Lower(Strip(raw))
  }

  /** `abs(hash(sk)) % (10**9)`, with Python's `hash` as a parameter. */
  function SkillId(hash: string -> int, key: string): (id: nat)
    ensures id < SkillIdModulus
  {
    (if hash(key) < 0 then -hash(key) else hash(key)) % SkillIdModulus
  }

  /** A lord_skills.csv row the loop does not skip: its lord is known and its key is not blank. */
  predicate Kept(lords: seq<LordRecord>, row: SkillRow) {
    Lookup(lords, row.extId).Some? && SkillKey(row.skillKey) != []
  }

  /** The rows the skills loop does not skip, in file order. */
  function KeptRows(lords: seq<LordRecord>, rows: seq<SkillRow>): (kept: seq<SkillRow>)
    ensures |kept| <= |rows|
    ensures forall i :: 0 <= i < |kept| ==> Kept(lords, kept[i])
    decreases |rows|
  {
    if |rows| == 0 then []
    else (if Kept(lords, rows[0]) then [rows[0]] else []) + KeptRows(lords, rows[1..])
  }

  /** The (lord_id, skill_id) primary key a kept row is inserted under. */
  function RowKey(lords: seq<LordRecord>, hash: string -> int, row: SkillRow): (nat, nat)
    requires Kept(lords, row)
  {
    (Lookup(lords, row.extId).value, SkillId(hash, SkillKey(row.skillKey)))
  }

  /** `(lid, skill_id, int(value) if value else None)` for a kept row. */
  function InsertOf(lords: seq<LordRecord>, hash: string -> int, row: SkillRow): (k: SkillInsert)
    requires Kept(lords, row) && IntField(row.value).Ok?
    ensures KeyOf(k) == RowKey(lords, hash, row) && k.value == IntField(row.value).value
  {
    SkillInsert(Lookup(lords, row.extId).value, SkillId(hash, SkillKey(row.skillKey)), IntField(row.value).value)
  }

  /** `k` is what the loop inserts for `row`: the row is kept, its value parses, and `k` carries both. */
  predicate InsertFor(lords: seq<LordRecord>, hash: string -> int, row: SkillRow, k: SkillInsert) {
    Kept(lords, row) && IntField(row.value).Ok? && k == InsertOf(lords, hash, row)
  }

  /**
   * The loop over lord_skills.csv: skipped rows are never parsed, so only a
   * kept row with a malformed value raises. Otherwise there is one insert per
   * kept row, in file order: the lord's id, the hashed key, the parsed value.
   */
  function SkillInserts(lords: seq<LordRecord>, hash: string -> int, rows: seq<SkillRow>): (r: Result<seq<SkillInsert>, ImportError>)
    ensures r.Ok? ==> |r.value| == |KeptRows(lords, rows)|
    ensures r.Ok? ==> forall i :: 0 <= i < |r.value| ==> InsertFor(lords, hash, KeptRows(lords, rows)[i], r.value[i])
    ensures r.Ok? ==> forall k :: k in r.value ==> k.skillId < SkillIdModulus
    decreases |rows|
  {
    if |rows| == 0 then Ok([])
    else
      var row := rows[0];
      if !Kept(lords, row) then SkillInserts(lords, hash, rows[1..])
      else
        match IntField(row.value)
        case Err(e) => Err(e)
        case Ok(v) =>
          match SkillInserts(lords, hash, rows[1..])
          case Err(e) => Err(e)
          case Ok(rest) =>
            var head := InsertOf(lords, hash, row);
            InsertsCons(lords, hash, rows, head, rest);
            Ok([head] + rest)
  }

  lemma InsertsCons(lords: seq<LordRecord>, hash: string -> int, rows: seq<SkillRow>, head: SkillInsert, rest: seq<SkillInsert>)
    requires |rows| > 0 && Kept(lords, rows[0]) && IntField(rows[0].value).Ok?
    requires head == InsertOf(lords, hash, rows[0])
    requires |rest| == |KeptRows(lords, rows[1..])|
    requires forall i :: 0 <= i < |rest| ==> InsertFor(lords, hash, KeptRows(lords, rows[1..])[i], rest[i])
    ensures |[head] + rest| == |KeptRows(lords, rows)|
    ensures forall i :: 0 <= i < |[head] + rest| ==> InsertFor(lords, hash, KeptRows(lords, rows)[i], ([head] + rest)[i])
  {
    var tail := KeptRows(lords, rows[1..]);
    var kept := KeptRows(lords, rows);
    assert kept == [rows[0]] + tail;
    forall i | 0 <= i < |[head] + rest|
      ensures InsertFor(lords, hash, kept[i], ([head] + rest)[i])
    {
      if i > 0 {
        assert kept[i] == tail[i - 1];
        assert ([head] + rest)[i] == rest[i - 1];
      }
    }
  }

  /** The skills loop raises exactly when some kept row has a malformed value. */
  lemma {:induction false} SkillInsertsFail(lords: seq<LordRecord>, hash: string -> int, rows: seq<SkillRow>)
    ensures SkillInserts(lords, hash, rows).Err? <==>
      exists i :: 0 <= i < |rows| && Kept(lords, rows[i]) && IntField(rows[i].value).Err?
    decreases |rows|
  {
    if |rows| > 0 {
      var rest := rows[1..];
      SkillInsertsFail(lords, hash, rest);
      if exists i :: 0 <= i < |rest| && Kept(lords, rest[i]) && IntField(rest[i].value).Err? {
        var i :| 0 <= i < |rest| && Kept(lords, rest[i]) && IntField(rest[i].value).Err?;
        assert rows[i + 1] == rest[i];
      }
      if exists i :: 0 <= i < |rows| && Kept(lords, rows[i]) && IntField(rows[i].value).Err? {
        var i :| 0 <= i < |rows| && Kept(lords, rows[i]) && IntField(rows[i].value).Err?;
        if i > 0 {
          assert rest[i - 1] == rows[i];
        }
      }
    }
  }

  /** A kept row's value binds, as far as it parses. */
  predicate ValueFits(lords: seq<LordRecord>, row: SkillRow) {
    Kept(lords, row) ==> CellFits(row.value)
  }

  /** Every kept row's value binds. */
  predicate ValuesFit(lords: seq<LordRecord>, rows: seq<SkillRow>) {
    forall j :: 0 <= j < |rows| ==> ValueFits(lords, rows[j])
  }

  /** Every insert's value binds. */
  predicate InsertsFit(ins: seq<SkillInsert>) {
    forall i :: 0 <= i < |ins| ==> Fits(ins[i].value)
  }

  lemma ValuesFitCons(lords: seq<LordRecord>, rows: seq<SkillRow>)
    requires |rows| > 0
    ensures ValuesFit(lords, rows) <==> ValueFits(lords, rows[0]) && ValuesFit(lords, rows[1..])
  {
    AllRowsCons(row => ValueFits(lords, row), rows);
  }

  /** A property holds for every row exactly when it holds for the first and for all the others. */
  lemma AllRowsCons(p: SkillRow -> bool, rows: seq<SkillRow>)
    requires |rows| > 0
    ensures (forall j :: 0 <= j < |rows| ==> p(rows[j])) <==> p(rows[0]) && forall j :: 0 <= j < |rows[1..]| ==> p(rows[1..][j])
  {
    var rest := rows[1..];
    if p(rows[0]) && forall j :: 0 <= j < |rest| ==> p(rest[j]) {
      forall j | 0 < j < |rows| ensures p(rows[j]) {
        assert rows[j] == rest[j - 1];
      }
    }
    if forall j :: 0 <= j < |rows| ==> p(rows[j]) {
      forall j | 0 <= j < |rest| ensures p(rest[j]) {
        assert rest[j] == rows[j + 1];
      }
    }
  }

  lemma InsertsFitCons(x: SkillInsert, xs: seq<SkillInsert>)
    ensures InsertsFit([x] + xs) <==> Fits(x.value) && InsertsFit(xs)
  {
    if Fits(x.value) && InsertsFit(xs) {
      forall i | 0 < i < |[x] + xs| ensures Fits(([x] + xs)[i].value) {
        assert ([x] + xs)[i] == xs[i - 1];
      }
    }
    if InsertsFit([x] + xs) {
      assert ([x] + xs)[0] == x;
      forall i | 0 <= i < |xs| ensures Fits(xs[i].value) {
        assert ([x] + xs)[i + 1] == xs[i];
      }
    }
  }

  /** Every skills insert binds exactly when every kept row's value binds. */
  lemma {:induction false} SkillInsertsFit(lords: seq<LordRecord>, hash: string -> int, rows: seq<SkillRow>)
    requires SkillInserts(lords, hash, rows).Ok?
    ensures InsertsFit(SkillInserts(lords, hash, rows).value) <==> ValuesFit(lords, rows)
    decreases |rows|
  {
    if |rows| > 0 {
      ValuesFitCons(lords, rows);
      if Kept(lords, rows[0]) {
        InsertsHead(lords, hash, rows);
        InsertsFitCons(InsertOf(lords, hash, rows[0]), SkillInserts(lords, hash, rows[1..]).value);
      } else {
        InsertsSkip(lords, hash, rows);
      }
      SkillInsertsFit(lords, hash, rows[1..]);
    }
  }

  function KeyOf(k: SkillInsert): (nat, nat) {
    (k.lordId, k.skillId)
  }

  /** `INSERT OR IGNORE`: a row whose key is already stored is dropped. */
  function InsertOrIgnore(m: map<(nat, nat), Option<int>>, ins: seq<SkillInsert>): (r: map<(nat, nat), Option<int>>)
    ensures forall k :: k in m ==> k in r && r[k] == m[k]
    ensures forall k :: k in r ==> k in m || exists i :: 0 <= i < |ins| && KeyOf(ins[i]) == k
    ensures forall i :: 0 <= i < |ins| ==> KeyOf(ins[i]) in r
    decreases |ins|
  {
    if |ins| == 0 then m
    else
      assert forall i :: 1 <= i < |ins| ==> ins[i] == ins[1..][i - 1];
      var k := KeyOf(ins[0]);
      InsertOrIgnore(if k in m then m else m[k := ins[0].value], ins[1..])
  }

  /**
   * `run` on the contents of lords.csv and of the two optional files
   * (`None` when the file does not exist).
   */
  function Run(lords: seq<LordRow>, traits: Option<seq<TraitRow>>, skills: Option<seq<SkillRow>>,
               hash: string -> int): (r: Result<Db, ImportError>)
    ensures r.Ok? ==> |r.value.lords| == |lords|
    ensures r.Ok? ==> forall i :: 0 <= i < |lords| ==>
      r.value.lords[i].lordId == i + 1 && r.value.lords[i].extId == lords[i].extId
    ensures r.Ok? ==> forall i :: 0 <= i < |lords| ==>
      RecordOf(i + 1, lords[i]).Ok? && r.value.lords[i] == RecordOf(i + 1, lords[i]).value
    ensures ImportLords(lords).Err? ==> r == Err(ImportLords(lords).error)
  {
    match ImportLords(lords)
    case Err(e) => Err(e)
    case Ok(recs) =>
      var ts := ImportTraits(recs, traits.GetOr([]));
      match SkillInserts(recs, hash, skills.GetOr([]))
      case Err(e) => Err(e)
      case Ok(ins) =>
        if InsertsFit(ins) then Ok(Db(recs, ts, InsertOrIgnore(map[], ins)))
        else Err(Overflow)
  }

  // ---------------------------------------------------------------------------
  // Properties

  /** A successful run: both loops succeeded and the tables hold what they built. */
  lemma RunTables(lords: seq<LordRow>, traits: Option<seq<TraitRow>>, skills: Option<seq<SkillRow>>, hash: string -> int)
    requires Run(lords, traits, skills, hash).Ok?
    ensures ImportLords(lords).Ok? && SkillInserts(ImportLords(lords).value, hash, skills.GetOr([])).Ok?
    ensures Run(lords, traits, skills, hash).value.traits == ImportTraits(ImportLords(lords).value, traits.GetOr([]))
    ensures Run(lords, traits, skills, hash).value.skills ==
      InsertOrIgnore(map[], SkillInserts(ImportLords(lords).value, hash, skills.GetOr([])).value)
  {
  }

  /** A lord_skills.csv row whose lord is in lords.csv and whose key is not blank. */
  predicate SkillRowKept(lords: seq<LordRow>, row: SkillRow) {
    row.extId in ExtIds(lords) && SkillKey(row.skillKey) != []
  }

  /** `ext2id` after a successful lords insert: every ext_id of lords.csv maps to its row number, and nothing else is mapped. */
  lemma LookupImported(rows: seq<LordRow>, extId: string)
    requires ImportLords(rows).Ok?
    ensures Lookup(ImportLords(rows).value, extId).Some? <==> extId in ExtIds(rows)
    ensures forall i :: 0 <= i < |rows| && rows[i].extId == extId ==> Lookup(ImportLords(rows).value, extId) == Some(i + 1)
  {
    ImportedLords(rows);
    LookupIndexed(ExtIds(rows), ImportLords(rows).value, extId);
  }

  lemma ImportedLords(rows: seq<LordRow>)
    requires ImportLords(rows).Ok?
    ensures var recs := ImportLords(rows).value;
      && |recs| == |ExtIds(rows)| && Distinct(ExtIds(rows))
      && forall i :: 0 <= i < |recs| ==> recs[i].lordId == i + 1 && recs[i].extId == ExtIds(rows)[i]
  {
  }

  /** Looking up an ext_id among records numbered 1, 2, … with distinct ext_ids finds its position. */
  lemma LookupIndexed(ids: seq<string>, recs: seq<LordRecord>, extId: string)
    requires |recs| == |ids| && Distinct(ids)
    requires forall i :: 0 <= i < |recs| ==> recs[i].lordId == i + 1 && recs[i].extId == ids[i]
    ensures Lookup(recs, extId).Some? <==> extId in ids
    ensures forall i :: 0 <= i < |ids| && ids[i] == extId ==> Lookup(recs, extId) == Some(i + 1)
  {
    if extId in ids {
      var k :| 0 <= k < |ids| && ids[k] == extId;
      assert recs[k].extId == extId;
    }
    if Lookup(recs, extId).Some? {
      var v := Lookup(recs, extId).value;
      var k :| 0 <= k < |recs| && recs[k].extId == extId && recs[k].lordId == v;
      forall i | 0 <= i < |ids| && ids[i] == extId ensures i + 1 == v {
        assert ids[i] == ids[k];
      }
    }
  }

  /** Trait row `r` of a known lord yields the pair `p`. */
  predicate YieldsPair(lords: seq<LordRecord>, r: TraitRow, p: (nat, string)) {
    Lookup(lords, r.extId) == Some(p.0) && r.text == p.1
  }

  /** A pair is in `lord_traits` exactly when some row of a known lord yields it. */
  lemma {:induction false} ImportTraitsMembers(lords: seq<LordRecord>, rows: seq<TraitRow>, p: (nat, string))
    ensures p in ImportTraits(lords, rows) <==> exists i :: 0 <= i < |rows| && YieldsPair(lords, rows[i], p)
    decreases |rows|
  {
    if |rows| > 0 {
      var rest := rows[1..];
      ImportTraitsMembers(lords, rest, p);
      if exists i :: 0 <= i < |rest| && YieldsPair(lords, rest[i], p) {
        var i :| 0 <= i < |rest| && YieldsPair(lords, rest[i], p);
        assert rows[i + 1] == rest[i];
      }
      if exists i :: 0 <= i < |rows| && YieldsPair(lords, rows[i], p) {
        var i :| 0 <= i < |rows| && YieldsPair(lords, rows[i], p);
        if i > 0 {
          assert rest[i - 1] == rows[i];
        }
      }
    }
  }

  /**
   * After a successful run every `lord_traits` and `lord_skills` row names a
   * lord_id of the `lords` table, and every skill_id is below 10**9.
   */
  lemma RunReferentialIntegrity(lords: seq<LordRow>, traits: Option<seq<TraitRow>>, skills: Option<seq<SkillRow>>,
                                hash: string -> int)
    requires Run(lords, traits, skills, hash).Ok?
    ensures var db := Run(lords, traits, skills, hash).value;
      && (forall p :: p in db.traits ==> 1 <= p.0 <= |db.lords|)
      && (forall k :: k in db.skills ==> 1 <= k.0 <= |db.lords| && k.1 < SkillIdModulus)
  {
    var db := Run(lords, traits, skills, hash).value;
    forall p | p in db.traits ensures 1 <= p.0 <= |db.lords| {
      TraitsResolved(lords, traits, skills, hash, p);
    }
    forall k | k in db.skills ensures 1 <= k.0 <= |db.lords| && k.1 < SkillIdModulus {
      SkillsResolved(lords, traits, skills, hash, k);
    }
  }

  /**
   * `run` succeeds exactly when every age and level cell of lords.csv is
   * blank or an integer SQLite can store, no ext_id repeats, and every
   * lord_skills.csv row that is not skipped has a blank value or one such
   * integer; rows that are skipped (unknown lord, blank key) are never parsed.
   */
  lemma RunOkIff(lords: seq<LordRow>, traits: Option<seq<TraitRow>>, skills: Option<seq<SkillRow>>, hash: string -> int)
    ensures var ss := skills.GetOr([]);
      Run(lords, traits, skills, hash).Ok? <==>
        && (forall i :: 0 <= i < |lords| ==> CellOk(lords[i].age) && CellOk(lords[i].level))
        && Distinct(ExtIds(lords))
        && (forall j :: 0 <= j < |ss| && SkillRowKept(lords, ss[j]) ==> CellOk(ss[j].value))
  {
    ImportLordsOkIff(lords);
    RunOk(lords, traits, skills, hash);
    if ImportLords(lords).Ok? {
      SkillsOkIff(lords, hash, skills.GetOr([]));
    }
  }

  /** The lords insert succeeds exactly when every age and level cell parses and binds and no ext_id repeats. */
  lemma ImportLordsOkIff(lords: seq<LordRow>)
    ensures ImportLords(lords).Ok? <==>
      (forall i :: 0 <= i < |lords| ==> CellOk(lords[i].age) && CellOk(lords[i].level)) && Distinct(ExtIds(lords))
  {
    assert Records(lords, 1).Ok? <==> forall i :: 0 <= i < |lords| ==> IntField(lords[i].age).Ok? && IntField(lords[i].level).Ok? by {
      if Records(lords, 1).Ok? {
        forall i | 0 <= i < |lords| ensures IntField(lords[i].age).Ok? && IntField(lords[i].level).Ok? {
          assert RecordOf(1 + i, lords[i]).Ok?;
        }
      }
    }
  }

  /** `run` succeeds exactly when the lords insert, the skills loop and the skills insert do. */
  lemma RunOk(lords: seq<LordRow>, traits: Option<seq<TraitRow>>, skills: Option<seq<SkillRow>>, hash: string -> int)
    ensures Run(lords, traits, skills, hash).Ok? <==>
      && ImportLords(lords).Ok?
      && SkillInserts(ImportLords(lords).value, hash, skills.GetOr([])).Ok?
      && InsertsFit(SkillInserts(ImportLords(lords).value, hash, skills.GetOr([])).value)
  {
  }

  /** After the lords insert, the skills loop and insert succeed exactly when every kept value parses and binds. */
  lemma SkillsOkIff(lords: seq<LordRow>, hash: string -> int, ss: seq<SkillRow>)
    requires ImportLords(lords).Ok?
    ensures var recs := ImportLords(lords).value;
      (SkillInserts(recs, hash, ss).Ok? && InsertsFit(SkillInserts(recs, hash, ss).value)) <==>
        forall j :: 0 <= j < |ss| && SkillRowKept(lords, ss[j]) ==> CellOk(ss[j].value)
  {
    var recs := ImportLords(lords).value;
    SkillInsertsFail(recs, hash, ss);
    forall j | 0 <= j < |ss| ensures Kept(recs, ss[j]) <==> SkillRowKept(lords, ss[j]) {
      LookupImported(lords, ss[j].extId);
    }
    if SkillInserts(recs, hash, ss).Ok? {
      SkillInsertsFit(recs, hash, ss);
    }
  }

  /**
   * Once the lords are in and every kept skills value parses, a kept value
   * outside SQLite's range makes the skills insert raise OverflowError.
   */
  lemma SkillOverflowRejected(lords: seq<LordRow>, traits: Option<seq<TraitRow>>, skills: Option<seq<SkillRow>>,
                              hash: string -> int, j: nat)
    requires ImportLords(lords).Ok?
    requires var ss := skills.GetOr([]); forall k :: 0 <= k < |ss| && SkillRowKept(lords, ss[k]) ==> IntField(ss[k].value).Ok?
    requires var ss := skills.GetOr([]); j < |ss| && SkillRowKept(lords, ss[j]) && !CellFits(ss[j].value)
    ensures Run(lords, traits, skills, hash) == Err(Overflow)
  {
    var ss := skills.GetOr([]);
    var recs := ImportLords(lords).value;
    forall k | 0 <= k < |ss| ensures Kept(recs, ss[k]) <==> SkillRowKept(lords, ss[k]) {
      LookupImported(lords, ss[k].extId);
    }
    SkillInsertsFail(recs, hash, ss);
    SkillInsertsFit(recs, hash, ss);
    assert !ValueFits(recs, ss[j]);
  }

  /**
   * The `lords` table after a successful run, column by column: row i holds
   * lords.csv row i with id i + 1; an empty gender or traits cell is NULL, an
   * empty age or level cell is NULL and any other is its integer; clan_id,
   * culture_id, sp_per_lvl and sum_stats are always NULL.
   */
  lemma LordsTable(lords: seq<LordRow>, traits: Option<seq<TraitRow>>, skills: Option<seq<SkillRow>>,
                   hash: string -> int, i: nat)
    requires Run(lords, traits, skills, hash).Ok? && i < |lords|
    ensures var rec := Run(lords, traits, skills, hash).value.lords[i];
      && rec.lordId == i + 1 && rec.extId == lords[i].extId && rec.name == lords[i].name
      && rec.gender == NonEmpty(lords[i].gender) && rec.traits == NonEmpty(lords[i].traits)
      && rec.age == IntField(lords[i].age).value && rec.level == IntField(lords[i].level).value
      && rec.clanId.None? && rec.cultureId.None? && rec.spPerLvl.None? && rec.sumStats.None?
      && rec.sourceUrl == lords[i].sourceUrl
  {
  }

  /**
   * A repeated ext_id in lords.csv makes the insert fail; it is the UNIQUE
   * violation unless a malformed or out-of-range number has failed it first.
   */
  lemma DuplicateExtIdRejected(lords: seq<LordRow>, traits: Option<seq<TraitRow>>, skills: Option<seq<SkillRow>>,
                               hash: string -> int, i: nat, j: nat)
    requires i < j < |lords| && lords[i].extId == lords[j].extId
    ensures Run(lords, traits, skills, hash).Err?
    ensures Records(lords, 1).Ok? && (forall k :: 0 <= k < |lords| ==> RowFits(lords[k]))
      ==> Run(lords, traits, skills, hash) == Err(DuplicateExtId)
  {
    assert ExtIds(lords)[i] == ExtIds(lords)[j];
  }

  /**
   * `lord_traits` after a successful run holds exactly the pairs (lord_id of
   * the lord, trait) of the lord_traits.csv rows whose ext_id is in lords.csv.
   */
  lemma TraitsResolved(lords: seq<LordRow>, traits: Option<seq<TraitRow>>, skills: Option<seq<SkillRow>>,
                       hash: string -> int, p: (nat, string))
    requires Run(lords, traits, skills, hash).Ok?
    ensures var ts := traits.GetOr([]);
      p in Run(lords, traits, skills, hash).value.traits <==>
        exists i, j :: 0 <= i < |lords| && 0 <= j < |ts| && ts[j].extId == lords[i].extId && p == (i + 1, ts[j].text)
  {
    RunTables(lords, traits, skills, hash);
    ImportedTraits(lords, traits.GetOr([]), p);
  }

  lemma ImportedTraits(lords: seq<LordRow>, ts: seq<TraitRow>, p: (nat, string))
    requires ImportLords(lords).Ok?
    ensures p in ImportTraits(ImportLords(lords).value, ts) <==>
      exists i, j :: 0 <= i < |lords| && 0 <= j < |ts| && ts[j].extId == lords[i].extId && p == (i + 1, ts[j].text)
  {
    var recs := ImportLords(lords).value;
    ImportTraitsMembers(recs, ts, p);
    if p in ImportTraits(recs, ts) {
      var j :| 0 <= j < |ts| && YieldsPair(recs, ts[j], p);
      LookupImported(lords, ts[j].extId);
      var i :| 0 <= i < |lords| && ExtIds(lords)[i] == ts[j].extId;
      assert p == (i + 1, ts[j].text);
    }
    if exists i, j :: 0 <= i < |lords| && 0 <= j < |ts| && ts[j].extId == lords[i].extId && p == (i + 1, ts[j].text) {
      var i, j :| 0 <= i < |lords| && 0 <= j < |ts| && ts[j].extId == lords[i].extId && p == (i + 1, ts[j].text);
      LookupImported(lords, ts[j].extId);
    }
  }

  /** Under `INSERT OR IGNORE` the first row for a (lord_id, skill_id) pair decides its value; later ones are ignored. */
  lemma {:induction false} FirstInsertWins(m: map<(nat, nat), Option<int>>, ins: seq<SkillInsert>, i: nat)
    requires i < |ins| && KeyOf(ins[i]) !in m
    requires forall j :: 0 <= j < i ==> KeyOf(ins[j]) != KeyOf(ins[i])
    ensures KeyOf(ins[i]) in InsertOrIgnore(m, ins) && InsertOrIgnore(m, ins)[KeyOf(ins[i])] == ins[i].value
    decreases |ins|
  {
    var k0 := KeyOf(ins[0]);
    var m' := if k0 in m then m else m[k0 := ins[0].value];
    assert InsertOrIgnore(m, ins) == InsertOrIgnore(m', ins[1..]);
    if i > 0 {
      assert ins[1..][i - 1] == ins[i];
      forall j | 0 <= j < i - 1 ensures KeyOf(ins[1..][j]) != KeyOf(ins[i]) {
        assert ins[1..][j] == ins[j + 1];
      }
      FirstInsertWins(m', ins[1..], i - 1);
    }
  }

  // ---------------------------------------------------------------------------
  // The lord_skills table

  /** A skipped row adds no insert. */
  lemma InsertsSkip(lords: seq<LordRecord>, hash: string -> int, rows: seq<SkillRow>)
    requires |rows| > 0 && !Kept(lords, rows[0])
    ensures SkillInserts(lords, hash, rows) == SkillInserts(lords, hash, rows[1..])
  {
  }

  /** A kept row adds its insert in front of those of the later rows. */
  lemma InsertsHead(lords: seq<LordRecord>, hash: string -> int, rows: seq<SkillRow>)
    requires |rows| > 0 && Kept(lords, rows[0]) && SkillInserts(lords, hash, rows).Ok?
    ensures IntField(rows[0].value).Ok? && SkillInserts(lords, hash, rows[1..]).Ok?
    ensures SkillInserts(lords, hash, rows).value ==
      [InsertOf(lords, hash, rows[0])] + SkillInserts(lords, hash, rows[1..]).value
  {
  }

  /** `INSERT OR IGNORE` of one row, then of the rest. */
  lemma InsertOrIgnoreCons(m: map<(nat, nat), Option<int>>, x: SkillInsert, xs: seq<SkillInsert>)
    ensures InsertOrIgnore(m, [x] + xs) ==
      InsertOrIgnore(if KeyOf(x) in m then m else m[KeyOf(x) := x.value], xs)
  {
    assert ([x] + xs)[0] == x && ([x] + xs)[1..] == xs;
  }

  /** Skill row `row` of a known lord with a non-blank key is inserted under `key`. */
  predicate KeptUnder(lords: seq<LordRecord>, hash: string -> int, row: SkillRow, key: (nat, nat)) {
    Kept(lords, row) && RowKey(lords, hash, row) == key
  }

  /** A key is stored exactly when it was stored before or some kept row is inserted under it. */
  lemma {:induction false} InsertedKeys(lords: seq<LordRecord>, hash: string -> int, rows: seq<SkillRow>,
                                        m: map<(nat, nat), Option<int>>, key: (nat, nat))
    requires SkillInserts(lords, hash, rows).Ok?
    ensures key in InsertOrIgnore(m, SkillInserts(lords, hash, rows).value) <==>
      key in m || exists j :: 0 <= j < |rows| && KeptUnder(lords, hash, rows[j], key)
    decreases |rows|
  {
    if |rows| > 0 {
      var rest := rows[1..];
      var m' := m;
      if Kept(lords, rows[0]) {
        InsertsHead(lords, hash, rows);
        var x := InsertOf(lords, hash, rows[0]);
        InsertOrIgnoreCons(m, x, SkillInserts(lords, hash, rest).value);
        m' := if KeyOf(x) in m then m else m[KeyOf(x) := x.value];
      } else {
        InsertsSkip(lords, hash, rows);
      }
      InsertedKeys(lords, hash, rest, m', key);
      ShiftKeptWitness(lords, hash, rows, key);
    }
  }

  lemma ShiftKeptWitness(lords: seq<LordRecord>, hash: string -> int, rows: seq<SkillRow>, key: (nat, nat))
    requires |rows| > 0
    ensures (exists j :: 0 <= j < |rows| && KeptUnder(lords, hash, rows[j], key)) <==>
      KeptUnder(lords, hash, rows[0], key) ||
      (exists j :: 0 <= j < |rows[1..]| && KeptUnder(lords, hash, rows[1..][j], key))
  {
    if exists j :: 0 <= j < |rows| && KeptUnder(lords, hash, rows[j], key) {
      var j :| 0 <= j < |rows| && KeptUnder(lords, hash, rows[j], key);
      if j > 0 {
        assert rows[1..][j - 1] == rows[j];
      }
    }
    if exists j :: 0 <= j < |rows[1..]| && KeptUnder(lords, hash, rows[1..][j], key) {
      var j :| 0 <= j < |rows[1..]| && KeptUnder(lords, hash, rows[1..][j], key);
      assert rows[j + 1] == rows[1..][j];
    }
  }

  /** Under `INSERT OR IGNORE` the first kept row inserted under a fresh key decides its value. */
  lemma {:induction false} FirstKeptRowWins(lords: seq<LordRecord>, hash: string -> int, rows: seq<SkillRow>,
                                            m: map<(nat, nat), Option<int>>, j: nat)
    requires SkillInserts(lords, hash, rows).Ok?
    requires j < |rows| && Kept(lords, rows[j]) && RowKey(lords, hash, rows[j]) !in m
    requires forall k :: 0 <= k < j && Kept(lords, rows[k]) ==> RowKey(lords, hash, rows[k]) != RowKey(lords, hash, rows[j])
    ensures IntField(rows[j].value).Ok?
    ensures var db := InsertOrIgnore(m, SkillInserts(lords, hash, rows).value);
      RowKey(lords, hash, rows[j]) in db && db[RowKey(lords, hash, rows[j])] == IntField(rows[j].value).value
    decreases |rows|
  {
    var rest := rows[1..];
    var key := RowKey(lords, hash, rows[j]);
    if !Kept(lords, rows[0]) {
      InsertsSkip(lords, hash, rows);
      ShiftEarlierRows(lords, hash, rows, j);
      FirstKeptRowWins(lords, hash, rest, m, j - 1);
    } else {
      InsertsHead(lords, hash, rows);
      var x := InsertOf(lords, hash, rows[0]);
      var ins := SkillInserts(lords, hash, rest).value;
      InsertOrIgnoreCons(m, x, ins);
      var m' := if KeyOf(x) in m then m else m[KeyOf(x) := x.value];
      assert InsertOrIgnore(m, SkillInserts(lords, hash, rows).value) == InsertOrIgnore(m', ins);
      if j > 0 {
        assert KeyOf(x) != key;
        assert key !in m';
        ShiftEarlierRows(lords, hash, rows, j);
        FirstKeptRowWins(lords, hash, rest, m', j - 1);
      } else {
        assert KeyOf(x) == key && m'[key] == IntField(rows[j].value).value;
        KeepsStored(m', ins, key);
      }
    }
  }

  /** A key already stored keeps its value under `INSERT OR IGNORE`. */
  lemma KeepsStored(m: map<(nat, nat), Option<int>>, ins: seq<SkillInsert>, key: (nat, nat))
    requires key in m
    ensures key in InsertOrIgnore(m, ins) && InsertOrIgnore(m, ins)[key] == m[key]
  {
  }

  lemma ShiftEarlierRows(lords: seq<LordRecord>, hash: string -> int, rows: seq<SkillRow>, j: nat)
    requires 0 < j < |rows| && Kept(lords, rows[j])
    requires forall k :: 0 <= k < j && Kept(lords, rows[k]) ==> RowKey(lords, hash, rows[k]) != RowKey(lords, hash, rows[j])
    ensures rows[1..][j - 1] == rows[j]
    ensures forall k :: 0 <= k < j - 1 && Kept(lords, rows[1..][k]) ==>
      RowKey(lords, hash, rows[1..][k]) != RowKey(lords, hash, rows[j])
  {
    forall k | 0 <= k < j - 1 && Kept(lords, rows[1..][k])
      ensures RowKey(lords, hash, rows[1..][k]) != RowKey(lords, hash, rows[j])
    {
      assert rows[1..][k] == rows[k + 1];
    }
  }

  /** The lord_id a lord_skills.csv row resolves to and the skill_id of its key, when it is not skipped. */
  ghost predicate StoredUnder(lords: seq<LordRow>, hash: string -> int, row: SkillRow, i: nat, key: (nat, nat)) {
    i < |lords| && row.extId == lords[i].extId && SkillKey(row.skillKey) != []
    && key == (i + 1, SkillId(hash, SkillKey(row.skillKey)))
  }

  lemma KeptRowKey(lords: seq<LordRow>, hash: string -> int, row: SkillRow, i: nat)
    requires ImportLords(lords).Ok? && i < |lords| && row.extId == lords[i].extId && SkillKey(row.skillKey) != []
    ensures Kept(ImportLords(lords).value, row)
    ensures RowKey(ImportLords(lords).value, hash, row) == (i + 1, SkillId(hash, SkillKey(row.skillKey)))
  {
    LookupImported(lords, row.extId);
  }

  lemma KeptRowIndex(lords: seq<LordRow>, hash: string -> int, row: SkillRow) returns (i: nat)
    requires ImportLords(lords).Ok? && Kept(ImportLords(lords).value, row)
    ensures StoredUnder(lords, hash, row, i, RowKey(ImportLords(lords).value, hash, row))
  {
    LookupImported(lords, row.extId);
    i :| 0 <= i < |lords| && ExtIds(lords)[i] == row.extId;
  }

  /**
   * `lord_skills` after a successful run holds a (lord_id, skill_id) key
   * exactly when some lord_skills.csv row names a lord of lords.csv, has a
   * non-blank key, and hashes to it; orphan and blank-key rows store nothing.
   */
  lemma SkillsResolved(lords: seq<LordRow>, traits: Option<seq<TraitRow>>, skills: Option<seq<SkillRow>>,
                       hash: string -> int, key: (nat, nat))
    requires Run(lords, traits, skills, hash).Ok?
    ensures var ss := skills.GetOr([]);
      key in Run(lords, traits, skills, hash).value.skills <==>
        exists i, j :: 0 <= j < |ss| && StoredUnder(lords, hash, ss[j], i, key)
  {
    var ss := skills.GetOr([]);
    var recs := ImportLords(lords).value;
    RunTables(lords, traits, skills, hash);
    InsertedKeys(recs, hash, ss, map[], key);
    if exists j :: 0 <= j < |ss| && KeptUnder(recs, hash, ss[j], key) {
      var j :| 0 <= j < |ss| && KeptUnder(recs, hash, ss[j], key);
      var i := KeptRowIndex(lords, hash, ss[j]);
    }
    if exists i, j :: 0 <= j < |ss| && StoredUnder(lords, hash, ss[j], i, key) {
      var i, j :| 0 <= j < |ss| && StoredUnder(lords, hash, ss[j], i, key);
      KeptRowKey(lords, hash, ss[j], i);
    }
  }

  /**
   * The first lord_skills.csv row stored under a key decides the stored
   * value: its value cell read as an integer, NULL when blank. Later rows
   * with the same lord and the same hashed key are ignored.
   */
  lemma FirstSkillRowWins(lords: seq<LordRow>, traits: Option<seq<TraitRow>>, skills: Option<seq<SkillRow>>,
                          hash: string -> int, i: nat, j: nat, key: (nat, nat))
    requires Run(lords, traits, skills, hash).Ok?
    requires var ss := skills.GetOr([]); j < |ss| && StoredUnder(lords, hash, ss[j], i, key)
    requires var ss := skills.GetOr([]);
      forall i', j' :: 0 <= j' < j ==> !StoredUnder(lords, hash, ss[j'], i', key)
    ensures var ss := skills.GetOr([]);
      && IntField(ss[j].value).Ok?
      && key in Run(lords, traits, skills, hash).value.skills
      && Run(lords, traits, skills, hash).value.skills[key] == IntField(ss[j].value).value
  {
    var ss := skills.GetOr([]);
    var recs := ImportLords(lords).value;
    RunTables(lords, traits, skills, hash);
    KeptRowKey(lords, hash, ss[j], i);
    forall k | 0 <= k < j && Kept(recs, ss[k]) ensures RowKey(recs, hash, ss[k]) != key {
      var i' := KeptRowIndex(lords, hash, ss[k]);
    }
    FirstKeptRowWins(recs, hash, ss, map[], j);
  }
}
