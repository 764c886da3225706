# Bannerlord lords scraper — a Dafny model

This project models the data path of the Bannerlord lords scraper in Dafny:

- **Title listing** (`scrape/build_lords_list.py`). `fetch_all_members` walks the paginated `categorymembers` listing of a wiki category. `clean_titles` drops namespaced titles, strips, de-duplicates and sorts what is left.
- **Per-page extraction** (`scrape/scrape_lords.py`):
  - `parse_infobox` takes name, age, gender and level from the page heading and the infobox.
  - `extract_traits` takes the items after the first "trait" heading.
  - `extract_skills` takes the rows of skill tables.
  - `slugify` and the row construction in `main` turn one page into rows of the three staging tables (`lords.csv`, `lord_traits.csv`, `lord_skills.csv`).
- **Import** (`scripts/import_to_sqlite.py`). `run` loads the staging rows into the `lords`, `lord_traits` and `lord_skills` tables of a freshly created SQLite database.

Everything is pure:

- A parsed HTML page is the `Html.Page` datatype. It holds:
  - the optional `#firstHeading` and `<h1>` texts;
  - the optional portable and classic infobox containers, each with its `data-source` items and its `<th>`/`<td>` rows;
  - the page body as a flat sequence of headings, lists, paragraphs and other elements;
  - its tables.
- Fetching a page is the parameter `pageOf`. The category server is a finite sequence of responses.
- Python's `hash` is the parameter `hash`.
- The database after `run` is `Importer.Db`:
  - `lords` is a sequence of records numbered 1, 2, … in file order;
  - `lord_traits` is a set of `(lord_id, trait)` pairs;
  - `lord_skills` is a map from `(lord_id, skill_id)` to the stored value.
- `run` can raise, so it returns a `Result`. It fails in three ways:
  - `int()` meets a malformed age, level or skill value cell;
  - binding an integer outside SQLite's signed 64-bit range raises OverflowError;
  - the UNIQUE constraint on `ext_id` is violated.

  `executemany` binds each row and then inserts it before it moves to the next row. So in the lords insert, the first row that either overflows or repeats an ext_id decides which of the last two errors is raised.

Modules, in dependency order:

| module | file | content |
|---|---|---|
| `Wrappers` | wrappers.dfy | `Option`, `Result` |
| `Text` | text.dfy | ASCII whitespace, `lower`, `strip`, `re.sub(r"\s+", …)`, `len(s.split())`, substring test |
| `Numbers` | numbers.dfy | leftmost `\d+` and `-?\d+` matches, `str(n)`, `int(text)` |
| `Ordering` | ordering.dfy | Python's `str` order, `sorted` |
| `Html` | html.dfy | the parsed page |
| `Infobox` | infobox.dfy | `parse_infobox` |
| `Traits` | traits.dfy | `extract_traits` |
| `Skills` | skills.dfy | `extract_skills` |
| `Staging` | staging.dfy | `slugify` and the row construction of `main` |
| `Titles` | titles.dfy | `fetch_all_members`, `clean_titles` |
| `Importer` | importer.dfy | `run` |
| `Pipeline` | pipeline.dfy | what the staging rows look like after the import reads them back |

Two places where the code does less than its own comments suggest. The model follows the code:

- **Infobox row fallback.** The comment at scrape/scrape_lords.py:58 calls the `<tr>` loop a "fallback classic table". The loop reads the rows of the one container chosen on lines 25-28, and that is the portable infobox whenever there is one. A `table.infobox` beside a portable infobox is never read. `Infobox.ClassicIgnoredBesidePortable` states this.
- **Blocked prefixes.** `clean_titles` tests the prefixes before it strips the title. So `" Category:X"` is admitted as `"Category:X"`, and a second pass would remove it. `Titles.LeadingSpaceDefeatsBlocklist` exhibits this case, and `Titles.CleanTitlesIdempotent` carries the premise that excludes it.

## Model

| member | source | states |
|---|---|---|
| Staging.Slugify | scrape/scrape_lords.py:14-15 | the ext_id has the title's length, contains no space, keeps every non-space character, and has `_` wherever the title has a space |
| Staging.SlugifyNotInjective | scrape/scrape_lords.py:14-15 | two different titles ("A B" and "A_B") get the same ext_id |
| Infobox.ParseInfobox | scrape/scrape_lords.py:24-76 | with neither container, age, gender and level are unset and the name is the `<h1>` text, else the `#firstHeading` text; with a container, the name is the `#firstHeading` text first, then the `<h1>` text, and the result is the row fallback applied to what the `data-source` loop left |
| Infobox.ClassicIgnoredBesidePortable | scrape/scrape_lords.py:24-28 | when a portable infobox exists, whatever classic table the page also has does not affect the result |
| Infobox.ItemSlot | scrape/scrape_lords.py:44-54 | an item feeds age iff its text is non-empty and its stripped lower-cased label is "age"; gender iff the label is "gender" or "sex"; level iff it is "level"; anything else feeds nothing |
| Infobox.ItemsKeepName | scrape/scrape_lords.py:43-56 | the `data-source` loop never changes the name |
| Infobox.ItemsUnfed | scrape/scrape_lords.py:44-56 | a field that no item feeds keeps its value through the loop |
| Infobox.LastItemWins | scrape/scrape_lords.py:44-56 | the last item feeding a field decides it, an earlier one being overwritten: for age and level the leftmost digit run of its text (unset without a digit), for gender its text |
| Infobox.ApplyRow | scrape/scrape_lords.py:60-74 | a row lacking `<th>` or `<td>` changes nothing; otherwise the row fills the first of age, gender, level whose name is in the lower-cased label and which is still unset; no set field is replaced |
| Infobox.ApplyRows | scrape/scrape_lords.py:60-74 | the row loop keeps the name and never replaces a set field |
| Infobox.AgeFromFirstDigitRow | scrape/scrape_lords.py:67-69 | with age unset beforehand, the loop's age is the digit run of the first age row whose `<td>` has a digit; age rows before it leave age unset |
| Infobox.AgeUnsetWithoutDigitRow | scrape/scrape_lords.py:67-69 | with age unset beforehand and no age row holding a digit, age stays unset |
| Infobox.GenderDecidedAt | scrape/scrape_lords.py:70-71 | a gender row reached while gender is still unset, and not taken by the age branch, sets gender to its `<td>` text for good |
| Infobox.LevelDecidedAt | scrape/scrape_lords.py:72-74 | a level row reached while level is still unset, not taken by the age or gender branch, whose `<td>` has a digit decides the level for good |
| Infobox.GenderUnsetWithoutRow | scrape/scrape_lords.py:70-71 | with gender unset beforehand, it stays unset exactly when no gender-labelled row is reached while gender is unset without the age branch taking it |
| Infobox.LevelUnsetWithoutDigitRow | scrape/scrape_lords.py:72-74 | with level unset beforehand, it stays unset exactly when no level-labelled row with a digit is reached while level is unset without the age or gender branch taking it |
| Infobox.Fallback | scrape/scrape_lords.py:59-74 | the guard on line 59 never changes the result: the guarded loop equals the unguarded one; the name and every set field survive |
| Infobox.RowsKeepComplete | scrape/scrape_lords.py:59-74 | with age, gender and level all set, the row loop changes nothing |
| Infobox.FallbackKeepsSetFields | scrape/scrape_lords.py:58-76 | in `parse_infobox`, every field the `data-source` items set survives the row fallback |
| Numbers.SearchNat | scrape/scrape_lords.py:50-51 | none exactly when the text has no digit; otherwise the value of the leftmost maximal digit run, never negative |
| Numbers.LeftmostRunUnique | scrape/scrape_lords.py:50 | a text has at most one leftmost maximal digit run, so the `\d+` match is well defined |
| Numbers.SearchInt | scrape/scrape_lords.py:134-135 | none exactly when the text has no digit; otherwise the value of the leftmost `-?\d+` match, negated when a '-' directly precedes the first digit |
| Numbers.LeftmostSignedRunIs | scrape/scrape_lords.py:134 | the `-?\d+` match starts at the first digit or at the '-' just before it, and ends where that digit run ends |
| Numbers.DecimalRoundTrip | scrape/scrape_lords.py:171-173 | reading back `str(n)` gives `n` for every integer |
| Text.StripChars | scrape/scrape_lords.py:104 | the result neither starts nor ends with a stripped character, is empty iff every character is stripped, and is what is left after removing stripped characters from both ends |
| Text.StripCharsUnique | scrape/scrape_lords.py:104 | any infix left by removing stripped characters from both ends, whose own ends are not stripped characters, is the strip: the strip is the unique such infix |
| Text.StripIdempotent | scrape/build_lords_list.py:36 | stripping twice is stripping once |
| Text.WordsShape | scrape/scrape_lords.py:97 | `split()` gives no word exactly when the text is all whitespace, and every word is non-empty and whitespace-free |
| Text.WordCountIsWordStarts | scrape/scrape_lords.py:97 | `len(t.split())` equals the number of positions where a word starts |
| Text.WordCountIsWords | scrape/scrape_lords.py:97 | `len(t.split())` is the number of words `split()` returns |
| Text.WordsJoin | scrape/scrape_lords.py:97 | splitting whitespace-free words joined by single spaces gives back the same words |
| Text.WordsStrip | scrape/scrape_lords.py:97 | stripping a text does not change its words |
| Text.SubSpaceRunsWords | scrape/scrape_lords.py:133 | `re.sub(r"\s+", rep, s)` is the words of `s` joined by `rep`, with one `rep` in front when `s` starts with whitespace and one behind when it ends with whitespace; an all-whitespace non-empty text becomes a single `rep` |
| Text.SubSpaceRunsShape | scrape/scrape_lords.py:133 | after the substitution the only whitespace left is the replacement, and never two whitespace characters in a row |
| Text.CollapseSpaces | scrape/scrape_lords.py:104 | `re.sub(r"\s+", " ", t)` is single-spaced: its only whitespace is `' '`, never twice in a row |
| Text.CollapseSpacesWords | scrape/scrape_lords.py:104 | collapsing whitespace keeps the words and their order |
| Text.LowerStrip | scrape/scrape_lords.py:133 | lower-casing and stripping commute |
| Traits.FirstTraitHeadingIsFirst | scrape/scrape_lords.py:83-85 | the chosen heading is the first `<h2>`–`<h4>` whose lower-cased text contains "trait", and none is chosen only when there is none |
| Traits.RawTraitsAt | scrape/scrape_lords.py:83-99 | with a trait heading, collection starts right after it |
| Traits.CollectUpToStop | scrape/scrape_lords.py:87-89 | nothing after the next `<h2>`/`<h3>` is collected (an `<h4>` does not stop collection) |
| Traits.TraitsEndAtNextSection | scrape/scrape_lords.py:83-99 | once an `<h2>`/`<h3>` follows the trait heading, appending any blocks to the page (including further "trait" headings) changes neither the raw nor the cleaned traits |
| Traits.CleanOne | scrape/scrape_lords.py:104 | a cleaned text is the words of the captured text joined by single spaces, then stripped of `' •;,-'`: it is single-spaced and neither starts nor ends with one of those characters |
| Traits.CollapseThenStrip | scrape/scrape_lords.py:104 | collapsing whitespace runs and then stripping `' •;,-'` equals stripping the single-space join of the words |
| Traits.CleanOneKeepsWords | scrape/scrape_lords.py:104 | when the first and last words do not start or end with one of `' •;,-'`, cleaning keeps exactly the words, in order |
| Traits.FirstOccurrences | scrape/scrape_lords.py:102-107 | reference de-duplication: no repeats, and it holds exactly the non-empty elements of the input |
| Traits.DedupIsFirstOccurrences | scrape/scrape_lords.py:102-107 | the `if t and t not in clean` loop computes the first occurrences in first-seen order |
| Traits.CleanTraits | scrape/scrape_lords.py:101-107 | the cleaned traits are the first occurrences of the cleaned captured texts |
| Traits.CleanTraitsShape | scrape/scrape_lords.py:101-107 | the traits have no repeats; each is non-empty, single-spaced, free of `' •;,-'` at both ends and the cleaning of some captured text; every captured text whose cleaning is non-empty is present |
| Traits.ExtractTraits | scrape/scrape_lords.py:78-107 | the result is the first occurrences of the cleaned raw traits, and is empty without a trait heading |
| Skills.Put | scrape/scrape_lords.py:137 | `d[k] = v`: the map takes the new value, an existing key keeps its position, a new key is appended |
| Skills.NormalizeKey | scrape/scrape_lords.py:133 | the key is the words of the lower-cased cell joined by `_`: no whitespace and no upper-case letter remain |
| Skills.NormalizedWords | scrape/scrape_lords.py:133 | `re.sub(r"\s+", "_", k.strip().lower())` equals the `_`-join of the words of the lower-cased cell |
| Skills.RowEntry | scrape/scrape_lords.py:125-137 | a row yields an entry exactly when it has at least two cells, a non-empty first cell and a normalised key other than "skill" and "name"; the entry is that key with the `-?\d+` match of the second cell |
| Skills.PutTablesIsPutAll | scrape/scrape_lords.py:119-137 | the two nested loops apply exactly the accepted rows of the skill tables, in order |
| Skills.SkillsLastWriteWins | scrape/scrape_lords.py:119-137 | a key holds the value of the last accepted row that carries it, across all skill tables |
| Skills.SkillsUnwrittenAbsent | scrape/scrape_lords.py:119-137 | a key that no accepted row carries is absent |
| Skills.WritesKeys | scrape/scrape_lords.py:133-137 | every accepted row's key is lower-case, whitespace-free, and neither "skill" nor "name" |
| Skills.SkillKeysWellFormed | scrape/scrape_lords.py:133-137 | every key of the result is lower-case, whitespace-free, and neither "skill" nor "name" |
| Staging.NatCell | scrape/scrape_lords.py:171-173 | the cell is empty exactly when the value is absent |
| Staging.LordRowOf | scrape/scrape_lords.py:160-178 | the ext_id is the slug of the title; the name is the infobox name unless it is missing or empty, else the title; reserved columns are empty; the traits cell is empty exactly when there are no traits or only an empty one; the source URL is the wiki base plus the ext_id |
| Staging.ScrapePage | scrape/scrape_lords.py:155-184 | one lords row per page, built from the page's infobox and traits; its trait rows are the extracted traits in order and its skill rows the extracted skills in insertion order with their value cells, all under that row's ext_id |
| Staging.LineTitle | scrape/scrape_lords.py:150-153 | a line contributes its strip when that is non-empty, and nothing otherwise |
| Staging.Titles | scrape/scrape_lords.py:150-153 | every processed title is stripped and non-empty and comes from some line, and every line whose strip is non-empty is processed |
| Staging.TitlesAppend | scrape/scrape_lords.py:150-153 | the titles of two blocks of lines are the titles of the first block followed by those of the second, so titles keep the line order |
| Staging.TitlesOfLine | scrape/scrape_lords.py:150-153 | a single line yields exactly what `LineTitle` gives it |
| Staging.ScrapeTitles | scrape/scrape_lords.py:150-184 | one lords row per title, in order, each built from that title's page; every trait and skill row names the ext_id of a lords row |
| Staging.PageLordsAt | scrape/scrape_lords.py:155-178 | the i-th lords row is the row built from the i-th title and its page |
| Staging.ScrapeTitlesAppend | scrape/scrape_lords.py:150-184 | the tables for two blocks of titles are the first block's rows followed by the second's, in each of the three tables |
| Staging.ScrapeTitlesOne | scrape/scrape_lords.py:155-184 | a single title contributes exactly the rows of its page |
| Staging.Scrape | scrape/scrape_lords.py:140-184 | one lords row per processed title of the list, in order, each built from that title's page; every staged trait and skill row references a staged lord |
| Titles.GatherContents | scrape/build_lords_list.py:32-38 | the loop keeps no repeats and collects exactly the strips of the non-blocked inputs that are non-empty |
| Titles.CleanTitles | scrape/build_lords_list.py:30-39 | the output is strictly ascending in code-point order, has no repeats, consists of non-empty titles equal to their own strip, and holds x iff x is the non-empty strip of an unblocked input |
| Titles.GatherKeepsClean | scrape/build_lords_list.py:32-38 | the loop passes through a list that has no repeats and is already clean |
| Titles.CleanTitlesIdempotent | scrape/build_lords_list.py:30-39 | cleaning twice is cleaning once, when no admitted title becomes blocked after stripping |
| Titles.LeadingSpaceDefeatsBlocklist | scrape/build_lords_list.py:34-36 | `" Category:X"` passes the blocklist as `"Category:X"`, which a second pass removes |
| Titles.FetchAllMembers | scrape/build_lords_list.py:10-28 | the first request has no `cmcontinue`; each later one carries the previous response's token; the loop stops at the first response without a non-empty token; the result is every fetched page's titles concatenated in request order |
| Importer.NonEmpty | scripts/import_to_sqlite.py:62 | `cell or None`: NULL exactly for the empty cell |
| Importer.IntField | scripts/import_to_sqlite.py:63 | an empty cell is NULL; a non-empty cell is its integer, or the import fails on it when it is not one |
| Importer.RecordOf | scripts/import_to_sqlite.py:58-69 | a lords row converts iff its age and level cells do; gender and traits are NULL when empty; clan, culture, sp_per_lvl and sum_stats are always NULL |
| Importer.Records | scripts/import_to_sqlite.py:57-69 | the lords loop succeeds iff every row converts, and otherwise fails with a failing row's error |
| Importer.RecordsFirstError | scripts/import_to_sqlite.py:57-69 | the first row with a malformed age or level decides the error the loop raises |
| Importer.InsertLordsNone | scripts/import_to_sqlite.py:70-74 | the lords `executemany` goes through iff no row has a number outside 64 bits or repeats an earlier row's ext_id |
| Importer.InsertLordsFirst | scripts/import_to_sqlite.py:70-74 | the first such failing row decides what is raised: OverflowError when one of its numbers does not bind, the UNIQUE violation otherwise |
| Importer.LordsInsertClean | scripts/import_to_sqlite.py:70-74 | no row of the insert fails iff the ext_ids are distinct and every age and level fits in 64 bits |
| Importer.ImportLords | scripts/import_to_sqlite.py:54-74 | a malformed number fails first; otherwise it succeeds iff the ext_ids are distinct and every number fits in 64 bits; with every number in range a repeated ext_id fails with the duplicate error; on success row i is `RecordOf(i + 1, rows[i])`: id i + 1, the row's ext_id, name and source_url, NULL for empty gender, traits, age and level cells, and NULL clan, culture, sp_per_lvl and sum_stats |
| Importer.LordsInsertFailsAt | scripts/import_to_sqlite.py:54-74 | when every number parses, the first row that overflows or repeats an ext_id fails the insert: with OverflowError if it overflows, with the duplicate error otherwise |
| Importer.ImportLordsOkIff | scripts/import_to_sqlite.py:54-74 | the lords insert succeeds iff every age and level cell is blank or an integer in 64 bits and no ext_id repeats |
| Importer.Lookup | scripts/import_to_sqlite.py:76-77 | `ext2id.get`: none exactly for an ext_id no lord has; otherwise the id of a lord with that ext_id |
| Importer.LookupImported | scripts/import_to_sqlite.py:76-77 | after the lords insert, `ext2id` maps exactly the ext_ids of lords.csv, each to its own row number |
| Importer.ImportTraitsMembers | scripts/import_to_sqlite.py:80-89 | a pair is stored iff some trait row of a known lord yields it |
| Importer.ImportedTraits | scripts/import_to_sqlite.py:76-89 | after the lords insert, the traits insert stores exactly the (row number, trait) pairs of trait rows whose ext_id is in lords.csv |
| Importer.TraitsResolved | scripts/import_to_sqlite.py:80-89 | `lord_traits` is exactly the set of (row number of the lord, trait) pairs of trait rows whose ext_id is in lords.csv; other rows are dropped |
| Importer.SkillId | scripts/import_to_sqlite.py:104 | every skill_id lies in [0, 10^9) |
| Importer.SkillInserts | scripts/import_to_sqlite.py:96-106 | on success there is exactly one insert per row that is not skipped, in file order: the lord's id, the skill_id of its normalised key, and its value cell read as an integer or NULL |
| Importer.SkillInsertsFail | scripts/import_to_sqlite.py:96-106 | the skills loop fails exactly when a row that is not skipped has a malformed value; skipped rows are never parsed |
| Importer.SkillInsertsFit | scripts/import_to_sqlite.py:96-107 | every skills insert binds iff the value of every row that is not skipped fits in 64 bits |
| Importer.InsertOrIgnore | scripts/import_to_sqlite.py:107 | stored pairs are never overwritten, every inserted key is present afterwards, and no other key appears |
| Importer.FirstInsertWins | scripts/import_to_sqlite.py:107 | the first row for a (lord_id, skill_id) pair decides its value |
| Importer.InsertedKeys | scripts/import_to_sqlite.py:96-107 | a key is stored after the skills insert exactly when it was stored before or some row that is not skipped maps to it |
| Importer.FirstKeptRowWins | scripts/import_to_sqlite.py:96-107 | the first non-skipped row mapping to a fresh key decides the stored value: its value cell read as an integer or NULL |
| Importer.Run | scripts/import_to_sqlite.py:8-111 | after a successful run the lords table is lords.csv converted row by row (`RecordOf(i + 1, row i)`), with ids 1, 2, … in file order; a failing lords insert fails the run with its error |
| Importer.LordsTable | scripts/import_to_sqlite.py:58-74 | after a successful run, every column of lords row i: id i + 1, ext_id, name and source_url as in the file, gender and traits NULL iff empty, age and level NULL when empty and otherwise their integer, clan_id, culture_id, sp_per_lvl and sum_stats always NULL |
| Importer.RunOkIff | scripts/import_to_sqlite.py:54-107 | `run` succeeds iff every age and level cell is blank or an integer in 64 bits, no ext_id repeats, and every non-skipped skill row has a blank value or an integer in 64 bits |
| Importer.SkillsOkIff | scripts/import_to_sqlite.py:91-107 | after the lords insert, the skills loop and insert succeed iff every non-skipped skill row has a blank value or an integer in 64 bits |
| Importer.SkillOverflowRejected | scripts/import_to_sqlite.py:96-107 | once every kept skill value parses, a kept value outside 64 bits fails the run with OverflowError |
| Importer.DuplicateExtIdRejected | scripts/import_to_sqlite.py:70-74 | a repeated ext_id fails the run, with the duplicate error when every number parses and fits in 64 bits |
| Importer.SkillsResolved | scripts/import_to_sqlite.py:91-107 | `lord_skills` holds a (lord_id, skill_id) key exactly when some lord_skills.csv row names a lord of lords.csv, has a non-blank key, and hashes to that skill_id |
| Importer.FirstSkillRowWins | scripts/import_to_sqlite.py:91-107 | the stored value under a key is that of the first lord_skills.csv row stored under it; later rows with the same key are ignored |
| Importer.RunReferentialIntegrity | scripts/import_to_sqlite.py:86-107 | every stored trait and skill row names an existing lord_id, and every skill_id is below 10^9 |
| Pipeline.NatCellRoundTrip | scripts/import_to_sqlite.py:63-65 | an age or level staged by `main` reads back unchanged: "" as NULL, `str(n)` as `n` |
| Pipeline.IntCellRoundTrip | scripts/import_to_sqlite.py:105 | a staged skill value reads back unchanged |
| Pipeline.LordRoundTrip | scripts/import_to_sqlite.py:58-69 | a scraped lords row always converts; age and level survive the round trip; gender becomes NULL iff it was missing or empty; the name is non-empty for a non-empty title |
| Pipeline.TraitsColumnNullIffNone | scrape/scrape_lords.py:176 | the traits column of a scraped page reads back NULL iff the page has no traits |
| Pipeline.ScrapeCellsParse | scrape/scrape_lords.py:167-184 | every age, level and skill value cell the scraper writes is one the importer's `int()` accepts |
| Pipeline.ImportAcceptsStaged | scripts/import_to_sqlite.py:54-89 | staging tables whose numbers parse and fit in 64 bits, whose ext_ids are distinct and whose trait rows name staged lords import without error and without dropping a trait row |
| Pipeline.ImportAcceptsScrape | scripts/import_to_sqlite.py:54-89 | when no two titles share an ext_id and no scraped number exceeds 64 bits, importing the scraper's output succeeds, creates one lord per title, and drops no trait row |
| Pipeline.ScrapedOverflowRejected | scripts/import_to_sqlite.py:63-74 | the scraper keeps every digit of an age, so a scraped age above 2^63-1 makes the import fail with OverflowError |

## Left out

- scrape/common.py is not part of this model. It covers HTTP through `requests`, the on-disk page cache, the sleep between requests and the JSON envelope. Fetching a page is the parameter `pageOf`, and the category server is a sequence of responses.
- scrape/dump_sqlite.py is not part of this model; it only writes SQLite's dump to a file.
- HTML parsing is not modelled: BeautifulSoup/lxml, CSS selection, `get_text(" ", strip=True)` spacing, and the descendant order of `find_all_next`. The page is given already parsed. Its body is a flat sequence of blocks, so nested elements are not visited twice.
- File I/O is not modelled: CSV reading and writing, reading `lords_list.txt`, `splitlines`, `print`, and the existence checks. The staging tables are sequences, and an absent optional file is `None`, which reads like an empty one.
- Unicode is not modelled. Whitespace is the ASCII part of what `str.isspace()` accepts: space, \t, \n, \r, \v, \f and the separators \x1c to \x1f. Non-ASCII whitespace such as \x85 or \xa0, which `\s` and `split()` also accept, is not whitespace here; `lower()` folds ASCII letters only; `\d` means ASCII digits.
- Numbers.ParseInt: accepts an optional sign and ASCII digits only. Python's `int()` also accepts surrounding whitespace and underscores between digits; such cells fail here.
- Numbers.ParseInt: has no length limit. From Python 3.11, `int()` raises ValueError on more than 4300 digits (scripts/import_to_sqlite.py:63, 65 and 105). Such a cell is read here. Unless its value is small because of leading zeros, the import then fails with OverflowError rather than the parse error.
- Numbers.SearchNat: has no length limit. The scraper's `int(m.group())` (scrape/scrape_lords.py:51, 56, 69, 74) raises ValueError from Python 3.11 on a match longer than 4300 digits. Nothing catches it, so `main` stops before writing any CSV; here the number is kept.
- Numbers.SearchInt: has no length limit either. The same ValueError at scrape/scrape_lords.py:135 is not modelled.
- Staging.Scrape: `pageOf` is a total function, so every title yields a page. In the source, a `get_page_html` that raises aborts `main` before any CSV is written; that outcome is not modelled.
- Importer.Run: its own contract covers the `lords` table, every column of every row through `Importer.RecordOf` (spelled out column by column in `Importer.LordsTable`), and the lords-insert error. The contents of `lord_traits` and `lord_skills` are stated by `Importer.TraitsResolved`, `Importer.SkillsResolved` and `Importer.FirstSkillRowWins`; the conditions under which it succeeds by `Importer.RunOkIff`.
- Importer.Run: a failed run returns only the error. The state of the database after the exception is not modelled: `executescript` has already recreated the tables empty, and the pending inserts are never committed.
- Importer.Run: the earlier database is not a parameter, because the tables are dropped and recreated first. A missing column in a CSV row, which `DictReader` reports as `None`, and the `NOT NULL` checks it would trip are not modelled.
- Importer.DuplicateExtIdRejected: promises the duplicate error only when every age and level parses and fits in 64 bits. An out-of-range number on an earlier row makes the source raise OverflowError first; `Importer.LordsInsertFailsAt` says which error the first failing row raises.
- Pipeline.ImportAcceptsStaged: requires every number cell to fit in 64 bits, because the source's import fails otherwise (`Importer.RunOkIff`).
- Pipeline.ImportAcceptsScrape: requires that no scraped number exceeds 2^63-1. The scraper keeps every digit, and such a number fails the import (`Pipeline.ScrapedOverflowRejected`).
- Importer.SkillId: Python's `hash` is a parameter. Python randomises it per process, so skill ids differ between runs; collisions are covered by `Importer.FirstInsertWins`.
- SQLite internals are reduced to their effect: AUTOINCREMENT is "row number", UNIQUE is the duplicate error, and `INSERT OR IGNORE` is "first row wins". The 64-bit bound applies to the bound values. A lord_id beyond 2^63-1, which would need that many rows, is not modelled.
- Titles.FetchAllMembers: requires that some response ends the pagination. Against a server that always returns a token, the source loops forever. A failing request, which raises in the source, is not modelled.
