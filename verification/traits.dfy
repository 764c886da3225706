/**
 * `extract_traits` (scrape/scrape_lords.py): the items after the first
 * "trait" heading, up to the next `<h2>`/`<h3>`, cleaned and de-duplicated.
 */
module Traits {
  import opened Wrappers
  import opened Text
  import opened Ordering
  import opened Html

  /** The characters stripped from both ends of a trait. */
  const TrimChars: set<char> := {' ', '\U{2022}', ';', ',', '-'}

  /** Paragraphs with this many words or more are prose, not traits. */
  const MaxParaWords: nat := 10

  /** `hdr` is one of the `<h2>`, `<h3>`, `<h4>` headings whose lower-cased text mentions "trait". */
  predicate IsTraitHeading(b: Block) {
    b.Heading? && 2 <= b.level <= 4 && Contains(Lower(b.text), "trait")
  }

  /** An `<h2>` or `<h3>`: where collection stops. */
  predicate IsStop(b: Block) {
    b.Heading? && (b.level == 2 || b.level == 3)
  }

  /** Index of the first trait heading, if any. */
  function FirstTraitHeading(blocks: seq<Block>): (r: Option<nat>)
    ensures r.Some? ==> r.value < |blocks|
    decreases |blocks|
  {
    if |blocks| == 0 then None
    else if IsTraitHeading(blocks[0]) then Some(0)
    else match FirstTraitHeading(blocks[1..])
         case None => None
         case Some(i) => Some(i + 1)
  }

  /** `FirstTraitHeading` finds the first trait heading, and finds none only when there is none. */
  lemma {:induction false} FirstTraitHeadingIsFirst(blocks: seq<Block>)
    ensures var r := FirstTraitHeading(blocks);
      && (r.None? <==> forall k :: 0 <= k < |blocks| ==> !IsTraitHeading(blocks[k]))
      && (r.Some? ==> IsTraitHeading(blocks[r.value]) && forall k :: 0 <= k < r.value ==> !IsTraitHeading(blocks[k]))
    decreases |blocks|
  {
    if |blocks| > 0 && !IsTraitHeading(blocks[0]) {
      FirstTraitHeadingIsFirst(blocks[1..]);
      assert forall k :: 0 < k < |blocks| ==> blocks[k] == blocks[1..][k - 1];
    }
  }

  /** The non-empty texts of a list's items, in order. */
  function NonEmpty(items: seq<string>): (r: seq<string>)
    ensures forall k :: 0 <= k < |r| ==> r[k] != [] && r[k] in items
    ensures forall t :: t in items && t != [] ==> t in r
    decreases |items|
  {
    if |items| == 0 then []
    else (if items[0] != [] then [items[0]] else []) + NonEmpty(items[1..])
  }

  /** A paragraph is kept as a trait when it is non-empty and shorter than ten words. */
  predicate ShortPara(t: string) {
    t != [] && WordCount(t) < MaxParaWords
  }

  /** What one block contributes to the raw trait list. */
  function Take(b: Block): (r: seq<string>)
    ensures forall k :: 0 <= k < |r| ==> r[k] != []
  {
    match b
    case List(items) => NonEmpty(items)
    case Para(t) => if ShortPara(t) then [t] else []
    case _ => []
  }

  /** The inner loop: walk the blocks after the heading, stopping at the next `<h2>`/`<h3>`. */
  function Collect(blocks: seq<Block>): (r: seq<string>)
    ensures forall k :: 0 <= k < |r| ==> r[k] != []
    decreases |blocks|
  {
    if |blocks| == 0 || IsStop(blocks[0]) then []
    else Take(blocks[0]) + Collect(blocks[1..])
  }

  /** The texts gathered before cleaning: only the first trait heading counts. */
  function RawTraits(blocks: seq<Block>): (r: seq<string>)
    ensures FirstTraitHeading(blocks).None? ==> r == []
    ensures FirstTraitHeading(blocks).Some? ==> r == Collect(blocks[FirstTraitHeading(blocks).value + 1..])
  {
    match FirstTraitHeading(blocks)
    case None => []
    case Some(i) => Collect(blocks[i + 1..])
  }

  /**
   * One captured text cleaned: its words joined by single spaces, then
   * bullets, semicolons, commas, dashes and spaces stripped from both ends.
   */
  function CleanOne(t: string): (r: string)
    ensures r == StripChars(Join(" ", Words(t)), TrimChars)
    ensures SingleSpaced(r)
    ensures |r| > 0 ==> r[0] !in TrimChars && r[|r| - 1] !in TrimChars
  {
    var c := CollapseSpaces(t);
    SingleSpacedStrip(c, TrimChars);
    CollapseThenStrip(t);
    StripChars(c, TrimChars)
  }

  lemma CollapseThenStrip(t: string)
    ensures StripChars(CollapseSpaces(t), TrimChars) == StripChars(Join(" ", Words(t)), TrimChars)
  {
    SubSpaceRunsWords(t, ' ');
    var ws := Words(t);
    if ws == [] {
      var e := Edge(|t| > 0, ' ');
      assert CollapseSpaces(t) == e + [] + [];
      StripCharsPadded(e, [], [], TrimChars);
    } else {
      var lead := Edge(IsSpace(t[0]), ' ');
      var trail := Edge(IsSpace(t[|t| - 1]), ' ');
      assert CollapseSpaces(t) == lead + Join(" ", ws) + trail;
      StripCharsPadded(lead, Join(" ", ws), trail, TrimChars);
    }
  }

  /**
   * A text whose first word does not start, and whose last word does not end,
   * with one of `' •;,-'` is cleaned into its words joined by single spaces,
   * so the trait splits into exactly the words of the captured text.
   */
  lemma CleanOneKeepsWords(t: string)
    requires var ws := Words(t);
      && ws != [] && ws[0] != [] && ws[|ws| - 1] != []
      && ws[0][0] !in TrimChars && ws[|ws| - 1][|ws[|ws| - 1]| - 1] !in TrimChars
    ensures CleanOne(t) == Join(" ", Words(t))
    ensures Words(CleanOne(t)) == Words(t)
  {
    var ws := Words(t);
    WordsShape(t);
    JoinEnds(" ", ws);
    StripCharsNoop(Join(" ", ws), TrimChars);
    WordsJoin(ws);
  }

  /** Every captured text, cleaned, in order. */
  function CleanAll(raw: seq<string>): (r: seq<string>)
    ensures |r| == |raw|
    ensures forall k :: 0 <= k < |r| ==> r[k] == CleanOne(raw[k])
  {
    seq(|raw|, k requires 0 <= k < |raw| => CleanOne(raw[k]))
  }

  /**
   * Reference de-duplication: the non-empty elements of `xs` that do not occur
   * earlier in `xs`, in their order of first appearance.
   */
  function FirstOccurrences(xs: seq<string>): (r: seq<string>)
    ensures Distinct(r)
    ensures forall x :: x in r <==> x in xs && x != []
    decreases |xs|
  {
    if |xs| == 0 then []
    else
      var p := xs[..|xs| - 1];
      var x := xs[|xs| - 1];
      assert xs == p + [x];
      FirstOccurrences(p) + (if x != [] && x !in p then [x] else [])
  }

  /** The loop `if t and t not in clean: clean.append(t)` over already-cleaned texts. */
  function Dedup(xs: seq<string>, clean: seq<string>): seq<string>
    decreases |xs|
  {
    if |xs| == 0 then clean
    else Dedup(xs[1..], if xs[0] != [] && xs[0] !in clean then clean + [xs[0]] else clean)
  }

  /** The de-duplication loop computes the first occurrences. */
  lemma {:induction false} DedupIsFirstOccurrences(p: seq<string>, xs: seq<string>)
    ensures Dedup(xs, FirstOccurrences(p)) == FirstOccurrences(p + xs)
    decreases |xs|
  {
    if |xs| == 0 {
      assert p + xs == p;
    } else {
      var x := xs[0];
      var fp := FirstOccurrences(p);
      assert (p + [x])[..|p + [x]| - 1] == p;
      assert (p + [x])[|p + [x]| - 1] == x;
      assert (if x != [] && x !in fp then fp + [x] else fp) == FirstOccurrences(p + [x]);
      assert p + xs == (p + [x]) + xs[1..];
      DedupIsFirstOccurrences(p + [x], xs[1..]);
    }
  }

  /** The cleaning loop of `extract_traits`: the first occurrence of every non-empty cleaned text. */
  function CleanTraits(raw: seq<string>): (r: seq<string>)
    ensures r == FirstOccurrences(CleanAll(raw))
  {
    DedupIsFirstOccurrences([], CleanAll(raw));
    assert [] + CleanAll(raw) == CleanAll(raw);
    Dedup(CleanAll(raw), [])
  }

  /** A cleaned trait is non-empty, single-spaced, and neither starts nor ends with `' •;,-'`. */
  predicate WellCleaned(x: string) {
    x != [] && SingleSpaced(x) && x[0] !in TrimChars && x[|x| - 1] !in TrimChars
  }

  /**
   * Cleaned traits hold no repeats, and each is the cleaning of some captured
   * text and well cleaned; every captured text whose cleaning is non-empty is there.
   */
  lemma CleanTraitsShape(raw: seq<string>)
    ensures Distinct(CleanTraits(raw))
    ensures forall x :: x in CleanTraits(raw) ==> WellCleaned(x) && exists k :: 0 <= k < |raw| && CleanOne(raw[k]) == x
    ensures forall k :: 0 <= k < |raw| && CleanOne(raw[k]) != [] ==> CleanOne(raw[k]) in CleanTraits(raw)
  {
    forall x | x in CleanTraits(raw)
      ensures WellCleaned(x) && exists k :: 0 <= k < |raw| && CleanOne(raw[k]) == x
    {
      CleanTraitFrom(raw, x);
    }
    forall k | 0 <= k < |raw| && CleanOne(raw[k]) != []
      ensures CleanOne(raw[k]) in CleanTraits(raw)
    {
      var all := CleanAll(raw);
      assert all[k] in all;
    }
  }

  lemma CleanTraitFrom(raw: seq<string>, x: string)
    requires x in CleanTraits(raw)
    ensures WellCleaned(x) && exists k :: 0 <= k < |raw| && CleanOne(raw[k]) == x
  {
    var all := CleanAll(raw);
    var k :| 0 <= k < |all| && all[k] == x;
    assert x == CleanOne(raw[k]);
  }

  /** `extract_traits`. */
  function ExtractTraits(blocks: seq<Block>): (r: seq<string>)
    ensures r == FirstOccurrences(CleanAll(RawTraits(blocks)))
    ensures FirstTraitHeading(blocks).None? ==> r == []
  {
    CleanTraits(RawTraits(blocks))
  }

  /** Nothing after an `<h2>`/`<h3>` reaches the collected items. */
  lemma {:induction false} CollectUpToStop(blocks: seq<Block>, k: nat)
    requires k < |blocks| && IsStop(blocks[k])
    ensures Collect(blocks) == Collect(blocks[..k])
    decreases k
  {
    if k > 0 && !IsStop(blocks[0]) {
      assert blocks[..k][1..] == blocks[1..][..k - 1];
      CollectUpToStop(blocks[1..], k - 1);
    }
  }

  lemma {:induction false} FirstTraitHeadingExtend(blocks: seq<Block>, more: seq<Block>)
    requires FirstTraitHeading(blocks).Some?
    ensures FirstTraitHeading(blocks + more) == FirstTraitHeading(blocks)
    decreases |blocks|
  {
    if !IsTraitHeading(blocks[0]) {
      assert (blocks + more)[1..] == blocks[1..] + more;
      FirstTraitHeadingExtend(blocks[1..], more);
    }
  }

  /**
   * Once an `<h2>`/`<h3>` follows the first trait heading, whatever the page
   * holds after it (more lists, later "trait" headings) changes nothing.
   */
  lemma TraitsEndAtNextSection(blocks: seq<Block>, k: nat, more: seq<Block>)
    requires FirstTraitHeading(blocks).Some?
    requires FirstTraitHeading(blocks).value < k < |blocks| && IsStop(blocks[k])
    ensures RawTraits(blocks + more) == RawTraits(blocks)
    ensures ExtractTraits(blocks + more) == ExtractTraits(blocks)
  {
    RawTraitsEndAtNextSection(blocks, k, more);
  }

  lemma RawTraitsEndAtNextSection(blocks: seq<Block>, k: nat, more: seq<Block>)
    requires FirstTraitHeading(blocks).Some?
    requires FirstTraitHeading(blocks).value < k < |blocks| && IsStop(blocks[k])
    ensures RawTraits(blocks + more) == RawTraits(blocks)
  {
    var i := FirstTraitHeading(blocks).value;
    FirstTraitHeadingExtend(blocks, more);
    RawTraitsAt(blocks, i);
    RawTraitsAt(blocks + more, i);
    CollectAfterIgnoresSuffix(blocks, i, k, more);
  }

  lemma RawTraitsAt(blocks: seq<Block>, i: nat)
    requires FirstTraitHeading(blocks) == Some(i)
    ensures i < |blocks| && RawTraits(blocks) == Collect(blocks[i + 1..])
  {
  }

  lemma CollectAfterIgnoresSuffix(blocks: seq<Block>, i: nat, k: nat, more: seq<Block>)
    requires i < k < |blocks| && IsStop(blocks[k])
    ensures Collect((blocks + more)[i + 1..]) == Collect(blocks[i + 1..])
  {
    var tail := blocks[i + 1..];
    assert (blocks + more)[i + 1..] == tail + more;
    assert tail[k - i - 1] == blocks[k];
    CollectIgnoresSuffix(tail, k - i - 1, more);
  }

  /** Appending blocks after a stop heading leaves the collected items as they are. */
  lemma CollectIgnoresSuffix(tail: seq<Block>, k: nat, more: seq<Block>)
    requires k < |tail| && IsStop(tail[k])
    ensures Collect(tail + more) == Collect(tail)
  {
    var ext := tail + more;
    assert ext[k] == tail[k];
    assert ext[..k] == tail[..k];
    CollectUpToStop(tail, k);
    CollectUpToStop(ext, k);
  }
}
