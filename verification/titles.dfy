/**
 * scrape/build_lords_list.py: walking the paginated category listing, and
 * `clean_titles`, which drops namespaced titles, strips, de-duplicates and sorts.
 */
module Titles {
  import opened Wrappers
  import opened Text
  import opened Ordering

  /** The namespace prefixes `clean_titles` rejects. */
  const BlockedPrefixes: seq<string> := ["Category:", "Template:", "File:", "User:", "Talk:", "Help:"]

  /** `t.startswith(blocked)` with the tuple of prefixes. */
  predicate Blocked(t: string) {
    exists i :: 0 <= i < |BlockedPrefixes| && StartsWith(t, BlockedPrefixes[i])
  }

  /** The loop of `clean_titles`: skip blocked titles, strip, keep the first copy of each non-empty title. */
  function Gather(titles: seq<string>, out: seq<string>): seq<string>
    decreases |titles|
  {
    if |titles| == 0 then out
    else if Blocked(titles[0]) then Gather(titles[1..], out)
    else
      var t := Strip(titles[0]);
      Gather(titles[1..], if t != [] && t !in out then out + [t] else out)
  }

  /** `t` is what an admitted input title contributes: the strip of an input that is not blocked. */
  ghost predicate Admitted(titles: seq<string>, x: string) {
    x != [] && exists t :: t in titles && !Blocked(t) && Strip(t) == x
  }

  lemma {:induction false} GatherContents(titles: seq<string>, out: seq<string>)
    requires Distinct(out)
    ensures Distinct(Gather(titles, out))
    ensures forall x :: x in Gather(titles, out) <==> x in out || Admitted(titles, x)
    decreases |titles|
  {
    if |titles| > 0 {
      var t := Strip(titles[0]);
      var next := if !Blocked(titles[0]) && t != [] && t !in out then out + [t] else out;
      GatherContents(titles[1..], next);
      forall x
        ensures Admitted(titles, x) <==> Admitted(titles[1..], x) || (x == t && x != [] && !Blocked(titles[0]))
      {
        if Admitted(titles, x) {
          var u :| u in titles && !Blocked(u) && Strip(u) == x;
          if u != titles[0] {
            assert u in titles[1..];
          }
        }
        if Admitted(titles[1..], x) {
          var u :| u in titles[1..] && !Blocked(u) && Strip(u) == x;
          assert u in titles;
        }
        if x == t && x != [] && !Blocked(titles[0]) {
          assert titles[0] in titles;
        }
      }
    }
  }

  /** `clean_titles`. */
  function CleanTitles(titles: seq<string>): (r: seq<string>)
    ensures StrictlySorted(r) && Distinct(r)
    ensures forall x :: x in r <==> Admitted(titles, x)
    ensures forall i :: 0 <= i < |r| ==> r[i] != [] && Strip(r[i]) == r[i]
  {
    var g := Gather(titles, []);
    GatherContents(titles, []);
    var r := Sort(g);
    PermutationDistinct(g, r);
    SortedDistinctIsStrict(r);
    assert forall x :: x in r <==> x in g by {
      forall x ensures x in r <==> x in g {
        assert x in r <==> x in multiset(r);
      }
    }
    forall i | 0 <= i < |r| ensures r[i] != [] && Strip(r[i]) == r[i] {
      assert r[i] in r;
      var u :| u in titles && !Blocked(u) && Strip(u) == r[i];
      StripIdempotent(u);
    }
    r
  }

  /** `x` passes the loop unchanged and is not yet collected. */
  predicate CleanFresh(x: string, out: seq<string>) {
    x != [] && !Blocked(x) && Strip(x) == x && x !in out
  }

  lemma {:induction false} GatherKeepsClean(xs: seq<string>, out: seq<string>)
    requires Distinct(xs)
    requires forall i :: 0 <= i < |xs| ==> CleanFresh(xs[i], out)
    ensures Gather(xs, out) == out + xs
    decreases |xs|
  {
    if |xs| > 0 {
      GatherCleanStep(xs, out);
      GatherKeepsClean(xs[1..], out + [xs[0]]);
      MoveHead(out, xs);
    } else {
      assert out + xs == out;
    }
  }

  lemma MoveHead<T>(out: seq<T>, xs: seq<T>)
    requires |xs| > 0
    ensures out + [xs[0]] + xs[1..] == out + xs
  {
    assert [xs[0]] + xs[1..] == xs;
  }

  lemma GatherCleanStep(xs: seq<string>, out: seq<string>)
    requires |xs| > 0 && Distinct(xs)
    requires forall i :: 0 <= i < |xs| ==> CleanFresh(xs[i], out)
    ensures Gather(xs, out) == Gather(xs[1..], out + [xs[0]])
    ensures Distinct(xs[1..])
    ensures forall i :: 0 <= i < |xs[1..]| ==> CleanFresh(xs[1..][i], out + [xs[0]])
  {
    assert CleanFresh(xs[0], out);
    forall i | 0 <= i < |xs[1..]| ensures CleanFresh(xs[1..][i], out + [xs[0]]) {
      assert xs[1..][i] == xs[i + 1];
      assert CleanFresh(xs[i + 1], out);
    }
  }

  /**
   * `clean_titles` is idempotent on inputs whose admitted titles stay
   * unblocked once stripped.
   */
  lemma CleanTitlesIdempotent(titles: seq<string>)
    requires forall t :: t in titles && !Blocked(t) ==> !Blocked(Strip(t))
    ensures CleanTitles(CleanTitles(titles)) == CleanTitles(titles)
  {
    var r := CleanTitles(titles);
    forall i | 0 <= i < |r| ensures CleanFresh(r[i], []) {
      assert r[i] in r;
    }
    GatherKeepsClean(r, []);
    assert [] + r == r;
    SortSorted(r);
  }

  lemma CategoryPrefixBlocked()
    ensures Blocked("Category:X") && !Blocked(" Category:X")
  {
    assert "Category:X"[..9] == BlockedPrefixes[0];
    forall i | 0 <= i < |BlockedPrefixes| ensures !StartsWith(" Category:X", BlockedPrefixes[i]) {
      assert BlockedPrefixes[i][0] != ' ';
    }
  }

  lemma SpacedCategoryStrip()
    ensures Strip(" Category:X") == "Category:X"
  {
    StripLeadingSpaces(" ", "Category:X");
    assert " " + "Category:X" == " Category:X";
  }

  lemma SpacedCategoryOnlyAdmitted(x: string)
    ensures Admitted([" Category:X"], x) <==> x == "Category:X"
  {
    AdmittedSingle(" Category:X", x);
    CategoryPrefixBlocked();
    SpacedCategoryStrip();
  }

  lemma AdmittedSingle(t: string, x: string)
    ensures Admitted([t], x) <==> x != [] && !Blocked(t) && Strip(t) == x
  {
    if Admitted([t], x) {
      var u :| u in [t] && !Blocked(u) && Strip(u) == x;
      assert u == t;
    }
    if x != [] && !Blocked(t) && Strip(t) == x {
      assert t in [t];
    }
  }

  lemma SpacedCategoryAdmitted()
    ensures CleanTitles([" Category:X"]) == ["Category:X"]
  {
    var r := CleanTitles([" Category:X"]);
    SpacedCategoryOnlyAdmitted("Category:X");
    forall x | x in r ensures x == "Category:X" {
      SpacedCategoryOnlyAdmitted(x);
    }
    OnlyElement(r, "Category:X");
  }

  lemma OnlyElement(r: seq<string>, x: string)
    requires Distinct(r) && x in r
    requires forall y :: y in r ==> y == x
    ensures r == [x]
  {
    if |r| >= 2 {
      FirstTwoDiffer(r);
      assert false;
    }
    assert r[0] in r;
  }

  lemma FirstTwoDiffer<T>(r: seq<T>)
    requires Distinct(r) && |r| >= 2
    ensures r[0] != r[1] && r[0] in r && r[1] in r
  {
  }

  lemma CategoryRejected()
    ensures CleanTitles(["Category:X"]) == []
  {
    CategoryPrefixBlocked();
  }

  /** Leading whitespace smuggles a blocked prefix past the check, so idempotence needs its premise. */
  lemma LeadingSpaceDefeatsBlocklist()
    ensures CleanTitles([" Category:X"]) == ["Category:X"]
    ensures CleanTitles(CleanTitles([" Category:X"])) == []
  {
    SpacedCategoryAdmitted();
    CategoryRejected();
  }

  // ---------------------------------------------------------------------------
  // fetch_all_members

  /** A categorymembers response: its titles and its `continue.cmcontinue` token, if any. */
  datatype Response = Response(titles: seq<string>, cont: Option<string>)

  /** The part of a request that varies: the category, and the `cmcontinue` parameter when one is sent. */
  datatype Request = Request(category: string, cmcontinue: Option<string>)

  /** A response whose token is present and non-empty asks for another request. */
  predicate Continues(r: Response) {
    r.cont.Some? && r.cont.value != []
  }

  /** All titles of `pages`, in order. */
  function Concat(pages: seq<Response>): seq<string>
    decreases |pages|
  {
    if |pages| == 0 then [] else Concat(pages[..|pages| - 1]) + pages[|pages| - 1].titles
  }

  /**
   * `fetch_all_members` against a server whose `k`-th reply is `pages[k]`:
   * the titles of every page up to the first one without a token, in request
   * order, and the requests issued, each carrying the previous reply's token.
   */
  method FetchAllMembers(category: string, pages: seq<Response>) returns (titles: seq<string>, requests: seq<Request>)
    requires exists k :: 0 <= k < |pages| && !Continues(pages[k])
    ensures 0 < |requests| <= |pages|
    ensures forall k :: 0 <= k < |requests| - 1 ==> Continues(pages[k])
    ensures !Continues(pages[|requests| - 1])
    ensures requests[0] == Request(category, None)
    ensures forall k :: 0 < k < |requests| ==> requests[k] == Request(category, pages[k - 1].cont)
    ensures titles == Concat(pages[..|requests|])
  {
    titles := [];
    requests := [];
    var cont: Option<string> := None;
    var k := 0;
    while true
      invariant k == |requests| <= |pages|
      invariant forall j :: 0 <= j < k ==> Continues(pages[j])
      invariant k == 0 ==> cont == None
      invariant k > 0 ==> cont == pages[k - 1].cont
      invariant forall j :: 0 < j < k ==> requests[j] == Request(category, pages[j - 1].cont)
      invariant k > 0 ==> requests[0] == Request(category, None)
      invariant titles == Concat(pages[..k])
      decreases |pages| - k
    {
      var req := Request(category, if cont.Some? && cont.value != [] then cont else None);
      var data := pages[k];
      requests := requests + [req];
      assert pages[..k + 1][..k] == pages[..k];
      titles := titles + data.titles;
      cont := data.cont;
      k := k + 1;
      if !(cont.Some? && cont.value != []) {
        break;
      }
    }
  }
}
