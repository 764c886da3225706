/**
 * Decimal numerals: the leftmost-match semantics of `re.search(r"\d+", s)` and
 * `re.search(r"-?\d+", s)` followed by `int(m.group())`, Python's `str(n)` on
 * integers, and the subset of `int(text)` the importer relies on.
 * Digits are the ASCII digits.
 */
module Numbers {
  import opened Wrappers

  predicate IsDigit(c: char) {
    '0' <= c <= '9'
  }

  predicate AllDigits(s: string) {
    forall k :: 0 <= k < |s| ==> IsDigit(s[k])
  }

  predicate NoDigit(s: string) {
    forall k :: 0 <= k < |s| ==> !IsDigit(s[k])
  }

  function DigitValue(c: char): nat
    requires IsDigit(c)
  {
    c as int - '0' as int
  }

  function DigitChar(d: nat): (c: char)
    requires d < 10
    ensures IsDigit(c) && DigitValue(c) == d
  {
    ('0' as int + d) as char
  }

  /** The value of a decimal numeral, most significant digit first. */
  function DigitsValue(s: string): nat
    requires AllDigits(s)
  {
    if |s| == 0 then 0 else DigitsValue(s[..|s| - 1]) * 10 + DigitValue(s[|s| - 1])
  }

  // ---------------------------------------------------------------------------
  // re.search(r"\d+", s)

  /** Index of the first digit of `s`, or `|s|` when there is none. */
  function FirstDigit(s: string): (i: nat)
    ensures i <= |s|
    ensures forall k :: 0 <= k < i ==> !IsDigit(s[k])
    ensures i < |s| ==> IsDigit(s[i])
    decreases |s|
  {
    if |s| == 0 || IsDigit(s[0]) then 0 else 1 + FirstDigit(s[1..])
  }

  /** End of the digit run of `s` that starts at `i`. */
  function DigitRunEnd(s: string, i: nat): (j: nat)
    requires i <= |s|
    ensures i <= j <= |s|
    ensures forall k :: i <= k < j ==> IsDigit(s[k])
    ensures j < |s| ==> !IsDigit(s[j])
    decreases |s| - i
  {
    if i < |s| && IsDigit(s[i]) then DigitRunEnd(s, i + 1) else i
  }

  /** `s[i..j]` is the match of `\d+` that `re.search` reports: leftmost, then greedy. */
  ghost predicate LeftmostRun(s: string, i: int, j: int) {
    && 0 <= i < j <= |s|
    && (forall k :: 0 <= k < i ==> !IsDigit(s[k]))
    && AllDigits(s[i..j])
    && (j == |s| || !IsDigit(s[j]))
  }

  /**
   * `int(m.group()) if (m := re.search(r"\d+", s)) else None`: the value of the
   * leftmost maximal digit run, never negative, absent exactly when `s` has no digit.
   */
  function SearchNat(s: string): (r: Option<nat>)
    ensures r.None? <==> NoDigit(s)
    ensures forall i, j :: LeftmostRun(s, i, j) ==> r == Some(DigitsValue(s[i..j]))
  {
    var i := FirstDigit(s);
    if i == |s| then None
    else
      var j := DigitRunEnd(s, i);
      assert AllDigits(s[i..j]) by {
        forall k | 0 <= k < j - i ensures IsDigit(s[i..j][k]) {
          assert s[i..j][k] == s[i + k];
        }
      }
      assert LeftmostRun(s, i, j);
      forall i', j' | LeftmostRun(s, i', j') ensures i' == i && j' == j {
        LeftmostRunUnique(s, i, j, i', j');
      }
      Some(DigitsValue(s[i..j]))
  }

  /** There is only one leftmost maximal digit run. */
  lemma LeftmostRunUnique(s: string, i: int, j: int, i': int, j': int)
    requires LeftmostRun(s, i, j) && LeftmostRun(s, i', j')
    ensures i == i' && j == j'
  {
    forall k | i <= k < j ensures IsDigit(s[k]) {
      assert s[i..j][k - i] == s[k];
    }
    forall k | i' <= k < j' ensures IsDigit(s[k]) {
      assert s[i'..j'][k - i'] == s[k];
    }
    assert IsDigit(s[i]) && IsDigit(s[i']);
    assert (j < |s| ==> !IsDigit(s[j])) && (j' < |s| ==> !IsDigit(s[j']));
  }

  // ---------------------------------------------------------------------------
  // re.search(r"-?\d+", s)

  /** A match of `-?\d+` can start at `p`. */
  ghost predicate SignedStart(s: string, p: int) {
    0 <= p < |s| && (IsDigit(s[p]) || (s[p] == '-' && p + 1 < |s| && IsDigit(s[p + 1])))
  }

  /** `s[p..q]` is the match of `-?\d+` that `re.search` reports. */
  ghost predicate LeftmostSignedRun(s: string, p: int, q: int) {
    && 0 <= p < q <= |s|
    && SignedStart(s, p)
    && (forall k :: 0 <= k < p ==> !SignedStart(s, k))
    && (var d := if s[p] == '-' then p + 1 else p; d < q && AllDigits(s[d..q]))
    && (q == |s| || !IsDigit(s[q]))
  }

  /** `int(t)` of a matched `-?\d+` text. */
  function SignedValue(t: string): int
    requires |t| > 0
    requires t[0] == '-' ==> AllDigits(t[1..])
    requires t[0] != '-' ==> AllDigits(t)
  {
    if t[0] == '-' then -(DigitsValue(t[1..]) as int) else DigitsValue(t)
  }

  /**
   * `int(m.group()) if (m := re.search(r"-?\d+", s)) else None`: a minus sign
   * directly before the leftmost digit run negates it.
   */
  function SearchInt(s: string): (r: Option<int>)
    ensures r.None? <==> NoDigit(s)
    ensures forall p, q :: LeftmostSignedRun(s, p, q) ==>
              (s[p] == '-' ==> AllDigits(s[p + 1..q])) &&
              (s[p] != '-' ==> AllDigits(s[p..q])) &&
              r == Some(SignedValue(s[p..q]))
  {
    var i := FirstDigit(s);
    if i == |s| then None
    else
      var j := DigitRunEnd(s, i);
      var p := if i > 0 && s[i - 1] == '-' then i - 1 else i;
      assert AllDigits(s[i..j]) by {
        forall k | 0 <= k < j - i ensures IsDigit(s[i..j][k]) {
          assert s[i..j][k] == s[i + k];
        }
      }
      assert s[p] == '-' <==> p == i - 1;
      assert s[p..j][1..] == s[i..j] || s[p..j] == s[i..j];
      assert forall p', q' :: LeftmostSignedRun(s, p', q') ==> p' == p && q' == j by {
        forall p', q' | LeftmostSignedRun(s, p', q') ensures p' == p && q' == j {
          LeftmostSignedRunIs(s, p', q');
        }
      }
      Some(SignedValue(s[p..j]))
  }

  /** The match of `-?\d+` starts at the first digit, or at the '-' just before it, and ends where that digit run ends. */
  lemma LeftmostSignedRunIs(s: string, p: int, q: int)
    requires LeftmostSignedRun(s, p, q)
    ensures var i := FirstDigit(s);
      && i < |s|
      && p == (if i > 0 && s[i - 1] == '-' then i - 1 else i)
      && q == DigitRunEnd(s, i)
  {
    var i := FirstDigit(s);
    var d := if s[p] == '-' then p + 1 else p;
    assert s[d..q][0] == s[d];
    assert IsDigit(s[d]);
    assert i <= d;
    assert SignedStart(s, i);
    assert p <= i;
    assert d == i;
    if s[p] != '-' && i > 0 && s[i - 1] == '-' {
      assert SignedStart(s, i - 1);
    }
    MaximalRunEnd(s, i, q);
  }

  /** A maximal digit run starting at `i` ends where `DigitRunEnd` says. */
  lemma {:induction false} MaximalRunEnd(s: string, i: nat, q: int)
    requires i < q <= |s| && AllDigits(s[i..q]) && (q == |s| || !IsDigit(s[q]))
    ensures DigitRunEnd(s, i) == q
    decreases q - i
  {
    assert s[i..q][0] == s[i];
    if i + 1 < q {
      assert s[i + 1..q] == s[i..q][1..];
      MaximalRunEnd(s, i + 1, q);
    }
  }

  // ---------------------------------------------------------------------------
  // str(n) and int(text)

  /** `str(n)` for a non-negative integer. */
  function NatToDecimal(n: nat): (s: string)
    ensures |s| > 0 && AllDigits(s)
  {
    if n < 10 then [DigitChar(n)] else NatToDecimal(n / 10) + [DigitChar(n % 10)]
  }

  /** `str(n)`. */
  function IntToDecimal(n: int): (s: string)
    ensures |s| > 0
  {
    if n < 0 then "-" + NatToDecimal(-n) else NatToDecimal(n)
  }

  /**
   * `int(text)` for texts made of an optional sign and ASCII digits; anything
   * else makes Python raise, here `None`.
   */
  function ParseInt(t: string): (r: Option<int>)
    ensures r.Some? <==> (|t| > 0 && AllDigits(t)) ||
                         (|t| > 1 && (t[0] == '-' || t[0] == '+') && AllDigits(t[1..]))
  {
    if |t| > 0 && AllDigits(t) then Some(DigitsValue(t))
    else if |t| > 1 && t[0] == '-' && AllDigits(t[1..]) then Some(-(DigitsValue(t[1..]) as int))
    else if |t| > 1 && t[0] == '+' && AllDigits(t[1..]) then Some(DigitsValue(t[1..]))
    else None
  }

  lemma {:induction false} NatToDecimalValue(n: nat)
    ensures DigitsValue(NatToDecimal(n)) == n
  {
    if n >= 10 {
      var s := NatToDecimal(n);
      assert s[..|s| - 1] == NatToDecimal(n / 10);
      NatToDecimalValue(n / 10);
    }
  }

  /** What the staging writer prints, the importer reads back unchanged. */
  lemma DecimalRoundTrip(n: int)
    ensures ParseInt(IntToDecimal(n)) == Some(n)
  {
    if n < 0 {
      NatToDecimalValue(-n);
      assert IntToDecimal(n)[1..] == NatToDecimal(-n);
    } else {
      NatToDecimalValue(n);
    }
  }
}
