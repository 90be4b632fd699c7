/** The regular-expression literal `/^[A-Z]+-\d+$/` as data, with the
    meaning that `RegExp.prototype.test` gives it: some span of the input
    matches. Only the constructs the literal uses are modelled. */
module Regex {
  import opened JiraSpec

  datatype Regex =
    | Range(lo: char, hi: char)   // a character class `[lo-hi]`
    | Lit(c: char)                // a literal character
    | Plus(r: Regex)              // `r+`
    | Cat(a: Regex, b: Regex)     // `ab`
    | Bol                         // `^` without the `m` flag: start of input
    | Eol                         // `$` without the `m` flag: end of input

  /** `r` matches `s[i..j]`; anchors see the whole of `s`. */
  ghost predicate MatchAt(r: Regex, s: string, i: int, j: int)
    requires 0 <= i <= j <= |s|
    decreases r, j - i
  {
    match r
    case Range(lo, hi) => j == i + 1 && lo <= s[i] <= hi
    case Lit(c) => j == i + 1 && s[i] == c
    case Plus(a) =>
      || MatchAt(a, s, i, j)
      || exists k :: i < k < j && MatchAt(a, s, i, k) && MatchAt(Plus(a), s, k, j)
    case Cat(a, b) => exists k :: i <= k <= j && MatchAt(a, s, i, k) && MatchAt(b, s, k, j)
    case Bol => i == j == 0
    case Eol => i == j == |s|
  }

  /** `test` of a pattern without the `g` or `y` flag: a match anywhere. */
  ghost predicate Test(r: Regex, s: string)
  {
    exists i, j :: 0 <= i <= j <= |s| && MatchAt(r, s, i, j)
  }

  /** The literal at utils.js line 9. */
  function JiraPattern(): Regex
  {
    Cat(Bol, Cat(Plus(Range('A', 'Z')), Cat(Lit('-'), Cat(Plus(Range('0', '9')), Eol))))
  }

  /** Every character of `s[i..j]` lies in `lo..hi`. */
  ghost predicate InRange(s: string, i: int, j: int, lo: char, hi: char)
    requires 0 <= i <= j <= |s|
  {
    forall k :: i <= k < j ==> lo <= s[k] <= hi
  }

  /** `[lo-hi]+` matches exactly the non-empty runs of characters in `lo..hi`. */
  lemma {:induction false} PlusRange(lo: char, hi: char, s: string, i: int, j: int)
    requires 0 <= i <= j <= |s|
    ensures MatchAt(Plus(Range(lo, hi)), s, i, j) <==> i < j && InRange(s, i, j, lo, hi)
    decreases j - i
  {
    var p := Plus(Range(lo, hi));
    if i < j - 1 {
      PlusRange(lo, hi, s, i + 1, j);
      if InRange(s, i, j, lo, hi) {
        assert InRange(s, i + 1, j, lo, hi);
        assert MatchAt(Range(lo, hi), s, i, i + 1);
        assert MatchAt(p, s, i, j);
      }
      if MatchAt(p, s, i, j) {
        assert MatchAt(Plus(Range(lo, hi)), s, i, j);
        assert !MatchAt(Range(lo, hi), s, i, j);
        var k :| i < k < j && MatchAt(Range(lo, hi), s, i, k) && MatchAt(Plus(Range(lo, hi)), s, k, j);
        assert k == i + 1;
      }
    }
  }

  /** The literal accepts exactly the structural ticket identifiers. */
  lemma {:induction false} JiraPatternMeansValidJira(s: string)
    ensures Test(JiraPattern(), s) <==> ValidJira(s)
  {
    var upper := Plus(Range('A', 'Z'));
    var digits := Plus(Range('0', '9'));
    var tail := Cat(digits, Eol);
    var rest := Cat(Lit('-'), tail);
    var body := Cat(upper, rest);
    assert JiraPattern() == Cat(Bol, body);
    if ValidJira(s) {
      var d :| SplitsAt(s, d);
      var n := |s|;
      PlusRange('A', 'Z', s, 0, d);
      PlusRange('0', '9', s, d + 1, n);
      assert InRange(s, 0, d, 'A', 'Z') by {
        forall k | 0 <= k < d ensures 'A' <= s[k] <= 'Z' { assert IsUpper(s[..d][k]); }
      }
      assert InRange(s, d + 1, n, '0', '9') by {
        forall k | d + 1 <= k < n ensures '0' <= s[k] <= '9' { assert IsDigit(s[d + 1..][k - d - 1]); }
      }
      assert MatchAt(Eol, s, n, n);
      assert MatchAt(tail, s, d + 1, n);
      assert MatchAt(Lit('-'), s, d, d + 1);
      assert MatchAt(rest, s, d, n);
      assert MatchAt(body, s, 0, n);
      assert MatchAt(Bol, s, 0, 0);
      assert MatchAt(JiraPattern(), s, 0, n);
    }
    if Test(JiraPattern(), s) {
      var i, j :| 0 <= i <= j <= |s| && MatchAt(JiraPattern(), s, i, j);
      assert MatchAt(Cat(Bol, body), s, i, j);
      var k0 :| i <= k0 <= j && MatchAt(Bol, s, i, k0) && MatchAt(body, s, k0, j);
      assert i == k0 == 0;
      assert MatchAt(body, s, 0, j);
      var d :| 0 <= d <= j && MatchAt(upper, s, 0, d) && MatchAt(rest, s, d, j);
      assert MatchAt(rest, s, d, j);
      var e :| d <= e <= j && MatchAt(Lit('-'), s, d, e) && MatchAt(tail, s, e, j);
      assert MatchAt(tail, s, e, j);
      var f :| e <= f <= j && MatchAt(digits, s, e, f) && MatchAt(Eol, s, f, j);
      PlusRange('A', 'Z', s, 0, d);
      PlusRange('0', '9', s, e, f);
      assert e == d + 1 && f == j == |s|;
      assert AllUpper(s[..d]) by {
        forall k | 0 <= k < d ensures IsUpper(s[..d][k]) { assert 'A' <= s[k] <= 'Z'; }
      }
      var digitRun := s[d + 1..];
      assert AllDigits(digitRun) by {
        forall k | 0 <= k < |digitRun| ensures IsDigit(digitRun[k]) { assert digitRun[k] == s[d + 1 + k]; }
      }
      assert SplitsAt(s, d);
    }
  }
}
