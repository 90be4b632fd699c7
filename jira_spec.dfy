/** The structural meaning of a well-formed issue-tracker ticket identifier:
    a non-empty run of ASCII capitals, one hyphen, a non-empty run of ASCII
    digits, and nothing else. */
module JiraSpec {

  /** The character class `[A-Z]`: ASCII capitals only (no `i` flag). */
  predicate IsUpper(c: char) { 'A' <= c <= 'Z' }

  /** The character class `\d`: in a JavaScript regular expression exactly `0`-`9`. */
  predicate IsDigit(c: char) { '0' <= c <= '9' }

  predicate AllUpper(t: string) { forall k :: 0 <= k < |t| ==> IsUpper(t[k]) }

  predicate AllDigits(t: string) { forall k :: 0 <= k < |t| ==> IsDigit(t[k]) }

  /** `s` is capitals before index `i`, a hyphen at `i`, and digits after it,
      with both runs non-empty. */
  predicate SplitsAt(s: string, i: int)
  {
    && 0 < i < |s| - 1
    && s[i] == '-'
    && AllUpper(s[..i])
    && AllDigits(s[i + 1..])
  }

  /** `s` is a ticket identifier such as `FEAT-001`. */
  ghost predicate ValidJira(s: string)
  {
    exists i :: SplitsAt(s, i)
  }

  /** In an identifier the hyphen at the split point is the only hyphen, so it
      is also the first one, and the letter/digit split is unique. */
  lemma {:induction false} SplitIsUnique(s: string, i: int)
    requires SplitsAt(s, i)
    ensures forall k :: 0 <= k < |s| && s[k] == '-' ==> k == i
    ensures forall j :: SplitsAt(s, j) ==> j == i
    ensures multiset(s)['-'] == 1
  {
    forall k | 0 <= k < |s| && k != i
      ensures s[k] != '-'
    {
      if k < i {
        assert IsUpper(s[..i][k]);
      } else {
        assert IsDigit(s[i + 1..][k - i - 1]);
      }
    }
    assert s == s[..i] + [s[i]] + s[i + 1..];
    assert '-' !in s[..i];
    assert '-' !in s[i + 1..];
    calc {
      multiset(s)['-'];
      (multiset(s[..i]) + multiset([s[i]]) + multiset(s[i + 1..]))['-'];
      0 + 1 + 0;
    }
  }

  /** An identifier starts with a capital, ends with a digit, is at least three
      characters long, and is not all capitals. */
  lemma ValidJiraEnds(s: string)
    requires ValidJira(s)
    ensures |s| >= 3 && IsUpper(s[0]) && IsDigit(s[|s| - 1]) && !AllUpper(s)
  {
    var i :| SplitsAt(s, i);
    assert IsUpper(s[..i][0]);
    assert IsDigit(s[i + 1..][|s| - i - 2]);
    assert !IsUpper(s[i]);
  }

  /** Every character of an identifier is a capital, a digit or the hyphen. */
  lemma ValidJiraAlphabet(s: string)
    requires ValidJira(s)
    ensures forall k :: 0 <= k < |s| ==> IsUpper(s[k]) || IsDigit(s[k]) || s[k] == '-'
  {
    var i :| SplitsAt(s, i);
    forall k | 0 <= k < |s|
      ensures IsUpper(s[k]) || IsDigit(s[k]) || s[k] == '-'
    {
      if k < i {
        assert IsUpper(s[..i][k]);
      } else if k > i {
        assert IsDigit(s[i + 1..][k - i - 1]);
      }
    }
  }

  /** The index of the first hyphen of `s`, or `|s|` when there is none. */
  function FirstHyphen(s: string): (i: nat)
    ensures i <= |s|
    ensures i < |s| ==> s[i] == '-'
    ensures forall k :: 0 <= k < i ==> s[k] != '-'
  {
    if s == [] then 0
    else if s[0] == '-' then 0
    else 1 + FirstHyphen(s[1..])
  }
}
