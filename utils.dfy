/** `validateJiraFormat` of utils.js: `/^[A-Z]+-\d+$/.test(jiraNumber)`.
    The pattern is run as the five-state automaton it denotes, reading the
    input left to right; the automaton is proved to accept exactly the
    strings the literal matches. */
module Utils {
  import opened JiraSpec
  import opened Regex

  /** What the automaton has read so far. */
  datatype Phase =
    | Start      // nothing
    | Letters    // one or more capitals
    | Hyphen     // capitals and then the hyphen
    | Digits     // a complete identifier
    | Rejected   // no extension can match

  function Step(q: Phase, c: char): Phase
  {
    match q
    case Start => if IsUpper(c) then Letters else Rejected
    case Letters => if IsUpper(c) then Letters else if c == '-' then Hyphen else Rejected
    case Hyphen => if IsDigit(c) then Digits else Rejected
    case Digits => if IsDigit(c) then Digits else Rejected
    case Rejected => Rejected
  }

  /** The phase that a prefix should leave the automaton in, described
      without the automaton. */
  ghost function Classify(s: string): Phase
  {
    if s == [] then Start
    else if AllUpper(s) then Letters
    else if |s| >= 2 && s[|s| - 1] == '-' && AllUpper(s[..|s| - 1]) then Hyphen
    else if ValidJira(s) then Digits
    else Rejected
  }

  /** Runs the automaton over `s` from its start phase. */
  function Scan(s: string): (q: Phase)
    ensures q == Classify(s)
    decreases |s|
  {
    if s == [] then Start
    else
      var p, c := s[..|s| - 1], s[|s| - 1];
      assert s == p + [c];
      ClassifyStep(p, c);
      Step(Scan(p), c)
  }

  /** validateJiraFormat: true exactly for one or more ASCII capitals, one
      hyphen, one or more ASCII digits, and nothing else. */
  function ValidateJiraFormat(jiraNumber: string): (valid: bool)
    ensures valid <==> ValidJira(jiraNumber)
    ensures valid <==> Test(JiraPattern(), jiraNumber)
  {
    JiraPatternMeansValidJira(jiraNumber);
    DigitsMeansValid(jiraNumber);
    Scan(jiraNumber) == Digits
  }

  /** The accepting phase describes exactly the identifiers. */
  lemma DigitsMeansValid(s: string)
    ensures Classify(s) == Digits <==> ValidJira(s)
  {
    if ValidJira(s) { ValidJiraEnds(s); }
  }

  /** Reading one more character moves the described phase as `Step` does. */
  lemma ClassifyStep(p: string, c: char)
    ensures Classify(p + [c]) == Step(Classify(p), c)
  {
    var s := p + [c];
    var n := |p|;
    assert s[..n] == p && s[n] == c;
    if !IsDigit(c) {
      if ValidJira(s) { ValidJiraEnds(s); }
    }
    match Classify(p)
    case Start => StepFromStart(c);
    case Letters => StepFromLetters(p, c);
    case Hyphen => StepFromHyphen(p, c);
    case Digits => StepFromDigits(p, c);
    case Rejected => StepFromRejected(p, c);
  }

  lemma StepFromStart(c: char)
    ensures Classify([c]) == Step(Start, c)
  {
    assert AllUpper([c]) <==> IsUpper([c][0]);
    if ValidJira([c]) { ValidJiraEnds([c]); }
  }

  lemma StepFromLetters(p: string, c: char)
    requires Classify(p) == Letters
    ensures Classify(p + [c]) == Step(Letters, c)
  {
    var s := p + [c];
    var n := |p|;
    assert s[..n] == p && s[n] == c;
    if IsUpper(c) {
      assert AllUpper(s) by {
        forall k | 0 <= k < |s| ensures IsUpper(s[k]) { if k < n { assert s[k] == p[k]; } }
      }
    } else if c != '-' {
      forall i | 0 <= i < |s| ensures !SplitsAt(s, i) {
        if 0 < i < n { assert s[i] == p[i]; }
      }
    }
  }

  lemma StepFromHyphen(p: string, c: char)
    requires Classify(p) == Hyphen
    ensures Classify(p + [c]) == Step(Hyphen, c)
  {
    var s := p + [c];
    var n := |p|;
    assert s[..n] == p && s[n] == c && s[n - 1] == '-';
    assert !AllUpper(p) by { assert !IsUpper(p[n - 1]); }
    if IsDigit(c) {
      assert s[..n - 1] == p[..n - 1];
      assert s[n..] == [c];
      assert SplitsAt(s, n - 1);
    } else if ValidJira(s) {
      ValidJiraEnds(s);
    }
  }

  lemma StepFromDigits(p: string, c: char)
    requires Classify(p) == Digits
    ensures Classify(p + [c]) == Step(Digits, c)
  {
    var s := p + [c];
    var n := |p|;
    assert s[..n] == p && s[n] == c;
    var i :| SplitsAt(p, i);
    assert !AllUpper(s) by { assert s[i] == p[i]; }
    if IsDigit(c) {
      assert s[..i] == p[..i];
      assert s[i + 1..] == p[i + 1..] + [c];
      assert SplitsAt(s, i);
    } else {
      assert !AllUpper(p) by { assert !IsUpper(p[i]); }
      if ValidJira(s) { ValidJiraEnds(s); }
    }
  }

  lemma StepFromRejected(p: string, c: char)
    requires Classify(p) == Rejected
    ensures Classify(p + [c]) == Rejected
  {
    var s := p + [c];
    var n := |p|;
    assert s[..n] == p && s[n] == c;
    if AllUpper(s) {
      assert AllUpper(p) by {
        forall k | 0 <= k < n ensures IsUpper(p[k]) { assert s[k] == p[k]; }
      }
      assert false;
    }
    if ValidJira(s) {
      var i :| SplitsAt(s, i);
      assert s[..i] == p[..i];
      if i < n - 1 {
        assert p[i + 1..] == s[i + 1..][..n - i - 1];
        assert SplitsAt(p, i);
      }
    }
  }

  /** An accepted identifier is at least three characters, starts with a
      capital, ends with a digit, and holds exactly one hyphen: the first
      one, and the only place where it can be split. */
  lemma AcceptedShape(s: string)
    requires ValidateJiraFormat(s)
    ensures |s| >= 3 && IsUpper(s[0]) && IsDigit(s[|s| - 1])
    ensures multiset(s)['-'] == 1
    ensures SplitsAt(s, FirstHyphen(s))
    ensures forall j :: SplitsAt(s, j) ==> j == FirstHyphen(s)
  {
    ValidJiraEnds(s);
    var i :| SplitsAt(s, i);
    SplitIsUnique(s, i);
    assert FirstHyphen(s) == i;
  }

  /** A character that is not an ASCII capital, an ASCII digit or a hyphen
      anywhere in the input makes it invalid: lower case, white space, line
      breaks, punctuation, and non-ASCII letters or digits alike. */
  lemma ForeignCharRejected(s: string, k: int)
    requires 0 <= k < |s|
    requires !IsUpper(s[k]) && !IsDigit(s[k]) && s[k] != '-'
    ensures !ValidateJiraFormat(s)
  {
    if ValidJira(s) {
      ValidJiraAlphabet(s);
    }
  }

  /** Both ends are anchored: an identifier stays one after appending a
      character exactly when that character is a digit, and after prepending
      one exactly when it is a capital. */
  lemma AnchoredExtension(s: string, c: char)
    requires ValidateJiraFormat(s)
    ensures ValidateJiraFormat(s + [c]) <==> IsDigit(c)
    ensures ValidateJiraFormat([c] + s) <==> IsUpper(c)
  {
    var i :| SplitsAt(s, i);
    var appended, prepended := s + [c], [c] + s;
    if IsDigit(c) {
      assert appended[..i] == s[..i];
      assert appended[i + 1..] == s[i + 1..] + [c];
      assert SplitsAt(appended, i);
    } else if ValidJira(appended) {
      ValidJiraEnds(appended);
    }
    if IsUpper(c) {
      assert prepended[..i + 1] == [c] + s[..i];
      assert prepended[i + 2..] == s[i + 1..];
      assert SplitsAt(prepended, i + 1);
    } else if ValidJira(prepended) {
      ValidJiraEnds(prepended);
    }
  }

  /** The identifiers allowed by the repository's strict configuration are
      accepted, and so is the shortest possible one. */
  lemma AcceptedExamples()
    ensures ValidateJiraFormat("FEAT-001")
    ensures ValidateJiraFormat("PROJ-001")
    ensures ValidateJiraFormat("A-1")
  {
    assert SplitsAt("FEAT-001", 4);
    assert SplitsAt("PROJ-001", 4);
    assert SplitsAt("A-1", 1);
  }

  /** Lower case, a trailing line break (`$` without the `m` flag is the end
      of input only), a leading space and a non-ASCII digit are each refused. */
  lemma RejectedForeignExamples()
    ensures !ValidateJiraFormat("feat-001")
    ensures !ValidateJiraFormat("FEAT-001\n")
    ensures !ValidateJiraFormat(" FEAT-001")
    ensures !ValidateJiraFormat("FEAT-\U{0661}")
  {
    ForeignCharRejected("feat-001", 0);
    ForeignCharRejected("FEAT-001\n", 8);
    ForeignCharRejected(" FEAT-001", 0);
    ForeignCharRejected("FEAT-\U{0661}", 5);
  }

  /** The empty string, a missing hyphen and a missing digit run are refused. */
  lemma RejectedShapeExamples()
    ensures !ValidateJiraFormat("")
    ensures !ValidateJiraFormat("FEAT001")
    ensures !ValidateJiraFormat("FEAT-")
  {
    if ValidJira("FEAT001") {
      AcceptedShape("FEAT001");
    }
    if ValidJira("FEAT-") {
      ValidJiraEnds("FEAT-");
    }
  }
}
