# Ticket-identifier validation

This project models `validateJiraFormat` from `utils.js`. The function decides whether a string is a well-formed issue-tracker ticket identifier such as `FEAT-001`. It tests its argument against the anchored regular-expression literal `/^[A-Z]+-\d+$/`. The literal has no flags, so:

- `$` means the end of input only, not the end of a line.
- `[A-Z]` and `\d` are exactly the ASCII capitals and the ASCII digits.
- `test` keeps no `lastIndex` state between calls.

The model has three modules, and each one says what the function accepts in a different way:

- `JiraSpec` (`jira_spec.dfy`) is the structural definition. `ValidJira(s)` holds when some index `i` splits `s` into a non-empty run of capitals, a hyphen at `i`, and a non-empty run of digits (`SplitsAt`).
- `Regex` (`regex.dfy`) writes the literal as data (`JiraPattern`). It gives that data the meaning `RegExp.prototype.test` gives it: some span of the input matches, and the anchors see the whole input (`MatchAt`, `Test`). This is the literal's denotation.
- `Utils` (`utils.dfy`) is the function itself. `ValidateJiraFormat` runs the five-state automaton the pattern denotes over the string, from left to right (`Step`, `Scan`). Its contract says it accepts exactly the strings `ValidJira` describes and exactly the strings the literal matches.

`ValidateJiraFormat` is a Dafny function, so equal arguments always give equal answers. This is how the model captures the source's behaviour on repeated calls: the literal is fresh on each call and has no `g` or `y` flag.

## Model

| member | source | states |
|---|---|---|
| `Utils.ValidateJiraFormat` | utils.js:8-11 | The result is true exactly when the input is one or more `A`-`Z`, one `-`, then one or more `0`-`9`, with nothing before or after. It is also true exactly when the literal `/^[A-Z]+-\d+$/` matches the input under `test`. |
| `Utils.Scan` | utils.js:9-10 | After reading any prefix, the automaton is in the phase that describes the prefix independently: nothing read, capitals only, capitals and a hyphen, a complete identifier, or past any possible match. |
| `Utils.ClassifyStep` | utils.js:9 | Reading one more character changes the described phase exactly as the automaton's step does. This holds for every prefix and character. |
| `Regex.JiraPatternMeansValidJira` | utils.js:9-10 | `Test(JiraPattern(), s)` is `pattern.test(s)`: `JiraPattern` is the literal `^[A-Z]+-\d+$` and `Test` is a match of some span. It holds if and only if `s` is capitals, one hyphen and digits, and nothing else. |
| `Regex.PlusRange` | utils.js:9 | `[lo-hi]+` matches a span exactly when the span is non-empty and every character in it lies in `lo..hi`. |
| `JiraSpec.SplitIsUnique` | utils.js:9 | In an identifier, the hyphen at the split is the only hyphen. The split index is unique, and the string contains exactly one `-`. |
| `JiraSpec.ValidJiraEnds` | utils.js:9 | An identifier has at least three characters, starts with a capital, ends with a digit, and is not all capitals. |
| `JiraSpec.ValidJiraAlphabet` | utils.js:9 | Every character of an identifier is an ASCII capital, an ASCII digit or `-`. |
| `Utils.AcceptedShape` | utils.js:9-10 | An accepted string has length at least 3, so the empty string and anything shorter than 3 is rejected. It starts with a capital, ends with a digit, and holds exactly one `-`. That `-` is the first `-`, and it is the only index where the string splits into capitals and digits. |
| `Utils.ForeignCharRejected` | utils.js:9-10 | Any character that is not `A`-`Z`, `0`-`9` or `-` makes the input invalid. This covers lower case (matching is case-sensitive), white space, line breaks, punctuation, and non-ASCII letters or digits. |
| `Utils.AnchoredExtension` | utils.js:9-10 | For an accepted string, appending a character keeps it accepted exactly when the character is a digit. Prepending a character keeps it accepted exactly when the character is a capital. The pattern is anchored at both ends. |
| `Utils.AcceptedExamples` | utils.js:8-11 | `FEAT-001`, `PROJ-001` and the shortest identifier `A-1` are accepted. |
| `Utils.RejectedForeignExamples` | utils.js:8-11 | `feat-001`, `FEAT-001` followed by a newline, ` FEAT-001` with a leading space, and `FEAT-` followed by an Arabic-Indic digit one are rejected. |
| `Utils.RejectedShapeExamples` | utils.js:8-11 | The empty string, `FEAT001` (no hyphen) and `FEAT-` (no digits) are rejected. |

## Left out

- `formatDate` (utils.js:4-6) is left out. It wraps the library's `Date.prototype.toISOString`, which throws on invalid dates, and then keeps the text before `T`.
- Arguments that are not strings are left out. JavaScript's `test` first converts its argument to a string, so `undefined` is tested as the text `undefined` and is rejected. The model takes a `string` only.
- JavaScript strings are UTF-16 code units, and the model's `char` is a Unicode scalar value. This cannot change any answer: no surrogate or other non-ASCII unit is in `[A-Z]`, in `\d`, or equal to `-`.
- `Regex.MatchAt` says only whether a match exists. It does not model the engine's backtracking order or greedy choices, because `test` returns only whether a match exists. It also covers only the constructs this literal uses.
- The other files of the repository are left out. They run the pull-request checker and `git` as subprocesses, set environment variables for the checker they launch, rewrite configuration files, and print to the console: `demo.js`, `test-merge-skip.js` and `test-validation.js`.
- `.github/scripts/validate-pr.js` is not part of this model. This covers its merge-commit classification, its extraction of several ticket identifiers from one commit message, its author allow-list, and its loading of the YAML policy.
