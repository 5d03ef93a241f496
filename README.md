# Phishing URL checker, modelled in Dafny

This project models the logic of `Phishing-checker.py`:

- **`is_phishing_url`** flags a URL when its lower-cased text contains one of eight indicator words. It also flags a URL whose lower-cased text ends with one entry of a literal suffix list. That list has duplicates ('.cf', '.ml') and malformed entries ('[.]com', '.ru<', the bare 'gq').
- **`check_url_safety`** maps what the headless browser produced to a message. A loaded page gives "THIS LINK IS NOT SAFE" when its title mentions "error" or "not found", and "This link is safe" otherwise. An exception gives "THIS LINK IS NOT SAFE (<error text>)".
- **`analyze_urls`** prints one line per URL, in input order. A flagged URL gets the unsafe message in red and the browser is never opened for it. Every other URL is checked with the browser, and its line is coloured by the text test `"safe" in message.lower()`.
- **`cli_mode`** reads trimmed lines until one reads "done" in any letter case. It collects the other lines in order and analyses them.

The browser is an input. It is a function from the URL to a `PageLoad`: either the page title or the text of the exception raised.

Modules:
- `Text`: ASCII `lower`, `in`, `endswith`, `strip`.
- `Classifier`: `is_phishing_url`.
- `Verification`: the message mapping of `check_url_safety`.
- `Analysis`: `analyze_urls`, an imperative loop proved against the specification function `AnalyzeAll`.
- `Cli`: the `while True` input loop of `cli_mode`, proved against `UrlsBeforeDone`.

In `analyze_urls`, the method also returns the URLs it handed to the browser, in call order. That lets the model state that the browser is consulted only for unflagged URLs.

The colour of a checked URL's line comes from the text test `"safe" in message.lower()`. `RedExactlyWhenFlagged` proves that this line is green for every URL the browser checks, "NOT SAFE" included.

## Model

| member | source | states |
|---|---|---|
| Text.LowerChar | Phishing-checker.py:32 | ASCII lower-casing of one character: upper-case letters move 32 code points up, to their lower-case letter; all else is kept, and the result is never upper case |
| Text.Lower | Phishing-checker.py:32 | `str.lower()` keeps the length and lower-cases each character in place |
| Text.LowerIdempotent | Phishing-checker.py:32-36 | lower-casing a lower-cased string changes nothing |
| Text.LowerOfLowerCase | Phishing-checker.py:23-24 | a string with no upper-case letter, such as each indicator word, is its own lower-cased form |
| Text.LowerAppend | Phishing-checker.py:32 | lower-casing distributes over concatenation |
| Text.Contains | Phishing-checker.py:32 | `sub in s` holds exactly when `sub` occurs in `s` at some index |
| Text.ContainsLeft | Phishing-checker.py:32 | an occurrence in a prefix is an occurrence in the whole text |
| Text.ContainsRight | Phishing-checker.py:32 | an occurrence in a suffix is an occurrence in the whole text |
| Text.EndsWith | Phishing-checker.py:36 | `s.endswith(t)` holds exactly when the last `len(t)` characters of `s` are `t` |
| Text.EndsWithAppend | Phishing-checker.py:36 | any text followed by `t` ends with `t` |
| Text.EndsWithSelf | Phishing-checker.py:36 | every text ends with itself |
| Text.EndsWithTransitive | Phishing-checker.py:36 | ending with `b` while `b` ends with `c` means ending with `c` |
| Text.StripLeftShape | Phishing-checker.py:103 | the left trim is the longest suffix not starting with white space, and only white space is dropped |
| Text.StripRightShape | Phishing-checker.py:103 | the right trim is the longest prefix not ending with white space, and only white space is dropped |
| Text.StripEnds | Phishing-checker.py:103 | `strip()` never lengthens, and the result neither starts nor ends with white space |
| Text.StripIsTrimmedSlice | Phishing-checker.py:103 | `strip()` returns a slice of the line with only white space before and after it |
| Classifier.AnyContains | Phishing-checker.py:32 | `any(k in s for k in keys)` holds exactly when some key occurs in `s` |
| Classifier.AnyEndsWith | Phishing-checker.py:36 | `any(s.endswith(t) for t in suffixes)` holds exactly when `s` ends with some entry |
| Classifier.IsPhishingUrl | Phishing-checker.py:13-39 | a URL is flagged exactly when its lower-cased text contains an indicator word or ends with a listed suffix, and is not flagged otherwise |
| Classifier.CaseInsensitive | Phishing-checker.py:32-36 | the verdict on a URL and on its lower-cased form are the same |
| Classifier.IndicatorAnywhereFlags | Phishing-checker.py:23-33 | any URL with an indicator word anywhere in it is flagged |
| Classifier.SuffixAnyCaseFlags | Phishing-checker.py:27-37 | any URL ending with a listed suffix, in any letter case, is flagged |
| Classifier.MalformedComFlags | Phishing-checker.py:28-37 | the malformed entry '[.]com' matches literally: a URL ending "[.]COM" is flagged |
| Classifier.MalformedRuFlags | Phishing-checker.py:28-37 | the malformed entry '.ru<' matches literally: a URL ending ".RU<" is flagged |
| Classifier.MalformedGqFlags | Phishing-checker.py:28-37 | the bare entry 'gq' matches any URL ending "GQ", with or without a dot before it |
| Classifier.RemoveAt | Phishing-checker.py:28 | taking entry `i` out of the list shifts the later entries down by one |
| Classifier.RemoveSubsumedSuffix | Phishing-checker.py:28-36 | removing an entry that ends with another entry (a duplicate included) leaves the suffix test unchanged |
| Classifier.DropSecondMl | Phishing-checker.py:28 | the second '.ml' is a duplicate and can be removed |
| Classifier.DropSecondCf | Phishing-checker.py:28 | the second '.cf' is a duplicate and can be removed |
| Classifier.GqCoversDotGq | Phishing-checker.py:28 | '.gq' ends with the entry 'gq' |
| Classifier.DropDotGq | Phishing-checker.py:28 | '.gq' is covered by 'gq' and can be removed |
| Classifier.RedundantSuffixesIrrelevant | Phishing-checker.py:27-36 | the deduplicated list of 24 entries gives the same suffix test as the list of 27 |
| Classifier.CanonicalClassifier | Phishing-checker.py:32-39 | `is_phishing_url` is the same predicate over the deduplicated list |
| Verification.FailureMessage | Phishing-checker.py:69-70 | the exception message is "THIS LINK IS NOT SAFE (", then the error text, then ")" |
| Verification.CheckUrlSafety | Phishing-checker.py:51-70 | every message is either the safe message or starts with "THIS LINK IS NOT SAFE" |
| Verification.SafeAndNotSafeDiffer | Phishing-checker.py:64-67 | the safe message is not the unsafe one and does not start with it |
| Verification.LoadedVerdict | Phishing-checker.py:63-67 | a loaded page is unsafe exactly when its lower-cased title contains "error" or "not found", and safe exactly when it does not |
| Verification.FailureVerdict | Phishing-checker.py:69-70 | a browser failure gives "THIS LINK IS NOT SAFE (" + error + ")", which is neither the safe message nor the plain unsafe one |
| Verification.SafeExactlyWhenCleanTitle | Phishing-checker.py:63-70 | the safe message comes exactly from loaded pages whose title is clean |
| Verification.NotSafeMessageContainsSafe | Phishing-checker.py:64 | "THIS LINK IS NOT SAFE", once lower-cased, contains "safe" |
| Verification.NotSafePrefixContainsSafe | Phishing-checker.py:70 | any message starting "THIS LINK IS NOT SAFE", once lower-cased, contains "safe" |
| Verification.SafeMessageContainsSafe | Phishing-checker.py:67 | "This link is safe", once lower-cased, contains "safe" |
| Verification.EndsInSafe | Phishing-checker.py:84 | a text ending in "safe", in any letter case, passes the colour test |
| Analysis.MapUrlsAt | Phishing-checker.py:79 | mapping over the URLs gives one line per URL, the i-th from the i-th URL |
| Analysis.AnalyzeAllAt | Phishing-checker.py:79-87 | exactly one line per input URL, in input order, each being that URL's line |
| Analysis.AnalyzeStep | Phishing-checker.py:79-87 | one turn of the loop appends the line of the next URL |
| Analysis.UnflaggedStep | Phishing-checker.py:80-83 | one turn of the loop hands the next URL to the browser exactly when it is not flagged |
| Analysis.UnflaggedAppend | Phishing-checker.py:80-83 | a further URL joins the browser's calls exactly when it is not flagged |
| Analysis.AnalyzeUrls | Phishing-checker.py:72-87 | the loop prints exactly the lines of `AnalyzeAll` and calls the browser on exactly the unflagged URLs, in input order |
| Analysis.UnflaggedCount | Phishing-checker.py:80-83 | the browser gets a URL as many times as it occurs in the input when it is not flagged, and never when it is |
| Analysis.UnflaggedMembers | Phishing-checker.py:80-83 | a URL reaches the browser exactly when it is in the input and not flagged |
| Analysis.SafeTestAlwaysPasses | Phishing-checker.py:64-84 | the test `"safe" in message.lower()` holds for every message `check_url_safety` can return |
| Analysis.RedExactlyWhenFlagged | Phishing-checker.py:80-87 | a line is red exactly when the heuristic flagged its URL |
| Analysis.SafeLineExactly | Phishing-checker.py:79-87 | a line carries the safe message exactly when the URL is not flagged and its page loaded with a clean title |
| Analysis.OnlyUnflaggedConsulted | Phishing-checker.py:80-83 | two browsers that agree on the unflagged URLs give the same lines |
| Analysis.FlaggedIgnoresBrowser | Phishing-checker.py:80-81 | a flagged URL's line is the red unsafe message, whatever the browser would do |
| Cli.UrlsBeforeFirstDone | Phishing-checker.py:102-106 | with "done" first at line `d`, the loop ends there and collects `d` URLs |
| Cli.CollectedUrlAt | Phishing-checker.py:103-106 | the j-th collected URL is the j-th line, trimmed |
| Cli.NoDoneNoUrls | Phishing-checker.py:102-104 | the input runs out, and nothing is analysed, exactly when no line reads "done" |
| Cli.CollectedAreNotDone | Phishing-checker.py:104-106 | no collected URL reads "done" in any letter case |
| Cli.InputAfterDoneIgnored | Phishing-checker.py:104-105 | lines after the first "done" are never read |
| Cli.ReadStep | Phishing-checker.py:102-106 | one turn of the loop either stops at "done" or appends the next trimmed line |
| Cli.ReadUrls | Phishing-checker.py:100-106 | the `while True` loop returns exactly the URLs `UrlsBeforeDone` collects, or nothing when the input ends first |
| Cli.CliMode | Phishing-checker.py:100-108 | `cli_mode` prints the lines of `AnalyzeAll` for the collected URLs, and nothing when the input ends before "done" |

## Left out

- Browser setup and navigation (Phishing-checker.py:51-60) are not modelled. This covers Chrome options, ChromeDriver, the Tor SOCKS proxy and `driver.get`. These are calls into a browser. Their outcome is the `PageLoad` input: a title, or the text of any exception.
- The browser is a deterministic function of the URL, so a URL that occurs twice is given the same page both times. A live page can differ between two visits.
- `driver.quit()` (Phishing-checker.py:66) is not modelled. It is resource handling. Two paths skip it and leave the browser running. One is the early return at line 64, after a broken title. The other is the `except` branch (lines 69-70), taken when `driver.get` or `driver.title` raises after the driver was created (lines 59-63).
- The exact printed text `{url} -> {message}` and its ANSI colour escapes (Phishing-checker.py:81-87) are reduced to a `Report` value: URL, message and colour.
- The screen clearing, the banner and the prompts of `cli_mode` (Phishing-checker.py:93-101) are not modelled. They are terminal output.
- `input()` is modelled as the finite sequence of lines typed. Reaching its end before "done" stands for `EOFError`, after which nothing is analysed. The traceback and `KeyboardInterrupt` are not modelled.
- The Tkinter GUI `gui_mode` (Phishing-checker.py:110-139) and the argv dispatch (Phishing-checker.py:141-145) are not modelled. They are UI wiring.
- Text.Lower: lower-cases ASCII letters only. Python's `str.lower()` also maps non-ASCII letters.
- Text.StripEnds: treats only ASCII white space as white space (space, 9 to 13, 28 to 31). Python's `str.strip()` also removes Unicode white space.
- `Phishing-checker  - - gui.py` is not part of this model. It fetches the URL with `requests` over a Tor SOCKS proxy and judges it by the HTTP status.
