/**
  The verdict half of `check_url_safety`. The headless browser behind the
  Tor proxy is not modelled: what it produced for a URL is an input, either
  the title of the loaded page or the text of the exception raised while
  the browser was set up, navigated or read.
 */
module Verification {
  import opened Text

  datatype PageLoad =
    | Loaded(title: string)
    | Failed(error: string)

  const NOT_SAFE_MESSAGE: string := "THIS LINK IS NOT SAFE"
  const SAFE_MESSAGE: string := "This link is safe"

  /** The title test: `"error" in title.lower() or "not found" in title.lower()`. */
  predicate TitleLooksBroken(title: string) {
    Contains(Lower(title), "error") || Contains(Lower(title), "not found")
  }

  /** The message of the `except` branch: `f"THIS LINK IS NOT SAFE ({str(e)})"`. */
  function FailureMessage(error: string): (msg: string)
    ensures StartsWith(msg, NOT_SAFE_MESSAGE + " (")
    ensures |msg| == |NOT_SAFE_MESSAGE| + |error| + 3
    ensures msg[|NOT_SAFE_MESSAGE| + 2..|msg| - 1] == error && msg[|msg| - 1] == ')'
  {
    NOT_SAFE_MESSAGE + " (" + error + ")"
  }

  /** `check_url_safety(url)`, given what the browser produced for `url`. */
  function CheckUrlSafety(page: PageLoad): (msg: string)
    ensures msg == SAFE_MESSAGE || StartsWith(msg, NOT_SAFE_MESSAGE)
  {
    match page
    case Loaded(title) =>
      if TitleLooksBroken(title) then NOT_SAFE_MESSAGE else SAFE_MESSAGE
    case Failed(error) =>
      var msg := FailureMessage(error);
      assert msg[..|NOT_SAFE_MESSAGE|] == NOT_SAFE_MESSAGE;
      msg
  }

  lemma SafeAndNotSafeDiffer()
    ensures SAFE_MESSAGE != NOT_SAFE_MESSAGE
    ensures !StartsWith(SAFE_MESSAGE, NOT_SAFE_MESSAGE)
  {
    assert SAFE_MESSAGE[1] != NOT_SAFE_MESSAGE[1];
  }

  /** A loaded page is reported unsafe exactly when its title mentions an error or "not found". */
  lemma LoadedVerdict(title: string)
    ensures CheckUrlSafety(Loaded(title)) == NOT_SAFE_MESSAGE <==> TitleLooksBroken(title)
    ensures CheckUrlSafety(Loaded(title)) == SAFE_MESSAGE <==> !TitleLooksBroken(title)
  {
    SafeAndNotSafeDiffer();
  }

  /**
    A browser failure yields "THIS LINK IS NOT SAFE (" + the error text + ")",
    never the plain safe message.
   */
  lemma FailureVerdict(error: string)
    ensures StartsWith(CheckUrlSafety(Failed(error)), NOT_SAFE_MESSAGE + " (")
    ensures CheckUrlSafety(Failed(error)) == NOT_SAFE_MESSAGE + " (" + error + ")"
    ensures CheckUrlSafety(Failed(error)) != SAFE_MESSAGE
    ensures CheckUrlSafety(Failed(error)) != NOT_SAFE_MESSAGE
  {
    SafeAndNotSafeDiffer();
  }

  /** The safe message is produced for exactly the loaded pages with a clean title. */
  lemma SafeExactlyWhenCleanTitle(page: PageLoad)
    ensures CheckUrlSafety(page) == SAFE_MESSAGE <==> page.Loaded? && !TitleLooksBroken(page.title)
  {
    SafeAndNotSafeDiffer();
    if page.Failed? {
      FailureVerdict(page.error);
    }
  }
  /** "THIS LINK IS NOT SAFE" contains "safe" once lower-cased. */
  lemma NotSafeMessageContainsSafe()
    ensures Contains(Lower(NOT_SAFE_MESSAGE), "safe")
  {
    assert NOT_SAFE_MESSAGE == "THIS LINK IS NOT " + "SAFE";
    EndsInSafe("THIS LINK IS NOT ", "SAFE");
  }

  /** Whatever follows "THIS LINK IS NOT SAFE", the lower-cased text contains "safe". */
  lemma NotSafePrefixContainsSafe(rest: string)
    ensures Contains(Lower(NOT_SAFE_MESSAGE + rest), "safe")
  {
    NotSafeMessageContainsSafe();
    LowerAppend(NOT_SAFE_MESSAGE, rest);
    ContainsLeft(Lower(NOT_SAFE_MESSAGE), Lower(rest), "safe");
  }

  /** "This link is safe" contains "safe" once lower-cased. */
  lemma SafeMessageContainsSafe()
    ensures Contains(Lower(SAFE_MESSAGE), "safe")
  {
    assert SAFE_MESSAGE == "This link is " + "safe";
    EndsInSafe("This link is ", "safe");
  }

  /** Any text followed by "safe" in any letter case contains "safe" once lower-cased. */
  lemma EndsInSafe(before: string, word: string)
    requires Lower(word) == "safe"
    ensures Contains(Lower(before + word), "safe")
  {
    assert OccursAt(Lower(word), "safe", 0);
    LowerAppend(before, word);
    ContainsRight(Lower(before), Lower(word), "safe");
  }
}
