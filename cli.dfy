/**
  `cli_mode`: read lines until one reads "done" (after trimming, in any
  letter case), collect the other trimmed lines in order, then analyse
  them. The terminal is modelled as the finite sequence of lines the user
  types; when it runs out before "done", `input()` raises `EOFError` and
  the script stops without analysing anything.
 */
module Cli {
  import opened Text
  import opened Verification
  import opened Analysis

  datatype Option<T> = None | Some(value: T)

  /** The word that ends the input loop. */
  const DONE: string := "done"

  /** `url.lower() == 'done'` on the trimmed line. */
  predicate IsDoneWord(url: string) {
    Lower(url) == DONE
  }

  /** The line ends the input loop. */
  predicate IsDone(line: string) {
    IsDoneWord(Strip(line))
  }

  function Prepend(prefix: seq<string>, rest: Option<seq<string>>): Option<seq<string>> {
    match rest
    case None => None
    case Some(urls) => Some(prefix + urls)
  }

  /** The URLs collected from `lines`, or `None` when no line is "done". */
  function UrlsBeforeDone(lines: seq<string>): Option<seq<string>> {
    if lines == [] then None
    else if IsDone(lines[0]) then Some([])
    else Prepend([Strip(lines[0])], UrlsBeforeDone(lines[1..]))
  }

  /** The input loop stops at the first "done" line and collects as many URLs as lines before it. */
  lemma {:induction false} UrlsBeforeFirstDone(lines: seq<string>, d: nat)
    requires d < |lines| && IsDone(lines[d])
    requires forall j :: 0 <= j < d ==> !IsDone(lines[j])
    ensures UrlsBeforeDone(lines).Some?
    ensures |UrlsBeforeDone(lines).value| == d
  {
    if d > 0 {
      var rest := lines[1..];
      assert forall j :: 0 <= j < d - 1 ==> rest[j] == lines[j + 1];
      UrlsBeforeFirstDone(rest, d - 1);
    }
  }

  /** The j-th collected URL is the j-th line, trimmed. */
  lemma {:induction false} CollectedUrlAt(lines: seq<string>, d: nat, j: nat)
    requires d < |lines| && IsDone(lines[d])
    requires forall k :: 0 <= k < d ==> !IsDone(lines[k])
    requires j < d
    ensures UrlsBeforeDone(lines).Some? && j < |UrlsBeforeDone(lines).value|
    ensures UrlsBeforeDone(lines).value[j] == Strip(lines[j])
  {
    UrlsBeforeFirstDone(lines, d);
    if j > 0 {
      var rest := lines[1..];
      assert forall k :: 0 <= k < d - 1 ==> rest[k] == lines[k + 1];
      CollectedUrlAt(rest, d - 1, j - 1);
    }
  }

  /** Without a "done" line the loop reaches the end of the input and nothing is collected. */
  lemma {:induction false} NoDoneNoUrls(lines: seq<string>)
    ensures UrlsBeforeDone(lines).None? <==> forall j :: 0 <= j < |lines| ==> !IsDone(lines[j])
  {
    if lines != [] {
      NoDoneNoUrls(lines[1..]);
      if !IsDone(lines[0]) {
        assert forall j :: 1 <= j < |lines| ==> lines[1..][j - 1] == lines[j];
      }
    }
  }

  /** No collected URL is itself "done". */
  lemma {:induction false} CollectedAreNotDone(lines: seq<string>)
    requires UrlsBeforeDone(lines).Some?
    ensures forall u :: u in UrlsBeforeDone(lines).value ==> !IsDoneWord(u)
  {
    if !IsDone(lines[0]) {
      CollectedAreNotDone(lines[1..]);
    }
  }

  /** Nothing typed after the first "done" line is read. */
  lemma {:induction false} InputAfterDoneIgnored(lines: seq<string>, more: seq<string>)
    requires UrlsBeforeDone(lines).Some?
    ensures UrlsBeforeDone(lines + more) == UrlsBeforeDone(lines)
  {
    assert (lines + more)[0] == lines[0];
    if !IsDone(lines[0]) {
      assert (lines + more)[1..] == lines[1..] + more;
      InputAfterDoneIgnored(lines[1..], more);
    }
  }

  /** One turn of the input loop: a line that is not "done" moves, trimmed, to the collected URLs. */
  lemma ReadStep(collected: seq<string>, lines: seq<string>, i: nat)
    requires i < |lines|
    ensures IsDone(lines[i]) ==> Prepend(collected, UrlsBeforeDone(lines[i..])) == Some(collected)
    ensures !IsDone(lines[i]) ==>
              Prepend(collected, UrlsBeforeDone(lines[i..]))
              == Prepend(collected + [Strip(lines[i])], UrlsBeforeDone(lines[i + 1..]))
  {
    var rest := lines[i..];
    assert rest[0] == lines[i] && rest[1..] == lines[i + 1..];
    if IsDone(lines[i]) {
      assert collected + [] == collected;
    } else {
      match UrlsBeforeDone(lines[i + 1..]) {
        case None =>
        case Some(more) =>
          assert collected + ([Strip(lines[i])] + more) == collected + [Strip(lines[i])] + more;
      }
    }
  }

  /** Before the loop nothing is collected and all of the input is still to be read. */
  lemma ReadStart(lines: seq<string>)
    ensures UrlsBeforeDone(lines) == Prepend([], UrlsBeforeDone(lines[0..]))
  {
    assert lines[0..] == lines;
    match UrlsBeforeDone(lines) {
      case None =>
      case Some(all) => assert [] + all == all;
    }
  }

  /** The `while True` loop of `cli_mode`. */
  method ReadUrls(lines: seq<string>) returns (urls: Option<seq<string>>)
    ensures urls == UrlsBeforeDone(lines)
  {
    var collected: seq<string> := [];
    var i := 0;
    ReadStart(lines);
    while true
      invariant 0 <= i <= |lines|
      invariant UrlsBeforeDone(lines) == Prepend(collected, UrlsBeforeDone(lines[i..]))
      decreases |lines| - i
    {
      if i == |lines| {
        // input() raises EOFError
        return None;
      }
      ReadStep(collected, lines, i);
      var url := Strip(lines[i]);
      if IsDoneWord(url) {
        return Some(collected);
      }
      collected := collected + [url];
      i := i + 1;
    }
  }

  /** `cli_mode()` after the banner: read the URLs, then run `analyze_urls` on them. */
  method CliMode(lines: seq<string>, browser: string -> PageLoad) returns (reports: Option<seq<Report>>)
    ensures UrlsBeforeDone(lines).None? ==> reports.None?
    ensures UrlsBeforeDone(lines).Some? ==>
              reports == Some(AnalyzeAll(UrlsBeforeDone(lines).value, browser))
  {
    var urls := ReadUrls(lines);
    match urls {
      case None =>
        reports := None;
      case Some(collected) =>
        var printed, _ := AnalyzeUrls(collected, browser);
        reports := Some(printed);
    }
  }
}
