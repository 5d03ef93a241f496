/**
  `analyze_urls`: one report line per URL, in input order. A URL the
  heuristic flags is reported unsafe at once; only the others are handed to
  the browser, and the colour of their line is chosen by the text test
  `"safe" in message.lower()`.
 */
module Analysis {
  import opened Text
  import opened Classifier
  import opened Verification

  datatype Colour = Red | Green

  /** One printed line: `{url} -> {message}` in the given colour. */
  datatype Report = Report(url: string, message: string, colour: Colour)

  /** The colour test of the script: green when the message contains "safe" in any case. */
  function ColourOf(message: string): Colour {
    if Contains(Lower(message), "safe") then Green else Red
  }

  /** The report line for one URL, the browser being `browser`. */
  function Analyze(url: string, browser: string -> PageLoad): Report {
    if IsPhishingUrl(url) then
      Report(url, NOT_SAFE_MESSAGE, Red)
    else
      var message := CheckUrlSafety(browser(url));
      Report(url, message, ColourOf(message))
  }

  /** `report` applied to each URL of `urls`, in order. */
  function MapUrls(urls: seq<string>, report: string -> Report): seq<Report> {
    if urls == [] then []
    else MapUrls(urls[..|urls| - 1], report) + [report(urls[|urls| - 1])]
  }

  /** One line per URL, the i-th line being that of the i-th URL. */
  lemma {:induction false} MapUrlsAt(urls: seq<string>, report: string -> Report)
    ensures |MapUrls(urls, report)| == |urls|
    ensures forall i :: 0 <= i < |urls| ==> MapUrls(urls, report)[i] == report(urls[i])
  {
    if urls != [] {
      MapUrlsAt(urls[..|urls| - 1], report);
    }
  }

  lemma MapUrlsAppend(urls: seq<string>, url: string, report: string -> Report)
    ensures MapUrls(urls + [url], report) == MapUrls(urls, report) + [report(url)]
  {
    assert (urls + [url])[..|urls|] == urls;
  }

  /** The report lines `analyze_urls` prints for `urls`, in order. */
  function AnalyzeAll(urls: seq<string>, browser: string -> PageLoad): seq<Report> {
    MapUrls(urls, url => Analyze(url, browser))
  }

  /** One report line per URL, the i-th being that of the i-th URL. */
  lemma AnalyzeAllAt(urls: seq<string>, browser: string -> PageLoad)
    ensures |AnalyzeAll(urls, browser)| == |urls|
    ensures forall i :: 0 <= i < |urls| ==> AnalyzeAll(urls, browser)[i] == Analyze(urls[i], browser)
  {
    MapUrlsAt(urls, url => Analyze(url, browser));
  }

  /** The URLs of `urls` the heuristic does not flag, in order: those handed to the browser. */
  function Unflagged(urls: seq<string>): seq<string> {
    if urls == [] then []
    else
      var last := urls[|urls| - 1];
      Unflagged(urls[..|urls| - 1]) + (if IsPhishingUrl(last) then [] else [last])
  }

  /**
    `analyze_urls(urls)`: `reports` are the printed lines and `visited` the
    URLs passed to `check_url_safety`, in the order of the calls.
   */
  method AnalyzeUrls(urls: seq<string>, browser: string -> PageLoad)
    returns (reports: seq<Report>, visited: seq<string>)
    ensures reports == AnalyzeAll(urls, browser)
    ensures visited == Unflagged(urls)
  {
    reports, visited := [], [];
    for i := 0 to |urls|
      invariant reports == AnalyzeAll(urls[..i], browser)
      invariant visited == Unflagged(urls[..i])
    {
      var url := urls[i];
      AnalyzeStep(urls, i, browser);
      UnflaggedStep(urls, i);
      var line: Report;
      if IsPhishingUrl(url) {
        line := Report(url, NOT_SAFE_MESSAGE, Red);
      } else {
        visited := visited + [url];
        var safetyCheck := CheckUrlSafety(browser(url));
        line := Report(url, safetyCheck, ColourOf(safetyCheck));
      }
      assert line == Analyze(url, browser);
      reports := reports + [line];
    }
    assert urls[..|urls|] == urls;
  }

  /** One turn of the loop of `analyze_urls` adds the line of the next URL. */
  lemma AnalyzeStep(urls: seq<string>, i: nat, browser: string -> PageLoad)
    requires i < |urls|
    ensures AnalyzeAll(urls[..i + 1], browser) == AnalyzeAll(urls[..i], browser) + [Analyze(urls[i], browser)]
  {
    assert urls[..i] + [urls[i]] == urls[..i + 1];
    MapUrlsAppend(urls[..i], urls[i], url => Analyze(url, browser));
  }

  /** One turn of the loop of `analyze_urls` hands the next URL to the browser unless it is flagged. */
  lemma UnflaggedStep(urls: seq<string>, i: nat)
    requires i < |urls|
    ensures IsPhishingUrl(urls[i]) ==> Unflagged(urls[..i + 1]) == Unflagged(urls[..i])
    ensures !IsPhishingUrl(urls[i]) ==> Unflagged(urls[..i + 1]) == Unflagged(urls[..i]) + [urls[i]]
  {
    assert urls[..i] + [urls[i]] == urls[..i + 1];
    UnflaggedAppend(urls[..i], urls[i]);
  }

  lemma UnflaggedAppend(urls: seq<string>, url: string)
    ensures IsPhishingUrl(url) ==> Unflagged(urls + [url]) == Unflagged(urls)
    ensures !IsPhishingUrl(url) ==> Unflagged(urls + [url]) == Unflagged(urls) + [url]
  {
    assert (urls + [url])[..|urls|] == urls;
    assert Unflagged(urls) + [] == Unflagged(urls);
  }

  /** Each URL is handed to the browser once per occurrence if the heuristic passes it, never otherwise. */
  lemma {:induction false} UnflaggedCount(urls: seq<string>, u: string)
    ensures multiset(Unflagged(urls))[u] == if IsPhishingUrl(u) then 0 else multiset(urls)[u]
  {
    if urls != [] {
      var init, last := urls[..|urls| - 1], urls[|urls| - 1];
      assert urls == init + [last];
      UnflaggedCount(init, u);
    }
  }

  /** The browser sees exactly the URLs the heuristic does not flag. */
  lemma UnflaggedMembers(urls: seq<string>, u: string)
    ensures u in Unflagged(urls) <==> u in urls && !IsPhishingUrl(u)
  {
    UnflaggedCount(urls, u);
  }

  /** "safe" occurs in every message `check_url_safety` can return, "NOT SAFE" included. */
  lemma SafeTestAlwaysPasses(page: PageLoad)
    ensures Contains(Lower(CheckUrlSafety(page)), "safe")
  {
    match page
    case Loaded(title) =>
      NotSafeMessageContainsSafe();
      SafeMessageContainsSafe();
    case Failed(error) =>
      assert CheckUrlSafety(page) == NOT_SAFE_MESSAGE + (" (" + error + ")");
      NotSafePrefixContainsSafe(" (" + error + ")");
  }

  /**
    As written, the colour only tells whether the heuristic flagged the URL:
    every URL handed to the browser is printed green, whatever its verdict.
   */
  lemma RedExactlyWhenFlagged(url: string, browser: string -> PageLoad)
    ensures Analyze(url, browser).colour == Red <==> IsPhishingUrl(url)
  {
    SafeTestAlwaysPasses(browser(url));
  }

  /** A line carries the safe message exactly when the heuristic passes the URL and the page title is clean. */
  lemma SafeLineExactly(url: string, browser: string -> PageLoad)
    ensures Analyze(url, browser).message == SAFE_MESSAGE <==>
              !IsPhishingUrl(url) && browser(url).Loaded? && !TitleLooksBroken(browser(url).title)
  {
    SafeAndNotSafeDiffer();
    SafeExactlyWhenCleanTitle(browser(url));
  }

  /** The lines depend on what the browser does for the unflagged URLs only. */
  lemma {:induction false} OnlyUnflaggedConsulted(urls: seq<string>, browser: string -> PageLoad, other: string -> PageLoad)
    requires forall u :: u in Unflagged(urls) ==> browser(u) == other(u)
    ensures AnalyzeAll(urls, browser) == AnalyzeAll(urls, other)
  {
    if urls != [] {
      var init, last := urls[..|urls| - 1], urls[|urls| - 1];
      assert urls == init + [last];
      UnflaggedAppend(init, last);
      OnlyUnflaggedConsulted(init, browser, other);
      if !IsPhishingUrl(last) {
        assert last in Unflagged(urls);
      }
      assert Analyze(last, browser) == Analyze(last, other);
    }
  }

  /** A flagged URL's line does not depend on the browser at all: it is never consulted. */
  lemma FlaggedIgnoresBrowser(url: string, browser: string -> PageLoad, other: string -> PageLoad)
    requires IsPhishingUrl(url)
    ensures Analyze(url, browser) == Analyze(url, other) == Report(url, NOT_SAFE_MESSAGE, Red)
  {
  }
}
