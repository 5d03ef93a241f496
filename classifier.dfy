/**
  The URL heuristic `is_phishing_url`: a URL is flagged when its lower-cased
  text contains one of eight indicator words, or ends with one of the
  literal entries of the suspicious-suffix list. The suffix test is plain
  `endswith` on the whole URL, not domain parsing, so the list's malformed
  entries ('[.]com', '.ru<', 'gq') match literally.
 */
module Classifier {
  import opened Text

  const INDICATORS: seq<string> :=
    ["login", "secure", "account", "verify", "webscr", "update", "auth", "signin"]

  /** The suffix list exactly as the script writes it, duplicates and malformed entries included. */
  const SUSPICIOUS_TLDS: seq<string> :=
    [".xyz", ".click", ".top", ".tk", ".ml", ".ga", ".cf", ".gq", "[.]com", ".beauty",
     ".buzz", ".shop", ".cf", ".cn", ".trycloudflare.com", ".dad", ".zip", ".mov", ".nexus",
     ".club", ".icu", ".host", ".ru", ".ru<", ".wang", "gq", ".ml"]

  /** `any(k in s for k in keys)` */
  function AnyContains(s: string, keys: seq<string>): (r: bool)
    ensures r <==> exists k :: 0 <= k < |keys| && Contains(s, keys[k])
  {
    if keys == [] then false
    else Contains(s, keys[0]) || AnyContains(s, keys[1..])
  }

  /** `any(s.endswith(t) for t in suffixes)` */
  function AnyEndsWith(s: string, suffixes: seq<string>): (r: bool)
    ensures r <==> exists k :: 0 <= k < |suffixes| && EndsWith(s, suffixes[k])
  {
    if suffixes == [] then false
    else EndsWith(s, suffixes[0]) || AnyEndsWith(s, suffixes[1..])
  }

  /** `is_phishing_url(url)`: the keyword test first, then the suffix test, both on `url.lower()`. */
  function IsPhishingUrl(url: string): (flagged: bool)
    ensures flagged <==>
              (exists k :: 0 <= k < |INDICATORS| && Contains(Lower(url), INDICATORS[k]))
              || (exists t :: 0 <= t < |SUSPICIOUS_TLDS| && EndsWith(Lower(url), SUSPICIOUS_TLDS[t]))
  {
    if AnyContains(Lower(url), INDICATORS) then true
    else if AnyEndsWith(Lower(url), SUSPICIOUS_TLDS) then true
    else false
  }

  /** The verdict depends only on the lower-cased URL. */
  lemma CaseInsensitive(url: string)
    ensures IsPhishingUrl(Lower(url)) == IsPhishingUrl(url)
  {
    LowerIdempotent(url);
  }

  /** Every indicator word, wherever it stands in the URL, flags it. */
  lemma IndicatorAnywhereFlags(before: string, k: nat, after: string)
    requires k < |INDICATORS|
    ensures IsPhishingUrl(before + INDICATORS[k] + after)
  {
    var w := INDICATORS[k];
    LowerOfLowerCase(w);
    LowerAppend(before + w, after);
    LowerAppend(before, w);
    ContainsRight(Lower(before), w, w);
    assert OccursAt(w, w, 0);
    ContainsLeft(Lower(before) + w, Lower(after), w);
  }

  /** A URL ending with an entry of the suffix list, in any letter case, is flagged. */
  lemma SuffixAnyCaseFlags(host: string, suffix: string, t: nat)
    requires t < |SUSPICIOUS_TLDS| && Lower(suffix) == SUSPICIOUS_TLDS[t]
    ensures IsPhishingUrl(host + suffix)
  {
    LowerAppend(host, suffix);
    EndsWithAppend(Lower(host), Lower(suffix));
  }

  /** The malformed entries are matched as literal text, in any letter case. */
  lemma MalformedComFlags(host: string)
    ensures IsPhishingUrl(host + "[.]COM")
  {
    assert Lower("[.]COM") == SUSPICIOUS_TLDS[8];
    SuffixAnyCaseFlags(host, "[.]COM", 8);
  }

  lemma MalformedRuFlags(host: string)
    ensures IsPhishingUrl(host + ".RU<")
  {
    assert Lower(".RU<") == SUSPICIOUS_TLDS[23];
    SuffixAnyCaseFlags(host, ".RU<", 23);
  }

  lemma MalformedGqFlags(host: string)
    ensures IsPhishingUrl(host + "GQ")
  {
    assert Lower("GQ") == SUSPICIOUS_TLDS[25];
    SuffixAnyCaseFlags(host, "GQ", 25);
  }

  /** `suffixes` without its entry at index `i`. */
  function RemoveAt(suffixes: seq<string>, i: nat): (r: seq<string>)
    requires i < |suffixes|
    ensures |r| == |suffixes| - 1
    ensures forall k :: 0 <= k < i ==> r[k] == suffixes[k]
    ensures forall k :: i <= k < |r| ==> r[k] == suffixes[k + 1]
  {
    suffixes[..i] + suffixes[i + 1..]
  }

  /**
    An entry that ends with another entry of the list (a duplicate, or '.gq'
    beside 'gq') can be dropped without changing the suffix test.
   */
  lemma RemoveSubsumedSuffix(s: string, suffixes: seq<string>, i: nat, j: nat)
    requires i < |suffixes| && j < |suffixes| && i != j
    requires EndsWith(suffixes[i], suffixes[j])
    ensures AnyEndsWith(s, RemoveAt(suffixes, i)) == AnyEndsWith(s, suffixes)
  {
    var r := RemoveAt(suffixes, i);
    if AnyEndsWith(s, suffixes) {
      var k :| 0 <= k < |suffixes| && EndsWith(s, suffixes[k]);
      if k == i {
        EndsWithTransitive(s, suffixes[i], suffixes[j]);
        var j' := if j < i then j else j - 1;
        assert r[j'] == suffixes[j];
      } else {
        var k' := if k < i then k else k - 1;
        assert r[k'] == suffixes[k];
      }
    }
    if AnyEndsWith(s, r) {
      var k :| 0 <= k < |r| && EndsWith(s, r[k]);
      var k' := if k < i then k else k + 1;
      assert r[k] == suffixes[k'];
    }
  }

  /** The suffix list less the second '.ml' (index 26), the second '.cf' (index 12) and '.gq' (index 7, covered by 'gq'). */
  const CANONICAL_TLDS: seq<string> := RemoveAt(RemoveAt(RemoveAt(SUSPICIOUS_TLDS, 26), 12), 7)

  /** Dropping the second '.ml' (index 26), a duplicate of index 4. */
  lemma DropSecondMl(s: string)
    ensures AnyEndsWith(s, RemoveAt(SUSPICIOUS_TLDS, 26)) == AnyEndsWith(s, SUSPICIOUS_TLDS)
  {
    var l := SUSPICIOUS_TLDS;
    assert l[26] == l[4];
    EndsWithSelf(l[4]);
    RemoveSubsumedSuffix(s, l, 26, 4);
  }

  /** Dropping the second '.cf' (index 12), a duplicate of index 6. */
  lemma DropSecondCf(s: string)
    ensures AnyEndsWith(s, RemoveAt(RemoveAt(SUSPICIOUS_TLDS, 26), 12))
            == AnyEndsWith(s, RemoveAt(SUSPICIOUS_TLDS, 26))
  {
    var l := SUSPICIOUS_TLDS;
    var l1 := RemoveAt(l, 26);
    assert l1[12] == l[12] == l[6] == l1[6];
    EndsWithSelf(l1[6]);
    RemoveSubsumedSuffix(s, l1, 12, 6);
  }

  /** Dropping '.gq' (index 7), which ends with the entry 'gq'. */
  lemma DropDotGq(s: string)
    ensures AnyEndsWith(s, CANONICAL_TLDS) == AnyEndsWith(s, RemoveAt(RemoveAt(SUSPICIOUS_TLDS, 26), 12))
  {
    var l := SUSPICIOUS_TLDS;
    var l2 := RemoveAt(RemoveAt(l, 26), 12);
    assert l2[7] == l[7] && l2[24] == l[25];
    GqCoversDotGq();
    RemoveSubsumedSuffix(s, l2, 7, 24);
  }

  lemma GqCoversDotGq()
    ensures EndsWith(SUSPICIOUS_TLDS[7], SUSPICIOUS_TLDS[25])
  {
    var dotGq, gq := SUSPICIOUS_TLDS[7], SUSPICIOUS_TLDS[25];
    assert dotGq == ".gq" && gq == "gq";
    assert dotGq[1..] == gq;
  }

  /** The duplicate and subsumed entries of the script's list do not change the suffix test. */
  lemma RedundantSuffixesIrrelevant(s: string)
    ensures AnyEndsWith(s, CANONICAL_TLDS) == AnyEndsWith(s, SUSPICIOUS_TLDS)
  {
    DropSecondMl(s);
    DropSecondCf(s);
    DropDotGq(s);
  }

  /** Hence `is_phishing_url` is the same predicate over the deduplicated list. */
  lemma CanonicalClassifier(url: string)
    ensures IsPhishingUrl(url) ==
              (AnyContains(Lower(url), INDICATORS) || AnyEndsWith(Lower(url), CANONICAL_TLDS))
  {
    RedundantSuffixesIrrelevant(Lower(url));
  }
}
