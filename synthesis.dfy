/** `synthesize_topic` and the synthesis loop of `main`
    (src/weflow/main.py:81-159, 287-298): per cluster, pick up to five
    described image candidates not used by an earlier cluster, have the
    report written, swap its embedded images for uploaded copies, and
    choose a header image. */
module Synthesis {
  import opened Wrappers
  import opened Strings
  import opened Sequences
  import opened Articles
  import opened MarkdownImages

  /** The number of image candidates after which a cluster takes no more. */
  const CandidateLimit: nat := 5

  /** The header used when no image could be had. */
  const Placeholder: string := "https://via.placeholder.com/600x300?text=No+Image"

  /** The run-wide `used_images` set that every cluster's synthesis adds
      to. */
  class UsedImages {
    var urls: set<string>

    constructor ()
      ensures urls == {}
    {
      urls := {};
    }
  }

  // ---------------------------------------------------------------------
  // Image candidates

  /** The state of the candidate scan: the candidates so far, the used
      set, and whether `describe_image` raised. */
  datatype Scan = Scan(cands: seq<Candidate>, used: set<string>, raised: bool)

  /** The scan over one article's image URLs. A URL that is not "http..."
      or already used is passed over; any other is added to the used set
      first, and only then is the cap checked, which ends this article's
      scan. A described URL becomes a candidate when the description is
      non-empty. */
  function ScanUrls(urls: seq<string>, cands: seq<Candidate>, used: set<string>, describe: string -> Call<string>): Scan
    decreases |urls|
  {
    if |urls| == 0 then Scan(cands, used, false)
    else
      var u := urls[0];
      if !StartsWith(u, "http") || u in used then ScanUrls(urls[1..], cands, used, describe)
      else if |cands| >= CandidateLimit then Scan(cands, used + {u}, false)
      else match describe(u)
        case Raised => Scan(cands, used + {u}, true)
        case Returned(d) =>
          ScanUrls(urls[1..], if d != "" then cands + [Candidate(u, d)] else cands, used + {u}, describe)
  }

  /** The scan over the image URLs of each article in turn. */
  function ScanLists(lists: seq<seq<string>>, cands: seq<Candidate>, used: set<string>, describe: string -> Call<string>): Scan
    decreases |lists|
  {
    if |lists| == 0 then Scan(cands, used, false)
    else
      var s := ScanUrls(lists[0], cands, used, describe);
      if s.raised then s else ScanLists(lists[1..], s.cands, s.used, describe)
  }

  /** At most five candidates, each with an "http" URL that is in the used
      set and a non-empty description, no URL twice. */
  ghost predicate CandidatesOk(cands: seq<Candidate>, used: set<string>) {
    && |cands| <= CandidateLimit
    && (forall i :: 0 <= i < |cands| ==>
          cands[i].url in used && StartsWith(cands[i].url, "http") && cands[i].description != "")
    && (forall i, j :: 0 <= i < j < |cands| ==> cands[i].url != cands[j].url)
  }

  /** The scan keeps the candidates it started with, adds only URLs that
      were not used on entry, and adds to the used set only "http" URLs of
      the article. */
  ghost predicate ScanStep(cands: seq<Candidate>, used: set<string>, s: Scan, from: set<string>) {
    && CandidatesOk(s.cands, s.used)
    && used <= s.used
    && |cands| <= |s.cands| && s.cands[..|cands|] == cands
    && (forall i :: |cands| <= i < |s.cands| ==> s.cands[i].url !in used)
    && (forall u :: u in s.used && u !in used ==> StartsWith(u, "http") && u in from)
  }

  lemma AddCandidate(cands: seq<Candidate>, used: set<string>, u: string, d: string)
    requires CandidatesOk(cands, used) && |cands| < CandidateLimit
    requires StartsWith(u, "http") && u !in used && d != ""
    ensures CandidatesOk(cands + [Candidate(u, d)], used + {u})
  {
    var c := cands + [Candidate(u, d)];
    forall i, j | 0 <= i < j < |c| ensures c[i].url != c[j].url {
      if j == |cands| {
        assert c[i].url in used;
      }
    }
  }

  lemma {:induction false} ScanUrlsSpec(urls: seq<string>, cands: seq<Candidate>, used: set<string>, describe: string -> Call<string>)
    requires CandidatesOk(cands, used)
    ensures ScanStep(cands, used, ScanUrls(urls, cands, used, describe), set u | u in urls)
    decreases |urls|
  {
    if |urls| > 0 {
      var u := urls[0];
      if !StartsWith(u, "http") || u in used {
        ScanUrlsSpec(urls[1..], cands, used, describe);
        ScanSkipStep(urls, cands, used, describe);
      } else if |cands| >= CandidateLimit || describe(u).Raised? {
        assert cands[..|cands|] == cands;
      } else {
        var d := describe(u).value;
        var c := if d != "" then cands + [Candidate(u, d)] else cands;
        if d != "" {
          AddCandidate(cands, used, u, d);
        }
        ScanUrlsSpec(urls[1..], c, used + {u}, describe);
        ScanTakeStep(urls, cands, used, describe, c);
      }
    }
  }

  /** A URL passed over leaves the scan as it is on the rest. */
  lemma ScanSkipStep(urls: seq<string>, cands: seq<Candidate>, used: set<string>, describe: string -> Call<string>)
    requires |urls| > 0 && (!StartsWith(urls[0], "http") || urls[0] in used)
    requires ScanStep(cands, used, ScanUrls(urls[1..], cands, used, describe), set u | u in urls[1..])
    ensures ScanStep(cands, used, ScanUrls(urls, cands, used, describe), set u | u in urls)
  {
    assert (set v | v in urls[1..]) <= set v | v in urls;
  }

  /** A described URL below the cap is marked used, and a candidate when its
      description is not empty; the scan goes on with the rest. */
  lemma ScanTakeStep(urls: seq<string>, cands: seq<Candidate>, used: set<string>, describe: string -> Call<string>, c: seq<Candidate>)
    requires |urls| > 0 && StartsWith(urls[0], "http") && urls[0] !in used && |cands| < CandidateLimit
    requires describe(urls[0]).Returned?
    requires c == if describe(urls[0]).value != "" then cands + [Candidate(urls[0], describe(urls[0]).value)] else cands
    requires ScanStep(c, used + {urls[0]}, ScanUrls(urls[1..], c, used + {urls[0]}, describe), set u | u in urls[1..])
    ensures ScanStep(cands, used, ScanUrls(urls, cands, used, describe), set u | u in urls)
  {
    var s := ScanUrls(urls[1..], c, used + {urls[0]}, describe);
    assert (set v | v in urls[1..]) <= set v | v in urls;
    assert s.cands[..|cands|] == s.cands[..|c|][..|cands|];
  }

  /** The URLs of all the lists. */
  ghost function AllUrls(lists: seq<seq<string>>): set<string> {
    set i, u | 0 <= i < |lists| && u in lists[i] :: u
  }

  lemma {:induction false} ScanListsSpec(lists: seq<seq<string>>, cands: seq<Candidate>, used: set<string>, describe: string -> Call<string>)
    requires CandidatesOk(cands, used)
    ensures ScanStep(cands, used, ScanLists(lists, cands, used, describe), AllUrls(lists))
    decreases |lists|
  {
    if |lists| > 0 {
      ScanUrlsSpec(lists[0], cands, used, describe);
      var s := ScanUrls(lists[0], cands, used, describe);
      assert (set u | u in lists[0]) <= AllUrls(lists);
      if !s.raised {
        ScanListsSpec(lists[1..], s.cands, s.used, describe);
        var s' := ScanLists(lists[1..], s.cands, s.used, describe);
        assert AllUrls(lists[1..]) <= AllUrls(lists) by {
          forall u | u in AllUrls(lists[1..]) ensures u in AllUrls(lists) {
            var i :| 0 <= i < |lists[1..]| && u in lists[1..][i];
            assert u in lists[i + 1];
          }
        }
        assert s'.cands[..|cands|] == s'.cands[..|s.cands|][..|cands|];
      }
    }
  }

  /** The candidates a cluster's scan yields, starting from no candidates
      and the run's used set: at most five, "http" URLs only, none used on
      entry, no URL twice, each with the non-empty description returned
      for it. The used set only grows, gains every candidate, and gains
      nothing but "http" URLs of the cluster's articles. When the scan
      neither raises nor fills the cap, the used set gains every "http" URL
      of the cluster, and every fresh one with a non-empty description is
      a candidate. */
  lemma CandidateRules(lists: seq<seq<string>>, used: set<string>, describe: string -> Call<string>)
    ensures var s := ScanLists(lists, [], used, describe);
      && |s.cands| <= CandidateLimit
      && (forall i :: 0 <= i < |s.cands| ==>
            StartsWith(s.cands[i].url, "http") && s.cands[i].url !in used
            && s.cands[i].url in s.used && s.cands[i].description != "")
      && (forall i, j :: 0 <= i < j < |s.cands| ==> s.cands[i].url != s.cands[j].url)
      && used <= s.used
      && (forall u :: u in s.used - used ==> StartsWith(u, "http") && u in AllUrls(lists))
      && (forall i :: 0 <= i < |s.cands| ==> describe(s.cands[i].url) == Returned(s.cands[i].description))
      && (!s.raised && |s.cands| < CandidateLimit ==>
            && s.used == used + HttpAll(lists)
            && forall u :: u in HttpAll(lists) && u !in used && HasDescription(u, describe) ==>
                 exists i :: 0 <= i < |s.cands| && s.cands[i].url == u)
  {
    ScanListsSpec(lists, [], used, describe);
    ScanListsComplete(lists, [], used, describe);
  }

  /** `describe_image` returned a non-empty description for `u`. */
  ghost predicate HasDescription(u: string, describe: string -> Call<string>) {
    describe(u).Returned? && describe(u).value != ""
  }

  /** Each candidate carries the description returned for its URL. */
  ghost predicate DescribedBy(cands: seq<Candidate>, describe: string -> Call<string>) {
    forall i :: 0 <= i < |cands| ==> describe(cands[i].url) == Returned(cands[i].description)
  }

  /** The URLs of some candidates. */
  ghost function CandidateUrls(cands: seq<Candidate>): set<string> {
    set i | 0 <= i < |cands| :: cands[i].url
  }

  /** The "http" URLs of a list. */
  ghost function HttpUrls(urls: seq<string>): set<string> {
    set u | u in urls && StartsWith(u, "http")
  }

  /** The "http" URLs of all the lists. */
  ghost function HttpAll(lists: seq<seq<string>>): set<string> {
    set u | u in AllUrls(lists) && StartsWith(u, "http")
  }

  lemma HttpUrlsCons(urls: seq<string>)
    requires |urls| > 0
    ensures HttpUrls(urls) == (if StartsWith(urls[0], "http") then {urls[0]} else {}) + HttpUrls(urls[1..])
  {
    assert forall u :: u in urls <==> u == urls[0] || u in urls[1..];
  }

  lemma HttpAllCons(lists: seq<seq<string>>)
    requires |lists| > 0
    ensures HttpAll(lists) == HttpUrls(lists[0]) + HttpAll(lists[1..])
  {
    forall u ensures u in AllUrls(lists) <==> u in lists[0] || u in AllUrls(lists[1..]) {
      if u in AllUrls(lists) {
        var i :| 0 <= i < |lists| && u in lists[i];
        if i > 0 {
          assert u in lists[1..][i - 1];
        }
      }
      if u in AllUrls(lists[1..]) {
        var i :| 0 <= i < |lists[1..]| && u in lists[1..][i];
        assert u in lists[i + 1];
      }
    }
  }

  /** A scan over one article's URLs that neither raises nor ends at the
      cap marks every "http" URL of the article used, and takes as a
      candidate every one of them that was fresh and got a non-empty
      description; each candidate's description is the one returned for
      it. */
  lemma {:induction false} ScanUrlsComplete(urls: seq<string>, cands: seq<Candidate>, used: set<string>, describe: string -> Call<string>)
    requires CandidatesOk(cands, used) && DescribedBy(cands, describe)
    ensures var s := ScanUrls(urls, cands, used, describe);
      && DescribedBy(s.cands, describe)
      && (!s.raised && |s.cands| < CandidateLimit ==>
            && s.used == used + HttpUrls(urls)
            && forall u :: u in HttpUrls(urls) && u !in used && HasDescription(u, describe) ==> u in CandidateUrls(s.cands))
    decreases |urls|
  {
    if |urls| > 0 {
      var u := urls[0];
      HttpUrlsCons(urls);
      if !StartsWith(u, "http") || u in used {
        ScanUrlsComplete(urls[1..], cands, used, describe);
      } else if |cands| < CandidateLimit && describe(u).Returned? {
        var d := describe(u).value;
        var c := if d != "" then cands + [Candidate(u, d)] else cands;
        if d != "" {
          AddCandidate(cands, used, u, d);
        }
        ScanUrlsComplete(urls[1..], c, used + {u}, describe);
        ScanUrlsSpec(urls[1..], c, used + {u}, describe);
        var s := ScanUrls(urls[1..], c, used + {u}, describe);
        if d != "" {
          assert s.cands[|cands|] == s.cands[..|c|][|cands|] == Candidate(u, d);
        }
      }
    } else {
      assert HttpUrls(urls) == {};
    }
  }

  /** The same over all the cluster's articles: when the scan neither
      raises nor fills the cap, every "http" URL of the cluster is used
      afterwards, and every fresh one with a non-empty description is a
      candidate. */
  lemma {:induction false} ScanListsComplete(lists: seq<seq<string>>, cands: seq<Candidate>, used: set<string>, describe: string -> Call<string>)
    requires CandidatesOk(cands, used) && DescribedBy(cands, describe)
    ensures var s := ScanLists(lists, cands, used, describe);
      && DescribedBy(s.cands, describe)
      && (!s.raised && |s.cands| < CandidateLimit ==>
            && s.used == used + HttpAll(lists)
            && forall u :: u in HttpAll(lists) && u !in used && HasDescription(u, describe) ==> u in CandidateUrls(s.cands))
    decreases |lists|
  {
    if |lists| > 0 {
      HttpAllCons(lists);
      ScanUrlsSpec(lists[0], cands, used, describe);
      ScanUrlsComplete(lists[0], cands, used, describe);
      var s1 := ScanUrls(lists[0], cands, used, describe);
      if !s1.raised {
        ScanListsSpec(lists[1..], s1.cands, s1.used, describe);
        ScanListsComplete(lists[1..], s1.cands, s1.used, describe);
        var s := ScanLists(lists[1..], s1.cands, s1.used, describe);
        if !s.raised && |s.cands| < CandidateLimit {
          forall u | u in HttpAll(lists) && u !in used && HasDescription(u, describe)
            ensures u in CandidateUrls(s.cands)
          {
            if u in HttpUrls(lists[0]) {
              var i :| 0 <= i < |s1.cands| && s1.cands[i].url == u;
              assert s.cands[i] == s.cands[..|s1.cands|][i];
            }
          }
        }
      }
    } else {
      assert HttpAll(lists) == {};
    }
  }

  /** The first "http" URL of a list that is not in `used`, if any. */
  ghost function FirstFresh(urls: seq<string>, used: set<string>): (r: set<string>)
    ensures |r| <= 1
  {
    if |urls| == 0 then {}
    else if StartsWith(urls[0], "http") && urls[0] !in used then {urls[0]}
    else FirstFresh(urls[1..], used)
  }

  /** Once the cap is reached, scanning an article adds no candidate, asks
      for no description, and marks just the article's first fresh "http"
      URL used. */
  lemma {:induction false} ScanPastCap(urls: seq<string>, cands: seq<Candidate>, used: set<string>, describe: string -> Call<string>)
    requires |cands| >= CandidateLimit
    ensures ScanUrls(urls, cands, used, describe) == Scan(cands, used + FirstFresh(urls, used), false)
    decreases |urls|
  {
    if |urls| > 0 && !(StartsWith(urls[0], "http") && urls[0] !in used) {
      ScanPastCap(urls[1..], cands, used, describe);
    }
  }

  /** A fresh "http" URL with a non-empty description becomes a candidate. */
  lemma DescribedStep(u: string, rest: seq<string>, cands: seq<Candidate>, used: set<string>, describe: string -> Call<string>, d: string)
    requires StartsWith(u, "http") && u !in used && |cands| < CandidateLimit
    requires describe(u) == Returned(d) && d != ""
    ensures ScanUrls([u] + rest, cands, used, describe) == ScanUrls(rest, cands + [Candidate(u, d)], used + {u}, describe)
  {
    assert ([u] + rest)[0] == u && ([u] + rest)[1..] == rest;
  }

  /** URLs that are all "http", distinct and described with a non-empty text. */
  ghost predicate FreshDescribed(urls: seq<string>, describe: string -> Call<string>) {
    && (forall i :: 0 <= i < |urls| ==>
          StartsWith(urls[i], "http") && describe(urls[i]).Returned? && describe(urls[i]).value != "")
    && (forall i, j :: 0 <= i < j < |urls| ==> urls[i] != urls[j])
  }

  /** The candidates the first `n` of such URLs become. */
  ghost function DescribedPrefix(urls: seq<string>, describe: string -> Call<string>, n: nat): (r: seq<Candidate>)
    requires n <= |urls| && FreshDescribed(urls, describe)
    ensures |r| == n && forall i :: 0 <= i < n ==> r[i].url == urls[i]
  {
    if n == 0 then []
    else DescribedPrefix(urls, describe, n - 1) + [Candidate(urls[n - 1], describe(urls[n - 1]).value)]
  }

  /** The first `n` URLs, as a set. */
  ghost function UsedPrefix(urls: seq<string>, n: nat): set<string>
    requires n <= |urls|
  {
    set u | u in urls[..n]
  }

  /** Up to the cap, the scan over fresh described URLs takes each of them
      as a candidate and marks it used. */
  lemma {:induction false} ScanFreshPrefix(urls: seq<string>, describe: string -> Call<string>, n: nat)
    requires n <= |urls| && n <= CandidateLimit && FreshDescribed(urls, describe)
    ensures ScanUrls(urls, [], {}, describe)
         == ScanUrls(urls[n..], DescribedPrefix(urls, describe, n), UsedPrefix(urls, n), describe)
  {
    if n > 0 {
      ScanFreshPrefix(urls, describe, n - 1);
      ScanFreshStep(urls, describe, n - 1);
    } else {
      assert urls[0..] == urls && urls[..0] == [];
      assert UsedPrefix(urls, 0) == {};
    }
  }

  /** One fresh described URL below the cap moves from the input to the
      candidates and the used set. */
  lemma ScanFreshStep(urls: seq<string>, describe: string -> Call<string>, m: nat)
    requires m < |urls| && m < CandidateLimit && FreshDescribed(urls, describe)
    ensures ScanUrls(urls[m..], DescribedPrefix(urls, describe, m), UsedPrefix(urls, m), describe)
         == ScanUrls(urls[m + 1..], DescribedPrefix(urls, describe, m + 1), UsedPrefix(urls, m + 1), describe)
  {
    var used := UsedPrefix(urls, m);
    assert urls[m..] == [urls[m]] + urls[m + 1..];
    assert urls[m] !in used;
    DescribedStep(urls[m], urls[m + 1..], DescribedPrefix(urls, describe, m), used, describe, describe(urls[m]).value);
    assert urls[..m + 1] == urls[..m] + [urls[m]];
    assert used + {urls[m]} == UsedPrefix(urls, m + 1);
  }

  /** The used set can gain a URL that never becomes a candidate: of six
      fresh URLs that all get a description, the sixth is recorded as used
      although the cap leaves it out. */
  lemma UsedGainsUrlPastTheCap(urls: seq<string>, describe: string -> Call<string>)
    requires |urls| == 6 && FreshDescribed(urls, describe)
    ensures var s := ScanLists([urls], [], {}, describe);
      |s.cands| == 5 && urls[5] in s.used && forall i :: 0 <= i < |s.cands| ==> s.cands[i].url != urls[5]
  {
    ScanFreshPrefix(urls, describe, 5);
    var cands := DescribedPrefix(urls, describe, 5);
    var used := UsedPrefix(urls, 5);
    assert urls[5..] == [urls[5]];
    assert urls[5] !in used;
    assert ScanUrls([urls[5]], cands, used, describe) == Scan(cands, used + {urls[5]}, false);
    assert [urls][1..] == [];
  }

  /** The used set once the cap is reached: each later article in turn
      adds its first "http" URL that is not yet used. */
  ghost function UsedPastCap(lists: seq<seq<string>>, used: set<string>): (r: set<string>)
    decreases |lists|
  {
    if |lists| == 0 then used else UsedPastCap(lists[1..], used + FirstFresh(lists[0], used))
  }

  /** Once the cluster has five candidates, the scan over the remaining
      articles raises nothing, adds no candidate, and still marks the
      first fresh "http" URL of every article used. */
  lemma {:induction false} ScanListsPastCap(lists: seq<seq<string>>, cands: seq<Candidate>, used: set<string>, describe: string -> Call<string>)
    requires |cands| >= CandidateLimit
    ensures ScanLists(lists, cands, used, describe) == Scan(cands, UsedPastCap(lists, used), false)
    decreases |lists|
  {
    if |lists| > 0 {
      ScanPastCap(lists[0], cands, used, describe);
      ScanListsPastCap(lists[1..], cands, used + FirstFresh(lists[0], used), describe);
    }
  }

  /** A fresh "http" URL whose description comes back empty is consumed
      all the same: when the scan neither raises nor fills the cap, it is
      in the used set afterwards but is no candidate. */
  lemma EmptyDescriptionUsed(lists: seq<seq<string>>, used: set<string>, describe: string -> Call<string>, u: string)
    requires u in HttpAll(lists) && u !in used && describe(u) == Returned("")
    ensures var s := ScanLists(lists, [], used, describe);
      !s.raised && |s.cands| < CandidateLimit ==> u in s.used && u !in CandidateUrls(s.cands)
  {
    CandidateRules(lists, used, describe);
  }

  // ---------------------------------------------------------------------
  // The header image

  /** The header candidates loop: the first candidate whose URL is not in
      the report and whose upload returns a URL that is not in the report
      either. An upload that raises here escapes. */
  function HeaderFrom(cands: seq<Candidate>, report: string, upload: string -> Call<string>): Call<string>
    decreases |cands|
  {
    if |cands| == 0 then Returned("")
    else
      var u := cands[0].url;
      if Contains(report, u) then HeaderFrom(cands[1..], report, upload)
      else match upload(u)
        case Raised => Raised
        case Returned(v) => if Contains(report, v) then HeaderFrom(cands[1..], report, upload) else Returned(v)
  }

  /** A candidate the header loop passes over. */
  ghost predicate PassedOver(c: Candidate, report: string, upload: string -> Call<string>) {
    Contains(report, c.url) || (upload(c.url).Returned? && Contains(report, upload(c.url).value))
  }

  /** The header is the first candidate not passed over, uploaded; the
      loop yields "" when every candidate is passed over, and raises when
      the first candidate not already in the report fails to upload. */
  lemma {:induction false} HeaderFromSpec(cands: seq<Candidate>, report: string, upload: string -> Call<string>)
    ensures var h := HeaderFrom(cands, report, upload);
      h.Returned? && h.value != "" ==>
        exists i :: 0 <= i < |cands|
          && (forall j :: 0 <= j < i ==> PassedOver(cands[j], report, upload))
          && !Contains(report, cands[i].url) && upload(cands[i].url) == h && !Contains(report, h.value)
    ensures HeaderFrom(cands, report, upload) == Returned("") ==>
      forall j :: 0 <= j < |cands| ==> PassedOver(cands[j], report, upload)
    ensures HeaderFrom(cands, report, upload).Raised? ==>
      exists i :: 0 <= i < |cands|
        && (forall j :: 0 <= j < i ==> PassedOver(cands[j], report, upload))
        && !Contains(report, cands[i].url) && upload(cands[i].url).Raised?
    decreases |cands|
  {
    if |cands| > 0 {
      HeaderFromSpec(cands[1..], report, upload);
      var h := HeaderFrom(cands, report, upload);
      if PassedOver(cands[0], report, upload) {
        assert h == HeaderFrom(cands[1..], report, upload);
        if h.Returned? && h.value != "" {
          var i :| 0 <= i < |cands[1..]|
            && (forall j :: 0 <= j < i ==> PassedOver(cands[1..][j], report, upload))
            && !Contains(report, cands[1..][i].url) && upload(cands[1..][i].url) == h && !Contains(report, h.value);
          assert forall j :: 0 <= j < i + 1 ==> PassedOver(cands[j], report, upload) by {
            forall j | 0 < j < i + 1 ensures PassedOver(cands[j], report, upload) {
              assert cands[j] == cands[1..][j - 1];
            }
          }
        }
        if h.Raised? {
          var i :| 0 <= i < |cands[1..]|
            && (forall j :: 0 <= j < i ==> PassedOver(cands[1..][j], report, upload))
            && !Contains(report, cands[1..][i].url) && upload(cands[1..][i].url).Raised?;
          assert forall j :: 0 <= j < i + 1 ==> PassedOver(cands[j], report, upload) by {
            forall j | 0 < j < i + 1 ensures PassedOver(cands[j], report, upload) {
              assert cands[j] == cands[1..][j - 1];
            }
          }
        }
        if h == Returned("") {
          forall j | 0 < j < |cands| ensures PassedOver(cands[j], report, upload) {
            assert cands[j] == cands[1..][j - 1];
          }
        }
      }
    }
  }

  /** The header from a generated illustration: the prompt names the topic
      and the first article's title; a missing first article, a generation
      or an upload that raises gives the placeholder. */
  function GeneratedHeader(topic: string, data: seq<ArticleData>, svc: Services): string {
    if |data| == 0 then Placeholder
    else match svc.generateImage("Abstract tech illustration for " + topic + ": " + data[0].title)
      case Raised => Placeholder
      case Returned(g) =>
        match svc.uploadArticleImage(g)
        case Raised => Placeholder
        case Returned(h) => h
  }

  // ---------------------------------------------------------------------
  // synthesize_topic

  /** What `synthesize_topic` hands the language model for an article. */
  function DataOf(a: Article): ArticleData
    reads a
  {
    ArticleData(a.title, a.sourceName, a.content)
  }

  function DataList(arts: seq<Article>): (ds: seq<ArticleData>)
    reads set a | a in arts
    ensures |ds| == |arts| && forall i :: 0 <= i < |arts| ==> ds[i] == DataOf(arts[i])
  {
    if |arts| == 0 then [] else [DataOf(arts[0])] + DataList(arts[1..])
  }

  /** The image URLs of each article's content. */
  function ImageLists(data: seq<ArticleData>): (ls: seq<seq<string>>)
    ensures |ls| == |data| && forall i :: 0 <= i < |data| ==> ls[i] == ExtractImageUrls(data[i].content)
  {
    if |data| == 0 then [] else [ExtractImageUrls(data[0].content)] + ImageLists(data[1..])
  }

  /** A cluster's report, with its embedded images rewritten, and its
      header image. */
  datatype TopicReport = TopicReport(report: string, header: string)

  /** `synthesize_topic` for a cluster whose articles give `data`: its
      outcome and the used set afterwards, which keeps what the scan added
      even when a later step raises. */
  function Synthesized(topic: Json, data: seq<ArticleData>, svc: Services, used: set<string>): (Call<TopicReport>, set<string>)
    requires Hashable(topic)
  {
    var s := ScanLists(ImageLists(data), [], used, svc.describeImage);
    if s.raised then (Raised, s.used)
    else match svc.synthesizeReport(data, topic, s.cands)
      case Raised => (Raised, s.used)
      case Returned(md) =>
        var report := RewriteImages(md, svc.uploadArticleImage);
        match HeaderFrom(s.cands, report, svc.uploadArticleImage)
        case Raised => (Raised, s.used)
        case Returned(h) =>
          (Returned(TopicReport(report, if h != "" then h else GeneratedHeader(Display(topic), data, svc))), s.used)
  }

  /** The inner candidate loop of `synthesize_topic`, over one article's
      image URLs. */
  method ScanArticleImages(imgs: seq<string>, cands0: seq<Candidate>, used: UsedImages, describe: string -> Call<string>)
    returns (cands: seq<Candidate>, raised: bool)
    modifies used
    ensures Scan(cands, used.urls, raised) == ScanUrls(imgs, cands0, old(used.urls), describe)
  {
    cands := cands0;
    var j := 0;
    while j < |imgs|
      invariant 0 <= j <= |imgs|
      invariant ScanUrls(imgs, cands0, old(used.urls), describe) == ScanUrls(imgs[j..], cands, used.urls, describe)
    {
      var u := imgs[j];
      if !StartsWith(u, "http") || u in used.urls {
        j := j + 1;
        continue;
      }
      used.urls := used.urls + {u};
      if |cands| >= CandidateLimit {
        break;
      }
      var desc := describe(u);
      if desc.Raised? {
        return cands, true;
      }
      if desc.value != "" {
        cands := cands + [Candidate(u, desc.value)];
      }
      j := j + 1;
    }
    return cands, false;
  }

  /** The header candidates loop of `synthesize_topic`. The upload is a
      function of its URL, so the second upload of the same URL in the
      source returns what the first did. */
  method ChooseHeader(cands: seq<Candidate>, report: string, upload: string -> Call<string>) returns (r: Call<string>)
    ensures r == HeaderFrom(cands, report, upload)
  {
    var i := 0;
    while i < |cands|
      invariant 0 <= i <= |cands|
      invariant HeaderFrom(cands, report, upload) == HeaderFrom(cands[i..], report, upload)
    {
      var u := cands[i].url;
      if Contains(report, u) {
        i := i + 1;
        continue;
      }
      var v := upload(u);
      if v.Raised? {
        return Raised;
      }
      if Contains(report, v.value) {
        i := i + 1;
        continue;
      }
      return v;
    }
    return Returned("");
  }

  /** The header fallback of `synthesize_topic`. */
  method GenerateHeader(topic: string, arts: seq<Article>, svc: Services) returns (header: string)
    ensures header == GeneratedHeader(topic, DataList(arts), svc)
  {
    if |arts| == 0 {
      return Placeholder;
    }
    var g := svc.generateImage("Abstract tech illustration for " + topic + ": " + arts[0].title);
    if g.Raised? {
      return Placeholder;
    }
    var h := svc.uploadArticleImage(g.value);
    header := if h.Raised? then Placeholder else h.value;
  }

  /** One more article's URLs in the scan. */
  lemma ScanListsStep(lists: seq<seq<string>>, k: nat, cands: seq<Candidate>, used: set<string>, describe: string -> Call<string>)
    requires k < |lists|
    ensures ScanLists(lists[k..], cands, used, describe)
      == var s := ScanUrls(lists[k], cands, used, describe);
         if s.raised then s else ScanLists(lists[k + 1..], s.cands, s.used, describe)
  {
    assert lists[k..][0] == lists[k] && lists[k..][1..] == lists[k + 1..];
  }

  /** The candidate loop of `synthesize_topic`, which also gathers what
      the language model is given. */
  method ScanCandidates(arts: seq<Article>, used: UsedImages, describe: string -> Call<string>)
    returns (data: seq<ArticleData>, cands: seq<Candidate>, raised: bool)
    modifies used
    ensures !raised ==> data == old(DataList(arts))
    ensures Scan(cands, used.urls, raised) == ScanLists(ImageLists(old(DataList(arts))), [], old(used.urls), describe)
  {
    ghost var ds := DataList(arts);
    ghost var lists := ImageLists(ds);
    ghost var total := ScanLists(lists, [], used.urls, describe);
    data, cands := [], [];
    var k := 0;
    while k < |arts|
      invariant 0 <= k <= |arts|
      invariant data == ds[..k]
      invariant total == ScanLists(lists[k..], cands, used.urls, describe)
    {
      var item := ArticleData(arts[k].title, arts[k].sourceName, arts[k].content);
      assert item == ds[k];
      assert ds[..k + 1] == ds[..k] + [item];
      data := data + [item];
      var imgs := ExtractImageUrls(arts[k].content);
      ScanListsStep(lists, k, cands, used.urls, describe);
      cands, raised := ScanArticleImages(imgs, cands, used, describe);
      if raised {
        return;
      }
      k := k + 1;
    }
    assert ds[..|arts|] == ds;
    return data, cands, false;
  }

  /** `synthesize_topic`. */
  method SynthesizeTopic(topic: Json, arts: seq<Article>, svc: Services, used: UsedImages) returns (r: Call<TopicReport>)
    requires Hashable(topic)
    modifies used
    ensures r == Synthesized(topic, old(DataList(arts)), svc, old(used.urls)).0
    ensures used.urls == Synthesized(topic, old(DataList(arts)), svc, old(used.urls)).1
  {
    var data, cands, raised := ScanCandidates(arts, used, svc.describeImage);
    if raised {
      return Raised;
    }
    var md := svc.synthesizeReport(data, topic, cands);
    if md.Raised? {
      return Raised;
    }
    var report := RewriteImages(md.value, svc.uploadArticleImage);
    var header := ChooseHeader(cands, report, svc.uploadArticleImage);
    if header.Raised? {
      return Raised;
    }
    var h := header.value;
    if h == "" {
      h := GenerateHeader(Display(topic), arts, svc);
    }
    return Returned(TopicReport(report, h));
  }

  /** A cluster that completes has a non-empty header, unless the upload
      of the generated illustration returned an empty URL; a header taken
      from a candidate never duplicates an image of the report. */
  lemma HeaderRules(topic: Json, data: seq<ArticleData>, svc: Services, used: set<string>)
    requires Hashable(topic)
    ensures var (r, _) := Synthesized(topic, data, svc, used);
      r.Returned? ==>
        r.value.header != "" ||
        (|data| > 0 && svc.generateImage("Abstract tech illustration for " + Display(topic) + ": " + data[0].title).Returned?
          && svc.uploadArticleImage(svc.generateImage("Abstract tech illustration for " + Display(topic) + ": " + data[0].title).value) == Returned(""))
    ensures var s := ScanLists(ImageLists(data), [], used, svc.describeImage);
      var (r, _) := Synthesized(topic, data, svc, used);
      r.Returned? && HeaderFrom(s.cands, r.value.report, svc.uploadArticleImage) != Returned("") ==>
        !Contains(r.value.report, r.value.header)
  {
    var s := ScanLists(ImageLists(data), [], used, svc.describeImage);
    if !s.raised && svc.synthesizeReport(data, topic, s.cands).Returned? {
      HeaderFromSpec(s.cands, RewriteImages(svc.synthesizeReport(data, topic, s.cands).value, svc.uploadArticleImage), svc.uploadArticleImage);
    }
  }

  /** The used set only grows; clusters synthesised one after another never
      share a candidate, since a second cluster's candidates are all new to
      the set the first cluster left. */
  lemma CandidatesDisjoint(t1: Json, d1: seq<ArticleData>, t2: Json, d2: seq<ArticleData>, svc: Services, used: set<string>)
    requires Hashable(t1) && Hashable(t2)
    ensures used <= Synthesized(t1, d1, svc, used).1
    ensures var s1 := ScanLists(ImageLists(d1), [], used, svc.describeImage);
      var s2 := ScanLists(ImageLists(d2), [], s1.used, svc.describeImage);
      forall i, j :: 0 <= i < |s1.cands| && 0 <= j < |s2.cands| ==> s1.cands[i].url != s2.cands[j].url
  {
    var s1 := ScanLists(ImageLists(d1), [], used, svc.describeImage);
    CandidateRules(ImageLists(d1), used, svc.describeImage);
    CandidateRules(ImageLists(d2), s1.used, svc.describeImage);
  }

  // ---------------------------------------------------------------------
  // The synthesis loop of main

  /** A synthesised section: topic, report, header and the cluster's
      articles, kept for the source links. */
  datatype Segment = Segment(topic: Json, report: string, header: string, arts: seq<Article>)

  /** One cluster's synthesis: its outcome and the used set afterwards,
      from its topic, what its articles give and the used set before. */
  type Synthesizer = (Json, seq<ArticleData>, set<string>) -> (Call<TopicReport>, set<string>)

  /** `synthesize_topic` with the run's services. Cluster topics are dict
      keys and so always hashable; no other topic reaches it. */
  function TopicSynthesis(svc: Services): Synthesizer {
    (t: Json, d: seq<ArticleData>, u: set<string>) => if Hashable(t) then Synthesized(t, d, svc, u) else (Raised, u)
  }

  /** The synthesis loop over the clusters in order: a cluster whose
      synthesis raises is left out; every cluster sees the used set the
      previous ones left. */
  function SynthesizeFrom(topics: seq<Json>, groups: seq<seq<Article>>, data: seq<seq<ArticleData>>, synth: Synthesizer, used: set<string>): (seq<Segment>, set<string>)
    requires |groups| == |topics| && |data| == |topics|
    decreases |topics|
  {
    if |topics| == 0 then ([], used)
    else
      var (r, used') := synth(topics[0], data[0], used);
      var (segs, used'') := SynthesizeFrom(topics[1..], groups[1..], data[1..], synth, used');
      (if r.Returned? then [Segment(topics[0], r.value.report, r.value.header, groups[0])] + segs else segs, used'')
  }

  /** The inputs `synthesize_topic` reads from each cluster. */
  function GroupData(groups: seq<seq<Article>>): (ds: seq<seq<ArticleData>>)
    reads set i, a | 0 <= i < |groups| && a in groups[i] :: a
    ensures |ds| == |groups| && forall i :: 0 <= i < |groups| ==> ds[i] == DataList(groups[i])
  {
    if |groups| == 0 then []
    else
      assert forall i, a :: 0 <= i < |groups[1..]| && a in groups[1..][i] ==> a in groups[i + 1];
      [DataList(groups[0])] + GroupData(groups[1..])
  }

  /** One more cluster in the synthesis loop. */
  lemma SynthesizeFromStep(topics: seq<Json>, groups: seq<seq<Article>>, data: seq<seq<ArticleData>>, synth: Synthesizer, used: set<string>, i: nat)
    requires |groups| == |topics| && |data| == |topics| && i < |topics|
    ensures var r := synth(topics[i], data[i], used);
      var rest := SynthesizeFrom(topics[i + 1..], groups[i + 1..], data[i + 1..], synth, r.1);
      && SynthesizeFrom(topics[i..], groups[i..], data[i..], synth, used).0
        == (if r.0.Returned? then [Segment(topics[i], r.0.value.report, r.0.value.header, groups[i])] + rest.0 else rest.0)
      && SynthesizeFrom(topics[i..], groups[i..], data[i..], synth, used).1 == rest.1
  {
    assert topics[i..][1..] == topics[i + 1..] && groups[i..][1..] == groups[i + 1..] && data[i..][1..] == data[i + 1..];
  }

  /** What `synthesize_topic` reads from unchanged articles is unchanged. */
  twostate lemma DataListFramed(arts: seq<Article>)
    requires forall a :: a in arts ==> unchanged(a)
    ensures DataList(arts) == old(DataList(arts))
  {
  }

  /** `header_maps`: each section's header under its topic, a later
      section's overriding an earlier one's. */
  function HeaderMap(segs: seq<Segment>): map<Json, string>
  {
    if |segs| == 0 then map[]
    else HeaderMap(segs[..|segs| - 1])[segs[|segs| - 1].topic := segs[|segs| - 1].header]
  }

  lemma HeaderMapSnoc(segs: seq<Segment>, seg: Segment)
    ensures HeaderMap(segs + [seg]) == HeaderMap(segs)[seg.topic := seg.header]
  {
    assert (segs + [seg])[..|segs|] == segs;
  }

  /** One pass keeps the synthesis loop's accumulators in step with the
      whole loop's outcome. */
  lemma SynthesisLoopStep(topics: seq<Json>, groups: seq<seq<Article>>, data: seq<seq<ArticleData>>, synth: Synthesizer,
                          i: nat, segs0: seq<Segment>, u0: set<string>, segs1: seq<Segment>, u1: set<string>)
    requires |groups| == |topics| && |data| == |topics| && i < |topics|
    requires SynthesizeFrom(topics, groups, data, synth, {}).0 == segs0 + SynthesizeFrom(topics[i..], groups[i..], data[i..], synth, u0).0
    requires SynthesizeFrom(topics, groups, data, synth, {}).1 == SynthesizeFrom(topics[i..], groups[i..], data[i..], synth, u0).1
    requires var r := synth(topics[i], data[i], u0);
      segs1 == (if r.0.Returned? then segs0 + [Segment(topics[i], r.0.value.report, r.0.value.header, groups[i])] else segs0)
    requires u1 == synth(topics[i], data[i], u0).1
    ensures SynthesizeFrom(topics, groups, data, synth, {}).0 == segs1 + SynthesizeFrom(topics[i + 1..], groups[i + 1..], data[i + 1..], synth, u1).0
    ensures SynthesizeFrom(topics, groups, data, synth, {}).1 == SynthesizeFrom(topics[i + 1..], groups[i + 1..], data[i + 1..], synth, u1).1
  {
    SynthesizeFromStep(topics, groups, data, synth, u0, i);
    var r := synth(topics[i], data[i], u0);
    var rest := SynthesizeFrom(topics[i + 1..], groups[i + 1..], data[i + 1..], synth, u1);
    if r.0.Returned? {
      var seg := Segment(topics[i], r.0.value.report, r.0.value.header, groups[i]);
      assert segs0 + ([seg] + rest.0) == segs1 + rest.0;
    }
  }

  /** One pass of the synthesis loop: `synthesize_topic` on one cluster,
      and on success its section and its header recorded. */
  method SynthesizeNext(topic: Json, group: seq<Article>, svc: Services, used: UsedImages, segments: seq<Segment>, headers: map<Json, string>)
    returns (segments': seq<Segment>, headers': map<Json, string>)
    requires Hashable(topic)
    requires headers == HeaderMap(segments)
    modifies used
    ensures var r := TopicSynthesis(svc)(topic, old(DataList(group)), old(used.urls));
      && segments' == (if r.0.Returned? then segments + [Segment(topic, r.0.value.report, r.0.value.header, group)] else segments)
      && used.urls == r.1
    ensures headers' == HeaderMap(segments')
  {
    var r := SynthesizeTopic(topic, group, svc, used);
    segments', headers' := segments, headers;
    if r.Returned? {
      var seg := Segment(topic, r.value.report, r.value.header, group);
      HeaderMapSnoc(segments, seg);
      segments' := segments + [seg];
      headers' := headers[topic := r.value.header];
    }
  }

  /** The synthesis loop of `main`, over the clusters' topics and their
      articles in cluster order, with a fresh used set. */
  method SynthesizeAll(topics: seq<Json>, groups: seq<seq<Article>>, svc: Services) returns (segments: seq<Segment>, headers: map<Json, string>, used: UsedImages)
    requires |groups| == |topics|
    requires forall i :: 0 <= i < |topics| ==> Hashable(topics[i])
    ensures fresh(used)
    ensures headers == HeaderMap(segments)
    ensures segments == SynthesizeFrom(topics, groups, old(GroupData(groups)), TopicSynthesis(svc), {}).0
    ensures used.urls == SynthesizeFrom(topics, groups, old(GroupData(groups)), TopicSynthesis(svc), {}).1
  {
    ghost var data := GroupData(groups);
    ghost var synth := TopicSynthesis(svc);
    used := new UsedImages();
    segments := [];
    headers := map[];
    var i := 0;
    assert topics[0..] == topics && groups[0..] == groups && data[0..] == data;
    while i < |topics|
      invariant 0 <= i <= |topics|
      invariant fresh(used)
      invariant headers == HeaderMap(segments)
      invariant SynthesizeFrom(topics, groups, data, synth, {}).0
        == segments + SynthesizeFrom(topics[i..], groups[i..], data[i..], synth, used.urls).0
      invariant SynthesizeFrom(topics, groups, data, synth, {}).1
        == SynthesizeFrom(topics[i..], groups[i..], data[i..], synth, used.urls).1
    {
      DataListFramed(groups[i]);
      assert data[i] == DataList(groups[i]);
      ghost var segs0, u0 := segments, used.urls;
      segments, headers := SynthesizeNext(topics[i], groups[i], svc, used, segments, headers);
      SynthesisLoopStep(topics, groups, data, synth, i, segs0, u0, segments, used.urls);
      i := i + 1;
    }
    assert SynthesizeFrom(topics[i..], groups[i..], data[i..], synth, used.urls) == ([], used.urls);
  }

  /** The topics of the sections. */
  function Topics(segs: seq<Segment>): (ts: seq<Json>)
    ensures |ts| == |segs| && forall k :: 0 <= k < |segs| ==> ts[k] == segs[k].topic
  {
    if |segs| == 0 then [] else [segs[0].topic] + Topics(segs[1..])
  }

  /** One step of the synthesis loop, with the first topic's outcome and
      the sections of the remaining topics named. */
  lemma SynthesizeFromUnfold(topics: seq<Json>, groups: seq<seq<Article>>, data: seq<seq<ArticleData>>, synth: Synthesizer, used: set<string>,
                             r: Call<TopicReport>, u1: set<string>, tail: seq<Segment>)
    requires |groups| == |topics| && |data| == |topics| && |topics| > 0
    requires synth(topics[0], data[0], used) == (r, u1)
    requires tail == SynthesizeFrom(topics[1..], groups[1..], data[1..], synth, u1).0
    ensures SynthesizeFrom(topics, groups, data, synth, used).0
      == if r.Returned? then [Segment(topics[0], r.value.report, r.value.header, groups[0])] + tail else tail
  {
  }

  /** The sections' topics keep cluster order. */
  lemma {:induction false} SegmentTopicsInOrder(topics: seq<Json>, groups: seq<seq<Article>>, data: seq<seq<ArticleData>>, synth: Synthesizer, used: set<string>)
    requires |groups| == |topics| && |data| == |topics|
    ensures Subsequence(Topics(SynthesizeFrom(topics, groups, data, synth, used).0), topics)
    decreases |topics|
  {
    if |topics| > 0 {
      var (r, u1) := synth(topics[0], data[0], used);
      var tail := SynthesizeFrom(topics[1..], groups[1..], data[1..], synth, u1).0;
      SynthesizeFromUnfold(topics, groups, data, synth, used, r, u1, tail);
      SegmentTopicsInOrder(topics[1..], groups[1..], data[1..], synth, u1);
      SubsequenceOfTail(Topics(tail), topics[0], topics[1..]);
      assert [topics[0]] + topics[1..] == topics;
      if r.Returned? {
        var seg := Segment(topics[0], r.value.report, r.value.header, groups[0]);
        assert Topics([seg] + tail) == [topics[0]] + Topics(tail);
        assert ([topics[0]] + Topics(tail))[1..] == Topics(tail);
      }
    }
  }

  /** Each section carries the articles of the cluster it was made from. */
  lemma {:induction false} SegmentsOwnArticles(topics: seq<Json>, groups: seq<seq<Article>>, data: seq<seq<ArticleData>>, synth: Synthesizer, used: set<string>)
    requires |groups| == |topics| && |data| == |topics|
    ensures var segs := SynthesizeFrom(topics, groups, data, synth, used).0;
      forall k :: 0 <= k < |segs| ==> exists i :: 0 <= i < |topics| && topics[i] == segs[k].topic && groups[i] == segs[k].arts
    decreases |topics|
  {
    if |topics| > 0 {
      var (r, u1) := synth(topics[0], data[0], used);
      var tail := SynthesizeFrom(topics[1..], groups[1..], data[1..], synth, u1).0;
      SynthesizeFromUnfold(topics, groups, data, synth, used, r, u1, tail);
      SegmentsOwnArticles(topics[1..], groups[1..], data[1..], synth, u1);
      forall k | 0 <= k < |tail| ensures exists i :: 0 <= i < |topics| && topics[i] == tail[k].topic && groups[i] == tail[k].arts {
        var i :| 0 <= i < |topics[1..]| && topics[1..][i] == tail[k].topic && groups[1..][i] == tail[k].arts;
        assert topics[i + 1] == tail[k].topic && groups[i + 1] == tail[k].arts;
      }
      if r.Returned? {
        var seg := Segment(topics[0], r.value.report, r.value.header, groups[0]);
        forall k | 0 < k < |tail| + 1 ensures ([seg] + tail)[k] == tail[k - 1] {}
      }
    }
  }

  /** Sections follow cluster order, each with its own cluster's
      articles. */
  lemma SegmentsFollowOrder(topics: seq<Json>, groups: seq<seq<Article>>, data: seq<seq<ArticleData>>, synth: Synthesizer, used: set<string>)
    requires |groups| == |topics| && |data| == |topics|
    ensures var segs := SynthesizeFrom(topics, groups, data, synth, used).0;
      && Subsequence(Topics(segs), topics)
      && (forall k :: 0 <= k < |segs| ==> exists i :: 0 <= i < |topics| && topics[i] == segs[k].topic && groups[i] == segs[k].arts)
  {
    SegmentTopicsInOrder(topics, groups, data, synth, used);
    SegmentsOwnArticles(topics, groups, data, synth, used);
  }

  /** Over the whole loop the used set only grows. */
  lemma {:induction false} UsedOnlyGrows(topics: seq<Json>, groups: seq<seq<Article>>, data: seq<seq<ArticleData>>, svc: Services, used: set<string>)
    requires |groups| == |topics| && |data| == |topics|
    ensures used <= SynthesizeFrom(topics, groups, data, TopicSynthesis(svc), used).1
    decreases |topics|
  {
    if |topics| > 0 {
      var u1 := TopicSynthesis(svc)(topics[0], data[0], used).1;
      if Hashable(topics[0]) {
        CandidateRules(ImageLists(data[0]), used, svc.describeImage);
      }
      UsedOnlyGrows(topics[1..], groups[1..], data[1..], svc, u1);
    }
  }

  /** Distinct cluster topics give sections with distinct topics. */
  lemma {:induction false} SegmentTopicsDistinct(topics: seq<Json>, groups: seq<seq<Article>>, data: seq<seq<ArticleData>>, synth: Synthesizer, used: set<string>)
    requires |groups| == |topics| && |data| == |topics|
    requires forall i, j :: 0 <= i < j < |topics| ==> topics[i] != topics[j]
    ensures var segs := SynthesizeFrom(topics, groups, data, synth, used).0;
      forall k, l :: 0 <= k < l < |segs| ==> segs[k].topic != segs[l].topic
    decreases |topics|
  {
    if |topics| > 0 {
      var (r, u1) := synth(topics[0], data[0], used);
      SegmentTopicsDistinct(topics[1..], groups[1..], data[1..], synth, u1);
      SegmentsFollowOrder(topics[1..], groups[1..], data[1..], synth, u1);
      var segs := SynthesizeFrom(topics[1..], groups[1..], data[1..], synth, u1).0;
      forall l | 0 <= l < |segs| ensures segs[l].topic != topics[0] {
        var i :| 0 <= i < |topics[1..]| && topics[1..][i] == segs[l].topic && groups[1..][i] == segs[l].arts;
        assert topics[i + 1] == segs[l].topic;
      }
      if r.Returned? {
        var seg := Segment(topics[0], r.value.report, r.value.header, groups[0]);
        forall k | 0 < k < |segs| + 1 ensures ([seg] + segs)[k] == segs[k - 1] {}
      }
    }
  }

  /** With distinct topics, `header_maps` holds exactly the sections'
      topics, each with its own section's header. */
  lemma HeaderMapLookup(segs: seq<Segment>)
    requires forall k, l :: 0 <= k < l < |segs| ==> segs[k].topic != segs[l].topic
    ensures forall t :: t in HeaderMap(segs) <==> exists k :: 0 <= k < |segs| && segs[k].topic == t
    ensures forall k :: 0 <= k < |segs| ==> HeaderMap(segs)[segs[k].topic] == segs[k].header
  {
    HeaderMapKeys(segs);
    HeaderMapValues(segs);
  }

  /** `header_maps` holds exactly the sections' topics. */
  lemma {:induction false} HeaderMapKeys(segs: seq<Segment>)
    ensures forall t :: t in HeaderMap(segs) <==> exists k :: 0 <= k < |segs| && segs[k].topic == t
    decreases |segs|
  {
    if |segs| > 0 {
      var n := |segs| - 1;
      var init := segs[..n];
      HeaderMapKeys(init);
      assert HeaderMap(segs) == HeaderMap(init)[segs[n].topic := segs[n].header];
      forall t | t in HeaderMap(segs) ensures exists k :: 0 <= k < |segs| && segs[k].topic == t {
        if t != segs[n].topic {
          assert t in HeaderMap(init);
          var k :| 0 <= k < |init| && init[k].topic == t;
          assert segs[k].topic == t;
        }
      }
      forall t | exists k :: 0 <= k < |segs| && segs[k].topic == t ensures t in HeaderMap(segs) {
        var k :| 0 <= k < |segs| && segs[k].topic == t;
        if k < n {
          assert init[k].topic == t;
        }
      }
    }
  }

  /** With distinct topics, each section's topic maps to its own header. */
  lemma {:induction false} HeaderMapValues(segs: seq<Segment>)
    requires forall k, l :: 0 <= k < l < |segs| ==> segs[k].topic != segs[l].topic
    ensures forall k :: 0 <= k < |segs| ==> segs[k].topic in HeaderMap(segs) && HeaderMap(segs)[segs[k].topic] == segs[k].header
    decreases |segs|
  {
    if |segs| > 0 {
      var n := |segs| - 1;
      var init := segs[..n];
      HeaderMapValues(init);
      forall k | 0 <= k < n ensures segs[k].topic in HeaderMap(segs) && HeaderMap(segs)[segs[k].topic] == segs[k].header {
        assert init[k] == segs[k];
      }
    }
  }
}
