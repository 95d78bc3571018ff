/** `analyze_content`: the images of the rendered content, checked one
    by one in document order, the first failing image deciding, and every
    error raised on the way turned into approval. */
module Orchestrator {
  import opened Wrappers
  import opened Text
  import opened ModerationClient

  /** The rendered and parsed content, as far as the orchestrator looks at
      it: the `src` attribute of each `img` element in document order, or
      an error raised while rendering or parsing. */
  datatype Document = Unparsable | Fragment(imgSrcs: seq<Option<string>>)

  /** `.compact`: the present `src` values, in order. */
  function Compact(srcs: seq<Option<string>>): (urls: seq<string>)
    ensures |urls| <= |srcs|
  {
    if srcs == [] then []
    else
      var rest := Compact(srcs[1..]);
      if srcs[0].Some? then [srcs[0].value] + rest else rest
  }

  /** `.compact` keeps exactly the present `src` values. */
  lemma {:induction false} CompactKeepsPresent(srcs: seq<Option<string>>)
    ensures forall u :: u in Compact(srcs) ==> Some(u) in srcs
    ensures forall i :: 0 <= i < |srcs| && srcs[i].Some? ==> srcs[i].value in Compact(srcs)
    decreases |srcs|
  {
    if srcs != [] {
      CompactKeepsPresent(srcs[1..]);
      assert forall i :: 1 <= i < |srcs| ==> srcs[i] == srcs[1..][i - 1];
    }
  }

  /** Compacting keeps order and duplicates: it commutes with
      concatenation. */
  lemma {:induction false} CompactAppend(a: seq<Option<string>>, b: seq<Option<string>>)
    ensures Compact(a + b) == Compact(a) + Compact(b)
    decreases |a|
  {
    if a == [] {
      assert a + b == b;
    } else {
      assert (a + b)[0] == a[0] && (a + b)[1..] == a[1..] + b;
      CompactAppend(a[1..], b);
    }
  }

  /** No image is checked exactly when no `img` element has a `src`. */
  lemma {:induction false} CompactEmpty(srcs: seq<Option<string>>)
    ensures Compact(srcs) == [] <==> forall i :: 0 <= i < |srcs| ==> srcs[i].None?
    decreases |srcs|
  {
    if srcs != [] {
      CompactEmpty(srcs[1..]);
      assert forall i :: 1 <= i < |srcs| ==> srcs[i] == srcs[1..][i - 1];
    }
  }

  /** `url.start_with?("http") ? url : "#{base_url}#{url}"` */
  function ResolveUrl(url: string, baseUrl: string): (full: string)
    ensures StartsWith(url, "http") ==> full == url
    ensures !StartsWith(url, "http") ==> full == baseUrl + url
    ensures StartsWith(baseUrl, "http") ==> StartsWith(full, "http")
  {
    if StartsWith(url, "http") then url
    else
      assert (baseUrl + url)[..|baseUrl|] == baseUrl;
      baseUrl + url
  }

  /** With an `http` base, resolving twice is resolving once. */
  lemma ResolveIdempotent(url: string, baseUrl: string)
    requires StartsWith(baseUrl, "http")
    ensures ResolveUrl(ResolveUrl(url, baseUrl), baseUrl) == ResolveUrl(url, baseUrl)
  {
  }

  /** The full URL of each `src`, in order. */
  function ResolveAll(present: seq<string>, baseUrl: string): (urls: seq<string>)
    ensures |urls| == |present|
    ensures forall i :: 0 <= i < |urls| ==> urls[i] == ResolveUrl(present[i], baseUrl)
  {
    seq(|present|, i requires 0 <= i < |present| => ResolveUrl(present[i], baseUrl))
  }

  /** The URLs sent to the client, in document order. */
  function ImageUrls(srcs: seq<Option<string>>, baseUrl: string): (urls: seq<string>)
    ensures |urls| == |Compact(srcs)|
    ensures forall i :: 0 <= i < |urls| ==> urls[i] == ResolveUrl(Compact(srcs)[i], baseUrl)
  {
    ResolveAll(Compact(srcs), baseUrl)
  }

  /** Resolving commutes with concatenation. */
  lemma ResolveAllAppend(a: seq<string>, b: seq<string>, baseUrl: string)
    ensures ResolveAll(a + b, baseUrl) == ResolveAll(a, baseUrl) + ResolveAll(b, baseUrl)
  {
    var l := ResolveAll(a + b, baseUrl);
    var r := ResolveAll(a, baseUrl) + ResolveAll(b, baseUrl);
    forall i | 0 <= i < |l| ensures l[i] == r[i] {
      if i >= |a| { assert (a + b)[i] == b[i - |a|]; }
    }
  }

  /** The URLs of a document are those of its parts, in order: an `img`
      with a `src` contributes its resolved URL, one without contributes
      nothing. */
  lemma ImageUrlsAppend(a: seq<Option<string>>, b: seq<Option<string>>, baseUrl: string)
    ensures ImageUrls(a + b, baseUrl) == ImageUrls(a, baseUrl) + ImageUrls(b, baseUrl)
    ensures forall x :: ImageUrls([Some(x)], baseUrl) == [ResolveUrl(x, baseUrl)]
    ensures ImageUrls([None], baseUrl) == []
  {
    CompactAppend(a, b);
    ResolveAllAppend(Compact(a), Compact(b), baseUrl);
    forall x ensures ImageUrls([Some(x)], baseUrl) == [ResolveUrl(x, baseUrl)] {
      assert [Some(x)][1..] == [];
    }
    var none: seq<Option<string>> := [None];
    assert none[1..] == [];
  }

  /** A URL is checked exactly when it is the resolution of some present
      `src`. */
  lemma ImageUrlsMembers(srcs: seq<Option<string>>, baseUrl: string)
    ensures forall v :: v in ImageUrls(srcs, baseUrl) <==>
              exists i :: 0 <= i < |srcs| && srcs[i].Some? && v == ResolveUrl(srcs[i].value, baseUrl)
  {
    CompactKeepsPresent(srcs);
    var urls := ImageUrls(srcs, baseUrl);
    var present := Compact(srcs);
    forall v | v in urls
      ensures exists i :: 0 <= i < |srcs| && srcs[i].Some? && v == ResolveUrl(srcs[i].value, baseUrl)
    {
      var k :| 0 <= k < |urls| && urls[k] == v;
      assert present[k] in present;
      var i :| 0 <= i < |srcs| && srcs[i] == Some(present[k]);
      assert srcs[i].Some? && v == ResolveUrl(srcs[i].value, baseUrl);
    }
    forall v, i | 0 <= i < |srcs| && srcs[i].Some? && v == ResolveUrl(srcs[i].value, baseUrl)
      ensures v in urls
    {
      var k :| 0 <= k < |present| && present[k] == srcs[i].value;
      assert urls[k] == v;
    }
  }

  /** `next if response[:approved]`: only `true` lets the loop go on. */
  predicate Truthy(r: CheckResult) {
    r == Approved(true)
  }

  /** A result that rejects the content: `false` or `nil`. */
  predicate Falsy(r: CheckResult) {
    r == Approved(false) || r == Nil
  }

  /** First failure wins: the first result that is not truthy decides,
      approving only if it is a raised error; no such result approves. */
  function Aggregate(results: seq<CheckResult>): (approved: bool)
    decreases |results|
  {
    if results == [] then true
    else if Truthy(results[0]) then Aggregate(results[1..])
    else results[0].Raised?
  }

  /** How many results are looked at: up to and including the first one
      that is not truthy. */
  function Checked(results: seq<CheckResult>): (n: nat)
    ensures n <= |results| && (|results| > 0 ==> n > 0)
    ensures forall j :: 0 <= j < n - 1 ==> Truthy(results[j])
    ensures 0 < n && Truthy(results[n - 1]) ==> n == |results|
    decreases |results|
  {
    if results == [] then 0
    else if Truthy(results[0]) then 1 + Checked(results[1..])
    else 1
  }

  /** The result of each image, checked by `check`. */
  function Results(urls: seq<string>, check: string -> CheckResult): (rs: seq<CheckResult>)
    ensures |rs| == |urls|
    ensures forall i :: 0 <= i < |urls| ==> rs[i] == check(urls[i])
  {
    seq(|urls|, i requires 0 <= i < |urls| => check(urls[i]))
  }

  /** What `analyze_content` returns as its `approved` entry. */
  function Analysis(doc: Document, baseUrl: string, check: string -> CheckResult): bool {
    match doc
    case Unparsable => true
    case Fragment(srcs) => Aggregate(Results(ImageUrls(srcs, baseUrl), check))
  }

  /** The content is rejected exactly when some image's result is falsy
      and every image before it was approved. */
  lemma {:induction false} AggregateFalse(rs: seq<CheckResult>)
    ensures !Aggregate(rs) <==>
              exists k :: 0 <= k < |rs| && Falsy(rs[k]) && forall j :: 0 <= j < k ==> Truthy(rs[j])
    decreases |rs|
  {
    if rs != [] {
      AggregateFalse(rs[1..]);
      if Truthy(rs[0]) {
        if !Aggregate(rs) {
          var k :| 0 <= k < |rs[1..]| && Falsy(rs[1..][k]) && forall j :: 0 <= j < k ==> Truthy(rs[1..][j]);
          assert forall j :: 0 <= j < k + 1 ==> Truthy(rs[j]) by {
            forall j | 0 <= j < k + 1 ensures Truthy(rs[j]) {
              if j > 0 { assert rs[j] == rs[1..][j - 1]; }
            }
          }
          assert Falsy(rs[k + 1]);
        } else {
          forall k | 0 <= k < |rs| && Falsy(rs[k])
            ensures exists j :: 0 <= j < k && !Truthy(rs[j])
          {
            assert k > 0;
            assert Falsy(rs[1..][k - 1]);
            var j :| 0 <= j < k - 1 && !Truthy(rs[1..][j]);
            assert !Truthy(rs[j + 1]);
          }
        }
      } else {
        assert rs[0].Raised? || Falsy(rs[0]);
      }
    }
  }

  /** When no check raises (as with the moderation client), the content is
      approved exactly when every image is approved. */
  lemma AggregateWithoutErrors(rs: seq<CheckResult>)
    requires forall i :: 0 <= i < |rs| ==> !rs[i].Raised?
    ensures Aggregate(rs) <==> forall i :: 0 <= i < |rs| ==> Truthy(rs[i])
  {
    AggregateFalse(rs);
    if !Aggregate(rs) {
      var k :| 0 <= k < |rs| && Falsy(rs[k]) && forall j :: 0 <= j < k ==> Truthy(rs[j]);
      assert !Truthy(rs[k]);
    } else {
      forall i | 0 <= i < |rs| ensures Truthy(rs[i]) {
        if !Truthy(rs[i]) {
          var k := FirstUntruthy(rs, i);
          assert Falsy(rs[k]);
        }
      }
    }
  }

  /** The first position at or before `i` whose result is not truthy. */
  function FirstUntruthy(rs: seq<CheckResult>, i: nat): (k: nat)
    requires i < |rs| && !Truthy(rs[i])
    ensures k <= i && !Truthy(rs[k]) && forall j :: 0 <= j < k ==> Truthy(rs[j])
    decreases i
  {
    if Truthy(rs[0]) then
      var k := FirstUntruthy(rs[1..], i - 1);
      assert forall j :: 1 <= j < k + 1 ==> rs[j] == rs[1..][j - 1];
      k + 1
    else 0
  }

  /** An all-approved prefix does not change the outcome. */
  lemma {:induction false} AggregateAfterApproved(rs: seq<CheckResult>, i: nat)
    requires i <= |rs|
    requires forall j :: 0 <= j < i ==> Truthy(rs[j])
    ensures Aggregate(rs) == Aggregate(rs[i..])
    ensures Checked(rs) == i + Checked(rs[i..])
    decreases i
  {
    if i > 0 {
      AggregateAfterApproved(rs[1..], i - 1);
      assert rs[1..][i - 1..] == rs[i..];
    }
  }

  /** A first image that is rejected stops the loop after one check. */
  lemma FirstRejectedShortCircuits(rs: seq<CheckResult>)
    requires |rs| > 0 && Falsy(rs[0])
    ensures Checked(rs) == 1 && !Aggregate(rs)
  {
  }

  /** Fail-open: a raised error, reached before any rejection, approves
      the content. */
  lemma RaisedApproves(rs: seq<CheckResult>, k: nat)
    requires k < |rs| && rs[k].Raised?
    requires forall j :: 0 <= j < k ==> Truthy(rs[j])
    ensures Aggregate(rs) && Checked(rs) == k + 1
  {
    AggregateAfterApproved(rs, k);
  }

  /** A `false` or `nil`, reached before any other failure, rejects the
      content and ends the loop there. */
  lemma FalsyRejects(rs: seq<CheckResult>, k: nat)
    requires k < |rs| && Falsy(rs[k])
    requires forall j :: 0 <= j < k ==> Truthy(rs[j])
    ensures !Aggregate(rs) && Checked(rs) == k + 1
  {
    AggregateAfterApproved(rs, k);
  }

  /** Every image approved: the content is approved after checking all. */
  lemma AllApproved(rs: seq<CheckResult>)
    requires forall j :: 0 <= j < |rs| ==> Truthy(rs[j])
    ensures Aggregate(rs) && Checked(rs) == |rs|
  {
    AggregateAfterApproved(rs, |rs|);
  }

  /** With the moderation client doing the checks (each image's reply
      given by `replies`), the content is rejected exactly when some image
      gets `false` or `nil`. */
  lemma ClientRejectsIffSomeImageFalsy(srcs: seq<Option<string>>, baseUrl: string, replies: string -> Reply, allowList: string)
    ensures var urls := ImageUrls(srcs, baseUrl);
            !Analysis(Fragment(srcs), baseUrl, u => Verdict(replies(u), allowList)) <==>
            exists i :: 0 <= i < |urls| && Falsy(Verdict(replies(urls[i]), allowList))
  {
    var urls := ImageUrls(srcs, baseUrl);
    var rs := Results(urls, u => Verdict(replies(u), allowList));
    AggregateWithoutErrors(rs);
    if exists i :: 0 <= i < |urls| && Falsy(Verdict(replies(urls[i]), allowList)) {
      var i :| 0 <= i < |urls| && Falsy(Verdict(replies(urls[i]), allowList));
      assert !Truthy(rs[i]);
    }
  }

  /** A non-2xx status for any image rejects the content: the client's
      `nil` is not truthy, so the call does not fail open. */
  lemma FailedCallRejects(srcs: seq<Option<string>>, baseUrl: string, replies: string -> Reply, allowList: string, k: nat)
    requires k < |ImageUrls(srcs, baseUrl)|
    requires replies(ImageUrls(srcs, baseUrl)[k]).Response? && !IsSuccess(replies(ImageUrls(srcs, baseUrl)[k]).status)
    ensures !Analysis(Fragment(srcs), baseUrl, u => Verdict(replies(u), allowList))
  {
    ClientRejectsIffSomeImageFalsy(srcs, baseUrl, replies, allowList);
  }

  /** The `image_urls.each` loop: resolve each URL, ask the client, go on
      only after `true`, reject at the first `false` or `nil`, and approve
      at the first raised error (the method-level rescue). `calls` records,
      in order, the URLs the client was asked about. */
  method CheckImages(imageUrls: seq<string>, baseUrl: string, check: string -> CheckResult)
    returns (approved: bool, ghost calls: seq<string>)
    ensures approved == Aggregate(Results(ResolveAll(imageUrls, baseUrl), check))
    ensures var urls := ResolveAll(imageUrls, baseUrl);
            calls == urls[..Checked(Results(urls, check))]
  {
    ghost var urls := ResolveAll(imageUrls, baseUrl);
    ghost var results := Results(urls, check);
    calls := [];
    var i := 0;
    while i < |imageUrls|
      invariant 0 <= i <= |imageUrls|
      invariant calls == urls[..i]
      invariant forall j :: 0 <= j < i ==> Truthy(results[j])
    {
      var fullUrl := ResolveUrl(imageUrls[i], baseUrl);
      assert urls[..i + 1] == urls[..i] + [fullUrl];
      calls := calls + [fullUrl];
      var response := check(fullUrl);
      if response.Raised? {
        RaisedApproves(results, i);
        return true, calls;
      }
      if !Truthy(response) {
        FalsyRejects(results, i);
        return false, calls;
      }
      i := i + 1;
    }
    AllApproved(results);
    assert urls[..i] == urls;
    approved := true;
  }

  /** `analyze_content`: the outcome of the image loop over the present
      `src` values, or approval when rendering or parsing raised. */
  method AnalyzeContent(doc: Document, baseUrl: string, check: string -> CheckResult)
    returns (approved: bool, ghost calls: seq<string>)
    ensures approved == Analysis(doc, baseUrl, check)
    ensures doc.Unparsable? ==> approved && calls == []
    ensures doc.Fragment? ==>
              var urls := ImageUrls(doc.imgSrcs, baseUrl);
              calls == urls[..Checked(Results(urls, check))]
  {
    if doc.Unparsable? {
      // rescue => e around the rendering and parsing
      return true, [];
    }
    var imageUrls := Compact(doc.imgSrcs);
    approved, calls := CheckImages(imageUrls, baseUrl, check);
  }
}
