/** The metrics dashboard's PR window filter and per-PR metrics (metrics_utils.py).
    The three per-PR API reads (comments, timeline, detail record) and the ISO 8601
    parser are parameters: each maps a PR number (or a timestamp) to what the
    request (or `datetime.fromisoformat`) would return. */
module MetricsUtils {
  import opened Wrappers
  import opened IsoText
  import opened PullRequests
  import Seqs

  // ---------------------------------------------------------------------------
  // fetch_prs: the created-date window
  // ---------------------------------------------------------------------------

  /** `created_at[:10]`: the first ten characters, or the whole string if shorter. */
  function DatePart(createdAt: string): (d: string)
    ensures |d| == if |createdAt| < 10 then |createdAt| else 10
    ensures d <= createdAt
  {
    if |createdAt| <= 10 then createdAt else createdAt[..10]
  }

  /** `since <= pr['created_at'][:10] <= until`, with string comparison. */
  predicate CreatedWithin(pr: PullRequest, since: string, until: string)
  {
    LexLe(since, DatePart(pr.createdAt)) && LexLe(DatePart(pr.createdAt), until)
  }

  function KeepCreated(since: string, until: string): PullRequest -> bool
  {
    pr => CreatedWithin(pr, since, until)
  }

  /** The PRs of `listing` whose creation date lies in [since, until], in listing order. */
  function FetchPrs(listing: seq<PullRequest>, since: string, until: string): (filtered: seq<PullRequest>)
    ensures Seqs.IsSubsequence(filtered, listing)
    ensures forall pr :: pr in filtered <==> pr in listing && CreatedWithin(pr, since, until)
  {
    Seqs.FilterIsSubsequence(KeepCreated(since, until), listing);
    Seqs.Filter(KeepCreated(since, until), listing)
  }

  /** FetchPrs is exactly the order-preserving selection of in-window PRs. */
  lemma FetchPrsIsExactSelection(listing: seq<PullRequest>, since: string, until: string, r: seq<PullRequest>)
    requires Seqs.IsSubsequence(r, listing)
    requires forall pr :: pr in r ==> CreatedWithin(pr, since, until)
    requires |r| == Seqs.Count(KeepCreated(since, until), listing)
    ensures r == FetchPrs(listing, since, until)
  {
    Seqs.FilterUnique(KeepCreated(since, until), r, listing);
  }

  /** The listing with every merge timestamp erased. */
  function ForgetMerges(prs: seq<PullRequest>): (r: seq<PullRequest>)
    ensures |r| == |prs|
    ensures forall i :: 0 <= i < |prs| ==> r[i] == prs[i].(mergedAt := None)
  {
    if prs == [] then [] else [prs[0].(mergedAt := None)] + ForgetMerges(prs[1..])
  }

  /** The filter never looks at `merged_at`: erasing every merge timestamp before or
      after filtering gives the same list, so closed-unmerged PRs in the window stay. */
  lemma {:induction false} FetchPrsIgnoresMerges(listing: seq<PullRequest>, since: string, until: string)
    ensures FetchPrs(ForgetMerges(listing), since, until) == ForgetMerges(FetchPrs(listing, since, until))
  {
    if listing != [] {
      FetchPrsIgnoresMerges(listing[1..], since, until);
      assert ForgetMerges(listing)[1..] == ForgetMerges(listing[1..]);
      if CreatedWithin(listing[0], since, until) {
        assert ForgetMerges(Seqs.Filter(KeepCreated(since, until), listing))
          == [listing[0].(mergedAt := None)] + ForgetMerges(Seqs.Filter(KeepCreated(since, until), listing[1..]));
      }
    }
  }

  /** Unlike the merged-in-window filter, a PR created on the `until` day (or the
      `since` day) is kept: only the date part is compared. */
  lemma CreatedOnBoundaryDayKept(listing: seq<PullRequest>, since: string, until: string, pr: PullRequest)
    requires pr in listing && LexLe(since, until)
    requires DatePart(pr.createdAt) == since || DatePart(pr.createdAt) == until
    ensures pr in FetchPrs(listing, since, until)
  {
    LexLeReflexive(since);
    LexLeReflexive(until);
  }

  // ---------------------------------------------------------------------------
  // analyze_pr_metrics
  // ---------------------------------------------------------------------------

  /** An issue comment; only `user.login` is read. */
  datatype Comment = Comment(login: string)

  /** A timeline entry: its `event` kind and, for reviews, `submitted_at`. */
  datatype TimelineEvent = TimelineEvent(event: string, submittedAt: string)

  /** The detail record's `additions` and `deletions`, either of which may be absent. */
  datatype PrDetail = PrDetail(additions: Option<int>, deletions: Option<int>)

  /** The "First Review (hrs)" cell: "N/A", or the delay, held here in seconds
      (the dashboard shows seconds / 3600 rounded to two places). */
  datatype ReviewCell = NotAvailable | Delay(seconds: int)

  /** One row of the metrics table. `mergedWithoutComments` is the "Yes"/"No" column. */
  datatype MetricRow = MetricRow(
    prNumber: int,
    author: string,
    linesChanged: int,
    comments: nat,
    reviewers: seq<string>,
    firstReview: ReviewCell,
    mergedWithoutComments: bool)

  /** `pr_details.get('additions', 0) + pr_details.get('deletions', 0)` */
  function LinesChanged(detail: PrDetail): (n: int)
    ensures detail.additions.None? && detail.deletions.None? ==> n == 0
    ensures detail.additions.Some? && detail.deletions.None? ==> n == detail.additions.value
    ensures detail.additions.None? && detail.deletions.Some? ==> n == detail.deletions.value
    ensures detail.additions.Some? && detail.deletions.Some? ==> n == detail.additions.value + detail.deletions.value
  {
    detail.additions.GetOr(0) + detail.deletions.GetOr(0)
  }

  /** The authors' logins, one per comment. */
  function Logins(comments: seq<Comment>): (logins: seq<string>)
    ensures |logins| == |comments|
    ensures forall i :: 0 <= i < |comments| ==> logins[i] == comments[i].login
  {
    if comments == [] then [] else [comments[0].login] + Logins(comments[1..])
  }

  predicate NoDuplicates(s: seq<string>)
  {
    forall i, j :: 0 <= i < j < |s| ==> s[i] != s[j]
  }

  /** `list(set(s))`: each element of s exactly once. Python's order is the set's
      iteration order; this keeps the last occurrence of each. */
  function Distinct(s: seq<string>): (r: seq<string>)
    ensures NoDuplicates(r)
    ensures forall x :: x in r <==> x in s
  {
    if s == [] then []
    else if s[0] in s[1..] then Distinct(s[1..])
    else [s[0]] + Distinct(s[1..])
  }

  /** Position of the first timeline entry whose event is "reviewed", if any. */
  function FirstReviewed(timeline: seq<TimelineEvent>): (k: Option<nat>)
    ensures k.Some? ==> k.value < |timeline| && timeline[k.value].event == "reviewed"
    ensures k.Some? ==> forall j :: 0 <= j < k.value ==> timeline[j].event != "reviewed"
    ensures k.None? ==> forall j :: 0 <= j < |timeline| ==> timeline[j].event != "reviewed"
  {
    if timeline == [] then None
    else if timeline[0].event == "reviewed" then Some(0)
    else match FirstReviewed(timeline[1..])
      case None => None
      case Some(k) => Some(k + 1)
  }

  /** Seconds from creation to the first review, or None without a review. */
  function ReviewDelay(pr: PullRequest, timeline: seq<TimelineEvent>, epochSeconds: string -> int): Option<int>
  {
    match FirstReviewed(timeline)
    case None => None
    case Some(k) => Some(epochSeconds(timeline[k].submittedAt) - epochSeconds(pr.createdAt))
  }

  /** The row for one PR, from what the three API reads returned for it. The cell
      shows "N/A" when the delay is absent or falsy, that is zero. */
  function RowFor(pr: PullRequest, comments: seq<Comment>, timeline: seq<TimelineEvent>,
                  detail: PrDetail, epochSeconds: string -> int): MetricRow
  {
    var delay := ReviewDelay(pr, timeline, epochSeconds);
    MetricRow(
      pr.number,
      pr.author,
      LinesChanged(detail),
      |comments|,
      Distinct(Logins(comments)),
      if delay.Some? && delay.value != 0 then Delay(delay.value) else NotAvailable,
      |comments| == 0)
  }

  /** One row per PR, in order, each computed from that PR's comments, timeline and
      detail record. The inner loop scans the timeline and stops at the first review. */
  method AnalyzePrMetrics(
    prs: seq<PullRequest>,
    comments: int -> seq<Comment>,
    timeline: int -> seq<TimelineEvent>,
    details: int -> PrDetail,
    epochSeconds: string -> int)
    returns (metrics: seq<MetricRow>)
    ensures |metrics| == |prs|
    ensures forall i :: 0 <= i < |prs| ==>
      metrics[i] == RowFor(prs[i], comments(prs[i].number), timeline(prs[i].number),
                           details(prs[i].number), epochSeconds)
  {
    metrics := [];
    var i := 0;
    while i < |prs|
      invariant 0 <= i <= |prs|
      invariant |metrics| == i
      invariant forall m :: 0 <= m < i ==>
        metrics[m] == RowFor(prs[m], comments(prs[m].number), timeline(prs[m].number),
                             details(prs[m].number), epochSeconds)
    {
      var pr := prs[i];
      var created := epochSeconds(pr.createdAt);
      var prComments := comments(pr.number);
      var events := timeline(pr.number);
      var detail := details(pr.number);

      var reviewers := Distinct(Logins(prComments));
      var commentCount := |prComments|;
      var linesChanged := LinesChanged(detail);

      var firstReviewTime: Option<int> := None;
      var j := 0;
      while j < |events|
        invariant 0 <= j <= |events|
        invariant firstReviewTime == None
        invariant forall k :: 0 <= k < j ==> events[k].event != "reviewed"
      {
        if events[j].event == "reviewed" {
          firstReviewTime := Some(epochSeconds(events[j].submittedAt));
          assert FirstReviewed(events) == Some(j);
          break;
        }
        j := j + 1;
      }
      assert firstReviewTime.None? ==> FirstReviewed(events) == None;

      var timeToFirstReview: Option<int> :=
        if firstReviewTime.Some? then Some(firstReviewTime.value - created) else None;
      var cell := if timeToFirstReview.Some? && timeToFirstReview.value != 0
                  then Delay(timeToFirstReview.value) else NotAvailable;

      metrics := metrics + [MetricRow(pr.number, pr.author, linesChanged, commentCount,
                                      reviewers, cell, commentCount == 0)];
      i := i + 1;
    }
  }

  // ---------------------------------------------------------------------------
  // What a row says about its PR
  // ---------------------------------------------------------------------------

  /** The row copies the PR's number and author, counts every comment, lists every
      commenter's login once and nothing else, and answers "Yes" to "Merged Without
      Comments" exactly when there are no comments: the merge timestamp plays no part. */
  lemma RowDescribesPr(pr: PullRequest, comments: seq<Comment>, timeline: seq<TimelineEvent>,
                       detail: PrDetail, epochSeconds: string -> int, mergedAt: Option<string>)
    ensures var row := RowFor(pr, comments, timeline, detail, epochSeconds);
      && row.prNumber == pr.number
      && row.author == pr.author
      && row.comments == |comments|
      && NoDuplicates(row.reviewers)
      && (forall login :: login in row.reviewers <==> exists c :: c in comments && c.login == login)
      && (row.mergedWithoutComments <==> comments == [])
      && RowFor(pr.(mergedAt := mergedAt), comments, timeline, detail, epochSeconds) == row
  {
  }

  /** The first-review cell is "N/A" exactly when the timeline has no "reviewed" entry
      or the first one was submitted at the creation second; otherwise it holds the
      (non-zero) delay to that first "reviewed" entry. */
  lemma ReviewCellMeaning(pr: PullRequest, comments: seq<Comment>, timeline: seq<TimelineEvent>,
                          detail: PrDetail, epochSeconds: string -> int)
    ensures var cell := RowFor(pr, comments, timeline, detail, epochSeconds).firstReview;
      (cell == NotAvailable) <==>
        ((forall j :: 0 <= j < |timeline| ==> timeline[j].event != "reviewed")
         || exists k :: 0 <= k < |timeline| && IsFirstReview(timeline, k)
                        && epochSeconds(timeline[k].submittedAt) == epochSeconds(pr.createdAt))
    ensures var cell := RowFor(pr, comments, timeline, detail, epochSeconds).firstReview;
      cell.Delay? ==>
        && cell.seconds != 0
        && exists k :: 0 <= k < |timeline| && IsFirstReview(timeline, k)
                       && cell.seconds == epochSeconds(timeline[k].submittedAt) - epochSeconds(pr.createdAt)
  {
  }

  /** Entry k is a "reviewed" event and no earlier entry is. */
  predicate IsFirstReview(timeline: seq<TimelineEvent>, k: nat)
    requires k < |timeline|
  {
    timeline[k].event == "reviewed" && forall j :: 0 <= j < k ==> timeline[j].event != "reviewed"
  }

  /** The scan stops at the first review: whatever follows it in the timeline,
      including later or earlier-dated reviews, leaves the row unchanged. */
  lemma {:induction false} LaterEventsIgnored(pr: PullRequest, comments: seq<Comment>,
                                              before: seq<TimelineEvent>, review: TimelineEvent,
                                              after: seq<TimelineEvent>, after': seq<TimelineEvent>,
                                              detail: PrDetail, epochSeconds: string -> int)
    requires forall j :: 0 <= j < |before| ==> before[j].event != "reviewed"
    requires review.event == "reviewed"
    ensures RowFor(pr, comments, before + [review] + after, detail, epochSeconds)
         == RowFor(pr, comments, before + [review] + after', detail, epochSeconds)
  {
    FirstReviewAfterPrefix(before, review, after);
    FirstReviewAfterPrefix(before, review, after');
  }

  lemma {:induction false} FirstReviewAfterPrefix(before: seq<TimelineEvent>, review: TimelineEvent,
                                                  after: seq<TimelineEvent>)
    requires forall j :: 0 <= j < |before| ==> before[j].event != "reviewed"
    requires review.event == "reviewed"
    ensures FirstReviewed(before + [review] + after) == Some(|before|)
  {
    var t := before + [review] + after;
    assert t[|before|] == review;
    forall j | 0 <= j < |before| ensures t[j].event != "reviewed" {
      assert t[j] == before[j];
    }
  }
}
