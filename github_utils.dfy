/** The merged-in-window filter of the summary dashboard's `fetch_prs`
    (github_utils.py). The listing request itself is an input. */
module GithubUtils {
  import opened Wrappers
  import opened IsoText
  import opened PullRequests
  import Seqs

  /** Python truthiness of `pr["merged_at"]`: null and the empty string are false. */
  predicate HasMergeTime(pr: PullRequest)
  {
    pr.mergedAt.Some? && pr.mergedAt.value != ""
  }

  /** `pr["merged_at"] and since <= pr["merged_at"] <= until`, with string comparison. */
  predicate MergedWithin(pr: PullRequest, since: string, until: string)
  {
    HasMergeTime(pr) && LexLe(since, pr.mergedAt.value) && LexLe(pr.mergedAt.value, until)
  }

  function KeepMerged(since: string, until: string): PullRequest -> bool
  {
    pr => MergedWithin(pr, since, until)
  }

  /** The PRs of `listing` that were merged inside [since, until], in listing order. */
  function FetchPrs(listing: seq<PullRequest>, since: string, until: string): (merged: seq<PullRequest>)
    ensures Seqs.IsSubsequence(merged, listing)
    ensures forall pr :: pr in merged <==> pr in listing && MergedWithin(pr, since, until)
    ensures forall pr :: pr in merged ==> pr.mergedAt.Some? && pr.mergedAt.value != ""
  {
    Seqs.FilterIsSubsequence(KeepMerged(since, until), listing);
    Seqs.Filter(KeepMerged(since, until), listing)
  }

  /** FetchPrs is exactly the order-preserving selection: any subsequence of the
      listing holding only merged-in-window PRs, as many as the listing has, is it. */
  lemma FetchPrsIsExactSelection(listing: seq<PullRequest>, since: string, until: string, r: seq<PullRequest>)
    requires Seqs.IsSubsequence(r, listing)
    requires forall pr :: pr in r ==> MergedWithin(pr, since, until)
    requires |r| == Seqs.Count(KeepMerged(since, until), listing)
    ensures r == FetchPrs(listing, since, until)
  {
    Seqs.FilterUnique(KeepMerged(since, until), r, listing);
  }

  /** Filtering the filter's own output changes nothing. */
  lemma FetchPrsIdempotent(listing: seq<PullRequest>, since: string, until: string)
    ensures FetchPrs(FetchPrs(listing, since, until), since, until) == FetchPrs(listing, since, until)
  {
    Seqs.FilterIdempotent(KeepMerged(since, until), listing);
  }

  /** With a bare date as `until` (the dashboard passes `date.isoformat()`), a PR merged
      on that day is dropped: its timestamp extends the date, so it sorts after it. */
  lemma MergedOnUntilDayDropped(listing: seq<PullRequest>, since: string, day: string, pr: PullRequest, time: string)
    requires time != []
    requires pr.mergedAt == Some(day + time)
    ensures pr !in FetchPrs(listing, since, day)
  {
    ExtensionSortsAfter(day, time);
  }

  /** With bare dates of equal length as bounds and `since` before `until`, a PR merged
      at any time on the `since` day is kept. */
  lemma MergedOnSinceDayKept(listing: seq<PullRequest>, day: string, until: string, pr: PullRequest, time: string)
    requires |day| == |until| && day != until && LexLe(day, until)
    requires pr in listing && pr.mergedAt == Some(day + time)
    ensures pr in FetchPrs(listing, day, until)
  {
    PrefixSortsFirst(day, time);
    EqualLengthDecides(day, until, time, []);
    assert until + [] == until;
  }
}
