/** The pull-request record of the hosting API's listing, reduced to the fields the
    filters and the metrics read. */
module PullRequests {
  import opened Wrappers

  /** `number`, `user.login`, `created_at` and `merged_at` of one listing entry;
      the timestamps are the API's ISO 8601 text, `merged_at` is null for a PR
      that was never merged. */
  datatype PullRequest = PullRequest(
    number: int,
    author: string,
    createdAt: string,
    mergedAt: Option<string>)
}
