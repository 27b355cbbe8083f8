# AI PR summarizer: the sequential core, in Dafny

The AI PR summarizer is a dashboard and webhook tool. It lists pull requests from the
GitHub API, summarizes their diffs with a language model, caches summaries in SQLite
and shows per-PR review metrics. Most of it is glue around HTTP, OpenAI and Streamlit.
This project models the four pieces of sequential logic inside it and proves what they
compute:

- **PR window filters** (`iso_text.dfy`, `github_utils.dfy`, `metrics_utils.dfy`,
  with the generic filter in `seqs.dfy`).
  - The summary dashboard's `fetch_prs` keeps merged PRs whose `merged_at` lies in `[since, until]`.
  - The metrics dashboard's `fetch_prs` keeps PRs whose `created_at[:10]` lies in `[since, until]`.
  - Both compare strings, not dates. `IsoText.LexLe` is Python's `str` ordering: code point
    by code point, with a proper prefix sorting first.
  - With the bare-date bounds the dashboard passes, a PR merged on the `until` day is
    therefore dropped, and a PR merged on the `since` day is kept.
- **Per-PR metrics** (`metrics_utils.dfy`). `AnalyzePrMetrics` is the loop of
  `analyze_pr_metrics`. The three per-PR API reads and the ISO 8601 parser are parameters.
  The method is proved to produce, for each PR in order, the row `RowFor` specifies.
  Lemmas then say what the row means: lines changed, distinct reviewers, the
  first-review scan and its "N/A" cases, and the "Merged Without Comments" flag.
- **Summary cache** (`db_utils.dfy`). `SummaryStore` is a class holding a map from table
  name to rows (`pr_id` to `summary`). Its methods are `create_table`,
  `fetch_pr_details_by_id` and `insert_pr_details`. Each is tied to a pure function on the
  map, and lemmas relate them: idempotent creation, creation on a missed fetch, no
  overwrite, round trip.
- **Record transform** (`data_test.dfy`). `DataProcessor._transform_data` upper-cases
  string values. `process_user_data` returns the result, or None when the transform raises.

The model follows what the code does:

- "Merged Without Comments" is "Yes" exactly when the PR has no issue comments. This holds
  whether or not the PR was merged. The `merged` value the code computes is never used.
- The "Comments" column counts issue comments only. Those are what the comments request
  returns; review comments are not added.
- The date windows compare strings, so the `until` day is excluded for merge timestamps
  but included for creation dates.
- The cache key is whatever `pr_id` string the caller passes. The code forms no composite
  key of its own.

## Model

| member | source | states |
|---|---|---|
| `IsoText.LexLeReflexive` | metrics_utils.py:26 | every string compares `<=` to itself, so a bound equal to the compared text is inside the window |
| `IsoText.LexLeTransitive` | metrics_utils.py:26 | Python's string `<=` is transitive |
| `IsoText.LexLeAntisymmetric` | metrics_utils.py:26 | two strings each `<=` the other are equal |
| `IsoText.LexLeTotal` | metrics_utils.py:26 | any two strings are comparable, so the window test is always defined |
| `IsoText.PrefixSortsFirst` | github_utils.py:17 | a date sorts no later than any timestamp extending it ("2024-05-01" <= "2024-05-01T10:00:00Z") |
| `IsoText.ExtensionSortsAfter` | github_utils.py:17 | a timestamp that properly extends a date sorts strictly after that date |
| `IsoText.EqualLengthDecides` | github_utils.py:17 | two different equal-length dates keep their order whatever time text is appended to either |
| `GithubUtils.FetchPrs` | github_utils.py:15-18 | the result is a subsequence of the listing (order kept); a PR is in it iff it is in the listing, its `merged_at` is present and non-empty, and `since <= merged_at <= until` as strings |
| `GithubUtils.FetchPrsIsExactSelection` | github_utils.py:15-18 | any in-order selection of the listing holding only merged-in-window PRs, as many as the listing has, equals the result |
| `GithubUtils.FetchPrsIdempotent` | github_utils.py:15-18 | filtering the result again returns it unchanged |
| `GithubUtils.MergedOnUntilDayDropped` | github_utils.py:17 | with a bare date as `until`, a PR merged at any time on that day is not returned |
| `GithubUtils.MergedOnSinceDayKept` | github_utils.py:17 | with bare dates `since` < `until`, a PR merged at any time on the `since` day is returned |
| `MetricsUtils.DatePart` | metrics_utils.py:26 | `created_at[:10]` is the prefix of length min(10, length) |
| `MetricsUtils.FetchPrs` | metrics_utils.py:24-27 | the result is a subsequence of the listing; a PR is in it iff it is in the listing and `since <= created_at[:10] <= until` as strings |
| `MetricsUtils.FetchPrsIsExactSelection` | metrics_utils.py:24-27 | any in-order selection of the listing holding only in-window PRs, as many as the listing has, equals the result |
| `MetricsUtils.FetchPrsIgnoresMerges` | metrics_utils.py:24-27 | erasing every `merged_at` before or after filtering gives the same list: closed-unmerged PRs in the window are returned |
| `MetricsUtils.CreatedOnBoundaryDayKept` | metrics_utils.py:26 | a PR created on the `since` day or the `until` day is returned |
| `MetricsUtils.LinesChanged` | metrics_utils.py:64 | additions + deletions, each counted as 0 when absent from the detail record |
| `MetricsUtils.Logins` | metrics_utils.py:62 | one login per comment, in comment order |
| `MetricsUtils.Distinct` | metrics_utils.py:62 | `list(set(s))`: no duplicates, and exactly the elements of `s` |
| `MetricsUtils.FirstReviewed` | metrics_utils.py:66-70 | the position of the first timeline entry whose event is "reviewed", None iff there is no such entry |
| `MetricsUtils.AnalyzePrMetrics` | metrics_utils.py:51-84 | one row per input PR, in input order, each the row `RowFor` gives for that PR's comments, timeline and detail record |
| `MetricsUtils.RowDescribesPr` | metrics_utils.py:62-81 | the row copies PR number and author, counts every comment, lists each commenter once and nothing else, has "Merged Without Comments" iff there are no comments, and does not depend on `merged_at` |
| `MetricsUtils.ReviewCellMeaning` | metrics_utils.py:66-80 | "First Review" is "N/A" iff no entry is "reviewed" or the first one has a zero delay; otherwise it is the non-zero delay from creation to the first "reviewed" entry |
| `MetricsUtils.LaterEventsIgnored` | metrics_utils.py:67-70 | entries after the first "reviewed" entry, earlier-dated reviews included, do not change the row |
| `MetricsUtils.FirstReviewAfterPrefix` | metrics_utils.py:67-70 | with no review before it, a "reviewed" entry is the one the scan stops at |
| `DbUtils.WithTable` | db_utils.py:18-23 | after `CREATE TABLE IF NOT EXISTS` the table exists; existing tables keep all their rows; a new table is empty |
| `DbUtils.Lookup` | db_utils.py:35-39 | a row is found iff the table exists and holds the key, and it is `(pr_id, summary)` for that key |
| `DbUtils.Insert` | db_utils.py:52-57 | fails with "no such table" or on a present key; otherwise adds exactly that row and leaves every other row and table as it was |
| `DbUtils.SummaryStore.constructor` | db_utils.py:5-8 | a database opened for the first time holds no tables |
| `DbUtils.SummaryStore.CreateTable` | db_utils.py:13-28 | the tables become `WithTable` of the old ones |
| `DbUtils.SummaryStore.FetchPrDetailsById` | db_utils.py:30-46 | returns `Lookup` of the old tables; creates a missing table empty; changes nothing when the table exists |
| `DbUtils.SummaryStore.InsertPrDetails` | db_utils.py:48-57 | on success the tables become `Insert`'s result; on failure the error is returned and nothing changes |
| `DbUtils.CreateTableIdempotent` | db_utils.py:18-23 | creating a table twice is creating it once |
| `DbUtils.FetchMissingTable` | db_utils.py:40-43 | a fetch from a missing table finds nothing and leaves the table existing and empty |
| `DbUtils.InsertThenFetch` | db_utils.py:35-54 | after a successful insert of `(k, s)`, fetching `k` returns `(k, s)` |
| `DbUtils.InsertKeepsOtherRows` | db_utils.py:52-54 | after an insert every other key of every table fetches as before |
| `DbUtils.DuplicateInsertKeepsOriginal` | db_utils.py:52-57 | inserting a present key fails with the key error (and `InsertPrDetails` then keeps every table as it was) |
| `DbUtils.InsertDoesNotCreate` | db_utils.py:48-57 | an insert into a missing table fails and does not create it; once created, the insert succeeds |
| `DbUtils.MissThenStoreThenHit` | db_utils.py:30-57 | after a missed fetch (which creates the table), inserting that key succeeds and a fetch then returns it |
| `DbUtils.CacheSummary` | db_utils.py:30-57 | fetch, then insert on a miss, then fetch: a hit returns the stored row untouched, a miss ends with exactly the new row added to the (created if missing) table and every other row and table unchanged |
| `DataTest.UpperChar` | data-test.py:86 | a lower-case ASCII letter becomes its upper-case letter; any other character is unchanged |
| `DataTest.Upper` | data-test.py:86 | the upper-cased string has the same length, each character upper-cased |
| `DataTest.UpperIdempotent` | data-test.py:86 | upper-casing twice is upper-casing once |
| `DataTest.TransformData` | data-test.py:83-86 | the same key set; each string value upper-cased; every non-string value, nested containers included, unchanged |
| `DataTest.TransformIdempotent` | data-test.py:86 | transforming twice is transforming once |
| `DataTest.ProcessUserData` | data-test.py:66-81 | returns the transformed dict iff the argument is a dict, and None otherwise (the transform raises on anything without `.items()`) |

## Left out

- The HTTP reads are not modelled. Their results are inputs. This covers the listing requests of both `fetch_prs`, `get_pr_comments`, `get_pr_timeline`, `get_pr_diff_stats` and `get_diff`.
- `datetime.fromisoformat` is the parameter `epochSeconds`. Its parse failures are not modelled.
- The parse of `merged_at` in `analyze_pr_metrics` is not modelled. Its value is never used.
- Float hours and `round(..., 2)` are not modelled. The "First Review" cell holds the delay in whole seconds; the display divides by 3600.
- The pandas DataFrame is not modelled. The result is a sequence of rows.
- MetricsUtils.Distinct: keeps the last occurrence of each login. Python's set iteration order is not modelled.
- MetricsUtils.AnalyzePrMetrics: the ", ".join of the reviewers is not modelled. The row keeps the list of logins.
- A missing key or a JSON null in an API record would make Python raise. Examples are `merged_at`, `event`, `user` and a null `additions`. The records here are typed, so these exceptions are not modelled.
- DataTest.UpperChar, DataTest.Upper: map only the ASCII letters a-z. Python's `str.upper` also maps other letters, some into several characters ("ß" to "SS"). Idempotence is proved for this ASCII mapping only.
- Connection handling, commits and `print` logging in db_utils.py are not modelled.
- The SQL text built by interpolating `table_name` is not modelled, nor what that allows. The model takes the table name as a plain key.
- DbUtils.SummaryStore: table names are exact-match keys. SQLite resolves an unquoted table name case-insensitively, and a quoted or `main.`-qualified form names the same table. So in SQLite `create_table(db, "Summaries")` then `insert_pr_details(db, "summaries", k, s)` succeeds, while the model reports "no such table" (and a fetch would create a second table).
- A failure in `create_table`, and the fetch errors other than "no such table", are not modelled. Both are re-raised as is.
- `insert_pr_details` is annotated to return a tuple but returns None. The model returns the outcome instead of raising.
- Aggregate statistics (totals, averages, distributions) are not modelled. No code in these files computes them; the admin dashboard's figures are fixed markup.
- webhook_server.py is not part of this model. It is async HTTP plumbing and an HMAC-SHA256 check.
- ai_summarizer.py is not part of this model. It wraps the OpenAI client; its only logic is a 4000-character slice.
- app.py, admin_dashboard.py and run_app.py are not part of this model. They are Streamlit UI and process launching.
- password-test.py and sqlite-connection-test.py are not part of this model. They are library cryptography, randomness and live database queries.
- DataTest.TransformData: a Dafny map has no order, so the insertion order the dict comprehension keeps is not modelled. Keys are strings only; a Python dict also accepts other hashable keys.
- data-test.py's `load_object_from_file`, `parse_yaml_config`, `create_temp_file` and its logging are not modelled. They are pickle, YAML, filesystem and logging calls.
