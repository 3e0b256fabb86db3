# Repository selection and commit classification, in Dafny

This project models two parts of a pipeline that collects commits from
hosted repositories and classifies them into maintenance categories.

- **Repository selection.** This is the class `GitHubCommitCollector` of
  `github_commit_collector.py`. It models:
  - the thresholds and the fields `repos` and `valid_repos`;
  - the paging loop of `search_repos`;
  - the ordered checks of `_repo_is_valid`: the fork flag, the exclusion-keyword screen, the commit count, the distinct (ISO week, year) count, and the average word count;
  - the de-duplicating filter `filter_repos`;
  - the row flattening of `collect_commits` and `collect_pull_requests`.
- **Reply post-processing** of `generate_results_gemini.py`. It models:
  - the prompt built by `classify_commit`;
  - the mapping of the model's reply to a category or to one of the sentinels "Unknown", "No response" and "Error";
  - the dictionary built by `classify_multiple_commits`.

What the hosting service and the language model return enters as data:
- A repository (`Repositories.Repo`) carries its commits of 2024 and its pull requests. It may also carry the point where listing its pull requests raises.
- A search result is the ranked list of repositories.
- A model reply is an `Option<string>`. `None` means the call raised.

The imperative parts stay imperative:
- `Collector.GitHubCommitCollector` is a class with the source's fields.
- Its methods run the source's loops.
- Each method is proved equal to a specification function: `Pages`, `Decide`, `Kept`, `CommitRows`, `PullRows`.
- The properties the source promises are lemmas about those functions.

The week key follows the code: it pairs the ISO 8601 week number with the **calendar** year, not with the ISO week-year. The ISO week number is computed as Python's `date.isocalendar()` does. `WeekDates.IsoCalendarSpec` proves this against ISO 8601's definition of week dates (ISO 8601:2004, section 4.1.4). Because of this pairing, December 30 and 31, 2024 (ISO week 1 of 2025) share the key `(1, 2024)` with the first week of January 2024 (`Repositories.YearEndCollision`). Pairing the week number with the ISO week-year would count them apart; the code does not.

Files:
- `wrappers.dfy`: `Option` and `Result`.
- `text.dfy`: ASCII `lower`, `in`, `strip`, `split()`, `re.findall(r"\w+")` and `join`.
- `week_dates.dfy`: Gregorian ordinals and ISO week dates.
- `repositories.dfy`: the records and the `_repo_is_valid` decision.
- `selection.dfy`: what `filter_repos` keeps.
- `rows.dfy`: the commit and pull-request rows.
- `collector.dfy`: the class.
- `classifier.dfy`: the Gemini classifier.

## Model

| member | source | states |
|---|---|---|
| Collector.GitHubCommitCollector.constructor | github_commit_collector.py:21-43 | Thresholds default to 200, 5, 5 and forks are excluded by default. Missing or empty keywords become ["student", "exercise", "tutorial"]. Both `repos` and `valid_repos` start empty (None). |
| Collector.GitHubCommitCollector.SearchRepos | github_commit_collector.py:45-53 | The loop over pages 1 to `max_pages` returns the concatenation `Pages` of the slices `[page*per_page - per_page, page*per_page)` of the ranking. |
| Collector.Slice | github_commit_collector.py:51 | A Python slice with non-negative bounds. Its length is the clamped width and it holds the elements from `lo` on. |
| Collector.PagesPrefix | github_commit_collector.py:49-53 | The concatenated pages are the first `min(max_pages*per_page, len)` results, in ranking order. They are empty when `max_pages < 1`. |
| Collector.GitHubCommitCollector.RepoIsValid | github_commit_collector.py:55-90 | The method's loops and early returns answer True exactly when `Decide` accepts the repository under `Config()`, the criteria made of the collector's own thresholds, keywords and fork flag. |
| Repositories.Decide | github_commit_collector.py:59-90 | The verdict is `ForkExcluded` iff forks are excluded and the repository is a fork. `KeywordExcluded` only when a keyword matches. |
| Repositories.AcceptedIff | github_commit_collector.py:59-90 | Accepted iff all five conditions hold: not an excluded fork, no keyword, at least `min_commits_2024` commits, at least `min_active_weeks` distinct keys, total words at least `min_avg_words * max(n, 1)`. |
| Repositories.ScreenedBeforeCommits | github_commit_collector.py:59-67 | An excluded fork or a keyword match is rejected. Replacing its commits does not change the verdict. |
| Repositories.KeywordText | github_commit_collector.py:64 | The screened text is the lower-cased name, a space, then the lower-cased description (or nothing). |
| Repositories.KeywordInNameOrDescription | github_commit_collector.py:64-65 | A keyword occurring, case-insensitively, in the name alone or in the description alone excludes the repository. |
| Repositories.EmptyKeywordExcludesAll | github_commit_collector.py:65 | An empty string among the keywords excludes every repository. |
| Repositories.FewCommitsRejected | github_commit_collector.py:76-78 | A screened-in repository with fewer than `min_commits_2024` commits is rejected for its commit count, whatever its weeks and words. |
| Repositories.FewWeeksRejected | github_commit_collector.py:81-83 | Fewer distinct week keys than `min_active_weeks` means rejection. |
| Repositories.ActiveWeeksAtMostDates | github_commit_collector.py:81 | There are never more distinct week keys than commit dates. |
| Repositories.ActiveWeeksIn2024 | github_commit_collector.py:81 | Dates of 2024 yield only keys (w, 2024) with 1 <= w <= 52, so at most 52 distinct keys. |
| Repositories.TooManyWeeksRequired | github_commit_collector.py:81-83 | With `min_active_weeks > 52`, every repository whose commits are all dated 2024 is rejected. |
| Repositories.YearEndCollision | github_commit_collector.py:81 | December 30 and 31, 2024 have key (1, 2024), the key of January 1, 2024, although their ISO year is 2025. |
| Repositories.WordCount | github_commit_collector.py:86 | The number of `\w+` runs in a message is at most its length. |
| Repositories.AverageWords | github_commit_collector.py:86 | The average is non-negative, and 0 for no messages (no division by zero). |
| Repositories.AverageBelowIff | github_commit_collector.py:86-87 | `avg < min_avg_words` iff the total word count is below `min_avg_words * max(n, 1)`. |
| Text.RunsCount | github_commit_collector.py:86 | The tokenizer returns one token per position where a class character follows a non-class character or the start. |
| Text.Lower | github_commit_collector.py:64 | The result has the same length and no upper-case letter. A character changes exactly when it is an upper-case letter, so text without upper-case letters is returned unchanged. |
| Text.LowerConcat | github_commit_collector.py:64 | Lower-casing distributes over concatenation. |
| Text.ContainsInConcat | github_commit_collector.py:64-65 | A substring of either part is a substring of the concatenation. |
| WeekDates.IsoCalendarSpec | github_commit_collector.py:81 | `isocalendar()` yields the ISO 8601 week date: the day lies in the ISO year whose week 1 began on or before it, counted from that year's Monday; week numbers are 1 to 53 and the ISO year is within one of the calendar year. |
| WeekDates.IsoYearLength | github_commit_collector.py:81 | Consecutive ISO years start 52 or 53 weeks apart. |
| WeekDates.Week1Monday | github_commit_collector.py:81 | Week 1 starts on a Monday and is the week holding January 4. |
| WeekDates.Calendar2024 | github_commit_collector.py:81 | January 1, 2024 is (2024, 1, 1). December 30 and 31, 2024 are (2025, 1, 1) and (2025, 1, 2). |
| WeekDates.Weeks2024 | github_commit_collector.py:81 | Every day of calendar 2024 has ISO week number 1 to 52. |
| Collector.GitHubCommitCollector.FilterRepos | github_commit_collector.py:92-108 | The loop with its seen-set stores `Kept(Acceptance(Config()), repos)` in `valid_repos`, where `Acceptance` is the predicate `RepoIsValid` answers. It leaves `repos` unchanged and returns nothing. |
| Selection.KeptSignatures | github_commit_collector.py:97-106 | The seen-set equals the signatures of the repositories accepted so far, so a rejected repository never adds its signature. |
| Selection.KeptStep | github_commit_collector.py:99-107 | One loop step appends the repository iff it is valid and its signature is unseen. The seen-set grows by its signature iff it is valid. |
| Selection.KeptAccepted | github_commit_collector.py:100-101 | Every kept repository is valid. |
| Selection.KeptDistinct | github_commit_collector.py:103-107 | No two kept repositories share `(full_name, size)`. |
| Selection.KeptAtPositions | github_commit_collector.py:96-107 | The kept list is the input at the kept positions. |
| Selection.KeptPositionsIncreasing | github_commit_collector.py:96-107 | The kept positions are increasing, so the result is an order-preserving subsequence. |
| Selection.KeptPositionsFirst | github_commit_collector.py:100-107 | A position is kept iff it holds the first valid occurrence of its signature. |
| Collector.GitHubCommitCollector.CollectCommits | github_commit_collector.py:110-127 | Without `valid_repos` iteration fails (TypeError). Otherwise the nested loops produce `CommitRows(valid_repos)`: for each repository its `RepoCommitRows`, one `CommitRowOf` per commit (full name, sha, author, date and the stripped message). |
| Rows.CommitRowMessage | github_commit_collector.py:124 | The stored message is the original minus leading and trailing whitespace only. It neither starts nor ends with whitespace and has the same words and tokens. |
| Rows.CommitRowAt | github_commit_collector.py:116-125 | Commit k of repository i gives row `TotalCommits(repos[..i]) + k`, which is `CommitRowOf(repos[i], commit k)`, and there are `TotalCommits(repos)` rows: one row per commit, grouped by repository in order. |
| Rows.CommitRowsAppend | github_commit_collector.py:116-125 | The rows of consecutive runs of repositories concatenate. |
| Collector.GitHubCommitCollector.CollectPullRequests | github_commit_collector.py:129-154 | `repos` defaults to the field. Iterating None fails (TypeError). Otherwise the loops produce `PullRows(repos)`, with the per-repository exception caught: for each repository its `RepoPullRows`, one `PullRowOf` per delivered pull request, with a missing body as "" and the author as `AuthorLogin` (the login, or "unknown" without a user). |
| Rows.Delivered | github_commit_collector.py:138-153 | Never more rows than pull requests. Fewer than all exactly when the listing raises before its end, and then as many as were listed before it raised. |
| Rows.FailureKeepsOtherRows | github_commit_collector.py:137-153 | A failure in one repository keeps the rows of all others. Its own rows are the prefix made before the failure. |
| Rows.PullRowsAppend | github_commit_collector.py:137-153 | The rows of consecutive runs of repositories concatenate. |
| Classifier.PromptEmbeds | generate_results_gemini.py:19-30 | The prompt contains the category list, the survey result and the commit message. |
| Classifier.CategoryList | generate_results_gemini.py:20 | The category list reads "Corrective, Adaptive, Perfective, Preventive, Development". |
| Classifier.ClassifyReply | generate_results_gemini.py:31-44 | Every answer is one of the five categories, "Unknown", "No response" or "Error". |
| Classifier.ClassifyCommit | generate_results_gemini.py:17-44 | Same range of answers for the full call. |
| Classifier.CategoryIffFirstToken | generate_results_gemini.py:35-39 | The answer is a category iff the reply's first whitespace token is one. It is then that token, case-sensitively. |
| Classifier.ReplyFirstToken | generate_results_gemini.py:35-39 | With leading whitespace, a token, then whitespace or the end: the answer is the token if it is a category, "Unknown" otherwise. |
| Classifier.CategoryReply | generate_results_gemini.py:35-37 | A reply that is a category surrounded by whitespace is classified as that category. |
| Classifier.OtherWordIsUnknown | generate_results_gemini.py:36-39 | A first token starting with no category's initial (for example a lower-case word) gives "Unknown". |
| Classifier.BlankReplyIsError | generate_results_gemini.py:35 | A non-empty whitespace-only reply gives "Error", because `split()[0]` raises. |
| Classifier.ReplyExamples | generate_results_gemini.py:31-44 | " Adaptive\nfixes a port" gives "Adaptive", "" gives "No response", and a failed call gives "Error". |
| Classifier.UnknownExamples | generate_results_gemini.py:36-39 | " corrective\n" and " Banana extra text" give "Unknown". |
| Classifier.ClassifyMultipleCommits | generate_results_gemini.py:46-52 | The loop stores each message's classification under the message, a later store replacing an earlier one. |
| Classifier.LastWinsSpec | generate_results_gemini.py:48-51 | The keys are exactly the distinct messages, and each value is the answer given at the message's last position. |
| Classifier.MultipleCommitsSpec | generate_results_gemini.py:48-52 | The dictionary's keys are exactly the distinct messages, and each is classified by the call for its last occurrence. With a model that answers every call alike, each value is `classify_commit(survey, message)`. |

## Left out

- Reading the configuration file, the missing-token `ValueError` and the API client setup are not modelled. Likewise the Gemini configuration, because they are I/O.
- Remote calls are replaced by input data:
  - The search ranking is data: the model assumes the search returns the same ranking for every page request.
  - `get_commits` (2024 window), `get_pulls`, `is_merged` and `generate_content` are data too.
  - The 2024 commits are fetched twice in the source, once in `_repo_is_valid` (line 73) and once in `collect_commits` (line 117). The model uses the single list `Repo.commits` for both, so it assumes both calls return the same commits.
- `print`, the tqdm progress bars and the `__main__` blocks produce output only.
- `run` is not modelled: it only searches and prints. The field `repos` is therefore set only by callers of the model.
- `generate_results_gpt.py` is not part of this model.
- The DataFrames are modelled as sequences of row records, and the result dictionary as a Dafny map. Column dtypes and pandas behaviour are not modelled.
- Exceptions raised by `get_commits` inside `_repo_is_valid` and `collect_commits` propagate in the source; the model has no such failure. Only the pull-request listing failure, which the source catches, is modelled.
- Collector.GitHubCommitCollector.SearchRepos: `per_page` is taken non-negative. Negative page sizes are outside the method's intended inputs and are not modelled.
- Characters are handled as ASCII: `\w`, `str.isspace`, `str.split()` and `str.lower()` are not modelled on non-ASCII Unicode.
- Repositories.AverageWords: the average is exact (a real), not a float. For the small counts involved the comparison with an integer threshold is the same.
- Commit dates are calendar dates in UTC; times of day and time zones are not modelled.
