# Telesense reports, modelled in Dafny

Telesense reads a snapshot of Ansible telemetry. The extractor writes one JSON file of
denormalised rows: jobs, clusters, hosts, modules and entitlements. The reporter loads
that file into a pandas frame and answers three questions about it:

- **Job-window summary** (`get_jobs_run_summary`). Among the jobs created in the last
  `n_days` days, how many ran, how many succeeded or failed, how many hosts they touched,
  plus the first five of them as a sample.
- **Top-N module ranking** (`get_top_modules_used`). Module invocation counts are summed
  per `(collection_name, module_name)`, ranked in descending order of sum, and cut to
  the first `top_n`.
- **Cluster compliance** (`get_cluster_compliance_summary`). For each
  `(job_org_id, job_cluster_id)` pair, the newest row (by `job_created_date`) is kept. The
  report counts how many of those rows say compliant and how many say non-compliant, and
  samples up to three non-compliant ones.

Each report is a pure function of the loaded table. The source works on a `.copy()` of the
global frame, so the model passes the table in as a value. It returns a `Result`: either the
counts and rows the report prints, or the reason it gives up.

- `telemetry.dfy` (module `Telemetry`): the row record, the table (its column names and its
  rows), the error values, and the column names of the extractor's query. It also holds the
  pandas operations the reports share: boolean-mask filtering, counting, `head(n)`
  (including pandas' negative `n`) and ASCII lower-casing.
- `jobs_summary.dfy` (module `JobsSummary`): the job window and its summary.
- `top_modules.dfy` (module `TopModules`): cleaning, the group-by sum, the descending sort
  and the ranking.
- `cluster_compliance.dfy` (module `ClusterCompliance`): the newest-first sort,
  `drop_duplicates` keeping the first row, and the compliance counts.

Three design points run through the model.

- **Unstable sorts.** Both `sort_values` calls use pandas' default quicksort, which is not
  stable. So the model does not fix an order among ties. The ghost predicates
  `TopModules.IsRanking` and `ClusterCompliance.IsLatestPerCluster` describe every result
  the sort may produce. The computed functions (insertion sorts) are proved to return one
  such result. Lemmas then show that what the report prints does not depend on the tie
  order: the sums at each rank, and the compliance counts when tied rows agree on the flag.
- **Uncaught errors.** The source checks some columns and returns a message. It indexes
  others directly, and a missing one raises `KeyError`. The model returns `KeyErrorRaised`
  for those paths: `job_created_timestamp` and `job_status` in the job summary, and
  `job_created_date`, `job_org_id` and `job_cluster_id` in the compliance report.
- **Column-name mismatch.** The extractor's query calls the compliance flag
  `cluster_is_compliant` (Telesense_data.py:47). The report looks for `is_compliant`
  (Telesense_analysis.py:111). `ClusterCompliance.SnapshotTakesMissingColumnPath` proves
  that on any table whose columns come from the query, the compliance report never gets
  past that check. The job and module reports do find their columns in such tables.

Four behaviours of the code are easy to miss, and the model keeps them:

- Ties in the module ranking have no fixed order. The default quicksort is not stable, so
  the model leaves the tie order free.
- The module report has a third message, "no valid module usage data after cleaning"
  (Telesense_analysis.py:92-93). The model returns it as `NoValidModules`.
- Besides the `KeyError` paths above, the job summary raises `OverflowError` when
  `datetime.now() - timedelta(days=n_days)` (Telesense_analysis.py:44) leaves the range of
  Python's datetime, or when `n_days` is beyond timedelta's limit of 999,999,999 days. The
  model returns `OverflowRaised` (`JobsSummary.WindowStartRepresentable`,
  `JobsSummary.HugeWindowOverflows`).
- `n_days` is not checked. A negative value gives an empty window, so the report says no
  job was found (`JobsSummary.NegativeWindowIsEmpty`).

## Model

| member | source | states |
|---|---|---|
| Telemetry.Filter | Telesense_analysis.py:46-49 | a boolean mask keeps at most the rows it was given, and every kept row satisfies the mask |
| Telemetry.FilterContents | Telesense_analysis.py:46-49 | a mask keeps every occurrence of a row that satisfies it and drops every row that does not |
| Telemetry.FilterAppend | Telesense_analysis.py:90 | masking a concatenation is the concatenation of the masked parts, so a row's fate does not depend on its position |
| Telemetry.CountDisjoint | Telesense_analysis.py:55-56 | two masks that never hold together count at most every row once (successful + failed <= total, true + false <= total) |
| Telemetry.Head | Telesense_analysis.py:70 | `head(n)` is a prefix of length min(len, n) for n >= 0 and len + n (at least 0) for negative n |
| Telemetry.LowerChar | Telesense_analysis.py:114 | an ASCII capital maps to the letter 32 code points above it; every other character is unchanged |
| Telemetry.Lower | Telesense_analysis.py:114 | `str.lower()` keeps the length and lower-cases each ASCII letter, leaving other characters alone |
| Telemetry.LowerIdempotent | Telesense_analysis.py:114 | normalising a flag that is already normalised changes nothing |
| Telemetry.BooleanRenderingsCollapse | Telesense_analysis.py:114 | "True", "TRUE" and "true" all normalise to "true"; the three spellings of false all normalise to "false" |
| Telemetry.KeysByCardinality | Telesense_analysis.py:118-122 | a sequence has at most as many distinct keys as elements, and exactly as many when no key repeats |
| Telemetry.FilterKeepsDistinct | Telesense_analysis.py:120-121 | masking deduplicated rows leaves them deduplicated, and a row survives exactly when it was present and satisfies the mask |
| Telemetry.ExtractorOmitsFlagColumn | Telesense_data.py:22-83 | no column of the extractor's query is named is_compliant |
| JobsSummary.RecentJobs | Telesense_analysis.py:40-49 | every row in the window has a parsed timestamp within [now - n_days days, now] |
| JobsSummary.RecentJobsContents | Telesense_analysis.py:40-49 | a row is in the window exactly as often as in the table when its timestamp parsed and lies in the window, and never otherwise |
| JobsSummary.RecentJobsInsert | Telesense_analysis.py:46-49 | a row added anywhere joins the window exactly when its own timestamp lies in it, and the other rows keep their order |
| JobsSummary.HostsTouchedAppend | Telesense_analysis.py:58 | the host sum over two row lists is the sum of their host sums |
| JobsSummary.JobsRunSummary | Telesense_analysis.py:32-72 | an empty table gives "no telemetry"; a missing timestamp column raises KeyError; a window start outside the datetime range raises OverflowError; otherwise the result is "no job data" exactly when the window is empty, and a non-empty window without job_status raises KeyError; on success total is the window size (> 0, so the rate line is always printed), successful and failed are the counts (`Count`) of window rows whose status is "successful" and "failed" (:55-56), successful + failed <= total, the sample is the window's first min(5, total) rows in table order, and the host sum is `HostsTouched` of the window (:58), or 0 without the job_host_count column |
| JobsSummary.OutsideRowsNeverContribute | Telesense_analysis.py:40-49 | a row whose timestamp did not parse or lies outside the window leaves the whole report unchanged wherever it is inserted |
| JobsSummary.WindowRowIsCounted | Telesense_analysis.py:54-58 | a row inside the window adds one to the total, one to the successful or failed count its status names, and its host count to the host sum |
| JobsSummary.CountInsert | Telesense_analysis.py:55-56 | a row inserted between two lists adds one to the count of a mask it satisfies and nothing otherwise |
| JobsSummary.ThirtyDayWindowExample | Telesense_analysis.py:32-56 | jobs created now, a day ago and 40 days ago, with n_days = 30, count 2 jobs, 2 successful and 0 failed |
| JobsSummary.SnapshotNeverRaisesKeyError | Telesense_analysis.py:40-55 | on a table with the extractor's columns the job summary never raises KeyError: it reports no telemetry, overflows on the window start, finds no job in the window, or summarises |
| JobsSummary.NegativeWindowIsEmpty | Telesense_analysis.py:43-52 | a negative n_days gives an empty window and the "no job data" result, or OverflowError when the start lies past the last datetime |
| JobsSummary.HugeWindowOverflows | Telesense_analysis.py:44 | n_days above 999,999,999 raises OverflowError whatever the clock says |
| TopModules.CleanRows | Telesense_analysis.py:90 | every row kept by cleaning has a module name other than "" and "nan" |
| TopModules.SumForAbsent | Telesense_analysis.py:95 | a pair with no rows sums to 0 |
| TopModules.Accumulate | Telesense_analysis.py:95 | adding a count to a group list adds its key, keeps keys distinct, leaves the other groups alone, and adds the count to that key's group |
| TopModules.GroupSums | Telesense_analysis.py:95 | the group-by gives one group per (collection, module) pair of the rows, none twice, each holding the sum of its rows' coerced counts |
| TopModules.InsertByTotal | Telesense_analysis.py:96 | inserting a group into a list adds exactly that group |
| TopModules.InsertByTotalSorted | Telesense_analysis.py:96 | inserting into a list in non-increasing order of sum keeps that order |
| TopModules.InsertByTotalKeys | Telesense_analysis.py:96 | inserting a group adds its key, and keeps keys distinct when the key is new |
| TopModules.SortByTotal | Telesense_analysis.py:96 | the descending sort returns a permutation of the groups in non-increasing order of sum, with the same keys |
| TopModules.RankedGroupsAreRanking | Telesense_analysis.py:95-96 | the sorted, truncated groups are a ranking: real pairs with exact sums, no pair twice, sums non-increasing, head's length, and no group left out has a larger sum than any group kept |
| TopModules.TopModulesUsed | Telesense_analysis.py:74-100 | an empty table gives "no telemetry"; a missing module column gives the missing-columns message; no row surviving cleaning gives "no valid module data"; otherwise the result is a ranking of the cleaned rows |
| TopModules.SumForInsert | Telesense_analysis.py:88-95 | a row adds its coerced count (0 when not numeric) to its own pair's sum and nothing to any other pair's |
| TopModules.RankingSumsDetermined | Telesense_analysis.py:96 | any two rankings of the same rows have the same length and the same sum at every position, whatever the tie order |
| TopModules.KeyOutsidePrefix | Telesense_analysis.py:96 | of the first i + 1 distinct pairs of one ranking, at least one is not among the first i pairs of another list |
| TopModules.DroppedRowsNeverContribute | Telesense_analysis.py:90 | a row named "" or "nan" leaves the report unchanged wherever it is inserted into a non-empty table |
| TopModules.TopTwoExample | Telesense_analysis.py:74-96 | rows (A, x, 5), (A, x, 3), (B, y, 10) with top_n = 2 rank (B, y, 10) first and (A, x, 8) second |
| TopModules.SnapshotHasModuleColumns | Telesense_analysis.py:83-84 | a table with the extractor's columns never gets the missing-module-columns message |
| TopModules.NoneRenderedNamesAreKept | Telesense_analysis.py:87-90 | a module name rendered "None" (a JSON null) survives cleaning and its row is appended to the cleaned rows |
| ClusterCompliance.InsertByDate | Telesense_analysis.py:117 | inserting a row adds exactly that row |
| ClusterCompliance.InsertByDateSorted | Telesense_analysis.py:117 | inserting into a newest-first list keeps it newest first, with missing dates last |
| ClusterCompliance.SortByDate | Telesense_analysis.py:117 | the sort returns a permutation of the rows, newest first, missing dates last |
| ClusterCompliance.KeepFirst | Telesense_analysis.py:118 | drop_duplicates keeps one row of the input per pair and covers every pair; on newest-first input the result stays newest first and holds a newest row of each pair |
| ClusterCompliance.KeepFirstPositions | Telesense_analysis.py:118 | drop_duplicates(keep='first') keeps, in input order, exactly the rows that are the first of their pair: the kept positions increase, each is a first occurrence, and every first occurrence is kept |
| ClusterCompliance.LatestPerCluster | Telesense_analysis.py:117-118 | sort-then-deduplicate yields one table row per (org, cluster) pair, each with its pair's newest date, newest first |
| ClusterCompliance.NonCompliantSample | Telesense_analysis.py:131-134 | the sample is the first min(3, non-compliant count) non-compliant deduplicated rows, in order, so it is empty exactly when there is no non-compliant cluster |
| ClusterCompliance.ClusterComplianceSummary | Telesense_analysis.py:102-136 | an empty table gives "no telemetry"; a missing is_compliant column gives the missing-column message; missing date or id columns raise a KeyError naming the missing ones; otherwise there is an admissible deduplication (newest row per pair, any tie order) whose size is total, whose counts (`Count`) of "true" and "false" rows are compliant and non-compliant (:120-122), and whose first min(3, non-compliant) non-compliant rows are the sample (:134); total is the number of distinct pairs (> 0) and compliant + non-compliant <= total |
| ClusterCompliance.CountsIndependentOfTieOrder | Telesense_analysis.py:117-121 | when the rows of a pair that share its newest date agree on the flag (older rows may disagree), every tie order gives the same total and the same counts |
| ClusterCompliance.KeptRowIsNewest | Telesense_analysis.py:117-118 | a row an admissible deduplication keeps carries its pair's newest date |
| ClusterCompliance.OlderConflictsAreAllowed | Telesense_analysis.py:117-118 | the tie condition ignores older dates: a pair compliant and non-compliant on day 1 and compliant on day 2 satisfies it |
| ClusterCompliance.NewestDatesAgree | Telesense_analysis.py:117-118 | any two admissible deduplications keep, for a given pair, rows with the same date |
| ClusterCompliance.SummaryCountsAnyLatestRows | Telesense_analysis.py:117-122 | under the same newest-date tie condition, the report's counts are those of every admissible deduplication |
| ClusterCompliance.SnapshotTakesMissingColumnPath | Telesense_analysis.py:106-112 | a table whose columns all come from the extractor's query gives either "no telemetry" or the missing is_compliant message |
| ClusterCompliance.NewestRowWinsExample | Telesense_analysis.py:114-122 | a pair non-compliant on 2024-01-01 and compliant on 2024-06-01 counts as one compliant cluster out of one |

## Left out

- The module-level loader (Telesense_analysis.py:12-27) reads the snapshot file and handles missing or corrupt JSON. This is file I/O; the model takes the loaded table as a parameter.
- Telesense_data.py is not part of this model (database connection, chunked fetching, JSON writing). Only its query's column names are used.
- `datetime.now()` becomes the parameter `now`. Timestamps are already-parsed whole seconds; `None` stands for a value `pd.to_datetime(..., errors='coerce')` could not parse. Sub-second precision and time zones are not modelled.
- `job_created_date` is a day number, and `None` stands for a missing date. Pandas puts missing dates last in a descending sort, and so does the model.
- Text formatting is not modelled: the percentage rates, the `:.0f` host sum and the markdown tables. The reports return integer counts and the sample rows instead.
- Which columns of the sample rows are printed (Telesense_analysis.py:69, :133) is not modelled. The model returns whole rows.
- The group order produced by `groupby` (sorted by key) is not modelled. The ranking predicate admits every order of tied sums, which covers it.
- JobsSummary.JobsRunSummary: host counts and invocation counts are integers. The source's float sums and NaN handling are modelled only as "a missing value counts 0".
- `astype(str)` rendering of arbitrary values is not modelled. Names and the compliance flag are given as their string renderings. A module name the extractor wrote as JSON null renders "None" and survives cleaning (`TopModules.NoneRenderedNamesAreKept`); only a float NaN renders "nan" and is dropped.
- Telemetry.Lower: lower-cases ASCII letters only, not the full Unicode case mapping of Python's `str.lower()`.
