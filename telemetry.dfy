/** The loaded telemetry table that the three reports read, and the small
    sequence operations (filter, count, head, lower-casing) they share. */
module Telemetry {

  datatype Option<T> = None | Some(value: T) {
    function GetOr(default: T): T {
      match this
      case Some(v) => v
      case None => default
    }
  }

  /** Which report gave up on an empty table. */
  datatype Report = Jobs | Modules | Compliance

  /** The ways a report ends without a summary. Every one of them is a value
      returned to the caller except KeyErrorRaised, which stands for the
      uncaught KeyError the source raises when it indexes a missing column,
      and OverflowRaised, which stands for the uncaught OverflowError of a
      date computation that leaves the range of Python's datetime. */
  datatype ReportError =
    | NoTelemetry(report: Report)           // the loaded table is empty
    | NoJobsInWindow(nDays: int)            // no parsed timestamp in the window
    | MissingColumns(required: seq<string>) // a required column is absent
    | NoValidModules                        // every module name was "" or "nan"
    | KeyErrorRaised(columns: set<string>)  // the source raises KeyError
    | OverflowRaised                        // the source raises OverflowError

  datatype Result<T> = Ok(value: T) | Err(error: ReportError)

  /** One row of the snapshot, reduced to the fields the reports read.
      - jobCreatedTimestamp: job_created_timestamp after parsing, in seconds;
        None when the value could not be parsed (it becomes NaT).
      - jobCreatedDate: job_created_date as a day number; None when missing.
      - collectionName, moduleName, isCompliant: the value's string rendering.
      - moduleInvocationCount: None when the value is not numeric.
      - jobHostCount: None when missing (pandas' sum skips it). */
  datatype Record = Record(
    jobCreatedTimestamp: Option<int>,
    jobCreatedDate: Option<int>,
    jobStatus: string,
    jobHostCount: Option<int>,
    jobOrgId: Option<int>,
    jobClusterId: Option<int>,
    collectionName: string,
    moduleName: string,
    moduleInvocationCount: Option<int>,
    isCompliant: string,
    towerVersion: string,
    clusterUrl: string)

  /** The loaded frame: its column names and its rows in snapshot order.
      A field of a record whose column is absent carries no meaning. */
  datatype Table = Table(columns: set<string>, rows: seq<Record>)

  /** pandas calls a frame empty when either axis has length zero. */
  predicate IsEmptyFrame(t: Table) {
    |t.rows| == 0 || t.columns == {}
  }

  const JobCreatedTimestamp := "job_created_timestamp"
  const JobCreatedDate := "job_created_date"
  const JobStatus := "job_status"
  const JobHostCount := "job_host_count"
  const JobOrgId := "job_org_id"
  const JobClusterId := "job_cluster_id"
  const CollectionName := "collection_name"
  const ModuleName := "module_name"
  const ModuleInvocationCount := "module_invocation_count"
  const IsCompliant := "is_compliant"

  /** The column names the extractor's query gives every snapshot row,
      grouped by the table each one comes from. */
  const ExtractorColumns: set<string> :=
    JobInfoColumns + JobRollupColumns + ClusterInfoColumns + HostColumns
    + ModuleColumns + LightspeedColumns + EntitlementColumns

  const JobInfoColumns: set<string> := {
    "job_created_timestamp", "job_created_date", "job_id", "job_name",
    "job_status", "job_failed_flag", "job_elapsed_seconds", "launch_type",
    "job_org_id", "job_cluster_id"
  }
  const JobRollupColumns: set<string> := {
    "job_host_count", "job_ok_host_count", "job_failed_host_count",
    "job_task_count", "job_task_ok_count", "job_task_failed_count",
    "job_avg_elapsed_per_host"
  }
  const ClusterInfoColumns: set<string> := {
    "tower_version", "license_type", "total_licensed_instances",
    "cluster_automated_instances", "cluster_current_inventory_hosts",
    "cluster_is_compliant", "subscription_name", "cluster_in_trial_flag",
    "cluster_url"
  }
  const HostColumns: set<string> := {
    "daily_host_failed_count", "daily_host_success_count", "daily_host_total_count",
    "daily_host_activity_id", "daily_host_activity_date",
    "host_metric_hostname", "host_metric_deleted_flag",
    "host_metric_automation_count", "host_metric_last_seen"
  }
  const ModuleColumns: set<string> := {
    "collection_name", "module_name", "module_invocation_count"
  }
  const LightspeedColumns: set<string> := {
    "lightspeed_feedback_rating", "lightspeed_feedback_model",
    "lightspeed_recommendation_action", "lightspeed_rec_collection_name",
    "lightspeed_rec_module_name"
  }
  const EntitlementColumns: set<string> := {
    "customer_global_name", "entl_nodes_type", "customer_entitled_nodes",
    "entitlement_start_date", "entitlement_end_date", "entitlement_status",
    "has_entl_info", "cyq"
  }

  /** The query names the compliance flag cluster_is_compliant, never is_compliant. */
  lemma ExtractorOmitsFlagColumn()
    ensures IsCompliant !in ExtractorColumns
  {
    FlagNotAmongJobColumns();
    FlagNotAmongClusterColumns();
    FlagNotAmongOtherColumns();
  }

  lemma FlagNotAmongJobColumns()
    ensures IsCompliant !in JobInfoColumns && IsCompliant !in JobRollupColumns
  {
  }

  lemma FlagNotAmongClusterColumns()
    ensures IsCompliant !in ClusterInfoColumns && IsCompliant !in HostColumns
  {
  }

  lemma FlagNotAmongOtherColumns()
    ensures IsCompliant !in ModuleColumns + LightspeedColumns + EntitlementColumns
  {
  }

  function Min(a: int, b: int): int { if a <= b then a else b }
  function Max(a: int, b: int): int { if a >= b then a else b }

  /** The rows of s that satisfy p, in their original order (a boolean mask). */
  function Filter<T(!new)>(s: seq<T>, p: T -> bool): (r: seq<T>)
    ensures |r| <= |s|
    ensures forall i :: 0 <= i < |r| ==> p(r[i])
  {
    if s == [] then []
    else if p(s[0]) then [s[0]] + Filter(s[1..], p) else Filter(s[1..], p)
  }

  /** A filter keeps every occurrence of a row that satisfies p, and nothing else. */
  lemma {:induction false} FilterContents<T(!new)>(s: seq<T>, p: T -> bool)
    ensures forall x :: multiset(Filter(s, p))[x] == if p(x) then multiset(s)[x] else 0
  {
    if s != [] {
      FilterContents(s[1..], p);
      assert s == [s[0]] + s[1..];
    }
  }

  lemma {:induction false} FilterAppend<T(!new)>(a: seq<T>, b: seq<T>, p: T -> bool)
    ensures Filter(a + b, p) == Filter(a, p) + Filter(b, p)
  {
    if a != [] {
      var ab := a + b;
      assert ab[0] == a[0] && ab[1..] == a[1..] + b;
      FilterAppend(a[1..], b, p);
      if p(a[0]) {
        calc {
          Filter(ab, p);
          [a[0]] + Filter(a[1..] + b, p);
          [a[0]] + (Filter(a[1..], p) + Filter(b, p));
          ([a[0]] + Filter(a[1..], p)) + Filter(b, p);
        }
      }
    } else {
      assert a + b == b;
    }
  }

  /** The number of rows of s that satisfy p (a mask's `.shape[0]`). */
  function Count<T(!new)>(s: seq<T>, p: T -> bool): nat {
    |Filter(s, p)|
  }

  /** Two masks that never hold together select at most every row once. */
  lemma {:induction false} CountDisjoint<T(!new)>(s: seq<T>, p: T -> bool, q: T -> bool)
    requires forall i :: 0 <= i < |s| ==> !(p(s[i]) && q(s[i]))
    ensures Count(s, p) + Count(s, q) <= |s|
  {
    if s != [] {
      CountDisjoint(s[1..], p, q);
    }
  }

  /** The length of `head(n)` on n rows: pandas keeps the first n rows, and
      for a negative n every row except the last -n. */
  function HeadLength(len: nat, n: int): nat {
    if n >= 0 then Min(len, n) else Max(0, len + n)
  }

  /** `DataFrame.head(n)`. */
  function Head<T>(s: seq<T>, n: int): (r: seq<T>)
    ensures |r| == HeadLength(|s|, n) && r == s[..|r|]
    ensures n >= 0 ==> |r| <= n
  {
    s[..HeadLength(|s|, n)]
  }

  /** ASCII lower-casing of one character. */
  function LowerChar(c: char): (d: char)
    ensures 'A' <= c <= 'Z' ==> d as int == c as int + 32
    ensures !('A' <= c <= 'Z') ==> d == c
  {
    if 'A' <= c <= 'Z' then (c as int - 'A' as int + 'a' as int) as char else c
  }

  /** `str.lower()` on the rendered value, for ASCII text. */
  function Lower(s: string): (r: string)
    ensures |r| == |s|
    ensures forall i :: 0 <= i < |s| ==> r[i] == LowerChar(s[i])
  {
    if s == [] then [] else [LowerChar(s[0])] + Lower(s[1..])
  }

  /** Lower-casing twice is lower-casing once. */
  lemma {:induction false} LowerIdempotent(s: string)
    ensures Lower(Lower(s)) == Lower(s)
  {
    if s != [] {
      LowerIdempotent(s[1..]);
      assert Lower(s)[1..] == Lower(s[1..]);
    }
  }

  /** Every spelling of a boolean the source meets collapses to one value. */
  lemma BooleanRenderingsCollapse()
    ensures Lower("True") == Lower("TRUE") == Lower("true") == "true"
    ensures Lower("False") == Lower("FALSE") == Lower("false") == "false"
  {
  }

  /** No two elements of s share a key. */
  ghost predicate DistinctBy<T, K>(s: seq<T>, key: T -> K) {
    forall i, j :: 0 <= i < j < |s| ==> key(s[i]) != key(s[j])
  }

  /** The keys that occur in s. */
  function KeysBy<T(==), K>(s: seq<T>, key: T -> K): set<K> {
    set x | x in s :: key(x)
  }

  lemma KeysByCons<T, K>(s: seq<T>, key: T -> K)
    requires s != []
    ensures KeysBy(s, key) == {key(s[0])} + KeysBy(s[1..], key)
  {
    assert forall x :: x in s <==> x == s[0] || x in s[1..] by {
      assert s == [s[0]] + s[1..];
    }
  }

  /** Each key is counted once, so there are no more keys than elements, and
      exactly as many when no key repeats. */
  lemma {:induction false} KeysByCardinality<T, K>(s: seq<T>, key: T -> K)
    ensures |KeysBy(s, key)| <= |s|
    ensures DistinctBy(s, key) ==> |KeysBy(s, key)| == |s|
  {
    if s != [] {
      KeysByCardinality(s[1..], key);
      KeysByCons(s, key);
      if DistinctBy(s, key) {
        assert DistinctBy(s[1..], key) by {
          forall i, j | 0 <= i < j < |s[1..]| ensures key(s[1..][i]) != key(s[1..][j]) {
            assert s[1..][i] == s[i + 1] && s[1..][j] == s[j + 1];
          }
        }
        assert key(s[0]) !in KeysBy(s[1..], key);
      }
    }
  }

  /** A filter keeps only rows of s, so it repeats no key that s does not. */
  lemma {:induction false} FilterKeepsDistinct<T(!new), K>(s: seq<T>, p: T -> bool, key: T -> K)
    requires DistinctBy(s, key)
    ensures DistinctBy(Filter(s, p), key)
    ensures forall x :: x in Filter(s, p) <==> x in s && p(x)
  {
    if s != [] {
      FilterKeepsDistinct(s[1..], p, key);
      assert DistinctBy(s[1..], key) by {
        forall i, j | 0 <= i < j < |s[1..]| ensures key(s[1..][i]) != key(s[1..][j]) {
          assert s[1..][i] == s[i + 1] && s[1..][j] == s[j + 1];
        }
      }
      assert s == [s[0]] + s[1..];
      var rest := Filter(s[1..], p);
      if p(s[0]) {
        var r := [s[0]] + rest;
        forall i, j | 0 <= i < j < |r| ensures key(r[i]) != key(r[j]) {
          if i == 0 {
            var m :| 0 <= m < |s[1..]| && s[1..][m] == r[j];
            assert s[m + 1] == r[j];
          } else {
            assert r[i] == rest[i - 1] && r[j] == rest[j - 1];
          }
        }
      }
    }
  }
}
