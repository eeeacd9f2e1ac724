/** The job-window summary: how many jobs ran in the last n days, how many
    succeeded or failed, and how many hosts they touched. */
module JobsSummary {
  import opened Telemetry

  const SecondsPerDay := 86400
  /** The report shows the first this-many window rows as a sample. */
  const SampleSize := 5

  datatype JobStats = JobStats(
    total: nat,
    successful: nat,
    failed: nat,
    hostsTouched: int,
    sample: seq<Record>)

  /** The first and last whole seconds a Python datetime can hold, counted
      from 1970-01-01 00:00:00: 0001-01-01 00:00:00 and 9999-12-31 23:59:59. */
  const MinDatetime := -62135596800
  const MaxDatetime := 253402300799
  /** `timedelta(days=n)` accepts no larger magnitude of n. */
  const MaxTimedeltaDays := 999999999

  /** `now - timedelta(days=nDays)` is computed without OverflowError: the
      timedelta exists and the start of the window is a datetime. */
  predicate WindowStartRepresentable(now: int, nDays: int) {
    && -MaxTimedeltaDays <= nDays <= MaxTimedeltaDays
    && MinDatetime <= now - nDays * SecondsPerDay <= MaxDatetime
  }

  /** The timestamp parsed and lies in [now - nDays days, now], both ends included. */
  predicate InWindow(now: int, nDays: int, r: Record) {
    && r.jobCreatedTimestamp.Some?
    && now - nDays * SecondsPerDay <= r.jobCreatedTimestamp.value <= now
  }

  /** The window test as a mask over rows. */
  function WindowMask(now: int, nDays: int): Record -> bool {
    r => InWindow(now, nDays, r)
  }

  predicate Succeeded(r: Record) { r.jobStatus == "successful" }
  predicate Failed(r: Record) { r.jobStatus == "failed" }

  /** The rows of the window, in table order. */
  function RecentJobs(rows: seq<Record>, now: int, nDays: int): (w: seq<Record>)
    ensures forall i :: 0 <= i < |w| ==> InWindow(now, nDays, w[i])
  {
    Filter(rows, WindowMask(now, nDays))
  }

  /** A row is in the window as often as it is in the table when its
      timestamp parsed and lies in the window, and never otherwise. */
  lemma RecentJobsContents(rows: seq<Record>, now: int, nDays: int)
    ensures forall x :: multiset(RecentJobs(rows, now, nDays))[x]
                        == if InWindow(now, nDays, x) then multiset(rows)[x] else 0
  {
    FilterContents(rows, WindowMask(now, nDays));
  }

  /** A row added anywhere joins the window exactly when its own timestamp is in it. */
  lemma RecentJobsInsert(rows: seq<Record>, i: nat, r: Record, now: int, nDays: int)
    requires i <= |rows|
    ensures RecentJobs(rows[..i] + [r] + rows[i..], now, nDays)
         == RecentJobs(rows[..i], now, nDays)
            + (if InWindow(now, nDays, r) then [r] else [])
            + RecentJobs(rows[i..], now, nDays)
    ensures RecentJobs(rows, now, nDays) == RecentJobs(rows[..i], now, nDays) + RecentJobs(rows[i..], now, nDays)
  {
    var p := WindowMask(now, nDays);
    FilterAppend(rows[..i] + [r], rows[i..], p);
    FilterAppend(rows[..i], [r], p);
    assert Filter([r], p) == if p(r) then [r] else [] by {
      assert [r][1..] == [];
    }
    assert rows == rows[..i] + rows[i..];
    FilterAppend(rows[..i], rows[i..], p);
  }

  /** The sum of job_host_count over the rows; missing values are skipped. */
  function HostsTouched(rows: seq<Record>): int {
    if rows == [] then 0 else rows[0].jobHostCount.GetOr(0) + HostsTouched(rows[1..])
  }

  lemma {:induction false} HostsTouchedAppend(a: seq<Record>, b: seq<Record>)
    ensures HostsTouched(a + b) == HostsTouched(a) + HostsTouched(b)
  {
    if a != [] {
      assert (a + b)[1..] == a[1..] + b;
      HostsTouchedAppend(a[1..], b);
    } else {
      assert a + b == b;
    }
  }

  /** get_jobs_run_summary(n_days) at the moment `now` (seconds). */
  function JobsRunSummary(t: Table, now: int, nDays: int): (r: Result<JobStats>)
    ensures IsEmptyFrame(t) ==> r == Err(NoTelemetry(Jobs))
    ensures !IsEmptyFrame(t) && JobCreatedTimestamp !in t.columns
            ==> r == Err(KeyErrorRaised({JobCreatedTimestamp}))
    ensures !IsEmptyFrame(t) && JobCreatedTimestamp in t.columns
            ==> (r == Err(OverflowRaised) <==> !WindowStartRepresentable(now, nDays))
    ensures !IsEmptyFrame(t) && JobCreatedTimestamp in t.columns && WindowStartRepresentable(now, nDays)
            ==> (r == Err(NoJobsInWindow(nDays)) <==> RecentJobs(t.rows, now, nDays) == [])
    ensures !IsEmptyFrame(t) && JobCreatedTimestamp in t.columns && WindowStartRepresentable(now, nDays)
            && RecentJobs(t.rows, now, nDays) != [] && JobStatus !in t.columns
            ==> r == Err(KeyErrorRaised({JobStatus}))
    ensures r.Ok? <==> !IsEmptyFrame(t) && JobCreatedTimestamp in t.columns && JobStatus in t.columns
                       && WindowStartRepresentable(now, nDays) && RecentJobs(t.rows, now, nDays) != []
    ensures r.Ok? ==>
              var w := RecentJobs(t.rows, now, nDays);
              && r.value.total == |w| > 0
              && r.value.successful == Count(w, Succeeded)
              && r.value.failed == Count(w, Failed)
              && r.value.successful + r.value.failed <= r.value.total
              && r.value.sample == w[..Min(SampleSize, r.value.total)]
              && r.value.hostsTouched == (if JobHostCount in t.columns then HostsTouched(w) else 0)
  {
    if IsEmptyFrame(t) then Err(NoTelemetry(Jobs))
    else if JobCreatedTimestamp !in t.columns then Err(KeyErrorRaised({JobCreatedTimestamp}))
    else if !WindowStartRepresentable(now, nDays) then Err(OverflowRaised)
    else
      var w := RecentJobs(t.rows, now, nDays);
      if w == [] then Err(NoJobsInWindow(nDays))
      else if JobStatus !in t.columns then Err(KeyErrorRaised({JobStatus}))
      else
        CountDisjoint(w, Succeeded, Failed);
        Ok(JobStats(
          |w|,
          Count(w, Succeeded),
          Count(w, Failed),
          if JobHostCount in t.columns then HostsTouched(w) else 0,
          Head(w, SampleSize)))
  }

  /** A row whose timestamp did not parse, or lies outside the window, changes
      nothing in the report wherever it is added to a non-empty table. */
  lemma OutsideRowsNeverContribute(t: Table, i: nat, r: Record, now: int, nDays: int)
    requires !IsEmptyFrame(t) && i <= |t.rows|
    requires !InWindow(now, nDays, r)
    ensures JobsRunSummary(Table(t.columns, t.rows[..i] + [r] + t.rows[i..]), now, nDays)
         == JobsRunSummary(t, now, nDays)
  {
    var t' := Table(t.columns, t.rows[..i] + [r] + t.rows[i..]);
    RecentJobsInsert(t.rows, i, r, now, nDays);
    assert RecentJobs(t'.rows, now, nDays) == RecentJobs(t.rows, now, nDays);
    assert !IsEmptyFrame(t');
  }

  /** A row in the window adds one job to the total, one to the successful or
      failed count its status names, and its hosts to the host sum. */
  lemma WindowRowIsCounted(t: Table, i: nat, r: Record, now: int, nDays: int)
    requires JobCreatedTimestamp in t.columns && JobStatus in t.columns && JobHostCount in t.columns
    requires i <= |t.rows| && InWindow(now, nDays, r)
    requires JobsRunSummary(t, now, nDays).Ok?
    ensures var before := JobsRunSummary(t, now, nDays).value;
            var after := JobsRunSummary(Table(t.columns, t.rows[..i] + [r] + t.rows[i..]), now, nDays);
            && after.Ok?
            && after.value.total == before.total + 1
            && after.value.successful == before.successful + (if r.jobStatus == "successful" then 1 else 0)
            && after.value.failed == before.failed + (if r.jobStatus == "failed" then 1 else 0)
            && after.value.hostsTouched == before.hostsTouched + r.jobHostCount.GetOr(0)
  {
    var rows := t.rows;
    RecentJobsInsert(rows, i, r, now, nDays);
    var a, b := RecentJobs(rows[..i], now, nDays), RecentJobs(rows[i..], now, nDays);
    assert [r][1..] == [];
    HostsTouchedAppend(a + [r], b);
    HostsTouchedAppend(a, [r]);
    HostsTouchedAppend(a, b);
    CountInsert(a, r, b, Succeeded);
    CountInsert(a, r, b, Failed);
  }

  /** A row placed between two lists is counted once when it satisfies p. */
  lemma CountInsert(a: seq<Record>, r: Record, b: seq<Record>, p: Record -> bool)
    ensures Count(a + [r] + b, p) == Count(a + b, p) + (if p(r) then 1 else 0)
  {
    FilterAppend(a + [r], b, p);
    FilterAppend(a, [r], p);
    FilterAppend(a, b, p);
    assert [r][1..] == [];
  }

  /** Three jobs created now, a day ago and 40 days ago, two of them
      successful: a 30-day window counts the first two. */
  lemma ThirtyDayWindowExample(now: int)
    requires MinDatetime + 30 * SecondsPerDay <= now <= MaxDatetime
    ensures var today := JobRow(now, "successful");
            var yesterday := JobRow(now - SecondsPerDay, "successful");
            var stale := JobRow(now - 40 * SecondsPerDay, "failed");
            var r := JobsRunSummary(Table({JobCreatedTimestamp, JobStatus}, [today, yesterday, stale]), now, 30);
            r.Ok? && r.value.total == 2 && r.value.successful == 2 && r.value.failed == 0
  {
    var today := JobRow(now, "successful");
    var yesterday := JobRow(now - SecondsPerDay, "successful");
    var stale := JobRow(now - 40 * SecondsPerDay, "failed");
    var rows := [today, yesterday, stale];
    var p := WindowMask(now, 30);
    assert rows[1..] == [yesterday, stale] && rows[1..][1..] == [stale] && [stale][1..] == [];
    assert Filter([stale], p) == [];
    assert Filter(rows[1..], p) == [yesterday];
    assert RecentJobs(rows, now, 30) == [today, yesterday];
    var w := [today, yesterday];
    assert w[1..] == [yesterday] && [yesterday][1..] == [];
    assert Filter(w, Succeeded) == w;
    assert Filter([yesterday], Failed) == [];
    assert Filter(w, Failed) == [];
  }

  /** A job row with only a timestamp and a status. */
  function JobRow(ts: int, status: string): Record {
    Record(Some(ts), None, status, None, None, None, "", "", None, "", "", "")
  }

  /** A snapshot written by the extractor carries every column this report
      indexes, so the report never raises KeyError: it finds no telemetry,
      overflows on the window start, finds no job in the window, or summarises. */
  lemma SnapshotNeverRaisesKeyError(t: Table, now: int, nDays: int)
    requires ExtractorColumns <= t.columns
    ensures JobsRunSummary(t, now, nDays).Err? ==>
              JobsRunSummary(t, now, nDays).error
                in {NoTelemetry(Jobs), OverflowRaised, NoJobsInWindow(nDays)}
  {
    assert JobCreatedTimestamp in JobInfoColumns && JobStatus in JobInfoColumns;
  }

  /** The source does not reject a negative n_days: the window then starts
      after `now` and holds no row, so the report says no job was found,
      unless the start lies beyond the last representable datetime. */
  lemma NegativeWindowIsEmpty(t: Table, now: int, nDays: int)
    requires nDays < 0 && !IsEmptyFrame(t) && JobCreatedTimestamp in t.columns
    ensures JobsRunSummary(t, now, nDays)
         == Err(if WindowStartRepresentable(now, nDays) then NoJobsInWindow(nDays) else OverflowRaised)
  {
    var w := RecentJobs(t.rows, now, nDays);
    assert w == [] by {
      assert |w| == 0 || InWindow(now, nDays, w[0]);
    }
  }

  /** n_days of a billion overflows whatever the clock says. */
  lemma HugeWindowOverflows(t: Table, now: int)
    requires !IsEmptyFrame(t) && JobCreatedTimestamp in t.columns
    ensures JobsRunSummary(t, now, MaxTimedeltaDays + 1) == Err(OverflowRaised)
  {
  }
}
