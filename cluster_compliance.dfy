/** The cluster compliance summary: the newest row of each
    (job_org_id, job_cluster_id) pair, counted by its compliance flag. */
module ClusterCompliance {
  import opened Telemetry

  /** The report shows at most this many non-compliant clusters. */
  const SampleSize := 3

  datatype ClusterKey = ClusterKey(org: Option<int>, cluster: Option<int>)

  datatype ComplianceStats = ComplianceStats(
    total: nat,
    compliant: nat,
    nonCompliant: nat,
    sample: seq<Record>)

  /** Missing ids compare equal to each other, as drop_duplicates treats NaN. */
  function KeyOf(r: Record): ClusterKey {
    ClusterKey(r.jobOrgId, r.jobClusterId)
  }

  /** The flag after `astype(str).str.lower()`. */
  function Normalised(r: Record): string {
    Lower(r.isCompliant)
  }

  predicate CompliantRow(r: Record) { Normalised(r) == "true" }
  predicate NonCompliantRow(r: Record) { Normalised(r) == "false" }

  /** Date a may stand before date b in `sort_values(ascending=False)`:
      later dates first, missing dates last. */
  predicate NotOlder(a: Option<int>, b: Option<int>) {
    match a
    case None => b.None?
    case Some(x) => b.None? || x >= b.value
  }

  /** Every row's job_created_date may stand before every later row's. */
  ghost predicate NewestFirst(s: seq<Record>) {
    forall i, j :: 0 <= i < j < |s| ==> NotOlder(s[i].jobCreatedDate, s[j].jobCreatedDate)
  }

  /** Insert r before the first row whose date it may stand before. */
  function InsertByDate(r: Record, s: seq<Record>): (res: seq<Record>)
    ensures multiset(res) == multiset(s) + multiset{r}
  {
    if s == [] || NotOlder(r.jobCreatedDate, s[0].jobCreatedDate) then [r] + s
    else
      assert s == [s[0]] + s[1..];
      [s[0]] + InsertByDate(r, s[1..])
  }

  lemma {:induction false} InsertByDateSorted(r: Record, s: seq<Record>)
    requires NewestFirst(s)
    ensures NewestFirst(InsertByDate(r, s))
  {
    if s != [] && !NotOlder(r.jobCreatedDate, s[0].jobCreatedDate) {
      var rest := InsertByDate(r, s[1..]);
      InsertByDateSorted(r, s[1..]);
      var res := [s[0]] + rest;
      assert InsertByDate(r, s) == res;
      forall j | 0 < j < |res| ensures NotOlder(s[0].jobCreatedDate, res[j].jobCreatedDate) {
        var x := rest[j - 1];
        assert x in multiset(rest);
        if x != r {
          assert x in multiset(s[1..]);
          var m :| 0 <= m < |s[1..]| && s[1..][m] == x;
          assert s[m + 1] == x;
        }
      }
    }
  }

  /** `sort_values(by='job_created_date', ascending=False)`: one of the
      orders quicksort may return. */
  function SortByDate(s: seq<Record>): (res: seq<Record>)
    ensures NewestFirst(res)
    ensures multiset(res) == multiset(s)
  {
    if s == [] then []
    else
      assert s == [s[0]] + s[1..];
      InsertByDateSorted(s[0], SortByDate(s[1..]));
      InsertByDate(s[0], SortByDate(s[1..]))
  }

  /** `drop_duplicates(subset=['job_org_id', 'job_cluster_id'])`: keep the
      first row of each pair. */
  function KeepFirst(s: seq<Record>): (res: seq<Record>)
    ensures DistinctBy(res, KeyOf)
    ensures KeysBy(res, KeyOf) == KeysBy(s, KeyOf)
    ensures forall i :: 0 <= i < |res| ==> res[i] in s
    ensures NewestFirst(s) ==> NewestFirst(res)
    ensures NewestFirst(s) ==>
              forall i, j :: 0 <= i < |res| && 0 <= j < |s| && KeyOf(s[j]) == KeyOf(res[i])
                             ==> NotOlder(res[i].jobCreatedDate, s[j].jobCreatedDate)
    decreases |s|
  {
    if s == [] then []
    else
      var init := s[..|s| - 1];
      var last := s[|s| - 1];
      var kept := KeepFirst(init);
      assert s == init + [last];
      KeepFirstStep(init, last, kept);
      if KeyOf(last) in KeysBy(init, KeyOf) then kept else kept + [last]
  }

  /** s[j] is the first row of its pair in s. */
  ghost predicate FirstOfPair(s: seq<Record>, j: int) {
    && 0 <= j < |s|
    && forall m :: 0 <= m < j ==> KeyOf(s[m]) != KeyOf(s[j])
  }

  /** KeepFirst keeps exactly the first row of each pair, in input order:
      idx lists the positions it keeps, in increasing order, each one the
      first occurrence of its pair, and every first occurrence among them. */
  lemma {:induction false} KeepFirstPositions(s: seq<Record>) returns (idx: seq<int>)
    ensures |idx| == |KeepFirst(s)|
    ensures forall i :: 0 <= i < |idx| ==> FirstOfPair(s, idx[i]) && KeepFirst(s)[i] == s[idx[i]]
    ensures forall i, j :: 0 <= i < j < |idx| ==> idx[i] < idx[j]
    ensures forall j :: FirstOfPair(s, j) ==> j in idx
    decreases |s|
  {
    if s == [] {
      idx := [];
    } else {
      var init := s[..|s| - 1];
      var last := s[|s| - 1];
      assert s == init + [last];
      var prev := KeepFirstPositions(init);
      idx := PositionsStep(init, last, KeepFirst(init), prev);
    }
  }

  /** The step of KeepFirstPositions that looks at the last row. */
  lemma PositionsStep(init: seq<Record>, last: Record, kept: seq<Record>, prev: seq<int>)
    returns (idx: seq<int>)
    requires |prev| == |kept|
    requires forall i :: 0 <= i < |prev| ==> FirstOfPair(init, prev[i]) && kept[i] == init[prev[i]]
    requires forall i, j :: 0 <= i < j < |prev| ==> prev[i] < prev[j]
    requires forall j :: FirstOfPair(init, j) ==> j in prev
    ensures var s := init + [last];
            var res := if KeyOf(last) in KeysBy(init, KeyOf) then kept else kept + [last];
            && |idx| == |res|
            && (forall i :: 0 <= i < |idx| ==> FirstOfPair(s, idx[i]) && res[i] == s[idx[i]])
            && (forall i, j :: 0 <= i < j < |idx| ==> idx[i] < idx[j])
            && (forall j :: FirstOfPair(s, j) ==> j in idx)
  {
    var s := init + [last];
    FirstOfPairPrefix(init, last);
    if KeyOf(last) in KeysBy(init, KeyOf) {
      idx := prev;
      var x :| x in init && KeyOf(x) == KeyOf(last);
      var m :| 0 <= m < |init| && init[m] == x;
      assert s[m] == x && s[|init|] == last;
      assert !FirstOfPair(s, |init|);
    } else {
      idx := prev + [|init|];
      forall m | 0 <= m < |init| ensures KeyOf(s[m]) != KeyOf(s[|init|]) {
        assert s[m] == init[m] && init[m] in init;
      }
      assert FirstOfPair(s, |init|);
      assert forall i :: 0 <= i < |prev| ==> idx[i] == prev[i] && prev[i] < |init|;
    }
  }

  /** Appending a row does not change which earlier rows are first of their pair. */
  lemma FirstOfPairPrefix(init: seq<Record>, last: Record)
    ensures forall j :: 0 <= j < |init| ==> (FirstOfPair(init + [last], j) <==> FirstOfPair(init, j))
    ensures forall j :: FirstOfPair(init + [last], j) ==> j <= |init|
  {
    var s := init + [last];
    assert forall m :: 0 <= m < |init| ==> s[m] == init[m];
  }

  /** The step of KeepFirst that looks at the last row. */
  lemma KeepFirstStep(init: seq<Record>, last: Record, kept: seq<Record>)
    requires DistinctBy(kept, KeyOf)
    requires KeysBy(kept, KeyOf) == KeysBy(init, KeyOf)
    requires forall i :: 0 <= i < |kept| ==> kept[i] in init
    requires NewestFirst(init) ==> NewestFirst(kept)
    requires NewestFirst(init) ==>
               forall i, j :: 0 <= i < |kept| && 0 <= j < |init| && KeyOf(init[j]) == KeyOf(kept[i])
                              ==> NotOlder(kept[i].jobCreatedDate, init[j].jobCreatedDate)
    ensures var s := init + [last];
            var res := if KeyOf(last) in KeysBy(init, KeyOf) then kept else kept + [last];
            && DistinctBy(res, KeyOf)
            && KeysBy(res, KeyOf) == KeysBy(s, KeyOf)
            && (forall i :: 0 <= i < |res| ==> res[i] in s)
            && (NewestFirst(s) ==> NewestFirst(res))
            && (NewestFirst(s) ==>
                  forall i, j :: 0 <= i < |res| && 0 <= j < |s| && KeyOf(s[j]) == KeyOf(res[i])
                                 ==> NotOlder(res[i].jobCreatedDate, s[j].jobCreatedDate))
  {
    KeepFirstStepKeys(init, last, kept);
    if NewestFirst(init + [last]) {
      KeepFirstStepOrder(init, last, kept);
    }
  }

  /** Keys and membership after KeepFirst looks at the last row. */
  lemma KeepFirstStepKeys(init: seq<Record>, last: Record, kept: seq<Record>)
    requires DistinctBy(kept, KeyOf)
    requires KeysBy(kept, KeyOf) == KeysBy(init, KeyOf)
    requires forall i :: 0 <= i < |kept| ==> kept[i] in init
    ensures var s := init + [last];
            var res := if KeyOf(last) in KeysBy(init, KeyOf) then kept else kept + [last];
            && DistinctBy(res, KeyOf)
            && KeysBy(res, KeyOf) == KeysBy(s, KeyOf)
            && (forall i :: 0 <= i < |res| ==> res[i] in s)
  {
    var s := init + [last];
    assert forall x :: x in s <==> x in init || x == last;
    assert KeysBy(s, KeyOf) == KeysBy(init, KeyOf) + {KeyOf(last)};
    if KeyOf(last) !in KeysBy(init, KeyOf) {
      var res := kept + [last];
      assert KeysBy(res, KeyOf) == KeysBy(kept, KeyOf) + {KeyOf(last)} by {
        assert forall x :: x in res <==> x in kept || x == last;
      }
      forall i, j | 0 <= i < j < |res| ensures KeyOf(res[i]) != KeyOf(res[j]) {
        if j == |res| - 1 {
          assert res[i] == kept[i];
          assert KeyOf(kept[i]) in KeysBy(kept, KeyOf);
        } else {
          assert res[i] == kept[i] && res[j] == kept[j];
        }
      }
    }
  }

  /** Order and maximality after KeepFirst looks at the last row of a
      newest-first sequence. */
  lemma KeepFirstStepOrder(init: seq<Record>, last: Record, kept: seq<Record>)
    requires forall i :: 0 <= i < |kept| ==> kept[i] in init
    requires NewestFirst(init) ==> NewestFirst(kept)
    requires NewestFirst(init) ==>
               forall i, j :: 0 <= i < |kept| && 0 <= j < |init| && KeyOf(init[j]) == KeyOf(kept[i])
                              ==> NotOlder(kept[i].jobCreatedDate, init[j].jobCreatedDate)
    requires NewestFirst(init + [last])
    ensures var s := init + [last];
            var res := if KeyOf(last) in KeysBy(init, KeyOf) then kept else kept + [last];
            && NewestFirst(res)
            && forall i, j :: 0 <= i < |res| && 0 <= j < |s| && KeyOf(s[j]) == KeyOf(res[i])
                              ==> NotOlder(res[i].jobCreatedDate, s[j].jobCreatedDate)
  {
    var s := init + [last];
    assert NewestFirst(init) by {
      forall i, j | 0 <= i < j < |init|
        ensures NotOlder(init[i].jobCreatedDate, init[j].jobCreatedDate)
      {
        assert s[i] == init[i] && s[j] == init[j];
      }
    }
    // Every kept row stands before the last row of s.
    forall i | 0 <= i < |kept| ensures NotOlder(kept[i].jobCreatedDate, last.jobCreatedDate) {
      var m :| 0 <= m < |init| && init[m] == kept[i];
      assert s[m] == kept[i] && s[|s| - 1] == last;
    }
  }

  /** Every admissible result of sorting rows newest first and dropping
      duplicate (org, cluster) pairs: one row of the table per pair, that
      row's date is the newest of its pair, and the rows stay newest first.
      Which of two rows with the same pair and the same date is kept is
      free, because the sort is not stable. */
  ghost predicate IsLatestPerCluster(rows: seq<Record>, out: seq<Record>) {
    && (forall i :: 0 <= i < |out| ==> out[i] in rows)
    && DistinctBy(out, KeyOf)
    && KeysBy(out, KeyOf) == KeysBy(rows, KeyOf)
    && (forall i, j :: 0 <= i < |out| && 0 <= j < |rows| && KeyOf(rows[j]) == KeyOf(out[i])
                       ==> NotOlder(out[i].jobCreatedDate, rows[j].jobCreatedDate))
    && NewestFirst(out)
  }

  /** The deduplicated cluster rows the report counts. */
  function LatestPerCluster(rows: seq<Record>): (out: seq<Record>)
    ensures IsLatestPerCluster(rows, out)
    ensures |out| == |KeysBy(rows, KeyOf)|
  {
    var sorted := SortByDate(rows);
    var out := KeepFirst(sorted);
    assert forall x :: x in sorted <==> x in rows by {
      assert forall x :: x in sorted <==> x in multiset(sorted);
    }
    assert KeysBy(sorted, KeyOf) == KeysBy(rows, KeyOf);
    forall i, j | 0 <= i < |out| && 0 <= j < |rows| && KeyOf(rows[j]) == KeyOf(out[i])
      ensures NotOlder(out[i].jobCreatedDate, rows[j].jobCreatedDate)
    {
      assert rows[j] in sorted;
      var m :| 0 <= m < |sorted| && sorted[m] == rows[j];
    }
    KeysByCardinality(out, KeyOf);
    out
  }

  /** head(3) of the non-compliant clusters, taken only when there is one. */
  function NonCompliantSample(clusters: seq<Record>): (sample: seq<Record>)
    ensures |sample| == Min(SampleSize, Count(clusters, NonCompliantRow))
    ensures sample == Filter(clusters, NonCompliantRow)[..|sample|]
    ensures forall i :: 0 <= i < |sample| ==> NonCompliantRow(sample[i]) && sample[i] in clusters
  {
    var failing := Filter(clusters, NonCompliantRow);
    FilterContents(clusters, NonCompliantRow);
    assert forall x :: x in failing ==> x in clusters by {
      assert forall x :: x in failing <==> x in multiset(failing);
    }
    if |failing| > 0 then Head(failing, SampleSize) else []
  }

  /** get_cluster_compliance_summary(). */
  function ClusterComplianceSummary(t: Table): (r: Result<ComplianceStats>)
    ensures IsEmptyFrame(t) ==> r == Err(NoTelemetry(Compliance))
    ensures !IsEmptyFrame(t) && IsCompliant !in t.columns ==> r == Err(MissingColumns([IsCompliant]))
    ensures !IsEmptyFrame(t) && IsCompliant in t.columns && JobCreatedDate !in t.columns
            ==> r == Err(KeyErrorRaised({JobCreatedDate}))
    ensures !IsEmptyFrame(t) && IsCompliant in t.columns && JobCreatedDate in t.columns
            && (JobOrgId !in t.columns || JobClusterId !in t.columns)
            ==> r == Err(KeyErrorRaised({JobOrgId, JobClusterId} - t.columns))
    ensures r.Ok? <==> !IsEmptyFrame(t) && IsCompliant in t.columns && JobCreatedDate in t.columns
                       && JobOrgId in t.columns && JobClusterId in t.columns
    ensures r.Ok? ==>
              exists clusters :: IsLatestPerCluster(t.rows, clusters)
                && r.value.total == |clusters|
                && r.value.compliant == Count(clusters, CompliantRow)
                && r.value.nonCompliant == Count(clusters, NonCompliantRow)
                && r.value.sample == Filter(clusters, NonCompliantRow)[..Min(SampleSize, r.value.nonCompliant)]
    ensures r.Ok? ==>
              && r.value.total == |KeysBy(t.rows, KeyOf)| > 0
              && r.value.compliant + r.value.nonCompliant <= r.value.total
              && |r.value.sample| == Min(SampleSize, r.value.nonCompliant)
              && (forall i :: 0 <= i < |r.value.sample| ==>
                    NonCompliantRow(r.value.sample[i]) && r.value.sample[i] in t.rows)
  {
    if IsEmptyFrame(t) then Err(NoTelemetry(Compliance))
    else if IsCompliant !in t.columns then Err(MissingColumns([IsCompliant]))
    else if JobCreatedDate !in t.columns then Err(KeyErrorRaised({JobCreatedDate}))
    else if JobOrgId !in t.columns || JobClusterId !in t.columns then
      Err(KeyErrorRaised({JobOrgId, JobClusterId} - t.columns))
    else
      var clusters := LatestPerCluster(t.rows);
      assert KeyOf(t.rows[0]) in KeysBy(t.rows, KeyOf);
      CountDisjoint(clusters, CompliantRow, NonCompliantRow);
      assert IsLatestPerCluster(t.rows, clusters);
      Ok(ComplianceStats(
        |clusters|,
        Count(clusters, CompliantRow),
        Count(clusters, NonCompliantRow),
        NonCompliantSample(clusters)))
  }

  /** rows[i] carries the newest date of its cluster. */
  ghost predicate NewestOfCluster(rows: seq<Record>, i: int) {
    && 0 <= i < |rows|
    && forall m :: 0 <= m < |rows| && KeyOf(rows[m]) == KeyOf(rows[i])
                   ==> NotOlder(rows[i].jobCreatedDate, rows[m].jobCreatedDate)
  }

  /** p agrees on the rows of a cluster that share its newest date; rows of
      older dates are unconstrained. */
  ghost predicate AgreesOnNewestTies(rows: seq<Record>, p: Record -> bool) {
    forall i, j :: NewestOfCluster(rows, i) && 0 <= j < |rows| && KeyOf(rows[i]) == KeyOf(rows[j])
                   && rows[i].jobCreatedDate == rows[j].jobCreatedDate
                   ==> p(rows[i]) == p(rows[j])
  }

  /** Rows of one cluster that share its newest date agree on the flag. */
  ghost predicate TiesAgree(rows: seq<Record>) {
    forall i, j :: NewestOfCluster(rows, i) && 0 <= j < |rows| && KeyOf(rows[i]) == KeyOf(rows[j])
                   && rows[i].jobCreatedDate == rows[j].jobCreatedDate
                   ==> Normalised(rows[i]) == Normalised(rows[j])
  }

  /** When rows of a cluster that tie on the newest date agree on the flag,
      every tie order the sort may choose gives the same counts. */
  lemma CountsIndependentOfTieOrder(rows: seq<Record>, a: seq<Record>, b: seq<Record>)
    requires IsLatestPerCluster(rows, a) && IsLatestPerCluster(rows, b) && TiesAgree(rows)
    ensures |a| == |b|
    ensures Count(a, CompliantRow) == Count(b, CompliantRow)
    ensures Count(a, NonCompliantRow) == Count(b, NonCompliantRow)
  {
    KeysByCardinality(a, KeyOf);
    KeysByCardinality(b, KeyOf);
    SameCount(rows, a, b, CompliantRow);
    SameCount(rows, a, b, NonCompliantRow);
  }

  lemma SameCount(rows: seq<Record>, a: seq<Record>, b: seq<Record>, p: Record -> bool)
    requires IsLatestPerCluster(rows, a) && IsLatestPerCluster(rows, b)
    requires AgreesOnNewestTies(rows, p)
    ensures Count(a, p) == Count(b, p)
  {
    FilterKeepsDistinct(a, p, KeyOf);
    FilterKeepsDistinct(b, p, KeyOf);
    KeysByCardinality(Filter(a, p), KeyOf);
    KeysByCardinality(Filter(b, p), KeyOf);
    forall k | k in KeysBy(Filter(a, p), KeyOf) ensures k in KeysBy(Filter(b, p), KeyOf) {
      SelectedInBoth(rows, a, b, p, k);
    }
    forall k | k in KeysBy(Filter(b, p), KeyOf) ensures k in KeysBy(Filter(a, p), KeyOf) {
      SelectedInBoth(rows, b, a, p, k);
    }
    assert KeysBy(Filter(a, p), KeyOf) == KeysBy(Filter(b, p), KeyOf);
  }

  /** A cluster whose newest row satisfies p in one admissible result does so
      in every other: both keep a newest row of the cluster, so the two rows
      have the same date. */
  lemma SelectedInBoth(rows: seq<Record>, a: seq<Record>, b: seq<Record>, p: Record -> bool, k: ClusterKey)
    requires IsLatestPerCluster(rows, a) && IsLatestPerCluster(rows, b)
    requires AgreesOnNewestTies(rows, p)
    requires DistinctBy(a, KeyOf) && DistinctBy(b, KeyOf)
    requires forall x :: x in Filter(a, p) <==> x in a && p(x)
    requires forall x :: x in Filter(b, p) <==> x in b && p(x)
    requires k in KeysBy(Filter(a, p), KeyOf)
    ensures k in KeysBy(Filter(b, p), KeyOf)
  {
    var x :| x in Filter(a, p) && KeyOf(x) == k;
    assert k in KeysBy(b, KeyOf);
    var y :| y in b && KeyOf(y) == k;
    NewestDatesAgree(rows, a, b, x, y);
    var jx :| 0 <= jx < |rows| && rows[jx] == x;
    var jy :| 0 <= jy < |rows| && rows[jy] == y;
    KeptRowIsNewest(rows, a, x, jx);
    assert p(rows[jx]) == p(rows[jy]);
    assert y in Filter(b, p);
  }

  /** A row an admissible result keeps carries the newest date of its cluster. */
  lemma KeptRowIsNewest(rows: seq<Record>, a: seq<Record>, x: Record, jx: int)
    requires IsLatestPerCluster(rows, a) && x in a && 0 <= jx < |rows| && rows[jx] == x
    ensures NewestOfCluster(rows, jx)
  {
    var ia :| 0 <= ia < |a| && a[ia] == x;
    forall m | 0 <= m < |rows| && KeyOf(rows[m]) == KeyOf(rows[jx])
      ensures NotOlder(rows[jx].jobCreatedDate, rows[m].jobCreatedDate)
    {
      assert NotOlder(a[ia].jobCreatedDate, rows[m].jobCreatedDate);
    }
  }

  /** Two admissible results keep, for one cluster, rows of the same date. */
  lemma NewestDatesAgree(rows: seq<Record>, a: seq<Record>, b: seq<Record>, x: Record, y: Record)
    requires IsLatestPerCluster(rows, a) && IsLatestPerCluster(rows, b)
    requires x in a && y in b && KeyOf(x) == KeyOf(y)
    ensures x in rows && y in rows
    ensures x.jobCreatedDate == y.jobCreatedDate
  {
    var ia :| 0 <= ia < |a| && a[ia] == x;
    var ib :| 0 <= ib < |b| && b[ib] == y;
    assert x in rows && y in rows;
    var jx :| 0 <= jx < |rows| && rows[jx] == x;
    var jy :| 0 <= jy < |rows| && rows[jy] == y;
    assert NotOlder(a[ia].jobCreatedDate, rows[jy].jobCreatedDate);
    assert NotOlder(b[ib].jobCreatedDate, rows[jx].jobCreatedDate);
  }

  /** The extractor names the flag cluster_is_compliant, so a table built
      from its snapshot never reaches the counts: it is either empty or
      lacks is_compliant. */
  lemma SnapshotTakesMissingColumnPath(t: Table)
    requires t.columns <= ExtractorColumns
    ensures ClusterComplianceSummary(t) == Err(NoTelemetry(Compliance))
         || ClusterComplianceSummary(t) == Err(MissingColumns([IsCompliant]))
  {
    ExtractorOmitsFlagColumn();
  }

  /** Whatever tie order the sort picks, the report counts the newest row of
      every cluster, provided rows that tie on a cluster's date agree on the flag. */
  lemma SummaryCountsAnyLatestRows(t: Table, clusters: seq<Record>)
    requires IsLatestPerCluster(t.rows, clusters) && TiesAgree(t.rows)
    requires ClusterComplianceSummary(t).Ok?
    ensures ClusterComplianceSummary(t).value.total == |clusters|
    ensures ClusterComplianceSummary(t).value.compliant == Count(clusters, CompliantRow)
    ensures ClusterComplianceSummary(t).value.nonCompliant == Count(clusters, NonCompliantRow)
  {
    CountsIndependentOfTieOrder(t.rows, LatestPerCluster(t.rows), clusters);
  }

  /** A compliance row of cluster (1, 9) created on the given day. */
  function ClusterRow(day: int, flag: string): Record {
    Record(None, Some(day), "", None, Some(1), Some(9), "", "", None, flag, "", "")
  }

  /** Rows of an older date may disagree: cluster (1, 9) was both compliant
      and non-compliant on day 1, but only its day-2 row is ever kept. */
  lemma OlderConflictsAreAllowed()
    ensures TiesAgree([ClusterRow(1, "True"), ClusterRow(1, "False"), ClusterRow(2, "True")])
  {
    var rows := [ClusterRow(1, "True"), ClusterRow(1, "False"), ClusterRow(2, "True")];
    forall i, j | NewestOfCluster(rows, i) && 0 <= j < |rows| && KeyOf(rows[i]) == KeyOf(rows[j])
                  && rows[i].jobCreatedDate == rows[j].jobCreatedDate
      ensures Normalised(rows[i]) == Normalised(rows[j])
    {
      assert NotOlder(rows[i].jobCreatedDate, rows[2].jobCreatedDate);
      assert i == 2 && j == 2;
    }
  }

  /** The table of the example below. */
  function ExampleTable(): Table {
    Table({IsCompliant, JobCreatedDate, JobOrgId, JobClusterId},
          [ClusterRow(19723, "False"), ClusterRow(19875, "True")])
  }

  lemma ExampleLatest()
    ensures LatestPerCluster(ExampleTable().rows) == [ClusterRow(19875, "True")]
  {
    var older, newer := ClusterRow(19723, "False"), ClusterRow(19875, "True");
    assert ExampleTable().rows == [older, newer];
    ExampleSorted();
    ExampleKept();
  }

  lemma ExampleSorted()
    ensures SortByDate([ClusterRow(19723, "False"), ClusterRow(19875, "True")])
         == [ClusterRow(19875, "True"), ClusterRow(19723, "False")]
  {
    var older, newer := ClusterRow(19723, "False"), ClusterRow(19875, "True");
    assert [older, newer][1..] == [newer];
    assert SortByDate([newer]) == [newer];
  }

  lemma ExampleKept()
    ensures KeepFirst([ClusterRow(19875, "True"), ClusterRow(19723, "False")]) == [ClusterRow(19875, "True")]
  {
    var older, newer := ClusterRow(19723, "False"), ClusterRow(19875, "True");
    assert [newer, older][..1] == [newer];
    assert KeepFirst([newer]) == [newer];
  }

  /** Cluster (1, 9) was non-compliant on 2024-01-01 (day 19723) and
      compliant on 2024-06-01 (day 19875): the newer row wins, so one
      compliant cluster out of one. */
  lemma NewestRowWinsExample()
    ensures ClusterComplianceSummary(ExampleTable()) == Ok(ComplianceStats(1, 1, 0, []))
  {
    ExampleLatest();
    ExampleCounts();
  }

  lemma ExampleCounts()
    ensures Count([ClusterRow(19875, "True")], CompliantRow) == 1
    ensures Count([ClusterRow(19875, "True")], NonCompliantRow) == 0
  {
    var newer := ClusterRow(19875, "True");
    assert Normalised(newer) == "true" by {
      assert Lower("True") == "true";
    }
    assert [newer][1..] == [];
  }
}
