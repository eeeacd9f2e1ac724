/** The top-N module ranking: invocation counts summed per
    (collection_name, module_name) and ranked in descending order of sum. */
module TopModules {
  import opened Telemetry

  datatype ModuleKey = ModuleKey(collection: string, moduleName: string)

  /** One row of the ranking: a (collection, module) pair and its summed count. */
  datatype Group = Group(key: ModuleKey, total: int)

  function GroupKey(g: Group): ModuleKey { g.key }

  /** A row survives cleaning unless its module name renders as "" or "nan". */
  predicate Kept(r: Record) {
    r.moduleName != "" && r.moduleName != "nan"
  }

  function KeyOf(r: Record): ModuleKey {
    ModuleKey(r.collectionName, r.moduleName)
  }

  /** The invocation count after numeric coercion: a value that is not a
      number, or is missing, counts as 0. */
  function CoercedCount(r: Record): int {
    r.moduleInvocationCount.GetOr(0)
  }

  /** The rows that survive cleaning, in table order. */
  function CleanRows(rows: seq<Record>): (c: seq<Record>)
    ensures forall i :: 0 <= i < |c| ==> Kept(c[i])
  {
    Filter(rows, Kept)
  }

  /** Reference definition of a group's value: the sum of the coerced counts
      of the rows with that key. */
  function SumFor(rows: seq<Record>, k: ModuleKey): int {
    if rows == [] then 0
    else (if KeyOf(rows[0]) == k then CoercedCount(rows[0]) else 0) + SumFor(rows[1..], k)
  }

  /** The (collection, module) pairs that occur in rows. */
  function ModuleKeys(rows: seq<Record>): set<ModuleKey> {
    KeysBy(rows, KeyOf)
  }

  lemma {:induction false} SumForAbsent(rows: seq<Record>, k: ModuleKey)
    requires k !in ModuleKeys(rows)
    ensures SumFor(rows, k) == 0
  {
    if rows != [] {
      KeysByCons(rows, KeyOf);
      SumForAbsent(rows[1..], k);
    }
  }

  /** The value recorded for k in a list of groups, 0 when k has no group. */
  function TotalIn(gs: seq<Group>, k: ModuleKey): int {
    if gs == [] then 0
    else if gs[0].key == k then gs[0].total
    else TotalIn(gs[1..], k)
  }

  lemma {:induction false} TotalInMember(gs: seq<Group>, g: Group)
    requires DistinctBy(gs, GroupKey) && g in gs
    ensures TotalIn(gs, g.key) == g.total
  {
    if gs[0] != g {
      assert DistinctBy(gs[1..], GroupKey);
      assert g in gs[1..] by {
        assert gs == [gs[0]] + gs[1..];
      }
      TotalInMember(gs[1..], g);
    }
  }

  lemma {:induction false} TotalInAbsent(gs: seq<Group>, k: ModuleKey)
    requires k !in KeysBy(gs, GroupKey)
    ensures TotalIn(gs, k) == 0
  {
    if gs != [] {
      KeysByCons(gs, GroupKey);
      TotalInAbsent(gs[1..], k);
    }
  }

  /** Add c to the group of k, opening a new group at the end when k has none. */
  function Accumulate(gs: seq<Group>, k: ModuleKey, c: int): (r: seq<Group>)
    ensures KeysBy(r, GroupKey) == KeysBy(gs, GroupKey) + {k}
    ensures DistinctBy(gs, GroupKey) ==> DistinctBy(r, GroupKey)
    ensures forall g :: g in r && g.key != k ==> g in gs
    ensures DistinctBy(gs, GroupKey) ==> forall g :: g in r && g.key == k ==> g.total == TotalIn(gs, k) + c
  {
    if gs == [] then
      var r := [Group(k, c)];
      KeysByCons(r, GroupKey);
      r
    else
      KeysByCons(gs, GroupKey);
      if gs[0].key == k then
        var r := [Group(k, gs[0].total + c)] + gs[1..];
        KeysByCons(r, GroupKey);
        assert r[1..] == gs[1..];
        r
      else
        var rest := Accumulate(gs[1..], k, c);
        var r := [gs[0]] + rest;
        KeysByCons(r, GroupKey);
        assert r[1..] == rest;
        r
  }

  /** The groupby-sum: one group per (collection, module) pair of rows. */
  function GroupSums(rows: seq<Record>): (gs: seq<Group>)
    ensures DistinctBy(gs, GroupKey)
    ensures KeysBy(gs, GroupKey) == ModuleKeys(rows)
    ensures forall g :: g in gs ==> g.total == SumFor(rows, g.key)
  {
    if rows == [] then []
    else
      var rest := GroupSums(rows[1..]);
      KeysByCons(rows, KeyOf);
      GroupedTotal(rest, rows[1..], KeyOf(rows[0]));
      Accumulate(rest, KeyOf(rows[0]), CoercedCount(rows[0]))
  }

  /** What a group list that agrees with the reference sums records for k. */
  lemma GroupedTotal(gs: seq<Group>, rows: seq<Record>, k: ModuleKey)
    requires DistinctBy(gs, GroupKey)
    requires KeysBy(gs, GroupKey) == ModuleKeys(rows)
    requires forall g :: g in gs ==> g.total == SumFor(rows, g.key)
    ensures TotalIn(gs, k) == SumFor(rows, k)
  {
    if k in KeysBy(gs, GroupKey) {
      var g :| g in gs && g.key == k;
      TotalInMember(gs, g);
    } else {
      TotalInAbsent(gs, k);
      SumForAbsent(rows, k);
    }
  }

  /** Every sum is at least every later sum. */
  ghost predicate NonIncreasing(s: seq<Group>) {
    forall i, j :: 0 <= i < j < |s| ==> s[i].total >= s[j].total
  }

  /** Insert g before the first group whose sum is not larger. */
  function InsertByTotal(g: Group, s: seq<Group>): (r: seq<Group>)
    ensures multiset(r) == multiset(s) + multiset{g}
  {
    if s == [] || g.total >= s[0].total then [g] + s
    else
      assert s == [s[0]] + s[1..];
      [s[0]] + InsertByTotal(g, s[1..])
  }

  /** Inserting into a ranked list keeps it ranked. */
  lemma {:induction false} InsertByTotalSorted(g: Group, s: seq<Group>)
    requires NonIncreasing(s)
    ensures NonIncreasing(InsertByTotal(g, s))
  {
    if s != [] && g.total < s[0].total {
      var rest := InsertByTotal(g, s[1..]);
      InsertByTotalSorted(g, s[1..]);
      var r := [s[0]] + rest;
      assert InsertByTotal(g, s) == r;
      forall j | 0 < j < |r| ensures s[0].total >= r[j].total {
        InsertedFrom(g, s[1..], j - 1);
        if rest[j - 1] != g {
          var m :| 0 <= m < |s[1..]| && s[1..][m] == rest[j - 1];
          assert s[m + 1] == r[j];
        }
      }
    }
  }

  /** Every entry after an insertion is the inserted group or one of s. */
  lemma InsertedFrom(g: Group, s: seq<Group>, j: nat)
    requires j < |InsertByTotal(g, s)|
    ensures InsertByTotal(g, s)[j] == g || InsertByTotal(g, s)[j] in s
  {
    var r := InsertByTotal(g, s);
    assert r[j] in multiset(r);
  }

  /** Inserting a group adds its key, and keeps keys distinct when the key is new. */
  lemma {:induction false} InsertByTotalKeys(g: Group, s: seq<Group>)
    ensures KeysBy(InsertByTotal(g, s), GroupKey) == KeysBy(s, GroupKey) + {g.key}
    ensures DistinctBy(s, GroupKey) && g.key !in KeysBy(s, GroupKey) ==> DistinctBy(InsertByTotal(g, s), GroupKey)
  {
    var r := InsertByTotal(g, s);
    KeysByCons(r, GroupKey);
    if s == [] || g.total >= s[0].total {
      assert r[1..] == s;
    } else {
      KeysByCons(s, GroupKey);
      var rest := InsertByTotal(g, s[1..]);
      assert r[1..] == rest;
      InsertByTotalKeys(g, s[1..]);
    }
  }

  /** `sort_values(ascending=False)`: one of the orders quicksort may return. */
  function SortByTotal(s: seq<Group>): (r: seq<Group>)
    ensures NonIncreasing(r)
    ensures multiset(r) == multiset(s)
    ensures KeysBy(r, GroupKey) == KeysBy(s, GroupKey)
    ensures DistinctBy(s, GroupKey) ==> DistinctBy(r, GroupKey)
  {
    if s == [] then []
    else
      var rest := SortByTotal(s[1..]);
      SortStep(s, rest);
      InsertByTotal(s[0], rest)
  }

  /** Inserting the first group into the sorted rest sorts the whole list. */
  lemma SortStep(s: seq<Group>, rest: seq<Group>)
    requires s != []
    requires NonIncreasing(rest)
    requires multiset(rest) == multiset(s[1..])
    requires KeysBy(rest, GroupKey) == KeysBy(s[1..], GroupKey)
    requires DistinctBy(s[1..], GroupKey) ==> DistinctBy(rest, GroupKey)
    ensures NonIncreasing(InsertByTotal(s[0], rest))
    ensures multiset(InsertByTotal(s[0], rest)) == multiset(s)
    ensures KeysBy(InsertByTotal(s[0], rest), GroupKey) == KeysBy(s, GroupKey)
    ensures DistinctBy(s, GroupKey) ==> DistinctBy(InsertByTotal(s[0], rest), GroupKey)
  {
    KeysByCons(s, GroupKey);
    assert s == [s[0]] + s[1..];
    InsertByTotalKeys(s[0], rest);
    InsertByTotalSorted(s[0], rest);
    if DistinctBy(s, GroupKey) {
      assert DistinctBy(s[1..], GroupKey) by {
        forall i, j | 0 <= i < j < |s[1..]| ensures GroupKey(s[1..][i]) != GroupKey(s[1..][j]) {
          assert s[1..][i] == s[i + 1] && s[1..][j] == s[j + 1];
        }
      }
      forall m | 0 <= m < |s[1..]| ensures GroupKey(s[1..][m]) != s[0].key {
        assert s[1..][m] == s[m + 1];
      }
    }
  }

  /** Every admissible result of grouping `rows` (already cleaned), sorting
      the groups by sum in descending order, and keeping head(topN): each
      entry is a real group with its exact sum, no pair appears twice, sums
      never increase, the length is head's, and no group left out has a
      larger sum than any group kept. The order among equal sums is free,
      because the sort is not stable. */
  ghost predicate IsRanking(rows: seq<Record>, topN: int, out: seq<Group>) {
    && (forall i :: 0 <= i < |out| ==> out[i].key in ModuleKeys(rows) && out[i].total == SumFor(rows, out[i].key))
    && DistinctBy(out, GroupKey)
    && NonIncreasing(out)
    && |out| == HeadLength(|ModuleKeys(rows)|, topN)
    && (forall k, i :: k in ModuleKeys(rows) && k !in KeysBy(out, GroupKey) && 0 <= i < |out|
                       ==> SumFor(rows, k) <= out[i].total)
  }

  /** The sorted, truncated groups form a ranking. */
  lemma RankedGroupsAreRanking(rows: seq<Record>, topN: int)
    ensures IsRanking(rows, topN, Head(SortByTotal(GroupSums(rows)), topN))
  {
    var gs := GroupSums(rows);
    var sorted := SortByTotal(gs);
    KeysByCardinality(gs, GroupKey);
    assert |sorted| == |multiset(sorted)| == |multiset(gs)| == |gs|;
    forall g | g in sorted ensures g.total == SumFor(rows, g.key) {
      assert g in multiset(sorted);
      assert g in multiset(gs);
    }
    HeadOfRankedGroups(rows, sorted, topN);
  }

  /** head(topN) of all the groups in non-increasing order is a ranking. */
  lemma HeadOfRankedGroups(rows: seq<Record>, sorted: seq<Group>, topN: int)
    requires DistinctBy(sorted, GroupKey) && NonIncreasing(sorted)
    requires KeysBy(sorted, GroupKey) == ModuleKeys(rows) && |sorted| == |ModuleKeys(rows)|
    requires forall g :: g in sorted ==> g.total == SumFor(rows, g.key)
    ensures IsRanking(rows, topN, Head(sorted, topN))
  {
    var out := Head(sorted, topN);
    forall i | 0 <= i < |out|
      ensures out[i].key in ModuleKeys(rows) && out[i].total == SumFor(rows, out[i].key)
    {
      assert out[i] == sorted[i];
    }
    assert DistinctBy(out, GroupKey) by {
      forall i, j | 0 <= i < j < |out| ensures GroupKey(out[i]) != GroupKey(out[j]) {
        assert out[i] == sorted[i] && out[j] == sorted[j];
      }
    }
    assert NonIncreasing(out) by {
      forall i, j | 0 <= i < j < |out| ensures out[i].total >= out[j].total {
        assert out[i] == sorted[i] && out[j] == sorted[j];
      }
    }
    forall k, i | k in ModuleKeys(rows) && k !in KeysBy(out, GroupKey) && 0 <= i < |out|
      ensures SumFor(rows, k) <= out[i].total
    {
      var g :| g in sorted && g.key == k;
      var j :| 0 <= j < |sorted| && sorted[j] == g;
      assert out[i] == sorted[i];
    }
  }

  predicate HasModuleColumns(t: Table) {
    CollectionName in t.columns && ModuleName in t.columns && ModuleInvocationCount in t.columns
  }

  /** get_top_modules_used(top_n). */
  function TopModulesUsed(t: Table, topN: int): (r: Result<seq<Group>>)
    ensures IsEmptyFrame(t) ==> r == Err(NoTelemetry(Modules))
    ensures !IsEmptyFrame(t) && !HasModuleColumns(t)
            ==> r == Err(MissingColumns([CollectionName, ModuleName, ModuleInvocationCount]))
    ensures r.Ok? <==> !IsEmptyFrame(t) && HasModuleColumns(t) && ModuleKeys(CleanRows(t.rows)) != {}
    ensures !IsEmptyFrame(t) && HasModuleColumns(t) && ModuleKeys(CleanRows(t.rows)) == {}
            ==> r == Err(NoValidModules)
    ensures r.Ok? ==> IsRanking(CleanRows(t.rows), topN, r.value)
  {
    if IsEmptyFrame(t) then Err(NoTelemetry(Modules))
    else if !HasModuleColumns(t) then
      Err(MissingColumns([CollectionName, ModuleName, ModuleInvocationCount]))
    else
      var clean := CleanRows(t.rows);
      if clean == [] then Err(NoValidModules)
      else
        KeysByCons(clean, KeyOf);
        RankedGroupsAreRanking(clean, topN);
        Ok(Head(SortByTotal(GroupSums(clean)), topN))
  }

  /** A row adds its coerced count to its own group's sum and to no other,
      wherever it stands in the table. */
  lemma {:induction false} SumForInsert(rows: seq<Record>, i: nat, r: Record, k: ModuleKey)
    requires i <= |rows|
    ensures SumFor(rows[..i] + [r] + rows[i..], k)
         == SumFor(rows, k) + (if KeyOf(r) == k then CoercedCount(r) else 0)
  {
    if i == 0 {
      assert rows[..0] + [r] + rows[0..] == [r] + rows;
      assert ([r] + rows)[1..] == rows;
    } else {
      var rows' := rows[..i] + [r] + rows[i..];
      assert rows'[0] == rows[0];
      assert rows'[1..] == rows[1..][..i - 1] + [r] + rows[1..][i - 1..];
      SumForInsert(rows[1..], i - 1, r, k);
    }
  }

  /** However the sort orders groups with equal sums, every ranking of the
      same rows lists the same sums in the same positions. */
  lemma RankingSumsDetermined(rows: seq<Record>, topN: int, a: seq<Group>, b: seq<Group>)
    requires IsRanking(rows, topN, a) && IsRanking(rows, topN, b)
    ensures |a| == |b|
    ensures forall i :: 0 <= i < |a| ==> a[i].total == b[i].total
  {
    forall i | 0 <= i < |a| ensures a[i].total == b[i].total {
      RankingNotAbove(rows, topN, a, b, i);
      RankingNotAbove(rows, topN, b, a, i);
    }
  }

  /** The i-th sum of one ranking is not above the i-th sum of another: the
      first i + 1 groups of a are distinct, at most i of them can sit before
      position i in b, and the one that does not is at or after position i,
      or left out of b, either way not above b[i]. */
  lemma RankingNotAbove(rows: seq<Record>, topN: int, a: seq<Group>, b: seq<Group>, i: nat)
    requires IsRanking(rows, topN, a) && IsRanking(rows, topN, b) && i < |a|
    ensures a[i].total <= b[i].total
  {
    var p := KeyOutsidePrefix(a, b, i);
    assert a[p].total >= a[i].total;
  }

  /** Pigeonhole: of the first i + 1 keys of a, which are distinct, some key
      is not among the first i keys of b. */
  lemma KeyOutsidePrefix(a: seq<Group>, b: seq<Group>, i: nat) returns (p: nat)
    requires DistinctBy(a, GroupKey) && i < |a| && i <= |b|
    ensures p <= i && a[p].key !in KeysBy(b[..i], GroupKey)
  {
    var front := a[..i + 1];
    assert DistinctBy(front, GroupKey) by {
      forall p, q | 0 <= p < q < |front| ensures GroupKey(front[p]) != GroupKey(front[q]) {
        assert front[p] == a[p] && front[q] == a[q];
      }
    }
    var A := KeysBy(front, GroupKey);
    var B := KeysBy(b[..i], GroupKey);
    KeysByCardinality(front, GroupKey);
    KeysByCardinality(b[..i], GroupKey);
    if A <= B {
      SubsetCardinality(A, B);
      assert false;
    }
    var k :| k in A && k !in B;
    var x :| x in front && x.key == k;
    p :| 0 <= p < |front| && front[p] == x;
  }

  lemma SubsetCardinality<K>(A: set<K>, B: set<K>)
    requires A <= B
    ensures |A| <= |B|
  {
    assert B == A + (B - A);
  }

  /** A row whose module name is "" or "nan" changes nothing in the report,
      wherever it is added to a non-empty table. */
  lemma DroppedRowsNeverContribute(t: Table, i: nat, r: Record, topN: int)
    requires !IsEmptyFrame(t) && i <= |t.rows| && !Kept(r)
    ensures TopModulesUsed(Table(t.columns, t.rows[..i] + [r] + t.rows[i..]), topN)
         == TopModulesUsed(t, topN)
  {
    var rows := t.rows;
    FilterAppend(rows[..i] + [r], rows[i..], Kept);
    FilterAppend(rows[..i], [r], Kept);
    assert Filter([r], Kept) == [] by {
      assert [r][1..] == [];
    }
    assert rows == rows[..i] + rows[i..];
    FilterAppend(rows[..i], rows[i..], Kept);
    assert CleanRows(rows[..i] + [r] + rows[i..]) == CleanRows(rows);
  }

  /** A module row with the given collection, name and count. */
  function ModuleRow(collection: string, name: string, count: int): Record {
    Record(None, None, "", None, None, None, collection, name, Some(count), "", "", "")
  }

  /** (A, x, 5), (A, x, 3) and (B, y, 10) with top_n = 2 rank (B, y) with 10
      first and (A, x) with 8 second. */
  lemma TopTwoExample()
    ensures TopModulesUsed(ExampleTable(), 2)
         == Ok([Group(ModuleKey("B", "y"), 10), Group(ModuleKey("A", "x"), 8)])
  {
    var t := ExampleTable();
    ExampleGroups();
    ExampleSorted();
    assert !IsEmptyFrame(t) && HasModuleColumns(t) by {
      assert CollectionName in t.columns;
    }
  }

  /** A table holding only the three module columns and ExampleRows. */
  function ExampleTable(): Table {
    Table({CollectionName, ModuleName, ModuleInvocationCount}, ExampleRows())
  }

  lemma ExampleSorted()
    ensures var expected := [Group(ModuleKey("B", "y"), 10), Group(ModuleKey("A", "x"), 8)];
            SortByTotal(expected) == expected && Head(expected, 2) == expected
  {
    var a, b := Group(ModuleKey("A", "x"), 8), Group(ModuleKey("B", "y"), 10);
    assert [b, a][1..] == [a];
    assert SortByTotal([a]) == [a] by {
      assert [a][1..] == [];
    }
    assert InsertByTotal(b, [a]) == [b, a];
  }

  /** The rows (A, x, 5), (A, x, 3), (B, y, 10). */
  function ExampleRows(): seq<Record> {
    [ModuleRow("A", "x", 5), ModuleRow("A", "x", 3), ModuleRow("B", "y", 10)]
  }

  lemma ExampleGroups()
    ensures CleanRows(ExampleRows()) == ExampleRows()
    ensures GroupSums(ExampleRows()) == [Group(ModuleKey("B", "y"), 10), Group(ModuleKey("A", "x"), 8)]
  {
    ExampleClean();
    ExampleTailSums();
    ExampleMerge();
    var rows := ExampleRows();
    assert rows[1..] == [ModuleRow("A", "x", 3), ModuleRow("B", "y", 10)];
  }

  /** The first row's 5 joins the (A, x) group's 3. */
  lemma ExampleMerge()
    ensures Accumulate([Group(ModuleKey("B", "y"), 10), Group(ModuleKey("A", "x"), 3)], ModuleKey("A", "x"), 5)
         == [Group(ModuleKey("B", "y"), 10), Group(ModuleKey("A", "x"), 8)]
  {
    var ax, byKey := ModuleKey("A", "x"), ModuleKey("B", "y");
    var g := [Group(byKey, 10), Group(ax, 3)];
    assert byKey != ax;
    assert g[1..] == [Group(ax, 3)];
    assert [Group(ax, 3)][1..] == [];
  }

  lemma ExampleClean()
    ensures CleanRows(ExampleRows()) == ExampleRows()
  {
    var rows := ExampleRows();
    var r1, r2, r3 := rows[0], rows[1], rows[2];
    assert rows[1..] == [r2, r3] && [r2, r3][1..] == [r3] && [r3][1..] == [];
    assert Kept(r1) && Kept(r2) && Kept(r3);
    assert Filter([r3], Kept) == [r3];
    assert Filter([r2, r3], Kept) == [r2, r3];
  }

  lemma ExampleTailSums()
    ensures GroupSums([ModuleRow("A", "x", 3), ModuleRow("B", "y", 10)])
         == [Group(ModuleKey("B", "y"), 10), Group(ModuleKey("A", "x"), 3)]
  {
    var r2, r3 := ModuleRow("A", "x", 3), ModuleRow("B", "y", 10);
    assert [r2, r3][1..] == [r3] && [r3][1..] == [];
    assert GroupSums([r3]) == [Group(ModuleKey("B", "y"), 10)];
    assert ModuleKey("B", "y") != ModuleKey("A", "x");
  }

  /** A snapshot written by the extractor carries the three module columns. */
  lemma SnapshotHasModuleColumns(t: Table, topN: int)
    requires ExtractorColumns <= t.columns
    ensures TopModulesUsed(t, topN) != Err(MissingColumns([CollectionName, ModuleName, ModuleInvocationCount]))
  {
    assert CollectionName in ModuleColumns && ModuleName in ModuleColumns
        && ModuleInvocationCount in ModuleColumns;
  }

  /** A missing module name that the extractor wrote as JSON null loads as
      None and renders "None"; cleaning keeps it, so its row joins the
      ("None", "None") group or whichever collection it names. */
  lemma NoneRenderedNamesAreKept(rows: seq<Record>, r: Record)
    requires r.moduleName == "None"
    ensures Kept(r)
    ensures CleanRows(rows + [r]) == CleanRows(rows) + [r]
  {
    FilterAppend(rows, [r], Kept);
    assert [r][1..] == [];
  }
}
