/** compute_mcpg_consistency.py: per-file mCpG coverage and consistency counts.

    A methylation call file holds `(chr, pos, status)` rows. Its summary row
    holds the file's barcode label and three counts: the distinct positions
    (`Detect_pos`), the positions seen in at least two rows (`Rep_pos`), and the
    positions whose rows do not all carry the same status (`Ins_pos`). A position
    is its `pos` value alone, whatever the chromosome. Files are visited in sorted
    path order. */
module McpgConsistency {
  import opened Text
  import opened Tallies
  import opened Sorting
  import opened Outcomes
  import opened FileLabel
  import opened Ratios
  import opened PerFile

  /** One row of a methylation call file. */
  datatype CpgRow = CpgRow(chrom: string, pos: int, status: int)

  // ---------------------------------------------------------------- reference definitions

  /** The positions covered by some row. */
  ghost function Covered(rows: seq<CpgRow>): set<int>
  {
    set r | r in rows :: r.pos
  }

  /** `temp_df_sorted["pos"].tolist()` */
  function Positions(rows: seq<CpgRow>): (ps: seq<int>)
    ensures |ps| == |rows|
    ensures forall i :: 0 <= i < |rows| ==> ps[i] == rows[i].pos
  {
    if rows == [] then [] else Positions(rows[..|rows| - 1]) + [rows[|rows| - 1].pos]
  }

  /** The positions covered by at least two rows. */
  ghost function Repeated(rows: seq<CpgRow>): set<int>
  {
    set p | p in Covered(rows) && multiset(Positions(rows))[p] >= 2
  }

  /** Two rows at `p` carry different statuses. */
  ghost predicate Disagree(rows: seq<CpgRow>, p: int)
  {
    exists r1, r2 :: r1 in rows && r2 in rows && r1.pos == p && r2.pos == p && r1.status != r2.status
  }

  /** The positions whose rows do not all carry the same status. */
  ghost function Inconsistent(rows: seq<CpgRow>): set<int>
  {
    set p | p in Covered(rows) && Disagree(rows, p)
  }

  // ---------------------------------------------------------------- what the script computes

  /** `temp_df_sorted[temp_df_sorted["pos"] == pos]["status"].tolist()` */
  function StatusesAt(rows: seq<CpgRow>, p: int): seq<int>
  {
    if rows == [] then []
    else
      var init, last := rows[..|rows| - 1], rows[|rows| - 1];
      StatusesAt(init, p) + (if last.pos == p then [last.status] else [])
  }

  /** `len(set(status_list)) == 1` */
  predicate AllSame(statuses: seq<int>)
  {
    |Elements(statuses)| == 1
  }

  /** `sort_values(by=["chr", "pos"])`: by chromosome name, then by position. */
  predicate ByChromPos(a: CpgRow, b: CpgRow)
  {
    if a.chrom != b.chrom then LexLe(a.chrom, b.chrom) else a.pos <= b.pos
  }

  lemma ByChromPosIsPreorder()
    ensures TotalPreorder(ByChromPos)
  {
    forall a, b ensures ByChromPos(a, b) || ByChromPos(b, a) {
      LexLeTotal(a.chrom, b.chrom);
    }
    forall a, b, c | ByChromPos(a, b) && ByChromPos(b, c) ensures ByChromPos(a, c) {
      if a.chrom != b.chrom && b.chrom != c.chrom {
        LexLeTransitive(a.chrom, b.chrom, c.chrom);
        if a.chrom == c.chrom {
          LexLeAntisymmetric(a.chrom, b.chrom);
        }
      }
    }
  }

  /** The positions among `ps` whose statuses are not all the same. */
  function MixedAmong(rows: seq<CpgRow>, ps: set<int>): set<int>
  {
    set p | p in ps && !AllSame(StatusesAt(rows, p))
  }

  /** `Counter(pos_list)` and what `main` derives from it, and the loop over
      `set(pos_list)` that counts the positions with mixed statuses. The three
      counts are stated over the rows as read, before the sort. */
  method McpgCounts(rows: seq<CpgRow>) returns (detectPos: nat, countGe2: nat, status2: nat)
    ensures detectPos == |Covered(rows)|
    ensures countGe2 == |Repeated(rows)|
    ensures status2 == |Inconsistent(rows)|
  {
    var sortedRows := Sort(rows, ByChromPos);
    var posList := Positions(sortedRows);
    status2 := 0;
    var uniquePositions := Elements(posList);
    var remaining := uniquePositions;
    while remaining != {}
      invariant remaining <= uniquePositions
      invariant status2 == |MixedAmong(sortedRows, uniquePositions - remaining)|
      decreases |remaining|
    {
      var pos :| pos in remaining;
      var statusList := StatusesAt(sortedRows, pos);
      var areAllSame := |Elements(statusList)| == 1;
      MixedAmongStep(sortedRows, uniquePositions, remaining, pos);
      if !areAllSame {
        status2 := status2 + 1;
      }
      remaining := remaining - {pos};
    }
    assert uniquePositions - {} == uniquePositions;
    // The counter only reads the sorted positions, so building it after the
    // status loop computes the same numbers.
    var counts := TallyOf(posList);
    countGe2 := |set p | p in counts.count && counts.count[p] >= 2|;
    detectPos := |counts.count|;
    SortedCountsMatch(rows);
  }

  /** What the script computes on the sorted rows is the reference definitions on
      the rows as read. */
  lemma SortedCountsMatch(rows: seq<CpgRow>)
    ensures var sortedRows := Sort(rows, ByChromPos);
      var counts := TallyOf(Positions(sortedRows));
      && |counts.count| == |Covered(rows)|
      && |set p | p in counts.count && counts.count[p] >= 2| == |Repeated(rows)|
      && |MixedAmong(sortedRows, Elements(Positions(sortedRows)))| == |Inconsistent(rows)|
  {
    ByChromPosIsPreorder();
    SortSpec(rows, ByChromPos);
    var sortedRows := Sort(rows, ByChromPos);
    CounterMatch(sortedRows);
    MixedMatch(sortedRows);
    RowOrderIrrelevant(rows, sortedRows);
  }

  /** Visiting one more position adds one exactly when its statuses are not all the same. */
  lemma MixedAmongStep(rows: seq<CpgRow>, all: set<int>, remaining: set<int>, p: int)
    requires p in remaining && remaining <= all
    ensures |MixedAmong(rows, all - (remaining - {p}))|
         == |MixedAmong(rows, all - remaining)| + (if AllSame(StatusesAt(rows, p)) then 0 else 1)
  {
    var done := all - remaining;
    assert all - (remaining - {p}) == done + {p};
    if AllSame(StatusesAt(rows, p)) {
      assert MixedAmong(rows, done + {p}) == MixedAmong(rows, done);
    } else {
      assert MixedAmong(rows, done + {p}) == MixedAmong(rows, done) + {p};
    }
  }

  // ---------------------------------------------------------------- the counts meet the definitions

  lemma CoveredPositions(rows: seq<CpgRow>)
    ensures Elements(Positions(rows)) == Covered(rows)
  {
    var ps := Positions(rows);
    forall p | p in Covered(rows) ensures p in Elements(ps) {
      var r :| r in rows && r.pos == p;
      var i :| 0 <= i < |rows| && rows[i] == r;
      assert ps[i] == p;
    }
  }

  /** The statuses at `p` are the statuses of the rows at `p`. */
  lemma {:induction false} StatusesAtSpec(rows: seq<CpgRow>, p: int)
    ensures forall s :: s in StatusesAt(rows, p) <==> exists r :: r in rows && r.pos == p && r.status == s
  {
    if rows != [] {
      var init, last := rows[..|rows| - 1], rows[|rows| - 1];
      StatusesAtSpec(init, p);
      assert rows == init + [last];
    }
  }

  /** `len(set(status_list)) == 1` holds at a covered position exactly when its
      rows do not disagree. */
  lemma AllSameSpec(rows: seq<CpgRow>, p: int)
    requires p in Covered(rows)
    ensures AllSame(StatusesAt(rows, p)) <==> !Disagree(rows, p)
  {
    StatusesAtSpec(rows, p);
    var statuses := Elements(StatusesAt(rows, p));
    var r0 :| r0 in rows && r0.pos == p;
    assert r0.status in statuses;
    if Disagree(rows, p) {
      var r1, r2 :| r1 in rows && r2 in rows && r1.pos == p && r2.pos == p && r1.status != r2.status;
      assert {r1.status, r2.status} <= statuses;
      SubsetCard({r1.status, r2.status}, statuses);
    } else {
      forall s | s in statuses ensures s == r0.status {
        var r :| r in rows && r.pos == p && r.status == s;
      }
      assert statuses == {r0.status};
    }
  }

  lemma SubsetCard(a: set<int>, b: set<int>)
    requires a <= b
    ensures |a| <= |b|
  {
    assert b == a + (b - a);
  }

  /** Two rows at one position make it counted at least twice. */
  lemma TwoAt(xs: seq<int>, i: nat, j: nat)
    requires i < j < |xs| && xs[i] == xs[j]
    ensures multiset(xs)[xs[i]] >= 2
  {
    assert xs == xs[..j] + xs[j..];
    assert xs[i] in xs[..j];
    assert xs[j..][0] == xs[j];
  }

  /** `len(counts)` and the positions counted at least twice by `Counter(pos_list)`
      are the covered and the repeated positions. */
  lemma CounterMatch(rs: seq<CpgRow>)
    ensures var counts := TallyOf(Positions(rs));
      && counts.count.Keys == Covered(rs)
      && (set p | p in counts.count && counts.count[p] >= 2) == Repeated(rs)
  {
    CoveredPositions(rs);
  }

  /** The loop over `set(pos_list)` counts the positions whose rows disagree. */
  lemma MixedMatch(rs: seq<CpgRow>)
    ensures MixedAmong(rs, Elements(Positions(rs))) == Inconsistent(rs)
  {
    CoveredPositions(rs);
    forall p | p in Covered(rs) ensures AllSame(StatusesAt(rs, p)) <==> !Disagree(rs, p) {
      AllSameSpec(rs, p);
    }
  }

  // ---------------------------------------------------------------- properties

  lemma {:induction false} ElementsCard(xs: seq<int>)
    ensures |Elements(xs)| <= |xs|
  {
    if xs != [] {
      var init := xs[..|xs| - 1];
      ElementsCard(init);
      assert xs == init + [xs[|xs| - 1]];
      assert Elements(xs) == Elements(init) + {xs[|xs| - 1]};
    }
  }

  /** `0 <= Ins_pos <= Rep_pos <= Detect_pos <= rows`: disagreeing statuses need
      two rows at the position. */
  lemma CountBounds(rows: seq<CpgRow>)
    ensures |Inconsistent(rows)| <= |Repeated(rows)| <= |Covered(rows)| <= |rows|
  {
    var ps := Positions(rows);
    forall p | p in Inconsistent(rows) ensures p in Repeated(rows) {
      var r1, r2 :| r1 in rows && r2 in rows && r1.pos == p && r2.pos == p && r1.status != r2.status;
      var i :| 0 <= i < |rows| && rows[i] == r1;
      var j :| 0 <= j < |rows| && rows[j] == r2;
      if i < j {
        TwoAt(ps, i, j);
      } else {
        TwoAt(ps, j, i);
      }
    }
    SubsetCard(Inconsistent(rows), Repeated(rows));
    SubsetCard(Repeated(rows), Covered(rows));
    CoveredPositions(rows);
    ElementsCard(ps);
  }

  lemma PositionsAppend(a: seq<CpgRow>, b: seq<CpgRow>)
    ensures Positions(a + b) == Positions(a) + Positions(b)
  {
  }

  /** Rows with the same elements have the same multiset of positions. */
  lemma {:induction false} PositionsPermutation(a: seq<CpgRow>, b: seq<CpgRow>)
    requires multiset(a) == multiset(b)
    ensures multiset(Positions(a)) == multiset(Positions(b))
    decreases |a|
  {
    if a != [] {
      var init, x := a[..|a| - 1], a[|a| - 1];
      assert a == init + [x];
      assert x in multiset(b);
      var k :| 0 <= k < |b| && b[k] == x;
      var rest := b[..k] + b[k + 1..];
      assert b == b[..k] + [x] + b[k + 1..];
      assert multiset(rest) == multiset(b) - multiset{x};
      PositionsPermutation(init, rest);
      PositionsAppend(init, [x]);
      PositionsAppend(b[..k] + [x], b[k + 1..]);
      PositionsAppend(b[..k], [x]);
      PositionsAppend(b[..k], b[k + 1..]);
    } else {
      assert |b| == |multiset(b)| == 0;
    }
  }

  /** The counts depend on the rows, not on their order: sorting them changes nothing. */
  lemma RowOrderIrrelevant(a: seq<CpgRow>, b: seq<CpgRow>)
    requires multiset(a) == multiset(b)
    ensures Covered(a) == Covered(b)
    ensures Repeated(a) == Repeated(b)
    ensures Inconsistent(a) == Inconsistent(b)
  {
    assert forall r :: r in a <==> r in b by {
      forall r ensures r in a <==> r in b {
        assert r in a <==> r in multiset(a);
        assert r in b <==> r in multiset(b);
      }
    }
    PositionsPermutation(a, b);
  }

  /** A position is its `pos` alone: the same position on two chromosomes counts once. */
  lemma PositionIgnoresChromosome(c1: string, c2: string, p: int, s1: int, s2: int)
    ensures Covered([CpgRow(c1, p, s1), CpgRow(c2, p, s2)]) == {p}
    ensures p in Repeated([CpgRow(c1, p, s1), CpgRow(c2, p, s2)])
  {
    var rows := [CpgRow(c1, p, s1), CpgRow(c2, p, s2)];
    TwoAt(Positions(rows), 0, 1);
  }

  // ---------------------------------------------------------------- files

  const McpgPrefix := "_srtn_"

  /** `extract_barcode_from_filename`: the group of `_srtn_(.*?).deduplicated` in
      the basename, or the basename without its extension. */
  function McpgBarcode(path: string): (barcode: string)
    ensures IsLabel(path, McpgPrefix, barcode)
  {
    Label(path, McpgPrefix)
  }

  /** A row of the summary table, with its two share columns `Rep_pro` and `Ins_pro`. */
  datatype McpgRow = McpgRow(barcode: string, detectPos: nat, repPos: nat, insPos: nat, repPro: real, insPro: real)

  /** The row of a barcode and its three counts. */
  function CountsRow(barcode: string, detectPos: nat, repPos: nat, insPos: nat): McpgRow
  {
    McpgRow(barcode, detectPos, repPos, insPos, Proportion(repPos, detectPos), Proportion(insPos, detectPos))
  }

  /** The summary row of one file, from the reference definitions. */
  ghost function FileRow(path: string, rows: seq<CpgRow>): McpgRow
  {
    CountsRow(McpgBarcode(path), |Covered(rows)|, |Repeated(rows)|, |Inconsistent(rows)|)
  }

  /** Every row's shares lie between zero and one, the inconsistent share below the
      repeated one; a file with no position has zero shares. */
  lemma FileRowShares(path: string, rows: seq<CpgRow>)
    ensures var row := FileRow(path, rows);
      && row.insPos <= row.repPos <= row.detectPos <= |rows|
      && 0.0 <= row.insPro <= row.repPro <= 1.0
      && (row.detectPos == 0 ==> row.repPro == 0.0 && row.insPro == 0.0)
  {
    CountBounds(rows);
    ProportionMonotone(|Inconsistent(rows)|, |Repeated(rows)|, |Covered(rows)|);
  }

  /** The summary rows of `paths`, in that order. */
  ghost function McpgRows(paths: seq<string>, readRows: string -> seq<CpgRow>): seq<McpgRow>
  {
    MapFiles(paths, p => FileRow(p, readRows(p)))
  }

  /** A file without rows gets the row `[barcode, 0, 0, 0]`. */
  lemma EmptyFileRow(path: string)
    ensures FileRow(path, []) == McpgRow(McpgBarcode(path), 0, 0, 0, 0.0, 0.0)
  {
    assert Covered([]) == {};
  }

  /** `main` after the folder search: `files` are the paths found, and `readRows`
      gives the rows of the file at a path. With no file, nothing is written. */
  method SummarizeMcpg(files: seq<string>, readRows: string -> seq<CpgRow>) returns (summary: Option<seq<McpgRow>>)
    ensures summary.None? <==> files == []
    ensures summary.Some? ==> summary.value == McpgRows(Sort(files, LexLe), readRows)
    ensures summary.Some? ==> var sorted := Sort(files, LexLe);
      && |summary.value| == |sorted| == |files|
      && forall k :: 0 <= k < |files| ==> summary.value[k] == FileRow(sorted[k], readRows(sorted[k]))
  {
    if files == [] {
      return None;
    }
    var sorted := Sort(files, LexLe);
    var dataList: seq<McpgRow> := [];
    for i := 0 to |sorted|
      invariant dataList == McpgRows(sorted[..i], readRows)
    {
      var filePath := sorted[i];
      var rows := readRows(filePath);
      assert sorted[..i + 1][..i] == sorted[..i];
      if |rows| == 0 {
        var barcode := McpgBarcode(filePath);
        EmptyFileRow(filePath);
        dataList := dataList + [CountsRow(barcode, 0, 0, 0)];
        continue;
      }
      var detectPos, countGe2, status2 := McpgCounts(rows);
      var barcode := McpgBarcode(filePath);
      dataList := dataList + [CountsRow(barcode, detectPos, countGe2, status2)];
    }
    assert sorted[..|sorted|] == sorted;
    summary := Some(dataList);
    TableEntries(sorted, readRows);
  }

  /** Summary row `k` is computed from file `k` alone. */
  lemma TableEntries(sorted: seq<string>, readRows: string -> seq<CpgRow>)
    ensures |McpgRows(sorted, readRows)| == |sorted|
    ensures forall k :: 0 <= k < |sorted| ==> McpgRows(sorted, readRows)[k] == FileRow(sorted[k], readRows(sorted[k]))
  {
    forall k | 0 <= k < |sorted| ensures McpgRows(sorted, readRows)[k] == FileRow(sorted[k], readRows(sorted[k])) {
      MapFilesAt(sorted, p => FileRow(p, readRows(p)), k);
    }
  }
}
