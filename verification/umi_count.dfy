/** count_umi_from_bam_folder.py: per-file tag counts over a folder of BAM files.

    For each BAM file the tag of a read is the last `_`-separated field of its
    query name; the file's detail table counts reads per tag (in order of first
    appearance), and its summary row holds the file's barcode label, the number of
    distinct tags and the number of reads. Files are visited in sorted path order.
    A BAM file is the sequence of its reads' query names; the files the folder
    search found are given as a sequence of paths. */
module UmiCount {
  import opened Text
  import opened Tallies
  import opened Sorting
  import opened Outcomes
  import opened FileLabel
  import opened PerFile

  /** `name_parts[-1] if name_parts else ""`; `split` never returns an empty list,
      so the fallback is never taken. The tag is the longest suffix without `_`:
      the text after the last `_`, or the whole name when it has none. */
  function Tag(name: string): (t: string)
    ensures |t| <= |name| && t == name[|name| - |t|..] && '_' !in t
    ensures |t| == |name| || name[|name| - |t| - 1] == '_'
    ensures '_' !in name ==> t == name
  {
    LastFieldIsSuffix(name, '_');
    if '_' !in name then
      SplitWithoutSep(name, '_');
      LastField(name, '_')
    else LastField(name, '_')
  }

  /** A name ending in `_<tag>` has that tag. */
  lemma TagOfName(prefix: string, tag: string)
    requires '_' !in tag
    ensures Tag(prefix + "_" + tag) == tag
  {
    LastFieldAfterSep(prefix, '_', tag);
  }

  /** The tags of a file's reads, in read order. */
  function Tags(names: seq<string>): (tags: seq<string>)
    ensures |tags| == |names|
    ensures forall i :: 0 <= i < |names| ==> tags[i] == Tag(names[i])
  {
    if names == [] then [] else Tags(names[..|names| - 1]) + [Tag(names[|names| - 1])]
  }

  /** `umi_count_bam`: count reads per tag. Returns the number of distinct tags,
      the number of reads and the `(tag, count)` table. */
  method UmiCountBam(names: seq<string>) returns (umiCount: nat, readsNumber: nat, detail: seq<(string, nat)>)
    ensures detail == Items(TallyOf(Tags(names)))
    ensures umiCount == |detail| == |Elements(Tags(names))|
    ensures readsNumber == SumCounts(detail) == |names|
    ensures forall k :: 0 <= k < |detail| ==> detail[k].1 == multiset(Tags(names))[detail[k].0]
  {
    var tagCount: Tally<string> := Empty();
    for i := 0 to |names|
      invariant tagCount == TallyOf(Tags(names[..i]))
    {
      var tag := Tag(names[i]);
      assert Tags(names[..i + 1]) == Tags(names[..i]) + [tag] by {
        assert names[..i + 1][..i] == names[..i];
      }
      assert (Tags(names[..i]) + [tag])[..i] == Tags(names[..i]);
      tagCount := tagCount.Add(tag);
    }
    assert names[..|names|] == names;
    TagTable(names);
    detail := Items(tagCount);
    umiCount := |detail|;
    readsNumber := SumCounts(detail);
  }

  /** The tag table has one row per distinct tag, with the number of reads carrying
      it, and its counts add up to the number of reads. */
  lemma TagTable(names: seq<string>)
    ensures TallyOf(Tags(names)).Valid()
    ensures var detail := Items(TallyOf(Tags(names)));
      && |detail| == |Elements(Tags(names))|
      && SumCounts(detail) == |names|
      && forall k :: 0 <= k < |detail| ==> detail[k].1 == multiset(Tags(names))[detail[k].0]
  {
    var t := TallyOf(Tags(names));
    TallyOfSpec(Tags(names));
    KeyCount(Tags(names));
    SumItems(t);
    forall k | 0 <= k < |Items(t)| ensures Items(t)[k].1 == multiset(Tags(names))[Items(t)[k].0] {
      assert t.keys[k] in t.count;
    }
  }

  lemma ThreeTags(n1: string, n2: string, n3: string)
    ensures Tags([n1 + "_R1", n2 + "_R1", n3 + "_R2"]) == ["R1", "R1", "R2"]
  {
    assert '_' !in "R1" && '_' !in "R2";
    assert n1 + "_R1" == n1 + "_" + "R1" && n2 + "_R1" == n2 + "_" + "R1" && n3 + "_R2" == n3 + "_" + "R2";
    TagOfName(n1, "R1");
    TagOfName(n2, "R1");
    TagOfName(n3, "R2");
    TagsOfThree(n1 + "_R1", n2 + "_R1", n3 + "_R2", "R1", "R1", "R2");
  }

  /** Three names whose tags are known give those tags, in order. */
  lemma TagsOfThree(a: string, b: string, c: string, ta: string, tb: string, tc: string)
    requires Tag(a) == ta && Tag(b) == tb && Tag(c) == tc
    ensures Tags([a, b, c]) == [ta, tb, tc]
  {
    var tags := Tags([a, b, c]);
    assert tags[0] == ta && tags[1] == tb && tags[2] == tc;
  }

  /** Counting `a, a, b` with `a != b` gives `a: 2, b: 1`, in that order. */
  lemma CountAAB(a: string, b: string)
    requires a != b
    ensures TallyOf([a, a, b]) == Tally([a, b], map[a := 2, b := 1])
    ensures Items(TallyOf([a, a, b])) == [(a, 2), (b, 1)]
  {
    var t2 := TallyOf([a, a]);
    assert t2 == Tally([a], map[a := 2]) by { CountAA(a); }
    assert TallyOf([a, a, b]) == t2.Add(b) by {
      assert [a, a, b][..2] == [a, a];
    }
    assert t2.Add(b) == Tally([a, b], map[a := 2, b := 1]) by {
      assert b !in t2.count;
    }
    var items := Items(Tally([a, b], map[a := 2, b := 1]));
    assert items[0] == (a, 2) && items[1] == (b, 1);
  }

  lemma CountAA(a: string)
    ensures TallyOf([a, a]) == Tally([a], map[a := 2])
  {
    OneMore([a], Tally([a], map[a := 1]));
    OneMore([a, a], Tally([a], map[a := 2]));
  }

  /** One step of the counting loop, stated on the whole sequence. */
  lemma OneMore(xs: seq<string>, u: Tally<string>)
    requires xs != []
    requires TallyOf(xs[..|xs| - 1]).Add(xs[|xs| - 1]) == u
    ensures TallyOf(xs) == u
  {
  }

  /** Three reads whose names end in R1, R1 and R2 give the table `R1: 2, R2: 1`. */
  lemma ThreeReadsExample(n1: string, n2: string, n3: string)
    ensures Items(TallyOf(Tags([n1 + "_R1", n2 + "_R1", n3 + "_R2"]))) == [("R1", 2), ("R2", 1)]
  {
    ThreeTags(n1, n2, n3);
    assert "R1" != "R2" by { assert "R1"[1] != "R2"[1]; }
    CountAAB("R1", "R2");
  }

  const UmiPrefix := "_cc3_srtn_"

  /** `extract_barcode_from_filename`: the group of `_cc3_srtn_(.*?).deduplicated`
      in the basename, or the basename without its extension. */
  function BarcodeFromFilename(bamPath: string): (barcode: string)
    ensures IsLabel(bamPath, UmiPrefix, barcode)
  {
    Label(bamPath, UmiPrefix)
  }

  /** A row of the summary table. */
  datatype SummaryRow = SummaryRow(barcode: string, umiCount: nat, readsCount: nat)

  /** The summary row of one BAM file, from its path and its reads' names alone. */
  function FileRow(bamPath: string, names: seq<string>): SummaryRow
  {
    SummaryRow(BarcodeFromFilename(bamPath), |Elements(Tags(names))|, |names|)
  }

  /** `os.path.basename(fbam) + ".reads.info.txt"`: a file of the working
      directory, named after the BAM file. */
  function DetailPath(bamPath: string): (p: string)
    ensures '/' !in p
    ensures |p| >= |DetailSuffix| && p[|p| - |DetailSuffix|..] == DetailSuffix
  {
    Basename(bamPath) + DetailSuffix
  }

  const DetailSuffix := ".reads.info.txt"

  /** Two BAM files get the same detail file exactly when their file names agree. */
  lemma DetailPathInjective(a: string, b: string)
    ensures DetailPath(a) == DetailPath(b) <==> Basename(a) == Basename(b)
  {
    if DetailPath(a) == DetailPath(b) {
      assert Basename(a) == DetailPath(a)[..|DetailPath(a)| - |DetailSuffix|];
      assert Basename(b) == DetailPath(b)[..|DetailPath(b)| - |DetailSuffix|];
    }
  }

  /** The summary rows of `paths`, in that order. */
  function Rows(paths: seq<string>, readNames: string -> seq<string>): seq<SummaryRow>
  {
    MapFiles(paths, p => FileRow(p, readNames(p)))
  }

  /** The detail table of one BAM file: its file name, and its `(tag, count)` rows. */
  function DetailTable(bamPath: string, names: seq<string>): (string, seq<(string, nat)>)
  {
    (DetailPath(bamPath), Items(TallyOf(Tags(names))))
  }

  /** The detail tables of `paths`, in that order. */
  function DetailTables(paths: seq<string>, readNames: string -> seq<string>): seq<(string, seq<(string, nat)>)>
  {
    MapFiles(paths, p => DetailTable(p, readNames(p)))
  }

  lemma LexLeIsOrder()
    ensures TotalPreorder(LexLe)
    ensures forall a, b :: LexLe(a, b) && LexLe(b, a) ==> a == b
  {
    forall a, b ensures LexLe(a, b) || LexLe(b, a) {
      LexLeTotal(a, b);
    }
    forall a, b, c | LexLe(a, b) && LexLe(b, c) ensures LexLe(a, c) {
      LexLeTransitive(a, b, c);
    }
    forall a, b | LexLe(a, b) && LexLe(b, a) ensures a == b {
      LexLeAntisymmetric(a, b);
    }
  }

  /** `main` after the folder search: `bamFiles` are the paths found, and
      `readNames` gives the query names of the reads of the BAM file at a path.
      With no file, nothing is written (`None`); otherwise the summary table, and
      the detail tables in the order they are written. */
  method SummarizeFolder(bamFiles: seq<string>, readNames: string -> seq<string>)
    returns (summary: Option<seq<SummaryRow>>, details: seq<(string, seq<(string, nat)>)>)
    ensures summary.None? <==> bamFiles == []
    ensures summary.Some? ==> summary.value == Rows(Sort(bamFiles, LexLe), readNames)
    ensures details == DetailTables(Sort(bamFiles, LexLe), readNames)
    ensures var sorted := Sort(bamFiles, LexLe);
      && |sorted| == |details| == |bamFiles|
      && (summary.Some? ==> |summary.value| == |bamFiles|)
      && (summary.Some? ==> forall k :: 0 <= k < |bamFiles| ==> summary.value[k] == FileRow(sorted[k], readNames(sorted[k])))
      && forall k :: 0 <= k < |bamFiles| ==> details[k] == DetailTable(sorted[k], readNames(sorted[k]))
  {
    var sorted := Sort(bamFiles, LexLe);
    details := [];
    if bamFiles == [] {
      summary := None;
      return;
    }
    var barcodeList: seq<SummaryRow> := [];
    for i := 0 to |sorted|
      invariant barcodeList == Rows(sorted[..i], readNames)
      invariant details == DetailTables(sorted[..i], readNames)
    {
      var fbam := sorted[i];
      var umiCount, readsNumber, tempDf := UmiCountBam(readNames(fbam));
      var barcode := BarcodeFromFilename(fbam);
      var row, table := SummaryRow(barcode, umiCount, readsNumber), (DetailPath(fbam), tempDf);
      assert row == FileRow(fbam, readNames(fbam)) && table == DetailTable(fbam, readNames(fbam));
      FolderStep(sorted, readNames, i);
      barcodeList := barcodeList + [row];
      details := details + [table];
    }
    assert sorted[..|sorted|] == sorted;
    summary := Some(barcodeList);
    FolderEntries(sorted, readNames);
  }

  /** One more file adds its row and its detail table at the end. */
  lemma FolderStep(sorted: seq<string>, readNames: string -> seq<string>, i: nat)
    requires i < |sorted|
    ensures Rows(sorted[..i + 1], readNames) == Rows(sorted[..i], readNames) + [FileRow(sorted[i], readNames(sorted[i]))]
    ensures DetailTables(sorted[..i + 1], readNames)
      == DetailTables(sorted[..i], readNames) + [DetailTable(sorted[i], readNames(sorted[i]))]
  {
    assert sorted[..i + 1][..i] == sorted[..i];
  }

  /** Summary row `k` and detail table `k` are computed from file `k` alone. */
  lemma FolderEntries(sorted: seq<string>, readNames: string -> seq<string>)
    ensures |Rows(sorted, readNames)| == |DetailTables(sorted, readNames)| == |sorted|
    ensures forall k :: 0 <= k < |sorted| ==> Rows(sorted, readNames)[k] == FileRow(sorted[k], readNames(sorted[k]))
    ensures forall k :: 0 <= k < |sorted| ==> DetailTables(sorted, readNames)[k] == DetailTable(sorted[k], readNames(sorted[k]))
  {
    forall k | 0 <= k < |sorted|
      ensures Rows(sorted, readNames)[k] == FileRow(sorted[k], readNames(sorted[k]))
      ensures DetailTables(sorted, readNames)[k] == DetailTable(sorted[k], readNames(sorted[k]))
    {
      MapFilesAt(sorted, p => FileRow(p, readNames(p)), k);
      MapFilesAt(sorted, p => DetailTable(p, readNames(p)), k);
    }
  }

  /** The summary lists the files in increasing path order, and it is the same
      whatever order the folder search returns the paths in. */
  lemma SummaryOrder(bamFiles: seq<string>, other: seq<string>)
    requires multiset(other) == multiset(bamFiles)
    ensures var sorted := Sort(bamFiles, LexLe);
      && (forall i, j :: 0 <= i < j < |sorted| ==> LexLe(sorted[i], sorted[j]))
      && multiset(sorted) == multiset(bamFiles)
      && Sort(other, LexLe) == sorted
  {
    LexLeIsOrder();
    SortSpec(bamFiles, LexLe);
    SortDeterminedByElements(other, bamFiles, LexLe);
  }
}
