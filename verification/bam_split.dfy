/** split_bam_by_cb.py: one SAM file per cell barcode.

    Each alignment's query name is expected to read `<CB>_<UMI>_<READNUM>_<mate>`.
    The first field of a name with at least four `_`-separated fields is its CB;
    a read whose name has fewer fields is reported and skipped. The first read of
    a CB creates `split_bam_files_sam/<base>_<CB>.sam` holding the SAM header text
    and that read's line; later reads of the CB append their lines. The file
    system is a map from path to contents, and a read is its query name and the
    SAM line pysam renders for it. */
module BamSplit {
  import opened Text
  import opened Tallies
  import opened Outcomes
  import opened FileLabel

  /** An alignment: its query name and its rendered SAM line (`read.to_string()`). */
  datatype AlignedRead = AlignedRead(queryName: string, text: string)

  const OutputDir := "split_bam_files_sam"

  /** `extract_cb_from_read_name`: the text before the first underscore, when the
      name has at least four `_`-separated fields. */
  function ExtractCb(name: string): (cb: Option<string>)
    ensures cb.Some? ==> |cb.value| < |name|
  {
    FirstFieldIsPrefix(name, '_');
    SplitCount(name, '_');
    var parts := Split(name, '_');
    if |parts| < 4 then None else Some(parts[0])
  }

  /** A CB is found exactly when the name has at least three underscores, and it
      is then the text before the first underscore. */
  lemma ExtractCbSpec(name: string)
    ensures ExtractCb(name).Some? <==> Occurrences(name, '_') >= 3
    ensures ExtractCb(name).Some? ==>
      var cb := ExtractCb(name).value;
      |cb| < |name| && name[..|cb|] == cb && '_' !in cb && name[|cb|] == '_'
  {
    SplitCount(name, '_');
    FirstFieldIsPrefix(name, '_');
  }

  /** Reading back a name built as `<cb>_<rest>`: the CB is recovered when `rest`
      holds at least two more underscores, and the read is skipped otherwise. */
  lemma ExtractCbOfName(cb: string, rest: string)
    requires '_' !in cb
    ensures ExtractCb(cb + "_" + rest) == if Occurrences(rest, '_') >= 2 then Some(cb) else None
  {
    var tail := "_" + rest;
    assert cb + "_" + rest == cb + tail;
    SplitHead(cb, tail, '_');
    assert tail[1..] == rest;
    assert Split(tail, '_') == [""] + Split(rest, '_');
    assert cb + "" == cb;
    SplitCount(rest, '_');
  }

  /** `os.path.basename(bam_file_path).replace(".bam", "")`: what is left of the
      file name once every `.bam` is deleted. */
  function OutputBase(bamPath: string): (base: string)
    ensures '/' !in base
    ensures multiset(base) <= multiset(Basename(bamPath))
  {
    var name := Basename(bamPath);
    ReplaceDeletes(name, ".bam");
    var base := ReplaceAll(name, ".bam", "");
    assert multiset(base)['/'] <= multiset(name)['/'] == 0;
    base
  }

  /** For `<dir>/<stem>.bam`, where no `.bam` starts inside the stem, the base is the stem. */
  lemma OutputBaseOfBam(dir: string, stem: string)
    requires '/' !in stem
    requires forall j :: 0 <= j < |stem| ==> !OccursAt(stem + ".bam", ".bam", j)
    ensures OutputBase(dir + "/" + stem + ".bam") == stem
  {
    var name := stem + ".bam";
    assert dir + "/" + stem + ".bam" == dir + "/" + name;
    BasenameOf(dir, name);
    ReplaceNoMatchBefore(name, ".bam", "", |stem|);
    assert name[..|stem|] == stem && name[|stem|..] == ".bam";
    ReplaceAtHead([], ".bam", "");
    assert ".bam" + [] == ".bam";
    assert stem + "" == stem;
  }

  /** `os.path.join(output_dir, f"{basename}_{cb}.sam")`: a file of the output
      directory, named after the base and the CB. */
  function PartitionPath(base: string, cb: string): (p: string)
    ensures '/' !in base && '/' !in cb ==> Basename(p) == base + "_" + cb + ".sam"
  {
    var name := base + "_" + cb + ".sam";
    if '/' in name then OutputDir + "/" + name
    else
      BasenameOf(OutputDir, name);
      OutputDir + "/" + name
  }

  /** Distinct barcodes get distinct files. */
  lemma PartitionPathInjective(base: string, cb1: string, cb2: string)
    ensures PartitionPath(base, cb1) == PartitionPath(base, cb2) <==> cb1 == cb2
  {
    if PartitionPath(base, cb1) == PartitionPath(base, cb2) {
      var n := |OutputDir + "/" + base + "_"|;
      assert PartitionPath(base, cb1)[n..n + |cb1|] == cb1;
      assert PartitionPath(base, cb2)[n..n + |cb2|] == cb2;
    }
  }

  function PartitionPaths(base: string, cbs: set<string>): set<string>
  {
    set cb | cb in cbs :: PartitionPath(base, cb)
  }

  /** The CBs of the reads that have one, in read order. */
  function Routable(alignments: seq<AlignedRead>): seq<string>
  {
    if alignments == [] then []
    else
      var init, last := alignments[..|alignments| - 1], alignments[|alignments| - 1];
      Routable(init) + (match ExtractCb(last.queryName) case Some(cb) => [cb] case None => [])
  }

  /** The SAM lines of the reads with barcode `cb`, in read order. */
  function RoutedTexts(alignments: seq<AlignedRead>, cb: string): seq<string>
  {
    if alignments == [] then []
    else
      var init, last := alignments[..|alignments| - 1], alignments[|alignments| - 1];
      RoutedTexts(init, cb) + (if ExtractCb(last.queryName) == Some(cb) then [last.text] else [])
  }

  /** The query names of the skipped alignments, in read order (each gets a warning). */
  function Unparsed(alignments: seq<AlignedRead>): seq<string>
  {
    if alignments == [] then []
    else
      var init, last := alignments[..|alignments| - 1], alignments[|alignments| - 1];
      Unparsed(init) + (if ExtractCb(last.queryName).None? then [last.queryName] else [])
  }

  /** `read.to_string() + "\n"` */
  function Line(text: string): string
  {
    text + "\n"
  }

  /** The lines written, one after the other. */
  function Lines(texts: seq<string>): string
  {
    if texts == [] then "" else Lines(texts[..|texts| - 1]) + Line(texts[|texts| - 1])
  }

  /** One more read: it joins the lines of its CB, or the skipped names. */
  lemma SplitStep(alignments: seq<AlignedRead>, i: nat)
    requires i < |alignments|
    ensures var p, q, r := alignments[..i], alignments[..i + 1], alignments[i];
      match ExtractCb(r.queryName)
      case None =>
        && Routable(q) == Routable(p) && Unparsed(q) == Unparsed(p) + [r.queryName]
        && forall cb :: RoutedTexts(q, cb) == RoutedTexts(p, cb)
      case Some(c) =>
        && Routable(q) == Routable(p) + [c] && Unparsed(q) == Unparsed(p)
        && RoutedTexts(q, c) == RoutedTexts(p, c) + [r.text]
        && forall cb :: cb != c ==> RoutedTexts(q, cb) == RoutedTexts(p, cb)
  {
    assert alignments[..i + 1][..i] == alignments[..i];
  }

  /** A CB with no routable read has no lines. */
  lemma {:induction false} RoutedTextsEmpty(alignments: seq<AlignedRead>, cb: string)
    ensures cb !in Routable(alignments) ==> RoutedTexts(alignments, cb) == []
  {
    if alignments != [] {
      RoutedTextsEmpty(alignments[..|alignments| - 1], cb);
    }
  }

  lemma LinesAppend(texts: seq<string>, t: string)
    ensures Lines(texts + [t]) == Lines(texts) + Line(t)
  {
    assert (texts + [t])[..|texts|] == texts;
  }

  /** Regrouping a concatenation, on plain strings so that the operands stay folded. */
  lemma ConcatAssoc(a: string, b: string, c: string)
    ensures a + (b + c) == (a + b) + c
  {
  }

  /** The files written after routing `alignments`: one per CB routed so far
      (`written`), holding the header and that CB's lines. */
  ghost predicate Routed(files: map<string, string>, written: set<string>,
                         base: string, headerText: string, alignments: seq<AlignedRead>)
  {
    && written == (set cb | cb in Routable(alignments))
    && files.Keys == PartitionPaths(base, written)
    && (forall cb :: cb in written ==>
          (PartitionPath(base, cb) in files
           && files[PartitionPath(base, cb)] == headerText + Lines(RoutedTexts(alignments, cb))))
  }

  /** A skipped read writes nothing. */
  lemma RouteSkip(files: map<string, string>, written: set<string>,
                  base: string, headerText: string, alignments: seq<AlignedRead>, i: nat)
    requires i < |alignments| && ExtractCb(alignments[i].queryName).None?
    requires Routed(files, written, base, headerText, alignments[..i])
    ensures Routed(files, written, base, headerText, alignments[..i + 1])
  {
    SplitStep(alignments, i);
  }

  /** The first read of a CB creates (or truncates) its file: the header, then the read's line. */
  lemma RouteFirst(files: map<string, string>, written: set<string>,
                   base: string, headerText: string, alignments: seq<AlignedRead>, i: nat, c: string)
    requires i < |alignments| && ExtractCb(alignments[i].queryName) == Some(c) && c !in written
    requires Routed(files, written, base, headerText, alignments[..i])
    ensures Routed(files[PartitionPath(base, c) := headerText + Line(alignments[i].text)], written + {c},
                   base, headerText, alignments[..i + 1])
  {
    var t := alignments[i].text;
    var p, q := alignments[..i], alignments[..i + 1];
    var pc := PartitionPath(base, c);
    var files' := files[pc := headerText + Line(t)];
    SplitStep(alignments, i);
    assert (set cb | cb in Routable(q)) == written + {c};
    assert PartitionPaths(base, written + {c}) == PartitionPaths(base, written) + {pc};
    assert files'.Keys == files.Keys + {pc};
    forall cb | cb in written + {c}
      ensures PartitionPath(base, cb) in files' && files'[PartitionPath(base, cb)] == headerText + Lines(RoutedTexts(q, cb))
    {
      if cb == c {
        RoutedTextsEmpty(p, c);
        assert RoutedTexts(q, c) == [t];
        LinesAppend([], t);
        assert [] + [t] == [t];
        assert Lines([t]) == Line(t);
      } else {
        PartitionPathInjective(base, cb, c);
        assert RoutedTexts(q, cb) == RoutedTexts(p, cb);
        assert files'[PartitionPath(base, cb)] == files[PartitionPath(base, cb)];
      }
    }
  }

  /** A later read of a CB appends its line to the CB's file. */
  lemma RouteAgain(files: map<string, string>, written: set<string>,
                   base: string, headerText: string, alignments: seq<AlignedRead>, i: nat, c: string)
    requires i < |alignments| && ExtractCb(alignments[i].queryName) == Some(c) && c in written
    requires Routed(files, written, base, headerText, alignments[..i])
    ensures PartitionPath(base, c) in files
    ensures Routed(files[PartitionPath(base, c) := files[PartitionPath(base, c)] + Line(alignments[i].text)], written,
                   base, headerText, alignments[..i + 1])
  {
    var t := alignments[i].text;
    var p, q := alignments[..i], alignments[..i + 1];
    var pc := PartitionPath(base, c);
    var files' := files[pc := files[pc] + Line(t)];
    SplitStep(alignments, i);
    assert (set cb | cb in Routable(q)) == written;
    assert pc in PartitionPaths(base, written);
    assert files'.Keys == files.Keys;
    forall cb | cb in written
      ensures PartitionPath(base, cb) in files' && files'[PartitionPath(base, cb)] == headerText + Lines(RoutedTexts(q, cb))
    {
      AgainFile(files, written, base, headerText, alignments, i, c, cb);
    }
  }

  /** After a later read of `c`, the file of each written CB `cb` holds its lines so far. */
  lemma AgainFile(files: map<string, string>, written: set<string>,
                  base: string, headerText: string, alignments: seq<AlignedRead>, i: nat, c: string, cb: string)
    requires i < |alignments| && ExtractCb(alignments[i].queryName) == Some(c) && c in written
    requires Routed(files, written, base, headerText, alignments[..i])
    requires cb in written
    ensures var pc := PartitionPath(base, c);
      var files' := files[pc := files[pc] + Line(alignments[i].text)];
      PartitionPath(base, cb) in files'
      && files'[PartitionPath(base, cb)] == headerText + Lines(RoutedTexts(alignments[..i + 1], cb))
  {
    var t := alignments[i].text;
    var p, q := alignments[..i], alignments[..i + 1];
    SplitStep(alignments, i);
    if cb == c {
      LinesAppend(RoutedTexts(p, c), t);
      ConcatAssoc(headerText, Lines(RoutedTexts(p, c)), Line(t));
    } else {
      PartitionPathInjective(base, cb, c);
    }
  }

  /** `main`'s loop: route every read to the file of its CB. The result is the
      files written (each path with its final contents), the set of CBs that got
      a file, and the names of the skipped reads; no other file is touched. */
  method SplitBam(bamPath: string, headerText: string, alignments: seq<AlignedRead>)
    returns (files: map<string, string>, writtenCbs: set<string>, unparsed: seq<string>)
    ensures writtenCbs == set cb | cb in Routable(alignments)
    ensures unparsed == Unparsed(alignments)
    ensures files.Keys == PartitionPaths(OutputBase(bamPath), writtenCbs)
    ensures forall cb :: cb in writtenCbs ==>
      files[PartitionPath(OutputBase(bamPath), cb)] == headerText + Lines(RoutedTexts(alignments, cb))
  {
    var base := OutputBase(bamPath);
    files, writtenCbs, unparsed := map[], {}, [];
    for i := 0 to |alignments|
      invariant Routed(files, writtenCbs, base, headerText, alignments[..i])
      invariant unparsed == Unparsed(alignments[..i])
    {
      var read := alignments[i];
      SplitStep(alignments, i);
      var cb := ExtractCb(read.queryName);
      if cb.None? {
        RouteSkip(files, writtenCbs, base, headerText, alignments, i);
        unparsed := unparsed + [read.queryName];
        continue;
      }
      var outPath := PartitionPath(base, cb.value);
      if cb.value !in writtenCbs {
        RouteFirst(files, writtenCbs, base, headerText, alignments, i, cb.value);
        files := files[outPath := headerText + Line(read.text)];
        writtenCbs := writtenCbs + {cb.value};
      } else {
        RouteAgain(files, writtenCbs, base, headerText, alignments, i, cb.value);
        files := files[outPath := files[outPath] + Line(read.text)];
      }
    }
    assert alignments[..|alignments|] == alignments;
  }

  /** Every read is either routed or skipped. */
  lemma {:induction false} RoutedOrSkipped(alignments: seq<AlignedRead>)
    ensures |Routable(alignments)| + |Unparsed(alignments)| == |alignments|
    ensures forall n :: n in Unparsed(alignments) ==> Occurrences(n, '_') < 3
  {
    if alignments != [] {
      RoutedOrSkipped(alignments[..|alignments| - 1]);
      ExtractCbSpec(alignments[|alignments| - 1].queryName);
    }
  }

  /** The file of a CB holds one line per read with that CB. */
  lemma {:induction false} PartitionSizes(alignments: seq<AlignedRead>, cb: string)
    ensures |RoutedTexts(alignments, cb)| == multiset(Routable(alignments))[cb]
  {
    if alignments != [] {
      var n := |alignments| - 1;
      PartitionSizes(alignments[..n], cb);
      SplitStep(alignments, n);
      assert alignments[..n + 1] == alignments;
    }
  }

  /** The number of lines in a CB's file is that CB's count among the routed reads. */
  lemma PartitionCounts(alignments: seq<AlignedRead>, cb: string)
    ensures cb in TallyOf(Routable(alignments)).count <==> cb in Routable(alignments)
    ensures cb in Routable(alignments) ==> |RoutedTexts(alignments, cb)| == TallyOf(Routable(alignments)).count[cb]
  {
    PartitionSizes(alignments, cb);
    TallyOfSpec(Routable(alignments));
  }

  /** `written_cbs` only grows: after more reads it holds every CB it held before,
      and a CB once there stays there. */
  lemma {:induction false} WrittenGrows(alignments: seq<AlignedRead>, i: nat, j: nat)
    requires i <= j <= |alignments|
    ensures Routable(alignments[..i]) <= Routable(alignments[..j])
    ensures (set cb | cb in Routable(alignments[..i])) <= (set cb | cb in Routable(alignments[..j]))
    decreases j - i
  {
    if i < j {
      WrittenGrows(alignments, i, j - 1);
      SplitStep(alignments, j - 1);
    }
  }
}
