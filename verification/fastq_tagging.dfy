/** add_cb_umi_to_fastq.py: cell barcode (CB) and UMI tagging of paired FASTQ reads.

    Mate 1 is scanned once: a read whose sequence starts with a whitelisted CB of
    `cbLen` bases, followed by `umiLen` UMI bases, is written under the header
    `@<id>_<CB>_<UMI> 1:N:0:<UMI>` and indexed by its id; every other read is
    counted as invalid and dropped. Mate 2 is scanned once: a read whose id is in
    the index is written under the indexed header with the mate digit turned to 2;
    every other read is counted as missing and dropped. Reading and writing the
    gzipped FASTQ files is not modelled: records arrive as a sequence, and each
    output file is the sequence of entries written to it. */
module FastqTagging {
  import opened Text
  import opened Tallies
  import opened Sorting
  import opened Outcomes
  import opened Ratios

  /** A Phred score as the FASTQ (Sanger) parser yields it: 0..93, written '!'..'~'. */
  type Phred = q: int | 0 <= q <= 93

  /** A parsed FASTQ record: its id, sequence and per-base quality scores. */
  datatype FastqRecord = FastqRecord(id: string, sequence: string, quals: seq<Phred>)

  /** A FASTQ record as written: header line, sequence line, `+`, quality line. */
  datatype FastqEntry = FastqEntry(header: string, sequence: string, qual: string)

  const Mate1Tag := " 1:N:0:"
  const Mate2Tag := " 2:N:0:"

  // ---------------------------------------------------------------- whitelist

  /** The barcodes a whitelist file yields: its stripped, non-empty lines. */
  function Whitelist(lines: seq<string>): set<string>
  {
    set l | l in lines && Strip(l) != "" :: Strip(l)
  }

  /** `read_cell_barcodes`: collect the stripped non-empty lines; raise when there are none. */
  method ReadCellBarcodes(path: string, lines: seq<string>) returns (r: Result<set<string>, string>)
    ensures r.Success? <==> exists l :: l in lines && !AllSpace(l)
    ensures r.Success? ==> r.value == Whitelist(lines) && r.value != {}
    ensures r.Success? ==> forall b :: b in r.value ==> b != "" && exists l :: l in lines && Strip(l) == b
    ensures r.Failure? ==> r.error == "No barcodes found in " + path
  {
    var cbSet: set<string> := {};
    for i := 0 to |lines|
      invariant cbSet == Whitelist(lines[..i])
    {
      assert lines[..i + 1] == lines[..i] + [lines[i]];
      var line := Strip(lines[i]);
      if line == "" {
        continue;
      }
      cbSet := cbSet + {line};
    }
    assert lines[..|lines|] == lines;
    if cbSet == {} {
      forall l | l in lines ensures AllSpace(l) {
        StripEmptyIffAllSpace(l);
        assert Strip(l) != "" ==> Strip(l) in Whitelist(lines);
      }
      r := Failure("No barcodes found in " + path);
    } else {
      var b :| b in cbSet;
      var l :| l in lines && Strip(l) != "" && Strip(l) == b;
      StripEmptyIffAllSpace(l);
      r := Success(cbSet);
    }
  }

  // ---------------------------------------------------------------- qualities

  /** `"".join(chr(q + 33) for q in quals)`: one printable character per score,
      and decoding gives the scores back. */
  function EncodeQuality(quals: seq<Phred>): (e: string)
    ensures |e| == |quals|
    ensures forall i :: 0 <= i < |quals| ==> IsQualityChar(e[i])
    ensures DecodeQuality(e) == quals
  {
    seq(|quals|, i requires 0 <= i < |quals| => (quals[i] as int + 33) as char)
  }

  predicate IsQualityChar(c: char)
  {
    '!' <= c <= '~'
  }

  function DecodeChar(c: char): Phred
    requires IsQualityChar(c)
  {
    c as int - 33
  }

  /** The parser's side of the convention: `ord(c) - 33` for each character. */
  function DecodeQuality(s: string): seq<Phred>
    requires forall i :: 0 <= i < |s| ==> IsQualityChar(s[i])
  {
    seq(|s|, i requires 0 <= i < |s| => DecodeChar(s[i]))
  }

  /** Encoding the decoded scores gives the quality line back. */
  lemma DecodeQualityRoundTrip(s: string)
    requires forall i :: 0 <= i < |s| ==> IsQualityChar(s[i])
    ensures EncodeQuality(DecodeQuality(s)) == s
  {
    var e := EncodeQuality(DecodeQuality(s));
    assert |e| == |s|;
    forall i | 0 <= i < |s| ensures e[i] == s[i] {
      assert e[i] as int == s[i] as int;
    }
  }

  // ---------------------------------------------------------------- headers

  /** `f"@{id}_{cb}_{umi} 1:N:0:{umi}"`. The header grammar is unambiguous when
      the id, CB and UMI hold no space: parsing recovers exactly the three parts. */
  function Header1(id: string, cb: string, umi: string): (h: string)
    ensures ' ' !in id && ' ' !in cb && ' ' !in umi ==> ParseHeader1(h, |cb|, |umi|) == Some((id, cb, umi))
  {
    ParseHeader1RoundTrip(id, cb, umi);
    "@" + id + "_" + cb + "_" + umi + Mate1Tag + umi
  }

  /** The same header for the second mate. */
  function Header2(id: string, cb: string, umi: string): string
  {
    "@" + id + "_" + cb + "_" + umi + Mate2Tag + umi
  }

  /** Reads a first-mate header back, given the CB and UMI lengths: the read name
      runs to the first space and ends in `_<cb>_<umi>`; the rest is ` 1:N:0:<umi>`. */
  function ParseHeader1(h: string, cbLen: nat, umiLen: nat): Option<(string, string, string)>
  {
    if h == [] || h[0] != '@' then None
    else
      FirstFieldIsPrefix(h[1..], ' ');
      var name := Split(h[1..], ' ')[0];
      if |name| < cbLen + umiLen + 2 then None
      else
        var idLen := |name| - cbLen - umiLen - 2;
        var id := name[..idLen];
        var cb := name[idLen + 1..idLen + 1 + cbLen];
        var umi := name[|name| - umiLen..];
        if name[idLen] == '_' && name[idLen + 1 + cbLen] == '_' && h[1 + |name|..] == Mate1Tag + umi
        then Some((id, cb, umi))
        else None
  }

  /** Parsing a header assembled from space-free parts. */
  lemma ParseHeader1RoundTrip(id: string, cb: string, umi: string)
    ensures ' ' !in id && ' ' !in cb && ' ' !in umi ==>
      ParseHeader1("@" + id + "_" + cb + "_" + umi + Mate1Tag + umi, |cb|, |umi|) == Some((id, cb, umi))
  {
    if ' ' in id || ' ' in cb || ' ' in umi {
      return;
    }
    var name := id + "_" + cb + "_" + umi;
    var h := "@" + id + "_" + cb + "_" + umi + Mate1Tag + umi;
    assert h[1..] == name + (Mate1Tag + umi);
    SplitHead(name, Mate1Tag + umi, ' ');
    assert Split(Mate1Tag + umi, ' ')[0] == "";
    assert Split(h[1..], ' ')[0] == name;
    var idLen := |name| - |cb| - |umi| - 2;
    assert idLen == |id|;
    assert name[..idLen] == id;
    assert name[idLen + 1..idLen + 1 + |cb|] == cb;
    assert name[|name| - |umi|..] == umi;
    assert h[1 + |name|..] == Mate1Tag + umi;
  }

  /** Whatever parses is a header built from the parts it parses to. */
  lemma ParseHeader1Sound(h: string, cbLen: nat, umiLen: nat)
    requires ParseHeader1(h, cbLen, umiLen).Some?
    ensures var (id, cb, umi) := ParseHeader1(h, cbLen, umiLen).value;
      |cb| == cbLen && |umi| == umiLen && h == Header1(id, cb, umi)
  {
    var rest := h[1..];
    FirstFieldIsPrefix(rest, ' ');
    var name := Split(rest, ' ')[0];
    var idLen := |name| - cbLen - umiLen - 2;
    assert name == h[1..1 + |name|];
    HeaderOfParts(h, name, idLen, cbLen, umiLen);
  }

  /** A header whose name has `_` at the two cut points and whose tail is the
      mate-1 marker and the UMI is the header built from the three parts. */
  lemma HeaderOfParts(h: string, name: string, idLen: nat, cbLen: nat, umiLen: nat)
    requires 1 + |name| <= |h| && h[0] == '@' && name == h[1..1 + |name|]
    requires |name| == idLen + cbLen + umiLen + 2
    requires name[idLen] == '_' && name[idLen + 1 + cbLen] == '_'
    requires h[1 + |name|..] == Mate1Tag + name[|name| - umiLen..]
    ensures h == Header1(name[..idLen], name[idLen + 1..idLen + 1 + cbLen], name[|name| - umiLen..])
  {
    var id, cb, umi := name[..idLen], name[idLen + 1..idLen + 1 + cbLen], name[|name| - umiLen..];
    assert name == id + "_" + cb + "_" + umi;
    assert h == "@" + name + h[1 + |name|..];
  }

  // ---------------------------------------------------------------- mate 1

  /** The test applied to each mate-1 read: long enough for CB and UMI, and a whitelisted CB. */
  predicate Accepts(r: FastqRecord, whitelist: set<string>, cbLen: nat, umiLen: nat)
  {
    |r.sequence| >= cbLen + umiLen && r.sequence[..cbLen] in whitelist
  }

  /** The entry written for an accepted read: the new header, the sequence unchanged. */
  function Tagged(r: FastqRecord, cbLen: nat, umiLen: nat): FastqEntry
    requires |r.sequence| >= cbLen + umiLen
  {
    FastqEntry(Header1(r.id, r.sequence[..cbLen], r.sequence[cbLen..cbLen + umiLen]), r.sequence, EncodeQuality(r.quals))
  }

  /** The accepted reads, in input order. */
  function Accepted(recs: seq<FastqRecord>, whitelist: set<string>, cbLen: nat, umiLen: nat): (acc: seq<FastqRecord>)
    ensures |acc| <= |recs|
  {
    if recs == [] then []
    else
      var init, last := recs[..|recs| - 1], recs[|recs| - 1];
      Accepted(init, whitelist, cbLen, umiLen) + (if Accepts(last, whitelist, cbLen, umiLen) then [last] else [])
  }

  /** The mate-1 output file. */
  function Written1(recs: seq<FastqRecord>, whitelist: set<string>, cbLen: nat, umiLen: nat): seq<FastqEntry>
  {
    if recs == [] then []
    else
      var init, last := recs[..|recs| - 1], recs[|recs| - 1];
      Written1(init, whitelist, cbLen, umiLen)
      + (if Accepts(last, whitelist, cbLen, umiLen) then [Tagged(last, cbLen, umiLen)] else [])
  }

  /** The barcodes of the accepted reads, in input order. */
  function Barcodes(recs: seq<FastqRecord>, whitelist: set<string>, cbLen: nat, umiLen: nat): seq<string>
  {
    if recs == [] then []
    else
      var init, last := recs[..|recs| - 1], recs[|recs| - 1];
      Barcodes(init, whitelist, cbLen, umiLen)
      + (if Accepts(last, whitelist, cbLen, umiLen) then [last.sequence[..cbLen]] else [])
  }

  /** The id-to-header index: each accepted read overwrites the entry for its id. */
  function IndexOf(recs: seq<FastqRecord>, whitelist: set<string>, cbLen: nat, umiLen: nat): map<string, string>
  {
    if recs == [] then map[]
    else
      var init, last := recs[..|recs| - 1], recs[|recs| - 1];
      var m := IndexOf(init, whitelist, cbLen, umiLen);
      if Accepts(last, whitelist, cbLen, umiLen) then m[last.id := Tagged(last, cbLen, umiLen).header] else m
  }

  /** `process_read1`: one pass over mate 1. */
  method ProcessRead1(records: seq<FastqRecord>, whitelist: set<string>, cbLen: nat, umiLen: nat)
    returns (out: seq<FastqEntry>, index: map<string, string>, cbCount: Tally<string>, total: nat, invalid: nat)
    ensures out == Written1(records, whitelist, cbLen, umiLen)
    ensures index == IndexOf(records, whitelist, cbLen, umiLen)
    ensures cbCount == TallyOf(Barcodes(records, whitelist, cbLen, umiLen))
    ensures total == |records|
    ensures invalid == |records| - |Accepted(records, whitelist, cbLen, umiLen)|
    ensures cbCount.Valid() && total == invalid + Total(cbCount)
    ensures forall cb :: cb in cbCount.count ==> cb in whitelist && |cb| == cbLen
  {
    out, index, cbCount, total, invalid := [], map[], Empty(), 0, 0;
    for i := 0 to |records|
      invariant out == Written1(records[..i], whitelist, cbLen, umiLen)
      invariant index == IndexOf(records[..i], whitelist, cbLen, umiLen)
      invariant cbCount == TallyOf(Barcodes(records[..i], whitelist, cbLen, umiLen))
      invariant total == i
      invariant invalid == i - |Accepted(records[..i], whitelist, cbLen, umiLen)|
    {
      var record := records[i];
      Read1Step(records, whitelist, cbLen, umiLen, i);
      total := total + 1;
      var s := record.sequence;
      if |s| < cbLen + umiLen {
        invalid := invalid + 1;
        continue;
      }
      var cb := s[..cbLen];
      var umi := s[cbLen..cbLen + umiLen];
      if cb !in whitelist {
        invalid := invalid + 1;
        continue;
      }
      var header := Header1(record.id, cb, umi);
      var qual := EncodeQuality(record.quals);
      out := out + [FastqEntry(header, s, qual)];
      index := index[record.id := header];
      cbCount := cbCount.Add(cb);
    }
    assert records[..|records|] == records;
    Read1Conservation(records, whitelist, cbLen, umiLen);
  }

  /** Every mate-1 read is either invalid or counted under its CB, and only
      whitelisted barcodes of the configured length are counted. */
  lemma Read1Conservation(records: seq<FastqRecord>, whitelist: set<string>, cbLen: nat, umiLen: nat)
    ensures var cbCount := TallyOf(Barcodes(records, whitelist, cbLen, umiLen));
      && cbCount.Valid()
      && |records| == (|records| - |Accepted(records, whitelist, cbLen, umiLen)|) + Total(cbCount)
      && forall cb :: cb in cbCount.count ==> cb in whitelist && |cb| == cbLen
  {
    var barcodes := Barcodes(records, whitelist, cbLen, umiLen);
    TallyOfSpec(barcodes);
    BarcodesSpec(records, whitelist, cbLen, umiLen);
  }

  /** One more read: each of the pass's results grows by that read when it is
      accepted, and stays as it was otherwise. */
  lemma Read1Step(records: seq<FastqRecord>, whitelist: set<string>, cbLen: nat, umiLen: nat, i: nat)
    requires i < |records|
    ensures var p, q, r := records[..i], records[..i + 1], records[i];
      if Accepts(r, whitelist, cbLen, umiLen) then
        && Written1(q, whitelist, cbLen, umiLen) == Written1(p, whitelist, cbLen, umiLen) + [Tagged(r, cbLen, umiLen)]
        && IndexOf(q, whitelist, cbLen, umiLen) == IndexOf(p, whitelist, cbLen, umiLen)[r.id := Tagged(r, cbLen, umiLen).header]
        && TallyOf(Barcodes(q, whitelist, cbLen, umiLen)) == TallyOf(Barcodes(p, whitelist, cbLen, umiLen)).Add(r.sequence[..cbLen])
        && |Accepted(q, whitelist, cbLen, umiLen)| == |Accepted(p, whitelist, cbLen, umiLen)| + 1
      else
        && Written1(q, whitelist, cbLen, umiLen) == Written1(p, whitelist, cbLen, umiLen)
        && IndexOf(q, whitelist, cbLen, umiLen) == IndexOf(p, whitelist, cbLen, umiLen)
        && Barcodes(q, whitelist, cbLen, umiLen) == Barcodes(p, whitelist, cbLen, umiLen)
        && |Accepted(q, whitelist, cbLen, umiLen)| == |Accepted(p, whitelist, cbLen, umiLen)|
  {
    var p, q, r := records[..i], records[..i + 1], records[i];
    assert q[..i] == p && q[i] == r;
    if Accepts(r, whitelist, cbLen, umiLen) {
      var before := Barcodes(p, whitelist, cbLen, umiLen);
      var cb := r.sequence[..cbLen];
      assert Barcodes(q, whitelist, cbLen, umiLen) == before + [cb];
      assert (before + [cb])[..|before|] == before;
    }
  }

  /** Accepted reads are exactly the reads of the input that pass the test. */
  lemma {:induction false} AcceptedSpec(recs: seq<FastqRecord>, whitelist: set<string>, cbLen: nat, umiLen: nat)
    ensures forall r :: r in Accepted(recs, whitelist, cbLen, umiLen) <==> r in recs && Accepts(r, whitelist, cbLen, umiLen)
  {
    if recs != [] {
      AcceptedSpec(recs[..|recs| - 1], whitelist, cbLen, umiLen);
      assert recs == recs[..|recs| - 1] + [recs[|recs| - 1]];
    }
  }

  /** The output file holds the tagged form of each accepted read, in input order. */
  lemma {:induction false} Written1Spec(recs: seq<FastqRecord>, whitelist: set<string>, cbLen: nat, umiLen: nat)
    ensures var acc, out := Accepted(recs, whitelist, cbLen, umiLen), Written1(recs, whitelist, cbLen, umiLen);
      |out| == |acc| && forall i :: 0 <= i < |out| ==> |acc[i].sequence| >= cbLen + umiLen && out[i] == Tagged(acc[i], cbLen, umiLen)
  {
    if recs != [] {
      Written1Spec(recs[..|recs| - 1], whitelist, cbLen, umiLen);
    }
  }

  /** Every counted barcode is a whitelisted sequence prefix of the CB length, one per accepted read. */
  lemma {:induction false} BarcodesSpec(recs: seq<FastqRecord>, whitelist: set<string>, cbLen: nat, umiLen: nat)
    ensures var bs := Barcodes(recs, whitelist, cbLen, umiLen);
      var acc := Accepted(recs, whitelist, cbLen, umiLen);
      && |bs| == |acc|
      && (forall i :: 0 <= i < |bs| ==> |acc[i].sequence| >= cbLen && bs[i] == acc[i].sequence[..cbLen])
      && forall i :: 0 <= i < |bs| ==> bs[i] in whitelist && |bs[i]| == cbLen
  {
    if recs != [] {
      BarcodesSpec(recs[..|recs| - 1], whitelist, cbLen, umiLen);
    }
  }

  /** What an accepted read becomes: the sequence is written unchanged, the quality
      line decodes to the read's scores, and the header carries the read's id, a CB
      of `cbLen` bases that is whitelisted and a UMI of `umiLen` bases, which
      together are the first `cbLen + umiLen` bases of the sequence. */
  lemma TaggedSpec(r: FastqRecord, whitelist: set<string>, cbLen: nat, umiLen: nat)
    requires Accepts(r, whitelist, cbLen, umiLen)
    requires ' ' !in r.id && ' ' !in r.sequence
    ensures var e := Tagged(r, cbLen, umiLen);
      && e.sequence == r.sequence
      && |e.qual| == |r.quals| && DecodeQuality(e.qual) == r.quals
      && ParseHeader1(e.header, cbLen, umiLen).Some?
      && var (id, cb, umi) := ParseHeader1(e.header, cbLen, umiLen).value;
         id == r.id && cb in whitelist && |cb| == cbLen && |umi| == umiLen && cb + umi == r.sequence[..cbLen + umiLen]
  {
    var cb, umi := r.sequence[..cbLen], r.sequence[cbLen..cbLen + umiLen];
    assert ParseHeader1(Header1(r.id, cb, umi), cbLen, umiLen) == Some((r.id, cb, umi)) by {
      assert forall c :: c in cb ==> c in r.sequence;
      assert forall c :: c in umi ==> c in r.sequence;
    }
    PrefixJoin(r.sequence, cbLen, cbLen + umiLen);
  }

  /** Two adjacent slices from the start join into one. */
  lemma PrefixJoin(s: string, a: nat, b: nat)
    requires a <= b <= |s|
    ensures s[..a] + s[a..b] == s[..b]
  {
  }

  /** `j` is the last accepted read with id `id`. */
  ghost predicate LastAcceptedWithId(recs: seq<FastqRecord>, whitelist: set<string>, cbLen: nat, umiLen: nat, id: string, j: int)
  {
    && 0 <= j < |recs| && recs[j].id == id && Accepts(recs[j], whitelist, cbLen, umiLen)
    && forall j' :: j < j' < |recs| && recs[j'].id == id ==> !Accepts(recs[j'], whitelist, cbLen, umiLen)
  }

  /** The index holds an id exactly when some read with that id was accepted, and
      then the header of the LAST such read: a later duplicate id overwrites. */
  lemma IndexLastWins(recs: seq<FastqRecord>, whitelist: set<string>, cbLen: nat, umiLen: nat, id: string)
    ensures var index := IndexOf(recs, whitelist, cbLen, umiLen);
      && (id in index <==> exists j :: 0 <= j < |recs| && recs[j].id == id && Accepts(recs[j], whitelist, cbLen, umiLen))
      && (id in index ==> exists j :: LastAcceptedWithId(recs, whitelist, cbLen, umiLen, id, j)
                                      && index[id] == Tagged(recs[j], cbLen, umiLen).header)
  {
    IndexKeys(recs, whitelist, cbLen, umiLen, id);
    IndexValue(recs, whitelist, cbLen, umiLen, id);
  }

  /** Some read with id `id` was accepted. */
  ghost predicate AnyAcceptedWithId(recs: seq<FastqRecord>, whitelist: set<string>, cbLen: nat, umiLen: nat, id: string)
  {
    exists j :: 0 <= j < |recs| && recs[j].id == id && Accepts(recs[j], whitelist, cbLen, umiLen)
  }

  lemma {:induction false} IndexKeys(recs: seq<FastqRecord>, whitelist: set<string>, cbLen: nat, umiLen: nat, id: string)
    ensures id in IndexOf(recs, whitelist, cbLen, umiLen) <==> AnyAcceptedWithId(recs, whitelist, cbLen, umiLen, id)
  {
    if recs != [] {
      var init, last := recs[..|recs| - 1], recs[|recs| - 1];
      IndexKeys(init, whitelist, cbLen, umiLen, id);
      if AnyAcceptedWithId(init, whitelist, cbLen, umiLen, id) {
        var j :| 0 <= j < |init| && init[j].id == id && Accepts(init[j], whitelist, cbLen, umiLen);
        assert recs[j] == init[j];
      }
      if AnyAcceptedWithId(recs, whitelist, cbLen, umiLen, id) && !(last.id == id && Accepts(last, whitelist, cbLen, umiLen)) {
        var j :| 0 <= j < |recs| && recs[j].id == id && Accepts(recs[j], whitelist, cbLen, umiLen);
        assert j < |init| && init[j] == recs[j];
      }
    }
  }

  lemma {:induction false} IndexValue(recs: seq<FastqRecord>, whitelist: set<string>, cbLen: nat, umiLen: nat, id: string)
    ensures var index := IndexOf(recs, whitelist, cbLen, umiLen);
      id in index ==> exists j :: LastAcceptedWithId(recs, whitelist, cbLen, umiLen, id, j)
                                  && index[id] == Tagged(recs[j], cbLen, umiLen).header
  {
    if recs != [] {
      var init, last := recs[..|recs| - 1], recs[|recs| - 1];
      IndexValue(init, whitelist, cbLen, umiLen, id);
      var m := IndexOf(init, whitelist, cbLen, umiLen);
      if last.id == id && Accepts(last, whitelist, cbLen, umiLen) {
        assert LastAcceptedWithId(recs, whitelist, cbLen, umiLen, id, |recs| - 1);
      } else if id in m {
        var j :| LastAcceptedWithId(init, whitelist, cbLen, umiLen, id, j) && m[id] == Tagged(init[j], cbLen, umiLen).header;
        assert recs[j] == init[j];
        assert LastAcceptedWithId(recs, whitelist, cbLen, umiLen, id, j);
      }
    }
  }

  // ---------------------------------------------------------------- mate 2

  /** `r1_header.replace(" 1:N:0:", " 2:N:0:")`: a header without the mate-1
      marker is left as it is. */
  function Mate2Header(h: string): (h2: string)
    ensures NoOccurrence(h, Mate1Tag) ==> h2 == h
  {
    ReplaceAll(h, Mate1Tag, Mate2Tag)
  }

  /** The mate-2 reads whose id is in the index, in input order. */
  function Matched(recs: seq<FastqRecord>, index: map<string, string>): seq<FastqRecord>
  {
    if recs == [] then []
    else
      var init, last := recs[..|recs| - 1], recs[|recs| - 1];
      Matched(init, index) + (if last.id in index then [last] else [])
  }

  /** The entry written for a matched mate-2 read. */
  function Synced(r: FastqRecord, index: map<string, string>): FastqEntry
    requires r.id in index
  {
    FastqEntry(Mate2Header(index[r.id]), r.sequence, EncodeQuality(r.quals))
  }

  /** The mate-2 output file. */
  function Written2(recs: seq<FastqRecord>, index: map<string, string>): seq<FastqEntry>
  {
    if recs == [] then []
    else
      var init, last := recs[..|recs| - 1], recs[|recs| - 1];
      Written2(init, index) + (if last.id in index then [Synced(last, index)] else [])
  }

  /** `process_read2`: one pass over mate 2. */
  method ProcessRead2(records: seq<FastqRecord>, index: map<string, string>)
    returns (out: seq<FastqEntry>, missing: nat)
    ensures out == Written2(records, index)
    ensures missing + |out| == |records|
    ensures missing == |records| - |Matched(records, index)|
  {
    out, missing := [], 0;
    for i := 0 to |records|
      invariant out == Written2(records[..i], index)
      invariant |out| == |Matched(records[..i], index)|
      invariant missing + |out| == i
    {
      var record := records[i];
      assert records[..i + 1][..i] == records[..i];
      var readId := record.id;
      if readId !in index {
        missing := missing + 1;
        continue;
      }
      var r1Header := index[readId];
      var r2Header := Mate2Header(r1Header);
      var s := record.sequence;
      var qual := EncodeQuality(record.quals);
      out := out + [FastqEntry(r2Header, s, qual)];
    }
    assert records[..|records|] == records;
  }

  /** The mate-2 output holds, in input order, an entry for each mate-2 read whose id
      is indexed, and only for those. */
  lemma {:induction false} Written2Spec(recs: seq<FastqRecord>, index: map<string, string>)
    ensures var m, out := Matched(recs, index), Written2(recs, index);
      && (forall r :: r in m <==> r in recs && r.id in index)
      && |out| == |m|
      && forall i :: 0 <= i < |out| ==> m[i].id in index && out[i] == Synced(m[i], index)
  {
    if recs != [] {
      Written2Spec(recs[..|recs| - 1], index);
      assert recs == recs[..|recs| - 1] + [recs[|recs| - 1]];
    }
  }

  /** Turning a first-mate header into a second-mate header changes only the mate
      digit when the id, CB and UMI hold no space. */
  lemma MateSwap(id: string, cb: string, umi: string)
    requires ' ' !in id && ' ' !in cb && ' ' !in umi
    ensures Mate2Header(Header1(id, cb, umi)) == Header2(id, cb, umi)
  {
    var name := "@" + id + "_" + cb + "_" + umi;
    assert ' ' !in name;
    assert Header1(id, cb, umi) == name + (Mate1Tag + umi);
    ReplaceSkipsHead(name, Mate1Tag + umi, Mate1Tag, Mate2Tag);
    ReplaceAtHead(umi, Mate1Tag, Mate2Tag);
    ReplaceSkipsHead(umi, [], Mate1Tag, Mate2Tag);
    assert umi + [] == umi;
  }

  /** The two headers differ in one position only, where the first has `1` and the second `2`. */
  lemma MateDigitOnly(id: string, cb: string, umi: string)
    ensures var h1, h2, k := Header1(id, cb, umi), Header2(id, cb, umi), |id| + |cb| + |umi| + 4;
      |h1| == |h2| && k < |h1| && h1[k] == '1' && h2[k] == '2'
      && forall i :: 0 <= i < |h1| && i != k ==> h1[i] == h2[i]
  {
  }

  /** End to end: a mate-2 read whose id was indexed is written under the
      second-mate header of the LAST accepted mate-1 read with that id. */
  lemma PairedHeader(recs1: seq<FastqRecord>, whitelist: set<string>, cbLen: nat, umiLen: nat, r2: FastqRecord)
    requires forall r :: r in recs1 ==> ' ' !in r.id && ' ' !in r.sequence
    requires r2.id in IndexOf(recs1, whitelist, cbLen, umiLen)
    ensures exists j :: (LastAcceptedWithId(recs1, whitelist, cbLen, umiLen, r2.id, j)
      && var s := recs1[j].sequence;
         Synced(r2, IndexOf(recs1, whitelist, cbLen, umiLen)).header == Header2(r2.id, s[..cbLen], s[cbLen..cbLen + umiLen]))
  {
    IndexLastWins(recs1, whitelist, cbLen, umiLen, r2.id);
    var index := IndexOf(recs1, whitelist, cbLen, umiLen);
    var j :| LastAcceptedWithId(recs1, whitelist, cbLen, umiLen, r2.id, j) && index[r2.id] == Tagged(recs1[j], cbLen, umiLen).header;
    var s := recs1[j].sequence;
    assert recs1[j] in recs1;
    assert forall c :: c in s[..cbLen] ==> c in s;
    assert forall c :: c in s[cbLen..cbLen + umiLen] ==> c in s;
    MateSwap(r2.id, s[..cbLen], s[cbLen..cbLen + umiLen]);
  }

  // ---------------------------------------------------------------- summary

  /** `key=lambda x: x[1], reverse=True`: a row goes before another when its count is not smaller. */
  predicate ByCountDesc(a: (string, nat), b: (string, nat))
  {
    a.1 >= b.1
  }

  lemma ByCountDescIsPreorder()
    ensures TotalPreorder(ByCountDesc)
  {
  }

  /** The rows of the per-barcode summary file: `sorted(cb_count.items(), ...)`,
      the counter's items in non-increasing order of count. */
  function SummaryRows(cbCount: Tally<string>): (rows: seq<(string, nat)>)
    requires cbCount.Valid()
    ensures forall i, j :: 0 <= i < j < |rows| ==> rows[i].1 >= rows[j].1
    ensures multiset(rows) == multiset(Items(cbCount))
  {
    ByCountDescIsPreorder();
    SortSpec(Items(cbCount), ByCountDesc);
    Sort(Items(cbCount), ByCountDesc)
  }

  /** `kept_reads = sum(cb_count.values())`: the counts of the counter's items, summed. */
  function KeptReads(cbCount: Tally<string>): (kept: nat)
    requires cbCount.Valid()
    ensures kept == SumCounts(Items(cbCount))
  {
    SumItems(cbCount);
    Total(cbCount)
  }

  lemma {:induction false} SumCountsCons(a: (string, nat), s: seq<(string, nat)>)
    ensures SumCounts([a] + s) == a.1 + SumCounts(s)
  {
    if s != [] {
      SumCountsCons(a, s[..|s| - 1]);
      assert ([a] + s)[..|s|] == [a] + s[..|s| - 1];
    } else {
      assert [a] + s == [a];
    }
  }

  lemma {:induction false} SumCountsInsert(x: (string, nat), s: seq<(string, nat)>)
    ensures SumCounts(Insert(x, s, ByCountDesc)) == x.1 + SumCounts(s)
  {
    if s != [] {
      SumCountsCons(x, s);
      SumCountsCons(s[0], s[1..]);
      assert s == [s[0]] + s[1..];
      if !ByCountDesc(x, s[0]) {
        SumCountsInsert(x, s[1..]);
        SumCountsCons(s[0], Insert(x, s[1..], ByCountDesc));
      }
    } else {
      SumCountsCons(x, []);
    }
  }

  lemma {:induction false} SumCountsSort(s: seq<(string, nat)>)
    ensures SumCounts(Sort(s, ByCountDesc)) == SumCounts(s)
  {
    if s != [] {
      SumCountsSort(s[1..]);
      SumCountsInsert(s[0], Sort(s[1..], ByCountDesc));
      SumCountsCons(s[0], s[1..]);
      assert s == [s[0]] + s[1..];
    }
  }

  /** Rows of equal count keep the counter's (first-seen) order, and the rows'
      counts sum to the kept reads. */
  lemma SummaryRowsSpec(cbCount: Tally<string>)
    requires cbCount.Valid()
    ensures var rows := SummaryRows(cbCount);
      && (forall x :: Peers(rows, x, ByCountDesc) == Peers(Items(cbCount), x, ByCountDesc))
      && SumCounts(rows) == KeptReads(cbCount)
  {
    ByCountDescIsPreorder();
    forall x ensures Peers(SummaryRows(cbCount), x, ByCountDesc) == Peers(Items(cbCount), x, ByCountDesc) {
      SortStable(Items(cbCount), x, ByCountDesc);
    }
    SumCountsSort(Items(cbCount));
  }

  /** The ratio line as written: `kept_reads / total_reads` with no guard, so an
      empty mate-1 input raises `ZeroDivisionError`. */
  function SummaryRatio(keptReads: nat, totalReads: nat): (r: Result<real, string>)
    ensures r.Failure? <==> totalReads == 0
    ensures r.Success? ==> r.value * totalReads as real == keptReads as real
  {
    if totalReads == 0 then Failure("ZeroDivisionError") else Success(keptReads as real / totalReads as real)
  }

  /** The ratio line raises exactly when the mate-1 input is empty. */
  lemma EmptyInputRaises(records: seq<FastqRecord>, whitelist: set<string>, cbLen: nat, umiLen: nat)
    ensures TallyOf(Barcodes(records, whitelist, cbLen, umiLen)).Valid()
    ensures var kept := KeptReads(TallyOf(Barcodes(records, whitelist, cbLen, umiLen)));
      SummaryRatio(kept, |records|).Failure? <==> records == []
  {
    TallyOfSpec(Barcodes(records, whitelist, cbLen, umiLen));
  }

  /** The ratio with the zero guard that the mCpG summary uses: zero when no read
      was seen. It agrees with the unguarded line on every input that line accepts,
      and it is a share between zero and one, since the kept reads are among the
      reads seen. */
  lemma GuardedSummaryRatio(records: seq<FastqRecord>, whitelist: set<string>, cbLen: nat, umiLen: nat)
    ensures TallyOf(Barcodes(records, whitelist, cbLen, umiLen)).Valid()
    ensures var kept := KeptReads(TallyOf(Barcodes(records, whitelist, cbLen, umiLen)));
      && kept <= |records|
      && 0.0 <= Proportion(kept, |records|) <= 1.0
      && (records == [] ==> Proportion(kept, |records|) == 0.0)
      && (SummaryRatio(kept, |records|).Success? ==> SummaryRatio(kept, |records|).value == Proportion(kept, |records|))
  {
    TallyOfSpec(Barcodes(records, whitelist, cbLen, umiLen));
    BarcodesSpec(records, whitelist, cbLen, umiLen);
  }
}
