// The converter object (`MSAtoVCF`): it holds the loaded alignment, the
// chosen reference and the intermediate tables, and turns them into the
// lines of a VCF file.

module Converter {
  import opened Outcomes
  import opened Text
  import opened PyInt
  import opened Alignment
  import opened Snps
  import opened Merge
  import opened RowOrder
  import Reference
  import opened Vcf

  /** Every header in `hs` is in the alignment with the reference's aligned length. */
  predicate AlignedTo(msa: Msa, refSeq: string, hs: seq<string>)
  {
    forall i :: 0 <= i < |hs| ==> hs[i] in msa.seqs && |msa.seqs[hs[i]]| == |refSeq|
  }

  /** The SNP table of the entry under header `h`, in a column named after its sample. */
  function SampleTableOf(msa: Msa, refSeq: string, h: string): SampleTable
    requires h in msa.seqs && |msa.seqs[h]| == |refSeq|
  {
    SampleTable(Reference.SampleName(h), Snps.Snps(refSeq, msa.seqs[h]))
  }

  /** One SNP table per header, in header order. */
  function TablesOf(msa: Msa, refSeq: string, hs: seq<string>): (ts: seq<SampleTable>)
    requires AlignedTo(msa, refSeq, hs)
    ensures |ts| == |hs|
    ensures forall i :: 0 <= i < |hs| ==> ts[i] == SampleTableOf(msa, refSeq, hs[i])
  {
    if |hs| == 0 then []
    else
      var n := |hs| - 1;
      assert AlignedTo(msa, refSeq, hs[..n]);
      TablesOf(msa, refSeq, hs[..n]) + [SampleTableOf(msa, refSeq, hs[n])]
  }

  /** `_create_snp_dfs` as a value: every entry against the reference, or the length error. */
  function SnpTables(msa: Msa, refSeq: string): (r: Result<seq<SampleTable>>)
    ensures r.Ok? ==> |r.value| == |msa.headers|
    ensures r.Err? ==> r.error == LengthMismatch && exists i :: 0 <= i < |msa.headers| && (msa.headers[i] !in msa.seqs || |msa.seqs[msa.headers[i]]| != |refSeq|)
  {
    if AlignedTo(msa, refSeq, msa.headers) then Ok(TablesOf(msa, refSeq, msa.headers))
    else Err(LengthMismatch)
  }

  /** The sample columns of the tables, in table order. */
  function SampleNames(ts: seq<SampleTable>): (names: seq<string>)
    ensures |names| == |ts| && forall i :: 0 <= i < |ts| ==> names[i] == ts[i].name
  {
    if |ts| == 0 then [] else SampleNames(ts[..|ts| - 1]) + [ts[|ts| - 1].name]
  }

  /** The merged table has a row for every listed key and a cell in every sample column. */
  lemma MergedCovers(ts: seq<SampleTable>)
    requires |ts| > 0
    ensures Covers(Merged(ts), RowKeys(ts), SampleNames(ts))
  {
    RowKeysSpec(ts);
    MergedSpec(ts);
    var names := SampleNames(ts);
    forall j | 0 <= j < |names| ensures names[j] in Columns(ts) {
      assert names[j] == ts[j].name;
    }
  }

  /** The writing loop of `create_vcf`: the two header lines, then one tab-joined line per row. */
  method WriteLines(columns: seq<string>, rows: seq<seq<string>>) returns (lines: seq<string>)
    ensures lines == Document(columns, rows)
  {
    lines := [FileFormatLine, HeaderLine(columns)];
    for i := 0 to |rows|
      invariant lines == Document(columns, rows[..i])
    {
      assert rows[..i + 1][..i] == rows[..i];
      lines := lines + [Join(rows[i], Sep)];
    }
    assert rows[..|rows|] == rows;
  }

  lemma TablesOfStep(msa: Msa, refSeq: string, hs: seq<string>, i: nat)
    requires i < |hs| && AlignedTo(msa, refSeq, hs[..i])
    requires hs[i] in msa.seqs && |msa.seqs[hs[i]]| == |refSeq|
    ensures AlignedTo(msa, refSeq, hs[..i + 1])
    ensures TablesOf(msa, refSeq, hs[..i + 1]) == TablesOf(msa, refSeq, hs[..i]) + [SampleTableOf(msa, refSeq, hs[i])]
  {
    assert hs[..i + 1][..i] == hs[..i];
  }

  lemma NotAligned(msa: Msa, refSeq: string, hs: seq<string>, i: nat)
    requires i < |hs| && AlignedTo(msa, refSeq, hs[..i])
    requires hs[i] in msa.seqs && |msa.seqs[hs[i]]| != |refSeq|
    ensures !AlignedTo(msa, refSeq, hs)
  {
  }

  /** The lines `create_vcf` writes for an alignment and the reference chosen in it. */
  function Convert(msa: Msa, reference: Option<Reference.ReferenceInfo>): (r: Result<seq<string>>)
    ensures reference.None? ==> r == Err(NoReference)
    ensures r.Ok? ==> reference.Some? && ParseInt(reference.value.start).Some? && SnpTables(msa, reference.value.sequence).Ok?
    ensures r.Ok? ==> |r.value| >= 2 && r.value[0] == FileFormatLine
  {
    match reference
    case None => Err(NoReference)
    case Some(info) =>
      match SnpTables(msa, info.sequence)
      case Err(e) => Err(e)
      case Ok(ts) =>
        if |ts| == 0 then Err(NothingToMerge)
        else
          match ParseInt(info.start)
          case None => Err(MalformedStart(info.start))
          case Some(start) => Ok(Document(VcfColumns + SampleNames(ts), TableRows(info.contig, start, ts)))
  }

  /** The VCF rows of the merged tables, in row order. */
  function TableRows(contig: string, start: int, ts: seq<SampleTable>): seq<seq<string>>
    requires |ts| > 0
  {
    MergedCovers(ts);
    VcfRows(contig, start, Merged(ts), RowKeys(ts), SampleNames(ts))
  }

  /**
   * The loop of `_create_snp_dfs`: one SNP table per entry, in header
   * order, until the first entry whose length differs from the reference's.
   */
  method BuildTables(msa: Msa, refSeq: string) returns (r: Result<()>, tables: seq<SampleTable>)
    requires msa.Valid()
    ensures r.Ok? <==> SnpTables(msa, refSeq).Ok?
    ensures r.Ok? ==> SnpTables(msa, refSeq) == Ok(tables)
    ensures r.Err? ==>
              var k := |tables|;
              && r.error == LengthMismatch
              && k < |msa.headers| && AlignedTo(msa, refSeq, msa.headers[..k])
              && tables == TablesOf(msa, refSeq, msa.headers[..k])
              && |msa.seqs[msa.headers[k]]| != |refSeq|
  {
    var headers := msa.headers;
    tables := [];
    var i := 0;
    r := Ok(());
    while i < |headers|
      invariant 0 <= i <= |headers|
      invariant AlignedTo(msa, refSeq, headers[..i])
      invariant tables == TablesOf(msa, refSeq, headers[..i])
    {
      var h := headers[i];
      assert h in msa.seqs;
      var table := CreateSnpDf(refSeq, msa.seqs[h]);
      if table.Err? {
        NotAligned(msa, refSeq, headers, i);
        return Err(table.error), tables;
      }
      TablesOfStep(msa, refSeq, headers, i);
      tables := tables + [SampleTable(Reference.SampleName(h), table.value)];
      i := i + 1;
    }
    assert headers[..i] == headers;
  }

  class MsaToVcf {
    var msaDt: Msa
    var referenceName: Option<string>
    var reference: Option<Reference.ReferenceInfo>
    var snpDfs: seq<SampleTable>
    var mergedSnpDf: Table
    var mergedRows: seq<Record>
    var mergedColumns: seq<string>
    var vcfColumns: seq<string>
    var vcfRows: seq<seq<string>>

    /**
     * The alignment is well formed, a stored reference is an entry of it
     * recorded under its own name, and the merged table covers its listed rows.
     */
    ghost predicate Valid()
      reads this
    {
      && msaDt.Valid()
      && (reference.Some? ==>
            && referenceName == Some(reference.value.name)
            && reference.value.header in msaDt.seqs
            && reference.value.sequence == msaDt.seqs[reference.value.header])
      && Covers(mergedSnpDf, mergedRows, mergedColumns)
    }

    /** A converter over an alignment already loaded, with no reference yet. */
    constructor (msa: Msa)
      requires msa.Valid()
      ensures Valid() && msaDt == msa
      ensures referenceName == None && reference == None && snpDfs == []
      ensures mergedSnpDf == map[] && mergedRows == [] && mergedColumns == []
      ensures vcfColumns == [] && vcfRows == []
    {
      msaDt := msa;
      referenceName := None;
      reference := None;
      snpDfs := [];
      mergedSnpDf := map[];
      mergedRows := [];
      mergedColumns := [];
      vcfColumns := [];
      vcfRows := [];
    }

    /** `MSAtoVCF(msa_path)` on a file holding `text`: load the alignment, or fail as the loader does. */
    static method Open(text: string) returns (r: Result<MsaToVcf>)
      ensures Load(SplitLines(text)).Err? ==> r == Err(Load(SplitLines(text)).error)
      ensures Load(SplitLines(text)).Ok? ==>
                && r.Ok? && fresh(r.value) && r.value.Valid()
                && r.value.msaDt == Load(SplitLines(text)).value
                && r.value.reference == None && r.value.snpDfs == []
    {
      var loaded := LoadMsaDict(text);
      if loaded.Err? {
        return Err(loaded.error);
      }
      LoadMeaning(SplitLines(text));
      var c := new MsaToVcf(loaded.value);
      r := Ok(c);
    }

    /**
     * `set_reference(name)`: the name is recorded; the reference becomes the
     * one entry whose header contains it, with the contig and interval read
     * from that header, or is cleared when that fails.
     */
    method SetReference(name: string) returns (r: Result<Reference.ReferenceInfo>)
      requires Valid()
      modifies this
      ensures Valid()
      ensures r == Reference.SetReference(msaDt, name)
      ensures referenceName == Some(name)
      ensures reference == if r.Ok? then Some(r.value) else None
      ensures msaDt == old(msaDt) && snpDfs == old(snpDfs)
      ensures mergedSnpDf == old(mergedSnpDf) && mergedRows == old(mergedRows)
      ensures mergedColumns == old(mergedColumns)
      ensures vcfColumns == old(vcfColumns) && vcfRows == old(vcfRows)
    {
      referenceName := Some(name);
      r := Reference.SetReference(msaDt, name);
      if r.Ok? {
        reference := Some(r.value);
      } else {
        reference := None;
      }
    }

    /**
     * `_create_snp_dfs`: one SNP table per entry, reference included, in
     * header order. The first entry whose length differs from the
     * reference's stops the loop, leaving the tables built before it.
     */
    method CreateSnpDfs() returns (r: Result<()>)
      requires Valid()
      modifies this
      ensures Valid()
      ensures reference.None? ==> r == Err(NoReference) && snpDfs == []
      ensures reference.Some? ==>
                var refSeq := reference.value.sequence;
                && (r.Ok? <==> SnpTables(msaDt, refSeq).Ok?)
                && (r.Ok? ==> SnpTables(msaDt, refSeq) == Ok(snpDfs))
                && (r.Err? ==>
                      var k := |snpDfs|;
                      && r.error == LengthMismatch
                      && k < |msaDt.headers| && AlignedTo(msaDt, refSeq, msaDt.headers[..k])
                      && snpDfs == TablesOf(msaDt, refSeq, msaDt.headers[..k])
                      && |msaDt.seqs[msaDt.headers[k]]| != |refSeq|)
      ensures msaDt == old(msaDt) && referenceName == old(referenceName) && reference == old(reference)
      ensures mergedSnpDf == old(mergedSnpDf) && mergedRows == old(mergedRows)
      ensures mergedColumns == old(mergedColumns)
      ensures vcfColumns == old(vcfColumns) && vcfRows == old(vcfRows)
    {
      if reference.None? {
        snpDfs := [];
        return Err(NoReference);
      }
      r, snpDfs := BuildTables(msaDt, reference.value.sequence);
    }

    /**
     * `_merge_snp_dfs`: the outer join of all tables on the key columns,
     * missing genotypes filled with "0/0", rows in key order.
     */
    method MergeSnpDfs() returns (r: Result<()>)
      requires Valid()
      modifies this
      ensures Valid()
      ensures |snpDfs| == 0 ==>
                && r == Err(NothingToMerge)
                && mergedSnpDf == old(mergedSnpDf) && mergedRows == old(mergedRows)
                && mergedColumns == old(mergedColumns)
      ensures |snpDfs| > 0 ==>
                && r == Ok(())
                && mergedSnpDf == Merged(snpDfs) && mergedRows == RowKeys(snpDfs)
                && mergedColumns == SampleNames(snpDfs)
      ensures msaDt == old(msaDt) && referenceName == old(referenceName) && reference == old(reference)
      ensures snpDfs == old(snpDfs) && vcfColumns == old(vcfColumns) && vcfRows == old(vcfRows)
    {
      if |snpDfs| == 0 {
        return Err(NothingToMerge);
      }
      MergedCovers(snpDfs);
      mergedSnpDf := Merged(snpDfs);
      mergedRows := RowKeys(snpDfs);
      mergedColumns := SampleNames(snpDfs);
      r := Ok(());
    }

    /**
     * `_format_as_vcf`: the fixed VCF columns followed by the sample
     * columns; each row carries the reference contig and its offset shifted
     * by the region start, which must be an integer literal.
     */
    method FormatAsVcf() returns (r: Result<()>)
      requires Valid()
      modifies this
      ensures Valid()
      ensures reference.None? ==> r == Err(NoReference)
      ensures reference.Some? && ParseInt(reference.value.start).None? ==>
                r == Err(MalformedStart(reference.value.start))
      ensures r.Err? ==> vcfColumns == old(vcfColumns) && vcfRows == old(vcfRows)
      ensures reference.Some? && ParseInt(reference.value.start).Some? ==>
                && r == Ok(())
                && vcfColumns == VcfColumns + mergedColumns
                && vcfRows == VcfRows(reference.value.contig, ParseInt(reference.value.start).value,
                                      mergedSnpDf, mergedRows, mergedColumns)
      ensures msaDt == old(msaDt) && referenceName == old(referenceName) && reference == old(reference)
      ensures snpDfs == old(snpDfs) && mergedSnpDf == old(mergedSnpDf) && mergedRows == old(mergedRows)
      ensures mergedColumns == old(mergedColumns)
    {
      if reference.None? {
        return Err(NoReference);
      }
      var info := reference.value;
      var start := ParseInt(info.start);
      if start.None? {
        return Err(MalformedStart(info.start));
      }
      vcfColumns := VcfColumns + mergedColumns;
      vcfRows := VcfRows(info.contig, start.value, mergedSnpDf, mergedRows, mergedColumns);
      r := Ok(());
    }

    /**
     * `create_vcf`: after a reference is set, build, merge and format the
     * tables and return the lines of the VCF file, or the first failure.
     * Each stage stores its result before the next one runs, so a failure
     * leaves the earlier stages' fields set and the later ones as they were.
     */
    method CreateVcf() returns (r: Result<seq<string>>)
      requires Valid()
      modifies this
      ensures Valid()
      ensures msaDt == old(msaDt) && referenceName == old(referenceName) && reference == old(reference)
      ensures r == Convert(msaDt, reference)
      ensures reference.None? ==> snpDfs == old(snpDfs)
      ensures reference.Some? ==>
                var refSeq := reference.value.sequence;
                && (SnpTables(msaDt, refSeq).Ok? ==> snpDfs == SnpTables(msaDt, refSeq).value)
                && (SnpTables(msaDt, refSeq).Err? ==>
                      var k := |snpDfs|;
                      && k < |msaDt.headers| && AlignedTo(msaDt, refSeq, msaDt.headers[..k])
                      && snpDfs == TablesOf(msaDt, refSeq, msaDt.headers[..k])
                      && |msaDt.seqs[msaDt.headers[k]]| != |refSeq|)
      ensures reference.Some? && SnpTables(msaDt, reference.value.sequence).Ok? && |snpDfs| > 0 ==>
                && mergedSnpDf == Merged(snpDfs) && mergedRows == RowKeys(snpDfs)
                && mergedColumns == SampleNames(snpDfs)
      ensures !(reference.Some? && SnpTables(msaDt, reference.value.sequence).Ok? && |snpDfs| > 0) ==>
                && mergedSnpDf == old(mergedSnpDf) && mergedRows == old(mergedRows)
                && mergedColumns == old(mergedColumns)
      ensures r.Ok? && reference.Some? && ParseInt(reference.value.start).Some? ==>
                && vcfColumns == VcfColumns + mergedColumns
                && vcfRows == VcfRows(reference.value.contig, ParseInt(reference.value.start).value,
                                      mergedSnpDf, mergedRows, mergedColumns)
      ensures r.Err? ==> vcfColumns == old(vcfColumns) && vcfRows == old(vcfRows)
      ensures r.Err? ==> r.error != NothingToMerge
    {
      if reference.None? {
        return Err(NoReference);
      }
      var step := CreateSnpDfs();
      if step.Err? {
        return Err(step.error);
      }
      step := MergeSnpDfs();
      // The reference is one of the entries, so there is at least one table to merge.
      assert step.Ok?;
      step := FormatAsVcf();
      if step.Err? {
        return Err(step.error);
      }
      var lines := WriteLines(vcfColumns, vcfRows);
      r := Ok(lines);
    }
  }

  // ---------------------------------------------------------------------
  // What the converter produces

  /**
   * Without a reference nothing is written. With one, the conversion fails
   * with the length error when some entry's aligned length differs from the
   * reference's, with the start error when the region start is not an
   * integer, and succeeds otherwise.
   */
  lemma ConvertOutcome(msa: Msa, info: Reference.ReferenceInfo)
    requires msa.Valid() && info.header in msa.seqs
    ensures Convert(msa, None) == Err(NoReference)
    ensures Convert(msa, Some(info)).Ok? <==>
              (forall h :: h in msa.seqs ==> |msa.seqs[h]| == |info.sequence|) && ParseInt(info.start).Some?
    ensures (exists h :: h in msa.seqs && |msa.seqs[h]| != |info.sequence|) ==>
              Convert(msa, Some(info)) == Err(LengthMismatch)
    ensures (forall h :: h in msa.seqs ==> |msa.seqs[h]| == |info.sequence|) && ParseInt(info.start).None? ==>
              Convert(msa, Some(info)) == Err(MalformedStart(info.start))
  {
    assert info.header in msa.headers;
    assert |msa.headers| > 0;
    if forall h :: h in msa.seqs ==> |msa.seqs[h]| == |info.sequence| {
      assert AlignedTo(msa, info.sequence, msa.headers);
    } else {
      var h :| h in msa.seqs && |msa.seqs[h]| != |info.sequence|;
      var i :| 0 <= i < |msa.headers| && msa.headers[i] == h;
      assert !AlignedTo(msa, info.sequence, msa.headers);
    }
  }

  /**
   * A successful conversion writes the file-format line, the header line of
   * the fixed columns and the sample columns in entry order, then one line per
   * distinct SNP key found in any entry, in increasing key order, carrying
   * that key and its row of genotypes.
   */
  lemma ConvertLines(msa: Msa, info: Reference.ReferenceInfo)
    requires Convert(msa, Some(info)).Ok?
    ensures SnpTables(msa, info.sequence).Ok? && |SnpTables(msa, info.sequence).value| > 0
    ensures ParseInt(info.start).Some?
    ensures var ts := SnpTables(msa, info.sequence).value;
            var names := SampleNames(ts);
            var keys := RowKeys(ts);
            var lines := Convert(msa, Some(info)).value;
            && |lines| == 2 + |keys|
            && lines[0] == FileFormatLine
            && lines[1] == HeaderLine(VcfColumns + names)
            && StrictlySorted(keys)
            && (forall rec :: rec in keys <==> Listed(ts, rec))
            && forall i :: 0 <= i < |keys| ==>
                 && keys[i] in Merged(ts)
                 && lines[i + 2] == Join(RowFields(info.contig, ParseInt(info.start).value, keys[i],
                                                   Cells(Merged(ts)[keys[i]], names)), Sep)
  {
    var ts := SnpTables(msa, info.sequence).value;
    RowKeysSpec(ts);
    forall rec ensures rec in RowKeys(ts) <==> Listed(ts, rec) {
      MergedKeys(ts, rec);
    }
  }

  /**
   * With distinct sample names, the genotype written for entry `j` on the
   * row of key `rec` is "1/1" exactly when the entry has a SNP column against
   * the reference with that key, and "0/0" otherwise.
   */
  lemma GenotypeMeaning(msa: Msa, refSeq: string, rec: Record, j: nat)
    requires SnpTables(msa, refSeq).Ok?
    requires var ts := SnpTables(msa, refSeq).value; |ts| > 0 && DistinctNames(ts) && rec in Merged(ts)
    requires j < |msa.headers|
    ensures var ts := SnpTables(msa, refSeq).value;
            var sample := (AlignedEntry(msa, refSeq, j); msa.seqs[msa.headers[j]]);
            && |sample| == |refSeq|
            && (MergedRowCells(ts, rec); Cells(Merged(ts)[rec], SampleNames(ts))[j]) ==
               if exists c :: 0 <= c < |refSeq| && IsSnpColumn(refSeq, sample, c) && rec == RecordAt(refSeq, sample, c)
               then HomAlt else HomRef
  {
    var ts := SnpTables(msa, refSeq).value;
    AlignedEntry(msa, refSeq, j);
    var sample := msa.seqs[msa.headers[j]];
    MergedRowCells(ts, rec);
    MergedCell(ts, rec, j);
    SnpsMembership(refSeq, sample, rec);
  }

  /** When the conversion got past the length check, entry `j` is aligned with the reference. */
  lemma AlignedEntry(msa: Msa, refSeq: string, j: nat)
    requires SnpTables(msa, refSeq).Ok? && j < |msa.headers|
    ensures |SnpTables(msa, refSeq).value| == |msa.headers|
    ensures msa.headers[j] in msa.seqs && |msa.seqs[msa.headers[j]]| == |refSeq|
    ensures SnpTables(msa, refSeq).value[j] == SampleTableOf(msa, refSeq, msa.headers[j])
  {
  }

  /** Each merged row has a cell for every sample column. */
  lemma MergedRowCells(ts: seq<SampleTable>, rec: Record)
    requires |ts| > 0 && rec in Merged(ts)
    ensures forall j :: 0 <= j < |SampleNames(ts)| ==> SampleNames(ts)[j] in Merged(ts)[rec]
  {
    MergedSpec(ts);
    var names := SampleNames(ts);
    forall j | 0 <= j < |names| ensures names[j] in Merged(ts)[rec] {
      assert names[j] == ts[j].name && ts[j].name in Columns(ts);
    }
  }

  /**
   * The reference is converted as a sample too; compared with itself it has
   * no SNP, so with distinct sample names its column is "0/0" on every row.
   */
  lemma ReferenceColumn(msa: Msa, info: Reference.ReferenceInfo, rec: Record)
    requires msa.Valid() && info.header in msa.seqs && info.sequence == msa.seqs[info.header]
    requires SnpTables(msa, info.sequence).Ok?
    requires var ts := SnpTables(msa, info.sequence).value; |ts| > 0 && DistinctNames(ts) && rec in Merged(ts)
    ensures var ts := SnpTables(msa, info.sequence).value;
            Merged(ts)[rec][Reference.SampleName(info.header)] == HomRef
  {
    var ts := SnpTables(msa, info.sequence).value;
    var k :| 0 <= k < |msa.headers| && msa.headers[k] == info.header;
    assert ts[k] == SampleTableOf(msa, info.sequence, info.header);
    SnpsEmpty(info.sequence, info.sequence);
    MergedCell(ts, rec, k);
  }
}
