// A worked example, end to end: the reference entry
// `>Pf3D7 | Pf3D7_07_v3:1000-1006` holding `ACGT-T`, and one sample entry
// `>S1 | sample` holding `ACCTAT`, which differs from it in one column.

module Example {
  import opened Outcomes
  import opened Text
  import opened PyInt
  import opened Alignment
  import opened Snps
  import opened Merge
  import opened RowOrder
  import Reference
  import opened Vcf
  import opened Converter

  /**
   * The reference entry's header, `>Pf3D7 | Pf3D7_07_v3:1000-1006` when `pad`
   * is one space; `pad` is any whitespace after the bar.
   */
  function RefHeader(pad: string): string
  {
    ">Pf3D7 |" + pad + "Pf3D7_07_v3:1000-1006"
  }

  /** The sample entry's header, `>S1 | sample` when `pad` is one space. */
  function SampleHeader(pad: string): string
  {
    ">S1 |" + pad + "sample"
  }

  function ExampleMsa(pad: string): Msa
  {
    Msa([RefHeader(pad), SampleHeader(pad)], map[RefHeader(pad) := "ACGT-T", SampleHeader(pad) := "ACCTAT"])
  }

  /** What selecting "Pf3D7" records: the reference entry and its region `Pf3D7_07_v3:1000-1006`. */
  function ExampleReference(pad: string): Reference.ReferenceInfo
  {
    Reference.ReferenceInfo("Pf3D7", RefHeader(pad), "ACGT-T", "Pf3D7_07_v3", "1000", "1006")
  }

  /** A header `>name | rest` with a trimmed name names the sample `name`. */
  lemma NameBeforeBar(name: string, rest: string)
    requires '|' !in name && Trimmed(name)
    ensures Reference.SampleName(">" + name + " |" + rest) == name
  {
    Reference.SampleNameOf(name + " ", rest);
    assert ">" + name + " |" + rest == ">" + (name + " ") + "|" + rest;
    StripPadded([], name, " ");
    assert [] + name + " " == name + " ";
  }

  lemma ExampleNames(pad: string)
    ensures Reference.SampleName(RefHeader(pad)) == "Pf3D7"
    ensures Reference.SampleName(SampleHeader(pad)) == "S1"
  {
    RefName(pad);
    SampleNameS1(pad);
  }

  lemma RefName(pad: string)
    ensures Reference.SampleName(RefHeader(pad)) == "Pf3D7"
  {
    var name := "Pf3D7";
    NameBeforeBar(name, pad + "Pf3D7_07_v3:1000-1006");
    assert RefHeader(pad) == ">" + name + " |" + (pad + "Pf3D7_07_v3:1000-1006");
  }

  lemma SampleNameS1(pad: string)
    ensures Reference.SampleName(SampleHeader(pad)) == "S1"
  {
    var name := "S1";
    NameBeforeBar(name, pad + "sample");
    assert SampleHeader(pad) == ">" + name + " |" + (pad + "sample");
  }

  lemma ExampleValid(pad: string)
    ensures ExampleMsa(pad).Valid()
    ensures RefHeader(pad) != SampleHeader(pad)
  {
    assert RefHeader(pad)[1] != SampleHeader(pad)[1];
  }

  /** A text without the first character of `p` does not contain `p`. */
  lemma NotContains(s: string, p: string)
    requires |p| > 0 && p[0] !in s
    ensures !Contains(s, p)
  {
    ContainsAt(s, p);
    forall i | 0 <= i <= |s| - |p|
      ensures !(p <= s[i..])
    {
      assert s[i] in s;
    }
  }

  /** Only the reference header contains "Pf3D7". */
  lemma ExampleMatches(pad: string)
    requires AllSpace(pad)
    ensures Contains(RefHeader(pad), "Pf3D7")
    ensures !Contains(SampleHeader(pad), "Pf3D7")
  {
    var name := "Pf3D7";
    var tail := " |" + pad + "Pf3D7_07_v3:1000-1006";
    assert RefHeader(pad) == ">" + name + tail;
    assert RefHeader(pad)[1..] == name + tail;
    ContainsAt(RefHeader(pad), name);
    assert 0 <= 1 <= |RefHeader(pad)| - |name| && name <= RefHeader(pad)[1..];
    assert 'P' !in pad by {
      assert !IsSpace('P');
    }
    var fixed := ">S1 |";
    var sample := "sample";
    assert 'P' !in fixed && 'P' !in sample;
    assert SampleHeader(pad) == fixed + pad + sample;
    NotContains(SampleHeader(pad), name);
  }

  /** The region of the reference header parses into the contig and the interval. */
  lemma ExampleRegion(pad: string)
    requires AllSpace(pad)
    ensures Reference.ParseRegion(RefHeader(pad)) == Ok(("Pf3D7_07_v3", "1000", "1006"))
  {
    var contig, start, end := "Pf3D7_07_v3", "1000", "1006";
    assert '|' !in pad by {
      assert !IsSpace('|');
    }
    assert contig + ":" + start + "-" + end == "Pf3D7_07_v3:1000-1006";
    assert RefHeader(pad) == ">Pf3D7 " + "|" + pad + contig + ":" + start + "-" + end + "";
    Reference.ParseRegionOf(">Pf3D7 ", pad, contig, start, end, "");
  }

  /** `set_reference("Pf3D7")` on the example selects the reference entry and reads its region. */
  lemma ExampleSelect(pad: string)
    requires AllSpace(pad)
    ensures ExampleMsa(pad).Valid()
    ensures Reference.SetReference(ExampleMsa(pad), "Pf3D7") == Ok(ExampleReference(pad))
  {
    var msa := ExampleMsa(pad);
    ExampleValid(pad);
    ExampleMatches(pad);
    ExampleRegion(pad);
    var hs := msa.headers;
    var name := "Pf3D7";
    assert hs[..1] == [RefHeader(pad)] && hs[..1][..0] == [];
    assert Reference.Matching(hs[..1], name) == [RefHeader(pad)];
    assert Reference.Matching(hs, name) == [RefHeader(pad)];
  }

  lemma ExampleTables(pad: string)
    ensures SnpTables(ExampleMsa(pad), "ACGT-T") ==
            Ok([SampleTable("Pf3D7", []), SampleTable("S1", [Record(2, ".", 'G', 'C')])])
  {
    var msa := ExampleMsa(pad);
    assert RefHeader(pad) != SampleHeader(pad) by {
      assert RefHeader(pad)[1] != SampleHeader(pad)[1];
    }
    assert AlignedTo(msa, "ACGT-T", msa.headers);
    ExampleNames(pad);
    SnpsEmpty("ACGT-T", "ACGT-T");
    WorkedExample();
    var ts := TablesOf(msa, "ACGT-T", msa.headers);
    assert ts[0] == SampleTable("Pf3D7", []);
    assert ts[1] == SampleTable("S1", [Record(2, ".", 'G', 'C')]);
    assert ts == [SampleTable("Pf3D7", []), SampleTable("S1", [Record(2, ".", 'G', 'C')])];
  }

  lemma ExampleNumbers()
    ensures ParseInt("1000") == Some(1000)
    ensures IntToString(1002) == "1002"
  {
    assert NatToString(1) == "1";
    assert NatToString(10) == "10";
    assert NatToString(100) == "100";
    assert NatToString(1000) == "1000";
    ParseIntToString(1000);
    assert NatToString(1002) == "1002";
  }

  const Snp: Record := Record(2, ".", 'G', 'C')

  function ExampleTablesValue(): seq<SampleTable>
  {
    [SampleTable("Pf3D7", []), SampleTable("S1", [Snp])]
  }

  lemma ExampleKeys()
    ensures RowKeys(ExampleTablesValue()) == [Snp]
  {
    var ts := ExampleTablesValue();
    assert AllRecords(ts) == [Snp] by {
      assert ts[..1] == [ts[0]];
      assert AllRecords(ts[..1]) == [] by {
        assert ts[..1][..0] == [];
      }
    }
    assert SortKeys([Snp]) == [Snp] by {
      assert [Snp][..0] == [];
    }
  }

  lemma ExampleCells()
    ensures Snp in Merged(ExampleTablesValue())
    ensures Cells(Merged(ExampleTablesValue())[Snp], ["Pf3D7", "S1"]) == ["0/0", "1/1"]
  {
    var ts := ExampleTablesValue();
    assert DistinctNames(ts);
    MergedKeys(ts, Snp);
    assert Listed(ts, Snp) by {
      assert Snp in ts[1].records;
    }
    MergedCell(ts, Snp, 0);
    MergedCell(ts, Snp, 1);
  }

  lemma ExampleUnfold(pad: string)
    ensures var ts := ExampleTablesValue();
            Convert(ExampleMsa(pad), Some(ExampleReference(pad)))
            == Ok(Document(VcfColumns + SampleNames(ts),
                           TableRows("Pf3D7_07_v3", 1000, ts)))
  {
    ExampleTables(pad);
    ExampleNumbers();
  }

  lemma ExampleRows()
    ensures var ts := ExampleTablesValue();
            && SampleNames(ts) == ["Pf3D7", "S1"]
            && TableRows("Pf3D7_07_v3", 1000, ts)
               == [RowFields("Pf3D7_07_v3", 1000, Snp, ["0/0", "1/1"])]
  {
    var ts := ExampleTablesValue();
    assert SampleNames(ts) == ["Pf3D7", "S1"];
    ExampleKeys();
    ExampleCells();
  }

  lemma ExampleConvert(pad: string)
    ensures Convert(ExampleMsa(pad), Some(ExampleReference(pad)))
            == Ok(Document(VcfColumns + ["Pf3D7", "S1"], [RowFields("Pf3D7_07_v3", 1000, Snp, ["0/0", "1/1"])]))
  {
    ExampleUnfold(pad);
    ExampleRows();
  }

  /**
   * The whole example: `set_reference("Pf3D7")` selects the reference entry,
   * and the conversion gives the reference an all-"0/0" column and writes the
   * one SNP, G to C at offset 2, at 1002 with "1/1" for the sample.
   */
  lemma EndToEnd(pad: string)
    requires AllSpace(pad)
    ensures ExampleMsa(pad).Valid()
    ensures var selected := Reference.SetReference(ExampleMsa(pad), "Pf3D7");
            && selected.Ok?
            && Convert(ExampleMsa(pad), Some(selected.value)) == Ok([
                 "##fileformat=VCFv4.2",
                 "#" + Join(["CHROM", "POS", "ID", "REF", "ALT", "QUAL", "FILTER", "INFO", "FORMAT", "Pf3D7", "S1"], '\t'),
                 Join(["Pf3D7_07_v3", "1002", ".", "G", "C", "0", "MSA", "*", "GT", "0/0", "1/1"], '\t')])
  {
    ExampleSelect(pad);
    ExampleOutput(pad);
  }

  /** The conversion of the example once its reference is set. */
  lemma ExampleOutput(pad: string)
    ensures Convert(ExampleMsa(pad), Some(ExampleReference(pad))) == Ok([
              "##fileformat=VCFv4.2",
              "#" + Join(["CHROM", "POS", "ID", "REF", "ALT", "QUAL", "FILTER", "INFO", "FORMAT", "Pf3D7", "S1"], '\t'),
              Join(["Pf3D7_07_v3", "1002", ".", "G", "C", "0", "MSA", "*", "GT", "0/0", "1/1"], '\t')])
  {
    ExampleConvert(pad);
    ExampleHeader();
    ExampleLine();
    DocumentOfOne(VcfColumns + ["Pf3D7", "S1"], RowFields("Pf3D7_07_v3", 1000, Snp, ["0/0", "1/1"]));
  }

  /** The example's column header line, name by name. */
  lemma ExampleHeader()
    ensures HeaderLine(VcfColumns + ["Pf3D7", "S1"])
            == "#" + Join(["CHROM", "POS", "ID", "REF", "ALT", "QUAL", "FILTER", "INFO", "FORMAT", "Pf3D7", "S1"], '\t')
  {
    assert VcfColumns + ["Pf3D7", "S1"]
           == ["CHROM", "POS", "ID", "REF", "ALT", "QUAL", "FILTER", "INFO", "FORMAT", "Pf3D7", "S1"];
  }

  /** The example's one data line, field by field. */
  lemma ExampleLine()
    ensures Join(RowFields("Pf3D7_07_v3", 1000, Snp, ["0/0", "1/1"]), Sep)
            == Join(["Pf3D7_07_v3", "1002", ".", "G", "C", "0", "MSA", "*", "GT", "0/0", "1/1"], '\t')
  {
    ExampleNumbers();
    assert [Snp.ref] == "G" && [Snp.alt] == "C";
    assert RowFields("Pf3D7_07_v3", 1000, Snp, ["0/0", "1/1"])
           == ["Pf3D7_07_v3", "1002", ".", "G", "C", "0", "MSA", "*", "GT", "0/0", "1/1"];
  }

  lemma DocumentOfOne(columns: seq<string>, fields: seq<string>)
    ensures Document(columns, [fields]) == [FileFormatLine, HeaderLine(columns), Join(fields, Sep)]
  {
  }
}
