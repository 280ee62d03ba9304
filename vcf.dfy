// The minimal VCF the converter writes: a file-format line, a header line of
// tab-separated column names, and one tab-separated line per SNP.

module Vcf {
  import opened Outcomes
  import opened Text
  import opened PyInt
  import opened Snps
  import opened Merge

  const FileFormatLine: string := "##fileformat=VCFv4.2"

  /** The fixed columns, in the order they are written. */
  const VcfColumns: seq<string> := ["CHROM", "POS", "ID", "REF", "ALT", "QUAL", "FILTER", "INFO", "FORMAT"]

  const Sep: char := '\t'

  /** The header line: `#` and the column names joined by tabs. */
  function HeaderLine(columns: seq<string>): string
  {
    "#" + Join(columns, Sep)
  }

  /**
   * The fields of one VCF line: CHROM is the reference contig, POS the
   * record's offset shifted by the region start, QUAL 0, FILTER "MSA",
   * INFO "*", FORMAT "GT", then the sample genotypes.
   */
  function RowFields(contig: string, start: int, rec: Record, cells: seq<string>): (fields: seq<string>)
    ensures |fields| == |VcfColumns| + |cells| && fields[|VcfColumns|..] == cells
    ensures fields[0] == contig && fields[2] == rec.id && fields[3] == [rec.ref] && fields[4] == [rec.alt]
  {
    [contig, IntToString(rec.pos + start), rec.id, [rec.ref], [rec.alt], "0", "MSA", "*", "GT"] + cells
  }

  /** Every listed key is a row of the table, and every row listed has a cell in every column. */
  predicate Covers(table: Table, rows: seq<Record>, columns: seq<string>)
  {
    forall i :: 0 <= i < |rows| ==> rows[i] in table && forall j :: 0 <= j < |columns| ==> columns[j] in table[rows[i]]
  }

  /** The genotype cells of `row`, in column order. */
  function Cells(row: map<string, string>, columns: seq<string>): (cells: seq<string>)
    requires forall j :: 0 <= j < |columns| ==> columns[j] in row
    ensures |cells| == |columns|
    ensures forall j :: 0 <= j < |columns| ==> cells[j] == row[columns[j]]
  {
    if |columns| == 0 then []
    else Cells(row, columns[..|columns| - 1]) + [row[columns[|columns| - 1]]]
  }

  /** The VCF data rows for the listed keys of a merged table. */
  function VcfRows(contig: string, start: int, table: Table, rows: seq<Record>, columns: seq<string>)
    : (lines: seq<seq<string>>)
    requires Covers(table, rows, columns)
    ensures |lines| == |rows|
    ensures forall i :: 0 <= i < |rows| ==>
              lines[i] == RowFields(contig, start, rows[i], Cells(table[rows[i]], columns))
  {
    if |rows| == 0 then []
    else
      var n := |rows| - 1;
      VcfRows(contig, start, table, rows[..n], columns)
        + [RowFields(contig, start, rows[n], Cells(table[rows[n]], columns))]
  }

  /** The lines of the file: the file-format line, the header line, one line per row. */
  function Document(columns: seq<string>, rows: seq<seq<string>>): (lines: seq<string>)
    ensures |lines| == 2 + |rows|
    ensures lines[0] == FileFormatLine && lines[1] == HeaderLine(columns)
    ensures forall i :: 0 <= i < |rows| ==> lines[i + 2] == Join(rows[i], Sep)
  {
    if |rows| == 0 then [FileFormatLine, HeaderLine(columns)]
    else
      var n := |rows| - 1;
      Document(columns, rows[..n]) + [Join(rows[n], Sep)]
  }

  /** The text written to the file: every line followed by a newline. */
  function FileText(lines: seq<string>): string
  {
    if |lines| == 0 then "" else lines[0] + "\n" + FileText(lines[1..])
  }

  // ---------------------------------------------------------------------

  predicate TabFree(fields: seq<string>)
  {
    forall i :: 0 <= i < |fields| ==> Sep !in fields[i]
  }

  /** The header line names the fixed columns and then the samples, one per tab-separated field. */
  lemma HeaderFields(samples: seq<string>)
    requires TabFree(samples)
    ensures HeaderLine(VcfColumns + samples)[0] == '#'
    ensures Split(HeaderLine(VcfColumns + samples)[1..], Sep) == VcfColumns + samples
  {
    var columns := VcfColumns + samples;
    assert TabFree(VcfColumns);
    assert TabFree(columns) by {
      forall i | 0 <= i < |columns| ensures Sep !in columns[i] {
        if i >= |VcfColumns| {
          assert columns[i] == samples[i - |VcfColumns|];
        }
      }
    }
    SplitJoin(columns, Sep);
    assert HeaderLine(columns)[1..] == Join(columns, Sep);
  }

  lemma IntToStringTabFree(n: int)
    ensures Sep !in IntToString(n)
  {
    var m: nat := if n < 0 then -n else n;
    NatToStringDigits(m);
    var d := NatToString(m);
    assert forall i :: 0 <= i < |d| ==> d[i] != Sep;
    if n < 0 {
      assert IntToString(n) == "-" + d;
    }
  }

  lemma RowFieldsTabFree(contig: string, start: int, rec: Record, cells: seq<string>)
    requires Sep !in contig && Sep !in rec.id && rec.ref != Sep && rec.alt != Sep
    requires TabFree(cells)
    ensures TabFree(RowFields(contig, start, rec, cells))
  {
    var fields := RowFields(contig, start, rec, cells);
    IntToStringTabFree(rec.pos + start);
    forall i | 0 <= i < |fields| ensures Sep !in fields[i] {
      if i >= 9 {
        assert fields[i] == cells[i - 9];
      }
    }
  }

  /**
   * A data line splits back into its fields: nine fixed ones and one per
   * sample, and its POS field reads back as the shifted offset.
   */
  lemma RowFieldsRoundTrip(contig: string, start: int, rec: Record, cells: seq<string>)
    requires Sep !in contig && Sep !in rec.id && rec.ref != Sep && rec.alt != Sep
    requires TabFree(cells)
    ensures Split(Join(RowFields(contig, start, rec, cells), Sep), Sep) == RowFields(contig, start, rec, cells)
    ensures |RowFields(contig, start, rec, cells)| == |VcfColumns| + |cells|
    ensures ParseInt(RowFields(contig, start, rec, cells)[1]) == Some(rec.pos + start)
  {
    RowFieldsTabFree(contig, start, rec, cells);
    SplitJoin(RowFields(contig, start, rec, cells), Sep);
    RowFieldsPos(contig, start, rec, cells);
  }

  /** The POS field of a data line reads back as the shifted offset. */
  lemma RowFieldsPos(contig: string, start: int, rec: Record, cells: seq<string>)
    ensures ParseInt(RowFields(contig, start, rec, cells)[1]) == Some(rec.pos + start)
  {
    var pos := RowFields(contig, start, rec, cells)[1];
    assert pos == IntToString(rec.pos + start);
    ParseIntToString(rec.pos + start);
  }

  /** Reading the written file back line by line gives each line with its newline. */
  lemma {:induction false} FileTextLines(lines: seq<string>)
    requires forall i :: 0 <= i < |lines| ==> '\n' !in lines[i]
    ensures SplitLines(FileText(lines)) == seq(|lines|, i requires 0 <= i < |lines| => lines[i] + "\n")
    decreases |lines|
  {
    if |lines| > 0 {
      var text := FileText(lines);
      var head := lines[0];
      var rest := FileText(lines[1..]);
      assert text == head + "\n" + rest;
      FileTextLines(lines[1..]);
      assert text[|head|] == '\n';
      var i := IndexOf(text, '\n');
      assert i <= |head| by {
        assert text[..|head| + 1][|head|] == '\n';
      }
      assert i >= |head| by {
        assert forall j :: 0 <= j < |head| ==> text[j] == head[j];
      }
      assert text[..i + 1] == head + "\n";
      assert text[i + 1..] == rest;
    }
  }
}
