# MSA-to-VCF converter, modelled in Dafny

This project models the truth-set converter of nomadic
(`src/nomadic/truthset/msacall.py`). The converter reads a multiple sequence
alignment (MSA) in FASTA style, picks the reference entry by a name token, and
calls SNPs of every entry against the reference column by column. It then
outer-joins the per-sample SNP tables on (POS, ID, REF, ALT), fills absent
genotypes with `0/0`, and writes a minimal VCF 4.2 file.

Modules, one file each:

- `outcomes.dfy` (`Outcomes`): `Option`, and `Result` with one `MsaError` per exception the converter raises.
- `text.dfy` (`Text`): the Python string operations the code relies on.
  - `str.strip`, with Python's `isspace` set.
  - `str.split` and `str.join` with a one-character separator.
  - The substring test `p in s`.
  - The lines that `readline()` returns.
- `pyint.dfy` (`PyInt`): `int(s)` for decimal literals and `str(i)`. The whitespace `int` skips is not `strip()`'s: the separators U+001C to U+001F are whitespace to `strip()` only.
- `alignment.dfy` (`Alignment`): `load_msa_as_dict`.
  - `Scan`/`Load` state the loader as a function of its lines.
  - `LoadMsaDict` is the loop itself.
- `snps.dfy` (`Snps`): `create_snp_df`.
  - `Snps` is the column-by-column specification.
  - `CreateSnpDf` is the loop with the gap-skipping counter.
- `reference.dfy` (`Reference`): the pure part of `set_reference` (selection by substring, region parsing) and the sample-name rule of line 241.
- `merge.dfy` (`Merge`): tagging with `1/1`, the `reduce` of outer joins, and `fillna("0/0")`.
- `roworder.dfy` (`RowOrder`): the order of the merged rows. An outer merge sorts the union of the keys lexicographically.
- `vcf.dfy` (`Vcf`): the fixed columns and the header line, the data line of a record, and the document.
- `converter.dfy` (`Converter`): the class `MSAtoVCF` as `MsaToVcf`.
  - It has the fields the source sets, and one method per source method.
  - `Convert` is the value `create_vcf` produces, with lemmas about it.
- `example.dfy` (`Example`): a worked example, run end to end.
  - The alignment holds `>Pf3D7 | Pf3D7_07_v3:1000-1006` with `ACGT-T` and `>S1 | sample` with `ACCTAT`.
  - `SetReference` with the name `Pf3D7` selects the first entry, and the conversion of that selection is proved.

The code keeps the reference in the dictionary, and `_create_snp_dfs`
(line 239) iterates over every entry, the reference included. The reference
therefore gets a sample column of its own, and with distinct sample names that
column is all `0/0` (`Converter.ReferenceColumn`). Since the reference is one
of the entries, a successful `_create_snp_dfs` always leaves a table to merge.

Other behaviour of the code that the model keeps:

- Keys keep the leading `>`.
- A repeated header starts its sequence over.
- Selection is a substring test.
- A failed `set_reference` still records the name.
- A repeated header keeps the place of its first occurrence (`Alignment.LoadMeaning`).
- INFO is written as `*`.

## Model

| member | source | states |
|---|---|---|
| Text.SplitLines | src/nomadic/truthset/msacall.py:34-41 | the lines `readline()` yields are non-empty, end at their first newline, and all but the last end with one |
| Text.ConcatSplitLines | src/nomadic/truthset/msacall.py:34-41 | reading line by line loses nothing: the lines concatenate back to the text |
| Text.StripPadded | src/nomadic/truthset/msacall.py:37 | `strip()` of a trimmed text padded by whitespace is that text |
| Text.StripDecompose | src/nomadic/truthset/msacall.py:37 | every string is its stripped text with whitespace on either side, and the stripped text is trimmed |
| Text.StripIdempotent | src/nomadic/truthset/msacall.py:228 | stripping twice equals stripping once |
| Text.StripWithin | src/nomadic/truthset/msacall.py:241 | a stripped text is trimmed and holds only characters of the original |
| Text.Split | src/nomadic/truthset/msacall.py:228-230 | `split(c)` yields at least one piece and no piece contains `c` |
| Text.JoinSplit | src/nomadic/truthset/msacall.py:228-230 | joining the pieces of a split with the separator gives back the text |
| Text.SplitJoin | src/nomadic/truthset/msacall.py:306-310 | splitting a tab-join of tab-free fields gives back the fields |
| Text.SplitFirst | src/nomadic/truthset/msacall.py:229-230 | splitting at the first separator peels off the separator-free text before it |
| Text.SplitLast | src/nomadic/truthset/msacall.py:228 | the piece after the last separator is the last piece of the split |
| Text.ContainsAt | src/nomadic/truthset/msacall.py:216 | `name in header` holds iff `name` occurs at some offset of `header` |
| PyInt.NatToStringDigits | src/nomadic/truthset/msacall.py:310 | `str(n)` of a natural number is a well-formed digit string whose value is `n` |
| PyInt.IntToStringTrimmed | src/nomadic/truthset/msacall.py:310 | `str(i)` has no surrounding whitespace |
| PyInt.ParseIntToString | src/nomadic/truthset/msacall.py:273 | `int(str(i)) == i` for every integer |
| PyInt.IntStripPadded | src/nomadic/truthset/msacall.py:273 | `int` reads exactly the text inside the whitespace it skips: ASCII tab to carriage return, space, and non-ASCII `isspace` characters |
| PyInt.ParseIntPadded | src/nomadic/truthset/msacall.py:273 | `int` of a printed integer padded by that whitespace gives the integer back |
| PyInt.ParseIntFileSeparator | src/nomadic/truthset/msacall.py:273 | U+001C is whitespace to `strip()` but not to `int`: `int` of U+001C followed by `5` is a `ValueError` |
| Alignment.Scan | src/nomadic/truthset/msacall.py:33-41 | the loader's state stays consistent: distinct keys, one per listed header, and the current header is a key; the only failure is a line before any header |
| Alignment.LoadMsaDict | src/nomadic/truthset/msacall.py:26-46 | the loop returns what `Load` specifies for the lines of the file, failures included |
| Alignment.ScanFails | src/nomadic/truthset/msacall.py:35-40 | the read fails exactly when the first line is not a header |
| Alignment.ScanDescribes | src/nomadic/truthset/msacall.py:33-41 | after a successful read, the keys are the stripped header lines and each holds the block after its last header line |
| Alignment.LoadFails | src/nomadic/truthset/msacall.py:26-46 | the load fails iff a sequence line precedes every header or the block after some key's last header line is empty, and the first case is the line-before-header error |
| Alignment.EmptyBlock | src/nomadic/truthset/msacall.py:44 | for a dictionary describing the lines, some key holds the empty sequence iff the block after some last header line is empty |
| Alignment.LoadMeaning | src/nomadic/truthset/msacall.py:26-46 | a successful load is well formed, its keys are the stripped header lines with `>` kept, each key holds the stripped lines after its last header line, and the keys are listed in the order of their first header lines |
| Alignment.OrderStep | src/nomadic/truthset/msacall.py:36-38 | reading one more line keeps the key list in order of first header lines: a new key goes last, a repeated one stays in place |
| Alignment.Step | src/nomadic/truthset/msacall.py:36-40 | one line fails iff it is a sequence line before any header; a header line makes its stripped text the current key, holding the empty sequence; a sequence line keeps the current key and the key list |
| Alignment.Load | src/nomadic/truthset/msacall.py:26-46 | a successful load is a well-formed alignment without an empty sequence; the empty-sequence error comes only from a read that left some key empty |
| Snps.CreateSnpDf | src/nomadic/truthset/msacall.py:147-179 | unequal lengths fail with the length error; otherwise the loop returns the SNP table `Snps` of the two sequences |
| Snps.PosIndexesReference | src/nomadic/truthset/msacall.py:162-176 | POS indexes the ungapped reference at the column's reference base: the counter skips exactly the gap columns |
| Snps.SnpsMembership | src/nomadic/truthset/msacall.py:164-177 | a record is emitted iff its column has two bases that are not gaps and differ, with ID ".", REF the reference base and ALT the sample base |
| Snps.SnpsBelowLength | src/nomadic/truthset/msacall.py:162-176 | every POS lies inside the ungapped reference |
| Snps.SnpsIncreasing | src/nomadic/truthset/msacall.py:162-177 | records come out in strictly increasing POS |
| Snps.SnpsEmpty | src/nomadic/truthset/msacall.py:164-177 | the table is empty iff no column is a SNP column; a sequence compared with itself gives none |
| Snps.Snps | src/nomadic/truthset/msacall.py:161-177 | at most one record per column, and each record has ID `.`, a REF and an ALT that are bases rather than gaps, and REF different from ALT |
| Snps.WorkedExample | src/nomadic/truthset/msacall.py:147-179 | `ACGT-T` against `ACCTAT` gives the single record (2, ".", G, C) |
| Reference.Matching | src/nomadic/truthset/msacall.py:215-217 | the matches are exactly the headers that contain the name |
| Reference.SelectReferenceSpec | src/nomadic/truthset/msacall.py:215-222 | selection succeeds iff exactly one key contains the name, returns that key, and otherwise reports how many matched |
| Reference.SetReferenceSpec | src/nomadic/truthset/msacall.py:205-230 | `set_reference` succeeds iff one key matches and its region parses. It records that key, its sequence and the parsed contig, start and end; otherwise it raises the count error or the region error |
| Reference.RegionOfPadded | src/nomadic/truthset/msacall.py:228 | the region is the stripped text after the last bar |
| Reference.ParseRegionTextOf | src/nomadic/truthset/msacall.py:229-230 | `contig:start-end` parses into its three fields |
| Reference.ParseRegionOf | src/nomadic/truthset/msacall.py:228-230 | a header whose text after its last bar is `contig:start-end`, padded by whitespace, parses into its three fields |
| Reference.ParseRegionTextFields | src/nomadic/truthset/msacall.py:229-230 | conversely, the parsed fields are free of `:` and `-` and spell the region back |
| Reference.SampleNameOf | src/nomadic/truthset/msacall.py:241 | the sample name of a header `>name`, a bar, then any text, is `name` stripped |
| Reference.SampleName | src/nomadic/truthset/msacall.py:241 | a sample name has no surrounding whitespace and contains no bar |
| Reference.SelectReference | src/nomadic/truthset/msacall.py:215-222 | a selected header is a key of the alignment that contains the name; a failure is the count error with a count other than one |
| Reference.ParseRegionText | src/nomadic/truthset/msacall.py:229-230 | parsed fields are free of their separators: no `:` in the contig, no `-` in start or end; a failure is the region error for the region or the interval error |
| Reference.SetReference | src/nomadic/truthset/msacall.py:205-230 | a success records the name and a header of the alignment that contains it, with that header's sequence |
| Merge.MergeAllSpec | src/nomadic/truthset/msacall.py:253-257 | after the joins, the rows are the keys found in some table, and a row has a `1/1` cell exactly in the columns of tables that list its key |
| Merge.MergeAllKeysStep | src/nomadic/truthset/msacall.py:253-257 | one more outer join adds exactly the keys the new table lists |
| Merge.MergeAllCellsStep | src/nomadic/truthset/msacall.py:253-257 | one more outer join adds the new table's `1/1` column to exactly the rows it lists and keeps every other cell |
| Merge.OuterJoin | src/nomadic/truthset/msacall.py:254-256 | the joined rows are the keys of either side, and each row has the columns of both sides' rows |
| Merge.Merged | src/nomadic/truthset/msacall.py:253-258 | the filled table has the rows of the joins and every row has exactly the sample columns |
| Merge.MergedSpec | src/nomadic/truthset/msacall.py:253-258 | after filling, every row has a cell in every sample column: `1/1` iff a table of that column lists the key, else `0/0` |
| Merge.MergedCell | src/nomadic/truthset/msacall.py:242-258 | with distinct sample names, a sample's cell is `1/1` iff its own table lists the key |
| Merge.MergedKeys | src/nomadic/truthset/msacall.py:253-258 | the merged rows are exactly the keys found in some table |
| Merge.MergedRow | src/nomadic/truthset/msacall.py:253-258 | each merged row is the expected row: every sample column, `1/1` where a table of that column lists the key, else `0/0` |
| Merge.MergedDeterminedBy | src/nomadic/truthset/msacall.py:253-258 | the merged table depends only on the columns and on which column lists which key |
| Merge.MergeOrderIndependent | src/nomadic/truthset/msacall.py:253-258 | merging the same tables in any order gives the same table |
| RowOrder.Insert | src/nomadic/truthset/msacall.py:254-256 | inserting a key keeps the old keys and adds the new one |
| RowOrder.LessOrder | src/nomadic/truthset/msacall.py:255 | the key order on (POS, ID, REF, ALT) is a strict total order |
| RowOrder.SortKeysSpec | src/nomadic/truthset/msacall.py:254-256 | sorting yields the given keys, each once, strictly increasing |
| RowOrder.RowKeys | src/nomadic/truthset/msacall.py:253-258 | the row order is strictly increasing and lists exactly the records of the tables |
| RowOrder.RowKeysSpec | src/nomadic/truthset/msacall.py:253-258 | the row order lists exactly the merged table's keys, strictly increasing |
| RowOrder.SortedUnique | src/nomadic/truthset/msacall.py:253-258 | a strictly increasing key list is determined by its members, so the row order is unique |
| Vcf.Cells | src/nomadic/truthset/msacall.py:281-286 | a row's sample cells are its cells in sample-column order |
| Vcf.VcfRows | src/nomadic/truthset/msacall.py:266-286 | there is one VCF row per listed key: CHROM the contig, POS shifted by the start, QUAL 0, FILTER MSA, INFO `*`, FORMAT GT, then the genotypes |
| Vcf.Document | src/nomadic/truthset/msacall.py:301-310 | the file is the format line, the header line, then one tab-joined line per row |
| Vcf.HeaderFields | src/nomadic/truthset/msacall.py:306 | the header line starts with `#`, and its tab-separated fields are the nine VCF columns followed by the samples |
| Vcf.RowFieldsRoundTrip | src/nomadic/truthset/msacall.py:272-286 | a data line splits back into its fields: nine fixed ones plus one per sample. POS reads back as the offset plus the start |
| Vcf.RowFieldsPos | src/nomadic/truthset/msacall.py:273 | the POS field of a data line parses back as the record offset plus the start |
| Vcf.RowFields | src/nomadic/truthset/msacall.py:266-286 | a data line has the nine VCF fields then exactly the given genotype cells; CHROM is the contig and ID, REF, ALT are the record's |
| Vcf.FileTextLines | src/nomadic/truthset/msacall.py:301-310 | reading the written file back line by line gives each line with its newline |
| Converter.TablesOf | src/nomadic/truthset/msacall.py:239-243 | there is one SNP table per header, in header order, each named by the header's sample name |
| Converter.SampleNames | src/nomadic/truthset/msacall.py:281-283 | the sample columns follow the tables in order |
| Converter.MergedCovers | src/nomadic/truthset/msacall.py:253-286 | every ordered row key is a row of the merged table with a cell in every sample column |
| Converter.WriteLines | src/nomadic/truthset/msacall.py:301-310 | the writing loop yields the document's lines |
| Converter.MsaToVcf.constructor | src/nomadic/truthset/msacall.py:197-203 | a converter over a loaded alignment starts with no reference and no tables |
| Converter.MsaToVcf.Open | src/nomadic/truthset/msacall.py:197-203 | constructing from a file fails as the loader fails, or holds the loaded alignment |
| Converter.MsaToVcf.SetReference | src/nomadic/truthset/msacall.py:205-230 | records the name; the reference becomes the selected entry, or none when selection or parsing fails; nothing else changes |
| Converter.BuildTables | src/nomadic/truthset/msacall.py:238-243 | the loop builds every SNP table iff every entry has the reference's length; otherwise it stops at the first entry that does not, keeping the tables before it |
| Converter.MsaToVcf.CreateSnpDfs | src/nomadic/truthset/msacall.py:232-243 | builds one table per entry, reference included. It succeeds iff every entry has the reference's length; otherwise it stops at the first entry that does not, keeping the tables before it |
| Converter.MsaToVcf.MergeSnpDfs | src/nomadic/truthset/msacall.py:245-258 | stores the filled outer join of the tables, its rows in key order and its sample columns; an empty list fails |
| Converter.MsaToVcf.FormatAsVcf | src/nomadic/truthset/msacall.py:260-286 | the columns become the nine VCF columns plus the sample columns, and the rows become the VCF rows; a start that is not an integer fails |
| Converter.MsaToVcf.CreateVcf | src/nomadic/truthset/msacall.py:288-310 | returns `Convert` of the alignment and its reference, including each failure, and never the empty-merge error. Without a reference nothing changes. With one, the tables become all SNP tables, or those before the first entry of another length; the merged fields and the VCF columns and rows are set exactly when their stage runs |
| Converter.SnpTables | src/nomadic/truthset/msacall.py:238-243 | with every entry aligned, one table per header; otherwise the length error, and some entry's length differs from the reference's |
| Converter.Convert | src/nomadic/truthset/msacall.py:288-310 | without a reference the result is the missing-reference error; a success needs aligned entries and an integer start, and starts with the format line |
| Converter.ConvertOutcome | src/nomadic/truthset/msacall.py:288-298 | no reference means no output. With a reference, conversion succeeds iff every entry has the reference's length and the start is an integer; otherwise it fails with the length error, then the start error |
| Converter.ConvertLines | src/nomadic/truthset/msacall.py:288-310 | a successful conversion writes the format line, the header of VCF columns and samples, and one line per distinct SNP key of any entry. Those lines come in strictly increasing key order, each carrying its key and genotypes |
| Converter.GenotypeMeaning | src/nomadic/truthset/msacall.py:239-258 | with distinct sample names, entry j's genotype for a key is `1/1` iff that entry has a SNP column against the reference with that key, else `0/0` |
| Converter.ReferenceColumn | src/nomadic/truthset/msacall.py:239-243 | the reference, converted as a sample, has `0/0` on every row |
| Example.ExampleNames | src/nomadic/truthset/msacall.py:241 | the example headers, `>Pf3D7 ` and `>S1 ` each followed by a bar and the rest of the header, name the samples `Pf3D7` and `S1` |
| Example.ExampleTables | src/nomadic/truthset/msacall.py:239-243 | the example's tables are an empty one for the reference and one SNP for the sample |
| Example.ExampleMatches | src/nomadic/truthset/msacall.py:215-217 | the name `Pf3D7` occurs in the reference header and not in the sample header |
| Example.ExampleRegion | src/nomadic/truthset/msacall.py:228-230 | the reference header parses into contig `Pf3D7_07_v3`, start `1000`, end `1006` |
| Example.ExampleSelect | src/nomadic/truthset/msacall.py:205-230 | `set_reference("Pf3D7")` on the example alignment selects the first entry with its sequence and region |
| Example.ExampleOutput | src/nomadic/truthset/msacall.py:288-310 | the example alignment with its reference converts to the format line, the header with samples Pf3D7 and S1, and one data line |
| Example.EndToEnd | src/nomadic/truthset/msacall.py:205-310 | selecting `Pf3D7` in the example alignment succeeds, and converting with that selection gives the format line, the header with samples Pf3D7 and S1, and the line `Pf3D7_07_v3 1002 . G C 0 MSA * GT 0/0 1/1` |
| Example.ExampleHeader | src/nomadic/truthset/msacall.py:306 | the example header line is `#` then the nine VCF columns and the two samples, tab-joined |
| Example.ExampleLine | src/nomadic/truthset/msacall.py:272-286 | the example data line is the contig, POS 1002, `.`, G, C, 0, MSA, `*`, GT, `0/0` and `1/1`, tab-joined |

## Left out

- `run_mafft` (lines 16-23) and the `msacall` click command (lines 319-381): they run an external aligner, list directories and print. They are orchestration, not converter logic.
- File I/O. The input file is its text, after text-mode newline translation. The output file is its list of lines (`Vcf.FileText` gives the bytes written). Whether an output path was given is not modelled: `CreateVcf` always returns the lines.
- The commented-out `create_snp_table` and `build_joint_snp_table_from_msa` (lines 55-138): dead code.
- The default `reference_name="Pf3D7"`: callers pass the name explicitly.
- Converter.MsaToVcf.SetReference: after a failure, Python leaves half-assigned fields. The list of matching sequences is left in `reference_seq`, and header fields may be left from the failed parse or from an earlier successful call. A later `create_vcf` may then fail, or may write a VCF that mixes the new entry with the contig and start of the earlier reference. The model clears the reference instead, and `CreateVcf` then reports `NoReference`.
- Sample names that collide, or that equal a VCF column name. pandas then renames the columns with `_x`/`_y` suffixes or selects the wrong columns. The model keys the cells by name, and the lemmas about genotypes assume distinct names.
- pandas dtypes. POS is printed as an integer; a float or object column that would print differently is not modelled.
- Vcf.RowFields: POS plus the start is an unbounded integer. pandas adds them as int64, which wraps around (or, for a start that does not fit, raises) near 2^63; such starts are not modelled.
- Non-ASCII digits, which Python's `int()` also accepts: `PyInt.ParseInt` accepts only ASCII digits, with single underscores between them.
- The row order after the merge is the lexicographic key sort that pandas documents for an outer merge. pandas versions that do not sort an outer merge would list the same rows in another order.
