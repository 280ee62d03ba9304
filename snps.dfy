// Pairwise SNP extraction (`create_snp_df`): a left-to-right walk over the
// columns of the reference and one sample, counting reference bases.

module Snps {
  import opened Outcomes

  /** The alignment's gap character. */
  const Gap: char := '-'

  /** One row of a SNP table: POS, ID, REF and ALT. */
  datatype Record = Record(pos: nat, id: string, ref: char, alt: char)

  /** The reference with its gaps removed: the coordinates POS counts in. */
  function Ungapped(r: string): string
  {
    if |r| == 0 then []
    else Ungapped(r[..|r| - 1]) + (if r[|r| - 1] == Gap then [] else [r[|r| - 1]])
  }

  /** Column `j` holds a base in both sequences, and the bases differ. */
  predicate IsSnpColumn(r: string, s: string, j: nat)
    requires j < |r| && j < |s|
  {
    r[j] != Gap && s[j] != Gap && r[j] != s[j]
  }

  /** A SNP record: ID ".", and two bases, not gaps, that differ. */
  predicate IsSnp(rec: Record)
  {
    rec.id == "." && rec.ref != Gap && rec.alt != Gap && rec.ref != rec.alt
  }

  /** The record for column `j`: POS counts the reference bases before it. */
  function RecordAt(r: string, s: string, j: nat): Record
    requires j < |r| && j < |s|
  {
    Record(|Ungapped(r[..j])|, ".", r[j], s[j])
  }

  /** The SNP table of a sample against the reference, column by column. */
  function Snps(r: string, s: string): (records: seq<Record>)
    requires |r| == |s|
    ensures |records| <= |r|
    ensures forall rec :: rec in records ==> IsSnp(rec)
  {
    if |r| == 0 then []
    else
      var n := |r| - 1;
      Snps(r[..n], s[..n]) + (if IsSnpColumn(r, s, n) then [RecordAt(r, s, n)] else [])
  }

  /**
   * `create_snp_df`: fails unless both sequences have the same aligned
   * length, and otherwise returns the SNP table.
   */
  method CreateSnpDf(refSeq: string, sampSeq: string) returns (r: Result<seq<Record>>)
    ensures |refSeq| != |sampSeq| ==> r == Err(LengthMismatch)
    ensures |refSeq| == |sampSeq| ==> r == Ok(Snps(refSeq, sampSeq))
  {
    if |refSeq| != |sampSeq| {
      return Err(LengthMismatch);
    }
    var idx := 0;
    var records: seq<Record> := [];
    for i := 0 to |refSeq|
      invariant idx == |Ungapped(refSeq[..i])|
      invariant records == Snps(refSeq[..i], sampSeq[..i])
    {
      assert refSeq[..i + 1][..i] == refSeq[..i];
      assert sampSeq[..i + 1][..i] == sampSeq[..i];
      var rb, sb := refSeq[i], sampSeq[i];
      if rb == Gap {
        // an insertion against the reference: the counter stays
      } else if sb == Gap {
        idx := idx + 1;
      } else if rb == sb {
        idx := idx + 1;
      } else {
        records := records + [Record(idx, ".", rb, sb)];
        idx := idx + 1;
      }
    }
    assert refSeq[..|refSeq|] == refSeq && sampSeq[..|sampSeq|] == sampSeq;
    r := Ok(records);
  }

  // ---------------------------------------------------------------------
  // What the table holds

  lemma {:induction false} UngappedAppend(a: string, b: string)
    ensures Ungapped(a + b) == Ungapped(a) + Ungapped(b)
    decreases |b|
  {
    if |b| > 0 {
      var n := |b| - 1;
      assert (a + b)[..|a + b| - 1] == a + b[..n];
      UngappedAppend(a, b[..n]);
    } else {
      assert a + b == a;
    }
  }

  /**
   * POS is an index into the ungapped reference, and the base found there is
   * the column's reference base: the counter skips exactly the gap columns.
   */
  lemma PosIndexesReference(r: string, s: string, j: nat)
    requires j < |r| == |s| && r[j] != Gap
    ensures RecordAt(r, s, j).pos < |Ungapped(r)|
    ensures Ungapped(r)[RecordAt(r, s, j).pos] == r[j]
  {
    assert r == r[..j] + ([r[j]] + r[j + 1..]);
    UngappedAppend(r[..j], [r[j]] + r[j + 1..]);
    UngappedAppend([r[j]], r[j + 1..]);
    assert Ungapped([r[j]]) == [r[j]] by {
      assert [r[j]][..0] == [];
    }
  }

  /** Cutting both sequences at `n` keeps the records of earlier columns. */
  lemma RecordAtPrefix(r: string, s: string, n: nat, j: nat)
    requires j < n <= |r| == |s|
    ensures RecordAt(r[..n], s[..n], j) == RecordAt(r, s, j)
  {
    assert r[..n][..j] == r[..j];
  }

  /** A record is emitted exactly for each column where both bases are present and differ. */
  lemma {:induction false} SnpsMembership(r: string, s: string, rec: Record)
    requires |r| == |s|
    ensures rec in Snps(r, s) <==>
            exists j :: 0 <= j < |r| && IsSnpColumn(r, s, j) && rec == RecordAt(r, s, j)
  {
    if |r| > 0 {
      var n := |r| - 1;
      SnpsMembership(r[..n], s[..n], rec);
      if rec in Snps(r[..n], s[..n]) {
        var j :| 0 <= j < n && IsSnpColumn(r[..n], s[..n], j) && rec == RecordAt(r[..n], s[..n], j);
        RecordAtPrefix(r, s, n, j);
      }
      if exists j :: 0 <= j < |r| && IsSnpColumn(r, s, j) && rec == RecordAt(r, s, j) {
        var j :| 0 <= j < |r| && IsSnpColumn(r, s, j) && rec == RecordAt(r, s, j);
        if j < n {
          RecordAtPrefix(r, s, n, j);
          assert IsSnpColumn(r[..n], s[..n], j);
        }
      }
    }
  }

  /** Every POS lies inside the ungapped reference. */
  lemma {:induction false} SnpsBelowLength(r: string, s: string)
    requires |r| == |s|
    ensures forall k :: 0 <= k < |Snps(r, s)| ==> Snps(r, s)[k].pos < |Ungapped(r)|
  {
    if |r| > 0 {
      var n := |r| - 1;
      SnpsBelowLength(r[..n], s[..n]);
      assert r == r[..n] + [r[n]];
      UngappedAppend(r[..n], [r[n]]);
    }
  }

  /** Records come out in strictly increasing POS. */
  lemma {:induction false} SnpsIncreasing(r: string, s: string)
    requires |r| == |s|
    ensures forall a, b :: 0 <= a < b < |Snps(r, s)| ==> Snps(r, s)[a].pos < Snps(r, s)[b].pos
  {
    if |r| > 0 {
      var n := |r| - 1;
      SnpsIncreasing(r[..n], s[..n]);
      SnpsBelowLength(r[..n], s[..n]);
    }
  }

  /** The table is empty exactly when no column is a SNP column; in particular for a copy of the reference. */
  lemma SnpsEmpty(r: string, s: string)
    requires |r| == |s|
    ensures Snps(r, s) == [] <==> forall j :: 0 <= j < |r| ==> !IsSnpColumn(r, s, j)
    ensures Snps(r, r) == []
  {
    if Snps(r, s) != [] {
      SnpsMembership(r, s, Snps(r, s)[0]);
    }
    if exists j :: 0 <= j < |r| && IsSnpColumn(r, s, j) {
      var j :| 0 <= j < |r| && IsSnpColumn(r, s, j);
      SnpsMembership(r, s, RecordAt(r, s, j));
    }
    if Snps(r, r) != [] {
      SnpsMembership(r, r, Snps(r, r)[0]);
    }
  }

  /** Extending both sequences by one column adds at most that column's record. */
  lemma SnpsSnoc(r: string, s: string, a: char, b: char)
    requires |r| == |s|
    ensures Snps(r + [a], s + [b]) ==
            Snps(r, s) + (if a != Gap && b != Gap && a != b then [Record(|Ungapped(r)|, ".", a, b)] else [])
    ensures Ungapped(r + [a]) == Ungapped(r) + (if a == Gap then [] else [a])
  {
    assert (r + [a])[..|r|] == r;
    assert (s + [b])[..|s|] == s;
  }

  /** The worked example: one SNP, G to C, at reference offset 2 behind a gap column. */
  lemma WorkedExample()
    ensures Snps("ACGT-T", "ACCTAT") == [Record(2, ".", 'G', 'C')]
  {
    var x: string := [];
    SnpsSnoc(x, x, 'A', 'A');
    SnpsSnoc(x + "A", x + "A", 'C', 'C');
    SnpsSnoc(x + "AC", x + "AC", 'G', 'C');
    SnpsSnoc(x + "ACG", x + "ACC", 'T', 'T');
    SnpsSnoc(x + "ACGT", x + "ACCT", '-', 'A');
    SnpsSnoc(x + "ACGT-", x + "ACCTA", 'T', 'T');
    assert x + "A" + ['C'] == x + "AC" && x + "AC" + ['G'] == x + "ACG" && x + "AC" + ['C'] == x + "ACC";
    assert x + "ACG" + ['T'] == x + "ACGT" && x + "ACC" + ['T'] == x + "ACCT";
    assert x + "ACGT" + ['-'] == x + "ACGT-" && x + "ACCT" + ['A'] == x + "ACCTA";
    assert x + "ACGT-" + ['T'] == "ACGT-T" && x + "ACCTA" + ['T'] == "ACCTAT";
  }
}
