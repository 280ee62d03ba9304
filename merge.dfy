// Merging the per-sample SNP tables (`_merge_snp_dfs`): a left fold of outer
// joins on the key (POS, ID, REF, ALT), then every missing genotype is filled
// with "0/0".

module Merge {
  import opened Snps

  /** A per-sample SNP table whose genotype column is named `name`. */
  datatype SampleTable = SampleTable(name: string, records: seq<Record>)

  /** A table keyed by (POS, ID, REF, ALT); each row maps sample columns to the cells present. */
  type Table = map<Record, map<string, string>>

  /** The genotype of a sample that carries the SNP (homozygous alternate). */
  const HomAlt: string := "1/1"

  /** The fill value for a sample without the SNP (homozygous reference). */
  const HomRef: string := "0/0"

  /** A per-sample table as a keyed table: each record has "1/1" in the sample's column. */
  function Tagged(t: SampleTable): Table
  {
    map r | r in t.records :: map[t.name := HomAlt]
  }

  /** `pd.merge(a, b, how="outer")` on the key columns: all keys of both, cells of both. */
  function OuterJoin(a: Table, b: Table): (t: Table)
    ensures t.Keys == a.Keys + b.Keys
    ensures forall r :: r in t ==> t[r].Keys == (if r in a then a[r].Keys else {}) + (if r in b then b[r].Keys else {})
  {
    map r | r in a.Keys + b.Keys ::
      (if r in a then a[r] else map[]) + (if r in b then b[r] else map[])
  }

  /** `reduce` of the outer join over the tables, left to right. */
  function MergeAll(ts: seq<SampleTable>): Table
    requires |ts| > 0
  {
    if |ts| == 1 then Tagged(ts[0])
    else OuterJoin(MergeAll(ts[..|ts| - 1]), Tagged(ts[|ts| - 1]))
  }

  /** The sample columns of the tables. */
  function Columns(ts: seq<SampleTable>): set<string>
  {
    set i | 0 <= i < |ts| :: ts[i].name
  }

  /** `fillna("0/0")`: every row gets a cell in every column, "0/0" where it had none. */
  function FillMissing(t: Table, columns: set<string>): Table
  {
    map r | r in t :: map s | s in columns :: if s in t[r] then t[r][s] else HomRef
  }

  /** The merged SNP table. */
  function Merged(ts: seq<SampleTable>): (t: Table)
    requires |ts| > 0
    ensures t.Keys == MergeAll(ts).Keys
    ensures forall r :: r in t ==> t[r].Keys == Columns(ts)
  {
    FillMissing(MergeAll(ts), Columns(ts))
  }

  // ---------------------------------------------------------------------

  /** Some table lists record `r`. */
  ghost predicate Listed(ts: seq<SampleTable>, r: Record)
  {
    exists i :: 0 <= i < |ts| && r in ts[i].records
  }

  /** Some table named `s` lists record `r`. */
  ghost predicate Carries(ts: seq<SampleTable>, s: string, r: Record)
  {
    exists k :: 0 <= k < |ts| && ts[k].name == s && r in ts[k].records
  }

  /** Before filling, a row holds "1/1" in exactly the columns of the tables that list its key. */
  lemma {:induction false} MergeAllSpec(ts: seq<SampleTable>)
    requires |ts| > 0
    ensures forall r :: r in MergeAll(ts) <==> Listed(ts, r)
    ensures forall r, s :: r in MergeAll(ts) ==>
              (s in MergeAll(ts)[r] <==> Carries(ts, s, r))
              && (s in MergeAll(ts)[r] ==> MergeAll(ts)[r][s] == HomAlt)
  {
    if |ts| > 1 {
      var init := ts[..|ts| - 1];
      MergeAllSpec(init);
      MergeAllKeysStep(ts, init);
      MergeAllCellsStep(ts, init);
    } else {
      forall r, s | r in MergeAll(ts)
        ensures s in MergeAll(ts)[r] <==> Carries(ts, s, r)
      {
        if Carries(ts, s, r) {
          var k :| 0 <= k < |ts| && ts[k].name == s && r in ts[k].records;
          assert k == 0;
        }
      }
    }
  }

  /** Joining one more table adds exactly the keys it lists. */
  lemma MergeAllKeysStep(ts: seq<SampleTable>, init: seq<SampleTable>)
    requires |ts| > 1 && init == ts[..|ts| - 1]
    requires forall r :: r in MergeAll(init) <==> Listed(init, r)
    ensures forall r :: r in MergeAll(ts) <==> Listed(ts, r)
  {
    var n := |ts| - 1;
    forall r | Listed(ts, r)
      ensures r in MergeAll(ts)
    {
      var i :| 0 <= i < |ts| && r in ts[i].records;
      if i < n {
        assert init[i] == ts[i];
      }
    }
    forall r | Listed(init, r)
      ensures Listed(ts, r)
    {
      var i :| 0 <= i < n && r in init[i].records;
      assert init[i] == ts[i];
    }
  }

  /** A table carries a key in a column iff the tables before the last do, or the last does. */
  lemma CarriesStep(ts: seq<SampleTable>, init: seq<SampleTable>, s: string, r: Record)
    requires |ts| > 1 && init == ts[..|ts| - 1]
    ensures Carries(ts, s, r) <==>
            Carries(init, s, r) || (ts[|ts| - 1].name == s && r in ts[|ts| - 1].records)
  {
    var n := |ts| - 1;
    if Carries(ts, s, r) {
      var k :| 0 <= k < |ts| && ts[k].name == s && r in ts[k].records;
      if k < n {
        assert init[k] == ts[k];
      }
    }
    if Carries(init, s, r) {
      var k :| 0 <= k < n && init[k].name == s && r in init[k].records;
      assert ts[k] == init[k];
    }
  }

  /** A cell of an outer join comes from the left row or from the right row. */
  lemma OuterJoinCell(a: Table, b: Table, r: Record, s: string)
    requires r in OuterJoin(a, b)
    ensures s in OuterJoin(a, b)[r] <==> (r in a && s in a[r]) || (r in b && s in b[r])
    ensures s in OuterJoin(a, b)[r] ==>
              OuterJoin(a, b)[r][s] == if r in b && s in b[r] then b[r][s] else a[r][s]
  {
  }

  /** Joining one more table adds its column, "1/1", to exactly the rows it lists. */
  lemma MergeAllCellsStep(ts: seq<SampleTable>, init: seq<SampleTable>)
    requires |ts| > 1 && init == ts[..|ts| - 1]
    requires forall r :: r in MergeAll(init) <==> Listed(init, r)
    requires forall r, s :: r in MergeAll(init) ==>
               (s in MergeAll(init)[r] <==> Carries(init, s, r))
               && (s in MergeAll(init)[r] ==> MergeAll(init)[r][s] == HomAlt)
    ensures forall r, s :: r in MergeAll(ts) ==>
              (s in MergeAll(ts)[r] <==> Carries(ts, s, r))
              && (s in MergeAll(ts)[r] ==> MergeAll(ts)[r][s] == HomAlt)
  {
    var a := MergeAll(init);
    var last := ts[|ts| - 1];
    var b := Tagged(last);
    assert MergeAll(ts) == OuterJoin(a, b);
    forall r, s | r in MergeAll(ts)
      ensures s in MergeAll(ts)[r] <==> Carries(ts, s, r)
      ensures s in MergeAll(ts)[r] ==> MergeAll(ts)[r][s] == HomAlt
    {
      OuterJoinCell(a, b, r, s);
      CarriesStep(ts, init, s, r);
      assert r in b <==> r in last.records;
      assert r in b ==> b[r] == map[last.name := HomAlt];
      if Carries(init, s, r) {
        var k :| 0 <= k < |init| && init[k].name == s && r in init[k].records;
        assert Listed(init, r);
      }
    }
  }

  /**
   * The merged table has one row per key found in any sample, every row has
   * a cell in every sample column, and a cell is "1/1" exactly when a table
   * of that column lists the key, "0/0" otherwise.
   */
  lemma MergedSpec(ts: seq<SampleTable>)
    requires |ts| > 0
    ensures forall r :: r in Merged(ts) <==> Listed(ts, r)
    ensures forall r :: r in Merged(ts) ==> Merged(ts)[r].Keys == Columns(ts)
    ensures forall r, s :: r in Merged(ts) && s in Columns(ts) ==>
              Merged(ts)[r][s] == if Carries(ts, s, r) then HomAlt else HomRef
  {
    MergeAllSpec(ts);
  }

  predicate DistinctNames(ts: seq<SampleTable>)
  {
    forall i, j :: 0 <= i < j < |ts| ==> ts[i].name != ts[j].name
  }

  /** With distinct sample names, a sample's cell is "1/1" iff its own table lists the key. */
  lemma MergedCell(ts: seq<SampleTable>, r: Record, i: nat)
    requires |ts| > 0 && DistinctNames(ts)
    requires i < |ts| && r in Merged(ts)
    ensures Merged(ts)[r][ts[i].name] == if r in ts[i].records then HomAlt else HomRef
  {
    MergedSpec(ts);
    assert ts[i].name in Columns(ts);
    if Carries(ts, ts[i].name, r) {
      var k :| 0 <= k < |ts| && ts[k].name == ts[i].name && r in ts[k].records;
      assert k == i;
    }
  }

  /** Tables with the same members carry the same keys in the same columns. */
  lemma SameMembers(ts: seq<SampleTable>, us: seq<SampleTable>)
    requires forall t :: t in ts <==> t in us
    ensures Columns(ts) == Columns(us)
    ensures forall r, s :: Carries(ts, s, r) <==> Carries(us, s, r)
    ensures forall r :: (Listed(ts, r)) <==>
                        (Listed(us, r))
  {
    forall s | s in Columns(ts) ensures s in Columns(us) {
      var i :| 0 <= i < |ts| && ts[i].name == s;
      assert ts[i] in us;
    }
    forall s | s in Columns(us) ensures s in Columns(ts) {
      var i :| 0 <= i < |us| && us[i].name == s;
      assert us[i] in ts;
    }
    forall r, s ensures Carries(ts, s, r) <==> Carries(us, s, r) {
      if Carries(ts, s, r) {
        var k :| 0 <= k < |ts| && ts[k].name == s && r in ts[k].records;
        assert ts[k] in us;
      }
      if Carries(us, s, r) {
        var k :| 0 <= k < |us| && us[k].name == s && r in us[k].records;
        assert us[k] in ts;
      }
    }
    forall r | Listed(ts, r) ensures Listed(us, r) {
      var i :| 0 <= i < |ts| && r in ts[i].records;
      assert ts[i] in us;
    }
    forall r | Listed(us, r) ensures Listed(ts, r) {
      var i :| 0 <= i < |us| && r in us[i].records;
      assert us[i] in ts;
    }
  }

  /** The row the merged table should hold for key `r`. */
  ghost function ExpectedRow(ts: seq<SampleTable>, r: Record): map<string, string>
  {
    map s | s in Columns(ts) :: if Carries(ts, s, r) then HomAlt else HomRef
  }

  lemma MergedRow(ts: seq<SampleTable>, r: Record)
    requires |ts| > 0 && r in Merged(ts)
    ensures Merged(ts)[r] == ExpectedRow(ts, r)
  {
    MergeAllSpec(ts);
    var row := MergeAll(ts)[r];
    FillRow(row, Columns(ts), ExpectedRow(ts, r));
  }

  /** Filling a row's missing columns gives `want` when `want` agrees with the fill cell by cell. */
  lemma FillRow(row: map<string, string>, columns: set<string>, want: map<string, string>)
    requires want.Keys == columns
    requires forall s :: s in columns ==> want[s] == if s in row then row[s] else HomRef
    ensures (map s | s in columns :: if s in row then row[s] else HomRef) == want
  {
  }

  lemma MergedKeys(ts: seq<SampleTable>, r: Record)
    requires |ts| > 0
    ensures r in Merged(ts) <==> Listed(ts, r)
  {
    MergedSpec(ts);
  }

  lemma ExpectedRowSame(ts: seq<SampleTable>, us: seq<SampleTable>, r: Record)
    requires Columns(ts) == Columns(us)
    requires forall s :: Carries(ts, s, r) <==> Carries(us, s, r)
    ensures ExpectedRow(ts, r) == ExpectedRow(us, r)
  {
  }

  /** The merged table depends only on the columns, the keys, and which column lists which key. */
  lemma MergedDeterminedBy(ts: seq<SampleTable>, us: seq<SampleTable>)
    requires |ts| > 0 && |us| > 0
    requires Columns(ts) == Columns(us)
    requires forall r, s :: Carries(ts, s, r) <==> Carries(us, s, r)
    requires forall r :: Listed(ts, r) <==> Listed(us, r)
    ensures Merged(ts) == Merged(us)
  {
    var m, n := Merged(ts), Merged(us);
    forall r ensures r in m <==> r in n {
      MergedKeys(ts, r);
      MergedKeys(us, r);
    }
    forall r | r in m ensures m[r] == n[r] {
      MergedRow(ts, r);
      MergedRow(us, r);
      ExpectedRowSame(ts, us, r);
    }
  }

  /** Merging the same tables in any order gives the same table. */
  lemma MergeOrderIndependent(ts: seq<SampleTable>, us: seq<SampleTable>)
    requires |ts| > 0 && multiset(ts) == multiset(us)
    ensures |us| > 0 && Merged(ts) == Merged(us)
  {
    assert |us| == |multiset(us)| == |multiset(ts)| == |ts|;
    forall t ensures t in ts <==> t in us {
      assert t in ts <==> t in multiset(ts);
      assert t in us <==> t in multiset(us);
    }
    SameMembers(ts, us);
    MergedDeterminedBy(ts, us);
  }
}
