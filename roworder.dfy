// The row order of the merged SNP table. An outer merge on the key columns
// sorts the union of the keys lexicographically, so the merged table lists
// its keys in increasing (POS, ID, REF, ALT) order, each key once.

module RowOrder {
  import opened Snps
  import opened Merge

  /** Python's `<` on strings: lexicographic by code point. */
  predicate StrLess(a: string, b: string)
    decreases |a|
  {
    if |a| == 0 then |b| > 0
    else if |b| == 0 then false
    else a[0] < b[0] || (a[0] == b[0] && StrLess(a[1..], b[1..]))
  }

  /** Tuple order on the key columns (POS, ID, REF, ALT). */
  predicate Less(a: Record, b: Record)
  {
    a.pos < b.pos
    || (a.pos == b.pos && (StrLess(a.id, b.id)
    || (a.id == b.id && (a.ref < b.ref
    || (a.ref == b.ref && a.alt < b.alt)))))
  }

  predicate StrictlySorted(xs: seq<Record>)
  {
    forall i, j :: 0 <= i < j < |xs| ==> Less(xs[i], xs[j])
  }

  /** Adds key `k` to a sorted key list at its place, unless it is there already. */
  function Insert(xs: seq<Record>, k: Record): (ys: seq<Record>)
    ensures forall x :: x in ys <==> x in xs || x == k
  {
    if |xs| == 0 then [k]
    else if k == xs[0] then xs
    else if Less(k, xs[0]) then [k] + xs
    else
      var rest := Insert(xs[1..], k);
      assert forall x :: x in xs <==> x == xs[0] || x in xs[1..];
      [xs[0]] + rest
  }

  /** The distinct keys of `rs` in increasing order. */
  function SortKeys(rs: seq<Record>): seq<Record>
  {
    if |rs| == 0 then [] else Insert(SortKeys(rs[..|rs| - 1]), rs[|rs| - 1])
  }

  /** The records of all tables, one table after another. */
  function AllRecords(ts: seq<SampleTable>): seq<Record>
  {
    if |ts| == 0 then [] else AllRecords(ts[..|ts| - 1]) + ts[|ts| - 1].records
  }

  /** The row keys of the merged table, in the order the merge leaves them. */
  function RowKeys(ts: seq<SampleTable>): (keys: seq<Record>)
    ensures StrictlySorted(keys)
    ensures forall r :: r in keys <==> r in AllRecords(ts)
  {
    SortKeysSpec(AllRecords(ts));
    SortKeys(AllRecords(ts))
  }

  // ---------------------------------------------------------------------

  lemma {:induction false} StrLessIrreflexive(a: string)
    ensures !StrLess(a, a)
    decreases |a|
  {
    if |a| > 0 {
      StrLessIrreflexive(a[1..]);
    }
  }

  lemma {:induction false} StrLessTrans(a: string, b: string, c: string)
    requires StrLess(a, b) && StrLess(b, c)
    ensures StrLess(a, c)
    decreases |a|
  {
    if |a| > 0 && a[0] == b[0] && b[0] == c[0] {
      StrLessTrans(a[1..], b[1..], c[1..]);
    }
  }

  lemma {:induction false} StrLessTotal(a: string, b: string)
    requires a != b
    ensures StrLess(a, b) || StrLess(b, a)
    decreases |a|
  {
    if |a| > 0 && |b| > 0 && a[0] == b[0] {
      assert a == [a[0]] + a[1..] && b == [b[0]] + b[1..];
      StrLessTotal(a[1..], b[1..]);
    }
  }

  /** The key order is a strict total order. */
  lemma LessOrder(a: Record, b: Record, c: Record)
    ensures !Less(a, a)
    ensures Less(a, b) && Less(b, c) ==> Less(a, c)
    ensures a != b ==> Less(a, b) || Less(b, a)
    ensures Less(a, b) ==> !Less(b, a)
  {
    StrLessIrreflexive(a.id);
    if StrLess(a.id, b.id) && StrLess(b.id, c.id) {
      StrLessTrans(a.id, b.id, c.id);
    }
    if StrLess(a.id, b.id) && StrLess(b.id, a.id) {
      StrLessTrans(a.id, b.id, a.id);
    }
    if a.id != b.id {
      StrLessTotal(a.id, b.id);
    }
  }

  lemma {:induction false} InsertSorted(xs: seq<Record>, k: Record)
    requires StrictlySorted(xs)
    ensures StrictlySorted(Insert(xs, k))
    decreases |xs|
  {
    if |xs| > 0 && k != xs[0] {
      if Less(k, xs[0]) {
        forall j | 0 < j < |xs| ensures Less(k, xs[j]) {
          LessOrder(k, xs[0], xs[j]);
        }
      } else {
        var rest := Insert(xs[1..], k);
        InsertSorted(xs[1..], k);
        LessOrder(xs[0], k, k);
        LessOrder(k, xs[0], k);
        forall j | 0 <= j < |rest| ensures Less(xs[0], rest[j]) {
          assert rest[j] in xs[1..] || rest[j] == k;
        }
      }
    }
  }

  /** The sorted keys are strictly increasing and are exactly the keys given. */
  lemma {:induction false} SortKeysSpec(rs: seq<Record>)
    ensures StrictlySorted(SortKeys(rs))
    ensures forall r :: r in SortKeys(rs) <==> r in rs
  {
    if |rs| > 0 {
      var init := rs[..|rs| - 1];
      SortKeysSpec(init);
      InsertSorted(SortKeys(init), rs[|rs| - 1]);
      assert forall r :: r in rs <==> r in init || r == rs[|rs| - 1];
    }
  }

  lemma {:induction false} AllRecordsListed(ts: seq<SampleTable>, r: Record)
    ensures r in AllRecords(ts) <==> Listed(ts, r)
  {
    if |ts| > 0 {
      var n := |ts| - 1;
      AllRecordsListed(ts[..n], r);
      if Listed(ts[..n], r) {
        var i :| 0 <= i < n && r in ts[..n][i].records;
        assert ts[i] == ts[..n][i];
      }
      if Listed(ts, r) {
        var i :| 0 <= i < |ts| && r in ts[i].records;
        if i < n {
          assert ts[..n][i] == ts[i];
        }
      }
    }
  }

  /** The rows are the merged table's keys, each once, in increasing key order. */
  lemma RowKeysSpec(ts: seq<SampleTable>)
    requires |ts| > 0
    ensures StrictlySorted(RowKeys(ts))
    ensures forall r :: r in RowKeys(ts) <==> r in Merged(ts)
  {
    SortKeysSpec(AllRecords(ts));
    forall r ensures r in RowKeys(ts) <==> r in Merged(ts) {
      AllRecordsListed(ts, r);
      MergedKeys(ts, r);
    }
  }

  /** A strictly increasing list is determined by its members. */
  lemma {:induction false} SortedUnique(xs: seq<Record>, ys: seq<Record>)
    requires StrictlySorted(xs) && StrictlySorted(ys)
    requires forall r :: r in xs <==> r in ys
    ensures xs == ys
    decreases |xs|
  {
    assert |xs| > 0 ==> xs[0] in ys;
    assert |ys| > 0 ==> ys[0] in xs;
    if |xs| > 0 && |ys| > 0 {
      var a, b := xs[0], ys[0];
      var i :| 0 <= i < |ys| && ys[i] == a;
      var j :| 0 <= j < |xs| && xs[j] == b;
      assert i == 0 || Less(b, a);
      assert j == 0 || Less(a, b);
      LessOrder(a, b, a);
      assert a == b;
      forall r ensures r in xs[1..] <==> r in ys[1..] {
        if r in xs[1..] {
          var i :| 1 <= i < |xs| && xs[i] == r;
          LessOrder(a, r, a);
          assert r in ys;
          var k :| 0 <= k < |ys| && ys[k] == r;
          assert k != 0 && ys[1..][k - 1] == r;
        }
        if r in ys[1..] {
          var i :| 1 <= i < |ys| && ys[i] == r;
          LessOrder(b, r, b);
          assert r in xs;
          var k :| 0 <= k < |xs| && xs[k] == r;
          assert k != 0 && xs[1..][k - 1] == r;
        }
      }
      SortedUnique(xs[1..], ys[1..]);
      assert xs == [a] + xs[1..] && ys == [b] + ys[1..];
    }
  }
}
