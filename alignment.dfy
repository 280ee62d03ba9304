// Loading a multiple sequence alignment written in FASTA style
// (`load_msa_as_dict`): every line starting with `>` opens an entry keyed by
// the stripped line, and the stripped lines that follow are appended to it.

module Alignment {
  import opened Outcomes
  import opened Text

  /**
   * A loaded alignment: the headers in the order the dictionary first saw
   * them, and the aligned sequence of each header.
   */
  datatype Msa = Msa(headers: seq<string>, seqs: map<string, string>)
  {
    predicate Valid()
    {
      && (forall i, j :: 0 <= i < j < |headers| ==> headers[i] != headers[j])
      && seqs.Keys == set h | h in headers
    }
  }

  /** `line.startswith(">")`, tested on the line before it is stripped. */
  predicate IsHeaderLine(line: string)
  {
    |line| > 0 && line[0] == '>'
  }

  /** The loader's variables: the header last read, and the dictionary. */
  datatype LoadState = LoadState(current: Option<string>, headers: seq<string>, seqs: map<string, string>)

  predicate Consistent(st: LoadState)
  {
    && Msa(st.headers, st.seqs).Valid()
    && (st.current.Some? ==> st.current.value in st.seqs)
  }

  /** One pass of the loader's loop body over `line`. */
  function Step(st: LoadState, line: string): (r: Result<LoadState>)
    ensures r.Err? <==> !IsHeaderLine(line) && st.current.None?
    ensures r.Ok? && IsHeaderLine(line) ==> r.value.current == Some(Strip(line)) && Strip(line) in r.value.seqs && r.value.seqs[Strip(line)] == ""
    ensures r.Ok? && !IsHeaderLine(line) ==> r.value.current == st.current && r.value.headers == st.headers
  {
    if IsHeaderLine(line) then
      var h := Strip(line);
      Ok(LoadState(Some(h), if h in st.seqs then st.headers else st.headers + [h], st.seqs[h := ""]))
    else
      match st.current
      case None => Err(LineBeforeHeader)
      case Some(h) =>
        var old_seq := if h in st.seqs then st.seqs[h] else "";
        Ok(st.(seqs := st.seqs[h := old_seq + Strip(line)]))
  }

  /** The loader's state after reading `lines` in order. */
  function Scan(lines: seq<string>): (r: Result<LoadState>)
    ensures r.Ok? ==> Consistent(r.value)
    ensures r.Err? ==> r.error == LineBeforeHeader
  {
    if |lines| == 0 then Ok(LoadState(None, [], map[]))
    else
      match Scan(lines[..|lines| - 1])
      case Err(e) => Err(e)
      case Ok(st) => Step(st, lines[|lines| - 1])
  }

  /** The whole loader: the scan, then the check that no sequence is empty. */
  function Load(lines: seq<string>): (r: Result<Msa>)
    ensures r.Ok? ==> r.value.Valid() && forall h :: h in r.value.seqs ==> r.value.seqs[h] != ""
    ensures r == Err(EmptySequence) ==> Scan(lines).Ok? && exists h :: h in Scan(lines).value.seqs && Scan(lines).value.seqs[h] == ""
  {
    match Scan(lines)
    case Err(e) => Err(e)
    case Ok(st) =>
      if exists h :: h in st.seqs && st.seqs[h] == "" then Err(EmptySequence)
      else Ok(Msa(st.headers, st.seqs))
  }

  /** `load_msa_as_dict` on a file holding `text`, read with `readline()`. */
  method LoadMsaDict(text: string) returns (r: Result<Msa>)
    ensures r == Load(SplitLines(text))
  {
    var lines := SplitLines(text);
    var header: Option<string> := None;
    var headers: seq<string> := [];
    var dt: map<string, string> := map[];
    var i := 0;
    while i < |lines|
      invariant 0 <= i <= |lines|
      invariant Scan(lines[..i]) == Ok(LoadState(header, headers, dt))
    {
      var line := lines[i];
      ghost var before := LoadState(header, headers, dt);
      ScanPrefix(lines, i);
      if IsHeaderLine(line) {
        var h := Strip(line);
        if h !in dt {
          headers := headers + [h];
        }
        dt := dt[h := ""];
        header := Some(h);
      } else {
        if header.None? {
          ScanStuck(lines, i);
          return Err(LineBeforeHeader);
        }
        dt := dt[header.value := dt[header.value] + Strip(line)];
      }
      assert Step(before, line) == Ok(LoadState(header, headers, dt));
      i := i + 1;
    }
    assert lines[..i] == lines;
    if exists h :: h in dt && dt[h] == "" {
      return Err(EmptySequence);
    }
    r := Ok(Msa(headers, dt));
  }

  /** Reading line `i` after the lines before it is one more step of the scan. */
  lemma ScanPrefix(lines: seq<string>, i: nat)
    requires i < |lines| && Scan(lines[..i]).Ok?
    ensures Scan(lines[..i + 1]) == Step(Scan(lines[..i]).value, lines[i])
  {
    assert lines[..i + 1][..i] == lines[..i];
  }

  /** Once a prefix fails, the whole file fails with the same error. */
  lemma ScanStuck(lines: seq<string>, i: nat)
    requires i < |lines| && Scan(lines[..i + 1]).Err?
    ensures Load(lines) == Err(LineBeforeHeader)
  {
    ScanFails(lines[..i + 1]);
    assert lines[..i + 1][0] == lines[0];
    ScanFails(lines);
  }

  // ---------------------------------------------------------------------
  // What the loader computes, stated on the lines read

  predicate NoHeaderFrom(lines: seq<string>, j: nat)
  {
    forall m :: j <= m < |lines| ==> !IsHeaderLine(lines[m])
  }

  /** Line `i` is the last header line whose stripped text is its own. */
  predicate LastHeader(lines: seq<string>, i: int)
  {
    && 0 <= i < |lines|
    && IsHeaderLine(lines[i])
    && forall m :: i < m < |lines| && IsHeaderLine(lines[m]) ==> Strip(lines[m]) != Strip(lines[i])
  }

  /** The stripped lines from `j` up to the next header line, concatenated. */
  function Block(lines: seq<string>, j: nat): string
    decreases |lines| - j
  {
    if j >= |lines| || IsHeaderLine(lines[j]) then ""
    else Strip(lines[j]) + Block(lines, j + 1)
  }

  /** The keys are exactly the stripped header lines read. */
  ghost predicate KeysDescribed(lines: seq<string>, seqs: map<string, string>)
  {
    forall h :: h in seqs <==>
      exists i :: 0 <= i < |lines| && IsHeaderLine(lines[i]) && Strip(lines[i]) == h
  }

  /** The current header is the last header line read, if any. */
  ghost predicate CurrentDescribed(lines: seq<string>, current: Option<string>)
  {
    && (current.None? <==> NoHeaderFrom(lines, 0))
    && (current.Some? ==>
          exists i :: 0 <= i < |lines| && IsHeaderLine(lines[i]) && Strip(lines[i]) == current.value
                      && NoHeaderFrom(lines, i + 1))
  }

  /** Each key holds the block after its last header line. */
  ghost predicate ContentDescribed(lines: seq<string>, seqs: map<string, string>)
  {
    forall i {:trigger LastHeader(lines, i)} :: LastHeader(lines, i) ==>
      Strip(lines[i]) in seqs && seqs[Strip(lines[i])] == Block(lines, i + 1)
  }

  /** Line `i` is a header line whose stripped text is `h`. */
  predicate HeaderAt(lines: seq<string>, i: int, h: string)
  {
    0 <= i < |lines| && IsHeaderLine(lines[i]) && Strip(lines[i]) == h
  }

  /** Every header line of `y` comes after some header line of `x`. */
  ghost predicate FirstBefore(lines: seq<string>, x: string, y: string)
  {
    forall j {:trigger HeaderAt(lines, j, y)} :: HeaderAt(lines, j, y) ==>
      exists i :: 0 <= i < j && HeaderAt(lines, i, x)
  }

  /** The keys are listed in the order in which their first header line was read. */
  ghost predicate OrderDescribed(lines: seq<string>, headers: seq<string>)
  {
    forall a, b :: 0 <= a < b < |headers| ==> FirstBefore(lines, headers[a], headers[b])
  }

  /** Everything the loader's state says about the lines read so far. */
  ghost predicate Describes(lines: seq<string>, st: LoadState)
  {
    && Consistent(st)
    && KeysDescribed(lines, st.seqs)
    && CurrentDescribed(lines, st.current)
    && ContentDescribed(lines, st.seqs)
    && OrderDescribed(lines, st.headers)
  }

  /** Reading one more line extends only the block still open at the end. */
  lemma {:induction false} BlockAppend(q: seq<string>, l: string, j: nat)
    requires j <= |q|
    ensures Block(q + [l], j) ==
            Block(q, j) + (if NoHeaderFrom(q, j) && !IsHeaderLine(l) then Strip(l) else "")
    decreases |q| - j
  {
    var p := q + [l];
    assert p[..|q|] == q;
    if j < |q| {
      assert p[j] == q[j];
      if !IsHeaderLine(q[j]) {
        BlockAppend(q, l, j + 1);
        assert NoHeaderFrom(q, j) == NoHeaderFrom(q, j + 1);
      } else {
        assert !NoHeaderFrom(q, j);
      }
    } else {
      assert p[j] == l;
      assert Block(p, j + 1) == "";
    }
  }

  /** The scan fails exactly when the first line read is not a header. */
  lemma {:induction false} ScanFails(lines: seq<string>)
    ensures Scan(lines).Err? <==> |lines| > 0 && !IsHeaderLine(lines[0])
  {
    if |lines| > 0 {
      var q := lines[..|lines| - 1];
      ScanFails(q);
      if |q| > 0 {
        assert q[0] == lines[0];
        if Scan(q).Ok? {
          ScanDescribes(q);
          assert IsHeaderLine(q[0]);
          assert !NoHeaderFrom(q, 0);
        }
      }
    }
  }

  lemma KeysStep(q: seq<string>, l: string, st: LoadState)
    requires Consistent(st)
    requires KeysDescribed(q, st.seqs)
    requires Step(st, l).Ok?
    ensures KeysDescribed(q + [l], Step(st, l).value.seqs)
  {
    var p := q + [l];
    var seqs' := Step(st, l).value.seqs;
    assert forall m :: 0 <= m < |q| ==> p[m] == q[m];
    forall k | k in seqs'
      ensures exists i :: 0 <= i < |p| && IsHeaderLine(p[i]) && Strip(p[i]) == k
    {
      if !(IsHeaderLine(l) && k == Strip(l)) {
        var i :| 0 <= i < |q| && IsHeaderLine(q[i]) && Strip(q[i]) == k;
        assert p[i] == q[i];
      } else {
        assert p[|q|] == l;
      }
    }
    forall k | exists i :: 0 <= i < |p| && IsHeaderLine(p[i]) && Strip(p[i]) == k
      ensures k in seqs'
    {
      var i :| 0 <= i < |p| && IsHeaderLine(p[i]) && Strip(p[i]) == k;
      if i < |q| { assert q[i] == p[i]; }
    }
  }

  /** A key read before keeps its place before any later key. */
  lemma PairStep(q: seq<string>, l: string, seqs: map<string, string>, x: string, y: string)
    requires KeysDescribed(q, seqs) && x in seqs
    requires FirstBefore(q, x, y)
    ensures FirstBefore(q + [l], x, y)
  {
    var p := q + [l];
    var i0 :| 0 <= i0 < |q| && IsHeaderLine(q[i0]) && Strip(q[i0]) == x;
    assert p[i0] == q[i0];
    forall j | HeaderAt(p, j, y)
      ensures exists i :: 0 <= i < j && HeaderAt(p, i, x)
    {
      if j < |q| {
        assert p[j] == q[j];
        assert HeaderAt(q, j, y);
        var i :| 0 <= i < j && HeaderAt(q, i, x);
        assert p[i] == q[i];
        assert HeaderAt(p, i, x);
      } else {
        assert HeaderAt(p, i0, x);
      }
    }
  }

  /** A header line with a new key puts that key after every key read before. */
  lemma NewKeyLast(q: seq<string>, l: string, seqs: map<string, string>, x: string)
    requires KeysDescribed(q, seqs) && x in seqs
    requires IsHeaderLine(l) && Strip(l) !in seqs
    ensures FirstBefore(q + [l], x, Strip(l))
  {
    var p := q + [l];
    var h := Strip(l);
    var i0 :| 0 <= i0 < |q| && IsHeaderLine(q[i0]) && Strip(q[i0]) == x;
    assert p[i0] == q[i0];
    assert HeaderAt(p, i0, x);
    assert forall m :: 0 <= m < |q| ==> p[m] == q[m];
    assert forall m :: 0 <= m < |q| ==> !HeaderAt(p, m, h);
    forall j | HeaderAt(p, j, h)
      ensures exists i :: 0 <= i < j && HeaderAt(p, i, x)
    {
      assert j == |q|;
    }
  }

  /** One more line keeps the key list in order of first header lines. */
  lemma OrderStep(q: seq<string>, l: string, st: LoadState)
    requires Consistent(st) && KeysDescribed(q, st.seqs)
    requires OrderDescribed(q, st.headers)
    requires Step(st, l).Ok?
    ensures OrderDescribed(q + [l], Step(st, l).value.headers)
  {
    var hs := st.headers;
    var hs' := Step(st, l).value.headers;
    assert hs' == if IsHeaderLine(l) && Strip(l) !in st.seqs then hs + [Strip(l)] else hs;
    forall a, b | 0 <= a < b < |hs'|
      ensures FirstBefore(q + [l], hs'[a], hs'[b])
    {
      assert hs'[a] == hs[a] && hs[a] in st.seqs;
      if b < |hs| {
        assert hs'[b] == hs[b];
        PairStep(q, l, st.seqs, hs[a], hs[b]);
      } else {
        NewKeyLast(q, l, st.seqs, hs[a]);
      }
    }
  }

  lemma CurrentStep(q: seq<string>, l: string, st: LoadState)
    requires CurrentDescribed(q, st.current)
    requires Step(st, l).Ok?
    ensures CurrentDescribed(q + [l], Step(st, l).value.current)
  {
    var p := q + [l];
    var cur := Step(st, l).value.current;
    assert p[|q|] == l;
    if IsHeaderLine(l) {
      assert cur == Some(Strip(l));
      assert NoHeaderFrom(p, |q| + 1);
      assert IsHeaderLine(p[|q|]) && Strip(p[|q|]) == cur.value;
    } else {
      assert cur == st.current;
      var i :| 0 <= i < |q| && IsHeaderLine(q[i]) && Strip(q[i]) == st.current.value
               && NoHeaderFrom(q, i + 1);
      assert p[i] == q[i];
      assert NoHeaderFrom(p, i + 1) by {
        forall m | i + 1 <= m < |p| ensures !IsHeaderLine(p[m]) {
          if m < |q| { assert p[m] == q[m]; }
        }
      }
    }
  }

  lemma ContentStepHeader(q: seq<string>, l: string, st: LoadState)
    requires ContentDescribed(q, st.seqs)
    requires IsHeaderLine(l)
    ensures ContentDescribed(q + [l], Step(st, l).value.seqs)
  {
    var p := q + [l];
    var seqs' := Step(st, l).value.seqs;
    forall i | LastHeader(p, i)
      ensures Strip(p[i]) in seqs' && seqs'[Strip(p[i])] == Block(p, i + 1)
    {
      if i < |q| {
        assert p[i] == q[i];
        assert LastHeader(q, i) by {
          assert forall m :: i < m < |q| ==> p[m] == q[m];
        }
        BlockAppend(q, l, i + 1);
        assert p[|q|] == l;
        assert Strip(p[|q|]) != Strip(p[i]);
      } else {
        assert p[i] == l;
        assert Block(p, i + 1) == "";
      }
    }
  }

  lemma ContentStepSequence(q: seq<string>, l: string, st: LoadState)
    requires ContentDescribed(q, st.seqs)
    requires CurrentDescribed(q, st.current)
    requires !IsHeaderLine(l) && st.current.Some? && st.current.value in st.seqs
    ensures ContentDescribed(q + [l], Step(st, l).value.seqs)
  {
    var p := q + [l];
    var h := st.current.value;
    var seqs' := Step(st, l).value.seqs;
    assert seqs' == st.seqs[h := st.seqs[h] + Strip(l)];
    var i0 :| 0 <= i0 < |q| && IsHeaderLine(q[i0]) && Strip(q[i0]) == h && NoHeaderFrom(q, i0 + 1);
    forall i | LastHeader(p, i)
      ensures Strip(p[i]) in seqs' && seqs'[Strip(p[i])] == Block(p, i + 1)
    {
      ContentAt(q, l, st.seqs, h, i0, i);
    }
  }

  lemma ContentAt(q: seq<string>, l: string, seqs: map<string, string>, h: string, i0: nat, i: nat)
    requires ContentDescribed(q, seqs)
    requires !IsHeaderLine(l) && h in seqs
    requires i0 < |q| && IsHeaderLine(q[i0]) && Strip(q[i0]) == h && NoHeaderFrom(q, i0 + 1)
    requires LastHeader(q + [l], i)
    ensures Strip(q[i]) in seqs
    ensures seqs[h := seqs[h] + Strip(l)][Strip(q[i])] == Block(q + [l], i + 1)
  {
    var p := q + [l];
    assert p[|q|] == l;
    assert i < |q|;
    assert p[i] == q[i];
    assert LastHeader(q, i) by {
      assert forall m :: i < m < |q| ==> p[m] == q[m];
    }
    BlockAppend(q, l, i + 1);
    assert i <= i0;
    if i == i0 {
      assert Block(q + [l], i + 1) == Block(q, i + 1) + Strip(l);
    } else {
      assert p[i0] == q[i0];
      assert Strip(q[i0]) != Strip(q[i]);
      assert !NoHeaderFrom(q, i + 1);
    }
  }

  /** The scan's state agrees with `Describes` after every prefix. */
  lemma {:induction false} ScanDescribes(lines: seq<string>)
    requires Scan(lines).Ok?
    ensures Describes(lines, Scan(lines).value)
  {
    if |lines| > 0 {
      var n := |lines| - 1;
      var q := lines[..n];
      var l := lines[n];
      assert lines == q + [l];
      ScanDescribes(q);
      var st := Scan(q).value;
      KeysStep(q, l, st);
      CurrentStep(q, l, st);
      OrderStep(q, l, st);
      if IsHeaderLine(l) {
        ContentStepHeader(q, l, st);
      } else {
        ContentStepSequence(q, l, st);
      }
    }
  }

  /**
   * When `load_msa_as_dict` fails: a sequence line comes before any header,
   * or some header ends up with an empty sequence (the block after the LAST
   * header line with that key is empty).
   */
  lemma LoadFails(lines: seq<string>)
    ensures Load(lines).Err? <==>
            (|lines| > 0 && !IsHeaderLine(lines[0]))
            || exists i :: LastHeader(lines, i) && Block(lines, i + 1) == ""
    ensures |lines| > 0 && !IsHeaderLine(lines[0]) ==> Load(lines) == Err(LineBeforeHeader)
  {
    ScanFails(lines);
    if Scan(lines).Ok? {
      var st := Scan(lines).value;
      ScanDescribes(lines);
      EmptyBlock(lines, st.seqs);
    }
  }

  /** Some key holds "" exactly when the block after some last header line is empty. */
  lemma EmptyBlock(lines: seq<string>, seqs: map<string, string>)
    requires KeysDescribed(lines, seqs) && ContentDescribed(lines, seqs)
    ensures (exists h :: h in seqs && seqs[h] == "") <==>
            exists i :: LastHeader(lines, i) && Block(lines, i + 1) == ""
  {
    if exists h :: h in seqs && seqs[h] == "" {
      var h :| h in seqs && seqs[h] == "";
      var i :| 0 <= i < |lines| && IsHeaderLine(lines[i]) && Strip(lines[i]) == h;
      var j := LastOf(lines, i);
      assert Block(lines, j + 1) == "";
    }
    if exists i :: LastHeader(lines, i) && Block(lines, i + 1) == "" {
      var i :| LastHeader(lines, i) && Block(lines, i + 1) == "";
      assert seqs[Strip(lines[i])] == "";
    }
  }

  /**
   * What a successful `load_msa_as_dict` returns: the keys are exactly the
   * stripped header lines, `>` included, and each key holds the stripped
   * lines after the LAST header line with that key, concatenated up to the
   * next header: a repeated header starts its sequence over. The keys are
   * listed in the order their first header lines appear, so a repeated
   * header keeps the place of its first occurrence.
   */
  lemma LoadMeaning(lines: seq<string>)
    ensures Load(lines).Ok? ==>
            var msa := Load(lines).value;
            && msa.Valid()
            && (forall h :: h in msa.seqs <==>
                  exists i :: 0 <= i < |lines| && IsHeaderLine(lines[i]) && Strip(lines[i]) == h)
            && (forall i :: LastHeader(lines, i) ==> msa.seqs[Strip(lines[i])] == Block(lines, i + 1))
            && (forall a, b :: 0 <= a < b < |msa.headers| ==> FirstBefore(lines, msa.headers[a], msa.headers[b]))
  {
    if Load(lines).Ok? {
      ScanDescribes(lines);
    }
  }

  /** The last header line with the same stripped text as header line `i`. */
  lemma {:induction false} LastOf(lines: seq<string>, i: nat) returns (j: nat)
    requires i < |lines| && IsHeaderLine(lines[i])
    ensures LastHeader(lines, j) && Strip(lines[j]) == Strip(lines[i])
    decreases |lines| - i
  {
    if exists m :: i < m < |lines| && IsHeaderLine(lines[m]) && Strip(lines[m]) == Strip(lines[i]) {
      var m :| i < m < |lines| && IsHeaderLine(lines[m]) && Strip(lines[m]) == Strip(lines[i]);
      j := LastOf(lines, m);
    } else {
      j := i;
    }
  }
}
