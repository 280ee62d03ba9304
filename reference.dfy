// Choosing the reference entry of an alignment (`MSAtoVCF.set_reference`)
// and reading the fields its headers carry: `>sample | contig:start-end`.

module Reference {
  import opened Outcomes
  import opened Text
  import opened Alignment

  /** What `set_reference` stores about the reference entry. */
  datatype ReferenceInfo = ReferenceInfo(
    name: string, header: string, sequence: string, contig: string, start: string, end: string)

  /** The headers that contain `name`, in dictionary order. */
  function Matching(headers: seq<string>, name: string): (m: seq<string>)
    ensures forall h :: h in m <==> h in headers && Contains(h, name)
  {
    if |headers| == 0 then []
    else
      var last := headers[|headers| - 1];
      var init := Matching(headers[..|headers| - 1], name);
      assert forall h :: h in headers <==> h in headers[..|headers| - 1] || h == last;
      init + (if Contains(last, name) then [last] else [])
  }

  /** The keys of the alignment whose header contains `name`. */
  function MatchingKeys(msa: Msa, name: string): set<string>
  {
    set h | h in msa.seqs.Keys && Contains(h, name)
  }

  /**
   * The reference header: the one header containing `name` as a substring.
   * Any other number of matches is an error that reports that number.
   */
  function SelectReference(msa: Msa, name: string): (r: Result<string>)
    ensures r.Ok? ==> r.value in msa.headers && Contains(r.value, name)
    ensures r.Err? ==> r.error.ReferenceCount? && r.error.found != 1
  {
    var m := Matching(msa.headers, name);
    if |m| != 1 then Err(ReferenceCount(|m|)) else Ok(m[0])
  }

  /**
   * The `contig:start-end` text after the last `|` of a header, stripped,
   * split once on `:` and once on `-`; any other shape is an error.
   */
  function ParseRegion(header: string): Result<(string, string, string)>
  {
    ParseRegionText(RegionOf(header))
  }

  /** The stripped text after the last `|` of a header. */
  function RegionOf(header: string): string
  {
    var fields := Split(header, '|');
    Strip(fields[|fields| - 1])
  }

  function ParseRegionText(region: string): (r: Result<(string, string, string)>)
    ensures r.Ok? ==> ':' !in r.value.0 && '-' !in r.value.1 && '-' !in r.value.2
    ensures r.Err? ==> r.error == MalformedRegion(region) || r.error.MalformedInterval?
  {
    var parts := Split(region, ':');
    if |parts| != 2 then Err(MalformedRegion(region))
    else
      var interval := Split(parts[1], '-');
      if |interval| != 2 then Err(MalformedInterval(parts[1]))
      else Ok((parts[0], interval[0], interval[1]))
  }

  /** `set_reference(name)` on a loaded alignment. */
  function SetReference(msa: Msa, name: string): (r: Result<ReferenceInfo>)
    requires msa.Valid()
    ensures r.Ok? ==> r.value.name == name && r.value.header in msa.headers && Contains(r.value.header, name)
    ensures r.Ok? ==> r.value.sequence == msa.seqs[r.value.header]
  {
    match SelectReference(msa, name)
    case Err(e) => Err(e)
    case Ok(header) =>
      assert header in msa.headers;
      match ParseRegion(header)
      case Err(e) => Err(e)
      case Ok((contig, start, end)) =>
        Ok(ReferenceInfo(name, header, msa.seqs[header], contig, start, end))
  }

  /** The sample name of a header: the text between the leading `>` and the first `|`, stripped. */
  function SampleName(header: string): (name: string)
    ensures Trimmed(name) && '|' !in name
  {
    var first := Split(header, '|')[0];
    var tag := if |first| > 0 then first[1..] else first;
    assert '|' !in tag;
    StripWithin(tag);
    Strip(tag)
  }

  // ---------------------------------------------------------------------

  predicate Distinct(s: seq<string>)
  {
    forall i, j :: 0 <= i < j < |s| ==> s[i] != s[j]
  }

  lemma {:induction false} DistinctCard(s: seq<string>)
    requires Distinct(s)
    ensures |set x | x in s| == |s|
  {
    if |s| > 0 {
      var init := s[..|s| - 1];
      DistinctCard(init);
      assert (set x | x in s) == (set x | x in init) + {s[|s| - 1]};
      assert s[|s| - 1] !in init;
    } else {
      assert (set x | x in s) == {};
    }
  }

  lemma {:induction false} MatchingDistinct(headers: seq<string>, name: string)
    requires Distinct(headers)
    ensures Distinct(Matching(headers, name))
  {
    if |headers| > 0 {
      MatchingDistinct(headers[..|headers| - 1], name);
      assert headers[|headers| - 1] !in headers[..|headers| - 1];
    }
  }

  /**
   * Selection succeeds exactly when one key of the alignment contains the
   * name; it then returns that key, and otherwise reports how many matched.
   */
  lemma SelectReferenceSpec(msa: Msa, name: string)
    requires msa.Valid()
    ensures SelectReference(msa, name).Ok? <==> |MatchingKeys(msa, name)| == 1
    ensures SelectReference(msa, name).Ok? ==>
              MatchingKeys(msa, name) == {SelectReference(msa, name).value}
    ensures SelectReference(msa, name).Err? ==>
              SelectReference(msa, name).error == ReferenceCount(|MatchingKeys(msa, name)|)
  {
    var m := Matching(msa.headers, name);
    MatchingDistinct(msa.headers, name);
    DistinctCard(m);
    assert (set x | x in m) == MatchingKeys(msa, name);
    if |m| == 1 {
      assert (set x | x in m) == {m[0]};
    }
  }

  /**
   * `set_reference` succeeds exactly when one key holds the name and its
   * region parses; it then records that entry, its sequence and its region
   * fields, and otherwise raises the first error met.
   */
  lemma SetReferenceSpec(msa: Msa, name: string)
    requires msa.Valid()
    ensures SetReference(msa, name).Ok? <==>
              SelectReference(msa, name).Ok? && ParseRegion(SelectReference(msa, name).value).Ok?
    ensures SetReference(msa, name).Ok? ==>
              var info := SetReference(msa, name).value;
              && info.name == name
              && MatchingKeys(msa, name) == {info.header}
              && info.header in msa.seqs && info.sequence == msa.seqs[info.header]
              && ParseRegion(info.header) == Ok((info.contig, info.start, info.end))
    ensures |MatchingKeys(msa, name)| != 1 ==>
              SetReference(msa, name) == Err(ReferenceCount(|MatchingKeys(msa, name)|))
    ensures SelectReference(msa, name).Ok? && ParseRegion(SelectReference(msa, name).value).Err? ==>
              SetReference(msa, name) == Err(ParseRegion(SelectReference(msa, name).value).error)
  {
    SelectReferenceSpec(msa, name);
  }

  lemma RegionOfPadded(pre: string, a: string, region: string, b: string)
    requires AllSpace(a) && AllSpace(b) && Trimmed(region)
    requires '|' !in a && '|' !in region && '|' !in b
    ensures RegionOf(pre + "|" + a + region + b) == region
  {
    var tail := a + region + b;
    assert '|' !in tail;
    assert pre + "|" + a + region + b == pre + ['|'] + tail;
    SplitLast(pre, tail, '|');
    StripPadded(a, region, b);
  }

  lemma ParseRegionTextOf(contig: string, start: string, end: string)
    requires ':' !in contig && ':' !in start && ':' !in end
    requires '-' !in start && '-' !in end
    ensures ParseRegionText(contig + ":" + start + "-" + end) == Ok((contig, start, end))
  {
    var interval := start + ['-'] + end;
    assert ':' !in interval;
    assert contig + ":" + start + "-" + end == contig + [':'] + interval;
    SplitFirst(contig, interval, ':');
    assert Split(interval, ':') == [interval];
    SplitFirst(start, end, '-');
    assert Split(end, '-') == [end];
    assert Split(contig + [':'] + interval, ':') == [contig, interval];
    assert Split(interval, '-') == [start, end];
  }

  /**
   * A header `pre | contig:start-end`, the interval padded by whitespace,
   * parses into its three fields.
   */
  lemma ParseRegionOf(pre: string, a: string, contig: string, start: string, end: string, b: string)
    requires AllSpace(a) && AllSpace(b)
    requires '|' !in a && '|' !in contig && '|' !in start && '|' !in end && '|' !in b
    requires ':' !in contig && ':' !in start && ':' !in end
    requires '-' !in start && '-' !in end
    requires Trimmed(contig + ":" + start + "-" + end)
    ensures ParseRegion(pre + "|" + a + contig + ":" + start + "-" + end + b) == Ok((contig, start, end))
  {
    var region := contig + ":" + start + "-" + end;
    assert '|' !in region;
    assert pre + "|" + a + contig + ":" + start + "-" + end + b == pre + "|" + a + region + b;
    RegionOfPadded(pre, a, region, b);
    ParseRegionTextOf(contig, start, end);
  }

  /** Conversely, the fields a parse returns spell the region it was given. */
  lemma ParseRegionTextFields(region: string)
    requires ParseRegionText(region).Ok?
    ensures var (contig, start, end) := ParseRegionText(region).value;
            && region == contig + ":" + start + "-" + end
            && ':' !in contig && ':' !in start && ':' !in end && '-' !in start && '-' !in end
  {
    var parts := Split(region, ':');
    var interval := Split(parts[1], '-');
    JoinSplit(region, ':');
    JoinSplit(parts[1], '-');
    JoinPair(parts, ':');
    JoinPair(interval, '-');
    PiecesFree(parts[1], interval[0], interval[1], ':');
  }

  /** A character absent from `whole` is absent from both sides of a split of it. */
  lemma PiecesFree(whole: string, left: string, right: string, c: char)
    requires whole == left + ['-'] + right && c !in whole
    ensures c !in left && c !in right
  {
    assert forall k :: 0 <= k < |left| ==> left[k] == whole[k];
    assert forall k :: 0 <= k < |right| ==> right[k] == whole[|left| + 1 + k];
  }

  /** Joining two parts puts one separator between them. */
  lemma JoinPair(parts: seq<string>, c: char)
    requires |parts| == 2
    ensures Join(parts, c) == parts[0] + [c] + parts[1]
  {
  }

  /** A header `>name | rest` names the sample `name`, stripped. */
  lemma SampleNameOf(name: string, rest: string)
    requires '|' !in name
    ensures SampleName(">" + name + "|" + rest) == Strip(name)
  {
    SplitFirst(">" + name, rest, '|');
    assert ">" + name + "|" + rest == (">" + name) + ['|'] + rest;
    assert '|' !in ">" + name;
    assert (">" + name)[1..] == name;
  }
}
