// The handful of Python string operations the converter relies on:
// `str.strip()`, `str.split(sep)` with a one-character separator,
// the substring test `p in s`, and the line splitting done by `readline()`.

module Text {

  /** Python's `str.isspace()` for one character. */
  predicate IsSpace(c: char)
  {
    var n := c as int;
    (9 <= n <= 13) || (28 <= n <= 32) || n == 0x85 || n == 0xA0 || n == 0x1680
    || (0x2000 <= n <= 0x200A) || n == 0x2028 || n == 0x2029 || n == 0x202F
    || n == 0x205F || n == 0x3000
  }

  /** True when `s` neither starts nor ends with whitespace. */
  predicate Trimmed(s: string)
  {
    |s| > 0 ==> !IsSpace(s[0]) && !IsSpace(s[|s| - 1])
  }

  predicate AllSpace(s: string)
  {
    forall i :: 0 <= i < |s| ==> IsSpace(s[i])
  }

  /** Python's `s.lstrip()`. */
  function StripLeft(s: string): string
  {
    if |s| > 0 && IsSpace(s[0]) then StripLeft(s[1..]) else s
  }

  /** Python's `s.rstrip()`. */
  function StripRight(s: string): string
  {
    if |s| > 0 && IsSpace(s[|s| - 1]) then StripRight(s[..|s| - 1]) else s
  }

  /** Python's `s.strip()`: whitespace removed from both ends. */
  function Strip(s: string): string
  {
    StripRight(StripLeft(s))
  }

  lemma {:induction false} StripLeftPadded(a: string, t: string)
    requires AllSpace(a) && (|t| > 0 ==> !IsSpace(t[0]))
    ensures StripLeft(a + t) == t
    decreases |a|
  {
    if |a| > 0 {
      assert (a + t)[1..] == a[1..] + t;
      StripLeftPadded(a[1..], t);
    } else {
      assert a + t == t;
    }
  }

  lemma {:induction false} StripRightPadded(t: string, b: string)
    requires AllSpace(b) && (|t| > 0 ==> !IsSpace(t[|t| - 1]))
    ensures StripRight(t + b) == t
    decreases |b|
  {
    if |b| > 0 {
      assert (t + b)[..|t + b| - 1] == t + b[..|b| - 1];
      StripRightPadded(t, b[..|b| - 1]);
    } else {
      assert t + b == t;
    }
  }

  /** Stripping removes exactly the whitespace padding around a trimmed text. */
  lemma StripPadded(a: string, t: string, b: string)
    requires AllSpace(a) && AllSpace(b) && Trimmed(t)
    ensures Strip(a + t + b) == t
  {
    if t == [] {
      assert a + t + b == (a + b) + [];
      assert AllSpace(a + b) by {
        forall i | 0 <= i < |a + b| ensures IsSpace((a + b)[i]) {
          if i < |a| { assert (a + b)[i] == a[i]; } else { assert (a + b)[i] == b[i - |a|]; }
        }
      }
      StripLeftPadded(a + b, []);
    } else {
      assert a + t + b == a + (t + b);
      StripLeftPadded(a, t + b);
      StripRightPadded(t, b);
    }
  }

  /**
   * Every string is its stripped text with whitespace on either side, and the
   * stripped text is trimmed: with StripPadded, this pins `Strip` down.
   */
  lemma {:induction false} StripDecompose(s: string) returns (a: string, b: string)
    ensures s == a + Strip(s) + b && AllSpace(a) && AllSpace(b) && Trimmed(Strip(s))
  {
    var t;
    a, t := LeftDecompose(s);
    var r;
    r, b := RightDecompose(t);
    assert Strip(s) == r;
    if |r| > 0 {
      assert r[0] == t[0];
    }
  }

  lemma {:induction false} LeftDecompose(s: string) returns (a: string, t: string)
    ensures t == StripLeft(s) && s == a + t && AllSpace(a) && (|t| > 0 ==> !IsSpace(t[0]))
    decreases |s|
  {
    if |s| > 0 && IsSpace(s[0]) {
      var a';
      a', t := LeftDecompose(s[1..]);
      a := [s[0]] + a';
    } else {
      a, t := [], s;
    }
  }

  lemma {:induction false} RightDecompose(s: string) returns (t: string, b: string)
    ensures t == StripRight(s) && s == t + b && AllSpace(b) && (|t| > 0 ==> !IsSpace(t[|t| - 1]))
    decreases |s|
  {
    if |s| > 0 && IsSpace(s[|s| - 1]) {
      var b';
      t, b' := RightDecompose(s[..|s| - 1]);
      b := b' + [s[|s| - 1]];
    } else {
      t, b := s, [];
    }
  }

  /** Stripping only removes characters: what is left was already in `s`. */
  lemma StripWithin(s: string)
    ensures Trimmed(Strip(s)) && forall c :: c in Strip(s) ==> c in s
  {
    var a, b := StripDecompose(s);
    forall c | c in Strip(s) ensures c in s {
      var k :| 0 <= k < |Strip(s)| && Strip(s)[k] == c;
      assert s[|a| + k] == c;
    }
  }

  /** Stripping twice is stripping once. */
  lemma StripIdempotent(s: string)
    ensures Strip(Strip(s)) == Strip(s)
  {
    var a, b := StripDecompose(s);
    StripPadded([], Strip(s), []);
    assert [] + Strip(s) + [] == Strip(s);
  }

  /** Index of the first occurrence of `c` in `s`. */
  function IndexOf(s: string, c: char): (i: nat)
    requires c in s
    ensures i < |s| && s[i] == c && c !in s[..i]
  {
    if s[0] == c then 0
    else
      var j := IndexOf(s[1..], c);
      assert s[..j + 1] == [s[0]] + s[1..][..j];
      j + 1
  }

  /** Python's `s.split(c)` for a one-character separator `c`. */
  function Split(s: string, c: char): (parts: seq<string>)
    ensures |parts| >= 1
    ensures forall i :: 0 <= i < |parts| ==> c !in parts[i]
    decreases |s|
  {
    if c !in s then [s]
    else
      var i := IndexOf(s, c);
      [s[..i]] + Split(s[i + 1..], c)
  }

  /** Python's `c.join(parts)`. */
  function Join(parts: seq<string>, c: char): string
  {
    if |parts| == 0 then ""
    else if |parts| == 1 then parts[0]
    else parts[0] + [c] + Join(parts[1..], c)
  }

  /** Joining the pieces of a split gives back the text. */
  lemma {:induction false} JoinSplit(s: string, c: char)
    ensures Join(Split(s, c), c) == s
    decreases |s|
  {
    if c in s {
      var i := IndexOf(s, c);
      var rest := Split(s[i + 1..], c);
      JoinSplit(s[i + 1..], c);
      assert Split(s, c) == [s[..i]] + rest;
      assert ([s[..i]] + rest)[1..] == rest;
      assert s == s[..i] + [c] + s[i + 1..];
    }
  }

  /** Splitting a join of separator-free pieces gives back the pieces. */
  lemma {:induction false} SplitJoin(parts: seq<string>, c: char)
    requires |parts| >= 1
    requires forall i :: 0 <= i < |parts| ==> c !in parts[i]
    ensures Split(Join(parts, c), c) == parts
    decreases |parts|
  {
    if |parts| > 1 {
      var s := Join(parts, c);
      var p := parts[0];
      SplitJoin(parts[1..], c);
      assert s == p + [c] + Join(parts[1..], c);
      assert s[|p|] == c;
      assert s[..|p|] == p;
      var i := IndexOf(s, c);
      assert i <= |p| by {
        assert s[..|p| + 1][|p|] == c;
      }
      assert i >= |p| by {
        assert forall j :: 0 <= j < |p| ==> s[j] == p[j];
      }
      assert s[i + 1..] == Join(parts[1..], c);
    }
  }

  /** Splitting at the first separator peels off the text before it. */
  lemma SplitFirst(head: string, rest: string, c: char)
    requires c !in head
    ensures Split(head + [c] + rest, c) == [head] + Split(rest, c)
  {
    var s := head + [c] + rest;
    var i := IndexOf(s, c);
    assert s[|head|] == c;
    assert i <= |head| by {
      assert s[..|head| + 1][|head|] == c;
    }
    assert i >= |head| by {
      assert forall j :: 0 <= j < |head| ==> s[j] == head[j];
    }
    assert s[..i] == head;
    assert s[i + 1..] == rest;
  }

  lemma {:induction false} JoinAppend(parts: seq<string>, t: string, c: char)
    requires |parts| >= 1
    ensures Join(parts + [t], c) == Join(parts, c) + [c] + t
    decreases |parts|
  {
    if |parts| > 1 {
      assert (parts + [t])[1..] == parts[1..] + [t];
      JoinAppend(parts[1..], t, c);
    } else {
      assert Join([t], c) == t;
    }
  }

  /** Splitting at the last separator leaves the text after it as the last piece. */
  lemma SplitLast(init: string, last: string, c: char)
    requires c !in last
    ensures Split(init + [c] + last, c) == Split(init, c) + [last]
  {
    var parts := Split(init, c) + [last];
    JoinSplit(init, c);
    JoinAppend(Split(init, c), last, c);
    SplitJoin(parts, c);
  }

  /** Python's substring test `p in s`. */
  predicate Contains(s: string, p: string)
    decreases |s|
  {
    p <= s || (|s| > 0 && Contains(s[1..], p))
  }

  /** `p in s` holds exactly when `p` occurs at some offset of `s`. */
  lemma {:induction false} ContainsAt(s: string, p: string)
    ensures Contains(s, p) <==> exists i :: 0 <= i <= |s| - |p| && p <= s[i..]
    decreases |s|
  {
    if |s| > 0 {
      ContainsAt(s[1..], p);
      if p <= s {
        assert p <= s[0..];
      }
      if Contains(s[1..], p) {
        var i :| 0 <= i <= |s| - 1 - |p| && p <= s[1..][i..];
        assert s[1..][i..] == s[i + 1..];
        assert 0 <= i + 1 <= |s| - |p| && p <= s[i + 1..];
      }
      if exists i :: 0 <= i <= |s| - |p| && p <= s[i..] {
        var i :| 0 <= i <= |s| - |p| && p <= s[i..];
        if i > 0 {
          assert s[1..][i - 1..] == s[i..];
          assert 0 <= i - 1 <= |s[1..]| - |p| && p <= s[1..][i - 1..];
        } else {
          assert s[i..] == s;
        }
      }
    } else {
      if p <= s {
        assert p <= s[0..];
      }
    }
  }

  /**
   * The lines that successive `readline()` calls return on a file holding
   * `text`: each ends just after a newline, except possibly the last.
   */
  function SplitLines(text: string): (lines: seq<string>)
    ensures forall i :: 0 <= i < |lines| ==> |lines[i]| > 0
    ensures forall i :: 0 <= i < |lines| ==> '\n' !in lines[i][..|lines[i]| - 1]
    ensures forall i :: 0 <= i < |lines| - 1 ==> lines[i][|lines[i]| - 1] == '\n'
    decreases |text|
  {
    if text == "" then []
    else if '\n' !in text then [text]
    else
      var i := IndexOf(text, '\n');
      assert text[..i + 1][..i] == text[..i];
      [text[..i + 1]] + SplitLines(text[i + 1..])
  }

  function Concat(lines: seq<string>): string
  {
    if |lines| == 0 then "" else lines[0] + Concat(lines[1..])
  }

  /** Reading line by line loses nothing: the lines concatenate back to the text. */
  lemma {:induction false} ConcatSplitLines(text: string)
    ensures Concat(SplitLines(text)) == text
    decreases |text|
  {
    if text != "" && '\n' in text {
      var i := IndexOf(text, '\n');
      ConcatSplitLines(text[i + 1..]);
      assert ([text[..i + 1]] + SplitLines(text[i + 1..]))[1..] == SplitLines(text[i + 1..]);
      assert text == text[..i + 1] + text[i + 1..];
    } else if text != "" {
      assert [text][1..] == [];
    }
  }
}
