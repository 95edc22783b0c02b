/** Python `str` operations used by the scripts, on `string` = `seq<char>`. */
module Text {

  /** `s.split(sep)` for a one-character separator: the fields between separators. */
  function Split(s: string, sep: char): (fields: seq<string>)
    ensures |fields| >= 1
  {
    if s == [] then [""]
    else
      var rest := Split(s[1..], sep);
      if s[0] == sep then [""] + rest
      else [[s[0]] + rest[0]] + rest[1..]
  }

  /** `sep.join(fields)` */
  function Join(fields: seq<string>, sep: char): string
    requires |fields| >= 1
  {
    if |fields| == 1 then fields[0] else fields[0] + [sep] + Join(fields[1..], sep)
  }

  /** `s.split(sep)[-1]`: the text after the last separator. */
  function LastField(s: string, sep: char): string
  {
    var fields := Split(s, sep);
    fields[|fields| - 1]
  }

  /** Number of occurrences of `c` in `s`. */
  function Occurrences(s: string, c: char): nat
  {
    multiset(s)[c]
  }

  lemma {:induction false} SplitCount(s: string, sep: char)
    ensures |Split(s, sep)| == Occurrences(s, sep) + 1
  {
    if s != [] {
      SplitCount(s[1..], sep);
      assert s == [s[0]] + s[1..];
      assert multiset(s) == multiset([s[0]]) + multiset(s[1..]);
    }
  }

  lemma {:induction false} SplitFieldsHaveNoSep(s: string, sep: char)
    ensures forall f :: f in Split(s, sep) ==> sep !in f
  {
    if s != [] {
      SplitFieldsHaveNoSep(s[1..], sep);
      var rest := Split(s[1..], sep);
      if s[0] != sep {
        assert rest[0] in rest;
        assert forall f :: f in rest[1..] ==> f in rest;
      }
    }
  }

  /** Joining the fields back with the separator gives the original string. */
  lemma {:induction false} JoinSplit(s: string, sep: char)
    ensures Join(Split(s, sep), sep) == s
  {
    if s != [] {
      JoinSplit(s[1..], sep);
      var rest := Split(s[1..], sep);
      if s[0] == sep {
        assert ([""] + rest)[1..] == rest;
      } else {
        var fields := [[s[0]] + rest[0]] + rest[1..];
        if |rest| > 1 {
          assert fields[1..] == rest[1..];
          assert Join(rest, sep) == rest[0] + [sep] + Join(rest[1..], sep);
        }
      }
    }
  }

  /** Splitting a string with no separator in its head glues that head to the first field. */
  lemma {:induction false} SplitHead(a: string, t: string, sep: char)
    requires sep !in a
    ensures Split(a + t, sep) == [a + Split(t, sep)[0]] + Split(t, sep)[1..]
  {
    var st := Split(t, sep);
    if a == [] {
      assert a + t == t;
      assert a + st[0] == st[0];
      assert st == [st[0]] + st[1..];
    } else {
      SplitHead(a[1..], t, sep);
      assert (a + t)[0] == a[0] && (a + t)[1..] == a[1..] + t;
      var rest := Split(a[1..] + t, sep);
      assert rest[0] == a[1..] + st[0] && rest[1..] == st[1..];
      assert [a[0]] + (a[1..] + st[0]) == a + st[0];
    }
  }

  /** `split` inverts `join` when no field contains the separator. */
  lemma {:induction false} SplitJoin(fields: seq<string>, sep: char)
    requires |fields| >= 1
    requires forall f :: f in fields ==> sep !in f
    ensures Split(Join(fields, sep), sep) == fields
  {
    if |fields| == 1 {
      SplitHead(fields[0], [], sep);
      assert Split([], sep) == [""];
      assert fields[0] + [] == fields[0];
    } else {
      assert forall f :: f in fields[1..] ==> f in fields;
      SplitJoin(fields[1..], sep);
      var tail := [sep] + Join(fields[1..], sep);
      assert fields[0] + [sep] + Join(fields[1..], sep) == fields[0] + tail;
      SplitHead(fields[0], tail, sep);
      assert tail[1..] == Join(fields[1..], sep);
      assert Split(tail, sep) == [""] + fields[1..];
      assert fields[0] + Split(tail, sep)[0] == fields[0];
      assert [fields[0]] + fields[1..] == fields;
    }
  }

  /** The first field is the longest prefix without a separator. */
  lemma {:induction false} FirstFieldIsPrefix(s: string, sep: char)
    ensures var f := Split(s, sep)[0];
      |f| <= |s| && f == s[..|f|] && sep !in f && (|f| == |s| || s[|f|] == sep)
  {
    if s != [] {
      FirstFieldIsPrefix(s[1..], sep);
    }
  }

  /** A string without the separator is a single field. */
  lemma SplitWithoutSep(s: string, sep: char)
    requires sep !in s
    ensures Split(s, sep) == [s]
  {
    SplitHead(s, [], sep);
    assert s + [] == s;
  }

  /** A string holding the separator splits into at least two fields. */
  lemma {:induction false} SplitWithSep(s: string, sep: char)
    requires sep in s
    ensures |Split(s, sep)| >= 2
  {
    if s[0] != sep {
      assert s == [s[0]] + s[1..];
      SplitWithSep(s[1..], sep);
    }
  }

  lemma {:induction false} LastFieldIsSuffix(s: string, sep: char)
    ensures var f := LastField(s, sep);
      |f| <= |s| && f == s[|s| - |f|..] && sep !in f && (|f| == |s| || s[|s| - |f| - 1] == sep)
  {
    if sep !in s {
      SplitWithoutSep(s, sep);
    } else {
      LastFieldIsSuffix(s[1..], sep);
      var g := LastField(s[1..], sep);
      assert LastField(s, sep) == g by {
        if s[0] != sep {
          assert s == [s[0]] + s[1..];
          SplitWithSep(s[1..], sep);
        }
      }
      assert s[1..][|s| - 1 - |g|..] == s[|s| - |g|..];
    }
  }

  /** The text after a separator that is not followed by another is the last field. */
  lemma LastFieldAfterSep(a: string, sep: char, b: string)
    requires sep !in b
    ensures LastField(a + [sep] + b, sep) == b
  {
    var s := a + [sep] + b;
    LastFieldIsSuffix(s, sep);
    assert s[|s| - |b| - 1] == sep;
    assert s[|s| - |b|..] == b;
  }

  /** `s.replace(pat, rep)`: every non-overlapping occurrence, scanning from the left. */
  function ReplaceAll(s: string, pat: string, rep: string): (r: string)
    requires pat != []
    ensures NoOccurrence(s, pat) ==> r == s
    decreases |s|
  {
    if |s| < |pat| then s
    else if s[..|pat|] == pat then
      assert OccursAt(s, pat, 0);
      rep + ReplaceAll(s[|pat|..], pat, rep)
    else
      assert NoOccurrence(s, pat) ==> NoOccurrence(s[1..], pat) by {
        if NoOccurrence(s, pat) {
          OccursInTail(s, pat);
        }
      }
      [s[0]] + ReplaceAll(s[1..], pat, rep)
  }

  /** `pat` starts at position `j` of `s`. */
  predicate OccursAt(s: string, pat: string, j: int)
  {
    0 <= j && j + |pat| <= |s| && s[j..j + |pat|] == pat
  }

  /** `pat` occurs nowhere in `s`. */
  ghost predicate NoOccurrence(s: string, pat: string)
  {
    forall j :: !OccursAt(s, pat, j)
  }

  /** An occurrence in the tail is one in the whole, one position further. */
  lemma OccursInTail(s: string, pat: string)
    requires s != []
    ensures forall j :: OccursAt(s[1..], pat, j) ==> OccursAt(s, pat, j + 1)
  {
    forall j | OccursAt(s[1..], pat, j) ensures OccursAt(s, pat, j + 1) {
      assert s[1..][j..j + |pat|] == s[j + 1..j + 1 + |pat|];
    }
  }

  /** A head that does not contain the first character of the pattern is copied unchanged. */
  lemma {:induction false} ReplaceSkipsHead(a: string, t: string, pat: string, rep: string)
    requires pat != [] && pat[0] !in a
    ensures ReplaceAll(a + t, pat, rep) == a + ReplaceAll(t, pat, rep)
  {
    if a == [] {
      assert a + t == t;
    } else {
      var s := a + t;
      if |s| < |pat| {
        assert ReplaceAll(t, pat, rep) == t;
      } else {
        assert ReplaceAll(s, pat, rep) == [a[0]] + ReplaceAll(s[1..], pat, rep) by {
          assert s[0..0 + |pat|][0] == a[0];
          assert !OccursAt(s, pat, 0);
        }
        assert ReplaceAll(s[1..], pat, rep) == a[1..] + ReplaceAll(t, pat, rep) by {
          assert s[1..] == a[1..] + t;
          assert pat[0] !in a[1..] by {
            assert forall c :: c in a[1..] ==> c in a;
          }
          ReplaceSkipsHead(a[1..], t, pat, rep);
        }
        ConsConcat(a, ReplaceAll(t, pat, rep));
      }
    }
  }

  lemma ConsConcat(a: string, r: string)
    requires a != []
    ensures [a[0]] + (a[1..] + r) == a + r
  {
    assert a == [a[0]] + a[1..];
  }

  /** An occurrence at the very start is replaced. */
  lemma ReplaceAtHead(t: string, pat: string, rep: string)
    requires pat != []
    ensures ReplaceAll(pat + t, pat, rep) == rep + ReplaceAll(t, pat, rep)
  {
    assert (pat + t)[..|pat|] == pat;
    assert (pat + t)[|pat|..] == t;
  }

  /** When no occurrence of `pat` starts before `n`, the first `n` characters are
      copied unchanged and the scan goes on from `n`. */
  lemma {:induction false} ReplaceNoMatchBefore(s: string, pat: string, rep: string, n: nat)
    requires pat != [] && n <= |s|
    requires forall j :: 0 <= j < n ==> !OccursAt(s, pat, j)
    ensures ReplaceAll(s, pat, rep) == s[..n] + ReplaceAll(s[n..], pat, rep)
  {
    if n == 0 {
      assert s[..0] == [] && s[0..] == s;
    } else if |s| < |pat| {
      assert ReplaceAll(s[n..], pat, rep) == s[n..];
      assert s[..n] + s[n..] == s;
    } else {
      var t := s[1..];
      assert ReplaceAll(s, pat, rep) == [s[0]] + ReplaceAll(t, pat, rep) by {
        assert !OccursAt(s, pat, 0);
      }
      assert ReplaceAll(t, pat, rep) == t[..n - 1] + ReplaceAll(s[n..], pat, rep) by {
        OccursInTail(s, pat);
        ReplaceNoMatchBefore(t, pat, rep, n - 1);
        assert t[n - 1..] == s[n..];
      }
      ConsSlice(s, n, ReplaceAll(s[n..], pat, rep));
    }
  }

  lemma ConsSlice(s: string, n: nat, r: string)
    requires 0 < n <= |s|
    ensures [s[0]] + (s[1..][..n - 1] + r) == s[..n] + r
  {
    assert [s[0]] + s[1..][..n - 1] == s[..n];
  }

  /** Replacing by the empty string only deletes characters. */
  lemma {:induction false} ReplaceDeletes(s: string, pat: string)
    requires pat != []
    ensures multiset(ReplaceAll(s, pat, [])) <= multiset(s)
    decreases |s|
  {
    if |s| >= |pat| {
      if s[..|pat|] == pat {
        ReplaceDeletes(s[|pat|..], pat);
        assert s == s[..|pat|] + s[|pat|..];
        assert [] + ReplaceAll(s[|pat|..], pat, []) == ReplaceAll(s[|pat|..], pat, []);
      } else {
        ReplaceDeletes(s[1..], pat);
        assert s == [s[0]] + s[1..];
      }
    }
  }

  /** Python's `str.isspace()` characters, the ones `str.strip()` removes. */
  predicate IsSpace(c: char)
  {
    || c == ' '
    || ('\t' <= c <= '\r')
    || ('\U{1c}' <= c <= '\U{1f}')
    || c == '\U{85}' || c == '\U{a0}' || c == '\U{1680}'
    || ('\U{2000}' <= c <= '\U{200a}')
    || c == '\U{2028}' || c == '\U{2029}' || c == '\U{202f}' || c == '\U{205f}' || c == '\U{3000}'
  }

  function StripLeft(s: string): string
  {
    if s != [] && IsSpace(s[0]) then StripLeft(s[1..]) else s
  }

  function StripRight(s: string): string
  {
    if s != [] && IsSpace(s[|s| - 1]) then StripRight(s[..|s| - 1]) else s
  }

  /** `s.strip()`: `s` with the leading and trailing whitespace runs cut off,
      `s == lead + r + trail`, where `r` neither starts nor ends with whitespace. */
  function Strip(s: string): (r: string)
    ensures exists lead, trail :: AllSpace(lead) && AllSpace(trail) && s == lead + r + trail
    ensures r == [] || (!IsSpace(r[0]) && !IsSpace(r[|r| - 1]))
  {
    var l := StripLeft(s);
    var r := StripRight(l);
    StripPieces(s, l, r);
    var lead, trail := s[..|s| - |l|], l[|r|..];
    assert AllSpace(lead) && AllSpace(trail) && s == lead + r + trail;
    r
  }

  /** The pieces of `s` around its stripped text `r`, where `l` is `s` with its
      leading whitespace cut off. */
  lemma StripPieces(s: string, l: string, r: string)
    requires l == StripLeft(s) && r == StripRight(l)
    ensures |l| <= |s| && |r| <= |l|
    ensures AllSpace(s[..|s| - |l|]) && AllSpace(l[|r|..])
    ensures s == s[..|s| - |l|] + r + l[|r|..]
    ensures r == [] || (!IsSpace(r[0]) && !IsSpace(r[|r| - 1]))
  {
    StripLeftSpec(s);
    StripRightSpec(l);
    SuffixThenPrefix(s, l, r);
  }

  /** Cutting a suffix `l` off the front of `s`, then a prefix `r` off `l`, leaves
      three pieces that make up `s` again. */
  lemma SuffixThenPrefix<T>(s: seq<T>, l: seq<T>, r: seq<T>)
    requires |l| <= |s| && l == s[|s| - |l|..]
    requires |r| <= |l| && r == l[..|r|]
    ensures s == s[..|s| - |l|] + r + l[|r|..]
    ensures r == [] || r[0] == l[0]
  {
    assert s == s[..|s| - |l|] + l;
    assert l == r + l[|r|..];
  }

  predicate AllSpace(s: string)
  {
    forall i :: 0 <= i < |s| ==> IsSpace(s[i])
  }

  lemma {:induction false} StripLeftSpec(s: string)
    ensures var r := StripLeft(s);
      |r| <= |s| && r == s[|s| - |r|..] && AllSpace(s[..|s| - |r|]) && (r == [] || !IsSpace(r[0]))
  {
    if s != [] && IsSpace(s[0]) {
      StripLeftSpec(s[1..]);
      var r := StripLeft(s);
      assert s[..|s| - |r|] == [s[0]] + s[1..][..|s| - 1 - |r|];
    }
  }

  lemma {:induction false} StripRightSpec(s: string)
    ensures var r := StripRight(s);
      |r| <= |s| && r == s[..|r|] && AllSpace(s[|r|..]) && (r == [] || !IsSpace(r[|r| - 1]))
  {
    if s != [] && IsSpace(s[|s| - 1]) {
      var init := s[..|s| - 1];
      StripRightSpec(init);
      var r := StripRight(s);
      assert s[|r|..] == init[|r|..] + [s[|s| - 1]];
    }
  }

  /** `s.strip()` is empty exactly when `s` is all whitespace. */
  lemma StripEmptyIffAllSpace(s: string)
    ensures Strip(s) == [] <==> AllSpace(s)
  {
    StripLeftSpec(s);
    var l := StripLeft(s);
    StripRightSpec(l);
    assert l[0..] == l;
    assert l != [] ==> l[0] == s[|s| - |l|];
    assert s[..|s| - |l|] + l == s;
  }

  /** Python's `<=` on `str`: code-point lexicographic order, a prefix first. */
  predicate LexLe(a: string, b: string)
  {
    a == [] || (b != [] && (a[0] < b[0] || (a[0] == b[0] && LexLe(a[1..], b[1..]))))
  }

  lemma {:induction false} LexLeTotal(a: string, b: string)
    ensures LexLe(a, b) || LexLe(b, a)
  {
    if a != [] && b != [] && a[0] == b[0] {
      LexLeTotal(a[1..], b[1..]);
    }
  }

  lemma {:induction false} LexLeTransitive(a: string, b: string, c: string)
    requires LexLe(a, b) && LexLe(b, c)
    ensures LexLe(a, c)
  {
    if a != [] && a[0] == b[0] && b[0] == c[0] {
      LexLeTransitive(a[1..], b[1..], c[1..]);
    }
  }

  lemma {:induction false} LexLeAntisymmetric(a: string, b: string)
    requires LexLe(a, b) && LexLe(b, a)
    ensures a == b
  {
    if a != [] {
      LexLeAntisymmetric(a[1..], b[1..]);
      assert a == [a[0]] + a[1..] && b == [b[0]] + b[1..];
    }
  }
}
