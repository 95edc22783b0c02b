/** The label a summary row takes from a file name: the text captured by
    `re.search(pre + "(.*?).deduplicated", basename)`, or else the basename
    without its extension (`os.path.splitext(basename)[0]`). */
module FileLabel {
  import opened Text
  import opened Outcomes

  const Marker := "deduplicated"

  /** `os.path.basename`: the text after the last `/`. */
  function Basename(path: string): (b: string)
    ensures '/' !in b
    ensures |b| <= |path| && b == path[|path| - |b|..]
    ensures |b| == |path| || path[|path| - |b| - 1] == '/'
  {
    LastFieldIsSuffix(path, '/');
    LastField(path, '/')
  }

  /** The basename of `dir/name` is `name`, for a name without `/`. */
  lemma BasenameOf(dir: string, name: string)
    requires '/' !in name
    ensures Basename(dir + "/" + name) == name
  {
    LastFieldAfterSep(dir, '/', name);
  }

  /** The pattern matches at `i` with a group of `k` characters: `pre`, then `k`
      characters, then one more character (the unescaped `.`), then `deduplicated`;
      neither the group nor that `.` matches a newline. */
  predicate MatchAt(s: string, pre: string, i: nat, k: nat)
  {
    && i + |pre| + k + 1 + |Marker| <= |s|
    && s[i..i + |pre|] == pre
    && NewlineFree(s, i + |pre|, i + |pre| + k + 1)
    && s[i + |pre| + k + 1..i + |pre| + k + 1 + |Marker|] == Marker
  }

  /** No newline at positions `lo` to `hi - 1`. */
  predicate NewlineFree(s: string, lo: nat, hi: nat)
    requires hi <= |s|
  {
    forall j :: lo <= j < hi ==> s[j] != '\n'
  }

  lemma NewlineFreeStep(s: string, lo: nat, hi: nat)
    requires hi < |s| && NewlineFree(s, lo, hi) && s[hi] != '\n'
    ensures NewlineFree(s, lo, hi + 1)
  {
  }

  /** The lazy group at start `i`: try `k` characters, then one more, and so on. */
  function LazyFrom(s: string, pre: string, i: nat, k: nat): (r: Option<nat>)
    requires i + |pre| <= |s|
    ensures r.Some? ==> k <= r.value && i + |pre| + r.value + 1 + |Marker| <= |s|
    decreases |s| - k
  {
    if i + |pre| + k + 1 + |Marker| > |s| then None
    else if s[i + |pre| + k] == '\n' then None
    else if s[i + |pre| + k + 1..i + |pre| + k + 1 + |Marker|] == Marker then Some(k)
    else LazyFrom(s, pre, i, k + 1)
  }

  /** `re.search`: the leftmost start at which the pattern matches, with its group length. */
  function Search(s: string, pre: string, i: nat): (r: Option<(nat, nat)>)
    ensures r.Some? ==> i <= r.value.0 && r.value.0 + |pre| + r.value.1 + 1 + |Marker| <= |s|
    decreases |s| - i
  {
    if i + |pre| > |s| then None
    else if s[i..i + |pre|] == pre && LazyFrom(s, pre, i, 0).Some? then Some((i, LazyFrom(s, pre, i, 0).value))
    else Search(s, pre, i + 1)
  }

  /** The pattern matches nowhere at start `i` with a group of `lo` to `hi - 1` characters. */
  ghost predicate NoGroupBetween(s: string, pre: string, i: nat, lo: nat, hi: nat)
  {
    forall k: nat :: lo <= k < hi ==> !MatchAt(s, pre, i, k)
  }

  /** The pattern matches nowhere at start `i` with a group of `lo` characters or more. */
  ghost predicate NoGroupFrom(s: string, pre: string, i: nat, lo: nat)
  {
    forall k: nat :: lo <= k ==> !MatchAt(s, pre, i, k)
  }

  /** The pattern matches at no start from `lo` to `hi - 1`. */
  ghost predicate NoStartBetween(s: string, pre: string, lo: nat, hi: nat)
  {
    forall i: nat, k: nat :: lo <= i < hi ==> !MatchAt(s, pre, i, k)
  }

  /** The pattern matches at no start from `lo` on. */
  ghost predicate NoStartFrom(s: string, pre: string, lo: nat)
  {
    forall i: nat, k: nat :: lo <= i ==> !MatchAt(s, pre, i, k)
  }

  /** Starting from `k` with the characters before it newline-free, the lazy group
      finds the fewest characters from `k` on that make the pattern match. */
  lemma {:induction false} LazyFromSpec(s: string, pre: string, i: nat, k: nat)
    requires i + |pre| <= |s| && s[i..i + |pre|] == pre
    requires i + |pre| + k <= |s|
    requires NewlineFree(s, i + |pre|, i + |pre| + k)
    ensures var r := LazyFrom(s, pre, i, k);
      && (r.Some? ==> MatchAt(s, pre, i, r.value) && NoGroupBetween(s, pre, i, k, r.value))
      && (r.None? ==> NoGroupFrom(s, pre, i, k))
    decreases |s| - k
  {
    var p := i + |pre| + k;
    if p + 1 + |Marker| > |s| {
      assert LazyFrom(s, pre, i, k) == None;
      assert NoGroupFrom(s, pre, i, k);
    } else if s[p] == '\n' {
      assert LazyFrom(s, pre, i, k) == None;
      NewlineStops(s, pre, i, k);
    } else if s[p + 1..p + 1 + |Marker|] == Marker {
      assert LazyFrom(s, pre, i, k) == Some(k);
      NewlineFreeStep(s, i + |pre|, p);
      assert MatchAt(s, pre, i, k);
    } else {
      assert LazyFrom(s, pre, i, k) == LazyFrom(s, pre, i, k + 1);
      NewlineFreeStep(s, i + |pre|, p);
      LazyFromSpec(s, pre, i, k + 1);
      var r := LazyFrom(s, pre, i, k + 1);
      assert !MatchAt(s, pre, i, k);
      if r.Some? {
        GroupBetweenStep(s, pre, i, k, r.value);
      } else {
        GroupFromStep(s, pre, i, k);
      }
    }
  }

  /** The group and the character after it cannot hold a newline. */
  lemma NewlineStops(s: string, pre: string, i: nat, k: nat)
    requires i + |pre| + k < |s| && s[i + |pre| + k] == '\n'
    ensures NoGroupFrom(s, pre, i, k)
  {
    forall k': nat | k <= k' ensures !MatchAt(s, pre, i, k') {
      if i + |pre| + k' + 1 + |Marker| <= |s| {
        assert i + |pre| <= i + |pre| + k < i + |pre| + k' + 1;
        assert !NewlineFree(s, i + |pre|, i + |pre| + k' + 1);
      }
    }
  }

  lemma GroupBetweenStep(s: string, pre: string, i: nat, k: nat, hi: nat)
    requires !MatchAt(s, pre, i, k) && NoGroupBetween(s, pre, i, k + 1, hi)
    ensures NoGroupBetween(s, pre, i, k, hi)
  {
  }

  lemma GroupFromStep(s: string, pre: string, i: nat, k: nat)
    requires !MatchAt(s, pre, i, k) && NoGroupFrom(s, pre, i, k + 1)
    ensures NoGroupFrom(s, pre, i, k)
  {
  }

  /** `Search` finds the leftmost start, from `i` on, and there the fewest group
      characters; it finds nothing only when the pattern matches nowhere from `i` on. */
  lemma {:induction false} SearchSpec(s: string, pre: string, i: nat)
    ensures var r := Search(s, pre, i);
      && (r.Some? ==> MatchAt(s, pre, r.value.0, r.value.1)
                      && NoStartBetween(s, pre, i, r.value.0)
                      && NoGroupBetween(s, pre, r.value.0, 0, r.value.1))
      && (r.None? ==> NoStartFrom(s, pre, i))
    decreases |s| - i
  {
    if i + |pre| > |s| {
      assert NoStartFrom(s, pre, i);
    } else if s[i..i + |pre|] == pre && LazyFrom(s, pre, i, 0).Some? {
      LazyFromSpec(s, pre, i, 0);
    } else {
      if s[i..i + |pre|] == pre {
        LazyFromSpec(s, pre, i, 0);
      }
      assert NoGroupFrom(s, pre, i, 0);
      SearchSpec(s, pre, i + 1);
      var r := Search(s, pre, i + 1);
      if r.Some? {
        StartBetweenStep(s, pre, i, r.value.0);
      } else {
        StartFromStep(s, pre, i);
      }
    }
  }

  lemma StartBetweenStep(s: string, pre: string, i: nat, hi: nat)
    requires NoGroupFrom(s, pre, i, 0) && NoStartBetween(s, pre, i + 1, hi)
    ensures NoStartBetween(s, pre, i, hi)
  {
  }

  lemma StartFromStep(s: string, pre: string, i: nat)
    requires NoGroupFrom(s, pre, i, 0) && NoStartFrom(s, pre, i + 1)
    ensures NoStartFrom(s, pre, i)
  {
  }

  /** `os.path.splitext(b)[0]` for a name without `/`: cut at the last dot,
      unless nothing but dots comes before that dot. The stem is a prefix of the
      name; what is cut off is one extension: a dot with no other dot after it,
      and some non-dot character comes before it. */
  function StripExt(b: string): (r: string)
    ensures |r| <= |b| && r == b[..|r|]
    ensures r != b ==> b[|r|] == '.' && '.' !in b[|r| + 1..] && exists j :: 0 <= j < |r| && r[j] != '.'
  {
    LastFieldIsSuffix(b, '.');
    var ext := LastField(b, '.');
    if |ext| == |b| then b
    else
      var dot := |b| - |ext| - 1;
      assert b[dot + 1..] == ext;
      if exists j :: 0 <= j < dot && b[j] != '.' then b[..dot] else b
  }

  /** When nothing is cut, the name has no dot, or only dots before its last dot. */
  lemma StripExtKeep(b: string)
    ensures StripExt(b) == b ==>
      forall d :: 0 <= d < |b| && b[d] == '.' && (forall m :: d < m < |b| ==> b[m] != '.') ==>
        forall j :: 0 <= j < d ==> b[j] == '.'
  {
    LastFieldIsSuffix(b, '.');
    var ext := LastField(b, '.');
    if |ext| < |b| {
      var dot := |b| - |ext| - 1;
      assert b[dot + 1..] == ext;
      assert forall m :: dot < m < |b| ==> b[m] == ext[m - dot - 1];
      assert forall m :: dot < m < |b| ==> b[m] != '.';
    } else {
      assert b == ext;
      assert forall m :: 0 <= m < |b| ==> b[m] != '.';
    }
  }

  /** The match at `i` with a `k`-character group is the leftmost, and then the
      shortest, of all matches. */
  ghost predicate FirstMatch(s: string, pre: string, i: nat, k: nat)
  {
    MatchAt(s, pre, i, k)
    && forall i': nat, k': nat :: MatchAt(s, pre, i', k') ==> i < i' || (i == i' && k <= k')
  }

  /** What `re.search(pre + "(.*?).deduplicated", basename)` and the fallback give,
      stated without the search procedure: the group of the leftmost, then
      shortest, match; or the basename without its extension when nothing matches. */
  ghost predicate IsLabel(path: string, pre: string, r: string)
  {
    IsNameLabel(Basename(path), pre, r)
  }

  ghost predicate IsNameLabel(b: string, pre: string, r: string)
  {
    if exists i: nat, k: nat :: MatchAt(b, pre, i, k) then
      exists i: nat, k: nat :: FirstMatch(b, pre, i, k) && r == b[i + |pre|..i + |pre| + k]
    else r == StripExt(b)
  }

  /** The label of a file: the label of its basename. */
  function Label(path: string, pre: string): (r: string)
    ensures IsLabel(path, pre, r)
  {
    NameLabelSpec(Basename(path), pre);
    NameLabel(Basename(path), pre)
  }

  /** The label of a basename: the group of the match `Search` finds, or the name
      without its extension. */
  function NameLabel(b: string, pre: string): string
  {
    match Search(b, pre, 0)
    case Some((i, k)) => b[i + |pre|..i + |pre| + k]
    case None => StripExt(b)
  }

  lemma NameLabelSpec(b: string, pre: string)
    ensures IsNameLabel(b, pre, NameLabel(b, pre))
  {
    SearchSpec(b, pre, 0);
    var r := Search(b, pre, 0);
    if r.Some? {
      var i, k := r.value.0, r.value.1;
      FoundIsFirst(b, pre, i, k);
      assert NameLabel(b, pre) == b[i + |pre|..i + |pre| + k];
      FirstMatchLabel(b, pre, i, k);
    } else {
      assert NameLabel(b, pre) == StripExt(b);
      assert !exists i: nat, k: nat :: MatchAt(b, pre, i, k);
    }
  }

  /** The group of the first match is the label. */
  lemma FirstMatchLabel(b: string, pre: string, i: nat, k: nat)
    requires FirstMatch(b, pre, i, k)
    ensures IsNameLabel(b, pre, b[i + |pre|..i + |pre| + k])
  {
    assert MatchAt(b, pre, i, k);
  }

  /** A match with no match at an earlier start and no shorter group at its start
      is the first match. */
  lemma FoundIsFirst(s: string, pre: string, i: nat, k: nat)
    requires MatchAt(s, pre, i, k) && NoStartBetween(s, pre, 0, i) && NoGroupBetween(s, pre, i, 0, k)
    ensures FirstMatch(s, pre, i, k)
  {
    forall i': nat, k': nat | MatchAt(s, pre, i', k') ensures i < i' || (i == i' && k <= k') {
    }
  }
}
