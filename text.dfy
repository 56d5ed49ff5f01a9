/** String operations of Python's `str` that the model needs, defined on
    `seq<char>` with the semantics CPython gives them. */
module Text {

  datatype Option<T> = None | Some(value: T)

  /** `sub` occurs in `s` starting at index `i`. */
  predicate OccursAt(s: string, sub: string, i: nat)
  {
    i + |sub| <= |s| && s[i..i + |sub|] == sub
  }

  /** Python's `sub in s`. */
  predicate Contains(s: string, sub: string)
  {
    exists i: nat | i <= |s| :: OccursAt(s, sub, i)
  }

  predicate StartsWith(s: string, prefix: string)
  {
    |prefix| <= |s| && s[..|prefix|] == prefix
  }

  predicate EndsWith(s: string, suffix: string)
  {
    |suffix| <= |s| && s[|s| - |suffix|..] == suffix
  }

  /** The leftmost occurrence of `sub` in `s` at or after index `k`. */
  function FindFrom(s: string, sub: string, k: nat): (r: Option<nat>)
    decreases |s| - k
    ensures r.Some? ==> k <= r.value && OccursAt(s, sub, r.value)
    ensures r.Some? ==> forall j: nat :: k <= j < r.value ==> !OccursAt(s, sub, j)
    ensures r.None? ==> forall j: nat :: k <= j ==> !OccursAt(s, sub, j)
  {
    if |s| < k + |sub| then None
    else if s[k..k + |sub|] == sub then Some(k)
    else FindFrom(s, sub, k + 1)
  }

  /** Python's `s.find(sub)`: the leftmost occurrence, if any. */
  function Find(s: string, sub: string): (r: Option<nat>)
    ensures r.Some? ==> OccursAt(s, sub, r.value)
    ensures r.Some? ==> forall j: nat :: j < r.value ==> !OccursAt(s, sub, j)
    ensures r.None? <==> !Contains(s, sub)
  {
    FindFrom(s, sub, 0)
  }

  /** The rightmost occurrence of `sub` in `s` at or before index `k`. */
  function RFindUpTo(s: string, sub: string, k: nat): (r: Option<nat>)
    decreases k
    ensures r.Some? ==> r.value <= k && OccursAt(s, sub, r.value)
    ensures r.Some? ==> forall j: nat :: r.value < j <= k ==> !OccursAt(s, sub, j)
    ensures r.None? ==> forall j: nat :: j <= k ==> !OccursAt(s, sub, j)
  {
    if OccursAt(s, sub, k) then Some(k)
    else if k == 0 then None
    else RFindUpTo(s, sub, k - 1)
  }

  /** Python's `s.rfind(sub)`: the rightmost occurrence, if any. */
  function RFind(s: string, sub: string): (r: Option<nat>)
    ensures r.Some? ==> OccursAt(s, sub, r.value)
    ensures r.Some? ==> forall j: nat :: r.value < j ==> !OccursAt(s, sub, j)
    ensures r.None? <==> !Contains(s, sub)
  {
    if |s| < |sub| then None else RFindUpTo(s, sub, |s| - |sub|)
  }

  /** Python's `s.rsplit(sep)` without `maxsplit`, as CPython computes it:
      take the rightmost occurrence of `sep` in what is left, cut the piece
      after it off, and go on with the text before it. */
  function RSplit(s: string, sep: string): (r: seq<string>)
    requires |sep| > 0
    decreases |s|
    ensures |r| >= 1
  {
    match RFind(s, sep)
    case None => [s]
    case Some(i) => RSplit(s[..i], sep) + [s[i + |sep|..]]
  }

  /** The text of `s` before the leftmost occurrence of `sep`; all of `s` if
      there is none. */
  function PrefixBeforeFirst(s: string, sep: string): string
  {
    match Find(s, sep)
    case None => s
    case Some(i) => s[..i]
  }

  /** No proper suffix of `sep` is also a prefix of it, so two occurrences
      of `sep` in one string never overlap. */
  predicate NoSelfOverlap(sep: string)
  {
    forall d :: 0 < d < |sep| ==> sep[d..] != sep[..|sep| - d]
  }

  /** Python's `sep.join(parts)`. */
  function Join(parts: seq<string>, sep: string): string
  {
    if |parts| == 0 then ""
    else if |parts| == 1 then parts[0]
    else parts[0] + sep + Join(parts[1..], sep)
  }

  /** Python's `s.split(c)` for a one-character separator. */
  function Split(s: string, c: char): (r: seq<string>)
    decreases |s|
    ensures |r| >= 1
  {
    match Find(s, [c])
    case None => [s]
    case Some(i) => [s[..i]] + Split(s[i + 1..], c)
  }

  // ---------------------------------------------------------------------
  // Lemmas

  lemma OccursAtChar(s: string, c: char, j: nat)
    ensures OccursAt(s, [c], j) <==> j < |s| && s[j] == c
  {
    if j < |s| {
      assert s[j..j + 1] == [s[j]];
    }
  }

  /** An occurrence inside `s[..i]` is an occurrence in `s` that ends by `i`. */
  lemma OccursInPrefix(s: string, sub: string, i: nat, j: nat)
    requires i <= |s|
    ensures OccursAt(s[..i], sub, j) <==> OccursAt(s, sub, j) && j + |sub| <= i
  {
    if j + |sub| <= i {
      assert s[..i][j..j + |sub|] == s[j..j + |sub|];
    }
  }

  /** Two occurrences closer together than `|sep|` make a suffix of `sep`
      equal to its prefix. */
  lemma OverlapBorder(s: string, sep: string, f: nat, i: nat)
    requires OccursAt(s, sep, f) && OccursAt(s, sep, i) && f < i < f + |sep|
    ensures sep[i - f..] == sep[..|sep| - (i - f)]
  {
    var d := i - f;
    forall k | 0 <= k < |sep| - d
      ensures sep[d..][k] == sep[..|sep| - d][k]
    {
      assert sep[d + k] == s[f..f + |sep|][d + k] == s[f + d + k];
      assert s[i + k] == s[i..i + |sep|][k] == sep[k];
    }
  }

  /** Cutting `s` at an occurrence of a non-self-overlapping `sep` keeps
      the text before its first occurrence. */
  lemma PrefixBeforeFirstCut(s: string, sep: string, i: nat)
    requires |sep| > 0 && NoSelfOverlap(sep) && OccursAt(s, sep, i)
    ensures PrefixBeforeFirst(s[..i], sep) == PrefixBeforeFirst(s, sep)
  {
    var t := s[..i];
    var f := Find(s, sep).value;
    if f == i {
      forall j: nat
        ensures !OccursAt(t, sep, j)
      {
        OccursInPrefix(s, sep, i, j);
      }
      assert !Contains(t, sep);
    } else {
      if i < f + |sep| {
        OverlapBorder(s, sep, f, i);
        assert false;
      }
      OccursInPrefix(s, sep, i, f);
      var g := Find(t, sep).value;
      OccursInPrefix(s, sep, i, g);
      assert t[..f] == s[..f];
    }
  }

  /** For a separator without self-overlap, the first piece of `rsplit` is
      the text before the leftmost occurrence, although `rsplit` scans from
      the right. */
  lemma {:induction false} RSplitHead(s: string, sep: string)
    requires |sep| > 0 && NoSelfOverlap(sep)
    ensures RSplit(s, sep)[0] == PrefixBeforeFirst(s, sep)
    decreases |s|
  {
    match RFind(s, sep)
    case None =>
    case Some(i) =>
      RSplitHead(s[..i], sep);
      PrefixBeforeFirstCut(s, sep, i);
  }

  lemma FindCharAbsent(s: string, c: char)
    requires c !in s
    ensures Find(s, [c]) == None
  {
    if Find(s, [c]).Some? {
      OccursAtChar(s, c, Find(s, [c]).value);
    }
  }

  lemma RFindCharAbsent(s: string, c: char)
    requires c !in s
    ensures RFind(s, [c]) == None
  {
    if RFind(s, [c]).Some? {
      OccursAtChar(s, c, RFind(s, [c]).value);
    }
  }

  /** The first `c` of `pre + [c] + post` is the one after `pre` when `pre`
      holds none. */
  lemma FindCharAfter(pre: string, c: char, post: string)
    requires c !in pre
    ensures Find(pre + [c] + post, [c]) == Some(|pre|)
  {
    var s := pre + [c] + post;
    OccursAtChar(s, c, |pre|);
    var r := Find(s, [c]).value;
    if r < |pre| {
      OccursAtChar(s, c, r);
    }
  }

  /** The last `c` of `pre + [c] + post` is the one after `pre` when `post`
      holds none. */
  lemma RFindCharBefore(pre: string, c: char, post: string)
    requires c !in post
    ensures RFind(pre + [c] + post, [c]) == Some(|pre|)
  {
    var s := pre + [c] + post;
    OccursAtChar(s, c, |pre|);
    var r := RFind(s, [c]).value;
    if r > |pre| {
      OccursAtChar(s, c, r);
    }
  }

  /** Splitting at the first separator, when the text before it holds none. */
  lemma SplitAtFirst(head: string, c: char, rest: string)
    requires c !in head
    ensures Split(head + [c] + rest, c) == [head] + Split(rest, c)
  {
    var s := head + [c] + rest;
    FindCharAfter(head, c, rest);
    assert s[..|head|] == head && s[|head| + 1..] == rest;
  }

  /** Splitting a join on a separator that no part contains gives the parts
      back. */
  lemma {:induction false} SplitJoin(parts: seq<string>, c: char)
    requires |parts| >= 1
    requires forall k :: 0 <= k < |parts| ==> c !in parts[k]
    ensures Split(Join(parts, [c]), c) == parts
    decreases |parts|
  {
    if |parts| == 1 {
      FindCharAbsent(parts[0], c);
    } else {
      var rest := Join(parts[1..], [c]);
      assert Join(parts, [c]) == parts[0] + [c] + rest;
      SplitAtFirst(parts[0], c, rest);
      SplitJoin(parts[1..], c);
      assert parts == [parts[0]] + parts[1..];
    }
  }
}
