/** The bowtie2 index directory format: six file-name patterns, one per
    member of an index, and the extraction of the index name from the
    `*.1.bt2` member.

    Each pattern is read as a FULL match of the file name (the whole name,
    start to end, must match). Python's `.` matches any character but a
    newline, so `.+` is a non-empty run of characters without '\n'. A
    pattern `.+(?<!\.rev)\.1\.bt2` then matches exactly the names
    `p + ".1.bt2"` whose stem `p` is such a run and does not end in ".rev":
    the literal tail fixes where the stem ends, and the negative lookbehind
    inspects the four characters before that point. */
module Bowtie2Formats {
  import opened Text

  /** The members of `Bowtie2IndexDirFmt`. */
  datatype Member = Idx1 | Idx2 | Ref3 | Ref4 | Rev1 | Rev2

  const Members: seq<Member> := [Idx1, Idx2, Ref3, Ref4, Rev1, Rev2]

  /** The literal tail of each member's pattern. */
  function Suffix(m: Member): string
  {
    match m
    case Idx1 => ".1.bt2"
    case Idx2 => ".2.bt2"
    case Ref3 => ".3.bt2"
    case Ref4 => ".4.bt2"
    case Rev1 => ".rev.1.bt2"
    case Rev2 => ".rev.2.bt2"
  }

  /** The patterns of idx1 and idx2 carry the lookbehind `(?<!\.rev)`. */
  predicate ExcludesRev(m: Member)
  {
    m == Idx1 || m == Idx2
  }

  /** Python's `.+`: one or more characters, none of them a newline. */
  predicate DotPlus(p: string)
  {
    |p| >= 1 && '\n' !in p
  }

  /** What member `m`'s pattern demands of the stem before its tail. */
  predicate StemAccepted(m: Member, p: string)
  {
    DotPlus(p) && (ExcludesRev(m) ==> !EndsWith(p, ".rev"))
  }

  /** `name` is a full match of the pattern of member `m`. */
  predicate Matches(m: Member, name: string)
  {
    EndsWith(name, Suffix(m)) && StemAccepted(m, name[..|name| - |Suffix(m)|])
  }

  /** The member whose pattern `name` matches, if any. */
  function Classify(name: string): (r: Option<Member>)
    ensures r.Some? ==> Matches(r.value, name)
    ensures r.None? ==> forall m: Member :: !Matches(m, name)
  {
    if Matches(Idx1, name) then Some(Idx1)
    else if Matches(Idx2, name) then Some(Idx2)
    else if Matches(Ref3, name) then Some(Ref3)
    else if Matches(Ref4, name) then Some(Ref4)
    else if Matches(Rev1, name) then Some(Rev1)
    else if Matches(Rev2, name) then Some(Rev2)
    else None
  }

  /** The six file names of an index whose files share the stem `p`, in
      member order. */
  function IndexFiles(p: string): (files: seq<string>)
    ensures |files| == |Members|
  {
    seq(|Members|, k requires 0 <= k < |Members| => p + Suffix(Members[k]))
  }

  // ---------------------------------------------------------------------
  // Per-file content validation

  datatype ValidationLevel = Min | Max

  /** One member file: its name relative to the index directory and its
      bytes. */
  datatype IndexFile = IndexFile(name: string, content: seq<bv8>)

  /** `Bowtie2IndexFileFormat._validate_`: there is no way to tell a correct
      bowtie2 index file from an incorrect one, so every file passes. */
  predicate ContentValid(content: seq<bv8>, level: ValidationLevel)
  {
    true
  }

  /** A file is accepted as member `m` when its name matches `m`'s pattern
      and its content passes the per-file validation. */
  predicate MemberAccepts(m: Member, f: IndexFile, level: ValidationLevel)
  {
    Matches(m, f.name) && ContentValid(f.content, level)
  }

  // ---------------------------------------------------------------------
  // Index name

  const Idx1Suffix: string := ".1.bt2"

  /** `get_name`: `filename.rsplit('.1.bt2')[0]`, where `filename` is the
      idx1 member's path relative to the index directory. */
  function GetName(filename: string): string
  {
    RSplit(filename, Idx1Suffix)[0]
  }

  /** The index name as `filename.rsplit('.1.bt2', 1)[0]`: the text before
      the LAST occurrence of ".1.bt2". */
  function IndexName(filename: string): string
  {
    match RFind(filename, Idx1Suffix)
    case None => filename
    case Some(i) => filename[..i]
  }

  // ---------------------------------------------------------------------
  // Lemmas: the patterns

  /** A name built from a stem and a member's tail matches that member
      exactly when the member accepts the stem. */
  lemma MatchesStem(m: Member, p: string)
    ensures Matches(m, p + Suffix(m)) <==> StemAccepted(m, p)
  {
    var name := p + Suffix(m);
    assert name[..|name| - |Suffix(m)|] == p;
    assert name[|name| - |Suffix(m)|..] == Suffix(m);
  }

  /** Every match of `m` is a stem followed by `m`'s tail. */
  lemma MatchesSplit(m: Member, name: string)
    requires Matches(m, name)
    ensures var p := name[..|name| - |Suffix(m)|];
            name == p + Suffix(m) && StemAccepted(m, p)
  {
    var p := name[..|name| - |Suffix(m)|];
    assert name == p + name[|name| - |Suffix(m)|..];
  }

  /** idx1 accepts exactly the names `p + ".1.bt2"` with `p` a non-empty
      newline-free stem not ending in ".rev"; idx2 likewise for ".2.bt2". */
  lemma Idx1Idx2Shape(p: string)
    ensures Matches(Idx1, p + ".1.bt2") <==> DotPlus(p) && !EndsWith(p, ".rev")
    ensures Matches(Idx2, p + ".2.bt2") <==> DotPlus(p) && !EndsWith(p, ".rev")
  {
    MatchesStem(Idx1, p);
    MatchesStem(Idx2, p);
  }

  /** ref3 and ref4 accept every non-empty newline-free stem, including the
      stems that end in ".rev". */
  lemma RefAcceptsAnyStem(p: string)
    ensures Matches(Ref3, p + ".3.bt2") <==> DotPlus(p)
    ensures Matches(Ref4, p + ".4.bt2") <==> DotPlus(p)
    ensures EndsWith(p, ".rev") && DotPlus(p) ==> Matches(Ref3, p + ".3.bt2") && Matches(Ref4, p + ".4.bt2")
  {
    MatchesStem(Ref3, p);
    MatchesStem(Ref4, p);
  }

  /** Two tails of the same string: the shorter is a tail of the longer. */
  lemma EndsWithBoth(s: string, a: string, b: string)
    requires EndsWith(s, a) && EndsWith(s, b) && |b| <= |a|
    ensures EndsWith(a, b)
  {
    assert a[|a| - |b|..] == s[|s| - |a|..][|a| - |b|..];
  }

  /** A name of the form `x + ".rev.1.bt2"` never matches idx1 and matches
      rev1 exactly when `x` is a non-empty newline-free stem; the same for
      idx2 and rev2. */
  lemma RevNamesGoToRev(x: string)
    ensures !Matches(Idx1, x + ".rev.1.bt2")
    ensures Matches(Rev1, x + ".rev.1.bt2") <==> DotPlus(x)
    ensures !Matches(Idx2, x + ".rev.2.bt2")
    ensures Matches(Rev2, x + ".rev.2.bt2") <==> DotPlus(x)
  {
    MatchesStem(Rev1, x);
    MatchesStem(Rev2, x);
    assert x + ".rev.1.bt2" == (x + ".rev") + ".1.bt2";
    assert x + ".rev.2.bt2" == (x + ".rev") + ".2.bt2";
    MatchesStem(Idx1, x + ".rev");
    MatchesStem(Idx2, x + ".rev");
    assert EndsWith(x + ".rev", ".rev") by {
      assert (x + ".rev")[|x|..] == ".rev";
    }
  }

  /** Name-level disjointness of the tails. */
  lemma TailsDisjoint(m1: Member, m2: Member, name: string)
    requires m1 != m2 && !(ExcludesRev(m1) && m2 == RevOf(m1)) && !(ExcludesRev(m2) && m1 == RevOf(m2))
    ensures !(EndsWith(name, Suffix(m1)) && EndsWith(name, Suffix(m2)))
  {
    if EndsWith(name, Suffix(m1)) && EndsWith(name, Suffix(m2)) {
      if |Suffix(m2)| <= |Suffix(m1)| {
        EndsWithBoth(name, Suffix(m1), Suffix(m2));
        SuffixTailsDiffer(m1, m2);
      } else {
        EndsWithBoth(name, Suffix(m2), Suffix(m1));
        SuffixTailsDiffer(m2, m1);
      }
    }
  }

  /** The rev member paired with idx1 and idx2. */
  function RevOf(m: Member): Member
    requires ExcludesRev(m)
  {
    if m == Idx1 then Rev1 else Rev2
  }

  /** Of two members' tails, where neither pair is idx-with-its-rev, the
      shorter is never a tail of the longer. */
  lemma SuffixTailsDiffer(m1: Member, m2: Member)
    requires m1 != m2 && !(ExcludesRev(m1) && m2 == RevOf(m1)) && !(ExcludesRev(m2) && m1 == RevOf(m2))
    requires |Suffix(m2)| <= |Suffix(m1)|
    ensures !EndsWith(Suffix(m1), Suffix(m2))
  {
  }

  /** No file name matches two members: the six patterns are pairwise
      disjoint. */
  lemma PatternsDisjoint(m1: Member, m2: Member, name: string)
    requires Matches(m1, name) && Matches(m2, name)
    ensures m1 == m2
  {
    if m1 != m2 {
      if ExcludesRev(m1) && m2 == RevOf(m1) {
        RevMatchExcludesIdx(m1, name);
      } else if ExcludesRev(m2) && m1 == RevOf(m2) {
        RevMatchExcludesIdx(m2, name);
      } else {
        TailsDisjoint(m1, m2, name);
      }
    }
  }

  /** A name that matches rev1 (rev2) does not match idx1 (idx2). */
  lemma RevMatchExcludesIdx(m: Member, name: string)
    requires ExcludesRev(m) && Matches(RevOf(m), name)
    ensures !Matches(m, name)
  {
    MatchesSplit(RevOf(m), name);
    var x := name[..|name| - |Suffix(RevOf(m))|];
    RevNamesGoToRev(x);
  }

  /** Classification is exact: a name is classified as `m` if and only if
      it matches `m`'s pattern. */
  lemma ClassifyExact(name: string, m: Member)
    ensures Classify(name) == Some(m) <==> Matches(m, name)
  {
    if Matches(m, name) {
      var r := Classify(name);
      PatternsDisjoint(r.value, m, name);
    }
  }

  /** The six files of an index with stem `p` are each classified as their
      own member exactly when `p` is a stem idx1 accepts: non-empty,
      newline-free and not ending in ".rev". */
  lemma {:induction false} IndexFilesClassified(p: string)
    ensures StemAccepted(Idx1, p) <==>
            forall k :: 0 <= k < |Members| ==> Classify(IndexFiles(p)[k]) == Some(Members[k])
  {
    forall k | 0 <= k < |Members|
      ensures Classify(IndexFiles(p)[k]) == Some(Members[k]) <==> StemAccepted(Members[k], p)
    {
      MatchesStem(Members[k], p);
      ClassifyExact(IndexFiles(p)[k], Members[k]);
    }
    assert Members[0] == Idx1;
    assert StemAccepted(Idx1, p) ==> forall k :: 0 <= k < |Members| ==> StemAccepted(Members[k], p);
  }

  /** Membership is decided by the name alone: the file content never
      changes whether a file is accepted. */
  lemma OnlyNamesDecide(m: Member, f: IndexFile, level: ValidationLevel)
    ensures MemberAccepts(m, f, level) <==> Matches(m, f.name)
  {
  }

  // ---------------------------------------------------------------------
  // Lemmas: the index name

  /** ".1.bt2" cannot overlap itself. */
  lemma Idx1SuffixNoSelfOverlap()
    ensures NoSelfOverlap(Idx1Suffix)
  {
    var s := Idx1Suffix;
    forall d | 0 < d < |s|
      ensures s[d..] != s[..|s| - d]
    {
      if d == 2 {
        assert s[d..][1] != s[..|s| - d][1];
      } else {
        assert s[d..][0] != s[..|s| - d][0];
      }
    }
  }

  /** `get_name` returns the text before the FIRST occurrence of ".1.bt2"
      (the whole name if there is none), although `rsplit` scans from the
      right: the split that no `maxsplit` asks for cuts at every
      occurrence. */
  lemma GetNameBeforeFirst(filename: string)
    ensures GetName(filename) == PrefixBeforeFirst(filename, Idx1Suffix)
  {
    Idx1SuffixNoSelfOverlap();
    RSplitHead(filename, Idx1Suffix);
  }

  /** The name followed by ".1.bt2" begins the file name, and the name
      itself holds no ".1.bt2". */
  lemma GetNamePrefix(filename: string)
    requires Contains(filename, Idx1Suffix)
    ensures StartsWith(filename, GetName(filename) + Idx1Suffix)
    ensures !Contains(GetName(filename), Idx1Suffix)
  {
    GetNameBeforeFirst(filename);
    var i := Find(filename, Idx1Suffix).value;
    var n := GetName(filename);
    assert n == filename[..i];
    assert filename[..|n + Idx1Suffix|] == n + Idx1Suffix by {
      assert filename[..i + 6] == filename[..i] + filename[i..i + 6];
    }
    forall j: nat
      ensures !OccursAt(n, Idx1Suffix, j)
    {
      OccursInPrefix(filename, Idx1Suffix, i, j);
    }
  }

  /** Every idx1 member contains ".1.bt2", so the property above holds of
      every idx1 file name. */
  lemma GetNameOfIdx1Member(filename: string)
    requires Matches(Idx1, filename)
    ensures StartsWith(filename, GetName(filename) + Idx1Suffix)
  {
    assert OccursAt(filename, Idx1Suffix, |filename| - 6);
    GetNamePrefix(filename);
  }

  /** On the idx1 file `p + ".1.bt2"`, `get_name` gives back exactly `p` if
      and only if `p` holds no ".1.bt2"; for an idx1 match such a `p` is
      non-empty. */
  lemma GetNameOfStem(p: string)
    ensures GetName(p + Idx1Suffix) == p <==> !Contains(p, Idx1Suffix)
    ensures Matches(Idx1, p + Idx1Suffix) && !Contains(p, Idx1Suffix) ==> GetName(p + Idx1Suffix) != ""
  {
    var name := p + Idx1Suffix;
    GetNameBeforeFirst(name);
    assert OccursAt(name, Idx1Suffix, |p|);
    var i := Find(name, Idx1Suffix).value;
    forall j: nat
      ensures OccursAt(p, Idx1Suffix, j) ==> OccursAt(name, Idx1Suffix, j)
    {
      assert name[..|p|] == p;
      OccursInPrefix(name, Idx1Suffix, |p|, j);
    }
    if !Contains(p, Idx1Suffix) {
      if i < |p| {
        if i + 6 <= |p| {
          assert name[..|p|] == p;
          OccursInPrefix(name, Idx1Suffix, |p|, i);
        } else {
          Idx1SuffixNoSelfOverlap();
          OverlapBorder(name, Idx1Suffix, i, |p|);
          assert false;
        }
      }
      assert name[..|p|] == p;
      MatchesStem(Idx1, p);
    } else {
      var j: nat :| j <= |p| && OccursAt(p, Idx1Suffix, j);
      assert |GetName(name)| == i <= j < |p|;
    }
  }

  /** `IndexName` gives back the stem of every name that ends in ".1.bt2". */
  lemma IndexNameOfStem(p: string)
    ensures IndexName(p + Idx1Suffix) == p
  {
    var name := p + Idx1Suffix;
    assert OccursAt(name, Idx1Suffix, |p|);
    assert name[..|p|] == p;
  }

  /** For every index whose six files share a stem that the patterns accept,
      each file is classified as its own member and `IndexName` of the idx1
      file is that stem. */
  lemma IndexNameOfIndexFiles(p: string)
    requires StemAccepted(Idx1, p)
    ensures forall k :: 0 <= k < |Members| ==> Classify(IndexFiles(p)[k]) == Some(Members[k])
    ensures IndexName(IndexFiles(p)[0]) == p
  {
    IndexFilesClassified(p);
    IndexNameOfStem(p);
  }

  /** `get_name` as written loses the stem of an index whose stem contains
      ".1.bt2": the six files of stem "a.1.bt2" are all classified as their
      own members, yet `get_name` returns "a"; for the stem ".1.bt2" it
      returns the empty name. */
  lemma GetNameTruncatesStem()
    ensures forall k :: 0 <= k < |Members| ==> Classify(IndexFiles("a.1.bt2")[k]) == Some(Members[k])
    ensures GetName(IndexFiles("a.1.bt2")[0]) == "a"
    ensures forall k :: 0 <= k < |Members| ==> Classify(IndexFiles(".1.bt2")[k]) == Some(Members[k])
    ensures GetName(IndexFiles(".1.bt2")[0]) == ""
  {
    GetNameCutsStem("a.1.bt2");
    GetNameEmptiesStem(".1.bt2");
  }

  /** The index of stem "a.1.bt2" is complete, and `get_name` of its idx1
      file is "a". */
  lemma GetNameCutsStem(p: string)
    requires p == "a.1.bt2"
    ensures forall k :: 0 <= k < |Members| ==> Classify(IndexFiles(p)[k]) == Some(Members[k])
    ensures GetName(IndexFiles(p)[0]) == "a"
  {
    assert StemAccepted(Idx1, p) by {
      assert p[|p| - 4..] != ".rev";
    }
    IndexFilesClassified(p);
    var name := IndexFiles(p)[0];
    assert name == p + Idx1Suffix;
    GetNameBeforeFirst(name);
    assert OccursAt(name, Idx1Suffix, 1);
    assert !OccursAt(name, Idx1Suffix, 0);
    assert name[..1] == "a";
  }

  /** The index of stem ".1.bt2" is complete, and `get_name` of its idx1
      file is empty. */
  lemma GetNameEmptiesStem(p: string)
    requires p == Idx1Suffix
    ensures forall k :: 0 <= k < |Members| ==> Classify(IndexFiles(p)[k]) == Some(Members[k])
    ensures GetName(IndexFiles(p)[0]) == ""
  {
    assert StemAccepted(Idx1, p) by {
      assert p[|p| - 4..] != ".rev";
    }
    IndexFilesClassified(p);
    var name := IndexFiles(p)[0];
    assert name == p + Idx1Suffix;
    GetNameBeforeFirst(name);
    assert OccursAt(name, Idx1Suffix, 0);
  }
}
