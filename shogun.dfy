/** The deterministic parts of `minipipe`: the names of the staged database
    files, the metadata descriptor text, the `shogun pipeline` argument
    vector, the command line echoed before it runs, and the paths of the
    four output tables to read.

    The filesystem steps (copies, the write of the descriptor), the
    subprocess and the conversion of each table are not executed here;
    `Minipipe` describes the steps in the order the source takes them. */
module Shogun {
  import opened Text

  /** Destination names of the staged database files. */
  const FastaName: string := "seqs.fasta"
  const TaxonomyName: string := "taxa.tsv"
  const MetadataName: string := "metadata.yaml"

  /** A float parameter of `minipipe`: the value the framework range-checks
      and the text it is written as on the command line. */
  datatype FloatArg = FloatArg(value: real, text: string)

  /** `Float % Range(0.0, 1.0, inclusive_end=True)`. */
  predicate InUnitRange(x: FloatArg)
  {
    0.0 <= x.value <= 1.0
  }

  // ---------------------------------------------------------------------
  // Paths

  /** Python's `os.path.join(dir, name)` on POSIX, for one component. */
  function PathJoin(dir: string, name: string): string
  {
    if |name| > 0 && name[0] == '/' then name
    else if dir == "" || dir[|dir| - 1] == '/' then dir + name
    else dir + "/" + name
  }

  /** Python's `os.path.basename(path)`: the text after the last '/'. */
  function BaseName(path: string): string
  {
    match RFind(path, "/")
    case None => path
    case Some(i) => path[i + 1..]
  }

  /** Joining a '/'-free name onto a directory and taking the base name
      gives the name back. */
  lemma BaseNameOfJoin(dir: string, name: string)
    requires '/' !in name
    ensures BaseName(PathJoin(dir, name)) == name
  {
    if dir == "" {
      RFindCharAbsent(name, '/');
    } else if dir[|dir| - 1] == '/' {
      var pre := dir[..|dir| - 1];
      assert dir == pre + ['/'];
      assert PathJoin(dir, name) == pre + ['/'] + name;
      RFindCharBefore(pre, '/', name);
    } else {
      assert PathJoin(dir, name) == dir + ['/'] + name;
      RFindCharBefore(dir, '/', name);
    }
  }

  /** Names joined onto one directory are distinct whenever the names are. */
  lemma JoinDistinct(dir: string, a: string, b: string)
    requires '/' !in a && '/' !in b && a != b
    ensures PathJoin(dir, a) != PathJoin(dir, b)
  {
    BaseNameOfJoin(dir, a);
    BaseNameOfJoin(dir, b);
  }

  // ---------------------------------------------------------------------
  // Rendering the thread count

  function DigitChar(d: nat): (c: char)
    requires d < 10
    ensures '0' <= c <= '9'
  {
    (48 + d) as char
  }

  /** Python's `str(n)` for a non-negative int. */
  function Decimal(n: nat): (r: string)
    decreases n
    ensures |r| >= 1
    ensures forall k :: 0 <= k < |r| ==> '0' <= r[k] <= '9'
    ensures r[0] == '0' <==> n == 0
  {
    if n < 10 then [DigitChar(n)] else Decimal(n / 10) + [DigitChar(n % 10)]
  }

  /** The number a string of decimal digits denotes. */
  function DecimalValue(s: string): nat
    requires forall k :: 0 <= k < |s| ==> '0' <= s[k] <= '9'
  {
    if s == "" then 0
    else DecimalValue(s[..|s| - 1]) * 10 + (s[|s| - 1] as int - 48)
  }

  /** The rendering of the thread count denotes the thread count. */
  lemma {:induction false} DecimalRoundTrip(n: nat)
    ensures DecimalValue(Decimal(n)) == n
    decreases n
  {
    if n >= 10 {
      var d := Decimal(n / 10);
      var r := Decimal(n);
      assert r == d + [DigitChar(n % 10)];
      assert r[..|r| - 1] == d;
      DecimalRoundTrip(n / 10);
    }
  }

  // ---------------------------------------------------------------------
  // The argument vector

  /** A command-line option name. */
  predicate IsFlag(a: string)
  {
    |a| >= 2 && a[0] == '-'
  }

  /** The `shogun pipeline` argument vector: the database directory and the
      output directory are both the staging directory, the aligner is
      always bowtie2. The requires mirror the ranges the plugin registers
      for its parameters; of them, only `threads >= 1` bears on the vector:
      the thread count is written without a leading zero. The float ranges
      constrain the values, not their texts, which are taken as given. */
  function PipelineCommand(input: string, stage: string, taxacut: FloatArg, threads: nat, percentId: FloatArg): (cmd: seq<string>)
    requires InUnitRange(taxacut) && threads >= 1 && InUnitRange(percentId)
    ensures |cmd| == 16 && cmd[..2] == ["shogun", "pipeline"]
    ensures forall k :: 2 <= k < |cmd| && k % 2 == 0 ==> IsFlag(cmd[k])
    ensures cmd[12] == "-t" && |cmd[13]| >= 1 && cmd[13][0] != '0'
  {
    ["shogun", "pipeline", "-i", input, "-d", stage, "-o", stage,
     "-a", "bowtie2", "-x", taxacut.text, "-t", Decimal(threads), "-p", percentId.text]
  }

  /** How a command-line parser reads `flag value` pairs: each flag is taken
      with the element right after it; a missing value, a non-flag in flag
      position or a repeated flag is an error. */
  function ParseOptions(args: seq<string>): Option<map<string, string>>
    decreases |args|
  {
    if |args| == 0 then Some(map[])
    else if |args| == 1 || !IsFlag(args[0]) then None
    else match ParseOptions(args[2..])
      case None => None
      case Some(m) => if args[0] in m then None else Some(m[args[0] := args[1]])
  }

  /** `fs[0] vs[0] fs[1] vs[1] ...`: flags each followed by its value. */
  function Interleave(fs: seq<string>, vs: seq<string>): (r: seq<string>)
    requires |fs| == |vs|
    ensures |r| == 2 * |fs|
  {
    if |fs| == 0 then [] else [fs[0], vs[0]] + Interleave(fs[1..], vs[1..])
  }

  /** The map from each flag to its value. */
  function Options(fs: seq<string>, vs: seq<string>): (m: map<string, string>)
    requires |fs| == |vs|
    ensures forall f :: f in m <==> f in fs
  {
    if |fs| == 0 then map[] else Options(fs[1..], vs[1..])[fs[0] := vs[0]]
  }

  /** Distinct flags, each followed by its value, parse to the map from
      each flag to its value, whatever the values are. */
  lemma {:induction false} ParseInterleave(fs: seq<string>, vs: seq<string>)
    requires |fs| == |vs|
    requires forall k :: 0 <= k < |fs| ==> IsFlag(fs[k])
    requires forall j, k :: 0 <= j < k < |fs| ==> fs[j] != fs[k]
    ensures ParseOptions(Interleave(fs, vs)) == Some(Options(fs, vs))
    decreases |fs|
  {
    if |fs| > 0 {
      var args := Interleave(fs, vs);
      assert args[2..] == Interleave(fs[1..], vs[1..]);
      ParseInterleave(fs[1..], vs[1..]);
      assert fs[0] !in fs[1..];
    }
  }

  const OptionFlags: seq<string> := ["-i", "-d", "-o", "-a", "-x", "-t", "-p"]

  /** The values the pipeline gives its seven options, in flag order. */
  function OptionValues(input: string, stage: string, taxacut: FloatArg, threads: nat, percentId: FloatArg): seq<string>
  {
    [input, stage, stage, "bowtie2", taxacut.text, Decimal(threads), percentId.text]
  }

  /** Read as `flag value` pairs after the subcommand, the argument vector
      gives each of the seven distinct flags -i -d -o -a -x -t -p exactly its
      value, whatever the values are. */
  lemma PipelineOptions(input: string, stage: string, taxacut: FloatArg, threads: nat, percentId: FloatArg)
    requires InUnitRange(taxacut) && threads >= 1 && InUnitRange(percentId)
    ensures ParseOptions(PipelineCommand(input, stage, taxacut, threads, percentId)[2..]) ==
            Some(Options(OptionFlags, OptionValues(input, stage, taxacut, threads, percentId)))
  {
    var cmd := PipelineCommand(input, stage, taxacut, threads, percentId);
    var vs := OptionValues(input, stage, taxacut, threads, percentId);
    InterleaveSeven(OptionFlags, vs);
    assert cmd[2..] == Interleave(OptionFlags, vs);
    ParseInterleave(OptionFlags, vs);
  }

  /** The seven flags are exactly the options the vector sets. */
  lemma PipelineOptionKeys(input: string, stage: string, taxacut: FloatArg, threads: nat, percentId: FloatArg)
    ensures var m := Options(OptionFlags, OptionValues(input, stage, taxacut, threads, percentId));
            m.Keys == {"-i", "-d", "-o", "-a", "-x", "-t", "-p"}
  {
    var fs := OptionFlags;
    OptionsKeysSeven(fs, OptionValues(input, stage, taxacut, threads, percentId));
    assert fs[0] == "-i" && fs[1] == "-d" && fs[2] == "-o" && fs[3] == "-a";
    assert fs[4] == "-x" && fs[5] == "-t" && fs[6] == "-p";
  }

  lemma OptionsKeysSeven(fs: seq<string>, vs: seq<string>)
    requires |fs| == |vs| == 7
    ensures Options(fs, vs).Keys == {fs[0], fs[1], fs[2], fs[3], fs[4], fs[5], fs[6]}
  {
    OptionsSeven(fs, vs);
  }

  /** The option values by flag: the database (-d) and output (-o)
      directories are both the staging directory, the aligner (-a) is
      bowtie2, and -i, -x, -t, -p carry input, taxacut, threads and
      percent_id. */
  lemma PipelineOptionValues(input: string, stage: string, taxacut: FloatArg, threads: nat, percentId: FloatArg)
    ensures var m := Options(OptionFlags, OptionValues(input, stage, taxacut, threads, percentId));
            && m.Keys == {"-i", "-d", "-o", "-a", "-x", "-t", "-p"}
            && m["-i"] == input && m["-d"] == stage && m["-o"] == stage && m["-a"] == "bowtie2"
            && m["-x"] == taxacut.text && m["-t"] == Decimal(threads) && m["-p"] == percentId.text
  {
    var vs := OptionValues(input, stage, taxacut, threads, percentId);
    OptionFlagsDistinct();
    OptionsAt(OptionFlags, vs, 0);
    OptionsAt(OptionFlags, vs, 1);
    OptionsAt(OptionFlags, vs, 2);
    OptionsAt(OptionFlags, vs, 3);
    OptionsAt(OptionFlags, vs, 4);
    OptionsAt(OptionFlags, vs, 5);
    OptionsAt(OptionFlags, vs, 6);
    PipelineOptionKeys(input, stage, taxacut, threads, percentId);
  }

  lemma OptionFlagsDistinct()
    ensures forall k :: 0 <= k < |OptionFlags| ==> IsFlag(OptionFlags[k])
    ensures forall j, k :: 0 <= j < k < |OptionFlags| ==> OptionFlags[j] != OptionFlags[k]
  {
  }

  /** With distinct flags, each flag maps to the value paired with it. */
  lemma {:induction false} OptionsAt(fs: seq<string>, vs: seq<string>, k: nat)
    requires |fs| == |vs| && k < |fs|
    requires forall i, j :: 0 <= i < j < |fs| ==> fs[i] != fs[j]
    ensures Options(fs, vs)[fs[k]] == vs[k]
    decreases k
  {
    if k > 0 {
      OptionsAt(fs[1..], vs[1..], k - 1);
    }
  }

  lemma InterleaveSeven(fs: seq<string>, vs: seq<string>)
    requires |fs| == |vs| == 7
    ensures Interleave(fs, vs) ==
            [fs[0], vs[0], fs[1], vs[1], fs[2], vs[2], fs[3], vs[3], fs[4], vs[4], fs[5], vs[5], fs[6], vs[6]]
  {
    assert Interleave(fs[6..], vs[6..]) == [fs[6], vs[6]] by {
      assert fs[6..][1..] == [];
    }
    assert Interleave(fs[5..], vs[5..]) == [fs[5], vs[5]] + Interleave(fs[6..], vs[6..]) by {
      assert fs[5..][1..] == fs[6..] && vs[5..][1..] == vs[6..];
    }
    assert Interleave(fs[4..], vs[4..]) == [fs[4], vs[4]] + Interleave(fs[5..], vs[5..]) by {
      assert fs[4..][1..] == fs[5..] && vs[4..][1..] == vs[5..];
    }
    assert Interleave(fs[3..], vs[3..]) == [fs[3], vs[3]] + Interleave(fs[4..], vs[4..]) by {
      assert fs[3..][1..] == fs[4..] && vs[3..][1..] == vs[4..];
    }
    assert Interleave(fs[2..], vs[2..]) == [fs[2], vs[2]] + Interleave(fs[3..], vs[3..]) by {
      assert fs[2..][1..] == fs[3..] && vs[2..][1..] == vs[3..];
    }
    assert Interleave(fs[1..], vs[1..]) == [fs[1], vs[1]] + Interleave(fs[2..], vs[2..]) by {
      assert fs[1..][1..] == fs[2..] && vs[1..][1..] == vs[2..];
    }
  }

  lemma OptionsSeven(fs: seq<string>, vs: seq<string>)
    requires |fs| == |vs| == 7
    ensures Options(fs, vs) ==
            map[fs[6] := vs[6]][fs[5] := vs[5]][fs[4] := vs[4]][fs[3] := vs[3]][fs[2] := vs[2]][fs[1] := vs[1]][fs[0] := vs[0]]
  {
    assert Options(fs[6..], vs[6..]) == map[fs[6] := vs[6]] by {
      assert fs[6..][1..] == [];
    }
    assert Options(fs[5..], vs[5..]) == Options(fs[6..], vs[6..])[fs[5] := vs[5]] by {
      assert fs[5..][1..] == fs[6..] && vs[5..][1..] == vs[6..];
    }
    assert Options(fs[4..], vs[4..]) == Options(fs[5..], vs[5..])[fs[4] := vs[4]] by {
      assert fs[4..][1..] == fs[5..] && vs[4..][1..] == vs[5..];
    }
    assert Options(fs[3..], vs[3..]) == Options(fs[4..], vs[4..])[fs[3] := vs[3]] by {
      assert fs[3..][1..] == fs[4..] && vs[3..][1..] == vs[4..];
    }
    assert Options(fs[2..], vs[2..]) == Options(fs[3..], vs[3..])[fs[2] := vs[2]] by {
      assert fs[2..][1..] == fs[3..] && vs[2..][1..] == vs[3..];
    }
    assert Options(fs[1..], vs[1..]) == Options(fs[2..], vs[2..])[fs[1] := vs[1]] by {
      assert fs[1..][1..] == fs[2..] && vs[1..][1..] == vs[2..];
    }
  }

  // ---------------------------------------------------------------------
  // The echoed command line

  /** The two explanatory lines `_run_command` prints first. */
  const Banner: string :=
    "Running external command line application. This may print messages to stdout and/or stderr.\n"
    + "The command being run is below. This command cannot be manually re-run as it will depend on temporary files that no longer exist.\n"

  /** The line naming the command: the arguments joined with single
      spaces, then a blank line. */
  function CommandLine(cmd: seq<string>): string
  {
    "\nCommand: " + Join(cmd, " ") + "\n\n"
  }

  /** What `_run_command` prints before it runs `cmd`. */
  function RunCommandLog(cmd: seq<string>, verbose: bool): string
  {
    if verbose then Banner + CommandLine(cmd) else ""
  }

  lemma EndsWithAppended(a: string, b: string)
    ensures EndsWith(a + b, b)
  {
    assert (a + b)[|a + b| - |b|..] == b;
  }

  /** The printed log ends with the command line, the arguments joined with
      single spaces, then a blank line; nothing is printed when not
      verbose. */
  lemma RunCommandLogEnds(cmd: seq<string>, verbose: bool)
    ensures verbose ==> EndsWith(RunCommandLog(cmd, verbose), "\nCommand: " + Join(cmd, " ") + "\n\n")
    ensures !verbose ==> RunCommandLog(cmd, verbose) == ""
  {
    if verbose {
      EndsWithAppended(Banner, CommandLine(cmd));
    }
  }

  /** The echoed line determines the argument vector when no argument holds
      a space: splitting it on spaces gives the arguments back. */
  lemma EchoRecoversCommand(cmd: seq<string>)
    requires |cmd| >= 1 && forall k :: 0 <= k < |cmd| ==> ' ' !in cmd[k]
    ensures Split(Join(cmd, " "), ' ') == cmd
  {
    SplitJoin(cmd, ' ');
  }

  /** For the pipeline command, it is enough that the input path, the
      staging directory and the two float renderings hold no space. */
  lemma PipelineEchoRecoversCommand(input: string, stage: string, taxacut: FloatArg, threads: nat, percentId: FloatArg)
    requires InUnitRange(taxacut) && threads >= 1 && InUnitRange(percentId)
    requires ' ' !in input && ' ' !in stage && ' ' !in taxacut.text && ' ' !in percentId.text
    ensures var cmd := PipelineCommand(input, stage, taxacut, threads, percentId);
            Split(Join(cmd, " "), ' ') == cmd
  {
    var cmd := PipelineCommand(input, stage, taxacut, threads, percentId);
    assert ' ' !in Decimal(threads);
    EchoRecoversCommand(cmd);
  }

  // ---------------------------------------------------------------------
  // The metadata descriptor

  /** The text written to metadata.yaml. `index` is the value of the
      `bowtie2` entry. */
  function MetadataText(index: string): string
  {
    "general:" + "\n" + "  taxonomy: taxa.tsv" + "\n" + "  fasta: seqs.fasta" + "\n" + "bowtie2: " + index
  }

  /** One line of the YAML subset the descriptor uses. */
  datatype Line = Section(name: string) | Entry(indent: nat, key: string, value: string) | Other

  function LeadingSpaces(line: string): (n: nat)
    ensures n <= |line|
    ensures forall k :: 0 <= k < n ==> line[k] == ' '
    ensures n < |line| ==> line[n] != ' '
  {
    if |line| > 0 && line[0] == ' ' then 1 + LeadingSpaces(line[1..]) else 0
  }

  /** `key:` at column 0 opens a section; `key: value` (at any indentation)
      is an entry; a line without ':' is something else. */
  function ParseLine(line: string): Line
  {
    var n := LeadingSpaces(line);
    var body := line[n..];
    match Find(body, ":")
    case None => Other
    case Some(i) =>
      if n == 0 && i + 1 == |body| then Section(body[..i])
      else
        var rest := body[i + 1..];
        Entry(n, body[..i], if |rest| > 0 && rest[0] == ' ' then rest[1..] else rest)
  }

  /** The entries of a descriptor: a top-level entry under its key, an
      indented one under `section.key`. */
  function ReadLines(lines: seq<string>, section: string): map<string, string>
    decreases |lines|
  {
    if |lines| == 0 then map[]
    else match ParseLine(lines[0])
      case Other => ReadLines(lines[1..], section)
      case Section(name) => ReadLines(lines[1..], name)
      case Entry(indent, key, value) =>
        if indent == 0 then ReadLines(lines[1..], "")[key := value]
        else ReadLines(lines[1..], section)[section + "." + key := value]
  }

  function ReadDescriptor(text: string): map<string, string>
  {
    ReadLines(Split(text, '\n'), "")
  }

  /** How a line is read that has `n` leading spaces, a key without ':'
      and then ": " at index `i`. */
  lemma ParseEntryAt(line: string, n: nat, i: nat)
    requires n < i && i + 1 < |line|
    requires forall k :: 0 <= k < n ==> line[k] == ' '
    requires line[n] != ' ' && ':' !in line[n..i]
    requires line[i] == ':' && line[i + 1] == ' '
    ensures ParseLine(line) == Entry(n, line[n..i], line[i + 2..])
  {
    LeadingSpacesAt(line, n);
    var key, rest := line[n..i], line[i + 1..];
    var body := line[n..];
    assert body == key + [':'] + rest;
    FindCharAfter(key, ':', rest);
    assert Find(body, ":") == Some(|key|);
    assert body[..|key|] == key && body[|key| + 1..] == rest;
    assert rest[1..] == line[i + 2..];
  }

  /** How a line `name + ":"` is read, for a name without ':' that does
      not start with a space. */
  lemma ParseSectionAt(line: string)
    requires |line| >= 2 && line[0] != ' ' && line[|line| - 1] == ':' && ':' !in line[..|line| - 1]
    ensures ParseLine(line) == Section(line[..|line| - 1])
  {
    LeadingSpacesAt(line, 0);
    assert line[0..] == line;
    assert line == line[..|line| - 1] + [':'] + [];
    FindCharAfter(line[..|line| - 1], ':', []);
  }

  lemma {:induction false} LeadingSpacesAt(line: string, n: nat)
    requires n < |line| && line[n] != ' '
    requires forall k :: 0 <= k < n ==> line[k] == ' '
    ensures LeadingSpaces(line) == n
    decreases n
  {
    if n > 0 {
      LeadingSpacesAt(line[1..], n - 1);
    }
  }

  lemma JoinFour(a: string, b: string, c: string, d: string, sep: string)
    ensures Join([a, b, c, d], sep) == a + sep + b + sep + c + sep + d
  {
    var parts := [a, b, c, d];
    assert Join([c, d], sep) == c + sep + d by {
      assert [c, d][1..] == [d];
    }
    assert Join([b, c, d], sep) == b + sep + (c + sep + d) by {
      assert [b, c, d][1..] == [c, d];
    }
    assert Join(parts, sep) == a + sep + (b + sep + (c + sep + d)) by {
      assert parts[1..] == [b, c, d];
    }
  }

  lemma SplitFour(text: string, a: string, b: string, c: string, d: string)
    requires text == a + "\n" + b + "\n" + c + "\n" + d
    requires '\n' !in a && '\n' !in b && '\n' !in c && '\n' !in d
    ensures Split(text, '\n') == [a, b, c, d]
  {
    JoinFour(a, b, c, d, "\n");
    SplitJoin([a, b, c, d], '\n');
  }

  /** The descriptor is four lines when the index holds no newline. */
  lemma MetadataLines(index: string)
    requires '\n' !in index
    ensures Split(MetadataText(index), '\n') ==
            ["general:", "  taxonomy: taxa.tsv", "  fasta: seqs.fasta", "bowtie2: " + index]
  {
    SplitFour(MetadataText(index), "general:", "  taxonomy: taxa.tsv", "  fasta: seqs.fasta", "bowtie2: " + index);
  }

  /** Read back by `ReadDescriptor`, the descriptor names the taxonomy file
      taxa.tsv, the fasta file seqs.fasta and the bowtie2 index `index`, and
      nothing else. The reader takes each value verbatim after `key: `, so
      `index` comes back as it was written whatever it holds (short of a
      newline); a YAML reader would read some such values differently (an
      empty value or one starting with '#' as null, one holding ": " as an
      error). */
  lemma MetadataEntries(index: string)
    requires '\n' !in index
    ensures ReadDescriptor(MetadataText(index)) ==
            map["general.taxonomy" := "taxa.tsv", "general.fasta" := "seqs.fasta", "bowtie2" := index]
  {
    MetadataLines(index);
    DescriptorOfLines(MetadataText(index), index, "general:", "  taxonomy: taxa.tsv", "  fasta: seqs.fasta", "bowtie2: " + index);
    DescriptorMap(ReadDescriptor(MetadataText(index)), index);
  }

  /** The entries read from the descriptor, as one map. */
  lemma DescriptorMap(m: map<string, string>, index: string)
    requires m == map["bowtie2" := index]["general" + "." + "fasta" := "seqs.fasta"]["general" + "." + "taxonomy" := "taxa.tsv"]
    ensures m == map["general.taxonomy" := "taxa.tsv", "general.fasta" := "seqs.fasta", "bowtie2" := index]
  {
    assert "general" + "." + "fasta" == "general.fasta";
    assert "general" + "." + "taxonomy" == "general.taxonomy";
    KeysDistinct("general.taxonomy", "general.fasta", "bowtie2");
    MapOfThree("general.taxonomy", "general.fasta", "bowtie2", "taxa.tsv", "seqs.fasta", index);
  }

  /** How the four descriptor lines are read, before the section name is
      glued onto its keys. */
  lemma DescriptorOfLines(text: string, index: string, l0: string, l1: string, l2: string, l3: string)
    requires Split(text, '\n') == [l0, l1, l2, l3]
    requires l0 == "general:" && l1 == "  taxonomy: taxa.tsv" && l2 == "  fasta: seqs.fasta" && l3 == "bowtie2: " + index
    ensures ReadDescriptor(text) ==
            map["bowtie2" := index]["general" + "." + "fasta" := "seqs.fasta"]["general" + "." + "taxonomy" := "taxa.tsv"]
  {
    ParseGeneralLine(l0);
    ParseTaxonomyLine(l1);
    ParseFastaLine(l2);
    ParseIndexLine(index);
    ReadFour(text, l0, l1, l2, l3, "general", "taxonomy", "taxa.tsv", "fasta", "seqs.fasta", "bowtie2", index);
  }

  lemma KeysDistinct(a: string, b: string, c: string)
    requires a == "general.taxonomy" && b == "general.fasta" && c == "bowtie2"
    ensures a != b && a != c && b != c
  {
    assert a[8] != b[8];
    assert a[0] != c[0];
    assert b[0] != c[0];
  }

  /** Three updates with distinct keys make the three-entry map. */
  lemma MapOfThree<K, V>(a: K, b: K, c: K, va: V, vb: V, vc: V)
    requires a != b && a != c && b != c
    ensures map[c := vc][b := vb][a := va] == map[a := va, b := vb, c := vc]
  {
  }

  lemma ParseGeneralLine(line: string)
    requires line == "general:"
    ensures ParseLine(line) == Section("general")
  {
    ParseSectionAt(line);
  }

  lemma ParseTaxonomyLine(line: string)
    requires line == "  taxonomy: taxa.tsv"
    ensures ParseLine(line) == Entry(2, "taxonomy", "taxa.tsv")
  {
    assert line[0] == ' ' && line[1] == ' ' && line[2] == 't';
    assert line[2..10] == "taxonomy" && line[10] == ':' && line[11] == ' ';
    assert line[12..] == "taxa.tsv";
    ParseEntryAt(line, 2, 10);
  }

  lemma ParseFastaLine(line: string)
    requires line == "  fasta: seqs.fasta"
    ensures ParseLine(line) == Entry(2, "fasta", "seqs.fasta")
  {
    assert line[0] == ' ' && line[1] == ' ' && line[2] == 'f';
    assert line[2..7] == "fasta" && line[7] == ':' && line[8] == ' ';
    assert line[9..] == "seqs.fasta";
    ParseEntryAt(line, 2, 7);
  }

  lemma ParseIndexLine(index: string)
    ensures ParseLine("bowtie2: " + index) == Entry(0, "bowtie2", index)
  {
    var l3 := "bowtie2: " + index;
    assert l3[..7] == "bowtie2" && l3[7] == ':' && l3[8] == ' ';
    ParseEntryAt(l3, 0, 7);
    assert l3[9..] == index;
  }

  /** A section line followed by two indented entries and a top-level one. */
  lemma ReadFour(text: string, l0: string, l1: string, l2: string, l3: string,
                 sec: string, k1: string, v1: string, k2: string, v2: string, k3: string, v3: string)
    requires Split(text, '\n') == [l0, l1, l2, l3]
    requires ParseLine(l0) == Section(sec)
    requires ParseLine(l1) == Entry(2, k1, v1)
    requires ParseLine(l2) == Entry(2, k2, v2)
    requires ParseLine(l3) == Entry(0, k3, v3)
    ensures ReadDescriptor(text) == map[k3 := v3][sec + "." + k2 := v2][sec + "." + k1 := v1]
  {
    var lines := [l0, l1, l2, l3];
    ReadEntryStep(lines[3..], sec, 0, k3, v3);
    assert lines[3..][1..] == [];
    ReadEntryStep(lines[2..], sec, 2, k2, v2);
    assert lines[2..][1..] == lines[3..];
    ReadEntryStep(lines[1..], sec, 2, k1, v1);
    assert lines[1..][1..] == lines[2..];
  }

  /** Reading an entry line: a top-level key is stored as it is, an
      indented one under the current section. */
  lemma ReadEntryStep(lines: seq<string>, section: string, n: nat, k: string, v: string)
    requires |lines| > 0 && ParseLine(lines[0]) == Entry(n, k, v)
    ensures ReadLines(lines, section) ==
            if n == 0 then ReadLines(lines[1..], "")[k := v] else ReadLines(lines[1..], section)[section + "." + k := v]
  {
  }

  // ---------------------------------------------------------------------
  // Staging and output tables

  /** One filesystem action of the staging phase. */
  datatype Step = Copy(source: string, dest: string) | Write(path: string, text: string)

  /** The staging actions, in order: copy the reference sequences, copy the
      reference taxonomy, write the descriptor. */
  function StagingSteps(refseqs: string, taxonomy: string, index: string, stage: string): seq<Step>
  {
    [Copy(refseqs, PathJoin(stage, FastaName)),
     Copy(taxonomy, PathJoin(stage, TaxonomyName)),
     Write(PathJoin(stage, MetadataName), MetadataText(index))]
  }

  /** The outputs of `minipipe`, in declaration order. */
  datatype Output = TaxaTable | KeggTable | ModuleTable | PathwayTable

  const Outputs: seq<Output> := [TaxaTable, KeggTable, ModuleTable, PathwayTable]

  /** The tables the pipeline leaves in the staging directory, in the order
      the source lists them. */
  const TableNames: seq<string> :=
    ["taxatable.strain.txt", "taxatable.strain.kegg.txt",
     "taxatable.strain.kegg.modules.txt", "taxatable.strain.kegg.pathways.txt"]

  /** Each output paired with the path of the table to import it from. */
  function Results(stage: string): seq<(Output, string)>
  {
    seq(|TableNames|, k requires 0 <= k < |TableNames| => (Outputs[k], PathJoin(stage, TableNames[k])))
  }

  /** The table names are plain file names, and distinct. */
  lemma TableNamesShape()
    ensures forall k :: 0 <= k < |TableNames| ==> '/' !in TableNames[k]
    ensures forall j, k :: 0 <= j < k < |TableNames| ==> TableNames[j] != TableNames[k]
  {
    assert |TableNames[0]| == 20 && |TableNames[1]| == 25 && |TableNames[2]| == 33 && |TableNames[3]| == 34;
  }

  /** Four table paths are given, one per output, in the order strain, kegg,
      kegg.modules, kegg.pathways; each lies in the staging directory under
      its own name and no two outputs share a file. */
  lemma ResultsOnePerOutput(stage: string)
    ensures |Results(stage)| == 4
    ensures forall k :: 0 <= k < 4 ==> Results(stage)[k].0 == Outputs[k]
    ensures forall k :: 0 <= k < 4 ==> BaseName(Results(stage)[k].1) == TableNames[k]
    ensures forall j, k :: 0 <= j < k < 4 ==> Results(stage)[j].0 != Results(stage)[k].0
    ensures forall j, k :: 0 <= j < k < 4 ==> Results(stage)[j].1 != Results(stage)[k].1
  {
    var r := Results(stage);
    TableNamesShape();
    forall k | 0 <= k < 4
      ensures BaseName(r[k].1) == TableNames[k]
    {
      BaseNameOfJoin(stage, TableNames[k]);
    }
    forall j, k | 0 <= j < k < 4
      ensures r[j].1 != r[k].1
    {
      JoinDistinct(stage, TableNames[j], TableNames[k]);
    }
  }

  /** What one `minipipe` call does, in order. */
  datatype Invocation = Invocation(staging: seq<Step>, command: seq<string>, log: string, results: seq<(Output, string)>)

  /** `minipipe`: stage the database into `stage`, echo and run the
      pipeline command, and give the paths of the four tables to read.
      `index` is the value written as the descriptor's bowtie2 entry. The
      source reads the tables lazily, after the staging directory is gone;
      the model gives only their paths. */
  function Minipipe(input: string, refseqs: string, taxonomy: string, index: string, stage: string,
                    taxacut: FloatArg, threads: nat, percentId: FloatArg): Invocation
    requires InUnitRange(taxacut) && threads >= 1 && InUnitRange(percentId)
  {
    var cmd := PipelineCommand(input, stage, taxacut, threads, percentId);
    Invocation(StagingSteps(refseqs, taxonomy, index, stage), cmd, RunCommandLog(cmd, true), Results(stage))
  }

  /** The three staged file names are plain names, and distinct. */
  lemma StagedNamesShape()
    ensures '/' !in FastaName && '/' !in TaxonomyName && '/' !in MetadataName
    ensures FastaName != TaxonomyName && FastaName != MetadataName && TaxonomyName != MetadataName
  {
    assert |FastaName| == 10 && |TaxonomyName| == 8 && |MetadataName| == 13;
  }

  /** A file directly inside `dir`. */
  predicate InDir(path: string, dir: string)
  {
    path == PathJoin(dir, BaseName(path))
  }

  /** A database layout the pipeline can read: the reference sequences and
      the taxonomy are copied, the descriptor is written, all three lie in
      `dir` under distinct paths, and the descriptor names the two copies by
      their file names and the bowtie2 index by `index`. */
  predicate StagedLayout(steps: seq<Step>, refseqs: string, taxonomy: string, index: string, dir: string)
  {
    && |steps| == 3 && steps[0].Copy? && steps[1].Copy? && steps[2].Write?
    && steps[0].source == refseqs && steps[1].source == taxonomy
    && InDir(steps[0].dest, dir) && InDir(steps[1].dest, dir) && InDir(steps[2].path, dir)
    && steps[0].dest != steps[1].dest && steps[0].dest != steps[2].path && steps[1].dest != steps[2].path
    && ReadDescriptor(steps[2].text) ==
       map["general.taxonomy" := BaseName(steps[1].dest), "general.fasta" := BaseName(steps[0].dest), "bowtie2" := index]
  }

  /** The staging phase builds such a layout in the staging directory. */
  lemma StagingConsistent(refseqs: string, taxonomy: string, index: string, stage: string)
    requires '\n' !in index
    ensures StagedLayout(StagingSteps(refseqs, taxonomy, index, stage), refseqs, taxonomy, index, stage)
  {
    StagedNamesShape();
    BaseNameOfJoin(stage, FastaName);
    BaseNameOfJoin(stage, TaxonomyName);
    BaseNameOfJoin(stage, MetadataName);
    JoinDistinct(stage, FastaName, TaxonomyName);
    JoinDistinct(stage, FastaName, MetadataName);
    JoinDistinct(stage, TaxonomyName, MetadataName);
    MetadataEntries(index);
  }

  /** The pipeline command, read as options, names its input and gives the
      staging directory as both database and output directory. */
  lemma CommandDirectories(input: string, stage: string, taxacut: FloatArg, threads: nat, percentId: FloatArg)
    requires InUnitRange(taxacut) && threads >= 1 && InUnitRange(percentId)
    ensures var opts := ParseOptions(PipelineCommand(input, stage, taxacut, threads, percentId)[2..]);
            && opts.Some? && "-d" in opts.value && "-o" in opts.value && "-i" in opts.value
            && opts.value["-i"] == input && opts.value["-d"] == stage && opts.value["-o"] == stage
  {
    PipelineOptions(input, stage, taxacut, threads, percentId);
    PipelineOptionValues(input, stage, taxacut, threads, percentId);
  }

  /** One `minipipe` call hangs together: the database is staged in the
      directory the pipeline is given as its database (-d) and its output
      (-o) directory, the paths of the four tables to read lie in that
      output directory, one per output, and the command line is echoed
      before it runs. */
  lemma MinipipeConsistent(input: string, refseqs: string, taxonomy: string, index: string, stage: string,
                           taxacut: FloatArg, threads: nat, percentId: FloatArg)
    requires InUnitRange(taxacut) && threads >= 1 && InUnitRange(percentId)
    requires '\n' !in index
    ensures var inv := Minipipe(input, refseqs, taxonomy, index, stage, taxacut, threads, percentId);
            var opts := ParseOptions(inv.command[2..]);
            && opts.Some? && "-d" in opts.value && "-o" in opts.value && "-i" in opts.value
            && opts.value["-i"] == input
            && StagedLayout(inv.staging, refseqs, taxonomy, index, opts.value["-d"])
            && opts.value["-o"] == opts.value["-d"]
            && |inv.results| == 4
            && (forall k :: 0 <= k < 4 ==> inv.results[k] == (Outputs[k], PathJoin(opts.value["-o"], TableNames[k])))
            && EndsWith(inv.log, CommandLine(inv.command))
  {
    var inv := Minipipe(input, refseqs, taxonomy, index, stage, taxacut, threads, percentId);
    StagingConsistent(refseqs, taxonomy, index, stage);
    CommandDirectories(input, stage, taxacut, threads, percentId);
    EndsWithAppended(Banner, CommandLine(inv.command));
  }
}
