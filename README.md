# q2-shogun core, modelled in Dafny

q2-shogun is a QIIME 2 plugin that wraps the SHOGUN metagenomic profiler.
This project models the two parts of it that decide anything on their own.
Everything else in the plugin is glue to the framework, the filesystem and
a subprocess.

* **The bowtie2 index directory format** (`formats.dfy`, module
  `Bowtie2Formats`). An index is a directory holding six member files
  (`idx1`, `idx2`, `ref3`, `ref4`, `rev1`, `rev2`), each recognised by a
  regular expression on its file name. The per-file validation accepts
  everything. `get_name` derives the index name from the `idx1` file name.
  - Each pattern is modelled as a full-match predicate, `Matches`.
  - Python's `.+` is modelled as a non-empty run without newlines.
  - The lookbehind `(?<!\.rev)` says the stem does not end in `.rev`.
  - The model proves that the six patterns are pairwise disjoint.
  - It proves that classification is exact, and which stems give a
    complete index.
  - It works out what `rsplit('.1.bt2')[0]` really returns (see
    "## Findings").
* **The deterministic parts of `minipipe`** (`shogun.dfy`, module `Shogun`):
  - the staging steps, i.e. which files are copied or written and where;
  - the text of `metadata.yaml`, read back by a small YAML-subset reader;
  - the `shogun pipeline` argument vector, read back by a flag/value
    option parser;
  - the banner `_run_command` prints, whose command line splits back into
    the argument vector;
  - the paths of the four output tables to read from the output
    directory, one per declared output.

  The parameter ranges the plugin registers are taken as preconditions:
  - `taxacut` and `percent_id` must lie in the closed range [0.0, 1.0];
  - `threads` must be at least 1.

  These ranges are the preconditions of `PipelineCommand` and `Minipipe`.
  They mirror the registration. Only `threads >= 1` bears on the argument
  vector: the thread count is written without a leading zero. The float
  ranges constrain the values, not the texts the vector carries.
* **Python string operations** (`text.dfy`, module `Text`). `find`,
  `rfind`, `rsplit` (following CPython's algorithm), `split` and `join` are
  defined on `seq<char>`, with the lemmas the other two modules rely on.

`Minipipe` is a pure function from the parameters and the staging
directory to an `Invocation`. The `Invocation` holds the ordered staging
steps, the argument vector, the printed log and the paths of the tables
to read.

Two parts of the source are turned into parameters of the model:

* the temporary directory, as `stage`;
* the value written as the descriptor's `bowtie2` entry, as `index`. The
  source refers there to a name, `bowtieindex`, that it never defines.

## Model

| member | source | states |
|---|---|---|
| Bowtie2Formats.Matches | q2_shogun/_formats.py:22-27 | full match of member `m`'s pattern; see MatchesStem, MatchesSplit, Idx1Idx2Shape, RefAcceptsAnyStem, RevNamesGoToRev and PatternsDisjoint |
| Bowtie2Formats.ContentValid | q2_shogun/_formats.py:13-18 | `_validate_`, which accepts every file; see OnlyNamesDecide |
| Bowtie2Formats.MemberAccepts | q2_shogun/_formats.py:12-27 | a file is taken as member `m` when its name matches and its content validates; see OnlyNamesDecide |
| Bowtie2Formats.GetName | q2_shogun/_formats.py:29-31 | `get_name` on the idx1 file name; see GetNameBeforeFirst, GetNamePrefix, GetNameOfIdx1Member, GetNameOfStem and GetNameTruncatesStem |
| Bowtie2Formats.IndexName | q2_shogun/_formats.py:31 | the corrected `rsplit('.1.bt2', 1)[0]`; see IndexNameOfStem and IndexNameOfIndexFiles |
| Text.RSplit | q2_shogun/_formats.py:31 | `str.rsplit(sep)` as CPython computes it; see RSplitHead |
| Text.Join | q2_shogun/_shogun.py:25 | `sep.join(parts)`; see SplitJoin and RunCommandLogEnds |
| Text.Split | q2_shogun/_shogun.py:25 | `str.split(c)`, the reader that takes the echoed line back apart; see SplitJoin and EchoRecoversCommand |
| Shogun.PathJoin | q2_shogun/_shogun.py:34-37 | POSIX `os.path.join(dir, name)`; see BaseNameOfJoin and JoinDistinct |
| Shogun.BaseName | q2_shogun/_shogun.py:34-37 | POSIX `os.path.basename`, the partner of `PathJoin`; see BaseNameOfJoin |
| Shogun.RunCommandLog | q2_shogun/_shogun.py:17-25 | what `_run_command` prints; see RunCommandLogEnds, EchoRecoversCommand and PipelineEchoRecoversCommand |
| Shogun.MetadataText | q2_shogun/_shogun.py:39-42 | the text written to metadata.yaml; see MetadataLines and MetadataEntries |
| Shogun.StagingSteps | q2_shogun/_shogun.py:34-42 | the two copies and the descriptor write, in order; see StagingConsistent |
| Shogun.Results | q2_shogun/_shogun.py:49-54 | each output paired with the path of its table; see ResultsOnePerOutput |
| Shogun.Minipipe | q2_shogun/_shogun.py:29-54 | one `minipipe` call as staging steps, command, log and table paths; see MinipipeConsistent |
| Bowtie2Formats.Classify | q2_shogun/_formats.py:21-27 | the member returned matches its pattern; when none is returned, no member matches |
| Bowtie2Formats.MatchesStem | q2_shogun/_formats.py:22-27 | `p + tail(m)` matches member `m` exactly when `m` accepts the stem `p` |
| Bowtie2Formats.MatchesSplit | q2_shogun/_formats.py:22-27 | every match of a member is an accepted stem followed by that member's tail |
| Bowtie2Formats.Idx1Idx2Shape | q2_shogun/_formats.py:22-23 | idx1/idx2 accept `p + ".1.bt2"`/`p + ".2.bt2"` iff `p` is non-empty, newline-free and does not end in ".rev" |
| Bowtie2Formats.RefAcceptsAnyStem | q2_shogun/_formats.py:24-25 | ref3/ref4 accept every non-empty newline-free stem, including stems ending in ".rev" |
| Bowtie2Formats.RevNamesGoToRev | q2_shogun/_formats.py:22-27 | a name `x + ".rev.N.bt2"` never matches idxN, and matches revN iff `x` is non-empty and newline-free |
| Bowtie2Formats.RevMatchExcludesIdx | q2_shogun/_formats.py:22-27 | a name that matches rev1 (rev2) does not match idx1 (idx2) |
| Bowtie2Formats.TailsDisjoint | q2_shogun/_formats.py:22-27 | apart from an idx member and its rev partner, no name ends in the tails of two different members |
| Bowtie2Formats.PatternsDisjoint | q2_shogun/_formats.py:22-27 | no file name matches two different members |
| Bowtie2Formats.ClassifyExact | q2_shogun/_formats.py:22-27 | a name is classified as `m` if and only if it matches `m`'s pattern |
| Bowtie2Formats.IndexFilesClassified | q2_shogun/_formats.py:22-27 | the six files of stem `p` are each classified as their own member iff `p` is a stem idx1 accepts |
| Bowtie2Formats.OnlyNamesDecide | q2_shogun/_formats.py:12-18 | since per-file validation passes every file, a file is accepted as a member exactly when its name matches |
| Bowtie2Formats.Idx1SuffixNoSelfOverlap | q2_shogun/_formats.py:31 | ".1.bt2" has no proper suffix that is also a prefix, so two of its occurrences never overlap |
| Bowtie2Formats.GetNameBeforeFirst | q2_shogun/_formats.py:29-31 | `get_name` returns the text before the first ".1.bt2", or the whole name if there is none |
| Bowtie2Formats.GetNamePrefix | q2_shogun/_formats.py:29-31 | the result followed by ".1.bt2" begins the file name, and the result holds no ".1.bt2" |
| Bowtie2Formats.GetNameOfIdx1Member | q2_shogun/_formats.py:22-31 | for every idx1 file name, the result followed by ".1.bt2" begins the name |
| Bowtie2Formats.GetNameOfStem | q2_shogun/_formats.py:29-31 | `get_name(p + ".1.bt2") == p` iff `p` holds no ".1.bt2"; for an idx1 match the name is then non-empty |
| Bowtie2Formats.IndexNameOfStem | q2_shogun/_formats.py:29-31 | the corrected name extraction returns the stem of every name ending in ".1.bt2" |
| Bowtie2Formats.IndexNameOfIndexFiles | q2_shogun/_formats.py:22-31 | for every accepted stem, all six files classify as their members and the corrected name of the idx1 file is the stem |
| Bowtie2Formats.GetNameTruncatesStem | q2_shogun/_formats.py:22-31 | the index of stem "a.1.bt2" is complete, yet `get_name` of its idx1 file returns "a"; the index of stem ".1.bt2" is complete, yet `get_name` returns the empty name |
| Bowtie2Formats.GetNameCutsStem | q2_shogun/_formats.py:22-31 | all six files of stem "a.1.bt2" classify as their members, and `get_name` of the idx1 file is "a" |
| Bowtie2Formats.GetNameEmptiesStem | q2_shogun/_formats.py:22-31 | all six files of stem ".1.bt2" classify as their members, and `get_name` of the idx1 file is "" |
| Text.RSplitHead | q2_shogun/_formats.py:31 | for a separator without self-overlap, the first piece of `rsplit` is the text before the separator's leftmost occurrence |
| Text.SplitJoin | q2_shogun/_shogun.py:25 | splitting `c.join(parts)` on `c` gives `parts` back when no part contains `c` |
| Shogun.BaseNameOfJoin | q2_shogun/_shogun.py:34-37 | the base name of `os.path.join(dir, name)` is `name` for every slash-free name |
| Shogun.JoinDistinct | q2_shogun/_shogun.py:34-37 | distinct slash-free names joined onto one directory give distinct paths |
| Shogun.StagedNamesShape | q2_shogun/_shogun.py:34-37 | seqs.fasta, taxa.tsv and metadata.yaml are slash-free and pairwise distinct |
| Shogun.Decimal | q2_shogun/_shogun.py:45-46 | `str(threads)` is non-empty and all digits, with a leading '0' only for zero |
| Shogun.DecimalRoundTrip | q2_shogun/_shogun.py:45-46 | the digits written for the thread count denote the thread count |
| Shogun.PipelineCommand | q2_shogun/_shogun.py:45-46 | under the registered parameter ranges, the vector has 16 elements, starts `shogun pipeline`, and has a flag at every even index from 2 to 14; the thread count after `-t` has no leading zero |
| Shogun.ParseInterleave | q2_shogun/_shogun.py:45-46 | distinct flags, each followed by its value, parse to the map from each flag to its value, whatever the values are |
| Shogun.PipelineOptions | q2_shogun/_shogun.py:45-46 | after the subcommand, the vector parses as flag/value pairs to the map from the seven flags to their values |
| Shogun.PipelineOptionKeys | q2_shogun/_shogun.py:45-46 | the options set are exactly -i -d -o -a -x -t -p |
| Shogun.CommandDirectories | q2_shogun/_shogun.py:45-46 | the command, read as options, has -i the input and -d and -o both the staging directory |
| Shogun.PipelineOptionValues | q2_shogun/_shogun.py:45-46 | -d and -o are both the staging directory, -a is bowtie2, and -i/-x/-t/-p carry input, taxacut, threads and percent_id |
| Shogun.RunCommandLogEnds | q2_shogun/_shogun.py:17-25 | when verbose, the printed text ends with "\nCommand: ", the space-joined arguments and a blank line; nothing is printed otherwise |
| Shogun.EchoRecoversCommand | q2_shogun/_shogun.py:24-25 | the echoed command line splits on spaces back into the argument vector when no argument contains a space |
| Shogun.PipelineEchoRecoversCommand | q2_shogun/_shogun.py:24-46 | for the pipeline vector it is enough that the input path, the staging directory and the two float texts hold no space |
| Shogun.MetadataLines | q2_shogun/_shogun.py:39-42 | the descriptor is exactly four lines when the index value holds no newline |
| Shogun.DescriptorOfLines | q2_shogun/_shogun.py:39-42 | the four descriptor lines read as: two entries under section `general`, then a top-level `bowtie2` entry |
| Shogun.MetadataEntries | q2_shogun/_shogun.py:39-42 | read back by the model's reader, which takes each value verbatim, the descriptor maps general.taxonomy to taxa.tsv, general.fasta to seqs.fasta and bowtie2 to the index, and has no other entries |
| Shogun.StagingConsistent | q2_shogun/_shogun.py:33-42 | staging copies refseqs and the taxonomy and writes the descriptor, as three distinct files directly in the staging directory; the descriptor names the two copies by their file names |
| Shogun.TableNamesShape | q2_shogun/_shogun.py:50-53 | the four table names are slash-free and pairwise distinct |
| Shogun.ResultsOnePerOutput | q2_shogun/_shogun.py:49-54 | four table paths are given, one per output, in the order taxa, kegg, module, pathway; each has its own name and no two outputs share a file |
| Shogun.MinipipeConsistent | q2_shogun/_shogun.py:29-54 | the database is staged in the directory given as -d; -o equals -d; the paths of the four tables to read lie in the -o directory; the log ends with the echoed command line |

## Left out

- Running `shogun` itself (`subprocess.run(cmd, check=True)`), including the error raised on a non-zero exit status. The model stops at the argument vector.
- The filesystem: `copyfile`, the write of `metadata.yaml`, and the temporary directory with its removal. The model lists these as ordered `Step` values and does not carry them out.
- `import_table` and the biom/QIIME 2 conversion of each table. The model stops at the table paths.
- Shogun.Minipipe: the source returns a generator expression from inside the `with` block that owns the temporary directory. Only the list of table names is built right away. The `return` leaves the `with` block, which removes the directory, and only then, as the caller iterates, does any path join and `import_table` run. So the tables would be read after the staging directory is gone, with any temporary-directory object. The model gives the paths of the tables to read and does not model when the reads happen.
- Shogun.StagingSteps: the source calls `copyfile(str(reference_taxonomy), ...)` on a `pd.Series`. `str` of a Series is its printed form, not a path. The model's `Copy(taxonomy, ...)` takes `taxonomy` as the source path the evidently intended copy needs.
- Shogun.PipelineCommand: the source puts `input`, a `DNAFASTAFormat` object, into the vector unconverted. The model takes `input` as the path string that `subprocess.run` needs.
- Bowtie2Formats.IndexFiles: `Bowtie2IndexDirFmt` never checks that the six files share one stem. The files `a.1.bt2`, `b.2.bt2`, `c.3.bt2`, `d.4.bt2`, `e.rev.1.bt2` and `f.rev.2.bt2` are each classified as their own member. The model proves facts about indexes with a shared stem (`IndexFilesClassified`, `IndexNameOfIndexFiles`) but does not claim the format enforces one.
- The framework's handling of `DirectoryFormat`: listing the directory, requiring exactly one file per member, and path handling. A pattern is modelled as a full match of the file name relative to the index directory.
- Bowtie2Formats.GetName: the source computes its argument as `str(self.idx1.path_maker().relative_to(self.path))`. What `path_maker()` returns for a member declared by a regular expression is the framework's behaviour, and the framework is not part of this model. The model assumes `filename` is the name, relative to the index directory, of the idx1 file actually present. If the framework instead returned a path built from the pattern text itself, `get_name` would return a piece of that text and not a stem; the model does not capture that case.
- Floating point: `taxacut` and `percent_id` are a `FloatArg`, a real value for the range check plus the text the command line carries. Python's float-to-text rendering is not modelled.
- Shogun.PipelineCommand: the source puts the float and the int into the vector unconverted. `" ".join(cmd)` would then raise a type error. As written, the source also uses `os` without importing it, annotates `minipipe`'s parameters with the undefined names `DNAFASTAFormat`, `pd` and `bowtieindex` (so defining the function already raises a name error), and passes a `NamedTemporaryFile` object where a directory path is needed. The model takes the directory as a string and the numbers as their text, as the evidently intended command needs. These defects are not modelled.
- The `bowtie2` entry of the descriptor refers to an undefined name, so its value is the parameter `index`. The code copies nothing from the index artifact into the staging directory, so the model does not relate `index` to the staged files.
- The staged fasta file is named `seqs.fasta`, as the code writes it. A layout that names it `refseqs.fna` and copies the six index files into a `bowtie2/` subdirectory is not what the code does, and the model follows the code.
- Shogun.Minipipe: the defaults `taxacut=0.8`, `threads=1` and `percent_id=0.98` are not modelled as defaults; every call of `Minipipe` names all parameters. All three defaults lie within the registered ranges, so the preconditions admit them.
- The `taxacut` parameter description calls the range (0.0, 1.0]. The registered range is `Range(0.0, 1.0, inclusive_end=True)` with an inclusive start, and the model follows the registration.
- Plugin registration and metadata (`register_function`, the descriptions, the output names), `plugin_setup.py`, `setup.py`, `__init__.py` and the tests. These are declarations to the framework and hold no logic. The four outputs appear only as the `Output` datatype.
- Shogun.MetadataEntries: the YAML reader `ReadDescriptor` covers only the subset the descriptor uses: sections, `key: value` entries, and one level of indentation. It takes each value verbatim after `key: `. So `MetadataEntries` returns `index` unchanged for any newline-free value. A YAML reader would read some such values differently: an empty value or one starting with `#` as null, a value holding `": "` as an error, and a leading space dropped. The model does not say which index values the tool reads back as written.

## Findings

| source | as written | input that shows it | evidently intended | confidence | as-written member | corrected member |
|---|---|---|---|---|---|---|
| q2_shogun/_formats.py:31 | `filename.rsplit('.1.bt2')[0]` splits at every occurrence of ".1.bt2", so its first piece is the text before the FIRST occurrence | an index with stem `a.1.bt2`: all six patterns accept its files, and the idx1 file `a.1.bt2.1.bt2` gives the name `a`; with stem `.1.bt2` the idx1 file `.1.bt2.1.bt2` is accepted and gives the empty name | the stem of the idx1 file, i.e. the text before the last ".1.bt2" (`rsplit('.1.bt2', 1)[0]`) | low — stems containing ".1.bt2" are unusual; not executed | Bowtie2Formats.GetNameTruncatesStem | Bowtie2Formats.IndexNameOfIndexFiles |
