# FlyBase at NCBI: a Dafny model of the genome database connector

GenHub fetches genome data sets and cleans them into a common layout. Its `FlyBaseDB`
connector (`genhub/ncbi_flybase.py`) serves the Drosophila melanogaster genome as NCBI
publishes it from FlyBase release 5.48. It does the following:

- checks its configuration;
- names the genome sequence file;
- builds the download URLs of the genome (`.fna`), the annotation (`.gff`) and the
  proteins (`.faa`);
- merges the per-chromosome annotation downloads with one `gt gff3` command;
- rewrites NCBI's FASTA headers to bare accessions;
- runs the annotation cleanup pipeline, filters its diagnostics and removes the
  exclusion file.

The project models those operations and proves what they promise.

Modules, one file each:

- `Wrappers` (`wrappers.dfy`): `Option` and `Result`.
- `Text` (`text.dfy`): the pieces of Python's string and path library the connector uses.
  - `sep.join` and `str.split` for one character, with their round trips.
  - `os.path.basename`.
  - Iterating over a text stream line by line: lines keep their `'\n'`, and writing the
    lines back out gives the text back.
  - Splitting the text `" | ".join(stages)` at each `'|'`.
- `Substitution` (`substitution.dfy`): Python's `re.sub(pattern, '>\g<2>', text)` as a
  left-to-right scan.
  - The pattern is a parameter: a function that finds a match at the start of a text.
  - Every leftmost, non-overlapping match is replaced, and the scan resumes after it.
  - The scan copies text without matches, never lengthens a text, and emits only
    characters of its input.
- `HeaderRewriter` (`header_rewriter.dfy`): the pattern of `format_fasta`,
  `>gi\|\d+\|(ref|gb)\|([^\|]+)\S+`, with the regex engine's backtracking written out.
  - `PrefixEnd` finds the fixed part `>gi|<digits>|ref|` or `>gi|<digits>|gb|`.
  - `Backtrack` gives characters back from the greedy `[^\|]+` until `\S+` can start.
  - The proofs cover idempotence, pass-through of match-free text, preservation of line
    structure, and the exact output for NCBI's header layout.
- `FastaFormatter` (`fasta.dfy`): the line loop of `format_fasta`, proved equal to a
  function of the input stream, and the properties of that function. The constructor
  aliases `format_gdna` and `format_prot` to `format_fasta`, so this one method serves
  both.
- `FlyBase` (`connector.dfy`): the connector.
  - The constructor's checks.
  - `specbase`, as `SpecBase`.
  - `gdnafilename`.
  - The URL loops, their inverse, and the expected values from the connector's tests.
- `Annotation` (`annotation.dfy`): `download_gff3` and `format_gff3`.
  - The processes are not run. Their return code and stderr are parameters.
  - The files on disk are a set of names.

How the rewrite behaves on the headers NCBI serves:

- The pattern's `\S+` takes the bar that closes the accession and the non-space text right
  after it, and stops at the first white space. The description after that stays.
  `>gi|116010290|ref|NC_004354.3| Drosophila melanogaster chromosome X` becomes
  `>NC_004354.3 Drosophila melanogaster chromosome X`, and `>gi|1|ref|NC_1|x y` becomes
  `>NC_1 y` (`HeaderRewriter.RewriteGiHeader`).
- A header whose accession is not closed by a `'|'` loses the accession's last character
  to `\S+`: `>gi|1|ref|NC_1` becomes `>NC_` (`HeaderRewriter.RewriteBareAccession`).
  This is how the pattern works, and the model keeps it.

`format_gff3` removes the exclusion file only after the cleanup pipeline succeeds. When the
pipeline fails, the assertion on line 117 raises first and the file stays.

## Model

| member | source | states |
|---|---|---|
| `FlyBase.New` | genhub/ncbi_flybase.py:25-29 | construction succeeds exactly when `source` is `ncbi_flybase` and `species` is present as a string; each failure is reported in the order the constructor checks: missing source, wrong source, missing species, species not a string |
| `FlyBase.GdnaFileName` | genhub/ncbi_flybase.py:38-40 | the genome file's name is the label followed by `.orig.fa.gz` |
| `FlyBase.GdnaFileNameByLabel` | genhub/ncbi_flybase.py:38-40 | two connectors name their genome file alike exactly when their labels are equal; the name depends on nothing else |
| `FlyBase.DmelGdnaFileName` | genhub/ncbi_flybase.py:143 | the `Dmel` database names its genome file `Dmel.orig.fa.gz`, the file part of the tests' expected path |
| `FlyBase.Accessions` | genhub/ncbi_flybase.py:45 | iterating over `config['accessions']` fails when the key is missing or the value is a scalar; it yields a list's items, or a string's characters one by one |
| `FlyBase.Url` | genhub/ncbi_flybase.py:46 | a URL is `specbase`, a slash, the accession and the extension, each at a fixed position (the same format serves lines 54 and 62) |
| `FlyBase.Urls` | genhub/ncbi_flybase.py:43-64 | one URL per accession, in order; URL i is `specbase/<accession i><extension>` |
| `FlyBase.UrlsFor` | genhub/ncbi_flybase.py:44-48 | the loop that appends one URL per accession builds exactly `Urls` |
| `FlyBase.UrlAccessionInverse` | genhub/ncbi_flybase.py:46 | the accession can be read back from its URL |
| `FlyBase.UrlInjective` | genhub/ncbi_flybase.py:54 | distinct accessions get distinct URLs of one kind |
| `FlyBase.GdnaUrl` | genhub/ncbi_flybase.py:42-48 | `gdnaurl` fails as iterating the accessions fails; otherwise it gives the `.fna` URLs of the accessions |
| `FlyBase.Gff3Url` | genhub/ncbi_flybase.py:50-56 | `gff3url` fails as iterating the accessions fails; otherwise it gives the `.gff` URLs of the accessions |
| `FlyBase.ProtUrl` | genhub/ncbi_flybase.py:58-64 | `proturl` fails as iterating the accessions fails; otherwise it gives the `.faa` URLs of the accessions |
| `FlyBase.UrlKindsAligned` | genhub/ncbi_flybase.py:43-64 | entry i of the genome, annotation and protein URL lists names the same accession i; the lists differ only in the extension |
| `FlyBase.DmelUrls` | genhub/ncbi_flybase.py:131-142 | for each extension, the tests' six accessions give exactly the six expected URLs, in order, each spelled out in full |
| `Annotation.TempPath` | genhub/ncbi_flybase.py:77 | each accession is downloaded directly into the database directory, to a file named after the accession's last path component plus `.gff.gz` |
| `Annotation.TempPathInjective` | genhub/ncbi_flybase.py:77 | two accessions share a download path only when their last path components are equal |
| `Annotation.TempPaths` | genhub/ncbi_flybase.py:76-79 | one download path per accession, in order |
| `Annotation.GtCommand` | genhub/ncbi_flybase.py:74-79 | the command is the seven `gt gff3` options, the output path, then the download path of each pair of `zip(gff3url, accessions)`; it stops at the shorter list |
| `Annotation.GtCommandShape` | genhub/ncbi_flybase.py:74-79 | with the annotation URLs of the same accessions, the command has 8 + n arguments, and argument 8 + i is accession i's download path |
| `Annotation.DownloadFailure` | genhub/ncbi_flybase.py:85-87 | the failure message starts with `command failed, check the log (<gff3path>.log): `, and when no argument holds a blank, splitting the rest at blanks gives the command back |
| `Annotation.DownloadGff3` | genhub/ncbi_flybase.py:66-87 | a configuration without iterable accessions fails as `gff3url` does; otherwise a zero return code gives the full command, and any other code fails with the message naming the log and the joined command |
| `Annotation.CleanupPipeline` | genhub/ncbi_flybase.py:97-106 | the pipeline is the six stages, in order, joined by a blank, a bar and a blank |
| `Annotation.Stages` | genhub/ncbi_flybase.py:97-104 | there are six stages, and a stage holds a bar only if one of the three paths does |
| `Annotation.PipelineSplitsIntoStages` | genhub/ncbi_flybase.py:106 | when no path holds a bar, splitting the pipeline at its bars gives exactly the six stages, in order, each padded only by the blanks around its separators |
| `Annotation.FilterStderr` | genhub/ncbi_flybase.py:112-116 | the loop over `stderr.split('\n')` keeps exactly `Reports` of those lines |
| `Annotation.Reports` | genhub/ncbi_flybase.py:112-116 | no more lines are logged than stderr held, and each of them is worth reporting |
| `Annotation.ContainsAt` | genhub/ncbi_flybase.py:113-114 | the containment test is Python's `sub in s`: it holds exactly when `sub` occurs in `s` at some index |
| `Annotation.ReportsMembers` | genhub/ncbi_flybase.py:113-115 | a line is logged exactly when it came from stderr, is non-empty, and contains neither `has not been previously introduced` nor `does not begin with "##gff-version"` |
| `Annotation.ReportsAppend` | genhub/ncbi_flybase.py:112-116 | filtering keeps order: the report of two runs of lines is the first run's report followed by the second's |
| `Annotation.ReportsIdempotent` | genhub/ncbi_flybase.py:112-116 | filtering the report again removes nothing |
| `Annotation.FormatGff3` | genhub/ncbi_flybase.py:96-119 | given the files that exist once the pipeline has exited, and the exit status of its last stage: the reported stderr lines are logged; a non-zero status fails with `annot cleanup command failed: ` plus the pipeline and removes no file; a zero status removes the exclusion file and nothing else, and fails only if that file is missing |
| `FastaFormatter.FormatFasta` | genhub/ncbi_flybase.py:89-94 | the line loop writes exactly `FormatText` of its input |
| `FastaFormatter.FormatEach` | genhub/ncbi_flybase.py:90-94 | each line is written once, in order, header lines rewritten and others copied |
| `FastaFormatter.FormatText` | genhub/ncbi_flybase.py:89-94 | the output is never longer than the input |
| `FastaFormatter.FormatTextLines` | genhub/ncbi_flybase.py:89-94 | read back line by line, the output has the input's lines, each formatted; no line is merged or split |
| `FastaFormatter.FormatTextIdempotent` | genhub/ncbi_flybase.py:89-94 | formatting an already formatted stream changes nothing |
| `FastaFormatter.FormatTextUnchangedIff` | genhub/ncbi_flybase.py:89-94 | the output equals the input exactly when every line is written as it was read |
| `FastaFormatter.FormatLineIdempotent` | genhub/ncbi_flybase.py:91-93 | formatting a formatted line changes nothing |
| `FastaFormatter.FormatLineUnchanged` | genhub/ncbi_flybase.py:91-93 | a line is copied exactly when it is not a header or no match starts in it |
| `FastaFormatter.FormatLineKeepsLine` | genhub/ncbi_flybase.py:89-94 | a formatted line is still one line: non-empty, no `'\n'` before its end, and its closing `'\n'` kept |
| `FastaFormatter.FormatEachWellFormed` | genhub/ncbi_flybase.py:90-94 | formatting every line of a stream keeps its line structure |
| `FastaFormatter.FormatEachKeepsLine` | genhub/ncbi_flybase.py:90-94 | line i of a formatted stream is still a line, and still ends in `'\n'` when it is not the last |
| `HeaderRewriter.DigitsEnd` | genhub/ncbi_flybase.py:92 | the end of the run of digits that `\d+` takes: all digits before it, none at it |
| `HeaderRewriter.DigitsEndUnique` | genhub/ncbi_flybase.py:92 | the run of digits is the only one that stops there |
| `HeaderRewriter.BarFreeEnd` | genhub/ncbi_flybase.py:92 | the end of the run that the non-bar class can take: no bar before it, a bar or the end of the text at it |
| `HeaderRewriter.BarFreeEndUnique` | genhub/ncbi_flybase.py:92 | that run is the only one that stops there |
| `HeaderRewriter.NonSpaceEnd` | genhub/ncbi_flybase.py:92 | the end of the run that `\S+` takes: no white space before it, white space or the end of the text at it |
| `HeaderRewriter.NonSpaceEndUnique` | genhub/ncbi_flybase.py:92 | that run is the only one that stops there |
| `HeaderRewriter.PrefixEnd` | genhub/ncbi_flybase.py:92 | where the fixed part (`>gi`, a bar, digits, a bar, `ref` or `gb`, a bar) ends, or 0 when it is absent; a fixed part found is at least nine characters long, starts with `'>'` and ends with a bar |
| `HeaderRewriter.PrefixEndSound` | genhub/ncbi_flybase.py:92 | a non-zero result means the text starts with the fixed part (`>gi`, a bar, digits, a bar, `ref` or `gb`, a bar), ending there; so the result is 0 whenever the fixed part is absent |
| `HeaderRewriter.GiPrefixEnd` | genhub/ncbi_flybase.py:92 | the fixed part of NCBI's layout is found in full, whatever follows it |
| `HeaderRewriter.Backtrack` | genhub/ncbi_flybase.py:92 | the group length backtracking settles on is within the non-bar run, and a non-space character follows it |
| `HeaderRewriter.BacktrackLongest` | genhub/ncbi_flybase.py:92 | backtracking gives back only what it must: every longer candidate is followed by white space or the end of the text |
| `HeaderRewriter.BacktrackExact` | genhub/ncbi_flybase.py:92 | conversely, the longest length a non-space character follows is the one backtracking finds |
| `HeaderRewriter.HeaderMatch` | genhub/ncbi_flybase.py:92 | a match starts with `'>'`, and its group is non-empty and followed by at least one character of the match |
| `HeaderRewriter.MatchShape` | genhub/ncbi_flybase.py:92 | the group holds no bar, the `\S+` part holds no white space, and the match stops at white space or the end of the text |
| `HeaderRewriter.HeaderMatchIsMatcher` | genhub/ncbi_flybase.py:92-93 | the pattern has the shape the substitution needs, and its group ends before the match does |
| `HeaderRewriter.ClosedAccessionMatch` | genhub/ncbi_flybase.py:92 | an accession closed by a bar is the group, and the match ends where the non-space run after that bar ends |
| `HeaderRewriter.OpenAccessionMatch` | genhub/ncbi_flybase.py:92 | an accession that runs to trailing white space gives its last character to `\S+` |
| `HeaderRewriter.GiHeaderLayout` | genhub/ncbi_flybase.py:92 | in `<fixed part><accession><rest>`, the accession starts where the fixed part ends |
| `HeaderRewriter.ClosedGiHeader` | genhub/ncbi_flybase.py:92 | in such a header, the fixed part ends where the accession starts, a bar closes the accession, and the non-space run after it ends where the description starts |
| `HeaderRewriter.RewriteAtMatch` | genhub/ncbi_flybase.py:93 | where a match starts, `'>'` and the group are emitted, and the scan resumes after the match |
| `HeaderRewriter.RewriteGiHeader` | genhub/ncbi_flybase.py:92-93 | a header made of `>gi`, digits, `ref` or `gb` and an accession, each followed by a bar, then non-space text and a description that is empty or starts with white space, becomes `'>'`, the accession and the rewritten description; the non-space text goes with the match |
| `HeaderRewriter.RewriteBareAccession` | genhub/ncbi_flybase.py:92-93 | an accession followed only by white space loses its last character |
| `HeaderRewriter.Rewrite` | genhub/ncbi_flybase.py:93 | the rewrite never lengthens a text, is empty only for the empty text, and keeps the first character, so a header stays a header |
| `HeaderRewriter.FormatLine` | genhub/ncbi_flybase.py:91-93 | a formatted line is no longer than the line, empty only when the line is, and starts with the same character |
| `HeaderRewriter.RewriteUnchangedIff` | genhub/ncbi_flybase.py:93 | the rewrite leaves a text unchanged exactly when no match starts in it, never lengthens a text, and shortens every text in which a match starts |
| `HeaderRewriter.NoMarkerMatchFree` | genhub/ncbi_flybase.py:92 | text without `'>'` holds no match |
| `HeaderRewriter.RewriteChars` | genhub/ncbi_flybase.py:93 | every character of the rewrite comes from the input |
| `HeaderRewriter.NoMatchAfterReplacement` | genhub/ncbi_flybase.py:93 | a replacement `>`+group followed by white space or nothing starts no match |
| `HeaderRewriter.MatchFreeReplacement` | genhub/ncbi_flybase.py:93 | a replacement followed by match-free text is match-free |
| `HeaderRewriter.PrefixAgrees` | genhub/ncbi_flybase.py:92 | a fixed part found in a text that agrees with another up to a `'>'` is found in both |
| `HeaderRewriter.MatchBeforeNextHeader` | genhub/ncbi_flybase.py:92-93 | text copied before a later match cannot combine with the replacement into a new match unless one was already there |
| `HeaderRewriter.NoMatchAtSkip` | genhub/ncbi_flybase.py:93 | where no match starts in a text, none starts in its rewrite |
| `HeaderRewriter.RewriteMatchFree` | genhub/ncbi_flybase.py:93 | no match starts anywhere in rewritten text |
| `HeaderRewriter.RewriteIdempotent` | genhub/ncbi_flybase.py:93 | rewriting twice gives the same text as rewriting once |
| `HeaderRewriter.LastSpaceUncovered` | genhub/ncbi_flybase.py:92 | no match covers a white-space character at the end of a text |
| `HeaderRewriter.RewriteKeepsLast` | genhub/ncbi_flybase.py:93 | a text ending in white space, such as a line's `'\n'`, keeps it last, and every earlier output character comes from before it |
| `Substitution.NextMatch` | genhub/ncbi_flybase.py:93 | the first index at or after i where a match starts, with no match starting between |
| `Substitution.Substitute` | genhub/ncbi_flybase.py:93 | the output is empty exactly when the input is, and starts with the input's first character |
| `Substitution.SubstituteAtMatch` | genhub/ncbi_flybase.py:93 | at a match, the replacement is emitted and the scan resumes after it |
| `Substitution.SubstituteUpTo` | genhub/ncbi_flybase.py:93 | text before the first match is copied |
| `Substitution.NoMatchUnchanged` | genhub/ncbi_flybase.py:93 | text with no match is left as it is |
| `Substitution.SubstituteShrinks` | genhub/ncbi_flybase.py:93 | the substitution never lengthens a text, and shortens every text with a match |
| `Substitution.SubstituteUnchangedIff` | genhub/ncbi_flybase.py:93 | the output equals the input exactly when no match starts in it |
| `Substitution.SubstituteChars` | genhub/ncbi_flybase.py:93 | every output character comes from the input |
| `Substitution.SubstituteKeepsLast` | genhub/ncbi_flybase.py:93 | when no match reaches the last character, that character stays last |
| `Substitution.SubstituteInitChars` | genhub/ncbi_flybase.py:93 | when no match reaches the last character, every earlier output character comes from before it |
| `Text.Join` | genhub/ncbi_flybase.py:106 | the joined text starts with the first part |
| `Text.Split` | genhub/ncbi_flybase.py:112 | `split` gives at least one part, and no part holds the separator |
| `Text.JoinSplit` | genhub/ncbi_flybase.py:112 | joining the parts of a split gives the text back, so no stderr text is lost by splitting |
| `Text.SplitJoin` | genhub/ncbi_flybase.py:85-87 | splitting what was joined gives the parts back when none holds the separator |
| `Text.BasenameStart` | genhub/ncbi_flybase.py:77 | the last component starts just after a `'/'` (or at the start of the path), and no `'/'` follows |
| `Text.Basename` | genhub/ncbi_flybase.py:77 | the basename, built from the end of the path, is exactly the path from where its last component starts |
| `Text.BasenameSuffix` | genhub/ncbi_flybase.py:77 | the basename is the longest suffix of the path without `'/'` |
| `Text.BasenameAfterSlash` | genhub/ncbi_flybase.py:77 | the basename of `dir/name` is `name` when `name` holds no `'/'` |
| `Text.JoinSpaced` | genhub/ncbi_flybase.py:106 | joining the parts with a blank, a bar and a blank is the same as joining the padded parts with a bar alone |
| `Text.SplitJoinSpaced` | genhub/ncbi_flybase.py:106 | when no part holds a bar, splitting at the bars the parts joined with a blank, a bar and a blank gives the padded parts back |
| `Text.ConcatNoLonger` | genhub/ncbi_flybase.py:94 | writing lines no longer than other lines writes a text no longer than theirs |
| `Text.ConcatAppend` | genhub/ncbi_flybase.py:94 | writing one more line appends it to what was written |
| `Text.FirstLineLength` | genhub/ncbi_flybase.py:90 | the first line runs to its first `'\n'`, that character included, or to the end of the text |
| `Text.Lines` | genhub/ncbi_flybase.py:90 | the lines of a stream, written back one after another, give the text |
| `Text.LinesWellFormed` | genhub/ncbi_flybase.py:90 | every line a stream yields is non-empty, and every line but the last ends in `'\n'` |
| `Text.LinesOfText` | genhub/ncbi_flybase.py:90 | iterating over a stream yields well-formed lines whose concatenation is the text |
| `Text.LinesOfConcat` | genhub/ncbi_flybase.py:90 | iterating over well-formed lines written to a stream yields the same lines |

## Left out

- The processes are not run: `subprocess.call`, `Popen`, `wait` and `communicate`. Their
  return codes and `format_gff3`'s stderr are parameters of the model.
- The tools themselves are not modelled, only the commands that invoke them: `gt`,
  `gunzip`, `grep`, `genhub-fix-trna.py`, `tidygff3` and `genhub-format-gff3.py`.
- The downloads in `download_gff3` are not modelled: `genhub.download.url_download` and
  `mkdir -p`. Download failures are not modelled either.
- Logging is not modelled: the log message, writing `download_gff3`'s stderr to
  `<gff3path>.log`, and the `debug` print in `format_gff3`. `FormatGff3` returns the
  lines it would log.
- The `GenomeDB` base class (`genhub/genomedb.py`) is not part of this model. It supplies
  `label`, `dbdir`, `gff3path`, `gff3file`, `gdnapath` and the compression flags, so these
  are inputs or left out. The tests' expected `gdnapath`, `./Dmel/Dmel.orig.fa.gz`, joins
  the database directory with the name `gdnafilename` gives. Only the file name is
  modelled.
- `genhub.conf.conf_filter_file` (`genhub/conf.py`) is not part of this model. The
  exclusion file's name is a parameter.
- Loading the YAML configuration is not modelled. A configuration value is a string, a
  list of strings, or another scalar. Mapping values, lists holding non-strings, and
  iteration over a mapping's keys are not modelled.
- The constructor's `species.replace(' ', '_')` result is never used. The model keeps
  only its failure on a non-string value.
- Streams are whole strings. `format_fasta`'s input is what its iteration reads, and its
  output is what it writes.
- `\d` and `\s` are ASCII. Python 3 also matches other Unicode digits and white space in
  `str` patterns.
- The shell's parsing of the pipeline text is not modelled. The model splits it at each
  `'|'` only; how `sh` treats quotes, `;`, `&`, `#`, newlines or `$(` in the interpolated
  paths is not covered.
- FormatGff3: `files` is the set of files once the pipeline has exited. The pipeline's own
  writes, such as `gt`'s output file `gff3file` (line 104), are not modelled.
- FormatGff3: `returnCode` is the exit status of the pipeline's last stage, since `sh` runs
  the pipeline without `pipefail`. An earlier stage that fails does not make `format_gff3`
  fail unless the last stage fails too.
- `__repr__` is not modelled: it returns the fixed text `FlyBase@NCBI`, which the log
  message of `download_gff3` uses and the test at line 149 checks.
