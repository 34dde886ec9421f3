/** The annotation steps of the connector: `FlyBaseDB.download_gff3` builds the `gt gff3` command
    that merges the per-accession downloads, and `FlyBaseDB.format_gff3` builds the cleanup
    pipeline, filters what the pipeline reports on stderr and removes the exclusion file. The
    processes themselves are not run here: their return code and stderr are parameters. */
module Annotation {
  import opened Wrappers
  import opened Text
  import opened FlyBase

  // ---------------------------------------------------------------------------------------
  // download_gff3
  // ---------------------------------------------------------------------------------------

  /** The arguments of the `gt gff3` call that come before the output path. */
  const GtOptions: seq<string> := ["gt", "gff3", "-sort", "-tidy", "-force", "-gzip", "-o"]

  /** The suffix of a downloaded annotation file. */
  const GffGz: string := ".gff.gz"

  /** Where the annotation of one accession is downloaded: `<dbdir>/<basename of acc>.gff.gz`.
      The file sits directly in the database directory, and its name is the accession's last path
      component followed by `.gff.gz`. */
  function TempPath(dbdir: string, acc: string): (path: string)
    ensures |dbdir| + 1 <= |path| && path[..|dbdir| + 1] == dbdir + "/"
    ensures path[|dbdir| + 1..] == Basename(acc) + GffGz
    ensures Basename(path) == Basename(acc) + GffGz
  {
    var name := Basename(acc) + GffGz;
    assert '/' !in GffGz;
    BasenameSuffix(acc);
    CharsOfConcat(Basename(acc), GffGz);
    BasenameAfterSlash(dbdir, name);
    dbdir + "/" + name
  }

  /** Accessions with different last path components get different download paths. */
  lemma TempPathInjective(dbdir: string, a: string, b: string)
    requires TempPath(dbdir, a) == TempPath(dbdir, b)
    ensures Basename(a) == Basename(b)
  {
    var na := Basename(a) + GffGz;
    var nb := Basename(b) + GffGz;
    assert na[..|na| - |GffGz|] == Basename(a);
    assert nb[..|nb| - |GffGz|] == Basename(b);
  }

  /** The download paths of a list of accessions, in order. */
  function TempPaths(dbdir: string, accessions: seq<string>): (paths: seq<string>)
    ensures |paths| == |accessions|
    ensures forall i :: 0 <= i < |accessions| ==> paths[i] == TempPath(dbdir, accessions[i])
    decreases |accessions|
  {
    if accessions == [] then []
    else TempPaths(dbdir, accessions[..|accessions| - 1]) + [TempPath(dbdir, accessions[|accessions| - 1])]
  }

  function Min(a: nat, b: nat): nat
  {
    if a <= b then a else b
  }

  /** The command of `download_gff3`: the fixed options and the output path, then, for each pair
      of `zip(gff3url, accessions)` (as many as the shorter list holds), the accession's download
      path. */
  method GtCommand(gff3path: string, dbdir: string, urls: seq<string>, accessions: seq<string>)
    returns (command: seq<string>)
    ensures command == GtOptions + [gff3path] + TempPaths(dbdir, accessions[..Min(|urls|, |accessions|)])
  {
    var prefix := GtOptions + [gff3path];
    command := prefix;
    var n := Min(|urls|, |accessions|);
    var i := 0;
    while i < n
      invariant i <= n
      invariant command == prefix + TempPaths(dbdir, accessions[..i])
    {
      var tempout := TempPath(dbdir, accessions[i]);
      AppendPath(prefix, dbdir, accessions, i);
      command := command + [tempout];
      i := i + 1;
    }
  }

  /** One more accession adds its download path at the end. */
  lemma TempPathsSnoc(dbdir: string, accessions: seq<string>, i: nat)
    requires i < |accessions|
    ensures TempPaths(dbdir, accessions[..i + 1]) ==
      TempPaths(dbdir, accessions[..i]) + [TempPath(dbdir, accessions[i])]
  {
    assert accessions[..i + 1][..i] == accessions[..i];
  }

  /** The loop step of the command: appending the next download path. */
  lemma AppendPath(prefix: seq<string>, dbdir: string, accessions: seq<string>, i: nat)
    requires i < |accessions|
    ensures prefix + TempPaths(dbdir, accessions[..i]) + [TempPath(dbdir, accessions[i])] ==
      prefix + TempPaths(dbdir, accessions[..i + 1])
  {
    var paths := TempPaths(dbdir, accessions[..i]);
    var path := TempPath(dbdir, accessions[i]);
    TempPathsSnoc(dbdir, accessions, i);
    SnocAssoc(prefix, paths, path);
  }

  /** Regrouping the command after one more path, stated apart so that AppendPath stays cheap. */
  lemma SnocAssoc<T>(prefix: seq<T>, xs: seq<T>, x: T)
    ensures prefix + xs + [x] == prefix + (xs + [x])
  {
  }

  /** Download paths after a prefix of arguments: the path of accession i is argument
      `|prefix| + i`. */
  lemma PathsAfterPrefix(prefix: seq<string>, dbdir: string, accessions: seq<string>, command: seq<string>)
    requires command == prefix + TempPaths(dbdir, accessions)
    ensures |command| == |prefix| + |accessions| && command[..|prefix|] == prefix
    ensures forall i :: 0 <= i < |accessions| ==> command[|prefix| + i] == TempPath(dbdir, accessions[i])
  {
  }

  /** With the annotation URLs of the same accessions, the command names every accession's
      download, in the order of the accessions, after the eight fixed arguments. */
  lemma GtCommandShape(gff3path: string, dbdir: string, accessions: seq<string>, command: seq<string>)
    requires command == GtOptions + [gff3path] +
      TempPaths(dbdir, accessions[..Min(|Urls(accessions, ".gff")|, |accessions|)])
    ensures |command| == 8 + |accessions|
    ensures command[..8] == GtOptions + [gff3path]
    ensures forall i :: 0 <= i < |accessions| ==> command[8 + i] == TempPath(dbdir, accessions[i])
  {
    assert accessions[..|accessions|] == accessions;
    var prefix := GtOptions + [gff3path];
    assert |prefix| == 8;
    PathsAfterPrefix(prefix, dbdir, accessions, command);
  }

  /** Why `download_gff3` fails: the accessions cannot be read from the configuration, or the
      command exits with a non-zero code (the assertion's message). */
  datatype DownloadError = BadAccessions(cause: AccessionError) | CommandFailed(message: string)

  /** The text before the command in the assertion message of `download_gff3`. */
  function FailurePrefix(gff3path: string): string
  {
    "command failed, check the log (" + gff3path + ".log): "
  }

  /** The assertion message of `download_gff3`. It shows the command in full: when no argument
      holds a blank, splitting the text after the prefix at blanks gives the command back. */
  function DownloadFailure(gff3path: string, command: seq<string>): (message: string)
    ensures |FailurePrefix(gff3path)| <= |message|
    ensures message[..|FailurePrefix(gff3path)|] == FailurePrefix(gff3path)
    ensures |command| >= 1 && (forall arg :: arg in command ==> ' ' !in arg) ==>
      Split(message[|FailurePrefix(gff3path)|..], ' ') == command
  {
    var prefix := FailurePrefix(gff3path);
    var message := prefix + Join(command, " ");
    assert message[|prefix|..] == Join(command, [' ']);
    if |command| >= 1 && (forall arg :: arg in command ==> ' ' !in arg) then
      SplitJoin(command, ' ');
      message
    else
      message
  }

  /** `download_gff3`: the URLs and accessions come from the configuration, the downloads (not
      modelled) fill the listed paths, and the command runs with the given return code. It gives
      the command that ran, or why it failed. */
  method DownloadGff3(db: Connector, gff3path: string, dbdir: string, returnCode: int)
    returns (r: Result<seq<string>, DownloadError>)
    ensures Accessions(db.config).Err? ==> r == Err(BadAccessions(Accessions(db.config).error))
    ensures Accessions(db.config).Ok? ==>
      var command := GtOptions + [gff3path] + TempPaths(dbdir, Accessions(db.config).value);
      if returnCode == 0 then r == Ok(command)
      else r == Err(CommandFailed(DownloadFailure(gff3path, command)))
  {
    var urls := Gff3Url(db);
    match urls
    case Err(e) =>
      r := Err(BadAccessions(e));
    case Ok(gff3urls) =>
      var accessions := Accessions(db.config).value;
      var command := GtCommand(gff3path, dbdir, gff3urls, accessions);
      GtCommandShape(gff3path, dbdir, accessions, command);
      assert accessions[..|accessions|] == accessions;
      if returnCode != 0 {
        r := Err(CommandFailed(DownloadFailure(gff3path, command)));
      } else {
        r := Ok(command);
      }
  }

  // ---------------------------------------------------------------------------------------
  // format_gff3
  // ---------------------------------------------------------------------------------------

  /** The six stages of the cleanup pipeline, in order: decompress the download, drop the lines
      listed in the exclusion file, fix the tRNA features, tidy, format for this source, and sort
      into the final annotation file. A stage holds a '|' only where one of the paths does. */
  function Stages(gff3path: string, excludeName: string, gff3file: string): (stages: seq<string>)
    ensures |stages| == 6
    ensures '|' !in gff3path && '|' !in excludeName && '|' !in gff3file ==>
      forall p :: p in stages ==> '|' !in p
  {
    PathStageTextBarFree();
    FixedStagesBarFree();
    CharsOfConcat("gunzip -c ", gff3path);
    CharsOfConcat("grep -vf ", excludeName);
    CharsOfConcat("gt gff3 -sort -tidy -o ", gff3file);
    CharsOfConcat("gt gff3 -sort -tidy -o " + gff3file, " -force");
    ["gunzip -c " + gff3path,
     "grep -vf " + excludeName,
     "genhub-fix-trna.py",
     "tidygff3",
     "genhub-format-gff3.py --source ncbi_flybase -",
     "gt gff3 -sort -tidy -o " + gff3file + " -force"]
  }

  /** The stages as `format_gff3` appends them, joined into one shell command. */
  method CleanupPipeline(gff3path: string, excludeName: string, gff3file: string)
    returns (commands: string)
    ensures commands == Join(Stages(gff3path, excludeName, gff3file), " | ")
  {
    var cmds: seq<string> := [];
    cmds := cmds + ["gunzip -c " + gff3path];
    cmds := cmds + ["grep -vf " + excludeName];
    cmds := cmds + ["genhub-fix-trna.py"];
    cmds := cmds + ["tidygff3"];
    cmds := cmds + ["genhub-format-gff3.py --source ncbi_flybase -"];
    cmds := cmds + ["gt gff3 -sort -tidy -o " + gff3file + " -force"];
    assert cmds == Stages(gff3path, excludeName, gff3file);
    commands := Join(cmds, " | ");
  }

  /** The fixed text of the stages that name a path holds no '|'. */
  lemma PathStageTextBarFree()
    ensures '|' !in "gunzip -c " && '|' !in "grep -vf "
    ensures '|' !in "gt gff3 -sort -tidy -o " && '|' !in " -force"
  {
  }

  /** The stages that name no path hold no '|'. */
  lemma FixedStagesBarFree()
    ensures '|' !in "genhub-fix-trna.py" && '|' !in "tidygff3"
    ensures '|' !in "genhub-format-gff3.py --source ncbi_flybase -"
  {
    FormatStageBarFree("genhub-format-gff3.py", " --source ncbi_flybase -");
  }

  /** The format stage in two pieces, each short enough to check for '|' cheaply. */
  lemma FormatStageBarFree(script: string, options: string)
    requires script == "genhub-format-gff3.py" && options == " --source ncbi_flybase -"
    ensures '|' !in script + options
    ensures script + options == "genhub-format-gff3.py --source ncbi_flybase -"
  {
    CharsOfConcat(script, options);
  }

  /** When no path holds a '|', splitting the pipeline text at each '|' gives exactly the six
      stages, in order, each padded only by the blanks around its '|'. */
  lemma PipelineSplitsIntoStages(gff3path: string, excludeName: string, gff3file: string)
    requires '|' !in gff3path && '|' !in excludeName && '|' !in gff3file
    ensures var stages := Stages(gff3path, excludeName, gff3file);
      Split(Join(stages, " | "), '|') == Spaced(stages, false)
  {
    SplitJoinSpaced(Stages(gff3path, excludeName, gff3file));
  }

  /** The two kinds of diagnostics the pipeline's tools print that are not worth reporting. */
  const NotIntroduced: string := "has not been previously introduced"
  const NoVersionLine: string := "does not begin with \"##gff-version\""

  /** Python's `sub in s`. */
  predicate Contains(s: string, sub: string)
    decreases |s|
  {
    |sub| <= |s| && (s[..|sub|] == sub || Contains(s[1..], sub))
  }

  /** `sub` occurs in `s` at index i. */
  predicate At(s: string, sub: string, i: int)
  {
    0 <= i <= |s| - |sub| && s[i..i + |sub|] == sub
  }

  /** `Contains` is substring containment: `sub` occurs in `s` at some index. */
  lemma {:induction false} ContainsAt(s: string, sub: string)
    ensures Contains(s, sub) <==> exists i :: At(s, sub, i)
    decreases |s|
  {
    if |sub| <= |s| {
      if s[..|sub|] == sub {
        assert At(s, sub, 0);
      } else {
        assert |s| > 0;
        ContainsAt(s[1..], sub);
        if exists i :: At(s[1..], sub, i) {
          var i :| At(s[1..], sub, i);
          assert s[1..][i..i + |sub|] == s[i + 1..i + 1 + |sub|];
          assert At(s, sub, i + 1);
        }
        if exists i :: At(s, sub, i) {
          var i :| At(s, sub, i);
          assert i != 0;
          assert s[1..][i - 1..i - 1 + |sub|] == s[i..i + |sub|];
          assert At(s[1..], sub, i - 1);
        }
      }
    }
  }

  /** A stderr line that `format_gff3` passes on to the log: not empty, and neither of the two
      known diagnostics. */
  predicate Reported(line: string)
  {
    !Contains(line, NotIntroduced) && !Contains(line, NoVersionLine) && line != ""
  }

  /** The lines passed on to the log, in their order: no more lines than came in, each of them
      worth reporting. */
  function Reports(lines: seq<string>): (reports: seq<string>)
    ensures |reports| <= |lines|
    ensures forall i :: 0 <= i < |reports| ==> Reported(reports[i])
    decreases |lines|
  {
    if lines == [] then []
    else
      var last := lines[|lines| - 1];
      Reports(lines[..|lines| - 1]) + (if Reported(last) then [last] else [])
  }

  /** The filtering loop of `format_gff3` over `stderr.split('\n')`. */
  method FilterStderr(stderr: string) returns (logged: seq<string>)
    ensures logged == Reports(Split(stderr, '\n'))
  {
    var lines := Split(stderr, '\n');
    logged := [];
    var i := 0;
    while i < |lines|
      invariant i <= |lines|
      invariant logged == Reports(lines[..i])
    {
      var line := lines[i];
      if !Contains(line, NotIntroduced) && !Contains(line, NoVersionLine) && line != "" {
        logged := logged + [line];
      }
      i := i + 1;
      assert lines[..i][..i - 1] == lines[..i - 1];
    }
    assert lines[..i] == lines;
  }

  /** A line is logged exactly when it was printed on stderr and is worth reporting. */
  lemma {:induction false} ReportsMembers(lines: seq<string>, line: string)
    ensures line in Reports(lines) <==> line in lines && Reported(line)
    decreases |lines|
  {
    if lines != [] {
      var init := lines[..|lines| - 1];
      ReportsMembers(init, line);
      assert lines == init + [lines[|lines| - 1]];
    }
  }

  /** Filtering keeps the order: the report of two runs of lines is the report of the first
      followed by the report of the second. */
  lemma {:induction false} ReportsAppend(a: seq<string>, b: seq<string>)
    ensures Reports(a + b) == Reports(a) + Reports(b)
    decreases |b|
  {
    if b != [] {
      var init := b[..|b| - 1];
      assert (a + b)[..|a + b| - 1] == a + init;
      assert (a + b)[|a + b| - 1] == b[|b| - 1];
      ReportsAppend(a, init);
    } else {
      assert a + b == a;
    }
  }

  /** Filtering what was already filtered removes nothing more. */
  lemma {:induction false} ReportsIdempotent(lines: seq<string>)
    ensures Reports(Reports(lines)) == Reports(lines)
    decreases |lines|
  {
    if lines != [] {
      var init := lines[..|lines| - 1];
      var last := lines[|lines| - 1];
      ReportsIdempotent(init);
      var kept := if Reported(last) then [last] else [];
      ReportsAppend(Reports(init), kept);
      if Reported(last) {
        assert Reports([last]) == Reports([]) + [last];
      }
    }
  }

  /** Why `format_gff3` fails: the pipeline exits with a non-zero code (the assertion's message),
      or the exclusion file is no longer there to be removed. */
  datatype CleanupError = CleanupFailed(message: string) | MissingFile(path: string)

  /** `format_gff3`: the pipeline has run, with the given return code and stderr, and `files` is
      the set of existing files it left behind; the reported stderr lines go to the log; then,
      only if the pipeline succeeded, the exclusion file is removed from that set. The return code
      is that of the pipeline's last stage, as `sh` reports it. */
  method FormatGff3(gff3path: string, excludeName: string, gff3file: string, stderr: string,
                    returnCode: int, files: set<string>)
    returns (logged: seq<string>, failure: Option<CleanupError>, filesAfter: set<string>)
    ensures logged == Reports(Split(stderr, '\n'))
    ensures returnCode != 0 ==>
      failure == Some(CleanupFailed("annot cleanup command failed: " +
        Join(Stages(gff3path, excludeName, gff3file), " | "))) &&
      filesAfter == files
    ensures returnCode == 0 && excludeName in files ==>
      failure == None && filesAfter == files - {excludeName}
    ensures returnCode == 0 && excludeName !in files ==>
      failure == Some(MissingFile(excludeName)) && filesAfter == files
    ensures excludeName in files ==> (excludeName in filesAfter <==> returnCode != 0)
    ensures filesAfter <= files && files - filesAfter <= {excludeName}
  {
    var commands := CleanupPipeline(gff3path, excludeName, gff3file);
    logged := FilterStderr(stderr);
    if returnCode != 0 {
      failure := Some(CleanupFailed("annot cleanup command failed: " + commands));
      filesAfter := files;
    } else if excludeName !in files {
      failure := Some(MissingFile(excludeName));
      filesAfter := files;
    } else {
      failure := None;
      filesAfter := files - {excludeName};
    }
  }
}
