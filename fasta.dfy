/** `FlyBaseDB.format_fasta`: the genomic and protein sequence files are copied line by line, and
    every line that starts with '>' (a FASTA header) goes through the header rewrite. */
module FastaFormatter {
  import opened Text
  import opened Substitution
  import opened HeaderRewriter

  /** The lines as the loop writes them. */
  function FormatEach(lines: seq<string>): (out: seq<string>)
    ensures |out| == |lines|
    ensures forall i :: 0 <= i < |lines| ==> out[i] == FormatLine(lines[i])
  {
    seq(|lines|, i requires 0 <= i < |lines| => FormatLine(lines[i]))
  }

  /** What `format_fasta` writes to its output stream for a given input stream: never longer than
      the input, since each line only loses characters. */
  function FormatText(text: string): (r: string)
    ensures |r| <= |text|
  {
    var lines := Lines(text);
    ConcatNoLonger(FormatEach(lines), lines);
    Concat(FormatEach(lines))
  }

  /** Formatting one more line appends its formatted form. */
  lemma FormatEachSnoc(lines: seq<string>, i: nat)
    requires i < |lines|
    ensures FormatEach(lines[..i + 1]) == FormatEach(lines[..i]) + [FormatLine(lines[i])]
  {
  }

  /** The loop of `format_fasta`: each line of the input, rewritten when it is a header, is
      written to the output in turn. */
  method FormatFasta(instream: string) returns (outstream: string)
    ensures outstream == FormatText(instream)
  {
    var lines := Lines(instream);
    outstream := "";
    var i := 0;
    while i < |lines|
      invariant i <= |lines|
      invariant outstream == Concat(FormatEach(lines[..i]))
    {
      var line := lines[i];
      if |line| > 0 && line[0] == '>' {
        line := Rewrite(line);
      }
      FormatEachSnoc(lines, i);
      ConcatAppend(FormatEach(lines[..i]), line);
      outstream := outstream + line;
      i := i + 1;
    }
    assert lines[..i] == lines;
  }

  /** A header line keeps its '>' after the rewrite, so formatting a formatted line changes
      nothing. */
  lemma FormatLineIdempotent(line: string)
    ensures FormatLine(FormatLine(line)) == FormatLine(line)
  {
    if |line| > 0 && line[0] == '>' {
      HeaderMatchIsMatcher();
      RewriteIdempotent(line);
    }
  }

  /** A line is written as it was read exactly when it is not a header or no match of the
      header pattern starts in it. */
  lemma FormatLineUnchanged(line: string)
    ensures FormatLine(line) == line <==> !(|line| > 0 && line[0] == '>') || MatchFree(line)
  {
    RewriteUnchangedIff(line);
  }

  /** Formatting keeps a line a line: it stays non-empty, gains no '\n' before its end, and
      keeps its final '\n'. */
  lemma FormatLineKeepsLine(line: string)
    requires IsLine(line)
    ensures IsLine(FormatLine(line))
    ensures line[|line| - 1] == '\n' ==> FormatLine(line)[|FormatLine(line)| - 1] == '\n'
  {
    if line[0] == '>' {
      var out := Rewrite(line);
      if line[|line| - 1] == '\n' {
        RewriteKeepsLast(line);
        forall k | 0 <= k < |out| - 1 ensures out[k] != '\n' {
          assert out[k] in line[..|line| - 1];
        }
      } else {
        assert '\n' !in line;
        HeaderMatchIsMatcher();
        RewriteChars(line);
        forall k | 0 <= k < |out| ensures out[k] != '\n' {
          assert out[k] in out;
        }
      }
    }
  }

  /** Formatting every line of a stream keeps its line structure. */
  lemma FormatEachWellFormed(lines: seq<string>)
    requires WellFormedLines(lines)
    ensures WellFormedLines(FormatEach(lines))
  {
    var out := FormatEach(lines);
    forall i | 0 <= i < |lines|
      ensures IsLine(out[i])
      ensures i < |lines| - 1 ==> out[i][|out[i]| - 1] == '\n'
    {
      FormatEachKeepsLine(lines, i);
    }
  }

  /** The step of FormatEachWellFormed for line i. */
  lemma FormatEachKeepsLine(lines: seq<string>, i: nat)
    requires WellFormedLines(lines) && i < |lines|
    ensures IsLine(FormatEach(lines)[i])
    ensures i < |lines| - 1 ==> FormatEach(lines)[i][|FormatEach(lines)[i]| - 1] == '\n'
  {
    FormatLineKeepsLine(lines[i]);
  }

  /** Read back line by line, the output holds the input's lines, each formatted: no line is
      split, merged, dropped or reordered. */
  lemma FormatTextLines(text: string)
    ensures Lines(FormatText(text)) == FormatEach(Lines(text))
  {
    LinesOfText(text);
    FormatEachWellFormed(Lines(text));
    LinesOfConcat(FormatEach(Lines(text)));
  }

  /** Formatting an already formatted stream changes nothing. */
  lemma FormatTextIdempotent(text: string)
    ensures FormatText(FormatText(text)) == FormatText(text)
  {
    var lines := Lines(text);
    FormatTextLines(text);
    forall i | 0 <= i < |lines| ensures FormatLine(FormatLine(lines[i])) == FormatLine(lines[i]) {
      FormatLineIdempotent(lines[i]);
    }
    assert FormatEach(FormatEach(lines)) == FormatEach(lines);
  }

  /** The output is the input exactly when every line is written as it was read. */
  lemma FormatTextUnchangedIff(text: string)
    ensures FormatText(text) == text <==>
      forall i :: 0 <= i < |Lines(text)| ==> FormatLine(Lines(text)[i]) == Lines(text)[i]
  {
    var lines := Lines(text);
    LinesOfText(text);
    if forall i :: 0 <= i < |lines| ==> FormatLine(lines[i]) == lines[i] {
      assert FormatEach(lines) == lines;
    }
    if FormatText(text) == text {
      FormatTextLines(text);
    }
  }
}
