/** The few pieces of Python's string and path library that the connector relies on. */
module Text {

  /** Python's `sep.join(parts)`: the text starts with the first part. */
  function Join(parts: seq<string>, sep: string): (r: string)
    ensures parts != [] ==> |parts[0]| <= |r| && r[..|parts[0]|] == parts[0]
  {
    if |parts| == 0 then ""
    else if |parts| == 1 then parts[0]
    else parts[0] + sep + Join(parts[1..], sep)
  }

  /** Python's `s.split(c)` for a one-character separator: never empty, and no part holds `c`. */
  function Split(s: string, c: char): (parts: seq<string>)
    ensures |parts| >= 1
    ensures forall p :: p in parts ==> c !in p
    decreases |s|
  {
    if s == [] then [""]
    else
      var rest := Split(s[1..], c);
      if s[0] == c then [""] + rest
      else [[s[0]] + rest[0]] + rest[1..]
  }

  /** Joining what was split gives back the original text. */
  lemma {:induction false} JoinSplit(s: string, c: char)
    ensures Join(Split(s, c), [c]) == s
    decreases |s|
  {
    if s != [] {
      var rest := Split(s[1..], c);
      JoinSplit(s[1..], c);
      if s[0] == c {
        assert Split(s, c) == [""] + rest;
        assert ([""] + rest)[1..] == rest;
      } else {
        var parts := Split(s, c);
        assert parts == [[s[0]] + rest[0]] + rest[1..];
        if |rest| == 1 {
          assert Join(rest, [c]) == rest[0];
        } else {
          assert Join(rest, [c]) == rest[0] + [c] + Join(rest[1..], [c]);
          assert parts[1..] == rest[1..];
        }
      }
    }
  }

  /** Text without the separator splits into itself alone. */
  lemma {:induction false} SplitWithout(x: string, c: char)
    requires c !in x
    ensures Split(x, c) == [x]
    decreases |x|
  {
    if x != [] {
      SplitWithout(x[1..], c);
      assert [x[0]] + x[1..] == x;
    }
  }

  /** A separator after separator-free text closes the first part. */
  lemma {:induction false} SplitAfter(x: string, c: char, y: string)
    requires c !in x
    ensures Split(x + [c] + y, c) == [x] + Split(y, c)
    decreases |x|
  {
    if x == [] {
      assert x + [c] + y == [c] + y;
      assert ([c] + y)[1..] == y;
    } else {
      assert (x + [c] + y)[1..] == x[1..] + [c] + y;
      SplitAfter(x[1..], c, y);
      assert [x[0]] + x[1..] == x;
    }
  }

  /** Splitting what was joined gives back the parts, provided no part holds the separator. */
  lemma {:induction false} SplitJoin(parts: seq<string>, c: char)
    requires |parts| >= 1
    requires forall p :: p in parts ==> c !in p
    ensures Split(Join(parts, [c]), c) == parts
    decreases |parts|
  {
    if |parts| == 1 {
      SplitWithout(parts[0], c);
    } else {
      assert parts[0] in parts;
      assert forall p :: p in parts[1..] ==> p in parts;
      SplitJoin(parts[1..], c);
      SplitAfter(parts[0], c, Join(parts[1..], [c]));
    }
  }

  /** A character of a concatenation comes from one of its halves. */
  lemma CharsOfConcat(a: string, b: string)
    ensures forall c :: c in a + b <==> c in a || c in b
  {
    forall c | c in a + b ensures c in a || c in b {
      var k :| 0 <= k < |a + b| && (a + b)[k] == c;
      if k >= |a| {
        assert b[k - |a|] == c;
      }
    }
  }

  /** Where the last component of a path starts: just after its last '/', or at 0. */
  function BasenameStart(path: string): (i: nat)
    ensures i <= |path|
    ensures forall k :: i <= k < |path| ==> path[k] != '/'
    ensures i > 0 ==> path[i - 1] == '/'
    decreases |path|
  {
    if path == [] || path[|path| - 1] == '/' then |path|
    else BasenameStart(path[..|path| - 1])
  }

  /** Python's `os.path.basename`: the part of the path after its last '/'. */
  function Basename(path: string): (b: string)
    ensures b == path[BasenameStart(path)..]
    decreases |path|
  {
    if path == [] || path[|path| - 1] == '/' then []
    else
      var init := path[..|path| - 1];
      assert init[BasenameStart(init)..] + [path[|path| - 1]] == path[BasenameStart(init)..];
      Basename(init) + [path[|path| - 1]]
  }

  /** The basename is the longest suffix of the path that holds no '/'. */
  lemma BasenameSuffix(path: string)
    ensures |Basename(path)| <= |path| && path[|path| - |Basename(path)|..] == Basename(path)
    ensures '/' !in Basename(path)
    ensures |Basename(path)| < |path| ==> path[|path| - |Basename(path)| - 1] == '/'
  {
    var i := BasenameStart(path);
    assert |path| - |Basename(path)| == i;
  }

  /** A path that ends in '/' followed by a name without '/' has that name as its basename. */
  lemma BasenameAfterSlash(dir: string, name: string)
    requires '/' !in name
    ensures Basename(dir + "/" + name) == name
  {
    var path := dir + "/" + name;
    var i := BasenameStart(path);
    assert path[|dir|] == '/';
    assert forall k :: |dir| + 1 <= k < |path| ==> path[k] == name[k - |dir| - 1];
    assert i == |dir| + 1;
    assert path[i..] == name;
  }

  /** The pieces of `parts` that splitting the text `" | ".join(parts)` at each '|' gives:
      every piece keeps the blank on each side that touches a '|'. With `lead`, the first piece
      also keeps a blank in front. */
  function Spaced(parts: seq<string>, lead: bool): (pieces: seq<string>)
    ensures |pieces| == |parts|
    decreases |parts|
  {
    if parts == [] then []
    else
      var first := if lead then " " + parts[0] else parts[0];
      if |parts| == 1 then [first]
      else [first + " "] + Spaced(parts[1..], true)
  }

  /** `" | ".join(parts)` with a blank in front is the pieces, blank in front, joined by '|'. */
  lemma {:induction false} JoinSpacedLead(parts: seq<string>)
    requires |parts| >= 1
    ensures " " + Join(parts, " | ") == Join(Spaced(parts, true), "|")
    decreases |parts|
  {
    if |parts| > 1 {
      JoinSpacedLead(parts[1..]);
      var pieces := Spaced(parts, true);
      assert pieces[1..] == Spaced(parts[1..], true);
      assert " " + Join(parts, " | ") == (" " + parts[0] + " ") + "|" + (" " + Join(parts[1..], " | "));
    }
  }

  /** The blanks around a '|' belong to the pieces on either side. */
  lemma SpacedBar(left: string, right: string)
    ensures (left + " ") + "|" + (" " + right) == left + " | " + right
  {
    var a := (left + " ") + "|" + (" " + right);
    var b := left + " | " + right;
    assert |a| == |b|;
    forall k | 0 <= k < |a| ensures a[k] == b[k] {
      if k < |left| {
        assert a[k] == left[k] == b[k];
      } else if k >= |left| + 3 {
        assert a[k] == right[k - |left| - 3] == b[k];
      }
    }
  }

  /** `" | ".join(parts)` is the pieces joined by '|'. */
  lemma JoinSpaced(parts: seq<string>)
    requires |parts| >= 1
    ensures Join(parts, " | ") == Join(Spaced(parts, false), "|")
  {
    if |parts| > 1 {
      var rest := Join(parts[1..], " | ");
      JoinSpacedLead(parts[1..]);
      var pieces := Spaced(parts, false);
      assert pieces == [parts[0] + " "] + Spaced(parts[1..], true);
      assert pieces[1..] == Spaced(parts[1..], true);
      calc {
        Join(pieces, "|");
        pieces[0] + "|" + Join(pieces[1..], "|");
        (parts[0] + " ") + "|" + (" " + rest);
        { SpacedBar(parts[0], rest); }
        parts[0] + " | " + rest;
        Join(parts, " | ");
      }
    }
  }

  /** A piece holds a '|' only where its part does. */
  lemma SpacedBarFree(parts: seq<string>, lead: bool)
    requires forall p :: p in parts ==> '|' !in p
    ensures forall p :: p in Spaced(parts, lead) ==> '|' !in p
    decreases |parts|
  {
    if |parts| > 1 {
      assert forall p :: p in parts[1..] ==> p in parts;
      SpacedBarFree(parts[1..], true);
      assert parts[0] in parts;
    } else if |parts| == 1 {
      assert parts[0] in parts;
    }
  }

  /** Splitting `" | ".join(parts)` at each '|' gives the padded parts back, provided no part
      holds a '|'. */
  lemma SplitJoinSpaced(parts: seq<string>)
    requires |parts| >= 1
    requires forall p :: p in parts ==> '|' !in p
    ensures Split(Join(parts, " | "), '|') == Spaced(parts, false)
  {
    JoinSpaced(parts);
    SpacedBarFree(parts, false);
    SplitJoin(Spaced(parts, false), '|');
  }

  /** Concatenation of a sequence of lines, as written one after another to a stream. */
  function Concat(lines: seq<string>): string
  {
    if lines == [] then "" else lines[0] + Concat(lines[1..])
  }

  /** Lines no longer than their counterparts make a text no longer than theirs. */
  lemma {:induction false} ConcatNoLonger(short: seq<string>, long: seq<string>)
    requires |short| == |long|
    requires forall i :: 0 <= i < |short| ==> |short[i]| <= |long[i]|
    ensures |Concat(short)| <= |Concat(long)|
    decreases |short|
  {
    if short != [] {
      assert forall i :: 0 <= i < |short| - 1 ==> short[1..][i] == short[i + 1] && long[1..][i] == long[i + 1];
      ConcatNoLonger(short[1..], long[1..]);
    }
  }

  /** Writing one more line appends it to what was written. */
  lemma {:induction false} ConcatAppend(lines: seq<string>, line: string)
    ensures Concat(lines + [line]) == Concat(lines) + line
    decreases |lines|
  {
    if lines != [] {
      assert (lines + [line])[1..] == lines[1..] + [line];
      ConcatAppend(lines[1..], line);
    }
  }

  /** Length of the first line of a non-empty text, its '\n' included when it has one. */
  function FirstLineLength(text: string): (n: nat)
    requires text != []
    ensures 0 < n <= |text|
    ensures forall k :: 0 <= k < n - 1 ==> text[k] != '\n'
    ensures n < |text| ==> text[n - 1] == '\n'
    decreases |text|
  {
    if text[0] == '\n' || |text| == 1 then 1 else 1 + FirstLineLength(text[1..])
  }

  /** The lines Python yields when iterating over a text stream: each keeps its '\n', and a last
      line without one is yielded when it is non-empty. */
  function Lines(text: string): (lines: seq<string>)
    ensures Concat(lines) == text
    decreases |text|
  {
    if text == [] then []
    else
      var n := FirstLineLength(text);
      var rest := Lines(text[n..]);
      assert ([text[..n]] + rest)[1..] == rest;
      assert text[..n] + text[n..] == text;
      [text[..n]] + rest
  }

  /** A single line as the iteration yields it: non-empty, with '\n' at most as its last character. */
  predicate IsLine(line: string)
  {
    line != [] && forall k :: 0 <= k < |line| - 1 ==> line[k] != '\n'
  }

  /** A sequence of lines that a text stream could yield: every line but the last ends in '\n'. */
  predicate WellFormedLines(lines: seq<string>)
  {
    (forall i :: 0 <= i < |lines| ==> IsLine(lines[i])) &&
    (forall i :: 0 <= i < |lines| - 1 ==> lines[i][|lines[i]| - 1] == '\n')
  }

  /** Prepending a line keeps a sequence of lines well-formed, and only a well-formed one. */
  lemma WellFormedCons(first: string, rest: seq<string>)
    ensures WellFormedLines([first] + rest) <==>
      IsLine(first) && WellFormedLines(rest) && (rest != [] ==> first[|first| - 1] == '\n')
  {
    var lines := [first] + rest;
    assert forall i :: 0 <= i < |rest| ==> rest[i] == lines[i + 1];
    assert lines[0] == first;
  }

  /** Iterating over a text yields well-formed lines. */
  lemma {:induction false} LinesWellFormed(text: string)
    ensures WellFormedLines(Lines(text))
    decreases |text|
  {
    if text != [] {
      var n := FirstLineLength(text);
      LinesWellFormed(text[n..]);
      var rest := Lines(text[n..]);
      assert rest != [] ==> n < |text|;
      WellFormedCons(text[..n], rest);
    }
  }

  /** Iterating over a text yields well-formed lines whose concatenation is the text. */
  lemma LinesOfText(text: string)
    ensures WellFormedLines(Lines(text))
    ensures Concat(Lines(text)) == text
  {
    LinesWellFormed(text);
  }

  /** The first line of a text is fixed by where its first '\n' is. */
  lemma FirstLineLengthUnique(text: string, n: nat)
    requires 0 < n <= |text|
    requires forall k :: 0 <= k < n - 1 ==> text[k] != '\n'
    requires n == |text| || text[n - 1] == '\n'
    ensures FirstLineLength(text) == n
  {
  }

  /** Writing well-formed lines to a stream and iterating over it again yields the same lines. */
  lemma {:induction false} LinesOfConcat(lines: seq<string>)
    requires WellFormedLines(lines)
    ensures Lines(Concat(lines)) == lines
    decreases |lines|
  {
    if lines != [] {
      var text := Concat(lines);
      var first := lines[0];
      assert IsLine(first);
      assert lines == [first] + lines[1..];
      WellFormedCons(first, lines[1..]);
      LinesOfConcat(lines[1..]);
      assert text == first + Concat(lines[1..]);
      if |lines| > 1 {
        assert first[|first| - 1] == '\n';
        FirstLineLengthUnique(text, |first|);
      } else {
        assert Concat(lines[1..]) == "";
        assert text == first;
        FirstLineLengthUnique(text, |first|);
      }
      assert text[..|first|] == first;
      assert text[|first|..] == Concat(lines[1..]);
    }
  }
}
