/** The FASTA header rewriter of the FlyBase connector (`FlyBaseDB.format_fasta`).

    Every line of the input stream that starts with '>' goes through Python's
    `re.sub(r'>gi\|\d+\|(ref|gb)\|([^\|]+)\S+', r'>\g<2>', line)`; every other line is copied.
    The substitution is modelled exactly for this one pattern: the search is unanchored, every
    leftmost non-overlapping match is replaced, and the backtracking of `([^\|]+)\S+` is spelled
    out. `\d` is taken as an ASCII digit and `\s` as ASCII white space. */
module HeaderRewriter {
  import opened Wrappers
  import opened Text
  import opened Substitution

  predicate IsDigit(c: char) { '0' <= c <= '9' }

  /** The characters `\s` matches (so `\S` is every other character). */
  predicate IsSpace(c: char)
  {
    // tab, line feed, vertical tab, form feed and carriage return are '\t' through '\r'
    c == ' ' || '\t' <= c <= '\r'
  }

  /** End of the run of digits starting at index i (what `\d+` can take). */
  function DigitsEnd(t: string, i: nat): (j: nat)
    requires i <= |t|
    ensures i <= j <= |t|
    ensures forall k :: i <= k < j ==> IsDigit(t[k])
    ensures j == |t| || !IsDigit(t[j])
    decreases |t| - i
  {
    if i == |t| || !IsDigit(t[i]) then i else DigitsEnd(t, i + 1)
  }

  /** End of the run of characters other than '|' starting at index i (what `[^\|]+` can take). */
  function BarFreeEnd(t: string, i: nat): (j: nat)
    requires i <= |t|
    ensures i <= j <= |t|
    ensures forall k :: i <= k < j ==> t[k] != '|'
    ensures j == |t| || t[j] == '|'
    decreases |t| - i
  {
    if i == |t| || t[i] == '|' then i else BarFreeEnd(t, i + 1)
  }

  /** End of the run of non-space characters starting at index i (what `\S+` can take). */
  function NonSpaceEnd(t: string, i: nat): (j: nat)
    requires i <= |t|
    ensures i <= j <= |t|
    ensures forall k :: i <= k < j ==> !IsSpace(t[k])
    ensures j == |t| || IsSpace(t[j])
    decreases |t| - i
  {
    if i == |t| || IsSpace(t[i]) then i else NonSpaceEnd(t, i + 1)
  }

  /** Each run is determined by where it stops. */
  lemma DigitsEndUnique(t: string, i: nat, j: nat)
    requires i <= j <= |t|
    requires forall k :: i <= k < j ==> IsDigit(t[k])
    requires j == |t| || !IsDigit(t[j])
    ensures DigitsEnd(t, i) == j
  {
  }

  lemma BarFreeEndUnique(t: string, i: nat, j: nat)
    requires i <= j <= |t|
    requires forall k :: i <= k < j ==> t[k] != '|'
    requires j == |t| || t[j] == '|'
    ensures BarFreeEnd(t, i) == j
  {
  }

  lemma NonSpaceEndUnique(t: string, i: nat, j: nat)
    requires i <= j <= |t|
    requires forall k :: i <= k < j ==> !IsSpace(t[k])
    requires j == |t| || IsSpace(t[j])
    ensures NonSpaceEnd(t, i) == j
  {
  }

  /** Where the fixed part `>gi|<digits>|ref|` or `>gi|<digits>|gb|` of a match at t[0] ends:
      the index at which the accession group starts, or 0 when the fixed part is not there (it
      is at least nine characters long). `\d+` is followed by '|', so it can only take the whole
      run of digits; `ref` and `gb` differ in their first letter, so at most one alternative
      applies. */
  function PrefixEnd(t: string): (r: nat)
    ensures r <= |t|
    ensures r != 0 ==> 9 <= r && t[0] == '>' && t[r - 1] == '|'
  {
    if !(|t| >= 4 && t[0] == '>' && t[1] == 'g' && t[2] == 'i' && t[3] == '|') then 0
    else
      var d := DigitsEnd(t, 4);
      if d == 4 || d + 4 > |t| || t[d] != '|' then 0
      else if d + 5 <= |t| && t[d + 1] == 'r' && t[d + 2] == 'e' && t[d + 3] == 'f' && t[d + 4] == '|'
      then d + 5
      else if t[d + 1] == 'g' && t[d + 2] == 'b' && t[d + 3] == '|' then d + 4
      else 0
  }

  /** The regex engine's backtracking over `([^\|]+)\S+`: the group first takes the whole run of
      `len` non-'|' characters after index `q`, then gives them back one at a time until a
      non-space character follows it, for `\S+` to start on. The result is the group's length,
      or 0 when no length works (`+` needs at least one character). */
  function Backtrack(t: string, q: nat, len: nat): (r: nat)
    requires q + len <= |t|
    ensures r <= len
    ensures r != 0 ==> q + r < |t| && !IsSpace(t[q + r])
    decreases len
  {
    if len == 0 then 0
    else if q + len < |t| && !IsSpace(t[q + len]) then len
    else Backtrack(t, q, len - 1)
  }

  /** Backtracking gives back only what it must: the group is the longest part of the run that
      a non-space character follows, so every longer candidate is followed by white space or by
      the end of the text. */
  lemma {:induction false} BacktrackLongest(t: string, q: nat, len: nat)
    requires q + len <= |t|
    ensures forall j :: q + Backtrack(t, q, len) < j <= q + len ==> j == |t| || IsSpace(t[j])
    decreases len
  {
    if len > 0 && !(q + len < |t| && !IsSpace(t[q + len])) {
      BacktrackLongest(t, q, len - 1);
    }
  }

  /** Conversely, a length that a non-space character follows and after which every longer
      candidate is followed by white space or the end of the text is the one backtracking finds. */
  lemma {:induction false} BacktrackExact(t: string, q: nat, len: nat, g: nat)
    requires 0 < g <= len && q + len <= |t|
    requires q + g < |t| && !IsSpace(t[q + g])
    requires forall j :: q + g < j <= q + len ==> j == |t| || IsSpace(t[j])
    ensures Backtrack(t, q, len) == g
    decreases len
  {
    if len > g {
      BacktrackExact(t, q, len - 1, g);
    }
  }

  /** The match of the header pattern at the start of `t`, if there is one. It starts with '>',
      its accession group is not empty, and something follows the group (see MatchShape). */
  function HeaderMatch(t: string): (r: Option<Match>)
    ensures r.Some? ==> t != [] && t[0] == '>'
    ensures r.Some? ==> 1 < r.value.groupStart < r.value.groupEnd < r.value.end <= |t|
  {
    var q := PrefixEnd(t);
    if q == 0 then None
    else
      var len := Backtrack(t, q, BarFreeEnd(t, q) - q);
      if len == 0 then None
      else Some(Match(q, q + len, NonSpaceEnd(t, q + len)))
  }

  /** The accession group of a match holds no '|', the `\S+` after it holds no white space, and
      the match stops at white space or at the end of the text. */
  lemma MatchShape(t: string)
    requires HeaderMatch(t).Some?
    ensures var m := HeaderMatch(t).value;
      (forall k :: m.groupStart <= k < m.groupEnd ==> t[k] != '|') &&
      (forall k :: m.groupEnd <= k < m.end ==> !IsSpace(t[k])) &&
      (m.end == |t| || IsSpace(t[m.end]))
  {
  }

  /** The pattern meets what the substitution needs of it, and its group stops short of the end
      of the match. */
  lemma HeaderMatchIsMatcher()
    ensures IsMatcher(HeaderMatch)
    ensures forall t :: HeaderMatch(t).Some? ==> HeaderMatch(t).value.groupEnd < HeaderMatch(t).value.end
  {
  }

  /** `re.sub(r'>gi\|\d+\|(ref|gb)\|([^\|]+)\S+', r'>\g<2>', t)`. It never lengthens the text,
      and it keeps its first character, so a header stays a header. */
  function Rewrite(t: string): (r: string)
    ensures |r| <= |t|
    ensures r == [] <==> t == []
    ensures t != [] ==> r[0] == t[0]
  {
    HeaderMatchIsMatcher();
    SubstituteShrinks(HeaderMatch, t);
    Substitute(HeaderMatch, t)
  }

  /** No match of the header pattern starts anywhere in `t`. */
  predicate MatchFree(t: string)
  {
    NoMatch(HeaderMatch, t)
  }

  /** The body of the loop in `format_fasta`: only lines starting with '>' are rewritten. */
  function FormatLine(line: string): (r: string)
    ensures |r| <= |line|
    ensures r == [] <==> line == []
    ensures line != [] ==> r[0] == line[0]
  {
    if |line| > 0 && line[0] == '>' then Rewrite(line) else line
  }

  // ---------------------------------------------------------------------------------------
  // Pass-through: text without a match is copied, and only such text is.
  // ---------------------------------------------------------------------------------------

  /** The rewrite leaves a text unchanged exactly when no match of the pattern starts in it, and
      it shortens every other text. */
  lemma RewriteUnchangedIff(t: string)
    ensures Rewrite(t) == t <==> MatchFree(t)
    ensures |Rewrite(t)| <= |t|
    ensures !MatchFree(t) ==> |Rewrite(t)| < |t|
  {
    HeaderMatchIsMatcher();
    SubstituteUnchangedIff(HeaderMatch, t);
    SubstituteShrinks(HeaderMatch, t);
  }

  /** Every match starts with '>', so text without '>' holds no match. */
  lemma NoMarkerMatchFree(t: string)
    requires '>' !in t
    ensures MatchFree(t)
  {
    forall i | 0 <= i < |t| ensures HeaderMatch(t[i..]).None? {
      assert t[i..][0] == t[i];
    }
  }

  /** The rewrite only deletes: every character it emits comes from its input. */
  lemma RewriteChars(t: string)
    ensures forall c :: c in Rewrite(t) ==> c in t
  {
    HeaderMatchIsMatcher();
    SubstituteChars(HeaderMatch, t);
  }

  // ---------------------------------------------------------------------------------------
  // Idempotence: no match starts anywhere in rewritten text.
  // ---------------------------------------------------------------------------------------

  /** '>' followed by an accession (no '|') and then white space or nothing cannot start a match:
      the pattern needs '|' as its fourth character. */
  lemma NoMatchAfterReplacement(g: string, w: string)
    requires '|' !in g
    requires w == [] || IsSpace(w[0])
    ensures HeaderMatch(">" + g + w).None?
  {
    var u := ">" + g + w;
    if |u| >= 4 {
      if |g| >= 3 {
        assert u[3] == g[2];
      } else {
        assert u[|g| + 1] == w[0];
      }
    }
  }

  /** A replacement followed by match-free text is match-free. */
  lemma MatchFreeReplacement(g: string, w: string)
    requires '|' !in g
    requires w == [] || IsSpace(w[0])
    requires MatchFree(w)
    ensures MatchFree(">" + g + w)
  {
    var u := ">" + g + w;
    forall i | 0 <= i < |u| ensures HeaderMatch(u[i..]).None? {
      if i == 0 {
        assert u[0..] == u;
        NoMatchAfterReplacement(g, w);
      } else if i <= |g| {
        if g[i - 1] == '>' {
          assert u[i..] == ">" + g[i..] + w;
          assert forall c :: c in g[i..] ==> c in g;
          NoMatchAfterReplacement(g[i..], w);
        } else {
          assert u[i..][0] == g[i - 1];
        }
      } else {
        assert u[i..] == w[i - 1 - |g|..];
      }
    }
  }

  /** If a text `u` agrees with `t` before index m0 and has '>' at m0, a fixed part matched at the
      start of `u` ends by m0 and is matched by `t` as well ('>' is none of its later characters). */
  lemma PrefixAgrees(t: string, u: string, m0: nat)
    requires 0 < m0 <= |t| && m0 < |u|
    requires u[m0] == '>'
    requires forall k :: 0 <= k < m0 ==> u[k] == t[k]
    requires PrefixEnd(u) != 0
    ensures PrefixEnd(u) <= m0
    ensures PrefixEnd(t) == PrefixEnd(u)
  {
    assert m0 >= 4;
    var d := DigitsEnd(u, 4);
    assert d < m0;
    DigitsEndUnique(t, 4, d);
    assert PrefixEnd(u) - 1 < m0;
  }

  /** The rewrite keeps everything before the next header match of `t` at index m0 and starts
      the rewritten rest with '>'. A match at the start of that result would already have been a
      match at the start of `t`: the '|' at m0 + 3 of `t` ends the accession run there at the
      latest. */
  lemma MatchBeforeNextHeader(t: string, m0: nat, v: string)
    requires 0 < m0 && m0 + 4 <= |t|
    requires t[m0] == '>' && t[m0 + 3] == '|'
    requires v != [] && v[0] == '>'
    requires HeaderMatch(t[..m0] + v).Some?
    ensures HeaderMatch(t).Some?
  {
    var u := t[..m0] + v;
    assert u[m0] == '>';
    assert forall k :: 0 <= k < m0 ==> u[k] == t[k];
    PrefixAgrees(t, u, m0);
    var q := PrefixEnd(u);
    assert u[q] != '|';
    assert t[q] != '|' by {
      if q < m0 {
        assert t[q] == u[q];
      }
    }
    var e := BarFreeEnd(t, q);
    assert e <= m0 + 3;
    assert e > q;
    assert Backtrack(t, q, e - q) == e - q;
  }

  /** Where no match starts in a text, none starts in its rewrite either. */
  lemma NoMatchAtSkip(t: string)
    requires t != []
    requires HeaderMatch(t).None?
    ensures HeaderMatch(Rewrite(t)).None?
  {
    HeaderMatchIsMatcher();
    assert t[0..] == t;
    match NextMatch(HeaderMatch, t, 1)
    case None =>
      NoMatchUnchanged(HeaderMatch, t);
    case Some(m0) =>
      SubstituteUpTo(HeaderMatch, t, m0);
      assert PrefixEnd(t[m0..]) != 0;
      assert t[m0..][3] == t[m0 + 3];
      if HeaderMatch(Rewrite(t)).Some? {
        MatchBeforeNextHeader(t, m0, Rewrite(t[m0..]));
      }
  }

  /** No match of the header pattern starts anywhere in rewritten text. */
  lemma {:induction false} RewriteMatchFree(t: string)
    ensures MatchFree(Rewrite(t))
    decreases |t|
  {
    HeaderMatchIsMatcher();
    if t != [] {
      match HeaderMatch(t)
      case Some(m) =>
        var rest := t[m.end..];
        MatchShape(t);
        RewriteMatchFree(rest);
        assert Rewrite(t) == ">" + t[m.groupStart..m.groupEnd] + Rewrite(rest);
        MatchFreeReplacement(t[m.groupStart..m.groupEnd], Rewrite(rest));
      case None =>
        var out := Rewrite(t);
        RewriteMatchFree(t[1..]);
        assert out == [t[0]] + Rewrite(t[1..]);
        forall i | 0 <= i < |out| ensures HeaderMatch(out[i..]).None? {
          if i == 0 {
            assert out[0..] == out;
            NoMatchAtSkip(t);
          } else {
            assert out[i..] == Rewrite(t[1..])[i - 1..];
          }
        }
    }
  }

  /** Rewriting twice gives the same text as rewriting once. */
  lemma RewriteIdempotent(t: string)
    ensures Rewrite(Rewrite(t)) == Rewrite(t)
  {
    HeaderMatchIsMatcher();
    RewriteMatchFree(t);
    NoMatchUnchanged(HeaderMatch, Rewrite(t));
  }

  // ---------------------------------------------------------------------------------------
  // Line structure: a trailing white-space character (a line's '\n') is never touched.
  // ---------------------------------------------------------------------------------------

  /** A match stops at white space, so none reaches a white-space character at the end. */
  lemma LastSpaceUncovered(t: string)
    requires t != [] && IsSpace(t[|t| - 1])
    ensures LastUncovered(HeaderMatch, t)
  {
    forall i | 0 <= i < |t| && HeaderMatch(t[i..]).Some?
      ensures HeaderMatch(t[i..]).value.end < |t| - i
    {
      MatchShape(t[i..]);
      assert t[i..][|t| - i - 1] == t[|t| - 1];
    }
  }

  /** A text that ends in white space (a line's '\n') keeps that character as the last one of
      its rewrite, and everything the rewrite emits before it comes from the text before it. */
  lemma RewriteKeepsLast(t: string)
    requires t != [] && IsSpace(t[|t| - 1])
    ensures Rewrite(t) != [] && Rewrite(t)[|Rewrite(t)| - 1] == t[|t| - 1]
    ensures forall k :: 0 <= k < |Rewrite(t)| - 1 ==> Rewrite(t)[k] in t[..|t| - 1]
  {
    HeaderMatchIsMatcher();
    LastSpaceUncovered(t);
    SubstituteKeepsLast(HeaderMatch, t);
    SubstituteInitChars(HeaderMatch, t);
  }

  // ---------------------------------------------------------------------------------------
  // What the rewrite makes of NCBI's FASTA headers.
  // ---------------------------------------------------------------------------------------

  /** The fixed part `>gi|<digits>|<db>|` of a header, `db` being `ref` or `gb`. */
  function GiPrefix(digits: string, db: string): string
  {
    ">gi|" + digits + "|" + db + "|"
  }

  /** Conversely, `PrefixEnd` finds nothing but a fixed part: when it is not 0, the text starts
      with `>gi|<digits>|ref|` or `>gi|<digits>|gb|` and the fixed part ends there. */
  lemma PrefixEndSound(t: string)
    requires PrefixEnd(t) != 0
    ensures exists digits, db ::
              (digits != [] && (forall k :: 0 <= k < |digits| ==> IsDigit(digits[k])) &&
               (db == "ref" || db == "gb") && t[..PrefixEnd(t)] == GiPrefix(digits, db))
  {
    var d := DigitsEnd(t, 4);
    var digits := t[4..d];
    assert forall k :: 0 <= k < |digits| ==> IsDigit(digits[k]);
    if PrefixEnd(t) == d + 5 && t[d + 1] == 'r' {
      assert t[..d + 5] == GiPrefix(digits, "ref");
    } else {
      assert t[..d + 4] == GiPrefix(digits, "gb");
    }
  }

  /** Where the fixed part ends, whatever follows it. */
  lemma GiPrefixEnd(digits: string, db: string, rest: string)
    requires digits != [] && forall k :: 0 <= k < |digits| ==> IsDigit(digits[k])
    requires db == "ref" || db == "gb"
    ensures PrefixEnd(GiPrefix(digits, db) + rest) == |GiPrefix(digits, db)|
  {
    var t := GiPrefix(digits, db) + rest;
    var d := 4 + |digits|;
    assert t[..4] == ">gi|";
    assert forall k :: 4 <= k < d ==> t[k] == digits[k - 4];
    assert t[d] == '|';
    DigitsEndUnique(t, 4, d);
    assert t[d + 1] == db[0] && t[d + 2] == db[1];
    if db == "ref" {
      assert t[d + 3] == 'f' && t[d + 4] == '|';
    } else {
      assert t[d + 3] == '|';
    }
  }

  /** A match whose accession run is closed by a '|': the group is the whole run, and `\S+`
      takes the '|' and the non-space characters after it, up to white space or the end of the
      text at index f. */
  lemma ClosedAccessionMatch(t: string, e: nat, f: nat)
    requires PrefixEnd(t) != 0 && PrefixEnd(t) < e < f <= |t|
    requires forall k :: PrefixEnd(t) <= k < e ==> t[k] != '|'
    requires t[e] == '|'
    requires forall k :: e < k < f ==> !IsSpace(t[k])
    requires f == |t| || IsSpace(t[f])
    ensures HeaderMatch(t) == Some(Match(PrefixEnd(t), e, f))
  {
    var q := PrefixEnd(t);
    BarFreeEndUnique(t, q, e);
    NonSpaceEndUnique(t, e, f);
  }

  /** A match whose accession run reaches the end of the text, its last non-space character at
      index e - 1 and only white space after it: the group gives that character back for `\S+`
      to take. */
  lemma OpenAccessionMatch(t: string, e: nat)
    requires PrefixEnd(t) != 0 && PrefixEnd(t) + 1 < e <= |t|
    requires forall k :: PrefixEnd(t) <= k < |t| ==> t[k] != '|'
    requires !IsSpace(t[e - 1])
    requires forall k :: e <= k < |t| ==> IsSpace(t[k])
    ensures HeaderMatch(t) == Some(Match(PrefixEnd(t), e - 1, e))
  {
    var q := PrefixEnd(t);
    BarFreeEndUnique(t, q, |t|);
    BacktrackExact(t, q, |t| - q, e - 1 - q);
    NonSpaceEndUnique(t, e - 1, e);
  }

  /** Where a match starts, the rewrite emits its replacement and resumes after it. */
  lemma RewriteAtMatch(t: string, m: Match)
    requires HeaderMatch(t) == Some(m)
    ensures Rewrite(t) == ">" + t[m.groupStart..m.groupEnd] + Rewrite(t[m.end..])
  {
    HeaderMatchIsMatcher();
    SubstituteAtMatch(HeaderMatch, t);
  }

  /** The positions in a header laid out as `<fixed part><accession><rest>`. */
  lemma GiHeaderLayout(digits: string, db: string, acc: string, rest: string)
    requires digits != [] && forall k :: 0 <= k < |digits| ==> IsDigit(digits[k])
    requires db == "ref" || db == "gb"
    ensures var t := GiPrefix(digits, db) + acc + rest;
      var q := |GiPrefix(digits, db)|;
      PrefixEnd(t) == q &&
      (forall k :: q <= k < q + |acc| ==> t[k] == acc[k - q]) &&
      (forall k :: q + |acc| <= k < |t| ==> t[k] == rest[k - q - |acc|]) &&
      t[q..q + |acc|] == acc && t[q + |acc|..] == rest
  {
    var p := GiPrefix(digits, db);
    assert p + acc + rest == p + (acc + rest);
    GiPrefixEnd(digits, db, acc + rest);
  }

  /** A header in NCBI's layout `>gi|<digits>|ref|<accession>|<tail><description>` (or with
      `gb`), where the tail holds no white space and the description is empty or starts with
      white space, becomes '>', the accession and the rewritten description: the tail goes with
      the match. `>gi|116010290|ref|NC_004354.3| Drosophila melanogaster chromosome X` (an empty
      tail) becomes `>NC_004354.3 Drosophila melanogaster chromosome X`, and `>gi|1|ref|NC_1|x y`
      becomes `>NC_1 y`. */
  lemma RewriteGiHeader(digits: string, db: string, acc: string, tail: string, desc: string)
    requires digits != [] && forall k :: 0 <= k < |digits| ==> IsDigit(digits[k])
    requires db == "ref" || db == "gb"
    requires acc != [] && '|' !in acc
    requires forall k :: 0 <= k < |tail| ==> !IsSpace(tail[k])
    requires desc == [] || IsSpace(desc[0])
    ensures Rewrite(GiPrefix(digits, db) + acc + "|" + tail + desc) == ">" + acc + Rewrite(desc)
  {
    var p := GiPrefix(digits, db);
    var bar := "|" + tail;
    var t := p + acc + (bar + desc);
    var q := |p|;
    var e := q + |acc|;
    var f := e + |bar|;
    ClosedGiHeader(digits, db, acc, tail, desc);
    ClosedAccessionMatch(t, e, f);
    RewriteAtMatch(t, Match(q, e, f));
    AppendAssoc(p + acc, "|", tail);
    AppendAssoc(p + acc, bar, desc);
  }

  /** The positions in such a header: the accession run starts where the fixed part ends and is
      closed by the '|' at index e; the tail runs to index f, where the description starts. */
  lemma ClosedGiHeader(digits: string, db: string, acc: string, tail: string, desc: string)
    requires digits != [] && forall k :: 0 <= k < |digits| ==> IsDigit(digits[k])
    requires db == "ref" || db == "gb"
    requires acc != [] && '|' !in acc
    requires forall k :: 0 <= k < |tail| ==> !IsSpace(tail[k])
    requires desc == [] || IsSpace(desc[0])
    ensures var t := GiPrefix(digits, db) + acc + ("|" + tail + desc);
      var q := |GiPrefix(digits, db)|;
      var e := q + |acc|;
      var f := e + 1 + |tail|;
      PrefixEnd(t) == q && f <= |t| &&
      (forall k :: q <= k < e ==> t[k] != '|') && t[e] == '|' &&
      (forall k :: e < k < f ==> !IsSpace(t[k])) && (f == |t| || IsSpace(t[f])) &&
      t[q..e] == acc && t[f..] == desc
  {
    var rest := "|" + tail + desc;
    var t := GiPrefix(digits, db) + acc + rest;
    var q := |GiPrefix(digits, db)|;
    var e := q + |acc|;
    var f := e + 1 + |tail|;
    assert rest[0] == '|';
    assert forall j :: 0 < j < 1 + |tail| ==> !IsSpace(rest[j]) by {
      forall j | 0 < j < 1 + |tail| ensures !IsSpace(rest[j]) {
        assert rest[j] == tail[j - 1];
      }
    }
    assert rest[1 + |tail|..] == desc;
    GiHeaderLayout(digits, db, acc, rest);
    assert forall k :: q <= k < e ==> t[k] in acc;
    assert t[f..] == rest[1 + |tail|..];
  }

  /** A header whose accession is followed by nothing but white space (no '|' closes it) loses
      the accession's last character: `>gi|1|ref|NC_1` and a line end become `>NC_` and the line
      end. */
  lemma RewriteBareAccession(digits: string, db: string, acc: string, ws: string)
    requires digits != [] && forall k :: 0 <= k < |digits| ==> IsDigit(digits[k])
    requires db == "ref" || db == "gb"
    requires |acc| >= 2 && '|' !in acc && forall k :: 0 <= k < |acc| ==> !IsSpace(acc[k])
    requires forall k :: 0 <= k < |ws| ==> IsSpace(ws[k])
    ensures Rewrite(GiPrefix(digits, db) + acc + ws) == ">" + acc[..|acc| - 1] + ws
  {
    var t := GiPrefix(digits, db) + acc + ws;
    var q := |GiPrefix(digits, db)|;
    var e := q + |acc|;
    GiHeaderLayout(digits, db, acc, ws);
    assert t[q..e - 1] == acc[..|acc| - 1];
    OpenAccessionMatch(t, e);
    RewriteAtMatch(t, Match(q, e - 1, e));
    assert forall k :: 0 <= k < |ws| ==> ws[k] != '>';
    NoMarkerMatchFree(ws);
    HeaderMatchIsMatcher();
    NoMatchUnchanged(HeaderMatch, ws);
  }
}
